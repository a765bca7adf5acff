/** The transaction record every part of the system exchanges. */
module SaleRecord {

  /**
   * One retail sale line, field for field as the persisted schema declares
   * it. The date is a millisecond timestamp; age and quantity are whole
   * numbers; money fields are decimals the engine never computes with.
   */
  datatype Sale = Sale(
    transactionId: string,
    date: int,
    customerId: string,
    customerName: string,
    phoneNumber: string,
    gender: string,
    age: int,
    customerRegion: string,
    customerType: string,
    productId: string,
    productName: string,
    brand: string,
    productCategory: string,
    tags: seq<string>,
    quantity: int,
    pricePerUnit: real,
    discountPercentage: real,
    totalAmount: real,
    finalAmount: real,
    paymentMethod: string,
    orderStatus: string,
    deliveryType: string,
    storeId: string,
    storeLocation: string,
    salespersonId: string,
    employeeName: string
  )
}
