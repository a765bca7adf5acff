/**
 * The bulk import of the sales CSV file: every row becomes a sale record,
 * records are buffered and written in batches of 20000, and what is left
 * in the buffer is written when the input ends.
 */
module ImportSales {
  import opened Wrappers
  import opened SaleRecord
  import Text
  import Seqs

  /** The largest number of records written in one insert. */
  const BatchSize: nat := 20000

  /** A parsed CSV row: column header to cell text. */
  type CsvRow = map<string, string>

  /** The cell under a column, if the row has one. */
  function Cell(row: CsvRow, column: string): Option<string> {
    if column in row then Some(row[column]) else None
  }

  function CellText(row: CsvRow, column: string): string {
    Cell(row, column).GetOr("")
  }

  /**
   * The conversions the script applies to typed columns (`new Date`,
   * `Number`), taken as given.
   */
  datatype Coercions = Coercions(toDate: string -> int, toInt: string -> int, toReal: string -> real)

  // --------------------------------------------------------------- tags

  /**
   * The Tags column as a list: nothing for a missing or empty cell,
   * otherwise one trimmed piece per comma-separated part, empty parts kept.
   */
  function NormalizeTags(cell: Option<string>): (r: seq<string>)
    ensures cell.None? || cell.value == "" ==> r == []
    ensures cell.Some? && cell.value != "" ==> |r| == Text.Count(cell.value, ',') + 1
  {
    if cell.None? || cell.value == "" then []
    else
      var pieces := Text.Split(cell.value, ',');
      seq(|pieces|, i requires 0 <= i < |pieces| => Text.Trim(pieces[i]))
  }

  /** A tag as the importer leaves it: no comma, and no whitespace at either end. */
  predicate CleanTag(t: string) {
    && ',' !in t
    && (|t| > 0 ==> !Text.IsWhitespace(t[0]) && !Text.IsWhitespace(t[|t| - 1]))
  }

  /**
   * Each tag is the trimmed text between two consecutive commas (or an end
   * of the cell), so no tag holds a comma or starts or ends with whitespace.
   */
  lemma TagsArePieces(cell: string, i: int)
    requires cell != "" && 0 <= i < |NormalizeTags(Some(cell))|
    ensures i < |Text.Split(cell, ',')|
    ensures NormalizeTags(Some(cell))[i] == Text.Trim(Text.Split(cell, ',')[i])
    ensures CleanTag(NormalizeTags(Some(cell))[i])
  {
    TagAt(cell, i);
    var p := Text.Split(cell, ',')[i];
    Text.SplitPieceFree(cell, ',', i);
    TrimmedPiece(p);
  }

  lemma TagAt(cell: string, i: int)
    requires cell != "" && 0 <= i < |NormalizeTags(Some(cell))|
    ensures i < |Text.Split(cell, ',')|
    ensures NormalizeTags(Some(cell))[i] == Text.Trim(Text.Split(cell, ',')[i])
  {
  }

  /** A comma-free piece, trimmed, is a clean tag. */
  lemma TrimmedPiece(p: string)
    requires ',' !in p
    ensures CleanTag(Text.Trim(p))
  {
    Text.TrimSpec(p);
    if ',' in Text.Trim(p) {
      Text.TrimMember(p, ',');
      assert false;
    }
  }

  /**
   * Writing a list of tags out with commas and reading it back gives the
   * same list, provided no tag holds a comma or edge whitespace, and the
   * list is not the single empty tag (which is written as an empty cell).
   */
  lemma TagsRoundTrip(tags: seq<string>)
    requires |tags| > 0 && tags != [""]
    requires forall i :: 0 <= i < |tags| ==> CleanTag(tags[i])
    ensures NormalizeTags(Some(Text.Join(tags, ','))) == tags
  {
    var cell := Text.Join(tags, ',');
    Text.SplitJoin(tags, ',');
    if cell == "" {
      JoinEmpty(tags);
      assert false;
    }
    var r := NormalizeTags(Some(cell));
    forall i | 0 <= i < |tags| ensures r[i] == tags[i] {
      Text.TrimKeeps(tags[i]);
    }
  }

  /** Only the single empty tag is written as an empty cell. */
  lemma {:induction false} JoinEmpty(tags: seq<string>)
    requires |tags| > 0 && Text.Join(tags, ',') == ""
    ensures tags == [""]
  {
    if |tags| > 1 {
      assert false;
    }
  }

  // ------------------------------------------------------------ records

  /** The record one CSV row becomes. */
  function ToSale(row: CsvRow, conv: Coercions): (s: Sale)
    ensures s.tags == NormalizeTags(Cell(row, "Tags"))
  {
    Sale(
      transactionId := CellText(row, "Transaction ID"),
      date := conv.toDate(CellText(row, "Date")),
      customerId := CellText(row, "Customer ID"),
      customerName := CellText(row, "Customer Name"),
      phoneNumber := CellText(row, "Phone Number"),
      gender := CellText(row, "Gender"),
      age := conv.toInt(CellText(row, "Age")),
      customerRegion := CellText(row, "Customer Region"),
      customerType := CellText(row, "Customer Type"),
      productId := CellText(row, "Product ID"),
      productName := CellText(row, "Product Name"),
      brand := CellText(row, "Brand"),
      productCategory := CellText(row, "Product Category"),
      tags := NormalizeTags(Cell(row, "Tags")),
      quantity := conv.toInt(CellText(row, "Quantity")),
      pricePerUnit := conv.toReal(CellText(row, "Price per Unit")),
      discountPercentage := conv.toReal(CellText(row, "Discount Percentage")),
      totalAmount := conv.toReal(CellText(row, "Total Amount")),
      finalAmount := conv.toReal(CellText(row, "Final Amount")),
      paymentMethod := CellText(row, "Payment Method"),
      orderStatus := CellText(row, "Order Status"),
      deliveryType := CellText(row, "Delivery Type"),
      storeId := CellText(row, "Store ID"),
      storeLocation := CellText(row, "Store Location"),
      salespersonId := CellText(row, "Salesperson ID"),
      employeeName := CellText(row, "Employee Name"))
  }

  /** Every row converted, in input order. */
  function ConvertAll(rows: seq<CsvRow>, conv: Coercions): (r: seq<Sale>)
    ensures |r| == |rows|
  {
    if |rows| == 0 then []
    else ConvertAll(rows[..|rows| - 1], conv) + [ToSale(rows[|rows| - 1], conv)]
  }

  // ----------------------------------------------------------- batching

  /** The importer between two rows: the unwritten buffer, the inserts so far and their count. */
  datatype Importer = Importer(buffer: seq<Sale>, batches: seq<seq<Sale>>, totalInserted: nat)

  const Start: Importer := Importer([], [], 0)

  /** The `data` handler: buffer the record, and write the buffer once it is full. */
  function OnRow(st: Importer, s: Sale): Importer {
    var buffer := st.buffer + [s];
    if |buffer| >= BatchSize then Importer([], st.batches + [buffer], st.totalInserted + |buffer|)
    else st.(buffer := buffer)
  }

  /** The `end` handler: write what is left, if anything. */
  function OnEnd(st: Importer): Importer {
    if |st.buffer| > 0 then Importer([], st.batches + [st.buffer], st.totalInserted + |st.buffer|)
    else st
  }

  /** Every insert so far was a full batch. */
  ghost predicate FullBatches(batches: seq<seq<Sale>>) {
    forall k :: 0 <= k < |batches| ==> |batches[k]| == BatchSize
  }

  /**
   * The importer has handled exactly the records `seen`: the inserts
   * followed by the buffer are those records in order, every insert was a
   * full batch, the buffer is not full and the count matches the inserts.
   */
  ghost predicate Handled(st: Importer, seen: seq<Sale>) {
    && Seqs.Flatten(st.batches) + st.buffer == seen
    && FullBatches(st.batches)
    && |st.buffer| < BatchSize
    && st.totalInserted == |Seqs.Flatten(st.batches)|
    && st.totalInserted == |st.batches| * BatchSize
  }

  /** A row handler keeps the importer's account of the records it has seen. */
  lemma OnRowHandled(st: Importer, seen: seq<Sale>, s: Sale)
    requires Handled(st, seen)
    ensures Handled(OnRow(st, s), seen + [s])
  {
    var buffer := st.buffer + [s];
    if |buffer| >= BatchSize {
      Seqs.FlattenAppend(st.batches, buffer);
      var bs := st.batches + [buffer];
      forall k | 0 <= k < |bs| ensures |bs[k]| == BatchSize {
        if k < |st.batches| {
          assert bs[k] == st.batches[k];
        }
      }
    }
  }

  /**
   * At the end of the input every record has been written once, in order;
   * every insert but the last is a full batch, the last one holds between
   * one and `BatchSize` records, the count is the number of records, and
   * there are as many inserts as it takes to hold them all in full batches.
   */
  lemma OnEndWritesAll(st: Importer, seen: seq<Sale>)
    requires Handled(st, seen)
    ensures var fin := OnEnd(st);
      && Seqs.Flatten(fin.batches) == seen
      && fin.buffer == []
      && fin.totalInserted == |seen|
      && (forall k :: 0 <= k < |fin.batches| ==> 0 < |fin.batches[k]| <= BatchSize)
      && (forall k :: 0 <= k < |fin.batches| - 1 ==> |fin.batches[k]| == BatchSize)
      && (|seen| == 0 <==> |fin.batches| == 0)
      && |seen| <= |fin.batches| * BatchSize < |seen| + BatchSize
  {
    var fin := OnEnd(st);
    if |st.buffer| > 0 {
      Seqs.FlattenAppend(st.batches, st.buffer);
      forall k | 0 <= k < |fin.batches| ensures 0 < |fin.batches[k]| <= BatchSize {
        if k < |st.batches| {
          assert fin.batches[k] == st.batches[k];
        }
      }
      forall k | 0 <= k < |fin.batches| - 1 ensures |fin.batches[k]| == BatchSize {
        assert fin.batches[k] == st.batches[k];
      }
    }
  }

  /**
   * `runImport` over a whole file when every insert succeeds: the records
   * written are the converted rows in order, in batches of `BatchSize`
   * except a shorter last one, so there are as many inserts as `BatchSize`
   * divides into the rows, rounded up; the final count is the number of rows.
   */
  method ImportAll(rows: seq<CsvRow>, conv: Coercions) returns (batches: seq<seq<Sale>>, totalInserted: nat)
    ensures Seqs.Flatten(batches) == ConvertAll(rows, conv)
    ensures totalInserted == |rows|
    ensures forall k :: 0 <= k < |batches| ==> 0 < |batches[k]| <= BatchSize
    ensures forall k :: 0 <= k < |batches| - 1 ==> |batches[k]| == BatchSize
    ensures |rows| == 0 <==> |batches| == 0
    ensures |rows| <= |batches| * BatchSize < |rows| + BatchSize
  {
    var st := Start;
    var i := 0;
    while i < |rows|
      invariant 0 <= i <= |rows|
      invariant Handled(st, ConvertAll(rows[..i], conv))
    {
      ConvertStep(rows, i, conv);
      OnRowHandled(st, ConvertAll(rows[..i], conv), ToSale(rows[i], conv));
      st := OnRow(st, ToSale(rows[i], conv));
      i := i + 1;
    }
    assert rows[..i] == rows;
    OnEndWritesAll(st, ConvertAll(rows, conv));
    var fin := OnEnd(st);
    batches, totalInserted := fin.batches, fin.totalInserted;
  }

  lemma ConvertStep(rows: seq<CsvRow>, i: int, conv: Coercions)
    requires 0 <= i < |rows|
    ensures ConvertAll(rows[..i + 1], conv) == ConvertAll(rows[..i], conv) + [ToSale(rows[i], conv)]
  {
    assert rows[..i + 1][..i] == rows[..i];
  }
}
