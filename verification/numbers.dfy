/**
 * Integer parsing and printing as JavaScript does them for the engine's
 * query parameters, plus JavaScript's `Math.ceil(a / b)` on integers.
 */
module Numbers {
  import opened Wrappers
  import Text

  // --------------------------------------------------------------- digits

  predicate IsDigit(c: char, base: nat) {
    if base == 16 then '0' <= c <= '9' || 'a' <= c <= 'f' || 'A' <= c <= 'F'
    else '0' <= c <= '9'
  }

  function DigitValue(c: char): (d: nat)
    ensures '0' <= c <= '9' ==> d == c as int - '0' as int
    ensures d < 16
  {
    if '0' <= c <= '9' then c as int - '0' as int
    else if 'a' <= c <= 'f' then c as int - 'a' as int + 10
    else if 'A' <= c <= 'F' then c as int - 'A' as int + 10
    else 0
  }

  /** The longest prefix of `s` made of digits of `base`. */
  function DigitPrefix(s: string, base: nat): (r: string)
    ensures |r| <= |s| && r == s[..|r|]
    ensures forall i :: 0 <= i < |r| ==> IsDigit(r[i], base)
    ensures |r| < |s| ==> !IsDigit(s[|r|], base)
  {
    if |s| > 0 && IsDigit(s[0], base) then [s[0]] + DigitPrefix(s[1..], base) else []
  }

  /** The value of a digit string, most significant digit first. */
  function Value(ds: string, base: nat): nat {
    if |ds| == 0 then 0 else Value(ds[..|ds| - 1], base) * base + DigitValue(ds[|ds| - 1])
  }

  // ------------------------------------------------------------- parseInt

  /**
   * JavaScript's `parseInt(s)` with no radix: leading whitespace is skipped,
   * one sign is accepted, a `0x`/`0X` prefix switches to base 16, and the
   * longest run of digits that follows is read; anything after it is
   * ignored. No digits at all gives NaN, here `None`.
   */
  function ParseInt(s: string): Option<int> {
    ParseSigned(Text.TrimStart(s))
  }

  /** `parseInt` after the leading whitespace is gone: an optional sign, then digits. */
  function ParseSigned(t: string): Option<int> {
    if |t| > 0 && t[0] == '-' then Negate(ParseUnsigned(t[1..]))
    else if |t| > 0 && t[0] == '+' then ParseUnsigned(t[1..])
    else ParseUnsigned(t)
  }

  function Negate(o: Option<int>): Option<int> {
    match o
    case Some(v) => Some(-v)
    case None => None
  }

  /** The digits after the sign, hexadecimal when they start with `0x`. */
  function ParseUnsigned(u: string): Option<int> {
    if |u| >= 2 && u[0] == '0' && (u[1] == 'x' || u[1] == 'X') then ParseDigits(u[2..], 16)
    else ParseDigits(u, 10)
  }

  function ParseDigits(u: string, base: nat): Option<int> {
    var ds := DigitPrefix(u, base);
    if |ds| == 0 then None else Some(Value(ds, base))
  }

  /** `parseInt(x) || d`: NaN and zero are both falsy and give the default. */
  function OrDefault(parsed: Option<int>, d: int): (r: int)
    ensures (parsed.None? || parsed == Some(0)) ==> r == d
    ensures parsed.Some? && parsed.value != 0 ==> r == parsed.value
  {
    match parsed
    case Some(v) => if v == 0 then d else v
    case None => d
  }

  // -------------------------------------------------------------- printing

  function DigitChar(d: nat): (c: char)
    requires d < 10
    ensures IsDigit(c, 10) && DigitValue(c) == d
  {
    ('0' as int + d) as char
  }

  /** Decimal digits of `n` without leading zeros. */
  function ShowNat(n: nat): (r: string)
    ensures |r| > 0
    ensures forall i :: 0 <= i < |r| ==> IsDigit(r[i], 10)
  {
    if n < 10 then [DigitChar(n)] else ShowNat(n / 10) + [DigitChar(n % 10)]
  }

  /** How a JavaScript number holding an integer is written into a query string. */
  function ShowInt(n: int): string {
    if n < 0 then "-" + ShowNat(-n) else ShowNat(n)
  }

  lemma {:induction false} ValueShowNat(n: nat)
    ensures Value(ShowNat(n), 10) == n
  {
    var r := ShowNat(n);
    if n >= 10 {
      ValueShowNat(n / 10);
      assert r[..|r| - 1] == ShowNat(n / 10);
    }
  }

  /** Only zero is written with a leading `0`. */
  lemma {:induction false} ShowNatLeadingZero(n: nat)
    ensures ShowNat(n)[0] == '0' ==> n == 0 && ShowNat(n) == "0"
  {
    if n >= 10 {
      ShowNatLeadingZero(n / 10);
      assert ShowNat(n)[0] == ShowNat(n / 10)[0];
    }
  }

  lemma {:induction false} DigitPrefixOfDigits(ds: string, rest: string, base: nat)
    requires forall i :: 0 <= i < |ds| ==> IsDigit(ds[i], base)
    requires |rest| == 0 || !IsDigit(rest[0], base)
    ensures DigitPrefix(ds + rest, base) == ds
    decreases |ds|
  {
    if |ds| > 0 {
      assert (ds + rest)[1..] == ds[1..] + rest;
      DigitPrefixOfDigits(ds[1..], rest, base);
      assert ds == [ds[0]] + ds[1..];
    } else {
      assert ds + rest == rest;
    }
  }

  /**
   * `parseInt` reads back a printed integer followed by any text that does
   * not continue the number; with `rest` empty this is the round trip
   * `parseInt(String(n)) == n`.
   */
  lemma ParseIntShowInt(n: int, rest: string)
    requires |rest| == 0 || (!IsDigit(rest[0], 16) && rest[0] != 'x' && rest[0] != 'X')
    ensures ParseInt(ShowInt(n) + rest) == Some(n)
  {
    if n < 0 {
      ParseIntShowIntNegative(n, rest);
    } else {
      ParseIntShowNonNegative(n, rest);
    }
  }

  lemma ParseIntShowIntNegative(n: int, rest: string)
    requires n < 0
    requires |rest| == 0 || (!IsDigit(rest[0], 16) && rest[0] != 'x' && rest[0] != 'X')
    ensures ParseInt(ShowInt(n) + rest) == Some(n)
  {
    var u := ShowNat(-n) + rest;
    ParseUnsignedShowNat(-n, rest);
    assert IsDigit(u[0], 10) by { assert u[0] == ShowNat(-n)[0]; }
    ShowIntNegative(n, rest);
    ParseMinus(u, -n);
  }

  lemma ShowIntNegative(n: int, rest: string)
    requires n < 0
    ensures ShowInt(n) + rest == ['-'] + (ShowNat(-n) + rest)
  {
  }

  /** A minus sign in front of digits negates what the digits read as. */
  lemma ParseMinus(u: string, v: int)
    requires |u| > 0 && IsDigit(u[0], 10)
    requires ParseUnsigned(u) == Some(v)
    ensures ParseInt(['-'] + u) == Some(-v)
  {
    var s := ['-'] + u;
    assert s[1..] == u;
    TrimStartKeeps(s);
  }

  lemma ParseIntShowNonNegative(m: nat, rest: string)
    requires |rest| == 0 || (!IsDigit(rest[0], 16) && rest[0] != 'x' && rest[0] != 'X')
    ensures ParseInt(ShowInt(m) + rest) == Some(m)
  {
    assert ShowInt(m) == ShowNat(m);
    var u := ShowNat(m) + rest;
    ParseUnsignedShowNat(m, rest);
    assert u[0] == ShowNat(m)[0];
    TrimStartKeeps(u);
    assert ParseSigned(u) == ParseUnsigned(u);
  }

  /** The unsigned part reads back a printed natural number. */
  lemma ParseUnsignedShowNat(m: nat, rest: string)
    requires |rest| == 0 || (!IsDigit(rest[0], 16) && rest[0] != 'x' && rest[0] != 'X')
    ensures ParseUnsigned(ShowNat(m) + rest) == Some(m)
  {
    var digits := ShowNat(m);
    var u := digits + rest;
    ShowNatLeadingZero(m);
    if u[0] == '0' && |u| >= 2 {
      assert u[1] == rest[0];
    }
    assert !(|u| >= 2 && u[0] == '0' && (u[1] == 'x' || u[1] == 'X'));
    DigitPrefixOfDigits(digits, rest, 10);
    ValueShowNat(m);
  }

  /** Text starting with a sign or a digit has no whitespace to skip. */
  lemma TrimStartKeeps(s: string)
    requires |s| > 0 && (s[0] == '-' || IsDigit(s[0], 10))
    ensures Text.TrimStart(s) == s
  {
    assert !Text.IsWhitespace(s[0]);
  }

  /** Leading whitespace never changes what `parseInt` reads. */
  lemma ParseIntSkipsWhitespace(c: char, s: string)
    requires Text.IsWhitespace(c)
    ensures ParseInt([c] + s) == ParseInt(s)
  {
    assert ([c] + s)[1..] == s;
    assert Text.TrimStart([c] + s) == Text.TrimStart(s);
  }

  /** Text with no digit after its leading whitespace and optional sign is NaN. */
  lemma ParseIntNoDigits(s: string)
    requires var t := Text.TrimStart(s);
      var u := if |t| > 0 && (t[0] == '-' || t[0] == '+') then t[1..] else t;
      |u| == 0 || !IsDigit(u[0], 10)
    ensures ParseInt(s) == None
  {
    var t := Text.TrimStart(s);
    var u := if |t| > 0 && (t[0] == '-' || t[0] == '+') then t[1..] else t;
    assert ParseUnsigned(u) == None by {
      NoDigitUnsigned(u);
    }
    if |t| > 0 && t[0] == '-' {
      assert ParseSigned(t) == Negate(ParseUnsigned(u));
    } else if |t| > 0 && t[0] == '+' {
      assert ParseSigned(t) == ParseUnsigned(u);
    } else {
      assert ParseSigned(t) == ParseUnsigned(u);
    }
  }

  /** Digits after the sign that do not start with a digit read as NaN. */
  lemma NoDigitUnsigned(u: string)
    requires |u| == 0 || !IsDigit(u[0], 10)
    ensures ParseUnsigned(u) == None
  {
    assert DigitPrefix(u, 10) == [];
  }

  // ---------------------------------------------------------------- ceil

  /** `Math.ceil(a / b)` for a count `a` and a non-zero divisor `b`. */
  function CeilDiv(a: nat, b: int): (r: int)
    requires b != 0
    ensures b > 0 ==> (r - 1) * b < a <= r * b
    ensures b < 0 ==> r * b <= a < (r - 1) * b
  {
    if b > 0 then (a + b - 1) / b else -(a / -b)
  }
}
