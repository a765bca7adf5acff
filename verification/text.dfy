/**
 * String helpers the engine and the importer rely on: ASCII case folding,
 * substring search, lexicographic order, splitting on a separator and
 * whitespace trimming.
 */
module Text {

  // ---------------------------------------------------------------- case

  /** Lower-cases the ASCII letters A-Z and leaves every other character alone. */
  function LowerChar(c: char): char {
    if 'A' <= c <= 'Z' then (c as int + 32) as char else c
  }

  function Lower(s: string): (r: string)
    ensures |r| == |s|
    ensures forall i :: 0 <= i < |s| ==> r[i] == LowerChar(s[i])
  {
    seq(|s|, i requires 0 <= i < |s| => LowerChar(s[i]))
  }

  // ----------------------------------------------------------- substrings

  /** `needle` occurs in `hay` starting at index `i`. */
  ghost predicate OccursAt(hay: string, needle: string, i: int) {
    0 <= i && i + |needle| <= |hay| && hay[i..i + |needle|] == needle
  }

  /** Substring test, written as the scan a regex engine performs. */
  predicate Contains(hay: string, needle: string)
    decreases |hay|
  {
    needle <= hay || (|hay| > 0 && Contains(hay[1..], needle))
  }

  /** An occurrence at offset `i` is found by the scan. */
  lemma {:induction false} OccursAtContains(hay: string, needle: string, i: int)
    requires OccursAt(hay, needle, i)
    ensures Contains(hay, needle)
    decreases i
  {
    if i == 0 {
      assert needle <= hay;
    } else {
      assert hay[1..][i - 1..i - 1 + |needle|] == hay[i..i + |needle|];
      OccursAtContains(hay[1..], needle, i - 1);
    }
  }

  /** The scan finds `needle` exactly when it occurs at some offset. */
  lemma {:induction false} ContainsIff(hay: string, needle: string)
    ensures Contains(hay, needle) <==> exists i :: OccursAt(hay, needle, i)
    decreases |hay|
  {
    if exists i :: OccursAt(hay, needle, i) {
      var i :| OccursAt(hay, needle, i);
      OccursAtContains(hay, needle, i);
    }
    if Contains(hay, needle) {
      if needle <= hay {
        assert OccursAt(hay, needle, 0);
      } else {
        ContainsIff(hay[1..], needle);
        var i :| OccursAt(hay[1..], needle, i);
        assert hay[1..][i..i + |needle|] == hay[i + 1..i + 1 + |needle|];
        assert OccursAt(hay, needle, i + 1);
      }
    }
  }

  // ------------------------------------------------------ lexicographic

  /** Lexicographic order on code points: MongoDB's binary string order. */
  predicate StrLe(a: string, b: string)
    decreases |a|
  {
    |a| == 0 || (|b| > 0 && (a[0] < b[0] || (a[0] == b[0] && StrLe(a[1..], b[1..]))))
  }

  predicate StrLt(a: string, b: string) {
    StrLe(a, b) && a != b
  }

  lemma {:induction false} StrLeReflexive(a: string)
    ensures StrLe(a, a)
    decreases |a|
  {
    if |a| > 0 {
      StrLeReflexive(a[1..]);
    }
  }

  lemma {:induction false} StrLeTotal(a: string, b: string)
    ensures StrLe(a, b) || StrLe(b, a)
    decreases |a|
  {
    if |a| > 0 && |b| > 0 && a[0] == b[0] {
      StrLeTotal(a[1..], b[1..]);
    }
  }

  lemma {:induction false} StrLeAntisymmetric(a: string, b: string)
    requires StrLe(a, b) && StrLe(b, a)
    ensures a == b
    decreases |a|
  {
    if |a| > 0 {
      StrLeAntisymmetric(a[1..], b[1..]);
      assert a == [a[0]] + a[1..];
      assert b == [b[0]] + b[1..];
    }
  }

  lemma {:induction false} StrLeTransitive(a: string, b: string, c: string)
    requires StrLe(a, b) && StrLe(b, c)
    ensures StrLe(a, c)
    decreases |a|
  {
    if |a| > 0 && a[0] == b[0] && b[0] == c[0] {
      StrLeTransitive(a[1..], b[1..], c[1..]);
    }
  }

  // ------------------------------------------------------------ splitting

  function Count(s: string, c: char): (n: nat)
    ensures n <= |s|
    ensures n == 0 <==> c !in s
  {
    if |s| == 0 then 0 else (if s[0] == c then 1 else 0) + Count(s[1..], c)
  }

  /** Concatenates non-empty `pieces`, putting `sep` between neighbours. */
  function Join(pieces: seq<string>, sep: char): string
    requires |pieces| > 0
  {
    if |pieces| == 1 then pieces[0] else pieces[0] + [sep] + Join(pieces[1..], sep)
  }

  /**
   * JavaScript's `s.split(sep)` for a one-character separator: every
   * separator ends a piece, empty pieces are kept.
   */
  function Split(s: string, sep: char): (r: seq<string>)
    ensures |r| == Count(s, sep) + 1
    decreases |s|
  {
    if |s| == 0 then [""]
    else if s[0] == sep then [""] + Split(s[1..], sep)
    else
      var rest := Split(s[1..], sep);
      [[s[0]] + rest[0]] + rest[1..]
  }

  /** No piece of a split holds the separator. */
  lemma SplitPieceFree(s: string, sep: char, i: int)
    requires 0 <= i < |Split(s, sep)|
    ensures sep !in Split(s, sep)[i]
  {
    JoinSplit(s, sep);
  }

  /** Joining undoes splitting, and no piece holds the separator. */
  lemma {:induction false} JoinSplit(s: string, sep: char)
    ensures Join(Split(s, sep), sep) == s
    ensures forall i :: 0 <= i < |Split(s, sep)| ==> sep !in Split(s, sep)[i]
    decreases |s|
  {
    if |s| > 0 {
      var c, t := s[0], s[1..];
      assert s == [c] + t;
      var rest := Split(t, sep);
      JoinSplit(t, sep);
      if c == sep {
        SplitLeadingSep(t, sep);
        var r := [""] + rest;
        assert Join(r, sep) == [sep] + Join(rest, sep) by {
          assert r[1..] == rest;
        }
        forall i | 0 <= i < |r| ensures sep !in r[i] {
          if i > 0 {
            assert r[i] == rest[i - 1];
          }
        }
      } else {
        SplitFirstChar(c, t, sep);
        var r := [[c] + rest[0]] + rest[1..];
        JoinFirstChar(r, sep);
        assert [r[0][1..]] + r[1..] == rest by {
          assert r[0][1..] == rest[0];
        }
        forall i | 0 <= i < |r| ensures sep !in r[i] {
          if i == 0 {
            assert forall x :: x in r[0] ==> x == c || x in rest[0];
          } else {
            assert r[i] == rest[i];
          }
        }
      }
    }
  }

  /** Splitting undoes joining when no piece contains the separator. */
  lemma {:induction false} SplitJoin(pieces: seq<string>, sep: char)
    requires |pieces| > 0
    requires forall i :: 0 <= i < |pieces| ==> sep !in pieces[i]
    ensures Split(Join(pieces, sep), sep) == pieces
    decreases |pieces|, |pieces[0]|
  {
    var p := pieces[0];
    if |p| > 0 {
      var tail := [p[1..]] + pieces[1..];
      NoSepInTail(pieces, sep);
      SplitJoin(tail, sep);
      var joined := Join(tail, sep);
      assert Split(joined, sep) == tail;
      JoinFirstChar(pieces, sep);
      assert p[0] != sep by { assert p[0] in pieces[0]; }
      SplitFirstChar(p[0], joined, sep);
      assert Split([p[0]] + joined, sep) == [[p[0]] + tail[0]] + tail[1..];
      assert [[p[0]] + tail[0]] + tail[1..] == pieces by {
        assert [p[0]] + p[1..] == p;
      }
    } else if |pieces| > 1 {
      SplitJoin(pieces[1..], sep);
      SplitLeadingSep(Join(pieces[1..], sep), sep);
      assert Join(pieces, sep) == [sep] + Join(pieces[1..], sep);
      assert pieces == [""] + pieces[1..];
    }
  }

  /** A leading separator closes an empty first piece. */
  lemma SplitLeadingSep(s: string, sep: char)
    ensures Split([sep] + s, sep) == [""] + Split(s, sep)
  {
    assert ([sep] + s)[1..] == s;
  }

  /** Dropping the first character of the first piece keeps the pieces separator-free. */
  lemma NoSepInTail(pieces: seq<string>, sep: char)
    requires |pieces| > 0 && |pieces[0]| > 0
    requires forall i :: 0 <= i < |pieces| ==> sep !in pieces[i]
    ensures var tail := [pieces[0][1..]] + pieces[1..];
      forall i :: 0 <= i < |tail| ==> sep !in tail[i]
  {
    var p := pieces[0];
    var tail := [p[1..]] + pieces[1..];
    forall i | 0 <= i < |tail| ensures sep !in tail[i] {
      if i == 0 {
        assert forall c :: c in p[1..] ==> c in p;
      } else {
        assert tail[i] == pieces[i];
      }
    }
  }

  /** A non-empty first piece contributes the first character of the join. */
  lemma JoinFirstChar(pieces: seq<string>, sep: char)
    requires |pieces| > 0 && |pieces[0]| > 0
    ensures Join(pieces, sep) == [pieces[0][0]] + Join([pieces[0][1..]] + pieces[1..], sep)
  {
    var p := pieces[0];
    var tail := [p[1..]] + pieces[1..];
    assert tail[1..] == pieces[1..];
    assert p == [p[0]] + p[1..];
  }

  /** A leading non-separator character joins the first piece. */
  lemma SplitFirstChar(c: char, s: string, sep: char)
    requires c != sep
    ensures Split([c] + s, sep) == [[c] + Split(s, sep)[0]] + Split(s, sep)[1..]
  {
    assert ([c] + s)[1..] == s;
  }

  // ------------------------------------------------------------ trimming

  /** The characters JavaScript's `String.prototype.trim` removes, restricted to common ones. */
  predicate IsWhitespace(c: char) {
    c == ' ' || c == '\t' || c == '\n' || c == '\r' || c == '\U{000B}' || c == '\U{000C}'
    || c == '\U{00A0}' || c == '\U{FEFF}'
  }

  function TrimStart(s: string): (r: string)
    ensures |r| <= |s| && r == s[|s| - |r|..]
    ensures forall i :: 0 <= i < |s| - |r| ==> IsWhitespace(s[i])
    ensures |r| > 0 ==> !IsWhitespace(r[0])
    decreases |s|
  {
    if |s| > 0 && IsWhitespace(s[0]) then TrimStart(s[1..]) else s
  }

  function TrimEnd(s: string): (r: string)
    ensures |r| <= |s| && r == s[..|r|]
    ensures forall i :: |r| <= i < |s| ==> IsWhitespace(s[i])
    ensures |r| > 0 ==> !IsWhitespace(r[|r| - 1])
    decreases |s|
  {
    if |s| > 0 && IsWhitespace(s[|s| - 1]) then TrimEnd(s[..|s| - 1]) else s
  }

  /** JavaScript's `trim`: drops leading and trailing whitespace. */
  function Trim(s: string): string {
    TrimEnd(TrimStart(s))
  }

  /**
   * `Trim(s)` is the infix of `s` left after removing whitespace from both
   * ends, and it neither starts nor ends with whitespace.
   */
  lemma TrimSpec(s: string)
    ensures exists i, j :: TrimmedAt(s, i, j)
    ensures |Trim(s)| > 0 ==> !IsWhitespace(Trim(s)[0]) && !IsWhitespace(Trim(s)[|Trim(s)| - 1])
  {
    TrimWitness(s);
    TrimEnds(s);
  }

  /** Some infix of `s` with whitespace-only margins is `Trim(s)`. */
  lemma TrimWitness(s: string)
    ensures exists i, j :: TrimmedAt(s, i, j)
  {
    var i := |s| - |TrimStart(s)|;
    TrimBounds(s);
    assert TrimmedAt(s, i, i + |Trim(s)|);
  }

  /** Neither end of a non-empty trim is whitespace. */
  lemma TrimEnds(s: string)
    ensures |Trim(s)| > 0 ==> !IsWhitespace(Trim(s)[0]) && !IsWhitespace(Trim(s)[|Trim(s)| - 1])
  {
    var a := TrimStart(s);
    var r := TrimEnd(a);
    if |r| > 0 {
      assert r[0] == a[0];
    }
  }

  /** A string with no whitespace at either end is its own trim. */
  lemma TrimKeeps(s: string)
    requires |s| > 0 ==> !IsWhitespace(s[0]) && !IsWhitespace(s[|s| - 1])
    ensures Trim(s) == s
  {
    assert TrimStart(s) == s;
  }

  /** Trimming adds no character. */
  lemma TrimMember(s: string, c: char)
    requires c in Trim(s)
    ensures c in s
  {
    var a := TrimStart(s);
    var r := TrimEnd(a);
    InSlice(a, 0, |r|, c);
    InSlice(s, |s| - |a|, |s|, c);
  }

  /** Whatever a slice holds, the whole sequence holds. */
  lemma InSlice<T>(s: seq<T>, a: int, b: int, c: T)
    requires 0 <= a <= b <= |s| && c in s[a..b]
    ensures c in s
  {
    var k :| a <= k < b && s[k] == c;
  }

  lemma TrimBounds(s: string)
    ensures var i := |s| - |TrimStart(s)|; TrimmedAt(s, i, i + |Trim(s)|)
  {
    TrimInfix(s);
    TrimTrailing(s);
  }

  lemma TrimInfix(s: string)
    ensures var i := |s| - |TrimStart(s)|; Trim(s) == s[i..i + |Trim(s)|]
  {
    var a := TrimStart(s);
    var i := |s| - |a|;
    var r := TrimEnd(a);
    assert r == a[..|r|];
    assert a == s[i..];
  }

  lemma TrimTrailing(s: string)
    ensures var j := |s| - |TrimStart(s)| + |Trim(s)|;
      forall k :: j <= k < |s| ==> IsWhitespace(s[k])
  {
    var a := TrimStart(s);
    var i := |s| - |a|;
    var j := i + |Trim(s)|;
    forall k | j <= k < |s| ensures IsWhitespace(s[k]) {
      assert s[k] == a[k - i];
    }
  }

  /** `Trim(s)` is `s[i..j]` and everything outside `[i, j)` is whitespace. */
  ghost predicate TrimmedAt(s: string, i: int, j: int) {
    && 0 <= i <= j <= |s| && Trim(s) == s[i..j]
    && (forall k :: 0 <= k < i ==> IsWhitespace(s[k]))
    && (forall k :: j <= k < |s| ==> IsWhitespace(s[k]))
  }
}
