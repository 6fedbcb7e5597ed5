/**
 * Tree positions. A position is the list of sibling indices from the root down to a node,
 * the root itself being index 0; its string form joins the indices with '-' ("0-2-1"),
 * which is what `getPosition` builds, `posToArr` splits and `isParent` compares.
 */
module PathCodec {
  import opened Wrappers

  type Position = p: seq<nat> | |p| > 0 witness [0]

  predicate IsDigit(c: char) {
    '0' <= c <= '9'
  }

  predicate AllDigits(s: string) {
    forall i :: 0 <= i < |s| ==> IsDigit(s[i])
  }

  function DigitValue(c: char): nat
    requires IsDigit(c)
  {
    c as int - '0' as int
  }

  function DigitChar(d: nat): (c: char)
    requires d < 10
    ensures IsDigit(c) && DigitValue(c) == d
  {
    (d + '0' as int) as char
  }

  /** Decimal rendering of an index, as template-string interpolation produces it. */
  function NatToString(n: nat): (s: string)
    ensures |s| > 0 && AllDigits(s)
    decreases n
  {
    if n < 10 then [DigitChar(n)] else NatToString(n / 10) + [DigitChar(n % 10)]
  }

  /** `Number(s)` on a string of decimal digits (the empty string reads as 0). */
  function ParseNat(s: string): nat
    requires AllDigits(s)
    decreases |s|
  {
    if s == [] then 0 else 10 * ParseNat(s[..|s| - 1]) + DigitValue(s[|s| - 1])
  }

  lemma {:induction false} ParseNatToString(n: nat)
    ensures ParseNat(NatToString(n)) == n
    decreases n
  {
    if n >= 10 {
      var s := NatToString(n);
      assert s[..|s| - 1] == NatToString(n / 10);
      ParseNatToString(n / 10);
    }
  }

  /** The position string: `getPosition(parentPos, index)` is `${parentPos}-${index}`. */
  function Encode(p: Position): (s: string)
    ensures |s| > 0
    decreases |p|
  {
    if |p| == 1 then NatToString(p[0])
    else Encode(p[..|p| - 1]) + "-" + NatToString(p[|p| - 1])
  }

  /** Index of the last '-' of `s`, or -1 when there is none. */
  function LastDash(s: string): (i: int)
    ensures -1 <= i < |s|
    ensures i >= 0 ==> s[i] == '-'
    ensures forall j :: i < j < |s| ==> s[j] != '-'
    decreases |s|
  {
    if s == [] then -1
    else if s[|s| - 1] == '-' then |s| - 1
    else LastDash(s[..|s| - 1])
  }

  /** `posArr[posArr.length - 1]` where `posArr = posToArr(pos)`, i.e. `pos.split('-')`. */
  function LastSegment(s: string): string {
    s[LastDash(s) + 1..]
  }

  /** The last segment is the suffix after the last delimiter: it holds no delimiter and is the whole string when there is none. */
  lemma LastSegmentIsSuffix(s: string)
    ensures |LastSegment(s)| <= |s| && s[|s| - |LastSegment(s)|..] == LastSegment(s)
    ensures forall j :: 0 <= j < |LastSegment(s)| ==> LastSegment(s)[j] != '-'
    ensures |LastSegment(s)| < |s| ==> s[|s| - |LastSegment(s)| - 1] == '-'
  {
  }

  /** `Number(segment)`: its value for a string of digits, None (NaN) otherwise. */
  function ToNumber(segment: string): Option<nat> {
    if AllDigits(segment) then Some(ParseNat(segment)) else None
  }

  /** Reads a position string back: every '-'-separated segment must be a non-empty digit string. */
  function Decode(s: string): Option<Position>
    decreases |s|
  {
    var i := LastDash(s);
    var last := s[i + 1..];
    if last == [] || !AllDigits(last) then None
    else if i < 0 then Some([ParseNat(last)])
    else
      match Decode(s[..i])
      case None => None
      case Some(q) => Some(q + [ParseNat(last)])
  }

  /** The last '-' of an encoded position separates its parent's string from its own index. */
  lemma LastDashOfEncode(p: Position)
    ensures LastDash(Encode(p)) == if |p| == 1 then -1 else |Encode(p[..|p| - 1])|
  {
    var s := Encode(p);
    var i := LastDash(s);
    if |p| > 1 {
      var e := Encode(p[..|p| - 1]);
      var n := NatToString(p[|p| - 1]);
      assert s == e + "-" + n;
      assert s[|e|] == '-';
    }
  }

  /** Round trip: decoding the string of a position gives that position back. */
  lemma {:induction false} DecodeEncode(p: Position)
    ensures Decode(Encode(p)) == Some(p)
    decreases |p|
  {
    var s := Encode(p);
    var n := NatToString(p[|p| - 1]);
    LastDashOfEncode(p);
    ParseNatToString(p[|p| - 1]);
    if |p| == 1 {
      assert s[0..] == s;
      assert [p[0]] == p;
    } else {
      var q := p[..|p| - 1];
      DecodeEncode(q);
      DecodeSnoc(Encode(q), n);
      assert q + [p[|p| - 1]] == p;
    }
  }

  /** Decoding "<e>-<n>" for a digit string n decodes e and appends n's value. */
  lemma DecodeSnoc(e: string, n: string)
    requires |n| > 0 && AllDigits(n)
    ensures Decode(e + "-" + n) == match Decode(e)
                                   case None => None
                                   case Some(q) => Some(q + [ParseNat(n)])
  {
    var s := e + "-" + n;
    assert s[|e|] == '-';
    assert forall j :: |e| < j < |s| ==> s[j] == n[j - |e| - 1];
    assert LastDash(s) == |e|;
    assert s[|e| + 1..] == n;
    assert s[..|e|] == e;
  }

  /** Distinct positions have distinct strings, so a key synthesised from a position identifies it. */
  lemma EncodeInjective(p: Position, q: Position)
    ensures Encode(p) == Encode(q) <==> p == q
  {
    DecodeEncode(p);
    DecodeEncode(q);
  }

  /** The last segment of an encoded position reads back as the node's own sibling index. */
  lemma LastSegmentOfEncode(p: Position)
    ensures ToNumber(LastSegment(Encode(p))) == Some(p[|p| - 1])
  {
    var s := Encode(p);
    LastDashOfEncode(p);
    ParseNatToString(p[|p| - 1]);
    if |p| == 1 {
      assert s[0..] == s;
    } else {
      var e := Encode(p[..|p| - 1]);
      assert s == e + "-" + NatToString(p[|p| - 1]);
      assert s[|e| + 1..] == NatToString(p[|p| - 1]);
    }
  }

  /** `isParent(pos, childPos)`: `pos` is a proper path prefix of `childPos`. */
  predicate IsParent(p: Position, q: Position) {
    |p| < |q| && q[..|p|] == p
  }

  /** The same test on strings: `childPos` starts with `pos` followed by the delimiter. */
  predicate IsParentString(ps: string, qs: string) {
    |ps| < |qs| && qs[..|ps| + 1] == ps + "-"
  }

  lemma IsParentTransitive(a: Position, b: Position, c: Position)
    requires IsParent(a, b) && IsParent(b, c)
    ensures IsParent(a, c)
  {
    assert c[..|a|] == c[..|b|][..|a|];
  }

  /**
   * The string test agrees with the path-prefix test: "0-1" is a parent of "0-1-2"
   * but not of "0-10", because the delimiter must follow the prefix immediately.
   */
  lemma {:induction false} IsParentEncode(p: Position, q: Position)
    ensures IsParentString(Encode(p), Encode(q)) <==> IsParent(p, q)
    decreases |q|
  {
    var ps, qs := Encode(p), Encode(q);
    if |q| == 1 {
      NoDashAt(ps, [], qs);
    } else {
      var q' := q[..|q| - 1];
      var e := Encode(q');
      var n := NatToString(q[|q| - 1]);
      assert qs == e + "-" + n;
      if IsParent(p, q) {
        if |p| == |q'| {
          assert p == q';
          assert qs[..|ps| + 1] == ps + "-";
        } else {
          assert q'[..|p|] == q[..|p|];
          IsParentEncode(p, q');
          assert qs[..|ps| + 1] == e[..|ps| + 1];
        }
      }
      if |ps| > |e| {
        NoDashAt(ps, e + "-", n);
      } else if IsParentString(ps, qs) {
        if |ps| < |e| {
          assert e[..|ps| + 1] == qs[..|ps| + 1];
          IsParentEncode(p, q');
          assert q[..|p|] == q'[..|p|];
        } else {
          assert ps == qs[..|ps|] == e;
          EncodeInjective(p, q');
        }
      }
    }
  }

  /** No string is a parent of a string whose character at the candidate's end is a digit. */
  lemma NoDashAt(ps: string, head: string, digits: string)
    requires AllDigits(digits) && |head| <= |ps|
    ensures !IsParentString(ps, head + digits)
  {
    var qs := head + digits;
    if |ps| < |qs| {
      assert qs[..|ps| + 1][|ps|] == digits[|ps| - |head|];
      assert (ps + "-")[|ps|] == '-';
    }
  }
}
