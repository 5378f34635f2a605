/**
 * String helpers standing in for the .NET string members the editor uses:
 * Split, Join, Trim, Contains/IndexOf, ToUpper/ToLower, IsNullOrWhiteSpace,
 * and decimal integer parsing and printing. Only the ASCII repertoire is
 * modelled for white space and letter case.
 */
module Text {
  import opened Wrappers

  predicate IsWhiteSpace(c: char) {
    c == ' ' || c == '\t' || c == '\n' || c == '\r' || c == '\U{B}' || c == '\U{C}'
  }

  predicate IsBlank(s: string) {
    forall i | 0 <= i < |s| :: IsWhiteSpace(s[i])
  }

  /** string.IsNullOrWhiteSpace */
  predicate IsNullOrWhiteSpace(s: Option<string>) {
    s.None? || IsBlank(s.value)
  }

  /** string.IsNullOrEmpty */
  predicate IsNullOrEmpty(s: Option<string>) {
    s.None? || s.value == ""
  }

  function TrimStart(s: string): (r: string)
    ensures |r| <= |s| && r == s[|s| - |r|..]
    ensures r == [] || !IsWhiteSpace(r[0])
    ensures IsBlank(s[..|s| - |r|])
  {
    if |s| > 0 && IsWhiteSpace(s[0]) then TrimStart(s[1..]) else s
  }

  function TrimEnd(s: string): (r: string)
    ensures |r| <= |s| && r == s[..|r|]
    ensures r == [] || !IsWhiteSpace(r[|r| - 1])
    ensures IsBlank(s[|r|..])
  {
    if |s| > 0 && IsWhiteSpace(s[|s| - 1]) then
      var r := TrimEnd(s[..|s| - 1]);
      assert s[..|s| - 1][..|r|] == s[..|r|];
      assert s[|r|..] == s[..|s| - 1][|r|..] + [s[|s| - 1]];
      r
    else s
  }

  /** string.Trim: drops leading and trailing white space. */
  function Trim(s: string): (r: string)
    ensures r == [] || (!IsWhiteSpace(r[0]) && !IsWhiteSpace(r[|r| - 1]))
  {
    TrimEnd(TrimStart(s))
  }

  /** `p` occurs in `s` starting at position `i`. */
  predicate OccursAt(s: string, p: string, i: nat) {
    i + |p| <= |s| && s[i..i + |p|] == p
  }

  /** First position at or after `from` where `p` occurs. */
  function IndexOfFrom(s: string, p: string, from: nat): (r: Option<nat>)
    requires from <= |s|
    ensures r.Some? ==> from <= r.value <= |s| && OccursAt(s, p, r.value)
    ensures r.Some? ==> forall j | from <= j < r.value :: !OccursAt(s, p, j)
    ensures r.None? ==> forall j | from <= j <= |s| :: !OccursAt(s, p, j)
    decreases |s| - from
  {
    if OccursAt(s, p, from) then Some(from)
    else if from == |s| then None
    else IndexOfFrom(s, p, from + 1)
  }

  /** string.IndexOf(string): the first occurrence, if any. */
  function IndexOf(s: string, p: string): (r: Option<nat>)
    ensures r.Some? ==> r.value <= |s| && OccursAt(s, p, r.value)
    ensures r.Some? ==> forall j | 0 <= j < r.value :: !OccursAt(s, p, j)
    ensures r.None? ==> forall j | 0 <= j <= |s| :: !OccursAt(s, p, j)
  {
    IndexOfFrom(s, p, 0)
  }

  /** string.Contains(string) */
  predicate Contains(s: string, p: string) {
    IndexOf(s, p).Some?
  }

  predicate StartsWith(s: string, p: string) {
    |p| <= |s| && s[..|p|] == p
  }

  predicate EndsWith(s: string, p: string) {
    |p| <= |s| && s[|s| - |p|..] == p
  }

  /** string.Join(sep, parts) */
  function Join(sep: string, parts: seq<string>): string {
    if |parts| == 0 then ""
    else if |parts| == 1 then parts[0]
    else parts[0] + sep + Join(sep, parts[1..])
  }

  /**
   * string.Split(new string[] { sep }, StringSplitOptions.None): cuts at every
   * occurrence of `sep`, scanning left to right, and keeps empty pieces.
   */
  function SplitOn(s: string, sep: string): (r: seq<string>)
    requires |sep| > 0
    ensures |r| >= 1
    decreases |s|
  {
    match IndexOf(s, sep)
    case None => [s]
    case Some(i) => [s[..i]] + SplitOn(s[i + |sep|..], sep)
  }

  /** string.Split(char): one-character separator, empty pieces kept. */
  function Split(s: string, c: char): (r: seq<string>)
    ensures |r| >= 1
  {
    SplitOn(s, [c])
  }

  /** The StringSplitOptions.RemoveEmptyEntries filter. */
  function RemoveEmpty(parts: seq<string>): (r: seq<string>)
    ensures forall k | 0 <= k < |r| :: r[k] != ""
    ensures forall x :: x in r <==> x in parts && x != ""
    ensures |r| <= |parts|
  {
    if |parts| == 0 then []
    else if parts[0] == "" then RemoveEmpty(parts[1..])
    else [parts[0]] + RemoveEmpty(parts[1..])
  }

  lemma JoinCons(sep: string, x: string, t: seq<string>)
    requires |t| >= 1
    ensures Join(sep, [x] + t) == x + sep + Join(sep, t)
  {
    assert ([x] + t)[1..] == t;
  }

  lemma {:induction false} JoinSnoc(sep: string, t: seq<string>, x: string)
    requires |t| >= 1
    ensures Join(sep, t + [x]) == Join(sep, t) + sep + x
    decreases |t|
  {
    if |t| == 1 {
      assert (t + [x])[1..] == [x];
    } else {
      assert (t + [x])[1..] == t[1..] + [x];
      JoinSnoc(sep, t[1..], x);
    }
  }

  lemma SliceSplit(s: string, i: nat, j: nat)
    requires i <= j <= |s|
    ensures s == s[..i] + s[i..j] + s[j..]
  {
  }

  /** Splitting and joining back with the same separator gives the input back. */
  lemma {:induction false} JoinSplitOn(s: string, sep: string)
    requires |sep| > 0
    ensures Join(sep, SplitOn(s, sep)) == s
    decreases |s|
  {
    match IndexOf(s, sep)
    case None =>
      assert SplitOn(s, sep) == [s];
    case Some(i) =>
      var head := s[..i];
      var rest := s[i + |sep|..];
      var tail := SplitOn(rest, sep);
      assert SplitOn(s, sep) == [head] + tail;
      JoinSplitOn(rest, sep);
      JoinCons(sep, head, tail);
      assert s == head + sep + rest by {
        assert s[i..i + |sep|] == sep;
        SliceSplit(s, i, i + |sep|);
      }
  }

  /** Joining pieces that are free of the separator and splitting again gives them back. */
  lemma {:induction false} SplitJoin(parts: seq<string>, sep: string)
    requires |sep| == 1 && |parts| >= 1
    requires forall k | 0 <= k < |parts| :: !Contains(parts[k], sep)
    ensures SplitOn(Join(sep, parts), sep) == parts
    decreases |parts|
  {
    var p0 := parts[0];
    if |parts| == 1 {
      assert Join(sep, parts) == p0;
    } else {
      var rest := Join(sep, parts[1..]);
      var s := p0 + sep + rest;
      assert Join(sep, parts) == s;
      assert OccursAt(s, sep, |p0|) by {
        assert s[|p0|..|p0| + 1] == sep;
      }
      forall j | 0 <= j < |p0|
        ensures !OccursAt(s, sep, j)
      {
        if OccursAt(s, sep, j) {
          assert s[j..j + 1] == sep;
          assert p0[j..j + 1] == s[j..j + 1];
          assert OccursAt(p0, sep, j);
        }
      }
      assert IndexOf(s, sep) == Some(|p0|);
      assert s[..|p0|] == p0;
      assert s[|p0| + 1..] == rest;
      SplitJoin(parts[1..], sep);
      assert parts == [p0] + parts[1..];
    }
  }

  /** A prefix that ends before the first occurrence of `p` does not contain `p`. */
  lemma PrefixBeforeFirstFree(s: string, p: string, i: nat)
    requires i <= |s| && |p| > 0
    requires forall j | 0 <= j < i :: !OccursAt(s, p, j)
    ensures !Contains(s[..i], p)
  {
    var head := s[..i];
    forall j | 0 <= j <= |head|
      ensures !OccursAt(head, p, j)
    {
      if j + |p| <= |head| {
        assert !OccursAt(s, p, j);
        assert head[j..j + |p|] == s[j..j + |p|];
      }
    }
  }

  /** No piece produced by SplitOn contains the separator. */
  lemma {:induction false} SplitOnPiecesFree(s: string, sep: string)
    requires |sep| > 0
    ensures forall k | 0 <= k < |SplitOn(s, sep)| :: !Contains(SplitOn(s, sep)[k], sep)
    decreases |s|
  {
    var r := IndexOf(s, sep);
    if r.None? {
      assert SplitOn(s, sep) == [s];
      assert !Contains(s, sep);
    } else {
      var i := r.value;
      var rest := s[i + |sep|..];
      SplitOnPiecesFree(rest, sep);
      PrefixBeforeFirstFree(s, sep, i);
      var pieces := SplitOn(s, sep);
      assert pieces == [s[..i]] + SplitOn(rest, sep);
      forall k | 0 <= k < |pieces|
        ensures !Contains(pieces[k], sep)
      {
        if k > 0 {
          assert pieces[k] == SplitOn(rest, sep)[k - 1];
        }
      }
    }
  }

  predicate IsUpperAscii(c: char) { 'A' <= c <= 'Z' }
  predicate IsLowerAscii(c: char) { 'a' <= c <= 'z' }

  function UpperChar(c: char): (r: char)
    ensures !IsLowerAscii(r)
  {
    if IsLowerAscii(c) then (c as int - 32) as char else c
  }

  function LowerChar(c: char): (r: char)
    ensures !IsUpperAscii(r)
  {
    if IsUpperAscii(c) then (c as int + 32) as char else c
  }

  /** string.ToUpper, ASCII letters only. */
  function ToUpper(s: string): (r: string)
    ensures |r| == |s| && forall i | 0 <= i < |s| :: r[i] == UpperChar(s[i])
  {
    seq(|s|, i requires 0 <= i < |s| => UpperChar(s[i]))
  }

  /** string.ToLower, ASCII letters only. */
  function ToLower(s: string): (r: string)
    ensures |r| == |s| && forall i | 0 <= i < |s| :: r[i] == LowerChar(s[i])
  {
    seq(|s|, i requires 0 <= i < |s| => LowerChar(s[i]))
  }

  /** Case-insensitive comparison (string.Equals with OrdinalIgnoreCase, ASCII). */
  predicate EqualsIgnoreCase(a: string, b: string) {
    ToUpper(a) == ToUpper(b)
  }

  predicate IsDigit(c: char) { '0' <= c <= '9' }

  predicate AllDigits(s: string) {
    forall i | 0 <= i < |s| :: IsDigit(s[i])
  }

  function DigitValue(c: char): nat
    requires IsDigit(c)
  {
    c as int - '0' as int
  }

  function DigitChar(d: nat): (c: char)
    requires d < 10
    ensures IsDigit(c) && DigitValue(c) == d
  {
    ('0' as int + d) as char
  }

  /** The value of a string of decimal digits. */
  function DigitsValue(s: string): nat
    requires AllDigits(s)
  {
    if |s| == 0 then 0 else DigitsValue(s[..|s| - 1]) * 10 + DigitValue(s[|s| - 1])
  }

  /** Decimal rendering of a natural number, without leading zeros. */
  function NatToString(n: nat): (r: string)
    ensures |r| >= 1 && AllDigits(r)
  {
    if n < 10 then [DigitChar(n)] else NatToString(n / 10) + [DigitChar(n % 10)]
  }

  /** int.ToString(): decimal, with a leading '-' for negatives. */
  function IntToString(n: int): (r: string)
    ensures |r| >= 1
  {
    if n < 0 then "-" + NatToString(-n) else NatToString(n)
  }

  /**
   * The number syntax of int.TryParse with NumberStyles.Integer: optional
   * surrounding white space, an optional sign, then one or more digits.
   * There is no range check here; callers that model 32-bit parsing add it.
   */
  function ParseInt(s: string): (r: Option<int>)
  {
    ParseTrimmed(Trim(s))
  }

  /** The parse of a string with no white space at either end. */
  function ParseTrimmed(t: string): Option<int> {
    if |t| > 0 && (t[0] == '-' || t[0] == '+') then SignedValue(t[0] == '-', t[1..])
    else if |t| > 0 && AllDigits(t) then Some(DigitsValue(t))
    else None
  }

  /** The digits after a sign, negated for '-'. */
  function SignedValue(negative: bool, body: string): Option<int> {
    if |body| > 0 && AllDigits(body) then
      var v: int := DigitsValue(body);
      Some(if negative then -v else v)
    else None
  }

  lemma {:induction false} DigitsOfNat(n: nat)
    ensures DigitsValue(NatToString(n)) == n
  {
    if n >= 10 {
      DigitsOfNat(n / 10);
      var s := NatToString(n);
      assert s[..|s| - 1] == NatToString(n / 10);
    }
  }

  lemma TrimNoWhiteSpace(s: string)
    requires |s| > 0 && !IsWhiteSpace(s[0]) && !IsWhiteSpace(s[|s| - 1])
    ensures Trim(s) == s
  {
  }

  /** Trimming keeps a first character that is not white space. */
  lemma TrimKeepsFirst(s: string)
    requires |s| > 0 && !IsWhiteSpace(s[0])
    ensures |Trim(s)| > 0 && Trim(s)[0] == s[0]
  {
    assert TrimStart(s) == s;
  }

  lemma ParseNatString(n: int)
    requires n >= 0
    ensures ParseInt(IntToString(n)) == Some(n)
  {
    var s := IntToString(n);
    assert s == NatToString(n);
    assert IsDigit(s[0]) && IsDigit(s[|s| - 1]);
    TrimNoWhiteSpace(s);
    assert ParseInt(s) == ParseTrimmed(s);
    assert s[0] != '-' && s[0] != '+';
    assert ParseTrimmed(s) == Some(DigitsValue(s));
    DigitsOfNat(n);
  }

  lemma ParseNegativeString(n: int)
    requires n < 0
    ensures ParseInt(IntToString(n)) == Some(n)
  {
    var body := NatToString(-n);
    var s := IntToString(n);
    assert s == "-" + body;
    assert s[|s| - 1] == body[|body| - 1];
    TrimNoWhiteSpace(s);
    assert ParseInt(s) == ParseTrimmed(s);
    assert s[1..] == body;
    TrimmedMinus(s);
    DigitsOfNat(-n);
    NegatedDigits(body, -n);
  }

  lemma TrimmedMinus(t: string)
    requires |t| > 0 && t[0] == '-'
    ensures ParseTrimmed(t) == SignedValue(true, t[1..])
  {
  }

  lemma NegatedDigits(body: string, v: int)
    requires |body| > 0 && AllDigits(body) && DigitsValue(body) == v
    ensures SignedValue(true, body) == Some(-v)
  {
  }

  /** Printing an integer and parsing it back gives the same integer. */
  lemma ParseIntToString(n: int)
    ensures ParseInt(IntToString(n)) == Some(n)
  {
    if n < 0 {
      ParseNegativeString(n);
    } else {
      ParseNatString(n);
    }
  }



}
