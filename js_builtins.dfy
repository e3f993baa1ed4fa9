/**
 * The few JavaScript built-ins the library leans on, written out over sequences:
 * `slice` with relative indices, `indexOf` of a sub-sequence, `startsWith`,
 * `split` on one separator, `trim`, and `parseInt(_, 10)` with `Number.prototype.toString`
 * restricted to integers.
 */
module JsBuiltins {
  import opened Wrappers

  function Min(a: int, b: int): int { if a <= b then a else b }
  function Max(a: int, b: int): int { if a >= b then a else b }

  /** How `slice` turns a possibly negative index into a position within `0..len`. */
  function RelativeIndex(k: int, len: nat): (r: nat)
    ensures r <= len
    ensures 0 <= k <= len ==> r == k
    ensures k < 0 && len + k >= 0 ==> r == len + k
    ensures k > len ==> r == len
    ensures len + k < 0 ==> r == 0
  {
    if k < 0 then Max(len + k, 0) else Min(k, len)
  }

  /** `s.slice(start, end)`, where an absent `end` means the length. */
  function Slice<T>(s: seq<T>, start: int, end: Option<int>): (r: seq<T>)
    ensures |r| <= |s|
    ensures 0 <= start <= |s| && end.None? ==> r == s[start..]
    ensures 0 <= start && end.Some? && start <= end.value <= |s| ==> r == s[start..end.value]
  {
    var b := RelativeIndex(start, |s|);
    var e := if end.None? then |s| else RelativeIndex(end.value, |s|);
    if b < e then s[b..e] else []
  }

  predicate OccursAt<T(==)>(s: seq<T>, t: seq<T>, i: int) {
    0 <= i && i + |t| <= |s| && s[i..i + |t|] == t
  }

  /** First position at or after `from` where `t` occurs in `s`, or -1. */
  function IndexOfFrom<T(==)>(s: seq<T>, t: seq<T>, from: nat): (r: int)
    decreases |s| - from
    ensures r == -1 || (from <= r && OccursAt(s, t, r))
    ensures forall j :: from <= j && (r == -1 || j < r) ==> !OccursAt(s, t, j)
  {
    if from + |t| > |s| then -1
    else if s[from..from + |t|] == t then from
    else IndexOfFrom(s, t, from + 1)
  }

  /** `s.indexOf(t)`: the first position where `t` occurs in `s`, or -1. */
  function IndexOf<T(==)>(s: seq<T>, t: seq<T>): (r: int)
    ensures r == -1 || OccursAt(s, t, r)
    ensures forall j :: (r == -1 || j < r) ==> !OccursAt(s, t, j)
  {
    IndexOfFrom(s, t, 0)
  }

  function StartsWith<T(==)>(s: seq<T>, t: seq<T>): bool {
    |t| <= |s| && s[..|t|] == t
  }

  /** Before the first occurrence reported by `indexOf`, the character does not appear. */
  lemma CharAbsentBefore(s: string, c: char, n: int)
    requires 0 <= n <= |s|
    requires forall j :: 0 <= j < n ==> !OccursAt(s, [c], j)
    ensures c !in s[..n]
  {
    forall j | 0 <= j < n ensures s[j] != c {
      assert !OccursAt(s, [c], j);
      assert s[j..j + 1] == [s[j]];
    }
  }

  /** `s.split(sep)` for a one-character separator. */
  function Split(s: string, sep: char): (r: seq<string>)
    ensures |r| >= 1
    ensures forall i :: 0 <= i < |r| ==> sep !in r[i]
    decreases |s|
  {
    var i := IndexOf(s, [sep]);
    if i < 0 then
      CharAbsentBefore(s, sep, |s|);
      assert s[..|s|] == s;
      [s]
    else
      CharAbsentBefore(s, sep, i);
      var rest := Split(s[i + 1..], sep);
      [s[..i]] + rest
  }

  /** The pieces glued back together with the separator between them. */
  function JoinWith(pieces: seq<string>, sep: char): string
    requires |pieces| >= 1
  {
    if |pieces| == 1 then pieces[0] else pieces[0] + [sep] + JoinWith(pieces[1..], sep)
  }

  /** What `split` produced reassembles into the input. */
  lemma {:induction false} SplitJoin(s: string, sep: char)
    ensures JoinWith(Split(s, sep), sep) == s
    decreases |s|
  {
    var i := IndexOf(s, [sep]);
    if i >= 0 {
      SplitJoin(s[i + 1..], sep);
      assert s == s[..i] + [sep] + s[i + 1..];
    }
  }

  /**
   * The characters `trim` and `parseInt` skip: WhiteSpace (including the
   * Unicode space separators) and LineTerminator of the ECMAScript grammar.
   */
  predicate IsJsSpace(c: char) {
    ('\t' <= c <= '\r') || c == ' ' || c == '\U{00A0}' || c == '\U{1680}' ||
    ('\U{2000}' <= c <= '\U{200A}') || c == '\U{2028}' || c == '\U{2029}' || c == '\U{202F}' ||
    c == '\U{205F}' || c == '\U{3000}' || c == '\U{FEFF}'
  }

  /** The first index at or after `i` that does not hold white space. */
  function SpacesFrom(s: string, i: nat): (r: nat)
    requires i <= |s|
    ensures i <= r <= |s|
    ensures forall k :: i <= k < r ==> IsJsSpace(s[k])
    ensures r < |s| ==> !IsJsSpace(s[r])
    decreases |s| - i
  {
    if i < |s| && IsJsSpace(s[i]) then SpacesFrom(s, i + 1) else i
  }

  /** One past the last index below `j` that does not hold white space. */
  function TextEnd(s: string, j: nat): (r: nat)
    requires j <= |s|
    ensures r <= j
    ensures forall k :: r <= k < j ==> IsJsSpace(s[k])
    ensures r > 0 ==> !IsJsSpace(s[r - 1])
  {
    if j > 0 && IsJsSpace(s[j - 1]) then TextEnd(s, j - 1) else j
  }

  function TrimStart(s: string): (r: string)
    ensures r == [] || !IsJsSpace(r[0])
  {
    s[SpacesFrom(s, 0)..]
  }

  function TrimEnd(s: string): (r: string)
    ensures r == [] || !IsJsSpace(r[|r| - 1])
  {
    s[..TextEnd(s, |s|)]
  }

  /**
   * `s.trim()`: the input without leading and trailing white space. The result is the
   * piece of `s` that starts at its first non-space character and is followed by white
   * space only; it neither starts nor ends with white space.
   */
  function Trim(s: string): (r: string)
    ensures SpacesFrom(s, 0) + |r| <= |s|
    ensures r == s[SpacesFrom(s, 0)..SpacesFrom(s, 0) + |r|]
    ensures forall k :: SpacesFrom(s, 0) + |r| <= k < |s| ==> IsJsSpace(s[k])
    ensures r == [] || (!IsJsSpace(r[0]) && !IsJsSpace(r[|r| - 1]))
  {
    var a := SpacesFrom(s, 0);
    var t := s[a..];
    var e := TextEnd(t, |t|);
    assert forall k :: a + e <= k < |s| ==> s[k] == t[k - a];
    TrimEnd(t)
  }

  function IsDigit(c: char): bool { '0' <= c <= '9' }

  function DigitValue(c: char): nat
    requires IsDigit(c)
  {
    (c as int) - ('0' as int)
  }

  function DigitChar(d: nat): (c: char)
    requires d < 10
    ensures IsDigit(c) && DigitValue(c) == d
  {
    (('0' as int) + d) as char
  }

  /** The length of the longest prefix of `s` made of decimal digits. */
  function DigitRun(s: string): (n: nat)
    ensures n <= |s|
    ensures forall i :: 0 <= i < n ==> IsDigit(s[i])
    ensures n < |s| ==> !IsDigit(s[n])
  {
    if |s| > 0 && IsDigit(s[0]) then 1 + DigitRun(s[1..]) else 0
  }

  function DigitsValue(ds: string): nat
    requires forall i :: 0 <= i < |ds| ==> IsDigit(ds[i])
  {
    if ds == [] then 0 else 10 * DigitsValue(ds[..|ds| - 1]) + DigitValue(ds[|ds| - 1])
  }

  /**
   * `parseInt(s, 10)`: skip leading white space, read an optional sign and the longest
   * run of digits; `None` stands for NaN (no digit at all).
   */
  function ParseInt(s: string): Option<int> {
    ParseSigned(TrimStart(s))
  }

  /** `parseInt` once the leading white space is gone. */
  function ParseSigned(t: string): Option<int> {
    var neg := |t| > 0 && t[0] == '-';
    var body := if |t| > 0 && (t[0] == '-' || t[0] == '+') then t[1..] else t;
    var n := DigitRun(body);
    if n == 0 then None
    else
      var v: int := DigitsValue(body[..n]);
      Some(if neg then -v else v)
  }

  /** The decimal digits of a natural number, most significant first. */
  function NatToString(n: nat): (s: string)
    ensures |s| >= 1
    ensures forall i :: 0 <= i < |s| ==> IsDigit(s[i])
    ensures DigitsValue(s) == n
    ensures |s| > 1 ==> s[0] != '0'
  {
    if n < 10 then [DigitChar(n)] else
      var s := NatToString(n / 10) + [DigitChar(n % 10)];
      assert s[..|s| - 1] == NatToString(n / 10);
      s
  }

  /** `n.toString()` for an integer `n`. */
  function IntToString(n: int): string {
    if n < 0 then "-" + NatToString(-n) else NatToString(n)
  }

  /** The condition `parseInt(x, 10).toString() === x` that a bracket index must pass. */
  predicate IsCanonicalInt(x: string) {
    var p := ParseInt(x);
    p.Some? && IntToString(p.value) == x
  }

  /** Printing an integer and parsing it back gives the integer, and the text is canonical. */
  lemma IntToStringRoundTrip(n: int)
    ensures ParseInt(IntToString(n)) == Some(n)
    ensures IsCanonicalInt(IntToString(n))
  {
    if n < 0 {
      ParseNegativeDigits(NatToString(-n));
    } else {
      ParseDigits(NatToString(n));
    }
  }

  lemma ParseDigits(ds: string)
    requires |ds| >= 1 && forall i :: 0 <= i < |ds| ==> IsDigit(ds[i])
    ensures ParseInt(ds) == Some(DigitsValue(ds))
  {
    NoLeadingSpace(ds);
    DigitRunAll(ds);
    assert ds[..|ds|] == ds;
  }

  lemma ParseNegativeDigits(ds: string)
    requires |ds| >= 1 && forall i :: 0 <= i < |ds| ==> IsDigit(ds[i])
    ensures ParseInt("-" + ds) == Some(-(DigitsValue(ds) as int))
  {
    var s := "-" + ds;
    assert s[0] == '-';
    NoLeadingSpace(s);
    assert s[1..] == ds;
    DigitRunAll(ds);
    assert ds[..|ds|] == ds;
    var v: int := DigitsValue(ds);
    assert ParseSigned(s) == Some(-v);
  }

  /** `parseInt` of a text that starts with neither white space, a sign nor a digit is NaN. */
  lemma NoNumber(t: string)
    requires |t| > 0 && !IsJsSpace(t[0]) && t[0] != '-' && t[0] != '+' && !IsDigit(t[0])
    ensures ParseInt(t) == None
  {
    NoLeadingSpace(t);
    NoDigits(t);
  }

  lemma NoDigits(t: string)
    requires |t| > 0 && t[0] != '-' && t[0] != '+' && !IsDigit(t[0])
    ensures ParseSigned(t) == None
  {
    assert DigitRun(t) == 0;
  }

  lemma NoLeadingSpace(s: string)
    requires |s| > 0 && !IsJsSpace(s[0])
    ensures TrimStart(s) == s
  {
    assert s[0..] == s;
  }

  lemma {:induction false} DigitRunAll(ds: string)
    requires forall i :: 0 <= i < |ds| ==> IsDigit(ds[i])
    ensures DigitRun(ds) == |ds|
  {
    if |ds| > 0 {
      DigitRunAll(ds[1..]);
    }
  }
}
