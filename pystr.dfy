/**
 * The few Python string operations the configuration and validation code
 * relies on: `str.strip()`, `sep in s`, `s.split(sep, 1)`, `", ".join(...)`
 * and `str(n)` for an int, over Dafny strings (sequences of Unicode scalar
 * values, so `|s|` is Python's `len(s)`).
 */
module PyStr {

  /**
   * Python's `str.isspace()`: the characters `str.strip()` without arguments
   * removes from both ends.
   */
  predicate IsSpace(c: char) {
    || '\U{9}' <= c <= '\U{d}'      // \t \n \v \f \r
    || '\U{1c}' <= c <= '\U{20}'    // file/group/record/unit separators, space
    || c == '\U{85}' || c == '\U{a0}' || c == '\U{1680}'
    || '\U{2000}' <= c <= '\U{200a}'
    || c == '\U{2028}' || c == '\U{2029}' || c == '\U{202f}'
    || c == '\U{205f}' || c == '\U{3000}'
  }

  ghost predicate AllSpace(s: string) {
    forall k :: 0 <= k < |s| ==> IsSpace(s[k])
  }

  /** `s.lstrip()`: drops the leading whitespace and nothing else. */
  function StripStart(s: string): (r: string)
    ensures |r| <= |s| && r == s[|s| - |r|..]
    ensures forall k :: 0 <= k < |s| - |r| ==> IsSpace(s[k])
    ensures r == [] || !IsSpace(r[0])
  {
    if |s| > 0 && IsSpace(s[0]) then StripStart(s[1..]) else s
  }

  /** `s.rstrip()`: drops the trailing whitespace and nothing else. */
  function StripEnd(s: string): (r: string)
    ensures |r| <= |s| && r == s[..|r|]
    ensures forall k :: |r| <= k < |s| ==> IsSpace(s[k])
    ensures r == [] || !IsSpace(r[|r| - 1])
  {
    if |s| > 0 && IsSpace(s[|s| - 1]) then StripEnd(s[..|s| - 1]) else s
  }

  /**
   * `s[lo..hi]` is `s` with its leading and trailing whitespace removed:
   * whitespace on both sides of it and none at either end of it.
   */
  ghost predicate StrippedAt(s: string, lo: int, hi: int) {
    && 0 <= lo <= hi <= |s|
    && (forall k :: 0 <= k < lo ==> IsSpace(s[k]))
    && (forall k :: hi <= k < |s| ==> IsSpace(s[k]))
    && (lo < hi ==> !IsSpace(s[lo]) && !IsSpace(s[hi - 1]))
  }

  /** `r` is a contiguous piece of `s` that strips `s`. */
  ghost predicate IsStripOf(s: string, r: string) {
    exists lo, hi :: StrippedAt(s, lo, hi) && r == s[lo..hi]
  }

  /** `s.strip()` */
  function Strip(s: string): string {
    StripEnd(StripStart(s))
  }

  /**
   * `s.strip()` cuts out the piece of `s` between its leading and its
   * trailing whitespace, and is empty exactly when `s` is all whitespace.
   */
  lemma StripSpec(s: string)
    ensures IsStripOf(s, Strip(s))
    ensures Strip(s) == [] <==> AllSpace(s)
  {
    var t := StripStart(s);
    var r := StripEnd(t);
    var lo := |s| - |t|;
    assert s[lo..lo + |r|] == r;
    assert StrippedAt(s, lo, lo + |r|);
  }

  /** Two ways of stripping the same string cut out the same piece. */
  lemma StrippedAtUnique(s: string, lo: int, hi: int, lo': int, hi': int)
    requires StrippedAt(s, lo, hi) && StrippedAt(s, lo', hi')
    ensures s[lo..hi] == s[lo'..hi']
  {
    // an empty piece means all of `s` is whitespace, so then both are empty;
    // otherwise each piece starts and ends at the first and last non-whitespace
  }

  /** There is only one way to strip a string, and `Strip` finds it. */
  lemma StripUnique(s: string, r: string)
    requires IsStripOf(s, r)
    ensures Strip(s) == r
  {
    StripSpec(s);
    var lo, hi :| StrippedAt(s, lo, hi) && r == s[lo..hi];
    var lo', hi' :| StrippedAt(s, lo', hi') && Strip(s) == s[lo'..hi'];
    StrippedAtUnique(s, lo, hi, lo', hi');
  }

  /** `s` has no whitespace at either end, so `s.strip() == s`. */
  predicate IsStripped(s: string) {
    s == [] || (!IsSpace(s[0]) && !IsSpace(s[|s| - 1]))
  }

  lemma StripStripped(s: string)
    requires IsStripped(s)
    ensures Strip(s) == s
  {
    assert s[0..|s|] == s;
    assert StrippedAt(s, 0, |s|);
    StripUnique(s, s);
  }

  /** Stripping twice is stripping once. */
  lemma StripIdempotent(s: string)
    ensures Strip(Strip(s)) == Strip(s)
  {
    var r := Strip(s);
    StripSpec(s);
    assert r[0..|r|] == r;
    assert r[..0] == [] && r[|r|..] == [];
    assert StrippedAt(r, 0, |r|);
    StripUnique(r, r);
  }

  /** Index of the first `c` in `s`, or `|s|` when `c !in s`. */
  function FindChar(s: string, c: char): (i: nat)
    ensures i <= |s| && c !in s[..i]
    ensures i < |s| ==> s[i] == c
  {
    if s == [] then 0
    else if s[0] == c then 0
    else
      var j := FindChar(s[1..], c);
      assert s[..j + 1] == [s[0]] + s[1..][..j];
      j + 1
  }

  /** `sep` occurs in `s` starting at index `j`. */
  predicate OccursAt(s: string, sep: string, j: int) {
    0 <= j && j + |sep| <= |s| && s[j..j + |sep|] == sep
  }

  /** Index of the first occurrence of `sep` in `s`, or `|s|` when there is none. */
  function FindSub(s: string, sep: string): (i: nat)
    requires |sep| > 0
    ensures i <= |s|
    ensures i < |s| ==> OccursAt(s, sep, i) && s[i] == sep[0]
    ensures forall j :: 0 <= j < i ==> !OccursAt(s, sep, j)
  {
    if |s| < |sep| then |s|
    else if s[..|sep|] == sep then 0
    else
      var j := FindSub(s[1..], sep);
      assert forall k :: 1 <= k <= j ==> OccursAt(s, sep, k) == OccursAt(s[1..], sep, k - 1);
      assert j < |s| - 1 ==> s[j + 1..j + 1 + |sep|] == s[1..][j..j + |sep|];
      j + 1
  }

  /** `sep.join(parts)` */
  function Join(parts: seq<string>, sep: string): string {
    if |parts| == 0 then ""
    else if |parts| == 1 then parts[0]
    else parts[0] + sep + Join(parts[1..], sep)
  }

  /** `s.split(sep)` for a non-empty separator. */
  function Split(s: string, sep: string): (parts: seq<string>)
    requires |sep| > 0
    ensures |parts| > 0
    decreases |s|
  {
    var i := FindSub(s, sep);
    if i == |s| then [s] else [s[..i]] + Split(s[i + |sep|..], sep)
  }

  /**
   * Joining with a separator whose first character occurs in no part can be
   * undone by splitting: no part is lost, merged or reordered.
   */
  lemma {:induction false} SplitJoin(parts: seq<string>, sep: string)
    requires |sep| > 0 && |parts| > 0
    requires forall p :: p in parts ==> sep[0] !in p
    ensures Split(Join(parts, sep), sep) == parts
  {
    var s := Join(parts, sep);
    var p0 := parts[0];
    assert sep[0] !in p0;
    var i := FindSub(s, sep);
    if |parts| == 1 {
    } else {
      var rest := Join(parts[1..], sep);
      assert s == p0 + sep + rest;
      assert OccursAt(s, sep, |p0|);
      assert i == |p0|;
      assert s[..i] == p0;
      assert s[i + |sep|..] == rest;
      SplitJoin(parts[1..], sep);
    }
  }

  /** The character for a decimal digit. */
  function DigitChar(d: nat): (c: char)
    requires d < 10
    ensures IsDigit(c)
  {
    (48 + d) as char
  }

  predicate IsDigit(c: char) { '0' as int <= c as int <= '9' as int }

  /** `str(n)` for a non-negative int: decimal digits, no leading zero. */
  function NatToDecimal(n: nat): (s: string)
    ensures |s| > 0 && forall k :: 0 <= k < |s| ==> IsDigit(s[k])
    ensures |s| > 1 ==> s[0] != '0'
  {
    if n < 10 then [DigitChar(n)] else NatToDecimal(n / 10) + [DigitChar(n % 10)]
  }

  /** `str(n)` for any int. */
  function IntToDecimal(n: int): (s: string)
    ensures |s| > 0 && (s[0] == '-' <==> n < 0)
  {
    if n < 0 then "-" + NatToDecimal(-n) else NatToDecimal(n)
  }

  /** The value of a string of decimal digits. */
  function DigitsValue(s: string): nat
    requires forall k :: 0 <= k < |s| ==> IsDigit(s[k])
  {
    if s == [] then 0
    else
      assert IsDigit(s[|s| - 1]);
      10 * DigitsValue(s[..|s| - 1]) + (s[|s| - 1] as int - '0' as int)
  }

  /** `int(s)` for what `str(n)` prints. */
  function DecimalValue(s: string): int {
    if |s| > 0 && s[0] == '-' && forall k :: 1 <= k < |s| ==> IsDigit(s[k]) then -(DigitsValue(s[1..]) as int)
    else if forall k :: 0 <= k < |s| ==> IsDigit(s[k]) then DigitsValue(s)
    else 0
  }

  lemma {:induction false} NatToDecimalValue(n: nat)
    ensures DigitsValue(NatToDecimal(n)) == n
  {
    if n >= 10 {
      var s := NatToDecimal(n);
      assert s[..|s| - 1] == NatToDecimal(n / 10);
      NatToDecimalValue(n / 10);
    }
  }

  /** `int(str(n)) == n`: the printed number reads back as the number. */
  lemma IntToDecimalRoundTrip(n: int)
    ensures DecimalValue(IntToDecimal(n)) == n
  {
    var s := IntToDecimal(n);
    if n < 0 {
      assert s[1..] == NatToDecimal(-n);
      NatToDecimalValue(-n);
    } else {
      NatToDecimalValue(n);
    }
  }
}
