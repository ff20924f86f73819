/**
 * The string operations the application relies on: `str.strip`, `str.lower`,
 * `str.startswith`, `str.replace(old, new, 1)` and `int(...)` on a form field.
 * Whitespace and case are ASCII only; `int` accepts an optional sign followed by
 * one or more ASCII digits.
 */
module Text {
  import opened Wrappers

  // ---------------------------------------------------------------- whitespace

  predicate IsSpace(c: char) {
    c == ' ' || c == '\t' || c == '\n' || c == '\r' || c == '\U{B}' || c == '\U{C}' ||
    ('\U{1C}' <= c <= '\U{1F}')
  }

  predicate AllSpace(s: string) {
    forall i :: 0 <= i < |s| ==> IsSpace(s[i])
  }

  /** True when `s` neither begins nor ends with whitespace. */
  predicate IsTrimmed(s: string) {
    s == [] || (!IsSpace(s[0]) && !IsSpace(s[|s| - 1]))
  }

  /** Drops leading whitespace: the result is the suffix of `s` that starts at its first non-space. */
  function TrimLeft(s: string): (r: string)
    ensures |r| <= |s| && r == s[|s| - |r|..]
    ensures AllSpace(s[..|s| - |r|])
    ensures r == [] || !IsSpace(r[0])
  {
    if s == [] || !IsSpace(s[0]) then s else TrimLeft(s[1..])
  }

  /** Drops trailing whitespace: the result is the prefix of `s` that ends at its last non-space. */
  function TrimRight(s: string): (r: string)
    ensures |r| <= |s| && r == s[..|r|]
    ensures AllSpace(s[|r|..])
    ensures r == [] || !IsSpace(r[|r| - 1])
  {
    if s == [] || !IsSpace(s[|s| - 1]) then s else TrimRight(s[..|s| - 1])
  }

  /** Trimming the front and then the back leaves a slice with only whitespace around it. */
  lemma SliceBetweenSpaces(s: string, l: string, r: string)
    requires |l| <= |s| && l == s[|s| - |l|..] && AllSpace(s[..|s| - |l|])
    requires |r| <= |l| && r == l[..|r|] && AllSpace(l[|r|..])
    ensures exists i, j :: 0 <= i <= j <= |s| && r == s[i..j] && AllSpace(s[..i]) && AllSpace(s[j..])
  {
    var i := |s| - |l|;
    assert r == s[i..i + |r|];
    assert s[i + |r|..] == l[|r|..];
  }

  /** Python's `str.strip()` with no argument. */
  function Strip(s: string): (r: string)
    ensures IsTrimmed(r)
    ensures |r| <= |s|
    ensures r == [] <==> AllSpace(s)
    ensures exists i, j :: 0 <= i <= j <= |s| && r == s[i..j] && AllSpace(s[..i]) && AllSpace(s[j..])
  {
    var l := TrimLeft(s);
    var r := TrimRight(l);
    SliceBetweenSpaces(s, l, r);
    r
  }

  /** Stripping twice is stripping once. */
  lemma StripIdempotent(s: string)
    ensures Strip(Strip(s)) == Strip(s)
  {
    var r := Strip(s);
    if r != [] {
      assert TrimLeft(r) == r;
      assert TrimRight(r) == r;
    }
  }

  // ---------------------------------------------------------------- case

  function LowerChar(c: char): (d: char)
    ensures 'A' <= c <= 'Z' ==> 'a' <= d <= 'z'
    ensures !('A' <= c <= 'Z') ==> d == c
  {
    if 'A' <= c <= 'Z' then (c as int - 'A' as int + 'a' as int) as char else c
  }

  /** Python's `str.lower()` on ASCII letters. */
  function Lower(s: string): (r: string)
    ensures |r| == |s|
    ensures forall i :: 0 <= i < |s| ==> r[i] == LowerChar(s[i])
  {
    if s == [] then [] else [LowerChar(s[0])] + Lower(s[1..])
  }

  // ---------------------------------------------------------------- prefix and replace

  predicate StartsWith(s: string, prefix: string) {
    |prefix| <= |s| && s[..|prefix|] == prefix
  }

  /**
   * Python's `s.replace(pat, rep, 1)`: the first occurrence of `pat` is replaced
   * by `rep`; a string without an occurrence is returned unchanged.
   */
  function ReplaceFirst(s: string, pat: string, rep: string): (r: string)
    ensures r == s || |r| == |s| - |pat| + |rep|
    decreases |s|
  {
    if StartsWith(s, pat) then rep + s[|pat|..]
    else if s == [] then s
    else [s[0]] + ReplaceFirst(s[1..], pat, rep)
  }

  /** `pat` occurs in `s` at position `i`. */
  predicate OccursAt(s: string, pat: string, i: int) {
    0 <= i && i + |pat| <= |s| && s[i..i + |pat|] == pat
  }

  /** An occurrence in the tail of `s` is an occurrence in `s`, one position later. */
  lemma OccursInTail(s: string, pat: string, j: nat)
    requires s != []
    ensures OccursAt(s[1..], pat, j) <==> OccursAt(s, pat, j + 1)
  {
    if j + 1 + |pat| <= |s| {
      assert s[1..][j..j + |pat|] == s[j + 1..j + 1 + |pat|];
    }
  }

  /**
   * Replacing the first occurrence: when `pat` first occurs at `i`, the result is
   * the part before `i`, then `rep`, then the rest of `s` unchanged.
   */
  lemma {:induction false} ReplaceFirstAt(s: string, pat: string, rep: string, i: nat)
    requires OccursAt(s, pat, i)
    requires forall j :: 0 <= j < i ==> !OccursAt(s, pat, j)
    ensures ReplaceFirst(s, pat, rep) == s[..i] + rep + s[i + |pat|..]
  {
    if i == 0 {
      assert StartsWith(s, pat);
    } else {
      assert !OccursAt(s, pat, 0);
      forall j: nat | j < i - 1
        ensures !OccursAt(s[1..], pat, j)
      {
        OccursInTail(s, pat, j);
      }
      OccursInTail(s, pat, i - 1);
      ReplaceFirstAt(s[1..], pat, rep, i - 1);
      assert [s[0]] + s[1..][..i - 1] == s[..i];
      assert s[1..][i - 1 + |pat|..] == s[i + |pat|..];
    }
  }

  /** With no occurrence of `pat`, `replace` changes nothing. */
  lemma {:induction false} ReplaceFirstNoOccurrence(s: string, pat: string, rep: string)
    requires forall j :: 0 <= j <= |s| ==> !OccursAt(s, pat, j)
    ensures ReplaceFirst(s, pat, rep) == s
    decreases |s|
  {
    assert !OccursAt(s, pat, 0);
    if s != [] {
      forall j: nat | j <= |s| - 1
        ensures !OccursAt(s[1..], pat, j)
      {
        OccursInTail(s, pat, j);
      }
      ReplaceFirstNoOccurrence(s[1..], pat, rep);
    }
  }

  // ---------------------------------------------------------------- integers

  predicate IsDigit(c: char) {
    '0' <= c <= '9'
  }

  predicate AllDigits(s: string) {
    forall i :: 0 <= i < |s| ==> IsDigit(s[i])
  }

  function DigitValue(c: char): (d: nat)
    requires IsDigit(c)
    ensures d < 10
  {
    c as int - '0' as int
  }

  function DigitChar(d: nat): (c: char)
    requires d < 10
    ensures IsDigit(c) && DigitValue(c) == d
  {
    ('0' as int + d) as char
  }

  /** The value of a string of decimal digits, most significant first. */
  function DigitsValue(s: string): (n: nat)
    requires AllDigits(s)
  {
    if s == [] then 0 else 10 * DigitsValue(s[..|s| - 1]) + DigitValue(s[|s| - 1])
  }

  /**
   * CPython's default limit on the digits of an integer string
   * (`sys.int_info.default_max_str_digits`); a longer string makes `int()` raise.
   */
  const MaxStrDigits := 4300

  /** The shape `int()` accepts here: an optional `+` or `-`, then one to `MaxStrDigits` digits. */
  predicate IsIntLiteral(s: string) {
    if s != [] && (s[0] == '+' || s[0] == '-') then 1 < |s| <= MaxStrDigits + 1 && AllDigits(s[1..])
    else s != [] && |s| <= MaxStrDigits && AllDigits(s)
  }

  /** Python's `int(s)`: `None` stands for the `ValueError` it raises. */
  function ParseInt(s: string): (r: Option<int>)
    ensures r.Some? <==> IsIntLiteral(s)
  {
    if s == [] then None
    else if s[0] == '-' || s[0] == '+' then
      if 1 < |s| <= MaxStrDigits + 1 && AllDigits(s[1..]) then
        var magnitude: int := DigitsValue(s[1..]);
        Some(if s[0] == '-' then -magnitude else magnitude)
      else None
    else if |s| <= MaxStrDigits && AllDigits(s) then Some(DigitsValue(s))
    else None
  }

  /** The decimal digits of `n`, without leading zeros. */
  function NatToString(n: nat): (s: string)
    ensures s != [] && AllDigits(s)
  {
    if n < 10 then [DigitChar(n)] else NatToString(n / 10) + [DigitChar(n % 10)]
  }

  /** The decimal form of `n` as `str(n)` writes it. */
  function IntToString(n: int): (s: string)
    ensures |NatToString(if n < 0 then -n else n)| <= MaxStrDigits ==> IsIntLiteral(s)
  {
    if n < 0 then "-" + NatToString(-n) else NatToString(n)
  }

  lemma {:induction false} DigitsRoundTrip(n: nat)
    ensures DigitsValue(NatToString(n)) == n
  {
    var s := NatToString(n);
    if n >= 10 {
      DigitsRoundTrip(n / 10);
      assert s[..|s| - 1] == NatToString(n / 10);
    }
  }

  /** Every integer written in decimal within the digit limit parses back to itself. */
  lemma ParseIntRoundTrip(n: int)
    requires |NatToString(if n < 0 then -n else n)| <= MaxStrDigits
    ensures ParseInt(IntToString(n)) == Some(n)
  {
    var s := IntToString(n);
    if n < 0 {
      assert s[1..] == NatToString(-n);
      DigitsRoundTrip(-n);
    } else {
      DigitsRoundTrip(n);
    }
  }

  /** A digit string longer than the limit is refused, however small its value. */
  lemma LongDigitsRejected(s: string, sign: string)
    requires sign == "" || sign == "+" || sign == "-"
    requires AllDigits(s) && |s| > MaxStrDigits
    ensures ParseInt(sign + s) == None
  {
    if sign != "" {
      assert (sign + s)[1..] == s;
    }
  }
}
