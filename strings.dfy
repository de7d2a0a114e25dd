/**
 * Index searches over strings, the primitives from which the link parser and
 * the path resolver are built, and Python's `str` on natural numbers.
 */
module Strings {
  import opened Wrappers

  /** The first index at or after `from` where `s` holds `c`, if any. */
  function FirstIndexOf<T(==)>(s: seq<T>, c: T, from: nat): (r: Option<nat>)
    decreases |s| - from
    ensures r.Some? ==> from <= r.value < |s| && s[r.value] == c
    ensures r.Some? ==> forall k :: from <= k < r.value ==> s[k] != c
    ensures r.None? ==> forall k :: from <= k < |s| ==> s[k] != c
  {
    if from >= |s| then None
    else if s[from] == c then Some(from)
    else FirstIndexOf(s, c, from + 1)
  }

  /** The last index below `end` where `s` holds `c`, if any. */
  function LastIndexBefore(s: string, c: char, end: nat): (r: Option<nat>)
    requires end <= |s|
    ensures r.Some? ==> r.value < end && s[r.value] == c
    ensures r.Some? ==> forall k :: r.value < k < end ==> s[k] != c
    ensures r.None? ==> forall k :: 0 <= k < end ==> s[k] != c
  {
    if end == 0 then None
    else if s[end - 1] == c then Some(end - 1)
    else LastIndexBefore(s, c, end - 1)
  }

  /** The last index of `c` in `s`, given that `s` holds `c` at `from`. */
  function LastIndexFrom(s: string, c: char, from: nat): (r: nat)
    requires from < |s| && s[from] == c
    ensures from <= r < |s| && s[r] == c
    ensures forall k :: r < k < |s| ==> s[k] != c
    decreases |s| - from
  {
    match FirstIndexOf(s, c, from + 1)
    case None => from
    case Some(j) => LastIndexFrom(s, c, j)
  }

  /** The first index at or after `from` where `s` holds `c` immediately followed by `d`. */
  function FirstPairIndexOf(s: string, c: char, d: char, from: nat): (r: Option<nat>)
    decreases |s| - from
    ensures r.Some? ==> from <= r.value && r.value + 1 < |s| && s[r.value] == c && s[r.value + 1] == d
    ensures r.Some? ==> forall k :: from <= k < r.value ==> !(s[k] == c && s[k + 1] == d)
    ensures r.None? ==> forall k :: from <= k && k + 1 < |s| ==> !(s[k] == c && s[k + 1] == d)
  {
    if from + 1 >= |s| then None
    else if s[from] == c && s[from + 1] == d then Some(from)
    else FirstPairIndexOf(s, c, d, from + 1)
  }

  predicate IsDigit(ch: char) { '0' <= ch <= '9' }

  /** Python's `str(n)` for a natural number: its decimal digits, no leading zero. */
  function DecimalString(n: nat): (s: string)
    ensures |s| > 0 && forall k :: 0 <= k < |s| ==> IsDigit(s[k])
    ensures |s| > 1 ==> s[0] != '0'
  {
    if n < 10 then [('0' as int + n) as char]
    else DecimalString(n / 10) + [('0' as int + n % 10) as char]
  }

  /** The number a string of decimal digits denotes. */
  function DecimalValue(s: string): nat
    requires forall k :: 0 <= k < |s| ==> IsDigit(s[k])
  {
    if s == [] then 0
    else
      assert IsDigit(s[|s| - 1]);
      10 * DecimalValue(s[..|s| - 1]) + (s[|s| - 1] as int - '0' as int)
  }

  lemma {:induction false} DecimalRoundTrip(n: nat)
    ensures DecimalValue(DecimalString(n)) == n
  {
    var s := DecimalString(n);
    if n >= 10 {
      DecimalRoundTrip(n / 10);
      assert s[..|s| - 1] == DecimalString(n / 10);
    }
  }

  /** Different numbers print differently. */
  lemma DecimalStringInjective(m: nat, n: nat)
    requires DecimalString(m) == DecimalString(n)
    ensures m == n
  {
    DecimalRoundTrip(m);
    DecimalRoundTrip(n);
  }
}
