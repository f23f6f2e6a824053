/** The mathematical sum that every summation routine of the program is
    measured against: a left-to-right fold of `+` starting from 0. */
module Sums {

  /** Sum of the elements of `s`, folded from the left as `total += *it` does. */
  function Sum(s: seq<int>): (r: int)
  {
    if s == [] then 0 else Sum(s[..|s| - 1]) + s[|s| - 1]
  }

  /** Appending one element to the right adds exactly that element. */
  lemma SumSnoc(s: seq<int>, x: int)
    ensures Sum(s + [x]) == Sum(s) + x
  {
    assert (s + [x])[..|s + [x]| - 1] == s;
  }

  /** Summing a concatenation is summing each part: the basis of every
      split of a range into chunks. */
  lemma {:induction false} SumAppend(a: seq<int>, b: seq<int>)
    ensures Sum(a + b) == Sum(a) + Sum(b)
  {
    if b == [] {
      assert a + b == a;
    } else {
      var b' := b[..|b| - 1];
      var x := b[|b| - 1];
      assert b == b' + [x];
      assert a + b == (a + b') + [x];
      SumAppend(a, b');
      SumSnoc(a + b', x);
      SumSnoc(b', x);
    }
  }

  /** Splitting a sequence at any cut point preserves its sum. */
  lemma SumSplit(s: seq<int>, k: nat)
    requires k <= |s|
    ensures Sum(s) == Sum(s[..k]) + Sum(s[k..])
  {
    assert s == s[..k] + s[k..];
    SumAppend(s[..k], s[k..]);
  }

  /** Extending a prefix from `lo` to `hi` adds the sum of `[lo, hi)`. */
  lemma SumPrefixStep(s: seq<int>, lo: nat, hi: nat)
    requires lo <= hi <= |s|
    ensures Sum(s[..hi]) == Sum(s[..lo]) + Sum(s[lo..hi])
  {
    var prefix := s[..hi];
    assert prefix[..lo] == s[..lo];
    assert prefix[lo..] == s[lo..hi];
    SumSplit(prefix, lo);
  }
}
