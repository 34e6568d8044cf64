/** In-place Fisher-Yates shuffle of the candidate digits. */
module Shuffle {

  /**
   * The game's shuffle: for i from the last index down to 1, swap element i
   * with element j, where j is drawn from 0..i.  The random draw is any choice
   * in that range, so the result is some permutation of the input.
   */
  method Shuffle(a: array<int>)
    modifies a
    ensures multiset(a[..]) == multiset(old(a[..]))
  {
    var i := a.Length - 1;
    while i > 0
      invariant i < a.Length
      invariant multiset(a[..]) == multiset(old(a[..]))
      decreases i
    {
      var j :| 0 <= j <= i;
      ghost var before := a[..];
      a[i], a[j] := a[j], a[i];
      assert a[..] == before[i := before[j]][j := before[i]];
      i := i - 1;
    }
  }
}
