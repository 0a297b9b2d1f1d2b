/** Mapping a function over a sequence, and the fact that mapping keeps
    permutations permutations. */
module Seqs {

  function Map<A, B>(f: A -> B, s: seq<A>): (r: seq<B>)
    ensures |r| == |s|
    ensures forall k :: 0 <= k < |s| ==> r[k] == f(s[k])
  {
    if s == [] then [] else Map(f, s[..|s| - 1]) + [f(s[|s| - 1])]
  }

  lemma MapConcat<A, B>(f: A -> B, a: seq<A>, b: seq<A>)
    ensures Map(f, a + b) == Map(f, a) + Map(f, b)
  {
    assert |Map(f, a + b)| == |Map(f, a) + Map(f, b)|;
    forall k | 0 <= k < |a + b|
      ensures Map(f, a + b)[k] == (Map(f, a) + Map(f, b))[k]
    {
      if k < |a| {
        assert (a + b)[k] == a[k];
      } else {
        assert (a + b)[k] == b[k - |a|];
      }
    }
  }

  /** Mapping commutes with replacing two elements. */
  lemma MapUpdate<A, B>(f: A -> B, s: seq<A>, i: nat, j: nat, x: A, y: A)
    requires i < |s| && j < |s|
    ensures Map(f, s[i := x][j := y]) == Map(f, s)[i := f(x)][j := f(y)]
  {
  }

  /** Mapping two sequences with the same elements gives two sequences with
      the same elements. */
  lemma {:induction false} MapPermutation<A, B>(f: A -> B, s: seq<A>, t: seq<A>)
    requires multiset(s) == multiset(t)
    ensures multiset(Map(f, s)) == multiset(Map(f, t))
    decreases |s|
  {
    if s == [] {
      assert |t| == |multiset(t)| == 0;
    } else {
      var init, x := s[..|s| - 1], s[|s| - 1];
      assert s == init + [x];
      assert x in multiset(t);
      var k :| 0 <= k < |t| && t[k] == x;
      var rest := t[..k] + t[k + 1..];
      assert t == t[..k] + [x] + t[k + 1..];
      assert multiset(t) == multiset(rest) + multiset{x};
      assert multiset(s) == multiset(init) + multiset{x};
      assert multiset(rest) == multiset(t) - multiset{x};
      assert multiset(init) == multiset(s) - multiset{x};
      MapPermutation(f, init, rest);
      MapConcat(f, init, [x]);
      MapConcat(f, t[..k] + [x], t[k + 1..]);
      MapConcat(f, t[..k], [x]);
      MapConcat(f, t[..k], t[k + 1..]);
    }
  }
}
