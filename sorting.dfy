/** `self.bodies.sort(key=lambda item: item.position[0])`: a stable sort of
    the body list by x coordinate.  The library sort is a call, not code of
    the core, so it is specified here as a function (an insertion sort that
    puts each body after every earlier body whose key is not larger) together
    with the three properties that pin a stable sort down: the result is
    ordered, it is a permutation, and bodies with equal keys keep their
    relative order. */
module Sorting {
  import opened StellarBodies

  function Key(b: StellarBody): real {
    b.position.x
  }

  predicate SortedByX(s: seq<StellarBody>) {
    forall a, b :: 0 <= a < b < |s| ==> Key(s[a]) <= Key(s[b])
  }

  /** Inserts `b` after every element of `t` whose key is at most `Key(b)`. */
  function InsertByX(t: seq<StellarBody>, b: StellarBody): seq<StellarBody> {
    if t == [] || Key(t[|t| - 1]) <= Key(b) then t + [b]
    else InsertByX(t[..|t| - 1], b) + [t[|t| - 1]]
  }

  function SortByX(s: seq<StellarBody>): seq<StellarBody> {
    if s == [] then [] else InsertByX(SortByX(s[..|s| - 1]), s[|s| - 1])
  }

  /** The bodies of `s` whose key is `k`, in their order in `s`. */
  function WithKey(s: seq<StellarBody>, k: real): seq<StellarBody> {
    if s == [] then []
    else WithKey(s[..|s| - 1], k) + (if Key(s[|s| - 1]) == k then [s[|s| - 1]] else [])
  }

  lemma {:induction false} InsertPermutation(t: seq<StellarBody>, b: StellarBody)
    ensures multiset(InsertByX(t, b)) == multiset(t) + multiset{b}
    decreases |t|
  {
    if !(t == [] || Key(t[|t| - 1]) <= Key(b)) {
      InsertPermutation(t[..|t| - 1], b);
      assert t == t[..|t| - 1] + [t[|t| - 1]];
    }
  }

  /** Every key in the inserted sequence is a key of `t` or `Key(b)`; this
      bounds the last element from above. */
  lemma {:induction false} InsertBounded(t: seq<StellarBody>, b: StellarBody, hi: real)
    requires forall k :: 0 <= k < |t| ==> Key(t[k]) <= hi
    requires Key(b) <= hi
    ensures forall k :: 0 <= k < |InsertByX(t, b)| ==> Key(InsertByX(t, b)[k]) <= hi
    decreases |t|
  {
    InsertPermutation(t, b);
    var r := InsertByX(t, b);
    forall k | 0 <= k < |r| ensures Key(r[k]) <= hi {
      assert r[k] in multiset(r);
      assert r[k] in multiset(t) || r[k] == b;
      if r[k] in multiset(t) {
        assert r[k] in t;
      }
    }
  }

  lemma {:induction false} InsertSorted(t: seq<StellarBody>, b: StellarBody)
    requires SortedByX(t)
    ensures SortedByX(InsertByX(t, b))
    decreases |t|
  {
    if !(t == [] || Key(t[|t| - 1]) <= Key(b)) {
      var init, last := t[..|t| - 1], t[|t| - 1];
      InsertSorted(init, b);
      InsertBounded(init, b, Key(last));
    }
  }

  lemma {:induction false} InsertStable(t: seq<StellarBody>, b: StellarBody, k: real)
    ensures WithKey(InsertByX(t, b), k) == WithKey(t, k) + (if Key(b) == k then [b] else [])
    decreases |t|
  {
    var r := InsertByX(t, b);
    if t == [] || Key(t[|t| - 1]) <= Key(b) {
      assert r[..|r| - 1] == t;
    } else {
      var init, last := t[..|t| - 1], t[|t| - 1];
      InsertStable(init, b, k);
      assert r[..|r| - 1] == InsertByX(init, b);
      assert t[..|t| - 1] == init;
    }
  }

  /** The sort returns a permutation of its input. */
  lemma {:induction false} SortPermutation(s: seq<StellarBody>)
    ensures multiset(SortByX(s)) == multiset(s)
    ensures |SortByX(s)| == |s|
  {
    if s != [] {
      SortPermutation(s[..|s| - 1]);
      InsertPermutation(SortByX(s[..|s| - 1]), s[|s| - 1]);
      assert s == s[..|s| - 1] + [s[|s| - 1]];
    }
  }

  /** The sort orders the bodies by non-decreasing x coordinate. */
  lemma {:induction false} SortSorted(s: seq<StellarBody>)
    ensures SortedByX(SortByX(s))
  {
    if s != [] {
      SortSorted(s[..|s| - 1]);
      InsertSorted(SortByX(s[..|s| - 1]), s[|s| - 1]);
    }
  }

  /** The sort is stable: for every x value, the bodies at that x come out in
      the order they went in. */
  lemma {:induction false} SortStable(s: seq<StellarBody>, k: real)
    ensures WithKey(SortByX(s), k) == WithKey(s, k)
  {
    if s != [] {
      SortStable(s[..|s| - 1], k);
      InsertStable(SortByX(s[..|s| - 1]), s[|s| - 1], k);
    }
  }
}
