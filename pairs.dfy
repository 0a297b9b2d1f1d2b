/** The order in which the interaction phase visits pairs of list
    positions: for each position `i` in turn, every later position `j`,
    that is every pair `i < j` in lexicographic order. */
module Pairs {

  /** The pairs `(i, j), (i, j + 1), ..., (i, n - 1)`: the inner loop over
      `bodies_copy[idx + 1:]` once it has reached `j`. */
  function Row(i: nat, j: nat, n: nat): (r: seq<(nat, nat)>)
    ensures |r| == if j <= n then n - j else 0
    ensures forall k :: 0 <= k < |r| ==> r[k] == (i, j + k)
    decreases n - j
  {
    if j >= n then [] else [(i, j)] + Row(i, j + 1, n)
  }

  /** The pairs visited from outer position `i` on. */
  function PairsFrom(i: nat, n: nat): (r: seq<(nat, nat)>)
    ensures forall k :: 0 <= k < |r| ==> i <= r[k].0 < r[k].1 < n
    decreases n - i
  {
    if i >= n then [] else Row(i, i + 1, n) + PairsFrom(i + 1, n)
  }

  /** Every pair visited by one interaction phase over `n` bodies. */
  function AllPairs(n: nat): seq<(nat, nat)> {
    PairsFrom(0, n)
  }

  predicate LexLess(p: (nat, nat), q: (nat, nat)) {
    p.0 < q.0 || (p.0 == q.0 && p.1 < q.1)
  }

  /** `2 * |PairsFrom(i, n)|` is `(n - i) * (n - i - 1)`. */
  lemma {:induction false} PairsFromCount(i: nat, n: nat)
    requires i <= n
    ensures 2 * |PairsFrom(i, n)| == (n - i) * (n - i - 1)
    decreases n - i
  {
    if i < n {
      PairsFromCount(i + 1, n);
      var m := n - i;
      assert 2 * |PairsFrom(i, n)| == 2 * (m - 1) + (m - 1) * (m - 2);
      assert 2 * (m - 1) + (m - 1) * (m - 2) == m * (m - 1);
    }
  }

  /** One phase makes `n * (n - 1) / 2` calls. */
  lemma AllPairsCount(n: nat)
    ensures |AllPairs(n)| == n * (n - 1) / 2
  {
    PairsFromCount(0, n);
  }

  /** From outer position `i` on, a pair is visited exactly when
      `i <= p.0 < p.1 < n`. */
  lemma {:induction false} PairsFromMembership(i: nat, n: nat, p: (nat, nat))
    ensures p in PairsFrom(i, n) <==> i <= p.0 < p.1 < n
    decreases n - i
  {
    if i < n {
      PairsFromMembership(i + 1, n, p);
      var row := Row(i, i + 1, n);
      if p.0 == i && i < p.1 < n {
        assert row[p.1 - (i + 1)] == p;
      }
      assert p in row <==> p.0 == i && i < p.1 < n;
    }
  }

  /** A pair is visited by a phase exactly when it is `i < j < n`. */
  lemma AllPairsMembership(n: nat, p: (nat, nat))
    ensures p in AllPairs(n) <==> p.0 < p.1 < n
  {
    PairsFromMembership(0, n, p);
  }

  /** The pairs come in strictly increasing lexicographic order, so none is
      visited twice. */
  lemma {:induction false} PairsFromOrdered(i: nat, n: nat)
    ensures forall a, b :: 0 <= a < b < |PairsFrom(i, n)| ==> LexLess(PairsFrom(i, n)[a], PairsFrom(i, n)[b])
    decreases n - i
  {
    if i < n {
      PairsFromOrdered(i + 1, n);
      var row, rest := Row(i, i + 1, n), PairsFrom(i + 1, n);
      var ps := row + rest;
      forall a, b | 0 <= a < b < |ps|
        ensures LexLess(ps[a], ps[b])
      {
        if b < |row| {
          assert ps[a] == (i, i + 1 + a) && ps[b] == (i, i + 1 + b);
        } else if a < |row| {
          assert ps[a].0 == i && ps[b] == rest[b - |row|];
          assert rest[b - |row|].0 >= i + 1;
        } else {
          assert ps[a] == rest[a - |row|] && ps[b] == rest[b - |row|];
          assert LexLess(rest[a - |row|], rest[b - |row|]);
        }
      }
    }
  }

  /** Each pair `i < j < n` is visited exactly once per phase, in
      lexicographic order. */
  lemma AllPairsExactlyOnce(n: nat)
    ensures forall a, b :: 0 <= a < b < |AllPairs(n)| ==> LexLess(AllPairs(n)[a], AllPairs(n)[b])
    ensures forall a, b :: 0 <= a < b < |AllPairs(n)| ==> AllPairs(n)[a] != AllPairs(n)[b]
  {
    PairsFromOrdered(0, n);
  }
}
