/** `itertools.combinations(objs, 2)`: every unordered pair of distinct
    positions, in the order Python yields them. */
module Pairs {
  /** The pairs whose first position is `i`: `(i, i+1)`, ..., `(i, n-1)`. */
  function Row(i: nat, n: nat): (r: seq<(nat, nat)>)
    ensures forall k :: 0 <= k < |r| ==> r[k].0 == i && i < r[k].1 < n
  {
    if i + 1 >= n then [] else seq(n - i - 1, k requires 0 <= k < n - i - 1 => (i, i + 1 + k))
  }

  /** The rows from `i` on. */
  function PairsFrom(i: nat, n: nat): (r: seq<(nat, nat)>)
    ensures forall k :: 0 <= k < |r| ==> i <= r[k].0 < r[k].1 < n
    decreases n - i
  {
    if i >= n then [] else Row(i, n) + PairsFrom(i + 1, n)
  }

  /** `combinations(range(n), 2)`. */
  function IndexPairs(n: nat): seq<(nat, nat)> {
    PairsFrom(0, n)
  }

  /** `p` comes before `q` in lexicographic order. */
  predicate LexLess(p: (nat, nat), q: (nat, nat)) {
    p.0 < q.0 || (p.0 == q.0 && p.1 < q.1)
  }

  lemma {:induction false} PairsFromMembers(i: nat, n: nat)
    ensures forall p :: p in PairsFrom(i, n) <==> i <= p.0 < p.1 < n
    decreases n - i
  {
    if i < n {
      PairsFromMembers(i + 1, n);
      var row := Row(i, n);
      var rest := PairsFrom(i + 1, n);
      assert PairsFrom(i, n) == row + rest;
      forall p: (nat, nat) | i <= p.0 < p.1 < n
        ensures p in row + rest
      {
        if p.0 == i {
          assert row[p.1 - i - 1] == p;
        } else {
          assert p in rest;
        }
      }
    }
  }

  lemma {:induction false} PairsFromOrdered(i: nat, n: nat)
    ensures forall a, b :: 0 <= a < b < |PairsFrom(i, n)| ==> LexLess(PairsFrom(i, n)[a], PairsFrom(i, n)[b])
    decreases n - i
  {
    if i < n {
      PairsFromOrdered(i + 1, n);
      var row := Row(i, n);
      var rest := PairsFrom(i + 1, n);
      var r := row + rest;
      assert PairsFrom(i, n) == r;
      forall a, b | 0 <= a < b < |r|
        ensures LexLess(r[a], r[b])
      {
        if b < |row| {
          assert r[a] == row[a] && r[b] == row[b];
        } else if a < |row| {
          assert r[a] == row[a] && r[b] == rest[b - |row|];
        } else {
          assert r[a] == rest[a - |row|] && r[b] == rest[b - |row|];
        }
      }
    }
  }

  lemma {:induction false} PairsFromCount(i: nat, n: nat)
    requires i <= n
    ensures 2 * |PairsFrom(i, n)| == (n - i) * (n - i - 1)
    decreases n - i
  {
    if i < n {
      PairsFromCount(i + 1, n);
    }
  }

  /** Every pair `i < j < n` appears and nothing else; the order is strictly
      lexicographic, so each appears once; there are n(n-1)/2 of them. */
  lemma IndexPairsExact(n: nat)
    ensures forall p :: p in IndexPairs(n) <==> p.0 < p.1 < n
    ensures forall a, b :: 0 <= a < b < |IndexPairs(n)| ==> LexLess(IndexPairs(n)[a], IndexPairs(n)[b])
    ensures 2 * |IndexPairs(n)| == n * (n - 1)
  {
    PairsFromMembers(0, n);
    PairsFromOrdered(0, n);
    PairsFromCount(0, n);
  }

  /** `combinations(xs, 2)`: the elements at each index pair. */
  function Combinations<T>(xs: seq<T>): (r: seq<(T, T)>)
    ensures |r| == |IndexPairs(|xs|)|
    ensures forall k :: 0 <= k < |r| ==> r[k] == (xs[IndexPairs(|xs|)[k].0], xs[IndexPairs(|xs|)[k].1])
  {
    var ps := IndexPairs(|xs|);
    seq(|ps|, k requires 0 <= k < |ps| => (xs[ps[k].0], xs[ps[k].1]))
  }
}
