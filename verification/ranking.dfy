/** The ranking step of `get_conceptnet_facts_for_image`:
    `sorted(best.items(), key=weight, reverse=True)[:max_facts]`. Python's
    sort is stable, also with `reverse=True`, so facts of equal weight keep
    their insertion order. */
module Ranking {
  import opened Edges
  import opened Facts

  predicate SortedDesc(t: Table) {
    forall i, j :: 0 <= i < j < |t| ==> t[i].weight >= t[j].weight
  }

  /** The facts of weight `w`, in order. */
  function WithWeight(t: Table, w: real): (r: Table)
    ensures forall i :: 0 <= i < |r| ==> r[i].weight == w
    ensures |r| <= |t|
  {
    if t == [] then []
    else (if t[0].weight == w then [t[0]] else []) + WithWeight(t[1..], w)
  }

  lemma {:induction false} WithWeightAppend(a: Table, b: Table, w: real)
    ensures WithWeight(a + b, w) == WithWeight(a, w) + WithWeight(b, w)
  {
    if a == [] {
      assert a + b == b;
    } else {
      var h := if a[0].weight == w then [a[0]] else [];
      assert (a + b)[0] == a[0];
      assert (a + b)[1..] == a[1..] + b;
      WithWeightAppend(a[1..], b, w);
      calc {
        WithWeight(a + b, w);
        h + WithWeight(a[1..] + b, w);
        h + (WithWeight(a[1..], w) + WithWeight(b, w));
        (h + WithWeight(a[1..], w)) + WithWeight(b, w);
      }
    }
  }

  /** Insertion of `f` into a descending table, ahead of the facts that
      weigh the same: `f` came first in the input. */
  function InsertDesc(f: Fact, s: Table): (r: Table)
    ensures |r| == |s| + 1
    ensures multiset(r) == multiset(s) + multiset{f}
  {
    if s == [] || f.weight >= s[0].weight then [f] + s
    else
      assert s == [s[0]] + s[1..];
      [s[0]] + InsertDesc(f, s[1..])
  }

  lemma {:induction false} InsertDescMembers(f: Fact, s: Table)
    ensures forall x :: x in InsertDesc(f, s) <==> x == f || x in s
  {
    var r := InsertDesc(f, s);
    forall x
      ensures x in r <==> x == f || x in s
    {
      calc {
        x in r;
        x in multiset(r);
        x in multiset(s) + multiset{f};
        x == f || x in s;
      }
    }
  }

  lemma {:induction false} InsertDescSorted(f: Fact, s: Table)
    requires SortedDesc(s)
    ensures SortedDesc(InsertDesc(f, s))
  {
    if s == [] || f.weight >= s[0].weight {
    } else {
      var rest := InsertDesc(f, s[1..]);
      InsertDescSorted(f, s[1..]);
      InsertDescMembers(f, s[1..]);
      var r := [s[0]] + rest;
      forall i, j | 0 <= i < j < |r|
        ensures r[i].weight >= r[j].weight
      {
        if i == 0 {
          assert r[j] == rest[j - 1] && r[j] in rest;
          if r[j] != f {
            var m :| 0 <= m < |s[1..]| && s[1..][m] == r[j];
            assert s[m + 1] == r[j];
          }
        } else {
          assert r[i] == rest[i - 1] && r[j] == rest[j - 1];
        }
      }
    }
  }

  lemma {:induction false} InsertDescStable(f: Fact, s: Table, w: real)
    requires SortedDesc(s)
    ensures WithWeight(InsertDesc(f, s), w) == (if f.weight == w then [f] else []) + WithWeight(s, w)
  {
    if s == [] || f.weight >= s[0].weight {
      assert ([f] + s)[1..] == s;
    } else {
      InsertDescStable(f, s[1..], w);
      var rest := InsertDesc(f, s[1..]);
      assert ([s[0]] + rest)[1..] == rest;
      assert f.weight == w ==> s[0].weight != w;
    }
  }

  /** No fact of `s` carries key `k`. */
  predicate KeyFree(k: FactKey, s: Table) {
    forall i :: 0 <= i < |s| ==> s[i].key != k
  }

  lemma {:induction false} InsertDescDistinct(f: Fact, s: Table)
    requires DistinctKeys(s) && KeyFree(f.key, s)
    ensures DistinctKeys(InsertDesc(f, s))
  {
    if s == [] || f.weight >= s[0].weight {
      var r := [f] + s;
      assert forall i :: 1 <= i < |r| ==> r[i] == s[i - 1];
    } else {
      var rest := InsertDesc(f, s[1..]);
      InsertDescDistinct(f, s[1..]);
      InsertDescMembers(f, s[1..]);
      var r := [s[0]] + rest;
      forall j | 1 <= j < |r|
        ensures r[j].key != s[0].key
      {
        assert r[j] == rest[j - 1] && r[j] in rest;
        if r[j] != f {
          var m :| 0 <= m < |s[1..]| && s[1..][m] == r[j];
          assert s[m + 1] == r[j];
        }
      }
      assert forall i, j :: 1 <= i < j < |r| ==> r[i] == rest[i - 1] && r[j] == rest[j - 1];
    }
  }

  /** The stable descending sort of the whole table. */
  function SortDesc(t: Table): (r: Table)
    ensures |r| == |t|
    ensures multiset(r) == multiset(t)
  {
    if t == [] then []
    else
      assert t == [t[0]] + t[1..];
      InsertDesc(t[0], SortDesc(t[1..]))
  }

  /** The sort orders by weight, keeps facts of equal weight in their
      insertion order, and keeps keys distinct. */
  lemma SortDescCorrect(t: Table)
    ensures SortedDesc(SortDesc(t))
    ensures forall w :: WithWeight(SortDesc(t), w) == WithWeight(t, w)
    ensures DistinctKeys(t) ==> DistinctKeys(SortDesc(t))
  {
    SortDescSorted(t);
    forall w
      ensures WithWeight(SortDesc(t), w) == WithWeight(t, w)
    {
      SortDescStable(t, w);
    }
    if DistinctKeys(t) {
      SortDescDistinct(t);
    }
  }

  lemma {:induction false} SortDescSorted(t: Table)
    ensures SortedDesc(SortDesc(t))
  {
    if t != [] {
      SortDescSorted(t[1..]);
      InsertDescSorted(t[0], SortDesc(t[1..]));
    }
  }

  lemma {:induction false} SortDescStable(t: Table, w: real)
    ensures WithWeight(SortDesc(t), w) == WithWeight(t, w)
  {
    if t != [] {
      SortDescSorted(t[1..]);
      SortDescStable(t[1..], w);
      InsertDescStable(t[0], SortDesc(t[1..]), w);
    }
  }

  lemma {:induction false} SortDescDistinct(t: Table)
    requires DistinctKeys(t)
    ensures DistinctKeys(SortDesc(t))
  {
    if t != [] {
      var rest := SortDesc(t[1..]);
      assert DistinctKeys(t[1..]) by {
        forall i, j | 0 <= i < j < |t[1..]|
          ensures t[1..][i].key != t[1..][j].key
        {
          assert t[1..][i] == t[i + 1] && t[1..][j] == t[j + 1];
        }
      }
      SortDescDistinct(t[1..]);
      forall i | 0 <= i < |rest|
        ensures rest[i].key != t[0].key
      {
        assert rest[i] in multiset(t[1..]);
        var m :| 0 <= m < |t[1..]| && t[1..][m] == rest[i];
        assert t[m + 1] == rest[i];
      }
      InsertDescDistinct(t[0], rest);
    }
  }

  /** How many facts `[:max_facts]` keeps from a table of `n`: a negative
      bound drops that many from the end, as a Python slice does. */
  function SliceLength(n: nat, maxFacts: int): (m: nat)
    ensures m <= n
    ensures maxFacts >= 0 ==> m == if maxFacts < n then maxFacts else n
    ensures maxFacts < 0 ==> m == if n + maxFacts > 0 then n + maxFacts else 0
  {
    if maxFacts >= 0 then (if maxFacts < n then maxFacts else n)
    else if n + maxFacts > 0 then n + maxFacts else 0
  }

  /** `ranked`: the heaviest facts, at most `max_facts` of them, in
      descending weight order, drawn from the table. */
  function Rank(t: Table, maxFacts: int): (r: Table)
    ensures |r| == SliceLength(|t|, maxFacts)
    ensures SortedDesc(r)
    ensures multiset(r) <= multiset(t)
    ensures r == SortDesc(t)[..|r|]
  {
    var s := SortDesc(t);
    var n := SliceLength(|t|, maxFacts);
    SortDescSorted(t);
    assert s == s[..n] + s[n..];
    assert multiset(s) == multiset(s[..n]) + multiset(s[n..]);
    s[..n]
  }

  /** `ranked` is in descending weight order, and holds distinct keys when
      the table does. */
  lemma RankSorted(t: Table, maxFacts: int)
    ensures SortedDesc(Rank(t, maxFacts))
    ensures DistinctKeys(t) ==> DistinctKeys(Rank(t, maxFacts))
  {
    SortDescCorrect(t);
    var s := SortDesc(t);
    var r := Rank(t, maxFacts);
    assert forall i :: 0 <= i < |r| ==> r[i] == s[i];
  }

  /** What `[:max_facts]` cuts off the sorted table. */
  function Dropped(t: Table, maxFacts: int): Table {
    SortDesc(t)[SliceLength(|t|, maxFacts)..]
  }

  lemma RankSplit(t: Table, maxFacts: int)
    ensures SortDesc(t) == Rank(t, maxFacts) + Dropped(t, maxFacts)
    ensures multiset(t) == multiset(Rank(t, maxFacts)) + multiset(Dropped(t, maxFacts))
  {
    var s := SortDesc(t);
    assert s == s[..SliceLength(|t|, maxFacts)] + s[SliceLength(|t|, maxFacts)..];
  }

  /** Every fact cut off weighs no more than any fact kept. */
  lemma DroppedLighter(t: Table, maxFacts: int)
    ensures forall x, y :: x in Dropped(t, maxFacts) && y in Rank(t, maxFacts) ==> x.weight <= y.weight
  {
    var s := SortDesc(t);
    var r := Rank(t, maxFacts);
    var dropped := Dropped(t, maxFacts);
    SortDescCorrect(t);
    forall x, y | x in dropped && y in r
      ensures x.weight <= y.weight
    {
      var i :| 0 <= i < |dropped| && dropped[i] == x;
      var j :| 0 <= j < |r| && r[j] == y;
      assert s[j] == y && s[|r| + i] == x;
    }
  }

  /** `ranked` is drawn from the table, and every fact left out weighs no
      more than any fact kept. */
  lemma RankHeaviest(t: Table, maxFacts: int)
    ensures multiset(Rank(t, maxFacts)) <= multiset(t)
    ensures forall x, y :: x in multiset(t) - multiset(Rank(t, maxFacts)) && y in Rank(t, maxFacts) ==> x.weight <= y.weight
  {
    RankSplit(t, maxFacts);
    DroppedLighter(t, maxFacts);
    var r := Rank(t, maxFacts);
    var d := Dropped(t, maxFacts);
    assert multiset(t) - multiset(r) == multiset(d);
    forall x, y | x in multiset(t) - multiset(r) && y in r
      ensures x.weight <= y.weight
    {
      assert x in multiset(d);
    }
  }

  /** Among facts of one weight, `ranked` keeps the earliest inserted ones,
      in insertion order. */
  lemma RankStable(t: Table, maxFacts: int, w: real)
    ensures WithWeight(Rank(t, maxFacts), w) <= WithWeight(t, w)
  {
    var s := SortDesc(t);
    var r := Rank(t, maxFacts);
    SortDescCorrect(t);
    assert s == r + s[|r|..];
    WithWeightAppend(r, s[|r|..], w);
  }
}
