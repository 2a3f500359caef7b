/** The fact accumulator of `get_conceptnet_facts_for_image`: the `best`
    dictionary that `add_edge_fact` fills, keeping the largest weight seen
    per `(start, rel, end)` key. */
module Facts {
  import opened Results
  import opened Edges

  /** One entry of `best`. */
  datatype Fact = Fact(key: FactKey, weight: real)

  /** `best`, as its entries in insertion order (the order a Python dict
      keeps and `sorted` starts from). */
  type Table = seq<Fact>

  /** The default of `best.get(key, -1.0)`. */
  const Floor: real := -1.0

  function Max(a: real, b: real): real {
    if a >= b then a else b
  }

  predicate DistinctKeys(t: Table) {
    forall i, j :: 0 <= i < j < |t| ==> t[i].key != t[j].key
  }

  /** Every stored weight beats the default, as `add_edge_fact` only ever
      stores a weight above what `best.get` returned. */
  predicate AboveFloor(t: Table) {
    forall i :: 0 <= i < |t| ==> t[i].weight > Floor
  }

  /** The key sequence of the table, in insertion order. */
  function Keys(t: Table): (r: seq<FactKey>)
    ensures |r| == |t|
    ensures forall i :: 0 <= i < |t| ==> r[i] == t[i].key
  {
    seq(|t|, i requires 0 <= i < |t| => t[i].key)
  }

  /** `best.get(key, -1.0)`. */
  function Get(t: Table, k: FactKey): (w: real)
    ensures k !in Keys(t) ==> w == Floor
    ensures AboveFloor(t) ==> w >= Floor
    ensures DistinctKeys(t) ==> forall i :: 0 <= i < |t| && t[i].key == k ==> w == t[i].weight
  {
    if t == [] then Floor
    else if t[0].key == k then t[0].weight
    else Get(t[1..], k)
  }

  /** `if w > best.get(key, -1.0): best[key] = w`: the stored weight for
      `k` becomes the larger of the old one and `w`; no other key's weight
      moves. */
  function Put(t: Table, k: FactKey, w: real): (r: Table)
    ensures Get(r, k) == Max(Get(t, k), w)
    ensures forall k' :: k' != k ==> Get(r, k') == Get(t, k')
  {
    if t == [] then (if w > Floor then [Fact(k, w)] else [])
    else if t[0].key == k then (if w > t[0].weight then [Fact(k, w)] + t[1..] else t)
    else
      assert ([t[0]] + Put(t[1..], k, w))[1..] == Put(t[1..], k, w);
      [t[0]] + Put(t[1..], k, w)
  }

  /** A new key goes to the end, as in a Python dict; an existing key keeps
      its place. */
  lemma {:induction false} PutKeys(t: Table, k: FactKey, w: real)
    ensures Keys(Put(t, k, w)) == if k in Keys(t) || w <= Floor then Keys(t) else Keys(t) + [k]
  {
    if t == [] {
    } else if t[0].key != k {
      var p := Put(t[1..], k, w);
      PutKeys(t[1..], k, w);
      KeysCons(t[0], t[1..]);
      KeysCons(t[0], p);
      assert t == [t[0]] + t[1..];
      assert k in Keys(t) <==> k in Keys(t[1..]);
    } else {
      assert Keys(t)[0] == k;
      if w > t[0].weight {
        KeysCons(t[0], t[1..]);
        KeysCons(Fact(k, w), t[1..]);
        assert t == [t[0]] + t[1..];
      }
    }
  }

  lemma KeysCons(f: Fact, t: Table)
    ensures Keys([f] + t) == [f.key] + Keys(t)
  {
  }

  /** The table's two invariants survive every update. */
  lemma PutInvariants(t: Table, k: FactKey, w: real)
    requires DistinctKeys(t) && AboveFloor(t)
    ensures DistinctKeys(Put(t, k, w)) && AboveFloor(Put(t, k, w))
  {
    PutDistinct(t, k, w);
    PutWeights(t, k, w);
  }

  /** Keys stay distinct: an existing key is overwritten in place, a new one
      is appended. */
  lemma PutDistinct(t: Table, k: FactKey, w: real)
    requires DistinctKeys(t)
    ensures DistinctKeys(Put(t, k, w))
  {
    var r := Put(t, k, w);
    PutKeys(t, k, w);
    DistinctKeySeq(t);
    if !(k in Keys(t) || w <= Floor) {
      AppendFresh(Keys(t), k);
    }
    DistinctKeySeq(r);
  }

  predicate Unique(ks: seq<FactKey>) {
    forall i, j :: 0 <= i < j < |ks| ==> ks[i] != ks[j]
  }

  lemma DistinctKeySeq(t: Table)
    ensures DistinctKeys(t) <==> Unique(Keys(t))
  {
  }

  lemma AppendFresh(ks: seq<FactKey>, k: FactKey)
    requires Unique(ks) && k !in ks
    ensures Unique(ks + [k])
  {
    var r := ks + [k];
    forall i, j | 0 <= i < j < |r|
      ensures r[i] != r[j]
    {
      assert r[i] == ks[i];
      if j < |ks| {
        assert r[j] == ks[j];
      }
    }
  }

  /** Every weight in the updated table is an old weight or `w`, so one
      that beat the floor everywhere still does. */
  lemma {:induction false} PutWeights(t: Table, k: FactKey, w: real)
    ensures AboveFloor(t) ==> AboveFloor(Put(t, k, w))
  {
    if t != [] && t[0].key != k {
      PutWeights(t[1..], k, w);
    }
  }

  /** Edge `e` counts towards key `k`: `keep_edge` accepts it and
      `add_edge_fact` files it under `k`. */
  predicate Counts(e: Edge, k: FactKey, rels: set<string>, minWeight: real) {
    KeepEdge(e, rels, minWeight) && KeyOf(e) == Some(k)
  }

  /** What one edge offers key `k`: its weight if it counts, else the floor. */
  function Offer(e: Edge, k: FactKey, rels: set<string>, minWeight: real): real {
    if Counts(e, k, rels, minWeight) then e.weight else Floor
  }

  /** `if keep_edge(e): add_edge_fact(e)`. */
  function AddEdge(t: Table, e: Edge, rels: set<string>, minWeight: real): (r: Table)
    ensures AboveFloor(t) ==> AboveFloor(r)
    ensures AboveFloor(t) ==> forall k :: Get(r, k) == Max(Get(t, k), Offer(e, k, rels, minWeight))
  {
    if KeepEdge(e, rels, minWeight) && KeyOf(e).Some? then
      PutWeights(t, KeyOf(e).value, e.weight);
      Put(t, KeyOf(e).value, e.weight)
    else t
  }

  /** The edge loop of one response: every edge offered in order. */
  function AddEdges(t: Table, es: seq<Edge>, rels: set<string>, minWeight: real): Table
    decreases |es|
  {
    if es == [] then t else AddEdges(AddEdge(t, es[0], rels, minWeight), es[1..], rels, minWeight)
  }

  /** Folding two edge lists one after the other is folding their
      concatenation. */
  lemma {:induction false} AddEdgesAppend(t: Table, a: seq<Edge>, b: seq<Edge>, rels: set<string>, minWeight: real)
    ensures AddEdges(t, a + b, rels, minWeight) == AddEdges(AddEdges(t, a, rels, minWeight), b, rels, minWeight)
    decreases |a|
  {
    if a == [] {
      assert a + b == b;
    } else {
      assert (a + b)[0] == a[0];
      assert (a + b)[1..] == a[1..] + b;
      AddEdgesAppend(AddEdge(t, a[0], rels, minWeight), a[1..], b, rels, minWeight);
    }
  }

  /** The largest weight among the edges that count towards `k`, or the
      floor when none beats it. */
  function Peak(es: seq<Edge>, k: FactKey, rels: set<string>, minWeight: real): (p: real)
    ensures p >= Floor
    ensures forall i :: 0 <= i < |es| && Counts(es[i], k, rels, minWeight) ==> es[i].weight <= p
    ensures p > Floor ==> exists i :: 0 <= i < |es| && Counts(es[i], k, rels, minWeight) && es[i].weight == p
  {
    if es == [] then Floor
    else
      var rest := Peak(es[1..], k, rels, minWeight);
      var head := Offer(es[0], k, rels, minWeight);
      assert forall i :: 1 <= i < |es| ==> es[i] == es[1..][i - 1];
      assert Max(head, rest) > Floor ==>
        exists i :: 0 <= i < |es| && Counts(es[i], k, rels, minWeight) && es[i].weight == Max(head, rest) by {
        if Max(head, rest) > Floor {
          if head >= rest {
            assert Counts(es[0], k, rels, minWeight) && es[0].weight == Max(head, rest);
          } else {
            var j :| 0 <= j < |es[1..]| && Counts(es[1..][j], k, rels, minWeight) && es[1..][j].weight == rest;
            assert es[j + 1] == es[1..][j];
          }
        }
      }
      Max(head, rest)
  }

  /** Folding edges into a table raises each key's weight to the peak of
      the edges that count towards it, and to nothing more. */
  lemma {:induction false} AddEdgesPeak(t: Table, es: seq<Edge>, rels: set<string>, minWeight: real, k: FactKey)
    requires AboveFloor(t)
    ensures Get(AddEdges(t, es, rels, minWeight), k) == Max(Get(t, k), Peak(es, k, rels, minWeight))
    decreases |es|
  {
    if es != [] {
      AddEdgesPeak(AddEdge(t, es[0], rels, minWeight), es[1..], rels, minWeight, k);
    }
  }

  lemma {:induction false} AddEdgesInvariants(t: Table, es: seq<Edge>, rels: set<string>, minWeight: real)
    requires DistinctKeys(t) && AboveFloor(t)
    ensures DistinctKeys(AddEdges(t, es, rels, minWeight)) && AboveFloor(AddEdges(t, es, rels, minWeight))
    decreases |es|
  {
    if es != [] {
      var e := es[0];
      if KeepEdge(e, rels, minWeight) && KeyOf(e).Some? {
        PutInvariants(t, KeyOf(e).value, e.weight);
      }
      var t' := AddEdge(t, e, rels, minWeight);
      assert DistinctKeys(t') && AboveFloor(t');
      AddEdgesInvariants(t', es[1..], rels, minWeight);
      assert AddEdges(t, es, rels, minWeight) == AddEdges(t', es[1..], rels, minWeight);
    }
  }

  /** Every stored fact has an allowed relation. */
  predicate RelsWithin(t: Table, rels: set<string>) {
    forall i :: 0 <= i < |t| ==> t[i].key.rel in rels
  }

  /** Only edges that `keep_edge` accepts reach the table, so every stored
      relation is an allowed one. */
  lemma {:induction false} AddEdgesRels(t: Table, es: seq<Edge>, rels: set<string>, minWeight: real)
    requires RelsWithin(t, rels)
    ensures RelsWithin(AddEdges(t, es, rels, minWeight), rels)
    decreases |es|
  {
    if es != [] {
      var e := es[0];
      var t' := AddEdge(t, e, rels, minWeight);
      if KeepEdge(e, rels, minWeight) && KeyOf(e).Some? {
        var k := KeyOf(e).value;
        PutKeys(t, k, e.weight);
        forall i | 0 <= i < |t'|
          ensures t'[i].key.rel in rels
        {
          assert t'[i].key == Keys(t')[i];
          if i < |t| {
            assert Keys(t')[i] == Keys(t)[i];
          }
        }
      }
      AddEdgesRels(t', es[1..], rels, minWeight);
    }
  }

  /** In a well-formed table a key is present exactly when its weight beats
      the floor. */
  lemma PresentAboveFloor(t: Table, k: FactKey)
    requires DistinctKeys(t) && AboveFloor(t)
    ensures k in Keys(t) <==> Get(t, k) > Floor
  {
    if k in Keys(t) {
      var i :| 0 <= i < |t| && Keys(t)[i] == k;
      assert t[i].key == k;
    }
  }

  /** The accumulator from an empty `best`: keys are distinct, a key is
      present exactly when some counting edge's weight beats -1.0, and its
      weight is then the largest such weight. */
  lemma Accumulated(es: seq<Edge>, rels: set<string>, minWeight: real)
    ensures var t := AddEdges([], es, rels, minWeight);
      DistinctKeys(t) && AboveFloor(t) &&
      forall k :: Get(t, k) == Peak(es, k, rels, minWeight) && (k in Keys(t) <==> Peak(es, k, rels, minWeight) > Floor)
  {
    var t := AddEdges([], es, rels, minWeight);
    AddEdgesInvariants([], es, rels, minWeight);
    forall k
      ensures Get(t, k) == Peak(es, k, rels, minWeight) && (k in Keys(t) <==> Peak(es, k, rels, minWeight) > Floor)
    {
      AddEdgesPeak([], es, rels, minWeight, k);
      PresentAboveFloor(t, k);
    }
  }
}
