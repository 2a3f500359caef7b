/** `get_conceptnet_facts_for_image` end to end, with the knowledge-graph
    service as a parameter: de-duplicate the objects, fetch the edges of
    every object and of every pair, keep the heaviest weight per fact, rank,
    and render one sentence per ranked fact. */
module Pipeline {
  import opened Results
  import opened Normalize
  import opened Edges
  import opened Facts
  import opened Ranking
  import opened Objects
  import opened Pairs
  import opened Sentences

  /** The keyword arguments. */
  datatype Config = Config(
    relations: Option<set<string>>,
    perObjectLimit: int,
    pairLimit: int,
    minWeight: real,
    maxFacts: int)

  const DefaultConfig: Config := Config(None, 25, 25, 1.0, 40)

  /** One call to the service: the edges of one concept, or the edges
      joining two concepts. */
  datatype Request =
    | Lookup(uri: string, limit: int)
    | Query(node: string, other: string, limit: int)

  /** Why the function raises instead of returning: a request or its JSON
      decoding failed, or a fact rendered to an empty sentence. */
  datatype Error = ServiceFailed(request: Request) | EmptySentence(key: FactKey)

  /** The service: the edge list of the answer (`data.get("edges") or []`),
      or `None` when the request or its decoding fails. */
  type Service = Request -> Option<seq<Edge>>

  /** Phase 1: one lookup per object, in order. */
  function Lookups(objs: seq<string>, limit: int): (r: seq<Request>)
    ensures |r| == |objs|
    ensures forall i :: 0 <= i < |objs| ==> r[i] == Lookup(ToEnUri(objs[i]), limit)
  {
    seq(|objs|, i requires 0 <= i < |objs| => Lookup(ToEnUri(objs[i]), limit))
  }

  /** Phase 2: one query per pair of objects, in `combinations` order. */
  function PairQueries(objs: seq<string>, limit: int): (r: seq<Request>)
    ensures |r| == |Combinations(objs)|
    ensures forall k :: 0 <= k < |r| ==>
      r[k] == Query(ToEnUri(Combinations(objs)[k].0), ToEnUri(Combinations(objs)[k].1), limit)
  {
    var ps := Combinations(objs);
    seq(|ps|, k requires 0 <= k < |ps| => Query(ToEnUri(ps[k].0), ToEnUri(ps[k].1), limit))
  }

  /** Every request the function makes, in the order it makes them. */
  function Requests(objs: seq<string>, cfg: Config): seq<Request> {
    Lookups(objs, cfg.perObjectLimit) + PairQueries(objs, cfg.pairLimit)
  }

  /** The requests are the `n` lookups followed by the n(n-1)/2 pair
      queries, each pair `i < j` of objects queried once, in lexicographic
      order of positions. */
  lemma RequestsShape(objs: seq<string>, cfg: Config)
    ensures var n := |objs|;
      2 * |Requests(objs, cfg)| == 2 * n + n * (n - 1) &&
      (forall i :: 0 <= i < n ==> Requests(objs, cfg)[i] == Lookup(ToEnUri(objs[i]), cfg.perObjectLimit)) &&
      (forall k :: 0 <= k < |Requests(objs, cfg)| - n ==>
        var p := IndexPairs(n)[k];
        p.0 < p.1 < n &&
        Requests(objs, cfg)[n + k] == Query(ToEnUri(objs[p.0]), ToEnUri(objs[p.1]), cfg.pairLimit))
  {
    var n := |objs|;
    IndexPairsExact(n);
    var rs := Requests(objs, cfg);
    forall k | 0 <= k < |rs| - n
      ensures IndexPairs(n)[k].0 < IndexPairs(n)[k].1 < n
    {
      assert IndexPairs(n)[k] in IndexPairs(n);
    }
  }

  /** Fetch every request in turn and fold the kept edges of each answer
      into `best`; the first failed request aborts the whole call. */
  function Gather(t: Table, reqs: seq<Request>, fetch: Service, rels: set<string>, minWeight: real): Result<Table, Error>
    decreases |reqs|
  {
    if reqs == [] then Success(t)
    else
      match fetch(reqs[0])
      case None => Failure(ServiceFailed(reqs[0]))
      case Some(es) => Gather(AddEdges(t, es, rels, minWeight), reqs[1..], fetch, rels, minWeight)
  }

  /** All edges of all answers, in order, when every request is answered:
      the first answer's edges come first, and an edge is in the result
      exactly when some answer holds it. */
  function AllEdges(reqs: seq<Request>, fetch: Service): (es: seq<Edge>)
    requires forall i :: 0 <= i < |reqs| ==> fetch(reqs[i]).Some?
    ensures reqs != [] ==> es == fetch(reqs[0]).value + AllEdges(reqs[1..], fetch)
    ensures forall e :: e in es <==> exists i :: 0 <= i < |reqs| && e in fetch(reqs[i]).value
    decreases |reqs|
  {
    if reqs == [] then []
    else
      var rest := AllEdges(reqs[1..], fetch);
      assert forall i :: 0 <= i < |reqs[1..]| ==> reqs[1..][i] == reqs[i + 1];
      assert forall e :: e in fetch(reqs[0]).value + rest <==> e in fetch(reqs[0]).value || e in rest;
      fetch(reqs[0]).value + rest
  }

  /** When every request is answered, gathering is folding all the edges
      at once. */
  lemma {:induction false} GatherAnswered(t: Table, reqs: seq<Request>, fetch: Service, rels: set<string>, minWeight: real)
    requires forall i :: 0 <= i < |reqs| ==> fetch(reqs[i]).Some?
    ensures Gather(t, reqs, fetch, rels, minWeight) == Success(AddEdges(t, AllEdges(reqs, fetch), rels, minWeight))
    decreases |reqs|
  {
    if reqs != [] {
      var es := fetch(reqs[0]).value;
      assert forall i :: 0 <= i < |reqs[1..]| ==> reqs[1..][i] == reqs[i + 1];
      GatherAnswered(AddEdges(t, es, rels, minWeight), reqs[1..], fetch, rels, minWeight);
      AddEdgesAppend(t, es, AllEdges(reqs[1..], fetch), rels, minWeight);
    }
  }

  /** Gathering fails exactly when some request fails, and it reports the
      first one. */
  lemma {:induction false} GatherFails(t: Table, reqs: seq<Request>, fetch: Service, rels: set<string>, minWeight: real)
    ensures Gather(t, reqs, fetch, rels, minWeight).Failure? <==> exists k :: 0 <= k < |reqs| && fetch(reqs[k]).None?
    ensures Gather(t, reqs, fetch, rels, minWeight).Failure? ==>
      exists k :: (0 <= k < |reqs| && fetch(reqs[k]).None? &&
        (forall j :: 0 <= j < k ==> fetch(reqs[j]).Some?) &&
        Gather(t, reqs, fetch, rels, minWeight).error == ServiceFailed(reqs[k]))
    decreases |reqs|
  {
    if reqs != [] {
      assert forall i :: 0 <= i < |reqs[1..]| ==> reqs[1..][i] == reqs[i + 1];
      if fetch(reqs[0]).None? {
        assert fetch(reqs[0]).None? && Gather(t, reqs, fetch, rels, minWeight).error == ServiceFailed(reqs[0]);
      } else {
        var t' := AddEdges(t, fetch(reqs[0]).value, rels, minWeight);
        GatherFails(t', reqs[1..], fetch, rels, minWeight);
        if exists k :: 0 <= k < |reqs| && fetch(reqs[k]).None? {
          var k :| 0 <= k < |reqs| && fetch(reqs[k]).None?;
          assert fetch(reqs[1..][k - 1]).None?;
        }
        if Gather(t, reqs, fetch, rels, minWeight).Failure? {
          var k :| 0 <= k < |reqs[1..]| && fetch(reqs[1..][k]).None? &&
            (forall j :: 0 <= j < k ==> fetch(reqs[1..][j]).Some?) &&
            Gather(t', reqs[1..], fetch, rels, minWeight).error == ServiceFailed(reqs[1..][k]);
          assert forall j :: 0 <= j < k + 1 ==> fetch(reqs[j]).Some? by {
            forall j | 0 <= j < k + 1
              ensures fetch(reqs[j]).Some?
            {
              if j > 0 {
                assert reqs[j] == reqs[1..][j - 1];
              }
            }
          }
          assert fetch(reqs[k + 1]).None?;
        }
      }
    }
  }

  /** The sentence of one ranked fact. */
  function SentenceOf(f: Fact): Option<string> {
    EdgeToSentence(f.key.start, f.key.rel, f.key.end)
  }

  /** `[sentence(s, r, o) for (s, r, o), _w in ranked]`: the first fact
      that does not render raises. */
  function RenderEach(ranked: Table, sentence: Fact -> Option<string>): (r: Result<seq<string>, Error>)
    ensures r.Success? <==> forall i :: 0 <= i < |ranked| ==> sentence(ranked[i]).Some?
    ensures r.Success? ==> (|r.value| == |ranked| &&
      forall i :: 0 <= i < |ranked| ==> sentence(ranked[i]) == Some(r.value[i]))
  {
    if ranked == [] then Success([])
    else
      assert forall i :: 1 <= i < |ranked| ==> ranked[i] == ranked[1..][i - 1];
      match sentence(ranked[0])
      case None => Failure(EmptySentence(ranked[0].key))
      case Some(s) =>
        match RenderEach(ranked[1..], sentence)
        case Failure(e) => Failure(e)
        case Success(ss) =>
          assert forall i :: 1 <= i < |ranked| ==> ([s] + ss)[i] == ss[i - 1];
          Success([s] + ss)
  }

  /** A failed rendering reports the first fact that does not render. */
  lemma {:induction false} RenderEachFails(ranked: Table, sentence: Fact -> Option<string>)
    ensures RenderEach(ranked, sentence).Failure? ==>
      exists k :: (0 <= k < |ranked| && sentence(ranked[k]).None? &&
        (forall j :: 0 <= j < k ==> sentence(ranked[j]).Some?) &&
        RenderEach(ranked, sentence).error == EmptySentence(ranked[k].key))
  {
    if ranked != [] && sentence(ranked[0]).Some? && RenderEach(ranked, sentence).Failure? {
      var rest := ranked[1..];
      RenderEachFails(rest, sentence);
      var k :| 0 <= k < |rest| && sentence(rest[k]).None? &&
        (forall j :: 0 <= j < k ==> sentence(rest[j]).Some?) &&
        RenderEach(rest, sentence).error == EmptySentence(rest[k].key);
      assert ranked[k + 1] == rest[k];
      assert forall j :: 1 <= j < k + 1 ==> ranked[j] == rest[j - 1];
    }
  }

  /** The rendering step of the source, with `_edge_to_sentence`. */
  function Render(ranked: Table): Result<seq<string>, Error> {
    RenderEach(ranked, SentenceOf)
  }

  /** `get_conceptnet_facts_for_image(objects, **cfg)`. */
  function FactsForImage(objects: seq<string>, cfg: Config, fetch: Service): Result<seq<string>, Error> {
    var objs := Dedup(objects);
    var rels := EffectiveRelations(cfg.relations);
    match Gather([], Requests(objs, cfg), fetch, rels, cfg.minWeight)
    case Failure(e) => Failure(e)
    case Success(best) => Render(Rank(best, cfg.maxFacts))
  }

  /** `best` once every request is answered. */
  function Best(objects: seq<string>, cfg: Config, fetch: Service): Table
    requires forall r :: r in Requests(Dedup(objects), cfg) ==> fetch(r).Some?
  {
    var reqs := Requests(Dedup(objects), cfg);
    AddEdges([], AllEdges(reqs, fetch), EffectiveRelations(cfg.relations), cfg.minWeight)
  }

  /** When every request is answered the call renders the ranking of
      `best`, and `best` holds, per key, the largest weight of the kept
      edges filed under it, exactly for the keys whose largest weight beats
      -1.0. */
  lemma FactsForImageAnswered(objects: seq<string>, cfg: Config, fetch: Service)
    requires forall r :: r in Requests(Dedup(objects), cfg) ==> fetch(r).Some?
    ensures FactsForImage(objects, cfg, fetch) == Render(Rank(Best(objects, cfg, fetch), cfg.maxFacts))
    ensures var best := Best(objects, cfg, fetch);
      var es := AllEdges(Requests(Dedup(objects), cfg), fetch);
      var rels := EffectiveRelations(cfg.relations);
      DistinctKeys(best) &&
      forall k :: Get(best, k) == Peak(es, k, rels, cfg.minWeight) && (k in Keys(best) <==> Peak(es, k, rels, cfg.minWeight) > Floor)
  {
    var reqs := Requests(Dedup(objects), cfg);
    assert forall i :: 0 <= i < |reqs| ==> fetch(reqs[i]).Some? by {
      forall i | 0 <= i < |reqs|
        ensures fetch(reqs[i]).Some?
      {
        assert reqs[i] in reqs;
      }
    }
    GatherAnswered([], reqs, fetch, EffectiveRelations(cfg.relations), cfg.minWeight);
    Accumulated(AllEdges(reqs, fetch), EffectiveRelations(cfg.relations), cfg.minWeight);
  }

  /** The call raises for a service failure exactly when one of its
      requests fails, and then for the first failing one. */
  lemma FactsForImageUnanswered(objects: seq<string>, cfg: Config, fetch: Service)
    ensures (exists r :: r in Requests(Dedup(objects), cfg) && fetch(r).None?) ==>
      var reqs := Requests(Dedup(objects), cfg);
      exists k :: 0 <= k < |reqs| && fetch(reqs[k]).None? && (forall j :: 0 <= j < k ==> fetch(reqs[j]).Some?) &&
        FactsForImage(objects, cfg, fetch) == Failure(ServiceFailed(reqs[k]))
  {
    var reqs := Requests(Dedup(objects), cfg);
    var rels := EffectiveRelations(cfg.relations);
    if exists r :: r in reqs && fetch(r).None? {
      var r :| r in reqs && fetch(r).None?;
      var i :| 0 <= i < |reqs| && reqs[i] == r;
      var g := Gather([], reqs, fetch, rels, cfg.minWeight);
      GatherFails([], reqs, fetch, rels, cfg.minWeight);
      assert g.Failure?;
      assert FactsForImage(objects, cfg, fetch) == Failure(g.error);
    }
  }

  /** Ranking keeps only facts of the table, so their relations stay
      allowed ones. */
  lemma RankRels(t: Table, maxFacts: int, rels: set<string>)
    requires RelsWithin(t, rels)
    ensures RelsWithin(Rank(t, maxFacts), rels)
  {
    var ranked := Rank(t, maxFacts);
    RankHeaviest(t, maxFacts);
    forall i | 0 <= i < |ranked|
      ensures ranked[i].key.rel in rels
    {
      assert ranked[i] in multiset(t);
      var j :| 0 <= j < |t| && t[j] == ranked[i];
    }
  }

  /** Facts whose relations all have templates always render. */
  lemma RenderTemplated(ranked: Table, rels: set<string>)
    requires RelsWithin(ranked, rels) && rels <= Forms.Keys
    ensures Render(ranked).Success?
  {
    forall i | 0 <= i < |ranked|
      ensures SentenceOf(ranked[i]).Some?
    {
      KnownRelationRenders(ranked[i].key.start, ranked[i].key.rel, ranked[i].key.end);
    }
  }

  /** With every allowed relation a templated one (as with the default
      relations), an answered call never fails: it returns one sentence
      per ranked fact, at most `max_facts` of them, in descending weight
      order. */
  lemma TemplatedRelationsRender(objects: seq<string>, cfg: Config, fetch: Service)
    requires forall r :: r in Requests(Dedup(objects), cfg) ==> fetch(r).Some?
    requires EffectiveRelations(cfg.relations) <= Forms.Keys
    ensures var ranked := Rank(Best(objects, cfg, fetch), cfg.maxFacts);
      var out := FactsForImage(objects, cfg, fetch);
      out.Success? && |out.value| == |ranked| &&
      (cfg.maxFacts >= 0 ==> |out.value| <= cfg.maxFacts) &&
      SortedDesc(ranked) && DistinctKeys(ranked) &&
      forall i :: 0 <= i < |ranked| ==> SentenceOf(ranked[i]) == Some(out.value[i])
  {
    var best := Best(objects, cfg, fetch);
    var rels := EffectiveRelations(cfg.relations);
    var ranked := Rank(best, cfg.maxFacts);
    FactsForImageAnswered(objects, cfg, fetch);
    AddEdgesRels([], AllEdges(Requests(Dedup(objects), cfg), fetch), rels, cfg.minWeight);
    RankSorted(best, cfg.maxFacts);
    RankRels(best, cfg.maxFacts, rels);
    RenderTemplated(ranked, rels);
  }

  /** A call that returns has one sentence per ranked fact, so never more
      than a non-negative `max_facts`. */
  lemma FactsForImageAtMost(objects: seq<string>, cfg: Config, fetch: Service)
    ensures var out := FactsForImage(objects, cfg, fetch);
      out.Success? && cfg.maxFacts >= 0 ==> |out.value| <= cfg.maxFacts
  {
    var objs := Dedup(objects);
    var g := Gather([], Requests(objs, cfg), fetch, EffectiveRelations(cfg.relations), cfg.minWeight);
    if g.Success? {
      var ranked := Rank(g.value, cfg.maxFacts);
      assert FactsForImage(objects, cfg, fetch) == Render(ranked);
      if Render(ranked).Success? {
        assert |Render(ranked).value| == SliceLength(|g.value|, cfg.maxFacts);
      }
    }
  }

  /** The default configuration only asks for templated relations. */
  lemma DefaultsAreTemplated()
    ensures EffectiveRelations(DefaultConfig.relations) <= Forms.Keys
  {
    FormsAreDefaults();
  }

  /** With no non-blank object there is nothing to ask and nothing to say. */
  lemma NoObjects(objects: seq<string>, cfg: Config, fetch: Service)
    requires forall i :: 0 <= i < |objects| ==> Text.Strip(objects[i]) == []
    ensures FactsForImage(objects, cfg, fetch) == Success([])
  {
    DedupFromInputs(objects);
    var objs := Dedup(objects);
    if objs != [] {
      var k :| 0 <= k < |objects| && objs[0] == Text.Strip(objects[k]);
      assert false;
    }
    assert IndexPairs(0) == [];
    assert Requests(objs, cfg) == [];
    assert Rank([], cfg.maxFacts) == [];
  }
}
