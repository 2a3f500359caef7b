/** Edge records as the knowledge-graph service returns them, and the two
    per-edge decisions of conceptnet.py: `_as_label` and `keep_edge`, plus
    the key extraction at the top of `add_edge_fact`. */
module Edges {
  import opened Results
  import opened Text

  /** The `start` or `end` object of an edge.  `name` (the JSON `label` field) and `id` (the `@id` field) are absent
      (`None`) when missing or not a string; `NotAnObject` is a value that is
      not a JSON object at all. */
  datatype Node = Node(name: Option<string>, id: Option<string>) | NotAnObject

  /** One edge.  `rel` is the `label` of the nested relation object, `None`
      when absent; `weight` is the already-coerced weight (0 when missing or
      malformed). */
  datatype Edge = Edge(start: Node, rel: Option<string>, end: Node, weight: real)

  /** The deduplication identity `(start, rel, end)` of a fact. */
  datatype FactKey = FactKey(start: string, rel: string, end: string)

  /** The nine relations the script asks for by default. */
  const DefaultRelations: set<string> :=
    {"IsA", "PartOf", "HasA", "UsedFor", "CapableOf", "ReceivesAction",
     "AtLocation", "LocatedNear", "HasProperty"}

  /** `relations or DEFAULT_RELATIONS`: an absent or empty set falls back to
      the defaults. */
  function EffectiveRelations(relations: Option<set<string>>): (r: set<string>)
    ensures r != {}
    ensures relations.Some? && relations.value != {} ==> r == relations.value
    ensures relations.None? || relations.value == {} ==> r == DefaultRelations
  {
    match relations
    case Some(rs) => if rs != {} then rs else DefaultRelations
    case None => DefaultRelations
  }

  /** The readable name a node derives from its `@id`: the last path
      segment with underscores shown as blanks. */
  function IdLabel(id: string): (r: string)
    ensures Stripped(r)
    ensures '/' !in r && '_' !in r
  {
    var seg := AfterLast(id, '/');
    var spaced := Replace(seg, '_', ' ');
    assert '/' !in spaced;
    assert '_' !in spaced;
    assert '/' !in Strip(spaced) && '_' !in Strip(spaced) by {
      if '/' in Strip(spaced) { StripKeeps(spaced, '/'); }
      if '_' in Strip(spaced) { StripKeeps(spaced, '_'); }
    }
    Strip(spaced)
  }

  /** `_as_label`: a non-empty `label` wins over `@id`; with neither, or for
      a non-object, the label is empty. */
  function AsLabel(n: Node): (r: string)
    ensures Stripped(r)
    ensures n.Node? && n.name.Some? && n.name.value != [] ==> r == Strip(n.name.value)
    ensures n.Node? && (n.name.None? || n.name.value == []) && n.id.Some? ==> r == IdLabel(n.id.value)
    ensures n.NotAnObject? || ((n.name.None? || n.name.value == []) && n.id.None?) ==> r == []
  {
    match n
    case NotAnObject => []
    case Node(name, id) =>
      if name.Some? && name.value != [] then Strip(name.value)
      else if id.Some? then IdLabel(id.value)
      else []
  }

  /** `keep_edge`: the relation is allowed and the weight reaches the
      threshold. */
  predicate KeepEdge(e: Edge, rels: set<string>, minWeight: real) {
    e.rel.Some? && e.rel.value in rels && e.weight >= minWeight
  }

  /** The key `add_edge_fact` files an edge under, or `None` when the start
      label, the relation or the end label is empty. */
  function KeyOf(e: Edge): (r: Option<FactKey>)
    ensures r.Some? <==> AsLabel(e.start) != [] && e.rel.Some? && e.rel.value != [] && AsLabel(e.end) != []
    ensures r.Some? ==> r.value == FactKey(AsLabel(e.start), e.rel.value, AsLabel(e.end))
  {
    var start := AsLabel(e.start);
    var rel := if e.rel.Some? then e.rel.value else "";
    var end := AsLabel(e.end);
    if start != [] && rel != [] && end != [] then Some(FactKey(start, rel, end)) else None
  }

  /** Whatever precedes the last `/`, the label is the final segment with
      underscores shown as blanks. */
  lemma IdLabelOfPath(prefix: string, seg: string)
    requires '/' !in seg
    ensures IdLabel(prefix + ['/'] + seg) == Strip(Replace(seg, '_', ' '))
  {
    AfterLastOf(prefix, '/', seg);
  }
}
