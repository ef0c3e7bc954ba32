/**
 The closure of a context pack over its evidence bundle: every list of identifiers
 is exactly the inverse of the pointers, and every chain from a document to the
 graph is in time order.
 */
module ContextPack {
  import opened Basics
  import opened Contracts

  /* ---- Records ---- */

  /** `face` stands for the descriptive fields that are only compared as a whole. */
  datatype Document = Document(
    id: string, approved: bool, firstSeen: Time, fetched: Time, available: Time,
    sourcePublished: Option<Time>, face: string)
  datatype Source = Source(id: string, available: Time, face: string, spanIds: seq<string>)
  datatype Span = Span(id: string, documentId: string, available: Time, reviewed: Time, approved: bool)
  datatype Target = Target(
    id: string, available: Time, reviewed: Time, published: Time, recorded: Time,
    approved: bool, isPublished: bool, linkIds: seq<string>, face: string)
  datatype Link = Link(id: string, kind: string, targetId: string, spanId: string, stance: string)

  datatype Node = Node(id: string, version: string, key: string, available: Time, refIds: seq<string>)
  datatype Edge = Edge(
    version: string, fromId: string, toId: string, fromKey: string, toKey: string,
    available: Time, refIds: seq<string>)
  datatype GraphRef = GraphRef(
    id: string, kind: string, targetId: string, factId: Option<string>, eventId: Option<string>,
    linkId: string, spanId: string, stance: string, available: Time)
  datatype Mapping = Mapping(
    id: string, edgeVersion: string, companyKey: string, industryKey: string, primaryFact: string, refIds: seq<string>)
  datatype Counterexample = Counterexample(refId: string, edgeVersion: string)

  datatype Bundle = Bundle(
    documents: seq<Document>, spans: seq<Span>, facts: seq<Target>, events: seq<Target>, links: seq<Link>)
  datatype Pack = Pack(
    sources: seq<Source>, nodes: seq<Node>, edges: seq<Edge>, refs: seq<GraphRef>, knownEvents: seq<Target>,
    mappings: seq<Mapping>, counterexamples: seq<Counterexample>)

  /* ---- Indexing ---- */

  /** Identifiers are non-empty and occur once. */
  predicate Indexable<T>(xs: seq<T>, key: T -> string) {
    && (forall i :: 0 <= i < |xs| ==> key(xs[i]) != "")
    && forall i, j :: 0 <= i < j < |xs| ==> key(xs[i]) != key(xs[j])
  }

  ghost predicate IsIndex<T(!new)>(m: map<string, T>, xs: seq<T>, key: T -> string) {
    && (forall i :: 0 <= i < |xs| ==> key(xs[i]) in m && m[key(xs[i])] == xs[i])
    && (forall k :: k in m ==> m[k] in xs && key(m[k]) == k)
  }

  method Index<T(!new)>(xs: seq<T>, key: T -> string) returns (r: Option<map<string, T>>)
    ensures r.Some? <==> Indexable(xs, key)
    ensures r.Some? ==> IsIndex(r.value, xs, key)
  {
    var m: map<string, T> := map[];
    for i := 0 to |xs|
      invariant Indexable(xs[..i], key) && IsIndex(m, xs[..i], key)
    {
      var k := key(xs[i]);
      assert forall j :: 0 <= j < i ==> xs[..i][j] == xs[j];
      if k == "" { return None; }
      if k in m {
        assert exists j :: 0 <= j < i && xs[j] == m[k];
        return None;
      }
      m := m[k := xs[i]];
      assert xs[..i + 1] == xs[..i] + [xs[i]];
    }
    assert xs[..|xs|] == xs;
    r := Some(m);
  }

  /* ---- Documents, spans and links ---- */

  function DocumentKey(d: Document): string { d.id }
  function SourceKey(s: Source): string { s.id }
  function SpanKey(s: Span): string { s.id }
  function TargetKey(t: Target): string { t.id }
  function LinkKey(l: Link): string { l.id }

  predicate DocumentTimely(d: Document, cutoff: Time) {
    && d.approved && d.firstSeen <= cutoff && d.fetched <= cutoff && d.available <= cutoff
    && (d.sourcePublished.Some? ==> d.sourcePublished.value <= d.available)
  }

  predicate SourceMatches(s: Source, d: Document) {
    s.available == d.available && s.face == d.face
  }

  predicate SpanTimely(s: Span, d: Document, cutoff: Time) {
    && s.approved && d.firstSeen <= s.available && d.fetched <= s.available && d.available <= s.available
    && (d.sourcePublished.Some? ==> d.sourcePublished.value <= s.available)
    && s.available <= s.reviewed <= cutoff
  }

  predicate TargetTimely(t: Target, cutoff: Time) {
    t.approved && t.isPublished && t.available <= t.reviewed <= t.published <= t.recorded <= cutoff
  }

  /** The target a link names, in the list of its kind. */
  function TargetOf(facts: map<string, Target>, events: map<string, Target>, kind: string, id: string): Option<Target> {
    if kind == "fact" && id in facts then Some(facts[id])
    else if kind == "event" && id in events then Some(events[id])
    else None
  }

  datatype Evidence = Evidence(
    documents: map<string, Document>, sources: map<string, Source>, spans: map<string, Span>,
    facts: map<string, Target>, events: map<string, Target>, links: map<string, Link>)

  predicate EvidenceIndexable(b: Bundle, pack: Pack) {
    && Indexable(b.documents, DocumentKey) && Indexable(pack.sources, SourceKey) && Indexable(b.spans, SpanKey)
    && Indexable(b.facts, TargetKey) && Indexable(b.events, TargetKey) && Indexable(b.links, LinkKey)
  }

  ghost predicate EvidenceIndexed(b: Bundle, pack: Pack, e: Evidence) {
    && EvidenceIndexable(b, pack)
    && IsIndex(e.documents, b.documents, DocumentKey) && IsIndex(e.sources, pack.sources, SourceKey)
    && IsIndex(e.spans, b.spans, SpanKey) && IsIndex(e.facts, b.facts, TargetKey)
    && IsIndex(e.events, b.events, TargetKey) && IsIndex(e.links, b.links, LinkKey)
  }

  /** The inverse of the pointers: who points at a document, and at a target. */
  ghost function SpansOf(spans: seq<Span>, documentId: string): set<string> {
    set i | 0 <= i < |spans| && spans[i].documentId == documentId :: spans[i].id
  }

  ghost function LinksTo(links: seq<Link>, kind: string, targetId: string): set<string> {
    set i | 0 <= i < |links| && links[i].kind == kind && links[i].targetId == targetId :: links[i].id
  }

  lemma SpansSnoc(spans: seq<Span>, i: nat, d: string)
    requires i < |spans|
    ensures SpansOf(spans[..i + 1], d) == SpansOf(spans[..i], d) + if spans[i].documentId == d then {spans[i].id} else {}
  {
    var front, more := spans[..i], spans[..i + 1];
    forall x | x in SpansOf(front, d) ensures x in SpansOf(more, d) {
      var j :| 0 <= j < |front| && front[j].documentId == d && front[j].id == x;
      assert more[j] == front[j];
    }
    assert more[i] == spans[i];
    forall x | x in SpansOf(more, d) ensures x in SpansOf(front, d) || (spans[i].documentId == d && x == spans[i].id) {
      var j :| 0 <= j < |more| && more[j].documentId == d && more[j].id == x;
      if j < i { assert front[j] == more[j]; }
    }
  }

  lemma LinksSnoc(links: seq<Link>, i: nat, kind: string, t: string)
    requires i < |links|
    ensures LinksTo(links[..i + 1], kind, t) ==
            LinksTo(links[..i], kind, t) + if links[i].kind == kind && links[i].targetId == t then {links[i].id} else {}
  {
    var front, more := links[..i], links[..i + 1];
    forall x | x in LinksTo(front, kind, t) ensures x in LinksTo(more, kind, t) {
      var j :| 0 <= j < |front| && front[j].kind == kind && front[j].targetId == t && front[j].id == x;
      assert more[j] == front[j];
    }
    assert more[i] == links[i];
    forall x | x in LinksTo(more, kind, t)
      ensures x in LinksTo(front, kind, t) || (links[i].kind == kind && links[i].targetId == t && x == links[i].id)
    {
      var j :| 0 <= j < |more| && more[j].kind == kind && more[j].targetId == t && more[j].id == x;
      if j < i { assert front[j] == more[j]; }
    }
  }

  predicate DocumentFits(e: Evidence, d: Document, cutoff: Time) {
    DocumentTimely(d, cutoff) && d.id in e.sources && SourceMatches(e.sources[d.id], d)
  }

  predicate SpanFits(e: Evidence, s: Span, cutoff: Time) {
    s.documentId in e.documents && SpanTimely(s, e.documents[s.documentId], cutoff)
  }

  predicate LinkFits(e: Evidence, l: Link) {
    && TargetOf(e.facts, e.events, l.kind, l.targetId).Some?
    && l.spanId in e.spans
    && l.id in TargetOf(e.facts, e.events, l.kind, l.targetId).value.linkIds
  }

  /** What an accepted bundle and its sources satisfy, stated without any loop. */
  ghost predicate EvidenceClosed(b: Bundle, pack: Pack, e: Evidence, cutoff: Time) {
    && EvidenceIndexed(b, pack, e)
    && e.sources.Keys == e.documents.Keys
    && (forall i :: 0 <= i < |b.documents| ==> DocumentFits(e, b.documents[i], cutoff))
    && (forall i :: 0 <= i < |b.spans| ==> SpanFits(e, b.spans[i], cutoff))
    && (forall i :: 0 <= i < |pack.sources| ==> Elements(pack.sources[i].spanIds) == SpansOf(b.spans, pack.sources[i].id))
    && (forall i :: 0 <= i < |b.facts| ==> TargetTimely(b.facts[i], cutoff))
    && (forall i :: 0 <= i < |b.events| ==> TargetTimely(b.events[i], cutoff))
    && (forall i :: 0 <= i < |b.links| ==> LinkFits(e, b.links[i]))
    && (forall i :: 0 <= i < |b.facts| ==> Elements(b.facts[i].linkIds) == LinksTo(b.links, "fact", b.facts[i].id))
    && (forall i :: 0 <= i < |b.events| ==> Elements(b.events[i].linkIds) == LinksTo(b.links, "event", b.events[i].id))
  }

  method IndexEvidence(b: Bundle, pack: Pack) returns (r: Option<Evidence>)
    ensures r.Some? <==> EvidenceIndexable(b, pack)
    ensures r.Some? ==> EvidenceIndexed(b, pack, r.value)
  {
    hide Indexable, IsIndex;
    var documents := Index(b.documents, DocumentKey);
    if documents.None? { return None; }
    var spans := Index(b.spans, SpanKey);
    if spans.None? { return None; }
    var facts := Index(b.facts, TargetKey);
    if facts.None? { return None; }
    var events := Index(b.events, TargetKey);
    if events.None? { return None; }
    var links := Index(b.links, LinkKey);
    if links.None? { return None; }
    var sources := Index(pack.sources, SourceKey);
    if sources.None? { return None; }
    r := Some(Evidence(documents.value, sources.value, spans.value, facts.value, events.value, links.value));
  }

  /** Checks every document against its source. */
  method CheckDocuments(b: Bundle, e: Evidence, cutoff: Time) returns (ok: bool)
    ensures ok <==> forall i :: 0 <= i < |b.documents| ==> DocumentFits(e, b.documents[i], cutoff)
  {
    for i := 0 to |b.documents|
      invariant forall j :: 0 <= j < i ==> DocumentFits(e, b.documents[j], cutoff)
    {
      if !DocumentFits(e, b.documents[i], cutoff) { return false; }
    }
    ok := true;
  }

  /** Checks every span and collects the spans of each document. */
  method CheckSpans(b: Bundle, e: Evidence, cutoff: Time) returns (r: Option<map<string, set<string>>>)
    ensures r.Some? <==> forall i :: 0 <= i < |b.spans| ==> SpanFits(e, b.spans[i], cutoff)
    ensures r.Some? ==> r.value.Keys == e.documents.Keys && forall d :: d in r.value ==> r.value[d] == SpansOf(b.spans, d)
  {
    hide SpansOf;
    var byDocument: map<string, set<string>> := map d | d in e.documents :: {};
    NoSpans();
    assert b.spans[..0] == [];
    for i := 0 to |b.spans|
      invariant forall j :: 0 <= j < i ==> SpanFits(e, b.spans[j], cutoff)
      invariant byDocument.Keys == e.documents.Keys
      invariant forall d :: d in byDocument ==> byDocument[d] == SpansOf(b.spans[..i], d)
    {
      var s := b.spans[i];
      if !SpanFits(e, s, cutoff) { return None; }
      forall d ensures SpansOf(b.spans[..i + 1], d) == SpansOf(b.spans[..i], d) + if s.documentId == d then {s.id} else {} {
        SpansSnoc(b.spans, i, d);
      }
      byDocument := byDocument[s.documentId := byDocument[s.documentId] + {s.id}];
    }
    assert b.spans[..|b.spans|] == b.spans;
    r := Some(byDocument);
  }

  lemma NoSpans()
    ensures forall d :: SpansOf([], d) == {}
  {
  }

  method CheckSources(pack: Pack, byDocument: map<string, set<string>>) returns (ok: bool)
    requires forall i :: 0 <= i < |pack.sources| ==> pack.sources[i].id in byDocument
    ensures ok <==> forall i :: 0 <= i < |pack.sources| ==> Elements(pack.sources[i].spanIds) == byDocument[pack.sources[i].id]
  {
    for i := 0 to |pack.sources|
      invariant forall j :: 0 <= j < i ==> Elements(pack.sources[j].spanIds) == byDocument[pack.sources[j].id]
    {
      if Elements(pack.sources[i].spanIds) != byDocument[pack.sources[i].id] { return false; }
    }
    ok := true;
  }

  method CheckTargets(targets: seq<Target>, cutoff: Time) returns (ok: bool)
    ensures ok <==> forall i :: 0 <= i < |targets| ==> TargetTimely(targets[i], cutoff)
  {
    for i := 0 to |targets|
      invariant forall j :: 0 <= j < i ==> TargetTimely(targets[j], cutoff)
    {
      if !TargetTimely(targets[i], cutoff) { return false; }
    }
    ok := true;
  }

  function Seen(m: map<(string, string), set<string>>, kind: string, id: string): set<string> {
    if (kind, id) in m then m[(kind, id)] else {}
  }

  /** Checks every link and collects the links of each target. */
  method CheckLinks(b: Bundle, e: Evidence) returns (r: Option<map<(string, string), set<string>>>)
    ensures r.Some? <==> forall i :: 0 <= i < |b.links| ==> LinkFits(e, b.links[i])
    ensures r.Some? ==> forall k, t :: Seen(r.value, k, t) == LinksTo(b.links, k, t)
  {
    hide LinksTo, LinkFits;
    var seen: map<(string, string), set<string>> := map[];
    NoLinks();
    assert b.links[..0] == [];
    for i := 0 to |b.links|
      invariant forall j :: 0 <= j < i ==> LinkFits(e, b.links[j])
      invariant forall k, t :: Seen(seen, k, t) == LinksTo(b.links[..i], k, t)
    {
      var l := b.links[i];
      if !LinkFits(e, l) { return None; }
      forall k, t
        ensures LinksTo(b.links[..i + 1], k, t) ==
                LinksTo(b.links[..i], k, t) + if l.kind == k && l.targetId == t then {l.id} else {}
      {
        LinksSnoc(b.links, i, k, t);
      }
      ghost var before := seen;
      seen := seen[(l.kind, l.targetId) := Seen(seen, l.kind, l.targetId) + {l.id}];
      assert forall k, t :: Seen(seen, k, t) == Seen(before, k, t) + if l.kind == k && l.targetId == t then {l.id} else {};
    }
    assert b.links[..|b.links|] == b.links;
    r := Some(seen);
  }

  lemma NoLinks()
    ensures forall k, t :: LinksTo([], k, t) == {}
  {
  }

  method CheckTargetLinks(targets: seq<Target>, kind: string, seen: map<(string, string), set<string>>) returns (ok: bool)
    ensures ok <==> forall i :: 0 <= i < |targets| ==> Elements(targets[i].linkIds) == Seen(seen, kind, targets[i].id)
  {
    for i := 0 to |targets|
      invariant forall j :: 0 <= j < i ==> Elements(targets[j].linkIds) == Seen(seen, kind, targets[j].id)
    {
      if Elements(targets[i].linkIds) != Seen(seen, kind, targets[i].id) { return false; }
    }
    ok := true;
  }

  lemma SourcesKnown(b: Bundle, pack: Pack, e: Evidence)
    requires EvidenceIndexed(b, pack, e) && e.sources.Keys == e.documents.Keys
    ensures forall i :: 0 <= i < |pack.sources| ==> pack.sources[i].id in e.documents
  {
  }

  /**
   Accepts exactly the bundles whose lists are the inverse of the pointers and
   whose times are in order, and returns their indexes.
   */
  method ValidateDocumentsAndLinks(b: Bundle, pack: Pack, cutoff: Time) returns (r: Option<Evidence>)
    ensures r.Some? ==> EvidenceClosed(b, pack, r.value, cutoff)
    ensures r.None? ==> forall e :: !EvidenceClosed(b, pack, e, cutoff)
  {
    hide Indexable, IsIndex, DocumentFits, SpanFits, LinkFits, TargetTimely, SpansOf, LinksTo, Seen;
    var indexed := IndexEvidence(b, pack);
    IndexesUnique(b, pack);
    if indexed.None? { return None; }
    var e := indexed.value;
    if e.sources.Keys != e.documents.Keys { return None; }
    var documents := CheckDocuments(b, e, cutoff);
    if !documents { return None; }
    var byDocument := CheckSpans(b, e, cutoff);
    if byDocument.None? { return None; }
    SourcesKnown(b, pack, e);
    var sources := CheckSources(pack, byDocument.value);
    if !sources { return None; }
    var facts := CheckTargets(b.facts, cutoff);
    if !facts { return None; }
    var events := CheckTargets(b.events, cutoff);
    if !events { return None; }
    var seen := CheckLinks(b, e);
    if seen.None? { return None; }
    var factLinks := CheckTargetLinks(b.facts, "fact", seen.value);
    if !factLinks { return None; }
    var eventLinks := CheckTargetLinks(b.events, "event", seen.value);
    if !eventLinks { return None; }
    r := Some(e);
  }

  lemma IndexUnique<T(!new)>(xs: seq<T>, key: T -> string, m: map<string, T>, n: map<string, T>)
    requires IsIndex(m, xs, key) && IsIndex(n, xs, key)
    ensures m == n
  {
    forall k | k in m ensures k in n && n[k] == m[k] {
      var i :| 0 <= i < |xs| && xs[i] == m[k];
      assert key(xs[i]) == k;
    }
    forall k | k in n ensures k in m {
      var i :| 0 <= i < |xs| && xs[i] == n[k];
      assert key(xs[i]) == k;
    }
  }

  /** There is at most one indexing, and one only if the identifiers are distinct. */
  lemma IndexesUnique(b: Bundle, pack: Pack)
    ensures forall e, f | EvidenceIndexed(b, pack, e) && EvidenceIndexed(b, pack, f) :: e == f
  {
    hide IsIndex;
    forall e, f | EvidenceIndexed(b, pack, e) && EvidenceIndexed(b, pack, f) ensures e == f {
      IndexUnique(b.documents, DocumentKey, e.documents, f.documents);
      IndexUnique(pack.sources, SourceKey, e.sources, f.sources);
      IndexUnique(b.spans, SpanKey, e.spans, f.spans);
      IndexUnique(b.facts, TargetKey, e.facts, f.facts);
      IndexUnique(b.events, TargetKey, e.events, f.events);
      IndexUnique(b.links, LinkKey, e.links, f.links);
    }
  }

  /* ---- The graph ---- */

  function NodeKey(n: Node): string { n.id }
  function NodeVersionKey(n: Node): string { n.version }
  function NodeNameKey(n: Node): string { n.key }
  function EdgeKey(x: Edge): string { x.version }
  function RefKey(r: GraphRef): string { r.id }
  function MappingKey(m: Mapping): string { m.id }

  datatype Graph = Graph(
    nodes: map<string, Node>, versions: map<string, Node>, names: map<string, Node>, edges: map<string, Edge>,
    refs: map<string, GraphRef>, known: map<string, Target>, mappings: map<string, Mapping>)

  predicate GraphIndexable(pack: Pack) {
    && Indexable(pack.nodes, NodeKey) && Indexable(pack.nodes, NodeVersionKey) && Indexable(pack.nodes, NodeNameKey)
    && Indexable(pack.edges, EdgeKey) && Indexable(pack.refs, RefKey) && Indexable(pack.knownEvents, TargetKey)
    && Indexable(pack.mappings, MappingKey)
  }

  ghost predicate GraphIndexed(pack: Pack, g: Graph) {
    && GraphIndexable(pack)
    && IsIndex(g.nodes, pack.nodes, NodeKey) && IsIndex(g.versions, pack.nodes, NodeVersionKey)
    && IsIndex(g.names, pack.nodes, NodeNameKey) && IsIndex(g.edges, pack.edges, EdgeKey)
    && IsIndex(g.refs, pack.refs, RefKey) && IsIndex(g.known, pack.knownEvents, TargetKey)
    && IsIndex(g.mappings, pack.mappings, MappingKey)
  }

  /** When the graph object a reference supports became available; a kind other than node means an edge. */
  function ObjectAvailable(g: Graph, r: GraphRef): Option<Time> {
    if r.kind == "node" then (if r.targetId in g.versions then Some(g.versions[r.targetId].available) else None)
    else if r.targetId in g.edges then Some(g.edges[r.targetId].available)
    else None
  }

  function EvidenceKind(r: GraphRef): string {
    if r.factId.Some? then "fact" else "event"
  }

  /** The fact or event a reference rests on; the kind is decided by the fact. */
  function EvidenceTarget(e: Evidence, r: GraphRef): Option<Target> {
    if r.factId.Some? then (if r.factId.value in e.facts then Some(e.facts[r.factId.value]) else None)
    else if r.eventId.Some? && r.eventId.value in e.events then Some(e.events[r.eventId.value])
    else None
  }

  /** The link a reference names joins its evidence and its span, with the same stance. */
  predicate LinkJoins(l: Link, r: GraphRef, t: Target) {
    l.kind == EvidenceKind(r) && l.targetId == t.id && l.spanId == r.spanId && l.stance == r.stance
  }

  /** The reference, its link, the link's target and its span belong together, in time order. */
  predicate RefFits(e: Evidence, g: Graph, r: GraphRef, cutoff: Time) {
    && ObjectAvailable(g, r).Some? && EvidenceTarget(e, r).Some?
    && r.linkId in e.links && r.spanId in e.spans && LinkJoins(e.links[r.linkId], r, EvidenceTarget(e, r).value)
    && e.spans[r.spanId].reviewed <= EvidenceTarget(e, r).value.recorded <= r.available
       <= ObjectAvailable(g, r).value <= cutoff
  }

  ghost function RefsTo(refs: seq<GraphRef>, kind: string, targetId: string): set<string> {
    set i | 0 <= i < |refs| && refs[i].kind == kind && refs[i].targetId == targetId :: refs[i].id
  }

  predicate EdgeFits(g: Graph, x: Edge) {
    && x.fromId in g.nodes && x.toId in g.nodes
    && x.fromKey == g.nodes[x.fromId].key && x.toKey == g.nodes[x.toId].key
  }

  predicate KnownFits(e: Evidence, k: Target) {
    k.id in e.events && k.face == e.events[k.id].face && k.available == e.events[k.id].available
    && k.linkIds == e.events[k.id].linkIds
  }

  predicate MappingFits(e: Evidence, g: Graph, m: Mapping) {
    && m.companyKey in g.names && m.industryKey in g.names && m.edgeVersion in g.edges && m.primaryFact in e.facts
    && Elements(m.refIds) <= g.refs.Keys
  }

  predicate CounterexampleFits(g: Graph, c: Counterexample) {
    c.refId in g.refs && c.edgeVersion in g.edges
  }

  /** The links the graph references and the known events use. */
  ghost function UsedLinks(refs: seq<GraphRef>, known: seq<Target>): set<string> {
    (set i | 0 <= i < |refs| :: refs[i].linkId) + (set i, x | 0 <= i < |known| && x in known[i].linkIds :: x)
  }

  ghost predicate GraphClosed(b: Bundle, pack: Pack, e: Evidence, g: Graph, cutoff: Time) {
    && GraphIndexed(pack, g)
    && (forall i :: 0 <= i < |pack.refs| ==> RefFits(e, g, pack.refs[i], cutoff))
    && (forall i :: 0 <= i < |pack.nodes| ==> Elements(pack.nodes[i].refIds) == RefsTo(pack.refs, "node", pack.nodes[i].version))
    && (forall i :: 0 <= i < |pack.edges| ==> Elements(pack.edges[i].refIds) == RefsTo(pack.refs, "edge", pack.edges[i].version))
    && (forall i :: 0 <= i < |pack.edges| ==> EdgeFits(g, pack.edges[i]))
    && (forall i :: 0 <= i < |pack.knownEvents| ==> KnownFits(e, pack.knownEvents[i]))
    && g.known.Keys == e.events.Keys && UsedLinks(pack.refs, pack.knownEvents) == e.links.Keys
    && (forall i :: 0 <= i < |pack.mappings| ==> MappingFits(e, g, pack.mappings[i]))
    && (forall i :: 0 <= i < |pack.counterexamples| ==> CounterexampleFits(g, pack.counterexamples[i]))
  }

  method IndexGraph(pack: Pack) returns (r: Option<Graph>)
    ensures r.Some? <==> GraphIndexable(pack)
    ensures r.Some? ==> GraphIndexed(pack, r.value)
  {
    hide Indexable, IsIndex;
    var nodes := Index(pack.nodes, NodeKey);
    if nodes.None? { return None; }
    var versions := Index(pack.nodes, NodeVersionKey);
    if versions.None? { return None; }
    var names := Index(pack.nodes, NodeNameKey);
    if names.None? { return None; }
    var edges := Index(pack.edges, EdgeKey);
    if edges.None? { return None; }
    var refs := Index(pack.refs, RefKey);
    if refs.None? { return None; }
    var known := Index(pack.knownEvents, TargetKey);
    if known.None? { return None; }
    var mappings := Index(pack.mappings, MappingKey);
    if mappings.None? { return None; }
    r := Some(Graph(nodes.value, versions.value, names.value, edges.value, refs.value, known.value, mappings.value));
  }

  lemma GraphIndexUnique(pack: Pack)
    ensures forall g, h | GraphIndexed(pack, g) && GraphIndexed(pack, h) :: g == h
  {
    hide IsIndex, GraphIndexable;
    forall g, h | GraphIndexed(pack, g) && GraphIndexed(pack, h) ensures g == h {
      IndexUnique(pack.nodes, NodeKey, g.nodes, h.nodes);
      IndexUnique(pack.nodes, NodeVersionKey, g.versions, h.versions);
      IndexUnique(pack.nodes, NodeNameKey, g.names, h.names);
      IndexUnique(pack.edges, EdgeKey, g.edges, h.edges);
      IndexUnique(pack.refs, RefKey, g.refs, h.refs);
      IndexUnique(pack.knownEvents, TargetKey, g.known, h.known);
      IndexUnique(pack.mappings, MappingKey, g.mappings, h.mappings);
    }
  }

  lemma RefsSnoc(refs: seq<GraphRef>, i: nat, kind: string, t: string)
    requires i < |refs|
    ensures RefsTo(refs[..i + 1], kind, t) ==
            RefsTo(refs[..i], kind, t) + if refs[i].kind == kind && refs[i].targetId == t then {refs[i].id} else {}
  {
    var front, more := refs[..i], refs[..i + 1];
    forall x | x in RefsTo(front, kind, t) ensures x in RefsTo(more, kind, t) {
      var j :| 0 <= j < |front| && front[j].kind == kind && front[j].targetId == t && front[j].id == x;
      assert more[j] == front[j];
    }
    assert more[i] == refs[i];
    forall x | x in RefsTo(more, kind, t)
      ensures x in RefsTo(front, kind, t) || (refs[i].kind == kind && refs[i].targetId == t && x == refs[i].id)
    {
      var j :| 0 <= j < |more| && more[j].kind == kind && more[j].targetId == t && more[j].id == x;
      if j < i { assert front[j] == more[j]; }
    }
  }

  lemma NoRefs()
    ensures (forall k, t :: RefsTo([], k, t) == {}) && UsedLinks([], []) == {}
  {
  }

  lemma UsedByRef(refs: seq<GraphRef>, i: nat)
    requires i < |refs|
    ensures UsedLinks(refs[..i + 1], []) == UsedLinks(refs[..i], []) + {refs[i].linkId}
  {
    var front, more := refs[..i], refs[..i + 1];
    forall x | x in UsedLinks(front, []) ensures x in UsedLinks(more, []) {
      var j :| 0 <= j < |front| && front[j].linkId == x;
      assert more[j] == front[j];
    }
    assert more[i] == refs[i];
    forall x | x in UsedLinks(more, []) ensures x in UsedLinks(front, []) + {refs[i].linkId} {
      var j :| 0 <= j < |more| && more[j].linkId == x;
      if j < i { assert front[j] == more[j]; }
    }
  }

  lemma UsedByKnown(refs: seq<GraphRef>, known: seq<Target>, i: nat)
    requires i < |known|
    ensures UsedLinks(refs, known[..i + 1]) == UsedLinks(refs, known[..i]) + Elements(known[i].linkIds)
  {
    var front, more := known[..i], known[..i + 1];
    forall x | x in UsedLinks(refs, front) ensures x in UsedLinks(refs, more) {
      if j :| 0 <= j < |front| && x in front[j].linkIds { assert more[j] == front[j]; }
    }
    assert more[i] == known[i];
    forall x | x in UsedLinks(refs, more) ensures x in UsedLinks(refs, front) + Elements(known[i].linkIds) {
      if j :| 0 <= j < |more| && x in more[j].linkIds {
        if j < i { assert front[j] == more[j]; }
      }
    }
  }

  /** Checks every reference and collects the references of each object and the links used. */
  method CheckRefs(pack: Pack, e: Evidence, g: Graph, cutoff: Time)
    returns (r: Option<(map<(string, string), set<string>>, set<string>)>)
    ensures r.Some? <==> forall i :: 0 <= i < |pack.refs| ==> RefFits(e, g, pack.refs[i], cutoff)
    ensures r.Some? ==> forall k, t :: Seen(r.value.0, k, t) == RefsTo(pack.refs, k, t)
    ensures r.Some? ==> r.value.1 == UsedLinks(pack.refs, [])
  {
    hide RefsTo, RefFits, UsedLinks;
    var refs := pack.refs;
    var seen: map<(string, string), set<string>> := map[];
    var used: set<string> := {};
    NoRefs();
    assert refs[..0] == [];
    for i := 0 to |refs|
      invariant forall j :: 0 <= j < i ==> RefFits(e, g, refs[j], cutoff)
      invariant forall k, t :: Seen(seen, k, t) == RefsTo(refs[..i], k, t)
      invariant used == UsedLinks(refs[..i], [])
    {
      var x := refs[i];
      if !RefFits(e, g, x, cutoff) { return None; }
      forall k, t
        ensures RefsTo(refs[..i + 1], k, t) == RefsTo(refs[..i], k, t) + if x.kind == k && x.targetId == t then {x.id} else {}
      {
        RefsSnoc(refs, i, k, t);
      }
      UsedByRef(refs, i);
      ghost var before := seen;
      seen := seen[(x.kind, x.targetId) := Seen(seen, x.kind, x.targetId) + {x.id}];
      used := used + {x.linkId};
      assert forall k, t :: Seen(seen, k, t) == Seen(before, k, t) + if x.kind == k && x.targetId == t then {x.id} else {};
    }
    assert refs[..|refs|] == refs;
    r := Some((seen, used));
  }

  method CheckNodes(pack: Pack, seen: map<(string, string), set<string>>) returns (ok: bool)
    ensures ok <==> forall i :: 0 <= i < |pack.nodes| ==>
              Elements(pack.nodes[i].refIds) == Seen(seen, "node", pack.nodes[i].version)
  {
    for i := 0 to |pack.nodes|
      invariant forall j :: 0 <= j < i ==> Elements(pack.nodes[j].refIds) == Seen(seen, "node", pack.nodes[j].version)
    {
      if Elements(pack.nodes[i].refIds) != Seen(seen, "node", pack.nodes[i].version) { return false; }
    }
    ok := true;
  }

  method CheckEdges(pack: Pack, g: Graph, seen: map<(string, string), set<string>>) returns (ok: bool)
    ensures ok <==> forall i :: 0 <= i < |pack.edges| ==>
              Elements(pack.edges[i].refIds) == Seen(seen, "edge", pack.edges[i].version) && EdgeFits(g, pack.edges[i])
  {
    for i := 0 to |pack.edges|
      invariant forall j :: 0 <= j < i ==>
                  Elements(pack.edges[j].refIds) == Seen(seen, "edge", pack.edges[j].version) && EdgeFits(g, pack.edges[j])
    {
      if Elements(pack.edges[i].refIds) != Seen(seen, "edge", pack.edges[i].version) { return false; }
      if !EdgeFits(g, pack.edges[i]) { return false; }
    }
    ok := true;
  }

  method CheckKnown(pack: Pack, e: Evidence, used: set<string>) returns (r: Option<set<string>>)
    requires used == UsedLinks(pack.refs, [])
    ensures r.Some? <==> forall i :: 0 <= i < |pack.knownEvents| ==> KnownFits(e, pack.knownEvents[i])
    ensures r.Some? ==> r.value == UsedLinks(pack.refs, pack.knownEvents)
  {
    hide UsedLinks, KnownFits;
    var all := used;
    var known := pack.knownEvents;
    assert known[..0] == [];
    for i := 0 to |known|
      invariant forall j :: 0 <= j < i ==> KnownFits(e, known[j])
      invariant all == UsedLinks(pack.refs, known[..i])
    {
      if !KnownFits(e, known[i]) { return None; }
      UsedByKnown(pack.refs, known, i);
      all := all + Elements(known[i].linkIds);
    }
    assert known[..|known|] == known;
    r := Some(all);
  }

  method CheckProjections(pack: Pack, e: Evidence, g: Graph) returns (ok: bool)
    ensures ok <==>
              && (forall i :: 0 <= i < |pack.mappings| ==> MappingFits(e, g, pack.mappings[i]))
              && (forall i :: 0 <= i < |pack.counterexamples| ==> CounterexampleFits(g, pack.counterexamples[i]))
  {
    for i := 0 to |pack.mappings|
      invariant forall j :: 0 <= j < i ==> MappingFits(e, g, pack.mappings[j])
    {
      if !MappingFits(e, g, pack.mappings[i]) { return false; }
    }
    for i := 0 to |pack.counterexamples|
      invariant forall j :: 0 <= j < i ==> CounterexampleFits(g, pack.counterexamples[j])
    {
      if !CounterexampleFits(g, pack.counterexamples[i]) { return false; }
    }
    ok := true;
  }

  /** Accepts exactly the graphs that close over the evidence. */
  method ValidateGraph(b: Bundle, pack: Pack, e: Evidence, cutoff: Time) returns (r: Option<Graph>)
    ensures r.Some? ==> GraphClosed(b, pack, e, r.value, cutoff)
    ensures r.None? ==> forall g :: !GraphClosed(b, pack, e, g, cutoff)
  {
    hide Indexable, IsIndex, RefFits, EdgeFits, KnownFits, MappingFits, CounterexampleFits, RefsTo, UsedLinks, Seen,
         GraphIndexable;
    var indexed := IndexGraph(pack);
    GraphIndexUnique(pack);
    if indexed.None? { return None; }
    var g := indexed.value;
    var refs := CheckRefs(pack, e, g, cutoff);
    if refs.None? { return None; }
    var nodes := CheckNodes(pack, refs.value.0);
    if !nodes { return None; }
    var edges := CheckEdges(pack, g, refs.value.0);
    if !edges { return None; }
    var used := CheckKnown(pack, e, refs.value.1);
    if used.None? { return None; }
    if g.known.Keys != e.events.Keys || used.value != e.links.Keys { return None; }
    var projections := CheckProjections(pack, e, g);
    if !projections { return None; }
    r := Some(g);
  }

  /* ---- What acceptance guarantees ---- */

  lemma IndexedMember<T(!new)>(m: map<string, T>, xs: seq<T>, key: T -> string, k: string) returns (i: nat)
    requires IsIndex(m, xs, key) && k in m
    ensures i < |xs| && xs[i] == m[k] && key(xs[i]) == k
  {
    i :| 0 <= i < |xs| && xs[i] == m[k];
  }

  lemma SameKeySame<T(!new)>(xs: seq<T>, key: T -> string, i: nat, j: nat)
    requires Indexable(xs, key) && i < |xs| && j < |xs| && key(xs[i]) == key(xs[j])
    ensures xs[i] == xs[j]
  {
  }

  /**
   From document to graph object, everything a reference rests on is in time order:
   seen and fetched, cut into a span, reviewed, recorded, referenced, published.
   */
  lemma ChainInTime(b: Bundle, pack: Pack, e: Evidence, g: Graph, sourceCutoff: Time, contextCutoff: Time, r: GraphRef)
    requires EvidenceClosed(b, pack, e, sourceCutoff) && GraphClosed(b, pack, e, g, contextCutoff) && r in pack.refs
    ensures r.spanId in e.spans && e.spans[r.spanId].documentId in e.documents
    ensures EvidenceTarget(e, r).Some? && ObjectAvailable(g, r).Some?
    ensures var s := e.spans[r.spanId];
            var d := e.documents[s.documentId];
            var t := EvidenceTarget(e, r).value;
            && d.firstSeen <= s.available && d.fetched <= s.available && d.available <= s.available
            && (d.sourcePublished.Some? ==> d.sourcePublished.value <= d.available)
            && s.available <= s.reviewed <= t.recorded <= r.available <= ObjectAvailable(g, r).value <= contextCutoff
            && t.available <= t.reviewed <= t.published <= t.recorded <= sourceCutoff
            && s.approved && d.approved && t.approved && t.isPublished
  {
    hide Indexable, IsIndex, SpansOf, LinksTo, RefsTo, UsedLinks, EdgeFits, KnownFits, MappingFits, CounterexampleFits,
         LinkFits, GraphIndexed, EvidenceIndexable;
    var i :| 0 <= i < |pack.refs| && pack.refs[i] == r;
    assert RefFits(e, g, pack.refs[i], contextCutoff);
    var j := IndexedMember(e.spans, b.spans, SpanKey, r.spanId);
    assert SpanFits(e, b.spans[j], sourceCutoff);
    var s := e.spans[r.spanId];
    var k := IndexedMember(e.documents, b.documents, DocumentKey, s.documentId);
    assert DocumentFits(e, b.documents[k], sourceCutoff);
    if r.factId.Some? {
      var n := IndexedMember(e.facts, b.facts, TargetKey, r.factId.value);
      assert TargetTimely(b.facts[n], sourceCutoff);
    } else {
      var n := IndexedMember(e.events, b.events, TargetKey, r.eventId.value);
      assert TargetTimely(b.events[n], sourceCutoff);
    }
  }

  /** A source lists a span exactly when the span points at its document. */
  lemma SpansTwoWay(b: Bundle, pack: Pack, e: Evidence, cutoff: Time, i: nat, j: nat)
    requires EvidenceClosed(b, pack, e, cutoff) && i < |pack.sources| && j < |b.spans|
    ensures b.spans[j].id in pack.sources[i].spanIds <==> b.spans[j].documentId == pack.sources[i].id
  {
    hide IsIndex, DocumentFits, SpanFits, TargetTimely, LinkFits, LinksTo;
    var d, x := pack.sources[i].id, b.spans[j].id;
    assert x in pack.sources[i].spanIds <==> x in SpansOf(b.spans, d);
    if x in SpansOf(b.spans, d) {
      var k :| 0 <= k < |b.spans| && b.spans[k].documentId == d && b.spans[k].id == x;
      SameKeySame(b.spans, SpanKey, j, k);
    }
  }

  lemma LinkListed(links: seq<Link>, j: nat, kind: string, t: string)
    requires Indexable(links, LinkKey) && j < |links|
    ensures links[j].id in LinksTo(links, kind, t) <==> links[j].kind == kind && links[j].targetId == t
  {
    if links[j].id in LinksTo(links, kind, t) {
      var k :| 0 <= k < |links| && links[k].kind == kind && links[k].targetId == t && links[k].id == links[j].id;
      SameKeySame(links, LinkKey, j, k);
    }
  }

  /** A fact or event lists a link exactly when the link points at it. */
  lemma LinksTwoWay(b: Bundle, pack: Pack, e: Evidence, cutoff: Time, j: nat)
    requires EvidenceClosed(b, pack, e, cutoff) && j < |b.links|
    ensures forall i :: 0 <= i < |b.facts| ==>
              (b.links[j].id in b.facts[i].linkIds <==> b.links[j].kind == "fact" && b.links[j].targetId == b.facts[i].id)
    ensures forall i :: 0 <= i < |b.events| ==>
              (b.links[j].id in b.events[i].linkIds <==> b.links[j].kind == "event" && b.links[j].targetId == b.events[i].id)
  {
    hide Indexable, IsIndex, DocumentFits, SpanFits, TargetTimely, LinkFits, LinksTo, SpansOf;
    forall i | 0 <= i < |b.facts|
      ensures b.links[j].id in b.facts[i].linkIds <==> b.links[j].kind == "fact" && b.links[j].targetId == b.facts[i].id
    {
      LinkListed(b.links, j, "fact", b.facts[i].id);
      assert b.links[j].id in b.facts[i].linkIds <==> b.links[j].id in Elements(b.facts[i].linkIds);
    }
    forall i | 0 <= i < |b.events|
      ensures b.links[j].id in b.events[i].linkIds <==> b.links[j].kind == "event" && b.links[j].targetId == b.events[i].id
    {
      LinkListed(b.links, j, "event", b.events[i].id);
      assert b.links[j].id in b.events[i].linkIds <==> b.links[j].id in Elements(b.events[i].linkIds);
    }
  }

  lemma RefListed(refs: seq<GraphRef>, j: nat, kind: string, t: string)
    requires Indexable(refs, RefKey) && j < |refs|
    ensures refs[j].id in RefsTo(refs, kind, t) <==> refs[j].kind == kind && refs[j].targetId == t
  {
    if refs[j].id in RefsTo(refs, kind, t) {
      var k :| 0 <= k < |refs| && refs[k].kind == kind && refs[k].targetId == t && refs[k].id == refs[j].id;
      SameKeySame(refs, RefKey, j, k);
    }
  }

  /** A node or edge lists a reference exactly when the reference points at it. */
  lemma RefsTwoWay(b: Bundle, pack: Pack, e: Evidence, g: Graph, cutoff: Time, j: nat)
    requires GraphClosed(b, pack, e, g, cutoff) && j < |pack.refs|
    ensures forall i :: 0 <= i < |pack.nodes| ==>
              (pack.refs[j].id in pack.nodes[i].refIds <==>
                 pack.refs[j].kind == "node" && pack.refs[j].targetId == pack.nodes[i].version)
    ensures forall i :: 0 <= i < |pack.edges| ==>
              (pack.refs[j].id in pack.edges[i].refIds <==>
                 pack.refs[j].kind == "edge" && pack.refs[j].targetId == pack.edges[i].version)
  {
    hide Indexable, IsIndex, RefFits, EdgeFits, KnownFits, MappingFits, CounterexampleFits, RefsTo, UsedLinks;
    var x := pack.refs[j].id;
    forall i | 0 <= i < |pack.nodes|
      ensures x in pack.nodes[i].refIds <==> pack.refs[j].kind == "node" && pack.refs[j].targetId == pack.nodes[i].version
    {
      RefListed(pack.refs, j, "node", pack.nodes[i].version);
      assert x in pack.nodes[i].refIds <==> x in Elements(pack.nodes[i].refIds);
    }
    forall i | 0 <= i < |pack.edges|
      ensures x in pack.edges[i].refIds <==> pack.refs[j].kind == "edge" && pack.refs[j].targetId == pack.edges[i].version
    {
      RefListed(pack.refs, j, "edge", pack.edges[i].version);
      assert x in pack.edges[i].refIds <==> x in Elements(pack.edges[i].refIds);
    }
  }

  /**
   No evidence is dropped: every link of a fact is cited by a graph reference that
   rests on that very fact, and every event is a known event of the pack.
   */
  lemma EvidenceRetained(b: Bundle, pack: Pack, e: Evidence, g: Graph, sourceCutoff: Time, contextCutoff: Time, l: Link)
    requires EvidenceClosed(b, pack, e, sourceCutoff) && GraphClosed(b, pack, e, g, contextCutoff) && l in b.links
    ensures l.kind == "fact" || l.kind == "event"
    ensures l.kind == "fact" ==> exists r :: r in pack.refs && r.linkId == l.id && r.factId == Some(l.targetId)
    ensures l.kind == "event" ==> l.targetId in g.known && l.id in g.known[l.targetId].linkIds
  {
    hide Indexable, DocumentFits, SpanFits, TargetTimely, SpansOf, LinksTo, RefsTo, EdgeFits, MappingFits,
         CounterexampleFits, EvidenceIndexable, GraphIndexable, UsedLinks;
    var j :| 0 <= j < |b.links| && b.links[j] == l;
    assert LinkFits(e, b.links[j]);
    if l.kind == "fact" {
      FactLinkCited(b, pack, e, g, sourceCutoff, contextCutoff, j);
    } else {
      assert l.targetId in g.known;
      var k := IndexedMember(g.known, pack.knownEvents, TargetKey, l.targetId);
      assert KnownFits(e, pack.knownEvents[k]);
    }
  }

  lemma UsedFrom(refs: seq<GraphRef>, known: seq<Target>, x: string)
    requires x in UsedLinks(refs, known)
    ensures (exists i :: 0 <= i < |refs| && refs[i].linkId == x) || exists i :: 0 <= i < |known| && x in known[i].linkIds
  {
  }

  lemma EventLinkKind(b: Bundle, pack: Pack, e: Evidence, cutoff: Time, j: nat, k: Target)
    requires EvidenceClosed(b, pack, e, cutoff) && j < |b.links| && KnownFits(e, k) && b.links[j].id in k.linkIds
    ensures b.links[j].kind == "event"
  {
    hide Indexable, DocumentFits, SpanFits, TargetTimely, LinkFits, LinksTo, SpansOf, EvidenceIndexable;
    LinksTwoWay(b, pack, e, cutoff, j);
    var n := IndexedMember(e.events, b.events, TargetKey, k.id);
    assert b.links[j].id in b.events[n].linkIds;
  }

  lemma FactLinkCited(b: Bundle, pack: Pack, e: Evidence, g: Graph, sourceCutoff: Time, contextCutoff: Time, j: nat)
    requires EvidenceClosed(b, pack, e, sourceCutoff) && GraphClosed(b, pack, e, g, contextCutoff)
    requires j < |b.links| && b.links[j].kind == "fact"
    ensures exists r :: r in pack.refs && r.linkId == b.links[j].id && r.factId == Some(b.links[j].targetId)
  {
    hide Indexable, DocumentFits, SpanFits, TargetTimely, SpansOf, LinksTo, RefsTo, EdgeFits, MappingFits, LinkFits,
         CounterexampleFits, EvidenceIndexable, GraphIndexable, UsedLinks, KnownFits;
    var l := b.links[j];
    assert LinkKey(l) in e.links && e.links[l.id] == l;
    UsedFrom(pack.refs, pack.knownEvents, l.id);
    forall i | 0 <= i < |pack.knownEvents| ensures l.id !in pack.knownEvents[i].linkIds {
      assert KnownFits(e, pack.knownEvents[i]);
      if l.id in pack.knownEvents[i].linkIds { EventLinkKind(b, pack, e, sourceCutoff, j, pack.knownEvents[i]); }
    }
    var i :| 0 <= i < |pack.refs| && pack.refs[i].linkId == l.id;
    var r := pack.refs[i];
    assert RefFits(e, g, r, contextCutoff);
    assert LinkJoins(l, r, EvidenceTarget(e, r).value);
    FactIdentity(b, pack, e, r);
    assert r in pack.refs;
  }

  lemma FactIdentity(b: Bundle, pack: Pack, e: Evidence, r: GraphRef)
    requires EvidenceIndexed(b, pack, e) && EvidenceTarget(e, r).Some? && EvidenceKind(r) == "fact"
    ensures r.factId == Some(EvidenceTarget(e, r).value.id)
  {
    hide Indexable, EvidenceIndexable;
    assert TargetKey(e.facts[r.factId.value]) == r.factId.value;
  }

  /** Each edge joins two nodes of the graph, by identifier and by name. */
  lemma EdgesJoinNodes(b: Bundle, pack: Pack, e: Evidence, g: Graph, cutoff: Time, x: Edge)
    requires GraphClosed(b, pack, e, g, cutoff) && x in pack.edges
    ensures exists n, m :: n in pack.nodes && m in pack.nodes && n.id == x.fromId && m.id == x.toId
                           && n.key == x.fromKey && m.key == x.toKey
  {
    hide Indexable, RefFits, KnownFits, MappingFits, CounterexampleFits, RefsTo, UsedLinks, GraphIndexable;
    var i :| 0 <= i < |pack.edges| && pack.edges[i] == x;
    assert EdgeFits(g, pack.edges[i]);
    var n, m := g.nodes[x.fromId], g.nodes[x.toId];
    assert NodeKey(n) == x.fromId && NodeKey(m) == x.toId;
  }
}
