/**
 Acceptance of a context pack stated over its lists alone: no index, no loop, only
 which entries of which list have to agree with which. The validators accept exactly
 the packs that satisfy it.
 */
module PackRules {
  import opened Basics
  import Contracts
  import opened ContextPack

  /* ---- The evidence ---- */

  /** Every entry has a name, and no two have the same. */
  ghost predicate Named<T(!new)>(xs: seq<T>, name: T -> string) {
    && (forall x :: x in xs ==> name(x) != "")
    && forall i, j :: 0 <= i < |xs| && 0 <= j < |xs| && name(xs[i]) == name(xs[j]) ==> i == j
  }

  function DocumentId(x: Document): string { x.id }
  function SourceId(x: Source): string { x.id }
  function SpanId(x: Span): string { x.id }
  function TargetId(x: Target): string { x.id }
  function LinkId(x: Link): string { x.id }
  function NodeId(x: Node): string { x.id }
  function NodeVersion(x: Node): string { x.version }
  function NodeName(x: Node): string { x.key }
  function EdgeVersion(x: Edge): string { x.version }
  function GraphRefId(x: GraphRef): string { x.id }
  function MappingId(x: Mapping): string { x.id }

  ghost predicate EvidenceNamed(b: Bundle, pack: Pack) {
    && Named(b.documents, DocumentId) && Named(pack.sources, SourceId)
    && Named(b.spans, SpanId) && Named(b.facts, TargetId)
    && Named(b.events, TargetId) && Named(b.links, LinkId)
  }

  /** An approved document, known by the cutoff, and its source. */
  ghost predicate DocumentListed(b: Bundle, pack: Pack, d: Document, cutoff: Contracts.Time) {
    && d.approved && d.firstSeen <= cutoff && d.fetched <= cutoff && d.available <= cutoff
    && (d.sourcePublished.Some? ==> d.sourcePublished.value <= d.available)
    && exists s :: s in pack.sources && s.id == d.id && s.available == d.available && s.face == d.face
  }

  /** An approved span, cut from a listed document after it was there, and reviewed by the cutoff. */
  ghost predicate SpanListed(b: Bundle, s: Span, cutoff: Contracts.Time) {
    && s.approved && s.available <= s.reviewed <= cutoff
    && exists d :: && d in b.documents && d.id == s.documentId
                   && d.firstSeen <= s.available && d.fetched <= s.available && d.available <= s.available
                   && (d.sourcePublished.Some? ==> d.sourcePublished.value <= s.available)
  }

  predicate TargetListed(t: Target, cutoff: Contracts.Time) {
    && t.approved && t.isPublished && t.available <= t.reviewed && t.reviewed <= t.published
    && t.published <= t.recorded && t.recorded <= cutoff
  }

  /** A link from a listed span to a listed fact or event. */
  ghost predicate LinkListed(b: Bundle, l: Link) {
    && (exists s :: s in b.spans && s.id == l.spanId)
    && (|| (l.kind == "fact" && exists t :: t in b.facts && t.id == l.targetId)
        || (l.kind == "event" && exists t :: t in b.events && t.id == l.targetId))
  }

  ghost predicate DocumentsListed(b: Bundle, pack: Pack, cutoff: Contracts.Time) {
    && (forall d :: d in b.documents ==> DocumentListed(b, pack, d, cutoff))
    && forall s :: s in pack.sources ==> exists d :: d in b.documents && d.id == s.id
  }

  ghost predicate SpansListed(b: Bundle, cutoff: Contracts.Time) {
    forall s :: s in b.spans ==> SpanListed(b, s, cutoff)
  }

  /** Every source lists exactly the spans cut from its document. */
  ghost predicate SourcesComplete(b: Bundle, pack: Pack) {
    forall s, x | s in pack.sources :: x in s.spanIds <==> exists p :: p in b.spans && p.id == x && p.documentId == s.id
  }

  ghost predicate TargetsListed(targets: seq<Target>, cutoff: Contracts.Time) {
    forall t :: t in targets ==> TargetListed(t, cutoff)
  }

  ghost predicate LinksListed(b: Bundle) {
    forall l :: l in b.links ==> LinkListed(b, l)
  }

  /** Every fact or event lists exactly the links that point at it. */
  ghost predicate TargetsComplete(links: seq<Link>, targets: seq<Target>, kind: string) {
    forall t, x | t in targets ::
      x in t.linkIds <==> exists l :: l in links && l.id == x && l.kind == kind && l.targetId == t.id
  }

  ghost predicate EvidenceListed(b: Bundle, pack: Pack, cutoff: Contracts.Time) {
    && EvidenceNamed(b, pack)
    && DocumentsListed(b, pack, cutoff) && SpansListed(b, cutoff) && SourcesComplete(b, pack)
    && TargetsListed(b.facts, cutoff) && TargetsListed(b.events, cutoff)
    && LinksListed(b) && TargetsComplete(b.links, b.facts, "fact") && TargetsComplete(b.links, b.events, "event")
  }

  /* ---- The graph ---- */

  ghost predicate GraphNamed(pack: Pack) {
    && Named(pack.nodes, NodeId) && Named(pack.nodes, NodeVersion)
    && Named(pack.nodes, NodeName) && Named(pack.edges, EdgeVersion)
    && Named(pack.refs, GraphRefId) && Named(pack.knownEvents, TargetId)
    && Named(pack.mappings, MappingId)
  }

  /** The node or edge a reference supports, available from this time. */
  ghost predicate Supports(pack: Pack, r: GraphRef, available: Contracts.Time) {
    if r.kind == "node"
    then exists n :: n in pack.nodes && n.version == r.targetId && n.available == available
    else exists x :: x in pack.edges && x.version == r.targetId && x.available == available
  }

  /** The fact a reference rests on, or the event if it names no fact. */
  ghost predicate RestsOn(b: Bundle, r: GraphRef, t: Target) {
    match r.factId
    case Some(f) => t in b.facts && t.id == f
    case None => t in b.events && r.eventId == Some(t.id)
  }

  /** The link a reference names: from its own span to what it rests on, with its own stance. */
  predicate JoinedBy(r: GraphRef, t: Target, l: Link) {
    && l.id == r.linkId && l.stance == r.stance && l.spanId == r.spanId && l.targetId == t.id
    && l.kind == (if r.factId.Some? then "fact" else "event")
  }

  /** A reference, its link, span, evidence and graph object belong together, in time order. */
  ghost predicate RefListed(b: Bundle, pack: Pack, r: GraphRef, cutoff: Contracts.Time) {
    exists t, l, s, available ::
      && RestsOn(b, r, t) && l in b.links && JoinedBy(r, t, l) && s in b.spans && s.id == r.spanId
      && Supports(pack, r, available)
      && s.reviewed <= t.recorded && t.recorded <= r.available && r.available <= available && available <= cutoff
  }

  ghost predicate EdgeListed(pack: Pack, x: Edge) {
    && (exists n :: n in pack.nodes && n.id == x.fromId && n.key == x.fromKey)
    && (exists n :: n in pack.nodes && n.id == x.toId && n.key == x.toKey)
  }

  /** A known event is an event of the bundle as it stands there. */
  ghost predicate KnownListed(b: Bundle, k: Target) {
    exists t :: t in b.events && t.id == k.id && t.face == k.face && t.available == k.available && t.linkIds == k.linkIds
  }

  ghost predicate MappingListed(b: Bundle, pack: Pack, m: Mapping) {
    && (exists n :: n in pack.nodes && n.key == m.companyKey) && (exists n :: n in pack.nodes && n.key == m.industryKey)
    && (exists x :: x in pack.edges && x.version == m.edgeVersion) && (exists t :: t in b.facts && t.id == m.primaryFact)
    && forall y :: y in m.refIds ==> exists r :: r in pack.refs && r.id == y
  }

  ghost predicate CounterexampleListed(pack: Pack, c: Counterexample) {
    && (exists r :: r in pack.refs && r.id == c.refId) && (exists x :: x in pack.edges && x.version == c.edgeVersion)
  }

  ghost predicate RefsListed(b: Bundle, pack: Pack, cutoff: Contracts.Time) {
    forall r :: r in pack.refs ==> RefListed(b, pack, r, cutoff)
  }

  /** Every node and edge lists exactly the references that point at it. */
  ghost predicate ObjectsComplete(pack: Pack) {
    && (forall n, y | n in pack.nodes ::
          y in n.refIds <==> exists r :: r in pack.refs && r.id == y && r.kind == "node" && r.targetId == n.version)
    && (forall x, y | x in pack.edges ::
          y in x.refIds <==> exists r :: r in pack.refs && r.id == y && r.kind == "edge" && r.targetId == x.version)
  }

  ghost predicate EdgesListed(pack: Pack) {
    forall x :: x in pack.edges ==> EdgeListed(pack, x)
  }

  /** The known events are the events of the bundle, all of them. */
  ghost predicate EventsKnown(b: Bundle, pack: Pack) {
    && (forall k :: k in pack.knownEvents ==> KnownListed(b, k))
    && forall t :: t in b.events ==> exists k :: k in pack.knownEvents && k.id == t.id
  }

  /** The references and the known events use the links of the bundle, all of them and no other. */
  ghost predicate LinksUsed(b: Bundle, pack: Pack) {
    && (forall r :: r in pack.refs ==> exists l :: l in b.links && l.id == r.linkId)
    && (forall k, x :: k in pack.knownEvents && x in k.linkIds ==> exists l :: l in b.links && l.id == x)
    && forall l :: l in b.links ==>
         || (exists r :: r in pack.refs && r.linkId == l.id)
         || (exists k :: k in pack.knownEvents && l.id in k.linkIds)
  }

  ghost predicate ProjectionsListed(b: Bundle, pack: Pack) {
    && (forall m :: m in pack.mappings ==> MappingListed(b, pack, m))
    && forall c :: c in pack.counterexamples ==> CounterexampleListed(pack, c)
  }

  ghost predicate GraphListed(b: Bundle, pack: Pack, cutoff: Contracts.Time) {
    && GraphNamed(pack)
    && RefsListed(b, pack, cutoff) && ObjectsComplete(pack) && EdgesListed(pack) && EventsKnown(b, pack)
    && LinksUsed(b, pack) && ProjectionsListed(b, pack)
  }

  /* ---- Indexes and lists ---- */

  lemma NamedExact<T(!new)>(xs: seq<T>, name: T -> string, key: T -> string)
    requires forall x :: name(x) == key(x)
    ensures Named(xs, name) <==> Indexable(xs, key)
  {
    if Indexable(xs, key) {
      forall x | x in xs ensures name(x) != "" {
        var i :| 0 <= i < |xs| && xs[i] == x;
        assert key(xs[i]) != "";
      }
    }
    if Named(xs, name) {
      forall i | 0 <= i < |xs| ensures key(xs[i]) != "" { assert name(xs[i]) != ""; }
      forall i, j | 0 <= i < j < |xs| ensures key(xs[i]) != key(xs[j]) { assert name(xs[i]) != name(xs[j]); }
    }
  }

  lemma EvidenceNamedExact(b: Bundle, pack: Pack)
    ensures EvidenceNamed(b, pack) <==> EvidenceIndexable(b, pack)
  {
    hide Named, Indexable;
    NamedExact(b.documents, DocumentId, DocumentKey);
    NamedExact(pack.sources, SourceId, SourceKey);
    NamedExact(b.spans, SpanId, SpanKey);
    NamedExact(b.facts, TargetId, TargetKey);
    NamedExact(b.events, TargetId, TargetKey);
    NamedExact(b.links, LinkId, LinkKey);
  }

  lemma GraphNamedExact(pack: Pack)
    ensures GraphNamed(pack) <==> GraphIndexable(pack)
  {
    hide Named, Indexable;
    NamedExact(pack.nodes, NodeId, NodeKey);
    NamedExact(pack.nodes, NodeVersion, NodeVersionKey);
    NamedExact(pack.nodes, NodeName, NodeNameKey);
    NamedExact(pack.edges, EdgeVersion, EdgeKey);
    NamedExact(pack.refs, GraphRefId, RefKey);
    NamedExact(pack.knownEvents, TargetId, TargetKey);
    NamedExact(pack.mappings, MappingId, MappingKey);
  }

  /** The index holds the entries of the list, each under its name. */
  ghost predicate Holds<T(!new)>(m: map<string, T>, xs: seq<T>, key: T -> string) {
    && (forall x :: x in xs ==> key(x) in m && m[key(x)] == x)
    && forall k :: k in m ==> m[k] in xs && key(m[k]) == k
  }

  lemma IndexHolds<T(!new)>(m: map<string, T>, xs: seq<T>, key: T -> string)
    ensures IsIndex(m, xs, key) <==> Holds(m, xs, key)
  {
    if IsIndex(m, xs, key) {
      forall x | x in xs ensures key(x) in m && m[key(x)] == x {
        var i :| 0 <= i < |xs| && xs[i] == x;
      }
    }
    if Holds(m, xs, key) {
      forall i | 0 <= i < |xs| ensures key(xs[i]) in m && m[key(xs[i])] == xs[i] { assert xs[i] in xs; }
    }
  }

  function Indexed<T>(xs: seq<T>, key: T -> string): map<string, T> {
    if xs == [] then map[] else Indexed(xs[..|xs| - 1], key)[key(xs[|xs| - 1]) := xs[|xs| - 1]]
  }

  lemma {:induction false} IndexedExact<T(!new)>(xs: seq<T>, key: T -> string)
    requires Indexable(xs, key)
    ensures IsIndex(Indexed(xs, key), xs, key)
    decreases |xs|
  {
    if xs != [] {
      var n := |xs| - 1;
      var front := xs[..n];
      IndexedExact(front, key);
      var m := Indexed(xs, key);
      forall i | 0 <= i < |xs| ensures key(xs[i]) in m && m[key(xs[i])] == xs[i] {
        if i < n { assert front[i] == xs[i]; }
      }
    }
  }

  /* ---- The evidence, both ways ---- */

  /** The indexes of the evidence, as lists of names. */
  ghost predicate EvidenceHeld(b: Bundle, pack: Pack, e: Evidence) {
    && EvidenceNamed(b, pack)
    && Holds(e.documents, b.documents, DocumentKey) && Holds(e.sources, pack.sources, SourceKey)
    && Holds(e.spans, b.spans, SpanKey) && Holds(e.facts, b.facts, TargetKey)
    && Holds(e.events, b.events, TargetKey) && Holds(e.links, b.links, LinkKey)
  }

  lemma EvidenceHeldExact(b: Bundle, pack: Pack, e: Evidence)
    ensures EvidenceIndexed(b, pack, e) <==> EvidenceHeld(b, pack, e)
  {
    hide IsIndex, Holds, EvidenceNamed, EvidenceIndexable;
    EvidenceNamedExact(b, pack);
    IndexHolds(e.documents, b.documents, DocumentKey);
    IndexHolds(e.sources, pack.sources, SourceKey);
    IndexHolds(e.spans, b.spans, SpanKey);
    IndexHolds(e.facts, b.facts, TargetKey);
    IndexHolds(e.events, b.events, TargetKey);
    IndexHolds(e.links, b.links, LinkKey);
  }

  lemma EvidenceExists(b: Bundle, pack: Pack) returns (e: Evidence)
    requires EvidenceNamed(b, pack)
    ensures EvidenceIndexed(b, pack, e)
  {
    hide IsIndex, Indexable, Indexed, EvidenceNamed;
    EvidenceNamedExact(b, pack);
    e := Evidence(Indexed(b.documents, DocumentKey), Indexed(pack.sources, SourceKey), Indexed(b.spans, SpanKey),
                  Indexed(b.facts, TargetKey), Indexed(b.events, TargetKey), Indexed(b.links, LinkKey));
    IndexedExact(b.documents, DocumentKey);
    IndexedExact(pack.sources, SourceKey);
    IndexedExact(b.spans, SpanKey);
    IndexedExact(b.facts, TargetKey);
    IndexedExact(b.events, TargetKey);
    IndexedExact(b.links, LinkKey);
  }

  lemma DocumentExact(b: Bundle, pack: Pack, e: Evidence, d: Document, cutoff: Contracts.Time)
    requires Holds(e.sources, pack.sources, SourceKey)
    ensures DocumentFits(e, d, cutoff) <==> DocumentListed(b, pack, d, cutoff)
  {
    if d.id in e.sources { assert SourceKey(e.sources[d.id]) == d.id; }
    if s :| s in pack.sources && s.id == d.id { assert SourceKey(s) == d.id; }
  }

  lemma SpanExact(b: Bundle, e: Evidence, s: Span, cutoff: Contracts.Time)
    requires Holds(e.documents, b.documents, DocumentKey)
    ensures SpanFits(e, s, cutoff) <==> SpanListed(b, s, cutoff)
  {
    if s.documentId in e.documents { assert DocumentKey(e.documents[s.documentId]) == s.documentId; }
    if d :| d in b.documents && d.id == s.documentId { assert DocumentKey(d) == s.documentId; }
  }

  lemma KnownName<T(!new)>(m: map<string, T>, xs: seq<T>, key: T -> string, k: string)
    requires Holds(m, xs, key)
    ensures k in m <==> exists x :: x in xs && key(x) == k
    ensures k in m ==> forall x :: x in xs && key(x) == k ==> m[k] == x
  {
    if k in m { assert m[k] in xs; }
  }

  lemma SpansExact(spans: seq<Span>, ids: seq<string>, d: string)
    ensures Elements(ids) == SpansOf(spans, d) <==>
            forall x :: x in ids <==> exists p :: p in spans && p.id == x && p.documentId == d
  {
    forall x ensures x in SpansOf(spans, d) <==> exists p :: p in spans && p.id == x && p.documentId == d {
      if x in SpansOf(spans, d) {
        var i :| 0 <= i < |spans| && spans[i].documentId == d && spans[i].id == x;
        assert spans[i] in spans;
      }
    }
    forall x ensures x in Elements(ids) <==> x in ids {}
    hide SpansOf, Elements;
  }

  lemma LinksExact(links: seq<Link>, ids: seq<string>, kind: string, t: string)
    ensures Elements(ids) == LinksTo(links, kind, t) <==>
            forall x :: x in ids <==> exists l :: l in links && l.id == x && l.kind == kind && l.targetId == t
  {
    forall x
      ensures x in LinksTo(links, kind, t) <==> exists l :: l in links && l.id == x && l.kind == kind && l.targetId == t
    {
      if x in LinksTo(links, kind, t) {
        var i :| 0 <= i < |links| && links[i].kind == kind && links[i].targetId == t && links[i].id == x;
        assert links[i] in links;
      }
    }
    forall x ensures x in Elements(ids) <==> x in ids {}
    hide LinksTo, Elements;
  }

  /** The link is listed exactly when its span is known and its target is found in the list of its kind. */
  lemma LinkExact(b: Bundle, pack: Pack, e: Evidence, l: Link)
    requires EvidenceHeld(b, pack, e)
    ensures LinkListed(b, l) <==> TargetOf(e.facts, e.events, l.kind, l.targetId).Some? && l.spanId in e.spans
    ensures TargetOf(e.facts, e.events, l.kind, l.targetId).Some? ==>
              var t := TargetOf(e.facts, e.events, l.kind, l.targetId).value;
              t.id == l.targetId && ((l.kind == "fact" && t in b.facts) || (l.kind == "event" && t in b.events))
  {
    hide EvidenceNamed, Holds;
    KnownName(e.spans, b.spans, SpanKey, l.spanId);
    KnownName(e.facts, b.facts, TargetKey, l.targetId);
    KnownName(e.events, b.events, TargetKey, l.targetId);
    assert forall s: Span :: SpanKey(s) == s.id;
    assert forall t: Target :: TargetKey(t) == t.id;
  }

  /* The conditions of the validator, clause by clause. */

  ghost predicate DocumentsFit(b: Bundle, e: Evidence, cutoff: Contracts.Time) {
    e.sources.Keys == e.documents.Keys && forall i :: 0 <= i < |b.documents| ==> DocumentFits(e, b.documents[i], cutoff)
  }

  ghost predicate SpansFit(b: Bundle, e: Evidence, cutoff: Contracts.Time) {
    forall i :: 0 <= i < |b.spans| ==> SpanFits(e, b.spans[i], cutoff)
  }

  ghost predicate SourcesFit(b: Bundle, pack: Pack) {
    forall i :: 0 <= i < |pack.sources| ==> Elements(pack.sources[i].spanIds) == SpansOf(b.spans, pack.sources[i].id)
  }

  ghost predicate TargetsFit(targets: seq<Target>, cutoff: Contracts.Time) {
    forall i :: 0 <= i < |targets| ==> TargetTimely(targets[i], cutoff)
  }

  ghost predicate LinksFit(b: Bundle, e: Evidence) {
    forall i :: 0 <= i < |b.links| ==> LinkFits(e, b.links[i])
  }

  ghost predicate TargetLinksFit(links: seq<Link>, targets: seq<Target>, kind: string) {
    forall i :: 0 <= i < |targets| ==> Elements(targets[i].linkIds) == LinksTo(links, kind, targets[i].id)
  }

  lemma ClosedClauses(b: Bundle, pack: Pack, e: Evidence, cutoff: Contracts.Time)
    ensures EvidenceClosed(b, pack, e, cutoff) <==>
              && EvidenceIndexed(b, pack, e) && DocumentsFit(b, e, cutoff) && SpansFit(b, e, cutoff) && SourcesFit(b, pack)
              && TargetsFit(b.facts, cutoff) && TargetsFit(b.events, cutoff) && LinksFit(b, e)
              && TargetLinksFit(b.links, b.facts, "fact") && TargetLinksFit(b.links, b.events, "event")
  {
    hide EvidenceIndexed, DocumentFits, SpanFits, TargetTimely, LinkFits, SpansOf, LinksTo, Elements;
  }

  lemma DocumentsAgree(b: Bundle, pack: Pack, e: Evidence, cutoff: Contracts.Time)
    requires EvidenceHeld(b, pack, e)
    ensures DocumentsFit(b, e, cutoff) <==> DocumentsListed(b, pack, cutoff)
  {
    hide Holds, DocumentFits, DocumentListed, EvidenceNamed;
    SourcesAgree(b, pack, e);
    forall d ensures DocumentFits(e, d, cutoff) <==> DocumentListed(b, pack, d, cutoff) {
      DocumentExact(b, pack, e, d, cutoff);
    }
    forall d | DocumentListed(b, pack, d, cutoff) ensures exists s :: s in pack.sources && s.id == d.id {
      DocumentHasSource(b, pack, d, cutoff);
    }
  }

  lemma SpansAgree(b: Bundle, pack: Pack, e: Evidence, cutoff: Contracts.Time)
    requires EvidenceHeld(b, pack, e)
    ensures SpansFit(b, e, cutoff) <==> SpansListed(b, cutoff)
  {
    hide Holds, SpanFits, SpanListed, EvidenceNamed;
    forall s ensures SpanFits(e, s, cutoff) <==> SpanListed(b, s, cutoff) { SpanExact(b, e, s, cutoff); }
  }

  lemma SourceListsAgree(b: Bundle, pack: Pack)
    ensures SourcesFit(b, pack) <==> SourcesComplete(b, pack)
  {
    hide SpansOf, Elements;
    forall s: Source
      ensures Elements(s.spanIds) == SpansOf(b.spans, s.id) <==>
              forall x :: x in s.spanIds <==> exists p :: p in b.spans && p.id == x && p.documentId == s.id
    {
      SpansExact(b.spans, s.spanIds, s.id);
    }
  }

  lemma TargetsAgree(targets: seq<Target>, cutoff: Contracts.Time)
    ensures TargetsFit(targets, cutoff) <==> TargetsListed(targets, cutoff)
  {
    forall t ensures TargetTimely(t, cutoff) <==> TargetListed(t, cutoff) {}
    hide TargetTimely, TargetListed;
    if TargetsFit(targets, cutoff) {
      forall t | t in targets ensures TargetListed(t, cutoff) {
        var i :| 0 <= i < |targets| && targets[i] == t;
      }
    }
  }

  lemma TargetListsAgree(links: seq<Link>, targets: seq<Target>, kind: string)
    ensures TargetLinksFit(links, targets, kind) <==> TargetsComplete(links, targets, kind)
  {
    hide LinksTo, Elements;
    forall t: Target
      ensures Elements(t.linkIds) == LinksTo(links, kind, t.id) <==>
              forall x :: x in t.linkIds <==> exists l :: l in links && l.id == x && l.kind == kind && l.targetId == t.id
    {
      LinksExact(links, t.linkIds, kind, t.id);
    }
  }

  /** When facts and events list the links that point at them, a link needs no more than to be listed itself. */
  lemma LinksAgree(b: Bundle, pack: Pack, e: Evidence)
    requires EvidenceHeld(b, pack, e)
    requires TargetsComplete(b.links, b.facts, "fact") && TargetsComplete(b.links, b.events, "event")
    ensures LinksFit(b, e) <==> LinksListed(b)
  {
    hide EvidenceHeld, TargetOf, LinkListed;
    forall l | l in b.links ensures LinkFits(e, l) <==> LinkListed(b, l) {
      LinkExact(b, pack, e, l);
    }
  }

  ghost predicate Covered<S(!new), T(!new)>(xs: seq<S>, key: S -> string, ys: seq<T>, other: T -> string) {
    forall x :: x in xs ==> exists y :: y in ys && other(y) == key(x)
  }

  lemma CoveredKeys<S(!new), T(!new)>(m: map<string, S>, xs: seq<S>, key: S -> string, n: map<string, T>,
                                                         ys: seq<T>, other: T -> string)
    requires Holds(m, xs, key) && Holds(n, ys, other)
    ensures m.Keys <= n.Keys <==> Covered(xs, key, ys, other)
  {
    if m.Keys <= n.Keys {
      forall x | x in xs ensures exists y :: y in ys && other(y) == key(x) { assert key(x) in n; }
    }
    if Covered(xs, key, ys, other) {
      forall k | k in m.Keys ensures k in n.Keys {
        var y :| y in ys && other(y) == key(m[k]);
        assert other(y) in n;
      }
    }
  }

  lemma SourcesAgree(b: Bundle, pack: Pack, e: Evidence)
    requires EvidenceHeld(b, pack, e)
    ensures e.sources.Keys == e.documents.Keys <==>
              && (forall d :: d in b.documents ==> exists s :: s in pack.sources && s.id == d.id)
              && forall s :: s in pack.sources ==> exists d :: d in b.documents && d.id == s.id
  {
    hide EvidenceNamed, Holds;
    CoveredKeys(e.documents, b.documents, DocumentKey, e.sources, pack.sources, SourceKey);
    CoveredKeys(e.sources, pack.sources, SourceKey, e.documents, b.documents, DocumentKey);
    hide EvidenceHeld;
    SourceNames(b, pack);
    hide Covered;
  }

  lemma SourceNames(b: Bundle, pack: Pack)
    ensures Covered(b.documents, DocumentKey, pack.sources, SourceKey) <==>
              forall d :: d in b.documents ==> exists s :: s in pack.sources && s.id == d.id
    ensures Covered(pack.sources, SourceKey, b.documents, DocumentKey) <==>
              forall s :: s in pack.sources ==> exists d :: d in b.documents && d.id == s.id
  {
  }

  lemma DocumentHasSource(b: Bundle, pack: Pack, d: Document, cutoff: Contracts.Time)
    requires DocumentListed(b, pack, d, cutoff)
    ensures exists s :: s in pack.sources && s.id == d.id
  {
  }

  /** The conditions of the validator and those on the lists, for the same indexes. */
  lemma EvidenceAgrees(b: Bundle, pack: Pack, e: Evidence, cutoff: Contracts.Time)
    requires EvidenceIndexed(b, pack, e)
    ensures EvidenceClosed(b, pack, e, cutoff) <==> EvidenceListed(b, pack, cutoff)
  {
    EvidenceHeldExact(b, pack, e);
    assert EvidenceNamed(b, pack);
    ClosedClauses(b, pack, e, cutoff);
    hide EvidenceClosed, EvidenceIndexed, EvidenceHeld, EvidenceNamed, DocumentsFit, SpansFit, SourcesFit, TargetsFit,
         LinksFit, TargetLinksFit, DocumentsListed, SpansListed, SourcesComplete, TargetsListed, LinksListed, TargetsComplete;
    DocumentsAgree(b, pack, e, cutoff);
    SpansAgree(b, pack, e, cutoff);
    SourceListsAgree(b, pack);
    TargetsAgree(b.facts, cutoff);
    TargetsAgree(b.events, cutoff);
    TargetListsAgree(b.links, b.facts, "fact");
    TargetListsAgree(b.links, b.events, "event");
    if TargetsComplete(b.links, b.facts, "fact") && TargetsComplete(b.links, b.events, "event") { LinksAgree(b, pack, e); }
  }

  /** The evidence closes exactly when the lists agree. */
  lemma EvidenceExact(b: Bundle, pack: Pack, cutoff: Contracts.Time)
    ensures (exists e :: EvidenceClosed(b, pack, e, cutoff)) <==> EvidenceListed(b, pack, cutoff)
  {
    if e :| EvidenceClosed(b, pack, e, cutoff) {
      assert EvidenceIndexed(b, pack, e);
      hide *;
      EvidenceAgrees(b, pack, e, cutoff);
    }
    if EvidenceListed(b, pack, cutoff) {
      assert EvidenceNamed(b, pack);
      hide *;
      var e := EvidenceExists(b, pack);
      EvidenceAgrees(b, pack, e, cutoff);
    }
  }

  /* ---- The graph, both ways ---- */

  ghost predicate GraphHeld(pack: Pack, g: Graph) {
    && GraphNamed(pack)
    && Holds(g.nodes, pack.nodes, ContextPack.NodeKey) && Holds(g.versions, pack.nodes, NodeVersionKey)
    && Holds(g.names, pack.nodes, NodeNameKey) && Holds(g.edges, pack.edges, EdgeKey) && Holds(g.refs, pack.refs, RefKey)
    && Holds(g.known, pack.knownEvents, TargetKey) && Holds(g.mappings, pack.mappings, MappingKey)
  }

  lemma GraphHeldExact(pack: Pack, g: Graph)
    ensures GraphIndexed(pack, g) <==> GraphHeld(pack, g)
  {
    hide IsIndex, Holds, GraphNamed, GraphIndexable;
    GraphNamedExact(pack);
    IndexHolds(g.nodes, pack.nodes, NodeKey);
    IndexHolds(g.versions, pack.nodes, NodeVersionKey);
    IndexHolds(g.names, pack.nodes, NodeNameKey);
    IndexHolds(g.edges, pack.edges, EdgeKey);
    IndexHolds(g.refs, pack.refs, RefKey);
    IndexHolds(g.known, pack.knownEvents, TargetKey);
    IndexHolds(g.mappings, pack.mappings, MappingKey);
  }

  lemma GraphExists(pack: Pack) returns (g: Graph)
    requires GraphNamed(pack)
    ensures GraphIndexed(pack, g)
  {
    hide IsIndex, Indexable, Indexed, GraphNamed;
    GraphNamedExact(pack);
    g := Graph(Indexed(pack.nodes, NodeKey), Indexed(pack.nodes, NodeVersionKey), Indexed(pack.nodes, NodeNameKey),
               Indexed(pack.edges, EdgeKey), Indexed(pack.refs, RefKey), Indexed(pack.knownEvents, TargetKey),
               Indexed(pack.mappings, MappingKey));
    IndexedExact(pack.nodes, NodeKey);
    IndexedExact(pack.nodes, NodeVersionKey);
    IndexedExact(pack.nodes, NodeNameKey);
    IndexedExact(pack.edges, EdgeKey);
    IndexedExact(pack.refs, RefKey);
    IndexedExact(pack.knownEvents, TargetKey);
    IndexedExact(pack.mappings, MappingKey);
  }

  lemma SupportsExact(pack: Pack, g: Graph, r: GraphRef, available: Contracts.Time)
    requires Holds(g.versions, pack.nodes, NodeVersionKey) && Holds(g.edges, pack.edges, EdgeKey)
    ensures ObjectAvailable(g, r) == Some(available) <==> Supports(pack, r, available)
  {
    if r.targetId in g.versions { assert NodeVersionKey(g.versions[r.targetId]) == r.targetId; }
    if r.targetId in g.edges { assert EdgeKey(g.edges[r.targetId]) == r.targetId; }
    if n :| n in pack.nodes && n.version == r.targetId { assert NodeVersionKey(n) == r.targetId; }
    if x :| x in pack.edges && x.version == r.targetId { assert EdgeKey(x) == r.targetId; }
  }

  lemma RestsExact(b: Bundle, e: Evidence, r: GraphRef, t: Target)
    requires Holds(e.facts, b.facts, TargetKey) && Holds(e.events, b.events, TargetKey)
    ensures EvidenceTarget(e, r) == Some(t) <==> RestsOn(b, r, t)
  {
    if r.factId.Some? && r.factId.value in e.facts { assert TargetKey(e.facts[r.factId.value]) == r.factId.value; }
    if r.eventId.Some? && r.eventId.value in e.events { assert TargetKey(e.events[r.eventId.value]) == r.eventId.value; }
    assert TargetKey(t) == t.id;
  }

  lemma RefExact(b: Bundle, pack: Pack, e: Evidence, g: Graph, r: GraphRef, cutoff: Contracts.Time)
    requires EvidenceHeld(b, pack, e) && GraphHeld(pack, g)
    ensures RefFits(e, g, r, cutoff) <==> RefListed(b, pack, r, cutoff)
  {
    hide EvidenceNamed, GraphNamed, Holds, ObjectAvailable, Supports, EvidenceTarget, RestsOn;
    KnownName(e.links, b.links, LinkKey, r.linkId);
    KnownName(e.spans, b.spans, SpanKey, r.spanId);
    assert (forall l: Link :: LinkKey(l) == l.id) && forall s: Span :: SpanKey(s) == s.id;
    forall available: Contracts.Time ensures ObjectAvailable(g, r) == Some(available) <==> Supports(pack, r, available) {
      SupportsExact(pack, g, r, available);
    }
    forall t: Target ensures EvidenceTarget(e, r) == Some(t) <==> RestsOn(b, r, t) { RestsExact(b, e, r, t); }
    if RefFits(e, g, r, cutoff) {
      var t, l, s, available := EvidenceTarget(e, r).value, e.links[r.linkId], e.spans[r.spanId], ObjectAvailable(g, r).value;
      assert RestsOn(b, r, t) && Supports(pack, r, available) && JoinedBy(r, t, l);
    }
  }

  lemma RefsExact(refs: seq<GraphRef>, ids: seq<string>, kind: string, t: string)
    ensures Elements(ids) == RefsTo(refs, kind, t) <==>
            forall y :: y in ids <==> exists r :: r in refs && r.id == y && r.kind == kind && r.targetId == t
  {
    forall y
      ensures y in RefsTo(refs, kind, t) <==> exists r :: r in refs && r.id == y && r.kind == kind && r.targetId == t
    {
      if y in RefsTo(refs, kind, t) {
        var i :| 0 <= i < |refs| && refs[i].kind == kind && refs[i].targetId == t && refs[i].id == y;
        assert refs[i] in refs;
      }
    }
    forall y ensures y in Elements(ids) <==> y in ids {}
    hide RefsTo, Elements;
  }

  lemma EdgeExact(pack: Pack, g: Graph, x: Edge)
    requires Holds(g.nodes, pack.nodes, ContextPack.NodeKey)
    ensures EdgeFits(g, x) <==> EdgeListed(pack, x)
  {
    hide Holds;
    KnownName(g.nodes, pack.nodes, NodeKey, x.fromId);
    KnownName(g.nodes, pack.nodes, NodeKey, x.toId);
    assert forall n: Node :: NodeKey(n) == n.id;
  }

  lemma KnownExact(b: Bundle, e: Evidence, k: Target)
    requires Holds(e.events, b.events, TargetKey)
    ensures KnownFits(e, k) <==> KnownListed(b, k)
  {
    hide Holds;
    KnownName(e.events, b.events, TargetKey, k.id);
    assert forall t: Target :: TargetKey(t) == t.id;
  }

  lemma MappingExact(b: Bundle, pack: Pack, e: Evidence, g: Graph, m: Mapping)
    requires EvidenceHeld(b, pack, e) && GraphHeld(pack, g)
    ensures MappingFits(e, g, m) <==> MappingListed(b, pack, m)
  {
    hide Holds, EvidenceNamed, GraphNamed;
    KnownName(g.names, pack.nodes, NodeNameKey, m.companyKey);
    KnownName(g.names, pack.nodes, NodeNameKey, m.industryKey);
    KnownName(g.edges, pack.edges, EdgeKey, m.edgeVersion);
    KnownName(e.facts, b.facts, TargetKey, m.primaryFact);
    forall y ensures y in g.refs.Keys <==> exists r :: r in pack.refs && r.id == y {
      KnownName(g.refs, pack.refs, RefKey, y);
      assert forall r: GraphRef :: RefKey(r) == r.id;
    }
    assert Elements(m.refIds) <= g.refs.Keys <==> forall y :: y in m.refIds ==> y in g.refs.Keys;
    assert (forall n: Node :: NodeNameKey(n) == n.key) && (forall x: Edge :: EdgeKey(x) == x.version);
    assert forall t: Target :: TargetKey(t) == t.id;
  }

  lemma CounterexampleExact(pack: Pack, g: Graph, c: Counterexample)
    requires GraphHeld(pack, g)
    ensures CounterexampleFits(g, c) <==> CounterexampleListed(pack, c)
  {
    hide Holds, GraphNamed;
    KnownName(g.refs, pack.refs, RefKey, c.refId);
    KnownName(g.edges, pack.edges, EdgeKey, c.edgeVersion);
    assert (forall r: GraphRef :: RefKey(r) == r.id) && forall x: Edge :: EdgeKey(x) == x.version;
  }

  /* The conditions of the graph validator, clause by clause. */

  ghost predicate RefsFit(pack: Pack, e: Evidence, g: Graph, cutoff: Contracts.Time) {
    forall i :: 0 <= i < |pack.refs| ==> RefFits(e, g, pack.refs[i], cutoff)
  }

  ghost predicate ObjectsFit(pack: Pack) {
    && (forall i :: 0 <= i < |pack.nodes| ==> Elements(pack.nodes[i].refIds) == RefsTo(pack.refs, "node", pack.nodes[i].version))
    && (forall i :: 0 <= i < |pack.edges| ==> Elements(pack.edges[i].refIds) == RefsTo(pack.refs, "edge", pack.edges[i].version))
  }

  ghost predicate EdgesFit(pack: Pack, g: Graph) {
    forall i :: 0 <= i < |pack.edges| ==> EdgeFits(g, pack.edges[i])
  }

  ghost predicate EventsFit(pack: Pack, e: Evidence, g: Graph) {
    (forall i :: 0 <= i < |pack.knownEvents| ==> KnownFits(e, pack.knownEvents[i])) && g.known.Keys == e.events.Keys
  }

  ghost predicate UseFits(pack: Pack, e: Evidence) {
    UsedLinks(pack.refs, pack.knownEvents) == e.links.Keys
  }

  ghost predicate ProjectionsFit(pack: Pack, e: Evidence, g: Graph) {
    && (forall i :: 0 <= i < |pack.mappings| ==> MappingFits(e, g, pack.mappings[i]))
    && (forall i :: 0 <= i < |pack.counterexamples| ==> CounterexampleFits(g, pack.counterexamples[i]))
  }

  lemma GraphClauses(b: Bundle, pack: Pack, e: Evidence, g: Graph, cutoff: Contracts.Time)
    ensures GraphClosed(b, pack, e, g, cutoff) <==>
              && GraphIndexed(pack, g) && RefsFit(pack, e, g, cutoff) && ObjectsFit(pack) && EdgesFit(pack, g)
              && EventsFit(pack, e, g) && UseFits(pack, e) && ProjectionsFit(pack, e, g)
  {
    hide GraphIndexed, RefFits, EdgeFits, KnownFits, MappingFits, CounterexampleFits, RefsTo, UsedLinks, Elements;
  }

  lemma RefsAgree(b: Bundle, pack: Pack, e: Evidence, g: Graph, cutoff: Contracts.Time)
    requires EvidenceHeld(b, pack, e) && GraphHeld(pack, g)
    ensures RefsFit(pack, e, g, cutoff) <==> RefsListed(b, pack, cutoff)
  {
    hide EvidenceHeld, GraphHeld, RefFits, RefListed;
    forall r ensures RefFits(e, g, r, cutoff) <==> RefListed(b, pack, r, cutoff) { RefExact(b, pack, e, g, r, cutoff); }
  }

  lemma ObjectsAgree(pack: Pack)
    ensures ObjectsFit(pack) <==> ObjectsComplete(pack)
  {
    hide RefsTo, Elements;
    forall ids, kind, t
      ensures Elements(ids) == RefsTo(pack.refs, kind, t) <==>
              forall y :: y in ids <==> exists r :: r in pack.refs && r.id == y && r.kind == kind && r.targetId == t
    {
      RefsExact(pack.refs, ids, kind, t);
    }
  }

  lemma EdgesAgree(pack: Pack, g: Graph)
    requires GraphHeld(pack, g)
    ensures EdgesFit(pack, g) <==> EdgesListed(pack)
  {
    hide GraphNamed, Holds, EdgeFits, EdgeListed;
    forall x ensures EdgeFits(g, x) <==> EdgeListed(pack, x) { EdgeExact(pack, g, x); }
  }

  lemma KnownNames(b: Bundle, pack: Pack)
    ensures Covered(b.events, TargetKey, pack.knownEvents, TargetKey) <==>
              forall t :: t in b.events ==> exists k :: k in pack.knownEvents && k.id == t.id
    ensures Covered(pack.knownEvents, TargetKey, b.events, TargetKey) <==>
              forall k :: k in pack.knownEvents ==> exists t :: t in b.events && t.id == k.id
  {
  }

  lemma EventsAgree(b: Bundle, pack: Pack, e: Evidence, g: Graph)
    requires EvidenceHeld(b, pack, e) && GraphHeld(pack, g)
    ensures EventsFit(pack, e, g) <==> EventsKnown(b, pack)
  {
    hide GraphNamed, EvidenceNamed, Holds, KnownFits, Covered;
    forall k ensures KnownFits(e, k) <==> KnownListed(b, k) { KnownExact(b, e, k); }
    CoveredKeys(e.events, b.events, TargetKey, g.known, pack.knownEvents, TargetKey);
    CoveredKeys(g.known, pack.knownEvents, TargetKey, e.events, b.events, TargetKey);
    hide EvidenceHeld, GraphHeld;
    KnownNames(b, pack);
    KnownCovers(b, pack);
    hide KnownListed;
  }

  lemma KnownCovers(b: Bundle, pack: Pack)
    ensures forall k :: KnownListed(b, k) ==> exists t :: t in b.events && t.id == k.id
  {
  }

  lemma UseAgrees(b: Bundle, pack: Pack, e: Evidence)
    requires EvidenceHeld(b, pack, e)
    ensures UseFits(pack, e) <==> LinksUsed(b, pack)
  {
    hide EvidenceNamed, Holds;
    forall x
      ensures x in e.links.Keys <==> exists l :: l in b.links && l.id == x
    {
      KnownName(e.links, b.links, LinkKey, x);
      assert forall l: Link :: LinkKey(l) == l.id;
    }
    forall x
      ensures x in UsedLinks(pack.refs, pack.knownEvents) <==>
                || (exists r :: r in pack.refs && r.linkId == x)
                || (exists k :: k in pack.knownEvents && x in k.linkIds)
    {
      UsedExact(pack.refs, pack.knownEvents, x);
    }
    hide UsedLinks;
    if UseFits(pack, e) {
      forall r | r in pack.refs ensures exists l :: l in b.links && l.id == r.linkId { assert r.linkId in e.links.Keys; }
      forall k, x | k in pack.knownEvents && x in k.linkIds ensures exists l :: l in b.links && l.id == x {
        assert x in e.links.Keys;
      }
      forall l | l in b.links
        ensures || (exists r :: r in pack.refs && r.linkId == l.id)
                || (exists k :: k in pack.knownEvents && l.id in k.linkIds)
      {
        assert l.id in e.links.Keys;
      }
    }
    if LinksUsed(b, pack) {
      assert forall x :: x in UsedLinks(pack.refs, pack.knownEvents) <==> x in e.links.Keys;
    }
  }

  lemma UsedExact(refs: seq<GraphRef>, known: seq<Target>, x: string)
    ensures x in UsedLinks(refs, known) <==>
              || (exists r :: r in refs && r.linkId == x)
              || (exists k :: k in known && x in k.linkIds)
  {
    if x in UsedLinks(refs, known) { UsedFrom(refs, known, x); }
    if r :| r in refs && r.linkId == x {
      var i :| 0 <= i < |refs| && refs[i] == r;
    }
    if k :| k in known && x in k.linkIds {
      var i :| 0 <= i < |known| && known[i] == k;
    }
  }

  lemma ProjectionsAgree(b: Bundle, pack: Pack, e: Evidence, g: Graph)
    requires EvidenceHeld(b, pack, e) && GraphHeld(pack, g)
    ensures ProjectionsFit(pack, e, g) <==> ProjectionsListed(b, pack)
  {
    hide EvidenceHeld, GraphHeld, MappingFits, MappingListed, CounterexampleFits, CounterexampleListed;
    forall m ensures MappingFits(e, g, m) <==> MappingListed(b, pack, m) { MappingExact(b, pack, e, g, m); }
    forall c ensures CounterexampleFits(g, c) <==> CounterexampleListed(pack, c) { CounterexampleExact(pack, g, c); }
  }

  lemma GraphAgrees(b: Bundle, pack: Pack, e: Evidence, g: Graph, cutoff: Contracts.Time)
    requires EvidenceIndexed(b, pack, e) && GraphIndexed(pack, g)
    ensures GraphClosed(b, pack, e, g, cutoff) <==> GraphListed(b, pack, cutoff)
  {
    EvidenceHeldExact(b, pack, e);
    GraphHeldExact(pack, g);
    assert GraphNamed(pack);
    GraphClauses(b, pack, e, g, cutoff);
    hide GraphClosed, GraphIndexed, EvidenceIndexed, EvidenceHeld, GraphHeld, GraphNamed, RefsFit, ObjectsFit, EdgesFit, EventsFit,
         UseFits, ProjectionsFit, RefsListed, ObjectsComplete, EdgesListed, EventsKnown, LinksUsed, ProjectionsListed;
    RefsAgree(b, pack, e, g, cutoff);
    ObjectsAgree(pack);
    EdgesAgree(pack, g);
    EventsAgree(b, pack, e, g);
    UseAgrees(b, pack, e);
    ProjectionsAgree(b, pack, e, g);
  }

  /** The graph closes over the evidence exactly when the lists agree. */
  lemma {:induction false} GraphExact(b: Bundle, pack: Pack, e: Evidence, cutoff: Contracts.Time)
    requires EvidenceIndexed(b, pack, e)
    ensures (exists g :: GraphClosed(b, pack, e, g, cutoff)) <==> GraphListed(b, pack, cutoff)
  {
    if g :| GraphClosed(b, pack, e, g, cutoff) {
      assert GraphIndexed(pack, g);
      hide *;
      GraphAgrees(b, pack, e, g, cutoff);
    }
    if GraphListed(b, pack, cutoff) {
      assert GraphNamed(pack);
      hide *;
      var g := GraphExists(pack);
      GraphAgrees(b, pack, e, g, cutoff);
    }
  }

  /* ---- The validators ---- */

  /** The two validators, run one after the other, accept exactly the packs whose lists agree. */
  method Accept(b: Bundle, pack: Pack, sourceCutoff: Contracts.Time, contextCutoff: Contracts.Time) returns (ok: bool)
    ensures ok <==> EvidenceListed(b, pack, sourceCutoff) && GraphListed(b, pack, contextCutoff)
  {
    hide EvidenceListed, GraphListed, GraphClosed, EvidenceIndexed;
    var e := ValidateDocumentsAndLinks(b, pack, sourceCutoff);
    EvidenceExact(b, pack, sourceCutoff);
    if e.None? { return false; }
    var g := ValidateGraph(b, pack, e.value, contextCutoff);
    GraphExact(b, pack, e.value, contextCutoff);
    ok := g.Some?;
  }
}
