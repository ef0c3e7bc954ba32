/**
 The building blocks of recording a consumption: verifying the payloads against
 the closure, writing them to the content store, and inserting the rows.
 */
module StoreRecording {
  import opened Basics
  import opened Contracts
  import opened ObservationLog
  import opened RetentionGraph
  import opened RetentionIndex
  import opened Sorting
  import opened Ledgers
  import opened Databases

  /* ---- Building the closure and receipt indexes ---- */

  method IndexReleases(nodes: seq<Node>) returns (index: map<Id, ReleaseRow>)
    ensures index == ReleaseIndex(nodes)
  {
    index := map[];
    for i := 0 to |nodes|
      invariant index == ReleaseIndex(nodes[..i])
    {
      assert nodes[..i + 1][..i] == nodes[..i];
      index := index[nodes[i].Id() := ReleaseRow(nodes[i].manifestDocumentHash, nodes[i].manifestSize)];
    }
    assert nodes[..|nodes|] == nodes;
  }

  ghost function EdgesOf(n: Node, deps: seq<Id>): set<(Id, Id)> {
    set d | d in deps :: (n.Id(), d)
  }

  lemma DependencyIndexSnoc(nodes: seq<Node>, i: nat)
    requires i < |nodes|
    ensures DependencyIndex(nodes[..i + 1]) == DependencyIndex(nodes[..i]) + EdgesOf(nodes[i], nodes[i].dependencies)
  {
    var front, more := nodes[..i], nodes[..i + 1];
    forall e | e in DependencyIndex(front) ensures e in DependencyIndex(more) {
      var a, b :| 0 <= a < |front| && 0 <= b < |front[a].dependencies| && (front[a].Id(), front[a].dependencies[b]) == e;
      assert more[a] == front[a];
    }
    forall e | e in EdgesOf(nodes[i], nodes[i].dependencies) ensures e in DependencyIndex(more) {
      var b :| 0 <= b < |nodes[i].dependencies| && nodes[i].dependencies[b] == e.1;
      assert more[i] == nodes[i];
    }
    forall e | e in DependencyIndex(more)
      ensures e in DependencyIndex(front) + EdgesOf(nodes[i], nodes[i].dependencies)
    {
      var a, b :| 0 <= a < |more| && 0 <= b < |more[a].dependencies| && (more[a].Id(), more[a].dependencies[b]) == e;
      if a < i { assert front[a] == more[a]; }
    }
  }

  method IndexDependencies(nodes: seq<Node>) returns (edges: set<(Id, Id)>)
    ensures edges == DependencyIndex(nodes)
  {
    edges := {};
    for i := 0 to |nodes|
      invariant edges == DependencyIndex(nodes[..i])
    {
      ghost var before := edges;
      var deps := nodes[i].dependencies;
      for j := 0 to |deps|
        invariant edges == before + EdgesOf(nodes[i], deps[..j])
      {
        assert deps[..j + 1] == deps[..j] + [deps[j]];
        assert EdgesOf(nodes[i], deps[..j + 1]) == EdgesOf(nodes[i], deps[..j]) + {(nodes[i].Id(), deps[j])};
        edges := edges + {(nodes[i].Id(), deps[j])};
      }
      assert deps[..|deps|] == deps;
      DependencyIndexSnoc(nodes, i);
    }
    assert nodes[..|nodes|] == nodes;
  }

  method IndexArtifacts(nodes: seq<Node>) returns (index: map<(Id, Id), Artifact>)
    ensures index == ArtifactIndex(nodes)
  {
    index := map[];
    for i := 0 to |nodes|
      invariant index == ArtifactIndex(nodes[..i])
    {
      ghost var before := index;
      var artifacts := nodes[i].artifacts;
      for j := 0 to |artifacts|
        invariant index == AddArtifacts(before, nodes[i].Id(), artifacts[..j])
      {
        assert artifacts[..j + 1][..j] == artifacts[..j];
        index := index[(nodes[i].Id(), artifacts[j].artifactId) := artifacts[j]];
      }
      assert artifacts[..|artifacts|] == artifacts;
      assert nodes[..i + 1][..i] == nodes[..i];
    }
    assert nodes[..|nodes|] == nodes;
  }

  method IndexReceipt(artifacts: seq<Artifact>) returns (index: map<Id, Artifact>)
    ensures index == ReceiptIndex(artifacts)
  {
    index := map[];
    for j := 0 to |artifacts|
      invariant index == ReceiptIndex(artifacts[..j])
    {
      assert artifacts[..j + 1][..j] == artifacts[..j];
      index := index[artifacts[j].artifactId := artifacts[j]];
    }
    assert artifacts[..|artifacts|] == artifacts;
  }

  /** Two normal artifact lists with the same descriptors are the same list. */
  lemma {:induction false} SameDescriptors(a: seq<Artifact>, b: seq<Artifact>)
    requires ArtifactsNormal(a) && ArtifactsNormal(b) && ReceiptIndex(a) == ReceiptIndex(b)
    ensures a == b
  {
    NormalArtifactsDistinct(a);
    NormalArtifactsDistinct(b);
    DescriptorKeys(a);
    DescriptorKeys(b);
    SortedUnique(ArtifactIds(a), ArtifactIds(b));
    ReceiptIndexExact(a);
    ReceiptIndexExact(b);
    forall j | 0 <= j < |a| ensures a[j] == b[j] {
      assert ArtifactIds(a)[j] == ArtifactIds(b)[j];
    }
  }

  lemma {:induction false} DescriptorKeys(a: seq<Artifact>)
    requires ArtifactsNormal(a)
    ensures Elements(ArtifactIds(a)) == ReceiptIndex(a).Keys && StrictlySorted(ArtifactIds(a))
  {
    NormalArtifactsDistinct(a);
    ReceiptIndexExact(a);
    forall x | x in ReceiptIndex(a) ensures x in ArtifactIds(a) {
      var j :| 0 <= j < |a| && a[j].artifactId == x;
      assert ArtifactIds(a)[j] == x;
    }
  }

  /* ---- Payloads ---- */

  /** The contents to store, one per digest. */
  type Specs = map<Digest, Bytes>

  ghost predicate SpecsFrom(sha: Sha, specs: Specs, contents: iset<Bytes>) {
    && (forall c :: c in contents ==> sha(Blob(c)) in specs && specs[sha(Blob(c))] == c)
    && (forall d :: d in specs ==> specs[d] in contents && sha(Blob(specs[d])) == d)
  }

  /** Files one payload under its digest, unless another content has it. */
  method AddSpec(sha: Sha, specs: Specs, content: Bytes, ghost contents: iset<Bytes>) returns (r: Option<Specs>)
    requires SpecsFrom(sha, specs, contents)
    ensures r.None? ==> exists c :: c in contents && sha(Blob(c)) == sha(Blob(content)) && c != content
    ensures r.Some? ==> SpecsFrom(sha, r.value, contents + iset{content})
  {
    var digest := sha(Blob(content));
    if digest in specs && specs[digest] != content { return None; }
    r := Some(specs[digest := content]);
  }

  ghost predicate ArtifactPayloadOk(sha: Sha, q: Consumption, key: (Id, Id), a: Artifact) {
    key in q.artifacts && PayloadVerifies(sha, q.artifacts[key], a.hash, a.sizeBytes)
  }

  ghost predicate Contradicted(sha: Sha, q: Consumption) {
    exists a, b :: a in q.artifacts.Values + q.manifests.Values && b in q.artifacts.Values + q.manifests.Values
                   && sha(Blob(a)) == sha(Blob(b)) && a != b
  }

  ghost function ContentsOf<K>(payloads: map<K, Bytes>, keys: set<K>): iset<Bytes> {
    iset k | k in keys && k in payloads :: payloads[k]
  }

  lemma ContentsStep<K>(payloads: map<K, Bytes>, keys: set<K>, k: K)
    requires k in payloads
    ensures ContentsOf(payloads, keys + {k}) == ContentsOf(payloads, keys) + iset{payloads[k]}
  {
    forall c | c in ContentsOf(payloads, keys) ensures c in ContentsOf(payloads, keys + {k}) {
      var x :| x in keys && x in payloads && payloads[x] == c;
      assert x in keys + {k};
    }
    assert k in keys + {k};
  }

  lemma ContentsInValues<K>(payloads: map<K, Bytes>, keys: set<K>, c: Bytes)
    requires c in ContentsOf(payloads, keys)
    ensures c in payloads.Values
  {
    var k :| k in keys && k in payloads && payloads[k] == c;
    assert k in payloads.Keys;
  }

  /** Checks every artifact payload against its descriptor. */
  method CollectArtifacts(sha: Sha, q: Consumption, index: map<(Id, Id), Artifact>) returns (r: Option<Specs>)
    requires q.artifacts.Keys == index.Keys
    ensures r.Some? ==> SpecsFrom(sha, r.value, ContentsOf(q.artifacts, q.artifacts.Keys))
    ensures r.Some? ==> forall key :: key in index ==> ArtifactPayloadOk(sha, q, key, index[key])
    ensures r.None? ==> Contradicted(sha, q) || exists key :: key in index && !ArtifactPayloadOk(sha, q, key, index[key])
  {
    var specs: Specs := map[];
    var pending := index.Keys;
    assert ContentsOf(q.artifacts, {}) == iset{};
    assert q.artifacts.Keys - pending == {};
    while pending != {}
      invariant pending <= index.Keys
      invariant SpecsFrom(sha, specs, ContentsOf(q.artifacts, q.artifacts.Keys - pending))
      invariant forall key :: key in index && key !in pending ==> ArtifactPayloadOk(sha, q, key, index[key])
      decreases pending
    {
      var key :| key in pending;
      var content := q.artifacts[key];
      if sha(Blob(content)) != index[key].hash || |content| != index[key].sizeBytes { return None; }
      ghost var before := q.artifacts.Keys - pending;
      var added := AddSpec(sha, specs, content, ContentsOf(q.artifacts, before));
      if added.None? {
        ArtifactClash(sha, q, before, key);
        return None;
      }
      ContentsStep(q.artifacts, before, key);
      specs, pending := added.value, pending - {key};
      assert q.artifacts.Keys - pending == before + {key};
    }
    assert q.artifacts.Keys - pending == q.artifacts.Keys;
    r := Some(specs);
  }

  lemma ArtifactClash(sha: Sha, q: Consumption, keys: set<(Id, Id)>, key: (Id, Id))
    requires key in q.artifacts
    requires exists c :: c in ContentsOf(q.artifacts, keys) && sha(Blob(c)) == sha(Blob(q.artifacts[key])) && c != q.artifacts[key]
    ensures Contradicted(sha, q)
  {
    var c :| c in ContentsOf(q.artifacts, keys) && sha(Blob(c)) == sha(Blob(q.artifacts[key])) && c != q.artifacts[key];
    ContentsInValues(q.artifacts, keys, c);
    assert q.artifacts[key] in q.artifacts.Values;
  }

  ghost predicate ManifestPayloadOk(sha: Sha, q: Consumption, n: Node) {
    n.Id() in q.manifests && PayloadVerifies(sha, q.manifests[n.Id()], n.manifestDocumentHash, n.manifestSize)
  }

  ghost function ManifestContents(q: Consumption, nodes: seq<Node>): iset<Bytes> {
    iset i | 0 <= i < |nodes| && nodes[i].Id() in q.manifests :: q.manifests[nodes[i].Id()]
  }

  /** Adds every sealed manifest to the contents already collected. */
  method CollectManifests(sha: Sha, q: Consumption, nodes: seq<Node>, specs: Specs) returns (r: Option<Specs>)
    requires SpecsFrom(sha, specs, ContentsOf(q.artifacts, q.artifacts.Keys))
    requires forall i :: 0 <= i < |nodes| ==> nodes[i].Id() in q.manifests
    ensures r.Some? ==>
              SpecsFrom(sha, r.value, ContentsOf(q.artifacts, q.artifacts.Keys) + ManifestContents(q, nodes))
    ensures r.Some? ==> forall i :: 0 <= i < |nodes| ==> ManifestPayloadOk(sha, q, nodes[i])
    ensures r.None? ==> Contradicted(sha, q) || exists i :: 0 <= i < |nodes| && !ManifestPayloadOk(sha, q, nodes[i])
  {
    var all := specs;
    ghost var base := ContentsOf(q.artifacts, q.artifacts.Keys);
    assert base + ManifestContents(q, nodes[..0]) == base;
    for i := 0 to |nodes|
      invariant SpecsFrom(sha, all, base + ManifestContents(q, nodes[..i]))
      invariant forall k :: 0 <= k < i ==> ManifestPayloadOk(sha, q, nodes[k])
    {
      var content := q.manifests[nodes[i].Id()];
      if sha(Blob(content)) != nodes[i].manifestDocumentHash || |content| != nodes[i].manifestSize {
        assert !ManifestPayloadOk(sha, q, nodes[i]);
        return None;
      }
      var added := AddSpec(sha, all, content, base + ManifestContents(q, nodes[..i]));
      if added.None? {
        ManifestClash(sha, q, nodes, i);
        return None;
      }
      ManifestStep(q, nodes, i);
      assert base + ManifestContents(q, nodes[..i]) + iset{content} == base + ManifestContents(q, nodes[..i + 1]);
      all := added.value;
    }
    assert nodes[..|nodes|] == nodes;
    r := Some(all);
  }

  lemma ManifestStep(q: Consumption, nodes: seq<Node>, i: nat)
    requires i < |nodes| && nodes[i].Id() in q.manifests
    ensures ManifestContents(q, nodes[..i + 1]) == ManifestContents(q, nodes[..i]) + iset{q.manifests[nodes[i].Id()]}
  {
    var front, more := nodes[..i], nodes[..i + 1];
    forall c | c in ManifestContents(q, front) ensures c in ManifestContents(q, more) {
      var k :| 0 <= k < |front| && front[k].Id() in q.manifests && q.manifests[front[k].Id()] == c;
      assert more[k] == front[k];
    }
    assert more[i] == nodes[i];
    forall c | c in ManifestContents(q, more) ensures c in ManifestContents(q, front) + iset{q.manifests[nodes[i].Id()]} {
      var k :| 0 <= k < |more| && more[k].Id() in q.manifests && q.manifests[more[k].Id()] == c;
      if k < i { assert front[k] == more[k]; }
    }
  }

  lemma ManifestClash(sha: Sha, q: Consumption, nodes: seq<Node>, i: nat)
    requires i < |nodes| && nodes[i].Id() in q.manifests
    requires var content := q.manifests[nodes[i].Id()];
             exists c :: c in ContentsOf(q.artifacts, q.artifacts.Keys) + ManifestContents(q, nodes[..i])
                         && sha(Blob(c)) == sha(Blob(content)) && c != content
    ensures Contradicted(sha, q)
  {
    var content := q.manifests[nodes[i].Id()];
    var c :| c in ContentsOf(q.artifacts, q.artifacts.Keys) + ManifestContents(q, nodes[..i])
             && sha(Blob(c)) == sha(Blob(content)) && c != content;
    if c in ContentsOf(q.artifacts, q.artifacts.Keys) { ContentsInValues(q.artifacts, q.artifacts.Keys, c); }
    assert c in q.artifacts.Values + q.manifests.Values;
    assert content in q.manifests.Values;
  }

  /** The contents to store are those the closure requires, with its sizes. */
  ghost predicate SpecsCover(sha: Sha, specs: Specs, nodes: seq<Node>) {
    && specs.Keys == RequiredDigests(nodes)
    && (forall d :: d in specs ==> sha(Blob(specs[d])) == d)
    && forall i :: 0 <= i < |nodes| ==> NodeCovered(specs, nodes[i])
  }

  ghost predicate NodeCovered(specs: Specs, n: Node) {
    && n.manifestDocumentHash in specs && |specs[n.manifestDocumentHash]| == n.manifestSize
    && forall j :: 0 <= j < |n.artifacts| ==>
         n.artifacts[j].hash in specs && |specs[n.artifacts[j].hash]| == n.artifacts[j].sizeBytes
  }

  ghost predicate PayloadsCollected(sha: Sha, q: Consumption, specs: Specs) {
    var nodes := q.closure.releases;
    && SpecsFrom(sha, specs, ContentsOf(q.artifacts, q.artifacts.Keys) + ManifestContents(q, nodes))
    && q.artifacts.Keys == ArtifactIndex(nodes).Keys && q.manifests.Keys == NodeIds(nodes)
    && (forall key :: key in ArtifactIndex(nodes) ==> ArtifactPayloadOk(sha, q, key, ArtifactIndex(nodes)[key]))
    && (forall i :: 0 <= i < |nodes| ==> ManifestPayloadOk(sha, q, nodes[i]))
  }

  lemma CollectedNodes(sha: Sha, q: Consumption, specs: Specs, i: nat)
    requires NodesProper(q.closure.releases) && PayloadsCollected(sha, q, specs) && i < |q.closure.releases|
    ensures NodePayloads(sha, q, q.closure.releases[i]) && NodeCovered(specs, q.closure.releases[i])
  {
    hide ArtifactIndex, NodesProper, NodeIds;
    var n := q.closure.releases[i];
    assert ManifestPayloadOk(sha, q, n);
    assert q.manifests[n.Id()] in ManifestContents(q, q.closure.releases);
    forall j | 0 <= j < |n.artifacts|
      ensures var key := (n.Id(), n.artifacts[j].artifactId);
              && key in q.artifacts && PayloadVerifies(sha, q.artifacts[key], n.artifacts[j].hash, n.artifacts[j].sizeBytes)
              && n.artifacts[j].hash in specs && |specs[n.artifacts[j].hash]| == n.artifacts[j].sizeBytes
    {
      ArtifactIndexed(q.closure.releases, i, j);
      var key := (n.Id(), n.artifacts[j].artifactId);
      assert ArtifactPayloadOk(sha, q, key, n.artifacts[j]);
      assert q.artifacts[key] in ContentsOf(q.artifacts, q.artifacts.Keys);
    }
  }

  lemma ManifestRequired(nodes: seq<Node>, i: nat)
    requires i < |nodes|
    ensures nodes[i].manifestDocumentHash in RequiredDigests(nodes)
  {
  }

  lemma ArtifactRequired(nodes: seq<Node>, i: nat, j: nat)
    requires i < |nodes| && j < |nodes[i].artifacts|
    ensures nodes[i].artifacts[j].hash in RequiredDigests(nodes)
  {
  }

  lemma CollectedKeys(sha: Sha, q: Consumption, specs: Specs)
    requires NodesProper(q.closure.releases) && PayloadsCollected(sha, q, specs)
    ensures specs.Keys == RequiredDigests(q.closure.releases)
  {
    var nodes := q.closure.releases;
    hide ArtifactIndex, NodesProper, NodeIds;
    forall d | d in specs ensures d in RequiredDigests(nodes) {
      var c := specs[d];
      if c in ManifestContents(q, nodes) {
        var i :| 0 <= i < |nodes| && nodes[i].Id() in q.manifests && q.manifests[nodes[i].Id()] == c;
        assert ManifestPayloadOk(sha, q, nodes[i]);
        ManifestRequired(nodes, i);
      } else {
        var key :| key in q.artifacts && q.artifacts[key] == c;
        assert ArtifactPayloadOk(sha, q, key, ArtifactIndex(nodes)[key]);
        var i, j := IndexedArtifact(nodes, key);
        ArtifactRequired(nodes, i, j);
      }
    }
    forall d | d in RequiredDigests(nodes) ensures d in specs {
      if i :| 0 <= i < |nodes| && nodes[i].manifestDocumentHash == d {
        CollectedNodes(sha, q, specs, i);
      } else {
        var i, j :| 0 <= i < |nodes| && 0 <= j < |nodes[i].artifacts| && nodes[i].artifacts[j].hash == d;
        CollectedNodes(sha, q, specs, i);
      }
    }
  }

  lemma CollectedCollisionFree(sha: Sha, q: Consumption, specs: Specs)
    requires PayloadsCollected(sha, q, specs)
    ensures CollisionFree(sha, q)
  {
    hide ArtifactIndex, ArtifactPayloadOk, ManifestPayloadOk;
    var nodes := q.closure.releases;
    var contents := q.artifacts.Values + q.manifests.Values;
    forall c | c in contents ensures c in ContentsOf(q.artifacts, q.artifacts.Keys) + ManifestContents(q, nodes) {
      if c in q.artifacts.Values {
        var key :| key in q.artifacts && q.artifacts[key] == c;
      } else {
        var r :| r in q.manifests && q.manifests[r] == c;
        assert r in NodeIds(nodes);
        var i :| 0 <= i < |nodes| && nodes[i].Id() == r;
        assert q.manifests[nodes[i].Id()] == c;
      }
    }
  }

  lemma SpecDigests(sha: Sha, specs: Specs, contents: iset<Bytes>)
    requires SpecsFrom(sha, specs, contents)
    ensures forall d :: d in specs ==> sha(Blob(specs[d])) == d
  {
  }

  lemma CollectedMatches(sha: Sha, q: Consumption, specs: Specs)
    requires NodesProper(q.closure.releases) && PayloadsCollected(sha, q, specs) && RootMatches(q.receipt, q.closure)
    ensures PayloadsMatch(sha, q) && SpecsCover(sha, specs, q.closure.releases)
  {
    hide ArtifactIndex, NodesProper, NodeIds, CollisionFree, RequiredDigests, NodePayloads, NodeCovered, SpecsFrom,
         ArtifactPayloadOk, ManifestPayloadOk, ContentsOf, ManifestContents, RootMatches;
    CollectedKeys(sha, q, specs);
    CollectedCollisionFree(sha, q, specs);
    SpecDigests(sha, specs, ContentsOf(q.artifacts, q.artifacts.Keys) + ManifestContents(q, q.closure.releases));
    forall i | 0 <= i < |q.closure.releases|
      ensures NodePayloads(sha, q, q.closure.releases[i]) && NodeCovered(specs, q.closure.releases[i])
    {
      CollectedNodes(sha, q, specs, i);
    }
  }

  lemma BadArtifactPayload(sha: Sha, q: Consumption, key: (Id, Id))
    requires NodesProper(q.closure.releases) && key in ArtifactIndex(q.closure.releases)
    requires !ArtifactPayloadOk(sha, q, key, ArtifactIndex(q.closure.releases)[key])
    ensures !PayloadsMatch(sha, q)
  {
    hide ArtifactIndex, NodesProper, CollisionFree, RootMatches;
    var i, j := IndexedArtifact(q.closure.releases, key);
    assert PayloadsMatch(sha, q) ==> NodePayloads(sha, q, q.closure.releases[i]);
  }

  method FindNode(nodes: seq<Node>, r: Id) returns (n: nat)
    requires exists i :: 0 <= i < |nodes| && nodes[i].Id() == r
    ensures n < |nodes| && nodes[n].Id() == r
  {
    n := 0;
    while nodes[n].Id() != r
      invariant n < |nodes| && forall i :: 0 <= i < n ==> nodes[i].Id() != r
      decreases |nodes| - n
    {
      n := n + 1;
    }
  }

  /** The receipt and the closure's root node declare the same artifacts. */
  method CheckRoot(sha: Sha, receipt: Receipt, c: Closure) returns (ok: bool)
    requires ValidReceipt(sha, receipt) && ValidClosure(sha, c)
    ensures ok <==> RootMatches(receipt, c)
  {
    hide Accepted, IsVersion, ValidInputRef, ValidArtifact;
    if receipt.inputRef != c.root { return false; }
    var i :| 0 <= i < |c.releases| && c.releases[i].inputRef == c.root;
    var n := FindNode(c.releases, receipt.inputRef.releaseId);
    NormalNodesDistinct(c.releases);
    assert ValidNode(c.releases[n]);
    var mine := IndexReceipt(receipt.artifacts);
    var theirs := IndexReceipt(c.releases[n].artifacts);
    hide ValidNode, ReceiptIndex;
    if mine == theirs { SameDescriptors(receipt.artifacts, c.releases[n].artifacts); }
    ok := mine == theirs;
  }

  /* ---- Payload lists ---- */

  /** No identity is listed twice. */
  predicate ListedOnce<K(==)>(payloads: seq<(K, Bytes)>) {
    forall i, j :: 0 <= i < j < |payloads| ==> payloads[i].0 != payloads[j].0
  }

  /** The payloads by identity. */
  function PayloadIndex<K>(payloads: seq<(K, Bytes)>): map<K, Bytes>
    decreases |payloads|
  {
    if payloads == [] then map[]
    else
      var last := payloads[|payloads| - 1];
      PayloadIndex(payloads[..|payloads| - 1])[last.0 := last.1]
  }

  /** The consumption that two payload lists stand for. */
  function Listed(receipt: Receipt, closure: Closure, artifacts: seq<((Id, Id), Bytes)>, manifests: seq<(Id, Bytes)>): Consumption {
    Consumption(receipt, closure, PayloadIndex(artifacts), PayloadIndex(manifests))
  }

  /** No payload is listed twice, and the payloads are those the closure declares. */
  predicate PayloadsAccepted(sha: Sha, receipt: Receipt, closure: Closure, artifacts: seq<((Id, Id), Bytes)>,
                             manifests: seq<(Id, Bytes)>) {
    && ListedOnce(artifacts) && ListedOnce(manifests)
    && PayloadsMatch(sha, Listed(receipt, closure, artifacts, manifests))
  }

  /** A payload listed twice is refused, even with the same content. */
  method UniquePayloads<K(==)>(payloads: seq<(K, Bytes)>) returns (r: Option<map<K, Bytes>>)
    ensures r.Some? <==> ListedOnce(payloads)
    ensures r.Some? ==> r.value == PayloadIndex(payloads)
  {
    var index: map<K, Bytes> := map[];
    for i := 0 to |payloads|
      invariant ListedOnce(payloads[..i]) && index == PayloadIndex(payloads[..i])
    {
      assert payloads[..i + 1][..i] == payloads[..i];
      PayloadIndexExact(payloads[..i]);
      if payloads[i].0 in index {
        var j :| 0 <= j < i && payloads[..i][j].0 == payloads[i].0;
        assert payloads[j].0 == payloads[i].0;
        return None;
      }
      assert forall j :: 0 <= j < i ==> payloads[..i][j].0 in index;
      index := index[payloads[i].0 := payloads[i].1];
    }
    assert payloads[..|payloads|] == payloads;
    r := Some(index);
  }

  /** The index holds every listed payload and no other. */
  lemma {:induction false} PayloadIndexExact<K>(payloads: seq<(K, Bytes)>)
    requires ListedOnce(payloads)
    ensures forall i :: 0 <= i < |payloads| ==>
              payloads[i].0 in PayloadIndex(payloads) && PayloadIndex(payloads)[payloads[i].0] == payloads[i].1
    ensures forall k :: k in PayloadIndex(payloads) ==> exists i :: 0 <= i < |payloads| && payloads[i].0 == k
    decreases |payloads|
  {
    if payloads != [] {
      var n := |payloads| - 1;
      var front := payloads[..n];
      PayloadIndexExact(front);
      forall i | 0 <= i < |payloads|
        ensures payloads[i].0 in PayloadIndex(payloads) && PayloadIndex(payloads)[payloads[i].0] == payloads[i].1
      {
        if i < n { assert front[i] == payloads[i]; }
      }
      forall k | k in PayloadIndex(payloads) ensures exists i :: 0 <= i < |payloads| && payloads[i].0 == k {
        if k in PayloadIndex(front) {
          var i :| 0 <= i < |front| && front[i].0 == k;
          assert payloads[i].0 == k;
        } else {
          assert payloads[n].0 == k;
        }
      }
    }
  }

  /** Neither the refusal nor the index depends on the order in which the payloads are listed. */
  lemma {:induction false} PayloadOrderIndependent<K(!new)>(a: seq<(K, Bytes)>, b: seq<(K, Bytes)>)
    requires ListedOnce(a) && multiset(a) == multiset(b)
    ensures ListedOnce(b) && PayloadIndex(b) == PayloadIndex(a)
  {
    var key := (x: (K, Bytes)) => x.0;
    assert KeysDistinct(key, a);
    PermutedDistinct(key, a, b);
    assert ListedOnce(b) by {
      forall i, j | 0 <= i < j < |b| ensures b[i].0 != b[j].0 { assert key(b[i]) != key(b[j]); }
    }
    PayloadIndexExact(a);
    PayloadIndexExact(b);
    forall x ensures x in a <==> x in b {
      MemberOf(x, a);
      MemberOf(x, b);
    }
    forall i | 0 <= i < |a| ensures a[i].0 in PayloadIndex(b) && PayloadIndex(b)[a[i].0] == a[i].1 {
      assert a[i] in b;
      var j :| 0 <= j < |b| && b[j] == a[i];
    }
    forall k | k in PayloadIndex(b) ensures k in PayloadIndex(a) {
      var j :| 0 <= j < |b| && b[j].0 == k;
      assert b[j] in a;
    }
  }

  /** Checks the payloads against receipt and closure and collects the contents. */
  method VerifyPayloads(sha: Sha, q: Consumption) returns (r: Option<Specs>)
    requires ValidReceipt(sha, q.receipt) && ValidClosure(sha, q.closure)
    ensures r.Some? <==> PayloadsMatch(sha, q)
    ensures r.Some? ==> SpecsCover(sha, r.value, q.closure.releases)
  {
    hide ValidReceipt, ValidClosure, RootMatches, ArtifactIndex, NodesProper, NodeIds, CollisionFree, SpecsCover,
         SpecsFrom, NodePayloads, ArtifactPayloadOk, ManifestPayloadOk, Contradicted, ReleaseIndex, RefIndex;
    var nodes := q.closure.releases;
    var root := CheckRoot(sha, q.receipt, q.closure);
    if !root { return None; }
    var index := IndexArtifacts(nodes);
    if q.artifacts.Keys != index.Keys { return None; }
    ClosureNodesProper(sha, q.closure);
    var specs := CollectArtifacts(sha, q, index);
    if specs.None? {
      ContradictedRefused(sha, q);
      if key :| key in index && !ArtifactPayloadOk(sha, q, key, index[key]) { BadArtifactPayload(sha, q, key); }
      return None;
    }
    var releases := IndexReleases(nodes);
    ProperDistinct(nodes);
    ReleaseIndexExact(nodes);
    if q.manifests.Keys != releases.Keys { return None; }
    assert forall i :: 0 <= i < |nodes| ==> nodes[i].Id() in q.manifests by { AllNamed(nodes); }
    r := CollectManifests(sha, q, nodes, specs.value);
    if r.None? {
      ContradictedRefused(sha, q);
      if i :| 0 <= i < |nodes| && !ManifestPayloadOk(sha, q, nodes[i]) { BadManifestPayload(sha, q, i); }
      return None;
    }
    CollectedMatches(sha, q, r.value);
  }

  lemma ProperDistinct(nodes: seq<Node>)
    requires NodesProper(nodes)
    ensures NodesDistinct(nodes)
  {
  }

  lemma AllNamed(nodes: seq<Node>)
    ensures forall i :: 0 <= i < |nodes| ==> nodes[i].Id() in NodeIds(nodes)
  {
  }

  lemma ContradictedRefused(sha: Sha, q: Consumption)
    ensures Contradicted(sha, q) ==> !PayloadsMatch(sha, q)
  {
    hide RootMatches, ArtifactIndex, NodeIds, NodePayloads;
  }

  lemma BadManifestPayload(sha: Sha, q: Consumption, i: nat)
    requires i < |q.closure.releases| && !ManifestPayloadOk(sha, q, q.closure.releases[i])
    ensures !PayloadsMatch(sha, q)
  {
    hide RootMatches, ArtifactIndex, NodeIds, CollisionFree;
    assert PayloadsMatch(sha, q) ==> NodePayloads(sha, q, q.closure.releases[i]);
  }

  /* ---- Writing contents ---- */

  predicate Writable(sha: Sha, files: Files, specs: Specs) {
    forall d :: d in specs && d in files ==> FileVerifies(sha, files, d, |specs[d]|)
  }

  /** Keeps an existing file if it verifies; otherwise adds the content. */
  method AtomicWrite(sha: Sha, files: Files, content: Bytes, digest: Digest) returns (r: Option<Files>)
    requires sha(Blob(content)) == digest
    ensures r.None? <==> digest in files && !FileVerifies(sha, files, digest, |content|)
    ensures r.Some? ==> FilesGrow(sha, files, r.value) && FileVerifies(sha, r.value, digest, |content|)
    ensures r.Some? ==> r.value.Keys == files.Keys + {digest}
  {
    if digest in files {
      if |files[digest]| != |content| || sha(Blob(files[digest])) != digest { return None; }
      assert files.Keys + {digest} == files.Keys;
      return Some(files);
    }
    r := Some(files[digest := content]);
  }

  lemma FilesGrowReflexive(sha: Sha, files: Files)
    ensures FilesGrow(sha, files, files)
  {
  }

  lemma FilesGrowTransitive(sha: Sha, a: Files, b: Files, c: Files)
    requires FilesGrow(sha, a, b) && FilesGrow(sha, b, c)
    ensures FilesGrow(sha, a, c)
  {
  }

  lemma SameFile(sha: Sha, files: Files, files': Files, d: Digest, size: nat)
    requires FilesGrow(sha, files, files') && d in files
    ensures d in files' && (FileVerifies(sha, files, d, size) <==> FileVerifies(sha, files', d, size))
  {
  }

  lemma VerifiedStays(sha: Sha, files: Files, files': Files, d: Digest, size: nat)
    requires FilesGrow(sha, files, files') && FileVerifies(sha, files, d, size)
    ensures FileVerifies(sha, files', d, size)
  {
  }

  /** Writes every content; a failure may leave the earlier ones behind. */
  method WriteAll(sha: Sha, files: Files, specs: Specs) returns (files': Files, ok: bool)
    requires forall d :: d in specs ==> sha(Blob(specs[d])) == d
    ensures FilesGrow(sha, files, files')
    ensures ok <==> Writable(sha, files, specs)
    ensures ok ==> forall d :: d in specs ==> FileVerifies(sha, files', d, |specs[d]|)
  {
    FilesGrowReflexive(sha, files);
    hide FileVerifies, FilesGrow;
    files' := files;
    var pending := specs.Keys;
    while pending != {}
      invariant pending <= specs.Keys && FilesGrow(sha, files, files')
      invariant files'.Keys <= files.Keys + (specs.Keys - pending)
      invariant forall d :: d in specs && d !in pending ==> FileVerifies(sha, files', d, |specs[d]|)
      invariant forall d :: d in specs && d !in pending && d in files ==> FileVerifies(sha, files, d, |specs[d]|)
      decreases pending
    {
      var d :| d in pending;
      var written := AtomicWrite(sha, files', specs[d], d);
      if d in files { SameFile(sha, files, files', d, |specs[d]|); }
      if written.None? { return files', false; }
      forall x | x in specs && x !in pending ensures FileVerifies(sha, written.value, x, |specs[x]|) {
        VerifiedStays(sha, files', written.value, x, |specs[x]|);
      }
      FilesGrowTransitive(sha, files, files', written.value);
      files' := written.value;
      pending := pending - {d};
    }
    ok := true;
  }

  /** No file stands in the way: one that exists under a required digest verifies. */
  predicate Placeable(sha: Sha, files: Files, nodes: seq<Node>) {
    forall i :: 0 <= i < |nodes| ==> NodePlaceable(sha, files, nodes[i])
  }

  predicate NodePlaceable(sha: Sha, files: Files, n: Node) {
    && (n.manifestDocumentHash in files ==> FileVerifies(sha, files, n.manifestDocumentHash, n.manifestSize))
    && forall j :: 0 <= j < |n.artifacts| ==>
         (n.artifacts[j].hash in files ==> FileVerifies(sha, files, n.artifacts[j].hash, n.artifacts[j].sizeBytes))
  }

  lemma WritableExact(sha: Sha, files: Files, specs: Specs, nodes: seq<Node>)
    requires SpecsCover(sha, specs, nodes)
    ensures Writable(sha, files, specs) <==> Placeable(sha, files, nodes)
  {
    hide FileVerifies;
    if Writable(sha, files, specs) {
      forall i | 0 <= i < |nodes| ensures NodePlaceable(sha, files, nodes[i]) {
        assert NodeCovered(specs, nodes[i]);
      }
    }
    if Placeable(sha, files, nodes) {
      forall d | d in specs && d in files ensures FileVerifies(sha, files, d, |specs[d]|) {
        if i :| 0 <= i < |nodes| && nodes[i].manifestDocumentHash == d {
          assert NodeCovered(specs, nodes[i]) && NodePlaceable(sha, files, nodes[i]);
        } else {
          var i, j :| 0 <= i < |nodes| && 0 <= j < |nodes[i].artifacts| && nodes[i].artifacts[j].hash == d;
          assert NodeCovered(specs, nodes[i]) && NodePlaceable(sha, files, nodes[i]);
        }
      }
    }
  }

  lemma CoveredFilesVerify(sha: Sha, specs: Specs, files: Files, c: Closure)
    requires SpecsCover(sha, specs, c.releases)
    requires forall d :: d in specs ==> FileVerifies(sha, files, d, |specs[d]|)
    ensures ClosureFilesVerify(sha, files, c)
  {
    hide RequiredDigests;
    forall i | 0 <= i < |c.releases| ensures NodeFilesVerify(sha, files, c.releases[i]) {
      assert NodeCovered(specs, c.releases[i]);
    }
  }

  /* ---- Inserting rows; existing rows must agree ---- */

  predicate RefsFit(refs: Refs, nodes: seq<Node>) {
    forall i :: 0 <= i < |nodes| && nodes[i].Id() in refs ==> refs[nodes[i].Id()] == nodes[i].inputRef
  }

  lemma {:induction false} RefIndexKeys(nodes: seq<Node>)
    ensures RefIndex(nodes).Keys == NodeIds(nodes)
    decreases |nodes|
  {
    if nodes != [] {
      RefIndexKeys(nodes[..|nodes| - 1]);
      NodeIdsSnoc(nodes);
    }
  }

  lemma NoRefs(refs: Refs)
    ensures RefIndex([]) + refs == refs
  {
  }

  lemma RefIndexSnoc(nodes: seq<Node>, i: nat)
    requires i < |nodes|
    ensures RefIndex(nodes[..i + 1]) == RefIndex(nodes[..i])[nodes[i].Id() := nodes[i].inputRef]
  {
    assert nodes[..i + 1][..i] == nodes[..i];
  }

  lemma NotEarlier(nodes: seq<Node>, i: nat)
    requires NodesDistinct(nodes) && i < |nodes|
    ensures nodes[i].Id() !in NodeIds(nodes[..i])
  {
    forall k | 0 <= k < i ensures nodes[..i][k].Id() != nodes[i].Id() {
      assert nodes[k].Id() != nodes[i].Id();
    }
  }

  /** Ensures the identity and the heads row of every release of the closure. */
  method EnsureIdentities(refs: Refs, heads: map<Id, HeadsRow>, nodes: seq<Node>)
    returns (r: Option<(Refs, map<Id, HeadsRow>)>)
    requires heads.Keys == refs.Keys && NodesDistinct(nodes)
    ensures r.Some? <==> RefsFit(refs, nodes)
    ensures r.Some? ==> r.value.0 == RefIndex(nodes) + refs && r.value.1.Keys == r.value.0.Keys
    ensures r.Some? ==> forall x :: x in r.value.1 ==>
              r.value.1[x] == if x in heads then heads[x] else HeadsRow(None, None, None)
  {
    hide RefIndex, NodeIds;
    var refs', heads' := refs, heads;
    NoRefs(refs);
    assert nodes[..0] == [];
    for i := 0 to |nodes|
      invariant refs' == RefIndex(nodes[..i]) + refs && heads'.Keys == refs'.Keys
      invariant forall k :: 0 <= k < i && nodes[k].Id() in refs ==> refs[nodes[k].Id()] == nodes[k].inputRef
      invariant forall x :: x in heads' ==> heads'[x] == if x in heads then heads[x] else HeadsRow(None, None, None)
    {
      var id := nodes[i].Id();
      NotEarlier(nodes, i);
      RefIndexKeys(nodes[..i]);
      RefIndexSnoc(nodes, i);
      if id in refs' {
        if refs'[id] != nodes[i].inputRef { return None; }
        assert RefIndex(nodes[..i + 1]) + refs == RefIndex(nodes[..i]) + refs;
      } else {
        refs' := refs'[id := nodes[i].inputRef];
        heads' := heads'[id := HeadsRow(None, None, None)];
        assert RefIndex(nodes[..i + 1]) + refs == refs';
      }
    }
    assert nodes[..|nodes|] == nodes;
    r := Some((refs', heads'));
  }

  predicate SizesFit(objects: map<Digest, nat>, specs: Specs) {
    forall d :: d in specs && d in objects ==> objects[d] == |specs[d]|
  }

  /** Registers every content that is not registered yet, after reading it back. */
  method EnsureObjects(sha: Sha, objects: map<Digest, nat>, files: Files, specs: Specs)
    returns (r: Option<map<Digest, nat>>)
    requires forall d :: d in specs ==> FileVerifies(sha, files, d, |specs[d]|)
    ensures r.Some? <==> SizesFit(objects, specs)
    ensures r.Some? ==> r.value == (map d | d in specs :: |specs[d]|) + objects
  {
    var objects' := objects;
    var pending := specs.Keys;
    while pending != {}
      invariant pending <= specs.Keys
      invariant forall d :: d in specs && d !in pending && d in objects ==> objects[d] == |specs[d]|
      invariant objects'.Keys == objects.Keys + (specs.Keys - pending)
      invariant forall d :: d in objects' ==> objects'[d] == if d in objects then objects[d] else |specs[d]|
      decreases pending
    {
      var d :| d in pending;
      pending := pending - {d};
      if d in objects' {
        if objects'[d] != |specs[d]| { return None; }
      }
      if !FileVerifies(sha, files, d, |specs[d]|) { return None; }
      if d !in objects' { objects' := objects'[d := |specs[d]|]; }
    }
    r := Some(objects');
  }

  predicate ManifestsFit(manifests: map<Id, StoredManifest>, nodes: seq<Node>) {
    forall i :: 0 <= i < |nodes| && nodes[i].Id() in manifests ==>
      manifests[nodes[i].Id()].hash == nodes[i].manifestDocumentHash
      && manifests[nodes[i].Id()].sizeBytes == nodes[i].manifestSize
  }

  lemma ManifestRowsSnoc(nodes: seq<Node>, i: nat, now: Time)
    requires i < |nodes|
    ensures ManifestRows(nodes[..i + 1], now) ==
            ManifestRows(nodes[..i], now)[nodes[i].Id() := StoredManifest(nodes[i].manifestDocumentHash, nodes[i].manifestSize, now)]
  {
    assert nodes[..i + 1][..i] == nodes[..i];
  }

  lemma ManifestRowKeys(nodes: seq<Node>, now: Time)
    requires NodesDistinct(nodes)
    ensures ManifestRows(nodes, now).Keys == NodeIds(nodes)
  {
    ReleaseIndexExact(nodes);
  }

  method InsertManifests(manifests: map<Id, StoredManifest>, nodes: seq<Node>, now: Time)
    returns (r: Option<map<Id, StoredManifest>>)
    requires NodesDistinct(nodes)
    ensures r.Some? <==> ManifestsFit(manifests, nodes)
    ensures r.Some? ==> r.value == ManifestRows(nodes, now) + manifests
  {
    hide ManifestRows, ReleaseIndex, NodeIds;
    var rows := manifests;
    NoManifestRows(now, manifests);
    assert nodes[..0] == [];
    for i := 0 to |nodes|
      invariant rows == ManifestRows(nodes[..i], now) + manifests
      invariant forall k :: 0 <= k < i && nodes[k].Id() in manifests ==>
                  manifests[nodes[k].Id()].hash == nodes[k].manifestDocumentHash
                  && manifests[nodes[k].Id()].sizeBytes == nodes[k].manifestSize
    {
      var id := nodes[i].Id();
      NotEarlier(nodes, i);
      ManifestRowKeys(nodes[..i], now);
      ManifestRowsSnoc(nodes, i, now);
      if id in rows {
        if rows[id].hash != nodes[i].manifestDocumentHash || rows[id].sizeBytes != nodes[i].manifestSize { return None; }
        assert ManifestRows(nodes[..i + 1], now) + manifests == rows;
      } else {
        rows := rows[id := StoredManifest(nodes[i].manifestDocumentHash, nodes[i].manifestSize, now)];
        assert ManifestRows(nodes[..i + 1], now) + manifests == rows;
      }
    }
    assert nodes[..|nodes|] == nodes;
    r := Some(rows);
  }

  lemma NoManifestRows(now: Time, manifests: map<Id, StoredManifest>)
    ensures ManifestRows([], now) + manifests == manifests
  {
  }

  predicate ArtifactsFit(rows: map<(Id, Id), StoredArtifact>, index: map<(Id, Id), Artifact>) {
    forall key :: key in index && key in rows ==> rows[key].artifact == index[key]
  }

  /** A row that says something else, or a count that no column holds. */
  datatype InsertError = Remapped | TooLarge

  /** Inserts the mapping of every artifact of the closure. */
  method InsertArtifacts(rows: map<(Id, Id), StoredArtifact>, index: map<(Id, Id), Artifact>, now: Time)
    returns (r: Result<map<(Id, Id), StoredArtifact>, InsertError>)
    requires CountsStored(rows)
    ensures r.Ok? <==> ArtifactsFit(rows, index) && CountsFit(index)
    ensures r == Err(Remapped) ==> !ArtifactsFit(rows, index)
    ensures r == Err(TooLarge) ==> !CountsFit(index)
    ensures r.Ok? ==> r.value == (map key | key in index :: StoredArtifact(index[key], now)) + rows
  {
    var rows' := rows;
    var pending := index.Keys;
    while pending != {}
      invariant pending <= index.Keys
      invariant forall key :: key in index && key !in pending && key in rows ==> rows[key].artifact == index[key]
      invariant forall key :: key in index && key !in pending ==> CountFits(index[key])
      invariant rows'.Keys == rows.Keys + (index.Keys - pending)
      invariant forall key :: key in rows' ==> rows'[key] == if key in rows then rows[key] else StoredArtifact(index[key], now)
      decreases pending
    {
      var key :| key in pending;
      pending := pending - {key};
      if key in rows' {
        if rows'[key].artifact != index[key] { return Err(Remapped); }
      } else {
        if !CountFits(index[key]) { return Err(TooLarge); }
        rows' := rows'[key := StoredArtifact(index[key], now)];
      }
    }
    r := Ok(rows');
  }
}
