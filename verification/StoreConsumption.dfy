/**
 Recording a verified consumption: the metadata transaction that makes one
 receipt, its closure and their exact indexes visible together.
 */
module StoreConsumption {
  import opened Basics
  import opened Contracts
  import opened StatusEvents
  import opened ObservationLog
  import opened RetentionGraph
  import opened RetentionIndex
  import opened Ledgers
  import opened LedgerInvariant
  import opened Databases
  import opened Verifiers
  import opened StoreChecks
  import opened StoreRecording

  /** The row checks together are the consistency of the ledger's outcome. */
  lemma ConsistencySplit(cfg: Config, l: Ledger, c: Closure, specs: Specs)
    requires ValidClosure(cfg.sha, c) && SpecsCover(cfg.sha, specs, c.releases)
    ensures NodesConsistent(l, c.releases) <==>
              && RefsFit(l.refs, c.releases) && SizesFit(l.objects, specs)
              && ManifestsFit(l.manifests, c.releases) && ArtifactsFit(l.artifacts, ArtifactIndex(c.releases))
  {
    hide ValidClosure, ArtifactIndex, RequiredDigests, NodesProper;
    ClosureNodesProper(cfg.sha, c);
    if NodesConsistent(l, c.releases) {
      ConsistentFits(cfg, l, c.releases, specs);
    }
    if RefsFit(l.refs, c.releases) && SizesFit(l.objects, specs)
       && ManifestsFit(l.manifests, c.releases) && ArtifactsFit(l.artifacts, ArtifactIndex(c.releases))
    {
      forall i | 0 <= i < |c.releases| ensures NodeConsistent(l, c.releases[i]) {
        FitsConsistent(cfg, l, c.releases, specs, i);
      }
    }
  }

  lemma {:induction false} FitsConsistent(cfg: Config, l: Ledger, nodes: seq<Node>, specs: Specs, i: nat)
    requires NodesProper(nodes) && SpecsCover(cfg.sha, specs, nodes) && i < |nodes|
    requires RefsFit(l.refs, nodes) && SizesFit(l.objects, specs) && ManifestsFit(l.manifests, nodes)
    requires ArtifactsFit(l.artifacts, ArtifactIndex(nodes))
    ensures NodeConsistent(l, nodes[i])
  {
    hide ArtifactIndex, RequiredDigests, NodesProper;
    var n := nodes[i];
    assert NodeCovered(specs, n);
    forall j | 0 <= j < |n.artifacts| ensures ArtifactConsistent(l, n.Id(), n.artifacts[j]) {
      ArtifactIndexed(nodes, i, j);
    }
  }

  lemma {:induction false} ConsistentFits(cfg: Config, l: Ledger, nodes: seq<Node>, specs: Specs)
    requires NodesProper(nodes) && SpecsCover(cfg.sha, specs, nodes) && NodesConsistent(l, nodes)
    ensures RefsFit(l.refs, nodes) && SizesFit(l.objects, specs)
    ensures ManifestsFit(l.manifests, nodes) && ArtifactsFit(l.artifacts, ArtifactIndex(nodes))
  {
    hide ArtifactIndex, NodesProper;
    forall i | 0 <= i < |nodes| ensures NodeConsistent(l, nodes[i]) && NodeCovered(specs, nodes[i]) {}
    forall d | d in specs && d in l.objects ensures l.objects[d] == |specs[d]| {
      if i :| 0 <= i < |nodes| && nodes[i].manifestDocumentHash == d {
        assert NodeConsistent(l, nodes[i]) && NodeCovered(specs, nodes[i]);
      } else {
        var i, j :| 0 <= i < |nodes| && 0 <= j < |nodes[i].artifacts| && nodes[i].artifacts[j].hash == d;
        assert NodeConsistent(l, nodes[i]) && NodeCovered(specs, nodes[i]);
        assert ArtifactConsistent(l, nodes[i].Id(), nodes[i].artifacts[j]);
      }
    }
    hide RequiredDigests;
    forall key | key in ArtifactIndex(nodes) && key in l.artifacts
      ensures l.artifacts[key].artifact == ArtifactIndex(nodes)[key]
    {
      var i, j := IndexedArtifact(nodes, key);
      assert NodeConsistent(l, nodes[i]);
      assert ArtifactConsistent(l, nodes[i].Id(), nodes[i].artifacts[j]);
    }
  }

  /** The registered sizes are those of the files just written. */
  lemma ObjectRowsAre(sha: Sha, nodes: seq<Node>, files: Files, specs: Specs)
    requires SpecsCover(sha, specs, nodes)
    requires forall d :: d in specs ==> FileVerifies(sha, files, d, |specs[d]|)
    ensures ObjectRows(nodes, files) == map d | d in specs :: |specs[d]|
  {
    hide RequiredDigests, NodeCovered;
  }

  /** The identity tables after every release of a closure is known. */
  lemma HeadsAfter(cfg: Config, l: Ledger, refs: Refs, heads: map<Id, HeadsRow>)
    requires Coherent(cfg, l) && Grows(l.refs, refs) && heads.Keys == refs.Keys
    requires forall x :: x in heads ==>
               heads[x] == if x in l.refs then HeadsRowOf(l.log, x) else HeadsRow(None, None, None)
    ensures heads == map r | r in refs :: HeadsRowOf(l.log, r)
  {
    hide Coherent, HeadsRowOf;
    forall x | x in refs ensures heads[x] == HeadsRowOf(l.log, x) {
      if x !in l.refs { NoHeadsYet(cfg, l, x); }
    }
  }

  /** What a pin row projects from its closure does not depend on later rows. */
  lemma PinViewsKept(l: Ledger, l': Ledger, p: PinEntry)
    requires p.closureHash in l.closures && Grows(l.closures, l'.closures)
    ensures PinReleasesOf(l', p) == PinReleasesOf(l, p) && PinArtifactsOf(l', p) == PinArtifactsOf(l, p)
  {
  }

  lemma PinHasClosure(cfg: Config, l: Ledger, run: Id)
    requires RunsCoherent(cfg, l) && run in l.pins
    ensures l.pins[run].closureHash in l.closures
  {
    hide PinBound, BindingCoherent, ConfirmationCoherent;
    assert PinCoherent(l, run, l.pins[run]);
  }

  lemma RunsGrow(cfg: Config, l: Ledger, l': Ledger)
    requires RunsCoherent(cfg, l) && Grows(l.closures, l'.closures)
    requires l'.pins == l.pins && l'.confirmations == l.confirmations
    ensures RunsOf(cfg.sha, l') == RunsOf(cfg.sha, l)
  {
    hide RunsCoherent, Grows, PinRowOf, ConfirmationRowOf, ItemIndex, PinReleasesOf, PinArtifactsOf;
    forall run | run in l.pins
      ensures PinReleasesOf(l', l.pins[run]) == PinReleasesOf(l, l.pins[run])
              && PinArtifactsOf(l', l.pins[run]) == PinArtifactsOf(l, l.pins[run])
    {
      PinHasClosure(cfg, l, run);
      PinViewsKept(l, l', l.pins[run]);
    }
    assert RunsOf(cfg.sha, l').pinReleases == RunsOf(cfg.sha, l).pinReleases;
    assert RunsOf(cfg.sha, l').pinArtifacts == RunsOf(cfg.sha, l).pinArtifacts;
  }

  lemma ClosureTablesAfter(sha: Sha, closures: map<Digest, ClosureEntry>, k: Digest, e: ClosureEntry)
    ensures ClosureTable(sha, closures[k := e]) == ClosureTable(sha, closures)[k := ClosureRowOf(sha, e)]
    ensures ReleaseTable(closures[k := e]) == ReleaseTable(closures)[k := ReleaseIndex(e.closure.releases)]
    ensures DependencyTable(closures[k := e]) == DependencyTable(closures)[k := DependencyIndex(e.closure.releases)]
    ensures ArtifactTable(closures[k := e]) == ArtifactTable(closures)[k := ArtifactIndex(e.closure.releases)]
  {
    hide ReleaseIndex, ArtifactIndex, DependencyIndex, ClosureRowOf;
  }

  lemma ReceiptTablesAfter(sha: Sha, receipts: map<Digest, ReceiptEntry>, h: Digest, e: ReceiptEntry)
    ensures ReceiptTable(sha, receipts[h := e]) == ReceiptTable(sha, receipts)[h := ReceiptRowOf(sha, e)]
    ensures ReceiptArtifactTable(receipts[h := e]) == ReceiptArtifactTable(receipts)[h := ReceiptIndex(e.receipt.artifacts)]
    ensures ReceiptLinkTable(receipts[h := e]) == ReceiptLinkTable(receipts)[h := e.closureHash]
  {
    hide ReceiptIndex, ReceiptRowOf;
  }

  /** The document rows of a consumption: the closure unless known, and the receipt. */
  function InsertDocuments(sha: Sha, t: DocumentTables, q: Consumption, now: Time): DocumentTables {
    var k := q.closure.closureHash;
    var h := q.receipt.receiptHash;
    var nodes := q.closure.releases;
    var t1 :=
      if k in t.closures then t
      else
        t.(closures := t.closures[k := ClosureRowOf(sha, ClosureEntry(q.closure, now))],
           closureReleases := t.closureReleases[k := ReleaseIndex(nodes)],
           closureDependencies := t.closureDependencies[k := DependencyIndex(nodes)],
           closureArtifacts := t.closureArtifacts[k := ArtifactIndex(nodes)]);
    t1.(receipts := t.receipts[h := ReceiptRowOf(sha, ReceiptEntry(q.receipt, k, now))],
        receiptArtifacts := t.receiptArtifacts[h := ReceiptIndex(q.receipt.artifacts)],
        receiptClosures := t.receiptClosures[h := k])
  }

  lemma DocumentsAfter(sha: Sha, l: Ledger, q: Consumption, files: Files, now: Time)
    ensures DocumentsOf(sha, WithConsumption(l, q, files, now)) == InsertDocuments(sha, DocumentsOf(sha, l), q, now)
  {
    hide ReleaseIndex, ArtifactIndex, DependencyIndex, ReceiptIndex, ReceiptRowOf, ClosureRowOf, RefIndex, ObjectRows,
         ManifestRows, ArtifactRows, ClosureTable, ReleaseTable, DependencyTable, ArtifactTable, ReceiptTable,
         ReceiptArtifactTable, ReceiptLinkTable;
    var k := q.closure.closureHash;
    ClosureKeys(sha, l);
    ClosureTablesAfter(sha, l.closures, k, ClosureEntry(q.closure, now));
    ReceiptTablesAfter(sha, l.receipts, q.receipt.receiptHash, ReceiptEntry(q.receipt, k, now));
  }

  lemma ClosureKeys(sha: Sha, l: Ledger)
    ensures DocumentsOf(sha, l).closures.Keys == l.closures.Keys
  {
  }

  predicate ForContract(db: Database, h: Digest, releaseId: Id, contract: string) {
    && h in db.documents.receipts
    && db.documents.receipts[h].releaseId == releaseId && db.documents.receipts[h].contractVersion == contract
  }

  /** The one receipt of a release and contract, if any. */
  method FindContract(db: Database, releaseId: Id, contract: string) returns (h: Option<Digest>)
    ensures h.Some? ==> ForContract(db, h.value, releaseId, contract)
    ensures h.None? ==> forall x :: !ForContract(db, x, releaseId, contract)
  {
    var pending := db.documents.receipts.Keys;
    while pending != {}
      invariant pending <= db.documents.receipts.Keys
      invariant forall x :: x !in pending ==> !ForContract(db, x, releaseId, contract)
      decreases pending
    {
      var x :| x in pending;
      if ForContract(db, x, releaseId, contract) { return Some(x); }
      pending := pending - {x};
    }
    h := None;
  }

  /** The contract is free unless the one receipt found for it is another. */
  lemma ContractFound(cfg: Config, l: Ledger, r: Receipt, h: Option<Digest>)
    requires MaterialCoherent(cfg, l)
    requires h.Some? ==> ForContract(Tables(cfg, l), h.value, r.inputRef.releaseId, r.contractVersion)
    requires h.None? ==> forall x :: !ForContract(Tables(cfg, l), x, r.inputRef.releaseId, r.contractVersion)
    ensures ContractFree(l, r) <==> h.None? || h.value == r.receiptHash
  {
    hide Tables, ClosureCoherent, ReceiptCoherent;
    TableKeys(cfg, l);
    forall x | x in l.receipts
      ensures ForContract(Tables(cfg, l), x, r.inputRef.releaseId, r.contractVersion) <==>
              SameContract(l.receipts[x].receipt, r)
    {
      ReceiptTables(cfg, l, x);
    }
    if h.Some? {
      assert SameContract(l.receipts[h.value].receipt, r);
      forall x | x in l.receipts && SameContract(l.receipts[x].receipt, r) ensures x == h.value {
        assert SameContract(l.receipts[x].receipt, l.receipts[h.value].receipt);
      }
    }
  }

  ghost predicate Recordable(cfg: Config, l: Ledger, q: Consumption, specs: Specs, files: Files) {
    && Coherent(cfg, l) && ValidReceipt(cfg.sha, q.receipt) && ValidClosure(cfg.sha, q.closure)
    && SpecsCover(cfg.sha, specs, q.closure.releases)
    && (forall d :: d in specs ==> FileVerifies(cfg.sha, files, d, |specs[d]|))
  }

  predicate ArtifactMapped(t: ContentTables, r: Id, a: Artifact) {
    (r, a.artifactId) in t.artifacts && t.artifacts[(r, a.artifactId)].artifact == a
  }

  predicate NodeMapped(t: ContentTables, n: Node) {
    && n.Id() in t.manifests
    && t.manifests[n.Id()].hash == n.manifestDocumentHash && t.manifests[n.Id()].sizeBytes == n.manifestSize
    && forall j :: 0 <= j < |n.artifacts| ==> ArtifactMapped(t, n.Id(), n.artifacts[j])
  }

  predicate NodesMapped(t: ContentTables, nodes: seq<Node>) {
    forall i :: 0 <= i < |nodes| ==> NodeMapped(t, nodes[i])
  }

  /** The manifest and artifact rows of every release are those of the closure. */
  method CheckMappings(t: ContentTables, nodes: seq<Node>) returns (ok: bool)
    ensures ok <==> NodesMapped(t, nodes)
  {
    for i := 0 to |nodes|
      invariant forall k :: 0 <= k < i ==> NodeMapped(t, nodes[k])
    {
      var n := nodes[i];
      if n.Id() !in t.manifests || t.manifests[n.Id()].hash != n.manifestDocumentHash
         || t.manifests[n.Id()].sizeBytes != n.manifestSize
      {
        return false;
      }
      for j := 0 to |n.artifacts|
        invariant forall k :: 0 <= k < j ==> ArtifactMapped(t, n.Id(), n.artifacts[k])
      {
        if !ArtifactMapped(t, n.Id(), n.artifacts[j]) { return false; }
      }
    }
    ok := true;
  }

  /** An existing receipt is either the same mapping throughout or a conflict. */
  lemma ExistingReceipt(cfg: Config, l: Ledger, q: Consumption)
    requires MaterialCoherent(cfg, l) && q.receipt.receiptHash in l.receipts && ValidClosure(cfg.sha, q.closure)
    requires l.receipts[q.receipt.receiptHash].receipt == q.receipt
    requires l.receipts[q.receipt.receiptHash].closureHash == q.closure.closureHash
    requires q.closure.closureHash in l.closures && l.closures[q.closure.closureHash].closure == q.closure
    ensures NodesConsistent(l, q.closure.releases) && ConsumeOutcome(l, q) == Replayed
    ensures RefIndex(q.closure.releases) + l.refs == l.refs
    ensures RequiredDigests(q.closure.releases) <= l.objects.Keys
    ensures NodesMapped(ContentOf(l), q.closure.releases)
  {
    hide ReceiptCoherent, ValidClosure, RefIndex;
    var nodes := q.closure.releases;
    assert ClosureCoherent(cfg, l, q.closure.closureHash, q.closure);
    forall i | 0 <= i < |nodes| ensures NodeConsistent(l, nodes[i]) && NodeMapped(ContentOf(l), nodes[i]) {
      StoredConsistent(l, nodes[i]);
    }
    forall r | r in NodeIds(nodes) ensures r in l.refs && r in l.manifests {
      var i :| 0 <= i < |nodes| && nodes[i].Id() == r;
      assert NodeStored(l, nodes[i]);
    }
    RefIndexKeys(nodes);
    forall d | d in RequiredDigests(nodes) ensures d in l.objects {
      RequiredStored(l, nodes, d);
    }
  }

  lemma StoredConsistent(l: Ledger, n: Node)
    requires NodeStored(l, n)
    ensures NodeConsistent(l, n) && NodeMapped(ContentOf(l), n)
  {
    forall j | 0 <= j < |n.artifacts|
      ensures ArtifactConsistent(l, n.Id(), n.artifacts[j])
              && ArtifactMapped(ContentOf(l), n.Id(), n.artifacts[j])
    {
      assert ArtifactStored(l, n.Id(), n.artifacts[j]);
    }
  }

  lemma RequiredStored(l: Ledger, nodes: seq<Node>, d: Digest)
    requires d in RequiredDigests(nodes) && forall i :: 0 <= i < |nodes| ==> NodeStored(l, nodes[i])
    ensures d in l.objects
  {
    if i :| 0 <= i < |nodes| && nodes[i].manifestDocumentHash == d {
      assert NodeStored(l, nodes[i]);
    } else {
      var i, j :| 0 <= i < |nodes| && 0 <= j < |nodes[i].artifacts| && nodes[i].artifacts[j].hash == d;
      assert NodeStored(l, nodes[i]);
      assert ArtifactStored(l, nodes[i].Id(), nodes[i].artifacts[j]);
    }
  }

  /** Judges a consumption whose receipt hash is already on record. */
  method ReplayConsumption(cfg: Config, db: Database, q: Consumption, ghost l: Ledger) returns (r: Option<StoreError>)
    requires MaterialCoherent(cfg, l) && db == Tables(cfg, l) && ValidClosure(cfg.sha, q.closure)
    requires q.receipt.receiptHash in l.receipts
    ensures r.None? <==> ConsumeOutcome(l, q) == Replayed
    ensures r.Some? ==> r.value == MappingConflict && Contradicts(l, q) && ConsumeOutcome(l, q) == Refused
    ensures r.None? ==> RefIndex(q.closure.releases) + l.refs == l.refs
    ensures r.None? ==> RequiredDigests(q.closure.releases) <= l.objects.Keys
  {
    hide Tables, MaterialCoherent, NodesConsistent, ContractFree, ReceiptVerifies, ClosureVerifies, ValidClosure,
         RefIndex, RequiredDigests, NodesMapped;
    var h, k := q.receipt.receiptHash, q.closure.closureHash;
    TableKeys(cfg, l);
    ReceiptTables(cfg, l, h);
    var row := db.documents.receipts[h];
    if row.document != q.receipt || row.documentHash != cfg.sha(ReceiptText(q.receipt)) { return Some(MappingConflict); }
    if db.documents.receiptClosures[h] != k { return Some(MappingConflict); }
    if k !in db.documents.closures { return Some(MappingConflict); }
    ClosureTables(cfg, l, k);
    var stored := db.documents.closures[k];
    if stored.document != q.closure || stored.documentHash != cfg.sha(ClosureText(q.closure)) { return Some(MappingConflict); }
    ExistingReceipt(cfg, l, q);
    var mapped := CheckMappings(db.content, q.closure.releases);
    if !mapped { return Some(MappingConflict); }
    ReceiptAccepted(cfg, l, h);
    ClosureAccepted(cfg, l, k);
    if !ReceiptVerifies(cfg.sha, db, h) || !ClosureVerifies(cfg.sha, db, k) { return Some(IntegrityFailure); }
    r := None;
  }

  /** The tables after a consumption commits. */
  function InsertConsumption(sha: Sha, db: Database, q: Consumption, content: ContentTables,
                             heads: map<Id, HeadsRow>, now: Time): Database {
    db.(content := content, documents := InsertDocuments(sha, db.documents, q, now),
        observed := db.observed.(heads := heads))
  }

  lemma ConsumptionTables(cfg: Config, l: Ledger, q: Consumption, files: Files, now: Time, heads: map<Id, HeadsRow>)
    requires RunsCoherent(cfg, l) && q.receipt.receiptHash !in l.receipts
    requires heads == map r | r in RefIndex(q.closure.releases) + l.refs :: HeadsRowOf(l.log, r)
    ensures var l' := WithConsumption(l, q, files, now);
            Tables(cfg, l') == InsertConsumption(cfg.sha, Tables(cfg, l), q, ContentOf(l'), heads, now)
  {
    var l' := WithConsumption(l, q, files, now);
    assert Grows(l.closures, l'.closures);
    assert l'.refs == RefIndex(q.closure.releases) + l.refs && l'.log == l.log;
    hide RunsCoherent, HeadsRowOf, RefIndex, WithConsumption, InsertDocuments, DocumentsOf, RunsOf, ContentOf,
         ObservationTable, FetchTable, StatusTable, AdmissionTable;
    DocumentsAfter(cfg.sha, l, q, files, now);
    RunsKept(cfg, l, q, files, now);
  }

  lemma RunsKept(cfg: Config, l: Ledger, q: Consumption, files: Files, now: Time)
    requires RunsCoherent(cfg, l)
    ensures RunsOf(cfg.sha, WithConsumption(l, q, files, now)) == RunsOf(cfg.sha, l)
  {
    hide RunsCoherent, RunsOf, RefIndex, ObjectRows, ManifestRows, ArtifactRows;
    RunsGrow(cfg, l, WithConsumption(l, q, files, now));
  }

  lemma RecordableFacts(cfg: Config, l: Ledger, q: Consumption)
    requires Coherent(cfg, l) && ValidClosure(cfg.sha, q.closure)
    ensures MaterialCoherent(cfg, l) && RunsCoherent(cfg, l) && NodesDistinct(q.closure.releases)
    ensures var db := Tables(cfg, l);
            && db.content == ContentOf(l)
            && db.observed.heads.Keys == l.refs.Keys
            && (forall x :: x in l.refs ==> db.observed.heads[x] == HeadsRowOf(l.log, x))
            && db.documents.receipts.Keys == l.receipts.Keys && db.documents.closures.Keys == l.closures.Keys
  {
    hide MaterialCoherent, LogCoherent, RunsCoherent, Accepted, ValidNode, ObservationTable, FetchTable, StatusTable,
         AdmissionTable, HeadsRowOf, RunsOf, ReleaseIndex, ArtifactIndex, DependencyIndex, ReceiptIndex, ReceiptRowOf,
         ClosureRowOf;
    NormalNodesDistinct(q.closure.releases);
  }

  /** What the identity and object inserts leave behind. */
  ghost predicate Ensured(cfg: Config, l: Ledger, nodes: seq<Node>, specs: Specs, refs: Refs, heads: map<Id, HeadsRow>,
                          objects: map<Digest, nat>) {
    var before := Tables(cfg, l).observed.heads;
    && refs == RefIndex(nodes) + l.refs && heads.Keys == refs.Keys
    && (forall x :: x in heads ==> heads[x] == if x in before then before[x] else HeadsRow(None, None, None))
    && objects == (map d | d in specs :: |specs[d]|) + l.objects
  }

  lemma NothingRegistered(objects: map<Digest, nat>, specs: Specs)
    requires specs.Keys <= objects.Keys
    ensures (map d | d in specs :: |specs[d]|) + objects == objects
  {
  }

  lemma NothingEnsured(before: map<Id, HeadsRow>, heads: map<Id, HeadsRow>)
    requires heads.Keys == before.Keys
    requires forall x :: x in heads ==> heads[x] == if x in before then before[x] else HeadsRow(None, None, None)
    ensures heads == before
  {
  }

  /** The inserts of an exact retry change nothing. */
  lemma RetryTables(cfg: Config, l: Ledger, q: Consumption, specs: Specs, refs: Refs, heads: map<Id, HeadsRow>,
                    objects: map<Digest, nat>)
    requires RefIndex(q.closure.releases) + l.refs == l.refs && RequiredDigests(q.closure.releases) <= l.objects.Keys
    requires SpecsCover(cfg.sha, specs, q.closure.releases) && Tables(cfg, l).observed.heads.Keys == l.refs.Keys
    requires Ensured(cfg, l, q.closure.releases, specs, refs, heads, objects)
    ensures refs == l.refs && heads == Tables(cfg, l).observed.heads && objects == l.objects
  {
    hide Tables, RefIndex, RequiredDigests, NodeCovered;
    NothingEnsured(Tables(cfg, l).observed.heads, heads);
    NothingRegistered(l.objects, specs);
  }

  lemma EnsuredHeads(cfg: Config, l: Ledger, nodes: seq<Node>, specs: Specs, refs: Refs, heads: map<Id, HeadsRow>,
                     objects: map<Digest, nat>)
    requires Coherent(cfg, l) && Ensured(cfg, l, nodes, specs, refs, heads, objects)
    requires Tables(cfg, l).observed.heads.Keys == l.refs.Keys
    requires forall x :: x in l.refs ==> Tables(cfg, l).observed.heads[x] == HeadsRowOf(l.log, x)
    ensures heads == map r | r in refs :: HeadsRowOf(l.log, r)
  {
    hide Coherent, Tables, RefIndex, HeadsRowOf;
    HeadsAfter(cfg, l, refs, heads);
  }

  lemma ContentAfter(l: Ledger, q: Consumption, files: Files, now: Time)
    ensures ContentOf(WithConsumption(l, q, files, now)) ==
            ContentTables(
              RefIndex(q.closure.releases) + l.refs,
              ObjectRows(q.closure.releases, files) + l.objects,
              ManifestRows(q.closure.releases, now) + l.manifests,
              (map key | key in ArtifactIndex(q.closure.releases) :: StoredArtifact(ArtifactIndex(q.closure.releases)[key], now))
                + l.artifacts)
  {
    hide RefIndex, ObjectRows, ManifestRows, ArtifactIndex;
    var nodes := q.closure.releases;
    assert ArtifactRows(nodes, now) == map key | key in ArtifactIndex(nodes) :: StoredArtifact(ArtifactIndex(nodes)[key], now);
  }

  /** The inserts of a new consumption are those of the ledger. */
  lemma InsertedTables(cfg: Config, l: Ledger, q: Consumption, files: Files, specs: Specs, now: Time, refs: Refs,
                       heads: map<Id, HeadsRow>, objects: map<Digest, nat>)
    requires Recordable(cfg, l, q, specs, files) && q.receipt.receiptHash !in l.receipts
    requires Ensured(cfg, l, q.closure.releases, specs, refs, heads, objects)
    ensures var l' := WithConsumption(l, q, files, now);
            && ContentOf(l') == ContentTables(refs, objects, ManifestRows(q.closure.releases, now) + l.manifests,
                 (map key | key in ArtifactIndex(q.closure.releases) :: StoredArtifact(ArtifactIndex(q.closure.releases)[key], now))
                   + l.artifacts)
            && Tables(cfg, l') == InsertConsumption(cfg.sha, Tables(cfg, l), q, ContentOf(l'), heads, now)
  {
    RecordableFacts(cfg, l, q);
    hide Coherent, ValidReceipt, ValidClosure, Tables, RefIndex, HeadsRowOf, MaterialCoherent, RunsCoherent,
         SpecsCover, InsertConsumption, ManifestRows, ArtifactIndex, WithConsumption, ObjectRows;
    ContentAfter(l, q, files, now);
    ObjectRowsAre(cfg.sha, q.closure.releases, files, specs);
    EnsuredHeads(cfg, l, q.closure.releases, specs, refs, heads, objects);
    ConsumptionTables(cfg, l, q, files, now, heads);
  }

  /** The document rows of one consumption, built index by index. */
  method InsertDocumentRows(sha: Sha, t: DocumentTables, q: Consumption, now: Time) returns (t': DocumentTables)
    ensures t' == InsertDocuments(sha, t, q, now)
  {
    hide ReleaseIndex, DependencyIndex, ArtifactIndex, ReceiptIndex, ReceiptRowOf, ClosureRowOf;
    var h, k := q.receipt.receiptHash, q.closure.closureHash;
    var nodes := q.closure.releases;
    t' := t;
    if k !in t.closures {
      var releases := IndexReleases(nodes);
      var edges := IndexDependencies(nodes);
      var artifacts := IndexArtifacts(nodes);
      t' := t.(closures := t.closures[k := ClosureRowOf(sha, ClosureEntry(q.closure, now))],
               closureReleases := t.closureReleases[k := releases],
               closureDependencies := t.closureDependencies[k := edges],
               closureArtifacts := t.closureArtifacts[k := artifacts]);
    }
    var descriptors := IndexReceipt(q.receipt.artifacts);
    t' := t'.(receipts := t'.receipts[h := ReceiptRowOf(sha, ReceiptEntry(q.receipt, k, now))],
              receiptArtifacts := t'.receiptArtifacts[h := descriptors],
              receiptClosures := t'.receiptClosures[h := k]);
  }

  /** A closure already stored under this hash must be this very closure; then it verifies. */
  method CheckStoredClosure(cfg: Config, db: Database, c: Closure, ghost l: Ledger) returns (e: Option<StoreError>)
    requires MaterialCoherent(cfg, l) && db == Tables(cfg, l)
    ensures e.None? <==> (c.closureHash in l.closures ==> l.closures[c.closureHash].closure == c)
    ensures e.Some? ==> e.value == MappingConflict
  {
    hide MaterialCoherent, ClosureVerifies, Tables;
    var k := c.closureHash;
    TableKeys(cfg, l);
    if k in db.documents.closures {
      ClosureTables(cfg, l, k);
      var stored := db.documents.closures[k];
      if stored.document != c || stored.documentHash != cfg.sha(ClosureText(c)) {
        return Some(MappingConflict);
      }
      ClosureAccepted(cfg, l, k);
      if !ClosureVerifies(cfg.sha, db, k) { return Some(IntegrityFailure); }
    }
    e := None;
  }

  /** The rest of the transaction for a receipt on record: what was ensured before was there already. */
  method RecordKnown(cfg: Config, db: Database, files: Files, q: Consumption, specs: Specs, refs: Refs,
                     heads: map<Id, HeadsRow>, objects: map<Digest, nat>, ghost l: Ledger)
    returns (r: Result<Database, StoreError>)
    requires Recordable(cfg, l, q, specs, files) && db == Tables(cfg, l) && q.receipt.receiptHash in l.receipts
    requires Ensured(cfg, l, q.closure.releases, specs, refs, heads, objects)
    ensures r.Ok? <==> ConsumeOutcome(l, q) == Replayed
    ensures r.Err? ==> r.error == MappingConflict && Contradicts(l, q) && ConsumeOutcome(l, q) == Refused
    ensures r.Ok? ==> r.value == Tables(cfg, l)
  {
    hide Coherent, Tables, ValidReceipt, ValidClosure, SpecsCover, NodesConsistent, ContractFree, RefsFit, SizesFit,
         ManifestsFit, ArtifactsFit, RefIndex, RequiredDigests, Ensured;
    RecordableFacts(cfg, l, q);
    var replayed := ReplayConsumption(cfg, db, q, l);
    if replayed.Some? { return Err(replayed.value); }
    RetryTables(cfg, l, q, specs, refs, heads, objects);
    var content := db.content.(identities := refs, objects := objects);
    assert content == db.content;
    r := Ok(db.(content := content, observed := db.observed.(heads := heads)));
  }

  /** The rest of the transaction for a receipt that is not on record yet. */
  method RecordNew(cfg: Config, db: Database, files: Files, q: Consumption, specs: Specs, now: Time, refs: Refs,
                   heads: map<Id, HeadsRow>, objects: map<Digest, nat>, ghost l: Ledger)
    returns (r: Result<Database, StoreError>)
    requires Recordable(cfg, l, q, specs, files) && db == Tables(cfg, l) && q.receipt.receiptHash !in l.receipts
    requires RefsFit(l.refs, q.closure.releases) && SizesFit(l.objects, specs) && ContractFree(l, q.receipt)
    requires Ensured(cfg, l, q.closure.releases, specs, refs, heads, objects)
    ensures r.Ok? <==> ConsumeOutcome(l, q) == Committed
    ensures r.Err? ==> (r.error == MappingConflict && Contradicts(l, q))
                       || (r.error == IntegerOverflow && !CountsFit(ArtifactIndex(q.closure.releases)))
    ensures r.Ok? ==> r.value == Tables(cfg, WithConsumption(l, q, files, now))
  {
    hide Coherent, Tables, ValidReceipt, ValidClosure, SpecsCover, NodesConsistent, ContractFree, RefsFit, SizesFit,
         ManifestsFit, ArtifactsFit, RefIndex, ArtifactIndex, InsertDocuments, WithConsumption, RequiredDigests, Ensured,
         CountsFit, CountsStored;
    var nodes := q.closure.releases;
    ConsistencySplit(cfg, l, q.closure, specs);
    RecordableFacts(cfg, l, q);
    var stored := CheckStoredClosure(cfg, db, q.closure, l);
    if stored.Some? { return Err(stored.value); }
    var manifests := InsertManifests(db.content.manifests, nodes, now);
    if manifests.None? { return Err(MappingConflict); }
    var index := IndexArtifacts(nodes);
    var artifacts := InsertArtifacts(db.content.artifacts, index, now);
    if artifacts.Err? { return Err(if artifacts.error == Remapped then MappingConflict else IntegerOverflow); }
    InsertedTables(cfg, l, q, files, specs, now, refs, heads, objects);
    var content := ContentTables(refs, objects, manifests.value, artifacts.value);
    var documents := InsertDocumentRows(cfg.sha, db.documents, q, now);
    r := Ok(db.(content := content, documents := documents, observed := db.observed.(heads := heads)));
  }

  /** The first inserts: release identities with their empty heads, then the registered objects. */
  method EnsureRows(cfg: Config, db: Database, files: Files, q: Consumption, specs: Specs, ghost l: Ledger)
    returns (r: Result<(Refs, map<Id, HeadsRow>, map<Digest, nat>), StoreError>)
    requires Recordable(cfg, l, q, specs, files) && db == Tables(cfg, l)
    ensures r.Ok? <==> RefsFit(l.refs, q.closure.releases) && SizesFit(l.objects, specs)
    ensures r.Err? ==> r.error == if RefsFit(l.refs, q.closure.releases) then IntegrityFailure else MappingConflict
    ensures r.Ok? ==> Ensured(cfg, l, q.closure.releases, specs, r.value.0, r.value.1, r.value.2)
  {
    hide Coherent, Tables, ValidReceipt, ValidClosure, SpecsCover, RefsFit, SizesFit, RefIndex;
    RecordableFacts(cfg, l, q);
    var identities := EnsureIdentities(db.content.identities, db.observed.heads, q.closure.releases);
    if identities.None? { return Err(MappingConflict); }
    var objects := EnsureObjects(cfg.sha, db.content.objects, files, specs);
    if objects.None? { return Err(IntegrityFailure); }
    r := Ok((identities.value.0, identities.value.1, objects.value));
  }

  /** What the first three steps refuse is refused by the outcome too. */
  lemma RefusedEarly(cfg: Config, l: Ledger, q: Consumption, specs: Specs)
    requires ValidClosure(cfg.sha, q.closure) && SpecsCover(cfg.sha, specs, q.closure.releases)
    ensures !RefsFit(l.refs, q.closure.releases) || !SizesFit(l.objects, specs) || !ContractFree(l, q.receipt) ==>
              Contradicts(l, q) && ConsumeOutcome(l, q) == Refused
    ensures q.receipt.receiptHash in l.receipts ==> ConsumeOutcome(l, q) != Committed
    ensures q.receipt.receiptHash !in l.receipts ==> ConsumeOutcome(l, q) != Replayed
  {
    hide ValidClosure, SpecsCover, NodesConsistent, ContractFree, RefsFit, SizesFit, ManifestsFit, ArtifactsFit;
    ConsistencySplit(cfg, l, q.closure, specs);
  }

  /**
   The metadata transaction: refused with the tables untouched, recognised as an
   exact retry, or committed with everything the consumption makes visible.
   */
  method RecordTransaction(cfg: Config, db: Database, files: Files, q: Consumption, specs: Specs, now: Time, ghost l: Ledger)
    returns (r: Result<(bool, Database), StoreError>)
    requires Recordable(cfg, l, q, specs, files) && db == Tables(cfg, l)
    ensures r.Err? <==> ConsumeOutcome(l, q) == Refused
    ensures r == Err(IntegrityFailure) <==> RefsFit(l.refs, q.closure.releases) && !SizesFit(l.objects, specs)
    ensures r.Err? && r.error != IntegrityFailure ==>
              || (r.error == MappingConflict && Contradicts(l, q))
              || (r.error == IntegerOverflow && !CountsFit(ArtifactIndex(q.closure.releases)))
    ensures r.Ok? ==> (r.value.0 <==> ConsumeOutcome(l, q) == Committed)
    ensures r.Ok? ==> r.value.1 == Tables(cfg, Consumed(l, q, files, now))
  {
    hide Coherent, Tables, ValidReceipt, ValidClosure, SpecsCover, NodesConsistent, ContractFree, RefsFit, SizesFit,
         ManifestsFit, ArtifactsFit, RefIndex, ForContract, WithConsumption, RequiredDigests, ConsumeOutcome, Contradicts, Ensured,
         CountsFit;
    var h := q.receipt.receiptHash;
    RefusedEarly(cfg, l, q, specs);
    RecordableFacts(cfg, l, q);
    var ensured := EnsureRows(cfg, db, files, q, specs, l);
    if ensured.Err? { return Err(ensured.error); }
    var (refs, heads, objects) := ensured.value;
    var contract := FindContract(db, q.receipt.inputRef.releaseId, q.receipt.contractVersion);
    ContractFound(cfg, l, q.receipt, contract);
    if contract.Some? && contract.value != h { return Err(MappingConflict); }
    if h in db.documents.receipts {
      var known := RecordKnown(cfg, db, files, q, specs, refs, heads, objects, l);
      if known.Err? { return Err(known.error); }
      return Ok((false, known.value));
    }
    var recorded := RecordNew(cfg, db, files, q, specs, now, refs, heads, objects, l);
    if recorded.Err? { return Err(recorded.error); }
    r := Ok((true, recorded.value));
  }
}
