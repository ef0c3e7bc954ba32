/**
 What recording a consumption answers, read off the payload lists and the stored
 rows: which payloads are taken, which documents, and what is on record afterwards.
 */
module ConsumptionRules {
  import opened Basics
  import opened Contracts
  import opened ObservationLog
  import opened RetentionGraph
  import opened RetentionIndex
  import opened Ledgers
  import opened LedgerInvariant
  import opened LedgerRuns
  import opened StoreRecording
  import opened StoreConsumption

  /* ---- The payloads ---- */

  /** The content a payload list gives for a name. */
  predicate Gives<K(!new, ==)>(payloads: seq<(K, Bytes)>, k: K, content: Bytes) {
    exists i :: 0 <= i < |payloads| && payloads[i] == (k, content)
  }

  predicate Fits(sha: Sha, content: Bytes, d: Digest, size: nat) {
    |content| == size && sha(Blob(content)) == d
  }

  /** The list gives the name a content of this size and hash. */
  ghost predicate GivenFit<K(!new)>(sha: Sha, payloads: seq<(K, Bytes)>, k: K, d: Digest, size: nat) {
    exists c :: Gives(payloads, k, c) && Fits(sha, c, d, size)
  }

  /** The payloads of one release: its manifest and each of its artifacts, with the declared size and hash. */
  ghost predicate NodeGiven(sha: Sha, n: Node, artifacts: seq<((Id, Id), Bytes)>, manifests: seq<(Id, Bytes)>) {
    var r := n.inputRef.releaseId;
    && GivenFit(sha, manifests, r, n.manifestDocumentHash, n.manifestSize)
    && forall j :: 0 <= j < |n.artifacts| ==>
         GivenFit(sha, artifacts, (r, n.artifacts[j].artifactId), n.artifacts[j].hash, n.artifacts[j].sizeBytes)
  }

  /** The payload is that of an artifact of some release. */
  predicate ArtifactDeclared(nodes: seq<Node>, key: (Id, Id)) {
    exists i, j :: 0 <= i < |nodes| && 0 <= j < |nodes[i].artifacts|
                   && key == (nodes[i].inputRef.releaseId, nodes[i].artifacts[j].artifactId)
  }

  predicate ReleaseDeclared(nodes: seq<Node>, r: Id) {
    exists i :: 0 <= i < |nodes| && nodes[i].inputRef.releaseId == r
  }

  /** Some payload has this content. */
  ghost predicate AnyContent(artifacts: seq<((Id, Id), Bytes)>, manifests: seq<(Id, Bytes)>, c: Bytes) {
    (exists key :: Gives(artifacts, key, c)) || (exists r :: Gives(manifests, r, c))
  }

  /** Receipt and closure are about the same input and the same root artifacts. */
  predicate SameRoot(receipt: Receipt, closure: Closure) {
    && receipt.inputRef == closure.root
    && forall i :: 0 <= i < |closure.releases| && closure.releases[i].inputRef.releaseId == receipt.inputRef.releaseId ==>
         closure.releases[i].artifacts == receipt.artifacts
  }

  /** Everything that has to hold of the payloads. */
  ghost predicate PayloadsComplete(sha: Sha, receipt: Receipt, closure: Closure, artifacts: seq<((Id, Id), Bytes)>,
                                   manifests: seq<(Id, Bytes)>) {
    && SameRoot(receipt, closure)
    && (forall i, j :: 0 <= i < |artifacts| && 0 <= j < |artifacts| && artifacts[i].0 == artifacts[j].0 ==> i == j)
    && (forall i, j :: 0 <= i < |manifests| && 0 <= j < |manifests| && manifests[i].0 == manifests[j].0 ==> i == j)
    && (forall i :: 0 <= i < |artifacts| ==> ArtifactDeclared(closure.releases, artifacts[i].0))
    && (forall i :: 0 <= i < |manifests| ==> ReleaseDeclared(closure.releases, manifests[i].0))
    && (forall i :: 0 <= i < |closure.releases| ==> NodeGiven(sha, closure.releases[i], artifacts, manifests))
    && forall a, b | AnyContent(artifacts, manifests, a) && AnyContent(artifacts, manifests, b) ::
         sha(Blob(a)) == sha(Blob(b)) ==> a == b
  }

  lemma {:induction false} GivesExact<K(!new)>(payloads: seq<(K, Bytes)>, k: K, content: Bytes)
    requires ListedOnce(payloads)
    ensures Gives(payloads, k, content) <==> k in PayloadIndex(payloads) && PayloadIndex(payloads)[k] == content
  {
    PayloadIndexExact(payloads);
  }

  lemma ListedExact<K(!new)>(payloads: seq<(K, Bytes)>)
    ensures ListedOnce(payloads) <==>
              forall i, j :: 0 <= i < |payloads| && 0 <= j < |payloads| && payloads[i].0 == payloads[j].0 ==> i == j
  {
    if ListedOnce(payloads) {
      forall i, j | 0 <= i < |payloads| && 0 <= j < |payloads| && payloads[i].0 == payloads[j].0 ensures i == j {}
    }
  }

  lemma {:induction false} GivenFitExact<K(!new)>(sha: Sha, payloads: seq<(K, Bytes)>, k: K, d: Digest, size: nat)
    requires ListedOnce(payloads)
    ensures GivenFit(sha, payloads, k, d, size) <==>
              k in PayloadIndex(payloads) && PayloadVerifies(sha, PayloadIndex(payloads)[k], d, size)
  {
    hide ListedOnce, PayloadIndex, Gives;
    forall c ensures Gives(payloads, k, c) <==> k in PayloadIndex(payloads) && PayloadIndex(payloads)[k] == c {
      GivesExact(payloads, k, c);
    }
    if k in PayloadIndex(payloads) { assert Gives(payloads, k, PayloadIndex(payloads)[k]); }
  }

  lemma {:induction false} NodeExact(sha: Sha, q: Consumption, n: Node, artifacts: seq<((Id, Id), Bytes)>, manifests: seq<(Id, Bytes)>)
    requires ListedOnce(artifacts) && ListedOnce(manifests)
    requires q.artifacts == PayloadIndex(artifacts) && q.manifests == PayloadIndex(manifests)
    ensures NodePayloads(sha, q, n) <==> NodeGiven(sha, n, artifacts, manifests)
  {
    hide ListedOnce, PayloadIndex, GivenFit;
    var r := n.inputRef.releaseId;
    GivenFitExact(sha, manifests, r, n.manifestDocumentHash, n.manifestSize);
    forall j | 0 <= j < |n.artifacts|
      ensures var key := (r, n.artifacts[j].artifactId);
              GivenFit(sha, artifacts, key, n.artifacts[j].hash, n.artifacts[j].sizeBytes) <==>
                key in q.artifacts && PayloadVerifies(sha, q.artifacts[key], n.artifacts[j].hash, n.artifacts[j].sizeBytes)
    {
      GivenFitExact(sha, artifacts, (r, n.artifacts[j].artifactId), n.artifacts[j].hash, n.artifacts[j].sizeBytes);
    }
  }

  lemma {:induction false} ArtifactsDeclaredExact(nodes: seq<Node>, artifacts: seq<((Id, Id), Bytes)>)
    requires NodesProper(nodes) && ListedOnce(artifacts)
    ensures PayloadIndex(artifacts).Keys <= ArtifactIndex(nodes).Keys <==>
              forall i :: 0 <= i < |artifacts| ==> ArtifactDeclared(nodes, artifacts[i].0)
  {
    hide ListedOnce, NodesProper, ArtifactIndex, PayloadIndex;
    PayloadIndexExact(artifacts);
    forall key ensures ArtifactDeclared(nodes, key) <==> key in ArtifactIndex(nodes) { DeclaredExact(nodes, key); }
    hide ArtifactDeclared;
    if PayloadIndex(artifacts).Keys <= ArtifactIndex(nodes).Keys {
      forall i | 0 <= i < |artifacts| ensures ArtifactDeclared(nodes, artifacts[i].0) {
        assert artifacts[i].0 in PayloadIndex(artifacts).Keys;
      }
    }
  }

  lemma {:induction false} DeclaredExact(nodes: seq<Node>, key: (Id, Id))
    requires NodesProper(nodes)
    ensures ArtifactDeclared(nodes, key) <==> key in ArtifactIndex(nodes)
  {
    hide NodesProper, ArtifactIndex;
    if ArtifactDeclared(nodes, key) {
      var i, j :| 0 <= i < |nodes| && 0 <= j < |nodes[i].artifacts|
                  && key == (nodes[i].inputRef.releaseId, nodes[i].artifacts[j].artifactId);
      ArtifactIndexed(nodes, i, j);
    }
    if key in ArtifactIndex(nodes) {
      var i, j := IndexedArtifact(nodes, key);
    }
  }

  lemma {:induction false} ManifestsDeclaredExact(nodes: seq<Node>, manifests: seq<(Id, Bytes)>)
    requires ListedOnce(manifests)
    ensures PayloadIndex(manifests).Keys <= NodeIds(nodes) <==>
              forall i :: 0 <= i < |manifests| ==> ReleaseDeclared(nodes, manifests[i].0)
  {
    hide ListedOnce, PayloadIndex;
    PayloadIndexExact(manifests);
    forall r ensures ReleaseDeclared(nodes, r) <==> r in NodeIds(nodes) { ReleaseExact(nodes, r); }
    hide ReleaseDeclared, NodeIds;
    if PayloadIndex(manifests).Keys <= NodeIds(nodes) {
      forall i | 0 <= i < |manifests| ensures ReleaseDeclared(nodes, manifests[i].0) {
        assert manifests[i].0 in PayloadIndex(manifests).Keys;
      }
    }
  }

  lemma ReleaseExact(nodes: seq<Node>, r: Id)
    ensures ReleaseDeclared(nodes, r) <==> r in NodeIds(nodes)
  {
    if i :| 0 <= i < |nodes| && nodes[i].inputRef.releaseId == r { assert nodes[i].Id() == r; }
  }

  lemma RootExact(receipt: Receipt, closure: Closure)
    ensures RootMatches(receipt, closure) <==> SameRoot(receipt, closure)
  {
  }

  lemma {:induction false} CollisionExact(sha: Sha, q: Consumption, artifacts: seq<((Id, Id), Bytes)>, manifests: seq<(Id, Bytes)>)
    requires ListedOnce(artifacts) && ListedOnce(manifests)
    requires q.artifacts == PayloadIndex(artifacts) && q.manifests == PayloadIndex(manifests)
    ensures CollisionFree(sha, q) <==>
              forall a, b | AnyContent(artifacts, manifests, a) && AnyContent(artifacts, manifests, b) ::
                sha(Blob(a)) == sha(Blob(b)) ==> a == b
  {
    hide ListedOnce, PayloadIndex, Gives;
    forall c ensures AnyContent(artifacts, manifests, c) <==> c in q.artifacts.Values + q.manifests.Values {
      forall key ensures Gives(artifacts, key, c) <==> key in q.artifacts && q.artifacts[key] == c {
        GivesExact(artifacts, key, c);
      }
      forall r ensures Gives(manifests, r, c) <==> r in q.manifests && q.manifests[r] == c { GivesExact(manifests, r, c); }
    }
    hide AnyContent;
  }

  /** The payload lists are taken exactly when they are complete. */
  lemma PayloadsExact(sha: Sha, receipt: Receipt, closure: Closure, artifacts: seq<((Id, Id), Bytes)>,
                      manifests: seq<(Id, Bytes)>)
    requires ValidClosure(sha, closure)
    ensures PayloadsAccepted(sha, receipt, closure, artifacts, manifests) <==>
              PayloadsComplete(sha, receipt, closure, artifacts, manifests)
  {
    hide ListedOnce, ValidClosure, RootMatches, SameRoot, PayloadIndex, NodePayloads, NodeGiven, CollisionFree, AnyContent,
         ArtifactDeclared, ReleaseDeclared, ArtifactIndex, NodeIds;
    ListedExact(artifacts);
    ListedExact(manifests);
    RootExact(receipt, closure);
    if ListedOnce(artifacts) && ListedOnce(manifests) {
      var q := Listed(receipt, closure, artifacts, manifests);
      var nodes := closure.releases;
      ClosureNodesProper(sha, closure);
      ArtifactsDeclaredExact(nodes, artifacts);
      ManifestsDeclaredExact(nodes, manifests);
      CollisionExact(sha, q, artifacts, manifests);
      forall n ensures NodePayloads(sha, q, n) <==> NodeGiven(sha, n, artifacts, manifests) {
        NodeExact(sha, q, n, artifacts, manifests);
      }
      if forall i :: 0 <= i < |nodes| ==> NodePayloads(sha, q, nodes[i]) { GivenCovers(sha, q); }
    }
  }

  /** When every release has its payloads, none is missing from the lists. */
  lemma GivenCovers(sha: Sha, q: Consumption)
    requires NodesProper(q.closure.releases)
    requires forall i :: 0 <= i < |q.closure.releases| ==> NodePayloads(sha, q, q.closure.releases[i])
    ensures ArtifactIndex(q.closure.releases).Keys <= q.artifacts.Keys && NodeIds(q.closure.releases) <= q.manifests.Keys
  {
    hide NodesProper, ArtifactIndex;
    var nodes := q.closure.releases;
    forall key | key in ArtifactIndex(nodes) ensures key in q.artifacts {
      var i, j := IndexedArtifact(nodes, key);
      assert NodePayloads(sha, q, nodes[i]);
    }
    forall r | r in NodeIds(nodes) ensures r in q.manifests {
      var i :| 0 <= i < |nodes| && nodes[i].Id() == r;
      assert NodePayloads(sha, q, nodes[i]);
    }
  }

  /* ---- The answers ---- */

  /** Nothing on record says anything else of this release. */
  predicate NodeAgrees(l: Ledger, n: Node) {
    var r := n.inputRef.releaseId;
    && (r in l.refs ==> l.refs[r] == n.inputRef)
    && (r in l.manifests ==> l.manifests[r].hash == n.manifestDocumentHash && l.manifests[r].sizeBytes == n.manifestSize)
    && (n.manifestDocumentHash in l.objects ==> l.objects[n.manifestDocumentHash] == n.manifestSize)
    && forall j :: 0 <= j < |n.artifacts| ==>
         var a := n.artifacts[j];
         && ((r, a.artifactId) in l.artifacts ==> l.artifacts[(r, a.artifactId)].artifact == a)
         && (a.hash in l.objects ==> l.objects[a.hash] == a.sizeBytes)
         && (a.recordCount.Some? ==> a.recordCount.value <= 9_223_372_036_854_775_807)
  }

  /** Everything that has to hold of what is on record. */
  predicate Recordable(l: Ledger, receipt: Receipt, closure: Closure) {
    && receipt.receiptHash !in l.receipts
    && (forall h :: h in l.receipts ==>
          || l.receipts[h].receipt.inputRef.releaseId != receipt.inputRef.releaseId
          || l.receipts[h].receipt.contractVersion != receipt.contractVersion)
    && (closure.closureHash in l.closures ==> l.closures[closure.closureHash].closure == closure)
    && forall i :: 0 <= i < |closure.releases| ==> NodeAgrees(l, closure.releases[i])
  }

  lemma {:induction false} CountsExact(nodes: seq<Node>)
    requires NodesProper(nodes)
    ensures CountsFit(ArtifactIndex(nodes)) <==>
              forall i, j :: 0 <= i < |nodes| && 0 <= j < |nodes[i].artifacts| ==> CountFits(nodes[i].artifacts[j])
  {
    hide NodesProper, ArtifactIndex, CountFits;
    if CountsFit(ArtifactIndex(nodes)) {
      forall i, j | 0 <= i < |nodes| && 0 <= j < |nodes[i].artifacts| ensures CountFits(nodes[i].artifacts[j]) {
        ArtifactIndexed(nodes, i, j);
      }
    }
    if forall i, j :: 0 <= i < |nodes| && 0 <= j < |nodes[i].artifacts| ==> CountFits(nodes[i].artifacts[j]) {
      forall key | key in ArtifactIndex(nodes) ensures CountFits(ArtifactIndex(nodes)[key]) {
        var i, j := IndexedArtifact(nodes, key);
      }
    }
  }

  predicate NodeCounts(n: Node) {
    forall j :: 0 <= j < |n.artifacts| ==> CountFits(n.artifacts[j])
  }

  lemma NodeAgreesExact(l: Ledger, n: Node)
    ensures NodeAgrees(l, n) <==> NodeConsistent(l, n) && NodeCounts(n)
  {
    if NodeConsistent(l, n) && NodeCounts(n) {
      forall j | 0 <= j < |n.artifacts|
        ensures var a := n.artifacts[j];
                && ((n.Id(), a.artifactId) in l.artifacts ==> l.artifacts[(n.Id(), a.artifactId)].artifact == a)
                && (a.hash in l.objects ==> l.objects[a.hash] == a.sizeBytes)
                && (a.recordCount.Some? ==> a.recordCount.value <= 9_223_372_036_854_775_807)
      {
        assert ArtifactConsistent(l, n.Id(), n.artifacts[j]) && CountFits(n.artifacts[j]);
      }
    }
  }

  lemma NodesAgreeExact(sha: Sha, l: Ledger, c: Closure)
    requires ValidClosure(sha, c)
    ensures NodesConsistent(l, c.releases) && CountsFit(ArtifactIndex(c.releases)) <==>
              forall i :: 0 <= i < |c.releases| ==> NodeAgrees(l, c.releases[i])
  {
    hide ValidClosure, ArtifactIndex, NodeConsistent, NodeAgrees;
    ClosureNodesProper(sha, c);
    CountsExact(c.releases);
    forall n ensures NodeAgrees(l, n) <==> NodeConsistent(l, n) && NodeCounts(n) { NodeAgreesExact(l, n); }
    if forall i, j :: 0 <= i < |c.releases| && 0 <= j < |c.releases[i].artifacts| ==> CountFits(c.releases[i].artifacts[j]) {
      assert forall i :: 0 <= i < |c.releases| ==> NodeCounts(c.releases[i]);
    }
    if forall i :: 0 <= i < |c.releases| ==> NodeCounts(c.releases[i]) {
      forall i, j | 0 <= i < |c.releases| && 0 <= j < |c.releases[i].artifacts| ensures CountFits(c.releases[i].artifacts[j]) {
        assert NodeCounts(c.releases[i]);
      }
    }
  }

  /**
   A consumption commits exactly when it is new and nothing on record says otherwise,
   and is a repetition exactly when its receipt and closure are on record together.
   */
  lemma ConsumeExact(cfg: Config, l: Ledger, q: Consumption)
    requires Coherent(cfg, l) && ValidReceipt(cfg.sha, q.receipt) && ValidClosure(cfg.sha, q.closure)
    ensures ConsumeOutcome(l, q) == Committed <==> Recordable(l, q.receipt, q.closure)
    ensures ConsumeOutcome(l, q) == Replayed <==>
              && q.receipt.receiptHash in l.receipts && l.receipts[q.receipt.receiptHash].receipt == q.receipt
              && l.receipts[q.receipt.receiptHash].closureHash == q.closure.closureHash
              && q.closure.closureHash in l.closures && l.closures[q.closure.closureHash].closure == q.closure
  {
    hide MaterialCoherent, LogCoherent, RunsCoherent, ValidReceipt, ValidClosure, NodesConsistent, CountsFit, NodeAgrees,
         ArtifactIndex;
    NodesAgreeExact(cfg.sha, l, q.closure);
    var h, k := q.receipt.receiptHash, q.closure.closureHash;
    if h in l.receipts && l.receipts[h].receipt == q.receipt && l.receipts[h].closureHash == k
       && k in l.closures && l.closures[k].closure == q.closure
    {
      ExistingReceipt(cfg, l, q);
    }
  }

  /* ---- What is on record afterwards ---- */

  /** The rows of one release, and the registered objects it needs. */
  predicate NodeOnRecord(l: Ledger, n: Node) {
    var r := n.inputRef.releaseId;
    && r in l.refs && l.refs[r] == n.inputRef
    && r in l.manifests && l.manifests[r].hash == n.manifestDocumentHash && l.manifests[r].sizeBytes == n.manifestSize
    && n.manifestDocumentHash in l.objects && l.objects[n.manifestDocumentHash] == n.manifestSize
    && forall j :: 0 <= j < |n.artifacts| ==>
         var a := n.artifacts[j];
         && (r, a.artifactId) in l.artifacts && l.artifacts[(r, a.artifactId)].artifact == a
         && a.hash in l.objects && l.objects[a.hash] == a.sizeBytes
  }

  /**
   A committed consumption leaves its receipt with its closure and every row of every
   release; each row that was there before is unchanged, and each new one is one of these.
   */
  lemma ConsumedExact(cfg: Config, l: Ledger, q: Consumption, files: Files, now: Time)
    requires Coherent(cfg, l) && ValidReceipt(cfg.sha, q.receipt) && ValidClosure(cfg.sha, q.closure)
    requires RootMatches(q.receipt, q.closure) && ClosureFilesVerify(cfg.sha, files, q.closure)
    ensures ConsumeOutcome(l, q) != Committed ==> Consumed(l, q, files, now) == l
    ensures ConsumeOutcome(l, q) == Committed ==>
              var l' := Consumed(l, q, files, now);
              && Extends(l, l') && l'.log == l.log && l'.pins == l.pins && l'.confirmations == l.confirmations
              && l'.receipts == l.receipts[q.receipt.receiptHash := ReceiptEntry(q.receipt, q.closure.closureHash, now)]
              && q.closure.closureHash in l'.closures && l'.closures[q.closure.closureHash].closure == q.closure
              && (forall k :: k in l'.closures && k !in l.closures ==>
                    k == q.closure.closureHash && l'.closures[k].persistedAt == now)
              && (forall i :: 0 <= i < |q.closure.releases| ==> NodeOnRecord(l', q.closure.releases[i]))
              && (forall r :: r in l'.refs && r !in l.refs ==> ReleaseDeclared(q.closure.releases, r))
              && (forall r :: r in l'.manifests && r !in l.manifests ==>
                    ReleaseDeclared(q.closure.releases, r) && l'.manifests[r].persistedAt == now)
              && (forall key :: key in l'.artifacts && key !in l.artifacts ==>
                    ArtifactDeclared(q.closure.releases, key) && l'.artifacts[key].persistedAt == now)
              && (forall d :: d in l'.objects && d !in l.objects ==> d in RequiredDigests(q.closure.releases))
  {
    hide Coherent, ValidReceipt, ValidClosure, RootMatches, ClosureFilesVerify, ConsumeOutcome, Extends, RefIndex,
         ReleaseIndex, ArtifactIndex, NodeOnRecord, ReleaseDeclared, ArtifactDeclared, RequiredDigests;
    if ConsumeOutcome(l, q) == Committed {
      var l' := Consumed(l, q, files, now);
      var nodes := q.closure.releases;
      CommittedNew(cfg, l, q);
      ConsumptionExtends(l, q, files, now);
      ConsumeKeeps(cfg, l, q, files, now);
      ClosureNodesProper(cfg.sha, q.closure);
      ProperDistinct(nodes);
      ReleaseIndexExact(nodes);
      forall r ensures ReleaseDeclared(nodes, r) <==> r in NodeIds(nodes) { ReleaseExact(nodes, r); }
      forall key ensures ArtifactDeclared(nodes, key) <==> key in ArtifactIndex(nodes) { DeclaredExact(nodes, key); }
      forall i | 0 <= i < |nodes| ensures NodeOnRecord(l', nodes[i]) {
        NodeStoredAfter(cfg, l, q, files, now, i);
        NodeRecorded(l', nodes[i]);
      }
    }
  }

  lemma CommittedNew(cfg: Config, l: Ledger, q: Consumption)
    requires ConsumeOutcome(l, q) == Committed
    ensures q.receipt.receiptHash !in l.receipts && NodesConsistent(l, q.closure.releases)
    ensures q.closure.closureHash in l.closures ==> l.closures[q.closure.closureHash].closure == q.closure
  {
  }

  lemma NodeRecorded(l: Ledger, n: Node)
    requires NodeStored(l, n)
    ensures NodeOnRecord(l, n)
  {
    forall j | 0 <= j < |n.artifacts| ensures ArtifactStored(l, n.Id(), n.artifacts[j]) {}
  }

  /** What is already under a needed digest is that content, with that size. */
  predicate NothingInTheWay(sha: Sha, files: Files, d: Digest, size: nat) {
    d in files ==> |files[d]| == size && sha(Blob(files[d])) == d
  }

  lemma PlaceableExact(sha: Sha, files: Files, nodes: seq<Node>)
    ensures Placeable(sha, files, nodes) <==>
              forall i :: 0 <= i < |nodes| ==>
                && NothingInTheWay(sha, files, nodes[i].manifestDocumentHash, nodes[i].manifestSize)
                && forall j :: 0 <= j < |nodes[i].artifacts| ==>
                     NothingInTheWay(sha, files, nodes[i].artifacts[j].hash, nodes[i].artifacts[j].sizeBytes)
  {
    if Placeable(sha, files, nodes) {
      forall i | 0 <= i < |nodes| ensures NodePlaceable(sha, files, nodes[i]) {}
    }
  }

  /* ---- The answers in every later world ---- */

  /** Recording again what was once committed is recognised in every later world and changes nothing. */
  lemma ConsumptionRepeated(cfg: Config, ws: seq<World>, ops: seq<Op>, i: nat, j: nat, q: Consumption, files: Files, now: Time)
    requires Behaviour(cfg, ws, ops) && i <= j < |ws| && Coherent(cfg, ws[i].ledger)
    requires ValidReceipt(cfg.sha, q.receipt) && ValidClosure(cfg.sha, q.closure)
    requires var l := ws[i].ledger;
             && q.receipt.receiptHash in l.receipts && l.receipts[q.receipt.receiptHash].receipt == q.receipt
             && l.receipts[q.receipt.receiptHash].closureHash == q.closure.closureHash
             && q.closure.closureHash in l.closures && l.closures[q.closure.closureHash].closure == q.closure
    ensures ConsumeOutcome(ws[j].ledger, q) == Replayed && Consumed(ws[j].ledger, q, files, now) == ws[j].ledger
  {
    hide Coherent, Behaviour, ValidReceipt, ValidClosure, ConsumeOutcome, WithConsumption;
    RunKeeps(cfg, ws, ops, i, j);
    ConsumeExact(cfg, ws[j].ledger, q);
  }

  /** Once a receipt is on record, no other receipt for its release and contract is ever taken. */
  lemma OtherReceiptRefused(cfg: Config, ws: seq<World>, ops: seq<Op>, i: nat, j: nat, h: Digest, q: Consumption, files: Files,
                            now: Time)
    requires Behaviour(cfg, ws, ops) && i <= j < |ws| && Coherent(cfg, ws[i].ledger)
    requires ValidReceipt(cfg.sha, q.receipt) && ValidClosure(cfg.sha, q.closure) && h in ws[i].ledger.receipts
    requires ws[i].ledger.receipts[h].receipt != q.receipt
    requires ws[i].ledger.receipts[h].receipt.inputRef.releaseId == q.receipt.inputRef.releaseId
    requires ws[i].ledger.receipts[h].receipt.contractVersion == q.receipt.contractVersion
    ensures ConsumeOutcome(ws[j].ledger, q) == Refused && Consumed(ws[j].ledger, q, files, now) == ws[j].ledger
  {
    hide LogCoherent, RunsCoherent, Behaviour, ValidReceipt, ValidClosure, ConsumeOutcome, WithConsumption, ClosureCoherent,
         ReceiptCoherent, CountsStored;
    RunKeeps(cfg, ws, ops, i, j);
    ConsumeExact(cfg, ws[j].ledger, q);
    var l := ws[j].ledger;
    assert l.receipts[h].receipt == ws[i].ledger.receipts[h].receipt;
    if q.receipt.receiptHash in l.receipts && l.receipts[q.receipt.receiptHash].receipt == q.receipt {
      assert SameContract(l.receipts[h].receipt, l.receipts[q.receipt.receiptHash].receipt);
    }
  }
}
