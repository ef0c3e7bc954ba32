/** Every transaction keeps the ledger coherent and only ever adds to it. */
module LedgerInvariant {
  import opened Basics
  import opened Contracts
  import opened StatusEvents
  import opened ObservationLog
  import opened RetentionGraph
  import opened RetentionIndex
  import opened Ledgers

  /** Append-only growth: rows are never changed, the log is never rewritten. */
  ghost predicate Extends(l: Ledger, l': Ledger) {
    && Grows(l.refs, l'.refs) && Grows(l.objects, l'.objects)
    && Grows(l.manifests, l'.manifests) && Grows(l.artifacts, l'.artifacts)
    && Grows(l.closures, l'.closures) && Grows(l.receipts, l'.receipts)
    && Grows(l.confirmations, l'.confirmations) && Grows(l.pins, l'.pins)
    && l.log <= l'.log
  }

  lemma ExtendsReflexive(l: Ledger)
    ensures Extends(l, l)
  {
  }

  lemma ExtendsTransitive(a: Ledger, b: Ledger, c: Ledger)
    requires Extends(a, b) && Extends(b, c)
    ensures Extends(a, c)
  {
    assert a.log <= c.log;
  }

  /* ---- Coherence of single rows is stable under growth ---- */

  lemma NodeStoredStable(l: Ledger, l': Ledger, n: Node)
    requires NodeStored(l, n) && Extends(l, l')
    ensures NodeStored(l', n)
  {
    forall j | 0 <= j < |n.artifacts| ensures ArtifactStored(l', n.Id(), n.artifacts[j]) {
      assert ArtifactStored(l, n.Id(), n.artifacts[j]);
    }
  }

  lemma ClosureStable(cfg: Config, l: Ledger, l': Ledger, h: Digest, c: Closure)
    requires ClosureCoherent(cfg, l, h, c) && Extends(l, l')
    ensures ClosureCoherent(cfg, l', h, c)
  {
    forall i | 0 <= i < |c.releases| ensures NodeStored(l', c.releases[i]) {
      NodeStoredStable(l, l', c.releases[i]);
    }
  }

  lemma PinRetainsStable(l: Ledger, l': Ledger, run: Id, p: PinEntry)
    requires PinRetains(l, run, p) && Extends(l, l')
    ensures PinRetains(l', run, p)
  {
    forall r | r in p.statusOf
      ensures exists n :: 0 <= n < |l'.log| && PublishedEntry(l'.log, n, r, p.statusOf[r])
    {
      var n :| 0 <= n < |l.log| && PublishedEntry(l.log, n, r, p.statusOf[r]);
      assert l'.log[n] == l.log[n];
      assert PublishedEntry(l'.log, n, r, p.statusOf[r]);
    }
  }

  lemma PinStable(l: Ledger, l': Ledger, run: Id, p: PinEntry)
    requires PinCoherent(l, run, p) && Extends(l, l')
    ensures PinCoherent(l', run, p)
  {
    PinRetainsStable(l, l', run, p);
    if p.binding.Some? {
      assert l'.log[..p.position] == l.log[..p.position];
    }
  }

  /** Runs stay coherent when only documents and observations are added. */
  lemma RunsStable(cfg: Config, l: Ledger, l': Ledger)
    requires RunsCoherent(cfg, l) && Extends(l, l')
    requires l'.pins == l.pins && l'.confirmations == l.confirmations
    ensures RunsCoherent(cfg, l')
  {
    forall run | run in l'.pins ensures PinCoherent(l', run, l'.pins[run]) {
      PinStable(l, l', run, l.pins[run]);
    }
    forall h | h in l'.confirmations
      ensures ConfirmationCoherent(cfg, l', h, l'.confirmations[h].confirmation)
    {
      assert ConfirmationCoherent(cfg, l, h, l.confirmations[h].confirmation);
    }
  }

  lemma MaterialStable(cfg: Config, l: Ledger, l': Ledger)
    requires MaterialCoherent(cfg, l) && Extends(l, l')
    requires l'.closures == l.closures && l'.receipts == l.receipts
    requires l'.artifacts == l.artifacts && forall r :: r in l'.refs ==> l'.refs[r].releaseId == r
    ensures MaterialCoherent(cfg, l')
  {
    hide CountsStored, ClosureCoherent, Extends, ValidReceipt, RootMatches, SameContract;
    forall h | h in l'.closures ensures ClosureCoherent(cfg, l', h, l'.closures[h].closure) {
      ClosureStable(cfg, l, l', h, l.closures[h].closure);
    }
    forall h | h in l'.receipts ensures ReceiptCoherent(cfg, l', h, l'.receipts[h]) {
      assert ReceiptCoherent(cfg, l, h, l.receipts[h]);
    }
  }

  /* ---- Append ---- */

  lemma ObservationExtends(l: Ledger, o: Observation, now: Time)
    requires o.releaseId in l.refs ==> l.refs[o.releaseId] == o.inputRef
    ensures Extends(l, WithObservation(l, o, now))
  {
  }

  lemma AppendExtends(l: Ledger, o: Observation, now: Time)
    ensures Extends(l, Appended(l, o, now))
  {
    hide Admissible, Recorded, RecordedAs, WithObservation, Extends;
    if AppendOutcome(l, o, now) == Committed {
      ObservationExtends(l, o, now);
    } else {
      ExtendsReflexive(l);
    }
  }

  lemma AppendKeeps(cfg: Config, l: Ledger, o: Observation, now: Time)
    requires Coherent(cfg, l)
    ensures Coherent(cfg, Appended(l, o, now))
  {
    hide Admissible, Recorded, RecordedAs, MaterialCoherent, LogCoherent, RunsCoherent, Extends;
    if AppendOutcome(l, o, now) == Committed {
      ObservationKeeps(cfg, l, o, now);
    }
  }

  lemma ShapeNames(o: Observation)
    requires ValidObservation(o)
    ensures o.inputRef.releaseId == o.releaseId
  {
  }

  lemma ObservationKeeps(cfg: Config, l: Ledger, o: Observation, now: Time)
    requires Coherent(cfg, l) && o.observedAt <= now
    requires o.releaseId in l.refs ==> l.refs[o.releaseId] == o.inputRef
    requires Admissible(l.refs[o.releaseId := o.inputRef], l.receipts, l.log, o)
    ensures Coherent(cfg, WithObservation(l, o, now))
  {
    hide LogCoherent, RunsCoherent, ClosureCoherent, ReceiptCoherent, SameContract, ValidObservation, InOrder, Justified,
         Recorded, Extends;
    ShapeNames(o);
    var l' := WithObservation(l, o, now);
    ObservationExtends(l, o, now);
    CoherentGrows(l.refs, l.receipts, l'.refs, l'.receipts, l.log);
    CoherentAppend(l'.refs, l'.receipts, l.log, Entry(o, now));
    MaterialStable(cfg, l, l');
    RunsStable(cfg, l, l');
  }

  /* ---- Consume ---- */

  lemma ConsumptionExtends(l: Ledger, q: Consumption, files: Files, now: Time)
    requires q.receipt.receiptHash !in l.receipts
    ensures Extends(l, WithConsumption(l, q, files, now))
  {
    hide RefIndex, ObjectRows, ManifestRows, ArtifactRows;
  }

  lemma ConsumeExtends(l: Ledger, q: Consumption, files: Files, now: Time)
    ensures Extends(l, Consumed(l, q, files, now))
  {
    hide NodesConsistent, ContractFree, WithConsumption, Extends;
    if ConsumeOutcome(l, q) == Committed {
      ConsumptionExtends(l, q, files, now);
    } else {
      ExtendsReflexive(l);
    }
  }

  /** After the inserts, every node of the consumed closure is fully stored. */
  lemma NodeStoredAfter(cfg: Config, l: Ledger, q: Consumption, files: Files, now: Time, i: nat)
    requires NodesConsistent(l, q.closure.releases) && ValidClosure(cfg.sha, q.closure)
    requires ClosureFilesVerify(cfg.sha, files, q.closure) && i < |q.closure.releases|
    ensures NodeStored(WithConsumption(l, q, files, now), q.closure.releases[i])
  {
    hide ArtifactStored, RefIndex, ReleaseIndex, ArtifactRows, RequiredDigests, ValidClosure, ClosureFilesVerify,
         NodesConsistent, ArtifactConsistent;
    var nodes := q.closure.releases;
    var n := nodes[i];
    var l' := WithConsumption(l, q, files, now);
    NodeRows(cfg, l, q, files, i);
    assert FileVerifies(cfg.sha, files, n.manifestDocumentHash, n.manifestSize);
    forall j | 0 <= j < |n.artifacts| ensures ArtifactStored(l', n.Id(), n.artifacts[j]) {
      ArtifactStoredAfter(cfg, l, q, files, now, i, j);
    }
  }

  /** What the inserted rows say about one node, and the rows they must agree with. */
  lemma NodeRows(cfg: Config, l: Ledger, q: Consumption, files: Files, i: nat)
    requires NodesConsistent(l, q.closure.releases) && ValidClosure(cfg.sha, q.closure)
    requires ClosureFilesVerify(cfg.sha, files, q.closure) && i < |q.closure.releases|
    ensures var nodes := q.closure.releases;
            var n := nodes[i];
            && NodeConsistent(l, n) && NodeFilesVerify(cfg.sha, files, n)
            && n.Id() in RefIndex(nodes) && RefIndex(nodes)[n.Id()] == n.inputRef
            && n.Id() in ReleaseIndex(nodes)
            && ReleaseIndex(nodes)[n.Id()] == ReleaseRow(n.manifestDocumentHash, n.manifestSize)
            && n.manifestDocumentHash in RequiredDigests(nodes)
  {
    hide RefIndex, ReleaseIndex, NodeConsistent, NodeFilesVerify;
    ClosureNodesProper(cfg.sha, q.closure);
    ReleaseIndexExact(q.closure.releases);
    assert q.closure.releases[i].Id() in NodeIds(q.closure.releases);
  }

  lemma ArtifactStoredAfter(cfg: Config, l: Ledger, q: Consumption, files: Files, now: Time, i: nat, j: nat)
    requires NodesConsistent(l, q.closure.releases) && ValidClosure(cfg.sha, q.closure)
    requires ClosureFilesVerify(cfg.sha, files, q.closure)
    requires i < |q.closure.releases| && j < |q.closure.releases[i].artifacts|
    ensures ArtifactStored(WithConsumption(l, q, files, now), q.closure.releases[i].Id(), q.closure.releases[i].artifacts[j])
  {
    hide RefIndex, ReleaseIndex, ArtifactIndex, ValidClosure, ManifestRows;
    var nodes := q.closure.releases;
    var n := nodes[i];
    var a := n.artifacts[j];
    ClosureNodesProper(cfg.sha, q.closure);
    ArtifactIndexed(nodes, i, j);
    assert NodeConsistent(l, n) && ArtifactConsistent(l, n.Id(), a);
    assert NodeFilesVerify(cfg.sha, files, n);
    assert FileVerifies(cfg.sha, files, a.hash, a.sizeBytes);
    assert a.hash in RequiredDigests(nodes);
  }

  lemma NewClosureCoherent(cfg: Config, l: Ledger, q: Consumption, files: Files, now: Time)
    requires NodesConsistent(l, q.closure.releases)
    requires ValidClosure(cfg.sha, q.closure) && ClosureFilesVerify(cfg.sha, files, q.closure)
    ensures ClosureCoherent(cfg, WithConsumption(l, q, files, now), q.closure.closureHash, q.closure)
  {
    hide NodesConsistent, ClosureFilesVerify, ValidClosure, NodeStored, WithConsumption;
    var l' := WithConsumption(l, q, files, now);
    forall i | 0 <= i < |q.closure.releases| ensures NodeStored(l', q.closure.releases[i]) {
      NodeStoredAfter(cfg, l, q, files, now, i);
    }
  }

  lemma ConsumptionKeepsClosures(cfg: Config, l: Ledger, q: Consumption, files: Files, now: Time, h: Digest)
    requires MaterialCoherent(cfg, l) && NodesConsistent(l, q.closure.releases)
    requires q.receipt.receiptHash !in l.receipts
    requires ValidClosure(cfg.sha, q.closure) && ClosureFilesVerify(cfg.sha, files, q.closure)
    requires h in WithConsumption(l, q, files, now).closures
    ensures ClosureCoherent(cfg, WithConsumption(l, q, files, now), h, WithConsumption(l, q, files, now).closures[h].closure)
  {
    hide NodesConsistent, ClosureFilesVerify, ValidClosure, Extends, RefIndex, ObjectRows, ManifestRows, ArtifactRows,
         ReceiptCoherent, ClosureCoherent;
    if h in l.closures {
      ConsumptionExtends(l, q, files, now);
      ClosureStable(cfg, l, WithConsumption(l, q, files, now), h, l.closures[h].closure);
    } else {
      NewClosureCoherent(cfg, l, q, files, now);
    }
  }

  lemma {:induction false} RowsFit(nodes: seq<Node>, now: Time)
    requires CountsFit(ArtifactIndex(nodes))
    ensures CountsStored(ArtifactRows(nodes, now))
  {
  }

  lemma ConsumptionKeepsMaterial(cfg: Config, l: Ledger, q: Consumption, files: Files, now: Time)
    requires MaterialCoherent(cfg, l) && ConsumeOutcome(l, q) == Committed
    requires ValidReceipt(cfg.sha, q.receipt) && ValidClosure(cfg.sha, q.closure)
    requires RootMatches(q.receipt, q.closure) && ClosureFilesVerify(cfg.sha, files, q.closure)
    ensures MaterialCoherent(cfg, WithConsumption(l, q, files, now))
  {
    hide ClosureCoherent, ClosureFilesVerify, ValidClosure, NodesConsistent, ValidReceipt, RefIndex, ObjectRows,
         ManifestRows, ArtifactRows, RootMatches, CountFits;
    var l' := WithConsumption(l, q, files, now);
    RowsFit(q.closure.releases, now);
    forall r | r in l'.refs ensures l'.refs[r].releaseId == r {
      if r !in l.refs { RefIndexNamed(q.closure.releases, r); }
    }
    forall h | h in l'.closures ensures ClosureCoherent(cfg, l', h, l'.closures[h].closure) {
      ConsumptionKeepsClosures(cfg, l, q, files, now, h);
    }
    forall h | h in l'.receipts ensures ReceiptCoherent(cfg, l', h, l'.receipts[h]) {
      if h in l.receipts { assert ReceiptCoherent(cfg, l, h, l.receipts[h]); }
    }
  }

  lemma {:induction false} RefIndexNamed(nodes: seq<Node>, r: Id)
    requires r in RefIndex(nodes)
    ensures RefIndex(nodes)[r].releaseId == r
    decreases |nodes|
  {
    if r != nodes[|nodes| - 1].Id() { RefIndexNamed(nodes[..|nodes| - 1], r); }
  }

  lemma ConsumeKeeps(cfg: Config, l: Ledger, q: Consumption, files: Files, now: Time)
    requires Coherent(cfg, l)
    requires ValidReceipt(cfg.sha, q.receipt) && ValidClosure(cfg.sha, q.closure)
    requires RootMatches(q.receipt, q.closure) && ClosureFilesVerify(cfg.sha, files, q.closure)
    ensures Coherent(cfg, Consumed(l, q, files, now))
  {
    hide ValidReceipt, ValidClosure, RootMatches, ClosureFilesVerify, MaterialCoherent, LogCoherent, RunsCoherent,
         NodesConsistent, ContractFree, RefIndex, ObjectRows, ManifestRows, ArtifactRows;
    if ConsumeOutcome(l, q) == Committed {
      var l' := WithConsumption(l, q, files, now);
      ConsumptionExtends(l, q, files, now);
      ConsumptionKeepsMaterial(cfg, l, q, files, now);
      CoherentGrows(l.refs, l.receipts, l'.refs, l'.receipts, l.log);
      RunsStable(cfg, l, l');
    }
  }

  /** Registered objects keep their files. */
  lemma ConsumeKeepsFiles(cfg: Config, l: Ledger, q: Consumption, files: Files, files': Files, now: Time)
    requires FilesIntact(cfg.sha, files, l.objects) && FilesGrow(cfg.sha, files, files')
    requires ValidClosure(cfg.sha, q.closure) && ClosureFilesVerify(cfg.sha, files', q.closure)
    ensures FilesIntact(cfg.sha, files', Consumed(l, q, files', now).objects)
  {
    hide NodesConsistent, ContractFree, RefIndex, ManifestRows, ArtifactRows, RequiredDigests, ValidClosure,
         ClosureFilesVerify;
    var l' := Consumed(l, q, files', now);
    forall d | d in l'.objects ensures FileVerifies(cfg.sha, files', d, l'.objects[d]) {
      if d in l.objects {
        assert FileVerifies(cfg.sha, files, d, l.objects[d]);
      } else {
        RequiredVerifies(cfg.sha, files', q.closure, d);
      }
    }
  }

  lemma RequiredVerifies(sha: Sha, files: Files, c: Closure, d: Digest)
    requires ClosureFilesVerify(sha, files, c) && d in RequiredDigests(c.releases)
    ensures d in files && FileVerifies(sha, files, d, |files[d]|)
  {
    if i :| 0 <= i < |c.releases| && c.releases[i].manifestDocumentHash == d {
      assert NodeFilesVerify(sha, files, c.releases[i]);
    } else {
      var i, j :| 0 <= i < |c.releases| && 0 <= j < |c.releases[i].artifacts| && c.releases[i].artifacts[j].hash == d;
      assert NodeFilesVerify(sha, files, c.releases[i]);
    }
  }

  /* ---- Pin ---- */

  lemma PinExtends(cfg: Config, l: Ledger, files: Files, m: RunManifest, c: Option<Confirmation>, now: Time)
    ensures Extends(l, Pinned(cfg, l, files, m, c, now))
  {
  }

  /** The receipt a usable manifest names is for the manifest's exact input. */
  lemma ReceiptInput(cfg: Config, l: Ledger, m: RunManifest, now: Time)
    requires MaterialCoherent(cfg, l) && ReceiptUsable(l, m, now)
    ensures l.receipts[m.receiptHash].receipt.inputRef == m.inputRef
    ensures m.Root() in NodeIds(l.closures[ClosureHashOf(l, m)].closure.releases)
  {
    var k := ClosureHashOf(l, m);
    var c := l.closures[k].closure;
    assert ReceiptCoherent(cfg, l, m.receiptHash, l.receipts[m.receiptHash]);
    assert ClosureCoherent(cfg, l, k, c);
    var i :| 0 <= i < |c.releases| && c.releases[i].inputRef == c.root;
    assert NodeStored(l, c.releases[i]);
    assert c.releases[i].Id() in NodeIds(c.releases);
  }

  lemma ItemOf(items: seq<ConfirmationItem>, r: Id) returns (i: nat)
    requires r in ItemIds(items)
    ensures i < |items| && items[i].Id() == r
  {
    i :| 0 <= i < |items| && items[i].Id() == r;
  }

  lemma NodeOf(nodes: seq<Node>, r: Id) returns (i: nat)
    requires r in NodeIds(nodes)
    ensures i < |nodes| && nodes[i].Id() == r
  {
    i :| 0 <= i < |nodes| && nodes[i].Id() == r;
  }

  /** Acceptance makes every closure release a current, published head. */
  lemma AcceptedPublished(cfg: Config, l: Ledger, files: Files, m: RunManifest, c: Confirmation, now: Time, r: Id)
    requires ReceiptUsable(l, m, now) && NewPinAccepted(cfg, l, files, m, c, now)
    requires r in NodeIds(l.closures[ClosureHashOf(l, m)].closure.releases)
    ensures r in NewPin(l, m, c, now).statusOf
    ensures PublishedHead(l.log, r, NewPin(l, m, c, now).statusOf[r])
  {
    hide RootAdmitted, MaterialBefore, ClosureFilesVerify, ConfirmationFresh;
    var i := ItemOf(c.items, r);
    assert ItemCurrent(l, c.items[i], cfg.policies[(c.authorityId, c.authorityContract)], now);
  }

  lemma {:induction false} HeadTimely(refs: Refs, receipts: Receipts, log: Log, r: Id, created: Time, now: Time)
    requires LogCoherent(refs, receipts, log) && created <= now
    requires EntryBefore(log, r, ReleaseStatus, created)
    requires PublishedStatus(Head(log, r, ReleaseStatus).value.observation)
    ensures Timely(log, r, created, now)
  {
    var i := HeadIsLastMatch(log, r, ReleaseStatus);
    assert CoherentAt(refs, receipts, log, i);
  }

  lemma AcceptedTimely(cfg: Config, l: Ledger, files: Files, m: RunManifest, c: Confirmation, now: Time, r: Id)
    requires ReceiptUsable(l, m, now) && NewPinAccepted(cfg, l, files, m, c, now)
    requires LogCoherent(l.refs, l.receipts, l.log)
    requires r in NodeIds(l.closures[ClosureHashOf(l, m)].closure.releases)
    ensures Timely(l.log, r, m.createdAt, now)
  {
    hide LogCoherent, RootAdmitted, ConfirmationCurrent, ClosureFilesVerify, ConfirmationFresh, Timely;
    AcceptedPublished(cfg, l, files, m, c, now, r);
    var i := NodeOf(l.closures[ClosureHashOf(l, m)].closure.releases, r);
    HeadTimely(l.refs, l.receipts, l.log, r, m.createdAt, now);
  }

  lemma NewPinBound(cfg: Config, l: Ledger, files: Files, m: RunManifest, c: Confirmation, now: Time)
    requires Coherent(cfg, l) && ValidManifest(m)
    requires ReceiptUsable(l, m, now) && NewPinAccepted(cfg, l, files, m, c, now)
    ensures PinBound(l, NewPin(l, m, c, now))
  {
    hide LogCoherent, MaterialCoherent, RunsCoherent, ConfirmationCurrent, MaterialBefore, ClosureFilesVerify,
         ConfirmationFresh, Timely, PublishedHead, NodeIds, RootHeads;
    var p := NewPin(l, m, c, now);
    assert l.log[..p.position] == l.log;
    ReceiptInput(cfg, l, m, now);
    forall r | r in p.statusOf
      ensures PublishedHead(l.log, r, p.statusOf[r]) && Timely(l.log, r, m.createdAt, now)
    {
      AcceptedPublished(cfg, l, files, m, c, now, r);
      AcceptedTimely(cfg, l, files, m, c, now, r);
    }
    AcceptedPublished(cfg, l, files, m, c, now, m.Root());
    assert RootHeads(l.log, m);
    RootStatus(l.log, m);
  }

  lemma RootStatus(log: Log, m: RunManifest)
    requires RootHeads(log, m)
    ensures HeadId(log, m.Root(), ReleaseStatus) == Some(m.statusId)
  {
  }

  lemma NewPinRetains(cfg: Config, l: Ledger, files: Files, m: RunManifest, c: Confirmation, now: Time)
    requires Coherent(cfg, l)
    requires ReceiptUsable(l, m, now) && NewPinAccepted(cfg, l, files, m, c, now)
    ensures PinRetains(l, m.runId, NewPin(l, m, c, now))
  {
    hide LogCoherent, MaterialCoherent, RunsCoherent, RootAdmitted, ConfirmationCurrent, MaterialBefore,
         ClosureFilesVerify, ConfirmationFresh, NodeIds;
    var p := NewPin(l, m, c, now);
    var ids := NodeIds(l.closures[p.closureHash].closure.releases);
    ReceiptInput(cfg, l, m, now);
    forall r | r in ids
      ensures r in p.statusOf && exists n :: 0 <= n < |l.log| && PublishedEntry(l.log, n, r, p.statusOf[r])
    {
      AcceptedPublished(cfg, l, files, m, c, now, r);
      PublishedHeadEntry(l.log, r, p.statusOf[r]);
    }
    assert p.statusOf.Keys == ids;
  }

  lemma PublishedHeadEntry(log: Log, r: Id, id: Id)
    requires PublishedHead(log, r, id)
    ensures exists n :: 0 <= n < |log| && PublishedEntry(log, n, r, id)
  {
    var n := HeadIsLastMatch(log, r, ReleaseStatus);
    assert PublishedEntry(log, n, r, id);
  }

  lemma PinKeeps(cfg: Config, l: Ledger, files: Files, m: RunManifest, c: Option<Confirmation>, now: Time)
    requires Coherent(cfg, l) && ValidManifest(m)
    requires c.Some? ==> ValidConfirmation(cfg.sha, c.value)
    ensures Coherent(cfg, Pinned(cfg, l, files, m, c, now))
  {
    hide LogCoherent, MaterialCoherent, RunsCoherent, ReceiptUsable, ExactRetry, NewPinAccepted, ValidConfirmation,
         WithPin, NewPin;
    if PinOutcome(cfg, l, files, m, c, now) == Committed {
      NewPinKeeps(cfg, l, files, m, c.value, now);
    }
  }

  lemma NewPinKeeps(cfg: Config, l: Ledger, files: Files, m: RunManifest, c: Confirmation, now: Time)
    requires Coherent(cfg, l) && ValidManifest(m) && ValidConfirmation(cfg.sha, c) && m.runId !in l.pins
    requires ReceiptUsable(l, m, now) && NewPinAccepted(cfg, l, files, m, c, now)
    ensures Coherent(cfg, WithPin(l, m, c, NewPin(l, m, c, now), now))
  {
    hide LogCoherent, MaterialCoherent, RunsCoherent, RootAdmitted, MaterialBefore, ClosureFilesVerify,
         ValidConfirmation, PinBound, PinRetains;
    var p := NewPin(l, m, c, now);
    var l' := WithPin(l, m, c, p, now);
    NewPinRetains(cfg, l, files, m, c, now);
    NewPinBound(cfg, l, files, m, c, now);
    PinAddedMaterial(cfg, l, m, c, p, now);
    PinAddedRuns(cfg, l, m, c, p, now);
  }

  lemma PinAddedMaterial(cfg: Config, l: Ledger, m: RunManifest, c: Confirmation, p: PinEntry, now: Time)
    requires MaterialCoherent(cfg, l) && m.runId !in l.pins && ConfirmationFresh(l, c)
    ensures Extends(l, WithPin(l, m, c, p, now)) && MaterialCoherent(cfg, WithPin(l, m, c, p, now))
  {
    hide ClosureCoherent, ReceiptCoherent;
    var l' := WithPin(l, m, c, p, now);
    assert Extends(l, l');
    MaterialStable(cfg, l, l');
  }

  lemma AddedPinCoherent(l: Ledger, m: RunManifest, c: Confirmation, p: PinEntry, now: Time)
    requires m.runId !in l.pins && ConfirmationFresh(l, c)
    requires PinRetains(l, m.runId, p) && PinBound(l, p) && p.binding == Some(c.confirmationHash)
    requires p.manifest == m && Binds(c, m, p.closureHash)
    ensures PinCoherent(WithPin(l, m, c, p, now), m.runId, p)
  {
    hide PinRetains;
    var l' := WithPin(l, m, c, p, now);
    PinRetainsStable(l, l', m.runId, p);
    assert l'.log == l.log;
  }

  lemma AddedKeepsPins(cfg: Config, l: Ledger, m: RunManifest, c: Confirmation, p: PinEntry, now: Time)
    requires RunsCoherent(cfg, l) && m.runId !in l.pins && PinCoherent(WithPin(l, m, c, p, now), m.runId, p)
    requires ConfirmationFresh(l, c)
    ensures var l' := WithPin(l, m, c, p, now); forall run :: run in l'.pins ==> PinCoherent(l', run, l'.pins[run])
  {
    hide PinCoherent, ConfirmationCoherent;
    var l' := WithPin(l, m, c, p, now);
    assert Extends(l, l');
    forall run | run in l'.pins ensures PinCoherent(l', run, l'.pins[run]) {
      if run != m.runId { PinStable(l, l', run, l.pins[run]); }
    }
  }

  lemma AddedKeepsConfirmations(cfg: Config, l: Ledger, m: RunManifest, c: Confirmation, p: PinEntry, now: Time)
    requires RunsCoherent(cfg, l) && ConfirmationFresh(l, c) && c.runId == m.runId
    requires p.binding == Some(c.confirmationHash) && ValidConfirmation(cfg.sha, c)
    ensures var l' := WithPin(l, m, c, p, now);
            && (forall h :: h in l'.confirmations ==> ConfirmationCoherent(cfg, l', h, l'.confirmations[h].confirmation))
            && (forall h, h' | h in l'.confirmations && h' in l'.confirmations ::
                  l'.confirmations[h].confirmation.confirmationId == l'.confirmations[h'].confirmation.confirmationId
                  ==> h == h')
  {
    hide PinCoherent, ValidConfirmation;
    var l' := WithPin(l, m, c, p, now);
    forall h | h in l'.confirmations
      ensures ConfirmationCoherent(cfg, l', h, l'.confirmations[h].confirmation)
    {
      if h != c.confirmationHash { assert ConfirmationCoherent(cfg, l, h, l.confirmations[h].confirmation); }
    }
  }

  lemma PinAddedRuns(cfg: Config, l: Ledger, m: RunManifest, c: Confirmation, p: PinEntry, now: Time)
    requires RunsCoherent(cfg, l) && m.runId !in l.pins && ConfirmationFresh(l, c)
    requires PinRetains(l, m.runId, p) && PinBound(l, p) && p.binding == Some(c.confirmationHash)
    requires p.manifest == m && ValidConfirmation(cfg.sha, c) && Binds(c, m, p.closureHash)
    ensures RunsCoherent(cfg, WithPin(l, m, c, p, now))
  {
    assert c.runId == m.runId;
    hide PinRetains, PinBound, Binds, ValidConfirmation, WithPin, PinCoherent, ConfirmationCoherent, ConfirmationFresh;
    AddedPinCoherent(l, m, c, p, now);
    AddedKeepsPins(cfg, l, m, c, p, now);
    AddedKeepsConfirmations(cfg, l, m, c, p, now);
  }
}
