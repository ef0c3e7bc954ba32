/**
 What a pin answers, read off the rows and the entries of the log: the whole list of
 conditions under which a run is admitted, that every pinned run met them, and which
 requests count as repetitions.
 */
module PinRules {
  import opened Basics
  import opened Contracts
  import opened ObservationLog
  import opened LogEntries
  import opened RetentionGraph
  import opened RetentionIndex
  import opened Ledgers
  import opened LedgerInvariant
  import opened LedgerRuns

  /* ---- The conditions, row by row ---- */

  /** The receipt is on record for this very input, with its closure, since before the manifest was made. */
  predicate ReceiptOnRecord(l: Ledger, m: RunManifest, now: Time) {
    && m.createdAt <= now
    && m.inputRef.releaseId in l.refs && l.refs[m.inputRef.releaseId] == m.inputRef
    && m.receiptHash in l.receipts
    && var e := l.receipts[m.receiptHash];
       && e.receipt.inputRef.releaseId == m.inputRef.releaseId && e.persistedAt <= m.createdAt
       && e.closureHash in l.closures && l.closures[e.closureHash].persistedAt <= m.createdAt
  }

  /** An observation that was made and persisted before the manifest. */
  predicate Before(e: Entry, created: Time) {
    e.observation.observedAt <= created && e.persistedAt <= created
  }

  /** The newest fetch, status and admission of the root are those of the manifest: passed, published, authorised. */
  ghost predicate RootEvidence(log: Log, m: RunManifest) {
    var root := m.inputRef.releaseId;
    && (exists n :: && Newest(log, root, ArtifactFetch, n) && Before(log[n], m.createdAt)
                    && var o := log[n].observation;
                       o.id == m.fetchId && o.FetchObservation? && o.result == Passed && o.receiptHash == Some(m.receiptHash))
    && (exists n :: && Newest(log, root, ReleaseStatus, n) && Before(log[n], m.createdAt)
                    && var o := log[n].observation;
                       o.id == m.statusId && o.StatusObservation? && o.result == Passed && o.status == Some(Published))
    && (exists n :: && Newest(log, root, ReleaseAdmission, n) && Before(log[n], m.createdAt)
                    && var o := log[n].observation;
                       o.id == m.admissionId && o.AdmissionObservation? && o.admission == Authorized
                       && o.statusId == m.statusId)
  }

  /** The confirmation names this run and its documents, is made before the manifest and has not expired. */
  predicate Names(c: Confirmation, m: RunManifest, closureHash: Digest, now: Time) {
    && c.runId == m.runId && c.rootReleaseId == m.inputRef.releaseId
    && c.receiptHash == m.receiptHash && c.closureHash == closureHash
    && c.confirmedAt <= m.createdAt && now < c.expiresAt
  }

  /** The item speaks of the newest status of its release, recently enough. */
  ghost predicate ItemEvidence(l: Ledger, item: ConfirmationItem, policy: Policy, now: Time) {
    var r := item.inputRef.releaseId;
    && r in l.refs && l.refs[r] == item.inputRef
    && item.snapshotAt <= item.checkedAt + policy.maxSkew
    && now <= item.snapshotAt + policy.maxAge + policy.maxSkew
    && exists n :: && Newest(l.log, r, ReleaseStatus, n)
                   && var o := l.log[n].observation;
                      && o.StatusObservation? && o.result == Passed && o.status == Some(Published)
                      && o.id == item.statusId && o.eventId == Some(item.eventId)
                      && o.eventHash == Some(item.eventHash) && o.sequence == Some(item.sequence)
                      && o.recordedAt.Some? && o.recordedAt.value <= item.snapshotAt + policy.maxSkew
  }

  predicate ItemNames(items: seq<ConfirmationItem>, r: Id) {
    exists j :: 0 <= j < |items| && items[j].inputRef.releaseId == r
  }

  predicate NodeNames(nodes: seq<Node>, r: Id) {
    exists i :: 0 <= i < |nodes| && nodes[i].inputRef.releaseId == r
  }

  /** Every release has an item, and every item a release. */
  predicate ItemsCover(items: seq<ConfirmationItem>, nodes: seq<Node>) {
    && (forall i :: 0 <= i < |nodes| ==> ItemNames(items, nodes[i].inputRef.releaseId))
    && forall j :: 0 <= j < |items| ==> NodeNames(nodes, items[j].inputRef.releaseId)
  }

  /** What is retained of one release was on record before the manifest, and its files hold what they should. */
  ghost predicate NodeReady(sha: Sha, l: Ledger, files: Files, n: Node, created: Time) {
    var r := n.inputRef.releaseId;
    && (exists i :: Newest(l.log, r, ReleaseStatus, i) && Before(l.log[i], created))
    && r in l.manifests && l.manifests[r].persistedAt <= created
    && HoldsContent(sha, files, n.manifestDocumentHash, n.manifestSize)
    && forall j :: 0 <= j < |n.artifacts| ==>
         && (r, n.artifacts[j].artifactId) in l.artifacts
         && l.artifacts[(r, n.artifacts[j].artifactId)].persistedAt <= created
         && HoldsContent(sha, files, n.artifacts[j].hash, n.artifacts[j].sizeBytes)
  }

  predicate HoldsContent(sha: Sha, files: Files, d: Digest, size: nat) {
    d in files && |files[d]| == size && sha(Blob(files[d])) == d
  }

  /** Everything that has to hold when a run is admitted. */
  ghost predicate RunAdmissible(cfg: Config, l: Ledger, files: Files, m: RunManifest, c: Confirmation, now: Time) {
    && m.runId !in l.pins
    && ReceiptOnRecord(l, m, now)
    && RootEvidence(l.log, m)
    && var k := l.receipts[m.receiptHash].closureHash;
       var nodes := l.closures[k].closure.releases;
       && Names(c, m, k, now)
       && (c.authorityId, c.authorityContract) in cfg.policies
       && ItemsCover(c.items, nodes)
       && (forall j :: 0 <= j < |c.items| ==>
             ItemEvidence(l, c.items[j], cfg.policies[(c.authorityId, c.authorityContract)], now))
       && (forall i :: 0 <= i < |nodes| ==> NodeReady(cfg.sha, l, files, nodes[i], m.createdAt))
       && forall h :: h in l.confirmations ==>
            && h != c.confirmationHash && l.confirmations[h].confirmation.confirmationId != c.confirmationId
            && l.confirmations[h].confirmation.runId != m.runId
  }

  /* ---- The conditions and the specification say the same ---- */

  lemma HeadBefore(log: Log, r: Id, k: Kind, created: Time)
    ensures EntryBefore(log, r, k, created) <==> exists n :: Newest(log, r, k, n) && Before(log[n], created)
  {
    HeadIsNewest(log, r, k);
    forall n | Newest(log, r, k, n) ensures Head(log, r, k) == Some(log[n]) { NewestIsHead(log, r, k, n); }
    hide Head, Newest;
  }

  lemma {:induction false} NewestKind(log: Log, r: Id, k: Kind, n: int)
    requires Newest(log, r, k, n)
    ensures Head(log, r, k) == Some(log[n]) && OfKind(log[n].observation, k)
  {
    NewestIsHead(log, r, k, n);
  }

  lemma RootExact(l: Ledger, m: RunManifest)
    ensures RootAdmitted(l, m) <==> RootEvidence(l.log, m)
  {
    var log, root := l.log, m.Root();
    forall k: Kind
      ensures Head(log, root, k).Some? ==> exists n :: Newest(log, root, k, n) && Head(log, root, k) == Some(log[n])
    {
      HeadIsNewest(log, root, k);
    }
    forall k: Kind, n | Newest(log, root, k, n) ensures Head(log, root, k) == Some(log[n]) && OfKind(log[n].observation, k) {
      NewestKind(log, root, k, n);
    }
    hide Head, Newest;
  }

  lemma ItemEvidenceExact(l: Ledger, item: ConfirmationItem, policy: Policy, now: Time)
    ensures ItemCurrent(l, item, policy, now) <==> ItemEvidence(l, item, policy, now)
  {
    hide Head, PublishedHead, About;
    var log, r := l.log, item.Id();
    HeadNewestStatus(log, r, item.statusId);
    if ItemCurrent(l, item, policy, now) {
      var n :| Newest(log, r, ReleaseStatus, n) && Head(log, r, ReleaseStatus) == Some(log[n]);
      assert ItemEvidence(l, item, policy, now);
    }
  }

  lemma {:induction false} HeadNewestStatus(log: Log, r: Id, id: Id)
    ensures PublishedHead(log, r, id) <==>
              exists n :: && Newest(log, r, ReleaseStatus, n)
                          && var o := log[n].observation;
                             o.StatusObservation? && o.result == Passed && o.status == Some(Published) && o.id == id
    ensures PublishedHead(log, r, id) ==>
              Head(log, r, ReleaseStatus).Some?
              && exists n :: Newest(log, r, ReleaseStatus, n) && Head(log, r, ReleaseStatus) == Some(log[n])
    ensures forall n :: Newest(log, r, ReleaseStatus, n) ==> Head(log, r, ReleaseStatus) == Some(log[n])
  {
    HeadIsNewest(log, r, ReleaseStatus);
    forall n | Newest(log, r, ReleaseStatus, n)
      ensures Head(log, r, ReleaseStatus) == Some(log[n]) && OfKind(log[n].observation, ReleaseStatus)
    {
      NewestKind(log, r, ReleaseStatus, n);
    }
    hide Head, Newest;
  }

  lemma NamesAreIds(items: seq<ConfirmationItem>, nodes: seq<Node>, r: Id)
    ensures r in ItemIds(items) <==> ItemNames(items, r)
    ensures r in NodeIds(nodes) <==> NodeNames(nodes, r)
  {
    if j :| 0 <= j < |items| && items[j].inputRef.releaseId == r { assert items[j].Id() == r; }
    if i :| 0 <= i < |nodes| && nodes[i].inputRef.releaseId == r { assert nodes[i].Id() == r; }
  }

  lemma ItemsCoverExact(items: seq<ConfirmationItem>, nodes: seq<Node>)
    ensures ItemIds(items) == NodeIds(nodes) <==> ItemsCover(items, nodes)
  {
    hide ItemIds, NodeIds, ItemNames, NodeNames;
    forall r ensures (r in ItemIds(items) <==> ItemNames(items, r)) && (r in NodeIds(nodes) <==> NodeNames(nodes, r)) {
      NamesAreIds(items, nodes, r);
    }
    if ItemsCover(items, nodes) {
      forall r | r in ItemIds(items) ensures r in NodeIds(nodes) { ItemNamed(items, nodes, r); }
      forall r | r in NodeIds(nodes) ensures r in ItemIds(items) { NodeNamed(items, nodes, r); }
      assert ItemIds(items) == NodeIds(nodes);
    }
    if ItemIds(items) == NodeIds(nodes) { SameNames(items, nodes); }
  }

  lemma SameNames(items: seq<ConfirmationItem>, nodes: seq<Node>)
    requires forall r :: ItemNames(items, r) <==> NodeNames(nodes, r)
    ensures ItemsCover(items, nodes)
  {
    forall i | 0 <= i < |nodes| ensures ItemNames(items, nodes[i].inputRef.releaseId) {
      assert NodeNames(nodes, nodes[i].inputRef.releaseId);
    }
    forall j | 0 <= j < |items| ensures NodeNames(nodes, items[j].inputRef.releaseId) {
      assert ItemNames(items, items[j].inputRef.releaseId);
    }
  }

  lemma ItemNamed(items: seq<ConfirmationItem>, nodes: seq<Node>, r: Id)
    requires ItemsCover(items, nodes) && ItemNames(items, r)
    ensures NodeNames(nodes, r)
  {
  }

  lemma NodeNamed(items: seq<ConfirmationItem>, nodes: seq<Node>, r: Id)
    requires ItemsCover(items, nodes) && NodeNames(nodes, r)
    ensures ItemNames(items, r)
  {
  }

  lemma NodesReadyExact(sha: Sha, l: Ledger, files: Files, c: Closure, created: Time)
    ensures MaterialBefore(l, c, created) && ClosureFilesVerify(sha, files, c) <==>
            forall i :: 0 <= i < |c.releases| ==> NodeReady(sha, l, files, c.releases[i], created)
  {
    forall i | 0 <= i < |c.releases|
      ensures EntryBefore(l.log, c.releases[i].Id(), ReleaseStatus, created) <==>
              exists n :: Newest(l.log, c.releases[i].Id(), ReleaseStatus, n) && Before(l.log[n], created)
    {
      HeadBefore(l.log, c.releases[i].Id(), ReleaseStatus, created);
    }
    hide EntryBefore, Newest, Before;
    if MaterialBefore(l, c, created) && ClosureFilesVerify(sha, files, c) {
      forall i | 0 <= i < |c.releases| ensures NodeReady(sha, l, files, c.releases[i], created) {
        assert NodeFilesVerify(sha, files, c.releases[i]);
      }
    }
    if forall i :: 0 <= i < |c.releases| ==> NodeReady(sha, l, files, c.releases[i], created) {
      forall i | 0 <= i < |c.releases| ensures NodeFilesVerify(sha, files, c.releases[i]) {
        assert NodeReady(sha, l, files, c.releases[i], created);
      }
      forall i | 0 <= i < |c.releases|
        ensures && EntryBefore(l.log, c.releases[i].Id(), ReleaseStatus, created)
                && c.releases[i].Id() in l.manifests && l.manifests[c.releases[i].Id()].persistedAt <= created
                && forall j :: 0 <= j < |c.releases[i].artifacts| ==>
                     var key := (c.releases[i].Id(), c.releases[i].artifacts[j].artifactId);
                     key in l.artifacts && l.artifacts[key].persistedAt <= created
      {
        assert NodeReady(sha, l, files, c.releases[i], created);
      }
    }
  }

  lemma ReceiptExact(l: Ledger, m: RunManifest, now: Time)
    ensures ReceiptUsable(l, m, now) <==> ReceiptOnRecord(l, m, now)
  {
  }

  lemma ConfirmationExact(cfg: Config, l: Ledger, m: RunManifest, c: Confirmation, now: Time)
    requires ReceiptUsable(l, m, now)
    ensures ConfirmationCurrent(cfg, l, m, c, now) <==>
              var k := l.receipts[m.receiptHash].closureHash;
              && Names(c, m, k, now)
              && (c.authorityId, c.authorityContract) in cfg.policies
              && ItemsCover(c.items, l.closures[k].closure.releases)
              && forall j :: 0 <= j < |c.items| ==>
                   ItemEvidence(l, c.items[j], cfg.policies[(c.authorityId, c.authorityContract)], now)
  {
    hide ItemCurrent, ItemEvidence, ItemsCover, ItemIds, NodeIds;
    ItemsCoverExact(c.items, l.closures[ClosureHashOf(l, m)].closure.releases);
    forall policy: Policy, j: int | 0 <= j < |c.items|
      ensures ItemCurrent(l, c.items[j], policy, now) <==> ItemEvidence(l, c.items[j], policy, now)
    {
      ItemEvidenceExact(l, c.items[j], policy, now);
    }
  }

  /** The request is the pinned manifest with the stored confirmation, over files that still hold their contents. */
  ghost predicate Repeats(cfg: Config, l: Ledger, files: Files, m: RunManifest, c: Confirmation, now: Time) {
    && m.runId in l.pins && l.pins[m.runId].manifest == m && l.pins[m.runId].binding == Some(c.confirmationHash)
    && c.confirmationHash in l.confirmations && l.confirmations[c.confirmationHash].confirmation == c
    && ReceiptOnRecord(l, m, now)
    && var nodes := l.closures[l.receipts[m.receiptHash].closureHash].closure.releases;
       forall i :: 0 <= i < |nodes| ==>
         && HoldsContent(cfg.sha, files, nodes[i].manifestDocumentHash, nodes[i].manifestSize)
         && forall j :: 0 <= j < |nodes[i].artifacts| ==>
              HoldsContent(cfg.sha, files, nodes[i].artifacts[j].hash, nodes[i].artifacts[j].sizeBytes)
  }

  lemma FilesExact(sha: Sha, files: Files, c: Closure)
    ensures ClosureFilesVerify(sha, files, c) <==>
            forall i :: 0 <= i < |c.releases| ==>
              && HoldsContent(sha, files, c.releases[i].manifestDocumentHash, c.releases[i].manifestSize)
              && forall j :: 0 <= j < |c.releases[i].artifacts| ==>
                   HoldsContent(sha, files, c.releases[i].artifacts[j].hash, c.releases[i].artifacts[j].sizeBytes)
  {
    if ClosureFilesVerify(sha, files, c) {
      forall i | 0 <= i < |c.releases| ensures NodeFilesVerify(sha, files, c.releases[i]) {}
    }
  }

  lemma NewPinExact(cfg: Config, l: Ledger, files: Files, m: RunManifest, c: Confirmation, now: Time)
    requires Coherent(cfg, l) && m.runId !in l.pins && ReceiptUsable(l, m, now)
    ensures NewPinAccepted(cfg, l, files, m, c, now) <==> RunAdmissible(cfg, l, files, m, c, now)
  {
    hide Coherent, RootAdmitted, RootEvidence, ConfirmationCurrent, MaterialBefore, ClosureFilesVerify, ItemsCover,
         ItemEvidence, NodeReady, ReceiptUsable, ReceiptOnRecord;
    ReceiptExact(l, m, now);
    UsableParts(l, m, now);
    RootExact(l, m);
    ConfirmationExact(cfg, l, m, c, now);
    NodesReadyExact(cfg.sha, l, files, l.closures[ClosureHashOf(l, m)].closure, m.createdAt);
  }

  lemma UsableParts(l: Ledger, m: RunManifest, now: Time)
    requires ReceiptUsable(l, m, now)
    ensures m.receiptHash in l.receipts && ClosureHashOf(l, m) in l.closures
  {
  }

  lemma PinnedClosure(cfg: Config, l: Ledger, run: Id)
    requires Coherent(cfg, l) && run in l.pins
    ensures l.pins[run].manifest.receiptHash in l.receipts
    ensures l.pins[run].closureHash == l.receipts[l.pins[run].manifest.receiptHash].closureHash
    ensures l.pins[run].closureHash in l.closures
  {
    hide MaterialCoherent, LogCoherent, ConfirmationCoherent, PinBound, BindingCoherent;
    assert PinCoherent(l, run, l.pins[run]);
  }

  lemma RetryExact(cfg: Config, l: Ledger, files: Files, m: RunManifest, c: Confirmation, now: Time)
    requires Coherent(cfg, l) && m.runId in l.pins && ReceiptUsable(l, m, now)
    ensures ExactRetry(cfg, l, files, m, c) <==> Repeats(cfg, l, files, m, c, now)
  {
    hide Coherent, ClosureFilesVerify, HoldsContent, ReceiptUsable, ReceiptOnRecord;
    ReceiptExact(l, m, now);
    UsableParts(l, m, now);
    if l.pins[m.runId].manifest == m {
      PinnedClosure(cfg, l, m.runId);
      FilesExact(cfg.sha, files, l.closures[ClosureHashOf(l, m)].closure);
    }
  }

  /** A run is admitted exactly when every condition holds; repetitions are exactly the requests that repeat. */
  lemma PinExact(cfg: Config, l: Ledger, files: Files, m: RunManifest, c: Option<Confirmation>, now: Time)
    requires Coherent(cfg, l)
    ensures PinOutcome(cfg, l, files, m, c, now) == Committed <==> c.Some? && RunAdmissible(cfg, l, files, m, c.value, now)
    ensures PinOutcome(cfg, l, files, m, c, now) == Replayed <==> c.Some? && Repeats(cfg, l, files, m, c.value, now)
  {
    hide Coherent, NewPinAccepted, ExactRetry, ReceiptUsable, ReceiptOnRecord, HoldsContent;
    ReceiptExact(l, m, now);
    if c.Some? && ReceiptUsable(l, m, now) {
      if m.runId in l.pins { RetryExact(cfg, l, files, m, c.value, now); } else { NewPinExact(cfg, l, files, m, c.value, now); }
    }
    hide RootEvidence, ItemsCover, ItemEvidence, NodeReady;
  }

  /** A bound run is in conflict exactly with another manifest and with another confirmation than the stored one. */
  lemma RebindExact(cfg: Config, l: Ledger, m: RunManifest, c: Confirmation)
    requires Coherent(cfg, l) && m.runId in l.pins && l.pins[m.runId].binding.Some?
    ensures var h := l.pins[m.runId].binding.value;
            h in l.confirmations && (Rebinds(l, m, c) <==> l.pins[m.runId].manifest != m || l.confirmations[h].confirmation != c)
  {
    hide MaterialCoherent, LogCoherent, ValidConfirmation, PinRetains, PinBound;
    var h := l.pins[m.runId].binding.value;
    assert PinCoherent(l, m.runId, l.pins[m.runId]);
    assert ConfirmationCoherent(cfg, l, h, l.confirmations[h].confirmation);
  }

  /** Without a pin on record an expired confirmation is always refused. */
  lemma ExpiredRefused(cfg: Config, l: Ledger, files: Files, m: RunManifest, c: Confirmation, now: Time)
    requires Coherent(cfg, l) && m.runId !in l.pins && c.expiresAt <= now
    ensures PinOutcome(cfg, l, files, m, Some(c), now) == Refused && Pinned(cfg, l, files, m, Some(c), now) == l
  {
    hide Coherent, PinOutcome, RootEvidence, ItemsCover, ItemEvidence, NodeReady, ReceiptOnRecord;
    PinExact(cfg, l, files, m, Some(c), now);
  }

  /** A committed pin adds its confirmation and its row, and nothing else changes. */
  lemma PinnedExact(cfg: Config, l: Ledger, files: Files, m: RunManifest, c: Confirmation, now: Time)
    requires Coherent(cfg, l)
    ensures PinOutcome(cfg, l, files, m, Some(c), now) != Committed ==> Pinned(cfg, l, files, m, Some(c), now) == l
    ensures PinOutcome(cfg, l, files, m, Some(c), now) == Committed ==>
              var l' := Pinned(cfg, l, files, m, Some(c), now);
              && m.receiptHash in l.receipts
              && l' == l.(confirmations := l.confirmations[c.confirmationHash := ConfirmationEntry(c, now)],
                          pins := l.pins[m.runId := l'.pins[m.runId]])
              && var p := l'.pins[m.runId];
                 && p.manifest == m && p.closureHash == l.receipts[m.receiptHash].closureHash
                 && p.binding == Some(c.confirmationHash) && p.pinnedAt == now && p.position == |l.log|
  {
    hide Coherent, NewPinAccepted, ExactRetry, PinnedStatuses;
  }

  /** The pin keeps, for each release of its closure and no other, the newest status observation at that moment. */
  lemma PinnedStatusesExact(cfg: Config, l: Ledger, files: Files, m: RunManifest, c: Confirmation, now: Time)
    requires Coherent(cfg, l) && PinOutcome(cfg, l, files, m, Some(c), now) == Committed
    ensures m.receiptHash in l.receipts && l.receipts[m.receiptHash].closureHash in l.closures
    ensures m.runId in Pinned(cfg, l, files, m, Some(c), now).pins
    ensures var nodes := l.closures[l.receipts[m.receiptHash].closureHash].closure.releases;
            var p := Pinned(cfg, l, files, m, Some(c), now).pins[m.runId];
            && (forall r :: r in p.statusOf <==> NodeNames(nodes, r))
            && forall r :: r in p.statusOf ==> exists n :: Newest(l.log, r, ReleaseStatus, n) && l.log[n].observation.id == p.statusOf[r]
  {
    hide Coherent, NewPinAccepted, ExactRetry, PinnedStatuses, NodeNames, Newest;
    PinExact(cfg, l, files, m, Some(c), now);
    UsableParts(l, m, now);
    StatusesExact(cfg, l, files, m, c, now);
  }

  lemma StatusesExact(cfg: Config, l: Ledger, files: Files, m: RunManifest, c: Confirmation, now: Time)
    requires RunAdmissible(cfg, l, files, m, c, now) && m.receiptHash in l.receipts && l.receipts[m.receiptHash].closureHash in l.closures
    ensures var nodes := l.closures[l.receipts[m.receiptHash].closureHash].closure.releases;
            var statuses := PinnedStatuses(l.log, nodes);
            && (forall r :: r in statuses <==> NodeNames(nodes, r))
            && forall r :: r in statuses ==> exists n :: Newest(l.log, r, ReleaseStatus, n) && l.log[n].observation.id == statuses[r]
  {
    hide Head, About, RootEvidence, ItemEvidence, ItemsCover, Names, ReceiptOnRecord, HoldsContent;
    var nodes := l.closures[l.receipts[m.receiptHash].closureHash].closure.releases;
    var statuses := PinnedStatuses(l.log, nodes);
    forall r ensures r in NodeIds(nodes) <==> NodeNames(nodes, r) { NamesAreIds([], nodes, r); }
    forall r ensures HeadId(l.log, r, ReleaseStatus).Some? ==>
                       exists n :: Newest(l.log, r, ReleaseStatus, n) && l.log[n].observation.id == HeadId(l.log, r, ReleaseStatus).value
    {
      HeadIsNewest(l.log, r, ReleaseStatus);
    }
    forall r | NodeNames(nodes, r) ensures HeadId(l.log, r, ReleaseStatus).Some? {
      var i :| 0 <= i < |nodes| && nodes[i].inputRef.releaseId == r;
      assert NodeReady(cfg.sha, l, files, nodes[i], m.createdAt);
      var n :| Newest(l.log, r, ReleaseStatus, n) && Before(l.log[n], m.createdAt);
      NewestIsHead(l.log, r, ReleaseStatus, n);
    }
  }

  /** The status a run rests on was recorded, observed, persisted, then the manifest made, then the run pinned; no slack. */
  ghost predicate InTime(log: Log, r: Id, created: Time, now: Time) {
    exists n :: && Newest(log, r, ReleaseStatus, n)
                && var o := log[n].observation;
                   && o.StatusObservation? && o.recordedAt.Some?
                   && o.recordedAt.value <= o.observedAt && o.observedAt <= log[n].persistedAt
                   && log[n].persistedAt <= created && created <= now
  }

  lemma TimelyExact(log: Log, r: Id, created: Time, now: Time)
    requires Timely(log, r, created, now)
    ensures InTime(log, r, created, now)
  {
    HeadIsNewest(log, r, ReleaseStatus);
    hide Head, About;
  }

  /** For every retained release the times are in order, and it knows nothing from after the manifest. */
  lemma PinInTime(cfg: Config, l: Ledger, files: Files, m: RunManifest, c: Confirmation, now: Time)
    requires Coherent(cfg, l) && ValidManifest(m) && PinOutcome(cfg, l, files, m, Some(c), now) == Committed
    ensures m.receiptHash in l.receipts && l.receipts[m.receiptHash].closureHash in l.closures
    ensures var nodes := l.closures[l.receipts[m.receiptHash].closureHash].closure.releases;
            forall i :: 0 <= i < |nodes| ==>
              InTime(l.log, nodes[i].inputRef.releaseId, m.createdAt, now) && nodes[i].inputRef.knowledgeCutoff <= m.createdAt
  {
    hide Coherent, PinOutcome, InTime, ReceiptUsable, NodeIds, Timely, Pinned, PublishedHead;
    AcceptedPinExact(cfg, l, files, m, c, now);
    UsableParts(l, m, now);
    var nodes := l.closures[ClosureHashOf(l, m)].closure.releases;
    forall i | 0 <= i < |nodes|
      ensures InTime(l.log, nodes[i].inputRef.releaseId, m.createdAt, now) && nodes[i].inputRef.knowledgeCutoff <= m.createdAt
    {
      TimelyExact(l.log, nodes[i].Id(), m.createdAt, now);
    }
  }

  /* ---- Every pinned run met the conditions ---- */

  /**
   A run that was not pinned at the start and is pinned now was admitted by one
   transaction in between, which met every condition, and its pin is the one made then.
   */
  lemma {:induction false} EveryPinAdmitted(cfg: Config, ws: seq<World>, ops: seq<Op>, j: nat, run: Id)
    returns (i: nat, m: RunManifest, c: Confirmation, t: Time)
    requires Behaviour(cfg, ws, ops) && j < |ws| && Coherent(cfg, ws[0].ledger)
    requires run !in ws[0].ledger.pins && run in ws[j].ledger.pins
    ensures i < j && ops[i] == Pin(m, Some(c), t) && m.runId == run
    ensures RunAdmissible(cfg, ws[i].ledger, ws[i].files, m, c, t)
    ensures run in ws[i + 1].ledger.pins && ws[j].ledger.pins[run] == ws[i + 1].ledger.pins[run]
    decreases j
  {
    hide Coherent, RunAdmissible, PinOutcome;
    i := j - 1;
    assert Next(cfg, ws[i], ops[i], ws[j]);
    if run in ws[i].ledger.pins {
      PinsKept(cfg, ws[i], ops[i], ws[j], run);
      i, m, c, t := EveryPinAdmitted(cfg, ws, ops, i, run);
    } else {
      RunKeeps(cfg, ws, ops, 0, i);
      m, c, t := PinOrigin(cfg, ws[i], ops[i], ws[j], run);
    }
  }

  lemma PinsKept(cfg: Config, w: World, op: Op, w': World, run: Id)
    requires Next(cfg, w, op, w') && run in w.ledger.pins
    ensures run in w'.ledger.pins && w'.ledger.pins[run] == w.ledger.pins[run]
  {
    hide AppendOutcome, ConsumeOutcome, ReceiptUsable, NewPinAccepted, ExactRetry, ValidOp, FilesGrow, RootMatches,
         ClosureFilesVerify;
  }

  lemma PinOrigin(cfg: Config, w: World, op: Op, w': World, run: Id) returns (m: RunManifest, c: Confirmation, t: Time)
    requires Next(cfg, w, op, w') && Coherent(cfg, w.ledger) && run !in w.ledger.pins && run in w'.ledger.pins
    ensures op == Pin(m, Some(c), t) && m.runId == run && RunAdmissible(cfg, w.ledger, w.files, m, c, t)
  {
    hide Coherent, AppendOutcome, ConsumeOutcome, PinOutcome, ValidOp, FilesGrow, RootMatches, ClosureFilesVerify,
         RunAdmissible;
    match op
    case Consume(q, now) =>
    case Append(o, now) =>
    case Pin(manifest, confirmation, now) =>
      PinExact(cfg, w.ledger, w.files, manifest, confirmation, now);
      m, c, t := manifest, confirmation.value, now;
  }
}
