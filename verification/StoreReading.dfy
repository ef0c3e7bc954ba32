/**
 Reading a pinned artifact: the historical checks every read makes, and the
 current access an ordinary read needs on top of them.
 */
module StoreReading {
  import opened Basics
  import opened Contracts
  import opened StatusEvents
  import opened ObservationLog
  import opened RetentionGraph
  import opened RetentionIndex
  import opened Ledgers
  import opened LedgerInvariant
  import opened LedgerRuns
  import opened Databases
  import opened Verifiers
  import opened StoreChecks
  import opened StorePinning

  /* ---- The pin and its material ---- */

  /** The persisted pin is this very manifest. */
  predicate ExactPin(sha: Sha, t: RunTables, m: RunManifest) {
    m.runId in t.pins && PinRowMatches(sha, t.pins[m.runId], m, t.pins[m.runId].closureHash)
  }

  lemma ExactPinIs(cfg: Config, l: Ledger, m: RunManifest)
    ensures ExactPin(cfg.sha, Tables(cfg, l).runs, m) <==> m.runId in l.pins && l.pins[m.runId].manifest == m
  {
    hide Tables;
    TableKeys(cfg, l);
    if m.runId in l.pins { PinTables(cfg, l, m.runId); }
  }

  /** The binding, confirmation, receipt, closure, files and chains behind a pin. */
  method CheckHistory(cfg: Config, db: Database, files: Files, m: RunManifest, ghost l: Ledger) returns (ok: bool)
    requires Coherent(cfg, l) && db == Tables(cfg, l) && m.runId in l.pins && l.pins[m.runId].manifest == m
    ensures l.pins[m.runId].closureHash in l.closures
    ensures ok <==> ClosureFilesVerify(cfg.sha, files, l.closures[l.pins[m.runId].closureHash].closure)
  {
    hide Coherent, Tables, ReceiptVerifies, ClosureVerifies, ConfirmationVerifies, PinClosureVerifies,
         ReleaseChainsVerify, ClosureFilesVerify, NodeIds, PinReleasesOf, PinArtifactsOf;
    CoherentParts(cfg, l);
    PinTables(cfg, l, m.runId);
    PinClosureOf(cfg, l, m.runId);
    PinClosureExact(cfg, l, files, m.runId);
    var row := db.runs.pins[m.runId];
    if m.runId in db.runs.bindings {
      var h := db.runs.bindings[m.runId];
      BoundConfirmation(cfg, l, m.runId);
      ConfirmationTables(cfg, l, h);
      ConfirmationAccepted(cfg, l, h);
      if !ConfirmationVerifies(cfg.sha, db, h) { return false; }
      if !ConfirmationRowBinds(db.runs.confirmations[h], m, row.closureHash) { return false; }
    }
    ReceiptTables(cfg, l, m.receiptHash);
    if db.documents.receiptClosures[m.receiptHash] != row.closureHash { return false; }
    ReceiptAccepted(cfg, l, m.receiptHash);
    ClosureAccepted(cfg, l, row.closureHash);
    if !ReceiptVerifies(cfg.sha, db, m.receiptHash) || !ClosureVerifies(cfg.sha, db, row.closureHash) { return false; }
    ClosureTables(cfg, l, row.closureHash);
    RootReference(cfg, l, m.receiptHash);
    if db.documents.closures[row.closureHash].rootReleaseId != m.Root() { return false; }
    if !PinClosureVerifies(cfg.sha, db, files, m.runId, row.closureHash) { return false; }
    ok := CheckRetainedChains(cfg, db, m.runId, l);
  }

  lemma CoherentParts(cfg: Config, l: Ledger)
    requires Coherent(cfg, l)
    ensures MaterialCoherent(cfg, l) && LogCoherent(l.refs, l.receipts, l.log) && RunsCoherent(cfg, l)
  {
    hide MaterialCoherent, LogCoherent, RunsCoherent;
  }

  lemma RetainedIdentified(cfg: Config, l: Ledger, run: Id)
    requires Coherent(cfg, l) && run in l.pins
    ensures forall x :: x in l.pins[run].statusOf ==> x in l.refs
    ensures Group(Tables(cfg, l).runs.pinReleases, run).Keys == l.pins[run].statusOf.Keys
  {
    hide MaterialCoherent, RunsCoherent, LogCoherent, Tables, Group, ReleaseIndex, NodeIds;
    PinClosureOf(cfg, l, run);
    PinTables(cfg, l, run);
    ReleaseKeys(cfg, l, l.pins[run].closureHash);
    ClosureIdentified(cfg, l, l.pins[run].closureHash);
  }

  lemma ClosureIdentified(cfg: Config, l: Ledger, k: Digest)
    requires MaterialCoherent(cfg, l) && k in l.closures
    ensures forall x :: x in NodeIds(l.closures[k].closure.releases) ==> x in l.refs
  {
    hide ReceiptCoherent, ValidClosure;
    assert ClosureCoherent(cfg, l, k, l.closures[k].closure);
    forall x | x in NodeIds(l.closures[k].closure.releases) ensures x in l.refs {
      var i := NodeOf(l.closures[k].closure.releases, x);
      assert NodeStored(l, l.closures[k].closure.releases[i]);
    }
  }

  /** Replays the observation chains of every retained release. */
  method CheckRetainedChains(cfg: Config, db: Database, run: Id, ghost l: Ledger) returns (ok: bool)
    requires Coherent(cfg, l) && db == Tables(cfg, l) && run in l.pins
    ensures ok
  {
    hide Coherent, Tables, ReleaseChainsVerify;
    RetainedIdentified(cfg, l, run);
    var pending := Group(db.runs.pinReleases, run).Keys;
    while pending != {}
      invariant pending <= l.pins[run].statusOf.Keys
      decreases pending
    {
      var x :| x in pending;
      ReleaseChainsVerified(cfg, l, x);
      var chains := VerifyReleaseChains(cfg.sha, db, x);
      if !chains { return false; }
      pending := pending - {x};
    }
    ok := true;
  }

  /* ---- Ordinary access ---- */

  predicate AccessAuthorized(a: Access) {
    && a.status.Some? && PublishedStatus(a.status.value)
    && a.admission.Some? && AuthorizedFor(a.admission.value, a.status.value.id)
  }

  lemma AuthorizedRoot(cfg: Config, l: Ledger, m: RunManifest)
    requires Coherent(cfg, l) && m.Root() in l.refs
    ensures m.Root() in Tables(cfg, l).observed.heads
    ensures var heads := Tables(cfg, l).observed.heads[m.Root()];
            RootHeads(l.log, m) && PublishedHead(l.log, m.Root(), m.statusId) <==>
              && heads.fetch == Some(m.fetchId) && heads.status == Some(m.statusId) && heads.admission == Some(m.admissionId)
              && AccessAuthorized(AccessOf(l.log, m.Root()))
  {
    hide MaterialCoherent, LogCoherent, RunsCoherent, Tables, Head;
    HeadTables(cfg, l, m.Root(), ArtifactFetch);
    HeadTables(cfg, l, m.Root(), ReleaseStatus);
    HeadTables(cfg, l, m.Root(), ReleaseAdmission);
    AccessIsHeads(l.log, m.Root());
  }

  lemma PinnedRows(cfg: Config, l: Ledger, run: Id)
    requires RunsCoherent(cfg, l) && MaterialCoherent(cfg, l) && run in l.pins
    ensures var pinned := Group(Tables(cfg, l).runs.pinReleases, run);
            var statusOf := l.pins[run].statusOf;
            pinned.Keys == statusOf.Keys && forall x :: x in pinned ==> pinned[x].statusId == statusOf[x]
  {
    hide RunsCoherent, MaterialCoherent, Tables, Group, ReleaseIndex, NodeIds;
    PinClosureOf(cfg, l, run);
    PinTables(cfg, l, run);
    ReleaseKeys(cfg, l, l.pins[run].closureHash);
  }

  method CheckRetainedStatus(cfg: Config, db: Database, x: Id, id: Id, ghost l: Ledger)
    returns (ok: Result<bool, StoreError>)
    requires Coherent(cfg, l) && db == Tables(cfg, l) && x in l.refs
    ensures ok.Ok? && (ok.value <==> PublishedHead(l.log, x, id))
  {
    hide Tables, PublishedHead, HeadIsTail, PublishedRow, LogCoherent, MaterialCoherent, RunsCoherent;
    PublishedRows(cfg, l, x, id);
    HeadIsTailOf(cfg, l, x, ReleaseStatus);
    HeadTables(cfg, l, x, ReleaseStatus);
    var head := db.observed.heads[x].status;
    if !HeadIsTail(db.observed, x, ReleaseStatus, head) { return Err(IntegrityFailure); }
    ok := Ok(head == Some(id) && PublishedRow(db.observed, id));
  }

  /** Every retained release still has its pinned status, published, as its head. */
  method CheckRetainedStatuses(cfg: Config, db: Database, pinned: map<Id, PinReleaseRow>, ghost l: Ledger)
    returns (ok: Result<bool, StoreError>)
    requires Coherent(cfg, l) && db == Tables(cfg, l) && forall x :: x in pinned ==> x in l.refs
    ensures ok.Ok? && (ok.value <==> forall x :: x in pinned ==> PublishedHead(l.log, x, pinned[x].statusId))
  {
    hide Coherent, Tables, PublishedHead;
    var pending := pinned.Keys;
    while pending != {}
      invariant pending <= pinned.Keys
      invariant forall x :: x in pinned && x !in pending ==> PublishedHead(l.log, x, pinned[x].statusId)
      decreases pending
    {
      var x :| x in pending;
      pending := pending - {x};
      var current := CheckRetainedStatus(cfg, db, x, pinned[x].statusId, l);
      if current.Err? || !current.value { return current; }
    }
    ok := Ok(true);
  }

  /** The current access an ordinary read needs. */
  method CheckOrdinary(cfg: Config, db: Database, m: RunManifest, access: Access, ghost l: Ledger)
    returns (ok: Result<bool, StoreError>)
    requires Coherent(cfg, l) && db == Tables(cfg, l) && m.runId in l.pins && l.pins[m.runId].manifest == m
    requires m.Root() in l.refs && access == AccessOf(l.log, m.Root())
    ensures ok.Ok? && (ok.value <==> OrdinaryCurrent(l.log, l.pins[m.runId]))
  {
    hide Coherent, Tables, PublishedHead, RootHeads, HeadIsTail, AccessAuthorized, Group, HeadsPublished, HeadId;
    CoherentParts(cfg, l);
    hide MaterialCoherent, LogCoherent, RunsCoherent;
    AuthorizedRoot(cfg, l, m);
    HeadTables(cfg, l, m.Root(), ArtifactFetch);
    HeadIsTailOf(cfg, l, m.Root(), ArtifactFetch);
    var heads := db.observed.heads[m.Root()];
    if !HeadIsTail(db.observed, m.Root(), ArtifactFetch, heads.fetch) { return Err(IntegrityFailure); }
    if heads.fetch != Some(m.fetchId) || heads.status != Some(m.statusId) || heads.admission != Some(m.admissionId)
       || !AccessAuthorized(access)
    {
      return Ok(false);
    }
    RetainedIdentified(cfg, l, m.runId);
    PinnedRows(cfg, l, m.runId);
    PinnedHeads(l.log, Group(db.runs.pinReleases, m.runId), l.pins[m.runId].statusOf);
    ok := CheckRetainedStatuses(cfg, db, Group(db.runs.pinReleases, m.runId), l);
  }

  lemma PinnedHeads(log: Log, pinned: map<Id, PinReleaseRow>, statusOf: map<Id, Id>)
    requires pinned.Keys == statusOf.Keys && forall x :: x in pinned ==> pinned[x].statusId == statusOf[x]
    ensures HeadsPublished(log, statusOf) <==> forall x :: x in pinned ==> PublishedHead(log, x, pinned[x].statusId)
  {
    hide PublishedHead;
  }

  /* ---- The read ---- */

  datatype ArtifactRead = ArtifactRead(content: Bytes, access: Access)

  lemma TargetRows(cfg: Config, l: Ledger, run: Id, key: (Id, Id))
    requires Coherent(cfg, l) && run in l.pins
    ensures l.pins[run].closureHash in l.closures
    ensures var db := Tables(cfg, l);
            var index := ArtifactIndex(l.closures[l.pins[run].closureHash].closure.releases);
            var pinned := Group(db.runs.pinArtifacts, run);
            && (key in pinned <==> key in index)
            && (key in index ==>
                  && pinned[key] == PinArtifactRow(index[key].hash, index[key].sizeBytes)
                  && key.0 in l.refs && key.0 in Group(db.runs.pinReleases, run)
                  && key in db.content.artifacts && db.content.artifacts[key].artifact == index[key]
                  && index[key].hash in db.content.objects)
  {
    hide LogCoherent, PinBound, BindingCoherent, ReceiptCoherent, ValidClosure, Tables, Group, ReleaseIndex,
         ArtifactIndex, NodesProper;
    PinClosureOf(cfg, l, run);
    PinTables(cfg, l, run);
    RetainedIdentified(cfg, l, run);
    var k := l.pins[run].closureHash;
    var c := l.closures[k].closure;
    ClosureTables(cfg, l, k);
    if key in ArtifactIndex(c.releases) {
      assert ClosureCoherent(cfg, l, k, c);
      ClosureNodesProper(cfg.sha, c);
      var i, j := IndexedArtifact(c.releases, key);
      assert NodeStored(l, c.releases[i]);
      assert ArtifactStored(l, c.releases[i].Id(), c.releases[i].artifacts[j]);
      assert c.releases[i].Id() in NodeIds(c.releases);
    }
  }

  /** The verified bytes of one retained artifact; nothing for any other key. */
  method ReadRetained(cfg: Config, db: Database, files: Files, run: Id, key: (Id, Id), ghost l: Ledger)
    returns (r: Result<Bytes, StoreError>)
    requires Coherent(cfg, l) && db == Tables(cfg, l) && run in l.pins && l.pins[run].closureHash in l.closures
    requires ClosureFilesVerify(cfg.sha, files, l.closures[l.pins[run].closureHash].closure)
    ensures var index := ArtifactIndex(l.closures[l.pins[run].closureHash].closure.releases);
            && (r.Ok? <==> key in index)
            && (r.Ok? ==> key.0 in l.refs && index[key].hash in files && r.value == files[index[key].hash])
            && (r.Err? ==> r.error == AccessDenied(Other))
  {
    hide Coherent, Tables, ClosureFilesVerify, ArtifactIndex, Group;
    TargetRows(cfg, l, run, key);
    var pinned := Group(db.runs.pinArtifacts, run);
    if key !in pinned || key.0 !in Group(db.runs.pinReleases, run) || key !in db.content.artifacts
       || pinned[key].hash !in db.content.objects
    {
      return Err(AccessDenied(Other));
    }
    RetainedFileVerifies(cfg, l, files, run, key);
    var mapped := db.content.artifacts[key].artifact;
    if mapped.hash != pinned[key].hash || mapped.sizeBytes != pinned[key].sizeBytes { return Err(IntegrityFailure); }
    if !FileVerifies(cfg.sha, files, pinned[key].hash, pinned[key].sizeBytes) { return Err(IntegrityFailure); }
    r := Ok(files[pinned[key].hash]);
  }

  lemma RetainedFileVerifies(cfg: Config, l: Ledger, files: Files, run: Id, key: (Id, Id))
    requires Coherent(cfg, l) && run in l.pins && l.pins[run].closureHash in l.closures
    requires ClosureFilesVerify(cfg.sha, files, l.closures[l.pins[run].closureHash].closure)
    requires key in ArtifactIndex(l.closures[l.pins[run].closureHash].closure.releases)
    ensures var a := ArtifactIndex(l.closures[l.pins[run].closureHash].closure.releases)[key];
            FileVerifies(cfg.sha, files, a.hash, a.sizeBytes)
  {
    hide LogCoherent, RunsCoherent, ReceiptCoherent, ArtifactIndex;
    var c := l.closures[l.pins[run].closureHash].closure;
    assert ClosureCoherent(cfg, l, l.pins[run].closureHash, c);
    ClosureNodesProper(cfg.sha, c);
    var i, j := IndexedArtifact(c.releases, key);
    assert NodeFilesVerify(cfg.sha, files, c.releases[i]);
  }

  /** The current access of a release that has an identity. */
  method ReadAccess(cfg: Config, db: Database, r: Id, ghost l: Ledger) returns (a: Result<Access, StoreError>)
    requires Coherent(cfg, l) && db == Tables(cfg, l) && r in l.refs
    ensures a == Ok(AccessOf(l.log, r))
  {
    hide Coherent, Tables, CurrentAccess;
    CurrentAccessIsFold(cfg, l, r);
    var access := CurrentAccess(db.observed, r);
    if access.None? { return Err(IntegrityFailure); }
    a := Ok(access.value);
  }
}
