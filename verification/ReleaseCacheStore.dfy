/**
 The release cache store: its transactions over the tables and the content
 files, proved against the abstract ledger. A transaction works on a copy of the
 tables and installs it on commit, so a refusal leaves the tables as they were.
 */
module Stores {
  import opened Basics
  import opened Contracts
  import opened StatusEvents
  import opened ObservationLog
  import opened RetentionGraph
  import opened RetentionIndex
  import opened Ledgers
  import opened LedgerInvariant
  import opened LedgerRuns
  import opened Databases
  import opened Verifiers
  import opened StoreChecks
  import opened StoreRecording
  import opened StoreConsumption
  import opened StorePinning
  import opened StoreReading

  /* ---- The tables after an append ---- */

  function InsertObservation(sha: Sha, t: ObservationTables, e: Entry): ObservationTables {
    var o := e.observation;
    t.(observations := t.observations[o.id := ObservationRowOf(sha, e)],
       fetches := if o.FetchObservation? then t.fetches[o.id := FetchRowOf(o)] else t.fetches,
       statuses := if o.StatusObservation? then t.statuses[o.id := StatusRowOf(o)] else t.statuses,
       admissions := if o.AdmissionObservation? then t.admissions[o.id := AdmissionRowOf(o)] else t.admissions)
  }

  lemma ObservedAfter(sha: Sha, refs: Refs, log: Log, e: Entry)
    requires e.observation.releaseId in refs
    ensures var r := e.observation.releaseId;
            var t := InsertObservation(sha, ObservedOf(sha, refs, log), e);
            && r in t.heads
            && ObservedOf(sha, refs, log + [e]) ==
               t.(heads := t.heads[r := t.heads[r].Advance(e.observation.Kind(), e.observation.id)])
  {
    hide ObservationRowOf, FetchRowOf, StatusRowOf, AdmissionRowOf, Head;
    var o := e.observation;
    var r := o.releaseId;
    assert (log + [e])[..|log|] == log;
    forall x | x in refs
      ensures HeadsRowOf(log + [e], x) ==
              if x == r then HeadsRowOf(log, x).Advance(o.Kind(), o.id) else HeadsRowOf(log, x)
    {
      HeadOfAppend(log, e, x, ArtifactFetch);
      HeadOfAppend(log, e, x, ReleaseStatus);
      HeadOfAppend(log, e, x, ReleaseAdmission);
    }
    hide HeadsRowOf;
  }

  lemma TablesAfter(cfg: Config, l: Ledger, o: Observation, now: Time)
    requires o.releaseId in l.refs && l.refs[o.releaseId] == o.inputRef
    ensures var db := Tables(cfg, l);
            var t := InsertObservation(cfg.sha, db.observed, Entry(o, now));
            && o.releaseId in t.heads
            && Tables(cfg, WithObservation(l, o, now)) ==
               db.(observed := t.(heads := t.heads[o.releaseId := t.heads[o.releaseId].Advance(o.Kind(), o.id)]))
  {
    var l' := WithObservation(l, o, now);
    ObservedAfter(cfg.sha, l.refs, l.log, Entry(o, now));
    assert l'.refs == l.refs;
    hide InsertObservation, ObservedOf, ReleaseIndex, ArtifactIndex, DependencyIndex, ReceiptIndex, ReceiptRowOf,
         ClosureRowOf;
    SameRuns(cfg.sha, l, l');
    hide RunsOf;
    assert DocumentsOf(cfg.sha, l') == DocumentsOf(cfg.sha, l);
  }

  /* ---- The transition the head trigger permits ---- */

  /** One column moves, to a recorded observation that supersedes its old value. */
  predicate HeadStep(t: ObservationTables, r: Id, before: HeadsRow, after: HeadsRow, k: Kind) {
    && after.Of(k) != before.Of(k) && after.Of(k).Some?
    && (forall j: Kind :: j != k ==> after.Of(j) == before.Of(j))
    && var id := after.Of(k).value;
       && id in t.observations
       && t.observations[id].releaseId == r && t.observations[id].kind == k
       && t.observations[id].supersedes == before.Of(k)
       && match k
          case ArtifactFetch => id in t.fetches
          case ReleaseStatus => id in t.statuses
          case ReleaseAdmission => id in t.admissions && Some(t.admissions[id].statusId) == after.status
  }

  /** Exactly one head moved, as the update trigger allows; no other row changed. */
  predicate OneHeadMoved(before: ObservationTables, after: ObservationTables, r: Id) {
    && r in after.heads
    && (forall x :: x in before.heads && x != r ==> x in after.heads && after.heads[x] == before.heads[x])
    && (forall x :: x in after.heads && x != r ==> x in before.heads)
    && var was := if r in before.heads then before.heads[r] else HeadsRow(None, None, None);
       || HeadStep(after, r, was, after.heads[r], ArtifactFetch)
       || HeadStep(after, r, was, after.heads[r], ReleaseStatus)
       || HeadStep(after, r, was, after.heads[r], ReleaseAdmission)
  }

  lemma AppendMovesOneHead(cfg: Config, l: Ledger, o: Observation, now: Time)
    requires LogCoherent(l.refs, l.receipts, l.log) && o.releaseId in l.refs
    requires l.refs[o.releaseId] == o.inputRef
    requires Admissible(l.refs, l.receipts, l.log, o)
    ensures OneHeadMoved(Tables(cfg, l).observed, Tables(cfg, WithObservation(l, o, now)).observed, o.releaseId)
  {
    TablesAfter(cfg, l, o, now);
    HeadTables(cfg, l, o.releaseId, o.Kind());
    HeadTables(cfg, l, o.releaseId, ReleaseStatus);
    assert HeadId(l.log, o.releaseId, o.Kind()) == o.supersedes;
    assert o.supersedes != Some(o.id);
    assert o.AdmissionObservation? ==> HeadId(l.log, o.releaseId, ReleaseStatus) == Some(o.statusId);
    hide LogCoherent, Admissible, Tables, ValidObservation, ObservationRowOf, FetchRowOf, StatusRowOf;
    var before := Tables(cfg, l).observed;
    var after := Tables(cfg, WithObservation(l, o, now)).observed;
    StepOf(cfg.sha, before, after, o, now);
  }

  /** The same, counted from before the release had an identity. */
  lemma FirstHeadMoved(cfg: Config, l: Ledger, o: Observation, now: Time)
    requires Coherent(cfg, l) && IdentityFits(l, o.inputRef) && o.inputRef.releaseId == o.releaseId
    requires var l' := WithIdentity(l, o.inputRef);
             OneHeadMoved(Tables(cfg, l').observed, Tables(cfg, WithObservation(l', o, now)).observed, o.releaseId)
    ensures OneHeadMoved(Tables(cfg, l).observed, Tables(cfg, WithObservation(l, o, now)).observed, o.releaseId)
  {
    hide Coherent, HeadStep, Tables, HeadsRowOf;
    var l' := WithIdentity(l, o.inputRef);
    assert WithObservation(l', o, now) == WithObservation(l, o, now);
    if o.releaseId in l.refs {
      assert l' == l;
    } else {
      NoHeadsYet(cfg, l, o.releaseId);
      IdentityTables(cfg, l, o.inputRef);
      HeadKeys(cfg, l);
    }
  }

  lemma HeadKeys(cfg: Config, l: Ledger)
    ensures Tables(cfg, l).observed.heads.Keys == l.refs.Keys
  {
  }

  lemma StepOf(sha: Sha, before: ObservationTables, after: ObservationTables, o: Observation, now: Time)
    requires o.releaseId in before.heads
    requires var t := InsertObservation(sha, before, Entry(o, now));
             after == t.(heads := t.heads[o.releaseId := t.heads[o.releaseId].Advance(o.Kind(), o.id)])
    requires before.heads[o.releaseId].Of(o.Kind()) == o.supersedes && o.supersedes != Some(o.id)
    requires o.AdmissionObservation? ==> before.heads[o.releaseId].status == Some(o.statusId)
    ensures OneHeadMoved(before, after, o.releaseId)
  {
    assert HeadStep(after, o.releaseId, before.heads[o.releaseId], after.heads[o.releaseId], o.Kind());
  }

  /* ---- The store ---- */

  class ReleaseCacheStore {
    const cfg: Config
    var db: Database
    var files: Files
    ghost var ledger: Ledger

    /** The tables are exactly those of a coherent ledger. */
    ghost predicate Valid()
      reads this
    {
      ValidConfig(cfg) && Coherent(cfg, ledger) && db == Tables(cfg, ledger)
    }

    /** A new database over an existing content directory. */
    constructor (config: Config, content: Files)
      requires ValidConfig(config)
      ensures Valid() && cfg == config && ledger == EmptyLedger && files == content
    {
      cfg := config;
      files := content;
      ledger := EmptyLedger;
      db := Database(
        ContentTables(map[], map[], map[], map[]),
        DocumentTables(map[], map[], map[], map[], map[], map[], map[]),
        ObservationTables(map[], map[], map[], map[], map[]),
        RunTables(map[], map[], map[], map[], map[], map[], {}));
      new;
      EmptyTables(cfg);
    }

    /**
     Upgrades a version 2 database, which knows pins but no confirmations: every
     pin it holds is quarantined, and nothing else changes.
     */
    constructor UpgradeV2(config: Config, content: Files, v2: Database, ghost before: Ledger)
      requires ValidConfig(config) && Coherent(config, before)
      requires before.confirmations == map[] && forall run :: run in before.pins ==> before.pins[run].binding.None?
      requires v2 == Tables(config, before).(runs := Tables(config, before).runs.(quarantine := {}))
      ensures Valid() && cfg == config && ledger == before && files == content
      ensures db.runs.quarantine == db.runs.pins.Keys && db.runs.bindings == map[]
      ensures db == v2.(runs := v2.runs.(quarantine := v2.runs.pins.Keys))
    {
      cfg := config;
      files := content;
      ledger := before;
      db := v2.(runs := v2.runs.(quarantine := v2.runs.pins.Keys));
      new;
      QuarantineTables(cfg, before);
    }

    /* ---- record_verified_consumption ---- */

    /**
     Records a consumption whose payloads come as lists. A payload listed twice is
     refused before any file is written; otherwise only the indexed payloads count.
     */
    method RecordVerifiedConsumption(receipt: Receipt, closure: Closure, artifacts: seq<((Id, Id), Bytes)>,
                                     manifests: seq<(Id, Bytes)>, now: Time)
      returns (r: Result<bool, StoreError>)
      requires Valid() && ValidReceipt(cfg.sha, receipt) && ValidClosure(cfg.sha, closure)
      modifies this
      ensures Valid() && FilesGrow(cfg.sha, old(files), files)
      ensures r.Err? ==> ledger == old(ledger) && db == old(db)
      ensures var q := Listed(receipt, closure, artifacts, manifests);
              && (r.Ok? <==>
                    && PayloadsAccepted(cfg.sha, receipt, closure, artifacts, manifests)
                    && Placeable(cfg.sha, old(files), closure.releases) && ConsumeOutcome(old(ledger), q) != Refused)
              && (r.Ok? ==> (r.value <==> ConsumeOutcome(old(ledger), q) == Committed))
              && (r.Ok? ==> ledger == Consumed(old(ledger), q, files, now))
              && Next(cfg, World(old(ledger), old(files)), Consume(q, now), World(ledger, files))
      ensures r.Ok? ==> ClosureFilesVerify(cfg.sha, files, closure)
      ensures r == Ok(false) ==> db == old(db)
      ensures r == Err(IntegrityFailure) ==>
                || !Placeable(cfg.sha, old(files), closure.releases)
                || !FilesIntact(cfg.sha, old(files), old(ledger).objects)
      ensures r == Err(IntegerOverflow) ==> !CountsFit(ArtifactIndex(closure.releases))
      ensures r == Err(MappingConflict) ==> Contradicts(old(ledger), Listed(receipt, closure, artifacts, manifests))
      ensures r == Err(InvalidPayload) <==> !PayloadsAccepted(cfg.sha, receipt, closure, artifacts, manifests)
      ensures r == Err(InvalidPayload) ==> files == old(files)
    {
      hide Coherent, Tables, ValidReceipt, ValidClosure, PayloadsMatch, Placeable, ConsumeOutcome, Contradicts, CountsFit, ListedOnce,
           PayloadIndex, WithConsumption, ClosureFilesVerify;
      var byArtifact := UniquePayloads(artifacts);
      var byRelease := UniquePayloads(manifests);
      if byArtifact.None? || byRelease.None? {
        FilesGrowReflexive(cfg.sha, files);
        return Err(InvalidPayload);
      }
      r := RecordPayloads(Consumption(receipt, closure, byArtifact.value, byRelease.value), now);
    }

    /**
     Verifies the payloads, stores their files, and then records receipt, closure
     and indexes in one transaction. A refusal can leave files behind, never rows.
     */
    method RecordPayloads(q: Consumption, now: Time) returns (r: Result<bool, StoreError>)
      requires Valid() && ValidReceipt(cfg.sha, q.receipt) && ValidClosure(cfg.sha, q.closure)
      modifies this
      ensures Valid() && FilesGrow(cfg.sha, old(files), files)
      ensures r.Err? ==> ledger == old(ledger) && db == old(db)
      ensures r.Ok? <==>
                && PayloadsMatch(cfg.sha, q) && Placeable(cfg.sha, old(files), q.closure.releases)
                && ConsumeOutcome(old(ledger), q) != Refused
      ensures r.Ok? ==> (r.value <==> ConsumeOutcome(old(ledger), q) == Committed)
      ensures r.Ok? ==> ledger == Consumed(old(ledger), q, files, now) && ClosureFilesVerify(cfg.sha, files, q.closure)
      ensures r == Ok(false) ==> db == old(db)
      ensures r == Err(IntegrityFailure) ==>
                || !Placeable(cfg.sha, old(files), q.closure.releases)
                || !FilesIntact(cfg.sha, old(files), old(ledger).objects)
      ensures r == Err(IntegerOverflow) ==> !CountsFit(ArtifactIndex(q.closure.releases))
      ensures r == Err(MappingConflict) ==> Contradicts(old(ledger), q)
      ensures r == Err(InvalidPayload) <==> !PayloadsMatch(cfg.sha, q)
      ensures r == Err(InvalidPayload) ==> files == old(files)
      ensures Next(cfg, World(old(ledger), old(files)), Consume(q, now), World(ledger, files))
    {
      hide Coherent, Tables, ValidReceipt, ValidClosure, PayloadsMatch, Placeable, Writable, ConsumeOutcome, Contradicts, CountsFit,
           SpecsCover, WithConsumption, ClosureFilesVerify;
      var specs := VerifyPayloads(cfg.sha, q);
      if specs.None? { FilesGrowReflexive(cfg.sha, files); return Err(InvalidPayload); }
      WritableExact(cfg.sha, files, specs.value, q.closure.releases);
      CoverDigests(cfg.sha, specs.value, q.closure.releases);
      var written, ok := WriteAll(cfg.sha, files, specs.value);
      files := written;
      if !ok { return Err(IntegrityFailure); }
      CoveredFilesVerify(cfg.sha, specs.value, files, q.closure);
      MatchedRoot(cfg.sha, q);
      var done := RecordTransaction(cfg, db, files, q, specs.value, now, ledger);
      if done.Err? {
        SizesContradict(cfg.sha, old(files), files, ledger.objects, specs.value);
        return Err(done.error);
      }
      ConsumeKeeps(cfg, ledger, q, files, now);
      db := done.value.1;
      ledger := Consumed(ledger, q, files, now);
      r := Ok(done.value.0);
    }

    /* ---- append_observation ---- */

    /**
     Appends one observation and advances exactly one head, or recognises an
     exact retry. It never finds its own state inconsistent.
     */
    method AppendObservation(o: Observation, now: Time) returns (r: Result<bool, StoreError>)
      requires Valid() && ValidObservation(o)
      modifies this
      ensures Valid() && files == old(files)
      ensures ledger == Appended(old(ledger), o, now)
      ensures r == Ok(true) <==> AppendOutcome(old(ledger), o, now) == Committed
      ensures r == Ok(false) <==> AppendOutcome(old(ledger), o, now) == Replayed
      ensures r.Err? ==> r.error == if Remaps(old(ledger), o, now) then MappingConflict else AccessDenied(Other)
      ensures r.Ok? ==> !Remaps(old(ledger), o, now)
      ensures r != Ok(true) ==> db == old(db)
      ensures r == Ok(true) ==> OneHeadMoved(old(db).observed, db.observed, o.releaseId)
      ensures Next(cfg, World(old(ledger), old(files)), Append(o, now), World(ledger, files))
    {
      hide MaterialCoherent, LogCoherent, RunsCoherent, Tables, ObservationSyntax, ObservationShape, Admissible,
           OneHeadMoved, InsertObservation, Recorded, RecordedAs, WithObservation;
      if now < o.observedAt { return Err(AccessDenied(Other)); }
      var ensured := EnsureReleaseIdentity(cfg, db, o.inputRef, ledger);
      assert o.inputRef.releaseId == o.releaseId by { ShapeNames(o); }
      if ensured.None? { return Err(MappingConflict); }
      var tx := ensured.value;
      ghost var l := WithIdentity(ledger, o.inputRef);
      RecordedTable(cfg, l, o.id);
      if o.id in tx.observed.observations {
        var same := CheckExisting(cfg, tx, o, ledger);
        if same.Err? { return Err(same.error); }
        return Ok(false);
      }
      var checked := CheckNew(cfg, tx, o, l);
      if checked.Err? { return Err(checked.error); }
      NewObservation(cfg, ledger, o, now);
      var observed := InsertObservation(cfg.sha, tx.observed, Entry(o, now));
      var heads := observed.heads[o.releaseId].Advance(o.Kind(), o.id);
      db := tx.(observed := observed.(heads := observed.heads[o.releaseId := heads]));
      ledger := WithObservation(ledger, o, now);
      r := Ok(true);
    }

    /* ---- pin_run ---- */

    /**
     Admits and pins a run, or recognises an exact retry. It reports an integrity
     failure only when a registered content file no longer verifies, and the two
     checks of the confirmation against the local clock never fire.
     */
    method PinRun(m: RunManifest, c: Option<Confirmation>, now: Time) returns (r: Result<bool, StoreError>)
      requires Valid() && ValidManifest(m) && (c.Some? ==> ValidConfirmation(cfg.sha, c.value))
      modifies this
      ensures Valid() && files == old(files)
      ensures ledger == Pinned(cfg, old(ledger), files, m, c, now)
      ensures r == Ok(true) <==> PinOutcome(cfg, old(ledger), files, m, c, now) == Committed
      ensures r == Ok(false) <==> PinOutcome(cfg, old(ledger), files, m, c, now) == Replayed
      ensures r != Ok(true) ==> db == old(db)
      ensures r == Err(IntegrityFailure) ==> !FilesIntact(cfg.sha, files, ledger.objects)
      ensures r.Err? ==> !ClockErrors(r.error)
      ensures r == Err(MappingConflict) ==>
                && c.Some? && ReceiptUsable(old(ledger), m, now)
                && if m.runId in old(ledger).pins then Rebinds(old(ledger), m, c.value) else !ConfirmationFresh(old(ledger), c.value)
      ensures c.Some? && ReceiptUsable(old(ledger), m, now) && Rebinds(old(ledger), m, c.value) ==> r == Err(MappingConflict)
      ensures Next(cfg, World(old(ledger), old(files)), Pin(m, c, now), World(ledger, files))
    {
      hide Coherent, Tables, ValidConfirmation, ReceiptUsable, ExactRetry, NewPinAccepted, WithPin, NewPin,
           ClosureFilesVerify, FilesIntact, ClosureHashOf;
      QuarantinedTables(cfg, ledger, m.runId);
      NotClockErrors();
      if m.runId in db.runs.quarantine { return Err(AccessDenied(Other)); }
      if c.None? { return Err(AccessDenied(Other)); }
      var receipt := CheckReceipt(cfg, db, m, now, ledger);
      if receipt.Err? { return Err(receipt.error); }
      var k := receipt.value;
      UsableClosure(ledger, m, now);
      if m.runId in db.runs.pins {
        var retry := CheckRetry(cfg, db, files, m, c.value, k, ledger);
        if retry == Some(IntegrityFailure) { BrokenFile(cfg, ledger, files, k); }
        return if retry.Some? then Err(retry.value) else Ok(false);
      }
      var admitted := AdmitRun(cfg, db, files, m, c.value, k, now, ledger);
      if admitted.Err? {
        if admitted.error == IntegrityFailure { BrokenFile(cfg, ledger, files, k); }
        return Err(admitted.error);
      }
      NewPinKeeps(cfg, ledger, files, m, c.value, now);
      db := admitted.value;
      ledger := WithPin(ledger, m, c.value, NewPin(ledger, m, c.value, now), now);
      r := Ok(true);
    }

    /* ---- read_artifact ---- */

    /**
     Reads a retained artifact: the root's for an ordinary read that still has
     current access, any retained release's for an audit replay.
     */
    method ReadArtifact(q: ReadRequest) returns (r: Result<ArtifactRead, StoreError>)
      requires Valid()
      ensures r.Ok? <==> ReadAllowed(cfg, ledger, files, q)
      ensures r.Ok? ==>
                r.value == ArtifactRead(ReadContent(cfg, ledger, files, q), AccessOf(ledger.log, q.Target()))
      ensures r == Err(IntegrityFailure) ==> !FilesIntact(cfg.sha, files, ledger.objects)
    {
      hide Coherent, Tables, RequestWellFormed, ClosureFilesVerify, FilesIntact, OrdinaryCurrent, ArtifactIndex,
           ExactPin;
      var m := q.manifest;
      if !RequestWellFormed(cfg.sha, q) { return Err(AccessDenied(Other)); }
      ExactPinIs(cfg, ledger, m);
      if !ExactPin(cfg.sha, db.runs, m) { return Err(AccessDenied(Other)); }
      QuarantinedTables(cfg, ledger, m.runId);
      if q.purpose == NewRun && m.runId in db.runs.quarantine { return Err(AccessDenied(Other)); }
      var retained := CheckHistory(cfg, db, files, m, ledger);
      if !retained {
        BrokenFile(cfg, ledger, files, ledger.pins[m.runId].closureHash);
        return Err(IntegrityFailure);
      }
      var content := ReadRetained(cfg, db, files, m.runId, (q.Target(), q.artifactId), ledger);
      if content.Err? { return Err(content.error); }
      var access := ReadAccess(cfg, db, q.Target(), ledger);
      if access.Err? { return Err(IntegrityFailure); }
      if q.purpose == NewRun {
        OrdinaryTarget(cfg.sha, q);
        var current := CheckOrdinary(cfg, db, m, access.value, ledger);
        if current.Err? { return Err(IntegrityFailure); }
        if !current.value { return Err(AccessDenied(Other)); }
      }
      r := Ok(ArtifactRead(content.value, access.value));
    }
  }

  lemma QuarantinedTables(cfg: Config, l: Ledger, run: Id)
    ensures run in Tables(cfg, l).runs.quarantine <==> run in l.pins && l.pins[run].binding.None?
    ensures Tables(cfg, l).runs.pins.Keys == l.pins.Keys
  {
    hide ContentOf, DocumentsOf, ObservedOf, PinReleasesOf, PinArtifactsOf, PinRowOf, ConfirmationRowOf, ItemIndex;
  }

  lemma BrokenFile(cfg: Config, l: Ledger, files: Files, k: Digest)
    requires Coherent(cfg, l) && k in l.closures && !ClosureFilesVerify(cfg.sha, files, l.closures[k].closure)
    ensures !FilesIntact(cfg.sha, files, l.objects)
  {
    hide Coherent, FilesIntact, ClosureFilesVerify;
    if FilesIntact(cfg.sha, files, l.objects) { ClosureFilesIntact(cfg, l, files, k); }
  }

  lemma UsableClosure(l: Ledger, m: RunManifest, now: Time)
    requires ReceiptUsable(l, m, now)
    ensures m.receiptHash in l.receipts && ClosureHashOf(l, m) in l.closures
  {
  }

  lemma OrdinaryTarget(sha: Sha, q: ReadRequest)
    requires RequestWellFormed(sha, q) && q.purpose == NewRun
    ensures q.Target() == q.manifest.Root()
  {
  }

  /** A valid store over intact files passes every verifier. */
  lemma StoreVerifies(store: ReleaseCacheStore)
    requires store.Valid() && FilesIntact(store.cfg.sha, store.files, store.ledger.objects)
    ensures EverythingVerifies(store.cfg.sha, store.db, store.files)
  {
    hide Coherent, FilesIntact, EverythingVerifies, Tables;
    CoherentVerifies(store.cfg, store.ledger, store.files);
  }

  /** A registered size that disagrees with the content belongs to a broken file. */
  lemma SizesContradict(sha: Sha, files: Files, files': Files, objects: map<Digest, nat>, specs: Specs)
    requires FilesGrow(sha, files, files') && forall d :: d in specs ==> FileVerifies(sha, files', d, |specs[d]|)
    ensures !SizesFit(objects, specs) ==> !FilesIntact(sha, files, objects)
  {
    if FilesIntact(sha, files, objects) {
      forall d | d in specs && d in objects ensures objects[d] == |specs[d]| {
        assert FileVerifies(sha, files, d, objects[d]);
      }
    }
  }

  lemma CoverDigests(sha: Sha, specs: Specs, nodes: seq<Node>)
    requires SpecsCover(sha, specs, nodes)
    ensures forall d :: d in specs ==> sha(Blob(specs[d])) == d
  {
    hide RequiredDigests, NodeCovered;
  }

  lemma MatchedRoot(sha: Sha, q: Consumption)
    requires PayloadsMatch(sha, q)
    ensures RootMatches(q.receipt, q.closure)
  {
  }

  /** An identifier on record must belong to this very observation, whose chains then verify. */
  method CheckExisting(cfg: Config, tx: Database, o: Observation, ghost l: Ledger) returns (r: Result<(), StoreError>)
    requires Coherent(cfg, l) && ValidObservation(o) && IdentityFits(l, o.inputRef) && Recorded(l.log, o.id)
    requires var l' := WithIdentity(l, o.inputRef);
             Coherent(cfg, l') && tx == Tables(cfg, l')
    ensures r.Ok? <==> RecordedAs(l.log, o)
    ensures r.Ok? ==> WithIdentity(l, o.inputRef) == l
    ensures r.Err? ==> r.error == MappingConflict
  {
    hide MaterialCoherent, LogCoherent, RunsCoherent, Tables, ObservationSyntax, ObservationShape, ChainVerifies,
         ObservationVerifies, ReleaseChainsVerify, Recorded, RecordedAs;
    ghost var l' := WithIdentity(l, o.inputRef);
    ShapeNames(o);
    ExistingObservation(cfg, l, o);
    var row := tx.observed.observations[o.id];
    if row.kind != o.Kind() || row.releaseId != o.releaseId || row.document != o
       || row.documentHash != cfg.sha(ObservationText(o))
    {
      return Err(MappingConflict);
    }
    ObservationAccepted(cfg, l', o.id);
    if !ObservationVerifies(cfg.sha, tx, o.id) { return Err(IntegrityFailure); }
    ReleaseChainsVerified(cfg, l', o.releaseId);
    var chains := VerifyReleaseChains(cfg.sha, tx, o.releaseId);
    if !chains { return Err(IntegrityFailure); }
    r := Ok(());
  }

  /** Everything an observation with a new identifier must satisfy. */
  method CheckNew(cfg: Config, tx: Database, o: Observation, ghost l: Ledger) returns (r: Result<(), StoreError>)
    requires Coherent(cfg, l) && tx == Tables(cfg, l) && ValidObservation(o)
    requires o.releaseId in l.refs && l.refs[o.releaseId] == o.inputRef && !Recorded(l.log, o.id)
    ensures r.Ok? <==> Admissible(l.refs, l.receipts, l.log, o)
    ensures r.Ok? ==> o.supersedes == HeadId(l.log, o.releaseId, o.Kind())
    ensures r.Err? ==>
              r.error == if o.supersedes != HeadId(l.log, o.releaseId, o.Kind()) then MappingConflict else AccessDenied(Other)
  {
    hide MaterialCoherent, LogCoherent, RunsCoherent, Tables, ObservationSyntax, ObservationShape, ChainVerifies,
         FetchJustified, StatusJustified, AdmissionJustified, Head, Recorded;
    HeadTables(cfg, l, o.releaseId, o.Kind());
    ChainVerified(cfg, l, o.releaseId, o.Kind());
    var current := tx.observed.heads[o.releaseId].Of(o.Kind());
    var chain := VerifyObservationChain(cfg.sha, tx, o.releaseId, o.Kind(), current);
    if !chain { return Err(IntegrityFailure); }
    if o.supersedes != current { return Err(MappingConflict); }
    if current.Some? && o.observedAt < tx.observed.observations[current.value].observedAt {
      return Err(AccessDenied(Other));
    }
    var justified := CheckKind(cfg, tx, o, l);
    if !justified { return Err(AccessDenied(Other)); }
    return Ok(());
  }

  method CheckKind(cfg: Config, tx: Database, o: Observation, ghost l: Ledger) returns (ok: bool)
    requires Coherent(cfg, l) && tx == Tables(cfg, l) && ValidObservation(o) && o.releaseId in l.refs
    ensures ok <==> Justified(l.receipts, l.log, o)
  {
    hide MaterialCoherent, LogCoherent, RunsCoherent, Tables, ValidObservation, FetchJustified, StatusJustified,
         AdmissionJustified;
    match o.Kind()
    case ArtifactFetch => ok := ValidateFetch(cfg, tx, o, l);
    case ReleaseStatus => ok := ValidateStatus(cfg, tx, o, l);
    case ReleaseAdmission => ok := ValidateAdmission(cfg, tx, o, l);
  }

  lemma RecordedTable(cfg: Config, l: Ledger, id: Id)
    requires LogCoherent(l.refs, l.receipts, l.log)
    ensures id in Tables(cfg, l).observed.observations <==> Recorded(l.log, id)
  {
    hide LogCoherent, ContentOf, DocumentsOf, RunsOf, FetchTable, StatusTable, AdmissionTable;
    if id in Tables(cfg, l).observed.observations {
      var i := TableEntry(cfg.sha, l.log, id);
    } else if Recorded(l.log, id) {
      var i :| 0 <= i < |l.log| && l.log[i].observation.id == id;
      TableLookup(l.refs, l.receipts, cfg.sha, l.log, i);
    }
  }

  /** For a recorded identifier the row tells whether this is the same document. */
  lemma ExistingObservation(cfg: Config, l: Ledger, o: Observation)
    requires Coherent(cfg, l) && Recorded(l.log, o.id) && IdentityFits(l, o.inputRef)
    requires o.inputRef.releaseId == o.releaseId
    ensures var t := Tables(cfg, WithIdentity(l, o.inputRef)).observed.observations;
            && o.id in t && (t[o.id].document == o <==> RecordedAs(l.log, o))
            && (t[o.id].document == o ==> t[o.id] == ObservationRowOf(cfg.sha, Entry(o, t[o.id].persistedAt)))
    ensures RecordedAs(l.log, o) ==> WithIdentity(l, o.inputRef) == l
  {
    hide MaterialCoherent, RunsCoherent, LogCoherent, ContentOf, DocumentsOf, RunsOf, ObservationTable, FetchTable,
         StatusTable, AdmissionTable, RecordedAs;
    var i :| 0 <= i < |l.log| && l.log[i].observation.id == o.id;
    TableLookup(l.refs, l.receipts, cfg.sha, l.log, i);
    RecordedHasIdentity(l, i);
    RecordedOnce(l, o, i);
  }

  lemma RecordedOnce(l: Ledger, o: Observation, i: nat)
    requires LogCoherent(l.refs, l.receipts, l.log) && i < |l.log| && l.log[i].observation.id == o.id
    ensures RecordedAs(l.log, o) <==> l.log[i].observation == o
  {
    hide LogCoherent;
    if RecordedAs(l.log, o) {
      var j :| 0 <= j < |l.log| && l.log[j].observation == o;
      if i != j { IdentifiersDistinct(l.refs, l.receipts, l.log, i, j); }
    }
  }

  lemma RecordedHasIdentity(l: Ledger, n: nat)
    requires LogCoherent(l.refs, l.receipts, l.log) && n < |l.log|
    ensures l.log[n].observation.releaseId in l.refs
  {
    assert CoherentAt(l.refs, l.receipts, l.log, n);
  }

  lemma IdentityThenObservation(cfg: Config, l: Ledger, o: Observation, now: Time)
    requires o.inputRef.releaseId == o.releaseId
    ensures WithObservation(WithIdentity(l, o.inputRef), o, now) == WithObservation(l, o, now)
    ensures WithIdentity(l, o.inputRef).refs == l.refs[o.releaseId := o.inputRef]
  {
  }

  /** What the inserts of a new observation amount to. */
  lemma NewObservation(cfg: Config, l: Ledger, o: Observation, now: Time)
    requires Coherent(cfg, l) && IdentityFits(l, o.inputRef) && o.inputRef.releaseId == o.releaseId
    requires o.observedAt <= now && Admissible(WithIdentity(l, o.inputRef).refs, l.receipts, l.log, o)
    requires Coherent(cfg, WithIdentity(l, o.inputRef))
    ensures var db := Tables(cfg, WithIdentity(l, o.inputRef));
            var t := InsertObservation(cfg.sha, db.observed, Entry(o, now));
            && o.releaseId in t.heads
            && Tables(cfg, WithObservation(l, o, now)) ==
               db.(observed := t.(heads := t.heads[o.releaseId := t.heads[o.releaseId].Advance(o.Kind(), o.id)]))
    ensures Coherent(cfg, WithObservation(l, o, now))
    ensures OneHeadMoved(Tables(cfg, l).observed, Tables(cfg, WithObservation(l, o, now)).observed, o.releaseId)
  {
    hide MaterialCoherent, LogCoherent, RunsCoherent, Tables, InsertObservation, OneHeadMoved, Admissible;
    var l' := WithIdentity(l, o.inputRef);
    TablesAfter(cfg, l', o, now);
    AppendMovesOneHead(cfg, l', o, now);
    FirstHeadMoved(cfg, l, o, now);
    IdentityThenObservation(cfg, l, o, now);
    ObservationKeeps(cfg, l, o, now);
  }

  lemma EmptyTables(cfg: Config)
    ensures Coherent(cfg, EmptyLedger)
    ensures Tables(cfg, EmptyLedger) == Database(
        ContentTables(map[], map[], map[], map[]),
        DocumentTables(map[], map[], map[], map[], map[], map[], map[]),
        ObservationTables(map[], map[], map[], map[], map[]),
        RunTables(map[], map[], map[], map[], map[], map[], {}))
  {
    var t := Tables(cfg, EmptyLedger);
    assert t.documents == DocumentTables(map[], map[], map[], map[], map[], map[], map[]);
    assert t.observed == ObservationTables(map[], map[], map[], map[], map[]);
    assert t.runs == RunTables(map[], map[], map[], map[], map[], map[], {});
  }

  lemma QuarantineTables(cfg: Config, l: Ledger)
    requires l.confirmations == map[] && forall run :: run in l.pins ==> l.pins[run].binding.None?
    ensures Tables(cfg, l).runs.quarantine == l.pins.Keys == Tables(cfg, l).runs.pins.Keys
    ensures Tables(cfg, l).runs.bindings == map[]
  {
    hide ContentOf, DocumentsOf, ObservedOf, PinReleasesOf, PinArtifactsOf, PinRowOf, ConfirmationRowOf, ItemIndex;
  }
}
