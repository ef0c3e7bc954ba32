/**
 Pinning a run: the checks that admit it, the check of an exact retry, and the
 rows a new pin inserts.
 */
module StorePinning {
  import opened Basics
  import opened Contracts
  import opened StatusEvents
  import opened ObservationLog
  import opened RetentionGraph
  import opened RetentionIndex
  import opened Ledgers
  import opened LedgerInvariant
  import opened LedgerRuns
  import opened Databases
  import opened Verifiers
  import opened StoreChecks

  /** The two checks of a confirmation against the local clock. */
  predicate ClockErrors(e: StoreError) {
    e == AccessDenied(ConfirmationAheadOfClock) || e == AccessDenied(CheckAheadOfClock)
  }

  /* ---- The receipt and closure of the run ---- */

  lemma ReceiptHasClosure(cfg: Config, l: Ledger, h: Digest)
    requires MaterialCoherent(cfg, l) && h in l.receipts
    ensures l.receipts[h].closureHash in l.closures
    ensures l.closures[l.receipts[h].closureHash].closure.root == l.receipts[h].receipt.inputRef
  {
    RootReference(cfg, l, h);
  }

  method CheckReceipt(cfg: Config, db: Database, m: RunManifest, now: Time, ghost l: Ledger)
    returns (r: Result<Digest, StoreError>)
    requires Coherent(cfg, l) && db == Tables(cfg, l)
    ensures r.Ok? <==> ReceiptUsable(l, m, now)
    ensures r.Ok? ==> r.value == ClosureHashOf(l, m)
    ensures r.Err? ==> r.error == AccessDenied(Other)
  {
    hide Tables, MaterialCoherent, LogCoherent, RunsCoherent, ReceiptVerifies, ClosureVerifies;
    var h := m.receiptHash;
    TableKeys(cfg, l);
    if now < m.createdAt { return Err(AccessDenied(Other)); }
    if m.Root() !in db.content.identities || db.content.identities[m.Root()] != m.inputRef { return Err(AccessDenied(Other)); }
    if h !in db.documents.receipts { return Err(AccessDenied(Other)); }
    ReceiptTables(cfg, l, h);
    ReceiptHasClosure(cfg, l, h);
    var k := db.documents.receiptClosures[h];
    ClosureTables(cfg, l, k);
    if db.documents.receipts[h].releaseId != m.Root() { return Err(AccessDenied(Other)); }
    ReceiptAccepted(cfg, l, h);
    ClosureAccepted(cfg, l, k);
    if !ReceiptVerifies(cfg.sha, db, h) || !ClosureVerifies(cfg.sha, db, k) { return Err(IntegrityFailure); }
    if db.documents.closures[k].rootReleaseId != m.Root() { return Err(IntegrityFailure); }
    if m.createdAt < db.documents.receipts[h].persistedAt || m.createdAt < db.documents.closures[k].persistedAt {
      return Err(AccessDenied(Other));
    }
    r := Ok(k);
  }

  /* ---- Exact retries ---- */

  lemma BoundConfirmation(cfg: Config, l: Ledger, run: Id)
    requires RunsCoherent(cfg, l) && run in l.pins && l.pins[run].binding.Some?
    ensures l.pins[run].binding.value in l.confirmations
    ensures Binds(l.confirmations[l.pins[run].binding.value].confirmation, l.pins[run].manifest, l.pins[run].closureHash)
  {
    hide PinRetains, PinBound, ConfirmationCoherent, Binds;
    assert PinCoherent(l, run, l.pins[run]);
  }

  lemma PinClosureOf(cfg: Config, l: Ledger, run: Id)
    requires RunsCoherent(cfg, l) && run in l.pins
    ensures var m := l.pins[run].manifest;
            && m.receiptHash in l.receipts && l.receipts[m.receiptHash].closureHash == l.pins[run].closureHash
            && l.receipts[m.receiptHash].receipt.inputRef == m.inputRef
            && l.pins[run].closureHash in l.closures
            && l.pins[run].statusOf.Keys == NodeIds(l.closures[l.pins[run].closureHash].closure.releases)
  {
    hide PinBound, BindingCoherent, ConfirmationCoherent;
    assert PinCoherent(l, run, l.pins[run]);
  }

  lemma ConfirmationTables(cfg: Config, l: Ledger, h: Digest)
    requires h in l.confirmations
    ensures var t := Tables(cfg, l).runs;
            && h in t.confirmations && t.confirmations[h] == ConfirmationRowOf(cfg.sha, l.confirmations[h])
            && Group(t.confirmationItems, h) == ItemIndex(l.confirmations[h].confirmation.items)
  {
    hide ContentOf, DocumentsOf, ObservedOf, PinReleasesOf, PinArtifactsOf, PinRowOf, ConfirmationRowOf, ItemIndex;
  }

  predicate PinRowMatches(sha: Sha, row: PinRow, m: RunManifest, k: Digest) {
    && row.document == m && row.documentHash == sha(ManifestText(m))
    && row.rootReleaseId == m.Root() && row.receiptHash == m.receiptHash && row.closureHash == k
    && row.fetchId == m.fetchId && row.statusId == m.statusId && row.admissionId == m.admissionId
  }

  predicate ConfirmationRowBinds(row: ConfirmationRow, m: RunManifest, k: Digest) {
    row.runId == m.runId && row.rootReleaseId == m.Root() && row.receiptHash == m.receiptHash && row.closureHash == k
  }

  /** Judges a repeated request by the historical pin alone. */
  method CheckRetry(cfg: Config, db: Database, files: Files, m: RunManifest, c: Confirmation, k: Digest, ghost l: Ledger)
    returns (e: Option<StoreError>)
    requires Coherent(cfg, l) && db == Tables(cfg, l)
    requires m.runId in l.pins && m.receiptHash in l.receipts && k == ClosureHashOf(l, m)
    ensures e.None? <==> ExactRetry(cfg, l, files, m, c)
    ensures l.pins[m.runId].binding.Some? ==> (e == Some(MappingConflict) <==> Rebinds(l, m, c))
    ensures e.Some? ==> !ClockErrors(e.value)
    ensures e == Some(IntegrityFailure) ==> k in l.closures && !ClosureFilesVerify(cfg.sha, files, l.closures[k].closure)
  {
    hide MaterialCoherent, LogCoherent, RunsCoherent, Tables, PinClosureVerifies, ConfirmationVerifies,
         ClosureFilesVerify, NodeIds;
    var run, h := m.runId, c.confirmationHash;
    PinTables(cfg, l, run);
    PinClosureOf(cfg, l, run);
    if !PinRowMatches(cfg.sha, db.runs.pins[run], m, k) { return Some(MappingConflict); }
    if run !in db.runs.bindings { return Some(AccessDenied(Other)); }
    if db.runs.bindings[run] != h { return Some(MappingConflict); }
    BoundConfirmation(cfg, l, run);
    ConfirmationTables(cfg, l, h);
    ConfirmationAccepted(cfg, l, h);
    if db.runs.confirmations[h].document != c { return Some(MappingConflict); }
    if !ConfirmationVerifies(cfg.sha, db, h) { return Some(IntegrityFailure); }
    if !ConfirmationRowBinds(db.runs.confirmations[h], m, k) { return Some(IntegrityFailure); }
    PinClosureExact(cfg, l, files, run);
    if !PinClosureVerifies(cfg.sha, db, files, run, k) { return Some(IntegrityFailure); }
    e := None;
  }

  /* ---- The root's heads ---- */

  /** The subtype row of a head is the projection of its observation. */
  lemma {:induction false} HeadSubtype(cfg: Config, l: Ledger, r: Id, k: Kind)
    requires LogCoherent(l.refs, l.receipts, l.log) && Head(l.log, r, k).Some?
    ensures var o := Head(l.log, r, k).value.observation;
            var t := Tables(cfg, l).observed;
            match k
            case ArtifactFetch => o.FetchObservation? && o.id in t.fetches && t.fetches[o.id] == FetchRowOf(o)
            case ReleaseStatus => o.StatusObservation? && o.id in t.statuses && t.statuses[o.id] == StatusRowOf(o)
            case ReleaseAdmission => o.AdmissionObservation? && o.id in t.admissions && t.admissions[o.id] == AdmissionRowOf(o)
  {
    hide LogCoherent, ContentOf, DocumentsOf, RunsOf;
    var i := HeadIsLastMatch(l.log, r, k);
    TableLookup(l.refs, l.receipts, cfg.sha, l.log, i);
  }

  predicate PublishedRow(t: ObservationTables, id: Id) {
    id in t.statuses && t.statuses[id].result == Passed && t.statuses[id].status == Some(Published)
  }

  lemma PublishedRows(cfg: Config, l: Ledger, r: Id, id: Id)
    requires LogCoherent(l.refs, l.receipts, l.log) && r in l.refs
    ensures r in Tables(cfg, l).observed.heads
    ensures var t := Tables(cfg, l).observed;
            PublishedHead(l.log, r, id) <==> t.heads[r].status == Some(id) && PublishedRow(t, id)
  {
    hide LogCoherent, Tables;
    HeadTables(cfg, l, r, ReleaseStatus);
    if Head(l.log, r, ReleaseStatus).Some? { HeadSubtype(cfg, l, r, ReleaseStatus); }
  }

  /** The status head of a release, if it is passed and published. */
  method RequirePublished(cfg: Config, db: Database, r: Id, ghost l: Ledger) returns (id: Result<Id, StoreError>)
    requires Coherent(cfg, l) && db == Tables(cfg, l) && r in l.refs
    ensures id.Ok? ==> PublishedHead(l.log, r, id.value)
    ensures id.Err? ==> id.error == AccessDenied(Other) && forall x :: !PublishedHead(l.log, r, x)
  {
    hide MaterialCoherent, LogCoherent, RunsCoherent, Tables, HeadIsTail, PublishedHead;
    HeadTables(cfg, l, r, ReleaseStatus);
    HeadIsTailOf(cfg, l, r, ReleaseStatus);
    forall x ensures PublishedHead(l.log, r, x) <==>
                     db.observed.heads[r].status == Some(x) && PublishedRow(db.observed, x)
    {
      PublishedRows(cfg, l, r, x);
    }
    var head := db.observed.heads[r].status;
    if !HeadIsTail(db.observed, r, ReleaseStatus, head) { return Err(IntegrityFailure); }
    if head.None? || !PublishedRow(db.observed, head.value) { return Err(AccessDenied(Other)); }
    id := Ok(head.value);
  }

  predicate FetchRowAdmits(t: ObservationTables, heads: HeadsRow, m: RunManifest) {
    && heads.fetch == Some(m.fetchId) && m.fetchId in t.fetches
    && t.fetches[m.fetchId].result == Passed && t.fetches[m.fetchId].receiptHash == Some(m.receiptHash)
  }

  predicate AdmissionRowAdmits(t: ObservationTables, heads: HeadsRow, m: RunManifest) {
    && heads.admission == Some(m.admissionId) && m.admissionId in t.admissions
    && t.admissions[m.admissionId].statusId == m.statusId && t.admissions[m.admissionId].admission == Authorized
  }

  predicate TimesBefore(t: ObservationTables, id: Id, created: Time) {
    id in t.observations && t.observations[id].observedAt <= created && t.observations[id].persistedAt <= created
  }

  lemma RootRows(cfg: Config, l: Ledger, m: RunManifest)
    requires LogCoherent(l.refs, l.receipts, l.log) && m.Root() in l.refs
    ensures m.Root() in Tables(cfg, l).observed.heads
    ensures var t := Tables(cfg, l).observed;
            var heads := t.heads[m.Root()];
            RootAdmitted(l, m) <==>
              && FetchRowAdmits(t, heads, m) && heads.status == Some(m.statusId) && PublishedRow(t, m.statusId)
              && AdmissionRowAdmits(t, heads, m)
              && TimesBefore(t, m.fetchId, m.createdAt) && TimesBefore(t, m.statusId, m.createdAt)
              && TimesBefore(t, m.admissionId, m.createdAt)
  {
    hide LogCoherent, Tables, Head;
    var r := m.Root();
    HeadTables(cfg, l, r, ArtifactFetch);
    HeadTables(cfg, l, r, ReleaseStatus);
    HeadTables(cfg, l, r, ReleaseAdmission);
    if Head(l.log, r, ArtifactFetch).Some? { HeadSubtype(cfg, l, r, ArtifactFetch); }
    if Head(l.log, r, ReleaseStatus).Some? { HeadSubtype(cfg, l, r, ReleaseStatus); }
    if Head(l.log, r, ReleaseAdmission).Some? { HeadSubtype(cfg, l, r, ReleaseAdmission); }
  }

  /** The fetch, status and admission heads of the root admit the manifest. */
  method AdmitRoot(cfg: Config, db: Database, m: RunManifest, ghost l: Ledger) returns (e: Option<StoreError>)
    requires Coherent(cfg, l) && db == Tables(cfg, l) && m.Root() in l.refs
    ensures e.None? <==> RootAdmitted(l, m)
    ensures e.Some? ==> e.value == AccessDenied(Other)
  {
    hide MaterialCoherent, LogCoherent, RunsCoherent, Tables, HeadIsTail, PublishedHead, RootAdmitted,
         ReleaseChainsVerify, FetchRowAdmits, AdmissionRowAdmits, TimesBefore, HeadId;
    var r := m.Root();
    ReleaseChainsVerified(cfg, l, r);
    var chains := VerifyReleaseChains(cfg.sha, db, r);
    if !chains { return Some(IntegrityFailure); }
    RootRows(cfg, l, m);
    HeadTables(cfg, l, r, ArtifactFetch);
    HeadTables(cfg, l, r, ReleaseAdmission);
    HeadIsTailOf(cfg, l, r, ArtifactFetch);
    HeadIsTailOf(cfg, l, r, ReleaseAdmission);
    var heads := db.observed.heads[r];
    if !HeadIsTail(db.observed, r, ArtifactFetch, heads.fetch) { return Some(IntegrityFailure); }
    if !HeadIsTail(db.observed, r, ReleaseAdmission, heads.admission) { return Some(IntegrityFailure); }
    if !FetchRowAdmits(db.observed, heads, m) { return Some(AccessDenied(Other)); }
    PublishedRows(cfg, l, r, m.statusId);
    var status := RequirePublished(cfg, db, r, l);
    if status.Err? { return Some(status.error); }
    PublishedRows(cfg, l, r, status.value);
    if status.value != m.statusId { return Some(AccessDenied(Other)); }
    if !AdmissionRowAdmits(db.observed, heads, m) { return Some(AccessDenied(Other)); }
    if !TimesBefore(db.observed, m.fetchId, m.createdAt) || !TimesBefore(db.observed, m.statusId, m.createdAt)
       || !TimesBefore(db.observed, m.admissionId, m.createdAt)
    {
      return Some(AccessDenied(Other));
    }
    e := None;
  }

  /* ---- The status confirmation ---- */

  method IndexItems(items: seq<ConfirmationItem>) returns (index: map<Id, ConfirmationItem>)
    ensures index == ItemIndex(items)
  {
    index := map[];
    for i := 0 to |items|
      invariant index == ItemIndex(items[..i])
    {
      assert items[..i + 1][..i] == items[..i];
      index := index[items[i].Id() := items[i]];
    }
    assert items[..|items|] == items;
  }

  /** With distinct releases the index holds every item, under its release. */
  lemma {:induction false} ItemIndexExact(items: seq<ConfirmationItem>)
    requires forall i, j :: 0 <= i < j < |items| ==> items[i].Id() != items[j].Id()
    ensures ItemIndex(items).Keys == ItemIds(items)
    ensures forall i :: 0 <= i < |items| ==> ItemIndex(items)[items[i].Id()] == items[i]
    decreases |items|
  {
    if items != [] {
      var n := |items| - 1;
      var front := items[..n];
      ItemIndexExact(front);
      forall x ensures x in ItemIds(items) <==> x in ItemIds(front) || x == items[n].Id() {
        if x in ItemIds(items) {
          var i := ItemOf(items, x);
          if i < n { assert front[i].Id() == x; }
        }
        if x in ItemIds(front) {
          var i := ItemOf(front, x);
          assert items[i].Id() == x;
        }
        assert items[n].Id() in ItemIds(items);
      }
      forall i | 0 <= i < |items| ensures ItemIndex(items)[items[i].Id()] == items[i] {
        if i < n { assert front[i] == items[i]; }
      }
    }
  }

  lemma NormalItemsDistinct(items: seq<ConfirmationItem>)
    requires ItemsNormal(items)
    ensures forall i, j :: 0 <= i < j < |items| ==> items[i].Id() != items[j].Id()
  {
    forall i, j | 0 <= i < j < |items| ensures items[i].Id() != items[j].Id() {
      LessIrreflexive(items[i].Id());
    }
  }

  predicate EventMatches(o: Observation, item: ConfirmationItem) {
    && o.StatusObservation? && o.result == Passed && o.status == Some(Published)
    && o.eventId == Some(item.eventId) && o.eventHash == Some(item.eventHash) && o.sequence == Some(item.sequence)
  }

  lemma {:induction false} HeadPassed(refs: Refs, receipts: Receipts, log: Log, r: Id)
    requires LogCoherent(refs, receipts, log) && Head(log, r, ReleaseStatus).Some?
    requires PublishedStatus(Head(log, r, ReleaseStatus).value.observation)
    ensures Head(log, r, ReleaseStatus).value.observation.recordedAt.Some?
  {
    var i := HeadIsLastMatch(log, r, ReleaseStatus);
    assert CoherentAt(refs, receipts, log, i);
  }

  /** Judges one item against the release it names and the local clock. */
  method CheckItem(cfg: Config, db: Database, item: ConfirmationItem, policy: Policy, now: Time, ghost l: Ledger)
    returns (r: Result<Id, StoreError>)
    requires Coherent(cfg, l) && db == Tables(cfg, l) && policy.maxSkew >= 0 && item.checkedAt <= now
    ensures r.Ok? <==> ItemCurrent(l, item, policy, now)
    ensures r.Ok? ==> HeadId(l.log, item.Id(), ReleaseStatus) == Some(r.value)
    ensures r.Err? ==> r.error.AccessDenied?
    ensures r.Err? ==> !ClockErrors(r.error)
    ensures r == Err(AccessDenied(SnapshotAheadOfClock)) ==> item.snapshotAt > item.checkedAt + policy.maxSkew
  {
    hide MaterialCoherent, LogCoherent, RunsCoherent, Tables, ReleaseChainsVerify, ObservationVerifies, Head;
    var x := item.Id();
    TableKeys(cfg, l);
    if x !in db.content.identities || db.content.identities[x] != item.inputRef { return Err(AccessDenied(Other)); }
    if item.checkedAt > now + policy.maxSkew { return Err(AccessDenied(CheckAheadOfClock)); }
    if item.snapshotAt > now + policy.maxSkew { return Err(AccessDenied(SnapshotAheadOfClock)); }
    if item.snapshotAt > item.checkedAt + policy.maxSkew { return Err(AccessDenied(SnapshotBeyondSkew)); }
    if now - item.snapshotAt > policy.maxAge + policy.maxSkew { return Err(AccessDenied(Other)); }
    ReleaseChainsVerified(cfg, l, x);
    var chains := VerifyReleaseChains(cfg.sha, db, x);
    if !chains { return Err(IntegrityFailure); }
    HeadTables(cfg, l, x, ReleaseStatus);
    var current := RequirePublished(cfg, db, x, l);
    if current.Err? { return Err(current.error); }
    if db.observed.heads[x].status != Some(item.statusId) || current.value != item.statusId { return Err(AccessDenied(Other)); }
    ObservationAccepted(cfg, l, item.statusId);
    if !ObservationVerifies(cfg.sha, db, item.statusId) { return Err(IntegrityFailure); }
    var o := db.observed.observations[item.statusId].document;
    if !EventMatches(o, item) { return Err(AccessDenied(Other)); }
    HeadPassed(l.refs, l.receipts, l.log, x);
    if o.recordedAt.value > item.snapshotAt + policy.maxSkew { return Err(AccessDenied(Other)); }
    r := Ok(current.value);
  }

  /** The statuses the items name, release by release. */
  ghost predicate StatusesFor(l: Ledger, done: set<Id>, statuses: map<Id, Id>) {
    && statuses.Keys == done
    && forall x :: x in statuses ==> HeadId(l.log, x, ReleaseStatus) == Some(statuses[x])
  }

  /** Validates the confirmation against the run, its closure and the clock. */
  method ValidateConfirmation(cfg: Config, db: Database, m: RunManifest, c: Confirmation, k: Digest, now: Time, ghost l: Ledger)
    returns (r: Result<map<Id, Id>, StoreError>)
    requires ValidConfig(cfg) && Coherent(cfg, l) && db == Tables(cfg, l) && ValidConfirmation(cfg.sha, c)
    requires m.receiptHash in l.receipts && k == ClosureHashOf(l, m) && k in l.closures && m.createdAt <= now
    ensures r.Ok? <==> ConfirmationCurrent(cfg, l, m, c, now)
    ensures r.Ok? ==> r.value == PinnedStatuses(l.log, l.closures[k].closure.releases)
    ensures r.Ok? ==> r.value.Keys == NodeIds(l.closures[k].closure.releases)
    ensures r.Err? ==> r.error.AccessDenied? && !ClockErrors(r.error)
  {
    hide MaterialCoherent, LogCoherent, RunsCoherent, Tables, ItemCurrent, ConfirmationSyntax, NodeIds, ItemIds,
         ItemIndex, ReleaseIndex, PinnedStatuses, StatusesFor, SortedList;
    if c.runId != m.runId { return Err(AccessDenied(Other)); }
    if c.rootReleaseId != m.Root() || c.receiptHash != m.receiptHash || c.closureHash != k { return Err(AccessDenied(Other)); }
    if (c.authorityId, c.authorityContract) !in cfg.policies { return Err(AccessDenied(Other)); }
    var policy := cfg.policies[(c.authorityId, c.authorityContract)];
    if c.confirmedAt > m.createdAt { return Err(AccessDenied(Other)); }
    if c.confirmedAt > now + policy.maxSkew { return Err(AccessDenied(ConfirmationAheadOfClock)); }
    if c.expiresAt <= now { return Err(AccessDenied(Other)); }
    var items := IndexItems(c.items);
    NormalItemsDistinct(c.items);
    ItemIndexExact(c.items);
    ClosureTables(cfg, l, k);
    ReleaseKeys(cfg, l, k);
    var releases := Group(db.documents.closureReleases, k);
    if items.Keys != releases.Keys { return Err(AccessDenied(Other)); }
    ItemsChecked(cfg.sha, c, now);
    r := CheckItems(cfg, db, c.items, items, policy, now, l);
    if r.Ok? { StatusesPinned(l, l.closures[k].closure.releases, r.value); }
  }

  lemma ItemsChecked(sha: Sha, c: Confirmation, now: Time)
    requires ValidConfirmation(sha, c) && c.confirmedAt <= now
    ensures forall i :: 0 <= i < |c.items| ==> c.items[i].checkedAt <= now
  {
    hide ConfirmationSyntax, ItemsNormal;
  }

  /** Judges every item, in the order of the release identifiers. */
  method CheckItems(cfg: Config, db: Database, items: seq<ConfirmationItem>, index: map<Id, ConfirmationItem>, policy: Policy,
                    now: Time, ghost l: Ledger) returns (r: Result<map<Id, Id>, StoreError>)
    requires Coherent(cfg, l) && db == Tables(cfg, l) && policy.maxSkew >= 0
    requires forall i, j :: 0 <= i < j < |items| ==> items[i].Id() != items[j].Id()
    requires index == ItemIndex(items) && forall i :: 0 <= i < |items| ==> items[i].checkedAt <= now
    ensures r.Ok? <==> forall i :: 0 <= i < |items| ==> ItemCurrent(l, items[i], policy, now)
    ensures r.Ok? ==> StatusesFor(l, ItemIds(items), r.value)
    ensures r.Err? ==> r.error.AccessDenied? && !ClockErrors(r.error)
  {
    hide Coherent, Tables, ItemCurrent, ItemIds, ItemIndex, StatusesFor, SortedList, HeadId, Elements, StrictlySorted;
    ItemIndexExact(items);
    var ids := SortedList(index.Keys);
    SortedMembers(ids, index.Keys);
    var statuses: map<Id, Id> := map[];
    EmptyStatuses(l);
    for i := 0 to |ids|
      invariant forall j :: 0 <= j < i ==> ItemCurrent(l, index[ids[j]], policy, now)
      invariant StatusesFor(l, Elements(ids[..i]), statuses)
    {
      var n := IndexedItem(items, ids[i]);
      var checked := CheckItem(cfg, db, index[ids[i]], policy, now, l);
      if checked.Err? { return Err(checked.error); }
      StatusAdded(l, ids, i, statuses, checked.value);
      statuses := statuses[ids[i] := checked.value];
    }
    assert ids[..|ids|] == ids;
    AllItemsCurrent(l, items, ids, policy, now);
    r := Ok(statuses);
  }

  lemma SortedMembers(ids: seq<Id>, s: set<Id>)
    requires Elements(ids) == s
    ensures forall i :: 0 <= i < |ids| ==> ids[i] in s
  {
  }

  lemma EmptyStatuses(l: Ledger)
    ensures StatusesFor(l, {}, map[])
    ensures forall ids: seq<Id> :: Elements(ids[..0]) == {}
  {
  }

  lemma IndexedItem(items: seq<ConfirmationItem>, x: Id) returns (n: nat)
    requires forall i, j :: 0 <= i < j < |items| ==> items[i].Id() != items[j].Id()
    requires x in ItemIndex(items)
    ensures n < |items| && items[n].Id() == x && ItemIndex(items)[x] == items[n]
  {
    ItemIndexExact(items);
    n := ItemOf(items, x);
  }

  lemma StatusAdded(l: Ledger, ids: seq<Id>, i: nat, statuses: map<Id, Id>, id: Id)
    requires i < |ids| && StatusesFor(l, Elements(ids[..i]), statuses)
    requires HeadId(l.log, ids[i], ReleaseStatus) == Some(id)
    ensures StatusesFor(l, Elements(ids[..i + 1]), statuses[ids[i] := id])
  {
    hide HeadId;
    assert ids[..i + 1] == ids[..i] + [ids[i]];
    assert Elements(ids[..i + 1]) == Elements(ids[..i]) + {ids[i]};
  }

  lemma {:induction false} AllItemsCurrent(l: Ledger, items: seq<ConfirmationItem>, ids: seq<Id>, policy: Policy, now: Time)
    requires forall i, j :: 0 <= i < j < |items| ==> items[i].Id() != items[j].Id()
    requires Elements(ids) == ItemIds(items) == ItemIndex(items).Keys
    requires forall j :: 0 <= j < |ids| ==> ItemCurrent(l, ItemIndex(items)[ids[j]], policy, now)
    ensures forall i :: 0 <= i < |items| ==> ItemCurrent(l, items[i], policy, now)
  {
    hide ItemCurrent, ItemIndex;
    ItemIndexExact(items);
    forall i | 0 <= i < |items| ensures ItemCurrent(l, items[i], policy, now) {
      assert items[i].Id() in ItemIds(items);
      var j :| 0 <= j < |ids| && ids[j] == items[i].Id();
    }
  }

  lemma StatusesPinned(l: Ledger, nodes: seq<Node>, statuses: map<Id, Id>)
    requires StatusesFor(l, NodeIds(nodes), statuses)
    ensures statuses == PinnedStatuses(l.log, nodes) && statuses.Keys == NodeIds(nodes)
  {
    hide HeadId, NodeIds;
  }

  /* ---- Material persisted before the manifest ---- */

  method StatusTimesBefore(t: ObservationTables, statuses: map<Id, Id>, created: Time) returns (ok: bool)
    ensures ok <==> forall x :: x in statuses ==> TimesBefore(t, statuses[x], created)
  {
    var pending := statuses.Keys;
    while pending != {}
      invariant pending <= statuses.Keys
      invariant forall x :: x in statuses && x !in pending ==> TimesBefore(t, statuses[x], created)
      decreases pending
    {
      var x :| x in pending;
      if !TimesBefore(t, statuses[x], created) { return false; }
      pending := pending - {x};
    }
    ok := true;
  }

  /** A row that is missing is left out, as in the join it stands for. */
  method ManifestTimesBefore(t: ContentTables, releases: map<Id, ReleaseRow>, created: Time) returns (ok: bool)
    ensures ok <==> forall x :: x in releases && x in t.manifests ==> t.manifests[x].persistedAt <= created
  {
    var pending := releases.Keys;
    while pending != {}
      invariant pending <= releases.Keys
      invariant forall x :: x in releases && x in t.manifests && x !in pending ==> t.manifests[x].persistedAt <= created
      decreases pending
    {
      var x :| x in pending;
      if x in t.manifests && created < t.manifests[x].persistedAt { return false; }
      pending := pending - {x};
    }
    ok := true;
  }

  method ArtifactTimesBefore(t: ContentTables, artifacts: map<(Id, Id), Artifact>, created: Time) returns (ok: bool)
    ensures ok <==> forall x :: x in artifacts && x in t.artifacts ==> t.artifacts[x].persistedAt <= created
  {
    var pending := artifacts.Keys;
    while pending != {}
      invariant pending <= artifacts.Keys
      invariant forall x :: x in artifacts && x in t.artifacts && x !in pending ==> t.artifacts[x].persistedAt <= created
      decreases pending
    {
      var x :| x in pending;
      if x in t.artifacts && created < t.artifacts[x].persistedAt { return false; }
      pending := pending - {x};
    }
    ok := true;
  }

  lemma StatusTimesExact(cfg: Config, l: Ledger, x: Id, id: Id, created: Time)
    requires LogCoherent(l.refs, l.receipts, l.log) && x in l.refs && HeadId(l.log, x, ReleaseStatus) == Some(id)
    ensures TimesBefore(Tables(cfg, l).observed, id, created) <==> EntryBefore(l.log, x, ReleaseStatus, created)
  {
    hide LogCoherent, Tables;
    HeadTables(cfg, l, x, ReleaseStatus);
  }

  ghost predicate MaterialRows(l: Ledger, nodes: seq<Node>, created: Time) {
    && (forall x :: x in ReleaseIndex(nodes) && x in l.manifests ==> l.manifests[x].persistedAt <= created)
    && (forall x :: x in ArtifactIndex(nodes) && x in l.artifacts ==> l.artifacts[x].persistedAt <= created)
  }

  lemma MaterialExact(cfg: Config, l: Ledger, k: Digest, statuses: map<Id, Id>, created: Time)
    requires Coherent(cfg, l) && k in l.closures
    requires StatusesFor(l, NodeIds(l.closures[k].closure.releases), statuses)
    ensures MaterialBefore(l, l.closures[k].closure, created) <==>
              && (forall x :: x in statuses ==> TimesBefore(Tables(cfg, l).observed, statuses[x], created))
              && MaterialRows(l, l.closures[k].closure.releases, created)
  {
    hide LogCoherent, RunsCoherent, Tables, HeadId, TimesBefore, EntryBefore, ReceiptCoherent, ValidClosure,
         ReleaseIndex, ArtifactIndex, NodesProper;
    var c := l.closures[k].closure;
    var nodes := c.releases;
    assert ClosureCoherent(cfg, l, k, c);
    ClosureNodesProper(cfg.sha, c);
    ReleaseKeys(cfg, l, k);
    forall x | x in statuses
      ensures TimesBefore(Tables(cfg, l).observed, statuses[x], created) <==> EntryBefore(l.log, x, ReleaseStatus, created)
    {
      var i := NodeOf(nodes, x);
      assert NodeStored(l, nodes[i]);
      StatusTimesExact(cfg, l, x, statuses[x], created);
    }
    if MaterialBefore(l, c, created) {
      BeforeGivesRows(l, nodes, created);
      forall x | x in statuses ensures EntryBefore(l.log, x, ReleaseStatus, created) {
        var i := NodeOf(nodes, x);
      }
    }
    if MaterialRows(l, nodes, created) && forall x :: x in statuses ==> EntryBefore(l.log, x, ReleaseStatus, created) {
      forall i | 0 <= i < |nodes|
        ensures && EntryBefore(l.log, nodes[i].Id(), ReleaseStatus, created)
                && NodeTimely(l, nodes[i], created)
      {
        assert nodes[i].Id() in NodeIds(nodes);
        RowsGiveNode(l, nodes, i, created);
      }
    }
  }

  ghost predicate NodeTimely(l: Ledger, n: Node, created: Time) {
    && n.Id() in l.manifests && l.manifests[n.Id()].persistedAt <= created
    && forall j :: 0 <= j < |n.artifacts| ==>
         var key := (n.Id(), n.artifacts[j].artifactId);
         key in l.artifacts && l.artifacts[key].persistedAt <= created
  }

  lemma {:induction false} BeforeGivesRows(l: Ledger, nodes: seq<Node>, created: Time)
    requires NodesProper(nodes) && ReleaseIndex(nodes).Keys == NodeIds(nodes)
    requires forall i :: 0 <= i < |nodes| ==> NodeTimely(l, nodes[i], created)
    ensures MaterialRows(l, nodes, created)
  {
    hide ReleaseIndex, ArtifactIndex, NodesProper;
    forall x | x in ReleaseIndex(nodes) && x in l.manifests ensures l.manifests[x].persistedAt <= created {
      var i := NodeOf(nodes, x);
      assert NodeTimely(l, nodes[i], created);
    }
    forall x | x in ArtifactIndex(nodes) && x in l.artifacts ensures l.artifacts[x].persistedAt <= created {
      var i, j := IndexedArtifact(nodes, x);
      assert NodeTimely(l, nodes[i], created);
    }
  }

  lemma {:induction false} RowsGiveNode(l: Ledger, nodes: seq<Node>, i: nat, created: Time)
    requires NodesProper(nodes) && ReleaseIndex(nodes).Keys == NodeIds(nodes) && i < |nodes| && NodeStored(l, nodes[i])
    requires MaterialRows(l, nodes, created)
    ensures NodeTimely(l, nodes[i], created)
  {
    hide ReleaseIndex, ArtifactIndex, NodesProper;
    assert nodes[i].Id() in NodeIds(nodes);
    forall j | 0 <= j < |nodes[i].artifacts|
      ensures var key := (nodes[i].Id(), nodes[i].artifacts[j].artifactId);
              key in l.artifacts && l.artifacts[key].persistedAt <= created
    {
      assert ArtifactStored(l, nodes[i].Id(), nodes[i].artifacts[j]);
      ArtifactIndexed(nodes, i, j);
    }
  }

  /** Nothing the run retains was persisted after its manifest was made. */
  method CheckMaterial(cfg: Config, db: Database, k: Digest, statuses: map<Id, Id>, created: Time, ghost l: Ledger)
    returns (ok: bool)
    requires Coherent(cfg, l) && db == Tables(cfg, l) && k in l.closures
    requires StatusesFor(l, NodeIds(l.closures[k].closure.releases), statuses)
    ensures ok <==> MaterialBefore(l, l.closures[k].closure, created)
  {
    hide Coherent, Tables, StatusesFor, MaterialBefore, ReleaseIndex, ArtifactIndex, NodeIds, TimesBefore;
    MaterialExact(cfg, l, k, statuses, created);
    ClosureTables(cfg, l, k);
    var observed := StatusTimesBefore(db.observed, statuses, created);
    if !observed { return false; }
    var manifests := ManifestTimesBefore(db.content, Group(db.documents.closureReleases, k), created);
    var artifacts := ArtifactTimesBefore(db.content, Group(db.documents.closureArtifacts, k), created);
    ok := manifests && artifacts;
  }

  /* ---- Persisting the confirmation ---- */

  predicate Conflicts(row: ConfirmationRow, h: Digest, c: Confirmation) {
    h == c.confirmationHash || row.confirmationId == c.confirmationId || row.runId == c.runId
  }

  /** Any confirmation with the same hash, identifier or run. */
  method FindConflict(t: RunTables, c: Confirmation) returns (h: Option<Digest>)
    ensures h.Some? ==> h.value in t.confirmations && Conflicts(t.confirmations[h.value], h.value, c)
    ensures h.None? ==> forall x :: x in t.confirmations ==> !Conflicts(t.confirmations[x], x, c)
  {
    var pending := t.confirmations.Keys;
    while pending != {}
      invariant pending <= t.confirmations.Keys
      invariant forall x :: x in t.confirmations && x !in pending ==> !Conflicts(t.confirmations[x], x, c)
      decreases pending
    {
      var x :| x in pending;
      if Conflicts(t.confirmations[x], x, c) { return Some(x); }
      pending := pending - {x};
    }
    h := None;
  }

  lemma FreshExact(cfg: Config, l: Ledger, c: Confirmation)
    ensures ConfirmationFresh(l, c) <==>
            forall x :: x in Tables(cfg, l).runs.confirmations ==>
              !Conflicts(Tables(cfg, l).runs.confirmations[x], x, c)
  {
    hide Tables;
    TableKeys(cfg, l);
    forall x | x in l.confirmations
      ensures Conflicts(Tables(cfg, l).runs.confirmations[x], x, c) <==>
              || x == c.confirmationHash
              || l.confirmations[x].confirmation.confirmationId == c.confirmationId
              || l.confirmations[x].confirmation.runId == c.runId
    {
      ConfirmationTables(cfg, l, x);
    }
  }

  function WithConfirmation(sha: Sha, t: RunTables, c: Confirmation, now: Time): RunTables {
    t.(confirmations := t.confirmations[c.confirmationHash := ConfirmationRowOf(sha, ConfirmationEntry(c, now))],
       confirmationItems := t.confirmationItems[c.confirmationHash := ItemIndex(c.items)])
  }

  /** A stored confirmation belongs to a run that is pinned. */
  lemma StoredConfirmationPinned(cfg: Config, l: Ledger, h: Digest)
    requires RunsCoherent(cfg, l) && h in l.confirmations
    ensures l.confirmations[h].confirmation.runId in l.pins
  {
    hide PinCoherent;
    assert ConfirmationCoherent(cfg, l, h, l.confirmations[h].confirmation);
  }

  /**
   Inserts the confirmation and its items. For a run that is not pinned yet an
   existing row can only be a conflict, also when it has the same hash.
   */
  method PersistConfirmation(cfg: Config, db: Database, c: Confirmation, now: Time, ghost l: Ledger)
    returns (r: Result<RunTables, StoreError>)
    requires RunsCoherent(cfg, l) && db == Tables(cfg, l) && ValidConfirmation(cfg.sha, c) && c.runId !in l.pins
    ensures r.Ok? <==> ConfirmationFresh(l, c)
    ensures r.Ok? ==> r.value == WithConfirmation(cfg.sha, db.runs, c, now)
    ensures r.Err? ==> r.error == MappingConflict
  {
    hide RunsCoherent, Tables, ValidConfirmation, ConfirmationVerifies, ItemIndex, ConfirmationFresh;
    FreshExact(cfg, l, c);
    TableKeys(cfg, l);
    var conflict := FindConflict(db.runs, c);
    if conflict.Some? {
      var h := conflict.value;
      if h != c.confirmationHash { return Err(MappingConflict); }
      ConfirmationTables(cfg, l, h);
      ConfirmationAccepted(cfg, l, h);
      StoredConfirmationPinned(cfg, l, h);
      if db.runs.confirmations[h].document != c { return Err(MappingConflict); }
      return if ConfirmationVerifies(cfg.sha, db, h) then Ok(db.runs) else Err(IntegrityFailure);
    }
    var items := IndexItems(c.items);
    var row := ConfirmationRowOf(cfg.sha, ConfirmationEntry(c, now));
    var runs := db.runs.(confirmations := db.runs.confirmations[c.confirmationHash := row],
                         confirmationItems := db.runs.confirmationItems[c.confirmationHash := items]);
    InsertedConfirmationVerifies(cfg.sha, db, c, now);
    if !ConfirmationVerifies(cfg.sha, db.(runs := runs), c.confirmationHash) { return Err(IntegrityFailure); }
    r := Ok(runs);
  }

  lemma InsertedConfirmationVerifies(sha: Sha, db: Database, c: Confirmation, now: Time)
    requires ValidConfirmation(sha, c)
    ensures ConfirmationVerifies(sha, db.(runs := WithConfirmation(sha, db.runs, c, now)), c.confirmationHash)
  {
    hide ValidConfirmation, ItemIndex;
  }

  /* ---- Inserting the pin ---- */

  method PinReleaseRows(releases: map<Id, ReleaseRow>, statuses: map<Id, Id>) returns (rows: map<Id, PinReleaseRow>)
    requires releases.Keys == statuses.Keys
    ensures rows == PinReleaseIndex(releases, statuses)
  {
    rows := map[];
    var pending := releases.Keys;
    while pending != {}
      invariant pending <= releases.Keys
      invariant rows.Keys == releases.Keys - pending
      invariant forall x :: x in rows ==> rows[x] == PinReleaseRow(releases[x].manifestHash, statuses[x])
      decreases pending
    {
      var x :| x in pending;
      rows := rows[x := PinReleaseRow(releases[x].manifestHash, statuses[x])];
      pending := pending - {x};
    }
  }

  method PinArtifactRows(artifacts: map<(Id, Id), Artifact>) returns (rows: map<(Id, Id), PinArtifactRow>)
    ensures rows == PinArtifactIndex(artifacts)
  {
    rows := map[];
    var pending := artifacts.Keys;
    while pending != {}
      invariant pending <= artifacts.Keys
      invariant rows.Keys == artifacts.Keys - pending
      invariant forall x :: x in rows ==> rows[x] == PinArtifactRow(artifacts[x].hash, artifacts[x].sizeBytes)
      decreases pending
    {
      var x :| x in pending;
      rows := rows[x := PinArtifactRow(artifacts[x].hash, artifacts[x].sizeBytes)];
      pending := pending - {x};
    }
  }

  function InsertPin(sha: Sha, t: RunTables, m: RunManifest, c: Confirmation, k: Digest, releases: map<Id, PinReleaseRow>,
                     artifacts: map<(Id, Id), PinArtifactRow>, now: Time): RunTables {
    var row := PinRow(m.Root(), m.receiptHash, k, m.fetchId, m.statusId, m.admissionId, m, sha(ManifestText(m)), now);
    t.(pins := t.pins[m.runId := row],
       pinReleases := t.pinReleases[m.runId := releases],
       pinArtifacts := t.pinArtifacts[m.runId := artifacts],
       bindings := t.bindings[m.runId := c.confirmationHash])
  }

  ghost predicate PinAdded(l: Ledger, l': Ledger, run: Id, p: PinEntry) {
    && run !in l.pins && l'.pins == l.pins[run := p] && l'.closures == l.closures && p.binding.Some?
  }

  lemma PinRowsAfter(sha: Sha, l: Ledger, l': Ledger, run: Id, p: PinEntry)
    requires PinAdded(l, l', run, p)
    ensures PinTable(sha, l') == PinTable(sha, l)[run := PinRowOf(sha, p)]
  {
    hide PinRowOf, PinReleasesOf, PinArtifactsOf;
  }

  lemma PinReleasesAfter(sha: Sha, l: Ledger, l': Ledger, run: Id, p: PinEntry)
    requires PinAdded(l, l', run, p)
    ensures PinReleaseTable(l') == PinReleaseTable(l)[run := PinReleasesOf(l, p)]
  {
    hide PinRowOf, PinReleasesOf, PinArtifactsOf;
    forall x | x in l'.pins ensures PinReleasesOf(l', l'.pins[x]) == PinReleasesOf(l, l'.pins[x]) {
      SamePinViews(l, l', l'.pins[x]);
    }
  }

  lemma PinArtifactsAfter(sha: Sha, l: Ledger, l': Ledger, run: Id, p: PinEntry)
    requires PinAdded(l, l', run, p)
    ensures PinArtifactTable(l') == PinArtifactTable(l)[run := PinArtifactsOf(l, p)]
  {
    hide PinRowOf, PinReleasesOf, PinArtifactsOf;
    forall x | x in l'.pins ensures PinArtifactsOf(l', l'.pins[x]) == PinArtifactsOf(l, l'.pins[x]) {
      SamePinViews(l, l', l'.pins[x]);
    }
  }

  lemma BindingsAfter(pins: map<Id, PinEntry>, run: Id, p: PinEntry)
    requires run !in pins && p.binding.Some?
    ensures BindingTable(pins[run := p]) == BindingTable(pins)[run := p.binding.value]
    ensures QuarantineTable(pins[run := p]) == QuarantineTable(pins)
  {
  }

  lemma ConfirmationsAfter(sha: Sha, confirmations: map<Digest, ConfirmationEntry>, h: Digest, e: ConfirmationEntry)
    ensures ConfirmationTable(sha, confirmations[h := e]) == ConfirmationTable(sha, confirmations)[h := ConfirmationRowOf(sha, e)]
    ensures ItemTable(confirmations[h := e]) == ItemTable(confirmations)[h := ItemIndex(e.confirmation.items)]
  {
    hide ConfirmationRowOf, ItemIndex;
  }

  lemma PinnedRuns(sha: Sha, l: Ledger, m: RunManifest, c: Confirmation, now: Time)
    requires m.runId !in l.pins && m.receiptHash in l.receipts && ClosureHashOf(l, m) in l.closures
    ensures var p := NewPin(l, m, c, now);
            var k := ClosureHashOf(l, m);
            RunsOf(sha, WithPin(l, m, c, p, now)) ==
            InsertPin(sha, WithConfirmation(sha, RunsOf(sha, l), c, now), m, c, k, PinReleasesOf(l, p), PinArtifactsOf(l, p), now)
  {
    var p := NewPin(l, m, c, now);
    var l' := WithPin(l, m, c, p, now);
    hide PinReleasesOf, PinArtifactsOf, PinnedStatuses, PinTable, PinReleaseTable, PinArtifactTable, ConfirmationTable,
         ItemTable, BindingTable, QuarantineTable, ItemIndex;
    PinRowsAfter(sha, l, l', m.runId, p);
    PinReleasesAfter(sha, l, l', m.runId, p);
    PinArtifactsAfter(sha, l, l', m.runId, p);
    BindingsAfter(l.pins, m.runId, p);
    ConfirmationsAfter(sha, l.confirmations, c.confirmationHash, ConfirmationEntry(c, now));
  }

  /** The tables after a new pin commits. */
  lemma PinnedTables(cfg: Config, l: Ledger, m: RunManifest, c: Confirmation, now: Time)
    requires m.runId !in l.pins && m.receiptHash in l.receipts && ClosureHashOf(l, m) in l.closures
    ensures var db := Tables(cfg, l);
            var p := NewPin(l, m, c, now);
            var k := ClosureHashOf(l, m);
            Tables(cfg, WithPin(l, m, c, p, now)) ==
            db.(runs := InsertPin(cfg.sha, WithConfirmation(cfg.sha, db.runs, c, now), m, c, k,
                                  PinReleasesOf(l, p), PinArtifactsOf(l, p), now))
  {
    hide RunsOf, InsertPin, WithConfirmation, NewPin, PinReleasesOf, PinArtifactsOf, ObservedOf, ReleaseIndex,
         ArtifactIndex, DependencyIndex, ReceiptIndex, ReceiptRowOf, ClosureRowOf;
    PinnedRuns(cfg.sha, l, m, c, now);
    var l' := WithPin(l, m, c, NewPin(l, m, c, now), now);
    assert DocumentsOf(cfg.sha, l') == DocumentsOf(cfg.sha, l);
  }

  lemma NewPinViews(cfg: Config, l: Ledger, m: RunManifest, c: Confirmation, now: Time, statuses: map<Id, Id>)
    requires m.receiptHash in l.receipts && ClosureHashOf(l, m) in l.closures
    requires statuses == PinnedStatuses(l.log, l.closures[ClosureHashOf(l, m)].closure.releases)
    ensures var p := NewPin(l, m, c, now);
            var nodes := l.closures[ClosureHashOf(l, m)].closure.releases;
            && PinReleasesOf(l, p) == PinReleaseIndex(ReleaseIndex(nodes), statuses)
            && PinArtifactsOf(l, p) == PinArtifactIndex(ArtifactIndex(nodes))
  {
    hide PinReleaseIndex, PinArtifactIndex, ReleaseIndex, ArtifactIndex, PinnedStatuses;
  }

  lemma AcceptedParts(cfg: Config, l: Ledger, files: Files, m: RunManifest, c: Confirmation, k: Digest, now: Time)
    requires ReceiptUsable(l, m, now) && k == ClosureHashOf(l, m)
    ensures NewPinAccepted(cfg, l, files, m, c, now) <==>
              && RootAdmitted(l, m) && ConfirmationCurrent(cfg, l, m, c, now)
              && MaterialBefore(l, l.closures[k].closure, m.createdAt)
              && ClosureFilesVerify(cfg.sha, files, l.closures[k].closure)
              && ConfirmationFresh(l, c)
  {
    hide ReceiptUsable, RootAdmitted, ConfirmationCurrent, MaterialBefore, ClosureFilesVerify, ConfirmationFresh;
  }

  lemma NotClockErrors()
    ensures !ClockErrors(AccessDenied(Other)) && !ClockErrors(IntegrityFailure) && !ClockErrors(MappingConflict)
  {
  }

  /** Every condition a run that is not pinned yet must meet to be admitted. */
  method CheckAdmission(cfg: Config, db: Database, files: Files, m: RunManifest, c: Confirmation, k: Digest, now: Time,
                        ghost l: Ledger) returns (r: Result<(map<Id, Id>, RunTables), StoreError>)
    requires ValidConfig(cfg) && Coherent(cfg, l) && db == Tables(cfg, l) && ValidConfirmation(cfg.sha, c)
    requires m.runId !in l.pins && ReceiptUsable(l, m, now) && k == ClosureHashOf(l, m)
    ensures r.Ok? <==> NewPinAccepted(cfg, l, files, m, c, now)
    ensures r.Ok? ==> r.value.0 == PinnedStatuses(l.log, l.closures[k].closure.releases)
    ensures r.Ok? ==> r.value.0.Keys == NodeIds(l.closures[k].closure.releases)
    ensures r.Ok? ==> r.value.1 == WithConfirmation(cfg.sha, db.runs, c, now)
    ensures r == Err(MappingConflict) ==> !ConfirmationFresh(l, c)
    ensures r.Err? ==> !ClockErrors(r.error)
    ensures r == Err(IntegrityFailure) ==> !ClosureFilesVerify(cfg.sha, files, l.closures[k].closure)
  {
    hide *;
    UsableFacts(cfg, l, m, c, now);
    AcceptedParts(cfg, l, files, m, c, k, now);
    NotClockErrors();
    var root := AdmitRoot(cfg, db, m, l);
    if root.Some? { return Err(root.value); }
    var statuses := ValidateConfirmation(cfg, db, m, c, k, now, l);
    if statuses.Err? { return Err(statuses.error); }
    CurrentFacts(cfg, l, m, c, now, statuses.value);
    var before := CheckMaterial(cfg, db, k, statuses.value, m.createdAt, l);
    if !before { return Err(AccessDenied(Other)); }
    PinObjectsExact(cfg, l, files, k);
    if !PinObjectsVerify(cfg.sha, db, files, k) { return Err(IntegrityFailure); }
    var runs := PersistConfirmation(cfg, db, c, now, l);
    if runs.Err? { return Err(runs.error); }
    r := Ok((statuses.value, runs.value));
  }

  /** Admits a run that is not pinned yet, or leaves the tables as they were. */
  method AdmitRun(cfg: Config, db: Database, files: Files, m: RunManifest, c: Confirmation, k: Digest, now: Time, ghost l: Ledger)
    returns (r: Result<Database, StoreError>)
    requires ValidConfig(cfg) && Coherent(cfg, l) && db == Tables(cfg, l) && ValidConfirmation(cfg.sha, c)
    requires m.runId !in l.pins && ReceiptUsable(l, m, now) && k == ClosureHashOf(l, m)
    ensures r.Ok? <==> NewPinAccepted(cfg, l, files, m, c, now)
    ensures r.Ok? ==> r.value == Tables(cfg, WithPin(l, m, c, NewPin(l, m, c, now), now))
    ensures r == Err(MappingConflict) ==> !ConfirmationFresh(l, c)
    ensures r.Err? ==> !ClockErrors(r.error)
    ensures r == Err(IntegrityFailure) ==> !ClosureFilesVerify(cfg.sha, files, l.closures[k].closure)
  {
    hide Coherent, Tables, ValidConfirmation, NewPinAccepted, ClosureFilesVerify, ReceiptUsable, WithPin, NewPin,
         InsertPin, WithConfirmation, PinReleaseIndex, PinArtifactIndex, ReleaseIndex, ArtifactIndex, PinnedStatuses,
         NodeIds, ClockErrors;
    UsableFacts(cfg, l, m, c, now);
    var checked := CheckAdmission(cfg, db, files, m, c, k, now, l);
    if checked.Err? { return Err(checked.error); }
    var (statuses, runs) := checked.value;
    ClosureTables(cfg, l, k);
    ReleaseKeys(cfg, l, k);
    NewPinViews(cfg, l, m, c, now, statuses);
    PinnedTables(cfg, l, m, c, now);
    var releases := PinReleaseRows(Group(db.documents.closureReleases, k), statuses);
    var artifacts := PinArtifactRows(Group(db.documents.closureArtifacts, k));
    r := Ok(db.(runs := InsertPin(cfg.sha, runs, m, c, k, releases, artifacts, now)));
  }

  lemma UsableFacts(cfg: Config, l: Ledger, m: RunManifest, c: Confirmation, now: Time)
    requires Coherent(cfg, l) && ReceiptUsable(l, m, now)
    ensures MaterialCoherent(cfg, l) && RunsCoherent(cfg, l)
    ensures m.Root() in l.refs && m.receiptHash in l.receipts && ClosureHashOf(l, m) in l.closures && m.createdAt <= now
  {
    hide MaterialCoherent, LogCoherent, RunsCoherent;
  }

  lemma CurrentFacts(cfg: Config, l: Ledger, m: RunManifest, c: Confirmation, now: Time, statuses: map<Id, Id>)
    requires m.receiptHash in l.receipts && ClosureHashOf(l, m) in l.closures && ConfirmationCurrent(cfg, l, m, c, now)
    requires statuses == PinnedStatuses(l.log, l.closures[ClosureHashOf(l, m)].closure.releases)
    requires statuses.Keys == NodeIds(l.closures[ClosureHashOf(l, m)].closure.releases)
    ensures c.runId == m.runId
    ensures StatusesFor(l, NodeIds(l.closures[ClosureHashOf(l, m)].closure.releases), statuses)
  {
    hide HeadId, ItemCurrent, NodeIds, ItemIds;
  }
}
