/**
 The read-only checks a transaction runs on the tables before it writes: the
 chain rebuild, the row selections, and the three observation validators.
 */
module StoreChecks {
  import opened Basics
  import opened Contracts
  import opened StatusEvents
  import opened ObservationLog
  import opened ObservationChain
  import opened RetentionGraph
  import opened RetentionIndex
  import opened Ledgers
  import opened LedgerInvariant
  import opened LedgerRuns
  import opened Databases
  import opened Verifiers

  /** Why a release is not accessible; only the reasons told apart below. */
  datatype AccessReason =
    | Other
    | ConfirmationAheadOfClock
    | CheckAheadOfClock
    | SnapshotAheadOfClock
    | SnapshotBeyondSkew

  datatype StoreError =
    | AccessDenied(reason: AccessReason)
    | MappingConflict
    | IntegrityFailure
    | InvalidPayload
    | IntegerOverflow

  /* ---- Rebuilding a chain ---- */

  lemma SamePath(rows: Rows, p: seq<Id>, q: seq<Id>, head: Option<Id>)
    requires IsPath(rows, p, head) && IsPath(rows, q, head)
    ensures p == q
  {
    PathUnique(rows, p, q, head, head, |rows|);
    assert p == p[..|rows|] && q == q[..|rows|];
  }

  method VerifyPath(sha: Sha, db: Database, r: Id, k: Kind, path: seq<Id>) returns (ok: bool)
    ensures ok <==> PathVerifies(sha, db, r, k, path)
  {
    hide ObservationVerifies, AdmissionVerifies, Replays;
    for i := 0 to |path|
      invariant forall j :: 0 <= j < i ==> ObservationVerifies(sha, db, path[j])
    {
      if !ObservationVerifies(sha, db, path[i]) { return false; }
    }
    PathRecorded(sha, db, path);
    var entries := EntriesOn(db, path);
    for i := 0 to |entries|
      invariant forall j :: 0 < j < i ==> entries[j - 1].observation.observedAt <= entries[j].observation.observedAt
    {
      if 0 < i && entries[i].observation.observedAt < entries[i - 1].observation.observedAt { return false; }
    }
    match k
    case ArtifactFetch =>
      ok := true;
    case ReleaseStatus =>
      ok := ReplayEvents(EventsOf(entries));
    case ReleaseAdmission =>
      for i := 0 to |entries|
        invariant forall j :: 0 <= j < i ==> AdmissionVerifies(sha, db, r, entries[j].observation)
      {
        if !AdmissionVerifies(sha, db, r, entries[i].observation) { return false; }
      }
      ok := true;
  }

  lemma PathRecorded(sha: Sha, db: Database, path: seq<Id>)
    requires forall i :: 0 <= i < |path| ==> ObservationVerifies(sha, db, path[i])
    ensures forall i :: 0 <= i < |path| ==> path[i] in db.observed.observations
  {
    forall i | 0 <= i < |path| ensures path[i] in db.observed.observations {
      assert ObservationVerifies(sha, db, path[i]);
    }
  }

  /** Rebuilds one chain from its rows and replays it. */
  method VerifyObservationChain(sha: Sha, db: Database, r: Id, k: Kind, head: Option<Id>) returns (ok: bool)
    ensures ok <==> ChainVerifies(sha, db, r, k, head)
  {
    hide PathVerifies, IsPath, ChainRows;
    var walk := WalkChain(ChainRows(db, r, k), head);
    if walk.Err? { return false; }
    ok := VerifyPath(sha, db, r, k, walk.value);
    forall path | IsPath(ChainRows(db, r, k), path, head) ensures path == walk.value {
      SamePath(ChainRows(db, r, k), path, walk.value, head);
    }
  }

  method VerifyReleaseChains(sha: Sha, db: Database, r: Id) returns (ok: bool)
    ensures ok <==> ReleaseChainsVerify(sha, db, r)
  {
    hide ChainVerifies;
    if r !in db.observed.heads { return false; }
    var heads := db.observed.heads[r];
    var fetch := VerifyObservationChain(sha, db, r, ArtifactFetch, heads.fetch);
    var status := VerifyObservationChain(sha, db, r, ReleaseStatus, heads.status);
    var admission := VerifyObservationChain(sha, db, r, ReleaseAdmission, heads.admission);
    ok := fetch && status && admission;
    AllKinds(sha, db, r, heads);
  }

  lemma AllKinds(sha: Sha, db: Database, r: Id, heads: HeadsRow)
    ensures (forall k :: ChainVerifies(sha, db, r, k, heads.Of(k))) <==>
              && ChainVerifies(sha, db, r, ArtifactFetch, heads.fetch)
              && ChainVerifies(sha, db, r, ReleaseStatus, heads.status)
              && ChainVerifies(sha, db, r, ReleaseAdmission, heads.admission)
  {
    hide ChainVerifies;
    assert heads.Of(ArtifactFetch) == heads.fetch && heads.Of(ReleaseStatus) == heads.status
           && heads.Of(ReleaseAdmission) == heads.admission;
  }

  /* ---- Release identities ---- */

  /** The ledger after a release identity has been ensured. */
  function WithIdentity(l: Ledger, ref: InputRef): Ledger {
    l.(refs := l.refs[ref.releaseId := ref])
  }

  predicate IdentityFits(l: Ledger, ref: InputRef) {
    ref.releaseId in l.refs ==> l.refs[ref.releaseId] == ref
  }

  lemma IdentityKeeps(cfg: Config, l: Ledger, ref: InputRef)
    requires Coherent(cfg, l) && IdentityFits(l, ref)
    ensures Coherent(cfg, WithIdentity(l, ref)) && Extends(l, WithIdentity(l, ref))
  {
    hide LogCoherent, RunsCoherent, ClosureCoherent, ReceiptCoherent, SameContract;
    var l' := WithIdentity(l, ref);
    assert Extends(l, l');
    hide Extends;
    CoherentGrows(l.refs, l.receipts, l'.refs, l'.receipts, l.log);
    MaterialStable(cfg, l, l');
    RunsStable(cfg, l, l');
  }

  lemma {:induction false} HeadHasIdentity(cfg: Config, l: Ledger, r: Id, k: Kind)
    requires Coherent(cfg, l) && Head(l.log, r, k).Some?
    ensures r in l.refs
  {
    hide MaterialCoherent, RunsCoherent;
    var i := HeadIsLastMatch(l.log, r, k);
    assert CoherentAt(l.refs, l.receipts, l.log, i);
  }

  /** A release without identity has no observations, so its heads start empty. */
  lemma NoHeadsYet(cfg: Config, l: Ledger, r: Id)
    requires Coherent(cfg, l) && r !in l.refs
    ensures HeadsRowOf(l.log, r) == HeadsRow(None, None, None)
  {
    hide Coherent;
    forall k ensures HeadId(l.log, r, k) == None {
      if Head(l.log, r, k).Some? { HeadHasIdentity(cfg, l, r, k); }
    }
  }

  lemma IdentityRows(cfg: Config, l: Ledger)
    ensures Tables(cfg, l).content.identities == l.refs
  {
  }

  /** Inserts the identity and its empty heads row, or finds the same one there. */
  method EnsureReleaseIdentity(cfg: Config, db: Database, ref: InputRef, ghost l: Ledger) returns (r: Option<Database>)
    requires Coherent(cfg, l) && db == Tables(cfg, l)
    ensures r.Some? <==> IdentityFits(l, ref)
    ensures r.Some? ==> Coherent(cfg, WithIdentity(l, ref)) && r.value == Tables(cfg, WithIdentity(l, ref))
  {
    hide Coherent, Tables;
    var id := ref.releaseId;
    IdentityRows(cfg, l);
    if id in db.content.identities {
      if db.content.identities[id] != ref { return None; }
      assert WithIdentity(l, ref) == l;
      return Some(db);
    }
    IdentityKeeps(cfg, l, ref);
    NoHeadsYet(cfg, l, id);
    IdentityTables(cfg, l, ref);
    var content := db.content.(identities := db.content.identities[id := ref]);
    var observed := db.observed.(heads := db.observed.heads[id := HeadsRow(None, None, None)]);
    r := Some(db.(content := content, observed := observed));
  }

  lemma IdentityTables(cfg: Config, l: Ledger, ref: InputRef)
    requires ref.releaseId !in l.refs && HeadsRowOf(l.log, ref.releaseId) == HeadsRow(None, None, None)
    ensures var db, db' := Tables(cfg, l), Tables(cfg, WithIdentity(l, ref));
            db' == db.(content := db.content.(identities := db.content.identities[ref.releaseId := ref]),
                       observed := db.observed.(heads := db.observed.heads[ref.releaseId := HeadsRow(None, None, None)]))
  {
    hide HeadsRowOf, ObservationTable, FetchTable, StatusTable, AdmissionTable, ReleaseIndex, ArtifactIndex,
         DependencyIndex, ReceiptIndex, ReceiptRowOf, ClosureRowOf, PinRowOf, PinReleasesOf, PinArtifactsOf,
         ConfirmationRowOf, ItemIndex;
    var l' := WithIdentity(l, ref);
    assert DocumentsOf(cfg.sha, l') == DocumentsOf(cfg.sha, l);
    SameRuns(cfg.sha, l, l');
    assert Tables(cfg, l').observed.heads == Tables(cfg, l).observed.heads[ref.releaseId := HeadsRow(None, None, None)];
  }

  lemma SamePinViews(l: Ledger, l': Ledger, p: PinEntry)
    requires l'.closures == l.closures
    ensures PinReleasesOf(l', p) == PinReleasesOf(l, p) && PinArtifactsOf(l', p) == PinArtifactsOf(l, p)
  {
  }

  /** The run tables depend only on the pins, confirmations and closures. */
  lemma SameRuns(sha: Sha, l: Ledger, l': Ledger)
    requires l'.pins == l.pins && l'.confirmations == l.confirmations && l'.closures == l.closures
    ensures RunsOf(sha, l') == RunsOf(sha, l)
  {
    hide PinRowOf, ConfirmationRowOf, ItemIndex, PinReleasesOf, PinArtifactsOf;
    forall run | run in l.pins ensures PinReleasesOf(l', l.pins[run]) == PinReleasesOf(l, l.pins[run])
                                       && PinArtifactsOf(l', l.pins[run]) == PinArtifactsOf(l, l.pins[run]) {
      SamePinViews(l, l', l.pins[run]);
    }
    assert RunsOf(sha, l').pinReleases == RunsOf(sha, l).pinReleases;
    assert RunsOf(sha, l').pinArtifacts == RunsOf(sha, l).pinArtifacts;
  }

  /* ---- Validating a new observation ---- */

  method ValidateFetch(cfg: Config, db: Database, o: Observation, ghost l: Ledger) returns (ok: bool)
    requires MaterialCoherent(cfg, l) && db == Tables(cfg, l) && o.FetchObservation?
    ensures ok <==> FetchJustified(l.receipts, o)
  {
    hide ReceiptVerifies, Tables, Group, ReceiptIndex, SortedList, ArtifactIds;
    if o.result != Passed { return true; }
    if o.receiptHash.None? { return false; }
    var h := o.receiptHash.value;
    TableKeys(cfg, l);
    if h !in db.documents.receipts { return false; }
    ReceiptTables(cfg, l, h);
    if db.documents.receipts[h].releaseId != o.releaseId { return false; }
    ReceiptAccepted(cfg, l, h);
    assert ReceiptCoherent(cfg, l, h, l.receipts[h]);
    ArtifactListSorted(l.receipts[h].receipt.artifacts);
    ok := ReceiptVerifies(cfg.sha, db, h) && SortedList(Group(db.documents.receiptArtifacts, h).Keys) == o.artifactIds;
  }

  function RowEvent(row: StatusRow): Option<Event> {
    if row.result == Passed && row.status.Some? && row.eventId.Some? && row.eventHash.Some?
       && row.sequence.Some? && row.recordedAt.Some?
    then Some(Event(row.status.value, row.eventId.value, row.eventHash.value, row.previousHash,
                    row.sequence.value, row.recordedAt.value))
    else None
  }

  /** The passed status rows of a release, joined with their observation times. */
  method SelectEventRows(cfg: Config, db: Database, r: Id, ghost l: Ledger) returns (rows: seq<EventRow>)
    requires LogCoherent(l.refs, l.receipts, l.log) && db == Tables(cfg, l)
    ensures RowsOf(rows, History(l.log, r))
  {
    hide *;
    rows := [];
    StatusKeys(cfg, l);
    var pending := db.observed.statuses.Keys;
    while pending != {}
      invariant pending <= db.observed.statuses.Keys
      invariant Selected(db, r, db.observed.statuses.Keys - pending, rows)
      decreases pending
    {
      var id :| id in pending;
      ghost var before := db.observed.statuses.Keys - pending;
      pending := pending - {id};
      var e := RowEvent(db.observed.statuses[id]);
      ghost var was := rows;
      if db.observed.observations[id].releaseId == r && e.Some? {
        rows := rows + [EventRow(e.value, db.observed.observations[id].observedAt)];
      }
      SelectStep(db, r, before, id, was, rows);
      assert db.observed.statuses.Keys - pending == before + {id};
    }
    assert db.observed.statuses.Keys - pending == db.observed.statuses.Keys;
    SelectedIsHistory(cfg, l, r, rows);
  }

  lemma StatusKeys(cfg: Config, l: Ledger)
    requires LogCoherent(l.refs, l.receipts, l.log)
    ensures Tables(cfg, l).observed.statuses.Keys <= Tables(cfg, l).observed.observations.Keys
    ensures Selected(Tables(cfg, l), "", {}, [])
    ensures forall r :: Selected(Tables(cfg, l), r, {}, [])
    ensures Tables(cfg, l).observed.statuses.Keys - Tables(cfg, l).observed.statuses.Keys == {}
  {
    hide LogCoherent, ContentOf, DocumentsOf, RunsOf;
    StatusIds(cfg.sha, l.log);
  }

  lemma {:induction false} StatusIds(sha: Sha, log: Log)
    ensures StatusTable(log).Keys <= ObservationTable(sha, log).Keys
    decreases |log|
  {
    if log != [] { StatusIds(sha, log[..|log| - 1]); }
  }

  ghost predicate IsEventRow(db: Database, r: Id, id: Id, row: EventRow) {
    && id in db.observed.statuses && id in db.observed.observations
    && db.observed.observations[id].releaseId == r
    && RowEvent(db.observed.statuses[id]) == Some(row.event)
  }

  ghost predicate FromSeen(db: Database, r: Id, seen: set<Id>, row: EventRow) {
    exists id :: id in seen && IsEventRow(db, r, id, row)
  }

  ghost predicate InRows(db: Database, r: Id, id: Id, rows: seq<EventRow>) {
    exists n :: 0 <= n < |rows| && IsEventRow(db, r, id, rows[n])
  }

  ghost predicate Passes(db: Database, r: Id, id: Id) {
    && id in db.observed.statuses && id in db.observed.observations
    && db.observed.observations[id].releaseId == r && RowEvent(db.observed.statuses[id]).Some?
  }

  /** The rows selected from the status rows visited so far. */
  ghost predicate Selected(db: Database, r: Id, seen: set<Id>, rows: seq<EventRow>) {
    && (forall n :: 0 <= n < |rows| ==> FromSeen(db, r, seen, rows[n]))
    && (forall id :: id in seen && Passes(db, r, id) ==> InRows(db, r, id, rows))
  }

  lemma SelectStep(db: Database, r: Id, seen: set<Id>, id: Id, rows: seq<EventRow>, rows': seq<EventRow>)
    requires Selected(db, r, seen, rows) && id in db.observed.statuses && id in db.observed.observations
    requires if db.observed.observations[id].releaseId == r && RowEvent(db.observed.statuses[id]).Some?
             then rows' == rows + [EventRow(RowEvent(db.observed.statuses[id]).value, db.observed.observations[id].observedAt)]
             else rows' == rows
    ensures Selected(db, r, seen + {id}, rows')
  {
    hide RowEvent;
    forall n | 0 <= n < |rows'| ensures FromSeen(db, r, seen + {id}, rows'[n]) {
      if n < |rows| {
        assert FromSeen(db, r, seen, rows[n]);
        var x :| x in seen && IsEventRow(db, r, x, rows[n]);
        assert x in seen + {id} && IsEventRow(db, r, x, rows'[n]);
      } else {
        assert id in seen + {id} && IsEventRow(db, r, id, rows'[n]);
      }
    }
    forall x | x in seen + {id} && Passes(db, r, x) ensures InRows(db, r, x, rows') {
      if x == id {
        assert IsEventRow(db, r, x, rows'[|rows|]);
      } else {
        assert InRows(db, r, x, rows);
        var n :| 0 <= n < |rows| && IsEventRow(db, r, x, rows[n]);
        assert rows'[n] == rows[n];
      }
    }
  }

  /** Every selected row is an event of the history ... */
  lemma SelectedInHistory(cfg: Config, l: Ledger, r: Id, rows: seq<EventRow>, n: nat)
    requires LogCoherent(l.refs, l.receipts, l.log) && n < |rows|
    requires Selected(Tables(cfg, l), r, Tables(cfg, l).observed.statuses.Keys, rows)
    ensures rows[n].event in History(l.log, r)
  {
    hide LogCoherent, Tables, Chain, EventsOf, RowEvent;
    var chain := Chain(l.log, r, ReleaseStatus);
    var db := Tables(cfg, l);
    ChainMembers(l.log, r, ReleaseStatus);
    EventsOfMembers(chain);
    assert FromSeen(db, r, db.observed.statuses.Keys, rows[n]);
    var id :| id in db.observed.statuses.Keys && IsEventRow(db, r, id, rows[n]);
    var m := StatusRowEntry(cfg, l, id);
    assert l.log[m] in chain;
    var i :| 0 <= i < |chain| && chain[i] == l.log[m];
    assert StatusEvent(chain[i].observation) == Some(rows[n].event);
  }

  /** ... and every event of the history is selected. */
  lemma HistorySelected(cfg: Config, l: Ledger, r: Id, rows: seq<EventRow>, e: Event) returns (n: nat)
    requires LogCoherent(l.refs, l.receipts, l.log) && e in History(l.log, r)
    requires Selected(Tables(cfg, l), r, Tables(cfg, l).observed.statuses.Keys, rows)
    ensures n < |rows| && rows[n].event == e
  {
    hide LogCoherent, Tables, Chain, EventsOf, RowEvent;
    var chain := Chain(l.log, r, ReleaseStatus);
    var db := Tables(cfg, l);
    ChainMembers(l.log, r, ReleaseStatus);
    EventsOfMembers(chain);
    var c :| 0 <= c < |chain| && StatusEvent(chain[c].observation) == Some(e);
    assert chain[c] in chain;
    var m :| 0 <= m < |l.log| && l.log[m] == chain[c];
    EntryStatusRow(cfg, l, m);
    var id := l.log[m].observation.id;
    assert Passes(db, r, id) && InRows(db, r, id, rows);
    n :| 0 <= n < |rows| && IsEventRow(db, r, id, rows[n]);
  }

  lemma SelectedIsHistory(cfg: Config, l: Ledger, r: Id, rows: seq<EventRow>)
    requires LogCoherent(l.refs, l.receipts, l.log)
    requires Selected(Tables(cfg, l), r, Tables(cfg, l).observed.statuses.Keys, rows)
    ensures RowsOf(rows, History(l.log, r))
  {
    hide LogCoherent, Tables, History, Selected;
    var history := History(l.log, r);
    forall n | 0 <= n < |rows| ensures rows[n].event in history { SelectedInHistory(cfg, l, r, rows, n); }
    forall i | 0 <= i < |history| ensures exists n :: 0 <= n < |rows| && rows[n].event == history[i] {
      var n := HistorySelected(cfg, l, r, rows, history[i]);
    }
    assert forall k :: 0 <= k < |rows| ==> rows[k].event in history;
    assert forall i :: 0 <= i < |history| ==> exists k :: 0 <= k < |rows| && rows[k].event == history[i];
  }

  lemma StatusRowEntry(cfg: Config, l: Ledger, id: Id) returns (m: nat)
    requires LogCoherent(l.refs, l.receipts, l.log)
    requires id in Tables(cfg, l).observed.statuses && id in Tables(cfg, l).observed.observations
    ensures m < |l.log| && l.log[m].observation.StatusObservation?
    ensures l.log[m].observation.releaseId == Tables(cfg, l).observed.observations[id].releaseId
    ensures RowEvent(Tables(cfg, l).observed.statuses[id]) == StatusEvent(l.log[m].observation)
  {
    hide LogCoherent, ContentOf, DocumentsOf, RunsOf;
    m := TableEntry(cfg.sha, l.log, id);
    TableLookup(l.refs, l.receipts, cfg.sha, l.log, m);
  }

  lemma EntryStatusRow(cfg: Config, l: Ledger, m: nat)
    requires LogCoherent(l.refs, l.receipts, l.log) && m < |l.log| && l.log[m].observation.StatusObservation?
    ensures var id := l.log[m].observation.id;
            && id in Tables(cfg, l).observed.statuses && id in Tables(cfg, l).observed.observations
            && Tables(cfg, l).observed.observations[id].releaseId == l.log[m].observation.releaseId
            && RowEvent(Tables(cfg, l).observed.statuses[id]) == StatusEvent(l.log[m].observation)
  {
    hide LogCoherent, ContentOf, DocumentsOf, RunsOf;
    TableLookup(l.refs, l.receipts, cfg.sha, l.log, m);
  }

  lemma PassedEventWellFormed(o: Observation)
    requires o.StatusObservation? && ObservationShape(o) && o.result == Passed
    ensures StatusEvent(o).Some? && WellFormed(StatusEvent(o).value)
  {
  }

  /**
   Judges a status observation by the row with the largest sequence, and agrees
   with replaying the whole extended history.
   */
  method ValidateStatus(cfg: Config, db: Database, o: Observation, ghost l: Ledger) returns (ok: bool)
    requires Coherent(cfg, l) && db == Tables(cfg, l) && o.StatusObservation? && ValidObservation(o)
    ensures ok <==> StatusJustified(l.log, o)
  {
    hide MaterialCoherent, LogCoherent, RunsCoherent, Tables, Replays, EventsOf, Chain, ObservationSyntax;
    if o.result != Passed { return true; }
    PassedEventWellFormed(o);
    HistoryReplays(l.refs, l.receipts, l.log, o.releaseId);
    var rows := SelectEventRows(cfg, db, o.releaseId, l);
    ok := ValidateEvent(rows, StatusEvent(o).value, History(l.log, o.releaseId));
  }

  lemma {:induction false} HeadTables(cfg: Config, l: Ledger, r: Id, k: Kind)
    requires LogCoherent(l.refs, l.receipts, l.log) && r in l.refs
    ensures var t := Tables(cfg, l).observed;
            && r in t.heads && t.heads[r].Of(k) == HeadId(l.log, r, k)
            && (Head(l.log, r, k).Some? ==>
                  var e := Head(l.log, r, k).value;
                  && e.observation.id in t.observations
                  && t.observations[e.observation.id] == ObservationRowOf(cfg.sha, e)
                  && Matches(e, r, k))
  {
    hide LogCoherent, ContentOf, DocumentsOf, RunsOf, ObservationTable, FetchTable, StatusTable, AdmissionTable;
    if Head(l.log, r, k).Some? {
      var i := HeadIsLastMatch(l.log, r, k);
      TableLookup(l.refs, l.receipts, cfg.sha, l.log, i);
    }
  }

  lemma {:induction false} StatusHeadRow(cfg: Config, l: Ledger, r: Id)
    requires LogCoherent(l.refs, l.receipts, l.log) && Head(l.log, r, ReleaseStatus).Some?
    ensures var o := Head(l.log, r, ReleaseStatus).value.observation;
            && o.StatusObservation? && o.id in Tables(cfg, l).observed.statuses
            && Tables(cfg, l).observed.statuses[o.id] == StatusRowOf(o)
  {
    hide LogCoherent, ContentOf, DocumentsOf, RunsOf, ObservationTable, FetchTable, AdmissionTable;
    var i := HeadIsLastMatch(l.log, r, ReleaseStatus);
    TableLookup(l.refs, l.receipts, cfg.sha, l.log, i);
  }

  method ValidateAdmission(cfg: Config, db: Database, o: Observation, ghost l: Ledger) returns (ok: bool)
    requires Coherent(cfg, l) && db == Tables(cfg, l) && o.AdmissionObservation? && o.releaseId in l.refs
    ensures ok <==> AdmissionJustified(l.log, o)
  {
    hide MaterialCoherent, LogCoherent, RunsCoherent, Tables, ChainVerifies, Head;
    HeadTables(cfg, l, o.releaseId, ReleaseStatus);
    ChainVerified(cfg, l, o.releaseId, ReleaseStatus);
    var current := db.observed.heads[o.releaseId].status;
    var chain := VerifyObservationChain(cfg.sha, db, o.releaseId, ReleaseStatus, current);
    if !chain { return false; }
    if current != Some(o.statusId) { return false; }
    StatusHeadRow(cfg, l, o.releaseId);
    if o.observedAt < db.observed.observations[o.statusId].observedAt { return false; }
    var status := db.observed.statuses[o.statusId];
    ok := o.admission == Authorized ==> status.result == Passed && status.status == Some(Published);
  }

  /* ---- The current access of a release ---- */

  /** What the heads join to; nothing when a head is not the tail of its chain. */
  function CurrentAccess(t: ObservationTables, r: Id): (a: Option<Access>) {
    if r !in t.heads then Some(Access(None, None))
    else
      var heads := t.heads[r];
      if !HeadIsTail(t, r, ReleaseStatus, heads.status) || !HeadIsTail(t, r, ReleaseAdmission, heads.admission) then None
      else Some(Access(DocumentOf(t, heads.status), DocumentOf(t, heads.admission)))
  }

  function DocumentOf(t: ObservationTables, id: Option<Id>): Option<Observation> {
    if id.Some? && id.value in t.observations then Some(t.observations[id.value].document) else None
  }

  predicate HeadIsTail(t: ObservationTables, r: Id, k: Kind, head: Option<Id>) {
    head.Some? ==>
      && head.value in t.observations
      && t.observations[head.value].releaseId == r && t.observations[head.value].kind == k
      && forall id :: id in t.observations && t.observations[id].releaseId == r && t.observations[id].kind == k ==>
           t.observations[id].supersedes != head
  }

  /** The head of a coherent ledger is the tail of its chain. */
  lemma HeadIsTailOf(cfg: Config, l: Ledger, r: Id, k: Kind)
    requires Coherent(cfg, l) && r in l.refs
    ensures HeadIsTail(Tables(cfg, l).observed, r, k, HeadId(l.log, r, k))
  {
    hide MaterialCoherent, RunsCoherent, LogCoherent, Tables, ChainRows;
    HeadTables(cfg, l, r, k);
    ChainIsPath(cfg, l, r, k);
    var rows := ChainRows(Tables(cfg, l), r, k);
    var path := ChainIds(Chain(l.log, r, k));
    var t := Tables(cfg, l).observed;
    ChainRowKeys(Tables(cfg, l), r, k);
    forall id | id in rows ensures rows[id] != HeadId(l.log, r, k) || HeadId(l.log, r, k).None? {
      var j := ObservationChain.Position(rows, path, HeadId(l.log, r, k), id);
    }
  }

  lemma ChainRowKeys(db: Database, r: Id, k: Kind)
    ensures var t := db.observed.observations;
            forall id :: id in t && t[id].releaseId == r && t[id].kind == k ==>
              id in ChainRows(db, r, k) && ChainRows(db, r, k)[id] == t[id].supersedes
  {
  }

  /** The access read from the heads is the fold over the whole history. */
  lemma {:induction false} CurrentAccessIsFold(cfg: Config, l: Ledger, r: Id)
    requires Coherent(cfg, l) && r in l.refs
    ensures CurrentAccess(Tables(cfg, l).observed, r) == Some(AccessOf(l.log, r))
  {
    hide MaterialCoherent, RunsCoherent, LogCoherent, Tables, HeadIsTail;
    HeadTables(cfg, l, r, ReleaseStatus);
    HeadTables(cfg, l, r, ReleaseAdmission);
    HeadIsTailOf(cfg, l, r, ReleaseStatus);
    HeadIsTailOf(cfg, l, r, ReleaseAdmission);
    AccessIsHeads(l.log, r);
  }
}
