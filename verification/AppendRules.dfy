/**
 What an append answers, read off the entries of the log: which observations are
 taken, which are repetitions, and that neither answer ever changes afterwards.
 */
module AppendRules {
  import opened Basics
  import opened Contracts
  import opened StatusEvents
  import opened ObservationLog
  import opened LogEntries
  import opened Ledgers
  import opened LedgerInvariant
  import opened LedgerRuns

  /* ---- The conditions, entry by entry ---- */

  /** It names the newest observation of its release and kind, and is not older; the first names none. */
  ghost predicate Supersedes(log: Log, o: Observation, k: Kind) {
    match o.supersedes
    case None => forall n :: 0 <= n < |log| ==> !About(log[n], o.releaseId, k)
    case Some(id) =>
      exists n :: && Newest(log, o.releaseId, k, n)
                  && log[n].observation.id == id && log[n].observation.observedAt <= o.observedAt
  }

  /** A passed fetch rests on a stored receipt of the release that lists exactly its artifacts. */
  predicate FetchRests(receipts: Receipts, o: Observation)
    requires o.FetchObservation?
  {
    o.result == Passed ==>
      && o.receiptHash.Some? && o.receiptHash.value in receipts
      && var r := receipts[o.receiptHash.value].receipt;
         && r.inputRef.releaseId == o.releaseId && |r.artifacts| == |o.artifactIds|
         && forall i :: 0 <= i < |r.artifacts| ==> r.artifacts[i].artifactId == o.artifactIds[i]
  }

  /** The event one place after another: never after a withdrawal, linked by its hash, and not earlier. */
  predicate EventAfter(p: Observation, o: Observation)
    requires p.StatusObservation? && o.StatusObservation?
  {
    && p.status != Some(Withdrawn)
    && p.sequence.Some? && o.sequence == Some(p.sequence.value + 1)
    && p.eventHash.Some? && o.previousHash == p.eventHash
    && p.recordedAt.Some? && o.recordedAt.Some? && p.recordedAt.value <= o.recordedAt.value
  }

  /** An event with the identifier or the hash of another that is not the same event. */
  predicate TakesOver(e: Observation, o: Observation)
    requires e.StatusObservation? && o.StatusObservation?
  {
    (e.eventId == o.eventId || e.eventHash == o.eventHash) && !SameEvent(e, o)
  }

  /** A passed status repeats or continues the newest passed one, and takes over no event's identifier or hash. */
  ghost predicate StatusContinues(log: Log, o: Observation)
    requires o.StatusObservation?
  {
    o.result == Passed ==>
      && (if forall n :: 0 <= n < |log| ==> !PassedAt(log, o.releaseId, n)
          then o.sequence == Some(1) && o.status == Some(Building) && o.previousHash.None?
          else
            exists n :: NewestPassed(log, o.releaseId, n)
                        && (SameEvent(log[n].observation, o) || EventAfter(log[n].observation, o)))
      && forall n :: PassedAt(log, o.releaseId, n) ==> !TakesOver(log[n].observation, o)
  }

  /** An admission judges the newest status of its release, and authorises only a published one. */
  ghost predicate AdmissionRests(log: Log, o: Observation)
    requires o.AdmissionObservation?
  {
    exists n :: && Newest(log, o.releaseId, ReleaseStatus, n)
                && var s := log[n].observation;
                   && s.id == o.statusId && s.observedAt <= o.observedAt
                   && (o.admission == Authorized ==>
                         s.StatusObservation? && s.result == Passed && s.status == Some(Published))
  }

  /** The observation is new, not from the future, and fits what is on record. */
  ghost predicate Acceptable(l: Ledger, o: Observation, now: Time) {
    && o.observedAt <= now
    && (o.releaseId in l.refs ==> l.refs[o.releaseId] == o.inputRef)
    && (forall n :: 0 <= n < |l.log| ==> l.log[n].observation.id != o.id)
    && match o
       case FetchObservation(_, _, _, _, _, _, _, _, _, _, _, _, _) =>
         Supersedes(l.log, o, ArtifactFetch) && FetchRests(l.receipts, o)
       case StatusObservation(_, _, _, _, _, _, _, _, _, _, _, _, _) =>
         Supersedes(l.log, o, ReleaseStatus) && StatusContinues(l.log, o)
       case AdmissionObservation(_, _, _, _, _, _, _, _) =>
         Supersedes(l.log, o, ReleaseAdmission) && AdmissionRests(l.log, o)
  }

  /* ---- The answers ---- */

  lemma SupersedesExact(log: Log, o: Observation)
    ensures InOrder(log, o) <==> Supersedes(log, o, o.Kind())
  {
    var r, k := o.releaseId, o.Kind();
    HeadIsNewest(log, r, k);
    forall n | Newest(log, r, k, n) ensures Head(log, r, k) == Some(log[n]) { NewestIsHead(log, r, k, n); }
    hide Head, Newest, About;
  }

  lemma FetchExact(receipts: Receipts, o: Observation)
    requires o.FetchObservation?
    ensures FetchJustified(receipts, o) <==> FetchRests(receipts, o)
  {
    if o.receiptHash.Some? && o.receiptHash.value in receipts {
      var artifacts := receipts[o.receiptHash.value].receipt.artifacts;
      if ArtifactIds(artifacts) == o.artifactIds {
        assert forall i :: 0 <= i < |artifacts| ==> ArtifactIds(artifacts)[i] == artifacts[i].artifactId;
      }
      if |artifacts| == |o.artifactIds| && forall i :: 0 <= i < |artifacts| ==> artifacts[i].artifactId == o.artifactIds[i] {
        assert ArtifactIds(artifacts) == o.artifactIds;
      }
    }
  }

  lemma FollowsExact(p: Observation, o: Observation)
    requires ValidObservation(p) && ValidObservation(o) && p.PassedStatus() && o.PassedStatus()
    ensures StatusEvent(p).Some? && StatusEvent(o).Some?
    ensures Follows(StatusEvent(p).value, StatusEvent(o).value) <==> SameEvent(p, o) || EventAfter(p, o)
  {
    hide ValidObservation;
    PassedHasEvent(p);
    PassedHasEvent(o);
  }

  lemma StartsExact(o: Observation)
    requires ValidObservation(o) && o.PassedStatus()
    ensures StatusEvent(o).Some?
    ensures Starts(StatusEvent(o).value) <==> o.sequence == Some(1) && o.status == Some(Building) && o.previousHash.None?
  {
    hide ValidObservation;
    PassedHasEvent(o);
  }

  lemma EntryValid(log: Log, n: int)
    requires AllValid(log) && 0 <= n < |log|
    ensures ValidObservation(log[n].observation)
  {
  }

  lemma ClashAt(e: Observation, o: Observation)
    requires ValidObservation(e) && ValidObservation(o) && e.PassedStatus() && o.PassedStatus()
    ensures StatusEvent(e).Some? && StatusEvent(o).Some?
    ensures Clash(StatusEvent(e).value, StatusEvent(o).value) <==> TakesOver(e, o)
  {
    hide ValidObservation;
    PassedHasEvent(e);
    PassedHasEvent(o);
  }

  /** No clash with the history is no clash with any passed entry. */
  lemma ClashExact(log: Log, o: Observation)
    requires AllValid(log) && ValidObservation(o) && o.PassedStatus()
    ensures StatusEvent(o).Some?
    ensures ClashFree(History(log, o.releaseId), StatusEvent(o).value) <==>
            forall n :: PassedAt(log, o.releaseId, n) ==> !TakesOver(log[n].observation, o)
  {
    hide History, ValidObservation, AllValid, StatusEvent, TakesOver, Clash;
    var r := o.releaseId;
    ClashAt(o, o);
    var e := StatusEvent(o).value;
    var h := History(log, r);
    HistoryHolds(log, r);
    forall n | PassedAt(log, r, n)
      ensures StatusEvent(log[n].observation).Some?
      ensures Clash(StatusEvent(log[n].observation).value, e) <==> TakesOver(log[n].observation, o)
    {
      EntryValid(log, n);
      ClashAt(log[n].observation, o);
    }
    if ClashFree(h, e) {
      forall n | PassedAt(log, r, n) ensures !TakesOver(log[n].observation, o) {
        assert StatusEvent(log[n].observation).value in h;
      }
    } else {
      var i :| 0 <= i < |h| && Clash(h[i], e);
      assert h[i] in h;
      var n :| PassedAt(log, r, n) && StatusEvent(log[n].observation) == Some(h[i]);
    }
  }

  /** Continuing the history is continuing the newest passed entry. */
  lemma ContinuesExact(log: Log, o: Observation)
    requires AllValid(log) && ValidObservation(o) && o.PassedStatus()
    ensures StatusEvent(o).Some?
    ensures Continues(History(log, o.releaseId), StatusEvent(o).value) <==>
            if forall n :: 0 <= n < |log| ==> !PassedAt(log, o.releaseId, n)
            then o.sequence == Some(1) && o.status == Some(Building) && o.previousHash.None?
            else
              exists n :: NewestPassed(log, o.releaseId, n)
                          && (SameEvent(log[n].observation, o) || EventAfter(log[n].observation, o))
  {
    var r := o.releaseId;
    StartsExact(o);
    HistoryHolds(log, r);
    hide History, ValidObservation, AllValid, StatusEvent, SameEvent, EventAfter, Follows, Starts;
    if i :| 0 <= i < |log| && PassedAt(log, r, i) {
      var m := NewestPassedExists(log, r, i);
      forall n | NewestPassed(log, r, n)
        ensures Continues(History(log, r), StatusEvent(o).value) <==>
                SameEvent(log[n].observation, o) || EventAfter(log[n].observation, o)
      {
        EntryValid(log, n);
        NewestPassedIsLast(log, r, n);
        FollowsExact(log[n].observation, o);
      }
    }
  }

  lemma StatusExact(refs: Refs, receipts: Receipts, log: Log, o: Observation)
    requires LogCoherent(refs, receipts, log) && ValidObservation(o) && o.StatusObservation?
    ensures StatusJustified(log, o) <==> StatusContinues(log, o)
  {
    hide ValidObservation, LogCoherent, AllValid, History, ClashFree, Continues, Replays, PassedAt, NewestPassed, SameEvent,
         EventAfter, TakesOver, StatusEvent;
    PassedHasEvent(o);
    if o.result == Passed {
      CoherentValid(refs, receipts, log);
      HistoryReplays(refs, receipts, log, o.releaseId);
      ReplaysSnoc(History(log, o.releaseId), StatusEvent(o).value);
      ClashExact(log, o);
      ContinuesExact(log, o);
    }
  }

  lemma AdmissionExact(log: Log, o: Observation)
    requires o.AdmissionObservation?
    ensures AdmissionJustified(log, o) <==> AdmissionRests(log, o)
  {
    var r := o.releaseId;
    HeadIsNewest(log, r, ReleaseStatus);
    forall n | Newest(log, r, ReleaseStatus, n) ensures Head(log, r, ReleaseStatus) == Some(log[n]) {
      NewestIsHead(log, r, ReleaseStatus, n);
    }
    hide Head, Newest, About;
  }

  lemma JustifiedExact(refs: Refs, receipts: Receipts, log: Log, o: Observation)
    requires LogCoherent(refs, receipts, log) && ValidObservation(o)
    ensures InOrder(log, o) && Justified(receipts, log, o) <==>
              match o
              case FetchObservation(_, _, _, _, _, _, _, _, _, _, _, _, _) =>
                Supersedes(log, o, ArtifactFetch) && FetchRests(receipts, o)
              case StatusObservation(_, _, _, _, _, _, _, _, _, _, _, _, _) =>
                Supersedes(log, o, ReleaseStatus) && StatusContinues(log, o)
              case AdmissionObservation(_, _, _, _, _, _, _, _) =>
                Supersedes(log, o, ReleaseAdmission) && AdmissionRests(log, o)
  {
    hide LogCoherent, ValidObservation, InOrder, Supersedes, FetchJustified, StatusJustified, AdmissionJustified, FetchRests,
         StatusContinues, AdmissionRests;
    SupersedesExact(log, o);
    match o.Kind()
    case ArtifactFetch => FetchExact(receipts, o);
    case ReleaseStatus => StatusExact(refs, receipts, log, o);
    case ReleaseAdmission => AdmissionExact(log, o);
  }

  /**
   An append commits exactly when the observation is acceptable, recognises a
   repetition exactly when this very observation is in the log, and refuses all else.
   */
  lemma AppendExact(cfg: Config, l: Ledger, o: Observation, now: Time)
    requires Coherent(cfg, l) && ValidObservation(o)
    ensures AppendOutcome(l, o, now) == Committed <==> Acceptable(l, o, now)
    ensures AppendOutcome(l, o, now) == Replayed <==>
              o.observedAt <= now && exists n :: 0 <= n < |l.log| && l.log[n].observation == o
  {
    hide MaterialCoherent, LogCoherent, RunsCoherent, ValidObservation, InOrder, Justified, Supersedes, FetchRests,
         StatusContinues, AdmissionRests;
    JustifiedExact(l.refs, l.receipts, l.log, o);
    if n :| 0 <= n < |l.log| && l.log[n].observation == o { LoggedReference(l, n); }
  }

  lemma LoggedReference(l: Ledger, n: nat)
    requires LogCoherent(l.refs, l.receipts, l.log) && n < |l.log|
    ensures var o := l.log[n].observation; o.releaseId in l.refs && l.refs[o.releaseId] == o.inputRef
    ensures l.log[n].observation.observedAt <= l.log[n].persistedAt && ValidObservation(l.log[n].observation)
  {
    hide ValidObservation, Justified, InOrder, Recorded;
    assert CoherentAt(l.refs, l.receipts, l.log, n);
  }

  /** A committed observation becomes the last entry, under its release's identity, and changes nothing else. */
  lemma AppendedExact(l: Ledger, o: Observation, now: Time)
    ensures AppendOutcome(l, o, now) != Committed ==> Appended(l, o, now) == l
    ensures AppendOutcome(l, o, now) == Committed ==>
              && Appended(l, o, now).log == l.log + [Entry(o, now)]
              && Appended(l, o, now).refs.Keys == l.refs.Keys + {o.releaseId}
              && Appended(l, o, now).refs[o.releaseId] == o.inputRef
              && (forall r :: r in l.refs ==> Appended(l, o, now).refs[r] == l.refs[r])
              && Appended(l, o, now) == l.(refs := Appended(l, o, now).refs, log := Appended(l, o, now).log)
  {
    hide Admissible, Recorded, RecordedAs;
  }

  /** Names the newest observation of its release and kind, or none where there is none. */
  ghost predicate NamesNewest(log: Log, o: Observation, k: Kind) {
    match o.supersedes
    case None => forall n :: 0 <= n < |log| ==> !About(log[n], o.releaseId, k)
    case Some(id) => exists n :: Newest(log, o.releaseId, k, n) && log[n].observation.id == id
  }

  lemma NamesExact(log: Log, o: Observation)
    ensures o.supersedes == HeadId(log, o.releaseId, o.Kind()) <==> NamesNewest(log, o, o.Kind())
  {
    var r, k := o.releaseId, o.Kind();
    HeadIsNewest(log, r, k);
    forall n | Newest(log, r, k, n) ensures Head(log, r, k) == Some(log[n]) { NewestIsHead(log, r, k, n); }
    hide Head, Newest, About;
  }

  /** A refusal is a mapping conflict exactly when the reference, the identifier or the predecessor is another on record. */
  lemma RemapExact(l: Ledger, o: Observation, now: Time)
    ensures Remaps(l, o, now) <==>
              && o.observedAt <= now
              && (|| (o.releaseId in l.refs && l.refs[o.releaseId] != o.inputRef)
                  || (exists n :: 0 <= n < |l.log| && l.log[n].observation.id == o.id
                                  && forall j :: 0 <= j < |l.log| ==> l.log[j].observation != o)
                  || ((forall n :: 0 <= n < |l.log| ==> l.log[n].observation.id != o.id)
                      && !match o
                          case FetchObservation(_, _, _, _, _, _, _, _, _, _, _, _, _) => NamesNewest(l.log, o, ArtifactFetch)
                          case StatusObservation(_, _, _, _, _, _, _, _, _, _, _, _, _) => NamesNewest(l.log, o, ReleaseStatus)
                          case AdmissionObservation(_, _, _, _, _, _, _, _) => NamesNewest(l.log, o, ReleaseAdmission)))
  {
    NamesExact(l.log, o);
    hide NamesNewest, HeadId;
  }

  /* ---- The answers in every later world ---- */

  lemma LogKept(cfg: Config, ws: seq<World>, ops: seq<Op>, i: nat, j: nat, n: nat)
    requires Behaviour(cfg, ws, ops) && i <= j < |ws| && Coherent(cfg, ws[i].ledger) && n < |ws[i].ledger.log|
    ensures Coherent(cfg, ws[j].ledger) && n < |ws[j].ledger.log| && ws[j].ledger.log[n] == ws[i].ledger.log[n]
  {
    hide Coherent, Behaviour;
    RunKeeps(cfg, ws, ops, i, j);
  }

  /** Appending again what was once committed is recognised in every later world and changes nothing. */
  lemma AppendRepeated(cfg: Config, ws: seq<World>, ops: seq<Op>, i: nat, j: nat, o: Observation, t: Time, now: Time)
    requires Behaviour(cfg, ws, ops) && i < j < |ws| && Coherent(cfg, ws[i].ledger) && ops[i] == Append(o, t)
    requires AppendOutcome(ws[i].ledger, o, t) == Committed && o.observedAt <= now
    ensures AppendOutcome(ws[j].ledger, o, now) == Replayed && Appended(ws[j].ledger, o, now) == ws[j].ledger
  {
    hide Coherent, AppendOutcome, Appended;
    assert Next(cfg, ws[i], ops[i], ws[i + 1]);
    var n := |ws[i].ledger.log|;
    AppendedExact(ws[i].ledger, o, t);
    assert ws[i + 1].ledger.log[n].observation == o;
    RunKeeps(cfg, ws, ops, i, i + 1);
    LogKept(cfg, ws, ops, i + 1, j, n);
    AppendExact(cfg, ws[j].ledger, o, now);
    AppendedExact(ws[j].ledger, o, now);
  }

  /** An identifier on record for another observation is refused in every later world, and nothing changes. */
  lemma AppendConflict(cfg: Config, ws: seq<World>, ops: seq<Op>, i: nat, j: nat, n: nat, o: Observation, now: Time)
    requires Behaviour(cfg, ws, ops) && i <= j < |ws| && Coherent(cfg, ws[i].ledger) && ValidObservation(o)
    requires n < |ws[i].ledger.log| && ws[i].ledger.log[n].observation.id == o.id && ws[i].ledger.log[n].observation != o
    ensures AppendOutcome(ws[j].ledger, o, now) == Refused && Appended(ws[j].ledger, o, now) == ws[j].ledger
  {
    hide MaterialCoherent, LogCoherent, RunsCoherent, AppendOutcome, Appended, ValidObservation;
    LogKept(cfg, ws, ops, i, j, n);
    var l := ws[j].ledger;
    AppendExact(cfg, l, o, now);
    AppendedExact(l, o, now);
    if m :| 0 <= m < |l.log| && l.log[m].observation == o { IdentifiersDistinct(l.refs, l.receipts, l.log, m, n); }
  }

  /** Every entry of the log was acceptable when it was appended. */
  lemma EntryAcceptable(cfg: Config, l: Ledger, n: nat)
    requires Coherent(cfg, l) && n < |l.log|
    ensures var o := l.log[n].observation;
            && ValidObservation(o) && o.releaseId in l.refs && l.refs[o.releaseId] == o.inputRef
            && Acceptable(l.(log := l.log[..n]), o, l.log[n].persistedAt)
  {
    hide MaterialCoherent, RunsCoherent, ValidObservation, InOrder, Justified, Supersedes, FetchRests,
         StatusContinues, AdmissionRests, LogCoherent;
    LoggedReference(l, n);
    EntryAdmissible(l, n);
    CoherentPrefix(l.refs, l.receipts, l.log, n);
    JustifiedExact(l.refs, l.receipts, l.log[..n], l.log[n].observation);
  }

  lemma EntryAdmissible(l: Ledger, n: nat)
    requires LogCoherent(l.refs, l.receipts, l.log) && n < |l.log|
    ensures Admissible(l.refs, l.receipts, l.log[..n], l.log[n].observation)
  {
    assert CoherentAt(l.refs, l.receipts, l.log, n);
  }
}
