/**
 The log read by position: the newest entry of a release and kind, and the newest
 passed status. Heads and histories are folds; these say the same of single entries.
 */
module LogEntries {
  import opened Basics
  import opened Contracts
  import opened StatusEvents
  import opened ObservationLog

  predicate OfKind(o: Observation, k: Kind) {
    match k
    case ArtifactFetch => o.FetchObservation?
    case ReleaseStatus => o.StatusObservation?
    case ReleaseAdmission => o.AdmissionObservation?
  }

  predicate About(e: Entry, r: Id, k: Kind) {
    e.observation.releaseId == r && OfKind(e.observation, k)
  }

  /** The entry at this position is about the release and kind, and no later one is. */
  predicate Newest(log: Log, r: Id, k: Kind, n: int) {
    0 <= n < |log| && About(log[n], r, k) && forall j :: n < j < |log| ==> !About(log[j], r, k)
  }

  lemma AboutMatches(e: Entry, r: Id, k: Kind)
    ensures About(e, r, k) <==> Matches(e, r, k)
  {
  }

  lemma {:induction false} NewestIsHead(log: Log, r: Id, k: Kind, n: int)
    requires Newest(log, r, k, n)
    ensures Head(log, r, k) == Some(log[n])
  {
    AboutMatches(log[n], r, k);
    HeadExists(log, r, k, n);
    var i := HeadIsLastMatch(log, r, k);
    AboutMatches(log[i], r, k);
  }

  /** There is a head exactly when some entry is about the release and kind, and it is the newest. */
  lemma {:induction false} HeadIsNewest(log: Log, r: Id, k: Kind)
    ensures Head(log, r, k).None? <==> forall n :: 0 <= n < |log| ==> !About(log[n], r, k)
    ensures Head(log, r, k).Some? ==> exists n :: Newest(log, r, k, n) && Head(log, r, k) == Some(log[n])
  {
    if Head(log, r, k).Some? {
      var i := HeadIsLastMatch(log, r, k);
      AboutMatches(log[i], r, k);
      forall j | i < j < |log| ensures !About(log[j], r, k) { AboutMatches(log[j], r, k); }
      assert Newest(log, r, k, i);
    }
    if n :| 0 <= n < |log| && About(log[n], r, k) {
      AboutMatches(log[n], r, k);
      HeadExists(log, r, k, n);
    }
  }

  /* ---- Passed statuses ---- */

  predicate PassedAt(log: Log, r: Id, n: int) {
    0 <= n < |log| && log[n].observation.releaseId == r && log[n].observation.StatusObservation?
    && log[n].observation.result == Passed
  }

  predicate NewestPassed(log: Log, r: Id, n: int) {
    PassedAt(log, r, n) && forall j :: n < j < |log| ==> !PassedAt(log, r, j)
  }

  /** The same provider event, field by field. */
  predicate SameEvent(a: Observation, b: Observation)
    requires a.StatusObservation? && b.StatusObservation?
  {
    && a.status == b.status && a.eventId == b.eventId && a.eventHash == b.eventHash
    && a.previousHash == b.previousHash && a.sequence == b.sequence && a.recordedAt == b.recordedAt
  }

  lemma PassedHasEvent(o: Observation)
    requires ValidObservation(o) && o.StatusObservation?
    ensures StatusEvent(o).Some? <==> o.result == Passed
    ensures o.result == Passed ==>
              && o.status.Some? && o.eventId.Some? && o.eventHash.Some? && o.sequence.Some? && o.recordedAt.Some?
              && StatusEvent(o) == Some(Event(o.status.value, o.eventId.value, o.eventHash.value, o.previousHash,
                                              o.sequence.value, o.recordedAt.value))
  {
  }

  /** Every entry of the log is a valid observation. */
  predicate AllValid(log: Log) {
    forall n :: 0 <= n < |log| ==> ValidObservation(log[n].observation)
  }

  lemma CoherentValid(refs: Refs, receipts: Receipts, log: Log)
    requires LogCoherent(refs, receipts, log)
    ensures AllValid(log)
  {
    hide ValidObservation, Justified, InOrder, Recorded;
    forall n | 0 <= n < |log| ensures ValidObservation(log[n].observation) {
      assert CoherentAt(refs, receipts, log, n);
    }
  }

  lemma HistoryStep(log: Log, r: Id)
    requires log != [] && AllValid(log)
    ensures var n := |log| - 1;
            History(log, r) ==
              if PassedAt(log, r, n) then History(log[..n], r) + [StatusEvent(log[n].observation).value]
              else History(log[..n], r)
    ensures PassedAt(log, r, |log| - 1) ==> StatusEvent(log[|log| - 1].observation).Some?
  {
    hide ValidObservation;
    var n := |log| - 1;
    var front := Chain(log[..n], r, ReleaseStatus);
    if log[n].observation.StatusObservation? { PassedHasEvent(log[n].observation); }
    if Matches(log[n], r, ReleaseStatus) {
      assert (front + [log[n]])[..|front|] == front;
    }
  }

  lemma ValidFront(log: Log)
    requires log != [] && AllValid(log)
    ensures AllValid(log[..|log| - 1])
  {
  }

  /** The history is empty exactly when nothing passed, and holds exactly the passed events. */
  lemma {:induction false} HistoryHolds(log: Log, r: Id)
    requires AllValid(log)
    ensures History(log, r) == [] <==> forall n :: 0 <= n < |log| ==> !PassedAt(log, r, n)
    ensures forall e :: e in History(log, r) <==>
              exists n :: PassedAt(log, r, n) && StatusEvent(log[n].observation) == Some(e)
    decreases |log|
  {
    hide StatusEvent, AllValid;
    if log == [] {
      NothingPassed(r);
    } else {
      var n := |log| - 1;
      var front := log[..n];
      ValidFront(log);
      HistoryHolds(front, r);
      HistoryStep(log, r);
      hide History;
      forall i | 0 <= i < n ensures PassedAt(front, r, i) <==> PassedAt(log, r, i) { assert front[i] == log[i]; }
      forall e
        ensures e in History(log, r) <==> exists i :: PassedAt(log, r, i) && StatusEvent(log[i].observation) == Some(e)
      {
        if i :| PassedAt(front, r, i) && StatusEvent(front[i].observation) == Some(e) {
          assert PassedAt(log, r, i) && StatusEvent(log[i].observation) == Some(e);
        }
        if i :| PassedAt(log, r, i) && StatusEvent(log[i].observation) == Some(e) {
          if i < n { assert PassedAt(front, r, i) && StatusEvent(front[i].observation) == Some(e); }
        }
      }
    }
  }

  lemma NothingPassed(r: Id)
    ensures History([], r) == [] && forall n :: !PassedAt([], r, n)
  {
  }

  /** The newest passed status carries the last event. */
  lemma {:induction false} NewestPassedIsLast(log: Log, r: Id, n: int)
    requires AllValid(log) && NewestPassed(log, r, n)
    ensures var h := History(log, r); h != [] && StatusEvent(log[n].observation) == Some(h[|h| - 1])
    decreases |log|
  {
    hide StatusEvent, AllValid, History;
    var last := |log| - 1;
    HistoryStep(log, r);
    if n < last {
      var front := log[..last];
      ValidFront(log);
      forall j | 0 <= j < last ensures PassedAt(front, r, j) <==> PassedAt(log, r, j) { assert front[j] == log[j]; }
      NewestPassedIsLast(front, r, n);
    }
  }

  lemma {:induction false} NewestPassedExists(log: Log, r: Id, i: int) returns (n: int)
    requires PassedAt(log, r, i)
    ensures NewestPassed(log, r, n)
    decreases |log| - i
  {
    if j :| i < j < |log| && PassedAt(log, r, j) {
      n := NewestPassedExists(log, r, j);
    } else {
      n := i;
    }
  }
}
