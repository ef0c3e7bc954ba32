/**
 The observations of the store as one append-only log. The current head of a
 release and kind is the last matching entry; a new observation is admissible
 when it continues its own history.
 */
module ObservationLog {
  import opened Basics
  import opened Contracts
  import opened StatusEvents

  datatype Entry = Entry(observation: Observation, persistedAt: Time)
  type Log = seq<Entry>

  type Refs = map<Id, InputRef>

  datatype ReceiptEntry = ReceiptEntry(receipt: Receipt, closureHash: Digest, persistedAt: Time)
  type Receipts = map<Digest, ReceiptEntry>

  ghost predicate Grows<K(!new), V(!new)>(m: map<K, V>, m': map<K, V>) {
    forall k :: k in m ==> k in m' && m'[k] == m[k]
  }

  /* ---- Heads and histories ---- */

  predicate Matches(e: Entry, r: Id, k: Kind) {
    e.observation.releaseId == r && e.observation.Kind() == k
  }

  function Head(log: Log, r: Id, k: Kind): Option<Entry>
    decreases |log|
  {
    if log == [] then None
    else if Matches(log[|log| - 1], r, k) then Some(log[|log| - 1])
    else Head(log[..|log| - 1], r, k)
  }

  function HeadId(log: Log, r: Id, k: Kind): Option<Id> {
    match Head(log, r, k)
    case None => None
    case Some(e) => Some(e.observation.id)
  }

  /** The matching entries in the order of appending. */
  function Chain(log: Log, r: Id, k: Kind): seq<Entry>
    decreases |log|
  {
    if log == [] then []
    else
      var front := Chain(log[..|log| - 1], r, k);
      if Matches(log[|log| - 1], r, k) then front + [log[|log| - 1]] else front
  }

  function StatusEvent(o: Observation): Option<Event> {
    if o.PassedStatus() && o.status.Some? && o.eventId.Some? && o.eventHash.Some?
       && o.sequence.Some? && o.recordedAt.Some?
    then Some(Event(o.status.value, o.eventId.value, o.eventHash.value, o.previousHash,
                    o.sequence.value, o.recordedAt.value))
    else None
  }

  /** The provider events among a chain of observations. */
  function EventsOf(chain: seq<Entry>): seq<Event>
    decreases |chain|
  {
    if chain == [] then []
    else
      var front := EventsOf(chain[..|chain| - 1]);
      var e := StatusEvent(chain[|chain| - 1].observation);
      if e.Some? then front + [e.value] else front
  }

  function History(log: Log, r: Id): seq<Event> {
    EventsOf(Chain(log, r, ReleaseStatus))
  }

  predicate PublishedStatus(o: Observation) {
    o.PassedStatus() && o.status == Some(Published)
  }

  predicate AuthorizedFor(o: Observation, statusId: Id) {
    o.AdmissionObservation? && o.admission == Authorized && o.statusId == statusId
  }

  /* ---- Admissibility ---- */

  predicate Recorded(log: Log, id: Id) {
    exists i :: 0 <= i < |log| && log[i].observation.id == id
  }

  predicate InOrder(log: Log, o: Observation) {
    var head := Head(log, o.releaseId, o.Kind());
    && o.supersedes == HeadId(log, o.releaseId, o.Kind())
    && (head.Some? ==> head.value.observation.observedAt <= o.observedAt)
  }

  function ArtifactIds(artifacts: seq<Artifact>): (ids: seq<Id>) {
    seq(|artifacts|, i requires 0 <= i < |artifacts| => artifacts[i].artifactId)
  }

  predicate FetchJustified(receipts: Receipts, o: Observation)
    requires o.FetchObservation?
  {
    o.result == Passed ==>
      && o.receiptHash.Some? && o.receiptHash.value in receipts
      && var receipt := receipts[o.receiptHash.value].receipt;
         receipt.inputRef.releaseId == o.releaseId && ArtifactIds(receipt.artifacts) == o.artifactIds
  }

  predicate StatusJustified(log: Log, o: Observation)
    requires o.StatusObservation?
  {
    var e := StatusEvent(o);
    e.Some? ==> Replays(History(log, o.releaseId) + [e.value])
  }

  predicate AdmissionJustified(log: Log, o: Observation)
    requires o.AdmissionObservation?
  {
    var status := Head(log, o.releaseId, ReleaseStatus);
    && status.Some? && status.value.observation.id == o.statusId
    && status.value.observation.observedAt <= o.observedAt
    && (o.admission == Authorized ==> PublishedStatus(status.value.observation))
  }

  predicate Justified(receipts: Receipts, log: Log, o: Observation) {
    match o.Kind()
    case ArtifactFetch => FetchJustified(receipts, o)
    case ReleaseStatus => StatusJustified(log, o)
    case ReleaseAdmission => AdmissionJustified(log, o)
  }

  predicate Admissible(refs: Refs, receipts: Receipts, log: Log, o: Observation) {
    && ValidObservation(o)
    && o.releaseId in refs && refs[o.releaseId] == o.inputRef
    && !Recorded(log, o.id)
    && InOrder(log, o)
    && Justified(receipts, log, o)
  }

  predicate CoherentAt(refs: Refs, receipts: Receipts, log: Log, n: nat)
    requires n < |log|
  {
    Admissible(refs, receipts, log[..n], log[n].observation)
    && log[n].observation.observedAt <= log[n].persistedAt
  }

  /** Every entry was admissible when it was appended. */
  predicate LogCoherent(refs: Refs, receipts: Receipts, log: Log) {
    forall n :: 0 <= n < |log| ==> CoherentAt(refs, receipts, log, n)
  }

  /* ---- Appending keeps coherence ---- */

  lemma CoherentGrows(refs: Refs, receipts: Receipts, refs': Refs, receipts': Receipts, log: Log)
    requires LogCoherent(refs, receipts, log) && Grows(refs, refs') && Grows(receipts, receipts')
    ensures LogCoherent(refs', receipts', log)
  {
    forall n | 0 <= n < |log| ensures CoherentAt(refs', receipts', log, n) {
      assert CoherentAt(refs, receipts, log, n);
    }
  }

  lemma CoherentAppend(refs: Refs, receipts: Receipts, log: Log, e: Entry)
    requires LogCoherent(refs, receipts, log) && Admissible(refs, receipts, log, e.observation)
    requires e.observation.observedAt <= e.persistedAt
    ensures LogCoherent(refs, receipts, log + [e])
  {
    var more := log + [e];
    forall n | 0 <= n < |more| ensures CoherentAt(refs, receipts, more, n) {
      if n < |log| {
        assert more[..n] == log[..n];
        assert CoherentAt(refs, receipts, log, n);
      } else {
        assert more[..n] == log;
      }
    }
  }

  lemma CoherentPrefix(refs: Refs, receipts: Receipts, log: Log, n: nat)
    requires LogCoherent(refs, receipts, log) && n <= |log|
    ensures LogCoherent(refs, receipts, log[..n])
  {
    forall i | 0 <= i < n ensures CoherentAt(refs, receipts, log[..n], i) {
      assert log[..n][..i] == log[..i];
      assert CoherentAt(refs, receipts, log, i);
    }
  }

  lemma IdentifiersDistinct(refs: Refs, receipts: Receipts, log: Log, i: nat, j: nat)
    requires LogCoherent(refs, receipts, log) && i < |log| && j < |log| && i != j
    ensures log[i].observation.id != log[j].observation.id
  {
    var early, late := if i < j then i else j, if i < j then j else i;
    assert CoherentAt(refs, receipts, log, late);
    assert log[..late][early] == log[early];
  }

  /* ---- Heads ---- */

  lemma {:induction false} HeadOfAppend(log: Log, e: Entry, r: Id, k: Kind)
    ensures Head(log + [e], r, k) == if Matches(e, r, k) then Some(e) else Head(log, r, k)
    ensures Chain(log + [e], r, k) == if Matches(e, r, k) then Chain(log, r, k) + [e] else Chain(log, r, k)
  {
    assert (log + [e])[..|log|] == log;
  }

  /** The head is the last matching entry. */
  lemma {:induction false} HeadIsLastMatch(log: Log, r: Id, k: Kind) returns (i: nat)
    requires Head(log, r, k).Some?
    ensures i < |log| && Head(log, r, k) == Some(log[i]) && Matches(log[i], r, k)
    ensures forall j :: i < j < |log| ==> !Matches(log[j], r, k)
    decreases |log|
  {
    i := |log| - 1;
    if !Matches(log[i], r, k) {
      var front := log[..i];
      i := HeadIsLastMatch(front, r, k);
      forall j | i < j < |log| ensures !Matches(log[j], r, k) {
        if j < |front| { assert log[j] == front[j]; }
      }
    }
  }

  predicate Untouched(suffix: Log, r: Id, k: Kind) {
    forall j :: 0 <= j < |suffix| ==> !Matches(suffix[j], r, k)
  }

  lemma {:induction false} HeadUntouched(log: Log, n: nat, r: Id, k: Kind)
    requires n <= |log| && Untouched(log[n..], r, k)
    ensures Head(log, r, k) == Head(log[..n], r, k)
    decreases |log|
  {
    if n < |log| {
      var front := log[..|log| - 1];
      assert log[n..][|log| - 1 - n] == log[|log| - 1];
      assert front[..n] == log[..n];
      assert Untouched(front[n..], r, k) by {
        forall j | 0 <= j < |front[n..]| ensures !Matches(front[n..][j], r, k) {
          assert front[n..][j] == log[n..][j];
        }
      }
      HeadUntouched(front, n, r, k);
    } else {
      assert log[..n] == log;
    }
  }

  /** A head recorded at position n is still the head exactly when nothing matched since. */
  lemma HeadKept(refs: Refs, receipts: Receipts, log: Log, n: nat, r: Id, k: Kind)
    requires LogCoherent(refs, receipts, log) && n <= |log|
    requires HeadId(log[..n], r, k).Some?
    ensures HeadId(log, r, k) == HeadId(log[..n], r, k) <==> Untouched(log[n..], r, k)
  {
    if Untouched(log[n..], r, k) {
      HeadUntouched(log, n, r, k);
    } else {
      var j :| 0 <= j < |log[n..]| && Matches(log[n..][j], r, k);
      assert log[n + j] == log[n..][j];
      HeadExists(log, r, k, n + j);
      var i := HeadIsLastMatch(log, r, k);
      var i' := HeadIsLastMatch(log[..n], r, k);
      assert log[..n][i'] == log[i'];
      IdentifiersDistinct(refs, receipts, log, i, i');
    }
  }

  lemma {:induction false} HeadExists(log: Log, r: Id, k: Kind, i: nat)
    requires i < |log| && Matches(log[i], r, k)
    ensures Head(log, r, k).Some?
    decreases |log|
  {
    if i < |log| - 1 { HeadExists(log[..|log| - 1], r, k, i); }
  }

  /* ---- Chains ---- */

  /** The chain of a release and kind holds exactly the matching entries, in order. */
  lemma {:induction false} ChainMembers(log: Log, r: Id, k: Kind)
    ensures forall e :: e in Chain(log, r, k) <==> e in log && Matches(e, r, k)
    decreases |log|
  {
    if log != [] {
      var front := log[..|log| - 1];
      ChainMembers(front, r, k);
      assert log == front + [log[|log| - 1]];
    }
  }

  lemma {:induction false} ChainLast(log: Log, r: Id, k: Kind)
    ensures Head(log, r, k) ==
            if Chain(log, r, k) == [] then None else Some(Chain(log, r, k)[|Chain(log, r, k)| - 1])
    decreases |log|
  {
    if log != [] { ChainLast(log[..|log| - 1], r, k); }
  }

  /** Every chain element supersedes the one before it and is not older. */
  predicate ChainLinked(chain: seq<Entry>) {
    forall i :: 0 <= i < |chain| ==> ChainLinkAt(chain, i)
  }

  predicate ChainLinkAt(chain: seq<Entry>, i: nat)
    requires i < |chain|
  {
    if i == 0 then chain[0].observation.supersedes.None?
    else
      && chain[i].observation.supersedes == Some(chain[i - 1].observation.id)
      && chain[i - 1].observation.observedAt <= chain[i].observation.observedAt
  }

  lemma LinkAppended(chain: seq<Entry>, e: Entry)
    requires ChainLinked(chain)
    requires if chain == [] then e.observation.supersedes.None?
             else
               && e.observation.supersedes == Some(chain[|chain| - 1].observation.id)
               && chain[|chain| - 1].observation.observedAt <= e.observation.observedAt
    ensures ChainLinked(chain + [e])
  {
    forall i | 0 <= i < |chain| + 1 ensures ChainLinkAt(chain + [e], i) {
      if i < |chain| { assert ChainLinkAt(chain, i); }
    }
  }

  lemma {:induction false} ChainsLinked(refs: Refs, receipts: Receipts, log: Log, r: Id, k: Kind)
    requires LogCoherent(refs, receipts, log)
    ensures ChainLinked(Chain(log, r, k))
    decreases |log|
  {
    if log != [] {
      var n := |log| - 1;
      CoherentPrefix(refs, receipts, log, n);
      ChainsLinked(refs, receipts, log[..n], r, k);
      ChainLast(log[..n], r, k);
      assert CoherentAt(refs, receipts, log, n);
      hide LogCoherent, ChainLinked, ValidObservation, Justified, Recorded;
      if Matches(log[n], r, k) {
        LinkAppended(Chain(log[..n], r, k), log[n]);
      }
    }
  }

  /* ---- Status histories ---- */

  lemma {:induction false} HistoryReplays(refs: Refs, receipts: Receipts, log: Log, r: Id)
    requires LogCoherent(refs, receipts, log)
    ensures Replays(History(log, r))
    decreases |log|
  {
    if log != [] {
      var n := |log| - 1;
      CoherentPrefix(refs, receipts, log, n);
      HistoryReplays(refs, receipts, log[..n], r);
      assert CoherentAt(refs, receipts, log, n);
      var front := Chain(log[..n], r, ReleaseStatus);
      if Matches(log[n], r, ReleaseStatus) {
        assert (front + [log[n]])[..|front|] == front;
      }
    }
  }

  lemma {:induction false} EventsOfMembers(chain: seq<Entry>)
    ensures forall e :: e in EventsOf(chain) <==>
              exists i :: 0 <= i < |chain| && StatusEvent(chain[i].observation) == Some(e)
    decreases |chain|
  {
    if chain != [] {
      var n := |chain| - 1;
      var front := chain[..n];
      EventsOfMembers(front);
      forall e ensures e in EventsOf(chain) <==>
                         exists i :: 0 <= i < |chain| && StatusEvent(chain[i].observation) == Some(e)
      {
        if i :| 0 <= i < |front| && StatusEvent(front[i].observation) == Some(e) {
          assert StatusEvent(chain[i].observation) == Some(e);
        }
        if i :| 0 <= i < |chain| && StatusEvent(chain[i].observation) == Some(e) {
          if i < n { assert StatusEvent(front[i].observation) == Some(e); }
        }
      }
    }
  }

  /** A passed head carries the last event of its release. */
  lemma {:induction false} HeadCarriesLastEvent(log: Log, r: Id)
    requires var h := Head(log, r, ReleaseStatus); h.Some? && StatusEvent(h.value.observation).Some?
    ensures var history := History(log, r);
            history != []
            && StatusEvent(Head(log, r, ReleaseStatus).value.observation) == Some(history[|history| - 1])
    decreases |log|
  {
    var n := |log| - 1;
    if Matches(log[n], r, ReleaseStatus) {
      var front := Chain(log[..n], r, ReleaseStatus);
      assert (front + [log[n]])[..|front|] == front;
    } else {
      HeadCarriesLastEvent(log[..n], r);
    }
  }

  predicate WithdrawnAt(log: Log, r: Id, n: nat) {
    && n < |log|
    && Matches(log[n], r, ReleaseStatus)
    && log[n].observation.PassedStatus() && log[n].observation.status == Some(Withdrawn)
  }

  /** Once a withdrawal is recorded, the release never again counts as published. */
  lemma {:induction false} WithdrawnNeverPublished(refs: Refs, receipts: Receipts, log: Log, r: Id, n: nat)
    requires LogCoherent(refs, receipts, log) && WithdrawnAt(log, r, n)
    ensures var h := Head(log, r, ReleaseStatus); h.Some? && !PublishedStatus(h.value.observation)
  {
    HeadExists(log, r, ReleaseStatus, n);
    var head := Head(log, r, ReleaseStatus).value;
    if PublishedStatus(head.observation) {
      var i := HeadIsLastMatch(log, r, ReleaseStatus);
      assert CoherentAt(refs, receipts, log, i) && CoherentAt(refs, receipts, log, n);
      HistoryReplays(refs, receipts, log, r);
      HeadCarriesLastEvent(log, r);
      var history := History(log, r);
      var withdrawal := StatusEvent(log[n].observation).value;
      ChainMembers(log, r, ReleaseStatus);
      EventsOfMembers(Chain(log, r, ReleaseStatus));
      assert log[n] in Chain(log, r, ReleaseStatus);
      assert withdrawal in history;
      var w :| 0 <= w < |history| && history[w] == withdrawal;
      WithdrawalIsTerminal(history, w, |history| - 1);
    }
  }
}
