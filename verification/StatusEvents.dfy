/**
 The provider status history of one release, judged two ways: by replaying the
 whole history, and by comparing one incoming event with the row that carries
 the largest sequence number.
 */
module StatusEvents {
  import opened Basics
  import opened Contracts

  datatype Event = Event(
    status: ProviderStatus, id: string, hash: Digest, previous: Option<Digest>,
    sequence: int, recordedAt: Time)

  /** What the observation constructor guarantees about a passed event. */
  predicate WellFormed(e: Event) {
    && 1 <= e.sequence
    && (if e.sequence == 1 then e.previous.None? && e.status == Building else e.previous.Some?)
  }

  /* ---- Replay: the reference definition ---- */

  predicate Starts(e: Event) {
    e.sequence == 1 && e.status == Building && e.previous.None?
  }

  predicate Follows(prior: Event, e: Event) {
    || e == prior
    || (&& prior.status != Withdrawn
        && e.sequence == prior.sequence + 1
        && e.previous == Some(prior.hash)
        && prior.recordedAt <= e.recordedAt)
  }

  predicate Clash(a: Event, b: Event) {
    (a.id == b.id || a.hash == b.hash) && a != b
  }

  predicate NoRemap(events: seq<Event>) {
    forall i, j :: 0 <= i < |events| && 0 <= j < |events| ==> !Clash(events[i], events[j])
  }

  predicate Linked(events: seq<Event>) {
    && (events != [] ==> Starts(events[0]))
    && forall i :: 0 < i < |events| ==> Follows(events[i - 1], events[i])
  }

  predicate Replays(events: seq<Event>) {
    Linked(events) && NoRemap(events)
  }

  /* ---- Consequences of replay ---- */

  lemma {:induction false} SequencesAscend(events: seq<Event>, i: nat, j: nat)
    requires Linked(events) && i <= j < |events|
    ensures 1 <= events[i].sequence <= events[j].sequence
    ensures events[i].sequence == events[j].sequence ==> events[i] == events[j]
    ensures events[i].recordedAt <= events[j].recordedAt
    decreases j
  {
    if i < j {
      SequencesAscend(events, i, j - 1);
      assert Follows(events[j - 1], events[j]);
    } else if 0 < j {
      SequencesAscend(events, j - 1, j - 1);
      assert Follows(events[j - 1], events[j]);
    }
  }

  /** Nothing but repetitions of it can follow a withdrawal. */
  lemma {:induction false} WithdrawalIsTerminal(events: seq<Event>, i: nat, j: nat)
    requires Linked(events) && i <= j < |events|
    requires events[i].status == Withdrawn
    ensures events[j] == events[i]
    decreases j - i
  {
    if i < j {
      WithdrawalIsTerminal(events, i, j - 1);
      assert Follows(events[j - 1], events[j]);
    }
  }

  /** Sequence numbers leave no gap: every number up to the last one occurs. */
  lemma {:induction false} SequencesContiguous(events: seq<Event>, n: int)
    requires Linked(events) && events != []
    requires 1 <= n <= events[|events| - 1].sequence
    ensures exists i :: 0 <= i < |events| && events[i].sequence == n
    decreases |events|
  {
    var last := events[|events| - 1];
    if n == last.sequence {
      assert events[|events| - 1].sequence == n;
    } else {
      SequencesAscend(events, 0, |events| - 1);
      assert |events| > 1;
      assert Follows(events[|events| - 2], last);
      var front := events[..|events| - 1];
      SequencesContiguous(front, n);
      var i :| 0 <= i < |front| && front[i].sequence == n;
      assert events[i].sequence == n;
    }
  }

  /* ---- The replay loop ---- */

  /** The two maps of the verifier index the events read so far. */
  ghost predicate Indexes(events: seq<Event>, identities: map<string, Event>, hashes: map<Digest, Event>) {
    && (forall k :: 0 <= k < |events| ==>
          && events[k].id in identities && identities[events[k].id] == events[k]
          && events[k].hash in hashes && hashes[events[k].hash] == events[k])
    && (forall x :: x in identities ==> identities[x] in events && identities[x].id == x)
    && (forall x :: x in hashes ==> hashes[x] in events && hashes[x].hash == x)
  }

  predicate Continues(events: seq<Event>, e: Event) {
    if events == [] then Starts(e) else Follows(events[|events| - 1], e)
  }

  predicate ClashFree(events: seq<Event>, e: Event) {
    forall k :: 0 <= k < |events| ==> !Clash(events[k], e)
  }

  lemma ReplaysSnoc(events: seq<Event>, e: Event)
    ensures Replays(events + [e]) <==> Replays(events) && Continues(events, e) && ClashFree(events, e)
  {
    var more := events + [e];
    assert more[|events|] == e;
    if Replays(more) {
      assert Linked(events) by {
        assert events != [] ==> events[0] == more[0];
        forall i | 0 < i < |events| ensures Follows(events[i - 1], events[i]) {
          assert Follows(more[i - 1], more[i]);
        }
      }
      assert NoRemap(events) by {
        forall i, j | 0 <= i < |events| && 0 <= j < |events| ensures !Clash(events[i], events[j]) {
          assert !Clash(more[i], more[j]);
        }
      }
      assert Continues(events, e) by {
        if events != [] { assert Follows(more[|events| - 1], more[|events|]); }
      }
      forall k | 0 <= k < |events| ensures !Clash(events[k], e) {
        assert !Clash(more[k], more[|events|]);
      }
    }
    if Replays(events) && Continues(events, e) && ClashFree(events, e) {
      forall i | 0 < i < |more| ensures Follows(more[i - 1], more[i]) {
        if i < |events| { assert Follows(events[i - 1], events[i]); }
      }
      forall i, j | 0 <= i < |more| && 0 <= j < |more| ensures !Clash(more[i], more[j]) {
        if i < |events| && j < |events| { assert !Clash(events[i], events[j]); }
      }
    }
  }

  lemma {:induction false} ReplaysPrefix(events: seq<Event>, n: nat)
    requires n <= |events| && Replays(events)
    ensures Replays(events[..n])
    decreases |events| - n
  {
    if n < |events| {
      ReplaysPrefix(events, n + 1);
      assert events[..n + 1] == events[..n] + [events[n]];
      ReplaysSnoc(events[..n], events[n]);
    } else {
      assert events[..n] == events;
    }
  }

  lemma IndexesSnoc(events: seq<Event>, e: Event, identities: map<string, Event>, hashes: map<Digest, Event>)
    requires Indexes(events, identities, hashes)
    ensures ClashFree(events, e) <==>
              && (e.id in identities ==> identities[e.id] == e)
              && (e.hash in hashes ==> hashes[e.hash] == e)
    ensures ClashFree(events, e) ==> Indexes(events + [e], identities[e.id := e], hashes[e.hash := e])
  {
    if e.id in identities && identities[e.id] != e {
      var k :| 0 <= k < |events| && events[k] == identities[e.id];
      assert Clash(events[k], e);
    }
    if e.hash in hashes && hashes[e.hash] != e {
      var k :| 0 <= k < |events| && events[k] == hashes[e.hash];
      assert Clash(events[k], e);
    }
    if ClashFree(events, e) {
      forall k | 0 <= k < |events| ensures events[k].id == e.id || events[k].hash == e.hash ==> events[k] == e {
        assert !Clash(events[k], e);
      }
    }
  }

  lemma EmptyReplays()
    ensures Replays([]) && Indexes([], map[], map[])
  {
  }

  /** Folds over the history with the three accumulators of the replay verifier. */
  method ReplayEvents(events: seq<Event>) returns (ok: bool)
    ensures ok <==> Replays(events)
  {
    hide Replays, Indexes, ClashFree;
    EmptyReplays();
    var latest: Option<Event> := None;
    var identities: map<string, Event> := map[];
    var hashes: map<Digest, Event> := map[];
    var n := 0;
    assert events[..n] == [];
    while n < |events|
      invariant 0 <= n <= |events|
      invariant latest == if n == 0 then None else Some(events[n - 1])
      invariant Indexes(events[..n], identities, hashes)
      invariant Replays(events[..n])
    {
      var e := events[n];
      ghost var before := events[..n];
      assert before != [] ==> before[|before| - 1] == events[n - 1];
      assert events[..n + 1] == before + [e];
      ReplaysSnoc(before, e);
      IndexesSnoc(before, e, identities, hashes);
      if Replays(events) { ReplaysPrefix(events, n + 1); }
      if e.id in identities && identities[e.id] != e { return false; }
      if e.hash in hashes && hashes[e.hash] != e { return false; }
      identities := identities[e.id := e];
      hashes := hashes[e.hash := e];
      if latest.None? {
        if e.sequence != 1 || e.status != Building || e.previous.Some? { return false; }
      } else if e != latest.value {
        var prior := latest.value;
        if prior.status == Withdrawn { return false; }
        if e.sequence != prior.sequence + 1 { return false; }
        if e.previous != Some(prior.hash) { return false; }
        if e.recordedAt < prior.recordedAt { return false; }
      }
      latest := Some(e);
      n := n + 1;
    }
    assert events[..n] == events;
    ok := true;
  }

  /* ---- The incremental validator ---- */

  /** One row of the status table, as selected for a release. */
  datatype EventRow = EventRow(event: Event, observedAt: Time)

  predicate Precedes(a: EventRow, b: EventRow) {
    a.event.sequence < b.event.sequence
    || (a.event.sequence == b.event.sequence && a.observedAt <= b.observedAt)
  }

  /** The rows hold exactly the events of the history, in any order and number. */
  ghost predicate RowsOf(rows: seq<EventRow>, history: seq<Event>) {
    && (forall k :: 0 <= k < |rows| ==> rows[k].event in history)
    && (forall i :: 0 <= i < |history| ==> exists k :: 0 <= k < |rows| && rows[k].event == history[i])
  }

  /** The row an ORDER BY on descending sequence, then observation time, puts first. */
  method LatestRow(rows: seq<EventRow>) returns (prior: Option<EventRow>)
    ensures prior.None? <==> rows == []
    ensures prior.Some? ==> prior.value in rows && forall k :: 0 <= k < |rows| ==> Precedes(rows[k], prior.value)
  {
    prior := None;
    for n := 0 to |rows|
      invariant prior.None? <==> n == 0
      invariant prior.Some? ==> prior.value in rows[..n] && forall k :: 0 <= k < n ==> Precedes(rows[k], prior.value)
    {
      if prior.None? || Precedes(prior.value, rows[n]) { prior := Some(rows[n]); }
    }
  }

  method IdentityRemapped(rows: seq<EventRow>, e: Event) returns (remapped: bool)
    ensures remapped <==> exists k :: 0 <= k < |rows| && Clash(rows[k].event, e)
  {
    for n := 0 to |rows|
      invariant forall k :: 0 <= k < n ==> !Clash(rows[k].event, e)
    {
      if (rows[n].event.id == e.id || rows[n].event.hash == e.hash) && rows[n].event != e {
        return true;
      }
    }
    return false;
  }

  /**
   Accepts a new passed event from the row with the largest sequence alone. On
   any history that replays, this agrees with replaying the extended history.
   */
  method ValidateEvent(rows: seq<EventRow>, e: Event, ghost history: seq<Event>) returns (ok: bool)
    requires Replays(history) && RowsOf(rows, history) && WellFormed(e)
    ensures ok <==> Replays(history + [e])
  {
    ReplaysSnoc(history, e);
    ClashesInRows(rows, history, e);
    var remapped := IdentityRemapped(rows, e);
    if remapped { return false; }
    assert history != [] ==> exists k :: 0 <= k < |rows| && rows[k].event == history[0];
    var latest := LatestRow(rows);
    if latest.None? {
      ok := e.sequence == 1;
      return;
    }
    var prior := latest.value.event;
    LatestIsLast(rows, history, latest.value);
    if e.sequence < prior.sequence { return false; }
    if e.sequence == prior.sequence { return e == prior; }
    if prior.status == Withdrawn { return false; }
    if e.sequence != prior.sequence + 1 { return false; }
    if e.previous.None? || e.previous.value != prior.hash { return false; }
    ok := prior.recordedAt <= e.recordedAt;
  }

  lemma LatestIsLast(rows: seq<EventRow>, history: seq<Event>, row: EventRow)
    requires Replays(history) && RowsOf(rows, history)
    requires row in rows && forall k :: 0 <= k < |rows| ==> Precedes(rows[k], row)
    ensures history != [] && row.event == history[|history| - 1]
  {
    assert row.event in history;
    var i :| 0 <= i < |history| && history[i] == row.event;
    var last := history[|history| - 1];
    var k :| 0 <= k < |rows| && rows[k].event == last;
    assert Precedes(rows[k], row);
    SequencesAscend(history, i, |history| - 1);
  }

  lemma ClashesInRows(rows: seq<EventRow>, history: seq<Event>, e: Event)
    requires RowsOf(rows, history)
    ensures ClashFree(history, e) <==> !exists k :: 0 <= k < |rows| && Clash(rows[k].event, e)
  {
    if k :| 0 <= k < |rows| && Clash(rows[k].event, e) {
      assert rows[k].event in history;
    }
    forall i | 0 <= i < |history| && Clash(history[i], e)
      ensures exists k :: 0 <= k < |rows| && Clash(rows[k].event, e)
    {
      var k :| 0 <= k < |rows| && rows[k].event == history[i];
      assert Clash(rows[k].event, e);
    }
  }
}
