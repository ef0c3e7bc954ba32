/**
 The provider's hash-linked status history: each event carries its own hash and
 that of its predecessor. Three readers check the chain, each in its own loop
 behind the schema of its input.
 */
module StatusHistory {
  import opened Basics
  import opened Contracts
  import opened CanonicalJson
  import opened JsonEquality
  import opened ProviderCanonical
  import opened StatusSchema

  /* ---- Reading events ---- */

  /** A digest object. One reader checks only the length of the value. */
  function DigestIn(strict: bool, v: Json): Option<string> {
    if v.Obj? && v.members.Keys == {"algorithm", "value"} && v.members["algorithm"] == Str("sha256")
       && v.members["value"].Str?
       && (if strict then IsSha256(v.members["value"].s) else |v.members["value"].s| == 64)
    then Some(v.members["value"].s)
    else None
  }

  /** The program compares the position with an integer: true is 1, and 2.0 is 2. */
  predicate SequenceIs(v: Json, n: nat) {
    JsonEqual(v, Int(n))
  }

  /** The predecessor's hash, absent or present; nothing when it is malformed. */
  function LinkIn(strict: bool, e: Json): Option<Option<string>> {
    var v := Member(e, "previous_event_hash");
    if v.Null? then Some(None)
    else
      var d :- DigestIn(strict, v);
      Some(Some(d))
  }

  function DeclaredIn(strict: bool, e: Json): Option<string> {
    DigestIn(strict, Member(e, "event_hash"))
  }

  const EVENT_HASH := "event_hash"

  /** The event without its own hash, in normal form. */
  function NormalUnsigned(nfc: Nfc, e: Json): Option<Json>
    requires e.Obj?
  {
    TreeNormal(nfc, Obj(e.members - {EVENT_HASH}))
  }

  predicate SelfHashed(hash: TextSha, nfc: Nfc, e: Json, declared: string)
    requires e.Obj?
  {
    var unsigned := NormalUnsigned(nfc, e);
    unsigned.Some? && hash(Print(unsigned.value)) == declared
  }

  /** The event at a place: its identity, its link and its own hash. */
  predicate EventFits(hash: TextSha, nfc: Nfc, strict: bool, release: Id, events: seq<Json>, i: nat)
    requires i < |events|
  {
    var e := events[i];
    && e.Obj? && Member(e, "release_id") == Str(release) && SequenceIs(Member(e, "sequence"), i + 1)
    && LinkIn(strict, e) == Some(if i == 0 then None else DeclaredIn(strict, events[i - 1]))
    && DeclaredIn(strict, e).Some? && SelfHashed(hash, nfc, e, DeclaredIn(strict, e).value)
  }

  predicate ValidChain(hash: TextSha, nfc: Nfc, strict: bool, release: Id, events: seq<Json>) {
    forall i :: 0 <= i < |events| ==> EventFits(hash, nfc, strict, release, events, i)
  }

  function Last(events: seq<Json>): Json
    requires events != []
  {
    events[|events| - 1]
  }

  /* ---- The three loops ---- */

  /** The export reader: digests are checked by length only; the events are objects. */
  method ExportChain(hash: TextSha, nfc: Nfc, release: Id, events: seq<Json>) returns (head: Option<Json>)
    requires events != [] && forall i :: 0 <= i < |events| ==> events[i].Obj?
    ensures head.Some? <==> ValidChain(hash, nfc, false, release, events)
    ensures head.Some? ==> head.value == events[|events| - 1]
  {
    hide DigestIn, SelfHashed, SequenceIs, JsonEqual;
    var prior: Option<string> := None;
    for i := 0 to |events|
      invariant forall j :: 0 <= j < i ==> EventFits(hash, nfc, false, release, events, j)
      invariant prior == if i == 0 then None else DeclaredIn(false, events[i - 1])
    {
      var e := events[i];
      if Member(e, "release_id") != Str(release) || !SequenceIs(Member(e, "sequence"), i + 1) {
        assert !EventFits(hash, nfc, false, release, events, i);
        return None;
      }
      var link := LinkIn(false, e);
      if link != Some(prior) {
        assert !EventFits(hash, nfc, false, release, events, i);
        return None;
      }
      var declared := DeclaredIn(false, e);
      if declared.None? || !SelfHashed(hash, nfc, e, declared.value) {
        assert !EventFits(hash, nfc, false, release, events, i);
        return None;
      }
      prior := declared;
    }
    head := Some(events[|events| - 1]);
  }

  /** A complete chain whose last event is the declared head. */
  predicate HistoryClosed(hash: TextSha, nfc: Nfc, release: Id, data: Json) {
    && Member(data, "events").Arr? && Member(data, "events").items != []
    && ValidChain(hash, nfc, true, release, Member(data, "events").items)
    && JsonEqual(Member(data, "current_status_event"), Last(Member(data, "events").items))
  }

  predicate HeadPublished(data: Json) {
    && Member(data, "current_status_event").Obj?
    && Member(Member(data, "current_status_event"), "status") == Str("published")
  }

  /** The HTTP reader: the whole response data, whose head must equal the last event. */
  method HttpChain(hash: TextSha, nfc: Nfc, release: Id, data: Json) returns (ok: bool)
    ensures ok <==> HistoryClosed(hash, nfc, release, data)
  {
    hide DigestIn, SelfHashed, SequenceIs, JsonEqual;
    if !Member(data, "events").Arr? { return false; }
    var events := Member(data, "events").items;
    if events == [] { return false; }
    var previous: Option<string> := None;
    for i := 0 to |events|
      invariant forall j :: 0 <= j < i ==> EventFits(hash, nfc, true, release, events, j)
      invariant previous == if i == 0 then None else DeclaredIn(true, events[i - 1])
    {
      var e := events[i];
      if !e.Obj? || Member(e, "release_id") != Str(release) || !SequenceIs(Member(e, "sequence"), i + 1) {
        assert !EventFits(hash, nfc, true, release, events, i);
        return false;
      }
      if LinkIn(true, e) != Some(previous) {
        assert !EventFits(hash, nfc, true, release, events, i);
        return false;
      }
      var declared := DeclaredIn(true, e);
      if declared.None? || !SelfHashed(hash, nfc, e, declared.value) {
        assert !EventFits(hash, nfc, true, release, events, i);
        return false;
      }
      previous := declared;
    }
    ok := JsonEqual(Member(data, "current_status_event"), Last(events));
  }

  /** The evidence reader: as the HTTP reader, and the head must be a published object. */
  method EvidenceChain(hash: TextSha, nfc: Nfc, release: Id, data: Json) returns (ok: bool)
    ensures ok <==> HistoryClosed(hash, nfc, release, data) && HeadPublished(data)
  {
    hide DigestIn, SelfHashed, SequenceIs, JsonEqual;
    if !Member(data, "events").Arr? { return false; }
    var events := Member(data, "events").items;
    var head := Member(data, "current_status_event");
    if events == [] || !head.Obj? { return false; }
    var previous: Option<string> := None;
    var i := 0;
    while i < |events|
      invariant 0 <= i <= |events|
      invariant forall j :: 0 <= j < i ==> EventFits(hash, nfc, true, release, events, j)
      invariant previous == if i == 0 then None else DeclaredIn(true, events[i - 1])
    {
      var e := events[i];
      ghost var fits := EventFits(hash, nfc, true, release, events, i);
      if !e.Obj? { return false; }
      if Member(e, "release_id") != Str(release) || !SequenceIs(Member(e, "sequence"), i + 1) { return false; }
      if LinkIn(true, e) != Some(previous) { return false; }
      var declared := DeclaredIn(true, e);
      if declared.None? { return false; }
      if !SelfHashed(hash, nfc, e, declared.value) { return false; }
      previous := declared;
      i := i + 1;
    }
    ok := JsonEqual(head, Last(events)) && Member(head, "status") == Str("published");
  }

  /* ---- The loops accept the same lists ---- */

  /** The hashes of these events are lowercase hexadecimal SHA-256 texts. */
  ghost predicate HexHashes(hash: TextSha, nfc: Nfc, events: seq<Json>) {
    forall i :: 0 <= i < |events| && events[i].Obj? && NormalUnsigned(nfc, events[i]).Some? ==>
      IsSha256(hash(Print(NormalUnsigned(nfc, events[i]).value)))
  }

  lemma DigestLoose(v: Json)
    ensures DigestIn(true, v).Some? ==> DigestIn(false, v) == DigestIn(true, v)
    ensures DigestIn(false, v).Some? && IsSha256(DigestIn(false, v).value) ==> DigestIn(true, v) == DigestIn(false, v)
  {
  }

  lemma StrictFits(hash: TextSha, nfc: Nfc, release: Id, events: seq<Json>, i: nat)
    requires HexHashes(hash, nfc, events) && i < |events| && EventFits(hash, nfc, false, release, events, i)
    requires i > 0 ==> EventFits(hash, nfc, false, release, events, i - 1)
    ensures EventFits(hash, nfc, true, release, events, i)
  {
    hide DigestIn, SequenceIs;
    DigestLoose(Member(events[i], "event_hash"));
    DigestLoose(Member(events[i], "previous_event_hash"));
    if i > 0 { DigestLoose(Member(events[i - 1], "event_hash")); }
  }

  lemma LooseFits(hash: TextSha, nfc: Nfc, release: Id, events: seq<Json>, i: nat)
    requires i < |events| && EventFits(hash, nfc, true, release, events, i)
    requires i > 0 ==> EventFits(hash, nfc, true, release, events, i - 1)
    ensures EventFits(hash, nfc, false, release, events, i)
  {
    hide DigestIn, SequenceIs;
    DigestLoose(Member(events[i], "event_hash"));
    DigestLoose(Member(events[i], "previous_event_hash"));
    if i > 0 { DigestLoose(Member(events[i - 1], "event_hash")); }
  }

  /** A chain whose digests are spelled correctly is one for the reader that checks their length. */
  lemma StrictIsLoose(hash: TextSha, nfc: Nfc, release: Id, events: seq<Json>)
    requires ValidChain(hash, nfc, true, release, events)
    ensures ValidChain(hash, nfc, false, release, events)
    ensures forall i :: 0 <= i < |events| ==> DeclaredIn(false, events[i]) == DeclaredIn(true, events[i])
  {
    hide DigestIn, SequenceIs, SelfHashed;
    forall i | 0 <= i < |events|
      ensures EventFits(hash, nfc, false, release, events, i) && DeclaredIn(false, events[i]) == DeclaredIn(true, events[i])
    {
      assert EventFits(hash, nfc, true, release, events, i);
      if i > 0 { assert EventFits(hash, nfc, true, release, events, i - 1); }
      LooseFits(hash, nfc, release, events, i);
      DigestLoose(Member(events[i], EVENT_HASH));
    }
  }

  /**
   Checking digests by length or by their full syntax makes no difference to a
   chain, so the three loops accept the same event lists.
   */
  lemma ReadersAgree(hash: TextSha, nfc: Nfc, release: Id, events: seq<Json>)
    requires HexHashes(hash, nfc, events)
    ensures ValidChain(hash, nfc, false, release, events) <==> ValidChain(hash, nfc, true, release, events)
  {
    hide EventFits;
    if ValidChain(hash, nfc, false, release, events) {
      forall i | 0 <= i < |events| ensures EventFits(hash, nfc, true, release, events, i) {
        StrictFits(hash, nfc, release, events, i);
      }
    }
    if ValidChain(hash, nfc, true, release, events) { StrictIsLoose(hash, nfc, release, events); }
  }

  /* ---- What the loops alone say of one head hash ---- */

  /** A plainly named member of the event is the member of its normal form. */
  lemma MemberOfNormal(nfc: Nfc, e: Json, name: string)
    requires PlainFixed(nfc) && e.Obj? && NormalUnsigned(nfc, e).Some? && IsPlain(name) && name != EVENT_HASH
    ensures var u := NormalUnsigned(nfc, e).value;
            && u.Obj?
            && (name in u.members <==> name in e.members)
            && (name in e.members ==> TreeNormal(nfc, e.members[name]) == Some(u.members[name]))
  {
    var unsigned := Obj(e.members - {EVENT_HASH});
    var u := NormalUnsigned(nfc, e).value;
    assert nfc(name) == name;
    hide IsPlain;
    if name in e.members { NormalMember(nfc, unsigned, name); }
    if name in u.members {
      var k := NormalKey(nfc, unsigned, name);
      assert nfc(k) == name;
    }
  }

  lemma SequenceUnique(v: Json, m: nat, n: nat)
    requires SequenceIs(v, m) && SequenceIs(v, n)
    ensures m == n
  {
    if v.Real? { FloatUnique(v.repr, m, n); }
  }

  /** A sequence number is its own normal form, and nothing else has it. */
  lemma {:induction false} SequenceKept(nfc: Nfc, v: Json, w: Json, n: nat)
    requires SequenceIs(v, n) && TreeNormal(nfc, v) == TreeNormal(nfc, w)
    ensures w == v
  {
  }

  lemma SequencePresent(e: Json, n: nat)
    requires e.Obj? && SequenceIs(Member(e, "sequence"), n)
    ensures "sequence" in e.members
  {
  }

  lemma SameSequence(nfc: Nfc, a: Json, b: Json, m: nat, n: nat)
    requires PlainFixed(nfc) && a.Obj? && b.Obj? && NormalUnsigned(nfc, a).Some?
    requires NormalUnsigned(nfc, a) == NormalUnsigned(nfc, b)
    requires SequenceIs(Member(a, "sequence"), m) && SequenceIs(Member(b, "sequence"), n)
    ensures m == n
  {
    hide NormalUnsigned, PlainFixed, SequenceIs, TreeNormal;
    assert IsPlain("sequence") && "sequence" != EVENT_HASH;
    MemberOfNormal(nfc, a, "sequence");
    MemberOfNormal(nfc, b, "sequence");
    SequencePresent(a, m);
    SequencePresent(b, n);
    SequenceKept(nfc, Member(a, "sequence"), Member(b, "sequence"), m);
    SequenceUnique(Member(a, "sequence"), m, n);
  }

  lemma DigestParts(v: Json)
    requires DigestIn(true, v).Some?
    ensures v.Obj? && "value" in v.members && v.members["value"] == Str(DigestIn(true, v).value)
    ensures IsPlain(DigestIn(true, v).value) && IsPlain("value")
  {
  }

  lemma {:induction false} DigestNormal(nfc: Nfc, v: Json)
    requires PlainFixed(nfc) && DigestIn(true, v).Some? && TreeNormal(nfc, v).Some?
    ensures TreeNormal(nfc, v).value.Obj? && "value" in TreeNormal(nfc, v).value.members
    ensures TreeNormal(nfc, v).value.members["value"] == Str(DigestIn(true, v).value)
  {
    DigestParts(v);
    hide DigestIn, IsPlain;
    assert nfc("value") == "value" && nfc(DigestIn(true, v).value) == DigestIn(true, v).value;
    hide PlainFixed;
    NormalMember(nfc, v, "value");
    assert TreeNormal(nfc, v.members["value"]) == Some(v.members["value"]);
  }

  /** Digest objects with one normal form hold one digest. */
  lemma {:induction false} DigestKept(nfc: Nfc, v: Json, w: Json)
    requires PlainFixed(nfc) && DigestIn(true, v).Some? && TreeNormal(nfc, v) == TreeNormal(nfc, w)
    requires DigestIn(true, w).Some? && TreeNormal(nfc, v).Some?
    ensures DigestIn(true, v) == DigestIn(true, w)
  {
    hide DigestIn, TreeNormal, PlainFixed;
    DigestNormal(nfc, v);
    DigestNormal(nfc, w);
  }

  lemma {:induction false} NullKept(nfc: Nfc, v: Json, w: Json)
    requires TreeNormal(nfc, v) == TreeNormal(nfc, w) && TreeNormal(nfc, v).Some?
    ensures v.Null? <==> w.Null?
  {
  }

  lemma SameLink(nfc: Nfc, a: Json, b: Json)
    requires PlainFixed(nfc) && a.Obj? && b.Obj? && NormalUnsigned(nfc, a).Some?
    requires NormalUnsigned(nfc, a) == NormalUnsigned(nfc, b)
    requires LinkIn(true, a).Some? && LinkIn(true, b).Some?
    ensures LinkIn(true, a) == LinkIn(true, b)
  {
    hide NormalUnsigned, PlainFixed, DigestIn;
    assert IsPlain("previous_event_hash") && "previous_event_hash" != EVENT_HASH;
    hide IsPlain;
    MemberOfNormal(nfc, a, "previous_event_hash");
    MemberOfNormal(nfc, b, "previous_event_hash");
    var v, w := Member(a, "previous_event_hash"), Member(b, "previous_event_hash");
    if "previous_event_hash" in a.members {
      NullKept(nfc, v, w);
      if !v.Null? { DigestKept(nfc, v, w); }
    }
  }

  /** The same declared hash, and the same normal form without it. */
  ghost predicate SameEvent(nfc: Nfc, a: Json, b: Json) {
    a.Obj? && b.Obj? && NormalUnsigned(nfc, a) == NormalUnsigned(nfc, b) && DeclaredIn(true, a) == DeclaredIn(true, b)
  }

  lemma SameNormal(nfc: Nfc, a: Json, b: Json)
    requires SameEvent(nfc, a, b)
    ensures a.Obj? && b.Obj? && NormalUnsigned(nfc, a) == NormalUnsigned(nfc, b)
  {
  }

  lemma SameHashSameEvent(hash: TextSha, nfc: Nfc, a: Json, b: Json)
    requires Injective(hash) && a.Obj? && b.Obj? && DeclaredIn(true, a).Some? && DeclaredIn(true, a) == DeclaredIn(true, b)
    requires SelfHashed(hash, nfc, a, DeclaredIn(true, a).value) && SelfHashed(hash, nfc, b, DeclaredIn(true, b).value)
    ensures SameEvent(nfc, a, b) && NormalUnsigned(nfc, a).Some?
  {
    hide DeclaredIn, NormalUnsigned, Print;
    var x, y := NormalUnsigned(nfc, a).value, NormalUnsigned(nfc, b).value;
    assert Print(x) == Print(y);
    PrintInjective(x, y);
  }

  lemma ChainPrefix(hash: TextSha, nfc: Nfc, strict: bool, release: Id, events: seq<Json>, n: nat)
    requires ValidChain(hash, nfc, strict, release, events) && n <= |events|
    ensures ValidChain(hash, nfc, strict, release, events[..n])
  {
    forall i | 0 <= i < n ensures EventFits(hash, nfc, strict, release, events[..n], i) {
      assert EventFits(hash, nfc, strict, release, events, i);
    }
  }

  lemma {:induction false} StrictHistory(hash: TextSha, nfc: Nfc, release: Id, a: seq<Json>, b: seq<Json>)
    requires Injective(hash) && PlainFixed(nfc)
    requires ValidChain(hash, nfc, true, release, a) && ValidChain(hash, nfc, true, release, b) && a != [] && b != []
    requires DeclaredIn(true, a[|a| - 1]) == DeclaredIn(true, b[|b| - 1])
    ensures |a| == |b| && forall i :: 0 <= i < |a| ==> SameEvent(nfc, a[i], b[i])
    decreases |a|
  {
    hide Injective, PlainFixed, LinkIn, DeclaredIn, SelfHashed, SequenceIs, SameEvent, NormalUnsigned;
    var m, n := |a| - 1, |b| - 1;
    assert EventFits(hash, nfc, true, release, a, m) && EventFits(hash, nfc, true, release, b, n);
    SameHashSameEvent(hash, nfc, a[m], b[n]);
    SameNormal(nfc, a[m], b[n]);
    SameSequence(nfc, a[m], b[n], m + 1, n + 1);
    SameLink(nfc, a[m], b[n]);
    if m > 0 {
      ChainPrefix(hash, nfc, true, release, a, m);
      ChainPrefix(hash, nfc, true, release, b, n);
      assert EventFits(hash, nfc, true, release, a, m - 1);
      StrictHistory(hash, nfc, release, a[..m], b[..n]);
      assert forall i :: 0 <= i < m ==> SameEvent(nfc, a[..m][i], b[..n][i]);
    }
  }

  /** Both readings of a digest agree on the events of a chain whose hashes are hexadecimal. */
  lemma DeclaredAgree(hash: TextSha, nfc: Nfc, strict: bool, release: Id, events: seq<Json>, i: nat)
    requires ValidChain(hash, nfc, strict, release, events) && i < |events|
    requires strict || HexHashes(hash, nfc, events)
    ensures ValidChain(hash, nfc, true, release, events)
    ensures DeclaredIn(true, events[i]).Some? && DeclaredIn(true, events[i]) == DeclaredIn(strict, events[i])
  {
    hide HexHashes, DigestIn, LinkIn, SelfHashed, SequenceIs;
    if !strict { ReadersAgree(hash, nfc, release, events); }
    assert EventFits(hash, nfc, true, release, events, i);
    DigestLoose(Member(events[i], EVENT_HASH));
  }

  /** Two chains that end at the same hash are equally long, event by event the same. */
  lemma SameHeadSameHistory(hash: TextSha, nfc: Nfc, strict: bool, release: Id, a: seq<Json>, b: seq<Json>)
    requires Injective(hash) && PlainFixed(nfc)
    requires ValidChain(hash, nfc, strict, release, a) && ValidChain(hash, nfc, strict, release, b) && a != [] && b != []
    requires strict || (HexHashes(hash, nfc, a) && HexHashes(hash, nfc, b))
    requires DeclaredIn(strict, a[|a| - 1]) == DeclaredIn(strict, b[|b| - 1])
    ensures |a| == |b| && forall i :: 0 <= i < |a| ==> SameEvent(nfc, a[i], b[i])
  {
    hide Injective, PlainFixed, ValidChain, DeclaredIn, SameEvent, HexHashes;
    DeclaredAgree(hash, nfc, strict, release, a, |a| - 1);
    DeclaredAgree(hash, nfc, strict, release, b, |b| - 1);
    StrictHistory(hash, nfc, release, a, b);
  }

  /** A history whose head hash occurs in another is the other's beginning. */
  lemma HeadInsideIsPrefix(hash: TextSha, nfc: Nfc, strict: bool, release: Id, a: seq<Json>, b: seq<Json>, k: nat)
    requires Injective(hash) && PlainFixed(nfc)
    requires ValidChain(hash, nfc, strict, release, a) && ValidChain(hash, nfc, strict, release, b) && a != [] && k < |b|
    requires strict || (HexHashes(hash, nfc, a) && HexHashes(hash, nfc, b))
    requires DeclaredIn(strict, a[|a| - 1]) == DeclaredIn(strict, b[k])
    ensures |a| == k + 1 && forall i :: 0 <= i < |a| ==> SameEvent(nfc, a[i], b[i])
  {
    hide Injective, PlainFixed, ValidChain, DeclaredIn, SameEvent;
    ChainPrefix(hash, nfc, strict, release, b, k + 1);
    assert HexHashes(hash, nfc, b) ==> HexHashes(hash, nfc, b[..k + 1]);
    hide HexHashes;
    SameHeadSameHistory(hash, nfc, strict, release, a, b[..k + 1]);
    assert forall i :: 0 <= i <= k ==> b[..k + 1][i] == b[i];
  }

  const CHECKED_FIELDS: set<string> := {"release_id", "sequence", "previous_event_hash", EVENT_HASH}

  /** The fields the readers check as they stand. */
  ghost predicate SameFace(a: Json, b: Json) {
    forall name :: name in CHECKED_FIELDS ==> Member(a, name) == Member(b, name)
  }

  /** The checked fields are all that is read of an event beside its normal form. */
  lemma FaceRead(strict: bool, e: Json, f: Json)
    requires SameFace(e, f)
    ensures LinkIn(strict, e) == LinkIn(strict, f) && DeclaredIn(strict, e) == DeclaredIn(strict, f)
    ensures Member(e, "release_id") == Member(f, "release_id") && Member(e, "sequence") == Member(f, "sequence")
  {
    hide DigestIn, Member;
  }

  lemma FitsAll(hash: TextSha, nfc: Nfc, strict: bool, release: Id, events: seq<Json>)
    requires ValidChain(hash, nfc, strict, release, events)
    ensures forall i :: 0 <= i < |events| ==> EventFits(hash, nfc, strict, release, events, i)
  {
    hide EventFits;
  }

  lemma AllFit(hash: TextSha, nfc: Nfc, strict: bool, release: Id, events: seq<Json>)
    requires forall i :: 0 <= i < |events| ==> EventFits(hash, nfc, strict, release, events, i)
    ensures ValidChain(hash, nfc, strict, release, events)
  {
    hide EventFits;
  }

  lemma FitsObject(hash: TextSha, nfc: Nfc, strict: bool, release: Id, events: seq<Json>, i: nat)
    requires i < |events| && EventFits(hash, nfc, strict, release, events, i)
    ensures events[i].Obj?
  {
  }

  lemma SameEventFits(hash: TextSha, nfc: Nfc, strict: bool, release: Id, a: seq<Json>, b: seq<Json>, i: nat)
    requires i < |a| == |b| && EventFits(hash, nfc, strict, release, a, i)
    requires b[i].Obj? && (a[i].Obj? ==> NormalUnsigned(nfc, a[i]) == NormalUnsigned(nfc, b[i]))
    requires LinkIn(strict, a[i]) == LinkIn(strict, b[i]) && DeclaredIn(strict, a[i]) == DeclaredIn(strict, b[i])
    requires Member(a[i], "release_id") == Member(b[i], "release_id") && Member(a[i], "sequence") == Member(b[i], "sequence")
    requires i > 0 ==> DeclaredIn(strict, a[i - 1]) == DeclaredIn(strict, b[i - 1])
    ensures EventFits(hash, nfc, strict, release, b, i)
  {
    hide NormalUnsigned, SequenceIs, Member, LinkIn, DeclaredIn, Print;
  }

  /**
   The loops alone, without the schema in front of them, can conclude no more than
   that: replacing events by others with the same normal form keeps the chain and
   its head hash.
   */
  lemma SameEventsAlsoValid(hash: TextSha, nfc: Nfc, strict: bool, release: Id, a: seq<Json>, b: seq<Json>)
    requires ValidChain(hash, nfc, strict, release, a) && |b| == |a|
    requires forall i :: 0 <= i < |a| ==>
               b[i].Obj? && SameFace(a[i], b[i]) && (a[i].Obj? ==> NormalUnsigned(nfc, a[i]) == NormalUnsigned(nfc, b[i]))
    ensures ValidChain(hash, nfc, strict, release, b)
    ensures a != [] ==> DeclaredIn(strict, a[|a| - 1]) == DeclaredIn(strict, b[|b| - 1])
  {
    hide *;
    forall i | 0 <= i < |a| ensures DeclaredIn(strict, a[i]) == DeclaredIn(strict, b[i]) {
      FaceRead(strict, a[i], b[i]);
    }
    FitsAll(hash, nfc, strict, release, a);
    forall i | 0 <= i < |b| ensures EventFits(hash, nfc, strict, release, b, i) {
      FaceRead(strict, a[i], b[i]);
      FitsObject(hash, nfc, strict, release, a, i);
      SameEventFits(hash, nfc, strict, release, a, b, i);
    }
    AllFit(hash, nfc, strict, release, b);
  }

  /* ---- One head hash, one history ---- */

  lemma DigestObject(strict: bool, v: Json, w: Json)
    requires DigestIn(strict, v).Some? && DigestIn(strict, v) == DigestIn(strict, w)
    ensures v == w
  {
    forall k | k in v.members ensures v.members[k] == w.members[k] {
      assert k in {"algorithm", "value"};
    }
    assert v.members == w.members;
  }

  lemma DeclaredPresent(strict: bool, e: Json)
    requires e.Obj? && DeclaredIn(strict, e).Some?
    ensures EVENT_HASH in e.members
  {
  }

  /** Every event is in text normal form. */
  predicate AllNormal(nfc: Nfc, events: seq<Json>) {
    forall i :: 0 <= i < |events| ==> IsNormal(nfc, events[i])
  }

  /** Without its own hash an event in normal form is its own normal form. */
  lemma {:induction false} UnsignedFixed(nfc: Nfc, e: Json)
    requires e.Obj? && IsNormal(nfc, e)
    ensures NormalUnsigned(nfc, e) == Some(Obj(e.members - {EVENT_HASH}))
  {
    NormalFixed(nfc, Obj(e.members - {EVENT_HASH}));
  }

  /** Self-hashed events in normal form that declare one hash are identical. */
  lemma {:induction false} NormalEventsIdentical(hash: TextSha, nfc: Nfc, strict: bool, a: Json, b: Json)
    requires Injective(hash) && a.Obj? && b.Obj? && IsNormal(nfc, a) && IsNormal(nfc, b)
    requires DeclaredIn(strict, a).Some? && DeclaredIn(strict, a) == DeclaredIn(strict, b)
    requires SelfHashed(hash, nfc, a, DeclaredIn(strict, a).value) && SelfHashed(hash, nfc, b, DeclaredIn(strict, b).value)
    ensures a == b
  {
    hide IsNormal, DigestIn, Print;
    var x, y := Obj(a.members - {EVENT_HASH}), Obj(b.members - {EVENT_HASH});
    UnsignedFixed(nfc, a);
    UnsignedFixed(nfc, b);
    hide NormalUnsigned;
    assert Print(x) == Print(y);
    PrintInjective(x, y);
    DigestObject(strict, Member(a, EVENT_HASH), Member(b, EVENT_HASH));
    DeclaredPresent(strict, a);
    DeclaredPresent(strict, b);
    hide DeclaredIn;
    forall k | k in a.members ensures k in b.members && b.members[k] == a.members[k] {
      if k != EVENT_HASH { assert k in x.members; }
    }
    forall k | k in b.members ensures k in a.members {
      if k != EVENT_HASH { assert k in y.members; }
    }
    assert a.members == b.members;
  }

  /**
   Histories in normal form that one reader accepts with the same head hash are
   identical, however that reader checks the spelling of digests.
   */
  lemma {:induction false} SameHeadIdentical(hash: TextSha, nfc: Nfc, strict: bool, release: Id, a: seq<Json>, b: seq<Json>)
    requires Injective(hash) && AllNormal(nfc, a) && AllNormal(nfc, b)
    requires ValidChain(hash, nfc, strict, release, a) && ValidChain(hash, nfc, strict, release, b) && a != [] && b != []
    requires DeclaredIn(strict, a[|a| - 1]) == DeclaredIn(strict, b[|b| - 1])
    ensures a == b
    decreases |a|
  {
    hide Injective, LinkIn, DeclaredIn, SelfHashed, SequenceIs, IsNormal;
    var m, n := |a| - 1, |b| - 1;
    assert EventFits(hash, nfc, strict, release, a, m) && EventFits(hash, nfc, strict, release, b, n);
    NormalEventsIdentical(hash, nfc, strict, a[m], b[n]);
    SequenceUnique(Member(a[m], "sequence"), m + 1, n + 1);
    if m > 0 {
      ChainPrefix(hash, nfc, strict, release, a, m);
      ChainPrefix(hash, nfc, strict, release, b, n);
      SameHeadIdentical(hash, nfc, strict, release, a[..m], b[..n]);
    }
    assert a == a[..m] + [a[m]] && b == b[..n] + [b[n]];
  }

  /** A history in normal form whose head hash occurs in another is literally its beginning. */
  lemma HeadInsideIdentical(hash: TextSha, nfc: Nfc, strict: bool, release: Id, a: seq<Json>, b: seq<Json>, k: nat)
    requires Injective(hash) && AllNormal(nfc, a) && AllNormal(nfc, b)
    requires ValidChain(hash, nfc, strict, release, a) && ValidChain(hash, nfc, strict, release, b) && a != [] && k < |b|
    requires DeclaredIn(strict, a[|a| - 1]) == DeclaredIn(strict, b[k])
    ensures a == b[..k + 1]
  {
    hide Injective, ValidChain, DeclaredIn, IsNormal;
    ChainPrefix(hash, nfc, strict, release, b, k + 1);
    SameHeadIdentical(hash, nfc, strict, release, a, b[..k + 1]);
  }

  /* ---- The readers of a response ---- */

  function Events(data: Json): seq<Json>
    requires Member(data, "events").Arr?
  {
    Member(data, "events").items
  }

  function HeadOf(data: Json): Json { Member(data, "current_status_event") }

  /** A response that passes the schema and closes its chain. */
  predicate HistoryAccepted(lib: Library, hash: TextSha, nfc: Nfc, release: Id, data: Json) {
    HistoryAdmitted(lib, data) && HistoryClosed(hash, nfc, release, data)
  }

  method GetStatusHistory(lib: Library, hash: TextSha, nfc: Nfc, release: Id, data: Json) returns (ok: bool)
    ensures ok <==> HistoryAccepted(lib, hash, nfc, release, data)
  {
    hide HistoryAdmitted, HistoryClosed;
    if !HistoryAdmitted(lib, data) { return false; }
    ok := HttpChain(hash, nfc, release, data);
  }

  /** The declared head is the last event, but for the spelling of its position. */
  lemma HeadIsLast(lib: Library, hash: TextSha, nfc: Nfc, release: Id, data: Json)
    requires HistoryAccepted(lib, hash, nfc, release, data)
    ensures HeadOf(data).Obj? && Last(Events(data)).Obj?
    ensures HeadOf(data).members - {"sequence"} == Last(Events(data)).members - {"sequence"}
    ensures forall name :: name != "sequence" ==> Member(HeadOf(data), name) == Member(Last(Events(data)), name)
  {
    hide EventAdmitted, ValidChain, JsonEqual;
    var e, f := HeadOf(data), Last(Events(data));
    EqualEvents(lib, e, f);
    forall name | name != "sequence" ensures Member(e, name) == Member(f, name) {
      assert name in e.members <==> name in e.members - {"sequence"};
      assert name in f.members <==> name in f.members - {"sequence"};
    }
  }

  /** Of accepted responses the evidence reader takes exactly those whose last event is published. */
  lemma EvidenceExact(lib: Library, hash: TextSha, nfc: Nfc, release: Id, data: Json)
    requires HistoryAccepted(lib, hash, nfc, release, data)
    ensures HistoryClosed(hash, nfc, release, data) && HeadPublished(data) <==>
            Member(Last(Events(data)), "status") == Str("published")
  {
    hide HistoryAdmitted, HistoryClosed;
    HeadIsLast(lib, hash, nfc, release, data);
  }

  lemma AdmittedEventsNormal(lib: Library, nfc: Nfc, data: Json)
    requires ProfileFixed(lib, nfc) && HistoryAdmitted(lib, data)
    ensures Member(data, "events").Arr? && AllNormal(nfc, Events(data))
  {
    hide ProfileFixed, EventAdmitted, IsNormal;
    forall i | 0 <= i < |Events(data)| ensures IsNormal(nfc, Events(data)[i]) {
      AdmittedNormal(lib, nfc, Events(data)[i]);
    }
  }

  /**
   Two responses accepted for one release that declare one head hash hold the same
   events, and the same head but for the spelling of its position.
   */
  lemma SameHeadSameResponse(lib: Library, hash: TextSha, nfc: Nfc, release: Id, x: Json, y: Json)
    requires Injective(hash) && ProfileFixed(lib, nfc)
    requires HistoryAccepted(lib, hash, nfc, release, x) && HistoryAccepted(lib, hash, nfc, release, y)
    requires DeclaredIn(true, HeadOf(x)) == DeclaredIn(true, HeadOf(y))
    ensures Events(x) == Events(y)
    ensures HeadOf(x).Obj? && HeadOf(y).Obj? && HeadOf(x).members - {"sequence"} == HeadOf(y).members - {"sequence"}
  {
    hide Injective, ProfileFixed, HistoryAdmitted, AllNormal, ValidChain, JsonEqual, DigestIn;
    HeadIsLast(lib, hash, nfc, release, x);
    HeadIsLast(lib, hash, nfc, release, y);
    AdmittedEventsNormal(lib, nfc, x);
    AdmittedEventsNormal(lib, nfc, y);
    SameHeadIdentical(hash, nfc, true, release, Events(x), Events(y));
  }

  /** A response whose head hash an event of a later response declares holds exactly the events up to that one. */
  lemma HeadInsideResponse(lib: Library, hash: TextSha, nfc: Nfc, release: Id, x: Json, y: Json, k: nat)
    requires Injective(hash) && ProfileFixed(lib, nfc)
    requires HistoryAccepted(lib, hash, nfc, release, x) && HistoryAccepted(lib, hash, nfc, release, y)
    requires k < |Events(y)| && DeclaredIn(true, HeadOf(x)) == DeclaredIn(true, Events(y)[k])
    ensures Events(x) == Events(y)[..k + 1]
  {
    hide Injective, ProfileFixed, HistoryAdmitted, AllNormal, ValidChain, JsonEqual, DigestIn;
    HeadIsLast(lib, hash, nfc, release, x);
    AdmittedEventsNormal(lib, nfc, x);
    AdmittedEventsNormal(lib, nfc, y);
    HeadInsideIdentical(hash, nfc, true, release, Events(x), Events(y), k);
  }

  /* ---- The export file ---- */

  function SplitLines(s: string): (lines: seq<string>)
    ensures lines != []
    decreases |s|
  {
    var n := IndexOf(s, '\n');
    if n < |s| then [s[..n]] + SplitLines(s[n + 1..]) else [s]
  }

  /** The lines, each with its line feed. */
  function Terminated(lines: seq<string>): string {
    if lines == [] then "" else lines[0] + "\n" + Terminated(lines[1..])
  }

  /** No text is lost in splitting. */
  lemma {:induction false} SplitTerminated(s: string)
    ensures Terminated(SplitLines(s)) == s + "\n"
    decreases |s|
  {
    var n := IndexOf(s, '\n');
    if n < |s| {
      SplitTerminated(s[n + 1..]);
      assert SplitLines(s)[1..] == SplitLines(s[n + 1..]);
      assert s == s[..n] + "\n" + s[n + 1..];
      assert Terminated(SplitLines(s)) == s[..n] + "\n" + (s[n + 1..] + "\n");
    } else {
      assert SplitLines(s)[1..] == [];
    }
  }

  /** Every line ends in a line feed, and no carriage return occurs. */
  predicate Framed(content: string) {
    content != "" && content[|content| - 1] == '\n' && '\r' !in content
  }

  function LinesOf(content: string): seq<string>
    requires Framed(content)
  {
    SplitLines(content[..|content| - 1])
  }

  lemma SameLinesSameContent(x: string, y: string)
    requires Framed(x) && Framed(y) && LinesOf(x) == LinesOf(y)
    ensures x == y
  {
    SplitTerminated(x[..|x| - 1]);
    SplitTerminated(y[..|y| - 1]);
    assert x == x[..|x| - 1] + "\n" && y == y[..|y| - 1] + "\n";
  }

  /** A line that holds an admitted event and is its canonical text. */
  predicate CanonicalLine(lib: Library, nfc: Nfc, line: string) {
    var e := Parse(line);
    && e.Some? && e.value.Obj?
    && TreeNormal(nfc, e.value).Some? && Print(TreeNormal(nfc, e.value).value) == line
    && EventAdmitted(lib, e.value)
  }

  predicate FileAdmitted(lib: Library, nfc: Nfc, content: string) {
    Framed(content) && forall i :: 0 <= i < |LinesOf(content)| ==> CanonicalLine(lib, nfc, LinesOf(content)[i])
  }

  /** The events are what the lines hold, in order. */
  ghost predicate HoldsEvents(content: string, events: seq<Json>) {
    && Framed(content) && |events| == |LinesOf(content)|
    && forall i :: 0 <= i < |events| ==> Parse(LinesOf(content)[i]) == Some(events[i])
  }

  /** Reads the events of an export file, one canonical line each. */
  method ExportEvents(lib: Library, nfc: Nfc, content: string) returns (r: Option<seq<Json>>)
    ensures r.Some? <==> FileAdmitted(lib, nfc, content)
    ensures r.Some? ==> HoldsEvents(content, r.value)
  {
    hide Parse, Print, TreeNormal, EventAdmitted;
    if content == "" || content[|content| - 1] != '\n' || '\r' in content { return None; }
    var lines := LinesOf(content);
    var events: seq<Json> := [];
    for i := 0 to |lines|
      invariant |events| == i
      invariant forall j :: 0 <= j < i ==> CanonicalLine(lib, nfc, lines[j]) && Parse(lines[j]) == Some(events[j])
    {
      var e := Parse(lines[i]);
      if e.None? || !e.value.Obj? { return None; }
      var normal := TreeNormal(nfc, e.value);
      if normal.None? || Print(normal.value) != lines[i] || !EventAdmitted(lib, e.value) { return None; }
      events := events + [e.value];
    }
    r := Some(events);
  }

  /** What a canonical line holds is in normal form and prints as that line. */
  lemma CanonicalLineNormal(lib: Library, nfc: Nfc, line: string)
    requires ProfileFixed(lib, nfc) && CanonicalLine(lib, nfc, line)
    ensures IsNormal(nfc, Parse(line).value) && Print(Parse(line).value) == line
  {
    hide Parse, Print, TreeNormal, IsNormal, EventAdmitted, ProfileFixed;
    AdmittedNormal(lib, nfc, Parse(line).value);
    NormalFixed(nfc, Parse(line).value);
  }

  /** A file that passes the schema and closes its chain, and its events. */
  ghost predicate FileAccepted(lib: Library, hash: TextSha, nfc: Nfc, release: Id, content: string, events: seq<Json>) {
    && FileAdmitted(lib, nfc, content) && HoldsEvents(content, events) && events != []
    && ValidChain(hash, nfc, false, release, events)
  }

  lemma FileEventsNormal(lib: Library, hash: TextSha, nfc: Nfc, release: Id, content: string, events: seq<Json>)
    requires ProfileFixed(lib, nfc) && FileAccepted(lib, hash, nfc, release, content, events)
    ensures AllNormal(nfc, events)
    ensures forall i :: 0 <= i < |events| ==> Print(events[i]) == LinesOf(content)[i]
  {
    hide Parse, Print, IsNormal, CanonicalLine, ProfileFixed, ValidChain;
    forall i | 0 <= i < |events| ensures IsNormal(nfc, events[i]) && Print(events[i]) == LinesOf(content)[i] {
      CanonicalLineNormal(lib, nfc, LinesOf(content)[i]);
    }
  }

  /** Two export files accepted with one head hash are the same, character by character. */
  lemma SameHeadSameFile(lib: Library, hash: TextSha, nfc: Nfc, release: Id, x: string, y: string, a: seq<Json>, b: seq<Json>)
    requires Injective(hash) && ProfileFixed(lib, nfc)
    requires FileAccepted(lib, hash, nfc, release, x, a) && FileAccepted(lib, hash, nfc, release, y, b)
    requires DeclaredIn(false, Last(a)) == DeclaredIn(false, Last(b))
    ensures x == y
  {
    hide Injective, ProfileFixed, FileAdmitted, AllNormal, ValidChain, DeclaredIn, Parse, Print;
    FileEventsNormal(lib, hash, nfc, release, x, a);
    FileEventsNormal(lib, hash, nfc, release, y, b);
    SameHeadIdentical(hash, nfc, false, release, a, b);
    assert forall i :: 0 <= i < |a| ==> LinesOf(x)[i] == LinesOf(y)[i];
    SameLinesSameContent(x, y);
  }

  /** An export file and a response with one head hash tell one history, though one reader checks digests by length. */
  lemma FileAndResponseAgree(lib: Library, hash: TextSha, nfc: Nfc, release: Id, content: string, events: seq<Json>, data: Json)
    requires Injective(hash) && ProfileFixed(lib, nfc)
    requires FileAccepted(lib, hash, nfc, release, content, events) && HistoryAccepted(lib, hash, nfc, release, data)
    requires DeclaredIn(false, Last(events)) == DeclaredIn(true, HeadOf(data))
    ensures events == Events(data)
  {
    hide Injective, ProfileFixed, FileAdmitted, HistoryAdmitted, AllNormal, ValidChain, JsonEqual, DigestIn, HoldsEvents;
    HeadIsLast(lib, hash, nfc, release, data);
    FileEventsNormal(lib, hash, nfc, release, content, events);
    AdmittedEventsNormal(lib, nfc, data);
    StrictIsLoose(hash, nfc, release, Events(data));
    SameHeadIdentical(hash, nfc, false, release, events, Events(data));
  }
}
