/**
 What the readers of a status history accept, as literal documents: the ten fields of
 an event, how each event is joined to the one before, and the text of an export file.
 */
module HistoryRules {
  import opened Basics
  import opened Contracts
  import opened Numerals
  import opened CanonicalJson
  import opened JsonEquality
  import opened ProviderCanonical
  import opened StatusSchema
  import opened StatusHistory
  import opened ContractRules

  /* ---- Texts ---- */

  /** The schema's patterns also match in front of one final line feed. */
  predicate Ends(s: string, body: string -> bool) {
    body(s) || (s != "" && s[|s| - 1] == '\n' && body(s[..|s| - 1]))
  }

  predicate Small(c: char) { 97 <= c as int <= 122 }

  predicate SmallOrDigit(c: char) { 97 <= c as int <= 122 || 48 <= c as int <= 57 }

  predicate SmallOver(s: string, marks: string) {
    forall i :: 0 <= i < |s| ==> SmallOrDigit(s[i]) || s[i] in marks
  }

  predicate EventIdBody(s: string) { s != "" && LetterOrDigit(s[0]) && Over(s, "._:/-") }

  predicate ReleaseBody(s: string) { s != "" && SmallOrDigit(s[0]) && SmallOver(s, "_-") }

  predicate ReasonBody(s: string) { s != "" && Small(s[0]) && SmallOver(s, "_.-") }

  predicate EventIdText(s: string) { |s| <= 256 && Ends(s, EventIdBody) }

  predicate ReleaseText(s: string) { |s| <= 128 && s != "latest" && Ends(s, ReleaseBody) }

  predicate ReasonText(s: string) { |s| <= 128 && Ends(s, ReasonBody) }

  predicate TimestampText(lib: Library, s: string) {
    lib.dateTime(s) && Ends(s, (body: string) => TimestampBody(lib, body))
  }

  /** Six groups of digits between their marks. */
  predicate TimestampBody(lib: Library, s: string) {
    && |s| == 27 && s[4] == '-' && s[7] == '-' && s[10] == 'T' && s[13] == ':' && s[16] == ':' && s[19] == '.' && s[26] == 'Z'
    && forall i :: 0 <= i < 26 && i !in {4, 7, 10, 13, 16, 19} ==> lib.digit(s[i])
  }

  predicate HexText(s: string) {
    |s| == 64 && forall i :: 0 <= i < |s| ==> 48 <= s[i] as int <= 57 || 97 <= s[i] as int <= 102
  }

  lemma EndsExact(s: string, body: string -> bool)
    requires body(s) ==> s != "" && s[|s| - 1] != '\n'
    ensures Ends(s, body) <==> body(Body(s))
    ensures s == "" ==> Body(s) == ""
  {
  }

  lemma EventIdExact(s: string)
    ensures IsEventId(s) <==> EventIdText(s)
  {
    assert EventIdBody(s) ==> s[|s| - 1] != '\n';
    EndsExact(s, EventIdBody);
    hide Body, Ends;
  }

  lemma ReleaseExact(s: string)
    ensures IsSchemaReleaseId(s) <==> ReleaseText(s)
  {
    assert ReleaseBody(s) ==> s[|s| - 1] != '\n';
    EndsExact(s, ReleaseBody);
    hide Body, Ends;
  }

  lemma ReasonExact(s: string)
    ensures IsReason(s) <==> ReasonText(s)
  {
    assert ReasonBody(s) ==> s[|s| - 1] != '\n';
    EndsExact(s, ReasonBody);
    hide Body, Ends;
  }

  lemma ShapeExact(lib: Library, s: string)
    ensures TimestampBody(lib, s) <==>
              |s| == 27 && forall i :: 0 <= i < 27 ==>
                if TIMESTAMP_SHAPE[i] == 'd' then lib.digit(s[i]) else s[i] == TIMESTAMP_SHAPE[i]
  {
    var shape := TIMESTAMP_SHAPE;
    assert shape[4] == '-' && shape[7] == '-' && shape[10] == 'T' && shape[13] == ':' && shape[16] == ':'
           && shape[19] == '.' && shape[26] == 'Z';
    assert forall i :: 0 <= i < 26 && i !in {4, 7, 10, 13, 16, 19} ==> shape[i] == 'd';
  }

  lemma TimestampExact(lib: Library, s: string)
    ensures IsTimestamp(lib, s) <==> TimestampText(lib, s)
  {
    assert |TIMESTAMP_SHAPE| == 27;
    ShapeExact(lib, Body(s));
    EndsExact(s, (body: string) => TimestampBody(lib, body));
    hide Body, Ends, TimestampBody;
  }

  /* ---- Digests and positions ---- */

  function DigestObject(h: string): Json {
    Obj(map["algorithm" := Str("sha256"), "value" := Str(h)])
  }

  lemma HexExact(s: string)
    ensures IsSha256(s) <==> HexText(s)
  {
  }

  lemma DigestForm(v: Json)
    requires v.Obj? && v.members.Keys == {"algorithm", "value"} && v.members["algorithm"] == Str("sha256")
    requires v.members["value"].Str?
    ensures v == DigestObject(v.members["value"].s)
  {
    var m := DigestObject(v.members["value"].s).members;
    assert m.Keys == {"algorithm", "value"};
    forall k | k in v.members ensures m[k] == v.members[k] {}
    assert v.members == m;
  }

  /** Both spellings of the check come to this, behind the schema. */
  lemma DigestExact(strict: bool, v: Json, h: string)
    ensures DigestAdmitted(v) && DigestIn(strict, v) == Some(h) <==> v == DigestObject(h) && HexText(h)
  {
    HexExact(h);
    hide IsSha256;
    assert DigestObject(h).members.Keys == {"algorithm", "value"};
    if DigestAdmitted(v) && DigestIn(strict, v) == Some(h) {
      DigestForm(v);
      if !strict { HexExact(Body(h)); }
    }
    if HexText(h) { assert h[63] != '\n' && Body(h) == h; }
  }

  /** The number itself, or the float that it is. */
  predicate PositionIs(v: Json, n: int) {
    v == Int(n) || (v.Real? && n < 10_000_000_000_000_000 && v.repr == Print(Int(n)) + ".0")
  }

  lemma TenToSixteen()
    ensures Power10(16) == 10_000_000_000_000_000
  {
    assert Power10(4) == 10_000;
    assert Power10(8) == 10_000 * Power10(4);
    assert Power10(12) == 10_000 * Power10(8);
  }

  lemma PositionExact(v: Json, n: nat)
    requires n >= 1
    ensures PositionAdmitted(v) && SequenceIs(v, n) <==> PositionIs(v, n)
  {
    hide Power10, PrintNat, IsWholeFloat;
    TenToSixteen();
    if v.Real? && v.repr == PrintInt(n) + ".0" { WholeText(v.repr, n); }
  }

  lemma WholeText(repr: FloatText, n: nat)
    requires n >= 1 && repr == PrintInt(n) + ".0"
    ensures IsWholeFloat(repr)
  {
    var digits := PrintInt(n);
    hide PrintNat;
    assert repr[0] == digits[0] && IsDigit(digits[0]);
    assert repr[|repr| - 2..] == ".0";
    NatReadBack(n);
    assert repr[..|digits|] == digits;
  }

  /* ---- Events ---- */

  /** The fields that an event has by itself. A withdrawal gives a reason. */
  ghost predicate FieldsForm(lib: Library, m: map<string, Json>) {
    && m.Keys == {"schema_version", "event_id", "release_id", "sequence", "status", "reason_code", "recorded_at",
                  "authority", "previous_event_hash", "event_hash"}
    && m["schema_version"] == Str("1.0.0")
    && m["event_id"].Str? && EventIdText(m["event_id"].s)
    && m["release_id"].Str? && ReleaseText(m["release_id"].s)
    && m["status"].Str? && m["status"].s in {"building", "validated", "published", "withdrawn"}
    && (m["reason_code"].Str? || m["reason_code"].Null?)
    && (m["reason_code"].Str? ==> ReasonText(m["reason_code"].s))
    && (m["status"].s == "withdrawn" ==> m["reason_code"].Str?)
    && m["recorded_at"].Str? && TimestampText(lib, m["recorded_at"].s)
    && AuthorityForm(m["authority"])
  }

  /** A person or a system, and who it is. */
  ghost predicate AuthorityForm(v: Json) {
    && v.Obj? && v.members.Keys == {"type", "principal_id"}
    && v.members["type"].Str? && v.members["type"].s in {"human", "system"}
    && v.members["principal_id"].Str? && EventIdText(v.members["principal_id"].s)
  }

  /** The hash is that of the canonical text of the event without it. */
  ghost predicate OwnHash(hash: TextSha, m: map<string, Json>)
    requires "event_hash" in m
  {
    var h := hash(Print(Obj(m - {"event_hash"})));
    HexText(h) && m["event_hash"] == DigestObject(h)
  }

  /** The first event is building and names no other; every later one repeats the hash of the one before. */
  ghost predicate Joins(events: seq<Json>, i: int, m: map<string, Json>)
    requires 0 <= i < |events| && "status" in m && "previous_event_hash" in m
  {
    if i == 0 then m["status"] == Str("building") && m["previous_event_hash"] == Null
    else
      var before := events[i - 1];
      before.Obj? && "event_hash" in before.members && m["previous_event_hash"] == before.members["event_hash"]
  }

  /** The event at this place. */
  ghost predicate EventStands(lib: Library, hash: TextSha, release: Id, events: seq<Json>, i: int)
    requires 0 <= i < |events|
  {
    && events[i].Obj?
    && var m := events[i].members;
       && FieldsForm(lib, m) && m["release_id"] == Str(release) && PositionIs(m["sequence"], i + 1)
       && Joins(events, i, m) && OwnHash(hash, m)
  }

  /** The schema apart from the two hashes and the position. */
  lemma FieldsExact(lib: Library, e: Json)
    requires e.Obj? && e.members.Keys == EVENT_FIELDS
    ensures EventAdmitted(lib, e) <==>
              && FieldsForm(lib, e.members) && PositionAdmitted(e.members["sequence"])
              && DigestAdmitted(e.members["event_hash"])
              && if JsonEqual(e.members["sequence"], Int(1))
                 then e.members["status"] == Str("building") && e.members["previous_event_hash"].Null?
                 else DigestAdmitted(e.members["previous_event_hash"])
  {
    hide IsEventId, IsSchemaReleaseId, IsReason, IsTimestamp, EventIdText, ReleaseText, ReasonText, TimestampText,
         DigestAdmitted, PositionAdmitted, JsonEqual;
    var m := e.members;
    forall s ensures IsEventId(s) <==> EventIdText(s) { EventIdExact(s); }
    if m["release_id"].Str? { ReleaseExact(m["release_id"].s); }
    if m["reason_code"].Str? { ReasonExact(m["reason_code"].s); }
    if m["recorded_at"].Str? { TimestampExact(lib, m["recorded_at"].s); }
  }

  lemma KeysExact(lib: Library, e: Json)
    ensures EventAdmitted(lib, e) ==> e.Obj? && e.members.Keys == EVENT_FIELDS
    ensures e.Obj? && FieldsForm(lib, e.members) ==> e.members.Keys == EVENT_FIELDS
  {
    hide FieldsConsistent, EventIdText, ReleaseText, ReasonText, TimestampText, AuthorityForm;
  }

  lemma MemberIs(e: Json, name: string)
    requires e.Obj? && name in e.members
    ensures Member(e, name) == e.members[name]
  {
  }

  /** The hash check of an admitted event. */
  lemma SelfExact(lib: Library, hash: TextSha, nfc: Nfc, strict: bool, e: Json)
    requires ProfileFixed(lib, nfc) && EventAdmitted(lib, e) && e.Obj? && "event_hash" in e.members
    ensures DeclaredIn(strict, e).Some? && SelfHashed(hash, nfc, e, DeclaredIn(strict, e).value) <==> OwnHash(hash, e.members)
  {
    hide ProfileFixed, DigestIn, DigestAdmitted, IsNormal, Print, HexText, NormalUnsigned;
    AdmittedNormal(lib, nfc, e);
    UnsignedFixed(nfc, e);
    var h := hash(Print(Obj(e.members - {"event_hash"})));
    MemberIs(e, "event_hash");
    assert DigestAdmitted(e.members["event_hash"]) by { KeysExact(lib, e); FieldsExact(lib, e); }
    hide EventAdmitted;
    DigestExact(strict, e.members["event_hash"], h);
  }

  /** What the loops read of the two hashes. */
  lemma LinkExact(strict: bool, events: seq<Json>, i: nat)
    requires 0 < i < |events| && events[i].Obj? && "previous_event_hash" in events[i].members && "status" in events[i].members
    requires events[i - 1].Obj? && "event_hash" in events[i - 1].members && DigestAdmitted(events[i - 1].members["event_hash"])
    requires DeclaredIn(strict, events[i - 1]).Some?
    ensures DigestAdmitted(events[i].members["previous_event_hash"])
            && LinkIn(strict, events[i]) == Some(DeclaredIn(strict, events[i - 1])) <==>
            Joins(events, i, events[i].members)
  {
    hide DigestIn, DigestAdmitted, HexText;
    MemberIs(events[i], "previous_event_hash");
    MemberIs(events[i - 1], "event_hash");
    var v, w := events[i].members["previous_event_hash"], events[i - 1].members["event_hash"];
    var h := DeclaredIn(strict, events[i - 1]).value;
    DigestExact(strict, w, h);
    DigestExact(strict, v, h);
    NullNoDigest(strict);
  }

  lemma NullNoDigest(strict: bool)
    ensures !DigestAdmitted(Null) && DigestIn(strict, Null) == None
  {
  }

  /** The hash of an event that stands is declared as both readings of a digest have it. */
  lemma StandsDeclares(lib: Library, hash: TextSha, strict: bool, release: Id, events: seq<Json>, i: nat)
    requires i < |events| && EventStands(lib, hash, release, events, i)
    ensures events[i].Obj? && "event_hash" in events[i].members && DigestAdmitted(events[i].members["event_hash"])
    ensures DeclaredIn(strict, events[i]).Some?
  {
    hide FieldsForm, DigestIn, DigestAdmitted, HexText, PositionIs, Print, Joins;
    var m := events[i].members;
    assert "event_hash" in m by { FieldNames(lib, m); }
    MemberIs(events[i], "event_hash");
    DigestExact(strict, m["event_hash"], hash(Print(Obj(m - {"event_hash"}))));
  }

  lemma FieldNames(lib: Library, m: map<string, Json>)
    requires FieldsForm(lib, m)
    ensures m.Keys == EVENT_FIELDS
    ensures forall k :: k in EVENT_FIELDS ==> k in m
  {
    KeysExact(lib, Obj(m));
  }

  lemma {:induction false} NotFirst(i: nat, v: Json)
    requires SequenceIs(v, i + 1)
    ensures JsonEqual(v, Int(1)) <==> i == 0
  {
    hide JsonEqual;
    if JsonEqual(v, Int(1)) { SequenceUnique(v, i + 1, 1); }
  }

  /** Both ways of checking the join of an event to the one before. */
  lemma JoinExact(lib: Library, hash: TextSha, strict: bool, release: Id, events: seq<Json>, i: nat)
    requires i < |events| && events[i].Obj? && "previous_event_hash" in events[i].members && "status" in events[i].members
    requires i > 0 ==> EventStands(lib, hash, release, events, i - 1)
    ensures var m := events[i].members;
            (if i == 0 then m["status"] == Str("building") && m["previous_event_hash"].Null?
             else DigestAdmitted(m["previous_event_hash"]))
            && LinkIn(strict, events[i]) == Some(if i == 0 then None else DeclaredIn(strict, events[i - 1])) <==>
            Joins(events, i, m)
  {
    hide DigestIn, DigestAdmitted, EventStands;
    MemberIs(events[i], "previous_event_hash");
    if i > 0 {
      StandsDeclares(lib, hash, strict, release, events, i - 1);
      LinkExact(strict, events, i);
    }
  }

  lemma FitsStands(lib: Library, hash: TextSha, nfc: Nfc, strict: bool, release: Id, events: seq<Json>, i: nat)
    requires ProfileFixed(lib, nfc) && i < |events|
    requires i > 0 ==> EventStands(lib, hash, release, events, i - 1)
    requires EventAdmitted(lib, events[i]) && EventFits(hash, nfc, strict, release, events, i)
    ensures EventStands(lib, hash, release, events, i)
  {
    hide ProfileFixed, EventAdmitted, FieldsForm, DigestIn, DigestAdmitted, HexText, PositionIs, PositionAdmitted, Joins,
         OwnHash, LinkIn, SelfHashed, SequenceIs, JsonEqual;
    var e := events[i];
    KeysExact(lib, e);
    FieldsExact(lib, e);
    MemberIs(e, "sequence");
    MemberIs(e, "release_id");
    PositionExact(e.members["sequence"], i + 1);
    NotFirst(i, e.members["sequence"]);
    SelfExact(lib, hash, nfc, strict, e);
    JoinExact(lib, hash, strict, release, events, i);
  }

  lemma StandsFits(lib: Library, hash: TextSha, nfc: Nfc, strict: bool, release: Id, events: seq<Json>, i: nat)
    requires ProfileFixed(lib, nfc) && i < |events|
    requires i > 0 ==> EventStands(lib, hash, release, events, i - 1)
    requires EventStands(lib, hash, release, events, i)
    ensures EventAdmitted(lib, events[i]) && EventFits(hash, nfc, strict, release, events, i)
  {
    hide ProfileFixed, EventAdmitted, FieldsForm, DigestIn, DigestAdmitted, HexText, PositionIs, PositionAdmitted, Joins,
         OwnHash, LinkIn, SelfHashed, SequenceIs, JsonEqual;
    var e := events[i];
    KeysExact(lib, e);
    FieldsExact(lib, e);
    MemberIs(e, "sequence");
    MemberIs(e, "release_id");
    PositionExact(e.members["sequence"], i + 1);
    NotFirst(i, e.members["sequence"]);
    StandsDeclares(lib, hash, strict, release, events, i);
    JoinExact(lib, hash, strict, release, events, i);
    SelfExact(lib, hash, nfc, strict, e);
  }

  /** The list is a chain of admitted events, for either reading of a digest, exactly when every event stands. */
  lemma ChainExact(lib: Library, hash: TextSha, nfc: Nfc, strict: bool, release: Id, events: seq<Json>)
    requires ProfileFixed(lib, nfc)
    ensures (forall i :: 0 <= i < |events| ==> EventAdmitted(lib, events[i])) && ValidChain(hash, nfc, strict, release, events) <==>
            forall i :: 0 <= i < |events| ==> EventStands(lib, hash, release, events, i)
  {
    hide ProfileFixed, EventAdmitted, EventFits, EventStands;
    if (forall i :: 0 <= i < |events| ==> EventAdmitted(lib, events[i])) && ValidChain(hash, nfc, strict, release, events) {
      for n := 0 to |events|
        invariant forall i :: 0 <= i < n ==> EventStands(lib, hash, release, events, i)
      {
        FitsStands(lib, hash, nfc, strict, release, events, n);
      }
    }
    if forall i :: 0 <= i < |events| ==> EventStands(lib, hash, release, events, i) {
      forall i | 0 <= i < |events|
        ensures EventAdmitted(lib, events[i]) && EventFits(hash, nfc, strict, release, events, i)
      {
        StandsFits(lib, hash, nfc, strict, release, events, i);
      }
    }
  }

  /* ---- Responses ---- */

  /** The declared head: the last event, whose position may be spelled either way. */
  ghost predicate HeadForm(head: Json, last: Json, n: int) {
    && head.Obj? && last.Obj? && head.members.Keys == last.members.Keys && "sequence" in head.members
    && (forall k :: k in head.members && k != "sequence" ==> head.members[k] == last.members[k])
    && PositionIs(head.members["sequence"], n)
  }

  /** A response names its version and a release, and lists at least one event. */
  ghost predicate ResponseForm(lib: Library, hash: TextSha, release: Id, data: Json) {
    && data.Obj? && data.members.Keys == {"schema_version", "release_id", "current_status_event", "events"}
    && data.members["schema_version"] == Str("1.0.0")
    && data.members["release_id"].Str? && ReleaseText(data.members["release_id"].s)
    && data.members["events"].Arr? && data.members["events"].items != []
    && var events := data.members["events"].items;
       && (forall i :: 0 <= i < |events| ==> EventStands(lib, hash, release, events, i))
       && HeadForm(data.members["current_status_event"], events[|events| - 1], |events|)
  }

  lemma {:induction false} EqualItself(v: Json)
    ensures JsonEqual(v, v)
    decreases v
  {
    match v
    case Arr(items) => forall i | 0 <= i < |items| ensures JsonEqual(items[i], items[i]) { EqualItself(items[i]); }
    case Obj(members) => forall k | k in members ensures JsonEqual(members[k], members[k]) { EqualItself(members[k]); }
    case _ =>
  }

  lemma FloatPosition(n: nat)
    requires n >= 1
    ensures forall v: Json :: v.Real? ==> (FloatIs(v.repr, n) <==> PositionIs(v, n))
  {
    hide Power10, PrintNat;
    TenToSixteen();
  }

  /** Positions are equal exactly when they are the same number. */
  lemma {:induction false} PositionsEqual(v: Json, w: Json, n: nat)
    requires n >= 1 && PositionIs(w, n) && PositionAdmitted(v)
    ensures JsonEqual(v, w) <==> PositionIs(v, n)
  {
    hide Power10, FloatIs, PrintInt;
    FloatPosition(n);
    if v.Int? && w.Real? && FloatIs(w.repr, v.n) { FloatUnique(w.repr, v.n, n); }
    if v.Real? && w.Real? && FloatIs(w.repr, 0) { FloatUnique(w.repr, 0, n); }
  }

  /** Events alike but for the position. */
  ghost predicate AlikeBut(e: Json, f: Json) {
    && e.Obj? && f.Obj? && e.members.Keys == f.members.Keys
    && forall k :: k in e.members && k != "sequence" ==> e.members[k] == f.members[k]
  }

  lemma AlikeFields(lib: Library, e: Json, f: Json)
    requires AlikeBut(e, f) && FieldsForm(lib, f.members)
    ensures FieldsForm(lib, e.members)
  {
    hide EventIdText, ReleaseText, ReasonText, TimestampText, AuthorityForm;
  }

  lemma {:induction false} AlikeEqual(e: Json, f: Json)
    requires AlikeBut(e, f) && ("sequence" in e.members ==> JsonEqual(e.members["sequence"], f.members["sequence"]))
    ensures JsonEqual(e, f)
  {
    forall k | k in e.members ensures JsonEqual(e.members[k], f.members[k]) {
      if k != "sequence" { EqualItself(e.members[k]); }
    }
  }

  lemma {:induction false} PositionFits(v: Json, n: nat)
    requires n >= 1 && PositionIs(v, n)
    ensures PositionAdmitted(v) && SequenceIs(v, n)
    ensures JsonEqual(v, Int(1)) <==> n == 1
  {
    PositionExact(v, n);
    NotFirst(n - 1, v);
  }

  /** An event that is admitted stays so when its position is spelled the other way. */
  lemma AlikeAdmitted(lib: Library, e: Json, f: Json, n: nat)
    requires n >= 1 && AlikeBut(e, f) && EventAdmitted(lib, f) && "sequence" in f.members
    requires PositionIs(e.members["sequence"], n) && PositionIs(f.members["sequence"], n)
    ensures EventAdmitted(lib, e)
  {
    hide EventAdmitted, FieldsForm, DigestAdmitted, PositionIs, PositionAdmitted, JsonEqual, SequenceIs;
    KeysExact(lib, f);
    FieldsExact(lib, f);
    AlikeFields(lib, e, f);
    FieldsExact(lib, e);
    PositionFits(e.members["sequence"], n);
    PositionFits(f.members["sequence"], n);
  }

  lemma {:induction false} HeadExact(lib: Library, head: Json, last: Json, n: nat)
    requires n >= 1 && EventAdmitted(lib, last) && last.Obj? && "sequence" in last.members
    requires PositionIs(last.members["sequence"], n)
    ensures EventAdmitted(lib, head) && JsonEqual(head, last) <==> HeadForm(head, last, n)
  {
    hide EventAdmitted, PositionIs, PositionAdmitted, JsonEqual;
    if EventAdmitted(lib, head) && JsonEqual(head, last) {
      KeysExact(lib, head);
      EqualMembers(head, last);
      EqualEvents(lib, head, last);
      FieldsExact(lib, head);
      PositionsEqual(head.members["sequence"], last.members["sequence"], n);
      forall k | k in head.members && k != "sequence" ensures head.members[k] == last.members[k] {
        assert k in head.members - {"sequence"};
      }
    }
    if HeadForm(head, last, n) {
      AlikeAdmitted(lib, head, last, n);
      PositionFits(head.members["sequence"], n);
      PositionsEqual(head.members["sequence"], last.members["sequence"], n);
      AlikeEqual(head, last);
    }
  }

  lemma ResponseEvents(data: Json)
    requires data.Obj? && "events" in data.members && "current_status_event" in data.members
    ensures Member(data, "events") == data.members["events"] && HeadOf(data) == data.members["current_status_event"]
  {
  }

  lemma LastStands(lib: Library, hash: TextSha, release: Id, events: seq<Json>)
    requires events != [] && EventStands(lib, hash, release, events, |events| - 1)
    ensures var last := events[|events| - 1];
            last.Obj? && "sequence" in last.members && PositionIs(last.members["sequence"], |events|)
  {
    FieldNames(lib, events[|events| - 1].members);
    hide FieldsForm, PositionIs, Joins, OwnHash;
  }

  /** A response is accepted exactly when it has this form. */
  lemma ResponseExact(lib: Library, hash: TextSha, nfc: Nfc, release: Id, data: Json)
    requires ProfileFixed(lib, nfc)
    ensures HistoryAccepted(lib, hash, nfc, release, data) <==> ResponseForm(lib, hash, release, data)
  {
    hide ProfileFixed, EventAdmitted, ValidChain, EventStands, JsonEqual, HeadForm, Member, IsSchemaReleaseId, ReleaseText;
    if data.Obj? && data.members.Keys == {"schema_version", "release_id", "current_status_event", "events"}
       && data.members["release_id"].Str? && data.members["events"].Arr? && data.members["events"].items != [] {
      ResponseEvents(data);
      ReleaseExact(data.members["release_id"].s);
      var events := data.members["events"].items;
      var last := events[|events| - 1];
      ChainExact(lib, hash, nfc, true, release, events);
      if EventAdmitted(lib, last) && EventStands(lib, hash, release, events, |events| - 1) {
        LastStands(lib, hash, release, events);
        HeadExact(lib, data.members["current_status_event"], last, |events|);
      }
    }
  }

  /* ---- Export files ---- */

  /** No control characters. */
  predicate Clean(s: string) {
    forall i :: 0 <= i < |s| ==> s[i] >= ' '
  }

  lemma CleanJoined(s: string, t: string)
    requires Clean(s) && Clean(t)
    ensures Clean(s + t)
  {
  }

  lemma {:induction false} EscapeClean(s: string)
    ensures Clean(EscapeAll(s))
    decreases |s|
  {
    if s != "" {
      assert Clean(Escape(s[0]));
      EscapeClean(s[1..]);
      CleanJoined(Escape(s[0]), EscapeAll(s[1..]));
    }
  }

  lemma {:induction false} NumberClean(v: Json)
    requires v.Int? || v.Real?
    ensures Clean(Print(v))
  {
    if v.Int? {
      assert forall n: nat :: AllDigits(PrintNat(n));
    }
  }

  lemma {:induction false} PrintClean(v: Json)
    ensures Clean(Print(v))
    decreases v, 1, 0
  {
    hide Clean, Escape, EscapeAll;
    assert Clean("null") && Clean("true") && Clean("false") && Clean("\"") && Clean("[") && Clean("{") by { MarksClean(); }
    match v
    case Int(n) => NumberClean(v);
    case Real(repr) => NumberClean(v);
    case Str(s) => QuoteClean(s);
    case Arr(_) =>
      ItemsClean(v, 0);
      CleanJoined("[", PrintItems(v, 0));
    case Obj(_) =>
      MembersClean(v, SortedList(v.members.Keys), 0);
      CleanJoined("{", PrintMembers(v, SortedList(v.members.Keys), 0));
    case _ =>
  }

  lemma MarksClean()
    ensures Clean("null") && Clean("true") && Clean("false") && Clean("\"") && Clean("[") && Clean("{") && Clean("]")
    ensures Clean("}") && Clean(":") && Clean(",") && Clean("")
  {
  }

  lemma QuoteClean(s: string)
    ensures Clean(Quote(s))
  {
    hide Clean, EscapeAll;
    MarksClean();
    EscapeClean(s);
    CleanJoined("\"", EscapeAll(s));
    CleanJoined("\"" + EscapeAll(s), "\"");
  }

  lemma {:induction false} ItemsClean(v: Json, i: nat)
    requires v.Arr? && i <= |v.items|
    ensures Clean(PrintItems(v, i))
    decreases v, 0, |v.items| - i
  {
    hide Clean, Print;
    MarksClean();
    if i < |v.items| {
      PrintClean(v.items[i]);
      ItemsClean(v, i + 1);
      CleanJoined(Print(v.items[i]), PrintItems(v, i + 1));
      CleanJoined(Separator(i), Print(v.items[i]) + PrintItems(v, i + 1));
    }
  }

  lemma {:induction false} MembersClean(v: Json, keys: seq<string>, i: nat)
    requires v.Obj? && i <= |keys| && forall k :: k in keys ==> k in v.members
    ensures Clean(PrintMembers(v, keys, i))
    decreases v, 0, |keys| - i
  {
    hide Clean, Print, Quote;
    MarksClean();
    if i < |keys| {
      var q, t, rest := Quote(keys[i]), Print(v.members[keys[i]]), PrintMembers(v, keys, i + 1);
      QuoteClean(keys[i]);
      PrintClean(v.members[keys[i]]);
      MembersClean(v, keys, i + 1);
      CleanJoined(t, rest);
      CleanJoined(":", t + rest);
      CleanJoined(q, ":" + (t + rest));
      CleanJoined(Separator(i), q + (":" + (t + rest)));
    }
  }

  lemma {:induction false} FirstFeed(s: string, rest: string)
    requires Clean(s)
    ensures IndexOf(s + "\n" + rest, '\n') == |s| && IndexOf(s, '\n') == |s|
  {
    assert '\n' !in s;
    assert s + "\n" + rest == s + ['\n'] + rest;
    FirstIndex(s, '\n', rest);
  }

  lemma {:induction false} SplitStep(s: string, rest: string)
    requires Clean(s)
    ensures SplitLines(s) == [s] && SplitLines(s + "\n" + rest) == [s] + SplitLines(rest)
  {
    FirstFeed(s, rest);
    var text := s + "\n" + rest;
    assert text[..|s|] == s && text[|s| + 1..] == rest;
  }

  lemma {:induction false} TerminatedFirst(lines: seq<string>)
    requires lines != []
    ensures Terminated(lines) == lines[0] + "\n" + Terminated(lines[1..])
  {
  }

  lemma {:induction false} TerminatedClean(lines: seq<string>)
    requires forall i :: 0 <= i < |lines| ==> Clean(lines[i])
    ensures forall i :: 0 <= i < |Terminated(lines)| ==> Terminated(lines)[i] >= ' ' || Terminated(lines)[i] == '\n'
    decreases |lines|
  {
    if lines != [] {
      TerminatedFirst(lines);
      TerminatedClean(lines[1..]);
    }
  }

  /** Splitting gives back the lines. */
  lemma {:induction false} TerminatedSplit(lines: seq<string>)
    requires lines != [] && forall i :: 0 <= i < |lines| ==> Clean(lines[i])
    ensures var text := Terminated(lines);
            text != "" && text[|text| - 1] == '\n' && SplitLines(text[..|text| - 1]) == lines
    decreases |lines|
  {
    hide Clean, SplitLines, Terminated;
    var text, rest := Terminated(lines), Terminated(lines[1..]);
    TerminatedFirst(lines);
    if |lines| == 1 {
      assert lines[1..] == [] && rest == "" by { NoLines(); }
      assert text[..|text| - 1] == lines[0];
      SplitStep(lines[0], "");
    } else {
      TerminatedSplit(lines[1..]);
      SplitStep(lines[0], rest[..|rest| - 1]);
      assert text[..|text| - 1] == lines[0] + "\n" + rest[..|rest| - 1];
      assert lines == [lines[0]] + lines[1..];
    }
  }

  lemma NoLines()
    ensures Terminated([]) == ""
  {
  }

  function PrintedEvents(events: seq<Json>): seq<string> {
    seq(|events|, i requires 0 <= i < |events| => Print(events[i]))
  }

  lemma {:induction false} LinesTerminated(events: seq<Json>)
    ensures Lines(events) == Terminated(PrintedEvents(events))
    decreases |events|
  {
    hide Print;
    if events != [] {
      LinesTerminated(events[1..]);
      assert PrintedEvents(events)[1..] == PrintedEvents(events[1..]);
      assert Print(events[0]) + ("\n" + Lines(events[1..])) == Print(events[0]) + "\n" + Lines(events[1..]);
    }
  }

  lemma {:induction false} AdmittedLine(lib: Library, nfc: Nfc, e: Json)
    requires ProfileFixed(lib, nfc) && EventAdmitted(lib, e)
    ensures Parse(Print(e)) == Some(e) && CanonicalLine(lib, nfc, Print(e))
  {
    KeysExact(lib, e);
    hide ProfileFixed, EventAdmitted, Parse, Print, IsNormal, TreeNormal;
    AdmittedNormal(lib, nfc, e);
    NormalFixed(nfc, e);
    ParsePrinted(e);
  }

  /** The printed events make a file that is read as them. */
  lemma {:induction false} PrintedAdmitted(lib: Library, nfc: Nfc, events: seq<Json>)
    requires ProfileFixed(lib, nfc) && events != [] && forall i :: 0 <= i < |events| ==> EventAdmitted(lib, events[i])
    ensures FileAdmitted(lib, nfc, Lines(events)) && HoldsEvents(Lines(events), events)
  {
    hide ProfileFixed, EventAdmitted, Parse, Print, CanonicalLine, Clean, SplitLines, Terminated, Lines;
    var lines := PrintedEvents(events);
    LinesTerminated(events);
    forall i | 0 <= i < |lines| ensures Clean(lines[i]) { PrintClean(events[i]); }
    TerminatedSplit(lines);
    TerminatedClean(lines);
    var content := Lines(events);
    assert Framed(content);
    forall i | 0 <= i < |lines| ensures CanonicalLine(lib, nfc, lines[i]) && Parse(lines[i]) == Some(events[i]) {
      AdmittedLine(lib, nfc, events[i]);
    }
  }

  /** What is read from an accepted file prints as the file. */
  lemma {:induction false} AdmittedPrinted(lib: Library, hash: TextSha, nfc: Nfc, release: Id, content: string, events: seq<Json>)
    requires ProfileFixed(lib, nfc) && FileAccepted(lib, hash, nfc, release, content, events)
    ensures content == Lines(events) && forall i :: 0 <= i < |events| ==> EventAdmitted(lib, events[i])
  {
    hide ProfileFixed, EventAdmitted, Parse, Print, TreeNormal, ValidChain, SplitLines, Terminated, Lines;
    FileEventsNormal(lib, hash, nfc, release, content, events);
    forall i | 0 <= i < |events| ensures EventAdmitted(lib, events[i]) {
      assert CanonicalLine(lib, nfc, LinesOf(content)[i]);
    }
    LinesTerminated(events);
    assert PrintedEvents(events) == LinesOf(content);
    SplitTerminated(content[..|content| - 1]);
    assert content == content[..|content| - 1] + "\n";
  }

  /** A file is accepted with these events exactly when it is their printed lines and every event stands. */
  lemma {:induction false} FileExact(lib: Library, hash: TextSha, nfc: Nfc, release: Id, content: string, events: seq<Json>)
    requires ProfileFixed(lib, nfc)
    ensures FileAccepted(lib, hash, nfc, release, content, events) <==>
              && events != [] && content == Lines(events)
              && forall i :: 0 <= i < |events| ==> EventStands(lib, hash, release, events, i)
  {
    hide ProfileFixed, EventAdmitted, ValidChain, EventStands, FileAdmitted, HoldsEvents, Lines;
    ChainExact(lib, hash, nfc, false, release, events);
    if FileAccepted(lib, hash, nfc, release, content, events) {
      AdmittedPrinted(lib, hash, nfc, release, content, events);
    }
    if events != [] && content == Lines(events) && forall i :: 0 <= i < |events| ==> EventStands(lib, hash, release, events, i) {
      PrintedAdmitted(lib, nfc, events);
    }
  }
}
