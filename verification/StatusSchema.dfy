/**
 The pinned JSON schemas of status events and status histories, which every
 reader applies before its own loop. An event they admit is in text normal form.
 */
module StatusSchema {
  import opened Basics
  import opened Contracts
  import opened CanonicalJson
  import opened JsonEquality
  import opened ProviderCanonical

  /**
   What the schemas leave to libraries: the characters that a regular expression
   takes for decimal digits, and the check of the date-time format.
   */
  datatype Library = Library(digit: char -> bool, dateTime: string -> bool)

  /* ---- Texts ---- */

  /** A pattern that ends in `$` also matches in front of one final line feed. */
  function Body(s: string): string {
    if s != "" && s[|s| - 1] == '\n' then s[..|s| - 1] else s
  }

  predicate IsLower(c: char) { 'a' <= c <= 'z' }

  predicate IsEventId(s: string) {
    && 1 <= |s| <= 256 && Body(s) != "" && IsAlphanumeric(Body(s)[0])
    && forall i :: 0 <= i < |Body(s)| ==> IsAlphanumeric(Body(s)[i]) || Body(s)[i] in "._:/-"
  }

  predicate IsSchemaReleaseId(s: string) {
    && 1 <= |s| <= 128 && s != "latest" && Body(s) != "" && (IsLower(Body(s)[0]) || IsDigit(Body(s)[0]))
    && forall i :: 0 <= i < |Body(s)| ==> IsLower(Body(s)[i]) || IsDigit(Body(s)[i]) || Body(s)[i] in "_-"
  }

  predicate IsReason(s: string) {
    && 1 <= |s| <= 128 && Body(s) != "" && IsLower(Body(s)[0])
    && forall i :: 0 <= i < |Body(s)| ==> IsLower(Body(s)[i]) || IsDigit(Body(s)[i]) || Body(s)[i] in "_.-"
  }

  const TIMESTAMP_SHAPE := "dddd-dd-ddTdd:dd:dd.ddddddZ"

  predicate IsTimestamp(lib: Library, s: string) {
    && lib.dateTime(s) && |Body(s)| == |TIMESTAMP_SHAPE|
    && forall i :: 0 <= i < |TIMESTAMP_SHAPE| ==>
         if TIMESTAMP_SHAPE[i] == 'd' then lib.digit(Body(s)[i]) else Body(s)[i] == TIMESTAMP_SHAPE[i]
  }

  /* ---- Values ---- */

  predicate DigestAdmitted(v: Json) {
    && v.Obj? && v.members.Keys == {"algorithm", "value"} && v.members["algorithm"] == Str("sha256")
    && v.members["value"].Str? && IsSha256(Body(v.members["value"].s))
  }

  predicate AuthorityAdmitted(v: Json) {
    && v.Obj? && v.members.Keys == {"type", "principal_id"}
    && v.members["type"] in {Str("human"), Str("system")}
    && v.members["principal_id"].Str? && IsEventId(v.members["principal_id"].s)
  }

  /** The text of a float from 1 on that has no fraction. */
  predicate IsWholeFloat(s: FloatText) {
    && s[0] != '-'
    && (|| (|s| > 2 && s[|s| - 2..] == ".0" && s != "0.0")
        || exists i :: 0 < i < |s| && s[i - 1] == 'e' && s[i] == '+')
  }

  /** The schema counts a whole float as an integer, but not a truth value. */
  predicate PositionAdmitted(v: Json) {
    (v.Int? && v.n >= 1) || (v.Real? && IsWholeFloat(v.repr))
  }

  const EVENT_FIELDS: set<string> :=
    {"schema_version", "event_id", "release_id", "sequence", "status", "reason_code", "recorded_at", "authority",
     "previous_event_hash", "event_hash"}

  predicate StatusAdmitted(v: Json) {
    v in {Str("building"), Str("validated"), Str("published"), Str("withdrawn")}
  }

  /** A withdrawal has a reason; only the first event, which is building, has no predecessor. */
  predicate FieldsConsistent(members: map<string, Json>)
    requires members.Keys == EVENT_FIELDS
  {
    && (members["status"] == Str("withdrawn") ==> members["reason_code"].Str?)
    && (if JsonEqual(members["sequence"], Int(1))
        then members["status"] == Str("building") && members["previous_event_hash"].Null?
        else DigestAdmitted(members["previous_event_hash"]))
  }

  predicate EventAdmitted(lib: Library, e: Json) {
    && e.Obj? && e.members.Keys == EVENT_FIELDS
    && e.members["schema_version"] == Str("1.0.0")
    && e.members["event_id"].Str? && IsEventId(e.members["event_id"].s)
    && e.members["release_id"].Str? && IsSchemaReleaseId(e.members["release_id"].s)
    && PositionAdmitted(e.members["sequence"]) && StatusAdmitted(e.members["status"])
    && (e.members["reason_code"].Null? || (e.members["reason_code"].Str? && IsReason(e.members["reason_code"].s)))
    && e.members["recorded_at"].Str? && IsTimestamp(lib, e.members["recorded_at"].s)
    && AuthorityAdmitted(e.members["authority"])
    && (e.members["previous_event_hash"].Null? || DigestAdmitted(e.members["previous_event_hash"]))
    && DigestAdmitted(e.members["event_hash"])
    && FieldsConsistent(e.members)
  }

  predicate HistoryAdmitted(lib: Library, data: Json) {
    && data.Obj? && data.members.Keys == {"schema_version", "release_id", "current_status_event", "events"}
    && data.members["schema_version"] == Str("1.0.0")
    && data.members["release_id"].Str? && IsSchemaReleaseId(data.members["release_id"].s)
    && EventAdmitted(lib, data.members["current_status_event"])
    && data.members["events"].Arr? && data.members["events"].items != []
    && forall i :: 0 <= i < |data.members["events"].items| ==> EventAdmitted(lib, data.members["events"].items[i])
  }

  /* ---- Admitted events are in normal form ---- */

  predicate IsProfileText(lib: Library, s: string) {
    forall i :: 0 <= i < |s| ==> s[i] as int < 128 || lib.digit(s[i])
  }

  /** Normalisation leaves texts of ASCII characters and decimal digits alone. */
  ghost predicate ProfileFixed(lib: Library, nfc: Nfc) {
    forall s :: IsProfileText(lib, s) ==> nfc(s) == s
  }

  /** Names and texts of the value are of that kind. */
  predicate InProfile(lib: Library, v: Json)
    decreases v
  {
    match v
    case Str(s) => IsProfileText(lib, s)
    case Arr(items) => forall i :: 0 <= i < |items| ==> InProfile(lib, items[i])
    case Obj(members) => forall k :: k in members ==> IsProfileText(lib, k) && InProfile(lib, members[k])
    case _ => true
  }

  lemma {:induction false} ProfileNormal(lib: Library, nfc: Nfc, v: Json)
    requires ProfileFixed(lib, nfc) && InProfile(lib, v)
    ensures IsNormal(nfc, v)
    decreases v
  {
    match v
    case Arr(items) => forall i | 0 <= i < |items| ensures IsNormal(nfc, items[i]) { ProfileNormal(lib, nfc, items[i]); }
    case Obj(members) =>
      forall k | k in members ensures nfc(k) == k && IsNormal(nfc, members[k]) { ProfileNormal(lib, nfc, members[k]); }
    case _ =>
  }

  lemma BodyInProfile(lib: Library, s: string)
    requires IsProfileText(lib, Body(s))
    ensures IsProfileText(lib, s)
  {
    forall i | 0 <= i < |s| ensures s[i] as int < 128 || lib.digit(s[i]) {
      if i < |Body(s)| { assert Body(s)[i] == s[i]; }
    }
  }

  lemma AdmittedTexts(lib: Library, s: string)
    ensures IsEventId(s) || IsSchemaReleaseId(s) || IsReason(s) || IsTimestamp(lib, s) || IsSha256(Body(s)) ==>
              IsProfileText(lib, s)
  {
    if IsProfileText(lib, Body(s)) { BodyInProfile(lib, s); }
  }

  lemma NamesInProfile(lib: Library)
    ensures forall k :: k in EVENT_FIELDS + {"algorithm", "value", "type", "principal_id"} ==> IsProfileText(lib, k)
  {
  }

  lemma {:induction false} DigestInProfile(lib: Library, v: Json)
    requires DigestAdmitted(v)
    ensures InProfile(lib, v) && NumberFree(v)
  {
    NamesInProfile(lib);
    AdmittedTexts(lib, v.members["value"].s);
    assert IsProfileText(lib, "sha256");
    hide IsProfileText, IsSha256;
    forall k | k in v.members ensures IsProfileText(lib, k) && InProfile(lib, v.members[k]) && NumberFree(v.members[k]) {
      assert k in {"algorithm", "value"};
    }
  }

  lemma {:induction false} AuthorityInProfile(lib: Library, v: Json)
    requires AuthorityAdmitted(v)
    ensures InProfile(lib, v) && NumberFree(v)
  {
    NamesInProfile(lib);
    AdmittedTexts(lib, v.members["principal_id"].s);
    assert IsProfileText(lib, "human") && IsProfileText(lib, "system");
    hide IsProfileText, IsEventId;
    forall k | k in v.members ensures IsProfileText(lib, k) && InProfile(lib, v.members[k]) && NumberFree(v.members[k]) {
      assert k in {"type", "principal_id"};
    }
  }

  lemma {:induction false} StatusInProfile(lib: Library, v: Json)
    requires StatusAdmitted(v)
    ensures InProfile(lib, v) && NumberFree(v)
  {
    assert IsProfileText(lib, "building") && IsProfileText(lib, "validated");
    assert IsProfileText(lib, "published") && IsProfileText(lib, "withdrawn");
  }

  /** Every field is of the profile, and only the position is a number. */
  lemma {:induction false} FieldInProfile(lib: Library, e: Json, k: string)
    requires EventAdmitted(lib, e) && k in e.members
    ensures InProfile(lib, e.members[k]) && (k != "sequence" ==> NumberFree(e.members[k]))
  {
    hide IsProfileText, DigestAdmitted, AuthorityAdmitted, StatusAdmitted, IsEventId, IsSchemaReleaseId, IsReason,
         IsTimestamp, FieldsConsistent;
    var v := e.members[k];
    if DigestAdmitted(v) { DigestInProfile(lib, v); }
    if AuthorityAdmitted(v) { AuthorityInProfile(lib, v); }
    if StatusAdmitted(v) { StatusInProfile(lib, v); }
    if v.Str? { AdmittedTexts(lib, v.s); }
    if k == "schema_version" { VersionInProfile(lib); }
  }

  lemma VersionInProfile(lib: Library)
    ensures IsProfileText(lib, "1.0.0")
  {
  }

  /** An event that the schema admits is in text normal form. */
  lemma {:induction false} AdmittedNormal(lib: Library, nfc: Nfc, e: Json)
    requires ProfileFixed(lib, nfc) && EventAdmitted(lib, e)
    ensures IsNormal(nfc, e)
  {
    hide ProfileFixed, IsProfileText;
    NamesInProfile(lib);
    forall k | k in e.members ensures IsProfileText(lib, k) && InProfile(lib, e.members[k]) {
      FieldInProfile(lib, e, k);
    }
    ProfileNormal(lib, nfc, e);
  }

  lemma EventFields(lib: Library, e: Json)
    requires EventAdmitted(lib, e)
    ensures e.Obj? && e.members.Keys == EVENT_FIELDS
  {
  }

  lemma {:induction false} EqualMembers(e: Json, f: Json)
    requires e.Obj? && JsonEqual(e, f)
    ensures f.Obj? && f.members.Keys == e.members.Keys
    ensures forall k :: k in e.members ==> JsonEqual(e.members[k], f.members[k])
  {
  }

  /** Equal admitted events differ at most in the spelling of their position. */
  lemma {:induction false} EqualEvents(lib: Library, e: Json, f: Json)
    requires EventAdmitted(lib, e) && JsonEqual(e, f)
    ensures e.Obj? && f.Obj? && e.members - {"sequence"} == f.members - {"sequence"}
  {
    hide EventAdmitted, JsonEqual, NumberFree, InProfile, EVENT_FIELDS;
    EventFields(lib, e);
    EqualMembers(e, f);
    forall k | k in e.members && k != "sequence" ensures e.members[k] == f.members[k] {
      FieldInProfile(lib, e, k);
      EqualExact(e.members[k], f.members[k]);
    }
  }
}
