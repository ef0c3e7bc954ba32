/**
 The canonical text of observations and status confirmations. A parser accepts a
 text exactly when it is what some valid value prints as.
 */
module ContractCodec {
  import opened Basics
  import opened Contracts
  import opened CanonicalJson
  import opened UtcTime
  import opened Sorting
  import opened Factories

  /* ---- Objects with an exact set of fields ---- */

  /** Where a name stands in a list of names. */
  function IndexIn(names: seq<string>, k: string): (i: nat)
    requires k in names
    ensures i < |names| && names[i] == k
  {
    if names[0] == k then 0 else 1 + IndexIn(names[1..], k)
  }

  function ObjectOf(names: seq<string>, values: seq<Json>): Json
    requires Distinct(names) && |names| == |values|
  {
    Obj(map k | k in names :: values[IndexIn(names, k)])
  }

  /** The fields of an object that has exactly these names, in their order. */
  function FieldsOf(v: Json, names: seq<string>): (r: Option<seq<Json>>)
    ensures r.Some? ==> |r.value| == |names|
  {
    if v.Obj? && v.members.Keys == Elements(names)
    then Some(seq(|names|, i requires 0 <= i < |names| => FieldAt(v.members, names, i)))
    else None
  }

  function FieldAt(members: map<string, Json>, names: seq<string>, i: nat): Json
    requires i < |names| && members.Keys == Elements(names)
  {
    assert names[i] in Elements(names);
    members[names[i]]
  }

  lemma FieldsOfObject(names: seq<string>, values: seq<Json>)
    requires Distinct(names) && |names| == |values|
    ensures FieldsOf(ObjectOf(names, values), names) == Some(values)
  {
    var m := ObjectOf(names, values).members;
    forall k ensures k in m <==> k in Elements(names) {
      if k in Elements(names) {
        var i :| 0 <= i < |names| && names[i] == k;
        assert names[i] in m;
      }
    }
    assert m.Keys == Elements(names);
    forall i | 0 <= i < |names| ensures m[names[i]] == values[i] {
      assert names[i] in m;
    }
    assert FieldsOf(ObjectOf(names, values), names).value == values;
  }

  lemma ObjectOfFields(v: Json, names: seq<string>)
    requires Distinct(names) && FieldsOf(v, names).Some?
    ensures ObjectOf(names, FieldsOf(v, names).value) == v
  {
    var values := FieldsOf(v, names).value;
    var m := ObjectOf(names, values).members;
    forall k | k in v.members ensures k in m && m[k] == v.members[k] {
      var i :| 0 <= i < |names| && names[i] == k;
      assert names[i] in m;
    }
    assert m == v.members;
  }

  /* ---- Scalars ---- */

  function TextIn(v: Json): Option<string> {
    if v.Str? then Some(v.s) else None
  }

  function OptionalText(s: Option<string>): Json {
    if s.Some? then Str(s.value) else Null
  }

  function OptionalTextIn(v: Json): Option<Option<string>> {
    if v.Null? then Some(None) else if v.Str? then Some(Some(v.s)) else None
  }

  function OptionalInt(n: Option<int>): Json {
    if n.Some? then Int(n.value) else Null
  }

  function OptionalIntIn(v: Json): Option<Option<int>> {
    if v.Null? then Some(None) else if v.Int? then Some(Some(v.n)) else None
  }

  function TimeJson(t: Time): Json
    requires InRange(t)
  {
    Str(FormatUtc(t))
  }

  function TimeIn(v: Json): Option<Time> {
    if v.Str? then ParseUtc(v.s) else None
  }

  lemma TimeExact(v: Json, t: Time)
    ensures TimeIn(v) == Some(t) <==> InRange(t) && v == TimeJson(t)
  {
    hide FormatUtc, ParseUtc, InRange;
    if InRange(t) { ParseFormatted(t); }
    if TimeIn(v).Some? { FormatParsed(v.s); }
  }

  function OptionalTime(t: Option<Time>): Json
    requires t.Some? ==> InRange(t.value)
  {
    if t.Some? then TimeJson(t.value) else Null
  }

  function OptionalTimeIn(v: Json): Option<Option<Time>> {
    if v.Null? then Some(None)
    else
      var t :- TimeIn(v);
      Some(Some(t))
  }

  lemma OptionalTimeExact(v: Json, t: Option<Time>)
    ensures OptionalTimeIn(v) == Some(t) <==> (t.Some? ==> InRange(t.value)) && v == OptionalTime(t)
  {
    hide InRange, TimeIn, FormatUtc;
    if t.Some? { TimeExact(v, t.value); }
    if TimeIn(v).Some? { TimeExact(v, TimeIn(v).value); }
  }

  const HASH_NAMES: seq<string> := ["algorithm", "value"]

  function HashJson(d: Digest): Json {
    ObjectOf(HASH_NAMES, [Str("sha256"), Str(d.value)])
  }

  function HashIn(v: Json): Option<Digest> {
    var f :- FieldsOf(v, HASH_NAMES);
    if f[0] == Str("sha256") && f[1].Str? && IsSha256(f[1].s) then Some(Digest(f[1].s)) else None
  }

  lemma HashExact(v: Json, d: Digest)
    ensures HashIn(v) == Some(d) <==> ValidDigest(d) && v == HashJson(d)
  {
    hide IsSha256;
    FieldsOfObject(HASH_NAMES, [Str("sha256"), Str(d.value)]);
    if FieldsOf(v, HASH_NAMES).Some? { ObjectOfFields(v, HASH_NAMES); }
    hide FieldsOf, ObjectOf;
    if HashIn(v) == Some(d) {
      assert FieldsOf(v, HASH_NAMES).value == [Str("sha256"), Str(d.value)];
    }
  }

  function OptionalHash(d: Option<Digest>): Json {
    if d.Some? then HashJson(d.value) else Null
  }

  function OptionalHashIn(v: Json): Option<Option<Digest>> {
    if v.Null? then Some(None)
    else
      var d :- HashIn(v);
      Some(Some(d))
  }

  lemma OptionalHashExact(v: Json, d: Option<Digest>)
    ensures OptionalHashIn(v) == Some(d) <==> (d.Some? ==> ValidDigest(d.value)) && v == OptionalHash(d)
  {
    hide IsSha256, FieldsOf, HashIn;
    if d.Some? { HashExact(v, d.value); }
    if HashIn(v).Some? { HashExact(v, HashIn(v).value); }
  }

  function TextsJson(xs: seq<string>): Json {
    Arr(seq(|xs|, i requires 0 <= i < |xs| => Str(xs[i])))
  }

  function TextsIn(v: Json): Option<seq<string>> {
    if v.Arr? && forall i :: 0 <= i < |v.items| ==> v.items[i].Str?
    then Some(seq(|v.items|, i requires 0 <= i < |v.items| => v.items[i].s))
    else None
  }

  lemma TextsExact(v: Json, xs: seq<string>)
    ensures TextsIn(v) == Some(xs) <==> v == TextsJson(xs)
  {
    if TextsIn(v) == Some(xs) {
      assert v.items == TextsJson(xs).items;
    }
    if v == TextsJson(xs) {
      assert TextsIn(v).value == xs;
    }
  }

  const REF_NAMES: seq<string> :=
    ["schema_version", "dataset_release_id", "knowledge_cutoff", "release_manifest_schema_version", "manifest_hash"]

  function RefJson(r: InputRef): Json
    requires InRange(r.knowledgeCutoff)
  {
    ObjectOf(REF_NAMES, [Str(r.schemaVersion), Str(r.releaseId), TimeJson(r.knowledgeCutoff),
                         Str(r.manifestSchemaVersion), HashJson(r.manifestHash)])
  }

  function RefIn(v: Json): Option<InputRef> {
    var f :- FieldsOf(v, REF_NAMES);
    var schema :- TextIn(f[0]);
    var release :- TextIn(f[1]);
    var cutoff :- TimeIn(f[2]);
    var manifestSchema :- TextIn(f[3]);
    var hash :- HashIn(f[4]);
    var r := InputRef(schema, release, cutoff, manifestSchema, hash);
    if ValidInputRef(r) then Some(r) else None
  }

  predicate RefPrintable(r: InputRef) {
    ValidInputRef(r) && InRange(r.knowledgeCutoff)
  }

  lemma RefExact(v: Json, r: InputRef)
    ensures RefIn(v) == Some(r) <==> RefPrintable(r) && v == RefJson(r)
  {
    hide IsVersion, IsReleaseId, IsSha256, InRange, FormatUtc, FieldsOf, ObjectOf, HashIn, TimeIn, HashJson, Distinct;
    if RefPrintable(r) && v == RefJson(r) {
      var f := [Str(r.schemaVersion), Str(r.releaseId), TimeJson(r.knowledgeCutoff),
                Str(r.manifestSchemaVersion), HashJson(r.manifestHash)];
      RefNames();
      FieldsOfObject(REF_NAMES, f);
      TimeExact(f[2], r.knowledgeCutoff);
      HashExact(f[4], r.manifestHash);
    }
    if RefIn(v) == Some(r) {
      var f := FieldsOf(v, REF_NAMES).value;
      RefNames();
      ObjectOfFields(v, REF_NAMES);
      TimeExact(f[2], r.knowledgeCutoff);
      HashExact(f[4], r.manifestHash);
      assert f == [Str(r.schemaVersion), Str(r.releaseId), TimeJson(r.knowledgeCutoff),
                   Str(r.manifestSchemaVersion), HashJson(r.manifestHash)];
    }
  }

  lemma RefNames()
    ensures Distinct(REF_NAMES)
  {
  }

  /* ---- Observations ---- */

  function KindText(k: Kind): string {
    match k
    case ArtifactFetch => "artifact_fetch"
    case ReleaseStatus => "release_status"
    case ReleaseAdmission => "release_admission"
  }

  function KindIn(v: Json): Option<Kind> {
    if v == Str("artifact_fetch") then Some(ArtifactFetch)
    else if v == Str("release_status") then Some(ReleaseStatus)
    else if v == Str("release_admission") then Some(ReleaseAdmission)
    else None
  }

  function TransportText(t: Transport): string {
    if t == ReadOnlyHttpApi then "read_only_http_api" else "immutable_export"
  }

  function TransportIn(v: Json): Option<Transport> {
    if v == Str("read_only_http_api") then Some(ReadOnlyHttpApi)
    else if v == Str("immutable_export") then Some(ImmutableExport)
    else None
  }

  function ResultText(r: ValidationResult): string {
    if r == Passed then "passed" else "failed"
  }

  function ResultIn(v: Json): Option<ValidationResult> {
    if v == Str("passed") then Some(Passed) else if v == Str("failed") then Some(Failed) else None
  }

  function StatusText(s: ProviderStatus): string {
    match s
    case Building => "building"
    case Validated => "validated"
    case Published => "published"
    case Withdrawn => "withdrawn"
  }

  function OptionalStatus(s: Option<ProviderStatus>): Json {
    if s.Some? then Str(StatusText(s.value)) else Null
  }

  function OptionalStatusIn(v: Json): Option<Option<ProviderStatus>> {
    if v.Null? then Some(None)
    else if v == Str("building") then Some(Some(Building))
    else if v == Str("validated") then Some(Some(Validated))
    else if v == Str("published") then Some(Some(Published))
    else if v == Str("withdrawn") then Some(Some(Withdrawn))
    else None
  }

  function AdmissionText(a: AdmissionStatus): string {
    match a
    case Authorized => "authorized"
    case Unconfirmed => "unconfirmed"
    case Denied => "denied"
  }

  function AdmissionIn(v: Json): Option<AdmissionStatus> {
    if v == Str("authorized") then Some(Authorized)
    else if v == Str("unconfirmed") then Some(Unconfirmed)
    else if v == Str("denied") then Some(Denied)
    else None
  }

  lemma EnumsExact(v: Json)
    ensures forall k :: KindIn(v) == Some(k) <==> v == Str(KindText(k))
    ensures forall t :: TransportIn(v) == Some(t) <==> v == Str(TransportText(t))
    ensures forall r :: ResultIn(v) == Some(r) <==> v == Str(ResultText(r))
  {
  }

  lemma StatusEnumsExact(v: Json)
    ensures forall s :: OptionalStatusIn(v) == Some(s) <==> v == OptionalStatus(s)
    ensures forall a :: AdmissionIn(v) == Some(a) <==> v == Str(AdmissionText(a))
  {
  }

  const COMMON_NAMES: seq<string> :=
    ["schema_version", "observation_id", "release_id", "strategy_input_ref", "observed_at", "failure_reasons", "supersedes",
     "observation_type"]
  const FETCH_NAMES: seq<string> :=
    ["schema_version", "observation_id", "release_id", "strategy_input_ref", "observed_at", "failure_reasons", "supersedes",
     "observation_type", "transport", "source_endpoint", "schema_validation_result", "receipt_hash", "artifact_ids",
     "response_or_export_bytes_hash", "local_cache_keys"]
  const STATUS_NAMES: seq<string> :=
    ["schema_version", "observation_id", "release_id", "strategy_input_ref", "observed_at", "failure_reasons", "supersedes",
     "observation_type", "schema_validation_result", "status", "status_event_id", "status_event_hash",
     "previous_status_event_hash", "status_sequence", "status_recorded_at"]
  const ADMISSION_NAMES: seq<string> :=
    ["schema_version", "observation_id", "release_id", "strategy_input_ref", "observed_at", "failure_reasons", "supersedes",
     "observation_type", "status_observation_id", "admission_status"]

  function NamesOf(k: Kind): seq<string> {
    match k
    case ArtifactFetch => FETCH_NAMES
    case ReleaseStatus => STATUS_NAMES
    case ReleaseAdmission => ADMISSION_NAMES
  }

  lemma FetchNamesDistinct()
    ensures Distinct(FETCH_NAMES)
  {
  }

  lemma StatusNamesDistinct()
    ensures Distinct(STATUS_NAMES)
  {
  }

  lemma NamesDistinct(k: Kind)
    ensures Distinct(NamesOf(k))
  {
    FetchNamesDistinct();
    StatusNamesDistinct();
  }

  /** Every instant of the observation is one the timestamp type can hold. */
  predicate InstantsInRange(o: Observation) {
    && InRange(o.observedAt) && InRange(o.inputRef.knowledgeCutoff)
    && (o.StatusObservation? && o.recordedAt.Some? ==> InRange(o.recordedAt.value))
  }

  predicate Printable(o: Observation) {
    ValidObservation(o) && InstantsInRange(o)
  }

  /** The fields all three observation types share. */
  datatype Common = Common(
    id: Id, releaseId: Id, inputRef: InputRef, observedAt: Time, reasons: seq<string>, supersedes: Option<Id>)

  function CommonOf(o: Observation): Common {
    Common(o.id, o.releaseId, o.inputRef, o.observedAt, o.reasons, o.supersedes)
  }

  function CommonFields(c: Common, k: Kind): (f: seq<Json>)
    requires RefPrintable(c.inputRef) && InRange(c.observedAt)
    ensures |f| == 8
  {
    [Str(OBSERVATION_SCHEMA_VERSION), Str(c.id), Str(c.releaseId), RefJson(c.inputRef), TimeJson(c.observedAt),
     TextsJson(c.reasons), OptionalText(c.supersedes), Str(KindText(k))]
  }

  function CommonIn(f: seq<Json>, k: Kind): Option<Common>
    requires |f| == 8
  {
    if f[0] != Str(OBSERVATION_SCHEMA_VERSION) || f[7] != Str(KindText(k)) then None
    else
      var id :- TextIn(f[1]);
      var release :- TextIn(f[2]);
      var ref :- RefIn(f[3]);
      var observed :- TimeIn(f[4]);
      var reasons :- TextsIn(f[5]);
      var supersedes :- OptionalTextIn(f[6]);
      Some(Common(id, release, ref, observed, reasons, supersedes))
  }

  lemma CommonExact(f: seq<Json>, c: Common, k: Kind)
    requires |f| == 8
    ensures CommonIn(f, k) == Some(c) <==>
              RefPrintable(c.inputRef) && InRange(c.observedAt) && f == CommonFields(c, k)
  {
    hide RefIn, TimeIn, TextsIn, RefJson, TextsJson, FormatUtc, InRange, ValidInputRef, KindText;
    RefExact(f[3], c.inputRef);
    TimeExact(f[4], c.observedAt);
    TextsExact(f[5], c.reasons);
    if CommonIn(f, k) == Some(c) {
      assert f == CommonFields(c, k);
    }
  }

  function FetchFields(o: Observation): (f: seq<Json>)
    requires o.FetchObservation?
    ensures |f| == 7
  {
    [Str(TransportText(o.transport)), Str(o.endpoint), Str(ResultText(o.result)), OptionalHash(o.receiptHash),
     TextsJson(o.artifactIds), OptionalHash(o.responseHash), TextsJson(o.cacheKeys)]
  }

  /** The constructor lists the artifact identifiers in order, whatever order they come in. */
  function FetchIn(c: Common, f: seq<Json>): Option<Observation>
    requires |f| == 7
  {
    var transport :- TransportIn(f[0]);
    var endpoint :- TextIn(f[1]);
    var result :- ResultIn(f[2]);
    var receiptHash :- OptionalHashIn(f[3]);
    var ids :- TextsIn(f[4]);
    var responseHash :- OptionalHashIn(f[5]);
    var cacheKeys :- TextsIn(f[6]);
    if !Distinct(ids) then None
    else
      Some(FetchObservation(c.id, c.releaseId, c.inputRef, c.observedAt, c.supersedes, c.reasons, transport, endpoint,
                            result, receiptHash, SortedList(Elements(ids)), responseHash, cacheKeys))
  }

  function StatusFields(o: Observation): (f: seq<Json>)
    requires o.StatusObservation? && (o.recordedAt.Some? ==> InRange(o.recordedAt.value))
    ensures |f| == 7
  {
    [Str(ResultText(o.result)), OptionalStatus(o.status), OptionalText(o.eventId), OptionalHash(o.eventHash),
     OptionalHash(o.previousHash), OptionalInt(o.sequence), OptionalTime(o.recordedAt)]
  }

  function StatusIn(c: Common, f: seq<Json>): Option<Observation>
    requires |f| == 7
  {
    var result :- ResultIn(f[0]);
    var status :- OptionalStatusIn(f[1]);
    var eventId :- OptionalTextIn(f[2]);
    var eventHash :- OptionalHashIn(f[3]);
    var previousHash :- OptionalHashIn(f[4]);
    var sequence :- OptionalIntIn(f[5]);
    var recordedAt :- OptionalTimeIn(f[6]);
    Some(StatusObservation(c.id, c.releaseId, c.inputRef, c.observedAt, c.supersedes, c.reasons, result, status,
                           eventId, eventHash, previousHash, sequence, recordedAt))
  }

  function AdmissionFields(o: Observation): (f: seq<Json>)
    requires o.AdmissionObservation?
    ensures |f| == 2
  {
    [Str(o.statusId), Str(AdmissionText(o.admission))]
  }

  function AdmissionObservationIn(c: Common, f: seq<Json>): Option<Observation>
    requires |f| == 2
  {
    var statusId :- TextIn(f[0]);
    var admission :- AdmissionIn(f[1]);
    Some(AdmissionObservation(c.id, c.releaseId, c.inputRef, c.observedAt, c.supersedes, c.reasons, statusId, admission))
  }

  function OwnFields(o: Observation): (f: seq<Json>)
    requires InstantsInRange(o)
    ensures |f| == |NamesOf(o.Kind())| - 8
  {
    match o.Kind()
    case ArtifactFetch => FetchFields(o)
    case ReleaseStatus => StatusFields(o)
    case ReleaseAdmission => AdmissionFields(o)
  }

  function OwnIn(c: Common, k: Kind, f: seq<Json>): Option<Observation>
    requires |f| == |NamesOf(k)| - 8
  {
    match k
    case ArtifactFetch => FetchIn(c, f)
    case ReleaseStatus => StatusIn(c, f)
    case ReleaseAdmission => AdmissionObservationIn(c, f)
  }

  function ObservationJson(o: Observation): Json
    requires Printable(o)
  {
    NamesDistinct(o.Kind());
    ObjectOf(NamesOf(o.Kind()), CommonFields(CommonOf(o), o.Kind()) + OwnFields(o))
  }

  function ObservationIn(v: Json): Option<Observation> {
    if !v.Obj? || "observation_type" !in v.members then None
    else
      var k :- KindIn(v.members["observation_type"]);
      var f :- FieldsOf(v, NamesOf(k));
      var c :- CommonIn(f[..8], k);
      var o :- OwnIn(c, k, f[8..]);
      if ValidObservation(o) then Some(o) else None
  }

  /** Digests and texts of an observation are ones their own types accept. */
  predicate OwnPrintable(o: Observation) {
    match o
    case FetchObservation(_, _, _, _, _, _, _, _, _, receiptHash, artifactIds, responseHash, _) =>
      && (receiptHash.Some? ==> ValidDigest(receiptHash.value)) && (responseHash.Some? ==> ValidDigest(responseHash.value))
      && StrictlySorted(artifactIds)
    case StatusObservation(_, _, _, _, _, _, _, _, _, eventHash, previousHash, _, recordedAt) =>
      && (eventHash.Some? ==> ValidDigest(eventHash.value)) && (previousHash.Some? ==> ValidDigest(previousHash.value))
      && (recordedAt.Some? ==> InRange(recordedAt.value))
    case AdmissionObservation(_, _, _, _, _, _, _, _) => true
  }

  lemma ListedSorted(ids: seq<string>)
    requires StrictlySorted(ids)
    ensures SortedList(Elements(ids)) == ids && Distinct(ids)
  {
    SortedUnique(SortedList(Elements(ids)), ids);
    SortedDistinct(ids);
  }

  /** Printed fetch fields read back; what is read prints the same up to the order of identifiers. */
  lemma FetchExact(c: Common, f: seq<Json>, o: Observation)
    requires |f| == 7 && o.FetchObservation? && CommonOf(o) == c
    ensures OwnPrintable(o) && f == FetchFields(o) ==> FetchIn(c, f) == Some(o)
    ensures FetchIn(c, f) == Some(o) ==>
              && OwnPrintable(o) && TextsIn(f[4]).Some? && o.artifactIds == SortedList(Elements(TextsIn(f[4]).value))
              && f[4 := TextsJson(o.artifactIds)] == FetchFields(o)
  {
    hide TransportIn, TransportText, ResultIn, ResultText, OptionalHashIn, OptionalHash, TextsIn, TextsJson,
         SortedList, IsSha256, StrictlySorted, Distinct, Elements;
    EnumsExact(f[0]);
    EnumsExact(f[2]);
    OptionalHashExact(f[3], o.receiptHash);
    OptionalHashExact(f[5], o.responseHash);
    TextsExact(f[4], o.artifactIds);
    TextsExact(f[6], o.cacheKeys);
    if OwnPrintable(o) { ListedSorted(o.artifactIds); }
    if FetchIn(c, f) == Some(o) {
      assert f[4 := TextsJson(o.artifactIds)] == FetchFields(o);
    }
  }

  lemma StatusExact(c: Common, f: seq<Json>, o: Observation)
    requires |f| == 7 && o.StatusObservation? && CommonOf(o) == c
    ensures StatusIn(c, f) == Some(o) <==> OwnPrintable(o) && f == StatusFields(o)
  {
    hide ResultIn, ResultText, OptionalStatusIn, OptionalStatus, OptionalHashIn, OptionalHash, OptionalTimeIn,
         OptionalTime, IsSha256, InRange;
    assert ResultIn(f[0]) == Some(o.result) <==> f[0] == Str(ResultText(o.result)) by { EnumsExact(f[0]); }
    assert OptionalStatusIn(f[1]) == Some(o.status) <==> f[1] == OptionalStatus(o.status) by { StatusEnumsExact(f[1]); }
    OptionalHashExact(f[3], o.eventHash);
    OptionalHashExact(f[4], o.previousHash);
    OptionalTimeExact(f[6], o.recordedAt);
    if StatusIn(c, f) == Some(o) {
      assert f == StatusFields(o);
    }
  }

  lemma AdmissionExact(c: Common, f: seq<Json>, o: Observation)
    requires |f| == 2 && o.AdmissionObservation? && CommonOf(o) == c
    ensures AdmissionObservationIn(c, f) == Some(o) <==> f == AdmissionFields(o)
  {
    hide AdmissionIn, AdmissionText;
    StatusEnumsExact(f[1]);
    if AdmissionObservationIn(c, f) == Some(o) {
      assert f == AdmissionFields(o);
    }
  }

  lemma PrintableOwn(o: Observation)
    requires Printable(o)
    ensures OwnPrintable(o) && RefPrintable(o.inputRef) && InRange(o.observedAt)
  {
    hide IsSha256, InRange, IsId, IsReleaseId, IsProviderId, IsText, Distinct;
  }

  lemma OwnExact(c: Common, k: Kind, f: seq<Json>, o: Observation)
    requires |f| == |NamesOf(k)| - 8 && o.Kind() == k && CommonOf(o) == c
    ensures OwnPrintable(o) && InstantsInRange(o) && f == OwnFields(o) ==> OwnIn(c, k, f) == Some(o)
    ensures OwnIn(c, k, f) == Some(o) ==> OwnPrintable(o)
    ensures OwnIn(c, k, f) == Some(o) && InstantsInRange(o) ==> OwnMatches(k, f, o)
  {
    hide FetchIn, StatusIn, AdmissionObservationIn, FetchFields, StatusFields, AdmissionFields, InRange, IsSha256,
         StrictlySorted, TextsJson;
    match k
    case ArtifactFetch => FetchExact(c, f, o);
    case ReleaseStatus => StatusExact(c, f, o);
    case ReleaseAdmission => AdmissionExact(c, f, o);
  }

  /** The fields are the observation's own, but for the order of artifact identifiers. */
  ghost predicate OwnMatches(k: Kind, f: seq<Json>, o: Observation)
    requires |f| == |NamesOf(k)| - 8 && o.Kind() == k && InstantsInRange(o)
  {
    if o.FetchObservation? then f[4 := TextsJson(o.artifactIds)] == OwnFields(o) else f == OwnFields(o)
  }

  lemma OwnKind(c: Common, k: Kind, f: seq<Json>)
    requires |f| == |NamesOf(k)| - 8 && OwnIn(c, k, f).Some?
    ensures OwnIn(c, k, f).value.Kind() == k && CommonOf(OwnIn(c, k, f).value) == c
  {
    hide TransportIn, ResultIn, OptionalStatusIn, OptionalHashIn, OptionalTimeIn, TextsIn, SortedList, Distinct,
         AdmissionIn, OptionalIntIn, OptionalTextIn, TextIn;
  }

  lemma TypeField(names: seq<string>, values: seq<Json>)
    requires Distinct(names) && |names| == |values| && |names| > 7 && names[7] == "observation_type"
    ensures ObjectOf(names, values).Obj? && "observation_type" in ObjectOf(names, values).members
    ensures ObjectOf(names, values).members["observation_type"] == values[7]
  {
    assert names[7] in ObjectOf(names, values).members;
  }

  lemma TypeName(k: Kind)
    ensures |NamesOf(k)| > 8 && NamesOf(k)[7] == "observation_type"
  {
  }

  /** A printed observation reads back as itself. */
  lemma ObservationReadBack(o: Observation)
    requires Printable(o)
    ensures ObservationIn(ObservationJson(o)) == Some(o)
  {
    hide NamesOf, ObjectOf, FieldsOf, CommonIn, CommonFields, OwnIn, OwnFields, KindIn, KindText, ValidObservation,
         InRange, RefPrintable, OwnPrintable, OwnMatches, Distinct, KindText;
    var k := o.Kind();
    PrintableOwn(o);
    var common, own := CommonFields(CommonOf(o), k), OwnFields(o);
    var values := common + own;
    NamesDistinct(k);
    TypeName(k);
    TypeField(NamesOf(k), values);
    FieldsOfObject(NamesOf(k), values);
    assert values[..8] == common && values[8..] == own;
    CommonExact(common, CommonOf(o), k);
    OwnExact(CommonOf(o), k, own, o);
    CommonType(CommonOf(o), k);
    EnumsExact(values[7]);
  }

  lemma CommonType(c: Common, k: Kind)
    requires RefPrintable(c.inputRef) && InRange(c.observedAt)
    ensures CommonFields(c, k)[7] == Str(KindText(k))
  {
  }

  /** Whatever is read as an observation is a valid one. */
  lemma ObservationReadValid(v: Json)
    requires ObservationIn(v).Some?
    ensures Printable(ObservationIn(v).value)
  {
    hide NamesOf, FieldsOf, CommonIn, OwnIn, KindIn, ValidObservation, InRange, RefPrintable, OwnPrintable, OwnMatches;
    var k := KindIn(v.members["observation_type"]).value;
    var f := FieldsOf(v, NamesOf(k)).value;
    TypeName(k);
    var c := CommonIn(f[..8], k).value;
    var o := OwnIn(c, k, f[8..]).value;
    CommonExact(f[..8], c, k);
    OwnKind(c, k, f[8..]);
    OwnExact(c, k, f[8..], o);
    ReadInstants(o);
  }

  lemma ReadInstants(o: Observation)
    requires RefPrintable(o.inputRef) && InRange(o.observedAt) && OwnPrintable(o)
    ensures InstantsInRange(o)
  {
    hide InRange, ValidInputRef, IsSha256, StrictlySorted;
  }

  /**
   Up to the order of the listed artifact identifiers, the JSON value an
   observation is read from is the one it prints as.
   */
  lemma ObservationReadPrints(v: Json)
    requires ObservationIn(v).Some?
    ensures Printable(ObservationIn(v).value)
    ensures v.Obj?
    ensures var o := ObservationIn(v).value;
            ObservationJson(o) ==
              if o.FetchObservation? then Obj(v.members["artifact_ids" := TextsJson(o.artifactIds)]) else v
  {
    hide FieldsOf, CommonIn, OwnIn, KindIn, Printable, CommonFields, OwnFields, ObjectOf, OwnPrintable, OwnMatches,
         InstantsInRange, RefPrintable, InRange, NamesOf, TextsJson, Distinct;
    ObservationReadValid(v);
    var k := KindIn(v.members["observation_type"]).value;
    var names := NamesOf(k);
    var f := FieldsOf(v, names).value;
    TypeName(k);
    NamesDistinct(k);
    var c := CommonIn(f[..8], k).value;
    var o := OwnIn(c, k, f[8..]).value;
    CommonExact(f[..8], c, k);
    OwnKind(c, k, f[8..]);
    OwnExact(c, k, f[8..], o);
    ObjectOfFields(v, names);
    PrintableParts(o);
    ReadFields(v, k, f, o);
  }

  lemma PrintableParts(o: Observation)
    requires Printable(o)
    ensures InstantsInRange(o) && RefPrintable(o.inputRef) && InRange(o.observedAt)
  {
    PrintableOwn(o);
  }

  lemma ReadFields(v: Json, k: Kind, f: seq<Json>, o: Observation)
    requires Printable(o) && o.Kind() == k && |f| == |NamesOf(k)| && Distinct(NamesOf(k)) && v == ObjectOf(NamesOf(k), f)
    requires InstantsInRange(o) && RefPrintable(o.inputRef) && InRange(o.observedAt)
    requires f[..8] == CommonFields(CommonOf(o), k) && OwnMatches(k, f[8..], o)
    ensures v.Obj?
    ensures ObservationJson(o) ==
              if o.FetchObservation? then Obj(v.members["artifact_ids" := TextsJson(o.artifactIds)]) else v
  {
    hide CommonFields, OwnFields, Printable, InRange, RefPrintable, TextsJson, Distinct;
    assert f == f[..8] + f[8..];
    if o.FetchObservation? {
      var ids := TextsJson(o.artifactIds);
      assert f[12 := ids] == f[..8] + f[8..][4 := ids];
      FieldReplaced(FETCH_NAMES, f, 12, ids);
    }
  }

  lemma FieldReplaced(names: seq<string>, values: seq<Json>, i: nat, x: Json)
    requires Distinct(names) && |names| == |values| && i < |names|
    ensures ObjectOf(names, values[i := x]) == Obj(ObjectOf(names, values).members[names[i] := x])
  {
    var m, m' := ObjectOf(names, values).members, ObjectOf(names, values[i := x]).members;
    assert names[i] in m';
    assert m' == m[names[i] := x];
  }

  /* ---- Observation text ---- */

  function ObservationTextOf(o: Observation): string
    requires Printable(o)
  {
    Print(ObservationJson(o))
  }

  /** Reads a text, and refuses it unless it is the canonical one. */
  function ObservationFromText(text: string): Option<Observation> {
    var v :- Parse(text);
    var o :- ObservationIn(v);
    ObservationReadValid(v);
    if ObservationTextOf(o) == text then Some(o) else None
  }

  /** A text is accepted exactly when it is what that valid observation prints as. */
  lemma ObservationTextExact(text: string, o: Observation)
    ensures ObservationFromText(text) == Some(o) <==> Printable(o) && ObservationTextOf(o) == text
  {
    hide ObservationIn, ObservationJson, Printable, Parse, Print;
    if Printable(o) && ObservationTextOf(o) == text {
      ParsePrinted(ObservationJson(o));
      ObservationReadBack(o);
    }
    if ObservationFromText(text) == Some(o) {
      ObservationReadValid(Parse(text).value);
    }
  }

  /** Different observations never share a text, so one hash names one observation. */
  lemma ObservationTextInjective(a: Observation, b: Observation)
    requires Printable(a) && Printable(b) && ObservationTextOf(a) == ObservationTextOf(b)
    ensures a == b
  {
    hide Printable, ObservationFromText;
    ObservationTextExact(ObservationTextOf(a), a);
    ObservationTextExact(ObservationTextOf(a), b);
  }

  /* ---- Status confirmations ---- */

  const ITEM_NAMES: seq<string> :=
    ["strategy_input_ref", "status_observation_id", "status_event_id", "status_event_hash", "status_sequence",
     "provider_snapshot_at", "checked_at", "response_bytes_hash"]
  const CONFIRMATION_NAMES: seq<string> :=
    ["schema_version", "confirmation_id", "run_id", "root_release_id", "receipt_hash", "closure_hash", "authority_id",
     "authority_contract_hash", "requested_at", "confirmed_at", "expires_at", "items", "confirmation_hash"]

  lemma ConfirmationNamesDistinct()
    ensures Distinct(ITEM_NAMES) && Distinct(CONFIRMATION_NAMES)
  {
  }

  predicate ItemPrintable(i: ConfirmationItem) {
    ItemSyntax(i) && InRange(i.inputRef.knowledgeCutoff) && InRange(i.snapshotAt) && InRange(i.checkedAt)
  }

  function ItemFields(i: ConfirmationItem): (f: seq<Json>)
    requires ItemPrintable(i)
    ensures |f| == 8
  {
    [RefJson(i.inputRef), Str(i.statusId), Str(i.eventId), HashJson(i.eventHash), Int(i.sequence), TimeJson(i.snapshotAt),
     TimeJson(i.checkedAt), HashJson(i.responseHash)]
  }

  function ItemOfFields(f: seq<Json>): Option<ConfirmationItem>
    requires |f| == 8
  {
    var ref :- RefIn(f[0]);
    var statusId :- TextIn(f[1]);
    var eventId :- TextIn(f[2]);
    var eventHash :- HashIn(f[3]);
    var sequence :- if f[4].Int? then Some(f[4].n) else None;
    var snapshotAt :- TimeIn(f[5]);
    var checkedAt :- TimeIn(f[6]);
    var responseHash :- HashIn(f[7]);
    var i := ConfirmationItem(ref, statusId, eventId, eventHash, sequence, snapshotAt, checkedAt, responseHash);
    if ItemSyntax(i) then Some(i) else None
  }

  lemma ItemFieldsExact(f: seq<Json>, i: ConfirmationItem)
    requires |f| == 8
    ensures ItemOfFields(f) == Some(i) <==> ItemPrintable(i) && f == ItemFields(i)
  {
    hide RefIn, RefJson, HashIn, HashJson, TimeIn, FormatUtc, InRange, ValidInputRef, IsId, IsProviderId, IsSha256;
    RefExact(f[0], i.inputRef);
    HashExact(f[3], i.eventHash);
    TimeExact(f[5], i.snapshotAt);
    TimeExact(f[6], i.checkedAt);
    HashExact(f[7], i.responseHash);
    if ItemOfFields(f) == Some(i) {
      assert f == ItemFields(i);
    }
  }

  function ItemJson(i: ConfirmationItem): Json
    requires ItemPrintable(i)
  {
    ConfirmationNamesDistinct();
    ObjectOf(ITEM_NAMES, ItemFields(i))
  }

  function ItemIn(v: Json): Option<ConfirmationItem> {
    var f :- FieldsOf(v, ITEM_NAMES);
    ItemOfFields(f)
  }

  lemma ItemExact(v: Json, i: ConfirmationItem)
    ensures ItemIn(v) == Some(i) <==> ItemPrintable(i) && v == ItemJson(i)
  {
    hide FieldsOf, ObjectOf, ItemOfFields, ItemFields, ItemPrintable, Distinct;
    ConfirmationNamesDistinct();
    if ItemPrintable(i) && v == ItemJson(i) {
      FieldsOfObject(ITEM_NAMES, ItemFields(i));
      ItemFieldsExact(ItemFields(i), i);
    }
    if ItemIn(v) == Some(i) {
      ObjectOfFields(v, ITEM_NAMES);
      ItemFieldsExact(FieldsOf(v, ITEM_NAMES).value, i);
    }
  }

  function ItemsFrom(vs: seq<Json>): Option<seq<ConfirmationItem>> {
    if vs == [] then Some([])
    else
      var first :- ItemIn(vs[0]);
      var rest :- ItemsFrom(vs[1..]);
      Some([first] + rest)
  }

  predicate ItemsPrintable(items: seq<ConfirmationItem>) {
    forall i :: 0 <= i < |items| ==> ItemPrintable(items[i])
  }

  function ItemsJson(items: seq<ConfirmationItem>): seq<Json>
    requires ItemsPrintable(items)
  {
    if items == [] then [] else [ItemJson(items[0])] + ItemsJson(items[1..])
  }

  lemma {:induction false} ItemsExact(vs: seq<Json>, items: seq<ConfirmationItem>)
    ensures ItemsFrom(vs) == Some(items) <==> ItemsPrintable(items) && vs == ItemsJson(items)
    decreases |vs| + |items|
  {
    hide ItemIn, ItemJson, ItemPrintable;
    if vs == [] {
      assert ItemsPrintable(items) && items != [] ==> |ItemsJson(items)| > 0;
    } else if items == [] {
      assert vs != [];
    } else {
      ItemExact(vs[0], items[0]);
      ItemsExact(vs[1..], items[1..]);
      assert vs == [vs[0]] + vs[1..] && items == [items[0]] + items[1..];
      assert ItemsPrintable(items) <==> ItemPrintable(items[0]) && ItemsPrintable(items[1..]);
      if ItemsFrom(vs) == Some(items) {
        assert ItemsFrom(vs[1..]).value == items[1..];
      }
    }
  }

  predicate ConfirmationInRange(c: Confirmation) {
    && InRange(c.requestedAt) && InRange(c.confirmedAt) && InRange(c.expiresAt)
    && forall i :: 0 <= i < |c.items| ==>
         && InRange(c.items[i].inputRef.knowledgeCutoff) && InRange(c.items[i].snapshotAt) && InRange(c.items[i].checkedAt)
  }

  predicate ConfirmationPrintable(sha: Sha, c: Confirmation) {
    ValidConfirmation(sha, c) && ConfirmationInRange(c)
  }

  /** What printing needs of the fields of a confirmation. */
  predicate FieldsPrintable(c: Confirmation) {
    && c.schemaVersion == CONFIRMATION_SCHEMA_VERSION
    && ValidDigest(c.receiptHash) && ValidDigest(c.closureHash) && ValidDigest(c.authorityContract)
    && ValidDigest(c.confirmationHash)
    && InRange(c.requestedAt) && InRange(c.confirmedAt) && InRange(c.expiresAt)
    && ItemsPrintable(c.items)
  }

  lemma ConfirmationFieldsPrintable(sha: Sha, c: Confirmation)
    requires ConfirmationPrintable(sha, c)
    ensures FieldsPrintable(c)
  {
    hide InRange, IsSha256, ItemsNormal, ConfirmationWindow, ItemSyntax, IsId, IsReleaseId;
    forall i | 0 <= i < |c.items| ensures ItemPrintable(c.items[i]) {
      assert ItemSyntax(c.items[i]);
    }
  }

  function ConfirmationFields(c: Confirmation): (f: seq<Json>)
    requires FieldsPrintable(c)
    ensures |f| == 13
  {
    [Str(c.schemaVersion), Str(c.confirmationId), Str(c.runId), Str(c.rootReleaseId), HashJson(c.receiptHash),
     HashJson(c.closureHash), Str(c.authorityId), HashJson(c.authorityContract), TimeJson(c.requestedAt),
     TimeJson(c.confirmedAt), TimeJson(c.expiresAt), Arr(ItemsJson(c.items)), HashJson(c.confirmationHash)]
  }

  /** The fields as they stand, before the constructor orders the items. */
  function ConfirmationOfFields(f: seq<Json>): Option<Confirmation>
    requires |f| == 13
  {
    if f[0] != Str(CONFIRMATION_SCHEMA_VERSION) || !f[11].Arr? then None
    else
      var confirmationId :- TextIn(f[1]);
      var runId :- TextIn(f[2]);
      var root :- TextIn(f[3]);
      var receiptHash :- HashIn(f[4]);
      var closureHash :- HashIn(f[5]);
      var authorityId :- TextIn(f[6]);
      var authorityContract :- HashIn(f[7]);
      var requestedAt :- TimeIn(f[8]);
      var confirmedAt :- TimeIn(f[9]);
      var expiresAt :- TimeIn(f[10]);
      var items :- ItemsFrom(f[11].items);
      var hash :- HashIn(f[12]);
      Some(Confirmation(CONFIRMATION_SCHEMA_VERSION, confirmationId, runId, root, receiptHash, closureHash, authorityId,
                        authorityContract, requestedAt, confirmedAt, expiresAt, items, hash))
  }

  lemma ConfirmationFieldsExact(f: seq<Json>, c: Confirmation)
    requires |f| == 13
    ensures ConfirmationOfFields(f) == Some(c) <==> FieldsPrintable(c) && f == ConfirmationFields(c)
  {
    hide HashIn, HashJson, TimeIn, FormatUtc, InRange, IsSha256, ItemsFrom, ItemsJson, ItemsPrintable;
    HashExact(f[4], c.receiptHash);
    HashExact(f[5], c.closureHash);
    HashExact(f[7], c.authorityContract);
    HashExact(f[12], c.confirmationHash);
    TimeExact(f[8], c.requestedAt);
    TimeExact(f[9], c.confirmedAt);
    TimeExact(f[10], c.expiresAt);
    if f[11].Arr? { ItemsExact(f[11].items, c.items); }
    if ConfirmationOfFields(f) == Some(c) {
      assert f == ConfirmationFields(c);
    }
  }

  function ConfirmationJson(sha: Sha, c: Confirmation): Json
    requires ConfirmationPrintable(sha, c)
  {
    ConfirmationNamesDistinct();
    ConfirmationFieldsPrintable(sha, c);
    ObjectOf(CONFIRMATION_NAMES, ConfirmationFields(c))
  }

  function ConfirmationIn(sha: Sha, v: Json): Option<Confirmation> {
    var f :- FieldsOf(v, CONFIRMATION_NAMES);
    var raw :- ConfirmationOfFields(f);
    var c := raw.(items := Sort(ItemBefore, raw.items));
    if ValidConfirmation(sha, c) then Some(c) else None
  }

  lemma {:induction false} NormalItemsSorted(items: seq<ConfirmationItem>)
    requires ItemsNormal(items)
    ensures Sort(ItemBefore, items) == items
  {
    forall i, j | 0 <= i < j < |items| ensures Less(ItemKey(items[i]), ItemKey(items[j])) {}
    AscendingFixed(ItemBefore, ItemKey, items);
  }

  lemma ConfirmationReadBack(sha: Sha, c: Confirmation)
    requires ConfirmationPrintable(sha, c)
    ensures ConfirmationIn(sha, ConfirmationJson(sha, c)) == Some(c)
  {
    hide FieldsOf, ObjectOf, ConfirmationOfFields, ConfirmationFields, FieldsPrintable, Distinct, ConfirmationSyntax,
         ConfirmationWindow, ItemsNormal, ConfirmationInRange, Sort;
    ConfirmationNamesDistinct();
    ConfirmationFieldsPrintable(sha, c);
    FieldsOfObject(CONFIRMATION_NAMES, ConfirmationFields(c));
    ConfirmationFieldsExact(ConfirmationFields(c), c);
    NormalItemsSorted(c.items);
  }

  lemma {:induction false} SortedItemsPrintable(items: seq<ConfirmationItem>)
    requires ItemsPrintable(items)
    ensures ItemsPrintable(Sort(ItemBefore, items))
  {
    hide ItemPrintable;
    var sorted := Sort(ItemBefore, items);
    SortPermutes(ItemBefore, items);
    forall i | 0 <= i < |sorted| ensures ItemPrintable(sorted[i]) {
      MemberOf(sorted[i], items);
      MemberOf(sorted[i], sorted);
      var j :| 0 <= j < |items| && items[j] == sorted[i];
    }
  }

  lemma ConfirmationReadValid(sha: Sha, v: Json)
    requires ConfirmationIn(sha, v).Some?
    ensures ConfirmationPrintable(sha, ConfirmationIn(sha, v).value)
  {
    hide FieldsOf, ConfirmationOfFields, ConfirmationFields, ValidConfirmation, Sort, ItemSyntax, InRange;
    var f := FieldsOf(v, CONFIRMATION_NAMES).value;
    var raw := ConfirmationOfFields(f).value;
    ConfirmationFieldsExact(f, raw);
    SortedItemsPrintable(raw.items);
  }

  /* ---- Confirmation text ---- */

  function ConfirmationTextOf(sha: Sha, c: Confirmation): string
    requires ConfirmationPrintable(sha, c)
  {
    Print(ConfirmationJson(sha, c))
  }

  /** Reads a text, and refuses it unless it is the canonical one. */
  function ConfirmationFromText(sha: Sha, text: string): Option<Confirmation> {
    var v :- Parse(text);
    var c :- ConfirmationIn(sha, v);
    ConfirmationReadValid(sha, v);
    if ConfirmationTextOf(sha, c) == text then Some(c) else None
  }

  /** A text is accepted exactly when it is what that valid confirmation prints as. */
  lemma ConfirmationTextExact(sha: Sha, text: string, c: Confirmation)
    ensures ConfirmationFromText(sha, text) == Some(c) <==>
            ConfirmationPrintable(sha, c) && ConfirmationTextOf(sha, c) == text
  {
    hide ConfirmationIn, ConfirmationJson, ConfirmationPrintable, Parse, Print;
    if ConfirmationPrintable(sha, c) && ConfirmationTextOf(sha, c) == text {
      ParsePrinted(ConfirmationJson(sha, c));
      ConfirmationReadBack(sha, c);
    }
    if ConfirmationFromText(sha, text) == Some(c) {
      ConfirmationReadValid(sha, Parse(text).value);
    }
  }

  lemma ConfirmationTextInjective(sha: Sha, a: Confirmation, b: Confirmation)
    requires ConfirmationPrintable(sha, a) && ConfirmationPrintable(sha, b)
    requires ConfirmationTextOf(sha, a) == ConfirmationTextOf(sha, b)
    ensures a == b
  {
    hide ConfirmationPrintable, ConfirmationFromText;
    ConfirmationTextExact(sha, ConfirmationTextOf(sha, a), a);
    ConfirmationTextExact(sha, ConfirmationTextOf(sha, a), b);
  }
}
