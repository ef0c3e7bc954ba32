/**
 The JSON of each document, member by member: under which name each field stands and
 how its value is written.
 */
module DocumentForms {
  import opened Basics
  import opened Contracts
  import opened CanonicalJson
  import opened UtcTime
  import opened ContractCodec
  import opened DocumentTexts

  /* ---- Objects by their members ---- */

  function MemberMap(pairs: seq<(string, Json)>): map<string, Json> {
    if pairs == [] then map[] else MemberMap(pairs[..|pairs| - 1])[pairs[|pairs| - 1].0 := pairs[|pairs| - 1].1]
  }

  function Members(pairs: seq<(string, Json)>): Json {
    Obj(MemberMap(pairs))
  }

  lemma {:induction false} MemberMapExact(pairs: seq<(string, Json)>)
    requires forall i, j :: 0 <= i < j < |pairs| ==> pairs[i].0 != pairs[j].0
    ensures forall i :: 0 <= i < |pairs| ==> pairs[i].0 in MemberMap(pairs) && MemberMap(pairs)[pairs[i].0] == pairs[i].1
    ensures forall k :: k in MemberMap(pairs) ==> exists i :: 0 <= i < |pairs| && pairs[i].0 == k
    decreases |pairs|
  {
    if pairs != [] {
      var n := |pairs| - 1;
      MemberMapExact(pairs[..n]);
      forall i | 0 <= i < |pairs|
        ensures pairs[i].0 in MemberMap(pairs) && MemberMap(pairs)[pairs[i].0] == pairs[i].1
      {
        if i < n { assert pairs[..n][i] == pairs[i]; }
      }
      forall k | k in MemberMap(pairs) ensures exists i :: 0 <= i < |pairs| && pairs[i].0 == k {
        if k in MemberMap(pairs[..n]) {
          var i :| 0 <= i < n && pairs[..n][i].0 == k;
          assert pairs[i].0 == k;
        } else {
          assert pairs[n].0 == k;
        }
      }
    }
  }

  /** The object with these names and values is the one with these members. */
  lemma Spelled(names: seq<string>, values: seq<Json>, pairs: seq<(string, Json)>)
    requires Distinct(names) && |names| == |values| == |pairs|
    requires forall i :: 0 <= i < |pairs| ==> pairs[i] == (names[i], values[i])
    ensures ObjectOf(names, values) == Members(pairs)
  {
    MemberMapExact(pairs);
    var m, n := ObjectOf(names, values).members, MemberMap(pairs);
    forall k | k in n ensures k in m && m[k] == n[k] {
      var i :| 0 <= i < |pairs| && pairs[i].0 == k;
      GetField(names, values, i);
    }
    forall k | k in m ensures k in n {
      var i :| 0 <= i < |names| && names[i] == k;
      assert pairs[i].0 == k;
    }
    assert m == n;
  }

  /* ---- Values ---- */

  function TextOrNull(s: Option<string>): Json {
    match s
    case Some(t) => Str(t)
    case None => Null
  }

  function HashForm(d: Digest): Json {
    Members([("algorithm", Str("sha256")), ("value", Str(d.value))])
  }

  function HashOrNull(d: Option<Digest>): Json {
    match d
    case Some(x) => HashForm(x)
    case None => Null
  }

  function NumberOrNull(n: Option<int>): Json {
    match n
    case Some(x) => Int(x)
    case None => Null
  }

  function InstantOrNull(t: Option<Time>): Json
    requires t.Some? ==> InRange(t.value)
  {
    match t
    case Some(x) => Str(FormatUtc(x))
    case None => Null
  }

  function Texts(xs: seq<string>): Json {
    Arr(seq(|xs|, i requires 0 <= i < |xs| => Str(xs[i])))
  }

  function RefForm(r: InputRef): Json
    requires InRange(r.knowledgeCutoff)
  {
    Members([("schema_version", Str(r.schemaVersion)), ("dataset_release_id", Str(r.releaseId)),
             ("knowledge_cutoff", Str(FormatUtc(r.knowledgeCutoff))),
             ("release_manifest_schema_version", Str(r.manifestSchemaVersion)), ("manifest_hash", HashForm(r.manifestHash))])
  }

  lemma HashSpelled(d: Digest)
    ensures HashJson(d) == HashForm(d)
  {
    Spelled(HASH_NAMES, [Str("sha256"), Str(d.value)], [("algorithm", Str("sha256")), ("value", Str(d.value))]);
  }

  lemma RefSpelled(r: InputRef)
    requires InRange(r.knowledgeCutoff)
    ensures RefJson(r) == RefForm(r)
  {
    hide InRange, FormatUtc, HashJson, HashForm, ObjectOf, Members;
    RefNames();
    HashSpelled(r.manifestHash);
    Spelled(REF_NAMES,
            [Str(r.schemaVersion), Str(r.releaseId), TimeJson(r.knowledgeCutoff), Str(r.manifestSchemaVersion),
             HashJson(r.manifestHash)],
            [("schema_version", Str(r.schemaVersion)), ("dataset_release_id", Str(r.releaseId)),
             ("knowledge_cutoff", Str(FormatUtc(r.knowledgeCutoff))),
             ("release_manifest_schema_version", Str(r.manifestSchemaVersion)), ("manifest_hash", HashForm(r.manifestHash))]);
  }

  lemma ValuesSpelled()
    ensures forall s :: OptionalText(s) == TextOrNull(s)
    ensures forall d :: OptionalHash(d) == HashOrNull(d)
    ensures forall n :: OptionalInt(n) == NumberOrNull(n)
    ensures forall xs :: TextsJson(xs) == Texts(xs)
  {
    forall d ensures OptionalHash(d) == HashOrNull(d) {
      if d.Some? { HashSpelled(d.value); }
    }
  }

  /* ---- Observations ---- */

  /** The members every observation has. */
  function CommonForm(o: Observation, kind: string): (pairs: seq<(string, Json)>)
    requires InRange(o.observedAt) && InRange(o.inputRef.knowledgeCutoff)
    ensures |pairs| == 8
  {
    [("schema_version", Str("0.2.0-draft")), ("observation_id", Str(o.id)), ("release_id", Str(o.releaseId)),
     ("strategy_input_ref", RefForm(o.inputRef)), ("observed_at", Str(FormatUtc(o.observedAt))),
     ("failure_reasons", Texts(o.reasons)), ("supersedes", TextOrNull(o.supersedes)), ("observation_type", Str(kind))]
  }

  function FetchForm(o: Observation): (pairs: seq<(string, Json)>)
    requires o.FetchObservation?
    ensures |pairs| == 7
  {
    [("transport", Str(match o.transport case ReadOnlyHttpApi => "read_only_http_api" case ImmutableExport => "immutable_export")),
     ("source_endpoint", Str(o.endpoint)),
     ("schema_validation_result", Str(match o.result case Passed => "passed" case Failed => "failed")),
     ("receipt_hash", HashOrNull(o.receiptHash)), ("artifact_ids", Texts(o.artifactIds)),
     ("response_or_export_bytes_hash", HashOrNull(o.responseHash)), ("local_cache_keys", Texts(o.cacheKeys))]
  }

  function StatusName(s: Option<ProviderStatus>): Json {
    match s
    case None => Null
    case Some(Building) => Str("building")
    case Some(Validated) => Str("validated")
    case Some(Published) => Str("published")
    case Some(Withdrawn) => Str("withdrawn")
  }

  function StatusForm(o: Observation): (pairs: seq<(string, Json)>)
    requires o.StatusObservation? && (o.recordedAt.Some? ==> InRange(o.recordedAt.value))
    ensures |pairs| == 7
  {
    [("schema_validation_result", Str(match o.result case Passed => "passed" case Failed => "failed")),
     ("status", StatusName(o.status)), ("status_event_id", TextOrNull(o.eventId)),
     ("status_event_hash", HashOrNull(o.eventHash)), ("previous_status_event_hash", HashOrNull(o.previousHash)),
     ("status_sequence", NumberOrNull(o.sequence)), ("status_recorded_at", InstantOrNull(o.recordedAt))]
  }

  function AdmissionForm(o: Observation): (pairs: seq<(string, Json)>)
    requires o.AdmissionObservation?
    ensures |pairs| == 2
  {
    [("status_observation_id", Str(o.statusId)),
     ("admission_status",
      Str(match o.admission case Authorized => "authorized" case Unconfirmed => "unconfirmed" case Denied => "denied"))]
  }

  function ObservationForm(o: Observation): Json
    requires InstantsInRange(o)
  {
    match o
    case FetchObservation(_, _, _, _, _, _, _, _, _, _, _, _, _) =>
      Members(CommonForm(o, "artifact_fetch") + FetchForm(o))
    case StatusObservation(_, _, _, _, _, _, _, _, _, _, _, _, _) =>
      Members(CommonForm(o, "release_status") + StatusForm(o))
    case AdmissionObservation(_, _, _, _, _, _, _, _) =>
      Members(CommonForm(o, "release_admission") + AdmissionForm(o))
  }

  /** Names and values, in the same order. */
  predicate Paired(pairs: seq<(string, Json)>, names: seq<string>, values: seq<Json>) {
    |pairs| == |names| == |values| && forall i :: 0 <= i < |pairs| ==> pairs[i] == (names[i], values[i])
  }

  lemma PairedSum(p: seq<(string, Json)>, q: seq<(string, Json)>, names: seq<string>, v: seq<Json>, w: seq<Json>)
    requires |p| <= |names| && Paired(p, names[..|p|], v) && Paired(q, names[|p|..], w)
    ensures Paired(p + q, names, v + w)
  {
  }

  lemma CommonNames(k: Kind)
    ensures |NamesOf(k)| >= 8
    ensures NamesOf(k)[..8] == ["schema_version", "observation_id", "release_id", "strategy_input_ref", "observed_at",
                                "failure_reasons", "supersedes", "observation_type"]
  {
  }

  lemma CommonPaired(o: Observation, k: Kind)
    requires RefPrintable(o.inputRef) && InRange(o.observedAt)
    ensures |NamesOf(k)| >= 8 && Paired(CommonForm(o, KindText(k)), NamesOf(k)[..8], CommonFields(CommonOf(o), k))
  {
    hide InRange, FormatUtc, RefJson, RefForm, TextsJson, Texts, OptionalText, TextOrNull, KindText, ValidInputRef, NamesOf;
    CommonNames(k);
    RefSpelled(o.inputRef);
    ValuesSpelled();
  }

  lemma FetchPaired(o: Observation)
    requires o.FetchObservation?
    ensures Paired(FetchForm(o), FETCH_NAMES[8..], FetchFields(o))
  {
    hide TextsJson, Texts, OptionalHash, HashOrNull;
    ValuesSpelled();
  }

  lemma StatusPaired(o: Observation)
    requires o.StatusObservation? && (o.recordedAt.Some? ==> InRange(o.recordedAt.value))
    ensures Paired(StatusForm(o), STATUS_NAMES[8..], StatusFields(o))
  {
    hide OptionalHash, HashOrNull, OptionalText, TextOrNull, FormatUtc, InRange;
    ValuesSpelled();
  }

  lemma AdmissionPaired(o: Observation)
    requires o.AdmissionObservation?
    ensures Paired(AdmissionForm(o), ADMISSION_NAMES[8..], AdmissionFields(o))
  {
  }

  /** An observation is written with exactly these members. */
  lemma ObservationSpelled(o: Observation)
    requires Printable(o)
    ensures ObservationJson(o) == ObservationForm(o)
  {
    hide ObjectOf, Members, CommonForm, FetchForm, StatusForm, AdmissionForm, CommonFields, FetchFields, StatusFields, AdmissionFields,
         InRange, ValidObservation, NamesOf, RefPrintable, Distinct;
    PrintableOwn(o);
    var k := o.Kind();
    NamesDistinct(k);
    CommonPaired(o, k);
    KindTexts();
    OwnPaired(o);
    var common := CommonForm(o, KindText(k));
    var own := if o.FetchObservation? then FetchForm(o) else if o.StatusObservation? then StatusForm(o) else AdmissionForm(o);
    PairedSum(common, own, NamesOf(k), CommonFields(CommonOf(o), k), OwnFields(o));
    Spelled(NamesOf(k), CommonFields(CommonOf(o), k) + OwnFields(o), common + own);
  }

  lemma KindTexts()
    ensures KindText(ArtifactFetch) == "artifact_fetch" && KindText(ReleaseStatus) == "release_status"
    ensures KindText(ReleaseAdmission) == "release_admission"
  {
  }

  lemma OwnPaired(o: Observation)
    requires InstantsInRange(o)
    ensures |NamesOf(o.Kind())| >= 8
    ensures Paired(if o.FetchObservation? then FetchForm(o) else if o.StatusObservation? then StatusForm(o) else AdmissionForm(o),
                   NamesOf(o.Kind())[8..], OwnFields(o))
  {
    hide FetchForm, StatusForm, AdmissionForm, FetchFields, StatusFields, AdmissionFields, InRange, Paired;
    match o.Kind()
    case ArtifactFetch => FetchPaired(o);
    case ReleaseStatus => StatusPaired(o);
    case ReleaseAdmission => AdmissionPaired(o);
  }

  /* ---- Confirmations ---- */

  function ItemForm(i: ConfirmationItem): Json
    requires InRange(i.inputRef.knowledgeCutoff) && InRange(i.snapshotAt) && InRange(i.checkedAt)
  {
    Members([("strategy_input_ref", RefForm(i.inputRef)), ("status_observation_id", Str(i.statusId)),
             ("status_event_id", Str(i.eventId)), ("status_event_hash", HashForm(i.eventHash)),
             ("status_sequence", Int(i.sequence)), ("provider_snapshot_at", Str(FormatUtc(i.snapshotAt))),
             ("checked_at", Str(FormatUtc(i.checkedAt))), ("response_bytes_hash", HashForm(i.responseHash))])
  }

  lemma ItemSpelled(i: ConfirmationItem)
    requires ItemPrintable(i)
    ensures ItemJson(i) == ItemForm(i)
  {
    hide InRange, FormatUtc, RefJson, RefForm, HashJson, HashForm, ObjectOf, Members, ItemSyntax;
    ConfirmationNamesDistinct();
    RefSpelled(i.inputRef);
    HashSpelled(i.eventHash);
    HashSpelled(i.responseHash);
    Spelled(ITEM_NAMES, ItemFields(i),
            [("strategy_input_ref", RefForm(i.inputRef)), ("status_observation_id", Str(i.statusId)),
             ("status_event_id", Str(i.eventId)), ("status_event_hash", HashForm(i.eventHash)),
             ("status_sequence", Int(i.sequence)), ("provider_snapshot_at", Str(FormatUtc(i.snapshotAt))),
             ("checked_at", Str(FormatUtc(i.checkedAt))), ("response_bytes_hash", HashForm(i.responseHash))]);
  }

  lemma {:induction false} ItemsSpelled(items: seq<ConfirmationItem>)
    requires ItemsPrintable(items)
    ensures |ItemsJson(items)| == |items|
    ensures forall i :: 0 <= i < |items| ==> ItemPrintable(items[i]) && ItemsJson(items)[i] == ItemForm(items[i])
    decreases |items|
  {
    hide ItemForm, ItemJson, ItemSyntax, InRange;
    if items != [] {
      ItemSpelled(items[0]);
      ItemsSpelled(items[1..]);
      forall i | 0 <= i < |items| ensures ItemPrintable(items[i]) && ItemsJson(items)[i] == ItemForm(items[i]) {
        if i > 0 { assert items[1..][i - 1] == items[i]; }
      }
    }
  }

  function ConfirmationForm(c: Confirmation): Json
    requires FieldsPrintable(c)
  {
    Members([("schema_version", Str("0.1.0-draft")), ("confirmation_id", Str(c.confirmationId)), ("run_id", Str(c.runId)),
             ("root_release_id", Str(c.rootReleaseId)), ("receipt_hash", HashForm(c.receiptHash)),
             ("closure_hash", HashForm(c.closureHash)), ("authority_id", Str(c.authorityId)),
             ("authority_contract_hash", HashForm(c.authorityContract)), ("requested_at", Str(FormatUtc(c.requestedAt))),
             ("confirmed_at", Str(FormatUtc(c.confirmedAt))), ("expires_at", Str(FormatUtc(c.expiresAt))),
             ("items", Arr(ItemsJson(c.items))), ("confirmation_hash", HashForm(c.confirmationHash))])
  }

  /** A confirmation is written with exactly these members; `ItemsSpelled` says how its items are. */
  lemma ConfirmationSpelled(sha: Sha, c: Confirmation)
    requires ConfirmationPrintable(sha, c)
    ensures FieldsPrintable(c) && ConfirmationJson(sha, c) == ConfirmationForm(c)
  {
    hide InRange, FormatUtc, HashJson, HashForm, ObjectOf, Members, ItemsJson, ItemsPrintable, ValidConfirmation,
         ConfirmationInRange, IsSha256;
    ConfirmationNamesDistinct();
    ConfirmationFieldsPrintable(sha, c);
    HashSpelled(c.receiptHash);
    HashSpelled(c.closureHash);
    HashSpelled(c.authorityContract);
    HashSpelled(c.confirmationHash);
    Spelled(CONFIRMATION_NAMES, ConfirmationFields(c),
            [("schema_version", Str("0.1.0-draft")), ("confirmation_id", Str(c.confirmationId)), ("run_id", Str(c.runId)),
             ("root_release_id", Str(c.rootReleaseId)), ("receipt_hash", HashForm(c.receiptHash)),
             ("closure_hash", HashForm(c.closureHash)), ("authority_id", Str(c.authorityId)),
             ("authority_contract_hash", HashForm(c.authorityContract)), ("requested_at", Str(FormatUtc(c.requestedAt))),
             ("confirmed_at", Str(FormatUtc(c.confirmedAt))), ("expires_at", Str(FormatUtc(c.expiresAt))),
             ("items", Arr(ItemsJson(c.items))), ("confirmation_hash", HashForm(c.confirmationHash))]);
  }

  /* ---- Receipts and closures ---- */

  function ArtifactForm(a: Artifact): Json {
    Members([("artifact_id", Str(a.artifactId)), ("item_type", Str(a.itemType)), ("artifact_hash", HashForm(a.hash)),
             ("size_bytes", Int(a.sizeBytes)), ("record_count", NumberOrNull(a.recordCount))])
  }

  lemma ArtifactSpelled(a: Artifact)
    ensures ArtifactJson(a) == ArtifactForm(a)
  {
    hide HashJson, HashForm, ObjectOf, Members;
    DocumentNames();
    HashSpelled(a.hash);
    Spelled(ARTIFACT_NAMES, ArtifactFields(a),
            [("artifact_id", Str(a.artifactId)), ("item_type", Str(a.itemType)), ("artifact_hash", HashForm(a.hash)),
             ("size_bytes", Int(a.sizeBytes)), ("record_count", NumberOrNull(a.recordCount))]);
  }

  function ArtifactForms(artifacts: seq<Artifact>): Json {
    Arr(seq(|artifacts|, i requires 0 <= i < |artifacts| => ArtifactForm(artifacts[i])))
  }

  lemma ArtifactsSpelled(artifacts: seq<Artifact>)
    ensures ArtifactsJson(artifacts) == ArtifactForms(artifacts)
  {
    hide ArtifactJson, ArtifactForm;
    forall i | 0 <= i < |artifacts| ensures ArtifactJson(artifacts[i]) == ArtifactForm(artifacts[i]) {
      ArtifactSpelled(artifacts[i]);
    }
    assert ArtifactsJson(artifacts).items == ArtifactForms(artifacts).items;
  }

  function NodeForm(n: Node): Json
    requires InRange(n.inputRef.knowledgeCutoff)
  {
    Members([("strategy_input_ref", RefForm(n.inputRef)), ("manifest_document_hash", HashForm(n.manifestDocumentHash)),
             ("manifest_size_bytes", Int(n.manifestSize)), ("artifacts", ArtifactForms(n.artifacts)),
             ("dependency_release_ids", Texts(n.dependencies))])
  }

  lemma NodeSpelled(n: Node)
    requires InRange(n.inputRef.knowledgeCutoff)
    ensures NodeJson(n) == NodeForm(n)
  {
    hide HashJson, HashForm, ObjectOf, Members, RefJson, RefForm, InRange, ArtifactsJson, ArtifactForms, TextsJson, Texts;
    DocumentNames();
    HashSpelled(n.manifestDocumentHash);
    RefSpelled(n.inputRef);
    ArtifactsSpelled(n.artifacts);
    ValuesSpelled();
    Spelled(NODE_NAMES, NodeFields(n),
            [("strategy_input_ref", RefForm(n.inputRef)), ("manifest_document_hash", HashForm(n.manifestDocumentHash)),
             ("manifest_size_bytes", Int(n.manifestSize)), ("artifacts", ArtifactForms(n.artifacts)),
             ("dependency_release_ids", Texts(n.dependencies))]);
  }

  function NodeForms(nodes: seq<Node>): Json
    requires NodesInRange(nodes)
  {
    Arr(seq(|nodes|, i requires 0 <= i < |nodes| => NodeForm(nodes[i])))
  }

  lemma NodesSpelled(nodes: seq<Node>)
    requires NodesInRange(nodes)
    ensures NodesJson(nodes) == NodeForms(nodes)
  {
    hide NodeJson, NodeForm, InRange;
    forall i | 0 <= i < |nodes| ensures NodeJson(nodes[i]) == NodeForm(nodes[i]) { NodeSpelled(nodes[i]); }
    assert NodesJson(nodes).items == NodeForms(nodes).items;
  }

  /** What the hash of a receipt covers is written with exactly these members. */
  lemma ReceiptSpelled(r: Receipt)
    requires InRange(r.inputRef.knowledgeCutoff)
    ensures ReceiptIdentityJson(r) ==
            Members([("schema_version", Str(r.schemaVersion)), ("consumer_contract_version", Str(r.contractVersion)),
                     ("strategy_input_ref", RefForm(r.inputRef)), ("artifacts", ArtifactForms(r.artifacts))])
  {
    hide ObjectOf, Members, RefJson, RefForm, InRange, ArtifactsJson, ArtifactForms;
    DocumentNames();
    RefSpelled(r.inputRef);
    ArtifactsSpelled(r.artifacts);
    Spelled(RECEIPT_NAMES, ReceiptFields(r),
            [("schema_version", Str(r.schemaVersion)), ("consumer_contract_version", Str(r.contractVersion)),
             ("strategy_input_ref", RefForm(r.inputRef)), ("artifacts", ArtifactForms(r.artifacts))]);
  }

  lemma ClosureSpelled(c: Closure)
    requires ClosureInRange(c)
    ensures ClosureIdentityJson(c) ==
            Members([("schema_version", Str(c.schemaVersion)), ("root_strategy_input_ref", RefForm(c.root)),
                     ("releases", NodeForms(c.releases))])
  {
    hide ObjectOf, Members, RefJson, RefForm, InRange, NodesJson, NodeForms, NodesInRange;
    DocumentNames();
    RefSpelled(c.root);
    NodesSpelled(c.releases);
    Spelled(CLOSURE_NAMES, ClosureFields(c),
            [("schema_version", Str(c.schemaVersion)), ("root_strategy_input_ref", RefForm(c.root)),
             ("releases", NodeForms(c.releases))]);
  }

  /** The stored text has the hash beside them. */
  lemma StoredTextsSpelled(r: Receipt, c: Closure)
    requires InRange(r.inputRef.knowledgeCutoff) && ClosureInRange(c)
    ensures ReceiptIdentityJson(r).Obj? && ClosureIdentityJson(c).Obj?
    ensures ReceiptTextOf(r) == Print(Obj(ReceiptIdentityJson(r).members["receipt_hash" := HashForm(r.receiptHash)]))
    ensures ClosureTextOf(c) == Print(Obj(ClosureIdentityJson(c).members["closure_hash" := HashForm(c.closureHash)]))
  {
    hide Print, HashJson, HashForm, ReceiptFields, ClosureFields, InRange, ClosureInRange;
    HashSpelled(r.receiptHash);
    HashSpelled(c.closureHash);
  }
}
