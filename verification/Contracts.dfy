/**
 The provider-neutral contracts exchanged with the consumption store: input
 references, receipts, observations, retention closures, status confirmations
 and run manifests, each with the conditions its constructor enforces.

 Instants are whole microseconds; module UtcTime gives their canonical text.
 A contract value stands for its canonical bytes; modules ContractCodec and
 DocumentTexts show that the two determine each other.
 */
module Contracts {
  import opened Basics

  type Id = string
  type Time = int
  newtype byte = x: int | 0 <= x < 256
  type Bytes = seq<byte>

  const MAX_STATUS_SEQUENCE := 0x7fff_ffff_ffff_ffff
  const RECEIPT_SCHEMA_VERSION := "0.1.0-draft"
  const CLOSURE_SCHEMA_VERSION := "0.1.0-draft"
  const CONFIRMATION_SCHEMA_VERSION := "0.1.0-draft"
  const OBSERVATION_SCHEMA_VERSION := "0.2.0-draft"

  /* ---- Identifier syntax ---- */

  predicate IsDigit(c: char) { '0' <= c <= '9' }

  predicate IsAlphanumeric(c: char) {
    IsDigit(c) || 'a' <= c <= 'z' || 'A' <= c <= 'Z'
  }

  predicate IsIdChar(c: char) {
    IsAlphanumeric(c) || c == '.' || c == '_' || c == ':' || c == '-'
  }

  predicate IsId(s: string) {
    && 1 <= |s| <= 128
    && IsAlphanumeric(s[0])
    && forall i :: 0 <= i < |s| ==> IsIdChar(s[i])
  }

  predicate IsProviderId(s: string) {
    && 1 <= |s| <= 256
    && IsAlphanumeric(s[0])
    && forall i :: 0 <= i < |s| ==> IsIdChar(s[i]) || s[i] == '/'
  }

  function ToLower(c: char): char {
    if 'A' <= c <= 'Z' then c - 'A' + 'a' else c
  }

  /** Release identifiers are exact: any casing of "latest" is refused. */
  predicate IsReleaseId(s: string) {
    IsId(s) && seq(|s|, i requires 0 <= i < |s| => ToLower(s[i])) != "latest"
  }

  predicate IsSha256(s: string) {
    |s| == 64 && forall i :: 0 <= i < |s| ==> IsDigit(s[i]) || 'a' <= s[i] <= 'f'
  }

  /** The code points that Python strips as white space. */
  predicate IsSpace(c: char) {
    var n := c as int;
    || 9 <= n <= 13 || 28 <= n <= 32 || n == 0x85 || n == 0xA0 || n == 0x1680
    || 0x2000 <= n <= 0x200A || n == 0x2028 || n == 0x2029 || n == 0x202F
    || n == 0x205F || n == 0x3000
  }

  predicate IsText(s: string) {
    exists i :: 0 <= i < |s| && !IsSpace(s[i])
  }

  /* ---- Semantic versions ---- */

  function IndexOf(s: string, c: char): (n: nat)
    ensures n <= |s|
    ensures n < |s| ==> s[n] == c
  {
    if s == [] || s[0] == c then 0 else 1 + IndexOf(s[1..], c)
  }

  predicate IsNumericIdentifier(s: string) {
    && s != []
    && (forall i :: 0 <= i < |s| ==> IsDigit(s[i]))
    && (s[0] == '0' ==> |s| == 1)
  }

  /** Non-empty runs of letters, digits and hyphens separated by single dots. */
  predicate IsDottedIdentifiers(s: string)
    decreases |s|
  {
    var n := IndexOf(s, '.');
    && n > 0
    && (forall i :: 0 <= i < n ==> IsAlphanumeric(s[i]) || s[i] == '-')
    && (n < |s| ==> IsDottedIdentifiers(s[n + 1..]))
  }

  predicate IsVersionCore(s: string) {
    var a := IndexOf(s, '.');
    && a < |s|
    && IsNumericIdentifier(s[..a])
    && var t := s[a + 1..];
       var b := IndexOf(t, '.');
       b < |t| && IsNumericIdentifier(t[..b]) && IsNumericIdentifier(t[b + 1..])
  }

  predicate IsVersion(s: string) {
    var plus := IndexOf(s, '+');
    var head := s[..plus];
    var dash := IndexOf(head, '-');
    && (plus < |s| ==> IsDottedIdentifiers(s[plus + 1..]))
    && (dash < |head| ==> IsDottedIdentifiers(head[dash + 1..]))
    && IsVersionCore(head[..dash])
  }

  /* ---- Digests and hashed documents ---- */

  datatype Digest = Digest(value: string)

  predicate ValidDigest(d: Digest) { IsSha256(d.value) }

  /** Everything the system hashes; each constructor is one canonical payload. */
  datatype Document =
    | Blob(content: Bytes)
    | ReceiptIdentity(schemaVersion: string, contractVersion: string, inputRef: InputRef,
                      artifacts: seq<Artifact>)
    | ReceiptText(receipt: Receipt)
    | ClosureIdentity(schemaVersion: string, inputRef: InputRef, nodes: seq<Node>)
    | ClosureText(closure: Closure)
    | ObservationText(observation: Observation)
    | ConfirmationIdentity(confirmation: Confirmation)
    | ConfirmationText(confirmation: Confirmation)
    | ManifestText(manifest: RunManifest)

  type Sha = Document -> Digest

  /**
   Different contents have different hashes. Nothing is said across kinds: a blob
   may hold the very bytes of another document.
   */
  ghost predicate BlobsApart(sha: Sha) {
    forall a: Bytes, b: Bytes :: sha(Blob(a)) == sha(Blob(b)) ==> a == b
  }

  ghost predicate ConfirmationsApart(sha: Sha) {
    forall a: Confirmation, b: Confirmation ::
      sha(ConfirmationIdentity(a)) == sha(ConfirmationIdentity(b)) ==> a == b
  }

  /* ---- Input references ---- */

  datatype InputRef = InputRef(
    schemaVersion: string,
    releaseId: Id,
    knowledgeCutoff: Time,
    manifestSchemaVersion: string,
    manifestHash: Digest)

  predicate ValidInputRef(r: InputRef) {
    && IsVersion(r.schemaVersion)
    && IsReleaseId(r.releaseId)
    && IsVersion(r.manifestSchemaVersion)
    && ValidDigest(r.manifestHash)
  }

  /* ---- Receipts ---- */

  datatype Artifact = Artifact(
    artifactId: Id, itemType: string, hash: Digest, sizeBytes: nat, recordCount: Option<nat>)

  predicate ValidArtifact(a: Artifact) {
    IsProviderId(a.artifactId) && IsId(a.itemType) && ValidDigest(a.hash)
  }

  predicate ArtifactsNormal(artifacts: seq<Artifact>) {
    && artifacts != []
    && (forall i :: 0 <= i < |artifacts| ==> ValidArtifact(artifacts[i]))
    && forall i, j :: 0 <= i < j < |artifacts| ==>
         Less(artifacts[i].artifactId, artifacts[j].artifactId)
  }

  datatype Receipt = Receipt(
    schemaVersion: string,
    contractVersion: string,
    inputRef: InputRef,
    artifacts: seq<Artifact>,
    receiptHash: Digest)

  function ReceiptPayload(r: Receipt): Document {
    ReceiptIdentity(r.schemaVersion, r.contractVersion, r.inputRef, r.artifacts)
  }

  predicate ValidReceipt(sha: Sha, r: Receipt) {
    && r.schemaVersion == RECEIPT_SCHEMA_VERSION
    && IsVersion(r.contractVersion) && ValidInputRef(r.inputRef)
    && ArtifactsNormal(r.artifacts)
    && r.receiptHash == sha(ReceiptPayload(r))
  }

  /* ---- Retention closures ---- */

  datatype Node = Node(
    inputRef: InputRef,
    manifestDocumentHash: Digest,
    manifestSize: nat,
    artifacts: seq<Artifact>,
    dependencies: seq<Id>)
  {
    function Id(): string { inputRef.releaseId }
  }

  predicate ValidNode(n: Node) {
    && ValidInputRef(n.inputRef) && ValidDigest(n.manifestDocumentHash)
    && n.manifestSize > 0
    && ArtifactsNormal(n.artifacts)
    && StrictlySorted(n.dependencies)
    && n.Id() !in n.dependencies
  }

  datatype Closure = Closure(
    schemaVersion: string, root: InputRef, releases: seq<Node>, closureHash: Digest)

  function ClosurePayload(c: Closure): Document {
    ClosureIdentity(c.schemaVersion, c.root, c.releases)
  }

  predicate NodesNormal(nodes: seq<Node>) {
    && nodes != []
    && forall i, j :: 0 <= i < j < |nodes| ==> Less(nodes[i].Id(), nodes[j].Id())
  }

  predicate NodesDistinct(nodes: seq<Node>) {
    forall i, j :: 0 <= i < j < |nodes| ==> nodes[i].Id() != nodes[j].Id()
  }

  /** The conditions on the nodes; those on their graph are in RetentionGraph. */
  predicate ClosureShape(sha: Sha, c: Closure) {
    && c.schemaVersion == CLOSURE_SCHEMA_VERSION
    && NodesNormal(c.releases)
    && (forall i :: 0 <= i < |c.releases| ==> ValidNode(c.releases[i]))
    && (exists i :: 0 <= i < |c.releases| && c.releases[i].inputRef == c.root)
    && c.closureHash == sha(ClosurePayload(c))
  }

  /* ---- Observations ---- */

  datatype Kind = ArtifactFetch | ReleaseStatus | ReleaseAdmission
  datatype Transport = ReadOnlyHttpApi | ImmutableExport
  datatype ValidationResult = Passed | Failed
  datatype ProviderStatus = Building | Validated | Published | Withdrawn
  datatype AdmissionStatus = Authorized | Unconfirmed | Denied

  datatype Observation =
    | FetchObservation(
        id: Id, releaseId: Id, inputRef: InputRef, observedAt: Time, supersedes: Option<Id>,
        reasons: seq<string>, transport: Transport, endpoint: string,
        result: ValidationResult, receiptHash: Option<Digest>, artifactIds: seq<Id>,
        responseHash: Option<Digest>, cacheKeys: seq<string>)
    | StatusObservation(
        id: Id, releaseId: Id, inputRef: InputRef, observedAt: Time, supersedes: Option<Id>,
        reasons: seq<string>, result: ValidationResult, status: Option<ProviderStatus>,
        eventId: Option<string>, eventHash: Option<Digest>, previousHash: Option<Digest>,
        sequence: Option<int>, recordedAt: Option<Time>)
    | AdmissionObservation(
        id: Id, releaseId: Id, inputRef: InputRef, observedAt: Time, supersedes: Option<Id>,
        reasons: seq<string>, statusId: Id, admission: AdmissionStatus)
  {
    function Kind(): Kind {
      match this
      case FetchObservation(_, _, _, _, _, _, _, _, _, _, _, _, _) => ArtifactFetch
      case StatusObservation(_, _, _, _, _, _, _, _, _, _, _, _, _) => ReleaseStatus
      case AdmissionObservation(_, _, _, _, _, _, _, _) => ReleaseAdmission
    }

    /** A status observation that carries a validated provider event. */
    predicate PassedStatus() { StatusObservation? && result == Passed }
  }

  /** What the three constructors demand of the spelling of their fields. */
  predicate ObservationSyntax(o: Observation) {
    && IsId(o.id) && IsReleaseId(o.releaseId) && ValidInputRef(o.inputRef)
    && (o.supersedes.Some? ==> IsId(o.supersedes.value))
    && Distinct(o.reasons) && (forall i :: 0 <= i < |o.reasons| ==> IsId(o.reasons[i]))
    && match o
       case FetchObservation(_, _, _, _, _, _, _, endpoint, _, receiptHash, artifactIds, responseHash, cacheKeys) =>
         && IsText(endpoint)
         && (receiptHash.Some? ==> ValidDigest(receiptHash.value))
         && (responseHash.Some? ==> ValidDigest(responseHash.value))
         && StrictlySorted(artifactIds)
         && (forall i :: 0 <= i < |artifactIds| ==> IsProviderId(artifactIds[i]))
         && Distinct(cacheKeys) && (forall i :: 0 <= i < |cacheKeys| ==> IsText(cacheKeys[i]))
       case StatusObservation(_, _, _, _, _, _, _, _, eventId, eventHash, previousHash, sequence, _) =>
         && (eventId.Some? ==> IsProviderId(eventId.value))
         && (eventHash.Some? ==> ValidDigest(eventHash.value))
         && (previousHash.Some? ==> ValidDigest(previousHash.value))
         && (sequence.Some? ==> 1 <= sequence.value <= MAX_STATUS_SEQUENCE)
       case AdmissionObservation(_, _, _, _, _, _, statusId, _) =>
         IsId(statusId)
  }

  /** What the three constructors demand of how their fields fit together. */
  predicate ObservationShape(o: Observation) {
    && o.inputRef.releaseId == o.releaseId
    && o.supersedes != Some(o.id)
    && match o
       case FetchObservation(_, _, _, _, _, reasons, _, _, result, receiptHash, artifactIds, _, cacheKeys) =>
         if result == Passed
         then receiptHash.Some? && artifactIds != [] && reasons == []
         else receiptHash.None? && artifactIds == [] && cacheKeys == [] && reasons != []
       case StatusObservation(_, _, _, observedAt, _, reasons, result, status, eventId, eventHash, previousHash, sequence, recordedAt) =>
         && (recordedAt.Some? ==> recordedAt.value <= observedAt)
         && if result == Passed
            then
              && status.Some? && eventId.Some? && eventHash.Some? && sequence.Some?
              && recordedAt.Some? && reasons == []
              && 1 <= sequence.value
              && (if sequence.value == 1
                  then previousHash.None? && status.value == Building
                  else previousHash.Some?)
            else
              && status.None? && eventId.None? && eventHash.None? && previousHash.None?
              && sequence.None? && recordedAt.None? && reasons != []
       case AdmissionObservation(_, _, _, _, _, reasons, _, admission) =>
         (admission == Authorized) <==> reasons == []
  }

  predicate ValidObservation(o: Observation) {
    ObservationSyntax(o) && ObservationShape(o)
  }

  /* ---- Status confirmations ---- */

  datatype ConfirmationItem = ConfirmationItem(
    inputRef: InputRef, statusId: Id, eventId: string, eventHash: Digest, sequence: int,
    snapshotAt: Time, checkedAt: Time, responseHash: Digest)
  {
    function Id(): string { inputRef.releaseId }
  }

  datatype Confirmation = Confirmation(
    schemaVersion: string, confirmationId: Id, runId: Id, rootReleaseId: Id,
    receiptHash: Digest, closureHash: Digest, authorityId: Id, authorityContract: Digest,
    requestedAt: Time, confirmedAt: Time, expiresAt: Time,
    items: seq<ConfirmationItem>, confirmationHash: Digest)

  predicate ItemsNormal(items: seq<ConfirmationItem>) {
    && items != []
    && forall i, j :: 0 <= i < j < |items| ==> Less(items[i].Id(), items[j].Id())
  }

  /** The identity payload leaves the confirmation's own hash out. */
  function ConfirmationPayload(c: Confirmation): Document {
    ConfirmationIdentity(c.(confirmationHash := Digest("")))
  }

  predicate ConfirmationWindow(c: Confirmation) {
    && c.requestedAt <= c.confirmedAt < c.expiresAt
    && forall i :: 0 <= i < |c.items| ==> c.requestedAt <= c.items[i].checkedAt <= c.confirmedAt
  }

  predicate ConfirmationSyntax(c: Confirmation) {
    && IsId(c.confirmationId) && IsId(c.runId) && IsReleaseId(c.rootReleaseId)
    && ValidDigest(c.receiptHash) && ValidDigest(c.closureHash)
    && IsId(c.authorityId) && ValidDigest(c.authorityContract)
    && ValidDigest(c.confirmationHash)
    && forall i :: 0 <= i < |c.items| ==> ItemSyntax(c.items[i])
  }

  predicate ItemSyntax(item: ConfirmationItem) {
    && ValidInputRef(item.inputRef) && IsId(item.statusId) && IsProviderId(item.eventId)
    && ValidDigest(item.eventHash) && 1 <= item.sequence <= MAX_STATUS_SEQUENCE
    && ValidDigest(item.responseHash)
  }

  predicate ValidConfirmation(sha: Sha, c: Confirmation) {
    && c.schemaVersion == CONFIRMATION_SCHEMA_VERSION
    && ConfirmationSyntax(c)
    && ConfirmationWindow(c)
    && ItemsNormal(c.items)
    && (exists i :: 0 <= i < |c.items| && c.items[i].Id() == c.rootReleaseId)
    && c.confirmationHash == sha(ConfirmationPayload(c))
  }

  /* ---- Run manifests ---- */

  /** The fields the store reads; `rest` is the remainder of the canonical text. */
  datatype RunManifest = RunManifest(
    runId: Id, createdAt: Time, inputRef: InputRef, receiptHash: Digest,
    fetchId: Id, statusId: Id, admissionId: Id, rest: string)
  {
    function Root(): Id { inputRef.releaseId }
  }

  predicate ValidManifest(m: RunManifest) {
    m.inputRef.knowledgeCutoff <= m.createdAt
  }
}
