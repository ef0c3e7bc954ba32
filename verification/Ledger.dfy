/**
 The consumption store as an abstract ledger: the canonical documents it holds,
 the log of observations, and the pins of admitted runs. Each transaction either
 commits, recognises an exact retry, or is refused and changes nothing.
 */
module Ledgers {
  import opened Basics
  import opened Contracts
  import opened StatusEvents
  import opened ObservationLog
  import opened RetentionGraph
  import opened RetentionIndex

  datatype Policy = Policy(maxAge: int, maxSkew: int)

  /** The hash in use and the trusted authority contracts. */
  datatype Config = Config(sha: Sha, policies: map<(Id, Digest), Policy>)

  predicate ValidConfig(cfg: Config) {
    forall k :: k in cfg.policies ==> cfg.policies[k].maxAge > 0 && cfg.policies[k].maxSkew >= 0
  }

  type Files = map<Digest, Bytes>

  datatype StoredManifest = StoredManifest(hash: Digest, sizeBytes: nat, persistedAt: Time)
  datatype StoredArtifact = StoredArtifact(artifact: Artifact, persistedAt: Time)
  datatype ClosureEntry = ClosureEntry(closure: Closure, persistedAt: Time)
  datatype ConfirmationEntry = ConfirmationEntry(confirmation: Confirmation, persistedAt: Time)

  /** `position` is the length of the log when the run was pinned. */
  datatype PinEntry = PinEntry(
    manifest: RunManifest, closureHash: Digest, statusOf: map<Id, Id>,
    binding: Option<Digest>, pinnedAt: Time, position: nat)

  datatype Ledger = Ledger(
    refs: Refs,
    objects: map<Digest, nat>,
    manifests: map<Id, StoredManifest>,
    artifacts: map<(Id, Id), StoredArtifact>,
    closures: map<Digest, ClosureEntry>,
    receipts: Receipts,
    log: Log,
    confirmations: map<Digest, ConfirmationEntry>,
    pins: map<Id, PinEntry>)

  const EmptyLedger := Ledger(map[], map[], map[], map[], map[], map[], [], map[], map[])

  datatype Outcome = Committed | Replayed | Refused

  /* ---- Content files ---- */

  predicate FileVerifies(sha: Sha, files: Files, digest: Digest, size: nat) {
    digest in files && |files[digest]| == size && sha(Blob(files[digest])) == digest
  }

  predicate NodeFilesVerify(sha: Sha, files: Files, n: Node) {
    && FileVerifies(sha, files, n.manifestDocumentHash, n.manifestSize)
    && forall j :: 0 <= j < |n.artifacts| ==>
         FileVerifies(sha, files, n.artifacts[j].hash, n.artifacts[j].sizeBytes)
  }

  predicate ClosureFilesVerify(sha: Sha, files: Files, c: Closure) {
    forall i :: 0 <= i < |c.releases| ==> NodeFilesVerify(sha, files, c.releases[i])
  }

  /** Every registered object has a file with its size and digest. */
  predicate FilesIntact(sha: Sha, files: Files, objects: map<Digest, nat>) {
    forall d :: d in objects ==> FileVerifies(sha, files, d, objects[d])
  }

  /* ---- Coherence ---- */

  predicate NodeStored(l: Ledger, n: Node) {
    && n.Id() in l.refs && l.refs[n.Id()] == n.inputRef
    && n.Id() in l.manifests
    && l.manifests[n.Id()].hash == n.manifestDocumentHash && l.manifests[n.Id()].sizeBytes == n.manifestSize
    && n.manifestDocumentHash in l.objects && l.objects[n.manifestDocumentHash] == n.manifestSize
    && forall j :: 0 <= j < |n.artifacts| ==> ArtifactStored(l, n.Id(), n.artifacts[j])
  }

  predicate ArtifactStored(l: Ledger, r: Id, a: Artifact) {
    && (r, a.artifactId) in l.artifacts && l.artifacts[(r, a.artifactId)].artifact == a
    && a.hash in l.objects && l.objects[a.hash] == a.sizeBytes
  }

  ghost predicate ClosureCoherent(cfg: Config, l: Ledger, h: Digest, c: Closure) {
    && ValidClosure(cfg.sha, c) && c.closureHash == h
    && forall i :: 0 <= i < |c.releases| ==> NodeStored(l, c.releases[i])
  }

  /** The receipt lists exactly the artifacts of the closure's root node. */
  predicate RootMatches(r: Receipt, c: Closure) {
    && c.root == r.inputRef
    && forall i :: 0 <= i < |c.releases| && c.releases[i].Id() == r.inputRef.releaseId ==>
         c.releases[i].artifacts == r.artifacts
  }

  ghost predicate ReceiptCoherent(cfg: Config, l: Ledger, h: Digest, e: ReceiptEntry) {
    && ValidReceipt(cfg.sha, e.receipt) && e.receipt.receiptHash == h
    && e.closureHash in l.closures
    && RootMatches(e.receipt, l.closures[e.closureHash].closure)
  }

  predicate SameContract(a: Receipt, b: Receipt) {
    a.inputRef.releaseId == b.inputRef.releaseId && a.contractVersion == b.contractVersion
  }

  /** The largest integer that a column holds. */
  const MAX_COLUMN := 0x7fff_ffff_ffff_ffff

  predicate CountFits(a: Artifact) {
    a.recordCount.Some? ==> a.recordCount.value <= MAX_COLUMN
  }

  predicate CountsFit(index: map<(Id, Id), Artifact>) {
    forall key :: key in index ==> CountFits(index[key])
  }

  predicate CountsStored(rows: map<(Id, Id), StoredArtifact>) {
    forall key :: key in rows ==> CountFits(rows[key].artifact)
  }

  ghost predicate MaterialCoherent(cfg: Config, l: Ledger) {
    && CountsStored(l.artifacts)
    && (forall r :: r in l.refs ==> l.refs[r].releaseId == r)
    && (forall h :: h in l.closures ==> ClosureCoherent(cfg, l, h, l.closures[h].closure))
    && (forall h :: h in l.receipts ==> ReceiptCoherent(cfg, l, h, l.receipts[h]))
    && (forall h, h' | h in l.receipts && h' in l.receipts ::
          SameContract(l.receipts[h].receipt, l.receipts[h'].receipt) ==> h == h')
  }

  /** A status observation of the release, passed and published, with this identifier. */
  predicate PublishedEntry(log: Log, n: nat, r: Id, id: Id) {
    n < |log| && Matches(log[n], r, ReleaseStatus) && log[n].observation.id == id
    && PublishedStatus(log[n].observation)
  }

  ghost predicate PinRetains(l: Ledger, run: Id, p: PinEntry) {
    && p.manifest.runId == run
    && p.manifest.receiptHash in l.receipts
    && l.receipts[p.manifest.receiptHash].closureHash == p.closureHash
    && l.receipts[p.manifest.receiptHash].receipt.inputRef == p.manifest.inputRef
    && p.closureHash in l.closures
    && p.statusOf.Keys == NodeIds(l.closures[p.closureHash].closure.releases)
    && p.manifest.Root() in p.statusOf
    && forall r :: r in p.statusOf ==> exists n :: 0 <= n < |l.log| && PublishedEntry(l.log, n, r, p.statusOf[r])
  }

  predicate Binds(c: Confirmation, m: RunManifest, closureHash: Digest) {
    && c.runId == m.runId && c.rootReleaseId == m.Root()
    && c.receiptHash == m.receiptHash && c.closureHash == closureHash
  }

  /** The three heads the manifest names, and the local authorisation. */
  predicate RootHeads(log: Log, m: RunManifest) {
    && HeadId(log, m.Root(), ArtifactFetch) == Some(m.fetchId)
    && HeadId(log, m.Root(), ReleaseStatus) == Some(m.statusId)
    && HeadId(log, m.Root(), ReleaseAdmission) == Some(m.admissionId)
    && AuthorizedFor(Head(log, m.Root(), ReleaseAdmission).value.observation, m.statusId)
  }

  predicate PublishedHead(log: Log, r: Id, id: Id) {
    var h := Head(log, r, ReleaseStatus);
    h.Some? && h.value.observation.id == id && PublishedStatus(h.value.observation)
  }

  predicate HeadsPublished(log: Log, statusOf: map<Id, Id>) {
    forall r :: r in statusOf ==> PublishedHead(log, r, statusOf[r])
  }

  /** recorded <= observed <= persisted <= created <= pinned, with no slack. */
  predicate Timely(log: Log, r: Id, created: Time, pinned: Time) {
    var h := Head(log, r, ReleaseStatus);
    && h.Some? && h.value.observation.PassedStatus() && h.value.observation.recordedAt.Some?
    && h.value.observation.recordedAt.value <= h.value.observation.observedAt
       <= h.value.persistedAt <= created <= pinned
  }

  ghost predicate PinBound(l: Ledger, p: PinEntry) {
    && p.position <= |l.log|
    && var atPin := l.log[..p.position];
       && RootHeads(atPin, p.manifest)
       && HeadsPublished(atPin, p.statusOf)
       && (forall r :: r in p.statusOf ==> Timely(atPin, r, p.manifest.createdAt, p.pinnedAt))
       && p.manifest.inputRef.knowledgeCutoff <= p.manifest.createdAt
       && p.manifest.Root() in p.statusOf && p.statusOf[p.manifest.Root()] == p.manifest.statusId
  }

  ghost predicate BindingCoherent(l: Ledger, run: Id, p: PinEntry)
    requires p.binding.Some?
  {
    && p.binding.value in l.confirmations
    && Binds(l.confirmations[p.binding.value].confirmation, p.manifest, p.closureHash)
  }

  ghost predicate PinCoherent(l: Ledger, run: Id, p: PinEntry) {
    && PinRetains(l, run, p)
    && (p.binding.Some? ==> BindingCoherent(l, run, p) && PinBound(l, p))
  }

  ghost predicate ConfirmationCoherent(cfg: Config, l: Ledger, h: Digest, c: Confirmation) {
    && ValidConfirmation(cfg.sha, c) && c.confirmationHash == h
    && c.runId in l.pins && l.pins[c.runId].binding == Some(h)
  }

  ghost predicate RunsCoherent(cfg: Config, l: Ledger) {
    && (forall run :: run in l.pins ==> PinCoherent(l, run, l.pins[run]))
    && (forall h :: h in l.confirmations ==> ConfirmationCoherent(cfg, l, h, l.confirmations[h].confirmation))
    && (forall h, h' | h in l.confirmations && h' in l.confirmations ::
          l.confirmations[h].confirmation.confirmationId == l.confirmations[h'].confirmation.confirmationId
          ==> h == h')
  }

  ghost predicate Coherent(cfg: Config, l: Ledger) {
    && MaterialCoherent(cfg, l)
    && LogCoherent(l.refs, l.receipts, l.log)
    && RunsCoherent(cfg, l)
  }

  /* ---- Appending an observation ---- */

  predicate RecordedAs(log: Log, o: Observation) {
    exists i :: 0 <= i < |log| && log[i].observation == o
  }

  function AppendOutcome(l: Ledger, o: Observation, now: Time): Outcome {
    if now < o.observedAt then Refused
    else if o.releaseId in l.refs && l.refs[o.releaseId] != o.inputRef then Refused
    else if Recorded(l.log, o.id) then (if RecordedAs(l.log, o) then Replayed else Refused)
    else if Admissible(l.refs[o.releaseId := o.inputRef], l.receipts, l.log, o) then Committed
    else Refused
  }

  /** Something fixed on record would be mapped anew: the reference, the identifier, or the place in the chain. */
  predicate Remaps(l: Ledger, o: Observation, now: Time) {
    o.observedAt <= now
    && (|| (o.releaseId in l.refs && l.refs[o.releaseId] != o.inputRef)
        || (if Recorded(l.log, o.id) then !RecordedAs(l.log, o)
            else o.supersedes != HeadId(l.log, o.releaseId, o.Kind())))
  }

  function WithObservation(l: Ledger, o: Observation, now: Time): Ledger {
    l.(refs := l.refs[o.releaseId := o.inputRef], log := l.log + [Entry(o, now)])
  }

  function Appended(l: Ledger, o: Observation, now: Time): Ledger {
    if AppendOutcome(l, o, now) == Committed then WithObservation(l, o, now) else l
  }

  /* ---- Recording a verified consumption ---- */

  datatype Consumption = Consumption(
    receipt: Receipt, closure: Closure, artifacts: map<(Id, Id), Bytes>, manifests: map<Id, Bytes>)

  function RequiredDigests(nodes: seq<Node>): set<Digest> {
    (set i | 0 <= i < |nodes| :: nodes[i].manifestDocumentHash)
    + (set i, j | 0 <= i < |nodes| && 0 <= j < |nodes[i].artifacts| :: nodes[i].artifacts[j].hash)
  }

  predicate PayloadVerifies(sha: Sha, content: Bytes, digest: Digest, size: nat) {
    sha(Blob(content)) == digest && |content| == size
  }

  predicate NodePayloads(sha: Sha, q: Consumption, n: Node) {
    && n.Id() in q.manifests
    && PayloadVerifies(sha, q.manifests[n.Id()], n.manifestDocumentHash, n.manifestSize)
    && forall j :: 0 <= j < |n.artifacts| ==>
         var key := (n.Id(), n.artifacts[j].artifactId);
         key in q.artifacts && PayloadVerifies(sha, q.artifacts[key], n.artifacts[j].hash, n.artifacts[j].sizeBytes)
  }

  predicate CollisionFree(sha: Sha, q: Consumption) {
    var contents := q.artifacts.Values + q.manifests.Values;
    forall a, b :: a in contents && b in contents && sha(Blob(a)) == sha(Blob(b)) ==> a == b
  }

  /** The payloads cover the closure exactly and match what it declares. */
  predicate PayloadsMatch(sha: Sha, q: Consumption) {
    && RootMatches(q.receipt, q.closure)
    && q.artifacts.Keys == ArtifactIndex(q.closure.releases).Keys
    && q.manifests.Keys == NodeIds(q.closure.releases)
    && (forall i :: 0 <= i < |q.closure.releases| ==> NodePayloads(sha, q, q.closure.releases[i]))
    && CollisionFree(sha, q)
  }

  /** Files are only added, each under the digest of its content. */
  predicate FilesGrow(sha: Sha, files: Files, files': Files) {
    && (forall d :: d in files ==> d in files' && files'[d] == files[d])
    && (forall d :: d in files' && d !in files ==> sha(Blob(files'[d])) == d)
  }

  predicate NodeConsistent(l: Ledger, n: Node) {
    && (n.Id() in l.refs ==> l.refs[n.Id()] == n.inputRef)
    && (n.Id() in l.manifests ==>
          l.manifests[n.Id()].hash == n.manifestDocumentHash && l.manifests[n.Id()].sizeBytes == n.manifestSize)
    && (n.manifestDocumentHash in l.objects ==> l.objects[n.manifestDocumentHash] == n.manifestSize)
    && forall j :: 0 <= j < |n.artifacts| ==> ArtifactConsistent(l, n.Id(), n.artifacts[j])
  }

  predicate ArtifactConsistent(l: Ledger, r: Id, a: Artifact) {
    && ((r, a.artifactId) in l.artifacts ==> l.artifacts[(r, a.artifactId)].artifact == a)
    && (a.hash in l.objects ==> l.objects[a.hash] == a.sizeBytes)
  }

  predicate ContractFree(l: Ledger, r: Receipt) {
    forall h :: h in l.receipts && SameContract(l.receipts[h].receipt, r) ==> h == r.receiptHash
  }

  predicate NodesConsistent(l: Ledger, nodes: seq<Node>) {
    forall i :: 0 <= i < |nodes| ==> NodeConsistent(l, nodes[i])
  }

  /** The consumption says something else than what is stored. */
  predicate Contradicts(l: Ledger, q: Consumption) {
    var h := q.receipt.receiptHash;
    var k := q.closure.closureHash;
    || !NodesConsistent(l, q.closure.releases) || !ContractFree(l, q.receipt)
    || (h in l.receipts && (l.receipts[h].receipt != q.receipt || l.receipts[h].closureHash != k || k !in l.closures))
    || (k in l.closures && l.closures[k].closure != q.closure)
  }

  function ConsumeOutcome(l: Ledger, q: Consumption): Outcome {
    if Contradicts(l, q) then Refused
    else if q.receipt.receiptHash in l.receipts then Replayed
    else if !CountsFit(ArtifactIndex(q.closure.releases)) then Refused
    else Committed
  }

  function ManifestRows(nodes: seq<Node>, now: Time): map<Id, StoredManifest> {
    var index := ReleaseIndex(nodes);
    map r | r in index :: StoredManifest(index[r].manifestHash, index[r].manifestSize, now)
  }

  function ArtifactRows(nodes: seq<Node>, now: Time): map<(Id, Id), StoredArtifact> {
    var index := ArtifactIndex(nodes);
    map key | key in index :: StoredArtifact(index[key], now)
  }

  function ObjectRows(nodes: seq<Node>, files: Files): map<Digest, nat> {
    map d | d in RequiredDigests(nodes) && d in files :: |files[d]|
  }

  /** Existing rows win; `files` is the content store after the payloads are written. */
  function WithConsumption(l: Ledger, q: Consumption, files: Files, now: Time): Ledger {
    var nodes := q.closure.releases;
    var k := q.closure.closureHash;
    l.(refs := RefIndex(nodes) + l.refs,
       objects := ObjectRows(nodes, files) + l.objects,
       manifests := ManifestRows(nodes, now) + l.manifests,
       artifacts := ArtifactRows(nodes, now) + l.artifacts,
       closures := if k in l.closures then l.closures else l.closures[k := ClosureEntry(q.closure, now)],
       receipts := l.receipts[q.receipt.receiptHash := ReceiptEntry(q.receipt, k, now)])
  }

  function Consumed(l: Ledger, q: Consumption, files: Files, now: Time): Ledger {
    if ConsumeOutcome(l, q) == Committed then WithConsumption(l, q, files, now) else l
  }

  /* ---- Pinning a run ---- */

  predicate ReceiptUsable(l: Ledger, m: RunManifest, now: Time) {
    && m.createdAt <= now
    && m.Root() in l.refs && l.refs[m.Root()] == m.inputRef
    && m.receiptHash in l.receipts
    && l.receipts[m.receiptHash].receipt.inputRef.releaseId == m.Root()
    && l.receipts[m.receiptHash].persistedAt <= m.createdAt
    && l.receipts[m.receiptHash].closureHash in l.closures
    && l.closures[l.receipts[m.receiptHash].closureHash].persistedAt <= m.createdAt
  }

  function ClosureHashOf(l: Ledger, m: RunManifest): Digest
    requires m.receiptHash in l.receipts
  {
    l.receipts[m.receiptHash].closureHash
  }

  predicate EntryBefore(log: Log, r: Id, k: Kind, created: Time) {
    var h := Head(log, r, k);
    h.Some? && h.value.observation.observedAt <= created && h.value.persistedAt <= created
  }

  /** The root's fetch, status and admission heads are the ones the manifest names. */
  predicate RootAdmitted(l: Ledger, m: RunManifest) {
    && RootHeads(l.log, m)
    && PublishedHead(l.log, m.Root(), m.statusId)
    && (var fetch := Head(l.log, m.Root(), ArtifactFetch).value.observation;
        fetch.FetchObservation? && fetch.result == Passed && fetch.receiptHash == Some(m.receiptHash))
    && EntryBefore(l.log, m.Root(), ArtifactFetch, m.createdAt)
    && EntryBefore(l.log, m.Root(), ReleaseStatus, m.createdAt)
    && EntryBefore(l.log, m.Root(), ReleaseAdmission, m.createdAt)
  }

  /** One confirmation item against the release's current status head. */
  predicate ItemCurrent(l: Ledger, item: ConfirmationItem, policy: Policy, now: Time) {
    && item.Id() in l.refs && l.refs[item.Id()] == item.inputRef
    && item.snapshotAt <= item.checkedAt + policy.maxSkew
    && now - item.snapshotAt <= policy.maxAge + policy.maxSkew
    && PublishedHead(l.log, item.Id(), item.statusId)
    && var o := Head(l.log, item.Id(), ReleaseStatus).value.observation;
       && o.eventId == Some(item.eventId) && o.eventHash == Some(item.eventHash)
       && o.sequence == Some(item.sequence)
       && o.recordedAt.Some? && o.recordedAt.value <= item.snapshotAt + policy.maxSkew
  }

  function ItemIds(items: seq<ConfirmationItem>): set<Id> {
    set i | 0 <= i < |items| :: items[i].Id()
  }

  predicate ConfirmationCurrent(cfg: Config, l: Ledger, m: RunManifest, c: Confirmation, now: Time)
    requires m.receiptHash in l.receipts && ClosureHashOf(l, m) in l.closures
  {
    && Binds(c, m, ClosureHashOf(l, m))
    && (c.authorityId, c.authorityContract) in cfg.policies
    && c.confirmedAt <= m.createdAt
    && now < c.expiresAt
    && ItemIds(c.items) == NodeIds(l.closures[ClosureHashOf(l, m)].closure.releases)
    && forall i :: 0 <= i < |c.items| ==>
         ItemCurrent(l, c.items[i], cfg.policies[(c.authorityId, c.authorityContract)], now)
  }

  /** Everything retained for the run was persisted before its manifest was made. */
  predicate MaterialBefore(l: Ledger, c: Closure, created: Time) {
    forall i :: 0 <= i < |c.releases| ==>
      && EntryBefore(l.log, c.releases[i].Id(), ReleaseStatus, created)
      && c.releases[i].Id() in l.manifests && l.manifests[c.releases[i].Id()].persistedAt <= created
      && forall j :: 0 <= j < |c.releases[i].artifacts| ==>
           var key := (c.releases[i].Id(), c.releases[i].artifacts[j].artifactId);
           key in l.artifacts && l.artifacts[key].persistedAt <= created
  }

  /** No other confirmation has this hash, identifier or run. */
  predicate ConfirmationFresh(l: Ledger, c: Confirmation) {
    forall h :: h in l.confirmations ==>
      && h != c.confirmationHash
      && l.confirmations[h].confirmation.confirmationId != c.confirmationId
      && l.confirmations[h].confirmation.runId != c.runId
  }

  predicate NewPinAccepted(cfg: Config, l: Ledger, files: Files, m: RunManifest, c: Confirmation, now: Time)
    requires ReceiptUsable(l, m, now)
  {
    var closure := l.closures[ClosureHashOf(l, m)].closure;
    && RootAdmitted(l, m)
    && ConfirmationCurrent(cfg, l, m, c, now)
    && MaterialBefore(l, closure, m.createdAt)
    && ClosureFilesVerify(cfg.sha, files, closure)
    && ConfirmationFresh(l, c)
  }

  /** The pin on record is this very manifest, bound to this very confirmation. */
  predicate ExactRetry(cfg: Config, l: Ledger, files: Files, m: RunManifest, c: Confirmation)
    requires m.runId in l.pins
  {
    var p := l.pins[m.runId];
    && p.manifest == m
    && p.binding == Some(c.confirmationHash)
    && c.confirmationHash in l.confirmations && l.confirmations[c.confirmationHash].confirmation == c
    && p.closureHash in l.closures
    && ClosureFilesVerify(cfg.sha, files, l.closures[p.closureHash].closure)
  }

  /** The run is bound to another manifest or confirmation. */
  predicate Rebinds(l: Ledger, m: RunManifest, c: Confirmation) {
    m.runId in l.pins
    && var p := l.pins[m.runId];
       p.binding.Some?
       && !(p.manifest == m && p.binding == Some(c.confirmationHash)
            && c.confirmationHash in l.confirmations && l.confirmations[c.confirmationHash].confirmation == c)
  }

  function PinOutcome(cfg: Config, l: Ledger, files: Files, m: RunManifest, c: Option<Confirmation>, now: Time): Outcome {
    if m.runId in l.pins && l.pins[m.runId].binding.None? then Refused
    else if c.None? then Refused
    else if !ReceiptUsable(l, m, now) then Refused
    else if m.runId in l.pins then
      if ExactRetry(cfg, l, files, m, c.value) then Replayed else Refused
    else if NewPinAccepted(cfg, l, files, m, c.value, now) then Committed
    else Refused
  }

  /** The status observation pinned for each release is its current head. */
  function PinnedStatuses(log: Log, nodes: seq<Node>): map<Id, Id> {
    map r | r in NodeIds(nodes) && HeadId(log, r, ReleaseStatus).Some? :: HeadId(log, r, ReleaseStatus).value
  }

  function NewPin(l: Ledger, m: RunManifest, c: Confirmation, now: Time): PinEntry
    requires m.receiptHash in l.receipts && ClosureHashOf(l, m) in l.closures
  {
    var k := ClosureHashOf(l, m);
    PinEntry(m, k, PinnedStatuses(l.log, l.closures[k].closure.releases), Some(c.confirmationHash), now, |l.log|)
  }

  function WithPin(l: Ledger, m: RunManifest, c: Confirmation, p: PinEntry, now: Time): Ledger {
    l.(confirmations := l.confirmations[c.confirmationHash := ConfirmationEntry(c, now)],
       pins := l.pins[m.runId := p])
  }

  function Pinned(cfg: Config, l: Ledger, files: Files, m: RunManifest, c: Option<Confirmation>, now: Time): Ledger {
    if PinOutcome(cfg, l, files, m, c, now) == Committed
    then WithPin(l, m, c.value, NewPin(l, m, c.value, now), now)
    else l
  }

  /* ---- Reading an artifact ---- */

  datatype Purpose = NewRun | AuditReplay
  datatype AuditRequest = AuditRequest(runId: Id, manifestHash: Digest)
  datatype ReadRequest = ReadRequest(
    artifactId: Id, purpose: Purpose, manifest: RunManifest, releaseId: Option<Id>, audit: Option<AuditRequest>)
  {
    function Target(): Id { if releaseId.Some? then releaseId.value else manifest.Root() }
  }

  predicate RequestWellFormed(sha: Sha, q: ReadRequest) {
    match q.purpose
    case AuditReplay =>
      q.audit == Some(AuditRequest(q.manifest.runId, sha(ManifestText(q.manifest))))
    case NewRun =>
      q.audit.None? && q.Target() == q.manifest.Root()
  }

  predicate OrdinaryCurrent(log: Log, p: PinEntry) {
    && RootHeads(log, p.manifest)
    && PublishedHead(log, p.manifest.Root(), p.manifest.statusId)
    && HeadsPublished(log, p.statusOf)
  }

  predicate ReadAllowed(cfg: Config, l: Ledger, files: Files, q: ReadRequest) {
    && RequestWellFormed(cfg.sha, q)
    && q.manifest.runId in l.pins
    && var p := l.pins[q.manifest.runId];
       && p.manifest == q.manifest
       && (q.purpose == NewRun ==> p.binding.Some? && OrdinaryCurrent(l.log, p))
       && p.closureHash in l.closures
       && var c := l.closures[p.closureHash].closure;
          && ClosureFilesVerify(cfg.sha, files, c)
          && (q.Target(), q.artifactId) in ArtifactIndex(c.releases)
  }

  /** The bytes a permitted read returns. */
  function ReadContent(cfg: Config, l: Ledger, files: Files, q: ReadRequest): (content: Bytes)
    requires Coherent(cfg, l) && ReadAllowed(cfg, l, files, q)
    ensures var index := ArtifactIndex(l.closures[l.pins[q.manifest.runId].closureHash].closure.releases);
            var a := index[(q.Target(), q.artifactId)];
            |content| == a.sizeBytes && cfg.sha(Blob(content)) == a.hash
  {
    var c := l.closures[l.pins[q.manifest.runId].closureHash].closure;
    var a := ArtifactIndex(c.releases)[(q.Target(), q.artifactId)];
    assert FileVerifies(cfg.sha, files, a.hash, a.sizeBytes) by {
      assert ClosureCoherent(cfg, l, l.pins[q.manifest.runId].closureHash, c);
      ClosureNodesProper(cfg.sha, c);
      var i, j := IndexedArtifact(c.releases, (q.Target(), q.artifactId));
      assert NodeFilesVerify(cfg.sha, files, c.releases[i]);
    }
    files[a.hash]
  }
}
