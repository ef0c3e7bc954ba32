/**
 The relational tables of the store. Beside each canonical document the tables
 keep projections of it for fast lookup; `Tables` says what they must hold for a
 given ledger.
 */
module Databases {
  import opened Basics
  import opened Contracts
  import opened StatusEvents
  import opened ObservationLog
  import opened RetentionIndex
  import opened Ledgers

  /* ---- Rows ---- */

  datatype ClosureRow = ClosureRow(
    schemaVersion: string, rootReleaseId: Id, document: Closure, documentHash: Digest, persistedAt: Time)

  datatype ReceiptRow = ReceiptRow(
    schemaVersion: string, contractVersion: string, releaseId: Id,
    document: Receipt, documentHash: Digest, persistedAt: Time)

  datatype ObservationRow = ObservationRow(
    kind: Kind, releaseId: Id, observedAt: Time, supersedes: Option<Id>,
    document: Observation, documentHash: Digest, persistedAt: Time)

  datatype FetchRow = FetchRow(result: ValidationResult, receiptHash: Option<Digest>)

  datatype StatusRow = StatusRow(
    result: ValidationResult, status: Option<ProviderStatus>, eventId: Option<string>,
    eventHash: Option<Digest>, previousHash: Option<Digest>, sequence: Option<int>,
    recordedAt: Option<Time>)

  datatype AdmissionRow = AdmissionRow(statusId: Id, admission: AdmissionStatus)

  datatype HeadsRow = HeadsRow(fetch: Option<Id>, status: Option<Id>, admission: Option<Id>)
  {
    function Of(k: Kind): Option<Id> {
      match k
      case ArtifactFetch => fetch
      case ReleaseStatus => status
      case ReleaseAdmission => admission
    }

    /** Advances the one column of an observation kind. */
    function Advance(k: Kind, id: Id): HeadsRow {
      match k
      case ArtifactFetch => this.(fetch := Some(id))
      case ReleaseStatus => this.(status := Some(id))
      case ReleaseAdmission => this.(admission := Some(id))
    }
  }

  datatype PinRow = PinRow(
    rootReleaseId: Id, receiptHash: Digest, closureHash: Digest, fetchId: Id, statusId: Id,
    admissionId: Id, document: RunManifest, documentHash: Digest, pinnedAt: Time)

  datatype PinReleaseRow = PinReleaseRow(manifestHash: Digest, statusId: Id)
  datatype PinArtifactRow = PinArtifactRow(hash: Digest, sizeBytes: nat)

  datatype ConfirmationRow = ConfirmationRow(
    confirmationId: Id, schemaVersion: string, runId: Id, rootReleaseId: Id, receiptHash: Digest,
    closureHash: Digest, authorityId: Id, authorityContract: Digest, requestedAt: Time,
    confirmedAt: Time, expiresAt: Time, document: Confirmation, documentHash: Digest, persistedAt: Time)

  /* ---- Tables; child tables are grouped by their parent key ---- */

  datatype ContentTables = ContentTables(
    identities: Refs,
    objects: map<Digest, nat>,
    manifests: map<Id, StoredManifest>,
    artifacts: map<(Id, Id), StoredArtifact>)

  datatype DocumentTables = DocumentTables(
    closures: map<Digest, ClosureRow>,
    closureReleases: map<Digest, map<Id, ReleaseRow>>,
    closureDependencies: map<Digest, set<(Id, Id)>>,
    closureArtifacts: map<Digest, map<(Id, Id), Artifact>>,
    receipts: map<Digest, ReceiptRow>,
    receiptArtifacts: map<Digest, map<Id, Artifact>>,
    receiptClosures: map<Digest, Digest>)

  datatype ObservationTables = ObservationTables(
    observations: map<Id, ObservationRow>,
    fetches: map<Id, FetchRow>,
    statuses: map<Id, StatusRow>,
    admissions: map<Id, AdmissionRow>,
    heads: map<Id, HeadsRow>)

  datatype RunTables = RunTables(
    pins: map<Id, PinRow>,
    pinReleases: map<Id, map<Id, PinReleaseRow>>,
    pinArtifacts: map<Id, map<(Id, Id), PinArtifactRow>>,
    confirmations: map<Digest, ConfirmationRow>,
    confirmationItems: map<Digest, map<Id, ConfirmationItem>>,
    bindings: map<Id, Digest>,
    quarantine: set<Id>)

  datatype Database = Database(
    content: ContentTables, documents: DocumentTables, observed: ObservationTables, runs: RunTables)

  /* ---- Projections of the documents ---- */

  function ReceiptRowOf(sha: Sha, e: ReceiptEntry): ReceiptRow {
    ReceiptRow(e.receipt.schemaVersion, e.receipt.contractVersion, e.receipt.inputRef.releaseId,
               e.receipt, sha(ReceiptText(e.receipt)), e.persistedAt)
  }

  function ClosureRowOf(sha: Sha, e: ClosureEntry): ClosureRow {
    ClosureRow(e.closure.schemaVersion, e.closure.root.releaseId, e.closure,
               sha(ClosureText(e.closure)), e.persistedAt)
  }

  function ObservationRowOf(sha: Sha, e: Entry): ObservationRow {
    var o := e.observation;
    ObservationRow(o.Kind(), o.releaseId, o.observedAt, o.supersedes, o, sha(ObservationText(o)), e.persistedAt)
  }

  function FetchRowOf(o: Observation): FetchRow
    requires o.FetchObservation?
  {
    FetchRow(o.result, o.receiptHash)
  }

  function StatusRowOf(o: Observation): StatusRow
    requires o.StatusObservation?
  {
    StatusRow(o.result, o.status, o.eventId, o.eventHash, o.previousHash, o.sequence, o.recordedAt)
  }

  function AdmissionRowOf(o: Observation): AdmissionRow
    requires o.AdmissionObservation?
  {
    AdmissionRow(o.statusId, o.admission)
  }

  function PinRowOf(sha: Sha, p: PinEntry): PinRow {
    var m := p.manifest;
    PinRow(m.Root(), m.receiptHash, p.closureHash, m.fetchId, m.statusId, m.admissionId,
           m, sha(ManifestText(m)), p.pinnedAt)
  }

  function ConfirmationRowOf(sha: Sha, e: ConfirmationEntry): ConfirmationRow {
    var c := e.confirmation;
    ConfirmationRow(c.confirmationId, c.schemaVersion, c.runId, c.rootReleaseId, c.receiptHash,
                    c.closureHash, c.authorityId, c.authorityContract, c.requestedAt, c.confirmedAt,
                    c.expiresAt, c, sha(ConfirmationText(c)), e.persistedAt)
  }

  function ItemIndex(items: seq<ConfirmationItem>): map<Id, ConfirmationItem>
    decreases |items|
  {
    if items == [] then map[]
    else ItemIndex(items[..|items| - 1])[items[|items| - 1].Id() := items[|items| - 1]]
  }

  function PinReleaseIndex(releases: map<Id, ReleaseRow>, statusOf: map<Id, Id>): map<Id, PinReleaseRow> {
    map r | r in releases && r in statusOf :: PinReleaseRow(releases[r].manifestHash, statusOf[r])
  }

  function PinArtifactIndex(artifacts: map<(Id, Id), Artifact>): map<(Id, Id), PinArtifactRow> {
    map key | key in artifacts :: PinArtifactRow(artifacts[key].hash, artifacts[key].sizeBytes)
  }

  /* ---- What the tables hold for a ledger ---- */

  function ContentOf(l: Ledger): ContentTables {
    ContentTables(l.refs, l.objects, l.manifests, l.artifacts)
  }

  function ClosureTable(sha: Sha, closures: map<Digest, ClosureEntry>): map<Digest, ClosureRow> {
    map h | h in closures :: ClosureRowOf(sha, closures[h])
  }

  function ReleaseTable(closures: map<Digest, ClosureEntry>): map<Digest, map<Id, ReleaseRow>> {
    map h | h in closures :: ReleaseIndex(closures[h].closure.releases)
  }

  function DependencyTable(closures: map<Digest, ClosureEntry>): map<Digest, set<(Id, Id)>> {
    map h | h in closures :: DependencyIndex(closures[h].closure.releases)
  }

  function ArtifactTable(closures: map<Digest, ClosureEntry>): map<Digest, map<(Id, Id), Artifact>> {
    map h | h in closures :: ArtifactIndex(closures[h].closure.releases)
  }

  function ReceiptTable(sha: Sha, receipts: map<Digest, ReceiptEntry>): map<Digest, ReceiptRow> {
    map h | h in receipts :: ReceiptRowOf(sha, receipts[h])
  }

  function ReceiptArtifactTable(receipts: map<Digest, ReceiptEntry>): map<Digest, map<Id, Artifact>> {
    map h | h in receipts :: ReceiptIndex(receipts[h].receipt.artifacts)
  }

  function ReceiptLinkTable(receipts: map<Digest, ReceiptEntry>): map<Digest, Digest> {
    map h | h in receipts :: receipts[h].closureHash
  }

  function DocumentsOf(sha: Sha, l: Ledger): DocumentTables {
    DocumentTables(ClosureTable(sha, l.closures), ReleaseTable(l.closures), DependencyTable(l.closures),
                   ArtifactTable(l.closures), ReceiptTable(sha, l.receipts), ReceiptArtifactTable(l.receipts),
                   ReceiptLinkTable(l.receipts))
  }

  function ObservationTable(sha: Sha, log: Log): map<Id, ObservationRow>
    decreases |log|
  {
    if log == [] then map[]
    else
      var e := log[|log| - 1];
      ObservationTable(sha, log[..|log| - 1])[e.observation.id := ObservationRowOf(sha, e)]
  }

  function FetchTable(log: Log): map<Id, FetchRow>
    decreases |log|
  {
    if log == [] then map[]
    else
      var o := log[|log| - 1].observation;
      var before := FetchTable(log[..|log| - 1]);
      if o.FetchObservation? then before[o.id := FetchRowOf(o)] else before
  }

  function StatusTable(log: Log): map<Id, StatusRow>
    decreases |log|
  {
    if log == [] then map[]
    else
      var o := log[|log| - 1].observation;
      var before := StatusTable(log[..|log| - 1]);
      if o.StatusObservation? then before[o.id := StatusRowOf(o)] else before
  }

  function AdmissionTable(log: Log): map<Id, AdmissionRow>
    decreases |log|
  {
    if log == [] then map[]
    else
      var o := log[|log| - 1].observation;
      var before := AdmissionTable(log[..|log| - 1]);
      if o.AdmissionObservation? then before[o.id := AdmissionRowOf(o)] else before
  }

  function HeadsRowOf(log: Log, r: Id): HeadsRow {
    HeadsRow(HeadId(log, r, ArtifactFetch), HeadId(log, r, ReleaseStatus), HeadId(log, r, ReleaseAdmission))
  }

  function ObservedOf(sha: Sha, refs: Refs, log: Log): ObservationTables {
    ObservationTables(
      ObservationTable(sha, log), FetchTable(log), StatusTable(log), AdmissionTable(log),
      map r | r in refs :: HeadsRowOf(log, r))
  }

  function PinReleasesOf(l: Ledger, p: PinEntry): map<Id, PinReleaseRow> {
    if p.closureHash in l.closures
    then PinReleaseIndex(ReleaseIndex(l.closures[p.closureHash].closure.releases), p.statusOf)
    else map[]
  }

  function PinArtifactsOf(l: Ledger, p: PinEntry): map<(Id, Id), PinArtifactRow> {
    if p.closureHash in l.closures
    then PinArtifactIndex(ArtifactIndex(l.closures[p.closureHash].closure.releases))
    else map[]
  }

  function PinTable(sha: Sha, l: Ledger): map<Id, PinRow> {
    map run | run in l.pins :: PinRowOf(sha, l.pins[run])
  }

  function PinReleaseTable(l: Ledger): map<Id, map<Id, PinReleaseRow>> {
    map run | run in l.pins :: PinReleasesOf(l, l.pins[run])
  }

  function PinArtifactTable(l: Ledger): map<Id, map<(Id, Id), PinArtifactRow>> {
    map run | run in l.pins :: PinArtifactsOf(l, l.pins[run])
  }

  function ConfirmationTable(sha: Sha, confirmations: map<Digest, ConfirmationEntry>): map<Digest, ConfirmationRow> {
    map h | h in confirmations :: ConfirmationRowOf(sha, confirmations[h])
  }

  function ItemTable(confirmations: map<Digest, ConfirmationEntry>): map<Digest, map<Id, ConfirmationItem>> {
    map h | h in confirmations :: ItemIndex(confirmations[h].confirmation.items)
  }

  function BindingTable(pins: map<Id, PinEntry>): map<Id, Digest> {
    map run | run in pins && pins[run].binding.Some? :: pins[run].binding.value
  }

  function QuarantineTable(pins: map<Id, PinEntry>): set<Id> {
    set run | run in pins && pins[run].binding.None?
  }

  function RunsOf(sha: Sha, l: Ledger): RunTables {
    RunTables(PinTable(sha, l), PinReleaseTable(l), PinArtifactTable(l), ConfirmationTable(sha, l.confirmations),
              ItemTable(l.confirmations), BindingTable(l.pins), QuarantineTable(l.pins))
  }

  function Tables(cfg: Config, l: Ledger): Database {
    Database(ContentOf(l), DocumentsOf(cfg.sha, l), ObservedOf(cfg.sha, l.refs, l.log), RunsOf(cfg.sha, l))
  }

  /* ---- Looking up recorded observations ---- */

  lemma {:induction false} TableLookup(refs: Refs, receipts: Receipts, sha: Sha, log: Log, i: nat)
    requires LogCoherent(refs, receipts, log) && i < |log|
    ensures var o := log[i].observation;
            && o.id in ObservationTable(sha, log) && ObservationTable(sha, log)[o.id] == ObservationRowOf(sha, log[i])
            && (o.FetchObservation? <==> o.id in FetchTable(log))
            && (o.StatusObservation? <==> o.id in StatusTable(log))
            && (o.AdmissionObservation? <==> o.id in AdmissionTable(log))
            && (o.FetchObservation? ==> FetchTable(log)[o.id] == FetchRowOf(o))
            && (o.StatusObservation? ==> StatusTable(log)[o.id] == StatusRowOf(o))
            && (o.AdmissionObservation? ==> AdmissionTable(log)[o.id] == AdmissionRowOf(o))
    decreases |log|
  {
    var n := |log| - 1;
    var front := log[..n];
    var o := log[i].observation;
    CoherentPrefix(refs, receipts, log, n);
    if i < n {
      IdentifiersDistinct(refs, receipts, log, i, n);
      assert front[i] == log[i];
      hide LogCoherent, ObservationRowOf, FetchRowOf, StatusRowOf, AdmissionRowOf;
      TableLookup(refs, receipts, sha, front, i);
    } else {
      assert CoherentAt(refs, receipts, log, n);
      assert !Recorded(front, o.id);
      hide LogCoherent, ObservationRowOf, FetchRowOf, StatusRowOf, AdmissionRowOf, Admissible;
      UnrecordedAbsent(sha, front, o.id);
    }
  }

  lemma {:induction false} UnrecordedAbsent(sha: Sha, log: Log, id: Id)
    requires !Recorded(log, id)
    ensures id !in ObservationTable(sha, log)
    ensures id !in FetchTable(log) && id !in StatusTable(log) && id !in AdmissionTable(log)
    decreases |log|
  {
    if log != [] {
      var front := log[..|log| - 1];
      assert !Recorded(front, id) by {
        forall i | 0 <= i < |front| ensures front[i].observation.id != id { assert front[i] == log[i]; }
      }
      assert log[|log| - 1].observation.id != id;
      UnrecordedAbsent(sha, front, id);
    }
  }

  /** Every row of the observation table is an entry of the log. */
  lemma {:induction false} TableEntry(sha: Sha, log: Log, id: Id) returns (i: nat)
    requires id in ObservationTable(sha, log)
    ensures i < |log| && log[i].observation.id == id
    ensures ObservationTable(sha, log)[id] == ObservationRowOf(sha, log[i])
    decreases |log|
  {
    var n := |log| - 1;
    if log[n].observation.id == id {
      i := n;
    } else {
      i := TableEntry(sha, log[..n], id);
    }
  }
}
