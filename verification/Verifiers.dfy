/**
 The replay verifiers: the canonical documents are the authority, and every
 index row, subtype row, head and pin must be exactly what they imply.
 */
module Verifiers {
  import opened Basics
  import opened Contracts
  import opened StatusEvents
  import opened ObservationLog
  import opened ObservationChain
  import opened RetentionGraph
  import opened RetentionIndex
  import opened Ledgers
  import opened Databases
  import LedgerRuns

  /** The child rows of one parent key. */
  function Group<K, A, B>(table: map<K, map<A, B>>, key: K): map<A, B> {
    if key in table then table[key] else map[]
  }

  predicate IdentityPersisted(db: Database, ref: InputRef) {
    ref.releaseId in db.content.identities && db.content.identities[ref.releaseId] == ref
  }

  /* ---- Receipts and closures ---- */

  /** The columns and index rows under a hash are those of this receipt. */
  predicate ReceiptRowsMatch(db: Database, h: Digest, r: Receipt)
    requires h in db.documents.receipts
  {
    var row := db.documents.receipts[h];
    && r.schemaVersion == row.schemaVersion && r.contractVersion == row.contractVersion
    && r.inputRef.releaseId == row.releaseId
    && IdentityPersisted(db, r.inputRef)
    && ArtifactsDistinct(r.artifacts)
    && Group(db.documents.receiptArtifacts, h) == ReceiptIndex(r.artifacts)
  }

  predicate ReceiptVerifies(sha: Sha, db: Database, h: Digest) {
    && h in db.documents.receipts
    && var row := db.documents.receipts[h];
       var r := row.document;
       && row.documentHash == sha(ReceiptText(r))
       && r.receiptHash == h && sha(ReceiptPayload(r)) == h
       && ReceiptRowsMatch(db, h, r)
  }

  predicate NodesPersisted(db: Database, nodes: seq<Node>) {
    forall i :: 0 <= i < |nodes| ==> IdentityPersisted(db, nodes[i].inputRef)
  }

  /** The columns and index rows under a hash are those of this closure. */
  predicate ClosureRowsMatch(db: Database, k: Digest, c: Closure)
    requires k in db.documents.closures
  {
    var row := db.documents.closures[k];
    && c.schemaVersion == row.schemaVersion && c.root.releaseId == row.rootReleaseId
    && (exists i :: 0 <= i < |c.releases| && c.releases[i].inputRef == c.root)
    && NodesPersisted(db, c.releases)
    && NodesDistinct(c.releases)
    && (forall i :: 0 <= i < |c.releases| ==> ArtifactsDistinct(c.releases[i].artifacts))
    && Group(db.documents.closureReleases, k) == ReleaseIndex(c.releases)
    && (if k in db.documents.closureDependencies then db.documents.closureDependencies[k] else {})
         == DependencyIndex(c.releases)
    && Group(db.documents.closureArtifacts, k) == ArtifactIndex(c.releases)
  }

  predicate ClosureVerifies(sha: Sha, db: Database, k: Digest) {
    && k in db.documents.closures
    && var row := db.documents.closures[k];
       var c := row.document;
       && row.documentHash == sha(ClosureText(c))
       && c.closureHash == k && sha(ClosurePayload(c)) == k
       && ClosureRowsMatch(db, k, c)
  }

  /* ---- Observations ---- */

  predicate SubtypeExact(db: Database, id: Id, o: Observation) {
    var t := db.observed;
    && (id in t.fetches <==> o.FetchObservation?)
    && (id in t.statuses <==> o.StatusObservation?)
    && (id in t.admissions <==> o.AdmissionObservation?)
    && (o.FetchObservation? ==> t.fetches[id] == FetchRowOf(o))
    && (o.StatusObservation? ==> t.statuses[id] == StatusRowOf(o))
    && (o.AdmissionObservation? ==> t.admissions[id] == AdmissionRowOf(o))
  }

  predicate FetchVerifies(sha: Sha, db: Database, o: Observation)
    requires o.FetchObservation?
  {
    o.result == Passed ==>
      && o.receiptHash.Some? && ReceiptVerifies(sha, db, o.receiptHash.value)
      && SortedList(Group(db.documents.receiptArtifacts, o.receiptHash.value).Keys) == o.artifactIds
  }

  predicate ObservationVerifies(sha: Sha, db: Database, id: Id) {
    && id in db.observed.observations
    && var row := db.observed.observations[id];
       var o := row.document;
       && row.documentHash == sha(ObservationText(o))
       && ValidObservation(o)
       && o.id == id && o.Kind() == row.kind && o.releaseId == row.releaseId
       && o.observedAt == row.observedAt && o.supersedes == row.supersedes
       && IdentityPersisted(db, o.inputRef)
       && SubtypeExact(db, id, o)
       && (o.FetchObservation? ==> FetchVerifies(sha, db, o))
  }

  /* ---- Observation chains ---- */

  function ChainRows(db: Database, r: Id, k: Kind): Rows {
    var t := db.observed.observations;
    map id | id in t && t[id].releaseId == r && t[id].kind == k :: t[id].supersedes
  }

  function EntriesOn(db: Database, path: seq<Id>): seq<Entry>
    requires forall i :: 0 <= i < |path| ==> path[i] in db.observed.observations
  {
    var t := db.observed.observations;
    seq(|path|, i requires 0 <= i < |path| => Entry(t[path[i]].document, t[path[i]].persistedAt))
  }

  predicate AdmissionVerifies(sha: Sha, db: Database, r: Id, o: Observation) {
    && o.AdmissionObservation?
    && ObservationVerifies(sha, db, o.statusId)
    && var status := db.observed.observations[o.statusId].document;
       && status.releaseId == r && status.StatusObservation?
       && status.observedAt <= o.observedAt
       && (o.admission == Authorized ==> PublishedStatus(status))
  }

  predicate NotBackwards(entries: seq<Entry>) {
    forall i :: 0 < i < |entries| ==> entries[i - 1].observation.observedAt <= entries[i].observation.observedAt
  }

  predicate KindReplays(sha: Sha, db: Database, r: Id, k: Kind, entries: seq<Entry>) {
    match k
    case ArtifactFetch => true
    case ReleaseStatus => Replays(EventsOf(entries))
    case ReleaseAdmission =>
      forall i :: 0 <= i < |entries| ==> AdmissionVerifies(sha, db, r, entries[i].observation)
  }

  predicate PathVerifies(sha: Sha, db: Database, r: Id, k: Kind, path: seq<Id>) {
    && (forall i :: 0 <= i < |path| ==> ObservationVerifies(sha, db, path[i]))
    && NotBackwards(EntriesOn(db, path))
    && KindReplays(sha, db, r, k, EntriesOn(db, path))
  }

  /** The rows of the kind form one chain ending at the head, and it replays. */
  ghost predicate ChainVerifies(sha: Sha, db: Database, r: Id, k: Kind, head: Option<Id>) {
    exists path :: IsPath(ChainRows(db, r, k), path, head) && PathVerifies(sha, db, r, k, path)
  }

  ghost predicate ReleaseChainsVerify(sha: Sha, db: Database, r: Id) {
    && r in db.observed.heads
    && forall k :: ChainVerifies(sha, db, r, k, db.observed.heads[r].Of(k))
  }

  /* ---- Pins and confirmations ---- */

  predicate ReleaseRowVerifies(sha: Sha, db: Database, files: Files, r: Id, row: ReleaseRow) {
    && r in db.content.manifests && row.manifestHash in db.content.objects
    && db.content.manifests[r].hash == row.manifestHash
    && db.content.manifests[r].sizeBytes == row.manifestSize
    && FileVerifies(sha, files, row.manifestHash, row.manifestSize)
  }

  predicate ArtifactRowVerifies(sha: Sha, db: Database, files: Files, key: (Id, Id), a: Artifact) {
    && key in db.content.artifacts && a.hash in db.content.objects
    && db.content.artifacts[key].artifact == a
    && FileVerifies(sha, files, a.hash, a.sizeBytes)
  }

  predicate PinObjectsVerify(sha: Sha, db: Database, files: Files, k: Digest) {
    && ClosureVerifies(sha, db, k)
    && var releases := Group(db.documents.closureReleases, k);
       var artifacts := Group(db.documents.closureArtifacts, k);
       && releases != map[] && artifacts != map[]
       && (forall r :: r in releases ==> ReleaseRowVerifies(sha, db, files, r, releases[r]))
       && (forall key :: key in artifacts ==> ArtifactRowVerifies(sha, db, files, key, artifacts[key]))
  }

  predicate PinnedStatusVerifies(db: Database, r: Id, id: Id) {
    && id in db.observed.statuses && id in db.observed.observations
    && db.observed.observations[id].releaseId == r
    && db.observed.statuses[id].result == Passed && db.observed.statuses[id].status == Some(Published)
  }

  predicate PinClosureVerifies(sha: Sha, db: Database, files: Files, run: Id, k: Digest) {
    && PinObjectsVerify(sha, db, files, k)
    && var releases := Group(db.documents.closureReleases, k);
       var pinned := Group(db.runs.pinReleases, run);
       && pinned.Keys == releases.Keys
       && (forall r :: r in pinned ==>
             pinned[r].manifestHash == releases[r].manifestHash && PinnedStatusVerifies(db, r, pinned[r].statusId))
       && Group(db.runs.pinArtifacts, run) == PinArtifactIndex(Group(db.documents.closureArtifacts, k))
  }

  predicate ConfirmationVerifies(sha: Sha, db: Database, h: Digest) {
    && h in db.runs.confirmations
    && var row := db.runs.confirmations[h];
       var c := row.document;
       && row == ConfirmationRowOf(sha, ConfirmationEntry(c, row.persistedAt))
       && ValidConfirmation(sha, c) && c.confirmationHash == h
       && Group(db.runs.confirmationItems, h) == ItemIndex(c.items)
  }

  /** Every stored document, index, head, chain, pin and confirmation verifies. */
  ghost predicate EverythingVerifies(sha: Sha, db: Database, files: Files) {
    && (forall h :: h in db.documents.receipts ==> ReceiptVerifies(sha, db, h))
    && (forall k :: k in db.documents.closures ==> ClosureVerifies(sha, db, k))
    && (forall id :: id in db.observed.observations ==> ObservationVerifies(sha, db, id))
    && (forall r :: r in db.content.identities ==> ReleaseChainsVerify(sha, db, r))
    && (forall run :: run in db.runs.pins ==>
          PinClosureVerifies(sha, db, files, run, db.runs.pins[run].closureHash))
    && (forall h :: h in db.runs.confirmations ==> ConfirmationVerifies(sha, db, h))
  }

  /* ---- Reading the tables of a ledger ---- */

  lemma ReceiptTables(cfg: Config, l: Ledger, h: Digest)
    requires h in l.receipts
    ensures var db := Tables(cfg, l);
            && db.content.identities == l.refs
            && h in db.documents.receipts && db.documents.receipts[h] == ReceiptRowOf(cfg.sha, l.receipts[h])
            && h in db.documents.receiptClosures && db.documents.receiptClosures[h] == l.receipts[h].closureHash
            && Group(db.documents.receiptArtifacts, h) == ReceiptIndex(l.receipts[h].receipt.artifacts)
  {
    hide ReleaseIndex, ArtifactIndex, DependencyIndex, ReceiptIndex, RunsOf, ObservedOf, ReceiptRowOf, ClosureRowOf;
  }

  lemma ClosureTables(cfg: Config, l: Ledger, k: Digest)
    requires k in l.closures
    ensures var db := Tables(cfg, l);
            var nodes := l.closures[k].closure.releases;
            && db.content == ContentOf(l)
            && k in db.documents.closures && db.documents.closures[k] == ClosureRowOf(cfg.sha, l.closures[k])
            && Group(db.documents.closureReleases, k) == ReleaseIndex(nodes)
            && k in db.documents.closureDependencies && db.documents.closureDependencies[k] == DependencyIndex(nodes)
            && Group(db.documents.closureArtifacts, k) == ArtifactIndex(nodes)
  {
    hide ReleaseIndex, ArtifactIndex, DependencyIndex, ReceiptIndex, RunsOf, ObservedOf, ReceiptRowOf, ClosureRowOf;
  }

  /* ---- A coherent ledger's tables verify ---- */

  lemma ReceiptAccepted(cfg: Config, l: Ledger, h: Digest)
    requires MaterialCoherent(cfg, l) && h in l.receipts
    ensures ReceiptVerifies(cfg.sha, Tables(cfg, l), h)
  {
    hide Tables, Group, ReceiptIndex, ArtifactsNormal, ArtifactsDistinct, ClosureCoherent, RootMatches;
    var e := l.receipts[h];
    assert ReceiptCoherent(cfg, l, h, e);
    ReceiptTables(cfg, l, h);
    NormalArtifactsDistinct(e.receipt.artifacts);
    ReceiptRefPersisted(cfg, l, h);
  }

  lemma ReceiptRefPersisted(cfg: Config, l: Ledger, h: Digest)
    requires MaterialCoherent(cfg, l) && h in l.receipts
    ensures var ref := l.receipts[h].receipt.inputRef; ref.releaseId in l.refs && l.refs[ref.releaseId] == ref
  {
    var e := l.receipts[h];
    assert ReceiptCoherent(cfg, l, h, e);
    var c := l.closures[e.closureHash].closure;
    assert ClosureCoherent(cfg, l, e.closureHash, c);
    var i :| 0 <= i < |c.releases| && c.releases[i].inputRef == c.root;
    assert NodeStored(l, c.releases[i]);
  }

  lemma ClosureAccepted(cfg: Config, l: Ledger, k: Digest)
    requires MaterialCoherent(cfg, l) && k in l.closures
    ensures ClosureVerifies(cfg.sha, Tables(cfg, l), k)
  {
    hide Tables, Group, ReleaseIndex, ArtifactIndex, DependencyIndex, ReceiptCoherent, ArtifactsDistinct,
         NodesDistinct, RetentionGraph.Accepted, ValidNode, NodesNormal;
    var c := l.closures[k].closure;
    assert ClosureCoherent(cfg, l, k, c);
    ClosureNodesProper(cfg.sha, c);
    ClosureTables(cfg, l, k);
    forall i | 0 <= i < |c.releases| ensures IdentityPersisted(Tables(cfg, l), c.releases[i].inputRef) {
      assert NodeStored(l, c.releases[i]);
    }
  }

  lemma {:induction false} ReceiptIndexKeys(artifacts: seq<Artifact>)
    requires ArtifactsDistinct(artifacts)
    ensures Elements(ArtifactIds(artifacts)) == ReceiptIndex(artifacts).Keys
  {
    ReceiptIndexExact(artifacts);
    var ids := ArtifactIds(artifacts);
    forall a | a in ReceiptIndex(artifacts) ensures a in ids {
      var j :| 0 <= j < |artifacts| && artifacts[j].artifactId == a;
      assert ids[j] == a;
    }
  }

  lemma {:induction false} ArtifactListSorted(artifacts: seq<Artifact>)
    requires ArtifactsNormal(artifacts)
    ensures SortedList(ReceiptIndex(artifacts).Keys) == ArtifactIds(artifacts)
  {
    NormalArtifactsDistinct(artifacts);
    ReceiptIndexKeys(artifacts);
    hide ReceiptIndex, Less, SortedList, ArtifactsDistinct, ValidArtifact;
    assert StrictlySorted(ArtifactIds(artifacts));
    SortedUnique(SortedList(ReceiptIndex(artifacts).Keys), ArtifactIds(artifacts));
  }

  lemma FetchAccepted(cfg: Config, l: Ledger, o: Observation)
    requires MaterialCoherent(cfg, l) && o.FetchObservation? && FetchJustified(l.receipts, o)
    ensures FetchVerifies(cfg.sha, Tables(cfg, l), o)
  {
    hide Tables, Group, ReceiptVerifies, ReceiptIndex, SortedList, ArtifactIds, ClosureCoherent;
    if o.result == Passed {
      var h := o.receiptHash.value;
      ReceiptAccepted(cfg, l, h);
      ReceiptTables(cfg, l, h);
      assert ReceiptCoherent(cfg, l, h, l.receipts[h]);
      ArtifactListSorted(l.receipts[h].receipt.artifacts);
    }
  }

  lemma EntryAccepted(cfg: Config, l: Ledger, n: nat)
    requires Coherent(cfg, l) && n < |l.log|
    ensures ObservationVerifies(cfg.sha, Tables(cfg, l), l.log[n].observation.id)
  {
    hide MaterialCoherent, RunsCoherent, DocumentsOf, RunsOf, FetchVerifies, ObservationSyntax, InOrder, Recorded,
         StatusJustified, AdmissionJustified, FetchJustified;
    var o := l.log[n].observation;
    assert CoherentAt(l.refs, l.receipts, l.log, n);
    assert o.releaseId == o.inputRef.releaseId;
    TableLookup(l.refs, l.receipts, cfg.sha, l.log, n);
    hide LogCoherent, ObservationShape;
    if o.FetchObservation? { FetchAccepted(cfg, l, o); }
  }

  lemma ObservationAccepted(cfg: Config, l: Ledger, id: Id)
    requires Coherent(cfg, l) && id in Tables(cfg, l).observed.observations
    ensures ObservationVerifies(cfg.sha, Tables(cfg, l), id)
  {
    hide MaterialCoherent, RunsCoherent, LogCoherent, DocumentsOf, RunsOf, ObservationVerifies;
    var i := TableEntry(cfg.sha, l.log, id);
    EntryAccepted(cfg, l, i);
  }

  /* ---- Chains ---- */

  function ChainIds(chain: seq<Entry>): seq<Id> {
    seq(|chain|, i requires 0 <= i < |chain| => chain[i].observation.id)
  }

  /** The rows of a release and kind carry exactly the identifiers of its chain. */
  lemma {:induction false} ChainRowsExact(cfg: Config, l: Ledger, r: Id, k: Kind)
    requires LogCoherent(l.refs, l.receipts, l.log)
    ensures ChainRows(Tables(cfg, l), r, k).Keys == Elements(ChainIds(Chain(l.log, r, k)))
    ensures forall i :: 0 <= i < |Chain(l.log, r, k)| ==>
              var e := Chain(l.log, r, k)[i];
              var t := Tables(cfg, l).observed.observations;
              && e.observation.id in t && t[e.observation.id] == ObservationRowOf(cfg.sha, e)
              && e.observation.id in ChainRows(Tables(cfg, l), r, k)
              && ChainRows(Tables(cfg, l), r, k)[e.observation.id] == e.observation.supersedes
  {
    hide LogCoherent, DocumentsOf, RunsOf, ObservationTable, FetchTable, StatusTable, AdmissionTable, Chain,
         HeadsRowOf;
    var chain := Chain(l.log, r, k);
    var rows := ChainRows(Tables(cfg, l), r, k);
    ChainMembers(l.log, r, k);
    forall i | 0 <= i < |chain|
      ensures && chain[i].observation.id in Tables(cfg, l).observed.observations
              && Tables(cfg, l).observed.observations[chain[i].observation.id] == ObservationRowOf(cfg.sha, chain[i])
    {
      assert chain[i] in chain;
      var n :| 0 <= n < |l.log| && l.log[n] == chain[i];
      TableLookup(l.refs, l.receipts, cfg.sha, l.log, n);
    }
    forall i | 0 <= i < |chain| ensures chain[i].observation.id in rows {
      assert chain[i] in chain;
      assert Matches(chain[i], r, k);
    }
    forall id | id in rows ensures id in ChainIds(chain) {
      var n := TableEntry(cfg.sha, l.log, id);
      assert l.log[n] in chain;
      var i :| 0 <= i < |chain| && chain[i] == l.log[n];
      assert ChainIds(chain)[i] == id;
    }
  }

  lemma {:induction false} ChainIdsDistinct(refs: Refs, receipts: Receipts, log: Log, r: Id, k: Kind)
    requires LogCoherent(refs, receipts, log)
    ensures Distinct(ChainIds(Chain(log, r, k)))
    decreases |log|
  {
    if log != [] {
      var n := |log| - 1;
      var front := Chain(log[..n], r, k);
      CoherentPrefix(refs, receipts, log, n);
      ChainIdsDistinct(refs, receipts, log[..n], r, k);
      ChainMembers(log[..n], r, k);
      assert CoherentAt(refs, receipts, log, n);
      hide LogCoherent, Admissible;
      forall i | 0 <= i < |front| ensures front[i].observation.id != log[n].observation.id {
        assert front[i] in front;
        var m :| 0 <= m < n && log[..n][m] == front[i];
        IdentifiersDistinct(refs, receipts, log, m, n);
      }
      var ids := ChainIds(Chain(log, r, k));
      forall i, j | 0 <= i < j < |ids| ensures ids[i] != ids[j] {
        if j < |front| { assert ChainIds(front)[i] != ChainIds(front)[j]; }
      }
    }
  }

  /** The chain of the log is the path its rows describe, and the head its end. */
  lemma {:induction false} ChainIsPath(cfg: Config, l: Ledger, r: Id, k: Kind)
    requires LogCoherent(l.refs, l.receipts, l.log)
    ensures IsPath(ChainRows(Tables(cfg, l), r, k), ChainIds(Chain(l.log, r, k)), HeadId(l.log, r, k))
  {
    hide LogCoherent, Tables, Chain, ChainRows, Distinct, Elements, IsPath;
    var chain := Chain(l.log, r, k);
    ChainRowsExact(cfg, l, r, k);
    ChainIdsDistinct(l.refs, l.receipts, l.log, r, k);
    ChainsLinked(l.refs, l.receipts, l.log, r, k);
    ChainLast(l.log, r, k);
    LinkedChainIsPath(ChainRows(Tables(cfg, l), r, k), chain);
  }

  lemma LinkedChainIsPath(rows: Rows, chain: seq<Entry>)
    requires Distinct(ChainIds(chain)) && rows.Keys == Elements(ChainIds(chain))
    requires ChainLinked(chain)
    requires forall i :: 0 <= i < |chain| ==>
               chain[i].observation.id in rows && rows[chain[i].observation.id] == chain[i].observation.supersedes
    ensures IsPath(rows, ChainIds(chain), if chain == [] then None else Some(chain[|chain| - 1].observation.id))
  {
    DistinctSize(ChainIds(chain));
    hide Distinct, Elements;
    forall i | 0 <= i < |chain| ensures LinkAt(rows, ChainIds(chain), i) {
      assert ChainLinkAt(chain, i);
    }
  }

  lemma AdmissionAccepted(cfg: Config, l: Ledger, n: nat)
    requires Coherent(cfg, l) && n < |l.log| && l.log[n].observation.AdmissionObservation?
    ensures AdmissionVerifies(cfg.sha, Tables(cfg, l), l.log[n].observation.releaseId, l.log[n].observation)
  {
    var o := l.log[n].observation;
    assert CoherentAt(l.refs, l.receipts, l.log, n);
    assert AdmissionJustified(l.log[..n], o);
    hide MaterialCoherent, RunsCoherent, LogCoherent, ObservationVerifies, DocumentsOf, RunsOf, Admissible, Head;
    var m := HeadIsLastMatch(l.log[..n], o.releaseId, ReleaseStatus);
    assert l.log[..n][m] == l.log[m];
    TableLookup(l.refs, l.receipts, cfg.sha, l.log, m);
    EntryAccepted(cfg, l, m);
  }

  lemma {:induction false} ChainEntries(cfg: Config, l: Ledger, r: Id, k: Kind)
    requires LogCoherent(l.refs, l.receipts, l.log)
    ensures var ids := ChainIds(Chain(l.log, r, k));
            && (forall i :: 0 <= i < |ids| ==> ids[i] in Tables(cfg, l).observed.observations)
            && EntriesOn(Tables(cfg, l), ids) == Chain(l.log, r, k)
  {
    ChainRowsExact(cfg, l, r, k);
    hide LogCoherent, Chain, Tables, ChainRows;
  }

  lemma {:induction false} ChainVerified(cfg: Config, l: Ledger, r: Id, k: Kind)
    requires Coherent(cfg, l)
    ensures PathVerifies(cfg.sha, Tables(cfg, l), r, k, ChainIds(Chain(l.log, r, k)))
    ensures ChainVerifies(cfg.sha, Tables(cfg, l), r, k, HeadId(l.log, r, k))
  {
    hide MaterialCoherent, RunsCoherent, LogCoherent, ObservationVerifies, Chain, Tables, IsPath, ChainRows, HeadId,
         AdmissionVerifies, Replays;
    var db := Tables(cfg, l);
    var chain := Chain(l.log, r, k);
    var ids := ChainIds(chain);
    ChainIsPath(cfg, l, r, k);
    ChainEntries(cfg, l, r, k);
    ChainsLinked(l.refs, l.receipts, l.log, r, k);
    ChainMembers(l.log, r, k);
    forall i | 0 <= i < |ids| ensures ObservationVerifies(cfg.sha, db, ids[i]) {
      ObservationAccepted(cfg, l, ids[i]);
    }
    forall i | 0 < i < |chain| ensures chain[i - 1].observation.observedAt <= chain[i].observation.observedAt {
      assert ChainLinkAt(chain, i);
    }
    match k
    case ArtifactFetch =>
    case ReleaseStatus => HistoryReplays(l.refs, l.receipts, l.log, r);
    case ReleaseAdmission =>
      forall i | 0 <= i < |chain| ensures AdmissionVerifies(cfg.sha, db, r, chain[i].observation) {
        assert chain[i] in chain;
        var n :| 0 <= n < |l.log| && l.log[n] == chain[i];
        AdmissionAccepted(cfg, l, n);
      }
  }

  lemma ReleaseChainsVerified(cfg: Config, l: Ledger, r: Id)
    requires Coherent(cfg, l) && r in l.refs
    ensures ReleaseChainsVerify(cfg.sha, Tables(cfg, l), r)
  {
    hide Coherent, ChainVerifies, DocumentsOf, RunsOf, ObservationTable, FetchTable, StatusTable, AdmissionTable,
         HeadId;
    forall k ensures ChainVerifies(cfg.sha, Tables(cfg, l), r, k, HeadsRowOf(l.log, r).Of(k)) {
      ChainVerified(cfg, l, r, k);
    }
  }

  /* ---- Pins and confirmations ---- */

  /** Checking every index row against the files is checking the closure's files. */
  lemma PinObjectsExact(cfg: Config, l: Ledger, files: Files, k: Digest)
    requires MaterialCoherent(cfg, l) && k in l.closures
    ensures PinObjectsVerify(cfg.sha, Tables(cfg, l), files, k) <==>
            ClosureFilesVerify(cfg.sha, files, l.closures[k].closure)
  {
    hide Tables, Group, ReceiptCoherent, ClosureVerifies, ClosureFilesVerify, ClosureCoherent, ReleaseIndex,
         ArtifactIndex, ReleaseRowVerifies, ArtifactRowVerifies, PinObjectsVerify;
    assert ClosureCoherent(cfg, l, k, l.closures[k].closure);
    ClosureAccepted(cfg, l, k);
    if ClosureFilesVerify(cfg.sha, files, l.closures[k].closure) {
      FilesGiveRows(cfg, l, files, k);
      RowsVerify(cfg, l, files, k);
    }
    if PinObjectsVerify(cfg.sha, Tables(cfg, l), files, k) {
      RowsGiveFiles(cfg, l, files, k);
    }
  }

  lemma RowsVerify(cfg: Config, l: Ledger, files: Files, k: Digest)
    requires k in l.closures && ClosureVerifies(cfg.sha, Tables(cfg, l), k)
    requires var nodes := l.closures[k].closure.releases;
             && ReleaseIndex(nodes) != map[] && ArtifactIndex(nodes) != map[]
             && (forall r :: r in ReleaseIndex(nodes) ==>
                   ReleaseRowVerifies(cfg.sha, Tables(cfg, l), files, r, ReleaseIndex(nodes)[r]))
             && (forall key :: key in ArtifactIndex(nodes) ==>
                   ArtifactRowVerifies(cfg.sha, Tables(cfg, l), files, key, ArtifactIndex(nodes)[key]))
    ensures PinObjectsVerify(cfg.sha, Tables(cfg, l), files, k)
  {
    hide Tables, Group, ClosureVerifies, ReleaseIndex, ArtifactIndex, ReleaseRowVerifies, ArtifactRowVerifies;
    ClosureTables(cfg, l, k);
  }

  lemma NodeGivesRow(cfg: Config, l: Ledger, files: Files, n: Node)
    requires NodeStored(l, n) && NodeFilesVerify(cfg.sha, files, n)
    ensures ReleaseRowVerifies(cfg.sha, Tables(cfg, l), files, n.Id(), ReleaseRow(n.manifestDocumentHash, n.manifestSize))
    ensures forall j :: 0 <= j < |n.artifacts| ==>
              ArtifactRowVerifies(cfg.sha, Tables(cfg, l), files, (n.Id(), n.artifacts[j].artifactId), n.artifacts[j])
  {
    hide DocumentsOf, RunsOf, ObservedOf;
    forall j | 0 <= j < |n.artifacts|
      ensures ArtifactRowVerifies(cfg.sha, Tables(cfg, l), files, (n.Id(), n.artifacts[j].artifactId), n.artifacts[j])
    {
      assert ArtifactStored(l, n.Id(), n.artifacts[j]);
    }
  }

  lemma FilesGiveRows(cfg: Config, l: Ledger, files: Files, k: Digest)
    requires k in l.closures && ClosureCoherent(cfg, l, k, l.closures[k].closure)
    requires ClosureFilesVerify(cfg.sha, files, l.closures[k].closure)
    ensures var nodes := l.closures[k].closure.releases;
            && ReleaseIndex(nodes) != map[] && ArtifactIndex(nodes) != map[]
            && (forall r :: r in ReleaseIndex(nodes) ==>
                  ReleaseRowVerifies(cfg.sha, Tables(cfg, l), files, r, ReleaseIndex(nodes)[r]))
            && (forall key :: key in ArtifactIndex(nodes) ==>
                  ArtifactRowVerifies(cfg.sha, Tables(cfg, l), files, key, ArtifactIndex(nodes)[key]))
  {
    hide Tables, RetentionGraph.Accepted, ReleaseIndex, ArtifactIndex, ReleaseRowVerifies, ArtifactRowVerifies, NodeStored,
         NodeFilesVerify;
    var c := l.closures[k].closure;
    var nodes := c.releases;
    ClosureNodesProper(cfg.sha, c);
    ReleaseIndexExact(nodes);
    assert nodes[0].Id() in NodeIds(nodes);
    assert ValidNode(nodes[0]);
    ArtifactIndexed(nodes, 0, 0);
    hide RetentionGraph.ValidClosure;
    forall r | r in ReleaseIndex(nodes)
      ensures ReleaseRowVerifies(cfg.sha, Tables(cfg, l), files, r, ReleaseIndex(nodes)[r])
    {
      var i :| 0 <= i < |nodes| && nodes[i].Id() == r;
      assert NodeStored(l, nodes[i]) && NodeFilesVerify(cfg.sha, files, nodes[i]);
      NodeGivesRow(cfg, l, files, nodes[i]);
    }
    forall key | key in ArtifactIndex(nodes)
      ensures ArtifactRowVerifies(cfg.sha, Tables(cfg, l), files, key, ArtifactIndex(nodes)[key])
    {
      var i, j := IndexedArtifact(nodes, key);
      assert NodeStored(l, nodes[i]) && NodeFilesVerify(cfg.sha, files, nodes[i]);
      NodeGivesRow(cfg, l, files, nodes[i]);
    }
  }

  lemma RowsGiveFiles(cfg: Config, l: Ledger, files: Files, k: Digest)
    requires k in l.closures && ClosureCoherent(cfg, l, k, l.closures[k].closure)
    requires PinObjectsVerify(cfg.sha, Tables(cfg, l), files, k)
    ensures ClosureFilesVerify(cfg.sha, files, l.closures[k].closure)
  {
    hide Tables, Group, ClosureVerifies, RetentionGraph.Accepted, ReleaseIndex, ArtifactIndex;
    var c := l.closures[k].closure;
    var nodes := c.releases;
    ClosureTables(cfg, l, k);
    ClosureNodesProper(cfg.sha, c);
    ReleaseIndexExact(nodes);
    hide RetentionGraph.ValidClosure;
    forall i | 0 <= i < |nodes| ensures NodeFilesVerify(cfg.sha, files, nodes[i]) {
      assert nodes[i].Id() in NodeIds(nodes);
      assert ReleaseRowVerifies(cfg.sha, Tables(cfg, l), files, nodes[i].Id(), ReleaseIndex(nodes)[nodes[i].Id()]);
      forall j | 0 <= j < |nodes[i].artifacts|
        ensures FileVerifies(cfg.sha, files, nodes[i].artifacts[j].hash, nodes[i].artifacts[j].sizeBytes)
      {
        ArtifactIndexed(nodes, i, j);
        var key := (nodes[i].Id(), nodes[i].artifacts[j].artifactId);
        assert ArtifactRowVerifies(cfg.sha, Tables(cfg, l), files, key, ArtifactIndex(nodes)[key]);
      }
    }
  }

  lemma PinTables(cfg: Config, l: Ledger, run: Id)
    requires run in l.pins
    ensures var t := Tables(cfg, l).runs;
            && run in t.pins && t.pins[run] == PinRowOf(cfg.sha, l.pins[run])
            && Group(t.pinReleases, run) == PinReleasesOf(l, l.pins[run])
            && Group(t.pinArtifacts, run) == PinArtifactsOf(l, l.pins[run])
            && (run in t.bindings <==> l.pins[run].binding.Some?)
            && (run in t.bindings ==> Some(t.bindings[run]) == l.pins[run].binding)
            && (run in t.quarantine <==> l.pins[run].binding.None?)
  {
    hide ContentOf, DocumentsOf, ObservedOf, PinReleasesOf, PinArtifactsOf, PinRowOf, ConfirmationRowOf, ItemIndex;
  }

  lemma PublishedEntryVerifies(cfg: Config, l: Ledger, n: nat, r: Id, id: Id)
    requires LogCoherent(l.refs, l.receipts, l.log) && PublishedEntry(l.log, n, r, id)
    ensures PinnedStatusVerifies(Tables(cfg, l), r, id)
  {
    hide LogCoherent, ContentOf, DocumentsOf, RunsOf;
    TableLookup(l.refs, l.receipts, cfg.sha, l.log, n);
  }

  lemma PinnedStatusesVerify(cfg: Config, l: Ledger, run: Id)
    requires LogCoherent(l.refs, l.receipts, l.log) && run in l.pins && PinRetains(l, run, l.pins[run])
    ensures var p := l.pins[run];
            var releases := ReleaseIndex(l.closures[p.closureHash].closure.releases);
            var pinned := PinReleasesOf(l, p);
            && pinned.Keys == releases.Keys * p.statusOf.Keys
            && forall r :: r in pinned ==>
                 pinned[r].manifestHash == releases[r].manifestHash
                 && PinnedStatusVerifies(Tables(cfg, l), r, pinned[r].statusId)
  {
    hide LogCoherent, Tables, PinnedStatusVerifies, ReleaseIndex, NodeIds;
    var p := l.pins[run];
    forall r | r in p.statusOf ensures PinnedStatusVerifies(Tables(cfg, l), r, p.statusOf[r]) {
      var n :| 0 <= n < |l.log| && PublishedEntry(l.log, n, r, p.statusOf[r]);
      PublishedEntryVerifies(cfg, l, n, r, p.statusOf[r]);
    }
  }

  lemma ReleaseKeys(cfg: Config, l: Ledger, k: Digest)
    requires MaterialCoherent(cfg, l) && k in l.closures
    ensures ReleaseIndex(l.closures[k].closure.releases).Keys == NodeIds(l.closures[k].closure.releases)
  {
    assert ClosureCoherent(cfg, l, k, l.closures[k].closure);
    ClosureNodesProper(cfg.sha, l.closures[k].closure);
    hide ReleaseIndex, NodeIds, RefIndex, ClosureCoherent;
    ReleaseIndexExact(l.closures[k].closure.releases);
  }

  /** A pin verifies exactly when the files of its closure do. */
  lemma PinClosureExact(cfg: Config, l: Ledger, files: Files, run: Id)
    requires Coherent(cfg, l) && run in l.pins
    ensures l.pins[run].closureHash in l.closures
    ensures PinClosureVerifies(cfg.sha, Tables(cfg, l), files, run, l.pins[run].closureHash) <==>
            ClosureFilesVerify(cfg.sha, files, l.closures[l.pins[run].closureHash].closure)
  {
    hide MaterialCoherent, LogCoherent, PinBound, Tables, Group, PinObjectsVerify, ClosureFilesVerify, ReleaseIndex,
         ArtifactIndex, NodeIds, PinnedStatusVerifies, PinReleasesOf, PinArtifactIndex, PublishedEntry;
    var k := l.pins[run].closureHash;
    assert PinCoherent(l, run, l.pins[run]);
    PinnedStatusesVerify(cfg, l, run);
    ReleaseKeys(cfg, l, k);
    PinTables(cfg, l, run);
    ClosureTables(cfg, l, k);
    PinObjectsExact(cfg, l, files, k);
  }

  lemma ConfirmationAccepted(cfg: Config, l: Ledger, h: Digest)
    requires RunsCoherent(cfg, l) && h in l.confirmations
    ensures ConfirmationVerifies(cfg.sha, Tables(cfg, l), h)
  {
    hide ContentOf, DocumentsOf, ObservedOf, PinReleasesOf, PinArtifactsOf, PinRowOf, ItemIndex, PinCoherent,
         ValidConfirmation;
    assert ConfirmationCoherent(cfg, l, h, l.confirmations[h].confirmation);
  }

  /** The tables of a coherent ledger with intact files pass every verifier. */
  lemma CoherentVerifies(cfg: Config, l: Ledger, files: Files)
    requires Coherent(cfg, l) && FilesIntact(cfg.sha, files, l.objects)
    ensures EverythingVerifies(cfg.sha, Tables(cfg, l), files)
  {
    hide MaterialCoherent, LogCoherent, RunsCoherent, FilesIntact, ReceiptVerifies, ClosureVerifies,
         ObservationVerifies, ReleaseChainsVerify, PinClosureVerifies, ConfirmationVerifies, ClosureFilesVerify,
         Tables;
    TableKeys(cfg, l);
    var db := Tables(cfg, l);
    forall h | h in l.receipts ensures ReceiptVerifies(cfg.sha, db, h) { ReceiptAccepted(cfg, l, h); }
    forall k | k in l.closures ensures ClosureVerifies(cfg.sha, db, k) { ClosureAccepted(cfg, l, k); }
    forall id | id in db.observed.observations ensures ObservationVerifies(cfg.sha, db, id) {
      ObservationAccepted(cfg, l, id);
    }
    forall r | r in l.refs ensures ReleaseChainsVerify(cfg.sha, db, r) { ReleaseChainsVerified(cfg, l, r); }
    forall run | run in l.pins ensures PinClosureVerifies(cfg.sha, db, files, run, l.pins[run].closureHash) {
      PinClosureExact(cfg, l, files, run);
      LedgerRuns.ClosureFilesIntact(cfg, l, files, l.pins[run].closureHash);
    }
    forall run | run in l.pins ensures run in db.runs.pins && db.runs.pins[run].closureHash == l.pins[run].closureHash {
      PinTables(cfg, l, run);
    }
    forall h | h in l.confirmations ensures ConfirmationVerifies(cfg.sha, db, h) { ConfirmationAccepted(cfg, l, h); }
  }

  lemma TableKeys(cfg: Config, l: Ledger)
    ensures var db := Tables(cfg, l);
            && db.documents.receipts.Keys == l.receipts.Keys && db.documents.closures.Keys == l.closures.Keys
            && db.content.identities == l.refs && db.runs.pins.Keys == l.pins.Keys
            && db.runs.confirmations.Keys == l.confirmations.Keys
  {
    hide ReleaseIndex, ArtifactIndex, DependencyIndex, ReceiptIndex, ObservedOf, ReceiptRowOf, ClosureRowOf,
         PinReleasesOf, PinArtifactsOf, PinRowOf, ConfirmationRowOf, ItemIndex;
  }

  /**
   The store never poisons itself: in every world reached by any sequence of
   transactions, every verifier accepts everything that is stored.
   */
  lemma NeverPoisoned(cfg: Config, ws: seq<LedgerRuns.World>, ops: seq<LedgerRuns.Op>, i: nat)
    requires LedgerRuns.Behaviour(cfg, ws, ops) && i < |ws| && LedgerRuns.Sound(cfg, ws[0])
    ensures EverythingVerifies(cfg.sha, Tables(cfg, ws[i].ledger), ws[i].files)
  {
    hide LedgerRuns.Behaviour, EverythingVerifies, Coherent, FilesIntact;
    LedgerRuns.RunKeeps(cfg, ws, ops, 0, i);
    CoherentVerifies(cfg, ws[i].ledger, ws[i].files);
  }
}
