/**
 What the replay verifiers establish, row by row: which columns and child rows there
 must be for a stored document, and which rows make up a chain. The observations alone
 decide the heads and the rows by kind.
 */
module VerifierRules {
  import opened Basics
  import opened Contracts
  import opened StatusEvents
  import opened ObservationLog
  import opened ObservationChain
  import opened RetentionGraph
  import opened RetentionIndex
  import opened Ledgers
  import opened Databases
  import opened Verifiers
  import opened LogEntries
  import opened AppendRules
  import opened ContractRules
  import opened PinRules

  /** The release is registered under this very reference. */
  predicate Registered(db: Database, ref: InputRef) {
    ref.releaseId in db.content.identities && db.content.identities[ref.releaseId] == ref
  }

  /* ---- Receipts ---- */

  /** One child row for each artifact, holding it, and no other. */
  ghost predicate ArtifactRows(table: map<Digest, map<Id, Artifact>>, h: Digest, artifacts: seq<Artifact>) {
    && (forall j :: 0 <= j < |artifacts| ==>
          h in table && artifacts[j].artifactId in table[h] && table[h][artifacts[j].artifactId] == artifacts[j])
    && (h in table ==> forall a :: a in table[h] ==> exists j :: 0 <= j < |artifacts| && artifacts[j].artifactId == a)
  }

  predicate NoArtifactTwice(artifacts: seq<Artifact>) {
    forall i, j :: 0 <= i < |artifacts| && 0 <= j < |artifacts| && artifacts[i].artifactId == artifacts[j].artifactId ==> i == j
  }

  /** The row under a hash holds a receipt with that hash, its columns and its child rows. */
  ghost predicate ReceiptStands(sha: Sha, db: Database, h: Digest) {
    && h in db.documents.receipts
    && var row := db.documents.receipts[h];
       var r := row.document;
       && row.schemaVersion == r.schemaVersion && row.contractVersion == r.contractVersion
       && row.releaseId == r.inputRef.releaseId && row.documentHash == sha(ReceiptText(r))
       && r.receiptHash == h && h == sha(ReceiptIdentity(r.schemaVersion, r.contractVersion, r.inputRef, r.artifacts))
       && Registered(db, r.inputRef) && NoArtifactTwice(r.artifacts)
       && ArtifactRows(db.documents.receiptArtifacts, h, r.artifacts)
  }

  lemma {:induction false} ReceiptRowsExact(table: map<Digest, map<Id, Artifact>>, h: Digest, artifacts: seq<Artifact>)
    requires NoArtifactTwice(artifacts)
    ensures Group(table, h) == ReceiptIndex(artifacts) <==> ArtifactRows(table, h, artifacts)
  {
    assert ArtifactsDistinct(artifacts);
    ReceiptIndexExact(artifacts);
    hide ReceiptIndex;
    if ArtifactRows(table, h, artifacts) {
      var rows, index := Group(table, h), ReceiptIndex(artifacts);
      forall a | a in rows ensures a in index && index[a] == rows[a] {
        var j :| 0 <= j < |artifacts| && artifacts[j].artifactId == a;
      }
      forall a | a in index ensures a in rows { var j :| 0 <= j < |artifacts| && artifacts[j].artifactId == a; }
      assert rows == index;
    }
  }

  lemma DistinctArtifacts(artifacts: seq<Artifact>)
    ensures ArtifactsDistinct(artifacts) <==> NoArtifactTwice(artifacts)
  {
    if ArtifactsDistinct(artifacts) {
      forall i, j | 0 <= i < |artifacts| && 0 <= j < |artifacts| && artifacts[i].artifactId == artifacts[j].artifactId
        ensures i == j
      {
      }
    }
  }

  lemma ReceiptExact(sha: Sha, db: Database, h: Digest)
    ensures ReceiptVerifies(sha, db, h) <==> ReceiptStands(sha, db, h)
  {
    hide ReceiptIndex, ArtifactRows, NoArtifactTwice, ArtifactsDistinct, Group;
    if h in db.documents.receipts {
      var r := db.documents.receipts[h].document;
      DistinctArtifacts(r.artifacts);
      if NoArtifactTwice(r.artifacts) { ReceiptRowsExact(db.documents.receiptArtifacts, h, r.artifacts); }
    }
  }

  /* ---- Closures ---- */

  /** One row for each release of the closure, with its manifest's hash and size, and no other. */
  ghost predicate ReleaseRows(table: map<Digest, map<Id, ReleaseRow>>, k: Digest, nodes: seq<Node>) {
    && (forall i :: 0 <= i < |nodes| ==>
          && k in table && nodes[i].inputRef.releaseId in table[k]
          && table[k][nodes[i].inputRef.releaseId].manifestHash == nodes[i].manifestDocumentHash
          && table[k][nodes[i].inputRef.releaseId].manifestSize == nodes[i].manifestSize)
    && (k in table ==> forall r :: r in table[k] ==> exists i :: 0 <= i < |nodes| && nodes[i].inputRef.releaseId == r)
  }

  ghost predicate DependsOn(nodes: seq<Node>, r: Id, d: Id) {
    exists i :: 0 <= i < |nodes| && nodes[i].inputRef.releaseId == r && d in nodes[i].dependencies
  }

  predicate PairListed(table: map<Digest, set<(Id, Id)>>, k: Digest, r: Id, d: Id) {
    k in table && (r, d) in table[k]
  }

  /** A pair for each dependency, and no other. */
  ghost predicate DependencyRows(table: map<Digest, set<(Id, Id)>>, k: Digest, nodes: seq<Node>) {
    forall r, d :: PairListed(table, k, r, d) <==> DependsOn(nodes, r, d)
  }

  predicate ArtifactAt(nodes: seq<Node>, i: int, j: int, r: Id, a: Id) {
    0 <= i < |nodes| && nodes[i].inputRef.releaseId == r && 0 <= j < |nodes[i].artifacts| && nodes[i].artifacts[j].artifactId == a
  }

  /** A row for each artifact of each release, holding it, and no other. */
  ghost predicate NodeArtifactRows(table: map<Digest, map<(Id, Id), Artifact>>, k: Digest, nodes: seq<Node>) {
    && (forall i, j, r, a :: ArtifactAt(nodes, i, j, r, a) ==>
          k in table && (r, a) in table[k] && table[k][(r, a)] == nodes[i].artifacts[j])
    && (k in table ==> forall r, a :: (r, a) in table[k] ==> exists i, j :: ArtifactAt(nodes, i, j, r, a))
  }

  predicate NoReleaseTwice(nodes: seq<Node>) {
    forall i, j :: 0 <= i < |nodes| && 0 <= j < |nodes| && nodes[i].inputRef.releaseId == nodes[j].inputRef.releaseId ==> i == j
  }

  ghost predicate ClosureStands(sha: Sha, db: Database, k: Digest) {
    && k in db.documents.closures
    && var row := db.documents.closures[k];
       var c := row.document;
       && row.schemaVersion == c.schemaVersion && row.rootReleaseId == c.root.releaseId
       && row.documentHash == sha(ClosureText(c))
       && c.closureHash == k && k == sha(ClosureIdentity(c.schemaVersion, c.root, c.releases))
       && (exists i :: 0 <= i < |c.releases| && c.releases[i].inputRef == c.root)
       && NoReleaseTwice(c.releases)
       && (forall i :: 0 <= i < |c.releases| ==> Registered(db, c.releases[i].inputRef) && NoArtifactTwice(c.releases[i].artifacts))
       && ReleaseRows(db.documents.closureReleases, k, c.releases)
       && DependencyRows(db.documents.closureDependencies, k, c.releases)
       && NodeArtifactRows(db.documents.closureArtifacts, k, c.releases)
  }

  lemma DistinctNodes(nodes: seq<Node>)
    ensures NodesDistinct(nodes) <==> NoReleaseTwice(nodes)
  {
    if NodesDistinct(nodes) {
      forall i, j | 0 <= i < |nodes| && 0 <= j < |nodes| && nodes[i].inputRef.releaseId == nodes[j].inputRef.releaseId
        ensures i == j
      {
        assert nodes[i].Id() == nodes[j].Id();
      }
    }
    if NoReleaseTwice(nodes) {
      forall i, j | 0 <= i < j < |nodes| ensures nodes[i].Id() != nodes[j].Id() {
        assert nodes[i].inputRef.releaseId != nodes[j].inputRef.releaseId;
      }
    }
  }

  lemma {:induction false} ReleaseRowsExact(table: map<Digest, map<Id, ReleaseRow>>, k: Digest, nodes: seq<Node>)
    requires NodesDistinct(nodes)
    ensures Group(table, k) == ReleaseIndex(nodes) <==> ReleaseRows(table, k, nodes)
  {
    ReleaseIndexExact(nodes);
    hide ReleaseIndex, NodesDistinct;
    var rows, index := Group(table, k), ReleaseIndex(nodes);
    forall i | 0 <= i < |nodes|
      ensures nodes[i].inputRef.releaseId in index
              && index[nodes[i].inputRef.releaseId] == ReleaseRow(nodes[i].manifestDocumentHash, nodes[i].manifestSize)
    {
      assert nodes[i].Id() in NodeIds(nodes);
    }
    forall r | r in index ensures exists i :: 0 <= i < |nodes| && nodes[i].inputRef.releaseId == r {
      var i :| 0 <= i < |nodes| && nodes[i].Id() == r;
    }
    hide NodeIds;
    if ReleaseRows(table, k, nodes) {
      forall r | r in rows ensures r in index && index[r] == rows[r] {
        var i :| 0 <= i < |nodes| && nodes[i].inputRef.releaseId == r;
      }
      forall r | r in index ensures r in rows { var i :| 0 <= i < |nodes| && nodes[i].inputRef.releaseId == r; }
      assert rows == index;
    }
  }

  lemma DependencyIndexHolds(nodes: seq<Node>, r: Id, d: Id)
    ensures (r, d) in DependencyIndex(nodes) <==> DependsOn(nodes, r, d)
  {
    var index := DependencyIndex(nodes);
    if i :| 0 <= i < |nodes| && nodes[i].inputRef.releaseId == r && d in nodes[i].dependencies {
      var j :| 0 <= j < |nodes[i].dependencies| && nodes[i].dependencies[j] == d;
      assert (nodes[i].Id(), nodes[i].dependencies[j]) in index;
    }
    if (r, d) in index {
      var i, j :| 0 <= i < |nodes| && 0 <= j < |nodes[i].dependencies| && (nodes[i].Id(), nodes[i].dependencies[j]) == (r, d);
      assert nodes[i].inputRef.releaseId == r && d in nodes[i].dependencies;
    }
  }

  lemma DependencyRowsExact(table: map<Digest, set<(Id, Id)>>, k: Digest, nodes: seq<Node>)
    ensures (if k in table then table[k] else {}) == DependencyIndex(nodes) <==> DependencyRows(table, k, nodes)
  {
    var rows, index := if k in table then table[k] else {}, DependencyIndex(nodes);
    forall r, d ensures (r, d) in index <==> DependsOn(nodes, r, d) { DependencyIndexHolds(nodes, r, d); }
    forall r, d ensures PairListed(table, k, r, d) <==> (r, d) in rows {}
    hide DependencyIndex, DependsOn, PairListed;
    if DependencyRows(table, k, nodes) {
      forall p ensures p in rows <==> p in index {
        assert (p.0, p.1) == p;
        assert PairListed(table, k, p.0, p.1) <==> DependsOn(nodes, p.0, p.1);
      }
      assert rows == index;
    }
  }

  lemma {:induction false} ArtifactIndexHolds(nodes: seq<Node>)
    requires NodesProper(nodes)
    ensures forall i, j, r, a :: ArtifactAt(nodes, i, j, r, a) ==>
              (r, a) in ArtifactIndex(nodes) && ArtifactIndex(nodes)[(r, a)] == nodes[i].artifacts[j]
    ensures forall r, a :: (r, a) in ArtifactIndex(nodes) ==> exists i, j :: ArtifactAt(nodes, i, j, r, a)
  {
    hide ArtifactIndex, NodesProper;
    forall i, j, r, a | ArtifactAt(nodes, i, j, r, a)
      ensures (r, a) in ArtifactIndex(nodes) && ArtifactIndex(nodes)[(r, a)] == nodes[i].artifacts[j]
    {
      ArtifactIndexed(nodes, i, j);
    }
    forall r, a | (r, a) in ArtifactIndex(nodes) ensures exists i, j :: ArtifactAt(nodes, i, j, r, a) {
      var i, j := IndexedArtifact(nodes, (r, a));
      assert ArtifactAt(nodes, i, j, r, a);
    }
  }

  lemma {:induction false} ArtifactRowsExact(table: map<Digest, map<(Id, Id), Artifact>>, k: Digest, nodes: seq<Node>)
    requires NodesProper(nodes)
    ensures Group(table, k) == ArtifactIndex(nodes) <==> NodeArtifactRows(table, k, nodes)
  {
    ArtifactIndexHolds(nodes);
    hide ArtifactIndex, NodesProper, ArtifactAt;
    var rows, index := Group(table, k), ArtifactIndex(nodes);
    if NodeArtifactRows(table, k, nodes) {
      forall p ensures p in rows <==> p in index { assert (p.0, p.1) == p; }
      forall p | p in rows ensures index[p] == rows[p] {
        assert (p.0, p.1) == p;
        var i, j :| ArtifactAt(nodes, i, j, p.0, p.1);
      }
      assert rows == index;
    }
  }

  lemma ClosureExact(sha: Sha, db: Database, k: Digest)
    ensures ClosureVerifies(sha, db, k) <==> ClosureStands(sha, db, k)
  {
    hide ReleaseIndex, DependencyIndex, ArtifactIndex, ReleaseRows, DependencyRows, NodeArtifactRows, NoArtifactTwice,
         ArtifactsDistinct, NodesDistinct, NoReleaseTwice, Group;
    if k in db.documents.closures {
      var nodes := db.documents.closures[k].document.releases;
      DistinctNodes(nodes);
      forall i | 0 <= i < |nodes| ensures ArtifactsDistinct(nodes[i].artifacts) <==> NoArtifactTwice(nodes[i].artifacts) {
        DistinctArtifacts(nodes[i].artifacts);
      }
      if NoReleaseTwice(nodes) && forall i :: 0 <= i < |nodes| ==> NoArtifactTwice(nodes[i].artifacts) {
        ReleaseRowsExact(db.documents.closureReleases, k, nodes);
        DependencyRowsExact(db.documents.closureDependencies, k, nodes);
        ArtifactRowsExact(db.documents.closureArtifacts, k, nodes);
      }
    }
  }

  /* ---- Observations ---- */

  /** One row in the table of its kind, holding its fields, and none in the others. */
  predicate SubtypeStands(db: Database, id: Id, o: Observation) {
    var t := db.observed;
    match o
    case FetchObservation(_, _, _, _, _, _, _, _, _, _, _, _, _) =>
      && id in t.fetches && id !in t.statuses && id !in t.admissions
      && t.fetches[id].result == o.result && t.fetches[id].receiptHash == o.receiptHash
    case StatusObservation(_, _, _, _, _, _, _, _, _, _, _, _, _) =>
      && id !in t.fetches && id in t.statuses && id !in t.admissions
      && var row := t.statuses[id];
         && row.result == o.result && row.status == o.status && row.eventId == o.eventId && row.eventHash == o.eventHash
         && row.previousHash == o.previousHash && row.sequence == o.sequence && row.recordedAt == o.recordedAt
    case AdmissionObservation(_, _, _, _, _, _, _, _) =>
      && id !in t.fetches && id !in t.statuses && id in t.admissions
      && t.admissions[id].statusId == o.statusId && t.admissions[id].admission == o.admission
  }

  /** A passed fetch names a stored receipt and lists its artifacts in order. */
  ghost predicate FetchStands(sha: Sha, db: Database, o: Observation)
    requires o.FetchObservation?
  {
    o.result == Passed ==>
      && o.receiptHash.Some? && ReceiptStands(sha, db, o.receiptHash.value)
      && Ascending(o.artifactIds)
      && var table := db.documents.receiptArtifacts;
         forall a :: a in o.artifactIds <==> o.receiptHash.value in table && a in table[o.receiptHash.value]
  }

  /** The row under an identifier holds a valid observation with its columns and its row by kind. */
  ghost predicate ObservationStands(sha: Sha, db: Database, id: Id) {
    && id in db.observed.observations
    && var row := db.observed.observations[id];
       var o := row.document;
       && ValidObservation(o) && o.id == id && OfKind(o, row.kind) && row.releaseId == o.releaseId
       && row.observedAt == o.observedAt && row.supersedes == o.supersedes && row.documentHash == sha(ObservationText(o))
       && Registered(db, o.inputRef) && SubtypeStands(db, id, o)
       && (o.FetchObservation? ==> FetchStands(sha, db, o))
  }

  lemma SubtypeRows(db: Database, id: Id, o: Observation)
    ensures SubtypeExact(db, id, o) <==> SubtypeStands(db, id, o)
  {
    var t := db.observed;
    if o.FetchObservation? && id in t.fetches {
      assert t.fetches[id] == FetchRowOf(o) <==> t.fetches[id].result == o.result && t.fetches[id].receiptHash == o.receiptHash;
    }
  }

  lemma FetchExact(sha: Sha, db: Database, o: Observation)
    requires o.FetchObservation?
    ensures FetchVerifies(sha, db, o) <==> FetchStands(sha, db, o)
  {
    AscendingExact(o.artifactIds);
    hide ReceiptVerifies, ReceiptStands, StrictlySorted, Ascending, SortedList;
    if o.receiptHash.Some? {
      var h := o.receiptHash.value;
      ReceiptExact(sha, db, h);
      var keys := Group(db.documents.receiptArtifacts, h).Keys;
      if StrictlySorted(o.artifactIds) && Elements(o.artifactIds) == keys { SortedUnique(SortedList(keys), o.artifactIds); }
      assert forall a :: a in Elements(o.artifactIds) <==> a in o.artifactIds;
    }
  }

  lemma ObservationExact(sha: Sha, db: Database, id: Id)
    ensures ObservationVerifies(sha, db, id) <==> ObservationStands(sha, db, id)
  {
    hide ValidObservation, SubtypeExact, SubtypeStands, FetchVerifies, FetchStands;
    if id in db.observed.observations {
      var o := db.observed.observations[id].document;
      SubtypeRows(db, id, o);
      if o.FetchObservation? { FetchExact(sha, db, o); }
    }
  }

  /* ---- Chains ---- */

  /** The row is about the release and kind. */
  predicate RowAbout(db: Database, r: Id, k: Kind, id: Id) {
    && id in db.observed.observations && db.observed.observations[id].releaseId == r && db.observed.observations[id].kind == k
  }

  /** Every row about the release and kind once, each superseding the one before, up to the head. */
  ghost predicate Strings(db: Database, r: Id, k: Kind, path: seq<Id>, head: Option<Id>) {
    && (forall id :: RowAbout(db, r, k, id) <==> id in path) && NoneTwice(path)
    && (forall i :: 0 <= i < |path| && path[i] in db.observed.observations ==>
          db.observed.observations[path[i]].supersedes == if i == 0 then None else Some(path[i - 1]))
    && head == if path == [] then None else Some(path[|path| - 1])
  }

  lemma RowsAbout(db: Database, r: Id, k: Kind)
    ensures forall id :: id in ChainRows(db, r, k) <==> RowAbout(db, r, k, id)
    ensures forall id :: RowAbout(db, r, k, id) ==>
              id in db.observed.observations && ChainRows(db, r, k)[id] == db.observed.observations[id].supersedes
  {
  }

  lemma PathGives(db: Database, r: Id, k: Kind, path: seq<Id>, head: Option<Id>)
    requires IsPath(ChainRows(db, r, k), path, head)
    ensures Strings(db, r, k, path, head)
  {
    RowsAbout(db, r, k);
    DistinctExact(path);
    PathCovers(ChainRows(db, r, k), path, head);
    hide RowAbout, ChainRows, NoneTwice, Distinct;
    forall id ensures RowAbout(db, r, k, id) <==> id in path {
      assert id in ChainRows(db, r, k).Keys <==> id in Elements(path);
    }
    forall i | 0 <= i < |path|
      ensures path[i] in db.observed.observations
              && db.observed.observations[path[i]].supersedes == if i == 0 then None else Some(path[i - 1])
    {
      assert LinkAt(ChainRows(db, r, k), path, i);
    }
  }

  lemma StringsGive(db: Database, r: Id, k: Kind, path: seq<Id>, head: Option<Id>)
    requires Strings(db, r, k, path, head)
    ensures IsPath(ChainRows(db, r, k), path, head)
  {
    RowsAbout(db, r, k);
    DistinctExact(path);
    DistinctSize(path);
    hide RowAbout, ChainRows, NoneTwice, Distinct;
    forall id ensures id in ChainRows(db, r, k).Keys <==> id in Elements(path) {
      assert RowAbout(db, r, k, id) <==> id in path;
    }
    assert Elements(path) == ChainRows(db, r, k).Keys;
    forall i | 0 <= i < |path| ensures LinkAt(ChainRows(db, r, k), path, i) { assert RowAbout(db, r, k, path[i]); }
  }

  lemma PathStrings(db: Database, r: Id, k: Kind, path: seq<Id>, head: Option<Id>)
    ensures IsPath(ChainRows(db, r, k), path, head) <==> Strings(db, r, k, path, head)
  {
    hide IsPath, Strings, ChainRows;
    if IsPath(ChainRows(db, r, k), path, head) { PathGives(db, r, k, path, head); }
    if Strings(db, r, k, path, head) { StringsGive(db, r, k, path, head); }
  }

  /* ---- Replay ---- */

  ghost predicate AllAbout(log: Log, r: Id) {
    forall n :: 0 <= n < |log| ==> About(log[n], r, ReleaseStatus)
  }

  lemma {:induction false} WholeChain(log: Log, r: Id)
    requires AllAbout(log, r)
    ensures Chain(log, r, ReleaseStatus) == log
    decreases |log|
  {
    if log != [] {
      WholeChain(log[..|log| - 1], r);
      AboutMatches(log[|log| - 1], r, ReleaseStatus);
    }
  }

  /** A status continues what was before it exactly when the history with it replays. */
  lemma StepExact(log: Log, r: Id)
    requires log != [] && AllValid(log) && AllAbout(log, r)
    requires Replays(History(log[..|log| - 1], r))
    ensures Replays(History(log, r)) <==> StatusContinues(log[..|log| - 1], log[|log| - 1].observation)
  {
    hide ValidObservation, History, ClashFree, Continues, Replays, SameEvent, EventAfter, TakesOver, StatusEvent, AllValid,
         NewestPassed;
    var n := |log| - 1;
    var front, o := log[..n], log[n].observation;
    ValidFront(log);
    HistoryStep(log, r);
    EntryValid(log, n);
    assert About(log[n], r, ReleaseStatus);
    hide AllAbout, About;
    if o.result == Passed {
      ReplaysSnoc(History(front, r), StatusEvent(o).value);
      ClashExact(front, o);
      ContinuesExact(front, o);
    }
  }

  ghost predicate ContinuesAt(log: Log, n: int)
    requires 0 <= n < |log|
  {
    log[n].observation.StatusObservation? && StatusContinues(log[..n], log[n].observation)
  }

  /** Each status continues those before it. */
  ghost predicate AllContinue(log: Log) {
    forall n :: 0 <= n < |log| ==> ContinuesAt(log, n)
  }

  lemma AboutStatuses(log: Log, r: Id)
    requires AllAbout(log, r)
    ensures forall n :: 0 <= n < |log| ==> log[n].observation.StatusObservation?
  {
    forall n | 0 <= n < |log| ensures log[n].observation.StatusObservation? { assert About(log[n], r, ReleaseStatus); }
  }

  lemma {:induction false} ReplayExact(log: Log, r: Id)
    requires AllValid(log) && AllAbout(log, r)
    ensures Replays(History(log, r)) <==> AllContinue(log)
    decreases |log|
  {
    hide ValidObservation, StatusContinues, AllAbout, AllValid, Replays, History;
    AboutStatuses(log, r);
    if log == [] {
      NothingReplays(r);
    } else {
      var n := |log| - 1;
      var front := log[..n];
      ValidFront(log);
      AboutFront(log, r);
      ReplayExact(front, r);
      HistoryFront(log, r);
      forall i | 0 <= i < n ensures ContinuesAt(front, i) <==> ContinuesAt(log, i) {
        assert front[..i] == log[..i] && front[i] == log[i];
      }
      assert ContinuesAt(log, n) <==> StatusContinues(front, log[n].observation);
      assert AllContinue(log) <==> AllContinue(front) && ContinuesAt(log, n);
      if Replays(History(front, r)) { StepExact(log, r); }
    }
  }

  lemma NothingReplays(r: Id)
    ensures Replays(History([], r))
  {
  }

  lemma AboutFront(log: Log, r: Id)
    requires AllAbout(log, r) && log != []
    ensures AllAbout(log[..|log| - 1], r)
  {
    hide About;
    var front := log[..|log| - 1];
    forall n | 0 <= n < |front| ensures About(front[n], r, ReleaseStatus) { assert front[n] == log[n]; }
  }

  lemma HistoryFront(log: Log, r: Id)
    requires log != [] && AllValid(log)
    ensures Replays(History(log, r)) ==> Replays(History(log[..|log| - 1], r))
  {
    HistoryStep(log, r);
    hide History, AllValid, StatusEvent, PassedAt;
    var h := History(log[..|log| - 1], r);
    var m := History(log, r);
    if Replays(m) { ReplaysPrefix(m, |h|); assert m[..|h|] == h; }
  }

  /* ---- The chain of a release ---- */

  /** The admission judges a stored status of the release, not a later one, and authorises only a published one. */
  ghost predicate AdmissionStands(sha: Sha, db: Database, r: Id, o: Observation) {
    && o.AdmissionObservation? && ObservationStands(sha, db, o.statusId)
    && var s := db.observed.observations[o.statusId].document;
       && s.releaseId == r && s.StatusObservation? && s.observedAt <= o.observedAt
       && (o.admission == Authorized ==> s.result == Passed && s.status == Some(Published))
  }

  /** The observations on the path, with the times they were persisted. */
  function Told(db: Database, path: seq<Id>): Log
    requires forall i :: 0 <= i < |path| ==> path[i] in db.observed.observations
  {
    seq(|path|, i requires 0 <= i < |path| =>
      Entry(db.observed.observations[path[i]].document, db.observed.observations[path[i]].persistedAt))
  }

  ghost predicate KindStands(sha: Sha, db: Database, r: Id, k: Kind, log: Log) {
    match k
    case ArtifactFetch => true
    case ReleaseStatus => AllContinue(log)
    case ReleaseAdmission => forall n :: 0 <= n < |log| ==> AdmissionStands(sha, db, r, log[n].observation)
  }

  /** The rows string together, hold their documents, never go back in time, and each rests on those before it. */
  ghost predicate ChainStands(sha: Sha, db: Database, r: Id, k: Kind, head: Option<Id>, path: seq<Id>) {
    && Strings(db, r, k, path, head)
    && (forall i :: 0 <= i < |path| ==> ObservationStands(sha, db, path[i]))
    && var log := Told(db, path);
       && (forall i :: 0 < i < |log| ==> log[i - 1].observation.observedAt <= log[i].observation.observedAt)
       && KindStands(sha, db, r, k, log)
  }

  lemma AdmissionExact(sha: Sha, db: Database, r: Id, o: Observation)
    ensures AdmissionVerifies(sha, db, r, o) <==> AdmissionStands(sha, db, r, o)
  {
    hide ObservationVerifies, ObservationStands;
    if o.AdmissionObservation? {
      ObservationExact(sha, db, o.statusId);
      assert ObservationVerifies(sha, db, o.statusId) ==> o.statusId in db.observed.observations by {
        if ObservationVerifies(sha, db, o.statusId) { Recorded(sha, db, o.statusId); }
      }
    }
  }

  lemma Recorded(sha: Sha, db: Database, id: Id)
    requires ObservationVerifies(sha, db, id)
    ensures id in db.observed.observations
  {
  }

  lemma ToldAbout(sha: Sha, db: Database, r: Id, k: Kind, path: seq<Id>, head: Option<Id>)
    requires Strings(db, r, k, path, head) && forall i :: 0 <= i < |path| ==> ObservationStands(sha, db, path[i])
    ensures (forall i :: 0 <= i < |path| ==> path[i] in db.observed.observations) && AllValid(Told(db, path))
    ensures k == ReleaseStatus ==> AllAbout(Told(db, path), r)
  {
    hide ValidObservation, SubtypeStands, FetchStands;
    forall i | 0 <= i < |path|
      ensures path[i] in db.observed.observations
      ensures ValidObservation(db.observed.observations[path[i]].document)
      ensures RowAbout(db, r, k, path[i]) && OfKind(db.observed.observations[path[i]].document, k)
      ensures db.observed.observations[path[i]].document.releaseId == r
    {
      assert ObservationStands(sha, db, path[i]) && path[i] in path;
    }
  }

  lemma KindExact(sha: Sha, db: Database, r: Id, k: Kind, log: Log)
    requires AllValid(log) && (k == ReleaseStatus ==> AllAbout(log, r))
    ensures KindReplays(sha, db, r, k, log) <==> KindStands(sha, db, r, k, log)
  {
    hide Replays, AllValid, AllAbout, AllContinue, AdmissionVerifies, AdmissionStands, EventsOf;
    match k
    case ArtifactFetch =>
    case ReleaseStatus =>
      WholeChain(log, r);
      ReplayExact(log, r);
    case ReleaseAdmission =>
      forall n | 0 <= n < |log|
        ensures AdmissionVerifies(sha, db, r, log[n].observation) <==> AdmissionStands(sha, db, r, log[n].observation)
      {
        AdmissionExact(sha, db, r, log[n].observation);
      }
  }

  lemma PathExact(sha: Sha, db: Database, r: Id, k: Kind, head: Option<Id>, path: seq<Id>)
    ensures IsPath(ChainRows(db, r, k), path, head) && PathVerifies(sha, db, r, k, path) <==> ChainStands(sha, db, r, k, head, path)
  {
    hide IsPath, Strings, ChainRows, ObservationVerifies, ObservationStands, KindReplays, KindStands, AllValid, AllAbout;
    PathStrings(db, r, k, path, head);
    forall i | 0 <= i < |path| ensures ObservationVerifies(sha, db, path[i]) <==> ObservationStands(sha, db, path[i]) {
      ObservationExact(sha, db, path[i]);
    }
    if Strings(db, r, k, path, head) && forall i :: 0 <= i < |path| ==> ObservationStands(sha, db, path[i]) {
      ToldAbout(sha, db, r, k, path, head);
      assert EntriesOn(db, path) == Told(db, path);
      KindExact(sha, db, r, k, Told(db, path));
    }
  }

  lemma ChainExact(sha: Sha, db: Database, r: Id, k: Kind, head: Option<Id>)
    ensures ChainVerifies(sha, db, r, k, head) <==> exists path :: ChainStands(sha, db, r, k, head, path)
  {
    hide IsPath, PathVerifies, ChainStands;
    forall path
      ensures IsPath(ChainRows(db, r, k), path, head) && PathVerifies(sha, db, r, k, path) <==>
              ChainStands(sha, db, r, k, head, path)
    {
      PathExact(sha, db, r, k, head, path);
    }
  }

  /* ---- Pins ---- */

  /** The manifest of the release is stored as the closure has it, and its file holds it. */
  ghost predicate ManifestStands(sha: Sha, db: Database, files: Files, n: Node) {
    var r := n.inputRef.releaseId;
    && r in db.content.manifests && n.manifestDocumentHash in db.content.objects
    && db.content.manifests[r].hash == n.manifestDocumentHash && db.content.manifests[r].sizeBytes == n.manifestSize
    && HoldsContent(sha, files, n.manifestDocumentHash, n.manifestSize)
  }

  ghost predicate ArtifactStands(sha: Sha, db: Database, files: Files, r: Id, a: Artifact) {
    && (r, a.artifactId) in db.content.artifacts && a.hash in db.content.objects
    && db.content.artifacts[(r, a.artifactId)].artifact == a
    && HoldsContent(sha, files, a.hash, a.sizeBytes)
  }

  /** The pinned row of a release repeats its manifest hash and names a passed and published status of it. */
  ghost predicate PinnedReleaseStands(db: Database, table: map<Id, map<Id, PinReleaseRow>>, run: Id, n: Node) {
    var r := n.inputRef.releaseId;
    && run in table && r in table[run]
    && table[run][r].manifestHash == n.manifestDocumentHash
    && var id := table[run][r].statusId;
       && id in db.observed.statuses && id in db.observed.observations && db.observed.observations[id].releaseId == r
       && db.observed.statuses[id].result == Passed && db.observed.statuses[id].status == Some(Published)
  }

  ghost predicate PinnedArtifactStands(table: map<Id, map<(Id, Id), PinArtifactRow>>, run: Id, r: Id, a: Artifact) {
    && run in table && (r, a.artifactId) in table[run]
    && table[run][(r, a.artifactId)].hash == a.hash && table[run][(r, a.artifactId)].sizeBytes == a.sizeBytes
  }

  /** The index of releases, said of the nodes. */
  lemma {:induction false} ReleaseIndexHolds(nodes: seq<Node>)
    requires NodesDistinct(nodes)
    ensures forall i :: 0 <= i < |nodes| ==>
              nodes[i].inputRef.releaseId in ReleaseIndex(nodes)
              && ReleaseIndex(nodes)[nodes[i].inputRef.releaseId] == ReleaseRow(nodes[i].manifestDocumentHash, nodes[i].manifestSize)
    ensures forall r :: r in ReleaseIndex(nodes) ==> exists i :: 0 <= i < |nodes| && nodes[i].inputRef.releaseId == r
  {
    ReleaseIndexExact(nodes);
    hide ReleaseIndex, NodesDistinct;
    var index := ReleaseIndex(nodes);
    forall i | 0 <= i < |nodes|
      ensures nodes[i].inputRef.releaseId in index
              && index[nodes[i].inputRef.releaseId] == ReleaseRow(nodes[i].manifestDocumentHash, nodes[i].manifestSize)
    {
      assert nodes[i].Id() in NodeIds(nodes);
    }
    forall r | r in index ensures exists i :: 0 <= i < |nodes| && nodes[i].inputRef.releaseId == r {
      var i :| 0 <= i < |nodes| && nodes[i].Id() == r;
    }
  }

  lemma {:induction false} ManifestsExact(sha: Sha, db: Database, files: Files, nodes: seq<Node>)
    requires NodesDistinct(nodes)
    ensures (forall r :: r in ReleaseIndex(nodes) ==> ReleaseRowVerifies(sha, db, files, r, ReleaseIndex(nodes)[r])) <==>
            forall i :: 0 <= i < |nodes| ==> ManifestStands(sha, db, files, nodes[i])
  {
    ReleaseIndexHolds(nodes);
    hide ReleaseIndex, NodesDistinct;
    var index := ReleaseIndex(nodes);
    forall i | 0 <= i < |nodes|
      ensures var r := nodes[i].inputRef.releaseId;
              ReleaseRowVerifies(sha, db, files, r, index[r]) <==> ManifestStands(sha, db, files, nodes[i])
    {
    }
    hide ReleaseRowVerifies, ManifestStands;
    if forall i :: 0 <= i < |nodes| ==> ManifestStands(sha, db, files, nodes[i]) {
      forall r | r in index ensures ReleaseRowVerifies(sha, db, files, r, index[r]) {
        var i :| 0 <= i < |nodes| && nodes[i].inputRef.releaseId == r;
      }
    }
  }

  ghost predicate NodeArtifactsStand(sha: Sha, db: Database, files: Files, n: Node) {
    forall j :: 0 <= j < |n.artifacts| ==> ArtifactStands(sha, db, files, n.inputRef.releaseId, n.artifacts[j])
  }

  lemma {:induction false} ArtifactsStandExact(sha: Sha, db: Database, files: Files, nodes: seq<Node>)
    requires NodesProper(nodes)
    ensures (forall key :: key in ArtifactIndex(nodes) ==> ArtifactRowVerifies(sha, db, files, key, ArtifactIndex(nodes)[key])) <==>
            forall i :: 0 <= i < |nodes| ==> NodeArtifactsStand(sha, db, files, nodes[i])
  {
    hide ArtifactIndex;
    var index := ArtifactIndex(nodes);
    if forall key :: key in index ==> ArtifactRowVerifies(sha, db, files, key, index[key]) {
      forall i, j | 0 <= i < |nodes| && 0 <= j < |nodes[i].artifacts|
        ensures ArtifactStands(sha, db, files, nodes[i].inputRef.releaseId, nodes[i].artifacts[j])
      {
        ArtifactIndexed(nodes, i, j);
      }
    }
    if forall i :: 0 <= i < |nodes| ==> NodeArtifactsStand(sha, db, files, nodes[i]) {
      forall key | key in index ensures ArtifactRowVerifies(sha, db, files, key, index[key]) {
        var i, j := IndexedArtifact(nodes, key);
        assert NodeArtifactsStand(sha, db, files, nodes[i]);
        assert ArtifactStands(sha, db, files, nodes[i].inputRef.releaseId, nodes[i].artifacts[j]);
      }
    }
  }

  /** The pinned releases are those of the closure. */
  ghost predicate PinnedReleases(db: Database, run: Id, nodes: seq<Node>) {
    && (forall i :: 0 <= i < |nodes| ==> PinnedReleaseStands(db, db.runs.pinReleases, run, nodes[i]))
    && (run in db.runs.pinReleases ==>
          forall r :: r in db.runs.pinReleases[run] ==> exists i :: 0 <= i < |nodes| && nodes[i].inputRef.releaseId == r)
  }

  lemma {:induction false} PinnedReleasesExact(db: Database, run: Id, nodes: seq<Node>)
    requires NodesDistinct(nodes)
    ensures var releases, pinned := ReleaseIndex(nodes), Group(db.runs.pinReleases, run);
            (pinned.Keys == releases.Keys
             && forall r :: r in pinned ==>
                  pinned[r].manifestHash == releases[r].manifestHash && PinnedStatusVerifies(db, r, pinned[r].statusId)) <==>
            PinnedReleases(db, run, nodes)
  {
    ReleaseIndexHolds(nodes);
    hide ReleaseIndex, NodesDistinct;
    var releases, pinned := ReleaseIndex(nodes), Group(db.runs.pinReleases, run);
    if PinnedReleases(db, run, nodes) {
      forall r | r in releases ensures r in pinned { var i :| 0 <= i < |nodes| && nodes[i].inputRef.releaseId == r; }
      forall r | r in pinned
        ensures r in releases && pinned[r].manifestHash == releases[r].manifestHash
                && PinnedStatusVerifies(db, r, pinned[r].statusId)
      {
        var i :| 0 <= i < |nodes| && nodes[i].inputRef.releaseId == r;
        assert PinnedReleaseStands(db, db.runs.pinReleases, run, nodes[i]);
      }
      assert pinned.Keys == releases.Keys;
    }
    if pinned.Keys == releases.Keys
       && forall r :: r in pinned ==>
            pinned[r].manifestHash == releases[r].manifestHash && PinnedStatusVerifies(db, r, pinned[r].statusId) {
      forall i | 0 <= i < |nodes| ensures PinnedReleaseStands(db, db.runs.pinReleases, run, nodes[i]) {
        assert nodes[i].inputRef.releaseId in pinned.Keys;
      }
    }
  }

  ghost predicate NodePinned(db: Database, run: Id, n: Node) {
    forall j :: 0 <= j < |n.artifacts| ==> PinnedArtifactStands(db.runs.pinArtifacts, run, n.inputRef.releaseId, n.artifacts[j])
  }

  ghost predicate PinnedArtifacts(db: Database, run: Id, nodes: seq<Node>) {
    && (forall i :: 0 <= i < |nodes| ==> NodePinned(db, run, nodes[i]))
    && (run in db.runs.pinArtifacts ==>
          forall r, a :: (r, a) in db.runs.pinArtifacts[run] ==> exists i, j :: ArtifactAt(nodes, i, j, r, a))
  }

  lemma {:induction false} PinnedArtifactsExact(db: Database, run: Id, nodes: seq<Node>)
    requires NodesProper(nodes)
    ensures Group(db.runs.pinArtifacts, run) == PinArtifactIndex(ArtifactIndex(nodes)) <==> PinnedArtifacts(db, run, nodes)
  {
    ArtifactIndexHolds(nodes);
    hide ArtifactIndex, NodesProper;
    var index := ArtifactIndex(nodes);
    var rows, wanted := Group(db.runs.pinArtifacts, run), PinArtifactIndex(index);
    if PinnedArtifacts(db, run, nodes) {
      forall p ensures p in rows <==> p in wanted {
        assert (p.0, p.1) == p;
        if p in wanted {
          var i, j :| ArtifactAt(nodes, i, j, p.0, p.1);
          assert NodePinned(db, run, nodes[i]);
          assert PinnedArtifactStands(db.runs.pinArtifacts, run, nodes[i].inputRef.releaseId, nodes[i].artifacts[j]);
        }
        if p in rows { var i, j :| ArtifactAt(nodes, i, j, p.0, p.1); }
      }
      forall p | p in rows ensures rows[p] == wanted[p] {
        assert (p.0, p.1) == p;
        var i, j :| ArtifactAt(nodes, i, j, p.0, p.1);
        assert NodePinned(db, run, nodes[i]);
        assert PinnedArtifactStands(db.runs.pinArtifacts, run, nodes[i].inputRef.releaseId, nodes[i].artifacts[j]);
      }
      assert rows == wanted;
    }
    if rows == wanted {
      forall i, j | 0 <= i < |nodes| && 0 <= j < |nodes[i].artifacts|
        ensures PinnedArtifactStands(db.runs.pinArtifacts, run, nodes[i].inputRef.releaseId, nodes[i].artifacts[j])
      {
        var r, a := nodes[i].inputRef.releaseId, nodes[i].artifacts[j].artifactId;
        assert ArtifactAt(nodes, i, j, r, a);
        assert (r, a) in wanted;
      }
      if run in db.runs.pinArtifacts {
        forall r, a | (r, a) in db.runs.pinArtifacts[run] ensures exists i, j :: ArtifactAt(nodes, i, j, r, a) {
          assert (r, a) in wanted;
        }
      }
    }
  }

  /** Everything that the run retains is stored in full and pinned row by row, and nothing else is pinned. */
  ghost predicate PinStands(sha: Sha, db: Database, files: Files, run: Id, k: Digest) {
    && ClosureStands(sha, db, k)
    && var nodes := db.documents.closures[k].document.releases;
       && (exists i :: 0 <= i < |nodes| && nodes[i].artifacts != [])
       && (forall i :: 0 <= i < |nodes| ==>
             ManifestStands(sha, db, files, nodes[i]) && NodeArtifactsStand(sha, db, files, nodes[i]))
       && PinnedReleases(db, run, nodes) && PinnedArtifacts(db, run, nodes)
  }

  lemma {:induction false} SomethingIndexed(nodes: seq<Node>)
    requires NodesProper(nodes)
    ensures ReleaseIndex(nodes) != map[] && ArtifactIndex(nodes) != map[] <==>
            exists i :: 0 <= i < |nodes| && nodes[i].artifacts != []
  {
    hide ReleaseIndex, ArtifactIndex;
    ReleaseIndexHolds(nodes);
    if i :| 0 <= i < |nodes| && nodes[i].artifacts != [] {
      ArtifactIndexed(nodes, i, 0);
      assert nodes[i].inputRef.releaseId in ReleaseIndex(nodes);
    }
    if ArtifactIndex(nodes) != map[] {
      var key :| key in ArtifactIndex(nodes);
      var i, j := IndexedArtifact(nodes, key);
      assert nodes[i].artifacts != [];
    }
  }

  lemma ClosureGroups(sha: Sha, db: Database, k: Digest)
    requires ClosureVerifies(sha, db, k)
    ensures k in db.documents.closures
    ensures var nodes := db.documents.closures[k].document.releases;
            && NodesProper(nodes) && Group(db.documents.closureReleases, k) == ReleaseIndex(nodes)
            && Group(db.documents.closureArtifacts, k) == ArtifactIndex(nodes)
  {
    hide ReleaseIndex, ArtifactIndex, DependencyIndex, Group, ArtifactsDistinct, NodesDistinct;
  }

  lemma PinExact(sha: Sha, db: Database, files: Files, run: Id, k: Digest)
    ensures PinClosureVerifies(sha, db, files, run, k) <==> PinStands(sha, db, files, run, k)
  {
    hide ClosureVerifies, ClosureStands, ReleaseIndex, ArtifactIndex, Group, NodesProper, ReleaseRowVerifies, ArtifactRowVerifies,
         ManifestStands, NodeArtifactsStand, PinnedReleases, PinnedArtifacts, PinnedStatusVerifies, PinArtifactIndex;
    ClosureExact(sha, db, k);
    if ClosureVerifies(sha, db, k) {
      ClosureGroups(sha, db, k);
      var nodes := db.documents.closures[k].document.releases;
      assert NodesDistinct(nodes) by { ProperDistinct(nodes); }
      SomethingIndexed(nodes);
      ManifestsExact(sha, db, files, nodes);
      ArtifactsStandExact(sha, db, files, nodes);
      PinnedReleasesExact(db, run, nodes);
      PinnedArtifactsExact(db, run, nodes);
    }
  }

  lemma ProperDistinct(nodes: seq<Node>)
    requires NodesProper(nodes)
    ensures NodesDistinct(nodes)
  {
  }

  /* ---- Confirmations ---- */

  /** One child row for each item, holding it, and no other. */
  ghost predicate ItemRows(table: map<Digest, map<Id, ConfirmationItem>>, h: Digest, items: seq<ConfirmationItem>) {
    && (forall j :: 0 <= j < |items| ==>
          h in table && items[j].inputRef.releaseId in table[h] && table[h][items[j].inputRef.releaseId] == items[j])
    && (h in table ==> forall r :: r in table[h] ==> exists j :: 0 <= j < |items| && items[j].inputRef.releaseId == r)
  }

  ghost predicate ConfirmationStands(sha: Sha, db: Database, h: Digest) {
    && h in db.runs.confirmations
    && var row := db.runs.confirmations[h];
       var c := row.document;
       && ValidConfirmation(sha, c) && c.confirmationHash == h
       && row.confirmationId == c.confirmationId && row.schemaVersion == c.schemaVersion && row.runId == c.runId
       && row.rootReleaseId == c.rootReleaseId && row.receiptHash == c.receiptHash && row.closureHash == c.closureHash
       && row.authorityId == c.authorityId && row.authorityContract == c.authorityContract
       && row.requestedAt == c.requestedAt && row.confirmedAt == c.confirmedAt && row.expiresAt == c.expiresAt
       && row.documentHash == sha(ConfirmationText(c))
       && ItemRows(db.runs.confirmationItems, h, c.items)
  }

  predicate ItemsApart(items: seq<ConfirmationItem>) {
    forall i, j :: 0 <= i < j < |items| ==> items[i].inputRef.releaseId != items[j].inputRef.releaseId
  }

  lemma {:induction false} ItemIndexHolds(items: seq<ConfirmationItem>)
    requires ItemsApart(items)
    ensures forall j :: 0 <= j < |items| ==>
              items[j].inputRef.releaseId in ItemIndex(items) && ItemIndex(items)[items[j].inputRef.releaseId] == items[j]
    ensures forall r :: r in ItemIndex(items) ==> exists j :: 0 <= j < |items| && items[j].inputRef.releaseId == r
    decreases |items|
  {
    if items != [] {
      var n := |items| - 1;
      var front := items[..n];
      ItemIndexHolds(front);
      forall j | 0 <= j < |items|
        ensures items[j].inputRef.releaseId in ItemIndex(items) && ItemIndex(items)[items[j].inputRef.releaseId] == items[j]
      {
        if j < n { assert front[j] == items[j]; }
      }
      forall r | r in ItemIndex(items) ensures exists j :: 0 <= j < |items| && items[j].inputRef.releaseId == r {
        if r == items[n].inputRef.releaseId {
          assert items[n].inputRef.releaseId == r;
        } else {
          var j :| 0 <= j < |front| && front[j].inputRef.releaseId == r;
          assert items[j].inputRef.releaseId == r;
        }
      }
    }
  }

  lemma {:induction false} ItemRowsExact(table: map<Digest, map<Id, ConfirmationItem>>, h: Digest, items: seq<ConfirmationItem>)
    requires ItemsApart(items)
    ensures Group(table, h) == ItemIndex(items) <==> ItemRows(table, h, items)
  {
    ItemIndexHolds(items);
    hide ItemIndex, ItemsApart;
    var rows, index := Group(table, h), ItemIndex(items);
    if ItemRows(table, h, items) {
      forall r | r in rows ensures r in index && index[r] == rows[r] {
        var j :| 0 <= j < |items| && items[j].inputRef.releaseId == r;
      }
      forall r | r in index ensures r in rows { var j :| 0 <= j < |items| && items[j].inputRef.releaseId == r; }
      assert rows == index;
    }
  }

  lemma ConfirmationItemsApart(sha: Sha, c: Confirmation)
    requires ValidConfirmation(sha, c)
    ensures ItemsApart(c.items)
  {
    forall i, j | 0 <= i < j < |c.items| ensures c.items[i].inputRef.releaseId != c.items[j].inputRef.releaseId {
      LessIrreflexive(c.items[i].Id());
    }
  }

  lemma ConfirmationExact(sha: Sha, db: Database, h: Digest)
    ensures ConfirmationVerifies(sha, db, h) <==> ConfirmationStands(sha, db, h)
  {
    hide ValidConfirmation, ItemIndex, ItemRows, ItemsApart, Group;
    if h in db.runs.confirmations {
      var c := db.runs.confirmations[h].document;
      if ValidConfirmation(sha, c) {
        ConfirmationItemsApart(sha, c);
        ItemRowsExact(db.runs.confirmationItems, h, c.items);
      }
    }
  }

  /* ---- The whole store ---- */

  /** Every document stands in its rows, every release's chains end at its heads, every pin is stored in full. */
  ghost predicate StoreStands(sha: Sha, db: Database, files: Files) {
    && (forall h :: h in db.documents.receipts ==> ReceiptStands(sha, db, h))
    && (forall k :: k in db.documents.closures ==> ClosureStands(sha, db, k))
    && (forall id :: id in db.observed.observations ==> ObservationStands(sha, db, id))
    && (forall r :: r in db.content.identities ==> HeadsStand(sha, db, r))
    && (forall run :: run in db.runs.pins ==> PinStands(sha, db, files, run, db.runs.pins[run].closureHash))
    && (forall h :: h in db.runs.confirmations ==> ConfirmationStands(sha, db, h))
  }

  ghost predicate HeadsStand(sha: Sha, db: Database, r: Id) {
    && r in db.observed.heads
    && (exists path :: ChainStands(sha, db, r, ArtifactFetch, db.observed.heads[r].fetch, path))
    && (exists path :: ChainStands(sha, db, r, ReleaseStatus, db.observed.heads[r].status, path))
    && (exists path :: ChainStands(sha, db, r, ReleaseAdmission, db.observed.heads[r].admission, path))
  }

  lemma HeadsExact(sha: Sha, db: Database, r: Id)
    ensures ReleaseChainsVerify(sha, db, r) <==> HeadsStand(sha, db, r)
  {
    hide ChainVerifies, ChainStands;
    if r in db.observed.heads {
      var heads := db.observed.heads[r];
      ChainExact(sha, db, r, ArtifactFetch, heads.fetch);
      ChainExact(sha, db, r, ReleaseStatus, heads.status);
      ChainExact(sha, db, r, ReleaseAdmission, heads.admission);
      assert heads.Of(ArtifactFetch) == heads.fetch && heads.Of(ReleaseStatus) == heads.status
             && heads.Of(ReleaseAdmission) == heads.admission;
    }
  }

  /** The verifiers accept the store exactly when all of it stands. */
  lemma StoreExact(sha: Sha, db: Database, files: Files)
    ensures EverythingVerifies(sha, db, files) <==> StoreStands(sha, db, files)
  {
    hide ReceiptVerifies, ClosureVerifies, ObservationVerifies, ReleaseChainsVerify, PinClosureVerifies, ConfirmationVerifies,
         ReceiptStands, ClosureStands, ObservationStands, HeadsStand, PinStands, ConfirmationStands;
    forall h ensures ReceiptVerifies(sha, db, h) <==> ReceiptStands(sha, db, h) { ReceiptExact(sha, db, h); }
    forall k ensures ClosureVerifies(sha, db, k) <==> ClosureStands(sha, db, k) { ClosureExact(sha, db, k); }
    forall id ensures ObservationVerifies(sha, db, id) <==> ObservationStands(sha, db, id) { ObservationExact(sha, db, id); }
    forall r ensures ReleaseChainsVerify(sha, db, r) <==> HeadsStand(sha, db, r) { HeadsExact(sha, db, r); }
    forall run, k ensures PinClosureVerifies(sha, db, files, run, k) <==> PinStands(sha, db, files, run, k) {
      PinExact(sha, db, files, run, k);
    }
    forall h ensures ConfirmationVerifies(sha, db, h) <==> ConfirmationStands(sha, db, h) { ConfirmationExact(sha, db, h); }
  }

  /* ---- The documents decide the rows ---- */

  ghost predicate SameObservations(a: Database, b: Database) {
    && a.observed.observations.Keys == b.observed.observations.Keys
    && forall id :: id in a.observed.observations ==> a.observed.observations[id].document == b.observed.observations[id].document
  }

  lemma ColumnsDetermined(sha: Sha, a: Database, b: Database, id: Id)
    requires ObservationVerifies(sha, a, id) && ObservationVerifies(sha, b, id) && SameObservations(a, b)
    ensures id in a.observed.observations && id in b.observed.observations
    ensures var x, y := a.observed.observations[id], b.observed.observations[id]; x == y.(persistedAt := x.persistedAt)
    ensures id in a.observed.fetches <==> id in b.observed.fetches
    ensures id in a.observed.statuses <==> id in b.observed.statuses
    ensures id in a.observed.admissions <==> id in b.observed.admissions
    ensures id in a.observed.fetches ==> a.observed.fetches[id] == b.observed.fetches[id]
    ensures id in a.observed.statuses ==> a.observed.statuses[id] == b.observed.statuses[id]
    ensures id in a.observed.admissions ==> a.observed.admissions[id] == b.observed.admissions[id]
  {
    hide ValidObservation, FetchVerifies;
  }

  lemma SameChainRows(sha: Sha, a: Database, b: Database, r: Id, k: Kind)
    requires SameObservations(a, b)
    requires forall id :: id in a.observed.observations ==> ObservationVerifies(sha, a, id) && ObservationVerifies(sha, b, id)
    ensures ChainRows(a, r, k) == ChainRows(b, r, k)
  {
    hide ObservationVerifies;
    forall id | id in a.observed.observations
      ensures id in b.observed.observations
      ensures var x, y := a.observed.observations[id], b.observed.observations[id];
              x.releaseId == y.releaseId && x.kind == y.kind && x.supersedes == y.supersedes
    {
      ColumnsDetermined(sha, a, b, id);
    }
  }

  /** The observations decide the head of each kind. */
  lemma HeadDetermined(sha: Sha, a: Database, b: Database, r: Id, k: Kind, head: Option<Id>, head': Option<Id>)
    requires SameObservations(a, b)
    requires forall id :: id in a.observed.observations ==> ObservationVerifies(sha, a, id) && ObservationVerifies(sha, b, id)
    requires ChainVerifies(sha, a, r, k, head) && ChainVerifies(sha, b, r, k, head')
    ensures head == head'
  {
    hide ObservationVerifies, PathVerifies, ChainRows, SameObservations;
    SameChainRows(sha, a, b, r, k);
    var rows := ChainRows(a, r, k);
    var p :| IsPath(rows, p, head) && PathVerifies(sha, a, r, k, p);
    var q :| IsPath(rows, q, head') && PathVerifies(sha, b, r, k, q);
    PathUnique(rows, p, q, head, head', |rows|);
    assert p == p[..|rows|] && q == q[..|rows|];
  }

  /**
   Two stores that verify and hold the same observations have the same heads, and
   the same columns and rows by kind apart from the time of persisting.
   */
  lemma ObservationsDecide(sha: Sha, a: Database, b: Database, files: Files, files': Files)
    requires EverythingVerifies(sha, a, files) && EverythingVerifies(sha, b, files') && SameObservations(a, b)
    ensures forall r :: r in a.content.identities && r in b.content.identities ==>
              r in a.observed.heads && r in b.observed.heads && a.observed.heads[r] == b.observed.heads[r]
    ensures forall id :: id in a.observed.observations ==>
              && id in b.observed.observations
              && var x, y := a.observed.observations[id], b.observed.observations[id]; x == y.(persistedAt := x.persistedAt)
  {
    hide ReceiptVerifies, ClosureVerifies, ObservationVerifies, ChainVerifies, PinClosureVerifies, ConfirmationVerifies;
    assert forall id :: id in b.observed.observations ==> ObservationVerifies(sha, b, id);
    forall id | id in a.observed.observations
      ensures id in b.observed.observations
              && var x, y := a.observed.observations[id], b.observed.observations[id]; x == y.(persistedAt := x.persistedAt)
    {
      ColumnsDetermined(sha, a, b, id);
    }
    forall r | r in a.content.identities && r in b.content.identities
      ensures r in a.observed.heads && r in b.observed.heads && a.observed.heads[r] == b.observed.heads[r]
    {
      var x, y := a.observed.heads[r], b.observed.heads[r];
      HeadDetermined(sha, a, b, r, ArtifactFetch, x.Of(ArtifactFetch), y.Of(ArtifactFetch));
      HeadDetermined(sha, a, b, r, ReleaseStatus, x.Of(ReleaseStatus), y.Of(ReleaseStatus));
      HeadDetermined(sha, a, b, r, ReleaseAdmission, x.Of(ReleaseAdmission), y.Of(ReleaseAdmission));
    }
  }
}
