/**
 What a read answers, in terms of the release it names: which requests are granted,
 which file they return, and which access they report.
 */
module ReadRules {
  import opened Basics
  import opened Contracts
  import opened ObservationLog
  import opened LogEntries
  import opened RetentionGraph
  import opened RetentionIndex
  import opened Ledgers
  import opened LedgerInvariant
  import opened LedgerRuns
  import opened PinRules

  /** The release a request asks for: the one it names, or the root of its manifest. */
  predicate AsksFor(q: ReadRequest, r: Id) {
    match q.releaseId
    case Some(named) => r == named
    case None => r == q.manifest.inputRef.releaseId
  }

  /** The artifact of this release and identifier, in the list of retained releases. */
  predicate Retained(nodes: seq<Node>, r: Id, artifactId: Id, a: Artifact) {
    exists i, j :: 0 <= i < |nodes| && 0 <= j < |nodes[i].artifacts| && nodes[i].inputRef.releaseId == r
                   && nodes[i].artifacts[j] == a && a.artifactId == artifactId
  }

  /** The newest observation of the kind for the release, if there is one. */
  ghost predicate IsNewest(log: Log, r: Id, k: Kind, o: Option<Observation>) {
    match o
    case None => forall n :: 0 <= n < |log| ==> !About(log[n], r, k)
    case Some(x) => exists n :: Newest(log, r, k, n) && log[n].observation == x
  }

  /** The pinned heads of the root are its newest observations, and every retained release is still published. */
  ghost predicate StillCurrent(log: Log, p: PinEntry) {
    var m := p.manifest;
    var root := m.inputRef.releaseId;
    && (exists n :: Newest(log, root, ArtifactFetch, n) && log[n].observation.id == m.fetchId)
    && (exists n :: && Newest(log, root, ReleaseStatus, n)
                    && var o := log[n].observation;
                       o.id == m.statusId && o.StatusObservation? && o.result == Passed && o.status == Some(Published))
    && (exists n :: && Newest(log, root, ReleaseAdmission, n)
                    && var o := log[n].observation;
                       o.id == m.admissionId && o.AdmissionObservation? && o.admission == Authorized
                       && o.statusId == m.statusId)
    && forall r :: r in p.statusOf ==>
         exists n :: && Newest(log, r, ReleaseStatus, n)
                     && var o := log[n].observation;
                        o.id == p.statusOf[r] && o.StatusObservation? && o.result == Passed && o.status == Some(Published)
  }

  /** Everything that has to hold for a read of the artifact. */
  ghost predicate Granted(cfg: Config, l: Ledger, files: Files, q: ReadRequest, r: Id, a: Artifact) {
    && AsksFor(q, r)
    && q.manifest.runId in l.pins
    && var p := l.pins[q.manifest.runId];
       && p.manifest == q.manifest && p.closureHash in l.closures
       && (match q.purpose
           case AuditReplay => q.audit == Some(AuditRequest(q.manifest.runId, cfg.sha(ManifestText(q.manifest))))
           case NewRun =>
             && q.audit.None? && r == q.manifest.inputRef.releaseId
             && p.binding.Some? && StillCurrent(l.log, p))
       && var nodes := l.closures[p.closureHash].closure.releases;
          && Retained(nodes, r, q.artifactId, a)
          && forall i :: 0 <= i < |nodes| ==>
               && HoldsContent(cfg.sha, files, nodes[i].manifestDocumentHash, nodes[i].manifestSize)
               && forall j :: 0 <= j < |nodes[i].artifacts| ==>
                    HoldsContent(cfg.sha, files, nodes[i].artifacts[j].hash, nodes[i].artifacts[j].sizeBytes)
  }

  /* ---- The conditions and the specification say the same ---- */

  lemma HeadHasId(log: Log, r: Id, k: Kind, id: Id)
    ensures HeadId(log, r, k) == Some(id) <==> exists n :: Newest(log, r, k, n) && log[n].observation.id == id
  {
    HeadIsNewest(log, r, k);
    forall n | Newest(log, r, k, n) ensures Head(log, r, k) == Some(log[n]) { NewestIsHead(log, r, k, n); }
    hide Head, About;
  }

  lemma HeadPublished(log: Log, r: Id, id: Id)
    ensures PublishedHead(log, r, id) <==>
              exists n :: && Newest(log, r, ReleaseStatus, n)
                          && var o := log[n].observation;
                             o.id == id && o.StatusObservation? && o.result == Passed && o.status == Some(Published)
  {
    HeadIsNewest(log, r, ReleaseStatus);
    forall n | Newest(log, r, ReleaseStatus, n) ensures Head(log, r, ReleaseStatus) == Some(log[n]) {
      NewestIsHead(log, r, ReleaseStatus, n);
    }
    hide Head, About;
  }

  lemma {:induction false} HeadAuthorized(log: Log, r: Id, id: Id, statusId: Id)
    ensures HeadId(log, r, ReleaseAdmission) == Some(id)
            && AuthorizedFor(Head(log, r, ReleaseAdmission).value.observation, statusId) <==>
              exists n :: && Newest(log, r, ReleaseAdmission, n)
                          && var o := log[n].observation;
                             o.id == id && o.AdmissionObservation? && o.admission == Authorized && o.statusId == statusId
  {
    HeadIsNewest(log, r, ReleaseAdmission);
    forall n | Newest(log, r, ReleaseAdmission, n) ensures Head(log, r, ReleaseAdmission) == Some(log[n]) {
      NewestIsHead(log, r, ReleaseAdmission, n);
    }
    hide Head, About;
  }

  lemma CurrentExact(log: Log, p: PinEntry)
    ensures OrdinaryCurrent(log, p) <==> StillCurrent(log, p)
  {
    var m := p.manifest;
    HeadHasId(log, m.Root(), ArtifactFetch, m.fetchId);
    HeadPublished(log, m.Root(), m.statusId);
    HeadAuthorized(log, m.Root(), m.admissionId, m.statusId);
    forall r | r in p.statusOf
      ensures PublishedHead(log, r, p.statusOf[r]) <==>
                exists n :: && Newest(log, r, ReleaseStatus, n)
                            && var o := log[n].observation;
                               o.id == p.statusOf[r] && o.StatusObservation? && o.result == Passed
                               && o.status == Some(Published)
    {
      HeadPublished(log, r, p.statusOf[r]);
    }
    assert PublishedHead(log, m.Root(), m.statusId) ==> HeadId(log, m.Root(), ReleaseStatus) == Some(m.statusId);
    hide Newest, Head, PublishedHead, HeadId;
  }

  lemma {:induction false} RetainedExact(nodes: seq<Node>, r: Id, artifactId: Id, a: Artifact)
    requires NodesProper(nodes)
    ensures Retained(nodes, r, artifactId, a) <==>
              (r, artifactId) in ArtifactIndex(nodes) && ArtifactIndex(nodes)[(r, artifactId)] == a
  {
    hide NodesProper, ArtifactIndex;
    if Retained(nodes, r, artifactId, a) {
      var i, j :| 0 <= i < |nodes| && 0 <= j < |nodes[i].artifacts| && nodes[i].inputRef.releaseId == r
                  && nodes[i].artifacts[j] == a && a.artifactId == artifactId;
      ArtifactIndexed(nodes, i, j);
    }
    if (r, artifactId) in ArtifactIndex(nodes) {
      var i, j := IndexedArtifact(nodes, (r, artifactId));
    }
  }

  lemma AskedIsTarget(q: ReadRequest, r: Id)
    ensures AsksFor(q, r) <==> r == q.Target()
  {
  }

  lemma PinnedNodesProper(cfg: Config, l: Ledger, run: Id)
    requires Coherent(cfg, l) && run in l.pins && l.pins[run].closureHash in l.closures
    ensures NodesProper(l.closures[l.pins[run].closureHash].closure.releases)
  {
    hide LogCoherent, RunsCoherent, NodeStored, NodesProper, ValidClosure;
    var k := l.pins[run].closureHash;
    assert ClosureCoherent(cfg, l, k, l.closures[k].closure);
    ClosureNodesProper(cfg.sha, l.closures[k].closure);
  }

  /** A read is granted exactly when every condition holds for some artifact. */
  lemma ReadExact(cfg: Config, l: Ledger, files: Files, q: ReadRequest)
    requires Coherent(cfg, l)
    ensures ReadAllowed(cfg, l, files, q) <==> exists r, a :: Granted(cfg, l, files, q, r, a)
  {
    hide Coherent, ClosureFilesVerify, ArtifactIndex, OrdinaryCurrent, StillCurrent, Retained, HoldsContent, NodesProper;
    AskedIsTarget(q, q.Target());
    if q.manifest.runId in l.pins && l.pins[q.manifest.runId].closureHash in l.closures {
      var p := l.pins[q.manifest.runId];
      var c := l.closures[p.closureHash].closure;
      CurrentExact(l.log, p);
      FilesExact(cfg.sha, files, c);
      PinnedNodesProper(cfg, l, q.manifest.runId);
      if ReadAllowed(cfg, l, files, q) {
        var a := ArtifactIndex(c.releases)[(q.Target(), q.artifactId)];
        RetainedExact(c.releases, q.Target(), q.artifactId, a);
        assert Granted(cfg, l, files, q, q.Target(), a);
      }
      if r, a :| Granted(cfg, l, files, q, r, a) {
        AskedIsTarget(q, r);
        RetainedExact(c.releases, r, q.artifactId, a);
      }
    }
  }

  /** A granted read returns the file of that artifact, and reports the newest status and admission of its release. */
  lemma ReadReturns(cfg: Config, l: Ledger, files: Files, q: ReadRequest, r: Id, a: Artifact)
    requires Coherent(cfg, l) && Granted(cfg, l, files, q, r, a)
    ensures ReadAllowed(cfg, l, files, q)
    ensures a.hash in files && ReadContent(cfg, l, files, q) == files[a.hash]
    ensures |files[a.hash]| == a.sizeBytes && cfg.sha(Blob(files[a.hash])) == a.hash
    ensures IsNewest(l.log, r, ReleaseStatus, AccessOf(l.log, q.Target()).status)
    ensures IsNewest(l.log, r, ReleaseAdmission, AccessOf(l.log, q.Target()).admission)
  {
    hide Coherent, ClosureFilesVerify, ArtifactIndex, StillCurrent, Retained, NodesProper, AccessOf;
    ReadExact(cfg, l, files, q);
    AskedIsTarget(q, r);
    var nodes := l.closures[l.pins[q.manifest.runId].closureHash].closure.releases;
    PinnedNodesProper(cfg, l, q.manifest.runId);
    RetainedExact(nodes, r, q.artifactId, a);
    RetainedWhole(cfg, l, files, q, r, a);
    AccessIsHeads(l.log, r);
    HeadIsNewest(l.log, r, ReleaseStatus);
    HeadIsNewest(l.log, r, ReleaseAdmission);
    hide Head, Newest;
  }

  lemma RetainedWhole(cfg: Config, l: Ledger, files: Files, q: ReadRequest, r: Id, a: Artifact)
    requires Granted(cfg, l, files, q, r, a)
    ensures HoldsContent(cfg.sha, files, a.hash, a.sizeBytes)
  {
    hide StillCurrent;
  }

  /** For a release on record as retained, every artifact can be audited under that release's own name. */
  lemma RetainedAuditable(cfg: Config, w: World, q: ReadRequest, i: nat, j: nat)
    requires Sound(cfg, w) && q.manifest.runId in w.ledger.pins && w.ledger.pins[q.manifest.runId].manifest == q.manifest
    requires q.purpose == AuditReplay
    requires q.audit == Some(AuditRequest(q.manifest.runId, cfg.sha(ManifestText(q.manifest))))
    requires w.ledger.pins[q.manifest.runId].closureHash in w.ledger.closures
    requires var nodes := w.ledger.closures[w.ledger.pins[q.manifest.runId].closureHash].closure.releases;
             && i < |nodes| && j < |nodes[i].artifacts|
             && q.releaseId == Some(nodes[i].inputRef.releaseId) && q.artifactId == nodes[i].artifacts[j].artifactId
    ensures var nodes := w.ledger.closures[w.ledger.pins[q.manifest.runId].closureHash].closure.releases;
            && Granted(cfg, w.ledger, w.files, q, nodes[i].inputRef.releaseId, nodes[i].artifacts[j])
            && ReadAllowed(cfg, w.ledger, w.files, q)
  {
    hide Coherent, FilesIntact, ClosureFilesVerify, ArtifactIndex, HoldsContent;
    var k := w.ledger.pins[q.manifest.runId].closureHash;
    var nodes := w.ledger.closures[k].closure.releases;
    ClosureFilesIntact(cfg, w.ledger, w.files, k);
    FilesExact(cfg.sha, w.files, w.ledger.closures[k].closure);
    assert Retained(nodes, nodes[i].inputRef.releaseId, q.artifactId, nodes[i].artifacts[j]);
    ReadExact(cfg, w.ledger, w.files, q);
  }

  /** An ordinary request that names another release than the root is refused. */
  lemma OtherReleaseRefused(cfg: Config, l: Ledger, files: Files, q: ReadRequest, r: Id)
    requires Coherent(cfg, l) && q.purpose == NewRun && q.releaseId == Some(r) && r != q.manifest.inputRef.releaseId
    ensures !ReadAllowed(cfg, l, files, q)
  {
    hide Coherent, ReadAllowed, StillCurrent, Retained, HoldsContent;
    ReadExact(cfg, l, files, q);
  }

  /* ---- Withdrawal ---- */

  /** The entry is a passed status of the release that says it is withdrawn. */
  predicate Withdraws(e: Entry, r: Id) {
    && e.observation.StatusObservation? && e.observation.releaseId == r
    && e.observation.result == Passed && e.observation.status == Some(Withdrawn)
  }

  /**
   Once such an entry is in the log, in every later world no run is admitted whose
   closure retains the release, and no ordinary read through a pin that retains it is granted.
   */
  lemma WithdrawnForEver(cfg: Config, ws: seq<World>, ops: seq<Op>, i: nat, j: nat, r: Id, n: nat)
    requires Behaviour(cfg, ws, ops) && i <= j < |ws| && Coherent(cfg, ws[i].ledger)
    requires n < |ws[i].ledger.log| && Withdraws(ws[i].ledger.log[n], r)
    ensures forall m, c, now | PinOutcome(cfg, ws[j].ledger, ws[j].files, m, Some(c), now) == Committed ::
              var l := ws[j].ledger;
              && m.receiptHash in l.receipts && l.receipts[m.receiptHash].closureHash in l.closures
              && !NodeNames(l.closures[l.receipts[m.receiptHash].closureHash].closure.releases, r)
    ensures forall q: ReadRequest ::
              q.purpose == NewRun && q.manifest.runId in ws[j].ledger.pins
              && r in ws[j].ledger.pins[q.manifest.runId].statusOf ==>
                !ReadAllowed(cfg, ws[j].ledger, ws[j].files, q)
  {
    assert WithdrawnAt(ws[i].ledger.log, r, n);
    hide Behaviour, Coherent, WithdrawnAt, NewPinAccepted, ReadAllowed, ReceiptUsable, NodeIds, NodeNames, ExactRetry;
    WithdrawalFinal(cfg, ws, ops, i, j, r, n);
    var l := ws[j].ledger;
    forall m, c, now | PinOutcome(cfg, l, ws[j].files, m, Some(c), now) == Committed
      ensures && m.receiptHash in l.receipts && l.receipts[m.receiptHash].closureHash in l.closures
              && !NodeNames(l.closures[l.receipts[m.receiptHash].closureHash].closure.releases, r)
    {
      UsableParts(l, m, now);
      NamesAreIds([], l.closures[ClosureHashOf(l, m)].closure.releases, r);
    }
  }
}
