/**
 Whole runs of the store: what every sequence of transactions keeps, and how the
 access a pin grants evolves from the moment it is made.
 */
module LedgerRuns {
  import opened Basics
  import opened Contracts
  import opened StatusEvents
  import opened ObservationLog
  import opened RetentionGraph
  import opened RetentionIndex
  import opened Ledgers
  import opened LedgerInvariant

  datatype World = World(ledger: Ledger, files: Files)

  datatype Op =
    | Consume(q: Consumption, consumedAt: Time)
    | Append(o: Observation, appendedAt: Time)
    | Pin(m: RunManifest, c: Option<Confirmation>, requestedAt: Time)

  /** Inputs are constructed contract values. */
  ghost predicate ValidOp(cfg: Config, op: Op) {
    match op
    case Consume(q, _) => ValidReceipt(cfg.sha, q.receipt) && ValidClosure(cfg.sha, q.closure)
    case Append(o, _) => ValidObservation(o)
    case Pin(m, c, _) => ValidManifest(m) && (c.Some? ==> ValidConfirmation(cfg.sha, c.value))
  }

  /**
   One transaction. A consumption writes its payload files first; when it is
   refused it may leave files behind, but never a changed ledger.
   */
  ghost predicate Next(cfg: Config, w: World, op: Op, w': World) {
    && ValidOp(cfg, op)
    && match op
       case Consume(q, now) =>
         && FilesGrow(cfg.sha, w.files, w'.files)
         && (|| w'.ledger == w.ledger
             || (&& RootMatches(q.receipt, q.closure)
                 && ClosureFilesVerify(cfg.sha, w'.files, q.closure)
                 && w'.ledger == Consumed(w.ledger, q, w'.files, now)))
       case Append(o, now) =>
         w' == World(Appended(w.ledger, o, now), w.files)
       case Pin(m, c, now) =>
         w' == World(Pinned(cfg, w.ledger, w.files, m, c, now), w.files)
  }

  ghost predicate Behaviour(cfg: Config, ws: seq<World>, ops: seq<Op>) {
    && |ws| == |ops| + 1
    && forall i :: 0 <= i < |ops| ==> Next(cfg, ws[i], ops[i], ws[i + 1])
  }

  /** Later worlds only add rows and files. */
  ghost predicate Later(cfg: Config, w: World, w': World) {
    Extends(w.ledger, w'.ledger) && FilesGrow(cfg.sha, w.files, w'.files)
  }

  ghost predicate Sound(cfg: Config, w: World) {
    Coherent(cfg, w.ledger) && FilesIntact(cfg.sha, w.files, w.ledger.objects)
  }

  lemma NextKeeps(cfg: Config, w: World, op: Op, w': World)
    requires Next(cfg, w, op, w') && Coherent(cfg, w.ledger)
    ensures Coherent(cfg, w'.ledger) && Later(cfg, w, w')
    ensures FilesIntact(cfg.sha, w.files, w.ledger.objects) ==> FilesIntact(cfg.sha, w'.files, w'.ledger.objects)
  {
    hide Coherent, Appended, Consumed, Pinned, Extends, ValidReceipt, ValidClosure, ValidConfirmation, RootMatches,
         ClosureFilesVerify;
    ExtendsReflexive(w.ledger);
    match op
    case Consume(q, now) =>
      if w'.ledger == w.ledger {
        forall d | d in w.ledger.objects && FileVerifies(cfg.sha, w.files, d, w.ledger.objects[d])
          ensures FileVerifies(cfg.sha, w'.files, d, w.ledger.objects[d]) {}
      } else {
        ConsumeKeeps(cfg, w.ledger, q, w'.files, now);
        ConsumeExtends(w.ledger, q, w'.files, now);
        if FilesIntact(cfg.sha, w.files, w.ledger.objects) {
          ConsumeKeepsFiles(cfg, w.ledger, q, w.files, w'.files, now);
        }
      }
    case Append(o, now) =>
      AppendKeeps(cfg, w.ledger, o, now);
      AppendExtends(w.ledger, o, now);
      AppendObjects(w.ledger, o, now);
    case Pin(m, c, now) =>
      PinKeeps(cfg, w.ledger, w.files, m, c, now);
      PinExtends(cfg, w.ledger, w.files, m, c, now);
      PinObjects(cfg, w.ledger, w.files, m, c, now);
  }

  lemma AppendObjects(l: Ledger, o: Observation, now: Time)
    ensures Appended(l, o, now).objects == l.objects
  {
  }

  lemma PinObjects(cfg: Config, l: Ledger, files: Files, m: RunManifest, c: Option<Confirmation>, now: Time)
    ensures Pinned(cfg, l, files, m, c, now).objects == l.objects
  {
  }

  /** Coherence, growth and file integrity hold along every behaviour. */
  lemma {:induction false} RunKeeps(cfg: Config, ws: seq<World>, ops: seq<Op>, i: nat, j: nat)
    requires Behaviour(cfg, ws, ops) && i <= j < |ws| && Coherent(cfg, ws[i].ledger)
    ensures Coherent(cfg, ws[j].ledger) && Later(cfg, ws[i], ws[j])
    ensures Sound(cfg, ws[i]) ==> Sound(cfg, ws[j])
    decreases j
  {
    hide Coherent, Extends, Next;
    if i == j {
      ExtendsReflexive(ws[i].ledger);
    } else {
      RunKeeps(cfg, ws, ops, i, j - 1);
      assert Next(cfg, ws[j - 1], ops[j - 1], ws[j]);
      NextKeeps(cfg, ws[j - 1], ops[j - 1], ws[j]);
      ExtendsTransitive(ws[i].ledger, ws[j - 1].ledger, ws[j].ledger);
    }
  }

  /* ---- Ordinary access ---- */

  /** Nothing recorded for the root, and no status for any retained release. */
  predicate Quiet(suffix: Log, p: PinEntry) {
    forall n :: 0 <= n < |suffix| ==>
      && suffix[n].observation.releaseId != p.manifest.Root()
      && (suffix[n].observation.Kind() == ReleaseStatus ==> suffix[n].observation.releaseId !in p.statusOf)
  }

  lemma QuietIsUntouched(suffix: Log, p: PinEntry)
    ensures Quiet(suffix, p) <==>
              && Untouched(suffix, p.manifest.Root(), ArtifactFetch)
              && Untouched(suffix, p.manifest.Root(), ReleaseStatus)
              && Untouched(suffix, p.manifest.Root(), ReleaseAdmission)
              && forall r :: r in p.statusOf ==> Untouched(suffix, r, ReleaseStatus)
  {
    forall n | 0 <= n < |suffix|
      ensures suffix[n].observation.releaseId != p.manifest.Root() <==>
              forall k :: !Matches(suffix[n], p.manifest.Root(), k)
    {
      assert Matches(suffix[n], p.manifest.Root(), suffix[n].observation.Kind())
             || suffix[n].observation.releaseId != p.manifest.Root();
    }
  }

  /** The pinned heads are current exactly when the log has been quiet since the pin. */
  lemma OrdinaryAccessExact(cfg: Config, l: Ledger, run: Id)
    requires Coherent(cfg, l) && run in l.pins && l.pins[run].binding.Some?
    ensures l.pins[run].position <= |l.log|
    ensures OrdinaryCurrent(l.log, l.pins[run]) <==> Quiet(l.log[l.pins[run].position..], l.pins[run])
  {
    hide MaterialCoherent, LogCoherent;
    var p := l.pins[run];
    assert PinCoherent(l, run, p);
    PinBoundExact(l, p);
  }

  lemma PinBoundExact(l: Ledger, p: PinEntry)
    requires LogCoherent(l.refs, l.receipts, l.log) && PinBound(l, p)
    ensures OrdinaryCurrent(l.log, p) <==> Quiet(l.log[p.position..], p)
  {
    hide LogCoherent;
    QuietIsUntouched(l.log[p.position..], p);
    if Quiet(l.log[p.position..], p) {
      QuietIsCurrent(l, p);
    } else if OrdinaryCurrent(l.log, p) {
      CurrentIsQuiet(l, p);
    }
  }

  lemma QuietIsCurrent(l: Ledger, p: PinEntry)
    requires PinBound(l, p) && Quiet(l.log[p.position..], p)
    ensures OrdinaryCurrent(l.log, p)
  {
    var root := p.manifest.Root();
    var n := p.position;
    QuietIsUntouched(l.log[n..], p);
    HeadUntouched(l.log, n, root, ArtifactFetch);
    HeadUntouched(l.log, n, root, ReleaseAdmission);
    hide Untouched, Quiet, Timely;
    forall r | r in p.statusOf ensures Head(l.log, r, ReleaseStatus) == Head(l.log[..n], r, ReleaseStatus) {
      HeadUntouched(l.log, n, r, ReleaseStatus);
    }
    forall r | r in p.statusOf ensures PublishedHead(l.log, r, p.statusOf[r]) {
      assert PublishedHead(l.log[..n], r, p.statusOf[r]);
    }
    assert PublishedHead(l.log, root, p.statusOf[root]);
  }

  lemma CurrentIsQuiet(l: Ledger, p: PinEntry)
    requires LogCoherent(l.refs, l.receipts, l.log) && PinBound(l, p) && OrdinaryCurrent(l.log, p)
    ensures Quiet(l.log[p.position..], p)
  {
    hide LogCoherent, Timely, Quiet, Untouched;
    var root := p.manifest.Root();
    var n := p.position;
    QuietIsUntouched(l.log[n..], p);
    HeadKept(l.refs, l.receipts, l.log, n, root, ArtifactFetch);
    HeadKept(l.refs, l.receipts, l.log, n, root, ReleaseStatus);
    HeadKept(l.refs, l.receipts, l.log, n, root, ReleaseAdmission);
    forall r | r in p.statusOf ensures Untouched(l.log[n..], r, ReleaseStatus) {
      assert PublishedHead(l.log[..n], r, p.statusOf[r]) && PublishedHead(l.log, r, p.statusOf[r]);
      HeadKept(l.refs, l.receipts, l.log, n, r, ReleaseStatus);
    }
  }

  lemma ClosureFilesIntact(cfg: Config, l: Ledger, files: Files, k: Digest)
    requires Coherent(cfg, l) && FilesIntact(cfg.sha, files, l.objects) && k in l.closures
    ensures ClosureFilesVerify(cfg.sha, files, l.closures[k].closure)
  {
    hide RunsCoherent, LogCoherent, ValidClosure;
    var c := l.closures[k].closure;
    assert ClosureCoherent(cfg, l, k, c);
    forall i | 0 <= i < |c.releases| ensures NodeFilesVerify(cfg.sha, files, c.releases[i]) {
      assert NodeStored(l, c.releases[i]);
      forall j | 0 <= j < |c.releases[i].artifacts|
        ensures FileVerifies(cfg.sha, files, c.releases[i].artifacts[j].hash, c.releases[i].artifacts[j].sizeBytes)
      {
        assert ArtifactStored(l, c.releases[i].Id(), c.releases[i].artifacts[j]);
      }
    }
  }

  /** An ordinary request for an artifact the pin retains for its root. */
  ghost predicate OrdinaryRequest(cfg: Config, l: Ledger, q: ReadRequest) {
    && q.purpose == NewRun && RequestWellFormed(cfg.sha, q)
    && q.manifest.runId in l.pins
    && var p := l.pins[q.manifest.runId];
       && p.manifest == q.manifest && p.binding.Some? && p.closureHash in l.closures
       && (q.Target(), q.artifactId) in ArtifactIndex(l.closures[p.closureHash].closure.releases)
  }

  /**
   For a bound pin an ordinary read of a pinned root artifact succeeds exactly
   when, since the pin, nothing was observed for the root and no status for any
   other release of the closure.
   */
  lemma OrdinaryReadExact(cfg: Config, w: World, q: ReadRequest)
    requires Sound(cfg, w) && OrdinaryRequest(cfg, w.ledger, q)
    ensures var p := w.ledger.pins[q.manifest.runId];
            && p.position <= |w.ledger.log|
            && (ReadAllowed(cfg, w.ledger, w.files, q) <==> Quiet(w.ledger.log[p.position..], p))
  {
    hide Coherent, FilesIntact, ClosureFilesVerify, OrdinaryCurrent, Quiet, ArtifactIndex;
    var p := w.ledger.pins[q.manifest.runId];
    OrdinaryAccessExact(cfg, w.ledger, q.manifest.runId);
    ClosureFilesIntact(cfg, w.ledger, w.files, p.closureHash);
  }

  lemma QuietShrinks(log: Log, log': Log, p: PinEntry)
    requires log <= log' && p.position <= |log| && Quiet(log'[p.position..], p)
    ensures Quiet(log[p.position..], p)
  {
    forall n | 0 <= n < |log[p.position..]|
      ensures && log[p.position..][n].observation.releaseId != p.manifest.Root()
              && (log[p.position..][n].observation.Kind() == ReleaseStatus ==>
                    log[p.position..][n].observation.releaseId !in p.statusOf)
    {
      assert log[p.position..][n] == log'[p.position..][n];
    }
  }

  /** Ordinary access that is lost stays lost, whatever is done afterwards. */
  lemma AccessNeverRegained(cfg: Config, ws: seq<World>, ops: seq<Op>, i: nat, j: nat, q: ReadRequest)
    requires Behaviour(cfg, ws, ops) && i <= j < |ws| && Sound(cfg, ws[i])
    requires OrdinaryRequest(cfg, ws[i].ledger, q) && !ReadAllowed(cfg, ws[i].ledger, ws[i].files, q)
    ensures OrdinaryRequest(cfg, ws[j].ledger, q) && !ReadAllowed(cfg, ws[j].ledger, ws[j].files, q)
  {
    hide Behaviour, Coherent, FilesIntact, ReadAllowed, Quiet, ArtifactIndex;
    RunKeeps(cfg, ws, ops, i, j);
    OrdinaryReadExact(cfg, ws[i], q);
    assert OrdinaryRequest(cfg, ws[j].ledger, q);
    OrdinaryReadExact(cfg, ws[j], q);
    var p := ws[i].ledger.pins[q.manifest.runId];
    if Quiet(ws[j].ledger.log[p.position..], p) {
      QuietShrinks(ws[i].ledger.log, ws[j].ledger.log, p);
    }
  }

  /* ---- Audit replay ---- */

  /** An audit read that succeeds once succeeds for ever, with the same bytes. */
  lemma AuditReplayStable(cfg: Config, ws: seq<World>, ops: seq<Op>, i: nat, j: nat, q: ReadRequest)
    requires Behaviour(cfg, ws, ops) && i <= j < |ws| && Coherent(cfg, ws[i].ledger)
    requires q.purpose == AuditReplay && ReadAllowed(cfg, ws[i].ledger, ws[i].files, q)
    ensures Coherent(cfg, ws[j].ledger) && ReadAllowed(cfg, ws[j].ledger, ws[j].files, q)
    ensures ReadContent(cfg, ws[j].ledger, ws[j].files, q) == ReadContent(cfg, ws[i].ledger, ws[i].files, q)
  {
    hide Behaviour, Coherent, ArtifactIndex, RequestWellFormed, OrdinaryCurrent;
    RunKeeps(cfg, ws, ops, i, j);
    var l, l' := ws[i].ledger, ws[j].ledger;
    var c := l.closures[l.pins[q.manifest.runId].closureHash].closure;
    FilesStillVerify(cfg, ws[i].files, ws[j].files, c);
    var a := ArtifactIndex(c.releases)[(q.Target(), q.artifactId)];
    assert a.hash in ws[i].files by { RetainedFile(cfg, l, ws[i].files, q); }
  }

  lemma FilesStillVerify(cfg: Config, files: Files, files': Files, c: Closure)
    requires ClosureFilesVerify(cfg.sha, files, c) && FilesGrow(cfg.sha, files, files')
    ensures ClosureFilesVerify(cfg.sha, files', c)
  {
    forall i | 0 <= i < |c.releases| ensures NodeFilesVerify(cfg.sha, files', c.releases[i]) {
      assert NodeFilesVerify(cfg.sha, files, c.releases[i]);
    }
  }

  lemma RetainedFile(cfg: Config, l: Ledger, files: Files, q: ReadRequest)
    requires Coherent(cfg, l) && ReadAllowed(cfg, l, files, q)
    ensures var c := l.closures[l.pins[q.manifest.runId].closureHash].closure;
            ArtifactIndex(c.releases)[(q.Target(), q.artifactId)].hash in files
  {
    hide RunsCoherent, LogCoherent, OrdinaryCurrent, RequestWellFormed;
    var k := l.pins[q.manifest.runId].closureHash;
    var c := l.closures[k].closure;
    assert ClosureCoherent(cfg, l, k, c);
    ClosureNodesProper(cfg.sha, c);
    var i, j := IndexedArtifact(c.releases, (q.Target(), q.artifactId));
    assert NodeFilesVerify(cfg.sha, files, c.releases[i]);
  }

  /** Right after a pin every artifact of every retained release can be audited. */
  lemma PinnedIsAuditable(cfg: Config, w: World, q: ReadRequest)
    requires Sound(cfg, w) && q.purpose == AuditReplay && RequestWellFormed(cfg.sha, q)
    requires q.manifest.runId in w.ledger.pins && w.ledger.pins[q.manifest.runId].manifest == q.manifest
    requires var p := w.ledger.pins[q.manifest.runId];
             p.closureHash in w.ledger.closures
             && (q.Target(), q.artifactId) in ArtifactIndex(w.ledger.closures[p.closureHash].closure.releases)
    ensures ReadAllowed(cfg, w.ledger, w.files, q)
  {
    hide Coherent, FilesIntact, ClosureFilesVerify, ArtifactIndex;
    ClosureFilesIntact(cfg, w.ledger, w.files, w.ledger.pins[q.manifest.runId].closureHash);
  }

  /* ---- Withdrawal ---- */

  lemma WithdrawnPersists(log: Log, log': Log, r: Id, n: nat)
    requires log <= log' && WithdrawnAt(log, r, n)
    ensures WithdrawnAt(log', r, n)
  {
    assert log'[n] == log[n];
  }

  /** The closure a manifest's receipt stands for contains the release. */
  predicate UsesRelease(l: Ledger, m: RunManifest, r: Id) {
    && m.receiptHash in l.receipts && ClosureHashOf(l, m) in l.closures
    && r in NodeIds(l.closures[ClosureHashOf(l, m)].closure.releases)
  }

  /** No pin over a closure containing a withdrawn release is accepted. */
  lemma WithdrawnNotPinned(cfg: Config, l: Ledger, files: Files, m: RunManifest, c: Confirmation, now: Time, r: Id, n: nat)
    requires Coherent(cfg, l) && WithdrawnAt(l.log, r, n)
    requires ReceiptUsable(l, m, now) && UsesRelease(l, m, r)
    ensures !NewPinAccepted(cfg, l, files, m, c, now)
  {
    hide MaterialCoherent, LogCoherent, RunsCoherent, NewPinAccepted, WithdrawnAt, PublishedStatus, NodeIds;
    WithdrawnNeverPublished(l.refs, l.receipts, l.log, r, n);
    if NewPinAccepted(cfg, l, files, m, c, now) {
      AcceptedPublished(cfg, l, files, m, c, now, r);
    }
  }

  /** No ordinary read passes through a pin that retains a withdrawn release. */
  lemma WithdrawnNotReadable(cfg: Config, l: Ledger, files: Files, q: ReadRequest, r: Id, n: nat)
    requires Coherent(cfg, l) && WithdrawnAt(l.log, r, n) && q.purpose == NewRun
    requires q.manifest.runId in l.pins && r in l.pins[q.manifest.runId].statusOf
    ensures !ReadAllowed(cfg, l, files, q)
  {
    hide MaterialCoherent, LogCoherent, RunsCoherent, WithdrawnAt, PublishedStatus, ClosureFilesVerify, ArtifactIndex;
    var p := l.pins[q.manifest.runId];
    assert OrdinaryCurrent(l.log, p) ==> PublishedHead(l.log, r, p.statusOf[r]);
    WithdrawnNeverPublished(l.refs, l.receipts, l.log, r, n);
  }

  /** The current access of a release, as the last observations leave it. */
  datatype Access = Access(status: Option<Observation>, admission: Option<Observation>)
  {
    predicate Authorized() {
      && status.Some? && PublishedStatus(status.value)
      && admission.Some? && AuthorizedFor(admission.value, status.value.id)
    }
  }

  /** Folding the whole observation history of a release, oldest first. */
  function AccessOf(log: Log, r: Id): Access
    decreases |log|
  {
    if log == [] then Access(None, None)
    else
      var before := AccessOf(log[..|log| - 1], r);
      var o := log[|log| - 1].observation;
      if o.releaseId != r then before
      else match o.Kind()
        case ArtifactFetch => before
        case ReleaseStatus => before.(status := Some(o))
        case ReleaseAdmission => before.(admission := Some(o))
  }

  lemma {:induction false} AccessIsHeads(log: Log, r: Id)
    ensures AccessOf(log, r).status ==
            (match Head(log, r, ReleaseStatus) case None => None case Some(e) => Some(e.observation))
    ensures AccessOf(log, r).admission ==
            (match Head(log, r, ReleaseAdmission) case None => None case Some(e) => Some(e.observation))
    decreases |log|
  {
    if log != [] { AccessIsHeads(log[..|log| - 1], r); }
  }

  /**
   Withdrawal is final over whole runs: in every later world the release is not
   authorised, no new pin over it is accepted, and no ordinary read through a
   pin that retains it succeeds.
   */
  lemma {:induction false} WithdrawalFinal(cfg: Config, ws: seq<World>, ops: seq<Op>, i: nat, j: nat, r: Id, n: nat)
    requires Behaviour(cfg, ws, ops) && i <= j < |ws| && Coherent(cfg, ws[i].ledger)
    requires WithdrawnAt(ws[i].ledger.log, r, n)
    ensures !AccessOf(ws[j].ledger.log, r).Authorized()
    ensures forall m: RunManifest, c: Confirmation, now: Time ::
              ReceiptUsable(ws[j].ledger, m, now) && UsesRelease(ws[j].ledger, m, r)
              ==> !NewPinAccepted(cfg, ws[j].ledger, ws[j].files, m, c, now)
    ensures forall q: ReadRequest ::
              q.purpose == NewRun && q.manifest.runId in ws[j].ledger.pins
              && r in ws[j].ledger.pins[q.manifest.runId].statusOf
              ==> !ReadAllowed(cfg, ws[j].ledger, ws[j].files, q)
  {
    hide Behaviour, MaterialCoherent, LogCoherent, RunsCoherent, NewPinAccepted, ReadAllowed, WithdrawnAt,
         PublishedStatus, ReceiptUsable, NodeIds;
    RunKeeps(cfg, ws, ops, i, j);
    var l := ws[j].ledger;
    WithdrawnPersists(ws[i].ledger.log, l.log, r, n);
    WithdrawnNeverPublished(l.refs, l.receipts, l.log, r, n);
    AccessIsHeads(l.log, r);
    forall m: RunManifest, c: Confirmation, now: Time
      | ReceiptUsable(l, m, now) && UsesRelease(l, m, r)
      ensures !NewPinAccepted(cfg, l, ws[j].files, m, c, now)
    {
      WithdrawnNotPinned(cfg, l, ws[j].files, m, c, now, r, n);
    }
    forall q: ReadRequest
      | q.purpose == NewRun && q.manifest.runId in l.pins && r in l.pins[q.manifest.runId].statusOf
      ensures !ReadAllowed(cfg, l, ws[j].files, q)
    {
      WithdrawnNotReadable(cfg, l, ws[j].files, q, r, n);
    }
  }

  /* ---- Admitted runs ---- */

  /** The cutoff of every retained release is at most the root's. */
  lemma RetainedCutoffs(cfg: Config, l: Ledger, k: Digest, i: nat)
    requires MaterialCoherent(cfg, l) && k in l.closures && i < |l.closures[k].closure.releases|
    ensures var c := l.closures[k].closure;
            c.releases[i].inputRef.knowledgeCutoff <= c.root.knowledgeCutoff
  {
    hide Accepted, NodeStored, ValidNode;
    var c := l.closures[k].closure;
    assert ClosureCoherent(cfg, l, k, c);
    NormalNodesDistinct(c.releases);
    GraphOfExact(c.releases);
    var r :| 0 <= r < |c.releases| && c.releases[r].inputRef == c.root;
    CutoffsBounded(GraphOf(c.releases), c.root.releaseId, c.releases[i].Id());
  }

  /**
   An accepted run pins exactly the closure's releases, each at its published
   head, with recorded <= observed <= persisted <= created <= now and no slack,
   and none of them knows more than the manifest's creation time.
   */
  lemma AcceptedPinExact(cfg: Config, l: Ledger, files: Files, m: RunManifest, c: Confirmation, now: Time)
    requires Coherent(cfg, l) && ValidManifest(m)
    requires PinOutcome(cfg, l, files, m, Some(c), now) == Committed
    ensures m.runId in Pinned(cfg, l, files, m, Some(c), now).pins && ReceiptUsable(l, m, now)
    ensures var p := Pinned(cfg, l, files, m, Some(c), now).pins[m.runId];
            var nodes := l.closures[ClosureHashOf(l, m)].closure.releases;
            && p.statusOf.Keys == NodeIds(nodes)
            && forall i :: 0 <= i < |nodes| ==>
                 && nodes[i].Id() in p.statusOf
                 && PublishedHead(l.log, nodes[i].Id(), p.statusOf[nodes[i].Id()])
                 && Timely(l.log, nodes[i].Id(), m.createdAt, now)
                 && nodes[i].inputRef.knowledgeCutoff <= m.createdAt
  {
    hide MaterialCoherent, LogCoherent, RunsCoherent, NewPinAccepted, ExactRetry, PublishedHead, Timely,
         RetentionIndex.ReleaseIndex;
    var k := ClosureHashOf(l, m);
    var nodes := l.closures[k].closure.releases;
    NewPinRetains(cfg, l, files, m, c, now);
    ReceiptInput(cfg, l, m, now);
    RootReference(cfg, l, m.receiptHash);
    forall i | 0 <= i < |nodes|
      ensures && nodes[i].Id() in NewPin(l, m, c, now).statusOf
              && PublishedHead(l.log, nodes[i].Id(), NewPin(l, m, c, now).statusOf[nodes[i].Id()])
              && Timely(l.log, nodes[i].Id(), m.createdAt, now)
              && nodes[i].inputRef.knowledgeCutoff <= m.createdAt
    {
      assert nodes[i].Id() in NodeIds(nodes);
      AcceptedPublished(cfg, l, files, m, c, now, nodes[i].Id());
      AcceptedTimely(cfg, l, files, m, c, now, nodes[i].Id());
      RetainedCutoffs(cfg, l, k, i);
    }
  }

  lemma RootReference(cfg: Config, l: Ledger, h: Digest)
    requires MaterialCoherent(cfg, l) && h in l.receipts
    ensures l.receipts[h].closureHash in l.closures
    ensures l.closures[l.receipts[h].closureHash].closure.root == l.receipts[h].receipt.inputRef
  {
    assert ReceiptCoherent(cfg, l, h, l.receipts[h]);
  }

  /**
   Two of the clock-skew checks can never fire, and the third adds nothing to
   the one that follows it.
   */
  lemma SkewChecksRedundant(cfg: Config, c: Confirmation, policy: Policy, created: Time, now: Time, i: nat)
    requires ValidConfirmation(cfg.sha, c) && policy.maxSkew >= 0 && i < |c.items|
    requires c.confirmedAt <= created <= now
    ensures c.confirmedAt <= now + policy.maxSkew
    ensures c.items[i].checkedAt <= now + policy.maxSkew
    ensures c.items[i].snapshotAt <= c.items[i].checkedAt + policy.maxSkew
            ==> c.items[i].snapshotAt <= now + policy.maxSkew
  {
    hide ConfirmationSyntax;
    assert c.requestedAt <= c.items[i].checkedAt <= c.confirmedAt;
  }

  /** What a committed pin leaves behind, in every later world. */
  lemma CommittedPinKept(cfg: Config, ws: seq<World>, ops: seq<Op>, i: nat, j: nat, m: RunManifest, c: Confirmation, t: Time)
    requires Behaviour(cfg, ws, ops) && Sound(cfg, ws[0]) && i < j < |ws|
    requires ops[i] == Pin(m, Some(c), t)
    requires PinOutcome(cfg, ws[i].ledger, ws[i].files, m, Some(c), t) == Committed
    ensures Sound(cfg, ws[j]) && Extends(ws[i].ledger, ws[j].ledger) && ReceiptUsable(ws[i].ledger, m, t)
    ensures m.runId in ws[j].ledger.pins && ws[j].ledger.pins[m.runId] == NewPin(ws[i].ledger, m, c, t)
    ensures var l := ws[j].ledger;
            c.confirmationHash in l.confirmations && l.confirmations[c.confirmationHash].confirmation == c
  {
    hide Coherent, FilesIntact, NewPinAccepted, ExactRetry, NewPin;
    RunKeeps(cfg, ws, ops, 0, i);
    assert Next(cfg, ws[i], ops[i], ws[i + 1]);
    NextKeeps(cfg, ws[i], ops[i], ws[i + 1]);
    RunKeeps(cfg, ws, ops, 0, j);
    RunKeeps(cfg, ws, ops, i, j);
    RunKeeps(cfg, ws, ops, i + 1, j);
    hide Behaviour;
    var l1 := ws[i + 1].ledger;
    assert l1.pins[m.runId] == NewPin(ws[i].ledger, m, c, t);
    assert l1.confirmations[c.confirmationHash].confirmation == c;
  }

  /**
   Repeating an accepted request on a clock that has not gone back is recognised
   and changes nothing, whatever happened in between.
   */
  lemma ExactRetryReplayed(cfg: Config, ws: seq<World>, ops: seq<Op>, i: nat, j: nat, m: RunManifest, c: Confirmation,
                           t: Time, now: Time)
    requires Behaviour(cfg, ws, ops) && Sound(cfg, ws[0]) && i < j < |ws|
    requires ops[i] == Pin(m, Some(c), t)
    requires PinOutcome(cfg, ws[i].ledger, ws[i].files, m, Some(c), t) == Committed && t <= now
    ensures PinOutcome(cfg, ws[j].ledger, ws[j].files, m, Some(c), now) == Replayed
    ensures Pinned(cfg, ws[j].ledger, ws[j].files, m, Some(c), now) == ws[j].ledger
  {
    hide Behaviour, Coherent, FilesIntact, NewPinAccepted, ExactRetry, ReceiptUsable, PinnedStatuses, Extends;
    CommittedPinKept(cfg, ws, ops, i, j, m, c, t);
    ReceiptStillUsable(ws[i].ledger, ws[j].ledger, m, t, now);
    RetryFits(cfg, ws[i].ledger, ws[j].ledger, ws[j].files, m, c, t);
    PinIsBound(ws[i].ledger, m, c, t);
  }

  lemma PinIsBound(l: Ledger, m: RunManifest, c: Confirmation, t: Time)
    requires ReceiptUsable(l, m, t)
    ensures NewPin(l, m, c, t).binding == Some(c.confirmationHash)
  {
  }

  lemma ReceiptStillUsable(l: Ledger, l': Ledger, m: RunManifest, t: Time, now: Time)
    requires ReceiptUsable(l, m, t) && Extends(l, l') && t <= now
    ensures ReceiptUsable(l', m, now)
  {
  }

  lemma RetryFits(cfg: Config, l0: Ledger, l: Ledger, files: Files, m: RunManifest, c: Confirmation, t: Time)
    requires ReceiptUsable(l0, m, t) && Extends(l0, l)
    requires m.runId in l.pins && l.pins[m.runId] == NewPin(l0, m, c, t)
    requires c.confirmationHash in l.confirmations && l.confirmations[c.confirmationHash].confirmation == c
    requires Coherent(cfg, l) && FilesIntact(cfg.sha, files, l.objects)
    ensures ExactRetry(cfg, l, files, m, c)
  {
    hide Coherent, FilesIntact, ClosureFilesVerify, PinnedStatuses;
    ClosureFilesIntact(cfg, l, files, l.pins[m.runId].closureHash);
  }

  /** Every bound run names the confirmation of that run, and every confirmation is the binding of its run. */
  ghost predicate BindingsPaired(l: Ledger) {
    && (forall run :: run in l.pins && l.pins[run].binding.Some? ==>
         && l.pins[run].binding.value in l.confirmations
         && l.confirmations[l.pins[run].binding.value].confirmation.runId == run)
    && (forall h :: h in l.confirmations ==>
         var run := l.confirmations[h].confirmation.runId;
         run in l.pins && l.pins[run].binding == Some(h))
  }

  lemma BoundPinNamed(l: Ledger, run: Id)
    requires run in l.pins && l.pins[run].binding.Some? && PinCoherent(l, run, l.pins[run])
    ensures l.pins[run].binding.value in l.confirmations
    ensures l.confirmations[l.pins[run].binding.value].confirmation.runId == run
  {
    hide PinBound;
  }

  lemma CoherentPaired(cfg: Config, l: Ledger)
    requires RunsCoherent(cfg, l)
    ensures BindingsPaired(l)
  {
    hide PinCoherent, ValidConfirmation;
    forall run | run in l.pins && l.pins[run].binding.Some?
      ensures && l.pins[run].binding.value in l.confirmations
              && l.confirmations[l.pins[run].binding.value].confirmation.runId == run
    {
      BoundPinNamed(l, run);
    }
    forall h | h in l.confirmations ensures ConfirmationCoherent(cfg, l, h, l.confirmations[h].confirmation) {}
  }

  /**
   After any run bound runs and confirmations correspond one to one, and a pair once
   made is never taken apart: the run keeps its confirmation and no other run is ever
   bound to it.
   */
  lemma BindingsOneToOne(cfg: Config, ws: seq<World>, ops: seq<Op>, i: nat, j: nat)
    requires Behaviour(cfg, ws, ops) && i <= j < |ws| && Coherent(cfg, ws[0].ledger)
    ensures BindingsPaired(ws[i].ledger)
    ensures forall run, other |
              && run in ws[i].ledger.pins && other in ws[j].ledger.pins && ws[i].ledger.pins[run].binding.Some?
              && ws[i].ledger.pins[run].binding == ws[j].ledger.pins[other].binding :: run == other
    ensures forall run :: run in ws[i].ledger.pins ==>
              run in ws[j].ledger.pins && ws[j].ledger.pins[run].binding == ws[i].ledger.pins[run].binding
  {
    hide MaterialCoherent, LogCoherent, RunsCoherent, Behaviour, Sound;
    RunKeeps(cfg, ws, ops, 0, i);
    RunKeeps(cfg, ws, ops, i, j);
    CoherentPaired(cfg, ws[i].ledger);
    CoherentPaired(cfg, ws[j].ledger);
  }

  function LegacyRuns(l: Ledger): set<Id> {
    set run | run in l.pins && l.pins[run].binding.None?
  }

  /** No transaction adds to or takes from the runs quarantined at the upgrade. */
  lemma LegacyRunsFixed(cfg: Config, ws: seq<World>, ops: seq<Op>, i: nat)
    requires Behaviour(cfg, ws, ops) && i < |ws|
    ensures LegacyRuns(ws[i].ledger) == LegacyRuns(ws[0].ledger)
  {
    if i > 0 {
      LegacyRunsFixed(cfg, ws, ops, i - 1);
      assert Next(cfg, ws[i - 1], ops[i - 1], ws[i]);
      LegacyStep(cfg, ws[i - 1], ops[i - 1], ws[i]);
    }
  }

  lemma LegacyStep(cfg: Config, w: World, op: Op, w': World)
    requires Next(cfg, w, op, w')
    ensures LegacyRuns(w'.ledger) == LegacyRuns(w.ledger)
  {
    hide AppendOutcome, ConsumeOutcome, ReceiptUsable, NewPinAccepted, ExactRetry, ValidOp, FilesGrow, RootMatches,
         ClosureFilesVerify;
    match op
    case Consume(q, now) =>
    case Append(o, now) =>
    case Pin(m, c, now) =>
      if PinOutcome(cfg, w.ledger, w.files, m, c, now) == Committed {
        assert w'.ledger.pins[m.runId].binding.Some?;
      }
  }

  lemma SameHashSameConfirmation(sha: Sha, a: Confirmation, b: Confirmation)
    requires ConfirmationsApart(sha) && ValidConfirmation(sha, a) && ValidConfirmation(sha, b)
    requires a.confirmationHash == b.confirmationHash
    ensures a == b
  {
    hide ConfirmationSyntax, ConfirmationWindow, ItemsNormal;
    assert ConfirmationPayload(a) == ConfirmationPayload(b);
    assert ConfirmationPayload(a).confirmation.(confirmationHash := a.confirmationHash) == a;
    assert ConfirmationPayload(b).confirmation.(confirmationHash := b.confirmationHash) == b;
  }

  /**
   With an injective hash, a confirmation offered for a run that is not pinned
   yet is never already stored under its own hash.
   */
  lemma ConfirmationNotStored(cfg: Config, l: Ledger, c: Confirmation)
    requires ConfirmationsApart(cfg.sha) && Coherent(cfg, l) && ValidConfirmation(cfg.sha, c)
    requires c.runId !in l.pins
    ensures c.confirmationHash !in l.confirmations
  {
    hide MaterialCoherent, LogCoherent, PinCoherent, ConfirmationsApart, ValidConfirmation;
    if h :| h in l.confirmations && h == c.confirmationHash {
      assert ConfirmationCoherent(cfg, l, h, l.confirmations[h].confirmation);
      SameHashSameConfirmation(cfg.sha, l.confirmations[h].confirmation, c);
    }
  }
}
