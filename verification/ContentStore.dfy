/**
 Crash safety of the content-addressed store: any interleaving of writers that
 write a temporary file, verify it, rename it and later commit metadata, with a
 crash of one or of all of them at any point.
 */
module ContentStore {
  import opened Basics
  import opened Contracts
  import opened Ledgers

  /** A stored object, or the scratch file of one attempt to store it. */
  datatype Path = Object(digest: Digest) | Scratch(digest: Digest, nonce: nat)

  datatype Phase =
    | Choosing
    | Writing(digest: Digest, nonce: nat)
    | Checked(digest: Digest, nonce: nat)
    | Renamed(digest: Digest)

  /** One consumption on its way: its verified contents and what is left to place. */
  datatype Writer = Writer(specs: map<Digest, Bytes>, todo: set<Digest>, phase: Phase)

  /** `records` are the consumptions visible in the database, with their sizes. */
  datatype Disk = Disk(
    files: map<Path, Bytes>,
    objects: map<Digest, nat>,
    records: map<nat, map<Digest, nat>>,
    writers: map<nat, Writer>)

  datatype Action =
    | Start(w: nat, specs: map<Digest, Bytes>)
    | Reuse(w: nat, digest: Digest)
    | Create(w: nat, digest: Digest, nonce: nat)
    | Extend(w: nat, n: nat)
    | Check(w: nat)
    | Rename(w: nat)
    | Confirm(w: nat)
    | Commit(w: nat)
    | Fail(w: nat)
    | Die(w: nat)
    | Crash

  /** The contents a reader of the store can see. */
  function Objects(s: Disk): Files {
    var digests := set p | p in s.files && p.Object? :: p.digest;
    map d | d in digests && Object(d) in s.files :: s.files[Object(d)]
  }

  predicate Verifies(sha: Sha, files: map<Path, Bytes>, p: Path, size: nat) {
    p in files && |files[p]| == size && sha(Blob(files[p])) == p.digest
  }

  function Sizes(specs: map<Digest, Bytes>): map<Digest, nat> {
    map d | d in specs :: |specs[d]|
  }

  function Advance(s: Disk, w: nat, todo: set<Digest>, phase: Phase): map<nat, Writer>
    requires w in s.writers
  {
    s.writers[w := s.writers[w].(todo := todo, phase := phase)]
  }

  /** The scratch file of an attempt in progress. */
  function ScratchOf(phase: Phase): set<Path> {
    if phase.Writing? || phase.Checked? then {Scratch(phase.digest, phase.nonce)} else {}
  }

  ghost predicate Next(sha: Sha, s: Disk, a: Action, s': Disk) {
    match a
    case Start(w, specs) =>
      && w !in s.writers && w !in s.records
      && (forall d :: d in specs ==> sha(Blob(specs[d])) == d)
      && s' == s.(writers := s.writers[w := Writer(specs, specs.Keys, Choosing)])
    case Reuse(w, d) =>
      && w in s.writers && s.writers[w].phase == Choosing && d in s.writers[w].todo && d in s.writers[w].specs
      && Verifies(sha, s.files, Object(d), |s.writers[w].specs[d]|)
      && s' == s.(writers := Advance(s, w, s.writers[w].todo - {d}, Choosing))
    case Create(w, d, nonce) =>
      && w in s.writers && s.writers[w].phase == Choosing && d in s.writers[w].todo
      && Object(d) !in s.files && Scratch(d, nonce) !in s.files
      && s' == s.(files := s.files[Scratch(d, nonce) := []],
                  writers := Advance(s, w, s.writers[w].todo, Writing(d, nonce)))
    case Extend(w, n) =>
      && w in s.writers && s.writers[w].phase.Writing?
      && var d, nonce := s.writers[w].phase.digest, s.writers[w].phase.nonce;
         && d in s.writers[w].specs && n <= |s.writers[w].specs[d]|
         && s' == s.(files := s.files[Scratch(d, nonce) := s.writers[w].specs[d][..n]])
    case Check(w) =>
      && w in s.writers && s.writers[w].phase.Writing?
      && var d, nonce := s.writers[w].phase.digest, s.writers[w].phase.nonce;
         && d in s.writers[w].specs && Verifies(sha, s.files, Scratch(d, nonce), |s.writers[w].specs[d]|)
         && s' == s.(writers := Advance(s, w, s.writers[w].todo, Checked(d, nonce)))
    case Rename(w) =>
      && w in s.writers && s.writers[w].phase.Checked?
      && var d, nonce := s.writers[w].phase.digest, s.writers[w].phase.nonce;
         && Scratch(d, nonce) in s.files
         && s' == s.(files := (s.files - {Scratch(d, nonce)})[Object(d) := s.files[Scratch(d, nonce)]],
                     writers := Advance(s, w, s.writers[w].todo, Renamed(d)))
    case Confirm(w) =>
      && w in s.writers && s.writers[w].phase.Renamed?
      && var d := s.writers[w].phase.digest;
         && d in s.writers[w].specs && Verifies(sha, s.files, Object(d), |s.writers[w].specs[d]|)
         && s' == s.(writers := Advance(s, w, s.writers[w].todo - {d}, Choosing))
    case Commit(w) =>
      && w in s.writers && s.writers[w].phase == Choosing && s.writers[w].todo == {}
      && var specs := s.writers[w].specs;
         && (forall d :: d in specs ==> Verifies(sha, s.files, Object(d), |specs[d]|))
         && (forall d :: d in specs && d in s.objects ==> s.objects[d] == |specs[d]|)
         && s' == s.(objects := Sizes(specs) + s.objects, records := s.records[w := Sizes(specs)], writers := s.writers - {w})
    case Fail(w) =>
      && w in s.writers
      && s' == s.(files := s.files - ScratchOf(s.writers[w].phase), writers := s.writers - {w})
    case Die(w) =>
      && w in s.writers && s' == s.(writers := s.writers - {w})
    case Crash =>
      s' == s.(writers := map[])
  }

  ghost predicate Behaviour(sha: Sha, ss: seq<Disk>, actions: seq<Action>) {
    && |ss| == |actions| + 1
    && forall i :: 0 <= i < |actions| ==> Next(sha, ss[i], actions[i], ss[i + 1])
  }

  /* ---- The invariant ---- */

  ghost predicate WriterSound(sha: Sha, s: Disk, w: nat)
    requires w in s.writers
  {
    var me := s.writers[w];
    && (forall d :: d in me.specs ==> sha(Blob(me.specs[d])) == d)
    && me.todo <= me.specs.Keys
    && (forall d :: d in me.specs && d !in me.todo ==> Verifies(sha, s.files, Object(d), |me.specs[d]|))
    && match me.phase
       case Choosing => true
       case Writing(d, nonce) =>
         d in me.todo && Scratch(d, nonce) in s.files && s.files[Scratch(d, nonce)] <= me.specs[d]
       case Checked(d, nonce) =>
         d in me.todo && Scratch(d, nonce) in s.files && s.files[Scratch(d, nonce)] == me.specs[d]
       case Renamed(d) =>
         d in me.todo && Object(d) in s.files
  }

  /** No two attempts in progress share a scratch file. */
  ghost predicate ScratchOwned(s: Disk) {
    forall w, w' | w in s.writers && w' in s.writers && w != w' ::
      ScratchOf(s.writers[w].phase) !! ScratchOf(s.writers[w'].phase)
  }

  ghost predicate ObjectsComplete(sha: Sha, s: Disk) {
    forall p :: p in s.files && p.Object? ==> sha(Blob(s.files[p])) == p.digest
  }

  /** Every registered object has its whole file. */
  ghost predicate Registered(sha: Sha, s: Disk) {
    forall d :: d in s.objects ==> Verifies(sha, s.files, Object(d), s.objects[d])
  }

  /** A visible consumption is visible as a whole. */
  ghost predicate RecordsWhole(s: Disk) {
    forall r, d :: r in s.records && d in s.records[r] ==> d in s.objects && s.objects[d] == s.records[r][d]
  }

  ghost predicate Sound(sha: Sha, s: Disk) {
    && ObjectsComplete(sha, s) && Registered(sha, s) && RecordsWhole(s) && ScratchOwned(s)
    && forall w :: w in s.writers ==> WriterSound(sha, s, w)
  }

  /** Object files are never lost or changed. */
  ghost predicate Kept(s: Disk, s': Disk) {
    forall p :: p in s.files && p.Object? ==> p in s'.files && s'.files[p] == s.files[p]
  }

  lemma SameContent(sha: Sha, a: Bytes, b: Bytes)
    requires BlobsApart(sha) && sha(Blob(a)) == sha(Blob(b))
    ensures a == b
  {
  }

  /** A step never changes an object file, also when two writers place the same one. */
  lemma StepKeepsObjects(sha: Sha, s: Disk, a: Action, s': Disk)
    requires BlobsApart(sha) && Sound(sha, s) && Next(sha, s, a, s')
    ensures Kept(s, s') && ObjectsComplete(sha, s')
  {
    hide *;
    if a.Rename? {
      RenameKeepsObjects(sha, s, a.w, s');
    } else {
      OtherStepsSpareObjects(sha, s, a, s');
      SparedKept(sha, s, s');
    }
  }

  /** The object files are the same before and after. */
  ghost predicate ObjectsSpared(s: Disk, s': Disk) {
    && (forall p :: p in s.files && p.Object? ==> p in s'.files && s'.files[p] == s.files[p])
    && forall p :: p in s'.files && p.Object? ==> p in s.files
  }

  lemma OtherStepsSpareObjects(sha: Sha, s: Disk, a: Action, s': Disk)
    requires Next(sha, s, a, s') && !a.Rename?
    ensures ObjectsSpared(s, s')
  {
    hide Verifies;
    if !a.Create? && !a.Extend? && !a.Fail? { assert s'.files == s.files; }
  }

  lemma SparedKept(sha: Sha, s: Disk, s': Disk)
    requires Sound(sha, s) && ObjectsSpared(s, s')
    ensures Kept(s, s') && ObjectsComplete(sha, s')
  {
    hide WriterSound, Registered, RecordsWhole, ScratchOwned;
  }

  lemma RenameKeepsObjects(sha: Sha, s: Disk, w: nat, s': Disk)
    requires BlobsApart(sha) && Sound(sha, s) && Next(sha, s, Rename(w), s')
    ensures Kept(s, s') && ObjectsComplete(sha, s')
  {
    hide BlobsApart, Registered, RecordsWhole, ScratchOwned;
    var me := s.writers[w];
    assert WriterSound(sha, s, w);
    var d := me.phase.digest;
    if Object(d) in s.files { SameContent(sha, s.files[Object(d)], me.specs[d]); }
  }

  /** What another writer's step leaves a writer with. */
  ghost predicate Undisturbed(s: Disk, s': Disk, w: nat)
    requires w in s.writers
  {
    && w in s'.writers && s'.writers[w] == s.writers[w]
    && forall p :: p in ScratchOf(s.writers[w].phase) && p in s.files ==> p in s'.files && s'.files[p] == s.files[p]
  }

  lemma UndisturbedSound(sha: Sha, s: Disk, s': Disk, w: nat)
    requires w in s.writers && WriterSound(sha, s, w) && Undisturbed(s, s', w) && Kept(s, s')
    ensures WriterSound(sha, s', w)
  {
    var me := s.writers[w];
    forall d | d in me.specs && d !in me.todo ensures Verifies(sha, s'.files, Object(d), |me.specs[d]|) {
      assert Verifies(sha, s.files, Object(d), |me.specs[d]|);
    }
    if me.phase.Writing? || me.phase.Checked? {
      assert Scratch(me.phase.digest, me.phase.nonce) in ScratchOf(me.phase);
    }
  }

  predicate ActsOn(a: Action, w: nat) { !a.Crash? && a.w == w }

  lemma OthersUndisturbed(sha: Sha, s: Disk, a: Action, s': Disk, w: nat)
    requires Sound(sha, s) && Next(sha, s, a, s') && w in s.writers && w in s'.writers && !ActsOn(a, w)
    ensures Undisturbed(s, s', w)
  {
    assert WriterSound(sha, s, w);
    assert a.Extend? || a.Rename? || a.Fail? ==> ScratchOf(s.writers[w].phase) !! ScratchOf(s.writers[a.w].phase);
  }

  lemma ActorSound(sha: Sha, s: Disk, a: Action, s': Disk)
    requires Sound(sha, s) && Next(sha, s, a, s') && Kept(s, s') && !a.Crash? && a.w in s'.writers
    ensures WriterSound(sha, s', a.w)
  {
    var w := a.w;
    if w in s.writers {
      var me := s.writers[w];
      assert WriterSound(sha, s, w);
      forall d | d in me.specs && d !in me.todo ensures Verifies(sha, s'.files, Object(d), |me.specs[d]|) {
        assert Verifies(sha, s.files, Object(d), |me.specs[d]|);
      }
    }
  }

  /** Apart from the step that creates one, no step gives a writer a new scratch file. */
  lemma ScratchShrinks(sha: Sha, s: Disk, a: Action, s': Disk, w: nat)
    requires Next(sha, s, a, s') && !a.Create? && w in s'.writers
    ensures ScratchOf(s'.writers[w].phase) == {} ||
            (w in s.writers && ScratchOf(s'.writers[w].phase) <= ScratchOf(s.writers[w].phase))
  {
    hide Verifies;
  }

  lemma CreateKeepsOwnership(sha: Sha, s: Disk, a: Action, s': Disk)
    requires Sound(sha, s) && Next(sha, s, a, s') && a.Create?
    ensures ScratchOwned(s')
  {
    hide ObjectsComplete, Registered, RecordsWhole, Verifies;
    forall w | w in s.writers && w != a.w ensures Scratch(a.digest, a.nonce) !in ScratchOf(s.writers[w].phase) {
      assert WriterSound(sha, s, w);
    }
  }

  lemma StepKeepsOwnership(sha: Sha, s: Disk, a: Action, s': Disk)
    requires Sound(sha, s) && Next(sha, s, a, s')
    ensures ScratchOwned(s')
  {
    hide ObjectsComplete, Registered, RecordsWhole, WriterSound, Next, ScratchOf;
    if a.Create? {
      CreateKeepsOwnership(sha, s, a, s');
    } else {
      forall w | w in s'.writers
        ensures ScratchOf(s'.writers[w].phase) == {} ||
                (w in s.writers && ScratchOf(s'.writers[w].phase) <= ScratchOf(s.writers[w].phase))
      {
        ScratchShrinks(sha, s, a, s', w);
      }
    }
  }

  lemma StepKeepsDatabase(sha: Sha, s: Disk, a: Action, s': Disk)
    requires Sound(sha, s) && Next(sha, s, a, s') && Kept(s, s')
    ensures Registered(sha, s') && RecordsWhole(s')
  {
    hide WriterSound, ScratchOwned, ObjectsComplete;
    if a.Commit? {
      CommitKeepsDatabase(sha, s, a.w, s');
    } else {
      assert s'.objects == s.objects && s'.records == s.records by { hide Verifies; }
      hide Next;
      forall d | d in s.objects ensures Verifies(sha, s'.files, Object(d), s.objects[d]) {
        assert Verifies(sha, s.files, Object(d), s.objects[d]);
      }
    }
  }

  lemma CommitKeepsDatabase(sha: Sha, s: Disk, w: nat, s': Disk)
    requires Sound(sha, s) && Next(sha, s, Commit(w), s')
    ensures Registered(sha, s') && RecordsWhole(s')
  {
    hide WriterSound, ScratchOwned, ObjectsComplete;
    forall d | d in s.objects ensures Verifies(sha, s'.files, Object(d), s.objects[d]) {
      assert Verifies(sha, s.files, Object(d), s.objects[d]);
    }
  }

  /** Every step of every interleaving keeps the store sound. */
  lemma StepKeeps(sha: Sha, s: Disk, a: Action, s': Disk)
    requires BlobsApart(sha) && Sound(sha, s) && Next(sha, s, a, s')
    ensures Sound(sha, s') && Kept(s, s')
  {
    StepKeepsObjects(sha, s, a, s');
    StepKeepsOwnership(sha, s, a, s');
    StepKeepsDatabase(sha, s, a, s');
    hide BlobsApart, ObjectsComplete, Registered, RecordsWhole, ScratchOwned, WriterSound;
    forall w | w in s'.writers ensures WriterSound(sha, s', w) {
      if ActsOn(a, w) {
        ActorSound(sha, s, a, s');
      } else {
        OthersUndisturbed(sha, s, a, s', w);
        UndisturbedSound(sha, s, s', w);
      }
    }
  }

  /**
   At every point of every behaviour, crashes included, each registered object
   has a file with its digest and size, and no partial consumption is visible.
   */
  lemma {:induction false} AlwaysSound(sha: Sha, ss: seq<Disk>, actions: seq<Action>, i: nat)
    requires BlobsApart(sha) && Behaviour(sha, ss, actions) && i < |ss| && Sound(sha, ss[0])
    ensures Sound(sha, ss[i])
    ensures Registered(sha, ss[i]) && RecordsWhole(ss[i])
  {
    hide BlobsApart, Next;
    if i > 0 {
      AlwaysSound(sha, ss, actions, i - 1);
      assert Next(sha, ss[i - 1], actions[i - 1], ss[i]);
      StepKeeps(sha, ss[i - 1], actions[i - 1], ss[i]);
    }
  }

  /** Once registered, an object keeps its bytes for ever. */
  lemma {:induction false} RegisteredBytesFixed(sha: Sha, ss: seq<Disk>, actions: seq<Action>, i: nat, j: nat, d: Digest)
    requires BlobsApart(sha) && Behaviour(sha, ss, actions) && i <= j < |ss| && Sound(sha, ss[0])
    requires d in ss[i].objects
    ensures d in ss[j].objects && ss[j].objects[d] == ss[i].objects[d]
    ensures Object(d) in ss[i].files && Object(d) in ss[j].files && ss[j].files[Object(d)] == ss[i].files[Object(d)]
    decreases j
  {
    hide BlobsApart, Next, Sound;
    AlwaysSound(sha, ss, actions, i);
    assert Verifies(sha, ss[i].files, Object(d), ss[i].objects[d]);
    if i < j {
      RegisteredBytesFixed(sha, ss, actions, i, j - 1, d);
      AlwaysSound(sha, ss, actions, j - 1);
      assert Next(sha, ss[j - 1], actions[j - 1], ss[j]);
      StepKeeps(sha, ss[j - 1], actions[j - 1], ss[j]);
      StepKeepsRows(sha, ss[j - 1], actions[j - 1], ss[j]);
    }
  }

  lemma StepKeepsRows(sha: Sha, s: Disk, a: Action, s': Disk)
    requires Next(sha, s, a, s')
    ensures forall d :: d in s.objects ==> d in s'.objects && s'.objects[d] == s.objects[d]
    ensures forall r :: r in s.records ==> r in s'.records
  {
  }

  /** What a crash leaves beside the registered objects: orphans and scratch files. */
  lemma OnlyOrphansRemain(sha: Sha, s: Disk, s': Disk)
    requires Sound(sha, s) && Next(sha, s, Crash, s')
    ensures s'.objects == s.objects && s'.records == s.records
    ensures forall p :: p in s'.files ==>
              || (p.Object? && p.digest in s'.objects && Verifies(sha, s'.files, p, s'.objects[p.digest]))
              || (p.Object? && p.digest !in s'.objects && sha(Blob(s'.files[p])) == p.digest)
              || p.Scratch?
  {
    forall p | p in s'.files && p.Object? && p.digest in s'.objects
      ensures Verifies(sha, s'.files, p, s'.objects[p.digest])
    {
      assert Verifies(sha, s.files, Object(p.digest), s.objects[p.digest]);
      assert p == Object(p.digest);
    }
  }

  /* ---- The abstract store sees atomic growth ---- */

  lemma ObjectsExact(s: Disk)
    ensures forall d :: d in Objects(s) <==> Object(d) in s.files
    ensures forall d :: d in Objects(s) ==> Objects(s)[d] == s.files[Object(d)]
  {
    forall d ensures d in Objects(s) <==> Object(d) in s.files {
      if Object(d) in s.files { assert Object(d).digest in Objects(s); }
    }
  }

  /** Every step is, for the files a reader sees, the growth a consumption may cause. */
  lemma StepGrowsFiles(sha: Sha, s: Disk, a: Action, s': Disk)
    requires BlobsApart(sha) && Sound(sha, s) && Next(sha, s, a, s')
    ensures FilesGrow(sha, Objects(s), Objects(s'))
  {
    hide BlobsApart, Next, WriterSound, Registered, RecordsWhole, ScratchOwned;
    StepKeeps(sha, s, a, s');
    KeptGrows(sha, s, s');
  }

  lemma KeptGrows(sha: Sha, s: Disk, s': Disk)
    requires Kept(s, s') && ObjectsComplete(sha, s')
    ensures FilesGrow(sha, Objects(s), Objects(s'))
  {
    hide Objects;
    ObjectsExact(s);
    ObjectsExact(s');
    forall d | d in Objects(s) ensures d in Objects(s') && Objects(s')[d] == Objects(s)[d] {
      assert Object(d) in s.files;
    }
    forall d | d in Objects(s') ensures sha(Blob(Objects(s')[d])) == d {
      assert Object(d) in s'.files;
    }
  }

  /** A commit happens only over files that all verify. */
  lemma CommitOverVerifiedFiles(sha: Sha, s: Disk, w: nat, s': Disk)
    requires Sound(sha, s) && Next(sha, s, Commit(w), s')
    ensures forall d :: d in s.writers[w].specs ==> FileVerifies(sha, Objects(s'), d, |s.writers[w].specs[d]|)
    ensures FilesIntact(sha, Objects(s'), s'.objects)
  {
    ObjectsExact(s');
    CommitKeepsDatabase(sha, s, w, s');
    hide Objects, WriterSound, ScratchOwned, ObjectsComplete, RecordsWhole;
    forall d | d in s.writers[w].specs ensures FileVerifies(sha, Objects(s'), d, |s.writers[w].specs[d]|) {
      assert Verifies(sha, s.files, Object(d), |s.writers[w].specs[d]|);
    }
    forall d | d in s'.objects ensures FileVerifies(sha, Objects(s'), d, s'.objects[d]) {
      assert Verifies(sha, s'.files, Object(d), s'.objects[d]);
    }
  }
}
