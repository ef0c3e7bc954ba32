/**
 What the protocol of the content store allows: whatever has happened before, crashes
 included, any consumption can be carried through to its commit by its own steps alone.
 */
module ContentProgress {
  import opened Basics
  import opened Contracts
  import opened Ledgers
  import opened ContentStore

  /** A step of this writer, and none that gives up. */
  predicate OwnStep(a: Action, w: nat) {
    match a
    case Start(v, _) => v == w
    case Reuse(v, _) => v == w
    case Create(v, _, _) => v == w
    case Extend(v, _) => v == w
    case Check(v) => v == w
    case Rename(v) => v == w
    case Confirm(v) => v == w
    case Commit(v) => v == w
    case Fail(_) => false
    case Die(_) => false
    case Crash => false
  }

  /** A run of the writer's own steps from one state to another. */
  ghost predicate Leads(sha: Sha, s: Disk, w: nat, ss: seq<Disk>, actions: seq<Action>, s': Disk) {
    && Behaviour(sha, ss, actions) && ss[0] == s && ss[|ss| - 1] == s'
    && forall i :: 0 <= i < |actions| ==> OwnStep(actions[i], w)
  }

  ghost predicate CanReach(sha: Sha, s: Disk, w: nat, s': Disk) {
    exists ss, actions :: Leads(sha, s, w, ss, actions, s')
  }

  lemma ReachItself(sha: Sha, s: Disk, w: nat)
    ensures CanReach(sha, s, w, s)
  {
    assert Leads(sha, s, w, [s], [], s);
  }

  lemma ReachNext(sha: Sha, s: Disk, w: nat, t: Disk, a: Action, s': Disk)
    requires CanReach(sha, s, w, t) && Next(sha, t, a, s') && OwnStep(a, w)
    ensures CanReach(sha, s, w, s')
  {
    hide Next, OwnStep;
    var ss, actions :| Leads(sha, s, w, ss, actions, t);
    var more, next := actions + [a], ss + [s'];
    forall i | 0 <= i < |more| ensures Next(sha, next[i], more[i], next[i + 1]) && OwnStep(more[i], w) {
      if i < |actions| { assert Next(sha, ss[i], actions[i], ss[i + 1]) && more[i] == actions[i]; }
    }
    assert Leads(sha, s, w, next, more, s');
  }

  /** Above all numbers of scratch files. */
  lemma {:induction false} FreeNonce(paths: set<Path>) returns (n: nat)
    ensures forall d, k: nat :: Scratch(d, k) in paths ==> k < n
    decreases |paths|
  {
    n := 0;
    if paths != {} {
      var p :| p in paths;
      var m := FreeNonce(paths - {p});
      n := if p.Scratch? && p.nonce >= m then p.nonce + 1 else m;
      forall d, k: nat | Scratch(d, k) in paths ensures k < n {
        if Scratch(d, k) != p { assert Scratch(d, k) in paths - {p}; }
      }
    }
  }

  /** The writer about to place its next object. */
  ghost predicate Ready(sha: Sha, s: Disk, w: nat, d: Digest) {
    && BlobsApart(sha) && Sound(sha, s) && w in s.writers && s.writers[w].phase == Choosing && d in s.writers[w].todo
  }

  /** The writer has placed the object and is as it was otherwise, and so is the database. */
  ghost predicate PlacedObject(sha: Sha, s: Disk, w: nat, d: Digest, s': Disk) {
    && w in s.writers && w in s'.writers && Sound(sha, s')
    && s'.writers[w] == s.writers[w].(todo := s.writers[w].todo - {d})
    && s'.objects == s.objects && s'.records == s.records
  }

  /** An object that is there already is the right one. */
  lemma PresentVerifies(sha: Sha, s: Disk, w: nat, d: Digest)
    requires Ready(sha, s, w, d) && Object(d) in s.files
    ensures d in s.writers[w].specs && Verifies(sha, s.files, Object(d), |s.writers[w].specs[d]|)
  {
    hide BlobsApart, Registered, RecordsWhole, ScratchOwned;
    assert WriterSound(sha, s, w);
    SameContent(sha, s.files[Object(d)], s.writers[w].specs[d]);
  }

  lemma PlacePresent(sha: Sha, s: Disk, w: nat, d: Digest) returns (s': Disk)
    requires Ready(sha, s, w, d) && Object(d) in s.files
    ensures CanReach(sha, s, w, s') && PlacedObject(sha, s, w, d, s')
  {
    PresentVerifies(sha, s, w, d);
    hide BlobsApart, Sound, Verifies, CanReach;
    s' := s.(writers := Advance(s, w, s.writers[w].todo - {d}, Choosing));
    ReachItself(sha, s, w);
    ReachNext(sha, s, w, s, Reuse(w, d), s');
    StepKeeps(sha, s, Reuse(w, d), s');
  }

  lemma CreateScratch(sha: Sha, s: Disk, w: nat, d: Digest) returns (nonce: nat, s': Disk)
    requires Ready(sha, s, w, d) && Object(d) !in s.files
    ensures CanReach(sha, s, w, s') && Sound(sha, s')
    ensures s' == s.(files := s.files[Scratch(d, nonce) := []], writers := Advance(s, w, s.writers[w].todo, Writing(d, nonce)))
  {
    hide BlobsApart, Sound, Verifies, CanReach;
    nonce := FreeNonce(s.files.Keys);
    s' := s.(files := s.files[Scratch(d, nonce) := []], writers := Advance(s, w, s.writers[w].todo, Writing(d, nonce)));
    ReachItself(sha, s, w);
    assert Next(sha, s, Create(w, d, nonce), s');
    hide Next;
    ReachNext(sha, s, w, s, Create(w, d, nonce), s');
    StepKeeps(sha, s, Create(w, d, nonce), s');
  }

  lemma FillScratch(sha: Sha, s: Disk, w: nat, d: Digest, nonce: nat) returns (s': Disk)
    requires BlobsApart(sha) && Sound(sha, s) && w in s.writers && s.writers[w].phase == Writing(d, nonce)
    requires d in s.writers[w].specs
    ensures CanReach(sha, s, w, s') && Sound(sha, s')
    ensures s' == s.(files := s.files[Scratch(d, nonce) := s.writers[w].specs[d]])
  {
    hide BlobsApart, Sound, Verifies, CanReach;
    var content := s.writers[w].specs[d];
    s' := s.(files := s.files[Scratch(d, nonce) := content]);
    assert content[..|content|] == content;
    ReachItself(sha, s, w);
    assert Next(sha, s, Extend(w, |content|), s');
    hide Next;
    ReachNext(sha, s, w, s, Extend(w, |content|), s');
    StepKeeps(sha, s, Extend(w, |content|), s');
  }

  lemma TodoDeclared(sha: Sha, s: Disk, w: nat, d: Digest)
    requires w in s.writers && WriterSound(sha, s, w) && d in s.writers[w].todo
    ensures d in s.writers[w].specs && sha(Blob(s.writers[w].specs[d])) == d
  {
  }

  lemma CheckScratch(sha: Sha, s: Disk, w: nat, d: Digest, nonce: nat) returns (s': Disk)
    requires BlobsApart(sha) && Sound(sha, s) && w in s.writers && s.writers[w].phase == Writing(d, nonce)
    requires d in s.writers[w].specs && Scratch(d, nonce) in s.files && s.files[Scratch(d, nonce)] == s.writers[w].specs[d]
    ensures CanReach(sha, s, w, s') && Sound(sha, s')
    ensures s' == s.(writers := Advance(s, w, s.writers[w].todo, Checked(d, nonce)))
  {
    assert WriterSound(sha, s, w);
    assert sha(Blob(s.writers[w].specs[d])) == d;
    hide BlobsApart, Sound, CanReach, WriterSound;
    s' := s.(writers := Advance(s, w, s.writers[w].todo, Checked(d, nonce)));
    ReachItself(sha, s, w);
    assert Next(sha, s, Check(w), s');
    hide Next;
    ReachNext(sha, s, w, s, Check(w), s');
    StepKeeps(sha, s, Check(w), s');
  }

  lemma RenameScratch(sha: Sha, s: Disk, w: nat, d: Digest, nonce: nat) returns (s': Disk)
    requires BlobsApart(sha) && Sound(sha, s) && w in s.writers && s.writers[w].phase == Checked(d, nonce)
    requires Scratch(d, nonce) in s.files
    ensures CanReach(sha, s, w, s') && Sound(sha, s')
    ensures Object(d) in s'.files && s'.files[Object(d)] == s.files[Scratch(d, nonce)]
    ensures s' == s.(files := s'.files, writers := Advance(s, w, s.writers[w].todo, Renamed(d)))
  {
    hide BlobsApart, Sound, CanReach;
    s' := s.(files := (s.files - {Scratch(d, nonce)})[Object(d) := s.files[Scratch(d, nonce)]],
             writers := Advance(s, w, s.writers[w].todo, Renamed(d)));
    ReachItself(sha, s, w);
    assert Next(sha, s, Rename(w), s');
    hide Next;
    ReachNext(sha, s, w, s, Rename(w), s');
    StepKeeps(sha, s, Rename(w), s');
  }

  lemma ConfirmObject(sha: Sha, s: Disk, w: nat, d: Digest) returns (s': Disk)
    requires BlobsApart(sha) && Sound(sha, s) && w in s.writers && s.writers[w].phase == Renamed(d)
    requires d in s.writers[w].specs && Object(d) in s.files && s.files[Object(d)] == s.writers[w].specs[d]
    ensures CanReach(sha, s, w, s') && Sound(sha, s')
    ensures s' == s.(writers := Advance(s, w, s.writers[w].todo - {d}, Choosing))
  {
    assert WriterSound(sha, s, w);
    assert sha(Blob(s.writers[w].specs[d])) == d;
    hide BlobsApart, Sound, CanReach, WriterSound;
    s' := s.(writers := Advance(s, w, s.writers[w].todo - {d}, Choosing));
    ReachItself(sha, s, w);
    assert Next(sha, s, Confirm(w), s');
    ReachNext(sha, s, w, s, Confirm(w), s');
    StepKeeps(sha, s, Confirm(w), s');
  }

  lemma ReachOn(sha: Sha, s: Disk, w: nat, t: Disk, s': Disk)
    requires CanReach(sha, s, w, t) && CanReach(sha, t, w, s')
    ensures CanReach(sha, s, w, s')
  {
    hide Next, OwnStep;
    var ss, actions :| Leads(sha, t, w, ss, actions, s');
    for i := 0 to |actions|
      invariant CanReach(sha, s, w, ss[i])
    {
      assert Next(sha, ss[i], actions[i], ss[i + 1]) && OwnStep(actions[i], w);
      ReachNext(sha, s, w, ss[i], actions[i], ss[i + 1]);
    }
  }

  lemma PlaceAbsent(sha: Sha, s: Disk, w: nat, d: Digest) returns (s': Disk)
    requires Ready(sha, s, w, d) && Object(d) !in s.files
    ensures CanReach(sha, s, w, s') && PlacedObject(sha, s, w, d, s')
  {
    assert WriterSound(sha, s, w);
    TodoDeclared(sha, s, w, d);
    hide BlobsApart, Sound, CanReach, WriterSound;
    var nonce, t := CreateScratch(sha, s, w, d);
    var u := FillScratch(sha, t, w, d, nonce);
    var v := CheckScratch(sha, u, w, d, nonce);
    var x := RenameScratch(sha, v, w, d, nonce);
    s' := ConfirmObject(sha, x, w, d);
    ReachOn(sha, s, w, t, u);
    ReachOn(sha, s, w, u, v);
    ReachOn(sha, s, w, v, x);
    ReachOn(sha, s, w, x, s');
  }

  lemma {:induction false} PlaceAll(sha: Sha, s: Disk, w: nat) returns (s': Disk)
    requires BlobsApart(sha) && Sound(sha, s) && w in s.writers && s.writers[w].phase == Choosing
    ensures CanReach(sha, s, w, s') && Sound(sha, s') && w in s'.writers
    ensures s'.writers[w] == s.writers[w].(todo := {}) && s'.objects == s.objects && s'.records == s.records
    decreases |s.writers[w].todo|
  {
    hide BlobsApart, Sound, CanReach;
    if s.writers[w].todo == {} {
      s' := s;
      ReachItself(sha, s, w);
    } else {
      var d :| d in s.writers[w].todo;
      var t;
      if Object(d) in s.files { t := PlacePresent(sha, s, w, d); } else { t := PlaceAbsent(sha, s, w, d); }
      Fewer(s.writers[w].todo, d);
      s' := PlaceAll(sha, t, w);
      ReachOn(sha, s, w, t, s');
    }
  }

  lemma Fewer(xs: set<Digest>, x: Digest)
    requires x in xs
    ensures |xs - {x}| < |xs|
  {
  }

  /** With everything placed the commit is possible. */
  lemma CommitReady(sha: Sha, s: Disk, w: nat)
    requires Sound(sha, s) && w in s.writers && s.writers[w].phase == Choosing && s.writers[w].todo == {}
    ensures var specs := s.writers[w].specs;
            && (forall d :: d in specs ==> Verifies(sha, s.files, Object(d), |specs[d]|))
            && (forall d :: d in specs && d in s.objects ==> s.objects[d] == |specs[d]|)
  {
    hide ObjectsComplete, RecordsWhole, ScratchOwned;
    assert WriterSound(sha, s, w);
  }

  /**
   From every sound state, and so after any history, a consumption not yet under way
   can be started, placed and committed by its own steps: all its objects are then
   registered with their sizes and the consumption is visible as a whole.
   */
  lemma CanComplete(sha: Sha, s: Disk, w: nat, specs: map<Digest, Bytes>) returns (s': Disk)
    requires BlobsApart(sha) && Sound(sha, s) && w !in s.writers && w !in s.records
    requires forall d :: d in specs ==> sha(Blob(specs[d])) == d
    ensures CanReach(sha, s, w, s') && Sound(sha, s') && w in s'.records
    ensures s'.records[w].Keys == specs.Keys && forall d :: d in specs ==>
              && s'.records[w][d] == |specs[d]| && d in s'.objects && s'.objects[d] == |specs[d]|
              && Object(d) in s'.files && s'.files[Object(d)] == specs[d]
  {
    hide BlobsApart, Sound, CanReach;
    var t := s.(writers := s.writers[w := Writer(specs, specs.Keys, Choosing)]);
    ReachItself(sha, s, w);
    assert Next(sha, s, Start(w, specs), t);
    ReachNext(sha, s, w, s, Start(w, specs), t);
    StepKeeps(sha, s, Start(w, specs), t);
    var u := PlaceAll(sha, t, w);
    ReachOn(sha, s, w, t, u);
    CommitReady(sha, u, w);
    s' := u.(objects := Sizes(specs) + u.objects, records := u.records[w := Sizes(specs)], writers := u.writers - {w});
    assert Next(sha, u, Commit(w), s');
    ReachNext(sha, s, w, u, Commit(w), s');
    StepKeeps(sha, u, Commit(w), s');
    forall d | d in specs
      ensures Object(d) in s'.files && s'.files[Object(d)] == specs[d] && d in s'.objects && s'.objects[d] == |specs[d]|
    {
      SameContent(sha, s'.files[Object(d)], specs[d]);
    }
  }

  /** A crash can come at any time, and so can the failure or the death of a writer; each leaves the database as it is. */
  lemma CanStop(sha: Sha, s: Disk, w: nat)
    ensures Next(sha, s, Crash, s.(writers := map[]))
    ensures w in s.writers ==> Next(sha, s, Die(w), s.(writers := s.writers - {w}))
    ensures w in s.writers ==>
              exists s' :: Next(sha, s, Fail(w), s') && s'.objects == s.objects && s'.records == s.records && w !in s'.writers
                           && forall p :: p in s.files && p.Object? ==> p in s'.files && s'.files[p] == s.files[p]
  {
    if w in s.writers {
      var s' := s.(files := s.files - ScratchOf(s.writers[w].phase), writers := s.writers - {w});
      assert Next(sha, s, Fail(w), s');
    }
  }
}
