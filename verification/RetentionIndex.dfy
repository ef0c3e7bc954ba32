/**
 The exact relational indexes of a receipt or closure document: what the child
 rows must be, built the way the store inserts them.
 */
module RetentionIndex {
  import opened Basics
  import opened Contracts
  import opened RetentionGraph

  datatype ReleaseRow = ReleaseRow(manifestHash: Digest, manifestSize: nat)

  /* ---- Indexes by insertion order ---- */

  function ReleaseIndex(nodes: seq<Node>): map<Id, ReleaseRow>
    decreases |nodes|
  {
    if nodes == [] then map[]
    else
      var last := nodes[|nodes| - 1];
      ReleaseIndex(nodes[..|nodes| - 1])[last.Id() := ReleaseRow(last.manifestDocumentHash, last.manifestSize)]
  }

  function RefIndex(nodes: seq<Node>): map<Id, InputRef>
    decreases |nodes|
  {
    if nodes == [] then map[]
    else RefIndex(nodes[..|nodes| - 1])[nodes[|nodes| - 1].Id() := nodes[|nodes| - 1].inputRef]
  }

  function NodeIds(nodes: seq<Node>): set<Id> {
    set i | 0 <= i < |nodes| :: nodes[i].Id()
  }

  function DependencyIndex(nodes: seq<Node>): set<(Id, Id)> {
    set i, j | 0 <= i < |nodes| && 0 <= j < |nodes[i].dependencies| :: (nodes[i].Id(), nodes[i].dependencies[j])
  }

  function AddArtifacts(index: map<(Id, Id), Artifact>, r: Id, artifacts: seq<Artifact>): map<(Id, Id), Artifact>
    decreases |artifacts|
  {
    if artifacts == [] then index
    else
      var last := artifacts[|artifacts| - 1];
      AddArtifacts(index, r, artifacts[..|artifacts| - 1])[(r, last.artifactId) := last]
  }

  function ArtifactIndex(nodes: seq<Node>): map<(Id, Id), Artifact>
    decreases |nodes|
  {
    if nodes == [] then map[]
    else AddArtifacts(ArtifactIndex(nodes[..|nodes| - 1]), nodes[|nodes| - 1].Id(), nodes[|nodes| - 1].artifacts)
  }

  function ReceiptIndex(artifacts: seq<Artifact>): map<Id, Artifact>
    decreases |artifacts|
  {
    if artifacts == [] then map[]
    else
      var last := artifacts[|artifacts| - 1];
      ReceiptIndex(artifacts[..|artifacts| - 1])[last.artifactId := last]
  }

  /* ---- Distinct identifiers ---- */

  predicate ArtifactsDistinct(artifacts: seq<Artifact>) {
    forall i, j :: 0 <= i < j < |artifacts| ==> artifacts[i].artifactId != artifacts[j].artifactId
  }

  lemma NormalNodesDistinct(nodes: seq<Node>)
    requires NodesNormal(nodes)
    ensures NodesDistinct(nodes)
  {
    forall i, j | 0 <= i < j < |nodes| ensures nodes[i].Id() != nodes[j].Id() {
      LessIrreflexive(nodes[i].Id());
    }
  }

  lemma NormalArtifactsDistinct(artifacts: seq<Artifact>)
    requires ArtifactsNormal(artifacts)
    ensures ArtifactsDistinct(artifacts)
  {
    forall i, j | 0 <= i < j < |artifacts| ensures artifacts[i].artifactId != artifacts[j].artifactId {
      LessIrreflexive(artifacts[i].artifactId);
    }
  }

  /* ---- The indexes say neither more nor less than the document ---- */

  lemma NodeIdsSnoc(nodes: seq<Node>)
    requires nodes != []
    ensures NodeIds(nodes) == NodeIds(nodes[..|nodes| - 1]) + {nodes[|nodes| - 1].Id()}
  {
    var front := nodes[..|nodes| - 1];
    forall i | 0 <= i < |front| ensures front[i].Id() in NodeIds(nodes) {
      assert front[i].Id() == nodes[i].Id();
    }
    forall i | 0 <= i < |front| ensures nodes[i].Id() in NodeIds(front) {
      assert front[i].Id() == nodes[i].Id();
    }
  }

  lemma {:induction false} ReleaseIndexExact(nodes: seq<Node>)
    requires NodesDistinct(nodes)
    ensures ReleaseIndex(nodes).Keys == NodeIds(nodes) == RefIndex(nodes).Keys
    ensures forall i :: 0 <= i < |nodes| ==>
              && ReleaseIndex(nodes)[nodes[i].Id()] == ReleaseRow(nodes[i].manifestDocumentHash, nodes[i].manifestSize)
              && RefIndex(nodes)[nodes[i].Id()] == nodes[i].inputRef
    decreases |nodes|
  {
    if nodes != [] {
      var n := |nodes| - 1;
      var front := nodes[..n];
      ReleaseIndexExact(front);
      NodeIdsSnoc(nodes);
      assert ReleaseIndex(nodes).Keys == ReleaseIndex(front).Keys + {nodes[n].Id()};
      assert RefIndex(nodes).Keys == RefIndex(front).Keys + {nodes[n].Id()};
      forall i | 0 <= i < |nodes|
        ensures && ReleaseIndex(nodes)[nodes[i].Id()] == ReleaseRow(nodes[i].manifestDocumentHash, nodes[i].manifestSize)
                && RefIndex(nodes)[nodes[i].Id()] == nodes[i].inputRef
      {
        if i < n { assert front[i] == nodes[i]; }
      }
    }
  }

  lemma {:induction false} AddArtifactsExact(index: map<(Id, Id), Artifact>, r: Id, artifacts: seq<Artifact>)
    requires ArtifactsDistinct(artifacts)
    ensures forall j :: 0 <= j < |artifacts| ==>
              var key := (r, artifacts[j].artifactId);
              key in AddArtifacts(index, r, artifacts) && AddArtifacts(index, r, artifacts)[key] == artifacts[j]
    ensures forall key :: key in AddArtifacts(index, r, artifacts) ==>
              || key in index
              || (key.0 == r && exists j :: 0 <= j < |artifacts| && artifacts[j].artifactId == key.1)
    ensures forall key :: key in index ==> key in AddArtifacts(index, r, artifacts)
    ensures forall key :: key in index && key.0 != r ==> AddArtifacts(index, r, artifacts)[key] == index[key]
    decreases |artifacts|
  {
    if artifacts != [] {
      var n := |artifacts| - 1;
      var front := artifacts[..n];
      AddArtifactsExact(index, r, front);
      forall key | key in AddArtifacts(index, r, artifacts)
        ensures key in index || (key.0 == r && exists j :: 0 <= j < |artifacts| && artifacts[j].artifactId == key.1)
      {
        if key == (r, artifacts[n].artifactId) {
          assert artifacts[n].artifactId == key.1;
        } else if key !in index {
          var j :| 0 <= j < |front| && front[j].artifactId == key.1;
          assert artifacts[j].artifactId == key.1;
        }
      }
      forall j | 0 <= j < |artifacts|
        ensures var key := (r, artifacts[j].artifactId);
                key in AddArtifacts(index, r, artifacts) && AddArtifacts(index, r, artifacts)[key] == artifacts[j]
      {
        if j < n { assert front[j] == artifacts[j]; }
      }
    }
  }

  ghost predicate HoldsArtifact(nodes: seq<Node>, i: nat, j: nat, key: (Id, Id), a: Artifact) {
    i < |nodes| && j < |nodes[i].artifacts| && key == (nodes[i].Id(), nodes[i].artifacts[j].artifactId)
    && a == nodes[i].artifacts[j]
  }

  ghost predicate NodesProper(nodes: seq<Node>) {
    NodesDistinct(nodes) && forall i :: 0 <= i < |nodes| ==> ArtifactsDistinct(nodes[i].artifacts)
  }

  lemma ClosureNodesProper(sha: Sha, c: Closure)
    requires ValidClosure(sha, c)
    ensures NodesProper(c.releases)
  {
    NormalNodesDistinct(c.releases);
    forall i | 0 <= i < |c.releases| ensures ArtifactsDistinct(c.releases[i].artifacts) {
      assert ValidNode(c.releases[i]);
      NormalArtifactsDistinct(c.releases[i].artifacts);
    }
  }

  /** Every artifact of every node is indexed as itself ... */
  lemma {:induction false} ArtifactIndexed(nodes: seq<Node>, i: nat, j: nat)
    requires NodesProper(nodes) && i < |nodes| && j < |nodes[i].artifacts|
    ensures var key := (nodes[i].Id(), nodes[i].artifacts[j].artifactId);
            key in ArtifactIndex(nodes) && ArtifactIndex(nodes)[key] == nodes[i].artifacts[j]
    decreases |nodes|
  {
    var n := |nodes| - 1;
    var front := nodes[..n];
    assert NodesProper(front) by {
      forall k | 0 <= k < |front| ensures ArtifactsDistinct(front[k].artifacts) {
        assert ArtifactsDistinct(nodes[k].artifacts);
      }
    }
    AddArtifactsExact(ArtifactIndex(front), nodes[n].Id(), nodes[n].artifacts);
    if i < n {
      assert front[i] == nodes[i];
      ArtifactIndexed(front, i, j);
    }
  }

  /** ... and every indexed key comes from one of them. */
  lemma {:induction false} IndexedArtifact(nodes: seq<Node>, key: (Id, Id)) returns (i: nat, j: nat)
    requires NodesProper(nodes) && key in ArtifactIndex(nodes)
    ensures HoldsArtifact(nodes, i, j, key, ArtifactIndex(nodes)[key])
    decreases |nodes|
  {
    var n := |nodes| - 1;
    var front := nodes[..n];
    assert NodesProper(front) by {
      forall k | 0 <= k < |front| ensures ArtifactsDistinct(front[k].artifacts) {
        assert ArtifactsDistinct(nodes[k].artifacts);
      }
    }
    AddArtifactsExact(ArtifactIndex(front), nodes[n].Id(), nodes[n].artifacts);
    if key in ArtifactIndex(front) {
      i, j := IndexedArtifact(front, key);
      assert front[i] == nodes[i];
    } else {
      i := n;
      j :| 0 <= j < |nodes[n].artifacts| && nodes[n].artifacts[j].artifactId == key.1;
    }
    ArtifactIndexed(nodes, i, j);
  }

  lemma {:induction false} ReceiptIndexExact(artifacts: seq<Artifact>)
    requires ArtifactsDistinct(artifacts)
    ensures forall j :: 0 <= j < |artifacts| ==>
              artifacts[j].artifactId in ReceiptIndex(artifacts)
              && ReceiptIndex(artifacts)[artifacts[j].artifactId] == artifacts[j]
    ensures forall a :: a in ReceiptIndex(artifacts) ==> exists j :: 0 <= j < |artifacts| && artifacts[j].artifactId == a
    decreases |artifacts|
  {
    if artifacts != [] {
      var n := |artifacts| - 1;
      var front := artifacts[..n];
      ReceiptIndexExact(front);
      forall a | a in ReceiptIndex(artifacts) ensures exists j :: 0 <= j < |artifacts| && artifacts[j].artifactId == a {
        if a == artifacts[n].artifactId {
          assert artifacts[n].artifactId == a;
        } else {
          var j :| 0 <= j < |front| && front[j].artifactId == a;
          assert artifacts[j].artifactId == a;
        }
      }
      forall j | 0 <= j < |artifacts|
        ensures artifacts[j].artifactId in ReceiptIndex(artifacts)
                && ReceiptIndex(artifacts)[artifacts[j].artifactId] == artifacts[j]
      {
        if j < n { assert front[j] == artifacts[j]; }
      }
    }
  }
}
