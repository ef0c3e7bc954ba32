/**
 What the graph validator accepts, stated over the list of releases without any graph:
 the releases can be put in an order that grows from the root, each named by an
 earlier one, with every dependency later and not newer.
 */
module GraphRules {
  import opened Basics
  import opened Contracts
  import opened Sorting
  import opened RetentionGraph

  /** An arrangement of the releases that starts with the root and only ever adds dependencies. */
  ghost predicate GrowsFrom(nodes: seq<Node>, root: Id, order: seq<Node>) {
    && multiset(order) == multiset(nodes) && order != [] && order[0].inputRef.releaseId == root
    && (forall b :: 0 < b < |order| ==> NamedBefore(order, b))
    && forall a, d :: 0 <= a < |order| && d in order[a].dependencies ==> ListedAfter(order, a, d)
  }

  /** Some earlier release depends on this one. */
  ghost predicate NamedBefore(order: seq<Node>, b: int)
    requires 0 <= b < |order|
  {
    exists a :: 0 <= a < b && order[b].inputRef.releaseId in order[a].dependencies
  }

  /** The dependency comes later, and knows no more than what depends on it. */
  ghost predicate ListedAfter(order: seq<Node>, a: int, d: Id)
    requires 0 <= a < |order|
  {
    exists b :: && a < b < |order| && order[b].inputRef.releaseId == d
                && order[b].inputRef.knowledgeCutoff <= order[a].inputRef.knowledgeCutoff
  }

  function IdsOf(nodes: seq<Node>): seq<Id> {
    seq(|nodes|, i requires 0 <= i < |nodes| => nodes[i].inputRef.releaseId)
  }

  lemma InBoth(order: seq<Node>, nodes: seq<Node>)
    requires multiset(order) == multiset(nodes)
    ensures forall n :: n in order <==> n in nodes
    ensures |order| == |nodes|
  {
    assert |multiset(order)| == |order| && |multiset(nodes)| == |nodes|;
    forall n ensures n in order <==> n in nodes {
      assert n in order <==> n in multiset(order);
      assert n in nodes <==> n in multiset(nodes);
    }
  }

  /** The graph of the list, vertex by vertex. */
  lemma {:induction false} GraphHolds(nodes: seq<Node>)
    requires NodesDistinct(nodes)
    ensures forall n :: n in nodes ==>
              && n.inputRef.releaseId in GraphOf(nodes)
              && GraphOf(nodes)[n.inputRef.releaseId] == Vertex(n.inputRef.knowledgeCutoff, n.dependencies)
    ensures forall v :: v in GraphOf(nodes) ==> exists n :: n in nodes && n.inputRef.releaseId == v
  {
    GraphOfExact(nodes);
    hide GraphOf;
    forall n | n in nodes
      ensures && n.inputRef.releaseId in GraphOf(nodes)
              && GraphOf(nodes)[n.inputRef.releaseId] == Vertex(n.inputRef.knowledgeCutoff, n.dependencies)
    {
      var i :| 0 <= i < |nodes| && nodes[i] == n;
    }
    forall v | v in GraphOf(nodes) ensures exists n :: n in nodes && n.inputRef.releaseId == v {
      var i :| 0 <= i < |nodes| && nodes[i].Id() == v;
      assert nodes[i] in nodes;
    }
  }

  lemma OrderDistinct(order: seq<Node>, nodes: seq<Node>)
    requires multiset(order) == multiset(nodes) && NodesDistinct(nodes)
    ensures NodesDistinct(order)
  {
    var id := (n: Node) => n.Id();
    assert KeysDistinct(id, nodes);
    PermutedDistinct(id, nodes, order);
    forall i, j | 0 <= i < j < |order| ensures order[i].Id() != order[j].Id() { assert id(order[i]) != id(order[j]); }
  }

  /* ---- From an arrangement to the graph ---- */

  lemma {:induction false} GrownReachable(nodes: seq<Node>, root: Id, order: seq<Node>, b: nat)
    requires NodesDistinct(nodes) && GrowsFrom(nodes, root, order) && b < |order|
    ensures Reachable(GraphOf(nodes), root, order[b].inputRef.releaseId)
    decreases b
  {
    hide GraphOf;
    GraphHolds(nodes);
    InBoth(order, nodes);
    var g := GraphOf(nodes);
    if b == 0 {
      assert WalkBetween(g, [root], root, root);
    } else {
      assert NamedBefore(order, b);
      var a :| 0 <= a < b && order[b].inputRef.releaseId in order[a].dependencies;
      GrownReachable(nodes, root, order, a);
      DependenciesReachable(g, root, order[a].inputRef.releaseId);
    }
  }

  lemma {:induction false} GrownPlaced(nodes: seq<Node>, root: Id, order: seq<Node>, i: nat, u: Id)
    requires NodesDistinct(nodes) && GrowsFrom(nodes, root, order) && i < |order|
    requires u in GraphOf(nodes) && order[i].inputRef.releaseId in GraphOf(nodes)[u].deps
    ensures u in Elements(IdsOf(order)[..i])
  {
    GraphHolds(nodes);
    InBoth(order, nodes);
    OrderDistinct(order, nodes);
    hide GraphOf, NamedBefore;
    var n :| n in nodes && n.inputRef.releaseId == u;
    var a :| 0 <= a < |order| && order[a] == n;
    assert ListedAfter(order, a, order[i].inputRef.releaseId);
    var b :| a < b < |order| && order[b].inputRef.releaseId == order[i].inputRef.releaseId;
    assert order[b].Id() == order[i].Id();
    assert IdsOf(order)[..i][a] == u;
  }

  lemma {:induction false} ArrangedKeys(nodes: seq<Node>, order: seq<Node>)
    requires NodesDistinct(nodes) && multiset(order) == multiset(nodes)
    ensures Elements(IdsOf(order)) == GraphOf(nodes).Keys && Distinct(IdsOf(order))
  {
    GraphHolds(nodes);
    InBoth(order, nodes);
    OrderDistinct(order, nodes);
    hide GraphOf;
    var g, ids := GraphOf(nodes), IdsOf(order);
    forall i, j | 0 <= i < j < |ids| ensures ids[i] != ids[j] { assert order[i].Id() != order[j].Id(); }
    forall v | v in ids ensures v in g.Keys {
      var i :| 0 <= i < |ids| && ids[i] == v;
      assert order[i] in nodes;
    }
    forall v | v in g.Keys ensures v in ids {
      var n :| n in nodes && n.inputRef.releaseId == v;
      var a :| 0 <= a < |order| && order[a] == n;
      assert ids[a] == v;
    }
  }

  lemma {:induction false} GrownTopological(nodes: seq<Node>, root: Id, order: seq<Node>)
    requires NodesDistinct(nodes) && GrowsFrom(nodes, root, order)
    ensures Topological(GraphOf(nodes), IdsOf(order)) && Distinct(IdsOf(order))
    ensures Elements(IdsOf(order)) == GraphOf(nodes).Keys
  {
    ArrangedKeys(nodes, order);
    hide GraphOf, NamedBefore, ListedAfter, Elements;
    var g, ids := GraphOf(nodes), IdsOf(order);
    forall i, u | 0 <= i < |ids| && u in Predecessors(g, g.Keys, ids[i]) ensures u in Elements(ids[..i]) {
      GrownPlaced(nodes, root, order, i, u);
    }
  }

  lemma {:induction false} GrownAccepted(nodes: seq<Node>, root: Id, order: seq<Node>)
    requires NodesDistinct(nodes) && GrowsFrom(nodes, root, order)
    ensures Accepted(GraphOf(nodes), root)
  {
    hide GraphOf, Reachable, Acyclic, Topological;
    GraphHolds(nodes);
    InBoth(order, nodes);
    var g := GraphOf(nodes);
    forall v | v in g
      ensures Reachable(g, root, v)
      ensures forall d :: d in g[v].deps ==> d in g && g[d].cutoff <= g[v].cutoff
    {
      var n :| n in nodes && n.inputRef.releaseId == v;
      var a :| 0 <= a < |order| && order[a] == n;
      GrownReachable(nodes, root, order, a);
      forall d | d in g[v].deps ensures d in g && g[d].cutoff <= g[v].cutoff {
        assert ListedAfter(order, a, d);
        var b :| a < b < |order| && order[b].inputRef.releaseId == d
                 && order[b].inputRef.knowledgeCutoff <= order[a].inputRef.knowledgeCutoff;
        assert order[b] in nodes;
      }
    }
    assert order[0] in nodes;
    GrownTopological(nodes, root, order);
    TopologicalAcyclic(g, IdsOf(order));
  }

  /* ---- From the graph to an arrangement ---- */

  /** A topological order of what is left, after the vertices already placed. */
  lemma {:induction false} OrderExists(g: Graph, done: seq<Id>, rest: set<Id>) returns (order: seq<Id>)
    requires Acyclic(g) && rest <= g.Keys && Elements(done) == g.Keys - rest && Distinct(done) && Topological(g, done)
    requires Done(g, rest)
    ensures Topological(g, order) && Distinct(order) && Elements(order) == g.Keys
    decreases |rest|
  {
    hide Topological, Done, Acyclic, Predecessors, Distinct, Elements;
    if rest == {} {
      order := done;
    } else {
      if forall v :: v in rest ==> Predecessors(g, rest, v) != {} { SourcelessIsCyclic(g, rest); }
      var u :| u in rest && Predecessors(g, rest, u) == {};
      TakeSource(g, done, rest, u);
      SubsetSmaller(rest - {u}, rest);
      order := OrderExists(g, done + [u], rest - {u});
    }
  }

  lemma TopologicalExists(g: Graph) returns (order: seq<Id>)
    requires Acyclic(g)
    ensures Topological(g, order) && Distinct(order) && Elements(order) == g.Keys
  {
    assert Elements<Id>([]) == {} == g.Keys - g.Keys;
    assert Topological(g, []) && Distinct<Id>([]) && Done(g, g.Keys);
    hide *;
    order := OrderExists(g, [], g.Keys);
  }

  lemma NoIds(nodes: seq<Node>)
    ensures Elements(IdsOf(nodes)) == {} ==> nodes == []
  {
    if nodes != [] { assert IdsOf(nodes)[0] in Elements(IdsOf(nodes)); }
  }

  lemma PutBack(nodes: seq<Node>, i: nat, front: seq<Node>)
    requires i < |nodes| && multiset(front) == multiset(nodes[..i] + nodes[i + 1..])
    ensures multiset(front + [nodes[i]]) == multiset(nodes)
    ensures IdsOf(front + [nodes[i]]) == IdsOf(front) + [nodes[i].inputRef.releaseId]
  {
    assert nodes == nodes[..i] + [nodes[i]] + nodes[i + 1..];
  }

  lemma FrontElements(ids: seq<Id>)
    requires ids != [] && Distinct(ids)
    ensures Distinct(ids[..|ids| - 1]) && Elements(ids[..|ids| - 1]) == Elements(ids) - {ids[|ids| - 1]}
  {
    var front := ids[..|ids| - 1];
    assert ids == front + [ids[|ids| - 1]];
    forall i | 0 <= i < |front| ensures front[i] != ids[|ids| - 1] {}
  }

  lemma IdsSplit(a: seq<Node>, b: seq<Node>)
    ensures IdsOf(a + b) == IdsOf(a) + IdsOf(b)
    ensures Elements(IdsOf(a + b)) == Elements(IdsOf(a)) + Elements(IdsOf(b))
  {
    assert IdsOf(a + b) == IdsOf(a) + IdsOf(b);
  }

  lemma OthersDistinct(nodes: seq<Node>, i: nat)
    requires NodesDistinct(nodes) && i < |nodes|
    ensures NodesDistinct(nodes[..i] + nodes[i + 1..])
    ensures nodes[i].inputRef.releaseId !in IdsOf(nodes[..i] + nodes[i + 1..])
  {
    var others, last := nodes[..i] + nodes[i + 1..], nodes[i].inputRef.releaseId;
    forall j | 0 <= j < |others| ensures others[j] == nodes[if j < i then j else j + 1] {}
    forall j | 0 <= j < |others| ensures others[j].Id() != last {
      assert nodes[if j < i then j else j + 1].Id() != nodes[i].Id();
    }
  }

  lemma OthersElements(nodes: seq<Node>, i: nat)
    requires NodesDistinct(nodes) && i < |nodes|
    ensures var others := nodes[..i] + nodes[i + 1..];
            NodesDistinct(others) && Elements(IdsOf(others)) == Elements(IdsOf(nodes)) - {nodes[i].inputRef.releaseId}
  {
    var others, last := nodes[..i] + nodes[i + 1..], nodes[i].inputRef.releaseId;
    OthersDistinct(nodes, i);
    IdsSplit(nodes[..i], nodes[i..]);
    IdsSplit([nodes[i]], nodes[i + 1..]);
    IdsSplit(nodes[..i], nodes[i + 1..]);
    assert nodes == nodes[..i] + nodes[i..] && nodes[i..] == [nodes[i]] + nodes[i + 1..];
    assert IdsOf([nodes[i]]) == [last];
    assert last !in Elements(IdsOf(others));
    hide IdsOf, NodesDistinct;
    assert Elements([last]) == {last};
    hide Elements;
  }

  lemma WithoutNode(nodes: seq<Node>, i: nat, ids: seq<Id>)
    requires NodesDistinct(nodes) && Distinct(ids) && ids != [] && Elements(ids) == Elements(IdsOf(nodes))
    requires i < |nodes| && nodes[i].inputRef.releaseId == ids[|ids| - 1]
    ensures var others, front := nodes[..i] + nodes[i + 1..], ids[..|ids| - 1];
            NodesDistinct(others) && Distinct(front) && Elements(front) == Elements(IdsOf(others))
  {
    hide *;
    FrontElements(ids);
    OthersElements(nodes, i);
  }

  /** The releases in the order of their identifiers. */
  lemma {:induction false} NodesInOrder(nodes: seq<Node>, ids: seq<Id>) returns (order: seq<Node>)
    requires NodesDistinct(nodes) && Distinct(ids) && Elements(ids) == Elements(IdsOf(nodes))
    ensures multiset(order) == multiset(nodes) && IdsOf(order) == ids
    decreases |ids|
  {
    if ids == [] {
      NoIds(nodes);
      order := [];
    } else {
      var k := |ids| - 1;
      assert ids[k] in Elements(IdsOf(nodes));
      var i :| 0 <= i < |nodes| && nodes[i].inputRef.releaseId == ids[k];
      var others := nodes[..i] + nodes[i + 1..];
      WithoutNode(nodes, i, ids);
      var front := NodesInOrder(others, ids[..k]);
      order := front + [nodes[i]];
      PutBack(nodes, i, front);
      hide Distinct, Elements;
      assert ids == ids[..k] + [ids[k]];
    }
  }

  /** What an arrangement in topological order has in common with the graph. */
  ghost predicate Arranged(nodes: seq<Node>, root: Id, order: seq<Node>) {
    && NodesDistinct(nodes) && Accepted(GraphOf(nodes), root) && multiset(order) == multiset(nodes)
    && Topological(GraphOf(nodes), IdsOf(order)) && Distinct(IdsOf(order))
  }

  lemma {:induction false} PredecessorPlaced(nodes: seq<Node>, root: Id, order: seq<Node>, u: Id, b: nat)
    requires Arranged(nodes, root, order) && b < |order|
    requires u in Predecessors(GraphOf(nodes), GraphOf(nodes).Keys, IdsOf(order)[b])
    ensures exists a :: 0 <= a < b && order[a].inputRef.releaseId == u
  {
    hide GraphOf, Accepted;
    var ids := IdsOf(order);
    assert u in Elements(ids[..b]);
    var a :| 0 <= a < b && ids[..b][a] == u;
    assert order[a].inputRef.releaseId == u;
  }

  lemma FirstIsRoot(nodes: seq<Node>, root: Id, order: seq<Node>)
    requires Arranged(nodes, root, order)
    ensures order != [] && order[0].inputRef.releaseId == root
  {
    var g := GraphOf(nodes);
    RootAloneIsReady(g, root);
    assert root in g;
    GraphHolds(nodes);
    InBoth(order, nodes);
    hide GraphOf, Accepted;
    var r :| r in nodes && r.inputRef.releaseId == root;
    assert order != [] && order[0] in nodes;
    if u :| u in Predecessors(g, g.Keys, IdsOf(order)[0]) { PredecessorPlaced(nodes, root, order, u, 0); }
  }

  lemma EachNamed(nodes: seq<Node>, root: Id, order: seq<Node>, b: nat)
    requires Arranged(nodes, root, order) && 0 < b < |order|
    ensures NamedBefore(order, b)
  {
    var g := GraphOf(nodes);
    FirstIsRoot(nodes, root, order);
    RootAloneIsReady(g, root);
    GraphHolds(nodes);
    InBoth(order, nodes);
    assert IdsOf(order)[b] != IdsOf(order)[0];
    assert order[b] in nodes;
    var v := IdsOf(order)[b];
    assert v in g && v != root;
    hide GraphOf, Accepted, Topological, Distinct, NodesDistinct, IdsOf;
    var u :| u in Predecessors(g, g.Keys, v);
    PredecessorPlaced(nodes, root, order, u, b);
    var a :| 0 <= a < b && order[a].inputRef.releaseId == u;
    assert order[a] in nodes;
  }

  /** The dependency of a placed release is a release too, and not newer. */
  lemma DependencyPlaced(nodes: seq<Node>, root: Id, order: seq<Node>, a: nat, d: Id) returns (b: nat)
    requires Arranged(nodes, root, order) && a < |order| && d in order[a].dependencies
    ensures b < |order| && order[b].inputRef.releaseId == d
    ensures order[b].inputRef.knowledgeCutoff <= order[a].inputRef.knowledgeCutoff
    ensures order[a].inputRef.releaseId in Predecessors(GraphOf(nodes), GraphOf(nodes).Keys, IdsOf(order)[b])
  {
    var g := GraphOf(nodes);
    GraphHolds(nodes);
    InBoth(order, nodes);
    assert order[a] in nodes;
    assert d in g && g[d].cutoff <= g[order[a].inputRef.releaseId].cutoff;
    hide GraphOf, Accepted, Topological, Distinct, NodesDistinct;
    var n :| n in nodes && n.inputRef.releaseId == d;
    b :| 0 <= b < |order| && order[b] == n;
  }

  lemma EachListed(nodes: seq<Node>, root: Id, order: seq<Node>, a: nat, d: Id)
    requires Arranged(nodes, root, order) && a < |order| && d in order[a].dependencies
    ensures ListedAfter(order, a, d)
  {
    hide GraphOf, Accepted, Topological, NodesDistinct, Predecessors;
    var b := DependencyPlaced(nodes, root, order, a, d);
    PredecessorPlaced(nodes, root, order, order[a].inputRef.releaseId, b);
    var c :| 0 <= c < b && order[c].inputRef.releaseId == order[a].inputRef.releaseId;
    assert IdsOf(order)[c] == IdsOf(order)[a];
  }

  lemma ArrangedGrows(nodes: seq<Node>, root: Id, order: seq<Node>)
    requires Arranged(nodes, root, order)
    ensures GrowsFrom(nodes, root, order)
  {
    assert multiset(order) == multiset(nodes);
    hide Arranged, NamedBefore, ListedAfter;
    FirstIsRoot(nodes, root, order);
    forall b | 0 < b < |order| ensures NamedBefore(order, b) { EachNamed(nodes, root, order, b); }
    forall a, d | 0 <= a < |order| && d in order[a].dependencies ensures ListedAfter(order, a, d) {
      EachListed(nodes, root, order, a, d);
    }
  }

  /** A closure's graph is accepted exactly when its releases can be arranged so. */
  lemma {:induction false} GraphExact(nodes: seq<Node>, root: Id)
    requires NodesDistinct(nodes)
    ensures Accepted(GraphOf(nodes), root) <==> exists order :: GrowsFrom(nodes, root, order)
  {
    hide GraphOf;
    if Accepted(GraphOf(nodes), root) {
      var ids := TopologicalExists(GraphOf(nodes));
      ArrangedKeys(nodes, nodes);
      var order := NodesInOrder(nodes, ids);
      ArrangedGrows(nodes, root, order);
    }
    if order :| GrowsFrom(nodes, root, order) { GrownAccepted(nodes, root, order); }
  }
}
