/**
 The release dependency graph of a retention closure: the worklist and Kahn
 passes of the validator against what a well-formed closure graph is.
 */
module RetentionGraph {
  import opened Basics
  import opened Contracts

  datatype Vertex = Vertex(cutoff: Time, deps: seq<Id>)
  type Graph = map<Id, Vertex>

  datatype GraphError = RootAbsent | DependencyAbsent | CutoffRises | Unreachable | Cyclic

  /* ---- What the validator is to decide ---- */

  ghost predicate ClosedUnder(g: Graph) {
    forall v :: v in g ==> forall d :: d in g[v].deps ==> d in g
  }

  ghost predicate CutoffsDescend(g: Graph) {
    forall v :: v in g ==> forall d :: d in g[v].deps && d in g ==> g[d].cutoff <= g[v].cutoff
  }

  ghost predicate StepAt(g: Graph, p: seq<Id>, i: nat)
    requires 0 < i < |p|
  {
    p[i - 1] in g && p[i] in g[p[i - 1]].deps
  }

  ghost predicate IsWalk(g: Graph, p: seq<Id>) {
    && p != [] && p[0] in g
    && forall i :: 0 < i < |p| ==> StepAt(g, p, i)
  }

  ghost predicate WalkBetween(g: Graph, p: seq<Id>, a: Id, b: Id) {
    IsWalk(g, p) && p[0] == a && p[|p| - 1] == b
  }

  ghost predicate Reachable(g: Graph, a: Id, b: Id) {
    exists p :: WalkBetween(g, p, a, b)
  }

  ghost predicate Acyclic(g: Graph) {
    forall p :: IsWalk(g, p) && |p| > 1 ==> p[0] != p[|p| - 1]
  }

  ghost predicate Accepted(g: Graph, root: Id) {
    && root in g && ClosedUnder(g) && CutoffsDescend(g)
    && (forall v :: v in g ==> Reachable(g, root, v))
    && Acyclic(g)
  }

  function GraphOf(nodes: seq<Node>): Graph
    decreases |nodes|
  {
    if nodes == [] then map[]
    else
      var last := nodes[|nodes| - 1];
      GraphOf(nodes[..|nodes| - 1])[last.Id() := Vertex(last.inputRef.knowledgeCutoff, last.dependencies)]
  }

  ghost predicate ValidClosure(sha: Sha, c: Closure) {
    ClosureShape(sha, c) && Accepted(GraphOf(c.releases), c.root.releaseId)
  }

  lemma {:induction false} GraphOfExact(nodes: seq<Node>)
    requires NodesDistinct(nodes)
    ensures forall i :: 0 <= i < |nodes| ==>
              && nodes[i].Id() in GraphOf(nodes)
              && GraphOf(nodes)[nodes[i].Id()] == Vertex(nodes[i].inputRef.knowledgeCutoff, nodes[i].dependencies)
    ensures forall v :: v in GraphOf(nodes) ==> exists i :: 0 <= i < |nodes| && nodes[i].Id() == v
    decreases |nodes|
  {
    if nodes != [] {
      var n := |nodes| - 1;
      var front := nodes[..n];
      GraphOfExact(front);
      forall v | v in GraphOf(nodes) ensures exists i :: 0 <= i < |nodes| && nodes[i].Id() == v {
        if v == nodes[n].Id() {
          assert nodes[n].Id() == v;
        } else {
          var i :| 0 <= i < |front| && front[i].Id() == v;
          assert nodes[i].Id() == v;
        }
      }
      forall i | 0 <= i < |nodes|
        ensures && nodes[i].Id() in GraphOf(nodes)
                && GraphOf(nodes)[nodes[i].Id()] == Vertex(nodes[i].inputRef.knowledgeCutoff, nodes[i].dependencies)
      {
        if i < n { assert front[i] == nodes[i]; }
      }
    }
  }

  /* ---- Consequences for accepted closures ---- */

  /** Along any walk cutoffs never rise. */
  lemma {:induction false} WalkDescends(g: Graph, p: seq<Id>)
    requires ClosedUnder(g) && CutoffsDescend(g) && IsWalk(g, p)
    ensures p[|p| - 1] in g && g[p[|p| - 1]].cutoff <= g[p[0]].cutoff
    decreases |p|
  {
    if |p| > 1 {
      var front := p[..|p| - 1];
      WalkPrefix(g, p);
      WalkDescends(g, front);
      assert StepAt(g, p, |p| - 1);
    }
  }

  lemma WalkPrefix(g: Graph, p: seq<Id>)
    requires IsWalk(g, p) && |p| > 1
    ensures IsWalk(g, p[..|p| - 1])
  {
    var front := p[..|p| - 1];
    forall i | 0 < i < |front| ensures StepAt(g, front, i) { assert StepAt(g, p, i); }
  }

  lemma WalkExtend(g: Graph, p: seq<Id>, d: Id)
    requires IsWalk(g, p) && p[|p| - 1] in g && d in g[p[|p| - 1]].deps
    ensures IsWalk(g, p + [d])
  {
    var q := p + [d];
    forall i | 0 < i < |q| ensures StepAt(g, q, i) {
      if i < |p| { assert StepAt(g, p, i); }
    }
  }

  lemma WalkPrepend(g: Graph, u: Id, p: seq<Id>)
    requires IsWalk(g, p) && u in g && p[0] in g[u].deps
    ensures IsWalk(g, [u] + p)
  {
    var q := [u] + p;
    forall i | 0 < i < |q| ensures StepAt(g, q, i) {
      if i > 1 { assert StepAt(g, p, i - 1); }
    }
  }

  /** No retained release knows more than the root does. */
  lemma CutoffsBounded(g: Graph, root: Id, v: Id)
    requires Accepted(g, root) && v in g
    ensures g[v].cutoff <= g[root].cutoff
  {
    var p :| WalkBetween(g, p, root, v);
    WalkDescends(g, p);
  }

  /** On an accepted graph the root alone has no incoming edge. */
  lemma RootAloneIsReady(g: Graph, root: Id)
    requires Accepted(g, root)
    ensures forall v :: v in g ==> (Predecessors(g, g.Keys, v) == {} <==> v == root)
  {
    forall v | v in g ensures Predecessors(g, g.Keys, v) == {} <==> v == root {
      var p :| WalkBetween(g, p, root, v);
      if v != root {
        assert StepAt(g, p, |p| - 1);
        WalkInside(g, p, |p| - 2);
        assert p[|p| - 2] in Predecessors(g, g.Keys, v);
      } else if u :| u in Predecessors(g, g.Keys, v) {
        var q :| WalkBetween(g, q, root, u);
        WalkExtend(g, q, v);
      }
    }
  }

  lemma {:induction false} WalkInside(g: Graph, p: seq<Id>, i: nat)
    requires IsWalk(g, p) && ClosedUnder(g) && i < |p|
    ensures p[i] in g
  {
    if i > 0 { assert StepAt(g, p, i); }
  }

  /* ---- Reachability ---- */

  /** A set holding the root and closed under dependencies holds all it reaches. */
  lemma {:induction false} ClosedHoldsWalk(g: Graph, s: set<Id>, p: seq<Id>)
    requires IsWalk(g, p) && p[0] in s
    requires forall v :: v in s ==> v in g && forall d :: d in g[v].deps ==> d in s
    ensures p[|p| - 1] in s
    decreases |p|
  {
    if |p| > 1 {
      WalkPrefix(g, p);
      ClosedHoldsWalk(g, s, p[..|p| - 1]);
      assert StepAt(g, p, |p| - 1);
    }
  }

  ghost predicate WorklistInvariant(g: Graph, root: Id, reachable: set<Id>, pending: seq<Id>) {
    && reachable <= g.Keys
    && (root in reachable || root in pending)
    && (forall v :: v in pending ==> v in g && Reachable(g, root, v))
    && (forall v :: v in reachable ==> Reachable(g, root, v))
    && (forall v, d :: v in reachable && d in g[v].deps ==> d in reachable || d in pending)
  }

  method ReachableFrom(g: Graph, root: Id) returns (reachable: set<Id>)
    requires root in g && ClosedUnder(g)
    ensures forall v :: v in reachable <==> v in g && Reachable(g, root, v)
  {
    hide WorklistInvariant, Reachable;
    reachable := {};
    var pending := [root];
    WorklistStart(g, root);
    while pending != []
      invariant WorklistInvariant(g, root, reachable, pending)
      decreases |g.Keys - reachable|, |pending|
    {
      var v := pending[|pending| - 1];
      WorklistStep(g, root, reachable, pending);
      pending := pending[..|pending| - 1];
      if v in reachable { continue; }
      SubsetSmaller(g.Keys - (reachable + {v}), g.Keys - reachable);
      reachable := reachable + {v};
      pending := pending + g[v].deps;
    }
    WorklistEnd(g, root, reachable);
  }

  lemma WorklistStart(g: Graph, root: Id)
    requires root in g
    ensures WorklistInvariant(g, root, {}, [root])
  {
    assert WalkBetween(g, [root], root, root);
  }

  /** Popping a vertex keeps the invariant, with its dependencies if it is new. */
  lemma WorklistStep(g: Graph, root: Id, reachable: set<Id>, pending: seq<Id>)
    requires ClosedUnder(g) && WorklistInvariant(g, root, reachable, pending) && pending != []
    ensures var v := pending[|pending| - 1];
            var rest := pending[..|pending| - 1];
            && v in g
            && (v in reachable ==> WorklistInvariant(g, root, reachable, rest))
            && (v !in reachable ==>
                  && WorklistInvariant(g, root, reachable + {v}, rest + g[v].deps)
                  && g.Keys - (reachable + {v}) < g.Keys - reachable)
  {
    hide Reachable;
    var v := pending[|pending| - 1];
    assert pending == pending[..|pending| - 1] + [v];
    DependenciesReachable(g, root, v);
    assert v !in reachable ==> v in g.Keys - reachable;
  }

  lemma WorklistEnd(g: Graph, root: Id, reachable: set<Id>)
    requires WorklistInvariant(g, root, reachable, [])
    ensures forall v :: v in reachable <==> v in g && Reachable(g, root, v)
  {
    forall v | v in g && Reachable(g, root, v) ensures v in reachable {
      var p :| WalkBetween(g, p, root, v);
      ClosedHoldsWalk(g, reachable, p);
    }
  }

  lemma SubsetSmaller(a: set<Id>, b: set<Id>)
    requires a < b
    ensures |a| < |b|
  {
    assert |b| == |a| + |b - a| by { assert b == a + (b - a); }
  }

  lemma DependenciesReachable(g: Graph, root: Id, v: Id)
    requires Reachable(g, root, v) && v in g
    ensures forall d :: d in g[v].deps ==> Reachable(g, root, d)
  {
    var p :| WalkBetween(g, p, root, v);
    forall d | d in g[v].deps ensures Reachable(g, root, d) {
      WalkExtend(g, p, d);
      assert WalkBetween(g, p + [d], root, d);
    }
  }

  /* ---- Kahn's algorithm ---- */

  ghost function Predecessors(g: Graph, s: set<Id>, v: Id): set<Id> {
    set u | u in s && u in g && v in g[u].deps
  }

  /** Each vertex of the order has all its predecessors before it. */
  ghost predicate Topological(g: Graph, order: seq<Id>) {
    forall i :: 0 <= i < |order| ==> Predecessors(g, g.Keys, order[i]) <= Elements(order[..i])
  }

  lemma {:induction false} WalkAdvances(g: Graph, order: seq<Id>, p: seq<Id>, j: nat)
    requires Topological(g, order) && ClosedUnder(g) && IsWalk(g, p) && Elements(order) == g.Keys
    requires j < |order| && order[j] == p[|p| - 1]
    ensures exists i :: 0 <= i <= j && order[i] == p[0] && (|p| > 1 ==> i < j)
    decreases |p|
  {
    if |p| == 1 {
      assert order[j] == p[0];
    } else {
      var q := p[..|p| - 1];
      var u := p[|p| - 2];
      WalkPrefix(g, p);
      assert StepAt(g, p, |p| - 1);
      assert u in Predecessors(g, g.Keys, order[j]);
      assert u in Elements(order[..j]);
      var k :| 0 <= k < j && order[..j][k] == u;
      assert order[k] == q[|q| - 1];
      WalkAdvances(g, order, q, k);
    }
  }

  lemma TopologicalAcyclic(g: Graph, order: seq<Id>)
    requires Topological(g, order) && Distinct(order) && ClosedUnder(g) && Elements(order) == g.Keys
    ensures Acyclic(g)
  {
    forall p | IsWalk(g, p) && |p| > 1 ensures p[0] != p[|p| - 1] {
      WalkInside(g, p, |p| - 1);
      assert p[|p| - 1] in Elements(order);
      var j :| 0 <= j < |order| && order[j] == p[|p| - 1];
      WalkAdvances(g, order, p, j);
    }
  }

  /** A walk of any length that never leaves a set without sources. */
  lemma {:induction false} BackwardWalk(g: Graph, s: set<Id>, n: nat) returns (p: seq<Id>)
    requires s != {} && s <= g.Keys && forall v :: v in s ==> Predecessors(g, s, v) != {}
    ensures |p| == n + 1 && IsWalk(g, p) && forall i :: 0 <= i < |p| ==> p[i] in s
  {
    if n == 0 {
      var v :| v in s;
      p := [v];
    } else {
      var q := BackwardWalk(g, s, n - 1);
      var u :| u in Predecessors(g, s, q[0]);
      WalkPrepend(g, u, q);
      p := [u] + q;
    }
  }

  lemma Repeats(p: seq<Id>, s: set<Id>)
    requires |p| > |s| && forall i :: 0 <= i < |p| ==> p[i] in s
    ensures exists i, j :: 0 <= i < j < |p| && p[i] == p[j]
  {
    if Distinct(p) { DistinctCount(p, s); }
  }

  lemma SubWalk(g: Graph, p: seq<Id>, i: nat, j: nat)
    requires IsWalk(g, p) && i < j < |p| && p[i] in g
    ensures IsWalk(g, p[i..j + 1])
  {
    var q := p[i..j + 1];
    forall k | 0 < k < |q| ensures StepAt(g, q, k) { assert StepAt(g, p, i + k); }
  }

  lemma SourcelessIsCyclic(g: Graph, s: set<Id>)
    requires s != {} && s <= g.Keys && forall v :: v in s ==> Predecessors(g, s, v) != {}
    ensures !Acyclic(g)
  {
    hide Predecessors, Distinct, IsWalk;
    var p := BackwardWalk(g, s, |s|);
    Repeats(p, s);
    var i, j :| 0 <= i < j < |p| && p[i] == p[j];
    SubWalk(g, p, i, j);
    var cycle := p[i..j + 1];
    assert cycle[0] == cycle[|cycle| - 1];
  }

  ghost predicate Counts(g: Graph, s: set<Id>, indegree: map<Id, int>) {
    indegree.Keys == g.Keys && forall v :: v in g ==> indegree[v] == |Predecessors(g, s, v)|
  }

  ghost predicate DepsDistinct(g: Graph) {
    forall v :: v in g ==> Distinct(g[v].deps)
  }

  /** Within one vertex's dependency list: `j` of them are already counted. */
  ghost predicate CountsUpTo(g: Graph, s: set<Id>, u: Id, j: nat, indegree: map<Id, int>)
    requires u in g && j <= |g[u].deps|
  {
    && indegree.Keys == g.Keys
    && forall v :: v in g ==> indegree[v] == |Predecessors(g, s, v)| + (if v in g[u].deps[..j] then 1 else 0)
  }

  lemma AddVertex(g: Graph, s: set<Id>, u: Id, v: Id)
    requires u in g && u !in s
    ensures |Predecessors(g, s + {u}, v)| == |Predecessors(g, s, v)| + (if v in g[u].deps then 1 else 0)
  {
    if v in g[u].deps {
      assert Predecessors(g, s + {u}, v) == Predecessors(g, s, v) + {u};
    } else {
      assert Predecessors(g, s + {u}, v) == Predecessors(g, s, v);
    }
  }

  lemma ZeroCounts(g: Graph, indegree: map<Id, int>)
    requires indegree.Keys == g.Keys && forall v :: v in g ==> indegree[v] == 0
    ensures Counts(g, {}, indegree)
  {
    assert forall v :: v in g ==> Predecessors(g, {}, v) == {};
  }

  method ZeroIndegrees(g: Graph) returns (indegree: map<Id, int>)
    ensures Counts(g, {}, indegree)
  {
    indegree := map v | v in g :: 0;
    ZeroCounts(g, indegree);
  }

  method CountIndegrees(g: Graph) returns (indegree: map<Id, int>)
    requires ClosedUnder(g) && DepsDistinct(g)
    ensures Counts(g, g.Keys, indegree)
  {
    hide *;
    indegree := ZeroIndegrees(g);
    var todo := g.Keys;
    ghost var done: set<Id> := {};
    while todo != {}
      invariant todo <= g.Keys && done == g.Keys - todo
      invariant Counts(g, done, indegree)
      decreases todo
    {
      var u :| u in todo;
      todo := todo - {u};
      indegree := AddDependencies(g, done, u, indegree);
      done := done + {u};
    }
    assert done == g.Keys;
  }

  method AddDependencies(g: Graph, ghost s: set<Id>, u: Id, counts: map<Id, int>) returns (indegree: map<Id, int>)
    requires ClosedUnder(g) && DepsDistinct(g) && u in g && u !in s && Counts(g, s, counts)
    ensures Counts(g, s + {u}, indegree)
  {
    indegree := counts;
    for j := 0 to |g[u].deps|
      invariant CountsUpTo(g, s, u, j, indegree)
    {
      var d := g[u].deps[j];
      assert g[u].deps[..j + 1] == g[u].deps[..j] + [d];
      indegree := indegree[d := indegree[d] + 1];
    }
    assert g[u].deps[..|g[u].deps|] == g[u].deps;
    forall v | v in g ensures indegree[v] == |Predecessors(g, s + {u}, v)| { AddVertex(g, s, u, v); }
  }

  ghost predicate ReadyExact(g: Graph, rest: set<Id>, indegree: map<Id, int>, ready: seq<Id>) {
    && Distinct(ready)
    && indegree.Keys == g.Keys
    && forall v :: v in ready <==> v in g && v in rest && indegree[v] == 0
  }

  /** Half-way through the dependencies of a removed source: `j` are done. */
  ghost predicate Removing(g: Graph, left: set<Id>, u: Id, j: nat, indegree: map<Id, int>, ready: seq<Id>)
    requires u in g && j <= |g[u].deps|
  {
    && ReadyExact(g, left, indegree, ready)
    && forall v :: v in g ==>
         indegree[v] == |Predecessors(g, left, v)| + (if v in g[u].deps[j..] then 1 else 0)
  }

  lemma RemovingStart(g: Graph, rest: set<Id>, u: Id, counts: map<Id, int>, ready: seq<Id>)
    requires u in rest && rest <= g.Keys && Counts(g, rest, counts)
    requires ReadyExact(g, rest - {u}, counts, ready)
    ensures Removing(g, rest - {u}, u, 0, counts, ready)
  {
    var left := rest - {u};
    assert left + {u} == rest;
    forall v | v in g ensures counts[v] == |Predecessors(g, left, v)| + (if v in g[u].deps then 1 else 0) {
      AddVertex(g, left, u, v);
    }
  }

  lemma DistinctTail(deps: seq<Id>, j: nat)
    requires Distinct(deps) && j < |deps|
    ensures deps[j] !in deps[j + 1..]
    ensures forall v :: v in deps[j..] <==> v == deps[j] || v in deps[j + 1..]
  {
    assert deps[j..] == [deps[j]] + deps[j + 1..];
  }

  lemma RemovingStep(g: Graph, left: set<Id>, u: Id, j: nat, indegree: map<Id, int>, ready: seq<Id>)
    requires ClosedUnder(g) && DepsDistinct(g) && u in g && j < |g[u].deps| && g[u].deps[j] in left
    requires Removing(g, left, u, j, indegree, ready)
    ensures var d := g[u].deps[j];
            && d in indegree
            && Removing(g, left, u, j + 1, indegree[d := indegree[d] - 1],
                        if indegree[d] - 1 == 0 then ready + [d] else ready)
  {
    var d := g[u].deps[j];
    assert d in g && Distinct(g[u].deps) && d in g[u].deps[j..];
    hide Predecessors, ClosedUnder, DepsDistinct, Distinct, ReadyExact;
    DistinctTail(g[u].deps, j);
    ReadyKeys(g, left, indegree, ready);
    assert indegree[d] >= 1;
    ReadyStep(g, left, indegree, ready, d);
  }

  lemma ReadyKeys(g: Graph, left: set<Id>, indegree: map<Id, int>, ready: seq<Id>)
    requires ReadyExact(g, left, indegree, ready)
    ensures indegree.Keys == g.Keys
  {
  }

  /** A counter that drops to zero puts its vertex on the ready list. */
  lemma ReadyStep(g: Graph, left: set<Id>, indegree: map<Id, int>, ready: seq<Id>, d: Id)
    requires ReadyExact(g, left, indegree, ready) && d in g && d in left && indegree[d] >= 1
    ensures ReadyExact(g, left, indegree[d := indegree[d] - 1], if indegree[d] - 1 == 0 then ready + [d] else ready)
  {
    assert d !in ready;
  }

  /** Takes one source out: its dependencies lose an incoming edge. */
  method RemoveSource(g: Graph, ghost rest: set<Id>, u: Id, counts: map<Id, int>, queue: seq<Id>)
    returns (indegree: map<Id, int>, ready: seq<Id>)
    requires ClosedUnder(g) && DepsDistinct(g) && u in rest && rest <= g.Keys
    requires Counts(g, rest, counts) && ReadyExact(g, rest - {u}, counts, queue)
    requires forall j :: 0 <= j < |g[u].deps| ==> g[u].deps[j] in rest - {u}
    ensures Counts(g, rest - {u}, indegree) && ReadyExact(g, rest - {u}, indegree, ready)
  {
    hide *;
    indegree, ready := counts, queue;
    RemovingStart(g, rest, u, counts, queue);
    for j := 0 to |g[u].deps|
      invariant Removing(g, rest - {u}, u, j, indegree, ready)
    {
      RemovingStep(g, rest - {u}, u, j, indegree, ready);
      var d := g[u].deps[j];
      indegree := indegree[d := indegree[d] - 1];
      if indegree[d] == 0 { ready := ready + [d]; }
    }
    RemovingEnd(g, rest - {u}, u, indegree, ready);
  }

  lemma RemovingEnd(g: Graph, left: set<Id>, u: Id, indegree: map<Id, int>, ready: seq<Id>)
    requires u in g && Removing(g, left, u, |g[u].deps|, indegree, ready)
    ensures Counts(g, left, indegree) && ReadyExact(g, left, indegree, ready)
  {
  }

  /** The vertices taken so far, those left, and what the counters say of them. */
  ghost predicate KahnState(g: Graph, order: seq<Id>, rest: set<Id>, indegree: map<Id, int>, ready: seq<Id>) {
    && rest <= g.Keys && Elements(order) == g.Keys - rest && Distinct(order)
    && Counts(g, rest, indegree) && ReadyExact(g, rest, indegree, ready)
    && Topological(g, order) && Done(g, rest)
  }

  /** No vertex already taken has a predecessor left. */
  ghost predicate Done(g: Graph, rest: set<Id>) {
    forall v :: v in g && v !in rest ==> Predecessors(g, rest, v) == {}
  }

  lemma ReadyIsSource(g: Graph, rest: set<Id>, indegree: map<Id, int>, ready: seq<Id>)
    requires Counts(g, rest, indegree) && ReadyExact(g, rest, indegree, ready) && ready != []
    requires rest <= g.Keys
    ensures var u := ready[|ready| - 1]; u in rest && Predecessors(g, rest, u) == {}
  {
    assert ready[|ready| - 1] in ready;
  }

  /** What a source points to has not been taken. */
  lemma DependenciesLeft(g: Graph, rest: set<Id>, u: Id)
    requires ClosedUnder(g) && Done(g, rest) && u in rest && rest <= g.Keys && Predecessors(g, rest, u) == {}
    ensures forall j :: 0 <= j < |g[u].deps| ==> g[u].deps[j] in rest - {u}
  {
    forall j | 0 <= j < |g[u].deps| ensures g[u].deps[j] in rest - {u} {
      assert u in Predecessors(g, rest, g[u].deps[j]);
    }
  }

  /** Kahn's algorithm visits every vertex exactly when there is no cycle. */
  method KahnVisits(g: Graph) returns (all: bool)
    requires ClosedUnder(g) && DepsDistinct(g)
    ensures all <==> Acyclic(g)
  {
    var indegree := CountIndegrees(g);
    var ready := InitialReady(g, indegree);
    var visited := 0;
    ghost var order: seq<Id> := [];
    ghost var rest := g.Keys;
    hide Counts, ReadyExact, Topological, Done, ClosedUnder, DepsDistinct, Distinct, Elements, Acyclic, Predecessors;
    KahnStart(g, indegree, ready);
    while ready != []
      invariant KahnState(g, order, rest, indegree, ready) && visited == |order|
      decreases |rest|
    {
      var u := ready[|ready| - 1];
      ReadyIsSource(g, rest, indegree, ready);
      visited := visited + 1;
      TakeSource(g, order, rest, u);
      PopReady(g, rest, indegree, ready);
      DependenciesLeft(g, rest, u);
      SubsetSmaller(rest - {u}, rest);
      indegree, ready := RemoveSource(g, rest, u, indegree, ready[..|ready| - 1]);
      order, rest := order + [u], rest - {u};
    }
    all := visited == |g|;
    KahnEnd(g, order, rest, indegree);
  }

  lemma KahnStart(g: Graph, indegree: map<Id, int>, ready: seq<Id>)
    requires Counts(g, g.Keys, indegree) && ReadyExact(g, g.Keys, indegree, ready)
    ensures KahnState(g, [], g.Keys, indegree, ready)
  {
    assert Elements<Id>([]) == g.Keys - g.Keys;
  }

  lemma KahnEnd(g: Graph, order: seq<Id>, rest: set<Id>, indegree: map<Id, int>)
    requires ClosedUnder(g) && KahnState(g, order, rest, indegree, [])
    ensures |order| == |g| <==> Acyclic(g)
  {
    hide ClosedUnder, Counts, ReadyExact, Topological, Done, Distinct, Elements, Acyclic;
    DistinctSize(order);
    if rest == {} {
      assert Elements(order) == g.Keys;
      TopologicalAcyclic(g, order);
    } else {
      Remaining(g, rest, indegree);
      SourcelessIsCyclic(g, rest);
      SubsetSmaller(g.Keys - rest, g.Keys);
    }
  }

  method InitialReady(g: Graph, indegree: map<Id, int>) returns (ready: seq<Id>)
    requires indegree.Keys == g.Keys
    ensures ReadyExact(g, g.Keys, indegree, ready)
  {
    ready := [];
    var todo := g.Keys;
    while todo != {}
      invariant todo <= g.Keys
      invariant ReadyExact(g, g.Keys - todo, indegree, ready)
      decreases todo
    {
      var v :| v in todo;
      todo := todo - {v};
      if indegree[v] == 0 { ready := ready + [v]; }
    }
  }

  lemma PopReady(g: Graph, rest: set<Id>, indegree: map<Id, int>, ready: seq<Id>)
    requires ReadyExact(g, rest, indegree, ready) && ready != []
    ensures ReadyExact(g, rest - {ready[|ready| - 1]}, indegree, ready[..|ready| - 1])
  {
    var u := ready[|ready| - 1];
    var front := ready[..|ready| - 1];
    assert ready == front + [u];
    forall v ensures v in front <==> v in ready && v != u {
      if v in front {
        var i :| 0 <= i < |front| && front[i] == v;
        assert ready[i] == v;
      }
    }
  }

  lemma TakeSource(g: Graph, order: seq<Id>, rest: set<Id>, u: Id)
    requires rest <= g.Keys && Elements(order) == g.Keys - rest && u in rest && Distinct(order)
    requires Predecessors(g, rest, u) == {} && Topological(g, order) && Done(g, rest)
    ensures Topological(g, order + [u]) && Distinct(order + [u]) && Done(g, rest - {u})
    ensures Elements(order + [u]) == g.Keys - (rest - {u})
  {
    assert u !in Elements(order);
    var more := order + [u];
    assert Elements(more) == Elements(order) + {u};
    forall i | 0 <= i < |more| ensures Predecessors(g, g.Keys, more[i]) <= Elements(more[..i]) {
      if i < |order| {
        assert more[..i] == order[..i];
      } else {
        assert more[..i] == order;
        forall w | w in Predecessors(g, g.Keys, u) ensures w in Elements(order) {
          assert w in rest ==> w in Predecessors(g, rest, u);
        }
      }
    }
    forall v | v in g && v !in rest - {u} ensures Predecessors(g, rest - {u}, v) == {} {
      assert Predecessors(g, rest - {u}, v) <= Predecessors(g, rest, v);
    }
  }

  lemma Remaining(g: Graph, rest: set<Id>, indegree: map<Id, int>)
    requires rest <= g.Keys && Counts(g, rest, indegree) && ReadyExact(g, rest, indegree, [])
    ensures forall v :: v in rest ==> Predecessors(g, rest, v) != {}
  {
    forall v | v in rest ensures Predecessors(g, rest, v) != {} {
      assert v !in [];
      assert indegree[v] != 0;
    }
  }

  /* ---- The validator ---- */

  ghost predicate EdgesOk(g: Graph, n: Node) {
    forall j :: 0 <= j < |n.dependencies| ==>
      n.dependencies[j] in g && g[n.dependencies[j]].cutoff <= n.inputRef.knowledgeCutoff
  }

  method CheckEdges(g: Graph, n: Node) returns (r: Result<(), GraphError>)
    ensures r.Ok? <==> EdgesOk(g, n)
  {
    for j := 0 to |n.dependencies|
      invariant forall k :: 0 <= k < j ==>
                  n.dependencies[k] in g && g[n.dependencies[k]].cutoff <= n.inputRef.knowledgeCutoff
    {
      var d := n.dependencies[j];
      if d !in g { return Err(DependencyAbsent); }
      if g[d].cutoff > n.inputRef.knowledgeCutoff { return Err(CutoffRises); }
    }
    return Ok(());
  }

  /** Accepts exactly the rooted, closed, cutoff-descending, acyclic graphs. */
  method ValidateReleaseGraph(root: Id, nodes: seq<Node>) returns (r: Result<(), GraphError>)
    requires NodesDistinct(nodes) && forall i :: 0 <= i < |nodes| ==> Distinct(nodes[i].dependencies)
    ensures r.Ok? <==> Accepted(GraphOf(nodes), root)
  {
    var g: Graph := map[];
    for i := 0 to |nodes|
      invariant g == GraphOf(nodes[..i])
    {
      assert nodes[..i + 1][..i] == nodes[..i];
      g := g[nodes[i].Id() := Vertex(nodes[i].inputRef.knowledgeCutoff, nodes[i].dependencies)];
    }
    assert nodes[..|nodes|] == nodes;
    GraphOfExact(nodes);
    if root !in g { return Err(RootAbsent); }
    for i := 0 to |nodes|
      invariant forall k :: 0 <= k < i ==> EdgesOk(g, nodes[k])
    {
      var edges := CheckEdges(g, nodes[i]);
      if edges.Err? {
        BadEdge(g, nodes, i);
        return edges;
      }
    }
    GoodEdges(g, nodes);
    var reachable := ReachableFrom(g, root);
    if reachable != g.Keys { return Err(Unreachable); }
    var all := KahnVisits(g);
    if !all { return Err(Cyclic); }
    return Ok(());
  }

  lemma {:induction false} BadEdge(g: Graph, nodes: seq<Node>, i: nat)
    requires NodesDistinct(nodes) && g == GraphOf(nodes) && i < |nodes| && !EdgesOk(g, nodes[i])
    ensures !ClosedUnder(g) || !CutoffsDescend(g)
  {
    GraphOfExact(nodes);
    var j :| 0 <= j < |nodes[i].dependencies|
      && !(nodes[i].dependencies[j] in g && g[nodes[i].dependencies[j]].cutoff <= nodes[i].inputRef.knowledgeCutoff);
    assert nodes[i].dependencies[j] in g[nodes[i].Id()].deps;
  }

  lemma {:induction false} GoodEdges(g: Graph, nodes: seq<Node>)
    requires NodesDistinct(nodes) && g == GraphOf(nodes)
    requires forall k :: 0 <= k < |nodes| ==> EdgesOk(g, nodes[k])
    requires forall i :: 0 <= i < |nodes| ==> Distinct(nodes[i].dependencies)
    ensures ClosedUnder(g) && CutoffsDescend(g) && DepsDistinct(g)
  {
    GraphOfExact(nodes);
    forall v | v in g
      ensures Distinct(g[v].deps) && forall d :: d in g[v].deps ==> d in g && g[d].cutoff <= g[v].cutoff
    {
      var i :| 0 <= i < |nodes| && nodes[i].Id() == v;
      assert EdgesOk(g, nodes[i]);
    }
  }
}
