/**
 Rebuilding one linear observation chain from its unordered rows: each row names
 at most one predecessor, and a recorded head must be the end of the only path.
 */
module ObservationChain {
  import opened Basics
  import opened Contracts

  /** Row identifiers with the identifier each row supersedes. */
  type Rows = map<Id, Option<Id>>

  datatype ChainError =
    | HeadWithoutChain | ChainWithoutHead | NotOneRoot | ForkedOrDisconnected | Cycle | HeadNotTail

  /** `path` visits every row once, from the only root to `head`, link by link. */
  predicate IsPath(rows: Rows, path: seq<Id>, head: Option<Id>) {
    && |path| == |rows|
    && Distinct(path)
    && (forall i :: 0 <= i < |path| ==> LinkAt(rows, path, i))
    && head == LastOf(path)
  }

  predicate LinkAt(rows: Rows, path: seq<Id>, i: nat)
    requires i < |path|
  {
    path[i] in rows && rows[path[i]] == PredecessorOn(path, i)
  }

  function PredecessorOn(path: seq<Id>, i: nat): Option<Id>
    requires i < |path|
  {
    if i == 0 then None else Some(path[i - 1])
  }

  function LastOf(path: seq<Id>): Option<Id> {
    if path == [] then None else Some(path[|path| - 1])
  }

  /* ---- Paths ---- */

  lemma PathCovers(rows: Rows, path: seq<Id>, head: Option<Id>)
    requires IsPath(rows, path, head)
    ensures Elements(path) == rows.Keys
  {
    forall i | 0 <= i < |path| ensures path[i] in rows.Keys { assert LinkAt(rows, path, i); }
    DistinctCount(path, rows.Keys);
  }

  lemma Position(rows: Rows, path: seq<Id>, head: Option<Id>, x: Id) returns (j: nat)
    requires IsPath(rows, path, head) && x in rows
    ensures j < |path| && path[j] == x && LinkAt(rows, path, j)
  {
    PathCovers(rows, path, head);
    assert x in Elements(path);
    j :| 0 <= j < |path| && path[j] == x;
    assert LinkAt(rows, path, j);
  }

  /** A row that continues the common part of two walks continues both alike. */
  lemma SamePlace(rows: Rows, p: seq<Id>, path: seq<Id>, n: nat, j: nat)
    requires n < |p| && LinkAt(rows, p, n)
    requires j < |path| && path[j] == p[n] && LinkAt(rows, path, j)
    requires Distinct(path) && n <= |path| && p[..n] == path[..n]
    ensures j == n && p[..n + 1] == path[..n + 1]
  {
    if n > 0 {
      assert p[n - 1] == p[..n][n - 1] == path[..n][n - 1] == path[n - 1];
    }
    assert p[..n + 1] == p[..n] + [p[n]];
    assert path[..j + 1] == path[..j] + [path[j]];
  }

  /** At most one path fits the rows, whatever the head. */
  lemma {:induction false} PathUnique(rows: Rows, p: seq<Id>, q: seq<Id>, head: Option<Id>, head': Option<Id>, n: nat)
    requires IsPath(rows, p, head) && IsPath(rows, q, head') && n <= |rows|
    ensures p[..n] == q[..n]
  {
    if n > 0 {
      PathUnique(rows, p, q, head, head', n - 1);
      assert LinkAt(rows, p, n - 1);
      var j := Position(rows, q, head', p[n - 1]);
      SamePlace(rows, p, q, n - 1, j);
    }
  }

  /* ---- The walk ---- */

  ghost predicate Successors(rows: Rows, done: set<Id>, successor: map<Id, Id>) {
    && (forall x :: x in done && x in rows && rows[x].Some? ==>
          rows[x].value in rows && rows[x].value in successor && successor[rows[x].value] == x)
    && (forall p :: p in successor ==> p in rows && successor[p] in done && successor[p] in rows && rows[successor[p]] == Some(p))
  }

  /** Collects the rows without predecessor. */
  method FindRoots(rows: Rows) returns (roots: seq<Id>)
    ensures Distinct(roots)
    ensures forall x :: x in roots <==> x in rows && rows[x].None?
  {
    roots := [];
    var pending := rows.Keys;
    while pending != {}
      invariant pending <= rows.Keys && Distinct(roots)
      invariant forall x :: x in roots <==> x in rows && x !in pending && rows[x].None?
      decreases pending
    {
      var x :| x in pending;
      pending := pending - {x};
      if rows[x].None? { roots := roots + [x]; }
    }
  }

  /** Inverts the links; two rows may not supersede the same row. */
  method LinkSuccessors(rows: Rows) returns (r: Result<map<Id, Id>, ChainError>)
    ensures r.Ok? ==> Successors(rows, rows.Keys, r.value)
    ensures r.Err? ==> r.error == ForkedOrDisconnected && forall path, head :: !IsPath(rows, path, head)
  {
    var successor: map<Id, Id> := map[];
    var pending := rows.Keys;
    while pending != {}
      invariant pending <= rows.Keys
      invariant Successors(rows, rows.Keys - pending, successor)
      decreases pending
    {
      var x :| x in pending;
      pending := pending - {x};
      if rows[x].Some? {
        var p := rows[x].value;
        if p !in rows || p in successor {
          forall path, head | IsPath(rows, path, head) ensures false {
            LinksInjective(rows, path, head, x, if p in successor then successor[p] else x);
          }
          return Err(ForkedOrDisconnected);
        }
        successor := successor[p := x];
      }
    }
    assert rows.Keys - pending == rows.Keys;
    r := Ok(successor);
  }

  /** On a path, links stay inside the rows and no row is superseded twice. */
  lemma LinksInjective(rows: Rows, path: seq<Id>, head: Option<Id>, x: Id, y: Id)
    requires IsPath(rows, path, head)
    requires x in rows && y in rows && rows[x].Some? && rows[x] == rows[y]
    ensures rows[x].value in rows && x == y
  {
    var i := Position(rows, path, head, x);
    var j := Position(rows, path, head, y);
    assert LinkAt(rows, path, i - 1);
  }

  /** The walked prefix: distinct rows, each the successor of the one before. */
  ghost predicate Walked(rows: Rows, ordered: seq<Id>) {
    && ordered != []
    && Distinct(ordered)
    && (forall i :: 0 <= i < |ordered| ==> LinkAt(rows, ordered, i))
  }

  /** The successor of the walk's end is new: the cycle test cannot fire. */
  lemma NextIsNew(rows: Rows, ordered: seq<Id>, next: Id)
    requires Walked(rows, ordered)
    requires next in rows && rows[next] == Some(ordered[|ordered| - 1])
    ensures next !in ordered
    ensures Walked(rows, ordered + [next])
  {
    forall i | 0 <= i < |ordered| ensures ordered[i] != next {
      assert LinkAt(rows, ordered, i);
    }
    var more := ordered + [next];
    forall i | 0 <= i < |more| ensures LinkAt(rows, more, i) {
      if i < |ordered| { assert LinkAt(rows, ordered, i); }
    }
  }

  lemma WalkedBound(rows: Rows, ordered: seq<Id>)
    requires Walked(rows, ordered)
    ensures |ordered| <= |rows|
  {
    forall i | 0 <= i < |ordered| ensures ordered[i] in rows.Keys { assert LinkAt(rows, ordered, i); }
    DistinctCount(ordered, rows.Keys);
  }

  /** Follows the successors from the root until there is none. */
  method WalkFrom(rows: Rows, successor: map<Id, Id>, root: Id) returns (r: Result<seq<Id>, ChainError>)
    requires root in rows && rows[root].None?
    requires Successors(rows, rows.Keys, successor)
    ensures r.Ok?
    ensures Walked(rows, r.value) && r.value[|r.value| - 1] !in successor
  {
    var ordered: seq<Id> := [];
    var current := root;
    while true
      invariant current in rows && current !in ordered
      invariant Walked(rows, ordered + [current])
      invariant |ordered| <= |rows|
      decreases |rows| - |ordered|
    {
      if current in ordered { return Err(Cycle); }
      ordered := ordered + [current];
      WalkedBound(rows, ordered);
      if current !in successor { break; }
      NextIsNew(rows, ordered, successor[current]);
      current := successor[current];
    }
    r := Ok(ordered);
  }

  /**
   Rebuilds the chain. It succeeds exactly when the rows form one path to the
   head covering every row; the cycle error is never the one reported.
   */
  method WalkChain(rows: Rows, head: Option<Id>) returns (r: Result<seq<Id>, ChainError>)
    ensures r.Ok? ==> IsPath(rows, r.value, head)
    ensures r.Err? ==> r.error != Cycle && forall path :: !IsPath(rows, path, head)
  {
    hide IsPath, Walked, Successors;
    PathFacts(rows, head);
    if |rows| == 0 {
      if head.Some? { return Err(HeadWithoutChain); }
      return Ok([]);
    }
    if head.None? { return Err(ChainWithoutHead); }
    var roots := FindRoots(rows);
    if |roots| != 1 {
      forall path | IsPath(rows, path, head) ensures false {
        OneRoot(rows, path, head, roots);
      }
      return Err(NotOneRoot);
    }
    var linked := LinkSuccessors(rows);
    if linked.Err? { return Err(linked.error); }
    assert roots[0] in roots;
    var walk := WalkFrom(rows, linked.value, roots[0]);
    var ordered := walk.value;
    assert ordered != [] by { WalkedSome(rows, ordered); }
    if |ordered| != |rows| || Some(ordered[|ordered| - 1]) != head {
      forall path | IsPath(rows, path, head) ensures false {
        WalkIsPath(rows, linked.value, ordered, path, head);
      }
      return Err(HeadNotTail);
    }
    WalkedIsPath(rows, ordered, head);
    r := Ok(ordered);
  }

  lemma WalkedSome(rows: Rows, ordered: seq<Id>)
    requires Walked(rows, ordered)
    ensures ordered != []
  {
  }

  lemma WalkedIsPath(rows: Rows, ordered: seq<Id>, head: Option<Id>)
    requires Walked(rows, ordered) && |ordered| == |rows| && Some(ordered[|ordered| - 1]) == head
    ensures IsPath(rows, ordered, head)
  {
  }

  /** A path has the size of its rows and ends at its head. */
  lemma PathFacts(rows: Rows, head: Option<Id>)
    ensures |rows| == 0 && head.None? ==> IsPath(rows, [], head)
    ensures forall path | IsPath(rows, path, head) ::
              && (|rows| == 0 <==> head.None?) && |path| == |rows|
              && (path != [] ==> Some(path[|path| - 1]) == head)
  {
  }

  lemma OneRoot(rows: Rows, path: seq<Id>, head: Option<Id>, roots: seq<Id>)
    requires IsPath(rows, path, head) && path != []
    requires Distinct(roots) && forall x :: x in roots <==> x in rows && rows[x].None?
    ensures |roots| == 1
  {
    assert |roots| >= 2 ==> roots[0] != roots[1];
    assert LinkAt(rows, path, 0);
    assert path[0] in roots;
    forall i | 0 <= i < |roots| ensures roots[i] == path[0] {
      assert roots[i] in roots;
      var j := Position(rows, path, head, roots[i]);
    }
  }

  /** Any path begins with the walk. */
  lemma {:induction false} WalkBeginsPath(rows: Rows, ordered: seq<Id>, path: seq<Id>, head: Option<Id>, n: nat)
    requires IsPath(rows, path, head) && Walked(rows, ordered) && n <= |ordered|
    ensures n <= |path| && ordered[..n] == path[..n]
  {
    if n > 0 {
      WalkBeginsPath(rows, ordered, path, head, n - 1);
      assert LinkAt(rows, ordered, n - 1);
      var j := Position(rows, path, head, ordered[n - 1]);
      SamePlace(rows, ordered, path, n - 1, j);
    }
  }

  lemma InnerHasSuccessor(rows: Rows, successor: map<Id, Id>, path: seq<Id>, head: Option<Id>, i: nat)
    requires IsPath(rows, path, head) && i + 1 < |path|
    requires Successors(rows, rows.Keys, successor)
    ensures path[i] in successor
  {
    assert LinkAt(rows, path, i + 1);
  }

  /** A walk that cannot be continued is the whole of any path. */
  lemma WalkIsPath(rows: Rows, successor: map<Id, Id>, ordered: seq<Id>, path: seq<Id>, head: Option<Id>)
    requires IsPath(rows, path, head) && Walked(rows, ordered)
    requires Successors(rows, rows.Keys, successor) && ordered[|ordered| - 1] !in successor
    ensures ordered == path
  {
    var n := |ordered|;
    WalkBeginsPath(rows, ordered, path, head, n);
    assert ordered == ordered[..n];
    assert path[n - 1] == path[..n][n - 1];
    if n < |path| { InnerHasSuccessor(rows, successor, path, head, n - 1); }
    assert path == path[..n];
  }
}
