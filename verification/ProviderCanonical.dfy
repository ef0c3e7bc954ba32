/**
 The provider's canonical JSON: values live as mutable objects that may share and
 even contain each other, and every text is normalised. Normalising walks the
 objects with the set of containers it is inside of.
 */
module ProviderCanonical {
  import opened Basics
  import opened Contracts
  import opened CanonicalJson
  import opened Sorting

  /* ---- Objects ---- */

  type Ref = nat

  /** A value as the program holds it; containers are references. */
  datatype Term =
    | NoneTerm
    | BoolTerm(b: bool)
    | IntTerm(n: int)
    | FloatTerm(repr: FloatText)
    | NonFiniteTerm
    | TextTerm(s: string)
    | OtherTerm
    | Container(id: Ref)

  datatype Key = TextKey(s: string) | OtherKey

  datatype Cell = List(items: seq<Term>) | Dict(entries: seq<(Key, Term)>)

  type Heap = map<Ref, Cell>

  function Children(c: Cell): seq<Term> {
    match c
    case List(items) => items
    case Dict(entries) => seq(|entries|, i requires 0 <= i < |entries| => entries[i].1)
  }

  predicate Within(heap: Heap, v: Term) { v.Container? ==> v.id in heap }

  /** No reference dangles. */
  ghost predicate Closed(heap: Heap) {
    forall id, i :: id in heap && 0 <= i < |Children(heap[id])| ==> Within(heap, Children(heap[id])[i])
  }

  datatype NormalError = Cyclic | NonFinite | BadKey | KeyCollision | Unsupported

  type Nfc = string -> string

  ghost predicate Idempotent(nfc: Nfc) {
    forall s :: nfc(nfc(s)) == nfc(s)
  }

  predicate IsPlain(s: string) {
    forall i :: 0 <= i < |s| ==> IsDigit(s[i]) || 'a' <= s[i] <= 'z' || s[i] == '_'
  }

  /** Normalisation leaves plain texts alone and makes no other text plain. */
  ghost predicate PlainFixed(nfc: Nfc) {
    forall s, t :: IsPlain(t) ==> (nfc(s) == t <==> s == t)
  }

  lemma SmallerBudget(heap: Heap, active: set<Ref>, id: Ref)
    requires id in heap && id !in active
    ensures |heap.Keys - (active + {id})| < |heap.Keys - active|
  {
    assert heap.Keys - active == (heap.Keys - (active + {id})) + {id};
  }

  /* ---- Normalising ---- */

  function Normal(heap: Heap, nfc: Nfc, v: Term, active: set<Ref>): Result<Json, NormalError>
    requires Closed(heap) && Within(heap, v)
    decreases |heap.Keys - active|, 2, 0
  {
    match v
    case NoneTerm => Ok(Null)
    case BoolTerm(b) => Ok(Bool(b))
    case IntTerm(n) => Ok(Int(n))
    case FloatTerm(repr) => Ok(Real(repr))
    case NonFiniteTerm => Err(NonFinite)
    case TextTerm(s) => Ok(Str(nfc(s)))
    case OtherTerm => Err(Unsupported)
    case Container(id) =>
      if id in active then Err(Cyclic)
      else
        SmallerBudget(heap, active, id);
        match heap[id]
        case List(_) =>
          var r := NormalItems(heap, nfc, id, 0, [], active + {id});
          if r.Err? then Err(r.error) else Ok(Arr(r.value))
        case Dict(_) =>
          var r := NormalEntries(heap, nfc, id, 0, map[], active + {id});
          if r.Err? then Err(r.error) else Ok(Obj(r.value))
  }

  /** Extends the items read so far with the remaining ones. */
  function NormalItems(heap: Heap, nfc: Nfc, id: Ref, i: nat, done: seq<Json>, active: set<Ref>): Result<seq<Json>, NormalError>
    requires Closed(heap) && id in heap && heap[id].List? && i <= |heap[id].items|
    decreases |heap.Keys - active|, 3, |heap[id].items| - i
  {
    var items := heap[id].items;
    if i == |items| then Ok(done)
    else
      assert Children(heap[id])[i] == items[i];
      var first := Normal(heap, nfc, items[i], active);
      if first.Err? then Err(first.error) else NormalItems(heap, nfc, id, i + 1, done + [first.value], active)
  }

  /** Extends the members read so far with the remaining entries. */
  function NormalEntries(heap: Heap, nfc: Nfc, id: Ref, i: nat, done: map<string, Json>, active: set<Ref>):
    Result<map<string, Json>, NormalError>
    requires Closed(heap) && id in heap && heap[id].Dict? && i <= |heap[id].entries|
    decreases |heap.Keys - active|, 3, |heap[id].entries| - i
  {
    var entries := heap[id].entries;
    if i == |entries| then Ok(done)
    else if entries[i].0.OtherKey? then Err(BadKey)
    else
      var key := nfc(entries[i].0.s);
      if key in done then Err(KeyCollision)
      else
        assert Children(heap[id])[i] == entries[i].1;
        var first := Normal(heap, nfc, entries[i].1, active);
        if first.Err? then Err(first.error)
        else NormalEntries(heap, nfc, id, i + 1, done[key := first.value], active)
  }

  /** The recursion with its one mutable set of active containers. */
  class Normalizer {
    const heap: Heap
    const nfc: Nfc
    var active: set<Ref>

    constructor (h: Heap, f: Nfc)
      ensures heap == h && nfc == f && active == {}
    {
      heap := h;
      nfc := f;
      active := {};
    }

    /** Normalises a value and leaves the active set as it found it, also on failure. */
    method Normalize(v: Term) returns (r: Result<Json, NormalError>)
      requires Closed(heap) && Within(heap, v)
      modifies this`active
      ensures active == old(active)
      ensures r == Normal(heap, nfc, v, old(active))
      decreases |heap.Keys - active|, 2
    {
      match v
      case NoneTerm => r := Ok(Null);
      case BoolTerm(b) => r := Ok(Bool(b));
      case IntTerm(n) => r := Ok(Int(n));
      case FloatTerm(repr) => r := Ok(Real(repr));
      case NonFiniteTerm => r := Err(NonFinite);
      case TextTerm(s) => r := Ok(Str(nfc(s)));
      case OtherTerm => r := Err(Unsupported);
      case Container(id) =>
        if id in active { return Err(Cyclic); }
        SmallerBudget(heap, active, id);
        active := active + {id};
        if heap[id].List? {
          var items := NormalizeItems(id);
          r := if items.Err? then Err(items.error) else Ok(Arr(items.value));
        } else {
          var members := NormalizeEntries(id);
          r := if members.Err? then Err(members.error) else Ok(Obj(members.value));
        }
        active := active - {id};
        assert active == old(active);
    }

    method NormalizeItems(id: Ref) returns (r: Result<seq<Json>, NormalError>)
      requires Closed(heap) && id in heap && heap[id].List?
      modifies this`active
      ensures active == old(active)
      ensures r == NormalItems(heap, nfc, id, 0, [], old(active))
      decreases |heap.Keys - active|, 3
    {
      var items := heap[id].items;
      var done: seq<Json> := [];
      for i := 0 to |items|
        invariant active == old(active)
        invariant NormalItems(heap, nfc, id, 0, [], active) == NormalItems(heap, nfc, id, i, done, active)
      {
        assert Children(heap[id])[i] == items[i];
        var x := Normalize(items[i]);
        if x.Err? { return Err(x.error); }
        done := done + [x.value];
      }
      r := Ok(done);
    }

    method NormalizeEntries(id: Ref) returns (r: Result<map<string, Json>, NormalError>)
      requires Closed(heap) && id in heap && heap[id].Dict?
      modifies this`active
      ensures active == old(active)
      ensures r == NormalEntries(heap, nfc, id, 0, map[], old(active))
      decreases |heap.Keys - active|, 3
    {
      var entries := heap[id].entries;
      var done: map<string, Json> := map[];
      for i := 0 to |entries|
        invariant active == old(active)
        invariant NormalEntries(heap, nfc, id, 0, map[], active) == NormalEntries(heap, nfc, id, i, done, active)
      {
        if entries[i].0.OtherKey? { return Err(BadKey); }
        var key := nfc(entries[i].0.s);
        if key in done { return Err(KeyCollision); }
        assert Children(heap[id])[i] == entries[i].1;
        var x := Normalize(entries[i].1);
        if x.Err? { return Err(x.error); }
        done := done[key := x.value];
      }
      r := Ok(done);
    }
  }

  /* ---- Cycles ---- */

  /** The value unfolds to a tree of at most this depth. */
  ghost predicate Finite(heap: Heap, v: Term, depth: nat)
    decreases depth
  {
    v.Container? ==>
      && v.id in heap && depth > 0
      && forall i :: 0 <= i < |Children(heap[v.id])| ==> Finite(heap, Children(heap[v.id])[i], depth - 1)
  }

  ghost predicate HasTree(heap: Heap, v: Term) {
    exists depth: nat :: Finite(heap, v, depth)
  }

  lemma {:induction false} FiniteGrows(heap: Heap, v: Term, depth: nat, more: nat)
    requires Finite(heap, v, depth) && depth <= more
    ensures Finite(heap, v, more)
    decreases depth
  {
    if v.Container? {
      forall i | 0 <= i < |Children(heap[v.id])| ensures Finite(heap, Children(heap[v.id])[i], more - 1) {
        FiniteGrows(heap, Children(heap[v.id])[i], depth - 1, more - 1);
      }
    }
  }

  /** The least depth a value unfolds to. */
  lemma {:induction false} LeastDepth(heap: Heap, v: Term, depth: nat) returns (least: nat)
    requires Finite(heap, v, depth) && v.Container?
    ensures 0 < least <= depth && Finite(heap, v, least) && !Finite(heap, v, least - 1)
    decreases depth
  {
    if Finite(heap, v, depth - 1) { least := LeastDepth(heap, v, depth - 1); } else { least := depth; }
  }

  /** Walking a finite tree below taller containers never reports a cycle. */
  ghost predicate AllTaller(heap: Heap, active: set<Ref>, depth: nat) {
    forall a :: a in active ==> !Finite(heap, Container(a), depth)
  }

  lemma TallerBelow(heap: Heap, active: set<Ref>, id: Ref, depth: nat, least: nat)
    requires AllTaller(heap, active, depth) && 0 < least <= depth
    requires Finite(heap, Container(id), least) && !Finite(heap, Container(id), least - 1)
    ensures id !in active && AllTaller(heap, active + {id}, least - 1)
  {
    FiniteGrows(heap, Container(id), least, depth);
    forall a | a in active ensures !Finite(heap, Container(a), least - 1) {
      if Finite(heap, Container(a), least - 1) { FiniteGrows(heap, Container(a), least - 1, depth); }
    }
  }

  lemma {:induction false} FiniteChildren(heap: Heap, id: Ref, depth: nat)
    requires Finite(heap, Container(id), depth)
    ensures id in heap && depth > 0
    ensures forall j :: 0 <= j < |Children(heap[id])| ==> Finite(heap, Children(heap[id])[j], depth - 1)
  {
  }

  /** Walking a finite tree below taller containers never reports a cycle. */
  lemma {:induction false} FiniteNotCyclic(heap: Heap, nfc: Nfc, v: Term, depth: nat, active: set<Ref>)
    requires Closed(heap) && Within(heap, v) && Finite(heap, v, depth) && AllTaller(heap, active, depth)
    ensures Normal(heap, nfc, v, active) != Err(Cyclic)
    decreases |heap.Keys - active|, 2, 0
  {
    hide NormalItems, NormalEntries, Closed, Finite, AllTaller;
    if v.Container? {
      var id := v.id;
      assert v == Container(id);
      var least := LeastDepth(heap, v, depth);
      TallerBelow(heap, active, id, depth, least);
      FiniteChildren(heap, id, least);
      SmallerBudget(heap, active, id);
      if heap[id].List? {
        ItemsNotCyclic(heap, nfc, id, 0, [], least - 1, active + {id});
      } else {
        EntriesNotCyclic(heap, nfc, id, 0, map[], least - 1, active + {id});
      }
    }
  }

  lemma {:induction false} ItemsNotCyclic(heap: Heap, nfc: Nfc, id: Ref, i: nat, done: seq<Json>, depth: nat, active: set<Ref>)
    requires Closed(heap) && id in heap && heap[id].List? && i <= |heap[id].items|
    requires forall j :: 0 <= j < |Children(heap[id])| ==> Finite(heap, Children(heap[id])[j], depth)
    requires AllTaller(heap, active, depth)
    ensures NormalItems(heap, nfc, id, i, done, active) != Err(Cyclic)
    decreases |heap.Keys - active|, 3, |heap[id].items| - i
  {
    if i < |heap[id].items| {
      assert Children(heap[id])[i] == heap[id].items[i];
      FiniteNotCyclic(heap, nfc, heap[id].items[i], depth, active);
      var first := Normal(heap, nfc, heap[id].items[i], active);
      if first.Ok? { ItemsNotCyclic(heap, nfc, id, i + 1, done + [first.value], depth, active); }
    }
  }

  lemma {:induction false} EntriesNotCyclic(heap: Heap, nfc: Nfc, id: Ref, i: nat, done: map<string, Json>, depth: nat,
                                            active: set<Ref>)
    requires Closed(heap) && id in heap && heap[id].Dict? && i <= |heap[id].entries|
    requires forall j :: 0 <= j < |Children(heap[id])| ==> Finite(heap, Children(heap[id])[j], depth)
    requires AllTaller(heap, active, depth)
    ensures NormalEntries(heap, nfc, id, i, done, active) != Err(Cyclic)
    decreases |heap.Keys - active|, 3, |heap[id].entries| - i
  {
    var entries := heap[id].entries;
    if i < |entries| && entries[i].0.TextKey? && nfc(entries[i].0.s) !in done {
      assert Children(heap[id])[i] == entries[i].1;
      FiniteNotCyclic(heap, nfc, entries[i].1, depth, active);
      var first := Normal(heap, nfc, entries[i].1, active);
      if first.Ok? { EntriesNotCyclic(heap, nfc, id, i + 1, done[nfc(entries[i].0.s) := first.value], depth, active); }
    }
  }

  /** Success unfolds the whole value, no deeper than there are containers left. */
  lemma {:induction false} NormalIsFinite(heap: Heap, nfc: Nfc, v: Term, active: set<Ref>)
    requires Closed(heap) && Within(heap, v) && Normal(heap, nfc, v, active).Ok?
    ensures Finite(heap, v, |heap.Keys - active|)
    decreases |heap.Keys - active|, 2, 0
  {
    if v.Container? {
      var id := v.id;
      SmallerBudget(heap, active, id);
      var depth := |heap.Keys - active| - 1;
      if heap[id].List? {
        ItemsFinite(heap, nfc, id, 0, [], depth, active + {id});
      } else {
        EntriesFinite(heap, nfc, id, 0, map[], depth, active + {id});
      }
    }
  }

  lemma {:induction false} ItemsFinite(heap: Heap, nfc: Nfc, id: Ref, i: nat, done: seq<Json>, depth: nat, active: set<Ref>)
    requires Closed(heap) && id in heap && heap[id].List? && i <= |heap[id].items| && |heap.Keys - active| <= depth
    requires NormalItems(heap, nfc, id, i, done, active).Ok?
    ensures forall j :: i <= j < |Children(heap[id])| ==> Finite(heap, Children(heap[id])[j], depth)
    decreases |heap.Keys - active|, 3, |heap[id].items| - i
  {
    if i < |heap[id].items| {
      assert Children(heap[id])[i] == heap[id].items[i];
      NormalIsFinite(heap, nfc, heap[id].items[i], active);
      FiniteGrows(heap, heap[id].items[i], |heap.Keys - active|, depth);
      var first := Normal(heap, nfc, heap[id].items[i], active);
      ItemsFinite(heap, nfc, id, i + 1, done + [first.value], depth, active);
    }
  }

  lemma {:induction false} EntriesFinite(heap: Heap, nfc: Nfc, id: Ref, i: nat, done: map<string, Json>, depth: nat,
                                         active: set<Ref>)
    requires Closed(heap) && id in heap && heap[id].Dict? && i <= |heap[id].entries| && |heap.Keys - active| <= depth
    requires NormalEntries(heap, nfc, id, i, done, active).Ok?
    ensures forall j :: i <= j < |Children(heap[id])| ==> Finite(heap, Children(heap[id])[j], depth)
    decreases |heap.Keys - active|, 3, |heap[id].entries| - i
  {
    var entries := heap[id].entries;
    if i < |entries| {
      assert Children(heap[id])[i] == entries[i].1;
      NormalIsFinite(heap, nfc, entries[i].1, active);
      FiniteGrows(heap, entries[i].1, |heap.Keys - active|, depth);
      var first := Normal(heap, nfc, entries[i].1, active);
      EntriesFinite(heap, nfc, id, i + 1, done[nfc(entries[i].0.s) := first.value], depth, active);
    }
  }

  /** A cycle is reported only for values without a tree, and those never succeed. */
  lemma {:induction false} CycleExact(heap: Heap, nfc: Nfc, v: Term)
    requires Closed(heap) && Within(heap, v)
    ensures Normal(heap, nfc, v, {}) == Err(Cyclic) ==> !HasTree(heap, v)
    ensures Normal(heap, nfc, v, {}).Ok? ==> HasTree(heap, v)
  {
    if depth: nat :| Finite(heap, v, depth) {
      assert AllTaller(heap, {}, depth);
      FiniteNotCyclic(heap, nfc, v, depth, {});
    }
    if Normal(heap, nfc, v, {}).Ok? { NormalIsFinite(heap, nfc, v, {}); }
  }

  /* ---- The exact answer on clean objects ---- */

  predicate CleanTerm(v: Term) { !v.NonFiniteTerm? && !v.OtherTerm? }

  /** Keys are texts that stay apart when normalised; every leaf is a JSON value. */
  predicate CleanCell(nfc: Nfc, c: Cell) {
    match c
    case List(items) => forall i :: 0 <= i < |items| ==> CleanTerm(items[i])
    case Dict(entries) =>
      && (forall i :: 0 <= i < |entries| ==> entries[i].0.TextKey? && CleanTerm(entries[i].1))
      && forall i, j :: 0 <= i < j < |entries| ==> nfc(entries[i].0.s) != nfc(entries[j].0.s)
  }

  ghost predicate Clean(heap: Heap, nfc: Nfc) {
    forall id :: id in heap ==> CleanCell(nfc, heap[id])
  }

  ghost predicate OkOrCyclic<T>(r: Result<T, NormalError>) { r.Ok? || r.error == Cyclic }

  lemma {:induction false} CleanAnswer(heap: Heap, nfc: Nfc, v: Term, active: set<Ref>)
    requires Closed(heap) && Within(heap, v) && Clean(heap, nfc) && CleanTerm(v)
    ensures OkOrCyclic(Normal(heap, nfc, v, active))
    decreases |heap.Keys - active|, 2, 0
  {
    if v.Container? && v.id !in active {
      SmallerBudget(heap, active, v.id);
      if heap[v.id].List? {
        CleanItems(heap, nfc, v.id, 0, [], active + {v.id});
      } else {
        CleanEntries(heap, nfc, v.id, 0, map[], active + {v.id});
      }
    }
  }

  lemma {:induction false} CleanItems(heap: Heap, nfc: Nfc, id: Ref, i: nat, done: seq<Json>, active: set<Ref>)
    requires Closed(heap) && Clean(heap, nfc) && id in heap && heap[id].List? && i <= |heap[id].items|
    ensures OkOrCyclic(NormalItems(heap, nfc, id, i, done, active))
    decreases |heap.Keys - active|, 3, |heap[id].items| - i
  {
    if i < |heap[id].items| {
      assert CleanCell(nfc, heap[id]);
      assert Children(heap[id])[i] == heap[id].items[i];
      CleanAnswer(heap, nfc, heap[id].items[i], active);
      var first := Normal(heap, nfc, heap[id].items[i], active);
      if first.Ok? { CleanItems(heap, nfc, id, i + 1, done + [first.value], active); }
    }
  }

  lemma {:induction false} CleanEntries(heap: Heap, nfc: Nfc, id: Ref, i: nat, done: map<string, Json>, active: set<Ref>)
    requires Closed(heap) && Clean(heap, nfc) && id in heap && heap[id].Dict? && i <= |heap[id].entries|
    requires forall k :: k in done ==>
               exists j :: 0 <= j < i && heap[id].entries[j].0.TextKey? && nfc(heap[id].entries[j].0.s) == k
    ensures OkOrCyclic(NormalEntries(heap, nfc, id, i, done, active))
    decreases |heap.Keys - active|, 3, |heap[id].entries| - i
  {
    var entries := heap[id].entries;
    if i < |entries| {
      assert CleanCell(nfc, heap[id]);
      assert Children(heap[id])[i] == entries[i].1;
      var key := nfc(entries[i].0.s);
      assert key !in done;
      CleanAnswer(heap, nfc, entries[i].1, active);
      var first := Normal(heap, nfc, entries[i].1, active);
      if first.Ok? {
        var next := done[key := first.value];
        forall k | k in next
          ensures exists j :: 0 <= j < i + 1 && entries[j].0.TextKey? && nfc(entries[j].0.s) == k
        {
          if k == key { assert nfc(entries[i].0.s) == k; }
        }
        CleanEntries(heap, nfc, id, i + 1, next, active);
      }
    }
  }

  /**
   On clean objects a value is refused exactly when it has no tree, that is when
   it contains itself; containers that are merely shared are accepted.
   */
  lemma {:induction false} CleanExact(heap: Heap, nfc: Nfc, v: Term)
    requires Closed(heap) && Within(heap, v) && Clean(heap, nfc) && CleanTerm(v)
    ensures Normal(heap, nfc, v, {}) == Err(Cyclic) <==> !HasTree(heap, v)
    ensures Normal(heap, nfc, v, {}).Ok? <==> HasTree(heap, v)
  {
    CleanAnswer(heap, nfc, v, {});
    CycleExact(heap, nfc, v);
  }

  /* ---- Normal forms ---- */

  predicate IsNormal(nfc: Nfc, t: Json)
    decreases t
  {
    match t
    case Str(s) => nfc(s) == s
    case Arr(items) => forall i :: 0 <= i < |items| ==> IsNormal(nfc, items[i])
    case Obj(members) => forall k :: k in members ==> nfc(k) == k && IsNormal(nfc, members[k])
    case _ => true
  }

  lemma {:induction false} NormalResult(heap: Heap, nfc: Nfc, v: Term, active: set<Ref>)
    requires Idempotent(nfc) && Closed(heap) && Within(heap, v) && Normal(heap, nfc, v, active).Ok?
    ensures IsNormal(nfc, Normal(heap, nfc, v, active).value)
    decreases |heap.Keys - active|, 2, 0
  {
    if v.Container? {
      SmallerBudget(heap, active, v.id);
      if heap[v.id].List? {
        NormalItemsResult(heap, nfc, v.id, 0, [], active + {v.id});
      } else {
        NormalEntriesResult(heap, nfc, v.id, 0, map[], active + {v.id});
      }
    }
  }

  lemma {:induction false} NormalItemsResult(heap: Heap, nfc: Nfc, id: Ref, i: nat, done: seq<Json>, active: set<Ref>)
    requires Idempotent(nfc) && Closed(heap) && id in heap && heap[id].List? && i <= |heap[id].items|
    requires IsNormal(nfc, Arr(done)) && NormalItems(heap, nfc, id, i, done, active).Ok?
    ensures IsNormal(nfc, Arr(NormalItems(heap, nfc, id, i, done, active).value))
    decreases |heap.Keys - active|, 3, |heap[id].items| - i
  {
    if i < |heap[id].items| {
      assert Children(heap[id])[i] == heap[id].items[i];
      NormalResult(heap, nfc, heap[id].items[i], active);
      var first := Normal(heap, nfc, heap[id].items[i], active).value;
      NormalItemsResult(heap, nfc, id, i + 1, done + [first], active);
    }
  }

  lemma {:induction false} NormalEntriesResult(heap: Heap, nfc: Nfc, id: Ref, i: nat, done: map<string, Json>, active: set<Ref>)
    requires Idempotent(nfc) && Closed(heap) && id in heap && heap[id].Dict? && i <= |heap[id].entries|
    requires IsNormal(nfc, Obj(done)) && NormalEntries(heap, nfc, id, i, done, active).Ok?
    ensures IsNormal(nfc, Obj(NormalEntries(heap, nfc, id, i, done, active).value))
    decreases |heap.Keys - active|, 3, |heap[id].entries| - i
  {
    var entries := heap[id].entries;
    if i < |entries| {
      assert Children(heap[id])[i] == entries[i].1;
      NormalResult(heap, nfc, entries[i].1, active);
      var key := nfc(entries[i].0.s);
      var first := Normal(heap, nfc, entries[i].1, active).value;
      assert nfc(key) == key;
      NormalEntriesResult(heap, nfc, id, i + 1, done[key := first], active);
    }
  }

  /** The objects below a value are exactly this tree. */
  ghost predicate Represents(heap: Heap, v: Term, t: Json)
    decreases t
  {
    match t
    case Null => v.NoneTerm?
    case Bool(b) => v == BoolTerm(b)
    case Int(n) => v == IntTerm(n)
    case Real(repr) => v == FloatTerm(repr)
    case Str(s) => v == TextTerm(s)
    case Arr(items) =>
      && v.Container? && v.id in heap && heap[v.id].List? && |heap[v.id].items| == |items|
      && forall i :: 0 <= i < |items| ==> Represents(heap, heap[v.id].items[i], items[i])
    case Obj(members) =>
      && v.Container? && v.id in heap && heap[v.id].Dict?
      && var entries := heap[v.id].entries;
         && (forall i :: 0 <= i < |entries| ==>
               entries[i].0.TextKey? && entries[i].0.s in members && Represents(heap, entries[i].1, members[entries[i].0.s]))
         && (forall i, j :: 0 <= i < j < |entries| ==> entries[i].0 != entries[j].0)
         && forall k :: k in members ==> exists i :: 0 <= i < |entries| && entries[i].0 == TextKey(k)
  }

  /* ---- Trees ---- */

  predicate KeysApart(nfc: Nfc, members: map<string, Json>) {
    forall k, l :: k in members && l in members && k != l ==> nfc(k) != nfc(l)
  }

  predicate ItemsNormalise(nfc: Nfc, t: Json)
    requires t.Arr?
    decreases t, 0
  {
    forall i :: 0 <= i < |t.items| ==> TreeNormal(nfc, t.items[i]).Some?
  }

  predicate MembersNormalise(nfc: Nfc, t: Json)
    requires t.Obj?
    decreases t, 0
  {
    forall k :: k in t.members ==> TreeNormal(nfc, t.members[k]).Some?
  }

  /** The key that normalises to this one. */
  function SpelledKey(nfc: Nfc, members: map<string, Json>, x: string): (k: string)
    requires KeysApart(nfc, members) && exists k :: k in members && nfc(k) == x
    ensures k in members && nfc(k) == x
  {
    var k :| k in members && nfc(k) == x;
    k
  }

  /** The members under their normalised keys. */
  function NormalMembers(nfc: Nfc, t: Json): (r: map<string, Json>)
    requires t.Obj? && KeysApart(nfc, t.members) && MembersNormalise(nfc, t)
    ensures forall k :: k in t.members ==> nfc(k) in r && r[nfc(k)] == TreeNormal(nfc, t.members[k]).value
    ensures forall x :: x in r ==> exists k :: k in t.members && nfc(k) == x
    decreases t, 1
  {
    var normal := set k | k in t.members :: nfc(k);
    map x | x in normal :: TreeNormal(nfc, t.members[SpelledKey(nfc, t.members, x)]).value
  }

  /** The normal form of a tree, unless two of its keys become one. */
  function TreeNormal(nfc: Nfc, t: Json): Option<Json>
    decreases t, 2
  {
    match t
    case Str(s) => Some(Str(nfc(s)))
    case Arr(items) =>
      if ItemsNormalise(nfc, t)
      then Some(Arr(seq(|items|, i requires 0 <= i < |items| => TreeNormal(nfc, items[i]).value)))
      else None
    case Obj(members) =>
      if KeysApart(nfc, members) && MembersNormalise(nfc, t)
      then Some(Obj(NormalMembers(nfc, t)))
      else None
    case _ => Some(t)
  }

  /** Both answers agree, unless the walk met itself. */
  ghost predicate Agrees(r: Result<Json, NormalError>, t: Option<Json>) {
    r == Err(Cyclic) || (if r.Ok? then t == Some(r.value) else t == None)
  }

  lemma {:induction false} TreeOrCyclic(heap: Heap, nfc: Nfc, v: Term, t: Json, active: set<Ref>)
    requires Closed(heap) && Within(heap, v) && Represents(heap, v, t)
    ensures Agrees(Normal(heap, nfc, v, active), TreeNormal(nfc, t))
    decreases t, 1, 0
  {
    if v.Container? && v.id !in active {
      SmallerBudget(heap, active, v.id);
      if t.Arr? {
        TreeItems(heap, nfc, v.id, t, 0, [], active + {v.id});
      } else {
        TreeEntries(heap, nfc, v.id, t, 0, map[], active + {v.id});
      }
    }
  }

  lemma {:induction false} TreeItems(heap: Heap, nfc: Nfc, id: Ref, t: Json, i: nat, done: seq<Json>, active: set<Ref>)
    requires Closed(heap) && id in heap && t.Arr? && Represents(heap, Container(id), t) && i <= |t.items| == |heap[id].items|
    requires |done| == i && forall j :: 0 <= j < i ==> TreeNormal(nfc, t.items[j]) == Some(done[j])
    ensures var r := NormalItems(heap, nfc, id, i, done, active);
            r == Err(Cyclic) || (if r.Ok? then TreeNormal(nfc, t) == Some(Arr(r.value)) else TreeNormal(nfc, t) == None)
    decreases t, 0, |t.items| - i
  {
    if i == |t.items| {
      assert ItemsNormalise(nfc, t);
      assert TreeNormal(nfc, t).value.items == done;
    } else {
      assert Children(heap[id])[i] == heap[id].items[i];
      TreeOrCyclic(heap, nfc, heap[id].items[i], t.items[i], active);
      var first := Normal(heap, nfc, heap[id].items[i], active);
      if first.Ok? { TreeItems(heap, nfc, id, t, i + 1, done + [first.value], active); }
    }
  }

  ghost predicate FromEntry(nfc: Nfc, entries: seq<(Key, Term)>, members: map<string, Json>, j: nat, k: string, x: Json)
    requires j < |entries|
  {
    && entries[j].0.TextKey? && entries[j].0.s in members && nfc(entries[j].0.s) == k
    && TreeNormal(nfc, members[entries[j].0.s]) == Some(x)
  }

  /** The members read from the first entries of an object. */
  ghost predicate DoneFirst(nfc: Nfc, entries: seq<(Key, Term)>, members: map<string, Json>, i: nat, done: map<string, Json>) {
    && i <= |entries|
    && (forall k :: k in done ==> exists j :: 0 <= j < i && FromEntry(nfc, entries, members, j, k, done[k]))
    && (forall j :: 0 <= j < i ==>
          entries[j].0.TextKey? && nfc(entries[j].0.s) in done
          && FromEntry(nfc, entries, members, j, nfc(entries[j].0.s), done[nfc(entries[j].0.s)]))
  }

  lemma {:induction false} EntryFacts(heap: Heap, id: Ref, t: Json, i: nat)
    requires t.Obj? && Represents(heap, Container(id), t) && i < |heap[id].entries|
    ensures var entries := heap[id].entries;
            && entries[i].0.TextKey? && entries[i].0.s in t.members
            && Represents(heap, entries[i].1, t.members[entries[i].0.s])
    ensures forall j :: 0 <= j < i ==> heap[id].entries[j].0 != heap[id].entries[i].0
  {
  }

  /** A key that is already there normalised means two keys of the tree become one. */
  lemma EntryClash(nfc: Nfc, entries: seq<(Key, Term)>, members: map<string, Json>, i: nat, done: map<string, Json>)
    requires DoneFirst(nfc, entries, members, i, done) && i < |entries| && entries[i].0.TextKey? && entries[i].0.s in members
    requires (forall j :: 0 <= j < i ==> entries[j].0 != entries[i].0) && nfc(entries[i].0.s) in done
    ensures !KeysApart(nfc, members)
  {
    var key := nfc(entries[i].0.s);
    var j :| 0 <= j < i && FromEntry(nfc, entries, members, j, key, done[key]);
    assert entries[j].0 != entries[i].0;
  }

  lemma DoneNext(nfc: Nfc, entries: seq<(Key, Term)>, members: map<string, Json>, i: nat, done: map<string, Json>, x: Json)
    requires DoneFirst(nfc, entries, members, i, done) && i < |entries|
    requires entries[i].0.TextKey? && nfc(entries[i].0.s) !in done
    requires FromEntry(nfc, entries, members, i, nfc(entries[i].0.s), x)
    ensures DoneFirst(nfc, entries, members, i + 1, done[nfc(entries[i].0.s) := x])
  {
    hide FromEntry;
    var key := nfc(entries[i].0.s);
    var next := done[key := x];
    forall k | k in next ensures exists j :: 0 <= j < i + 1 && FromEntry(nfc, entries, members, j, k, next[k]) {
      if k == key {
        assert FromEntry(nfc, entries, members, i, k, next[k]);
      } else {
        var j :| 0 <= j < i && FromEntry(nfc, entries, members, j, k, done[k]);
      }
    }
  }

  lemma MemberEntry(heap: Heap, id: Ref, t: Json, k: string) returns (i: nat)
    requires t.Obj? && Represents(heap, Container(id), t) && k in t.members
    ensures i < |heap[id].entries| && heap[id].entries[i].0 == TextKey(k)
  {
    i :| 0 <= i < |heap[id].entries| && heap[id].entries[i].0 == TextKey(k);
  }

  lemma {:induction false} NormalMember(nfc: Nfc, t: Json, k: string)
    requires t.Obj? && KeysApart(nfc, t.members) && MembersNormalise(nfc, t) && k in t.members
    ensures TreeNormal(nfc, t).Some? && TreeNormal(nfc, t).value.Obj?
    ensures var normal := TreeNormal(nfc, t).value.members;
            nfc(k) in normal && normal[nfc(k)] == TreeNormal(nfc, t.members[k]).value
  {
  }

  lemma NormalKey(nfc: Nfc, t: Json, x: string) returns (k: string)
    requires t.Obj? && TreeNormal(nfc, t).Some? && TreeNormal(nfc, t).value.Obj? && x in TreeNormal(nfc, t).value.members
    ensures k in t.members && nfc(k) == x
  {
    k :| k in t.members && nfc(k) == x;
  }

  lemma {:induction false} ObjectNormal(nfc: Nfc, x: Json)
    requires x.Obj?
    ensures TreeNormal(nfc, x) ==
            if KeysApart(nfc, x.members) && MembersNormalise(nfc, x) then Some(Obj(NormalMembers(nfc, x))) else None
  {
    hide KeysApart, MembersNormalise, NormalMembers;
  }

  lemma {:induction false} DoneAll(heap: Heap, nfc: Nfc, id: Ref, t: Json, done: map<string, Json>)
    requires id in heap && heap[id].Dict? && t.Obj? && Represents(heap, Container(id), t)
    requires DoneFirst(nfc, heap[id].entries, t.members, |heap[id].entries|, done) && KeysApart(nfc, t.members)
    ensures TreeNormal(nfc, t) == Some(Obj(done))
  {
    hide Represents, TreeNormal;
    var entries := heap[id].entries;
    forall k | k in t.members
      ensures nfc(k) in done && TreeNormal(nfc, t.members[k]) == Some(done[nfc(k)])
    {
      var i := MemberEntry(heap, id, t, k);
      assert FromEntry(nfc, entries, t.members, i, nfc(k), done[nfc(k)]);
    }
    assert MembersNormalise(nfc, t);
    ObjectNormal(nfc, t);
    var normal := NormalMembers(nfc, t);
    hide KeysApart, MembersNormalise, NormalMembers;
    forall x | x in normal ensures x in done && done[x] == normal[x] {
      var k :| k in t.members && nfc(k) == x;
    }
    forall x | x in done ensures x in normal {
      var j :| 0 <= j < |entries| && FromEntry(nfc, entries, t.members, j, x, done[x]);
      assert entries[j].0.s in t.members;
    }
    assert normal == done;
  }

  /** Entries read without a clash come from keys that stay apart. */
  lemma {:induction false} DoneApart(heap: Heap, nfc: Nfc, id: Ref, t: Json, i: nat, done: map<string, Json>)
    requires id in heap && heap[id].Dict? && t.Obj? && Represents(heap, Container(id), t)
    requires DoneFirst(nfc, heap[id].entries, t.members, i, done) && i < |heap[id].entries|
    requires TreeNormal(nfc, t.members[heap[id].entries[i].0.s]) == None
    ensures TreeNormal(nfc, t) == None
  {
    EntryFacts(heap, id, t, i);
  }

  /** The first normalised keys are pairwise different. */
  ghost predicate KeysApartFirst(nfc: Nfc, entries: seq<(Key, Term)>, i: nat)
    requires i <= |entries|
  {
    forall j, k :: 0 <= j < k < i && entries[j].0.TextKey? && entries[k].0.TextKey? ==> nfc(entries[j].0.s) != nfc(entries[k].0.s)
  }

  lemma {:induction false} ApartAll(heap: Heap, nfc: Nfc, id: Ref, t: Json)
    requires id in heap && heap[id].Dict? && t.Obj? && Represents(heap, Container(id), t)
    requires KeysApartFirst(nfc, heap[id].entries, |heap[id].entries|)
    ensures KeysApart(nfc, t.members)
  {
    hide Represents;
    var entries := heap[id].entries;
    forall k, l | k in t.members && l in t.members && k != l ensures nfc(k) != nfc(l) {
      var i := MemberEntry(heap, id, t, k);
      var j := MemberEntry(heap, id, t, l);
      assert if i < j then nfc(entries[i].0.s) != nfc(entries[j].0.s) else nfc(entries[j].0.s) != nfc(entries[i].0.s);
    }
  }

  lemma ApartNext(nfc: Nfc, entries: seq<(Key, Term)>, members: map<string, Json>, i: nat, done: map<string, Json>)
    requires DoneFirst(nfc, entries, members, i, done) && i < |entries| && KeysApartFirst(nfc, entries, i)
    requires entries[i].0.TextKey? ==> nfc(entries[i].0.s) !in done
    ensures KeysApartFirst(nfc, entries, i + 1)
  {
  }

  lemma {:induction false} TreeEntries(heap: Heap, nfc: Nfc, id: Ref, t: Json, i: nat, done: map<string, Json>, active: set<Ref>)
    requires Closed(heap) && id in heap && heap[id].Dict? && t.Obj? && Represents(heap, Container(id), t)
    requires DoneFirst(nfc, heap[id].entries, t.members, i, done) && KeysApartFirst(nfc, heap[id].entries, i)
    ensures var r := NormalEntries(heap, nfc, id, i, done, active);
            r == Err(Cyclic) || (if r.Ok? then TreeNormal(nfc, t) == Some(Obj(r.value)) else TreeNormal(nfc, t) == None)
    decreases t, 0, |heap[id].entries| - i
  {
    hide Represents, Normal, DoneFirst, KeysApartFirst, TreeNormal, KeysApart;
    var entries := heap[id].entries;
    DoneBounded(nfc, entries, t.members, i, done);
    if i == |entries| {
      ApartAll(heap, nfc, id, t);
      DoneAll(heap, nfc, id, t, done);
    } else {
      EntryFacts(heap, id, t, i);
      assert Children(heap[id])[i] == entries[i].1;
      var k := entries[i].0.s;
      if nfc(k) in done {
        EntryClash(nfc, entries, t.members, i, done);
        ClashedTree(nfc, t);
      } else {
        TreeOrCyclic(heap, nfc, entries[i].1, t.members[k], active);
        var first := Normal(heap, nfc, entries[i].1, active);
        ApartNext(nfc, entries, t.members, i, done);
        if first.Ok? {
          DoneNext(nfc, entries, t.members, i, done, first.value);
          TreeEntries(heap, nfc, id, t, i + 1, done[nfc(k) := first.value], active);
        } else if first.error != Cyclic {
          DoneApart(heap, nfc, id, t, i, done);
        }
      }
    }
  }

  lemma DoneBounded(nfc: Nfc, entries: seq<(Key, Term)>, members: map<string, Json>, i: nat, done: map<string, Json>)
    requires DoneFirst(nfc, entries, members, i, done)
    ensures i <= |entries|
  {
  }

  lemma {:induction false} ClashedTree(nfc: Nfc, t: Json)
    requires t.Obj? && !KeysApart(nfc, t.members)
    ensures TreeNormal(nfc, t) == None
  {
    hide KeysApart;
  }

  /** A tree already in normal form is its own normal form. */
  lemma {:induction false} NormalFixed(nfc: Nfc, t: Json)
    requires IsNormal(nfc, t)
    ensures TreeNormal(nfc, t) == Some(t)
    decreases t
  {
    match t
    case Arr(items) =>
      forall i | 0 <= i < |items| ensures TreeNormal(nfc, items[i]) == Some(items[i]) { NormalFixed(nfc, items[i]); }
      assert ItemsNormalise(nfc, t);
      assert TreeNormal(nfc, t).value.items == items;
    case Obj(members) =>
      forall k | k in members ensures TreeNormal(nfc, members[k]) == Some(members[k]) { NormalFixed(nfc, members[k]); }
      assert MembersNormalise(nfc, t) && KeysApart(nfc, members);
      var normal := TreeNormal(nfc, t).value.members;
      forall k | k in members ensures k in normal && normal[k] == members[k] { NormalMember(nfc, t, k); }
      forall x | x in normal ensures x in members { var k := NormalKey(nfc, t, x); }
      assert normal == members;
    case _ =>
  }

  lemma {:induction false} CommonDepth(heap: Heap, vs: seq<Term>) returns (depth: nat)
    requires forall i :: 0 <= i < |vs| ==> HasTree(heap, vs[i])
    ensures forall i :: 0 <= i < |vs| ==> Finite(heap, vs[i], depth)
    decreases |vs|
  {
    if vs == [] {
      depth := 0;
    } else {
      var rest := CommonDepth(heap, vs[1..]);
      var first: nat :| Finite(heap, vs[0], first);
      depth := if first < rest then rest else first;
      FiniteGrows(heap, vs[0], first, depth);
      forall i | 0 < i < |vs| ensures Finite(heap, vs[i], depth) {
        assert vs[i] == vs[1..][i - 1];
        FiniteGrows(heap, vs[i], rest, depth);
      }
    }
  }

  lemma {:induction false} RepresentedHasTree(heap: Heap, v: Term, t: Json)
    requires Represents(heap, v, t)
    ensures HasTree(heap, v)
    decreases t
  {
    if v.Container? {
      var children := Children(heap[v.id]);
      forall i | 0 <= i < |children| ensures HasTree(heap, children[i]) {
        if t.Arr? {
          RepresentedHasTree(heap, children[i], t.items[i]);
        } else {
          RepresentedHasTree(heap, children[i], t.members[heap[v.id].entries[i].0.s]);
        }
      }
      var depth := CommonDepth(heap, children);
      assert Finite(heap, v, depth + 1);
    } else {
      assert Finite(heap, v, 0);
    }
  }

  /** Objects that hold a tree normalise to the normal form of the tree. */
  lemma {:induction false} NormalIsTreeNormal(heap: Heap, nfc: Nfc, v: Term, t: Json)
    requires Closed(heap) && Within(heap, v) && Represents(heap, v, t)
    ensures Normal(heap, nfc, v, {}).Ok? <==> TreeNormal(nfc, t).Some?
    ensures Normal(heap, nfc, v, {}).Ok? ==> TreeNormal(nfc, t) == Some(Normal(heap, nfc, v, {}).value)
  {
    TreeOrCyclic(heap, nfc, v, t, {});
    RepresentedHasTree(heap, v, t);
    CycleExact(heap, nfc, v);
  }

  /**
   Normalising is idempotent: whatever objects hold the result of one pass, a
   second pass returns the same result.
   */
  lemma {:induction false} NormalIdempotent(heap: Heap, heap': Heap, nfc: Nfc, v: Term, v': Term)
    requires Idempotent(nfc) && Closed(heap) && Within(heap, v) && Closed(heap') && Within(heap', v')
    requires Normal(heap, nfc, v, {}).Ok? && Represents(heap', v', Normal(heap, nfc, v, {}).value)
    ensures Normal(heap', nfc, v', {}) == Normal(heap, nfc, v, {})
  {
    hide Represents, IsNormal, TreeNormal, Closed, Within;
    var t := Normal(heap, nfc, v, {}).value;
    NormalResult(heap, nfc, v, {});
    NormalFixed(nfc, t);
    NormalIsTreeNormal(heap', nfc, v', t);
  }

  /* ---- Sorted lines ---- */

  /** Tuples of texts compare at the first difference. */
  predicate TupleLess(a: seq<string>, b: seq<string>) {
    b != [] && (a == [] || Less(a[0], b[0]) || (a[0] == b[0] && TupleLess(a[1..], b[1..])))
  }

  lemma {:induction false} TupleIrreflexive(a: seq<string>)
    ensures !TupleLess(a, a)
  {
    if a != [] {
      LessIrreflexive(a[0]);
      TupleIrreflexive(a[1..]);
    }
  }

  lemma {:induction false} TupleTransitive(a: seq<string>, b: seq<string>, c: seq<string>)
    requires TupleLess(a, b) && TupleLess(b, c)
    ensures TupleLess(a, c)
  {
    if a != [] {
      if Less(a[0], b[0]) && Less(b[0], c[0]) { LessTransitive(a[0], b[0], c[0]); }
      if a[0] == b[0] && b[0] == c[0] && TupleLess(a[1..], b[1..]) && TupleLess(b[1..], c[1..]) {
        TupleTransitive(a[1..], b[1..], c[1..]);
      }
    }
  }

  lemma {:induction false} TupleTotal(a: seq<string>, b: seq<string>)
    ensures a == b || TupleLess(a, b) || TupleLess(b, a)
  {
    if a != [] && b != [] {
      LessTotal(a[0], b[0]);
      TupleTotal(a[1..], b[1..]);
      assert a == [a[0]] + a[1..] && b == [b[0]] + b[1..];
    }
  }

  predicate RecordFits(keys: seq<string>, t: Json) {
    t.Obj? && forall i :: 0 <= i < |keys| ==> keys[i] in t.members && t.members[keys[i]].Str?
  }

  function KeyTuple(keys: seq<string>, t: Json): seq<string> {
    if RecordFits(keys, t) then seq(|keys|, i requires 0 <= i < |keys| => t.members[keys[i]].s) else []
  }

  function RecordOrder(keys: seq<string>): (Json, Json) -> bool {
    (x: Json, y: Json) => TupleLess(KeyTuple(keys, x), KeyTuple(keys, y))
  }

  lemma RecordOrderStrict(keys: seq<string>)
    ensures StrictOrder(RecordOrder(keys))
  {
    hide KeyTuple, TupleLess;
    var before := RecordOrder(keys);
    forall x ensures !before(x, x) { TupleIrreflexive(KeyTuple(keys, x)); }
    forall x, y, z | before(x, y) && before(y, z) ensures before(x, z) {
      TupleTransitive(KeyTuple(keys, x), KeyTuple(keys, y), KeyTuple(keys, z));
    }
    forall x, y, z | before(x, z) ensures before(x, y) || before(y, z) {
      TupleTotal(KeyTuple(keys, x), KeyTuple(keys, y));
      if TupleLess(KeyTuple(keys, y), KeyTuple(keys, x)) {
        TupleTransitive(KeyTuple(keys, y), KeyTuple(keys, x), KeyTuple(keys, z));
      }
    }
  }

  function Lines(records: seq<Json>): string {
    if records == [] then "" else Print(records[0]) + ("\n" + Lines(records[1..]))
  }

  function JsonlText(keys: seq<string>, records: seq<Json>): string {
    Lines(Sort(RecordOrder(keys), records))
  }

  lemma {:induction false} LinesEmpty(records: seq<Json>)
    ensures Lines(records) == "" <==> records == []
  {
    hide Print;
    if records != [] { PrintStart(records[0]); }
  }

  /** The lines determine the records and their order. */
  lemma {:induction false} LinesInjective(a: seq<Json>, b: seq<Json>)
    requires Lines(a) == Lines(b)
    ensures a == b
    decreases |a| + |b|
  {
    hide Print;
    LinesEmpty(a);
    LinesEmpty(b);
    if a != [] && b != [] {
      var x, y := "\n" + Lines(a[1..]), "\n" + Lines(b[1..]);
      ReadPrinted(a[0], x);
      ReadPrinted(b[0], y);
      assert x == y;
      assert x[1..] == Lines(a[1..]) && y[1..] == Lines(b[1..]);
      LinesInjective(a[1..], b[1..]);
      assert a == [a[0]] + a[1..] && b == [b[0]] + b[1..];
    }
  }

  /** Distinct records among these have distinct key tuples. */
  ghost predicate TuplesDistinct(keys: seq<string>, records: seq<Json>) {
    forall x, y :: x in records && y in records && x != y ==> KeyTuple(keys, x) != KeyTuple(keys, y)
  }

  lemma TuplesSeparate(keys: seq<string>, records: seq<Json>)
    ensures TuplesDistinct(keys, records) <==> Separated(RecordOrder(keys), records)
  {
    hide KeyTuple, TupleLess;
    forall x, y
      ensures KeyTuple(keys, x) != KeyTuple(keys, y) <==> RecordOrder(keys)(x, y) || RecordOrder(keys)(y, x)
    {
      TupleTotal(KeyTuple(keys, x), KeyTuple(keys, y));
      TupleIrreflexive(KeyTuple(keys, x));
    }
  }

  /** The lines are the records in key order, none lost and none added. */
  lemma {:induction false} JsonlSorted(keys: seq<string>, records: seq<Json>)
    ensures JsonlText(keys, records) == Lines(Sort(RecordOrder(keys), records))
    ensures multiset(Sort(RecordOrder(keys), records)) == multiset(records)
    ensures Ordered(RecordOrder(keys), Sort(RecordOrder(keys), records))
  {
    RecordOrderStrict(keys);
    SortPermutes(RecordOrder(keys), records);
    SortOrders(RecordOrder(keys), records);
  }

  ghost predicate OrderIrrelevant(keys: seq<string>, records: seq<Json>) {
    forall other :: multiset(other) == multiset(records) ==> JsonlText(keys, other) == JsonlText(keys, records)
  }

  lemma TakeOut(records: seq<Json>, x: Json) returns (rest: seq<Json>)
    requires x in records
    ensures multiset(records) == multiset(rest) + multiset{x}
  {
    var i :| 0 <= i < |records| && records[i] == x;
    rest := records[..i] + records[i + 1..];
    assert records == records[..i] + [x] + records[i + 1..];
  }

  lemma TwoApart(records: seq<Json>, x: Json, y: Json) returns (rest: seq<Json>)
    requires x in records && y in records && x != y
    ensures multiset([x, y] + rest) == multiset(records) == multiset([y, x] + rest)
  {
    var without := TakeOut(records, x);
    MemberOf(y, records);
    assert y in multiset(without);
    rest := TakeOut(without, y);
  }

  /** The text is independent of the input order exactly when the key tuples are distinct. */
  lemma JsonlOrderExact(keys: seq<string>, records: seq<Json>)
    ensures OrderIrrelevant(keys, records) <==> TuplesDistinct(keys, records)
  {
    hide KeyTuple, TupleLess, Lines;
    var before := RecordOrder(keys);
    RecordOrderStrict(keys);
    TuplesSeparate(keys, records);
    if Separated(before, records) {
      forall other | multiset(other) == multiset(records) ensures JsonlText(keys, other) == JsonlText(keys, records) {
        SortOrderIndependent(before, records, other);
      }
    } else {
      var x, y :| x in records && y in records && x != y && !before(x, y) && !before(y, x);
      var rest := TwoApart(records, x, y);
      TiesMatter(before, x, y, rest);
      if JsonlText(keys, [x, y] + rest) == JsonlText(keys, [y, x] + rest) {
        LinesInjective(Sort(before, [x, y] + rest), Sort(before, [y, x] + rest));
      }
    }
  }

  /* ---- Writing the lines ---- */

  datatype JsonlError = SortKeyNotText | SortKeyCollision | BadRecord(error: NormalError) | RecordMismatch

  predicate KeysAccepted(nfc: Nfc, keys: seq<Key>) {
    && (forall i :: 0 <= i < |keys| ==> keys[i].TextKey?)
    && forall i, j :: 0 <= i < j < |keys| ==> nfc(keys[i].s) != nfc(keys[j].s)
  }

  function NormalKeys(nfc: Nfc, keys: seq<Key>): seq<string>
    requires forall i :: 0 <= i < |keys| ==> keys[i].TextKey?
  {
    seq(|keys|, i requires 0 <= i < |keys| => nfc(keys[i].s))
  }

  method CheckSortKeys(nfc: Nfc, keys: seq<Key>) returns (r: Result<seq<string>, JsonlError>)
    ensures r.Ok? <==> KeysAccepted(nfc, keys)
    ensures r.Ok? ==> r.value == NormalKeys(nfc, keys)
  {
    var done: seq<string> := [];
    for i := 0 to |keys|
      invariant |done| == i && forall j :: 0 <= j < i ==> keys[j].TextKey? && done[j] == nfc(keys[j].s)
      invariant forall j, k :: 0 <= j < k < i ==> done[j] != done[k]
    {
      if keys[i].OtherKey? { return Err(SortKeyNotText); }
      var key := nfc(keys[i].s);
      if key in done { return Err(SortKeyCollision); }
      done := done + [key];
    }
    r := Ok(done);
  }

  ghost predicate RecordAccepted(heap: Heap, nfc: Nfc, keys: seq<string>, v: Term)
    requires Closed(heap) && Within(heap, v)
  {
    var t := Normal(heap, nfc, v, {});
    t.Ok? && RecordFits(keys, t.value)
  }

  /** Normalises every record, sorts them by the declared keys and writes one line each. */
  method CanonicalJsonl(heap: Heap, nfc: Nfc, records: seq<Term>, sortKeys: seq<Key>)
    returns (r: Result<string, JsonlError>)
    requires Closed(heap) && forall i :: 0 <= i < |records| ==> Within(heap, records[i])
    ensures r.Ok? <==>
              && KeysAccepted(nfc, sortKeys)
              && forall i :: 0 <= i < |records| ==> RecordAccepted(heap, nfc, NormalKeys(nfc, sortKeys), records[i])
    ensures r.Ok? ==>
              r.value == JsonlText(NormalKeys(nfc, sortKeys),
                                   seq(|records|, i requires 0 <= i < |records| => Normal(heap, nfc, records[i], {}).value))
  {
    hide JsonlText, Normal, RecordFits;
    var keys := CheckSortKeys(nfc, sortKeys);
    if keys.Err? { return Err(keys.error); }
    var walker := new Normalizer(heap, nfc);
    var done: seq<Json> := [];
    for i := 0 to |records|
      invariant |done| == i && walker.active == {} && walker.heap == heap && walker.nfc == nfc
      invariant forall j :: 0 <= j < i ==>
                  RecordAccepted(heap, nfc, keys.value, records[j]) && done[j] == Normal(heap, nfc, records[j], {}).value
    {
      var t := walker.Normalize(records[i]);
      if t.Err? { return Err(BadRecord(t.error)); }
      if !RecordFits(keys.value, t.value) { return Err(RecordMismatch); }
      done := done + [t.value];
    }
    assert done == seq(|records|, i requires 0 <= i < |records| => Normal(heap, nfc, records[i], {}).value);
    r := Ok(JsonlText(keys.value, done));
  }

  /* ---- Manifest hashes ---- */

  /** Hashing a canonical text. */
  type TextSha = string -> string

  const MANIFEST_HASH := "manifest_hash"

  datatype ManifestError = NotNormal(error: NormalError) | NotObject

  /** The members the hash covers. */
  function Unsealed(t: Json): map<string, Json>
    requires t.Obj?
  {
    t.members - {MANIFEST_HASH}
  }

  /** Normalises the manifest and hashes everything but its own hash field. */
  function ManifestSha(hash: TextSha, heap: Heap, nfc: Nfc, v: Term): Result<string, ManifestError>
    requires Closed(heap) && Within(heap, v)
  {
    var t := Normal(heap, nfc, v, {});
    if t.Err? then Err(NotNormal(t.error))
    else if !t.value.Obj? then Err(NotObject)
    else Ok(hash(Print(Obj(Unsealed(t.value)))))
  }

  /** The manifest's canonical text with one line feed at its end. */
  function SealedText(heap: Heap, nfc: Nfc, v: Term): Result<string, ManifestError>
    requires Closed(heap) && Within(heap, v)
  {
    var t := Normal(heap, nfc, v, {});
    if t.Err? then Err(NotNormal(t.error)) else if !t.value.Obj? then Err(NotObject) else Ok(Print(t.value) + "\n")
  }

  /**
   Manifests that normalise to objects share a hash exactly when their normal forms
   agree on every field but the hash.
   */
  lemma {:induction false} ManifestHashExact(hash: TextSha, heap: Heap, heap': Heap, nfc: Nfc, v: Term, v': Term)
    requires Injective(hash) && Closed(heap) && Within(heap, v) && Closed(heap') && Within(heap', v')
    requires ManifestSha(hash, heap, nfc, v).Ok? && ManifestSha(hash, heap', nfc, v').Ok?
    ensures ManifestSha(hash, heap, nfc, v) == ManifestSha(hash, heap', nfc, v') <==>
            Unsealed(Normal(heap, nfc, v, {}).value) == Unsealed(Normal(heap', nfc, v', {}).value)
  {
    hide Print, Normal, Closed, Within;
    var x, y := Obj(Unsealed(Normal(heap, nfc, v, {}).value)), Obj(Unsealed(Normal(heap', nfc, v', {}).value));
    if ManifestSha(hash, heap, nfc, v) == ManifestSha(hash, heap', nfc, v') {
      assert Print(x) == Print(y);
      PrintInjective(x, y);
    }
  }

  /** The same texts come from the same normal forms. */
  lemma {:induction false} SealedTextExact(heap: Heap, heap': Heap, nfc: Nfc, v: Term, v': Term)
    requires Closed(heap) && Within(heap, v) && Closed(heap') && Within(heap', v')
    requires SealedText(heap, nfc, v).Ok? && SealedText(heap', nfc, v').Ok?
    ensures SealedText(heap, nfc, v) == SealedText(heap', nfc, v') <==> Normal(heap, nfc, v, {}) == Normal(heap', nfc, v', {})
  {
    hide Print, Normal, Closed, Within;
    var x, y := Normal(heap, nfc, v, {}).value, Normal(heap', nfc, v', {}).value;
    if SealedText(heap, nfc, v) == SealedText(heap', nfc, v') {
      assert (Print(x) + "\n")[..|Print(x)|] == Print(x) && (Print(y) + "\n")[..|Print(y)|] == Print(y);
      PrintInjective(x, y);
    }
  }

  /** The normal form of a tree is in normal form. */
  lemma {:induction false} TreeNormalNormal(nfc: Nfc, t: Json)
    requires Idempotent(nfc) && TreeNormal(nfc, t).Some?
    ensures IsNormal(nfc, TreeNormal(nfc, t).value)
    decreases t
  {
    match t
    case Arr(items) =>
      forall i | 0 <= i < |items| ensures IsNormal(nfc, TreeNormal(nfc, items[i]).value) { TreeNormalNormal(nfc, items[i]); }
    case Obj(members) =>
      ObjectNormal(nfc, t);
      var normal := NormalMembers(nfc, t);
      forall x | x in normal ensures nfc(x) == x && IsNormal(nfc, normal[x]) {
        var k :| k in members && nfc(k) == x;
        TreeNormalNormal(nfc, members[k]);
      }
    case _ =>
  }

  /** The tree with its hash written into it. */
  function Seal(t: Json, seal: Json): Json
    requires t.Obj?
  {
    Obj(t.members[MANIFEST_HASH := seal])
  }

  lemma {:induction false} SealNormalise(nfc: Nfc, t: Json, seal: Json)
    requires t.Obj?
    ensures Seal(t, seal).Obj?
    ensures MembersNormalise(nfc, Seal(t, seal)) <==> MembersNormalise(nfc, Obj(Unsealed(t))) && TreeNormal(nfc, seal).Some?
  {
    hide TreeNormal;
    var s, u := Seal(t, seal), Obj(Unsealed(t));
    if MembersNormalise(nfc, s) {
      assert MANIFEST_HASH in s.members;
      forall k | k in u.members ensures TreeNormal(nfc, u.members[k]).Some? { assert k in s.members; }
    }
    if MembersNormalise(nfc, u) && TreeNormal(nfc, seal).Some? {
      forall k | k in s.members ensures TreeNormal(nfc, s.members[k]).Some? {
        if k != MANIFEST_HASH { assert k in u.members; }
      }
    }
  }

  lemma HashNameFixed(nfc: Nfc)
    requires PlainFixed(nfc)
    ensures nfc(MANIFEST_HASH) == MANIFEST_HASH
  {
    assert IsPlain(MANIFEST_HASH);
  }

  lemma SealApart(nfc: Nfc, t: Json, seal: Json)
    requires t.Obj? && PlainFixed(nfc)
    ensures KeysApart(nfc, Seal(t, seal).members) <==> KeysApart(nfc, Unsealed(t))
  {
    assert IsPlain(MANIFEST_HASH);
    hide IsPlain;
    var s, u := Seal(t, seal).members, Unsealed(t);
    if KeysApart(nfc, u) {
      forall k, l | k in s && l in s && k != l ensures nfc(k) != nfc(l) {
        if k != MANIFEST_HASH && l != MANIFEST_HASH { assert k in u && l in u; }
      }
    }
    if KeysApart(nfc, s) {
      forall k, l | k in u && l in u && k != l ensures nfc(k) != nfc(l) { assert k in s && l in s; }
    }
  }

  /** A sealed manifest normalises exactly when the seal and everything else in it do. */
  lemma {:induction false} SealNormal(nfc: Nfc, t: Json, seal: Json)
    requires t.Obj? && PlainFixed(nfc)
    ensures TreeNormal(nfc, Seal(t, seal)).Some? <==> TreeNormal(nfc, Obj(Unsealed(t))).Some? && TreeNormal(nfc, seal).Some?
  {
    hide *;
    SealNormalise(nfc, t, seal);
    SealApart(nfc, t, seal);
    ObjectNormal(nfc, Seal(t, seal));
    ObjectNormal(nfc, Obj(Unsealed(t)));
  }

  /** Leaving the hash out of a manifest that normalises leaves one that does. */
  lemma {:induction false} UnsealedNormal(nfc: Nfc, t: Json)
    requires t.Obj? && TreeNormal(nfc, t).Some?
    ensures TreeNormal(nfc, Obj(Unsealed(t))).Some?
  {
    hide TreeNormal;
    ObjectNormal(nfc, t);
    ObjectNormal(nfc, Obj(Unsealed(t)));
  }

  /** Members of one object that stand in another give the same normal members. */
  lemma {:induction false} PartKept(nfc: Nfc, x: Json, y: Json, name: string)
    requires x.Obj? && y.Obj? && KeysApart(nfc, x.members) && MembersNormalise(nfc, x)
    requires KeysApart(nfc, y.members) && MembersNormalise(nfc, y) && nfc(name) == name
    requires forall k :: k in x.members && k != name ==> k in y.members && y.members[k] == x.members[k]
    ensures forall z :: z in NormalMembers(nfc, x) && z != name ==>
              z in NormalMembers(nfc, y) && NormalMembers(nfc, y)[z] == NormalMembers(nfc, x)[z]
  {
    var m, n := NormalMembers(nfc, x), NormalMembers(nfc, y);
    hide TreeNormal, KeysApart, MembersNormalise, NormalMembers;
    forall z | z in m && z != name ensures z in n && n[z] == m[z] {
      var k :| k in x.members && nfc(k) == z;
      assert k in y.members;
    }
  }

  /** Sealing does not touch the members the hash covers. */
  lemma {:induction false} SealKeepsMembers(nfc: Nfc, t: Json, seal: Json)
    requires t.Obj? && TreeNormal(nfc, t).Some? && TreeNormal(nfc, Seal(t, seal)).Some? && nfc(MANIFEST_HASH) == MANIFEST_HASH
    ensures TreeNormal(nfc, t).value.Obj? && TreeNormal(nfc, Seal(t, seal)).value.Obj?
    ensures Unsealed(TreeNormal(nfc, Seal(t, seal)).value) == Unsealed(TreeNormal(nfc, t).value)
  {
    hide TreeNormal, KeysApart, MembersNormalise, NormalMembers;
    var s := Seal(t, seal);
    ObjectNormal(nfc, t);
    ObjectNormal(nfc, s);
    PartKept(nfc, t, s, MANIFEST_HASH);
    PartKept(nfc, s, t, MANIFEST_HASH);
    assert NormalMembers(nfc, s) - {MANIFEST_HASH} == NormalMembers(nfc, t) - {MANIFEST_HASH};
  }

  /** Writing a hash into a manifest that normalises gives one that normalises, with the same hash. */
  lemma {:induction false} SealedManifestVerifies(hash: TextSha, nfc: Nfc, t: Json, seal: Json, heap: Heap, v: Term, heap': Heap, v': Term)
    requires t.Obj? && PlainFixed(nfc) && TreeNormal(nfc, seal).Some?
    requires Closed(heap) && Within(heap, v) && Represents(heap, v, t)
    requires Closed(heap') && Within(heap', v') && Represents(heap', v', Seal(t, seal))
    requires ManifestSha(hash, heap, nfc, v).Ok?
    ensures ManifestSha(hash, heap', nfc, v') == ManifestSha(hash, heap, nfc, v)
  {
    hide Print, Normal, Closed, Within, Represents, TreeNormal, PlainFixed;
    HashNameFixed(nfc);
    NormalIsTreeNormal(heap, nfc, v, t);
    UnsealedNormal(nfc, t);
    SealNormal(nfc, t, seal);
    SealKeepsMembers(nfc, t, seal);
    NormalIsTreeNormal(heap', nfc, v', Seal(t, seal));
  }

  /** The written manifest holds its normal form, and hashing what is read gives the manifest's hash. */
  lemma {:induction false} SealedReadsBack(hash: TextSha, nfc: Nfc, heap: Heap, v: Term, heap': Heap, v': Term)
    requires Idempotent(nfc) && Closed(heap) && Within(heap, v) && SealedText(heap, nfc, v).Ok?
    requires Closed(heap') && Within(heap', v') && Represents(heap', v', Normal(heap, nfc, v, {}).value)
    ensures var text := SealedText(heap, nfc, v).value;
            |text| > 0 && Parse(text[..|text| - 1]) == Some(Normal(heap, nfc, v, {}).value)
    ensures ManifestSha(hash, heap', nfc, v') == ManifestSha(hash, heap, nfc, v)
    ensures SealedText(heap', nfc, v') == SealedText(heap, nfc, v)
  {
    hide Print, Parse, Normal, Closed, Within, Represents;
    var n := Normal(heap, nfc, v, {}).value;
    var text := Print(n) + "\n";
    assert text[..|text| - 1] == Print(n);
    ParsePrinted(n);
    NormalIdempotent(heap, heap', nfc, v, v');
  }
}
