/**
 What normalising, the line files and the manifest hashes come to, said of the objects
 themselves: no recursion with a set of active containers, no sort, no intermediate tree.
 */
module NormalRules {
  import opened Basics
  import opened Contracts
  import opened CanonicalJson
  import opened Sorting
  import opened ProviderCanonical
  import opened TextForms

  /* ---- Reading objects ---- */

  /** The objects hold this value, with every text and every key normalised, none lost and none confused. */
  ghost predicate Reads(heap: Heap, nfc: Nfc, v: Term, t: Json)
    decreases t
  {
    match v
    case NoneTerm => t == Null
    case BoolTerm(b) => t == Bool(b)
    case IntTerm(n) => t == Int(n)
    case FloatTerm(repr) => t == Real(repr)
    case NonFiniteTerm => false
    case TextTerm(s) => t == Str(nfc(s))
    case OtherTerm => false
    case Container(id) =>
      && id in heap
      && match heap[id]
         case List(items) =>
           && t.Arr? && |t.items| == |items|
           && forall i :: 0 <= i < |items| ==> Reads(heap, nfc, items[i], t.items[i])
         case Dict(entries) =>
           && t.Obj? && KeysFirst(nfc, entries, |entries|, t.members)
           && forall i :: 0 <= i < |entries| ==>
                entries[i].0.TextKey? && nfc(entries[i].0.s) in t.members
                && Reads(heap, nfc, entries[i].1, t.members[nfc(entries[i].0.s)])
  }

  /** The names are those of the first entries, normalised; no two entries share one. */
  ghost predicate KeysFirst(nfc: Nfc, entries: seq<(Key, Term)>, n: int, members: map<string, Json>) {
    && 0 <= n <= |entries|
    && (forall i :: 0 <= i < n ==> entries[i].0.TextKey? && nfc(entries[i].0.s) in members)
    && (forall i, j :: 0 <= i < j < n ==> nfc(entries[i].0.s) != nfc(entries[j].0.s))
    && forall name :: name in members ==> exists i :: 0 <= i < n && nfc(entries[i].0.s) == name
  }

  lemma {:induction false} NormalReads(heap: Heap, nfc: Nfc, v: Term, active: set<Ref>)
    requires Closed(heap) && Within(heap, v) && Normal(heap, nfc, v, active).Ok?
    ensures Reads(heap, nfc, v, Normal(heap, nfc, v, active).value)
    decreases |heap.Keys - active|, 2, 0
  {
    if v.Container? {
      SmallerBudget(heap, active, v.id);
      if heap[v.id].List? {
        ItemsRead(heap, nfc, v.id, 0, [], active + {v.id});
      } else {
        EntriesRead(heap, nfc, v.id, 0, map[], active + {v.id});
      }
    }
  }

  lemma {:induction false} ItemsRead(heap: Heap, nfc: Nfc, id: Ref, i: nat, done: seq<Json>, active: set<Ref>)
    requires Closed(heap) && id in heap && heap[id].List? && i <= |heap[id].items|
    requires |done| == i && forall j :: 0 <= j < i ==> Reads(heap, nfc, heap[id].items[j], done[j])
    requires NormalItems(heap, nfc, id, i, done, active).Ok?
    ensures var r := NormalItems(heap, nfc, id, i, done, active).value;
            |r| == |heap[id].items| && forall j :: 0 <= j < |r| ==> Reads(heap, nfc, heap[id].items[j], r[j])
    decreases |heap.Keys - active|, 3, |heap[id].items| - i
  {
    hide Reads, Normal;
    if i < |heap[id].items| {
      assert Children(heap[id])[i] == heap[id].items[i];
      NormalReads(heap, nfc, heap[id].items[i], active);
      ItemsRead(heap, nfc, id, i + 1, done + [Normal(heap, nfc, heap[id].items[i], active).value], active);
    }
  }

  ghost predicate FirstRead(heap: Heap, nfc: Nfc, entries: seq<(Key, Term)>, n: int, members: map<string, Json>)
    requires KeysFirst(nfc, entries, n, members)
  {
    forall i :: 0 <= i < n ==> Reads(heap, nfc, entries[i].1, members[nfc(entries[i].0.s)])
  }

  lemma KeysNext(nfc: Nfc, entries: seq<(Key, Term)>, n: nat, members: map<string, Json>, t: Json)
    requires KeysFirst(nfc, entries, n, members) && n < |entries| && entries[n].0.TextKey?
    requires nfc(entries[n].0.s) !in members
    ensures KeysFirst(nfc, entries, n + 1, members[nfc(entries[n].0.s) := t])
  {
    var more := members[nfc(entries[n].0.s) := t];
    forall name | name in more ensures exists i :: 0 <= i < n + 1 && nfc(entries[i].0.s) == name {
      if name in members {
        var i :| 0 <= i < n && nfc(entries[i].0.s) == name;
      } else {
        assert nfc(entries[n].0.s) == name;
      }
    }
  }

  lemma {:induction false} EntriesRead(heap: Heap, nfc: Nfc, id: Ref, i: nat, done: map<string, Json>, active: set<Ref>)
    requires Closed(heap) && id in heap && heap[id].Dict? && i <= |heap[id].entries|
    requires KeysFirst(nfc, heap[id].entries, i, done) && FirstRead(heap, nfc, heap[id].entries, i, done)
    requires NormalEntries(heap, nfc, id, i, done, active).Ok?
    ensures var r := NormalEntries(heap, nfc, id, i, done, active).value;
            KeysFirst(nfc, heap[id].entries, |heap[id].entries|, r)
            && FirstRead(heap, nfc, heap[id].entries, |heap[id].entries|, r)
    decreases |heap.Keys - active|, 3, |heap[id].entries| - i
  {
    hide Reads, Normal, KeysFirst, FirstRead;
    var entries := heap[id].entries;
    if i < |entries| {
      assert Children(heap[id])[i] == entries[i].1;
      NormalReads(heap, nfc, entries[i].1, active);
      var t := Normal(heap, nfc, entries[i].1, active).value;
      KeysNext(nfc, entries, i, done, t);
      ReadNext(heap, nfc, entries, i, done, t);
      EntriesRead(heap, nfc, id, i + 1, done[nfc(entries[i].0.s) := t], active);
    }
  }

  lemma {:induction false} ReadNext(heap: Heap, nfc: Nfc, entries: seq<(Key, Term)>, n: nat, members: map<string, Json>, t: Json)
    requires KeysFirst(nfc, entries, n, members) && n < |entries| && entries[n].0.TextKey?
    requires nfc(entries[n].0.s) !in members && FirstRead(heap, nfc, entries, n, members)
    requires Reads(heap, nfc, entries[n].1, t)
    requires KeysFirst(nfc, entries, n + 1, members[nfc(entries[n].0.s) := t])
    ensures FirstRead(heap, nfc, entries, n + 1, members[nfc(entries[n].0.s) := t])
  {
    hide Reads;
  }

  /* ---- What can be read is accepted ---- */

  lemma {:induction false} ReadHasTree(heap: Heap, nfc: Nfc, v: Term, t: Json)
    requires Reads(heap, nfc, v, t)
    ensures HasTree(heap, v)
    decreases t
  {
    if v.Container? {
      var children := Children(heap[v.id]);
      forall i | 0 <= i < |children| ensures HasTree(heap, children[i]) {
        if t.Arr? {
          ReadHasTree(heap, nfc, children[i], t.items[i]);
        } else {
          ReadHasTree(heap, nfc, children[i], t.members[nfc(heap[v.id].entries[i].0.s)]);
        }
      }
      var depth := CommonDepth(heap, children);
      assert Finite(heap, v, depth + 1);
    } else {
      assert Finite(heap, v, 0);
    }
  }

  ghost predicate Gives<T>(r: Result<T, NormalError>, t: T) {
    r == Ok(t) || r == Err(Cyclic)
  }

  lemma {:induction false} ReadAnswer(heap: Heap, nfc: Nfc, v: Term, t: Json, active: set<Ref>)
    requires Closed(heap) && Within(heap, v) && Reads(heap, nfc, v, t)
    ensures Gives(Normal(heap, nfc, v, active), t)
    decreases t, 1, 0
  {
    if v.Container? && v.id !in active {
      SmallerBudget(heap, active, v.id);
      if heap[v.id].List? {
        ItemsAnswer(heap, nfc, v.id, t, 0, [], active + {v.id});
      } else {
        EntriesAnswer(heap, nfc, v.id, t, 0, map[], active + {v.id});
      }
    }
  }

  lemma {:induction false} ItemsAnswer(heap: Heap, nfc: Nfc, id: Ref, t: Json, i: nat, done: seq<Json>, active: set<Ref>)
    requires Closed(heap) && id in heap && heap[id].List? && t.Arr? && Reads(heap, nfc, Container(id), t)
    requires i <= |t.items| == |heap[id].items| && done == t.items[..i]
    ensures Gives(NormalItems(heap, nfc, id, i, done, active), t.items)
    decreases t, 0, |t.items| - i
  {
    if i == |t.items| {
      assert t.items[..i] == t.items;
    } else {
      assert Children(heap[id])[i] == heap[id].items[i];
      ReadAnswer(heap, nfc, heap[id].items[i], t.items[i], active);
      assert t.items[..i + 1] == done + [t.items[i]];
      if Normal(heap, nfc, heap[id].items[i], active).Ok? {
        ItemsAnswer(heap, nfc, id, t, i + 1, done + [t.items[i]], active);
      }
    }
  }

  /** The members read so far are members of the whole. */
  ghost predicate PartOf(done: map<string, Json>, members: map<string, Json>) {
    forall name :: name in done ==> name in members && done[name] == members[name]
  }

  lemma {:induction false} EntryKey(heap: Heap, nfc: Nfc, id: Ref, t: Json, i: nat, done: map<string, Json>)
    requires id in heap && heap[id].Dict? && t.Obj? && Reads(heap, nfc, Container(id), t)
    requires i < |heap[id].entries| && KeysFirst(nfc, heap[id].entries, i, done)
    ensures var e := heap[id].entries[i];
            && e.0.TextKey? && nfc(e.0.s) !in done && nfc(e.0.s) in t.members
            && Reads(heap, nfc, e.1, t.members[nfc(e.0.s)])
  {
    var entries := heap[id].entries;
    assert KeysFirst(nfc, entries, |entries|, t.members);
  }

  lemma AllNamed(nfc: Nfc, entries: seq<(Key, Term)>, done: map<string, Json>, members: map<string, Json>)
    requires KeysFirst(nfc, entries, |entries|, done) && KeysFirst(nfc, entries, |entries|, members) && PartOf(done, members)
    ensures done == members
  {
    forall name | name in members ensures name in done {
      var i :| 0 <= i < |entries| && nfc(entries[i].0.s) == name;
    }
  }

  lemma PartNext(done: map<string, Json>, members: map<string, Json>, name: string)
    requires PartOf(done, members) && name in members
    ensures PartOf(done[name := members[name]], members)
  {
  }

  /** One entry of the walk. */
  lemma EntryStep(heap: Heap, nfc: Nfc, id: Ref, i: nat, done: map<string, Json>, active: set<Ref>)
    requires Closed(heap) && id in heap && heap[id].Dict? && i < |heap[id].entries| && heap[id].entries[i].0.TextKey?
    requires nfc(heap[id].entries[i].0.s) !in done
    ensures Within(heap, heap[id].entries[i].1)
    ensures var first := Normal(heap, nfc, heap[id].entries[i].1, active);
            NormalEntries(heap, nfc, id, i, done, active) ==
            if first.Err? then Err(first.error)
            else NormalEntries(heap, nfc, id, i + 1, done[nfc(heap[id].entries[i].0.s) := first.value], active)
  {
    hide Normal;
    assert Children(heap[id])[i] == heap[id].entries[i].1;
  }

  lemma {:induction false} EntriesAnswer(heap: Heap, nfc: Nfc, id: Ref, t: Json, i: nat, done: map<string, Json>, active: set<Ref>)
    requires Closed(heap) && id in heap && heap[id].Dict? && t.Obj? && Reads(heap, nfc, Container(id), t)
    requires i <= |heap[id].entries| && KeysFirst(nfc, heap[id].entries, i, done) && PartOf(done, t.members)
    ensures Gives(NormalEntries(heap, nfc, id, i, done, active), t.members)
    decreases t, 0, |heap[id].entries| - i
  {
    var entries := heap[id].entries;
    if i == |entries| {
      assert KeysFirst(nfc, entries, |entries|, t.members);
      AllNamed(nfc, entries, done, t.members);
    } else {
      hide Reads, Normal, NormalEntries, KeysFirst, Closed, Within, PartOf;
      EntryKey(heap, nfc, id, t, i, done);
      EntryStep(heap, nfc, id, i, done, active);
      var name := nfc(entries[i].0.s);
      var first := t.members[name];
      ReadAnswer(heap, nfc, entries[i].1, first, active);
      KeysNext(nfc, entries, i, done, first);
      PartNext(done, t.members, name);
      if Normal(heap, nfc, entries[i].1, active).Ok? { EntriesAnswer(heap, nfc, id, t, i + 1, done[name := first], active); }
    }
  }

  /** Normalising succeeds exactly with what the objects hold. */
  lemma {:induction false} NormalExact(heap: Heap, nfc: Nfc, v: Term, t: Json)
    requires Closed(heap) && Within(heap, v)
    ensures Normal(heap, nfc, v, {}) == Ok(t) <==> Reads(heap, nfc, v, t)
  {
    hide Normal, Reads;
    if Normal(heap, nfc, v, {}) == Ok(t) { NormalReads(heap, nfc, v, {}); }
    if Reads(heap, nfc, v, t) {
      ReadAnswer(heap, nfc, v, t, {});
      ReadHasTree(heap, nfc, v, t);
      CycleExact(heap, nfc, v);
    }
  }

  /* ---- Manifests ---- */

  /** The hash is that of the text of everything but the member of this name. */
  lemma {:induction false} ManifestShaExact(hash: TextSha, heap: Heap, nfc: Nfc, v: Term, h: string)
    requires Closed(heap) && Within(heap, v)
    ensures ManifestSha(hash, heap, nfc, v) == Ok(h) <==>
            exists members :: Reads(heap, nfc, v, Obj(members)) && h == hash(Print(Obj(members - {"manifest_hash"})))
  {
    hide Normal, Reads, Print;
    forall t ensures Normal(heap, nfc, v, {}) == Ok(t) <==> Reads(heap, nfc, v, t) { NormalExact(heap, nfc, v, t); }
    if ManifestSha(hash, heap, nfc, v) == Ok(h) {
      var members := Normal(heap, nfc, v, {}).value.members;
      assert Reads(heap, nfc, v, Obj(members));
    }
  }

  lemma {:induction false} SealedExact(heap: Heap, nfc: Nfc, v: Term, text: string)
    requires Closed(heap) && Within(heap, v)
    ensures SealedText(heap, nfc, v) == Ok(text) <==>
            exists members :: Reads(heap, nfc, v, Obj(members)) && text == Print(Obj(members)) + "\n"
  {
    hide Normal, Reads, Print;
    forall t ensures Normal(heap, nfc, v, {}) == Ok(t) <==> Reads(heap, nfc, v, t) { NormalExact(heap, nfc, v, t); }
    if SealedText(heap, nfc, v) == Ok(text) {
      var members := Normal(heap, nfc, v, {}).value.members;
      assert Reads(heap, nfc, v, Obj(members));
    }
  }

  /* ---- Line files ---- */

  /** The text a record has under a name. */
  function TextOf(t: Json, name: string): string {
    if t.Obj? && name in t.members && t.members[name].Str? then t.members[name].s else ""
  }

  /** The k-th name is the first one that tells the records apart. */
  ghost predicate Differs(names: seq<string>, x: Json, y: Json, k: int) {
    && 0 <= k < |names|
    && (forall m :: 0 <= m < k ==> TextOf(x, names[m]) == TextOf(y, names[m]))
    && Precedes(TextOf(x, names[k]), TextOf(y, names[k]))
  }

  ghost predicate Alike(names: seq<string>, x: Json, y: Json) {
    forall m :: 0 <= m < |names| ==> TextOf(x, names[m]) == TextOf(y, names[m])
  }

  /** The first difference decides; without one the input order does. */
  ghost predicate ComesBefore(names: seq<string>, forms: seq<Json>, i: int, j: int)
    requires 0 <= i < |forms| && 0 <= j < |forms|
  {
    || (exists k :: Differs(names, forms[i], forms[j], k))
    || (Alike(names, forms[i], forms[j]) && i < j)
  }

  /** Every position once, in the order of the records there. */
  ghost predicate Arrangement(names: seq<string>, forms: seq<Json>, order: seq<int>) {
    && |order| == |forms|
    && (forall a :: 0 <= a < |order| ==> 0 <= order[a] < |forms|)
    && (forall a, b :: 0 <= a < b < |order| ==> order[a] != order[b])
    && forall a, b :: 0 <= a < b < |order| ==> ComesBefore(names, forms, order[a], order[b])
  }

  /** One line after another. */
  function LinesIn(forms: seq<Json>, order: seq<int>): string
    requires forall a :: 0 <= a < |order| ==> 0 <= order[a] < |forms|
  {
    if order == [] then "" else LinesIn(forms, order[..|order| - 1]) + Print(forms[order[|order| - 1]]) + "\n"
  }

  lemma {:induction false} TupleExact(a: seq<string>, b: seq<string>)
    requires |a| == |b|
    ensures TupleLess(a, b) <==> exists k :: 0 <= k < |a| && a[..k] == b[..k] && Precedes(a[k], b[k])
    decreases |a|
  {
    hide Less, Precedes;
    if a != [] {
      LessExact(a[0], b[0]);
      LessIrreflexive(a[0]);
      TupleExact(a[1..], b[1..]);
      if TupleLess(a, b) {
        if Less(a[0], b[0]) {
          assert a[..0] == b[..0];
        } else {
          var k :| 0 <= k < |a[1..]| && a[1..][..k] == b[1..][..k] && Precedes(a[1..][k], b[1..][k]);
          assert a[..k + 1] == [a[0]] + a[1..][..k] && b[..k + 1] == [b[0]] + b[1..][..k];
          assert Precedes(a[k + 1], b[k + 1]);
        }
      }
      if k :| 0 <= k < |a| && a[..k] == b[..k] && Precedes(a[k], b[k]) {
        if k > 0 {
          assert a[..k][0] == b[..k][0];
          assert a[1..][..k - 1] == a[..k][1..] && b[1..][..k - 1] == b[..k][1..];
          assert Precedes(a[1..][k - 1], b[1..][k - 1]);
        }
      }
    }
  }

  lemma OrderExact(names: seq<string>, x: Json, y: Json)
    requires RecordFits(names, x) && RecordFits(names, y)
    ensures RecordOrder(names)(x, y) <==> exists k :: Differs(names, x, y, k)
    ensures KeyTuple(names, x) == KeyTuple(names, y) <==> Alike(names, x, y)
  {
    hide TupleLess, Precedes;
    var a, b := KeyTuple(names, x), KeyTuple(names, y);
    assert forall m :: 0 <= m < |names| ==> a[m] == TextOf(x, names[m]) && b[m] == TextOf(y, names[m]);
    TupleExact(a, b);
    forall k | 0 <= k < |names|
      ensures a[..k] == b[..k] <==> forall m :: 0 <= m < k ==> TextOf(x, names[m]) == TextOf(y, names[m])
    {
      if a[..k] == b[..k] { assert forall m :: 0 <= m < k ==> a[..k][m] == b[..k][m]; }
    }
    if k :| 0 <= k < |a| && a[..k] == b[..k] && Precedes(a[k], b[k]) { assert Differs(names, x, y, k); }
  }

  /** Every position of the list once. */
  ghost predicate Permutes(order: seq<int>, n: int) {
    && |order| == n && (forall a :: 0 <= a < n ==> 0 <= order[a] < n)
    && forall a, b :: 0 <= a < b < n ==> order[a] != order[b]
  }

  /** Larger ones later, and equal ones as they came. */
  ghost predicate Stable<T>(before: (T, T) -> bool, xs: seq<T>, order: seq<int>)
    requires Permutes(order, |xs|)
  {
    forall a, b :: 0 <= a < b < |order| ==> StablePair(before, xs, order[a], order[b])
  }

  function Picked<T>(xs: seq<T>, order: seq<int>): seq<T>
    requires forall a :: 0 <= a < |order| ==> 0 <= order[a] < |xs|
  {
    seq(|order|, a requires 0 <= a < |order| => xs[order[a]])
  }

  lemma {:induction false} InsertPlace<T(!new)>(before: (T, T) -> bool, x: T, xs: seq<T>) returns (p: nat)
    ensures p <= |xs| && Insert(before, x, xs) == xs[..p] + [x] + xs[p..]
    ensures forall a :: 0 <= a < p ==> before(xs[a], x)
    ensures p < |xs| ==> !before(xs[p], x)
    decreases |xs|
  {
    if xs == [] || !before(xs[0], x) {
      p := 0;
    } else {
      var q := InsertPlace(before, x, xs[1..]);
      p := q + 1;
      assert xs == [xs[0]] + xs[1..];
    }
  }

  /** The first position goes to place `p`, all others one further on. */
  function Placed(order: seq<int>, p: nat): seq<int>
    requires p <= |order|
  {
    seq(|order| + 1, a requires 0 <= a <= |order| => if a < p then order[a] + 1 else if a == p then 0 else order[a - 1] + 1)
  }

  lemma PlacedPermutes(order: seq<int>, p: nat, n: nat)
    requires Permutes(order, n) && p <= n
    ensures Permutes(Placed(order, p), n + 1)
  {
  }

  lemma PlacedPicks<T>(xs: seq<T>, order: seq<int>, p: nat)
    requires xs != [] && Permutes(order, |xs| - 1) && p <= |order|
    ensures Permutes(Placed(order, p), |xs|)
    ensures Picked(xs, Placed(order, p)) == Picked(xs[1..], order)[..p] + [xs[0]] + Picked(xs[1..], order)[p..]
  {
    PlacedPermutes(order, p, |xs| - 1);
  }

  ghost predicate StablePair<T>(before: (T, T) -> bool, xs: seq<T>, i: int, j: int)
    requires 0 <= i < |xs| && 0 <= j < |xs|
  {
    before(xs[i], xs[j]) || (!before(xs[j], xs[i]) && i < j)
  }

  /** The first record takes its place among the others. */
  lemma PlacedStable<T(!new)>(before: (T, T) -> bool, xs: seq<T>, order: seq<int>, p: nat)
    requires StrictOrder(before) && xs != [] && Permutes(order, |xs| - 1) && Stable(before, xs[1..], order) && p <= |order|
    requires forall a :: 0 <= a < p ==> before(xs[order[a] + 1], xs[0])
    requires forall a :: p <= a < |order| ==> !before(xs[order[a] + 1], xs[0])
    ensures Permutes(Placed(order, p), |xs|) && Stable(before, xs, Placed(order, p))
  {
    PlacedPermutes(order, p, |xs| - 1);
    var placed := Placed(order, p);
    hide Permutes, StrictOrder;
    forall a, b | 0 <= a < b < |placed| ensures StablePair(before, xs, placed[a], placed[b]) {
      if a != p && b != p {
        var c, d := if a < p then a else a - 1, if b < p then b else b - 1;
        assert StablePair(before, xs[1..], order[c], order[d]);
      }
    }
  }

  /** What sorting puts at a place is the record picked there. */
  lemma PickedAt<T(!new)>(before: (T, T) -> bool, xs: seq<T>, order: seq<int>, a: nat)
    requires xs != [] && Permutes(order, |xs| - 1) && Sort(before, xs[1..]) == Picked(xs[1..], order) && a < |order|
    ensures |Sort(before, xs[1..])| == |order| && Sort(before, xs[1..])[a] == xs[order[a] + 1]
  {
  }

  lemma {:induction false} SortStable<T(!new)>(before: (T, T) -> bool, xs: seq<T>) returns (order: seq<int>)
    requires StrictOrder(before)
    ensures Permutes(order, |xs|) && Stable(before, xs, order) && Sort(before, xs) == Picked(xs, order)
    decreases |xs|
  {
    hide Permutes, Stable;
    if xs == [] {
      order := [];
      assert Permutes(order, 0) && Stable(before, xs, order) by { NothingStable(before); }
    } else {
      var rest := SortStable(before, xs[1..]);
      InRange(rest, |xs| - 1);
      var sorted := Sort(before, xs[1..]);
      var p := InsertPlace(before, xs[0], sorted);
      SortOrders(before, xs[1..]);
      forall a | 0 <= a < |rest| ensures sorted[a] == xs[rest[a] + 1] { PickedAt(before, xs, rest, a); }
      forall b | p <= b < |rest| ensures !before(sorted[b], xs[0]) {}
      PlacedStable(before, xs, rest, p);
      PlacedPicks(xs, rest, p);
      order := Placed(rest, p);
    }
  }

  lemma NothingStable<T>(before: (T, T) -> bool)
    ensures Permutes([], 0) && Stable(before, [], [])
  {
  }

  lemma InRange(order: seq<int>, n: nat)
    requires Permutes(order, n)
    ensures |order| == n && forall a :: 0 <= a < n ==> 0 <= order[a] < n
  {
  }

  lemma StableArranges(names: seq<string>, forms: seq<Json>, order: seq<int>)
    requires (forall i :: 0 <= i < |forms| ==> RecordFits(names, forms[i])) && Permutes(order, |forms|)
    requires Stable(RecordOrder(names), forms, order)
    ensures Arrangement(names, forms, order)
  {
    hide RecordFits, KeyTuple, TupleLess, Alike, Differs;
    forall a, b | 0 <= a < b < |order| ensures ComesBefore(names, forms, order[a], order[b]) {
      var x, y := forms[order[a]], forms[order[b]];
      OrderExact(names, x, y);
      OrderExact(names, y, x);
      TupleTotal(KeyTuple(names, x), KeyTuple(names, y));
    }
  }

  lemma {:induction false} LinesAppended(records: seq<Json>, t: Json)
    ensures Lines(records + [t]) == Lines(records) + Print(t) + "\n"
    decreases |records|
  {
    hide Print;
    if records == [] {
      assert [t][1..] == [];
    } else {
      assert (records + [t])[1..] == records[1..] + [t];
      LinesAppended(records[1..], t);
    }
  }

  lemma {:induction false} LinesPicked(forms: seq<Json>, order: seq<int>)
    requires forall a :: 0 <= a < |order| ==> 0 <= order[a] < |forms|
    ensures Lines(Picked(forms, order)) == LinesIn(forms, order)
    decreases |order|
  {
    hide Print;
    if order != [] {
      var front := order[..|order| - 1];
      LinesPicked(forms, front);
      assert Picked(forms, order) == Picked(forms, front) + [forms[order[|order| - 1]]];
      LinesAppended(Picked(forms, front), forms[order[|order| - 1]]);
    }
  }

  /** The text holds the records one line each, ordered by the texts under the names. */
  ghost predicate HoldsLines(names: seq<string>, forms: seq<Json>, text: string) {
    exists order :: Arrangement(names, forms, order) && text == LinesIn(forms, order)
  }

  /** Every name is a text, and no two are the same when normalised. */
  predicate NamesApart(nfc: Nfc, keys: seq<Key>) {
    && (forall i :: 0 <= i < |keys| ==> keys[i].TextKey?)
    && forall i, j :: 0 <= i < |keys| && 0 <= j < |keys| && nfc(keys[i].s) == nfc(keys[j].s) ==> i == j
  }

  /** The objects are a record with a text under each name. */
  ghost predicate IsRecord(heap: Heap, nfc: Nfc, keys: seq<Key>, v: Term, t: Json)
    requires forall i :: 0 <= i < |keys| ==> keys[i].TextKey?
  {
    && Reads(heap, nfc, v, t) && t.Obj?
    && forall i :: 0 <= i < |keys| ==> nfc(keys[i].s) in t.members && t.members[nfc(keys[i].s)].Str?
  }

  ghost predicate AreRecords(heap: Heap, nfc: Nfc, keys: seq<Key>, records: seq<Term>, forms: seq<Json>) {
    && NamesApart(nfc, keys) && |forms| == |records|
    && forall i :: 0 <= i < |records| ==> IsRecord(heap, nfc, keys, records[i], forms[i])
  }

  lemma {:induction false} RecordExact(heap: Heap, nfc: Nfc, keys: seq<Key>, v: Term)
    requires Closed(heap) && Within(heap, v) && forall i :: 0 <= i < |keys| ==> keys[i].TextKey?
    ensures RecordAccepted(heap, nfc, NormalKeys(nfc, keys), v) <==> exists t :: IsRecord(heap, nfc, keys, v, t)
    ensures RecordAccepted(heap, nfc, NormalKeys(nfc, keys), v) ==>
              IsRecord(heap, nfc, keys, v, Normal(heap, nfc, v, {}).value)
    ensures forall t :: IsRecord(heap, nfc, keys, v, t) ==> Normal(heap, nfc, v, {}) == Ok(t)
  {
    hide Normal, Reads;
    forall t ensures Normal(heap, nfc, v, {}) == Ok(t) <==> Reads(heap, nfc, v, t) { NormalExact(heap, nfc, v, t); }
    var names := NormalKeys(nfc, keys);
    forall t
      ensures RecordFits(names, t) <==>
                t.Obj? && forall i :: 0 <= i < |keys| ==> nfc(keys[i].s) in t.members && t.members[nfc(keys[i].s)].Str?
    {
      assert forall i :: 0 <= i < |keys| ==> names[i] == nfc(keys[i].s);
    }
    if RecordAccepted(heap, nfc, names, v) { assert IsRecord(heap, nfc, keys, v, Normal(heap, nfc, v, {}).value); }
    if t :| IsRecord(heap, nfc, keys, v, t) { assert RecordFits(names, t); }
  }

  ghost predicate AllAccepted(heap: Heap, nfc: Nfc, records: seq<Term>, keys: seq<Key>)
    requires Closed(heap) && forall i :: 0 <= i < |records| ==> Within(heap, records[i])
  {
    && KeysAccepted(nfc, keys)
    && forall i :: 0 <= i < |records| ==> RecordAccepted(heap, nfc, NormalKeys(nfc, keys), records[i])
  }

  lemma {:induction false} RecordsAccepted(heap: Heap, nfc: Nfc, records: seq<Term>, keys: seq<Key>, forms: seq<Json>)
    requires Closed(heap) && forall i :: 0 <= i < |records| ==> Within(heap, records[i])
    requires AreRecords(heap, nfc, keys, records, forms)
    ensures AllAccepted(heap, nfc, records, keys)
    ensures forall i :: 0 <= i < |records| ==> Normal(heap, nfc, records[i], {}) == Ok(forms[i])
  {
    hide Closed, Within, IsRecord, RecordAccepted, Normal;
    NamesExact(nfc, keys);
    forall i | 0 <= i < |records|
      ensures RecordAccepted(heap, nfc, NormalKeys(nfc, keys), records[i]) && Normal(heap, nfc, records[i], {}) == Ok(forms[i])
    {
      RecordExact(heap, nfc, keys, records[i]);
      assert IsRecord(heap, nfc, keys, records[i], forms[i]);
    }
  }

  lemma AcceptedRecords(heap: Heap, nfc: Nfc, records: seq<Term>, keys: seq<Key>) returns (forms: seq<Json>)
    requires Closed(heap) && forall i :: 0 <= i < |records| ==> Within(heap, records[i])
    requires AllAccepted(heap, nfc, records, keys)
    ensures AreRecords(heap, nfc, keys, records, forms)
  {
    hide Closed, Within, IsRecord, RecordAccepted, Normal;
    NamesExact(nfc, keys);
    forall i | 0 <= i < |records| ensures exists t :: IsRecord(heap, nfc, keys, records[i], t) {
      RecordExact(heap, nfc, keys, records[i]);
    }
    forms := seq(|records|, i requires 0 <= i < |records| => RecordIn(heap, nfc, keys, records[i]));
    forall i | 0 <= i < |records| ensures IsRecord(heap, nfc, keys, records[i], forms[i]) {}
  }

  /** The record the objects are. */
  ghost function RecordIn(heap: Heap, nfc: Nfc, keys: seq<Key>, v: Term): (t: Json)
    requires forall i :: 0 <= i < |keys| ==> keys[i].TextKey?
    requires exists t :: IsRecord(heap, nfc, keys, v, t)
    ensures IsRecord(heap, nfc, keys, v, t)
  {
    var t :| IsRecord(heap, nfc, keys, v, t);
    t
  }

  /** Writes the lines exactly when all are records, each on one line at its place. */
  method WriteLines(heap: Heap, nfc: Nfc, records: seq<Term>, keys: seq<Key>) returns (r: Result<string, JsonlError>)
    requires Closed(heap) && forall i :: 0 <= i < |records| ==> Within(heap, records[i])
    ensures r.Ok? <==> exists forms :: AreRecords(heap, nfc, keys, records, forms)
    ensures r.Ok? ==> exists forms :: AreRecords(heap, nfc, keys, records, forms)
                                      && HoldsLines(NormalKeys(nfc, keys), forms, r.value)
  {
    hide Closed, Within, AreRecords, RecordAccepted, Normal, JsonlText, HoldsLines;
    r := CanonicalJsonl(heap, nfc, records, keys);
    assert r.Ok? <==> AllAccepted(heap, nfc, records, keys);
    if r.Ok? {
      ghost var forms := AcceptedRecords(heap, nfc, records, keys);
      RecordsAccepted(heap, nfc, records, keys, forms);
      assert forms == seq(|records|, i requires 0 <= i < |records| => Normal(heap, nfc, records[i], {}).value)
        by { SameNumber(heap, nfc, keys, records, forms); }
      RecordsFit(heap, nfc, keys, records, forms);
      TextHolds(NormalKeys(nfc, keys), forms);
    }
    forall forms | AreRecords(heap, nfc, keys, records, forms) ensures r.Ok? {
      RecordsAccepted(heap, nfc, records, keys, forms);
    }
  }

  lemma SameNumber(heap: Heap, nfc: Nfc, keys: seq<Key>, records: seq<Term>, forms: seq<Json>)
    requires AreRecords(heap, nfc, keys, records, forms)
    ensures |forms| == |records| && NamesApart(nfc, keys)
  {
    hide Reads;
  }

  lemma NamesExact(nfc: Nfc, keys: seq<Key>)
    ensures KeysAccepted(nfc, keys) <==> NamesApart(nfc, keys)
  {
    if KeysAccepted(nfc, keys) {
      forall i, j | 0 <= i < |keys| && 0 <= j < |keys| && nfc(keys[i].s) == nfc(keys[j].s) ensures i == j {}
    }
  }

  lemma RecordsFit(heap: Heap, nfc: Nfc, keys: seq<Key>, records: seq<Term>, forms: seq<Json>)
    requires AreRecords(heap, nfc, keys, records, forms)
    ensures forall i :: 0 <= i < |forms| ==> RecordFits(NormalKeys(nfc, keys), forms[i])
  {
    hide Reads;
    forall i | 0 <= i < |forms| ensures RecordFits(NormalKeys(nfc, keys), forms[i]) {
      assert IsRecord(heap, nfc, keys, records[i], forms[i]);
    }
  }

  lemma TextHolds(names: seq<string>, forms: seq<Json>)
    requires forall i :: 0 <= i < |forms| ==> RecordFits(names, forms[i])
    ensures HoldsLines(names, forms, JsonlText(names, forms))
  {
    hide RecordFits, KeyTuple, TupleLess, RecordOrder, Stable, ComesBefore, Print, StrictOrder, Sort;
    RecordOrderStrict(names);
    var order := SortStable(RecordOrder(names), forms);
    StableArranges(names, forms, order);
    LinesPicked(forms, order);
  }
}
