/**
 A stable sort by a strict order on keys, and when its result does not depend on
 the order of its input.
 */
module Sorting {
  import opened Basics

  /** Irreflexive and transitive, and so is not being comparable. */
  ghost predicate StrictOrder<T(!new)>(before: (T, T) -> bool) {
    && (forall x :: !before(x, x))
    && (forall x, y, z :: before(x, y) && before(y, z) ==> before(x, z))
    && (forall x, y, z :: before(x, z) ==> before(x, y) || before(y, z))
  }

  /** Nothing comes before something in front of it. */
  ghost predicate Ordered<T>(before: (T, T) -> bool, xs: seq<T>) {
    forall i, j :: 0 <= i < j < |xs| ==> !before(xs[j], xs[i])
  }

  function Insert<T>(before: (T, T) -> bool, x: T, xs: seq<T>): seq<T> {
    if xs == [] || !before(xs[0], x) then [x] + xs else [xs[0]] + Insert(before, x, xs[1..])
  }

  function Sort<T>(before: (T, T) -> bool, xs: seq<T>): seq<T> {
    if xs == [] then [] else Insert(before, xs[0], Sort(before, xs[1..]))
  }

  lemma {:induction false} InsertPermutes<T>(before: (T, T) -> bool, x: T, xs: seq<T>)
    ensures multiset(Insert(before, x, xs)) == multiset(xs) + multiset{x}
    decreases |xs|
  {
    if xs != [] {
      assert xs == [xs[0]] + xs[1..];
      InsertPermutes(before, x, xs[1..]);
    }
  }

  lemma {:induction false} SortPermutes<T>(before: (T, T) -> bool, xs: seq<T>)
    ensures multiset(Sort(before, xs)) == multiset(xs)
    decreases |xs|
  {
    if xs != [] {
      assert xs == [xs[0]] + xs[1..];
      SortPermutes(before, xs[1..]);
      InsertPermutes(before, xs[0], Sort(before, xs[1..]));
    }
  }

  lemma MemberOf<T>(x: T, xs: seq<T>)
    ensures x in multiset(xs) <==> x in xs
  {
  }

  lemma {:induction false} InsertOrders<T(!new)>(before: (T, T) -> bool, x: T, xs: seq<T>)
    requires StrictOrder(before) && Ordered(before, xs)
    ensures Ordered(before, Insert(before, x, xs))
    decreases |xs|
  {
    var ys := Insert(before, x, xs);
    if xs == [] {
    } else if !before(xs[0], x) {
      forall j | 0 < j < |ys| ensures !before(ys[j], x) {
        assert ys[j] == xs[j - 1];
        assert j - 1 == 0 || !before(xs[j - 1], xs[0]);
      }
    } else {
      assert Ordered(before, xs[1..]);
      InsertOrders(before, x, xs[1..]);
      var rest := Insert(before, x, xs[1..]);
      InsertPermutes(before, x, xs[1..]);
      forall j | 0 <= j < |rest| ensures !before(rest[j], xs[0]) {
        assert rest[j] in multiset(rest);
        if rest[j] != x {
          assert rest[j] in multiset(xs[1..]);
          var k :| 0 <= k < |xs[1..]| && xs[1..][k] == rest[j];
          assert xs[1..][k] == xs[k + 1];
        }
      }
    }
  }

  lemma {:induction false} SortOrders<T(!new)>(before: (T, T) -> bool, xs: seq<T>)
    requires StrictOrder(before)
    ensures Ordered(before, Sort(before, xs))
    decreases |xs|
  {
    if xs != [] {
      SortOrders(before, xs[1..]);
      InsertOrders(before, xs[0], Sort(before, xs[1..]));
    }
  }

  /** A list already in order is left alone. */
  lemma {:induction false} SortedFixed<T(!new)>(before: (T, T) -> bool, xs: seq<T>)
    requires Ordered(before, xs)
    ensures Sort(before, xs) == xs
    decreases |xs|
  {
    if xs != [] {
      assert Ordered(before, xs[1..]);
      SortedFixed(before, xs[1..]);
      if |xs| > 1 { assert !before(xs[1], xs[0]); }
      assert xs == [xs[0]] + xs[1..];
    }
  }

  /** Distinct members of the list have keys that compare. */
  ghost predicate Separated<T(!new)>(before: (T, T) -> bool, xs: seq<T>) {
    forall x, y :: x in xs && y in xs && x != y ==> before(x, y) || before(y, x)
  }

  /** With comparable keys only one order is possible. */
  lemma {:induction false} OrderedUnique<T(!new)>(before: (T, T) -> bool, xs: seq<T>, ys: seq<T>)
    requires Separated(before, xs)
    requires Ordered(before, xs) && Ordered(before, ys) && multiset(xs) == multiset(ys)
    ensures xs == ys
    decreases |xs|
  {
    hide Separated, Ordered;
    assert |xs| == |multiset(xs)| && |ys| == |multiset(ys)|;
    if xs != [] {
      FirstAgree(before, xs, ys);
      TailsCount(xs, ys);
      TailKept(before, xs);
      TailKept(before, ys);
      OrderedUnique(before, xs[1..], ys[1..]);
      assert xs == [xs[0]] + xs[1..] && ys == [ys[0]] + ys[1..];
    }
  }

  lemma TailsCount<T>(xs: seq<T>, ys: seq<T>)
    requires xs != [] && ys != [] && xs[0] == ys[0] && multiset(xs) == multiset(ys)
    ensures multiset(xs[1..]) == multiset(ys[1..])
  {
    assert xs == [xs[0]] + xs[1..] && ys == [ys[0]] + ys[1..];
    assert multiset(xs[1..]) == multiset(xs) - multiset{xs[0]};
    assert multiset(ys[1..]) == multiset(ys) - multiset{ys[0]};
  }

  lemma TailKept<T(!new)>(before: (T, T) -> bool, xs: seq<T>)
    requires xs != []
    ensures Separated(before, xs) ==> Separated(before, xs[1..])
    ensures Ordered(before, xs) ==> Ordered(before, xs[1..])
  {
    forall x | x in xs[1..] ensures x in xs {}
  }

  lemma FirstAgree<T(!new)>(before: (T, T) -> bool, xs: seq<T>, ys: seq<T>)
    requires xs != [] && ys != [] && Separated(before, xs)
    requires Ordered(before, xs) && Ordered(before, ys) && multiset(xs) == multiset(ys)
    ensures xs[0] == ys[0]
  {
    MemberOf(ys[0], xs);
    MemberOf(xs[0], ys);
    assert ys[0] in multiset(ys) && xs[0] in multiset(xs);
    var i :| 0 <= i < |xs| && xs[i] == ys[0];
    var j :| 0 <= j < |ys| && ys[j] == xs[0];
    assert i == 0 || !before(xs[i], xs[0]);
    assert j == 0 || !before(ys[j], ys[0]);
  }

  /** Sorting forgets the order of its input when distinct members compare. */
  lemma {:induction false} SortOrderIndependent<T(!new)>(before: (T, T) -> bool, xs: seq<T>, ys: seq<T>)
    requires StrictOrder(before) && Separated(before, xs) && multiset(xs) == multiset(ys)
    ensures Sort(before, xs) == Sort(before, ys)
  {
    SortPermutes(before, xs);
    SortPermutes(before, ys);
    SortOrders(before, xs);
    SortOrders(before, ys);
    forall x ensures x in Sort(before, xs) <==> x in xs {
      MemberOf(x, xs);
      MemberOf(x, Sort(before, xs));
    }
    assert Separated(before, Sort(before, xs));
    OrderedUnique(before, Sort(before, xs), Sort(before, ys));
  }

  /** Where a member goes: in front of the first that does not come before it. */
  function Place<T>(before: (T, T) -> bool, x: T, xs: seq<T>): (p: nat)
    ensures p <= |xs| && (forall k :: 0 <= k < p ==> before(xs[k], x)) && (p < |xs| ==> !before(xs[p], x))
  {
    if xs == [] || !before(xs[0], x) then 0 else 1 + Place(before, x, xs[1..])
  }

  lemma {:induction false} InsertAt<T>(before: (T, T) -> bool, x: T, xs: seq<T>, p: nat)
    requires p <= |xs| && (forall k :: 0 <= k < p ==> before(xs[k], x)) && (p < |xs| ==> !before(xs[p], x))
    ensures Insert(before, x, xs) == xs[..p] + [x] + xs[p..]
    decreases |xs|
  {
    if p > 0 {
      InsertAt(before, x, xs[1..], p - 1);
      assert xs[1..][..p - 1] == xs[1..p] && xs[1..][p - 1..] == xs[p..];
      assert xs[..p] == [xs[0]] + xs[1..p];
    } else if xs != [] {
      assert Insert(before, x, xs) == [x] + xs;
    }
  }

  /** Two different members that do not compare keep their input order, so it shows. */
  lemma {:induction false} TiesMatter<T(!new)>(before: (T, T) -> bool, x: T, y: T, rest: seq<T>)
    requires StrictOrder(before) && x != y && !before(x, y) && !before(y, x)
    ensures Sort(before, [x, y] + rest) != Sort(before, [y, x] + rest)
  {
    var s := Sort(before, rest);
    var p := Place(before, x, s);
    TieSorted(before, x, y, rest, p);
    TieSorted(before, y, x, rest, p);
    assert (s[..p] + [x, y] + s[p..])[p] == x && (s[..p] + [y, x] + s[p..])[p] == y;
  }

  lemma {:induction false} TieSorted<T(!new)>(before: (T, T) -> bool, x: T, y: T, rest: seq<T>, p: nat)
    requires StrictOrder(before) && !before(x, y) && !before(y, x)
    requires p == Place(before, x, Sort(before, rest)) || p == Place(before, y, Sort(before, rest))
    ensures p <= |Sort(before, rest)|
    ensures Sort(before, [x, y] + rest) == Sort(before, rest)[..p] + [x, y] + Sort(before, rest)[p..]
  {
    hide StrictOrder, Sort, Insert;
    var s := Sort(before, rest);
    SortTwo(before, x, y, rest);
    forall k | 0 <= k < |s| ensures before(s[k], x) <==> before(s[k], y) { TieSame(before, x, y, s[k]); }
    InsertTwo(before, x, y, s, p);
  }

  lemma TieSame<T(!new)>(before: (T, T) -> bool, x: T, y: T, z: T)
    requires StrictOrder(before) && !before(x, y) && !before(y, x)
    ensures before(z, x) <==> before(z, y)
  {
  }

  lemma {:induction false} InsertTwo<T>(before: (T, T) -> bool, x: T, y: T, s: seq<T>, p: nat)
    requires p <= |s| && !before(y, x) && (p < |s| ==> !before(s[p], y))
    requires forall k :: 0 <= k < p ==> before(s[k], x) && before(s[k], y)
    ensures Insert(before, x, Insert(before, y, s)) == s[..p] + [x, y] + s[p..]
  {
    hide Insert;
    var a, b := s[..p], s[p..];
    InsertAt(before, y, s, p);
    PlacedAgain(a, y, b);
    assert forall k :: 0 <= k < p ==> a[k] == s[k];
    InsertAt(before, x, a + [y] + b, p);
    assert a + [x] + ([y] + b) == a + [x, y] + b;
  }

  lemma {:induction false} SortTwo<T>(before: (T, T) -> bool, x: T, y: T, rest: seq<T>)
    ensures Sort(before, [x, y] + rest) == Insert(before, x, Insert(before, y, Sort(before, rest)))
  {
    assert ([x, y] + rest)[1..] == [y] + rest && ([y] + rest)[1..] == rest;
  }

  lemma PlacedAgain<T>(a: seq<T>, y: T, b: seq<T>)
    ensures (a + [y] + b)[..|a|] == a && (a + [y] + b)[|a|..] == [y] + b && (a + [y] + b)[|a|] == y
    ensures forall k :: 0 <= k < |a| ==> (a + [y] + b)[k] == a[k]
  {
  }

  /* ---- Text keys ---- */

  lemma {:induction false} LessSplits(a: string, b: string, c: string)
    requires Less(a, c)
    ensures Less(a, b) || Less(b, c)
  {
    if a == [] {
    } else if b == [] {
    } else if a[0] == b[0] && b[0] == c[0] {
      LessSplits(a[1..], b[1..], c[1..]);
    }
  }

  /** Comparing text keys is a strict order. */
  lemma TextKeysOrder<T(!new)>(before: (T, T) -> bool, key: T -> string)
    requires forall x, y :: before(x, y) <==> Less(key(x), key(y))
    ensures StrictOrder(before)
  {
    forall x ensures !before(x, x) { LessIrreflexive(key(x)); }
    forall x, y, z | before(x, y) && before(y, z) ensures before(x, z) { LessTransitive(key(x), key(y), key(z)); }
    forall x, y, z | before(x, z) ensures before(x, y) || before(y, z) { LessSplits(key(x), key(y), key(z)); }
  }

  ghost predicate KeyOrder<T(!new)>(before: (T, T) -> bool, key: T -> string) {
    forall x, y :: before(x, y) <==> Less(key(x), key(y))
  }

  predicate KeysDistinct<T, K(==)>(key: T -> K, xs: seq<T>) {
    forall i, j :: 0 <= i < j < |xs| ==> key(xs[i]) != key(xs[j])
  }

  predicate KeysAscend<T>(key: T -> string, xs: seq<T>) {
    forall i, j :: 0 <= i < j < |xs| ==> Less(key(xs[i]), key(xs[j]))
  }

  lemma {:induction false} InsertAscends<T(!new)>(before: (T, T) -> bool, key: T -> string, x: T, xs: seq<T>)
    requires KeyOrder(before, key) && KeysAscend(key, xs)
    requires forall i :: 0 <= i < |xs| ==> key(xs[i]) != key(x)
    ensures KeysAscend(key, Insert(before, x, xs))
    decreases |xs|
  {
    if xs == [] {
    } else if !before(xs[0], x) {
      LessTotal(key(x), key(xs[0]));
      forall j | 0 <= j < |xs| ensures Less(key(x), key(xs[j])) {
        if j > 0 { LessTransitive(key(x), key(xs[0]), key(xs[j])); }
      }
    } else {
      var rest := Insert(before, x, xs[1..]);
      InsertAscends(before, key, x, xs[1..]);
      InsertPermutes(before, x, xs[1..]);
      forall j | 0 <= j < |rest| ensures Less(key(xs[0]), key(rest[j])) {
        assert rest[j] in multiset(rest);
        if rest[j] != x {
          assert rest[j] in multiset(xs[1..]);
          var k :| 0 <= k < |xs[1..]| && xs[1..][k] == rest[j];
          assert xs[1..][k] == xs[k + 1];
        }
      }
    }
  }

  /** Distinct keys come out strictly ascending. */
  lemma {:induction false} SortAscends<T(!new)>(before: (T, T) -> bool, key: T -> string, xs: seq<T>)
    requires KeyOrder(before, key) && KeysDistinct(key, xs)
    ensures KeysAscend(key, Sort(before, xs))
    decreases |xs|
  {
    if xs != [] {
      var rest := Sort(before, xs[1..]);
      SortAscends(before, key, xs[1..]);
      SortPermutes(before, xs[1..]);
      forall i | 0 <= i < |rest| ensures key(rest[i]) != key(xs[0]) {
        assert rest[i] in multiset(xs[1..]);
        var k :| 0 <= k < |xs[1..]| && xs[1..][k] == rest[i];
        assert xs[1..][k] == xs[k + 1];
      }
      InsertAscends(before, key, xs[0], rest);
    }
  }

  lemma {:induction false} AscendingFixed<T(!new)>(before: (T, T) -> bool, key: T -> string, xs: seq<T>)
    requires KeyOrder(before, key) && KeysAscend(key, xs)
    ensures Sort(before, xs) == xs && KeysDistinct(key, xs)
  {
    forall i, j | 0 <= i < j < |xs| ensures !before(xs[j], xs[i]) && key(xs[i]) != key(xs[j]) {
      LessIrreflexive(key(xs[i]));
      if Less(key(xs[j]), key(xs[i])) { LessTransitive(key(xs[i]), key(xs[j]), key(xs[i])); }
    }
    SortedFixed(before, xs);
  }

  lemma CountTwo<T>(xs: seq<T>, i: nat, j: nat)
    requires i < j < |xs| && xs[i] == xs[j]
    ensures multiset(xs)[xs[i]] >= 2
  {
    assert xs == xs[..j] + xs[j..];
    assert xs[..j][i] == xs[i] && xs[j..][0] == xs[j];
    assert xs[i] in multiset(xs[..j]) && xs[i] in multiset(xs[j..]);
  }

  lemma {:induction false} CountOne<T, K>(key: T -> K, xs: seq<T>, x: T)
    requires KeysDistinct(key, xs)
    ensures multiset(xs)[x] <= 1
    decreases |xs|
  {
    if xs != [] {
      assert xs == [xs[0]] + xs[1..];
      CountOne(key, xs[1..], x);
      forall k | 0 <= k < |xs[1..]| ensures xs[1..][k] != xs[0] {
        assert key(xs[0]) != key(xs[k + 1]);
      }
      MemberOf(xs[0], xs[1..]);
    }
  }

  lemma PermutedDistinct<T(!new), K>(key: T -> K, xs: seq<T>, ys: seq<T>)
    requires multiset(xs) == multiset(ys) && KeysDistinct(key, xs)
    ensures KeysDistinct(key, ys)
  {
    forall i, j | 0 <= i < j < |ys| ensures key(ys[i]) != key(ys[j]) {
      CountOne(key, xs, ys[i]);
      if ys[i] == ys[j] { CountTwo(ys, i, j); }
      assert ys[i] in multiset(xs) && ys[j] in multiset(xs);
      var a :| 0 <= a < |xs| && xs[a] == ys[i];
      var b :| 0 <= b < |xs| && xs[b] == ys[j];
      assert a != b ==> key(xs[a]) != key(xs[b]);
    }
  }

  /** With distinct keys the sorted list depends only on the members. */
  lemma {:induction false} KeySortIndependent<T(!new)>(before: (T, T) -> bool, key: T -> string, xs: seq<T>, ys: seq<T>)
    requires KeyOrder(before, key) && KeysDistinct(key, xs) && multiset(xs) == multiset(ys)
    ensures Sort(before, xs) == Sort(before, ys)
  {
    TextKeysOrder(before, key);
    forall x, y | x in xs && y in xs && x != y ensures before(x, y) || before(y, x) {
      var i :| 0 <= i < |xs| && xs[i] == x;
      var j :| 0 <= j < |xs| && xs[j] == y;
      assert key(xs[i]) != key(xs[j]);
      LessTotal(key(x), key(y));
    }
    SortOrderIndependent(before, xs, ys);
  }
}
