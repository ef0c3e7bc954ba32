/**
 Equality of JSON values as the program's language has it: containers by content,
 numbers by value, with true as 1 and a whole float as the integer it is.
 */
module JsonEquality {
  import opened Basics
  import opened Numerals
  import opened CanonicalJson

  /** A member of an object; an absent one reads as null. */
  function Member(e: Json, name: string): Json {
    if e.Obj? && name in e.members then e.members[name] else Null
  }

  predicate IsNumber(v: Json) {
    v.Bool? || v.Int? || v.Real?
  }

  /** Below 10^16 the shortest text of a whole float is its digits and ".0". */
  predicate FloatIs(repr: FloatText, n: int) {
    && -(Power10(16) as int) < n < Power10(16)
    && (repr == PrintInt(n) + ".0" || (n == 0 && repr == "-0.0"))
  }

  /** The value of an integer, or of a truth value counted as one. */
  function WholeOf(v: Json): int
    requires v.Bool? || v.Int?
  {
    if v.Int? then v.n else if v.b then 1 else 0
  }

  predicate NumberEqual(v: Json, w: Json)
    requires IsNumber(v) && IsNumber(w)
  {
    if v.Real? && w.Real? then v.repr == w.repr || (FloatIs(v.repr, 0) && FloatIs(w.repr, 0))
    else if v.Real? then FloatIs(v.repr, WholeOf(w))
    else if w.Real? then FloatIs(w.repr, WholeOf(v))
    else WholeOf(v) == WholeOf(w)
  }

  predicate JsonEqual(v: Json, w: Json)
    decreases v
  {
    match v
    case Null => w.Null?
    case Str(s) => w == v
    case Arr(items) =>
      w.Arr? && |w.items| == |items| && forall i :: 0 <= i < |items| ==> JsonEqual(items[i], w.items[i])
    case Obj(members) =>
      w.Obj? && w.members.Keys == members.Keys && forall k :: k in members ==> JsonEqual(members[k], w.members[k])
    case _ => IsNumber(w) && NumberEqual(v, w)
  }

  /** No float is two integers. */
  lemma FloatUnique(repr: FloatText, m: int, n: int)
    requires FloatIs(repr, m) && FloatIs(repr, n)
    ensures m == n
  {
    hide Power10, PrintInt, IntOf, IsIntText;
    PointedInteger(m);
    PointedInteger(n);
  }

  lemma PointedInteger(n: int)
    ensures var text := PrintInt(n) + ".0";
            |text| > 2 && IsIntText(text[..|text| - 2]) && IntOf(text[..|text| - 2]) == n && (text == "-0.0" ==> n == 0)
  {
    hide PrintInt;
    IntText(n);
    var text := PrintInt(n) + ".0";
    assert text[..|text| - 2] == PrintInt(n);
    hide IntOf, IsIntText;
    MinusZero(n);
  }

  lemma MinusZero(n: int)
    ensures PrintInt(n) + ".0" == "-0.0" ==> n == 0
  {
    if PrintInt(n) + ".0" == "-0.0" {
      assert (PrintInt(n) + ".0")[..|PrintInt(n)|] == PrintInt(n);
      assert "-0.0"[..2] == "-0" && PrintInt(n) == "-0";
      IntText(n);
      assert "-0"[1..] == "0";
    }
  }

  /** Nothing in the value is a number. */
  predicate NumberFree(v: Json)
    decreases v
  {
    match v
    case Null => true
    case Str(_) => true
    case Arr(items) => forall i :: 0 <= i < |items| ==> NumberFree(items[i])
    case Obj(members) => forall k :: k in members ==> NumberFree(members[k])
    case _ => false
  }

  /** Without numbers, equal values are the same. */
  lemma {:induction false} EqualExact(v: Json, w: Json)
    requires NumberFree(v) && JsonEqual(v, w)
    ensures v == w
    decreases v
  {
    match v
    case Arr(items) =>
      forall i | 0 <= i < |items| ensures w.items[i] == items[i] { EqualExact(items[i], w.items[i]); }
      assert w.items == items;
    case Obj(members) =>
      forall k | k in members ensures w.members[k] == members[k] { EqualExact(members[k], w.members[k]); }
      assert w.members == members;
    case _ =>
  }
}
