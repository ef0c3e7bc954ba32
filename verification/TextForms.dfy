/**
 The canonical text of each kind of JSON value, spelled out: the literals, the digits,
 the escape table, and the order of an object's members.
 */
module TextForms {
  import opened Basics
  import opened Contracts
  import opened Numerals
  import opened CanonicalJson

  /* ---- Order by code point ---- */

  /** The first difference decides; a prefix comes first. */
  predicate FirstDifference(a: string, b: string, k: int) {
    0 <= k <= |a| && k < |b| && a[..k] == b[..k] && (k == |a| || a[k] < b[k])
  }

  ghost predicate Precedes(a: string, b: string) {
    exists k :: FirstDifference(a, b, k)
  }

  lemma {:induction false} LessExact(a: string, b: string)
    ensures Less(a, b) <==> Precedes(a, b)
    decreases |a|
  {
    if Less(a, b) {
      if a == [] || a[0] < b[0] {
        assert FirstDifference(a, b, 0);
      } else {
        LessExact(a[1..], b[1..]);
        var k :| FirstDifference(a[1..], b[1..], k);
        assert a[..k + 1] == [a[0]] + a[1..][..k] && b[..k + 1] == [b[0]] + b[1..][..k];
        assert FirstDifference(a, b, k + 1);
      }
    }
    if k :| FirstDifference(a, b, k) {
      if k > 0 {
        assert a[..k][0] == a[0] && b[..k][0] == b[0];
        assert a[1..][..k - 1] == a[..k][1..] && b[1..][..k - 1] == b[..k][1..];
        assert FirstDifference(a[1..], b[1..], k - 1);
        LessExact(a[1..], b[1..]);
      }
    }
  }

  /* ---- Numbers ---- */

  /** Decimal digits, most significant first, without leading zeros; a minus sign in front of a negative number. */
  lemma IntegerText(n: int)
    ensures n < 0 ==> Print(Int(n)) == "-" + Print(Int(-n))
    ensures 0 <= n < 10 ==> Print(Int(n)) == ["0123456789"[n]]
    ensures n >= 10 ==> Print(Int(n)) == Print(Int(n / 10)) + ["0123456789"[n % 10]]
  {
  }

  /* ---- Strings ---- */

  /** How the characters below the space are written. */
  const CONTROLS: seq<string> :=
    ["\\u0000", "\\u0001", "\\u0002", "\\u0003", "\\u0004", "\\u0005", "\\u0006", "\\u0007",
     "\\b", "\\t", "\\n", "\\u000b", "\\f", "\\r", "\\u000e", "\\u000f",
     "\\u0010", "\\u0011", "\\u0012", "\\u0013", "\\u0014", "\\u0015", "\\u0016", "\\u0017",
     "\\u0018", "\\u0019", "\\u001a", "\\u001b", "\\u001c", "\\u001d", "\\u001e", "\\u001f"]

  function Written(c: char): string {
    if c as int < 32 then CONTROLS[c as int]
    else if c == '"' then "\\\""
    else if c == '\\' then "\\\\"
    else [c]
  }

  lemma ControlExact(n: nat)
    requires n < 32 && n !in {8, 9, 10, 12, 13}
    ensures CONTROLS[n] == "\\u00" + [HexDigit(n / 16), HexDigit(n % 16)]
  {
  }

  lemma WrittenExact(c: char)
    ensures Escape(c) == Written(c)
  {
    hide HexDigit;
    if c as int < 32 && c as int !in {8, 9, 10, 12, 13} { ControlExact(c as int); }
  }

  function AllWritten(s: string): string {
    if s == "" then "" else AllWritten(s[..|s| - 1]) + Written(s[|s| - 1])
  }

  lemma {:induction false} EscapeAppended(s: string, c: char)
    ensures EscapeAll(s + [c]) == EscapeAll(s) + Escape(c)
    decreases |s|
  {
    if s == "" {
      assert "" + [c] == [c] && [c][1..] == "";
    } else {
      assert (s + [c])[1..] == s[1..] + [c];
      EscapeAppended(s[1..], c);
    }
  }

  lemma {:induction false} StringText(s: string)
    ensures Print(Str(s)) == "\"" + AllWritten(s) + "\""
    decreases |s|
  {
    hide Escape, Written;
    if s != "" {
      var front := s[..|s| - 1];
      assert s == front + [s[|s| - 1]];
      StringText(front);
      EscapeAppended(front, s[|s| - 1]);
      WrittenExact(s[|s| - 1]);
      assert ("\"" + AllWritten(front) + "\"")[1..|AllWritten(front)| + 1] == AllWritten(front);
      assert ("\"" + EscapeAll(front) + "\"")[1..|EscapeAll(front)| + 1] == EscapeAll(front);
    }
  }

  /* ---- Literals, lists and objects ---- */

  lemma LiteralText()
    ensures Print(Null) == "null" && Print(Bool(true)) == "true" && Print(Bool(false)) == "false"
    ensures forall r: FloatText :: Print(Real(r)) == r
  {
  }

  /** The texts with single commas between them. */
  function Joined(texts: seq<string>): string {
    if texts == [] then ""
    else if |texts| == 1 then texts[0]
    else Joined(texts[..|texts| - 1]) + "," + texts[|texts| - 1]
  }

  lemma {:induction false} JoinedFront(text: string, rest: seq<string>)
    ensures rest != [] ==> Joined([text] + rest) == text + "," + Joined(rest)
    decreases |rest|
  {
    if |rest| > 0 {
      var all := [text] + rest;
      assert all[..|all| - 1] == [text] + rest[..|rest| - 1];
      if |rest| > 1 {
        JoinedFront(text, rest[..|rest| - 1]);
      } else {
        assert [text] + rest[..0] == [text];
      }
    }
  }

  function ItemTexts(items: seq<Json>): seq<string> {
    seq(|items|, i requires 0 <= i < |items| => Print(items[i]))
  }

  lemma {:induction false} ItemsFrom(v: Json, i: nat)
    requires v.Arr? && i <= |v.items|
    ensures PrintItems(v, i) == (if 0 < i < |v.items| then "," else "") + Joined(ItemTexts(v.items)[i..]) + "]"
    decreases |v.items| - i
  {
    hide Print;
    var texts := ItemTexts(v.items);
    if i < |v.items| {
      ItemsFrom(v, i + 1);
      assert texts[i..] == [texts[i]] + texts[i + 1..];
      JoinedFront(texts[i], texts[i + 1..]);
    }
  }

  /** A list is its items' texts between brackets. */
  lemma ListText(items: seq<Json>)
    ensures Print(Arr(items)) == "[" + Joined(ItemTexts(items)) + "]"
  {
    ItemsFrom(Arr(items), 0);
    assert ItemTexts(items)[0..] == ItemTexts(items);
  }

  /** Name and value of each member, in the order of the names. */
  function MemberTexts(members: map<string, Json>, keys: seq<string>): seq<string>
    requires forall k :: k in keys ==> k in members
  {
    seq(|keys|, i requires 0 <= i < |keys| => Print(Str(keys[i])) + ":" + Print(members[keys[i]]))
  }

  lemma MemberText(members: map<string, Json>, keys: seq<string>, i: nat)
    requires i < |keys| && forall k :: k in keys ==> k in members
    ensures MemberTexts(members, keys)[i] == Quote(keys[i]) + (":" + Print(members[keys[i]]))
  {
    hide Quote;
    var q, t := Quote(keys[i]), Print(members[keys[i]]);
    assert Print(Str(keys[i])) == q;
    assert q + ":" + t == q + (":" + t);
  }

  lemma {:induction false} MembersFrom(v: Json, keys: seq<string>, i: nat)
    requires v.Obj? && i <= |keys| && forall k :: k in keys ==> k in v.members
    ensures PrintMembers(v, keys, i) ==
            (if 0 < i < |keys| then "," else "") + Joined(MemberTexts(v.members, keys)[i..]) + "}"
    decreases |keys| - i
  {
    hide Print, Quote;
    var texts := MemberTexts(v.members, keys);
    if i < |keys| {
      MembersFrom(v, keys, i + 1);
      MemberText(v.members, keys, i);
      hide MemberTexts;
      assert texts[i..] == [texts[i]] + texts[i + 1..];
      JoinedFront(texts[i], texts[i + 1..]);
      MembersStep(v, keys, i);
    }
  }

  lemma MembersStep(v: Json, keys: seq<string>, i: nat)
    requires v.Obj? && i < |keys| && forall k :: k in keys ==> k in v.members
    ensures PrintMembers(v, keys, i) ==
            (if i == 0 then "" else ",") + (Quote(keys[i]) + (":" + Print(v.members[keys[i]]))) + PrintMembers(v, keys, i + 1)
  {
    hide Print, Quote;
    var q, t, rest := Quote(keys[i]), Print(v.members[keys[i]]), PrintMembers(v, keys, i + 1);
    assert q + (":" + (t + rest)) == q + (":" + t) + rest;
  }

  /** The names of an object, each once, in the order of their code points. */
  ghost predicate InOrder(keys: seq<string>, names: set<string>) {
    && (forall k :: k in keys <==> k in names)
    && forall i, j :: 0 <= i < j < |keys| ==> Precedes(keys[i], keys[j])
  }

  lemma SameMembers(keys: seq<string>, names: set<string>)
    requires Elements(keys) == names
    ensures forall k :: k in keys <==> k in names
  {
  }

  lemma Ordered(keys: seq<string>, names: set<string>)
    requires StrictlySorted(keys) && Elements(keys) == names
    ensures InOrder(keys, names)
  {
    forall i, j | 0 <= i < j < |keys| ensures Precedes(keys[i], keys[j]) {
      LessExact(keys[i], keys[j]);
    }
    SameMembers(keys, names);
  }

  /** An object is its members' texts between braces, ordered by name. */
  lemma ObjectText(members: map<string, Json>) returns (keys: seq<string>)
    ensures InOrder(keys, members.Keys)
    ensures Print(Obj(members)) == "{" + Joined(MemberTexts(members, keys)) + "}"
  {
    keys := SortedList(members.Keys);
    hide SortedList, PrintMembers, Joined;
    Ordered(keys, members.Keys);
    MembersFrom(Obj(members), keys, 0);
    assert MemberTexts(members, keys)[0..] == MemberTexts(members, keys);
  }

}
