/**
 Canonical JSON text: sorted keys and compact separators. Printing is injective
 because printed text reads back. The system's own profile refuses floating-point
 numbers; the provider's allows finite ones.
 */
module CanonicalJson {
  import opened Basics
  import opened Contracts
  import opened Numerals

  predicate IsNumberChar(c: char) {
    IsDigit(c) || c in "+-.eE"
  }

  /** A floating-point number is represented by its shortest decimal text. */
  predicate IsFloatText(s: string) {
    && s != "" && (IsDigit(s[0]) || s[0] == '-')
    && (forall i :: 0 <= i < |s| ==> IsNumberChar(s[i]))
    && exists i :: 0 <= i < |s| && s[i] in ".eE"
  }

  type FloatText = s: string | IsFloatText(s) witness FLOAT_ZERO

  const FLOAT_ZERO: string := FloatZero()

  function FloatZero(): (s: string)
    ensures IsFloatText(s)
  {
    assert "0.0"[1] in ".eE";
    "0.0"
  }

  datatype Json =
    | Null
    | Bool(b: bool)
    | Int(n: int)
    | Real(repr: FloatText)
    | Str(s: string)
    | Arr(items: seq<Json>)
    | Obj(members: map<string, Json>)

  /* ---- Strings ---- */

  function HexDigit(n: nat): char
    requires n < 16
  {
    if n < 10 then DigitChar(n) else 'a' + (n - 10) as char
  }

  /** Quotes, backslashes and control characters are escaped, nothing else is. */
  function Escape(c: char): string {
    if c == '"' then "\\\""
    else if c == '\\' then "\\\\"
    else if c == '\n' then "\\n"
    else if c == '\r' then "\\r"
    else if c == '\t' then "\\t"
    else if c as int == 12 then "\\f"
    else if c as int == 8 then "\\b"
    else if c < ' ' then "\\u00" + [HexDigit(c as int / 16), HexDigit(c as int % 16)]
    else [c]
  }

  function EscapeAll(s: string): string {
    if s == "" then "" else Escape(s[0]) + EscapeAll(s[1..])
  }

  function Quote(s: string): string {
    "\"" + EscapeAll(s) + "\""
  }

  /* ---- Printing ---- */

  function Print(v: Json): string
    decreases v, 1, 0
  {
    match v
    case Null => "null"
    case Bool(b) => if b then "true" else "false"
    case Int(n) => PrintInt(n)
    case Real(repr) => repr
    case Str(s) => Quote(s)
    case Arr(_) => "[" + PrintItems(v, 0)
    case Obj(_) => "{" + PrintMembers(v, SortedList(v.members.Keys), 0)
  }

  function Separator(i: nat): string {
    if i == 0 then "" else ","
  }

  function PrintItems(v: Json, i: nat): string
    requires v.Arr? && i <= |v.items|
    decreases v, 0, |v.items| - i
  {
    if i == |v.items| then "]" else Separator(i) + (Print(v.items[i]) + PrintItems(v, i + 1))
  }

  function PrintMembers(v: Json, keys: seq<string>, i: nat): string
    requires v.Obj? && i <= |keys| && forall k :: k in keys ==> k in v.members
    decreases v, 0, |keys| - i
  {
    if i == |keys| then "}"
    else Separator(i) + (Quote(keys[i]) + (":" + (Print(v.members[keys[i]]) + PrintMembers(v, keys, i + 1))))
  }

  /* ---- Reading ---- */

  predicate IsHex(c: char) {
    IsDigit(c) || 'a' <= c <= 'f' || 'A' <= c <= 'F'
  }

  function HexValue(c: char): (n: nat)
    requires IsHex(c)
    ensures n < 16
  {
    if IsDigit(c) then DigitValue(c) else if 'a' <= c then 10 + (c - 'a') as nat else 10 + (c - 'A') as nat
  }

  /** The code unit of four hexadecimal digits, unless it is half of a pair. */
  function HexChar(s: string): Option<char>
    requires |s| == 4
  {
    if forall i :: 0 <= i < 4 ==> IsHex(s[i]) then
      var n := ((HexValue(s[0]) * 16 + HexValue(s[1])) * 16 + HexValue(s[2])) * 16 + HexValue(s[3]);
      if 0xD800 <= n < 0xE000 then None else Some(n as char)
    else None
  }

  /** One character of a string body: its value and how much text it takes. */
  function ReadChar(s: string): (r: Option<(char, nat)>)
    requires s != ""
    ensures r.Some? ==> 0 < r.value.1 <= |s|
  {
    if s[0] < ' ' || s[0] == '"' then None
    else if s[0] != '\\' then Some((s[0], 1))
    else if |s| < 2 then None
    else match s[1]
      case '"' => Some(('"', 2))
      case '\\' => Some(('\\', 2))
      case '/' => Some(('/', 2))
      case 'n' => Some(('\n', 2))
      case 'r' => Some(('\r', 2))
      case 't' => Some(('\t', 2))
      case 'f' => Some((12 as char, 2))
      case 'b' => Some((8 as char, 2))
      case 'u' =>
        if |s| < 6 then None
        else if HexChar(s[2..6]).None? then None else Some((HexChar(s[2..6]).value, 6))
      case _ => None
  }

  /** The body of a string up to its closing quote, and the text after it. */
  function ReadString(s: string): (r: Option<(string, string)>)
    ensures r.Some? ==> |r.value.1| < |s|
    decreases |s|
  {
    if s == "" then None
    else if s[0] == '"' then Some(("", s[1..]))
    else
      var c := ReadChar(s);
      if c.None? then None
      else
        var rest := ReadString(s[c.value.1..]);
        if rest.None? then None else Some(([c.value.0] + rest.value.0, rest.value.1))
  }

  /** The length of the leading run of characters a number is written with. */
  function NumberRun(s: string): (n: nat)
    ensures n <= |s| && forall i :: 0 <= i < n ==> IsNumberChar(s[i])
    ensures n < |s| ==> !IsNumberChar(s[n])
  {
    if s == "" || !IsNumberChar(s[0]) then 0
    else
      var m := NumberRun(s[1..]);
      assert forall i :: 0 <= i < m ==> s[1..][i] == s[i + 1];
      1 + m
  }

  predicate IsIntText(s: string) {
    IsNatText(if s != "" && s[0] == '-' then s[1..] else s)
  }

  function IntOf(s: string): int
    requires IsIntText(s)
  {
    if s[0] == '-' then -(ValueOf(s[1..]) as int) else ValueOf(s)
  }

  /** An integer, or a number with a fraction or an exponent. */
  function ReadNumber(s: string): (r: Option<(Json, string)>)
    ensures r.Some? ==> |r.value.1| < |s|
  {
    var n := NumberRun(s);
    var token := s[..n];
    if IsIntText(token) then Some((Int(IntOf(token)), s[n..]))
    else if IsFloatText(token) then Some((Real(token), s[n..]))
    else None
  }

  predicate StartsWith(s: string, prefix: string) {
    |prefix| <= |s| && s[..|prefix|] == prefix
  }

  function ReadValue(s: string): (r: Option<(Json, string)>)
    ensures r.Some? ==> |r.value.1| < |s|
    decreases |s|, 0
  {
    if s == "" then None
    else if StartsWith(s, "null") then Some((Null, s[4..]))
    else if StartsWith(s, "true") then Some((Bool(true), s[4..]))
    else if StartsWith(s, "false") then Some((Bool(false), s[5..]))
    else if s[0] == '"' then
      var r := ReadString(s[1..]);
      if r.None? then None else Some((Str(r.value.0), r.value.1))
    else if s[0] == '[' then ReadItems(s[1..], [])
    else if s[0] == '{' then ReadMembers(s[1..], map[], true)
    else
      ReadNumber(s)
  }

  function ReadItems(s: string, items: seq<Json>): (r: Option<(Json, string)>)
    ensures r.Some? ==> |r.value.1| < |s|
    decreases |s|, 1
  {
    if s == "" then None
    else if s[0] == ']' then Some((Arr(items), s[1..]))
    else if items != [] && s[0] != ',' then None
    else
      var v := ReadValue(if items == [] then s else s[1..]);
      if v.None? then None else ReadItems(v.value.1, items + [v.value.0])
  }

  /** A later member of the same name replaces an earlier one. */
  function ReadMembers(s: string, members: map<string, Json>, first: bool): (r: Option<(Json, string)>)
    ensures r.Some? ==> |r.value.1| < |s|
    decreases |s|, 1
  {
    if s == "" then None
    else if s[0] == '}' then Some((Obj(members), s[1..]))
    else if !first && s[0] != ',' then None
    else
      var t := if first then s else s[1..];
      if t == "" || t[0] != '"' then None
      else
        var key := ReadString(t[1..]);
        if key.None? || key.value.1 == "" || key.value.1[0] != ':' then None
        else
          var v := ReadValue(key.value.1[1..]);
          if v.None? then None else ReadMembers(v.value.1, members[key.value.0 := v.value.0], false)
  }

  /** A whole text is one value. */
  function Parse(text: string): Option<Json> {
    var r := ReadValue(text);
    if r.Some? && r.value.1 == "" then Some(r.value.0) else None
  }

  /* ---- Strings read back ---- */

  lemma EscapedControl(c: char)
    requires c < ' '
    ensures HexChar("00" + [HexDigit(c as int / 16), HexDigit(c as int % 16)]) == Some(c)
  {
    var s := "00" + [HexDigit(c as int / 16), HexDigit(c as int % 16)];
    assert HexValue(s[2]) == c as int / 16 && HexValue(s[3]) == c as int % 16;
  }

  lemma EscapeReadBack(c: char, rest: string)
    ensures Escape(c) != "" && Escape(c)[0] != '"'
    ensures ReadChar(Escape(c) + rest) == Some((c, |Escape(c)|))
  {
    var s := Escape(c) + rest;
    if s[0] == '\\' && s[1] == 'u' {
      EscapedControl(c);
      assert s[2..6] == "00" + [HexDigit(c as int / 16), HexDigit(c as int % 16)];
    }
  }

  lemma {:induction false} StringReadBack(s: string, rest: string)
    ensures ReadString(EscapeAll(s) + ("\"" + rest)) == Some((s, rest))
    decreases |s|
  {
    hide Escape, ReadChar;
    if s == "" {
      assert EscapeAll(s) + ("\"" + rest) == "\"" + rest;
    } else {
      var after := EscapeAll(s[1..]) + ("\"" + rest);
      var text := EscapeAll(s) + ("\"" + rest);
      assert text == Escape(s[0]) + after;
      EscapeReadBack(s[0], after);
      assert text[|Escape(s[0])|..] == after;
      StringReadBack(s[1..], rest);
      assert s == [s[0]] + s[1..];
    }
  }

  /** What may follow a number without becoming part of it. */
  predicate Stops(rest: string) {
    rest == "" || !IsNumberChar(rest[0])
  }

  lemma {:induction false} NumberRunOf(token: string, rest: string)
    requires (forall i :: 0 <= i < |token| ==> IsNumberChar(token[i])) && Stops(rest)
    ensures NumberRun(token + rest) == |token|
  {
    if token == "" {
      assert token + rest == rest;
    } else {
      assert (token + rest)[1..] == token[1..] + rest;
      NumberRunOf(token[1..], rest);
    }
  }

  lemma IntText(n: int)
    ensures IsIntText(PrintInt(n)) && IntOf(PrintInt(n)) == n
    ensures forall i :: 0 <= i < |PrintInt(n)| ==> IsNumberChar(PrintInt(n)[i])
  {
    hide ValueOf;
    var d := PrintNat(if n < 0 then -n else n);
    NatReadBack(if n < 0 then -n else n);
    if n < 0 { assert PrintInt(n)[1..] == d; }
  }

  lemma FloatNotInt(s: string)
    requires IsFloatText(s)
    ensures !IsIntText(s)
  {
    var i :| 0 <= i < |s| && s[i] in ".eE";
    if s[0] == '-' { assert s[1..][i - 1] == s[i]; }
  }

  lemma {:induction false} NumberReadBack(v: Json, rest: string)
    requires (v.Int? || v.Real?) && Stops(rest)
    ensures ReadNumber(Print(v) + rest) == Some((v, rest))
    ensures Print(v) != "" && (IsDigit(Print(v)[0]) || Print(v)[0] == '-')
  {
    hide ValueOf, IsIntText, PrintInt, Stops;
    var token := Print(v);
    if v.Int? {
      IntText(v.n);
      NumberStart(v.n);
    } else {
      FloatNotInt(token);
    }
    NumberRunOf(token, rest);
    assert (token + rest)[..|token|] == token && (token + rest)[|token|..] == rest;
  }

  lemma NumberStart(n: int)
    ensures PrintInt(n) != "" && (IsDigit(PrintInt(n)[0]) || PrintInt(n)[0] == '-')
  {
  }

  /* ---- Values read back ---- */

  lemma {:induction false} PrintStart(v: Json)
    ensures Print(v) != "" && Print(v)[0] !in "]},"
  {
    if v.Int? || v.Real? { NumberReadBack(v, ""); }
  }

  function Only(members: map<string, Json>, keys: seq<string>): map<string, Json> {
    map k | k in members && k in keys :: members[k]
  }

  lemma NotLiteral(s: string)
    requires s != "" && s[0] !in "ntf"
    ensures !StartsWith(s, "null") && !StartsWith(s, "true") && !StartsWith(s, "false")
  {
  }

  lemma {:induction false} WordReadBack(v: Json, rest: string)
    requires v.Null? || v.Bool?
    ensures ReadValue(Print(v) + rest) == Some((v, rest))
  {
    hide ReadString, ReadNumber, ReadItems, ReadMembers;
    var text := Print(v) + rest;
    LiteralRead(Print(v), rest);
    if v.Bool? {
      assert text[0] == 't' || text[0] == 'f';
      assert !StartsWith(text, "null") && (!v.b ==> !StartsWith(text, "true"));
    }
  }

  lemma {:induction false} ScalarReadBack(v: Json, rest: string)
    requires (v.Int? || v.Real? || v.Str?) && Stops(rest)
    ensures ReadValue(Print(v) + rest) == Some((v, rest))
  {
    hide ReadString, ReadNumber, ReadItems, ReadMembers, StartsWith, PrintInt, EscapeAll, Stops, IsFloatText;
    var text := Print(v) + rest;
    if !v.Str? {
      NumberReadBack(v, rest);
    } else {
      StringReadBack(v.s, rest);
      assert text[1..] == EscapeAll(v.s) + ("\"" + rest);
    }
    NotLiteral(text);
  }

  lemma {:induction false} ReadPrinted(v: Json, rest: string)
    requires Stops(rest)
    ensures ReadValue(Print(v) + rest) == Some((v, rest))
    decreases v, 1, 0
  {
    hide ReadString, ReadNumber, ReadItems, ReadMembers, StartsWith, Stops, PrintItems, PrintMembers, Only, SortedList;
    match v
    case Null => WordReadBack(v, rest);
    case Bool(_) => WordReadBack(v, rest);
    case Int(_) => ScalarReadBack(v, rest);
    case Real(_) => ScalarReadBack(v, rest);
    case Str(_) => ScalarReadBack(v, rest);
    case Arr(items) =>
      var text := Print(v) + rest;
      NotLiteral(text);
      ReadPrintedItems(v, 0, rest);
      assert items[..0] == [];
      assert text[1..] == PrintItems(v, 0) + rest;
    case Obj(members) =>
      var text := Print(v) + rest;
      var keys := SortedList(members.Keys);
      NotLiteral(text);
      KeysListed(keys, members);
      ReadPrintedMembers(v, keys, 0, rest);
      assert text[1..] == PrintMembers(v, keys, 0) + rest;
  }

  lemma KeysListed(keys: seq<string>, members: map<string, Json>)
    requires Elements(keys) == members.Keys
    ensures (forall k :: k in keys ==> k in members) && Only(members, keys[..0]) == map[] && Only(members, keys) == members
  {
    assert forall k :: k in members ==> k in Elements(keys);
  }

  lemma LiteralRead(word: string, rest: string)
    ensures StartsWith(word + rest, word) && (word + rest)[|word|..] == rest
  {
  }

  /** The end of a list stops a number. */
  lemma ItemsStop(v: Json, i: nat, rest: string)
    requires v.Arr? && i < |v.items|
    ensures Stops(PrintItems(v, i + 1) + rest)
  {
    hide Print;
  }

  lemma MembersStop(v: Json, keys: seq<string>, i: nat, rest: string)
    requires v.Obj? && i < |keys| && forall k :: k in keys ==> k in v.members
    ensures Stops(PrintMembers(v, keys, i + 1) + rest)
  {
    hide Print, Quote;
  }

  lemma {:induction false} ReadPrintedItems(v: Json, i: nat, rest: string)
    requires v.Arr? && i <= |v.items|
    ensures ReadItems(PrintItems(v, i) + rest, v.items[..i]) == Some((v, rest))
    decreases v, 0, |v.items| - i
  {
    hide Print, ReadValue, Stops;
    var text := PrintItems(v, i) + rest;
    if i == |v.items| {
      assert text[1..] == rest && v.items[..i] == v.items;
    } else {
      var after := PrintItems(v, i + 1) + rest;
      ItemsStop(v, i, rest);
      ReadPrinted(v.items[i], after);
      PrintStart(v.items[i]);
      ReadPrintedItems(v, i + 1, rest);
      assert text == Separator(i) + (Print(v.items[i]) + after);
      assert v.items[..i + 1] == v.items[..i] + [v.items[i]];
      if i == 0 {
        assert text == Print(v.items[i]) + after;
      } else {
        assert text[1..] == Print(v.items[i]) + after;
      }
    }
  }

  /** One member read: its name, the colon and its value. */
  lemma {:induction false} MemberReadBack(k: string, x: Json, after: string, members: map<string, Json>)
    requires ReadValue(Print(x) + after) == Some((x, after))
    ensures var t := Quote(k) + (":" + (Print(x) + after));
            && t != "" && t[0] == '"'
            && ReadMembers(t, members, true) == ReadMembers(after, members[k := x], false)
            && ReadMembers("," + t, members, false) == ReadMembers(after, members[k := x], false)
  {
    hide Print, ReadValue, EscapeAll, ReadString;
    var tail := ":" + (Print(x) + after);
    var t := Quote(k) + tail;
    StringReadBack(k, tail);
    assert t[1..] == EscapeAll(k) + ("\"" + tail);
    assert tail[1..] == Print(x) + after;
    assert ("," + t)[1..] == t;
  }

  lemma Reassociate(a: string, b: string, c: string, d: string, e: string, rest: string)
    ensures a + (b + (c + (d + e))) + rest == a + (b + (c + (d + (e + rest))))
  {
    assert d + e + rest == d + (e + rest);
    assert c + (d + e) + rest == c + (d + e + rest);
    assert b + (c + (d + e)) + rest == b + (c + (d + e) + rest);
  }

  lemma {:induction false} MembersEnd(members: map<string, Json>, first: bool, rest: string)
    ensures ReadMembers("}" + rest, members, first) == Some((Obj(members), rest))
  {
    assert ("}" + rest)[1..] == rest;
  }

  lemma {:induction false} ReadPrintedMembers(v: Json, keys: seq<string>, i: nat, rest: string)
    requires v.Obj? && i <= |keys| && (forall k :: k in keys ==> k in v.members) && Only(v.members, keys) == v.members
    ensures ReadMembers(PrintMembers(v, keys, i) + rest, Only(v.members, keys[..i]), i == 0) == Some((v, rest))
    decreases v, 0, |keys| - i
  {
    hide Print, ReadValue, ReadMembers, Stops, Quote, ReadString, Only;
    if i == |keys| {
      MembersEnd(v.members, i == 0, rest);
      assert keys[..i] == keys;
    } else {
      var k := keys[i];
      var after := PrintMembers(v, keys, i + 1) + rest;
      MembersStop(v, keys, i, rest);
      ReadPrinted(v.members[k], after);
      ReadPrintedMembers(v, keys, i + 1, rest);
      OnlyNext(v.members, keys, i);
      MemberReadBack(k, v.members[k], after, Only(v.members, keys[..i]));
      Reassociate(Separator(i), Quote(k), ":", Print(v.members[k]), PrintMembers(v, keys, i + 1), rest);
      var t := Quote(k) + (":" + (Print(v.members[k]) + after));
      assert i == 0 ==> Separator(i) + t == t;
    }
  }

  lemma OnlyNext(members: map<string, Json>, keys: seq<string>, i: nat)
    requires i < |keys| && keys[i] in members
    ensures Only(members, keys[..i + 1]) == Only(members, keys[..i])[keys[i] := members[keys[i]]]
  {
    assert keys[..i + 1] == keys[..i] + [keys[i]];
  }

  /** Canonical text reads back as the value it prints. */
  lemma {:induction false} ParsePrinted(v: Json)
    ensures Parse(Print(v)) == Some(v)
  {
    ReadPrinted(v, "");
    assert Print(v) + "" == Print(v);
  }

  /** Canonical text is injective: different values never share a text. */
  lemma {:induction false} PrintInjective(v: Json, w: Json)
    requires Print(v) == Print(w)
    ensures v == w
  {
    ParsePrinted(v);
    ParsePrinted(w);
  }

  /* ---- The system's own profile ---- */

  predicate FloatFree(v: Json)
    decreases v
  {
    match v
    case Real(_) => false
    case Arr(items) => forall i :: 0 <= i < |items| ==> FloatFree(items[i])
    case Obj(members) => forall k :: k in members ==> FloatFree(members[k])
    case _ => true
  }

  /** The canonical text of a value, unless it holds a floating-point number. */
  function CanonicalText(v: Json): Option<string> {
    if FloatFree(v) then Some(Print(v)) else None
  }

  /** A text is canonical for at most one value, and reads back as it. */
  lemma CanonicalTextExact(v: Json, w: Json)
    requires CanonicalText(v).Some? && CanonicalText(v) == CanonicalText(w)
    ensures v == w && Parse(CanonicalText(v).value) == Some(v)
  {
    ParsePrinted(v);
    PrintInjective(v, w);
  }
}
