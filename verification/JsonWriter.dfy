/** The JSON serializer, and the proof that the reader undoes it. */
module JsonWriter {
  import opened Sequences
  import opened Wrappers
  import opened JsonValue
  import opened JsonReader
  import opened JsonGrammar
  import opened JsonPlain
  import opened JsonRecognition
  import opened KeyOrder

  // ---------- the serializer ----------

  function EscapeString(s: string): string {
    if s == "" then "" else EscapeChar(s[0]) + EscapeString(s[1..])
  }

  function EscapeChar(c: char): string {
    match c
    case '"' => "\\\""
    case '\\' => "\\\\"
    case '\U{8}' => "\\b"
    case '\U{C}' => "\\f"
    case '\n' => "\\n"
    case '\r' => "\\r"
    case '\t' => "\\t"
    case _ => if c < ' ' then "\\u00" + [UpperHex(c as nat / 16), UpperHex(c as nat % 16)] else [c]
  }

  function UpperHex(d: nat): char
    requires d < 16
  {
    if d < 10 then ('0' as int + d) as char else ('A' as int + d - 10) as char
  }

  function Quote(s: string): string { "\"" + (EscapeString(s) + "\"") }

  /** With `skipSignature`, the member `signature` of the root object is left out; nested ones stay. */
  function SerializeJson(floats: Floats, v: Json, skipSignature: bool, isRoot: bool): string
    decreases v, 1
  {
    match v
    case Null => "null"
    case Boolean(flag) => if flag then "true" else "false"
    case Number(x) => FormatNumber(floats, x)
    case Text(s) => Quote(s)
    case Array(items) => "[" + SerializeItems(floats, items, skipSignature, true)
    case Object(members) => "{" + SerializeMembers(floats, v, SortedKeys(members.Keys), skipSignature, isRoot, true)
  }

  /** The entries from here on, each after the first with its comma, and the closing bracket. */
  function SerializeItems(floats: Floats, items: seq<Json>, skipSignature: bool, first: bool): string
    decreases items, 0
  {
    if items == [] then "]"
    else
      (if first then "" else ",") +
      (SerializeJson(floats, items[0], skipSignature, false) + SerializeItems(floats, items[1..], skipSignature, false))
  }

  function SerializeMembers(floats: Floats, v: Json, keys: seq<string>,
                            skipSignature: bool, isRoot: bool, first: bool): string
    requires v.Object? && forall k :: k in keys ==> k in v.members
    decreases v, 0, |keys|
  {
    if keys == [] then "}"
    else if skipSignature && isRoot && keys[0] == "signature" then
      SerializeMembers(floats, v, keys[1..], skipSignature, isRoot, first)
    else
      (if first then "" else ",") +
      (Quote(keys[0]) + (":" +
       (SerializeJson(floats, v.members[keys[0]], skipSignature, false) +
        SerializeMembers(floats, v, keys[1..], skipSignature, isRoot, false))))
  }

  // ---------- the exact text ----------

  /** What is written for a character: a backslash and a letter for the seven that have one, four upper-case
      hexadecimal digits for the other control characters, and any other character as it is. */
  lemma EscapeCharExactly(c: char)
    ensures var special := [0x22, 0x5C, 0x08, 0x0C, 0x0A, 0x0D, 0x09];
      (forall i :: 0 <= i < 7 && c as int == special[i] ==> EscapeChar(c) == ['\\', "\"\\bfnrt"[i]]) &&
      (c as int !in special ==>
         EscapeChar(c) == if c as int >= 0x20 then [c]
                          else "\\u00" + [UPPER_HEX[c as int / 16], UPPER_HEX[c as int % 16]])
  {
    if c as int < 0x20 {
      UpperHexExactly(c as int / 16);
      UpperHexExactly(c as int % 16);
    }
  }

  lemma UpperHexExactly(d: nat)
    requires d < 16
    ensures UpperHex(d) == UPPER_HEX[d]
  {
  }

  /** Strings are escaped character by character. */
  lemma {:induction false} EscapeStringAppend(a: string, b: string)
    ensures EscapeString(a + b) == EscapeString(a) + EscapeString(b)
  {
    hide EscapeChar;
    if a == "" {
      assert a + b == b;
    } else {
      EscapeStringAppend(a[1..], b);
      assert (a + b)[1..] == a[1..] + b;
      Regroup(EscapeChar(a[0]), EscapeString(a[1..]), EscapeString(b));
    }
  }

  lemma EscapeOne(c: char)
    ensures EscapeString([c]) == EscapeChar(c)
  {
    assert EscapeString([c][1..]) == "";
  }

  // ---------- reading back what was written ----------

  /** All numbers are integers of magnitude below 10^15. */
  predicate Printable(v: Json) {
    match v
    case Null => true
    case Boolean(_) => true
    case Number(x) => IsShortNumber(x)
    case Text(_) => true
    case Array(items) => forall i :: 0 <= i < |items| ==> Printable(items[i])
    case Object(members) => forall k :: k in members ==> Printable(members[k])
  }

  lemma EscapeCharUnit(c: char, rest: string) returns (u: Unit)
    ensures IsUnit(u) && SpellUnit(u, rest) == EscapeChar(c) + rest && UnitMeaning(u) == [c]
    ensures PlainUnit(u)
  {
    var e := EscapeChar(c);
    if |e| == 1 {
      u := Raw(c);
    } else if |e| == 2 {
      u := Escaped(e[1]);
    } else {
      var hex := e[2..];
      assert hex == ['0', '0', UpperHex(c as nat / 16), UpperHex(c as nat % 16)];
      u := Unicode(hex);
      assert Hex4(hex) == c as nat;
      assert e + rest == "\\u" + (hex + rest);
      UpperHexExactly(c as int / 16);
      UpperHexExactly(c as int % 16);
      assert IsUpperHex(hex, c as nat);
    }
  }

  lemma {:induction false} EscapedUnits(s: string, rest: string) returns (units: seq<Unit>)
    ensures AllUnits(units) && UnitsMeaning(units) == s && PlainUnits(units)
    ensures SpellUnits(units, rest) == EscapeString(s) + ("\"" + rest)
  {
    var close := "\"" + rest;
    if s == "" {
      units := [];
    } else {
      var more := EscapedUnits(s[1..], rest);
      var u := EscapeCharUnit(s[0], EscapeString(s[1..]) + close);
      units := [u] + more;
      assert units[1..] == more;
      assert s == [s[0]] + s[1..];
      Regroup(EscapeChar(s[0]), EscapeString(s[1..]), close);
    }
  }

  lemma QuotedUnits(s: string, rest: string) returns (units: seq<Unit>)
    ensures AllUnits(units) && UnitsMeaning(units) == s && PlainUnits(units)
    ensures SpellText(units, rest) == Quote(s) + rest
  {
    units := EscapedUnits(s, rest);
    Regroup(EscapeString(s), "\"", rest);
    Regroup("\"", EscapeString(s) + "\"", rest);
  }

  lemma PrintedInteger(n: int, rest: string) returns (literal: Literal)
    ensures IsLiteral(literal) && PlainLiteral(literal)
    ensures SpellLiteral(literal, "") == IntegerText(n) && SpellLiteral(literal, rest) == IntegerText(n) + rest
  {
    var digits := NatText(if n < 0 then -n else n);
    NatTextValue(if n < 0 then -n else n);
    hide NatText, NatValue;
    literal := Literal(n < 0, digits, None, None);
    assert digits + "" == digits;
    if n < 0 {
      Regroup("-", digits, rest);
    }
  }

  lemma PrintedNumber(floats: Floats, x: real, rest: string) returns (t: Tree)
    requires IsShortNumber(x)
    ensures Derivation(floats, t) && Meaning(floats, t) == Number(x) && Plain(floats, t)
    ensures Spell(t, rest) == FormatNumber(floats, x) + rest
  {
    NumberRoundTrip(floats, x);
    var literal := PrintedInteger(x.Floor, rest);
    hide IntegerText, SpellLiteral, IsLiteral, Stod;
    t := NumberTree(literal);
  }

  /** What is written for a value, in front of any text, is the spelling of a tree that means the value and that has
      no layout. */
  lemma {:induction false} Printed(floats: Floats, v: Json, isRoot: bool, rest: string) returns (t: Tree)
    requires Printable(v)
    ensures Derivation(floats, t) && Meaning(floats, t) == v && Plain(floats, t)
    ensures Spell(t, rest) == SerializeJson(floats, v, false, isRoot) + rest
    decreases v, 1
  {
    match v
    case Null => t := NullTree;
    case Boolean(flag) => t := BooleanTree(flag);
    case Number(x) => t := PrintedNumber(floats, x, rest);
    case Text(s) =>
      var units := QuotedUnits(s, rest);
      t := TextTree(units);
    case Array(items) => t := PrintedArray(floats, items, rest);
    case Object(_) => t := PrintedObject(floats, v, isRoot, rest);
  }

  lemma {:induction false} PrintedArray(floats: Floats, items: seq<Json>, rest: string) returns (t: Tree)
    requires forall i :: 0 <= i < |items| ==> Printable(items[i])
    ensures Derivation(floats, t) && Meaning(floats, t) == Array(items) && Plain(floats, t)
    ensures Spell(t, rest) == "[" + SerializeItems(floats, items, false, true) + rest
    decreases items, 2
  {
    if items == [] {
      t := EmptyArray("");
      assert "" + ("]" + rest) == "]" + rest;
    } else {
      var elements := PrintedItems(floats, items, rest);
      t := ArrayTree("", elements);
      Opened("[", SerializeItems(floats, items, false, true), rest);
    }
  }

  lemma Opened(open: string, inside: string, rest: string)
    ensures (open + inside) + rest == open + ("" + (inside + rest))
  {
    Regroup(open, inside, rest);
    assert "" + (inside + rest) == inside + rest;
  }

  lemma {:induction false} PrintedItems(floats: Floats, items: seq<Json>, rest: string) returns (es: Elements)
    requires items != [] && forall i :: 0 <= i < |items| ==> Printable(items[i])
    ensures DerivesElements(floats, es) && ElementsMeaning(floats, es) == items && PlainElements(floats, es)
    ensures SpellElements(es, rest) == SerializeItems(floats, items, false, true) + rest
    decreases items, 0
  {
    var head := SerializeJson(floats, items[0], false, false);
    var after := SerializeItems(floats, items[1..], false, false);
    assert items == [items[0]] + items[1..];
    assert SerializeItems(floats, items, false, true) + rest == head + (after + rest);
    var t := Printed(floats, items[0], false, after + rest);
    assert "" + (after + rest) == after + rest;
    if |items| == 1 {
      es := LastElement(t, "");
    } else {
      var more := PrintedItems(floats, items[1..], rest);
      es := MoreElements(t, "", "", more);
      NextItems(floats, items[1..]);
      Comma(SerializeItems(floats, items[1..], false, true), rest);
    }
  }

  lemma {:induction false} PrintedObject(floats: Floats, v: Json, isRoot: bool, rest: string) returns (t: Tree)
    requires v.Object? && Printable(v)
    ensures Derivation(floats, t) && Meaning(floats, t) == v && Plain(floats, t)
    ensures Spell(t, rest) == SerializeJson(floats, v, false, isRoot) + rest
    decreases v, 0
  {
    var keys := SortedKeys(v.members.Keys);
    Opened("{", SerializeMembers(floats, v, keys, false, isRoot, true), rest);
    if keys == [] {
      t := EmptyObject("");
      NoKeys(v.members);
    } else {
      var members := PrintedMembers(floats, v, keys, isRoot, rest);
      t := ObjectTree("", members);
      SortedKeysInByteOrder(v.members.Keys);
      SelectAll(v.members, keys);
    }
  }

  lemma NoKeys(m: map<string, Json>)
    requires SortedKeys(m.Keys) == []
    ensures m == map[]
  {
  }

  /** The members with the given keys. */
  function Select(m: map<string, Json>, keys: seq<string>): map<string, Json>
    requires forall k :: k in keys ==> k in m
  {
    if keys == [] then map[] else Select(m, keys[1..])[keys[0] := m[keys[0]]]
  }

  lemma {:induction false} SelectAll(m: map<string, Json>, keys: seq<string>)
    requires forall k :: k in keys ==> k in m
    ensures forall k :: k in Select(m, keys) <==> k in keys
    ensures forall k :: k in keys ==> Select(m, keys)[k] == m[k]
    ensures keys == SortedKeys(m.Keys) ==> Select(m, keys) == m
  {
    if keys != [] {
      SelectAll(m, keys[1..]);
      assert keys == [keys[0]] + keys[1..];
    }
  }

  lemma {:induction false} PrintedMembers(floats: Floats, v: Json, keys: seq<string>, isRoot: bool, rest: string)
    returns (ms: Members)
    requires v.Object? && keys != []
    requires forall k :: k in keys ==> k in v.members && Printable(v.members[k])
    ensures DerivesMembers(floats, ms) && PlainMembers(floats, ms) && WrittenKeys(floats, ms) == keys
    ensures MembersMeaning(floats, ms) == Select(v.members, keys)
    ensures SpellMembers(ms, rest) == SerializeMembers(floats, v, keys, false, isRoot, true) + rest
    decreases v, 0, |keys|
  {
    assert keys[0] in keys && forall k :: k in keys[1..] ==> k in keys;
    var after := SerializeMembers(floats, v, keys[1..], false, isRoot, false);
    var m := PrintedMember(floats, keys[0], v.members[keys[0]], after + rest);
    MemberText(Quote(keys[0]), SerializeJson(floats, v.members[keys[0]], false, false), after, rest);
    if |keys| == 1 {
      ms := LastMember(m);
    } else {
      var more := PrintedMembers(floats, v, keys[1..], isRoot, rest);
      ms := MoreMembers(m, "", more);
      NextMembers(floats, v, keys[1..], isRoot);
      Comma(SerializeMembers(floats, v, keys[1..], false, isRoot, true), rest);
    }
  }

  /** The members after the first are those of an object that starts there, behind a comma. */
  lemma NextMembers(floats: Floats, v: Json, keys: seq<string>, isRoot: bool)
    requires v.Object? && keys != [] && forall k :: k in keys ==> k in v.members
    ensures SerializeMembers(floats, v, keys, false, isRoot, false)
         == "," + SerializeMembers(floats, v, keys, false, isRoot, true)
  {
    hide Quote, SerializeJson;
    var x := SerializeMembers(floats, v, keys, false, isRoot, true);
    assert x == "" + x;
  }

  lemma NextItems(floats: Floats, items: seq<Json>)
    requires items != []
    ensures SerializeItems(floats, items, false, false) == "," + SerializeItems(floats, items, false, true)
  {
    hide SerializeJson;
    var x := SerializeItems(floats, items, false, true);
    assert x == "" + x;
  }

  lemma Comma(x: string, rest: string)
    ensures ("," + x) + rest == "," + ("" + (x + rest))
  {
    Regroup(",", x, rest);
    assert "" + (x + rest) == x + rest;
  }

  lemma {:induction false} PrintedMember(floats: Floats, key: string, value: Json, follow: string) returns (m: Member)
    requires Printable(value)
    ensures DerivesMember(floats, m) && UnitsMeaning(m.key) == key && Meaning(floats, m.value) == value
    ensures PlainMember(floats, m)
    ensures SpellMember(m, follow) == Quote(key) + (":" + (SerializeJson(floats, value, false, false) + follow))
    decreases value, 2
  {
    var t := Printed(floats, value, false, follow);
    var units := QuotedUnits(key, ":" + Spell(t, follow));
    m := Member(units, "", "", t, "");
    SpellTight(m, follow);
  }

  lemma MemberText(key: string, value: string, after: string, rest: string)
    ensures ("" + (key + (":" + (value + after)))) + rest == key + (":" + (value + (after + rest)))
  {
    Regroup(value, after, rest);
    Regroup(":", value + after, rest);
    Regroup(key, ":" + (value + after), rest);
    assert "" + (key + (":" + (value + after))) == key + (":" + (value + after));
  }

  /** A member without layout. */
  lemma SpellTight(m: Member, rest: string)
    requires m.beforeColon == "" && m.afterColon == "" && m.after == ""
    ensures SpellMember(m, rest) == SpellText(m.key, ":" + Spell(m.value, rest))
  {
    assert "" + rest == rest;
    assert "" + Spell(m.value, rest) == Spell(m.value, rest);
    assert "" + (":" + Spell(m.value, rest)) == ":" + Spell(m.value, rest);
  }

  /** Reading what was written gives the value back and consumes all of the text. */
  lemma ReadUndoesWrite(floats: Floats, v: Json, isRoot: bool)
    requires Printable(v)
    ensures Read(floats, SerializeJson(floats, v, false, isRoot)) == Done(v, "")
  {
    var text := SerializeJson(floats, v, false, isRoot);
    var t := Printed(floats, v, isRoot, "");
    assert text + "" == text && "" + text == text;
    DocumentComplete(floats, Document("", t, ""));
  }
}
