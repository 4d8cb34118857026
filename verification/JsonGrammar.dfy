/** The language of the JSON reader, as parse trees.

    A tree records the whole text it derives, layout included; `Spell` writes that text out and `Meaning`
    is the value it denotes. The productions are those of sections 2 to 7 of RFC 8259 with the
    relaxations of the program: raw control characters are allowed in strings, every `\u` escape is
    encoded on its own, and the first of several equal keys is kept. */
module JsonGrammar {
  import opened Wrappers
  import opened JsonValue
  import opened JsonReader

  datatype Tree =
    | NullTree
    | BooleanTree(flag: bool)
    | NumberTree(literal: Literal)
    | TextTree(units: seq<Unit>)
    | EmptyObject(blank: string)
    | ObjectTree(blank: string, members: Members)
    | EmptyArray(blank: string)
    | ArrayTree(blank: string, elements: Elements)

  datatype Member = Member(key: seq<Unit>, beforeColon: string, afterColon: string, value: Tree, after: string)

  datatype Members = LastMember(member: Member) | MoreMembers(member: Member, blank: string, rest: Members)

  datatype Elements =
    | LastElement(value: Tree, after: string)
    | MoreElements(value: Tree, after: string, blank: string, rest: Elements)

  /** One character of a string as it is written. */
  datatype Unit = Raw(c: char) | Escaped(c: char) | Unicode(hex: string)

  /** `[ "-" ] int [ frac ] [ exp ]`; `fraction` and `exponent` are the digits after the mark. */
  datatype Literal = Literal(minus: bool, whole: string, fraction: Option<string>, exponent: Option<Exponent>)

  /** `mark` is the letter and the optional sign. */
  datatype Exponent = Exponent(mark: string, digits: string)

  // ---------- which trees are derivations ----------

  predicate Derivation(floats: Floats, t: Tree) {
    match t
    case NullTree => true
    case BooleanTree(_) => true
    case NumberTree(literal) => IsLiteral(literal) && Stod(floats, SpellLiteral(literal, "")).Some?
    case TextTree(units) => AllUnits(units)
    case EmptyObject(blank) => AllBlank(blank)
    case ObjectTree(blank, members) => AllBlank(blank) && DerivesMembers(floats, members)
    case EmptyArray(blank) => AllBlank(blank)
    case ArrayTree(blank, elements) => AllBlank(blank) && DerivesElements(floats, elements)
  }

  predicate DerivesMember(floats: Floats, m: Member) {
    AllUnits(m.key) && AllBlank(m.beforeColon) && AllBlank(m.afterColon) &&
    Derivation(floats, m.value) && AllBlank(m.after)
  }

  predicate DerivesMembers(floats: Floats, ms: Members) {
    DerivesMember(floats, ms.member) &&
    (ms.MoreMembers? ==> AllBlank(ms.blank) && DerivesMembers(floats, ms.rest))
  }

  predicate DerivesElements(floats: Floats, es: Elements) {
    Derivation(floats, es.value) && AllBlank(es.after) &&
    (es.MoreElements? ==> AllBlank(es.blank) && DerivesElements(floats, es.rest))
  }

  predicate IsUnit(u: Unit) {
    match u
    case Raw(c) => c != '"' && c != '\\'
    case Escaped(c) => SimpleEscape(c).Some?
    case Unicode(hex) => |hex| == 4 && forall i :: 0 <= i < 4 ==> IsHexDigit(hex[i])
  }

  predicate AllUnits(units: seq<Unit>) { forall i :: 0 <= i < |units| ==> IsUnit(units[i]) }

  predicate IsDigits(s: string) { s != "" && AllDigits(s) }

  predicate IsLiteral(n: Literal) {
    IsDigits(n.whole) && (n.whole[0] == '0' ==> n.whole == "0") &&
    (n.fraction.Some? ==> IsDigits(n.fraction.value)) &&
    (n.exponent.Some? ==> IsExponent(n.exponent.value))
  }

  predicate IsExponent(e: Exponent) { IsMark(e.mark) && IsDigits(e.digits) }

  predicate IsMark(mark: string) {
    1 <= |mark| <= 2 && (mark[0] == 'e' || mark[0] == 'E') && (|mark| == 2 ==> mark[1] == '+' || mark[1] == '-')
  }

  // ---------- the text of a tree ----------

  /** The text of `t` followed by `rest`. */
  function Spell(t: Tree, rest: string): string {
    match t
    case NullTree => "null" + rest
    case BooleanTree(flag) => (if flag then "true" else "false") + rest
    case NumberTree(literal) => SpellLiteral(literal, rest)
    case TextTree(units) => SpellText(units, rest)
    case EmptyObject(blank) => "{" + (blank + ("}" + rest))
    case ObjectTree(blank, members) => "{" + (blank + SpellMembers(members, rest))
    case EmptyArray(blank) => "[" + (blank + ("]" + rest))
    case ArrayTree(blank, elements) => "[" + (blank + SpellElements(elements, rest))
  }

  function SpellMember(m: Member, rest: string): string {
    SpellText(m.key, m.beforeColon + (":" + (m.afterColon + Spell(m.value, m.after + rest))))
  }

  function SpellMembers(ms: Members, rest: string): string {
    match ms
    case LastMember(m) => SpellMember(m, "}" + rest)
    case MoreMembers(m, blank, more) => SpellMember(m, "," + (blank + SpellMembers(more, rest)))
  }

  function SpellElements(es: Elements, rest: string): string {
    match es
    case LastElement(value, after) => Spell(value, after + ("]" + rest))
    case MoreElements(value, after, blank, more) => Spell(value, after + ("," + (blank + SpellElements(more, rest))))
  }

  function SpellText(units: seq<Unit>, rest: string): string { "\"" + SpellUnits(units, rest) }

  function SpellUnits(units: seq<Unit>, rest: string): string {
    if units == [] then "\"" + rest else SpellUnit(units[0], SpellUnits(units[1..], rest))
  }

  function SpellUnit(u: Unit, rest: string): string {
    match u
    case Raw(c) => [c] + rest
    case Escaped(c) => ['\\', c] + rest
    case Unicode(hex) => "\\u" + (hex + rest)
  }

  function SpellLiteral(n: Literal, rest: string): string {
    var unsigned := n.whole + SpellFraction(n.fraction, SpellExponent(n.exponent, rest));
    if n.minus then "-" + unsigned else unsigned
  }

  function SpellFraction(fraction: Option<string>, rest: string): string {
    match fraction case None => rest case Some(digits) => "." + (digits + rest)
  }

  function SpellExponent(exponent: Option<Exponent>, rest: string): string {
    match exponent case None => rest case Some(Exponent(mark, digits)) => mark + (digits + rest)
  }

  // ---------- the value of a tree ----------

  function Meaning(floats: Floats, t: Tree): Json
    requires Derivation(floats, t)
  {
    match t
    case NullTree => Null
    case BooleanTree(flag) => Boolean(flag)
    case NumberTree(literal) => Number(Stod(floats, SpellLiteral(literal, "")).value)
    case TextTree(units) => Text(UnitsMeaning(units))
    case EmptyObject(_) => Object(map[])
    case ObjectTree(_, members) => Object(MembersMeaning(floats, members))
    case EmptyArray(_) => Array([])
    case ArrayTree(_, elements) => Array(ElementsMeaning(floats, elements))
  }

  /** The member written first overrides every later one with the same key. */
  function MembersMeaning(floats: Floats, ms: Members): map<string, Json>
    requires DerivesMembers(floats, ms)
  {
    assert DerivesMember(floats, ms.member);
    (if ms.MoreMembers? then MembersMeaning(floats, ms.rest) else map[])
      [UnitsMeaning(ms.member.key) := Meaning(floats, ms.member.value)]
  }

  /** The members one after another, equal keys included. */
  function MemberList(floats: Floats, ms: Members): seq<(string, Json)>
    requires DerivesMembers(floats, ms)
  {
    assert DerivesMember(floats, ms.member);
    [(UnitsMeaning(ms.member.key), Meaning(floats, ms.member.value))] +
    if ms.MoreMembers? then MemberList(floats, ms.rest) else []
  }

  /** The value of an object has exactly the keys that are written, each with the value written first. */
  lemma FirstOfEqualKeys(floats: Floats, ms: Members, key: string, i: nat)
    requires DerivesMembers(floats, ms)
    ensures var list, value := MemberList(floats, ms), MembersMeaning(floats, ms);
      (key in value <==> exists j :: 0 <= j < |list| && list[j].0 == key) &&
      (IsFirst(list, key, i) ==> key in value && value[key] == list[i].1)
  {
    MeaningOfList(floats, ms);
    FirstWins(MemberList(floats, ms), key, i);
  }

  /** Entry `i` is the first with this key. */
  predicate IsFirst(list: seq<(string, Json)>, key: string, i: nat) {
    i < |list| && list[i].0 == key && forall j :: 0 <= j < i ==> list[j].0 != key
  }

  function FirstValues(list: seq<(string, Json)>): map<string, Json> {
    if list == [] then map[] else FirstValues(list[1..])[list[0].0 := list[0].1]
  }

  lemma {:induction false} FirstWins(list: seq<(string, Json)>, key: string, i: nat)
    ensures key in FirstValues(list) <==> exists j :: 0 <= j < |list| && list[j].0 == key
    ensures IsFirst(list, key, i) ==> key in FirstValues(list) && FirstValues(list)[key] == list[i].1
  {
    if list != [] {
      var later := list[1..];
      assert forall j :: 1 <= j < |list| ==> list[j] == later[j - 1];
      assert forall j :: 0 <= j < |later| ==> later[j] == list[j + 1];
      if list[0].0 != key {
        FirstWins(later, key, if i > 0 then i - 1 else 0);
      }
    }
  }

  lemma {:induction false} MeaningOfList(floats: Floats, ms: Members)
    requires DerivesMembers(floats, ms)
    ensures MembersMeaning(floats, ms) == FirstValues(MemberList(floats, ms))
  {
    assert DerivesMember(floats, ms.member);
    if ms.MoreMembers? {
      MeaningOfList(floats, ms.rest);
      assert MemberList(floats, ms)[1..] == MemberList(floats, ms.rest);
    } else {
      assert MemberList(floats, ms)[1..] == [];
    }
  }

  function ElementsMeaning(floats: Floats, es: Elements): seq<Json>
    requires DerivesElements(floats, es)
  {
    [Meaning(floats, es.value)] + if es.MoreElements? then ElementsMeaning(floats, es.rest) else []
  }

  function UnitsMeaning(units: seq<Unit>): string
    requires AllUnits(units)
  {
    if units == [] then "" else UnitMeaning(units[0]) + UnitsMeaning(units[1..])
  }

  function UnitMeaning(u: Unit): string
    requires IsUnit(u)
  {
    match u
    case Raw(c) => [c]
    case Escaped(c) => [SimpleEscape(c).value]
    case Unicode(hex) => Utf8(Hex4(hex))
  }

  // ---------- whole documents ----------

  /** `ws value ws`. */
  datatype Document = Document(before: string, tree: Tree, after: string)

  predicate IsDocument(floats: Floats, d: Document) {
    AllBlank(d.before) && Derivation(floats, d.tree) && AllBlank(d.after)
  }

  function SpellDocument(d: Document): string { d.before + Spell(d.tree, d.after) }
}
