/** Parse trees without layout: the form in which every value is signed. */
module JsonPlain {
  import opened JsonValue
  import opened JsonGrammar
  import opened KeyOrder

  /** No blanks, members in ascending byte order of their keys, integers without fraction, exponent or minus zero,
      and escapes only where they are needed. */
  ghost predicate Plain(floats: Floats, t: Tree)
    requires Derivation(floats, t)
  {
    match t
    case NullTree => true
    case BooleanTree(_) => true
    case NumberTree(literal) => PlainLiteral(literal)
    case TextTree(units) => PlainUnits(units)
    case EmptyObject(blank) => blank == ""
    case ObjectTree(blank, members) =>
      blank == "" && PlainMembers(floats, members) && InByteOrder(WrittenKeys(floats, members))
    case EmptyArray(blank) => blank == ""
    case ArrayTree(blank, elements) => blank == "" && PlainElements(floats, elements)
  }

  ghost predicate PlainMember(floats: Floats, m: Member)
    requires DerivesMember(floats, m)
  {
    PlainUnits(m.key) && m.beforeColon == "" && m.afterColon == "" && Plain(floats, m.value) && m.after == ""
  }

  ghost predicate PlainMembers(floats: Floats, ms: Members)
    requires DerivesMembers(floats, ms)
  {
    DerivesMember(floats, ms.member) && PlainMember(floats, ms.member) &&
    (ms.MoreMembers? ==> ms.blank == "" && PlainMembers(floats, ms.rest))
  }

  ghost predicate PlainElements(floats: Floats, es: Elements)
    requires DerivesElements(floats, es)
  {
    Plain(floats, es.value) && es.after == "" &&
    (es.MoreElements? ==> es.blank == "" && PlainElements(floats, es.rest))
  }

  predicate PlainLiteral(n: Literal) { n.fraction.None? && n.exponent.None? && (n.minus ==> n.whole != "0") }

  ghost predicate PlainUnits(units: seq<Unit>) { forall i :: 0 <= i < |units| ==> PlainUnit(units[i]) }

  /** A slash is not escaped; a control character is written in hexadecimal only if it has no letter. */
  ghost predicate PlainUnit(u: Unit) {
    match u
    case Raw(c) => c as int >= 0x20
    case Escaped(c) => c != '/'
    case Unicode(hex) =>
      exists code: nat :: code < 0x20 && code !in [0x08, 0x09, 0x0A, 0x0C, 0x0D] && IsUpperHex(hex, code)
  }

  predicate IsUpperHex(hex: string, code: nat) {
    code < 0x100 && hex == "00" + [UPPER_HEX[code / 16], UPPER_HEX[code % 16]]
  }

  /** The keys of an object as they are written, one after another. */
  function WrittenKeys(floats: Floats, ms: Members): seq<string>
    requires DerivesMembers(floats, ms)
  {
    assert DerivesMember(floats, ms.member);
    [UnitsMeaning(ms.member.key)] + if ms.MoreMembers? then WrittenKeys(floats, ms.rest) else []
  }
}
