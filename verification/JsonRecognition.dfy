/** The reader recognises exactly the grammar: it accepts a text if and only if the text has a parse tree,
    and then returns the one value that every parse tree of the text denotes. */
module JsonRecognition {
  import opened Sequences
  import opened Wrappers
  import opened JsonValue
  import opened JsonReader
  import opened JsonGrammar

  // ---------- completeness: the spelling of a tree is read back as its meaning ----------

  /** What can follow a value: a number literal ends before any of these. */
  predicate Stops(rest: string) { rest == "" || IsBlankChar(rest[0]) || IsStop(rest[0]) }

  predicate IsStop(c: char) { c == ',' || c == ']' || c == '}' }

  lemma {:induction false} SkipBlanksPast(blank: string, rest: string)
    requires AllBlank(blank) && (rest == "" || !IsBlankChar(rest[0]))
    ensures SkipBlanks(blank + rest) == rest
  {
    if blank == "" {
      assert blank + rest == rest;
    } else {
      assert (blank + rest)[1..] == blank[1..] + rest;
      SkipBlanksPast(blank[1..], rest);
    }
  }

  lemma {:induction false} TakeDigitsPast(digits: string, rest: string)
    requires AllDigits(digits) && (rest == "" || !IsDigit(rest[0]))
    ensures TakeDigits(digits + rest) == digits
  {
    if digits == "" {
      assert digits + rest == rest;
    } else {
      assert (digits + rest)[1..] == digits[1..] + rest;
      TakeDigitsPast(digits[1..], rest);
    }
  }

  lemma FractionComplete(fraction: Option<string>, rest: string)
    requires fraction.Some? ==> IsDigits(fraction.value)
    requires rest == "" || (!IsDigit(rest[0]) && rest[0] != '.')
    ensures ScanFraction(SpellFraction(fraction, rest)) == Done(SpellFraction(fraction, ""), rest)
  {
    if fraction.Some? {
      assert fraction.value + "" == fraction.value;
      MarkedDigits(".", fraction.value, rest);
    }
  }

  lemma ExponentComplete(exponent: Option<Exponent>, rest: string)
    requires exponent.Some? ==> IsExponent(exponent.value)
    requires Stops(rest)
    ensures ScanExponent(SpellExponent(exponent, rest)) == Done(SpellExponent(exponent, ""), rest)
  {
    if exponent.Some? {
      var Exponent(mark, digits) := exponent.value;
      assert digits + "" == digits;
      MarkedDigits(mark, digits, rest);
      MarkFound(mark, digits + rest);
    }
  }

  lemma MarkFound(mark: string, tail: string)
    requires IsMark(mark) && tail != "" && IsDigit(tail[0])
    ensures var s := mark + tail;
      (Starts(s, 'e') || Starts(s, 'E')) &&
      mark == if Starts(s[1..], '+') || Starts(s[1..], '-') then s[..2] else s[..1]
  {
    var s := mark + tail;
    assert s[0] == mark[0];
    assert s[..|mark|] == mark;
    assert s[1] == if |mark| == 2 then mark[1] else tail[0];
    assert s[1..][0] == s[1];
  }

  /** The digits after a mark, cut where the scanner cuts them. */
  lemma MarkedDigits(mark: string, digits: string, rest: string)
    requires AllDigits(digits) && (rest == "" || !IsDigit(rest[0]))
    ensures var s := mark + (digits + rest);
      s[..|mark|] == mark && TakeDigits(s[|mark|..]) == digits && s[|mark| + |digits|..] == rest
  {
    var s := mark + (digits + rest);
    assert s[|mark|..] == digits + rest;
    TakeDigitsPast(digits, rest);
  }

  lemma UnsignedComplete(n: Literal, rest: string)
    requires IsLiteral(n) && !n.minus && Stops(rest)
    ensures ScanUnsigned(SpellLiteral(n, rest)) == Done(SpellLiteral(n, ""), rest)
  {
    var afterFraction := SpellExponent(n.exponent, rest);
    var afterWhole := SpellFraction(n.fraction, afterFraction);
    ExponentComplete(n.exponent, rest);
    FractionComplete(n.fraction, afterFraction);
    TakeDigitsPast(n.whole, afterWhole);
    assert (n.whole + afterWhole)[|n.whole|..] == afterWhole;
    FractionAppend(n.fraction, SpellExponent(n.exponent, ""));
  }

  lemma FractionAppend(fraction: Option<string>, rest: string)
    ensures SpellFraction(fraction, "") + rest == SpellFraction(fraction, rest)
  {
    if fraction.Some? {
      assert ("." + (fraction.value + "")) + rest == "." + (fraction.value + rest);
    }
  }

  lemma LiteralComplete(n: Literal, rest: string)
    requires IsLiteral(n) && Stops(rest)
    ensures ScanNumber(SpellLiteral(n, rest)) == Done(SpellLiteral(n, ""), rest)
  {
    var unsigned := n.(minus := false);
    UnsignedComplete(unsigned, rest);
    if n.minus {
      assert SpellLiteral(n, rest)[1..] == SpellLiteral(unsigned, rest);
    }
  }

  lemma {:induction false} UnitsComplete(units: seq<Unit>, rest: string)
    requires AllUnits(units)
    ensures ReadChars(SpellUnits(units, rest)) == Done(UnitsMeaning(units), rest)
  {
    if units != [] {
      UnitComplete(units[0], SpellUnits(units[1..], rest));
      UnitsComplete(units[1..], rest);
    }
  }

  lemma UnitComplete(u: Unit, rest: string)
    requires IsUnit(u)
    ensures var s := SpellUnit(u, rest); s != "" && s[0] != '"' && ReadUnit(s) == Done(UnitMeaning(u), rest)
  {
    var s := SpellUnit(u, rest);
    if u.Unicode? {
      assert s[2..] == u.hex + rest;
      assert (u.hex + rest)[4..] == rest;
    } else {
      assert s[|s| - |rest|..] == rest;
    }
  }

  lemma TextComplete(units: seq<Unit>, rest: string)
    requires AllUnits(units)
    ensures ReadString(SpellText(units, rest)) == Done(UnitsMeaning(units), rest)
    ensures Starts(SpellText(units, rest), '"')
  {
    assert SpellText(units, rest)[1..] == SpellUnits(units, rest);
    UnitsComplete(units, rest);
  }

  lemma SpellStart(floats: Floats, t: Tree, rest: string)
    requires Derivation(floats, t)
    ensures var s := Spell(t, rest); s != "" && !IsBlankChar(s[0]) && !IsStop(s[0]) && s[0] != ':'
  {
  }

  /** A closing or separating mark after optional layout. */
  lemma MarkComplete(blank: string, mark: char, rest: string)
    requires AllBlank(blank) && (IsStop(mark) || mark == ':')
    ensures var s := blank + ([mark] + rest);
      SkipBlanks(s) == [mark] + rest && ([mark] + rest)[1..] == rest && (mark != ':' ==> Stops(s))
  {
    SkipBlanksPast(blank, [mark] + rest);
  }

  lemma WordComplete(rest: string)
    ensures ReadLiteral("null" + rest) == Done(Null, rest)
    ensures ReadLiteral("true" + rest) == Done(Boolean(true), rest)
    ensures ReadLiteral("false" + rest) == Done(Boolean(false), rest)
  {
    assert ("null" + rest)[0] == 'n' && ("true" + rest)[0] == 't' && ("false" + rest)[0] == 'f';
    assert ("null" + rest)[4..] == rest && ("true" + rest)[4..] == rest && ("false" + rest)[5..] == rest;
  }

  lemma EmptyComplete(floats: Floats, blank: string, rest: string)
    requires AllBlank(blank)
    ensures ReadObject(floats, Spell(EmptyObject(blank), rest)) == Done(Object(map[]), rest)
    ensures ReadArray(floats, Spell(EmptyArray(blank), rest)) == Done(Array([]), rest)
  {
    assert Spell(EmptyObject(blank), rest)[1..] == blank + ("}" + rest);
    MarkComplete(blank, '}', rest);
    assert Spell(EmptyArray(blank), rest)[1..] == blank + ("]" + rest);
    MarkComplete(blank, ']', rest);
  }

  lemma NumberComplete(floats: Floats, n: Literal, rest: string)
    requires Derivation(floats, NumberTree(n)) && Stops(rest)
    ensures var s := SpellLiteral(n, rest);
      s != "" && (s[0] == '-' || IsDigit(s[0])) &&
      ReadNumber(floats, s) == Done(Meaning(floats, NumberTree(n)), rest)
  {
    LiteralComplete(n, rest);
  }

  lemma NumberValue(floats: Floats, n: Literal, rest: string)
    requires Derivation(floats, NumberTree(n)) && Stops(rest)
    ensures ReadValue(floats, SpellLiteral(n, rest)) == Done(Meaning(floats, NumberTree(n)), rest)
  {
    NumberComplete(floats, n, rest);
    StartsNumber(floats, SpellLiteral(n, rest));
  }

  lemma StartsNumber(floats: Floats, s: string)
    requires s != "" && (s[0] == '-' || IsDigit(s[0]))
    ensures ReadValue(floats, s) == ReadNumber(floats, s)
  {
  }

  lemma {:induction false} ValueComplete(floats: Floats, t: Tree, rest: string)
    requires Derivation(floats, t) && Stops(rest)
    ensures ReadValue(floats, Spell(t, rest)) == Done(Meaning(floats, t), rest)
    decreases t
  {
    match t
    case NullTree => WordComplete(rest);
    case BooleanTree(_) => WordComplete(rest);
    case NumberTree(literal) => NumberValue(floats, literal, rest);
    case TextTree(units) => TextComplete(units, rest);
    case EmptyObject(blank) => EmptyComplete(floats, blank, rest);
    case EmptyArray(blank) => EmptyComplete(floats, blank, rest);
    case ObjectTree(blank, members) => ObjectComplete(floats, blank, members, rest);
    case ArrayTree(blank, elements) => ArrayComplete(floats, blank, elements, rest);
  }

  lemma {:induction false} ObjectComplete(floats: Floats, blank: string, members: Members, rest: string)
    requires AllBlank(blank) && DerivesMembers(floats, members)
    ensures ReadObject(floats, Spell(ObjectTree(blank, members), rest))
         == Done(Object(MembersMeaning(floats, members)), rest)
    decreases members, 1
  {
    hide ReadMembers, SpellMembers, DerivesMembers, MembersMeaning;
    var inside := SpellMembers(members, rest);
    assert ("{" + (blank + inside))[1..] == blank + inside;
    MembersComplete(floats, members, rest, map[]);
    SkipBlanksPast(blank, inside);
    NothingSeen(MembersMeaning(floats, members));
  }

  lemma {:induction false} ArrayComplete(floats: Floats, blank: string, elements: Elements, rest: string)
    requires AllBlank(blank) && DerivesElements(floats, elements)
    ensures ReadArray(floats, Spell(ArrayTree(blank, elements), rest))
         == Done(Array(ElementsMeaning(floats, elements)), rest)
    decreases elements, 1
  {
    var inside := SpellElements(elements, rest);
    assert ("[" + (blank + inside))[1..] == blank + inside;
    ElementsStart(floats, elements, rest);
    SkipBlanksPast(blank, inside);
    ElementsComplete(floats, elements, rest, []);
    assert [] + ElementsMeaning(floats, elements) == ElementsMeaning(floats, elements);
  }

  lemma ElementsStart(floats: Floats, es: Elements, rest: string)
    requires DerivesElements(floats, es)
    ensures var s := SpellElements(es, rest); s != "" && !IsBlankChar(s[0]) && s[0] != ']'
  {
    match es
    case LastElement(value, after) => SpellStart(floats, value, after + ("]" + rest));
    case MoreElements(value, after, blank, more) =>
      SpellStart(floats, value, after + ("," + (blank + SpellElements(more, rest))));
  }

  lemma {:induction false} MemberComplete(floats: Floats, m: Member, rest: string)
    requires DerivesMember(floats, m) && Stops(m.after + rest)
    ensures ReadMember(floats, SpellMember(m, rest))
         == Done((UnitsMeaning(m.key), Meaning(floats, m.value)), m.after + rest)
    decreases m, 0
  {
    var value := Spell(m.value, m.after + rest);
    TextComplete(m.key, m.beforeColon + (":" + (m.afterColon + value)));
    MarkComplete(m.beforeColon, ':', m.afterColon + value);
    SpellStart(floats, m.value, m.after + rest);
    SkipBlanksPast(m.afterColon, value);
    ValueComplete(floats, m.value, m.after + rest);
  }

  lemma {:induction false} MembersComplete(floats: Floats, ms: Members, rest: string, seen: map<string, Json>)
    requires DerivesMembers(floats, ms)
    ensures ReadMembers(floats, SpellMembers(ms, rest), seen) == Done(Object(MembersMeaning(floats, ms) + seen), rest)
    ensures Starts(SpellMembers(ms, rest), '"')
    decreases ms, 0
  {
    var m := ms.member;
    assert DerivesMember(floats, m);
    match ms
    case LastMember(_) =>
      MarkComplete(m.after, '}', rest);
      MemberComplete(floats, m, "}" + rest);
      FirstKeyWins(map[], seen, UnitsMeaning(m.key), Meaning(floats, m.value));
    case MoreMembers(_, blank, more) =>
      var next := SpellMembers(more, rest);
      var seen' := Emplace(seen, UnitsMeaning(m.key), Meaning(floats, m.value));
      MarkComplete(m.after, ',', blank + next);
      MemberComplete(floats, m, "," + (blank + next));
      MembersComplete(floats, more, rest, seen');
      SkipBlanksPast(blank, next);
      FirstKeyWins(MembersMeaning(floats, more), seen, UnitsMeaning(m.key), Meaning(floats, m.value));
  }

  /** Emplacing a member before the later ones, or letting it override them, comes to the same. */
  lemma FirstKeyWins(later: map<string, Json>, seen: map<string, Json>, key: string, value: Json)
    ensures later + Emplace(seen, key, value) == later[key := value] + seen
    ensures later == map[] ==> later + Emplace(seen, key, value) == Emplace(seen, key, value)
  {
  }

  lemma NothingSeen(m: map<string, Json>)
    ensures m + map[] == m
  {
  }

  lemma {:induction false} ElementsComplete(floats: Floats, es: Elements, rest: string, seen: seq<Json>)
    requires DerivesElements(floats, es)
    ensures ReadElements(floats, SpellElements(es, rest), seen) == Done(Array(seen + ElementsMeaning(floats, es)), rest)
    decreases es, 0
  {
    match es
    case LastElement(value, after) =>
      MarkComplete(after, ']', rest);
      ValueComplete(floats, value, after + ("]" + rest));
      assert ElementsMeaning(floats, es) == [Meaning(floats, value)];
    case MoreElements(value, after, blank, more) =>
      var next := SpellElements(more, rest);
      var seen' := seen + [Meaning(floats, value)];
      MarkComplete(after, ',', blank + next);
      ValueComplete(floats, value, after + ("," + (blank + next)));
      ElementsStart(floats, more, rest);
      SkipBlanksPast(blank, next);
      ElementsComplete(floats, more, rest, seen');
      Regroup(seen, [Meaning(floats, value)], ElementsMeaning(floats, more));
  }

  // ---------- soundness: what the reader accepts has a parse tree ----------

  lemma {:induction false} BlanksSound(s: string) returns (blank: string)
    ensures AllBlank(blank) && s == blank + SkipBlanks(s)
  {
    if s != "" && IsBlankChar(s[0]) {
      var more := BlanksSound(s[1..]);
      blank := [s[0]] + more;
      assert s == [s[0]] + s[1..];
    } else {
      blank := "";
    }
  }

  lemma FractionSound(s: string) returns (fraction: Option<string>)
    requires ScanFraction(s).Done?
    ensures fraction.Some? ==> IsDigits(fraction.value)
    ensures s == SpellFraction(fraction, ScanFraction(s).rest) && ScanFraction(s).value == SpellFraction(fraction, "")
  {
    if Starts(s, '.') {
      var digits := TakeDigits(s[1..]);
      DigitsSound(s[1..]);
      assert s == "." + s[1..] && s[1 + |digits|..] == s[1..][|digits|..];
      assert digits + "" == digits;
      fraction := Some(digits);
    } else {
      fraction := None;
    }
  }

  lemma ExponentSound(s: string) returns (exponent: Option<Exponent>)
    requires ScanExponent(s).Done?
    ensures exponent.Some? ==> IsExponent(exponent.value)
    ensures s == SpellExponent(exponent, ScanExponent(s).rest) && ScanExponent(s).value == SpellExponent(exponent, "")
  {
    if Starts(s, 'e') || Starts(s, 'E') {
      var mark := if Starts(s[1..], '+') || Starts(s[1..], '-') then s[..2] else s[..1];
      var tail := s[|mark|..];
      var digits := TakeDigits(tail);
      DigitsSound(tail);
      assert s == mark + tail && s[|mark| + |digits|..] == tail[|digits|..];
      assert digits + "" == digits;
      exponent := Some(Exponent(mark, digits));
    } else {
      exponent := None;
    }
  }

  lemma UnsignedSound(s: string) returns (n: Literal)
    requires ScanUnsigned(s).Done?
    ensures IsLiteral(n) && !n.minus
    ensures s == SpellLiteral(n, ScanUnsigned(s).rest) && ScanUnsigned(s).value == SpellLiteral(n, "")
  {
    var whole := if s[0] == '0' then "0" else TakeDigits(s);
    DigitsSound(s);
    assert s == whole + s[|whole|..];
    var afterWhole := s[|whole|..];
    var fraction := FractionSound(afterWhole);
    var exponent := ExponentSound(ScanFraction(afterWhole).rest);
    FractionAppend(fraction, SpellExponent(exponent, ""));
    n := Literal(false, whole, fraction, exponent);
  }

  lemma LiteralSound(s: string) returns (n: Literal)
    requires ScanNumber(s).Done?
    ensures IsLiteral(n)
    ensures s == SpellLiteral(n, ScanNumber(s).rest) && ScanNumber(s).value == SpellLiteral(n, "")
  {
    if Starts(s, '-') {
      var unsigned := UnsignedSound(s[1..]);
      assert s == "-" + s[1..];
      n := unsigned.(minus := true);
    } else {
      n := UnsignedSound(s);
    }
  }

  lemma UnitSound(s: string) returns (u: Unit)
    requires s != "" && s[0] != '"' && ReadUnit(s).Done?
    ensures IsUnit(u) && s == SpellUnit(u, ReadUnit(s).rest) && ReadUnit(s).value == UnitMeaning(u)
  {
    if s[0] != '\\' {
      u := Raw(s[0]);
      assert s == [s[0]] + s[1..];
    } else if s[1] == 'u' {
      var hex := s[2..][..4];
      u := Unicode(hex);
      assert s[2..] == hex + s[2..][4..];
      assert s == "\\u" + s[2..];
      assert forall i :: 0 <= i < 4 ==> hex[i] == s[2..][i];
    } else {
      u := Escaped(s[1]);
      assert s == ['\\', s[1]] + s[2..];
    }
  }

  lemma {:induction false} CharsSound(s: string) returns (units: seq<Unit>)
    requires ReadChars(s).Done?
    ensures AllUnits(units) && s == SpellUnits(units, ReadChars(s).rest) && ReadChars(s).value == UnitsMeaning(units)
    decreases |s|
  {
    if s[0] == '"' {
      units := [];
      assert s == "\"" + s[1..];
    } else {
      var u := UnitSound(s);
      var more := CharsSound(ReadUnit(s).rest);
      units := [u] + more;
      assert units[1..] == more;
    }
  }

  lemma TextSound(s: string) returns (units: seq<Unit>)
    requires ReadString(s).Done?
    ensures AllUnits(units) && s == SpellText(units, ReadString(s).rest) && ReadString(s).value == UnitsMeaning(units)
  {
    units := CharsSound(s[1..]);
    assert s == "\"" + s[1..];
  }

  lemma WordSound(s: string) returns (t: Tree)
    requires ReadLiteral(s).Done?
    ensures t.NullTree? || t.BooleanTree?
    ensures s == Spell(t, ReadLiteral(s).rest)
    ensures ReadLiteral(s).value == if t.NullTree? then Null else Boolean(t.flag)
  {
    var word := if "true" <= s then "true" else if "false" <= s then "false" else "null";
    assert s == word + s[|word|..];
    t := if "true" <= s then BooleanTree(true) else if "false" <= s then BooleanTree(false) else NullTree;
  }

  lemma {:induction false} ValueSound(floats: Floats, s: string) returns (t: Tree)
    requires ReadValue(floats, s).Done?
    ensures Derivation(floats, t) && s == Spell(t, ReadValue(floats, s).rest)
    ensures Meaning(floats, t) == ReadValue(floats, s).value
    decreases |s|, 2
  {
    if s[0] == '{' {
      t := ObjectSound(floats, s);
    } else if s[0] == '[' {
      t := ArraySound(floats, s);
    } else if s[0] == '"' {
      var units := TextSound(s);
      t := TextTree(units);
    } else if s[0] == '-' || IsDigit(s[0]) {
      var n := LiteralSound(s);
      t := NumberTree(n);
    } else {
      t := WordSound(s);
    }
  }

  /** Text that starts with the mark `c` once its layout is skipped. */
  lemma MarkSound(s: string, c: char) returns (blank: string)
    requires Starts(SkipBlanks(s), c)
    ensures AllBlank(blank) && s == blank + ([c] + SkipBlanks(s)[1..])
  {
    blank := BlanksSound(s);
    assert SkipBlanks(s) == [c] + SkipBlanks(s)[1..];
  }

  lemma {:induction false} ObjectSound(floats: Floats, s: string) returns (t: Tree)
    requires ReadObject(floats, s).Done?
    ensures Derivation(floats, t) && s == Spell(t, ReadObject(floats, s).rest)
    ensures Meaning(floats, t) == ReadObject(floats, s).value
    decreases |s|, 1
  {
    assert s == "{" + s[1..];
    var inside := SkipBlanks(s[1..]);
    if Starts(inside, '}') {
      var blank := MarkSound(s[1..], '}');
      t := EmptyObject(blank);
    } else {
      var blank := BlanksSound(s[1..]);
      var members := MembersSound(floats, inside, map[]);
      NothingSeen(MembersMeaning(floats, members));
      t := ObjectTree(blank, members);
    }
  }

  lemma {:induction false} MemberSound(floats: Floats, s: string) returns (m: Member)
    requires ReadMember(floats, s).Done?
    ensures m.after == "" && DerivesMember(floats, m)
    ensures s == SpellMember(m, ReadMember(floats, s).rest)
    ensures ReadMember(floats, s).value == (UnitsMeaning(m.key), Meaning(floats, m.value))
    decreases |s|, 0
  {
    var key := TextSound(s);
    var afterKey := ReadString(s).rest;
    var beforeColon := MarkSound(afterKey, ':');
    var afterMark := SkipBlanks(afterKey)[1..];
    var afterColon := BlanksSound(afterMark);
    var value := ValueSound(floats, SkipBlanks(afterMark));
    m := Member(key, beforeColon, afterColon, value, "");
    var rest := ReadMember(floats, s).rest;
    assert "" + rest == rest;
  }

  lemma {:induction false} MembersSound(floats: Floats, s: string, seen: map<string, Json>) returns (ms: Members)
    requires ReadMembers(floats, s, seen).Done?
    ensures DerivesMembers(floats, ms)
    ensures s == SpellMembers(ms, ReadMembers(floats, s, seen).rest)
    ensures ReadMembers(floats, s, seen).value == Object(MembersMeaning(floats, ms) + seen)
    decreases |s|, 1
  {
    var m0 := MemberSound(floats, s);
    var Done((key, value), rest) := ReadMember(floats, s);
    assert "" + rest == rest;
    var next := SkipBlanks(rest);
    if Starts(next, '}') {
      var after := MarkSound(rest, '}');
      var m := m0.(after := after);
      ms := LastMember(m);
      FirstKeyWins(map[], seen, key, value);
    } else {
      var after := MarkSound(rest, ',');
      var m := m0.(after := after);
      var blank := BlanksSound(next[1..]);
      var seen' := Emplace(seen, key, value);
      var more := MembersSound(floats, SkipBlanks(next[1..]), seen');
      ms := MoreMembers(m, blank, more);
      FirstKeyWins(MembersMeaning(floats, more), seen, key, value);
    }
  }

  lemma {:induction false} ArraySound(floats: Floats, s: string) returns (t: Tree)
    requires ReadArray(floats, s).Done?
    ensures Derivation(floats, t) && s == Spell(t, ReadArray(floats, s).rest)
    ensures Meaning(floats, t) == ReadArray(floats, s).value
    decreases |s|, 1
  {
    assert s == "[" + s[1..];
    var inside := SkipBlanks(s[1..]);
    if Starts(inside, ']') {
      var blank := MarkSound(s[1..], ']');
      t := EmptyArray(blank);
    } else {
      var blank := BlanksSound(s[1..]);
      var elements := ElementsSound(floats, inside, []);
      assert [] + ElementsMeaning(floats, elements) == ElementsMeaning(floats, elements);
      t := ArrayTree(blank, elements);
    }
  }

  lemma {:induction false} ElementsSound(floats: Floats, s: string, seen: seq<Json>) returns (es: Elements)
    requires ReadElements(floats, s, seen).Done?
    ensures DerivesElements(floats, es)
    ensures s == SpellElements(es, ReadElements(floats, s, seen).rest)
    ensures ReadElements(floats, s, seen).value == Array(seen + ElementsMeaning(floats, es))
    decreases |s|, 3
  {
    var t := ValueSound(floats, s);
    var Done(value, rest) := ReadValue(floats, s);
    var next := SkipBlanks(rest);
    if Starts(next, ']') {
      var after := MarkSound(rest, ']');
      es := LastElement(t, after);
      assert ElementsMeaning(floats, es) == [value] + [];
    } else {
      var after := MarkSound(rest, ',');
      var blank := BlanksSound(next[1..]);
      var more := ElementsSound(floats, SkipBlanks(next[1..]), seen + [value]);
      es := MoreElements(t, after, blank, more);
      Regroup(seen, [value], ElementsMeaning(floats, more));
    }
  }

  // ---------- the main results ----------

  /** The reader accepts a text with value `v` exactly when the text is a document whose tree means `v`. */
  lemma ReadsExactlyTheGrammar(floats: Floats, s: string, v: Json)
    ensures Read(floats, s) == Done(v, "") <==>
            exists d: Document :: IsDocument(floats, d) && SpellDocument(d) == s && Meaning(floats, d.tree) == v
  {
    if Read(floats, s) == Done(v, "") {
      var _ := DocumentSound(floats, s);
    }
    forall d: Document | IsDocument(floats, d) && SpellDocument(d) == s && Meaning(floats, d.tree) == v
      ensures Read(floats, s) == Done(v, "")
    {
      DocumentComplete(floats, d);
    }
  }

  lemma DocumentComplete(floats: Floats, d: Document)
    requires IsDocument(floats, d)
    ensures Read(floats, SpellDocument(d)) == Done(Meaning(floats, d.tree), "")
  {
    SpellStart(floats, d.tree, d.after);
    SkipBlanksPast(d.before, Spell(d.tree, d.after));
    ValueComplete(floats, d.tree, d.after);
    SkipBlanksPast(d.after, "");
    assert d.after + "" == d.after;
  }

  lemma DocumentSound(floats: Floats, s: string) returns (d: Document)
    requires Read(floats, s).Done?
    ensures IsDocument(floats, d) && SpellDocument(d) == s && Meaning(floats, d.tree) == Read(floats, s).value
    ensures Read(floats, s).rest == ""
  {
    var before := BlanksSound(s);
    var tree := ValueSound(floats, SkipBlanks(s));
    var rest := ReadValue(floats, SkipBlanks(s)).rest;
    var after := BlanksSound(rest);
    assert after + "" == after;
    d := Document(before, tree, after);
  }

  /** A text has at most one value, however it is derived. */
  lemma GrammarIsUnambiguous(floats: Floats, d1: Document, d2: Document)
    requires IsDocument(floats, d1) && IsDocument(floats, d2) && SpellDocument(d1) == SpellDocument(d2)
    ensures Meaning(floats, d1.tree) == Meaning(floats, d2.tree)
  {
    DocumentComplete(floats, d1);
    DocumentComplete(floats, d2);
  }
}
