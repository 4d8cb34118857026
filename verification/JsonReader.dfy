/** The JSON reader as functions on the input that is still unread.

    These are the specification of the class `SimpleJsonParser`; `JsonRecognition` proves that they
    recognise exactly the language of the parse trees of `JsonGrammar`. */
module JsonReader {
  import opened JsonValue

  datatype Parsed<+T> = Fail(error: string) | Done(value: T, rest: string)

  function Read(floats: Floats, s: string): Parsed<Json> {
    match ReadValue(floats, SkipBlanks(s))
    case Fail(e) => Fail(e)
    case Done(v, rest) =>
      if SkipBlanks(rest) == "" then Done(v, "") else Fail("Trailing data in JSON payload")
  }

  function ReadValue(floats: Floats, s: string): (r: Parsed<Json>)
    ensures r.Done? ==> |r.rest| < |s|
    decreases |s|, 3
  {
    if s == "" then Fail("Unexpected end of JSON input")
    else if s[0] == '{' then ReadObject(floats, s)
    else if s[0] == '[' then ReadArray(floats, s)
    else if s[0] == '"' then
      match ReadString(s)
      case Fail(e) => Fail(e)
      case Done(t, rest) => Done(Text(t), rest)
    else if s[0] == '-' || IsDigit(s[0]) then ReadNumber(floats, s)
    else ReadLiteral(s)
  }

  // ---------- objects and arrays ----------

  function ReadObject(floats: Floats, s: string): (r: Parsed<Json>)
    ensures r.Done? ==> |r.rest| < |s|
    decreases |s|, 2
  {
    if !Starts(s, '{') then Fail("Expected '{'")
    else
      var inside := SkipBlanks(s[1..]);
      if Starts(inside, '}') then Done(Object(map[]), inside[1..])
      else ReadMembers(floats, inside, map[])
  }

  /** The loop of `ParseObject`: one member, then either the end or a comma and another round. */
  function ReadMembers(floats: Floats, s: string, seen: map<string, Json>): (r: Parsed<Json>)
    ensures r.Done? ==> |r.rest| < |s|
    decreases |s|, 1
  {
    match ReadMember(floats, s)
    case Fail(e) => Fail(e)
    case Done((key, value), rest) =>
      var seen' := Emplace(seen, key, value);
      var next := SkipBlanks(rest);
      if Starts(next, '}') then Done(Object(seen'), next[1..])
      else if Starts(next, ',') then ReadMembers(floats, SkipBlanks(next[1..]), seen')
      else Fail("Expected ',' between object entries")
  }

  function ReadMember(floats: Floats, s: string): (r: Parsed<(string, Json)>)
    ensures r.Done? ==> |r.rest| < |s|
    decreases |s|, 0
  {
    match ReadString(s)
    case Fail(e) => Fail(e)
    case Done(key, rest) =>
      var colon := SkipBlanks(rest);
      if !Starts(colon, ':') then Fail("Expected ':' after object key")
      else
        match ReadValue(floats, SkipBlanks(colon[1..]))
        case Fail(e) => Fail(e)
        case Done(value, rest') => Done((key, value), rest')
  }

  /** `std::map::emplace`: an existing key keeps its value. */
  function Emplace(m: map<string, Json>, key: string, value: Json): map<string, Json> {
    if key in m then m else m[key := value]
  }

  function ReadArray(floats: Floats, s: string): (r: Parsed<Json>)
    ensures r.Done? ==> |r.rest| < |s|
    decreases |s|, 2
  {
    if !Starts(s, '[') then Fail("Expected '['")
    else
      var inside := SkipBlanks(s[1..]);
      if Starts(inside, ']') then Done(Array([]), inside[1..])
      else ReadElements(floats, inside, [])
  }

  function ReadElements(floats: Floats, s: string, seen: seq<Json>): (r: Parsed<Json>)
    ensures r.Done? ==> |r.rest| < |s|
    decreases |s|, 4
  {
    match ReadValue(floats, s)
    case Fail(e) => Fail(e)
    case Done(value, rest) =>
      var next := SkipBlanks(rest);
      if Starts(next, ']') then Done(Array(seen + [value]), next[1..])
      else if Starts(next, ',') then ReadElements(floats, SkipBlanks(next[1..]), seen + [value])
      else Fail("Expected ',' between array entries")
  }

  // ---------- strings ----------

  function ReadString(s: string): (r: Parsed<string>)
    ensures r.Done? ==> |r.rest| < |s|
  {
    if !Starts(s, '"') then Fail("Expected string") else ReadChars(s[1..])
  }

  /** Everything up to the closing quote. */
  function ReadChars(s: string): (r: Parsed<string>)
    ensures r.Done? ==> |r.rest| < |s|
  {
    if s == "" then Fail("Unterminated string")
    else if s[0] == '"' then Done("", s[1..])
    else
      match ReadUnit(s)
      case Fail(e) => Fail(e)
      case Done(t, rest) => Prepend(t, ReadChars(rest))
  }

  function Prepend(t: string, r: Parsed<string>): Parsed<string> {
    match r case Fail(e) => Fail(e) case Done(u, rest) => Done(t + u, rest)
  }

  /** One character or escape sequence inside a string, and the bytes it stands for. */
  function ReadUnit(s: string): (r: Parsed<string>)
    requires s != ""
    ensures r.Done? ==> |r.rest| < |s|
  {
    if s[0] != '\\' then Done([s[0]], s[1..])
    else if |s| == 1 then Fail("Invalid escape sequence")
    else if s[1] == 'u' then
      match ReadHex4(s[2..])
      case Fail(e) => Fail(e)
      case Done(cp, rest) => Done(Utf8(cp), rest)
    else
      match SimpleEscape(s[1])
      case None => Fail("Unknown escape sequence")
      case Some(c) => Done([c], s[2..])
  }

  function ReadHex4(s: string): (r: Parsed<nat>)
    ensures r.Done? ==> r.value < 0x1_0000 && |r.rest| < |s|
  {
    if |s| < 4 || !(forall i :: 0 <= i < 4 ==> IsHexDigit(s[i])) then Fail("Invalid unicode escape")
    else Done(Hex4(s), s[4..])
  }

  function Hex4(s: string): (v: nat)
    requires |s| >= 4 && forall i :: 0 <= i < 4 ==> IsHexDigit(s[i])
    ensures v < 0x1_0000
  {
    HexValue(s[0]) * 4096 + HexValue(s[1]) * 256 + HexValue(s[2]) * 16 + HexValue(s[3])
  }

  /** `hex` is `code` in four hexadecimal digits, in either case. */
  predicate Spells(hex: string, code: nat) {
    |hex| == 4 && code < 0x1_0000 &&
    IsDigitOf(hex[0], code / 0x1000) && IsDigitOf(hex[1], code / 0x100 % 16) &&
    IsDigitOf(hex[2], code / 0x10 % 16) && IsDigitOf(hex[3], code % 16)
  }

  predicate IsDigitOf(c: char, d: nat) { d < 16 && (c == LOWER_HEX[d] || c == UPPER_HEX[d]) }

  /** A code is read if and only if it is what the next four characters spell. */
  lemma Hex4Exactly(hex: string, rest: string, code: nat)
    requires |hex| == 4
    ensures ReadHex4(hex + rest) == Done(code, rest) <==> Spells(hex, code)
  {
    var s := hex + rest;
    assert s[4..] == rest && forall i :: 0 <= i < 4 ==> s[i] == hex[i];
    if code < 0x1_0000 {
      var d3, d2, d1, d0 := code / 0x1000, code / 0x100 % 16, code / 0x10 % 16, code % 16;
      FourDigits(code);
      HexDigitExactly(s[0], d3);
      HexDigitExactly(s[1], d2);
      HexDigitExactly(s[2], d1);
      HexDigitExactly(s[3], d0);
    }
  }

  lemma FourDigits(code: nat)
    requires code < 0x1_0000
    ensures code / 0x1000 < 16
    ensures code == code / 0x1000 * 4096 + code / 0x100 % 16 * 256 + code / 0x10 % 16 * 16 + code % 16
  {
    assert code / 0x100 == code / 0x1000 * 16 + code / 0x100 % 16;
    assert code / 0x10 == code / 0x100 * 16 + code / 0x10 % 16;
  }

  // ---------- numbers and literals ----------

  function ReadNumber(floats: Floats, s: string): (r: Parsed<Json>)
    requires s != ""
    ensures r.Done? ==> |r.rest| < |s|
  {
    match ScanNumber(s)
    case Fail(e) => Fail(e)
    case Done(literal, rest) =>
      match Stod(floats, literal)
      case None => Fail("Invalid number")
      case Some(x) => Done(Number(x), rest)
  }

  /** The longest number literal at the front. */
  function ScanNumber(s: string): (r: Parsed<string>)
    ensures r.Done? ==> |r.rest| < |s|
  {
    if Starts(s, '-') then Prepend("-", ScanUnsigned(s[1..])) else ScanUnsigned(s)
  }

  function ScanUnsigned(s: string): (r: Parsed<string>)
    ensures r.Done? ==> |r.rest| < |s|
  {
    if s == "" then Fail("Unexpected end in number")
    else if !IsDigit(s[0]) then Fail("Invalid number")
    else
      var whole := if s[0] == '0' then "0" else TakeDigits(s);
      Prepend(whole, ScanFractionExponent(s[|whole|..]))
  }

  function ScanFractionExponent(s: string): (r: Parsed<string>)
    ensures r.Done? ==> |r.rest| <= |s|
  {
    match ScanFraction(s)
    case Fail(e) => Fail(e)
    case Done(fraction, rest) => Prepend(fraction, ScanExponent(rest))
  }

  function ScanFraction(s: string): (r: Parsed<string>)
    ensures r.Done? ==> |r.rest| <= |s|
  {
    if !Starts(s, '.') then Done("", s)
    else
      var digits := TakeDigits(s[1..]);
      if digits == "" then Fail("Invalid fractional part") else Done("." + digits, s[1 + |digits|..])
  }

  function ScanExponent(s: string): (r: Parsed<string>)
    ensures r.Done? ==> |r.rest| <= |s|
  {
    if !Starts(s, 'e') && !Starts(s, 'E') then Done("", s)
    else
      var mark := if Starts(s[1..], '+') || Starts(s[1..], '-') then s[..2] else s[..1];
      var digits := TakeDigits(s[|mark|..]);
      if digits == "" then Fail("Invalid exponent") else Done(mark + digits, s[|mark| + |digits|..])
  }

  /** The longest run of digits at the front. */
  function TakeDigits(s: string): (r: string)
    ensures |r| <= |s|
  {
    if s != "" && IsDigit(s[0]) then [s[0]] + TakeDigits(s[1..]) else ""
  }

  // A scan returns the text it moved past.

  lemma {:induction false} DigitsSound(s: string)
    ensures AllDigits(TakeDigits(s)) && s == TakeDigits(s) + s[|TakeDigits(s)|..]
  {
    if s != "" && IsDigit(s[0]) {
      DigitsSound(s[1..]);
      assert s == [s[0]] + s[1..];
      assert s[|TakeDigits(s)|..] == s[1..][|TakeDigits(s[1..])|..];
    }
  }

  lemma FractionJoins(s: string)
    requires ScanFraction(s).Done?
    ensures s == ScanFraction(s).value + ScanFraction(s).rest
  {
    if Starts(s, '.') {
      DigitsSound(s[1..]);
      assert s == "." + s[1..];
    }
  }

  lemma ExponentJoins(s: string)
    requires ScanExponent(s).Done?
    ensures s == ScanExponent(s).value + ScanExponent(s).rest
  {
    if Starts(s, 'e') || Starts(s, 'E') {
      var mark := if Starts(s[1..], '+') || Starts(s[1..], '-') then s[..2] else s[..1];
      DigitsSound(s[|mark|..]);
      assert s == mark + s[|mark|..];
    }
  }

  lemma PrependJoins(t: string, r: Parsed<string>)
    requires r.Done?
    ensures t + (r.value + r.rest) == Prepend(t, r).value + r.rest
  {
  }

  lemma FractionExponentJoins(s: string)
    requires ScanFractionExponent(s).Done?
    ensures s == ScanFractionExponent(s).value + ScanFractionExponent(s).rest
  {
    FractionJoins(s);
    var Done(fraction, rest) := ScanFraction(s);
    ExponentJoins(rest);
    PrependJoins(fraction, ScanExponent(rest));
  }

  lemma UnsignedJoins(s: string)
    requires ScanUnsigned(s).Done?
    ensures s == ScanUnsigned(s).value + ScanUnsigned(s).rest
  {
    DigitsSound(s);
    var whole := if s[0] == '0' then "0" else TakeDigits(s);
    var tail := s[|whole|..];
    assert s == whole + tail;
    FractionExponentJoins(tail);
    PrependJoins(whole, ScanFractionExponent(tail));
  }

  lemma NumberJoins(s: string)
    requires ScanNumber(s).Done?
    ensures s == ScanNumber(s).value + ScanNumber(s).rest
  {
    if Starts(s, '-') {
      UnsignedJoins(s[1..]);
      assert s == "-" + s[1..];
      PrependJoins("-", ScanUnsigned(s[1..]));
    } else {
      UnsignedJoins(s);
    }
  }

  function ReadLiteral(s: string): (r: Parsed<Json>)
    ensures r.Done? ==> |r.rest| < |s|
  {
    if "true" <= s then Done(Boolean(true), s[4..])
    else if "false" <= s then Done(Boolean(false), s[5..])
    else if "null" <= s then Done(Null, s[4..])
    else Fail("Invalid literal")
  }

  function SkipBlanks(s: string): (r: string)
    ensures |r| <= |s|
  {
    if s != "" && IsBlankChar(s[0]) then SkipBlanks(s[1..]) else s
  }

  predicate Starts(s: string, c: char) { s != "" && s[0] == c }

  // ---------- what is reported ----------

  /** What is wrong with a string or a number is reported as it is, wherever the text begins with it. */
  lemma ErrorsAreReported(floats: Floats, s: string)
    requires s != "" && !IsBlankChar(s[0])
    ensures ReadValue(floats, s).Fail? ==> Read(floats, s) == Fail(ReadValue(floats, s).error)
    ensures s[0] == '"' && ReadString(s).Fail? ==> Read(floats, s) == Fail(ReadString(s).error)
    ensures (s[0] == '-' || IsDigit(s[0])) && ScanNumber(s).Fail? ==> Read(floats, s) == Fail(ScanNumber(s).error)
  {
    assert SkipBlanks(s) == s;
  }

  lemma StringErrors()
    ensures ReadString("x") == Fail("Expected string")
    ensures ReadString("\"x") == Fail("Unterminated string")
    ensures ReadString("\"\\") == Fail("Invalid escape sequence")
    ensures ReadString("\"\\x\"") == Fail("Unknown escape sequence")
  {
    assert ReadChars("x") == Fail("Unterminated string");
    assert ReadChars("\\") == Fail("Invalid escape sequence");
    assert ReadChars("\\x\"") == Fail("Unknown escape sequence");
  }

  lemma UnicodeErrors(s: string)
    requires ReadHex4(s).Fail?
    ensures ReadString("\"\\u" + s) == Fail("Invalid unicode escape")
  {
    var t := "\"\\u" + s;
    assert t[1..] == "\\u" + s && t[1..][2..] == s;
  }

  lemma NumberErrors()
    ensures ScanNumber("-") == Fail("Unexpected end in number")
    ensures ScanNumber("-x") == Fail("Invalid number")
    ensures ScanNumber("1.x") == Fail("Invalid fractional part")
    ensures ScanNumber("1ex") == Fail("Invalid exponent")
  {
    assert TakeDigits("1.x") == "1" && TakeDigits("1ex") == "1";
    assert ScanFraction(".x") == Fail("Invalid fractional part");
    assert ScanExponent("ex") == Fail("Invalid exponent");
  }

  /** A literal that does not convert is an invalid number. */
  lemma ConversionErrors(floats: Floats, s: string)
    requires s != "" && ScanNumber(s).Done? && Stod(floats, ScanNumber(s).value).None?
    ensures ReadNumber(floats, s) == Fail("Invalid number")
  {
  }

  /** Between the parts of a document. */
  lemma StructureErrors(floats: Floats)
    ensures Read(floats, "") == Fail("Unexpected end of JSON input")
    ensures Read(floats, "null,") == Fail("Trailing data in JSON payload")
    ensures Read(floats, "nil") == Fail("Invalid literal")
    ensures ReadMember(floats, "\"\",") == Fail("Expected ':' after object key")
  {
    assert ReadString("\"\",") == Done("", ",");
  }

  lemma SeparatorErrors(floats: Floats, s: string, rest: string)
    requires !Starts(SkipBlanks(rest), ',')
    ensures ReadMember(floats, s).Done? && ReadMember(floats, s).rest == rest && !Starts(SkipBlanks(rest), '}') ==>
      ReadMembers(floats, s, map[]) == Fail("Expected ',' between object entries")
    ensures ReadValue(floats, s).Done? && ReadValue(floats, s).rest == rest && !Starts(SkipBlanks(rest), ']') ==>
      ReadElements(floats, s, []) == Fail("Expected ',' between array entries")
  {
  }
}
