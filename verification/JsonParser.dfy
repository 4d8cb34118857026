/** The recursive-descent parser that advances a position in its input, proved against `JsonReader`. */
module JsonParser {
  import opened JsonValue
  import opened JsonReader

  class SimpleJsonParser {
    const floats: Floats
    const input: string
    var pos: nat

    constructor (floats: Floats, input: string)
      ensures this.floats == floats && this.input == input && pos == 0
    {
      this.floats, this.input, this.pos := floats, input, 0;
    }

    ghost predicate Valid()
      reads this
    {
      pos <= |input|
    }

    /** The unread input. */
    ghost function Rest(): string
      requires Valid()
      reads this
    {
      input[pos..]
    }

    /** A call that returned `ok`, `value` and `error` did what the reader function `r` says. */
    ghost predicate Did<T>(r: Parsed<T>, ok: bool, value: T, error: string)
      reads this
    {
      Valid() &&
      match r
      case Fail(e) => !ok && error == e
      case Done(v, rest) => ok && value == v && Rest() == rest
    }

    method Parse() returns (ok: bool, value: Json, error: string)
      modifies this
      ensures Did(Read(floats, input), ok, value, error)
    {
      pos := 0;
      assert input[0..] == input;
      SkipWhitespace();
      ok, value, error := ParseValue();
      if ok {
        SkipWhitespace();
        if pos != |input| {
          ok, error := false, "Trailing data in JSON payload";
        }
      }
    }

    method ParseValue() returns (ok: bool, value: Json, error: string)
      requires Valid()
      modifies this
      ensures Did(ReadValue(floats, old(Rest())), ok, value, error)
      decreases |input| - pos, 2
    {
      value, error := Null, "";
      if pos >= |input| {
        return false, value, "Unexpected end of JSON input";
      }
      var ch := input[pos];
      assert ch == Rest()[0];
      if ch == '{' {
        ok, value, error := ParseObject();
      } else if ch == '[' {
        ok, value, error := ParseArray();
      } else if ch == '"' {
        var text;
        ok, text, error := ParseString();
        value := Text(text);
      } else if ch == '-' || IsDigit(ch) {
        ok, value, error := ParseNumber();
      } else {
        ok, value, error := ParseLiteral();
      }
    }

    method ParseObject() returns (ok: bool, value: Json, error: string)
      requires Valid()
      modifies this
      ensures Did(ReadObject(floats, old(Rest())), ok, value, error)
      decreases |input| - pos, 1
    {
      value, error := Null, "";
      ok := Match('{');
      if !ok {
        return false, value, "Expected '{'";
      }
      SkipWhitespace();
      ok := Match('}');
      if ok {
        return true, Object(map[]), error;
      }
      var members: map<string, Json> := map[];
      ghost var whole := ReadMembers(floats, Rest(), members);
      while true
        invariant Valid() && pos > old(pos)
        invariant ReadMembers(floats, Rest(), members) == whole
        decreases |input| - pos
      {
        var key, member;
        ok, key, error := ParseString();
        if !ok {
          return;
        }
        SkipWhitespace();
        ok := Match(':');
        if !ok {
          return false, value, "Expected ':' after object key";
        }
        SkipWhitespace();
        ok, member, error := ParseValue();
        if !ok {
          return;
        }
        members := Emplace(members, key, member);
        SkipWhitespace();
        ok := Match('}');
        if ok {
          return true, Object(members), error;
        }
        ok := Match(',');
        if !ok {
          return false, value, "Expected ',' between object entries";
        }
        SkipWhitespace();
      }
    }

    method ParseArray() returns (ok: bool, value: Json, error: string)
      requires Valid()
      modifies this
      ensures Did(ReadArray(floats, old(Rest())), ok, value, error)
      decreases |input| - pos, 1
    {
      value, error := Null, "";
      ok := Match('[');
      if !ok {
        return false, value, "Expected '['";
      }
      SkipWhitespace();
      ok := Match(']');
      if ok {
        return true, Array([]), error;
      }
      var items: seq<Json> := [];
      ghost var whole := ReadElements(floats, Rest(), items);
      while true
        invariant Valid() && pos > old(pos)
        invariant ReadElements(floats, Rest(), items) == whole
        decreases |input| - pos
      {
        var item;
        ok, item, error := ParseValue();
        if !ok {
          return;
        }
        items := items + [item];
        SkipWhitespace();
        ok := Match(']');
        if ok {
          return true, Array(items), error;
        }
        ok := Match(',');
        if !ok {
          return false, value, "Expected ',' between array entries";
        }
        SkipWhitespace();
      }
    }

    method ParseString() returns (ok: bool, value: string, error: string)
      requires Valid()
      modifies this
      ensures Did(ReadString(old(Rest())), ok, value, error)
      decreases |input| - pos, 0
    {
      value, error := "", "";
      ok := Match('"');
      if !ok {
        return false, value, "Expected string";
      }
      ghost var whole := ReadChars(Rest());
      var result := "";
      assert whole == Prepend(result, whole) by { PrependNothing(whole); }
      while pos < |input|
        invariant Valid()
        invariant whole == Prepend(result, ReadChars(Rest()))
        decreases |input| - pos
      {
        ghost var before := Rest();
        var ch := input[pos];
        assert ch == before[0];
        pos := pos + 1;
        assert Rest() == before[1..];
        if ch == '"' {
          assert result + "" == result;
          return true, result, error;
        }
        var unit := [ch];
        if ch == '\\' {
          ok, unit, error := ParseEscape(before);
          if !ok {
            return;
          }
        }
        PrependTwice(result, unit, ReadChars(Rest()));
        result := result + unit;
      }
      return false, value, "Unterminated string";
    }

    /** The part of `ParseString` after a backslash; `before` is the input from that backslash on. */
    method ParseEscape(ghost before: string) returns (ok: bool, unit: string, error: string)
      requires Valid() && before != "" && before[0] == '\\' && Rest() == before[1..]
      modifies this
      ensures Did(ReadUnit(before), ok, unit, error)
    {
      unit, error := "", "";
      if pos >= |input| {
        return false, unit, "Invalid escape sequence";
      }
      var esc := input[pos];
      assert esc == before[1];
      pos := pos + 1;
      assert Rest() == before[2..];
      if esc == 'u' {
        var codepoint;
        ok, codepoint, error := ParseUnicodeEscape();
        if !ok {
          return;
        }
        return true, Utf8(codepoint), error;
      }
      match SimpleEscape(esc)
      case None => return false, unit, "Unknown escape sequence";
      case Some(c) => return true, [c], error;
    }

    method ParseUnicodeEscape() returns (ok: bool, codepoint: nat, error: string)
      requires Valid()
      modifies this
      ensures Did(ReadHex4(old(Rest())), ok, codepoint, error)
      ensures ok ==> codepoint < 0x1_0000
    {
      codepoint, error := 0, "";
      if pos + 3 >= |input| {
        return false, codepoint, "Invalid unicode escape";
      }
      ghost var s := Rest();
      var value := 0;
      for i := 0 to 4
        invariant Valid() && pos == old(pos) + i
        invariant forall k :: 0 <= k < i ==> IsHexDigit(s[k])
        invariant value == HexPrefix(s, i)
      {
        var c := input[pos];
        assert c == s[i];
        pos := pos + 1;
        if !IsHexDigit(c) {
          return false, codepoint, "Invalid unicode escape";
        }
        value := value * 16 + HexValue(c);
      }
      assert value == HexPrefix(s, 3) * 16 + HexValue(s[3]);
      assert HexPrefix(s, 3) == HexPrefix(s, 2) * 16 + HexValue(s[2]);
      return true, value, error;
    }

    method ParseNumber() returns (ok: bool, value: Json, error: string)
      requires Valid() && pos < |input|
      modifies this
      ensures Did(ReadNumber(floats, old(Rest())), ok, value, error)
    {
      value, error := Null, "";
      var start := pos;
      ok, error := ScanNumber();
      if !ok {
        return;
      }
      NumberJoins(old(Rest()));
      var literal := input[start..pos];
      assert literal == old(Rest())[..pos - start];
      match Stod(floats, literal)
      case None => return false, value, "Invalid number";
      case Some(x) => return true, Number(x), error;
    }

    /** The scanning half of `ParseNumber`. */
    method ScanNumber() returns (ok: bool, error: string)
      requires Valid() && pos < |input|
      modifies this
      ensures Scanned(JsonReader.ScanNumber(old(Rest())), ok, error)
    {
      error := "";
      if input[pos] == '-' {
        pos := pos + 1;
      }
      ghost var unsigned := Rest();
      if pos >= |input| {
        return false, "Unexpected end in number";
      }
      assert input[pos] == unsigned[0];
      if input[pos] == '0' {
        pos := pos + 1;
      } else {
        if !IsDigit(input[pos]) {
          return false, "Invalid number";
        }
        SkipDigits();
      }
      ok, error := ScanFraction();
      if ok {
        ok, error := ScanExponent();
      }
    }

    method ScanFraction() returns (ok: bool, error: string)
      requires Valid()
      modifies this
      ensures Scanned(JsonReader.ScanFraction(old(Rest())), ok, error)
    {
      error := "";
      ghost var s := Rest();
      if pos < |input| && input[pos] == '.' {
        pos := pos + 1;
        assert Rest() == s[1..];
        if pos >= |input| || !IsDigit(input[pos]) {
          return false, "Invalid fractional part";
        }
        SkipDigits();
      }
      ok := true;
    }

    method ScanExponent() returns (ok: bool, error: string)
      requires Valid()
      modifies this
      ensures Scanned(JsonReader.ScanExponent(old(Rest())), ok, error)
    {
      error := "";
      ghost var s := Rest();
      if pos < |input| && (input[pos] == 'e' || input[pos] == 'E') {
        pos := pos + 1;
        assert Rest() == s[1..];
        if pos < |input| && (input[pos] == '+' || input[pos] == '-') {
          pos := pos + 1;
          assert Rest() == s[2..];
        }
        if pos >= |input| || !IsDigit(input[pos]) {
          return false, "Invalid exponent";
        }
        SkipDigits();
      }
      ok := true;
    }

    /** Like `Did`, for a scan that only moves the position. */
    ghost predicate Scanned(r: Parsed<string>, ok: bool, error: string)
      reads this
    {
      Valid() &&
      match r
      case Fail(e) => !ok && error == e
      case Done(_, rest) => ok && Rest() == rest
    }

    method SkipDigits()
      requires Valid()
      modifies this
      ensures Valid() && Rest() == old(Rest())[|TakeDigits(old(Rest()))|..]
    {
      ghost var s := Rest();
      while pos < |input| && IsDigit(input[pos])
        invariant Valid() && pos >= old(pos)
        invariant |TakeDigits(s)| == pos - old(pos) + |TakeDigits(Rest())|
      {
        assert Rest()[1..] == input[pos + 1..];
        pos := pos + 1;
      }
      assert Rest() == s[pos - old(pos)..];
    }

    method ParseLiteral() returns (ok: bool, value: Json, error: string)
      requires Valid()
      modifies this
      ensures Did(ReadLiteral(old(Rest())), ok, value, error)
    {
      value, error := Null, "";
      ok := MatchLiteral("true");
      if ok {
        return true, Boolean(true), error;
      }
      ok := MatchLiteral("false");
      if ok {
        return true, Boolean(false), error;
      }
      ok := MatchLiteral("null");
      if ok {
        return true, Null, error;
      }
      return false, value, "Invalid literal";
    }

    method Match(expected: char) returns (ok: bool)
      requires Valid()
      modifies this
      ensures Valid() && ok == Starts(old(Rest()), expected)
      ensures Rest() == if ok then old(Rest())[1..] else old(Rest())
      ensures pos == if ok then old(pos) + 1 else old(pos)
    {
      ok := pos < |input| && input[pos] == expected;
      if ok {
        pos := pos + 1;
      }
    }

    method MatchLiteral(literal: string) returns (ok: bool)
      requires Valid()
      modifies this
      ensures Valid() && ok == (literal <= old(Rest()))
      ensures Rest() == if ok then old(Rest())[|literal|..] else old(Rest())
    {
      ok := pos + |literal| <= |input| && input[pos..pos + |literal|] == literal;
      assert pos + |literal| <= |input| ==> input[pos..pos + |literal|] == Rest()[..|literal|];
      if ok {
        pos := pos + |literal|;
      }
    }

    method SkipWhitespace()
      requires Valid()
      modifies this
      ensures Valid() && Rest() == SkipBlanks(old(Rest())) && pos >= old(pos)
    {
      while pos < |input| && IsBlankChar(input[pos])
        invariant Valid() && pos >= old(pos)
        invariant SkipBlanks(Rest()) == SkipBlanks(old(Rest()))
      {
        assert Rest()[1..] == input[pos + 1..];
        pos := pos + 1;
      }
    }
  }

  ghost function HexPrefix(s: string, n: nat): nat
    requires n <= |s| && forall i :: 0 <= i < n ==> IsHexDigit(s[i])
  {
    if n == 0 then 0 else HexPrefix(s, n - 1) * 16 + HexValue(s[n - 1])
  }

  lemma PrependNothing(r: Parsed<string>)
    ensures Prepend("", r) == r
  {
    if r.Done? {
      assert "" + r.value == r.value;
    }
  }

  lemma PrependTwice(t: string, u: string, r: Parsed<string>)
    ensures Prepend(t, Prepend(u, r)) == Prepend(t + u, r)
  {
    if r.Done? {
      assert t + (u + r.value) == t + u + r.value;
    }
  }
}
