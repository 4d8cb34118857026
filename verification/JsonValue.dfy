/** JSON values and the lexical vocabulary shared by the reader, the grammar and the writer.

    A C++ `std::string` is a string of bytes; here it is a Dafny `string` with one character for each byte.
    Nothing below depends on the upper bound of a byte. */
module JsonValue {
  import opened Wrappers

  datatype Json =
    | Null
    | Boolean(flag: bool)
    | Number(number: real)
    | Text(text: string)
    | Object(members: map<string, Json>)
    | Array(items: seq<Json>)

  /** The C++ floating-point library outside the range where it is interpreted here:
      `stod` stands for `std::stod` (None when it throws), `format` for formatting with 15 digits. */
  datatype Floats = Floats(stod: string -> Option<real>, format: real -> string)

  // ---------- characters ----------

  predicate IsBlankChar(c: char) { c == ' ' || c == '\n' || c == '\r' || c == '\t' }

  predicate IsDigit(c: char) { '0' <= c <= '9' }

  predicate IsHexDigit(c: char) { '0' <= c <= '9' || 'a' <= c <= 'f' || 'A' <= c <= 'F' }

  predicate AllDigits(s: string) { forall i :: 0 <= i < |s| ==> IsDigit(s[i]) }

  predicate AllBlank(s: string) { forall i :: 0 <= i < |s| ==> IsBlankChar(s[i]) }

  function HexValue(c: char): (v: nat)
    requires IsHexDigit(c)
    ensures v < 16
  {
    if '0' <= c <= '9' then c as int - '0' as int
    else if 'a' <= c <= 'f' then 10 + (c as int - 'a' as int)
    else 10 + (c as int - 'A' as int)
  }

  const DECIMAL := "0123456789"

  const LOWER_HEX := "0123456789abcdef"

  const UPPER_HEX := "0123456789ABCDEF"

  /** The blanks of section 2 of RFC 8259. */
  lemma BlankExactly(c: char)
    ensures IsBlankChar(c) <==> c as int in {0x20, 0x09, 0x0A, 0x0D}
  {
  }

  lemma DigitExactly(c: char)
    ensures IsDigit(c) <==> exists d :: 0 <= d < 10 && c == DECIMAL[d]
  {
    if IsDigit(c) {
      var d := c as int - '0' as int;
      assert c == DECIMAL[d];
    }
  }

  /** The hexadecimal digits are those of the two alphabets, and each is worth its place there. */
  lemma HexDigitExactly(c: char, d: nat)
    requires d < 16
    ensures IsHexDigit(c) && HexValue(c) == d <==> c == LOWER_HEX[d] || c == UPPER_HEX[d]
  {
  }

  /** What a backslash followed by `c` stands for, `u` excepted. */
  function SimpleEscape(c: char): Option<char> {
    match c
    case '"' => Some('"')
    case '\\' => Some('\\')
    case '/' => Some('/')
    case 'b' => Some('\U{8}')
    case 'f' => Some('\U{C}')
    case 'n' => Some('\n')
    case 'r' => Some('\r')
    case 't' => Some('\t')
    case _ => None
  }

  /** The two-character escapes of section 7 of RFC 8259, with the characters they stand for. */
  lemma SimpleEscapeExactly(c: char, i: nat)
    requires i < 8
    ensures SimpleEscape("\"\\/bfnrt"[i]) == Some([0x22, 0x5C, 0x2F, 0x08, 0x0C, 0x0A, 0x0D, 0x09][i] as char)
    ensures SimpleEscape(c).Some? <==> c in "\"\\/bfnrt"
  {
  }

  // ---------- UTF-8 ----------

  /** The bytes appended for a code point. */
  function Utf8(cp: nat): string
    requires cp < 0x20_0000
  {
    if cp <= 0x7F then [cp as char]
    else if cp <= 0x7FF then [(0xC0 + cp / 64) as char, Continuation(cp)]
    else if cp <= 0xFFFF then [(0xE0 + cp / 4096) as char, Continuation(cp / 64), Continuation(cp)]
    else [(0xF0 + cp / 262144) as char, Continuation(cp / 4096), Continuation(cp / 64), Continuation(cp)]
  }

  function Continuation(bits: nat): char { (0x80 + bits % 64) as char }

  /** The bit pattern of section 3 of RFC 3629 read backwards: code point and number of bytes. */
  function DecodeUtf8(s: string): Option<(nat, nat)> {
    var At := (i: nat) requires i < |s| => s[i] as int - 0x80;
    if s == "" then None
    else if s[0] < 0x80 as char then Some((s[0] as nat, 1))
    else if 0xC0 as char <= s[0] < 0xE0 as char && IsContinuation(s, 1) then
      Some(((s[0] as int - 0xC0) * 64 + At(1), 2))
    else if 0xE0 as char <= s[0] < 0xF0 as char && IsContinuation(s, 1) && IsContinuation(s, 2) then
      Some(((s[0] as int - 0xE0) * 4096 + At(1) * 64 + At(2), 3))
    else if 0xF0 as char <= s[0] < 0xF8 as char &&
            IsContinuation(s, 1) && IsContinuation(s, 2) && IsContinuation(s, 3) then
      Some(((s[0] as int - 0xF0) * 262144 + At(1) * 4096 + At(2) * 64 + At(3), 4))
    else None
  }

  predicate IsContinuation(s: string, i: nat) { i < |s| && 0x80 as char <= s[i] < 0xC0 as char }

  /** The bytes written for a code point decode to it, whatever follows them, and there are no more of them than
      section 3 of RFC 3629 asks for. */
  lemma Utf8RoundTrip(cp: nat, rest: string)
    requires cp < 0x20_0000
    ensures DecodeUtf8(Utf8(cp) + rest) == Some((cp, |Utf8(cp)|))
    ensures |Utf8(cp)| == if cp < 0x80 then 1 else if cp < 0x800 then 2 else if cp < 0x1_0000 then 3 else 4
  {
    var s := Utf8(cp) + rest;
    assert s[0] == Utf8(cp)[0];
    if 0x7F < cp {
      assert s[1] == Utf8(cp)[1];
      if 0x7FF < cp {
        assert s[2] == Utf8(cp)[2];
        Base64Digits(cp);
        if 0xFFFF < cp {
          assert s[3] == Utf8(cp)[3];
        }
      }
    }
  }

  lemma Base64Digits(n: nat)
    ensures n == n / 4096 * 4096 + n / 64 % 64 * 64 + n % 64
    ensures n == n / 262144 * 262144 + n / 4096 % 64 * 4096 + n / 64 % 64 * 64 + n % 64
  {
    assert n / 4096 == n / 64 / 64 && n / 262144 == n / 64 / 64 / 64;
  }

  // ---------- numbers ----------

  const INTEGER_LIMIT := 1_000_000_000_000_000

  function DigitChar(d: nat): char
    requires d < 10
  {
    ('0' as int + d) as char
  }

  function NatText(n: nat): string {
    if n < 10 then [DigitChar(n)] else NatText(n / 10) + [DigitChar(n % 10)]
  }

  function IntegerText(n: int): string {
    if n < 0 then "-" + NatText(-n) else NatText(n)
  }

  function NatValue(s: string): nat
    requires AllDigits(s)
  {
    if s == "" then 0 else NatValue(s[..|s| - 1]) * 10 + (s[|s| - 1] as int - '0' as int)
  }

  /** Another digit behind a number makes it ten times as much and the digit. */
  lemma DecimalNotation(s: string, d: nat)
    requires AllDigits(s) && d < 10
    ensures NatValue("") == 0 && AllDigits(s + [DECIMAL[d]]) && NatValue(s + [DECIMAL[d]]) == 10 * NatValue(s) + d
  {
    assert (s + [DECIMAL[d]])[..|s|] == s;
  }

  function IntegerValue(s: string): int
    requires IsShortInteger(s)
  {
    if s[0] == '-' then -(NatValue(s[1..]) as int) else NatValue(s)
  }

  /** An optional minus sign and 1 to 15 digits: a double holds every such integer exactly. */
  predicate IsShortInteger(s: string) {
    s != "" &&
    var digits := if s[0] == '-' then s[1..] else s;
    1 <= |digits| <= 15 && AllDigits(digits)
  }

  predicate IsShortNumber(x: real) {
    x == x.Floor as real && -INTEGER_LIMIT < x.Floor < INTEGER_LIMIT
  }

  /** `std::stod`: exact on short integers, unknown elsewhere. */
  function Stod(floats: Floats, s: string): Option<real> {
    if IsShortInteger(s) then Some(IntegerValue(s) as real) else floats.stod(s)
  }

  /** `FormatNumber`: the plain decimal digits of a short integer, unknown elsewhere. */
  function FormatNumber(floats: Floats, x: real): string {
    if IsShortNumber(x) then IntegerText(x.Floor) else floats.format(x)
  }

  /** Every integer below 10^15 in magnitude is printed in decimal notation, with a minus sign or without one. */
  lemma ShortIntegersPrint(floats: Floats, n: int)
    requires -INTEGER_LIMIT < n < INTEGER_LIMIT
    ensures INTEGER_LIMIT == 1_000_000_000_000_000 && IsShortNumber(n as real)
    ensures FormatNumber(floats, n as real) == if n < 0 then "-" + NatText(-n) else NatText(n)
  {
  }

  lemma PrintedDigits(q: nat, d: nat)
    requires d < 10
    ensures NatText(d) == [DECIMAL[d]] && (q > 0 ==> NatText(10 * q + d) == NatText(q) + [DECIMAL[d]])
  {
    assert (10 * q + d) / 10 == q && (10 * q + d) % 10 == d;
    assert DigitChar(d) == DECIMAL[d];
  }

  function Power10(k: nat): nat { if k == 0 then 1 else 10 * Power10(k - 1) }

  lemma {:induction false} NatTextValue(n: nat)
    ensures NatText(n) != "" && AllDigits(NatText(n)) && NatValue(NatText(n)) == n
    ensures NatText(n)[0] == '0' ==> n == 0 && NatText(n) == "0"
  {
    if n >= 10 {
      NatTextValue(n / 10);
      assert NatText(n)[..|NatText(n)| - 1] == NatText(n / 10);
    }
  }

  lemma {:induction false} NatTextLength(n: nat, k: nat)
    requires 1 <= k && n < Power10(k)
    ensures |NatText(n)| <= k
  {
    if n >= 10 {
      NatTextLength(n / 10, k - 1);
    }
  }

  /** Reading back the printed digits of a short integer gives the integer. */
  lemma NumberRoundTrip(floats: Floats, x: real)
    requires IsShortNumber(x)
    ensures Stod(floats, FormatNumber(floats, x)) == Some(x)
  {
    var n := x.Floor;
    var m := if n < 0 then -n else n;
    NatTextValue(m);
    assert Power10(15) == INTEGER_LIMIT by {
      assert Power10(5) == 100_000;
      assert Power10(10) == 100_000 * Power10(5);
      assert Power10(15) == 100_000 * Power10(10);
    }
    NatTextLength(m, 15);
    if n < 0 {
      assert IntegerText(n)[1..] == NatText(m);
    }
  }
}
