/** src/expression.rs: the hand-written parser of DuckDB's exception JSON, and
    the grammar it decides. A `char` is a Unicode scalar value, as in Rust. */
module ExceptionJson {
  import opened Wrappers

  // ---- Characters and escapes

  /** `char::to_digit(16)` */
  function HexDigit(c: char): Option<nat> {
    if '0' <= c <= '9' then Some((c - '0') as nat)
    else if 'a' <= c <= 'f' then Some((c - 'a') as nat + 10)
    else if 'A' <= c <= 'F' then Some((c - 'A') as nat + 10)
    else None
  }

  /** `char::from_u32` */
  function FromCode(code: nat): Option<char> {
    if code < 0xD800 || 0xE000 <= code < 0x11_0000 then Some(code as char) else None
  }

  function ShortEscape(c: char): Option<char> {
    match c
    case '"' => Some('"')
    case '\\' => Some('\\')
    case '/' => Some('/')
    case 'b' => Some('\U{8}')
    case 'f' => Some('\U{c}')
    case 'n' => Some('\n')
    case 'r' => Some('\r')
    case 't' => Some('\t')
    case _ => None
  }

  /** `is_ascii_whitespace` */
  predicate IsBlank(c: char) {
    c == ' ' || c == '\t' || c == '\n' || c == '\U{c}' || c == '\r'
  }

  /** Unicode `White_Space`, what `str::trim` removes. */
  predicate IsWhitespace(c: char) {
    || '\t' <= c <= '\r' || c == ' ' || c == '\U{85}' || c == '\U{a0}' || c == '\U{1680}'
    || '\U{2000}' <= c <= '\U{200a}' || c == '\U{2028}' || c == '\U{2029}' || c == '\U{202f}'
    || c == '\U{205f}' || c == '\U{3000}'
  }

  function TrimStart(s: string): string {
    if s != "" && IsWhitespace(s[0]) then TrimStart(s[1..]) else s
  }

  function TrimEnd(s: string): string {
    if s != "" && IsWhitespace(s[|s| - 1]) then TrimEnd(s[..|s| - 1]) else s
  }

  function Trim(s: string): string {
    TrimEnd(TrimStart(s))
  }

  function SkipBlanks(s: string): (r: string)
    ensures |r| <= |s|
  {
    if s != "" && IsBlank(s[0]) then SkipBlanks(s[1..]) else s
  }

  // ---- What the parser computes, as functions of the text left to read

  /** The value of a run of hex digits. */
  function HexValue(s: string): Option<nat> {
    if s == "" then Some(0)
    else
      var high :- HexValue(s[..|s| - 1]);
      var digit :- HexDigit(s[|s| - 1]);
      Some(high * 16 + digit)
  }

  function Hex4(s: string): Option<nat> {
    if |s| < 4 then None else HexValue(s[..4])
  }

  predicate IsHigh(code: nat) {
    0xD800 <= code < 0xDC00
  }

  predicate IsLow(code: nat) {
    0xDC00 <= code < 0xE000
  }

  /** The code point of a surrogate pair. */
  function Pair(high: nat, low: nat): (code: nat)
    requires IsHigh(high) && IsLow(low)
    ensures 0x1_0000 <= code <= 0x10_FFFF
  {
    0x1_0000 + (high - 0xD800) * 0x400 + (low - 0xDC00)
  }

  /** One character of a string literal, after its `\u`. */
  function UnicodeEscape(s: string): (r: Option<(char, string)>)
    ensures r.Some? ==> |r.value.1| < |s|
  {
    var high :- Hex4(s);
    if IsHigh(high) then
      if |s| < 6 || s[4] != '\\' || s[5] != 'u' then None
      else
        var low :- Hex4(s[6..]);
        if !IsLow(low) then None
        else
          var c :- FromCode(Pair(high, low));
          Some((c, s[10..]))
    else
      var c :- FromCode(high);
      Some((c, s[4..]))
  }

  /** One character of a string literal. */
  function Character(s: string): (r: Option<(char, string)>)
    requires s != "" && s[0] != '"'
    ensures r.Some? ==> |r.value.1| < |s|
  {
    if s[0] != '\\' then Some((s[0], s[1..]))
    else if |s| == 1 then None
    else if s[1] == 'u' then UnicodeEscape(s[2..])
    else
      var c :- ShortEscape(s[1]);
      Some((c, s[2..]))
  }

  /** The characters up to the closing quote, and what follows it. */
  function Characters(s: string): (r: Option<(string, string)>)
    ensures r.Some? ==> |r.value.1| < |s|
    decreases |s|
  {
    if s == "" then None
    else if s[0] == '"' then Some(("", s[1..]))
    else
      var (c, rest) :- Character(s);
      var (out, end) :- Characters(rest);
      Some(([c] + out, end))
  }

  function StringLiteral(s: string): (r: Option<(string, string)>)
    ensures r.Some? ==> |r.value.1| < |s|
  {
    if s == "" || s[0] != '"' then None else Characters(s[1..])
  }

  datatype Found = Found(exceptionType: Option<string>, message: Option<string>) {
    function With(key: string, value: string): Found {
      if key == "exception_type" then this.(exceptionType := Some(value))
      else if key == "exception_message" then this.(message := Some(value))
      else this
    }
  }

  /** `key : value`, with the blanks around it, and what follows. */
  function KeyValue(s: string): (r: Option<(string, string, string)>)
    ensures r.Some? ==> |r.value.2| < |s|
  {
    var (key, afterKey) :- StringLiteral(SkipBlanks(s));
    var colon := SkipBlanks(afterKey);
    if colon == "" || colon[0] != ':' then None
    else
      var (value, afterValue) :- StringLiteral(SkipBlanks(colon[1..]));
      Some((key, value, SkipBlanks(afterValue)))
  }

  /** The loop over the members, up to and including the closing brace. */
  function Members(s: string, found: Found): Option<(Found, string)>
    decreases |s|
  {
    var (key, value, rest) :- KeyValue(s);
    if rest == "" then None
    else if rest[0] == ',' then Members(rest[1..], found.With(key, value))
    else if rest[0] == '}' then Some((found.With(key, value), rest[1..]))
    else None
  }

  function ParseObject(text: string): Option<(string, string)> {
    if text == "" || text[0] != '{' then None
    else if SkipBlanks(text[1..]) != "" && SkipBlanks(text[1..])[0] == '}' then None
    else
      var (found, rest) :- Members(SkipBlanks(text[1..]), Found(None, None));
      if SkipBlanks(rest) != "" then None
      else
        var exceptionType :- found.exceptionType;
        var message :- found.message;
        Some((exceptionType, message))
  }

  function ParseException(raw: string): Option<(string, string)> {
    ParseObject(Trim(raw))
  }

  // ---- The parser as it is written

  /** A peekable iterator over the characters of a string. */
  class Chars {
    var rest: string

    constructor (s: string)
      ensures rest == s
    {
      rest := s;
    }

    method Next() returns (c: Option<char>)
      modifies this
      ensures old(rest) == "" ==> c == None && rest == ""
      ensures old(rest) != "" ==> c == Some(old(rest)[0]) && rest == old(rest)[1..]
    {
      if rest == "" {
        c := None;
      } else {
        c := Some(rest[0]);
        rest := rest[1..];
      }
    }

    method SkipWs()
      modifies this
      ensures rest == SkipBlanks(old(rest))
    {
      while rest != "" && IsBlank(rest[0])
        invariant SkipBlanks(rest) == SkipBlanks(old(rest))
        decreases |rest|
      {
        var _ := Next();
      }
    }
  }

  lemma {:induction false} BadDigit(s: string, i: nat)
    requires i < |s| && HexDigit(s[i]).None?
    ensures HexValue(s).None?
  {
    if i < |s| - 1 {
      BadDigit(s[..|s| - 1], i);
    }
  }

  method ParseHex4(chars: Chars) returns (r: Option<nat>)
    modifies chars
    ensures r == Hex4(old(chars.rest))
    ensures r.Some? ==> chars.rest == old(chars.rest)[4..]
  {
    ghost var s := chars.rest;
    var code := 0;
    for i := 0 to 4
      invariant i <= |s| && chars.rest == s[i..]
      invariant HexValue(s[..i]) == Some(code)
    {
      var c := chars.Next();
      if c.None? {
        return None;
      }
      var digit := HexDigit(c.value);
      if digit.None? {
        if |s| >= 4 {
          BadDigit(s[..4], i);
        }
        return None;
      }
      assert s[..i + 1][..i] == s[..i];
      code := code * 16 + digit.value;
    }
    r := Some(code);
  }

  method ParseUnicodeEscape(chars: Chars) returns (r: Option<char>)
    modifies chars
    ensures r.Some? <==> UnicodeEscape(old(chars.rest)).Some?
    ensures r.Some? ==> UnicodeEscape(old(chars.rest)) == Some((r.value, chars.rest))
  {
    ghost var s := chars.rest;
    var high := ParseHex4(chars);
    if high.None? {
      return None;
    }
    if !(0xD800 <= high.value < 0xDC00) {
      return FromCode(high.value);
    }
    var backslash := chars.Next();
    if backslash != Some('\\') {
      return None;
    }
    var u := chars.Next();
    if u != Some('u') {
      return None;
    }
    assert s[4..][1..][1..] == s[6..];
    var low := ParseHex4(chars);
    if low.None? || !(0xDC00 <= low.value < 0xE000) {
      return None;
    }
    assert s[6..][4..] == s[10..];
    r := FromCode(0x1_0000 + (high.value - 0xD800) * 0x400 + (low.value - 0xDC00));
  }

  function After(out: string, more: Option<(string, string)>): Option<(string, string)> {
    if more.Some? then Some((out + more.value.0, more.value.1)) else None
  }

  /** One more character moves from the text to the output. */
  lemma {:induction false} AfterOne(out: string, before: string, c: char, rest: string)
    requires before != "" && before[0] != '"' && Character(before) == Some((c, rest))
    ensures After(out, Characters(before)) == After(out + [c], Characters(rest))
  {
    var later := Characters(rest);
    if later.Some? {
      assert out + ([c] + later.value.0) == out + [c] + later.value.0;
    }
  }

  method ParseJsonString(chars: Chars) returns (r: Option<string>)
    modifies chars
    ensures r.Some? <==> StringLiteral(old(chars.rest)).Some?
    ensures r.Some? ==> StringLiteral(old(chars.rest)) == Some((r.value, chars.rest))
  {
    var quote := chars.Next();
    if quote != Some('"') {
      return None;
    }
    ghost var s := chars.rest;
    var out := "";
    assert Characters(s).Some? ==> "" + Characters(s).value.0 == Characters(s).value.0;
    while true
      invariant Characters(s) == After(out, Characters(chars.rest))
      decreases |chars.rest|
    {
      ghost var before := chars.rest;
      ghost var more := Characters(before);
      var c := chars.Next();
      if c.None? {
        return None;
      }
      if c.value == '"' {
        assert out + "" == out;
        return Some(out);
      }
      var next: Option<char>;
      if c.value != '\\' {
        next := c;
      } else {
        var e := chars.Next();
        if e.None? {
          return None;
        }
        if e.value == 'u' {
          assert before[1..][1..] == before[2..];
          next := ParseUnicodeEscape(chars);
        } else {
          next := ShortEscape(e.value);
        }
      }
      if next.None? {
        return None;
      }
      AfterOne(out, before, next.value, chars.rest);
      out := out + [next.value];
    }
  }

  /** `"key" : "value"` with the blanks around it. */
  method ParseKeyValue(chars: Chars) returns (r: Option<(string, string)>)
    modifies chars
    ensures r.Some? <==> KeyValue(old(chars.rest)).Some?
    ensures r.Some? ==> KeyValue(old(chars.rest)) == Some((r.value.0, r.value.1, chars.rest))
  {
    chars.SkipWs();
    var key := ParseJsonString(chars);
    if key.None? {
      return None;
    }
    chars.SkipWs();
    var colon := chars.Next();
    if colon != Some(':') {
      return None;
    }
    chars.SkipWs();
    var value := ParseJsonString(chars);
    if value.None? {
      return None;
    }
    chars.SkipWs();
    r := Some((key.value, value.value));
  }

  method ParseExceptionJson(raw: string) returns (r: Option<(string, string)>)
    ensures r == ParseException(raw)
  {
    var chars := new Chars(Trim(raw));
    var brace := chars.Next();
    if brace != Some('{') {
      return None;
    }
    chars.SkipWs();
    if chars.rest != "" && chars.rest[0] == '}' {
      return None;
    }
    ghost var members := chars.rest;
    var found := Found(None, None);
    while true
      invariant Members(members, Found(None, None)) == Members(chars.rest, found)
      decreases |chars.rest|
    {
      var member := ParseKeyValue(chars);
      if member.None? {
        return None;
      }
      found := found.With(member.value.0, member.value.1);
      var separator := chars.Next();
      if separator == Some(',') {
        continue;
      }
      if separator == Some('}') {
        break;
      }
      return None;
    }
    chars.SkipWs();
    var trailing := chars.Next();
    if trailing.Some? || found.exceptionType.None? || found.message.None? {
      return None;
    }
    r := Some((found.exceptionType.value, found.message.value));
  }
}
