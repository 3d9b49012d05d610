/** The texts DuckDB's exception JSON may be spelled as, and the proof that the
    parser of ExceptionJson accepts exactly those and reads the right values. */
module ExceptionJsonGrammar {
  import opened Wrappers
  import opened ExceptionJson

  // ---- String literals

  /** A character together with one way of writing it inside quotes. */
  datatype Spelled = Spelled(c: char, text: string)

  /** The spellings section 7 of RFC 8259 allows: the character itself unless
      it must be escaped, a two-character escape, `\u` and four hex digits of
      either case, or the escaped UTF-16 surrogate pair. */
  ghost predicate Legal(s: Spelled) {
    IsItself(s) || IsShort(s) || IsUnicode(s) || IsSurrogatePair(s)
  }

  predicate IsItself(s: Spelled) {
    s.text == [s.c] && s.c != '"' && s.c != '\\' && s.c >= ' '
  }

  /** The eight two-character escapes, by the letter after the backslash. */
  predicate Escapes(letter: char, c: char) {
    || (letter == '"' && c == '"') || (letter == '\\' && c == '\\') || (letter == '/' && c == '/')
    || (letter == 'b' && c == '\U{8}') || (letter == 'f' && c == '\U{c}') || (letter == 'n' && c == '\U{a}')
    || (letter == 'r' && c == '\U{d}') || (letter == 't' && c == '\U{9}')
  }

  /** The hex digit a writer puts for `d`, in one case or the other. */
  function HexChar(d: nat, upper: bool): char
    requires d < 16
  {
    if d < 10 then '0' + d as char else (if upper then 'A' else 'a') + (d - 10) as char
  }

  predicate IsHexOf(c: char, d: nat) {
    d < 16 && (c == HexChar(d, false) || c == HexChar(d, true))
  }

  /** The value of four hex digits. */
  function Value4(d0: nat, d1: nat, d2: nat, d3: nat): nat {
    0x1000 * d0 + 0x100 * d1 + 0x10 * d2 + d3
  }

  predicate AreDigits(t: string, d0: nat, d1: nat, d2: nat, d3: nat) {
    |t| == 4 && IsHexOf(t[0], d0) && IsHexOf(t[1], d1) && IsHexOf(t[2], d2) && IsHexOf(t[3], d3)
  }

  /** Four hex digits that spell `n`. */
  ghost predicate SpellsHex(t: string, n: nat) {
    exists d0: nat, d1: nat, d2: nat, d3: nat :: AreDigits(t, d0, d1, d2, d3) && n == Value4(d0, d1, d2, d3)
  }

  predicate IsShort(s: Spelled) {
    |s.text| == 2 && s.text[0] == '\\' && Escapes(s.text[1], s.c)
  }

  ghost predicate IsUnicode(s: Spelled) {
    |s.text| == 6 && "\\u" <= s.text && s.c < '\U{10000}' && SpellsHex(s.text[2..], s.c as nat)
  }

  ghost predicate IsSurrogatePair(s: Spelled) {
    && |s.text| == 12 && "\\u" <= s.text && s.text[6] == '\\' && s.text[7] == 'u' && s.c >= '\U{10000}'
    && SpellsHex(s.text[2..6], 0xD800 + (s.c as nat - 0x1_0000) / 0x400)
    && SpellsHex(s.text[8..], 0xDC00 + (s.c as nat - 0x1_0000) % 0x400)
  }

  /** What the parser takes: the same, except that it lets control characters
      stand for themselves. */
  ghost predicate Accepted(s: Spelled) {
    || Legal(s)
    || (s.text == [s.c] && s.c < ' ')
  }

  lemma {:induction false} EscapeIsKnown(letter: char, c: char)
    ensures ShortEscape(letter) == Some(c) <==> Escapes(letter, c)
  {
  }

  lemma {:induction false} HexDigitIs(c: char, d: nat)
    ensures HexDigit(c) == Some(d) <==> IsHexOf(c, d)
  {
  }

  lemma {:induction false} HexStep(s: string, n: nat)
    requires 0 < n <= |s|
    ensures HexValue(s[..n]) ==
            if HexValue(s[..n - 1]).Some? && HexDigit(s[n - 1]).Some?
            then Some(HexValue(s[..n - 1]).value * 16 + HexDigit(s[n - 1]).value) else None
  {
    assert s[..n][..n - 1] == s[..n - 1];
  }

  /** The parser's hex value is the digits' place value. */
  lemma {:induction false} HexIsSpelled(t: string, n: nat)
    requires |t| == 4
    ensures Hex4(t) == Some(n) <==> SpellsHex(t, n)
  {
    if Hex4(t) == Some(n) {
      ReadHexIsSpelled(t, n);
    }
    if d0: nat, d1: nat, d2: nat, d3: nat :| AreDigits(t, d0, d1, d2, d3) && n == Value4(d0, d1, d2, d3) {
      SpelledHexIsRead(t, d0, d1, d2, d3);
    }
  }

  lemma {:induction false} SpelledHexIsRead(t: string, d0: nat, d1: nat, d2: nat, d3: nat)
    requires AreDigits(t, d0, d1, d2, d3)
    ensures Hex4(t) == Some(Value4(d0, d1, d2, d3))
  {
    HexDigitIs(t[0], d0);
    HexDigitIs(t[1], d1);
    HexDigitIs(t[2], d2);
    HexDigitIs(t[3], d3);
    FourDigits(t);
  }

  lemma {:induction false} ReadHexIsSpelled(t: string, n: nat)
    requires |t| == 4 && Hex4(t) == Some(n)
    ensures SpellsHex(t, n)
  {
    FourDigits(t);
    var d0, d1, d2, d3 := HexDigit(t[0]).value, HexDigit(t[1]).value, HexDigit(t[2]).value, HexDigit(t[3]).value;
    HexDigitIs(t[0], d0);
    HexDigitIs(t[1], d1);
    HexDigitIs(t[2], d2);
    HexDigitIs(t[3], d3);
    assert AreDigits(t, d0, d1, d2, d3);
  }

  lemma {:induction false} FourDigits(t: string)
    requires |t| == 4
    ensures Hex4(t).Some? <==>
            HexDigit(t[0]).Some? && HexDigit(t[1]).Some? && HexDigit(t[2]).Some? && HexDigit(t[3]).Some?
    ensures Hex4(t).Some? ==>
              Hex4(t).value ==
              Value4(HexDigit(t[0]).value, HexDigit(t[1]).value, HexDigit(t[2]).value, HexDigit(t[3]).value)
  {
    HexStep(t, 1);
    HexStep(t, 2);
    HexStep(t, 3);
    HexStep(t, 4);
    assert t[..0] == "" && t[..4] == t;
  }

  type Spelling = seq<Spelled>

  ghost predicate AllAccepted(ss: Spelling) {
    forall i :: 0 <= i < |ss| ==> Accepted(ss[i])
  }

  function Value(ss: Spelling): string {
    if ss == [] then "" else [ss[0].c] + Value(ss[1..])
  }

  function Inside(ss: Spelling): string {
    if ss == [] then "" else ss[0].text + Inside(ss[1..])
  }

  function Quoted(ss: Spelling): string {
    "\"" + Inside(ss) + "\""
  }

  /** A scalar value's own UTF-16 pair decodes to it. */
  lemma {:induction false} PairOfUtf16(c: char)
    requires c >= '\U{10000}'
    ensures var high, low := 0xD800 + (c as nat - 0x1_0000) / 0x400, 0xDC00 + (c as nat - 0x1_0000) % 0x400;
            IsHigh(high) && IsLow(low) && Pair(high, low) == c as nat
  {
    var offset := c as nat - 0x1_0000;
    assert offset < 0x10_0000;
    assert offset == offset / 0x400 * 0x400 + offset % 0x400;
  }

  lemma {:induction false} Utf16OfPair(high: nat, low: nat)
    requires IsHigh(high) && IsLow(low)
    ensures 0xD800 + (Pair(high, low) - 0x1_0000) / 0x400 == high
    ensures 0xDC00 + (Pair(high, low) - 0x1_0000) % 0x400 == low
  {
    var offset := Pair(high, low) - 0x1_0000;
    assert offset == (high - 0xD800) * 0x400 + (low - 0xDC00);
  }

  lemma {:induction false} Hex4Local(a: string, b: string)
    requires |a| >= 4
    ensures Hex4(a + b) == Hex4(a)
  {
    assert (a + b)[..4] == a[..4];
  }

  lemma {:induction false} UnitIsRead(hex: string, rest: string)
    requires |hex| == 4 && Hex4(hex).Some? && !IsHigh(Hex4(hex).value)
    ensures UnicodeEscape(hex + rest) ==
            if FromCode(Hex4(hex).value).Some? then Some((FromCode(Hex4(hex).value).value, rest)) else None
  {
    Hex4Local(hex, rest);
    assert (hex + rest)[4..] == rest;
  }

  lemma {:induction false} PairIsRead(high: string, low: string, rest: string)
    requires |high| == 4 && |low| == 4
    requires Hex4(high).Some? && IsHigh(Hex4(high).value) && Hex4(low).Some? && IsLow(Hex4(low).value)
    ensures UnicodeEscape(high + "\\u" + low + rest) ==
            Some((Pair(Hex4(high).value, Hex4(low).value) as char, rest))
  {
    var t := high + "\\u" + low + rest;
    assert t == high + ("\\u" + low + rest);
    Hex4Local(high, "\\u" + low + rest);
    assert t[4] == '\\' && t[5] == 'u';
    assert t[6..] == low + rest;
    Hex4Local(low, rest);
    assert t[10..] == rest;
  }

  lemma {:induction false} EscapeIsRead(t: string)
    requires |t| >= 2 && t[0] == '\\' && t[1] == 'u'
    ensures Character(t) == UnicodeEscape(t[2..])
  {
  }

  lemma {:induction false} SpelledIsRead(s: Spelled, rest: string)
    requires Accepted(s)
    ensures s.text != "" && s.text[0] != '"'
    ensures Character(s.text + rest) == Some((s.c, rest))
  {
    if IsUnicode(s) {
      UnicodeIsRead(s, rest);
    } else if IsSurrogatePair(s) {
      SurrogatePairIsRead(s, rest);
    } else if IsShort(s) {
      EscapeIsKnown(s.text[1], s.c);
      assert (s.text + rest)[2..] == rest;
    } else {
      assert (s.text + rest)[1..] == rest;
    }
  }

  lemma {:induction false} UnicodeIsRead(s: Spelled, rest: string)
    requires IsUnicode(s)
    ensures Character(s.text + rest) == Some((s.c, rest))
  {
    EscapeIsRead(s.text + rest);
    HexIsSpelled(s.text[2..], s.c as nat);
    assert (s.text + rest)[2..] == s.text[2..] + rest;
    UnitIsRead(s.text[2..], rest);
  }

  lemma {:induction false} PairText(text: string, rest: string)
    requires |text| == 12 && text[6] == '\\' && text[7] == 'u'
    ensures (text + rest)[2..] == text[2..6] + "\\u" + text[8..] + rest
  {
    assert text[2..] == text[2..6] + text[6..8] + text[8..];
    assert text[6..8] == "\\u";
  }

  lemma {:induction false} PairIsHalves(s: Spelled)
    requires IsSurrogatePair(s)
    ensures var high, low := Hex4(s.text[2..6]), Hex4(s.text[8..]);
            && high.Some? && IsHigh(high.value) && low.Some? && IsLow(low.value)
            && Pair(high.value, low.value) == s.c as nat
  {
    PairOfUtf16(s.c);
    HexIsSpelled(s.text[2..6], 0xD800 + (s.c as nat - 0x1_0000) / 0x400);
    HexIsSpelled(s.text[8..], 0xDC00 + (s.c as nat - 0x1_0000) % 0x400);
  }

  lemma {:induction false} SurrogatePairIsRead(s: Spelled, rest: string)
    requires IsSurrogatePair(s)
    ensures Character(s.text + rest) == Some((s.c, rest))
  {
    EscapeIsRead(s.text + rest);
    PairText(s.text, rest);
    PairIsHalves(s);
    PairIsRead(s.text[2..6], s.text[8..], rest);
  }

  lemma {:induction false} ReadIsSpelled(t: string) returns (s: Spelled)
    requires t != "" && t[0] != '"' && Character(t).Some?
    ensures Accepted(s) && s.c == Character(t).value.0 && t == s.text + Character(t).value.1
  {
    if t[0] != '\\' {
      s := Spelled(t[0], t[..1]);
    } else if t[1] != 'u' {
      s := Spelled(Character(t).value.0, t[..2]);
      EscapeIsKnown(t[1], s.c);
    } else {
      EscapeIsRead(t);
      s := ReadIsUnit(t);
    }
  }

  lemma {:induction false} ReadIsUnit(t: string) returns (s: Spelled)
    requires |t| >= 2 && t[0] == '\\' && t[1] == 'u' && UnicodeEscape(t[2..]).Some?
    ensures Accepted(s) && s.c == UnicodeEscape(t[2..]).value.0 && t == s.text + UnicodeEscape(t[2..]).value.1
  {
    var e := t[2..];
    var (c, rest) := UnicodeEscape(e).value;
    HexSlice(e, 0);
    assert e[0..] == e && e[0..4] == t[2..6];
    if IsHigh(Hex4(e).value) {
      HexSlice(e, 6);
      assert e[6..10] == t[8..12] && rest == t[12..];
      s := Spelled(c, t[..12]);
      assert s.text[2..6] == t[2..6] && s.text[8..] == t[8..12];
      WrittenPair(s, Hex4(e).value, Hex4(e[6..]).value);
    } else {
      s := Spelled(c, t[..6]);
      assert s.text[2..] == t[2..6] && rest == t[6..];
      Hex4Bound(e);
      HexIsSpelled(s.text[2..], s.c as nat);
      assert IsUnicode(s);
    }
  }

  lemma {:induction false} Hex4Bound(s: string)
    requires Hex4(s).Some?
    ensures Hex4(s).value < 0x1_0000
  {
    assert s[..1][..0] == "" && s[..2][..1] == s[..1] && s[..3][..2] == s[..2] && s[..4][..3] == s[..3];
    assert HexValue(s[..3]).Some? && HexValue(s[..2]).Some? && HexValue(s[..1]).Some?;
    assert HexValue(s[..1]).value < 0x10;
    assert HexValue(s[..2]).value < 0x100;
    assert HexValue(s[..3]).value < 0x1000;
  }

  lemma {:induction false} WrittenPair(s: Spelled, high: nat, low: nat)
    requires |s.text| == 12 && "\\u" <= s.text && s.text[6] == '\\' && s.text[7] == 'u'
    requires Hex4(s.text[2..6]) == Some(high) && Hex4(s.text[8..]) == Some(low)
    requires IsHigh(high) && IsLow(low) && s.c as nat == Pair(high, low)
    ensures IsSurrogatePair(s)
  {
    Utf16OfPair(high, low);
    HexIsSpelled(s.text[2..6], high);
    HexIsSpelled(s.text[8..], low);
  }

  lemma {:induction false} HexSlice(e: string, from: nat)
    requires from + 4 <= |e|
    ensures Hex4(e[from..]) == Hex4(e[from..from + 4])
  {
    assert e[from..] == e[from..from + 4] + e[from + 4..];
    Hex4Local(e[from..from + 4], e[from + 4..]);
  }

  lemma {:induction false} SpellingIsRead(ss: Spelling, rest: string)
    requires AllAccepted(ss)
    ensures Characters(Inside(ss) + "\"" + rest) == Some((Value(ss), rest))
  {
    var t := Inside(ss) + "\"" + rest;
    if ss == [] {
      assert t[1..] == rest;
    } else {
      var more := Inside(ss[1..]) + "\"" + rest;
      assert ss == [ss[0]] + ss[1..];
      SpellingCons(ss[0], ss[1..], rest);
      SpelledIsRead(ss[0], more);
      SpellingIsRead(ss[1..], rest);
    }
  }

  lemma {:induction false} ReadIsSpelling(t: string) returns (ss: Spelling)
    requires Characters(t).Some?
    ensures AllAccepted(ss) && Value(ss) == Characters(t).value.0
    ensures t == Inside(ss) + "\"" + Characters(t).value.1
    decreases |t|
  {
    if t[0] == '"' {
      ss := [];
    } else {
      var s := ReadIsSpelled(t);
      var rest := Character(t).value.1;
      var more := ReadIsSpelling(rest);
      ss := [s] + more;
      SpellingCons(s, more, Characters(t).value.1);
    }
  }

  lemma {:induction false} SpellingCons(s: Spelled, more: Spelling, tail: string)
    ensures Inside([s] + more) + "\"" + tail == s.text + (Inside(more) + "\"" + tail)
    ensures Value([s] + more) == [s.c] + Value(more)
  {
    assert ([s] + more)[1..] == more;
  }

  lemma {:induction false} QuotedIsRead(ss: Spelling, rest: string)
    requires AllAccepted(ss)
    ensures StringLiteral(Quoted(ss) + rest) == Some((Value(ss), rest))
  {
    SpellingIsRead(ss, rest);
    QuotedOpens(ss, rest);
  }

  lemma {:induction false} QuotedOpens(ss: Spelling, rest: string)
    ensures Quoted(ss) + rest != "" && (Quoted(ss) + rest)[0] == '"'
    ensures (Quoted(ss) + rest)[1..] == Inside(ss) + "\"" + rest
  {
  }

  lemma {:induction false} ReadIsQuoted(t: string) returns (ss: Spelling)
    requires StringLiteral(t).Some?
    ensures AllAccepted(ss) && Value(ss) == StringLiteral(t).value.0
    ensures t == Quoted(ss) + StringLiteral(t).value.1
  {
    ss := ReadIsSpelling(t[1..]);
    assert t == "\"" + t[1..];
  }

  /** The string parser decides the grammar exactly: it returns `out` and stops
      before `rest` if and only if what precedes `rest` is a quoted spelling
      of `out`. */
  lemma {:induction false} LiteralIsGrammar(t: string, out: string, rest: string)
    ensures StringLiteral(t) == Some((out, rest)) <==>
            exists ss: Spelling :: AllAccepted(ss) && Value(ss) == out && t == Quoted(ss) + rest
  {
    if StringLiteral(t) == Some((out, rest)) {
      var ss := ReadIsQuoted(t);
    }
    if ss: Spelling :| AllAccepted(ss) && Value(ss) == out && t == Quoted(ss) + rest {
      QuotedIsRead(ss, rest);
    }
  }

  /** Decoding inverts every legal escaping, whatever is chosen for each
      character, and leaves the iterator just past the closing quote. */
  lemma {:induction false} EveryEscapingIsInverted(ss: Spelling, rest: string)
    requires forall i :: 0 <= i < |ss| ==> Legal(ss[i])
    ensures StringLiteral(Quoted(ss) + rest) == Some((Value(ss), rest))
  {
    QuotedIsRead(ss, rest);
  }

  /** A low surrogate follows, escaped. */
  predicate LowFollows(rest: string) {
    |rest| >= 6 && rest[0] == '\\' && rest[1] == 'u' && Hex4(rest[2..]).Some? && IsLow(Hex4(rest[2..]).value)
  }

  /** After any accepted text, an escaped surrogate that is not the start of a
      pair makes the whole literal invalid. */
  lemma {:induction false} LoneSurrogateIsRejected(ss: Spelling, hex: string, rest: string)
    requires AllAccepted(ss) && |hex| == 4 && Hex4(hex).Some?
    requires IsLow(Hex4(hex).value) || (IsHigh(Hex4(hex).value) && !LowFollows(rest))
    ensures Characters(Inside(ss) + "\\u" + hex + rest).None?
  {
    var t := Inside(ss) + "\\u" + hex + rest;
    if ss == [] {
      assert t[2..] == hex + rest;
      Hex4Local(hex, rest);
      assert |rest| >= 2 ==> t[2..][4] == rest[0] && t[2..][5] == rest[1] && t[2..][6..] == rest[2..];
    } else {
      var more := Inside(ss[1..]) + "\\u" + hex + rest;
      assert t == ss[0].text + more;
      SpelledIsRead(ss[0], more);
      LoneSurrogateIsRejected(ss[1..], hex, rest);
    }
  }

  // ---- The object

  /** The blanks between tokens, and those around the whole text. */
  lemma {:induction false} BlanksAre(c: char)
    ensures IsBlank(c) <==> c in " \t\n\U{c}\r"
    ensures IsWhitespace(c) <==>
            || IsBlank(c) || c in "\U{b}\U{85}\U{a0}\U{1680}\U{2028}\U{2029}\U{202f}\U{205f}\U{3000}"
            || c in "\U{2000}\U{2001}\U{2002}\U{2003}\U{2004}\U{2005}\U{2006}\U{2007}\U{2008}\U{2009}\U{200a}"
  {
  }

  ghost predicate AllBlank(ws: string) {
    forall i :: 0 <= i < |ws| ==> IsBlank(ws[i])
  }

  /** One member with the blanks around its parts. */
  datatype Member = Member(ws1: string, key: Spelling, ws2: string, ws3: string, value: Spelling, ws4: string) {
    ghost predicate Valid() {
      AllBlank(ws1) && AllBlank(ws2) && AllBlank(ws3) && AllBlank(ws4) && AllAccepted(key) && AllAccepted(value)
    }

    function Text(): string {
      ws1 + Quoted(key) + ws2 + ":" + ws3 + Quoted(value) + ws4
    }
  }

  function MembersText(ms: seq<Member>): string
    requires ms != []
  {
    if |ms| == 1 then ms[0].Text() else ms[0].Text() + "," + MembersText(ms[1..])
  }

  /** The value of the last member with this key. */
  function LastValue(ms: seq<Member>, key: string): Option<string> {
    if ms == [] then None
    else if Value(ms[|ms| - 1].key) == key then Some(Value(ms[|ms| - 1].value))
    else LastValue(ms[..|ms| - 1], key)
  }

  function Collect(ms: seq<Member>, found: Found): Found {
    if ms == [] then found
    else Collect(ms[1..], found.With(Value(ms[0].key), Value(ms[0].value)))
  }

  lemma {:induction false} CollectAppend(a: seq<Member>, m: Member, found: Found)
    ensures Collect(a + [m], found) == Collect(a, found).With(Value(m.key), Value(m.value))
  {
    if a == [] {
      assert [m][1..] == [];
    } else {
      assert (a + [m])[1..] == a[1..] + [m];
      CollectAppend(a[1..], m, found.With(Value(a[0].key), Value(a[0].value)));
    }
  }

  /** The two result variables end up holding the last values. */
  lemma {:induction false} CollectIsLast(ms: seq<Member>)
    ensures Collect(ms, Found(None, None)) ==
            Found(LastValue(ms, "exception_type"), LastValue(ms, "exception_message"))
  {
    if ms != [] {
      var front, m := ms[..|ms| - 1], ms[|ms| - 1];
      assert ms == front + [m];
      CollectIsLast(front);
      CollectAppend(front, m, Found(None, None));
      assert "exception_type"[10] != "exception_message"[10];
    }
  }

  lemma {:induction false} BlanksSkipped(ws: string, rest: string)
    requires AllBlank(ws) && (rest == "" || !IsBlank(rest[0]))
    ensures SkipBlanks(ws + rest) == rest
  {
    if ws == "" {
      assert ws + rest == rest;
    } else {
      assert (ws + rest)[1..] == ws[1..] + rest;
      BlanksSkipped(ws[1..], rest);
    }
  }

  lemma {:induction false} SkippedBlanks(s: string) returns (ws: string)
    ensures AllBlank(ws) && s == ws + SkipBlanks(s)
    ensures SkipBlanks(s) != "" ==> !IsBlank(SkipBlanks(s)[0])
  {
    if s != "" && IsBlank(s[0]) {
      var more := SkippedBlanks(s[1..]);
      ws := [s[0]] + more;
    } else {
      ws := "";
    }
  }

  lemma {:induction false} KeyValueByParts(t: string, key: string, t1: string, t2: string, value: string, t4: string, rest: string)
    requires StringLiteral(SkipBlanks(t)) == Some((key, t1))
    requires SkipBlanks(t1) == ":" + t2
    requires StringLiteral(SkipBlanks(t2)) == Some((value, t4)) && SkipBlanks(t4) == rest
    ensures KeyValue(t) == Some((key, value, rest))
  {
    assert (":" + t2)[1..] == t2;
  }

  lemma {:induction false} MemberIsRead(m: Member, rest: string)
    requires m.Valid() && (rest == "" || !IsBlank(rest[0]))
    ensures KeyValue(m.Text() + rest) == Some((Value(m.key), Value(m.value), rest))
  {
    var t4 := m.ws4 + rest;
    var t3 := Quoted(m.value) + t4;
    var t2 := m.ws3 + t3;
    var t1 := m.ws2 + (":" + t2);
    var t0 := Quoted(m.key) + t1;
    BlanksSkipped(m.ws1, t0);
    QuotedIsRead(m.key, t1);
    BlanksSkipped(m.ws2, ":" + t2);
    BlanksSkipped(m.ws3, t3);
    QuotedIsRead(m.value, t4);
    BlanksSkipped(m.ws4, rest);
    KeyValueByParts(m.ws1 + t0, Value(m.key), t1, t2, Value(m.value), t4, rest);
    Assembled(m, m.ws1 + t0, t0, t1, t2, t3, t4, rest);
  }

  lemma {:induction false} ReadIsMember(t: string) returns (m: Member)
    requires KeyValue(t).Some?
    ensures m.Valid() && Value(m.key) == KeyValue(t).value.0 && Value(m.value) == KeyValue(t).value.1
    ensures t == m.Text() + KeyValue(t).value.2
  {
    var ws1 := SkippedBlanks(t);
    var t0 := SkipBlanks(t);
    var ks := ReadIsQuoted(t0);
    var t1 := StringLiteral(t0).value.1;
    var ws2 := SkippedBlanks(t1);
    var colon := SkipBlanks(t1);
    var ws3 := SkippedBlanks(colon[1..]);
    var t3 := SkipBlanks(colon[1..]);
    var vs := ReadIsQuoted(t3);
    var t4 := StringLiteral(t3).value.1;
    var ws4 := SkippedBlanks(t4);
    m := Member(ws1, ks, ws2, ws3, vs, ws4);
    assert colon == ":" + colon[1..];
    Assembled(m, t, t0, t1, colon[1..], t3, t4, SkipBlanks(t4));
  }

  lemma {:induction false} Assembled(m: Member, t: string, t0: string, t1: string, t2: string, t3: string, t4: string, rest: string)
    requires t == m.ws1 + t0 && t0 == Quoted(m.key) + t1 && t1 == m.ws2 + (":" + t2)
    requires t2 == m.ws3 + t3 && t3 == Quoted(m.value) + t4 && t4 == m.ws4 + rest
    ensures t == m.Text() + rest
  {
    assert t == m.ws1 + Quoted(m.key) + t1;
    assert t == m.ws1 + Quoted(m.key) + m.ws2 + ":" + t2;
    assert t == m.ws1 + Quoted(m.key) + m.ws2 + ":" + m.ws3 + t3;
    assert t == m.ws1 + Quoted(m.key) + m.ws2 + ":" + m.ws3 + Quoted(m.value) + t4;
  }

  ghost predicate AllValid(ms: seq<Member>) {
    forall i :: 0 <= i < |ms| ==> ms[i].Valid()
  }

  lemma {:induction false} MembersAreRead(ms: seq<Member>, rest: string, found: Found)
    requires ms != [] && AllValid(ms)
    ensures Members(MembersText(ms) + "}" + rest, found) == Some((Collect(ms, found), rest))
  {
    var t := MembersText(ms) + "}" + rest;
    var found' := found.With(Value(ms[0].key), Value(ms[0].value));
    if |ms| == 1 {
      assert t == ms[0].Text() + ("}" + rest);
      MemberIsRead(ms[0], "}" + rest);
      assert ("}" + rest)[1..] == rest;
      assert Collect(ms[1..], found') == found';
    } else {
      var more := MembersText(ms[1..]) + "}" + rest;
      assert t == ms[0].Text() + ("," + more);
      MemberIsRead(ms[0], "," + more);
      assert ("," + more)[1..] == more;
      MembersAreRead(ms[1..], rest, found');
    }
  }

  lemma {:induction false} ReadAreMembers(t: string, found: Found, final: Found, end: string) returns (ms: seq<Member>)
    requires Members(t, found) == Some((final, end))
    ensures ms != [] && AllValid(ms) && Collect(ms, found) == final
    ensures t == MembersText(ms) + "}" + end
    decreases |t|
  {
    var m := ReadIsMember(t);
    var rest := KeyValue(t).value.2;
    var found' := found.With(Value(m.key), Value(m.value));
    MembersStep(t, found);
    if rest[0] == ',' {
      var more := ReadAreMembers(rest[1..], found', final, end);
      ms := MembersCons(m, more, found, final);
      TextJoined(t, m.Text(), rest, MembersText(more), end);
    } else {
      ms := [m];
      assert ms[1..] == [];
      assert Collect([], found') == found';
      assert t == m.Text() + "}" + end;
    }
  }

  lemma {:induction false} TextJoined(t: string, first: string, rest: string, more: string, end: string)
    requires t == first + rest && rest != "" && rest[0] == ',' && rest[1..] == more + "}" + end
    ensures t == first + "," + more + "}" + end
  {
    assert rest == "," + rest[1..];
  }

  lemma {:induction false} MembersCons(m: Member, more: seq<Member>, found: Found, final: Found) returns (ms: seq<Member>)
    requires m.Valid() && more != [] && AllValid(more)
    requires Collect(more, found.With(Value(m.key), Value(m.value))) == final
    ensures ms != [] && AllValid(ms) && Collect(ms, found) == final
    ensures MembersText(ms) == m.Text() + "," + MembersText(more)
  {
    ms := [m] + more;
    assert ms[1..] == more;
  }

  lemma {:induction false} MembersStep(t: string, found: Found)
    requires Members(t, found).Some?
    ensures KeyValue(t).Some? && KeyValue(t).value.2 != ""
    ensures var (key, value, rest) := KeyValue(t).value;
            && (rest[0] == ',' || rest[0] == '}')
            && Members(t, found) ==
               if rest[0] == ',' then Members(rest[1..], found.With(key, value))
               else Some((found.With(key, value), rest[1..]))
  {
  }

  /** A flat object of strings, followed by blanks. */
  function ObjectText(ms: seq<Member>, ws: string): string
    requires ms != []
  {
    "{" + MembersText(ms) + "}" + ws
  }

  /** The text is a flat string-to-string object, nothing trails it, and the
      last values of the two keys are these. */
  ghost predicate Denotes(text: string, exceptionType: string, message: string) {
    exists ms: seq<Member>, ws: string ::
      && ms != [] && AllValid(ms) && AllBlank(ws) && text == ObjectText(ms, ws)
      && LastValue(ms, "exception_type") == Some(exceptionType)
      && LastValue(ms, "exception_message") == Some(message)
  }

  lemma {:induction false} SkippingIsHarmless(s: string, found: Found)
    ensures Members(SkipBlanks(s), found) == Members(s, found)
  {
    var ws := SkippedBlanks(s);
    BlanksSkipped("", SkipBlanks(s));
    assert "" + SkipBlanks(s) == SkipBlanks(s);
  }

  lemma {:induction false} ObjectIsRead(ms: seq<Member>, ws: string)
    requires ms != [] && AllValid(ms) && AllBlank(ws)
    requires LastValue(ms, "exception_type").Some? && LastValue(ms, "exception_message").Some?
    ensures ParseObject(ObjectText(ms, ws)) ==
            Some((LastValue(ms, "exception_type").value, LastValue(ms, "exception_message").value))
  {
    var t := MembersText(ms) + "}" + ws;
    ObjectTextOpens(ms, ws);
    MembersAreRead(ms, ws, Found(None, None));
    CollectIsLast(ms);
    SkippingIsHarmless(t, Found(None, None));
    OnlyBlanks(ws);
    FirstInkIsQuote(ms[0], t);
    ParsedByParts(ObjectText(ms, ws), Collect(ms, Found(None, None)), ws);
  }

  lemma {:induction false} ObjectTextOpens(ms: seq<Member>, ws: string)
    requires ms != []
    ensures ObjectText(ms, ws) != "" && ObjectText(ms, ws)[0] == '{'
    ensures ObjectText(ms, ws)[1..] == MembersText(ms) + "}" + ws
    ensures ms[0].Text() <= MembersText(ms) + "}" + ws
  {
    var members := MembersText(ms);
    assert ms[0].Text() <= members by {
      PrefixOfFirst(ms);
    }
    assert members <= members + "}" + ws;
    assert "{" + members + "}" + ws == "{" + (members + "}" + ws);
  }

  lemma {:induction false} PrefixOfFirst(ms: seq<Member>)
    requires ms != []
    ensures ms[0].Text() <= MembersText(ms)
  {
  }

  lemma {:induction false} OnlyBlanks(ws: string)
    requires AllBlank(ws)
    ensures SkipBlanks(ws) == ""
  {
    BlanksSkipped(ws, "");
    assert ws + "" == ws;
  }

  lemma {:induction false} ParsedByParts(text: string, found: Found, rest: string)
    requires text != "" && text[0] == '{'
    requires SkipBlanks(text[1..]) != "" && SkipBlanks(text[1..])[0] != '}'
    requires Members(SkipBlanks(text[1..]), Found(None, None)) == Some((found, rest)) && SkipBlanks(rest) == ""
    requires found.exceptionType.Some? && found.message.Some?
    ensures ParseObject(text) == Some((found.exceptionType.value, found.message.value))
  {
  }

  lemma {:induction false} FirstInkIsQuote(m: Member, t: string)
    requires m.Valid() && m.Text() <= t
    ensures SkipBlanks(t) != "" && SkipBlanks(t)[0] == '"'
  {
    assert t == m.ws1 + t[|m.ws1|..];
    assert t[|m.ws1|] == m.Text()[|m.ws1|] == '"';
    BlanksSkipped(m.ws1, t[|m.ws1|..]);
  }

  lemma {:induction false} ReadIsObject(text: string, exceptionType: string, message: string)
    requires ParseObject(text) == Some((exceptionType, message))
    ensures Denotes(text, exceptionType, message)
  {
    SkippingIsHarmless(text[1..], Found(None, None));
    var (found, rest) := Members(text[1..], Found(None, None)).value;
    var ms := ReadAreMembers(text[1..], Found(None, None), found, rest);
    var ws := SkippedBlanks(rest);
    CollectIsLast(ms);
    assert ws == rest;
    ObjectTextOpens(ms, ws);
    assert text == "{" + text[1..] && ObjectText(ms, ws) == "{" + ObjectText(ms, ws)[1..];
  }

  /** The exception parser decides its grammar exactly, for every text: it
      returns a type and a message if and only if the trimmed text is, whole,
      a flat object of strings, with blanks anywhere between its parts and
      members in any order, repeated or unknown, whose last two values are
      these. */
  lemma {:induction false} ParserIsGrammar(raw: string, exceptionType: string, message: string)
    ensures ParseException(raw) == Some((exceptionType, message)) <==> Denotes(Trim(raw), exceptionType, message)
  {
    if Denotes(Trim(raw), exceptionType, message) {
      var ms: seq<Member>, ws: string :|
        && ms != [] && AllValid(ms) && AllBlank(ws) && Trim(raw) == ObjectText(ms, ws)
        && LastValue(ms, "exception_type") == Some(exceptionType)
        && LastValue(ms, "exception_message") == Some(message);
      ObjectIsRead(ms, ws);
    }
    if ParseException(raw) == Some((exceptionType, message)) {
      ReadIsObject(Trim(raw), exceptionType, message);
    }
  }

  // ---- Round trip through the whole parser

  ghost predicate AllWhitespace(s: string) {
    forall i :: 0 <= i < |s| ==> IsWhitespace(s[i])
  }

  lemma {:induction false} TrimStartPast(lead: string, s: string)
    requires AllWhitespace(lead) && (s == "" || !IsWhitespace(s[0]))
    ensures TrimStart(lead + s) == s
  {
    if lead == "" {
      assert lead + s == s;
    } else {
      assert (lead + s)[1..] == lead[1..] + s;
      TrimStartPast(lead[1..], s);
    }
  }

  lemma {:induction false} TrimEndPast(s: string, trail: string)
    requires AllWhitespace(trail) && (s == "" || !IsWhitespace(s[|s| - 1]))
    ensures TrimEnd(s + trail) == s
    decreases |trail|
  {
    if trail == "" {
      assert s + trail == s;
    } else {
      assert (s + trail)[..|s + trail| - 1] == s + trail[..|trail| - 1];
      TrimEndPast(s, trail[..|trail| - 1]);
    }
  }

  /** Print any such object with any whitespace around it, and the parser
      returns its last exception type and message. */
  lemma {:induction false} PrintedObjectIsParsed(lead: string, ms: seq<Member>, trail: string)
    requires ms != [] && AllValid(ms) && AllWhitespace(lead) && AllWhitespace(trail)
    requires LastValue(ms, "exception_type").Some? && LastValue(ms, "exception_message").Some?
    ensures ParseException(lead + ObjectText(ms, "") + trail) ==
            Some((LastValue(ms, "exception_type").value, LastValue(ms, "exception_message").value))
  {
    var t := ObjectText(ms, "");
    assert t == "{" + MembersText(ms) + "}";
    assert lead + t + trail == lead + (t + trail);
    TrimStartPast(lead, t + trail);
    TrimEndPast(t, trail);
    ObjectIsRead(ms, "");
  }
}
