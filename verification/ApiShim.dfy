/** build.rs: the C file generated from the field names, what a C compiler reads
    in it, and the struct it fills. */
module ApiShim {
  import opened Wrappers
  import opened Text
  import opened Versions
  import opened HeaderBands
  import opened HeaderTwin
  import opened HeaderScript

  // ---- The text

  const SIZE_OPEN := "size_t quack_rs_api_v1_size(void) { return "
  const SIZE_CLOSE := " * sizeof(void *); }"
  const SLOT_OPEN := "    slots["
  const SLOT_MIDDLE := "] = (void *)"
  const SLOT_CLOSE := ";"
  const COMMENT := "/* Generated by quack-rs's build.rs " + "from duckdb_extension.h. Do not edit. */"
  const VERSION_OPEN := "const char *quack_rs_header_" + "duckdb_version(void) { return "

  function SizeLine(n: nat): string {
    SIZE_OPEN + (PrintDecimal(n) + SIZE_CLOSE)
  }

  function SlotLine(slot: nat, field: string): string {
    SLOT_OPEN + (PrintDecimal(slot) + (SLOT_MIDDLE + (field + SLOT_CLOSE)))
  }

  /** The lines for the fields from `from` on. */
  function SlotLines(fields: seq<string>, from: nat): seq<string>
    requires from <= |fields|
    decreases |fields| - from
  {
    if from == |fields| then [] else [SlotLine(from, fields[from])] + SlotLines(fields, from + 1)
  }

  function Before(): seq<string> {
    [COMMENT,
     "#include \"duckdb.h\"", "#include <stddef.h>", ""]
  }

  /** `origin` is the C string literal that names the headers' directory. */
  function Between(origin: string): seq<string> {
    ["", VERSION_OPEN + origin + "; }", "",
     "void quack_rs_fill_api_v1(void *out) {", "    void **slots = (void **)out;"]
  }

  function ShimLines(fields: seq<string>, origin: string): seq<string> {
    Before() + ([SizeLine(|fields|)] + (Between(origin) + (SlotLines(fields, 0) + ["}"])))
  }

  function WithBreaks(lines: seq<string>): string {
    if lines == [] then "" else lines[0] + "\n" + WithBreaks(lines[1..])
  }

  method GeneratedCShim(fields: seq<string>, origin: string) returns (c: string)
    ensures c == WithBreaks(ShimLines(fields, origin))
  {
    var fixed := Before() + ([SizeLine(|fields|)] + Between(origin));
    c := WriteSlots(WithBreaks(fixed), fields);
    c := c + ("}" + "\n");
    JoinParts(fixed, SlotLines(fields, 0), "}");
    assert ShimLines(fields, origin) == fixed + (SlotLines(fields, 0) + ["}"]);
  }

  /** The loop over the fields. */
  method WriteSlots(start: string, fields: seq<string>) returns (c: string)
    ensures c == start + WithBreaks(SlotLines(fields, 0))
  {
    c := start;
    assert start + WithBreaks(SlotLines(fields, 0)) == c + WithBreaks(SlotLines(fields, 0));
    for i := 0 to |fields|
      invariant c + WithBreaks(SlotLines(fields, i)) == start + WithBreaks(SlotLines(fields, 0))
    {
      var line := SlotLine(i, fields[i]);
      assert SlotLines(fields, i)[1..] == SlotLines(fields, i + 1);
      Regroup(c, line, WithBreaks(SlotLines(fields, i + 1)));
      c := c + (line + "\n");
    }
    assert c + "" == c;
  }

  lemma {:induction false} Regroup(c: string, line: string, rest: string)
    ensures c + (line + "\n" + rest) == c + (line + "\n") + rest
  {
  }

  lemma {:induction false} JoinParts(a: seq<string>, b: seq<string>, last: string)
    ensures WithBreaks(a + (b + [last])) == WithBreaks(a) + WithBreaks(b) + (last + "\n")
  {
    BreaksAppend(a, b + [last]);
    BreaksAppend(b, [last]);
    OneLine(last);
  }

  lemma {:induction false} OneLine(line: string)
    ensures WithBreaks([line]) == line + "\n"
  {
    assert [line][1..] == [];
    assert line + "\n" + "" == line + "\n";
  }

  lemma {:induction false} BreaksAppend(a: seq<string>, b: seq<string>)
    ensures WithBreaks(a + b) == WithBreaks(a) + WithBreaks(b)
  {
    if a == [] {
      assert a + b == b;
    } else {
      assert (a + b)[1..] == a[1..] + b;
      BreaksAppend(a[1..], b);
    }
  }

  // ---- Reading it

  /** What a line of the C file does. */
  datatype Statement =
    | Include(file: string)
    | ReturnSize(pointers: nat)
    | ReturnVersion(literal: string)
    | BeginFill                           // the function that takes `out`
    | DeclareSlots                        // `out` as an array of pointers
    | Assign(slot: nat, symbol: string)
    | EndFunction

  const READ_SIZE := "size_t quack_rs_api_v1_size(void) { return "
  const READ_SLOT := "    slots["
  const READ_VERSION := "const char *quack_rs_header_" + "duckdb_version(void) { return "

  function ReadSize(line: string): Option<Statement> {
    if !(READ_SIZE <= line) then None
    else
      var rest := line[|READ_SIZE|..];
      var digits := DigitPrefix(rest);
      if digits != "" && rest[|digits|..] == " * sizeof(void *); }" then Some(ReturnSize(DecimalValue(digits))) else None
  }

  function ReadSlot(line: string): Option<Statement> {
    if !(READ_SLOT <= line) then None
    else
      var rest := line[|READ_SLOT|..];
      var digits := DigitPrefix(rest);
      var after := rest[|digits|..];
      if digits == "" || !("] = (void *)" <= after) then None
      else
        var value := after[12..];
        var name := WordPrefix(value);
        if value[|name|..] == ";" then Some(Assign(DecimalValue(digits), name)) else None
  }

  function ReadBetween(line: string, open: string, close: string): Option<string> {
    if open <= line && |line| >= |open| + |close| && line[|line| - |close|..] == close
    then Some(line[|open|..|line| - |close|])
    else None
  }

  function ReadFixed(line: string): seq<Statement> {
    if line == "" then []
    else
      match line[0]
      case '#' =>
        if line == "#include \"duckdb.h\"" then [Include("duckdb.h")]
        else if line == "#include <stddef.h>" then [Include("stddef.h")]
        else []
      case 'c' =>
        var literal := ReadBetween(line, READ_VERSION, "; }");
        if literal.Some? then [ReturnVersion(literal.value)] else []
      case 'v' => if line == "void quack_rs_fill_api_v1(void *out) {" then [BeginFill] else []
      case ' ' => if line == "    void **slots = (void **)out;" then [DeclareSlots] else []
      case '}' => if line == "}" then [EndFunction] else []
      case _ => []
  }

  function ReadLine(line: string): seq<Statement> {
    if ReadSize(line).Some? then [ReadSize(line).value]
    else if ReadSlot(line).Some? then [ReadSlot(line).value]
    else ReadFixed(line)
  }

  function ReadLines(lines: seq<string>): seq<Statement> {
    if lines == [] then [] else ReadLine(lines[0]) + ReadLines(lines[1..])
  }

  function ReadC(text: string): seq<Statement> {
    ReadLines(Split(text, '\n'))
  }

  lemma {:induction false} Tail(a: string, b: string)
    ensures a <= a + b && (a + b)[|a|..] == b
  {
  }

  lemma {:induction false} SizeIsRead(n: nat)
    ensures ReadLine(SizeLine(n)) == [ReturnSize(n)]
  {
    var digits := PrintDecimal(n);
    Tail(SIZE_OPEN, digits + SIZE_CLOSE);
    Tail(digits, SIZE_CLOSE);
    assert SIZE_CLOSE[0] == ' ';
    DigitsEnd(digits, SIZE_CLOSE);
  }

  lemma {:induction false} SlotIsRead(slot: nat, field: string)
    requires WordPrefix(field) == field
    ensures ReadLine(SlotLine(slot, field)) == [Assign(slot, field)]
  {
    var digits, value := PrintDecimal(slot), field + SLOT_CLOSE;
    Tail(SLOT_OPEN, digits + (SLOT_MIDDLE + value));
    Tail(digits, SLOT_MIDDLE + value);
    Tail(SLOT_MIDDLE, value);
    Tail(field, SLOT_CLOSE);
    assert SLOT_MIDDLE[0] == ']' && (SLOT_MIDDLE + value)[0] == ']';
    DigitsEnd(digits, SLOT_MIDDLE + value);
    WordPrefixPast(field, SLOT_CLOSE);
    StartsWithBlank(SlotLine(slot, field));
  }

  lemma {:induction false} StartsWithBlank(line: string)
    requires line != "" && line[0] != 's'
    ensures ReadSize(line).None?
  {
    assert READ_SIZE[0] == 's';
  }

  /** A line that is neither. */
  predicate Other(line: string) {
    '\n' !in line && (line == "" || (line[0] != 's' && (line[0] != ' ' || (|line| > 4 && line[4] != 's'))))
  }

  lemma {:induction false} OtherIsFixed(line: string)
    requires Other(line)
    ensures ReadLine(line) == ReadFixed(line)
  {
    if line != "" {
      StartsWithBlank(line);
      NotASlot(line);
    }
  }

  lemma {:induction false} NotASlot(line: string)
    requires line != "" && (line[0] != ' ' || (|line| > 4 && line[4] != 's'))
    ensures ReadSlot(line).None?
  {
    assert READ_SLOT[0] == ' ' && READ_SLOT[4] == 's';
  }

  lemma {:induction false} ReadAppend(lines: seq<string>, more: seq<string>)
    ensures ReadLines(lines + more) == ReadLines(lines) + ReadLines(more)
  {
    if lines == [] {
      assert lines + more == more;
    } else {
      assert (lines + more)[1..] == lines[1..] + more;
      ReadAppend(lines[1..], more);
    }
  }

  lemma {:induction false} ReadCons(line: string, more: seq<string>)
    ensures ReadLines([line] + more) == ReadLine(line) + ReadLines(more)
  {
    assert ([line] + more)[1..] == more;
  }

  function Assigns(fields: seq<string>, from: nat): seq<Statement>
    requires from <= |fields|
    decreases |fields| - from
  {
    if from == |fields| then [] else [Assign(from, fields[from])] + Assigns(fields, from + 1)
  }

  ghost predicate AllWords(fields: seq<string>) {
    forall i :: 0 <= i < |fields| ==> WordPrefix(fields[i]) == fields[i]
  }

  lemma {:induction false} SlotsAreRead(fields: seq<string>, from: nat, more: seq<string>)
    requires from <= |fields| && AllWords(fields)
    ensures ReadLines(SlotLines(fields, from) + more) == Assigns(fields, from) + ReadLines(more)
    decreases |fields| - from
  {
    if from == |fields| {
      assert [] + more == more && [] + ReadLines(more) == ReadLines(more);
    } else {
      SlotIsRead(from, fields[from]);
      SlotsAreRead(fields, from + 1, more);
      ReadsOn(SlotLine(from, fields[from]), Assign(from, fields[from]),
              SlotLines(fields, from + 1), Assigns(fields, from + 1), more);
    }
  }

  lemma {:induction false} ReadsOn(line: string, s: Statement, lines: seq<string>, c: seq<Statement>, more: seq<string>)
    requires ReadLine(line) == [s] && ReadLines(lines + more) == c + ReadLines(more)
    ensures ReadLines([line] + lines + more) == [s] + c + ReadLines(more)
  {
    Joined([line], lines, more);
    ReadCons(line, lines + more);
    Joined([s], c, ReadLines(more));
  }

  lemma {:induction false} Joined<T>(a: seq<T>, b: seq<T>, c: seq<T>)
    ensures a + b + c == a + (b + c)
  {
  }

  predicate AllOther(lines: seq<string>) {
    forall i :: 0 <= i < |lines| ==> Other(lines[i])
  }

  lemma {:induction false} FourOthers(a: string, b: string, c: string, d: string)
    requires Other(a) && Other(b) && Other(c) && Other(d)
    ensures AllOther([a, b, c, d])
  {
  }

  lemma {:induction false} FiveOthers(a: string, b: string, c: string, d: string, e: string)
    requires Other(a) && Other(b) && Other(c) && Other(d) && Other(e)
    ensures AllOther([a, b, c, d, e])
  {
  }

  function Includes(): seq<Statement> {
    [Include("duckdb.h"), Include("stddef.h")]
  }

  function Opening(origin: string): seq<Statement> {
    [ReturnVersion(origin), BeginFill, DeclareSlots]
  }

  lemma {:induction false} BeforeIsRead()
    ensures AllOther(Before()) && ReadLines(Before()) == Includes()
  {
    CommentIsOther();
    var b, c := "#include \"duckdb.h\"", "#include <stddef.h>";
    assert Other(b) && Other(c);
    FourOthers(COMMENT, b, c, "");
    FourLines(COMMENT, b, c, "");
    assert ReadFixed(b) == [Include("duckdb.h")] && ReadFixed(c) == [Include("stddef.h")] && ReadFixed("") == [];
  }

  lemma {:induction false} FourLines(a: string, b: string, c: string, d: string)
    requires Other(a) && Other(b) && Other(c) && Other(d)
    ensures ReadLines([a, b, c, d]) == ReadFixed(a) + (ReadFixed(b) + (ReadFixed(c) + ReadFixed(d)))
  {
    OneOther(d);
    OtherCons(c, [d]);
    OtherCons(b, [c] + [d]);
    OtherCons(a, [b] + ([c] + [d]));
    ListOfFour(a, b, c, d);
  }

  lemma {:induction false} ListOfFour<T>(a: T, b: T, c: T, d: T)
    ensures [a] + ([b] + ([c] + [d])) == [a, b, c, d]
  {
  }

  lemma {:induction false} OneOther(line: string)
    requires Other(line)
    ensures ReadLines([line]) == ReadFixed(line)
  {
    OtherIsFixed(line);
    assert [line][1..] == [];
  }

  lemma {:induction false} OtherCons(line: string, more: seq<string>)
    requires Other(line)
    ensures ReadLines([line] + more) == ReadFixed(line) + ReadLines(more)
  {
    OtherIsFixed(line);
    assert ([line] + more)[1..] == more;
  }

  lemma {:induction false} FillHeadIsRead()
    ensures ReadFixed("void quack_rs_fill_api_v1(void *out) {") == [BeginFill]
    ensures ReadFixed("    void **slots = (void **)out;") == [DeclareSlots]
    ensures Other("void quack_rs_fill_api_v1(void *out) {") && Other("    void **slots = (void **)out;")
    ensures ReadFixed("") == []
  {
  }

  lemma {:induction false} BetweenIsRead(origin: string)
    requires '\n' !in origin
    ensures AllOther(Between(origin)) && ReadLines(Between(origin)) == Opening(origin)
  {
    VersionIsOther(origin);
    FillHeadIsRead();
    var v, d, e := VERSION_OPEN + origin + "; }", "void quack_rs_fill_api_v1(void *out) {", "    void **slots = (void **)out;";
    FiveOthers("", v, "", d, e);
    FiveLines("", v, "", d, e);
  }

  lemma {:induction false} FiveLines(a: string, b: string, c: string, d: string, e: string)
    requires Other(a) && Other(b) && Other(c) && Other(d) && Other(e)
    ensures ReadLines([a, b, c, d, e]) == ReadFixed(a) + (ReadFixed(b) + (ReadFixed(c) + (ReadFixed(d) + ReadFixed(e))))
  {
    FourLines(b, c, d, e);
    OtherCons(a, [b, c, d, e]);
    FirstOfFive(a, b, c, d, e);
  }

  lemma {:induction false} FirstOfFive<T>(a: T, b: T, c: T, d: T, e: T)
    ensures [a] + [b, c, d, e] == [a, b, c, d, e]
  {
  }

  lemma {:induction false} CommentIsOther()
    ensures Other(COMMENT) && ReadFixed(COMMENT) == []
  {
    var a, b := "/* Generated by quack-rs's build.rs ", "from duckdb_extension.h. Do not edit. */";
    assert '\n' !in a && '\n' !in b && a[0] == '/';
    assert COMMENT == a + b;
  }

  lemma {:induction false} BetweenIsCut(open: string, text: string, close: string)
    ensures ReadBetween(open + text + close, open, close) == Some(text)
  {
    var line := open + text + close;
    assert line[|line| - |close|..] == close && line[|open|..|line| - |close|] == text;
    assert open <= line;
  }

  lemma {:induction false} VersionIsOther(origin: string)
    requires '\n' !in origin
    ensures Other(VERSION_OPEN + origin + "; }")
    ensures ReadFixed(VERSION_OPEN + origin + "; }") == [ReturnVersion(origin)]
  {
    var a, b := "const char *quack_rs_header_", "duckdb_version(void) { return ";
    assert '\n' !in a && '\n' !in b && '\n' !in "; }" && a[0] == 'c';
    assert VERSION_OPEN == a + b;
    var line := VERSION_OPEN + origin + "; }";
    assert line[0] == a[0];
    assert VERSION_OPEN == READ_VERSION;
    BetweenIsCut(READ_VERSION, origin, "; }");
  }

  /** All the generated file does, in order: it reports one pointer per field,
      takes the struct for an array of pointers, and assigns field `i` to slot
      `i`, each once. */
  lemma {:induction false} ShimReads(fields: seq<string>, origin: string)
    requires '\n' !in origin && AllWords(fields)
    ensures ReadC(WithBreaks(ShimLines(fields, origin))) ==
            Includes() + ([ReturnSize(|fields|)] + (Opening(origin) + (Assigns(fields, 0) + [EndFunction])))
  {
    BeforeIsRead();
    BetweenIsRead(origin);
    SlotsHaveNoBreak(fields, 0);
    SizeHasNoBreak(|fields|);
    NoBreaks(Before(), SizeLine(|fields|), Between(origin), SlotLines(fields, 0));
    SplitWithBreaks(ShimLines(fields, origin));
    PartsRead(Before(), Between(origin), fields);
  }

  lemma {:induction false} NoBreaks(before: seq<string>, size: string, between: seq<string>, slots: seq<string>)
    requires AllOther(before) && AllOther(between) && '\n' !in size
    requires forall i :: 0 <= i < |slots| ==> '\n' !in slots[i]
    ensures var lines := before + ([size] + (between + (slots + ["}"])));
            forall i :: 0 <= i < |lines| ==> '\n' !in lines[i]
  {
    assert '\n' !in "}";
  }

  lemma {:induction false} PartsRead(before: seq<string>, between: seq<string>, fields: seq<string>)
    requires AllWords(fields)
    ensures ReadLines(before + ([SizeLine(|fields|)] + (between + (SlotLines(fields, 0) + ["}"]))) + [""])
            == ReadLines(before) + ([ReturnSize(|fields|)] + (ReadLines(between) + (Assigns(fields, 0) + [EndFunction])))
  {
    var end := ["}"] + [""];
    var slots := SlotLines(fields, 0) + end;
    var fromSize := [SizeLine(|fields|)] + (between + slots);
    Nested(before, [SizeLine(|fields|)], between, SlotLines(fields, 0), ["}"], [""]);
    ReadAppend(before, fromSize);
    ReadCons(SizeLine(|fields|), between + slots);
    SizeIsRead(|fields|);
    ReadAppend(between, slots);
    SlotsAreRead(fields, 0, end);
    EndIsRead();
  }

  lemma {:induction false} EndIsRead()
    ensures ReadLines(["}"] + [""]) == [EndFunction]
  {
    assert Other("}") && Other("");
    OneOther("");
    OtherCons("}", [""]);
    assert ReadFixed("}") == [EndFunction] && ReadFixed("") == [];
  }

  lemma {:induction false} Nested(a: seq<string>, b: seq<string>, c: seq<string>, d: seq<string>, e: seq<string>, f: seq<string>)
    ensures a + (b + (c + (d + e))) + f == a + (b + (c + (d + (e + f))))
  {
  }

  lemma {:induction false} Head<T>(s: seq<T>, more: seq<T>)
    requires s != []
    ensures s + more == [s[0]] + (s[1..] + more)
  {
  }

  lemma {:induction false} SplitLine(line: string, rest: string)
    requires '\n' !in line
    ensures Split(line + "\n" + rest, '\n') == [line] + Split(rest, '\n')
  {
    SplitCons(line, '\n', rest);
  }

  lemma {:induction false} SplitWithBreaks(lines: seq<string>)
    requires forall i :: 0 <= i < |lines| ==> '\n' !in lines[i]
    ensures Split(WithBreaks(lines), '\n') == lines + [""]
  {
    if lines == [] {
      SplitHead("", '\n');
    } else {
      SplitWithBreaks(lines[1..]);
      SplitLine(lines[0], WithBreaks(lines[1..]));
      Head(lines, [""]);
    }
  }

  lemma {:induction false} SizeHasNoBreak(n: nat)
    ensures '\n' !in SizeLine(n)
  {
    var digits := PrintDecimal(n);
    assert forall i :: 0 <= i < |digits| ==> IsDigit(digits[i]);
    assert '\n' !in SIZE_OPEN && '\n' !in SIZE_CLOSE;
  }

  lemma {:induction false} SlotHasNoBreak(slot: nat, field: string)
    requires WordPrefix(field) == field
    ensures '\n' !in SlotLine(slot, field)
  {
    var digits := PrintDecimal(slot);
    assert forall i :: 0 <= i < |digits| ==> IsDigit(digits[i]);
    assert '\n' !in SLOT_OPEN && '\n' !in SLOT_MIDDLE && '\n' !in SLOT_CLOSE;
    WordPrefixPast(field, "");
    assert field + "" == field;
    assert forall i :: 0 <= i < |field| ==> IsWord(field[i]);
  }

  lemma {:induction false} SlotsHaveNoBreak(fields: seq<string>, from: nat)
    requires from <= |fields| && AllWords(fields)
    ensures forall i :: 0 <= i < |SlotLines(fields, from)| ==> '\n' !in SlotLines(fields, from)[i]
    decreases |fields| - from
  {
    if from < |fields| {
      SlotHasNoBreak(from, fields[from]);
      SlotsHaveNoBreak(fields, from + 1);
    }
  }

  // ---- Running it

  /** The statements of the fill function: those after its head. */
  function FillBody(c: seq<Statement>): seq<Statement> {
    if c == [] then [] else if c[0].BeginFill? then c[1..] else FillBody(c[1..])
  }

  function SizeOf(c: seq<Statement>): Option<nat> {
    if c == [] then None else if c[0].ReturnSize? then Some(c[0].pointers) else SizeOf(c[1..])
  }

  /** Runs the fill function's statements on the caller's slots, which it can
      assign once it has declared them. */
  function Fill(c: seq<Statement>, declared: bool, slots: seq<Option<string>>): seq<Option<string>> {
    if c == [] || c[0].EndFunction? then slots
    else if c[0].DeclareSlots? then Fill(c[1..], true, slots)
    else if c[0].Assign? && declared && c[0].slot < |slots| then
      Fill(c[1..], declared, slots[c[0].slot := Some(c[0].symbol)])
    else Fill(c[1..], declared, slots)
  }

  lemma {:induction false} FillCons(slot: nat, symbol: string, c: seq<Statement>, slots: seq<Option<string>>)
    requires slot < |slots|
    ensures Fill([Assign(slot, symbol)] + c, true, slots) == Fill(c, true, slots[slot := Some(symbol)])
  {
    assert ([Assign(slot, symbol)] + c)[1..] == c;
  }

  lemma {:induction false} FillFrom(fields: seq<string>, from: nat, slots: seq<Option<string>>)
    requires from <= |fields| == |slots|
    requires forall i :: 0 <= i < from ==> slots[i] == Some(fields[i])
    ensures var filled := Fill(Assigns(fields, from) + [EndFunction], true, slots);
            |filled| == |fields| && forall i :: 0 <= i < |fields| ==> filled[i] == Some(fields[i])
    decreases |fields| - from
  {
    if from < |fields| {
      FillCons(from, fields[from], Assigns(fields, from + 1) + [EndFunction], slots);
      Head(Assigns(fields, from), [EndFunction]);
      FillFrom(fields, from + 1, slots[from := Some(fields[from])]);
    }
  }

  lemma {:induction false} FileRuns(n: nat, origin: string, rest: seq<Statement>, slots: seq<Option<string>>)
    ensures var c := Includes() + ([ReturnSize(n)] + (Opening(origin) + rest));
            SizeOf(c) == Some(n) && Fill(FillBody(c), false, slots) == Fill(rest, true, slots)
  {
    FileParts(n, origin, rest);
    assert ([DeclareSlots] + rest)[1..] == rest;
  }

  lemma {:induction false} FileParts(n: nat, origin: string, rest: seq<Statement>)
    ensures var c := Includes() + ([ReturnSize(n)] + (Opening(origin) + rest));
            SizeOf(c) == Some(n) && FillBody(c) == [DeclareSlots] + rest
  {
    var body := [DeclareSlots] + rest;
    var d := [BeginFill] + body;
    var e := [ReturnVersion(origin)] + d;
    var f := [ReturnSize(n)] + e;
    var g := [Include("stddef.h")] + f;
    Regrouped(Include("duckdb.h"), Include("stddef.h"), f);
    RegroupedThree(ReturnVersion(origin), BeginFill, DeclareSlots, rest);
    Skips(Include("duckdb.h"), g);
    Skips(Include("stddef.h"), f);
    Skips(ReturnSize(n), e);
    Skips(ReturnVersion(origin), d);
    Skips(BeginFill, body);
  }

  lemma {:induction false} Regrouped<T>(a: T, b: T, rest: seq<T>)
    ensures [a, b] + rest == [a] + ([b] + rest)
  {
  }

  lemma {:induction false} RegroupedThree<T>(a: T, b: T, c: T, rest: seq<T>)
    ensures [a, b, c] + rest == [a] + ([b] + ([c] + rest))
  {
  }

  lemma {:induction false} Skips(s: Statement, rest: seq<Statement>)
    ensures FillBody([s] + rest) == if s.BeginFill? then rest else FillBody(rest)
    ensures SizeOf([s] + rest) == if s.ReturnSize? then Some(s.pointers) else SizeOf(rest)
  {
    assert ([s] + rest)[1..] == rest;
  }

  /** From a header's text to the struct: the C file generated from it, read as C
      and run on a struct of the size it reports, leaves in slot `i` the `i`-th
      declaration that build.rs finds; where the two readers agree, that is the
      `i`-th name that check-abi-table.py reads. */
  method ShimMatchesScript(items: seq<Item>, origin: string, slots: seq<Option<string>>)
    returns (size: nat, filled: seq<Option<string>>)
    requires AllLegal(items) && TightNames(items) != [] && '\n' !in origin
    requires |slots| == |TightNames(items)|
    ensures size == |slots| == |filled|
    ensures forall i :: 0 <= i < |filled| ==> filled[i] == Some(TightNames(items)[i])
    ensures TightNames(items) == Kept(items) ==>
              var read := StructFields(Split(Rendered(items), '\n')[1..], NEWEST);
              |filled| == |read| && forall i :: 0 <= i < |read| ==> filled[i] == Some(read[i])
  {
    BuildReads(items);
    ScriptReads(items);
    NamesAreWords(items);
    var fields := ExtApiV1Fields(Rendered(items));
    var text := GeneratedCShim(fields.value, origin);
    ShimReads(fields.value, origin);
    var c := ReadC(text);
    FileRuns(|fields.value|, origin, Assigns(fields.value, 0) + [EndFunction], slots);
    FillFrom(fields.value, 0, slots);
    size := SizeOf(c).value;
    filled := Fill(FillBody(c), false, slots);
  }

  lemma {:induction false} NamesAreWords(items: seq<Item>)
    requires AllLegal(items)
    ensures AllWords(TightNames(items))
  {
    if items != [] {
      assert items[0].Legal();
      NamesAreWords(items[1..]);
    }
  }
}
