/** scripts/check-abi-table.py: reading the fields of `duckdb_ext_api_v1` out of
    a header whose slots sit in conditional bands. */
module HeaderBands {
  import opened Wrappers
  import opened Text
  import opened Versions

  // ---- The two regular expressions

  predicate IsWord(c: char) {
    'a' <= c <= 'z' || 'A' <= c <= 'Z' || IsDigit(c) || c == '_'
  }

  function WordPrefix(s: string): (w: string)
    ensures w <= s
  {
    if s != "" && IsWord(s[0]) then [s[0]] + WordPrefix(s[1..]) else ""
  }

  function DigitPrefix(s: string): (d: string)
    ensures d <= s && AllDigits(d)
  {
    if s != "" && IsDigit(s[0]) then [s[0]] + DigitPrefix(s[1..]) else ""
  }

  lemma {:induction false} DigitsEnd(digits: string, rest: string)
    requires AllDigits(digits) && (rest == "" || !IsDigit(rest[0]))
    ensures DigitPrefix(digits + rest) == digits
  {
    if digits == "" {
      assert digits + rest == rest;
    } else {
      assert (digits + rest)[1..] == digits[1..] + rest;
      DigitsEnd(digits[1..], rest);
    }
  }

  /** `\(\s*\*\s*(duckdb_\w+)\s*\)` at the start of `s`: the captured name. */
  function MatchFnPtr(s: string): Option<string> {
    if !StartsWith(s, "(") then None
    else
      var star := StripLeft(s[1..]);
      if !StartsWith(star, "*") then None
      else
        var rest := StripLeft(star[1..]);
        var name := WordPrefix(rest);
        if "duckdb_" < name && StartsWith(StripLeft(rest[|name|..]), ")") then Some(name) else None
  }

  /** `FN_PTR.search(s)`: the leftmost match. */
  function Search(s: string): Option<string> {
    if s == "" then None
    else if MatchFnPtr(s).Some? then MatchFnPtr(s)
    else Search(s[1..])
  }

  /** A number and what follows it, blanks around it skipped. */
  function ReadNumber(s: string): Option<(nat, string)> {
    var t := StripLeft(s);
    var digits := DigitPrefix(t);
    if digits == "" then None else Some((DecimalValue(digits), StripLeft(t[|digits|..])))
  }

  const AT_LEAST := "DUCKDB_API_VERSION_AT_LEAST("

  /** `^#if\s+DUCKDB_API_VERSION_AT_LEAST\(\s*(\d+)\s*,\s*(\d+)\s*,\s*(\d+)\s*\)$` */
  function MatchAtLeast(s: string): Option<Version> {
    if !StartsWith(s, "#if") || |s| == 3 || !IsSpace(s[3]) then None
    else
      var call := StripLeft(s[3..]);
      if !StartsWith(call, AT_LEAST) then None
      else
        var (major, rest1) :- ReadNumber(call[|AT_LEAST|..]);
        if !StartsWith(rest1, ",") then None
        else
          var (minor, rest2) :- ReadNumber(rest1[1..]);
          if !StartsWith(rest2, ",") then None
          else
            var (patch, rest3) :- ReadNumber(rest2[1..]);
            if rest3 == ")" then Some(Version(major, minor, patch)) else None
  }

  // ---- The scanner of `_struct_entries`

  /** Whether the unstable surface is defined, and the C API version the
      extension targets; `None` is the newest. */
  datatype Target = Target(unstable: bool, api: Option<Version>)

  const NEWEST := Target(true, None)

  /** What a conditional directive tests. */
  datatype Cond = Unstable | AtLeast(band: Version) | Other

  predicate Holds(c: Cond, t: Target) {
    match c
    case Unstable => t.unstable
    case AtLeast(band) => t.api.None? || !Before(t.api.value, band)
    case Other => true
  }

  predicate AllHold(stack: seq<Cond>, t: Target) {
    forall i :: 0 <= i < |stack| ==> Holds(stack[i], t)
  }

  const UNSTABLE_GUARD := "#ifdef DUCKDB_EXTENSION_API_VERSION_UNSTABLE"

  /** What a stripped line is to the scanner. */
  datatype Line = Opens(cond: Cond) | Closes | Directive | Text

  function Classify(stripped: string): Line {
    if !StartsWith(stripped, "#") then Text
    else if StartsWith(stripped, UNSTABLE_GUARD) then Opens(Unstable)
    else if MatchAtLeast(stripped).Some? then Opens(AtLeast(MatchAtLeast(stripped).value))
    else if StartsWith(stripped, "#if") then Opens(Other)
    else if StartsWith(stripped, "#endif") then Closes
    else Directive
  }

  predicate Complete(buf: string) {
    EndsWithChar(Strip(buf), ';')
  }

  datatype Scan = Scan(entries: seq<string>, buf: string, stack: seq<bool>, continued: bool)

  const START := Scan([], "", [], false)

  predicate AllTrue(stack: seq<bool>) {
    forall i :: 0 <= i < |stack| ==> stack[i]
  }

  function Popped<T>(stack: seq<T>): seq<T> {
    if stack == [] then [] else stack[..|stack| - 1]
  }

  /** One line of the loop, for one target. */
  function Step(st: Scan, line: string, t: Target): Scan {
    StepLine(st, Strip(line), Classify(Strip(line)), t)
  }

  function StepLine(st: Scan, stripped: string, kind: Line, t: Target): Scan {
    var continued := EndsWithChar(stripped, '\\');
    if st.continued then st.(continued := continued)
    else
      match kind
      case Opens(c) => st.(stack := st.stack + [Holds(c, t)], continued := continued)
      case Closes => st.(stack := Popped(st.stack), continued := continued)
      case Directive => st.(continued := continued)
      case Text => if AllTrue(st.stack) then StepText(st, st.buf + "\n" + stripped) else st
  }

  function StepText(st: Scan, buf: string): Scan {
    if !Complete(buf) then st.(buf := buf)
    else st.(entries := if Search(buf).Some? then st.entries + [buf] else st.entries, buf := "")
  }

  function Run(st: Scan, lines: seq<string>, t: Target): Scan
    decreases |lines|
  {
    if lines == [] then st else Run(Step(st, lines[0], t), lines[1..], t)
  }

  /** `_struct_entries`, on the lines after `typedef struct {`. */
  method StructEntries(lines: seq<string>, t: Target) returns (entries: seq<string>)
    ensures entries == Run(START, lines, t).entries
  {
    entries := [];
    var buf := "";
    var stack: seq<bool> := [];
    var continued := false;
    var i := 0;
    while i < |lines|
      invariant 0 <= i <= |lines|
      invariant Run(START, lines, t) == Run(Scan(entries, buf, stack, continued), lines[i..], t)
    {
      var stripped := Strip(lines[i]);
      assert lines[i..][1..] == lines[i + 1..];
      i := i + 1;
      if continued {
        continued := EndsWithChar(stripped, '\\');
        continue;
      }
      if StartsWith(stripped, "#") {
        continued := EndsWithChar(stripped, '\\');
        var band := MatchAtLeast(stripped);
        if StartsWith(stripped, UNSTABLE_GUARD) {
          stack := stack + [t.unstable];
        } else if band.Some? {
          stack := stack + [t.api.None? || !Before(t.api.value, band.value)];
        } else if StartsWith(stripped, "#if") {
          stack := stack + [true];
        } else if StartsWith(stripped, "#endif") && stack != [] {
          stack := stack[..|stack| - 1];
        }
        continue;
      }
      if !AllTrue(stack) {
        continue;
      }
      buf := buf + "\n" + stripped;
      if Complete(buf) {
        if Search(buf).Some? {
          entries := entries + [buf];
        }
        buf := "";
      }
    }
  }

  function Names(entries: seq<string>): seq<string>
    requires forall i :: 0 <= i < |entries| ==> Search(entries[i]).Some?
  {
    if entries == [] then []
    else Names(entries[..|entries| - 1]) + [Search(entries[|entries| - 1]).value]
  }

  lemma {:induction false} NamesCount(entries: seq<string>)
    requires forall i :: 0 <= i < |entries| ==> Search(entries[i]).Some?
    ensures |Names(entries)| == |entries|
  {
    if entries != [] {
      NamesCount(entries[..|entries| - 1]);
    }
  }

  lemma {:induction false} NamesAt(entries: seq<string>, i: nat)
    requires (forall k :: 0 <= k < |entries| ==> Search(entries[k]).Some?) && i < |entries|
    ensures |Names(entries)| == |entries| && Some(Names(entries)[i]) == Search(entries[i])
  {
    NamesCount(entries);
    NamesCount(entries[..|entries| - 1]);
    if i < |entries| - 1 {
      NamesAt(entries[..|entries| - 1], i);
    }
  }

  lemma {:induction false} EntriesMatch(st: Scan, lines: seq<string>, t: Target)
    requires forall i :: 0 <= i < |st.entries| ==> Search(st.entries[i]).Some?
    ensures forall i :: 0 <= i < |Run(st, lines, t).entries| ==> Search(Run(st, lines, t).entries[i]).Some?
    decreases |lines|
  {
    if lines != [] {
      EntriesMatch(Step(st, lines[0], t), lines[1..], t);
    }
  }

  /** `struct_fields` */
  function StructFields(lines: seq<string>, t: Target): seq<string> {
    EntriesMatch(START, lines, t);
    Names(Run(START, lines, t).entries)
  }

  // ---- What the bands mean, independently of any target

  /** A field together with the conditions it is declared under. */
  datatype Field = Field(name: string, conds: seq<Cond>)

  datatype Outline = Outline(fields: seq<Field>, buf: string, stack: seq<Cond>, continued: bool)

  const BLANK := Outline([], "", [], false)

  function OutlineStep(o: Outline, line: string): Outline {
    OutlineLine(o, Strip(line), Classify(Strip(line)))
  }

  function OutlineLine(o: Outline, stripped: string, kind: Line): Outline {
    var continued := EndsWithChar(stripped, '\\');
    if o.continued then o.(continued := continued)
    else
      match kind
      case Opens(c) => o.(stack := o.stack + [c], continued := continued)
      case Closes => o.(stack := Popped(o.stack), continued := continued)
      case Directive => o.(continued := continued)
      case Text => OutlineText(o, o.buf + "\n" + stripped)
  }

  function OutlineText(o: Outline, buf: string): Outline {
    if !Complete(buf) then o.(buf := buf)
    else o.(fields := if Search(buf).Some? then o.fields + [Field(Search(buf).value, o.stack)] else o.fields, buf := "")
  }

  function OutlineRun(o: Outline, lines: seq<string>): Outline
    decreases |lines|
  {
    if lines == [] then o else OutlineRun(OutlineStep(o, lines[0]), lines[1..])
  }

  /** Every field of the header with the conditions around it. */
  function Fields(lines: seq<string>): seq<Field> {
    OutlineRun(BLANK, lines).fields
  }

  function Select(fields: seq<Field>, t: Target): seq<string> {
    if fields == [] then []
    else
      var last := fields[|fields| - 1];
      Select(fields[..|fields| - 1], t) + if AllHold(last.conds, t) then [last.name] else []
  }

  /** Pending text that no search sees: nothing is found in it, and nothing
      begins in it. */
  ghost predicate Silent(pending: string) {
    SameSearch(pending, "")
  }

  /** Whatever comes after, a search finds the same. */
  ghost predicate SameSearch(a: string, b: string) {
    forall more :: Search(a + more) == Search(b + more)
  }

  /** No declaration is open when a directive comes: the text pending there
      (blank lines, comments, a return type) is silent. */
  ghost predicate NoStraddle(o: Outline, lines: seq<string>)
    decreases |lines|
  {
    lines == []
    || (&& (!o.continued && StartsWith(Strip(lines[0]), "#") ==> Silent(o.buf))
        && NoStraddle(OutlineStep(o, lines[0]), lines[1..]))
  }

  /** No `(` opens a pointer: each is followed, in the text itself, by something
      else than `*`. A comment may hold any others. */
  predicate Harmless(s: string) {
    forall k :: 0 <= k < |s| && s[k] == '(' ==> Shields(s[k + 1..])
  }

  predicate Shields(rest: string) {
    StripLeft(rest) != "" && StripLeft(rest)[0] != '*'
  }

  lemma {:induction false} ShieldsOn(rest: string, more: string)
    requires Shields(rest)
    ensures Shields(rest + more) && StripLeft(rest + more)[0] == StripLeft(rest)[0]
  {
    if IsSpace(rest[0]) {
      ShieldsOn(rest[1..], more);
      assert (rest + more)[1..] == rest[1..] + more;
    }
  }

  /** Harmless text in front changes nothing that a search finds. */
  lemma {:induction false} SearchPastHarmless(a: string, b: string)
    requires Harmless(a)
    ensures Search(a + b) == Search(b)
  {
    if a == "" {
      assert a + b == b;
    } else {
      var s := a + b;
      assert s[1..] == a[1..] + b && s[0] == a[0];
      assert Harmless(a[1..]) by {
        assert forall k :: 0 <= k < |a| - 1 ==> a[1..][k] == a[k + 1] && a[1..][k + 1..] == a[k + 2..];
      }
      SearchPastHarmless(a[1..], b);
      if a[0] == '(' {
        assert Shields(a[1..]);
        ShieldsOn(a[1..], b);
        NoMatchBehindShield(s);
      }
    }
  }

  lemma {:induction false} NoMatchBehindShield(s: string)
    requires s != "" && Shields(s[1..])
    ensures MatchFnPtr(s).None?
  {
  }

  /** Comments and return types are silent. */
  lemma {:induction false} HarmlessIsSilent(s: string)
    requires Harmless(s)
    ensures Silent(s)
  {
    forall more
      ensures Search(s + more) == Search("" + more)
    {
      SearchPastHarmless(s, more);
      assert "" + more == more;
    }
  }

  lemma {:induction false} SameSearchAppend(a: string, b: string, line: string)
    requires SameSearch(a, b)
    ensures SameSearch(a + line, b + line)
  {
    forall more
      ensures Search(a + line + more) == Search(b + line + more)
    {
      Assoc(a, line, more);
      Assoc(b, line, more);
      assert Search(a + (line + more)) == Search(b + (line + more));
    }
  }

  lemma {:induction false} Assoc(a: string, b: string, c: string)
    ensures a + b + c == a + (b + c)
  {
  }

  // ---- Small facts about pending text

  function LastInk(s: string): Option<char> {
    if s == "" then None
    else if IsSpace(s[|s| - 1]) then LastInk(s[..|s| - 1])
    else Some(s[|s| - 1])
  }

  lemma {:induction false} LastInkStripRight(s: string)
    ensures StripRight(s) == "" ==> LastInk(s).None?
    ensures StripRight(s) != "" ==> LastInk(s) == Some(StripRight(s)[|StripRight(s)| - 1])
  {
    if s != "" && IsSpace(s[|s| - 1]) {
      LastInkStripRight(s[..|s| - 1]);
    }
  }

  lemma {:induction false} LastInkAppend(a: string, b: string)
    ensures LastInk(a + b) == if LastInk(b).Some? then LastInk(b) else LastInk(a)
    decreases |b|
  {
    if b == "" {
      assert a + b == a;
    } else {
      assert (a + b)[..|a + b| - 1] == a + b[..|b| - 1];
      LastInkAppend(a, b[..|b| - 1]);
    }
  }

  lemma {:induction false} LastInkStripLeft(s: string)
    ensures LastInk(StripLeft(s)) == LastInk(s)
  {
    if s != "" && IsSpace(s[0]) {
      LastInkStripLeft(s[1..]);
      LastInkAppend(s[..1], s[1..]);
      assert s == s[..1] + s[1..];
      assert s[..1][..0] == "";
    }
  }

  lemma {:induction false} CompleteByInk(s: string)
    ensures Complete(s) <==> LastInk(s) == Some(';')
  {
    LastInkStripLeft(s);
    LastInkStripRight(StripLeft(s));
  }

  /** Whether a line completes the pending text does not depend on what is
      pending, as long as that is not complete itself. */
  lemma {:induction false} CompletionByLine(a: string, b: string, line: string)
    requires !Complete(a) && !Complete(b)
    ensures Complete(a + "\n" + line) <==> Complete(b + "\n" + line)
  {
    CompleteByInk(a);
    CompleteByInk(b);
    CompleteByInk(a + "\n" + line);
    CompleteByInk(b + "\n" + line);
    LastInkAppend(a + "\n", line);
    LastInkAppend(b + "\n", line);
    LastInkAppend(a, "\n");
    LastInkAppend(b, "\n");
    assert "\n"[..0] == "";
  }

  lemma {:induction false} CompletionAfter(buf: string, stripped: string)
    requires !Complete(buf)
    ensures Complete(buf + "\n" + stripped) <==> LastInk(stripped) == Some(';')
  {
    CompleteByInk(buf);
    CompleteByInk(buf + "\n" + stripped);
    LastInkAppend(buf + "\n", stripped);
    LastInkAppend(buf, "\n");
    assert "\n"[..0] == "";
  }

  // ---- Main result: a band is a filter

  predicate SameStack(stack: seq<bool>, conds: seq<Cond>, t: Target) {
    |stack| == |conds| && forall i :: 0 <= i < |conds| ==> stack[i] == Holds(conds[i], t)
  }

  /** The scanner for one target next to the outline of the same header. */
  ghost predicate Tracks(st: Scan, o: Outline, t: Target) {
    && SameStack(st.stack, o.stack, t)
    && st.continued == o.continued
    && !Complete(st.buf) && !Complete(o.buf)
    && (forall i :: 0 <= i < |st.entries| ==> Search(st.entries[i]).Some?)
    && Names(st.entries) == Select(o.fields, t)
    && SameSearch(st.buf, if AllHold(o.stack, t) then o.buf else "")
  }

  lemma {:induction false} TracksLine(st: Scan, o: Outline, stripped: string, kind: Line, t: Target)
    requires Tracks(st, o, t)
    requires !o.continued && !kind.Text? ==> Silent(o.buf)
    ensures Tracks(StepLine(st, stripped, kind, t), OutlineLine(o, stripped, kind), t)
  {
    var continued := EndsWithChar(stripped, '\\');
    if o.continued {
    } else if kind.Text? {
      TracksText(st, o, stripped, t);
    } else {
      match kind
      case Opens(c) =>
        SameStackMoves(st.stack, o.stack, c, t);
        TracksStack(st, o, st.stack + [Holds(c, t)], o.stack + [c], continued, t);
      case Closes =>
        SameStackMoves(st.stack, o.stack, Other, t);
        TracksStack(st, o, Popped(st.stack), Popped(o.stack), continued, t);
      case _ =>
        TracksStack(st, o, st.stack, o.stack, continued, t);
    }
  }

  /** Outside declarations, the stacks may change together. */
  lemma {:induction false} TracksStack(st: Scan, o: Outline, stack: seq<bool>, conds: seq<Cond>, continued: bool, t: Target)
    requires Tracks(st, o, t) && Silent(o.buf) && SameStack(stack, conds, t)
    ensures Tracks(st.(stack := stack, continued := continued), o.(stack := conds, continued := continued), t)
  {
  }

  lemma {:induction false} SameStackMoves(stack: seq<bool>, conds: seq<Cond>, c: Cond, t: Target)
    requires SameStack(stack, conds, t)
    ensures SameStack(stack + [Holds(c, t)], conds + [c], t) && SameStack(Popped(stack), Popped(conds), t)
  {
  }

  lemma {:induction false} SearchAlike(a: string, b: string)
    requires SameSearch(a, b)
    ensures Search(a) == Search(b)
  {
    assert Search(a + "") == Search(b + "");
    assert a + "" == a && b + "" == b;
  }

  lemma {:induction false} TracksText(st: Scan, o: Outline, stripped: string, t: Target)
    requires Tracks(st, o, t)
    ensures Tracks(if AllTrue(st.stack) then StepText(st, st.buf + "\n" + stripped) else st,
                   OutlineText(o, o.buf + "\n" + stripped), t)
  {
    var mine, full := st.buf + "\n" + stripped, o.buf + "\n" + stripped;
    assert AllTrue(st.stack) <==> AllHold(o.stack, t);
    if AllTrue(st.stack) {
      SameSearchAppend(st.buf, o.buf, "\n");
      SameSearchAppend(st.buf + "\n", o.buf + "\n", stripped);
      SearchAlike(mine, full);
      CompletionByLine(st.buf, o.buf, stripped);
      TracksActive(st, o, mine, full, t);
    } else {
      TracksHidden(st, o, full, t);
    }
  }

  /** A text line in an active band. */
  lemma {:induction false} TracksActive(st: Scan, o: Outline, mine: string, full: string, t: Target)
    requires Tracks(st, o, t) && AllHold(o.stack, t)
    requires Complete(mine) <==> Complete(full)
    requires Search(mine) == Search(full) && SameSearch(mine, full)
    ensures Tracks(StepText(st, mine), OutlineText(o, full), t)
  {
    CompleteByInk("");
    if Complete(mine) && Search(mine).Some? {
      assert (st.entries + [mine])[..|st.entries|] == st.entries;
      SelectLast(o.fields, Field(Search(full).value, o.stack), t);
    }
  }

  /** A text line in a band the target does not have. */
  lemma {:induction false} TracksHidden(st: Scan, o: Outline, full: string, t: Target)
    requires Tracks(st, o, t) && !AllHold(o.stack, t)
    ensures Tracks(st, OutlineText(o, full), t)
  {
    CompleteByInk("");
    if Search(full).Some? {
      SelectLast(o.fields, Field(Search(full).value, o.stack), t);
    }
  }

  lemma {:induction false} SelectLast(fields: seq<Field>, f: Field, t: Target)
    ensures Select(fields + [f], t) == Select(fields, t) + if AllHold(f.conds, t) then [f.name] else []
  {
    assert (fields + [f])[..|fields|] == fields;
  }

  lemma {:induction false} TracksRun(st: Scan, o: Outline, lines: seq<string>, t: Target)
    requires Tracks(st, o, t) && NoStraddle(o, lines)
    ensures Tracks(Run(st, lines, t), OutlineRun(o, lines), t)
    decreases |lines|
  {
    if lines != [] {
      TracksLine(st, o, Strip(lines[0]), Classify(Strip(lines[0])), t);
      TracksRun(Step(st, lines[0], t), OutlineStep(o, lines[0]), lines[1..], t);
    }
  }

  /** For every target, the fields kept are exactly the fields of the header
      whose conditions all hold, in the header's order: whatever the nesting
      of the bands, the continuation lines and the text between them. */
  lemma {:induction false} BandsAreFilters(lines: seq<string>, t: Target)
    requires NoStraddle(BLANK, lines)
    ensures StructFields(lines, t) == Select(Fields(lines), t)
  {
    assert Tracks(START, BLANK, t) by {
      CompleteByInk("");
    }
    TracksRun(START, BLANK, lines, t);
  }

  ghost predicate IsSubsequence(a: seq<string>, b: seq<string>)
    decreases |b|
  {
    || a == []
    || (&& b != []
        && (|| (a[|a| - 1] == b[|b| - 1] && IsSubsequence(a[..|a| - 1], b[..|b| - 1]))
            || IsSubsequence(a, b[..|b| - 1])))
  }

  /** `u` sees at least what `t` sees. */
  predicate AtMost(t: Target, u: Target) {
    && (t.unstable ==> u.unstable)
    && (u.api.None? || (t.api.Some? && !Before(u.api.value, t.api.value)))
  }

  lemma {:induction false} AllHoldMonotone(conds: seq<Cond>, t: Target, u: Target)
    requires AtMost(t, u)
    ensures AllHold(conds, t) ==> AllHold(conds, u)
  {
    if AllHold(conds, t) {
      forall i | 0 <= i < |conds|
        ensures Holds(conds[i], u)
      {
        assert Holds(conds[i], t);
      }
    }
  }

  lemma {:induction false} SubsequenceGrows(a: seq<string>, b: seq<string>, x: string)
    requires IsSubsequence(a, b)
    ensures IsSubsequence(a, b + [x]) && IsSubsequence(a + [x], b + [x])
  {
    assert (a + [x])[..|a|] == a && (b + [x])[..|b|] == b;
  }

  lemma {:induction false} SelectMonotone(fields: seq<Field>, t: Target, u: Target)
    requires AtMost(t, u)
    ensures IsSubsequence(Select(fields, t), Select(fields, u))
  {
    if fields != [] {
      var front, f := fields[..|fields| - 1], fields[|fields| - 1];
      assert fields == front + [f];
      SelectMonotone(front, t, u);
      SelectLast(front, f, t);
      SelectLast(front, f, u);
      SubsequenceGrows(Select(front, t), Select(front, u), f.name);
      AllHoldMonotone(f.conds, t, u);
      assert Select(front, t) + [] == Select(front, t) && Select(front, u) + [] == Select(front, u);
    }
  }

  /** Targeting a later C API, or adding the unstable surface, only adds
      fields: the smaller target's are an ordered subsequence. */
  lemma {:induction false} BandsAreMonotone(lines: seq<string>, t: Target, u: Target)
    requires NoStraddle(BLANK, lines) && AtMost(t, u)
    ensures IsSubsequence(StructFields(lines, t), StructFields(lines, u))
    ensures IsSubsequence(StructFields(lines, t), StructFields(lines, NEWEST))
  {
    BandsAreFilters(lines, t);
    BandsAreFilters(lines, u);
    BandsAreFilters(lines, NEWEST);
    SelectMonotone(Fields(lines), t, u);
    SelectMonotone(Fields(lines), t, NEWEST);
  }
}
