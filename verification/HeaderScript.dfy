/** check-abi-table.py on the headers of HeaderTwin: what its line scanner reads
    in them, and when that is what is declared. */
module HeaderScript {
  import opened Wrappers
  import opened Text
  import opened HeaderBands
  import opened HeaderTwin

  // ---- What the script makes of a header

  function AsSeq(name: Option<string>): seq<string> {
    if name.Some? then [name.value] else []
  }

  /** Text that names `own`, with a declaration of `pending` still open before
      it: the first name wins, and the entry is made where a line ends in `;`. */
  function Close(pending: Option<string>, own: Option<string>, ends: bool): (seq<string>, Option<string>) {
    var first := if pending.Some? then pending else own;
    if ends then (AsSeq(first), None) else ([], first)
  }

  /** The last line of a declaration decides, and so does a comment line. */
  predicate EndsHere(item: Item) {
    match item
    case Pointer(_, _, tail) => tail != [] && Ends(tail[|tail| - 1])
    case Filler(line) => Ends(line)
    case Conditional(_) => false
  }

  function Effect(item: Item, pending: Option<string>): (seq<string>, Option<string>) {
    match item
    case Pointer(_, mark, _) => Close(pending, Some(mark.name), EndsHere(item))
    case Filler(_) => Close(pending, None, EndsHere(item))
    case Conditional(_) => ([], pending)
  }

  /** The names read, and the declaration still open at the end. */
  function Fold(items: seq<Item>, pending: Option<string>): (seq<string>, Option<string>) {
    if items == [] then ([], pending)
    else
      var (names, next) := Effect(items[0], pending);
      var (more, last) := Fold(items[1..], next);
      (names + more, last)
  }

  /** What the script reads: a declaration still open at the end is lost. */
  function Kept(items: seq<Item>): seq<string> {
    Fold(items, None).0
  }

  /** Each declaration is ended, by a `;` at the end of its last line or of a
      comment line after it, before the next one begins and before the struct
      ends; `open` says whether one is waiting. */
  predicate EachEnded(items: seq<Item>, open: bool) {
    if items == [] then !open
    else
      match items[0]
      case Pointer(_, _, _) => !open && EachEnded(items[1..], !EndsHere(items[0]))
      case Filler(_) => EachEnded(items[1..], open && !EndsHere(items[0]))
      case Conditional(_) => EachEnded(items[1..], open)
  }

  lemma {:induction false} FoldIsExact(items: seq<Item>, pending: Option<string>)
    ensures EachEnded(items, pending.Some?) ==> Fold(items, pending).0 == AsSeq(pending) + PointerNames(items)
    ensures !EachEnded(items, pending.Some?) ==> |Fold(items, pending).0| < |AsSeq(pending)| + |PointerNames(items)|
  {
    if items != [] {
      var item, rest := items[0], items[1..];
      var (names, next) := Effect(item, pending);
      FoldIsExact(rest, next);
      Assoc3(names, AsSeq(next), PointerNames(rest));
      Assoc3(AsSeq(pending), OwnNames(item), PointerNames(rest));
      EffectIsExact(item, pending);
    }
  }

  /** An item keeps all names in play unless it is a declaration that finds
      another still open. */
  lemma {:induction false} EffectIsExact(item: Item, pending: Option<string>)
    ensures var (names, next) := Effect(item, pending);
            if item.Pointer? && pending.Some? then |names| + |AsSeq(next)| == 1
            else names + AsSeq(next) == AsSeq(pending) + OwnNames(item)
  {
  }

  lemma {:induction false} Assoc3(a: seq<string>, b: seq<string>, c: seq<string>)
    ensures a + b + c == a + (b + c)
  {
  }

  /** The script reads what is declared if and only if each declaration is ended
      in time; otherwise it reads too few. */
  lemma {:induction false} KeptIsExact(items: seq<Item>)
    ensures Kept(items) == PointerNames(items) <==> EachEnded(items, false)
    ensures !EachEnded(items, false) ==> |Kept(items)| < |PointerNames(items)|
  {
    FoldIsExact(items, None);
    assert AsSeq(None) + PointerNames(items) == PointerNames(items);
  }

  lemma {:induction false} FoldAppend(a: seq<Item>, b: seq<Item>, pending: Option<string>)
    ensures var (names, next) := Fold(a, pending);
            var (more, last) := Fold(b, next);
            Fold(a + b, pending) == (names + more, last)
  {
    if a == [] {
      assert a + b == b;
      assert [] + Fold(b, pending).0 == Fold(b, pending).0;
    } else {
      assert (a + b)[1..] == a[1..] + b && (a + b)[0] == a[0];
      var (names, next) := Effect(a[0], pending);
      FoldAppend(a[1..], b, next);
      var (more, last) := Fold(a[1..], next);
      assert names + (more + Fold(b, last).0) == names + more + Fold(b, last).0;
    }
  }

  // ---- Pending text

  /** What a search finds after this text, whatever follows. */
  ghost predicate Pends(text: string, name: Option<string>) {
    forall more :: Search(text + more) == if name.Some? then name else Search(more)
  }

  lemma {:induction false} HarmlessPends(s: string)
    requires Harmless(s)
    ensures Pends(s, None)
  {
    forall more
      ensures Search(s + more) == Search(more)
    {
      SearchPastHarmless(s, more);
    }
  }

  lemma {:induction false} PendsAppend(a: string, pending: Option<string>, b: string, own: Option<string>)
    requires Pends(a, pending) && (pending.Some? || Pends(b, own))
    ensures Pends(a + b, if pending.Some? then pending else own)
  {
    forall more
      ensures Search(a + b + more) == if pending.Some? then pending else if own.Some? then own else Search(more)
    {
      Assoc(a, b, more);
      assert Search(a + (b + more)) == if pending.Some? then pending else Search(b + more);
    }
  }

  lemma {:induction false} PendsFound(text: string, name: Option<string>)
    requires Pends(text, name)
    ensures Search(text) == name
  {
    assert Search(text + "") == if name.Some? then name else Search("");
    assert text + "" == text;
  }

  // ---- One line

  /** The scanner between two lines, in a band that is not hidden. */
  ghost predicate Between(st: Scan, pending: Option<string>) {
    && AllTrue(st.stack) && !st.continued && !Complete(st.buf) && Pends(st.buf, pending)
    && forall i :: 0 <= i < |st.entries| ==> Search(st.entries[i]).Some?
  }

  /** From one state to another, having read `names`. */
  ghost predicate Reads(st: Scan, done: Scan, names: seq<string>, pending: Option<string>) {
    && (forall i :: 0 <= i < |st.entries| ==> Search(st.entries[i]).Some?)
    && Between(done, pending) && Names(done.entries) == Names(st.entries) + names
  }

  lemma {:induction false} ReadsOn(st: Scan, mid: Scan, done: Scan, first: seq<string>, p: Option<string>, rest: seq<string>, q: Option<string>)
    requires Reads(st, mid, first, p) && Reads(mid, done, rest, q)
    ensures Reads(st, done, first + rest, q)
  {
    assert Names(st.entries) + first + rest == Names(st.entries) + (first + rest);
  }

  lemma {:induction false} ReadsNothing(st: Scan, pending: Option<string>)
    requires Between(st, pending)
    ensures Reads(st, st, [], pending)
  {
    assert Names(st.entries) + [] == Names(st.entries);
  }

  lemma {:induction false} EntryAdded(entries: seq<string>, e: string)
    requires forall i :: 0 <= i < |entries| ==> Search(entries[i]).Some?
    requires Search(e).Some?
    ensures Names(entries + [e]) == Names(entries) + [Search(e).value]
  {
    assert (entries + [e])[..|entries|] == entries;
  }

  lemma {:induction false} TextLine(st: Scan, line: string, t: Target)
    requires !st.continued && AllTrue(st.stack) && !StartsWith(Strip(line), "#")
    ensures Step(st, line, t) == StepText(st, st.buf + "\n" + Strip(line))
  {
  }

  lemma {:induction false} LineStep(st: Scan, pending: Option<string>, line: string, own: Option<string>, t: Target)
    requires Between(st, pending) && !StartsWith(Strip(line), "#")
    requires pending.Some? || Pends(Strip(line), own)
    ensures var (names, next) := Close(pending, own, Ends(Strip(line)));
            Reads(st, Step(st, line, t), names, next)
  {
    var buf := st.buf + "\n" + Strip(line);
    var first := if pending.Some? then pending else own;
    HarmlessPends("\n");
    PendsAppend(st.buf, pending, "\n", None);
    PendsAppend(st.buf + "\n", pending, Strip(line), own);
    CompletionAfter(st.buf, Strip(line));
    TextLine(st, line, t);
    BufStep(st, buf, first);
  }

  lemma {:induction false} BufStep(st: Scan, buf: string, first: Option<string>)
    requires AllTrue(st.stack) && !st.continued && Pends(buf, first)
    requires forall i :: 0 <= i < |st.entries| ==> Search(st.entries[i]).Some?
    ensures if Complete(buf) then Reads(st, StepText(st, buf), AsSeq(first), None)
            else Reads(st, StepText(st, buf), [], first)
  {
    PendsFound(buf, first);
    assert Names(st.entries) + [] == Names(st.entries);
    if Complete(buf) {
      CompleteByInk("");
      HarmlessPends("");
      if first.Some? {
        EntryAdded(st.entries, buf);
      }
    }
  }

  lemma {:induction false} ContinuationRun(st: Scan, lines: seq<string>, t: Target)
    requires st.continued == (lines != [])
    requires forall i :: 0 <= i < |lines| ==> (EndsWithChar(Strip(lines[i]), '\\') <==> i < |lines| - 1)
    ensures Run(st, lines, t) == st.(continued := false)
    decreases |lines|
  {
    if lines != [] {
      assert EndsWithChar(Strip(lines[0]), '\\') <==> 0 < |lines| - 1;
      ContinuationRun(Step(st, lines[0], t), lines[1..], t);
    }
  }

  /** A directive's continuation lines do nothing: only its first line counts. */
  lemma {:induction false} DirectiveRun(st: Scan, lines: seq<string>, t: Target)
    requires !st.continued && Conditional(lines).Legal()
    ensures Run(st, lines, t) == Step(st, lines[0], t).(continued := false)
    ensures Classify(Strip(lines[0])) != HeaderBands.Text
  {
    assert EndsWithChar(Strip(lines[0]), '\\') <==> 0 < |lines| - 1;
    forall i | 0 <= i < |lines[1..]|
      ensures EndsWithChar(Strip(lines[1..][i]), '\\') <==> i < |lines[1..]| - 1
    {
      assert lines[1..][i] == lines[i + 1];
    }
    ContinuationRun(Step(st, lines[0], t), lines[1..], t);
  }

  lemma {:induction false} RunAppend(st: Scan, a: seq<string>, b: seq<string>, t: Target)
    ensures Run(st, a + b, t) == Run(Run(st, a, t), b, t)
    decreases |a|
  {
    if a == [] {
      assert a + b == b;
    } else {
      assert (a + b)[1..] == a[1..] + b;
      RunAppend(Step(st, a[0], t), a[1..], b, t);
    }
  }

  // ---- A declaration

  lemma {:induction false} MarkMatches(mark: Mark, rest: string)
    requires mark.Legal()
    ensures MatchFnPtr(mark.Text() + rest) == Some(mark.name)
  {
    var closed := ")" + rest;
    var named := mark.name + (mark.gap3 + closed);
    var starred := "*" + (mark.gap2 + named);
    PlainBlanks(mark.gap1);
    PlainBlanks(mark.gap2);
    PlainBlanks(mark.gap3);
    assert mark.name[0] == 'd';
    MarkText(mark, rest);
    BlanksPast(mark.gap1, starred);
    BlanksPast(mark.gap2, named);
    BlanksPast(mark.gap3, closed);
    assert (mark.gap3 + closed)[0] == if mark.gap3 == "" then ')' else mark.gap3[0];
    WordPrefixPast(mark.name, mark.gap3 + closed);
    MatchByParts(mark.Text() + rest, mark.gap1 + starred, mark.gap2 + named, named, mark.name, mark.gap3 + closed, closed);
  }

  lemma {:induction false} MarkText(mark: Mark, rest: string)
    ensures mark.Text() + rest == "(" + (mark.gap1 + ("*" + (mark.gap2 + (mark.name + (mark.gap3 + (")" + rest))))))
  {
  }

  lemma {:induction false} MatchByParts(s: string, afterParen: string, afterStar: string, named: string, name: string, afterName: string, closed: string)
    requires s == "(" + afterParen && StripLeft(afterParen) == "*" + afterStar && StripLeft(afterStar) == named
    requires named == name + afterName && WordPrefix(named) == name && "duckdb_" < name
    requires StripLeft(afterName) == closed && StartsWith(closed, ")")
    ensures MatchFnPtr(s) == Some(name)
  {
    assert s[1..] == afterParen && ("*" + afterStar)[1..] == afterStar && named[|name|..] == afterName;
  }

  lemma {:induction false} MatchIsFound(s: string)
    requires MatchFnPtr(s).Some?
    ensures Search(s) == MatchFnPtr(s)
  {
  }

  /** A declaration's first line names its pointer before any other. */
  lemma {:induction false} FirstLinePends(lead: string, mark: Mark, tail: string)
    requires Harmless(StripLeft(lead)) && mark.Legal()
    ensures Pends(StripLeft(lead) + (mark.Text() + tail), Some(mark.name))
  {
    forall more
      ensures Search(mark.Text() + tail + more) == Some(mark.name)
    {
      Assoc(mark.Text(), tail, more);
      MarkMatches(mark, tail + more);
      MatchIsFound(mark.Text() + (tail + more));
    }
    HarmlessPends(StripLeft(lead));
    PendsAppend(StripLeft(lead), None, mark.Text() + tail, Some(mark.name));
  }

  predicate NoDirectives(lines: seq<string>) {
    forall i :: 0 <= i < |lines| ==> !StartsWith(Strip(lines[i]), "#")
  }

  /** The other lines of a declaration: the last one may end it. */
  lemma {:induction false} TailRun(st: Scan, name: string, tail: seq<string>, t: Target)
    requires Between(st, Some(name)) && tail != [] && NoDirectives(tail)
    requires forall i :: 0 <= i < |tail| - 1 ==> !Ends(tail[i])
    ensures var (names, next) := Close(Some(name), None, Ends(tail[|tail| - 1]));
            Reads(st, Run(st, tail, t), names, next)
    decreases |tail|
  {
    LineStep(st, Some(name), tail[0], None, t);
    StripParts(tail[0]);
    var mid := Step(st, tail[0], t);
    assert Run(st, tail, t) == Run(mid, tail[1..], t);
    if |tail| == 1 {
      assert tail[1..] == [];
    } else {
      var rest := tail[1..];
      assert forall i :: 0 <= i < |rest| ==> rest[i] == tail[i + 1];
      TailRun(mid, name, rest, t);
      var (names, next) := Close(Some(name), None, Ends(tail[|tail| - 1]));
      ReadsOn(st, mid, Run(mid, rest, t), [], Some(name), names, next);
      assert [] + names == names;
    }
  }

  lemma {:induction false} PointerRun(st: Scan, pending: Option<string>, lead: string, mark: Mark, tail: seq<string>, t: Target)
    requires Between(st, pending) && Pointer(lead, mark, tail).Legal()
    ensures var item := Pointer(lead, mark, tail);
            Reads(st, Run(st, item.Lines(), t), Effect(item, pending).0, Effect(item, pending).1)
  {
    var item := Pointer(lead, mark, tail);
    var line, rest := FirstLine(lead, mark, tail[0]), tail[1..];
    FirstLineStripped(lead, mark, tail[0]);
    FirstLinePends(lead, mark, StripRight(tail[0]));
    LineStep(st, pending, line, Some(mark.name), t);
    var mid := Step(st, line, t);
    assert item.Lines()[0] == line && item.Lines()[1..] == rest;
    assert Run(st, item.Lines(), t) == Run(mid, rest, t);
    if |tail| > 1 {
      var first := if pending.Some? then pending.value else mark.name;
      assert forall i :: 0 <= i < |rest| ==> rest[i] == tail[i + 1];
      TailRun(mid, first, rest, t);
      var (names, next) := Effect(item, pending);
      ReadsOn(st, mid, Run(mid, rest, t), [], Some(first), names, next);
      assert [] + names == names;
    }
  }

  lemma {:induction false} FillerRun(st: Scan, pending: Option<string>, line: string, t: Target)
    requires Between(st, pending) && Filler(line).Legal()
    ensures Reads(st, Run(st, [line], t), Effect(Filler(line), pending).0, Effect(Filler(line), pending).1)
  {
    HarmlessPends(Strip(line));
    LineStep(st, pending, line, None, t);
    StripParts(line);
    assert [line][1..] == [];
  }

  // ---- The whole header

  /** With every band in, a directive leaves all as it is. */
  lemma {:induction false} DirectiveKeeps(st: Scan, pending: Option<string>, lines: seq<string>)
    requires Between(st, pending) && Conditional(lines).Legal()
    ensures Reads(st, Run(st, lines, NEWEST), [], pending)
  {
    DirectiveRun(st, lines, NEWEST);
    DirectiveStep(st, lines[0]);
    ReadsNothing(st, pending);
  }

  lemma {:induction false} DirectiveStep(st: Scan, line: string)
    requires !st.continued && AllTrue(st.stack) && Classify(Strip(line)) != HeaderBands.Text
    ensures var next := Step(st, line, NEWEST);
            AllTrue(next.stack) && next.buf == st.buf && next.entries == st.entries
  {
  }

  lemma {:induction false} ItemRun(st: Scan, pending: Option<string>, item: Item)
    requires Between(st, pending) && item.Legal()
    ensures Reads(st, Run(st, item.Lines(), NEWEST), Effect(item, pending).0, Effect(item, pending).1)
  {
    match item
    case Pointer(lead, mark, tail) =>
      PointerRun(st, pending, lead, mark, tail, NEWEST);
    case Conditional(lines) =>
      DirectiveKeeps(st, pending, lines);
    case Filler(line) =>
      FillerRun(st, pending, line, NEWEST);
  }

  lemma {:induction false} ItemsRun(st: Scan, pending: Option<string>, items: seq<Item>)
    requires Between(st, pending) && AllLegal(items)
    ensures Reads(st, Run(st, AllLines(items), NEWEST), Fold(items, pending).0, Fold(items, pending).1)
    decreases |items|
  {
    if items == [] {
      ReadsNothing(st, pending);
    } else {
      var first, rest := items[0], items[1..];
      var mid := Run(st, first.Lines(), NEWEST);
      var (names, next) := Effect(first, pending);
      assert first.Legal();
      ItemRun(st, pending, first);
      ItemsRun(mid, next, rest);
      ReadsOn(st, mid, Run(mid, AllLines(rest), NEWEST), names, next, Fold(rest, next).0, Fold(rest, next).1);
      RunAppend(st, first.Lines(), AllLines(rest), NEWEST);
    }
  }

  lemma {:induction false} StartIsBetween()
    ensures Between(START, None)
  {
    CompleteByInk("");
    HarmlessPends("");
  }

  /** The script, for every such header: the first name of each run of
      declarations up to a line that ends in `;`. */
  lemma {:induction false} ScriptReads(items: seq<Item>)
    requires AllLegal(items)
    ensures StructFields(Split(Rendered(items), '\n')[1..], NEWEST) == Kept(items)
  {
    RenderedLines(items);
    var lines := AllLines(items) + [""];
    assert ([OPEN] + lines)[1..] == lines;
    StartIsBetween();
    ItemsRun(START, None, items);
    var st, pending := Run(START, AllLines(items), NEWEST), Fold(items, None).1;
    RunAppend(START, AllLines(items), [""], NEWEST);
    assert Filler("").Legal();
    FillerRun(st, pending, "", NEWEST);
    assert Names(START.entries) + Kept(items) == Kept(items);
    assert Kept(items) + [] == Kept(items);
  }

  // ---- The two readers

  /** On every header made of declarations, directives without alternatives and
      comment lines, the two readers agree if and only if the declarations
      whose mark is tight are the ones that the script keeps. */
  lemma {:induction false} ReadersAgree(items: seq<Item>)
    requires AllLegal(items)
    ensures ApiFields(Rendered(items)) == Ok(StructFields(Split(Rendered(items), '\n')[1..], NEWEST))
            <==> TightNames(items) == Kept(items) != []
  {
    BuildReads(items);
    ScriptReads(items);
  }

  predicate AllTight(items: seq<Item>) {
    forall i :: 0 <= i < |items| && items[i].Pointer? ==> Tight(items[i])
  }

  lemma {:induction false} TightIsExact(items: seq<Item>)
    ensures AllTight(items) ==> TightNames(items) == PointerNames(items)
    ensures !AllTight(items) ==> |TightNames(items)| < |PointerNames(items)|
    ensures |TightNames(items)| <= |PointerNames(items)|
  {
    if items != [] {
      TightIsExact(items[1..]);
      assert items == [items[0]] + items[1..];
    }
  }

  /** Each is right about a header under a condition of its own: build.rs if and
      only if no mark has a blank before its star, the script if and only if
      each declaration is ended in time. */
  lemma {:induction false} EachReaderIsRight(items: seq<Item>)
    requires AllLegal(items) && PointerNames(items) != []
    ensures ApiFields(Rendered(items)) == Ok(PointerNames(items)) <==> AllTight(items)
    ensures StructFields(Split(Rendered(items), '\n')[1..], NEWEST) == PointerNames(items) <==> EachEnded(items, false)
  {
    BuildReads(items);
    ScriptReads(items);
    TightIsExact(items);
    KeptIsExact(items);
  }

  /** A blank before the star: build.rs finds no field at all. */
  lemma {:induction false} LooseMarkExample(mark: Mark)
    requires mark.Legal() && mark.gap1 != ""
    ensures var items := [Pointer("", mark, ["();"])];
            && ApiFields(Rendered(items)) == Err(NoFields)
            && StructFields(Split(Rendered(items), '\n')[1..], NEWEST) == [mark.name]
  {
    var items := [Pointer("", mark, ["();"])];
    assert Plain("();") && Ends("();");
    assert items[0].Legal() && items[1..] == [];
    assert Fold([], None) == ([], None);
    assert Fold(items, None) == ([mark.name] + [], None);
    assert TightNames(items) == [] + TightNames([]);
    BuildReads(items);
    ScriptReads(items);
  }

  /** A comment after the semicolon: the script drops the next declaration,
      whatever the two are called and whatever the comment says. */
  lemma {:induction false} TrailingCommentExample(a: Mark, b: Mark, comment: string)
    requires a.Legal() && b.Legal() && a.gap1 == "" && b.gap1 == ""
    requires Plain(comment) && LastInk(comment).Some? && !Ends(comment)
    ensures var items := [Pointer("", a, ["(); // " + comment]), Pointer("", b, ["();"])];
            && ApiFields(Rendered(items)) == Ok([a.name, b.name])
            && StructFields(Split(Rendered(items), '\n')[1..], NEWEST) == [a.name]
  {
    var first, second := Pointer("", a, ["(); // " + comment]), Pointer("", b, ["();"]);
    var items := [first, second];
    CommentAfter(comment);
    assert Plain("();") && Ends("();");
    assert first.Legal() && second.Legal();
    TwoDeclarations(first, second);
    BuildReads(items);
    ScriptReads(items);
  }

  lemma {:induction false} TwoDeclarations(first: Item, second: Item)
    requires Tight(first) && Tight(second) && !EndsHere(first) && EndsHere(second)
    ensures TightNames([first, second]) == [first.mark.name, second.mark.name]
    ensures Kept([first, second]) == [first.mark.name]
  {
    var items := [first, second];
    assert items[1..] == [second] && [second][1..] == [];
    assert Fold([], None) == ([], None);
    assert Fold([second], Some(first.mark.name)) == ([first.mark.name] + [], None);
    assert TightNames([second]) == [second.mark.name] + TightNames([]);
    assert TightNames(items) == [first.mark.name] + TightNames([second]);
  }

  lemma {:induction false} CommentAfter(comment: string)
    requires Plain(comment) && LastInk(comment).Some? && !Ends(comment)
    ensures Plain("(); // " + comment) && !Ends("(); // " + comment)
  {
    assert Plain("(); // ");
    PlainAppend("(); // ", comment);
    LastInkAppend("(); // ", comment);
  }
}
