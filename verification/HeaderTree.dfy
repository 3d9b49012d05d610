/** What check-abi-table.py's line scanner computes, said on the header's
    nesting instead of on its lines: for every target, the pointers of the
    bands that target has, and of no other. */
module HeaderTree {
  import opened Wrappers
  import opened Text
  import opened Versions
  import opened HeaderBands
  import opened HeaderTwin
  import opened HeaderScript

  const GUARD := "#ifdef DUCKDB_EXTENSION_API_VERSION_UNSTABLE"
  const VERSION_MACRO := "DUCKDB_API_VERSION_AT_LEAST("

  /** What the preprocessor tests in a band's opening line. The unstable guard
      is a whole word; a condition that is neither is one every target meets. */
  function Condition(stripped: string): Cond {
    if GUARD <= stripped && !LongerGuard(stripped) then Unstable
    else if MatchAtLeast(stripped).Some? then AtLeast(MatchAtLeast(stripped).value)
    else Other
  }

  /** A macro whose name only begins like the guard's. */
  predicate LongerGuard(stripped: string) {
    GUARD < stripped && IsWord(stripped[|GUARD|])
  }

  /** Whether the preprocessor takes the band, with the header's own
      definition of the version test. */
  predicate Taken(c: Cond, t: Target) {
    match c
    case Unstable => t.unstable
    case AtLeast(band) =>
      t.api.None?
      || t.api.value.major > band.major
      || (t.api.value.major == band.major
          && (|| t.api.value.minor > band.minor
              || (t.api.value.minor == band.minor && t.api.value.patch >= band.patch)))
    case Other => true
  }

  lemma {:induction false} HoldsIsTaken(c: Cond, t: Target)
    ensures Holds(c, t) <==> Taken(c, t)
  {
  }

  /** The script's reading of a directive's first line, but for a macro that
      only begins like the guard. */
  lemma {:induction false} DirectiveIsRead(stripped: string)
    requires "#" <= stripped
    ensures "#if" <= stripped && !LongerGuard(stripped) ==> Classify(stripped) == Opens(Condition(stripped))
    ensures "#endif" <= stripped ==> Classify(stripped).Closes?
    ensures !("#if" <= stripped) && !("#endif" <= stripped) ==> Classify(stripped).Directive?
  {
    SameGuard();
    if "#endif" <= stripped {
      assert stripped[1] == 'e' && GUARD[1] == 'i';
    }
    if !("#if" <= stripped) {
      NotAGuard(stripped);
    }
  }

  lemma {:induction false} SameGuard()
    ensures UNSTABLE_GUARD == GUARD && AT_LEAST == VERSION_MACRO
  {
  }

  lemma {:induction false} NotAGuard(stripped: string)
    requires !("#if" <= stripped)
    ensures !(GUARD <= stripped)
  {
    assert "#if" <= GUARD;
  }

  /** A struct body as nested `#if ... #endif` bands. */
  datatype Tree =
    | Done
    | Leaf(item: Item, rest: Tree)
    | Band(open: seq<string>, body: Tree, close: seq<string>, rest: Tree)
  {
    function Lines(): seq<string> {
      match this
      case Done => []
      case Leaf(item, rest) => item.Lines() + rest.Lines()
      case Band(open, body, close, rest) => open + (body.Lines() + (close + rest.Lines()))
    }

    predicate Legal() {
      match this
      case Done => true
      case Leaf(item, rest) =>
        && item.Legal() && rest.Legal()
        && (item.Conditional? ==> !("#if" <= Strip(item.lines[0])) && !("#endif" <= Strip(item.lines[0])))
      case Band(open, body, close, rest) =>
        && Conditional(open).Legal() && "#if" <= Strip(open[0]) && !LongerGuard(Strip(open[0]))
        && Conditional(close).Legal() && "#endif" <= Strip(close[0])
        && body.Legal() && rest.Legal()
    }

    /** What the preprocessor leaves for `t`. */
    function Present(t: Target): seq<Item>
      requires Legal()
    {
      match this
      case Done => []
      case Leaf(item, rest) => [item] + rest.Present(t)
      case Band(open, body, close, rest) =>
        (if Taken(Condition(Strip(open[0])), t) then body.Present(t) else []) + rest.Present(t)
    }

    function Visible(t: Target): seq<string>
      requires Legal()
    {
      PointerNames(Present(t))
    }
  }

  /** Text never moves the stack, and in a hidden band it does nothing. */
  lemma {:induction false} TextRun(st: Scan, lines: seq<string>, t: Target)
    requires !st.continued && NoDirectives(lines)
    ensures var done := Run(st, lines, t);
            done.stack == st.stack && !done.continued && (!AllTrue(st.stack) ==> done == st)
    decreases |lines|
  {
    if lines != [] {
      TextRun(Step(st, lines[0], t), lines[1..], t);
    }
  }

  lemma {:induction false} TextItem(item: Item)
    requires item.Legal() && !item.Conditional?
    ensures NoDirectives(item.Lines())
  {
    if item.Pointer? {
      FirstLineStripped(item.lead, item.mark, item.tail[0]);
    }
  }

  /** The scanner before and after the part of the header that these items are
      for the target: nothing moves in a hidden band. */
  ghost predicate Keeps(st: Scan, pending: Option<string>, done: Scan, items: seq<Item>) {
    && done.stack == st.stack && !done.continued
    && if AllTrue(st.stack) then Reads(st, done, Fold(items, pending).0, Fold(items, pending).1) else done == st
  }

  ghost predicate Ready(st: Scan, pending: Option<string>) {
    !st.continued && (AllTrue(st.stack) ==> Between(st, pending))
  }

  lemma {:induction false} KeepsOn(st: Scan, pending: Option<string>, mid: Scan, a: seq<Item>, done: Scan, b: seq<Item>)
    requires Keeps(st, pending, mid, a) && Keeps(mid, Fold(a, pending).1, done, b)
    ensures Keeps(st, pending, done, a + b)
  {
    FoldAppend(a, b, pending);
    if AllTrue(st.stack) {
      var (names, next) := Fold(a, pending);
      ReadsOn(st, mid, done, names, next, Fold(b, next).0, Fold(b, next).1);
    }
  }

  lemma {:induction false} OneItem(item: Item, pending: Option<string>)
    ensures Fold([item], pending) == Effect(item, pending)
  {
    var (names, next) := Effect(item, pending);
    assert [item][1..] == [];
    assert names + [] == names;
  }

  lemma {:induction false} LeafRun(st: Scan, pending: Option<string>, item: Item, t: Target)
    requires Ready(st, pending) && item.Legal()
    requires item.Conditional? ==> !("#if" <= Strip(item.lines[0])) && !("#endif" <= Strip(item.lines[0]))
    ensures Keeps(st, pending, Run(st, item.Lines(), t), [item])
  {
    OneItem(item, pending);
    if item.Conditional? {
      DirectiveIsRead(Strip(item.lines[0]));
      DirectiveRun(st, item.lines, t);
      if AllTrue(st.stack) {
        ReadsNothing(st, pending);
      }
    } else {
      TextItem(item);
      TextRun(st, item.Lines(), t);
      if AllTrue(st.stack) && item.Pointer? {
        PointerRun(st, pending, item.lead, item.mark, item.tail, t);
      } else if AllTrue(st.stack) {
        FillerRun(st, pending, item.line, t);
      }
    }
  }

  /** A band: its body is read exactly when its condition holds. */
  lemma {:induction false} BandRun(st: Scan, pending: Option<string>, band: Tree, inside: Scan, t: Target)
    requires band.Band? && band.Legal() && Ready(st, pending)
    requires var cond := Condition(Strip(band.open[0]));
             Keeps(st.(stack := st.stack + [Taken(cond, t)]), pending, inside, band.body.Present(t))
    ensures var cond := Condition(Strip(band.open[0]));
            Keeps(st, pending, Run(inside, band.close, t), if Taken(cond, t) then band.body.Present(t) else [])
  {
    var cond := Condition(Strip(band.open[0]));
    DirectiveIsRead(Strip(band.close[0]));
    DirectiveRun(inside, band.close, t);
    assert inside.stack[..|inside.stack| - 1] == st.stack;
    assert AllTrue(inside.stack) <==> AllTrue(st.stack) && Taken(cond, t) by {
      assert inside.stack[|st.stack|] == Taken(cond, t);
      assert forall i :: 0 <= i < |st.stack| ==> inside.stack[i] == st.stack[i];
    }
    if AllTrue(st.stack) && !Taken(cond, t) {
      ReadsNothing(st, pending);
    }
  }

  lemma {:induction false} TreeRun(st: Scan, pending: Option<string>, tree: Tree, t: Target)
    requires Ready(st, pending) && tree.Legal()
    ensures Keeps(st, pending, Run(st, tree.Lines(), t), tree.Present(t))
    decreases tree
  {
    match tree
    case Done =>
      if AllTrue(st.stack) {
        ReadsNothing(st, pending);
      }
    case Leaf(item, rest) =>
      var mid := Run(st, item.Lines(), t);
      var next := Fold([item], pending).1;
      LeafRun(st, pending, item, t);
      TreeRun(mid, next, rest, t);
      KeepsOn(st, pending, mid, [item], Run(mid, rest.Lines(), t), rest.Present(t));
      RunAppend(st, item.Lines(), rest.Lines(), t);
    case Band(open, body, close, rest) =>
      var cond := Condition(Strip(open[0]));
      var shown := if Taken(cond, t) then body.Present(t) else [];
      var entered := st.(stack := st.stack + [Taken(cond, t)]);
      DirectiveIsRead(Strip(open[0]));
      HoldsIsTaken(cond, t);
      DirectiveRun(st, open, t);
      Entered(st, pending, Taken(cond, t));
      TreeRun(entered, pending, body, t);
      var inside := Run(entered, body.Lines(), t);
      BandRun(st, pending, tree, inside, t);
      var mid := Run(inside, close, t);
      TreeRun(mid, Fold(shown, pending).1, rest, t);
      KeepsOn(st, pending, mid, shown, Run(mid, rest.Lines(), t), rest.Present(t));
      RunAppend(st, open, body.Lines() + (close + rest.Lines()), t);
      RunAppend(entered, body.Lines(), close + rest.Lines(), t);
      RunAppend(inside, close, rest.Lines(), t);
  }

  lemma {:induction false} Entered(st: Scan, pending: Option<string>, holds: bool)
    requires Ready(st, pending)
    ensures Ready(st.(stack := st.stack + [holds]), pending)
  {
    var entered := st.(stack := st.stack + [holds]);
    if AllTrue(entered.stack) {
      assert forall i :: 0 <= i < |st.stack| ==> st.stack[i] == entered.stack[i];
    }
  }

  /** For every target and every nesting of bands, the script keeps what it
      keeps of the items the preprocessor leaves; so it reads exactly the
      pointers that target has if and only if, of those, each declaration is
      ended in time. */
  lemma {:induction false} ScriptIsPreprocessor(tree: Tree, t: Target)
    requires tree.Legal()
    ensures StructFields(tree.Lines(), t) == Kept(tree.Present(t))
    ensures StructFields(tree.Lines(), t) == tree.Visible(t) <==> EachEnded(tree.Present(t), false)
  {
    StartIsBetween();
    TreeRun(START, None, tree, t);
    assert Names([]) + Kept(tree.Present(t)) == Kept(tree.Present(t));
    KeptIsExact(tree.Present(t));
  }

  // ---- The build script on the same headers

  /** The same header, its bands spelled out as directives. */
  function Flat(tree: Tree): seq<Item> {
    match tree
    case Done => []
    case Leaf(item, rest) => [item] + Flat(rest)
    case Band(open, body, close, rest) =>
      [Conditional(open)] + (Flat(body) + ([Conditional(close)] + Flat(rest)))
  }

  lemma {:induction false} LinesAppend(a: seq<Item>, b: seq<Item>)
    ensures AllLines(a + b) == AllLines(a) + AllLines(b)
  {
    if a == [] {
      assert a + b == b;
    } else {
      assert (a + b)[1..] == a[1..] + b;
      LinesAppend(a[1..], b);
    }
  }

  lemma {:induction false} NamesAppend(a: seq<Item>, b: seq<Item>)
    ensures PointerNames(a + b) == PointerNames(a) + PointerNames(b)
  {
    if a == [] {
      assert a + b == b;
    } else {
      assert a + b == [a[0]] + (a[1..] + b) && a == [a[0]] + a[1..];
      FlatFirst(a[0], a[1..] + b);
      FlatFirst(a[0], a[1..]);
      NamesAppend(a[1..], b);
      Assoc3(OwnNames(a[0]), PointerNames(a[1..]), PointerNames(b));
    }
  }

  lemma {:induction false} FlatFirst(item: Item, rest: seq<Item>)
    ensures AllLines([item] + rest) == item.Lines() + AllLines(rest)
    ensures PointerNames([item] + rest) == OwnNames(item) + PointerNames(rest)
  {
    assert ([item] + rest)[1..] == rest;
  }

  lemma {:induction false} FlatBand(first: Item, body: seq<Item>, last: Item, rest: seq<Item>)
    ensures var band := [first] + (body + ([last] + rest));
            && AllLines(band) == first.Lines() + (AllLines(body) + (last.Lines() + AllLines(rest)))
            && PointerNames(band) == OwnNames(first) + (PointerNames(body) + (OwnNames(last) + PointerNames(rest)))
  {
    var tail := [last] + rest;
    FlatFirst(last, rest);
    LinesAppend(body, tail);
    NamesAppend(body, tail);
    FlatFirst(first, body + tail);
  }

  lemma {:induction false} LegalAppend(a: seq<Item>, b: seq<Item>)
    requires AllLegal(a) && AllLegal(b)
    ensures AllLegal(a + b)
  {
  }

  lemma {:induction false} LegalOne(item: Item)
    requires item.Legal()
    ensures AllLegal([item])
  {
  }

  lemma {:induction false} FlatIsLegal(tree: Tree)
    requires tree.Legal()
    ensures AllLegal(Flat(tree))
  {
    match tree
    case Done =>
    case Leaf(item, rest) =>
      FlatIsLegal(rest);
      LegalOne(item);
      LegalAppend([item], Flat(rest));
    case Band(open, body, close, rest) =>
      FlatIsLegal(body);
      FlatIsLegal(rest);
      LegalOne(Conditional(open));
      LegalOne(Conditional(close));
      LegalAppend([Conditional(close)], Flat(rest));
      LegalAppend(Flat(body), [Conditional(close)] + Flat(rest));
      LegalAppend([Conditional(open)], Flat(body) + ([Conditional(close)] + Flat(rest)));
  }

  lemma {:induction false} FlatLines(tree: Tree)
    ensures AllLines(Flat(tree)) == tree.Lines()
  {
    match tree
    case Done =>
    case Leaf(item, rest) =>
      FlatLines(rest);
      FlatFirst(item, Flat(rest));
    case Band(open, body, close, rest) =>
      FlatLines(body);
      FlatLines(rest);
      FlatBand(Conditional(open), Flat(body), Conditional(close), Flat(rest));
  }

  lemma {:induction false} FlatNames(tree: Tree)
    requires tree.Legal()
    ensures PointerNames(Flat(tree)) == tree.Visible(NEWEST)
  {
    match tree
    case Done =>
    case Leaf(item, rest) =>
      FlatNames(rest);
      FlatFirst(item, Flat(rest));
      FlatFirst(item, rest.Present(NEWEST));
    case Band(open, body, close, rest) =>
      FlatNames(body);
      FlatNames(rest);
      FlatBand(Conditional(open), Flat(body), Conditional(close), Flat(rest));
      assert Taken(Condition(Strip(open[0])), NEWEST);
      NamesAppend(body.Present(NEWEST), rest.Present(NEWEST));
      NothingAround(PointerNames(Flat(body)), PointerNames(Flat(rest)));
  }

  lemma {:induction false} NothingAround(a: seq<string>, b: seq<string>)
    ensures [] + (a + ([] + b)) == a + b
  {
  }

  /** build.rs ignores the bands, and so reads what the preprocessor leaves for
      the newest target with the unstable surface, the layout it compiles, if
      and only if every mark is tight. */
  lemma {:induction false} BuildScriptIsNewest(tree: Tree)
    requires tree.Legal() && tree.Visible(NEWEST) != []
    ensures ApiFields(Join([OPEN] + tree.Lines() + [""], "\n")) == Ok(tree.Visible(NEWEST)) <==> AllTight(Flat(tree))
  {
    FlatLines(tree);
    FlatNames(tree);
    FlatIsLegal(tree);
    BuildReads(Flat(tree));
    TightIsExact(Flat(tree));
  }

  // ---- What a band's opening line says

  /** `#if DUCKDB_API_VERSION_AT_LEAST(major, minor, patch)`, with any blanks
      where C allows them on one line. */
  datatype Gaps = Gaps(before: string, gap: string, b: seq<string>, after: string) {
    ghost predicate Valid() {
      && AllSpace(before) && AllSpace(after) && gap != "" && AllSpace(gap)
      && |b| == 6 && forall i :: 0 <= i < 6 ==> AllSpace(b[i])
    }
  }

  function VersionText(v: Version, b: seq<string>): string
    requires |b| == 6
  {
    var third := b[4] + (PrintDecimal(v.patch) + (b[5] + ")"));
    var second := b[2] + (PrintDecimal(v.minor) + (b[3] + ("," + third)));
    b[0] + (PrintDecimal(v.major) + (b[1] + ("," + second)))
  }

  function BandText(v: Version, g: Gaps): string
    requires |g.b| == 6
  {
    "#if" + (g.gap + (VERSION_MACRO + VersionText(v, g.b)))
  }

  lemma {:induction false} NumberIsRead(before: string, n: nat, after: string, rest: string)
    requires AllSpace(before) && AllSpace(after) && rest != "" && !IsSpace(rest[0]) && !IsDigit(rest[0])
    ensures ReadNumber(before + (PrintDecimal(n) + (after + rest))) == Some((n, rest))
  {
    var digits, tail := PrintDecimal(n), after + rest;
    assert IsDigit(digits[0]) && (digits + tail)[0] == digits[0];
    BlanksPast(before, digits + tail);
    assert tail[0] == if after == "" then rest[0] else after[0];
    DigitsEnd(digits, tail);
    assert (digits + tail)[|digits|..] == tail;
    BlanksPast(after, rest);
  }

  lemma {:induction false} VersionIsRead(v: Version, b: seq<string>)
    requires |b| == 6 && forall i :: 0 <= i < 6 ==> AllSpace(b[i])
    ensures var third := b[4] + (PrintDecimal(v.patch) + (b[5] + ")"));
            var second := b[2] + (PrintDecimal(v.minor) + (b[3] + ("," + third)));
            && ReadNumber(VersionText(v, b)) == Some((v.major, "," + second))
            && ReadNumber(("," + second)[1..]) == Some((v.minor, "," + third))
            && ReadNumber(("," + third)[1..]) == Some((v.patch, ")"))
  {
    var third := b[4] + (PrintDecimal(v.patch) + (b[5] + ")"));
    var second := b[2] + (PrintDecimal(v.minor) + (b[3] + ("," + third)));
    NumberIsRead(b[0], v.major, b[1], "," + second);
    NumberIsRead(b[2], v.minor, b[3], "," + third);
    NumberIsRead(b[4], v.patch, b[5], ")");
    assert ("," + second)[1..] == second && ("," + third)[1..] == third;
  }

  lemma {:induction false} AtLeastIsRead(gap: string, v: Version, b: seq<string>)
    requires gap != "" && AllSpace(gap) && |b| == 6 && forall i :: 0 <= i < 6 ==> AllSpace(b[i])
    ensures MatchAtLeast("#if" + (gap + (AT_LEAST + VersionText(v, b)))) == Some(v)
  {
    var call := AT_LEAST + VersionText(v, b);
    var s := "#if" + (gap + call);
    assert s[3..] == gap + call && s[3] == gap[0];
    assert AT_LEAST[0] == 'D' && call[0] == 'D';
    BlanksPast(gap, call);
    assert call[|AT_LEAST|..] == VersionText(v, b);
    VersionIsRead(v, b);
  }

  /** The script reads the version a band asks for, wherever blanks stand. */
  lemma {:induction false} BandIsRead(v: Version, g: Gaps)
    requires g.Valid()
    ensures var s := Strip(g.before + BandText(v, g) + g.after);
            Classify(s) == Opens(AtLeast(v)) && Condition(s) == AtLeast(v)
  {
    var s := BandText(v, g);
    SameGuard();
    AtLeastIsRead(g.gap, v, g.b);
    LastOfBand(v, g);
    assert s[0] == '#' && s[3] == g.gap[0];
    StripAround(g.before, s, g.after);
    AtLeastOpens(s, v);
  }

  lemma {:induction false} AtLeastOpens(s: string, v: Version)
    requires |s| > 3 && s[0] == '#' && IsSpace(s[3]) && MatchAtLeast(s) == Some(v)
    ensures Classify(s) == Opens(AtLeast(v)) && Condition(s) == AtLeast(v)
  {
    SameGuard();
    NotTheGuard(s);
  }

  lemma {:induction false} NotTheGuard(s: string)
    requires |s| > 3 && IsSpace(s[3])
    ensures !(UNSTABLE_GUARD <= s)
  {
    assert UNSTABLE_GUARD[3] == 'd';
  }

  lemma {:induction false} LastOfBand(v: Version, g: Gaps)
    requires g.Valid()
    ensures var s := BandText(v, g); s != "" && s[|s| - 1] == ')'
  {
    var third := g.b[4] + (PrintDecimal(v.patch) + (g.b[5] + ")"));
    assert third[|third| - 1] == ')';
    var second := g.b[2] + (PrintDecimal(v.minor) + (g.b[3] + ("," + third)));
    assert second[|second| - 1] == ')';
    var first := VersionText(v, g.b);
    assert first[|first| - 1] == ')';
  }

  /** So is the guard of the unstable surface, whatever follows the word. */
  lemma {:induction false} UnstableIsRead(before: string, rest: string, after: string)
    requires AllSpace(before) && AllSpace(after) && (rest == "" || !IsWord(rest[0]))
    requires var s := GUARD + rest; !IsSpace(s[|s| - 1])
    ensures var s := Strip(before + (GUARD + rest) + after);
            Classify(s) == Opens(Unstable) && Condition(s) == Unstable
  {
    GuardIsRead(before, rest, after);
  }

  lemma {:induction false} GuardIsRead(before: string, rest: string, after: string)
    requires AllSpace(before) && AllSpace(after)
    requires var s := GUARD + rest; !IsSpace(s[|s| - 1])
    ensures Strip(before + (GUARD + rest) + after) == GUARD + rest
    ensures Classify(GUARD + rest) == Opens(Unstable)
  {
    SameGuard();
    assert GUARD[0] == '#' && (GUARD + rest)[0] == '#';
    StripAround(before, GUARD + rest, after);
  }

  /** And so, wrongly, is every macro whose name only begins like the guard's. */
  lemma {:induction false} LongerMacroIsMisread(rest: string)
    requires rest != "" && IsWord(rest[0]) && !IsSpace(rest[|rest| - 1])
    ensures Classify(GUARD + rest) == Opens(Unstable)
    ensures Condition(GUARD + rest) != Unstable
  {
    GuardIsRead("", rest, "");
    assert (GUARD + rest)[|GUARD|] == rest[0];
  }
}
