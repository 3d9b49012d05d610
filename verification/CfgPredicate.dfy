/** scripts/check-api-coverage.py: deciding from its text whether a `cfg`
    predicate can only hold when compiling tests. */
module CfgPredicate {
  import opened Wrappers
  import opened Text

  // ---- split_args

  /** `s` cut at its commas at depth 0, scanning from depth `depth`. */
  function Pieces(s: string, depth: int): (pieces: seq<string>)
    ensures pieces != []
  {
    if s == "" then [""]
    else if s[0] == ',' && depth == 0 then [""] + Pieces(s[1..], depth)
    else Onto(s[..1], Pieces(s[1..], Deeper(s[0], depth)))
  }

  function Deeper(c: char, depth: int): int {
    if c == '(' then depth + 1 else if c == ')' then depth - 1 else depth
  }

  /** `front` in front of the first piece. */
  function Onto(front: string, pieces: seq<string>): seq<string>
    requires pieces != []
  {
    [front + pieces[0]] + pieces[1..]
  }

  /** `[a.strip() for a in pieces if a.strip()]` */
  function StripAll(pieces: seq<string>): seq<string> {
    if pieces == [] then []
    else (if Strip(pieces[0]) != "" then [Strip(pieces[0])] else []) + StripAll(pieces[1..])
  }

  function SplitArgs(body: string): seq<string> {
    StripAll(Pieces(body, 0))
  }

  predicate NoneLonger(pieces: seq<string>, n: nat) {
    forall i :: 0 <= i < |pieces| ==> |pieces[i]| <= n
  }

  lemma {:induction false} PiecesNoLonger(s: string, depth: int)
    ensures NoneLonger(Pieces(s, depth), |s|)
  {
    if s != "" {
      PiecesNoLonger(s[1..], Deeper(s[0], depth));
    }
  }

  lemma {:induction false} StripAllNoLonger(pieces: seq<string>, n: nat)
    requires NoneLonger(pieces, n)
    ensures NoneLonger(StripAll(pieces), n)
  {
    if pieces != [] {
      StripShortens(pieces[0]);
      StripShortens(StripLeft(pieces[0]));
      StripAllNoLonger(pieces[1..], n);
    }
  }

  lemma {:induction false} OntoNothing(pieces: seq<string>)
    requires pieces != []
    ensures Onto("", pieces) == pieces
  {
    assert "" + pieces[0] == pieces[0];
  }

  /** One more character of the text, with `pending` cut off nowhere yet. */
  lemma {:induction false} PiecesStep(body: string, start: nat, k: nat, depth: int)
    requires start <= k < |body|
    ensures var more := Pieces(body[k + 1..], Deeper(body[k], depth));
            Onto(body[start..k], Pieces(body[k..], depth)) ==
            if body[k] == ',' && depth == 0 then [body[start..k]] + more else Onto(body[start..k + 1], more)
  {
    var s := body[k..];
    var more := Pieces(body[k + 1..], Deeper(body[k], depth));
    assert s[1..] == body[k + 1..] && s[..1] == [body[k]];
    assert body[start..k] + "" == body[start..k];
    assert body[start..k] + ([body[k]] + more[0]) == body[start..k + 1] + more[0];
  }

  lemma {:induction false} CutHere(pieces: seq<string>, piece: string, nothing: string, more: seq<string>)
    requires nothing == "" && more != []
    ensures pieces + ([piece] + more) == pieces + [piece] + Onto(nothing, more)
  {
    OntoNothing(more);
  }

  /** Where the loop stands before character `k`: `pieces` are cut off, and the
      text from `start` is pending. */
  predicate Cutting(body: string, pieces: seq<string>, start: nat, k: nat, depth: int) {
    start <= k <= |body| && Pieces(body, 0) == pieces + Onto(body[start..k], Pieces(body[k..], depth))
  }

  lemma {:induction false} CuttingStarts(body: string)
    ensures Cutting(body, [], 0, 0, 0)
  {
    assert body[0..0] == "" && body[0..] == body;
    OntoNothing(Pieces(body, 0));
  }

  lemma {:induction false} CuttingStep(body: string, pieces: seq<string>, start: nat, k: nat, depth: int)
    requires Cutting(body, pieces, start, k, depth) && k < |body|
    ensures if body[k] == ',' && depth == 0 then Cutting(body, pieces + [body[start..k]], k + 1, k + 1, depth)
            else Cutting(body, pieces, start, k + 1, Deeper(body[k], depth))
  {
    PiecesStep(body, start, k, depth);
    CutHere(pieces, body[start..k], body[k + 1..k + 1], Pieces(body[k + 1..], Deeper(body[k], depth)));
  }

  lemma {:induction false} CuttingEnds(body: string, pieces: seq<string>, start: nat, depth: int)
    requires Cutting(body, pieces, start, |body|, depth)
    ensures Pieces(body, 0) == pieces + [body[start..]]
  {
    assert body[|body|..] == "" && [""][1..] == [];
    assert body[start..|body|] + "" == body[start..];
  }

  /** The parentheses opened and not closed. */
  function Balance(s: string): int {
    multiset(s)['('] as int - multiset(s)[')'] as int
  }

  predicate TopComma(s: string, depth: int, j: int)
    requires 0 <= j < |s|
  {
    s[j] == ',' && depth + Balance(s[..j]) == 0
  }

  lemma {:induction false} TopCommaTail(s: string, depth: int, j: nat)
    requires j + 1 < |s|
    ensures TopComma(s, depth, j + 1) <==> TopComma(s[1..], Deeper(s[0], depth), j)
  {
    assert s[..j + 1] == [s[0]] + s[1..][..j];
    assert multiset(s[..j + 1]) == multiset([s[0]]) + multiset(s[1..][..j]);
  }

  lemma {:induction false} TopCommaFirst(s: string, depth: int)
    requires s != ""
    ensures TopComma(s, depth, 0) <==> s[0] == ',' && depth == 0
  {
    assert s[..0] == "";
  }

  predicate FirstTopComma(s: string, depth: int, k: int) {
    0 <= k < |s| && TopComma(s, depth, k) && forall j :: 0 <= j < k ==> !TopComma(s, depth, j)
  }

  lemma {:induction false} NoTopComma(s: string, depth: int)
    requires forall j :: 0 <= j < |s| ==> !TopComma(s, depth, j)
    ensures Pieces(s, depth) == [s]
  {
    if s != "" {
      var rest := s[1..];
      TopCommaFirst(s, depth);
      forall j: nat | j < |rest|
        ensures !TopComma(rest, Deeper(s[0], depth), j)
      {
        TopCommaTail(s, depth, j);
      }
      NoTopComma(rest, Deeper(s[0], depth));
      assert s[..1] + rest == s;
    }
  }

  lemma {:induction false} FirstInTail(s: string, depth: int, k: nat)
    requires FirstTopComma(s, depth, k) && k > 0
    ensures FirstTopComma(s[1..], Deeper(s[0], depth), k - 1)
  {
    forall j: nat | j < k
      ensures TopComma(s[1..], Deeper(s[0], depth), j) <==> TopComma(s, depth, j + 1)
    {
      TopCommaTail(s, depth, j);
    }
  }

  lemma {:induction false} CutAtFirst(s: string, depth: int, k: nat)
    requires FirstTopComma(s, depth, k)
    ensures Pieces(s, depth) == [s[..k]] + Pieces(s[k + 1..], 0)
  {
    TopCommaFirst(s, depth);
    if k == 0 {
      assert s[..0] == "";
    } else {
      var rest, deeper := s[1..], Deeper(s[0], depth);
      FirstInTail(s, depth, k);
      CutAtFirst(rest, deeper, k - 1);
      SliceTail(s, k);
      KeptInPiece(s, depth, rest[..k - 1], Pieces(s[k + 1..], 0));
    }
  }

  lemma {:induction false} KeptInPiece(s: string, depth: int, piece: string, more: seq<string>)
    requires s != "" && !(s[0] == ',' && depth == 0)
    requires Pieces(s[1..], Deeper(s[0], depth)) == [piece] + more
    ensures Pieces(s, depth) == [s[..1] + piece] + more
  {
    OntoCut(s[..1], piece, more);
  }

  lemma {:induction false} SliceTail(s: string, k: nat)
    requires 0 < k < |s|
    ensures s[1..][k..] == s[k + 1..] && s[..1] + s[1..][..k - 1] == s[..k]
  {
  }

  lemma {:induction false} OntoCut(front: string, piece: string, more: seq<string>)
    ensures Onto(front, [piece] + more) == [front + piece] + more
  {
    assert ([piece] + more)[1..] == more;
  }

  /** A text is cut at the first comma before which as many parentheses close as
      open, and the rest is cut likewise; without one it is a single piece. */
  lemma {:induction false} PiecesAtCommas(s: string, k: nat)
    ensures FirstTopComma(s, 0, k) ==> Pieces(s, 0) == [s[..k]] + Pieces(s[k + 1..], 0)
    ensures (forall j :: !FirstTopComma(s, 0, j)) ==> Pieces(s, 0) == [s]
  {
    if FirstTopComma(s, 0, k) {
      CutAtFirst(s, 0, k);
    }
    if forall j :: !FirstTopComma(s, 0, j) {
      NoFirst(s, |s|);
      NoTopComma(s, 0);
    }
  }

  lemma {:induction false} NoFirst(s: string, n: nat)
    requires n <= |s| && forall j :: !FirstTopComma(s, 0, j)
    ensures forall j :: 0 <= j < n ==> !TopComma(s, 0, j)
  {
    if n > 0 {
      NoFirst(s, n - 1);
      assert !FirstTopComma(s, 0, n - 1);
    }
  }

  method CutLoop(body: string) returns (pieces: seq<string>)
    ensures pieces == Pieces(body, 0)
  {
    pieces := [];
    var depth := 0;
    var start := 0;
    CuttingStarts(body);
    for k := 0 to |body|
      invariant Cutting(body, pieces, start, k, depth)
    {
      CuttingStep(body, pieces, start, k, depth);
      var c := body[k];
      if c == '(' {
        depth := depth + 1;
      } else if c == ')' {
        depth := depth - 1;
      } else if c == ',' && depth == 0 {
        pieces := pieces + [body[start..k]];
        start := k + 1;
      }
    }
    CuttingEnds(body, pieces, start, depth);
    pieces := pieces + [body[start..]];
  }

  lemma {:induction false} StripAllStep(pieces: seq<string>, i: nat)
    requires i < |pieces|
    ensures StripAll(pieces[i..]) ==
            (if Strip(pieces[i]) != "" then [Strip(pieces[i])] else []) + StripAll(pieces[i + 1..])
  {
    assert pieces[i..][1..] == pieces[i + 1..];
  }

  /** One more piece is stripped, and kept if anything is left. */
  lemma {:induction false} StripLoopStep(all: seq<string>, args: seq<string>, pieces: seq<string>, i: nat)
    requires i < |pieces| && all == args + StripAll(pieces[i..])
    ensures var a := Strip(pieces[i]);
            all == (if a != "" then args + [a] else args) + StripAll(pieces[i + 1..])
  {
    StripAllStep(pieces, i);
    var a, rest := Strip(pieces[i]), StripAll(pieces[i + 1..]);
    assert args + ([a] + rest) == args + [a] + rest;
    assert [] + rest == rest;
  }

  method StripLoop(pieces: seq<string>) returns (args: seq<string>)
    ensures args == StripAll(pieces)
  {
    args := [];
    assert pieces[0..] == pieces && [] + StripAll(pieces) == StripAll(pieces);
    for i := 0 to |pieces|
      invariant StripAll(pieces) == args + StripAll(pieces[i..])
    {
      StripLoopStep(StripAll(pieces), args, pieces, i);
      var a := Strip(pieces[i]);
      if a != "" {
        args := args + [a];
      }
    }
    assert pieces[|pieces|..] == [] && args + [] == args;
  }

  method SplitArgsLoop(body: string) returns (args: seq<string>)
    ensures args == SplitArgs(body)
  {
    var pieces := CutLoop(body);
    args := StripLoop(pieces);
  }

  // ---- requires_test

  datatype Kind = KAll | KAny | KNot

  function Keyword(k: Kind): string {
    match k
    case KAll => "all"
    case KAny => "any"
    case KNot => "not"
  }

  function KindOf(p: string): Option<Kind> {
    if Keyword(KAll) <= p then Some(KAll)
    else if Keyword(KAny) <= p then Some(KAny)
    else if Keyword(KNot) <= p then Some(KNot)
    else None
  }

  /** `re.fullmatch(r"(all|any|not)\s*\((.*)\)", p, re.DOTALL)`: the keyword and
      what its parentheses hold. */
  function MatchCall(p: string): (r: Option<(Kind, string)>)
    ensures r.Some? ==> |r.value.1| < |p|
  {
    var kind :- KindOf(p);
    StripShortens(p[3..]);
    var call := StripLeft(p[3..]);
    if |call| >= 2 && call[0] == '(' && call[|call| - 1] == ')' then Some((kind, call[1..|call| - 1])) else None
  }

  lemma {:induction false} ArgsNoLonger(p: string)
    ensures MatchCall(p).Some? ==> NoneLonger(SplitArgs(MatchCall(p).value.1), |MatchCall(p).value.1|)
  {
    if MatchCall(p).Some? {
      PiecesNoLonger(MatchCall(p).value.1, 0);
      StripAllNoLonger(Pieces(MatchCall(p).value.1, 0), |MatchCall(p).value.1|);
    }
  }

  predicate RequiresTest(text: string)
    decreases |text|
  {
    StripShortens(text);
    StripShortens(StripLeft(text));
    var p := Strip(text);
    ArgsNoLonger(p);
    p == "test"
    || (MatchCall(p).Some?
        && var (kind, body) := MatchCall(p).value;
           var args := SplitArgs(body);
           match kind
           case KAll => exists i :: 0 <= i < |args| && RequiresTest(args[i])
           case KAny => args != [] && forall i :: 0 <= i < |args| ==> RequiresTest(args[i])
           case KNot => false)
  }

  // ---- Predicates, their meaning and their text

  /** A `cfg` predicate with the blanks of its text. `tail` is what stands
      before the closing parenthesis after a trailing comma. */
  datatype Pred =
    | Test
    | Flag(text: string)
    | Op(kind: Kind, gap: string, args: seq<Arg>, tail: Option<string>)

  datatype Arg = Arg(before: string, pred: Pred, after: string)

  /** A flag or `key = "value"` that reads as one argument wherever it stands:
      its parentheses match, and its commas are inside them. */
  ghost predicate InertFlag(t: string) {
    && t != "" && !IsSpace(t[0]) && !IsSpace(t[|t| - 1]) && t != "test" && MatchCall(t).None?
    && DepthAfter(t, 0) == 0 && forall depth: nat :: Quiet(t, depth)
  }

  ghost predicate WellFormed(p: Pred)
    decreases p
  {
    match p
    case Test => true
    case Flag(t) => InertFlag(t)
    case Op(kind, gap, args, tail) =>
      && AllSpace(gap)
      && (tail.Some? ==> AllSpace(tail.value) && args != [])
      && (kind == KNot ==> |args| == 1)
      && forall i :: 0 <= i < |args| ==>
           AllSpace(args[i].before) && WellFormed(args[i].pred) && AllSpace(args[i].after)
  }

  function Print(p: Pred): string
    decreases p, 0
  {
    match p
    case Test => "test"
    case Flag(t) => t
    case Op(kind, gap, args, tail) => Keyword(kind) + gap + "(" + Body(args, tail) + ")"
  }

  /** The arguments, comma-separated, with an optional trailing comma. */
  function Body(args: seq<Arg>, tail: Option<string>): string
    decreases args, 1
  {
    if args == [] then ""
    else if |args| == 1 then
      if tail.Some? then PrintArg(args[0]) + "," + tail.value else PrintArg(args[0])
    else PrintArg(args[0]) + "," + Body(args[1..], tail)
  }

  function PrintArg(a: Arg): string
    decreases a, 0
  {
    a.before + Print(a.pred) + a.after
  }

  /** Whether the predicate holds, given whether tests are being compiled and
      which flags are set. */
  predicate Eval(p: Pred, test: bool, flags: string -> bool)
    decreases p
  {
    match p
    case Test => test
    case Flag(t) => flags(t)
    case Op(kind, _, args, _) =>
      match kind
      case KAll => forall i :: 0 <= i < |args| ==> Eval(args[i].pred, test, flags)
      case KAny => exists i :: 0 <= i < |args| && Eval(args[i].pred, test, flags)
      case KNot => !exists i :: 0 <= i < |args| && Eval(args[i].pred, test, flags)
  }

  /** The analysis on the predicate itself. */
  predicate NeedsTest(p: Pred)
    decreases p
  {
    match p
    case Test => true
    case Flag(_) => false
    case Op(kind, _, args, _) =>
      match kind
      case KAll => exists i :: 0 <= i < |args| && NeedsTest(args[i].pred)
      case KAny => args != [] && forall i :: 0 <= i < |args| ==> NeedsTest(args[i].pred)
      case KNot => false
  }

  // ---- Scanning printed text

  function DepthAfter(s: string, depth: int): int {
    if s == "" then depth else DepthAfter(s[1..], Deeper(s[0], depth))
  }

  /** No comma of `s` is at depth 0. */
  predicate Quiet(s: string, depth: int) {
    s == "" || (!(s[0] == ',' && depth == 0) && Quiet(s[1..], Deeper(s[0], depth)))
  }

  lemma {:induction false} ScanAppend(a: string, b: string, depth: int)
    ensures DepthAfter(a + b, depth) == DepthAfter(b, DepthAfter(a, depth))
    ensures Quiet(a + b, depth) <==> Quiet(a, depth) && Quiet(b, DepthAfter(a, depth))
    ensures Quiet(a, depth) ==> Pieces(a + b, depth) == Onto(a, Pieces(b, DepthAfter(a, depth)))
  {
    if a == "" {
      assert a + b == b;
      OntoNothing(Pieces(b, depth));
    } else {
      assert (a + b)[1..] == a[1..] + b && (a + b)[..1] == a[..1];
      var depth' := Deeper(a[0], depth);
      ScanAppend(a[1..], b, depth');
      if Quiet(a, depth) {
        var pieces := Pieces(b, DepthAfter(a[1..], depth'));
        assert a[..1] + (a[1..] + pieces[0]) == a + pieces[0];
      }
    }
  }

  lemma {:induction false} DepthShift(s: string, depth: int)
    ensures DepthAfter(s, depth) == depth + DepthAfter(s, 0)
  {
    if s != "" {
      DepthShift(s[1..], Deeper(s[0], depth));
      DepthShift(s[1..], Deeper(s[0], 0));
    }
  }

  /** Text without parentheses or commas passes unnoticed. */
  lemma {:induction false} PlainScan(s: string, depth: int)
    requires forall i :: 0 <= i < |s| ==> s[i] != '(' && s[i] != ')' && s[i] != ','
    ensures DepthAfter(s, depth) == depth && Quiet(s, depth)
  {
    if s != "" {
      PlainScan(s[1..], depth);
    }
  }

  lemma {:induction false} CommaScan(s: string, depth: int)
    requires depth > 0
    ensures DepthAfter("," + s, depth) == DepthAfter(s, depth) && (Quiet("," + s, depth) <==> Quiet(s, depth))
  {
    assert ("," + s)[1..] == s;
  }

  /** A printed predicate is balanced and shows no comma of its own. */
  lemma {:induction false} PrintScan(p: Pred, depth: int)
    requires WellFormed(p) && depth >= 0
    ensures DepthAfter(Print(p), depth) == depth && Quiet(Print(p), depth)
    decreases p, 0
  {
    match p
    case Test => PlainScan("test", depth);
    case Flag(t) => DepthShift(t, depth);
    case Op(kind, gap, args, tail) =>
      var head := Keyword(kind) + gap;
      PlainScan(head, depth);
      BodyScan(args, tail, depth + 1);
      OpScan(head, Body(args, tail), depth);
      assert Print(p) == head + "(" + Body(args, tail) + ")";
  }

  lemma {:induction false} OpScan(head: string, body: string, depth: int)
    requires DepthAfter(head, depth) == depth && Quiet(head, depth)
    requires DepthAfter(body, depth + 1) == depth + 1 && Quiet(body, depth + 1)
    ensures var s := head + "(" + body + ")";
            DepthAfter(s, depth) == depth && Quiet(s, depth)
  {
    ScanAppend(head + "(" + body, ")", depth);
    ScanAppend(head + "(", body, depth);
    ScanAppend(head, "(", depth);
    assert ")"[1..] == "" && "("[1..] == "";
  }

  lemma {:induction false} ArgScan(a: Arg, depth: int)
    requires AllSpace(a.before) && AllSpace(a.after) && WellFormed(a.pred) && depth >= 0
    ensures DepthAfter(PrintArg(a), depth) == depth && Quiet(PrintArg(a), depth)
    decreases a, 1
  {
    PlainScan(a.before, depth);
    PlainScan(a.after, depth);
    PrintScan(a.pred, depth);
    ScanAppend(a.before + Print(a.pred), a.after, depth);
    ScanAppend(a.before, Print(a.pred), depth);
  }

  ghost predicate ArgsWellFormed(args: seq<Arg>) {
    forall i :: 0 <= i < |args| ==>
      AllSpace(args[i].before) && WellFormed(args[i].pred) && AllSpace(args[i].after)
  }

  lemma {:induction false} BodyScan(args: seq<Arg>, tail: Option<string>, depth: int)
    requires ArgsWellFormed(args) && (tail.Some? ==> AllSpace(tail.value)) && depth > 0
    ensures DepthAfter(Body(args, tail), depth) == depth && Quiet(Body(args, tail), depth)
    decreases args, 2
  {
    if args != [] {
      ArgScan(args[0], depth);
      var first := PrintArg(args[0]);
      if |args| == 1 {
        if tail.Some? {
          PlainScan(tail.value, depth);
          ListScan(first, tail.value, depth);
        }
      } else {
        BodyScan(args[1..], tail, depth);
        ListScan(first, Body(args[1..], tail), depth);
      }
    }
  }

  lemma {:induction false} ListScan(first: string, rest: string, depth: int)
    requires depth > 0
    requires DepthAfter(first, depth) == depth && Quiet(first, depth)
    requires DepthAfter(rest, depth) == depth && Quiet(rest, depth)
    ensures DepthAfter(first + "," + rest, depth) == depth && Quiet(first + "," + rest, depth)
  {
    CommaScan(rest, depth);
    ScanAppend(first, "," + rest, depth);
    assert first + "," + rest == first + ("," + rest);
  }

  // ---- Reading printed text

  /** A printed predicate begins and ends with no blank. */
  lemma {:induction false} PrintEnds(p: Pred)
    requires WellFormed(p)
    ensures Print(p) != "" && !IsSpace(Print(p)[0]) && !IsSpace(Print(p)[|Print(p)| - 1])
  {
    if p.Op? {
      assert Print(p)[0] == Keyword(p.kind)[0];
    }
  }

  lemma {:induction false} ArgStripped(a: Arg)
    requires AllSpace(a.before) && WellFormed(a.pred) && AllSpace(a.after)
    ensures Strip(PrintArg(a)) == Print(a.pred)
  {
    PrintEnds(a.pred);
    StripAround(a.before, Print(a.pred), a.after);
  }

  function Texts(args: seq<Arg>): seq<string> {
    seq(|args|, i requires 0 <= i < |args| => Print(args[i].pred))
  }

  /** `split_args` recovers the arguments it is given, however deeply they nest. */
  lemma {:induction false} SplitRecoversArgs(args: seq<Arg>, tail: Option<string>)
    requires ArgsWellFormed(args) && (tail.Some? ==> AllSpace(tail.value) && args != [])
    ensures SplitArgs(Body(args, tail)) == Texts(args)
    decreases |args|
  {
    if args == [] {
      NoPieces();
    } else {
      var first := PrintArg(args[0]);
      ArgScan(args[0], 0);
      ArgStripped(args[0]);
      PrintEnds(args[0].pred);
      assert Texts(args) == [Print(args[0].pred)] + Texts(args[1..]);
      if |args| == 1 && tail.None? {
        PieceAlone(first);
      } else if |args| == 1 {
        PieceThen(first, tail.value);
        BlankPiece(tail.value);
      } else {
        PieceThen(first, Body(args[1..], tail));
        SplitRecoversArgs(args[1..], tail);
      }
    }
  }

  lemma {:induction false} NoPieces()
    ensures SplitArgs("") == []
  {
    assert Strip("") == "";
    assert StripAll([""]) == [] + StripAll([""][1..]);
  }

  lemma {:induction false} BlankPiece(s: string)
    requires AllSpace(s)
    ensures SplitArgs(s) == []
  {
    PlainScan(s, 0);
    PieceAlone(s);
    StripLeftBlank(s);
  }

  lemma {:induction false} PieceAlone(s: string)
    requires Quiet(s, 0) && DepthAfter(s, 0) == 0
    ensures SplitArgs(s) == if Strip(s) != "" then [Strip(s)] else []
  {
    ScanAppend(s, "", 0);
    assert s + "" == s;
    assert Pieces(s, 0) == [s];
    StripAllStep([s], 0);
    assert [s][0..] == [s] && [s][1..] == [];
    assert StripAll([s]) == (if Strip(s) != "" then [Strip(s)] else []) + [];
  }

  lemma {:induction false} PieceThen(s: string, rest: string)
    requires Quiet(s, 0) && DepthAfter(s, 0) == 0
    ensures SplitArgs(s + "," + rest) == (if Strip(s) != "" then [Strip(s)] else []) + SplitArgs(rest)
  {
    ScanAppend(s, "," + rest, 0);
    assert s + "," + rest == s + ("," + rest);
    assert ("," + rest)[1..] == rest;
    assert Pieces(s + "," + rest, 0) == [s] + Pieces(rest, 0) by {
      assert s + "" == s;
    }
    assert ([s] + Pieces(rest, 0))[1..] == Pieces(rest, 0);
  }

  lemma {:induction false} CallIsRead(kind: Kind, gap: string, body: string)
    requires AllSpace(gap)
    ensures MatchCall(Keyword(kind) + gap + "(" + body + ")") == Some((kind, body))
  {
    var call := "(" + body + ")";
    assert call[0] == '(' && call[|call| - 1] == ')' && call[1..|call| - 1] == body;
    Regroup(Keyword(kind), gap, "(", body, ")");
    BlanksPast(gap, call);
    KeywordIsRead(kind, gap + call);
  }

  lemma {:induction false} Regroup(a: string, b: string, c: string, d: string, e: string)
    ensures a + b + c + d + e == a + (b + (c + d + e))
  {
  }

  lemma {:induction false} KeywordIsRead(kind: Kind, rest: string)
    ensures KindOf(Keyword(kind) + rest) == Some(kind) && (Keyword(kind) + rest)[3..] == rest
  {
    var p := Keyword(kind) + rest;
    assert p[0] == Keyword(kind)[0];
    assert Keyword(kind) <= p;
    assert Keyword(KAny)[1] == 'n' && Keyword(KAll)[1] == 'l' && p[1] == Keyword(kind)[1];
  }

  lemma {:induction false} CallHasGap(p: string, kind: Kind, body: string)
    requires MatchCall(p) == Some((kind, body))
    ensures exists gap :: AllSpace(gap) && p == Keyword(kind) + gap + "(" + body + ")"
  {
    var rest := p[3..];
    var call := StripLeft(rest);
    StripLeftCuts(rest);
    var gap := rest[..|rest| - |call|];
    Opened(call, body);
    Called(p, Keyword(kind), rest, gap, call, body);
  }

  lemma {:induction false} Opened(call: string, body: string)
    requires |call| >= 2 && call[0] == '(' && call[|call| - 1] == ')' && call[1..|call| - 1] == body
    ensures call == "(" + body + ")"
  {
  }

  lemma {:induction false} Called(p: string, word: string, rest: string, gap: string, call: string, body: string)
    requires word <= p && p[|word|..] == rest && rest == gap + call && call == "(" + body + ")"
    ensures p == word + gap + "(" + body + ")"
  {
    assert p == word + rest;
    Regroup(word, gap, "(", body, ")");
  }

  /** The call form, as the regular expression has it. */
  lemma {:induction false} MatchCallIsRegex(p: string, kind: Kind, body: string)
    ensures MatchCall(p) == Some((kind, body)) <==>
            exists gap :: AllSpace(gap) && p == Keyword(kind) + gap + "(" + body + ")"
    ensures Keyword(kind) == match kind case KAll => "all" case KAny => "any" case KNot => "not"
  {
    if MatchCall(p) == Some((kind, body)) {
      CallHasGap(p, kind, body);
    }
    if gap :| AllSpace(gap) && p == Keyword(kind) + gap + "(" + body + ")" {
      CallIsRead(kind, gap, body);
    }
  }

  /** A flag whose value holds parentheses, with anything but parentheses
      between them, commas included: `feature = "a(b,c)"`. */
  lemma {:induction false} ParenthesesAreInert(before: string, inside: string, after: string)
    requires before != "" && !IsSpace(before[0]) && NoMarks(before)
    requires after != "" && !IsSpace(after[|after| - 1]) && NoMarks(after)
    requires forall i :: 0 <= i < |inside| ==> inside[i] != '(' && inside[i] != ')'
    ensures InertFlag(before + "(" + inside + ")" + after)
  {
    var t := before + "(" + inside + ")" + after;
    forall depth: nat
      ensures DepthAfter(t, depth) == depth && Quiet(t, depth)
    {
      PlainScan(before, depth);
      CommasScan(inside, depth + 1);
      PlainScan(after, depth);
      OpScan(before, inside, depth);
      ScanAppend(before + "(" + inside + ")", after, depth);
    }
    var last := t[|t| - 1];
    assert last == after[|after| - 1] && last != ')' && t[0] == before[0];
    assert t != "test" by { assert t[|before|] == '('; }
    NoCallWithoutParenthesis(t);
  }

  predicate NoMarks(s: string) {
    forall i :: 0 <= i < |s| ==> s[i] != '(' && s[i] != ')' && s[i] != ','
  }

  lemma {:induction false} CommasScan(s: string, depth: int)
    requires depth > 0 && forall i :: 0 <= i < |s| ==> s[i] != '(' && s[i] != ')'
    ensures DepthAfter(s, depth) == depth && Quiet(s, depth)
  {
    if s != "" {
      CommasScan(s[1..], depth);
    }
  }

  /** Text that does not end in `)` is no call. */
  lemma {:induction false} NoCallWithoutParenthesis(t: string)
    requires t != "" && t[|t| - 1] != ')'
    ensures MatchCall(t).None?
  {
    if KindOf(t).Some? {
      StripLeftKeepsEnd(t[3..]);
    }
  }

  lemma {:induction false} StripLeftKeepsEnd(s: string)
    ensures StripLeft(s) != "" ==> StripLeft(s)[|StripLeft(s)| - 1] == s[|s| - 1]
    ensures |StripLeft(s)| <= |s|
  {
    if s != "" && IsSpace(s[0]) {
      StripLeftKeepsEnd(s[1..]);
    }
  }

  /** The text analysis of a printed predicate is the analysis of the predicate. */
  lemma {:induction false} TextIsAnalysed(p: Pred)
    requires WellFormed(p)
    ensures RequiresTest(Print(p)) == NeedsTest(p)
    decreases p
  {
    PrintStripped(p);
    match p
    case Test =>
    case Flag(t) =>
    case Op(kind, gap, args, tail) =>
      CallIsRead(kind, gap, Body(args, tail));
      SplitRecoversArgs(args, tail);
      forall i | 0 <= i < |args|
        ensures RequiresTest(Print(args[i].pred)) == NeedsTest(args[i].pred)
      {
        TextIsAnalysed(args[i].pred);
      }
      assert Print(p)[|Print(p)| - 1] == ')';
      CallAnalysed(Print(p), kind, Body(args, tail), args);
  }

  lemma {:induction false} PrintStripped(p: Pred)
    requires WellFormed(p)
    ensures Strip(Print(p)) == Print(p)
  {
    PrintEnds(p);
    StripAround("", Print(p), "");
    assert "" + Print(p) + "" == Print(p);
  }

  lemma {:induction false} CallAnalysed(text: string, kind: Kind, body: string, args: seq<Arg>)
    requires Strip(text) == text && text != "test"
    requires MatchCall(text) == Some((kind, body)) && SplitArgs(body) == Texts(args)
    requires forall i :: 0 <= i < |args| ==> RequiresTest(Print(args[i].pred)) == NeedsTest(args[i].pred)
    ensures RequiresTest(text) ==
            match kind
            case KAll => exists i :: 0 <= i < |args| && NeedsTest(args[i].pred)
            case KAny => args != [] && forall i :: 0 <= i < |args| ==> NeedsTest(args[i].pred)
            case KNot => false
  {
    assert |Texts(args)| == |args|;
    assert forall i :: 0 <= i < |args| ==> RequiresTest(Texts(args)[i]) == NeedsTest(args[i].pred);
  }

  // ---- What the analysis is worth

  /** Soundness: a predicate it calls test-only is false under every setting of
      the flags when tests are not compiled. */
  lemma {:induction false} NeedsTestIsSound(p: Pred, flags: string -> bool)
    requires NeedsTest(p)
    ensures !Eval(p, false, flags)
    decreases p
  {
    if p.Op? {
      forall i | 0 <= i < |p.args| && NeedsTest(p.args[i].pred)
        ensures !Eval(p.args[i].pred, false, flags)
      {
        NeedsTestIsSound(p.args[i].pred, flags);
      }
    }
  }

  /** Neither `not` nor an empty `any` occurs. */
  ghost predicate Positive(p: Pred)
    decreases p
  {
    p.Op? ==>
      && p.kind != KNot && (p.kind == KAny ==> p.args != [])
      && forall i :: 0 <= i < |p.args| ==> Positive(p.args[i].pred)
  }

  lemma {:induction false} PositiveIsDecided(p: Pred, flags: string -> bool)
    requires Positive(p) && forall t :: flags(t)
    ensures NeedsTest(p) <==> !Eval(p, false, flags)
    decreases p
  {
    if p.Op? {
      forall i | 0 <= i < |p.args|
        ensures NeedsTest(p.args[i].pred) <==> !Eval(p.args[i].pred, false, flags)
      {
        PositiveIsDecided(p.args[i].pred, flags);
      }
    }
  }

  /** From the text: "requires test" implies that no setting of the flags makes
      the predicate hold without tests; for predicates without `not` and
      without an empty `any` the converse holds too. */
  lemma {:induction false} RequiresTestDecides(p: Pred)
    requires WellFormed(p)
    ensures RequiresTest(Print(p)) ==> forall flags: string -> bool :: !Eval(p, false, flags)
    ensures Positive(p) ==> (RequiresTest(Print(p)) <==> forall flags: string -> bool :: !Eval(p, false, flags))
  {
    TextIsAnalysed(p);
    if NeedsTest(p) {
      forall flags: string -> bool
        ensures !Eval(p, false, flags)
      {
        NeedsTestIsSound(p, flags);
      }
    } else if Positive(p) {
      PositiveIsDecided(p, _ => true);
    }
  }

  function Bare(p: Pred): Arg {
    Arg("", p, "")
  }

  /** Outside that class it can miss: a doubly negated test never holds without
      tests, and is not called test-only. */
  lemma {:induction false} DoubleNegationIsMissed(flags: string -> bool)
    ensures var p := Op(KNot, "", [Bare(Op(KNot, "", [Bare(Test)], None))], None);
            WellFormed(p) && !RequiresTest(Print(p)) && !Eval(p, false, flags)
  {
    var inner := Op(KNot, "", [Bare(Test)], None);
    assert !Eval(inner.args[0].pred, false, flags);
    var p := Op(KNot, "", [Bare(inner)], None);
    assert Eval(p.args[0].pred, false, flags);
    TextIsAnalysed(p);
  }

  /** So is an `any` of a test and an empty `any`. */
  lemma {:induction false} EmptyAnyIsMissed(flags: string -> bool)
    ensures var p := Op(KAny, "", [Bare(Op(KAny, "", [], None)), Bare(Test)], None);
            WellFormed(p) && !RequiresTest(Print(p)) && !Eval(p, false, flags)
  {
    var p := Op(KAny, "", [Bare(Op(KAny, "", [], None)), Bare(Test)], None);
    assert !NeedsTest(p.args[0].pred);
    TextIsAnalysed(p);
  }

  lemma {:induction false} BareText(p: Pred)
    ensures PrintArg(Bare(p)) == Print(p)
  {
    assert "" + Print(p) + "" == Print(p);
  }

  lemma {:induction false} OneArg(p: Pred)
    ensures Body([Bare(p)], None) == Print(p)
  {
    BareText(p);
  }

  lemma {:induction false} ThreeArgs(p: Pred, q: Pred, r: Pred)
    ensures Body([Bare(p), Bare(q), Bare(r)], None) == Print(p) + "," + (Print(q) + "," + Print(r))
  {
    BareText(p);
    BareText(q);
    OneArg(r);
    assert [Bare(p), Bare(q), Bare(r)][1..] == [Bare(q), Bare(r)];
    assert [Bare(q), Bare(r)][1..] == [Bare(r)];
    assert Body([Bare(q), Bare(r)], None) == Print(q) + "," + Print(r);
  }

  lemma {:induction false} SameBody(a: string, b: string)
    ensures a + "," + ("test" + "," + b) == a + ",test," + b
  {
    assert ",test," == "," + ("test" + ",");
  }

  lemma {:induction false} SameText(a: string, b: string)
    ensures Print(Op(KAll, "", [Bare(Flag(a + ",test," + b))], None))
            == Print(Op(KAll, "", [Bare(Flag(a)), Bare(Test), Bare(Flag(b))], None))
  {
    OneArg(Flag(a + ",test," + b));
    ThreeArgs(Flag(a), Test, Flag(b));
    SameBody(a, b);
  }

  lemma {:induction false} AllWithTest(a: Pred, b: Pred)
    requires WellFormed(a) && WellFormed(b)
    ensures RequiresTest(Print(Op(KAll, "", [Bare(a), Bare(Test), Bare(b)], None)))
  {
    AllOfTest([Bare(a), Bare(Test), Bare(b)], 1);
  }

  lemma {:induction false} AllOfTest(args: seq<Arg>, i: nat)
    requires ArgsWellFormed(args) && i < |args| && args[i].pred == Test
    ensures RequiresTest(Print(Op(KAll, "", args, None)))
  {
    var p := Op(KAll, "", args, None);
    assert NeedsTest(p.args[i].pred);
    TextIsAnalysed(p);
  }

  // ---- Flags that read as several arguments

  /** Whatever stands between the parentheses of `all` is test-only if and only
      if one of the pieces between its outer commas is. */
  lemma {:induction false} AllOfText(t: string)
    ensures RequiresTest("all(" + t + ")") <==>
            exists i :: 0 <= i < |SplitArgs(t)| && RequiresTest(SplitArgs(t)[i])
  {
    CallOfText(KAll, t);
    assert "all(" == "all" + "(";
  }

  lemma {:induction false} AnyOfText(t: string)
    ensures RequiresTest("any(" + t + ")") <==>
            SplitArgs(t) != [] && forall i :: 0 <= i < |SplitArgs(t)| ==> RequiresTest(SplitArgs(t)[i])
  {
    CallOfText(KAny, t);
    assert "any(" == "any" + "(";
  }

  lemma {:induction false} CallOfText(kind: Kind, t: string)
    ensures RequiresTest(Keyword(kind) + "(" + t + ")") ==
            match kind
            case KAll => exists i :: 0 <= i < |SplitArgs(t)| && RequiresTest(SplitArgs(t)[i])
            case KAny => SplitArgs(t) != [] && forall i :: 0 <= i < |SplitArgs(t)| ==> RequiresTest(SplitArgs(t)[i])
            case KNot => false
  {
    var text := Keyword(kind) + "(" + t + ")";
    assert Keyword(kind) + "" == Keyword(kind);
    CallIsRead(kind, "", t);
    assert text[0] == Keyword(kind)[0] && text[|text| - 1] == ')';
    StripAround("", text, "");
    assert "" + text + "" == text;
    CallMeans(text, kind, t);
  }

  lemma {:induction false} CallMeans(text: string, kind: Kind, body: string)
    requires Strip(text) == text && text != "test" && MatchCall(text) == Some((kind, body))
    ensures RequiresTest(text) ==
            match kind
            case KAll => exists i :: 0 <= i < |SplitArgs(body)| && RequiresTest(SplitArgs(body)[i])
            case KAny => SplitArgs(body) != [] && forall i :: 0 <= i < |SplitArgs(body)| ==> RequiresTest(SplitArgs(body)[i])
            case KNot => false
  {
  }

  /** `all` of one flag, whatever the flag's text. The flag may well hold without
      tests, so the analysis is right about it if and only if no piece between
      the outer commas of the text is test-only by itself. For a flag whose
      text is one piece, that is so; a string literal with a comma in it can
      make it two or more. */
  lemma {:induction false} AllOfOneFlag(t: string)
    ensures (RequiresTest(Print(Op(KAll, "", [Bare(Flag(t))], None))) ==>
               forall flags: string -> bool :: !Eval(Op(KAll, "", [Bare(Flag(t))], None), false, flags))
            <==> forall i :: 0 <= i < |SplitArgs(t)| ==> !RequiresTest(SplitArgs(t)[i])
  {
    var p := Op(KAll, "", [Bare(Flag(t))], None);
    OneArg(Flag(t));
    assert Print(p) == "all(" + t + ")" by {
      assert "all" + "" == "all" && "all" + "(" == "all(";
    }
    AllOfText(t);
    assert p.args[0].pred == Flag(t);
    var allSet: string -> bool := _ => true;
    assert Eval(p, false, allSet);
  }

  /** The family that goes wrong: a value that holds `,test,`. */
  lemma {:induction false} LiteralCommaMisleads(a: string, b: string, flags: string -> bool)
    requires InertFlag(a) && InertFlag(b) && flags(a + ",test," + b)
    ensures RequiresTest(Print(Op(KAll, "", [Bare(Flag(a + ",test," + b))], None)))
    ensures Eval(Op(KAll, "", [Bare(Flag(a + ",test," + b))], None), false, flags)
  {
    SameText(a, b);
    AllWithTest(Flag(a), Flag(b));
  }
}
