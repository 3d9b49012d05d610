/** build.rs: the second, independent reader of `duckdb_ext_api_v1`; proved to
    agree with check-abi-table.py's reader. */
module HeaderTwin {
  import opened Wrappers
  import opened Text
  import opened HeaderBands

  const OPEN := "typedef struct {"
  const CLOSE := "} duckdb_ext_api_v1;"
  const STAR := "(*"

  // ---- The struct's body

  /** Python: both marks are searched from the start of the header, and the
      slice between them is empty when they come in the wrong order. */
  function PythonSlice(header: string, open: string, close: string): Option<string> {
    var start :- Find(header, open);
    var end :- Find(header, close);
    Some(if start <= end then header[start..end] else "")
  }

  /** Rust: the closing mark is searched after the opening one. */
  function RustSlice(header: string, open: string, close: string): Option<string> {
    var start :- Find(header, open);
    var end :- Find(header[start..], close);
    Some(header[start..][..end])
  }

  function PythonBody(header: string): Option<string> {
    PythonSlice(header, OPEN, CLOSE)
  }

  function RustBody(header: string): Option<string> {
    RustSlice(header, OPEN, CLOSE)
  }

  lemma {:induction false} SliceOfTail(s: string, start: nat, end: nat)
    requires start <= end <= |s|
    ensures s[start..][..end - start] == s[start..end]
  {
  }

  /** The first closing mark stands before the first opening one. */
  predicate MarksCrossed(header: string, open: string, close: string) {
    var start, end := Find(header, open), Find(header, close);
    start.Some? && end.Some? && end.value < start.value
  }

  /** When the marks are crossed the script takes the struct for empty, and
      build.rs, which looks for a closing mark further on, does not. */
  lemma {:induction false} CrossedMarksDiffer(header: string, open: string, close: string)
    requires open != "" && close != "" && open[0] != close[0] && MarksCrossed(header, open, close)
    ensures PythonSlice(header, open, close) == Some("")
    ensures RustSlice(header, open, close) != Some("")
  {
    var start := Find(header, open).value;
    var end := Find(header[start..], close);
    if end.Some? {
      assert OccursAt(header, open, start) && header[start..][0] == open[0];
      assert OccursAt(header[start..], close, end.value);
    }
  }

  /** Without both marks each fails; with them in order both cut the same. */
  lemma {:induction false} UncrossedMarksAgree(header: string, open: string, close: string)
    requires !MarksCrossed(header, open, close)
    ensures RustSlice(header, open, close) == PythonSlice(header, open, close)
  {
    var start, end := Find(header, open), Find(header, close);
    if start.Some? && end.Some? {
      FindAfter(header, close, start.value);
      SliceOfTail(header, start.value, end.value);
    } else if start.Some? {
      NotFoundAfter(header, close, start.value);
    }
  }

  lemma {:induction false} NotFoundAfter(s: string, needle: string, start: nat)
    requires Find(s, needle).None? && start <= |s|
    ensures Find(s[start..], needle).None?
  {
    var found := Find(s[start..], needle);
    if found.Some? {
      OccursAfter(s, needle, start, found.value);
    }
  }

  /** The script and build.rs cut the same struct out of a header, or both none,
      if and only if the marks are not crossed. */
  lemma {:induction false} BodiesAgree(header: string)
    ensures RustBody(header) == PythonBody(header) <==> !MarksCrossed(header, OPEN, CLOSE)
  {
    assert OPEN[0] == 't' && CLOSE[0] == '}';
    if MarksCrossed(header, OPEN, CLOSE) {
      CrossedMarksDiffer(header, OPEN, CLOSE);
    } else {
      UncrossedMarksAgree(header, OPEN, CLOSE);
    }
  }

  lemma {:induction false} FindAfter(s: string, needle: string, start: nat)
    requires Find(s, needle).Some? && start <= Find(s, needle).value
    ensures Find(s[start..], needle) == Some(Find(s, needle).value - start)
  {
    var at := Find(s, needle).value - start;
    OccursAfter(s, needle, start, at);
    forall k: nat | k < at
      ensures !OccursAt(s[start..], needle, k)
    {
      OccursAfter(s, needle, start, k);
    }
    FindIs(s[start..], needle, at);
  }

  lemma {:induction false} FindIs(s: string, needle: string, at: nat)
    requires OccursAt(s, needle, at) && forall k: nat :: k < at ==> !OccursAt(s, needle, k)
    ensures Find(s, needle) == Some(at)
  {
  }

  lemma {:induction false} OccursAfter(s: string, needle: string, start: nat, k: nat)
    requires start <= |s|
    ensures OccursAt(s[start..], needle, k) <==> OccursAt(s, needle, start + k)
  {
    if k <= |s| - start {
      assert s[start..][k..] == s[start + k..];
    }
  }

  /** What both cut out of a header: from the first opening mark up to the first
      closing one. */
  lemma {:induction false} StructIsCut(before: string, body: string, after: string)
    requires var header := before + ("typedef struct {" + (body + ("} duckdb_ext_api_v1;" + after)));
             && (forall k: nat :: k < |before| ==> !OccursAt(header, "typedef struct {", k))
             && (forall k: nat :: k < |before| + 16 + |body| ==> !OccursAt(header, "} duckdb_ext_api_v1;", k))
    ensures var header := before + ("typedef struct {" + (body + ("} duckdb_ext_api_v1;" + after)));
            PythonBody(header) == RustBody(header) == Some("typedef struct {" + body)
  {
    var header := before + ("typedef struct {" + (body + ("} duckdb_ext_api_v1;" + after)));
    MarksAt(header, before, OPEN, body, CLOSE, after);
    BodiesAgree(header);
  }

  lemma {:induction false} MarksAt(header: string, before: string, open: string, body: string, close: string, after: string)
    requires header == before + (open + (body + (close + after)))
    requires forall k: nat :: k < |before| ==> !OccursAt(header, open, k)
    requires forall k: nat :: k < |before| + |open| + |body| ==> !OccursAt(header, close, k)
    ensures PythonSlice(header, open, close) == Some(open + body) && !MarksCrossed(header, open, close)
  {
    var end := |before| + |open| + |body|;
    assert header[|before|..] == open + (body + (close + after));
    assert header[end..] == close + after;
    FindIs(header, open, |before|);
    FindIs(header, close, end);
    assert header[|before|..end] == open + body;
  }

  // ---- build.rs

  /** Rust's `trim_start` on ASCII. */
  function TrimStart(s: string): string {
    if s != "" && ('\t' <= s[0] <= '\r' || s[0] == ' ') then TrimStart(s[1..]) else s
  }

  predicate HasAlternative(line: string) {
    StartsWith(TrimStart(line), "#else") || StartsWith(TrimStart(line), "#elif")
  }

  datatype FieldError = Alternative | UnexpectedName(name: string) | NoFields

  predicate IsAsciiBlank(c: char) {
    c in "\t\n\U{b}\U{c}\r "
  }

  predicate AsciiBlank(s: string) {
    forall i :: 0 <= i < |s| ==> IsAsciiBlank(s[i])
  }

  lemma {:induction false} AsciiBlanks(c: char)
    ensures IsAsciiBlank(c) <==> '\t' <= c <= '\r' || c == ' '
  {
  }

  predicate BeginsWith(line: string, word: string, blanks: string, rest: string) {
    AsciiBlank(blanks) && line == blanks + (word + rest)
  }

  lemma {:induction false} FirstWord(line: string, word: string)
    requires word != "" && word[0] == '#'
    ensures word <= TrimStart(line) <==> exists blanks, rest :: BeginsWith(line, word, blanks, rest)
  {
    if word <= TrimStart(line) {
      var front := TrimFront(line);
      Begins(line, front, TrimStart(line), word);
    }
    if blanks, rest :| BeginsWith(line, word, blanks, rest) {
      assert (word + rest)[0] == '#';
      TrimStartPast(blanks, word + rest);
    }
  }

  lemma {:induction false} Begins(line: string, front: string, trimmed: string, word: string)
    requires AsciiBlank(front) && line == front + trimmed && word <= trimmed
    ensures exists blanks, rest :: BeginsWith(line, word, blanks, rest)
  {
    assert trimmed == word + trimmed[|word|..];
    assert BeginsWith(line, word, front, trimmed[|word|..]);
  }

  /** A line is refused for the word it begins with, blanks aside. */
  lemma {:induction false} AlternativeIsWord(line: string)
    ensures HasAlternative(line) <==>
            || (exists blanks, rest :: BeginsWith(line, "#else", blanks, rest))
            || (exists blanks, rest :: BeginsWith(line, "#elif", blanks, rest))
  {
    FirstWord(line, "#else");
    FirstWord(line, "#elif");
  }

  lemma {:induction false} TrimFront(s: string) returns (front: string)
    ensures AsciiBlank(front) && s == front + TrimStart(s)
  {
    front := "";
    if s != "" {
      AsciiBlanks(s[0]);
      if IsAsciiBlank(s[0]) {
        var more := TrimFront(s[1..]);
        front := [s[0]] + more;
      }
    }
  }

  lemma {:induction false} TrimStartPast(blanks: string, rest: string)
    requires AsciiBlank(blanks) && rest != "" && rest[0] == '#'
    ensures TrimStart(blanks + rest) == rest
  {
    if blanks == "" {
      assert blanks + rest == rest;
    } else {
      AsciiBlanks(blanks[0]);
      assert (blanks + rest)[1..] == blanks[1..] + rest;
      TrimStartPast(blanks[1..], rest);
    }
  }

  ghost predicate AlternativeLine(body: string, i: int) {
    && 0 <= i < |Split(body, '\n')|
    && (|| (exists blanks, rest :: BeginsWith(Split(body, '\n')[i], "#else", blanks, rest))
        || (exists blanks, rest :: BeginsWith(Split(body, '\n')[i], "#elif", blanks, rest)))
  }

  /** A struct with an alternative branch anywhere is refused, before any name is
      looked at. */
  lemma {:induction false} AlternativeIsRefused(body: string)
    ensures ApiFields(body) == Err(Alternative) <==> exists i :: AlternativeLine(body, i)
  {
    var lines := Split(body, '\n');
    forall i | 0 <= i < |lines|
      ensures HasAlternative(lines[i]) <==> AlternativeLine(body, i)
    {
      AlternativeIsWord(lines[i]);
    }
    StarNamesAt(body);
  }

  function NameAt(s: string, k: int): string
    requires 0 <= k && k + 2 <= |s|
  {
    WordPrefix(TrimStart(s[k + 2..]))
  }

  /** The pointer at `k`, if there is one, has an expected name. */
  predicate Expected(s: string, k: int)
    requires 0 <= k
  {
    StarAt(s, k) ==> "duckdb_" <= NameAt(s, k)
  }

  predicate FirstUnexpected(s: string, k: int) {
    && 0 <= k < |s| && !Expected(s, k)
    && forall j :: 0 <= j < k ==> Expected(s, j)
  }

  lemma {:induction false} ExpectedTail(s: string, d: nat, k: nat)
    requires d <= |s|
    ensures StarAt(s[d..], k) <==> StarAt(s, k + d)
    ensures StarAt(s, k + d) ==> NameAt(s[d..], k) == NameAt(s, k + d)
    ensures Expected(s[d..], k) <==> Expected(s, k + d)
  {
    if k + d + 2 <= |s| {
      assert s[d..][k + 2..] == s[k + d + 2..];
    }
  }

  /** The names are refused for the first pointer that has an unexpected one,
      wherever it stands, and for nothing else. */
  lemma {:induction false} StarNamesAt(s: string)
    ensures StarNames(s).Ok? <==> forall k :: 0 <= k < |s| ==> Expected(s, k)
    ensures StarNames(s).Err? ==>
              exists k :: FirstUnexpected(s, k) && StarNames(s).error == UnexpectedName(NameAt(s, k))
    decreases |s|
  {
    if s != "" {
      var d := if StarAt(s, 0) then 2 else 1;
      forall k: nat | k < |s| - d
        ensures Expected(s[d..], k) <==> Expected(s, k + d)
      {
        ExpectedTail(s, d, k);
      }
      if Expected(s, 0) {
        StarNamesAt(s[d..]);
        StarNamesOn(s, d);
      } else {
        assert FirstUnexpected(s, 0);
      }
    }
  }

  lemma {:induction false} StarNamesOn(s: string, d: nat)
    requires s != "" && d <= |s| && d == (if StarAt(s, 0) then 2 else 1) && Expected(s, 0)
    requires forall k: nat :: k < |s| - d ==> (Expected(s[d..], k) <==> Expected(s, k + d))
    requires StarNames(s[d..]).Ok? <==> forall k :: 0 <= k < |s[d..]| ==> Expected(s[d..], k)
    requires StarNames(s[d..]).Err? ==>
               exists k :: FirstUnexpected(s[d..], k) && StarNames(s[d..]).error == UnexpectedName(NameAt(s[d..], k))
    ensures StarNames(s).Ok? <==> forall k :: 0 <= k < |s| ==> Expected(s, k)
    ensures StarNames(s).Err? ==>
              exists k :: FirstUnexpected(s, k) && StarNames(s).error == UnexpectedName(NameAt(s, k))
  {
    assert d == 2 ==> Expected(s, 1);
    if StarNames(s[d..]).Err? {
      var k :| FirstUnexpected(s[d..], k) && StarNames(s[d..]).error == UnexpectedName(NameAt(s[d..], k));
      ExpectedTail(s, d, k);
      forall j | 0 <= j < k + d
        ensures Expected(s, j)
      {
        assert j >= d ==> Expected(s[d..], j - d);
      }
      assert FirstUnexpected(s, k + d);
    } else {
      forall k | 0 <= k < |s|
        ensures Expected(s, k)
      {
        assert k >= d ==> Expected(s[d..], k - d);
      }
    }
  }

  predicate StarAt(s: string, k: nat) {
    k + 1 < |s| && s[k] == '(' && s[k + 1] == '*'
  }

  lemma {:induction false} PairAt(s: string, pair: string, k: nat)
    requires |pair| == 2 && k <= |s|
    ensures pair <= s[k..] <==> k + 1 < |s| && s[k] == pair[0] && s[k + 1] == pair[1]
  {
    if k + 1 < |s| {
      assert s[k..][0] == s[k] && s[k..][1] == s[k + 1];
      assert s[k] == pair[0] && s[k + 1] == pair[1] ==> s[k..][..2] == pair;
    }
  }

  lemma {:induction false} FindsStars(s: string)
    ensures var r := Find(s, STAR);
            && (r.Some? ==> StarAt(s, r.value) && forall k :: 0 <= k < r.value ==> !StarAt(s, k))
            && (r.None? ==> forall k :: 0 <= k <= |s| ==> !StarAt(s, k))
  {
    var r := Find(s, STAR);
    forall k: nat | k <= |s|
      ensures StarAt(s, k) <==> OccursAt(s, STAR, k)
    {
      PairAt(s, STAR, k);
    }
    if r.Some? {
      assert s[r.value] == s[r.value..r.value + 2][0] && s[r.value + 1] == s[r.value..r.value + 2][1];
    }
  }

  /** The names after each `(*` of the text; an unexpected one is an error. */
  function StarNames(s: string): Result<seq<string>, FieldError>
    decreases |s|
  {
    if s == "" then Ok([])
    else if !StarAt(s, 0) then StarNames(s[1..])
    else
      var name := WordPrefix(TrimStart(s[2..]));
      if !StartsWith(name, "duckdb_") then Err(UnexpectedName(name))
      else
        var rest := StarNames(s[2..]);
        if rest.Ok? then Ok([name] + rest.value) else rest
  }

  /** `ext_api_v1_fields` on the body. */
  function ApiFields(body: string): Result<seq<string>, FieldError> {
    if exists i :: 0 <= i < |Split(body, '\n')| && HasAlternative(Split(body, '\n')[i]) then Err(Alternative)
    else
      var names := StarNames(body);
      if names.Ok? && names.value == [] then Err(NoFields) else names
  }

  lemma {:induction false} StarNamesSkip(s: string, at: nat)
    requires at <= |s| && forall k :: 0 <= k < at ==> !StarAt(s, k)
    ensures StarNames(s) == StarNames(s[at..])
    decreases at
  {
    if at > 0 {
      assert forall k :: 0 <= k < at - 1 ==> (StarAt(s[1..], k) <==> StarAt(s, k + 1));
      StarNamesSkip(s[1..], at - 1);
      assert s[1..][at - 1..] == s[at..];
    }
  }

  function Prepend(front: seq<string>, r: Result<seq<string>, FieldError>): Result<seq<string>, FieldError> {
    if r.Ok? then Ok(front + r.value) else r
  }

  method ExtApiV1Fields(body: string) returns (r: Result<seq<string>, FieldError>)
    ensures r == ApiFields(body)
  {
    var lines := Split(body, '\n');
    for i := 0 to |lines|
      invariant forall k :: 0 <= k < i ==> !HasAlternative(lines[k])
    {
      if HasAlternative(lines[i]) {
        return Err(Alternative);
      }
    }
    var fields: seq<string> := [];
    var rest := body;
    assert StarNames(body).Ok? ==> [] + StarNames(body).value == StarNames(body).value;
    while true
      invariant StarNames(body) == Prepend(fields, StarNames(rest))
      decreases |rest|
    {
      var found := Find(rest, STAR);
      FindsStars(rest);
      if found.None? {
        StarNamesSkip(rest, |rest|);
        break;
      }
      var at := found.value;
      StarNamesSkip(rest, at);
      assert StarAt(rest[at..], 0);
      assert rest[at..][2..] == rest[at + 2..];
      rest := rest[at + 2..];
      var name := WordPrefix(TrimStart(rest));
      if !StartsWith(name, "duckdb_") {
        return Err(UnexpectedName(name));
      }
      assert StarNames(rest).Ok? ==>
          fields + ([name] + StarNames(rest).value) == fields + [name] + StarNames(rest).value;
      fields := fields + [name];
    }
    assert fields + [] == fields;
    r := if fields == [] then Err(NoFields) else Ok(fields);
  }

  // ---- The headers

  /** Blanks that stay on the line, for both readers. */
  predicate InLine(s: string) {
    forall i :: 0 <= i < |s| ==> s[i] == ' ' || s[i] == '\t' || '\U{b}' <= s[i] <= '\r'
  }

  /** What makes a declaration a function pointer: `(*name)`, with any blanks. */
  datatype Mark = Mark(gap1: string, gap2: string, name: string, gap3: string) {
    predicate Legal() {
      InLine(gap1) && InLine(gap2) && InLine(gap3) && "duckdb_" < name && WordPrefix(name) == name
    }

    function Text(): string {
      "(" + (gap1 + ("*" + AfterStar()))
    }

    function AfterStar(): string {
      gap2 + (name + (gap3 + ")"))
    }
  }

  /** A piece of a header: a declaration with one function pointer, over one
      or more lines; a directive with its continuation lines; or a line with
      neither (blank, or a comment). */
  datatype Item =
    | Pointer(lead: string, mark: Mark, tail: seq<string>)
    | Conditional(lines: seq<string>)
    | Filler(line: string)
  {
    function Lines(): seq<string> {
      match this
      case Pointer(lead, mark, tail) =>
        if tail == [] then [] else [FirstLine(lead, mark, tail[0])] + tail[1..]
      case Conditional(lines) => lines
      case Filler(line) => [line]
    }

    /** The last line of a declaration may hold a comment after its `;`, and
        comments may hold any parentheses but a pointer's. */
    predicate Legal() {
      match this
      case Pointer(lead, mark, tail) =>
        && Plain(lead) && Harmless(StripLeft(lead)) && !StartsWith(StripLeft(lead), "#")
        && mark.Legal() && tail != []
        && (forall i :: 0 <= i < |tail| ==> Plain(tail[i]) && (i < |tail| - 1 ==> !Ends(tail[i])))
        && (forall i :: 1 <= i < |tail| ==> !StartsWith(Strip(tail[i]), "#"))
      case Conditional(lines) =>
        && lines != []
        && StartsWith(Strip(lines[0]), "#")
        && (forall i :: 0 <= i < |lines| ==>
              && Plain(lines[i])
              && !HasAlternative(lines[i])
              && (EndsWithChar(Strip(lines[i]), '\\') <==> i < |lines| - 1))
      case Filler(line) =>
        Plain(line) && Harmless(Strip(line)) && !StartsWith(Strip(line), "#")
    }
  }

  function FirstLine(lead: string, mark: Mark, tail: string): string {
    lead + (mark.Text() + tail)
  }

  /** The line ends in `;`, which is where the script ends a declaration. */
  predicate Ends(line: string) {
    LastInk(line) == Some(';')
  }

  /** One line, with no `(*` in it. */
  predicate Plain(line: string) {
    '\n' !in line && forall k :: 0 <= k < |line| ==> !StarAt(line, k)
  }

  function AllLines(items: seq<Item>): seq<string> {
    if items == [] then [] else items[0].Lines() + AllLines(items[1..])
  }

  ghost predicate AllLegal(items: seq<Item>) {
    forall i :: 0 <= i < |items| ==> items[i].Legal()
  }

  function OwnNames(item: Item): seq<string> {
    if item.Pointer? then [item.mark.name] else []
  }

  /** The declarations, as a C compiler sees them. */
  function PointerNames(items: seq<Item>): seq<string> {
    if items == [] then [] else OwnNames(items[0]) + PointerNames(items[1..])
  }

  /** The struct as it stands in a header: the opening line, the items, and
      whatever blanks precede the closing brace. */
  function Rendered(items: seq<Item>): string {
    Join([OPEN] + AllLines(items) + [""], "\n")
  }

  // ---- Stripping

  lemma {:induction false} StripLeftParts(s: string)
    ensures StripLeft(s) != "" ==> !IsSpace(StripLeft(s)[0])
    ensures forall c :: c in StripLeft(s) ==> c in s
  {
    if s != "" && IsSpace(s[0]) {
      StripLeftParts(s[1..]);
    }
  }

  lemma {:induction false} StripRightParts(s: string)
    ensures StripRight(s) <= s
    ensures s != "" && !IsSpace(s[0]) ==> StripRight(s) != ""
    ensures LastInk(StripRight(s)) == LastInk(s)
  {
    if s != "" && IsSpace(s[|s| - 1]) {
      StripRightParts(s[..|s| - 1]);
    }
  }

  lemma {:induction false} StripParts(s: string)
    ensures LastInk(Strip(s)) == LastInk(s)
    ensures forall c :: c in Strip(s) ==> c in s
    ensures StripLeft(s) != "" ==> Strip(s) != "" && Strip(s)[0] == StripLeft(s)[0]
  {
    StripLeftParts(s);
    StripRightParts(StripLeft(s));
    LastInkStripLeft(s);
  }

  lemma {:induction false} TrimStartIsStripLeft(s: string)
    ensures StripLeft(TrimStart(s)) == StripLeft(s)
  {
    if s != "" && ('\t' <= s[0] <= '\r' || s[0] == ' ') {
      TrimStartIsStripLeft(s[1..]);
    }
  }

  lemma {:induction false} AlternativeIsDirective(line: string)
    requires HasAlternative(line)
    ensures StartsWith(Strip(line), "#")
  {
    TrimStartIsStripLeft(line);
    assert TrimStart(line)[0] == '#';
    StripParts(line);
  }

  // ---- What build.rs reads in them

  /** It finds a pointer by `(*`, without a blank between. */
  predicate Tight(item: Item) {
    item.Pointer? && item.mark.gap1 == ""
  }

  function TightNames(items: seq<Item>): seq<string> {
    if items == [] then []
    else (if Tight(items[0]) then OwnNames(items[0]) else []) + TightNames(items[1..])
  }

  /** A line without `(*` contributes no name. */
  lemma {:induction false} PlainLine(line: string, rest: string)
    requires Plain(line)
    ensures StarNames(line + "\n" + rest) == StarNames(rest)
  {
    var s := line + "\n" + rest;
    forall k | 0 <= k < |line| + 1
      ensures !StarAt(s, k)
    {
      assert k < |line| ==> !StarAt(line, k);
      assert s[k] == if k < |line| then line[k] else '\n';
      assert k < |line| ==> s[k + 1] == if k + 1 < |line| then line[k + 1] else '\n';
    }
    StarNamesSkip(s, |line| + 1);
    assert s[|line| + 1..] == rest;
  }

  lemma {:induction false} WordPrefixPast(name: string, rest: string)
    requires WordPrefix(name) == name && (rest == "" || !IsWord(rest[0]))
    ensures WordPrefix(name + rest) == name
    ensures forall i :: 0 <= i < |name| ==> IsWord(name[i])
  {
    if name == "" {
      assert name + rest == rest;
    } else {
      assert IsWord(name[0]) && WordPrefix(name[1..]) == name[1..];
      assert (name + rest)[1..] == name[1..] + rest;
      WordPrefixPast(name[1..], rest);
    }
  }

  lemma {:induction false} PlainAppend(a: string, b: string)
    requires Plain(a) && Plain(b) && (a == "" || b == "" || a[|a| - 1] != '(' || b[0] != '*')
    ensures Plain(a + b)
  {
    var s := a + b;
    forall k | 0 <= k < |s|
      ensures !StarAt(s, k) && s[k] != '\n'
    {
      if k < |a| - 1 {
        assert s[k] == a[k] && s[k + 1] == a[k + 1] && !StarAt(a, k);
      } else if k >= |a| {
        assert s[k] == b[k - |a|] && !StarAt(b, k - |a|);
        assert k + 1 < |s| ==> s[k + 1] == b[k - |a| + 1];
      } else {
        assert s[k] == a[k] && (b != "" ==> s[k + 1] == b[0]);
      }
    }
  }

  lemma {:induction false} PlainBlanks(s: string)
    requires InLine(s)
    ensures Plain(s) && AllSpace(s) && '(' !in s
  {
  }

  /** What follows a pointer's star holds no `(*` itself. */
  lemma {:induction false} PlainAfterStar(mark: Mark, tail: string)
    requires mark.Legal() && Plain(tail)
    ensures Plain(mark.AfterStar() + tail) && mark.AfterStar()[0] != '*'
  {
    var close := mark.gap3 + ")";
    PlainBlanks(mark.gap2);
    PlainBlanks(mark.gap3);
    WordPrefixPast(mark.name, "");
    assert mark.name + "" == mark.name;
    assert Plain(mark.name) && mark.name[0] == 'd';
    PlainAppend(mark.gap3, ")");
    PlainAppend(mark.name, close);
    PlainAppend(mark.gap2, mark.name + close);
    PlainAppend(mark.AfterStar(), tail);
  }

  lemma {:induction false} StarNamesPastLead(lead: string, s: string)
    requires Plain(lead) && s != "" && s[0] == '('
    ensures StarNames(lead + s) == StarNames(s)
  {
    var text := lead + s;
    forall k | 0 <= k < |lead|
      ensures !StarAt(text, k)
    {
      assert !StarAt(lead, k) && text[k] == lead[k];
      assert text[k + 1] == if k + 1 < |lead| then lead[k + 1] else '(';
    }
    StarNamesSkip(text, |lead|);
    assert text[|lead|..] == s;
  }

  lemma {:induction false} TrimBlanks(blanks: string, s: string)
    requires InLine(blanks) && s != "" && s[0] == 'd'
    ensures TrimStart(blanks + s) == s
  {
    if blanks == "" {
      assert blanks + s == s;
    } else {
      assert (blanks + s)[1..] == blanks[1..] + s;
      TrimBlanks(blanks[1..], s);
    }
  }

  /** Right after `(*`: the name is read, and the scan goes on behind the mark. */
  lemma {:induction false} StarNamesHead(mark: Mark, after: string)
    requires mark.Legal()
    ensures StarNames(STAR + (mark.AfterStar() + after)) == Prepend([mark.name], StarNames(mark.AfterStar() + after))
  {
    var s := mark.AfterStar() + after;
    var rest := mark.gap3 + ")" + after;
    assert s == mark.gap2 + (mark.name + rest);
    assert mark.name[0] == 'd';
    TrimBlanks(mark.gap2, mark.name + rest);
    assert rest[0] == if mark.gap3 == "" then ')' else mark.gap3[0];
    WordPrefixPast(mark.name, rest);
    assert (STAR + s)[2..] == s && StarAt(STAR + s, 0);
  }

  lemma {:induction false} Regroup(a: string, b: string, c: string, d: string, e: string)
    ensures a + (b + c) + d + e == a + (b + (c + d + e))
  {
  }

  /** The first line of a declaration contributes its name if the mark is tight. */
  lemma {:induction false} PointerLine(lead: string, mark: Mark, tail: string, rest: string)
    requires Plain(lead) && mark.Legal() && Plain(tail)
    ensures StarNames(FirstLine(lead, mark, tail) + "\n" + rest)
            == Prepend(if mark.gap1 == "" then [mark.name] else [], StarNames(rest))
  {
    PlainAfterStar(mark, tail);
    if mark.gap1 == "" {
      var after := tail + "\n" + rest;
      assert mark.Text() == STAR + mark.AfterStar();
      assert FirstLine(lead, mark, tail) + "\n" + rest == lead + (STAR + (mark.AfterStar() + after));
      StarNamesPastLead(lead, STAR + (mark.AfterStar() + after));
      StarNamesHead(mark, after);
      PlainLine(mark.AfterStar() + tail, rest);
      assert mark.AfterStar() + tail + "\n" + rest == mark.AfterStar() + after;
    } else {
      LooseIsPlain(lead, mark, tail);
      PlainLine(FirstLine(lead, mark, tail), rest);
      var names := StarNames(rest);
      assert names.Ok? ==> [] + names.value == names.value;
    }
  }

  lemma {:induction false} LooseIsPlain(lead: string, mark: Mark, tail: string)
    requires Plain(lead) && mark.Legal() && mark.gap1 != "" && Plain(tail)
    ensures Plain(FirstLine(lead, mark, tail))
  {
    var behind := mark.AfterStar() + tail;
    PlainAfterStar(mark, tail);
    PlainBlanks(mark.gap1);
    PlainAppend("*", behind);
    PlainAppend(mark.gap1, "*" + behind);
    PlainAppend("(", mark.gap1 + ("*" + behind));
    PlainAppend(lead, "(" + (mark.gap1 + ("*" + behind)));
    assert FirstLine(lead, mark, tail) == lead + ("(" + (mark.gap1 + ("*" + behind)));
  }

  /** Lines without `(*`, before at least one more. */
  lemma {:induction false} PlainLines(lines: seq<string>, more: seq<string>)
    requires more != [] && forall i :: 0 <= i < |lines| ==> Plain(lines[i])
    ensures StarNames(Join(lines + more, "\n")) == StarNames(Join(more, "\n"))
  {
    if lines == [] {
      assert lines + more == more;
    } else {
      assert (lines + more)[1..] == lines[1..] + more;
      PlainLine(lines[0], Join(lines[1..] + more, "\n"));
      PlainLines(lines[1..], more);
    }
  }

  lemma {:induction false} StarNamesOfItem(item: Item, more: seq<string>)
    requires item.Legal() && more != []
    ensures StarNames(Join(item.Lines() + more, "\n"))
            == Prepend(if Tight(item) then OwnNames(item) else [], StarNames(Join(more, "\n")))
  {
    var after := StarNames(Join(more, "\n"));
    assert after.Ok? ==> [] + after.value == after.value;
    match item
    case Pointer(lead, mark, tail) =>
      var first := FirstLine(lead, mark, tail[0]);
      var others := tail[1..] + more;
      assert item.Lines() + more == [first] + others;
      assert ([first] + others)[1..] == others;
      PointerLine(lead, mark, tail[0], Join(others, "\n"));
      PlainLines(tail[1..], more);
    case Conditional(lines) =>
      PlainLines(lines, more);
    case Filler(line) =>
      assert item.Lines() == [line];
      PlainLines([line], more);
  }

  lemma {:induction false} StarNamesOfItems(items: seq<Item>)
    requires AllLegal(items)
    ensures StarNames(Join(AllLines(items) + [""], "\n")) == Ok(TightNames(items))
  {
    if items == [] {
      assert AllLines(items) + [""] == [""];
    } else {
      assert items[0].Legal();
      StarNamesOfItems(items[1..]);
      StarNamesOfItem(items[0], AllLines(items[1..]) + [""]);
      assert AllLines(items) + [""] == items[0].Lines() + (AllLines(items[1..]) + [""]);
    }
  }

  /** What the first line of a declaration leaves after stripping. */
  lemma {:induction false} FirstLineStripped(lead: string, mark: Mark, tail: string)
    requires !StartsWith(StripLeft(lead), "#")
    ensures var line := FirstLine(lead, mark, tail);
            && Strip(line) == StripLeft(lead) + (mark.Text() + StripRight(tail))
            && !StartsWith(Strip(line), "#")
            && (LastInk(Strip(line)) == Some(';') <==> Ends(tail))
  {
    var text := mark.Text();
    assert text[0] == '(' && text[|text| - 1] == ')';
    StrippedAround(lead, text, tail);
  }

  lemma {:induction false} StrippedAround(lead: string, text: string, tail: string)
    requires text != "" && text[0] == '(' && text[|text| - 1] == ')' && !StartsWith(StripLeft(lead), "#")
    ensures var line := lead + (text + tail);
            && Strip(line) == StripLeft(lead) + (text + StripRight(tail))
            && !StartsWith(Strip(line), "#")
            && (LastInk(Strip(line)) == Some(';') <==> LastInk(tail) == Some(';'))
  {
    var line := lead + (text + tail);
    StripLeftPast(lead, text + tail);
    var head := StripLeft(lead) + text;
    Assoc(StripLeft(lead), text, tail);
    Assoc(StripLeft(lead), text, StripRight(tail));
    StripRightPast(head, tail);
    StripParts(line);
    LastInkAppend(head, tail);
    LastInkStripLeft(line);
  }

  // ---- The whole body

  lemma {:induction false} RenderedLines(items: seq<Item>)
    requires AllLegal(items)
    ensures Split(Rendered(items), '\n') == [OPEN] + (AllLines(items) + [""])
  {
    var lines := [OPEN] + AllLines(items) + [""];
    LinesHaveNoBreak(items);
    SplitOfJoin(lines, '\n');
    assert lines == [OPEN] + (AllLines(items) + [""]);
  }

  lemma {:induction false} OpeningLine()
    ensures Plain(OPEN) && !HasAlternative(OPEN) && !HasAlternative("")
  {
    assert OPEN[0] == 't';
    assert TrimStart(OPEN) == OPEN;
  }

  /** build.rs, for every such header: the declarations whose mark it finds, in
      order, or an error if it finds none. */
  lemma {:induction false} BuildReads(items: seq<Item>)
    requires AllLegal(items)
    ensures ApiFields(Rendered(items)) == if TightNames(items) == [] then Err(NoFields) else Ok(TightNames(items))
  {
    RenderedLines(items);
    OpeningLine();
    BuildReadsFrom(OPEN, items);
  }

  lemma {:induction false} BuildReadsFrom(open: string, items: seq<Item>)
    requires AllLegal(items)
    requires Plain(open) && !HasAlternative(open) && !HasAlternative("")
    requires Split(Join([open] + AllLines(items) + [""], "\n"), '\n') == [open] + (AllLines(items) + [""])
    ensures ApiFields(Join([open] + AllLines(items) + [""], "\n"))
            == if TightNames(items) == [] then Err(NoFields) else Ok(TightNames(items))
  {
    var more := AllLines(items) + [""];
    assert [open] + AllLines(items) + [""] == [open] + more;
    assert ([open] + more)[1..] == more;
    PlainLine(open, Join(more, "\n"));
    StarNamesOfItems(items);
    NoAlternatives(items);
    assert forall i :: 0 <= i < |[open] + more| ==> !HasAlternative(([open] + more)[i]);
  }

  lemma {:induction false} LinesHaveNoBreak(items: seq<Item>)
    requires AllLegal(items)
    ensures forall i :: 0 <= i < |AllLines(items)| ==> '\n' !in AllLines(items)[i]
  {
    if items != [] {
      LinesHaveNoBreak(items[1..]);
      assert items[0].Legal();
      ItemHasNoBreak(items[0]);
    }
  }

  lemma {:induction false} ItemHasNoBreak(item: Item)
    requires item.Legal()
    ensures forall i :: 0 <= i < |item.Lines()| ==> '\n' !in item.Lines()[i]
  {
    match item
    case Pointer(lead, mark, tail) =>
      FirstLineHasNoBreak(lead, mark, tail[0]);
      assert forall i :: 1 <= i < |tail| ==> item.Lines()[i] == tail[i];
    case _ =>
  }

  lemma {:induction false} FirstLineHasNoBreak(lead: string, mark: Mark, tail: string)
    requires Plain(lead) && mark.Legal() && Plain(tail)
    ensures '\n' !in FirstLine(lead, mark, tail)
  {
    PlainAfterStar(mark, tail);
    PlainBlanks(mark.gap1);
    var behind := mark.AfterStar() + tail;
    assert FirstLine(lead, mark, tail) == lead + ("(" + (mark.gap1 + ("*" + behind)));
  }

  lemma {:induction false} NoAlternatives(items: seq<Item>)
    requires AllLegal(items)
    ensures forall i :: 0 <= i < |AllLines(items)| ==> !HasAlternative(AllLines(items)[i])
  {
    if items != [] {
      NoAlternatives(items[1..]);
      assert items[0].Legal();
      forall i | 0 <= i < |items[0].Lines()|
        ensures !HasAlternative(items[0].Lines()[i])
      {
        var line := items[0].Lines()[i];
        if items[0].Pointer? && i == 0 {
          FirstLineStripped(items[0].lead, items[0].mark, items[0].tail[0]);
        }
        if HasAlternative(line) && !items[0].Conditional? {
          AlternativeIsDirective(line);
        }
      }
    }
  }
}
