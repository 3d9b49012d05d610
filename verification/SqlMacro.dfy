/** src/sql_macro.rs: the text of a `CREATE OR REPLACE MACRO` statement, what can
    be read back from it, and where its appended parenthesis is lexed. The name
    rules are those of src/validate/function_name.rs. */
module SqlMacro {
  import opened Wrappers
  import opened Text

  // ---- Names

  const MAX_FUNCTION_NAME_LEN: nat := 256

  predicate IsLetter(c: char) {
    'a' <= c <= 'z' || 'A' <= c <= 'Z'
  }

  predicate IsNameChar(c: char) {
    IsLetter(c) || '0' <= c <= '9' || c == '_'
  }

  predicate IsIdentifier(name: string) {
    && 1 <= |name| <= MAX_FUNCTION_NAME_LEN
    && (IsLetter(name[0]) || name[0] == '_')
    && forall i :: 0 <= i < |name| ==> IsNameChar(name[i])
  }

  function LowerChar(c: char): char {
    if 'A' <= c <= 'Z' then c - 'A' + 'a' else c
  }

  function Lower(s: string): (r: string)
    ensures |r| == |s| && forall i :: 0 <= i < |s| ==> r[i] == LowerChar(s[i])
  {
    seq(|s|, i requires 0 <= i < |s| => LowerChar(s[i]))
  }

  /** DuckDB's keyword lists, in lower case. */
  datatype Keywords = Keywords(reserved: set<string>, uncallable: set<string>, unreferenceable: set<string>) {
    /** A keyword is a word. */
    ghost predicate Valid() {
      forall k :: k in uncallable ==> IsIdentifier(k)
    }

    ghost predicate LowerCase() {
      forall k :: k in reserved || k in uncallable || k in unreferenceable ==> forall i :: 0 <= i < |k| ==> !('A' <= k[i] <= 'Z')
    }
  }

  predicate ValidFunctionName(kw: Keywords, name: string) {
    IsIdentifier(name) && Lower(name) !in kw.reserved && Lower(name) !in kw.uncallable
  }

  /** A failure of the function-name rules is passed on unless the name is a
      keyword that only cannot be called. */
  predicate ValidParameterName(kw: Keywords, name: string) {
    (ValidFunctionName(kw, name) || Lower(name) in kw.uncallable) && Lower(name) !in kw.unreferenceable
  }

  lemma {:induction false} ParameterIsIdentifier(kw: Keywords, name: string)
    requires kw.Valid() && ValidParameterName(kw, name)
    ensures IsIdentifier(name)
  {
    if !ValidFunctionName(kw, name) {
      var l := Lower(name);
      assert IsIdentifier(l);
      forall i | 0 <= i < |name|
        ensures IsNameChar(name[i])
      {
        assert IsNameChar(l[i]);
      }
    }
  }

  /** The ASCII letters, digits and the underscore, by their codes. */
  lemma {:induction false} NameCharsAre(c: char)
    ensures IsLetter(c) <==> 65 <= c as int <= 90 || 97 <= c as int <= 122
    ensures IsNameChar(c) <==> IsLetter(c) || 48 <= c as int <= 57 || c as int == 95
  {
  }

  predicate SameLetter(a: char, b: char) {
    a == b || (IsLetter(a) && IsLetter(b) && (a as int - b as int == 32 || b as int - a as int == 32))
  }

  /** Alike but for the case of letters. */
  predicate SameWord(a: string, b: string) {
    |a| == |b| && forall i :: 0 <= i < |a| ==> SameLetter(a[i], b[i])
  }

  ghost predicate Matches(words: set<string>, name: string) {
    exists k :: k in words && SameWord(k, name)
  }

  lemma {:induction false} LowerMatches(words: set<string>, name: string)
    requires forall k :: k in words ==> forall i :: 0 <= i < |k| ==> !('A' <= k[i] <= 'Z')
    ensures Lower(name) in words <==> Matches(words, name)
  {
    if Lower(name) in words {
      assert SameWord(Lower(name), name);
    }
    if k :| k in words && SameWord(k, name) {
      forall i | 0 <= i < |k|
        ensures k[i] == Lower(name)[i]
      {
        assert SameLetter(k[i], name[i]);
      }
      assert k == Lower(name);
    }
  }

  /** A name is accepted for a macro if and only if it is an identifier of at
      most 256 characters that is none of the reserved or uncallable words in any
      case; for a parameter the last condition is on the words that are reserved
      or cannot be referred to. */
  lemma {:induction false} NamesAccepted(kw: Keywords, name: string)
    requires kw.Valid() && kw.LowerCase() && kw.reserved !! kw.uncallable
    ensures ValidFunctionName(kw, name) <==>
            && 1 <= |name| <= 256 && name[0] !in "0123456789" && (forall i :: 0 <= i < |name| ==> IsNameChar(name[i]))
            && !Matches(kw.reserved, name) && !Matches(kw.uncallable, name)
    ensures ValidParameterName(kw, name) <==>
            && 1 <= |name| <= 256 && name[0] !in "0123456789" && (forall i :: 0 <= i < |name| ==> IsNameChar(name[i]))
            && !Matches(kw.reserved, name) && !Matches(kw.unreferenceable, name)
  {
    LowerMatches(kw.reserved, name);
    LowerMatches(kw.uncallable, name);
    LowerMatches(kw.unreferenceable, name);
    if name != "" {
      assert name[0] !in "0123456789" <==> !('0' <= name[0] <= '9');
    }
    if ValidParameterName(kw, name) {
      ParameterIsIdentifier(kw, name);
    }
  }

  // ---- The statement

  datatype Body = Scalar(text: string) | Table(text: string)

  datatype Macro = Macro(name: string, params: seq<string>, body: Body) {
    predicate Validated(kw: Keywords) {
      ValidFunctionName(kw, name) && forall i :: 0 <= i < |params| ==> ValidParameterName(kw, params[i])
    }

    /** What validation leaves of the names for the text. */
    predicate Named() {
      IsIdentifier(name) && forall i :: 0 <= i < |params| ==> IsIdentifier(params[i])
    }
  }

  lemma {:induction false} ValidatedIsNamed(kw: Keywords, m: Macro)
    requires kw.Valid() && m.Validated(kw)
    ensures m.Named()
  {
    forall i | 0 <= i < |m.params|
      ensures IsIdentifier(m.params[i])
    {
      ParameterIsIdentifier(kw, m.params[i]);
    }
  }

  function Quote(ident: string): string {
    "\"" + ident + "\""
  }

  function QuoteAll(idents: seq<string>): seq<string> {
    if idents == [] then [] else [Quote(idents[0])] + QuoteAll(idents[1..])
  }

  predicate HasComment(s: string) {
    exists i :: 0 <= i < |s| - 1 && s[i] == '-' && s[i + 1] == '-'
  }

  lemma {:induction false} CommentIsDashes(s: string)
    ensures HasComment(s) <==> Occurs(s, "--")
  {
    if i :| 0 <= i < |s| - 1 && s[i] == '-' && s[i + 1] == '-' {
      assert s[i..][0] == '-' && s[i..][1] == '-';
      assert OccursAt(s, "--", i);
    }
    if k :| 0 <= k <= |s| && OccursAt(s, "--", k) {
      assert s[k..][0] == '-' && s[k..][1] == '-';
      assert s[k] == '-' && s[k + 1] == '-';
    }
  }

  const CREATE := "CREATE OR REPLACE MACRO "

  /** All of the statement up to the body. */
  function Head(m: Macro): string {
    CREATE + Quote(m.name) + "(" + Join(QuoteAll(m.params), ", ") + ") AS "
  }

  function BodyText(body: Body): string {
    match body
    case Scalar(expr) => if HasComment(expr) then "(" + expr + "\n)" else "(" + expr + ")"
    case Table(query) => "TABLE " + query
  }

  function ToSql(m: Macro): string {
    Head(m) + BodyText(m.body)
  }

  // ---- Reading it back

  /** A quoted identifier and what follows it. */
  function ReadQuoted(s: string): (r: Option<(string, string)>)
    ensures r.Some? ==> |r.value.1| < |s|
  {
    if s == "" || s[0] != '"' then None
    else
      var i := IndexOf(s[1..], '"');
      if i == |s[1..]| then None else Some((s[1..][..i], s[1..][i + 1..]))
  }

  /** The parameters up to the closing parenthesis, and what follows it. */
  function ReadParams(s: string): Option<(seq<string>, string)>
    decreases |s|
  {
    if s != "" && s[0] == ')' then Some(([], s[1..])) else ReadMoreParams(s)
  }

  function ReadMoreParams(s: string): Option<(seq<string>, string)>
    decreases |s|
  {
    var (param, rest) :- ReadQuoted(s);
    if ", " <= rest then
      var (params, end) :- ReadMoreParams(rest[2..]);
      Some(([param] + params, end))
    else if ")" <= rest then Some(([param], rest[1..]))
    else None
  }

  function ReadBody(s: string): Option<Body> {
    if "TABLE " <= s then Some(Table(s[6..]))
    else if |s| >= 2 && s[0] == '(' && s[|s| - 1] == ')' then
      var inner := s[1..|s| - 1];
      Some(Scalar(if Occurs(inner, "--") then inner[..|inner| - 1] else inner))
    else None
  }

  function ReadSql(s: string): Option<Macro> {
    if !("CREATE OR REPLACE MACRO " <= s) then None
    else
      var (name, rest) :- ReadQuoted(s[24..]);
      if !("(" <= rest) then None
      else
        var (params, end) :- ReadParams(rest[1..]);
        if !(" AS " <= end) then None
        else
          var body :- ReadBody(end[4..]);
          Some(Macro(name, params, body))
  }

  lemma {:induction false} QuotedIsRead(ident: string, rest: string)
    requires IsIdentifier(ident)
    ensures ReadQuoted(Quote(ident) + rest) == Some((ident, rest))
  {
    var s := Quote(ident) + rest;
    assert s[1..] == ident + "\"" + rest;
    assert forall i :: 0 <= i < |ident| ==> IsNameChar(ident[i]);
    IndexOfAppend(ident, '"', rest);
    assert s[1..] == ident + ['"'] + rest;
    assert s[1..][..|ident|] == ident && s[1..][|ident| + 1..] == rest;
  }

  lemma {:induction false} ParamsAreRead(params: seq<string>, rest: string)
    requires params != [] && forall i :: 0 <= i < |params| ==> IsIdentifier(params[i])
    ensures ReadMoreParams(Join(QuoteAll(params), ", ") + (")" + rest)) == Some((params, rest))
  {
    QuoteAllParts(params);
    JoinCons(QuoteAll(params), ", ", ")" + rest);
    if |params| == 1 {
      QuotedIsRead(params[0], ")" + rest);
      LastParamIsRead(params[0], rest);
      assert params == [params[0]];
    } else {
      var more := Join(QuoteAll(params[1..]), ", ") + (")" + rest);
      QuotedIsRead(params[0], ", " + more);
      ParamsAreRead(params[1..], rest);
      NextParamIsRead(params[0], more, params[1..], rest);
      assert params == [params[0]] + params[1..];
    }
  }

  lemma {:induction false} QuoteAllParts(idents: seq<string>)
    ensures |QuoteAll(idents)| == |idents|
    ensures idents != [] ==>
              QuoteAll(idents)[0] == Quote(idents[0]) && QuoteAll(idents)[1..] == QuoteAll(idents[1..])
  {
    if idents != [] {
      QuoteAllParts(idents[1..]);
    }
  }

  lemma {:induction false} JoinCons(parts: seq<string>, sep: string, tail: string)
    requires parts != []
    ensures |parts| == 1 ==> Join(parts, sep) + tail == parts[0] + tail
    ensures |parts| > 1 ==> Join(parts, sep) + tail == parts[0] + (sep + (Join(parts[1..], sep) + tail))
  {
  }

  lemma {:induction false} LastParamIsRead(param: string, rest: string)
    requires ReadQuoted(Quote(param) + (")" + rest)) == Some((param, ")" + rest))
    ensures ReadMoreParams(Quote(param) + (")" + rest)) == Some(([param], rest))
  {
    assert (")" + rest)[0] == ')' && (")" + rest)[1..] == rest;
  }

  lemma {:induction false} NextParamIsRead(param: string, more: string, params: seq<string>, rest: string)
    requires ReadQuoted(Quote(param) + (", " + more)) == Some((param, ", " + more))
    requires ReadMoreParams(more) == Some((params, rest))
    ensures ReadMoreParams(Quote(param) + (", " + more)) == Some(([param] + params, rest))
  {
    assert (", " + more)[2..] == more;
  }

  lemma {:induction false} NewlineAddsNoComment(expr: string)
    ensures HasComment(expr + "\n") <==> HasComment(expr)
  {
    var s := expr + "\n";
    if HasComment(expr) {
      var i :| 0 <= i < |expr| - 1 && expr[i] == '-' && expr[i + 1] == '-';
      assert s[i] == '-' && s[i + 1] == '-';
    }
    if i :| 0 <= i < |s| - 1 && s[i] == '-' && s[i + 1] == '-' {
      assert expr[i] == '-' && expr[i + 1] == '-';
    }
  }

  lemma {:induction false} BodyIsRead(body: Body)
    ensures ReadBody(BodyText(body)) == Some(body)
  {
    var s := BodyText(body);
    match body
    case Table(query) =>
      assert s[6..] == query;
    case Scalar(expr) =>
      NewlineAddsNoComment(expr);
      CommentIsDashes(s[1..|s| - 1]);
      assert s[0] == '(';
      if HasComment(expr) {
        assert s[1..|s| - 1] == expr + "\n";
        assert (expr + "\n")[..|expr|] == expr;
      } else {
        assert s[1..|s| - 1] == expr;
      }
  }

  lemma {:induction false} ListIsRead(params: seq<string>, rest: string)
    requires forall i :: 0 <= i < |params| ==> IsIdentifier(params[i])
    ensures ReadParams(Join(QuoteAll(params), ", ") + (")" + rest)) == Some((params, rest))
  {
    var list := Join(QuoteAll(params), ", ") + (")" + rest);
    if params == [] {
      assert list == ")" + rest;
      assert list[1..] == rest;
    } else {
      QuoteAllParts(params);
      JoinCons(QuoteAll(params), ", ", ")" + rest);
      assert Quote(params[0])[0] == '"' && list[0] == '"';
      ParamsAreRead(params, rest);
    }
  }

  lemma {:induction false} HeadIsRead(m: Macro, rest: string)
    requires m.Named()
    ensures ReadSql(Head(m) + rest) ==
            if ReadBody(rest).Some? then Some(Macro(m.name, m.params, ReadBody(rest).value)) else None
  {
    var params := Join(QuoteAll(m.params), ", ");
    var list := params + (")" + (" AS " + rest));
    Regroup(CREATE, Quote(m.name), "(", params, ")", " AS ", rest);
    QuotedIsRead(m.name, "(" + list);
    ListIsRead(m.params, " AS " + rest);
    assert ") AS " == ")" + " AS ";
    ReadByParts(Head(m) + rest, Quote(m.name) + ("(" + list), m.name, list, m.params, rest);
  }

  lemma {:induction false} Regroup(a: string, b: string, c: string, d: string, e: string, f: string, g: string)
    ensures a + b + c + d + (e + f) + g == a + (b + (c + (d + (e + (f + g)))))
  {
  }

  lemma {:induction false} ReadByParts(s: string, afterCreate: string, name: string, list: string, params: seq<string>, rest: string)
    requires s == CREATE + afterCreate && ReadQuoted(afterCreate) == Some((name, "(" + list))
    requires ReadParams(list) == Some((params, " AS " + rest))
    ensures ReadSql(s) == if ReadBody(rest).Some? then Some(Macro(name, params, ReadBody(rest).value)) else None
  {
    assert s[24..] == afterCreate;
    assert ("(" + list)[1..] == list;
    assert (" AS " + rest)[4..] == rest;
  }

  /** The statement determines the macro: name, parameters and body are read
      back from the text of every validated macro. */
  lemma {:induction false} TextDeterminesMacro(kw: Keywords, m: Macro)
    requires kw.Valid() && m.Validated(kw)
    ensures ReadSql(ToSql(m)) == Some(m)
  {
    ValidatedIsNamed(kw, m);
    HeadIsRead(m, BodyText(m.body));
    BodyIsRead(m.body);
  }

  /** The statements in full, for the shapes the unit tests spell out. */
  lemma {:induction false} StatementTexts(name: string, a: string, b: string, body: string)
    ensures ToSql(Macro(name, [], Table(body))) ==
            "CREATE OR REPLACE MACRO " + ("\"" + name + "\"") + "()" + " AS TABLE " + body
    ensures ToSql(Macro(name, [a, b], Scalar(body))) ==
            "CREATE OR REPLACE MACRO " + ("\"" + name + "\"") + "(" + (("\"" + a + "\"") + ", " + ("\"" + b + "\""))
            + ") AS " + ("(" + body + if Occurs(body, "--") then "\n)" else ")")
  {
    CommentIsDashes(body);
    assert QuoteAll([]) == [];
    assert "(" + "" + ") AS " == "()" + " AS " && " AS " + "TABLE " == " AS TABLE ";
    NoParamsText("CREATE OR REPLACE MACRO ", Quote(name), "(", ") AS ", "()", " AS ", "TABLE ", " AS TABLE ", body);
    TwoParams(a, b);
  }

  lemma {:induction false} TwoParams(a: string, b: string)
    ensures Join(QuoteAll([a, b]), ", ") == Quote(a) + ", " + Quote(b)
  {
    assert [a, b][1..] == [b] && [b][1..] == [];
    assert QuoteAll([b]) == [Quote(b)];
    assert QuoteAll([a, b]) == [Quote(a), Quote(b)];
    assert [Quote(a), Quote(b)][1..] == [Quote(b)];
  }

  lemma {:induction false} NoParamsText(create: string, name: string, open: string, close: string, empty: string, between: string,
                                        table: string, asTable: string, body: string)
    requires open + "" + close == empty + between && between + table == asTable
    ensures create + name + open + "" + close + (table + body) == create + name + empty + asTable + body
  {
    assert create + name + open + "" + close == create + name + (open + "" + close);
    assert create + name + (empty + between) + (table + body) == create + name + empty + (between + table) + body;
  }

  lemma {:induction false} ToSqlIsInjective(kw: Keywords, m: Macro, n: Macro)
    requires kw.Valid() && m.Validated(kw) && n.Validated(kw) && ToSql(m) == ToSql(n)
    ensures m == n
  {
    TextDeterminesMacro(kw, m);
    TextDeterminesMacro(kw, n);
  }

  // ---- Where the appended parenthesis is lexed

  /** The SQL lexer between two characters: in code (having just seen a `-`, a
      `/`, part of a word, or a `$` that may open a dollar quote), in a quoted
      string or identifier, in an `E` string with its backslashes, in a dollar
      quote, in a line comment, or in block comments nested `depth` deep. */
  datatype Lexer =
    | Code | Dash | Slash
    | Word(e: bool)                    // `e`: so far just the letter E
    | Tag(tag: string)                 // `$` and these characters
    | Quoted(double: bool)
    | Escaped | Backslash | EscapedEnd // `EscapedEnd`: a quote, which a second one makes part of the string
    | Dollar(tag: string, seen: Option<string>) // `seen`: a `$` and these characters, perhaps the end
    | Line
    | Block(depth: nat) | BlockStar(depth: nat) | BlockSlash(depth: nat)
  {
    predicate InCode() {
      Code? || Dash? || Slash? || Word? || Tag? || EscapedEnd?
    }
  }

  predicate StartsWord(c: char) {
    'a' <= c <= 'z' || 'A' <= c <= 'Z' || c == '_' || c >= '\U{80}'
  }

  predicate InTag(tag: string, c: char) {
    StartsWord(c) || (tag != "" && '0' <= c <= '9')
  }

  /** In code, outside every word. */
  function NextInCode(l: Lexer, c: char): Lexer {
    if c == '-' then (if l.Dash? then Line else Dash)
    else if c == '*' && l.Slash? then Block(1)
    else if c == '/' then Slash
    else if c == '"' || c == '\'' then Quoted(c == '"')
    else if c == '$' then Tag("")
    else if StartsWord(c) then Word(c == 'e' || c == 'E')
    else Code
  }

  function NextInWord(e: bool, c: char): Lexer {
    if StartsWord(c) || '0' <= c <= '9' || c == '$' then Word(false)
    else if e && c == '\'' then Escaped
    else NextInCode(Code, c)
  }

  /** A `$` that opens no dollar quote stands for itself, and what followed it
      is a word. */
  function NextInTag(tag: string, c: char): Lexer {
    if c == '$' then Dollar(tag, None)
    else if InTag(tag, c) then Tag(tag + [c])
    else if tag == "" then NextInCode(Code, c)
    else NextInWord(tag == "e" || tag == "E", c)
  }

  /** Up to the same tag between two `$`. */
  function NextInDollar(tag: string, seen: Option<string>, c: char): Lexer {
    if c == '$' then (if seen == Some(tag) then Code else Dollar(tag, Some("")))
    else if seen.Some? && InTag(seen.value, c) then Dollar(tag, Some(seen.value + [c]))
    else Dollar(tag, None)
  }

  function Next(l: Lexer, c: char): Lexer {
    match l
    case Word(e) => NextInWord(e, c)
    case Tag(tag) => NextInTag(tag, c)
    case Quoted(double) => if c == (if double then '"' else '\'') then Code else l
    case Escaped => if c == '\'' then EscapedEnd else if c == '\\' then Backslash else Escaped
    case Backslash => Escaped
    case EscapedEnd => if c == '\'' then Escaped else NextInCode(Code, c)
    case Dollar(tag, seen) => NextInDollar(tag, seen, c)
    case Line => if c == '\n' || c == '\r' then Code else Line
    case Block(depth) => NextInBlock(l, depth, c)
    case BlockStar(depth) => NextInBlock(l, depth, c)
    case BlockSlash(depth) => NextInBlock(l, depth, c)
    case _ => NextInCode(l, c)
  }

  function NextInBlock(l: Lexer, depth: nat, c: char): Lexer {
    if l.BlockStar? && c == '/' then (if depth <= 1 then Code else Block(depth - 1))
    else if l.BlockSlash? && c == '*' then Block(depth + 1)
    else if c == '*' then BlockStar(depth)
    else if c == '/' then BlockSlash(depth)
    else Block(depth)
  }

  function Lex(l: Lexer, s: string): Lexer {
    if s == "" then l else Next(Lex(l, s[..|s| - 1]), s[|s| - 1])
  }

  lemma {:induction false} LexAppend(l: Lexer, a: string, b: string)
    ensures Lex(l, a + b) == Lex(Lex(l, a), b)
    decreases |b|
  {
    if b == "" {
      assert a + b == a;
    } else {
      assert (a + b)[..|a + b| - 1] == a + b[..|b| - 1];
      LexAppend(l, a, b[..|b| - 1]);
    }
  }

  /** A line comment starts at a `--` of the text. */
  lemma {:induction false} LineNeedsDashes(s: string)
    ensures Lex(Code, s).Dash? ==> s != "" && s[|s| - 1] == '-'
    ensures Lex(Code, s).Line? ==> HasComment(s)
  {
    if s != "" {
      var front := s[..|s| - 1];
      LineNeedsDashes(front);
      if Lex(Code, s).Line? {
        if HasComment(front) {
          var i :| 0 <= i < |front| - 1 && front[i] == '-' && front[i + 1] == '-';
          assert s[i] == '-' && s[i + 1] == '-';
        } else {
          assert Lex(Code, front).Dash?;
          assert s[|s| - 2] == '-' && s[|s| - 1] == '-';
        }
      }
    }
  }

  /** Only words, blanks, parentheses and commas. */
  predicate Wordy(s: string) {
    forall i :: 0 <= i < |s| ==> IsNameChar(s[i]) || s[i] == ' ' || s[i] == '(' || s[i] == ')' || s[i] == ','
  }

  /** Such text leaves the lexer in code, or in a word if it ends in one. */
  lemma {:induction false} WordLexed(s: string)
    requires Wordy(s)
    ensures Lex(Code, s).Code? || Lex(Code, s).Word?
    ensures s == "" || !IsNameChar(s[|s| - 1]) ==> Lex(Code, s) == Code
  {
    if s != "" {
      WordLexed(s[..|s| - 1]);
    }
  }

  lemma {:induction false} QuotedLexed(s: string)
    requires forall i :: 0 <= i < |s| ==> IsNameChar(s[i])
    ensures Lex(Quoted(true), s) == Quoted(true)
  {
    if s != "" {
      QuotedLexed(s[..|s| - 1]);
    }
  }

  lemma {:induction false} IdentifierLexed(ident: string)
    requires IsIdentifier(ident)
    ensures Lex(Code, Quote(ident)) == Code
  {
    QuotedLexed(ident);
    LexAppend(Code, "\"", ident);
    LexAppend(Code, "\"" + ident, "\"");
    assert "\""[..0] == "";
    assert Lex(Code, "\"") == Quoted(true);
    assert Lex(Quoted(true), "\"") == Code;
  }

  lemma {:induction false} ParamsLexed(params: seq<string>)
    requires forall i :: 0 <= i < |params| ==> IsIdentifier(params[i])
    ensures Lex(Code, Join(QuoteAll(params), ", ")) == Code
  {
    if params != [] {
      IdentifierLexed(params[0]);
      if |params| == 1 {
        assert QuoteAll(params[1..]) == [];
      } else {
        ParamsLexed(params[1..]);
        assert QuoteAll(params)[1..] == QuoteAll(params[1..]);
        WordLexed(", ");
        LexAppend(Code, Quote(params[0]), ", ");
        LexAppend(Code, Quote(params[0]) + ", ", Join(QuoteAll(params[1..]), ", "));
      }
    }
  }

  lemma {:induction false} HeadLexed(m: Macro)
    requires m.Named()
    ensures Lex(Code, Head(m)) == Code
  {
    IdentifierLexed(m.name);
    ParamsLexed(m.params);
    PartsLexed(CREATE, Quote(m.name), "(", Join(QuoteAll(m.params), ", "), ") AS ");
  }

  /** Wordy text around text that leaves the lexer in code. */
  lemma {:induction false} PartsLexed(create: string, name: string, open: string, list: string, close: string)
    requires Wordy(create) && Wordy(open) && Wordy(close)
    requires create != "" && create[|create| - 1] == ' ' && open == "(" && close != "" && close[|close| - 1] == ' '
    requires Lex(Code, name) == Code && Lex(Code, list) == Code
    ensures Lex(Code, create + name + open + list + close) == Code
  {
    WordLexed(create);
    WordLexed(open);
    WordLexed(close);
    LexAppend(Code, create, name);
    LexAppend(Code, create + name, open);
    LexAppend(Code, create + name + open, list);
    LexAppend(Code, create + name + open + list, close);
  }

  /** The text of the statement without its last character. */
  function BeforeLast(m: Macro): string
    requires m.body.Scalar?
  {
    Head(m) + "(" + m.body.text + if HasComment(m.body.text) then "\n" else ""
  }

  lemma {:induction false} OpenedLexed(m: Macro, expr: string)
    requires m.Named()
    ensures Lex(Code, Head(m) + "(" + expr) == Lex(Code, expr)
  {
    HeadLexed(m);
    WordLexed("(");
    LexAppend(Code, Head(m), "(");
    LexAppend(Code, Head(m) + "(", expr);
  }

  lemma {:induction false} BeforeLastLexed(m: Macro)
    requires m.Named() && m.body.Scalar?
    ensures var end := Lex(Code, m.body.text);
            Lex(Code, BeforeLast(m)) == if HasComment(m.body.text) then Next(end, '\n') else end
  {
    var open := Head(m) + "(" + m.body.text;
    OpenedLexed(m, m.body.text);
    if HasComment(m.body.text) {
      assert (open + "\n")[..|open|] == open;
      assert BeforeLast(m) == open + "\n";
    } else {
      assert BeforeLast(m) == open + "" == open;
    }
  }

  /** The closing parenthesis appended to a scalar body is lexed as code, outside
      every comment and quote, exactly when the body itself ends in code or in
      a line comment; and then the statement ends there. */
  lemma {:induction false} ParenthesisIsCode(kw: Keywords, m: Macro)
    requires kw.Valid() && m.Validated(kw) && m.body.Scalar?
    ensures ToSql(m) == BeforeLast(m) + ")"
    ensures Lex(Code, BeforeLast(m)).InCode() <==>
            Lex(Code, m.body.text).InCode() || Lex(Code, m.body.text).Line?
    ensures Lex(Code, BeforeLast(m)).InCode() <==> Lex(Code, ToSql(m)) == Code
  {
    ValidatedIsNamed(kw, m);
    ToSqlEnds(m);
    BeforeLastLexed(m);
    LineNeedsDashes(m.body.text);
    NewlineLeavesCode(Lex(Code, m.body.text));
    LexAppend(Code, BeforeLast(m), ")");
    OneParenthesis(Lex(Code, BeforeLast(m)));
  }

  lemma {:induction false} ToSqlEnds(m: Macro)
    requires m.body.Scalar?
    ensures ToSql(m) == BeforeLast(m) + ")"
  {
    var text := m.body.text;
    EndsSame(Head(m), "(", text, if HasComment(text) then "\n" else "", ")");
    assert HasComment(text) ==> "\n)" == "\n" + ")";
    assert !HasComment(text) ==> "" + ")" == ")";
  }

  lemma {:induction false} EndsSame(a: string, b: string, c: string, d: string, e: string)
    ensures a + (b + c + (d + e)) == a + b + c + d + e
  {
  }

  lemma {:induction false} NewlineLeavesCode(l: Lexer)
    ensures Next(l, '\n').InCode() <==> l.InCode() || l.Line?
  {
  }

  lemma {:induction false} OneParenthesis(l: Lexer)
    ensures Lex(l, ")") == Next(l, ')')
    ensures l.InCode() <==> Next(l, ')') == Code
  {
    assert ")"[..0] == "";
  }
}
