/** Release version strings: the run-time parser of src/abi.rs and the
    independent acceptance test of build.rs. */
module Versions {
  import opened Wrappers
  import opened Text

  const U64_LIMIT: nat := 0x1_0000_0000_0000_0000

  datatype Version = Version(major: nat, minor: nat, patch: nat)

  /** Tuple order on versions. */
  predicate Before(a: Version, b: Version) {
    a.major < b.major
    || (a.major == b.major && (a.minor < b.minor || (a.minor == b.minor && a.patch < b.patch)))
  }

  predicate IsDigit(c: char) {
    '0' <= c <= '9'
  }

  predicate AllDigits(s: string) {
    forall i :: 0 <= i < |s| ==> IsDigit(s[i])
  }

  function DecimalValue(s: string): nat
    requires AllDigits(s)
  {
    if s == "" then 0
    else 10 * DecimalValue(s[..|s| - 1]) + (s[|s| - 1] - '0') as int
  }

  /** `part.parse::<u64>()` on digits: fails exactly on overflow. */
  function ParseU64(s: string): Option<nat>
    requires AllDigits(s)
  {
    if DecimalValue(s) < U64_LIMIT then Some(DecimalValue(s)) else None
  }

  function Decimal(part: string): Option<nat> {
    if part == "" || !AllDigits(part) then None else ParseU64(part)
  }

  function StripV(s: string): string {
    if StartsWith(s, "v") then s[1..] else s
  }

  // ---- src/abi.rs: parts are pulled one at a time from a lazy iterator

  /** Rust's `Split` iterator: the text still to be split, or exhausted. */
  datatype SplitIter = Pending(text: string) | Exhausted

  function Next(it: SplitIter): (Option<string>, SplitIter) {
    match it
    case Exhausted => (None, Exhausted)
    case Pending(text) =>
      var i := IndexOf(text, '.');
      if i == |text| then (Some(text), Exhausted) else (Some(text[..i]), Pending(text[i + 1..]))
  }

  function ParseVersion(s: string): Option<Version> {
    var it0 := Pending(StripV(s));
    var (p1, it1) := Next(it0);
    var part1 :- p1;
    var major :- Decimal(part1);
    var (p2, it2) := Next(it1);
    var part2 :- p2;
    var minor :- Decimal(part2);
    var (p3, it3) := Next(it2);
    var part3 :- p3;
    var patch :- Decimal(part3);
    var (p4, _) := Next(it3);
    if p4.Some? then None else Some(Version(major, minor, patch))
  }

  // ---- build.rs: all parts are collected first, then each is examined

  predicate IsReleasePart(p: string) {
    p != "" && AllDigits(p) && ParseU64(p).Some?
  }

  predicate IsReleaseVersion(s: string) {
    var parts := Split(StripV(s), '.');
    |parts| == 3 && forall i :: 0 <= i < |parts| ==> IsReleasePart(parts[i])
  }

  // ---- The grammar both are meant to accept

  /** `s` spells `v`: an optional `v`, then three dotted decimals, leading
      zeros allowed, each below 2^64. */
  ghost predicate Spells(s: string, v: Version) {
    exists a: string, b: string, c: string ::
      && (s == Dotted(a, b, c) || s == "v" + Dotted(a, b, c))
      && SpellsNumber(a, v.major) && SpellsNumber(b, v.minor) && SpellsNumber(c, v.patch)
  }

  function Dotted(a: string, b: string, c: string): string {
    a + "." + b + "." + c
  }

  predicate SpellsNumber(part: string, n: nat) {
    part != "" && AllDigits(part) && DecimalValue(part) == n < 18_446_744_073_709_551_616
  }

  lemma {:induction false} DigitsAre(c: char)
    ensures IsDigit(c) <==> c in "0123456789"
  {
  }

  /** The iterator hands out exactly the parts of the eager split. */
  lemma {:induction false} NextIsSplitHead(text: string)
    ensures Next(Pending(text)).0 == Some(Split(text, '.')[0])
    ensures |Split(text, '.')| == 1 ==> Next(Pending(text)).1 == Exhausted
    ensures |Split(text, '.')| > 1 ==>
              && Next(Pending(text)).1.Pending?
              && Split(Next(Pending(text)).1.text, '.') == Split(text, '.')[1..]
  {
    SplitHead(text, '.');
  }

  /** The first four pulls, against the eager parts. */
  lemma {:induction false} PullsAreParts(text: string)
    ensures var parts := Split(text, '.');
            var (p1, it1) := Next(Pending(text));
            var (p2, it2) := Next(it1);
            var (p3, it3) := Next(it2);
            && p1 == Some(parts[0])
            && p2 == (if |parts| > 1 then Some(parts[1]) else None)
            && p3 == (if |parts| > 2 then Some(parts[2]) else None)
            && (Next(it3).0.Some? <==> |parts| > 3)
  {
    NextIsSplitHead(text);
    var it1 := Next(Pending(text)).1;
    if it1.Pending? {
      NextIsSplitHead(it1.text);
      var it2 := Next(it1).1;
      if it2.Pending? {
        NextIsSplitHead(it2.text);
      }
    }
  }

  /** What the parser makes of the pulled parts. */
  function FromParts(parts: seq<string>): Option<Version> {
    if |parts| != 3 then None
    else
      var major :- Decimal(parts[0]);
      var minor :- Decimal(parts[1]);
      var patch :- Decimal(parts[2]);
      Some(Version(major, minor, patch))
  }

  lemma {:induction false} ParseVersionBySplit(s: string)
    ensures ParseVersion(s) == FromParts(Split(StripV(s), '.'))
  {
    PullsAreParts(StripV(s));
  }

  lemma {:induction false} DecimalIsNumber(part: string)
    ensures Decimal(part).Some? <==> IsReleasePart(part)
    ensures forall n: nat :: Decimal(part) == Some(n) <==> SpellsNumber(part, n)
  {
  }

  lemma {:induction false} FromPartsAccepts(parts: seq<string>)
    ensures FromParts(parts).Some? <==>
            |parts| == 3 && forall i :: 0 <= i < |parts| ==> IsReleasePart(parts[i])
  {
    if |parts| == 3 {
      DecimalIsNumber(parts[0]);
      DecimalIsNumber(parts[1]);
      DecimalIsNumber(parts[2]);
    }
  }

  /** The build script and the run-time guard accept the same strings. */
  lemma {:induction false} AcceptanceAgrees(s: string)
    ensures IsReleaseVersion(s) <==> ParseVersion(s).Some?
  {
    ParseVersionBySplit(s);
    FromPartsAccepts(Split(StripV(s), '.'));
  }

  lemma {:induction false} ParsedIsSpelled(s: string, v: Version)
    requires ParseVersion(s) == Some(v)
    ensures Spells(s, v)
  {
    ParseVersionBySplit(s);
    var parts := Split(StripV(s), '.');
    JoinOfSplit(StripV(s), '.');
    DecimalIsNumber(parts[0]);
    DecimalIsNumber(parts[1]);
    DecimalIsNumber(parts[2]);
    assert parts == [parts[0], parts[1], parts[2]];
    JoinOfThree(parts[0], parts[1], parts[2]);
    StripVTakesOne(s, StripV(s));
  }

  lemma {:induction false} JoinOfThree(a: string, b: string, c: string)
    ensures Join([a, b, c], ".") == Dotted(a, b, c)
  {
    assert [a, b, c][1..] == [b, c] && [b, c][1..] == [c];
    assert Join([b, c], ".") == b + "." + c;
    assert a + "." + (b + "." + c) == Dotted(a, b, c);
  }

  /** At most one `v` is taken off. */
  lemma {:induction false} StripVTakesOne(s: string, rest: string)
    ensures StripV(s) == rest <==> s == "v" + rest || (s == rest && !StartsWith(s, "v"))
  {
  }

  lemma {:induction false} SpelledIsParsed(s: string, v: Version, a: string, b: string, c: string)
    requires s == Dotted(a, b, c) || s == "v" + Dotted(a, b, c)
    requires SpellsNumber(a, v.major) && SpellsNumber(b, v.minor) && SpellsNumber(c, v.patch)
    ensures ParseVersion(s) == Some(v)
  {
    var body := Dotted(a, b, c);
    JoinOfThree(a, b, c);
    assert body[0] == a[0] && IsDigit(a[0]);
    StripVTakesOne(s, body);
    SplitOfThree(a, b, c);
    ParseVersionBySplit(s);
    FromPartsReads(a, b, c, v);
  }

  lemma {:induction false} SplitOfThree(a: string, b: string, c: string)
    requires AllDigits(a) && AllDigits(b) && AllDigits(c)
    ensures Split(Join([a, b, c], "."), '.') == [a, b, c]
  {
    SplitOfJoin([a, b, c], '.');
  }

  lemma {:induction false} FromPartsReads(a: string, b: string, c: string, v: Version)
    requires AllDigits(a) && AllDigits(b) && AllDigits(c) && a != "" && b != "" && c != ""
    requires v == Version(DecimalValue(a), DecimalValue(b), DecimalValue(c))
    ensures FromParts([a, b, c]) ==
            if v.major < U64_LIMIT && v.minor < U64_LIMIT && v.patch < U64_LIMIT then Some(v) else None
  {
    DecimalIsNumber(a);
    DecimalIsNumber(b);
    DecimalIsNumber(c);
  }

  /** `ParseVersion` is the grammar, both ways. */
  lemma {:induction false} ParseVersionIsGrammar(s: string, v: Version)
    ensures ParseVersion(s) == Some(v) <==> Spells(s, v)
  {
    if ParseVersion(s) == Some(v) {
      ParsedIsSpelled(s, v);
    }
    if Spells(s, v) {
      var a: string, b: string, c: string :|
        && (s == Dotted(a, b, c) || s == "v" + Dotted(a, b, c))
        && SpellsNumber(a, v.major) && SpellsNumber(b, v.minor) && SpellsNumber(c, v.patch);
      SpelledIsParsed(s, v, a, b, c);
    }
  }

  // ---- Printing a version and reading it back

  function PrintDecimal(n: nat): (s: string)
    ensures s != "" && AllDigits(s) && DecimalValue(s) == n
  {
    var digit := '0' + (n % 10) as char;
    if n < 10 then
      var s := [digit];
      assert s[..0] == "";
      s
    else
      var front := PrintDecimal(n / 10);
      var s := front + [digit];
      assert s[..|s| - 1] == front;
      s
  }

  function PrintVersion(v: Version, withV: bool): string {
    (if withV then "v" else "") + Join([PrintDecimal(v.major), PrintDecimal(v.minor), PrintDecimal(v.patch)], ".")
  }

  /** Printing any triple of `u64`s, with or without the `v`, and parsing it
      returns the triple; a component of 2^64 or more is refused. */
  lemma {:induction false} PrintThenParse(v: Version, withV: bool)
    ensures ParseVersion(PrintVersion(v, withV)) ==
            if v.major < U64_LIMIT && v.minor < U64_LIMIT && v.patch < U64_LIMIT then Some(v) else None
  {
    var a, b, c := PrintDecimal(v.major), PrintDecimal(v.minor), PrintDecimal(v.patch);
    StripPrinted(v, withV);
    SplitOfJoin([a, b, c], '.');
    ParseVersionBySplit(PrintVersion(v, withV));
    FromPartsReads(a, b, c, v);
  }

  lemma {:induction false} StripPrinted(v: Version, withV: bool)
    ensures StripV(PrintVersion(v, withV)) ==
            Join([PrintDecimal(v.major), PrintDecimal(v.minor), PrintDecimal(v.patch)], ".")
  {
    var s := PrintVersion(v, withV);
    var parts := [PrintDecimal(v.major), PrintDecimal(v.minor), PrintDecimal(v.patch)];
    var body := Join(parts, ".");
    assert body == parts[0] + "." + Join(parts[1..], ".");
    assert IsDigit(parts[0][0]) && body[0] == parts[0][0];
    assert withV ==> s[1..] == body;
    assert !withV ==> s == body;
  }
}
