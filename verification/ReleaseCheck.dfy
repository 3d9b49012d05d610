/** scripts/check-abi-table.py: the consistency checks of `main`, and when its
    exit code vouches for the tables of src/abi.rs. */
module ReleaseCheck {
  import opened Wrappers
  import opened Text
  import opened Versions
  import opened AbiTable
  import HeaderBands

  /** What the script reads out of one header: the field names and the
      normalised declarations of the full struct, and the fields an extension
      targeting C API v1.2.0 sees. */
  datatype Header = Header(fields: seq<string>, declarations: seq<Decl>, stable: seq<string>) {
    /** Both lists map the same entries. */
    predicate Valid() {
      |declarations| == |fields|
    }
  }

  const FIRST_RELEASE := Version(1, 2, 0)

  /** Reading one header: the three calls `main` makes on the struct's lines.
      `normalise` stands for the formatting clean-up of a declaration. */
  function ReadHeader(lines: seq<string>, normalise: string -> string): (h: Header)
    ensures h.Valid()
    ensures var entries := HeaderBands.Run(HeaderBands.START, lines, HeaderBands.NEWEST).entries;
            |h.declarations| == |entries| && forall i :: 0 <= i < |entries| ==> h.declarations[i] == normalise(entries[i])
    ensures h.fields == HeaderBands.StructFields(lines, HeaderBands.NEWEST)
    ensures h.stable == HeaderBands.StructFields(lines, HeaderBands.Target(false, Some(FIRST_RELEASE)))
  {
    var entries := HeaderBands.Run(HeaderBands.START, lines, HeaderBands.NEWEST).entries;
    HeaderBands.EntriesMatch(HeaderBands.START, lines, HeaderBands.NEWEST);
    HeaderBands.NamesCount(entries);
    Header(HeaderBands.StructFields(lines, HeaderBands.NEWEST),
           seq(|entries|, i requires 0 <= i < |entries| => normalise(entries[i])),
           HeaderBands.StructFields(lines, HeaderBands.Target(false, Some(FIRST_RELEASE))))
  }

  /** `Malformed`: a header without the struct's opening or closing mark. */
  datatype Fetch = Missing | Failed | Malformed | Fetched(header: Header)

  datatype Release = Release(version: Version, fetch: Fetch)

  type Headers = seq<(Version, Header)>

  function Read(releases: seq<Release>): Headers {
    if releases == [] then []
    else
      var last := releases[|releases| - 1];
      Read(releases[..|releases| - 1]) + if last.fetch.Fetched? then [(last.version, last.fetch.header)] else []
  }

  predicate AnyFailed(releases: seq<Release>) {
    exists i :: 0 <= i < |releases| && releases[i].fetch.Failed?
  }

  function Rows(hs: Headers): seq<Row> {
    seq(|hs|, i requires 0 <= i < |hs| => (hs[i].0, |hs[i].1.fields|))
  }

  /** `declarations_by_slots`: the first layout seen with each slot count. */
  function Layouts(hs: Headers): (d: Dict<seq<Decl>>)
    ensures d.Valid()
  {
    if hs == [] then Dict([], map[])
    else
      var h := hs[|hs| - 1].1;
      Layouts(hs[..|hs| - 1]).SetDefault(|h.fields|, h.declarations)
  }

  // ---- The checks on one header

  function NamesOf(declarations: seq<Decl>): seq<Option<string>> {
    seq(|declarations|, i requires 0 <= i < |declarations| => HeaderBands.Search(declarations[i]))
  }

  function Somes(names: seq<string>): seq<Option<string>> {
    seq(|names|, i requires 0 <= i < |names| => Some(names[i]))
  }

  predicate NamesAgree(h: Header) {
    NamesOf(h.declarations) == Somes(h.fields)
  }

  /** A declaration that names no function pointer, as one whose only pointer
      stood in a comment: the script asks it for a name and raises. */
  predicate Nameless(h: Header) {
    exists i :: 0 <= i < |h.declarations| && HeaderBands.Search(h.declarations[i]).None?
  }

  predicate Raises(f: Fetch) {
    f.Malformed? || (f.Fetched? && Nameless(f.header))
  }

  predicate AnyRaises(releases: seq<Release>) {
    exists i :: 0 <= i < |releases| && Raises(releases[i].fetch)
  }

  predicate StableIsPrefix(h: Header) {
    Take(h.fields, |h.stable|) == h.stable
  }

  function MinStable(hs: Headers): nat
    requires hs != []
  {
    var n := |hs[|hs| - 1].1.stable|;
    if |hs| == 1 then n
    else
      var m := MinStable(hs[..|hs| - 1]);
      if n < m then n else m
  }

  /** `d.replace("varint", "bignum")` */
  function Rename(d: Decl): Decl
    decreases |d|
  {
    if d == "" then ""
    else if "varint" <= d then "bignum" + Rename(d[6..])
    else [d[0]] + Rename(d[1..])
  }

  function RenameAll(ds: seq<Decl>): seq<Decl> {
    seq(|ds|, i requires 0 <= i < |ds| => Rename(ds[i]))
  }

  /** The stable prefix of a release, as compared across releases. */
  function StablePrefix(h: Header): seq<Decl> {
    RenameAll(Take(h.declarations, |h.stable|))
  }

  /** The clean-up leaves the pointer of this entry where a search finds it. */
  predicate KeepsName(normalise: string -> string, entry: string) {
    HeaderBands.Search(normalise(entry)) == HeaderBands.Search(entry)
  }

  /** Names and declarations come from the same entries, so comparing them tells
      whether the clean-up keeps each entry's name, and nothing about entries
      that the scanner itself lost. */
  lemma {:induction false} NamesAgreeIsNormalise(lines: seq<string>, normalise: string -> string)
    ensures NamesAgree(ReadHeader(lines, normalise)) <==>
            EachKept(HeaderBands.Run(HeaderBands.START, lines, HeaderBands.NEWEST).entries, normalise)
  {
    var entries := HeaderBands.Run(HeaderBands.START, lines, HeaderBands.NEWEST).entries;
    var h := ReadHeader(lines, normalise);
    HeaderBands.EntriesMatch(HeaderBands.START, lines, HeaderBands.NEWEST);
    forall i | 0 <= i < |entries|
      ensures Some(h.fields[i]) == HeaderBands.Search(entries[i])
    {
      HeaderBands.NamesAt(entries, i);
    }
    NamesAgreeByEntry(h, entries, normalise);
    assert NamesAgree(h) <==> EachKept(entries, normalise);
  }

  predicate EachKept(entries: seq<string>, normalise: string -> string) {
    forall i :: 0 <= i < |entries| ==> KeepsName(normalise, entries[i])
  }

  lemma {:induction false} NamesAgreeByEntry(h: Header, entries: seq<string>, normalise: string -> string)
    requires |h.fields| == |h.declarations| == |entries|
    requires forall i :: 0 <= i < |entries| ==> h.declarations[i] == normalise(entries[i])
    requires forall i :: 0 <= i < |entries| ==> Some(h.fields[i]) == HeaderBands.Search(entries[i])
    ensures NamesAgree(h) <==> EachKept(entries, normalise)
  {
    var names, somes := NamesOf(h.declarations), Somes(h.fields);
    forall i | 0 <= i < |entries|
      ensures names[i] == somes[i] <==> KeepsName(normalise, entries[i])
    {
    }
    if NamesAgree(h) {
      assert forall i :: 0 <= i < |entries| ==> names[i] == somes[i];
    } else {
      assert |names| == |somes|;
      assert exists i :: 0 <= i < |names| && names[i] != somes[i];
    }
  }

  // ---- What exit code 0 means

  ghost predicate HeadersSound(hs: Headers) {
    forall i :: 0 <= i < |hs| ==> NamesAgree(hs[i].1) && StableIsPrefix(hs[i].1)
  }

  /** A slot count identifies a layout. */
  ghost predicate CountsIdentify(hs: Headers) {
    forall i, j :: 0 <= i < |hs| && 0 <= j < |hs| && |hs[i].1.fields| == |hs[j].1.fields| ==>
      hs[i].1.declarations == hs[j].1.declarations
  }

  /** The first `n` slots are declared stable, alike, in every release. */
  ghost predicate StableFrozen(hs: Headers, n: nat) {
    hs != [] && MinStable(hs) == n && FrozenUpTo(hs, n, |hs|)
  }

  ghost predicate FrozenUpTo(hs: Headers, n: nat, k: nat)
    requires hs != [] && k <= |hs|
  {
    forall i :: 0 <= i < k ==> Take(StablePrefix(hs[i].1), n) == Take(StablePrefix(hs[0].1), n)
  }

  ghost predicate TablesMatch(hs: Headers, table: seq<Range>, prefixes: seq<(nat, nat)>) {
    table == Collapsed(Rows(hs)) && prefixes == DerivePrefixes(Layouts(hs))
  }

  ghost predicate Passes(hs: Headers, table: seq<Range>, prefixes: seq<(nat, nat)>, stableConst: nat) {
    HeadersSound(hs) && CountsIdentify(hs) && StableFrozen(hs, stableConst) && TablesMatch(hs, table, prefixes)
  }

  datatype Exit = Matches | Drifted | CouldNotCheck | Raised
  {
    /** An exception no one catches ends the script with code 1. */
    function Code(): nat {
      match this
      case Matches => 0
      case Drifted => 1
      case Raised => 1
      case CouldNotCheck => 2
    }
  }

  ghost function Verdict(releases: seq<Release>, table: seq<Range>, prefixes: seq<(nat, nat)>, stableConst: nat): Exit {
    var hs := Read(releases);
    if AnyRaises(releases) then Raised
    else if AnyFailed(releases) && (hs == [] || !TablesMatch(hs, table, prefixes)) then CouldNotCheck
    else if Passes(hs, table, prefixes, stableConst) then Matches
    else Drifted
  }

  // ---- The script

  lemma {:induction false} RowsOfPrefix(hs: Headers, h: (Version, Header))
    ensures Rows(hs + [h]) == Rows(hs) + [(h.0, |h.1.fields|)]
    ensures Layouts(hs + [h]) == Layouts(hs).SetDefault(|h.1.fields|, h.1.declarations)
    ensures MinStable(hs + [h]) == if hs == [] || |h.1.stable| < MinStable(hs) then |h.1.stable| else MinStable(hs)
  {
    assert (hs + [h])[..|hs|] == hs;
  }

  /** The recorded layouts are those of the headers read. */
  lemma {:induction false} LayoutsOfHeaders(hs: Headers)
    ensures forall i :: 0 <= i < |hs| ==> |hs[i].1.fields| in Layouts(hs).items
    ensures forall n :: n in Layouts(hs).items ==>
              exists i :: 0 <= i < |hs| && |hs[i].1.fields| == n && hs[i].1.declarations == Layouts(hs).items[n]
  {
    if hs != [] {
      var front := hs[..|hs| - 1];
      LayoutsOfHeaders(front);
      forall n | n in Layouts(hs).items
        ensures exists i :: 0 <= i < |hs| && |hs[i].1.fields| == n && hs[i].1.declarations == Layouts(hs).items[n]
      {
        if n in Layouts(front).items {
          var i :| 0 <= i < |front| && |front[i].1.fields| == n && front[i].1.declarations == Layouts(front).items[n];
          assert hs[i] == front[i];
        } else {
          assert hs[|hs| - 1].1.declarations == Layouts(hs).items[n];
        }
      }
    }
  }

  datatype Problem =
    | NamesDisagree(v: Version)
    | StableNotPrefix(v: Version)
    | SharedSlotCount(v: Version, slots: nat)
    | StableCount
    | StableDiffers(v: Version)
    | PrefixesStale
    | TableStale

  /** The checks `main` makes on each header as it arrives. */
  ghost predicate Clean(hs: Headers) {
    hs == []
    || (var (_, h) := hs[|hs| - 1];
        && Clean(hs[..|hs| - 1])
        && NamesAgree(h) && StableIsPrefix(h)
        && Recorded(Layouts(hs), h))
  }

  /** Each header's layout is the one recorded for its slot count. */
  ghost predicate AllRecorded(hs: Headers) {
    forall i :: 0 <= i < |hs| ==> Recorded(Layouts(hs), hs[i].1)
  }

  predicate Recorded(layouts: Dict<seq<Decl>>, h: Header) {
    |h.fields| in layouts.items && layouts.items[|h.fields|] == h.declarations
  }

  /** Comparing each header with the first of its slot count is enough to make
      the slot count identify the layout. */
  lemma {:induction false} RecordedIsIdentified(hs: Headers)
    ensures AllRecorded(hs) <==> CountsIdentify(hs)
  {
    LayoutsOfHeaders(hs);
    if CountsIdentify(hs) {
      forall i | 0 <= i < |hs|
        ensures Recorded(Layouts(hs), hs[i].1)
      {
        var j :| 0 <= j < |hs| && |hs[j].1.fields| == |hs[i].1.fields|
                 && hs[j].1.declarations == Layouts(hs).items[|hs[i].1.fields|];
      }
    }
    if AllRecorded(hs) {
      forall i, j | 0 <= i < |hs| && 0 <= j < |hs| && |hs[i].1.fields| == |hs[j].1.fields|
        ensures hs[i].1.declarations == hs[j].1.declarations
      {
        assert Recorded(Layouts(hs), hs[i].1) && Recorded(Layouts(hs), hs[j].1);
      }
    }
  }

  /** What is recorded for a slot count stays. */
  lemma {:induction false} RecordStays(layouts: Dict<seq<Decl>>, k: nat, v: seq<Decl>, h: Header)
    requires |h.fields| in layouts.items
    ensures Recorded(layouts.SetDefault(k, v), h) <==> Recorded(layouts, h)
  {
  }

  lemma {:induction false} AllRecordedStep(hs: Headers, h: (Version, Header))
    ensures AllRecorded(hs + [h]) <==> AllRecorded(hs) && Recorded(Layouts(hs + [h]), h.1)
  {
    RowsOfPrefix(hs, h);
    LayoutsOfHeaders(hs);
    forall i | 0 <= i < |hs|
      ensures Recorded(Layouts(hs + [h]), hs[i].1) <==> Recorded(Layouts(hs), hs[i].1)
    {
      RecordStays(Layouts(hs), |h.1.fields|, h.1.declarations, hs[i].1);
    }
    EachRecorded(hs, h, Layouts(hs), Layouts(hs + [h]));
  }

  lemma {:induction false} EachRecorded(hs: Headers, h: (Version, Header), before: Dict<seq<Decl>>, after: Dict<seq<Decl>>)
    requires forall i :: 0 <= i < |hs| ==> (Recorded(after, hs[i].1) <==> Recorded(before, hs[i].1))
    ensures var next := hs + [h];
            (forall i :: 0 <= i < |next| ==> Recorded(after, next[i].1)) <==>
            (forall i :: 0 <= i < |hs| ==> Recorded(before, hs[i].1)) && Recorded(after, h.1)
  {
    var next := hs + [h];
    assert next[|hs|] == h;
    assert forall i :: 0 <= i < |hs| ==> next[i] == hs[i];
  }

  lemma {:induction false} CleanIsSound(hs: Headers)
    ensures Clean(hs) <==> HeadersSound(hs) && AllRecorded(hs)
  {
    if hs != [] {
      var front, h := hs[..|hs| - 1], hs[|hs| - 1];
      assert hs == front + [h];
      CleanIsSound(front);
      AllRecordedStep(front, h);
      assert HeadersSound(hs) <==> HeadersSound(front) && NamesAgree(h.1) && StableIsPrefix(h.1) by {
        assert forall i :: 0 <= i < |front| ==> hs[i] == front[i];
      }
    }
  }

  method CheckHeader(problems: seq<Problem>, layouts: Dict<seq<Decl>>, v: Version, h: Header) returns (more: seq<Problem>)
    requires |h.fields| in layouts.items
    ensures more == [] <==>
            problems == [] && NamesAgree(h) && StableIsPrefix(h) && layouts.items[|h.fields|] == h.declarations
  {
    more := problems;
    if NamesOf(h.declarations) != Somes(h.fields) {
      more := more + [NamesDisagree(v)];
    }
    if Take(h.fields, |h.stable|) != h.stable {
      more := more + [StableNotPrefix(v)];
    }
    if layouts.items[|h.fields|] != h.declarations {
      more := more + [SharedSlotCount(v, |h.fields|)];
    }
  }

  lemma {:induction false} ReadNext(releases: seq<Release>, i: nat)
    requires i < |releases|
    ensures Read(releases[..i + 1]) ==
            Read(releases[..i]) + (if releases[i].fetch.Fetched? then [(releases[i].version, releases[i].fetch.header)] else [])
    ensures AnyFailed(releases[..i + 1]) <==> AnyFailed(releases[..i]) || releases[i].fetch.Failed?
    ensures AnyRaises(releases[..i + 1]) <==> AnyRaises(releases[..i]) || Raises(releases[i].fetch)
  {
    assert releases[..i + 1][..i] == releases[..i];
    assert forall k :: 0 <= k < i ==> releases[..i + 1][k] == releases[..i][k];
    assert releases[..i + 1][i] == releases[i];
  }

  /** What the loop over the releases has gathered. */
  datatype Gathered = Gathered(rows: seq<Row>, layouts: Dict<seq<Decl>>, minStable: Option<nat>,
                               stablePrefixes: seq<(Version, seq<Decl>)>, problems: seq<Problem>)
  {
    ghost predicate Of(hs: Headers) {
      && rows == Rows(hs) && layouts == Layouts(hs)
      && minStable == (if hs == [] then None else Some(MinStable(hs)))
      && |stablePrefixes| == |hs|
      && (forall k :: 0 <= k < |hs| ==> stablePrefixes[k] == (hs[k].0, StablePrefix(hs[k].1)))
      && (problems == [] <==> Clean(hs))
    }
  }

  method Gather(g: Gathered, ghost hs: Headers, v: Version, h: Header) returns (g': Gathered)
    requires g.Of(hs)
    ensures g'.Of(hs + [(v, h)])
  {
    RowsOfPrefix(hs, (v, h));
    assert (hs + [(v, h)])[..|hs|] == hs;
    var minStable := if g.minStable.None? || |h.stable| < g.minStable.value then Some(|h.stable|) else g.minStable;
    var stablePrefixes := g.stablePrefixes + [(v, RenameAll(Take(h.declarations, |h.stable|)))];
    var layouts := g.layouts.SetDefault(|h.fields|, h.declarations);
    var problems := CheckHeader(g.problems, layouts, v, h);
    g' := Gathered(g.rows + [(v, |h.fields|)], layouts, minStable, stablePrefixes, problems);
  }

  method CheckStable(g: Gathered, ghost hs: Headers, stableConst: nat) returns (problems: seq<Problem>)
    requires g.Of(hs) && hs != []
    ensures problems == [] <==> Clean(hs) && StableFrozen(hs, stableConst)
  {
    problems := g.problems;
    if g.minStable != Some(stableConst) {
      problems := problems + [StableCount];
      return;
    }
    var reference := Take(g.stablePrefixes[0].1, stableConst);
    for k := 0 to |g.stablePrefixes|
      invariant problems == [] <==> Clean(hs) && FrozenUpTo(hs, stableConst, k)
    {
      assert FrozenUpTo(hs, stableConst, k + 1) <==>
             FrozenUpTo(hs, stableConst, k) && Take(StablePrefix(hs[k].1), stableConst) == reference;
      if Take(g.stablePrefixes[k].1, stableConst) != reference {
        problems := problems + [StableDiffers(g.stablePrefixes[k].0)];
      }
    }
  }

  lemma {:induction false} PassesByChecks(hs: Headers, table: seq<Range>, prefixes: seq<(nat, nat)>, stableConst: nat)
    ensures Passes(hs, table, prefixes, stableConst) <==>
            Clean(hs) && StableFrozen(hs, stableConst) && TablesMatch(hs, table, prefixes)
  {
    CleanIsSound(hs);
    RecordedIsIdentified(hs);
  }

  method CheckTables(releases: seq<Release>, table: seq<Range>, prefixes: seq<(nat, nat)>, stableConst: nat) returns (exit: Exit)
    ensures exit == Verdict(releases, table, prefixes, stableConst)
  {
    var g := Gathered([], Dict([], map[]), None, [], []);
    var unfetchable: seq<Version> := [];
    ghost var hs: Headers := [];
    for i := 0 to |releases|
      invariant hs == Read(releases[..i]) && g.Of(hs)
      invariant unfetchable == [] <==> !AnyFailed(releases[..i])
      invariant !AnyRaises(releases[..i])
    {
      ReadNext(releases, i);
      match releases[i].fetch
      case Missing =>
      case Malformed =>
        assert Raises(releases[i].fetch);
        return Raised;
      case Failed =>
        unfetchable := unfetchable + [releases[i].version];
      case Fetched(h) =>
        if Nameless(h) {
          assert Raises(releases[i].fetch);
          return Raised;
        }
        g := Gather(g, hs, releases[i].version, h);
        hs := hs + [(releases[i].version, h)];
    }
    assert releases[..|releases|] == releases;
    PassesByChecks(hs, table, prefixes, stableConst);
    if g.rows == [] {
      return if unfetchable != [] then CouldNotCheck else Drifted;
    }
    var derived := Collapse(g.rows);
    var derivedPrefixes := DerivePrefixes(g.layouts);
    var problems := CheckStable(g, hs, stableConst);
    if table != derived || prefixes != derivedPrefixes {
      if unfetchable != [] {
        return CouldNotCheck;
      }
    }
    if prefixes != derivedPrefixes {
      problems := problems + [PrefixesStale];
    }
    if table != derived {
      problems := problems + [TableStale];
    }
    exit := if problems != [] then Drifted else Matches;
  }

  // ---- What the exit code is worth

  /** Text without the word is kept as it is. */
  lemma {:induction false} RenameKeeps(d: Decl)
    requires !Occurs(d, "varint")
    ensures Rename(d) == d
    decreases |d|
  {
    if d != "" {
      assert OccursAt(d, "varint", 0) <==> "varint" <= d;
      forall k | 0 <= k <= |d[1..]|
        ensures !OccursAt(d[1..], "varint", k)
      {
        assert !OccursAt(d, "varint", k + 1) && d[1..][k..] == d[k + 1..];
      }
      RenameKeeps(d[1..]);
    }
  }

  /** At the first occurrence the word is replaced and the rest goes on. */
  lemma {:induction false} RenameReplaces(a: Decl, b: Decl)
    requires forall k: nat :: k < |a| ==> !OccursAt(a + "varint" + b, "varint", k)
    ensures Rename(a + "varint" + b) == a + "bignum" + Rename(b)
    decreases |a|
  {
    var d := a + "varint" + b;
    if a == "" {
      assert d == "varint" + b && d[6..] == b;
      assert "" + "bignum" + Rename(b) == "bignum" + Rename(b);
    } else {
      var rest := a[1..] + "varint" + b;
      assert d[0] == a[0] && d[1..] == rest;
      assert !OccursAt(d, "varint", 0) && d[0..] == d;
      forall k: nat | k < |a[1..]|
        ensures !OccursAt(rest, "varint", k)
      {
        assert !OccursAt(d, "varint", k + 1) && rest[k..] == d[k + 1..];
      }
      RenameReplaces(a[1..], b);
      Regroup3(a[0], a[1..], "bignum", Rename(b));
      assert [a[0]] + a[1..] == a;
    }
  }

  lemma {:induction false} Regroup3(c: char, a: string, w: string, b: string)
    ensures [c] + (a + w + b) == [c] + a + w + b
  {
  }

  /** The word does not overlap itself, so this is the whole text between any
      two occurrences: pieces without the word are kept, and each joint is
      replaced. */
  lemma {:induction false} RenameOfPieces(pieces: seq<Decl>)
    requires forall k :: 0 <= k < |pieces| ==> !Occurs(pieces[k], "varint")
    ensures Rename(Join(pieces, "varint")) == Join(pieces, "bignum")
  {
    if |pieces| == 1 {
      RenameKeeps(pieces[0]);
    } else if pieces != [] {
      var rest := Join(pieces[1..], "varint");
      forall k: nat | k < |pieces[0]|
        ensures !OccursAt(pieces[0] + "varint" + rest, "varint", k)
      {
        NoOverlap(pieces[0], rest, k);
      }
      RenameReplaces(pieces[0], rest);
      RenameOfPieces(pieces[1..]);
    }
  }

  lemma {:induction false} NoOverlap(a: Decl, b: Decl, k: nat)
    requires k < |a| && !Occurs(a, "varint")
    ensures !OccursAt(a + "varint" + b, "varint", k)
  {
    var d := a + "varint" + b;
    if k + 6 <= |a| {
      assert a[k..][..6] == d[k..][..6];
      assert !OccursAt(a, "varint", k);
    } else {
      assert d[|a|] == 'v' && d[k..][|a| - k] == d[|a|];
      assert forall i :: 0 < i < 6 ==> "varint"[i] != 'v';
    }
  }

  /** The slots below the stable count hold the same declaration in every
      release read, up to the one rename the script allows: equal where the old
      name does not occur, and otherwise the one is the other renamed. What a
      stable-only extension sees at the slot is what the full struct has. */
  lemma {:induction false} StableSlotsAreFrozen(hs: Headers, table: seq<Range>, prefixes: seq<(nat, nat)>, n: nat, a: nat, b: nat, slot: nat)
    requires Passes(hs, table, prefixes, n) && (forall i :: 0 <= i < |hs| ==> hs[i].1.Valid())
    requires a < |hs| && b < |hs| && slot < n
    ensures slot < |hs[a].1.declarations| && slot < |hs[b].1.declarations|
    ensures var here, there := hs[a].1.declarations[slot], hs[b].1.declarations[slot];
            && Rename(here) == Rename(there)
            && (!Occurs(there, "varint") ==> there == Rename(here))
            && (!Occurs(here, "varint") && !Occurs(there, "varint") ==> here == there)
    ensures slot < |hs[a].1.stable| && hs[a].1.stable[slot] == hs[a].1.fields[slot]
  {
    StableReaches(hs, n, a);
    StableReaches(hs, n, b);
    assert Take(StablePrefix(hs[a].1), n)[slot] == Take(StablePrefix(hs[b].1), n)[slot];
    var here, there := hs[a].1.declarations[slot], hs[b].1.declarations[slot];
    if !Occurs(here, "varint") {
      RenameKeeps(here);
    }
    if !Occurs(there, "varint") {
      RenameKeeps(there);
    }
    assert StableIsPrefix(hs[a].1);
  }

  /** The promised count is exactly the least that any release declares stable:
      one that is too small does not pass either. */
  lemma {:induction false} StableCountIsLeast(hs: Headers, table: seq<Range>, prefixes: seq<(nat, nat)>, n: nat)
    requires Passes(hs, table, prefixes, n)
    ensures forall i :: 0 <= i < |hs| ==> n <= |hs[i].1.stable|
    ensures exists i :: 0 <= i < |hs| && n == |hs[i].1.stable|
  {
    MinStableIsLeast(hs);
  }

  lemma {:induction false} StableReaches(hs: Headers, n: nat, i: nat)
    requires StableFrozen(hs, n) && HeadersSound(hs) && i < |hs| && hs[i].1.Valid()
    ensures n <= |hs[i].1.stable| <= |hs[i].1.declarations|
    ensures forall k :: 0 <= k < n ==> Take(StablePrefix(hs[i].1), n)[k] == Rename(hs[i].1.declarations[k])
  {
    MinStableIsLeast(hs);
    assert StableIsPrefix(hs[i].1);
  }

  /** The stable count is the least of all, and some release has it. */
  lemma {:induction false} MinStableIsLeast(hs: Headers)
    requires hs != []
    ensures forall i :: 0 <= i < |hs| ==> MinStable(hs) <= |hs[i].1.stable|
    ensures exists i :: 0 <= i < |hs| && MinStable(hs) == |hs[i].1.stable|
  {
    var front := hs[..|hs| - 1];
    assert forall i :: 0 <= i < |front| ==> hs[i] == front[i];
    if front != [] {
      MinStableIsLeast(front);
      var i :| 0 <= i < |front| && MinStable(front) == |front[i].1.stable|;
      assert MinStable(hs) == |hs[i].1.stable| || MinStable(hs) == |hs[|hs| - 1].1.stable|;
    } else {
      assert MinStable(hs) == |hs[0].1.stable|;
    }
  }

  // ---- The order of the releases

  predicate StrictlyAscending(releases: seq<Release>) {
    forall i, j :: 0 <= i < j < |releases| ==> Before(releases[i].version, releases[j].version)
  }

  /** A tag and its `version_key`. */
  datatype Tag = Tag(text: string, key: Version)

  /** `sorted(set(listed), key=version_key)` */
  function SortedTags(listed: seq<Tag>): seq<Tag> {
    if listed == [] then [] else InsertTag(listed[0], SortedTags(listed[1..]))
  }

  function InsertTag(tag: Tag, tags: seq<Tag>): seq<Tag> {
    if tags == [] || Before(tag.key, tags[0].key) then [tag] + tags
    else if tag == tags[0] then tags
    else [tags[0]] + InsertTag(tag, tags[1..])
  }

  predicate TagsAscend(tags: seq<Tag>) {
    forall i, j :: 0 <= i < j < |tags| ==> Before(tags[i].key, tags[j].key)
  }

  /** No two tags have one key, as `v1.2.0` and `v1.02.0` would. */
  predicate KeysDistinct(listed: seq<Tag>) {
    forall i, j :: 0 <= i < |listed| && 0 <= j < |listed| && listed[i].key == listed[j].key ==> listed[i] == listed[j]
  }

  lemma {:induction false} InsertTagMembers(tag: Tag, tags: seq<Tag>)
    ensures forall u :: u in InsertTag(tag, tags) <==> u == tag || u in tags
  {
    if tags != [] {
      InsertTagMembers(tag, tags[1..]);
      assert tags == [tags[0]] + tags[1..];
    }
  }

  lemma {:induction false} InsertTagAscends(tag: Tag, tags: seq<Tag>)
    requires TagsAscend(tags) && forall u :: u in tags && u.key == tag.key ==> u == tag
    ensures TagsAscend(InsertTag(tag, tags))
  {
    if tags == [] || Before(tag.key, tags[0].key) {
    } else if tag == tags[0] {
    } else {
      var rest := InsertTag(tag, tags[1..]);
      assert tags == [tags[0]] + tags[1..];
      assert tags[0] in tags;
      InsertTagAscends(tag, tags[1..]);
      InsertTagMembers(tag, tags[1..]);
      forall j | 0 <= j < |rest|
        ensures Before(tags[0].key, rest[j].key)
      {
        assert rest[j] in rest;
      }
    }
  }

  lemma {:induction false} SortedTagsMembers(listed: seq<Tag>)
    ensures forall u :: u in SortedTags(listed) <==> u in listed
  {
    if listed != [] {
      SortedTagsMembers(listed[1..]);
      InsertTagMembers(listed[0], SortedTags(listed[1..]));
      assert listed == [listed[0]] + listed[1..];
    }
  }

  lemma {:induction false} SortedTagsAscend(listed: seq<Tag>)
    requires KeysDistinct(listed)
    ensures TagsAscend(SortedTags(listed))
  {
    if listed != [] {
      SortedTagsAscend(listed[1..]);
      SortedTagsMembers(listed[1..]);
      forall u | u in SortedTags(listed[1..]) && u.key == listed[0].key
        ensures u == listed[0]
      {
        assert u in listed[1..];
        var k :| 0 <= k < |listed[1..]| && listed[1..][k] == u;
        assert listed[k + 1] == u;
      }
      InsertTagAscends(listed[0], SortedTags(listed[1..]));
    }
  }

  lemma {:induction false} AscendingHasDistinctKeys(listed: seq<Tag>)
    requires TagsAscend(SortedTags(listed))
    ensures KeysDistinct(listed)
  {
    var tags := SortedTags(listed);
    SortedTagsMembers(listed);
    forall i, j | 0 <= i < |listed| && 0 <= j < |listed| && listed[i].key == listed[j].key
      ensures listed[i] == listed[j]
    {
      assert listed[i] in tags && listed[j] in tags;
      var a :| 0 <= a < |tags| && tags[a] == listed[i];
      var b :| 0 <= b < |tags| && tags[b] == listed[j];
      OneOfEachKey(tags, a, b);
    }
  }

  lemma {:induction false} OneOfEachKey(tags: seq<Tag>, a: nat, b: nat)
    requires TagsAscend(tags) && a < |tags| && b < |tags| && tags[a].key == tags[b].key
    ensures a == b
  {
  }

  /** What the script goes through: the tags in order, each with its download. */
  function Releases(listed: seq<Tag>, fetch: Tag -> Fetch): seq<Release> {
    var tags := SortedTags(listed);
    seq(|tags|, i requires 0 <= i < |tags| => Release(tags[i].key, fetch(tags[i])))
  }

  /** Whatever is listed, in whatever order and however often: the releases
      ascend strictly if and only if no two tags have one key, and then, whatever
      the downloads give, so do the rows. */
  lemma {:induction false} RowsAreSorted(listed: seq<Tag>, fetch: Tag -> Fetch)
    ensures StrictlyAscending(Releases(listed, fetch)) <==> KeysDistinct(listed)
    ensures KeysDistinct(listed) ==> StrictlySorted(Rows(Read(Releases(listed, fetch))))
  {
    var tags, releases := SortedTags(listed), Releases(listed, fetch);
    assert forall i :: 0 <= i < |tags| ==> releases[i].version == tags[i].key;
    if KeysDistinct(listed) {
      SortedTagsAscend(listed);
      ReadSorted(releases);
    }
    if StrictlyAscending(releases) {
      AscendingHasDistinctKeys(listed);
    }
  }

  /** `partial` is `full` with some fetches failed. */
  predicate SomeFetchesFailed(full: seq<Release>, partial: seq<Release>) {
    |full| == |partial|
    && forall i :: 0 <= i < |full| ==>
         partial[i] == full[i] || partial[i] == full[i].(fetch := Failed)
  }

  /** A published header is among those that could not be fetched. */
  predicate LostHeader(full: seq<Release>, partial: seq<Release>) {
    exists i :: 0 <= i < |full| && i < |partial| && Lost(full[i], partial[i])
  }

  predicate Lost(was: Release, now: Release) {
    (was.fetch.Fetched? || was.fetch.Malformed?) && now.fetch.Failed?
  }

  lemma {:induction false} ReadVersions(releases: seq<Release>)
    ensures forall h :: h in Read(releases) ==>
              exists i :: 0 <= i < |releases| && releases[i] == Release(h.0, Fetched(h.1))
    ensures forall i :: 0 <= i < |releases| && releases[i].fetch.Fetched? ==>
              (releases[i].version, releases[i].fetch.header) in Read(releases)
  {
    if releases != [] {
      var front, last := releases[..|releases| - 1], releases[|releases| - 1];
      ReadVersions(front);
      assert forall i :: 0 <= i < |front| ==> front[i] == releases[i];
    }
  }

  lemma {:induction false} ReadSorted(releases: seq<Release>)
    requires StrictlyAscending(releases)
    ensures StrictlySorted(Rows(Read(releases)))
  {
    if releases != [] {
      var front, last := releases[..|releases| - 1], releases[|releases| - 1];
      ReadSorted(front);
      ReadVersions(front);
      if last.fetch.Fetched? {
        SortedOneMore(Read(front), (last.version, last.fetch.header));
      } else {
        assert Read(releases) == Read(front);
      }
    }
  }

  lemma {:induction false} SortedOneMore(hs: Headers, h: (Version, Header))
    requires StrictlySorted(Rows(hs)) && forall g :: g in hs ==> Before(g.0, h.0)
    ensures StrictlySorted(Rows(hs + [h]))
  {
    RowsOfPrefix(hs, h);
    forall i | 0 <= i < |hs|
      ensures Before(Rows(hs)[i].0, h.0)
    {
      assert hs[i] in hs;
    }
  }

  /** What a run with failed downloads says about the run without. Exit code 0
      is right if and only if no published header was lost; exit code 1 is
      always right. */
  lemma {:induction false} FailedFetches(full: seq<Release>, partial: seq<Release>, table: seq<Range>, prefixes: seq<(nat, nat)>, n: nat)
    requires StrictlyAscending(full) && SomeFetchesFailed(full, partial) && !AnyFailed(full)
    ensures Verdict(partial, table, prefixes, n) == Matches ==>
              (Verdict(full, table, prefixes, n) == Matches <==> !LostHeader(full, partial))
    ensures Verdict(partial, table, prefixes, n).Code() == 1 ==> Verdict(full, table, prefixes, n).Code() == 1
    ensures Verdict(full, table, prefixes, n) == Matches && LostHeader(full, partial) ==>
              Verdict(partial, table, prefixes, n) == CouldNotCheck
  {
    assert AnyRaises(partial) ==> AnyRaises(full);
    if LostHeader(full, partial) {
      var i :| 0 <= i < |full| && Lost(full[i], partial[i]);
      assert AnyFailed(partial);
      if full[i].fetch.Fetched? {
        LostRowShows(full, partial, i);
      } else {
        assert Raises(full[i].fetch);
      }
    } else {
      NothingLost(full, partial);
      assert AnyRaises(full) ==> AnyRaises(partial) by {
        if i :| 0 <= i < |full| && Raises(full[i].fetch) {
          assert full[i] == partial[i];
        }
      }
    }
  }

  /** The script's documentation promises exit code 2 for a header that could
      not be fetched. It does not hold: a table that lacks exactly the releases
      that were lost passes, although the complete list does not. */
  lemma {:induction false} StaleTablePasses(full: seq<Release>, partial: seq<Release>, n: nat)
    requires StrictlyAscending(full) && SomeFetchesFailed(full, partial) && !AnyFailed(full)
    requires LostHeader(full, partial) && !AnyRaises(partial)
    requires HeadersSound(Read(partial)) && CountsIdentify(Read(partial)) && StableFrozen(Read(partial), n)
    ensures var table, prefixes := Collapsed(Rows(Read(partial))), DerivePrefixes(Layouts(Read(partial)));
            && Verdict(partial, table, prefixes, n) == Matches
            && Verdict(full, table, prefixes, n).Code() == 1
  {
    var table, prefixes := Collapsed(Rows(Read(partial))), DerivePrefixes(Layouts(Read(partial)));
    FailedFetches(full, partial, table, prefixes, n);
    var i :| 0 <= i < |full| && Lost(full[i], partial[i]);
    if full[i].fetch.Fetched? {
      LostRowShows(full, partial, i);
    } else {
      assert Raises(full[i].fetch);
    }
  }

  predicate Unnamed(declarations: seq<Decl>) {
    exists i :: 0 <= i < |declarations| && HeaderBands.Search(declarations[i]).None?
  }

  /** Which of the exit codes: an exception comes before everything else, and a
      failed download excuses only tables that differ, or a run that read
      nothing. */
  lemma {:induction false} ExitCodes(releases: seq<Release>, table: seq<Range>, prefixes: seq<(nat, nat)>, n: nat)
    ensures Verdict(releases, table, prefixes, n) == Raised <==>
            exists i :: 0 <= i < |releases|
                        && (releases[i].fetch.Malformed?
                            || (releases[i].fetch.Fetched? && Unnamed(releases[i].fetch.header.declarations)))
    ensures Verdict(releases, table, prefixes, n).Code() == 2 ==>
              (exists i :: 0 <= i < |releases| && releases[i].fetch.Failed?)
    ensures var hs := Read(releases);
            AnyFailed(releases) && Verdict(releases, table, prefixes, n) != Raised ==>
              (Verdict(releases, table, prefixes, n).Code() == 2 <==> hs == [] || !TablesMatch(hs, table, prefixes))
  {
    forall i | 0 <= i < |releases|
      ensures Raises(releases[i].fetch) <==>
              releases[i].fetch.Malformed?
              || (releases[i].fetch.Fetched? && Unnamed(releases[i].fetch.header.declarations))
    {
    }
  }

  lemma {:induction false} NoneIsRead(releases: seq<Release>)
    requires forall i :: 0 <= i < |releases| ==> !releases[i].fetch.Fetched?
    ensures Read(releases) == []
  {
    if releases != [] {
      NoneIsRead(releases[..|releases| - 1]);
    }
  }

  /** No header read, whatever the tables say: the exit tells a failed download
      from a header that is nowhere published. */
  lemma {:induction false} NothingRead(releases: seq<Release>, table: seq<Range>, prefixes: seq<(nat, nat)>, n: nat)
    requires forall i :: 0 <= i < |releases| ==> releases[i].fetch.Failed? || releases[i].fetch.Missing?
    ensures Verdict(releases, table, prefixes, n).Code() ==
            if exists i :: 0 <= i < |releases| && releases[i].fetch.Failed? then 2 else 1
  {
    NoneIsRead(releases);
  }

  /** One release whose header passes the checks: the script passes. */
  lemma {:induction false} OneReleasePasses(h: Header)
    requires NamesAgree(h) && StableIsPrefix(h) && !Nameless(h)
    ensures Verdict([Release(FIRST_RELEASE, Fetched(h))], [Range(1, 2, 0, 0, |h.fields|)], [], |h.stable|) == Matches
  {
    var release := Release(FIRST_RELEASE, Fetched(h));
    var hs := [(FIRST_RELEASE, h)];
    assert |NamesOf(h.declarations)| == |Somes(h.fields)|;
    assert [release][..0] == [] && hs[..0] == [];
    assert Read([release]) == Read([]) + hs == hs;
    OneIsSound(hs[0]);
    OneIsDerived(hs);
  }

  lemma {:induction false} OneIsDerived(hs: Headers)
    requires |hs| == 1 && hs[0].1.Valid()
    ensures var (v, h) := hs[0];
            Collapsed(Rows(hs)) == [Range(v.major, v.minor, v.patch, v.patch, |h.fields|)]
    ensures DerivePrefixes(Layouts(hs)) == []
  {
    var rows := [(hs[0].0, |hs[0].1.fields|)];
    assert Rows(hs) == rows && rows[..0] == [];
    NoPairs(hs);
  }

  /** The smallest such list: one release read, the next one's download failed. */
  lemma {:induction false} OneLostRelease(h: Header)
    requires NamesAgree(h) && StableIsPrefix(h) && !Nameless(h)
    ensures var first := Release(Version(1, 2, 0), Fetched(h));
            var full := [first, Release(Version(1, 2, 1), Fetched(h))];
            var partial := [first, Release(Version(1, 2, 1), Failed)];
            var table := [Range(1, 2, 0, 0, |h.fields|)];
            && Verdict(partial, table, [], |h.stable|) == Matches
            && Verdict(full, table, [], |h.stable|) == Drifted
  {
    var first := Release(Version(1, 2, 0), Fetched(h));
    var full := [first, Release(Version(1, 2, 1), Fetched(h))];
    var partial := [first, Release(Version(1, 2, 1), Failed)];
    assert |NamesOf(h.declarations)| == |Somes(h.fields)|;
    OneIsRead(first, partial, h);
    assert Lost(full[1], partial[1]);
    OneIsSound((first.version, h));
    StaleTablePasses(full, partial, |h.stable|);
  }

  lemma {:induction false} OneIsSound(h: (Version, Header))
    requires NamesAgree(h.1) && StableIsPrefix(h.1)
    ensures HeadersSound([h]) && CountsIdentify([h]) && StableFrozen([h], |h.1.stable|)
  {
  }

  lemma {:induction false} OneIsRead(first: Release, partial: seq<Release>, h: Header)
    requires h.Valid()
    requires first == Release(Version(1, 2, 0), Fetched(h))
    requires partial == [first, Release(Version(1, 2, 1), Failed)]
    ensures Read(partial) == [(first.version, h)]
    ensures Rows(Read(partial)) == [(first.version, |h.fields|)]
    ensures Collapsed(Rows(Read(partial))) == [Range(1, 2, 0, 0, |h.fields|)]
    ensures DerivePrefixes(Layouts(Read(partial))) == []
    ensures MinStable(Read(partial)) == |h.stable|
  {
    assert partial[..1] == [first] && [first][..0] == [];
    var hs := [(first.version, h)];
    assert Read([first]) == Read([]) + hs;
    assert hs[..0] == [];
    var rows := [(first.version, |h.fields|)];
    assert Rows(hs) == rows;
    OneIsDerived(hs);
  }

  lemma {:induction false} NoPairs(hs: Headers)
    requires |hs| == 1 && hs[0].1.Valid()
    ensures DerivePrefixes(Layouts(hs)) == []
  {
    var pairs := DerivePrefixes(Layouts(hs));
    LayoutsOfHeaders(hs);
    assert hs[0].1.Valid();
    forall x: (nat, nat)
      ensures x !in pairs
    {
      DerivedPairs(Layouts(hs), x.0, x.1);
    }
    if pairs != [] {
      HasPair(pairs);
    }
  }

  lemma {:induction false} NothingLost(full: seq<Release>, partial: seq<Release>)
    requires SomeFetchesFailed(full, partial) && !LostHeader(full, partial)
    ensures Read(partial) == Read(full)
  {
    if full != [] {
      var n := |full| - 1;
      assert partial[n] == full[n] || partial[n] == full[n].(fetch := Failed);
      NothingLost(full[..n], partial[..n]);
    }
  }

  lemma {:induction false} LostRowShows(full: seq<Release>, partial: seq<Release>, i: nat)
    requires StrictlyAscending(full) && SomeFetchesFailed(full, partial)
    requires i < |full| && full[i].fetch.Fetched? && partial[i].fetch.Failed?
    ensures Collapsed(Rows(Read(full))) != Collapsed(Rows(Read(partial)))
  {
    var v := full[i].version;
    ReadVersions(full);
    RowListed(Read(full), (v, full[i].fetch.header));
    assert StrictlyAscending(partial);
    RowUnlisted(partial, i);
    TablesDiffer(full, partial, v, |full[i].fetch.header.fields|);
  }

  lemma {:induction false} TablesDiffer(full: seq<Release>, partial: seq<Release>, v: Version, s: nat)
    requires StrictlyAscending(full) && StrictlyAscending(partial)
    requires (v, s) in Rows(Read(full)) && (v, s) !in Rows(Read(partial))
    ensures Collapsed(Rows(Read(full))) != Collapsed(Rows(Read(partial)))
  {
    ReadSorted(full);
    ReadSorted(partial);
    CollapsedIsExact(Rows(Read(full)), v);
    CollapsedIsExact(Rows(Read(partial)), v);
    FirstMatchOfSorted(Rows(Read(full)), v, s);
    FirstMatchOfSorted(Rows(Read(partial)), v, s);
  }

  /** A release whose download failed has no row. */
  lemma {:induction false} RowUnlisted(releases: seq<Release>, i: nat)
    requires StrictlyAscending(releases) && i < |releases| && releases[i].fetch.Failed?
    ensures forall s: nat :: (releases[i].version, s) !in Rows(Read(releases))
  {
    var hs := Read(releases);
    ReadVersions(releases);
    forall k | 0 <= k < |hs|
      ensures hs[k].0 != releases[i].version
    {
      assert hs[k] in hs;
      var j :| 0 <= j < |releases| && releases[j] == Release(hs[k].0, Fetched(hs[k].1));
    }
    assert forall k :: 0 <= k < |hs| ==> Rows(hs)[k].0 == hs[k].0;
  }

  lemma {:induction false} RowListed(hs: Headers, h: (Version, Header))
    requires h in hs
    ensures (h.0, |h.1.fields|) in Rows(hs)
  {
    var i :| 0 <= i < |hs| && hs[i] == h;
    assert Rows(hs)[i] == (h.0, |h.1.fields|);
  }
}
