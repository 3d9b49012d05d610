/** src/abi.rs and the policy step of src/entry_point.rs: deciding at load time
    whether a binary may call through the engine's function table. */
module AbiGuard {
  import opened Wrappers
  import opened Text
  import opened Versions
  import opened AbiTable
  import opened ReleaseCheck

  function ExpectedSlotCount(table: seq<Range>, version: string): Option<nat> {
    var v :- ParseVersion(version);
    Lookup(table, v)
  }

  predicate LayoutRunsOn(prefixes: seq<(nat, nat)>, compiled: nat, engine: nat) {
    compiled == engine || (compiled, engine) in prefixes
  }

  datatype AbiCheck =
    | Compatible(engineVersion: string, slots: nat)
    | StableOnly
    | LayoutMismatch(engineVersion: string, engineSlots: nat, compiledSlots: nat)
    | UnknownEngineVersion(engineVersion: string, compiledSlots: nat)
    | EngineVersionUnavailable(compiledSlots: nat)
    | DeclaredVersionMismatch(declaredVersion: string, declaredSlots: nat, compiledSlots: nat)
  {
    predicate IsCompatible() {
      Compatible? || StableOnly?
    }
  }

  function Decide(table: seq<Range>, prefixes: seq<(nat, nat)>,
                  compiled: nat, declared: Option<string>, engine: Option<string>): AbiCheck
  {
    if declared.Some? && ExpectedSlotCount(table, declared.value).Some?
       && ExpectedSlotCount(table, declared.value).value != compiled
    then DeclaredVersionMismatch(declared.value, ExpectedSlotCount(table, declared.value).value, compiled)
    else if engine.None? then EngineVersionUnavailable(compiled)
    else if declared.Some? && ParseVersion(declared.value) == ParseVersion(engine.value)
    then Compatible(engine.value, compiled)
    else
      match ExpectedSlotCount(table, engine.value)
      case Some(slots) =>
        if LayoutRunsOn(prefixes, compiled, slots) then Compatible(engine.value, compiled)
        else LayoutMismatch(engine.value, slots, compiled)
      case None => UnknownEngineVersion(engine.value, compiled)
  }

  /** A malformed declaration counts as none. */
  function ParseDeclaredVersion(declared: Option<string>): Option<string> {
    if declared.Some? && ParseVersion(declared.value).Some? then declared else None
  }

  function Check(table: seq<Range>, prefixes: seq<(nat, nat)>, unstableApi: bool,
                 compiled: nat, declared: Option<string>, engine: Option<string>): AbiCheck
  {
    if !unstableApi then StableOnly
    else Decide(table, prefixes, compiled, ParseDeclaredVersion(declared), engine)
  }

  datatype AbiPolicy = Strict | Warn | AllowUnknownEngine | Trust

  datatype AbiVerdict = Load | LoadWithWarning | Refuse

  function PolicyVerdict(policy: AbiPolicy, check: AbiCheck): AbiVerdict {
    if check.IsCompatible() then Load
    else
      match policy
      case Trust => Load
      case Warn => LoadWithWarning
      case AllowUnknownEngine => if check.UnknownEngineVersion? then Load else Refuse
      case Strict => Refuse
  }

  // ---- The relation the tables stand for

  /** The tables are what the script derives from these headers, and its
      checks hold: what exit code 0 of the script establishes. */
  ghost predicate Vouched(hs: Headers, table: seq<Range>, prefixes: seq<(nat, nat)>) {
    && CountsIdentify(hs) && TablesMatch(hs, table, prefixes)
    && StrictlySorted(Rows(hs))
    && forall i :: 0 <= i < |hs| ==> hs[i].1.Valid()
  }

  lemma {:induction false} ScriptVouches(releases: seq<Release>, table: seq<Range>, prefixes: seq<(nat, nat)>, n: nat)
    requires StrictlyAscending(releases)
    requires forall i :: 0 <= i < |releases| && releases[i].fetch.Fetched? ==> releases[i].fetch.header.Valid()
    requires Verdict(releases, table, prefixes, n) == Matches
    ensures Vouched(Read(releases), table, prefixes)
  {
    ReadSorted(releases);
    ReadVersions(releases);
    forall i | 0 <= i < |Read(releases)|
      ensures Read(releases)[i].1.Valid()
    {
      assert Read(releases)[i] in Read(releases);
    }
  }

  /** Every slot compiled in holds the same declaration in the engine. */
  ghost predicate DispatchesAlike(compiled: seq<Decl>, engine: seq<Decl>) {
    |compiled| <= |engine| && forall slot :: 0 <= slot < |compiled| ==> compiled[slot] == engine[slot]
  }

  lemma {:induction false} LayoutsAreKnown(hs: Headers, table: seq<Range>, prefixes: seq<(nat, nat)>)
    requires Vouched(hs, table, prefixes)
    ensures forall i :: 0 <= i < |hs| ==>
              |hs[i].1.declarations| in Layouts(hs).items
              && Layouts(hs).items[|hs[i].1.declarations|] == hs[i].1.declarations
    ensures forall n :: n in Layouts(hs).items ==> |Layouts(hs).items[n]| == n
  {
    LayoutsKnown(hs);
  }

  lemma {:induction false} LayoutsKnown(hs: Headers)
    requires CountsIdentify(hs) && forall i :: 0 <= i < |hs| ==> hs[i].1.Valid()
    ensures forall i :: 0 <= i < |hs| ==>
              |hs[i].1.declarations| in Layouts(hs).items
              && Layouts(hs).items[|hs[i].1.declarations|] == hs[i].1.declarations
    ensures forall n :: n in Layouts(hs).items ==> |Layouts(hs).items[n]| == n
  {
    LayoutsOfHeaders(hs);
    RecordedIsIdentified(hs);
    assert AllRecorded(hs);
    forall i | 0 <= i < |hs|
      ensures |hs[i].1.declarations| in Layouts(hs).items
              && Layouts(hs).items[|hs[i].1.declarations|] == hs[i].1.declarations
    {
      assert Recorded(Layouts(hs), hs[i].1);
    }
  }

  /** One lookup in the pair table decides the whole prefix relation. */
  lemma {:induction false} LookupIsPrefix(hs: Headers, table: seq<Range>, prefixes: seq<(nat, nat)>, c: nat, e: nat)
    requires Vouched(hs, table, prefixes) && c < |hs| && e < |hs|
    ensures LayoutRunsOn(prefixes, |hs[c].1.declarations|, |hs[e].1.declarations|)
            <==> DispatchesAlike(hs[c].1.declarations, hs[e].1.declarations)
  {
    var small, large := hs[c].1.declarations, hs[e].1.declarations;
    LayoutsAreKnown(hs, table, prefixes);
    DerivedPairs(Layouts(hs), |small|, |large|);
    assert small <= large <==> DispatchesAlike(small, large);
    assert |small| == |large| && small <= large ==> small == large;
  }

  /** A slot count no listed release has runs only on itself. */
  lemma {:induction false} UnknownCountRunsNowhere(hs: Headers, table: seq<Range>, prefixes: seq<(nat, nat)>, compiled: nat, e: nat)
    requires Vouched(hs, table, prefixes) && e < |hs|
    requires LayoutRunsOn(prefixes, compiled, |hs[e].1.declarations|)
    ensures exists c :: 0 <= c < |hs| && |hs[c].1.declarations| == compiled
  {
    if compiled == |hs[e].1.declarations| {
    } else {
      LayoutsAreKnown(hs, table, prefixes);
      DerivedPairs(Layouts(hs), compiled, |hs[e].1.declarations|);
      LayoutsOfHeaders(hs);
    }
  }

  /** The table needs no chaining: the lookup is already transitive, and it is
      antisymmetric, for all slot counts whatever. */
  lemma {:induction false} LookupIsAPartialOrder(hs: Headers, table: seq<Range>, prefixes: seq<(nat, nat)>, a: nat, b: nat, c: nat)
    requires Vouched(hs, table, prefixes)
    ensures LayoutRunsOn(prefixes, a, a)
    ensures LayoutRunsOn(prefixes, a, b) && LayoutRunsOn(prefixes, b, c) ==> LayoutRunsOn(prefixes, a, c)
    ensures LayoutRunsOn(prefixes, a, b) && LayoutRunsOn(prefixes, b, a) ==> a == b
  {
    LayoutsAreKnown(hs, table, prefixes);
    DerivedPairs(Layouts(hs), a, b);
    DerivedPairs(Layouts(hs), b, c);
    DerivedPairs(Layouts(hs), a, c);
    DerivedPairs(Layouts(hs), b, a);
  }

  /** What the script's comparison of tables comes to, from the headers alone:
      the ranges are in order, none could be joined with the next, and they
      answer for exactly the releases read; the pairs ascend, and are the slot
      counts of two releases of which one is a proper prefix of the other. */
  lemma {:induction false} TablesAreCanonical(hs: Headers, table: seq<Range>, prefixes: seq<(nat, nat)>)
    requires CountsIdentify(hs) && StrictlySorted(Rows(hs)) && forall i :: 0 <= i < |hs| ==> hs[i].1.Valid()
    ensures TablesMatch(hs, table, prefixes) <==>
            && Ordered(table) && Compressed(table) && PairsAscend(prefixes)
            && (forall v, s: nat :: Lookup(table, v) == Some(s) <==> ListedWith(hs, v, s))
            && (forall a: nat, b: nat :: (a, b) in prefixes <==> ProperPrefix(hs, a, b))
  {
    TableIsCanonical(Rows(hs), table);
    forall v, s: nat
      ensures (v, s) in Rows(hs) <==> ListedWith(hs, v, s)
    {
      RowIsListed(hs, v, s);
    }
    LayoutsKnown(hs);
    PrefixesAreCanonical(Layouts(hs), prefixes);
    forall a: nat, b: nat
      ensures IsPrefixPair(Layouts(hs).items, a, b) <==> ProperPrefix(hs, a, b)
    {
      PairIsPrefix(hs, a, b);
    }
  }

  ghost predicate ListedWith(hs: Headers, v: Version, s: nat) {
    exists i :: 0 <= i < |hs| && hs[i].0 == v && |hs[i].1.declarations| == s
  }

  ghost predicate ProperPrefix(hs: Headers, a: nat, b: nat) {
    a < b && exists c, e :: PrefixAt(hs, a, b, c, e)
  }

  predicate PrefixAt(hs: Headers, a: nat, b: nat, c: int, e: int) {
    && 0 <= c < |hs| && 0 <= e < |hs| && |hs[c].1.declarations| == a && |hs[e].1.declarations| == b
    && hs[c].1.declarations <= hs[e].1.declarations
  }

  lemma {:induction false} RowIsListed(hs: Headers, v: Version, s: nat)
    requires forall i :: 0 <= i < |hs| ==> hs[i].1.Valid()
    ensures (v, s) in Rows(hs) <==> ListedWith(hs, v, s)
  {
    if (v, s) in Rows(hs) {
      var i :| 0 <= i < |Rows(hs)| && Rows(hs)[i] == (v, s);
      assert hs[i].0 == v && hs[i].1.Valid();
    }
    if i :| 0 <= i < |hs| && hs[i].0 == v && |hs[i].1.declarations| == s {
      assert Rows(hs)[i] == (v, s);
    }
  }

  lemma {:induction false} PairIsPrefix(hs: Headers, a: nat, b: nat)
    requires CountsIdentify(hs) && forall i :: 0 <= i < |hs| ==> hs[i].1.Valid()
    ensures IsPrefixPair(Layouts(hs).items, a, b) <==> ProperPrefix(hs, a, b)
  {
    LayoutsKnown(hs);
    LayoutsOfHeaders(hs);
    if IsPrefixPair(Layouts(hs).items, a, b) {
      var c :| 0 <= c < |hs| && |hs[c].1.fields| == a && hs[c].1.declarations == Layouts(hs).items[a];
      var e :| 0 <= e < |hs| && |hs[e].1.fields| == b && hs[e].1.declarations == Layouts(hs).items[b];
      assert hs[c].1.Valid() && hs[e].1.Valid();
      assert PrefixAt(hs, a, b, c, e);
    }
  }

  // ---- The decision

  lemma {:induction false} TableAnswers(hs: Headers, table: seq<Range>, prefixes: seq<(nat, nat)>, v: Version, s: nat)
    requires Vouched(hs, table, prefixes)
    ensures Lookup(table, v) == Some(s) <==>
            exists e :: 0 <= e < |hs| && hs[e].0 == v && |hs[e].1.declarations| == s
  {
    CollapsedIsExact(Rows(hs), v);
    FirstMatchOfSorted(Rows(hs), v, s);
    if (v, s) in Rows(hs) {
      var e :| 0 <= e < |Rows(hs)| && Rows(hs)[e] == (v, s);
      assert hs[e].0 == v;
    }
    if e :| 0 <= e < |hs| && hs[e].0 == v && |hs[e].1.declarations| == s {
      assert Rows(hs)[e] == (v, s);
    }
  }

  /** The declaration contradicts the compiled bindings. */
  predicate Contradicts(table: seq<Range>, declared: Option<string>, compiled: nat) {
    declared.Some? && ExpectedSlotCount(table, declared.value).Some?
    && ExpectedSlotCount(table, declared.value).value != compiled
  }

  /** On an engine the script has read, the guard says "compatible" exactly
      when the declaration does not contradict the bindings and the compiled
      layout is that of a listed release whose every slot the engine lays out
      alike. In particular no declaration can rescue a known mismatch. */
  lemma {:induction false} DecideOnKnownEngine(hs: Headers, table: seq<Range>, prefixes: seq<(nat, nat)>,
                            compiled: nat, declared: Option<string>, engine: string, e: nat)
    requires Vouched(hs, table, prefixes) && e < |hs| && ParseVersion(engine) == Some(hs[e].0)
    ensures Decide(table, prefixes, compiled, declared, Some(engine)).Compatible? <==>
            && !Contradicts(table, declared, compiled)
            && exists c :: 0 <= c < |hs| && |hs[c].1.declarations| == compiled
                           && DispatchesAlike(hs[c].1.declarations, hs[e].1.declarations)
  {
    var slots := |hs[e].1.declarations|;
    TableAnswers(hs, table, prefixes, hs[e].0, slots);
    assert ExpectedSlotCount(table, engine) == Some(slots);
    assert Decide(table, prefixes, compiled, declared, Some(engine)).Compatible? <==>
           !Contradicts(table, declared, compiled) && LayoutRunsOn(prefixes, compiled, slots);
    if LayoutRunsOn(prefixes, compiled, slots) {
      UnknownCountRunsNowhere(hs, table, prefixes, compiled, e);
      var c :| 0 <= c < |hs| && |hs[c].1.declarations| == compiled;
      LookupIsPrefix(hs, table, prefixes, c, e);
    }
    if c :| 0 <= c < |hs| && |hs[c].1.declarations| == compiled
            && DispatchesAlike(hs[c].1.declarations, hs[e].1.declarations)
    {
      LookupIsPrefix(hs, table, prefixes, c, e);
    }
  }

  /** End to end: "compatible" on a listed engine means that whichever listed
      release the bindings came from, each slot index below the compiled count
      is the same declaration on both sides, whatever was declared. */
  lemma {:induction false} DispatchIsSound(hs: Headers, table: seq<Range>, prefixes: seq<(nat, nat)>,
                        declared: Option<string>, engine: string, c: nat, e: nat)
    requires Vouched(hs, table, prefixes) && c < |hs| && e < |hs| && ParseVersion(engine) == Some(hs[e].0)
    requires Check(table, prefixes, true, |hs[c].1.declarations|, declared, Some(engine)).IsCompatible()
    ensures DispatchesAlike(hs[c].1.declarations, hs[e].1.declarations)
  {
    var compiled := |hs[c].1.declarations|;
    DecideOnKnownEngine(hs, table, prefixes, compiled, ParseDeclaredVersion(declared), engine, e);
    var c' :| 0 <= c' < |hs| && |hs[c'].1.declarations| == compiled
              && DispatchesAlike(hs[c'].1.declarations, hs[e].1.declarations);
    assert |hs[c].1.fields| == |hs[c'].1.fields|;
  }

  /** On an engine the script has not read, including every development
      build, the check passes exactly when the build names that very release
      in a well-formed declaration. */
  lemma {:induction false} CheckOnUnknownEngine(hs: Headers, table: seq<Range>, prefixes: seq<(nat, nat)>,
                             compiled: nat, declared: Option<string>, engine: string)
    requires Vouched(hs, table, prefixes)
    requires forall e :: 0 <= e < |hs| ==> ParseVersion(engine) != Some(hs[e].0)
    ensures Check(table, prefixes, true, compiled, declared, Some(engine)).IsCompatible() <==>
            declared.Some? && ParseVersion(declared.value).Some? && ParseVersion(declared.value) == ParseVersion(engine)
  {
    if ParseVersion(engine).Some? {
      var v := ParseVersion(engine).value;
      if Lookup(table, v).Some? {
        TableAnswers(hs, table, prefixes, v, Lookup(table, v).value);
      }
    }
  }

  /** The decision alone does not have that property: it takes two strings that
      are both no version for the same version. Of all declarations, exactly
      the malformed ones need the filter in front of it. */
  lemma {:induction false} MalformedDeclarationMatchesAnyDevBuild(table: seq<Range>, prefixes: seq<(nat, nat)>,
                                               compiled: nat, declared: string, engine: string)
    requires ParseVersion(engine).None?
    ensures Decide(table, prefixes, compiled, Some(declared), Some(engine)).Compatible?
            <==> ParseVersion(declared).None?
  {
  }

  // ---- The policy

  /** Under the two checking policies a binary that reaches into the unstable
      region loads on a listed engine only if it dispatches alike there. */
  lemma {:induction false} CheckedLoadIsSound(hs: Headers, table: seq<Range>, prefixes: seq<(nat, nat)>, policy: AbiPolicy,
                           declared: Option<string>, engine: string, c: nat, e: nat)
    requires Vouched(hs, table, prefixes) && c < |hs| && e < |hs| && ParseVersion(engine) == Some(hs[e].0)
    requires policy == Strict || policy == AllowUnknownEngine
    requires PolicyVerdict(policy, Check(table, prefixes, true, |hs[c].1.declarations|, declared, Some(engine))) != Refuse
    ensures DispatchesAlike(hs[c].1.declarations, hs[e].1.declarations)
  {
    var compiled := |hs[c].1.declarations|;
    TableAnswers(hs, table, prefixes, hs[e].0, |hs[e].1.declarations|);
    DispatchIsSoundIfLoaded(hs, table, prefixes, declared, engine, c, e, compiled);
  }

  lemma {:induction false} DispatchIsSoundIfLoaded(hs: Headers, table: seq<Range>, prefixes: seq<(nat, nat)>,
                                declared: Option<string>, engine: string, c: nat, e: nat, compiled: nat)
    requires Vouched(hs, table, prefixes) && c < |hs| && e < |hs| && ParseVersion(engine) == Some(hs[e].0)
    requires compiled == |hs[c].1.declarations| && Lookup(table, hs[e].0).Some?
    ensures var check := Check(table, prefixes, true, compiled, declared, Some(engine));
            && !check.UnknownEngineVersion?
            && (check.IsCompatible() ==> DispatchesAlike(hs[c].1.declarations, hs[e].1.declarations))
  {
    if Check(table, prefixes, true, compiled, declared, Some(engine)).IsCompatible() {
      DispatchIsSound(hs, table, prefixes, declared, engine, c, e);
    }
  }

  predicate Admits(policy: AbiPolicy, check: AbiCheck) {
    PolicyVerdict(policy, check) != Refuse
  }

  predicate ListedAs(hs: Headers, version: string, e: int) {
    0 <= e < |hs| && ParseVersion(version) == Some(hs[e].0)
  }

  predicate Unlisted(hs: Headers, version: string) {
    forall e :: 0 <= e < |hs| ==> ParseVersion(version) != Some(hs[e].0)
  }

  /** The declaration names a listed release laid out with another slot count. */
  ghost predicate Misdeclared(hs: Headers, declared: Option<string>, compiled: nat) {
    declared.Some? && exists k :: ListedAs(hs, declared.value, k) && |hs[k].1.declarations| != compiled
  }

  predicate NamesEngine(declared: Option<string>, engine: string) {
    declared.Some? && ParseVersion(declared.value).Some? && ParseVersion(declared.value) == ParseVersion(engine)
  }

  ghost predicate RunsAlike(hs: Headers, compiled: nat, e: nat)
    requires e < |hs|
  {
    exists c :: 0 <= c < |hs| && |hs[c].1.declarations| == compiled
                && DispatchesAlike(hs[c].1.declarations, hs[e].1.declarations)
  }

  lemma {:induction false} MisdeclaredContradicts(hs: Headers, table: seq<Range>, prefixes: seq<(nat, nat)>,
                                                  declared: Option<string>, compiled: nat)
    requires Vouched(hs, table, prefixes)
    ensures Contradicts(table, ParseDeclaredVersion(declared), compiled) <==> Misdeclared(hs, declared, compiled)
  {
    if declared.Some? && ParseVersion(declared.value).Some? {
      var v := ParseVersion(declared.value).value;
      if Lookup(table, v).Some? {
        TableAnswers(hs, table, prefixes, v, Lookup(table, v).value);
      }
      forall k: nat | ListedAs(hs, declared.value, k)
        ensures Lookup(table, v) == Some(|hs[k].1.declarations|)
      {
        TableAnswers(hs, table, prefixes, v, |hs[k].1.declarations|);
      }
    }
  }

  /** A declaration that names a listed release with another count comes
      first: it is reported with both counts, whatever the engine is, and only
      the two policies that load anyway load. */
  lemma {:induction false} MisdeclaredBuild(hs: Headers, table: seq<Range>, prefixes: seq<(nat, nat)>,
                                            compiled: nat, declared: string, engine: Option<string>, k: nat)
    requires Vouched(hs, table, prefixes) && ListedAs(hs, declared, k) && |hs[k].1.declarations| != compiled
    ensures var check := Check(table, prefixes, true, compiled, Some(declared), engine);
            && check == DeclaredVersionMismatch(declared, |hs[k].1.declarations|, compiled)
            && PolicyVerdict(Strict, check) == Refuse
            && PolicyVerdict(AllowUnknownEngine, check) == Refuse
            && PolicyVerdict(Warn, check) == LoadWithWarning
            && PolicyVerdict(Trust, check) == Load
  {
    TableAnswers(hs, table, prefixes, hs[k].0, |hs[k].1.declarations|);
  }

  /** An engine that reports no version is refused by Strict and by
      AllowUnknownEngine alike: it is not an unknown release. */
  lemma {:induction false} EngineWithoutVersion(hs: Headers, table: seq<Range>, prefixes: seq<(nat, nat)>,
                                                compiled: nat, declared: Option<string>)
    requires Vouched(hs, table, prefixes) && !Misdeclared(hs, declared, compiled)
    ensures var check := Check(table, prefixes, true, compiled, declared, None);
            && check == EngineVersionUnavailable(compiled)
            && PolicyVerdict(Strict, check) == Refuse
            && PolicyVerdict(AllowUnknownEngine, check) == Refuse
            && PolicyVerdict(Warn, check) == LoadWithWarning
            && PolicyVerdict(Trust, check) == Load
  {
    MisdeclaredContradicts(hs, table, prefixes, declared, compiled);
  }

  /** The build that was made for this very engine loads under every policy,
      listed or not. */
  lemma {:induction false} EngineNamedByBuild(hs: Headers, table: seq<Range>, prefixes: seq<(nat, nat)>,
                                              compiled: nat, declared: Option<string>, engine: string, policy: AbiPolicy)
    requires Vouched(hs, table, prefixes) && !Misdeclared(hs, declared, compiled) && NamesEngine(declared, engine)
    ensures var check := Check(table, prefixes, true, compiled, declared, Some(engine));
            check == Compatible(engine, compiled) && PolicyVerdict(policy, check) == Load
  {
    MisdeclaredContradicts(hs, table, prefixes, declared, compiled);
  }

  /** On an engine no listed release answers to, and that the build does not
      name, the policies part: Strict refuses, AllowUnknownEngine and Trust
      load, Warn loads with a warning. */
  lemma {:induction false} EngineOffTheList(hs: Headers, table: seq<Range>, prefixes: seq<(nat, nat)>,
                                            compiled: nat, declared: Option<string>, engine: string)
    requires Vouched(hs, table, prefixes) && !Misdeclared(hs, declared, compiled)
    requires !NamesEngine(declared, engine) && Unlisted(hs, engine)
    ensures var check := Check(table, prefixes, true, compiled, declared, Some(engine));
            && check == UnknownEngineVersion(engine, compiled)
            && PolicyVerdict(Strict, check) == Refuse
            && PolicyVerdict(AllowUnknownEngine, check) == Load
            && PolicyVerdict(Warn, check) == LoadWithWarning
            && PolicyVerdict(Trust, check) == Load
  {
    MisdeclaredContradicts(hs, table, prefixes, declared, compiled);
    if ParseVersion(engine).Some? {
      var v := ParseVersion(engine).value;
      if Lookup(table, v).Some? {
        TableAnswers(hs, table, prefixes, v, Lookup(table, v).value);
      }
    }
  }

  /** On a listed engine that the build does not name, every policy loads a
      layout whose slots the engine lays out alike; any other is a mismatch,
      reported with both counts, which AllowUnknownEngine refuses too. */
  lemma {:induction false} EngineOnTheList(hs: Headers, table: seq<Range>, prefixes: seq<(nat, nat)>,
                                           compiled: nat, declared: Option<string>, engine: string, e: nat, policy: AbiPolicy)
    requires Vouched(hs, table, prefixes) && !Misdeclared(hs, declared, compiled)
    requires !NamesEngine(declared, engine) && ListedAs(hs, engine, e)
    ensures var check := Check(table, prefixes, true, compiled, declared, Some(engine));
            if RunsAlike(hs, compiled, e) then
              check == Compatible(engine, compiled) && PolicyVerdict(policy, check) == Load
            else
              && check == LayoutMismatch(engine, |hs[e].1.declarations|, compiled)
              && PolicyVerdict(Strict, check) == Refuse
              && PolicyVerdict(AllowUnknownEngine, check) == Refuse
              && PolicyVerdict(Warn, check) == LoadWithWarning
              && PolicyVerdict(Trust, check) == Load
  {
    MisdeclaredContradicts(hs, table, prefixes, declared, compiled);
    TableAnswers(hs, table, prefixes, hs[e].0, |hs[e].1.declarations|);
    DecideOnKnownEngine(hs, table, prefixes, compiled, ParseDeclaredVersion(declared), engine, e);
  }

  /** Each policy admits what the stricter one admits, Warn and Trust admit
      everything, and the only warnings are those of Warn on a failed check. */
  lemma {:induction false} PoliciesAreOrdered(check: AbiCheck, policy: AbiPolicy)
    ensures Admits(Strict, check) ==> Admits(AllowUnknownEngine, check)
    ensures Admits(AllowUnknownEngine, check) ==> Admits(Warn, check) && Admits(Trust, check)
    ensures Admits(Warn, check) && Admits(Trust, check)
    ensures Admits(AllowUnknownEngine, check) && !Admits(Strict, check) <==> check.UnknownEngineVersion?
    ensures PolicyVerdict(policy, check) == LoadWithWarning <==> policy == Warn && !Admits(Strict, check)
  {
  }

  /** All of it at once: which builds that reach into the unstable region load
      without a word, from the headers alone. */
  lemma {:induction false} LoadsExactly(hs: Headers, table: seq<Range>, prefixes: seq<(nat, nat)>, policy: AbiPolicy,
                                        compiled: nat, declared: Option<string>, engine: Option<string>)
    requires Vouched(hs, table, prefixes)
    ensures PolicyVerdict(policy, Check(table, prefixes, true, compiled, declared, engine)) == Load <==>
            || policy == Trust
            || (&& engine.Some? && !Misdeclared(hs, declared, compiled)
                && (|| NamesEngine(declared, engine.value)
                    || (exists e :: ListedAs(hs, engine.value, e) && RunsAlike(hs, compiled, e))
                    || (policy == AllowUnknownEngine && Unlisted(hs, engine.value))))
  {
    if Misdeclared(hs, declared, compiled) {
      var k :| ListedAs(hs, declared.value, k) && |hs[k].1.declarations| != compiled;
      MisdeclaredBuild(hs, table, prefixes, compiled, declared.value, engine, k);
    } else if engine.None? {
      EngineWithoutVersion(hs, table, prefixes, compiled, declared);
    } else if NamesEngine(declared, engine.value) {
      EngineNamedByBuild(hs, table, prefixes, compiled, declared, engine.value, policy);
    } else if Unlisted(hs, engine.value) {
      EngineOffTheList(hs, table, prefixes, compiled, declared, engine.value);
    } else {
      var e: nat :| e < |hs| && ParseVersion(engine.value) == Some(hs[e].0);
      EngineOnTheList(hs, table, prefixes, compiled, declared, engine.value, e, policy);
      forall e' | ListedAs(hs, engine.value, e')
        ensures e' == e
      {
        assert Rows(hs)[e].0 == Rows(hs)[e'].0;
      }
    }
  }

  /** A default-feature build is never refused, and what it relies on is the
      frozen prefix: the same slots, alike up to the rename, in any two
      releases the script has read. */
  lemma {:induction false} StableBuildIsPortable(hs: Headers, table: seq<Range>, prefixes: seq<(nat, nat)>, n: nat, policy: AbiPolicy,
                              compiled: nat, declared: Option<string>, engine: Option<string>, a: nat, b: nat)
    requires Passes(hs, table, prefixes, n) && forall i :: 0 <= i < |hs| ==> hs[i].1.Valid()
    requires a < |hs| && b < |hs|
    ensures Check(table, prefixes, false, compiled, declared, engine) == StableOnly
    ensures PolicyVerdict(policy, Check(table, prefixes, false, compiled, declared, engine)) == Load
    ensures n <= |hs[a].1.declarations| && n <= |hs[b].1.declarations|
    ensures forall slot :: 0 <= slot < n ==> AlikeUpToRename(hs[a].1.declarations[slot], hs[b].1.declarations[slot])
  {
    StableReaches(hs, n, a);
    StableReaches(hs, n, b);
    forall slot: nat | slot < n
      ensures AlikeUpToRename(hs[a].1.declarations[slot], hs[b].1.declarations[slot])
    {
      StableSlotsAreFrozen(hs, table, prefixes, n, a, b, slot);
    }
  }

  /** The declarations differ at most where the one says `varint`. */
  predicate AlikeUpToRename(here: Decl, there: Decl) {
    && Rename(here) == Rename(there)
    && (!Occurs(there, "varint") ==> there == Rename(here))
    && (!Occurs(here, "varint") && !Occurs(there, "varint") ==> here == there)
  }
}
