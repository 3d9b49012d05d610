/** The layout guard from end to end: from the text of the published headers,
    through the script and its tables, to a call through a slot; and the one
    thing on that way that is not sound. */
module Pipeline {
  import opened Wrappers
  import opened Text
  import opened Versions
  import opened HeaderBands
  import opened HeaderTwin
  import opened HeaderScript
  import opened HeaderTree
  import opened AbiTable
  import opened ReleaseCheck
  import opened AbiGuard

  // ---- From text to releases

  /** What asking for one header gives. */
  datatype Download = NotPublished | Unreachable | Published(header: string)

  /** The struct's lines after the opening one. */
  function BodyLines(header: string): Option<seq<string>> {
    var body :- PythonBody(header);
    Some(Split(body, '\n')[1..])
  }

  function FetchOf(d: Download, normalise: string -> string): Fetch {
    match d
    case NotPublished => Missing
    case Unreachable => Fetch.Failed
    case Published(header) =>
      if BodyLines(header).None? then Malformed else Fetched(ReadHeader(BodyLines(header).value, normalise))
  }

  predicate Readable(d: Download) {
    d.Published? && BodyLines(d.header).Some?
  }

  /** The raw declarations of a readable header, and their names. */
  function Entries(d: Download): seq<string>
    requires Readable(d)
  {
    Run(START, BodyLines(d.header).value, NEWEST).entries
  }

  function Fields(d: Download): seq<string>
    requires Readable(d)
  {
    StructFields(BodyLines(d.header).value, NEWEST)
  }

  lemma {:induction false} FieldsOfEntries(d: Download)
    requires Readable(d)
    ensures |Fields(d)| == |Entries(d)|
  {
    EntriesMatch(START, BodyLines(d.header).value, NEWEST);
    NamesCount(Entries(d));
  }

  /** A listed tag with a readable header is among the headers read. */
  lemma {:induction false} TagIsRead(listed: seq<Tag>, fetch: Tag -> Fetch, tag: Tag) returns (i: nat)
    requires tag in listed && fetch(tag).Fetched?
    ensures i < |Read(Releases(listed, fetch))|
    ensures Read(Releases(listed, fetch))[i] == (tag.key, fetch(tag).header)
  {
    var tags, releases := SortedTags(listed), Releases(listed, fetch);
    SortedTagsMembers(listed);
    var k :| 0 <= k < |tags| && tags[k] == tag;
    assert releases[k] == Release(tag.key, fetch(tag));
    ReadVersions(releases);
    var h := (tag.key, fetch(tag).header);
    assert h in Read(releases);
    i :| 0 <= i < |Read(releases)| && Read(releases)[i] == h;
  }

  predicate AnyUnreachable(listed: seq<Tag>, download: Tag -> Download) {
    exists tag :: tag in listed && download(tag).Unreachable?
  }

  predicate AnyPublished(listed: seq<Tag>, download: Tag -> Download) {
    exists tag :: tag in listed && download(tag).Published?
  }

  predicate AnyMarkless(listed: seq<Tag>, download: Tag -> Download) {
    exists tag :: tag in listed && download(tag).Published? && BodyLines(download(tag).header).None?
  }

  predicate AllFetched(releases: seq<Release>, tags: seq<Tag>, download: Tag -> Download, normalise: string -> string) {
    |releases| == |tags| && forall i :: 0 <= i < |tags| ==> releases[i].fetch == FetchOf(download(tags[i]), normalise)
  }

  lemma {:induction false} FetchesShow(releases: seq<Release>, tags: seq<Tag>, download: Tag -> Download, normalise: string -> string)
    requires AllFetched(releases, tags, download, normalise)
    ensures AnyFailed(releases) <==> AnyUnreachable(tags, download)
    ensures AnyMarkless(tags, download) ==> AnyRaises(releases)
    ensures !AnyPublished(tags, download) ==>
              forall i :: 0 <= i < |releases| ==> releases[i].fetch.Failed? || releases[i].fetch.Missing?
  {
    if tag :| tag in tags && download(tag).Unreachable? {
      var i :| 0 <= i < |tags| && tags[i] == tag;
      assert releases[i].fetch.Failed?;
    }
    if i :| 0 <= i < |releases| && releases[i].fetch.Failed? {
      assert tags[i] in tags && download(tags[i]).Unreachable?;
    }
    if tag :| tag in tags && download(tag).Published? && BodyLines(download(tag).header).None? {
      var i :| 0 <= i < |tags| && tags[i] == tag;
      assert Raises(releases[i].fetch);
    }
    if !AnyPublished(tags, download) {
      forall i | 0 <= i < |releases|
        ensures releases[i].fetch.Failed? || releases[i].fetch.Missing?
      {
        assert tags[i] in tags;
      }
    }
  }

  /** How the downloads decide the exit code: a header that is nowhere published
      is no failure, one that lacks the struct's marks is an exception, and
      code 2 takes one that could not be reached. */
  lemma {:induction false} DownloadsDecide(listed: seq<Tag>, download: Tag -> Download, normalise: string -> string,
                                           table: seq<Range>, prefixes: seq<(nat, nat)>, n: nat)
    ensures var exit := Verdict(Releases(listed, tag => FetchOf(download(tag), normalise)), table, prefixes, n);
            && (exit.Code() == 2 ==> AnyUnreachable(listed, download))
            && (AnyMarkless(listed, download) ==> exit == Raised)
            && (!AnyPublished(listed, download) ==> exit.Code() == if AnyUnreachable(listed, download) then 2 else 1)
  {
    var tags, releases := SortedTags(listed), Releases(listed, tag => FetchOf(download(tag), normalise));
    SortedTagsMembers(listed);
    FetchesShow(releases, tags, download, normalise);
    SameTags(listed, tags, download);
    DecidedBy(releases, tags, download, table, prefixes, n);
  }

  lemma {:induction false} SameTags(listed: seq<Tag>, tags: seq<Tag>, download: Tag -> Download)
    requires forall tag :: tag in tags <==> tag in listed
    ensures AnyUnreachable(tags, download) <==> AnyUnreachable(listed, download)
    ensures AnyPublished(tags, download) <==> AnyPublished(listed, download)
    ensures AnyMarkless(tags, download) <==> AnyMarkless(listed, download)
  {
  }

  lemma {:induction false} DecidedBy(releases: seq<Release>, tags: seq<Tag>, download: Tag -> Download,
                                     table: seq<Range>, prefixes: seq<(nat, nat)>, n: nat)
    requires AnyFailed(releases) <==> AnyUnreachable(tags, download)
    requires AnyMarkless(tags, download) ==> AnyRaises(releases)
    requires !AnyPublished(tags, download) ==>
               forall i :: 0 <= i < |releases| ==> releases[i].fetch.Failed? || releases[i].fetch.Missing?
    ensures var exit := Verdict(releases, table, prefixes, n);
            && (exit.Code() == 2 ==> AnyUnreachable(tags, download))
            && (AnyMarkless(tags, download) ==> exit == Raised)
            && (!AnyPublished(tags, download) ==> exit.Code() == if AnyUnreachable(tags, download) then 2 else 1)
  {
    if !AnyPublished(tags, download) {
      NothingRead(releases, table, prefixes, n);
    }
  }

  /** From the headers to the call. If the script ends with code 0 on whatever
      tags are listed and whatever the downloads gave, and the check at load
      time passes on a listed engine, then each slot index compiled in is, in
      the engine's header, the same declaration under the same name: whatever
      the clean-up of declarations does, and whatever the build declares. */
  lemma {:induction false} HeadersToDispatch(listed: seq<Tag>, download: Tag -> Download, normalise: string -> string,
                                             table: seq<Range>, prefixes: seq<(nat, nat)>, n: nat,
                                             declared: Option<string>, engine: string, c: Tag, e: Tag, slot: nat)
    requires KeysDistinct(listed) && c in listed && e in listed && Readable(download(c)) && Readable(download(e))
    requires Verdict(Releases(listed, tag => FetchOf(download(tag), normalise)), table, prefixes, n) == Matches
    requires ParseVersion(engine) == Some(e.key) && slot < |Fields(download(c))|
    requires Check(table, prefixes, true, |Fields(download(c))|, declared, Some(engine)).IsCompatible()
    ensures |Entries(download(c))| == |Fields(download(c))| <= |Fields(download(e))| == |Entries(download(e))|
    ensures Fields(download(c))[slot] == Fields(download(e))[slot]
    ensures normalise(Entries(download(c))[slot]) == normalise(Entries(download(e))[slot])
  {
    var fetch := tag => FetchOf(download(tag), normalise);
    var releases := Releases(listed, fetch);
    var hs := Read(releases);
    FieldsOfEntries(download(c));
    FieldsOfEntries(download(e));
    RowsAreSorted(listed, fetch);
    FetchedIsValid(listed, download, normalise);
    ScriptVouches(releases, table, prefixes, n);
    var ci := TagIsRead(listed, fetch, c);
    var ei := TagIsRead(listed, fetch, e);
    DispatchIsSound(hs, table, prefixes, declared, engine, ci, ei);
    assert HeadersSound(hs);
    NameOfSlot(hs[ci].1, slot);
    NameOfSlot(hs[ei].1, slot);
  }

  lemma {:induction false} FetchedIsValid(listed: seq<Tag>, download: Tag -> Download, normalise: string -> string)
    ensures var releases := Releases(listed, tag => FetchOf(download(tag), normalise));
            forall i :: 0 <= i < |releases| && releases[i].fetch.Fetched? ==> releases[i].fetch.header.Valid()
  {
    var releases := Releases(listed, tag => FetchOf(download(tag), normalise));
    forall i | 0 <= i < |releases| && releases[i].fetch.Fetched?
      ensures releases[i].fetch.header.Valid()
    {
      var d := download(SortedTags(listed)[i]);
      assert releases[i].fetch == FetchOf(d, normalise);
    }
  }

  lemma {:induction false} NameOfSlot(h: Header, slot: nat)
    requires NamesAgree(h) && slot < |h.declarations|
    ensures slot < |h.fields| && Search(h.declarations[slot]) == Some(h.fields[slot])
  {
    assert |NamesOf(h.declarations)| == |Somes(h.fields)|;
    assert NamesOf(h.declarations)[slot] == Somes(h.fields)[slot];
  }

  /** What that is worth for the structs themselves: where the two headers'
      bodies are items whose declarations are ended in time, the fields are the
      ones a compiler lays out. */
  lemma {:induction false} FieldsAreLaidOut(d: Download, tree: Tree)
    requires Readable(d) && tree.Legal() && BodyLines(d.header) == Some(tree.Lines())
    ensures Fields(d) == tree.Visible(NEWEST) <==> EachEnded(tree.Present(NEWEST), false)
  {
    ScriptIsPreprocessor(tree, NEWEST);
  }

  // ---- Where it is not sound

  /** Two declarations, with a comment after the first one's semicolon. */
  function CommentedStruct(a: Mark, b: Mark, comment: string): Tree {
    Leaf(Pointer("", a, ["(); // " + comment]), Leaf(Pointer("", b, ["();"]), Done))
  }

  /** The struct has two slots; the script counts one, and none of its checks
      notices: on this header alone it ends with code 0 and vouches for a
      table that says one. It takes only that the clean-up keeps the name of
      the one entry read. */
  lemma {:induction false} LostSlotIsVouchedFor(a: Mark, b: Mark, comment: string, normalise: string -> string)
    requires a.Legal() && b.Legal() && a.gap1 == "" && b.gap1 == ""
    requires Plain(comment) && LastInk(comment).Some? && !Ends(comment)
    requires var tree := CommentedStruct(a, b, comment);
             EachKept(Run(START, tree.Lines(), NEWEST).entries, normalise)
    ensures var tree := CommentedStruct(a, b, comment);
            && tree.Legal() && tree.Visible(NEWEST) == [a.name, b.name]
            && ReadHeader(tree.Lines(), normalise).fields == [a.name]
    ensures var h := ReadHeader(CommentedStruct(a, b, comment).Lines(), normalise);
            Verdict([Release(FIRST_RELEASE, Fetched(h))], [Range(1, 2, 0, 0, 1)], [], 1) == Matches
  {
    var tree := CommentedStruct(a, b, comment);
    var h := ReadHeader(tree.Lines(), normalise);
    CommentedIsShort(a, b, comment, NEWEST);
    CommentedIsShort(a, b, comment, Target(false, Some(FIRST_RELEASE)));
    EntriesMatch(START, tree.Lines(), NEWEST);
    NamesAgreeIsNormalise(tree.Lines(), normalise);
    assert NamesAgree(h);
    NamesMatch(h);
    assert Take(h.fields, |h.stable|) == h.stable;
    OneReleasePasses(h);
  }

  lemma {:induction false} NamesMatch(h: Header)
    requires NamesAgree(h)
    ensures !Nameless(h)
  {
    forall i | 0 <= i < |h.declarations|
      ensures Search(h.declarations[i]).Some?
    {
      NameOfSlot(h, i);
    }
  }

  lemma {:induction false} CommentedIsShort(a: Mark, b: Mark, comment: string, t: Target)
    requires a.Legal() && b.Legal() && a.gap1 == "" && b.gap1 == ""
    requires Plain(comment) && LastInk(comment).Some? && !Ends(comment)
    ensures var tree := CommentedStruct(a, b, comment);
            tree.Legal() && tree.Visible(t) == [a.name, b.name] && StructFields(tree.Lines(), t) == [a.name]
  {
    var tree := CommentedStruct(a, b, comment);
    var first, second := tree.item, tree.rest.item;
    CommentAfter(comment);
    assert Plain("();") && Ends("();");
    assert first.Legal() && second.Legal();
    assert tree.rest.Present(t) == [second] + [];
    assert tree.Present(t) == [first] + tree.rest.Present(t);
    assert [first] + ([second] + []) == [first, second];
    TwoDeclarations(first, second);
    assert [first, second][1..] == [second] && [second][1..] == [];
    assert PointerNames([second]) == [b.name] + PointerNames([]);
    assert PointerNames([first, second]) == [a.name] + PointerNames([second]);
    ScriptIsPreprocessor(tree, t);
  }
}
