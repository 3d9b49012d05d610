/** The string operations of Rust's `str` and Python's `str` that the modelled
    code rests on, as functions over sequences of characters. */
module Text {
  import opened Wrappers

  /** Python's `str.isspace` on ASCII. */
  predicate IsSpace(c: char) {
    '\t' <= c <= '\r' || '\U{1c}' <= c <= ' '
  }

  lemma {:induction false} SpacesAre(c: char)
    ensures IsSpace(c) <==> c in "\t\n\U{b}\U{c}\r\U{1c}\U{1d}\U{1e}\U{1f} "
  {
  }

  predicate AllSpace(s: string) {
    forall i :: 0 <= i < |s| ==> IsSpace(s[i])
  }

  function StripLeft(s: string): string {
    if s != "" && IsSpace(s[0]) then StripLeft(s[1..]) else s
  }

  function StripRight(s: string): string {
    if s != "" && IsSpace(s[|s| - 1]) then StripRight(s[..|s| - 1]) else s
  }

  /** `str.strip()` */
  function Strip(s: string): string {
    StripRight(StripLeft(s))
  }

  predicate StartsWith(s: string, prefix: string) {
    prefix <= s
  }

  predicate EndsWithChar(s: string, c: char) {
    s != "" && s[|s| - 1] == c
  }

  /** The index of the first `c`, or the length when there is none. */
  function IndexOf(s: string, c: char): (i: nat)
    ensures i <= |s|
    ensures forall k :: 0 <= k < i ==> s[k] != c
    ensures i < |s| ==> s[i] == c
  {
    IndexFrom(s, c, 0)
  }

  function IndexFrom(s: string, c: char, at: nat): (i: nat)
    requires at <= |s|
    ensures at <= i <= |s|
    ensures forall k :: at <= k < i ==> s[k] != c
    ensures i < |s| ==> s[i] == c
    decreases |s| - at
  {
    if at == |s| || s[at] == c then at else IndexFrom(s, c, at + 1)
  }

  /** `s.split(c)` */
  function Split(s: string, c: char): (parts: seq<string>)
    ensures |parts| >= 1
    decreases |s|
  {
    var i := IndexOf(s, c);
    if i == |s| then [s] else [s[..i]] + Split(s[i + 1..], c)
  }

  lemma {:induction false} SplitHead(s: string, c: char)
    ensures var i := IndexOf(s, c);
            if i == |s| then Split(s, c) == [s]
            else Split(s, c)[0] == s[..i] && Split(s, c)[1..] == Split(s[i + 1..], c) && |Split(s, c)| > 1
  {
  }

  /** `sep.join(parts)` */
  function Join(parts: seq<string>, sep: string): string {
    if parts == [] then ""
    else if |parts| == 1 then parts[0]
    else parts[0] + sep + Join(parts[1..], sep)
  }

  predicate OccursAt(s: string, needle: string, k: nat) {
    k <= |s| && needle <= s[k..]
  }

  /** The position of the first occurrence of `needle`: `str.find`. */
  function Find(s: string, needle: string): (r: Option<nat>)
    ensures r.Some? ==> OccursAt(s, needle, r.value) && forall k: nat :: k < r.value ==> !OccursAt(s, needle, k)
    ensures r.None? ==> forall k: nat :: !OccursAt(s, needle, k)
  {
    FindFrom(s, needle, 0)
  }

  function FindFrom(s: string, needle: string, at: nat): (r: Option<nat>)
    requires at <= |s|
    ensures r.Some? ==> OccursAt(s, needle, r.value) && forall k: nat :: at <= k < r.value ==> !OccursAt(s, needle, k)
    ensures r.None? ==> forall k: nat :: at <= k ==> !OccursAt(s, needle, k)
    decreases |s| - at
  {
    if OccursAt(s, needle, at) then Some(at)
    else if at == |s| then None
    else FindFrom(s, needle, at + 1)
  }

  predicate Occurs(s: string, needle: string) {
    exists k :: 0 <= k <= |s| && OccursAt(s, needle, k)
  }

  lemma {:induction false} IndexOfAppend(a: string, c: char, b: string)
    requires c !in a
    ensures IndexOf(a + [c] + b, c) == |a|
    ensures IndexOf(a, c) == |a|
  {
    var s := a + [c] + b;
    assert s[|a|] == c;
    assert forall k :: 0 <= k < |a| ==> s[k] == a[k];
  }

  lemma {:induction false} SplitOfJoin(parts: seq<string>, c: char)
    requires |parts| >= 1
    requires forall k :: 0 <= k < |parts| ==> c !in parts[k]
    ensures Split(Join(parts, [c]), c) == parts
  {
    if |parts| == 1 {
      var i := IndexOf(parts[0], c);
      assert i == |parts[0]|;
    } else {
      SplitCons(parts[0], c, Join(parts[1..], [c]));
      SplitOfJoin(parts[1..], c);
      assert parts == [parts[0]] + parts[1..];
    }
  }

  lemma {:induction false} SplitCons(a: string, c: char, rest: string)
    requires c !in a
    ensures Split(a + [c] + rest, c) == [a] + Split(rest, c)
  {
    var s := a + [c] + rest;
    IndexOfAppend(a, c, rest);
    assert s[..|a|] == a && s[|a| + 1..] == rest;
  }

  lemma {:induction false} JoinOfSplit(s: string, c: char)
    ensures Join(Split(s, c), [c]) == s
    ensures forall k :: 0 <= k < |Split(s, c)| ==> c !in Split(s, c)[k]
    decreases |s|
  {
    var i := IndexOf(s, c);
    if i < |s| {
      JoinOfSplit(s[i + 1..], c);
      assert s == s[..i] + [c] + s[i + 1..];
      assert Split(s, c)[1..] == Split(s[i + 1..], c);
    }
  }

  lemma {:induction false} StripLeftPast(a: string, b: string)
    requires b != "" && !IsSpace(b[0])
    ensures StripLeft(a + b) == StripLeft(a) + b
  {
    if a == "" {
      assert a + b == b;
    } else if IsSpace(a[0]) {
      assert (a + b)[1..] == a[1..] + b;
      StripLeftPast(a[1..], b);
    }
  }

  lemma {:induction false} StripRightPast(a: string, b: string)
    requires a != "" && !IsSpace(a[|a| - 1])
    ensures StripRight(a + b) == a + StripRight(b)
    decreases |b|
  {
    if b == "" {
      assert a + b == a;
    } else if IsSpace(b[|b| - 1]) {
      assert (a + b)[..|a + b| - 1] == a + b[..|b| - 1];
      StripRightPast(a, b[..|b| - 1]);
    }
  }

  lemma {:induction false} StripLeftBlank(s: string)
    requires AllSpace(s)
    ensures StripLeft(s) == ""
  {
    if s != "" {
      StripLeftBlank(s[1..]);
    }
  }

  lemma {:induction false} BlanksPast(blanks: string, rest: string)
    requires AllSpace(blanks) && rest != "" && !IsSpace(rest[0])
    ensures StripLeft(blanks + rest) == rest
  {
    StripLeftPast(blanks, rest);
    StripLeftBlank(blanks);
    assert "" + rest == rest;
  }

  lemma {:induction false} StripRightBlank(s: string)
    requires AllSpace(s)
    ensures StripRight(s) == ""
    decreases |s|
  {
    if s != "" {
      StripRightBlank(s[..|s| - 1]);
    }
  }

  /** Blanks around a text that begins and ends with none are all that is
      stripped. */
  lemma {:induction false} StripAround(before: string, s: string, after: string)
    requires AllSpace(before) && AllSpace(after)
    requires s != "" && !IsSpace(s[0]) && !IsSpace(s[|s| - 1])
    ensures Strip(before + s + after) == s
  {
    assert before + s + after == before + (s + after);
    StripLeftPast(before, s + after);
    StripLeftBlank(before);
    assert "" + (s + after) == s + after;
    StripRightPast(s, after);
    StripRightBlank(after);
    assert s + "" == s;
  }

  /** What is left has no blank in front, and what is gone is blank. */
  lemma {:induction false} StripLeftCuts(s: string)
    ensures |StripLeft(s)| <= |s|
    ensures var n := |s| - |StripLeft(s)|; AllSpace(s[..n]) && s[n..] == StripLeft(s)
    ensures StripLeft(s) == "" || !IsSpace(StripLeft(s)[0])
  {
    if s != "" && IsSpace(s[0]) {
      StripLeftCuts(s[1..]);
      var m := |s[1..]| - |StripLeft(s[1..])|;
      assert s[..m + 1] == [s[0]] + s[1..][..m] && s[m + 1..] == s[1..][m..];
    } else {
      assert s[0..] == s;
    }
  }

  lemma {:induction false} StripRightCuts(s: string)
    ensures StripRight(s) <= s && AllSpace(s[|StripRight(s)|..])
    ensures StripRight(s) == "" || !IsSpace(StripRight(s)[|StripRight(s)| - 1])
    decreases |s|
  {
    if s != "" && IsSpace(s[|s| - 1]) {
      var front := s[..|s| - 1];
      StripRightCuts(front);
      var n := |StripRight(s)|;
      assert s[n..] == front[n..] + [s[|s| - 1]];
    }
  }

  predicate IsCore(s: string, before: string, core: string, after: string) {
    && AllSpace(before) && AllSpace(after) && s == before + core + after
    && (core == "" || (!IsSpace(core[0]) && !IsSpace(core[|core| - 1])))
  }

  lemma {:induction false} StripLeavesCore(s: string)
    ensures exists before, after :: IsCore(s, before, Strip(s), after)
  {
    StripLeftCuts(s);
    StripRightCuts(StripLeft(s));
    Assembled(s, StripLeft(s), Strip(s));
  }

  lemma {:induction false} Assembled(s: string, left: string, core: string)
    requires |left| <= |s| && s[|s| - |left|..] == left && AllSpace(s[..|s| - |left|])
    requires core <= left && AllSpace(left[|core|..])
    requires (left == "" || !IsSpace(left[0])) && (core == "" || !IsSpace(core[|core| - 1]))
    ensures exists before, after :: IsCore(s, before, core, after)
  {
    var before, after := s[..|s| - |left|], left[|core|..];
    assert left == core + after;
    assert s == before + core + after;
    assert IsCore(s, before, core, after);
  }

  lemma {:induction false} CoreIsLeft(s: string, before: string, core: string, after: string)
    requires IsCore(s, before, core, after)
    ensures Strip(s) == core
  {
    if core != "" {
      StripAround(before, core, after);
    } else {
      assert AllSpace(s);
      StripLeftBlank(s);
    }
  }

  /** `strip()` is the only part of a text that blanks surround and that neither
      begins nor ends with one. */
  lemma {:induction false} StripIsCore(s: string, core: string)
    ensures Strip(s) == core <==> exists before, after :: IsCore(s, before, core, after)
  {
    StripLeavesCore(s);
    if before, after :| IsCore(s, before, core, after) {
      CoreIsLeft(s, before, core, after);
    }
  }

  lemma {:induction false} StripShortens(s: string)
    ensures |StripLeft(s)| <= |s| && |StripRight(s)| <= |s|
    decreases |s|
  {
    if s != "" {
      StripShortens(s[1..]);
      StripShortens(s[..|s| - 1]);
    }
  }
}
