/** The two regular expressions of check-abi-table.py, said as such: what the
    matchers of HeaderBands accept, and nothing else. */
module HeaderRegex {
  import opened Wrappers
  import opened Text
  import opened Versions
  import opened HeaderBands
  import opened HeaderTwin
  import opened HeaderScript
  import opened HeaderTree

  predicate AllWord(s: string) {
    forall i :: 0 <= i < |s| ==> IsWord(s[i])
  }

  /** `\w` on ASCII, by the characters' codes. */
  lemma {:induction false} WordsAre(c: char)
    ensures IsWord(c) <==>
            48 <= c as int <= 57 || 65 <= c as int <= 90 || c as int == 95 || 97 <= c as int <= 122
  {
  }

  lemma {:induction false} WordPrefixCuts(s: string)
    ensures AllWord(WordPrefix(s))
    ensures AllWord(s) ==> WordPrefix(s) == s
  {
    if s != "" && IsWord(s[0]) {
      WordPrefixCuts(s[1..]);
    }
  }

  // ---- `\(\s*\*\s*(duckdb_\w+)\s*\)`

  predicate FnPtr(s: string, g1: string, g2: string, name: string, g3: string, rest: string) {
    && AllSpace(g1) && AllSpace(g2) && AllSpace(g3) && "duckdb_" < name && AllWord(name)
    && s == "(" + (g1 + ("*" + (g2 + (name + (g3 + (")" + rest))))))
  }

  lemma {:induction false} FnPtrMatches(s: string, g1: string, g2: string, name: string, g3: string, rest: string)
    requires FnPtr(s, g1, g2, name, g3, rest)
    ensures MatchFnPtr(s) == Some(name)
  {
    var closed := ")" + rest;
    var named := name + (g3 + closed);
    var starred := "*" + (g2 + named);
    assert name[0] == 'd';
    BlanksPast(g1, starred);
    BlanksPast(g2, named);
    BlanksPast(g3, closed);
    assert (g3 + closed)[0] == if g3 == "" then ')' else g3[0];
    WordPrefixCuts(name);
    WordPrefixPast(name, g3 + closed);
    MatchByParts(s, g1 + starred, g2 + named, named, name, g3 + closed, closed);
  }

  /** What is in front of the rest of a text. */
  function Cut(s: string, rest: string): string
    requires |rest| <= |s|
  {
    s[..|s| - |rest|]
  }

  /** A text is the blanks in front and what stripping them leaves. */
  lemma {:induction false} BlanksAndRest(s: string, rest: string)
    requires rest == StripLeft(s)
    ensures |rest| <= |s| && AllSpace(Cut(s, rest)) && s == Cut(s, rest) + rest
  {
    StripLeftCuts(s);
  }

  lemma {:induction false} MatchIsFnPtr(s: string, name: string)
    requires MatchFnPtr(s) == Some(name)
    ensures exists g1, g2, g3, rest :: FnPtr(s, g1, g2, name, g3, rest)
  {
    var star := StripLeft(s[1..]);
    var named := StripLeft(star[1..]);
    WordPrefixCuts(named);
    Inverted(s, s[1..], star, star[1..], named, name, named[|name|..], StripLeft(named[|name|..]));
  }

  lemma {:induction false} Inverted(s: string, t1: string, star: string, t2: string, named: string, name: string,
                                    t3: string, closed: string)
    requires "(" <= s && s[1..] == t1 && "*" <= star && star[1..] == t2
    requires name <= named && named[|name|..] == t3 && ")" <= closed && "duckdb_" < name && AllWord(name)
    requires star == StripLeft(t1) && named == StripLeft(t2) && closed == StripLeft(t3)
    ensures exists g1, g2, g3, rest :: FnPtr(s, g1, g2, name, g3, rest)
  {
    BlanksAndRest(t1, star);
    BlanksAndRest(t2, named);
    BlanksAndRest(t3, closed);
    FnPtrOfParts(s, Cut(t1, star), star, Cut(t2, named), named, name, t3, Cut(t3, closed), closed);
  }

  lemma {:induction false} FnPtrOfParts(s: string, g1: string, star: string, g2: string, named: string, name: string,
                                        after: string, g3: string, closed: string)
    requires "(" <= s && s[1..] == g1 + star && "*" <= star && star[1..] == g2 + named
    requires name <= named && named[|name|..] == after && after == g3 + closed && ")" <= closed
    requires AllSpace(g1) && AllSpace(g2) && AllSpace(g3) && "duckdb_" < name && AllWord(name)
    ensures FnPtr(s, g1, g2, name, g3, closed[1..])
  {
    assert closed == ")" + closed[1..];
    assert named == name + (g3 + (")" + closed[1..]));
    assert star == "*" + (g2 + named);
    assert s == "(" + (g1 + star);
  }

  lemma {:induction false} MatchFnPtrIsRegex(s: string, name: string)
    ensures MatchFnPtr(s) == Some(name) <==> exists g1, g2, g3, rest :: FnPtr(s, g1, g2, name, g3, rest)
  {
    if MatchFnPtr(s) == Some(name) {
      MatchIsFnPtr(s, name);
    }
    if g1, g2, g3, rest :| FnPtr(s, g1, g2, name, g3, rest) {
      FnPtrMatches(s, g1, g2, name, g3, rest);
    }
  }

  predicate MatchesAt(s: string, k: int, name: Option<string>) {
    0 <= k <= |s| && MatchFnPtr(s[k..]) == name
  }

  /** A search finds the leftmost match. */
  lemma {:induction false} SearchIsLeftmost(s: string)
    ensures Search(s).Some? ==>
              exists k :: MatchesAt(s, k, Search(s)) && forall j :: 0 <= j < k ==> MatchesAt(s, j, None)
    ensures Search(s).None? ==> forall k :: 0 <= k <= |s| ==> MatchesAt(s, k, None)
  {
    if s == "" {
      assert s[0..] == "";
    } else {
      SearchIsLeftmost(s[1..]);
      assert s[0..] == s;
      assert forall k :: 0 <= k <= |s[1..]| ==> s[1..][k..] == s[k + 1..];
      if MatchFnPtr(s).Some? {
        assert MatchesAt(s, 0, Search(s));
      } else if Search(s).Some? {
        var k :| MatchesAt(s[1..], k, Search(s)) && forall j :: 0 <= j < k ==> MatchesAt(s[1..], j, None);
        assert MatchesAt(s, k + 1, Search(s));
        forall j | 0 <= j < k + 1
          ensures MatchesAt(s, j, None)
        {
          assert j > 0 ==> MatchesAt(s[1..], j - 1, None);
        }
      } else {
        forall k | 0 <= k <= |s|
          ensures MatchesAt(s, k, None)
        {
          assert k > 0 ==> MatchesAt(s[1..], k - 1, None);
        }
      }
    }
  }

  // ---- `^#if\s+DUCKDB_API_VERSION_AT_LEAST\(\s*(\d+)\s*,\s*(\d+)\s*,\s*(\d+)\s*\)$`

  /** Digits with blanks around them. */
  ghost predicate Padded(t: string, n: nat) {
    exists before, digits, after :: PaddedAs(t, n, before, digits, after)
  }

  predicate PaddedAs(t: string, n: nat, before: string, digits: string, after: string) {
    && AllSpace(before) && AllSpace(after) && digits != "" && AllDigits(digits) && DecimalValue(digits) == n
    && t == before + (digits + after)
  }

  lemma {:induction false} PaddedIsRead(t: string, n: nat, rest: string)
    requires Padded(t, n) && rest != "" && !IsSpace(rest[0]) && !IsDigit(rest[0])
    ensures ReadNumber(t + rest) == Some((n, rest))
  {
    var before, digits, after :| PaddedAs(t, n, before, digits, after);
    var tail := after + rest;
    assert t + rest == before + (digits + tail);
    assert IsDigit(digits[0]) && (digits + tail)[0] == digits[0];
    BlanksPast(before, digits + tail);
    assert tail[0] == if after == "" then rest[0] else after[0];
    DigitsEnd(digits, tail);
    assert (digits + tail)[|digits|..] == tail;
    BlanksPast(after, rest);
  }

  lemma {:induction false} ReadIsPadded(s: string, n: nat, rest: string) returns (t: string)
    requires ReadNumber(s) == Some((n, rest))
    ensures Padded(t, n) && s == t + rest
  {
    var number := StripLeft(s);
    var digits := DigitPrefix(number);
    var before := Front(s, number);
    var after := Front(number[|digits|..], rest);
    t := PaddedParts(s, n, before, number, digits, number[|digits|..], after, rest);
  }

  lemma {:induction false} Front(s: string, rest: string) returns (front: string)
    requires rest == StripLeft(s)
    ensures AllSpace(front) && s == front + rest
  {
    BlanksAndRest(s, rest);
    front := Cut(s, rest);
  }

  lemma {:induction false} PaddedParts(s: string, n: nat, before: string, number: string, digits: string,
                                       tail: string, after: string, rest: string)
    returns (t: string)
    requires s == before + number && digits <= number && tail == number[|digits|..] && tail == after + rest
    requires AllSpace(before) && AllSpace(after)
    requires digits != "" && AllDigits(digits) && DecimalValue(digits) == n
    ensures Padded(t, n) && s == t + rest
  {
    t := before + (digits + after);
    assert PaddedAs(t, n, before, digits, after);
    assert number == digits + tail;
    assert before + (digits + (after + rest)) == t + rest;
  }

  predicate BandLine(s: string, gap: string, t1: string, t2: string, t3: string) {
    && gap != "" && AllSpace(gap)
    && s == "#if" + (gap + (VERSION_MACRO + (t1 + ("," + (t2 + ("," + (t3 + ")")))))))
  }

  ghost predicate BandOf(s: string, v: Version, gap: string, t1: string, t2: string, t3: string) {
    BandLine(s, gap, t1, t2, t3) && Padded(t1, v.major) && Padded(t2, v.minor) && Padded(t3, v.patch)
  }

  lemma {:induction false} BandMatches(s: string, v: Version, gap: string, t1: string, t2: string, t3: string)
    requires BandOf(s, v, gap, t1, t2, t3)
    ensures MatchAtLeast(s) == Some(v)
  {
    var third := t3 + ")";
    var second := t2 + ("," + third);
    var first := t1 + ("," + second);
    var call := VERSION_MACRO + first;
    SameGuard();
    assert s[3..] == gap + call && s[3] == gap[0];
    assert VERSION_MACRO[0] == 'D' && call[0] == 'D';
    BlanksPast(gap, call);
    assert call[|AT_LEAST|..] == first;
    PaddedIsRead(t1, v.major, "," + second);
    PaddedIsRead(t2, v.minor, "," + third);
    PaddedIsRead(t3, v.patch, ")");
    assert ("," + second)[1..] == second && ("," + third)[1..] == third;
  }

  lemma {:induction false} MatchIsBand(s: string, v: Version)
    requires MatchAtLeast(s) == Some(v)
    ensures exists gap, t1, t2, t3 :: BandOf(s, v, gap, t1, t2, t3)
  {
    var call := StripLeft(s[3..]);
    StripLeftCuts(s[3..]);
    SameGuard();
    var gap := Cut(s[3..], call);
    var args := call[|AT_LEAST|..];
    var rest1 := ReadNumber(args).value.1;
    var rest2 := ReadNumber(rest1[1..]).value.1;
    var t1 := ReadIsPadded(args, v.major, rest1);
    var t2 := ReadIsPadded(rest1[1..], v.minor, rest2);
    var t3 := ReadIsPadded(rest2[1..], v.patch, ")");
    BandFromParts(s, gap, call, args, t1, rest1, t2, rest2, t3);
    assert BandOf(s, v, gap, t1, t2, t3);
  }

  lemma {:induction false} BandFromParts(s: string, gap: string, call: string, args: string, t1: string, rest1: string,
                                         t2: string, rest2: string, t3: string)
    requires "#if" <= s && |s| > 3 && IsSpace(s[3]) && s[3..] == gap + call && AllSpace(gap)
    requires call == VERSION_MACRO + args && args == t1 + rest1
    requires "," <= rest1 && rest1[1..] == t2 + rest2 && "," <= rest2 && rest2[1..] == t3 + ")"
    ensures BandLine(s, gap, t1, t2, t3)
  {
    assert VERSION_MACRO[0] == 'D';
    assert (gap + call)[0] == s[3];
    assert rest2 == "," + (t3 + ")");
    assert rest1 == "," + (t2 + rest2);
    assert s == "#if" + (gap + call);
  }

  lemma {:induction false} MatchAtLeastIsRegex(s: string, v: Version)
    ensures MatchAtLeast(s) == Some(v) <==> exists gap, t1, t2, t3 :: BandOf(s, v, gap, t1, t2, t3)
  {
    if MatchAtLeast(s) == Some(v) {
      MatchIsBand(s, v);
    }
    if gap, t1, t2, t3 :| BandOf(s, v, gap, t1, t2, t3) {
      BandMatches(s, v, gap, t1, t2, t3);
    }
  }
}
