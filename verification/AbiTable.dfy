/** scripts/check-abi-table.py: deriving the layout tables of src/abi.rs from
    the release headers, and the consistency checks the tables rest on. */
module AbiTable {
  import opened Wrappers
  import opened Versions

  type Decl = string
  type Row = (Version, nat)

  /** `(major, minor, patch_lo, patch_hi, slots)` */
  datatype Range = Range(major: nat, minor: nat, lo: nat, hi: nat, slots: nat) {
    predicate Covers(v: Version) {
      major == v.major && minor == v.minor && lo <= v.patch <= hi
    }
  }

  // ---- Range compression

  /** One turn of the loop in `collapse`. */
  function Extend(out: seq<Range>, row: Row): seq<Range> {
    var (v, slots) := row;
    if out != [] && out[|out| - 1].major == v.major && out[|out| - 1].minor == v.minor
       && out[|out| - 1].slots == slots && out[|out| - 1].hi + 1 == v.patch
    then out[|out| - 1 := out[|out| - 1].(hi := v.patch)]
    else out + [Range(v.major, v.minor, v.patch, v.patch, slots)]
  }

  function Collapsed(rows: seq<Row>): seq<Range> {
    if rows == [] then [] else Extend(Collapsed(rows[..|rows| - 1]), rows[|rows| - 1])
  }

  method Collapse(rows: seq<Row>) returns (out: seq<Range>)
    ensures out == Collapsed(rows)
  {
    out := [];
    for i := 0 to |rows|
      invariant out == Collapsed(rows[..i])
    {
      assert rows[..i + 1][..i] == rows[..i];
      var (v, slots) := rows[i];
      var last := |out| - 1;
      if out != [] && out[last].major == v.major && out[last].minor == v.minor
         && out[last].slots == slots && out[last].hi + 1 == v.patch
      {
        out := out[last := out[last].(hi := v.patch)];
      } else {
        out := out + [Range(v.major, v.minor, v.patch, v.patch, slots)];
      }
    }
    assert rows[..|rows|] == rows;
  }

  /** First-match lookup in the compressed table: `expected_slot_count`. */
  function Lookup(table: seq<Range>, v: Version): Option<nat> {
    if table == [] then None
    else if table[0].Covers(v) then Some(table[0].slots)
    else Lookup(table[1..], v)
  }

  /** First-match lookup in the rows themselves. */
  function FirstMatch(rows: seq<Row>, v: Version): Option<nat> {
    if rows == [] then None
    else if rows[0].0 == v then Some(rows[0].1)
    else FirstMatch(rows[1..], v)
  }

  lemma {:induction false} LookupAppend(a: seq<Range>, b: seq<Range>, v: Version)
    ensures Lookup(a + b, v) == if Lookup(a, v).Some? then Lookup(a, v) else Lookup(b, v)
  {
    if a == [] {
      assert a + b == b;
    } else {
      assert (a + b)[1..] == a[1..] + b;
      LookupAppend(a[1..], b, v);
    }
  }

  lemma {:induction false} FirstMatchAppend(a: seq<Row>, b: seq<Row>, v: Version)
    ensures FirstMatch(a + b, v) == if FirstMatch(a, v).Some? then FirstMatch(a, v) else FirstMatch(b, v)
  {
    if a == [] {
      assert a + b == b;
    } else {
      assert (a + b)[1..] == a[1..] + b;
      FirstMatchAppend(a[1..], b, v);
    }
  }

  predicate WellFormed(table: seq<Range>) {
    forall i :: 0 <= i < |table| ==> table[i].lo <= table[i].hi
  }

  lemma {:induction false} ExtendLookup(out: seq<Range>, row: Row, v: Version)
    requires WellFormed(out)
    ensures WellFormed(Extend(out, row))
    ensures Lookup(Extend(out, row), v) ==
            if Lookup(out, v).Some? then Lookup(out, v) else FirstMatch([row], v)
  {
    var next := Extend(out, row);
    if |next| == |out| {
      var front, last := out[..|out| - 1], out[|out| - 1];
      assert out == front + [last];
      assert next == front + [next[|out| - 1]];
      LookupAppend(front, [last], v);
      LookupAppend(front, [next[|out| - 1]], v);
    } else {
      LookupAppend(out, [next[|out|]], v);
    }
  }

  /** Compression is exact for every list of rows, sorted or not: the table
      answers for a version exactly what the rows answer. No patch release
      that is not a row is ever vouched for. */
  lemma {:induction false} CollapsedIsExact(rows: seq<Row>, v: Version)
    ensures WellFormed(Collapsed(rows))
    ensures Lookup(Collapsed(rows), v) == FirstMatch(rows, v)
  {
    if rows != [] {
      var front, last := rows[..|rows| - 1], rows[|rows| - 1];
      assert rows == front + [last];
      CollapsedIsExact(front, v);
      ExtendLookup(Collapsed(front), last, v);
      FirstMatchAppend(front, [last], v);
    }
  }

  /** What `sorted(set(tags), key=version_key)` yields for release tags. */
  predicate StrictlySorted(rows: seq<Row>) {
    forall i, j :: 0 <= i < j < |rows| ==> Before(rows[i].0, rows[j].0)
  }

  lemma {:induction false} FirstMatchOfSorted(rows: seq<Row>, v: Version, s: nat)
    requires StrictlySorted(rows)
    ensures FirstMatch(rows, v) == Some(s) <==> (v, s) in rows
  {
    if rows != [] {
      FirstMatchOfSorted(rows[1..], v, s);
      assert rows == [rows[0]] + rows[1..];
    }
  }

  /** For sorted rows a release is listed with `s` slots exactly when it is a
      row with `s` slots, and the ranges are in order and never overlap. */
  lemma {:induction false} CollapsedOfSorted(rows: seq<Row>)
    requires StrictlySorted(rows)
    ensures forall v, s: nat :: Lookup(Collapsed(rows), v) == Some(s) <==> (v, s) in rows
    ensures Ordered(Collapsed(rows))
  {
    forall v, s: nat
      ensures Lookup(Collapsed(rows), v) == Some(s) <==> (v, s) in rows
    {
      CollapsedIsExact(rows, v);
      FirstMatchOfSorted(rows, v, s);
    }
    OrderedCollapse(rows);
  }

  function Low(r: Range): Version {
    Version(r.major, r.minor, r.lo)
  }

  function High(r: Range): Version {
    Version(r.major, r.minor, r.hi)
  }

  /** Each range ends before every later one begins: pairwise disjoint. */
  predicate Ordered(table: seq<Range>) {
    WellFormed(table)
    && forall i, j :: 0 <= i < j < |table| ==> Before(High(table[i]), Low(table[j]))
  }

  predicate AllBelow(table: seq<Range>, v: Version) {
    forall i :: 0 <= i < |table| ==> Before(High(table[i]), v)
  }

  lemma {:induction false} ExtendOrdered(out: seq<Range>, row: Row)
    requires Ordered(out) && AllBelow(out, row.0)
    ensures Ordered(Extend(out, row))
    ensures Extend(out, row) != [] && High(Extend(out, row)[|Extend(out, row)| - 1]) == row.0
  {
    var next := Extend(out, row);
    forall i, j | 0 <= i < j < |next|
      ensures Before(High(next[i]), Low(next[j]))
    {
      assert next[i] == out[i];
      assert j < |out| ==> Low(next[j]) == Low(out[j]);
    }
  }

  lemma {:induction false} OrderedCollapse(rows: seq<Row>)
    requires StrictlySorted(rows)
    ensures Ordered(Collapsed(rows))
    ensures rows != [] ==> Collapsed(rows) != [] && High(Collapsed(rows)[|Collapsed(rows)| - 1]) == rows[|rows| - 1].0
  {
    if rows != [] {
      var front, row := rows[..|rows| - 1], rows[|rows| - 1];
      OrderedCollapse(front);
      var out := Collapsed(front);
      assert front != [] ==> Before(front[|front| - 1].0, row.0);
      forall i | 0 <= i < |out|
        ensures Before(High(out[i]), row.0)
      {
        assert i < |out| - 1 ==> Before(High(out[i]), Low(out[|out| - 1]));
      }
      ExtendOrdered(out, row);
    }
  }

  predicate Continues(r: Range, next: Range) {
    r.major == next.major && r.minor == next.minor && r.slots == next.slots && r.hi + 1 == next.lo
  }

  /** No two neighbours could have been one range. */
  predicate Compressed(table: seq<Range>) {
    forall i :: 0 < i < |table| ==> !Continues(table[i - 1], table[i])
  }

  lemma {:induction false} CollapsedIsCompressed(rows: seq<Row>)
    ensures Compressed(Collapsed(rows))
  {
    if rows != [] {
      var out := Collapsed(rows[..|rows| - 1]);
      var next := Extend(out, rows[|rows| - 1]);
      CollapsedIsCompressed(rows[..|rows| - 1]);
      forall i | 0 < i < |next|
        ensures !Continues(next[i - 1], next[i])
      {
        assert next[i - 1] == out[i - 1] || i == |next|;
        assert i < |out| ==> !Continues(out[i - 1], out[i]);
      }
    }
  }

  lemma {:induction false} LookupFinds(table: seq<Range>, v: Version)
    ensures Lookup(table, v).Some? ==>
              exists i :: 0 <= i < |table| && table[i].Covers(v) && Lookup(table, v) == Some(table[i].slots)
    ensures Lookup(table, v).None? ==> forall i :: 0 <= i < |table| ==> !table[i].Covers(v)
  {
    if table != [] {
      LookupFinds(table[1..], v);
      assert forall i :: 0 < i < |table| ==> table[i] == table[1..][i - 1];
      if !table[0].Covers(v) && Lookup(table[1..], v).Some? {
        var i :| 0 <= i < |table[1..]| && table[1..][i].Covers(v) && Lookup(table[1..], v) == Some(table[1..][i].slots);
        assert table[i + 1].Covers(v);
      }
    }
  }

  /** In order, a version is covered at most once, and never before the first
      range begins. */
  lemma {:induction false} LookupInOrder(table: seq<Range>, v: Version, i: nat)
    requires Ordered(table) && i < |table| && table[i].Covers(v)
    ensures Lookup(table, v) == Some(table[i].slots)
    ensures !Before(v, Low(table[0]))
    ensures i > 0 ==> !table[0].Covers(v)
  {
    if i > 0 {
      assert Before(High(table[0]), Low(table[i]));
      OrderedTail(table);
      LookupInOrder(table[1..], v, i - 1);
    }
  }

  lemma {:induction false} OrderedTail(table: seq<Range>)
    requires Ordered(table) && table != []
    ensures Ordered(table[1..])
  {
  }

  predicate Agree(a: seq<Range>, b: seq<Range>, v: Version) {
    Lookup(a, v) == Lookup(b, v)
  }

  lemma {:induction false} BeginsNoEarlier(a: seq<Range>, b: seq<Range>)
    requires Ordered(a) && Ordered(b) && (forall v :: Agree(a, b, v)) && a != []
    ensures b != [] && !Before(Low(a[0]), Low(b[0]))
  {
    var v := Low(a[0]);
    LookupInOrder(a, v, 0);
    assert Agree(a, b, v);
    LookupFinds(b, v);
    var j :| 0 <= j < |b| && b[j].Covers(v);
    LookupInOrder(b, v, j);
  }

  lemma {:induction false} OneBetween(a: seq<Range>, j: nat)
    requires Ordered(a) && 1 < j < |a|
    ensures Before(High(a[0]), High(a[1])) && Before(High(a[1]), Low(a[j]))
  {
  }

  /** What follows the first range without a gap has another slot count. */
  lemma {:induction false} RightAfterFirst(a: seq<Range>, v: Version, j: nat)
    requires Ordered(a) && Compressed(a) && 0 < j < |a| && a[j].Covers(v)
    requires v == Version(a[0].major, a[0].minor, a[0].hi + 1)
    ensures a[j].slots != a[0].slots
  {
    assert Before(High(a[0]), Low(a[j])) && Low(a[j]) == v;
    if j > 1 {
      OneBetween(a, j);
      assert false;
    }
    assert !Continues(a[j - 1], a[j]);
  }

  lemma {:induction false} EndsNoEarlier(a: seq<Range>, b: seq<Range>)
    requires Ordered(a) && Compressed(a) && Ordered(b) && (forall v :: Agree(a, b, v)) && a != [] && b != []
    requires Low(a[0]) == Low(b[0]) && a[0].slots == b[0].slots
    ensures a[0].hi >= b[0].hi
  {
    if a[0].hi < b[0].hi {
      var v := Version(a[0].major, a[0].minor, a[0].hi + 1);
      LookupInOrder(b, v, 0);
      assert Agree(a, b, v);
      LookupFinds(a, v);
      var j: nat :| j < |a| && a[j].Covers(v) && Lookup(a, v) == Some(a[j].slots);
      RightAfterFirst(a, v, j);
      assert false;
    }
  }

  /** Ranges in order and compressed: the table is determined by its answers. */
  lemma {:induction false} AnswersDetermineTable(a: seq<Range>, b: seq<Range>)
    requires Ordered(a) && Compressed(a) && Ordered(b) && Compressed(b)
    requires forall v :: Agree(a, b, v)
    ensures a == b
  {
    assert forall v :: Agree(b, a, v) by {
      assert forall v :: Agree(a, b, v) ==> Agree(b, a, v);
    }
    if a == [] {
      if b != [] {
        BeginsNoEarlier(b, a);
      }
    } else {
      SameFirst(a, b);
      OrderedTail(a);
      OrderedTail(b);
      forall v
        ensures Agree(a[1..], b[1..], v)
      {
        TailAnswers(a, v);
        TailAnswers(b, v);
        assert Agree(a, b, v);
      }
      CompressedTail(a);
      CompressedTail(b);
      AnswersDetermineTable(a[1..], b[1..]);
      assert a == [a[0]] + a[1..] && b == [b[0]] + b[1..];
    }
  }

  lemma {:induction false} CompressedTail(table: seq<Range>)
    requires Compressed(table) && table != []
    ensures Compressed(table[1..])
  {
    forall i | 0 < i < |table[1..]|
      ensures !Continues(table[1..][i - 1], table[1..][i])
    {
      assert !Continues(table[(i + 1) - 1], table[i + 1]);
    }
  }

  lemma {:induction false} SameFirst(a: seq<Range>, b: seq<Range>)
    requires Ordered(a) && Compressed(a) && Ordered(b) && Compressed(b) && a != []
    requires (forall v :: Agree(a, b, v)) && (forall v :: Agree(b, a, v))
    ensures b != [] && a[0] == b[0]
  {
    BeginsNoEarlier(a, b);
    BeginsNoEarlier(b, a);
    LookupInOrder(a, Low(a[0]), 0);
    LookupInOrder(b, Low(b[0]), 0);
    assert Agree(a, b, Low(a[0]));
    EndsNoEarlier(a, b);
    EndsNoEarlier(b, a);
  }

  lemma {:induction false} TailAnswers(table: seq<Range>, v: Version)
    requires Ordered(table) && table != []
    ensures Lookup(table[1..], v) == if table[0].Covers(v) then None else Lookup(table, v)
  {
    LookupFinds(table[1..], v);
    if i :| 0 <= i < |table[1..]| && table[1..][i].Covers(v) {
      LookupInOrder(table, v, i + 1);
    }
  }

  /** The script compares two lists of ranges. For sorted rows the table passes
      if and only if it is in order and compressed and answers each release as
      the rows do. */
  lemma {:induction false} TableIsCanonical(rows: seq<Row>, table: seq<Range>)
    requires StrictlySorted(rows)
    ensures table == Collapsed(rows) <==>
            && Ordered(table) && Compressed(table)
            && forall v, s: nat :: Lookup(table, v) == Some(s) <==> (v, s) in rows
  {
    CollapsedOfSorted(rows);
    CollapsedIsCompressed(rows);
    if Ordered(table) && Compressed(table)
       && forall v, s: nat :: Lookup(table, v) == Some(s) <==> (v, s) in rows
    {
      forall v
        ensures Agree(table, Collapsed(rows), v)
      {
        var a, b := Lookup(table, v), Lookup(Collapsed(rows), v);
        assert a.Some? ==> (v, a.value) in rows;
        assert b.Some? ==> (v, b.value) in rows;
      }
      AnswersDetermineTable(table, Collapsed(rows));
    }
  }

  // ---- Which layouts are prefixes of which

  /** Python's `sorted` on distinct integer keys. */
  function Insert(n: nat, keys: seq<nat>): seq<nat> {
    if keys == [] || n <= keys[0] then [n] + keys else [keys[0]] + Insert(n, keys[1..])
  }

  function Sorted(keys: seq<nat>): seq<nat> {
    if keys == [] then [] else Insert(keys[0], Sorted(keys[1..]))
  }

  lemma {:induction false} InsertMembers(n: nat, keys: seq<nat>)
    ensures multiset(Insert(n, keys)) == multiset(keys) + multiset{n}
  {
    if keys == [] || n <= keys[0] {
    } else {
      assert keys == [keys[0]] + keys[1..];
      InsertMembers(n, keys[1..]);
    }
  }

  lemma {:induction false} SortedMembers(keys: seq<nat>)
    ensures multiset(Sorted(keys)) == multiset(keys)
  {
    if keys != [] {
      assert keys == [keys[0]] + keys[1..];
      SortedMembers(keys[1..]);
      InsertMembers(keys[0], Sorted(keys[1..]));
    }
  }

  /** A Python `dict`: a map together with its keys in insertion order. */
  datatype Dict<V> = Dict(order: seq<nat>, items: map<nat, V>) {
    ghost predicate Valid() {
      && (forall k: nat :: k in order <==> k in items)
      && forall i, j :: 0 <= i < j < |order| ==> order[i] != order[j]
    }

    function SetDefault(k: nat, v: V): Dict<V> {
      if k in items then this else Dict(order + [k], items[k := v])
    }
  }

  /** Python's `list[:n]`, which stops at the end of the list. */
  function Take<T>(s: seq<T>, n: nat): seq<T> {
    if n <= |s| then s[..n] else s
  }

  function PairsWith(layouts: map<nat, seq<Decl>>, small: nat, larges: seq<nat>): seq<(nat, nat)>
    requires small in layouts && forall k :: k in larges ==> k in layouts
  {
    if larges == [] then []
    else
      (if small < larges[0] && Take(layouts[larges[0]], small) == layouts[small] then [(small, larges[0])] else [])
      + PairsWith(layouts, small, larges[1..])
  }

  function PairsFrom(layouts: map<nat, seq<Decl>>, smalls: seq<nat>, larges: seq<nat>): seq<(nat, nat)>
    requires forall k :: k in smalls ==> k in layouts
    requires forall k :: k in larges ==> k in layouts
  {
    if smalls == [] then []
    else PairsWith(layouts, smalls[0], larges) + PairsFrom(layouts, smalls[1..], larges)
  }

  lemma {:induction false} SortedKeysKnown(layouts: Dict<seq<Decl>>)
    requires layouts.Valid()
    ensures forall k: nat :: k in Sorted(layouts.order) <==> k in layouts.items
  {
    SortedMembers(layouts.order);
    forall k: nat
      ensures k in Sorted(layouts.order) <==> k in layouts.items
    {
      assert k in Sorted(layouts.order) <==> k in multiset(Sorted(layouts.order));
    }
  }

  /** The comprehension of `derive_prefixes`. */
  function DerivePrefixes(layouts: Dict<seq<Decl>>): seq<(nat, nat)>
    requires layouts.Valid()
  {
    SortedKeysKnown(layouts);
    PairsFrom(layouts.items, Sorted(layouts.order), Sorted(layouts.order))
  }

  lemma {:induction false} PairsWithMembers(layouts: map<nat, seq<Decl>>, small: nat, larges: seq<nat>, a: nat, b: nat)
    requires small in layouts && forall k :: k in larges ==> k in layouts
    ensures (a, b) in PairsWith(layouts, small, larges) <==>
            a == small && b in larges && a < b && Take(layouts[b], a) == layouts[a]
  {
    if larges != [] {
      PairsWithMembers(layouts, small, larges[1..], a, b);
      assert larges == [larges[0]] + larges[1..];
    }
  }

  lemma {:induction false} PairsFromMembers(layouts: map<nat, seq<Decl>>, smalls: seq<nat>, larges: seq<nat>, a: nat, b: nat)
    requires forall k :: k in smalls ==> k in layouts
    requires forall k :: k in larges ==> k in layouts
    ensures (a, b) in PairsFrom(layouts, smalls, larges) <==>
            a in smalls && b in larges && a < b && Take(layouts[b], a) == layouts[a]
  {
    if smalls != [] {
      PairsWithMembers(layouts, smalls[0], larges, a, b);
      PairsFromMembers(layouts, smalls[1..], larges, a, b);
      assert smalls == [smalls[0]] + smalls[1..];
    }
  }

  /** A pair is listed exactly when both layouts are known and the smaller is a
      proper declaration-for-declaration prefix of the larger. */
  lemma {:induction false} DerivedPairs(layouts: Dict<seq<Decl>>, a: nat, b: nat)
    requires layouts.Valid()
    requires forall k :: k in layouts.items ==> |layouts.items[k]| == k
    ensures (a, b) in DerivePrefixes(layouts) <==>
            a in layouts.items && b in layouts.items && a < b && layouts.items[a] <= layouts.items[b]
  {
    SortedKeysKnown(layouts);
    PairsFromMembers(layouts.items, Sorted(layouts.order), Sorted(layouts.order), a, b);
  }

  predicate Ascending(keys: seq<nat>) {
    forall i, j :: 0 <= i < j < |keys| ==> keys[i] < keys[j]
  }

  lemma {:induction false} AscendingCons(n: nat, keys: seq<nat>)
    requires Ascending(keys) && forall k :: k in multiset(keys) ==> n < k
    ensures Ascending([n] + keys)
  {
    assert forall i :: 0 <= i < |keys| ==> keys[i] in multiset(keys);
  }

  lemma {:induction false} InsertAscends(n: nat, keys: seq<nat>)
    requires Ascending(keys) && n !in keys
    ensures Ascending(Insert(n, keys))
  {
    if keys == [] || n < keys[0] {
      assert forall k :: k in multiset(keys) ==> k in keys;
      AscendingCons(n, keys);
    } else {
      assert n != keys[0] && n !in keys[1..];
      AscendingTail(keys);
      InsertAscends(n, keys[1..]);
      InsertAbove(keys[0], n, keys[1..]);
      AscendingCons(keys[0], Insert(n, keys[1..]));
    }
  }

  lemma {:induction false} InsertAbove(low: nat, n: nat, keys: seq<nat>)
    requires low < n && forall k :: k in multiset(keys) ==> low < k
    ensures forall k :: k in multiset(Insert(n, keys)) ==> low < k
  {
    InsertMembers(n, keys);
  }

  lemma {:induction false} AscendingTail(keys: seq<nat>)
    requires Ascending(keys) && keys != []
    ensures Ascending(keys[1..])
    ensures forall k :: k in multiset(keys[1..]) ==> k in keys && keys[0] < k
  {
    forall k | k in multiset(keys[1..])
      ensures k in keys && keys[0] < k
    {
      assert k in keys[1..];
      var i :| 0 <= i < |keys[1..]| && keys[1..][i] == k;
      assert keys[i + 1] == k;
    }
  }

  lemma {:induction false} SortedAscends(keys: seq<nat>)
    requires forall i, j :: 0 <= i < j < |keys| ==> keys[i] != keys[j]
    ensures Ascending(Sorted(keys))
  {
    if keys != [] {
      SortedAscends(keys[1..]);
      SortedMembers(keys[1..]);
      assert keys[0] !in multiset(keys[1..]);
      assert keys[0] !in multiset(Sorted(keys[1..]));
      InsertAscends(keys[0], Sorted(keys[1..]));
    }
  }

  predicate PairBefore(p: (nat, nat), q: (nat, nat)) {
    p.0 < q.0 || (p.0 == q.0 && p.1 < q.1)
  }

  predicate PairsAscend(pairs: seq<(nat, nat)>) {
    forall i, j :: 0 <= i < j < |pairs| ==> PairBefore(pairs[i], pairs[j])
  }

  lemma {:induction false} PairsAppend(p: seq<(nat, nat)>, q: seq<(nat, nat)>)
    requires PairsAscend(p) && PairsAscend(q)
    requires forall x, y :: x in p && y in q ==> PairBefore(x, y)
    ensures PairsAscend(p + q)
  {
  }

  lemma {:induction false} PairsWithAscend(layouts: map<nat, seq<Decl>>, small: nat, larges: seq<nat>)
    requires small in layouts && forall k :: k in larges ==> k in layouts
    requires Ascending(larges)
    ensures PairsAscend(PairsWith(layouts, small, larges))
    ensures forall p :: p in PairsWith(layouts, small, larges) ==> p.0 == small && p.1 in larges
  {
    if larges != [] {
      PairsWithAscend(layouts, small, larges[1..]);
      assert larges == [larges[0]] + larges[1..];
      var rest := PairsWith(layouts, small, larges[1..]);
      forall y | y in rest
        ensures PairBefore((small, larges[0]), y)
      {
        var i :| 0 <= i < |larges[1..]| && larges[1..][i] == y.1;
        assert larges[i + 1] == y.1;
      }
      PairsAppend([(small, larges[0])], rest);
    }
  }

  lemma {:induction false} PairsFromAscend(layouts: map<nat, seq<Decl>>, smalls: seq<nat>, larges: seq<nat>)
    requires forall k :: k in smalls ==> k in layouts
    requires forall k :: k in larges ==> k in layouts
    requires Ascending(smalls) && Ascending(larges)
    ensures PairsAscend(PairsFrom(layouts, smalls, larges))
    ensures forall p :: p in PairsFrom(layouts, smalls, larges) ==> p.0 in smalls
  {
    if smalls != [] {
      var first, rest := PairsWith(layouts, smalls[0], larges), PairsFrom(layouts, smalls[1..], larges);
      PairsWithAscend(layouts, smalls[0], larges);
      PairsFromAscend(layouts, smalls[1..], larges);
      assert smalls == [smalls[0]] + smalls[1..];
      forall x, y | x in first && y in rest
        ensures PairBefore(x, y)
      {
        var i :| 0 <= i < |smalls[1..]| && smalls[1..][i] == y.0;
        assert smalls[i + 1] == y.0;
      }
      PairsAppend(first, rest);
    }
  }

  lemma {:induction false} HasPair(pairs: seq<(nat, nat)>)
    requires pairs != []
    ensures exists x: (nat, nat) :: x in pairs
  {
    assert pairs[0] in pairs;
  }

  lemma {:induction false} MembersDetermineOrder(p: seq<(nat, nat)>, q: seq<(nat, nat)>)
    requires PairsAscend(p) && PairsAscend(q)
    requires forall x: (nat, nat) :: x in p <==> x in q
    ensures p == q
  {
    if p == [] {
      if q != [] {
        HasPair(q);
      }
    } else {
      assert p[0] in q;
      var j :| 0 <= j < |q| && q[j] == p[0];
      assert q[0] in p;
      var i :| 0 <= i < |p| && p[i] == q[0];
      assert i == 0 && j == 0;
      forall x: (nat, nat)
        ensures x in p[1..] <==> x in q[1..]
      {
        assert p == [p[0]] + p[1..] && q == [q[0]] + q[1..];
        assert x in p <==> x in q;
        FirstIsOnce(p);
        FirstIsOnce(q);
      }
      MembersDetermineOrder(p[1..], q[1..]);
      assert p == [p[0]] + p[1..] && q == [q[0]] + q[1..];
    }
  }

  lemma {:induction false} FirstIsOnce(p: seq<(nat, nat)>)
    requires PairsAscend(p) && p != []
    ensures p[0] !in p[1..]
  {
    forall i | 0 <= i < |p[1..]|
      ensures p[1..][i] != p[0]
    {
      assert p[1..][i] == p[i + 1] && PairBefore(p[0], p[i + 1]);
    }
  }

  /** The committed pairs pass if and only if they ascend and are exactly the
      proper prefixes among the layouts seen. */
  lemma {:induction false} PrefixesAreCanonical(layouts: Dict<seq<Decl>>, prefixes: seq<(nat, nat)>)
    requires layouts.Valid()
    requires forall k :: k in layouts.items ==> |layouts.items[k]| == k
    ensures prefixes == DerivePrefixes(layouts) <==>
            && PairsAscend(prefixes)
            && forall a: nat, b: nat :: (a, b) in prefixes <==> IsPrefixPair(layouts.items, a, b)
  {
    var derived := DerivePrefixes(layouts);
    SortedKeysKnown(layouts);
    SortedAscends(layouts.order);
    PairsFromAscend(layouts.items, Sorted(layouts.order), Sorted(layouts.order));
    forall a: nat, b: nat
      ensures (a, b) in derived <==> IsPrefixPair(layouts.items, a, b)
    {
      DerivedPairs(layouts, a, b);
    }
    if PairsAscend(prefixes) && forall a: nat, b: nat :: (a, b) in prefixes <==> IsPrefixPair(layouts.items, a, b) {
      forall x: (nat, nat)
        ensures x in prefixes <==> x in derived
      {
        var (a, b) := x;
        assert (a, b) in prefixes <==> IsPrefixPair(layouts.items, a, b);
        assert (a, b) in derived <==> IsPrefixPair(layouts.items, a, b);
      }
      MembersDetermineOrder(prefixes, derived);
    }
  }

  predicate IsPrefixPair(layouts: map<nat, seq<Decl>>, a: nat, b: nat) {
    a in layouts && b in layouts && a < b && layouts[a] <= layouts[b]
  }
}
