/** src/chunk_writer.rs: claiming rows of a reused output chunk, and the scan
    loop its documentation prescribes. */
module ChunkWriter {
  import opened Wrappers

  const DEFAULT_STANDARD_VECTOR_SIZE: nat := 2048

  /** What the engine reports, unless that is a nonsensical zero. */
  function RuntimeVectorSize(reported: nat): (size: nat)
    ensures size >= 1 && (reported >= 1 ==> size == reported) && (reported == 0 ==> size == 2048)
  {
    if reported == 0 then DEFAULT_STANDARD_VECTOR_SIZE else reported
  }

  /** DuckDB's output chunk: one row buffer reused by every call, and the number
      of rows last published. What a call does not write keeps what an earlier
      call left there. */
  class Chunk<T> {
    const rows: array<T>
    var size: nat

    constructor (rows: array<T>)
      ensures this.rows == rows && size == 0
    {
      this.rows := rows;
      size := 0;
    }

    ghost function Published(): seq<T>
      requires size <= rows.Length
      reads this, rows
    {
      rows[..size]
    }
  }

  class Writer<T> {
    const chunk: Chunk<T>
    const capacity: nat
    var rowCount: nat

    ghost predicate Valid()
      reads this
    {
      rowCount <= capacity <= chunk.rows.Length
    }

    constructor (chunk: Chunk<T>, capacity: nat)
      requires capacity <= chunk.rows.Length
      ensures Valid() && this.chunk == chunk && this.capacity == capacity && rowCount == 0
    {
      this.chunk, this.capacity, rowCount := chunk, capacity, 0;
    }

    predicate IsFull()
      reads this
    {
      rowCount >= capacity
    }

    /** Claims the next row: the rows claimed are always `0..rowCount`. */
    method NextRow() returns (row: Option<nat>)
      requires Valid()
      modifies this
      ensures Valid()
      ensures old(IsFull()) ==> row == None && rowCount == old(rowCount)
      ensures !old(IsFull()) ==> row == Some(old(rowCount)) && rowCount == old(rowCount) + 1
    {
      if IsFull() {
        return None;
      }
      row := Some(rowCount);
      rowCount := rowCount + 1;
    }

    /** Gives back the row claimed last; any other row is a panic that changes
        nothing. */
    method ReleaseRow(row: nat) returns (panicked: bool)
      requires Valid()
      modifies this
      ensures Valid()
      ensures panicked <==> row + 1 != old(rowCount)
      ensures rowCount == if panicked then old(rowCount) else row
    {
      if row + 1 != rowCount {
        return true;
      }
      rowCount := row;
      panicked := false;
    }

    /** Publishes the rows claimed and not given back. */
    method Drop()
      requires Valid()
      modifies chunk
      ensures chunk.size == rowCount
    {
      chunk.size := rowCount;
    }
  }

  class Source<T> {
    var rest: seq<T>

    constructor (items: seq<T>)
      ensures rest == items
    {
      rest := items;
    }

    method Next() returns (item: Option<T>)
      modifies this
      ensures old(rest) == [] ==> item == None && rest == []
      ensures old(rest) != [] ==> item == Some(old(rest)[0]) && rest == old(rest)[1..]
    {
      if rest == [] {
        return None;
      }
      item := Some(rest[0]);
      rest := rest[1..];
    }
  }

  function Min(a: nat, b: nat): nat {
    if a <= b then a else b
  }

  /** The documented scan callback: claim a row, write it, or give it back when
      the source has run out. It publishes exactly the next items of the source
      and nothing stale, and takes exactly those out of it. */
  method Scan<T>(source: Source<T>, chunk: Chunk<T>, capacity: nat)
    requires capacity <= chunk.rows.Length
    modifies source, chunk, chunk.rows
    ensures chunk.size == Min(capacity, |old(source.rest)|)
    ensures chunk.Published() == old(source.rest)[..chunk.size]
    ensures source.rest == old(source.rest)[chunk.size..]
  {
    ghost var items := source.rest;
    var cw := new Writer(chunk, capacity);
    while true
      invariant cw.Valid() && cw.chunk == chunk && cw.capacity == capacity && fresh(cw)
      invariant cw.rowCount <= |items| && source.rest == items[cw.rowCount..]
      invariant chunk.rows[..cw.rowCount] == items[..cw.rowCount]
      decreases capacity - cw.rowCount
    {
      var row := cw.NextRow();
      if row.None? {
        break;
      }
      var item := source.Next();
      if item.None? {
        var panicked := cw.ReleaseRow(row.value);
        assert !panicked;
        break;
      }
      chunk.rows[row.value] := item.value;
      assert items[..cw.rowCount] == items[..row.value] + [item.value];
    }
    cw.Drop();
  }

  function AsSeq<T>(item: Option<T>): seq<T> {
    if item.Some? then [item.value] else []
  }

  /** The kept item first, then the source's. */
  method Pull<T>(source: Source<T>, kept: Option<T>) returns (item: Option<T>)
    modifies source
    ensures item.None? <==> AsSeq(kept) + old(source.rest) == []
    ensures AsSeq(item) + source.rest == AsSeq(kept) + old(source.rest)
  {
    if kept.Some? {
      return kept;
    }
    item := source.Next();
  }

  /** `rows` are written and `rest` is left of `items`. */
  ghost predicate Divided<T>(items: seq<T>, rows: seq<T>, rest: seq<T>) {
    items == rows + rest
  }

  lemma {:induction false} OneMoreRow<T>(items: seq<T>, rows: seq<T>, item: T, rest: seq<T>)
    requires Divided(items, rows, [item] + rest)
    ensures Divided(items, rows + [item], rest)
  {
  }

  /** The variant that asks the source first never claims a row it cannot fill,
      but the item that finds the chunk full is no longer in the source: it is
      kept, and the next call begins with it. */
  method ScanAskingFirst<T>(source: Source<T>, chunk: Chunk<T>, capacity: nat, kept: Option<T>) returns (keep: Option<T>)
    requires capacity <= chunk.rows.Length
    modifies source, chunk, chunk.rows
    ensures chunk.size == Min(capacity, |AsSeq(kept) + old(source.rest)|)
    ensures chunk.Published() + (AsSeq(keep) + source.rest) == AsSeq(kept) + old(source.rest)
  {
    ghost var items := AsSeq(kept) + source.rest;
    keep := kept;
    var cw := new Writer(chunk, capacity);
    while true
      invariant cw.Valid() && cw.chunk == chunk && cw.capacity == capacity && fresh(cw)
      invariant Divided(items, chunk.rows[..cw.rowCount], AsSeq(keep) + source.rest)
      decreases |AsSeq(keep) + source.rest|
    {
      var item := Pull(source, keep);
      keep := None;
      if item.None? {
        break;
      }
      var row := cw.NextRow();
      if row.None? {
        keep := item;
        break;
      }
      OneMoreRow(items, chunk.rows[..row.value], item.value, source.rest);
      chunk.rows[row.value] := item.value;
      assert chunk.rows[..cw.rowCount] == chunk.rows[..row.value] + [item.value];
    }
    cw.Drop();
  }

  function Concat<T>(chunks: seq<seq<T>>): seq<T> {
    if chunks == [] then [] else Concat(chunks[..|chunks| - 1]) + chunks[|chunks| - 1]
  }

  lemma {:induction false} ConcatSnoc<T>(chunks: seq<seq<T>>, chunk: seq<T>)
    ensures Concat(chunks + [chunk]) == Concat(chunks) + chunk
  {
    assert (chunks + [chunk])[..|chunks|] == chunks;
  }

  /** How many calls a source of `n` items takes, chunk by chunk. */
  function Calls(n: nat, c: nat): (k: nat)
    requires c >= 1
    ensures k >= 1
  {
    if n == 0 then 1 else 1 + Calls(n - Min(c, n), c)
  }

  /** That is `ceil(n / c) + 1`: one call less is the least number of chunks
      that hold `n` items. */
  lemma {:induction false} CallsIsCeiling(n: nat, c: nat)
    requires c >= 1
    ensures n <= (Calls(n, c) - 1) * c
    ensures n > 0 ==> Calls(n, c) >= 2 && n > (Calls(n, c) - 2) * c
  {
    if n > c {
      var k := Calls(n - c, c);
      CallsIsCeiling(n - c, c);
      assert (k - 1) * c == (k - 2) * c + c;
      assert k * c == (k - 1) * c + c;
    } else if n > 0 {
      assert Calls(0, c) == 1;
    }
  }

  /** Part of the way: `published` chunks are out, none empty, `rest` is left. */
  ghost predicate Scanned<T>(published: seq<seq<T>>, rest: seq<T>, items: seq<T>, capacity: nat)
    requires capacity >= 1
  {
    && Concat(published) + rest == items
    && |published| + Calls(|rest|, capacity) == Calls(|items|, capacity)
    && forall i :: 0 <= i < |published| ==> 1 <= |published[i]| <= capacity
  }

  /** One more call with items left: the scan goes on. */
  lemma {:induction false} ScannedNext<T>(published: seq<seq<T>>, rows: seq<T>, rest: seq<T>, items: seq<T>, capacity: nat)
    requires capacity >= 1 && Scanned(published, rows + rest, items, capacity)
    requires rows != [] && |rows| == Min(capacity, |rows| + |rest|)
    ensures Scanned(published + [rows], rest, items, capacity)
  {
    ConcatMore(published, rows, rest);
    CallsNext(|rows|, |rest|, capacity);
    assert |rows + rest| == |rows| + |rest|;
  }

  lemma {:induction false} ConcatMore<T>(chunks: seq<seq<T>>, chunk: seq<T>, rest: seq<T>)
    ensures Concat(chunks) + (chunk + rest) == Concat(chunks + [chunk]) + rest
  {
    ConcatSnoc(chunks, chunk);
  }

  lemma {:induction false} CallsNext(n: nat, rest: nat, c: nat)
    requires c >= 1 && n > 0 && n == Min(c, n + rest)
    ensures Calls(n + rest, c) == 1 + Calls(rest, c)
  {
    assert n + rest - Min(c, n + rest) == rest;
  }

  /** The last call, which publishes no row. */
  lemma {:induction false} ScannedLast<T>(published: seq<seq<T>>, items: seq<T>, capacity: nat)
    requires capacity >= 1 && Scanned(published, [], items, capacity)
    ensures Concat(published + [[]]) == items && |published| + 1 == Calls(|items|, capacity)
  {
    ConcatSnoc(published, []);
    assert Concat(published) + [] == Concat(published);
  }

  /** The whole scan: DuckDB calls until a chunk comes back empty. Over one
      reused chunk, whatever it held before, the published chunks put end to
      end are exactly the source, all but the last are non-empty, and the
      number of calls is the number of chunks plus one. */
  method ScanAll<T>(items: seq<T>, chunk: Chunk<T>, reported: nat) returns (published: seq<seq<T>>)
    requires RuntimeVectorSize(reported) <= chunk.rows.Length
    modifies chunk, chunk.rows
    ensures Concat(published) == items
    ensures |published| == Calls(|items|, RuntimeVectorSize(reported))
    ensures published != [] && published[|published| - 1] == []
    ensures forall i :: 0 <= i < |published| - 1 ==> 1 <= |published[i]| <= RuntimeVectorSize(reported)
  {
    var capacity := RuntimeVectorSize(reported);
    var source := new Source(items);
    published := [];
    assert Concat<T>([]) + items == items;
    while true
      invariant fresh(source) && Scanned(published, source.rest, items, capacity)
      decreases |source.rest|
    {
      ghost var rest := source.rest;
      Scan(source, chunk, capacity);
      var rows := chunk.rows[..chunk.size];
      assert rest == rows + source.rest;
      if rows == [] {
        ScannedLast(published, items, capacity);
      } else {
        ScannedNext(published, rows, source.rest, items, capacity);
      }
      published := published + [rows];
      if chunk.size == 0 {
        break;
      }
    }
  }

  /** The same whole scan with the other loop: as long as the kept item is
      handed on, no item is lost or published twice. */
  method ScanAllAskingFirst<T>(items: seq<T>, chunk: Chunk<T>, reported: nat) returns (published: seq<seq<T>>)
    requires RuntimeVectorSize(reported) <= chunk.rows.Length
    modifies chunk, chunk.rows
    ensures Concat(published) == items
    ensures |published| == Calls(|items|, RuntimeVectorSize(reported))
    ensures published != [] && published[|published| - 1] == []
    ensures forall i :: 0 <= i < |published| - 1 ==> 1 <= |published[i]| <= RuntimeVectorSize(reported)
  {
    var capacity := RuntimeVectorSize(reported);
    var source := new Source(items);
    var kept: Option<T> := None;
    published := [];
    assert Concat<T>([]) + items == items && AsSeq(kept) + source.rest == items;
    while true
      invariant fresh(source) && Scanned(published, AsSeq(kept) + source.rest, items, capacity)
      decreases |AsSeq(kept) + source.rest|
    {
      ghost var rest := AsSeq(kept) + source.rest;
      kept := ScanAskingFirst(source, chunk, capacity, kept);
      var rows := chunk.rows[..chunk.size];
      assert rest == rows + (AsSeq(kept) + source.rest);
      if rows == [] {
        assert rest == [];
        ScannedLast(published, items, capacity);
      } else {
        ScannedNext(published, rows, AsSeq(kept) + source.rest, items, capacity);
      }
      published := published + [rows];
      if chunk.size == 0 {
        break;
      }
    }
  }
}
