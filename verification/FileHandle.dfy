/** src/file_system.rs: `read_exact`, `read_to_end`, `write_all` and `seek` over
    a file system that may serve any part of a request. */
module FileHandle {
  import opened Wrappers

  newtype byte = x: int | 0 <= x < 256

  const CHUNK: nat := 64 * 1024
  const I64_MAX: nat := 0x7FFF_FFFF_FFFF_FFFF

  datatype IoError =
    | Engine  // DuckDB's own error data
    | UnexpectedEnd(wanted: nat, got: nat)
    | WriteStalled(wanted: nat, wrote: nat)
    | PositionTooLarge(position: nat)

  function Zeros(n: nat): (z: seq<byte>)
    ensures |z| == n
  {
    seq(n, _ => 0)
  }

  /** The rest of the file from a position, which may lie past its end. */
  function From(content: seq<byte>, position: nat): seq<byte> {
    if position <= |content| then content[position..] else []
  }

  function Max(a: nat, b: nat): nat {
    if a >= b then a else b
  }

  /** `bytes` written at `position`: a gap past the end is filled with zeros,
      and writing nothing changes nothing. */
  function Overwrite(content: seq<byte>, position: nat, bytes: seq<byte>): (after: seq<byte>)
    ensures |after| == if bytes == [] then |content| else Max(|content|, position + |bytes|)
  {
    seq(if bytes == [] then |content| else Max(|content|, position + |bytes|), i requires i >= 0 =>
      if position <= i < position + |bytes| then bytes[i - position]
      else if i < |content| then content[i]
      else 0)
  }

  lemma {:induction false} OverwriteTwice(content: seq<byte>, position: nat, a: seq<byte>, b: seq<byte>)
    ensures Overwrite(Overwrite(content, position, a), position + |a|, b) == Overwrite(content, position, a + b)
  {
  }

  /** The first `written` bytes are in the file. */
  predicate Written(before: seq<byte>, position: nat, bytes: seq<byte>, written: nat, after: seq<byte>) {
    written <= |bytes| && after == Overwrite(before, position, bytes[..written])
  }

  lemma {:induction false} NoneWritten(content: seq<byte>, position: nat, bytes: seq<byte>)
    ensures Written(content, position, bytes, 0, content)
  {
  }

  /** One more partial write continues the one before. */
  lemma {:induction false} MoreWritten(before: seq<byte>, position: nat, bytes: seq<byte>, written: nat, n: nat, mid: seq<byte>, after: seq<byte>)
    requires Written(before, position, bytes, written, mid) && written + n <= |bytes|
    requires after == Overwrite(mid, position + written, bytes[written..][..n])
    ensures Written(before, position, bytes, written + n, after)
  {
    OverwriteTwice(before, position, bytes[..written], bytes[written..][..n]);
    assert bytes[..written] + bytes[written..][..n] == bytes[..written + n];
  }

  lemma {:induction false} AllWritten(before: seq<byte>, position: nat, bytes: seq<byte>, after: seq<byte>)
    requires Written(before, position, bytes, |bytes|, after)
    ensures after == Overwrite(before, position, bytes)
  {
    assert bytes[..|bytes|] == bytes;
  }

  lemma {:induction false} OverwriteReadsBack(content: seq<byte>, position: nat, bytes: seq<byte>)
    ensures bytes != [] ==>
              && |Overwrite(content, position, bytes)| >= position + |bytes|
              && Overwrite(content, position, bytes)[position..position + |bytes|] == bytes
    ensures position <= |content| ==> Overwrite(content, position, bytes)[..position] == content[..position]
    ensures From(Overwrite(content, position, bytes), position + |bytes|) == From(content, position + |bytes|)
  {
    var after := Overwrite(content, position, bytes);
    if bytes != [] {
      assert after[position..position + |bytes|] == bytes;
      if position + |bytes| <= |content| {
        assert after[position + |bytes|..] == content[position + |bytes|..];
      }
    }
  }

  /** Some position: a failed call leaves the file wherever it likes. */
  method Anywhere() returns (position: nat)
  {
    position :| position >= 0;
  }

  /** A `Vec<u8>`, or the slice a caller lends out. */
  class Buffer {
    var data: seq<byte>

    constructor (data: seq<byte>)
      ensures this.data == data
    {
      this.data := data;
    }

    /** `resize(n, 0)` to a larger size. */
    method Resize(n: nat)
      requires n >= |data|
      modifies this
      ensures data == old(data) + Zeros(n - |old(data)|)
    {
      data := data + Zeros(n - |data|);
    }

    method Truncate(n: nat)
      requires n <= |data|
      modifies this
      ensures data == old(data)[..n]
    {
      data := data[..n];
    }
  }

  class Handle {
    var content: seq<byte>
    var position: nat
    /** Bytes that reads have reported reading, and writes writing. */
    ghost var moved: nat
    /** Calls of the file system that failed, and writes that took nothing of
        what they were given. */
    ghost var failures: nat
    ghost var stalls: nat

    constructor (content: seq<byte>)
      ensures this.content == content && position == 0
    {
      this.content, position, moved, failures, stalls := content, 0, 0, 0, 0;
    }

    /** `duckdb_file_handle_read` into the buffer from index `at` on. The file
        system serves any non-empty part of what it could, nothing only at the
        end of the file, and may leave anything at all in the part of the
        buffer it was lent and did not fill. */
    method Read(buf: Buffer, at: nat) returns (r: Result<nat, IoError>)
      requires at <= |buf.data|
      modifies this, buf
      ensures content == old(content)
      ensures |buf.data| == |old(buf.data)| && buf.data[..at] == old(buf.data)[..at]
      ensures r.Ok? ==>
                && r.value <= |buf.data| - at && r.value <= |From(content, old(position))|
                && buf.data[at..at + r.value] == From(content, old(position))[..r.value]
                && (r.value == 0 ==> at == |buf.data| || From(content, old(position)) == [])
                && position == old(position) + r.value && moved == old(moved) + r.value
      ensures r.Err? ==> r.error == Engine && moved == old(moved)
      ensures stalls == old(stalls) && failures == old(failures) + if r.Err? then 1 else 0
    {
      var room := |buf.data| - at;
      var rest := From(content, position);
      var most := if |rest| < room then |rest| else room;
      assert |Zeros(room)| == room;
      var junk: seq<byte> :| |junk| == room;
      if * {
        buf.data := buf.data[..at] + junk;
        position := Anywhere();
        failures := failures + 1;
        return Err(Engine);
      }
      var n: nat :| n <= most && (n == 0 ==> most == 0);
      buf.data := buf.data[..at] + rest[..n] + junk[n..];
      position := position + n;
      moved := moved + n;
      r := Ok(n);
    }

    /** `duckdb_file_handle_write`: any part of the bytes, or none. */
    method Write(bytes: seq<byte>) returns (r: Result<nat, IoError>)
      modifies this
      ensures r.Ok? ==>
                && r.value <= |bytes|
                && content == Overwrite(old(content), old(position), bytes[..r.value])
                && position == old(position) + r.value && moved == old(moved) + r.value
      ensures r.Err? ==> r.error == Engine && content == old(content) && moved == old(moved)
      ensures failures == old(failures) + if r.Err? then 1 else 0
      ensures stalls == old(stalls) + if r.Ok? && r.value == 0 && bytes != [] then 1 else 0
    {
      if * {
        position := Anywhere();
        failures := failures + 1;
        return Err(Engine);
      }
      var n: nat :| n <= |bytes|;
      content := Overwrite(content, position, bytes[..n]);
      position := position + n;
      moved := moved + n;
      stalls := stalls + if n == 0 && bytes != [] then 1 else 0;
      r := Ok(n);
    }

    /** Fills the buffer or fails: with the file system's error when a call
        failed, and otherwise if and only if the file is too short. */
    method ReadExact(buf: Buffer) returns (r: Result<(), IoError>)
      modifies this, buf
      ensures content == old(content) && |buf.data| == |old(buf.data)|
      ensures r.Ok? ==>
                && |From(content, old(position))| >= |buf.data|
                && buf.data == From(content, old(position))[..|buf.data|]
                && position == old(position) + |buf.data|
      ensures r.Err? && r.error.UnexpectedEnd? ==>
                && r.error.wanted == |buf.data| > r.error.got == |From(content, old(position))|
                && buf.data[..r.error.got] == From(content, old(position))
      ensures r.Err? && !r.error.UnexpectedEnd? ==> r.error == Engine
      ensures failures == old(failures) + if r == Err(Engine) then 1 else 0
      ensures failures == old(failures) ==> (r.Ok? <==> |From(content, old(position))| >= |buf.data|)
      ensures r.Err? ==>
                var got := moved - old(moved);
                0 <= got <= |buf.data| && got <= |From(content, old(position))|
                && buf.data[..got] == From(content, old(position))[..got]
    {
      var filled := 0;
      ghost var rest := From(content, position);
      while filled < |buf.data|
        invariant filled <= |buf.data| == |old(buf.data)|
        invariant content == old(content) && filled <= |rest|
        invariant position == old(position) + filled && moved == old(moved) + filled
        invariant buf.data[..filled] == rest[..filled]
        invariant failures == old(failures)
      {
        assert From(content, position) == rest[filled..];
        var read := Read(buf, filled);
        if read.Err? {
          return Err(read.error);
        }
        if read.value == 0 {
          return Err(UnexpectedEnd(|buf.data|, filled));
        }
        assert buf.data[..filled + read.value] == buf.data[..filled] + buf.data[filled..filled + read.value];
        filled := filled + read.value;
      }
      assert buf.data == buf.data[..filled];
      r := Ok(());
    }

    /** Keeps what the buffer held and appends the rest of the file, unless a
        call fails; then it has appended exactly the bytes read until then. */
    method ReadToEnd(buf: Buffer) returns (r: Result<nat, IoError>)
      modifies this, buf
      ensures content == old(content)
      ensures r.Ok? ==>
                && buf.data == old(buf.data) + From(content, old(position))
                && r.value == |From(content, old(position))| == moved - old(moved)
                && position == old(position) + r.value
      ensures r.Err? ==>
                var got := moved - old(moved);
                0 <= got <= |From(content, old(position))|
                && buf.data == old(buf.data) + From(content, old(position))[..got]
      ensures r.Err? ==> r.error == Engine
      ensures failures == old(failures) + if r.Err? then 1 else 0
    {
      var start := |buf.data|;
      ghost var rest := From(content, position);
      while true
        invariant content == old(content) && position >= old(position) && failures == old(failures)
        invariant position == old(position) + (moved - old(moved))
        invariant position - old(position) <= |rest|
        invariant buf.data == old(buf.data) + rest[..position - old(position)]
        decreases |rest| - (position - old(position))
      {
        var filled := |buf.data|;
        ghost var got := position - old(position);
        assert From(content, position) == rest[got..];
        buf.Resize(filled + CHUNK);
        var read := Read(buf, filled);
        if read.Err? {
          buf.Truncate(filled);
          return Err(read.error);
        }
        assert buf.data[..filled + read.value] == buf.data[..filled] + buf.data[filled..filled + read.value];
        buf.Truncate(filled + read.value);
        assert rest[..got] + rest[got..][..read.value] == rest[..got + read.value];
        if read.value == 0 {
          assert rest[..got] == rest;
          return Ok(|buf.data| - start);
        }
      }
    }

    /** Writes everything, unless a call fails or takes nothing; what was
        accepted before that is exactly a prefix. */
    method WriteAll(bytes: seq<byte>) returns (r: Result<(), IoError>)
      modifies this
      ensures r.Ok? ==>
                content == Overwrite(old(content), old(position), bytes) && position == old(position) + |bytes|
      ensures r.Err? ==>
                var wrote := moved - old(moved);
                && 0 <= wrote < |bytes|
                && content == Overwrite(old(content), old(position), bytes[..wrote])
                && (r.error == Engine || r.error == WriteStalled(|bytes|, wrote))
      ensures failures == old(failures) + if r == Err(Engine) then 1 else 0
      ensures stalls == old(stalls) + if r.Err? && r.error.WriteStalled? then 1 else 0
    {
      var written := 0;
      NoneWritten(content, position, bytes);
      while written < |bytes|
        invariant written <= |bytes|
        invariant position == old(position) + written && moved == old(moved) + written
        invariant Written(old(content), old(position), bytes, written, content)
        invariant failures == old(failures) && stalls == old(stalls)
      {
        ghost var mid := content;
        var n := Write(bytes[written..]);
        if n.Err? {
          return Err(n.error);
        }
        MoreWritten(old(content), old(position), bytes, written, n.value, mid, content);
        if n.value == 0 {
          return Err(WriteStalled(|bytes|, written));
        }
        written := written + n.value;
      }
      AllWritten(old(content), old(position), bytes, content);
      r := Ok(());
    }

    /** A position `i64` cannot hold is refused before DuckDB is called. */
    method Seek(target: nat) returns (r: Result<(), IoError>)
      modifies this`position, this`failures
      ensures r.Ok? ==> target <= I64_MAX && position == target
      ensures r.Err? ==> r.error == Engine || r.error == PositionTooLarge(target)
      ensures r == Err(PositionTooLarge(target)) <==> target > 9_223_372_036_854_775_807
      ensures target > I64_MAX ==> position == old(position)
      ensures failures == old(failures) + if r == Err(Engine) then 1 else 0
    {
      if target > I64_MAX {
        return Err(PositionTooLarge(target));
      }
      if * {
        position := Anywhere();
        failures := failures + 1;
        return Err(Engine);
      }
      position := target;
      r := Ok(());
    }
  }

  /** Write, seek back, read: whatever the file system serves at a time, the
      bytes read are the bytes written, and the rest of the file is as before. */
  method WriteSeekRead(h: Handle, at: nat, bytes: seq<byte>) returns (r: Result<seq<byte>, IoError>)
    modifies h
    ensures r.Ok? ==>
              && r.value == bytes
              && h.content == Overwrite(old(h.content), at, bytes)
              && From(h.content, at + |bytes|) == From(old(h.content), at + |bytes|)
              && (at <= |old(h.content)| ==> |h.content| >= at && h.content[..at] == old(h.content)[..at])
    ensures r.Err? ==> r.error == Engine || r.error == PositionTooLarge(at) || r.error.WriteStalled?
    ensures h.failures == old(h.failures) && h.stalls == old(h.stalls) ==> (r.Ok? <==> at <= I64_MAX)
  {
    var seek := h.Seek(at);
    if seek.Err? {
      return Err(seek.error);
    }
    var write := h.WriteAll(bytes);
    if write.Err? {
      return Err(write.error);
    }
    OverwriteReadsBack(old(h.content), at, bytes);
    seek := h.Seek(at);
    if seek.Err? {
      return Err(seek.error);
    }
    var buf := new Buffer(Zeros(|bytes|));
    var read := h.ReadExact(buf);
    if read.Err? {
      return Err(read.error);
    }
    r := Ok(buf.data);
  }
}
