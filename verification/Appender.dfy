/** src/appender.rs and src/appender/{rows,lifecycle,chunk,construct}.rs: the
    wrapper's row tracking, run against DuckDB's own buffering appender. */
module Appender {
  const U64_MAX: nat := 0xFFFF_FFFF_FFFF_FFFF

  function SaturatingAdd(a: nat, b: nat): nat {
    if a + b <= U64_MAX then a + b else U64_MAX
  }

  /** Counters stop at the last `u64`. */
  lemma {:induction false} SaturatesAtU64(a: nat, b: nat)
    ensures SaturatingAdd(a, b) == if a + b < 18_446_744_073_709_551_616 then a + b else 18_446_744_073_709_551_615
  {
  }

  datatype Lifecycle = Open | Poisoned | Closed

  /** A row, by the order in which DuckDB was given it. */
  type Row = nat

  /** What DuckDB's automatic flush does when a row or chunk has gone in:
      nothing, write everything buffered, or fail. */
  datatype Auto = Quiet | Writes | Fails

  predicate Within(r: Row, from: Row, n: nat) {
    from <= r < from + n
  }

  /** `n` rows from `from` on. */
  function Block(from: Row, n: nat): set<Row> {
    set r: Row | r < from + n && Within(r, from, n)
  }

  lemma {:induction false} BlockSize(from: Row, n: nat)
    ensures |Block(from, n)| == n
  {
    if n > 0 {
      BlockSize(from, n - 1);
      assert Block(from, n) == Block(from, n - 1) + {from + n - 1};
    }
  }

  /** How a change of the active columns goes in DuckDB. */
  datatype Reshaping = Changes | FlushFails | NoSuchColumn(flushed: bool)

  // ---- DuckDB's appender, as the module documentation describes it

  /** `keeps`: a failed flush leaves its rows buffered (up to 1.5.x) instead of
      discarding them (from 2.0.0). `lost` holds the rows so discarded. */
  datatype Duck = Duck(keeps: bool, columns: nat, column: nat, next: Row,
                       held: set<Row>, table: set<Row>, lost: set<Row>)
  {
    function Written(): Duck {
      this.(table := table + held, held := {})
    }

    function FlushFailed(): Duck {
      if keeps then this else this.(lost := lost + held, held := {})
    }

    function Buffer(rows: nat): Duck {
      this.(held := held + Block(next, rows), next := next + rows)
    }

    function AutoFlush(auto: Auto): (Duck, bool) {
      match auto
      case Quiet => (this, true)
      case Writes => (Written(), true)
      case Fails => (FlushFailed(), false)
    }

    /** A value: refused without moving the column, or counted. */
    function Append(accepts: bool): (Duck, bool) {
      if accepts && column < columns then (this.(column := column + 1), true) else (this, false)
    }

    /** Throws first if a column is missing; otherwise the row has ended
        before the automatic flush can fail. */
    function EndRow(auto: Auto): (Duck, bool) {
      if column != columns then (this, false)
      else this.(column := 0).Buffer(1).AutoFlush(auto)
    }

    function Flush(succeeds: bool): (Duck, bool) {
      if column != 0 then (this, false)
      else if succeeds then (Written(), true)
      else (FlushFailed(), false)
    }

    /** Flushes with no row or a whole row open; with part of a row it reports
        success and writes nothing. */
    function Close(succeeds: bool): (Duck, bool) {
      if column == 0 || column == columns then Flush(succeeds) else (this, true)
    }

    function Clear(succeeds: bool): (Duck, bool) {
      if succeeds then (this.(column := 0, held := {}), true) else (this, false)
    }

    /** A chunk of the wrong types is refused whole; otherwise its rows are
        buffered before the automatic flush can fail, as it must with part of
        a row open. */
    function AppendChunk(rows: nat, fits: bool, auto: Auto): (Duck, bool) {
      if !fits then (this, false)
      else if auto != Quiet && column != 0 then (Buffer(rows), false)
      else Buffer(rows).AutoFlush(auto)
    }

    /** Changing the active columns flushes what is buffered; a column that does
        not exist is an error before or after that. */
    function Reshape(count: nat, outcome: Reshaping): (Duck, bool) {
      match outcome
      case Changes =>
        var (d, ok) := Flush(true);
        if ok then (d.(columns := count), true) else (d, false)
      case FlushFails => (Flush(false).0, false)
      case NoSuchColumn(flushed) => (if flushed then Flush(true).0 else this, false)
    }

    /** `duckdb_appender_destroy`: closes, whatever comes of it, and frees
        what is still buffered. */
    function Destroyed(succeeds: bool): Duck {
      var (d, _) := Close(succeeds);
      d.(lost := d.lost + d.held, held := {})
    }

    predicate Valid() {
      column <= columns <= U64_MAX
    }
  }

  // ---- The wrapper, with the ledger its promise is about

  /** `acked`: rows whose append was reported a success. `cleared`: rows
      deliberately discarded. `errors`: calls that returned an error or
      unwound. `reported`: rows that were lost, or beyond saving, when an
      error was last returned. */
  datatype Sys = Sys(column: nat, buffered: nat, lifecycle: Lifecycle, duck: Duck,
                     acked: set<Row>, cleared: set<Row>, errors: nat, reported: set<Row>)

  function Fresh(keeps: bool, columns: nat): Sys {
    Sys(0, 0, Open, Duck(keeps, columns, 0, 0, {}, {}, {}), {}, {}, 0, {})
  }

  /** How a closure handed to `row` ends. */
  datatype Ending = Returns | ReturnsError | Unwinds

  /** One call, with everything DuckDB and the closure decide in it. The
      closure of `row` may itself make any calls. */
  datatype Call =
    | Append(accepts: bool)
    | RefusedAppend  // out of range, too long, or null: refused before DuckDB is called
    | EndRow(auto: Auto)
    | RowOf(body: seq<Call>, ending: Ending, auto: Auto)
    | Flush(succeeds: bool)
    | Close(succeeds: bool)
    | Clear(succeeds: bool)
    | AppendChunk(rows: nat, fits: bool, auto: Auto)
    | Reshape(columns: nat, outcome: Reshaping)

  /** The caller learns of a failure. */
  function Failed(s: Sys): Sys {
    s.(errors := s.errors + 1, reported := s.duck.lost + if s.lifecycle == Poisoned then s.duck.held else {})
  }

  function Report(s: Sys, ok: bool): (Sys, bool) {
    if ok then (s, true) else (Failed(s), false)
  }

  function DoAppend(s: Sys, accepts: bool): (Sys, bool) {
    if s.lifecycle != Open then Report(s, false)
    else
      var (d, ok) := s.duck.Append(accepts);
      Report(s.(duck := d, column := if ok then SaturatingAdd(s.column, 1) else s.column), ok)
  }

  function DoEndRow(s: Sys, auto: Auto): (Sys, bool) {
    if s.lifecycle != Open then Report(s, false)
    else
      var (d, ok) := s.duck.EndRow(auto);
      var ended := ok || s.column == d.columns;
      Report(s.(duck := d,
                column := if ended then 0 else s.column,
                buffered := if ended then SaturatingAdd(s.buffered, 1) else s.buffered,
                acked := if ok then s.acked + {s.duck.next} else s.acked), ok)
  }

  function DoFlush(s: Sys, succeeds: bool): (Sys, bool) {
    if s.lifecycle != Open then Report(s, false)
    else
      var (d, ok) := s.duck.Flush(succeeds);
      Report(s.(duck := d, buffered := if ok then 0 else s.buffered), ok)
  }

  function DoClose(s: Sys, succeeds: bool): (Sys, bool) {
    if s.lifecycle == Closed then (s, true)
    else if s.lifecycle == Poisoned || s.column != 0 then Report(s, false)
    else
      var (d, ok) := s.duck.Close(succeeds);
      Report(s.(duck := d, buffered := if ok then 0 else s.buffered, lifecycle := if ok then Closed else Open), ok)
  }

  function DoClear(s: Sys, succeeds: bool): (Sys, bool) {
    var (d, ok) := s.duck.Clear(succeeds);
    if !ok then Report(s.(duck := d), false)
    else
      (s.(duck := d, column := 0, buffered := 0, cleared := s.cleared + s.duck.held,
          lifecycle := if s.lifecycle == Poisoned then Open else s.lifecycle), true)
  }

  function DoAppendChunk(s: Sys, rows: nat, fits: bool, auto: Auto): (Sys, bool) {
    if s.lifecycle != Open || s.column != 0 then Report(s, false)
    else
      var (d, ok) := s.duck.AppendChunk(rows, fits, auto);
      Report(s.(duck := d,
                buffered := if ok then SaturatingAdd(s.buffered, rows) else s.buffered,
                acked := if ok then s.acked + Block(s.duck.next, rows) else s.acked), ok)
  }

  function DoReshape(s: Sys, columns: nat, outcome: Reshaping): (Sys, bool) {
    if s.lifecycle != Open then Report(s, false)
    else
      var (d, ok) := s.duck.Reshape(columns, outcome);
      Report(s.(duck := d, buffered := if ok then 0 else s.buffered), ok)
  }

  /** `row`, once its closure has ended in state `s`. */
  function AfterClosure(s: Sys, ending: Ending, auto: Auto): (Sys, bool) {
    var (ended, ok) := if ending == Returns then DoEndRow(s, auto) else (s, false);
    Report(if !ok && ended.column != 0 then ended.(lifecycle := Poisoned) else ended, ok)
  }

  function Run(s: Sys, c: Call): (Sys, bool)
    decreases c, 1
  {
    match c
    case Append(accepts) => DoAppend(s, accepts)
    case RefusedAppend => Report(s, false)
    case EndRow(auto) => DoEndRow(s, auto)
    case RowOf(body, ending, auto) =>
      if s.lifecycle != Open || s.column != 0 then Report(s, false)
      else AfterClosure(RunAll(s, body), ending, auto)
    case Flush(succeeds) => DoFlush(s, succeeds)
    case Close(succeeds) => DoClose(s, succeeds)
    case Clear(succeeds) => DoClear(s, succeeds)
    case AppendChunk(rows, fits, auto) => DoAppendChunk(s, rows, fits, auto)
    case Reshape(columns, outcome) => DoReshape(s, columns, outcome)
  }

  function RunAll(s: Sys, calls: seq<Call>): Sys
    decreases calls, 0
  {
    if calls == [] then s else RunAll(Run(s, calls[0]).0, calls[1..])
  }

  // ---- The wrapper as it is written

  class Handle {
    var column: nat
    var buffered: nat
    var lifecycle: Lifecycle
    var duck: Duck  // the engine's side
    ghost var acked: set<Row>
    ghost var cleared: set<Row>
    ghost var errors: nat
    ghost var reported: set<Row>

    ghost function View(): Sys
      reads this
    {
      Sys(column, buffered, lifecycle, duck, acked, cleared, errors, reported)
    }

    /** The ledger is in order: see `Inv`. */
    ghost predicate Valid()
      reads this
    {
      Inv(View())
    }

    constructor Wrap(keeps: bool, columns: nat)
      requires columns <= U64_MAX
      ensures Valid() && View() == Fresh(keeps, columns)
    {
      column, buffered, lifecycle := 0, 0, Open;
      duck := Duck(keeps, columns, 0, 0, {}, {}, {});
      acked, cleared, errors, reported := {}, {}, 0, {};
    }

    /** Every path that returns an error ends here. */
    method Error() returns (ok: bool)
      modifies this
      ensures !ok && View() == Failed(old(View()))
    {
      errors := errors + 1;
      reported := duck.lost + if lifecycle == Poisoned then duck.held else {};
      ok := false;
    }

    /** One value. A refused one moves nothing, so it can be tried again. */
    method AppendOne(accepts: bool) returns (ok: bool)
      requires Valid()
      modifies this
      ensures Valid()
      ensures ok <==> old(lifecycle) == Open && accepts && old(column) < duck.columns
      ensures ok ==> column == old(column) + 1 && errors == old(errors)
      ensures !ok ==> duck == old(duck) && column == old(column) && errors > old(errors)
      ensures buffered == old(buffered) && acked == old(acked) && lifecycle == old(lifecycle)
      ensures (View(), ok) == DoAppend(old(View()), accepts)
    {
      if lifecycle != Open {
        ok := Error();
        return;
      }
      var (d, accepted) := duck.Append(accepts);
      duck := d;
      if !accepted {
        ok := Error();
        return;
      }
      column := SaturatingAdd(column, 1);
      ok := true;
    }

    /** A row reported appended is in the table or buffered. If DuckDB ended
        the row and then failed to flush, the wrapper knows that it ended. */
    method EndRow(auto: Auto) returns (ok: bool)
      requires Valid()
      modifies this
      ensures Valid() && lifecycle == old(lifecycle) && cleared == old(cleared)
      ensures ok <==> old(lifecycle) == Open && old(column) == duck.columns && auto != Fails
      ensures ok ==> acked == old(acked) + {old(duck).next} && column == 0
                     && (old(duck).next in duck.table || old(duck).next in duck.held)
      ensures !ok ==> acked == old(acked) && errors > old(errors)
      ensures duck.next == if old(lifecycle) == Open && old(column) == duck.columns then old(duck).next + 1 else old(duck).next
      ensures if duck.next == old(duck).next then column == old(column) && buffered == old(buffered)
              else column == 0 && buffered == SaturatingAdd(old(buffered), 1)
      ensures (View(), ok) == DoEndRow(old(View()), auto)
    {
      EndRowInv(View(), auto);
      if lifecycle != Open {
        ok := Error();
        return;
      }
      ghost var row := duck.next;
      var (d, done) := duck.EndRow(auto);
      duck := d;
      if done || column == duck.columns {
        column := 0;
        buffered := SaturatingAdd(buffered, 1);
      }
      if !done {
        ok := Error();
        return;
      }
      acked := acked + {row};
      ok := true;
    }

    /** A row is ended only after a closure that returned: any other ending is
        the caller's error, nothing happens beyond the closure's own calls, and
        the appender is poisoned if and only if a value of the row is in. The
        rows a poisoned one holds have been reported. */
    method Row(body: seq<Call>, ending: Ending, auto: Auto) returns (ok: bool)
      requires Valid() && AllSane(body)
      modifies this
      ensures Valid()
      ensures old(lifecycle) != Open || old(column) != 0 ==> !ok && View() == Failed(old(View()))
      ensures old(lifecycle) == Open && old(column) == 0 ==> RowOutcome(RunAll(old(View()), body), ending, auto, View(), ok)
      ensures ok ==> ending == Returns && lifecycle == Open && column == 0 && errors >= old(errors)
      ensures !ok ==> errors > old(errors) && (lifecycle == Poisoned ==> duck.held <= reported)
      ensures (View(), ok) == Run(old(View()), RowOf(body, ending, auto))
      decreases RowOf(body, ending, auto), 0
    {
      if lifecycle != Open || column != 0 {
        ok := Error();
        return;
      }
      CallAll(body);
      AfterClosureOutcome(View(), ending, auto);
      ok := FinishRow(ending, auto);
    }

    /** What follows the closure. */
    method FinishRow(ending: Ending, auto: Auto) returns (ok: bool)
      requires Valid()
      modifies this
      ensures Valid() && errors >= old(errors)
      ensures !ok ==> errors > old(errors)
      ensures (View(), ok) == AfterClosure(old(View()), ending, auto)
    {
      ok := false;
      if ending == Returns {
        ok := EndRow(auto);
      }
      if !ok && column != 0 {
        lifecycle := Poisoned;
      }
      if !ok {
        ok := Error();
      }
    }

    /** Success empties the buffer into the table; after a failure each row is
        still buffered or reported lost. */
    method FlushRows(succeeds: bool) returns (ok: bool)
      requires Valid()
      modifies this
      ensures Valid() && acked == old(acked) && cleared == old(cleared) && lifecycle == old(lifecycle)
      ensures ok <==> old(lifecycle) == Open && old(column) == 0 && succeeds
      ensures ok ==> duck.held == {} && duck.table == old(duck).table + old(duck).held && buffered == 0
      ensures !ok ==> old(duck).held <= duck.held + reported && buffered == old(buffered) && errors > old(errors)
      ensures (View(), ok) == DoFlush(old(View()), succeeds)
    {
      if lifecycle != Open {
        ok := Error();
        return;
      }
      var (d, done) := duck.Flush(succeeds);
      duck := d;
      ok := Flushed(done);
    }

    method Flushed(done: bool) returns (ok: bool)
      modifies this
      ensures ok == done
      ensures View() == if done then old(View()).(buffered := 0) else Failed(old(View()))
    {
      if !done {
        ok := Error();
        return;
      }
      buffered := 0;
      ok := true;
    }

    /** Success means that nothing is left to write: DuckDB's own success with
        part of a row open never gets through. */
    method Close(succeeds: bool) returns (ok: bool)
      requires Valid()
      modifies this
      ensures Valid() && acked == old(acked) && cleared == old(cleared)
      ensures ok <==> old(lifecycle) == Closed || (old(lifecycle) == Open && old(column) == 0 && succeeds)
      ensures ok ==> lifecycle == Closed && duck.held == {} && old(duck).held <= duck.table && column == 0
      ensures !ok ==> lifecycle == old(lifecycle) && old(duck).held <= duck.held + reported && errors > old(errors)
      ensures (View(), ok) == DoClose(old(View()), succeeds)
    {
      match lifecycle
      case Closed =>
        return true;
      case Poisoned =>
        ok := Error();
        return;
      case Open =>
        if column != 0 {
          ok := Error();
          return;
        }
      var (d, done) := duck.Close(succeeds);
      duck := d;
      ok := Flushed(done);
      if ok {
        lifecycle := Closed;
      }
    }

    /** Discards what is buffered and nothing else; the only way out of being
        poisoned, and not out of being closed. */
    method Clear(succeeds: bool) returns (ok: bool)
      requires Valid()
      modifies this
      ensures Valid() && acked == old(acked)
      ensures ok <==> succeeds
      ensures ok ==> duck.held == {} && duck.table == old(duck).table && cleared == old(cleared) + old(duck).held
                     && column == 0 && buffered == 0
                     && lifecycle == (if old(lifecycle) == Closed then Closed else Open)
      ensures !ok ==> duck == old(duck) && lifecycle == old(lifecycle) && errors > old(errors)
      ensures (View(), ok) == DoClear(old(View()), succeeds)
    {
      ghost var held := duck.held;
      var (d, done) := duck.Clear(succeeds);
      duck := d;
      if !done {
        ok := Error();
        return;
      }
      column := 0;
      buffered := 0;
      cleared := cleared + held;
      if lifecycle == Poisoned {
        lifecycle := Open;
      }
      ok := true;
    }

    /** All of a chunk's rows or, as far as anyone is told, none. */
    method AppendChunk(rows: nat, fits: bool, auto: Auto) returns (ok: bool)
      requires Valid()
      modifies this
      ensures Valid() && cleared == old(cleared) && lifecycle == old(lifecycle) && column == old(column)
      ensures ok <==> old(lifecycle) == Open && old(column) == 0 && fits && auto != Fails
      ensures ok ==> acked == old(acked) + Block(old(duck).next, rows)
                     && Block(old(duck).next, rows) <= duck.table + duck.held
                     && buffered == SaturatingAdd(old(buffered), rows)
      ensures !ok ==> acked == old(acked) && buffered == old(buffered) && errors > old(errors)
      ensures (View(), ok) == DoAppendChunk(old(View()), rows, fits, auto)
    {
      if lifecycle != Open || column != 0 {
        ok := Error();
        return;
      }
      ghost var first := duck.next;
      var (d, done) := duck.AppendChunk(rows, fits, auto);
      duck := d;
      if !done {
        ok := Error();
        return;
      }
      buffered := SaturatingAdd(buffered, rows);
      acked := acked + Block(first, rows);
      ok := true;
    }

    /** A change of the active columns never mixes rows of two widths. */
    method Reshape(columns: nat, outcome: Reshaping) returns (ok: bool)
      requires Valid() && columns <= U64_MAX
      modifies this
      ensures Valid() && acked == old(acked) && cleared == old(cleared) && lifecycle == old(lifecycle)
      ensures ok <==> old(lifecycle) == Open && old(column) == 0 && outcome == Changes
      ensures ok ==> duck.columns == columns && duck.held == {} && old(duck).held <= duck.table && buffered == 0
      ensures !ok ==> duck.columns == old(duck).columns && buffered == old(buffered) && errors > old(errors)
                      && old(duck).held <= duck.held + duck.table + reported
      ensures (View(), ok) == DoReshape(old(View()), columns, outcome)
    {
      if lifecycle != Open {
        ok := Error();
        return;
      }
      var (d, done) := duck.Reshape(columns, outcome);
      duck := d;
      ok := Flushed(done);
    }

    method Call(c: Call) returns (ok: bool)
      requires Valid() && Sane(c)
      modifies this
      ensures Valid() && errors >= old(errors)
      ensures !ok ==> errors > old(errors)
      ensures (View(), ok) == Run(old(View()), c)
      decreases c, 1
    {
      match c
      case Append(accepts) => ok := AppendOne(accepts);
      case RefusedAppend => ok := Error();
      case EndRow(auto) => ok := EndRow(auto);
      case RowOf(body, ending, auto) => ok := Row(body, ending, auto);
      case Flush(succeeds) => ok := FlushRows(succeeds);
      case Close(succeeds) => ok := Close(succeeds);
      case Clear(succeeds) => ok := Clear(succeeds);
      case AppendChunk(rows, fits, auto) => ok := AppendChunk(rows, fits, auto);
      case Reshape(columns, outcome) => ok := Reshape(columns, outcome);
    }

    method CallAll(calls: seq<Call>)
      requires Valid() && AllSane(calls)
      modifies this
      ensures Valid() && errors >= old(errors)
      ensures View() == RunAll(old(View()), calls)
      decreases calls, 0
    {
      if calls != [] {
        var _ := Call(calls[0]);
        CallAll(calls[1..]);
      }
    }
  }

  /** The promise of the module documentation, on the wrapper itself: after any
      calls on a new appender, a row reported appended is in the table, still
      buffered, deliberately cleared, or lost and reported. With no error at
      all, the rows given to DuckDB are those, and none is lost. */
  method UseAppender(keeps: bool, columns: nat, calls: seq<Call>) returns (h: Handle)
    requires columns <= U64_MAX && AllSane(calls)
    ensures fresh(h) && h.View() == RunAll(Fresh(keeps, columns), calls)
    ensures h.acked <= h.duck.table + h.duck.held + h.cleared + (h.duck.lost * h.reported)
    ensures h.lifecycle == Poisoned ==> h.duck.held <= h.reported
    ensures h.lifecycle == Closed ==> h.acked <= h.duck.table + h.cleared + h.reported
    ensures h.errors == 0 ==> h.duck.lost == {} && h.acked == Block(0, h.duck.next)
    ensures h.column == h.duck.column
  {
    h := new Handle.Wrap(keeps, columns);
    h.CallAll(calls);
  }

  // ---- What every run keeps

  /** Every row DuckDB was ever given is in exactly one place. */
  ghost predicate OnePlace(d: Duck, cleared: set<Row>) {
    && (forall r: Row :: r < d.next <==> r in d.table || r in d.held || r in d.lost || r in cleared)
    && d.table !! d.held && d.table !! d.lost && d.table !! cleared
    && d.held !! d.lost && d.held !! cleared && d.lost !! cleared
  }

  ghost predicate Inv(s: Sys) {
    && s.duck.Valid() && s.column == s.duck.column && s.buffered <= U64_MAX
    && OnePlace(s.duck, s.cleared)
    && (forall r :: r in s.acked ==> r < s.duck.next)
    && s.duck.lost <= s.reported
    && (s.lifecycle == Poisoned ==> s.duck.held <= s.reported && s.column != 0 && s.errors > 0)
    && (s.lifecycle == Closed ==> s.duck.held == {} && s.column == 0)
    && (s.errors == 0 ==> s.duck.lost == {} && s.acked == Block(0, s.duck.next))
  }

  /** Column counts are `u64`s. */
  ghost predicate Sane(c: Call)
    decreases c, 1
  {
    match c
    case Reshape(columns, _) => columns <= U64_MAX
    case RowOf(body, _, _) => AllSane(body)
    case _ => true
  }

  ghost predicate AllSane(calls: seq<Call>)
    decreases calls, 0
  {
    calls == [] || (Sane(calls[0]) && AllSane(calls[1..]))
  }

  lemma {:induction false} EndRowInv(s: Sys, auto: Auto)
    requires Inv(s)
    ensures Inv(DoEndRow(s, auto).0)
    ensures DoEndRow(s, auto).0.lifecycle == s.lifecycle
  {
  }

  lemma {:induction false} ChunkInv(s: Sys, rows: nat, fits: bool, auto: Auto)
    requires Inv(s)
    ensures Inv(DoAppendChunk(s, rows, fits, auto).0)
  {
  }

  lemma {:induction false} AfterClosureInv(s: Sys, ending: Ending, auto: Auto)
    requires Inv(s)
    ensures Inv(AfterClosure(s, ending, auto).0)
  {
    if ending == Returns {
      EndRowInv(s, auto);
    }
  }

  /** What `row` may do once its closure has left the state `s`. */
  ghost predicate RowOutcome(s: Sys, ending: Ending, auto: Auto, after: Sys, ok: bool) {
    && (ok <==> ending == Returns && s.lifecycle == Open && s.column == s.duck.columns && auto != Fails)
    && after.cleared == s.cleared
    && after.acked == (if ok then s.acked + {s.duck.next} else s.acked)
    && (after.column == 0 || after.lifecycle == Poisoned)
    && (ending != Returns ==>
          && after.duck == s.duck && after.buffered == s.buffered && after.column == s.column
          && (after.lifecycle == Poisoned <==> s.column != 0)
          && (s.column == 0 ==> after.lifecycle == s.lifecycle))
    && (ending == Returns && s.lifecycle == Open && s.column == s.duck.columns ==>
          after.duck.next == s.duck.next + 1 && after.column == 0 && after.lifecycle == Open)
    && (ending == Returns && s.lifecycle == Open && s.column != s.duck.columns ==>
          after.duck == s.duck && after.column == s.column && (after.lifecycle == Poisoned <==> s.column != 0))
  }

  lemma {:induction false} AfterClosureOutcome(s: Sys, ending: Ending, auto: Auto)
    requires Inv(s)
    ensures var (after, ok) := AfterClosure(s, ending, auto);
            RowOutcome(s, ending, auto, after, ok)
  {
  }

  lemma {:induction false} FlushInv(s: Sys, succeeds: bool)
    requires Inv(s)
    ensures Inv(DoFlush(s, succeeds).0)
  {
  }

  lemma {:induction false} CloseInv(s: Sys, succeeds: bool)
    requires Inv(s)
    ensures Inv(DoClose(s, succeeds).0)
  {
  }

  lemma {:induction false} ClearInv(s: Sys, succeeds: bool)
    requires Inv(s)
    ensures Inv(DoClear(s, succeeds).0)
  {
  }

  lemma {:induction false} ReshapeInv(s: Sys, columns: nat, outcome: Reshaping)
    requires Inv(s) && columns <= U64_MAX
    ensures Inv(DoReshape(s, columns, outcome).0)
  {
  }

  lemma {:induction false} RunInv(s: Sys, c: Call)
    requires Inv(s) && Sane(c)
    ensures Inv(Run(s, c).0)
    decreases c, 1
  {
    if c.EndRow? {
      EndRowInv(s, c.auto);
    } else if c.AppendChunk? {
      ChunkInv(s, c.rows, c.fits, c.auto);
    } else if c.RowOf? {
      if s.lifecycle == Open && s.column == 0 {
        RunAllInv(s, c.body);
        AfterClosureInv(RunAll(s, c.body), c.ending, c.auto);
      }
    } else if c.Flush? {
      FlushInv(s, c.succeeds);
    } else if c.Close? {
      CloseInv(s, c.succeeds);
    } else if c.Clear? {
      ClearInv(s, c.succeeds);
    } else if c.Reshape? {
      ReshapeInv(s, c.columns, c.outcome);
    }
  }

  lemma {:induction false} RunAllInv(s: Sys, calls: seq<Call>)
    requires Inv(s) && AllSane(calls)
    ensures Inv(RunAll(s, calls))
    decreases calls, 0
  {
    if calls != [] {
      RunInv(s, calls[0]);
      RunAllInv(Run(s, calls[0]).0, calls[1..]);
    }
  }

  /** The promise of the module documentation, for every run: a row reported
      appended is in the table, still buffered, deliberately cleared, or lost
      with an error returned no earlier than the loss; rows a poisoned
      appender holds have been reported too; and the wrapper's column is
      DuckDB's. */
  lemma {:induction false} NoSilentLoss(keeps: bool, columns: nat, calls: seq<Call>, r: Row)
    requires columns <= U64_MAX && AllSane(calls)
    requires r in RunAll(Fresh(keeps, columns), calls).acked
    ensures var s := RunAll(Fresh(keeps, columns), calls);
            && (r in s.duck.table || r in s.duck.held || r in s.cleared || (r in s.duck.lost && r in s.reported))
            && (s.lifecycle == Poisoned && r in s.duck.held ==> r in s.reported)
            && s.column == s.duck.column
  {
    RunAllInv(Fresh(keeps, columns), calls);
  }

  /** Once `close` has succeeded nothing is left to lose: every row reported
      appended is in the table, was cleared, or was reported lost. With no
      error in the whole run and nothing cleared, the table is exactly the
      rows that were appended, all of them. */
  lemma {:induction false} CloseAccountsForEveryRow(keeps: bool, columns: nat, calls: seq<Call>)
    requires columns <= U64_MAX && AllSane(calls)
    requires RunAll(Fresh(keeps, columns), calls).lifecycle == Closed
    ensures var s := RunAll(Fresh(keeps, columns), calls);
            && s.acked <= s.duck.table + s.cleared + s.reported
            && (s.errors == 0 && s.cleared == {} ==> s.duck.table == s.acked == Block(0, s.duck.next))
  {
    RunAllInv(Fresh(keeps, columns), calls);
  }

  /** What dropping the appender does to a row reported appended, exactly: it
      is lost if it was buffered, unless the appender was between rows and
      DuckDB's own close succeeded. */
  lemma {:induction false} DropLosesExactly(s: Sys, succeeds: bool, r: Row)
    requires Inv(s) && r in s.acked
    ensures r in s.duck.Destroyed(succeeds).lost <==>
            r in s.duck.lost || (r in s.duck.held && !(s.column == 0 && succeeds))
    ensures r in s.duck.Destroyed(succeeds).table <==>
            r in s.duck.table || (r in s.duck.held && s.column == 0 && succeeds)
  {
  }

  /** No error was ever returned for a row so lost: this is the documented
      silent loss. */
  ghost predicate SilentlyLost(s: Sys, succeeds: bool, r: Row) {
    r in s.acked && r in s.duck.Destroyed(succeeds).lost && r !in s.reported
  }

  /** It takes an open appender with rows buffered; a closed or a poisoned one
      loses nothing silently, and neither does an open one between rows unless
      DuckDB's close fails. */
  lemma {:induction false} SilentLossNeedsAnOpenDrop(s: Sys, succeeds: bool)
    requires Inv(s)
    ensures (exists r :: SilentlyLost(s, succeeds, r)) <==>
            && s.lifecycle == Open && !(s.column == 0 && succeeds)
            && exists r :: r in s.acked && r in s.duck.held && r !in s.reported
  {
    forall r
      ensures SilentlyLost(s, succeeds, r) <==>
              && s.lifecycle == Open && !(s.column == 0 && succeeds)
              && r in s.acked && r in s.duck.held && r !in s.reported
    {
      if r in s.acked {
        DropLosesExactly(s, succeeds, r);
      }
    }
  }

  /** The smallest silent loss: one row, and a drop whose close fails. */
  lemma {:induction false} DroppedRowExample(keeps: bool)
    ensures SilentlyLost(RunAll(Fresh(keeps, 0), [EndRow(Quiet)]), false, 0)
  {
    var calls := [EndRow(Quiet)];
    assert calls[1..] == [];
    assert 0 in Block(0, 1);
  }

  /** A `row` that was started never leaves its row half-written and the
      appender usable, however its closure behaved. */
  lemma {:induction false} RowIsAllOrPoison(s: Sys, body: seq<Call>, ending: Ending, auto: Auto)
    requires Inv(s) && s.lifecycle == Open && s.column == 0 && AllSane(body)
    ensures var (s', ok) := Run(s, RowOf(body, ending, auto));
            && (s'.column == 0 || s'.lifecycle == Poisoned)
            && (ok ==> ending == Returns && s'.lifecycle == Open)
            && (s'.lifecycle == Poisoned ==> s'.duck.held <= s'.reported)
            && RowOutcome(RunAll(s, body), ending, auto, s', ok)
  {
    RunInv(s, RowOf(body, ending, auto));
    RunAllInv(s, body);
    AfterClosureOutcome(RunAll(s, body), ending, auto);
  }

  /** Closing is final: over any calls, closures included, nothing is written,
      acknowledged or lost any more, and only `close` and `clear` succeed. */
  lemma {:induction false} ClosedIsFinal(s: Sys, calls: seq<Call>)
    requires Inv(s) && s.lifecycle == Closed
    ensures var done := RunAll(s, calls);
            done.lifecycle == Closed && done.duck == s.duck && done.acked == s.acked && done.cleared == s.cleared
    ensures forall c :: Run(RunAll(s, calls), c).1 <==> c.Close? || (c.Clear? && c.succeeds)
    decreases |calls|
  {
    if calls != [] {
      ClosedCall(s, calls[0]);
      ClosedIsFinal(Run(s, calls[0]).0, calls[1..]);
    } else {
      forall c
        ensures Run(s, c).1 <==> c.Close? || (c.Clear? && c.succeeds)
      {
        ClosedCall(s, c);
      }
    }
  }

  lemma {:induction false} ClosedCall(s: Sys, c: Call)
    requires Inv(s) && s.lifecycle == Closed
    ensures var (next, ok) := Run(s, c);
            && (ok <==> c.Close? || (c.Clear? && c.succeeds))
            && Inv(next) && next.lifecycle == Closed && next.duck == s.duck && next.acked == s.acked
            && next.cleared == s.cleared
  {
  }

  /** Calls that do not manage to clear. */
  predicate NeverClears(calls: seq<Call>) {
    forall i :: 0 <= i < |calls| && calls[i].Clear? ==> !calls[i].succeeds
  }

  /** Poisoning lasts: over any calls but a successful `clear`, however many and
      whatever their closures would do, each call fails, DuckDB is left alone,
      and the rows it holds stay reported; a successful `clear` ends it. */
  lemma {:induction false} PoisonIsSticky(s: Sys, calls: seq<Call>)
    requires Inv(s) && s.lifecycle == Poisoned && NeverClears(calls)
    ensures var done := RunAll(s, calls);
            && done.lifecycle == Poisoned && done.duck == s.duck && done.acked == s.acked
            && done.errors == s.errors + |calls| && done.duck.held <= done.reported
    ensures DoClear(RunAll(s, calls), true).1 && DoClear(RunAll(s, calls), true).0.lifecycle == Open
    decreases |calls|
  {
    if calls != [] {
      var next := Run(s, calls[0]).0;
      PoisonedCall(s, calls[0]);
      assert forall i :: 0 <= i < |calls[1..]| ==> calls[1..][i] == calls[i + 1];
      PoisonIsSticky(next, calls[1..]);
    }
  }

  lemma {:induction false} PoisonedCall(s: Sys, c: Call)
    requires Inv(s) && s.lifecycle == Poisoned && (c.Clear? ==> !c.succeeds)
    ensures var (next, ok) := Run(s, c);
            && !ok && Inv(next) && next.lifecycle == Poisoned && next.duck == s.duck && next.acked == s.acked
            && next.errors == s.errors + 1
  {
  }

  // ---- The lost-row count

  /** `buffered` does not under-count what DuckDB holds (up to saturation). */
  ghost predicate Counts(s: Sys) {
    |s.duck.held| <= s.buffered || s.buffered == U64_MAX
  }

  /** The chunk is buffered and the automatic flush then fails, on an engine
      that keeps the rows of a failed flush. */
  ghost predicate StrandsChunk(c: Call, keeps: bool) {
    c.AppendChunk? && keeps && c.fits && c.auto == Fails && c.rows > 0
  }

  /** The call makes a right count too low. All of it is known before the call
      but how the automatic flush ends. */
  ghost predicate Undercounts(s: Sys, c: Call) {
    && s.lifecycle == Open && s.column == 0 && StrandsChunk(c, s.duck.keeps)
    && s.buffered < |s.duck.held| + c.rows && s.buffered < U64_MAX
  }

  lemma {:induction false} UnionSize(a: set<Row>, b: set<Row>)
    ensures |a + b| <= |a| + |b|
  {
    assert |a + b| == |a| + |b - a| by {
      assert a + b == a + (b - a);
    }
    if |b - a| > |b| {
      SubsetSize(b - a, b);
    }
  }

  lemma {:induction false} SubsetSize(a: set<Row>, b: set<Row>)
    requires a <= b
    ensures |a| <= |b|
  {
    if a != {} {
      var x :| x in a;
      SubsetSize(a - {x}, b - {x});
    }
  }

  lemma {:induction false} EndRowCounts(s: Sys, auto: Auto)
    requires Inv(s) && Counts(s)
    ensures Counts(DoEndRow(s, auto).0) && DoEndRow(s, auto).0.duck.keeps == s.duck.keeps
  {
    BlockSize(s.duck.next, 1);
    UnionSize(s.duck.held, Block(s.duck.next, 1));
  }

  lemma {:induction false} DisjointSize(a: set<Row>, b: set<Row>)
    requires a !! b
    ensures |a + b| == |a| + |b|
  {
  }

  /** How many rows DuckDB holds after a chunk. */
  lemma {:induction false} ChunkHeld(d: Duck, rows: nat, auto: Auto)
    requires d.column == 0 && forall r :: r in d.held ==> r < d.next
    ensures var after := d.AppendChunk(rows, true, auto).0;
            && after.keeps == d.keeps
            && |after.held| == if auto == Quiet || (auto == Fails && d.keeps) then |d.held| + rows else 0
    ensures d.AppendChunk(rows, true, auto).1 <==> auto != Fails
  {
    BlockSize(d.next, rows);
    DisjointSize(d.held, Block(d.next, rows));
  }

  lemma {:induction false} ChunkCounts(s: Sys, c: Call)
    requires Inv(s) && Counts(s) && c.AppendChunk?
    ensures Counts(Run(s, c).0) <==> !Undercounts(s, c)
    ensures Run(s, c).0.duck.keeps == s.duck.keeps
  {
    if s.lifecycle == Open && s.column == 0 && c.fits {
      ChunkHeld(s.duck, c.rows, c.auto);
    }
  }

  /** The rows held stay as they are, or all go. */
  lemma {:induction false} CountsKept(s: Sys, next: Sys)
    requires Counts(s)
    requires next.duck.held == {} || (next.duck.held == s.duck.held && next.buffered == s.buffered)
    ensures Counts(next)
  {
  }

  lemma {:induction false} FlushHeld(d: Duck, succeeds: bool)
    ensures d.Flush(succeeds).0.held == {} || d.Flush(succeeds).0.held == d.held
    ensures d.Flush(succeeds).0.keeps == d.keeps
    ensures d.Flush(succeeds).1 ==> d.Flush(succeeds).0.held == {}
  {
  }

  lemma {:induction false} FlushCounts(s: Sys, succeeds: bool)
    requires Inv(s) && Counts(s)
    ensures Counts(DoFlush(s, succeeds).0) && DoFlush(s, succeeds).0.duck.keeps == s.duck.keeps
  {
    FlushHeld(s.duck, succeeds);
    CountsKept(s, DoFlush(s, succeeds).0);
  }

  lemma {:induction false} CloseCounts(s: Sys, succeeds: bool)
    requires Inv(s) && Counts(s)
    ensures Counts(DoClose(s, succeeds).0) && DoClose(s, succeeds).0.duck.keeps == s.duck.keeps
  {
    FlushHeld(s.duck, succeeds);
    CountsKept(s, DoClose(s, succeeds).0);
  }

  lemma {:induction false} ReshapeCounts(s: Sys, columns: nat, outcome: Reshaping)
    requires Inv(s) && Counts(s)
    ensures Counts(DoReshape(s, columns, outcome).0) && DoReshape(s, columns, outcome).0.duck.keeps == s.duck.keeps
  {
    ReshapeHeld(s.duck, columns, outcome);
    CountsKept(s, DoReshape(s, columns, outcome).0);
  }

  lemma {:induction false} ReshapeHeld(d: Duck, columns: nat, outcome: Reshaping)
    ensures var (next, ok) := d.Reshape(columns, outcome);
            && (next.held == {} || next.held == d.held) && next.keeps == d.keeps && (ok ==> next.held == {})
  {
    FlushHeld(d, true);
    FlushHeld(d, false);
  }

  lemma {:induction false} ClearCounts(s: Sys, succeeds: bool)
    requires Inv(s) && Counts(s)
    ensures Counts(DoClear(s, succeeds).0) && DoClear(s, succeeds).0.duck.keeps == s.duck.keeps
  {
    CountsKept(s, DoClear(s, succeeds).0);
  }

  lemma {:induction false} AppendCounts(s: Sys, accepts: bool)
    requires Inv(s) && Counts(s)
    ensures Counts(DoAppend(s, accepts).0) && DoAppend(s, accepts).0.duck.keeps == s.duck.keeps
  {
    CountsKept(s, DoAppend(s, accepts).0);
  }

  lemma {:induction false} SimpleCounts(s: Sys, c: Call)
    requires Inv(s) && Counts(s) && !c.EndRow? && !c.AppendChunk? && !c.RowOf?
    ensures Counts(Run(s, c).0) && Run(s, c).0.duck.keeps == s.duck.keeps
  {
    match c
    case Append(accepts) => AppendCounts(s, accepts);
    case Flush(succeeds) => FlushCounts(s, succeeds);
    case Close(succeeds) => CloseCounts(s, succeeds);
    case Clear(succeeds) => ClearCounts(s, succeeds);
    case Reshape(columns, outcome) => ReshapeCounts(s, columns, outcome);
    case RefusedAppend => CountsKept(s, Run(s, c).0);
  }

  lemma {:induction false} AfterClosureCounts(s: Sys, ending: Ending, auto: Auto)
    requires Inv(s) && Counts(s)
    ensures Counts(AfterClosure(s, ending, auto).0) && AfterClosure(s, ending, auto).0.duck.keeps == s.duck.keeps
  {
    if ending == Returns {
      EndRowCounts(s, auto);
    }
  }

  /** The condition is exact, for every call but a closure: where the count is
      right, the call makes it too low if and only if it strands a chunk and
      the count has no slack for its rows. */
  lemma {:induction false} UndercountIsAStrandedChunk(s: Sys, c: Call)
    requires Inv(s) && Counts(s) && !c.RowOf?
    ensures Counts(Run(s, c).0) <==> !Undercounts(s, c)
    ensures Run(s, c).0.duck.keeps == s.duck.keeps
  {
    if c.EndRow? {
      EndRowCounts(s, c.auto);
    } else if c.AppendChunk? {
      ChunkCounts(s, c);
    } else {
      SimpleCounts(s, c);
    }
  }

  // ---- The count over whole runs, closures included

  /** The count is right before, between and after all these calls, and those
      their closures make. */
  ghost predicate CountsThroughout(s: Sys, calls: seq<Call>)
    decreases calls, 0
  {
    && Counts(s)
    && (calls != [] ==> CountsDuring(s, calls[0]) && CountsThroughout(Run(s, calls[0]).0, calls[1..]))
  }

  ghost predicate CountsDuring(s: Sys, c: Call)
    decreases c, 1
  {
    c.RowOf? && s.lifecycle == Open && s.column == 0 ==> CountsThroughout(s, c.body)
  }

  /** No call of the run makes it too low. */
  ghost predicate NoneUndercounts(s: Sys, calls: seq<Call>)
    decreases calls, 0
  {
    calls != [] ==> DoesNotUndercount(s, calls[0]) && NoneUndercounts(Run(s, calls[0]).0, calls[1..])
  }

  ghost predicate DoesNotUndercount(s: Sys, c: Call)
    decreases c, 1
  {
    if c.RowOf? then s.lifecycle == Open && s.column == 0 ==> NoneUndercounts(s, c.body)
    else !Undercounts(s, c)
  }

  lemma {:induction false} CallCounts(s: Sys, c: Call)
    requires Inv(s) && Counts(s) && Sane(c)
    ensures DoesNotUndercount(s, c) ==> Counts(Run(s, c).0)
    ensures CountsDuring(s, c) && Counts(Run(s, c).0) <==> DoesNotUndercount(s, c)
    ensures Run(s, c).0.duck.keeps == s.duck.keeps
    decreases c, 1
  {
    if !c.RowOf? {
      UndercountIsAStrandedChunk(s, c);
    } else if s.lifecycle == Open && s.column == 0 {
      RunAllInv(s, c.body);
      CountIsExact(s, c.body);
      if NoneUndercounts(s, c.body) {
        AfterClosureCounts(RunAll(s, c.body), c.ending, c.auto);
      }
      AfterClosureKeeps(RunAll(s, c.body), c.ending, c.auto);
    }
  }

  lemma {:induction false} AfterClosureKeeps(s: Sys, ending: Ending, auto: Auto)
    ensures AfterClosure(s, ending, auto).0.duck.keeps == s.duck.keeps
  {
  }

  /** For every run: the count of rows at risk is right throughout if and only
      if no call in it strands a chunk beyond the count. */
  lemma {:induction false} CountIsExact(s: Sys, calls: seq<Call>)
    requires Inv(s) && Counts(s) && AllSane(calls)
    ensures CountsThroughout(s, calls) <==> NoneUndercounts(s, calls)
    ensures NoneUndercounts(s, calls) ==> Counts(RunAll(s, calls))
    ensures RunAll(s, calls).duck.keeps == s.duck.keeps
    decreases calls, 0
  {
    if calls != [] {
      CallCounts(s, calls[0]);
      RunInv(s, calls[0]);
      if Counts(Run(s, calls[0]).0) {
        CountIsExact(Run(s, calls[0]).0, calls[1..]);
      } else {
        KeepsIsFixed(Run(s, calls[0]).0, calls[1..]);
      }
    }
  }

  lemma {:induction false} CallKeeps(s: Sys, c: Call)
    ensures Run(s, c).0.duck.keeps == s.duck.keeps
    decreases c, 1
  {
    if c.RowOf? {
      KeepsIsFixed(s, c.body);
      AfterClosureKeeps(RunAll(s, c.body), c.ending, c.auto);
    }
  }

  lemma {:induction false} KeepsIsFixed(s: Sys, calls: seq<Call>)
    ensures RunAll(s, calls).duck.keeps == s.duck.keeps
    decreases calls, 0
  {
    if calls != [] {
      CallKeeps(s, calls[0]);
      KeepsIsFixed(Run(s, calls[0]).0, calls[1..]);
    }
  }

  lemma {:induction false} NothingToStrand(s: Sys, c: Call)
    requires !s.duck.keeps
    ensures DoesNotUndercount(s, c)
    decreases c, 1
  {
    if c.RowOf? {
      NothingEverToStrand(s, c.body);
    }
  }

  lemma {:induction false} NothingEverToStrand(s: Sys, calls: seq<Call>)
    requires !s.duck.keeps
    ensures NoneUndercounts(s, calls)
    decreases calls, 0
  {
    if calls != [] {
      NothingToStrand(s, calls[0]);
      CallKeeps(s, calls[0]);
      NothingEverToStrand(Run(s, calls[0]).0, calls[1..]);
    }
  }

  /** On an engine that discards the rows of a failed flush (from 2.0.0) the
      count is never too low. */
  lemma {:induction false} BufferedNeverUndercounts(columns: nat, calls: seq<Call>)
    requires columns <= U64_MAX && AllSane(calls)
    ensures CountsThroughout(Fresh(false, columns), calls)
  {
    NothingEverToStrand(Fresh(false, columns), calls);
    CountIsExact(Fresh(false, columns), calls);
  }

  /** The smallest run that goes wrong: one chunk of one row on DuckDB 1.x. */
  lemma {:induction false} StrandedChunkExample()
    ensures var s := RunAll(Fresh(true, 1), [AppendChunk(1, true, Fails)]);
            s.buffered == 0 && s.duck.held == {0}
  {
    assert Block(0, 1) == {0};
    var calls := [AppendChunk(1, true, Fails)];
    assert calls[1..] == [];
  }
}
