/** src/entry_point.rs and src/entry_point/registration.rs: the steps of an
    extension's `LOAD`, against every outcome DuckDB and the registration
    closure can give them. */
module LoadProtocol {
  import opened Wrappers
  import opened AbiGuard

  /** One registration the closure makes. Names are as DuckDB compares them. */
  datatype Registration =
    | Catalog(name: string)            // refused when the name is taken
    | Cast(key: string, via: string)   // replaces the cast between the same types
    | Scan(name: string)               // appended
    | Setting(name: string)            // a configuration option: refused when the name is taken

  datatype Ending = Returns | ReturnsError | Panics

  datatype Mode = Transactional | Autocommit

  /** How initialising the C API went. */
  datatype Init = InitFails | Unavailable | Available

  /** Everything the host and the closure decide in one load. */
  datatype World = World(
    argumentsPanic: bool,
    nulInApiVersion: bool,
    accessNull: bool,
    getApiMissing: bool,
    setErrorMissing: bool,
    init: Init,
    check: AbiCheck,
    getDatabaseMissing: bool,
    databaseNull: bool,
    connectSucceeds: bool,
    beginSucceeds: bool,
    registrations: seq<Registration>,
    ending: Ending,
    commitSucceeds: bool,
    rollbackSucceeds: bool)

  datatype Options = Options(policy: AbiPolicy, mode: Mode)

  // ---- The database the closure registers in

  /** What a connection sees. All but the catalog is database configuration,
      which no transaction covers. */
  datatype Db = Db(catalog: set<string>, casts: map<string, string>, scans: seq<string>, settings: set<string>)

  predicate Refused(db: Db, r: Registration) {
    match r
    case Catalog(name) => name in db.catalog
    case Setting(name) => name in db.settings
    case _ => false
  }

  function Registered(db: Db, r: Registration): Db {
    match r
    case Catalog(name) => db.(catalog := db.catalog + {name})
    case Cast(key, via) => db.(casts := db.casts[key := via])
    case Scan(name) => db.(scans := db.scans + [name])
    case Setting(name) => db.(settings := db.settings + {name})
  }

  function After(db: Db, rs: seq<Registration>): Db {
    if rs == [] then db else Registered(After(db, rs[..|rs| - 1]), rs[|rs| - 1])
  }

  /** How many registrations are accepted: the closure returns the first error. */
  function Stops(db: Db, rs: seq<Registration>): (k: nat)
    ensures k <= |rs|
  {
    if rs == [] then 0
    else
      var k := Stops(db, rs[..|rs| - 1]);
      if k == |rs| - 1 && !Refused(After(db, rs[..k]), rs[k]) then |rs| else k
  }

  /** The policy lets the load go on. */
  predicate Admitted(w: World, o: Options) {
    o.policy == Trust || PolicyVerdict(o.policy, w.check) != Refuse
  }

  /** Every step before the closure succeeds. */
  predicate ReachesClosure(w: World, o: Options) {
    && !w.argumentsPanic && !w.nulInApiVersion && !w.accessNull && !w.getApiMissing && w.init == Available
    && Admitted(w, o) && !w.getDatabaseMissing && !w.databaseNull && w.connectSucceeds
    && (o.mode == Transactional ==> w.beginSucceeds)
  }

  predicate ClosureReturnsOk(db: Db, w: World) {
    Stops(db, w.registrations) == |w.registrations| && w.ending == Returns
  }

  predicate Succeeds(db: Db, w: World, o: Options) {
    ReachesClosure(w, o) && ClosureReturnsOk(db, w) && (o.mode == Transactional ==> w.commitSucceeds)
  }

  /** What the closure leaves behind, whether it is rolled back or not. */
  function Registers(db: Db, w: World): Db {
    After(db, w.registrations[..Stops(db, w.registrations)])
  }

  /** The database after one `LOAD`. */
  function Loaded(db: Db, w: World, o: Options): Db {
    if !ReachesClosure(w, o) then db
    else if o.mode == Autocommit || Succeeds(db, w, o) then Registers(db, w)
    else Registers(db, w).(catalog := db.catalog)
  }

  /** The load ends without DuckDB being told why by quack-rs: the C API
      version is not available, or DuckDB has recorded its own error. */
  predicate EndsQuietly(w: World, o: Options) {
    && !w.argumentsPanic && !w.nulInApiVersion && !w.accessNull && !w.getApiMissing
    && (|| w.init == Unavailable
        || (w.init == Available && Admitted(w, o) && !w.getDatabaseMissing && w.databaseNull))
  }

  class Host {
    var connects: nat
    var disconnects: nat
    var catalog: set<string>             // committed
    var uncommitted: Option<set<string>> // of the open transaction
    var casts: map<string, string>
    var scans: seq<string>
    var settings: set<string>
    var errors: nat                      // `set_error` calls
    var recorded: bool                   // DuckDB has recorded an error itself
    var warnings: nat
    var closureRuns: nat

    ghost predicate Idle()
      reads this
    {
      connects == disconnects && uncommitted == None
    }

    /** What the registration connection sees. */
    function Visible(): Db
      reads this`catalog, this`uncommitted, this`casts, this`scans, this`settings
    {
      Db(if uncommitted.Some? then catalog + uncommitted.value else catalog, casts, scans, settings)
    }

    constructor (taken: set<string>)
      ensures Idle() && Visible() == Db({}, map[], [], taken) && errors == 0 && !recorded && closureRuns == 0
    {
      connects, disconnects, errors, warnings, closureRuns := 0, 0, 0, 0, 0;
      catalog, uncommitted, recorded := {}, None, false;
      casts, scans, settings := map[], [], taken;
    }

    method Register(r: Registration) returns (ok: bool)
      modifies this`catalog, this`uncommitted, this`casts, this`scans, this`settings
      ensures ok <==> !Refused(old(Visible()), r)
      ensures Visible() == if ok then Registered(old(Visible()), r) else old(Visible())
      // inside a transaction nothing is committed
      ensures old(uncommitted).Some? ==> uncommitted.Some? && catalog == old(catalog)
      ensures old(uncommitted).None? ==> uncommitted.None?
    {
      ok := !Refused(Visible(), r);
      if !ok {
        return;
      }
      match r
      case Cast(key, via) =>
        casts := casts[key := via];
      case Scan(name) =>
        scans := scans + [name];
      case Setting(name) =>
        settings := settings + {name};
      case Catalog(name) =>
        if uncommitted.Some? {
          assert catalog + (uncommitted.value + {name}) == catalog + uncommitted.value + {name};
          uncommitted := Some(uncommitted.value + {name});
        } else {
          catalog := catalog + {name};
        }
    }

    /** The closure under `catch_unwind`: it registers, then returns, fails or
        panics; a refused registration and a panic become errors. */
    method CatchRegistrationPanic(w: World) returns (ok: bool)
      modifies this`catalog, this`uncommitted, this`casts, this`scans, this`settings, this`closureRuns
      ensures ok <==> ClosureReturnsOk(old(Visible()), w)
      ensures Visible() == Registers(old(Visible()), w)
      ensures closureRuns == old(closureRuns) + 1
      ensures old(uncommitted).Some? ==> uncommitted.Some? && catalog == old(catalog)
      ensures old(uncommitted).None? ==> uncommitted.None?
    {
      closureRuns := closureRuns + 1;
      var rs := w.registrations;
      ghost var db := Visible();
      assert rs[..0] == [];
      for i := 0 to |rs|
        invariant closureRuns == old(closureRuns) + 1
        invariant Stops(db, rs[..i]) == i && Visible() == After(db, rs[..i])
        invariant old(uncommitted).Some? ==> uncommitted.Some? && catalog == old(catalog)
        invariant old(uncommitted).None? ==> uncommitted.None?
      {
        OneMore(db, rs, i);
        var accepted := Register(rs[i]);
        if !accepted {
          StopsHere(db, rs, i + 1);
          return false;
        }
      }
      assert rs[..|rs|] == rs;
      ok := w.ending == Returns;
    }

    /** `registration::run` */
    method Run(w: World, mode: Mode) returns (ok: bool)
      requires uncommitted == None
      modifies this`catalog, this`uncommitted, this`casts, this`scans, this`settings, this`closureRuns
      ensures ok <==> (mode == Transactional ==> w.beginSucceeds && w.commitSucceeds) && ClosureReturnsOk(old(Visible()), w)
      ensures closureRuns == old(closureRuns) + (if mode == Autocommit || w.beginSucceeds then 1 else 0)
      ensures mode == Transactional && !w.beginSucceeds ==> Visible() == old(Visible()) && uncommitted == None
      ensures mode == Autocommit || ok ==> Visible() == Registers(old(Visible()), w) && uncommitted == None
      // a failed transaction leaves the catalog alone, and the configuration not
      ensures mode == Transactional && w.beginSucceeds && !ok ==>
                && catalog == old(catalog)
                && Db(catalog, casts, scans, settings) == Registers(old(Visible()), w).(catalog := old(catalog))
    {
      if mode == Autocommit {
        ok := CatchRegistrationPanic(w);
        return;
      }
      if !w.beginSucceeds {
        return false;
      }
      assert catalog + {} == catalog;
      uncommitted := Some({});
      var registered := CatchRegistrationPanic(w);
      if registered {
        if w.commitSucceeds {
          catalog := catalog + uncommitted.value;
          uncommitted := None;
          return true;
        }
        // a commit that fails commits nothing
        uncommitted := None;
        return false;
      }
      // a rollback that fails leaves the transaction to the disconnect
      if w.rollbackSucceeds {
        uncommitted := None;
      }
      ok := false;
    }

    method EnforceAbiPolicy(w: World, policy: AbiPolicy) returns (ok: bool)
      modifies this`warnings
      ensures ok <==> policy == Trust || PolicyVerdict(policy, w.check) != Refuse
      ensures warnings == old(warnings) + (if policy != Trust && PolicyVerdict(policy, w.check) == LoadWithWarning then 1 else 0)
    {
      if policy == Trust {
        return true;
      }
      match PolicyVerdict(policy, w.check)
      case Load =>
        ok := true;
      case Refuse =>
        ok := false;
      case LoadWithWarning =>
        warnings := warnings + 1;
        ok := true;
    }

    /** `Ok(None)` when DuckDB hands out no database: it has recorded why. */
    method DatabaseFromAccess(w: World) returns (r: Result<Option<()>, ()>)
      modifies this`recorded
      ensures w.getDatabaseMissing ==> r == Err(()) && recorded == old(recorded)
      ensures !w.getDatabaseMissing ==>
                r == Ok(if w.databaseNull then None else Some(())) && recorded == (old(recorded) || w.databaseNull)
    {
      if w.getDatabaseMissing {
        return Err(());
      }
      if w.databaseNull {
        recorded := true;
        return Ok(None);
      }
      r := Ok(Some(()));
    }

    /** `Err` is reported by the caller; `Ok(false)` is not. */
    method InitExtensionInternal(w: World, o: Options) returns (r: Result<bool, ()>)
      requires Idle() && !w.argumentsPanic
      modifies this
      ensures Idle() && errors == old(errors)
      ensures r == Ok(true) <==> Succeeds(old(Visible()), w, o)
      ensures r == Ok(false) <==> EndsQuietly(w, o)
      // the first step that does not go through decides
      ensures if w.nulInApiVersion || w.accessNull || w.getApiMissing || w.init == InitFails then
                r == Err(()) && recorded == old(recorded) && connects == old(connects)
              else if w.init == Unavailable then
                r == Ok(false) && recorded == old(recorded) && connects == old(connects)
              else if !w.check.IsCompatible()
                      && (o.policy == Strict || (o.policy == AllowUnknownEngine && !w.check.UnknownEngineVersion?)) then
                r == Err(()) && recorded == old(recorded) && connects == old(connects)
              else if w.getDatabaseMissing then
                r == Err(()) && recorded == old(recorded) && connects == old(connects)
              else if w.databaseNull then
                r == Ok(false) && recorded && connects == old(connects)
              else if !w.connectSucceeds then
                r == Err(()) && recorded == old(recorded) && connects == old(connects)
              else
                && recorded == old(recorded) && connects == old(connects) + 1
                && (r == if (o.mode == Transactional && (!w.beginSucceeds || !w.commitSucceeds)) || w.ending != Returns
                            || HasTaken(old(Visible()), w.registrations)
                         then Err(()) else Ok(true))
      ensures warnings == old(warnings)
                          + (if !w.nulInApiVersion && !w.accessNull && !w.getApiMissing && w.init == Available
                                && o.policy == Warn && !w.check.IsCompatible() then 1 else 0)
      ensures closureRuns == old(closureRuns) + (if ReachesClosure(w, o) then 1 else 0)
      ensures Visible() == Loaded(old(Visible()), w, o)
      ensures recorded == (old(recorded) || (EndsQuietly(w, o) && w.init == Available))
    {
      NoneTaken(Visible(), w.registrations);
      if w.nulInApiVersion || w.accessNull || w.getApiMissing || w.init == InitFails {
        return Err(());
      }
      if w.init == Unavailable {
        return Ok(false);
      }
      var admitted := EnforceAbiPolicy(w, o.policy);
      if !admitted {
        return Err(());
      }
      var db := DatabaseFromAccess(w);
      if db.Err? {
        return Err(());
      }
      if db.value.None? {
        return Ok(false);
      }
      if !w.connectSucceeds {
        return Err(());
      }
      var ran := RunConnected(w, o.mode);
      r := if ran then Ok(true) else Err(());
    }

    /** Registers on a connection of its own, which is always closed again. */
    method RunConnected(w: World, mode: Mode) returns (ok: bool)
      requires Idle()
      modifies this`connects, this`disconnects, this`catalog, this`uncommitted, this`casts, this`scans, this`settings,
               this`closureRuns
      ensures Idle() && connects == old(connects) + 1
      ensures ok <==> (mode == Transactional ==> w.beginSucceeds && w.commitSucceeds) && ClosureReturnsOk(old(Visible()), w)
      ensures closureRuns == old(closureRuns) + (if mode == Autocommit || w.beginSucceeds then 1 else 0)
      ensures Visible() ==
              if mode == Transactional && !w.beginSucceeds then old(Visible())
              else if mode == Autocommit || ok then Registers(old(Visible()), w)
              else Registers(old(Visible()), w).(catalog := old(catalog))
    {
      connects := connects + 1;
      ok := Run(w, mode);
      // disconnecting rolls back whatever is still open
      disconnects := disconnects + 1;
      uncommitted := None;
    }

    method ReportError(w: World)
      modifies this`errors
      ensures errors == old(errors) + if w.accessNull || w.setErrorMissing then 0 else 1
    {
      if w.accessNull {
        return;
      }
      if !w.setErrorMissing {
        errors := errors + 1;
      }
    }

    /** `__entry_point_with_options` over `init_extension_with_options`, the
        whole of a `LOAD`. */
    method LoadExtension(w: World, o: Options) returns (loaded: bool)
      requires Idle()
      modifies this
      // every connection is closed again, whatever happened
      ensures Idle() && connects <= old(connects) + 1
      // the closure runs at most once, after an admitting verdict only
      ensures closureRuns == old(closureRuns) + (if ReachesClosure(w, o) then 1 else 0)
      ensures closureRuns > old(closureRuns) ==> Admitted(w, o)
      // success means the closure succeeded, was committed, and nothing was reported
      ensures loaded <==> Succeeds(old(Visible()), w, o)
      ensures loaded ==> w.ending == Returns && errors == old(errors) && recorded == old(recorded)
      // a failure is reported once if there is anyone to tell, and never over DuckDB's own error
      ensures errors == old(errors) + (if loaded || EndsQuietly(w, o) || w.accessNull || w.setErrorMissing then 0 else 1)
      ensures recorded && !old(recorded) ==> !loaded && errors == old(errors)
      // the first step that does not go through decides: it is reported, but for
      // an API version this DuckDB does not have and a database it did not hand out
      ensures var told := if w.accessNull || w.setErrorMissing then 0 else 1;
              if w.argumentsPanic || w.nulInApiVersion || w.accessNull || w.getApiMissing || w.init == InitFails then
                !loaded && errors == old(errors) + told && recorded == old(recorded)
              else if w.init == Unavailable then
                !loaded && errors == old(errors) && recorded == old(recorded)
              else if !w.check.IsCompatible()
                      && (o.policy == Strict || (o.policy == AllowUnknownEngine && !w.check.UnknownEngineVersion?)) then
                !loaded && errors == old(errors) + told && recorded == old(recorded)
              else if w.getDatabaseMissing then
                !loaded && errors == old(errors) + told && recorded == old(recorded)
              else if w.databaseNull then
                !loaded && errors == old(errors) && recorded
              else if || !w.connectSucceeds || (o.mode == Transactional && (!w.beginSucceeds || !w.commitSucceeds))
                      || w.ending != Returns || HasTaken(old(Visible()), w.registrations) then
                !loaded && errors == old(errors) + told && recorded == old(recorded)
              else
                loaded && errors == old(errors) && recorded == old(recorded)
      ensures w.argumentsPanic ==> warnings == old(warnings)
      ensures !w.argumentsPanic ==>
                warnings == old(warnings)
                            + (if !w.nulInApiVersion && !w.accessNull && !w.getApiMissing && w.init == Available
                                  && o.policy == Warn && !w.check.IsCompatible() then 1 else 0)
      // what stays behind
      ensures Visible() == Loaded(old(Visible()), w, o)
      ensures !loaded && o.mode == Transactional ==> catalog == old(catalog)
    {
      if w.argumentsPanic {
        ReportError(w);
        return false;
      }
      var r := InitExtensionInternal(w, o);
      match r
      case Ok(result) =>
        loaded := result;
      case Err(_) =>
        ReportError(w);
        loaded := false;
    }
  }

  // ---- Where a closure stops

  lemma {:induction false} OneMore(db: Db, rs: seq<Registration>, i: nat)
    requires i < |rs| && Stops(db, rs[..i]) == i
    ensures After(db, rs[..i + 1]) == Registered(After(db, rs[..i]), rs[i])
    ensures Stops(db, rs[..i + 1]) == if Refused(After(db, rs[..i]), rs[i]) then i else i + 1
  {
    assert rs[..i + 1][..i] == rs[..i];
  }

  /** A closure that stops within the first `n` registrations stops there. */
  lemma {:induction false} StopsHere(db: Db, rs: seq<Registration>, n: nat)
    requires n <= |rs| && Stops(db, rs[..n]) < n
    ensures Stops(db, rs) == Stops(db, rs[..n])
    decreases |rs|
  {
    if n == |rs| {
      assert rs[..n] == rs;
    } else {
      var front := rs[..|rs| - 1];
      assert front[..n] == rs[..n];
      StopsHere(db, front, n);
    }
  }

  /** The names are taken: in the database, or by the closure itself before. */
  predicate Taken(db: Db, rs: seq<Registration>, i: nat)
    requires i < |rs|
  {
    Refused(db, rs[i]) || ((rs[i].Catalog? || rs[i].Setting?) && rs[i] in rs[..i])
  }

  lemma {:induction false} RefusedIsTaken(db: Db, rs: seq<Registration>, i: nat)
    requires i < |rs|
    ensures Refused(After(db, rs[..i]), rs[i]) <==> Taken(db, rs, i)
  {
    RefusedAfter(db, rs[..i], rs[i]);
  }

  lemma {:induction false} RefusedAfter(db: Db, rs: seq<Registration>, r: Registration)
    ensures Refused(After(db, rs), r) <==> Refused(db, r) || ((r.Catalog? || r.Setting?) && r in rs)
  {
    if rs != [] {
      var front, last := rs[..|rs| - 1], rs[|rs| - 1];
      assert rs == front + [last];
      RefusedAfter(db, front, r);
    }
  }

  /** The closure stops exactly at its first taken name. */
  lemma {:induction false} StopsAtFirstTaken(db: Db, rs: seq<Registration>)
    ensures forall i :: 0 <= i < Stops(db, rs) ==> !Taken(db, rs, i)
    ensures Stops(db, rs) < |rs| ==> Taken(db, rs, Stops(db, rs))
  {
    if rs != [] {
      var front := rs[..|rs| - 1];
      StopsAtFirstTaken(db, front);
      forall i | 0 <= i < |front|
        ensures Taken(db, front, i) <==> Taken(db, rs, i)
      {
        assert front[..i] == rs[..i] && front[i] == rs[i];
      }
      RefusedIsTaken(db, rs, |front|);
    }
  }

  /** The closure asks for a name that is taken when its turn comes. */
  predicate HasTaken(db: Db, rs: seq<Registration>) {
    exists i :: 0 <= i < |rs| && Taken(db, rs, i)
  }

  lemma {:induction false} NoneTaken(db: Db, rs: seq<Registration>)
    ensures HasTaken(db, rs) <==> Stops(db, rs) < |rs|
  {
    StopsAtFirstTaken(db, rs);
  }

  /** `db` may hold names that `before` does not. */
  predicate Extends(before: Db, db: Db) {
    before.catalog <= db.catalog && before.settings <= db.settings
  }

  /** A name the closure registers is there already. */
  predicate AnyLeftover(db: Db, rs: seq<Registration>, n: nat)
    requires n <= |rs|
  {
    exists i :: 0 <= i < n && Refused(db, rs[i])
  }

  /** A closure that would get through in `before` stops in `db` exactly at the
      first of its names that was left over there. */
  lemma {:induction false} StopsAtFirstLeftover(before: Db, db: Db, rs: seq<Registration>)
    requires Stops(before, rs) == |rs| && Extends(before, db)
    ensures !AnyLeftover(db, rs, Stops(db, rs))
    ensures Stops(db, rs) < |rs| ==> Refused(db, rs[Stops(db, rs)]) && !Refused(before, rs[Stops(db, rs)])
    ensures Stops(db, rs) == |rs| <==> !AnyLeftover(db, rs, |rs|)
  {
    StopsAtFirstTaken(before, rs);
    StopsAtFirstTaken(db, rs);
    var k := Stops(db, rs);
    forall i | 0 <= i < k
      ensures !Refused(db, rs[i])
    {
      assert !Taken(db, rs, i);
    }
    if k < |rs| {
      assert !Taken(before, rs, k);
      assert Refused(db, rs[k]);
    }
  }

  // ---- What registrations leave

  function NamesIn(rs: seq<Registration>, settings: bool): set<string> {
    set i | 0 <= i < |rs| && (if settings then rs[i].Setting? else rs[i].Catalog?) :: rs[i].name
  }

  function ScansIn(rs: seq<Registration>): seq<string> {
    if rs == [] then []
    else ScansIn(rs[..|rs| - 1]) + if rs[|rs| - 1].Scan? then [rs[|rs| - 1].name] else []
  }

  /** The last cast registered for a key. */
  function CastIn(rs: seq<Registration>, key: string): Option<string> {
    if rs == [] then None
    else
      var last := rs[|rs| - 1];
      if last.Cast? && last.key == key then Some(last.via) else CastIn(rs[..|rs| - 1], key)
  }

  lemma {:induction false} NamesGrow(rs: seq<Registration>, settings: bool)
    requires rs != []
    ensures var last := rs[|rs| - 1];
            NamesIn(rs, settings) == NamesIn(rs[..|rs| - 1], settings)
                                     + if (if settings then last.Setting? else last.Catalog?) then {last.name} else {}
  {
    var front, last := rs[..|rs| - 1], rs[|rs| - 1];
    forall name
      ensures name in NamesIn(rs, settings) <==>
              name in NamesIn(front, settings)
              || ((if settings then last.Setting? else last.Catalog?) && name == last.name)
    {
      if name in NamesIn(front, settings) {
        var k :| 0 <= k < |front| && (if settings then front[k].Setting? else front[k].Catalog?) && front[k].name == name;
        assert rs[k] == front[k];
      }
      if name in NamesIn(rs, settings) {
        var k :| 0 <= k < |rs| && (if settings then rs[k].Setting? else rs[k].Catalog?) && rs[k].name == name;
        assert k < |front| ==> front[k] == rs[k];
      }
    }
  }

  /** Names are added, casts replaced by key, scans appended: a second run of
      the same registrations leaves every scan twice and every cast once. */
  lemma {:induction false} AfterByParts(db: Db, rs: seq<Registration>)
    ensures var after := After(db, rs);
            && after.catalog == db.catalog + NamesIn(rs, false)
            && after.settings == db.settings + NamesIn(rs, true)
            && after.scans == db.scans + ScansIn(rs)
            && forall key :: if CastIn(rs, key).Some? then key in after.casts && after.casts[key] == CastIn(rs, key).value
                             else (key in after.casts <==> key in db.casts)
                                  && (key in db.casts ==> after.casts[key] == db.casts[key])
  {
    if rs != [] {
      AfterByParts(db, rs[..|rs| - 1]);
      NamesGrow(rs, false);
      NamesGrow(rs, true);
    }
  }

  // ---- Retrying

  function LoadedAll(db: Db, attempts: seq<World>, o: Options): Db {
    if attempts == [] then db
    else Loaded(LoadedAll(db, attempts[..|attempts| - 1], o), attempts[|attempts| - 1], o)
  }

  /** No attempt succeeds. */
  ghost predicate AllFail(db: Db, attempts: seq<World>, o: Options) {
    forall i :: 0 <= i < |attempts| ==> !Succeeds(LoadedAll(db, attempts[..i], o), attempts[i], o)
  }

  /** What the closures of the attempts registered before they failed. */
  ghost predicate Left(db: Db, attempts: seq<World>, o: Options, r: Registration) {
    exists i: nat :: i < |attempts| && LeftAt(db, attempts, o, r, i)
  }

  ghost predicate LeftAt(db: Db, attempts: seq<World>, o: Options, r: Registration, i: nat)
    requires i < |attempts|
  {
    LeftBy(LoadedAll(db, attempts[..i], o), attempts[i], o, r)
  }

  ghost predicate LeftBy(db: Db, w: World, o: Options, r: Registration) {
    ReachesClosure(w, o) && r in w.registrations[..Stops(db, w.registrations)]
  }

  lemma {:induction false} LoadedNames(db: Db, w: World, o: Options)
    ensures var after := Loaded(db, w, o);
            && (forall name :: name in after.settings <==> name in db.settings || LeftBy(db, w, o, Setting(name)))
            && (o.mode == Autocommit || Succeeds(db, w, o) ==>
                  forall name :: name in after.catalog <==> name in db.catalog || LeftBy(db, w, o, Catalog(name)))
            && (o.mode == Transactional && !Succeeds(db, w, o) ==> after.catalog == db.catalog)
  {
    var accepted := w.registrations[..Stops(db, w.registrations)];
    AfterByParts(db, accepted);
    forall name
      ensures name in NamesIn(accepted, true) <==> Setting(name) in accepted
      ensures name in NamesIn(accepted, false) <==> Catalog(name) in accepted
    {
      if Setting(name) in accepted {
        var k :| 0 <= k < |accepted| && accepted[k] == Setting(name);
      }
      if Catalog(name) in accepted {
        var k :| 0 <= k < |accepted| && accepted[k] == Catalog(name);
      }
    }
  }

  /** After failed attempts: in a transaction the catalog is as before, outside
      it holds what they registered; the settings stay either way. */
  lemma {:induction false} LoadedAllNames(db: Db, attempts: seq<World>, o: Options)
    requires AllFail(db, attempts, o)
    ensures var after := LoadedAll(db, attempts, o);
            && (forall name :: name in after.settings <==> name in db.settings || Left(db, attempts, o, Setting(name)))
            && (o.mode == Transactional ==> after.catalog == db.catalog)
            && (o.mode == Autocommit ==>
                  forall name :: name in after.catalog <==> name in db.catalog || Left(db, attempts, o, Catalog(name)))
  {
    if attempts != [] {
      var n := |attempts| - 1;
      var front, last := attempts[..n], attempts[n];
      var mid := LoadedAll(db, front, o);
      forall i | 0 <= i <= n
        ensures attempts[..i] == front[..i]
      {
      }
      assert front[..n] == front;
      assert AllFail(db, front, o) by {
        forall i | 0 <= i < |front|
          ensures !Succeeds(LoadedAll(db, front[..i], o), front[i], o)
        {
          assert front[..i] == attempts[..i] && front[i] == attempts[i];
        }
      }
      LoadedAllNames(db, front, o);
      LoadedNames(mid, last, o);
      forall r: Registration
        ensures Left(db, attempts, o, r) <==> Left(db, front, o, r) || LeftBy(mid, last, o, r)
      {
        LeftGrows(db, attempts, o, r);
      }
    }
  }

  lemma {:induction false} LeftAtFront(db: Db, attempts: seq<World>, o: Options, r: Registration, i: nat)
    requires i < |attempts| - 1
    ensures LeftAt(db, attempts, o, r, i) <==> LeftAt(db, attempts[..|attempts| - 1], o, r, i)
  {
    var front := attempts[..|attempts| - 1];
    assert attempts[..i] == front[..i] && attempts[i] == front[i];
  }

  lemma {:induction false} LeftGrows(db: Db, attempts: seq<World>, o: Options, r: Registration)
    requires attempts != []
    ensures var front, last := attempts[..|attempts| - 1], attempts[|attempts| - 1];
            Left(db, attempts, o, r) <==> Left(db, front, o, r) || LeftBy(LoadedAll(db, front, o), last, o, r)
  {
    var n: nat := |attempts| - 1;
    assert LeftAt(db, attempts, o, r, n) <==> LeftBy(LoadedAll(db, attempts[..n], o), attempts[n], o, r);
    if i: nat :| i < |attempts| && LeftAt(db, attempts, o, r, i) {
      if i < n {
        LeftAtFront(db, attempts, o, r, i);
      }
    }
    if i: nat :| i < n && LeftAt(db, attempts[..n], o, r, i) {
      LeftAtFront(db, attempts, o, r, i);
    }
  }

  /** The reason for the transaction. After any failed attempts, whatever they
      registered and wherever they failed, a load that would have succeeded
      before them succeeds if and only if none of them left a configuration
      option that it registers. */
  lemma {:induction false} RetryWorksExactly(db: Db, attempts: seq<World>, last: World, o: Options)
    requires o.mode == Transactional && AllFail(db, attempts, o) && Succeeds(db, last, o)
    ensures Succeeds(LoadedAll(db, attempts, o), last, o) <==>
            forall name :: Setting(name) in last.registrations ==> !Left(db, attempts, o, Setting(name))
  {
    var after := LoadedAll(db, attempts, o);
    LoadedAllNames(db, attempts, o);
    StopsAtFirstLeftover(db, after, last.registrations);
    LeftoverSettings(db, after, last.registrations);
    forall name
      ensures name in after.settings && name !in db.settings ==> Left(db, attempts, o, Setting(name))
      ensures Left(db, attempts, o, Setting(name)) ==> name in after.settings
    {
    }
  }

  /** Where only options can be left over, a leftover name is an option's. */
  lemma {:induction false} LeftoverSettings(before: Db, db: Db, rs: seq<Registration>)
    requires Stops(before, rs) == |rs| && db.catalog == before.catalog
    ensures AnyLeftover(db, rs, |rs|) <==> exists name :: Setting(name) in rs && name in db.settings
    ensures forall name :: Setting(name) in rs ==> name !in before.settings
  {
    StopsAtFirstTaken(before, rs);
    forall i | 0 <= i < |rs|
      ensures !Refused(before, rs[i])
    {
      assert !Taken(before, rs, i);
    }
    if AnyLeftover(db, rs, |rs|) {
      var i :| 0 <= i < |rs| && Refused(db, rs[i]);
      assert rs[i] == Setting(rs[i].name) && rs[i] in rs;
    }
    forall name | Setting(name) in rs
      ensures name !in before.settings
      ensures name in db.settings ==> AnyLeftover(db, rs, |rs|)
    {
      var i :| 0 <= i < |rs| && rs[i] == Setting(name);
      assert Refused(db, rs[i]) <==> name in db.settings;
    }
  }

  /** Without it, a retry stops at the first name, catalog entry or option,
      that an attempt left: it succeeds only if there is none. */
  lemma {:induction false} AutocommitRetryStops(db: Db, attempts: seq<World>, last: World, o: Options)
    requires o.mode == Autocommit && AllFail(db, attempts, o) && Succeeds(db, last, o)
    ensures var k := Stops(LoadedAll(db, attempts, o), last.registrations);
            && (forall i :: 0 <= i < k ==> !LeftName(db, attempts, o, last.registrations[i]))
            && (k < |last.registrations| ==> LeftName(db, attempts, o, last.registrations[k]))
            && (Succeeds(LoadedAll(db, attempts, o), last, o) <==> k == |last.registrations|)
  {
    var after, rs := LoadedAll(db, attempts, o), last.registrations;
    LoadedAllNames(db, attempts, o);
    StopsAtFirstLeftover(db, after, rs);
    StopsAtFirstTaken(db, rs);
    forall i | 0 <= i < |rs|
      ensures LeftName(db, attempts, o, rs[i]) <==> Refused(after, rs[i])
    {
      assert !Taken(db, rs, i);
      match rs[i]
      case Catalog(name) => assert rs[i] == Catalog(name);
      case Setting(name) => assert rs[i] == Setting(name);
      case _ =>
    }
    var k := Stops(after, rs);
    forall i | 0 <= i < k
      ensures !LeftName(db, attempts, o, rs[i])
    {
      assert !Refused(after, rs[i]);
    }
  }

  ghost predicate LeftName(db: Db, attempts: seq<World>, o: Options, r: Registration) {
    (r.Catalog? || r.Setting?) && Left(db, attempts, o, r)
  }

  /** Registering options last does not help where the commit is what fails:
      the same closure is then refused by every later load. */
  lemma {:induction false} FailedCommitBlocksRetry(db: Db, w: World, again: World, o: Options, name: string)
    requires o.mode == Transactional && ReachesClosure(w, o) && ClosureReturnsOk(db, w) && !w.commitSucceeds
    requires again.registrations == w.registrations && Setting(name) in w.registrations
    ensures Loaded(db, w, o).catalog == db.catalog
    ensures !Succeeds(Loaded(db, w, o), again, o)
  {
    var rs, after := w.registrations, Loaded(db, w, o);
    assert rs[..|rs|] == rs;
    LoadedNames(db, w, o);
    assert LeftBy(db, w, o, Setting(name));
    var i :| 0 <= i < |rs| && rs[i] == Setting(name);
    StopsAtFirstTaken(after, rs);
    assert Taken(after, rs, i);
  }

  /** The same on the host: failed attempts, then the load that would have
      succeeded before them. */
  method Retry(host: Host, attempts: seq<World>, last: World, o: Options) returns (loaded: bool)
    requires host.Idle() && o.mode == Transactional
    requires AllFail(host.Visible(), attempts, o) && Succeeds(host.Visible(), last, o)
    modifies host
    ensures host.Idle()
    ensures loaded <==>
            forall name :: Setting(name) in last.registrations ==> !Left(old(host.Visible()), attempts, o, Setting(name))
    ensures host.catalog == old(host.catalog) + if loaded then NamesIn(last.registrations, false) else {}
    ensures host.errors <= old(host.errors) + |attempts| + 1
    ensures loaded ==> host.errors <= old(host.errors) + |attempts|
  {
    ghost var db := host.Visible();
    for i := 0 to |attempts|
      invariant host.Idle() && host.Visible() == LoadedAll(db, attempts[..i], o)
      invariant host.catalog == old(host.catalog)
      invariant host.errors <= old(host.errors) + i
    {
      assert attempts[..i + 1][..i] == attempts[..i];
      var failed := host.LoadExtension(attempts[i], o);
    }
    assert attempts[..|attempts|] == attempts;
    RetryWorksExactly(db, attempts, last, o);
    ghost var before := host.Visible();
    AfterByParts(before, last.registrations);
    assert last.registrations[..|last.registrations|] == last.registrations;
    loaded := host.LoadExtension(last, o);
  }
}
