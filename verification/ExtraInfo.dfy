/** src/extra_info.rs: who owns a function's payload between the call that
    supplies it and the engine's destruction of the function, and the type tag
    in front of a payload. */
module ExtraInfo {
  import opened Wrappers

  type Ptr = nat
  type TypeId(==, !new, 0)

  /** A payload behind its type's identity. */
  datatype Tagged<V> = Tagged(typeId: TypeId, value: V)

  /** The heap, with a count of how often each pointer has been freed. */
  class Memory<V> {
    var live: map<Ptr, Tagged<V>>
    ghost var freed: multiset<Ptr>
    var next: Ptr

    ghost predicate Valid()
      reads this
    {
      && (forall p :: p in live ==> p < next && freed[p] == 0)
      && (forall p :: p in freed ==> p < next)
    }

    constructor ()
      ensures Valid() && live == map[] && freed == multiset{} && next == 0
    {
      live, freed, next := map[], multiset{}, 0;
    }

    method IntoTagged(typeId: TypeId, value: V) returns (p: Ptr)
      requires Valid()
      modifies this
      ensures Valid() && p == old(next) && next == p + 1
      ensures p !in old(live) && live == old(live)[p := Tagged(typeId, value)] && freed == old(freed)
    {
      p := next;
      live := live[p := Tagged(typeId, value)];
      next := next + 1;
    }

    /** `drop_tagged`: null frees nothing. */
    method DropTagged(ptr: Option<Ptr>)
      requires Valid() && (ptr.Some? ==> ptr.value in live)
      modifies this
      ensures Valid() && next == old(next)
      ensures ptr.None? ==> live == old(live) && freed == old(freed)
      ensures ptr.Some? ==> live == old(live) - {ptr.value} && freed == old(freed) + multiset{ptr.value}
    {
      if ptr.Some? {
        live := live - {ptr.value};
        freed := freed + multiset{ptr.value};
      }
    }

    /** `tagged_ref`: a value exactly when the pointer is not null and the
        stored type is the one asked for. */
    method TaggedRef(ptr: Option<Ptr>, typeId: TypeId) returns (r: Option<V>)
      requires ptr.Some? ==> ptr.value in live
      ensures r.Some? <==> ptr.Some? && live[ptr.value].typeId == typeId
      ensures r.Some? ==> r.value == live[ptr.value].value
    {
      if ptr.None? || live[ptr.value].typeId != typeId {
        return None;
      }
      r := Some(live[ptr.value].value);
    }
  }

  class Info<V> {
    const data: Option<Ptr>
    const destroy: bool
    var transferred: bool

    constructor (data: Option<Ptr>, destroy: bool)
      ensures this.data == data && this.destroy == destroy && !transferred
    {
      this.data, this.destroy, transferred := data, destroy, false;
    }

    method MarkTransferred()
      modifies this
      ensures transferred
    {
      transferred := true;
    }

    method Drop(memory: Memory<V>)
      requires memory.Valid()
      requires !transferred && destroy && data.Some? ==> data.value in memory.live
      modifies memory
      ensures memory.Valid()
      ensures if !transferred && destroy && data.Some?
              then memory.live == old(memory.live) - {data.value}
                   && memory.freed == old(memory.freed) + multiset{data.value}
              else memory.live == old(memory.live) && memory.freed == old(memory.freed)
    {
      if transferred || data.None? {
        return;
      }
      if !destroy {
        return;
      }
      memory.DropTagged(data);
    }
  }

  // ---- Runs

  datatype Builder = Builder(data: Option<Ptr>, destroy: bool, transferred: bool) {
    /** The payload this builder still has to free. */
    predicate Owes(p: Ptr) {
      data == Some(p) && destroy && !transferred
    }
  }

  /** The builders alive, the payloads the engine holds with their destructor,
      the payloads allocated, and the frees so far. `unowned` payloads were
      given without a destructor: nobody here frees them. */
  datatype State = State(builders: map<nat, Builder>, engine: set<Ptr>, known: set<Ptr>,
                         unowned: set<Ptr>, freed: multiset<Ptr>)

  const EMPTY := State(map[], {}, {}, {}, multiset{})

  datatype Event =
    | Create(id: nat, data: Option<Ptr>, destroy: bool)
    | Register(id: nat)
    | DropBuilder(id: nat)
    | EngineDestroys(p: Ptr)

  /** The contract: a builder is given a payload nobody else has, is registered
      at most once, and the engine destroys what it holds once. */
  predicate Allowed(s: State, e: Event) {
    match e
    case Create(id, data, _) => id !in s.builders && (data.Some? ==> data.value !in s.known)
    case Register(id) => id in s.builders && !s.builders[id].transferred
    case DropBuilder(id) => id in s.builders
    case EngineDestroys(p) => p in s.engine
  }

  function Step(s: State, e: Event): State
    requires Allowed(s, e)
  {
    match e
    case Create(id, data, destroy) =>
      s.(builders := s.builders[id := Builder(data, destroy, false)],
         known := if data.Some? then s.known + {data.value} else s.known,
         unowned := if data.Some? && !destroy then s.unowned + {data.value} else s.unowned)
    case Register(id) =>
      var b := s.builders[id];
      s.(builders := s.builders[id := b.(transferred := true)],
         engine := if b.data.Some? && b.destroy then s.engine + {b.data.value} else s.engine)
    case DropBuilder(id) =>
      var b := s.builders[id];
      s.(builders := s.builders - {id},
         freed := if b.transferred || b.data.None? || !b.destroy then s.freed else s.freed + multiset{b.data.value})
    case EngineDestroys(p) => s.(engine := s.engine - {p}, freed := s.freed + multiset{p})
  }

  /** The state after these events, if every one of them is allowed. */
  function Run(events: seq<Event>): Option<State>
    decreases |events|
  {
    if events == [] then Some(EMPTY)
    else
      var s :- Run(events[..|events| - 1]);
      var e := events[|events| - 1];
      if Allowed(s, e) then Some(Step(s, e)) else None
  }

  /** Some builder still has to free `p`. */
  ghost predicate OwedByBuilder(s: State, p: Ptr) {
    exists id :: id in s.builders && s.builders[id].Owes(p)
  }

  /** Each payload is in exactly one place: with one builder, with the engine,
      freed once, or given without a destructor. */
  ghost predicate Conserved(s: State) {
    && (forall p :: p in s.known ==>
          || (OwedByBuilder(s, p) && p !in s.engine && s.freed[p] == 0 && p !in s.unowned)
          || (!OwedByBuilder(s, p) && p in s.engine && s.freed[p] == 0 && p !in s.unowned)
          || (!OwedByBuilder(s, p) && p !in s.engine && s.freed[p] == 1 && p !in s.unowned)
          || (!OwedByBuilder(s, p) && p !in s.engine && s.freed[p] == 0 && p in s.unowned))
    && (forall p :: p in s.engine || p in s.freed || p in s.unowned ==> p in s.known)
    && (forall id :: id in s.builders && s.builders[id].data.Some? ==> s.builders[id].data.value in s.known)
    && (forall i, j :: i in s.builders && j in s.builders && i != j && s.builders[i].data.Some? ==>
          s.builders[i].data != s.builders[j].data)
  }

  lemma {:induction false} CreateConserves(s: State, e: Event)
    requires Conserved(s) && Allowed(s, e) && e.Create?
    ensures Conserved(Step(s, e))
  {
    var s' := Step(s, e);
    assert forall id :: id in s.builders ==> s'.builders[id] == s.builders[id];
    forall p | p in s'.known
      ensures OwedByBuilder(s', p) <==> OwedByBuilder(s, p) || (e.data == Some(p) && e.destroy)
    {
      if e.data == Some(p) && e.destroy {
        assert s'.builders[e.id].Owes(p);
      }
      if id :| id in s.builders && s.builders[id].Owes(p) {
        assert s'.builders[id].Owes(p);
      }
    }
  }

  /** A builder stops owing its payload; every other builder is as before. */
  lemma {:induction false} OthersUnmoved(s: State, s': State, id: nat)
    requires Conserved(s) && id in s.builders
    requires forall i :: i in s'.builders && i != id ==> i in s.builders && s'.builders[i] == s.builders[i]
    requires forall i :: i in s.builders && i != id ==> i in s'.builders
    requires id in s'.builders ==> s'.builders[id] == s.builders[id].(transferred := true)
    ensures forall p :: OwedByBuilder(s', p) <==> OwedByBuilder(s, p) && !s.builders[id].Owes(p)
  {
    forall p
      ensures OwedByBuilder(s', p) <==> OwedByBuilder(s, p) && !s.builders[id].Owes(p)
    {
      if i :| i in s'.builders && s'.builders[i].Owes(p) {
        assert s.builders[i].Owes(p);
      }
      if i :| i in s.builders && s.builders[i].Owes(p) {
        if !s.builders[id].Owes(p) {
          assert s'.builders[i].Owes(p);
        }
      }
    }
  }

  lemma {:induction false} RegisterConserves(s: State, e: Event)
    requires Conserved(s) && Allowed(s, e) && e.Register?
    ensures Conserved(Step(s, e))
  {
    OthersUnmoved(s, Step(s, e), e.id);
    var b := s.builders[e.id];
    if b.data.Some? && b.destroy {
      assert b.Owes(b.data.value);
    }
  }

  lemma {:induction false} DropConserves(s: State, e: Event)
    requires Conserved(s) && Allowed(s, e) && e.DropBuilder?
    ensures Conserved(Step(s, e))
  {
    OthersUnmoved(s, Step(s, e), e.id);
    var b := s.builders[e.id];
    if b.data.Some? && b.destroy && !b.transferred {
      assert b.Owes(b.data.value);
    }
  }

  lemma {:induction false} EngineConserves(s: State, e: Event)
    requires Conserved(s) && Allowed(s, e) && e.EngineDestroys?
    ensures Conserved(Step(s, e))
  {
    var s' := Step(s, e);
    assert forall p :: OwedByBuilder(s', p) <==> OwedByBuilder(s, p);
  }

  lemma {:induction false} RunConserves(events: seq<Event>)
    requires Run(events).Some?
    ensures Conserved(Run(events).value)
    decreases |events|
  {
    if events != [] {
      RunConserves(events[..|events| - 1]);
      var before, e := Run(events[..|events| - 1]).value, events[|events| - 1];
      match e
      case Create(_, _, _) => CreateConserves(before, e);
      case Register(_) => RegisterConserves(before, e);
      case DropBuilder(_) => DropConserves(before, e);
      case EngineDestroys(_) => EngineConserves(before, e);
    }
  }

  /** A builder was given `p`, with a destructor or without. */
  predicate Given(events: seq<Event>, p: Ptr, destroy: bool) {
    exists i :: 0 <= i < |events| && events[i].Create? && events[i].data == Some(p) && events[i].destroy == destroy
  }

  lemma {:induction false} GivenSnoc(events: seq<Event>, e: Event, p: Ptr, destroy: bool)
    ensures Given(events + [e], p, destroy) <==>
            Given(events, p, destroy) || (e.Create? && e.data == Some(p) && e.destroy == destroy)
  {
    var all := events + [e];
    if Given(events, p, destroy) {
      var i :| 0 <= i < |events| && events[i].Create? && events[i].data == Some(p) && events[i].destroy == destroy;
      assert all[i] == events[i];
    }
    assert all[|events|] == e;
  }

  /** The payloads known are those some builder was given. */
  lemma {:induction false} KnownIsGiven(events: seq<Event>, p: Ptr)
    requires Run(events).Some?
    ensures var s := Run(events).value;
            && (p in s.known <==> Given(events, p, true) || Given(events, p, false))
            && (p in s.unowned <==> Given(events, p, false))
            && !(Given(events, p, true) && Given(events, p, false))
    decreases |events|
  {
    if events != [] {
      var front, e := events[..|events| - 1], events[|events| - 1];
      assert events == front + [e];
      KnownIsGiven(front, p);
      GivenSnoc(front, e, p, true);
      GivenSnoc(front, e, p, false);
    }
  }

  /** In every run that keeps the contract no payload is freed twice, none is
      freed while a builder owes it or the engine holds it, and once all
      builders and the engine are gone each one that was given with a destructor
      has been freed exactly once, each one without never. */
  lemma {:induction false} FreedExactlyOnce(events: seq<Event>, p: Ptr)
    requires Run(events).Some?
    ensures var s := Run(events).value;
            && s.freed[p] <= 1
            && (OwedByBuilder(s, p) || p in s.engine ==> s.freed[p] == 0)
            && (s.builders == map[] && s.engine == {} ==> s.freed[p] == if Given(events, p, true) then 1 else 0)
            && (Given(events, p, false) ==> s.freed[p] == 0)
  {
    RunConserves(events);
    KnownIsGiven(events, p);
    FreedOnce(Run(events).value, p);
  }

  lemma {:induction false} FreedOnce(s: State, p: Ptr)
    requires Conserved(s)
    ensures s.freed[p] <= 1 && (p in s.unowned || p !in s.known ==> s.freed[p] == 0)
    ensures OwedByBuilder(s, p) || p in s.engine ==> s.freed[p] == 0
    ensures s.builders == map[] && s.engine == {} ==> s.freed[p] == if p in s.known && p !in s.unowned then 1 else 0
  {
    assert p in s.freed ==> p in s.known;
  }

  // ---- The classes are that machine

  lemma {:induction false} RunSnoc(events: seq<Event>, s: State, e: Event)
    requires Run(events) == Some(s) && Allowed(s, e)
    ensures Run(events + [e]) == Some(Step(s, e))
  {
    assert (events + [e])[..|events|] == events;
  }

  /** What a builder owes has not been freed. */
  lemma {:induction false} OwedIsNotFreed(events: seq<Event>, s: State, id: nat, p: Ptr)
    requires Run(events) == Some(s) && id in s.builders && s.builders[id].Owes(p)
    ensures p in s.known && s.freed[p] == 0
  {
    RunConserves(events);
    assert OwedByBuilder(s, p);
  }

  /** Nor has what the engine holds. */
  lemma {:induction false} HeldIsNotFreed(events: seq<Event>, s: State, p: Ptr)
    requires Run(events) == Some(s) && p in s.engine
    ensures p in s.known && s.freed[p] == 0
  {
    RunConserves(events);
  }

  /** The builders alive and what the engine has taken over, with the history
      that led there. */
  class Session<V> {
    const memory: Memory<V>
    var infos: map<nat, Info<V>>
    var engine: set<Ptr>
    ghost var events: seq<Event>
    ghost var state: State

    /** The builders alive are those of the state, and no two are one. */
    ghost predicate Shows(builders: map<nat, Builder>)
      reads this`infos, infos.Values
    {
      && builders.Keys == infos.Keys
      && (forall id :: id in infos ==> builders[id] == Builder(infos[id].data, infos[id].destroy, infos[id].transferred))
      && (forall i, j :: i in infos && j in infos && i != j ==> infos[i] != infos[j])
    }

    /** The memory has freed what the state says, and holds the rest. */
    ghost predicate Holds(known: set<Ptr>, freed: multiset<Ptr>)
      reads memory
    {
      && memory.Valid() && memory.freed == freed
      && forall p :: p in known ==> p < memory.next && (freed[p] == 0 ==> p in memory.live)
    }

    /** The events have led to `state`, and the fields show it. */
    ghost predicate Valid()
      reads this, memory, infos.Values
    {
      && Run(events) == Some(state) && state.engine == engine
      && Shows(state.builders) && Holds(state.known, state.freed)
    }

    /** The history takes in one more event. */
    ghost method Record(e: Event)
      requires Run(events) == Some(state) && Allowed(state, e)
      modifies this`events, this`state
      ensures Run(events) == Some(state) && events == old(events) + [e] && state == Step(old(state), e)
    {
      RunSnoc(events, state, e);
      events, state := events + [e], Step(state, e);
    }

    constructor ()
      ensures Valid() && fresh(memory) && events == []
    {
      memory := new Memory();
      infos, engine, events, state := map[], {}, [], EMPTY;
    }

    /** A payload is put in memory before a builder owns it. */
    method Allocate(payload: Option<(TypeId, V)>) returns (data: Option<Ptr>)
      requires Holds(state.known, state.freed)
      modifies memory
      ensures data.Some? <==> payload.Some?
      ensures data.Some? ==> data.value !in state.known
      ensures Holds(if data.Some? then state.known + {data.value} else state.known, state.freed)
    {
      data := None;
      if payload.Some? {
        var p := memory.IntoTagged(payload.value.0, payload.value.1);
        data := Some(p);
      }
    }

    method Create(id: nat, payload: Option<(TypeId, V)>, destroy: bool) returns (data: Option<Ptr>)
      requires Valid() && id !in infos
      modifies this, memory
      ensures Valid() && events == old(events) + [Event.Create(id, data, destroy)]
      ensures data.Some? <==> payload.Some?
    {
      data := Allocate(payload);
      Own(id, data, destroy);
      Record(Event.Create(id, data, destroy));
    }

    method Own(id: nat, data: Option<Ptr>, destroy: bool)
      requires Shows(state.builders) && id !in infos
      modifies this`infos
      ensures infos.Keys == old(infos.Keys) + {id}
      ensures Shows(state.builders[id := Builder(data, destroy, false)])
    {
      var info := new Info(data, destroy);
      var more := infos[id := info];
      forall i, j | i in more && j in more && i != j
        ensures more[i] != more[j]
      {
        assert i != id ==> infos[i] != info;
        assert j != id ==> infos[j] != info;
      }
      infos := more;
    }

    method Forget(id: nat)
      requires Shows(state.builders) && id in infos
      modifies this`infos
      ensures infos == old(infos) - {id} && Shows(state.builders - {id})
    {
      infos := infos - {id};
    }

    /** A successful registration hands the payload over. */
    method Register(id: nat)
      requires Valid() && id in infos && !infos[id].transferred
      modifies this, infos[id]
      ensures Valid() && infos == old(infos) && events == old(events) + [Event.Register(id)]
    {
      var info := infos[id];
      info.MarkTransferred();
      if info.data.Some? && info.destroy {
        engine := engine + {info.data.value};
      }
      Record(Event.Register(id));
    }

    method DropBuilder(id: nat)
      requires Valid() && id in infos
      modifies this, memory
      ensures Valid() && infos == old(infos) - {id} && events == old(events) + [Event.DropBuilder(id)]
    {
      var info := infos[id];
      if !info.transferred && info.destroy && info.data.Some? {
        OwedIsNotFreed(events, state, id, info.data.value);
      }
      info.Drop(memory);
      assert Holds(state.known, Step(state, Event.DropBuilder(id)).freed);
      Forget(id);
      Record(Event.DropBuilder(id));
    }

    method EngineDestroys(p: Ptr)
      requires Valid() && p in engine
      modifies this, memory
      ensures Valid() && infos == old(infos) && events == old(events) + [Event.EngineDestroys(p)]
    {
      HeldIsNotFreed(events, state, p);
      memory.DropTagged(Some(p));
      engine := engine - {p};
      Record(Event.EngineDestroys(p));
    }
  }
}
