/** Assembling an engine: the collectors, and a store that is open exactly if the engine exists. */
module Wiring {
  import opened Evidence
  import opened Registry

  /** Store files opened and closed, in order. The owner is the policy the engine is built for. */
  datatype Io = Opened(owner: string, handle: nat, path: string) | Closed(handle: nat)

  /** `open` says whether the store still holds its handle; a rotation that fails can lose it. */
  datatype Engine = Engine(handle: nat, path: string, open: bool, collectors: map<string, Collector>)

  /** The operating system's view: a new handle for every open. Closing a handle that is already closed
      is an error in Go that reaches no file, so it is not part of the trace. */
  class FileTable {
    var trace: seq<Io>
    var next: nat

    constructor ()
      ensures trace == [] && next == 0
    {
      trace, next := [], 0;
    }

    method Open(owner: string, path: string) returns (handle: nat)
      modifies this
      ensures handle == old(next) && next == old(next) + 1
      ensures trace == old(trace) + [Opened(owner, handle, path)]
    {
      handle := next;
      next := next + 1;
      trace := trace + [Opened(owner, handle, path)];
    }

    method Close(handle: nat)
      modifies this
      ensures next == old(next) && trace == old(trace) + [Closed(handle)]
    {
      trace := trace + [Closed(handle)];
    }
  }

  /** What building an engine depends on: which collectors are enabled, what their factories return, and
      whether each later step succeeds. A store opens when its file is accepted. */
  datatype Plan = Plan(
    enabled: map<string, bool>,
    factories: map<string, Option<Collector>>,
    storePath: string,
    mappingLoads: bool, storeOpens: bool, keyLoads: bool, pushConfigured: bool, pushBuilds: bool)

  function EnabledIds(plan: Plan): set<string> { set id | id in plan.enabled && plan.enabled[id] }

  /** Every enabled collector has a factory that succeeds, and no two build the same collector ID. */
  predicate Wireable(plan: Plan, ids: set<string>) {
    && (forall id | id in ids :: id in plan.factories && plan.factories[id].Some?)
    && (forall id, other | id in ids && other in ids && id != other ::
          plan.factories[id].value.id != plan.factories[other].value.id)
  }

  /** The engine can be built. */
  predicate Buildable(plan: Plan) {
    && Wireable(plan, EnabledIds(plan)) && plan.mappingLoads && plan.storeOpens && plan.keyLoads
    && (plan.pushConfigured ==> plan.pushBuilds)
  }

  /** The store is opened once everything before it succeeded. */
  predicate OpensStore(plan: Plan) { Wireable(plan, EnabledIds(plan)) && plan.mappingLoads && plan.storeOpens }

  /** The file operations of one build: a store opened for an engine that is then not built is closed. */
  function BuildTrace(owner: string, handle: nat, plan: Plan): seq<Io> {
    if !OpensStore(plan) then []
    else if Buildable(plan) then [Opened(owner, handle, plan.storePath)]
    else [Opened(owner, handle, plan.storePath), Closed(handle)]
  }

  /** The registry holds what the factories of these entries built. */
  predicate Registered(plan: Plan, ids: set<string>, collectors: map<string, Collector>)
    requires Wireable(plan, ids)
  {
    && (forall id | id in ids :: plan.factories[id].value.id in collectors.Keys)
    && (forall key | key in collectors :: exists id :: id in ids && plan.factories[id].value == collectors[key])
  }

  lemma WireOne(plan: Plan, done: set<string>, collectors: map<string, Collector>, id: string)
    requires Wireable(plan, done) && Registered(plan, done, collectors) && Keyed(collectors)
    requires id in EnabledIds(plan) && id !in done && id in plan.factories && plan.factories[id].Some?
    ensures var x := plan.factories[id].value;
            && (x.id !in collectors ==>
                  && Wireable(plan, done + {id})
                  && Registered(plan, done + {id}, collectors[x.id := x]))
            && (x.id in collectors && done <= EnabledIds(plan) ==> !Wireable(plan, EnabledIds(plan)))
  {
    var x := plan.factories[id].value;
    if x.id in collectors {
      var other :| other in done && plan.factories[other].value == collectors[x.id];
      assert other != id;
    }
  }

  lemma NothingWired(plan: Plan)
    ensures Wireable(plan, {}) && Registered(plan, {}, map[]) && EnabledIds(plan) - plan.enabled.Keys == {}
  {
  }

  lemma DoneAfter(plan: Plan, rest: set<string>, id: string)
    requires id in rest && rest <= plan.enabled.Keys
    ensures EnabledIds(plan) - (rest - {id}) == (EnabledIds(plan) - rest) + (if plan.enabled[id] then {id} else {})
    ensures plan.enabled[id] ==> id in EnabledIds(plan)
  {
  }

  lemma NoFactory(plan: Plan, id: string)
    requires id in EnabledIds(plan) && (id !in plan.factories || plan.factories[id].None?)
    ensures !Wireable(plan, EnabledIds(plan))
  {
  }

  predicate Makes(plan: Plan, id: string) { id in plan.factories && plan.factories[id].Some? }

  /** When an engine can be built: every collector the configuration enables has a factory that succeeds, no
      two of them build the same ID, the mapping, the store and the key load, and so does the pusher if one is
      configured. */
  lemma BuildableMeans(plan: Plan)
    ensures Buildable(plan) <==>
              && (forall id | id in plan.enabled && plan.enabled[id] :: Makes(plan, id))
              && (forall id, other | id in plan.enabled && plan.enabled[id] && other in plan.enabled
                                     && plan.enabled[other] && id != other && Makes(plan, id) && Makes(plan, other) ::
                    plan.factories[id].value.id != plan.factories[other].value.id)
              && plan.mappingLoads && plan.storeOpens && plan.keyLoads && (plan.pushConfigured ==> plan.pushBuilds)
  {
    assert forall id :: id in EnabledIds(plan) <==> id in plan.enabled && plan.enabled[id];
  }

  /** An engine's registry holds exactly what the factories of the enabled collectors built, under their IDs. */
  lemma RegisteredMeans(plan: Plan, collectors: map<string, Collector>)
    requires Wireable(plan, EnabledIds(plan)) && Registered(plan, EnabledIds(plan), collectors) && Keyed(collectors)
    ensures forall x: Collector :: x.id in collectors && collectors[x.id] == x <==>
              exists id :: id in plan.enabled && plan.enabled[id] && Makes(plan, id) && plan.factories[id].value == x
  {
    assert forall id :: id in EnabledIds(plan) <==> id in plan.enabled && plan.enabled[id];
    forall id | id in EnabledIds(plan)
      ensures var x := plan.factories[id].value; x.id in collectors && collectors[x.id] == x
    {
      var x := plan.factories[id].value;
      var other :| other in EnabledIds(plan) && plan.factories[other].value == collectors[x.id];
      assert other == id;
    }
  }

  /** A store is opened only after collectors and mapping are in order, on the configured path; if the build
      then fails it is closed again. */
  lemma BuildTraceMeans(owner: string, handle: nat, plan: Plan)
    ensures var trace := BuildTrace(owner, handle, plan);
            && (!plan.mappingLoads || !plan.storeOpens || !Wireable(plan, EnabledIds(plan)) <==> trace == [])
            && (trace != [] ==> trace[0] == Opened(owner, handle, plan.storePath))
            && (Buildable(plan) ==> |trace| == 1)
            && (trace != [] && !Buildable(plan) ==> trace[1..] == [Closed(handle)])
  {
  }

  /** Registers the enabled collectors, ranging over the configuration in any order. */
  method Register(plan: Plan) returns (ok: bool, reg: CollectorRegistry)
    ensures fresh(reg) && Keyed(reg.collectors)
    ensures ok <==> Wireable(plan, EnabledIds(plan))
    ensures ok ==> Registered(plan, EnabledIds(plan), reg.collectors)
  {
    hide EnabledIds, Wireable, Registered;
    reg := new CollectorRegistry();
    var rest := plan.enabled.Keys;
    ghost var done: set<string> := {};
    NothingWired(plan);
    while rest != {}
      invariant fresh(reg) && Keyed(reg.collectors) && rest <= plan.enabled.Keys
      invariant done == EnabledIds(plan) - rest
      invariant Wireable(plan, done) && Registered(plan, done, reg.collectors)
      decreases |rest|
    {
      var id :| id in rest;
      DoneAfter(plan, rest, id);
      rest := rest - {id};
      if !plan.enabled[id] {
        continue;
      }
      if id !in plan.factories {
        NoFactory(plan, id);
        return false, reg;
      }
      var built := plan.factories[id];
      if built.None? {
        NoFactory(plan, id);
        return false, reg;
      }
      WireOne(plan, done, reg.collectors, id);
      var added := reg.Register(built.value);
      if !added {
        return false, reg;
      }
      done := done + {id};
    }
    assert done == EnabledIds(plan);
    ok := true;
  }

  /** `Build`: an engine exactly when every step succeeds, with its store open; nothing left open
      otherwise. */
  method Build(plan: Plan, owner: string, table: FileTable) returns (engine: Option<Engine>)
    modifies table
    ensures engine.Some? <==> Buildable(plan)
    ensures table.trace == old(table.trace) + BuildTrace(owner, old(table.next), plan)
    ensures table.next == old(table.next) + (if OpensStore(plan) then 1 else 0)
    ensures engine.Some? ==>
              && engine.value.handle == old(table.next) && engine.value.path == plan.storePath && engine.value.open
              && Registered(plan, EnabledIds(plan), engine.value.collectors) && Keyed(engine.value.collectors)
  {
    assert table.trace + [] == table.trace;
    var ok, reg := Register(plan);
    if !ok {
      return None;
    }
    if !plan.mappingLoads {
      return None;
    }
    if !plan.storeOpens {
      return None;
    }
    var handle := table.Open(owner, plan.storePath);
    if !plan.keyLoads {
      table.Close(handle);
      return None;
    }
    if plan.pushConfigured {
      if !plan.pushBuilds {
        table.Close(handle);
        return None;
      }
    }
    engine := Some(Engine(handle, plan.storePath, true, reg.collectors));
  }
}
