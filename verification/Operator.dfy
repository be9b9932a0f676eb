/** The operator's engine cache: one engine per policy, rebuilt when the policy's generation changes. */
module Operator {
  import opened Evidence
  import opened Chain
  import opened Paths
  import opened Store
  import opened Wiring
  import Scheduler

  datatype Cached = Cached(generation: int, engine: Engine)

  /** A policy as read from the cluster; `plan` is what its spec translates to, if it does. */
  datatype Policy = Policy(name: string, generation: int, plan: Option<Plan>)

  /** What one collection cycle meets: the fields and files of its store, and its clock and faults. */
  datatype Work = Work(c: Codec, st: State, rotateAfter: int, cy: Scheduler.Cycle)

  datatype Cache = Cache(engines: map<string, Cached>, trace: seq<Io>, next: nat)

  /** Close the engine's store. A store that lost its handle has nothing to close. */
  function CloseTrace(e: Engine): seq<Io> { if e.open then [Closed(e.handle)] else [] }

  /** Close and forget the engine of a policy, if there is one. */
  function Dropped(s: Cache, name: string): Cache {
    if name !in s.engines then s
    else s.(engines := s.engines - {name}, trace := s.trace + CloseTrace(s.engines[name].engine))
  }

  predicate Hit(s: Cache, p: Policy) { p.name in s.engines && s.engines[p.name].generation == p.generation }

  /** The rotation at the start of the cycle of an engine. */
  function Rotation(e: Engine, w: Work): Rotated {
    Scheduler.RotatePhase(w.c, e.path, w.st.(open := e.open), w.rotateAfter, w.cy)
  }

  predicate Rotates(e: Engine, w: Work) { e.open && w.rotateAfter > 0 && Due(w.st, w.rotateAfter, w.cy.rotateAt) }

  /** A cycle as far as handles go: a rotation closes the handle and opens a new one, or loses it. */
  function Cycled(s: Cache, name: string, w: Work): Cache {
    if name !in s.engines then s else
    var e := s.engines[name];
    if !Rotates(e.engine, w) then s
    else if Rotation(e.engine, w).st.open then
      Cache(s.engines[name := e.(engine := e.engine.(handle := s.next))],
            s.trace + [Closed(e.engine.handle)] + [Opened(name, s.next, e.engine.path)], s.next + 1)
    else
      s.(engines := s.engines[name := e.(engine := e.engine.(open := false))],
         trace := s.trace + [Closed(e.engine.handle)])
  }

  class EvidencePolicyReconciler {
    var engines: map<string, Cached>
    const table: FileTable

    constructor (table: FileTable)
      ensures engines == map[] && this.table == table
    {
      this.engines, this.table := map[], table;
    }

    ghost function View(): Cache
      reads this, table
    {
      Cache(engines, table.trace, table.next)
    }

    /** The engine of the policy's generation: the cached one, or a new one on the plan's file after the old
        one was closed. */
    method EngineFor(p: Policy) returns (engine: Option<Engine>)
      modifies this, table
      ensures Next(old(View()), Ensure(p), View())
      ensures engine.Some? <==> Hit(View(), p)
      ensures engine.Some? ==>
                && p.name in engines && engines[p.name].engine == engine.value
                && engines[p.name].generation == p.generation
      ensures engine.None? ==> p.name !in engines
      ensures forall name | name != p.name ::
                (name in engines <==> name in old(engines)) && (name in engines ==> engines[name] == old(engines)[name])
      ensures if p.name in old(engines) && old(engines)[p.name].generation == p.generation
              then View() == old(View())
              else
                && (engine.Some? <==> p.plan.Some? && Buildable(p.plan.value))
                && (engine.Some? ==>
                      && engine.value.handle == old(table.next) && engine.value.path == p.plan.value.storePath
                      && engine.value.open)
                && (p.name in old(engines) && old(engines)[p.name].engine.open ==>
                      old(table.trace) + [Closed(old(engines)[p.name].engine.handle)] <= table.trace)
    {
      if p.name in engines && engines[p.name].generation == p.generation {
        return Some(engines[p.name].engine);
      }
      if p.name in engines {
        CloseEngine(engines[p.name].engine);
        engines := engines - {p.name};
      }
      if p.plan.None? {
        return None;
      }
      engine := Build(p.plan.value, p.name, table);
      if engine.None? {
        return None;
      }
      engines := engines[p.name := Cached(p.generation, engine.value)];
    }

    method CloseEngine(e: Engine)
      modifies table
      ensures table.trace == old(table.trace) + CloseTrace(e) && table.next == old(table.next)
    {
      if e.open {
        table.Close(e.handle);
      }
    }

    method DropEngine(name: string)
      modifies this, table
      ensures Next(old(View()), Delete(name), View())
      ensures engines == old(engines) - {name}
      ensures table.trace == old(table.trace)
                + (if name in old(engines) && old(engines)[name].engine.open
                   then [Closed(old(engines)[name].engine.handle)] else [])
    {
      if name in engines {
        CloseEngine(engines[name].engine);
        engines := engines - {name};
      }
    }

    /** The cycle of the cached engine; its rotation replaces the store's handle or loses it. */
    method RunCycle(name: string, w: Work)
      modifies this, table
      ensures Next(old(View()), Cycle(name, w), View())
      ensures engines.Keys == old(engines).Keys
      ensures forall other | other in engines && other != name :: engines[other] == old(engines)[other]
      ensures name in engines ==>
                && engines[name].generation == old(engines)[name].generation
                && engines[name].engine.path == old(engines)[name].engine.path
    {
      if name !in engines || !Rotates(engines[name].engine, w) {
        return;
      }
      var e := engines[name];
      table.Close(e.engine.handle);
      if Rotation(e.engine, w).st.open {
        var handle := table.Open(name, e.engine.path);
        engines := engines[name := e.(engine := e.engine.(handle := handle))];
      } else {
        engines := engines[name := e.(engine := e.engine.(open := false))];
      }
    }

    /** A whole reconcile: forget the engine of a policy that is gone, or run a cycle of the policy's
        engine, if there is one. The engine stays cached whatever the cycle returns. */
    method Reconcile(name: string, found: Option<Policy>, w: Work)
      requires found.Some? ==> found.value.name == name
      modifies this, table
      ensures found.None? ==> Next(old(View()), Delete(name), View())
      ensures found.Some? ==>
                exists mid :: Next(old(View()), Ensure(found.value), mid) && Next(mid, Cycle(name, w), View())
    {
      if found.None? {
        DropEngine(name);
        return;
      }
      var engine := EngineFor(found.value);
      ghost var mid := View();
      if engine.Some? {
        RunCycle(name, w);
      } else {
        NoEngine(old(View()), found.value, mid);
      }
      assert Next(mid, Cycle(name, w), View());
    }
  }

  datatype Event = Ensure(p: Policy) | Cycle(name: string, w: Work) | Delete(name: string)

  /** One step: an engine looked up or built, a cycle run, an engine dropped. */
  ghost predicate Next(s: Cache, e: Event, s': Cache) {
    match e
    case Delete(name) => s' == Dropped(s, name)
    case Cycle(name, w) => s' == Cycled(s, name, w)
    case Ensure(p) =>
      if Hit(s, p) then s' == s else
      var d := Dropped(s, p.name);
      if p.plan.None? then s' == d else
      var plan := p.plan.value;
      && s'.trace == d.trace + BuildTrace(p.name, d.next, plan)
      && s'.next == d.next + (if OpensStore(plan) then 1 else 0)
      && if Buildable(plan)
         then p.name in s'.engines && s'.engines == d.engines[p.name := s'.engines[p.name]]
              && s'.engines[p.name].generation == p.generation && s'.engines[p.name].engine.open
              && s'.engines[p.name].engine.handle == d.next && s'.engines[p.name].engine.path == plan.storePath
         else s'.engines == d.engines
  }

  /** Without an engine of the policy's generation none of the policy is cached. */
  lemma NoEngine(s: Cache, p: Policy, s': Cache)
    requires Next(s, Ensure(p), s') && !Hit(s', p)
    ensures p.name !in s'.engines
  {
    hide Buildable, OpensStore, BuildTrace;
  }

  /** The store files open after these operations, with their owners. */
  function OpenFiles(trace: seq<Io>): map<nat, Io> {
    if trace == [] then map[] else
    var before, io := OpenFiles(trace[..|trace| - 1]), trace[|trace| - 1];
    if io.Opened? then before[io.handle := io] else before - {io.handle}
  }

  /** No handle is opened twice or closed when it is not open, and a store is opened only when its owner
      has none open. So every handle is closed at most once, and a replaced store is closed before its
      successor opens. */
  predicate Orderly(trace: seq<Io>) {
    trace == [] ||
    (&& Orderly(trace[..|trace| - 1])
     && var open, io := OpenFiles(trace[..|trace| - 1]), trace[|trace| - 1];
        if io.Closed? then io.handle in open
        else (forall i | 0 <= i < |trace| - 1 :: trace[i].handle != io.handle)
             && (forall h | h in open :: open[h].Opened? ==> open[h].owner != io.owner))
  }

  /** The files open are exactly those of the cached engines that have not lost their handle. */
  predicate Matches(s: Cache) {
    && (forall name | name in s.engines && s.engines[name].engine.open ::
          var e := s.engines[name].engine;
          e.handle in OpenFiles(s.trace) && OpenFiles(s.trace)[e.handle] == Opened(name, e.handle, e.path))
    && (forall h | h in OpenFiles(s.trace) ::
          var io := OpenFiles(s.trace)[h];
          && io.Opened? && io.owner in s.engines
          && s.engines[io.owner].engine.open && s.engines[io.owner].engine.handle == h)
  }

  predicate Inv(s: Cache) {
    && Orderly(s.trace) && Matches(s)
    && forall i | 0 <= i < |s.trace| :: s.trace[i].handle < s.next
  }

  lemma OpenSnoc(trace: seq<Io>, io: Io)
    ensures OpenFiles(trace + [io])
         == if io.Opened? then OpenFiles(trace)[io.handle := io] else OpenFiles(trace) - {io.handle}
    ensures Orderly(trace + [io]) <==>
              && Orderly(trace)
              && if io.Closed? then io.handle in OpenFiles(trace)
                 else (forall i | 0 <= i < |trace| :: trace[i].handle != io.handle)
                      && (forall h | h in OpenFiles(trace) ::
                            OpenFiles(trace)[h].Opened? ==> OpenFiles(trace)[h].owner != io.owner)
  {
    assert (trace + [io])[..|trace|] == trace;
  }

  lemma {:induction false} OpenAreTraced(trace: seq<Io>)
    ensures forall h | h in OpenFiles(trace) :: OpenFiles(trace)[h].Opened? && OpenFiles(trace)[h].handle == h
    ensures forall h | h in OpenFiles(trace) :: exists i :: 0 <= i < |trace| && trace[i].handle == h
  {
    if trace != [] {
      OpenAreTraced(trace[..|trace| - 1]);
      assert trace == trace[..|trace| - 1] + [trace[|trace| - 1]];
    }
  }

  /** The engine of a policy loses its handle. */
  function Shut(s: Cache, name: string): Cache
    requires name in s.engines
  {
    var e := s.engines[name];
    s.(engines := s.engines[name := e.(engine := e.engine.(open := false))], trace := s.trace + CloseTrace(e.engine))
  }

  lemma ShutInv(s: Cache, name: string)
    requires Inv(s) && name in s.engines
    ensures Inv(Shut(s, name))
  {
    var e := s.engines[name].engine;
    if e.open {
      OpenSnoc(s.trace, Closed(e.handle));
      assert e.handle in OpenFiles(s.trace);
      OpenAreTraced(s.trace);
    } else {
      assert s.trace + [] == s.trace;
    }
  }

  lemma DropInv(s: Cache, name: string)
    requires Inv(s)
    ensures Inv(Dropped(s, name)) && name !in Dropped(s, name).engines
  {
    hide OpenFiles, Orderly;
    if name in s.engines {
      ShutInv(s, name);
      var d, shut := Dropped(s, name), Shut(s, name);
      assert d.trace == shut.trace && forall n | n in d.engines :: d.engines[n] == shut.engines[n];
      assert forall h | h in OpenFiles(shut.trace) :: OpenFiles(shut.trace)[h].owner != name;
    }
  }

  /** Opening a store under a new handle for a policy that has none open. */
  lemma OpenInv(d: Cache, name: string, path: string, cached: Cached)
    requires Inv(d) && (name in d.engines ==> !d.engines[name].engine.open)
    requires cached.engine.handle == d.next && cached.engine.path == path && cached.engine.open
    ensures Inv(Cache(d.engines[name := cached], d.trace + [Opened(name, d.next, path)], d.next + 1))
    ensures OpenFiles(d.trace + [Opened(name, d.next, path)] + [Closed(d.next)]) == OpenFiles(d.trace)
    ensures Orderly(d.trace + [Opened(name, d.next, path)] + [Closed(d.next)])
  {
    var start := Opened(name, d.next, path);
    OpenSnoc(d.trace, start);
    OpenAreTraced(d.trace);
    OpenSnoc(d.trace + [start], Closed(d.next));
    hide OpenFiles, Orderly;
    assert d.next !in OpenFiles(d.trace);
  }

  /** A build keeps the invariant, whether it succeeds or fails with the store open. */
  lemma BuildInv(d: Cache, p: Policy, s': Cache)
    requires Inv(d) && p.name !in d.engines && p.plan.Some? && !Hit(d, p)
    requires Next(d, Ensure(p), s')
    ensures Inv(s')
  {
    var plan := p.plan.value;
    if Buildable(plan) {
      OpenInv(d, p.name, plan.storePath, s'.engines[p.name]);
    } else if OpensStore(plan) {
      OpenInv(d, p.name, plan.storePath, Cached(0, Engine(d.next, plan.storePath, true, map[])));
      hide OpenFiles, Orderly;
      assert s'.trace == d.trace + [Opened(p.name, d.next, plan.storePath)] + [Closed(d.next)];
    } else {
      assert d.trace + [] == d.trace;
    }
  }

  /** A cycle closes the handle before it opens the next one. */
  lemma CycleInv(s: Cache, name: string, w: Work)
    requires Inv(s)
    ensures Inv(Cycled(s, name, w))
  {
    hide OpenFiles, Orderly, Matches, Rotation;
    if name in s.engines && Rotates(s.engines[name].engine, w) {
      var e := s.engines[name];
      var d := Shut(s, name);
      ShutInv(s, name);
      OpenInv(d, name, e.engine.path, e.(engine := e.engine.(handle := s.next)));
      assert d.engines[name := e.(engine := e.engine.(handle := s.next))]
          == s.engines[name := e.(engine := e.engine.(handle := s.next))];
    }
  }

  lemma NextInv(s: Cache, e: Event, s': Cache)
    requires Inv(s) && Next(s, e, s')
    ensures Inv(s')
  {
    hide Inv, Cycled, Buildable, OpensStore, BuildTrace;
    match e
    case Delete(name) => DropInv(s, name);
    case Cycle(name, w) => CycleInv(s, name, w);
    case Ensure(p) =>
      if !Hit(s, p) {
        DropInv(s, p.name);
        if p.plan.Some? {
          BuildInv(Dropped(s, p.name), p, s');
        }
      }
  }

  const EMPTY := Cache(map[], [], 0)

  /** A run of the reconciler: the states between its events. */
  ghost predicate IsRun(states: seq<Cache>, events: seq<Event>) {
    && |states| == |events| + 1 && states[0] == EMPTY
    && forall i | 0 <= i < |events| :: Next(states[i], events[i], states[i + 1])
  }

  lemma {:induction false} RunInv(states: seq<Cache>, events: seq<Event>, i: nat)
    requires IsRun(states, events) && i <= |events|
    ensures Inv(states[i])
  {
    if i > 0 {
      RunInv(states, events, i - 1);
      assert Next(states[i - 1], events[i - 1], states[i]);
      NextInv(states[i - 1], events[i - 1], states[i]);
    }
  }

  lemma {:induction false} OrderlyPrefix(trace: seq<Io>, k: nat)
    requires Orderly(trace) && k <= |trace|
    ensures Orderly(trace[..k])
    decreases |trace|
  {
    if k == |trace| {
      assert trace[..k] == trace;
    } else {
      OrderlyPrefix(trace[..|trace| - 1], k);
      assert trace[..|trace| - 1][..k] == trace[..k];
    }
  }

  /** In an orderly trace an owner never has two files open. */
  lemma {:induction false} OnePerOwner(trace: seq<Io>)
    requires Orderly(trace)
    ensures forall g, h | g in OpenFiles(trace) && h in OpenFiles(trace) && g != h ::
              && OpenFiles(trace)[g].Opened? && OpenFiles(trace)[h].Opened?
              && OpenFiles(trace)[g].owner != OpenFiles(trace)[h].owner
  {
    OpenAreTraced(trace);
    if trace != [] {
      var init := trace[..|trace| - 1];
      OnePerOwner(init);
      OpenAreTraced(init);
      assert trace == init + [trace[|trace| - 1]];
    }
  }

  /** A rotation gave up its handle: it failed at closing, renaming or creating the file. */
  predicate GaveUp(r: Rotated) {
    r.err == Some(CloseFailed) || r.err == Some(RenameFailed) || r.err == Some(CreateFailed)
  }

  /** Since the policy's engine was built, one of its rotations gave up the handle. */
  ghost predicate LostSinceBuild(states: seq<Cache>, events: seq<Event>, i: nat, name: string)
    requires |states| == |events| + 1 && i <= |events|
  {
    i > 0 &&
    var s, e := states[i - 1], events[i - 1];
    match e
    case Ensure(p) => (p.name != name || Hit(s, p)) && LostSinceBuild(states, events, i - 1, name)
    case Delete(n) => n != name && LostSinceBuild(states, events, i - 1, name)
    case Cycle(n, w) =>
      || LostSinceBuild(states, events, i - 1, name)
      || (n == name && name in s.engines && GaveUp(Rotation(s.engines[name].engine, w)))
  }

  /** What a cycle's rotation means for the handle. */
  lemma RotationHandle(e: Engine, w: Work)
    ensures Rotates(e, w) ==> (Rotation(e, w).st.open <==> !GaveUp(Rotation(e, w)))
    ensures e.open && !Rotates(e, w) ==> !GaveUp(Rotation(e, w))
  {
    hide RotationRecord, ArchiveName, SealSpec, Elapsed, Content;
  }

  lemma HandleStep(s: Cache, e: Event, s': Cache, name: string)
    requires Next(s, e, s') && name in s'.engines
    ensures match e
            case Ensure(p) =>
              if p.name == name && !Hit(s, p) then s'.engines[name].engine.open
              else name in s.engines && s'.engines[name].engine == s.engines[name].engine
            case Delete(n) => n != name && name in s.engines && s'.engines[name].engine == s.engines[name].engine
            case Cycle(n, w) =>
              && name in s.engines
              && (s'.engines[name].engine.open <==>
                    s.engines[name].engine.open && !(n == name && GaveUp(Rotation(s.engines[name].engine, w))))
  {
    hide Rotation, Rotates, GaveUp, Buildable, OpensStore, BuildTrace;
    if e.Cycle? && e.name in s.engines {
      RotationHandle(s.engines[e.name].engine, e.w);
    }
  }

  /** When a cycle's rotation is due, the handle is closed, and the store goes on with a new one for the same
      file unless closing, renaming or creating the file fails; otherwise nothing happens to the handle. */
  lemma CycledMeans(s: Cache, name: string, w: Work)
    requires name in s.engines && s.engines[name].engine.open
    ensures var e, s' := s.engines[name].engine, Cycled(s, name, w);
            var due := w.rotateAfter > 0 && w.st.count != 0 && w.st.firstAt != 0
                       && Elapsed(w.cy.rotateAt, w.st.firstAt) >= w.rotateAfter;
            var fails := w.cy.rotateFault.CloseFault? || w.cy.rotateFault.RenameFault? || w.cy.rotateFault.CreateFault?
                         || e.path !in w.st.disk;
            && (!due ==> s' == s)
            && (due && fails ==> s'.trace == s.trace + [Closed(e.handle)] && !s'.engines[name].engine.open)
            && (due && !fails ==>
                  && s'.trace == s.trace + [Closed(e.handle)] + [Opened(name, s.next, e.path)]
                  && s'.engines[name].engine == e.(handle := s.next))
  {
    hide RotationRecord, ArchiveName, SealSpec;
  }

  /** A cached engine holds its file exactly when no rotation since its build gave up the handle. */
  lemma {:induction false} HeldUnlessLost(states: seq<Cache>, events: seq<Event>, i: nat, name: string)
    requires IsRun(states, events) && i <= |events| && name in states[i].engines
    ensures states[i].engines[name].engine.open <==> !LostSinceBuild(states, events, i, name)
  {
    hide GaveUp, Rotation, Next;
    assert i > 0;
    assert Next(states[i - 1], events[i - 1], states[i]);
    HandleStep(states[i - 1], events[i - 1], states[i], name);
    if name in states[i - 1].engines {
      HeldUnlessLost(states, events, i - 1, name);
    }
  }

  /** Event `k` is the last lookup of this policy before event `i`. */
  predicate LastEnsure(events: seq<Event>, i: nat, name: string, k: nat) {
    && k < i <= |events| && events[k].Ensure? && events[k].p.name == name
    && forall m | k < m < i :: !(events[m].Ensure? && events[m].p.name == name)
  }

  /** As in the cluster, a policy's generation determines its spec. */
  predicate SpecByGeneration(events: seq<Event>) {
    forall i, k | 0 <= i < |events| && 0 <= k < |events| && events[i].Ensure? && events[k].Ensure? ::
      events[i].p.name == events[k].p.name && events[i].p.generation == events[k].p.generation ==>
        events[i].p.plan == events[k].p.plan
  }

  /** A cached engine is that of the policy as last looked up: of its generation, and on its plan's file. */
  lemma {:induction false} CachedIsLatest(states: seq<Cache>, events: seq<Event>, i: nat, name: string) returns (k: nat)
    requires IsRun(states, events) && i <= |events| && name in states[i].engines
    ensures LastEnsure(events, i, name, k)
    ensures states[i].engines[name].generation == events[k].p.generation
    ensures SpecByGeneration(events) ==>
              && events[k].p.plan.Some? && Buildable(events[k].p.plan.value)
              && states[i].engines[name].engine.path == events[k].p.plan.value.storePath
  {
    hide Rotation, Rotates, Buildable, OpensStore, BuildTrace, SpecByGeneration;
    var s, e := states[i - 1], events[i - 1];
    assert Next(s, e, states[i]);
    if e.Ensure? && e.p.name == name && !Hit(s, e.p) {
      k := i - 1;
    } else {
      var last := CachedIsLatest(states, events, i - 1, name);
      if e.Ensure? && e.p.name == name {
        k := i - 1;
        SameSpec(events, last, k);
      } else {
        k := last;
      }
    }
  }

  lemma SameSpec(events: seq<Event>, i: nat, k: nat)
    requires i < |events| && k < |events| && events[i].Ensure? && events[k].Ensure?
    requires events[i].p.name == events[k].p.name && events[i].p.generation == events[k].p.generation
    ensures SpecByGeneration(events) ==> events[i].p.plan == events[k].p.plan
  {
  }

  /** And a policy that was last looked up with a plan that can be built, and not deleted since, is cached. */
  lemma {:induction false} EnsuredIsCached(states: seq<Cache>, events: seq<Event>, i: nat, name: string, k: nat)
    requires IsRun(states, events) && LastEnsure(events, i, name, k)
    requires events[k].p.plan.Some? && Buildable(events[k].p.plan.value)
    requires forall m | k < m < i :: !(events[m].Delete? && events[m].name == name)
    ensures name in states[i].engines && states[i].engines[name].generation == events[k].p.generation
  {
    hide Rotation, Rotates, Buildable, OpensStore, BuildTrace;
    assert Next(states[i - 1], events[i - 1], states[i]);
    if k < i - 1 {
      EnsuredIsCached(states, events, i - 1, name, k);
    }
  }

  /** Engine cache safety, over every sequence of lookups, cycles and deletions. The open store files are
      those of the cached engines, except of engines a failed rotation left without a handle since they
      were built; at every moment in between no policy has two files open. */
  lemma CacheSafety(states: seq<Cache>, events: seq<Event>, i: nat, k: nat)
    requires IsRun(states, events) && i <= |events| && k <= |states[i].trace|
    ensures var open := OpenFiles(states[i].trace);
            && Orderly(states[i].trace)
            && (forall h | h in open ::
                  && open[h].Opened? && open[h].owner in states[i].engines
                  && !LostSinceBuild(states, events, i, open[h].owner)
                  && states[i].engines[open[h].owner].engine.handle == h
                  && states[i].engines[open[h].owner].engine.path == open[h].path)
            && (forall name | name in states[i].engines && !LostSinceBuild(states, events, i, name) ::
                  var e := states[i].engines[name].engine;
                  e.handle in open && open[e.handle] == Opened(name, e.handle, e.path))
    ensures var open := OpenFiles(states[i].trace[..k]);
            forall g, h | g in open && h in open && g != h ::
              open[g].Opened? && open[h].Opened? && open[g].owner != open[h].owner
  {
    RunInv(states, events, i);
    OrderlyPrefix(states[i].trace, k);
    OnePerOwner(states[i].trace[..k]);
    hide OpenFiles, Orderly, IsRun, LostSinceBuild;
    forall name | name in states[i].engines
      ensures states[i].engines[name].engine.open <==> !LostSinceBuild(states, events, i, name)
    {
      HeldUnlessLost(states, events, i, name);
    }
  }

  /** No store file is open twice. */
  predicate SingleWriters(open: map<nat, Io>) {
    forall g, h | g in open && h in open && g != h :: open[g].Opened? && open[h].Opened? && open[g].path != open[h].path
  }

  predicate Unopened(open: map<nat, Io>, path: string) {
    forall h | h in open :: open[h].Opened? && open[h].path != path
  }

  /** The engine of another policy holds the file. */
  predicate HeldByOther(s: Cache, name: string, path: string) {
    exists other :: other in s.engines && other != name
                    && s.engines[other].engine.open && s.engines[other].engine.path == path
  }

  /** The event builds an engine on a file that the engine of another policy holds. */
  predicate SecondWriter(s: Cache, e: Event) {
    && e.Ensure? && !Hit(s, e.p) && e.p.plan.Some? && Buildable(e.p.plan.value)
    && HeldByOther(s, e.p.name, e.p.plan.value.storePath)
  }

  /** Opening one more file makes a second writer exactly if the file is already open. */
  lemma OneMoreWriter(trace: seq<Io>, io: Io)
    requires io.Opened? && SingleWriters(OpenFiles(trace)) && io.handle !in OpenFiles(trace)
    ensures SingleWriters(OpenFiles(trace + [io])) <==> Unopened(OpenFiles(trace), io.path)
  {
    OpenSnoc(trace, io);
    hide OpenFiles, Orderly;
    var open, open' := OpenFiles(trace), OpenFiles(trace + [io]);
    forall h | h in open && !(open[h].Opened? && open[h].path != io.path)
      ensures !SingleWriters(open')
    {
      assert open'[h] == open[h] && open'[io.handle] == io;
    }
  }

  lemma OneWriterFewer(trace: seq<Io>, handle: nat)
    requires SingleWriters(OpenFiles(trace))
    ensures SingleWriters(OpenFiles(trace + [Closed(handle)]))
  {
    OpenSnoc(trace, Closed(handle));
    hide OpenFiles, Orderly;
  }

  lemma DropWriter(s: Cache, name: string)
    requires Inv(s) && SingleWriters(OpenFiles(s.trace))
    ensures SingleWriters(OpenFiles(Dropped(s, name).trace)) && Inv(Dropped(s, name))
  {
    DropInv(s, name);
    hide OpenFiles, Orderly, Inv;
    if name in s.engines && s.engines[name].engine.open {
      OneWriterFewer(s.trace, s.engines[name].engine.handle);
    } else {
      assert s.trace + [] == s.trace;
    }
  }

  /** A file is open exactly if the engine of another policy holds it. */
  lemma HeldFiles(d: Cache, name: string, path: string)
    requires Inv(d) && (name in d.engines ==> !d.engines[name].engine.open)
    ensures Unopened(OpenFiles(d.trace), path) <==> !HeldByOther(d, name, path)
    ensures d.next !in OpenFiles(d.trace)
  {
    OpenAreTraced(d.trace);
    hide OpenFiles, Orderly;
    var open := OpenFiles(d.trace);
    if HeldByOther(d, name, path) {
      var n :| n in d.engines && n != name && d.engines[n].engine.open && d.engines[n].engine.path == path;
      assert d.engines[n].engine.handle in open;
    } else {
      forall h | h in open
        ensures open[h].Opened? && open[h].path != path
      {
        assert open[h] == Opened(open[h].owner, h, d.engines[open[h].owner].engine.path);
      }
    }
  }

  /** The exact condition for a second writer of a file, one step at a time. */
  lemma SecondWriterIff(s: Cache, e: Event, s': Cache)
    requires Inv(s) && Next(s, e, s') && SingleWriters(OpenFiles(s.trace))
    ensures SingleWriters(OpenFiles(s'.trace)) <==> !SecondWriter(s, e)
  {
    hide OpenFiles, Orderly, Matches, SingleWriters, Rotation;
    match e
    case Delete(name) => DropWriter(s, name);
    case Cycle(name, w) => CycleWriter(s, name, w);
    case Ensure(p) =>
      if !Hit(s, p) {
        DropWriter(s, p.name);
        if p.plan.Some? {
          BuildWriter(Dropped(s, p.name), p, s');
          SameRivals(s, p);
        }
      }
  }

  lemma SameRivals(s: Cache, p: Policy)
    requires !Hit(s, p)
    ensures SecondWriter(s, Ensure(p)) <==> SecondWriter(Dropped(s, p.name), Ensure(p))
  {
    hide Buildable;
    var d := Dropped(s, p.name);
    assert forall n | n in d.engines :: d.engines[n] == s.engines[n];
    assert forall n | n in s.engines && n != p.name :: n in d.engines;
  }

  lemma BuildWriter(d: Cache, p: Policy, s': Cache)
    requires Inv(d) && p.name !in d.engines && p.plan.Some? && SingleWriters(OpenFiles(d.trace))
    requires Next(d, Ensure(p), s')
    ensures SingleWriters(OpenFiles(s'.trace)) <==> !SecondWriter(d, Ensure(p))
  {
    var plan := p.plan.value;
    HeldFiles(d, p.name, plan.storePath);
    hide OpenFiles, Orderly, Matches, SingleWriters;
    if Buildable(plan) {
      OneMoreWriter(d.trace, Opened(p.name, d.next, plan.storePath));
    } else if OpensStore(plan) {
      OpenInv(d, p.name, plan.storePath, Cached(0, Engine(d.next, plan.storePath, true, map[])));
      assert s'.trace == d.trace + [Opened(p.name, d.next, plan.storePath)] + [Closed(d.next)];
    } else {
      assert d.trace + [] == d.trace;
    }
  }

  /** A rotation reopens the file its own engine held, so it makes no second writer. */
  lemma CycleWriter(s: Cache, name: string, w: Work)
    requires Inv(s) && SingleWriters(OpenFiles(s.trace))
    ensures SingleWriters(OpenFiles(Cycled(s, name, w).trace))
  {
    if name in s.engines && Rotates(s.engines[name].engine, w) {
      var e := s.engines[name].engine;
      ShutInv(s, name);
      OneWriterFewer(s.trace, e.handle);
      AloneOnFile(s, name);
      HeldFiles(Shut(s, name), name, e.path);
      hide OpenFiles, Orderly, Matches, SingleWriters, Rotation;
      OneMoreWriter(s.trace + [Closed(e.handle)], Opened(name, s.next, e.path));
    }
  }

  lemma AloneOnFile(s: Cache, name: string)
    requires Inv(s) && SingleWriters(OpenFiles(s.trace)) && name in s.engines && s.engines[name].engine.open
    ensures forall n | n in s.engines && n != name && s.engines[n].engine.open ::
              s.engines[n].engine.path != s.engines[name].engine.path
  {
    hide OpenFiles, Orderly;
  }

  /** Over a run: no file is ever open twice between events exactly if no event makes a second writer. */
  lemma {:induction false} SingleWriterIff(states: seq<Cache>, events: seq<Event>, i: nat)
    requires IsRun(states, events) && i <= |events|
    ensures (forall k | 0 <= k <= i :: SingleWriters(OpenFiles(states[k].trace)))
       <==> (forall k | 0 <= k < i :: !SecondWriter(states[k], events[k]))
  {
    hide Inv, Next, SingleWriters, SecondWriter;
    if i == 0 {
      NoWriters();
    } else {
      SingleWriterIff(states, events, i - 1);
      RunInv(states, events, i - 1);
      assert Next(states[i - 1], events[i - 1], states[i]);
      if SingleWriters(OpenFiles(states[i - 1].trace)) {
        SecondWriterIff(states[i - 1], events[i - 1], states[i]);
      }
    }
  }

  lemma NoWriters()
    ensures SingleWriters(OpenFiles([]))
  {
  }

  /** Every policy keeps to its own store file: the condition on the policies. */
  predicate PlansDistinct(events: seq<Event>) {
    forall i, j | 0 <= i < |events| && 0 <= j < |events| && Plans(events[i]) && Plans(events[j]) ::
      events[i].p.plan.value.storePath == events[j].p.plan.value.storePath ==> events[i].p.name == events[j].p.name
  }

  predicate Plans(e: Event) { e.Ensure? && e.p.plan.Some? }

  /** Event `k` is of this policy and asks for this store file. */
  predicate AsksFor(events: seq<Event>, k: nat, name: string, path: string) {
    k < |events| && Plans(events[k]) && events[k].p.name == name && events[k].p.plan.value.storePath == path
  }

  lemma {:induction false} EngineFromPlan(states: seq<Cache>, events: seq<Event>, i: nat, name: string) returns (k: nat)
    requires IsRun(states, events) && i <= |events| && name in states[i].engines
    ensures AsksFor(events, k, name, states[i].engines[name].engine.path)
  {
    hide Rotation, Buildable, OpensStore, BuildTrace;
    var s, e := states[i - 1], events[i - 1];
    assert Next(s, e, states[i]);
    if e.Ensure? && e.p.name == name && !Hit(s, e.p) {
      k := i - 1;
    } else {
      k := EngineFromPlan(states, events, i - 1, name);
    }
  }

  /** Every file opened in a run is the one its owner's policy asked for. */
  lemma {:induction false} OpenedFromPlan(states: seq<Cache>, events: seq<Event>, i: nat, j: nat) returns (k: nat)
    requires IsRun(states, events) && i <= |events| && j < |states[i].trace| && states[i].trace[j].Opened?
    ensures AsksFor(events, k, states[i].trace[j].owner, states[i].trace[j].path)
  {
    hide Rotation, Buildable, OpensStore;
    var s, e := states[i - 1], events[i - 1];
    assert Next(s, e, states[i]);
    TraceGrows(s, e, states[i], j);
    if j < |s.trace| {
      k := OpenedFromPlan(states, events, i - 1, j);
    } else if e.Ensure? {
      k := i - 1;
    } else {
      k := EngineFromPlan(states, events, i - 1, e.name);
    }
  }

  lemma TraceGrows(s: Cache, e: Event, s': Cache, j: nat)
    requires Next(s, e, s') && j < |s'.trace| && s'.trace[j].Opened?
    ensures j < |s.trace| ==> s.trace[j] == s'.trace[j]
    ensures j >= |s.trace| ==>
              match e
              case Ensure(p) =>
                p.plan.Some? && s'.trace[j].owner == p.name && s'.trace[j].path == p.plan.value.storePath
              case Cycle(n, w) =>
                n in s.engines && s'.trace[j].owner == n && s'.trace[j].path == s.engines[n].engine.path
              case Delete(n) => false
  {
    hide Rotation, Buildable, OpensStore;
  }

  lemma {:induction false} OpenInTrace(trace: seq<Io>, h: nat) returns (i: nat)
    requires h in OpenFiles(trace)
    ensures i < |trace| && trace[i] == OpenFiles(trace)[h] && trace[i].Opened?
  {
    var init, io := trace[..|trace| - 1], trace[|trace| - 1];
    if io.Opened? && io.handle == h {
      i := |trace| - 1;
    } else {
      i := OpenInTrace(init, h);
    }
  }

  /** Single writer: when no two policies ask for the same store file, none is ever open twice, at any
      moment. The program does not check the policies for that. */
  lemma SingleWriter(states: seq<Cache>, events: seq<Event>, i: nat, k: nat)
    requires IsRun(states, events) && i <= |events| && k <= |states[i].trace| && PlansDistinct(events)
    ensures SingleWriters(OpenFiles(states[i].trace[..k]))
  {
    RunInv(states, events, i);
    OrderlyPrefix(states[i].trace, k);
    OnePerOwner(states[i].trace[..k]);
    hide OpenFiles, Orderly, IsRun, Inv;
    var trace := states[i].trace[..k];
    forall g, h | g in OpenFiles(trace) && h in OpenFiles(trace) && g != h
      ensures OpenFiles(trace)[g].Opened? && OpenFiles(trace)[h].Opened?
      ensures OpenFiles(trace)[g].path != OpenFiles(trace)[h].path
    {
      var a := OpenInTrace(trace, g);
      var b := OpenInTrace(trace, h);
      var x := OpenedFromPlan(states, events, i, a);
      var y := OpenedFromPlan(states, events, i, b);
    }
  }

  /** With a shared path two policies do hold the same file open at once. */
  lemma SharedPathTwoWriters(plan: Plan) returns (states: seq<Cache>, events: seq<Event>)
    requires Buildable(plan)
    ensures IsRun(states, events) && |events| == 2
    ensures var open := OpenFiles(states[2].trace);
            exists g, h :: g in open && h in open && g != h
                           && open[g].Opened? && open[h].Opened? && open[g].path == open[h].path
  {
    var p, q := Policy("a", 1, Some(plan)), Policy("b", 1, Some(plan));
    var e0, e1 := Engine(0, plan.storePath, true, map[]), Engine(1, plan.storePath, true, map[]);
    var o0, o1 := Opened("a", 0, plan.storePath), Opened("b", 1, plan.storePath);
    var s1 := Cache(map["a" := Cached(1, e0)], [] + [o0], 1);
    var s2 := Cache(s1.engines["b" := Cached(1, e1)], s1.trace + [o1], 2);
    states, events := [EMPTY, s1, s2], [Ensure(p), Ensure(q)];
    OpenSnoc([], o0);
    OpenSnoc(s1.trace, o1);
    assert OpenFiles(s2.trace)[0] == o0 && OpenFiles(s2.trace)[1] == o1;
    hide OpenFiles, Buildable, Orderly;
    FirstBuild(EMPTY, p, e0);
    FirstBuild(s1, q, e1);
  }

  /** A policy without an engine, and a plan that can be built. */
  lemma FirstBuild(s: Cache, p: Policy, e: Engine)
    requires p.name !in s.engines && p.plan.Some? && Buildable(p.plan.value)
    requires e.handle == s.next && e.path == p.plan.value.storePath && e.open
    ensures Next(s, Ensure(p), Cache(s.engines[p.name := Cached(p.generation, e)],
                                        s.trace + [Opened(p.name, s.next, e.path)], s.next + 1))
  {
    hide Wireable;
  }
}
