/** process/process.go: the table of live processors and services, keyed by
    snowflake ids. A handle stays with its owner after the process has left the
    table, so Terminate can be called on it again. */
module Registry {
  import Snow = Snowflake

  /** multi is a processor's executor count (0 when it was asked for none or fewer);
      a service that has not been started has no signal channel. */
  datatype Kind = Processor(multi: nat) | Service(started: bool)

  datatype Handle = Handle(kind: Kind, killing: bool)

  datatype Reg = Reg(
    seed: Snow.State,
    handles: map<nat, Handle>, // every process ever spawned
    table: set<nat>,           // _processors
    spawned: nat,              // history: how many spawns
    ended: nat,                // history: how many terminations left the table
    spawnedWeight: nat,        // history: their coroutines
    endedWeight: nat
  )

  function Weight(k: Kind): nat {
    match k
    case Processor(multi) => multi
    case Service(_) => 1
  }

  /** The steps; each is atomic under the registry's lock. A tick is the clock's
      readings for the id. Other: some other part of the program takes an id. */
  datatype Step =
    | SpawnM(tick: Snow.Tick, multi: int)
    | SpawnS(tick: Snow.Tick)
    | Start(pid: nat)
    | Terminate(pid: nat)
    | Other(tick: Snow.Tick)

  function Spawned(r: Reg, t: Snow.Tick, k: Kind): Reg {
    var seed := Snow.Next(r.seed, t.now, t.later);
    var pid := Snow.IdOf(seed);
    Reg(seed, r.handles[pid := Handle(k, false)], r.table + {pid},
        r.spawned + 1, r.ended, r.spawnedWeight + Weight(k), r.endedWeight)
  }

  /** Terminate on a handle: at most the first call removes. A service that was
      never started has a nil signal channel; its first Terminate waits on it for
      ever, with the flag already set, and never reaches `remove`. */
  function Terminated(r: Reg, pid: nat): Reg {
    if pid !in r.handles || r.handles[pid].killing then
      r
    else
      var h := r.handles[pid];
      var r' := r.(handles := r.handles[pid := h.(killing := true)]);
      if h.kind == Service(false) then r'
      else r'.(table := r.table - {pid}, ended := r.ended + 1, endedWeight := r.endedWeight + Weight(h.kind))
  }

  function Do(r: Reg, s: Step): Reg {
    match s
    case SpawnM(t, multi) => Spawned(r, t, Processor(if multi > 0 then multi else 0))
    case SpawnS(t) => Spawned(r, t, Service(false))
    case Start(pid) =>
      if pid in r.handles && r.handles[pid].kind.Service? then
        r.(handles := r.handles[pid := Handle(Service(true), r.handles[pid].killing)])
      else
        r
    case Terminate(pid) => Terminated(r, pid)
    case Other(t) => r.(seed := Snow.Next(r.seed, t.now, t.later))
  }

  function Run(r: Reg, steps: seq<Step>): Reg
    decreases |steps|
  {
    if steps == [] then r else Run(Do(r, steps[0]), steps[1..])
  }

  // ---- The two counts ----

  function ProcessNum(r: Reg): nat {
    |r.table|
  }

  /** The sum of f over a set. */
  ghost function Sum(s: set<nat>, f: map<nat, Handle>): nat
    requires s <= f.Keys
  {
    if s == {} then
      0
    else
      var x :| x in s;
      Weight(f[x].kind) + Sum(s - {x}, f)
  }

  lemma {:induction false} SumWithout(s: set<nat>, f: map<nat, Handle>, x: nat)
    requires s <= f.Keys && x in s
    ensures Sum(s, f) == Weight(f[x].kind) + Sum(s - {x}, f)
    decreases s
  {
    var y :| y in s && Sum(s, f) == Weight(f[y].kind) + Sum(s - {y}, f);
    if y != x {
      SumWithout(s - {y}, f, x);
      SumWithout(s - {x}, f, y);
      assert s - {y} - {x} == s - {x} - {y};
    }
  }

  lemma {:induction false} SumCongruent(s: set<nat>, f: map<nat, Handle>, g: map<nat, Handle>)
    requires s <= f.Keys && s <= g.Keys
    requires forall x | x in s :: Weight(f[x].kind) == Weight(g[x].kind)
    ensures Sum(s, f) == Sum(s, g)
    decreases s
  {
    if s != {} {
      var x :| x in s;
      SumWithout(s, f, x);
      SumWithout(s, g, x);
      SumCongruent(s - {x}, f, g);
    }
  }

  lemma SumWith(s: set<nat>, f: map<nat, Handle>, x: nat, h: Handle)
    requires s <= f.Keys && x !in s
    ensures Sum(s + {x}, f[x := h]) == Weight(h.kind) + Sum(s, f)
  {
    var g := f[x := h];
    SumWithout(s + {x}, g, x);
    assert s + {x} - {x} == s;
    SumCongruent(s, g, f);
  }

  // ---- The registry as an object ----

  class Processes {
    const seed: Snow.Seed
    var handles: map<nat, Handle>
    var table: set<nat> // the keys of _processors
    ghost var spawned: nat
    ghost var ended: nat
    ghost var spawnedWeight: nat
    ghost var endedWeight: nat

    constructor (seed: Snow.Seed)
      ensures this.seed == seed && View() == Reg(seed.At(), map[], {}, 0, 0, 0, 0)
    {
      this.seed, handles, table := seed, map[], {};
      spawned, ended, spawnedWeight, endedWeight := 0, 0, 0, 0;
    }

    ghost function View(): Reg
      reads this, seed
    {
      Reg(seed.At(), handles, table, spawned, ended, spawnedWeight, endedWeight)
    }

    method Register(clock: Snow.Clock, kind: Kind) returns (pid: nat)
      requires Snow.CanTick(seed.At(), clock.ahead)
      modifies this, seed, clock
      ensures View() == Spawned(old(View()), Snow.TickOf(old(seed.At()), old(clock.ahead)), kind)
      ensures pid == Snow.IdOf(View().seed)
    {
      pid := seed.Generate(clock);
      handles := handles[pid := Handle(kind, false)];
      table := table + {pid};
      spawned, spawnedWeight := spawned + 1, spawnedWeight + Weight(kind);
    }

    method SpawnM(clock: Snow.Clock, multi: int) returns (pid: nat)
      requires Snow.CanTick(seed.At(), clock.ahead)
      modifies this, seed, clock
      ensures View() == Do(old(View()), Step.SpawnM(Snow.TickOf(old(seed.At()), old(clock.ahead)), multi))
      ensures pid == Snow.IdOf(View().seed)
    {
      pid := Register(clock, Processor(if multi > 0 then multi else 0));
    }

    method SpawnS(clock: Snow.Clock) returns (pid: nat)
      requires Snow.CanTick(seed.At(), clock.ahead)
      modifies this, seed, clock
      ensures View() == Do(old(View()), Step.SpawnS(Snow.TickOf(old(seed.At()), old(clock.ahead))))
      ensures pid == Snow.IdOf(View().seed)
    {
      pid := Register(clock, Service(false));
    }

    /** Terminate of the process with this id, by whoever holds it; false if the
        caller waits for ever. */
    method Terminate(pid: nat) returns (returned: bool)
      requires pid in handles
      modifies this
      ensures View() == Do(old(View()), Step.Terminate(pid))
      ensures returned == (old(handles)[pid] != Handle(Service(false), false))
    {
      var h := handles[pid];
      if !h.killing {
        handles := handles[pid := h.(killing := true)];
        if h.kind == Service(false) { return false; }
        table := table - {pid};
        ended, endedWeight := ended + 1, endedWeight + Weight(h.kind);
      }
      returned := true;
    }

    method ProcessNum() returns (n: nat)
      ensures n == |View().table|
    {
      n := |table|;
    }

    /** The sum is the same in whatever order `range` visits the table. */
    method CoroutineNum() returns (sum: nat)
      requires table <= handles.Keys
      ensures sum == Sum(table, handles)
    {
      sum := 0;
      var left := table;
      while left != {}
        invariant left <= table
        invariant sum + Sum(left, handles) == Sum(table, handles)
        decreases left
      {
        var pid :| pid in left;
        SumWithout(left, handles, pid);
        match handles[pid].kind {
          case Processor(multi) => sum := sum + multi;
          case Service(_) => sum := sum + 1;
        }
        left := left - {pid};
      }
    }
  }

  // ---- What every run keeps ----

  /** No id has been handed out yet, or none exceeds the last one. */
  ghost predicate IdsBelow(r: Reg) {
    r.seed.seed <= Snow.SEED_MAX &&
    (r.handles == map[] || (Snow.InRange(r.seed) && forall pid | pid in r.handles :: pid <= Snow.IdOf(r.seed)))
  }

  ghost predicate Inv(r: Reg) {
    && IdsBelow(r)
    && r.table <= r.handles.Keys
    && (forall pid | pid in r.handles && !r.handles[pid].killing :: pid in r.table)
    && |r.table| + r.ended == r.spawned
    && Sum(r.table, r.handles) + r.endedWeight == r.spawnedWeight
  }

  /** The clock is sound for this step and its id stays in range. */
  ghost predicate TickOk(r: Reg, t: Snow.Tick) {
    Snow.ClockOk(r.seed, t.now, t.later) && Snow.InRange(Snow.Next(r.seed, t.now, t.later))
  }

  ghost predicate StepOk(r: Reg, s: Step) {
    (s.SpawnM? || s.SpawnS? || s.Other?) ==> TickOk(r, s.tick)
  }

  ghost predicate RunOk(r: Reg, steps: seq<Step>)
    decreases |steps|
  {
    steps == [] || (StepOk(r, steps[0]) && RunOk(Do(r, steps[0]), steps[1..]))
  }

  /** A spawned process gets an id that no process has had before. */
  lemma PidIsFresh(r: Reg, t: Snow.Tick)
    requires IdsBelow(r) && TickOk(r, t)
    ensures Snow.IdOf(Snow.Next(r.seed, t.now, t.later)) !in r.handles
    ensures forall pid | pid in r.handles :: pid <= Snow.IdOf(Snow.Next(r.seed, t.now, t.later))
  {
    if r.handles != map[] {
      Snow.NextIncreases(r.seed, t.now, t.later);
    }
  }

  lemma SpawnKeeps(r: Reg, t: Snow.Tick, k: Kind)
    requires Inv(r) && TickOk(r, t)
    ensures Inv(Spawned(r, t, k))
  {
    var r' := Spawned(r, t, k);
    var pid := Snow.IdOf(r'.seed);
    PidIsFresh(r, t);
    SumWith(r.table, r.handles, pid, Handle(k, false));
  }

  lemma TerminateKeeps(r: Reg, pid: nat)
    requires Inv(r)
    ensures Inv(Terminated(r, pid))
  {
    var r' := Terminated(r, pid);
    if pid in r.handles && !r.handles[pid].killing {
      SumCongruent(r.table, r.handles, r'.handles);
      SumWithout(r.table, r'.handles, pid);
      assert r.handles != map[];
    }
  }

  lemma StepKeeps(r: Reg, s: Step)
    requires Inv(r) && StepOk(r, s)
    ensures Inv(Do(r, s))
  {
    match s
    case SpawnM(t, multi) => SpawnKeeps(r, t, Processor(if multi > 0 then multi else 0));
    case SpawnS(t) => SpawnKeeps(r, t, Service(false));
    case Start(pid) =>
      if pid in r.handles { assert r.handles != map[]; }
      SumCongruent(r.table, r.handles, Do(r, s).handles);
    case Terminate(pid) => TerminateKeeps(r, pid);
    case Other(t) => PidIsFresh(r, t);
  }

  function Initial(seed: nat): Reg {
    Reg(Snow.State(0, seed, 0), map[], {}, 0, 0, 0, 0)
  }

  lemma {:induction false} RunKeeps(r: Reg, steps: seq<Step>)
    requires Inv(r) && RunOk(r, steps)
    ensures Inv(Run(r, steps))
    decreases |steps|
  {
    if steps != [] {
      StepKeeps(r, steps[0]);
      RunKeeps(Do(r, steps[0]), steps[1..]);
    }
  }

  /** Over every run of spawns, starts and terminations, repeated terminations
      included: ProcessNum is the number spawned minus the number that have left, and
      CoroutineNum is the sum of the executors of the processors that have not left
      plus the services that have not. */
  lemma CountsAreExact(seed: nat, steps: seq<Step>)
    requires seed <= Snow.SEED_MAX && RunOk(Initial(seed), steps)
    ensures var r := Run(Initial(seed), steps);
            ProcessNum(r) == r.spawned - r.ended &&
            r.table <= r.handles.Keys && Sum(r.table, r.handles) == r.spawnedWeight - r.endedWeight
  {
    assert Sum({}, map[]) == 0;
    RunKeeps(Initial(seed), steps);
  }

  /** Each process leaves the table at most once: after one Terminate, whether it
      went through or waits for ever, any further one changes nothing. */
  lemma TerminateOnce(r: Reg, pid: nat)
    ensures Terminated(Terminated(r, pid), pid) == Terminated(r, pid)
  {
  }

  /** Once a process is marked, no step of any run takes it out of the table. */
  lemma {:induction false} MarkedStays(r: Reg, pid: nat, steps: seq<Step>)
    requires Inv(r) && RunOk(r, steps) && pid in r.table && r.handles[pid].killing
    ensures pid in Run(r, steps).table
    decreases |steps|
  {
    if steps != [] {
      var s := steps[0];
      StepKeeps(r, s);
      if s.SpawnM? || s.SpawnS? { PidIsFresh(r, s.tick); }
      MarkedStays(Do(r, s), pid, steps[1..]);
    }
  }

  /** The first Terminate of a process leaves it in the table exactly when it is a
      service that was never started; and then it stays there in every run, even if
      it is started or terminated again. */
  lemma UnstartedServiceStays(r: Reg, pid: nat, steps: seq<Step>)
    requires Inv(r) && pid in r.handles && !r.handles[pid].killing
    requires RunOk(Terminated(r, pid), steps)
    ensures pid in Terminated(r, pid).table <==> r.handles[pid].kind == Service(false)
    ensures r.handles[pid].kind == Service(false) ==> pid in Run(Terminated(r, pid), steps).table
  {
    TerminateKeeps(r, pid);
    if r.handles[pid].kind == Service(false) { MarkedStays(Terminated(r, pid), pid, steps); }
  }

  /** What each spawn adds to the two counts. */
  lemma SpawnCounts(r: Reg, t: Snow.Tick, multi: int)
    requires Inv(r) && TickOk(r, t)
    ensures var m := Do(r, SpawnM(t, multi));
            m.table <= m.handles.Keys && |m.table| == |r.table| + 1 &&
            Sum(m.table, m.handles) == Sum(r.table, r.handles) + (if multi > 0 then multi else 0)
    ensures var s := Do(r, SpawnS(t));
            s.table <= s.handles.Keys && |s.table| == |r.table| + 1 &&
            Sum(s.table, s.handles) == Sum(r.table, r.handles) + 1
  {
    var pid := Snow.IdOf(Snow.Next(r.seed, t.now, t.later));
    PidIsFresh(r, t);
    SumWith(r.table, r.handles, pid, Handle(Processor(if multi > 0 then multi else 0), false));
    SumWith(r.table, r.handles, pid, Handle(Service(false), false));
  }

  /** A service that has been started leaves the table at its first Terminate, with its
      one coroutine; a processor always does, with its executors. */
  lemma TerminateCounts(r: Reg, pid: nat)
    requires Inv(r) && pid in r.handles && !r.handles[pid].killing
    ensures r.handles[pid].kind.Service? ==>
              var s := Do(Do(r, Start(pid)), Terminate(pid));
              s.table == r.table - {pid} && s.table <= s.handles.Keys &&
              Sum(s.table, s.handles) == Sum(r.table, r.handles) - 1
    ensures r.handles[pid].kind.Processor? ==>
              var s := Do(r, Terminate(pid));
              s.table == r.table - {pid} && s.table <= s.handles.Keys &&
              Sum(s.table, s.handles) == Sum(r.table, r.handles) - r.handles[pid].kind.multi
  {
    SumWithout(r.table, r.handles, pid);
    SumCongruent(r.table - {pid}, r.handles, Do(Do(r, Start(pid)), Terminate(pid)).handles);
    SumCongruent(r.table - {pid}, r.handles, Do(r, Terminate(pid)).handles);
  }
}
