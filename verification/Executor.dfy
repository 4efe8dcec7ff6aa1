/** process/executor.go: a task queue (a buffered channel) and the loop that runs
    its tasks one after another, each inside errutil.Try
    (utils/errutil/errutil.go:81-102). */
module Executors {
  import opened Wrappers

  /** How a task ends: it returns, it panics, or it calls runtime.Goexit. */
  datatype Ending = Returns | Panics | Exits

  /** A task, told apart from others by its number. */
  datatype Task = Task(id: int, how: Ending)

  /** A func() value, possibly nil. */
  datatype Cell = Nil | Job(task: Task)

  /** queue: what the channel holds. open: boot has not exited yet; on exit the
      channel is closed and set to nil, and `lost` is what it still held. reported:
      the panics handed to ReportError. */
  datatype Exec = Exec(queue: seq<Cell>, terminated: bool, open: bool, ran: seq<Task>, lost: seq<Cell>,
                       reported: seq<Task>)

  const BOOTED := Exec([], false, true, [], [], [])

  function Jobs(q: seq<Cell>): seq<Task> {
    if q == [] then [] else (if q[0].Job? then [q[0].task] else []) + Jobs(q[1..])
  }

  // ---- The atomic steps ----

  function Enqueued(x: Exec, c: Cell): Exec {
    x.(queue := x.queue + [c])
  }

  function Terminated(x: Exec, done: bool): Exec {
    var y := x.(terminated := true);
    if done && x.open then Enqueued(y, Nil) else y
  }

  /** One turn of boot's loop over the received task. */
  function Turn(x: Exec): Exec
    requires x.open && x.queue != []
  {
    var c, rest := x.queue[0], x.queue[1..];
    if x.terminated && c == Nil then x.(queue := [], open := false, lost := rest)
    else if c == Nil then x.(queue := rest)
    else Tried(x.(queue := rest), c.task)
  }

  /** errutil.Try recovers a panic and reports it. Goexit is no panic: it unwinds the
      loop as well, whose deferred function closes the channel. */
  function Tried(x: Exec, t: Task): Exec {
    var y := x.(ran := x.ran + [t]);
    match t.how
    case Returns => y
    case Panics => y.(reported := x.reported + [t])
    case Exits => y.(queue := [], open := false, lost := x.queue)
  }

  /** boot runs until it exits or waits on an empty channel. */
  function Drain(x: Exec): (y: Exec)
    ensures y.open ==> y.queue == []
    decreases |x.queue|
  {
    if x.open && x.queue != [] then Drain(Turn(x)) else x
  }

  // ---- The executor as an object ----

  class Executor {
    const capacity: nat
    var tasks: seq<Cell>
    var terminated: bool
    var open: bool
    ghost var ran: seq<Task>
    ghost var lost: seq<Cell>
    ghost var reported: seq<Task>

    constructor (capacity: nat)
      ensures View() == BOOTED && this.capacity == capacity
    {
      this.capacity, tasks, terminated, open := capacity, [], false, true;
      ran, lost, reported := [], [], [];
    }

    ghost function View(): Exec
      reads this
    {
      Exec(tasks, terminated, open, ran, lost, reported)
    }

    /** A channel send; it blocks (false) while the channel is full, and for ever
        once the channel is nil. */
    method Send(c: Cell) returns (sent: bool)
      modifies this
      ensures sent == (old(open) && |old(tasks)| < capacity)
      ensures View() == if sent then Enqueued(old(View()), c) else old(View())
    {
      sent := open && |tasks| < capacity;
      if sent {
        tasks := tasks + [c];
      }
    }

    method TaskLen() returns (n: nat)
      ensures n == if open then |tasks| else 0
    {
      n := if open then |tasks| else 0;
    }

    /** The flag is set first. The sentinel is sent after it if the channel lives;
        while the channel is full the caller waits with the flag already set. */
    method Terminate() returns (done: bool)
      modifies this
      ensures done == (!old(open) || |old(tasks)| < capacity)
      ensures View() == Terminated(old(View()), done)
    {
      terminated := true;
      if !open { return true; }
      done := Send(Nil);
    }

    /** The deferred function of boot. */
    method Close()
      modifies this
      ensures View() == old(View()).(queue := [], open := false, lost := old(tasks))
    {
      lost := tasks;
      tasks, open := [], false;
    }

    /** errutil.Try(task, nil) with its Catch; false if the goroutine is being unwound. */
    method Try(task: Task) returns (goOn: bool)
      modifies this`ran, this`reported
      ensures goOn == !task.how.Exits? && ran == old(ran) + [task]
      ensures reported == old(reported) + if task.how.Panics? then [task] else []
    {
      ran := ran + [task];
      if task.how.Panics? {
        reported := reported + [task];
      }
      goOn := !task.how.Exits?;
    }

    method Boot()
      modifies this
      ensures View() == Drain(old(View()))
    {
      ghost var start := View();
      while open && tasks != []
        invariant Drain(View()) == Drain(start)
        decreases |tasks|
      {
        ghost var before := View();
        var task := tasks[0];
        tasks := tasks[1..];
        if terminated && task == Nil {
          Close();
          assert View() == Turn(before);
          break;
        }
        if task != Nil {
          var goOn := Try(task.task);
          if !goOn {
            Close();
            assert View() == Turn(before);
            break;
          }
          assert ran == before.ran + [task.task];
        }
        assert View() == Turn(before);
      }
    }
  }

  // ---- Runs ----

  /** Accept: Execute has queued a task (it does so only while the processor is not
      being killed, and Terminate is atomic with respect to it). Flag and Sentinel:
      the two halves of terminate. Work: one turn of the loop. */
  datatype Step = Accept(cell: Cell) | Flag | Sentinel | Work

  predicate Enabled(x: Exec, s: Step) {
    match s
    case Accept(_) => !x.terminated && x.open
    case Flag => !x.terminated
    case Sentinel => x.terminated && x.open
    case Work => x.open && x.queue != []
  }

  function Do(x: Exec, s: Step): Exec
    requires Enabled(x, s)
  {
    match s
    case Accept(c) => Enqueued(x, c)
    case Flag => x.(terminated := true)
    case Sentinel => Enqueued(x, Nil)
    case Work => Turn(x)
  }

  /** Steps that are not possible when they come up do nothing. */
  function Run(x: Exec, steps: seq<Step>): Exec
    decreases |steps|
  {
    if steps == [] then x
    else if Enabled(x, steps[0]) then Run(Do(x, steps[0]), steps[1..])
    else Run(x, steps[1..])
  }

  /** The tasks accepted during a run, in order, nil ones included. */
  function Accepted(x: Exec, steps: seq<Step>): seq<Cell>
    decreases |steps|
  {
    if steps == [] then []
    else if Enabled(x, steps[0]) then
      (if steps[0].Accept? then [steps[0].cell] else []) + Accepted(Do(x, steps[0]), steps[1..])
    else Accepted(x, steps[1..])
  }

  lemma {:induction false} JobsConcat(p: seq<Cell>, q: seq<Cell>)
    ensures Jobs(p + q) == Jobs(p) + Jobs(q)
  {
    if p == [] {
      assert p + q == q;
    } else {
      var tail := p[1..];
      JobsConcat(tail, q);
      assert (p + q)[0] == p[0] && (p + q)[1..] == tail + q;
      Assoc(if p[0].Job? then [p[0].task] else [], Jobs(tail), Jobs(q));
    }
  }

  /** All tasks the executor has taken in, in the order of their acceptance. */
  function Held(x: Exec): seq<Task> {
    x.ran + (Jobs(x.queue) + Jobs(x.lost))
  }

  function JobOf(s: Step): seq<Task> {
    if s.Accept? && s.cell.Job? then [s.cell.task] else []
  }

  lemma JobsOfStep(s: Step, more: seq<Cell>)
    ensures Jobs((if s.Accept? then [s.cell] else []) + more) == JobOf(s) + Jobs(more)
  {
    if s.Accept? {
      assert ([s.cell] + more)[1..] == more;
    } else {
      assert [] + more == more;
    }
  }

  /** Those of the tasks that panic. */
  function Panicked(ts: seq<Task>): seq<Task> {
    if ts == [] then [] else Panicked(ts[..|ts| - 1]) + (if ts[|ts| - 1].how.Panics? then [ts[|ts| - 1]] else [])
  }

  lemma TriedConserves(x: Exec, t: Task, rest: seq<Cell>)
    requires x.open && x.lost == [] && x.queue == [Job(t)] + rest
    ensures var y := Tried(x.(queue := rest), t);
            Held(y) == Held(x) && y.ran == x.ran + [t] &&
            (y.open ==> y.lost == []) && (!y.open ==> y.queue == []) &&
            (x.reported == Panicked(x.ran) ==> y.reported == Panicked(y.ran))
  {
    assert x.queue[1..] == rest && Jobs(x.queue) == [t] + Jobs(rest);
    assert (x.ran + [t])[..|x.ran|] == x.ran;
    var none: seq<Cell> := [];
    assert Jobs(none) == [];
    assert Jobs(rest) + [] == Jobs(rest) == [] + Jobs(rest);
    assert Jobs(x.queue) + [] == Jobs(x.queue);
    Assoc(x.ran, [t], Jobs(rest));
  }

  lemma StepConserves(x: Exec, s: Step)
    requires Enabled(x, s) && (x.open ==> x.lost == []) && (!x.open ==> x.queue == [])
    ensures var y := Do(x, s);
            Held(y) == Held(x) + JobOf(s) &&
            (y.open ==> y.lost == []) && (!y.open ==> y.queue == []) &&
            (x.reported == Panicked(x.ran) ==> y.reported == Panicked(y.ran))
  {
    if s.Work? && x.queue[0].Job? {
      TriedConserves(x, x.queue[0].task, x.queue[1..]);
    }
    if s.Accept? || s.Sentinel? {
      var c := if s.Accept? then s.cell else Nil;
      JobsConcat(x.queue, [c]);
      var one := [c];
      assert one[1..] == [] && Jobs(one) == if c.Job? then [c.task] else [];
    }
  }

  /** Conservation, over every run: what has been accepted is, in first-in
      first-out order, what has run, followed by what is still queued, followed by
      what was dropped on exit. Nothing is lost by a nil or a panicking task while
      the loop lives, nothing runs twice, and exactly the panics of the tasks that
      ran have been reported. */
  lemma {:induction false} Conservation(x: Exec, steps: seq<Step>)
    requires (x.open ==> x.lost == []) && (!x.open ==> x.queue == [])
    ensures var y := Run(x, steps);
            Held(y) == Held(x) + Jobs(Accepted(x, steps)) &&
            (y.open ==> y.lost == []) && (!y.open ==> y.queue == []) &&
            (x.reported == Panicked(x.ran) ==> y.reported == Panicked(y.ran))
    decreases |steps|
  {
    if steps == [] {
      assert Held(x) + [] == Held(x);
    } else {
      var s := steps[0];
      if Enabled(x, s) {
        var y := Do(x, s);
        var more := Accepted(y, steps[1..]);
        StepConserves(x, s);
        Conservation(y, steps[1..]);
        JobsOfStep(s, more);
        Assoc(Held(x), JobOf(s), Jobs(more));
      } else {
        Conservation(x, steps[1..]);
      }
    }
  }

  // ---- What is left behind on exit ----

  /** A task that is not nil and comes back to the loop, by a panic or not. */
  predicate Ordinary(c: Cell) {
    c.Job? && !c.task.how.Exits?
  }

  predicate AllOrdinary(q: seq<Cell>) {
    q == [] || (Ordinary(q[0]) && AllOrdinary(q[1..]))
  }

  predicate AllNil(q: seq<Cell>) {
    q == [] || (q[0] == Nil && AllNil(q[1..]))
  }

  /** Behind the first cell that stops the loop there are only sentinels. */
  predicate StopLast(q: seq<Cell>) {
    q == [] || (if Ordinary(q[0]) then StopLast(q[1..]) else AllNil(q[1..]))
  }

  lemma {:induction false} QueueEnd(q: seq<Cell>, c: Cell)
    ensures AllOrdinary(q) && Ordinary(c) ==> AllOrdinary(q + [c])
    ensures StopLast(q) && c == Nil ==> StopLast(q + [c])
    ensures AllNil(q) && c == Nil ==> AllNil(q + [c])
    ensures AllOrdinary(q) ==> StopLast(q)
  {
    if q != [] {
      QueueEnd(q[1..], c);
      assert (q + [c])[1..] == q[1..] + [c];
    } else {
      var one := [c];
      assert q + [c] == one && one[1..] == [];
    }
  }

  lemma {:induction false} AllNilNoJobs(q: seq<Cell>)
    ensures AllNil(q) <==> Jobs(q) == []
  {
    if q != [] {
      AllNilNoJobs(q[1..]);
    }
  }

  predicate OrdinarySteps(steps: seq<Step>) {
    steps == [] || ((steps[0].Accept? ==> Ordinary(steps[0].cell)) && OrdinarySteps(steps[1..]))
  }

  /** Ordinary tasks, and behind them only sentinels. */
  predicate TasksThenNils(q: seq<Cell>) {
    q == [] || (if Ordinary(q[0]) then TasksThenNils(q[1..]) else AllNil(q))
  }

  lemma {:induction false} TasksThenNilsEnd(q: seq<Cell>)
    ensures AllOrdinary(q) ==> TasksThenNils(q)
    ensures TasksThenNils(q) ==> TasksThenNils(q + [Nil])
  {
    if q != [] {
      TasksThenNilsEnd(q[1..]);
      assert (q + [Nil])[1..] == q[1..] + [Nil];
      QueueEnd(q, Nil);
    } else {
      var one := [Nil];
      assert q + [Nil] == one && one[1..] == [];
    }
  }

  /** Before the flag only ordinary tasks are queued; after it only sentinels join. */
  predicate Orderly(x: Exec) {
    && (x.open && !x.terminated ==> AllOrdinary(x.queue))
    && (x.open ==> TasksThenNils(x.queue) && x.lost == [])
    && (!x.open ==> x.terminated && x.queue == [] && AllNil(x.lost))
  }

  lemma StepOrderly(x: Exec, s: Step)
    requires Orderly(x) && Enabled(x, s) && (s.Accept? ==> Ordinary(s.cell))
    ensures Orderly(Do(x, s))
  {
    var c := if s.Accept? then s.cell else Nil;
    QueueEnd(x.queue, c);
    TasksThenNilsEnd(x.queue);
    TasksThenNilsEnd(x.queue + [c]);
  }

  lemma {:induction false} RunOrderly(x: Exec, steps: seq<Step>)
    requires Orderly(x) && OrdinarySteps(steps)
    ensures Orderly(Run(x, steps))
    decreases |steps|
  {
    if steps != [] {
      if Enabled(x, steps[0]) {
        StepOrderly(x, steps[0]);
        RunOrderly(Do(x, steps[0]), steps[1..]);
      } else {
        RunOrderly(x, steps[1..]);
      }
    }
  }

  /** When boot exits, and every task was ordinary, panicking ones included, everything
      accepted has run, exactly once and in order. */
  lemma ExitMeansAllRan(steps: seq<Step>)
    requires OrdinarySteps(steps) && !Run(BOOTED, steps).open
    ensures Run(BOOTED, steps).ran == Jobs(Accepted(BOOTED, steps))
  {
    Conservation(BOOTED, steps);
    RunOrderly(BOOTED, steps);
    AllNilNoJobs(Run(BOOTED, steps).lost);
    assert Held(BOOTED) + Jobs(Accepted(BOOTED, steps)) == Jobs(Accepted(BOOTED, steps));
    var y := Run(BOOTED, steps);
    assert Held(y) == y.ran + ([] + []);
  }

  lemma {:induction false} DrainOrder(x: Exec)
    requires x.open && x.terminated && x.lost == []
    ensures var y := Drain(x);
            Held(y) == Held(x) && (AllNil(y.lost) <==> StopLast(x.queue)) && (y.open ==> y.lost == [])
    decreases |x.queue|
  {
    if x.queue != [] {
      var y := Turn(x);
      StepConserves(x, Work);
      if y.open {
        DrainOrder(y);
      }
    }
  }

  /** Exactly when a terminated executor loses nothing: iff no task is queued behind a
      nil or behind a task that calls Goexit. A nil that was accepted ahead of a task is
      taken for the sentinel, and the task is dropped. */
  lemma NothingLostIff(x: Exec)
    requires x.open && x.terminated && x.lost == []
    ensures Drain(Enqueued(x, Nil)).ran == x.ran + Jobs(x.queue) <==> StopLast(Enqueued(x, Nil).queue)
  {
    var y := Enqueued(x, Nil);
    var z := Drain(y);
    StepConserves(x, Sentinel);
    DrainOrder(y);
    AllNilNoJobs(z.lost);
    assert z.queue == [] by { DrainEmpties(y); }
    assert Held(x) == x.ran + Jobs(x.queue) by { assert Jobs(x.queue) + Jobs(x.lost) == Jobs(x.queue); }
    assert Held(z) == z.ran + Jobs(z.lost) by { assert Jobs(z.queue) + Jobs(z.lost) == Jobs(z.lost); }
    if Jobs(z.lost) == [] {
      assert z.ran + [] == z.ran;
    } else {
      assert |z.ran| < |Held(z)|;
    }
  }

  /** y comes to its end once it has run what x held, and nothing of that is lost. */
  predicate Ends(x: Exec, y: Exec) {
    var z := Drain(y);
    !z.open && z.queue == [] && z.ran == x.ran + Jobs(x.queue) && Jobs(z.lost) == []
  }

  lemma {:induction false} SentinelEnds(x: Exec)
    requires x.open && x.terminated && x.lost == [] && TasksThenNils(x.queue + [Nil])
    ensures !Drain(Enqueued(x, Nil)).open
    decreases |x.queue|
  {
    var y := Enqueued(x, Nil);
    if x.queue != [] && Ordinary(x.queue[0]) {
      var x' := Turn(x);
      assert y.queue[1..] == x'.queue + [Nil];
      assert (x.queue + [Nil])[1..] == x'.queue + [Nil];
      SentinelEnds(x');
    } else {
      assert y.queue[0] == Nil;
    }
  }

  /** Terminate that is through ends a live executor: boot runs all that was accepted and
      leaves its loop, and the channel is closed. Terminate that waits for room has set
      the flag, and boot goes on with what is queued. */
  lemma TerminateEnds(x: Exec)
    requires x.open && x.lost == [] && AllOrdinary(x.queue)
    ensures Ends(x, Terminated(x, true))
    ensures Terminated(x, false) == x.(terminated := true)
    ensures var z := Drain(Terminated(x, false)); z.open && z.ran == x.ran + Jobs(x.queue)
  {
    var y := x.(terminated := true);
    QueueEnd(x.queue, Nil);
    TasksThenNilsEnd(x.queue);
    SentinelEnds(y);
    NothingLostIff(y);
    DrainEmpties(Enqueued(y, Nil));
    DrainOrder(Enqueued(y, Nil));
    AllNilNoJobs(Drain(Enqueued(y, Nil)).lost);
    OrdinaryNoExit(x.queue);
    DrainRunsAll(y);
  }

  /** While no task calls Goexit, and no nil is taken for the sentinel, the loop stays
      alive: it runs every task and passes over a nil. */
  lemma {:induction false} DrainRunsAll(x: Exec)
    requires x.open && NoExit(x.queue) && (x.terminated ==> AllOrdinary(x.queue))
    ensures var z := Drain(x);
            z.open && z.queue == [] && z.ran == x.ran + Jobs(x.queue) && z.terminated == x.terminated && z.lost == x.lost
    decreases |x.queue|
  {
    if x.queue == [] {
      assert x.ran + [] == x.ran;
    } else {
      DrainRunsAll(Turn(x));
      if x.queue[0].Job? { Assoc(x.ran, [x.queue[0].task], Jobs(x.queue[1..])); }
    }
  }

  /** A task that calls Goexit ends it, and what is behind it is lost. */
  lemma {:induction false} ExitCloses(x: Exec)
    requires x.open && !x.terminated && !NoExit(x.queue)
    ensures !Drain(x).open
    decreases |x.queue|
  {
    var y := Turn(x);
    if y.open {
      ExitCloses(y);
    }
  }

  predicate NoExit(q: seq<Cell>) {
    q == [] || ((q[0].Job? ==> !q[0].task.how.Exits?) && NoExit(q[1..]))
  }

  lemma {:induction false} OrdinaryNoExit(q: seq<Cell>)
    requires AllOrdinary(q)
    ensures NoExit(q)
  {
    if q != [] {
      OrdinaryNoExit(q[1..]);
    }
  }

  /** What the atomicity of Execute and Terminate is worth: both hold only a read lock,
      and a task that gets into the channel behind the sentinel is accepted and dropped;
      all that was queued before runs. */
  lemma {:induction false} TaskBehindSentinelIsDropped(x: Exec, t: Task)
    requires x.open && x.terminated && AllOrdinary(x.queue)
    ensures var y := Drain(Enqueued(Enqueued(x, Nil), Job(t)));
            !y.open && y.ran == x.ran + Jobs(x.queue) && y.lost == [Job(t)]
    decreases |x.queue|
  {
    var y := Enqueued(Enqueued(x, Nil), Job(t));
    if x.queue == [] {
      assert y.queue[0] == Nil && y.queue[1..] == [Job(t)];
      assert x.ran + [] == x.ran;
    } else {
      var x' := Turn(x);
      assert y.queue[1..] == Enqueued(Enqueued(x', Nil), Job(t)).queue;
      TaskBehindSentinelIsDropped(x', t);
      Assoc(x.ran, [x.queue[0].task], Jobs(x.queue[1..]));
    }
  }

  lemma {:induction false} DrainEmpties(x: Exec)
    requires !x.open ==> x.queue == []
    ensures Drain(x).queue == []
    decreases |x.queue|
  {
    if x.open && x.queue != [] {
      DrainEmpties(Turn(x));
    }
  }

  /** The two-task case: a nil accepted before a job, then Terminate. */
  lemma NilTaskDropsNextTask(t: Task)
    ensures var y := Run(BOOTED, [Accept(Nil), Accept(Job(t)), Flag, Sentinel, Work]);
            !y.open && y.ran == [] && y.lost == [Job(t), Nil]
  {
    var s: seq<Step> := [Accept(Nil), Accept(Job(t)), Flag, Sentinel, Work];
    var x1 := Do(BOOTED, s[0]);
    var x2 := Do(x1, s[1]);
    var x3 := Do(x2, s[2]);
    var x4 := Do(x3, s[3]);
    assert s[1..][0] == Accept(Job(t)) && s[2..][0] == Flag && s[3..][0] == Sentinel && s[4..][0] == Work;
    assert s[1..][1..] == s[2..] && s[2..][1..] == s[3..] && s[3..][1..] == s[4..] && s[4..][1..] == [];
    assert x4.queue == [Nil, Job(t), Nil];
    assert Run(BOOTED, s) == Run(x1, s[1..]) == Run(x2, s[2..]) == Run(x3, s[3..]) == Run(x4, s[4..]);
    assert Run(x4, s[4..]) == Do(x4, Work);
  }
}
