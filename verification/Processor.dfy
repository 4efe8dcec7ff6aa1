/** process/processor.go: several executors behind one Execute, which hands each
    task to a least-loaded one. */
module Processors {
  import opened Executors

  const SEARCH_START := 999999 // the initial `min` of the search

  function Lens(xs: seq<Exec>): (ns: seq<nat>)
    ensures |ns| == |xs|
    ensures forall i | 0 <= i < |xs| :: ns[i] == if xs[i].open then |xs[i].queue| else 0
  {
    seq(|xs|, i requires 0 <= i < |xs| => if xs[i].open then |xs[i].queue| else 0)
  }

  /** The choice of the search: the first executor of minimal load, provided some
      load is below 999999; otherwise the first executor. */
  ghost predicate Chosen(ns: seq<nat>, index: nat) {
    && index < |ns|
    && ((exists k :: 0 <= k < |ns| && ns[k] < SEARCH_START) ==>
          (forall k | 0 <= k < |ns| :: ns[index] <= ns[k]) && (forall k | 0 <= k < index :: ns[index] < ns[k]))
    && ((forall k | 0 <= k < |ns| :: ns[k] >= SEARCH_START) ==> index == 0)
  }

  lemma ChosenIsUnique(ns: seq<nat>, i: nat, j: nat)
    requires Chosen(ns, i) && Chosen(ns, j)
    ensures i == j
  {
    if exists k :: 0 <= k < |ns| && ns[k] < SEARCH_START {
      assert ns[i] <= ns[j] && ns[j] <= ns[i];
    }
  }

  /** A live executor whose queued tasks are ordinary. */
  predicate MustEnd(x: Exec) {
    x.open && x.lost == [] && AllOrdinary(x.queue)
  }

  datatype Executed =
    | Refused          // the processor is being terminated
    | RanInline        // no executors: the task runs in the caller
    | Queued(i: nat)
    | Blocks(i: nat)   // the chosen channel is full: the caller waits

  /** What an Execute that queues its task does: the task goes to the end of the queue
      of the chosen executor, and nothing else changes. */
  ghost predicate Queues(xs: seq<Exec>, task: Cell, index: nat, ys: seq<Exec>) {
    Chosen(Lens(xs), index) && xs[index].open && ys == xs[index := Enqueued(xs[index], task)]
  }

  class Processor {
    const multi: nat
    const capacity: nat
    const exes: seq<Executor>
    var killing: bool
    ghost var inline: seq<Task> // the tasks run in the caller

    constructor (capacity: nat, multi: int)
      ensures fresh(exes) && Valid() && !killing && inline == [] && this.capacity == capacity
      ensures this.multi == if multi > 0 then multi else 0
      ensures Views() == seq(this.multi, _ => BOOTED)
    {
      var n := if multi > 0 then multi else 0;
      var list: seq<Executor> := [];
      for i := 0 to n
        invariant |list| == i && fresh(list)
        invariant forall k | 0 <= k < i :: list[k].View() == BOOTED && list[k].capacity == capacity
        invariant forall j, k | 0 <= j < k < i :: list[j] != list[k]
      {
        var exe := new Executor(capacity);
        list := list + [exe];
      }
      this.multi, this.capacity, exes, killing, inline := n, capacity, list, false, [];
    }

    ghost predicate Valid()
      reads this
    {
      && |exes| == multi
      && (forall i | 0 <= i < multi :: exes[i].capacity == capacity)
      && (forall i, j | 0 <= i < j < multi :: exes[i] != exes[j])
    }

    ghost function Views(): (xs: seq<Exec>)
      reads this, exes
      ensures |xs| == |exes|
      ensures forall i | 0 <= i < |exes| :: xs[i] == exes[i].View()
    {
      seq(|exes|, i requires 0 <= i < |exes| reads this, exes => exes[i].View())
    }

    method Search() returns (index: nat)
      requires Valid() && multi > 0
      ensures Chosen(Lens(Views()), index)
    {
      ghost var ns := Lens(Views());
      index := 0;
      var min := SEARCH_START;
      for i := 0 to multi
        invariant index < multi && (index <= i)
        invariant min <= SEARCH_START && (min < SEARCH_START ==> index < i && ns[index] == min)
        invariant min == SEARCH_START ==> index == 0
        invariant forall k | 0 <= k < i :: min <= ns[k]
        invariant min < SEARCH_START ==> forall k | 0 <= k < index :: min < ns[k]
      {
        var num := exes[i].TaskLen();
        if num < min {
          min := num;
          index := i;
        }
      }
    }

    /** Execute changes at most the one chosen queue, by one task at its end. */
    method Execute(task: Cell) returns (r: Executed)
      requires Valid()
      modifies this, exes
      ensures Valid() && killing == old(killing)
      ensures r.Refused? <==> killing
      ensures r.RanInline? <==> !killing && multi == 0
      ensures inline == old(inline) + if r.RanInline? && task.Job? then [task.task] else []
      ensures r.Queued? ==> Queues(old(Views()), task, r.i, Views()) && |old(Views())[r.i].queue| < capacity
      ensures !r.Queued? ==> Views() == old(Views())
      ensures r.Blocks? ==>
                Chosen(Lens(Views()), r.i) && (!Views()[r.i].open || |Views()[r.i].queue| >= capacity)
    {
      if killing { return Refused; }
      if multi <= 0 {
        if task.Job? {
          inline := inline + [task.task];
        }
        return RanInline;
      }
      var index := 0;
      if multi != 1 {
        index := Search();
      }
      var sent := exes[index].Send(task);
      r := if sent then Queued(index) else Blocks(index);
    }

    /** Terminate acts once: one executor after the other gets the flag and the
        sentinel. It stops at a full channel (executor `done`), whose flag is already
        set, and would go on when there is room; done == multi when it is through. */
    method Terminate() returns (first: bool, done: nat)
      requires Valid()
      modifies this, exes
      ensures Valid() && killing && first == !old(killing) && inline == old(inline)
      ensures done <= multi && (!first ==> Views() == old(Views()))
      ensures first ==> forall i | 0 <= i < multi ::
                Views()[i] == if i > done then old(Views())[i] else Terminated(old(Views())[i], i < done)
      ensures done < multi ==> first && old(Views())[done].open && |old(Views())[done].queue| >= capacity
      ensures first ==> forall i | 0 <= i < done ::
                MustEnd(old(Views())[i]) ==> Ends(old(Views())[i], Views()[i])
    {
      first, done := !killing, 0;
      if killing { return first, multi; }
      killing := true;
      while done < multi
        invariant Valid() && killing && inline == old(inline) && done <= multi
        invariant forall k | 0 <= k < done :: exes[k].View() == Terminated(old(exes[k].View()), true)
        invariant forall k | done <= k < multi :: exes[k].View() == old(exes[k].View())
        invariant forall k | 0 <= k < done :: MustEnd(old(exes[k].View())) ==> Ends(old(exes[k].View()), exes[k].View())
      {
        ghost var x := exes[done].View();
        if MustEnd(x) { TerminateEnds(x); }
        var sent := exes[done].Terminate();
        if !sent { return; }
        done := done + 1;
      }
    }

    method TaskLen() returns (sum: nat)
      requires Valid()
      ensures sum == Total(Lens(Views()))
    {
      sum := 0;
      ghost var ns := Lens(Views());
      for i := 0 to multi
        invariant sum == Total(ns[..i])
      {
        var n := exes[i].TaskLen();
        sum := sum + n;
        assert ns[..i + 1] == ns[..i] + [ns[i]];
        TotalSnoc(ns[..i], ns[i]);
      }
      assert ns[..multi] == ns;
    }
  }

  function Total(ns: seq<nat>): nat {
    if ns == [] then 0 else ns[0] + Total(ns[1..])
  }

  lemma {:induction false} TotalSnoc(ns: seq<nat>, n: nat)
    ensures Total(ns + [n]) == Total(ns) + n
  {
    if ns == [] {
      assert ns + [n] == [n] && [n][1..] == [];
    } else {
      TotalSnoc(ns[1..], n);
      assert (ns + [n])[1..] == ns[1..] + [n];
    }
  }

  // ---- Balance ----

  /** The loads after each of a run of accepts with no task taken out in between:
      every accept goes to the executor the search chooses. */
  ghost predicate Accepts(start: seq<nat>, choices: seq<nat>, end: seq<nat>)
    decreases |choices|
  {
    if choices == [] then
      end == start
    else
      Chosen(start, choices[0]) && Accepts(start[choices[0] := start[choices[0]] + 1], choices[1..], end)
  }

  /** A run of Execute calls that queue their tasks, with nothing taken out in between. */
  ghost predicate Executes(xs: seq<Exec>, tasks: seq<Cell>, choices: seq<nat>, ys: seq<Exec>)
    decreases |tasks|
  {
    |choices| == |tasks| &&
    if tasks == [] then
      ys == xs
    else
      exists zs :: Queues(xs, tasks[0], choices[0], zs) && Executes(zs, tasks[1..], choices[1..], ys)
  }

  lemma QueuesLens(xs: seq<Exec>, task: Cell, index: nat, ys: seq<Exec>)
    requires Queues(xs, task, index, ys)
    ensures Lens(ys) == Lens(xs)[index := Lens(xs)[index] + 1]
  {
  }

  lemma {:induction false} ExecutesAccepts(xs: seq<Exec>, tasks: seq<Cell>, choices: seq<nat>, ys: seq<Exec>)
    requires Executes(xs, tasks, choices, ys)
    ensures Accepts(Lens(xs), choices, Lens(ys))
    decreases |tasks|
  {
    if tasks != [] {
      var zs :| Queues(xs, tasks[0], choices[0], zs) && Executes(zs, tasks[1..], choices[1..], ys);
      QueuesLens(xs, tasks[0], choices[0], zs);
      ExecutesAccepts(zs, tasks[1..], choices[1..], ys);
    }
  }

  ghost predicate Balanced(ns: seq<nat>) {
    forall i, j | 0 <= i < |ns| && 0 <= j < |ns| :: ns[i] <= ns[j] + 1
  }

  lemma {:induction false} TotalUpdate(ns: seq<nat>, i: nat)
    requires i < |ns|
    ensures Total(ns[i := ns[i] + 1]) == Total(ns) + 1
  {
    var ms := ns[i := ns[i] + 1];
    if i == 0 {
      assert ms[1..] == ns[1..];
    } else {
      TotalUpdate(ns[1..], i - 1);
      assert ms[1..] == ns[1..][i - 1 := ns[1..][i - 1] + 1];
    }
  }

  /** If the total is below 999999 for each executor, some load is below 999999. */
  lemma {:induction false} SomeLoadBelow(ns: seq<nat>)
    requires Total(ns) < SEARCH_START * |ns|
    ensures exists k :: 0 <= k < |ns| && ns[k] < SEARCH_START
  {
    if ns != [] && ns[0] >= SEARCH_START {
      SomeLoadBelow(ns[1..]);
      var k :| 0 <= k < |ns[1..]| && ns[1..][k] < SEARCH_START;
      assert ns[k + 1] < SEARCH_START;
    } else if ns != [] {
      assert ns[0] < SEARCH_START;
    }
  }

  ghost predicate Within(ns: seq<nat>) {
    forall i | 0 <= i < |ns| :: ns[i] <= SEARCH_START
  }

  /** Every accept adds one task; and as long as fewer than 999999 tasks per executor
      are queued, the longest and the shortest queue never differ by more than one. */
  lemma {:induction false} AcceptsStayBalanced(start: seq<nat>, choices: seq<nat>, end: seq<nat>)
    requires Balanced(start) && Accepts(start, choices, end)
    requires Total(start) + |choices| <= SEARCH_START * |start|
    ensures Balanced(end) && |end| == |start| && Total(end) == Total(start) + |choices|
    ensures Within(start) ==> Within(end)
    decreases |choices|
  {
    if choices != [] {
      var i := choices[0];
      var next := start[i := start[i] + 1];
      SomeLoadBelow(start);
      TotalUpdate(start, i);
      assert Balanced(next) by {
        forall a, b | 0 <= a < |next| && 0 <= b < |next|
          ensures next[a] <= next[b] + 1
        {
          assert start[a] <= start[b] + 1 && start[i] <= start[b];
        }
      }
      AcceptsStayBalanced(next, choices[1..], end);
    }
  }

  /** Queues of at most 999999 tasks that hold 999999 tasks each on the whole are all
      full. */
  lemma {:induction false} FullMeansAll(ns: seq<nat>)
    requires Within(ns)
    ensures Total(ns) <= SEARCH_START * |ns|
    ensures Total(ns) == SEARCH_START * |ns| ==> forall i | 0 <= i < |ns| :: ns[i] == SEARCH_START
  {
    if ns != [] {
      FullMeansAll(ns[1..]);
      assert forall i | 1 <= i < |ns| :: ns[i] == ns[1..][i - 1];
    }
  }

  /** From then on the search gives up, and every task goes to the first queue. */
  lemma {:induction false} BeyondFull(ns: seq<nat>, choices: seq<nat>, end: seq<nat>)
    requires Accepts(ns, choices, end) && ns != [] && forall i | 0 <= i < |ns| :: ns[i] >= SEARCH_START
    ensures end == ns[0 := ns[0] + |choices|]
    decreases |choices|
  {
    if choices == [] {
      assert ns[0 := ns[0]] == ns;
    } else {
      var next := ns[choices[0] := ns[choices[0]] + 1];
      assert choices[0] == 0;
      BeyondFull(next, choices[1..], end);
      assert next[0 := ns[0] + |choices|] == ns[0 := ns[0] + |choices|];
    }
  }

  lemma {:induction false} AcceptsSplit(start: seq<nat>, choices: seq<nat>, end: seq<nat>, k: nat) returns (mid: seq<nat>)
    requires Accepts(start, choices, end) && k <= |choices|
    ensures Accepts(start, choices[..k], mid) && Accepts(mid, choices[k..], end)
    decreases |choices|
  {
    if k == 0 {
      mid := start;
      assert choices[..0] == [] && choices[0..] == choices;
    } else {
      mid := AcceptsSplit(start[choices[0] := start[choices[0]] + 1], choices[1..], end, k - 1);
      assert choices[..k][0] == choices[0] && choices[..k][1..] == choices[1..][..k - 1] && choices[1..][k - 1..] == choices[k..];
    }
  }

  lemma {:induction false} TotalZero(m: nat)
    ensures Total(seq(m, _ => 0)) == 0
  {
    if m > 0 {
      TotalZero(m - 1);
      var z: seq<nat> := seq(m, _ => 0);
      assert z[1..] == seq(m - 1, _ => 0);
    }
  }

  /** From empty queues. */
  lemma BalancedFromEmpty(m: nat, choices: seq<nat>, end: seq<nat>)
    requires Accepts(seq(m, _ => 0), choices, end) && |choices| <= SEARCH_START * m
    ensures Balanced(end) && |end| == m && Total(end) == |choices| && Within(end)
  {
    var z: seq<nat> := seq(m, _ => 0);
    TotalZero(m);
    AcceptsStayBalanced(z, choices, end);
  }

  /** From empty queues: once each has got 999999 tasks, all further ones are in the
      first queue. */
  lemma SearchGivesUp(m: nat, choices: seq<nat>, end: seq<nat>)
    requires m > 0 && Accepts(seq(m, _ => 0), choices, end) && |choices| >= SEARCH_START * m
    ensures end == seq(m, _ => SEARCH_START)[0 := SEARCH_START + (|choices| - SEARCH_START * m)]
  {
    var k := SEARCH_START * m;
    var mid := AcceptsSplit(seq(m, _ => 0), choices, end, k);
    BalancedFromEmpty(m, choices[..k], mid);
    FullMeansAll(mid);
    assert mid == seq(m, _ => SEARCH_START);
    BeyondFull(mid, choices[k..], end);
  }

  lemma {:induction false} TotalFirst(m: nat, n: nat)
    requires m > 0
    ensures Total(seq(m, _ => SEARCH_START)[0 := n]) == n + SEARCH_START * (m - 1)
  {
    var ns: seq<nat> := seq(m, _ => SEARCH_START)[0 := n];
    var tail: seq<nat> := seq(m - 1, _ => SEARCH_START);
    assert ns[1..] == tail;
    if m > 1 {
      assert tail == tail[0 := SEARCH_START];
      TotalFirst(m - 1, SEARCH_START);
    }
  }

  /** From empty queues, in general: exactly as many tasks are queued as were accepted;
      and several queues stay balanced exactly as long as no more than 999999 tasks for
      each, and one, have been accepted. */
  lemma BalancedIff(m: nat, choices: seq<nat>, end: seq<nat>)
    requires Accepts(seq(m, _ => 0), choices, end)
    ensures |end| == m && Total(end) == |choices|
    ensures Balanced(end) <==> m <= 1 || |choices| <= SEARCH_START * m + 1
  {
    if |choices| <= SEARCH_START * m {
      BalancedFromEmpty(m, choices, end);
    } else {
      if m == 0 { assert false; }
      var extra := |choices| - SEARCH_START * m;
      SearchGivesUp(m, choices, end);
      TotalFirst(m, SEARCH_START + extra);
      if m > 1 && extra > 1 {
        assert end[0] > end[1] + 1;
      }
    }
  }

  lemma LensOfBooted(m: nat)
    ensures Lens(seq(m, _ => BOOTED)) == seq(m, _ => 0)
  {
  }

  /** So for a new processor: after any run of Execute calls that queued their tasks,
      with none taken out yet, as many tasks are queued as were accepted; and the longest
      and the shortest of several queues differ by at most one exactly as long as no more
      than 999999 tasks for each, and one, have been accepted. */
  lemma ExecuteBalances(m: nat, tasks: seq<Cell>, choices: seq<nat>, ys: seq<Exec>)
    requires Executes(seq(m, _ => BOOTED), tasks, choices, ys)
    ensures |ys| == m && Total(Lens(ys)) == |tasks|
    ensures Balanced(Lens(ys)) <==> m <= 1 || |tasks| <= SEARCH_START * m + 1
  {
    ExecutesAccepts(seq(m, _ => BOOTED), tasks, choices, ys);
    LensOfBooted(m);
    BalancedIff(m, choices, Lens(ys));
  }
}
