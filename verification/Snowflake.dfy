/** Binary digits of natural numbers: the int64 operations that utils/snowflake
    uses, on values that are never negative and stay below 2^63. */
module Bits {

  function Pow2(k: nat): (p: nat)
    ensures p > 0
  {
    if k == 0 then 1 else 2 * Pow2(k - 1)
  }

  /** x << k */
  function Shl(x: nat, k: nat): nat {
    x * Pow2(k)
  }

  /** x << k, one digit at a time */
  function Doubled(x: nat, k: nat): nat
    decreases k
  {
    if k == 0 then x else 2 * Doubled(x, k - 1)
  }

  lemma {:induction false} ShlIsDoubled(x: nat, k: nat)
    ensures Shl(x, k) == Doubled(x, k)
    decreases k
  {
    if k > 0 {
      ShlIsDoubled(x, k - 1);
      assert x * (2 * Pow2(k - 1)) == 2 * (x * Pow2(k - 1));
    }
  }

  /** x >> k */
  function Shr(x: nat, k: nat): nat
    decreases k
  {
    if k == 0 then x else Shr(x / 2, k - 1)
  }

  /** x & (2^k - 1): the k low digits */
  function Low(x: nat, k: nat): nat
    decreases k
  {
    if k == 0 then 0 else x % 2 + 2 * Low(x / 2, k - 1)
  }

  /** x | y, digit by digit */
  function Or(x: nat, y: nat): nat {
    if x == 0 then y
    else if y == 0 then x
    else (if x % 2 == 1 || y % 2 == 1 then 1 else 0) + 2 * Or(x / 2, y / 2)
  }

  lemma {:induction false} OrStep(x: nat, y: nat)
    ensures Or(x, y) == (if x % 2 == 1 || y % 2 == 1 then 1 else 0) + 2 * Or(x / 2, y / 2)
  {
  }

  lemma OrZero(x: nat)
    ensures Or(x, 0) == x && Or(0, x) == x
  {
  }

  lemma {:induction false} OrAtLeast(x: nat, y: nat)
    ensures Or(x, y) >= x
  {
    if x > 0 && y > 0 {
      OrAtLeast(x / 2, y / 2);
    }
  }

  lemma OrBothAtLeast(x: nat, y: nat, z: nat)
    ensures Or(Or(x, y), z) >= x
  {
    OrAtLeast(x, y);
    OrAtLeast(Or(x, y), z);
  }

  lemma OrOne(x: nat)
    requires x % 2 == 0
    ensures Or(x, 1) == x + 1
  {
    OrStep(x, 1);
    OrZero(x / 2);
  }

  lemma {:induction false} OrSplitDoubled(x: nat, p: nat, y: nat, q: nat, k: nat)
    requires p < Pow2(k) && q < Pow2(k)
    ensures Or(Doubled(x, k) + p, Doubled(y, k) + q) == Doubled(Or(x, y), k) + Or(p, q)
    ensures Or(p, q) < Pow2(k)
    decreases k
  {
    if k > 0 {
      OrStep(Doubled(x, k) + p, Doubled(y, k) + q);
      OrStep(p, q);
      OrSplitDoubled(x, p / 2, y, q / 2, k - 1);
    }
  }

  /** Or works on the high digits and on the k low digits separately. */
  lemma OrSplit(x: nat, p: nat, y: nat, q: nat, k: nat)
    requires p < Pow2(k) && q < Pow2(k)
    ensures Or(Shl(x, k) + p, Shl(y, k) + q) == Shl(Or(x, y), k) + Or(p, q)
    ensures Or(p, q) < Pow2(k)
  {
    ShlIsDoubled(x, k);
    ShlIsDoubled(y, k);
    ShlIsDoubled(Or(x, y), k);
    OrSplitDoubled(x, p, y, q, k);
  }

  /** Digits above 2^k and digits below do not meet: Or is the sum. */
  lemma OrDisjoint(x: nat, q: nat, k: nat)
    requires q < Pow2(k)
    ensures Or(Shl(x, k), q) == Shl(x, k) + q
  {
    OrSplit(x, 0, 0, q, k);
    OrZero(x);
    OrZero(q);
  }

  lemma {:induction false} ApartDoubled(x: nat, p: nat, k: nat)
    requires p < Pow2(k)
    ensures Shr(Doubled(x, k) + p, k) == x && Low(Doubled(x, k) + p, k) == p
    decreases k
  {
    if k > 0 {
      ApartDoubled(x, p / 2, k - 1);
      assert (Doubled(x, k) + p) / 2 == Doubled(x, k - 1) + p / 2;
    }
  }

  /** Shifting right and masking take the two parts apart again. */
  lemma Apart(n: nat, x: nat, p: nat, k: nat)
    requires p < Pow2(k) && n == Shl(x, k) + p
    ensures Shr(n, k) == x && Low(n, k) == p
  {
    ShlIsDoubled(x, k);
    ApartDoubled(x, p, k);
  }

  lemma {:induction false} OrBound(x: nat, y: nat, k: nat)
    requires x < Pow2(k) && y < Pow2(k)
    ensures Or(x, y) < Pow2(k)
    decreases k
  {
    if k > 0 {
      OrBound(x / 2, y / 2, k - 1);
    }
  }

  lemma {:induction false} OrCommutes(x: nat, y: nat)
    ensures Or(x, y) == Or(y, x)
  {
    if x > 0 && y > 0 {
      OrCommutes(x / 2, y / 2);
    }
  }

  /** Two numbers are equal iff their high and their low digits are. */
  lemma SameParts(x: nat, p: nat, y: nat, q: nat, k: nat)
    requires p < Pow2(k) && q < Pow2(k)
    ensures Shl(x, k) + p == Shl(y, k) + q <==> x == y && p == q
  {
    Apart(Shl(x, k) + p, x, p, k);
    Apart(Shl(y, k) + q, y, q, k);
  }

  lemma {:induction false} Pow2Values()
    ensures Pow2(10) == 0x400 && Pow2(12) == 0x1000 && Pow2(22) == 0x40_0000
  {
    assert Pow2(4) == 16;
    assert Pow2(8) == 256;
    assert Pow2(14) == 4 * Pow2(12);
    assert Pow2(16) == 16 * Pow2(12);
    assert Pow2(18) == 4 * Pow2(16);
    assert Pow2(20) == 4 * Pow2(18);
  }

}

/** utils/snowflake/snowflake.go. Times are milliseconds. */
module Snowflake {
  import opened Bits

  const SEED_BITS := 10
  const STEP_BITS := 12
  const SEED_MAX := 0x3FF             // -1 ^ (-1 << seedBits)
  const STEP_MAX := 0xFFF             // -1 ^ (-1 << stepBits)
  const TIME_SHIFT := SEED_BITS + STEP_BITS
  const SEED_SHIFT := STEP_BITS
  const EPOCH := 1288834974657
  const LOW := 0x40_0000              // 2^22, one millisecond in the id
  const HORIZON := 0x200_0000_0000    // 2^41 milliseconds: below it an id fits 63 bits

  datatype State = State(timestamp: nat, seed: nat, step: nat)

  /** now - epoch; the time before the epoch (in 2010) is not modelled. */
  function Elapsed(now: nat): nat {
    if EPOCH <= now then now - EPOCH else 0
  }

  /** int64((now-epoch)<<timeShift | (seed<<seedShift) | step) */
  function Id(now: nat, seed: nat, step: nat): nat {
    Or(Or(Shl(Elapsed(now), TIME_SHIFT), Shl(seed, SEED_SHIFT)), step)
  }

  /** The 22 digits below the milliseconds, where seed and step may overlap. */
  function LowPart(seed: nat, step: nat): nat {
    Or(Shl(seed, SEED_SHIFT), step)
  }

  /** What Generate does to the state when its first clock reading is `now`;
      `later` is the reading that ends the spin and is used only if it spins. */
  predicate Spins(s: State, now: nat) {
    s.timestamp == now && s.step + 1 > STEP_MAX
  }

  function Next(s: State, now: nat, later: nat): State {
    if s.timestamp == now then
      State(if Spins(s, now) then later else now, s.seed, s.step + 1)
    else
      State(now, s.seed, 0)
  }

  function IdOf(s: State): nat {
    Id(s.timestamp, s.seed, s.step)
  }

  /** The clock does not run backwards, and a spin ends at a later reading. */
  predicate ClockOk(s: State, now: nat, later: nat) {
    s.timestamp <= now && (Spins(s, now) ==> s.timestamp < later)
  }

  /** The state after at least one call, within the id's range. */
  predicate InRange(s: State) {
    EPOCH <= s.timestamp && s.timestamp - EPOCH < HORIZON && s.seed <= SEED_MAX && s.step < LOW
  }

  // ---- One call ----

  /** While the step stays below 2^22, even where it runs over the seed's digits,
      the id is the milliseconds followed by the low part. */
  lemma IdParts(t: nat, seed: nat, step: nat)
    requires EPOCH <= t && seed <= SEED_MAX && step < LOW
    ensures Id(t, seed, step) == (t - EPOCH) * LOW + LowPart(seed, step)
    ensures LowPart(seed, step) < LOW
    ensures step <= STEP_MAX ==> LowPart(seed, step) == seed * 0x1000 + step
  {
    Pow2Values();
    var a := t - EPOCH;
    var b := Shl(seed, SEED_SHIFT);
    OrDisjoint(a, b, TIME_SHIFT);
    OrSplit(a, b, 0, step, TIME_SHIFT);
    OrZero(a);
    if step <= STEP_MAX { OrDisjoint(seed, step, SEED_SHIFT); }
  }

  /** In range, an id is a non-negative int64. */
  lemma IdFits(s: State)
    requires InRange(s)
    ensures IdOf(s) < 0x8000_0000_0000_0000
  {
    IdParts(s.timestamp, s.seed, s.step);
  }

  lemma NextIncreases(s: State, now: nat, later: nat)
    requires InRange(s) && ClockOk(s, now, later) && InRange(Next(s, now, later))
    ensures IdOf(s) < IdOf(Next(s, now, later))
  {
    var s' := Next(s, now, later);
    IdParts(s.timestamp, s.seed, s.step);
    IdParts(s'.timestamp, s'.seed, s'.step);
  }

  lemma IdAtLeast(t: nat, seed: nat, step: nat)
    requires EPOCH <= t
    ensures Id(t, seed, step) >= (t - EPOCH) * LOW
  {
    Pow2Values();
    OrBothAtLeast(Shl(t - EPOCH, TIME_SHIFT), Shl(seed, SEED_SHIFT), step);
  }

  /** The same for a call that takes the step to 2^22. */
  lemma NextReachesBound(s: State, now: nat, later: nat)
    requires InRange(s) && ClockOk(s, now, later) && Next(s, now, later).step == LOW
    ensures IdOf(s) < IdOf(Next(s, now, later))
  {
    var s' := Next(s, now, later);
    IdParts(s.timestamp, s.seed, s.step);
    IdAtLeast(s'.timestamp, s'.seed, s'.step);
  }

  /** No id is zero after the epoch's first millisecond; zero marks an event. */
  lemma IdNotZero(s: State)
    requires InRange(s) && EPOCH < s.timestamp
    ensures IdOf(s) != 0
  {
    IdParts(s.timestamp, s.seed, s.step);
  }

  // ---- Decoding ----

  /** While the step fits its 12 bits, the id holds timestamp, seed and step. */
  lemma Decode(t: nat, seed: nat, step: nat)
    requires EPOCH <= t && t - EPOCH < HORIZON && seed <= SEED_MAX && step <= STEP_MAX
    ensures var id := Id(t, seed, step);
            Shr(id, TIME_SHIFT) + EPOCH == t && Low(Shr(id, SEED_SHIFT), SEED_BITS) == seed &&
            Low(id, STEP_BITS) == step
  {
    Pow2Values();
    IdParts(t, seed, step);
    DecodeParts(Id(t, seed, step), t - EPOCH, seed, step, TIME_SHIFT, SEED_SHIFT, SEED_BITS);
  }

  lemma DecodeParts(id: nat, a: nat, seed: nat, step: nat, ts: nat, ss: nat, sb: nat)
    requires Pow2(ts) == LOW && Pow2(ss) == 0x1000 && Pow2(sb) == 0x400
    requires id == a * LOW + seed * 0x1000 + step && seed <= SEED_MAX && step <= STEP_MAX
    ensures Shr(id, ts) == a && Low(Shr(id, ss), sb) == seed && Low(id, ss) == step
  {
    Apart(id, a, seed * 0x1000 + step, ts);
    Apart(id, a * 0x400 + seed, step, ss);
    Apart(a * 0x400 + seed, a, seed, sb);
  }

  // ---- When two ids meet ----

  /** The three digit groups of an id, for a step of any size: what the step has beyond
      its 12 digits runs over the seed's 10, and what it has beyond those over the
      milliseconds. */
  function High(t: nat, step: nat): nat {
    Or(Elapsed(t), step / LOW)
  }

  function Middle(seed: nat, step: nat): nat {
    Or(seed, step % LOW / 0x1000)
  }

  lemma IdGroups(t: nat, seed: nat, step: nat)
    requires seed <= SEED_MAX
    ensures Middle(seed, step) < 0x400
    ensures Id(t, seed, step) == Shl(High(t, step), TIME_SHIFT) + (Shl(Middle(seed, step), SEED_SHIFT) + step % 0x1000)
    ensures Shl(Middle(seed, step), SEED_SHIFT) + step % 0x1000 < LOW
  {
    Pow2Values();
    GroupsOf(Elapsed(t), seed, step, step / LOW, step % LOW / 0x1000, step % 0x1000, TIME_SHIFT, SEED_SHIFT, SEED_BITS);
  }

  lemma GroupsOf(e: nat, seed: nat, step: nat, q: nat, h: nat, l: nat, ts: nat, ss: nat, sb: nat)
    requires Pow2(ts) == LOW && Pow2(ss) == 0x1000 && Pow2(sb) == 0x400
    requires seed < 0x400 && h < 0x400 && l < 0x1000 && step == q * LOW + (h * 0x1000 + l)
    ensures Or(seed, h) < 0x400
    ensures Or(Or(Shl(e, ts), Shl(seed, ss)), step) == Shl(Or(e, q), ts) + (Shl(Or(seed, h), ss) + l)
  {
    OrBound(seed, h, sb);
    assert Shl(seed, ss) == seed * 0x1000 && Shl(h, ss) == h * 0x1000;
    assert step == Shl(q, ts) + (Shl(h, ss) + l);
    TopGroup(e, Shl(seed, ss), q, Shl(h, ss) + l, ts);
    LowGroups(seed, h, l, ss);
  }

  lemma TopGroup(e: nat, p: nat, q: nat, r: nat, k: nat)
    requires p < Pow2(k) && r < Pow2(k)
    ensures Or(Or(Shl(e, k), p), Shl(q, k) + r) == Shl(Or(e, q), k) + Or(p, r)
  {
    OrDisjoint(e, p, k);
    OrSplit(e, p, q, r, k);
  }

  lemma LowGroups(seed: nat, h: nat, l: nat, k: nat)
    requires l < Pow2(k)
    ensures Or(Shl(seed, k), Shl(h, k) + l) == Shl(Or(seed, h), k) + l
  {
    OrSplit(seed, 0, h, l, k);
    OrZero(l);
  }

  /** For any int64 step, an id in range of the clock is a non-negative int64. */
  lemma IdAlwaysFits(t: nat, seed: nat, step: nat)
    requires Elapsed(t) < HORIZON && seed <= SEED_MAX && step < 0x8000_0000_0000_0000
    ensures Id(t, seed, step) < 0x8000_0000_0000_0000
  {
    Pow2Values();
    assert Pow2(26) == 16 * Pow2(22);
    assert Pow2(30) == 16 * Pow2(26);
    assert Pow2(34) == 16 * Pow2(30);
    assert Pow2(38) == 16 * Pow2(34);
    assert Pow2(41) == 8 * Pow2(38) == HORIZON;
    OrBound(Elapsed(t), step / LOW, 41);
    IdGroups(t, seed, step);
  }

  /** Two ids, of whatever seeds and steps, are equal exactly when the three groups
      are. */
  lemma IdsMeetIff(t: nat, u: nat, a: nat, b: nat, j: nat, k: nat)
    requires a <= SEED_MAX && b <= SEED_MAX
    ensures Id(t, a, j) == Id(u, b, k) <==>
            High(t, j) == High(u, k) && Middle(a, j) == Middle(b, k) && j % 0x1000 == k % 0x1000
  {
    Pow2Values();
    IdGroups(t, a, j);
    IdGroups(u, b, k);
    MeetOf(High(t, j), Middle(a, j), j % 0x1000, High(u, k), Middle(b, k), k % 0x1000, TIME_SHIFT, SEED_SHIFT);
  }

  lemma MeetOf(x: nat, m: nat, l: nat, y: nat, n: nat, o: nat, ts: nat, ss: nat)
    requires Pow2(ts) == LOW && Pow2(ss) == 0x1000 && l < 0x1000 && o < 0x1000
    requires Shl(m, ss) + l < LOW && Shl(n, ss) + o < LOW
    ensures Shl(x, ts) + (Shl(m, ss) + l) == Shl(y, ts) + (Shl(n, ss) + o) <==> x == y && m == n && l == o
  {
    SameParts(x, Shl(m, ss) + l, y, Shl(n, ss) + o, ts);
    SameParts(m, l, n, o, ss);
  }

  /** While steps stay below 2^22: in the same millisecond only, with the same 12 low
      digits, and with seeds that the rest of the steps make alike. */
  lemma SeedsMeetIff(t: nat, u: nat, a: nat, b: nat, j: nat, k: nat)
    requires EPOCH <= t && EPOCH <= u && a <= SEED_MAX && b <= SEED_MAX && j < LOW && k < LOW
    ensures Id(t, a, j) == Id(u, b, k) <==>
            t == u && Or(a, j / 0x1000) == Or(b, k / 0x1000) && j % 0x1000 == k % 0x1000
  {
    IdsMeetIff(t, u, a, b, j, k);
    OrZero(Elapsed(t));
    OrZero(Elapsed(u));
  }

  /** So ids of different seeds never meet while the steps fit their 12 digits. */
  lemma SeedsDisjoint(t: nat, u: nat, a: nat, b: nat, j: nat, k: nat)
    requires EPOCH <= t && EPOCH <= u
    requires a <= SEED_MAX && b <= SEED_MAX && a != b && j <= STEP_MAX && k <= STEP_MAX
    ensures Id(t, a, j) != Id(u, b, k)
  {
    SeedsMeetIff(t, u, a, b, j, k);
    OrZero(a);
    OrZero(b);
  }

  /** The first step that overflows already meets another seed's id. */
  lemma SeedsMeetOnOverflow(t: nat)
    requires EPOCH <= t
    ensures Id(t, 0, STEP_MAX + 1) == Id(t, 1, 0)
  {
    SeedsMeetIff(t, t, 0, 1, STEP_MAX + 1, 0);
    assert Or(0, 1) == Or(1, 0) == 1;
  }

  /** And any two seeds meet in every millisecond, at steps below 2^22. */
  lemma AnySeedsMeet(t: nat, a: nat, b: nat)
    requires EPOCH <= t && a <= SEED_MAX && b <= SEED_MAX
    ensures Id(t, a, b * 0x1000) == Id(t, b, a * 0x1000)
  {
    var j, k := b * 0x1000, a * 0x1000;
    assert j / 0x1000 == b && k / 0x1000 == a && j % 0x1000 == k % 0x1000 == 0;
    OrCommutes(a, b);
    SeedsMeetIff(t, t, a, b, j, k);
  }

  // ---- The generator ----

  /** Successive readings of the clock. */
  class Clock {
    var ahead: seq<nat>

    constructor (readings: seq<nat>)
      ensures ahead == readings
    {
      ahead := readings;
    }

    method Now() returns (now: nat)
      requires ahead != []
      modifies this
      ensures now == old(ahead)[0] && ahead == old(ahead)[1..]
    {
      now, ahead := ahead[0], ahead[1..];
    }
  }

  /** Some reading exceeds t. */
  ghost predicate Passes(t: nat, readings: seq<nat>) {
    exists i :: 0 <= i < |readings| && t < readings[i]
  }

  lemma LaterInTail(t: nat, readings: seq<nat>)
    requires Passes(t, readings) && readings[0] <= t
    ensures Passes(t, readings[1..])
  {
    var i :| 0 <= i < |readings| && t < readings[i];
    assert readings[1..][i - 1] == readings[i];
  }

  /** The first of the readings that exceeds t. */
  function FirstAfter(t: nat, readings: seq<nat>): nat
    requires Passes(t, readings)
  {
    if t < readings[0] then
      readings[0]
    else
      LaterInTail(t, readings);
      FirstAfter(t, readings[1..])
  }

  /** The clock has a reading, and runs past the stored timestamp if the call has to
      spin. */
  ghost predicate CanTick(s: State, ahead: seq<nat>) {
    ahead != [] && (Spins(s, ahead[0]) ==> Passes(s.timestamp, ahead[1..]))
  }

  /** The readings one call uses: the first, and the one that ends its spin. */
  datatype Tick = Tick(now: nat, later: nat)

  ghost function TickOf(s: State, ahead: seq<nat>): Tick
    requires CanTick(s, ahead)
  {
    Tick(ahead[0], if Spins(s, ahead[0]) then FirstAfter(s.timestamp, ahead[1..]) else ahead[0])
  }

  class Seed {
    var timestamp: nat
    const seed: nat
    var step: nat

    constructor (seed: nat)
      requires seed <= SEED_MAX
      ensures At() == State(0, seed, 0)
    {
      this.seed, timestamp, step := seed, 0, 0;
    }

    function At(): State
      reads this
    {
      State(timestamp, seed, step)
    }

    method Generate(clock: Clock) returns (id: nat)
      requires CanTick(At(), clock.ahead)
      modifies this, clock
      ensures var t := TickOf(old(At()), old(clock.ahead));
              At() == Next(old(At()), t.now, t.later) && (old(timestamp) <= t.now ==> ClockOk(old(At()), t.now, t.later))
      ensures id == IdOf(At())
    {
      var now := clock.Now();
      if timestamp == now {
        step := step + 1;
        if step > STEP_MAX {
          ghost var readings := clock.ahead;
          while now <= timestamp
            invariant timestamp == old(timestamp) && step == old(step) + 1
            invariant now <= timestamp ==>
                        Passes(timestamp, clock.ahead) &&
                        FirstAfter(timestamp, clock.ahead) == FirstAfter(timestamp, readings)
            invariant now > timestamp ==> now == FirstAfter(timestamp, readings)
            decreases |clock.ahead|, now <= timestamp
          {
            if clock.ahead[0] <= timestamp { LaterInTail(timestamp, clock.ahead); }
            now := clock.Now();
          }
        }
      } else {
        step := 0;
      }
      timestamp := now;
      id := Id(now, seed, step);
    }
  }

  /** NewSeed refuses a seed that does not fit its ten digits. */
  method NewSeed(seed: int) returns (s: Seed?)
    ensures s == null <==> !(0 <= seed <= SEED_MAX)
    ensures s != null ==> fresh(s) && s.At() == State(0, seed, 0)
  {
    if seed < 0 || seed > SEED_MAX { return null; }
    s := new Seed(seed);
  }

  // ---- Runs ----

  /** The states after each call of a run. */
  function Run(s: State, ticks: seq<Tick>): (states: seq<State>)
    ensures |states| == |ticks|
    decreases |ticks|
  {
    if ticks == [] then
      []
    else
      var s' := Next(s, ticks[0].now, ticks[0].later);
      [s'] + Run(s', ticks[1..])
  }

  /** The clock never runs backwards during the run and stays within 2^41 ms of
      the epoch. */
  predicate Sound(s: State, ticks: seq<Tick>)
    decreases |ticks|
  {
    ticks == [] ||
    var s' := Next(s, ticks[0].now, ticks[0].later);
    ClockOk(s, ticks[0].now, ticks[0].later) &&
    EPOCH <= s'.timestamp && s'.timestamp - EPOCH < HORIZON &&
    Sound(s', ticks[1..])
  }

  /** The steps stay below 2^22, except that the last one may reach it. */
  predicate StepsSafe(states: seq<State>) {
    states == [] ||
    (states[0].step <= LOW && (|states| > 1 ==> states[0].step < LOW) && StepsSafe(states[1..]))
  }

  ghost predicate StrictlyIncreasing(states: seq<State>) {
    forall i, j | 0 <= i < j < |states| :: IdOf(states[i]) < IdOf(states[j])
  }

  lemma {:induction false} RunAbove(s: State, ticks: seq<Tick>)
    requires InRange(s) && Sound(s, ticks) && StepsSafe(Run(s, ticks))
    ensures forall i | 0 <= i < |ticks| :: IdOf(s) < IdOf(Run(s, ticks)[i])
    decreases |ticks|
  {
    if ticks != [] {
      var s' := Next(s, ticks[0].now, ticks[0].later);
      if s'.step == LOW {
        NextReachesBound(s, ticks[0].now, ticks[0].later);
      } else {
        NextIncreases(s, ticks[0].now, ticks[0].later);
        RunAbove(s', ticks[1..]);
      }
    }
  }

  /** Over every run whose steps stay below 2^22 until its last call, the overflow
      regime included, the ids strictly increase and hence never repeat. */
  lemma {:induction false} IdsStrictlyIncrease(s: State, ticks: seq<Tick>)
    requires s.seed <= SEED_MAX && Sound(s, ticks) && StepsSafe(Run(s, ticks))
    ensures StrictlyIncreasing(Run(s, ticks))
    decreases |ticks|
  {
    if |ticks| > 1 {
      var s' := Next(s, ticks[0].now, ticks[0].later);
      var tail := Run(s', ticks[1..]);
      assert Run(s, ticks) == [s'] + tail && Run(s, ticks)[1..] == tail;
      IdsStrictlyIncrease(s', ticks[1..]);
      RunAbove(s', ticks[1..]);
    }
  }

  predicate EndsBefore(states: seq<State>, t: nat) {
    states == [] || (states[0].timestamp < t && EndsBefore(states[1..], t))
  }

  lemma {:induction false} ShortRunSteps(s: State, ticks: seq<Tick>, t0: nat)
    requires InRange(s) && Sound(s, ticks) && EPOCH <= t0 <= s.timestamp
    requires s.step <= STEP_MAX || s.step - STEP_MAX <= s.timestamp - t0
    requires EndsBefore(Run(s, ticks), t0 + (LOW - STEP_MAX) + 1)
    ensures StepsSafe(Run(s, ticks))
    decreases |ticks|
  {
    if ticks != [] {
      var s' := Next(s, ticks[0].now, ticks[0].later);
      assert Run(s, ticks)[1..] == Run(s', ticks[1..]);
      StepBound(s, ticks[0].now, ticks[0].later, t0);
      if |ticks| > 1 && s'.step == LOW {
        assert false;
      }
      if s'.step < LOW {
        ShortRunSteps(s', ticks[1..], t0);
      }
    }
  }

  /** Each call that spins moves on one millisecond and adds one to the step, so
      the step exceeds 4095 by no more than the milliseconds that have passed. */
  lemma StepBound(s: State, now: nat, later: nat, t0: nat)
    requires InRange(s) && ClockOk(s, now, later)
    requires EPOCH <= t0 <= s.timestamp && (s.step <= STEP_MAX || s.step - STEP_MAX <= s.timestamp - t0)
    ensures var s' := Next(s, now, later);
            t0 <= s'.timestamp && (s'.step <= STEP_MAX || s'.step - STEP_MAX <= s'.timestamp - t0)
  {
  }

  /** So whatever the load, the ids given out while the clock shows the 2^22 - 4095
      milliseconds after that of a state whose step has not overflown (about 70
      minutes) are distinct: the overflow cannot accumulate far enough. */
  lemma {:induction false} ShortRunsNeverRepeat(s: State, ticks: seq<Tick>)
    requires InRange(s) && s.step <= STEP_MAX && Sound(s, ticks)
    requires EndsBefore(Run(s, ticks), s.timestamp + (LOW - STEP_MAX) + 1)
    ensures StrictlyIncreasing(Run(s, ticks))
    ensures forall i | 0 <= i < |ticks| :: IdOf(s) < IdOf(Run(s, ticks)[i])
  {
    ShortRunSteps(s, ticks, s.timestamp);
    IdsStrictlyIncrease(s, ticks);
    RunAbove(s, ticks);
  }

  /** From a step of 2^22 - 1, one overflowing call into an even
      millisecond and one call in the millisecond after return the same id. */
  lemma RepeatsAtTheBound(t: nat, seed: nat)
    requires EPOCH <= t && t - EPOCH < HORIZON - 2 && (t - EPOCH) % 2 == 1 && seed <= SEED_MAX
    ensures var s := State(t, seed, LOW - 1);
            var a := Next(s, t, t + 1);
            var b := Next(a, t + 2, t + 2);
            InRange(s) && ClockOk(s, t, t + 1) && ClockOk(a, t + 2, t + 2) &&
            a.step == LOW && IdOf(a) == IdOf(b)
  {
    MeetAtTheBound(t + 1, seed);
  }

  lemma MeetAtTheBound(u: nat, seed: nat)
    requires EPOCH <= u && (u - EPOCH) % 2 == 0 && seed <= SEED_MAX
    ensures Id(u, seed, LOW) == Id(u + 1, seed, 0)
  {
    IdsMeetIff(u, u + 1, seed, seed, LOW, 0);
    OrOne(u - EPOCH);
    OrZero(u + 1 - EPOCH);
  }

  // ---- The run that reaches the bound ----

  function End(s: State, ticks: seq<Tick>): State
    decreases |ticks|
  {
    if ticks == [] then s else End(Next(s, ticks[0].now, ticks[0].later), ticks[1..])
  }

  predicate StepsUpTo(states: seq<State>, n: nat) {
    states == [] || (states[0].step <= n && StepsUpTo(states[1..], n))
  }

  predicate UpTo(states: seq<State>, t: nat, n: nat) {
    EndsBefore(states, t + 1) && StepsUpTo(states, n)
  }

  lemma {:induction false} RunConcat(s: State, a: seq<Tick>, b: seq<Tick>)
    ensures Run(s, a + b) == Run(s, a) + Run(End(s, a), b) && End(s, a + b) == End(End(s, a), b)
    ensures Sound(s, a + b) <==> Sound(s, a) && Sound(End(s, a), b)
    decreases |a|
  {
    if a == [] {
      assert a + b == b;
    } else {
      assert (a + b)[1..] == a[1..] + b;
      RunConcat(Next(s, a[0].now, a[0].later), a[1..], b);
    }
  }

  lemma {:induction false} UpToConcat(a: seq<State>, b: seq<State>, t: nat, n: nat)
    ensures UpTo(a + b, t, n) <==> UpTo(a, t, n) && UpTo(b, t, n)
  {
    if a == [] {
      assert a + b == b;
    } else {
      assert (a + b)[1..] == a[1..] + b;
      UpToConcat(a[1..], b, t, n);
    }
  }

  lemma {:induction false} EndIsLast(s: State, ticks: seq<Tick>)
    requires ticks != []
    ensures Run(s, ticks)[|ticks| - 1] == End(s, ticks)
    decreases |ticks|
  {
    if |ticks| > 1 {
      EndIsLast(Next(s, ticks[0].now, ticks[0].later), ticks[1..]);
    }
  }

  /** n calls in one millisecond. */
  function Burst(t: nat, n: nat): seq<Tick> {
    if n == 0 then [] else [Tick(t, t)] + Burst(t, n - 1)
  }

  lemma {:induction false} BurstRun(s: State, n: nat, t: nat, m: nat)
    requires EPOCH <= s.timestamp && s.timestamp - EPOCH < HORIZON && s.timestamp <= t
    requires s.step + n <= STEP_MAX <= m
    ensures Sound(s, Burst(s.timestamp, n)) && UpTo(Run(s, Burst(s.timestamp, n)), t, m)
    ensures End(s, Burst(s.timestamp, n)) == State(s.timestamp, s.seed, s.step + n)
    decreases n
  {
    if n > 0 {
      var b := Burst(s.timestamp, n);
      assert b[1..] == Burst(s.timestamp, n - 1);
      var s' := Next(s, s.timestamp, s.timestamp);
      BurstRun(s', n - 1, t, m);
      assert Run(s, b)[1..] == Run(s', b[1..]);
    }
  }

  /** n calls, each of which spins into the next millisecond. */
  function Spinning(t: nat, n: nat): seq<Tick>
    decreases n
  {
    if n == 0 then [] else [Tick(t, t + 1)] + Spinning(t + 1, n - 1)
  }

  lemma {:induction false} SpinningRun(s: State, n: nat, t: nat, m: nat)
    requires EPOCH <= s.timestamp && s.timestamp + n - EPOCH < HORIZON && s.timestamp + n <= t
    requires STEP_MAX <= s.step && s.step + n <= m
    ensures Sound(s, Spinning(s.timestamp, n)) && UpTo(Run(s, Spinning(s.timestamp, n)), t, m)
    ensures End(s, Spinning(s.timestamp, n)) == State(s.timestamp + n, s.seed, s.step + n)
    decreases n
  {
    if n > 0 {
      var b := Spinning(s.timestamp, n);
      assert b[1..] == Spinning(s.timestamp + 1, n - 1);
      var s' := Next(s, s.timestamp, s.timestamp + 1);
      SpinningRun(s', n - 1, t, m);
      assert Run(s, b)[1..] == Run(s', b[1..]);
    }
  }

  /** 4096 calls in one millisecond and one call after another from then on, n of them
      spinning. */
  lemma LoadRun(t: nat, seed: nat, n: nat) returns (ticks: seq<Tick>)
    requires EPOCH <= t && t + n - EPOCH < HORIZON && n > 0
    ensures Sound(State(0, seed, 0), ticks) && End(State(0, seed, 0), ticks) == State(t + n, seed, STEP_MAX + n)
    ensures ticks != [] && Run(State(0, seed, 0), ticks)[0] == State(t, seed, 0)
    ensures UpTo(Run(State(0, seed, 0), ticks), t + n, STEP_MAX + n)
  {
    var s := State(0, seed, 0);
    var s1 := State(t, seed, 0);
    var s2 := State(t, seed, STEP_MAX);
    var m, most := t + n, STEP_MAX + n;
    var first := [Tick(t, t)];
    assert first[1..] == [] && Run(s, first) == [s1] && [s1][1..] == [];
    BurstRun(s1, STEP_MAX, m, most);
    SpinningRun(s2, n, m, most);
    var burst, spins := Burst(t, STEP_MAX), Spinning(t, n);
    RunConcat(s1, burst, spins);
    RunConcat(s, first, burst + spins);
    UpToConcat(Run(s1, burst), Run(s2, spins), m, most);
    UpToConcat([s1], Run(s1, burst + spins), m, most);
    ticks := first + (burst + spins);
  }

  /** And one more call in the millisecond after. */
  lemma LoadAndOneMore(t: nat, seed: nat, n: nat) returns (ticks: seq<Tick>)
    requires EPOCH <= t && t + n + 1 - EPOCH < HORIZON && n > 0
    ensures Sound(State(0, seed, 0), ticks) && |ticks| > 2
    ensures var states := Run(State(0, seed, 0), ticks);
            states[0] == State(t, seed, 0) && UpTo(states, t + n + 1, STEP_MAX + n) &&
            states[|ticks| - 2] == State(t + n, seed, STEP_MAX + n) && states[|ticks| - 1] == State(t + n + 1, seed, 0)
  {
    var s := State(0, seed, 0);
    var load := LoadRun(t, seed, n);
    var a, b := State(t + n, seed, STEP_MAX + n), State(t + n + 1, seed, 0);
    var last := [Tick(t + n + 1, t + n + 1)];
    EndIsLast(s, load);
    RunConcat(s, load, last);
    assert last[1..] == [] && Run(a, last) == [b];
    WiderUpTo(Run(s, load), t + n, t + n + 1, STEP_MAX + n);
    var one := [b];
    assert one[1..] == [] && UpTo(one, t + n + 1, STEP_MAX + n);
    UpToConcat(Run(s, load), one, t + n + 1, STEP_MAX + n);
    ticks := load + last;
    assert Run(s, ticks) == Run(s, load) + one;
    assert |load| != 1;
  }

  /** The ticks take a new generator, first asked at t, through a sound run in which no
      step exceeds 2^22 and no time t + 2^22 - 4094, and which ends in the same id twice. */
  ghost predicate Repeating(t: nat, seed: nat, ticks: seq<Tick>) {
    Sound(State(0, seed, 0), ticks) && |ticks| > 2 &&
    var states := Run(State(0, seed, 0), ticks);
    states[0] == State(t, seed, 0) && UpTo(states, t + (LOW - STEP_MAX) + 1, LOW) &&
    IdOf(states[|ticks| - 2]) == IdOf(states[|ticks| - 1])
  }

  /** The bounds are exact, and a run reaches them: a new generator, asked without pause
      from an odd millisecond t on, never takes its step beyond 2^22, and yet gives the
      same id twice running, the second time at t + 2^22 - 4094, one millisecond beyond
      what ShortRunsNeverRepeat allows. */
  lemma LoadRepeatsAtTheBound(t: nat, seed: nat)
    requires EPOCH <= t && t - EPOCH < HORIZON - LOW && (t - EPOCH) % 2 == 1 && seed <= SEED_MAX
    ensures exists ticks :: Repeating(t, seed, ticks)
  {
    var n := LOW - STEP_MAX;
    var ticks := LoadAndOneMore(t, seed, n);
    RepeatsAtTheBound(t + n - 1, seed);
    assert Repeating(t, seed, ticks);
  }

  lemma {:induction false} WiderUpTo(states: seq<State>, t: nat, u: nat, n: nat)
    requires UpTo(states, t, n) && t <= u
    ensures UpTo(states, u, n)
  {
    if states != [] {
      WiderUpTo(states[1..], t, u, n);
    }
  }

  // ---- A clock that runs backwards ----

  /** Three calls at t, t + 1 and t again: the third gives the id of the first. So the
      clock must not run backwards. */
  lemma BackwardClockRepeats(s: State, t: nat)
    requires s.timestamp != t
    ensures var a := Next(s, t, t);
            var b := Next(a, t + 1, t + 1);
            var c := Next(b, t, t);
            c == a && IdOf(c) == IdOf(a) && a == State(t, s.seed, 0)
  {
  }
}
