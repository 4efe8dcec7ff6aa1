/** peers/peer.go: one peer. It issues sequenced calls into a table of pending
    calls, answers requests, and completes calls by response or by timeout sweep.

    The functions say what one atomic piece of a peer's code does to its state and
    what it emits; the class performs them. A handler, the codec and the network
    appear as the results they give. */
module Peers {
  import opened Wrappers
  import opened Bytes
  import Snow = Snowflake

  type Body = seq<Byte>

  const DOT: Byte := 46

  /** The "!guest" prefix. */
  const GUEST_PREFIX: Str := [33, 103, 117, 101, 115, 116]

  // The fixed parts of the error messages, in UTF-8.
  const BAD_METHOD: Str := [230, 150, 185, 230, 179, 149, 229, 144, 141, 229, 191, 133, 233, 161, 187, 231, 172, 166, 229, 144, 136,
                            80, 101, 101, 114, 78, 105, 99, 107, 46, 70, 117, 110, 99, 78, 97, 109, 101, 231, 154, 132, 232, 167, 132,
                            232, 140, 131, 58]
  const NO_ACCESS: Str := [230, 178, 161, 230, 156, 137, 232, 174, 191, 233, 151, 174, 230, 157, 131, 233, 153, 144, 58]
  const NO_METHOD: Str := [230, 150, 185, 230, 179, 149, 228, 184, 141, 229, 173, 152, 229, 156, 168, 58]
  const TIMED_OUT: Str := [232, 175, 183, 230, 177, 130, 232, 182, 133, 230, 151, 182, 33]

  predicate IsGuest(node: Str) {
    |GUEST_PREFIX| <= |node| && node[..|GUEST_PREFIX|] == GUEST_PREFIX
  }

  lemma GuestsAre(node: Str)
    ensures IsGuest(node) <==> exists rest :: node == [33, 103, 117, 101, 115, 116] + rest
  {
    if IsGuest(node) { assert node == GUEST_PREFIX + node[|GUEST_PREFIX|..]; }
  }

  // ---- Exchanges and calls ----

  datatype Exch = Exch(from: Str, to: Str, fn: Str, seqNo: nat, ret: Byte, err: Str, body: Option<Body>)

  datatype Call = Call(viaDone: bool, deadline: int)

  /** What a caller is told in the end. */
  datatype Result = Replied(body: Option<Body>) | Failed(msg: Str)

  /** Who told it: a response (with the error of decoding its body, if any), the
      sweep, or Call itself because request returned an error. */
  datatype Cause = ByResponse(decodeErr: Option<Str>) | BySweep | ByRefusal

  datatype Finished = Finished(seqNo: nat, cause: Cause, result: Result)

  datatype PeerState = PeerState(nick: Str, inner: bool, callbacks: map<nat, Call>, disposing: bool)

  // ---- Issuing a request ----

  function DotsIn(s: Str): nat {
    if s == [] then 0 else (if s[0] == DOT then 1 else 0) + DotsIn(s[1..])
  }

  function BeforeDot(s: Str): Str {
    if s == [] || s[0] == DOT then [] else [s[0]] + BeforeDot(s[1..])
  }

  /** strings.Split(method, ".") when it gives two parts. */
  function SplitMethod(name: Str): Option<(Str, Str)> {
    if DotsIn(name) == 1 then
      var to := BeforeDot(name);
      BeforeDotLength(name);
      Some((to, name[|to| + 1..]))
    else
      None
  }

  lemma {:induction false} BeforeDotLength(s: Str)
    requires DotsIn(s) > 0
    ensures |BeforeDot(s)| < |s| && s[..|BeforeDot(s)|] == BeforeDot(s) && s[|BeforeDot(s)|] == DOT
  {
    if s[0] != DOT {
      BeforeDotLength(s[1..]);
    }
  }

  /** The two parts put together again give the method, and neither has a dot. */
  lemma SplitMethodParts(name: Str)
    requires SplitMethod(name).Some?
    ensures var (to, fn) := SplitMethod(name).value;
            name == to + [DOT] + fn && DotsIn(to) == 0 && DotsIn(fn) == 0
  {
    BeforeDotLength(name);
    var to := BeforeDot(name);
    var fn := name[|to| + 1..];
    assert name == to + ([DOT] + fn);
    DotsConcat(to, [DOT] + fn);
    DotsConcat([DOT], fn);
    BeforeDotHasNone(name);
    var d: Str := [DOT];
    assert d[1..] == [];
  }

  /** And every name made of two parts without a dot is taken apart into them. */
  lemma SplitMethodExact(to: Str, fn: Str)
    requires DotsIn(to) == 0 && DotsIn(fn) == 0
    ensures SplitMethod(to + [DOT] + fn) == Some((to, fn))
  {
    var name := to + [DOT] + fn;
    assert name == to + ([DOT] + fn);
    DotsConcat(to, [DOT] + fn);
    DotsConcat([DOT], fn);
    var d: Str := [DOT];
    assert d[1..] == [];
    BeforeDotOfParts(to, fn);
    assert name[|to| + 1..] == fn;
  }

  lemma {:induction false} BeforeDotOfParts(to: Str, fn: Str)
    requires DotsIn(to) == 0
    ensures BeforeDot(to + [DOT] + fn) == to
  {
    var name := to + [DOT] + fn;
    if to != [] {
      BeforeDotOfParts(to[1..], fn);
      assert name[1..] == to[1..] + [DOT] + fn;
    }
  }

  lemma {:induction false} DotsConcat(a: Str, b: Str)
    ensures DotsIn(a + b) == DotsIn(a) + DotsIn(b)
  {
    if a == [] {
      assert a + b == b;
    } else {
      DotsConcat(a[1..], b);
      assert (a + b)[1..] == a[1..] + b;
    }
  }

  lemma {:induction false} BeforeDotHasNone(s: Str)
    ensures DotsIn(BeforeDot(s)) == 0
  {
    if s != [] && s[0] != DOT {
      BeforeDotHasNone(s[1..]);
      assert BeforeDot(s)[1..] == BeforeDot(s[1..]);
    }
  }

  datatype Requested = Requested(peer: PeerState, seqNo: nat, sent: Option<Exch>, err: Option<Str>)

  /** request: the table is filled first (when a reply is wanted), and the method
      name, the codec and the send are looked at only afterwards. sendErr is the message
      of a failure of these two. */
  function RequestOf(p: PeerState, name: Str, args: Body, entry: Option<(nat, Call)>,
                     sendErr: Option<Str>): Requested
  {
    var seqNo := if entry.Some? then entry.value.0 else 0;
    var p' := if entry.Some? then p.(callbacks := p.callbacks[seqNo := entry.value.1]) else p;
    match SplitMethod(name)
    case None => Requested(p', seqNo, None, Some(BAD_METHOD + name))
    case Some((to, fn)) =>
      if sendErr.Some? then Requested(p', seqNo, None, sendErr)
      else Requested(p', seqNo, Some(Exch(p.nick, to, fn, seqNo, 0, [], Some(args))), None)
  }

  // ---- Answering a request ----

  datatype Ran = Returns(reply: Body, err: Option<Str>) | Panics

  /** What the code around the peer gives while a request is handled: OnPreProc's
      error; whether the method is registered; the error of building or decoding the
      arguments; the handler's result. `meta` says that generated code calls it. */
  datatype Env = Env(pre: Option<Str>, registered: bool, args: Option<Str>, ran: Ran, meta: bool)

  datatype Answer = Answer(reply: Option<Body>, err: Option<Str>) | NoAnswer

  function AnswerTo(p: PeerState, src: Str, e: Exch, env: Env): Answer {
    if p.inner && IsGuest(src) then Answer(None, Some(NO_ACCESS + p.nick))
    else if env.pre.Some? then Answer(None, env.pre)
    else if !env.registered then Answer(None, Some(NO_METHOD + e.fn))
    else if env.args.Some? then Answer(None, env.args)
    else
      match env.ran
      case Panics => NoAnswer
      case Returns(reply, err) => if env.meta && err.Some? then Answer(None, err) else Answer(Some(reply), err)
  }

  /** response: nothing for an event; otherwise one exchange back to the sender. */
  function ResponseTo(e: Exch, a: Answer): Option<Exch> {
    if e.seqNo == 0 || a.NoAnswer? then None
    else Some(Exch(e.to, e.from, [], e.seqNo, 1, if a.err.Some? then a.err.value else [], a.reply))
  }

  // ---- Completing a call ----

  function ResultOf(err: Str, body: Option<Body>, decodeErr: Option<Str>): Result {
    if err != [] then Failed(err)
    else if decodeErr.Some? then Failed(decodeErr.value)
    else Replied(body)
  }

  /** A response takes its call out of the table, or finds none and is ignored. */
  function TakeResponse(p: PeerState, e: Exch, decodeErr: Option<Str>): (PeerState, seq<Finished>) {
    if e.seqNo in p.callbacks then
      (p.(callbacks := p.callbacks - {e.seqNo}),
       [Finished(e.seqNo, ByResponse(decodeErr), ResultOf(e.err, e.body, decodeErr))])
    else
      (p, [])
  }

  type Expiry = (Call, int) -> bool

  /** The test in checkTimeOut, as it stands. */
  const CODE_EXPIRY: Expiry := (call: Call, now: int) => call.deadline > now

  function ExpiredIn(p: PeerState, now: int, expired: Expiry): set<nat> {
    set s | s in p.callbacks && expired(p.callbacks[s], now)
  }

  function Swept(p: PeerState, now: int, expired: Expiry): PeerState {
    p.(callbacks := p.callbacks - ExpiredIn(p, now, expired))
  }

  function SweepLog(order: seq<nat>): seq<Finished> {
    if order == [] then [] else [Finished(order[0], BySweep, Failed(TIMED_OUT))] + SweepLog(order[1..])
  }

  /** order lists the set, each element once: the order of some `range`. */
  ghost predicate Lists(order: seq<nat>, s: set<nat>) {
    (forall x :: x in order <==> x in s) && forall i, j | 0 <= i < j < |order| :: order[i] != order[j]
  }

  // ---- The peer as an object ----

  class Peer {
    const nick: Str
    const inner: bool
    const seed: Snow.Seed // the process-wide generator
    var callbacks: map<nat, Call>
    var disposing: bool
    ghost var finished: seq<Finished> // every run of a Done and every send on a Chan

    constructor (nick: Str, inner: bool, seed: Snow.Seed)
      ensures View() == PeerState(nick, inner, map[], false) && finished == [] && this.seed == seed
    {
      this.nick, this.inner, this.seed := nick, inner, seed;
      callbacks, disposing, finished := map[], false, [];
    }

    function View(): PeerState
      reads this
    {
      PeerState(nick, inner, callbacks, disposing)
    }

    method BuildCall(clock: Snow.Clock, now: int, timeout: int, viaDone: bool) returns (seqNo: nat, call: Call)
      requires Snow.CanTick(seed.At(), clock.ahead)
      modifies this, seed, clock
      ensures var t := Snow.TickOf(old(seed.At()), old(clock.ahead)); seed.At() == Snow.Next(old(seed.At()), t.now, t.later)
      ensures seqNo == Snow.IdOf(seed.At()) && call == Call(viaDone, now + timeout)
      ensures View() == old(View()).(callbacks := old(callbacks)[seqNo := call]) && finished == old(finished)
    {
      seqNo := seed.Generate(clock);
      call := Call(viaDone, now + timeout);
      callbacks := callbacks[seqNo := call];
    }

    method TakeoutCall(seqNo: nat) returns (call: Option<Call>)
      modifies this
      ensures call == if seqNo in old(callbacks) then Some(old(callbacks)[seqNo]) else None
      ensures View() == old(View()).(callbacks := old(callbacks) - {seqNo}) && finished == old(finished)
    {
      if seqNo in callbacks {
        call := Some(callbacks[seqNo]);
        callbacks := callbacks - {seqNo};
      } else {
        call := None;
        assert callbacks - {seqNo} == callbacks;
      }
    }

    /** call.Done(err), or call.Chan <- err. */
    ghost method Complete(f: Finished)
      modifies this`finished
      ensures finished == old(finished) + [f]
    {
      finished := finished + [f];
    }

    /** The sweep: a first loop completes what has expired and notes it, a second
        one deletes what was noted. */
    method CheckTimeOut(now: int, expired: Expiry)
      modifies this
      ensures View() == Swept(old(View()), now, expired)
      ensures exists order :: Lists(order, ExpiredIn(old(View()), now, expired)) &&
                              finished == old(finished) + SweepLog(order)
    {
      var dirty: seq<nat> := [];
      var left := callbacks.Keys;
      assert finished == finished + SweepLog(dirty);
      while left != {}
        invariant left <= callbacks.Keys && callbacks == old(callbacks) && disposing == old(disposing)
        invariant forall x | x in dirty :: x in callbacks && x !in left && expired(callbacks[x], now)
        invariant forall x | x in callbacks && x !in left && expired(callbacks[x], now) :: x in dirty
        invariant forall i, j | 0 <= i < j < |dirty| :: dirty[i] != dirty[j]
        invariant finished == old(finished) + SweepLog(dirty)
        decreases left
      {
        var s :| s in left;
        if expired(callbacks[s], now) {
          Complete(Finished(s, BySweep, Failed(TIMED_OUT)));
          SweepLogSnoc(dirty, s);
          dirty := dirty + [s];
        }
        left := left - {s};
      }
      assert Lists(dirty, ExpiredIn(old(View()), now, expired));
      DeleteAll(dirty);
      assert (set s | s in dirty) == ExpiredIn(old(View()), now, expired);
    }

    method DeleteAll(dirty: seq<nat>)
      modifies this`callbacks
      ensures callbacks == old(callbacks) - (set s | s in dirty)
    {
      for i := 0 to |dirty|
        invariant callbacks == old(callbacks) - (set s | s in dirty[..i])
      {
        assert dirty[..i + 1] == dirty[..i] + [dirty[i]];
        callbacks := callbacks - {dirty[i]};
      }
      assert dirty[..|dirty|] == dirty;
    }

    method Request(clock: Snow.Clock, now: int, timeout: int, name: Str, args: Body, wantsReply: bool,
                   viaDone: bool, sendErr: Option<Str>)
      returns (sent: Option<Exch>, err: Option<Str>, seqNo: nat)
      requires wantsReply ==> Snow.CanTick(seed.At(), clock.ahead)
      modifies this, seed, clock
      ensures var id := Snow.IdOf(seed.At());
              var entry := if wantsReply then Some((id, Call(viaDone, now + timeout))) else None;
              Requested(View(), seqNo, sent, err) == RequestOf(old(View()), name, args, entry, sendErr)
      ensures finished == old(finished)
    {
      seqNo := 0;
      if wantsReply {
        var call;
        seqNo, call := BuildCall(clock, now, timeout, viaDone);
      }
      var info := SplitMethod(name);
      if info.None? { return None, Some(BAD_METHOD + name), seqNo; }
      var e := Exch(nick, info.value.0, info.value.1, seqNo, 0, [], Some(args));
      if sendErr.Some? { return None, sendErr, seqNo; }
      return Some(e), None, seqNo;
    }

    /** Call runs done(err) itself when request fails; the entry stays. */
    method CallWithDone(clock: Snow.Clock, now: int, timeout: int, name: Str, args: Body, wantsReply: bool,
                 sendErr: Option<Str>)
      returns (sent: Option<Exch>)
      requires wantsReply ==> Snow.CanTick(seed.At(), clock.ahead)
      modifies this, seed, clock
      ensures var id := Snow.IdOf(seed.At());
              var entry := if wantsReply then Some((id, Call(true, now + timeout))) else None;
              var r := RequestOf(old(View()), name, args, entry, sendErr);
              View() == r.peer && sent == r.sent &&
              finished == old(finished) + if r.err.Some? then [Finished(r.seqNo, ByRefusal, Failed(r.err.value))] else []
    {
      var err, seqNo;
      sent, err, seqNo := Request(clock, now, timeout, name, args, wantsReply, true, sendErr);
      if err.Some? {
        Complete(Finished(seqNo, ByRefusal, Failed(err.value)));
      }
    }

    method Response(e: Exch, reply: Option<Body>, err: Option<Str>) returns (out: Option<Exch>)
      ensures out == ResponseTo(e, Answer(reply, err))
    {
      out := None;
      if e.seqNo != 0 {
        var text: Str := [];
        if err.Some? {
          text := err.value;
        }
        out := Some(Exch(e.to, e.from, [], e.seqNo, 1, text, reply));
      }
    }

    /** dealExchange. `self` is this node's id; a response from the node itself is
        not decoded. */
    method DealExchange(self: Str, src: Str, e: Exch, env: Env, decodeErr: Option<Str>) returns (out: Option<Exch>)
      modifies this
      ensures e.ret == 0 ==>
                out == ResponseTo(e, AnswerTo(old(View()), src, e, env)) &&
                View() == old(View()) && finished == old(finished)
      ensures e.ret != 0 ==>
                var (p, fs) := TakeResponse(old(View()), e, if src == self then None else decodeErr);
                out == None && View() == p && finished == old(finished) + fs
    {
      out := None;
      if e.ret == 0 {
        if inner && IsGuest(src) {
          out := Response(e, None, Some(NO_ACCESS + nick));
          return;
        }
        if env.pre.Some? {
          out := Response(e, None, env.pre);
          return;
        }
        if !env.registered {
          out := Response(e, None, Some(NO_METHOD + e.fn));
          return;
        }
        if env.args.Some? {
          out := Response(e, None, env.args);
          return;
        }
        if env.ran.Panics? { return; }
        if env.meta && env.ran.err.Some? {
          out := Response(e, None, env.ran.err);
          return;
        }
        out := Response(e, Some(env.ran.reply), env.ran.err);
      } else {
        var call := TakeoutCall(e.seqNo);
        if call.Some? {
          var result := Replied(e.body);
          if e.err != [] {
            result := Failed(e.err);
          } else if src != self && decodeErr.Some? {
            result := Failed(decodeErr.value);
          }
          Complete(Finished(e.seqNo, ByResponse(if src == self then None else decodeErr), result));
        } else {
          assert callbacks == old(callbacks);
        }
      }
    }
  }

  lemma {:induction false} SweepLogSnoc(order: seq<nat>, s: nat)
    ensures SweepLog(order + [s]) == SweepLog(order) + [Finished(s, BySweep, Failed(TIMED_OUT))]
  {
    if order == [] {
      var one: seq<nat> := [s];
      assert order + [s] == one && one[1..] == [];
    } else {
      SweepLogSnoc(order[1..], s);
      assert (order + [s])[1..] == order[1..] + [s];
    }
  }

  // ---- The timeout test as it stands ----

  /** For an entry built at time t with timeout T, the code's test expires it at every
      sweep before t + T and at no sweep from t + T on: the reverse of a deadline. */
  lemma SweepIsReversed(p: PeerState, s: nat, t: int, timeout: int, now: int)
    requires s in p.callbacks && p.callbacks[s].deadline == t + timeout
    ensures s in Swept(p, now, CODE_EXPIRY).callbacks <==> t + timeout <= now
  {
  }
}
