/** The call protocol of package peers as a system of steps: nodes with their peers
    and id generators, and a bag of exchanges in flight that may be delivered in any
    order, late, more than once or not at all. */
module Rpc {
  import opened Wrappers
  import opened Bytes
  import opened Peers
  import Snow = Snowflake

  datatype Node = Node(seed: Snow.State, peers: map<Str, PeerState>)

  datatype Packet = Packet(src: Str, dst: Str, e: Exch)

  /** A call: the node and peer that issued it, and its sequence number there. */
  datatype Key = Key(node: Str, nick: Str, seqNo: nat)

  /** What was asked for, and whether request returned nil. */
  datatype Issue = Issue(ok: bool, viaDone: bool, dst: Str, name: Str, args: Body)

  /** A request that was handled, how, and what the handling came to. */
  datatype Answered = Answered(key: Key, dst: Str, to: Str, fn: Str, args: Option<Body>, denied: bool, env: Env,
                               answer: Answer)

  datatype Completion = Completion(key: Key, f: Finished)

  /** nodes and net are the system; done, issued and answered record its history. */
  datatype World = World(
    nodes: map<Str, Node>,
    net: seq<Packet>,
    done: seq<Completion>,
    issued: map<Key, Issue>,
    answered: set<Answered>
  )

  // ---- Steps ----

  datatype Step =
    | Request(node: Str, nick: Str, dst: Str, name: Str, args: Body, wantsReply: bool, viaDone: bool,
              tick: Snow.Tick, deadline: int, sendErr: Option<Str>)
    | Deliver(i: nat, keep: bool, env: Env, decodeErr: Option<Str>, replies: bool)
    | Lose(i: nat)
    | Sweep(node: Str, nick: Str, now: int, order: seq<nat>)
    | Dispose(node: Str, nick: Str)
    | OtherId(node: Str, tick: Snow.Tick)

  predicate HasPeer(w: World, n: Str, k: Str) {
    n in w.nodes && k in w.nodes[n].peers
  }

  function PeerAt(w: World, n: Str, k: Str): PeerState
    requires HasPeer(w, n, k)
  {
    w.nodes[n].peers[k]
  }

  function PutPeer(w: World, n: Str, k: Str, p: PeerState): World
    requires HasPeer(w, n, k)
  {
    w.(nodes := w.nodes[n := w.nodes[n].(peers := w.nodes[n].peers[k := p])])
  }

  function PutSeed(w: World, n: Str, s: Snow.State): World
    requires n in w.nodes
  {
    w.(nodes := w.nodes[n := w.nodes[n].(seed := s)])
  }

  predicate TickOk(s: Snow.State, t: Snow.Tick) {
    Snow.ClockOk(s, t.now, t.later) && Snow.InRange(Snow.Next(s, t.now, t.later)) &&
    Snow.EPOCH < Snow.Next(s, t.now, t.later).timestamp
  }

  ghost predicate Allowed(w: World, s: Step, expired: Expiry) {
    match s
    case Request(n, k, _, _, _, wantsReply, _, tick, _, _) =>
      HasPeer(w, n, k) && (wantsReply ==> TickOk(w.nodes[n].seed, tick))
    case Deliver(i, _, _, _, _) => i < |w.net|
    case Lose(i) => i < |w.net|
    case Sweep(n, k, now, order) => HasPeer(w, n, k) && Lists(order, ExpiredIn(PeerAt(w, n, k), now, expired))
    case Dispose(n, k) => HasPeer(w, n, k)
    case OtherId(n, tick) => n in w.nodes && TickOk(w.nodes[n].seed, tick)
  }

  function Without(net: seq<Packet>, i: nat): seq<Packet>
    requires i < |net|
  {
    net[..i] + net[i + 1..]
  }

  function Log(n: Str, k: Str, fs: seq<Finished>): seq<Completion> {
    if fs == [] then [] else [Completion(Key(n, k, fs[0].seqNo), fs[0])] + Log(n, k, fs[1..])
  }

  function Next(w: World, s: Step, expired: Expiry): World
    requires Allowed(w, s, expired)
  {
    match s
    case Request(_, _, _, _, _, _, _, _, _, _) => AfterRequest(w, s)
    case Deliver(i, keep, env, decodeErr, replies) =>
      var p := w.net[i];
      var w' := if keep then w else w.(net := Without(w.net, i));
      Received(w', p, env, decodeErr, replies)
    case Lose(i) => w.(net := Without(w.net, i))
    case Sweep(n, k, now, order) =>
      var w' := PutPeer(w, n, k, Swept(PeerAt(w, n, k), now, expired));
      w'.(done := w.done + Log(n, k, SweepLog(order)))
    case Dispose(n, k) => PutPeer(w, n, k, PeerAt(w, n, k).(disposing := true))
    case OtherId(n, tick) => PutSeed(w, n, Snow.Next(w.nodes[n].seed, tick.now, tick.later))
  }

  /** What request does in a Request step: the peer's new state, what is sent, and
      the error. */
  function Asked(w: World, s: Step): Requested
    requires s.Request? && HasPeer(w, s.node, s.nick)
  {
    var id := Snow.IdOf(Snow.Next(w.nodes[s.node].seed, s.tick.now, s.tick.later));
    var entry := if s.wantsReply then Some((id, Call(s.viaDone, s.deadline))) else None;
    RequestOf(PeerAt(w, s.node, s.nick), s.name, s.args, entry, s.sendErr)
  }

  function AfterRequest(w: World, s: Step): World
    requires s.Request? && HasPeer(w, s.node, s.nick)
  {
    var seed := Snow.Next(w.nodes[s.node].seed, s.tick.now, s.tick.later);
    var r := Asked(w, s);
    var key := Key(s.node, s.nick, r.seqNo);
    World(
      PutPeer(if s.wantsReply then PutSeed(w, s.node, seed) else w, s.node, s.nick, r.peer).nodes,
      if r.sent.Some? then w.net + [Packet(s.node, s.dst, r.sent.value)] else w.net,
      if r.err.Some? && s.viaDone then
        w.done + [Completion(key, Finished(r.seqNo, ByRefusal, Failed(r.err.value)))]
      else
        w.done,
      if s.wantsReply then w.issued[key := Issue(r.err.None?, s.viaDone, s.dst, s.name, s.args)] else w.issued,
      w.answered)
  }

  /** localExchange: nothing, if the peer is not there or is disposed of. */
  function Received(w: World, p: Packet, env: Env, decodeErr: Option<Str>, replies: bool): World {
    if !HasPeer(w, p.dst, p.e.to) || PeerAt(w, p.dst, p.e.to).disposing then w
    else if p.e.ret == 0 then AfterHandling(w, p, env, replies)
    else AfterResponse(w, p, decodeErr)
  }

  function AfterHandling(w: World, p: Packet, env: Env, replies: bool): World
    requires HasPeer(w, p.dst, p.e.to)
  {
    var a := AnswerTo(PeerAt(w, p.dst, p.e.to), p.src, p.e, env);
    var out := ResponseTo(p.e, a);
    w.(net := if out.Some? && replies then w.net + [Packet(p.dst, p.src, out.value)] else w.net,
       answered := if out.Some? then w.answered + {AnsweredBy(w, p, env, a)} else w.answered)
  }

  function AnsweredBy(w: World, p: Packet, env: Env, a: Answer): Answered
    requires HasPeer(w, p.dst, p.e.to)
  {
    Answered(Key(p.src, p.e.from, p.e.seqNo), p.dst, p.e.to, p.e.fn, p.e.body,
             PeerAt(w, p.dst, p.e.to).inner && IsGuest(p.src), env, a)
  }

  function AfterResponse(w: World, p: Packet, decodeErr: Option<Str>): World
    requires HasPeer(w, p.dst, p.e.to)
  {
    var (q, fs) := TakeResponse(PeerAt(w, p.dst, p.e.to), p.e, if p.src == p.dst then None else decodeErr);
    PutPeer(w, p.dst, p.e.to, q).(done := w.done + Log(p.dst, p.e.to, fs))
  }

  // ---- Counting completions ----

  /** Completions of a call by response or by sweep. */
  function Finals(done: seq<Completion>, key: Key): nat {
    if done == [] then
      0
    else
      var c := done[|done| - 1];
      Finals(done[..|done| - 1], key) + (if c.key == key && !c.f.cause.ByRefusal? then 1 else 0)
  }

  /** Completions of a call by Call itself, after request returned an error. */
  function Refusals(done: seq<Completion>, key: Key): nat {
    if done == [] then
      0
    else
      var c := done[|done| - 1];
      Refusals(done[..|done| - 1], key) + (if c.key == key && c.f.cause.ByRefusal? then 1 else 0)
  }

  function Completions(done: seq<Completion>, key: Key): nat {
    Finals(done, key) + Refusals(done, key)
  }

  lemma CountSnoc(done: seq<Completion>, c: Completion, key: Key)
    ensures Finals(done + [c], key) == Finals(done, key) + (if c.key == key && !c.f.cause.ByRefusal? then 1 else 0)
    ensures Refusals(done + [c], key) == Refusals(done, key) + (if c.key == key && c.f.cause.ByRefusal? then 1 else 0)
  {
    assert (done + [c])[..|done|] == done;
  }

  lemma {:induction false} CountSweep(done: seq<Completion>, n: Str, k: Str, order: seq<nat>, key: Key)
    requires forall i, j | 0 <= i < j < |order| :: order[i] != order[j]
    ensures var done' := done + Log(n, k, SweepLog(order));
            Refusals(done', key) == Refusals(done, key) &&
            Finals(done', key) ==
            Finals(done, key) + (if key.node == n && key.nick == k && key.seqNo in order then 1 else 0)
    decreases |order|
  {
    if order == [] {
      assert done + Log(n, k, SweepLog(order)) == done;
    } else {
      var f := Finished(order[0], BySweep, Failed(TIMED_OUT));
      var c := Completion(Key(n, k, order[0]), f);
      assert SweepLog(order)[1..] == SweepLog(order[1..]);
      assert done + Log(n, k, SweepLog(order)) == (done + [c]) + Log(n, k, SweepLog(order[1..]));
      CountSnoc(done, c, key);
      CountSweep(done + [c], n, k, order[1..], key);
      assert order[0] !in order[1..];
    }
  }

  // ---- Invariants ----

  predicate Pending(w: World, key: Key) {
    HasPeer(w, key.node, key.nick) && key.seqNo in PeerAt(w, key.node, key.nick).callbacks
  }

  /** Every call's number is one that its node's generator has given out. */
  ghost predicate IdsOk(w: World) {
    && (forall n | n in w.nodes :: w.nodes[n].seed.seed <= Snow.SEED_MAX)
    && (forall key | key in w.issued ::
          HasPeer(w, key.node, key.nick) && Snow.InRange(w.nodes[key.node].seed) &&
          0 < key.seqNo <= Snow.IdOf(w.nodes[key.node].seed))
  }

  /** A call is in its peer's table until it is completed by response or sweep, and
      it is so completed exactly once; Call itself has completed it exactly when its
      request failed. */
  ghost predicate CountsOk(w: World) {
    && (forall key | Pending(w, key) :: key in w.issued)
    && (forall key: Key :: Finals(w.done, key) == if key in w.issued && !Pending(w, key) then 1 else 0)
    && (forall key: Key | key.seqNo != 0 ::
          Refusals(w.done, key) ==
          if key in w.issued && !w.issued[key].ok && w.issued[key].viaDone then 1 else 0)
  }

  /** The request belongs to a call whose request returned nil, and says what that
      call asked. */
  predicate AsksFor(w: World, key: Key, dst: Str, to: Str, fn: Str, args: Option<Body>) {
    key in w.issued && w.issued[key].ok && w.issued[key].dst == dst &&
    SplitMethod(w.issued[key].name) == Some((to, fn)) && args == Some(w.issued[key].args)
  }

  function ErrText(a: Answer): Str {
    if a.Answer? && a.err.Some? then a.err.value else []
  }

  /** Some handling of this call's request came to this error text and body. */
  ghost predicate HasAnswer(w: World, key: Key, err: Str, body: Option<Body>) {
    exists a :: a in w.answered && a.key == key && a.answer.Answer? && ErrText(a.answer) == err && a.answer.reply == body
  }

  ghost predicate PacketOk(w: World, p: Packet) {
    if p.e.ret == 0 then
      p.e.seqNo != 0 ==> AsksFor(w, Key(p.src, p.e.from, p.e.seqNo), p.dst, p.e.to, p.e.fn, p.e.body)
    else
      p.e.seqNo != 0 && HasAnswer(w, Key(p.dst, p.e.to, p.e.seqNo), p.e.err, p.e.body)
  }

  /** Nothing of the request was run, for this reason; or it was run. */
  datatype Course = Refused(why: Str) | WasRun

  /** The checks, in their order. */
  function CourseOf(a: Answered): Course {
    if a.denied then Refused(NO_ACCESS + a.to)
    else if a.env.pre.Some? then Refused(a.env.pre.value)
    else if !a.env.registered then Refused(NO_METHOD + a.fn)
    else if a.env.args.Some? then Refused(a.env.args.value)
    else WasRun
  }

  /** The answer is the reason of a refusal without a reply, or what the handler
      returned. */
  predicate Fits(a: Answered) {
    match CourseOf(a)
    case Refused(why) => a.answer == Answer(None, Some(why))
    case WasRun =>
      a.env.ran.Returns? && a.answer.Answer? && a.answer.err == a.env.ran.err &&
      a.answer.reply == if a.env.meta && a.env.ran.err.Some? then None else Some(a.env.ran.reply)
  }

  /** A completion by response tells what some handling of that call's own request
      came to; one by the sweep, that the time is over; one by Call, an error. */
  ghost predicate CompletionOk(w: World, c: Completion) {
    && c.f.seqNo == c.key.seqNo
    && (c.f.cause.ByResponse? ==>
          exists a :: a in w.answered && a.key == c.key && a.answer.Answer? &&
                      c.f.result == ResultOf(ErrText(a.answer), a.answer.reply, c.f.cause.decodeErr))
    && (c.f.cause.BySweep? ==> c.f.result == Failed(TIMED_OUT))
    && (c.f.cause.ByRefusal? ==> c.f.result.Failed?)
  }

  ghost predicate MessagesOk(w: World) {
    && (forall i | 0 <= i < |w.net| :: PacketOk(w, w.net[i]))
    && (forall a | a in w.answered :: AsksFor(w, a.key, a.dst, a.to, a.fn, a.args) && Fits(a))
    && (forall i | 0 <= i < |w.done| :: CompletionOk(w, w.done[i]))
  }

  /** PeerState.nick is the name it is registered under. */
  ghost predicate NamesOk(w: World) {
    forall n, k | HasPeer(w, n, k) :: PeerAt(w, n, k).nick == k
  }

  ghost predicate Inv(w: World) {
    NamesOk(w) && IdsOk(w) && CountsOk(w) && MessagesOk(w)
  }

  /** A system that has not done anything yet. */
  ghost predicate Initial(w: World) {
    && w.net == [] && w.done == [] && w.issued == map[] && w.answered == {}
    && (forall n | n in w.nodes :: w.nodes[n].seed.seed <= Snow.SEED_MAX)
    && (forall n, k | HasPeer(w, n, k) :: PeerAt(w, n, k).nick == k && PeerAt(w, n, k).callbacks == map[])
  }
}
