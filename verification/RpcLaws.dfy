/** What every run of the call protocol keeps, whatever is lost, delayed, reordered or
    duplicated, and whatever test decides that a call has expired. */
module RpcLaws {
  import opened Wrappers
  import opened Bytes
  import opened Peers
  import opened Rpc
  import Snow = Snowflake

  // ---- History only grows ----

  ghost predicate Extends(w: World, w': World) {
    && w.issued.Keys <= w'.issued.Keys
    && (forall key | key in w.issued :: w'.issued[key] == w.issued[key])
    && w.answered <= w'.answered
  }

  lemma AnswerStays(w: World, w': World, key: Key, err: Str, body: Option<Body>)
    requires Extends(w, w') && HasAnswer(w, key, err, body)
    ensures HasAnswer(w', key, err, body)
  {
    var a :| a in w.answered && a.key == key && a.answer.Answer? && ErrText(a.answer) == err && a.answer.reply == body;
    assert a in w'.answered;
  }

  lemma PacketStays(w: World, w': World, p: Packet)
    requires Extends(w, w') && PacketOk(w, p)
    ensures PacketOk(w', p)
  {
    if p.e.ret != 0 {
      AnswerStays(w, w', Key(p.dst, p.e.to, p.e.seqNo), p.e.err, p.e.body);
    }
  }

  lemma CompletionStays(w: World, w': World, c: Completion)
    requires Extends(w, w') && CompletionOk(w, c)
    ensures CompletionOk(w', c)
  {
    if c.f.cause.ByResponse? {
      var a :| a in w.answered && a.key == c.key && a.answer.Answer? &&
               c.f.result == ResultOf(ErrText(a.answer), a.answer.reply, c.f.cause.decodeErr);
      assert a in w'.answered;
    }
  }

  /** Where only new packets, answers and completions have to be looked at. */
  lemma MessagesStay(w: World, w': World)
    requires Extends(w, w') && MessagesOk(w)
    requires forall i | 0 <= i < |w'.net| :: w'.net[i] in w.net || PacketOk(w', w'.net[i])
    requires forall a | a in w'.answered :: a in w.answered || (AsksFor(w', a.key, a.dst, a.to, a.fn, a.args) && Fits(a))
    requires forall i | 0 <= i < |w'.done| :: w'.done[i] in w.done || CompletionOk(w', w'.done[i])
    ensures MessagesOk(w')
  {
    forall i | 0 <= i < |w'.net| ensures PacketOk(w', w'.net[i]) {
      if w'.net[i] in w.net { PacketStays(w, w', w'.net[i]); }
    }
    forall i | 0 <= i < |w'.done| ensures CompletionOk(w', w'.done[i]) {
      if w'.done[i] in w.done { CompletionStays(w, w', w'.done[i]); }
    }
  }

  // ---- Tables ----

  lemma PutPeerViews(w: World, n: Str, k: Str, p: PeerState)
    requires HasPeer(w, n, k) && p.nick == PeerAt(w, n, k).nick
    ensures var w' := PutPeer(w, n, k, p);
            SameIds(w, w') && (NamesOk(w) ==> NamesOk(w')) &&
            forall key: Key :: Pending(w', key) ==
                               if key.node == n && key.nick == k then key.seqNo in p.callbacks else Pending(w, key)
  {
    var w' := PutPeer(w, n, k, p);
    assert forall a, b :: HasPeer(w', a, b) == HasPeer(w, a, b);
    assert forall a, b | HasPeer(w', a, b) :: PeerAt(w', a, b) == if a == n && b == k then p else PeerAt(w, a, b);
  }

  lemma PutSeedViews(w: World, n: Str, s: Snow.State)
    requires n in w.nodes
    ensures var w' := PutSeed(w, n, s);
            w'.nodes.Keys == w.nodes.Keys &&
            (forall a | a in w'.nodes :: w'.nodes[a].seed == if a == n then s else w.nodes[a].seed) &&
            (forall a, b :: HasPeer(w', a, b) == HasPeer(w, a, b)) &&
            (forall a, b | HasPeer(w', a, b) :: PeerAt(w', a, b) == PeerAt(w, a, b)) &&
            (NamesOk(w) ==> NamesOk(w')) &&
            forall key: Key :: Pending(w', key) == Pending(w, key)
  {
    var w' := PutSeed(w, n, s);
    assert forall a, b :: HasPeer(w', a, b) == HasPeer(w, a, b);
    assert forall a, b | HasPeer(w', a, b) :: PeerAt(w', a, b) == PeerAt(w, a, b);
  }

  /** Same generators and calls. */
  ghost predicate SameIds(w: World, w': World) {
    && w'.issued == w.issued && w'.nodes.Keys == w.nodes.Keys
    && (forall n | n in w.nodes :: w'.nodes[n].seed == w.nodes[n].seed)
    && (forall n, k :: HasPeer(w', n, k) == HasPeer(w, n, k))
  }

  lemma IdsStay(w: World, w': World)
    requires IdsOk(w) && SameIds(w, w')
    ensures IdsOk(w')
  {
  }

  /** The calls of `gone`, all pending, leave their tables and are completed. */
  lemma CountsMove(w: World, w': World, gone: set<Key>)
    requires CountsOk(w) && w'.issued == w.issued
    requires forall key | key in gone :: Pending(w, key)
    requires forall key: Key :: Pending(w', key) == (Pending(w, key) && key !in gone)
    requires forall key: Key :: Finals(w'.done, key) == Finals(w.done, key) + (if key in gone then 1 else 0)
    requires forall key: Key :: Refusals(w'.done, key) == Refusals(w.done, key)
    ensures CountsOk(w')
  {
  }

  /** Packets and answers do not matter to the tables. */
  lemma BooksStay(w: World, w': World)
    requires NamesOk(w) && IdsOk(w) && CountsOk(w)
    requires w'.nodes == w.nodes && w'.issued == w.issued && w'.done == w.done
    ensures NamesOk(w') && IdsOk(w') && CountsOk(w')
  {
    assert forall a, b :: HasPeer(w', a, b) == HasPeer(w, a, b);
    assert forall a, b | HasPeer(w', a, b) :: PeerAt(w', a, b) == PeerAt(w, a, b);
    IdsStay(w, w');
    assert forall key: Key :: Pending(w', key) == Pending(w, key);
    CountsMove(w, w', {});
  }

  // ---- Issuing ----

  /** A number just generated is not zero and above all the node gave out before. */
  lemma FreshNumber(w: World, n: Str, tick: Snow.Tick)
    requires IdsOk(w) && n in w.nodes && TickOk(w.nodes[n].seed, tick)
    ensures var s := Snow.Next(w.nodes[n].seed, tick.now, tick.later);
            Snow.InRange(s) && 0 < Snow.IdOf(s) &&
            forall key | key in w.issued && key.node == n :: key.seqNo < Snow.IdOf(s)
  {
    var s := Snow.Next(w.nodes[n].seed, tick.now, tick.later);
    Snow.IdNotZero(s);
    forall key | key in w.issued && key.node == n ensures key.seqNo < Snow.IdOf(s) {
      Snow.NextIncreases(w.nodes[n].seed, tick.now, tick.later);
    }
  }

  /** One call, or one event, has been issued: what request does to the tables and to
      the history. */
  ghost predicate Issues(w: World, w': World, key: Key, issue: Issue, called: bool) {
    && (forall k: Key :: Pending(w', k) == (Pending(w, k) || (called && k == key)))
    && w'.issued == (if called then w.issued[key := issue] else w.issued)
    && (if !issue.ok && issue.viaDone then
          |w'.done| == |w.done| + 1 && w'.done[..|w.done|] == w.done &&
          w'.done[|w.done|].key == key && w'.done[|w.done|].f.cause.ByRefusal?
        else
          w'.done == w.done)
  }

  lemma CountsIssue(w: World, w': World, key: Key, issue: Issue, called: bool)
    requires CountsOk(w) && Issues(w, w', key, issue, called)
    requires if called then key !in w.issued && key.seqNo != 0 else key.seqNo == 0
    ensures CountsOk(w')
  {
    if !issue.ok && issue.viaDone {
      var c := w'.done[|w.done|];
      assert w'.done == w.done + [c];
      forall k: Key ensures
        Finals(w'.done, k) == Finals(w.done, k) &&
        Refusals(w'.done, k) == Refusals(w.done, k) + (if k == key then 1 else 0)
      {
        CountSnoc(w.done, c, k);
      }
    }
  }

  lemma RequestIssues(w: World, w': World, s: Step, seed: Snow.State, r: Requested)
    requires s.Request? && HasPeer(w, s.node, s.nick) && NamesOk(w)
    requires w' == AfterRequest(w, s) && r == Asked(w, s)
    requires seed == Snow.Next(w.nodes[s.node].seed, s.tick.now, s.tick.later)
    ensures NamesOk(w') && w'.nodes.Keys == w.nodes.Keys
    ensures forall n, k :: HasPeer(w', n, k) == HasPeer(w, n, k)
    ensures forall n | n in w.nodes ::
              w'.nodes[n].seed == if s.wantsReply && n == s.node then seed else w.nodes[n].seed
    ensures Issues(w, w', Key(s.node, s.nick, r.seqNo), Issue(r.err.None?, s.viaDone, s.dst, s.name, s.args), s.wantsReply)
  {
    var w1 := if s.wantsReply then PutSeed(w, s.node, seed) else w;
    if s.wantsReply { PutSeedViews(w, s.node, seed); }
    var w2 := PutPeer(w1, s.node, s.nick, r.peer);
    PutPeerViews(w1, s.node, s.nick, r.peer);
    DoneViews(w', w2);
  }

  lemma RequestCounts(w: World, w': World, s: Step)
    requires s.Request? && HasPeer(w, s.node, s.nick) && (s.wantsReply ==> TickOk(w.nodes[s.node].seed, s.tick))
    requires NamesOk(w) && IdsOk(w) && CountsOk(w) && w' == AfterRequest(w, s)
    ensures CountsOk(w') && Extends(w, w')
  {
    var seed := Snow.Next(w.nodes[s.node].seed, s.tick.now, s.tick.later);
    var r := Asked(w, s);
    var issue := Issue(r.err.None?, s.viaDone, s.dst, s.name, s.args);
    var key := Key(s.node, s.nick, r.seqNo);
    if s.wantsReply { FreshNumber(w, s.node, s.tick); }
    RequestIssues(w, w', s, seed, r);
    CountsIssue(w, w', key, issue, s.wantsReply);
  }

  lemma RequestNumbers(w: World, w': World, s: Step)
    requires s.Request? && HasPeer(w, s.node, s.nick) && (s.wantsReply ==> TickOk(w.nodes[s.node].seed, s.tick))
    requires NamesOk(w) && IdsOk(w) && w' == AfterRequest(w, s)
    ensures NamesOk(w') && IdsOk(w')
  {
    var seed := Snow.Next(w.nodes[s.node].seed, s.tick.now, s.tick.later);
    var r := Asked(w, s);
    var issue := Issue(r.err.None?, s.viaDone, s.dst, s.name, s.args);
    var key := Key(s.node, s.nick, r.seqNo);
    if s.wantsReply { FreshNumber(w, s.node, s.tick); }
    RequestIssues(w, w', s, seed, r);
    RequestIds(w, w', key, issue, s.wantsReply, seed);
  }

  lemma RequestKeeps(w: World, s: Step)
    requires s.Request? && HasPeer(w, s.node, s.nick) && (s.wantsReply ==> TickOk(w.nodes[s.node].seed, s.tick))
    requires Inv(w)
    ensures Inv(AfterRequest(w, s))
  {
    var w' := AfterRequest(w, s);
    var r := Asked(w, s);
    RequestCounts(w, w', s);
    RequestNumbers(w, w', s);
    RequestMessages(w, w', Key(s.node, s.nick, r.seqNo), Issue(r.err.None?, s.viaDone, s.dst, s.name, s.args),
                    s.wantsReply, r);
  }

  lemma RequestIds(w: World, w': World, key: Key, issue: Issue, called: bool, s: Snow.State)
    requires IdsOk(w) && Issues(w, w', key, issue, called) && w'.nodes.Keys == w.nodes.Keys
    requires forall n, k :: HasPeer(w', n, k) == HasPeer(w, n, k)
    requires forall n | n in w.nodes ::
               w'.nodes[n].seed == if called && n == key.node then s else w.nodes[n].seed
    requires HasPeer(w, key.node, key.nick)
    requires called ==> Snow.InRange(s) && key.seqNo == Snow.IdOf(s) && 0 < key.seqNo
    requires called ==> forall k | k in w.issued && k.node == key.node :: k.seqNo < key.seqNo
    ensures IdsOk(w')
  {
  }

  lemma RequestMessages(w: World, w': World, key: Key, issue: Issue, called: bool, r: Requested)
    requires MessagesOk(w) && Extends(w, w')
    requires called ==> key in w'.issued && w'.issued[key] == issue
    requires forall i | 0 <= i < |w'.done| ::
               w'.done[i] in w.done ||
               (w'.done[i].f.cause.ByRefusal? && w'.done[i].f.result.Failed? && w'.done[i].f.seqNo == w'.done[i].key.seqNo)
    requires r.sent.Some? ==>
               issue.ok && r.sent.value.ret == 0 && r.sent.value.from == key.nick && r.sent.value.seqNo == key.seqNo &&
               r.sent.value.body == Some(issue.args) &&
               SplitMethod(issue.name) == Some((r.sent.value.to, r.sent.value.fn))
    requires !called ==> key.seqNo == 0
    requires w'.net == if r.sent.Some? then w.net + [Packet(key.node, issue.dst, r.sent.value)] else w.net
    requires w'.answered == w.answered
    ensures MessagesOk(w')
  {
    if r.sent.Some? {
      assert PacketOk(w', Packet(key.node, issue.dst, r.sent.value));
    }
    MessagesStay(w, w');
  }

  // ---- Handling a request ----

  lemma AnswerFits(w: World, p: Packet, env: Env)
    requires NamesOk(w) && HasPeer(w, p.dst, p.e.to)
    ensures var a := AnswerTo(PeerAt(w, p.dst, p.e.to), p.src, p.e, env);
            a.Answer? ==> Fits(AnsweredBy(w, p, env, a))
  {
  }

  lemma HandlingMessages(w: World, p: Packet, env: Env, replies: bool)
    requires NamesOk(w) && MessagesOk(w) && PacketOk(w, p) && p.e.ret == 0 && HasPeer(w, p.dst, p.e.to)
    ensures MessagesOk(AfterHandling(w, p, env, replies))
  {
    var w' := AfterHandling(w, p, env, replies);
    var a := AnswerTo(PeerAt(w, p.dst, p.e.to), p.src, p.e, env);
    var out := ResponseTo(p.e, a);
    assert Extends(w, w');
    if out.Some? {
      AnswerFits(w, p, env);
      assert AnsweredBy(w, p, env, a) in w'.answered;
      assert HasAnswer(w', Key(p.src, p.e.from, p.e.seqNo), out.value.err, out.value.body);
      assert PacketOk(w', Packet(p.dst, p.src, out.value));
    }
    MessagesStay(w, w');
  }

  lemma HandlingKeeps(w: World, p: Packet, env: Env, replies: bool)
    requires Inv(w) && PacketOk(w, p) && p.e.ret == 0 && HasPeer(w, p.dst, p.e.to)
    ensures Inv(AfterHandling(w, p, env, replies))
  {
    BooksStay(w, AfterHandling(w, p, env, replies));
    HandlingMessages(w, p, env, replies);
  }

  // ---- Taking a response ----

  function Taken(p: Packet, decodeErr: Option<Str>): Completion {
    var d := if p.src == p.dst then None else decodeErr;
    Completion(Key(p.dst, p.e.to, p.e.seqNo), Finished(p.e.seqNo, ByResponse(d), ResultOf(p.e.err, p.e.body, d)))
  }

  /** A response completes its call and removes it; a late or repeated one, whose call
      is no longer pending, changes nothing at all. */
  lemma ResponseOnce(w: World, p: Packet, decodeErr: Option<Str>)
    requires HasPeer(w, p.dst, p.e.to)
    ensures var w' := AfterResponse(w, p, decodeErr);
            var c := Taken(p, decodeErr);
            if Pending(w, c.key) then
              w'.done == w.done + [c] && !Pending(w', c.key) &&
              w' == PutPeer(w, p.dst, p.e.to, TakeResponse(PeerAt(w, p.dst, p.e.to), p.e, c.f.cause.decodeErr).0).(done := w'.done)
            else
              w' == w
  {
    var c := Taken(p, decodeErr);
    var fs := [c.f];
    assert fs[1..] == [] && Log(p.dst, p.e.to, fs[1..]) == [];
    assert Log(p.dst, p.e.to, fs) == [c];
    if !Pending(w, c.key) {
      assert Log(p.dst, p.e.to, []) == [];
      var node := w.nodes[p.dst];
      assert node.peers[p.e.to := node.peers[p.e.to]] == node.peers;
      assert w.nodes[p.dst := node] == w.nodes;
    }
  }

  lemma ResponseCounts(w: World, w': World, c: Completion)
    requires CountsOk(w) && !c.f.cause.ByRefusal?
    requires Pending(w, c.key) && w'.issued == w.issued && w'.done == w.done + [c]
    requires forall key: Key :: Pending(w', key) == (Pending(w, key) && key != c.key)
    ensures CountsOk(w')
  {
    forall key: Key ensures
      Refusals(w'.done, key) == Refusals(w.done, key) &&
      Finals(w'.done, key) == Finals(w.done, key) + (if key in {c.key} then 1 else 0)
    {
      CountSnoc(w.done, c, key);
    }
    CountsMove(w, w', {c.key});
  }

  lemma ResponseMessages(w: World, w': World, p: Packet, decodeErr: Option<Str>)
    requires MessagesOk(w) && PacketOk(w, p) && p.e.ret != 0
    requires w'.net == w.net && w'.issued == w.issued && w'.answered == w.answered
    requires w'.done == w.done + [Taken(p, decodeErr)]
    ensures MessagesOk(w')
  {
    assert CompletionOk(w', Taken(p, decodeErr));
    MessagesStay(w, w');
  }

  lemma ResponseKeeps(w: World, p: Packet, decodeErr: Option<Str>)
    requires Inv(w) && PacketOk(w, p) && p.e.ret != 0 && HasPeer(w, p.dst, p.e.to)
    ensures Inv(AfterResponse(w, p, decodeErr))
  {
    var w' := AfterResponse(w, p, decodeErr);
    var c := Taken(p, decodeErr);
    ResponseOnce(w, p, decodeErr);
    if Pending(w, c.key) {
      PutPeerViews(w, p.dst, p.e.to, TakeResponse(PeerAt(w, p.dst, p.e.to), p.e, c.f.cause.decodeErr).0);
      DoneViews(w', PutPeer(w, p.dst, p.e.to, TakeResponse(PeerAt(w, p.dst, p.e.to), p.e, c.f.cause.decodeErr).0));
      IdsStay(w, w');
      ResponseCounts(w, w', c);
      ResponseMessages(w, w', p, decodeErr);
    }
  }

  /** Tables do not depend on what has been completed. */
  lemma DoneViews(w: World, v: World)
    requires w.nodes == v.nodes
    ensures NamesOk(w) == NamesOk(v)
    ensures forall n, k :: HasPeer(w, n, k) == HasPeer(v, n, k)
    ensures forall key: Key :: Pending(w, key) == Pending(v, key)
  {
    assert forall a, b :: HasPeer(w, a, b) == HasPeer(v, a, b);
    assert forall a, b | HasPeer(w, a, b) :: PeerAt(w, a, b) == PeerAt(v, a, b);
  }

  // ---- Sweeping ----

  lemma {:induction false} SweepLogAt(n: Str, k: Str, order: seq<nat>)
    ensures forall c | c in Log(n, k, SweepLog(order)) ::
              c.f.cause.BySweep? && c.f.result == Failed(TIMED_OUT) && c.f.seqNo == c.key.seqNo
    decreases |order|
  {
    if order != [] {
      SweepLogAt(n, k, order[1..]);
      assert SweepLog(order)[1..] == SweepLog(order[1..]);
    }
  }

  function AfterSweep(w: World, n: Str, k: Str, now: int, order: seq<nat>, expired: Expiry): World
    requires HasPeer(w, n, k)
  {
    PutPeer(w, n, k, Swept(PeerAt(w, n, k), now, expired)).(done := w.done + Log(n, k, SweepLog(order)))
  }

  lemma SweepCounts(w: World, w': World, n: Str, k: Str, order: seq<nat>)
    requires CountsOk(w) && w'.issued == w.issued && w'.done == w.done + Log(n, k, SweepLog(order))
    requires forall i, j | 0 <= i < j < |order| :: order[i] != order[j]
    requires forall s | s in order :: Pending(w, Key(n, k, s))
    requires forall key: Key ::
               Pending(w', key) == (Pending(w, key) && !(key.node == n && key.nick == k && key.seqNo in order))
    ensures CountsOk(w')
  {
    var gone := set s | s in order :: Key(n, k, s);
    forall key: Key ensures
      (key in gone <==> key.node == n && key.nick == k && key.seqNo in order) &&
      Refusals(w'.done, key) == Refusals(w.done, key) &&
      Finals(w'.done, key) == Finals(w.done, key) + (if key in gone then 1 else 0)
    {
      CountSweep(w.done, n, k, order, key);
      assert key == Key(key.node, key.nick, key.seqNo);
    }
    CountsMove(w, w', gone);
  }

  lemma SweepMessages(w: World, w': World, n: Str, k: Str, order: seq<nat>)
    requires MessagesOk(w) && w'.done == w.done + Log(n, k, SweepLog(order))
    requires w'.net == w.net && w'.issued == w.issued && w'.answered == w.answered
    ensures MessagesOk(w')
  {
    SweepLogAt(n, k, order);
    MessagesStay(w, w');
  }

  lemma SweepKeeps(w: World, n: Str, k: Str, now: int, order: seq<nat>, expired: Expiry)
    requires HasPeer(w, n, k) && Lists(order, ExpiredIn(PeerAt(w, n, k), now, expired)) && Inv(w)
    ensures Inv(AfterSweep(w, n, k, now, order, expired))
  {
    var w' := AfterSweep(w, n, k, now, order, expired);
    var q := Swept(PeerAt(w, n, k), now, expired);
    PutPeerViews(w, n, k, q);
    DoneViews(w', PutPeer(w, n, k, q));
    IdsStay(w, w');
    SweepCounts(w, w', n, k, order);
    SweepMessages(w, w', n, k, order);
  }

  // ---- The other steps ----

  /** The bag of packets does not matter to the tables. */
  lemma LosingKeeps(w: World, net: seq<Packet>)
    requires Inv(w) && forall i | 0 <= i < |net| :: net[i] in w.net
    ensures Inv(w.(net := net))
  {
    BooksStay(w, w.(net := net));
    MessagesStay(w, w.(net := net));
  }

  lemma DisposingKeeps(w: World, n: Str, k: Str)
    requires Inv(w) && HasPeer(w, n, k)
    ensures Inv(PutPeer(w, n, k, PeerAt(w, n, k).(disposing := true)))
  {
    var w' := PutPeer(w, n, k, PeerAt(w, n, k).(disposing := true));
    PutPeerViews(w, n, k, PeerAt(w, n, k).(disposing := true));
    IdsStay(w, w');
    CountsMove(w, w', {});
    MessagesStay(w, w');
  }

  /** A number given out for something else. */
  lemma OtherIdKeeps(w: World, n: Str, tick: Snow.Tick)
    requires Inv(w) && n in w.nodes && TickOk(w.nodes[n].seed, tick)
    ensures Inv(PutSeed(w, n, Snow.Next(w.nodes[n].seed, tick.now, tick.later)))
  {
    var s := Snow.Next(w.nodes[n].seed, tick.now, tick.later);
    var w' := PutSeed(w, n, s);
    PutSeedViews(w, n, s);
    FreshNumber(w, n, tick);
    CountsMove(w, w', {});
    MessagesStay(w, w');
  }

  // ---- Runs ----

  lemma DeliveryKeeps(w: World, w1: World, p: Packet, env: Env, decodeErr: Option<Str>, replies: bool)
    requires Inv(w) && Inv(w1) && w1 == w.(net := w1.net) && p in w.net
    ensures Inv(Received(w1, p, env, decodeErr, replies))
  {
    assert PacketOk(w, p);
    PacketStays(w, w1, p);
    if HasPeer(w1, p.dst, p.e.to) && !PeerAt(w1, p.dst, p.e.to).disposing {
      if p.e.ret == 0 { HandlingKeeps(w1, p, env, replies); } else { ResponseKeeps(w1, p, decodeErr); }
    }
  }

  lemma StepKeeps(w: World, s: Step, expired: Expiry)
    requires Allowed(w, s, expired) && Inv(w)
    ensures Inv(Next(w, s, expired))
  {
    match s
    case Request(_, _, _, _, _, _, _, _, _, _) => RequestKeeps(w, s);
    case Deliver(i, keep, env, decodeErr, replies) =>
      if !keep { LosingKeeps(w, Without(w.net, i)); }
      DeliveryKeeps(w, if keep then w else w.(net := Without(w.net, i)), w.net[i], env, decodeErr, replies);
    case Sweep(n, k, now, order) => SweepKeeps(w, n, k, now, order, expired);
    case Lose(i) => LosingKeeps(w, Without(w.net, i));
    case Dispose(n, k) => DisposingKeeps(w, n, k);
    case OtherId(n, tick) => OtherIdKeeps(w, n, tick);
  }

  ghost predicate AllowedRun(w: World, steps: seq<Step>, expired: Expiry)
    decreases |steps|
  {
    steps == [] || (Allowed(w, steps[0], expired) && AllowedRun(Next(w, steps[0], expired), steps[1..], expired))
  }

  ghost function Run(w: World, steps: seq<Step>, expired: Expiry): World
    requires AllowedRun(w, steps, expired)
    decreases |steps|
  {
    if steps == [] then w else Run(Next(w, steps[0], expired), steps[1..], expired)
  }

  lemma {:induction false} RunKeeps(w: World, steps: seq<Step>, expired: Expiry)
    requires AllowedRun(w, steps, expired) && Inv(w)
    ensures Inv(Run(w, steps, expired))
    decreases |steps|
  {
    if steps != [] {
      StepKeeps(w, steps[0], expired);
      RunKeeps(Next(w, steps[0], expired), steps[1..], expired);
    }
  }

  lemma InitialOk(w: World)
    requires Initial(w)
    ensures Inv(w)
  {
    assert forall key: Key :: !Pending(w, key);
  }

  /** Every number in flight is a non-negative int64, as Marshal writes it. */
  lemma PacketNumberFits(w: World, p: Packet)
    requires Inv(w) && p in w.net
    ensures p.e.seqNo < 0x8000_0000_0000_0000
  {
    assert PacketOk(w, p);
    if p.e.seqNo != 0 {
      var key := if p.e.ret == 0 then Key(p.src, p.e.from, p.e.seqNo) else Key(p.dst, p.e.to, p.e.seqNo);
      if p.e.ret != 0 {
        var a :| a in w.answered && a.key == key;
        assert AsksFor(w, a.key, a.dst, a.to, a.fn, a.args);
      }
      assert key in w.issued;
      Snow.IdFits(w.nodes[key.node].seed);
    }
  }

  // ---- At most once ----

  /** On every run of a system from its start, with any loss, delay, reordering and
      duplication and any expiry test: a call whose request returned nil has been
      completed exactly once if it has left its table and not at all before; a call
      whose request failed has, besides, been completed once by Call itself if it
      was made with a Done. So a call can be completed twice exactly when it failed,
      has a Done, and was swept out of the table it was left in. */
  lemma AtMostOnce(w0: World, steps: seq<Step>, expired: Expiry, key: Key)
    requires Initial(w0) && AllowedRun(w0, steps, expired)
    ensures var w := Run(w0, steps, expired);
            (key in w.issued ==>
               var once := if Pending(w, key) then 0 else 1;
               var refused := if !w.issued[key].ok && w.issued[key].viaDone then 1 else 0;
               key.seqNo != 0 && Completions(w.done, key) == once + refused) &&
            (key !in w.issued && key.seqNo != 0 ==> !Pending(w, key) && Completions(w.done, key) == 0)
  {
    InitialOk(w0);
    RunKeeps(w0, steps, expired);
  }

  /** Only a request puts an entry into a table, and only its own. */
  lemma EntriesShrink(w: World, s: Step, expired: Expiry, key: Key)
    requires Allowed(w, s, expired) && !s.Request?
    ensures Pending(Next(w, s, expired), key) ==> Pending(w, key)
    ensures Next(w, s, expired).issued == w.issued
  {
  }

  lemma RequestEntries(w: World, w': World, s: Step, key: Key)
    requires NamesOk(w) && IdsOk(w) && CountsOk(w)
    requires s.Request? && HasPeer(w, s.node, s.nick) && w' == AfterRequest(w, s)
    requires s.wantsReply ==> TickOk(w.nodes[s.node].seed, s.tick)
    ensures key in w.issued ==> key in w'.issued && (Pending(w', key) <==> Pending(w, key))
    ensures key in w'.issued && key !in w.issued ==> Pending(w', key)
  {
    var seed := Snow.Next(w.nodes[s.node].seed, s.tick.now, s.tick.later);
    if s.wantsReply { FreshNumber(w, s.node, s.tick); }
    RequestIssues(w, w', s, seed, Asked(w, s));
  }

  lemma FinalsFollow(w: World, w': World, key: Key)
    requires CountsOk(w) && CountsOk(w')
    requires key in w.issued ==> key in w'.issued && (Pending(w', key) ==> Pending(w, key))
    requires key in w'.issued && key !in w.issued ==> Pending(w', key)
    ensures Finals(w'.done, key) == Finals(w.done, key) + (if Pending(w, key) && !Pending(w', key) then 1 else 0)
  {
  }

  /** Each completion by response or by sweep is the removal of the call's entry. */
  lemma CompletionIsRemoval(w: World, s: Step, expired: Expiry, key: Key)
    requires Inv(w) && Allowed(w, s, expired)
    ensures var w' := Next(w, s, expired);
            Finals(w'.done, key) == Finals(w.done, key) + (if Pending(w, key) && !Pending(w', key) then 1 else 0)
  {
    var w' := Next(w, s, expired);
    StepKeeps(w, s, expired);
    if s.Request? { RequestEntries(w, w', s, key); } else { EntriesShrink(w, s, expired, key); }
    FinalsFollow(w, w', key);
  }

  /** A response that comes late, or again, or for a call that was never made, changes
      nothing but the bag it was taken from. */
  lemma LateResponseIgnored(w: World, s: Step, expired: Expiry)
    requires s.Deliver? && Allowed(w, s, expired)
    requires var p := w.net[s.i]; p.e.ret != 0 && !Pending(w, Key(p.dst, p.e.to, p.e.seqNo))
    ensures Next(w, s, expired) == w.(net := if s.keep then w.net else Without(w.net, s.i))
  {
    var p := w.net[s.i];
    if HasPeer(w, p.dst, p.e.to) && !PeerAt(w, p.dst, p.e.to).disposing {
      ResponseOnce(if s.keep then w else w.(net := Without(w.net, s.i)), p, s.decodeErr);
    }
  }

  /** The run that completes a failed call twice: a method name that does not have
      two parts, then a sweep. */
  lemma FailedCallCompletesTwice(w: World, request: Step, now: int, expired: Expiry)
    requires Initial(w) && request.Request? && Allowed(w, request, expired)
    requires request.wantsReply && request.viaDone && SplitMethod(request.name) == None
    requires expired(Call(true, request.deadline), now)
    ensures var key := Key(request.node, request.nick, Asked(w, request).seqNo);
            var steps := [request, Sweep(request.node, request.nick, now, [key.seqNo])];
            AllowedRun(w, steps, expired) && Completions(Run(w, steps, expired).done, key) == 2
  {
    var r := Asked(w, request);
    var key := Key(request.node, request.nick, r.seqNo);
    var sweep := Sweep(request.node, request.nick, now, [key.seqNo]);
    var w1 := Next(w, request, expired);
    var p := PeerAt(w1, request.node, request.nick);
    assert p == r.peer && p.callbacks == map[key.seqNo := Call(true, request.deadline)];
    assert ExpiredIn(p, now, expired) == {key.seqNo};
    assert Allowed(w1, sweep, expired);
    var w2 := Next(w1, sweep, expired);
    var tail := [sweep];
    assert tail[1..] == [] && AllowedRun(w2, [], expired);
    assert AllowedRun(w1, tail, expired) && Run(w1, tail, expired) == w2;
    var steps := [request, sweep];
    assert steps[1..] == tail;
    InitialOk(w);
    StepKeeps(w, request, expired);
    StepKeeps(w1, sweep, expired);
    assert key in w2.issued && !Pending(w2, key);
  }

  // ---- Whose answer ----

  /** The answer a was given to the request of the completed call, and the completion
      tells it: the reason of a refusal, the error of the handler, or its reply. An
      error whose message is empty cannot be told from none. */
  ghost predicate Tells(w: World, c: Completion, a: Answered) {
    && a in w.answered && a.key == c.key && a.answer.Answer?
    && AsksFor(w, c.key, a.dst, a.to, a.fn, a.args)
    && c.f.cause.ByResponse?
    && var (env, decodeErr) := (a.env, c.f.cause.decodeErr);
       var ran := !a.denied && env.pre.None? && env.registered && env.args.None?;
       var why := if a.denied then NO_ACCESS + a.to
                  else if env.pre.Some? then env.pre.value
                  else if !env.registered then NO_METHOD + a.fn
                  else if env.args.Some? then env.args.value
                  else if env.ran.Returns? && env.ran.err.Some? then env.ran.err.value
                  else [];
       var reply := if ran && env.ran.Returns? && !(env.meta && env.ran.err.Some?) then Some(env.ran.reply) else None;
       (ran ==> env.ran.Returns?) &&
       c.f.result == if why != [] then Failed(why) else if decodeErr.Some? then Failed(decodeErr.value) else Replied(reply)
  }

  lemma AnswerOf(w: World, c: Completion)
    requires MessagesOk(w) && c in w.done && c.f.cause.ByResponse?
    ensures exists a :: Tells(w, c, a)
  {
    assert CompletionOk(w, c);
    var a :| a in w.answered && a.key == c.key && a.answer.Answer? &&
             c.f.result == ResultOf(ErrText(a.answer), a.answer.reply, c.f.cause.decodeErr);
    assert Tells(w, c, a);
  }

  /** On every run, a completion by response tells what some handling of that call's
      own request came to: the request went to the node, peer and method that the call
      named, with its arguments; and the caller sees the reason for which it was refused,
      the handler's error, the error of decoding, or the handler's reply. */
  lemma AnswersBelong(w0: World, steps: seq<Step>, expired: Expiry, c: Completion)
    requires Initial(w0) && AllowedRun(w0, steps, expired)
    requires c in Run(w0, steps, expired).done && c.f.cause.ByResponse?
    ensures exists a :: Tells(Run(w0, steps, expired), c, a)
  {
    InitialOk(w0);
    RunKeeps(w0, steps, expired);
    AnswerOf(Run(w0, steps, expired), c);
  }

  /** A call that is denied, or whose method is not registered, never gets a reply. */
  lemma RefusedCallFails(w0: World, steps: seq<Step>, expired: Expiry, c: Completion)
    requires Initial(w0) && AllowedRun(w0, steps, expired)
    requires c in Run(w0, steps, expired).done && c.f.cause.ByResponse?
    requires forall a | a in Run(w0, steps, expired).answered && a.key == c.key ::
               a.denied || (a.env.pre.None? && !a.env.registered)
    ensures c.f.result.Failed?
  {
    AnswersBelong(w0, steps, expired, c);
    var a :| Tells(Run(w0, steps, expired), c, a);
    assert NO_ACCESS + a.to != [] && NO_METHOD + a.fn != [];
  }

  /** On every run: what the sweep tells, and that Call tells an error. */
  lemma CompletionsSay(w0: World, steps: seq<Step>, expired: Expiry, c: Completion)
    requires Initial(w0) && AllowedRun(w0, steps, expired) && c in Run(w0, steps, expired).done
    ensures c.f.cause.BySweep? ==>
              c.f.result == Failed([232, 175, 183, 230, 177, 130, 232, 182, 133, 230, 151, 182, 33])
    ensures c.f.cause.ByRefusal? ==> c.f.result.Failed?
    ensures c.f.seqNo == c.key.seqNo
  {
    InitialOk(w0);
    RunKeeps(w0, steps, expired);
    assert CompletionOk(Run(w0, steps, expired), c);
  }

  // ---- Each step ----

  /** What a request does: with a method name that does not have two parts, or a failure
      to send, it sends nothing and its error goes to Done, if there is one; otherwise one
      exchange goes out. In each case the entry is in the table if a reply is wanted. */
  lemma RequestOutcome(w: World, s: Step, expired: Expiry)
    requires s.Request? && Allowed(w, s, expired) && NamesOk(w)
    ensures var w' := Next(w, s, expired);
            var seqNo := if s.wantsReply then Snow.IdOf(Snow.Next(w.nodes[s.node].seed, s.tick.now, s.tick.later)) else 0;
            var was := PeerAt(w, s.node, s.nick).callbacks;
            var key := Key(s.node, s.nick, seqNo);
            var err := if SplitMethod(s.name).None? then Some(BAD_METHOD + s.name) else s.sendErr;
            HasPeer(w', s.node, s.nick) &&
            PeerAt(w', s.node, s.nick).callbacks ==
              (if s.wantsReply then was[seqNo := Call(s.viaDone, s.deadline)] else was) &&
            w'.net == w.net + (if err.Some? then []
                               else [Packet(s.node, s.dst, Exch(s.nick, SplitMethod(s.name).value.0, SplitMethod(s.name).value.1,
                                                                seqNo, 0, [], Some(s.args)))]) &&
            w'.done == w.done + (if err.Some? && s.viaDone
                                 then [Completion(key, Finished(seqNo, ByRefusal, Failed(err.value)))] else [])
  {
    assert PeerAt(w, s.node, s.nick).nick == s.nick;
  }

  /** What a response does to the call that waits for it. A response from the node itself
      is not decoded. */
  lemma ResponseOutcome(w: World, s: Step, expired: Expiry)
    requires s.Deliver? && Allowed(w, s, expired)
    requires var p := w.net[s.i];
             p.e.ret != 0 && Pending(w, Key(p.dst, p.e.to, p.e.seqNo)) && !PeerAt(w, p.dst, p.e.to).disposing
    ensures var p := w.net[s.i];
            var w' := Next(w, s, expired);
            var d := if p.src == p.dst then None else s.decodeErr;
            var result := if p.e.err != [] then Failed(p.e.err) else if d.Some? then Failed(d.value) else Replied(p.e.body);
            w'.done == w.done + [Completion(Key(p.dst, p.e.to, p.e.seqNo), Finished(p.e.seqNo, ByResponse(d), result))] &&
            !Pending(w', Key(p.dst, p.e.to, p.e.seqNo))
  {
    var p := w.net[s.i];
    ResponseOnce(if s.keep then w else w.(net := Without(w.net, s.i)), p, s.decodeErr);
  }

  /** What a sweep does, for any expiry test: it takes out exactly the expired calls of its
      peer. */
  lemma SweepOutcome(w: World, s: Step, expired: Expiry, key: Key)
    requires s.Sweep? && Allowed(w, s, expired)
    ensures var w' := Next(w, s, expired);
            Pending(w', key) <==>
            Pending(w, key) &&
            !(key.node == s.node && key.nick == s.nick && expired(PeerAt(w, key.node, key.nick).callbacks[key.seqNo], s.now))
  {
    PutPeerViews(w, s.node, s.nick, Swept(PeerAt(w, s.node, s.nick), s.now, expired));
  }

  /** A peer that has been disposed of takes in nothing any more. */
  lemma DisposedIsDeaf(w: World, n: Str, k: Str, s: Step, expired: Expiry)
    requires HasPeer(w, n, k) && s.Deliver? && s.i < |w.net| && w.net[s.i].dst == n && w.net[s.i].e.to == k
    ensures var v := Next(w, Dispose(n, k), expired);
            v.net == w.net && Next(v, s, expired) == v.(net := if s.keep then v.net else Without(v.net, s.i))
  {
  }

  /** And to a peer that is not there nothing is delivered. */
  lemma AbsentIsDeaf(w: World, s: Step, expired: Expiry)
    requires s.Deliver? && s.i < |w.net| && !HasPeer(w, w.net[s.i].dst, w.net[s.i].e.to)
    ensures Next(w, s, expired) == w.(net := if s.keep then w.net else Without(w.net, s.i))
  {
  }

  // ---- Traffic ----

  /** Messages that this one can still cause, itself included. */
  function Weight(p: Packet): nat {
    if p.e.ret == 0 && p.e.seqNo != 0 then 2 else 1
  }

  function Load(net: seq<Packet>): nat {
    if net == [] then 0 else Load(net[..|net| - 1]) + Weight(net[|net| - 1])
  }

  lemma LoadSnoc(net: seq<Packet>, p: Packet)
    ensures Load(net + [p]) == Load(net) + Weight(p)
  {
    assert (net + [p])[..|net|] == net;
  }

  lemma {:induction false} LoadWithout(net: seq<Packet>, i: nat)
    requires i < |net|
    ensures Load(Without(net, i)) + Weight(net[i]) == Load(net)
  {
    var last := net[|net| - 1];
    var front := net[..|net| - 1];
    if i < |net| - 1 {
      LoadWithout(front, i);
      assert Without(net, i) == Without(front, i) + [last];
      LoadSnoc(Without(front, i), last);
    } else {
      assert Without(net, i) == front;
    }
  }

  function Deliveries(steps: seq<Step>): nat {
    if steps == [] then 0 else (if steps[0].Deliver? then 1 else 0) + Deliveries(steps[1..])
  }

  function Requests(steps: seq<Step>): nat {
    if steps == [] then 0 else (if steps[0].Request? then 1 else 0) + Requests(steps[1..])
  }

  predicate Duplicates(s: Step) {
    s.Deliver? && s.keep
  }

  /** Handling a message uses it up and sends at most one, lighter, message. */
  lemma StepLoad(w: World, s: Step, expired: Expiry)
    requires Allowed(w, s, expired) && !Duplicates(s)
    ensures Load(Next(w, s, expired).net) + (if s.Deliver? then 1 else 0) <= Load(w.net) + (if s.Request? then 2 else 0)
  {
    var w' := Next(w, s, expired);
    match s
    case Request(_, _, _, _, _, _, _, _, _, _) =>
      if |w'.net| > |w.net| { LoadSnoc(w.net, w'.net[|w.net|]); }
    case Deliver(i, _, _, _, _) =>
      var rest := Without(w.net, i);
      LoadWithout(w.net, i);
      if w'.net != rest { LoadSnoc(rest, w'.net[|rest|]); }
    case Lose(i) => LoadWithout(w.net, i);
    case Sweep(_, _, _, _) =>
    case Dispose(_, _) =>
    case OtherId(_, _) =>
  }

  /** On a network that does not duplicate, n requests cause at most 2n deliveries:
      no message breeds more than one other, and a response breeds none. */
  lemma {:induction false} TrafficBound(w: World, steps: seq<Step>, expired: Expiry)
    requires AllowedRun(w, steps, expired)
    requires forall i | 0 <= i < |steps| :: !Duplicates(steps[i])
    ensures Load(Run(w, steps, expired).net) + Deliveries(steps) <= Load(w.net) + 2 * Requests(steps)
    decreases |steps|
  {
    if steps != [] {
      StepLoad(w, steps[0], expired);
      TrafficBound(Next(w, steps[0], expired), steps[1..], expired);
    }
  }

  /** What a delivered request is answered with: exactly one response if it wants one,
      its peer is there, the handler comes back and the response can be sent; and
      nothing in any other case. */
  lemma OneResponse(w: World, s: Step, expired: Expiry)
    requires s.Deliver? && Allowed(w, s, expired)
    ensures var p := w.net[s.i];
            var rest := if s.keep then w.net else Without(w.net, s.i);
            var net' := Next(w, s, expired).net;
            var live := HasPeer(w, p.dst, p.e.to) && !PeerAt(w, p.dst, p.e.to).disposing;
            var denied := live && PeerAt(w, p.dst, p.e.to).inner && IsGuest(p.src);
            var ran := !denied && s.env.pre.None? && s.env.registered && s.env.args.None?;
            if live && p.e.ret == 0 && p.e.seqNo != 0 && s.replies && !(ran && s.env.ran.Panics?) then
              exists out: Exch :: net' == rest + [Packet(p.dst, p.src, out)] && out.ret == 1 &&
                            out.seqNo == p.e.seqNo && out.from == p.e.to && out.to == p.e.from && out.fn == [] &&
                            (!ran ==> out.body == None) &&
                            (denied ==> out.err == NO_ACCESS + PeerAt(w, p.dst, p.e.to).nick) &&
                            (!denied && s.env.pre.Some? ==> out.err == s.env.pre.value) &&
                            (!denied && s.env.pre.None? && !s.env.registered ==> out.err == NO_METHOD + p.e.fn) &&
                            (!denied && s.env.pre.None? && s.env.registered && s.env.args.Some? ==>
                               out.err == s.env.args.value) &&
                            (ran && s.env.ran.err.None? ==> out.err == [] && out.body == Some(s.env.ran.reply)) &&
                            (ran && s.env.ran.err.Some? ==>
                               out.err == s.env.ran.err.value &&
                               out.body == if s.env.meta then None else Some(s.env.ran.reply))
            else
              net' == rest
  {
    var p := w.net[s.i];
    if HasPeer(w, p.dst, p.e.to) && !PeerAt(w, p.dst, p.e.to).disposing && p.e.ret == 0 {
      var out := ResponseTo(p.e, AnswerTo(PeerAt(w, p.dst, p.e.to), p.src, p.e, s.env));
      if out.Some? && s.replies {
        var rest := if s.keep then w.net else Without(w.net, s.i);
        assert Next(w, s, expired).net == rest + [Packet(p.dst, p.src, out.value)];
      }
    }
  }

  // ---- The timeout test as it stands ----

  /** A step that brings this call nothing: any but the delivery of a response to it and
      a sweep of its own peer before its deadline. */
  predicate Silent(w: World, s: Step, key: Key, deadline: int) {
    match s
    case Deliver(i, _, _, _, _) =>
      i < |w.net| ==>
        var p := w.net[i];
        !(p.e.ret != 0 && p.dst == key.node && p.e.to == key.nick && p.e.seqNo == key.seqNo)
    case Sweep(n, k, now, _) => n == key.node && k == key.nick ==> deadline <= now
    case _ => true
  }

  ghost predicate SilentRun(w: World, steps: seq<Step>, key: Key, deadline: int)
    requires AllowedRun(w, steps, CODE_EXPIRY)
    decreases |steps|
  {
    steps == [] ||
    (Silent(w, steps[0], key, deadline) && SilentRun(Next(w, steps[0], CODE_EXPIRY), steps[1..], key, deadline))
  }

  ghost predicate Waits(w: World, key: Key, deadline: int) {
    Pending(w, key) && PeerAt(w, key.node, key.nick).callbacks[key.seqNo].deadline == deadline
  }

  lemma RequestWaits(w: World, s: Step, key: Key, deadline: int)
    requires s.Request? && Allowed(w, s, CODE_EXPIRY) && Waits(w, key, deadline)
    requires IdsOk(w) && key in w.issued
    ensures Waits(AfterRequest(w, s), key, deadline)
  {
    if s.wantsReply { FreshNumber(w, s.node, s.tick); }
  }

  lemma StepWaits(w: World, s: Step, key: Key, deadline: int)
    requires Inv(w) && Allowed(w, s, CODE_EXPIRY) && Silent(w, s, key, deadline) && Waits(w, key, deadline)
    ensures Waits(Next(w, s, CODE_EXPIRY), key, deadline)
  {
    if s.Request? { RequestWaits(w, s, key, deadline); } else { OtherWaits(w, s, key, deadline); }
  }

  lemma OtherWaits(w: World, s: Step, key: Key, deadline: int)
    requires Allowed(w, s, CODE_EXPIRY) && Silent(w, s, key, deadline) && Waits(w, key, deadline) && !s.Request?
    ensures Waits(Next(w, s, CODE_EXPIRY), key, deadline)
  {
  }

  /** With the code's test, a call to which no response is delivered is never completed
      by any number of sweeps from its deadline on, whatever else goes on. */
  lemma {:induction false} LostCallNeverTimesOut(w: World, steps: seq<Step>, key: Key, deadline: int)
    requires Inv(w) && AllowedRun(w, steps, CODE_EXPIRY) && Waits(w, key, deadline)
    requires SilentRun(w, steps, key, deadline)
    ensures Waits(Run(w, steps, CODE_EXPIRY), key, deadline) && Finals(Run(w, steps, CODE_EXPIRY).done, key) == 0
    decreases |steps|
  {
    if steps != [] {
      StepKeeps(w, steps[0], CODE_EXPIRY);
      StepWaits(w, steps[0], key, deadline);
      LostCallNeverTimesOut(Next(w, steps[0], CODE_EXPIRY), steps[1..], key, deadline);
    }
  }

  /** And every sweep of its peer before the deadline completes it at once. */
  lemma EarlySweepCompletes(w: World, s: Step, key: Key, deadline: int)
    requires Inv(w) && Allowed(w, s, CODE_EXPIRY) && Waits(w, key, deadline)
    requires s.Sweep? && s.node == key.node && s.nick == key.nick && s.now < deadline
    ensures var w' := Next(w, s, CODE_EXPIRY);
            !Pending(w', key) && Finals(w'.done, key) == 1
  {
    StepKeeps(w, s, CODE_EXPIRY);
    EntriesShrink(w, s, CODE_EXPIRY, key);
  }
}
