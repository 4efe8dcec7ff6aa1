/** The live receive loop against the split rule. */
module ReceiveLaws {
  import opened Wrappers
  import opened Bytes
  import opened Buffers
  import opened Reading
  import opened Framing
  import opened TcpReceive

  // ---- TcpBuffer on the sequence that Slice() denotes ----

  /** Reset keeps the buffered bytes; DeleteData drops the first n of them if
      that many are held, and otherwise silently changes nothing. */
  lemma SliceLaws(r: Rcv, n: nat)
    requires r.InRange()
    ensures r.Reset().InRange() && r.Reset().Slice() == r.Slice() && |r.Reset().buf| == |r.buf|
    ensures var d := r.DeleteData(n);
            d.InRange() && if n <= r.cnt then d.Slice() == r.Slice()[n..] else d == r
    ensures var e := r.Clear();
            e.off == 0 && e.cnt == 0 && |e.buf| == |r.buf| && forall i | 0 <= i < |e.buf| :: e.buf[i] == 0
  {
    assert r.Reset().Slice() == r.Slice();
    if n <= r.cnt {
      assert r.DeleteData(n).Slice() == r.Slice()[n..];
    }
  }

  /** w starts with h and goes on repeating it. */
  ghost predicate Repeats(w: seq<Byte>, h: seq<Byte>) {
    && (forall i | 0 <= i < |w| && i < |h| :: w[i] == h[i])
    && (forall i | |h| <= i < |w| :: w[i] == w[i - |h|])
  }

  lemma RepeatsIff(h: seq<Byte>, data: seq<Byte>, stale: seq<Byte>)
    requires |stale| == |h| > 0
    ensures data + stale == h + data <==> Repeats(data + stale, h)
  {
    var w := data + stale;
    if w == h + data {
      forall i | |h| <= i < |w| ensures w[i] == w[i - |h|] {
        assert w[i] == (h + data)[i] == data[i - |h|];
      }
    }
    if Repeats(w, h) {
      forall i | 0 <= i < |w| ensures w[i] == (h + data)[i] {
        if i >= |h| { assert w[i - |h|] == data[i - |h|]; }
      }
      assert w == h + data;
    }
  }

  /** A read puts its bytes over the held ones, so that what is held afterwards is the
      new bytes followed by stale ones. It appends, as it should, into an empty
      buffer; behind held bytes it does so exactly when the new bytes and the stale
      ones only repeat the held ones. */
  lemma ReadAppendsIff(r: Rcv, data: seq<Byte>)
    requires r.off + r.cnt + |data| <= |r.buf|
    ensures var stale := r.buf[r.off + |data|..][..r.cnt];
            r.Receive(data).Slice() == data + stale &&
            (r.Receive(data).Slice() == r.Slice() + data <==> r.cnt == 0 || Repeats(data + stale, r.Slice()))
  {
    var stale := r.buf[r.off + |data|..][..r.cnt];
    assert r.Receive(data).Slice() == data + stale;
    if r.cnt == 0 {
      assert data + stale == data == r.Slice() + data;
    } else {
      RepeatsIff(r.Slice(), data, stale);
    }
  }

  // ---- Progress of one turn ----

  /** A turn that takes a payload shrinks Count iff the whole frame, header
      included, is held; otherwise it leaves the buffer exactly as it was, so that
      the loop takes the same payload again without end. */
  lemma TurnProgress(r: Rcv)
    requires TurnOf(r).Take?
    ensures var t := TurnOf(r);
            (t.left.cnt < r.cnt <==> |t.payload| + PCK_MIN_SIZE <= r.cnt) &&
            (t.left == r <==> r.cnt < |t.payload| + PCK_MIN_SIZE)
  {
  }

  /** If the loop does not end, it has come to a buffer that one turn leaves
      unchanged; so it ends iff it never meets one. */
  lemma {:induction false} EndlessIsAFixedPoint(s: Live, shake: Str -> Shake) returns (s': Live)
    requires Pump(s, shake).how == Endless
    ensures TurnOf(s'.r).Take? && TurnOf(s'.r).left == s'.r
    ensures Pump(s', shake) == Pump(s, shake)
    decreases s.r.cnt
  {
    var t := TurnOf(s.r);
    if t.left == s.r {
      s' := s;
    } else {
      s' := EndlessIsAFixedPoint(Live(t.left, Greet(s.known, shake, t.payload), s.log + [t.payload]), shake);
    }
  }

  // ---- A read into an empty buffer ----

  /** Whether the connection is known after these payloads. */
  function Knows(known: bool, shake: Str -> Shake, ps: seq<Str>): bool
    decreases ps
  {
    if ps == [] then known else Knows(Greet(known, shake, ps[0]), shake, ps[1..])
  }

  /** No payload that comes before the connection is known is refused as a handshake. */
  predicate Admitted(known: bool, shake: Str -> Shake, ps: seq<Str>)
    decreases ps
  {
    ps == [] || (Admits(known, shake, ps[0]) && Admitted(Greet(known, shake, ps[0]), shake, ps[1..]))
  }

  /** In particular if the connection is known, or the first payload makes it so. */
  lemma {:induction false} AdmittedByFirst(known: bool, shake: Str -> Shake, ps: seq<Str>)
    requires known || ps == [] || shake(ps[0]) == Accepted(true)
    ensures Admitted(known, shake, ps)
    decreases ps
  {
    if ps != [] {
      AdmittedByFirst(true, shake, ps[1..]);
    }
  }

  /** It is known exactly if it was before or some handshake made it so. */
  lemma {:induction false} KnowsIff(known: bool, shake: Str -> Shake, ps: seq<Str>)
    requires Admitted(known, shake, ps)
    ensures Knows(known, shake, ps) <==> known || exists i :: 0 <= i < |ps| && shake(ps[i]) == Accepted(true)
    decreases ps
  {
    if ps != [] {
      KnowsIff(Greet(known, shake, ps[0]), shake, ps[1..]);
      if i :| 0 <= i < |ps| && shake(ps[i]) == Accepted(true) {
        if i > 0 { assert ps[1..][i - 1] == ps[i]; }
      }
    }
  }

  /** How many payloads come before the first one that is not admitted. */
  function Barred(known: bool, shake: Str -> Shake, ps: seq<Str>): (k: nat)
    requires !Admitted(known, shake, ps)
    ensures k < |ps|
    decreases ps
  {
    if !Admits(known, shake, ps[0]) then 0 else 1 + Barred(Greet(known, shake, ps[0]), shake, ps[1..])
  }

  /** Those before it are admitted and leave the connection unknown, and it is not
      accepted. */
  lemma {:induction false} BarredIs(known: bool, shake: Str -> Shake, ps: seq<Str>)
    requires !Admitted(known, shake, ps)
    ensures var k := Barred(known, shake, ps);
            Admitted(known, shake, ps[..k]) && !Knows(known, shake, ps[..k]) && !shake(ps[k]).Accepted?
    decreases ps
  {
    var k := Barred(known, shake, ps);
    if k == 0 {
      assert ps[..0] == [];
    } else {
      BarredIs(Greet(known, shake, ps[0]), shake, ps[1..]);
      assert ps[..k][0] == ps[0] && ps[..k][1..] == ps[1..][..k - 1];
    }
  }

  lemma {:induction false} BarredConcat(known: bool, shake: Str -> Shake, ps: seq<Str>, qs: seq<Str>)
    requires !Admitted(known, shake, ps + qs)
    ensures Barred(known, shake, ps + qs) ==
            if Admitted(known, shake, ps) then
              AdmittedConcat(known, shake, ps, qs);
              |ps| + Barred(Knows(known, shake, ps), shake, qs)
            else
              Barred(known, shake, ps)
    decreases ps
  {
    if ps == [] {
      assert ps + qs == qs;
    } else {
      assert (ps + qs)[0] == ps[0] && (ps + qs)[1..] == ps[1..] + qs;
      if Admits(known, shake, ps[0]) {
        BarredConcat(Greet(known, shake, ps[0]), shake, ps[1..], qs);
      }
    }
  }

  lemma {:induction false} AdmittedConcat(known: bool, shake: Str -> Shake, ps: seq<Str>, qs: seq<Str>)
    ensures Admitted(known, shake, ps + qs) <==>
            Admitted(known, shake, ps) && Admitted(Knows(known, shake, ps), shake, qs)
    decreases ps
  {
    if ps == [] {
      assert ps + qs == qs;
    } else {
      AdmittedConcat(Greet(known, shake, ps[0]), shake, ps[1..], qs);
      assert (ps + qs)[1..] == ps[1..] + qs;
    }
  }

  lemma TurnByHeader(r: Rcv, d: seq<Byte>, n: nat)
    requires r.InRange() && d == r.Slice() && n + PCK_MIN_SIZE <= |d| && PCK_MIN_SIZE < |d|
    requires var header := ReadInt(Cursor(d, false));
             !header.at.err && header.val == PCK_HEADER && ReadShort(header.at) == Read(n, ReadShort(header.at).at)
    ensures TurnOf(r) == Take(d[PCK_MIN_SIZE..PCK_MIN_SIZE + n], r.DeleteData(n + PCK_MIN_SIZE))
  {
    var payload := r.buf[r.off + PCK_MIN_SIZE..r.off + PCK_MIN_SIZE + n];
    assert payload == d[PCK_MIN_SIZE..PCK_MIN_SIZE + n];
    assert TurnOf(r) == Take(payload, r.DeleteData(n + PCK_MIN_SIZE));
  }

  lemma FrameParts(p: Str, d: seq<Byte>, rest: seq<Byte>)
    requires d == Frame(p) + rest
    ensures |d| == PCK_MIN_SIZE + |p| + |rest|
    ensures d[..PCK_MIN_SIZE] == FrameHead(|p|)
    ensures d[PCK_MIN_SIZE..PCK_MIN_SIZE + |p|] == p && d[PCK_MIN_SIZE + |p|..] == rest
  {
  }

  /** A turn whose buffer starts with a whole frame takes exactly that frame, be its
      payload empty, as long as more than six bytes are held. */
  lemma TurnTakesFrame(r: Rcv, p: Str, d: seq<Byte>, rest: seq<Byte>)
    requires |p| < 0x8000 && r.InRange() && r.Slice() == d && d == Frame(p) + rest && PCK_MIN_SIZE < |d|
    ensures var r' := r.DeleteData(PCK_MIN_SIZE + |p|);
            TurnOf(r) == Take(p, r') && r'.InRange() && r'.cnt < r.cnt && r'.Slice() == rest && r'.buf == r.buf
  {
    FrameParts(p, d, rest);
    FrameHeadBack(p, d);
    TurnByHeader(r, d, |p|);
    SliceLaws(r, PCK_MIN_SIZE + |p|);
  }

  /** A stream in front of the bytes q. */
  function StreamTo(ps: seq<Str>, q: seq<Byte>): seq<Byte> {
    if ps == [] then q else Frame(ps[0]) + StreamTo(ps[1..], q)
  }

  lemma {:induction false} StreamToIs(ps: seq<Str>, q: seq<Byte>)
    ensures StreamTo(ps, q) == Stream(ps) + q
  {
    if ps != [] {
      StreamToIs(ps[1..], q);
      Assoc(Frame(ps[0]), Stream(ps[1..]), q);
    }
  }

  /** The loop takes the whole frames at the front of the buffer one by one. */
  lemma {:induction false} PumpFrames(s: Live, shake: Str -> Shake, ps: seq<Str>, q: seq<Byte>) returns (s': Live)
    requires Sendable(ps) && Admitted(s.known, shake, ps)
    requires s.r.InRange() && s.r.Slice() == StreamTo(ps, q)
    ensures Pump(s, shake) == Pump(s', shake)
    ensures s'.log == s.log + ps && s'.known == Knows(s.known, shake, ps)
    ensures s'.r.InRange() && s'.r.Slice() == q && s'.r.buf == s.r.buf
    decreases |ps|
  {
    if ps == [] {
      assert s.log + ps == s.log;
      s' := s;
    } else {
      var p, ps' := ps[0], ps[1..];
      TurnTakesFrame(s.r, p, s.r.Slice(), StreamTo(ps', q));
      var next := Live(s.r.DeleteData(PCK_MIN_SIZE + |p|), Greet(s.known, shake, p), s.log + [p]);
      s' := PumpFrames(next, shake, ps', q);
      Shift(s.log, ps);
    }
  }

  /** The first payload that is not accepted as a handshake is the last to be handed on:
      a refusal drops the connection, and a reply that cannot be written is a panic.
      What was known before stays. */
  lemma PumpRefused(s: Live, shake: Str -> Shake, ps: seq<Str>, p: Str, tail: seq<Byte>)
    requires Sendable(ps) && 0 < |p| < 0x8000 && Admitted(s.known, shake, ps)
    requires !Knows(s.known, shake, ps) && !shake(p).Accepted?
    requires s.r.InRange() && s.r.Slice() == StreamTo(ps, Frame(p) + tail)
    ensures var o := Pump(s, shake);
            (shake(p) == Refused ==> o.how == Dropped) && (shake(p) == ReplyFails ==> o.how == Crashed) &&
            o.live.log == s.log + (ps + [p]) && !o.live.known
  {
    var end := PumpFrames(s, shake, ps, Frame(p) + tail);
    TurnTakesFrame(end.r, p, end.r.Slice(), tail);
    PumpTakes(end, shake, p, end.r.DeleteData(PCK_MIN_SIZE + |p|));
    Assoc(s.log, ps, [p]);
  }

  /** One turn on the beginning q of a frame of payload p. */
  lemma PartialTurn(r: Rcv, p: Str, q: seq<Byte>)
    requires 0 < |p| < 0x8000 && r.InRange() && r.Slice() == q
    requires IsPrefix(q, Frame(p)) && |q| < |Frame(p)|
    ensures TurnOf(r) ==
            if |q| <= PCK_MIN_SIZE || |q| < |p| then Stop(r)
            else if r.off + |Frame(p)| > |r.buf| then Crash
            else Take(r.buf[r.off + PCK_MIN_SIZE..r.off + |Frame(p)|], r)
  {
    if |q| > PCK_MIN_SIZE {
      assert Frame(p) + [] == Frame(p);
      PrefixHead(p, q, []);
      FrameHeadBack(p, q);
    }
  }

  /** How the loop ends at n bytes of which fewer are held: at once, if they are kept
      for later; in a panic, if n bytes reach beyond the end of the array; otherwise by
      taking a payload that stale bytes complete, again and again unless it is not
      accepted as a handshake. */
  function Stuck(s: Live, shake: Str -> Shake, kept: bool, n: nat): Outcome
    requires s.r.InRange() && PCK_MIN_SIZE <= n
  {
    if kept then
      Outcome(Idle, s.(r := s.r.Reset()))
    else if s.r.off + n > |s.r.buf| then
      Outcome(Crashed, s)
    else
      var taken := s.r.buf[s.r.off + PCK_MIN_SIZE..s.r.off + n];
      var met := shake(taken);
      Outcome(if s.known || met.Accepted? then Endless else if met == Refused then Dropped else Crashed,
              Live(s.r, s.known || met == Accepted(true), s.log + [taken]))
  }

  lemma PumpStuck(s: Live, shake: Str -> Shake, kept: bool, n: nat, t: Turn)
    requires s.r.InRange() && PCK_MIN_SIZE <= n && t == TurnOf(s.r)
    requires if kept then t == Stop(s.r)
             else if s.r.off + n > |s.r.buf| then t == Crash
             else t == Take(s.r.buf[s.r.off + PCK_MIN_SIZE..s.r.off + n], s.r)
    ensures Pump(s, shake) == Stuck(s, shake, kept, n)
  {
    if t.Stop? {
      PumpStops(s, shake, s.r);
    } else if t.Take? {
      PumpTakes(s, shake, t.payload, s.r);
    }
  }

  /** What the loop does with the beginning q of a frame of payload p: it keeps q for
      later iff q has at most six bytes or fewer bytes than the payload. In the six
      cases between, the test `length > Count()`, which forgets the header, lets the
      incomplete frame through. */
  lemma PumpPartial(s: Live, shake: Str -> Shake, p: Str, q: seq<Byte>)
    requires 0 < |p| < 0x8000
    requires s.r.InRange() && s.r.Slice() == q
    requires IsPrefix(q, Frame(p)) && |q| < |Frame(p)|
    ensures Pump(s, shake) == Stuck(s, shake, |q| <= PCK_MIN_SIZE || |q| < |p|, |Frame(p)|)
  {
    PartialTurn(s.r, p, q);
    PumpStuck(s, shake, |q| <= PCK_MIN_SIZE || |q| < |p|, |Frame(p)|, TurnOf(s.r));
  }

  /** One read into an empty buffer: the whole frames are taken, and then the loop
      ends as it does on the beginning of a frame. */
  lemma OneRead(s: Live, shake: Str -> Shake, ps: seq<Str>, p: Str, q: seq<Byte>, data: seq<Byte>) returns (end: Live)
    requires Sendable(ps) && 0 < |p| <= PAYLOAD_MAX && Admitted(s.known, shake, ps)
    requires IsPrefix(q, Frame(p)) && |q| < |Frame(p)|
    requires data == Stream(ps) + q && data != []
    requires s.r.off == 0 && s.r.cnt == 0 && |data| <= |s.r.buf|
    ensures end.r.InRange() && end.r.Slice() == q && |end.r.buf| == |s.r.buf|
    ensures end.log == s.log + ps && end.known == Knows(s.known, shake, ps)
    ensures AfterRead(s, shake, data) == Stuck(end, shake, |q| <= PCK_MIN_SIZE || |q| < |p|, |Frame(p)|)
  {
    var start := s.(r := s.r.Receive(data));
    ReadAppendsIff(s.r, data);
    assert s.r.Slice() + data == data;
    StreamToIs(ps, q);
    end := PumpFrames(start, shake, ps, q);
    PumpPartial(end, shake, p, q);
  }

  /** One read into an empty buffer, for every sequence of frames followed by the
      beginning q of one more (of payload p): the live loop delivers and holds what
      the split rule does iff q has at most six bytes or fewer bytes than p. */
  lemma LiveReadExact(s: Live, shake: Str -> Shake, ps: seq<Str>, p: Str, q: seq<Byte>, data: seq<Byte>)
    requires Sendable(ps) && 0 < |p| <= PAYLOAD_MAX && Admitted(s.known, shake, ps)
    requires IsPrefix(q, Frame(p)) && |q| < |Frame(p)|
    requires data == Stream(ps) + q && data != []
    requires s.r.off == 0 && s.r.cnt == 0 && |data| <= |s.r.buf|
    ensures var o := AfterRead(s, shake, data);
            var split := Feed(Session([], s.log), data);
            split == Session(q, s.log + ps) &&
            (o.how == Idle && o.live.log == split.delivered && o.live.r.InRange() && o.live.r.Slice() == split.held
             <==> |q| <= PCK_MIN_SIZE || |q| < |p|) &&
            (o.how == Idle ==> o.live.r.off == 0 && o.live.r.cnt == |q| && |o.live.r.buf| == |s.r.buf|
                               && o.live.known == Knows(s.known, shake, ps))
  {
    var end := OneRead(s, shake, ps, p, q, data);
    SliceLaws(end.r, 0);
    StreamToIs(ps, q);
    SplitOfOneRead(s.log, ps, p, q);
    assert [] + data == data;
  }

  lemma {:induction false} SplitOfOneRead(got: seq<Str>, ps: seq<Str>, p: Str, q: seq<Byte>)
    requires Sendable(ps)
    requires 0 < |p| < 0x8000 && IsPrefix(q, Frame(p)) && |q| < |Frame(p)|
    ensures Scan(Session(StreamTo(ps, q), got)) == Session(q, got + ps)
    decreases |ps|
  {
    if ps == [] {
      assert Frame(p) + [] == Frame(p) && got + ps == got;
      ScanFirst(p, q, [], got);
    } else {
      ScanWhole(ps[0], StreamTo(ps, q), StreamTo(ps[1..], q), got);
      SplitOfOneRead(got + [ps[0]], ps[1..], p, q);
      Shift(got, ps);
    }
  }

  lemma ScanWhole(p: Str, d: seq<Byte>, rest: seq<Byte>, got: seq<Str>)
    requires 0 < |p| < 0x8000 && d == Frame(p) + rest
    ensures Scan(Session(d, got)) == Scan(Session(rest, got + [p]))
  {
    FrameParts(p, d, rest);
    ScanFirst(p, d, rest, got);
  }

  // ---- Runs of frame-aligned reads ----

  /** Several reads, each handled to its end; a run stops where one does not end
      normally. */
  ghost function AfterReads(s: Live, shake: Str -> Shake, pieces: seq<seq<Byte>>): Outcome
    decreases |pieces|
  {
    if pieces == [] then
      Outcome(Idle, s)
    else if s.r.off + |pieces[0]| > |s.r.buf| then
      Outcome(Crashed, s)
    else
      var o := AfterRead(s, shake, pieces[0]);
      if o.how == Idle then AfterReads(o.live, shake, pieces[1..]) else o
  }

  function Flat(groups: seq<seq<Str>>): seq<Str> {
    if groups == [] then [] else groups[0] + Flat(groups[1..])
  }

  function Reads(groups: seq<seq<Str>>): (rs: seq<seq<Byte>>)
    ensures |rs| == |groups|
  {
    if groups == [] then [] else [Stream(groups[0])] + Reads(groups[1..])
  }

  /** Each read brings one or more whole frames. */
  predicate Aligned(groups: seq<seq<Str>>) {
    groups == [] ||
    (groups[0] != [] && Sendable(groups[0]) && |Stream(groups[0])| <= RECV_SIZE && Aligned(groups[1..]))
  }

  /** How reads of whole frames are to end: with all of them handed on and nothing held,
      or at the first payload that is not accepted as a handshake. */
  ghost predicate AlignedEnd(s: Live, shake: Str -> Shake, ps: seq<Str>, o: Outcome) {
    if Admitted(s.known, shake, ps) then
      o.how == Idle && o.live.log == s.log + ps && o.live.r.off == 0 && o.live.r.cnt == 0
    else
      var k := Barred(s.known, shake, ps);
      (shake(ps[k]) == Refused ==> o.how == Dropped) && (shake(ps[k]) == ReplyFails ==> o.how == Crashed) &&
      o.how in {Dropped, Crashed} && o.live.log == s.log + ps[..k + 1] && !o.live.known
  }

  lemma {:induction false} StreamToAt(ps: seq<Str>, k: nat, q: seq<Byte>)
    requires k < |ps|
    ensures StreamTo(ps, q) == StreamTo(ps[..k], Frame(ps[k]) + StreamTo(ps[k + 1..], q))
  {
    if k == 0 {
      assert ps[..0] == [] && ps[0 + 1..] == ps[1..];
    } else {
      StreamToAt(ps[1..], k - 1, q);
      assert ps[..k][0] == ps[0] && ps[..k][1..] == ps[1..][..k - 1] && ps[1..][k..] == ps[k + 1..];
    }
  }

  lemma {:induction false} SendableAt(ps: seq<Str>, k: nat)
    requires Sendable(ps) && k < |ps|
    ensures Sendable(ps[..k]) && 0 < |ps[k]| <= PAYLOAD_MAX
  {
    if k > 0 {
      SendableAt(ps[1..], k - 1);
      assert ps[..k][0] == ps[0] && ps[..k][1..] == ps[1..][..k - 1];
    }
  }

  lemma AlignedRead(s: Live, shake: Str -> Shake, ps: seq<Str>)
    requires ps != [] && Sendable(ps) && |Stream(ps)| <= RECV_SIZE
    requires s.r.off == 0 && s.r.cnt == 0 && |s.r.buf| == RECV_SIZE
    ensures var o := AfterRead(s, shake, Stream(ps));
            AlignedEnd(s, shake, ps, o) &&
            (Admitted(s.known, shake, ps) ==>
               o.live.known == Knows(s.known, shake, ps) && |o.live.r.buf| == RECV_SIZE)
  {
    var start := s.(r := s.r.Receive(Stream(ps)));
    ReadAppendsIff(s.r, Stream(ps));
    assert s.r.Slice() + Stream(ps) == Stream(ps);
    assert Stream(ps) + [] == Stream(ps);
    StreamToIs(ps, []);
    AlignedPump(start, shake, ps);
  }

  lemma AlignedPump(s: Live, shake: Str -> Shake, ps: seq<Str>)
    requires Sendable(ps) && |s.r.buf| == RECV_SIZE
    requires s.r.InRange() && s.r.Slice() == StreamTo(ps, [])
    ensures var o := Pump(s, shake);
            AlignedEnd(s, shake, ps, o) &&
            (Admitted(s.known, shake, ps) ==>
               o.live.known == Knows(s.known, shake, ps) && |o.live.r.buf| == RECV_SIZE)
  {
    if Admitted(s.known, shake, ps) {
      var end := PumpFrames(s, shake, ps, []);
      PumpEmpty(end, shake);
    } else {
      PumpBarred(s, shake, ps, Barred(s.known, shake, ps));
    }
  }

  lemma PumpEmpty(s: Live, shake: Str -> Shake)
    requires s.r.InRange() && s.r.cnt == 0
    ensures Pump(s, shake) == Outcome(Idle, s.(r := s.r.Reset()))
  {
    PumpStops(s, shake, s.r);
  }

  lemma PumpBarred(s: Live, shake: Str -> Shake, ps: seq<Str>, k: nat)
    requires Sendable(ps) && s.r.InRange() && s.r.Slice() == StreamTo(ps, [])
    requires !Admitted(s.known, shake, ps) && k == Barred(s.known, shake, ps)
    ensures var o := Pump(s, shake);
            (shake(ps[k]) == Refused ==> o.how == Dropped) && (shake(ps[k]) == ReplyFails ==> o.how == Crashed) &&
            o.how in {Dropped, Crashed} && o.live.log == s.log + ps[..k + 1] && !o.live.known
  {
    BarredIs(s.known, shake, ps);
    SendableAt(ps, k);
    StreamToAt(ps, k, []);
    var before, p := ps[..k], ps[k];
    assert before + [p] == ps[..k + 1];
    PumpRefused(s, shake, before, p, StreamTo(ps[k + 1..], []));
  }

  lemma AfterReadsStep(s: Live, shake: Str -> Shake, first: seq<Byte>, more: seq<seq<Byte>>)
    requires s.r.off + |first| <= |s.r.buf|
    ensures var o := AfterRead(s, shake, first);
            AfterReads(s, shake, [first] + more) == if o.how == Idle then AfterReads(o.live, shake, more) else o
  {
    assert ([first] + more)[1..] == more;
  }

  /** Frame-aligned reads are handled to their end iff every handshake is accepted. */
  lemma {:induction false} LiveAligned(s: Live, shake: Str -> Shake, groups: seq<seq<Str>>)
    requires Aligned(groups)
    requires s.r.off == 0 && s.r.cnt == 0 && |s.r.buf| == RECV_SIZE
    ensures AlignedEnd(s, shake, Flat(groups), AfterReads(s, shake, Reads(groups)))
    decreases |groups|
  {
    if groups == [] {
      assert s.log + [] == s.log;
    } else {
      var ps, more := groups[0], groups[1..];
      var first := AfterRead(s, shake, Stream(ps));
      AlignedRead(s, shake, ps);
      AfterReadsStep(s, shake, Stream(ps), Reads(more));
      AdmittedConcat(s.known, shake, ps, Flat(more));
      if Admitted(s.known, shake, ps) {
        LiveAligned(first.live, shake, more);
        AlignedEndConcat(s, shake, ps, first.live, Flat(more), AfterReads(first.live, shake, Reads(more)));
      } else {
        BarredEndConcat(s, shake, ps, Flat(more), first);
      }
    }
  }

  lemma BarredEndConcat(s: Live, shake: Str -> Shake, ps: seq<Str>, qs: seq<Str>, o: Outcome)
    requires !Admitted(s.known, shake, ps) && AlignedEnd(s, shake, ps, o)
    ensures AlignedEnd(s, shake, ps + qs, o)
  {
    AdmittedConcat(s.known, shake, ps, qs);
    BarredConcat(s.known, shake, ps, qs);
    var k := Barred(s.known, shake, ps);
    assert (ps + qs)[..k + 1] == ps[..k + 1];
  }

  lemma AlignedEndConcat(s: Live, shake: Str -> Shake, ps: seq<Str>, s': Live, qs: seq<Str>, o: Outcome)
    requires Admitted(s.known, shake, ps) && s'.log == s.log + ps && s'.known == Knows(s.known, shake, ps)
    requires AlignedEnd(s', shake, qs, o)
    ensures AlignedEnd(s, shake, ps + qs, o)
  {
    AdmittedConcat(s.known, shake, ps, qs);
    Assoc(s.log, ps, qs);
    if !Admitted(s.known, shake, ps + qs) {
      BarredConcat(s.known, shake, ps, qs);
      var k := Barred(s'.known, shake, qs);
      assert (ps + qs)[..|ps| + k + 1] == ps + qs[..k + 1];
      Assoc(s.log, ps, qs[..k + 1]);
    }
  }

  lemma {:induction false} StreamConcat(ps: seq<Str>, qs: seq<Str>)
    ensures Stream(ps + qs) == Stream(ps) + Stream(qs)
  {
    if ps == [] {
      assert ps + qs == qs;
    } else {
      StreamConcat(ps[1..], qs);
      assert (ps + qs)[1..] == ps[1..] + qs;
      Assoc(Frame(ps[0]), Stream(ps[1..]), Stream(qs));
    }
  }

  lemma {:induction false} SendableConcat(ps: seq<Str>, qs: seq<Str>)
    requires Sendable(ps) && Sendable(qs)
    ensures Sendable(ps + qs)
  {
    if ps == [] {
      assert ps + qs == qs;
    } else {
      SendableConcat(ps[1..], qs);
      assert (ps + qs)[1..] == ps[1..] + qs;
    }
  }

  lemma {:induction false} JoinedReads(groups: seq<seq<Str>>)
    requires Aligned(groups)
    ensures Joined(Reads(groups)) == Stream(Flat(groups)) && Sendable(Flat(groups))
  {
    if groups != [] {
      JoinedReads(groups[1..]);
      StreamConcat(groups[0], Flat(groups[1..]));
      SendableConcat(groups[0], Flat(groups[1..]));
    }
  }

  /** For every cutting of a sequence of sendable payloads into frame-aligned reads of
      at most 8192 bytes, the live loop, starting empty, delivers exactly those
      payloads in order, ends empty, and so agrees with the split rule; that is, iff
      no payload that comes before the connection is known is refused. */
  lemma LiveRefinesSplit(s: Live, shake: Str -> Shake, groups: seq<seq<Str>>)
    requires Aligned(groups)
    requires s.r.off == 0 && s.r.cnt == 0 && |s.r.buf| == RECV_SIZE && s.log == []
    ensures var o := AfterReads(s, shake, Reads(groups));
            var split := FeedAll(START, Reads(groups));
            split == Session([], Flat(groups)) &&
            (o.how == Idle && o.live.log == split.delivered && o.live.r.cnt == 0
             <==> Admitted(s.known, shake, Flat(groups)))
  {
    LiveAligned(s, shake, groups);
    assert [] + Flat(groups) == Flat(groups);
    JoinedReads(groups);
    AllArrived(Flat(groups), Reads(groups));
  }

  lemma AllArrived(ps: seq<Str>, pieces: seq<seq<Byte>>)
    requires Sendable(ps) && Joined(pieces) == Stream(ps)
    ensures FeedAll(START, pieces) == Session([], ps)
  {
    StreamTheorem(ps, pieces);
    var split := FeedAll(START, pieces);
    var k := |split.delivered|;
    if k < |ps| {
      StreamSplit(ps, k + 1);
      assert false;
    }
    assert ps[..k] == ps;
  }

  // ---- What is no frame ----

  /** Bytes that do not begin with the header: the loop throws all it holds away, and the
      split rule waits for more for ever. */
  lemma NoHeader(s: Live, shake: Str -> Shake, d: seq<Byte>, more: seq<Byte>)
    requires s.r.InRange() && s.r.Slice() == d && |d| > PCK_MIN_SIZE && d[..4] != [0x6f, 0x67, 0x23, 0x21]
    ensures var o := Pump(s, shake); o.how == Idle && o.live.log == s.log && o.live.r.cnt == 0 && o.live.r.off == 0
    ensures SplitRule(d, false) == More && SplitRule(d + more, false) == More
  {
    Cleared(s, shake, d);
    HeaderBytes();
    IntegersAreBijective(d[..4]);
    assert (d + more)[..4] == d[..4];
  }

  /** A length with its top bit set is negative: both panic. */
  lemma NegativeLength(s: Live, shake: Str -> Shake, d: seq<Byte>)
    requires s.r.InRange() && s.r.Slice() == d && |d| > PCK_MIN_SIZE
    requires d[..4] == [0x6f, 0x67, 0x23, 0x21] && d[5] >= 128
    ensures Pump(s, shake) == Outcome(Crashed, s) && SplitRule(d, false) == Panics
  {
    HeaderBytes();
    IntegersRoundTrip(0, PCK_HEADER, 0, 0);
    NegativeTop(d[4..][..2]);
    assert d[4..][..2][1] == d[5];
    assert TurnOf(s.r) == Crash;
  }

  lemma NegativeTop(b: seq<Byte>)
    requires |b| == 2 && b[1] >= 128
    ensures OfLE16(b) < 0
  {
    var c := b[1..];
    assert c[1..] == [] && FromLE(c) == c[0] && FromLE(b) == b[0] + 256 * FromLE(c);
  }

  /** A read that brings nothing changes nothing, and the connection gets an error. */
  lemma NothingRead(s: Live, shake: Str -> Shake)
    requires s.r.off <= |s.r.buf|
    ensures AfterRead(s, shake, []) == Outcome(NoData, s)
  {
  }

  // ---- A frame cut in two ----

  lemma HeaderBytes()
    ensures LE32(PCK_HEADER) == [0x6f, 0x67, 0x23, 0x21]
  {
    var h: seq<Byte> := [0x6f, 0x67, 0x23, 0x21];
    assert h[1..] == [0x67, 0x23, 0x21] && h[1..][1..] == [0x23, 0x21];
    assert h[1..][1..][1..] == [0x21] && h[1..][1..][1..][1..] == [];
    assert FromLE(h) == PCK_HEADER;
    IntegersAreBijective(h);
  }

  lemma LengthBytes(n: Int16)
    requires 0 <= n
    ensures LE16(n) == [n % 256, n / 256]
  {
    assert ToLE(n, 2) == [n % 256] + ToLE(n / 256, 1);
    assert ToLE(n / 256, 1) == [(n / 256) % 256] + ToLE(n / 256 / 256, 0);
  }

  /** The six bytes in front of a payload. */
  lemma HeadBytes(p: Str, f: seq<Byte>)
    requires 0 < |p| <= PAYLOAD_MAX && f == Frame(p)
    ensures |f| == PCK_MIN_SIZE + |p| && f[..4] == [0x6f, 0x67, 0x23, 0x21]
    ensures f[4] == |p| % 256 && f[5] == |p| / 256
  {
    TruncFits(|p|);
    HeaderBytes();
    LengthBytes(|p|);
    HeadParts(p, f, LE32(PCK_HEADER), LE16(Trunc16(|p|)));
  }

  lemma HeadParts(p: Str, f: seq<Byte>, header: seq<Byte>, length: seq<Byte>)
    requires f == (header + length) + p && |header| == 4 && |length| == 2
    ensures |f| == PCK_MIN_SIZE + |p| && f[..4] == header && f[4] == length[0] && f[5] == length[1]
  {
  }

  /** A turn on bytes that do not begin with the header empties the buffer. */
  lemma TurnClears(r: Rcv)
    requires r.InRange() && r.cnt > PCK_MIN_SIZE && r.Slice()[..4] != [0x6f, 0x67, 0x23, 0x21]
    ensures TurnOf(r) == Stop(r.Clear())
  {
    HeaderBytes();
    IntegersAreBijective(r.Slice()[..4]);
  }

  /** No part of a frame that begins inside its six first bytes begins like a frame. */
  lemma TailIsNoHeader(p: Str, f: seq<Byte>, k: nat, d: seq<Byte>)
    requires 0 < |p| <= PAYLOAD_MAX && f == Frame(p) && 0 < k < PCK_MIN_SIZE
    requires |d| >= |f| && d[..|f| - k] == f[k..]
    ensures d[..4] != [0x6f, 0x67, 0x23, 0x21]
  {
    HeadBytes(p, f);
    assert d[0] == f[k] && d[1] == f[k..][1];
    assert f[1] == f[..4][1] && f[2] == f[..4][2] && f[3] == f[..4][3];
  }

  /** What one turn takes is p only if the buffer begins with the frame of p. */
  lemma TakesOnlyFrames(r: Rcv, p: Str, f: seq<Byte>)
    requires 0 < |p| <= PAYLOAD_MAX && r.InRange() && f == Frame(p) && r.cnt >= |f|
    ensures TurnOf(r).Take? && TurnOf(r).payload == p <==> r.Slice()[..|f|] == f
  {
    var d := r.Slice();
    if d[..|f|] == f {
      assert d == f + d[|f|..];
      TurnTakesFrame(r, p, d, d[|f|..]);
    }
    if TurnOf(r).Take? && TurnOf(r).payload == p {
      TakenIsFramed(r, p, d);
    }
  }

  lemma SubSlice(b: seq<Byte>, o: nat, c: nat, i: nat, j: nat)
    requires o + c <= |b| && i <= j <= c
    ensures b[o..o + c][i..j] == b[o + i..o + j]
  {
    var s, t := b[o..o + c][i..j], b[o + i..o + j];
    assert |s| == |t|;
    assert forall k | 0 <= k < |s| :: s[k] == b[o..o + c][i + k] == t[k];
  }

  lemma TakenIsFramed(r: Rcv, p: Str, d: seq<Byte>)
    requires 0 < |p| <= PAYLOAD_MAX && r.InRange() && d == r.Slice() && |d| >= PCK_MIN_SIZE + |p|
    requires TurnOf(r).Take? && TurnOf(r).payload == p
    ensures d[..PCK_MIN_SIZE + |p|] == Frame(p)
  {
    var header, length := d[..4], d[4..][..2];
    assert OfLE32(header) == PCK_HEADER && OfLE16(length) == |p|;
    TruncFits(|p|);
    IntegersAreBijective(header);
    IntegersAreBijective(length);
    assert header == LE32(PCK_HEADER) && length == LE16(|p|);
    var body := d[PCK_MIN_SIZE..PCK_MIN_SIZE + |p|];
    SubSlice(r.buf, r.off, r.cnt, PCK_MIN_SIZE, PCK_MIN_SIZE + |p|);
    assert body == p;
    assert d[..PCK_MIN_SIZE + |p|] == (header + length) + body;
  }

  /** The next payload handed on is p. */
  predicate HandsOnNext(log: seq<Str>, log': seq<Str>, p: Str) {
    |log| < |log'| && log'[|log|] == p
  }

  /** What is held after a second read, of the rest of a frame and whatever follows, has
      come over the first k bytes. */
  lemma SecondBytes(r: Rcv, f: seq<Byte>, k: nat, rest: seq<Byte>, d: seq<Byte>)
    requires 0 < k < |f| && |f| + |rest| <= RECV_SIZE
    requires r.off == 0 && r.cnt == k && |r.buf| == RECV_SIZE && r.Slice() == f[..k]
    requires d == (f[k..] + rest) + r.buf[|f| - k + |rest|..|f| + |rest|]
    ensures var r' := r.Receive(f[k..] + rest);
            r'.InRange() && r'.cnt == |f| + |rest| == |d| && r'.Slice() == d &&
            (d[..|f|] == f <==> Repeats(d[..|f|], f[..k]))
  {
    var data := f[k..] + rest;
    var stale := r.buf[|data|..|data| + k];
    assert r.buf[r.off + |data|..][..r.cnt] == stale;
    ReadAppendsIff(r, data);
    var over := (rest + stale)[..k];
    assert d[..|f|] == f[k..] + over;
    RepeatsIff(f[..k], f[k..], over);
    assert f[..k] + f[k..] == f;
  }

  lemma SecondPart(s: Live, shake: Str -> Shake, p: Str, f: seq<Byte>, k: nat, rest: seq<Byte>, d: seq<Byte>)
    requires 0 < |p| <= PAYLOAD_MAX && f == Frame(p) && 0 < k < |f| && |f| + |rest| <= RECV_SIZE
    requires s.r.off == 0 && s.r.cnt == k && |s.r.buf| == RECV_SIZE && s.r.Slice() == f[..k]
    requires d == (f[k..] + rest) + s.r.buf[|f| - k + |rest|..|f| + |rest|]
    ensures var o := AfterRead(s, shake, f[k..] + rest);
            (HandsOnNext(s.log, o.live.log, p) <==> Repeats(d[..|f|], f[..k])) &&
            (k < PCK_MIN_SIZE ==> o.how == Idle && o.live.log == s.log && o.live.r.cnt == 0)
  {
    var s' := s.(r := s.r.Receive(f[k..] + rest));
    SecondBytes(s.r, f, k, rest, d);
    HeldOnNext(s', shake, p, f, d);
    if k < PCK_MIN_SIZE {
      assert d[..|f| - k] == f[k..];
      TailIsNoHeader(p, f, k, d);
      Cleared(s', shake, d);
    }
  }

  lemma HeldOnNext(s: Live, shake: Str -> Shake, p: Str, f: seq<Byte>, d: seq<Byte>)
    requires 0 < |p| <= PAYLOAD_MAX && f == Frame(p) && s.r.InRange() && s.r.Slice() == d && |d| >= |f|
    ensures HandsOnNext(s.log, Pump(s, shake).live.log, p) <==> d[..|f|] == f
  {
    TakesOnlyFrames(s.r, p, f);
    PumpDelivers(s, shake, p);
  }

  /** Without the header in front, everything held is thrown away. */
  lemma Cleared(s: Live, shake: Str -> Shake, d: seq<Byte>)
    requires s.r.InRange() && s.r.Slice() == d && |d| > PCK_MIN_SIZE && d[..4] != [0x6f, 0x67, 0x23, 0x21]
    ensures var o := Pump(s, shake); o.how == Idle && o.live.log == s.log && o.live.r.cnt == 0 && o.live.r.off == 0
  {
    TurnClears(s.r);
    PumpStops(s, shake, s.r.Clear());
  }

  /** More than the array holds: Slice panics. */
  lemma SecondPartTooLong(s: Live, shake: Str -> Shake, f: seq<Byte>, k: nat, rest: seq<Byte>)
    requires PCK_MIN_SIZE < |f| && 0 < k < |f| && |f| - k + |rest| <= RECV_SIZE < |f| + |rest|
    requires s.r.off == 0 && s.r.cnt == k && |s.r.buf| == RECV_SIZE
    ensures var o := AfterRead(s, shake, f[k..] + rest);
            o.how == Crashed && o.live.log == s.log
  {
    var r := s.r.Receive(f[k..] + rest);
    assert TurnOf(r) == Crash;
  }

  /** The loop hands on nothing but what its turns take. */
  lemma {:induction false} LogGrows(s: Live, shake: Str -> Shake)
    ensures |Pump(s, shake).live.log| >= |s.log| && Pump(s, shake).live.log[..|s.log|] == s.log
    decreases s.r.cnt
  {
    match TurnOf(s.r)
    case Stop(_) =>
    case Crash =>
    case Take(p, r) =>
      var s' := Live(r, Greet(s.known, shake, p), s.log + [p]);
      if Admits(s.known, shake, p) && r != s.r {
        LogGrows(s', shake);
        assert s'.log[..|s.log|] == s.log;
      }
  }

  /** The loop hands on p next iff its first turn takes p. */
  lemma PumpDelivers(s: Live, shake: Str -> Shake, p: Str)
    ensures HandsOnNext(s.log, Pump(s, shake).live.log, p) <==> TurnOf(s.r).Take? && TurnOf(s.r).payload == p
  {
    var t := TurnOf(s.r);
    if t.Stop? {
      PumpStops(s, shake, t.left);
    } else if t.Take? {
      var s' := Live(t.left, Greet(s.known, shake, t.payload), s.log + [t.payload]);
      PumpTakes(s, shake, t.payload, t.left);
      LogGrows(s', shake);
      assert s'.log[|s.log|] == t.payload;
      assert Pump(s, shake).live.log[..|s'.log|][|s.log|] == s'.log[|s.log|];
    }
  }

  /** The split rule puts the two parts together and goes on with what follows. */
  lemma SplitOfTwoReads(got: seq<Str>, p: Str, f: seq<Byte>, k: nat, rest: seq<Byte>)
    requires 0 < |p| <= PAYLOAD_MAX && f == Frame(p) && 0 < k < |f|
    ensures Feed(Session(f[..k], got), f[k..] + rest) == Feed(Session([], got + [p]), rest)
  {
    assert f[..k] + (f[k..] + rest) == f + rest;
    ScanWhole(p, f + rest, rest, got);
    assert [] + rest == rest;
  }

  /** For every payload and every cut of its frame into two reads, the first of which
      may bring whole frames before it and the second anything behind it. If the first
      part is kept at all, and both parts and what follows fit the array, the payload is
      handed on next exactly when the bytes held after the second read only repeat the
      first part; a cut within the header always loses the frame, and everything behind
      it in that read. If they do not fit, the second read ends in a panic. The split
      rule delivers the frame in every case. */
  lemma CutFrameExact(s: Live, shake: Str -> Shake, ps: seq<Str>, p: Str, f: seq<Byte>, k: nat, rest: seq<Byte>,
                      data: seq<Byte>)
    requires Sendable(ps) && 0 < |p| <= PAYLOAD_MAX && Admitted(s.known, shake, ps)
    requires f == Frame(p) && 0 < k < |f| && (k <= PCK_MIN_SIZE || k < |p|)
    requires data == Stream(ps) + f[..k] && |data| <= RECV_SIZE && |f| - k + |rest| <= RECV_SIZE
    requires s.r.off == 0 && s.r.cnt == 0 && |s.r.buf| == RECV_SIZE
    ensures var first := AfterRead(s, shake, data);
            first.how == Idle && first.live.log == s.log + ps && first.live.r.off == 0 && |first.live.r.buf| == RECV_SIZE &&
            var second := AfterRead(first.live, shake, f[k..] + rest);
            if |f| + |rest| <= RECV_SIZE then
              var held := (f[k..] + rest) + first.live.r.buf[|f| - k + |rest|..|f| + |rest|];
              (HandsOnNext(s.log + ps, second.live.log, p) <==> Repeats(held[..|f|], f[..k])) &&
              (k < PCK_MIN_SIZE ==> second.how == Idle && second.live.log == s.log + ps && second.live.r.cnt == 0)
            else
              second.how == Crashed && second.live.log == s.log + ps
    ensures Feed(Feed(Session([], s.log), data), f[k..] + rest) == Feed(Session([], (s.log + ps) + [p]), rest)
  {
    LiveReadExact(s, shake, ps, p, f[..k], data);
    var first := AfterRead(s, shake, data).live;
    if |f| + |rest| <= RECV_SIZE {
      SecondPart(first, shake, p, f, k, rest, (f[k..] + rest) + first.r.buf[|f| - k + |rest|..|f| + |rest|]);
    } else {
      SecondPartTooLong(first, shake, f, k, rest);
    }
    SplitOfTwoReads(s.log + ps, p, f, k, rest);
  }

  /** So the alignment is needed. A frame cut within its header, and all frames that come
      behind it in the same read, are delivered by the split rule and lost by the live
      loop, whatever the payloads, the place of the cut and the contents of the array. */
  lemma CutFrameIsLost(s: Live, shake: Str -> Shake, p: Str, f: seq<Byte>, k: nat, qs: seq<Str>,
                       a: seq<Byte>, b: seq<Byte>, pieces: seq<seq<Byte>>)
    requires 0 < |p| <= PAYLOAD_MAX && Sendable(qs) && f == Frame(p) && 0 < k < PCK_MIN_SIZE
    requires a == f[..k] && b == f[k..] + Stream(qs) && |b| <= RECV_SIZE && pieces == [a] + [b]
    requires s.r.off == 0 && s.r.cnt == 0 && |s.r.buf| == RECV_SIZE && s.log == []
    ensures FeedAll(START, pieces) == Session([], [p] + qs)
    ensures var o := AfterReads(s, shake, pieces);
            o.live.log == [] && if |a| + |b| <= RECV_SIZE then o.how == Idle && o.live.r.cnt == 0 else o.how == Crashed
  {
    assert a + b == f + Stream(qs);
    SplitOfPieces(p, qs, pieces, a, b);
    CutReads(s, shake, p, f, k, Stream(qs), a, b, pieces);
  }

  lemma CutReads(s: Live, shake: Str -> Shake, p: Str, f: seq<Byte>, k: nat, rest: seq<Byte>,
                 a: seq<Byte>, b: seq<Byte>, pieces: seq<seq<Byte>>)
    requires 0 < |p| <= PAYLOAD_MAX && f == Frame(p) && 0 < k < PCK_MIN_SIZE
    requires a == f[..k] && b == f[k..] + rest && |b| <= RECV_SIZE && pieces == [a] + [b]
    requires s.r.off == 0 && s.r.cnt == 0 && |s.r.buf| == RECV_SIZE && s.log == []
    ensures var o := AfterReads(s, shake, pieces);
            o.live.log == [] && if |a| + |b| <= RECV_SIZE then o.how == Idle && o.live.r.cnt == 0 else o.how == Crashed
  {
    CutWithinHeader(s, shake, p, f, k, rest, a);
    TwoReads(s, shake, a, b);
  }

  lemma CutWithinHeader(s: Live, shake: Str -> Shake, p: Str, f: seq<Byte>, k: nat, rest: seq<Byte>, a: seq<Byte>)
    requires 0 < |p| <= PAYLOAD_MAX && f == Frame(p) && 0 < k < PCK_MIN_SIZE
    requires a == f[..k] && |f| - k + |rest| <= RECV_SIZE
    requires s.r.off == 0 && s.r.cnt == 0 && |s.r.buf| == RECV_SIZE && s.log == []
    ensures var first := AfterRead(s, shake, a);
            first.how == Idle && first.live.r.off == 0 && |first.live.r.buf| == RECV_SIZE &&
            var o := AfterRead(first.live, shake, f[k..] + rest);
            o.live.log == [] && if |f| + |rest| <= RECV_SIZE then o.how == Idle && o.live.r.cnt == 0 else o.how == Crashed
  {
    assert Stream([]) + a == a && s.log + [] == s.log;
    CutFrameExact(s, shake, [], p, f, k, rest, a);
  }

  lemma TwoReads(s: Live, shake: Str -> Shake, a: seq<Byte>, b: seq<Byte>)
    requires s.r.off + |a| <= |s.r.buf| && AfterRead(s, shake, a).how == Idle
    requires var s' := AfterRead(s, shake, a).live; s'.r.off + |b| <= |s'.r.buf|
    ensures AfterReads(s, shake, [a] + [b]) == AfterRead(AfterRead(s, shake, a).live, shake, b)
  {
    var none: seq<seq<Byte>> := [];
    AfterReadsStep(s, shake, a, [b]);
    AfterReadsStep(AfterRead(s, shake, a).live, shake, b, none);
    assert [b] + none == [b];
  }

  lemma SplitOfPieces(p: Str, qs: seq<Str>, pieces: seq<seq<Byte>>, a: seq<Byte>, b: seq<Byte>)
    requires 0 < |p| <= PAYLOAD_MAX && Sendable(qs) && pieces == [a] + [b] && a + b == Frame(p) + Stream(qs)
    ensures FeedAll(START, pieces) == Session([], [p] + qs)
  {
    var ps := [p] + qs;
    assert ps[1..] == qs && pieces[1..] == [b] && [b][1..] == [];
    assert Joined([b]) == b;
    AllArrived(ps, pieces);
  }
}
