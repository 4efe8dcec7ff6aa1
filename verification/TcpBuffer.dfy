/** nets/tcp.go: TcpBuffer, the fixed receive buffer, and the live receive loop
    of h_tcpSocket that takes frames out of it. */
module TcpReceive {
  import opened Bytes
  import opened Buffers
  import opened Reading
  import opened Framing

  // ---- The buffer as a value ----

  datatype Rcv = Rcv(buf: seq<Byte>, off: nat, cnt: nat) {
    /** Slice() panics otherwise. */
    predicate InRange() {
      off + cnt <= |buf|
    }

    function Slice(): (s: seq<Byte>)
      requires InRange()
      ensures |s| == cnt
    {
      buf[off..off + cnt]
    }

    function DeleteData(n: nat): Rcv {
      if cnt >= n then Rcv(buf, off + n, cnt - n) else this
    }

    function Clear(): Rcv {
      Rcv(seq(|buf|, _ => 0), 0, 0)
    }

    /** Reset moves the buffered bytes to the front. */
    function Reset(): Rcv
      requires InRange()
    {
      Rcv(Slice() + buf[cnt..], 0, cnt)
    }

    /** conn.Read stores at Buffer(), which starts at the offset; AddDataLen then
        counts the new bytes behind the ones already counted. */
    function Receive(data: seq<Byte>): Rcv
      requires off + |data| <= |buf|
    {
      Rcv(buf[..off] + data + buf[off + |data|..], off, cnt + |data|)
    }
  }

  // ---- The buffer as an object ----

  class TcpBuffer {
    var count: nat
    var offset: nat
    var buffer: array<Byte>

    constructor (buf: array<Byte>)
      ensures buffer == buf && View() == Rcv(buf[..], 0, 0)
    {
      buffer, offset, count := buf, 0, 0;
    }

    function View(): Rcv
      reads this, buffer
    {
      Rcv(buffer[..], offset, count)
    }

    method Clear()
      modifies this, buffer
      ensures buffer == old(buffer) && View() == old(View()).Clear()
    {
      offset, count := 0, 0;
      for i := 0 to buffer.Length
        invariant buffer == old(buffer) && offset == 0 && count == 0
        invariant forall k | 0 <= k < i :: buffer[k] == 0
      {
        buffer[i] := 0;
      }
    }

    /** copy(t._buffer, t.Slice()): source and target overlap, and the forward
        copy never reads a byte it has already overwritten. */
    method Reset()
      requires View().InRange()
      modifies this, buffer
      ensures buffer == old(buffer) && View() == old(View()).Reset()
    {
      for i := 0 to count
        invariant buffer == old(buffer) && offset == old(offset) && count == old(count)
        invariant forall k | 0 <= k < i :: buffer[k] == old(buffer[offset + k])
        invariant forall k | i <= k < buffer.Length :: buffer[k] == old(buffer[k])
      {
        buffer[i] := buffer[offset + i];
      }
      offset := 0;
    }

    /** conn.Read(rcvbuf.Buffer()) followed by AddDataLen. */
    method Receive(data: seq<Byte>)
      requires offset + |data| <= buffer.Length
      modifies this, buffer
      ensures buffer == old(buffer) && View() == old(View()).Receive(data)
    {
      for i := 0 to |data|
        invariant buffer == old(buffer) && offset == old(offset) && count == old(count)
        invariant buffer[offset..offset + i] == data[..i]
        invariant forall k | 0 <= k < offset || offset + i <= k < buffer.Length :: buffer[k] == old(buffer[k])
      {
        buffer[offset + i] := data[i];
      }
      AddDataLen(|data|);
      assert buffer[..] == old(buffer[..offset]) + data + old(buffer[offset + |data|..]);
    }

    method AddDataLen(n: nat)
      modifies this`count
      ensures count == old(count) + n
    {
      count := count + n;
    }

    method DeleteData(n: nat)
      modifies this`count, this`offset
      ensures View() == old(View()).DeleteData(n)
    {
      if count >= n {
        offset, count := offset + n, count - n;
      }
    }

    method Slice() returns (s: seq<Byte>)
      requires View().InRange()
      ensures s == View().Slice()
    {
      s := buffer[offset..offset + count];
    }
  }

  // ---- The receive loop ----

  /** One turn of `for rcvbuf.Count() > PCK_MIN_SIZE`. */
  datatype Turn =
    | Stop(left: Rcv)               // the guard fails, or a break
    | Take(payload: Str, left: Rcv) // a payload is handed on
    | Crash

  function TurnOf(r: Rcv): Turn {
    if r.cnt <= PCK_MIN_SIZE then
      Stop(r)
    else if !r.InRange() then
      Crash
    else
      var head := ReadInt(Cursor(r.Slice(), false));
      var length := ReadShort(head.at);
      if head.at.err || head.val != PCK_HEADER then
        Stop(r.Clear())
      else if length.val > r.cnt then
        Stop(r)
      else if length.val < 0 || r.off + PCK_MIN_SIZE + length.val > |r.buf| then
        Crash
      else
        var payload := r.buf[r.off + PCK_MIN_SIZE..r.off + PCK_MIN_SIZE + length.val];
        Take(payload, r.DeleteData(length.val + PCK_MIN_SIZE))
  }

  /** What the first payload of a connection that is not yet known leads to:
      dealHandShake fails; or it succeeds and the connection is known or (its id being
      taken) still not known; or its reply cannot be written, which panics, for it
      then extends an error that is nil. */
  datatype Shake = Refused | Accepted(known: bool) | ReplyFails

  /** How the handling of one read ends. */
  datatype Ended =
    | Idle     // the loop was left and Reset has run
    | NoData   // the read gave no byte: onError, and nothing else
    | Dropped  // the handshake was refused: return without Reset
    | Crashed  // a runtime panic
    | Endless  // the loop takes the same payload for ever

  datatype Live = Live(r: Rcv, known: bool, log: seq<Str>)

  datatype Outcome = Outcome(how: Ended, live: Live)

  function Finish(r: Rcv, known: bool, log: seq<Str>): Outcome {
    if r.InRange() then Outcome(Idle, Live(r.Reset(), known, log)) else Outcome(Crashed, Live(r, known, log))
  }

  function Greet(known: bool, shake: Str -> Shake, p: Str): bool {
    known || (shake(p).Accepted? && shake(p).known)
  }

  predicate Admits(known: bool, shake: Str -> Shake, p: Str) {
    known || shake(p).Accepted?
  }

  /** How the handling of the read ends at a payload that is not admitted. */
  function Refusal(shake: Str -> Shake, p: Str): Ended {
    if shake(p) == Refused then Dropped else Crashed
  }

  /** The whole loop. A turn that leaves the buffer as it found it would repeat
      without end. */
  function Pump(s: Live, shake: Str -> Shake): Outcome
    decreases s.r.cnt
  {
    match TurnOf(s.r)
    case Stop(r) => Finish(r, s.known, s.log)
    case Crash => Outcome(Crashed, s)
    case Take(p, r) =>
      var s' := Live(r, Greet(s.known, shake, p), s.log + [p]);
      if !Admits(s.known, shake, p) then Outcome(Refusal(shake, p), s'.(known := s.known))
      else if r == s.r then Outcome(Endless, s')
      else Pump(s', shake)
  }

  lemma PumpStops(s: Live, shake: Str -> Shake, r: Rcv)
    requires TurnOf(s.r) == Stop(r)
    ensures Pump(s, shake) == Finish(r, s.known, s.log)
  {
  }

  lemma PumpTakes(s: Live, shake: Str -> Shake, p: Str, r: Rcv)
    requires TurnOf(s.r) == Take(p, r)
    ensures var s' := Live(r, Greet(s.known, shake, p), s.log + [p]);
            Pump(s, shake) == if !Admits(s.known, shake, p) then Outcome(Refusal(shake, p), s'.(known := s.known))
                              else if r.cnt == s.r.cnt then Outcome(Endless, s')
                              else Pump(s', shake)
  {
  }

  function AfterRead(s: Live, shake: Str -> Shake, data: seq<Byte>): Outcome
    requires s.r.off + |data| <= |s.r.buf|
  {
    if data == [] then Outcome(NoData, s) else Pump(s.(r := s.r.Receive(data)), shake)
  }

  datatype Next = GoOn | Break | End(how: Ended)

  /** The closure that h_tcpSocket runs, for a read that did not fail. */
  class TcpSocket {
    const rcvbuf: TcpBuffer
    var known: bool
    var log: seq<Str>

    constructor ()
      ensures fresh(rcvbuf) && fresh(rcvbuf.buffer)
      ensures View() == Live(Rcv(seq(RECV_SIZE, _ => 0), 0, 0), false, [])
    {
      var buf := new Byte[RECV_SIZE](_ => 0);
      rcvbuf := new TcpBuffer(buf);
      known, log := false, [];
    }

    ghost function View(): Live
      reads this, rcvbuf, rcvbuf.buffer
    {
      Live(rcvbuf.View(), known, log)
    }

    /** One turn of the loop, up to the payload it takes out of the buffer. */
    method TakeTurn() returns (turn: Turn)
      requires rcvbuf.count > PCK_MIN_SIZE
      modifies rcvbuf, rcvbuf.buffer
      ensures rcvbuf.buffer == old(rcvbuf.buffer)
      ensures turn == TurnOf(old(rcvbuf.View()))
      ensures rcvbuf.View() == if turn.Crash? then old(rcvbuf.View()) else turn.left
    {
      if rcvbuf.offset + rcvbuf.count > rcvbuf.buffer.Length { return Crash; }
      var slice := rcvbuf.Slice();
      var head := ReadInt(Cursor(slice, false));
      if head.at.err || head.val != PCK_HEADER {
        rcvbuf.Clear();
        return Stop(rcvbuf.View());
      }
      var length := ReadShort(head.at);
      // Seven bytes are there, so this read cannot fail.
      if length.val > rcvbuf.count {
        return Stop(rcvbuf.View());
      }
      var n := length.val;
      if n < 0 || rcvbuf.offset + PCK_MIN_SIZE + n > rcvbuf.buffer.Length { return Crash; }
      var payload := rcvbuf.buffer[rcvbuf.offset + PCK_MIN_SIZE..rcvbuf.offset + PCK_MIN_SIZE + n];
      rcvbuf.DeleteData(n + PCK_MIN_SIZE);
      turn := Take(payload, rcvbuf.View());
    }

    /** The payload goes to the message handler of a known connection, or else to
        the handshake; false if that does not accept it. */
    method HandOn(payload: Str, shake: Str -> Shake) returns (ok: bool)
      modifies this`known, this`log
      ensures log == old(log) + [payload] && ok == Admits(old(known), shake, payload)
      ensures known == if ok then Greet(old(known), shake, payload) else old(known)
    {
      log := log + [payload];
      if !known {
        if !shake(payload).Accepted? { return false; }
        known := shake(payload).known;
      }
      ok := true;
    }

    /** The body of the loop: whether the loop goes on, is left by a break, or the
        handling of the read ends here. */
    method Step(shake: Str -> Shake) returns (next: Next)
      requires rcvbuf.count > PCK_MIN_SIZE
      modifies this, rcvbuf, rcvbuf.buffer
      ensures rcvbuf.buffer == old(rcvbuf.buffer)
      ensures next.GoOn? ==> Pump(old(View()), shake) == Pump(View(), shake) && rcvbuf.count < old(rcvbuf.count)
      ensures next.Break? ==> Pump(old(View()), shake) == Finish(rcvbuf.View(), known, log)
      ensures next.End? ==> Pump(old(View()), shake) == Outcome(next.how, View())
    {
      ghost var before := View();
      var count := rcvbuf.count;
      var turn := TakeTurn();
      if turn.Crash? { return End(Crashed); }
      if turn.Stop? {
        PumpStops(before, shake, turn.left);
        return Break;
      }
      var ok := HandOn(turn.payload, shake);
      PumpTakes(before, shake, turn.payload, turn.left);
      if !ok { return End(Refusal(shake, turn.payload)); }
      next := if rcvbuf.count == count then End(Endless) else GoOn;
    }

    /** The loop: it is left, or the handling of the read ends within it. */
    method Loop(shake: Str -> Shake) returns (next: Next)
      modifies this, rcvbuf, rcvbuf.buffer
      ensures rcvbuf.buffer == old(rcvbuf.buffer) && !next.GoOn?
      ensures next.Break? ==> Pump(old(View()), shake) == Finish(rcvbuf.View(), known, log)
      ensures next.End? ==> Pump(old(View()), shake) == Outcome(next.how, View())
    {
      ghost var o := Pump(View(), shake);
      while rcvbuf.count > PCK_MIN_SIZE
        invariant rcvbuf.buffer == old(rcvbuf.buffer)
        invariant o == Pump(View(), shake)
        decreases rcvbuf.count
      {
        next := Step(shake);
        if !next.GoOn? { return; }
      }
      PumpStops(View(), shake, rcvbuf.View());
      next := Break;
    }

    method OnBytes(data: seq<Byte>, shake: Str -> Shake) returns (how: Ended)
      requires rcvbuf.offset + |data| <= rcvbuf.buffer.Length
      modifies this, rcvbuf, rcvbuf.buffer
      ensures rcvbuf.buffer == old(rcvbuf.buffer)
      ensures Outcome(how, View()) == AfterRead(old(View()), shake, data)
    {
      if data == [] { return NoData; }
      rcvbuf.Receive(data);
      var next := Loop(shake);
      if next.End? { return next.how; }
      how := Leave();
    }

    /** Behind the loop. */
    method Leave() returns (how: Ended)
      modifies rcvbuf, rcvbuf.buffer
      ensures rcvbuf.buffer == old(rcvbuf.buffer)
      ensures Outcome(how, View()) == Finish(old(rcvbuf.View()), old(known), old(log))
    {
      if rcvbuf.offset + rcvbuf.count > rcvbuf.buffer.Length { return Crashed; }
      rcvbuf.Reset();
      how := Idle;
    }
  }
}
