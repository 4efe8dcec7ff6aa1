/** The stack put together: exchanges are marshalled, framed by Send, carried over
    a byte stream, taken apart again and unmarshalled. */
module Delivery {
  import opened Wrappers
  import opened Bytes
  import opened Values
  import opened Buffers
  import opened Reading
  import opened Exchanges
  import opened Framing
  import opened TcpReceive
  import opened ReceiveLaws
  import Peers
  import Rpc
  import RpcLaws

  datatype Message = Message(head: Head, body: seq<Byte>)

  function Payload(m: Message): Str {
    HeadTo(m.head, m.body)
  }

  function Payloads(ms: seq<Message>): (ps: seq<Str>)
    ensures |ps| == |ms|
    ensures forall i | 0 <= i < |ms| :: ps[i] == Payload(ms[i])
  {
    if ms == [] then [] else [Payload(ms[0])] + Payloads(ms[1..])
  }

  function PayloadLen(m: Message): nat {
    25 + |m.head.from| + |m.head.to| + |m.head.fn| + |m.head.err| + |m.body|
  }

  /** Every marshalled exchange fits one frame of the receive buffer. */
  predicate Fitting(ms: seq<Message>) {
    ms == [] || (PayloadLen(ms[0]) <= PAYLOAD_MAX && Fitting(ms[1..]))
  }

  lemma PayloadSize(m: Message)
    ensures |Payload(m)| == PayloadLen(m)
  {
  }

  lemma {:induction false} FittingIsSendable(ms: seq<Message>)
    requires Fitting(ms)
    ensures Sendable(Payloads(ms))
  {
    if ms != [] {
      PayloadSize(ms[0]);
      FittingIsSendable(ms[1..]);
    }
  }

  /** A payload that fits a frame cannot hold a string that is too long to read. */
  lemma FittingIsLegible(m: Message)
    requires PayloadLen(m) <= PAYLOAD_MAX
    ensures ReadHead(Payload(m)) == Read(m.head, Cursor(m.body, false))
  {
    PayloadSize(m);
    HeadRoundTrip(m.head, m.body);
  }

  /** payload by payload, Unmarshal gives back the header and leaves the body. */
  ghost predicate Unmarshals(ps: seq<Str>, ms: seq<Message>) {
    |ps| == |ms| &&
    forall i | 0 <= i < |ps| :: ReadHead(ps[i]) == Read(ms[i].head, Cursor(ms[i].body, false))
  }

  lemma {:induction false} FittingAt(ms: seq<Message>, i: nat)
    requires Fitting(ms) && i < |ms|
    ensures PayloadLen(ms[i]) <= PAYLOAD_MAX
  {
    if i > 0 {
      FittingAt(ms[1..], i - 1);
    }
  }

  lemma PayloadsUnmarshal(ms: seq<Message>, k: nat)
    requires Fitting(ms) && k <= |ms|
    ensures Unmarshals(Payloads(ms)[..k], ms[..k])
  {
    forall i | 0 <= i < k
      ensures ReadHead(Payloads(ms)[i]) == Read(ms[i].head, Cursor(ms[i].body, false))
    {
      FittingAt(ms, i);
      FittingIsLegible(ms[i]);
    }
  }

  /** Over the split rule, for every cutting of any prefix of the byte stream: the
      exchanges that have fully arrived come out unchanged and in order, and no
      other exchange does. */
  lemma ExchangesOverSplit(ms: seq<Message>, pieces: seq<seq<Byte>>)
    requires Fitting(ms) && IsPrefix(Joined(pieces), Stream(Payloads(ms)))
    ensures var got := FeedAll(START, pieces).delivered;
            |got| <= |ms| && Unmarshals(got, ms[..|got|]) &&
            (Joined(pieces) == Stream(Payloads(ms)) ==> |got| == |ms|)
  {
    FittingIsSendable(ms);
    var ps := Payloads(ms);
    StreamTheorem(ps, pieces);
    PayloadsUnmarshal(ms, |FeedAll(START, pieces).delivered|);
    if Joined(pieces) == Stream(ps) {
      AllArrived(ps, pieces);
    }
  }

  /** Over the live loop, for frame-aligned reads into an empty buffer: every exchange
      comes out unchanged and in order. On a connection that is not yet known, as the
      server's is when it opens, an accepted handshake comes first. */
  lemma ExchangesOverLiveLoop(s: Live, shake: Str -> Shake, hello: seq<Str>, ms: seq<Message>, groups: seq<seq<Str>>)
    requires Fitting(ms) && Aligned(groups) && Flat(groups) == hello + Payloads(ms)
    requires if s.known then hello == [] else |hello| == 1 && shake(hello[0]) == Accepted(true)
    requires s.r.off == 0 && s.r.cnt == 0 && |s.r.buf| == RECV_SIZE && s.log == []
    ensures var o := AfterReads(s, shake, Reads(groups));
            o.how == Idle && o.live.r.cnt == 0 && |o.live.log| == |hello| + |ms| &&
            o.live.log[..|hello|] == hello && Unmarshals(o.live.log[|hello|..], ms)
  {
    AdmittedByFirst(s.known, shake, Flat(groups));
    LiveAligned(s, shake, groups);
    assert [] + Flat(groups) == Flat(groups);
    AllUnmarshal(ms);
    var ps := Payloads(ms);
    assert (hello + ps)[|hello|..] == ps && (hello + ps)[..|hello|] == hello;
  }

  lemma AllUnmarshal(ms: seq<Message>)
    requires Fitting(ms)
    ensures Unmarshals(Payloads(ms), ms)
  {
    PayloadsUnmarshal(ms, |ms|);
    assert Payloads(ms)[..|ms|] == Payloads(ms) && ms[..|ms|] == ms;
  }

  // ---- The call protocol's exchanges on this stack ----

  /** The codec of message bodies: bytes, or an error; None is a nil reply. */
  type Codec = Option<Peers.Body> -> Encoded

  /** The exchanges that Marshal does not fail on; no other is sent. */
  function Encodable(es: seq<Peers.Exch>, codec: Codec): seq<Peers.Exch> {
    if es == [] then [] else (if codec(es[0].body).Body? then [es[0]] else []) + Encodable(es[1..], codec)
  }

  predicate NumbersFit(es: seq<Peers.Exch>) {
    es == [] || (es[0].seqNo < 0x8000_0000_0000_0000 && NumbersFit(es[1..]))
  }

  function MessageOf(e: Peers.Exch, codec: Codec): Message
    requires e.seqNo < 0x8000_0000_0000_0000 && codec(e.body).Body?
  {
    Message(Head(e.from, e.to, e.fn, e.seqNo, e.ret, e.err), codec(e.body).bytes)
  }

  function MessagesOf(es: seq<Peers.Exch>, codec: Codec): (ms: seq<Message>)
    requires NumbersFit(es)
    ensures |ms| == |Encodable(es, codec)|
  {
    if es == [] then []
    else (if codec(es[0].body).Body? then [MessageOf(es[0], codec)] else []) + MessagesOf(es[1..], codec)
  }

  /** onExchange's reading of a payload; a negative number is no call's. */
  function ExchangeIn(payload: Str): Option<Peers.Exch> {
    var r := ReadHead(payload);
    var h := r.val;
    if r.at.err || h.seqNo < 0 then None
    else Some(Peers.Exch(h.from, h.to, h.fn, h.seqNo, h.ret, h.err, Some(r.at.rest)))
  }

  /** The exchange with its body encoded. */
  function OnWire(e: Peers.Exch, codec: Codec): Peers.Exch
    requires codec(e.body).Body?
  {
    e.(body := Some(codec(e.body).bytes))
  }

  lemma {:induction false} MessagesOfAt(es: seq<Peers.Exch>, codec: Codec, i: nat)
    requires NumbersFit(es) && i < |Encodable(es, codec)|
    ensures var e := Encodable(es, codec)[i];
            e.seqNo < 0x8000_0000_0000_0000 && codec(e.body).Body? && MessagesOf(es, codec)[i] == MessageOf(e, codec)
  {
    if !codec(es[0].body).Body? {
      MessagesOfAt(es[1..], codec, i);
    } else if i > 0 {
      MessagesOfAt(es[1..], codec, i - 1);
    }
  }

  /** e is in flight at some point of some run of the call protocol. */
  ghost predicate Emitted(w0: Rpc.World, expired: Peers.Expiry, e: Peers.Exch) {
    exists steps :: RpcLaws.AllowedRun(w0, steps, expired) &&
                    exists p :: p in RpcLaws.Run(w0, steps, expired).net && p.e == e
  }

  lemma {:induction false} EmittedFit(w0: Rpc.World, expired: Peers.Expiry, es: seq<Peers.Exch>)
    requires Rpc.Initial(w0) && forall i | 0 <= i < |es| :: Emitted(w0, expired, es[i])
    ensures NumbersFit(es)
  {
    if es != [] {
      assert Emitted(w0, expired, es[0]);
      var steps :| RpcLaws.AllowedRun(w0, steps, expired) &&
                   exists p :: p in RpcLaws.Run(w0, steps, expired).net && p.e == es[0];
      var p :| p in RpcLaws.Run(w0, steps, expired).net && p.e == es[0];
      RpcLaws.InitialOk(w0);
      RpcLaws.RunKeeps(w0, steps, expired);
      RpcLaws.PacketNumberFits(RpcLaws.Run(w0, steps, expired), p);
      EmittedFit(w0, expired, es[1..]);
    }
  }

  /** Any exchanges that the call protocol emits, in any of its runs, requests and
      responses, error answers without a reply included: those that the body's codec
      can encode come to the other node's peers unchanged, with their bodies encoded,
      and in order, as many as have fully arrived, however the stream is cut. */
  lemma PeersExchangesArrive(w0: Rpc.World, expired: Peers.Expiry, es: seq<Peers.Exch>, codec: Codec,
                             ms: seq<Message>, pieces: seq<seq<Byte>>)
    requires Rpc.Initial(w0) && forall i | 0 <= i < |es| :: Emitted(w0, expired, es[i])
    requires NumbersFit(es) ==> ms == MessagesOf(es, codec)
    requires Fitting(ms) && IsPrefix(Joined(pieces), Stream(Payloads(ms)))
    ensures var got := FeedAll(START, pieces).delivered;
            var sent := Encodable(es, codec);
            |got| <= |sent| &&
            (forall i | 0 <= i < |got| ::
               codec(sent[i].body).Body? && ExchangeIn(got[i]) == Some(OnWire(sent[i], codec))) &&
            (Joined(pieces) == Stream(Payloads(ms)) ==> |got| == |sent|)
  {
    EmittedFit(w0, expired, es);
    ExchangesOverSplit(ms, pieces);
    var got := FeedAll(START, pieces).delivered;
    var sent := Encodable(es, codec);
    forall i | 0 <= i < |got|
      ensures codec(sent[i].body).Body? && ExchangeIn(got[i]) == Some(OnWire(sent[i], codec))
    {
      MessagesOfAt(es, codec, i);
      assert ms[..|got|][i] == ms[i];
    }
  }
}
