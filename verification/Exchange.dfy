/** peers/exchange.go: the header of an exchange, written in front of a body that
    a codec produces. The body is opaque bytes here. */
module Exchanges {
  import opened Wrappers
  import opened Bytes
  import opened Values
  import opened Buffers
  import opened Reading
  import CodecLaws
  import Parsers

  datatype Head = Head(from: Str, to: Str, fn: Str, seqNo: Int64, ret: Byte, err: Str)

  /** The codec's result: the encoded body, or its error. */
  datatype Encoded = Body(bytes: seq<Byte>) | EncodeFailed

  /** The bytes of a header in front of a body. */
  function HeadTo(h: Head, body: seq<Byte>): seq<Byte> {
    EncodeString(h.from) + (EncodeString(h.to) + (EncodeString(h.fn) + TailTo(h, body)))
  }

  function TailTo(h: Head, body: seq<Byte>): seq<Byte> {
    LE64(h.seqNo) + ([h.ret] + (EncodeString(h.err) + body))
  }

  /** The reads of Unmarshal, in order. */
  function ReadHeadAt(c: Cursor): Read<Head> {
    var from := ReadString(c);
    var to := ReadString(from.at);
    var fn := ReadString(to.at);
    var seqNo := ReadLong(fn.at);
    var ret := ReadByte(seqNo.at);
    var err := ReadString(ret.at);
    Read(Head(from.val, to.val, fn.val, seqNo.val, ret.val, err.val), err.at)
  }

  function ReadHead(data: seq<Byte>): Read<Head> {
    ReadHeadAt(Cursor(data, false))
  }

  class Exchange {
    var from: Str
    var to: Str
    var fn: Str
    var seqNo: Int64
    var ret: Byte
    var err: Str
    var parser: Parsers.Parser? // set once the header has been read

    constructor (h: Head)
      ensures AsHead() == h && parser == null
    {
      from, to, fn, seqNo, ret, err := h.from, h.to, h.fn, h.seqNo, h.ret, h.err;
      parser := null;
    }

    function AsHead(): Head
      reads this
    {
      Head(from, to, fn, seqNo, ret, err)
    }

    method Marshal(body: Encoded) returns (r: Encoded)
      ensures r == if body.Body? then Body(HeadTo(AsHead(), body.bytes)) else EncodeFailed
    {
      var buffer := new Buffer();
      buffer.WriteString(from);
      buffer.WriteString(to);
      buffer.WriteString(fn);
      ghost var front := buffer.bytes;
      buffer.WriteLong(seqNo);
      buffer.WriteByte(ret);
      buffer.WriteString(err);
      if buffer.err || body.EncodeFailed? { return EncodeFailed; }
      buffer.WriteBytes(body.bytes);
      r := Body(buffer.bytes);
      TailFlat(AsHead(), front, body.bytes);
      FrontFlat(EncodeString(from), EncodeString(to), EncodeString(fn), TailTo(AsHead(), body.bytes));
      assert [] + EncodeString(from) == EncodeString(from);
    }

    static method ReadFields(p: Parsers.Parser) returns (h: Head)
      modifies p
      ensures Read(h, p.At()) == ReadHeadAt(old(p.At()))
    {
      var f := p.ReadString();
      var t := p.ReadString();
      var g := p.ReadString();
      var n := p.ReadLong();
      var b := p.ReadByte();
      var e := p.ReadString();
      h := Head(f, t, g, n, b, e);
    }

    /** The fields are assigned as they are read, also when a later read fails;
        the parser is kept only when the whole header was read. */
    method Unmarshal(data: seq<Byte>) returns (ok: bool)
      modifies this
      ensures var r := ReadHead(data);
              AsHead() == r.val && ok == !r.at.err &&
              if ok then parser != null && fresh(parser) && parser.At() == r.at else parser == old(parser)
    {
      var p := new Parsers.Parser(data, 0);
      var h := ReadFields(p);
      from, to, fn, seqNo, ret, err := h.from, h.to, h.fn, h.seqNo, h.ret, h.err;
      if p.err { return false; }
      parser := p;
      ok := true;
    }
  }

  lemma TailFlat(h: Head, front: seq<Byte>, body: seq<Byte>)
    ensures (((front + LE64(h.seqNo)) + [h.ret]) + EncodeString(h.err)) + body == front + TailTo(h, body)
  {
    Assoc(front + LE64(h.seqNo) + [h.ret], EncodeString(h.err), body);
    Assoc(front + LE64(h.seqNo), [h.ret], EncodeString(h.err) + body);
    Assoc(front, LE64(h.seqNo), [h.ret] + (EncodeString(h.err) + body));
  }

  lemma FrontFlat(a: seq<Byte>, b: seq<Byte>, c: seq<Byte>, d: seq<Byte>)
    ensures ((a + b) + c) + d == a + (b + (c + d))
  {
    Assoc(a + b, c, d);
    Assoc(a, b, c + d);
  }

  // ---- The header's laws ----

  predicate SizedHead(h: Head) {
    |h.from| < 0x8000_0000 && |h.to| < 0x8000_0000 && |h.fn| < 0x8000_0000 && |h.err| < 0x8000_0000
  }

  predicate LegibleHead(h: Head) {
    |h.from| <= STRING_MAX && |h.to| <= STRING_MAX && |h.fn| <= STRING_MAX && |h.err| <= STRING_MAX
  }

  /** The fields in the order of the wire. */
  lemma HeadLayout(h: Head, body: seq<Byte>)
    requires SizedHead(h)
    ensures var tail := LE64(h.seqNo) + ([h.ret] + (LE32(|h.err|) + (h.err + body)));
            HeadTo(h, body) ==
            LE32(|h.from|) + (h.from + (LE32(|h.to|) + (h.to + (LE32(|h.fn|) + (h.fn + tail)))))
  {
    StringEncoding(h.err, |h.err|, body);
    var tail := TailTo(h, body);
    StringEncoding(h.fn, |h.fn|, tail);
    StringEncoding(h.to, |h.to|, EncodeString(h.fn) + tail);
    StringEncoding(h.from, |h.from|, EncodeString(h.to) + (EncodeString(h.fn) + tail));
  }

  lemma LongBack(x: Int64, rest: seq<Byte>)
    ensures ReadLong(Cursor(LE64(x) + rest, false)) == Read(x, Cursor(rest, false))
  {
    IntegersRoundTrip(0, 0, x, 0);
  }

  lemma TailBack(h: Head, body: seq<Byte>)
    requires |h.err| < 0x8000_0000
    ensures var seqNo := ReadLong(Cursor(TailTo(h, body), false));
            var ret := ReadByte(seqNo.at);
            var err := ReadString(ret.at);
            if |h.err| <= STRING_MAX then
              seqNo.val == h.seqNo && ret.val == h.ret && err == Read(h.err, Cursor(body, false))
            else
              err.at.err
  {
    var s := EncodeString(h.err) + body;
    LongBack(h.seqNo, [h.ret] + s);
    assert ([h.ret] + s)[1..] == s;
    CodecLaws.StringBack(h.err, body);
  }

  /** Unmarshal(Marshal(e)): the header comes back and exactly the body is left
      unread iff all four strings are at most 10240 bytes; otherwise Unmarshal
      reports an error. */
  lemma HeadRoundTrip(h: Head, body: seq<Byte>)
    requires SizedHead(h)
    ensures ReadHead(HeadTo(h, body)) == Read(h, Cursor(body, false)) <==> LegibleHead(h)
    ensures ReadHead(HeadTo(h, body)).at.err <==> !LegibleHead(h)
  {
    var tail := TailTo(h, body);
    CodecLaws.StringBack(h.from, EncodeString(h.to) + (EncodeString(h.fn) + tail));
    CodecLaws.StringBack(h.to, EncodeString(h.fn) + tail);
    CodecLaws.StringBack(h.fn, tail);
    TailBack(h, body);
  }

  lemma IntCanonical(c: Cursor)
    ensures var r := ReadInt(c); !r.at.err ==> c.rest == LE32(r.val) + r.at.rest
  {
    var r := ReadInt(c);
    if !r.at.err {
      IntegersAreBijective(c.rest[..4]);
    }
  }

  lemma StringEncoding(s: Str, n: Int32, rest: seq<Byte>)
    requires n == |s|
    ensures EncodeString(s) + rest == LE32(n) + (s + rest)
  {
    TruncFits(n);
    Assoc(LE32(n), s, rest);
  }

  lemma StringCanonical(c: Cursor)
    ensures var r := ReadString(c);
            !r.at.err ==> c.rest == EncodeString(r.val) + r.at.rest && |r.val| <= STRING_MAX
  {
    var len := ReadInt(c);
    var r := ReadString(c);
    if !r.at.err {
      IntCanonical(c);
      StringEncoding(r.val, len.val, r.at.rest);
    }
  }

  lemma LongCanonical(c: Cursor)
    ensures var r := ReadLong(c); !r.at.err ==> c.rest == LE64(r.val) + r.at.rest
  {
    var r := ReadLong(c);
    if !r.at.err {
      IntegersAreBijective(c.rest[..8]);
    }
  }

  lemma TailCanonical(h: Head, c: Cursor)
    requires var seqNo := ReadLong(c);
             var ret := ReadByte(seqNo.at);
             var err := ReadString(ret.at);
             !err.at.err && h.seqNo == seqNo.val && h.ret == ret.val && h.err == err.val
    ensures c.rest == TailTo(h, ReadString(ReadByte(ReadLong(c).at).at).at.rest) && |h.err| <= STRING_MAX
  {
    LongCanonical(c);
    StringCanonical(ReadByte(ReadLong(c).at).at);
  }

  /** Conversely, whatever bytes Unmarshal accepts are exactly what Marshal
      writes for the header it returns, followed by what it leaves unread. */
  lemma HeadCanonical(data: seq<Byte>)
    requires !ReadHead(data).at.err
    ensures var r := ReadHead(data); data == HeadTo(r.val, r.at.rest) && LegibleHead(r.val)
  {
    var c := Cursor(data, false);
    var from := ReadString(c);
    var to := ReadString(from.at);
    var fn := ReadString(to.at);
    StringCanonical(c);
    StringCanonical(from.at);
    StringCanonical(to.at);
    TailCanonical(ReadHead(data).val, fn.at);
  }

  /** Hence distinct exchanges never marshal to the same bytes. */
  lemma MarshalInjective(g: Head, h: Head, b: seq<Byte>, c: seq<Byte>)
    requires SizedHead(g) && SizedHead(h) && LegibleHead(g)
    requires HeadTo(g, b) == HeadTo(h, c)
    ensures g == h && b == c
  {
    HeadRoundTrip(g, b);
    HeadRoundTrip(h, c);
  }
}
