/** nets/tcp.go: the frame that Send puts around a message, and the split rule
    that takes a byte stream apart into frames again. */
module Framing {
  import opened Wrappers
  import opened Bytes
  import opened Buffers
  import opened Reading

  const PCK_MIN_SIZE := 6                // header 4 bytes, length 2 bytes
  const PCK_HEADER: Int32 := 0x2123676f  // !#go
  const RECV_SIZE := 8192
  const PAYLOAD_MAX := RECV_SIZE - PCK_MIN_SIZE

  function FrameHead(n: int): (s: seq<Byte>)
    ensures |s| == PCK_MIN_SIZE
  {
    LE32(PCK_HEADER) + LE16(Trunc16(n))
  }

  function Frame(p: Str): (s: seq<Byte>)
    ensures |s| == PCK_MIN_SIZE + |p|
  {
    FrameHead(|p|) + p
  }

  /** The bytes handed to conn.Write. */
  method Send(msg: Str) returns (wire: seq<Byte>)
    ensures wire == Frame(msg)
  {
    var buf := new Buffer();
    buf.WriteInt(PCK_HEADER);
    assert buf.bytes == LE32(PCK_HEADER);
    buf.WriteShort(Trunc16(|msg|));
    assert buf.bytes == FrameHead(|msg|);
    buf.WriteBytes(msg);
    wire := buf.bytes;
  }

  // ---- The split rule ----

  datatype Split =
    | More                // no whole package yet: read more bytes
    | Token(advance: nat) // the first `advance` bytes are a package
    | Panics              // a negative length makes a slice or make panic

  function SplitRule(data: seq<Byte>, atEOF: bool): (r: Split)
    ensures r.Token? ==> PCK_MIN_SIZE <= r.advance <= |data|
  {
    if |data| <= PCK_MIN_SIZE || atEOF then
      More
    else
      var header := ReadInt(Cursor(data, false));
      if header.at.err || header.val != PCK_HEADER then
        More
      else
        var length := ReadShort(header.at);
        if length.at.err || length.val + PCK_MIN_SIZE > |data| then
          More
        else if length.val < 0 then
          Panics
        else
          Token(length.val + PCK_MIN_SIZE)
  }

  /** At the end of the stream nothing is split off any more. */
  lemma NothingAtEnd(data: seq<Byte>)
    ensures SplitRule(data, true) == More
  {
  }

  /** What a scanner has read but not yet split, and the payloads it has delivered. */
  datatype Session = Session(held: seq<Byte>, delivered: seq<Str>)

  /** scanner.Scan over the held bytes until the rule asks for more. */
  function Scan(s: Session): Session
    decreases |s.held|
  {
    var r := SplitRule(s.held, false);
    if r.Token? then
      Scan(Session(s.held[r.advance..], s.delivered + [s.held[PCK_MIN_SIZE..r.advance]]))
    else
      s
  }

  function Feed(s: Session, chunk: seq<Byte>): Session {
    Scan(s.(held := s.held + chunk))
  }

  function FeedAll(s: Session, chunks: seq<seq<Byte>>): Session
    decreases |chunks|
  {
    if chunks == [] then s else FeedAll(Feed(s, chunks[0]), chunks[1..])
  }

  // ---- Streams of frames ----

  function Stream(ps: seq<Str>): seq<Byte> {
    if ps == [] then [] else Frame(ps[0]) + Stream(ps[1..])
  }

  function Joined(chunks: seq<seq<Byte>>): seq<Byte> {
    if chunks == [] then [] else chunks[0] + Joined(chunks[1..])
  }

  /** Payloads that Send frames without truncating the length, that the rule does
      not leave waiting, and whose frames fit the receive buffer. */
  predicate Sendable(ps: seq<Str>) {
    ps == [] || (0 < |ps[0]| <= PAYLOAD_MAX && Sendable(ps[1..]))
  }

  lemma Shift<T>(got: seq<T>, ps: seq<T>)
    requires ps != []
    ensures (got + [ps[0]]) + ps[1..] == got + ps
  {
  }

  predicate IsPrefix(d: seq<Byte>, s: seq<Byte>) {
    |d| <= |s| && s[..|d|] == d
  }

  /** How many whole frames of ps lie within the first n bytes of their stream. */
  function Arrived(ps: seq<Str>, n: nat): (k: nat)
    ensures k <= |ps|
  {
    if ps == [] || |Frame(ps[0])| > n then 0 else 1 + Arrived(ps[1..], n - |Frame(ps[0])|)
  }

  lemma {:induction false} StreamSplit(ps: seq<Str>, k: nat)
    requires k <= |ps|
    ensures Stream(ps) == Stream(ps[..k]) + Stream(ps[k..])
  {
    if k == 0 {
      assert ps[..0] == [] && ps[0..] == ps;
    } else {
      StreamSplit(ps[1..], k - 1);
      assert ps[..k][1..] == ps[1..][..k - 1] && ps[1..][k - 1..] == ps[k..];
      Assoc(Frame(ps[0]), Stream(ps[1..][..k - 1]), Stream(ps[k..]));
    }
  }

  /** Arrived(ps, n) really is the number of frames that have fully arrived: those
      frames lie within the n bytes, and one frame more does not. */
  lemma {:induction false} ArrivedIsMaximal(ps: seq<Str>, n: nat)
    ensures var k := Arrived(ps, n);
            |Stream(ps[..k])| <= n && (k < |ps| ==> n < |Stream(ps[..k + 1])|)
  {
    var k := Arrived(ps, n);
    if ps == [] || |Frame(ps[0])| > n {
      if ps != [] { assert ps[..1][0] == ps[0]; }
    } else {
      ArrivedIsMaximal(ps[1..], n - |Frame(ps[0])|);
      assert ps[..k][1..] == ps[1..][..k - 1];
      if k < |ps| { assert ps[..k + 1][1..] == ps[1..][..k]; }
    }
  }

  /** The first six bytes of a frame are read back as its header and length. */
  lemma FrameHeadBack(p: Str, d: seq<Byte>)
    requires |p| < 0x8000
    requires PCK_MIN_SIZE <= |d| && d[..PCK_MIN_SIZE] == FrameHead(|p|)
    ensures var header := ReadInt(Cursor(d, false));
            var length := ReadShort(header.at);
            !header.at.err && header.val == PCK_HEADER &&
            !length.at.err && length.val == |p|
  {
    TruncFits(|p|);
    IntegersRoundTrip(|p|, PCK_HEADER, 0, 0);
    assert d[..4] == d[..6][..4] && d[4..][..2] == d[..6][4..];
  }

  lemma PrefixHead(p: Str, d: seq<Byte>, rest: seq<Byte>)
    requires PCK_MIN_SIZE <= |d| && IsPrefix(d, Frame(p) + rest)
    ensures d[..PCK_MIN_SIZE] == FrameHead(|p|)
  {
    assert d[..PCK_MIN_SIZE] == (Frame(p) + rest)[..PCK_MIN_SIZE] == Frame(p)[..PCK_MIN_SIZE];
  }

  /** One step of the rule on a prefix of a stream: exactly the first frame when
      it has fully arrived, otherwise a request for more. */
  lemma SplitFirst(p: Str, d: seq<Byte>, rest: seq<Byte>)
    requires 0 < |p| < 0x8000 && IsPrefix(d, Frame(p) + rest)
    ensures SplitRule(d, false) == if |Frame(p)| <= |d| then Token(|Frame(p)|) else More
    ensures |Frame(p)| <= |d| ==> d[PCK_MIN_SIZE..|Frame(p)|] == p && IsPrefix(d[|Frame(p)|..], rest)
  {
    if |d| > PCK_MIN_SIZE {
      PrefixHead(p, d, rest);
      FrameHeadBack(p, d);
    }
    if |Frame(p)| <= |d| {
      assert d[PCK_MIN_SIZE..|Frame(p)|] == (Frame(p) + rest)[PCK_MIN_SIZE..|Frame(p)|] == p;
      var t := d[|Frame(p)|..];
      assert t == (Frame(p) + rest)[..|d|][|Frame(p)|..] == rest[..|t|];
    }
  }

  // ---- The chunking does not matter ----

  /** A token found in d is still the first token when more bytes follow d. */
  lemma SplitStable(d: seq<Byte>, c: seq<Byte>)
    requires SplitRule(d, false).Token?
    ensures SplitRule(d + c, false) == SplitRule(d, false)
  {
    assert (d + c)[..4] == d[..4] && (d + c)[4..][..2] == d[4..][..2];
  }

  lemma {:induction false} ScanThenFeed(s: Session, c: seq<Byte>)
    ensures Feed(Scan(s), c) == Scan(s.(held := s.held + c))
    decreases |s.held|
  {
    var r := SplitRule(s.held, false);
    if r.Token? {
      var d, n := s.held, r.advance;
      SplitStable(d, c);
      assert (d + c)[n..] == d[n..] + c && (d + c)[PCK_MIN_SIZE..n] == d[PCK_MIN_SIZE..n];
      ScanThenFeed(Session(d[n..], s.delivered + [d[PCK_MIN_SIZE..n]]), c);
    }
  }

  lemma {:induction false} FeedAllIsScan(s: Session, chunks: seq<seq<Byte>>)
    ensures FeedAll(Scan(s), chunks) == Scan(s.(held := s.held + Joined(chunks)))
    decreases |chunks|
  {
    if chunks == [] {
      assert s.held + [] == s.held;
    } else {
      var s' := s.(held := s.held + chunks[0]);
      ScanThenFeed(s, chunks[0]);
      FeedAllIsScan(s', chunks[1..]);
      Assoc(s.held, chunks[0], Joined(chunks[1..]));
    }
  }

  const START := Session([], [])

  /** For every byte stream at all, sendable or not: two ways of cutting it into
      chunks leave the reader in the same state. */
  lemma ChunkingIrrelevant(cs: seq<seq<Byte>>, ds: seq<seq<Byte>>)
    requires Joined(cs) == Joined(ds)
    ensures FeedAll(START, cs) == FeedAll(START, ds)
  {
    FeedAllIsScan(START, cs);
    FeedAllIsScan(START, ds);
  }

  // ---- The stream theorem ----

  /** The bytes of d behind the whole frames of ps at its front. */
  function Leftover(ps: seq<Str>, d: seq<Byte>): seq<Byte> {
    if ps == [] || |Frame(ps[0])| > |d| then d else Leftover(ps[1..], d[|Frame(ps[0])|..])
  }

  lemma {:induction false} LeftoverIsRest(ps: seq<Str>, d: seq<Byte>)
    requires IsPrefix(d, Stream(ps))
    ensures Stream(ps[..Arrived(ps, |d|)]) + Leftover(ps, d) == d
  {
    if ps == [] || |Frame(ps[0])| > |d| {
      assert ps[..0] == [] && [] + d == d;
    } else {
      var f, ps', k := Frame(ps[0]), ps[1..], Arrived(ps, |d|);
      var d' := d[|f|..];
      assert d[..|f|] == Stream(ps)[..|d|][..|f|] == f;
      assert d' == Stream(ps)[..|d|][|f|..] == Stream(ps')[..|d'|];
      LeftoverIsRest(ps', d');
      assert ps[..k][1..] == ps'[..k - 1];
      Assoc(f, Stream(ps'[..k - 1]), Leftover(ps', d'));
      assert f + d' == d;
    }
  }

  /** What a reader holds is less than one frame, so it leaves room to read on. */
  lemma {:induction false} LeftoverIsShort(ps: seq<Str>, d: seq<Byte>)
    requires Sendable(ps) && IsPrefix(d, Stream(ps))
    ensures |Leftover(ps, d)| < RECV_SIZE
  {
    if ps != [] && |Frame(ps[0])| <= |d| {
      var f := Frame(ps[0]);
      var d' := d[|f|..];
      assert d' == Stream(ps)[..|d|][|f|..] == Stream(ps[1..])[..|d'|];
      LeftoverIsShort(ps[1..], d');
    }
  }

  /** One turn of the scanner on a prefix of a stream. */
  lemma ScanFirst(p: Str, d: seq<Byte>, rest: seq<Byte>, got: seq<Str>)
    requires 0 < |p| < 0x8000 && IsPrefix(d, Frame(p) + rest)
    ensures |Frame(p)| <= |d| ==>
              IsPrefix(d[|Frame(p)|..], rest) &&
              Scan(Session(d, got)) == Scan(Session(d[|Frame(p)|..], got + [p]))
    ensures |d| < |Frame(p)| ==> Scan(Session(d, got)) == Session(d, got)
  {
    SplitFirst(p, d, rest);
  }

  /** What Arrived and Leftover say of a first frame. */
  lemma FirstArrived(ps: seq<Str>, d: seq<Byte>, got: seq<Str>, n: nat)
    requires ps != [] && n == |Frame(ps[0])|
    ensures |d| < n ==> Leftover(ps, d) == d && got + ps[..Arrived(ps, |d|)] == got
    ensures n <= |d| ==>
              Leftover(ps, d) == Leftover(ps[1..], d[n..]) &&
              got + ps[..Arrived(ps, |d|)] == (got + [ps[0]]) + ps[1..][..Arrived(ps[1..], |d[n..]|)]
  {
    var k := Arrived(ps, |d|);
    if n <= |d| {
      assert ps[..k] == [ps[0]] + ps[1..][..k - 1];
      Assoc(got, [ps[0]], ps[1..][..k - 1]);
    }
  }

  lemma {:induction false} ScanPrefix(ps: seq<Str>, d: seq<Byte>, got: seq<Str>)
    requires Sendable(ps) && IsPrefix(d, Stream(ps))
    ensures Scan(Session(d, got)) == Session(Leftover(ps, d), got + ps[..Arrived(ps, |d|)])
    decreases |ps|
  {
    if ps == [] {
      assert got + ps[..Arrived(ps, |d|)] == got;
    } else {
      var n := |Frame(ps[0])|;
      ScanFirst(ps[0], d, Stream(ps[1..]), got);
      FirstArrived(ps, d, got, n);
      if n <= |d| {
        ScanPrefix(ps[1..], d[n..], got + [ps[0]]);
      }
    }
  }

  /** For every sequence of sendable payloads and every way of cutting any prefix
      of their stream into chunks, the split rule has delivered, in order,
      exactly the frames that have fully arrived; it holds exactly the bytes
      behind them; and what it holds always leaves room in the 8192-byte buffer. */
  lemma StreamTheorem(ps: seq<Str>, chunks: seq<seq<Byte>>)
    requires Sendable(ps) && IsPrefix(Joined(chunks), Stream(ps))
    ensures var s := FeedAll(START, chunks);
            var k := |s.delivered|;
            k <= |ps| && s.delivered == ps[..k] &&
            Stream(ps[..k]) + s.held == Joined(chunks) &&
            (k < |ps| ==> |Joined(chunks)| < |Stream(ps[..k + 1])|) &&
            |s.held| < RECV_SIZE
  {
    var d := Joined(chunks);
    assert [] + d == d;
    FeedAllIsScan(START, chunks);
    ScanPrefix(ps, d, []);
    assert [] + ps[..Arrived(ps, |d|)] == ps[..Arrived(ps, |d|)];
    ArrivedIsMaximal(ps, |d|);
    LeftoverIsRest(ps, d);
    LeftoverIsShort(ps, d);
  }
}
