/** What the reads of utils/buffutil/parser.go return and leave.

    A Cursor is the state of a parser between two reads. Panic is the outcome of the runtime
    errors the Go code can raise: `make` with a negative capacity, and a map
    assignment whose interface key is not hashable. */
module Reading {
  import opened Bytes
  import opened Values
  import opened Buffers

  datatype Cursor = Cursor(rest: seq<Byte>, err: bool)

  datatype Read<+T> = Read(val: T, at: Cursor)

  datatype Got<+T> =
    | Got(val: T, at: Cursor)
    | Panic

  /** c' is what is left after reading from c: no byte is added, and once the
      error is set nothing is consumed and it stays set. */
  predicate After(c: Cursor, c': Cursor) {
    |c'.rest| <= |c.rest| && (c.err ==> c' == c)
  }

  // ---- Fixed-width reads ----

  /** binary.Read of n bytes: all of them, or the error with nothing left. */
  function Take(c: Cursor, n: nat): (r: Read<seq<Byte>>)
    requires n > 0
    ensures After(c, r.at)
    ensures r.val == [] || (|r.val| == n && !r.at.err && c.rest == r.val + r.at.rest)
    ensures r.val == [] ==> r.at.err
    ensures r.val != [] <==> !c.err && n <= |c.rest|
  {
    if c.err then Read([], c)
    else if |c.rest| < n then Read([], Cursor([], true))
    else Read(c.rest[..n], Cursor(c.rest[n..], false))
  }

  function ReadByte(c: Cursor): Read<Byte> {
    var r := Take(c, 1);
    Read(if r.val == [] then 0 else r.val[0], r.at)
  }

  function ReadBool(c: Cursor): Read<bool> {
    var r := Take(c, 1);
    Read(if r.val == [] then false else r.val[0] != 0, r.at)
  }

  function ReadShort(c: Cursor): Read<Int16> {
    var r := Take(c, 2);
    Read(if r.val == [] then 0 else OfLE16(r.val), r.at)
  }

  function ReadInt(c: Cursor): Read<Int32> {
    var r := Take(c, 4);
    Read(if r.val == [] then 0 else OfLE32(r.val), r.at)
  }

  function ReadLong(c: Cursor): Read<Int64> {
    var r := Take(c, 8);
    Read(if r.val == [] then 0 else OfLE64(r.val), r.at)
  }

  function ReadFloat(c: Cursor): Read<UInt32> {
    var r := Take(c, 4);
    Read(if r.val == [] then 0 else OfPattern32(r.val), r.at)
  }

  function ReadString(c: Cursor): (r: Read<Str>)
    ensures After(c, r.at)
  {
    var len := ReadInt(c);
    if len.at.err || len.val == 0 then
      Read([], len.at)
    else if len.val > STRING_MAX || len.val < 0 then
      Read([], Cursor(len.at.rest, true))
    else
      Take(len.at, len.val)
  }

  // ---- Composite reads ----

  function ReadIntItems(c: Cursor, n: nat, acc: seq<Int32>): (r: Read<seq<Int32>>)
    ensures After(c, r.at)
    decreases n
  {
    if n == 0 then
      Read(acc, c)
    else
      var item := ReadInt(c);
      ReadIntItems(item.at, n - 1, acc + [item.val])
  }

  function ReadInts(c: Cursor): (r: Got<seq<Int32>>)
    ensures r.Got? ==> After(c, r.at)
  {
    var len := ReadInt(c);
    if len.val < 0 then
      Panic
    else
      var items := ReadIntItems(len.at, len.val, []);
      Got(if items.at.err then [] else items.val, items.at)
  }

  function ReadItems(c: Cursor, n: nat, acc: seq<Object>): (r: Got<seq<Object>>)
    ensures r.Got? ==> After(c, r.at)
    decreases |c.rest|, 1, n
  {
    if n == 0 then
      Got(acc, c)
    else
      match ReadObject(c)
      case Panic => Panic
      case Got(item, at) =>
        ReadItems(at, n - 1, acc + [item])
  }

  function ReadFields(c: Cursor, n: nat, acc: map<Str, Object>): (r: Got<map<Str, Object>>)
    ensures r.Got? ==> After(c, r.at)
    decreases |c.rest|, 1, n
  {
    if n == 0 then
      Got(acc, c)
    else
      var k := ReadString(c);
      match ReadObject(k.at)
      case Panic => Panic
      case Got(v, at) =>
        ReadFields(at, n - 1, acc[k.val := v])
  }

  function ReadRows(c: Cursor, n: nat, acc: map<Scalar, Object>): (r: Got<map<Scalar, Object>>)
    ensures r.Got? ==> After(c, r.at)
    decreases |c.rest|, 1, n
  {
    if n == 0 then
      Got(acc, c)
    else
      match ReadObject(c)
      case Panic => Panic
      case Got(k, at) =>
        match ReadObject(at)
        case Panic => Panic
        case Got(v, at') =>
          if k.Plain? then ReadRows(at', n - 1, acc[k.s := v]) else Panic
  }

  /** A loop count: a negative length runs no iteration. */
  function Count(n: Int32): nat {
    if n < 0 then 0 else n
  }

  /** The body of ReadObject after the tag. */
  function ReadBody(tag: Byte, c: Cursor): (r: Got<Object>)
    ensures r.Got? ==> After(c, r.at)
    decreases |c.rest|, 2
  {
    if tag == TAG_BYTE then var r := ReadByte(c); Got(Plain(ByteV(r.val)), r.at)
    else if tag == TAG_BOOL then var r := ReadBool(c); Got(Plain(BoolV(r.val)), r.at)
    else if tag == TAG_SHORT then var r := ReadShort(c); Got(Plain(ShortV(r.val)), r.at)
    else if tag == TAG_INT then var r := ReadInt(c); Got(Plain(Int32V(r.val)), r.at)
    else if tag == TAG_LONG then var r := ReadLong(c); Got(Plain(LongV(r.val)), r.at)
    else if tag == TAG_STRING then var r := ReadString(c); Got(Plain(StringV(r.val)), r.at)
    else if tag == TAG_FLOAT then var r := ReadFloat(c); Got(Plain(FloatV(r.val)), r.at)
    else if tag == TAG_INTS then
      match ReadInts(c)
      case Panic => Panic
      case Got(xs, at) => Got(IntList(xs), at)
    else if tag == TAG_ARRAY then
      var len := ReadInt(c);
      if len.val < 0 then
        Panic
      else (
        match ReadItems(len.at, len.val, [])
        case Panic => Panic
        case Got(items, at) => Got(List(if at.err then [] else items), at))
    else if tag == TAG_MAP then
      var len := ReadInt(c);
      match ReadFields(len.at, Count(len.val), map[])
      case Panic => Panic
      case Got(fields, at) => Got(Record(if at.err then map[] else fields), at)
    else if tag == TAG_HASH then
      var len := ReadInt(c);
      match ReadRows(len.at, Count(len.val), map[])
      case Panic => Panic
      case Got(rows, at) => Got(Table(if at.err then map[] else rows), at)
    else if tag == TAG_NULL then
      var none := ReadByte(c);
      Got(Plain(Nil), if none.val != 0 then Cursor(none.at.rest, true) else none.at)
    else
      Got(Plain(Nil), Cursor(c.rest, true))
  }

  function ReadObject(c: Cursor): (r: Got<Object>)
    ensures r.Got? ==> After(c, r.at)
    decreases |c.rest|, 0
  {
    var tag := ReadByte(c);
    if tag.at.err then Got(Plain(Nil), tag.at) else ReadBody(tag.val, tag.at)
  }
}
