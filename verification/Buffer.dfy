/** utils/buffutil/buffer.go and the tags of utils/buffutil/custom.go: the
    tagged, recursive, little-endian writer. */
module Buffers {
  import opened Wrappers
  import opened Bytes
  import opened Values

  const TAG_BYTE: Byte := 98   // 'b'
  const TAG_SHORT: Byte := 116 // 't'
  const TAG_INT: Byte := 105   // 'i'
  const TAG_LONG: Byte := 108  // 'l'
  const TAG_STRING: Byte := 115 // 's'
  const TAG_FLOAT: Byte := 102 // 'f'
  const TAG_INTS: Byte := 73   // 'I'
  const TAG_ARRAY: Byte := 65  // 'A'
  const TAG_MAP: Byte := 77    // 'M'
  const TAG_HASH: Byte := 72   // 'H'
  const TAG_BOOL: Byte := 66   // 'B'
  const TAG_NULL: Byte := 78   // 'N'

  // ---- The bytes a value is written as ----

  function EncodeString(s: Str): seq<Byte> {
    LE32(Trunc32(|s|)) + s
  }

  function EncodeScalar(s: Scalar): seq<Byte> {
    match s
    case Nil => [TAG_NULL, 0]
    case ByteV(b) => [TAG_BYTE, b]
    case BoolV(v) => [TAG_BOOL, if v then 1 else 0]
    case ShortV(x) => [TAG_SHORT] + LE16(x)
    case IntV(x) => [TAG_INT] + LE32(Trunc32(x))
    case Int32V(x) => [TAG_INT] + LE32(x)
    case LongV(x) => [TAG_LONG] + LE64(x)
    case StringV(x) => [TAG_STRING] + EncodeString(x)
    case FloatV(bits) => [TAG_FLOAT] + ToLE(bits, 4)
  }

  function EncodeInts(xs: seq<Int32>): seq<Byte> {
    if xs == [] then [] else LE32(xs[0]) + EncodeInts(xs[1..])
  }

  function Encode(w: Layout): seq<Byte> {
    match w
    case Atom(s) => EncodeScalar(s)
    case Ints(xs) => [TAG_INTS] + (LE32(Trunc32(|xs|)) + EncodeInts(xs))
    case Array(items) => [TAG_ARRAY] + (LE32(Trunc32(|items|)) + EncodeAll(items))
    case Map(fields) => [TAG_MAP] + (LE32(Trunc32(|fields|)) + EncodeFields(fields))
    case Hash(pairs) => [TAG_HASH] + (LE32(Trunc32(|pairs|)) + EncodePairs(pairs))
  }

  function EncodeAll(ws: seq<Layout>): seq<Byte> {
    if ws == [] then [] else Encode(ws[0]) + EncodeAll(ws[1..])
  }

  function EncodeFields(fs: seq<Field>): seq<Byte>
    decreases fs
  {
    if fs == [] then
      []
    else
      var f := fs[0];
      assert f decreases to f.val;
      EncodeString(f.name) + (Encode(f.val) + EncodeFields(fs[1..]))
  }

  function EncodePairs(ps: seq<Pair>): seq<Byte>
    decreases ps
  {
    if ps == [] then
      []
    else
      var p := ps[0];
      assert p decreases to p.val;
      EncodeScalar(p.key) + (Encode(p.val) + EncodePairs(ps[1..]))
  }

  // ---- The writer ----

  class Buffer {
    var bytes: seq<Byte> // what bytesBuffer holds
    var err: bool        // the sticky error

    constructor ()
      ensures bytes == [] && !err
    {
      bytes, err := [], false;
    }

    /** What appending s does: nothing once the error is set. */
    twostate predicate Appended(s: seq<Byte>)
      reads this
    {
      err == old(err) && bytes == if old(err) then old(bytes) else old(bytes) + s
    }

    method WriteByte(value: Byte)
      modifies this
      ensures Appended([value])
    {
      if err { return; }
      bytes := bytes + [value];
    }

    method WriteBool(value: bool)
      modifies this
      ensures Appended([if value then 1 else 0])
    {
      if err { return; }
      bytes := bytes + [if value then 1 else 0];
    }

    method WriteBytes(value: seq<Byte>)
      modifies this
      ensures Appended(value)
    {
      if err { return; }
      bytes := bytes + value;
    }

    method WriteShort(value: Int16)
      modifies this
      ensures Appended(LE16(value))
    {
      if err { return; }
      bytes := bytes + LE16(value);
    }

    method WriteInt(value: Int32)
      modifies this
      ensures Appended(LE32(value))
    {
      if err { return; }
      bytes := bytes + LE32(value);
    }

    method WriteLong(value: Int64)
      modifies this
      ensures Appended(LE64(value))
    {
      if err { return; }
      bytes := bytes + LE64(value);
    }

    method WriteFloat(bits: UInt32)
      modifies this
      ensures Appended(ToLE(bits, 4))
    {
      if err { return; }
      bytes := bytes + ToLE(bits, 4);
    }

    method WriteString(value: Str)
      modifies this
      ensures Appended(EncodeString(value))
    {
      if err { return; }
      if value == [] {
        WriteInt(0);
        assert LE32(0) + value == LE32(0);
        return;
      }
      WriteInt(Trunc32(|value|));
      if err { return; }
      bytes := bytes + value;
      Assoc(old(bytes), LE32(Trunc32(|value|)), value);
    }

    method WriteInts(value: seq<Int32>)
      modifies this
      ensures Appended(LE32(Trunc32(|value|)) + EncodeInts(value))
    {
      if err { return; }
      WriteInt(Trunc32(|value|));
      ghost var start := bytes;
      for i := 0 to |value|
        invariant !err && bytes + EncodeInts(value[i..]) == start + EncodeInts(value)
      {
        assert value[i..][0] == value[i] && value[i..][1..] == value[i + 1..];
        ghost var before := bytes;
        WriteInt(value[i]);
        Assoc(before, LE32(value[i]), EncodeInts(value[i + 1..]));
      }
      assert value[|value|..] == [];
      Assoc(old(bytes), LE32(Trunc32(|value|)), EncodeInts(value));
    }

    method WriteScalar(value: Scalar)
      modifies this
      ensures Appended(EncodeScalar(value))
    {
      if err { return; }
      match value {
        case Nil =>
          WriteByte(TAG_NULL);
          WriteByte(0);
          Assoc(old(bytes), [TAG_NULL], [0]);
        case ByteV(b) =>
          WriteByte(TAG_BYTE);
          WriteByte(b);
          Assoc(old(bytes), [TAG_BYTE], [b]);
        case BoolV(v) =>
          WriteByte(TAG_BOOL);
          WriteBool(v);
          Assoc(old(bytes), [TAG_BOOL], [if v then 1 else 0]);
        case ShortV(x) =>
          WriteByte(TAG_SHORT);
          WriteShort(x);
          Assoc(old(bytes), [TAG_SHORT], LE16(x));
        case IntV(x) =>
          WriteByte(TAG_INT);
          WriteInt(Trunc32(x));
          Assoc(old(bytes), [TAG_INT], LE32(Trunc32(x)));
        case Int32V(x) =>
          WriteByte(TAG_INT);
          WriteInt(x);
          Assoc(old(bytes), [TAG_INT], LE32(x));
        case LongV(x) =>
          WriteByte(TAG_LONG);
          WriteLong(x);
          Assoc(old(bytes), [TAG_LONG], LE64(x));
        case StringV(x) =>
          WriteByte(TAG_STRING);
          WriteString(x);
          Assoc(old(bytes), [TAG_STRING], EncodeString(x));
        case FloatV(bits) =>
          WriteByte(TAG_FLOAT);
          WriteFloat(bits);
          Assoc(old(bytes), [TAG_FLOAT], ToLE(bits, 4));
      }
    }

    method WriteArray(value: seq<Layout>)
      modifies this
      ensures Appended(LE32(Trunc32(|value|)) + EncodeAll(value))
      decreases value
    {
      if err { return; }
      WriteInt(Trunc32(|value|));
      ghost var start := bytes;
      for i := 0 to |value|
        invariant !err && bytes + EncodeAll(value[i..]) == start + EncodeAll(value)
      {
        assert value[i..][0] == value[i] && value[i..][1..] == value[i + 1..];
        ghost var before := bytes;
        WriteObject(value[i]);
        Assoc(before, Encode(value[i]), EncodeAll(value[i + 1..]));
      }
      assert value[|value|..] == [];
      Assoc(old(bytes), LE32(Trunc32(|value|)), EncodeAll(value));
    }

    method WriteMap(value: seq<Field>)
      modifies this
      ensures Appended(LE32(Trunc32(|value|)) + EncodeFields(value))
      decreases value
    {
      if err { return; }
      WriteInt(Trunc32(|value|));
      ghost var start := bytes;
      for i := 0 to |value|
        invariant !err && bytes + EncodeFields(value[i..]) == start + EncodeFields(value)
      {
        var f := value[i];
        assert value[i..][0] == f && value[i..][1..] == value[i + 1..];
        assert f decreases to f.val;
        ghost var before := bytes;
        WriteString(f.name);
        WriteObject(f.val);
        Assoc(before, EncodeString(f.name), Encode(f.val) + EncodeFields(value[i + 1..]));
        Assoc(before + EncodeString(f.name), Encode(f.val), EncodeFields(value[i + 1..]));
      }
      assert value[|value|..] == [];
      Assoc(old(bytes), LE32(Trunc32(|value|)), EncodeFields(value));
    }

    method WriteHash(value: seq<Pair>)
      modifies this
      ensures Appended(LE32(Trunc32(|value|)) + EncodePairs(value))
      decreases value
    {
      if err { return; }
      WriteInt(Trunc32(|value|));
      ghost var start := bytes;
      for i := 0 to |value|
        invariant !err && bytes + EncodePairs(value[i..]) == start + EncodePairs(value)
      {
        var p := value[i];
        assert value[i..][0] == p && value[i..][1..] == value[i + 1..];
        assert p decreases to p.val;
        ghost var before := bytes;
        WriteScalar(p.key);
        WriteObject(p.val);
        Assoc(before, EncodeScalar(p.key), Encode(p.val) + EncodePairs(value[i + 1..]));
        Assoc(before + EncodeScalar(p.key), Encode(p.val), EncodePairs(value[i + 1..]));
      }
      assert value[|value|..] == [];
      Assoc(old(bytes), LE32(Trunc32(|value|)), EncodePairs(value));
    }

    method WriteObject(value: Layout)
      modifies this
      ensures Appended(Encode(value))
      decreases value
    {
      if err { return; }
      match value {
        case Atom(s) =>
          WriteScalar(s);
        case Ints(xs) =>
          WriteByte(TAG_INTS);
          WriteInts(xs);
          Assoc(old(bytes), [TAG_INTS], LE32(Trunc32(|xs|)) + EncodeInts(xs));
        case Array(items) =>
          WriteByte(TAG_ARRAY);
          WriteArray(items);
          Assoc(old(bytes), [TAG_ARRAY], LE32(Trunc32(|items|)) + EncodeAll(items));
        case Map(fields) =>
          WriteByte(TAG_MAP);
          WriteMap(fields);
          Assoc(old(bytes), [TAG_MAP], LE32(Trunc32(|fields|)) + EncodeFields(fields));
        case Hash(pairs) =>
          WriteByte(TAG_HASH);
          WriteHash(pairs);
          Assoc(old(bytes), [TAG_HASH], LE32(Trunc32(|pairs|)) + EncodePairs(pairs));
      }
    }
  }
}
