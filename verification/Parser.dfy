/** utils/buffutil/parser.go: the recursive reader with a sticky error, proved
    to perform the reads that module Reading specifies. */
module Parsers {
  import opened Bytes
  import opened Values
  import opened Buffers
  import opened Reading

  class Parser {
    var rest: seq<Byte> // the unread part of bytesBuffer
    var err: bool

    /** NewParser: the offset argument only grows the buffer's capacity, so no
        byte is skipped whatever it is. */
    constructor (buffer: seq<Byte>, offset: nat)
      ensures At() == Cursor(buffer, false)
    {
      rest, err := buffer, false;
    }

    function At(): Cursor
      reads this
    {
      Cursor(rest, err)
    }

    /** binary.Read into n bytes. */
    method Binary(n: nat) returns (got: seq<Byte>)
      requires n > 0 && !err
      modifies this
      ensures Read(got, At()) == Take(old(At()), n)
    {
      if |rest| < n {
        rest, err := [], true;
        return [];
      }
      got, rest := rest[..n], rest[n..];
    }

    method ReadByte() returns (v: Byte)
      modifies this
      ensures Read(v, At()) == Reading.ReadByte(old(At()))
    {
      if err { return 0; }
      var got := Binary(1);
      if err { return 0; }
      v := got[0];
    }

    method ReadBool() returns (v: bool)
      modifies this
      ensures Read(v, At()) == Reading.ReadBool(old(At()))
    {
      if err { return false; }
      var got := Binary(1);
      if err { return false; }
      v := got[0] != 0;
    }

    method ReadShort() returns (v: Int16)
      modifies this
      ensures Read(v, At()) == Reading.ReadShort(old(At()))
    {
      if err { return 0; }
      var got := Binary(2);
      if err { return 0; }
      v := OfLE16(got);
    }

    method ReadInt() returns (v: Int32)
      modifies this
      ensures Read(v, At()) == Reading.ReadInt(old(At()))
    {
      if err { return 0; }
      var got := Binary(4);
      if err { return 0; }
      v := OfLE32(got);
    }

    method ReadLong() returns (v: Int64)
      modifies this
      ensures Read(v, At()) == Reading.ReadLong(old(At()))
    {
      if err { return 0; }
      var got := Binary(8);
      if err { return 0; }
      v := OfLE64(got);
    }

    method ReadFloat() returns (v: UInt32)
      modifies this
      ensures Read(v, At()) == Reading.ReadFloat(old(At()))
    {
      if err { return 0; }
      var got := Binary(4);
      if err { return 0; }
      v := OfPattern32(got);
    }

    method ReadString() returns (v: Str)
      modifies this
      ensures Read(v, At()) == Reading.ReadString(old(At()))
    {
      var length := ReadInt();
      if err { return []; }
      if length == 0 { return []; }
      if length > STRING_MAX || length < 0 {
        err := true;
        return [];
      }
      v := Binary(length);
    }

    /** A read that may panic did what the specification says. */
    twostate predicate Did<T>(panicked: bool, v: T, spec: Got<T>)
      reads this
    {
      panicked == spec.Panic? && (!panicked ==> spec == Got(v, At()))
    }

    method ReadInts() returns (panicked: bool, v: seq<Int32>)
      modifies this
      ensures Did(panicked, v, Reading.ReadInts(old(At())))
    {
      v := [];
      var length := ReadInt();
      if length < 0 { return true, v; }
      ghost var start := At();
      for i := 0 to length
        invariant ReadIntItems(start, length, []) == ReadIntItems(At(), length - i, v)
      {
        var item := ReadInt();
        v := v + [item];
      }
      if err { v := []; }
      panicked := false;
    }

    method ReadArray() returns (panicked: bool, v: seq<Object>)
      modifies this
      ensures var len := Reading.ReadInt(old(At()));
              if len.val < 0 then
                panicked
              else
                var items := ReadItems(len.at, len.val, []);
                panicked == items.Panic? &&
                (!panicked ==> items.at == At() && v == if err then [] else items.val)
      decreases |rest|, 1
    {
      v := [];
      var length := ReadInt();
      if length < 0 { return true, v; }
      ghost var start := At();
      for i := 0 to length
        invariant |rest| <= |start.rest|
        invariant ReadItems(start, length, []) == ReadItems(At(), length - i, v)
      {
        ghost var before := At();
        var p, item := ReadObject();
        if p { return true, v; }
        v := v + [item];
      }
      if err { v := []; }
      panicked := false;
    }

    method ReadMap() returns (panicked: bool, v: map<Str, Object>)
      modifies this
      ensures var len := Reading.ReadInt(old(At()));
              var fields := ReadFields(len.at, Count(len.val), map[]);
              panicked == fields.Panic? &&
              (!panicked ==> fields.at == At() && v == if err then map[] else fields.val)
      decreases |rest|, 1
    {
      v := map[];
      var length := ReadInt();
      ghost var start := At();
      var i := 0;
      while i < length
        invariant 0 <= i <= Count(length)
        invariant |rest| <= |start.rest|
        invariant ReadFields(start, Count(length), map[]) == ReadFields(At(), Count(length) - i, v)
      {
        ghost var before := At();
        var k := ReadString();
        var p, item := ReadObject();
        if p { return true, v; }
        v := v[k := item];
        i := i + 1;
      }
      if err { v := map[]; }
      panicked := false;
    }

    method ReadHash() returns (panicked: bool, v: map<Scalar, Object>)
      modifies this
      ensures var len := Reading.ReadInt(old(At()));
              var rows := ReadRows(len.at, Count(len.val), map[]);
              panicked == rows.Panic? &&
              (!panicked ==> rows.at == At() && v == if err then map[] else rows.val)
      decreases |rest|, 1
    {
      v := map[];
      var length := ReadInt();
      ghost var start := At();
      var i := 0;
      while i < length
        invariant 0 <= i <= Count(length)
        invariant |rest| <= |start.rest|
        invariant ReadRows(start, Count(length), map[]) == ReadRows(At(), Count(length) - i, v)
      {
        ghost var before := At();
        var p, k := ReadObject();
        if p { return true, v; }
        var q, item := ReadObject();
        if q { return true, v; }
        if !k.Plain? { return true, v; } // runtime panic: unhashable key
        v := v[k.s := item];
        i := i + 1;
      }
      if err { v := map[]; }
      panicked := false;
    }

    /** ReadObject terminates on every input: each nested call has fewer unread
        bytes, or the error is set and it reads nothing. */
    method ReadObject() returns (panicked: bool, v: Object)
      modifies this
      ensures Did(panicked, v, Reading.ReadObject(old(At())))
      decreases |rest|, 0
    {
      panicked, v := false, Plain(Nil);
      var c := ReadByte();
      if err { return; }
      if c == TAG_BYTE {
        var x := ReadByte();
        v := Plain(ByteV(x));
      } else if c == TAG_BOOL {
        var x := ReadBool();
        v := Plain(BoolV(x));
      } else if c == TAG_SHORT {
        var x := ReadShort();
        v := Plain(ShortV(x));
      } else if c == TAG_INT {
        var x := ReadInt();
        v := Plain(Int32V(x));
      } else if c == TAG_LONG {
        var x := ReadLong();
        v := Plain(LongV(x));
      } else if c == TAG_STRING {
        var x := ReadString();
        v := Plain(StringV(x));
      } else if c == TAG_FLOAT {
        var x := ReadFloat();
        v := Plain(FloatV(x));
      } else if c == TAG_INTS {
        var p, xs := ReadInts();
        panicked, v := p, IntList(xs);
      } else if c == TAG_ARRAY {
        var p, items := ReadArray();
        panicked, v := p, List(items);
      } else if c == TAG_MAP {
        var p, fields := ReadMap();
        panicked, v := p, Record(fields);
      } else if c == TAG_HASH {
        var p, rows := ReadHash();
        panicked, v := p, Table(rows);
      } else if c == TAG_NULL {
        var none := ReadByte();
        if !err && none != 0 { err := true; }
      } else {
        err := true;
      }
    }
  }
}
