/** Writer against reader: what ReadObject makes of the bytes WriteObject wrote,
    and what it does to bytes that nobody wrote. */
module CodecLaws {
  import opened Wrappers
  import opened Bytes
  import opened Values
  import opened Buffers
  import opened Reading

  // ---- The unread bytes are always a suffix ----

  /** b is a with some number of leading bytes dropped. */
  predicate Suffix(a: seq<Byte>, b: seq<Byte>) {
    a == b || (a != [] && Suffix(a[1..], b))
  }

  lemma {:induction false} SuffixTrans(a: seq<Byte>, b: seq<Byte>, c: seq<Byte>)
    requires Suffix(a, b) && Suffix(b, c)
    ensures Suffix(a, c)
  {
    if a != b {
      SuffixTrans(a[1..], b, c);
    }
  }

  lemma {:induction false} SuffixDrop(a: seq<Byte>, k: nat)
    requires k <= |a|
    ensures Suffix(a, a[k..])
  {
    if k > 0 {
      SuffixDrop(a[1..], k - 1);
      assert a[1..][k - 1..] == a[k..];
    }
  }

  lemma TakeSuffix(c: Cursor, n: nat)
    requires n > 0
    ensures Suffix(c.rest, Take(c, n).at.rest)
  {
    SuffixDrop(c.rest, |c.rest|);
    assert c.rest[|c.rest|..] == [];
    if n <= |c.rest| { SuffixDrop(c.rest, n); }
  }

  lemma StringSuffix(c: Cursor)
    ensures Suffix(c.rest, ReadString(c).at.rest)
  {
    var len := ReadInt(c);
    TakeSuffix(c, 4);
    if !len.at.err && 0 < len.val <= STRING_MAX { TakeSuffix(len.at, len.val); }
    SuffixTrans(c.rest, len.at.rest, ReadString(c).at.rest);
  }

  lemma {:induction false} IntItemsSuffix(c: Cursor, n: nat, acc: seq<Int32>)
    ensures Suffix(c.rest, ReadIntItems(c, n, acc).at.rest)
    decreases n
  {
    if n > 0 {
      var item := ReadInt(c);
      TakeSuffix(c, 4);
      IntItemsSuffix(item.at, n - 1, acc + [item.val]);
      SuffixTrans(c.rest, item.at.rest, ReadIntItems(c, n, acc).at.rest);
    }
  }

  lemma {:induction false} ItemsSuffix(c: Cursor, n: nat, acc: seq<Object>)
    ensures var r := ReadItems(c, n, acc); r.Got? ==> Suffix(c.rest, r.at.rest)
    decreases |c.rest|, 1, n
  {
    if n > 0 && ReadItems(c, n, acc).Got? {
      var item := ReadObject(c);
      ObjectSuffix(c);
      ItemsSuffix(item.at, n - 1, acc + [item.val]);
      SuffixTrans(c.rest, item.at.rest, ReadItems(c, n, acc).at.rest);
    }
  }

  lemma {:induction false} FieldsSuffix(c: Cursor, n: nat, acc: map<Str, Object>)
    ensures var r := ReadFields(c, n, acc); r.Got? ==> Suffix(c.rest, r.at.rest)
    decreases |c.rest|, 1, n
  {
    if n > 0 && ReadFields(c, n, acc).Got? {
      var k := ReadString(c);
      var v := ReadObject(k.at);
      StringSuffix(c);
      ObjectSuffix(k.at);
      FieldsSuffix(v.at, n - 1, acc[k.val := v.val]);
      SuffixTrans(c.rest, k.at.rest, v.at.rest);
      SuffixTrans(c.rest, v.at.rest, ReadFields(c, n, acc).at.rest);
    }
  }

  lemma {:induction false} RowsSuffix(c: Cursor, n: nat, acc: map<Scalar, Object>)
    ensures var r := ReadRows(c, n, acc); r.Got? ==> Suffix(c.rest, r.at.rest)
    decreases |c.rest|, 1, n
  {
    if n > 0 && ReadRows(c, n, acc).Got? {
      var k := ReadObject(c);
      var v := ReadObject(k.at);
      RowsTurn(c, n, acc, k, v);
      ObjectSuffix(c);
      ObjectSuffix(k.at);
      RowsSuffix(v.at, n - 1, acc[k.val.s := v.val]);
      SuffixTrans(c.rest, k.at.rest, v.at.rest);
      SuffixTrans(c.rest, v.at.rest, ReadRows(v.at, n - 1, acc[k.val.s := v.val]).at.rest);
    }
  }

  lemma RowsTurn(c: Cursor, n: nat, acc: map<Scalar, Object>, k: Got<Object>, v: Got<Object>)
    requires n > 0 && ReadRows(c, n, acc).Got? && k == ReadObject(c) && (k.Got? ==> v == ReadObject(k.at))
    ensures k.Got? && v.Got? && k.val.Plain?
    ensures ReadRows(c, n, acc) == ReadRows(v.at, n - 1, acc[k.val.s := v.val])
  {
  }

  lemma IntsBodySuffix(c: Cursor)
    ensures var r := ReadInts(c); r.Got? ==> Suffix(c.rest, r.at.rest)
  {
    var len := ReadInt(c);
    TakeSuffix(c, 4);
    if len.val >= 0 {
      IntItemsSuffix(len.at, len.val, []);
      SuffixTrans(c.rest, len.at.rest, ReadIntItems(len.at, len.val, []).at.rest);
    }
  }

  lemma ScalarBodySuffix(tag: Byte, c: Cursor)
    requires tag !in {TAG_INTS, TAG_ARRAY, TAG_MAP, TAG_HASH}
    ensures var r := ReadBody(tag, c); r.Got? ==> Suffix(c.rest, r.at.rest)
  {
    StringSuffix(c);
    TakeSuffix(c, 1);
    TakeSuffix(c, 2);
    TakeSuffix(c, 4);
    TakeSuffix(c, 8);
  }

  lemma {:induction false} ArrayBodySuffix(c: Cursor)
    ensures var r := ReadBody(TAG_ARRAY, c); r.Got? ==> Suffix(c.rest, r.at.rest)
    decreases |c.rest|, 2
  {
    var len := ReadInt(c);
    TakeSuffix(c, 4);
    if len.val >= 0 && ReadItems(len.at, len.val, []).Got? {
      ItemsSuffix(len.at, len.val, []);
      SuffixTrans(c.rest, len.at.rest, ReadItems(len.at, len.val, []).at.rest);
    }
  }

  lemma {:induction false} MapBodySuffix(c: Cursor)
    ensures var r := ReadBody(TAG_MAP, c); r.Got? ==> Suffix(c.rest, r.at.rest)
    decreases |c.rest|, 2
  {
    var len := ReadInt(c);
    TakeSuffix(c, 4);
    if ReadFields(len.at, Count(len.val), map[]).Got? {
      FieldsSuffix(len.at, Count(len.val), map[]);
      SuffixTrans(c.rest, len.at.rest, ReadFields(len.at, Count(len.val), map[]).at.rest);
    }
  }

  lemma {:induction false} HashBodySuffix(c: Cursor)
    ensures var r := ReadBody(TAG_HASH, c); r.Got? ==> Suffix(c.rest, r.at.rest)
    decreases |c.rest|, 2
  {
    var len := ReadInt(c);
    TakeSuffix(c, 4);
    if ReadRows(len.at, Count(len.val), map[]).Got? {
      RowsSuffix(len.at, Count(len.val), map[]);
      SuffixTrans(c.rest, len.at.rest, ReadRows(len.at, Count(len.val), map[]).at.rest);
    }
  }

  lemma {:induction false} BodySuffix(tag: Byte, c: Cursor)
    ensures var r := ReadBody(tag, c); r.Got? ==> Suffix(c.rest, r.at.rest)
    decreases |c.rest|, 3
  {
    if tag == TAG_INTS {
      IntsBodySuffix(c);
    } else if tag == TAG_ARRAY {
      ArrayBodySuffix(c);
    } else if tag == TAG_MAP {
      MapBodySuffix(c);
    } else if tag == TAG_HASH {
      HashBodySuffix(c);
    } else {
      ScalarBodySuffix(tag, c);
    }
  }

  /** On every byte sequence, what ReadObject leaves unread is a suffix of what
      it was given, and it leaves everything when the error was already set. */
  lemma {:induction false} ObjectSuffix(c: Cursor)
    ensures var r := ReadObject(c);
            r.Got? ==> Suffix(c.rest, r.at.rest) && (c.err ==> r.at == c)
    decreases |c.rest|, 0
  {
    var tag := ReadByte(c);
    TakeSuffix(c, 1);
    if !tag.at.err {
      BodySuffix(tag.val, tag.at);
      var r := ReadBody(tag.val, tag.at);
      if r.Got? { SuffixTrans(c.rest, tag.at.rest, r.at.rest); }
    }
  }

  // ---- Once the error is set the remaining iterations read nothing ----

  lemma {:induction false} ItemsAfterError(c: Cursor, n: nat, acc: seq<Object>)
    requires c.err
    ensures var r := ReadItems(c, n, acc); r.Got? && r.at == c
    decreases n
  {
    if n > 0 { ItemsAfterError(c, n - 1, acc + [Plain(Nil)]); }
  }

  lemma {:induction false} FieldsAfterError(c: Cursor, n: nat, acc: map<Str, Object>)
    requires c.err
    ensures var r := ReadFields(c, n, acc); r.Got? && r.at == c
    decreases n
  {
    if n > 0 { FieldsAfterError(c, n - 1, acc[[] := Plain(Nil)]); }
  }

  lemma {:induction false} RowsAfterError(c: Cursor, n: nat, acc: map<Scalar, Object>)
    requires c.err
    ensures var r := ReadRows(c, n, acc); r.Got? && r.at == c
    decreases n
  {
    if n > 0 { RowsAfterError(c, n - 1, acc[Nil := Plain(Nil)]); }
  }

  // ---- Round trip ----

  /** A cursor in front of the bytes `a` followed by `rest`. */
  function Before(a: seq<Byte>, rest: seq<Byte>): Cursor {
    Cursor(a + rest, false)
  }

  lemma IntBack(x: Int32, rest: seq<Byte>)
    ensures ReadInt(Before(LE32(x), rest)) == Read(x, Cursor(rest, false))
  {
    IntegersRoundTrip(0, x, 0, 0);
  }

  /** A string comes back iff it is at most 10240 bytes long; a longer one sets
      the error. */
  lemma StringBack(s: Str, rest: seq<Byte>)
    requires |s| < 0x8000_0000
    ensures var r := ReadString(Before(EncodeString(s), rest));
            if |s| <= STRING_MAX then r == Read(s, Cursor(rest, false)) else r.at.err && r.val == []
  {
    assert EncodeString(s) + rest == LE32(|s|) + (s + rest);
    IntBack(|s|, s + rest);
  }

  /** The tag selects the branch that reads the body. */
  lemma TagBack(tag: Byte, body: seq<Byte>)
    ensures ReadObject(Cursor([tag] + body, false)) == ReadBody(tag, Cursor(body, false))
  {
    assert ([tag] + body)[1..] == body;
  }

  lemma TakeFront(a: seq<Byte>, rest: seq<Byte>)
    requires a != []
    ensures Take(Before(a, rest), |a|) == Read(a, Cursor(rest, false))
  {
  }

  lemma NumberBack(s: Scalar, rest: seq<Byte>, body: seq<Byte>)
    requires !s.StringV? && body == EncodeScalar(s)[1..] && body != []
    ensures ReadBody(EncodeScalar(s)[0], Before(body, rest)) == Got(Plain(Norm(s)), Cursor(rest, false))
  {
    TakeFront(body, rest);
    match s
    case Nil =>
      assert body == [0];
    case ByteV(b) =>
      assert body == [b];
    case BoolV(v) =>
      assert body == [if v then 1 else 0];
    case ShortV(x) =>
      assert body == LE16(x);
      IntegersRoundTrip(x, 0, 0, 0);
    case IntV(x) =>
      assert body == LE32(Trunc32(x));
      IntBack(Trunc32(x), rest);
    case Int32V(x) =>
      assert body == LE32(x);
      IntBack(x, rest);
    case LongV(x) =>
      assert body == LE64(x);
      IntegersRoundTrip(0, 0, x, 0);
    case FloatV(x) =>
      assert body == ToLE(x, 4);
      IntegersRoundTrip(0, 0, 0, x);
  }

  lemma ScalarBack(s: Scalar, rest: seq<Byte>)
    requires SizedScalar(s)
    ensures var r := ReadObject(Before(EncodeScalar(s), rest));
            r.Got? && r.val.Plain? &&
            if LegibleScalar(s) then r == Got(Plain(Norm(s)), Cursor(rest, false)) else r.at.err
  {
    var tag, body := EncodeScalar(s)[0], EncodeScalar(s)[1..];
    assert EncodeScalar(s) == [tag] + body;
    Assoc([tag], body, rest);
    TagBack(tag, body + rest);
    if s.StringV? {
      assert body == EncodeString(s.s);
      StringBack(s.s, rest);
    } else {
      NumberBack(s, rest, body);
    }
  }

  // The encodings once more, each in front of what follows it. In this form the
  // bytes of a composite are the bytes of its parts in front of one another.

  function IntsTo(xs: seq<Int32>, rest: seq<Byte>): seq<Byte> {
    if xs == [] then rest else LE32(xs[0]) + IntsTo(xs[1..], rest)
  }

  function To(w: Layout, rest: seq<Byte>): seq<Byte>
    decreases w, 1
  {
    match w
    case Atom(s) => EncodeScalar(s) + rest
    case Ints(xs) => [TAG_INTS] + (LE32(Trunc32(|xs|)) + IntsTo(xs, rest))
    case Array(items) => [TAG_ARRAY] + (LE32(Trunc32(|items|)) + AllTo(items, rest))
    case Map(fields) => [TAG_MAP] + (LE32(Trunc32(|fields|)) + FieldsTo(fields, rest))
    case Hash(pairs) => [TAG_HASH] + (LE32(Trunc32(|pairs|)) + PairsTo(pairs, rest))
  }

  function AllTo(ws: seq<Layout>, rest: seq<Byte>): seq<Byte>
    decreases ws, 0
  {
    if ws == [] then rest else To(ws[0], AllTo(ws[1..], rest))
  }

  function FieldTo(f: Field, rest: seq<Byte>): seq<Byte>
    decreases f, 0
  {
    EncodeString(f.name) + To(f.val, rest)
  }

  function FieldsTo(fs: seq<Field>, rest: seq<Byte>): seq<Byte>
    decreases fs, 0
  {
    if fs == [] then rest else FieldTo(fs[0], FieldsTo(fs[1..], rest))
  }

  function PairTo(p: Pair, rest: seq<Byte>): seq<Byte>
    decreases p, 0
  {
    EncodeScalar(p.key) + To(p.val, rest)
  }

  function PairsTo(ps: seq<Pair>, rest: seq<Byte>): seq<Byte>
    decreases ps, 0
  {
    if ps == [] then rest else PairTo(ps[0], PairsTo(ps[1..], rest))
  }

  lemma Assoc3(tag: Byte, n: seq<Byte>, items: seq<Byte>, rest: seq<Byte>)
    ensures ([tag] + (n + items)) + rest == [tag] + (n + (items + rest))
  {
    Assoc([tag], n + items, rest);
    Assoc(n, items, rest);
  }

  lemma {:induction false} IntsToIs(xs: seq<Int32>, rest: seq<Byte>)
    ensures IntsTo(xs, rest) == EncodeInts(xs) + rest
  {
    if xs != [] {
      IntsToIs(xs[1..], rest);
      Assoc(LE32(xs[0]), EncodeInts(xs[1..]), rest);
    }
  }

  lemma {:induction false} AllToIs(ws: seq<Layout>, rest: seq<Byte>)
    ensures AllTo(ws, rest) == EncodeAll(ws) + rest
    decreases ws, 0
  {
    if ws != [] {
      AllToIs(ws[1..], rest);
      ToIs(ws[0], AllTo(ws[1..], rest));
      Assoc(Encode(ws[0]), EncodeAll(ws[1..]), rest);
    }
  }

  lemma {:induction false} FieldsToIs(fs: seq<Field>, rest: seq<Byte>)
    ensures FieldsTo(fs, rest) == EncodeFields(fs) + rest
    decreases fs, 0
  {
    if fs != [] {
      var f, tail := fs[0], EncodeFields(fs[1..]);
      assert f decreases to f.val;
      FieldsToIs(fs[1..], rest);
      ToIs(f.val, tail + rest);
      Assoc(Encode(f.val), tail, rest);
      Assoc(EncodeString(f.name), Encode(f.val) + tail, rest);
    }
  }

  lemma {:induction false} PairsToIs(ps: seq<Pair>, rest: seq<Byte>)
    ensures PairsTo(ps, rest) == EncodePairs(ps) + rest
    decreases ps, 0
  {
    if ps != [] {
      var p, tail := ps[0], EncodePairs(ps[1..]);
      assert p decreases to p.val;
      PairsToIs(ps[1..], rest);
      ToIs(p.val, tail + rest);
      Assoc(Encode(p.val), tail, rest);
      Assoc(EncodeScalar(p.key), Encode(p.val) + tail, rest);
    }
  }

  lemma {:induction false} ToIs(w: Layout, rest: seq<Byte>)
    ensures To(w, rest) == Encode(w) + rest
    decreases w, 1
  {
    match w
    case Atom(_) =>
    case Ints(xs) =>
      IntsToIs(xs, rest);
      Assoc3(TAG_INTS, LE32(Trunc32(|xs|)), EncodeInts(xs), rest);
    case Array(items) =>
      AllToIs(items, rest);
      Assoc3(TAG_ARRAY, LE32(Trunc32(|items|)), EncodeAll(items), rest);
    case Map(fields) =>
      FieldsToIs(fields, rest);
      Assoc3(TAG_MAP, LE32(Trunc32(|fields|)), EncodeFields(fields), rest);
    case Hash(pairs) =>
      PairsToIs(pairs, rest);
      Assoc3(TAG_HASH, LE32(Trunc32(|pairs|)), EncodePairs(pairs), rest);
  }

  function From(s: seq<Byte>): Cursor {
    Cursor(s, false)
  }

  /** The outcome of reading a composite: its value and the rest if it is
      legible, an error otherwise; never a panic. */
  ghost predicate Back<T>(r: Got<T>, legible: bool, v: T, rest: seq<Byte>) {
    r.Got? && if legible then r == Got(v, From(rest)) else r.at.err
  }

  lemma {:induction false} IntItemsBack(xs: seq<Int32>, rest: seq<Byte>, acc: seq<Int32>)
    ensures ReadIntItems(From(IntsTo(xs, rest)), |xs|, acc) == Read(acc + xs, From(rest))
    decreases xs
  {
    if xs == [] {
      assert acc + xs == acc;
    } else {
      IntBack(xs[0], IntsTo(xs[1..], rest));
      IntItemsBack(xs[1..], rest, acc + [xs[0]]);
      assert acc + [xs[0]] + xs[1..] == acc + xs;
    }
  }

  /** Reading one item of an array: the loop goes on behind it, or ends in error. */
  lemma {:induction false} ItemBack(w: Layout, rest: seq<Byte>, c: Cursor, n: nat, acc: seq<Object>)
    requires Sized(w) && c == From(To(w, rest)) && n > 0
    ensures if Legible(w) then ReadItems(c, n, acc) == ReadItems(From(rest), n - 1, acc + [Value(w)])
            else ReadItems(c, n, acc).Got? && ReadItems(c, n, acc).at.err
    decreases w, 2
  {
    ObjectBack(w, rest);
    var item := ReadObject(c);
    if !Legible(w) { ItemsAfterError(item.at, n - 1, acc + [item.val]); }
  }

  lemma {:induction false} ItemsBack(ws: seq<Layout>, rest: seq<Byte>, acc: seq<Object>)
    requires SizedItems(ws)
    ensures Back(ReadItems(From(AllTo(ws, rest)), |ws|, acc), LegibleItems(ws), acc + ValuesOf(ws), rest)
    decreases ws, 0
  {
    if ws == [] {
      assert acc + ValuesOf(ws) == acc;
    } else {
      var w, ws' := ws[0], ws[1..];
      ItemBack(w, AllTo(ws', rest), From(AllTo(ws, rest)), |ws|, acc);
      if Legible(w) {
        ItemsBack(ws', rest, acc + [Value(w)]);
        Assoc(acc, [Value(w)], ValuesOf(ws'));
      }
    }
  }

  /** One entry of a map[string]interface{}. */
  lemma {:induction false} FieldBack(f: Field, rest: seq<Byte>, c: Cursor) returns (k: Read<Str>, v: Got<Object>)
    requires |f.name| < 0x8000_0000 && Sized(f.val) && c == From(FieldTo(f, rest))
    ensures k == ReadString(c) && v == ReadObject(k.at) && v.Got?
    ensures if |f.name| <= STRING_MAX && Legible(f.val) then k.val == f.name && v == Got(Value(f.val), From(rest))
            else v.at.err
    decreases f.val, 2
  {
    k := ReadString(c);
    v := ReadObject(k.at);
    StringBack(f.name, To(f.val, rest));
    if |f.name| <= STRING_MAX {
      ObjectBack(f.val, rest);
    }
  }

  /** One entry of a map[interface{}]interface{}. */
  lemma {:induction false} PairBack(p: Pair, rest: seq<Byte>, c: Cursor) returns (k: Got<Object>, v: Got<Object>)
    requires SizedScalar(p.key) && Sized(p.val) && c == From(PairTo(p, rest))
    ensures k == ReadObject(c) && k.Got? && k.val.Plain? && v == ReadObject(k.at) && v.Got?
    ensures if LegibleScalar(p.key) && Legible(p.val) then k.val.s == Norm(p.key) && v == Got(Value(p.val), From(rest))
            else v.at.err
    decreases p.val, 2
  {
    k := ReadObject(c);
    ScalarBack(p.key, To(p.val, rest));
    v := ReadObject(k.at);
    if LegibleScalar(p.key) {
      ObjectBack(p.val, rest);
    }
  }

  /** One turn of the loop over a map, given what it reads. */
  lemma FieldsStep(c: Cursor, n: nat, acc: map<Str, Object>, k: Read<Str>, v: Got<Object>)
    requires n > 0 && k == ReadString(c) && v == ReadObject(k.at) && v.Got?
    ensures ReadFields(c, n, acc) == ReadFields(v.at, n - 1, acc[k.val := v.val])
    ensures v.at.err ==> ReadFields(c, n, acc).Got? && ReadFields(c, n, acc).at.err
  {
    if v.at.err { FieldsAfterError(v.at, n - 1, acc[k.val := v.val]); }
  }

  lemma {:induction false} FieldTurn(f: Field, rest: seq<Byte>, c: Cursor, n: nat, acc: map<Str, Object>)
    requires |f.name| < 0x8000_0000 && Sized(f.val) && c == From(FieldTo(f, rest)) && n > 0
    ensures if |f.name| <= STRING_MAX && Legible(f.val) then
              ReadFields(c, n, acc) == ReadFields(From(rest), n - 1, acc[f.name := Value(f.val)])
            else
              ReadFields(c, n, acc).Got? && ReadFields(c, n, acc).at.err
    decreases f.val, 3
  {
    var k, v := FieldBack(f, rest, c);
    FieldsStep(c, n, acc, k, v);
  }

  lemma {:induction false} FieldsBack(fs: seq<Field>, rest: seq<Byte>, acc: map<Str, Object>)
    requires SizedFields(fs)
    ensures Back(ReadFields(From(FieldsTo(fs, rest)), |fs|, acc), LegibleFields(fs), FieldMap(fs, acc), rest)
    decreases fs, 0
  {
    if fs != [] {
      var f, fs' := fs[0], fs[1..];
      assert f decreases to f.val;
      FieldTurn(f, FieldsTo(fs', rest), From(FieldsTo(fs, rest)), |fs|, acc);
      if |f.name| <= STRING_MAX && Legible(f.val) {
        FieldsBack(fs', rest, acc[f.name := Value(f.val)]);
      }
    }
  }

  /** One turn of the loop over a hash, given what it reads. */
  lemma RowsStep(c: Cursor, n: nat, acc: map<Scalar, Object>, k: Got<Object>, v: Got<Object>)
    requires n > 0 && k == ReadObject(c) && k.Got? && k.val.Plain? && v == ReadObject(k.at) && v.Got?
    ensures ReadRows(c, n, acc) == ReadRows(v.at, n - 1, acc[k.val.s := v.val])
    ensures v.at.err ==> ReadRows(c, n, acc).Got? && ReadRows(c, n, acc).at.err
  {
    if v.at.err { RowsAfterError(v.at, n - 1, acc[k.val.s := v.val]); }
  }

  lemma {:induction false} PairTurn(p: Pair, rest: seq<Byte>, c: Cursor, n: nat, acc: map<Scalar, Object>)
    requires SizedScalar(p.key) && Sized(p.val) && c == From(PairTo(p, rest)) && n > 0
    ensures if LegibleScalar(p.key) && Legible(p.val) then
              ReadRows(c, n, acc) == ReadRows(From(rest), n - 1, acc[Norm(p.key) := Value(p.val)])
            else
              ReadRows(c, n, acc).Got? && ReadRows(c, n, acc).at.err
    decreases p.val, 3
  {
    var k, v := PairBack(p, rest, c);
    RowsStep(c, n, acc, k, v);
  }

  lemma {:induction false} PairsBack(ps: seq<Pair>, rest: seq<Byte>, acc: map<Scalar, Object>)
    requires SizedPairs(ps)
    ensures Back(ReadRows(From(PairsTo(ps, rest)), |ps|, acc), LegiblePairs(ps), PairMap(ps, acc), rest)
    decreases ps, 0
  {
    if ps != [] {
      var p, ps' := ps[0], ps[1..];
      assert p decreases to p.val;
      PairTurn(p, PairsTo(ps', rest), From(PairsTo(ps, rest)), |ps|, acc);
      if LegibleScalar(p.key) && Legible(p.val) {
        PairsBack(ps', rest, acc[Norm(p.key) := Value(p.val)]);
      }
    }
  }

  lemma LengthBack(tag: Byte, n: Int32, items: seq<Byte>)
    ensures var body := LE32(Trunc32(n)) + items;
            ReadObject(From([tag] + body)) == ReadBody(tag, From(body)) &&
            ReadInt(From(body)) == Read(n, From(items))
  {
    TruncFits(n);
    TagBack(tag, LE32(n) + items);
    IntBack(n, items);
  }

  lemma IntsBack(xs: seq<Int32>, rest: seq<Byte>)
    requires |xs| < 0x8000_0000
    ensures ReadObject(From([TAG_INTS] + (LE32(Trunc32(|xs|)) + IntsTo(xs, rest)))) == Got(IntList(xs), From(rest))
  {
    LengthBack(TAG_INTS, |xs|, IntsTo(xs, rest));
    IntItemsBack(xs, rest, []);
    assert [] + xs == xs;
  }

  lemma {:induction false} ArrayBack(items: seq<Layout>, rest: seq<Byte>)
    requires |items| < 0x8000_0000 && SizedItems(items)
    ensures var r := ReadObject(From([TAG_ARRAY] + (LE32(Trunc32(|items|)) + AllTo(items, rest))));
            Back(r, LegibleItems(items), List(ValuesOf(items)), rest)
    decreases items, 1
  {
    LengthBack(TAG_ARRAY, |items|, AllTo(items, rest));
    ItemsBack(items, rest, []);
    assert [] + ValuesOf(items) == ValuesOf(items);
  }

  lemma {:induction false} MapBack(fields: seq<Field>, rest: seq<Byte>)
    requires |fields| < 0x8000_0000 && SizedFields(fields)
    ensures var r := ReadObject(From([TAG_MAP] + (LE32(Trunc32(|fields|)) + FieldsTo(fields, rest))));
            Back(r, LegibleFields(fields), Record(FieldMap(fields, map[])), rest)
    decreases fields, 1
  {
    LengthBack(TAG_MAP, |fields|, FieldsTo(fields, rest));
    FieldsBack(fields, rest, map[]);
  }

  lemma {:induction false} HashBack(pairs: seq<Pair>, rest: seq<Byte>)
    requires |pairs| < 0x8000_0000 && SizedPairs(pairs)
    ensures var r := ReadObject(From([TAG_HASH] + (LE32(Trunc32(|pairs|)) + PairsTo(pairs, rest))));
            Back(r, LegiblePairs(pairs), Table(PairMap(pairs, map[])), rest)
    decreases pairs, 1
  {
    LengthBack(TAG_HASH, |pairs|, PairsTo(pairs, rest));
    PairsBack(pairs, rest, map[]);
  }

  lemma {:induction false} ObjectBack(w: Layout, rest: seq<Byte>)
    requires Sized(w)
    ensures Back(ReadObject(From(To(w, rest))), Legible(w), Value(w), rest)
    decreases w, 1
  {
    match w
    case Atom(s) => ScalarBack(s, rest);
    case Ints(xs) => IntsBack(xs, rest);
    case Array(items) => ArrayBack(items, rest);
    case Map(fields) => MapBack(fields, rest);
    case Hash(pairs) => HashBack(pairs, rest);
  }

  /** The codec's law. For every value whose lengths fit an int32, in every map
      iteration order and in front of any further bytes: reading never panics;
      if every string is at most 10240 bytes, exactly the normalised value comes
      back and exactly the further bytes remain; otherwise the error is set. */
  lemma RoundTrip(w: Layout, rest: seq<Byte>)
    requires Sized(w)
    ensures var r := ReadObject(Cursor(Encode(w) + rest, false));
            r.Got? && if Legible(w) then r == Got(Value(w), Cursor(rest, false)) else r.at.err
  {
    ToIs(w, rest);
    ObjectBack(w, rest);
  }

  /** Two values that encode alike, in whatever iteration orders, are alike. */
  lemma EncodingDeterminesValue(v: Layout, w: Layout)
    requires Sized(v) && Legible(v) && Sized(w) && Legible(w)
    requires Encode(v) == Encode(w)
    ensures Value(v) == Value(w)
  {
    RoundTrip(v, []);
    RoundTrip(w, []);
  }
}
