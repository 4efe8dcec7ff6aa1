/** Exactly which bytes ReadObject accepts, and as what. */
module CodecExact {
  import opened Wrappers
  import opened Bytes
  import opened Values
  import opened Buffers
  import opened Reading
  import opened CodecLaws
  import Exchanges

  // ---- The bytes a layout may be read from ----

  /** As WriteObject writes it; but any byte other than 0 is read as true. */
  ghost predicate SpellsScalar(a: Scalar, s: seq<Byte>, rest: seq<Byte>) {
    if a.BoolV? then exists b: Byte :: s == [TAG_BOOL, b] + rest && (a.v <==> b != 0)
    else s == EncodeScalar(a) + rest
  }

  /** s is a layout's bytes in front of the rest. Of a map or a hash the reader takes a
      negative length for 0. */
  ghost predicate Spells(w: Layout, s: seq<Byte>, rest: seq<Byte>)
    decreases w, 1
  {
    match w
    case Atom(a) => SpellsScalar(a, s, rest)
    case Ints(xs) => s == [TAG_INTS] + (LE32(Trunc32(|xs|)) + IntsTo(xs, rest))
    case Array(items) => exists mid :: s == [TAG_ARRAY] + (LE32(Trunc32(|items|)) + mid) && SpellsAll(items, mid, rest)
    case Map(fs) =>
      exists n: Int32, mid :: s == [TAG_MAP] + (LE32(n) + mid) && (n == |fs| || (n < 0 && fs == [])) && SpellsFields(fs, mid, rest)
    case Hash(ps) =>
      exists n: Int32, mid :: s == [TAG_HASH] + (LE32(n) + mid) && (n == |ps| || (n < 0 && ps == [])) && SpellsPairs(ps, mid, rest)
  }

  ghost predicate SpellsAll(ws: seq<Layout>, s: seq<Byte>, rest: seq<Byte>)
    decreases ws, 0
  {
    if ws == [] then s == rest else exists mid :: Spells(ws[0], s, mid) && SpellsAll(ws[1..], mid, rest)
  }

  ghost predicate SpellsFields(fs: seq<Field>, s: seq<Byte>, rest: seq<Byte>)
    decreases fs, 0
  {
    if fs == [] then s == rest
    else
      exists m1, m2 :: s == EncodeString(fs[0].name) + m1 && SpellsVal(fs[0], m1, m2) && SpellsFields(fs[1..], m2, rest)
  }

  ghost predicate SpellsVal(f: Field, s: seq<Byte>, rest: seq<Byte>)
    decreases f, 0
  {
    Spells(f.val, s, rest)
  }

  ghost predicate SpellsPairs(ps: seq<Pair>, s: seq<Byte>, rest: seq<Byte>)
    decreases ps, 0
  {
    if ps == [] then s == rest
    else exists m1, m2 :: SpellsScalar(ps[0].key, s, m1) && SpellsRow(ps[0], m1, m2) && SpellsPairs(ps[1..], m2, rest)
  }

  ghost predicate SpellsRow(p: Pair, s: seq<Byte>, rest: seq<Byte>)
    decreases p, 0
  {
    Spells(p.val, s, rest)
  }

  lemma ScalarWritten(a: Scalar, rest: seq<Byte>)
    ensures SpellsScalar(a, EncodeScalar(a) + rest, rest)
  {
    if a.BoolV? {
      var b: Byte := if a.v then 1 else 0;
      assert EncodeScalar(a) + rest == [TAG_BOOL, b] + rest;
    }
  }

  /** What is written is among them. */
  lemma {:induction false} WrittenSpells(w: Layout, rest: seq<Byte>)
    requires Sized(w)
    ensures Spells(w, To(w, rest), rest)
    decreases w, 1
  {
    match w
    case Atom(a) =>
      ScalarWritten(a, rest);
    case Ints(_) =>
    case Array(items) => AllWritten(items, rest);
    case Map(fs) => MapWritten(fs, rest);
    case Hash(ps) => HashWritten(ps, rest);
  }

  lemma {:induction false} MapWritten(fs: seq<Field>, rest: seq<Byte>)
    requires |fs| < 0x8000_0000 && SizedFields(fs)
    ensures Spells(Map(fs), [TAG_MAP] + (LE32(Trunc32(|fs|)) + FieldsTo(fs, rest)), rest)
    decreases Map(fs), 0
  {
    var n: Int32 := |fs|;
    assert Trunc32(|fs|) == n by { TruncFits(n); }
    FieldsWritten(fs, rest);
    MapSpells(fs, n, FieldsTo(fs, rest), rest);
  }

  lemma MapSpells(fs: seq<Field>, n: Int32, mid: seq<Byte>, rest: seq<Byte>)
    requires SpellsFields(fs, mid, rest) && (n == |fs| || (n < 0 && fs == []))
    ensures Spells(Map(fs), [TAG_MAP] + (LE32(n) + mid), rest)
  {
  }

  lemma {:induction false} HashWritten(ps: seq<Pair>, rest: seq<Byte>)
    requires |ps| < 0x8000_0000 && SizedPairs(ps)
    ensures Spells(Hash(ps), [TAG_HASH] + (LE32(Trunc32(|ps|)) + PairsTo(ps, rest)), rest)
    decreases Hash(ps), 0
  {
    var n: Int32 := |ps|;
    assert Trunc32(|ps|) == n by { TruncFits(n); }
    PairsWritten(ps, rest);
    HashSpells(ps, n, PairsTo(ps, rest), rest);
  }

  lemma HashSpells(ps: seq<Pair>, n: Int32, mid: seq<Byte>, rest: seq<Byte>)
    requires SpellsPairs(ps, mid, rest) && (n == |ps| || (n < 0 && ps == []))
    ensures Spells(Hash(ps), [TAG_HASH] + (LE32(n) + mid), rest)
  {
  }

  lemma {:induction false} AllWritten(ws: seq<Layout>, rest: seq<Byte>)
    requires SizedItems(ws)
    ensures SpellsAll(ws, AllTo(ws, rest), rest)
    decreases ws, 0
  {
    if ws != [] {
      WrittenSpells(ws[0], AllTo(ws[1..], rest));
      AllWritten(ws[1..], rest);
    }
  }

  lemma {:induction false} FieldsWritten(fs: seq<Field>, rest: seq<Byte>)
    requires SizedFields(fs)
    ensures SpellsFields(fs, FieldsTo(fs, rest), rest)
    decreases fs, 0
  {
    if fs != [] {
      var f, m2 := fs[0], FieldsTo(fs[1..], rest);
      assert f decreases to f.val;
      var m1 := To(f.val, m2);
      WrittenSpells(f.val, m2);
      FieldsWritten(fs[1..], rest);
      assert FieldsTo(fs, rest) == FieldTo(f, m2) == EncodeString(f.name) + m1;
      assert SpellsVal(f, m1, m2);
    }
  }

  lemma {:induction false} PairsWritten(ps: seq<Pair>, rest: seq<Byte>)
    requires SizedPairs(ps)
    ensures SpellsPairs(ps, PairsTo(ps, rest), rest)
    decreases ps, 0
  {
    if ps != [] {
      var p, m2 := ps[0], PairsTo(ps[1..], rest);
      assert p decreases to p.val;
      var m1 := To(p.val, m2);
      WrittenSpells(p.val, m2);
      ScalarWritten(p.key, m1);
      PairsWritten(ps[1..], rest);
      assert PairsTo(ps, rest) == EncodeScalar(p.key) + m1;
      assert SpellsRow(p, m1, m2);
    }
  }

  // ---- They are accepted ----

  lemma ScalarRead(a: Scalar, s: seq<Byte>, rest: seq<Byte>)
    requires SizedScalar(a) && LegibleScalar(a) && SpellsScalar(a, s, rest)
    ensures ReadObject(From(s)) == Got(Plain(Norm(a)), From(rest))
  {
    if a.BoolV? {
      var b: Byte :| s == [TAG_BOOL, b] + rest && (a.v <==> b != 0);
      assert s == [TAG_BOOL] + ([b] + rest);
      TagBack(TAG_BOOL, [b] + rest);
      TakeFront([b], rest);
    } else {
      ScalarBack(a, rest);
    }
  }

  lemma {:induction false} SpelledIsRead(w: Layout, s: seq<Byte>, rest: seq<Byte>)
    requires Sized(w) && Legible(w) && Spells(w, s, rest)
    ensures ReadObject(From(s)) == Got(Value(w), From(rest))
    decreases w, 1
  {
    match w
    case Atom(a) => ScalarRead(a, s, rest);
    case Ints(xs) => IntsBack(xs, rest);
    case Array(items) =>
      var mid :| s == [TAG_ARRAY] + (LE32(Trunc32(|items|)) + mid) && SpellsAll(items, mid, rest);
      ArrayRead(items, mid, rest);
    case Map(fs) =>
      var n: Int32, mid :| s == [TAG_MAP] + (LE32(n) + mid) && (n == |fs| || (n < 0 && fs == [])) && SpellsFields(fs, mid, rest);
      MapRead(fs, n, mid, rest);
    case Hash(ps) =>
      var n: Int32, mid :| s == [TAG_HASH] + (LE32(n) + mid) && (n == |ps| || (n < 0 && ps == [])) && SpellsPairs(ps, mid, rest);
      HashRead(ps, n, mid, rest);
  }

  lemma {:induction false} ArrayRead(items: seq<Layout>, mid: seq<Byte>, rest: seq<Byte>)
    requires Sized(Array(items)) && Legible(Array(items)) && SpellsAll(items, mid, rest)
    ensures ReadObject(From([TAG_ARRAY] + (LE32(Trunc32(|items|)) + mid))) == Got(List(ValuesOf(items)), From(rest))
    decreases items, 1
  {
    LengthBack(TAG_ARRAY, |items|, mid);
    ItemsRead(items, mid, rest, []);
    assert [] + ValuesOf(items) == ValuesOf(items);
  }

  lemma {:induction false} MapRead(fs: seq<Field>, n: Int32, mid: seq<Byte>, rest: seq<Byte>)
    requires SizedFields(fs) && LegibleFields(fs) && SpellsFields(fs, mid, rest) && (n == |fs| || (n < 0 && fs == []))
    ensures ReadObject(From([TAG_MAP] + (LE32(n) + mid))) == Got(Record(FieldMap(fs, map[])), From(rest))
    decreases fs, 1
  {
    CountBack(TAG_MAP, n, mid);
    FieldsRead(fs, mid, rest, map[]);
  }

  lemma {:induction false} HashRead(ps: seq<Pair>, n: Int32, mid: seq<Byte>, rest: seq<Byte>)
    requires SizedPairs(ps) && LegiblePairs(ps) && SpellsPairs(ps, mid, rest) && (n == |ps| || (n < 0 && ps == []))
    ensures ReadObject(From([TAG_HASH] + (LE32(n) + mid))) == Got(Table(PairMap(ps, map[])), From(rest))
    decreases ps, 1
  {
    CountBack(TAG_HASH, n, mid);
    PairsRead(ps, mid, rest, map[]);
  }

  lemma CountBack(tag: Byte, n: Int32, items: seq<Byte>)
    ensures var body := LE32(n) + items;
            ReadObject(From([tag] + body)) == ReadBody(tag, From(body)) && ReadInt(From(body)) == Read(n, From(items))
  {
    TagBack(tag, LE32(n) + items);
    IntBack(n, items);
  }

  /** One turn of the loop over an array, given what it reads. */
  lemma ItemsStep(c: Cursor, n: nat, acc: seq<Object>, v: Got<Object>)
    requires n > 0 && v == ReadObject(c) && v.Got?
    ensures ReadItems(c, n, acc) == ReadItems(v.at, n - 1, acc + [v.val])
  {
  }

  lemma {:induction false} ItemsRead(ws: seq<Layout>, s: seq<Byte>, rest: seq<Byte>, acc: seq<Object>)
    requires SizedItems(ws) && LegibleItems(ws) && SpellsAll(ws, s, rest)
    ensures ReadItems(From(s), |ws|, acc) == Got(acc + ValuesOf(ws), From(rest))
    decreases ws, 0
  {
    if ws == [] {
      assert acc + ValuesOf(ws) == acc;
    } else {
      var mid :| Spells(ws[0], s, mid) && SpellsAll(ws[1..], mid, rest);
      SpelledIsRead(ws[0], s, mid);
      ItemsStep(From(s), |ws|, acc, Got(Value(ws[0]), From(mid)));
      ItemsRead(ws[1..], mid, rest, acc + [Value(ws[0])]);
      Assoc(acc, [Value(ws[0])], ValuesOf(ws[1..]));
    }
  }

  lemma FirstField(fs: seq<Field>, s: seq<Byte>, rest: seq<Byte>) returns (m1: seq<Byte>, m2: seq<Byte>)
    requires fs != [] && SpellsFields(fs, s, rest)
    ensures s == EncodeString(fs[0].name) + m1 && Spells(fs[0].val, m1, m2) && SpellsFields(fs[1..], m2, rest)
  {
    m1, m2 :| s == EncodeString(fs[0].name) + m1 && SpellsVal(fs[0], m1, m2) && SpellsFields(fs[1..], m2, rest);
  }

  lemma {:induction false} FieldsRead(fs: seq<Field>, s: seq<Byte>, rest: seq<Byte>, acc: map<Str, Object>)
    requires SizedFields(fs) && LegibleFields(fs) && SpellsFields(fs, s, rest)
    ensures ReadFields(From(s), |fs|, acc) == Got(FieldMap(fs, acc), From(rest))
    decreases fs, 0
  {
    if fs != [] {
      var f := fs[0];
      assert f decreases to f.val;
      var m1, m2 := FirstField(fs, s, rest);
      FieldRead(f, s, m1, m2, |fs|, acc);
      FieldsRead(fs[1..], m2, rest, acc[f.name := Value(f.val)]);
    }
  }

  lemma {:induction false} FieldRead(f: Field, s: seq<Byte>, m1: seq<Byte>, m2: seq<Byte>, n: nat, acc: map<Str, Object>)
    requires |f.name| <= STRING_MAX && Sized(f.val) && Legible(f.val) && n > 0
    requires s == EncodeString(f.name) + m1 && Spells(f.val, m1, m2)
    ensures ReadFields(From(s), n, acc) == ReadFields(From(m2), n - 1, acc[f.name := Value(f.val)])
    decreases f.val, 2
  {
    StringBack(f.name, m1);
    SpelledIsRead(f.val, m1, m2);
    FieldsStep(From(s), n, acc, Read(f.name, From(m1)), Got(Value(f.val), From(m2)));
  }

  lemma {:induction false} PairsRead(ps: seq<Pair>, s: seq<Byte>, rest: seq<Byte>, acc: map<Scalar, Object>)
    requires SizedPairs(ps) && LegiblePairs(ps) && SpellsPairs(ps, s, rest)
    ensures ReadRows(From(s), |ps|, acc) == Got(PairMap(ps, acc), From(rest))
    decreases ps, 0
  {
    if ps != [] {
      var p := ps[0];
      assert p decreases to p.val;
      var m1, m2 :| SpellsScalar(p.key, s, m1) && SpellsRow(p, m1, m2) && SpellsPairs(ps[1..], m2, rest);
      RowRead(p, s, m1, m2, |ps|, acc);
      PairsRead(ps[1..], m2, rest, acc[Norm(p.key) := Value(p.val)]);
    }
  }

  lemma {:induction false} RowRead(p: Pair, s: seq<Byte>, m1: seq<Byte>, m2: seq<Byte>, n: nat, acc: map<Scalar, Object>)
    requires SizedScalar(p.key) && LegibleScalar(p.key) && Sized(p.val) && Legible(p.val) && n > 0
    requires SpellsScalar(p.key, s, m1) && Spells(p.val, m1, m2)
    ensures ReadRows(From(s), n, acc) == ReadRows(From(m2), n - 1, acc[Norm(p.key) := Value(p.val)])
    decreases p.val, 2
  {
    ScalarRead(p.key, s, m1);
    SpelledIsRead(p.val, m1, m2);
    RowsStep(From(s), n, acc, Got(Plain(Norm(p.key)), From(m1)), Got(Value(p.val), From(m2)));
  }

  // ---- No others are ----

  /** w accounts for a read of v from c that left `rest` and no error. */
  ghost predicate Accounts(w: Layout, v: Object, s: seq<Byte>, rest: seq<Byte>) {
    Sized(w) && Legible(w) && Spells(w, s, rest) && Value(w) == v
  }

  ghost predicate ScalarAccounts(a: Scalar, v: Object, s: seq<Byte>, rest: seq<Byte>) {
    SizedScalar(a) && LegibleScalar(a) && SpellsScalar(a, s, rest) && v == Plain(Norm(a))
  }

  lemma ByteCanonical(tag: Byte, c: Cursor) returns (a: Scalar)
    requires !c.err && tag in {TAG_BYTE, TAG_BOOL, TAG_NULL}
    requires var r := ReadBody(tag, c); r.Got? && !r.at.err
    ensures var r := ReadBody(tag, c); ScalarAccounts(a, r.val, [tag] + c.rest, r.at.rest)
  {
    var b, rest := c.rest[0], c.rest[1..];
    assert [tag] + c.rest == [tag, b] + rest;
    a := if tag == TAG_BYTE then ByteV(b) else if tag == TAG_BOOL then BoolV(b != 0) else Nil;
  }

  lemma WordCanonical(tag: Byte, c: Cursor) returns (a: Scalar)
    requires !c.err && tag in {TAG_SHORT, TAG_INT, TAG_LONG, TAG_FLOAT}
    requires var r := ReadBody(tag, c); r.Got? && !r.at.err
    ensures var r := ReadBody(tag, c); ScalarAccounts(a, r.val, [tag] + c.rest, r.at.rest)
  {
    var n := if tag == TAG_SHORT then 2 else if tag == TAG_LONG then 8 else 4;
    var got, rest := c.rest[..n], c.rest[n..];
    assert [tag] + c.rest == ([tag] + got) + rest;
    IntegersAreBijective(got);
    ToFromLE(got);
    if tag == TAG_SHORT {
      a := ShortV(OfLE16(got));
    } else if tag == TAG_INT {
      a := Int32V(OfLE32(got));
    } else if tag == TAG_LONG {
      a := LongV(OfLE64(got));
    } else {
      a := FloatV(OfPattern32(got));
    }
  }

  lemma StringRead(c: Cursor) returns (a: Scalar)
    requires !c.err && !ReadString(c).at.err
    ensures var r := ReadString(c); ScalarAccounts(a, Plain(StringV(r.val)), [TAG_STRING] + c.rest, r.at.rest)
  {
    var r := ReadString(c);
    Exchanges.StringCanonical(c);
    a := StringV(r.val);
    Assoc([TAG_STRING], EncodeString(r.val), r.at.rest);
  }

  /** No tag but the twelve is accepted. */
  lemma KnownTag(tag: Byte, c: Cursor)
    requires ReadBody(tag, c).Got? && !ReadBody(tag, c).at.err
    ensures tag in {TAG_BYTE, TAG_BOOL, TAG_SHORT, TAG_INT, TAG_LONG, TAG_FLOAT, TAG_NULL,
                    TAG_STRING, TAG_INTS, TAG_ARRAY, TAG_MAP, TAG_HASH}
  {
  }

  lemma {:induction false} IntItemsCanonical(c: Cursor, n: nat, acc: seq<Int32>) returns (xs: seq<Int32>)
    requires !ReadIntItems(c, n, acc).at.err
    ensures var r := ReadIntItems(c, n, acc); |xs| == n && c.rest == IntsTo(xs, r.at.rest) && r.val == acc + xs
    decreases n
  {
    if n == 0 {
      xs := [];
      assert acc + xs == acc;
    } else {
      var item := ReadInt(c);
      var more := IntItemsCanonical(item.at, n - 1, acc + [item.val]);
      Exchanges.IntCanonical(c);
      xs := [item.val] + more;
      assert xs[1..] == more;
      Assoc(acc, [item.val], more);
    }
  }

  lemma IntsCanonical(c: Cursor) returns (w: Layout)
    requires var r := ReadBody(TAG_INTS, c); r.Got? && !r.at.err
    ensures var r := ReadBody(TAG_INTS, c); Accounts(w, r.val, [TAG_INTS] + c.rest, r.at.rest)
  {
    var len := ReadInt(c);
    var r := ReadIntItems(len.at, len.val, []);
    var xs := IntItemsCanonical(len.at, len.val, []);
    LengthRead(c, len);
    assert [] + xs == xs;
    w := Ints(xs);
    IntsAccounts(xs, len.val, c.rest, len.at.rest, r.at.rest);
  }

  lemma IntsAccounts(xs: seq<Int32>, n: Int32, s: seq<Byte>, mid: seq<Byte>, rest: seq<Byte>)
    requires n == |xs| && s == LE32(n) + mid && mid == IntsTo(xs, rest)
    ensures Accounts(Ints(xs), IntList(xs), [TAG_INTS] + s, rest)
  {
    TruncFits(n);
    assert [TAG_INTS] + s == [TAG_INTS] + (LE32(Trunc32(|xs|)) + mid);
  }

  lemma {:induction false} ItemsCanonical(c: Cursor, n: nat, acc: seq<Object>) returns (ws: seq<Layout>)
    requires var r := ReadItems(c, n, acc); r.Got? && !r.at.err
    ensures var r := ReadItems(c, n, acc);
            |ws| == n && SpellsAll(ws, c.rest, r.at.rest) && SizedItems(ws) && LegibleItems(ws) && r.val == acc + ValuesOf(ws)
    decreases |c.rest|, 1, n
  {
    if n == 0 {
      ws := [];
      assert acc + ValuesOf(ws) == acc;
    } else {
      var v := ReadObject(c);
      ItemsStep(c, n, acc, v);
      var w := ObjectCanonical(c);
      var more := ItemsCanonical(v.at, n - 1, acc + [v.val]);
      ws := [w] + more;
      assert ws[1..] == more;
      Assoc(acc, [v.val], ValuesOf(more));
    }
  }

  lemma FieldsGrow(f: Field, more: seq<Field>, s: seq<Byte>, m1: seq<Byte>, m2: seq<Byte>, rest: seq<Byte>)
    requires s == EncodeString(f.name) + m1 && Spells(f.val, m1, m2) && SpellsFields(more, m2, rest)
    requires |f.name| <= STRING_MAX && Sized(f.val) && Legible(f.val) && SizedFields(more) && LegibleFields(more)
    ensures var fs := [f] + more; SpellsFields(fs, s, rest) && SizedFields(fs) && LegibleFields(fs)
  {
    var fs := [f] + more;
    assert fs[0] == f && fs[1..] == more && SpellsVal(f, m1, m2);
    assert s == EncodeString(fs[0].name) + m1 && SpellsVal(fs[0], m1, m2) && SpellsFields(fs[1..], m2, rest);
  }

  lemma FieldMapStep(f: Field, more: seq<Field>, acc: map<Str, Object>)
    ensures FieldMap([f] + more, acc) == FieldMap(more, acc[f.name := Value(f.val)])
  {
    assert ([f] + more)[1..] == more;
  }

  lemma PairMapStep(p: Pair, more: seq<Pair>, acc: map<Scalar, Object>)
    ensures PairMap([p] + more, acc) == PairMap(more, acc[Norm(p.key) := Value(p.val)])
  {
    assert ([p] + more)[1..] == more;
  }

  /** One entry that is read without an error, and where the loop goes on. */
  lemma {:induction false} FieldCanonical(c: Cursor, n: nat, acc: map<Str, Object>)
    returns (f: Field, m1: seq<Byte>, m2: seq<Byte>)
    requires n > 0
    requires var r := ReadFields(c, n, acc); r.Got? && !r.at.err
    ensures ReadFields(c, n, acc) == ReadFields(From(m2), n - 1, acc[f.name := Value(f.val)]) && |m2| < |c.rest|
    ensures c.rest == EncodeString(f.name) + m1 && Spells(f.val, m1, m2)
    ensures |f.name| <= STRING_MAX && Sized(f.val) && Legible(f.val)
    decreases |c.rest|, 0
  {
    var k := ReadString(c);
    var v := ReadObject(k.at);
    FieldsStep(c, n, acc, k, v);
    Exchanges.StringCanonical(c);
    var w := ObjectCanonical(k.at);
    f, m1, m2 := Field(k.val, w), k.at.rest, v.at.rest;
    assert v.at == From(m2);
  }

  lemma {:induction false} FieldsCanonical(c: Cursor, n: nat, acc: map<Str, Object>) returns (fs: seq<Field>)
    requires var r := ReadFields(c, n, acc); r.Got? && !r.at.err
    ensures var r := ReadFields(c, n, acc);
            |fs| == n && SpellsFields(fs, c.rest, r.at.rest) && SizedFields(fs) && LegibleFields(fs) && r.val == FieldMap(fs, acc)
    decreases |c.rest|, 1, n
  {
    if n == 0 {
      fs := [];
    } else {
      var f, m1, m2 := FieldCanonical(c, n, acc);
      var acc' := acc[f.name := Value(f.val)];
      var more := FieldsCanonical(From(m2), n - 1, acc');
      fs := [f] + more;
      FieldsGrow(f, more, c.rest, m1, m2, ReadFields(From(m2), n - 1, acc').at.rest);
      FieldMapStep(f, more, acc);
    }
  }

  lemma RowsGrow(p: Pair, more: seq<Pair>, s: seq<Byte>, m1: seq<Byte>, m2: seq<Byte>, rest: seq<Byte>)
    requires SpellsScalar(p.key, s, m1) && Spells(p.val, m1, m2) && SpellsPairs(more, m2, rest)
    requires SizedScalar(p.key) && LegibleScalar(p.key) && Sized(p.val) && Legible(p.val) && SizedPairs(more) && LegiblePairs(more)
    ensures var ps := [p] + more; SpellsPairs(ps, s, rest) && SizedPairs(ps) && LegiblePairs(ps)
  {
    var ps := [p] + more;
    assert ps[0] == p && ps[1..] == more && SpellsRow(p, m1, m2);
    assert SpellsScalar(ps[0].key, s, m1) && SpellsRow(ps[0], m1, m2) && SpellsPairs(ps[1..], m2, rest);
  }

  /** What can be a key is a scalar, and was read from its bytes. */
  lemma KeyIsScalar(w: Layout, v: Object, s: seq<Byte>, rest: seq<Byte>)
    requires Accounts(w, v, s, rest) && v.Plain?
    ensures w.Atom? && ScalarAccounts(w.s, v, s, rest)
  {
  }

  lemma {:induction false} RowCanonical(c: Cursor, n: nat, acc: map<Scalar, Object>)
    returns (p: Pair, m1: seq<Byte>, m2: seq<Byte>)
    requires n > 0
    requires var r := ReadRows(c, n, acc); r.Got? && !r.at.err
    ensures ReadRows(c, n, acc) == ReadRows(From(m2), n - 1, acc[Norm(p.key) := Value(p.val)]) && |m2| < |c.rest|
    ensures SpellsScalar(p.key, c.rest, m1) && Spells(p.val, m1, m2)
    ensures SizedScalar(p.key) && LegibleScalar(p.key) && Sized(p.val) && Legible(p.val)
    decreases |c.rest|, 1, 0
  {
    var k := ReadObject(c);
    var v := ReadObject(k.at);
    RowsStep(c, n, acc, k, v);
    var key := ObjectCanonical(c);
    KeyIsScalar(key, k.val, c.rest, k.at.rest);
    var w := ObjectCanonical(k.at);
    p, m1, m2 := Pair(key.s, w), k.at.rest, v.at.rest;
    assert v.at == From(m2);
  }

  lemma {:induction false} RowsCanonical(c: Cursor, n: nat, acc: map<Scalar, Object>) returns (ps: seq<Pair>)
    requires var r := ReadRows(c, n, acc); r.Got? && !r.at.err
    ensures var r := ReadRows(c, n, acc);
            |ps| == n && SpellsPairs(ps, c.rest, r.at.rest) && SizedPairs(ps) && LegiblePairs(ps) && r.val == PairMap(ps, acc)
    decreases |c.rest|, 2, n
  {
    if n == 0 {
      ps := [];
    } else {
      var p, m1, m2 := RowCanonical(c, n, acc);
      var acc' := acc[Norm(p.key) := Value(p.val)];
      var more := RowsCanonical(From(m2), n - 1, acc');
      ps := [p] + more;
      RowsGrow(p, more, c.rest, m1, m2, ReadRows(From(m2), n - 1, acc').at.rest);
      PairMapStep(p, more, acc);
    }
  }

  lemma {:induction false} ArrayCanonical(c: Cursor) returns (w: Layout)
    requires var r := ReadBody(TAG_ARRAY, c); r.Got? && !r.at.err
    ensures var r := ReadBody(TAG_ARRAY, c); Accounts(w, r.val, [TAG_ARRAY] + c.rest, r.at.rest)
    decreases |c.rest|, 2
  {
    var len := ReadInt(c);
    var ws := ItemsCanonical(len.at, len.val, []);
    LengthRead(c, len);
    assert [] + ValuesOf(ws) == ValuesOf(ws);
    var r := ReadItems(len.at, len.val, []);
    w := Array(ws);
    ArrayAccounts(ws, len.val, c.rest, len.at.rest, r.at.rest);
  }

  lemma ArrayAccounts(ws: seq<Layout>, n: Int32, s: seq<Byte>, mid: seq<Byte>, rest: seq<Byte>)
    requires n == |ws| && s == LE32(n) + mid && SpellsAll(ws, mid, rest) && SizedItems(ws) && LegibleItems(ws)
    ensures Accounts(Array(ws), List(ValuesOf(ws)), [TAG_ARRAY] + s, rest)
  {
    TruncFits(n);
    assert [TAG_ARRAY] + s == [TAG_ARRAY] + (LE32(Trunc32(|ws|)) + mid);
  }

  lemma LengthRead(c: Cursor, len: Read<Int32>)
    requires len == ReadInt(c) && !len.at.err
    ensures c.rest == LE32(len.val) + len.at.rest
  {
    Exchanges.IntCanonical(c);
  }

  lemma {:induction false} MapCanonical(c: Cursor) returns (w: Layout)
    requires var r := ReadBody(TAG_MAP, c); r.Got? && !r.at.err
    ensures var r := ReadBody(TAG_MAP, c); Accounts(w, r.val, [TAG_MAP] + c.rest, r.at.rest)
    decreases |c.rest|, 2
  {
    var len := ReadInt(c);
    var n := Count(len.val);
    if len.at.err { FieldsAfterError(len.at, n, map[]); }
    var fs := FieldsCanonical(len.at, n, map[]);
    LengthRead(c, len);
    w := Map(fs);
  }

  lemma {:induction false} HashCanonical(c: Cursor) returns (w: Layout)
    requires var r := ReadBody(TAG_HASH, c); r.Got? && !r.at.err
    ensures var r := ReadBody(TAG_HASH, c); Accounts(w, r.val, [TAG_HASH] + c.rest, r.at.rest)
    decreases |c.rest|, 2
  {
    var len := ReadInt(c);
    var n := Count(len.val);
    if len.at.err { RowsAfterError(len.at, n, map[]); }
    var ps := RowsCanonical(len.at, n, map[]);
    LengthRead(c, len);
    w := Hash(ps);
  }

  lemma {:induction false} BodyCanonical(tag: Byte, c: Cursor) returns (w: Layout)
    requires !c.err
    requires var r := ReadBody(tag, c); r.Got? && !r.at.err
    ensures var r := ReadBody(tag, c); Accounts(w, r.val, [tag] + c.rest, r.at.rest)
    decreases |c.rest|, 3
  {
    KnownTag(tag, c);
    if tag == TAG_INTS {
      w := IntsCanonical(c);
    } else if tag == TAG_ARRAY {
      w := ArrayCanonical(c);
    } else if tag == TAG_MAP {
      w := MapCanonical(c);
    } else if tag == TAG_HASH {
      w := HashCanonical(c);
    } else if tag == TAG_STRING {
      var a := StringRead(c);
      w := Atom(a);
    } else if tag in {TAG_BYTE, TAG_BOOL, TAG_NULL} {
      var a := ByteCanonical(tag, c);
      w := Atom(a);
    } else {
      var a := WordCanonical(tag, c);
      w := Atom(a);
    }
  }

  lemma {:induction false} ObjectCanonical(c: Cursor) returns (w: Layout)
    requires var r := ReadObject(c); r.Got? && !r.at.err
    ensures var r := ReadObject(c); Accounts(w, r.val, c.rest, r.at.rest)
    decreases |c.rest|, 0
  {
    var tag := ReadByte(c);
    assert c.rest == [tag.val] + tag.at.rest;
    w := BodyCanonical(tag.val, tag.at);
  }

  /** Exactly what is accepted. Reading s gives v and leaves `rest`, without an error,
      if and only if some layout whose strings are all short enough stands for v and s is
      its bytes in front of the rest, up to the byte of a true and a negative length of
      an empty map or hash. */
  lemma AcceptedIff(s: seq<Byte>, v: Object, rest: seq<Byte>)
    ensures ReadObject(Cursor(s, false)) == Got(v, Cursor(rest, false)) <==> exists w :: Accounts(w, v, s, rest)
  {
    if ReadObject(Cursor(s, false)) == Got(v, Cursor(rest, false)) {
      var w := ObjectCanonical(Cursor(s, false));
    }
    if w :| Accounts(w, v, s, rest) {
      SpelledIsRead(w, s, rest);
    }
  }

  // ---- On the wire ----

  /** The first byte of each kind of scalar. */
  lemma WireTags(a: Scalar)
    ensures EncodeScalar(a)[0] ==
            match a
            case Nil => 78
            case ByteV(_) => 98
            case BoolV(_) => 66
            case ShortV(_) => 116
            case IntV(_) => 105
            case Int32V(_) => 105
            case LongV(_) => 108
            case StringV(_) => 115
            case FloatV(_) => 102
  {
  }

  /** And of each kind of composite. */
  lemma WireCompositeTags(w: Layout)
    ensures w.Ints? ==> Encode(w)[0] == 73
    ensures w.Array? ==> Encode(w)[0] == 65
    ensures w.Map? ==> Encode(w)[0] == 77
    ensures w.Hash? ==> Encode(w)[0] == 72
  {
  }

  /** Integers are written in two's complement, the low byte first. */
  lemma LittleEndian(x: Int16, y: Int32, a: Byte, b: Byte, c: Byte, d: Byte)
    requires y == a + 0x100 * b + 0x1_0000 * c + 0x100_0000 * d - (if d >= 128 then 0x1_0000_0000 else 0)
    requires x == a + 0x100 * b - (if b >= 128 then 0x1_0000 else 0)
    ensures LE16(x) == [a, b] && LE32(y) == [a, b, c, d]
  {
    LowFirst(a + 0x100 * b, a, b);
    var u := a + 0x100 * (b + 0x100 * (c + 0x100 * d));
    BytesOf(u, a, b + 0x100 * (c + 0x100 * d), 4);
    BytesOf(b + 0x100 * (c + 0x100 * d), b, c + 0x100 * d, 3);
    LowFirst(c + 0x100 * d, c, d);
    assert Pattern(y, 0x1_0000_0000) == u;
    assert [a] + ([b] + [c, d]) == [a, b, c, d];
  }

  lemma LowFirst(u: nat, a: Byte, b: Byte)
    requires u == a + 0x100 * b
    ensures ToLE(u, 2) == [a, b]
  {
    BytesOf(u, a, b, 2);
    BytesOf(b, b, 0, 1);
  }

  lemma BytesOf(u: nat, a: Byte, v: nat, n: nat)
    requires n > 0 && u == a + 0x100 * v
    ensures ToLE(u, n) == [a] + ToLE(v, n - 1)
  {
    assert u % 256 == a && u / 256 == v;
  }

  // ---- Errors and panics ----

  /** An unknown tag, custom types aside, is an error, and nothing behind it is read. */
  lemma UnknownTag(tag: Byte, rest: seq<Byte>)
    requires tag !in {98, 66, 116, 105, 108, 115, 102, 73, 65, 77, 72, 78}
    ensures ReadObject(Cursor([tag] + rest, false)) == Got(Plain(Nil), Cursor(rest, true))
  {
    TagBack(tag, rest);
  }

  /** nil, 0, false, or the empty string, slice or map. */
  predicate IsZero(v: Object) {
    match v
    case Plain(s) =>
      s in {Nil, ByteV(0), BoolV(false), ShortV(0), IntV(0), Int32V(0), LongV(0), StringV([]), FloatV(0)}
    case IntList(xs) => xs == []
    case List(items) => items == []
    case Record(fields) => fields == map[]
    case Table(rows) => rows == map[]
  }

  /** After an error a caller gets no part of what was read. */
  lemma ErrorGivesZero(c: Cursor)
    ensures var r := ReadObject(c); r.Got? && r.at.err ==> IsZero(r.val)
  {
  }

  /** A slice with a negative length, or a hash with something in it that could be a key
      and is no scalar. */
  ghost predicate Offends(d: seq<Byte>) {
    d != [] &&
    ((d[0] in {73, 65} && |d| >= 5 && OfLE32(d[1..][..4]) < 0) ||
     (d[0] == 72 && HasComposite(d[1..])))
  }

  ghost predicate HasComposite(s: seq<Byte>) {
    exists e :: Suffix(s, e) && e != [] && e[0] in {73, 65, 77, 72}
  }

  ghost predicate HasOffence(s: seq<Byte>) {
    exists d :: Suffix(s, d) && Offends(d)
  }

  lemma OffenceBehind(s: seq<Byte>, t: seq<Byte>)
    requires Suffix(s, t)
    ensures HasOffence(t) ==> HasOffence(s)
    ensures HasComposite(t) ==> HasComposite(s)
  {
    if d :| Suffix(t, d) && Offends(d) { SuffixTrans(s, t, d); }
    if e :| Suffix(t, e) && e != [] && e[0] in {73, 65, 77, 72} { SuffixTrans(s, t, e); }
  }

  lemma {:induction false} ItemsPanic(c: Cursor, n: nat, acc: seq<Object>)
    requires ReadItems(c, n, acc).Panic?
    ensures HasOffence(c.rest)
    decreases |c.rest|, 1, n
  {
    var v := ReadObject(c);
    if v.Panic? {
      ObjectPanic(c);
    } else {
      ObjectSuffix(c);
      ItemsPanic(v.at, n - 1, acc + [v.val]);
      OffenceBehind(c.rest, v.at.rest);
    }
  }

  lemma {:induction false} FieldsPanic(c: Cursor, n: nat, acc: map<Str, Object>)
    requires ReadFields(c, n, acc).Panic?
    ensures HasOffence(c.rest)
    decreases |c.rest|, 1, n
  {
    var k := ReadString(c);
    var v := ReadObject(k.at);
    StringSuffix(c);
    OffenceBehind(c.rest, k.at.rest);
    if v.Panic? {
      ObjectPanic(k.at);
    } else {
      ObjectSuffix(k.at);
      FieldsPanic(v.at, n - 1, acc[k.val := v.val]);
      OffenceBehind(k.at.rest, v.at.rest);
    }
  }

  lemma ScalarTag(tag: Byte, c: Cursor)
    requires tag !in {73, 65, 77, 72}
    ensures ReadBody(tag, c).Got? && ReadBody(tag, c).val.Plain?
  {
  }

  lemma CompositeTag(c: Cursor)
    requires ReadObject(c).Got? && !ReadObject(c).val.Plain?
    ensures HasComposite(c.rest)
  {
    var tag := ReadByte(c);
    if tag.val !in {73, 65, 77, 72} { ScalarTag(tag.val, tag.at); }
    assert Suffix(c.rest, c.rest) && c.rest[0] == tag.val;
  }

  lemma {:induction false} RowsPanic(c: Cursor, n: nat, acc: map<Scalar, Object>)
    requires ReadRows(c, n, acc).Panic?
    ensures HasOffence(c.rest) || HasComposite(c.rest)
    decreases |c.rest|, 1, n
  {
    var k := ReadObject(c);
    if k.Panic? {
      ObjectPanic(c);
    } else {
      var v := ReadObject(k.at);
      ObjectSuffix(c);
      OffenceBehind(c.rest, k.at.rest);
      if v.Panic? {
        ObjectPanic(k.at);
      } else if !k.val.Plain? {
        CompositeTag(c);
      } else {
        ObjectSuffix(k.at);
        OffenceBehind(k.at.rest, v.at.rest);
        RowsPanic(v.at, n - 1, acc[k.val.s := v.val]);
      }
    }
  }

  lemma {:induction false} BodyPanic(tag: Byte, c: Cursor)
    requires ReadBody(tag, c).Panic?
    ensures HasOffence([tag] + c.rest)
    decreases |c.rest|, 2
  {
    var s, len := [tag] + c.rest, ReadInt(c);
    assert s[1..] == c.rest && Suffix(s, s) && Suffix(s[1..], c.rest);
    TakeSuffix(c, 4);
    OffenceBehind(s, c.rest);
    OffenceBehind(c.rest, len.at.rest);
    if tag == TAG_INTS || tag == TAG_ARRAY {
      if len.val < 0 {
        assert Offends(s);
      } else if tag == TAG_ARRAY {
        ItemsPanic(len.at, len.val, []);
      }
    } else if tag == TAG_MAP {
      FieldsPanic(len.at, Count(len.val), map[]);
    } else if tag == TAG_HASH {
      RowsPanic(len.at, Count(len.val), map[]);
      if HasComposite(c.rest) { assert Offends(s); }
    }
  }

  /** Reading panics on no other input. */
  lemma {:induction false} ObjectPanic(c: Cursor)
    requires ReadObject(c).Panic?
    ensures HasOffence(c.rest)
    decreases |c.rest|, 0
  {
    var tag := ReadByte(c);
    assert c.rest == [tag.val] + tag.at.rest;
    BodyPanic(tag.val, tag.at);
  }
}
