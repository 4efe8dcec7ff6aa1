/** The dynamically typed values that utils/buffutil writes and reads.

    A Layout is a value as WriteObject meets it: the entries of a Go map come in
    the order in which one `range` over that map happens to visit them. An
    Object is a value as ReadObject builds it, with real maps. */
module Values {
  import opened Bytes

  /** The hashable values; exactly these can be keys of a map[interface{}]interface{}. */
  datatype Scalar =
    | Nil
    | ByteV(b: Byte)
    | BoolV(v: bool)
    | ShortV(i16: Int16)
    | IntV(i: Int64)       // Go's int
    | Int32V(i32: Int32)
    | LongV(i64: Int64)
    | StringV(s: Str)
    | FloatV(bits: UInt32) // the IEEE 754 pattern of a float32

  datatype Field = Field(name: Str, val: Layout)
  datatype Pair = Pair(key: Scalar, val: Layout)

  datatype Layout =
    | Atom(s: Scalar)
    | Ints(xs: seq<Int32>)
    | Array(items: seq<Layout>)
    | Map(fields: seq<Field>)
    | Hash(pairs: seq<Pair>)

  datatype Object =
    | Plain(s: Scalar)
    | IntList(xs: seq<Int32>)
    | List(items: seq<Object>)
    | Record(fields: map<Str, Object>)
    | Table(rows: map<Scalar, Object>)

  /** An int travels as an int32 and comes back as one. */
  function Norm(s: Scalar): Scalar {
    if s.IntV? then Int32V(Trunc32(s.i)) else s
  }

  /** The object a layout stands for, up to the int-to-int32 normalisation. */
  function Value(w: Layout): Object {
    match w
    case Atom(s) => Plain(Norm(s))
    case Ints(xs) => IntList(xs)
    case Array(items) => List(ValuesOf(items))
    case Map(fields) => Record(FieldMap(fields, map[]))
    case Hash(pairs) => Table(PairMap(pairs, map[]))
  }

  function ValuesOf(ws: seq<Layout>): (os: seq<Object>)
    ensures |os| == |ws|
  {
    if ws == [] then [] else [Value(ws[0])] + ValuesOf(ws[1..])
  }

  /** acc with every field put into it in turn, as Map[k] = v would. */
  function FieldMap(fs: seq<Field>, acc: map<Str, Object>): map<Str, Object>
    decreases fs
  {
    if fs == [] then acc else FieldMap(fs[1..], acc[fs[0].name := Value(fs[0].val)])
  }

  function PairMap(ps: seq<Pair>, acc: map<Scalar, Object>): map<Scalar, Object>
    decreases ps
  {
    if ps == [] then
      acc
    else
      var p := ps[0];
      assert p decreases to p.val;
      assert ps decreases to p;
      PairMap(ps[1..], acc[Norm(p.key) := Value(p.val)])
  }

  // ---- Which layouts are Go values, and which of them can be read back ----

  /** Every length fits the int32 that is written in front of it. */
  predicate SizedScalar(s: Scalar) {
    s.StringV? ==> |s.s| < 0x8000_0000
  }

  predicate Sized(w: Layout) {
    match w
    case Atom(s) => SizedScalar(s)
    case Ints(xs) => |xs| < 0x8000_0000
    case Array(items) => |items| < 0x8000_0000 && SizedItems(items)
    case Map(fields) => |fields| < 0x8000_0000 && SizedFields(fields)
    case Hash(pairs) => |pairs| < 0x8000_0000 && SizedPairs(pairs)
  }

  predicate SizedItems(ws: seq<Layout>) {
    ws == [] || (Sized(ws[0]) && SizedItems(ws[1..]))
  }

  predicate SizedFields(fs: seq<Field>) {
    fs == [] || (|fs[0].name| < 0x8000_0000 && Sized(fs[0].val) && SizedFields(fs[1..]))
  }

  predicate SizedPairs(ps: seq<Pair>) {
    ps == [] ||
    var p := ps[0];
    assert p decreases to p.val;
    SizedScalar(p.key) && Sized(p.val) && SizedPairs(ps[1..])
  }

  const STRING_MAX := 10240

  predicate LegibleScalar(s: Scalar) {
    s.StringV? ==> |s.s| <= STRING_MAX
  }

  /** No string anywhere, keys included, exceeds the reader's limit. */
  predicate Legible(w: Layout) {
    match w
    case Atom(s) => LegibleScalar(s)
    case Ints(_) => true
    case Array(items) => LegibleItems(items)
    case Map(fields) => LegibleFields(fields)
    case Hash(pairs) => LegiblePairs(pairs)
  }

  predicate LegibleItems(ws: seq<Layout>) {
    ws == [] || (Legible(ws[0]) && LegibleItems(ws[1..]))
  }

  predicate LegibleFields(fs: seq<Field>) {
    fs == [] || (|fs[0].name| <= STRING_MAX && Legible(fs[0].val) && LegibleFields(fs[1..]))
  }

  predicate LegiblePairs(ps: seq<Pair>) {
    ps == [] ||
    var p := ps[0];
    assert p decreases to p.val;
    LegibleScalar(p.key) && Legible(p.val) && LegiblePairs(ps[1..])
  }
}
