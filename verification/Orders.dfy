/** The order in which a Go map is iterated: for which values it cannot be seen, at
    any depth, in what is read back. */
module Orders {
  import opened Bytes
  import opened Values
  import opened Buffers
  import opened Reading
  import CodecLaws

  // ---- One map ----

  ghost predicate DistinctNames(fs: seq<Field>) {
    forall i, j | 0 <= i < j < |fs| :: fs[i].name != fs[j].name
  }

  /** Keys that the int-to-int32 normalisation makes equal, as int 5 and int32 5, have
      equal values. */
  ghost predicate MergesAgree(ps: seq<Pair>) {
    forall p, q | p in ps && q in ps && Norm(p.key) == Norm(q.key) :: Value(p.val) == Value(q.val)
  }

  lemma {:induction false} FieldMapElsewhere(fs: seq<Field>, acc: map<Str, Object>, k: Str)
    requires forall f | f in fs :: f.name != k
    ensures k in FieldMap(fs, acc) <==> k in acc
    ensures k in acc ==> FieldMap(fs, acc)[k] == acc[k]
  {
    if fs != [] {
      assert fs[0] in fs;
      FieldMapElsewhere(fs[1..], acc[fs[0].name := Value(fs[0].val)], k);
    }
  }

  lemma {:induction false} FieldMapAt(fs: seq<Field>, acc: map<Str, Object>, i: nat)
    requires DistinctNames(fs) && i < |fs|
    ensures fs[i].name in FieldMap(fs, acc) && FieldMap(fs, acc)[fs[i].name] == Value(fs[i].val)
  {
    var acc' := acc[fs[0].name := Value(fs[0].val)];
    if i == 0 {
      FieldMapElsewhere(fs[1..], acc', fs[0].name);
    } else {
      FieldMapAt(fs[1..], acc', i - 1);
    }
  }

  lemma {:induction false} PairMapElsewhere(ps: seq<Pair>, acc: map<Scalar, Object>, k: Scalar)
    requires forall p | p in ps :: Norm(p.key) != k
    ensures k in PairMap(ps, acc) <==> k in acc
    ensures k in acc ==> PairMap(ps, acc)[k] == acc[k]
  {
    if ps != [] {
      assert ps[0] in ps;
      PairMapElsewhere(ps[1..], acc[Norm(ps[0].key) := Value(ps[0].val)], k);
    }
  }

  lemma {:induction false} PairMapAt(ps: seq<Pair>, acc: map<Scalar, Object>, p: Pair)
    requires MergesAgree(ps) && p in ps
    ensures Norm(p.key) in PairMap(ps, acc) && PairMap(ps, acc)[Norm(p.key)] == Value(p.val)
  {
    var rest := ps[1..];
    var acc' := acc[Norm(ps[0].key) := Value(ps[0].val)];
    assert forall q | q in rest :: q in ps;
    if q :| q in rest && Norm(q.key) == Norm(p.key) {
      PairMapAt(rest, acc', q);
    } else {
      PairMapElsewhere(rest, acc', Norm(p.key));
    }
  }

  /** The last entry of a key is the one that stays. */
  lemma {:induction false} PairMapSnoc(ps: seq<Pair>, acc: map<Scalar, Object>, p: Pair)
    ensures PairMap(ps + [p], acc) == PairMap(ps, acc)[Norm(p.key) := Value(p.val)]
  {
    if ps == [] {
      var one := [p];
      assert ps + [p] == one && one[1..] == [];
    } else {
      PairMapSnoc(ps[1..], acc[Norm(ps[0].key) := Value(ps[0].val)], p);
      assert (ps + [p])[1..] == ps[1..] + [p];
    }
  }

  /** Some field of gs has this one's name and value. */
  ghost predicate FieldIn(f: Field, gs: seq<Field>) {
    exists j :: 0 <= j < |gs| && gs[j].name == f.name && Value(gs[j].val) == Value(f.val)
  }

  ghost predicate FieldsIn(fs: seq<Field>, gs: seq<Field>) {
    forall i {:trigger FieldIn(fs[i], gs)} | 0 <= i < |fs| :: FieldIn(fs[i], gs)
  }

  ghost predicate PairIn(p: Pair, qs: seq<Pair>) {
    exists j :: 0 <= j < |qs| && Norm(qs[j].key) == Norm(p.key) && Value(qs[j].val) == Value(p.val)
  }

  ghost predicate PairsIn(ps: seq<Pair>, qs: seq<Pair>) {
    forall i {:trigger PairIn(ps[i], qs)} | 0 <= i < |ps| :: PairIn(ps[i], qs)
  }

  lemma FieldSubmap(fs: seq<Field>, gs: seq<Field>, k: Str)
    requires DistinctNames(fs) && DistinctNames(gs) && FieldsIn(fs, gs) && k in FieldMap(fs, map[])
    ensures k in FieldMap(gs, map[]) && FieldMap(gs, map[])[k] == FieldMap(fs, map[])[k]
  {
    if i :| 0 <= i < |fs| && fs[i].name == k {
      assert FieldIn(fs[i], gs);
      var j :| 0 <= j < |gs| && gs[j].name == k && Value(gs[j].val) == Value(fs[i].val);
      FieldMapAt(fs, map[], i);
      FieldMapAt(gs, map[], j);
    } else {
      FieldMapElsewhere(fs, map[], k);
    }
  }

  lemma PairSubmap(ps: seq<Pair>, qs: seq<Pair>, k: Scalar)
    requires MergesAgree(ps) && MergesAgree(qs) && PairsIn(ps, qs) && k in PairMap(ps, map[])
    ensures k in PairMap(qs, map[]) && PairMap(qs, map[])[k] == PairMap(ps, map[])[k]
  {
    if i :| 0 <= i < |ps| && Norm(ps[i].key) == k {
      assert PairIn(ps[i], qs);
      var j :| 0 <= j < |qs| && Norm(qs[j].key) == k && Value(qs[j].val) == Value(ps[i].val);
      PairMapAt(ps, map[], ps[i]);
      PairMapAt(qs, map[], qs[j]);
    } else {
      PairMapElsewhere(ps, map[], k);
    }
  }

  /** Two layouts of a map[string]interface{} stand for one object iff their entries
      match, in whatever order. */
  lemma FieldOrderIrrelevant(fs: seq<Field>, gs: seq<Field>)
    requires DistinctNames(fs) && DistinctNames(gs)
    ensures Value(Map(fs)) == Value(Map(gs)) <==> FieldsIn(fs, gs) && FieldsIn(gs, fs)
  {
    var a, b := FieldMap(fs, map[]), FieldMap(gs, map[]);
    if FieldsIn(fs, gs) && FieldsIn(gs, fs) {
      forall k | k in a ensures k in b && a[k] == b[k] { FieldSubmap(fs, gs, k); }
      forall k | k in b ensures k in a { FieldSubmap(gs, fs, k); }
      assert a == b;
    }
    if a == b {
      FieldsOfEqual(fs, gs);
      FieldsOfEqual(gs, fs);
    }
  }

  lemma FieldsOfEqual(fs: seq<Field>, gs: seq<Field>)
    requires DistinctNames(fs) && DistinctNames(gs) && FieldMap(fs, map[]) == FieldMap(gs, map[])
    ensures FieldsIn(fs, gs)
  {
    forall i | 0 <= i < |fs| ensures FieldIn(fs[i], gs) {
      FieldMapAt(fs, map[], i);
      if j :| 0 <= j < |gs| && gs[j].name == fs[i].name {
        FieldMapAt(gs, map[], j);
      } else {
        FieldMapElsewhere(gs, map[], fs[i].name);
      }
    }
  }

  /** The same for a map[interface{}]interface{}. */
  lemma PairOrderIrrelevant(ps: seq<Pair>, qs: seq<Pair>)
    requires MergesAgree(ps) && MergesAgree(qs)
    ensures Value(Hash(ps)) == Value(Hash(qs)) <==> PairsIn(ps, qs) && PairsIn(qs, ps)
  {
    var a, b := PairMap(ps, map[]), PairMap(qs, map[]);
    if PairsIn(ps, qs) && PairsIn(qs, ps) {
      forall k | k in a ensures k in b && a[k] == b[k] { PairSubmap(ps, qs, k); }
      forall k | k in b ensures k in a { PairSubmap(qs, ps, k); }
      assert a == b;
    }
    if a == b {
      PairsOfEqual(ps, qs);
      PairsOfEqual(qs, ps);
    }
  }

  lemma PairsOfEqual(ps: seq<Pair>, qs: seq<Pair>)
    requires MergesAgree(ps) && MergesAgree(qs) && PairMap(ps, map[]) == PairMap(qs, map[])
    ensures PairsIn(ps, qs)
  {
    forall i | 0 <= i < |ps| ensures PairIn(ps[i], qs) {
      PairMapAt(ps, map[], ps[i]);
      if j :| 0 <= j < |qs| && Norm(qs[j].key) == Norm(ps[i].key) {
        PairMapAt(qs, map[], qs[j]);
      } else {
        PairMapElsewhere(qs, map[], Norm(ps[i].key));
      }
    }
  }

  // ---- When the order shows ----

  lemma SameMembers(ps: seq<Pair>, qs: seq<Pair>)
    requires multiset(ps) == multiset(qs)
    ensures forall p :: p in ps <==> p in qs
  {
    assert forall p :: p in ps <==> p in multiset(ps);
    assert forall p :: p in qs <==> p in multiset(qs);
  }

  lemma MembersIn(ps: seq<Pair>, qs: seq<Pair>)
    requires forall p | p in ps :: p in qs
    ensures PairsIn(ps, qs)
  {
    forall i | 0 <= i < |ps| ensures PairIn(ps[i], qs) {
      assert ps[i] in qs;
    }
  }

  function MovedLast(ps: seq<Pair>, i: nat): seq<Pair>
    requires i < |ps|
  {
    ps[..i] + ps[i + 1..] + [ps[i]]
  }

  lemma MovedLastSame(ps: seq<Pair>, i: nat)
    requires i < |ps|
    ensures multiset(MovedLast(ps, i)) == multiset(ps)
    ensures var m := PairMap(MovedLast(ps, i), map[]);
            Norm(ps[i].key) in m && m[Norm(ps[i].key)] == Value(ps[i].val)
  {
    assert ps == ps[..i] + [ps[i]] + ps[i + 1..];
    PairMapSnoc(ps[..i] + ps[i + 1..], map[], ps[i]);
  }

  /** All iteration orders of a hash stand for one object exactly when the entries
      whose keys are merged have equal values. */
  lemma OrderUnseenIff(ps: seq<Pair>)
    ensures (forall qs | multiset(qs) == multiset(ps) :: Value(Hash(qs)) == Value(Hash(ps))) <==> MergesAgree(ps)
  {
    if MergesAgree(ps) {
      forall qs | multiset(qs) == multiset(ps) ensures Value(Hash(qs)) == Value(Hash(ps)) {
        SameMembers(ps, qs);
        assert MergesAgree(qs);
        MembersIn(ps, qs);
        MembersIn(qs, ps);
        PairOrderIrrelevant(ps, qs);
      }
    } else {
      var p, q :| p in ps && q in ps && Norm(p.key) == Norm(q.key) && Value(p.val) != Value(q.val);
      var i :| 0 <= i < |ps| && ps[i] == p;
      var j :| 0 <= j < |ps| && ps[j] == q;
      MovedLastSame(ps, i);
      MovedLastSame(ps, j);
      assert Value(Hash(MovedLast(ps, i))) != Value(Hash(MovedLast(ps, j)));
    }
  }

  /** Go maps in which they have not: int 5 and int32 5 are two keys. */
  lemma MergedKeysDependOnOrder()
    ensures var ps := [Pair(IntV(5), Atom(BoolV(true))), Pair(Int32V(5), Atom(BoolV(false)))];
            ps[0].key != ps[1].key && !MergesAgree(ps)
  {
    var ps := [Pair(IntV(5), Atom(BoolV(true))), Pair(Int32V(5), Atom(BoolV(false)))];
    assert ps[0] in ps && ps[1] in ps;
  }

  // ---- At every depth ----

  /** Entry for entry, at every depth, w has what v has, in whatever order: atoms and
      keys are the same up to normalisation, and merged entries count once. */
  ghost predicate Reordered(v: Layout, w: Layout)
    decreases v, 2
  {
    match v
    case Atom(s) => w.Atom? && Norm(w.s) == Norm(s)
    case Ints(_) => w == v
    case Array(items) =>
      w.Array? && |w.items| == |items| && forall i | 0 <= i < |items| :: Reordered(items[i], w.items[i])
    case Map(fs) =>
      w.Map? && DistinctNames(fs) && DistinctNames(w.fields) &&
      (forall i {:trigger FieldBefore(fs[i], w.fields)} | 0 <= i < |fs| :: FieldBefore(fs[i], w.fields)) &&
      (forall j {:trigger FieldAfter(fs, w.fields[j])} | 0 <= j < |w.fields| :: FieldAfter(fs, w.fields[j]))
    case Hash(ps) =>
      w.Hash? && MergesAgree(ps) && MergesAgree(w.pairs) &&
      (forall i {:trigger PairBefore(ps[i], w.pairs)} | 0 <= i < |ps| :: PairBefore(ps[i], w.pairs)) &&
      (forall j {:trigger PairAfter(ps, w.pairs[j])} | 0 <= j < |w.pairs| :: PairAfter(ps, w.pairs[j]))
  }

  /** Some field of gs is f reordered. */
  ghost predicate FieldBefore(f: Field, gs: seq<Field>)
    decreases f, 1
  {
    exists j :: 0 <= j < |gs| && gs[j].name == f.name && Reordered(f.val, gs[j].val)
  }

  /** g is some field of fs reordered. */
  ghost predicate FieldAfter(fs: seq<Field>, g: Field)
    decreases fs, 1
  {
    exists i :: 0 <= i < |fs| && g.name == fs[i].name && Reordered(fs[i].val, g.val)
  }

  ghost predicate PairBefore(p: Pair, qs: seq<Pair>)
    decreases p, 1
  {
    exists j :: 0 <= j < |qs| && Norm(qs[j].key) == Norm(p.key) && Reordered(p.val, qs[j].val)
  }

  ghost predicate PairAfter(ps: seq<Pair>, q: Pair)
    decreases ps, 1
  {
    exists i :: 0 <= i < |ps| && Norm(q.key) == Norm(ps[i].key) &&
                (var p := ps[i]; assert p decreases to p.val; Reordered(p.val, q.val))
  }

  /** At every depth, map names differ and merged hash keys have equal values. */
  ghost predicate Proper(v: Layout)
    decreases v
  {
    match v
    case Atom(_) => true
    case Ints(_) => true
    case Array(items) => forall i | 0 <= i < |items| :: Proper(items[i])
    case Map(fs) => DistinctNames(fs) && forall i | 0 <= i < |fs| :: Proper(fs[i].val)
    case Hash(ps) => MergesAgree(ps) && forall i | 0 <= i < |ps| :: Proper(ps[i].val)
  }

  lemma {:induction false} ValuesOfAt(ws: seq<Layout>, i: nat)
    requires i < |ws|
    ensures ValuesOf(ws)[i] == Value(ws[i])
  {
    if i > 0 {
      ValuesOfAt(ws[1..], i - 1);
    }
  }

  lemma {:induction false} ReorderedSame(v: Layout, w: Layout)
    requires Reordered(v, w)
    ensures Value(v) == Value(w)
    decreases v, 1
  {
    match v
    case Atom(_) =>
    case Ints(_) =>
    case Array(items) =>
      forall i | 0 <= i < |items| ensures ValuesOf(items)[i] == ValuesOf(w.items)[i] {
        ReorderedSame(items[i], w.items[i]);
        ValuesOfAt(items, i);
        ValuesOfAt(w.items, i);
      }
    case Map(fs) => ReorderedSameMap(fs, w.fields);
    case Hash(ps) => ReorderedSameHash(ps, w.pairs);
  }

  lemma {:induction false} ReorderedSameMap(fs: seq<Field>, gs: seq<Field>)
    requires Reordered(Map(fs), Map(gs))
    ensures Value(Map(fs)) == Value(Map(gs))
    decreases Map(fs), 0
  {
    forall i | 0 <= i < |fs| ensures FieldIn(fs[i], gs) {
      assert FieldBefore(fs[i], gs);
      var j :| 0 <= j < |gs| && gs[j].name == fs[i].name && Reordered(fs[i].val, gs[j].val);
      ReorderedSame(fs[i].val, gs[j].val);
    }
    forall j | 0 <= j < |gs| ensures FieldIn(gs[j], fs) {
      assert FieldAfter(fs, gs[j]);
      var i :| 0 <= i < |fs| && gs[j].name == fs[i].name && Reordered(fs[i].val, gs[j].val);
      ReorderedSame(fs[i].val, gs[j].val);
    }
    FieldOrderIrrelevant(fs, gs);
  }

  lemma {:induction false} ReorderedSameHash(ps: seq<Pair>, qs: seq<Pair>)
    requires Reordered(Hash(ps), Hash(qs))
    ensures Value(Hash(ps)) == Value(Hash(qs))
    decreases Hash(ps), 0
  {
    forall i | 0 <= i < |ps| ensures PairIn(ps[i], qs) {
      assert PairBefore(ps[i], qs);
      var j :| 0 <= j < |qs| && Norm(qs[j].key) == Norm(ps[i].key) && Reordered(ps[i].val, qs[j].val);
      ReorderedSame(ps[i].val, qs[j].val);
    }
    forall j | 0 <= j < |qs| ensures PairIn(qs[j], ps) {
      assert PairAfter(ps, qs[j]);
      var i :| 0 <= i < |ps| && Norm(qs[j].key) == Norm(ps[i].key) && Reordered(ps[i].val, qs[j].val);
      ReorderedSame(ps[i].val, qs[j].val);
    }
    PairOrderIrrelevant(ps, qs);
  }

  lemma {:induction false} SameReordered(v: Layout, w: Layout)
    requires Proper(v) && Proper(w) && Value(v) == Value(w)
    ensures Reordered(v, w)
    decreases v, 1
  {
    match v
    case Atom(_) =>
    case Ints(_) =>
    case Array(items) =>
      forall i | 0 <= i < |items| ensures Reordered(items[i], w.items[i]) {
        ValuesOfAt(items, i);
        ValuesOfAt(w.items, i);
        SameReordered(items[i], w.items[i]);
      }
    case Map(fs) => SameReorderedMap(fs, w.fields);
    case Hash(ps) => SameReorderedHash(ps, w.pairs);
  }

  lemma {:induction false} SameReorderedMap(fs: seq<Field>, gs: seq<Field>)
    requires Proper(Map(fs)) && Proper(Map(gs)) && Value(Map(fs)) == Value(Map(gs))
    ensures Reordered(Map(fs), Map(gs))
    decreases Map(fs), 0
  {
    FieldOrderIrrelevant(fs, gs);
    forall i | 0 <= i < |fs| ensures FieldBefore(fs[i], gs) {
      assert FieldIn(fs[i], gs);
      var j :| 0 <= j < |gs| && gs[j].name == fs[i].name && Value(gs[j].val) == Value(fs[i].val);
      SameReordered(fs[i].val, gs[j].val);
    }
    forall j | 0 <= j < |gs| ensures FieldAfter(fs, gs[j]) {
      assert FieldIn(gs[j], fs);
      var i :| 0 <= i < |fs| && gs[j].name == fs[i].name && Value(gs[j].val) == Value(fs[i].val);
      SameReordered(fs[i].val, gs[j].val);
    }
  }

  lemma {:induction false} SameReorderedHash(ps: seq<Pair>, qs: seq<Pair>)
    requires Proper(Hash(ps)) && Proper(Hash(qs)) && Value(Hash(ps)) == Value(Hash(qs))
    ensures Reordered(Hash(ps), Hash(qs))
    decreases Hash(ps), 0
  {
    PairOrderIrrelevant(ps, qs);
    forall i | 0 <= i < |ps| ensures PairBefore(ps[i], qs) {
      assert PairIn(ps[i], qs);
      var j :| 0 <= j < |qs| && Norm(qs[j].key) == Norm(ps[i].key) && Value(qs[j].val) == Value(ps[i].val);
      SameReordered(ps[i].val, qs[j].val);
    }
    forall j | 0 <= j < |qs| ensures PairAfter(ps, qs[j]) {
      assert PairIn(qs[j], ps);
      var i :| 0 <= i < |ps| && Norm(qs[j].key) == Norm(ps[i].key) && Value(qs[j].val) == Value(ps[i].val);
      SameReordered(ps[i].val, qs[j].val);
    }
  }

  /** Two proper layouts stand for one object exactly when they match entry for entry at
      every depth. */
  lemma ReorderedIff(v: Layout, w: Layout)
    requires Proper(v) && Proper(w)
    ensures Reordered(v, w) <==> Value(v) == Value(w)
  {
    if Reordered(v, w) { ReorderedSame(v, w); }
    if Value(v) == Value(w) { SameReordered(v, w); }
  }

  // ---- Permutations at every depth ----

  /** perm and back are inverse permutations of n places. */
  predicate Inverse(perm: seq<nat>, back: seq<nat>, n: nat) {
    && |perm| == n && |back| == n
    && (forall i | 0 <= i < n :: perm[i] < n && back[perm[i]] == i)
    && (forall j | 0 <= j < n :: back[j] < n && perm[back[j]] == j)
  }

  /** w is v itself with its maps and hashes, at any depth, iterated in another order. */
  ghost predicate Permuted(v: Layout, w: Layout)
    decreases v
  {
    match v
    case Atom(_) => w == v
    case Ints(_) => w == v
    case Array(items) =>
      w.Array? && |w.items| == |items| && forall i | 0 <= i < |items| :: Permuted(items[i], w.items[i])
    case Map(fs) => w.Map? && exists perm, back :: FieldsPermuted(fs, w.fields, perm, back)
    case Hash(ps) => w.Hash? && exists perm, back :: PairsPermuted(ps, w.pairs, perm, back)
  }

  ghost predicate FieldsPermuted(fs: seq<Field>, gs: seq<Field>, perm: seq<nat>, back: seq<nat>)
    decreases fs
  {
    && |gs| == |fs| && Inverse(perm, back, |fs|)
    && forall i | 0 <= i < |fs| :: gs[perm[i]].name == fs[i].name && Permuted(fs[i].val, gs[perm[i]].val)
  }

  ghost predicate PairsPermuted(ps: seq<Pair>, qs: seq<Pair>, perm: seq<nat>, back: seq<nat>)
    decreases ps
  {
    && |qs| == |ps| && Inverse(perm, back, |ps|)
    && forall i | 0 <= i < |ps| ::
         qs[perm[i]].key == ps[i].key && (var p := ps[i]; assert p decreases to p.val; Permuted(p.val, qs[perm[i]].val))
  }

  /** The names of each map differ, as they do in Go. */
  ghost predicate Named(v: Layout)
    decreases v
  {
    match v
    case Atom(_) => true
    case Ints(_) => true
    case Array(items) => forall i | 0 <= i < |items| :: Named(items[i])
    case Map(fs) => DistinctNames(fs) && forall i | 0 <= i < |fs| :: Named(fs[i].val)
    case Hash(ps) => forall i | 0 <= i < |ps| :: Named(ps[i].val)
  }

  /** A permutation keeps a proper layout matched entry for entry. */
  lemma {:induction false} PermutedReordered(v: Layout, w: Layout)
    requires Proper(v) && Permuted(v, w)
    ensures Reordered(v, w)
    decreases v, 1
  {
    match v
    case Atom(_) =>
    case Ints(_) =>
    case Array(items) =>
      forall i | 0 <= i < |items| ensures Reordered(items[i], w.items[i]) {
        PermutedReordered(items[i], w.items[i]);
      }
    case Map(fs) =>
      var perm, back :| FieldsPermuted(fs, w.fields, perm, back);
      PermutedMap(fs, w.fields, perm, back);
    case Hash(ps) =>
      var perm, back :| PairsPermuted(ps, w.pairs, perm, back);
      PermutedHash(ps, w.pairs, perm, back);
  }

  lemma {:induction false} PermutedMap(fs: seq<Field>, gs: seq<Field>, perm: seq<nat>, back: seq<nat>)
    requires Proper(Map(fs)) && FieldsPermuted(fs, gs, perm, back)
    ensures Reordered(Map(fs), Map(gs))
    decreases Map(fs), 0
  {
    forall i | 0 <= i < |fs| ensures Reordered(fs[i].val, gs[perm[i]].val) {
      PermutedReordered(fs[i].val, gs[perm[i]].val);
    }
    forall i, j | 0 <= i < j < |gs| ensures gs[i].name != gs[j].name {
      assert perm[back[i]] == i && perm[back[j]] == j;
    }
    forall i | 0 <= i < |fs| ensures FieldBefore(fs[i], gs) {
      assert gs[perm[i]].name == fs[i].name;
    }
    forall j | 0 <= j < |gs| ensures FieldAfter(fs, gs[j]) {
      assert fs[back[j]].name == gs[perm[back[j]]].name;
    }
  }

  lemma {:induction false} PermutedHash(ps: seq<Pair>, qs: seq<Pair>, perm: seq<nat>, back: seq<nat>)
    requires Proper(Hash(ps)) && PairsPermuted(ps, qs, perm, back)
    ensures Reordered(Hash(ps), Hash(qs))
    decreases Hash(ps), 0
  {
    forall i | 0 <= i < |ps| ensures Reordered(ps[i].val, qs[perm[i]].val) {
      PermutedReordered(ps[i].val, qs[perm[i]].val);
    }
    MatchedHash(ps, qs, perm, back);
  }

  lemma MatchedHash(ps: seq<Pair>, qs: seq<Pair>, perm: seq<nat>, back: seq<nat>)
    requires MergesAgree(ps) && |qs| == |ps| && Inverse(perm, back, |ps|)
    requires forall i | 0 <= i < |ps| :: qs[perm[i]].key == ps[i].key && Reordered(ps[i].val, qs[perm[i]].val)
    ensures Reordered(Hash(ps), Hash(qs))
  {
    forall j | 0 <= j < |qs|
      ensures ps[back[j]].key == qs[j].key && Reordered(ps[back[j]].val, qs[j].val)
      ensures Value(ps[back[j]].val) == Value(qs[j].val)
    {
      assert perm[back[j]] == j;
      ReorderedSame(ps[back[j]].val, qs[j].val);
    }
    MergesCarry(ps, qs, back);
    forall i | 0 <= i < |ps| ensures PairBefore(ps[i], qs) {
      assert qs[perm[i]].key == ps[i].key;
    }
    forall j | 0 <= j < |qs| ensures PairAfter(ps, qs[j]) {
      assert ps[back[j]].key == qs[j].key;
    }
  }

  lemma MergesCarry(ps: seq<Pair>, qs: seq<Pair>, back: seq<nat>)
    requires MergesAgree(ps) && |back| == |qs|
    requires forall j | 0 <= j < |qs| ::
               back[j] < |ps| && ps[back[j]].key == qs[j].key && Value(ps[back[j]].val) == Value(qs[j].val)
    ensures MergesAgree(qs)
  {
    forall p, q | p in qs && q in qs && Norm(p.key) == Norm(q.key) ensures Value(p.val) == Value(q.val) {
      var i :| 0 <= i < |qs| && qs[i] == p;
      var j :| 0 <= j < |qs| && qs[j] == q;
      assert ps[back[i]] in ps && ps[back[j]] in ps;
    }
  }

  function Places(n: nat): (s: seq<nat>)
    ensures Inverse(s, s, n)
  {
    seq(n, i requires 0 <= i < n => i)
  }

  lemma {:induction false} PermutedItself(v: Layout)
    ensures Permuted(v, v)
    decreases v
  {
    match v
    case Atom(_) =>
    case Ints(_) =>
    case Array(items) =>
      forall i | 0 <= i < |items| ensures Permuted(items[i], items[i]) { PermutedItself(items[i]); }
    case Map(fs) =>
      var id := Places(|fs|);
      forall i | 0 <= i < |fs| ensures Permuted(fs[i].val, fs[id[i]].val) { PermutedItself(fs[i].val); }
      assert FieldsPermuted(fs, fs, id, id);
    case Hash(ps) =>
      var id := Places(|ps|);
      forall i | 0 <= i < |ps| ensures Permuted(ps[i].val, ps[id[i]].val) {
        var p := ps[i];
        assert p decreases to p.val;
        PermutedItself(p.val);
      }
      assert PairsPermuted(ps, ps, id, id);
  }

  /** The permutation that moves place k last. */
  function LastOf(n: nat, k: nat): (s: seq<nat>)
    requires k < n
    ensures |s| == n
  {
    seq(n, i requires 0 <= i < n => if i < k then i else if i == k then n - 1 else i - 1)
  }

  function FromLast(n: nat, k: nat): (s: seq<nat>)
    requires k < n
    ensures |s| == n && Inverse(LastOf(n, k), s, n)
  {
    seq(n, i requires 0 <= i < n => if i < k then i else if i == n - 1 then k else i + 1)
  }

  /** The entry k of a hash, with its value u written in another order, moved last. */
  lemma MovedPermuted(ps: seq<Pair>, k: nat, u: Layout)
    requires k < |ps| && Permuted(ps[k].val, u)
    ensures var qs := ps[..k] + ps[k + 1..] + [Pair(ps[k].key, u)];
            Permuted(Hash(ps), Hash(qs)) && Norm(ps[k].key) in PairMap(qs, map[]) &&
            PairMap(qs, map[])[Norm(ps[k].key)] == Value(u)
  {
    var qs := ps[..k] + ps[k + 1..] + [Pair(ps[k].key, u)];
    var perm, back := LastOf(|ps|, k), FromLast(|ps|, k);
    forall i | 0 <= i < |ps| ensures qs[perm[i]].key == ps[i].key && Permuted(ps[i].val, qs[perm[i]].val) {
      PermutedItself(ps[i].val);
    }
    assert PairsPermuted(ps, qs, perm, back);
    PairMapSnoc(ps[..k] + ps[k + 1..], map[], Pair(ps[k].key, u));
  }

  /** a and b are v in other orders, and stand for different objects. */
  ghost predicate Differ(v: Layout, a: Layout, b: Layout) {
    Permuted(v, a) && Permuted(v, b) && Value(a) != Value(b)
  }

  lemma {:induction false} ImproperShows(v: Layout) returns (a: Layout, b: Layout)
    requires Named(v) && !Proper(v)
    ensures Differ(v, a, b)
    decreases v
  {
    match v
    case Array(items) =>
      var k :| 0 <= k < |items| && !Proper(items[k]);
      var x, y := ImproperShows(items[k]);
      a, b := Array(items[k := x]), Array(items[k := y]);
      ItemReplaced(items, k, x);
      ItemReplaced(items, k, y);
    case Map(fs) =>
      var k :| 0 <= k < |fs| && !Proper(fs[k].val);
      var x, y := ImproperShows(fs[k].val);
      a, b := Map(fs[k := Field(fs[k].name, x)]), Map(fs[k := Field(fs[k].name, y)]);
      FieldReplaced(fs, k, x);
      FieldReplaced(fs, k, y);
    case Hash(ps) =>
      if k :| 0 <= k < |ps| && !Proper(ps[k].val) {
        var p := ps[k];
        assert p decreases to p.val;
        var x, y := ImproperShows(p.val);
        a, b := LastShows(ps, k, x, k, y);
      } else {
        var i, j := MergesDiffer(ps);
        PermutedItself(ps[i].val);
        PermutedItself(ps[j].val);
        a, b := LastShows(ps, i, ps[i].val, j, ps[j].val);
      }
  }

  lemma MergesDiffer(ps: seq<Pair>) returns (i: nat, j: nat)
    requires !MergesAgree(ps)
    ensures i < |ps| && j < |ps| && Norm(ps[i].key) == Norm(ps[j].key) && Value(ps[i].val) != Value(ps[j].val)
  {
    var p, q :| p in ps && q in ps && Norm(p.key) == Norm(q.key) && Value(p.val) != Value(q.val);
    i :| 0 <= i < |ps| && ps[i] == p;
    j :| 0 <= j < |ps| && ps[j] == q;
  }

  lemma LastShows(ps: seq<Pair>, i: nat, x: Layout, j: nat, y: Layout) returns (a: Layout, b: Layout)
    requires i < |ps| && j < |ps| && Norm(ps[i].key) == Norm(ps[j].key)
    requires Permuted(ps[i].val, x) && Permuted(ps[j].val, y) && Value(x) != Value(y)
    ensures Differ(Hash(ps), a, b)
  {
    var qs := ps[..i] + ps[i + 1..] + [Pair(ps[i].key, x)];
    var rs := ps[..j] + ps[j + 1..] + [Pair(ps[j].key, y)];
    MovedPermuted(ps, i, x);
    MovedPermuted(ps, j, y);
    a, b := Hash(qs), Hash(rs);
    assert PairMap(qs, map[]) != PairMap(rs, map[]);
  }

  lemma ItemReplaced(items: seq<Layout>, k: nat, u: Layout)
    requires k < |items| && Permuted(items[k], u)
    ensures Permuted(Array(items), Array(items[k := u])) && ValuesOf(items[k := u])[k] == Value(u)
  {
    forall i | 0 <= i < |items| ensures Permuted(items[i], items[k := u][i]) { PermutedItself(items[i]); }
    ValuesOfAt(items[k := u], k);
  }

  lemma FieldReplaced(fs: seq<Field>, k: nat, u: Layout)
    requires k < |fs| && DistinctNames(fs) && Permuted(fs[k].val, u)
    ensures var gs := fs[k := Field(fs[k].name, u)];
            Permuted(Map(fs), Map(gs)) && fs[k].name in FieldMap(gs, map[]) &&
            FieldMap(gs, map[])[fs[k].name] == Value(u)
  {
    var gs := fs[k := Field(fs[k].name, u)];
    var id := Places(|fs|);
    forall i | 0 <= i < |fs| ensures gs[id[i]].name == fs[i].name && Permuted(fs[i].val, gs[id[i]].val) {
      PermutedItself(fs[i].val);
    }
    assert FieldsPermuted(fs, gs, id, id);
    FieldMapAt(gs, map[], k);
  }

  /** w is one of the layouts in which the value of v can be written. */
  ghost predicate Writes(v: Layout, w: Layout) {
    Permuted(v, w)
  }

  lemma ProperUnseen(v: Layout, w: Layout)
    requires Proper(v) && Writes(v, w)
    ensures Value(w) == Value(v)
  {
    PermutedReordered(v, w);
    ReorderedSame(v, w);
  }

  lemma ImproperSeen(v: Layout) returns (w: Layout)
    requires Named(v) && !Proper(v)
    ensures Writes(v, w) && Value(w) != Value(v)
  {
    var a, b := ImproperShows(v);
    w := if Value(a) != Value(v) then a else b;
  }

  /** The order in which the maps in a Go value, at any depth, are iterated cannot be
      seen in the object it stands for exactly when merged keys, at any depth, have equal
      values. */
  lemma OrderUnseenAtEveryDepth(v: Layout)
    requires Named(v)
    ensures (forall w | Writes(v, w) :: Value(w) == Value(v)) <==> Proper(v)
  {
    if Proper(v) {
      forall w | Writes(v, w) ensures Value(w) == Value(v) { ProperUnseen(v, w); }
    } else {
      var w := ImproperSeen(v);
    }
  }

  // ---- In what is read ----

  lemma {:induction false} LegibleItemsAt(ws: seq<Layout>)
    ensures LegibleItems(ws) <==> forall i | 0 <= i < |ws| :: Legible(ws[i])
  {
    if ws != [] {
      LegibleItemsAt(ws[1..]);
      assert forall i | 1 <= i < |ws| :: ws[i] == ws[1..][i - 1];
    }
  }

  lemma {:induction false} LegibleFieldsAt(fs: seq<Field>)
    ensures LegibleFields(fs) <==> forall i | 0 <= i < |fs| :: |fs[i].name| <= STRING_MAX && Legible(fs[i].val)
  {
    if fs != [] {
      LegibleFieldsAt(fs[1..]);
      assert forall i | 1 <= i < |fs| :: fs[i] == fs[1..][i - 1];
    }
  }

  lemma {:induction false} LegiblePairsAt(ps: seq<Pair>)
    ensures LegiblePairs(ps) <==> forall i | 0 <= i < |ps| :: LegibleScalar(ps[i].key) && Legible(ps[i].val)
  {
    if ps != [] {
      LegiblePairsAt(ps[1..]);
      assert forall i | 1 <= i < |ps| :: ps[i] == ps[1..][i - 1];
    }
  }

  lemma {:induction false} ReorderedLegible(v: Layout, w: Layout)
    requires Reordered(v, w)
    ensures Legible(v) <==> Legible(w)
    decreases v, 1
  {
    match v
    case Atom(_) =>
    case Ints(_) =>
    case Array(items) =>
      LegibleItemsAt(items);
      LegibleItemsAt(w.items);
      forall i | 0 <= i < |items| ensures Legible(items[i]) <==> Legible(w.items[i]) {
        ReorderedLegible(items[i], w.items[i]);
      }
    case Map(fs) => ReorderedLegibleMap(fs, w.fields);
    case Hash(ps) => ReorderedLegibleHash(ps, w.pairs);
  }

  lemma {:induction false} ReorderedLegibleMap(fs: seq<Field>, gs: seq<Field>)
    requires Reordered(Map(fs), Map(gs))
    ensures Legible(Map(fs)) <==> Legible(Map(gs))
    decreases Map(fs), 0
  {
    LegibleFieldsAt(fs);
    LegibleFieldsAt(gs);
    if LegibleFields(fs) {
      forall j | 0 <= j < |gs| ensures |gs[j].name| <= STRING_MAX && Legible(gs[j].val) {
        assert FieldAfter(fs, gs[j]);
        var i :| 0 <= i < |fs| && gs[j].name == fs[i].name && Reordered(fs[i].val, gs[j].val);
        ReorderedLegible(fs[i].val, gs[j].val);
      }
    } else {
      var i :| 0 <= i < |fs| && !(|fs[i].name| <= STRING_MAX && Legible(fs[i].val));
      assert FieldBefore(fs[i], gs);
      var j :| 0 <= j < |gs| && gs[j].name == fs[i].name && Reordered(fs[i].val, gs[j].val);
      ReorderedLegible(fs[i].val, gs[j].val);
    }
  }

  lemma {:induction false} ReorderedLegibleHash(ps: seq<Pair>, qs: seq<Pair>)
    requires Reordered(Hash(ps), Hash(qs))
    ensures Legible(Hash(ps)) <==> Legible(Hash(qs))
    decreases Hash(ps), 0
  {
    LegiblePairsAt(ps);
    LegiblePairsAt(qs);
    forall j | 0 <= j < |qs| ensures LegiblePairs(ps) ==> LegibleScalar(qs[j].key) && Legible(qs[j].val) {
      assert PairAfter(ps, qs[j]);
      var i :| 0 <= i < |ps| && Norm(qs[j].key) == Norm(ps[i].key) && Reordered(ps[i].val, qs[j].val);
      PairLegible(ps[i], qs[j]);
    }
    forall i | 0 <= i < |ps| ensures LegiblePairs(qs) ==> LegibleScalar(ps[i].key) && Legible(ps[i].val) {
      assert PairBefore(ps[i], qs);
      var j :| 0 <= j < |qs| && Norm(qs[j].key) == Norm(ps[i].key) && Reordered(ps[i].val, qs[j].val);
      PairLegible(ps[i], qs[j]);
    }
  }

  lemma {:induction false} PairLegible(p: Pair, q: Pair)
    requires Norm(q.key) == Norm(p.key) && Reordered(p.val, q.val)
    ensures LegibleScalar(p.key) && Legible(p.val) <==> LegibleScalar(q.key) && Legible(q.val)
    decreases p, 0
  {
    assert p decreases to p.val;
    ReorderedLegible(p.val, q.val);
  }

  /** Such layouts are read alike: as the one object, with exactly what follows left, or
      both with an error. */
  lemma OrdersReadAlike(v: Layout, w: Layout, rest: seq<Byte>)
    requires Sized(v) && Sized(w) && Reordered(v, w)
    ensures var a := ReadObject(Cursor(Encode(v) + rest, false));
            var b := ReadObject(Cursor(Encode(w) + rest, false));
            if Legible(v) then a == b == Got(Value(v), Cursor(rest, false))
            else a.Got? && b.Got? && a.at.err && b.at.err
  {
    ReorderedSame(v, w);
    ReorderedLegible(v, w);
    CodecLaws.RoundTrip(v, rest);
    CodecLaws.RoundTrip(w, rest);
  }

  /** In particular a proper value, in any iteration order at any depth. */
  lemma PermutedReadAlike(v: Layout, w: Layout, rest: seq<Byte>)
    requires Sized(v) && Sized(w) && Proper(v) && Writes(v, w)
    ensures var a := ReadObject(Cursor(Encode(v) + rest, false));
            var b := ReadObject(Cursor(Encode(w) + rest, false));
            if Legible(v) then a == b == Got(Value(v), Cursor(rest, false))
            else a.Got? && b.Got? && a.at.err && b.at.err
  {
    PermutedReordered(v, w);
    OrdersReadAlike(v, w, rest);
  }
}
