/** utils/stringutil/stringutil.go: Snake and Camel, and the file names that
    peers/proc/meta_builder.go makes with them.

    Strings are sequences of Unicode code points. The loops go over bytes, but the bytes
    of a code point beyond ASCII are no letters and no underscores to them: they pass
    such a code point on as it is, byte by byte. */
module StringCase {
  import opened Wrappers

  type Rune = nat
  type Text = seq<Rune>

  const UNDERSCORE: Rune := 95

  predicate IsUpper(d: Rune) {
    65 <= d <= 90
  }

  predicate IsLower(d: Rune) {
    97 <= d <= 122
  }

  function LowerByte(d: Rune): Rune {
    if IsUpper(d) then d + 32 else d
  }

  /** The letters A to Z in lower case, and the rest as it is. */
  function LowerAscii(s: Text): (t: Text)
    ensures |t| == |s|
  {
    if s == [] then [] else [LowerByte(s[0])] + LowerAscii(s[1..])
  }

  /** unicode.ToLower beyond ASCII. It gives no letter from A to Z and no underscore
      (but a lower-case letter sometimes, as k for the Kelvin sign). */
  type Lowering = Rune -> Rune

  ghost predicate Sane(lower: Lowering) {
    forall r | r >= 128 :: !IsUpper(lower(r)) && lower(r) != UNDERSCORE
  }

  /** strings.ToLower. */
  function ToLower(s: Text, lower: Lowering): (t: Text)
    ensures |t| == |s|
  {
    if s == [] then [] else [if s[0] < 128 then LowerByte(s[0]) else lower(s[0])] + ToLower(s[1..], lower)
  }

  /** What the loop of Snake appends for the bytes s when i > 0 holds from `later`
      on, and j is set once a byte other than '_' has been seen. */
  function SnakeRest(s: Text, later: bool, j: bool): Text {
    if s == [] then
      []
    else
      var d := s[0];
      (if later && IsUpper(d) && j then [UNDERSCORE, d] else [d]) + SnakeRest(s[1..], true, j || d != UNDERSCORE)
  }

  function SnakeOf(s: Text, lower: Lowering): Text {
    ToLower(SnakeRest(s, false, false), lower)
  }

  method Snake(s: Text, lower: Lowering) returns (t: Text)
    ensures t == SnakeOf(s, lower)
  {
    var data: Text := [];
    var j := false;
    for i := 0 to |s|
      invariant data + SnakeRest(s[i..], i > 0, j) == SnakeRest(s, false, false)
    {
      var d := s[i];
      ghost var before, rest := data, s[i + 1..];
      ghost var piece := if i > 0 && IsUpper(d) && j then [UNDERSCORE, d] else [d];
      SnakeTurn(s[i..], d, rest, i > 0, j, piece);
      if i > 0 && IsUpper(d) && j {
        data := data + [UNDERSCORE];
      }
      if d != UNDERSCORE {
        j := true;
      }
      data := data + [d];
      assert data == before + piece;
      Assoc(before, piece, SnakeRest(rest, true, j));
    }
    assert s[|s|..] == [] && data + [] == data;
    t := ToLower(data, lower);
  }

  lemma SnakeTurn(s: Text, d: Rune, rest: Text, later: bool, j: bool, piece: Text)
    requires s == [d] + rest
    requires piece == if later && IsUpper(d) && j then [UNDERSCORE, d] else [d]
    ensures SnakeRest(s, later, j) == piece + SnakeRest(rest, true, j || d != UNDERSCORE)
  {
    assert s[1..] == rest;
  }

  /** What the loop of Camel appends for the bytes s: j says that an underscore has
      just been dropped, k that an upper-case letter has been seen or made. */
  function CamelRest(s: Text, j: bool, k: bool): Text {
    if s == [] then
      []
    else
      var k1 := k || IsUpper(s[0]);
      var raise := IsLower(s[0]) && (j || !k1);
      var d: Rune := if raise then s[0] - 32 else s[0];
      var j2, k2 := if raise then false else j, k1 || raise;
      if k2 && d == UNDERSCORE && |s| > 1 && IsLower(s[1]) then
        CamelRest(s[1..], true, k2)
      else
        [d] + CamelRest(s[1..], j2, k2)
  }

  function CamelOf(s: Text): Text {
    CamelRest(s, false, false)
  }

  method Camel(s: Text) returns (t: Text)
    ensures t == CamelOf(s)
  {
    t := [];
    var j, k := false, false;
    var num := |s| - 1;
    var i := 0;
    while i <= num
      invariant 0 <= i <= |s|
      invariant t + CamelRest(s[i..], j, k) == CamelOf(s)
    {
      var d := s[i];
      ghost var before, rest := t, s[i + 1..];
      CamelTurn(s[i..], d, rest, j, k);
      if !k && IsUpper(d) {
        k := true;
      }
      if IsLower(d) && (j || !k) {
        d := d - 32;
        j := false;
        k := true;
      }
      if k && d == UNDERSCORE && num > i && IsLower(s[i + 1]) {
        j := true;
        i := i + 1;
        continue;
      }
      t := t + [d];
      i := i + 1;
      Assoc(before, [d], CamelRest(rest, j, k));
      assert t + CamelRest(rest, j, k) == CamelOf(s);
    }
    assert s[|s|..] == [] && t + [] == t;
  }

  lemma CamelTurn(s: Text, d: Rune, rest: Text, j: bool, k: bool)
    requires s == [d] + rest
    ensures var k1 := k || IsUpper(d);
            var raise := IsLower(d) && (j || !k1);
            var d2: Rune := if raise then d - 32 else d;
            var j2, k2 := if raise then false else j, k1 || raise;
            CamelRest(s, j, k) ==
            if k2 && d2 == UNDERSCORE && rest != [] && IsLower(rest[0]) then
              CamelRest(rest, true, k2)
            else
              [d2] + CamelRest(rest, j2, k2)
  {
    assert s[1..] == rest;
  }

  // ---- The inverse law ----

  /** No underscore is directly followed by a lower-case letter. */
  predicate Tame(s: Text) {
    s == [] || (!(s[0] == UNDERSCORE && |s| > 1 && IsLower(s[1])) && Tame(s[1..]))
  }

  predicate NoLetter(s: Text) {
    s == [] || (!IsUpper(s[0]) && !IsLower(s[0]) && NoLetter(s[1..]))
  }

  /** Underscores, and then an upper-case letter and a tame rest, or no letter at all. */
  predicate Reversible(s: Text) {
    if s == [] then true
    else if s[0] == UNDERSCORE then Reversible(s[1..])
    else if IsUpper(s[0]) then Tame(s[1..])
    else NoLetter(s)
  }

  lemma {:induction false} LowerAsciiConcat(a: Text, b: Text)
    ensures LowerAscii(a + b) == LowerAscii(a) + LowerAscii(b)
  {
    if a == [] {
      assert a + b == b;
    } else {
      var tail := a[1..];
      LowerAsciiConcat(tail, b);
      assert (a + b)[0] == a[0] && (a + b)[1..] == tail + b;
      Assoc([LowerByte(a[0])], LowerAscii(tail), LowerAscii(b));
    }
  }

  /** Behind an upper-case letter: Snake turns an upper-case letter into an underscore
      and its lower-case form, and Camel turns any underscore in front of a lower-case
      letter back, whether Snake has put it there or not. */
  lemma {:induction false} TailInverse(s: Text)
    ensures CamelRest(LowerAscii(SnakeRest(s, true, true)), false, true) == s <==> Tame(s)
  {
    if s != [] {
      var d, rest := s[0], SnakeRest(s[1..], true, true);
      var low, t := LowerByte(d), LowerAscii(rest);
      TailInverse(s[1..]);
      if IsUpper(d) {
        LowerAsciiConcat([UNDERSCORE, d], rest);
        TwoLower(d);
        var all := [UNDERSCORE, low] + t;
        assert all[1..] == [low] + t && all[1..][1..] == t;
        assert CamelRest(all, false, true) == CamelRest(all[1..], true, true) == [d] + CamelRest(t, false, true);
      } else {
        LowerAsciiConcat([d], rest);
        OneLower(d);
        assert ([d] + t)[1..] == t;
        SnakeStart(s[1..]);
        if d == UNDERSCORE && |s| > 1 && IsLower(s[1]) {
          CamelRaises(t);
        } else {
          assert CamelRest([d] + t, false, true) == [d] + CamelRest(t, false, true);
        }
      }
    }
  }

  /** Snake's text of a rest begins with a lower-case letter iff the rest does. */
  lemma SnakeStart(s: Text)
    ensures var t := LowerAscii(SnakeRest(s, true, true));
            (t == [] <==> s == []) && (s != [] ==> t[0] == if IsUpper(s[0]) then UNDERSCORE else s[0])
  {
  }

  /** Camel makes an upper-case letter of one behind an underscore it drops. */
  lemma CamelRaises(t: Text)
    requires t != [] && IsLower(t[0])
    ensures CamelRest(t, true, true) != [] && CamelRest(t, true, true)[0] == t[0] - 32
  {
  }

  lemma OneLower(d: Rune)
    ensures LowerAscii([d]) == [LowerByte(d)]
  {
    var s: Text := [d];
    assert s[1..] == [];
  }

  lemma TwoLower(d: Rune)
    ensures LowerAscii([UNDERSCORE, d]) == [UNDERSCORE, LowerByte(d)]
  {
    var s: Text := [UNDERSCORE, d];
    assert s[1..] == [d];
    OneLower(d);
  }

  /** In front of the first letter, where nothing is inserted, dropped or raised. */
  lemma {:induction false} StartInverse(s: Text, later: bool)
    ensures CamelRest(LowerAscii(SnakeRest(s, later, false)), false, false) == s <==> Reversible(s)
  {
    if s != [] {
      var d := s[0];
      var rest := SnakeRest(s[1..], true, d != UNDERSCORE);
      var low, t := LowerByte(d), LowerAscii(rest);
      LowerAsciiConcat([d], rest);
      OneLower(d);
      assert SnakeRest(s, later, false) == [d] + rest;
      assert ([low] + t)[1..] == t;
      if d == UNDERSCORE {
        StartInverse(s[1..], true);
        assert CamelRest([low] + t, false, false) == [d] + CamelRest(t, false, false);
      } else if IsUpper(d) {
        TailInverse(s[1..]);
        assert CamelRest([low] + t, false, false) == [d] + CamelRest(t, false, true);
      } else if IsLower(d) {
        assert CamelRest([low] + t, false, false)[0] == d - 32;
      } else {
        LetterlessInverse(s[1..]);
        assert CamelRest([low] + t, false, false) == [d] + CamelRest(t, false, false);
      }
    }
  }

  /** Behind some other byte: the first letter comes back in another case, or with an
      underscore that stays. */
  lemma {:induction false} LetterlessInverse(s: Text)
    ensures CamelRest(LowerAscii(SnakeRest(s, true, true)), false, false) == s <==> NoLetter(s)
  {
    if s != [] {
      var d, rest := s[0], SnakeRest(s[1..], true, true);
      var low, t := LowerByte(d), LowerAscii(rest);
      if IsUpper(d) {
        LowerAsciiConcat([UNDERSCORE, d], rest);
        TwoLower(d);
        assert CamelRest([UNDERSCORE, low] + t, false, false)[0] == UNDERSCORE;
      } else {
        LowerAsciiConcat([d], rest);
        OneLower(d);
        assert ([low] + t)[1..] == t;
        if IsLower(d) {
          assert CamelRest([low] + t, false, false)[0] == d - 32;
        } else {
          LetterlessInverse(s[1..]);
          assert CamelRest([low] + t, false, false) == [d] + CamelRest(t, false, false);
        }
      }
    }
  }

  // ---- Beyond ASCII ----

  /** The string with the code points beyond ASCII in lower case. */
  function Mapped(s: Text, lower: Lowering): (t: Text)
    ensures |t| == |s|
  {
    if s == [] then [] else [if s[0] < 128 then s[0] else lower(s[0])] + Mapped(s[1..], lower)
  }

  function AsciiSnake(s: Text): Text {
    LowerAscii(SnakeRest(s, false, false))
  }

  lemma {:induction false} LowerConcat(a: Text, b: Text, lower: Lowering)
    ensures ToLower(a + b, lower) == ToLower(a, lower) + ToLower(b, lower)
  {
    if a == [] {
      assert a + b == b;
    } else {
      var tail := a[1..];
      LowerConcat(tail, b, lower);
      assert (a + b)[0] == a[0] && (a + b)[1..] == tail + b;
      Assoc([if a[0] < 128 then LowerByte(a[0]) else lower(a[0])], ToLower(tail, lower), ToLower(b, lower));
    }
  }

  /** They can be lowered before Snake as well as by it. */
  lemma {:induction false} SnakeOfMapped(s: Text, lower: Lowering, later: bool, j: bool)
    requires Sane(lower)
    ensures ToLower(SnakeRest(s, later, j), lower) == LowerAscii(SnakeRest(Mapped(s, lower), later, j))
  {
    if s != [] {
      var m := Mapped(s, lower);
      var d, e := s[0], m[0];
      var j' := j || d != UNDERSCORE;
      var rest, rest' := SnakeRest(s[1..], true, j'), SnakeRest(m[1..], true, j');
      SnakeOfMapped(s[1..], lower, true, j');
      assert m[1..] == Mapped(s[1..], lower);
      var one, one' := [d], [e];
      assert one[1..] == [] && one'[1..] == [];
      if later && IsUpper(d) && j {
        var two := [UNDERSCORE, d];
        assert two[1..] == [d];
        LowerConcat(two, rest, lower);
        LowerAsciiConcat(two, rest');
      } else {
        LowerConcat(one, rest, lower);
        LowerAsciiConcat(one', rest');
        assert LowerByte(e) == if d < 128 then LowerByte(d) else lower(d);
      }
    }
  }

  function Beyond(s: Text): Text {
    if s == [] then [] else (if s[0] >= 128 then [s[0]] else []) + Beyond(s[1..])
  }

  lemma {:induction false} BeyondConcat(a: Text, b: Text)
    ensures Beyond(a + b) == Beyond(a) + Beyond(b)
  {
    if a == [] {
      assert a + b == b;
    } else {
      var tail := a[1..];
      BeyondConcat(tail, b);
      assert (a + b)[0] == a[0] && (a + b)[1..] == tail + b;
      Assoc(if a[0] >= 128 then [a[0]] else [], Beyond(tail), Beyond(b));
    }
  }

  lemma {:induction false} SnakeKeepsBeyond(s: Text, later: bool, j: bool)
    ensures Beyond(LowerAscii(SnakeRest(s, later, j))) == Beyond(s)
  {
    if s != [] {
      var d, j' := s[0], j || s[0] != UNDERSCORE;
      var rest := SnakeRest(s[1..], true, j');
      SnakeKeepsBeyond(s[1..], true, j');
      var head := if later && IsUpper(d) && j then [UNDERSCORE, d] else [d];
      LowerAsciiConcat(head, rest);
      BeyondConcat(LowerAscii(head), LowerAscii(rest));
      OneLower(d);
      if later && IsUpper(d) && j { TwoLower(d); }
      BeyondOfHead(d, head);
    }
  }

  lemma {:induction false} BeyondOfHead(d: Rune, head: Text)
    requires head == [d] || (IsUpper(d) && head == [UNDERSCORE, d])
    ensures Beyond(LowerAscii(head)) == if d >= 128 then [d] else []
  {
    OneLower(d);
    TwoLower(d);
    var none: Text := [];
    var one: Text := [LowerByte(d)];
    var two: Text := [UNDERSCORE, LowerByte(d)];
    assert one[1..] == none && Beyond(none) == none;
    assert Beyond(one) == if d >= 128 then [d] else none;
    assert two[1..] == one && Beyond(two) == Beyond(one);
  }

  lemma {:induction false} CamelKeepsBeyond(s: Text, j: bool, k: bool)
    ensures Beyond(CamelRest(s, j, k)) == Beyond(s)
  {
    if s != [] {
      CamelKeepsBeyond(s[1..], true, true);
      CamelKeepsBeyond(s[1..], j, k);
      CamelKeepsBeyond(s[1..], j, true);
      CamelKeepsBeyond(s[1..], false, true);
    }
  }

  lemma {:induction false} BeyondFixed(s: Text, lower: Lowering)
    ensures |Beyond(Mapped(s, lower))| <= |Beyond(s)|
    ensures Beyond(Mapped(s, lower)) == Beyond(s) <==> Mapped(s, lower) == s
  {
    if s != [] {
      var m := Mapped(s, lower);
      BeyondFixed(s[1..], lower);
      assert m[1..] == Mapped(s[1..], lower) && s == [s[0]] + s[1..];
      assert m == [m[0]] + m[1..];
      if s[0] >= 128 && m[0] >= 128 {
        assert Beyond(m)[0] == m[0] && Beyond(s)[0] == s[0];
        assert Beyond(m)[1..] == Beyond(m[1..]) && Beyond(s)[1..] == Beyond(s[1..]);
        assert Beyond(m) == [m[0]] + Beyond(m[1..]) && Beyond(s) == [s[0]] + Beyond(s[1..]);
      } else if s[0] >= 128 {
        assert |Beyond(m)| < |Beyond(s)|;
      } else {
        assert Beyond(m) == Beyond(m[1..]) && Beyond(s) == Beyond(s[1..]);
      }
    }
  }

  // ---- Which strings come back ----

  /** Camel undoes Snake on exactly these strings. */
  lemma CamelUndoesSnakeIff(s: Text, lower: Lowering)
    requires Sane(lower)
    ensures CamelOf(SnakeOf(s, lower)) == s <==> Mapped(s, lower) == s && Reversible(s)
  {
    var m := Mapped(s, lower);
    SnakeOfMapped(s, lower, false, false);
    StartInverse(m, false);
    if CamelOf(SnakeOf(s, lower)) == s {
      CamelKeepsBeyond(AsciiSnake(m), false, false);
      SnakeKeepsBeyond(m, false, false);
      BeyondFixed(s, lower);
    }
  }

  /** Names that begin with a letter from A to Z: iff no underscore is directly followed
      by a letter from a to z and no other letter is in upper case. */
  lemma CamelUndoesSnake(s: Text, lower: Lowering)
    requires Sane(lower) && s != [] && IsUpper(s[0])
    ensures CamelOf(SnakeOf(s, lower)) == s <==>
            (forall i | 1 <= i < |s| - 1 :: s[i] == UNDERSCORE ==> !IsLower(s[i + 1])) &&
            (forall i | 0 <= i < |s| :: s[i] >= 128 ==> lower(s[i]) == s[i])
  {
    CamelUndoesSnakeIff(s, lower);
    TameIs(s[1..]);
    MappedIs(s, lower);
    assert forall i | 0 <= i < |s| - 1 :: s[1..][i] == s[i + 1];
    if Tame(s[1..]) {
      forall i | 1 <= i < |s| - 1 && s[i] == UNDERSCORE ensures !IsLower(s[i + 1]) {
        assert s[1..][i - 1] == UNDERSCORE;
      }
    }
  }

  lemma {:induction false} TameIs(s: Text)
    ensures Tame(s) <==> forall i | 0 <= i < |s| - 1 :: s[i] == UNDERSCORE ==> !IsLower(s[i + 1])
  {
    if s != [] {
      var t := s[1..];
      TameIs(t);
      assert forall i | 0 <= i < |t| :: t[i] == s[i + 1];
      if Tame(s) {
        forall i | 0 <= i < |s| - 1 && s[i] == UNDERSCORE ensures !IsLower(s[i + 1]) {
          if i > 0 { assert t[i - 1] == UNDERSCORE; }
        }
      }
    }
  }

  lemma {:induction false} MappedIs(s: Text, lower: Lowering)
    ensures Mapped(s, lower) == s <==> forall i | 0 <= i < |s| :: s[i] >= 128 ==> lower(s[i]) == s[i]
  {
    if s != [] {
      var t, m := s[1..], Mapped(s, lower);
      MappedIs(t, lower);
      assert m == [m[0]] + Mapped(t, lower) && s == [s[0]] + t;
      assert m[1..] == Mapped(t, lower);
      assert forall i | 0 <= i < |t| :: t[i] == s[i + 1];
      if m == s {
        forall i | 0 <= i < |s| && s[i] >= 128 ensures lower(s[i]) == s[i] {
          if i > 0 { assert t[i - 1] == s[i]; }
        }
      }
    }
  }

  // ---- Which names share a file ----

  /** A name behind its first letter or digit: an underscore and a lower-case letter
      after it become that letter in upper case. */
  function FoldRest(s: Text): Text {
    if s == [] then []
    else if s[0] == UNDERSCORE && |s| > 1 && IsLower(s[1]) then [s[1] - 32] + FoldRest(s[2..])
    else [s[0]] + FoldRest(s[1..])
  }

  /** And the first letter, if only underscores stand before it, in upper case. */
  function Fold(s: Text): Text {
    if s == [] then []
    else if s[0] == UNDERSCORE then [UNDERSCORE] + Fold(s[1..])
    else [if IsLower(s[0]) then s[0] - 32 else s[0]] + FoldRest(s[1..])
  }

  function Tail(s: Text): Text {
    LowerAscii(SnakeRest(s, true, true))
  }

  lemma TailOf(d: Rune, s: Text)
    ensures Tail([d] + s) == (if IsUpper(d) then [UNDERSCORE, d + 32] else [d]) + Tail(s)
  {
    assert ([d] + s)[1..] == s;
    var rest := SnakeRest(s, true, true);
    OneLower(d);
    TwoLower(d);
    LowerAsciiConcat([d], rest);
    LowerAsciiConcat([UNDERSCORE, d], rest);
  }

  lemma FoldTwo(x: Rune, s: Text)
    requires IsLower(x)
    ensures FoldRest([UNDERSCORE, x] + s) == [x - 32] + FoldRest(s)
  {
    assert ([UNDERSCORE, x] + s)[2..] == s;
  }

  lemma FoldOne(d: Rune, s: Text)
    requires d != UNDERSCORE || s == [] || !IsLower(s[0])
    ensures FoldRest([d] + s) == [d] + FoldRest(s)
  {
    assert ([d] + s)[1..] == s;
  }

  /** Folding is not seen by Snake. */
  lemma {:induction false} TailOfFold(s: Text)
    ensures Tail(FoldRest(s)) == Tail(s)
  {
    if s != [] {
      assert s == [s[0]] + s[1..];
      TailOf(s[0], s[1..]);
      if s[0] == UNDERSCORE && |s| > 1 && IsLower(s[1]) {
        assert s[1..] == [s[1]] + s[2..];
        TailOfFold(s[2..]);
        TailOf(s[1], s[2..]);
        TailOf(s[1] - 32, FoldRest(s[2..]));
        assert [UNDERSCORE] + ([s[1]] + Tail(s[2..])) == [UNDERSCORE, s[1]] + Tail(s[2..]);
      } else {
        TailOfFold(s[1..]);
        TailOf(s[0], FoldRest(s[1..]));
      }
    }
  }

  /** And Snake's text determines the folded name. */
  lemma {:induction false} FoldOfTail(s: Text)
    ensures FoldRest(Tail(s)) == FoldRest(s)
  {
    if s != [] {
      assert s == [s[0]] + s[1..];
      TailOf(s[0], s[1..]);
      SnakeStart(s[1..]);
      if IsUpper(s[0]) {
        FoldOfTail(s[1..]);
        FoldTwo(s[0] + 32, Tail(s[1..]));
      } else if s[0] == UNDERSCORE && |s| > 1 && IsLower(s[1]) {
        assert s[1..] == [s[1]] + s[2..];
        FoldOfTail(s[2..]);
        TailOf(s[1], s[2..]);
        assert [UNDERSCORE] + ([s[1]] + Tail(s[2..])) == [UNDERSCORE, s[1]] + Tail(s[2..]);
        FoldTwo(s[1], Tail(s[2..]));
      } else {
        FoldOfTail(s[1..]);
        FoldOne(s[0], Tail(s[1..]));
      }
    }
  }

  /** The start of a name. */
  lemma StartOf(s: Text, later: bool)
    requires s != []
    ensures LowerAscii(SnakeRest(s, later, false)) ==
            [LowerByte(s[0])] + if s[0] == UNDERSCORE then LowerAscii(SnakeRest(s[1..], true, false)) else Tail(s[1..])
  {
    OneLower(s[0]);
    LowerAsciiConcat([s[0]], SnakeRest(s[1..], true, s[0] != UNDERSCORE));
  }

  lemma {:induction false} StartFold(s: Text, later: bool)
    ensures LowerAscii(SnakeRest(Fold(s), later, false)) == LowerAscii(SnakeRest(s, later, false))
    ensures Fold(LowerAscii(SnakeRest(s, later, false))) == Fold(s)
  {
    if s != [] {
      var f := Fold(s);
      StartOf(s, later);
      StartOf(f, later);
      if s[0] == UNDERSCORE {
        StartFold(s[1..], true);
        assert f[1..] == Fold(s[1..]);
      } else {
        TailOfFold(s[1..]);
        FoldOfTail(s[1..]);
        assert f[1..] == FoldRest(s[1..]);
      }
      var t := LowerAscii(SnakeRest(s, later, false));
      assert t[1..] == if s[0] == UNDERSCORE then LowerAscii(SnakeRest(s[1..], true, false)) else Tail(s[1..]);
    }
  }

  const META_SUFFIX: Text := [95, 109, 101, 116, 97, 46, 103, 111] // _meta.go

  function MetaFile(name: Text, lower: Lowering): Text {
    SnakeOf(name, lower) + META_SUFFIX
  }

  lemma SuffixCancels(x: Text, y: Text)
    ensures x + META_SUFFIX == y + META_SUFFIX <==> x == y
  {
    assert x == (x + META_SUFFIX)[..|x|] && y == (y + META_SUFFIX)[..|y|];
    assert |x + META_SUFFIX| == |x| + |META_SUFFIX| && |y + META_SUFFIX| == |y| + |META_SUFFIX|;
  }

  /** Two proc types share a generated file exactly when their names, with everything
      beyond ASCII in lower case, fold to the same name. */
  lemma SharedFileIff(a: Text, b: Text, lower: Lowering)
    requires Sane(lower)
    ensures MetaFile(a, lower) == MetaFile(b, lower) <==> Fold(Mapped(a, lower)) == Fold(Mapped(b, lower))
  {
    SnakeOfMapped(a, lower, false, false);
    SnakeOfMapped(b, lower, false, false);
    StartFold(Mapped(a, lower), false);
    StartFold(Mapped(b, lower), false);
    SuffixCancels(SnakeOf(a, lower), SnakeOf(b, lower));
  }

  /** So types whose names come back have files of their own among each other. */
  lemma MetaFilesDiffer(a: Text, b: Text, lower: Lowering)
    requires Sane(lower) && Mapped(a, lower) == a && Mapped(b, lower) == b && Reversible(a) && Reversible(b) && a != b
    ensures MetaFile(a, lower) != MetaFile(b, lower)
  {
    CamelUndoesSnakeIff(a, lower);
    CamelUndoesSnakeIff(b, lower);
    SuffixCancels(SnakeOf(a, lower), SnakeOf(b, lower));
  }

  predicate StartsWithLetter(s: Text) {
    s != [] && (IsUpper(s[0]) || IsLower(s[0]) || (s[0] == UNDERSCORE && StartsWithLetter(s[1..])))
  }

  lemma {:induction false} CamelFoldsRest(s: Text)
    ensures CamelRest(s, false, true) == FoldRest(s)
  {
    if s != [] {
      if s[0] == UNDERSCORE && |s| > 1 && IsLower(s[1]) {
        CamelFoldsRest(s[2..]);
        assert s[1..][1..] == s[2..];
      } else {
        CamelFoldsRest(s[1..]);
      }
    }
  }

  /** On names that begin, perhaps behind underscores, with a letter, Camel folds. */
  lemma {:induction false} CamelFolds(s: Text)
    requires StartsWithLetter(s)
    ensures CamelOf(s) == Fold(s)
  {
    if s[0] == UNDERSCORE {
      CamelFolds(s[1..]);
    } else {
      CamelFoldsRest(s[1..]);
    }
  }

  /** Lowering twice is lowering once. */
  ghost predicate Idempotent(lower: Lowering) {
    forall r | r >= 128 && lower(r) >= 128 :: lower(lower(r)) == lower(r)
  }

  lemma {:induction false} MappedTwice(s: Text, lower: Lowering)
    requires Idempotent(lower)
    ensures Mapped(Mapped(s, lower), lower) == Mapped(s, lower)
  {
    if s != [] {
      MappedTwice(s[1..], lower);
      assert Mapped(s, lower)[1..] == Mapped(s[1..], lower);
    }
  }

  lemma {:induction false} FoldRestKeeps(s: Text, lower: Lowering)
    requires Mapped(s, lower) == s
    ensures Mapped(FoldRest(s), lower) == FoldRest(s) && Beyond(FoldRest(s)) == Beyond(s)
    decreases |s|
  {
    if s != [] {
      var k := if s[0] == UNDERSCORE && |s| > 1 && IsLower(s[1]) then 2 else 1;
      assert Mapped(s, lower)[1..] == Mapped(s[1..], lower);
      if k == 2 {
        assert Mapped(s[1..], lower)[1..] == Mapped(s[2..], lower) && s[1..][1..] == s[2..];
      }
      FoldRestKeeps(s[k..], lower);
      assert FoldRest(s)[1..] == FoldRest(s[k..]);
    }
  }

  lemma {:induction false} FoldKeeps(s: Text, lower: Lowering)
    requires Mapped(s, lower) == s
    ensures Mapped(Fold(s), lower) == Fold(s) && Beyond(Fold(s)) == Beyond(s)
  {
    if s != [] {
      assert Mapped(s, lower)[1..] == Mapped(s[1..], lower);
      if s[0] == UNDERSCORE { FoldKeeps(s[1..], lower); } else { FoldRestKeeps(s[1..], lower); }
      assert Fold(s)[1..] == if s[0] == UNDERSCORE then Fold(s[1..]) else FoldRest(s[1..]);
    }
  }

  /** Every name shares its file with its folded form; and if it begins, perhaps behind
      underscores, with a letter from A to Z or a to z, that is another name exactly when
      the name does not come back. */
  lemma OthersCollide(a: Text, lower: Lowering)
    requires Sane(lower) && Idempotent(lower)
    ensures var b := Fold(Mapped(a, lower));
            MetaFile(b, lower) == MetaFile(a, lower) &&
            (StartsWithLetter(a) ==> (b == a <==> CamelOf(SnakeOf(a, lower)) == a))
  {
    var m := Mapped(a, lower);
    var b := Fold(m);
    MappedTwice(a, lower);
    FoldKeeps(m, lower);
    StartFold(m, false);
    SnakeOfMapped(a, lower, false, false);
    SnakeOfMapped(b, lower, false, false);
    if StartsWithLetter(a) { FoldsToItself(a, lower); }
  }

  lemma FoldsToItself(a: Text, lower: Lowering)
    requires Sane(lower) && Idempotent(lower) && StartsWithLetter(a)
    ensures Fold(Mapped(a, lower)) == a <==> CamelOf(SnakeOf(a, lower)) == a
  {
    var m := Mapped(a, lower);
    CamelUndoesSnakeIff(a, lower);
    if m == a {
      SnakeOfMapped(a, lower, false, false);
      StartFold(a, false);
      SnakeStarts(a, false);
      CamelFolds(AsciiSnake(a));
    } else {
      MappedTwice(a, lower);
      FoldKeeps(m, lower);
      BeyondFixed(a, lower);
    }
  }

  lemma {:induction false} SnakeStarts(s: Text, later: bool)
    requires StartsWithLetter(s)
    ensures StartsWithLetter(LowerAscii(SnakeRest(s, later, false)))
  {
    StartOf(s, later);
    var t := LowerAscii(SnakeRest(s, later, false));
    assert t[1..] == if s[0] == UNDERSCORE then LowerAscii(SnakeRest(s[1..], true, false)) else Tail(s[1..]);
    if s[0] == UNDERSCORE { SnakeStarts(s[1..], true); }
  }

  /** FoB becomes fo_b, */
  lemma FoBSnake(lower: Lowering)
    ensures SnakeOf([70, 111, 66], lower) == [102, 111, 95, 98]
  {
  }

  /** and fo_b becomes FoB. */
  lemma FoBCamel()
    ensures CamelOf([102, 111, 95, 98]) == [70, 111, 66]
  {
    var s: Text := [102, 111, 95, 98];
    var none: Text := [];
    assert s[3..] == [98] && s[3..][1..] == none && s[2..][1..] == s[3..] && s[1..][1..] == s[2..];
    assert CamelRest(s[3..], true, true) == [66] + CamelRest(none, false, true);
    assert CamelRest(s[2..], false, true) == CamelRest(s[3..], true, true);
    assert CamelRest(s[1..], false, true) == [111] + CamelRest(s[2..], false, true);
    assert CamelRest(s, false, false) == [70] + CamelRest(s[1..], false, true);
  }

  /** For example A_b and AB. */
  lemma UnderscoreCollides(lower: Lowering)
    ensures MetaFile([65, 95, 98], lower) == MetaFile([65, 66], lower)
  {
  }
}
