/**
 The checksum polynomial of Bech32 and Bech32m: a linear map over bits whose step is injective.

 A residue is the sequence of its 30 bits, lowest first; the upper two bits of the source's
 32-bit word stay zero.
 */
module PolyMod {

  type Residue = s: seq<bool> | |s| == 30 witness seq(30, _ => false)

  function BitOf(n: nat, j: nat): bool { if j == 0 then n % 2 == 1 else BitOf(n / 2, j - 1) }

  function Bits(n: nat): Residue { seq(30, (j: nat) => BitOf(n, j)) }

  function Zero(): Residue { seq(30, _ => false) }

  function Xor(a: Residue, b: Residue): Residue { seq(30, j requires 0 <= j < 30 => a[j] != b[j]) }

  /** The lower 25 bits, moved up by one symbol. */
  function Up(c: Residue): Residue { seq(30, j requires 0 <= j < 30 => j >= 5 && c[j - 5]) }

  function When(b: bool, k: Residue): Residue { if b then k else Zero() }

  function K1(): Residue { Bits(0x3b6a57b2) }
  function K2(): Residue { Bits(0x26508e6d) }
  function K4(): Residue { Bits(0x1ea119fa) }
  function K8(): Residue { Bits(0x3d4233dd) }
  function K16(): Residue { Bits(0x2a1462b3) }

  function Step(c: Residue, v: Residue): Residue {
    Xor(Xor(Xor(Xor(Xor(Xor(Up(c), v), When(c[25], K1())), When(c[26], K2())), When(c[27], K4())), When(c[28], K8())), When(c[29], K16()))
  }

  lemma WhenAt(b: bool, k: Residue, j: nat)
    requires j < 30
    ensures When(b, k)[j] == (b && k[j])
  {
  }

  datatype Top = Top(t1: bool, t2: bool, t4: bool, t8: bool, t16: bool)

  function TopOf(c: Residue): Top { Top(c[25], c[26], c[27], c[28], c[29]) }

  /** The bits of the five constants at one position. */
  function Column(j: nat): Top
    requires j < 30
  {
    Top(K1()[j], K2()[j], K4()[j], K8()[j], K16()[j])
  }

  predicate Dot(t: Top, k: Top) {
    ((((t.t1 && k.t1) != (t.t2 && k.t2)) != (t.t4 && k.t4)) != (t.t8 && k.t8)) != (t.t16 && k.t16)
  }

  predicate Below(c: Residue, j: nat)
    requires j < 30
  {
    j >= 5 && c[j - 5]
  }

  /** One bit of a step: the bit shifted in, the symbol's bit, and the top symbol's share. */
  lemma StepAt(c: Residue, v: Residue, j: nat)
    requires j < 30
    ensures Step(c, v)[j] == ((Below(c, j) != v[j]) != Dot(TopOf(c), Column(j)))
  {
    WhenAt(c[25], K1(), j);
    WhenAt(c[26], K2(), j);
    WhenAt(c[27], K4(), j);
    WhenAt(c[28], K8(), j);
    WhenAt(c[29], K16(), j);
  }

  function XorTop(t: Top, u: Top): Top { Top(t.t1 != u.t1, t.t2 != u.t2, t.t4 != u.t4, t.t8 != u.t8, t.t16 != u.t16) }

  lemma DotLinear(t: Top, u: Top, k: Top)
    ensures Dot(XorTop(t, u), k) == (Dot(t, k) != Dot(u, k))
  {
  }

  lemma StepLinearAt(a: Residue, b: Residue, v: Residue, w: Residue, j: nat)
    requires j < 30
    ensures Step(Xor(a, b), Xor(v, w))[j] == (Step(a, v)[j] != Step(b, w)[j])
  {
    StepAt(Xor(a, b), Xor(v, w), j);
    StepAt(a, v, j);
    StepAt(b, w, j);
    assert TopOf(Xor(a, b)) == XorTop(TopOf(a), TopOf(b));
    DotLinear(TopOf(a), TopOf(b), Column(j));
  }

  /** The step is linear over GF(2). */
  lemma StepLinear(a: Residue, b: Residue, v: Residue, w: Residue)
    ensures Step(Xor(a, b), Xor(v, w)) == Xor(Step(a, v), Step(b, w))
  {
    var left, right := Step(Xor(a, b), Xor(v, w)), Xor(Step(a, v), Step(b, w));
    forall j | 0 <= j < 30 ensures left[j] == right[j] {
      StepLinearAt(a, b, v, w, j);
    }
  }

  lemma LowColumns()
    ensures Column(0) == Top(false, true, false, true, true) && Column(1) == Top(true, false, true, false, true)
    ensures Column(2) == Top(false, true, false, true, false) && Column(3) == Top(false, true, true, true, false)
    ensures Column(4) == Top(true, false, true, true, true)
  {
  }

  /** And injective: the five low bits determine the symbol that was shifted out. */
  lemma StepKernel(c: Residue)
    requires Step(c, Zero()) == Zero()
    ensures c == Zero()
  {
    TopIsZero(c);
    forall j: nat | j < 25 ensures !c[j] {
      StepAt(c, Zero(), j + 5);
    }
    assert forall j: nat :: j < 30 ==> !c[j];
  }

  /** The low five bits of the constants are linearly independent. */
  lemma DotKernel(t: Top)
    requires forall j: nat :: j < 5 ==> !Dot(t, Column(j))
    ensures t == Top(false, false, false, false, false)
  {
    LowColumns();
    assert !Dot(t, Column(0)) && !Dot(t, Column(1)) && !Dot(t, Column(2)) && !Dot(t, Column(3)) && !Dot(t, Column(4));
  }

  lemma TopIsZero(c: Residue)
    requires Step(c, Zero()) == Zero()
    ensures TopOf(c) == Top(false, false, false, false, false)
  {
    forall j: nat | j < 5 ensures !Dot(TopOf(c), Column(j)) {
      StepAt(c, Zero(), j);
    }
    DotKernel(TopOf(c));
  }

  // ----- whole strings of symbols -----

  /** Only the five lowest bits are used. */
  predicate IsSymbol(v: Residue) { forall j :: 5 <= j < 30 ==> !v[j] }

  predicate Symbols(vs: seq<Residue>) { forall i :: 0 <= i < |vs| ==> IsSymbol(vs[i]) }

  function PolyFrom(c: Residue, vs: seq<Residue>): Residue
    decreases |vs|
  {
    if |vs| == 0 then c else PolyFrom(Step(c, vs[0]), vs[1..])
  }

  lemma {:induction false} PolyAppend(c: Residue, vs: seq<Residue>, ws: seq<Residue>)
    ensures PolyFrom(c, vs + ws) == PolyFrom(PolyFrom(c, vs), ws)
    decreases |vs|
  {
    if |vs| == 0 {
      assert vs + ws == ws;
    } else {
      assert (vs + ws)[1..] == vs[1..] + ws;
      PolyAppend(Step(c, vs[0]), vs[1..], ws);
    }
  }

  function XorAll(vs: seq<Residue>, ws: seq<Residue>): (r: seq<Residue>)
    requires |vs| == |ws|
    ensures |r| == |vs|
  {
    if |vs| == 0 then [] else [Xor(vs[0], ws[0])] + XorAll(vs[1..], ws[1..])
  }

  lemma {:induction false} XorAllAt(vs: seq<Residue>, ws: seq<Residue>, i: nat)
    requires |vs| == |ws| && i < |vs|
    ensures XorAll(vs, ws)[i] == Xor(vs[i], ws[i])
    decreases |vs|
  {
    if i > 0 {
      XorAllAt(vs[1..], ws[1..], i - 1);
    }
  }

  lemma {:induction false} PolyLinear(c: Residue, d: Residue, vs: seq<Residue>, ws: seq<Residue>)
    requires |vs| == |ws|
    ensures PolyFrom(Xor(c, d), XorAll(vs, ws)) == Xor(PolyFrom(c, vs), PolyFrom(d, ws))
    decreases |vs|
  {
    if |vs| > 0 {
      var all := XorAll(vs, ws);
      StepLinear(c, d, vs[0], ws[0]);
      assert all[0] == Xor(vs[0], ws[0]) && all[1..] == XorAll(vs[1..], ws[1..]);
      PolyLinear(Step(c, vs[0]), Step(d, ws[0]), vs[1..], ws[1..]);
    }
  }

  predicate AllZero(vs: seq<Residue>) { forall i :: 0 <= i < |vs| ==> vs[i] == Zero() }

  lemma {:induction false} PolyKernel(c: Residue, vs: seq<Residue>)
    requires AllZero(vs) && PolyFrom(c, vs) == Zero()
    ensures c == Zero()
    decreases |vs|
  {
    if |vs| > 0 {
      PolyKernel(Step(c, vs[0]), vs[1..]);
      StepKernel(c);
    }
  }

  lemma StepOfZero()
    ensures Step(Zero(), Zero()) == Zero()
  {
    forall j: nat | j < 30 ensures !Step(Zero(), Zero())[j] {
      StepAt(Zero(), Zero(), j);
    }
  }

  lemma {:induction false} PolyOfZeros(vs: seq<Residue>)
    requires AllZero(vs)
    ensures PolyFrom(Zero(), vs) == Zero()
    decreases |vs|
  {
    if |vs| > 0 {
      StepOfZero();
      PolyOfZeros(vs[1..]);
    }
  }

  // ----- up to six symbols -----

  /** Bit j of the symbols packed together, the last one lowest. */
  predicate PackedBit(vs: seq<Residue>, j: nat) { j / 5 < |vs| && vs[|vs| - 1 - j / 5][j % 5] }

  predicate IsPacked(c: Residue, vs: seq<Residue>) { forall j: nat :: j < 30 ==> c[j] == PackedBit(vs, j) }

  /** While nothing is shifted out, a step only packs one more symbol. */
  lemma PackStep(c: Residue, vs: seq<Residue>, v: Residue)
    requires |vs| < 6 && IsPacked(c, vs) && IsSymbol(v)
    ensures IsPacked(Step(c, v), vs + [v])
  {
    var ws := vs + [v];
    assert TopOf(c) == Top(false, false, false, false, false);
    forall j: nat | j < 30 ensures Step(c, v)[j] == PackedBit(ws, j) {
      StepAt(c, v, j);
      PackedNext(c, vs, v, j);
    }
  }

  lemma PackedNext(c: Residue, vs: seq<Residue>, v: Residue, j: nat)
    requires |vs| < 6 && IsPacked(c, vs) && IsSymbol(v) && j < 30
    ensures PackedBit(vs + [v], j) == (Below(c, j) != v[j])
  {
    if j >= 5 {
      assert c[j - 5] == PackedBit(vs, j - 5);
    }
  }

  lemma {:induction false} PackAll(c: Residue, us: seq<Residue>, vs: seq<Residue>)
    requires |us| + |vs| <= 6 && IsPacked(c, us) && Symbols(vs)
    ensures IsPacked(PolyFrom(c, vs), us + vs)
    decreases |vs|
  {
    if |vs| == 0 {
      assert us + vs == us;
    } else {
      PackStep(c, us, vs[0]);
      PackAll(Step(c, vs[0]), us + [vs[0]], vs[1..]);
      assert us + [vs[0]] + vs[1..] == us + vs;
    }
  }

  /** Up to six symbols from nothing are packed without loss. */
  lemma PolyPacks(vs: seq<Residue>)
    requires |vs| <= 6 && Symbols(vs)
    ensures IsPacked(PolyFrom(Zero(), vs), vs)
  {
    PackAll(Zero(), [], vs);
    assert [] + vs == vs;
  }

  lemma PackedNonZero(c: Residue, vs: seq<Residue>, i: nat)
    requires IsPacked(c, vs) && Symbols(vs) && i < |vs| <= 6 && vs[i] != Zero()
    ensures c != Zero()
  {
    var b: nat :| b < 30 && vs[i][b];
    var j := 5 * (|vs| - 1 - i) + b;
    assert c[j] == PackedBit(vs, j);
  }

  // ----- bursts -----

  /** The strings differ only within six places from `at`. */
  predicate DifferWithin(vs: seq<Residue>, ws: seq<Residue>, at: nat) {
    |vs| == |ws| && forall i :: 0 <= i < |vs| && !(at <= i < at + 6) ==> vs[i] == ws[i]
  }

  lemma XorEqual(a: Residue, b: Residue)
    ensures Xor(a, b) == Zero() <==> a == b
  {
    if Xor(a, b) == Zero() {
      forall j | 0 <= j < 30 ensures a[j] == b[j] {
        assert !Xor(a, b)[j];
      }
    }
  }

  lemma Surrounded(head: seq<Residue>, burst: seq<Residue>, tail: seq<Residue>)
    requires AllZero(head)
    ensures PolyFrom(Zero(), head + (burst + tail)) == PolyFrom(PolyFrom(Zero(), burst), tail)
  {
    PolyAppend(Zero(), head, burst + tail);
    PolyOfZeros(head);
    PolyAppend(Zero(), burst, tail);
  }

  lemma BurstThenZeros(burst: seq<Residue>, tail: seq<Residue>, i: nat)
    requires Symbols(burst) && i < |burst| <= 6 && burst[i] != Zero() && AllZero(tail)
    ensures PolyFrom(PolyFrom(Zero(), burst), tail) != Zero()
  {
    PolyPacks(burst);
    PackedNonZero(PolyFrom(Zero(), burst), burst, i);
    if PolyFrom(PolyFrom(Zero(), burst), tail) == Zero() {
      PolyKernel(PolyFrom(Zero(), burst), tail);
    }
  }

  lemma Cut<T>(s: seq<T>, a: nat, b: nat)
    requires a <= b <= |s|
    ensures s == s[..a] + (s[a..b] + s[b..])
  {
  }

  /** Zero outside a window of at most six places, and not zero in it. */
  predicate IsBurst(es: seq<Residue>, a: nat, b: nat) {
    && a <= b <= |es| && b - a <= 6
    && AllZero(es[..a]) && AllZero(es[b..]) && Symbols(es[a..b]) && !AllZero(es[a..b])
  }

  lemma BurstNonZero(es: seq<Residue>, a: nat, b: nat)
    requires IsBurst(es, a, b)
    ensures PolyFrom(Zero(), es) != Zero()
  {
    Cut(es, a, b);
    Surrounded(es[..a], es[a..b], es[b..]);
    var i: nat :| i < |es[a..b]| && es[a..b][i] != Zero();
    BurstThenZeros(es[a..b], es[b..], i);
  }

  /** What is left of two strings when they are added. */
  lemma Difference(vs: seq<Residue>, ws: seq<Residue>, i: nat)
    requires Symbols(vs) && Symbols(ws) && |vs| == |ws| && i < |vs|
    ensures IsSymbol(XorAll(vs, ws)[i]) && (XorAll(vs, ws)[i] == Zero() <==> vs[i] == ws[i])
  {
    XorAllAt(vs, ws, i);
    XorEqual(vs[i], ws[i]);
  }

  lemma SameResidue(c: Residue, vs: seq<Residue>, ws: seq<Residue>)
    requires |vs| == |ws| && PolyFrom(c, vs) == PolyFrom(c, ws)
    ensures PolyFrom(Zero(), XorAll(vs, ws)) == Zero()
  {
    PolyLinear(c, c, vs, ws);
    XorEqual(c, c);
    XorEqual(PolyFrom(c, vs), PolyFrom(c, ws));
  }

  lemma DifferenceIsBurst(vs: seq<Residue>, ws: seq<Residue>, a: nat, b: nat)
    requires Symbols(vs) && Symbols(ws) && |vs| == |ws| && a <= b <= |vs| && b - a <= 6 && vs != ws
    requires forall i :: 0 <= i < |vs| && !(a <= i < b) ==> vs[i] == ws[i]
    ensures IsBurst(XorAll(vs, ws), a, b)
  {
    var es := XorAll(vs, ws);
    forall i: nat | i < |es| ensures IsSymbol(es[i]) && (es[i] == Zero() <==> vs[i] == ws[i]) {
      Difference(vs, ws, i);
    }
    var i: nat :| i < |vs| && vs[i] != ws[i];
    assert es[a..b][i - a] != Zero();
  }

  /** Any change confined to six consecutive symbols, in strings of any length, changes the residue. */
  lemma BurstDetected(c: Residue, vs: seq<Residue>, ws: seq<Residue>, at: nat)
    requires Symbols(vs) && Symbols(ws) && at <= |vs| && DifferWithin(vs, ws, at) && vs != ws
    ensures PolyFrom(c, vs) != PolyFrom(c, ws)
  {
    if PolyFrom(c, vs) == PolyFrom(c, ws) {
      var b := if at + 6 <= |vs| then at + 6 else |vs|;
      SameResidue(c, vs, ws);
      DifferenceIsBurst(vs, ws, at, b);
      BurstNonZero(XorAll(vs, ws), at, b);
    }
  }
}
