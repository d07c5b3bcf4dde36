/**
 The checksum polynomial over the field of 32 elements: one step multiplies by x, adds the symbol and reduces modulo the
 generator.
 */
module Gf32 {
  import opened PolyMod
  import Bech32

  /** A field element: a polynomial in a with bits for coefficients, modulo a^5 + a^3 + 1. */
  datatype Element = Element(b0: bool, b1: bool, b2: bool, b3: bool, b4: bool)

  const NOUGHT := Element(false, false, false, false, false)

  function Plus(x: Element, y: Element): Element {
    Element(x.b0 != y.b0, x.b1 != y.b1, x.b2 != y.b2, x.b3 != y.b3, x.b4 != y.b4)
  }

  /** Multiplication by a: a^5 is a^3 + 1. */
  function Double(x: Element): Element { Element(x.b4, x.b0, x.b1, x.b2 != x.b4, x.b3) }

  function Pick(b: bool, x: Element): Element { if b then x else NOUGHT }

  function Times(x: Element, y: Element): Element {
    var y2 := Double(y);
    var y4 := Double(y2);
    var y8 := Double(y4);
    var y16 := Double(y8);
    Plus(Plus(Plus(Plus(Pick(x.b0, y), Pick(x.b1, y2)), Pick(x.b2, y4)), Pick(x.b3, y8)), Pick(x.b4, y16))
  }

  /** The element with a number's bits. */
  function Of(n: nat): Element { Element(n % 2 == 1, n / 2 % 2 == 1, n / 4 % 2 == 1, n / 8 % 2 == 1, n / 16 % 2 == 1) }

  /** The coefficients of the generator below x^6, from that of x^0 up. */
  function Generator(i: nat): Element
    requires i < 6
  {
    Of([18, 29, 21, 20, 22, 29][i])
  }

  /** The coefficient of x^i in a residue. */
  function Coefficient(c: Residue, i: nat): Element
    requires i < 6
  {
    Element(c[5 * i], c[5 * i + 1], c[5 * i + 2], c[5 * i + 3], c[5 * i + 4])
  }

  /** The bits at one place of a field element and of its products by a, a^2, a^3 and a^4. */
  function Row(x: Element, b: nat): Top
    requires b < 5
  {
    var x2 := Double(x);
    var x4 := Double(x2);
    var x8 := Double(x4);
    var x16 := Double(x8);
    Top(At(x, b), At(x2, b), At(x4, b), At(x8, b), At(x16, b))
  }

  function At(x: Element, b: nat): bool
    requires b < 5
  {
    if b == 0 then x.b0 else if b == 1 then x.b1 else if b == 2 then x.b2 else if b == 3 then x.b3 else x.b4
  }

  lemma PlusAt(x: Element, y: Element, b: nat)
    requires b < 5
    ensures At(Plus(x, y), b) == (At(x, b) != At(y, b))
  {
  }

  lemma PickAt(c: bool, x: Element, b: nat)
    requires b < 5
    ensures At(Pick(c, x), b) == (c && At(x, b))
  {
  }

  lemma SumAt(v: Element, w: Element, x: Element, y: Element, z: Element, b: nat)
    requires b < 5
    ensures At(Plus(Plus(Plus(Plus(v, w), x), y), z), b) == ((((At(v, b) != At(w, b)) != At(x, b)) != At(y, b)) != At(z, b))
  {
    PlusAt(v, w, b);
    PlusAt(Plus(v, w), x, b);
    PlusAt(Plus(Plus(v, w), x), y, b);
    PlusAt(Plus(Plus(Plus(v, w), x), y), z, b);
  }

  lemma TimesAt(x: Element, y: Element, b: nat)
    requires b < 5
    ensures At(Times(x, y), b) == Dot(Top(x.b0, x.b1, x.b2, x.b3, x.b4), Row(y, b))
  {
    var y2 := Double(y);
    var y4 := Double(y2);
    var y8 := Double(y4);
    var y16 := Double(y8);
    SumAt(Pick(x.b0, y), Pick(x.b1, y2), Pick(x.b2, y4), Pick(x.b3, y8), Pick(x.b4, y16), b);
    PickAt(x.b0, y, b);
    PickAt(x.b1, y2, b);
    PickAt(x.b2, y4, b);
    PickAt(x.b3, y8, b);
    PickAt(x.b4, y16, b);
  }

  // ----- the constants -----

  /** A number without its lowest i groups of five bits. */
  function Drop(n: nat, i: nat): nat { if i == 0 then n else Drop(n / 32, i - 1) }

  lemma BitDrop(n: nat, j: nat)
    requires j >= 5
    ensures BitOf(n, j) == BitOf(n / 32, j - 5)
  {
    assert BitOf(n, j) == BitOf(n / 2, j - 1) == BitOf(n / 2 / 2, j - 2) == BitOf(n / 2 / 2 / 2, j - 3);
    assert BitOf(n / 2 / 2 / 2, j - 3) == BitOf(n / 2 / 2 / 2 / 2, j - 4) == BitOf(n / 2 / 2 / 2 / 2 / 2, j - 5);
  }

  lemma {:induction false} BitOfGroup(n: nat, i: nat, b: nat)
    requires b < 5
    ensures BitOf(n, 5 * i + b) == BitOf(Drop(n, i), b)
    decreases i
  {
    if i > 0 {
      BitDrop(n, 5 * i + b);
      BitOfGroup(n / 32, i - 1, b);
    }
  }

  /** The coefficients of a constant are its groups of five bits. */
  lemma CoefficientIs(n: nat, i: nat)
    requires i < 6
    ensures Coefficient(Bits(n), i) == Of(Drop(n, i))
  {
    BitOfGroup(n, i, 0);
    BitOfGroup(n, i, 1);
    BitOfGroup(n, i, 2);
    BitOfGroup(n, i, 3);
    BitOfGroup(n, i, 4);
    Bech32.FiveBits(Drop(n, i));
  }

  // The groups of five bits of the five constants, from the lowest up.
  const GROUPS1 := [18, 29, 21, 20, 22, 29]
  const GROUPS2 := [13, 19, 3, 1, 5, 19]
  const GROUPS4 := [26, 15, 6, 2, 10, 15]
  const GROUPS8 := [29, 30, 12, 4, 20, 30]
  const GROUPS16 := [19, 21, 24, 8, 1, 21]

  function Pack(g: seq<nat>): nat { if |g| == 0 then 0 else g[0] + 32 * Pack(g[1..]) }

  lemma {:induction false} DropPack(g: seq<nat>, i: nat)
    requires i < |g| && forall j :: 0 <= j < |g| ==> g[j] < 32
    ensures Drop(Pack(g), i) % 32 == g[i]
    decreases i
  {
    assert Pack(g) / 32 == Pack(g[1..]);
    if i > 0 {
      DropPack(g[1..], i - 1);
    }
  }

  lemma PackSix(g: seq<nat>)
    requires |g| == 6
    ensures Pack(g) == g[0] + 32 * (g[1] + 32 * (g[2] + 32 * (g[3] + 32 * (g[4] + 32 * g[5]))))
  {
    assert Pack(g[4..]) == g[4] + 32 * Pack(g[5..]) && Pack(g[5..]) == g[5] + 32 * Pack(g[6..]) by {
      assert g[4..][1..] == g[5..] && g[5..][1..] == g[6..];
    }
    assert Pack(g[2..]) == g[2] + 32 * Pack(g[3..]) && Pack(g[3..]) == g[3] + 32 * Pack(g[4..]) by {
      assert g[2..][1..] == g[3..] && g[3..][1..] == g[4..];
    }
    assert Pack(g[1..]) == g[1] + 32 * Pack(g[2..]) by {
      assert g[1..][1..] == g[2..];
    }
  }

  /** The coefficients of a number made of six groups. */
  lemma GroupsAre(n: nat, g: seq<nat>, i: nat)
    requires |g| == 6 && i < 6 && n == Pack(g) && forall j :: 0 <= j < 6 ==> g[j] < 32
    ensures Coefficient(Bits(n), i) == Of(g[i])
  {
    CoefficientIs(n, i);
    DropPack(g, i);
    SameLow(Drop(n, i), g[i]);
  }

  lemma K1Is(i: nat)
    requires i < 6
    ensures Coefficient(K1(), i) == Of(GROUPS1[i])
  {
    PackSix(GROUPS1);
    GroupsAre(0x3b6a57b2, GROUPS1, i);
  }

  lemma K2Is(i: nat)
    requires i < 6
    ensures Coefficient(K2(), i) == Of(GROUPS2[i])
  {
    PackSix(GROUPS2);
    GroupsAre(0x26508e6d, GROUPS2, i);
  }

  lemma K4Is(i: nat)
    requires i < 6
    ensures Coefficient(K4(), i) == Of(GROUPS4[i])
  {
    PackSix(GROUPS4);
    GroupsAre(0x1ea119fa, GROUPS4, i);
  }

  lemma K8Is(i: nat)
    requires i < 6
    ensures Coefficient(K8(), i) == Of(GROUPS8[i])
  {
    PackSix(GROUPS8);
    GroupsAre(0x3d4233dd, GROUPS8, i);
  }

  lemma K16Is(i: nat)
    requires i < 6
    ensures Coefficient(K16(), i) == Of(GROUPS16[i])
  {
    PackSix(GROUPS16);
    GroupsAre(0x2a1462b3, GROUPS16, i);
  }

  lemma Halved(k: nat, m: nat)
    ensures (2 * k + m) / 2 == k + m / 2 && (2 * k + m) % 2 == m % 2
  {
  }

  /** Only the lowest five bits of a number count. */
  lemma SameLow(n: nat, m: nat)
    requires m < 32
    ensures n % 32 == m ==> Of(n) == Of(m)
  {
    var q := n / 32;
    if n % 32 == m {
      assert n == 2 * (16 * q) + m;
      Halved(16 * q, m);
      Halved(8 * q, m / 2);
      Halved(4 * q, m / 4);
      Halved(2 * q, m / 8);
      Halved(q, m / 16);
      assert n / 2 == 2 * (8 * q) + m / 2;
      assert n / 4 == 2 * (4 * q) + m / 4;
      assert n / 8 == 2 * (2 * q) + m / 8;
      assert n / 16 == 2 * q + m / 16;
    }
  }

  /** The generator is the groups of the first constant, and each of the others is the one before times a. */
  lemma GroupsDouble(i: nat)
    requires i < 6
    ensures Generator(i) == Of(GROUPS1[i]) && Of(GROUPS2[i]) == Double(Of(GROUPS1[i]))
    ensures Of(GROUPS4[i]) == Double(Of(GROUPS2[i])) && Of(GROUPS8[i]) == Double(Of(GROUPS4[i]))
    ensures Of(GROUPS16[i]) == Double(Of(GROUPS8[i]))
  {
    assert i == 0 || i == 1 || i == 2 || i == 3 || i == 4 || i == 5;
  }

  /** The five constants of the step are the generator times 1, a, a^2, a^3 and a^4. */
  lemma ConstantsAre(i: nat)
    requires i < 6
    ensures Coefficient(K1(), i) == Generator(i) && Coefficient(K2(), i) == Double(Coefficient(K1(), i))
    ensures Coefficient(K4(), i) == Double(Coefficient(K2(), i)) && Coefficient(K8(), i) == Double(Coefficient(K4(), i))
    ensures Coefficient(K16(), i) == Double(Coefficient(K8(), i))
  {
    K1Is(i);
    K2Is(i);
    K4Is(i);
    K8Is(i);
    K16Is(i);
    GroupsDouble(i);
  }

  // ----- the step -----

  lemma CoefficientAt(c: Residue, i: nat, b: nat)
    requires i < 6 && b < 5
    ensures At(Coefficient(c, i), b) == c[5 * i + b]
  {
  }

  lemma ColumnIs(i: nat, b: nat)
    requires i < 6 && b < 5
    ensures Column(5 * i + b) == Row(Generator(i), b)
  {
    ConstantsAre(i);
    CoefficientAt(K1(), i, b);
    CoefficientAt(K2(), i, b);
    CoefficientAt(K4(), i, b);
    CoefficientAt(K8(), i, b);
    CoefficientAt(K16(), i, b);
  }

  function Shifted(c: Residue, i: nat): Element
    requires i < 6
  {
    if i == 0 then NOUGHT else Coefficient(c, i - 1)
  }

  lemma ShiftedAt(c: Residue, i: nat, b: nat)
    requires i < 6 && b < 5
    ensures At(Shifted(c, i), b) == Below(c, 5 * i + b)
  {
    if i > 0 {
      CoefficientAt(c, i - 1, b);
    }
  }

  lemma StepBit(c: Residue, v: Residue, i: nat, b: nat)
    requires i < 6 && b < 5
    ensures At(Coefficient(Step(c, v), i), b)
         == At(Plus(Plus(Shifted(c, i), Coefficient(v, i)), Times(Coefficient(c, 5), Generator(i))), b)
  {
    var top := Coefficient(c, 5);
    StepAt(c, v, 5 * i + b);
    CoefficientAt(Step(c, v), i, b);
    ShiftedAt(c, i, b);
    CoefficientAt(v, i, b);
    ColumnIs(i, b);
    TimesAt(top, Generator(i), b);
    assert TopOf(c) == Top(top.b0, top.b1, top.b2, top.b3, top.b4);
    PlusAt(Shifted(c, i), Coefficient(v, i), b);
    PlusAt(Plus(Shifted(c, i), Coefficient(v, i)), Times(top, Generator(i)), b);
  }

  /** c(x) * x + v(x), with x^6 replaced by the rest of the generator. */
  lemma StepIs(c: Residue, v: Residue, i: nat)
    requires i < 6
    ensures Coefficient(Step(c, v), i)
         == Plus(Plus(Shifted(c, i), Coefficient(v, i)), Times(Coefficient(c, 5), Generator(i)))
  {
    StepBit(c, v, i, 0);
    StepBit(c, v, i, 1);
    StepBit(c, v, i, 2);
    StepBit(c, v, i, 3);
    StepBit(c, v, i, 4);
  }
}
