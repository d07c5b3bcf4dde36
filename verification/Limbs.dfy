/**
 Natural numbers as little-endian sequences of 32-bit limbs.

 Products of two variables are written with Mul, whose meaning is only looked up through MulIs,
 so that the proofs about limbs stay linear.
 */
module Limbs {

  const BASE := 0x1_0000_0000

  type Limb = x: nat | x < 0x1_0000_0000

  // ----- products -----

  predicate Probe(x: int) { true }

  /** z is the product, for whoever probes x. */
  ghost predicate IsProduct(x: int, y: int, z: int) {
    forall d: int {:trigger Probe(d)} :: Probe(d) && d == x ==> z == d * y
  }

  ghost function Mul(x: int, y: int): int {
    assert IsProduct(x, y, x * y);
    var z :| IsProduct(x, y, z);
    z
  }

  lemma MulIs(x: int, y: int)
    ensures Mul(x, y) == x * y
  {
    assert Probe(x);
  }

  lemma MulStep(x: int, y: int)
    ensures Mul(x + 1, y) == Mul(x, y) + y
  {
    MulIs(x + 1, y);
    MulIs(x, y);
  }

  lemma MulAdd(x: int, y: int, z: int)
    ensures Mul(x + y, z) == Mul(x, z) + Mul(y, z)
  {
    MulIs(x + y, z);
    MulIs(x, z);
    MulIs(y, z);
  }

  lemma MulComm(x: int, y: int)
    ensures Mul(x, y) == Mul(y, x)
  {
    MulIs(x, y);
    MulIs(y, x);
  }

  lemma MulSum(x: int, y: int, z: int)
    ensures Mul(x, y + z) == Mul(x, y) + Mul(x, z)
  {
    MulAdd(y, z, x);
    MulComm(x, y + z);
    MulComm(x, y);
    MulComm(x, z);
  }

  lemma MulOne(x: int)
    ensures Mul(x, 1) == x && Mul(1, x) == x && Mul(x, 0) == 0 && Mul(0, x) == 0
  {
    MulIs(x, 1);
    MulIs(1, x);
    MulIs(x, 0);
    MulIs(0, x);
  }

  lemma MulAssoc(x: int, y: int, z: int)
    ensures Mul(x, Mul(y, z)) == Mul(Mul(x, y), z)
  {
    var a, b := Mul(x, y), Mul(y, z);
    MulIs(x, y);
    MulIs(y, z);
    MulIs(x, b);
    MulIs(a, z);
  }

  lemma MulScale(x: int, k: int, y: int)
    ensures Mul(x, Mul(k, y)) == Mul(k, Mul(x, y)) && Mul(Mul(k, x), y) == Mul(k, Mul(x, y))
  {
    MulAssoc(x, k, y);
    MulComm(x, k);
    MulAssoc(k, x, y);
  }

  lemma MulBase(x: int, y: int)
    ensures Mul(x, BASE * y) == BASE * Mul(x, y) && Mul(BASE * x, y) == BASE * Mul(x, y)
  {
    MulScale(x, BASE, y);
    MulIs(BASE, y);
    MulIs(BASE, x);
    MulIs(BASE, Mul(x, y));
  }

  lemma MulNonNegative(x: int, m: int)
    requires x >= 0 && m >= 0
    ensures Mul(x, m) >= 0
  {
    MulIs(x, m);
  }

  lemma MulLess(x: int, y: int, m: int)
    requires x <= y && m >= 0
    ensures Mul(x, m) <= Mul(y, m)
  {
    MulNonNegative(y - x, m);
    MulAdd(y - x, x, m);
  }

  // ----- quotients -----

  lemma DivMod(x: int, m: int)
    requires m > 0
    ensures x == Mul(x / m, m) + x % m && 0 <= x % m < m
  {
    MulIs(x / m, m);
  }

  lemma QuotientUnique(m: int, q: int, r: int, q': int, r': int)
    requires m > 0 && 0 <= r < m && 0 <= r' < m && Mul(q, m) + r == Mul(q', m) + r'
    ensures q == q' && r == r'
  {
    if q < q' {
      MulLess(q + 1, q', m);
      MulStep(q, m);
    } else if q' < q {
      MulLess(q' + 1, q, m);
      MulStep(q', m);
    }
  }

  lemma ModIs(x: int, m: int, q: int, r: int)
    requires m > 0 && x == Mul(q, m) + r && 0 <= r < m
    ensures x % m == r && x / m == q
  {
    DivMod(x, m);
    QuotientUnique(m, q, r, x / m, x % m);
  }

  function Quot(x: nat, m: nat): nat
    requires m > 0
    decreases x
  {
    if x < m then 0 else 1 + Quot(x - m, m)
  }

  function Rem(x: nat, m: nat): nat
    requires m > 0
    decreases x
  {
    if x < m then x else Rem(x - m, m)
  }

  lemma {:induction false} QuotRem(x: nat, m: nat)
    requires m > 0
    ensures x == Mul(Quot(x, m), m) + Rem(x, m) && Rem(x, m) < m
    decreases x
  {
    if x >= m {
      QuotRem(x - m, m);
      MulStep(Quot(x - m, m), m);
    } else {
      MulOne(m);
    }
  }

  lemma QuotIs(x: nat, m: nat)
    requires m > 0
    ensures Quot(x, m) == x / m && Rem(x, m) == x % m
  {
    QuotRem(x, m);
    ModIs(x, m, Quot(x, m), Rem(x, m));
  }

  // ----- powers -----

  function Pow2(k: nat): (r: nat)
    ensures r >= 1
  {
    if k == 0 then 1 else 2 * Pow2(k - 1)
  }

  /** The weight of a limb. */
  function Pow(i: nat): (r: nat)
    ensures r >= 1
  {
    if i == 0 then 1 else BASE * Pow(i - 1)
  }

  lemma {:induction false} Pow2Add(a: nat, b: nat)
    ensures Pow2(a + b) == Mul(Pow2(a), Pow2(b))
  {
    if a > 0 {
      Pow2Add(a - 1, b);
      MulAdd(Pow2(a - 1), Pow2(a - 1), Pow2(b));
    } else {
      MulOne(Pow2(b));
    }
  }

  lemma {:induction false} Pow2Mono(a: nat, b: nat)
    requires a <= b
    ensures Pow2(a) <= Pow2(b)
    decreases b
  {
    if a < b {
      Pow2Mono(a, b - 1);
    }
  }

  lemma Pow2Is32()
    ensures Pow2(32) == BASE
  {
    assert Pow2(8) == 256;
    Pow2Add(8, 8);
    MulIs(256, 256);
    Pow2Add(16, 16);
    MulIs(65536, 65536);
  }

  lemma {:induction false} PowIsPow2(i: nat)
    ensures Pow(i) == Pow2(32 * i)
  {
    if i > 0 {
      PowIsPow2(i - 1);
      Pow2Is32();
      Pow2Add(32, 32 * (i - 1));
      MulIs(BASE, Pow(i - 1));
    }
  }

  lemma {:induction false} PowAdd(a: nat, b: nat)
    ensures Pow(a + b) == Mul(Pow(a), Pow(b))
  {
    if a > 0 {
      PowAdd(a - 1, b);
      MulBase(Pow(a - 1), Pow(b));
    } else {
      MulOne(Pow(b));
    }
  }

  lemma {:induction false} PowMono(a: nat, b: nat)
    requires a <= b
    ensures Pow(a) <= Pow(b)
    decreases b
  {
    if a < b {
      PowMono(a, b - 1);
    }
  }

  // ----- values -----

  function Val(s: seq<Limb>): nat {
    if |s| == 0 then 0 else s[0] + BASE * Val(s[1..])
  }

  lemma {:induction false} ValBound(s: seq<Limb>)
    ensures Val(s) < Pow(|s|)
    decreases |s|
  {
    if |s| > 0 {
      ValBound(s[1..]);
    }
  }

  lemma {:induction false} ValSplit(s: seq<Limb>, i: nat)
    requires i <= |s|
    ensures Val(s) == Val(s[..i]) + Mul(Pow(i), Val(s[i..]))
    decreases |s|
  {
    if i == 0 {
      assert s[0..] == s && s[..0] == [];
      MulOne(Val(s));
    } else {
      ValSplit(s[1..], i - 1);
      assert s[1..][..i - 1] == s[..i][1..] && s[1..][i - 1..] == s[i..];
      MulBase(Pow(i - 1), Val(s[i..]));
    }
  }

  lemma {:induction false} ValZero(s: seq<Limb>)
    requires forall i :: 0 <= i < |s| ==> s[i] == 0
    ensures Val(s) == 0
    decreases |s|
  {
    if |s| > 0 {
      ValZero(s[1..]);
    }
  }

  lemma {:induction false} ValUpdate(s: seq<Limb>, i: nat, x: Limb)
    requires i < |s|
    ensures Val(s[i := x]) == Val(s) + Mul(x - s[i], Pow(i))
    decreases |s|
  {
    if i == 0 {
      assert s[i := x][1..] == s[1..];
      MulOne(x - s[i]);
    } else {
      assert s[i := x][1..] == s[1..][i - 1 := x];
      ValUpdate(s[1..], i - 1, x);
      MulBase(x - s[i], Pow(i - 1));
    }
  }

  // ----- bitwise or -----

  function Or(a: nat, b: nat): nat
    decreases a
  {
    if a == 0 then b else if b == 0 then a
    else 2 * Or(a / 2, b / 2) + if a % 2 == 1 || b % 2 == 1 then 1 else 0
  }

  lemma {:induction false} OrCommutes(a: nat, b: nat)
    ensures Or(a, b) == Or(b, a)
    decreases a
  {
    if a > 0 && b > 0 {
      OrCommutes(a / 2, b / 2);
    }
  }

  /** Numbers without common bits: the lower stays below the lowest bit of the higher. */
  lemma {:induction false} OrDisjoint(a: nat, m: nat, k: nat, b: nat)
    requires a < Pow2(k) && b == Mul(m, Pow2(k))
    ensures Or(a, b) == a + b
    decreases k
  {
    if k > 0 && a > 0 && b > 0 {
      MulSum(m, Pow2(k - 1), Pow2(k - 1));
      OrDisjoint(a / 2, m, k - 1, b / 2);
    }
  }

  // ----- the number of bits -----

  function Bits(v: nat): nat { if v == 0 then 0 else 1 + Bits(v / 2) }

  lemma {:induction false} BitsAre(v: nat)
    ensures v < Pow2(Bits(v)) && (v > 0 ==> Pow2(Bits(v) - 1) <= v)
  {
    if v > 0 {
      BitsAre(v / 2);
    }
  }

  lemma BitsUnique(v: nat, k: nat)
    requires v < Pow2(k) && (k > 0 ==> Pow2(k - 1) <= v)
    ensures Bits(v) == k
  {
    BitsAre(v);
    if Bits(v) < k {
      Pow2Mono(Bits(v), k - 1);
    } else if k < Bits(v) {
      Pow2Mono(k, Bits(v) - 1);
    }
  }
}
