/**
 The 256-bit unsigned integer as eight 32-bit limbs that are updated in place.

 Every operator is proved against natural numbers modulo 2^256. An operand other than the
 object itself is passed as the sequence of its limbs.
 */
module ArithUint256 {
  import opened Limbs
  import opened LimbOps
  import opened LimbShifts

  const WIDTH := 8
  const ZERO_LIMBS: Limbs8 := [0, 0, 0, 0, 0, 0, 0, 0]

  /** 2^256 */
  ghost const MODULUS := Pow(8)

  type Limbs8 = s: seq<Limb> | |s| == 8 witness [0, 0, 0, 0, 0, 0, 0, 0]

  lemma Tail<T>(s: seq<T>, i: nat)
    requires i < |s|
    ensures s[i..][0] == s[i] && s[i..][1..] == s[i + 1..] && s[..i] + [s[i]] == s[..i + 1]
  {
  }

  // ----- what each loop has done and what is left to do -----

  ghost predicate Adding(s: Limbs8, a: Limbs8, b: Limbs8, carry: nat, i: nat) {
    i <= 8 && s[i..] == a[i..] && s[..i] + AddLimbs(a[i..], b[i..], carry) == AddLimbs(a, b, 0)
  }

  lemma AddingStep(s: Limbs8, a: Limbs8, b: Limbs8, carry: nat, i: nat)
    requires Adding(s, a, b, carry, i) && i < 8
    ensures s[i] == a[i]
    ensures var n := AddN(carry, a[i], b[i]); Adding(s[i := Lo(n)], a, b, Hi(n), i + 1)
  {
    Tail(s, i);
    Tail(a, i);
    Tail(b, i);
    var n := AddN(carry, a[i], b[i]);
    var t := s[i := Lo(n)];
    assert t[..i + 1] == s[..i] + [Lo(n)];
    assert t[i + 1..] == s[i + 1..];
  }

  ghost predicate MulSmalling(s: Limbs8, a: Limbs8, k: Limb, carry: nat, i: nat) {
    i <= 8 && s[i..] == a[i..] && s[..i] + MulSmallLimbs(a[i..], k, carry) == MulSmallLimbs(a, k, 0)
  }

  lemma MulSmallingStep(s: Limbs8, a: Limbs8, k: Limb, carry: nat, i: nat)
    requires MulSmalling(s, a, k, carry, i) && i < 8
    ensures s[i] == a[i]
    ensures var n := MulN(carry, 0, k, a[i]); MulSmalling(s[i := Lo(n)], a, k, Hi(n), i + 1)
  {
    Tail(s, i);
    Tail(a, i);
    var n := MulN(carry, 0, k, a[i]);
    var t := s[i := Lo(n)];
    assert t[..i + 1] == s[..i] + [Lo(n)];
    assert t[i + 1..] == s[i + 1..];
  }

  ghost predicate Incrementing(s: Limbs8, a: Limbs8, i: nat) {
    i <= 8 && s[i..] == a[i..] && s[..i] + IncLimbs(a[i..]) == IncLimbs(a)
  }

  lemma IncrementingStep(s: Limbs8, a: Limbs8, i: nat)
    requires Incrementing(s, a, i) && i < 8
    ensures s[i] == BASE - 1 ==> Incrementing(s[i := 0], a, i + 1)
    ensures s[i] < BASE - 1 ==> s[i := s[i] + 1] == IncLimbs(a)
  {
    Tail(s, i);
    Tail(a, i);
    if s[i] == BASE - 1 {
      var t := s[i := 0];
      assert t[..i + 1] == s[..i] + [0];
      assert t[i + 1..] == s[i + 1..];
    } else {
      var t := s[i := s[i] + 1];
      assert t == s[..i] + ([s[i] + 1] + s[i + 1..]);
    }
  }

  ghost predicate Complementing(s: Limbs8, a: Limbs8, i: nat) {
    i <= 8 && s[..i] + NotLimbs(a[i..]) == NotLimbs(a)
  }

  lemma ComplementingStep(s: Limbs8, a: Limbs8, i: nat)
    requires Complementing(s, a, i) && i < 8
    ensures Complementing(s[i := BASE - 1 - a[i]], a, i + 1)
  {
    Tail(a, i);
    var t := s[i := BASE - 1 - a[i]];
    assert t[..i + 1] == s[..i] + [BASE - 1 - a[i]];
  }

  ghost predicate Dividing(s: Limbs8, a: Limbs8, d: Limb, rem: nat, i: nat) {
    i <= 8 && d > 0 && s[..i] == a[..i] && s[i..] == DivLimbs(a[i..], d).quotient && rem == DivLimbs(a[i..], d).remainder
  }

  lemma DividingStep(s: Limbs8, a: Limbs8, d: Limb, rem: nat, i: nat)
    requires Dividing(s, a, d, rem, i) && 0 < i
    ensures var t := DivN(rem, a[i - 1]);
            Quot(t, d) < BASE && s[i - 1] == a[i - 1] && Dividing(s[i - 1 := Quot(t, d)], a, d, Rem(t, d), i - 1)
  {
    var j := i - 1;
    Tail(a, j);
    Tail(s, j);
    assert s[..i][j] == a[..i][j];
    var t := DivN(rem, a[j]);
    QuotientFits(rem, a[j], d);
    var u := s[j := Quot(t, d)];
    assert u[..j] == s[..i][..j] && a[..i][..j] == a[..j];
    assert u[j..] == [Quot(t, d)] + s[i..];
  }

  /** The row of limb j: below it nothing changes, and i of its limbs are done. */
  ghost predicate Rowing(s: Limbs8, s0: Limbs8, k: Limb, b: Limbs8, carry: nat, j: nat, i: nat) {
    && i + j <= 8 && s[..j] == s0[..j] && s[i + j..] == s0[i + j..]
    && s[j..i + j] + MulAddLimbs(s0[i + j..], k, b[i..8 - j], carry) == MulAddLimbs(s0[j..], k, b[..8 - j], 0)
  }

  lemma RowingStep(s: Limbs8, s0: Limbs8, k: Limb, b: Limbs8, carry: nat, j: nat, i: nat)
    requires Rowing(s, s0, k, b, carry, j, i) && i + j < 8
    ensures s[i + j] == s0[i + j]
    ensures var n := MulN(carry, s0[i + j], k, b[i]); Rowing(s[i + j := Lo(n)], s0, k, b, Hi(n), j, i + 1)
  {
    var c := i + j;
    Tail(s, c);
    Tail(s0, c);
    Tail(b[..8 - j], i);
    assert b[..8 - j][i..] == b[i..8 - j] && b[..8 - j][i + 1..] == b[i + 1..8 - j];
    var n := MulN(carry, s0[c], k, b[i]);
    var t := s[c := Lo(n)];
    assert t[..j] == s[..j] && t[c + 1..] == s[c + 1..];
    assert t[j..c + 1] == s[j..c] + [Lo(n)];
    assert MulAddLimbs(s0[c..], k, b[i..8 - j], carry) == [Lo(n)] + MulAddLimbs(s0[c + 1..], k, b[i + 1..8 - j], Hi(n));
  }

  ghost predicate Multiplying(s: Limbs8, p: Limbs8, b: Limbs8, j: nat) {
    j <= 8 && s[..j] + MulFrom(p[j..], s[j..], b) == MulFrom(p, ZERO_LIMBS, b)
  }

  lemma RowDone(s: Limbs8, s0: Limbs8, p: Limbs8, b: Limbs8, carry: nat, j: nat)
    requires j < 8 && Multiplying(s0, p, b, j) && Rowing(s, s0, p[j], b, carry, j, 8 - j)
    ensures Multiplying(s, p, b, j + 1)
  {
    var row := MulAddLimbs(s0[j..], p[j], b[..8 - j], 0);
    assert s0[8..] == [] && s[j..8] == s[j..];
    assert s[j..] == row;
    Tail(p, j);
    Tail(s, j);
    assert s[..j] + [row[0]] == s[..j + 1];
    assert MulFrom(p[j..], s0[j..], b) == [row[0]] + MulFrom(p[j + 1..], s[j + 1..], b);
  }

  // ----- shifting -----

  function CarriedUp(a: Limbs8, s: nat, i: nat): nat
    requires s < 32 && i <= 8
  {
    if i == 0 then 0 else High(a[i - 1], s)
  }

  /** Limbs below i + k are done, limb i + k holds what was carried into it, the others are zero. */
  ghost predicate ShlAt(r: Limbs8, a: Limbs8, k: nat, s: nat, i: nat, t: nat)
    requires s < 32 && i <= 8 && t < 8
  {
    && (t < i + k ==> r[t] == ShlLimbs(a, k, s)[t])
    && (t == i + k ==> r[t] == CarriedUp(a, s, i))
    && (t > i + k ==> r[t] == 0)
  }

  ghost predicate ShiftingLeft(r: Limbs8, a: Limbs8, k: nat, s: nat, i: nat)
    requires s < 32 && i <= 8
  {
    forall t: nat {:trigger ShlAt(r, a, k, s, i, t)} :: t < 8 ==> ShlAt(r, a, k, s, i, t)
  }

  lemma CarryFits(a: Limbs8, s: nat, i: nat)
    requires s < 32 && i <= 8
    ensures CarriedUp(a, s, i) < Pow2(s) && CarriedUp(a, s, i) < BASE
  {
    if i > 0 {
      ShiftParts(a[i - 1], s);
    }
  }

  lemma ShlElement(a: Limbs8, k: nat, s: nat, i: nat)
    requires s < 32 && i + k < 8
    ensures ShlLimbs(a, k, s)[i + k] == CarriedUp(a, s, i) + Low(a[i], s)
  {
    ShlSeqAt(a[..8 - k], s, 0, i);
  }

  lemma ShiftingLeftStep(r: Limbs8, a: Limbs8, k: nat, s: nat, i: nat, r': Limbs8)
    requires s < 32 && i < 8 && ShiftingLeft(r, a, k, s, i)
    requires forall t: nat :: t < 8 ==>
               r'[t] == (if t == i + k then r[t] + Low(a[i], s) else if t == i + k + 1 then High(a[i], s) else r[t])
    ensures ShiftingLeft(r', a, k, s, i + 1)
  {
    var j := i + 1;
    forall t: nat | t < 8 ensures ShlAt(r', a, k, s, j, t) {
      assert ShlAt(r, a, k, s, i, t);
      if t == i + k {
        ShlElement(a, k, s, i);
      }
    }
  }

  /** What the two writes of one round do. */
  lemma OrIntoLeft(r: Limbs8, a: Limbs8, k: nat, s: nat, i: nat)
    requires s < 32 && i < 8 && ShiftingLeft(r, a, k, s, i)
    ensures Low(a[i], s) >= 0
    ensures i + k < 8 ==> Or(r[i + k], Low(a[i], s)) == r[i + k] + Low(a[i], s) < BASE
    ensures i + k + 1 < 8 ==> r[i + k + 1] == 0 && High(a[i], s) < BASE
    ensures s == 0 ==> High(a[i], s) == 0
  {
    ShiftParts(a[i], s);
    CarryFits(a, s, i);
    if i + k < 8 {
      assert ShlAt(r, a, k, s, i, i + k);
      OrLow(r[i + k], a[i], s);
    }
    if i + k + 1 < 8 {
      assert ShlAt(r, a, k, s, i, i + k + 1);
    }
  }

  /** Limbs up to i - k - 2 are done, limb i - k - 1 misses what comes down from limb i. */
  ghost predicate ShrAt(r: Limbs8, a: Limbs8, k: nat, s: nat, i: nat, t: nat)
    requires s < 32 && i <= 8 && t < 8
  {
    && (t + k + 1 < i ==> r[t] == ShrLimbs(a, k, s)[t])
    && (t + k + 1 == i ==> r[t] == Kept(a[i - 1], s))
    && (t + k + 1 > i ==> r[t] == 0)
  }

  ghost predicate ShiftingRight(r: Limbs8, a: Limbs8, k: nat, s: nat, i: nat)
    requires s < 32 && i <= 8
  {
    forall t: nat {:trigger ShrAt(r, a, k, s, i, t)} :: t < 8 ==> ShrAt(r, a, k, s, i, t)
  }

  lemma ShrElement(a: Limbs8, k: nat, s: nat, t: nat)
    requires s < 32 && t < 8
    ensures t + k < 8 ==>
              ShrLimbs(a, k, s)[t] == Kept(a[t + k], s) + Down(if t + k + 1 < 8 then a[t + k + 1] else 0, s)
    ensures t + k >= 8 ==> ShrLimbs(a, k, s)[t] == 0
  {
    if t + k < 8 {
      ShrSeqAt(a[k..], s, t);
    }
  }

  lemma DownOfZero(s: nat)
    requires s < 32
    ensures Down(0, s) == 0 && (s == 0 ==> forall x: Limb :: Down(x, s) == 0)
  {
    MulOne(Pow2(32 - s));
    if s == 0 {
      forall x: Limb ensures Down(x, s) == 0 {
        QuotRem(x, 1);
      }
    }
  }

  lemma ShiftingRightStep(r: Limbs8, a: Limbs8, k: nat, s: nat, i: nat, r': Limbs8)
    requires s < 32 && i < 8 && ShiftingRight(r, a, k, s, i)
    requires forall t: nat :: t < 8 ==>
               r'[t] == (if t + k + 1 == i then r[t] + Down(a[i], s) else if t + k == i then Kept(a[i], s) else r[t])
    ensures ShiftingRight(r', a, k, s, i + 1)
  {
    var j := i + 1;
    forall t: nat | t < 8 ensures ShrAt(r', a, k, s, j, t) {
      assert ShrAt(r, a, k, s, i, t);
      if t + k + 1 == i {
        ShrElement(a, k, s, t);
      }
    }
  }

  lemma ShiftedRight(r: Limbs8, a: Limbs8, k: nat, s: nat)
    requires s < 32 && ShiftingRight(r, a, k, s, 8)
    ensures r == ShrLimbs(a, k, s)
  {
    forall t: nat | t < 8 ensures r[t] == ShrLimbs(a, k, s)[t] {
      assert ShrAt(r, a, k, s, 8, t);
      ShrElement(a, k, s, t);
      DownOfZero(s);
    }
  }

  lemma OrIntoRight(r: Limbs8, a: Limbs8, k: nat, s: nat, i: nat)
    requires s < 32 && i < 8 && ShiftingRight(r, a, k, s, i)
    ensures Down(a[i], s) >= 0 && Kept(a[i], s) < BASE
    ensures i >= k + 1 ==> Or(r[i - k - 1], Down(a[i], s)) == r[i - k - 1] + Down(a[i], s) < BASE
    ensures i >= k ==> r[i - k] == 0
    ensures s == 0 ==> Down(a[i], s) == 0
  {
    DownParts(a[i], s);
    Pow2Is32();
    Pow2Mono(32 - s, 32);
    DownOfZero(s);
    if i >= k + 1 {
      assert ShrAt(r, a, k, s, i, i - k - 1);
      OrDown(a[i - 1], a[i], s);
    }
    if i >= k {
      assert ShrAt(r, a, k, s, i, i - k);
    }
  }

  // ----- bits -----

  lemma BitTest(x: nat, k: nat)
    requires x < Pow2(k + 1)
    ensures x / Pow2(k) % 2 == 1 <==> x >= Pow2(k)
  {
    QuotIs(x, Pow2(k));
    assert x >= Pow2(k) ==> Quot(x, Pow2(k)) == 1 + Quot(x - Pow2(k), Pow2(k));
  }

  method TopBit(x: Limb) returns (r: nat)
    requires x > 0
    ensures r == Bits(x)
  {
    Pow2Is32();
    var nbits := 31;
    while nbits > 0
      invariant 0 <= nbits <= 31 && x < Pow2(nbits + 1)
    {
      BitTest(x, nbits);
      if x as int / Pow2(nbits) % 2 == 1 {
        BitsUnique(x, nbits + 1);
        return nbits + 1;
      }
      nbits := nbits - 1;
    }
    BitsUnique(x, 1);
    return 1;
  }

  // ----- long division -----

  ghost predicate IsTimes(x: nat, z: nat, k: nat) { x == Mul(z, Pow2(k)) }

  ghost predicate Multiple(x: nat, k: nat) { exists z: nat :: IsTimes(x, z, k) }

  lemma {:induction false} MultipleOfLess(x: nat, k: nat, j: nat)
    requires Multiple(x, k) && j <= k
    ensures Multiple(x, j)
    decreases k
  {
    if j < k {
      var z: nat :| IsTimes(x, z, k);
      MulAdd(z, z, Pow2(k - 1));
      MulSum(z, Pow2(k - 1), Pow2(k - 1));
      assert IsTimes(x, z + z, k - 1);
      MultipleOfLess(x, k - 1, j);
    }
  }

  lemma AddBit(x: Limb, t: nat)
    requires t < 32 && Multiple(x, t + 1)
    ensures Or(x, Pow2(t)) == x as int + Pow2(t) < BASE && Multiple(x as int + Pow2(t), t)
  {
    var z: nat :| IsTimes(x, z, t + 1);
    OrDisjoint(Pow2(t), z, t + 1, x);
    OrCommutes(x, Pow2(t));
    MulAdd(z, z, Pow2(t));
    MulSum(z, Pow2(t), Pow2(t));
    MulStep(z + z, Pow2(t));
    assert IsTimes(x as int + Pow2(t), z + z + 1, t);
    TopRoom(x, t, z);
  }

  /** A multiple of 2^(t+1) below the base leaves room for 2^t. */
  lemma TopRoom(x: Limb, t: nat, z: nat)
    requires t < 32 && IsTimes(x, z, t + 1)
    ensures x as int + Pow2(t) < BASE
  {
    TwoPowers(t + 1);
    var p, q := Pow2(t + 1), Pow2(32 - (t + 1));
    if z >= q {
      MulLess(q, z, p);
    } else {
      MulLess(z, q - 1, p);
      MulStep(q - 1, p);
    }
  }

  function Clear(e: int, m: nat): nat { if e <= 32 * m then 0 else if e >= 32 * m + 32 then 32 else e - 32 * m }

  /** The lowest e bits are clear. */
  ghost predicate LowClear(s: Limbs8, e: int) {
    forall m: nat :: m < 8 ==> Multiple(s[m], Clear(e, m))
  }

  lemma NothingSet(e: int)
    ensures LowClear(ZERO_LIMBS, e)
  {
    forall m: nat | m < 8 ensures Multiple(ZERO_LIMBS[m], Clear(e, m)) {
      MulOne(Pow2(Clear(e, m)));
      assert IsTimes(0, 0, Clear(e, m));
    }
  }

  lemma ClearLess(s: Limbs8, e: int)
    requires LowClear(s, e)
    ensures LowClear(s, e - 1)
  {
    forall m: nat | m < 8 ensures Multiple(s[m], Clear(e - 1, m)) {
      MultipleOfLess(s[m], Clear(e, m), Clear(e - 1, m));
    }
  }

  /** Setting the highest of the clear bits adds its weight. */
  lemma SetBitAt(s: Limbs8, e: nat)
    requires e < 256 && LowClear(s, e + 1)
    ensures var m, t := e / 32, e % 32;
            var x := Or(s[m], Pow2(t));
            x < BASE && LowClear(s[m := x], e) && Val(s[m := x]) == Val(s) + Pow2(e)
  {
    var m, t := e / 32, e % 32;
    assert Clear(e + 1, m) == t + 1 && Clear(e, m) == t;
    AddBit(s[m], t);
    var x := Or(s[m], Pow2(t));
    ClearLess(s, e + 1);
    forall i: nat | i < 8 ensures Multiple(s[m := x][i], Clear(e, i)) {
    }
    ValUpdate(s, m, x);
    ShiftWeight(e);
    MulComm(Pow(m), Pow2(t));
  }

  /** Quotient and remainder so far, with the divisor shifted left by `shift`. */
  ghost predicate DividingLong(n: nat, d: nat, q: nat, num: nat, div: nat, shift: int) {
    && shift >= -1 && n == num + Mul(q, d)
    && (shift >= 0 ==> div == Mul(d, Pow2(shift)))
    && num < Mul(d, Pow2(shift + 1))
  }

  lemma DividingLongStep(n: nat, d: nat, q: nat, num: nat, div: nat, shift: int)
    requires DividingLong(n, d, q, num, div, shift) && shift >= 0
    ensures num >= div ==> DividingLong(n, d, q + Pow2(shift), num - div, div / 2, shift - 1)
    ensures num < div ==> DividingLong(n, d, q, num, div / 2, shift - 1)
  {
    var p := Pow2(shift);
    MulSum(d, p, p);
    if shift > 0 {
      MulSum(d, Pow2(shift - 1), Pow2(shift - 1));
    }
    if num >= div {
      MulAdd(q, p, d);
      MulComm(p, d);
    }
  }

  lemma DividedLong(n: nat, d: nat, q: nat, num: nat, div: nat)
    requires d > 0 && DividingLong(n, d, q, num, div, -1)
    ensures q == n / d
  {
    MulOne(d);
    ModIs(n, d, q, num);
  }

  lemma ShiftedFits(d: nat, bits: nat, shift: nat, w: nat)
    requires d < Pow2(bits) && bits + shift <= w
    ensures 0 <= Mul(d, Pow2(shift)) < Pow2(w)
  {
    Pow2Add(bits, shift);
    Pow2Mono(bits + shift, w);
    MulLess(d, Pow2(bits) - 1, Pow2(shift));
    MulStep(Pow2(bits) - 1, Pow2(shift));
    MulNonNegative(d, Pow2(shift));
  }

  lemma {:induction false} BitsAtMost(n: nat, w: nat)
    requires n < Pow2(w)
    ensures Bits(n) <= w
  {
    if n > 0 {
      BitsAtMost(n / 2, w - 1);
    }
  }

  lemma LessThanTwice(n: nat, d: nat, shift: nat)
    requires d > 0 && Bits(n) == Bits(d) + shift
    ensures n < Mul(d, Pow2(shift + 1))
  {
    BitsAre(n);
    BitsAre(d);
    Pow2Add(Bits(d) - 1, shift + 1);
    MulLess(Pow2(Bits(d) - 1), d, Pow2(shift + 1));
  }

  /** The highest bits of dividend and shifted divisor are aligned. */
  lemma Aligned(n: nat, d: nat, shift: nat, div: nat)
    requires d > 0 && n < MODULUS && Bits(n) == Bits(d) + shift && div == (d * Pow2(shift)) % MODULUS
    ensures DividingLong(n, d, 0, n, div, shift)
  {
    PowIsPow2(8);
    BitsFit(n);
    BitsAre(d);
    ShiftedFits(d, Bits(d), shift, 32 * 8);
    LessThanTwice(n, d, shift);
    NoWrap(d, Pow2(shift), MODULUS, div);
    MulOne(d);
  }

  lemma NoWrap(d: nat, p: nat, m: nat, r: nat)
    requires 0 <= Mul(d, p) < m && r == (d * p) % m
    ensures r == Mul(d, p)
  {
    MulIs(d, p);
    MulOne(m);
    ModIs(d * p, m, 0, d * p);
  }

  lemma BitsFit(n: nat)
    requires n < MODULUS
    ensures Bits(n) <= 256
  {
    PowIsPow2(8);
    BitsAtMost(n, 32 * 8);
  }

  class Uint256 {
    const pn: array<Limb>

    ghost predicate Valid() { pn.Length == WIDTH }

    ghost function Value(): nat
      reads pn
    {
      Val(pn[..])
    }

    constructor (s: Limbs8)
      ensures Valid() && fresh(pn) && pn[..] == s
    {
      pn := new Limb[8](i requires 0 <= i < 8 => s[i]);
    }

    method Assign(s: Limbs8)
      requires Valid()
      modifies pn
      ensures pn[..] == s
    {
      for i := 0 to WIDTH
        invariant forall k :: 0 <= k < i ==> pn[k] == s[k]
      {
        pn[i] := s[i];
      }
    }

    /** From a 64-bit word. */
    method AssignWord(b: nat)
      requires Valid() && b < 0x1_0000_0000_0000_0000
      modifies pn
      ensures Value() == b
    {
      Assign(ZERO_LIMBS);
      pn[0] := b % BASE;
      pn[1] := b / BASE;
      WordValue(pn[..], b);
    }

    method GetLow64() returns (r: nat)
      requires Valid()
      ensures r == Value() % 0x1_0000_0000_0000_0000
    {
      r := pn[0] as int + pn[1] as int * BASE;
      LowWord(pn[..]);
    }

    method Complement() returns (r: Uint256)
      requires Valid()
      ensures r.Valid() && fresh(r) && fresh(r.pn) && r.Value() == MODULUS - 1 - Value()
    {
      r := new Uint256(ZERO_LIMBS);
      assert r.pn[..][..0] + NotLimbs(pn[..][0..]) == NotLimbs(pn[..]);
      for i := 0 to WIDTH
        invariant r.Valid() && Complementing(r.pn[..], pn[..], i)
      {
        ComplementingStep(r.pn[..], pn[..], i);
        r.pn[i] := BASE - 1 - pn[i];
      }
      assert r.pn[..] == NotLimbs(pn[..]);
      NotValue(pn[..]);
    }

    method Increment()
      requires Valid()
      modifies pn
      ensures Value() == (old(Value()) + 1) % MODULUS
    {
      Ripple();
      IncWord(old(pn[..]));
    }

    method Ripple()
      requires Valid()
      modifies pn
      ensures pn[..] == IncLimbs(old(pn[..]))
    {
      ghost var a := pn[..];
      assert a[..0] + IncLimbs(a[0..]) == IncLimbs(a);
      var i := 0;
      while i < WIDTH && pn[i] == BASE - 1
        invariant 0 <= i <= WIDTH && Incrementing(pn[..], a, i)
      {
        IncrementingStep(pn[..], a, i);
        pn[i] := 0;
        i := i + 1;
      }
      if i < WIDTH {
        IncrementingStep(pn[..], a, i);
        pn[i] := pn[i] + 1;
      }
      assert pn[..] == IncLimbs(a);
    }

    method Negate() returns (r: Uint256)
      requires Valid()
      ensures r.Valid() && fresh(r) && fresh(r.pn) && r.Value() == (MODULUS - Value()) % MODULUS
    {
      r := Complement();
      r.Increment();
    }

    method AddAssign(b: Limbs8)
      requires Valid()
      modifies pn
      ensures Value() == (old(Value()) + Val(b)) % MODULUS
    {
      AddInPlace(b);
      AddWord(old(pn[..]), b);
    }

    method AddInPlace(b: Limbs8)
      requires Valid()
      modifies pn
      ensures pn[..] == AddLimbs(old(pn[..]), b, 0)
    {
      ghost var a := pn[..];
      assert a[..0] + AddLimbs(a[0..], b[0..], 0) == AddLimbs(a, b, 0);
      var carry: nat := 0;
      for i := 0 to WIDTH
        invariant Adding(pn[..], a, b, carry, i)
      {
        AddingStep(pn[..], a, b, carry, i);
        var n := carry + pn[i] as int + b[i] as int;
        pn[i] := n % BASE;
        carry := n / BASE;
      }
      assert pn[..] == AddLimbs(a, b, 0);
    }

    method SubAssign(b: Limbs8)
      requires Valid()
      modifies pn
      ensures Value() == (old(Value()) - Val(b)) % MODULUS
    {
      var copy := new Uint256(b);
      var minus := copy.Negate();
      AddAssign(minus.pn[..]);
      SubWord(old(Value()), Val(minus.pn[..]), b, Value());
    }

    method MulSmallAssign(b32: Limb)
      requires Valid()
      modifies pn
      ensures Value() == (old(Value()) * b32) % MODULUS
    {
      ghost var a := pn[..];
      assert a[..0] + MulSmallLimbs(a[0..], b32, 0) == MulSmallLimbs(a, b32, 0);
      var carry: nat := 0;
      for i := 0 to WIDTH
        invariant carry < BASE && MulSmalling(pn[..], a, b32, carry, i)
      {
        MulSmallingStep(pn[..], a, b32, carry, i);
        NoOverflow(carry, 0, b32, pn[i]);
        var n: nat := carry + b32 as int * pn[i] as int;
        assert n == MulN(carry, 0, b32, a[i]) < 0x1_0000_0000_0000_0000;
        pn[i] := n % BASE;
        carry := n / BASE;
      }
      assert pn[..] == MulSmallLimbs(a, b32, 0);
      MulSmallValue(a, b32);
    }

    method MulAssign(b: Limbs8)
      requires Valid()
      modifies pn
      ensures Value() == (old(Value()) * Val(b)) % MODULUS
    {
      ghost var p := pn[..];
      var a := new Uint256(ZERO_LIMBS);
      assert ZERO_LIMBS[..0] + MulFrom(p[0..], ZERO_LIMBS[0..], b) == MulFrom(p, ZERO_LIMBS, b);
      for j := 0 to WIDTH
        invariant a.Valid() && pn[..] == p && Multiplying(a.pn[..], p, b, j)
      {
        AddRow(a, b, j);
      }
      assert a.pn[..] == MulFrom(p, ZERO_LIMBS, b);
      MulWord(p, b);
      Assign(a.pn[..]);
    }

    /** Adds limb j times b to a, from limb j on. */
    method AddRow(a: Uint256, b: Limbs8, j: nat)
      requires Valid() && a.Valid() && a.pn != pn && j < WIDTH && Multiplying(a.pn[..], pn[..], b, j)
      modifies a.pn
      ensures Multiplying(a.pn[..], pn[..], b, j + 1)
    {
      ghost var s0 := a.pn[..];
      ghost var p := pn[..];
      var carry: nat := 0;
      assert s0[j..j] + MulAddLimbs(s0[j..], p[j], b[0..8 - j], 0) == MulAddLimbs(s0[j..], p[j], b[..8 - j], 0);
      for i := 0 to WIDTH - j
        invariant a.Valid() && pn[..] == p && carry < BASE && Rowing(a.pn[..], s0, p[j], b, carry, j, i)
      {
        RowingStep(a.pn[..], s0, p[j], b, carry, j, i);
        NoOverflow(carry, a.pn[i + j], pn[j], b[i]);
        var n: nat := carry + a.pn[i + j] as int + pn[j] as int * b[i] as int;
        assert n == MulN(carry, s0[i + j], p[j], b[i]) < 0x1_0000_0000_0000_0000;
        a.pn[i + j] := n % BASE;
        carry := n / BASE;
      }
      RowDone(a.pn[..], s0, p, b, carry, j);
    }

    /** Division by zero is an error, reported as false. */
    method DivSmallAssign(b32: Limb) returns (ok: bool)
      requires Valid()
      modifies pn
      ensures ok == (b32 != 0)
      ensures ok ==> Value() == old(Value()) / (b32 as int)
      ensures !ok ==> pn[..] == old(pn[..])
    {
      if b32 == 0 {
        return false;
      }
      ghost var a := pn[..];
      assert a[8..] == [];
      var remainder: nat := 0;
      var i := WIDTH;
      while i > 0
        invariant 0 <= i <= WIDTH && Dividing(pn[..], a, b32, remainder, i)
      {
        DividingStep(pn[..], a, b32, remainder, i);
        i := i - 1;
        var t: nat := remainder * BASE + pn[i] as int;
        QuotIs(t, b32);
        pn[i] := t / b32 as int;
        remainder := t % b32 as int;
      }
      assert pn[..][0..] == pn[..] && a[0..] == a;
      DivSmallValue(a, b32);
      ok := true;
    }

    method ShiftLeft(shift: nat)
      requires Valid()
      modifies pn
      ensures Value() == (old(Value()) * Pow2(shift)) % MODULUS
    {
      ghost var a := pn[..];
      ShlInPlace(shift / 32, shift % 32);
      ShlWord(a, shift);
    }

    method ShlInPlace(k: nat, s: nat)
      requires Valid() && s < 32
      modifies pn
      ensures pn[..] == ShlLimbs(old(pn[..]), k, s)
    {
      var a: Limbs8 := pn[..];
      Assign(ZERO_LIMBS);
      forall t: nat | t < 8 ensures ShlAt(pn[..], a, k, s, 0, t) {
      }
      for i := 0 to WIDTH
        invariant Valid() && ShiftingLeft(pn[..], a, k, s, i)
      {
        ghost var r := pn[..];
        OrIntoLeft(r, a, k, s, i);
        WordShifts(a[i], s);
        if i + k + 1 < WIDTH && s != 0 {
          pn[i + k + 1] := Or(pn[i + k + 1], a[i] as int / Pow2(32 - s));
        }
        if i + k < WIDTH {
          pn[i + k] := Or(pn[i + k], a[i] as int * Pow2(s) % BASE);
        }
        ShiftingLeftStep(r, a, k, s, i, pn[..]);
      }
      forall t: nat | t < 8 ensures pn[t] == ShlLimbs(a, k, s)[t] {
        assert ShlAt(pn[..], a, k, s, 8, t);
      }
    }

    method ShiftRight(shift: nat)
      requires Valid()
      modifies pn
      ensures Value() == old(Value()) / Pow2(shift)
    {
      ghost var a := pn[..];
      ShrInPlace(shift / 32, shift % 32);
      ShrIsDivision(a, shift);
    }

    method ShrInPlace(k: nat, s: nat)
      requires Valid() && s < 32
      modifies pn
      ensures pn[..] == ShrLimbs(old(pn[..]), k, s)
    {
      var a: Limbs8 := pn[..];
      Assign(ZERO_LIMBS);
      forall t: nat | t < 8 ensures ShrAt(pn[..], a, k, s, 0, t) {
      }
      for i := 0 to WIDTH
        invariant Valid() && ShiftingRight(pn[..], a, k, s, i)
      {
        ghost var r := pn[..];
        OrIntoRight(r, a, k, s, i);
        WordDown(a[i], s);
        if i - k - 1 >= 0 && s != 0 {
          pn[i - k - 1] := Or(pn[i - k - 1], a[i] as int * Pow2(32 - s) % BASE);
        }
        if i - k >= 0 {
          pn[i - k] := Or(pn[i - k], a[i] as int / Pow2(s));
        }
        ShiftingRightStep(r, a, k, s, i, pn[..]);
      }
      ShiftedRight(pn[..], a, k, s);
    }

    /** The position of the highest set bit, plus one. */
    method CountBits() returns (r: nat)
      requires Valid()
      ensures r == Bits(Value())
    {
      ghost var a := pn[..];
      var pos := WIDTH;
      while pos > 0
        invariant 0 <= pos <= WIDTH && a == pn[..] && forall i :: pos <= i < WIDTH ==> a[i] == 0
      {
        pos := pos - 1;
        if pn[pos] != 0 {
          var top := TopBit(pn[pos]);
          BitsOfLimbs(a, pos);
          return 32 * pos + top;
        }
      }
      ValZero(a);
      return 0;
    }

    /** Shift-and-subtract division. Division by zero is an error, reported as false after the
        object was set to zero. */
    method DivAssign(b: Limbs8) returns (ok: bool)
      requires Valid()
      modifies pn
      ensures ok == (Val(b) != 0)
      ensures ok ==> Value() == old(Value()) / Val(b)
      ensures !ok ==> Value() == 0
    {
      var div := new Uint256(b);
      var num := new Uint256(pn[..]);
      Assign(ZERO_LIMBS);
      ValZero(ZERO_LIMBS);
      var numBits := num.CountBits();
      var divBits := div.CountBits();
      if divBits == 0 {
        return false;
      }
      if divBits > numBits {
        SmallerBits(num.Value(), Val(b));
        return true;
      }
      var shift := numBits - divBits;
      ValBound(num.pn[..]);
      div.AlignWith(shift, num.Value());
      LongDivision(num, div, shift, num.Value(), Val(b));
      ok := true;
    }

    /** Shifts the divisor so that its highest bit is that of the dividend. */
    method AlignWith(shift: nat, ghost n: nat)
      requires Valid() && Value() > 0 && n < MODULUS && Bits(n) == Bits(Value()) + shift
      modifies pn
      ensures DividingLong(n, old(Value()), 0, n, Value(), shift) && shift < 256
    {
      BitsFit(n);
      ShiftLeft(shift);
      Aligned(n, old(Value()), shift, Value());
    }

    method LongDivision(num: Uint256, div: Uint256, shift0: nat, ghost n: nat, ghost d: nat)
      requires Valid() && num.Valid() && div.Valid() && pn != num.pn && pn != div.pn && num.pn != div.pn
      requires pn[..] == ZERO_LIMBS && shift0 < 256 && d > 0 && DividingLong(n, d, 0, num.Value(), div.Value(), shift0)
      modifies pn, num.pn, div.pn
      ensures Value() == n / d
    {
      var shift: int := shift0;
      ValZero(ZERO_LIMBS);
      NothingSet(shift + 1);
      while shift >= 0
        invariant -1 <= shift < 256 && LowClear(pn[..], shift + 1)
        invariant DividingLong(n, d, Value(), num.Value(), div.Value(), shift)
      {
        DivideOnce(num, div, shift, n, d);
        shift := shift - 1;
      }
      DividedLong(n, d, Value(), num.Value(), div.Value());
    }

    method DivideOnce(num: Uint256, div: Uint256, shift: nat, ghost n: nat, ghost d: nat)
      requires Valid() && num.Valid() && div.Valid() && pn != num.pn && pn != div.pn && num.pn != div.pn
      requires shift < 256 && LowClear(pn[..], shift + 1) && DividingLong(n, d, Value(), num.Value(), div.Value(), shift)
      modifies pn, num.pn, div.pn
      ensures LowClear(pn[..], shift) && DividingLong(n, d, Value(), num.Value(), div.Value(), shift - 1)
    {
      DividingLongStep(n, d, Value(), num.Value(), div.Value(), shift);
      var fits := num.SubtractIfFits(div);
      if fits {
        SetBitAt(pn[..], shift);
        pn[shift / 32] := Or(pn[shift / 32], Pow2(shift % 32));
      } else {
        ClearLess(pn[..], shift + 1);
      }
      div.ShiftRight(1);
    }

    method SubtractIfFits(div: Uint256) returns (fits: bool)
      requires Valid() && div.Valid() && pn != div.pn
      modifies pn
      ensures fits == (old(Value()) >= div.Value())
      ensures Value() == if fits then old(Value()) - div.Value() else old(Value())
    {
      var c := CompareTo(div.pn[..]);
      fits := c >= 0;
      if fits {
        ValBound(pn[..]);
        NoBorrow(Value(), div.Value(), MODULUS);
        SubAssign(div.pn[..]);
      }
    }

    /** Equality with a 64-bit word. */
    method EqualTo(b: nat) returns (r: bool)
      requires Valid() && b < 0x1_0000_0000_0000_0000
      ensures r == (Value() == b)
    {
      ghost var a := pn[..];
      LowWord(a);
      var i := WIDTH;
      while i > 2
        invariant 2 <= i <= WIDTH && a == pn[..] && forall k :: i <= k < WIDTH ==> a[k] == 0
      {
        i := i - 1;
        if pn[i] != 0 {
          NotWord(a, i);
          return false;
        }
      }
      if pn[1] != b / BASE {
        return false;
      }
      if pn[0] != b % BASE {
        return false;
      }
      WordValue(a, b);
      return true;
    }

    method CompareTo(b: Limbs8) returns (r: int)
      requires Valid()
      ensures r == if Value() < Val(b) then -1 else if Value() > Val(b) then 1 else 0
    {
      ghost var a := pn[..];
      assert a[8..] == b[8..];
      var i := WIDTH;
      while i > 0
        invariant 0 <= i <= WIDTH && a == pn[..] && a[i..] == b[i..]
      {
        i := i - 1;
        if pn[i] < b[i] {
          LessAt(a, b, i);
          return -1;
        }
        if pn[i] > b[i] {
          LessAt(b, a, i);
          return 1;
        }
        assert a[i..] == [a[i]] + a[i + 1..] && b[i..] == [b[i]] + b[i + 1..];
      }
      assert a[0..] == a && b[0..] == b;
      return 0;
    }
  }

  lemma NoBorrow(x: nat, y: nat, m: nat)
    requires y <= x < m
    ensures (x - y) % m == x - y
  {
    MulOne(m);
    ModIs(x - y, m, 0, x - y);
  }

  lemma SmallerBits(n: nat, d: nat)
    requires Bits(n) < Bits(d)
    ensures n < d && d > 0 && n / d == 0
  {
    BitsAre(n);
    BitsAre(d);
    Pow2Mono(Bits(n), Bits(d) - 1);
    MulOne(d);
    ModIs(n, d, 0, n);
  }

  lemma IncWord(a: Limbs8)
    ensures Val(IncLimbs(a)) == (Val(a) + 1) % MODULUS
  {
    IncValue(a);
    ValBound(a);
    MulOne(MODULUS);
    if Val(a) == MODULUS - 1 {
      ModIs(Val(a) + 1, MODULUS, 1, 0);
    } else {
      ModIs(Val(a) + 1, MODULUS, 0, Val(a) + 1);
    }
  }

  lemma AddWord(a: Limbs8, b: Limbs8)
    ensures Val(AddLimbs(a, b, 0)) == (Val(a) + Val(b)) % MODULUS
  {
    AddValue(a, b);
  }

  lemma MulWord(a: Limbs8, b: Limbs8)
    ensures Val(MulFrom(a, ZERO_LIMBS, b)) == (Val(a) * Val(b)) % MODULUS
  {
    MulValue(a, ZERO_LIMBS, b);
  }

  lemma ShlWord(a: Limbs8, shift: nat)
    ensures Val(ShlLimbs(a, shift / 32, shift % 32)) == (Val(a) * Pow2(shift)) % MODULUS
  {
    ShlValue(a, shift);
  }

  lemma WordValue(s: Limbs8, b: nat)
    requires b < 0x1_0000_0000_0000_0000 && s[0] == b % BASE && s[1] == b / BASE && forall i :: 2 <= i < 8 ==> s[i] == 0
    ensures Val(s) == b
  {
    assert s[1..][1..] == s[2..];
    ValZero(s[2..]);
    assert Val(s[1..]) == s[1] as int;
  }

  /** A limb above the lowest two makes the value larger than any 64-bit word. */
  lemma NotWord(s: Limbs8, i: nat)
    requires 2 <= i < 8 && s[i] != 0
    ensures Val(s) >= 0x1_0000_0000_0000_0000
  {
    var t := s[1..][1..];
    assert t[i - 2] == s[i];
    SomeLimb(t, i - 2);
    assert Val(s[1..]) == s[1] as int + BASE * Val(t);
  }

  lemma {:induction false} SomeLimb(s: seq<Limb>, i: nat)
    requires i < |s| && s[i] != 0
    ensures Val(s) > 0
    decreases |s|
  {
    if i > 0 {
      SomeLimb(s[1..], i - 1);
    }
  }

  lemma LowWord(s: Limbs8)
    ensures s[0] as int + s[1] as int * BASE == Val(s) % 0x1_0000_0000_0000_0000
  {
    var w, v := s[0] as int + s[1] as int * BASE, Val(s[1..][1..]);
    assert Val(s[1..]) == s[1] as int + BASE * v;
    MulIs(v, 0x1_0000_0000_0000_0000);
    ModIs(Val(s), 0x1_0000_0000_0000_0000, v, w);
  }

  lemma SubWord(x: nat, minus: nat, b: Limbs8, r: nat)
    requires minus == (MODULUS - Val(b)) % MODULUS && r == (x + minus) % MODULUS
    ensures r == (x - Val(b)) % MODULUS
  {
    ValBound(b);
    SubIsAddNegated(x, Val(b), MODULUS);
  }

  lemma SubIsAddNegated(x: int, y: int, m: int)
    requires 0 <= y < m
    ensures (x + (m - y) % m) % m == (x - y) % m
  {
    if y == 0 {
      MulOne(m);
      ModIs(m, m, 1, 0);
    } else {
      MulOne(m);
      ModIs(m - y, m, 0, m - y);
      AddModulus(x - y, m);
    }
  }

  lemma AddModulus(x: int, m: int)
    requires m > 0
    ensures (x + m) % m == x % m
  {
    DivMod(x, m);
    MulStep(x / m, m);
    ModIs(x + m, m, x / m + 1, x % m);
  }
}
