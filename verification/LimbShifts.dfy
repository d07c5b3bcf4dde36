/** Shifts of limb sequences: whole limbs and single bits, with the parts that cross a limb. */
module LimbShifts {
  import opened Limbs
  import opened LimbOps

  /** The bits of a limb that stay in it when it is shifted left. */
  ghost function Low(x: Limb, s: nat): int
    requires s < 32
  {
    Mul(Rem(x, Pow2(32 - s)), Pow2(s))
  }

  /** The bits that move into the next limb. */
  function High(x: Limb, s: nat): nat
    requires s < 32
  {
    Quot(x, Pow2(32 - s))
  }

  lemma TwoPowers(s: nat)
    requires s <= 32
    ensures Mul(Pow2(s), Pow2(32 - s)) == BASE && Mul(Pow2(32 - s), Pow2(s)) == BASE
  {
    Pow2Is32();
    Pow2Add(s, 32 - s);
    MulComm(Pow2(s), Pow2(32 - s));
  }

  /** A limb times p, cut at q, where p q is the base. */
  lemma SplitAt(x: Limb, p: nat, q: nat)
    requires p > 0 && q > 0 && Mul(q, p) == BASE && Mul(p, q) == BASE
    ensures Mul(x, p) == BASE * Quot(x, q) + Mul(Rem(x, q), p)
    ensures Quot(x, q) < p && 0 <= Mul(Rem(x, q), p) <= BASE - p
  {
    var h, l := Quot(x, q), Rem(x, q);
    QuotRem(x, q);
    MulAdd(Mul(h, q), l, p);
    MulAssoc(h, q, p);
    MulComm(h, BASE);
    MulIs(BASE, h);
    MulLess(l, q - 1, p);
    MulStep(q - 1, p);
    MulNonNegative(l, p);
    if h >= p {
      MulLess(p, h, q);
    }
  }

  lemma ShiftParts(x: Limb, s: nat)
    requires s < 32
    ensures Mul(x, Pow2(s)) == BASE * High(x, s) + Low(x, s)
    ensures High(x, s) < Pow2(s) && 0 <= Low(x, s) <= BASE - Pow2(s)
  {
    TwoPowers(s);
    SplitAt(x, Pow2(s), Pow2(32 - s));
  }

  /** In 32-bit words: shifting left keeps the low part, shifting right by the complement the high part. */
  lemma WordShifts(x: Limb, s: nat)
    requires s < 32
    ensures x as int * Pow2(s) % BASE == Low(x, s) && x as int / Pow2(32 - s) == High(x, s)
  {
    ShiftParts(x, s);
    MulIs(x, Pow2(s));
    QuotIs(x, Pow2(32 - s));
  }

  /** Putting the high part of one limb into the low part of the next is a bitwise or. */
  lemma OrLow(c: nat, x: Limb, s: nat)
    requires s < 32 && c < Pow2(s)
    ensures Low(x, s) >= 0 && Or(c, Low(x, s)) == c + Low(x, s) && c + Low(x, s) < BASE
  {
    ShiftParts(x, s);
    OrDisjoint(c, Rem(x, Pow2(32 - s)), s, Low(x, s));
  }

  // ----- left -----

  ghost function ShlSeq(a: seq<Limb>, s: nat, c: nat): (r: seq<Limb>)
    requires s < 32 && c < Pow2(s)
    ensures |r| == |a|
    decreases |a|
  {
    if |a| == 0 then []
    else
      ShiftParts(a[0], s);
      [c + Low(a[0], s)] + ShlSeq(a[1..], s, High(a[0], s))
  }

  lemma {:induction false} ShlSeqWraps(a: seq<Limb>, s: nat, c: nat)
    requires s < 32 && c < Pow2(s)
    ensures Wraps(Val(ShlSeq(a, s, c)), Mul(Pow2(s), Val(a)) + c, |a|)
    decreases |a|
  {
    if |a| == 0 {
      MulOne(c);
      MulOne(Pow2(s));
      assert Differ(0, c, 0, c);
    } else {
      ShiftParts(a[0], s);
      var r := ShlSeq(a[1..], s, High(a[0], s));
      ShlSeqWraps(a[1..], s, High(a[0], s));
      assert ShlSeq(a, s, c)[1..] == r;
      ShlStep(Pow2(s), a[0], Val(a[1..]), High(a[0], s), Low(a[0], s), c, Val(r), |a|, Val(a), Val(ShlSeq(a, s, c)));
    }
  }

  lemma ShlStep(p: int, x: int, v: int, h: int, l: int, c: int, r: int, n: nat, va: int, res: int)
    requires n > 0 && Wraps(r, Mul(p, v) + h, n - 1) && Mul(x, p) == BASE * h + l
    requires va == x + BASE * v && res == c + l + BASE * r
    ensures Wraps(res, Mul(p, va) + c, n)
  {
    MulDistributes(p, x, v);
    MulComm(p, x);
    WrapsCons(c + l, h, r, Mul(p, v), n, res, Mul(p, va) + c);
  }

  function Zeros(k: nat): (r: seq<Limb>)
    ensures |r| == k && forall i :: 0 <= i < k ==> r[i] == 0
  {
    seq(k, _ => 0)
  }

  lemma {:induction false} ZerosBelow(k: nat, t: seq<Limb>)
    ensures Val(Zeros(k) + t) == Mul(Pow(k), Val(t))
    decreases k
  {
    if k == 0 {
      assert Zeros(0) + t == t;
      MulOne(Val(t));
    } else {
      ZerosBelow(k - 1, t);
      assert (Zeros(k) + t)[1..] == Zeros(k - 1) + t;
      MulBase(Pow(k - 1), Val(t));
    }
  }

  ghost function ShlLimbs(a: seq<Limb>, k: nat, s: nat): (r: seq<Limb>)
    requires s < 32
    ensures |r| == |a|
  {
    if k >= |a| then Zeros(|a|) else Zeros(k) + ShlSeq(a[..|a| - k], s, 0)
  }

  lemma ShlWraps(a: seq<Limb>, k: nat, s: nat)
    requires s < 32
    ensures Wraps(Val(ShlLimbs(a, k, s)), Mul(Pow(k), Mul(Pow2(s), Val(a))), |a|)
  {
    if k >= |a| {
      ShlAll(a, k, s);
    } else {
      ShlSome(a, k, s);
    }
  }

  lemma ShlAll(a: seq<Limb>, k: nat, s: nat)
    requires s < 32 && k >= |a|
    ensures Wraps(Val(ShlLimbs(a, k, s)), Mul(Pow(k), Mul(Pow2(s), Val(a))), |a|)
  {
    ValZero(Zeros(|a|));
    PowAdd(k - |a|, |a|);
    ShlOut(Pow(k - |a|), Mul(Pow2(s), Val(a)), |a|, Pow(k), Val(ShlLimbs(a, k, s)));
  }

  lemma ShlSome(a: seq<Limb>, k: nat, s: nat)
    requires s < 32 && k < |a|
    ensures Wraps(Val(ShlLimbs(a, k, s)), Mul(Pow(k), Mul(Pow2(s), Val(a))), |a|)
  {
    var low, high, t, v, r := ShlFacts(a, k, s);
    ShlWithin(k, Pow2(s), low, high, t, v, r, |a|);
  }

  lemma ShlFacts(a: seq<Limb>, k: nat, s: nat) returns (low: int, high: int, t: int, v: int, r: int)
    requires s < 32 && k < |a|
    ensures v == Val(a) && r == Val(ShlLimbs(a, k, s))
    ensures Wraps(t, Mul(Pow2(s), low) + 0, |a| - k)
    ensures v == low + Mul(Pow(|a| - k), high) && r == Mul(Pow(k), t)
  {
    var m := |a| - k;
    ShlSeqWraps(a[..m], s, 0);
    ZerosBelow(k, ShlSeq(a[..m], s, 0));
    ValSplit(a, m);
    low, high, t := Val(a[..m]), Val(a[m..]), Val(ShlSeq(a[..m], s, 0));
    v, r := Val(a), Val(ShlLimbs(a, k, s));
  }

  lemma ShlOut(p: int, x: int, n: nat, pk: int, r: int)
    requires pk == Mul(p, Pow(n)) && r == 0
    ensures Wraps(r, Mul(pk, x), n)
  {
    MulComm(Pow(n), x);
    MulAssoc(p, Pow(n), x);
    MulAssoc(p, x, Pow(n));
    assert Differ(r, Mul(pk, x), n, Mul(p, x));
  }

  lemma ShlWithin(k: nat, p: int, low: int, high: int, t: int, v: int, r: int, n: nat)
    requires k <= n && Wraps(t, Mul(p, low) + 0, n - k)
    requires v == low + Mul(Pow(n - k), high) && r == Mul(Pow(k), t)
    ensures Wraps(r, Mul(Pow(k), Mul(p, v)), n)
  {
    var m := n - k;
    PowAdd(k, m);
    var q :| Differ(t, Mul(p, low) + 0, m, q);
    var e := q + Mul(p, high);
    MulSum(p, low, Mul(Pow(m), high));
    MulScale(p, Pow(m), high);
    MulComm(Pow(m), Mul(p, high));
    MulAdd(q, Mul(p, high), Pow(m));
    assert Mul(p, v) == t + Mul(e, Pow(m));
    MulSum(Pow(k), t, Mul(e, Pow(m)));
    MulScale(Pow(k), e, Pow(m));
    assert Differ(r, Mul(Pow(k), Mul(p, v)), n, e);
  }

  // ----- right -----

  /** What comes down from the next limb. */
  ghost function Down(x: Limb, s: nat): int
    requires s < 32
  {
    Mul(Rem(x, Pow2(s)), Pow2(32 - s))
  }

  function Kept(x: Limb, s: nat): nat
    requires s < 32
  {
    Quot(x, Pow2(s))
  }

  lemma DownParts(x: Limb, s: nat)
    requires s < 32
    ensures Kept(x, s) < Pow2(32 - s) && 0 <= Down(x, s) <= BASE - Pow2(32 - s)
    ensures Mul(x, Pow2(32 - s)) == BASE * Kept(x, s) + Down(x, s)
  {
    TwoPowers(s);
    SplitAt(x, Pow2(32 - s), Pow2(s));
  }

  lemma WordDown(x: Limb, s: nat)
    requires s < 32
    ensures x as int * Pow2(32 - s) % BASE == Down(x, s) && x as int / Pow2(s) == Kept(x, s)
  {
    DownParts(x, s);
    MulIs(x, Pow2(32 - s));
    QuotIs(x, Pow2(s));
  }

  lemma OrDown(x: Limb, y: Limb, s: nat)
    requires s < 32
    ensures Down(y, s) >= 0 && Or(Kept(x, s), Down(y, s)) == Kept(x, s) + Down(y, s) && Kept(x, s) + Down(y, s) < BASE
  {
    DownParts(x, s);
    DownParts(y, s);
    OrDisjoint(Kept(x, s), Rem(y, Pow2(s)), 32 - s, Down(y, s));
  }

  function Next(a: seq<Limb>): Limb { if |a| > 1 then a[1] else 0 }

  ghost function ShrSeq(a: seq<Limb>, s: nat): (r: seq<Limb>)
    requires s < 32
    ensures |r| == |a|
  {
    if |a| == 0 then []
    else
      OrDown(a[0], Next(a), s);
      [Kept(a[0], s) + Down(Next(a), s)] + ShrSeq(a[1..], s)
  }

  lemma {:induction false} ShrSeqValue(a: seq<Limb>, s: nat)
    requires s < 32 && |a| > 0
    ensures Mul(Pow2(s), Val(ShrSeq(a, s))) + Rem(a[0], Pow2(s)) == Val(a)
    decreases |a|
  {
    var p, r := Pow2(s), ShrSeq(a[1..], s);
    assert ShrSeq(a, s)[1..] == r;
    if |a| > 1 {
      ShrSeqValue(a[1..], s);
    } else {
      MulOne(p);
    }
    TwoPowers(s);
    QuotRem(a[0], p);
    ShrStep(p, Pow2(32 - s), Kept(a[0], s), Rem(Next(a), p), Val(r), Val(ShrSeq(a, s)));
    MulComm(p, Kept(a[0], s));
  }

  lemma ShrStep(p: int, q: int, kept: int, rem: int, v: int, res: int)
    requires Mul(p, q) == BASE && res == kept + Mul(rem, q) + BASE * v
    ensures Mul(p, res) == Mul(p, kept) + BASE * (Mul(p, v) + rem)
  {
    MulSum(p, kept + Mul(rem, q), BASE * v);
    MulSum(p, kept, Mul(rem, q));
    MulScale(p, rem, q);
    MulComm(rem, BASE);
    MulIs(BASE, rem);
    MulBase(p, v);
  }

  lemma {:induction false} ZerosAbove(t: seq<Limb>, k: nat)
    ensures Val(t + Zeros(k)) == Val(t)
    decreases |t|
  {
    if |t| == 0 {
      assert t + Zeros(k) == Zeros(k);
      ValZero(Zeros(k));
    } else {
      assert (t + Zeros(k))[1..] == t[1..] + Zeros(k);
      ZerosAbove(t[1..], k);
    }
  }

  ghost function ShrLimbs(a: seq<Limb>, k: nat, s: nat): (r: seq<Limb>)
    requires s < 32
    ensures |r| == |a|
  {
    if k >= |a| then Zeros(|a|) else ShrSeq(a[k..], s) + Zeros(k)
  }

  /** Below the divisor 2^(32k+s) nothing is lost but a remainder. */
  lemma ShrValue(a: seq<Limb>, k: nat, s: nat) returns (rest: nat)
    requires s < 32
    ensures Val(a) == Mul(Val(ShrLimbs(a, k, s)), Mul(Pow(k), Pow2(s))) + rest && rest < Mul(Pow(k), Pow2(s))
  {
    var p := Pow2(s);
    MulComm(Pow(k), p);
    if k >= |a| {
      ValZero(Zeros(|a|));
      ValBound(a);
      PowMono(|a|, k);
      MulLess(1, p, Pow(k));
      MulOne(Pow(k));
      MulOne(Mul(Pow(k), p));
      rest := Val(a);
    } else {
      var t := a[k..];
      ShrSeqValue(t, s);
      ZerosAbove(ShrSeq(t, s), k);
      ValSplit(a, k);
      ValBound(a[..k]);
      QuotRem(t[0], p);
      rest := ShrDivides(Pow(k), p, Val(a[..k]), Rem(t[0], p), Val(ShrSeq(t, s)), Val(t));
    }
  }

  lemma ShrDivides(pk: nat, p: nat, low: nat, r: nat, v: nat, t: nat) returns (rest: nat)
    requires low < pk && r < p && t == Mul(p, v) + r
    ensures low + Mul(pk, t) == Mul(v, Mul(pk, p)) + rest && rest < Mul(pk, p)
  {
    MulSum(pk, Mul(p, v), r);
    MulComm(p, v);
    MulScale(pk, v, p);
    MulComm(pk, r);
    MulComm(pk, p);
    MulLess(r, p - 1, pk);
    MulStep(p - 1, pk);
    MulNonNegative(r, pk);
    rest := low + Mul(pk, r);
  }

  // ----- by any number of bits -----

  lemma ShiftWeight(shift: nat)
    ensures Mul(Pow(shift / 32), Pow2(shift % 32)) == Pow2(shift)
  {
    PowIsPow2(shift / 32);
    Pow2Add(32 * (shift / 32), shift % 32);
  }

  lemma ShlRemainder(a: seq<Limb>, shift: nat)
    ensures Val(ShlLimbs(a, shift / 32, shift % 32)) == Mul(Pow2(shift), Val(a)) % Pow(|a|)
  {
    var k, s := shift / 32, shift % 32;
    ShlWraps(a, k, s);
    ShiftWeight(shift);
    MulAssoc(Pow(k), Pow2(s), Val(a));
    WrapsIs(ShlLimbs(a, k, s), Mul(Pow2(shift), Val(a)));
  }

  lemma ShlValue(a: seq<Limb>, shift: nat)
    ensures Val(ShlLimbs(a, shift / 32, shift % 32)) == (Val(a) * Pow2(shift)) % Pow(|a|)
  {
    ShlRemainder(a, shift);
    ProductRest(Val(ShlLimbs(a, shift / 32, shift % 32)), Pow2(shift), Val(a), Pow(|a|));
  }

  lemma ProductRest(r: int, p: int, v: int, m: int)
    requires m > 0 && r == Mul(p, v) % m
    ensures r == (v * p) % m
  {
    MulIs(p, v);
  }

  lemma ShrIsDivision(a: seq<Limb>, shift: nat)
    ensures Val(ShrLimbs(a, shift / 32, shift % 32)) == Val(a) / Pow2(shift)
  {
    var rest := ShrValue(a, shift / 32, shift % 32);
    ShiftWeight(shift);
    ModIs(Val(a), Pow2(shift), Val(ShrLimbs(a, shift / 32, shift % 32)), rest);
  }

  lemma {:induction false} ShlSeqAt(a: seq<Limb>, s: nat, c: nat, i: nat)
    requires s < 32 && c < Pow2(s) && i < |a|
    ensures ShlSeq(a, s, c)[i] == (if i == 0 then c else High(a[i - 1], s)) + Low(a[i], s)
    decreases |a|
  {
    ShiftParts(a[0], s);
    if i > 0 {
      ShlSeqAt(a[1..], s, High(a[0], s), i - 1);
    }
  }

  lemma {:induction false} ShrSeqAt(a: seq<Limb>, s: nat, i: nat)
    requires s < 32 && i < |a|
    ensures ShrSeq(a, s)[i] == Kept(a[i], s) + Down(if i + 1 < |a| then a[i + 1] else 0, s)
    decreases |a|
  {
    if i > 0 {
      ShrSeqAt(a[1..], s, i - 1);
    }
  }
}
