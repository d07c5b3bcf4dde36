/**
 Work from targets: the proof of a block, the multi-algorithm geometric mean, and scaling
 without overflow.
 */
module ChainWork {
  import opened Limbs
  import opened ArithUint256
  import opened CompactTarget
  import opened NthRoot
  import opened Powers

  const ONE: Limbs8 := [1, 0, 0, 0, 0, 0, 0, 0]

  lemma OneIs()
    ensures Val(ONE) == 1 && Val(ZERO_LIMBS) == 0
  {
    ValZero(ONE[1..]);
    ValZero(ZERO_LIMBS);
  }

  // ----- the proof of one block -----

  /** floor(2^256 / (target + 1)) */
  ghost function Work(t: nat): nat { MODULUS / (t + 1) }

  /** The complement of the target, divided by the target plus one, plus one. */
  lemma WorkIs(t: nat, m: nat)
    requires 0 < t < m - 1
    ensures (m - 1 - t) / (t + 1) + 1 == m / (t + 1) && m / (t + 1) < m
  {
    var d := t + 1;
    var q, r := m / d, m % d;
    DivMod(m, d);
    MulStep(q - 1, d);
    ModIs(m - d, d, q - 1, r);
    MulComm(q, d);
    if q >= m {
      MulLess(m, q, d);
      MulComm(m, d);
      MulLess(2, d, m);
      MulIs(2, m);
    }
  }

  method WorkOf(target: Uint256) returns (r: Uint256)
    requires target.Valid() && 0 < target.Value() < MODULUS - 1
    ensures r.Valid() && fresh(r) && fresh(r.pn) && r.Value() == Work(target.Value())
  {
    OneIs();
    ghost var t := target.Value();
    var next := new Uint256(target.pn[..]);
    next.AddAssign(ONE);
    FitsModulus(t + 1, t + 1);
    r := target.Complement();
    var ok := r.DivAssign(next.pn[..]);
    assert ok;
    WorkIs(t, MODULUS);
    FitsModulus(Work(t), Work(t));
    r.AddAssign(ONE);
  }

  ghost predicate BadTarget(c: nat) { Negative(c) || Overflow(c) || Decoded(c) == 0 }

  ghost function ProofBase(c: nat): nat { if BadTarget(c) then 0 else Work(Decoded(c)) }

  /** No bits make the division fail. */
  method GetBlockProofBase(nBits: nat) returns (r: Uint256)
    requires nBits < 0x1_0000_0000
    ensures r.Valid() && fresh(r) && fresh(r.pn) && r.Value() == ProofBase(nBits)
  {
    var target := new Uint256(ZERO_LIMBS);
    var negative, overflow := SetCompact(target, nBits);
    var zero := target.EqualTo(0);
    if negative || overflow || zero {
      OneIs();
      r := new Uint256(ZERO_LIMBS);
      return;
    }
    NeverAllOnes(nBits);
    r := WorkOf(target);
  }

  // ----- scaling -----

  /** floor(work * numerator / denominator), or 0 if that does not fit or makes no sense. */
  ghost function Scaled(work: nat, num: nat, den: nat): nat {
    if work == 0 || num == 0 || den == 0 then 0
    else
      var f := Floor(work, num, den);
      if f < MODULUS then f else 0
  }

  ghost function Floor(work: nat, num: nat, den: nat): nat
    requires den > 0
  {
    MulNonNegative(work, num);
    Quot(Mul(work, num), den)
  }

  lemma FloorIs(work: nat, num: nat, den: nat)
    requires den > 0
    ensures Floor(work, num, den) == work * num / den
  {
    MulIs(work, num);
    QuotIs(work * num, den);
  }

  /** In plain arithmetic. */
  lemma ScaledIs(work: nat, num: nat, den: nat)
    ensures den == 0 ==> Scaled(work, num, den) == 0
    ensures den > 0 ==>
              var f := work * num / den;
              Scaled(work, num, den) == if f < MODULUS then f else 0
  {
    if den > 0 {
      FloorIs(work, num, den);
      LargeModulus();
      assert work == 0 || num == 0 ==> work * num == 0;
    }
  }

  /** The split into quotient and remainder is exact. */
  lemma FloorSplits(work: nat, num: nat, den: nat, q: nat, r: nat)
    requires den > 0 && work == Mul(q, den) + r && r < den
    ensures Mul(q, num) >= 0 && Mul(r, num) >= 0
    ensures Floor(work, num, den) == Mul(q, num) + Quot(Mul(r, num), den)
  {
    MulNonNegative(q, num);
    MulNonNegative(r, num);
    var x := Mul(r, num);
    var e, f := Quot(x, den), Rem(x, den);
    QuotRem(x, den);
    MulAdd(Mul(q, den), r, num);
    MulAssoc(q, den, num);
    MulComm(den, num);
    MulAssoc(q, num, den);
    MulAdd(Mul(q, num), e, den);
    MulNonNegative(work, num);
    QuotRem(Mul(work, num), den);
    QuotientUnique(den, Mul(q, num) + e, f, Floor(work, num, den), Rem(Mul(work, num), den));
  }

  /** A quotient above max / numerator cannot be multiplied within the modulus, one that is not can. */
  lemma TooLarge(q: nat, num: nat, m: nat)
    requires num > 0 && m > 0
    ensures q > (m - 1) / num <==> Mul(q, num) >= m
  {
    var k := (m - 1) / num;
    DivMod(m - 1, num);
    if q > k {
      MulLess(k + 1, q, num);
      MulStep(k, num);
    } else {
      MulLess(q, k, num);
    }
  }

  lemma ScaleSame(work: nat, num: nat)
    requires num > 0
    ensures Floor(work, num, num) == work
  {
    MulNonNegative(work, num);
    QuotRem(Mul(work, num), num);
    QuotientUnique(num, work, 0, Floor(work, num, num), Rem(Mul(work, num), num));
  }

  method ScaleMultiAlgoChainwork(work: Uint256, num: Limb, den: Limb) returns (r: Uint256)
    requires work.Valid()
    ensures r.Valid() && fresh(r) && fresh(r.pn) && r.Value() == Scaled(work.Value(), num, den)
    ensures den == 0 ==> r.Value() == 0
    ensures den > 0 ==>
              var f := work.Value() * num / (den as int);
              r.Value() == if f < MODULUS then f else 0
  {
    ScaledIs(work.Value(), num, den);
    OneIs();
    r := new Uint256(ZERO_LIMBS);
    var zero := work.EqualTo(0);
    if zero || num == 0 || den == 0 {
      return;
    }
    if num == den {
      r := new Uint256(work.pn[..]);
      ValBound(work.pn[..]);
      ScaleSame(work.Value(), num);
      return;
    }
    r := ScaleBySplit(work, num, den);
  }

  method ScaleBySplit(work: Uint256, num: Limb, den: Limb) returns (r: Uint256)
    requires work.Valid() && num > 0 && den > 0
    ensures r.Valid() && fresh(r) && fresh(r.pn)
    ensures r.Value() == if Floor(work.Value(), num, den) < MODULUS then Floor(work.Value(), num, den) else 0
  {
    var quotient, remainder := Split(work, den);
    ghost var q := quotient.Value();
    FloorSplits(work.Value(), num, den, q, remainder.Value());
    var tooLarge := ExceedsMaxOver(quotient, num);
    TooLarge(q, num, MODULUS);
    if tooLarge {
      OneIs();
      r := new Uint256(ZERO_LIMBS);
      return;
    }
    TimesSmall(quotient, num);
    TimesOver(remainder, num, den);
    r := SumOrZero(quotient, remainder);
  }

  method SumOrZero(quotient: Uint256, remainder: Uint256) returns (r: Uint256)
    requires quotient.Valid() && remainder.Valid()
    ensures r.Valid() && fresh(r) && fresh(r.pn)
    ensures var f := quotient.Value() + remainder.Value(); r.Value() == if f < MODULUS then f else 0
  {
    var fits := SumFits(quotient, remainder);
    if !fits {
      OneIs();
      r := new Uint256(ZERO_LIMBS);
      return;
    }
    FitsModulus(quotient.Value() + remainder.Value(), quotient.Value() + remainder.Value());
    r := new Uint256(quotient.pn[..]);
    r.AddAssign(remainder.pn[..]);
  }

  /** work / denominator, and what is left of work. */
  method Split(work: Uint256, den: Limb) returns (quotient: Uint256, remainder: Uint256)
    requires work.Valid() && den > 0
    ensures quotient.Valid() && fresh(quotient) && fresh(quotient.pn)
    ensures remainder.Valid() && fresh(remainder) && fresh(remainder.pn) && quotient.pn != remainder.pn
    ensures work.Value() == Mul(quotient.Value(), den) + remainder.Value() && remainder.Value() < den
  {
    ghost var w := work.Value();
    quotient := new Uint256(work.pn[..]);
    var ok := quotient.DivSmallAssign(den);
    DivMod(w, den);
    MulNonNegative(quotient.Value(), den);
    remainder := WithoutMultiple(work, quotient, den);
  }

  method WithoutMultiple(work: Uint256, quotient: Uint256, den: Limb) returns (remainder: Uint256)
    requires work.Valid() && quotient.Valid() && 0 <= Mul(quotient.Value(), den) <= work.Value()
    ensures remainder.Valid() && fresh(remainder) && fresh(remainder.pn)
    ensures remainder.Value() == work.Value() - Mul(quotient.Value(), den)
  {
    ghost var w, q := work.Value(), quotient.Value();
    ValBound(work.pn[..]);
    MulIs(q, den);
    var product := new Uint256(quotient.pn[..]);
    product.MulSmallAssign(den);
    FitsModulus(Mul(q, den), w);
    remainder := new Uint256(work.pn[..]);
    remainder.SubAssign(product.pn[..]);
    FitsModulus(w - Mul(q, den), w);
  }

  method ExceedsMaxOver(quotient: Uint256, num: Limb) returns (exceeds: bool)
    requires quotient.Valid() && num > 0
    ensures exceeds == (quotient.Value() > (MODULUS - 1) / (num as int))
  {
    OneIs();
    var zero := new Uint256(ZERO_LIMBS);
    var maxValue := zero.Complement();
    var ok := maxValue.DivSmallAssign(num);
    var c := quotient.CompareTo(maxValue.pn[..]);
    exceeds := c > 0;
  }

  method TimesSmall(x: Uint256, num: Limb)
    requires x.Valid() && Mul(x.Value(), num) < MODULUS
    modifies x.pn
    ensures x.Value() == Mul(old(x.Value()), num)
  {
    ghost var v := x.Value();
    MulNonNegative(v, num);
    FitsModulus(Mul(v, num), Mul(v, num));
    MulIs(v, num);
    x.MulSmallAssign(num);
  }

  method TimesOver(x: Uint256, num: Limb, den: Limb)
    requires x.Valid() && x.Value() < den
    modifies x.pn
    ensures Mul(old(x.Value()), num) >= 0 && x.Value() == Quot(Mul(old(x.Value()), num), den)
  {
    ghost var v := x.Value();
    SmallProduct(v, num);
    TimesSmall(x, num);
    QuotIs(Mul(v, num), den);
    var ok := x.DivSmallAssign(den);
  }

  lemma SmallProduct(v: nat, num: Limb)
    requires v < BASE
    ensures 0 <= Mul(v, num) < MODULUS
  {
    MulNonNegative(v, num);
    MulLess(v, BASE, num);
    MulIs(BASE, num);
    PowMono(2, 8);
  }

  method SumFits(quotient: Uint256, remainder: Uint256) returns (fits: bool)
    requires quotient.Valid() && remainder.Valid()
    ensures fits == (quotient.Value() + remainder.Value() < MODULUS)
  {
    OneIs();
    var zero := new Uint256(ZERO_LIMBS);
    var room := zero.Complement();
    ValBound(remainder.pn[..]);
    NoBorrow(MODULUS - 1, remainder.Value(), MODULUS);
    room.SubAssign(remainder.pn[..]);
    var c := quotient.CompareTo(room.pn[..]);
    fits := c <= 0;
  }

  // ----- the geometric mean of targets -----

  ghost function Product(rs: seq<nat>): nat {
    if |rs| == 0 then 1
    else
      MulNonNegative(Product(rs[..|rs| - 1]), rs[|rs| - 1]);
      Mul(Product(rs[..|rs| - 1]), rs[|rs| - 1])
  }

  lemma {:induction false} ProductBelow(rs: seq<nat>, m: nat)
    requires m > 0 && forall i :: 0 <= i < |rs| ==> rs[i] <= m
    ensures Product(rs) <= Power(m, |rs|)
    decreases |rs|
  {
    if |rs| > 0 {
      var k := |rs| - 1;
      ProductBelow(rs[..k], m);
      MulLess(Product(rs[..k]), Power(m, k), rs[k]);
      MulLess(rs[k], m, Power(m, k));
      MulComm(rs[k], Power(m, k));
    }
  }

  lemma {:induction false} Largest(rs: seq<nat>) returns (m: nat)
    requires |rs| > 0
    ensures m in rs && forall i :: 0 <= i < |rs| ==> rs[i] <= m
    decreases |rs|
  {
    var k := |rs| - 1;
    m := rs[k];
    if k > 0 {
      var n := Largest(rs[..k]);
      forall i | 0 <= i < k ensures rs[i] <= n {
        assert rs[i] == rs[..k][i];
      }
      if n > m {
        m := n;
      }
    }
  }

  lemma {:induction false} PowerMore(m: nat, e: nat, n: nat)
    requires m > 0 && e <= n
    ensures Power(m, e) <= Power(m, n)
    decreases n
  {
    if e < n {
      PowerMore(m, e, n - 1);
      MulLess(1, m, Power(m, n - 1));
      MulOne(Power(m, n - 1));
    }
  }

  /** At most n numbers whose n-th powers are at most L have a product of at most L. */
  lemma ProductOfRoots(rs: seq<nat>, n: nat, limit: nat)
    requires |rs| <= n && limit > 0
    requires forall i :: 0 <= i < |rs| ==> rs[i] > 0 && Power(rs[i], n) <= limit
    ensures Product(rs) <= limit
  {
    if |rs| > 0 {
      var m := Largest(rs);
      var i :| 0 <= i < |rs| && rs[i] == m;
      ProductBelow(rs, m);
      PowerMore(m, |rs|, n);
    }
  }

  lemma {:induction false} ProductPositive(rs: seq<nat>)
    requires forall i :: 0 <= i < |rs| ==> rs[i] > 0
    ensures Product(rs) > 0
    decreases |rs|
  {
    if |rs| > 0 {
      var k := |rs| - 1;
      ProductPositive(rs[..k]);
      MulLess(1, Product(rs[..k]), rs[k]);
      MulOne(rs[k]);
    }
  }

  lemma ApproxRootBelow(x: nat, n: nat)
    requires n > 0
    ensures Power(ApproxRoot(x, n), n) <= x
  {
    var s := Shifts(Bits(x), n);
    MulNonNegative(n, s);
    RootOfHead(x, n, FloorRoot(Shr(x, Mul(n, s)), n), s, Mul(n, s));
  }

  /** The bits of an algorithm are not usable for the mean. */
  ghost predicate Unusable(k: nat, c: nat, powLimit: nat)
    requires k > 0
  {
    BadTarget(c) || Decoded(c) > powLimit || ApproxRoot(Decoded(c), k) == 0
  }

  ghost function Roots(k: nat, nextBits: nat -> nat, n: nat): (rs: seq<nat>)
    requires k > 0
    ensures |rs| == n
  {
    if n == 0 then [] else Roots(k, nextBits, n - 1) + [ApproxRoot(Decoded(nextBits(n - 1)), k)]
  }

  lemma {:induction false} RootsAt(k: nat, nextBits: nat -> nat, n: nat, i: nat)
    requires k > 0 && i < n
    ensures Roots(k, nextBits, n)[i] == ApproxRoot(Decoded(nextBits(i)), k)
    decreases n
  {
    if i < n - 1 {
      RootsAt(k, nextBits, n - 1, i);
    }
  }

  lemma RootsStep(k: nat, nextBits: nat -> nat, n: nat)
    requires k > 0
    ensures Product(Roots(k, nextBits, n + 1)) == Mul(Product(Roots(k, nextBits, n)), ApproxRoot(Decoded(nextBits(n)), k))
  {
    var rs := Roots(k, nextBits, n + 1);
    assert rs[..|rs| - 1] == Roots(k, nextBits, n);
  }

  ghost predicate AllUsable(k: nat, nextBits: nat -> nat, n: nat, powLimit: nat)
    requires k > 0
  {
    forall algo :: 0 <= algo < n ==> !Unusable(k, nextBits(algo), powLimit)
  }

  /** The product of up to k k-th roots of targets within the limit is itself within it. */
  lemma MeanWithinLimit(k: nat, nextBits: nat -> nat, n: nat, powLimit: nat)
    requires k > 0 && n <= k && powLimit > 0 && AllUsable(k, nextBits, n, powLimit)
    ensures 0 < Product(Roots(k, nextBits, n)) <= powLimit
  {
    var rs := Roots(k, nextBits, n);
    forall i | 0 <= i < n ensures rs[i] > 0 && Power(rs[i], k) <= powLimit {
      assert !Unusable(k, nextBits(i), powLimit);
      RootsAt(k, nextBits, n, i);
      ApproxRootBelow(Decoded(nextBits(i)), k);
    }
    ProductOfRoots(rs, k, powLimit);
    ProductPositive(rs);
  }

  /** Nor is it ever all ones, whatever the limit. */
  lemma MeanNeverAllOnes(k: nat, nextBits: nat -> nat, n: nat, powLimit: nat)
    requires k > 0 && n <= k && AllUsable(k, nextBits, n, powLimit)
    ensures Product(Roots(k, nextBits, n)) < MODULUS - 1
  {
    var rs := Roots(k, nextBits, n);
    LargeModulus();
    forall i | 0 <= i < n ensures rs[i] > 0 && Power(rs[i], k) <= MODULUS - 2 {
      assert !Unusable(k, nextBits(i), powLimit);
      RootsAt(k, nextBits, n, i);
      ApproxRootBelow(Decoded(nextBits(i)), k);
      NeverAllOnes(nextBits(i));
    }
    ProductOfRoots(rs, k, MODULUS - 2);
  }

  /** The parameters of the chain; `rootIndex` and `algos` are the two counts of algorithms that the source has, one for
      the root and one for the loop. */
  datatype Rules = Rules(
    activationHeight: int, powLimit: nat, scaleNum: Limb, scaleDen: Limb, rootIndex: nat, algos: nat)
  {
    predicate Ok() { 1 < rootIndex < 64 && 0 < algos <= rootIndex }
  }

  /** Work by the mean of the targets of all algorithms, whatever the algorithm of the block. */
  ghost function MeanWork(rules: Rules, nextBits: nat -> nat): nat
    requires rules.Ok()
  {
    if !AllUsable(rules.rootIndex, nextBits, rules.algos, rules.powLimit) then 0
    else Scaled(Work(Product(Roots(rules.rootIndex, nextBits, rules.algos))), rules.scaleNum, rules.scaleDen)
  }

  ghost function BlockProof(rules: Rules, height: int, hasParent: bool, algo: int, nBits: nat, nextBits: nat -> nat): nat
    requires rules.Ok()
  {
    if height < rules.activationHeight || !hasParent then ProofBase(nBits)
    else if algo != 0 && algo != 1 then 0
    else MeanWork(rules, nextBits)
  }

  /** Bits that give no target at all, or one above the limit, or one too small to have a root. */
  ghost predicate NoRoot(k: nat, c: nat, powLimit: nat)
    requires k > 0
  {
    Negative(c) || Overflow(c) || Decoded(c) == 0 || Decoded(c) > powLimit || ApproxRoot(Decoded(c), k) == 0
  }

  /** Every block before the activation, and one without a parent, is worth 2^256 / (target + 1) by its own bits; after
      it, an unknown algorithm or unusable bits for any algorithm make it worth nothing, and otherwise it is worth that
      of the product of the roots, scaled and rounded down, or nothing if that does not fit. */
  lemma BlockProofIs(rules: Rules, height: int, hasParent: bool, algo: int, nBits: nat, nextBits: nat -> nat)
    requires rules.Ok()
    ensures var k, n, proof := rules.rootIndex, rules.algos, BlockProof(rules, height, hasParent, algo, nBits, nextBits);
            if height < rules.activationHeight || !hasParent then
              proof == if Negative(nBits) || Overflow(nBits) || Decoded(nBits) == 0 then 0 else MODULUS / (Decoded(nBits) + 1)
            else if (algo != 0 && algo != 1) || rules.scaleDen == 0 || exists a :: 0 <= a < n && NoRoot(k, nextBits(a), rules.powLimit) then
              proof == 0
            else
              var scaled := MODULUS / (Product(Roots(k, nextBits, n)) + 1) * rules.scaleNum / rules.scaleDen as int;
              proof == if scaled < MODULUS then scaled else 0
  {
    var k, n := rules.rootIndex, rules.algos;
    if height >= rules.activationHeight && hasParent {
      if a :| 0 <= a < n && NoRoot(k, nextBits(a), rules.powLimit) {
        assert Unusable(k, nextBits(a), rules.powLimit);
      } else {
        forall a | 0 <= a < n ensures !Unusable(k, nextBits(a), rules.powLimit) {
          assert !NoRoot(k, nextBits(a), rules.powLimit);
        }
        ScaledIs(Work(Product(Roots(k, nextBits, n))), rules.scaleNum, rules.scaleDen);
      }
    }
  }

  /** Competing blocks on the same parent get the same work, whichever of the two algorithms they use. */
  lemma SameWorkForBoth(rules: Rules, height: int, nBits: nat, nBits': nat, nextBits: nat -> nat)
    requires rules.Ok() && height >= rules.activationHeight
    ensures BlockProof(rules, height, true, 0, nBits, nextBits) == BlockProof(rules, height, true, 1, nBits', nextBits)
  {
  }

  method UsableRoot(k: nat, c: nat, powLimit: Limbs8) returns (ok: bool, root: Uint256)
    requires 1 < k < 64 && c < 0x1_0000_0000
    ensures root.Valid() && fresh(root) && fresh(root.pn)
    ensures ok == !Unusable(k, c, Val(powLimit))
    ensures ok ==> root.Value() == ApproxRoot(Decoded(c), k)
  {
    root := new Uint256(ZERO_LIMBS);
    var target := new Uint256(ZERO_LIMBS);
    var negative, overflow := SetCompact(target, c);
    var zero := target.EqualTo(0);
    var above := target.CompareTo(powLimit);
    if negative || overflow || zero || above > 0 {
      return false, root;
    }
    ghost var r, s;
    root, r, s := ApproxNthRoot(target, k);
    var none := root.EqualTo(0);
    ok := !none;
  }

  /** The product of the roots of the first n algorithms, all of which are usable. */
  ghost predicate MeanOf(k: nat, v: nat, nextBits: nat -> nat, n: nat, powLimit: nat)
    requires k > 0
  {
    AllUsable(k, nextBits, n, powLimit) && v == Product(Roots(k, nextBits, n)) && (n > 0 ==> powLimit > 0)
  }

  /** The mean target, or none if some algorithm has no usable target. */
  method AverageTarget(k: nat, algos: nat, powLimit: Limbs8, nextBits: nat -> nat) returns (ok: bool, average: Uint256)
    requires 1 < k < 64 && algos <= k && forall algo :: nextBits(algo) < 0x1_0000_0000
    ensures average.Valid() && fresh(average) && fresh(average.pn)
    ensures ok == AllUsable(k, nextBits, algos, Val(powLimit))
    ensures ok ==> MeanOf(k, average.Value(), nextBits, algos, Val(powLimit))
  {
    OneIs();
    average := new Uint256(ONE);
    ok := true;
    for algo := 0 to algos
      invariant average.Valid() && fresh(average) && fresh(average.pn)
      invariant ok && MeanOf(k, average.Value(), nextBits, algo, Val(powLimit))
    {
      ok := MultiplyIn(k, average, powLimit, nextBits, algo);
      if !ok {
        return;
      }
    }
  }

  method MultiplyIn(k: nat, average: Uint256, powLimit: Limbs8, nextBits: nat -> nat, algo: nat) returns (ok: bool)
    requires 1 < k < 64 && average.Valid() && algo < k && nextBits(algo) < 0x1_0000_0000
    requires MeanOf(k, average.Value(), nextBits, algo, Val(powLimit))
    modifies average.pn
    ensures ok == !Unusable(k, nextBits(algo), Val(powLimit))
    ensures ok ==> MeanOf(k, average.Value(), nextBits, algo + 1, Val(powLimit))
  {
    var root;
    ok, root := UsableRoot(k, nextBits(algo), powLimit);
    if ok {
      ValBound(powLimit);
      MeanStep(k, average.Value(), nextBits, algo, Val(powLimit));
      TimesExact(average, root);
    }
  }

  lemma MeanStep(k: nat, v: nat, nextBits: nat -> nat, n: nat, powLimit: nat)
    requires n < k && powLimit < MODULUS && MeanOf(k, v, nextBits, n, powLimit) && !Unusable(k, nextBits(n), powLimit)
    ensures var p := Mul(v, ApproxRoot(Decoded(nextBits(n)), k));
            0 <= p < MODULUS && MeanOf(k, p, nextBits, n + 1, powLimit)
  {
    UsableLimit(k, nextBits(n), powLimit);
    RootsStep(k, nextBits, n);
    MeanWithinLimit(k, nextBits, n + 1, powLimit);
  }

  lemma UsableLimit(k: nat, c: nat, powLimit: nat)
    requires k > 0 && !Unusable(k, c, powLimit)
    ensures powLimit > 0
  {
  }

  method TimesExact(x: Uint256, y: Uint256)
    requires x.Valid() && y.Valid() && x.pn != y.pn && 0 <= Mul(x.Value(), y.Value()) < MODULUS
    modifies x.pn
    ensures x.Value() == Mul(old(x.Value()), y.Value())
  {
    ghost var v, w := x.Value(), y.Value();
    MulIs(v, w);
    FitsModulus(Mul(v, w), Mul(v, w));
    x.MulAssign(y.pn[..]);
  }

  method GetBlockProof(rules: Rules, powLimit: Limbs8, height: int, hasParent: bool, algo: int, nBits: nat, nextBits: nat -> nat)
    returns (r: Uint256)
    requires nBits < 0x1_0000_0000 && forall a :: nextBits(a) < 0x1_0000_0000
    requires rules.Ok() && Val(powLimit) == rules.powLimit
    ensures r.Valid() && fresh(r) && fresh(r.pn)
    ensures r.Value() == BlockProof(rules, height, hasParent, algo, nBits, nextBits)
  {
    if height < rules.activationHeight || !hasParent {
      r := GetBlockProofBase(nBits);
      return;
    }
    OneIs();
    r := new Uint256(ZERO_LIMBS);
    if algo != 0 && algo != 1 {
      return;
    }
    var ok, average := AverageTarget(rules.rootIndex, rules.algos, powLimit, nextBits);
    if !ok {
      return;
    }
    MeanWithinLimit(rules.rootIndex, nextBits, rules.algos, rules.powLimit);
    MeanNeverAllOnes(rules.rootIndex, nextBits, rules.algos, rules.powLimit);
    var work := WorkOf(average);
    r := ScaleMultiAlgoChainwork(work, rules.scaleNum, rules.scaleDen);
  }
}
