/** The approximate n-th root of a 256-bit number, by binary search on its highest 64 bits. */
module NthRoot {
  import opened Limbs
  import opened ArithUint256
  import opened CompactTarget
  import opened Powers

  lemma {:induction false} PowerShl(r: nat, s: nat, e: nat, es: nat)
    requires es == Mul(e, s)
    ensures Power(Shl(r, s), e) == Shl(Power(r, e), es)
    decreases e
  {
    if e == 0 {
      MulOne(s);
      MulOne(1);
    } else {
      MulNonNegative(e - 1, s);
      MulStep(e - 1, s);
      PowerShl(r, s, e - 1, es - s);
      ShlProduct(r, s, Power(r, e - 1), es - s);
    }
  }

  lemma ShlProduct(x: nat, k: nat, y: nat, j: nat)
    ensures Mul(x, y) >= 0 && Mul(Shl(x, k), Shl(y, j)) == Shl(Mul(x, y), k + j)
  {
    MulNonNegative(x, y);
    var p, q := Pow2(k), Pow2(j);
    MulAssoc(x, p, Mul(y, q));
    MulScale(p, y, q);
    MulAssoc(x, y, Mul(p, q));
    Pow2Add(k, j);
  }

  lemma PowerOfPow2(k: nat, e: nat, ek: nat)
    requires ek == Mul(e, k)
    ensures Power(Pow2(k), e) == Pow2(ek)
  {
    MulOne(Pow2(k));
    PowerShl(1, k, e, ek);
    PowerOfOne(e);
    MulOne(Pow2(ek));
  }

  // ----- the search -----

  const WORD := 0x1_0000_0000_0000_0000

  /** The power of a root that fits its share of 64 bits fits in 64 bits, and so do the powers before it. */
  lemma PowerFits(b: nat, w: nat, e: nat, n: nat)
    requires b < Pow2(w) && e <= n && Mul(n, w) <= 64
    ensures Power(b, e) < WORD
  {
    var ew := Mul(e, w);
    MulNonNegative(e, w);
    MulLess(e, n, w);
    PowerOfPow2(w, e, ew);
    if e == 0 {
      assert Power(b, e) == 1;
    } else {
      PowerLess(b, Pow2(w), e);
      Pow2Mono(ew, 64);
      WordIs();
    }
  }

  lemma WordIs()
    ensures Pow2(64) == WORD
  {
    Pow2Is32();
    Pow2Add(32, 32);
    MulIs(BASE, BASE);
  }

  /** nNext to the n-th power, in 64-bit arithmetic that does not wrap. */
  method PowerOf(nNext: nat, n: nat, ghost w: nat) returns (nPower: nat)
    requires 1 < n && nNext < Pow2(w) && Mul(n, w) <= 64
    ensures nPower == Power(nNext, n)
  {
    nPower := nNext;
    MulOne(nNext);
    for j := 1 to n
      invariant nPower == Power(nNext, j)
    {
      PowerFits(nNext, w, j + 1, n);
      ProductFits(nNext, nPower, Power(nNext, j + 1));
      nPower := nPower * nNext % WORD;
    }
  }

  lemma ProductFits(a: nat, p: nat, r: nat)
    requires r == Mul(a, p) && r < WORD
    ensures p * a % WORD == r
  {
    MulIs(a, p);
  }

  /** The root lies between nRoot and nRoot + 2^k, and the lowest k bits of nRoot are clear. */
  ghost predicate Searching(head: nat, n: nat, w: nat, nRoot: nat, k: nat) {
    && k <= w && Multiple(nRoot, k) && nRoot + Pow2(k) <= Pow2(w)
    && Power(nRoot, n) <= head < Power(nRoot + Pow2(k), n)
  }

  lemma SearchStarts(head: nat, n: nat, w: nat)
    requires n > 0 && Mul(n, w) >= 0 && head < Pow2(Mul(n, w))
    ensures Searching(head, n, w, 0, w)
  {
    MulOne(Pow2(w));
    assert IsTimes(0, 0, w);
    PowerOfPow2(w, n, Mul(n, w));
    MulOne(Power(0, n - 1));
  }

  lemma SearchStep(head: nat, n: nat, w: nat, nRoot: nat, k: nat)
    requires Searching(head, n, w, nRoot, k) && k > 0
    ensures var next := nRoot + Pow2(k - 1);
            && Or(nRoot, Pow2(k - 1)) == next && next < Pow2(w)
            && (Power(next, n) <= head ==> Searching(head, n, w, next, k - 1))
            && (Power(next, n) > head ==> Searching(head, n, w, nRoot, k - 1))
  {
    var p := Pow2(k - 1);
    var z: nat :| IsTimes(nRoot, z, k);
    OrDisjoint(p, z, k, nRoot);
    OrCommutes(nRoot, p);
    MulAdd(z, z, p);
    MulSum(z, p, p);
    MulStep(z + z, p);
    assert IsTimes(nRoot, z + z, k - 1) && IsTimes(nRoot + p, z + z + 1, k - 1);
  }

  method Search(head: nat, n: nat, w: nat) returns (nRoot: nat)
    requires 1 < n && 0 <= Mul(n, w) <= 64 && head < Pow2(Mul(n, w))
    ensures Power(nRoot, n) <= head < Power(nRoot + 1, n) && nRoot < WORD
  {
    nRoot := 0;
    SearchStarts(head, n, w);
    var i := w;
    while i > 0
      invariant 0 <= i <= w && Searching(head, n, w, nRoot, i)
    {
      SearchStep(head, n, w, nRoot, i);
      i := i - 1;
      var nNext := Or(nRoot, Pow2(i));
      var nPower := PowerOf(nNext, n, w);
      if nPower <= head {
        nRoot := nNext;
      }
    }
    PowerFits(nRoot, w, 1, n);
    MulOne(nRoot);
  }

  // ----- the root -----

  /** The head that is searched: n bits are dropped for every bit of the root that is not computed. */
  function Shifts(length: nat, n: nat): nat
    requires n > 0
  {
    var q := if length == 0 then 0 else (length - 1) / n;
    if q + 1 > 64 / n then q + 1 - 64 / n else 0
  }

  lemma HeadFits(length: nat, n: nat, w: nat, s: nat)
    requires 1 < n < 64 && w == 64 / n && s == Shifts(length, n)
    ensures 0 <= Mul(n, w) <= 64 && Mul(n, s) >= 0 && length <= Mul(n, s) + Mul(n, w)
  {
    DivMod(64, n);
    MulComm(w, n);
    MulNonNegative(n, w);
    MulNonNegative(n, s);
    MulSum(n, s, w);
    var q := if length == 0 then 0 else (length - 1) / n;
    if length > 0 {
      DivMod(length - 1, n);
    } else {
      MulOne(n);
    }
    MulStep(q, n);
    MulLess(q + 1, s + w, n);
    MulComm(s + w, n);
  }

  /** Between the n-th power of r 2^s and that of (r+1) 2^s. */
  ghost predicate IsRoot(x: nat, n: nat, r: nat, s: nat) {
    Power(Shl(r, s), n) <= x < Power(Shl(r + 1, s), n)
  }

  lemma RootOfHead(x: nat, n: nat, r: nat, s: nat, ns: nat)
    requires ns == Mul(n, s) && Power(r, n) <= Shr(x, ns) < Power(r + 1, n)
    ensures IsRoot(x, n, r, s)
  {
    var head := Shr(x, ns);
    ShlShr(x, ns);
    PowerShl(r, s, n, ns);
    PowerShl(r + 1, s, n, ns);
    MulLess(Power(r, n), head, Pow2(ns));
    MulLess(head + 1, Power(r + 1, n), Pow2(ns));
    MulStep(head, Pow2(ns));
  }

  lemma RootFits(x: nat, n: nat, r: nat, s: nat)
    requires n > 0 && IsRoot(x, n, r, s)
    ensures Shl(r, s) <= x
  {
    if Shl(r, s) > 0 {
      PowerGrows(Shl(r, s), n);
    }
  }

  lemma {:induction false} FloorRootExists(h: nat, n: nat) returns (r: nat)
    requires n > 0
    ensures Power(r, n) <= h < Power(r + 1, n)
    decreases h
  {
    if h == 0 {
      r := 0;
      MulOne(Power(0, n - 1));
      PowerGrows(1, n);
    } else {
      r := FloorRootExists(h - 1, n);
      if Power(r + 1, n) <= h {
        PowerLess(r + 1, r + 2, n);
        r := r + 1;
      }
    }
  }

  ghost predicate IsFloorRoot(h: nat, n: nat, r: nat) { Power(r, n) <= h < Power(r + 1, n) }

  ghost function FloorRoot(h: nat, n: nat): (r: nat)
    requires n > 0
    ensures IsFloorRoot(h, n, r)
  {
    HasFloorRoot(h, n);
    var r: nat :| IsFloorRoot(h, n, r);
    r
  }

  lemma HasFloorRoot(h: nat, n: nat)
    requires n > 0
    ensures exists r: nat :: IsFloorRoot(h, n, r)
  {
    var r := FloorRootExists(h, n);
    assert IsFloorRoot(h, n, r);
  }

  lemma FloorRootUnique(h: nat, n: nat, r: nat)
    requires n > 0 && IsFloorRoot(h, n, r)
    ensures FloorRoot(h, n) == r
  {
    var q := FloorRoot(h, n);
    if q < r {
      PowerMono(q + 1, r, n);
    } else if r < q {
      PowerMono(r + 1, q, n);
    }
  }

  /** The root that is computed: exact on the head, zeros below. */
  ghost function ApproxRoot(x: nat, n: nat): nat
    requires n > 0
  {
    var s := Shifts(Bits(x), n);
    MulNonNegative(n, s);
    Shl(FloorRoot(Shr(x, Mul(n, s)), n), s)
  }

  method ApproxNthRoot(x: Uint256, n: nat) returns (res: Uint256, ghost r: nat, ghost s: nat)
    requires x.Valid() && 1 < n < 64
    ensures res.Valid() && fresh(res) && fresh(res.pn)
    ensures res.Value() == Shl(r, s) && IsRoot(x.Value(), n, r, s)
    ensures res.Value() == ApproxRoot(x.Value(), n)
  {
    var nLength := x.CountBits();
    var nShifts := Shifts(nLength, n);
    HeadBound(x.Value(), n, nShifts);
    MulIs(n, nShifts);
    var nHead := HeadOf(x, n * nShifts);
    var nRoot := Search(nHead, n, 64 / n);
    RootOfHead(x.Value(), n, nRoot, nShifts, n * nShifts);
    RootFits(x.Value(), n, nRoot, nShifts);
    r, s := nRoot, nShifts;
    FloorRootUnique(nHead, n, nRoot);
    ValBound(x.pn[..]);
    res := ShiftedWord(nRoot, nShifts);
  }

  method HeadOf(x: Uint256, shift: nat) returns (nHead: nat)
    requires x.Valid() && Shr(x.Value(), shift) < WORD
    ensures nHead == Shr(x.Value(), shift)
  {
    var shifted := new Uint256(x.pn[..]);
    shifted.ShiftRight(shift);
    ShrIs(x.Value(), shift);
    nHead := shifted.GetLow64();
  }

  method ShiftedWord(nRoot: nat, nShifts: nat) returns (res: Uint256)
    requires nRoot < WORD && Shl(nRoot, nShifts) < MODULUS
    ensures res.Valid() && fresh(res) && fresh(res.pn) && res.Value() == Shl(nRoot, nShifts)
  {
    res := new Uint256(ZERO_LIMBS);
    res.AssignWord(nRoot);
    ShlIs(nRoot, nShifts);
    FitsModulus(Shl(nRoot, nShifts), Shl(nRoot, nShifts));
    res.ShiftLeft(nShifts);
  }

  lemma HeadBound(v: nat, n: nat, s: nat)
    requires 1 < n < 64 && s == Shifts(Bits(v), n)
    ensures 0 <= Mul(n, 64 / n) <= 64 && Mul(n, s) >= 0
    ensures Shr(v, Mul(n, s)) < Pow2(Mul(n, 64 / n)) && Shr(v, Mul(n, s)) < WORD
  {
    HeadFits(Bits(v), n, 64 / n, s);
    ShrBits(v, Mul(n, s), Mul(n, 64 / n));
    BelowWord(Shr(v, Mul(n, s)), Mul(n, 64 / n));
  }

  lemma ShrBits(v: nat, k: nat, w: nat)
    requires Bits(v) <= k + w
    ensures Shr(v, k) < Pow2(w)
  {
    BitsAre(v);
    Pow2Mono(Bits(v), k + w);
    ShrBound(v, k, k + w);
  }

  lemma BelowWord(y: nat, k: nat)
    requires y < Pow2(k) && k <= 64
    ensures y < WORD
  {
    Pow2Mono(k, 64);
    WordIs();
  }
}
