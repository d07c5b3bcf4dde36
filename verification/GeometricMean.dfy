/** The average target against the geometric mean of the targets it is made of. */
module GeometricMean {
  import opened Limbs
  import opened Powers
  import opened CompactTarget
  import opened NthRoot
  import opened ChainWork

  lemma {:induction false} PowerOfProduct(a: nat, b: nat, ab: nat, k: nat)
    requires ab == Mul(a, b)
    ensures Power(ab, k) == Mul(Power(a, k), Power(b, k))
  {
    if k == 0 {
      MulOne(1);
    } else {
      var x, y := Power(a, k - 1), Power(b, k - 1);
      PowerOfProduct(a, b, ab, k - 1);
      // (a b) (x y) == (a x) (b y)
      MulAssoc(Mul(a, b), x, y);
      MulComm(a, b);
      MulAssoc(b, a, x);
      MulComm(b, Mul(a, x));
      MulAssoc(Mul(a, x), b, y);
    }
  }

  ghost function Targets(nextBits: nat -> nat, n: nat): (ts: seq<nat>)
    ensures |ts| == n
  {
    if n == 0 then [] else Targets(nextBits, n - 1) + [Decoded(nextBits(n - 1))]
  }

  /** One unit of the last place above the approximate root. */
  ghost function NextRoot(x: nat, k: nat): nat
    requires k > 0
  {
    var s := Shifts(Bits(x), k);
    MulNonNegative(k, s);
    Shl(FloorRoot(Shr(x, Mul(k, s)), k) + 1, s)
  }

  ghost function NextRoots(k: nat, nextBits: nat -> nat, n: nat): (rs: seq<nat>)
    requires k > 0
    ensures |rs| == n
  {
    if n == 0 then [] else NextRoots(k, nextBits, n - 1) + [NextRoot(Decoded(nextBits(n - 1)), k)]
  }

  lemma RootBrackets(x: nat, k: nat)
    requires k > 0
    ensures Power(ApproxRoot(x, k), k) <= x < Power(NextRoot(x, k), k)
  {
    var s := Shifts(Bits(x), k);
    MulNonNegative(k, s);
    RootOfHead(x, k, FloorRoot(Shr(x, Mul(k, s)), k), s, Mul(k, s));
  }

  lemma ProductAppend(rs: seq<nat>, r: nat)
    ensures Product(rs + [r]) == Mul(Product(rs), r)
  {
    assert (rs + [r])[..|rs|] == rs;
  }

  lemma ProductsCompare(a: nat, x: nat, b: nat, y: nat)
    requires a <= x && b <= y
    ensures 0 <= Mul(a, b) <= Mul(x, y)
  {
    MulNonNegative(a, b);
    MulLess(a, x, b);
    MulComm(x, b);
    MulComm(x, y);
    MulLess(b, y, x);
  }

  lemma ProductsBelow(a: nat, x: nat, b: nat, y: nat)
    requires a < x && b < y
    ensures 0 <= Mul(a, b) < Mul(x, y)
  {
    ProductsCompare(a, x - 1, b, y);
    MulStep(x - 1, y);
  }

  /** The k-th power of the average is at most the product of the targets, and that is below the k-th power of the
      average of the roots one unit up: the average is the geometric mean, rounded down in each root. */
  lemma {:induction false} MeanBrackets(k: nat, nextBits: nat -> nat, n: nat)
    requires k > 0
    ensures Power(Product(Roots(k, nextBits, n)), k) <= Product(Targets(nextBits, n))
    ensures n > 0 ==> Product(Targets(nextBits, n)) < Power(Product(NextRoots(k, nextBits, n)), k)
    ensures n == 0 ==> Product(Targets(nextBits, n)) == Power(Product(NextRoots(k, nextBits, n)), k) == 1
    decreases n
  {
    if n == 0 {
      PowerOfOne(k);
    } else {
      var x := Decoded(nextBits(n - 1));
      var rs, ts, us := Roots(k, nextBits, n - 1), Targets(nextBits, n - 1), NextRoots(k, nextBits, n - 1);
      MeanBrackets(k, nextBits, n - 1);
      RootBrackets(x, k);
      ProductAppend(rs, ApproxRoot(x, k));
      ProductAppend(ts, x);
      ProductAppend(us, NextRoot(x, k));
      PowerOfProduct(Product(rs), ApproxRoot(x, k), Product(rs + [ApproxRoot(x, k)]), k);
      PowerOfProduct(Product(us), NextRoot(x, k), Product(us + [NextRoot(x, k)]), k);
      ProductsCompare(Power(Product(rs), k), Product(ts), Power(ApproxRoot(x, k), k), x);
      StrictStep(Product(ts), Power(Product(us), k), x, Power(NextRoot(x, k), k), n == 1);
    }
  }

  lemma StrictStep(a: nat, x: nat, b: nat, y: nat, first: bool)
    requires (if first then a == x == 1 else a < x) && b < y
    ensures Mul(a, b) < Mul(x, y)
  {
    if first {
      MulOne(b);
      MulOne(y);
    } else {
      ProductsBelow(a, x, b, y);
    }
  }

  /** With as many roots as the index of the root, equal targets give at most that target, hence at least its work. */
  lemma MeanOfEqual(k: nat, nextBits: nat -> nat, t: nat)
    requires k > 0 && forall i :: 0 <= i < k ==> Decoded(nextBits(i)) == t
    ensures Product(Roots(k, nextBits, k)) <= t
  {
    MeanBrackets(k, nextBits, k);
    EqualTargets(nextBits, k, t);
    var m := Product(Roots(k, nextBits, k));
    if m > t {
      PowerLess(t, m, k);
    }
  }

  lemma {:induction false} EqualTargets(nextBits: nat -> nat, n: nat, t: nat)
    requires forall i :: 0 <= i < n ==> Decoded(nextBits(i)) == t
    ensures Product(Targets(nextBits, n)) == Power(t, n)
    decreases n
  {
    if n > 0 {
      EqualTargets(nextBits, n - 1, t);
      ProductAppend(Targets(nextBits, n - 1), t);
      MulComm(t, Power(t, n - 1));
    }
  }
}
