/** Powers of natural numbers. */
module Powers {
  import opened Limbs

  ghost function Power(b: nat, e: nat): nat {
    if e == 0 then 1 else
      MulNonNegative(b, Power(b, e - 1));
      Mul(b, Power(b, e - 1))
  }

  lemma {:induction false} PowerMono(a: nat, b: nat, e: nat)
    requires a <= b
    ensures Power(a, e) <= Power(b, e)
  {
    if e > 0 {
      PowerMono(a, b, e - 1);
      MulLess(a, b, Power(a, e - 1));
      MulLess(Power(a, e - 1), Power(b, e - 1), b);
      MulComm(b, Power(a, e - 1));
      MulComm(b, Power(b, e - 1));
    }
  }

  /** Powers of more than one do not shrink. */
  lemma {:induction false} PowerGrows(a: nat, e: nat)
    requires a > 0
    ensures Power(a, e) >= 1 && (e > 0 ==> Power(a, e) >= a)
  {
    if e > 0 {
      PowerGrows(a, e - 1);
      MulLess(1, Power(a, e - 1), a);
      MulComm(a, Power(a, e - 1));
      MulOne(a);
    }
  }

  lemma {:induction false} PowerLess(a: nat, b: nat, e: nat)
    requires a < b && e > 0
    ensures Power(a, e) < Power(b, e)
  {
    PowerMono(a, b, e - 1);
    PowerGrows(b, e - 1);
    MulLess(Power(a, e - 1), Power(b, e - 1), a);
    MulComm(a, Power(a, e - 1));
    MulComm(a, Power(b, e - 1));
    MulLess(a, b - 1, Power(b, e - 1));
    MulStep(b - 1, Power(b, e - 1));
  }

  lemma {:induction false} PowerOfOne(e: nat)
    ensures Power(1, e) == 1
  {
    if e > 0 {
      PowerOfOne(e - 1);
      MulOne(1);
    }
  }

  lemma {:induction false} PowerAdd(b: nat, m: nat, n: nat)
    ensures Power(b, m + n) == Mul(Power(b, m), Power(b, n))
    decreases m
  {
    if m == 0 {
      MulOne(Power(b, n));
    } else {
      PowerAdd(b, m - 1, n);
      MulAssoc(b, Power(b, m - 1), Power(b, n));
    }
  }

  lemma {:induction false} PowerPower(b: nat, m: nat, n: nat, mn: nat)
    requires mn == Mul(n, m)
    ensures Power(Power(b, m), n) == Power(b, mn)
    decreases n
  {
    if n == 0 {
      MulOne(m);
    } else {
      MulStep(n - 1, m);
      MulNonNegative(n - 1, m);
      PowerPower(b, m, n - 1, mn - m);
      PowerAdd(b, m, mn - m);
    }
  }

  lemma PowerMonoExp(b: nat, m: nat, n: nat)
    requires b > 0 && m <= n
    ensures Power(b, m) <= Power(b, n)
  {
    PowerAdd(b, n - m, m);
    PowerGrows(b, n - m);
    PowerGrows(b, m);
    MulLess(1, Power(b, n - m), Power(b, m));
    MulOne(Power(b, m));
  }

  /** From one pair of exponents to all with at least their ratio: if a^k <= b^l and n l <= m k, then
      a^n <= b^m. */
  lemma PowersCompare(a: nat, k: nat, b: nat, l: nat, n: nat, m: nat)
    requires a > 0 && b > 0 && k > 0 && Power(a, k) <= Power(b, l) && Mul(n, l) <= Mul(m, k)
    ensures Power(a, n) <= Power(b, m)
  {
    MulNonNegative(n, k);
    MulNonNegative(n, l);
    MulNonNegative(m, k);
    // (a^n)^k == (a^k)^n <= (b^l)^n == b^(n l) <= b^(m k) == (b^m)^k
    MulComm(n, k);
    PowerPower(a, n, k, Mul(k, n));
    PowerPower(a, k, n, Mul(n, k));
    PowerMono(Power(a, k), Power(b, l), n);
    PowerPower(b, l, n, Mul(n, l));
    PowerMonoExp(b, Mul(n, l), Mul(m, k));
    MulComm(m, k);
    PowerPower(b, m, k, Mul(k, m));
    if Power(a, n) > Power(b, m) {
      PowerLess(Power(b, m), Power(a, n), k);
    }
  }
}
