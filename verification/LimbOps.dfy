/** What the limb loops compute, as functions on sequences, and the numbers they stand for. */
module LimbOps {
  import opened Limbs

  // ----- complement, increment, addition -----

  function NotLimbs(a: seq<Limb>): (r: seq<Limb>)
    ensures |r| == |a|
  {
    if |a| == 0 then [] else [BASE - 1 - a[0]] + NotLimbs(a[1..])
  }

  lemma {:induction false} NotValue(a: seq<Limb>)
    ensures Val(NotLimbs(a)) == Pow(|a|) - 1 - Val(a)
    decreases |a|
  {
    if |a| > 0 {
      NotValue(a[1..]);
      assert NotLimbs(a)[1..] == NotLimbs(a[1..]);
    }
  }

  function IncLimbs(a: seq<Limb>): (r: seq<Limb>)
    ensures |r| == |a|
  {
    if |a| == 0 then [] else if a[0] == BASE - 1 then [0] + IncLimbs(a[1..]) else [a[0] + 1] + a[1..]
  }

  lemma {:induction false} IncValue(a: seq<Limb>)
    ensures Val(IncLimbs(a)) == if Val(a) == Pow(|a|) - 1 then 0 else Val(a) + 1
    decreases |a|
  {
    ValBound(a);
    if |a| > 0 {
      IncValue(a[1..]);
      ValBound(a[1..]);
      assert a[0] == BASE - 1 ==> IncLimbs(a)[1..] == IncLimbs(a[1..]);
      assert a[0] != BASE - 1 ==> IncLimbs(a)[1..] == a[1..];
    }
  }

  function Lo(n: nat): Limb { n % BASE }
  function Hi(n: nat): nat { n / BASE }

  function AddN(c: nat, x: Limb, y: Limb): nat { c + x as int + y as int }

  function AddLimbs(a: seq<Limb>, b: seq<Limb>, c: nat): (r: seq<Limb>)
    requires |a| == |b|
    ensures |r| == |a|
    decreases |a|
  {
    if |a| == 0 then [] else [Lo(AddN(c, a[0], b[0]))] + AddLimbs(a[1..], b[1..], Hi(AddN(c, a[0], b[0])))
  }

  /** The number congruent to `x` that fits in `n` limbs. */
  ghost predicate Wraps(r: int, x: int, n: nat) { exists q :: Differ(r, x, n, q) }

  ghost predicate Differ(r: int, x: int, n: nat, q: int) { r + Mul(q, Pow(n)) == x }

  lemma WrapsIs(r: seq<Limb>, x: int)
    requires Wraps(Val(r), x, |r|)
    ensures Val(r) == x % Pow(|r|)
  {
    ValBound(r);
    var q :| Differ(Val(r), x, |r|, q);
    ModIs(x, Pow(|r|), q, Val(r));
  }

  /** Putting a low limb below a number that fits. */
  lemma WrapsCons(lo: int, hi: int, r: int, x: int, n: nat, res: int, total: int)
    requires n > 0 && Wraps(r, x + hi, n - 1)
    requires res == lo + BASE * r && total == BASE * x + (BASE * hi + lo)
    ensures Wraps(res, total, n)
  {
    var q :| Differ(r, x + hi, n - 1, q);
    MulBase(q, Pow(n - 1));
    assert Differ(res, total, n, q);
  }

  lemma {:induction false} AddWraps(a: seq<Limb>, b: seq<Limb>, c: nat)
    requires |a| == |b|
    ensures Wraps(Val(AddLimbs(a, b, c)), Val(a) + Val(b) + c, |a|)
    decreases |a|
  {
    if |a| == 0 {
      MulOne(c);
      assert Differ(0, c, 0, c);
    } else {
      var n := AddN(c, a[0], b[0]);
      AddWraps(a[1..], b[1..], Hi(n));
      var r := AddLimbs(a[1..], b[1..], Hi(n));
      assert AddLimbs(a, b, c)[1..] == r;
      WrapsCons(Lo(n), Hi(n), Val(r), Val(a[1..]) + Val(b[1..]), |a|, Val(AddLimbs(a, b, c)), Val(a) + Val(b) + c);
    }
  }

  // ----- products -----

  ghost function MulN(c: nat, x: Limb, k: Limb, y: Limb): (r: nat)
    ensures r == c + x as int + (k as int) * (y as int)
  {
    MulIs(k, y);
    MulNonNegative(k, y);
    c + x as int + Mul(k, y)
  }

  /** Adding k times b to a. */
  ghost function MulAddLimbs(a: seq<Limb>, k: Limb, b: seq<Limb>, c: nat): (r: seq<Limb>)
    requires |a| == |b|
    ensures |r| == |a|
    decreases |a|
  {
    if |a| == 0 then []
    else [Lo(MulN(c, a[0], k, b[0]))] + MulAddLimbs(a[1..], k, b[1..], Hi(MulN(c, a[0], k, b[0])))
  }

  lemma {:induction false} MulAddWraps(a: seq<Limb>, k: Limb, b: seq<Limb>, c: nat)
    requires |a| == |b|
    ensures Wraps(Val(MulAddLimbs(a, k, b, c)), Val(a) + Mul(k, Val(b)) + c, |a|)
    decreases |a|
  {
    if |a| == 0 {
      MulOne(c);
      MulOne(k);
      assert Differ(0, c, 0, c);
    } else {
      var n := MulN(c, a[0], k, b[0]);
      MulAddWraps(a[1..], k, b[1..], Hi(n));
      var r := MulAddLimbs(a[1..], k, b[1..], Hi(n));
      assert MulAddLimbs(a, k, b, c)[1..] == r;
      MulDistributes(k, b[0], Val(b[1..]));
      WrapsCons(Lo(n), Hi(n), Val(r), Val(a[1..]) + Mul(k, Val(b[1..])), |a|,
                Val(MulAddLimbs(a, k, b, c)), Val(a) + Mul(k, Val(b)) + c);
    }
  }

  lemma MulDistributes(k: int, x: int, v: int)
    ensures Mul(k, x + BASE * v) == Mul(k, x) + BASE * Mul(k, v)
  {
    MulSum(k, x, BASE * v);
    MulBase(k, v);
  }

  /** A step of a product stays within 64 bits. */
  lemma NoOverflow(c: nat, x: Limb, k: Limb, y: Limb)
    requires c < BASE
    ensures MulN(c, x, k, y) < BASE * BASE && Hi(MulN(c, x, k, y)) < BASE
  {
    MulLess(k, BASE - 1, y);
    MulIs(BASE - 1, y);
  }

  lemma WrapsShift(r: int, x: int, y: int, q: int, n: nat)
    requires Wraps(r, x, n) && y == x + Mul(q, Pow(n))
    ensures Wraps(r, y, n)
  {
    var p :| Differ(r, x, n, p);
    MulAdd(p, q, Pow(n));
    assert Differ(r, y, n, p + q);
  }

  /** The product, one limb of a at a time: each adds its multiple of b and settles one limb. */
  ghost function MulFrom(a: seq<Limb>, acc: seq<Limb>, b: seq<Limb>): (r: seq<Limb>)
    requires |a| == |acc| <= |b|
    ensures |r| == |a|
    decreases |a|
  {
    if |a| == 0 then []
    else
      var s := MulAddLimbs(acc, a[0], b[..|a|], 0);
      [s[0]] + MulFrom(a[1..], s[1..], b)
  }

  lemma {:induction false} MulFromWraps(a: seq<Limb>, acc: seq<Limb>, b: seq<Limb>)
    requires |a| == |acc| <= |b|
    ensures Wraps(Val(MulFrom(a, acc, b)), Val(acc) + Mul(Val(a), Val(b)), |a|)
    decreases |a|
  {
    if |a| == 0 {
      MulOne(Val(b));
      WrapsNothing(Val(MulFrom(a, acc, b)), Val(acc) + Mul(Val(a), Val(b)));
    } else {
      var n := |a|;
      var s := MulAddLimbs(acc, a[0], b[..n], 0);
      var t := MulFrom(a[1..], s[1..], b);
      MulFromWraps(a[1..], s[1..], b);
      assert MulFrom(a, acc, b)[1..] == t;
      MulRow(acc, a[0], b, n);
      RowThenRest(s[0], Val(s[1..]), Val(t), a[0], Val(a[1..]), Val(b), Val(acc), n,
                  Val(s), Val(a), Val(MulFrom(a, acc, b)));
    }
  }

  lemma WrapsNothing(r: int, x: int)
    requires r == 0 && x == 0
    ensures Wraps(r, x, 0)
  {
    MulOne(1);
    assert Differ(r, x, 0, 0);
  }

  lemma RowThenRest(s0: int, s1: int, t: int, a0: int, a1: int, b: int, acc: int, n: nat, s: int, a: int, res: int)
    requires n > 0 && Wraps(t, s1 + Mul(a1, b), n - 1) && Wraps(s, acc + Mul(a0, b), n)
    requires s == s0 + BASE * s1 && a == a0 + BASE * a1 && res == s0 + BASE * t
    ensures Wraps(res, acc + Mul(a, b), n)
  {
    assert s1 + Mul(a1, b) == s1 + Mul(a1, b) + 0;
    WrapsCons(s0, 0, t, s1 + Mul(a1, b), n, res, s + BASE * Mul(a1, b));
    var q :| Differ(s, acc + Mul(a0, b), n, q);
    MulSplits(a0, a1, b);
    WrapsShift(res, s + BASE * Mul(a1, b), acc + Mul(a, b), q, n);
  }

  lemma MulSplits(x: int, v: int, b: int)
    ensures Mul(x + BASE * v, b) == Mul(x, b) + BASE * Mul(v, b)
  {
    MulAdd(x, BASE * v, b);
    MulBase(v, b);
  }

  lemma MulRow(acc: seq<Limb>, k: Limb, b: seq<Limb>, n: nat)
    requires |acc| == n <= |b|
    ensures Wraps(Val(MulAddLimbs(acc, k, b[..n], 0)), Val(acc) + Mul(k, Val(b)), n)
  {
    MulAddWraps(acc, k, b[..n], 0);
    ValSplit(b, n);
    RowShift(Val(MulAddLimbs(acc, k, b[..n], 0)), Val(acc), k, Val(b[..n]), Val(b[n..]), n, Val(b));
  }

  lemma RowShift(r: int, x: int, k: int, low: int, high: int, n: nat, v: int)
    requires Wraps(r, x + Mul(k, low) + 0, n) && v == low + Mul(Pow(n), high)
    ensures Wraps(r, x + Mul(k, v), n)
  {
    MulSum(k, low, Mul(Pow(n), high));
    MulScale(k, Pow(n), high);
    MulComm(Pow(n), Mul(k, high));
    WrapsShift(r, x + Mul(k, low) + 0, x + Mul(k, v), Mul(k, high), n);
  }

  ghost function MulSmallLimbs(a: seq<Limb>, k: Limb, c: nat): (r: seq<Limb>)
    ensures |r| == |a|
    decreases |a|
  {
    if |a| == 0 then [] else [Lo(MulN(c, 0, k, a[0]))] + MulSmallLimbs(a[1..], k, Hi(MulN(c, 0, k, a[0])))
  }

  lemma {:induction false} MulSmallWraps(a: seq<Limb>, k: Limb, c: nat)
    ensures Wraps(Val(MulSmallLimbs(a, k, c)), Mul(k, Val(a)) + c, |a|)
    decreases |a|
  {
    if |a| == 0 {
      MulOne(c);
      MulOne(k);
      assert Differ(0, c, 0, c);
    } else {
      var n := MulN(c, 0, k, a[0]);
      MulSmallWraps(a[1..], k, Hi(n));
      var r := MulSmallLimbs(a[1..], k, Hi(n));
      assert MulSmallLimbs(a, k, c)[1..] == r;
      MulDistributes(k, a[0], Val(a[1..]));
      WrapsCons(Lo(n), Hi(n), Val(r), Mul(k, Val(a[1..])), |a|, Val(MulSmallLimbs(a, k, c)), Mul(k, Val(a)) + c);
    }
  }

  // ----- division by a limb -----

  datatype Division = Division(quotient: seq<Limb>, remainder: nat)

  function DivN(r: nat, x: Limb): nat { r * BASE + x as int }

  function DivLimbs(a: seq<Limb>, d: Limb): (r: Division)
    requires d > 0
    ensures |r.quotient| == |a| && r.remainder < d
  {
    if |a| == 0 then Division([], 0)
    else
      var high := DivLimbs(a[1..], d);
      var t := DivN(high.remainder, a[0]);
      QuotientFits(high.remainder, a[0], d);
      Division([Quot(t, d)] + high.quotient, Rem(t, d))
  }

  lemma QuotientFits(r: nat, x: Limb, d: Limb)
    requires r < d
    ensures Quot(DivN(r, x), d) < BASE && Rem(DivN(r, x), d) < d
  {
    var t := DivN(r, x);
    QuotRem(t, d);
    if Quot(t, d) >= BASE {
      MulLess(BASE, Quot(t, d), d);
      MulIs(BASE, d);
    }
  }

  lemma {:induction false} DivValue(a: seq<Limb>, d: Limb)
    requires d > 0
    ensures Val(a) == Mul(Val(DivLimbs(a, d).quotient), d) + DivLimbs(a, d).remainder
    decreases |a|
  {
    if |a| > 0 {
      var high := DivLimbs(a[1..], d);
      DivValue(a[1..], d);
      var t := DivN(high.remainder, a[0]);
      QuotRem(t, d);
      var q := DivLimbs(a, d).quotient;
      assert q[1..] == high.quotient;
      MulSplits(Quot(t, d), Val(high.quotient), d);
    } else {
      MulOne(d);
    }
  }

  // ----- comparison -----

  /** The highest limb that differs decides. */
  lemma {:induction false} LessAt(a: seq<Limb>, b: seq<Limb>, i: nat)
    requires |a| == |b| && i < |a| && a[i] < b[i] && a[i + 1..] == b[i + 1..]
    ensures Val(a) < Val(b)
    decreases |a|
  {
    if i > 0 {
      assert a[1..][i..] == a[i + 1..] && b[1..][i..] == b[i + 1..];
      LessAt(a[1..], b[1..], i - 1);
    }
  }

  // ----- bits -----

  lemma {:induction false} BitsAbove(x: nat, v: nat, k: nat, y: nat)
    requires x < Pow2(k) && v > 0 && y == x + Mul(Pow2(k), v)
    ensures Bits(y) == k + Bits(v)
    decreases k
  {
    if k == 0 {
      MulOne(v);
    } else {
      var p := Pow2(k - 1);
      MulAdd(p, p, v);
      MulLess(1, p, v);
      MulOne(v);
      BitsAbove(x / 2, v, k - 1, y / 2);
    }
  }

  lemma {:induction false} BitsOfLimbs(a: seq<Limb>, pos: nat)
    requires pos < |a| && a[pos] > 0 && forall i :: pos < i < |a| ==> a[i] == 0
    ensures Bits(Val(a)) == 32 * pos + Bits(a[pos]) && Val(a) > 0
    decreases |a|
  {
    if pos == 0 {
      ValZero(a[1..]);
    } else {
      BitsOfLimbs(a[1..], pos - 1);
      Pow2Is32();
      MulIs(BASE, Val(a[1..]));
      BitsAbove(a[0], Val(a[1..]), 32, Val(a));
    }
  }

  // ----- values modulo the width -----

  lemma AddValue(a: seq<Limb>, b: seq<Limb>)
    requires |a| == |b|
    ensures Val(AddLimbs(a, b, 0)) == (Val(a) + Val(b)) % Pow(|a|)
  {
    AddWraps(a, b, 0);
    WrapsIs(AddLimbs(a, b, 0), Val(a) + Val(b) + 0);
  }

  lemma MulSmallValue(a: seq<Limb>, k: Limb)
    ensures Val(MulSmallLimbs(a, k, 0)) == (Val(a) * k) % Pow(|a|)
  {
    MulSmallWraps(a, k, 0);
    WrapsIs(MulSmallLimbs(a, k, 0), Mul(k, Val(a)) + 0);
    var v: int, w: int := Val(a), k;
    assert Mul(w, v) == v * w by {
      MulIs(w, v);
    }
  }

  lemma MulValue(a: seq<Limb>, acc: seq<Limb>, b: seq<Limb>)
    requires |a| == |acc| <= |b| && forall i :: 0 <= i < |acc| ==> acc[i] == 0
    ensures Val(MulFrom(a, acc, b)) == (Val(a) * Val(b)) % Pow(|a|)
  {
    ValZero(acc);
    MulFromWraps(a, acc, b);
    WrapsIs(MulFrom(a, acc, b), Val(acc) + Mul(Val(a), Val(b)));
    MulIs(Val(a), Val(b));
  }

  lemma DivSmallValue(a: seq<Limb>, d: Limb)
    requires d > 0
    ensures Val(DivLimbs(a, d).quotient) == Val(a) / (d as int)
  {
    DivValue(a, d);
    ModIs(Val(a), d, Val(DivLimbs(a, d).quotient), DivLimbs(a, d).remainder);
  }
}
