/** Numbers as digits in any base, highest first, and conversion in a buffer of fixed size. */
module Radix {
  import opened Limbs
  import opened Powers

  // ----- values -----

  predicate Digits(base: nat, s: seq<nat>) { forall i :: 0 <= i < |s| ==> s[i] < base }

  ghost function Value(base: nat, s: seq<nat>): nat {
    if |s| == 0 then 0
    else
      MulNonNegative(s[0], Power(base, |s| - 1));
      Mul(s[0], Power(base, |s| - 1)) + Value(base, s[1..])
  }

  lemma {:induction false} ValueBound(base: nat, s: seq<nat>)
    requires Digits(base, s)
    ensures Value(base, s) < Power(base, |s|)
    decreases |s|
  {
    if |s| > 0 {
      var p := Power(base, |s| - 1);
      ValueBound(base, s[1..]);
      MulLess(s[0], base - 1, p);
      MulStep(base - 1, p);
    }
  }

  lemma {:induction false} ValueZeros(base: nat, zs: seq<nat>, s: seq<nat>)
    requires forall i :: 0 <= i < |zs| ==> zs[i] == 0
    ensures Value(base, zs + s) == Value(base, s)
    decreases |zs|
  {
    if |zs| == 0 {
      assert zs + s == s;
    } else {
      assert (zs + s)[1..] == zs[1..] + s;
      MulOne(Power(base, |zs + s| - 1));
      ValueZeros(base, zs[1..], s);
    }
  }

  lemma {:induction false} ValueAppend(base: nat, s: seq<nat>, d: nat)
    ensures Value(base, s + [d]) == Mul(Value(base, s), base) + d
    decreases |s|
  {
    if |s| == 0 {
      assert s + [d] == [d] && [d][1..] == [];
      MulOne(d);
      MulOne(base);
    } else {
      assert (s + [d])[1..] == s[1..] + [d];
      ValueAppend(base, s[1..], d);
      var p := Power(base, |s| - 1);
      MulComm(base, p);
      MulAssoc(s[0], p, base);
      MulAdd(Mul(s[0], p), Value(base, s[1..]), base);
    }
  }

  /** Digits without a leading zero. */
  predicate Canonical(base: nat, s: seq<nat>) { Digits(base, s) && (|s| > 0 ==> s[0] != 0) }

  lemma {:induction false} SameLengthUnique(base: nat, s: seq<nat>, t: seq<nat>)
    requires Digits(base, s) && Digits(base, t) && |s| == |t| && Value(base, s) == Value(base, t)
    ensures s == t
    decreases |s|
  {
    if |s| > 0 {
      var p := Power(base, |s| - 1);
      ValueBound(base, s[1..]);
      ValueBound(base, t[1..]);
      QuotientUnique(p, s[0], Value(base, s[1..]), t[0], Value(base, t[1..]));
      SameLengthUnique(base, s[1..], t[1..]);
      assert s == [s[0]] + s[1..] && t == [t[0]] + t[1..];
    }
  }

  lemma CanonicalBound(base: nat, s: seq<nat>)
    requires Canonical(base, s) && |s| > 0
    ensures Value(base, s) >= Power(base, |s| - 1)
  {
    MulLess(1, s[0], Power(base, |s| - 1));
    MulOne(Power(base, |s| - 1));
  }

  /** A number has one canonical form. */
  lemma CanonicalUnique(base: nat, s: seq<nat>, t: seq<nat>)
    requires base > 0 && Canonical(base, s) && Canonical(base, t) && Value(base, s) == Value(base, t)
    ensures s == t
  {
    ValueBound(base, s);
    ValueBound(base, t);
    if |s| < |t| {
      CanonicalBound(base, t);
      PowerMonoExp(base, |s|, |t| - 1);
    } else if |t| < |s| {
      CanonicalBound(base, s);
      PowerMonoExp(base, |t|, |s| - 1);
    } else {
      SameLengthUnique(base, s, t);
    }
  }

  ghost function DigitsOf(base: nat, n: nat): (r: seq<nat>)
    requires base > 1
    decreases n
  {
    if n == 0 then []
    else
      QuotLess(n, base);
      DigitsOf(base, Quot(n, base)) + [Rem(n, base)]
  }

  lemma QuotLess(n: nat, base: nat)
    requires n > 0 && base > 1
    ensures Quot(n, base) < n && Rem(n, base) < base
  {
    QuotRem(n, base);
    MulLess(2, base, Quot(n, base));
    MulComm(base, Quot(n, base));
    MulIs(2, Quot(n, base));
  }

  lemma {:induction false} DigitsAre(base: nat, n: nat)
    requires base > 1
    ensures Canonical(base, DigitsOf(base, n)) && Value(base, DigitsOf(base, n)) == n
    ensures n > 0 ==> |DigitsOf(base, n)| > 0
    decreases n
  {
    if n > 0 {
      QuotLess(n, base);
      QuotRem(n, base);
      DigitsAre(base, Quot(n, base));
      ValueAppend(base, DigitsOf(base, Quot(n, base)), Rem(n, base));
      if Quot(n, base) == 0 {
        MulOne(base);
      }
    }
  }

  // ----- multiply and add in a buffer -----

  /** The last `length` places of the buffer hold the canonical form of v, the others are zero. */
  ghost predicate Holds(b: seq<nat>, base: nat, length: nat, v: nat) {
    && length <= |b| && Digits(base, b) && Value(base, b) == v
    && (forall k :: 0 <= k < |b| - length ==> b[k] == 0)
    && (length > 0 ==> b[|b| - length] != 0)
  }

  lemma HoldsDigits(b: seq<nat>, base: nat, length: nat, v: nat)
    requires base > 1 && Holds(b, base, length, v)
    ensures b[|b| - length..] == DigitsOf(base, v)
  {
    var k := |b| - length;
    UpperZeros(base, b, k);
    DigitsAre(base, v);
    CanonicalUnique(base, b[k..], DigitsOf(base, v));
  }

  /** The lowest i places of the new buffer, and the carry, against those of the old one. */
  ghost predicate Carrying(b: seq<nat>, b0: seq<nat>, base: nat, mul: nat, ch: nat, carry: nat, i: nat) {
    && |b| == |b0| && i <= |b| && Digits(base, b) && b[..|b| - i] == b0[..|b| - i]
    && Value(base, b[|b| - i..]) + Mul(carry, Power(base, i)) == Mul(mul, Value(base, b0[|b| - i..])) + ch
  }

  lemma CarryingStarts(b: seq<nat>, base: nat, mul: nat, ch: nat)
    requires Digits(base, b)
    ensures Carrying(b, b, base, mul, ch, ch, 0)
  {
    MulOne(ch);
    MulOne(mul);
    assert b[|b|..] == [];
  }

  lemma CarryingStep(b: seq<nat>, b0: seq<nat>, base: nat, mul: nat, ch: nat, carry: nat, i: nat, b': seq<nat>, carry': nat)
    requires base > 0 && Carrying(b, b0, base, mul, ch, carry, i) && i < |b|
    requires var k := |b| - 1 - i;
             var n := carry + Mul(mul, b0[k]);
             n >= 0 && b' == b[k := Rem(n, base)] && carry' == Quot(n, base)
    ensures Carrying(b', b0, base, mul, ch, carry', i + 1)
  {
    var k := |b| - 1 - i;
    var n := carry + Mul(mul, b0[k]);
    QuotRem(n, base);
    assert b'[k..] == [Rem(n, base)] + b[k + 1..] && b0[k..] == [b0[k]] + b0[k + 1..];
    assert b'[..k] == b[..k + 1][..k] && b0[..k] == b0[..k + 1][..k];
    CarryArith(base, Power(base, i), Power(base, i + 1), Rem(n, base), carry', n, carry, mul, b0[k],
               Value(base, b[k + 1..]), Value(base, b0[k + 1..]), ch);
  }

  lemma CarryArith(base: nat, p: nat, bp: nat, d: nat, c': nat, n: nat, c: nat, mul: nat, x: nat, t: nat, t0: nat, ch: nat)
    requires bp == Mul(base, p) && n == Mul(c', base) + d && n == c + Mul(mul, x)
    requires t + Mul(c, p) == Mul(mul, t0) + ch
    ensures (Mul(d, p) + t) + Mul(c', bp) == Mul(mul, Mul(x, p) + t0) + ch
  {
    MulAssoc(c', base, p);
    MulAdd(Mul(c', base), d, p);
    MulAdd(c, Mul(mul, x), p);
    MulAssoc(mul, x, p);
    MulSum(mul, Mul(x, p), t0);
  }

  /** Above the length the old buffer is zero, so the whole value is accounted for. */
  lemma CarryingEnds(b: seq<nat>, b0: seq<nat>, base: nat, mul: nat, ch: nat, carry: nat, i: nat)
    requires base > 1 && Carrying(b, b0, base, mul, ch, carry, i) && (carry == 0 || i == |b|)
    requires forall k :: 0 <= k < |b| - i ==> b0[k] == 0
    requires Mul(mul, Value(base, b0)) + ch < Power(base, |b|)
    ensures carry == 0 && Value(base, b) == Mul(mul, Value(base, b0)) + ch
  {
    var k := |b| - i;
    forall j | 0 <= j < k ensures b[j] == 0 {
      assert b[j] == b[..k][j] == b0[..k][j];
    }
    UpperZeros(base, b, k);
    UpperZeros(base, b0, k);
    if carry > 0 {
      MulOne(Power(base, i));
      MulLess(1, carry, Power(base, i));
    } else {
      MulOne(Power(base, i));
    }
  }

  lemma UpperZeros(base: nat, b: seq<nat>, k: nat)
    requires k <= |b| && forall j :: 0 <= j < k ==> b[j] == 0
    ensures Value(base, b) == Value(base, b[k..])
  {
    assert b == b[..k] + b[k..];
    ValueZeros(base, b[..k], b[k..]);
  }

  /** Multiplies the number in the buffer and adds to it. The buffer must be large enough for the result. */
  method Accumulate(b: array<nat>, length: nat, base: nat, mul: nat, ch: nat, ghost v: nat) returns (i: nat)
    requires base > 1 && mul > 0 && Holds(b[..], base, length, v) && 0 <= Mul(mul, v) && Mul(mul, v) + ch < Power(base, b.Length)
    modifies b
    ensures Holds(b[..], base, i, Mul(mul, v) + ch)
  {
    ghost var b0 := b[..];
    i := 0;
    var carry: nat := ch;
    CarryingStarts(b[..], base, mul, ch);
    while (carry != 0 || i < length) && i < b.Length
      invariant i <= b.Length && Carrying(b[..], b0, base, mul, ch, carry, i)
      invariant i > length && carry == 0 ==> b[b.Length - i] != 0
      decreases b.Length - i
    {
      carry := AccumulateDigit(b, base, mul, ch, carry, i, b0, length);
      i := i + 1;
    }
    CarryingEnds(b[..], b0, base, mul, ch, carry, i);
    assert carry == 0;
    AccumulateHolds(b[..], b0, base, length, v, mul, ch, i);
  }

  method AccumulateDigit(b: array<nat>, base: nat, mul: nat, ghost ch: nat, carry: nat, i: nat, ghost b0: seq<nat>,
                         ghost length: nat)
    returns (carry': nat)
    requires base > 1 && i < b.Length && Carrying(b[..], b0, base, mul, ch, carry, i) && (carry != 0 || i < length)
    requires forall k :: 0 <= k < |b0| - length ==> b0[k] == 0
    modifies b
    ensures Carrying(b[..], b0, base, mul, ch, carry', i + 1)
    ensures i >= length && carry' == 0 ==> b[b.Length - 1 - i] != 0
  {
    var k := b.Length - 1 - i;
    ghost var d := b[..];
    assert b[k] == b0[k] by {
      assert b[k] == b[..][..b.Length - i][k] == b0[..b.Length - i][k];
    }
    MulIs(mul, b0[k]);
    MulNonNegative(mul, b0[k]);
    var n: nat := carry + mul * b[k];
    QuotIs(n, base);
    TopDigit(n, base, carry, mul, b[k], i >= length);
    b[k] := n % base;
    carry' := n / base;
    CarryingStep(d, b0, base, mul, ch, carry, i, b[..], carry');
  }

  lemma TopDigit(n: nat, base: nat, carry: nat, mul: nat, x: nat, above: bool)
    requires base > 1 && n == carry + mul * x && (above ==> x == 0 && carry != 0)
    ensures above && Quot(n, base) == 0 ==> Rem(n, base) != 0
  {
    if above {
      assert n == carry;
      QuotRem(n, base);
      MulOne(base);
    }
  }

  lemma AccumulateHolds(b: seq<nat>, b0: seq<nat>, base: nat, length: nat, v: nat, mul: nat, ch: nat, i: nat)
    requires base > 1 && mul > 0 && Holds(b0, base, length, v) && Carrying(b, b0, base, mul, ch, 0, i) && i >= length
    requires Mul(mul, v) >= 0 && Value(base, b) == Mul(mul, v) + ch && (i > length ==> b[|b| - i] != 0)
    ensures Holds(b, base, i, Mul(mul, v) + ch)
  {
    forall k | 0 <= k < |b| - i ensures b[k] == 0 {
      assert b[k] == b[..|b| - i][k] == b0[..|b| - i][k] == b0[k];
    }
    if i == length && length > 0 {
      StillLong(b, b0, base, length, v, mul, ch);
    }
  }

  /** A number does not get shorter. */
  lemma StillLong(b: seq<nat>, b0: seq<nat>, base: nat, length: nat, v: nat, mul: nat, ch: nat)
    requires base > 1 && mul > 0 && length > 0 && Holds(b0, base, length, v) && |b| == |b0| && Digits(base, b)
    requires forall k :: 0 <= k < |b| - length ==> b[k] == 0
    requires Mul(mul, v) >= 0 && Value(base, b) == Mul(mul, v) + ch
    ensures b[|b| - length] != 0
  {
    var k := |b| - length;
    UpperZeros(base, b0, k);
    CanonicalBound(base, b0[k..]);
    MulLess(1, mul, v);
    MulOne(v);
    if b[k] == 0 {
      UpperZeros(base, b, k + 1);
      ValueBound(base, b[k + 1..]);
    }
  }
}
