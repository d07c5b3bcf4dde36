/**
 The compact form of a 256-bit target: a base-256 exponent and a 23-bit mantissa with a sign bit.
 */
module CompactTarget {
  import opened Limbs
  import opened ArithUint256

  // ----- shifts of numbers -----

  ghost function Shr(x: nat, k: nat): nat { Quot(x, Pow2(k)) }

  ghost function Shl(x: nat, k: nat): nat {
    MulNonNegative(x, Pow2(k));
    Mul(x, Pow2(k))
  }

  lemma ShrIs(x: nat, k: nat)
    ensures Shr(x, k) == x / Pow2(k)
  {
    QuotIs(x, Pow2(k));
  }

  lemma ShlIs(x: nat, k: nat)
    ensures Shl(x, k) == x * Pow2(k)
  {
    MulIs(x, Pow2(k));
  }

  lemma ShrUnique(x: nat, k: nat, q: nat, r: nat)
    requires x == Shl(q, k) + r && r < Pow2(k)
    ensures Shr(x, k) == q
  {
    QuotRem(x, Pow2(k));
    QuotientUnique(Pow2(k), q, r, Quot(x, Pow2(k)), Rem(x, Pow2(k)));
  }

  lemma ShlShl(x: nat, k: nat, j: nat)
    ensures Shl(Shl(x, k), j) == Shl(x, k + j)
  {
    MulAssoc(x, Pow2(k), Pow2(j));
    Pow2Add(k, j);
  }

  lemma ShrShl(x: nat, k: nat, j: nat)
    requires j <= k
    ensures Shr(Shl(x, k), j) == Shl(x, k - j)
  {
    ShlShl(x, k - j, j);
    ShrUnique(Shl(x, k), j, Shl(x, k - j), 0);
  }

  lemma ShrShr(x: nat, k: nat, j: nat)
    ensures Shr(Shr(x, k), j) == Shr(x, k + j)
  {
    var y := Shr(x, k);
    var r, s := Rem(x, Pow2(k)), Rem(y, Pow2(j));
    QuotRem(x, Pow2(k));
    QuotRem(y, Pow2(j));
    var z := Shr(y, j);
    MulAdd(Shl(z, j), s, Pow2(k));
    ShlShl(z, j, k);
    MulLess(s, Pow2(j) - 1, Pow2(k));
    MulStep(Pow2(j) - 1, Pow2(k));
    Pow2Add(j, k);
    MulNonNegative(s, Pow2(k));
    ShrUnique(x, k + j, z, Mul(s, Pow2(k)) + r);
  }

  /** Shifting right and back left clears the low bits. */
  lemma ShlShr(x: nat, k: nat)
    ensures Shl(Shr(x, k), k) + Rem(x, Pow2(k)) == x && Rem(x, Pow2(k)) < Pow2(k)
  {
    QuotRem(x, Pow2(k));
  }

  lemma ShlBound(x: nat, k: nat, b: nat)
    ensures x < Pow2(b) ==> Shl(x, k) < Pow2(b + k)
    ensures x >= Pow2(b) ==> Shl(x, k) >= Pow2(b + k)
  {
    Pow2Add(b, k);
    if x < Pow2(b) {
      MulLess(x, Pow2(b) - 1, Pow2(k));
      MulStep(Pow2(b) - 1, Pow2(k));
    } else {
      MulLess(Pow2(b), x, Pow2(k));
    }
  }

  lemma ShrBound(x: nat, k: nat, b: nat)
    requires k <= b
    ensures x < Pow2(b) ==> Shr(x, k) < Pow2(b - k)
    ensures x >= Pow2(b) ==> Shr(x, k) >= Pow2(b - k)
  {
    var y := Shr(x, k);
    ShlShr(x, k);
    ShlBound(y, k, b - k);
    if x >= Pow2(b) && y < Pow2(b - k) {
      Pow2Add(b - k, k);
      MulLess(y, Pow2(b - k) - 1, Pow2(k));
      MulStep(Pow2(b - k) - 1, Pow2(k));
    }
  }

  lemma ShrMono(x: nat, y: nat, k: nat)
    requires x <= y
    ensures Shr(x, k) <= Shr(y, k)
  {
    ShlShr(x, k);
    ShlShr(y, k);
    if Shr(x, k) > Shr(y, k) {
      MulLess(Shr(y, k) + 1, Shr(x, k), Pow2(k));
      MulStep(Shr(y, k), Pow2(k));
    }
  }

  // ----- decoding and encoding -----

  const SIGN := 0x0080_0000
  const UNIT := 0x0100_0000

  function SizeOf(c: nat): nat { c / UNIT }

  ghost function WordOf(c: nat): nat {
    if SizeOf(c) <= 3 then Shr(c % SIGN, 8 * (3 - SizeOf(c))) else c % SIGN
  }

  ghost function Decoded(c: nat): nat {
    if SizeOf(c) <= 3 then WordOf(c) else Shl(WordOf(c), 8 * (SizeOf(c) - 3)) % MODULUS
  }

  ghost predicate Negative(c: nat) { WordOf(c) != 0 && c / SIGN % 2 == 1 }

  ghost predicate Overflow(c: nat) {
    WordOf(c) != 0 && (SizeOf(c) > 34 || (WordOf(c) > 0xff && SizeOf(c) > 33) || (WordOf(c) > 0xffff && SizeOf(c) > 32))
  }

  function Bytes(v: nat): nat { (Bits(v) + 7) / 8 }

  /** The three highest bytes. */
  ghost function Mantissa(v: nat): nat {
    if Bytes(v) <= 3 then Shl(v, 8 * (3 - Bytes(v))) else Shr(v, 8 * (Bytes(v) - 3))
  }

  /** The mantissa gives up a byte when its highest bit would be taken for the sign. */
  ghost function Kept(v: nat): nat { if Mantissa(v) >= SIGN then Mantissa(v) / 256 else Mantissa(v) }

  ghost function SizeFor(v: nat): nat { Bytes(v) + if Mantissa(v) >= SIGN then 1 else 0 }

  ghost function Encoded(v: nat, negative: bool): nat {
    SizeFor(v) * UNIT + Kept(v) + if negative && Kept(v) != 0 then SIGN else 0
  }

  /** The bytes of a number that its compact form drops. */
  function Dropped(v: nat): nat { if Bits(v) / 8 >= 2 then Bits(v) / 8 - 2 else 0 }

  ghost function Truncated(v: nat): nat { Shl(Shr(v, 8 * Dropped(v)), 8 * Dropped(v)) }

  lemma Powers()
    ensures Pow2(8) == 256 && Pow2(16) == 0x1_0000 && Pow2(23) == SIGN && Pow2(24) == UNIT
  {
    assert Pow2(8) == 256;
    Pow2Add(8, 8);
    MulIs(256, 256);
    Pow2Add(16, 8);
    MulIs(0x1_0000, 256);
  }

  ghost predicate SignTaken(v: nat) { v > 0 && Bits(v) == 8 * Bytes(v) }

  lemma MantissaIs(v: nat)
    ensures Mantissa(v) < UNIT && (Mantissa(v) >= SIGN <==> SignTaken(v))
  {
    if v == 0 {
      ZeroShifted(24);
    } else if Bytes(v) <= 3 {
      MantissaOfSmall(v);
    } else {
      MantissaOfLarge(v);
    }
  }

  lemma MantissaOfSmall(v: nat)
    requires Bytes(v) <= 3 && v > 0
    ensures Mantissa(v) < UNIT && (Mantissa(v) >= SIGN <==> SignTaken(v))
  {
    TopByte(v, Bytes(v), Bits(v));
    MantissaUp(v, Bytes(v));
  }

  lemma MantissaOfLarge(v: nat)
    requires Bytes(v) > 3 && v > 0
    ensures Mantissa(v) < UNIT && (Mantissa(v) >= SIGN <==> SignTaken(v))
  {
    TopByte(v, Bytes(v), Bits(v));
    MantissaDown(v, Bytes(v));
  }

  lemma ZeroShifted(k: nat)
    ensures Shl(0, k) == 0
  {
    MulOne(Pow2(k));
  }

  lemma TopByte(v: nat, n: nat, b: nat)
    requires v > 0 && b == Bits(v) && n == (b + 7) / 8
    ensures n > 0 && v < Pow2(8 * n) && (v >= Pow2(8 * n - 1) <==> b == 8 * n)
  {
    BitsAre(v);
    Pow2Mono(b, 8 * n);
    if b < 8 * n {
      Pow2Mono(b, 8 * n - 1);
    }
  }

  lemma MantissaUp(v: nat, n: nat)
    requires 0 < n <= 3 && v < Pow2(8 * n)
    ensures Shl(v, 8 * (3 - n)) < UNIT && (Shl(v, 8 * (3 - n)) >= SIGN <==> v >= Pow2(8 * n - 1))
  {
    Powers();
    ShlBound(v, 8 * (3 - n), 8 * n);
    ShlBound(v, 8 * (3 - n), 8 * n - 1);
  }

  lemma MantissaDown(v: nat, n: nat)
    requires 3 < n && v < Pow2(8 * n)
    ensures Shr(v, 8 * (n - 3)) < UNIT && (Shr(v, 8 * (n - 3)) >= SIGN <==> v >= Pow2(8 * n - 1))
  {
    Powers();
    ShrBound(v, 8 * (n - 3), 8 * n);
    ShrBound(v, 8 * (n - 3), 8 * n - 1);
  }

  /** Size and mantissa can be read back. */
  lemma Fields(v: nat, negative: bool)
    ensures Kept(v) < SIGN
    ensures var c := Encoded(v, negative);
            SizeOf(c) == SizeFor(v) && c % SIGN == Kept(v) && (c / SIGN % 2 == 1 <==> negative && Kept(v) != 0)
  {
    MantissaIs(v);
    FieldsOf(SizeFor(v), Kept(v), negative && Kept(v) != 0, Encoded(v, negative));
  }

  lemma FieldsOf(size: nat, kept: nat, sign: bool, c: nat)
    requires kept < SIGN && c == size * UNIT + kept + if sign then SIGN else 0
    ensures SizeOf(c) == size && c % SIGN == kept && (c / SIGN % 2 == 1 <==> sign)
  {
    var bit := if sign then 1 else 0;
    MulIs(size, UNIT);
    ModIs(c, UNIT, size, kept + bit * SIGN);
    MulIs(2 * size + bit, SIGN);
    ModIs(c, SIGN, 2 * size + bit, kept);
  }

  /** The mantissa stands for the number without its dropped bytes. */
  lemma MantissaStands(v: nat)
    ensures SizeFor(v) <= 3 ==> Shr(Kept(v), 8 * (3 - SizeFor(v))) == Truncated(v)
    ensures SizeFor(v) > 3 ==> Shl(Kept(v), 8 * (SizeFor(v) - 3)) == Truncated(v)
  {
    MantissaIs(v);
    if Mantissa(v) >= SIGN {
      StandsSigned(v);
    } else {
      StandsPlain(v);
    }
  }

  lemma StandsPlain(v: nat)
    requires Mantissa(v) < SIGN
    ensures SizeFor(v) <= 3 ==> Shr(Kept(v), 8 * (3 - SizeFor(v))) == Truncated(v)
    ensures SizeFor(v) > 3 ==> Shl(Kept(v), 8 * (SizeFor(v) - 3)) == Truncated(v)
  {
    var n := Bytes(v);
    MantissaIs(v);
    if n <= 3 {
      assert Dropped(v) == 0;
      ShrShl(v, 8 * (3 - n), 8 * (3 - n));
      NoShift(v);
    } else {
      assert Dropped(v) == n - 3;
    }
  }

  lemma NoShift(v: nat)
    ensures Shl(v, 0) == v && Shr(v, 0) == v
  {
    MulOne(v);
    ShrUnique(v, 0, v, 0);
  }

  lemma StandsSigned(v: nat)
    requires Mantissa(v) >= SIGN
    ensures SizeFor(v) <= 3 ==> Shr(Kept(v), 8 * (3 - SizeFor(v))) == Truncated(v)
    ensures SizeFor(v) > 3 ==> Shl(Kept(v), 8 * (SizeFor(v) - 3)) == Truncated(v)
  {
    var n := Bytes(v);
    MantissaIs(v);
    Powers();
    ShrIs(Mantissa(v), 8);
    assert Kept(v) == Shr(Mantissa(v), 8);
    if n < 3 {
      assert Dropped(v) == 0;
      ShrShl(v, 8 * (3 - n), 8);
      ShrShl(v, 8 * (2 - n), 8 * (2 - n));
      NoShift(v);
    } else if n == 3 {
      assert Dropped(v) == 1;
      NoShift(v);
    } else {
      assert Dropped(v) == n - 2;
      ShrShr(v, 8 * (n - 3), 8);
    }
  }

  /** Encoding and decoding again drops the low bytes, keeps the sign of what is not zero, and does not overflow. */
  lemma RoundTrip(v: nat, negative: bool)
    requires v < MODULUS
    ensures Decoded(Encoded(v, negative)) == Truncated(v) && !Overflow(Encoded(v, negative))
    ensures Negative(Encoded(v, negative)) <==> negative && v > 0
  {
    Fields(v, negative);
    MantissaStands(v);
    TruncatedBelow(v);
    FitsModulus(Truncated(v), v);
    NoOverflow(v, negative);
    SignKept(v, negative);
  }

  lemma SignKept(v: nat, negative: bool)
    ensures Negative(Encoded(v, negative)) <==> negative && v > 0
  {
    Fields(v, negative);
    MantissaStands(v);
    TruncatedBelow(v);
    if v > 0 {
      TruncatedAbove(v);
    }
    if SizeFor(v) > 3 {
      ZeroShifted(8 * (SizeFor(v) - 3));
    } else {
      NothingShifted(8 * (3 - SizeFor(v)));
    }
  }

  lemma NothingShifted(k: nat)
    ensures Shr(0, k) == 0
  {
    ShrIs(0, k);
  }

  lemma FitsModulus(x: nat, v: nat)
    requires x <= v < MODULUS
    ensures x % MODULUS == x
  {
    MulOne(MODULUS);
    ModIs(x, MODULUS, 0, x);
  }

  lemma NoOverflow(v: nat, negative: bool)
    requires v < MODULUS
    ensures !Overflow(Encoded(v, negative))
  {
    Fields(v, negative);
    MantissaIs(v);
    BitsFit(v);
  }

  lemma TruncatedBelow(v: nat)
    ensures Truncated(v) <= v && v - Truncated(v) < Pow2(8 * Dropped(v))
  {
    ShlShr(v, 8 * Dropped(v));
  }

  // ----- truncation -----

  /** The highest bit survives. */
  lemma TruncatedAbove(v: nat)
    requires v > 0
    ensures Pow2(Bits(v) - 1) <= Truncated(v) && Bits(Truncated(v)) == Bits(v)
  {
    var b, k := Bits(v), 8 * Dropped(v);
    BitsAre(v);
    ShrBound(v, k, b - 1);
    ShlBound(Shr(v, k), k, b - 1 - k);
    TruncatedBelow(v);
    BitsUnique(Truncated(v), b);
  }

  lemma TruncatedIdempotent(v: nat)
    ensures Truncated(Truncated(v)) == Truncated(v)
  {
    var k := 8 * Dropped(v);
    if v == 0 {
      TruncatedBelow(v);
    } else {
      TruncatedAbove(v);
      ShrShl(Shr(v, k), k, k);
      NoShift(Shr(v, k));
    }
  }

  lemma TruncatedMonotone(v: nat, w: nat)
    requires v <= w
    ensures Truncated(v) <= Truncated(w)
  {
    BitsAre(w);
    BitsAtMost(v, Bits(w));
    if Dropped(v) == Dropped(w) {
      ShrMono(v, w, 8 * Dropped(v));
      MulLess(Shr(v, 8 * Dropped(v)), Shr(w, 8 * Dropped(w)), Pow2(8 * Dropped(v)));
    } else {
      TruncatedBelow(v);
      BitsAre(v);
      TruncatedAbove(w);
      Pow2Mono(Bits(v), Bits(w) - 1);
    }
  }

  // ----- decoded targets -----

  lemma WordBound(c: nat)
    ensures WordOf(c) < SIGN
  {
    if SizeOf(c) <= 3 {
      ShrMono(0, c % SIGN, 8 * (3 - SizeOf(c)));
      ShlShr(c % SIGN, 8 * (3 - SizeOf(c)));
      MulLess(1, Pow2(8 * (3 - SizeOf(c))), WordOf(c));
      MulComm(WordOf(c), Pow2(8 * (3 - SizeOf(c))));
      MulOne(WordOf(c));
    }
  }

  /** Without the overflow flag nothing is lost. */
  lemma ExactUnlessOverflow(c: nat)
    requires !Overflow(c) && SizeOf(c) > 3
    ensures Decoded(c) == Shl(WordOf(c), 8 * (SizeOf(c) - 3))
  {
    var w, k := WordOf(c), 8 * (SizeOf(c) - 3);
    WordBound(c);
    if w == 0 {
      ZeroShifted(k);
    } else {
      WordFits(w, SizeOf(c));
    }
    FitsModulus(Shl(w, k), Shl(w, k));
  }

  /** The flag is raised exactly where the number does not fit in 256 bits. */
  lemma OverflowIs(c: nat)
    ensures SizeOf(c) <= 3 ==> !Overflow(c)
    ensures SizeOf(c) > 3 ==> (Overflow(c) <==> Shl(WordOf(c), 8 * (SizeOf(c) - 3)) >= MODULUS)
  {
    WordBound(c);
    if SizeOf(c) > 3 {
      var w, size := WordOf(c), SizeOf(c);
      if w == 0 {
        ZeroShifted(8 * (size - 3));
      } else if Overflow(c) {
        WordExceeds(w, size);
      } else {
        WordFits(w, size);
      }
    }
  }

  lemma WordExceeds(w: nat, size: nat)
    requires w > 0 && (size > 34 || (size == 34 && w > 0xff) || (size == 33 && w > 0xffff))
    ensures Shl(w, 8 * (size - 3)) >= MODULUS
  {
    Powers();
    var k := 8 * (size - 3);
    if size > 34 {
      ShiftExceeds(w, 0, k);
    } else if size == 34 {
      ShiftExceeds(w, 8, k);
    } else {
      ShiftExceeds(w, 16, k);
    }
  }

  lemma ShiftExceeds(w: nat, b: nat, k: nat)
    requires w >= Pow2(b) && b + k >= 256
    ensures Shl(w, k) >= MODULUS
  {
    ShlBound(w, k, b);
    PowIsPow2(8);
    Pow2Mono(32 * 8, b + k);
  }

  lemma WordFits(w: nat, size: nat)
    requires 3 < size <= 34 && w < SIGN && (size > 33 ==> w <= 0xff) && (size > 32 ==> w <= 0xffff)
    ensures Shl(w, 8 * (size - 3)) < MODULUS
  {
    Powers();
    var k := 8 * (size - 3);
    if size == 34 {
      ShiftFits(w, 8, k);
    } else if size == 33 {
      ShiftFits(w, 16, k);
    } else {
      ShiftFits(w, 23, k);
    }
  }

  lemma ShiftFits(w: nat, b: nat, k: nat)
    requires w < Pow2(b) && b + k <= 256
    ensures Shl(w, k) < MODULUS
  {
    ShlBound(w, k, b);
    PowIsPow2(8);
    Pow2Mono(b + k, 32 * 8);
  }

  /** A decoded target is never all ones, so adding one to it never wraps to zero. */
  lemma NeverAllOnes(c: nat)
    ensures Decoded(c) < MODULUS - 1
  {
    WordBound(c);
    if SizeOf(c) > 3 {
      var k := 8 * (SizeOf(c) - 3);
      EvenRest(WordOf(c), k);
    } else {
      LargeModulus();
    }
  }

  lemma LargeModulus()
    ensures SIGN < MODULUS - 1
  {
    PowMono(1, 8);
  }

  lemma EvenRest(w: nat, k: nat)
    requires k > 0
    ensures Shl(w, k) % MODULUS < MODULUS - 1
  {
    var x, m := Shl(w, k), MODULUS;
    MulSum(w, Pow2(k - 1), Pow2(k - 1));
    var half := BASE / 2 * Pow(7);
    assert m == half + half;
    DivMod(x, m);
    MulSum(x / m, half, half);
  }

  // ----- the methods -----

  method SetCompact(x: Uint256, c: nat) returns (negative: bool, overflow: bool)
    requires x.Valid() && c < 0x1_0000_0000
    modifies x.pn
    ensures x.Value() == Decoded(c) && negative == Negative(c) && overflow == Overflow(c)
  {
    var nSize := c / 0x100_0000;
    var nWord := c % 0x80_0000;
    WordBound(c);
    if nSize <= 3 {
      ShrIs(nWord, 8 * (3 - nSize));
      nWord := nWord / Pow2(8 * (3 - nSize));
      x.AssignWord(nWord);
    } else {
      x.AssignWord(nWord);
      ShlIs(nWord, 8 * (nSize - 3));
      x.ShiftLeft(8 * (nSize - 3));
    }
    negative := nWord != 0 && c / 0x80_0000 % 2 == 1;
    overflow := nWord != 0 && (nSize > 34 || (nWord > 0xff && nSize > 33) || (nWord > 0xffff && nSize > 32));
  }

  method GetCompact(x: Uint256, fNegative: bool) returns (c: nat)
    requires x.Valid()
    ensures c == Encoded(x.Value(), fNegative)
  {
    ghost var v := x.Value();
    var bits := x.CountBits();
    var nSize := (bits + 7) / 8;
    var nCompact := ThreeBytes(x, nSize);
    MantissaIs(v);
    if nCompact >= 0x80_0000 {
      nCompact := nCompact / 256;
      nSize := nSize + 1;
    }
    Fields(v, fNegative);
    assert nCompact < 0x80_0000;
    ValBound(x.pn[..]);
    BitsFit(v);
    assert nSize < 256;
    c := nSize * 0x100_0000 + nCompact;
    if fNegative && nCompact != 0 {
      c := c + 0x80_0000;
    }
  }

  method ThreeBytes(x: Uint256, nSize: nat) returns (m: nat)
    requires x.Valid() && nSize == Bytes(x.Value())
    ensures m == Mantissa(x.Value())
  {
    if nSize <= 3 {
      var low := x.GetLow64();
      UpIs(low, x.Value());
      m := low * Pow2(8 * (3 - nSize)) % 0x1_0000_0000;
    } else {
      MantissaIs(x.Value());
      m := TopBytes(x, 8 * (nSize - 3));
    }
  }

  method TopBytes(x: Uint256, shift: nat) returns (m: nat)
    requires x.Valid() && Shr(x.Value(), shift) < 0x1_0000_0000
    ensures m == Shr(x.Value(), shift)
  {
    var bn := new Uint256(x.pn[..]);
    bn.ShiftRight(shift);
    ShrIs(x.Value(), shift);
    var low := bn.GetLow64();
    m := low % 0x1_0000_0000;
  }

  lemma UpIs(low: nat, v: nat)
    requires Bytes(v) <= 3 && low == v % 0x1_0000_0000_0000_0000
    ensures low * Pow2(8 * (3 - Bytes(v))) % 0x1_0000_0000 == Mantissa(v)
  {
    SmallWord(v);
    MantissaIs(v);
    WordProduct(low, v, 8 * (3 - Bytes(v)), Mantissa(v));
  }

  lemma WordProduct(low: nat, v: nat, k: nat, y: nat)
    requires low == v % 0x1_0000_0000_0000_0000 && v < UNIT
    requires y == Shl(v, k) && y < 0x1_0000_0000
    ensures low * Pow2(k) % 0x1_0000_0000 == y
  {
    assert low == v;
    ShlIs(v, k);
  }

  lemma SmallWord(v: nat)
    requires Bytes(v) <= 3
    ensures v < UNIT
  {
    BitsAre(v);
    Powers();
    Pow2Mono(Bits(v), 24);
  }
}
