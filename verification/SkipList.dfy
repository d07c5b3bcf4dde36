/**
 The heights that skip pointers lead to, and how many steps the walk to an ancestor takes.
 */
module SkipList {
  import opened Limbs

  // ----- skip heights -----

  /** Bitwise and. */
  function And(a: nat, b: nat): nat {
    if a == 0 || b == 0 then 0 else 2 * And(a / 2, b / 2) + (if a % 2 == 1 && b % 2 == 1 then 1 else 0)
  }

  function InvertLowestOne(n: nat): nat { if n == 0 then 0 else And(n, n - 1) }

  /** The weight of the lowest set bit. */
  function LowestOne(n: nat): nat
    requires n > 0
  {
    if n % 2 == 1 then 1 else 2 * LowestOne(n / 2)
  }

  lemma {:induction false} AndSelf(n: nat)
    ensures And(n, n) == n
  {
    if n > 0 {
      AndSelf(n / 2);
    }
  }

  /** Clearing the lowest set bit subtracts its weight. */
  lemma {:induction false} InvertIs(n: nat)
    requires n > 0
    ensures InvertLowestOne(n) == n - LowestOne(n) && 0 < LowestOne(n) <= n
  {
    if n % 2 == 1 {
      AndSelf(n / 2);
    } else {
      InvertIs(n / 2);
    }
  }

  function GetSkipHeight(height: nat): nat {
    if height < 2 then 0
    else if height % 2 == 1 then InvertLowestOne(InvertLowestOne(height - 1)) + 1
    else InvertLowestOne(height)
  }

  lemma SkipIsBelow(height: nat)
    requires height > 0
    ensures GetSkipHeight(height) < height
  {
    if height >= 2 {
      if height % 2 == 1 {
        InvertIs(height - 1);
        if InvertLowestOne(height - 1) > 0 {
          InvertIs(InvertLowestOne(height - 1));
        }
      } else {
        InvertIs(height);
      }
    }
  }

  // ----- the walk -----

  /** Where the walk to `h` goes from `w`: by the skip pointer, or one back. */
  function Next(w: nat, h: nat): (n: nat)
    requires h < w
    ensures h <= n < w
  {
    SkipIsBelow(w);
    var skip, skipPrev := GetSkipHeight(w), GetSkipHeight(w - 1);
    if skip == h || (skip > h && !(skipPrev < skip - 2 && skipPrev >= h)) then skip else w - 1
  }

  function Steps(w: nat, h: nat): nat {
    if w <= h then 0 else 1 + Steps(Next(w, h), h)
  }

  // ----- at most the square of the number of bits -----

  /** Without the low `k` bits, and the number of ones among those. */
  function High(n: nat, k: nat): nat { if k == 0 then n else High(n / 2, k - 1) }

  function Low(n: nat, k: nat): nat { if k == 0 then 0 else n % 2 + Low(n / 2, k - 1) }

  lemma {:induction false} HighMono(a: nat, b: nat, k: nat)
    requires a <= b
    ensures High(a, k) <= High(b, k)
  {
    if k > 0 {
      HighMono(a / 2, b / 2, k - 1);
    }
  }

  lemma {:induction false} LowBound(n: nat, k: nat)
    ensures Low(n, k) <= k
  {
    if k > 0 {
      LowBound(n / 2, k - 1);
    }
  }

  lemma {:induction false} HighHalf(n: nat, k: nat)
    ensures High(n, k + 1) == High(n, k) / 2
  {
    if k > 0 {
      HighHalf(n / 2, k - 1);
    }
  }

  lemma {:induction false} HighOfSmall(n: nat, k: nat)
    requires n < Pow2(k)
    ensures High(n, k) == 0
  {
    if k > 0 {
      HighOfSmall(n / 2, k - 1);
    }
  }

  lemma InvertDouble(n: nat)
    requires n > 0
    ensures InvertLowestOne(2 * n) == 2 * InvertLowestOne(n)
  {
    InvertIs(2 * n);
    InvertIs(n);
  }

  /** Clearing the lowest one takes it from the low bits if there is one, and otherwise lowers the rest. */
  lemma {:induction false} InvertLow(n: nat, k: nat)
    requires n > 0
    ensures Low(n, k) > 0 ==> High(InvertLowestOne(n), k) == High(n, k) && Low(InvertLowestOne(n), k) == Low(n, k) - 1
    ensures Low(n, k) == 0 ==> High(InvertLowestOne(n), k) < High(n, k)
  {
    InvertIs(n);
    if k > 0 && n % 2 == 0 {
      InvertDouble(n / 2);
      InvertLow(n / 2, k - 1);
    }
  }

  lemma {:induction false} BeforeBlock(n: nat, k: nat)
    requires n > 0 && Low(n, k) == 0
    ensures High(n - 1, k) < High(n, k)
  {
    if k > 0 {
      BeforeBlock(n / 2, k - 1);
    }
  }

  lemma ClearTwice(n: nat, k: nat)
    requires n > 0 && High(InvertLowestOne(InvertLowestOne(n)), k) == High(n, k) > 0
    ensures Low(InvertLowestOne(InvertLowestOne(n)), k) == Low(n, k) - 2
  {
    var i := InvertLowestOne(n);
    InvertIs(n);
    InvertLow(n, k);
    if i == 0 {
      HighOfZero(k);
    } else {
      InvertIs(i);
      InvertLow(i, k);
      HighMono(i, n, k);
      HighMono(InvertLowestOne(i), i, k);
    }
  }

  lemma LastBit(n: nat, k: nat)
    requires k > 0
    ensures Low(2 * n, k) == Low(n, k - 1) && Low(2 * n + 1, k) == Low(n, k - 1) + 1
    ensures High(2 * n, k) == High(2 * n + 1, k) == High(n, k - 1)
  {
    assert 2 * n / 2 == n && 2 * n % 2 == 0;
    assert (2 * n + 1) / 2 == n && (2 * n + 1) % 2 == 1;
  }

  lemma SkipOfOddIs(n: nat)
    requires n > 0
    ensures GetSkipHeight(2 * n + 1) == 2 * InvertLowestOne(InvertLowestOne(n)) + 1
  {
    InvertDouble(n);
    if InvertLowestOne(n) > 0 {
      InvertDouble(InvertLowestOne(n));
    }
    assert (2 * n + 1) % 2 == 1;
  }

  /** The skip of an odd height that stays among the same low bits clears two of them. */
  lemma OddSkip(w: nat, k: nat)
    requires w % 2 == 1 && w > 1 && k > 0 && High(GetSkipHeight(w), k) == High(w, k) > 0
    ensures Low(GetSkipHeight(w), k) == Low(w, k) - 2
  {
    var n := w / 2;
    assert w == 2 * n + 1;
    SkipOfOddIs(n);
    LastBit(n, k);
    LastBit(InvertLowestOne(InvertLowestOne(n)), k);
    ClearTwice(n, k - 1);
  }

  lemma {:induction false} HighOfZero(k: nat)
    ensures High(0, k) == 0 && (k > 0 ==> High(1, k) == 0)
  {
    if k > 0 {
      HighOfZero(k - 1);
    }
  }

  lemma LowestOneDouble(n: nat)
    requires n > 0
    ensures LowestOne(2 * n) == 2 * LowestOne(n)
  {
  }

  lemma InvertOdd(n: nat)
    ensures InvertLowestOne(2 * n + 1) == 2 * n
  {
    InvertIs(2 * n + 1);
  }

  /** Before a multiple of eight the skip is short. */
  lemma SkipBeforeEighth(m: nat)
    requires m > 0
    ensures GetSkipHeight(8 * m - 1) == 8 * m - 7 && InvertLowestOne(8 * m) <= 8 * m - 8
  {
    assert InvertLowestOne(8 * m - 2) == 8 * m - 4 by { InvertTwo(m); }
    assert InvertLowestOne(8 * m - 4) == 8 * m - 8 by { InvertFour(m); }
    assert InvertLowestOne(8 * m) <= 8 * m - 8 by { InvertEight(m); }
    assert (8 * m - 1) % 2 == 1;
  }

  lemma InvertTwo(m: nat)
    requires m > 0
    ensures InvertLowestOne(8 * m - 2) == 8 * m - 4
  {
    InvertOdd(2 * m - 1);
    var n := 4 * m - 1;
    InvertDouble(n);
  }

  lemma InvertFour(m: nat)
    requires m > 0
    ensures InvertLowestOne(8 * m - 4) == 8 * m - 8
  {
    InvertOdd(m - 1);
    var n := 2 * m - 1;
    InvertDouble(n);
    InvertDouble(2 * n);
  }

  lemma InvertEight(m: nat)
    requires m > 0
    ensures InvertLowestOne(8 * m) <= 8 * m - 8
  {
    InvertIs(m);
    InvertDouble(m);
    InvertDouble(2 * m);
    InvertDouble(4 * m);
  }

  lemma LowBefore(x: nat, k: nat)
    requires x % 2 == 0 && x % 8 != 0 && Low(x, k) > 0
    ensures Low(x - 1, k) <= Low(x, k) + 1
  {
    var n, m := x / 4, x / 8;
    if x % 4 == 2 {
      assert x == 4 * n + 2;
      LowBeforeTwo(n, k);
    } else {
      assert x == 8 * m + 4;
      LowBeforeFour(m, k);
    }
  }

  lemma LowBeforeTwo(n: nat, k: nat)
    requires Low(4 * n + 2, k) > 0
    ensures Low(4 * n + 1, k) <= Low(4 * n + 2, k)
  {
    LastBit(2 * n, k);
    LastBit(2 * n + 1, k);
    LastBit(n, k - 1);
  }

  lemma LowBeforeFour(n: nat, k: nat)
    requires Low(8 * n + 4, k) > 0
    ensures Low(8 * n + 3, k) <= Low(8 * n + 4, k) + 1
  {
    LastBit(4 * n + 1, k);
    LastBit(4 * n + 2, k);
    LowBeforeTwo(n, k - 1);
  }

  /** A step among heights that agree with `w` above the low `k` bits, where `h` is below all of them, clears one of
      those bits, or the next one does. */
  lemma StepClears(w: nat, h: nat, k: nat)
    requires h < w && High(h, k) < High(w, k) == High(Next(w, h), k)
    ensures Low(Next(w, h), k) < Low(w, k) || NextClears(w, h, k)
  {
    if k > 0 {
      if w % 2 == 1 {
        OddStepClears(w, h, k);
      } else {
        EvenStepClears(w, h, k);
      }
    }
  }

  /** One back, and from there a skip that clears low bits or leaves them. */
  predicate NextClears(w: nat, h: nat, k: nat)
    requires h < w
  {
    && Low(w, k) > 0 && h < Next(w, h)
    && var n := Next(Next(w, h), h); High(n, k) < High(w, k) || Low(n, k) < Low(w, k)
  }

  lemma OddStepClears(w: nat, h: nat, k: nat)
    requires w % 2 == 1 && k > 0 && h < w && High(h, k) < High(w, k) == High(Next(w, h), k)
    ensures Low(Next(w, h), k) < Low(w, k)
  {
    if Next(w, h) != w - 1 {
      HighOfZero(k);
      OddSkip(w, k);
    }
  }

  lemma EvenStepClears(w: nat, h: nat, k: nat)
    requires w % 2 == 0 && k > 0 && h < w && High(h, k) < High(w, k) == High(Next(w, h), k)
    ensures Low(Next(w, h), k) < Low(w, k) || NextClears(w, h, k)
  {
    InvertLow(w, k);
    if Next(w, h) != InvertLowestOne(w) {
      assert Next(w, h) == w - 1;
      if Low(w, k) == 0 {
        BeforeBlock(w, k);
      } else {
        OneBack(w, h, k);
      }
    }
  }

  lemma OneBack(w: nat, h: nat, k: nat)
    requires w % 2 == 0 && k > 0 && Low(w, k) > 0 && h < w && Next(w, h) == w - 1 != InvertLowestOne(w)
    requires High(h, k) < High(w, k) == High(w - 1, k)
    ensures NextClears(w, h, k)
  {
    var skip := GetSkipHeight(w - 1);
    InvertLow(w, k);
    if InvertLowestOne(w) <= h { HighMono(InvertLowestOne(w), h, k); }
    if w % 8 == 0 {
      SkipBeforeEighth(w / 8);
    }
    assert w % 8 != 0 && h <= skip < InvertLowestOne(w) - 2;
    SkipOfOdd(w - 1);
    assert Next(w - 1, h) == skip;
    SkipIsBelow(w - 1);
    HighMono(skip, w - 1, k);
    if High(skip, k) == High(w, k) {
      LowBefore(w, k);
      OddSkip(w - 1, k);
    }
  }

  /** From an odd height the one before never skips further. */
  lemma SkipOfOdd(w: nat)
    requires w % 2 == 1
    ensures GetSkipHeight(w) <= GetSkipHeight(w - 1) + 1
  {
    if w > 1 {
      InvertIs(w - 1);
      var i := InvertLowestOne(w - 1);
      if i > 0 {
        InvertIs(i);
      }
    }
  }

  /** Heights in the upper half of a block of `2^(k + 1)`, with `h` in the lower half. */
  lemma {:induction false} UpperHalf(w: nat, h: nat, k: nat)
    requires High(w, k) == High(h, k) + 1
    ensures Steps(w, h) <= 2 * Low(w, k) + 1 + k * k
    decreases k, 1, w
  {
    if w <= h {
      HighMono(w, h, k);
    } else {
      var n := Next(w, h);
      HighMono(h, n, k);
      HighMono(n, w, k);
      if High(n, k) == High(h, k) {
        SameBlock(n, h, k);
      } else {
        StepClears(w, h, k);
        if Low(n, k) < Low(w, k) {
          UpperHalf(n, h, k);
        } else {
          AfterNext(w, h, k);
        }
      }
    }
  }

  lemma {:induction false} AfterNext(w: nat, h: nat, k: nat)
    requires High(w, k) == High(h, k) + 1 && h < w && NextClears(w, h, k)
    ensures Steps(w, h) <= 2 * Low(w, k) + 1 + k * k
    decreases k, 1, w, 0
  {
    var n := Next(Next(w, h), h);
    HighMono(h, n, k);
    if High(n, k) == High(h, k) {
      SameBlock(n, h, k);
    } else {
      HighMono(n, w, k);
      UpperHalf(n, h, k);
    }
  }

  lemma {:induction false} SameBlock(w: nat, h: nat, k: nat)
    requires h <= w && High(w, k) == High(h, k)
    ensures Steps(w, h) <= k * k
    decreases k, 0
  {
    if k > 0 {
      HighHalf(w, k - 1);
      HighHalf(h, k - 1);
      HighMono(h, w, k - 1);
      var j := k - 1;
      assert k * k == j * j + 2 * j + 1;
      if High(w, j) == High(h, j) {
        SameBlock(w, h, j);
      } else {
        UpperHalf(w, h, j);
        LowBound(w, j);
      }
    }
  }

  /** The walk from a height of at most `k` bits takes at most `k` squared steps. */
  lemma LogSquared(w: nat, h: nat, k: nat)
    requires h <= w < Pow2(k)
    ensures Steps(w, h) <= k * k
  {
    HighOfSmall(w, k);
    HighOfSmall(h, k);
    SameBlock(w, h, k);
  }

  // ----- and from a power of two that is the order -----

  /** Ones in the bits from `j` up to below `k`. */
  function Ones(k: nat, j: nat): nat
    requires j <= k
    ensures Ones(k, j) == Pow2(k) - Pow2(j)
  {
    if k == j then 0 else Pow2(k - 1) + Ones(k - 1, j)
  }

  lemma {:induction false} LowestOfOnes(k: nat, j: nat)
    requires j < k
    ensures LowestOne(Ones(k, j)) == Pow2(j) && InvertLowestOne(Ones(k, j)) == Ones(k, j + 1)
    ensures Ones(k, j) % 2 == (if j == 0 then 1 else 0)
  {
    if j > 0 {
      LowestOfOnes(k - 1, j - 1);
      assert Ones(k, j) == 2 * Ones(k - 1, j - 1);
      LowestOneDouble(Ones(k - 1, j - 1));
    }
    InvertIs(Ones(k, j));
  }

  lemma SkipsOfOnes(k: nat, j: nat)
    requires 0 < j && j + 2 <= k
    ensures Ones(k, j) > 2 && GetSkipHeight(Ones(k, j)) == Ones(k, j + 1)
    ensures GetSkipHeight(Ones(k, j) + 1) == Ones(k, j + 2) + 1
  {
    LowestOfOnes(k, j);
    LowestOfOnes(k, j + 1);
    assert Ones(k, j + 1) >= Pow2(k - 1) >= 2;
  }

  /** After an odd height with ones from `j` on, the walk to 2 clears the two lowest of them, while more are left. */
  lemma OddWalk(k: nat, j: nat)
    requires 0 < j && j + 2 < k
    ensures Ones(k, j) + 1 > 2 && Next(Ones(k, j) + 1, 2) == Ones(k, j + 2) + 1
  {
    SkipsOfOnes(k, j);
    assert Ones(k, j + 2) >= Pow2(k - 1) >= 2;
  }

  /** With one or two left it goes back by one, to an even height. */
  lemma OddEnd(k: nat, j: nat)
    requires 0 < j < k <= j + 2
    ensures Ones(k, j) + 1 > 2 && Next(Ones(k, j) + 1, 2) == Ones(k, j)
  {
    if j + 2 == k {
      SkipsOfOnes(k, j);
    } else {
      SkipAfterPower(j);
    }
  }

  lemma SkipAfterPower(j: nat)
    requires j > 0
    ensures Ones(j + 1, j) == Pow2(j) >= 2 && GetSkipHeight(Pow2(j) + 1) == 1
  {
    InvertOfPower(j);
    assert Ones(j + 1, j) == Pow2(j);
    assert Pow2(j) == 2 * Pow2(j - 1) >= 2;
  }

  /** From an even height with two ones it skips to the next power of two. */
  lemma TwoOnes(k: nat)
    requires k > 2
    ensures Ones(k, k - 2) > 2 && Next(Ones(k, k - 2), 2) == Pow2(k - 1)
  {
    SkipsOfOnes(k, k - 2);
    assert Ones(k, k - 1) == Pow2(k - 1);
    if k < 5 {
      SkipAtEleven();
      assert k == 3 ==> Ones(k, k - 2) == 6;
      assert k == 4 ==> Ones(k, k - 2) == 12;
    } else {
      var m := Pow2(k - 5);
      assert Pow2(k - 2) == 2 * Pow2(k - 3) && Pow2(k - 3) == 2 * Pow2(k - 4) && Pow2(k - 4) == 2 * m;
      assert Ones(k, k - 2) == 8 * (3 * m);
      SkipBeforeEighth(3 * m);
    }
  }

  lemma SkipAtEleven()
    ensures GetSkipHeight(5) == 1 && GetSkipHeight(11) == 1
  {
    assert InvertLowestOne(4) == 0 && InvertLowestOne(10) == 8 && InvertLowestOne(8) == 0;
  }

  lemma {:induction false} OddWalkSteps(k: nat, j: nat)
    requires 0 < j < k && (k > 2 || j == k - 1)
    ensures Steps(Ones(k, j) + 1, 2) == Steps(Pow2(k - 1), 2) + (k - j) / 2 + 1
    decreases k - j
  {
    if j + 2 < k {
      OddWalk(k, j);
      OddWalkSteps(k, j + 2);
    } else {
      OddEnd(k, j);
      if j + 1 < k {
        TwoOnes(k);
      }
    }
  }

  /** The exact number of steps from a power of two to the height 2. */
  lemma {:induction false} StepsFromPower(k: nat)
    requires k > 0
    ensures Steps(Pow2(k), 2) == (k - 1) * (k + 7) / 4
  {
    if k > 1 {
      StepsFromPower(k - 1);
      LowestOfOnes(k, 1);
      InvertOfPower(k);
      assert Pow2(k) >= 4 && Ones(k, 1) == Pow2(k) - 2;
      assert Next(Pow2(k), 2) == Pow2(k) - 1;
      OddWalkSteps(k, 1);
      Quarter(k);
    }
  }

  lemma InvertOfPower(k: nat)
    ensures InvertLowestOne(Pow2(k)) == 0
  {
    LowestOfOnes(k + 1, k);
    assert Ones(k + 1, k) == Pow2(k);
  }

  lemma Quarter(k: nat)
    requires k > 1
    ensures (k - 1) * (k + 7) / 4 == (k - 2) * (k + 6) / 4 + (k - 1) / 2 + 2
  {
    Expand(k, 1, 7);
    Expand(k, 2, 6);
    if k % 2 == 0 {
      SquareOfDouble(k / 2, 0);
    } else {
      SquareOfDouble(k / 2, 1);
    }
  }

  lemma Expand(k: int, a: int, b: int)
    ensures (k - a) * (k + b) == k * k + b * k - a * k - a * b
  {
  }

  lemma SquareOfDouble(m: int, r: int)
    ensures (2 * m + r) * (2 * m + r) == 4 * (m * m) + 4 * (m * r) + r * r
  {
  }

  /** So no multiple of the number of bits bounds the walk. */
  lemma NotLogarithmic(c: nat) returns (w: nat, k: nat)
    ensures 2 <= w < Pow2(k) && Steps(w, 2) > c * k
  {
    k := 4 * c + 3;
    w := Pow2(k - 1);
    StepsFromPower(k - 1);
    Expand(k - 1, 1, 7);
    Expand(4 * c, -2, 2);
    Expand(4 * c, 0, 3);
    FourTimes(c);
  }

  lemma FourTimes(c: int)
    ensures c * (4 * c + 3) == 4 * (c * c) + 3 * c && 4 * c * (4 * c) == 16 * (c * c)
  {
  }
}
