/**
 What the fee floor that ends the selection says about the candidates that are left.

 The score that orders candidates is the lower of two feerates, with and without ancestors; the floor is compared with
 the rate of the package alone.
 */
module FeeFloor {
  import opened BlockAssembler

  function OwnRate(c: Candidate): Rate { Rate(c.modifiedFee, c.size) }
  function PackageRate(c: Candidate): Rate { Rate(c.total.fees, c.total.size) }

  /** Whatever has a better score than u, pays at least the feerate of u's package. */
  ghost predicate BeatenByBetterPackages(u: Candidate) {
    forall t {:trigger Better(t, u)} :: Sized(t) && Better(t, u) ==> RateDiff(PackageRate(t), PackageRate(u)) >= 0
  }

  /** That is so exactly for the candidates that pay at least as much as their ancestors. */
  lemma LowerRateLeft(u: Candidate)
    requires Sized(u)
    ensures BeatenByBetterPackages(u) <==> RateDiff(OwnRate(u), PackageRate(u)) >= 0
  {
    if RateDiff(OwnRate(u), PackageRate(u)) >= 0 {
      forall t | Sized(t) && Better(t, u) ensures RateDiff(PackageRate(t), PackageRate(u)) >= 0 {
        BetterPaysMore(t, u);
      }
    } else {
      var t := Between(u);
      BetweenBeats(u);
      assert Better(t, u);
    }
  }

  lemma BetterPaysMore(t: Candidate, u: Candidate)
    requires Sized(t) && Sized(u) && Better(t, u) && RateDiff(OwnRate(u), PackageRate(u)) >= 0
    ensures RateDiff(PackageRate(t), PackageRate(u)) >= 0
  {
    ScoreIsBelow(t);
    RateDiffChain(PackageRate(t), RateOf(t), RateOf(u));
    RateDiffChain(PackageRate(t), RateOf(u), PackageRate(u));
  }

  lemma ScoreIsBelow(c: Candidate)
    requires Sized(c)
    ensures RateDiff(PackageRate(c), RateOf(c)) >= 0
  {
  }

  /** A transaction without ancestors that pays a little more than u does itself. */
  function Between(u: Candidate): Candidate {
    var k := u.total.size + 1;
    Candidate(u.id, u.modifiedFee * k + 1, u.size * k, Total(u.size * k, u.modifiedFee * k + 1, 0))
  }

  lemma BetweenBeats(u: Candidate)
    requires Sized(u) && RateDiff(OwnRate(u), PackageRate(u)) < 0
    ensures var t := Between(u); Sized(t) && Better(t, u) && RateDiff(PackageRate(t), PackageRate(u)) < 0
  {
    var k, t := u.total.size + 1, Between(u);
    var f, s, F, S := u.modifiedFee, u.size, u.total.fees, u.total.size;
    assert RateOf(u) == Rate(f, s) && RateOf(t) == Rate(f * k + 1, s * k);
    assert s * k > 0;
    assert (f * k + 1) * s - (s * k) * f == s by {
      assert (f * k + 1) * s == (f * k) * s + s;
      assert (f * k) * s == (s * k) * f;
    }
    assert (f * k + 1) * S - (s * k) * F < 0 by {
      assert (f * k + 1) * S == (f * k) * S + S;
      assert (f * k) * S == k * (f * S) && (s * k) * F == k * (s * F);
      assert k * (f * S) - k * (s * F) == k * (f * S - s * F);
      assert f * S - s * F <= -1;
      assert k * (f * S - s * F) <= -k;
    }
  }

  // ----- a pool where the floor ends the selection too early -----

  lemma SumOfOne(a: TxId, f: TxId -> int)
    ensures Sum({a}, f) == f(a)
  {
    SumRemove({a}, a, f);
    assert {a} - {a} == {};
  }

  lemma SumOfTwo(a: TxId, b: TxId, f: TxId -> int)
    requires a != b
    ensures Sum({a, b}, f) == f(a) + f(b)
  {
    SumRemove({a, b}, a, f);
    assert {a, b} - {a} == {b};
    SumOfOne(b, f);
  }

  lemma SumOfFour(a: TxId, b: TxId, c: TxId, d: TxId, f: TxId -> int)
    requires a != b && a != c && a != d && b != c && b != d && c != d
    ensures Sum({a, b, c, d}, f) == f(a) + f(b) + f(c) + f(d)
  {
    SumRemove({a, b, c, d}, a, f);
    assert {a, b, c, d} - {a} == {b, c, d};
    SumRemove({b, c, d}, b, f);
    assert {b, c, d} - {b} == {c, d};
    SumOfTwo(c, d, f);
  }

  const A := TxId(0)
  const B := TxId(1)
  const C := TxId(2)
  const D := TxId(3)

  /** A pays nothing, B and C spend from A and pay 100 each, D spends from B and C and pays 40; all have size 100. */
  const POOL := Pool(
    map[A := Entry(100, 400, 0, 0, 0, 1, Total(100, 0, 0)), B := Entry(100, 400, 0, 100, 100, 2, Total(200, 100, 0)),
        C := Entry(100, 400, 0, 100, 100, 2, Total(200, 100, 0)), D := Entry(100, 400, 0, 40, 40, 4, Total(400, 240, 0))],
    map[A := {}, B := {A}, C := {A}, D := {A, B, C}])

  lemma TotalOfPair(t: TxId)
    requires t == B || t == C
    ensures TotalOf(POOL, {A, t}) == Total(200, 100, 0)
  {
    SumOfTwo(A, t, SizeOf(POOL));
    SumOfTwo(A, t, ModifiedFeeOf(POOL));
    SumOfTwo(A, t, SigOpsOf(POOL));
  }

  lemma TotalOfAll()
    ensures TotalOf(POOL, {A, B, C, D}) == Total(400, 240, 0)
  {
    SumOfFour(A, B, C, D, SizeOf(POOL));
    SumOfFour(A, B, C, D, ModifiedFeeOf(POOL));
    SumOfFour(A, B, C, D, SigOpsOf(POOL));
  }

  lemma TotalOfFirst()
    ensures TotalOf(POOL, {A}) == Total(100, 0, 0)
  {
    SumOfOne(A, SizeOf(POOL));
    SumOfOne(A, ModifiedFeeOf(POOL));
    SumOfOne(A, SigOpsOf(POOL));
  }

  lemma PairIsOk(t: TxId)
    requires t == B || t == C
    ensures EntryOk(POOL, t)
  {
    assert Family(POOL, t) == {A, t};
    TotalOfPair(t);
  }

  lemma LastIsOk()
    ensures EntryOk(POOL, D)
  {
    assert Family(POOL, D) == {A, B, C, D};
    TotalOfAll();
  }

  lemma FirstIsOk()
    ensures EntryOk(POOL, A)
  {
    assert Family(POOL, A) == {A};
    TotalOfFirst();
  }

  lemma PoolIsOk()
    ensures PoolOk(POOL)
  {
    forall t ensures EntryOk(POOL, t) {
      if t == A {
        FirstIsOk();
      } else if t == B || t == C {
        PairIsOk(t);
      } else if t == D {
        LastIsOk();
      }
    }
  }

  function Scored(t: TxId): Candidate
    requires t in POOL.entries
  {
    CandidateOf(POOL, t, POOL.entries[t].total)
  }

  /** With a floor of 55 for a size of 100, B comes first and pays too little, although D's package, which is left,
      pays enough: D alone pays less than its package. */
  lemma FloorSkipsPackage()
    ensures PoolOk(POOL) && SetOf([B, C, D, A]) == POOL.entries.Keys
    ensures Better(Scored(B), Scored(C)) && Better(Scored(C), Scored(D)) && Better(Scored(D), Scored(A))
    ensures var b, d := POOL.entries[B].total, POOL.entries[D].total;
            b.fees < 55 * b.size / 100 && d.fees >= 55 * d.size / 100
    ensures RateDiff(OwnRate(Scored(D)), PackageRate(Scored(D))) < 0
  {
    PoolIsOk();
  }

  // ----- the fees of modified totals -----

  /** B spends from A and C from B; B pays nothing, but its priority is raised by 50. */
  const RAISED := Pool(
    map[A := Entry(100, 400, 0, 0, 0, 1, Total(100, 0, 0)), B := Entry(100, 400, 0, 0, 50, 2, Total(200, 50, 0)),
        C := Entry(100, 400, 0, 0, 0, 3, Total(300, 50, 0))],
    map[A := {}, B := {A}, C := {A, B}])

  lemma RaisedEntry(t: TxId)
    requires t == A || t == B || t == C
    ensures EntryOk(RAISED, t)
  {
    assert Family(RAISED, t) == if t == A then {A} else if t == B then {A, B} else {A, B, C};
    RaisedTotals();
  }

  lemma RaisedIsOk()
    ensures PoolOk(RAISED)
  {
    forall t ensures EntryOk(RAISED, t) {
      if t == A || t == B || t == C {
        RaisedEntry(t);
      }
    }
  }

  lemma RaisedTotals()
    ensures TotalOf(RAISED, {A}) == Total(100, 0, 0) && TotalOf(RAISED, {A, B}) == Total(200, 50, 0)
    ensures TotalOf(RAISED, {A, B, C}) == Total(300, 50, 0)
  {
    SumsOfRaised(SizeOf(RAISED));
    SumsOfRaised(ModifiedFeeOf(RAISED));
    SumsOfRaised(SigOpsOf(RAISED));
  }

  lemma SumsOfRaised(f: TxId -> int)
    ensures Sum({A}, f) == f(A) && Sum({A, B}, f) == f(A) + f(B) && Sum({A, B, C}, f) == f(A) + f(B) + f(C)
    ensures Sum({C}, f) == f(C)
  {
    SumOfOne(A, f);
    SumOfOne(C, f);
    SumOfTwo(A, B, f);
    SumRemove({A, B, C}, C, f);
    assert {A, B, C} - {C} == {A, B};
  }

  lemma RaisedDescendants()
    ensures Descendants(RAISED, A) - {A, B} == {C} && Descendants(RAISED, B) - {A, B} == {C}
  {
  }

  lemma RaisedFirst(m: Modified)
    requires m == AfterInclude(RAISED, {A, B}, map[], A)
    ensures C in m && m[C] == Total(200, 50, 0)
  {
    RaisedDescendants();
    assert m[C] == PatchedAt(RAISED, map[], A, C);
  }

  lemma RaisedSecond(m: Modified, m': Modified)
    requires C in m && m[C] == Total(200, 50, 0) && m' == AfterInclude(RAISED, {A, B}, m, B)
    ensures C in m' && m'[C] == Total(100, 50, 0)
  {
    RaisedDescendants();
    assert m'[C] == PatchedAt(RAISED, m, B, C);
  }

  lemma RaisedLeft()
    ensures Sum(Package(RAISED, {A, B}, C), ModifiedFeeOf(RAISED)) == 0
  {
    assert Package(RAISED, {A, B}, C) == {C};
    SumOfOne(C, ModifiedFeeOf(RAISED));
  }

  /** With A and then B in the block, the total of C still holds the 50 of B, though nothing is left that pays. */
  lemma StaleFees(m: Modified)
    requires m == AfterInclude(RAISED, {A, B}, AfterInclude(RAISED, {A, B}, map[], A), B)
    ensures PoolOk(RAISED) && C in m && m[C] == Total(100, 50, 0)
    ensures Sum(Package(RAISED, {A, B}, C), ModifiedFeeOf(RAISED)) == 0
  {
    RaisedIsOk();
    RaisedLeft();
    var m1 := AfterInclude(RAISED, {A, B}, map[], A);
    RaisedFirst(m1);
    RaisedSecond(m1, m);
  }
}
