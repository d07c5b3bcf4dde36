/** A whole selection that the fee floor ends with an empty block, although a package is left that pays the floor. */
module FloorRun {
  import opened BlockAssembler
  import opened FeeFloor
  import opened Miner

  const ORDER := [B, C, D, A]

  lemma OrderIsScored()
    ensures forall i, j :: 0 <= i < j < 4 ==> Better(Scored(ORDER[i]), Scored(ORDER[j]))
  {
    forall i, j | 0 <= i < j < 4 ensures Better(Scored(ORDER[i]), Scored(ORDER[j])) {
      assert (i == 0 || i == 1 || i == 2) && (j == 1 || j == 2 || j == 3);
    }
  }

  /** An assembler for that pool with a floor of 55 for a size of 100, where everything may be mined. */
  method NewAssembler() returns (a: Assembler)
    ensures fresh(a) && a.Valid() && a.pool == POOL && a.order == ORDER && a.InScoreOrder() && a.block == []
    ensures a.maxWeight == MAX_BLOCK_WEIGHT - 4000 && (forall n :: a.minFee(n) == 55 * n / 100) && forall u :: a.eligible(u)
    ensures a.FloorFirst(0)
  {
    FloorSkipsPackage();
    a := new Assembler(POOL, ORDER, MAX_BLOCK_WEIGHT, (size: int) => 55 * size / 100, (_: TxId) => true);
    OrderIsScored();
  }

  lemma LeftFits(weight: int, sigOps: int, maxWeight: int)
    requires weight == COINBASE_WEIGHT && sigOps == COINBASE_SIGOPS && maxWeight == MAX_BLOCK_WEIGHT - 4000
    ensures D in POOL.entries && POOL.entries[D].total == Total(400, 240, 0)
    ensures Fits(weight, sigOps, maxWeight, POOL.entries[D].total)
  {
  }

  /** D's package is within the limits, eligible, pays the floor, and is left. */
  method EndsWithEmptyBlock() returns (a: Assembler, outcome: Outcome, n: nat)
    ensures a.Valid() && a.pool == POOL && a.order == ORDER && a.InScoreOrder()
    ensures outcome == BelowMinFee(B, POOL.entries[B].total) && a.block == []
    ensures var d := POOL.entries[D].total;
            && d.fees >= a.minFee(d.size) && Fits(a.nBlockWeight, a.nBlockSigOpsCost, a.maxWeight, d)
            && forall u :: u in Package(POOL, a.inBlock, D) ==> a.eligible(u)
  {
    a := NewAssembler();
    ghost var why, m, failed, mi, recent, nFailed, choices;
    outcome, n, why, m, failed, mi, recent, nFailed, choices := a.AddPackageTxs();
    LeftFits(a.nBlockWeight, a.nBlockSigOpsCost, a.maxWeight);
  }
}
