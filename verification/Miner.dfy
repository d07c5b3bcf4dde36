/**
 The assembler of a block template, as an object whose methods fill the template in place.

 Finality, premature witnesses and the minimum fee of a size are parameters, and the mempool's
 index by ancestor score is a given sequence of all its entries.
 */
module Miner {
  import FeeFloor
  import opened BlockAssembler

  const MAX_BLOCK_WEIGHT := 4000000

  function Column(block: seq<TxId>, f: TxId -> int): seq<int> {
    if |block| == 0 then [-1] else Column(block[..|block| - 1], f) + [f(block[|block| - 1])]
  }

  lemma ColumnStep(block: seq<TxId>, t: TxId, f: TxId -> int)
    ensures Column(block + [t], f) == Column(block, f) + [f(t)]
  {
    assert (block + [t])[..|block|] == block;
  }

  ghost function Added(block: seq<TxId>, f: TxId -> int): int {
    if |block| == 0 then 0 else Added(block[..|block| - 1], f) + f(block[|block| - 1])
  }

  lemma AddedStep(block: seq<TxId>, t: TxId, f: TxId -> int)
    ensures Added(block + [t], f) == Added(block, f) + f(t)
  {
    assert (block + [t])[..|block|] == block;
  }

  lemma {:induction false} AddedIsSum(block: seq<TxId>, f: TxId -> int)
    requires Distinct(block)
    ensures Added(block, f) == Sum(SetOf(block), f)
    decreases |block|
  {
    if |block| > 0 {
      var n := |block| - 1;
      var t, before := block[n], block[..n];
      assert block == before + [t];
      assert SetOf(before) == SetOf(block) - {t};
      SumRemove(SetOf(block), t, f);
      AddedIsSum(before, f);
    }
  }

  /** The counters are exact sums over the block. */
  ghost predicate Tally(p: Pool, block: seq<TxId>, weight: int, sigOps: int, fees: int) {
    && weight == COINBASE_WEIGHT + Added(block, WeightOf(p))
    && sigOps == COINBASE_SIGOPS + Added(block, SigOpsOf(p))
    && fees == Added(block, FeeOf(p))
  }

  lemma TallyIsSum(p: Pool, block: seq<TxId>, weight: int, sigOps: int, fees: int)
    requires Tally(p, block, weight, sigOps, fees) && Distinct(block)
    ensures weight == BlockWeight(p, SetOf(block)) && sigOps == BlockSigOps(p, SetOf(block))
    ensures fees == Sum(SetOf(block), FeeOf(p))
  {
    AddedIsSum(block, WeightOf(p));
    AddedIsSum(block, SigOpsOf(p));
    AddedIsSum(block, FeeOf(p));
  }

  /** The template's vectors run parallel to the block, with an entry for the coinbase first. */
  ghost predicate Columns(p: Pool, block: seq<TxId>, fees: seq<int>, sigOps: seq<int>) {
    fees == Column(block, FeeOf(p)) && sigOps == Column(block, SigOpsOf(p))
  }

  lemma TallyStep(p: Pool, block: seq<TxId>, weight: int, sigOps: int, fees: int, t: TxId)
    requires Tally(p, block, weight, sigOps, fees) && t in p.entries
    ensures Tally(p, block + [t], weight + p.entries[t].weight, sigOps + p.entries[t].sigOps, fees + p.entries[t].fee)
  {
    AddedStep(block, t, WeightOf(p));
    AddedStep(block, t, SigOpsOf(p));
    AddedStep(block, t, FeeOf(p));
  }

  lemma ColumnsStep(p: Pool, block: seq<TxId>, fees: seq<int>, sigOps: seq<int>, t: TxId)
    requires Columns(p, block, fees, sigOps) && t in p.entries
    ensures Columns(p, block + [t], fees + [p.entries[t].fee], sigOps + [p.entries[t].sigOps])
  {
    ColumnStep(block, t, FeeOf(p));
    ColumnStep(block, t, SigOpsOf(p));
  }

  /** The totals when all of `all` but `todo` was looked at. */
  ghost function PatchedSoFar(p: Pool, m: Modified, it: TxId, all: set<TxId>, todo: set<TxId>, skipped: set<TxId>): Modified
    requires all <= p.entries.Keys
  {
    Patched(p, m, it, all - todo - skipped)
  }

  lemma SoFarStarts(p: Pool, m: Modified, it: TxId, all: set<TxId>, skipped: set<TxId>)
    requires all <= p.entries.Keys
    ensures PatchedSoFar(p, m, it, all, all, skipped) == m
  {
    assert all - all - skipped == {};
  }

  lemma SoFarEnds(p: Pool, m: Modified, it: TxId, all: set<TxId>, skipped: set<TxId>)
    requires all <= p.entries.Keys
    ensures PatchedSoFar(p, m, it, all, {}, skipped) == Patched(p, m, it, all - skipped)
  {
    assert all - {} == all;
  }

  lemma SoFarStep(p: Pool, m: Modified, it: TxId, all: set<TxId>, todo: set<TxId>, skipped: set<TxId>, t: TxId)
    requires all <= p.entries.Keys && todo <= all && t in todo
    ensures var before, after := PatchedSoFar(p, m, it, all, todo, skipped), PatchedSoFar(p, m, it, all, todo - {t}, skipped);
            && (t in before <==> t in m) && (t in m ==> before[t] == m[t])
            && after == if t in skipped then before else before[t := PatchedAt(p, m, it, t)]
  {
    var done := all - todo - skipped;
    if t in skipped {
      assert all - (todo - {t}) - skipped == done;
    } else {
      assert all - (todo - {t}) - skipped == done + {t};
      PatchedStep(p, m, it, done, t);
    }
  }

  /** What appending a sorted package that fits keeps. */
  lemma AppendedOk(p: Pool, block: seq<TxId>, t: TxId, sorted: seq<TxId>, total: Total, maxWeight: int)
    requires PoolOk(p) && Topological(p, block) && Distinct(block) && t in p.entries
    requires SortedByCount(p, sorted) && SetOf(sorted) == Package(p, SetOf(block), t)
    requires Covered(p, SetOf(block), t, total, false)
    requires Fits(BlockWeight(p, SetOf(block)), BlockSigOps(p, SetOf(block)), maxWeight, total)
    ensures Topological(p, block + sorted) && Distinct(block + sorted)
    ensures BlockWeight(p, SetOf(block + sorted)) < maxWeight
    ensures BlockSigOps(p, SetOf(block + sorted)) < MAX_BLOCK_SIGOPS_COST
    ensures SetOf(block + sorted) == SetOf(block) + SetOf(sorted)
  {
    AppendPackage(p, block, t, sorted);
    SetOfConcat(block, sorted);
    PackageFits(p, SetOf(block), t, total, false, maxWeight);
  }

  lemma SetOfConcat(a: seq<TxId>, b: seq<TxId>)
    ensures SetOf(a + b) == SetOf(a) + SetOf(b)
  {
  }

  lemma SetOfSuffix(a: seq<TxId>, b: seq<TxId>)
    requires a <= b
    ensures SetOf(b) == SetOf(a) + SetOf(b[|a|..])
  {
    assert b == a + b[|a|..];
    SetOfConcat(a, b[|a|..]);
  }

  lemma ClosedTake(p: Pool, block: seq<TxId>, failed: set<TxId>, m: Modified, package: set<TxId>)
    requires PoolOk(p) && Topological(p, block) && package <= p.entries.Keys && package !! SetOf(block)
    requires Covers(p, SetOf(block), SetOf(block), failed, m)
    ensures var m' := AfterUpdate(p, package, m - package, package);
            var s := SetOf(block) + package;
            Covers(p, s, s, failed, m') && m.Keys - package <= m'.Keys
  {
    forall u | u in SetOf(block) ensures Ancestors(p, u) <= SetOf(block) {
      TopologicalIsClosed(p, block, u);
    }
    TakeKeeps(p, SetOf(block), failed, m, package);
    UpdateKeepsKeys(p, package, m - package, package);
  }

  lemma SortedFresh(p: Pool, block: seq<TxId>, sorted: seq<TxId>, i: nat, m: Modified)
    requires SortedByCount(p, sorted) && i < |sorted| && SetOf(sorted) !! SetOf(block)
    ensures sorted[i] !in SetOf(block + sorted[..i])
    ensures block + sorted[..i] + [sorted[i]] == block + sorted[..i + 1]
    ensures m - SetOf(sorted[..i]) - {sorted[i]} == m - SetOf(sorted[..i + 1])
  {
    assert sorted[i] in SetOf(sorted);
    forall k | 0 <= k < i ensures sorted[k] != sorted[i] {
      assert Precedes(p, sorted[k], sorted[i]);
    }
    assert sorted[..i] + [sorted[i]] == sorted[..i + 1];
    assert SetOf(sorted[..i + 1]) == SetOf(sorted[..i]) + {sorted[i]};
  }

  datatype Verdict = TooBig | NotFinal | Taken

  /** How much of the limits the block uses. */
  datatype Fullness = Fullness(weight: int, sigOps: int)

  lemma EraseShrinks(m: Modified, t: TxId)
    requires t in m
    ensures |m - {t}| < |m|
  {
    assert m == (m - {t})[t := m[t]];
  }

  /** One candidate the selection loop decided on: the block, the modified totals, the entries that failed, the place in
      the index and the rejections before it, the candidate with its total, the verdict, and the block after it. */
  datatype Choice = Choice(block: seq<TxId>, m: Modified, failed: set<TxId>, mi: nat, why: Reasons,
                           t: TxId, total: Total, verdict: Verdict, after: seq<TxId>)

  /** The rejections after it. */
  function WhyAfter(c: Choice): Reasons { if c.verdict == Taken then c.why else c.why[c.t := c.total] }

  /** Each choice starts with the block and the rejections that the one before leaves. */
  ghost predicate Linked(choices: seq<Choice>, first: seq<TxId>, last: seq<TxId>, why: Reasons) {
    if choices == [] then first == last && why == map[]
    else
      && choices[0].block == first && choices[0].why == map[]
      && choices[|choices| - 1].after == last && WhyAfter(choices[|choices| - 1]) == why
      && forall i :: 0 < i < |choices| ==>
           choices[i].block == choices[i - 1].after && choices[i].why == WhyAfter(choices[i - 1])
  }

  function TakenIn(choices: seq<Choice>): nat {
    if choices == [] then 0
    else TakenIn(choices[..|choices| - 1]) + if choices[|choices| - 1].verdict == Taken then 1 else 0
  }

  /** How many candidates did not fit since the last package was taken. */
  function FailedIn(choices: seq<Choice>): nat {
    if choices == [] then 0 else FailedAfter(FailedIn(choices[..|choices| - 1]), choices[|choices| - 1].verdict)
  }

  function FailedAfter(nFailed: nat, verdict: Verdict): nat {
    match verdict
    case Taken => 0
    case TooBig => nFailed + 1
    case NotFinal => nFailed
  }

  ghost predicate AllIn(choices: seq<Choice>, good: iset<Choice>) {
    forall c :: c in choices ==> c in good
  }

  /** A round makes no choice, and nothing changes, or one that leads from block and rejections to the next. */
  ghost predicate Makes(good: iset<Choice>, made: seq<Choice>, before: seq<TxId>, why: Reasons, after: seq<TxId>,
                        why': Reasons, verdict: Verdict)
  {
    && AllIn(made, good)
    && if made == [] then after == before && why' == why && verdict == NotFinal
       else
         && |made| == 1 && made[0].block == before && made[0].why == why
         && made[0].after == after && WhyAfter(made[0]) == why' && made[0].verdict == verdict
  }

  /** The choices of a run, from the block `first` to the block `last`, with the rejections `why`. */
  ghost predicate Chosen(good: iset<Choice>, choices: seq<Choice>, first: seq<TxId>, last: seq<TxId>, why: Reasons) {
    AllIn(choices, good) && Linked(choices, first, last, why)
  }

  lemma MakesSingle(good: iset<Choice>, c: Choice)
    requires c in good
    ensures Makes(good, [c], c.block, c.why, c.after, WhyAfter(c), c.verdict)
  {
  }

  lemma MakesMore(good: iset<Choice>, choices: seq<Choice>, first: seq<TxId>, made: seq<Choice>, before: seq<TxId>,
                  why: Reasons, after: seq<TxId>, why': Reasons, verdict: Verdict)
    requires Chosen(good, choices, first, before, why) && Makes(good, made, before, why, after, why', verdict)
    ensures Chosen(good, choices + made, first, after, why')
    ensures TakenIn(choices + made) == TakenIn(choices) + if verdict == Taken then 1 else 0
  {
    if made == [] {
      assert choices + made == choices;
    } else {
      assert made == [made[0]] && (choices + made)[..|choices|] == choices;
    }
  }

  /** The last candidate did not fit, more candidates in a row than allowed did not, and the block is nearly full. */
  predicate GivesUp(maxWeight: int, verdict: Verdict, nFailed: nat, weight: int) {
    verdict == TooBig && nFailed > MAX_CONSECUTIVE_FAILURES && weight > maxWeight - 4000
  }

  /** After these choices the loop gives up. */
  ghost predicate GivesUpAfter(p: Pool, maxWeight: int, choices: seq<Choice>) {
    choices != [] &&
    var c := choices[|choices| - 1]; GivesUp(maxWeight, c.verdict, FailedIn(choices), BlockWeight(p, SetOf(c.after)))
  }

  /** It never went on after it should have given up. */
  ghost predicate GoesOn(p: Pool, maxWeight: int, choices: seq<Choice>) {
    forall k :: 0 < k < |choices| ==> !GivesUpAfter(p, maxWeight, choices[..k])
  }

  lemma GoesOnMore(p: Pool, maxWeight: int, good: iset<Choice>, choices: seq<Choice>, made: seq<Choice>, before: seq<TxId>,
                   why: Reasons, after: seq<TxId>, why': Reasons, verdict: Verdict, nFailed: nat, nFailed': nat)
    requires Makes(good, made, before, why, after, why', verdict) && nFailed == FailedIn(choices)
    requires nFailed' == if verdict == Taken then 0 else if verdict == TooBig then nFailed + 1 else nFailed
    requires GoesOn(p, maxWeight, choices) && !GivesUpAfter(p, maxWeight, choices)
    ensures FailedIn(choices + made) == nFailed' && GoesOn(p, maxWeight, choices + made)
    ensures GivesUpAfter(p, maxWeight, choices + made) <==> GivesUp(maxWeight, verdict, nFailed', BlockWeight(p, SetOf(after)))
  {
    if made == [] {
      assert choices + made == choices;
    } else {
      assert made == [made[0]] && (choices + made)[..|choices|] == choices;
      forall k | 0 < k < |choices + made| ensures !GivesUpAfter(p, maxWeight, (choices + made)[..k]) {
        assert (choices + made)[..k] == choices[..k];
        assert choices[..|choices|] == choices;
      }
    }
  }

  /** How the selection loop ended. */
  datatype Outcome = Going | Exhausted | BelowMinFee(t: TxId, total: Total) | GaveUp

  class Assembler {
    const pool: Pool
    const order: seq<TxId>
    const maxWeight: int
    const minFee: int -> int
    const eligible: TxId -> bool

    var block: seq<TxId>
    var vTxFees: seq<int>
    var vTxSigOpsCost: seq<int>
    var inBlock: set<TxId>
    var nBlockWeight: int
    var nBlockTx: int
    var nBlockSigOpsCost: int
    var nFees: int

    ghost predicate Tallied()
      reads this
    {
      && inBlock == SetOf(block) && inBlock <= pool.entries.Keys && nBlockTx == |block|
      && Tally(pool, block, nBlockWeight, nBlockSigOpsCost, nFees)
      && Columns(pool, block, vTxFees, vTxSigOpsCost)
    }

    ghost predicate Given() {
      PoolOk(pool) && SetOf(order) == pool.entries.Keys && COINBASE_WEIGHT <= maxWeight
    }

    ghost predicate Valid()
      reads this
    {
      && Given() && Tallied()
      && Topological(pool, block) && Distinct(block)
      && nBlockWeight <= maxWeight && nBlockSigOpsCost < MAX_BLOCK_SIGOPS_COST
    }

    constructor (pool: Pool, order: seq<TxId>, optionWeight: int, minFee: int -> int, eligible: TxId -> bool)
      requires PoolOk(pool) && SetOf(order) == pool.entries.Keys
      ensures Valid() && block == []
      ensures this.pool == pool && this.order == order && this.minFee == minFee && this.eligible == eligible
      ensures 4000 <= optionWeight <= MAX_BLOCK_WEIGHT - 4000 ==> maxWeight == optionWeight
      ensures optionWeight < 4000 ==> maxWeight == 4000
      ensures optionWeight > MAX_BLOCK_WEIGHT - 4000 ==> maxWeight == MAX_BLOCK_WEIGHT - 4000
    {
      this.pool, this.order, this.minFee, this.eligible := pool, order, minFee, eligible;
      var capped := if optionWeight < MAX_BLOCK_WEIGHT - 4000 then optionWeight else MAX_BLOCK_WEIGHT - 4000;
      maxWeight := if capped < 4000 then 4000 else capped;
      block := [];
      new;
      ResetBlock();
    }

    method ResetBlock()
      requires Given()
      modifies this
      ensures Valid() && block == []
    {
      inBlock := {};
      nBlockWeight := 4000;
      nBlockSigOpsCost := 400;
      nBlockTx := 0;
      nFees := 0;
      block, vTxFees, vTxSigOpsCost := [], [-1], [-1];
    }

    method OnlyUnconfirmed(testSet: set<TxId>) returns (left: set<TxId>)
      ensures left == testSet - inBlock
    {
      left := testSet;
      var todo := testSet;
      while |todo| > 0
        invariant todo <= testSet && left == testSet - ((testSet - todo) * inBlock)
        decreases |todo|
      {
        var t :| t in todo;
        if t in inBlock {
          left := left - {t};
        }
        todo := todo - {t};
      }
    }

    method TestPackage(packageSize: int, packageSigOpsCost: int) returns (ok: bool)
      ensures ok == Fits(nBlockWeight, nBlockSigOpsCost, maxWeight, Total(packageSize, 0, packageSigOpsCost))
    {
      if nBlockWeight + 4 * packageSize >= maxWeight {
        return false;
      }
      if nBlockSigOpsCost + packageSigOpsCost >= 80000 {
        return false;
      }
      return true;
    }

    method TestPackageTransactions(package: set<TxId>) returns (ok: bool)
      ensures ok <==> forall t :: t in package ==> eligible(t)
    {
      var todo := package;
      while |todo| > 0
        invariant todo <= package && forall t :: t in package - todo ==> eligible(t)
        decreases |todo|
      {
        var t :| t in todo;
        if !eligible(t) {
          return false;
        }
        todo := todo - {t};
      }
      return true;
    }

    method AddToBlock(t: TxId)
      requires Tallied() && t in pool.entries && t !in inBlock
      modifies this
      ensures Tallied() && block == old(block) + [t] && inBlock == old(inBlock) + {t}
    {
      block := block + [t];
      vTxFees := vTxFees + [pool.entries[t].fee];
      vTxSigOpsCost := vTxSigOpsCost + [pool.entries[t].sigOps];
      nBlockWeight := nBlockWeight + pool.entries[t].weight;
      nBlockTx := nBlockTx + 1;
      nBlockSigOpsCost := nBlockSigOpsCost + pool.entries[t].sigOps;
      nFees := nFees + pool.entries[t].fee;
      inBlock := inBlock + {t};
      TallyStep(pool, old(block), old(nBlockWeight), old(nBlockSigOpsCost), old(nFees), t);
      ColumnsStep(pool, old(block), old(vTxFees), old(vTxSigOpsCost), t);
      assert block == old(block) + [t];
    }

    /** By ancestor count, which puts every transaction after its ancestors. */
    method SortForBlock(package: set<TxId>) returns (sorted: seq<TxId>)
      requires package <= pool.entries.Keys
      ensures SortedByCount(pool, sorted) && SetOf(sorted) == package
    {
      sorted := [];
      var todo := package;
      while |todo| > 0
        invariant todo <= package && SetOf(sorted) == package - todo && SortedByCount(pool, sorted)
        decreases |todo|
      {
        var t :| t in todo;
        assert t !in SetOf(sorted);
        sorted := Insert(sorted, t);
        todo := todo - {t};
      }
    }

    method Insert(sorted: seq<TxId>, t: TxId) returns (r: seq<TxId>)
      requires SortedByCount(pool, sorted) && t in pool.entries && t !in sorted
      ensures SortedByCount(pool, r) && SetOf(r) == SetOf(sorted) + {t}
    {
      var k := 0;
      while k < |sorted| && Precedes(pool, sorted[k], t)
        invariant 0 <= k <= |sorted|
        invariant forall i :: 0 <= i < k ==> Precedes(pool, sorted[i], t)
      {
        k := k + 1;
      }
      r := sorted[..k] + [t] + sorted[k..];
      forall u ensures u in r <==> u == t || u in sorted {
        assert sorted == sorted[..k] + sorted[k..];
      }
      assert k < |sorted| ==> sorted[k] != t;
    }

    /** Each included transaction is subtracted from the totals of its descendants. */
    method UpdatePackagesForAdded(alreadyAdded: set<TxId>, m: Modified) returns (m': Modified)
      ensures m' == AfterUpdate(pool, alreadyAdded, m, alreadyAdded)
    {
      m' := m;
      var todo := alreadyAdded;
      while |todo| > 0
        invariant AfterUpdate(pool, alreadyAdded, m', todo) == AfterUpdate(pool, alreadyAdded, m, alreadyAdded)
        decreases |todo|
      {
        HasLowest(todo);
        var it :| IsLowest(todo, it);
        assert it == Lowest(todo);
        m' := Patch(Descendants(pool, it), alreadyAdded, m', it);
        todo := todo - {it};
      }
    }

    method Patch(descendants: set<TxId>, alreadyAdded: set<TxId>, m: Modified, it: TxId) returns (m': Modified)
      requires descendants <= pool.entries.Keys
      ensures m' == Patched(pool, m, it, descendants - alreadyAdded)
    {
      m' := m;
      var todo := descendants;
      SoFarStarts(pool, m, it, descendants, alreadyAdded);
      while |todo| > 0
        invariant todo <= descendants && m' == PatchedSoFar(pool, m, it, descendants, todo, alreadyAdded)
        decreases |todo|
      {
        var desc :| desc in todo;
        SoFarStep(pool, m, it, descendants, todo, alreadyAdded, desc);
        todo := todo - {desc};
        if desc in alreadyAdded {
          continue;
        }
        if desc !in m' {
          m' := m'[desc := Without(pool.entries[desc].total, pool, it, ModifiedFeeOf(pool)(it))];
        } else {
          m' := m'[desc := Without(m'[desc], pool, it, FeeOf(pool)(it))];
        }
      }
      assert todo == {};
      SoFarEnds(pool, m, it, descendants, alreadyAdded);
    }

    predicate SkipMapTxEntry(t: TxId, m: Modified, failed: set<TxId>)
      reads this
    {
      Stale(inBlock, t, m, failed)
    }

    predicate Stale(s: set<TxId>, t: TxId, m: Modified, failed: set<TxId>) {
      t in m || t in s || t in failed
    }

    ghost predicate AllSized(m: Modified) {
      forall t :: t in m ==> t in pool.entries && Sized(CandidateOf(pool, t, m[t]))
    }

    ghost predicate BestOf(m: Modified, s: set<TxId>, t: TxId)
      requires AllSized(m) && s <= m.Keys
    {
      t in s && forall o :: o in s && o != t ==> Better(CandidateOf(pool, t, m[t]), CandidateOf(pool, o, m[o]))
    }

    /** The first entry of the modified set in the order by ancestor score. */
    method BestModified(m: Modified) returns (t: TxId)
      requires AllSized(m) && |m| > 0
      ensures BestOf(m, m.Keys, t)
    {
      t :| t in m;
      var seen, todo := {t}, m.Keys - {t};
      while |todo| > 0
        invariant seen <= m.Keys && todo <= m.Keys && seen !! todo && BestOf(m, seen, t)
        invariant forall u :: u in m ==> u in seen || u in todo
        decreases |todo|
      {
        var o :| o in todo;
        BestStep(m, seen, t, o);
        if Better(CandidateOf(pool, o, m[o]), CandidateOf(pool, t, m[t])) {
          t := o;
        }
        seen, todo := seen + {o}, todo - {o};
      }
      assert seen == m.Keys;
    }

    lemma BestStep(m: Modified, s: set<TxId>, t: TxId, o: TxId)
      requires AllSized(m) && s <= m.Keys && BestOf(m, s, t) && o in m && o !in s
      ensures var b := Better(CandidateOf(pool, o, m[o]), CandidateOf(pool, t, m[t]));
              BestOf(m, s + {o}, if b then o else t)
    {
      var co, ct := CandidateOf(pool, o, m[o]), CandidateOf(pool, t, m[t]);
      BetterTotal(co, ct);
      if Better(co, ct) {
        forall u | u in s && u != t ensures Better(co, CandidateOf(pool, u, m[u])) {
          BetterTransitive(co, ct, CandidateOf(pool, u, m[u]));
        }
      }
    }

    /** The candidate to try: the best modified entry, or the next entry of the index if that is better. */
    method Choose(m: Modified, mi: nat) returns (t: TxId, total: Total, usingModified: bool)
      requires AllSized(m) && mi <= |order| && (mi < |order| || |m| > 0) && Given()
      ensures usingModified ==> t in m && total == m[t] && BestOf(m, m.Keys, t)
      ensures !usingModified ==> mi < |order| && t == order[mi] && t in pool.entries && total == pool.entries[t].total
      ensures mi < |order| && order[mi] != t ==>
                Better(CandidateOf(pool, t, total), CandidateOf(pool, order[mi], pool.entries[order[mi]].total))
      ensures forall o :: o in m && o != t ==> !Better(CandidateOf(pool, o, m[o]), CandidateOf(pool, t, total))
    {
      assert forall i :: 0 <= i < |order| ==> order[i] in SetOf(order);
      if mi == |order| {
        t := BestModified(m);
        BestIsBest(m, t);
        return t, m[t], true;
      }
      t := order[mi];
      total, usingModified := pool.entries[t].total, false;
      if |m| > 0 {
        var best := BestModified(m);
        BestIsBest(m, best);
        if Better(CandidateOf(pool, best, m[best]), CandidateOf(pool, t, total)) {
          return best, m[best], true;
        }
        CachedCovers(pool, {}, t);
        CoveredSized(pool, {}, t, total, false);
        NoneBetter(m, best, CandidateOf(pool, t, total));
      }
    }

    lemma BestIsBest(m: Modified, t: TxId)
      requires AllSized(m) && BestOf(m, m.Keys, t)
      ensures forall o :: o in m && o != t ==> !Better(CandidateOf(pool, o, m[o]), CandidateOf(pool, t, m[t]))
    {
      forall o | o in m && o != t ensures !Better(CandidateOf(pool, o, m[o]), CandidateOf(pool, t, m[t])) {
        BetterTotal(CandidateOf(pool, t, m[t]), CandidateOf(pool, o, m[o]));
      }
    }

    lemma NoneBetter(m: Modified, best: TxId, c: Candidate)
      requires AllSized(m) && BestOf(m, m.Keys, best) && Sized(c)
      requires !Better(CandidateOf(pool, best, m[best]), c)
      ensures forall o :: o in m ==> !Better(CandidateOf(pool, o, m[o]), c)
    {
      forall o | o in m ensures !Better(CandidateOf(pool, o, m[o]), c) {
        if o != best && Better(CandidateOf(pool, o, m[o]), c) {
          BetterTransitive(CandidateOf(pool, best, m[best]), CandidateOf(pool, o, m[o]), c);
        }
      }
    }

    lemma CoversIsSized(failed: set<TxId>, m: Modified)
      requires PoolOk(pool) && Covers(pool, inBlock, inBlock, failed, m)
      ensures AllSized(m)
    {
      forall t | t in m ensures t in pool.entries && Sized(CandidateOf(pool, t, m[t])) {
        assert CoversAt(pool, inBlock, inBlock, failed, m, t);
        CoveredSized(pool, inBlock, t, m[t], t !in failed);
      }
    }

    /** Exactly the package was appended, in order. */
    ghost predicate Appends(before: seq<TxId>, after: seq<TxId>, package: set<TxId>) {
      before <= after && SortedByCount(pool, after[|before|..]) && SetOf(after[|before|..]) == package
    }

    /** A package whose total fits is appended in order, and its descendants' totals are patched. */
    method AddPackage(package: set<TxId>, m: Modified, t: TxId, ghost total: Total, ghost failed: set<TxId>)
      returns (m': Modified)
      requires Valid() && t in pool.entries && t !in inBlock && package == Package(pool, inBlock, t)
      requires Covers(pool, inBlock, inBlock, failed, m) && Covered(pool, inBlock, t, total, false)
      requires Fits(nBlockWeight, nBlockSigOpsCost, maxWeight, total)
      modifies this
      ensures Valid() && inBlock == old(inBlock) + package && old(block) <= block
      ensures Appends(old(block), block, package)
      ensures Covers(pool, inBlock, inBlock, failed, m') && m.Keys - package <= m'.Keys
    {
      assert EntryOk(pool, t);
      var sorted := SortForBlock(package);
      TallyIsSum(pool, block, nBlockWeight, nBlockSigOpsCost, nFees);
      AppendedOk(pool, block, t, sorted, total, maxWeight);
      ClosedTake(pool, block, failed, m, package);
      m' := AddSorted(sorted, m);
      assert block[|old(block)|..] == sorted;
      TallyIsSum(pool, block, nBlockWeight, nBlockSigOpsCost, nFees);
      m' := UpdatePackagesForAdded(package, m');
    }

    method AddSorted(sorted: seq<TxId>, m: Modified) returns (m': Modified)
      requires Tallied() && SortedByCount(pool, sorted) && SetOf(sorted) !! inBlock
      modifies this
      ensures Tallied() && block == old(block) + sorted && m' == m - SetOf(sorted)
    {
      m' := m;
      for i := 0 to |sorted|
        invariant Tallied() && block == old(block) + sorted[..i] && m' == m - SetOf(sorted[..i])
      {
        SortedFresh(pool, old(block), sorted, i, m);
        AddToBlock(sorted[i]);
        m' := m' - {sorted[i]};
      }
      assert sorted[..|sorted|] == sorted;
    }

    /** What the selection loop keeps, with `s` in the block and the index read up to `mi`. */
    ghost predicate Progress(s: set<TxId>, m: Modified, failed: set<TxId>, why: Reasons, mi: nat) {
      && mi <= |order| && Covers(pool, s, s, failed, m) && failed <= why.Keys
      && ReasonsOk(pool, s, maxWeight, eligible, why)
      && Considered(pool, s, why, m, order, mi)
    }

    lemma Advance(s: set<TxId>, m: Modified, failed: set<TxId>, why: Reasons, mi: nat)
      requires Progress(s, m, failed, why, mi) && mi < |order|
      requires order[mi] in m || order[mi] in s || order[mi] in why
      ensures Progress(s, m, failed, why, mi + 1)
    {
      var next := mi + 1;
      assert order[mi..] == [order[mi]] + order[next..];
      forall t ensures ConsideredAt(pool, s, why, m, order, next, t) {
        assert ConsideredAt(pool, s, why, m, order, mi, t);
      }
    }

    lemma ReasonAdded(s: set<TxId>, why: Reasons, t: TxId, total: Total)
      requires ReasonsOk(pool, s, maxWeight, eligible, why) && Rejected(pool, s, maxWeight, eligible, t, total)
      ensures ReasonsOk(pool, s, maxWeight, eligible, why[t := total])
    {
      var why' := why[t := total];
      forall u ensures ReasonAt(pool, s, maxWeight, eligible, why', u) {
        assert ReasonAt(pool, s, maxWeight, eligible, why, u);
      }
    }

    lemma ReasonConsidered(s: set<TxId>, m: Modified, why: Reasons, mi: nat, t: TxId, total: Total)
      requires mi <= |order| && Considered(pool, s, why, m, order, mi)
      ensures Considered(pool, s, why[t := total], m - {t}, order, mi) && Considered(pool, s, why[t := total], m, order, mi)
    {
      var why', m' := why[t := total], m - {t};
      forall u ensures ConsideredAt(pool, s, why', m', order, mi, u) && ConsideredAt(pool, s, why', m, order, mi, u) {
        assert ConsideredAt(pool, s, why, m, order, mi, u);
      }
    }

    /** A rejected modified entry is erased. */
    lemma EraseStep(s: set<TxId>, m: Modified, failed: set<TxId>, why: Reasons, mi: nat, t: TxId, total: Total)
      requires Progress(s, m, failed, why, mi) && Rejected(pool, s, maxWeight, eligible, t, total)
      ensures Progress(s, m - {t}, failed + {t}, why[t := total], mi)
    {
      EraseKeeps(pool, s, failed, m, t);
      ReasonAdded(s, why, t, total);
      ReasonConsidered(s, m, why, mi, t, total);
    }

    /** A rejected entry of the index is passed. */
    lemma PassStep(s: set<TxId>, m: Modified, failed: set<TxId>, why: Reasons, mi: nat, total: Total)
      requires Progress(s, m, failed, why, mi) && mi < |order|
      requires Rejected(pool, s, maxWeight, eligible, order[mi], total)
      ensures Progress(s, m, failed, why[order[mi] := total], mi + 1)
    {
      ReasonAdded(s, why, order[mi], total);
      ReasonConsidered(s, m, why, mi, order[mi], total);
      Advance(s, m, failed, why[order[mi] := total], mi);
    }

    lemma TakeStep(s: set<TxId>, m: Modified, failed: set<TxId>, why: Reasons, mi: nat,
                   t: TxId, package: set<TxId>, m': Modified, usingModified: bool)
      requires Progress(s, m, failed, why, mi) && package == Package(pool, s, t) && t !in s
      requires forall u :: u in package ==> eligible(u)
      requires Covers(pool, s + package, s + package, failed, m') && m.Keys - package <= m'.Keys
      requires !usingModified ==> mi < |order| && order[mi] == t
      ensures Progress(s + package, m', failed, why, if usingModified then mi else mi + 1)
    {
      ReasonsStay(pool, s, package, maxWeight, eligible, why);
      forall u ensures ConsideredAt(pool, s + package, why, m', order, mi, u) {
        assert ConsideredAt(pool, s, why, m, order, mi, u);
      }
      if !usingModified {
        Advance(s + package, m', failed, why, mi);
      }
    }

    /** The chosen candidate is not in the block, and its total covers what is left of its package. */
    lemma ChosenCovered(s: set<TxId>, m: Modified, failed: set<TxId>, why: Reasons, mi: nat,
                        t: TxId, total: Total, usingModified: bool)
      requires Given() && Progress(s, m, failed, why, mi)
      requires usingModified ==> t in m && total == m[t]
      requires !usingModified ==> t in pool.entries && t !in s && total == pool.entries[t].total
      ensures t in pool.entries && t !in s && Covered(pool, s, t, total, false)
    {
      assert CoversAt(pool, s, s, failed, m, t);
      if !usingModified {
        CachedCovers(pool, s, t);
      }
    }

    /** Whether a package is within the limits and may be mined, and which transactions it holds. */
    method TryPackage(t: TxId, total: Total) returns (verdict: Verdict, package: set<TxId>)
      requires t !in inBlock
      ensures verdict == TooBig <==> !Fits(nBlockWeight, nBlockSigOpsCost, maxWeight, total)
      ensures verdict != TooBig ==> package == Package(pool, inBlock, t)
      ensures verdict != TooBig ==> (verdict == Taken <==> forall u :: u in package ==> eligible(u))
    {
      package := {};
      var fits := TestPackage(total.size, total.sigOps);
      if !fits {
        return TooBig, package;
      }
      var unconfirmed := OnlyUnconfirmed(Ancestors(pool, t));
      package := unconfirmed + {t};
      PackageOf(pool, inBlock, t);
      var allowed := TestPackageTransactions(package);
      verdict := if allowed then Taken else NotFinal;
    }

    lemma NotTaken(t: TxId, total: Total, verdict: Verdict)
      requires Valid() && Covered(pool, inBlock, t, total, false)
      requires verdict == TooBig <==> !Fits(nBlockWeight, nBlockSigOpsCost, maxWeight, total)
      requires verdict == NotFinal ==> !forall u :: u in Package(pool, inBlock, t) ==> eligible(u)
      requires verdict != Taken
      ensures Rejected(pool, inBlock, maxWeight, eligible, t, total)
    {
      if verdict == TooBig {
        TallyIsSum(pool, block, nBlockWeight, nBlockSigOpsCost, nFees);
        RejectedBySize(pool, inBlock, maxWeight, eligible, t, total);
      } else {
        RejectedByMember(pool, inBlock, maxWeight, eligible, t, total);
      }
    }

    method Reject(m: Modified, failed: set<TxId>, ghost why: Reasons, mi: nat, t: TxId, total: Total, usingModified: bool)
      returns (m': Modified, failed': set<TxId>, mi': nat, ghost why': Reasons)
      requires Progress(inBlock, m, failed, why, mi) && Rejected(pool, inBlock, maxWeight, eligible, t, total)
      requires if usingModified then t in m else mi < |order| && t == order[mi]
      ensures Progress(inBlock, m', failed', why', mi') && why' == why[t := total]
      ensures usingModified ==> mi' == mi && m' == m - {t} && |m'| < |m| && failed' == failed + {t}
      ensures !usingModified ==> mi' == mi + 1 && m' == m && failed' == failed
    {
      m', failed', mi', why' := m, failed, mi, why[t := total];
      if usingModified {
        EraseStep(inBlock, m, failed, why, mi, t, total);
        m' := m - {t};
        failed' := failed + {t};
        EraseShrinks(m, t);
      } else {
        PassStep(inBlock, m, failed, why, mi, total);
        mi' := mi + 1;
      }
    }

    method Take(package: set<TxId>, m: Modified, t: TxId, ghost total: Total, ghost failed: set<TxId>,
                ghost why: Reasons, mi: nat, usingModified: bool)
      returns (m': Modified, mi': nat)
      requires Valid() && t in pool.entries && t !in inBlock && package == Package(pool, inBlock, t)
      requires Progress(inBlock, m, failed, why, mi) && Covered(pool, inBlock, t, total, false)
      requires Fits(nBlockWeight, nBlockSigOpsCost, maxWeight, total)
      requires forall u :: u in package ==> eligible(u)
      requires !usingModified ==> mi < |order| && order[mi] == t
      modifies this
      ensures Valid() && inBlock == old(inBlock) + package && old(block) <= block
      ensures Appends(old(block), block, package)
      ensures pool.entries.Keys - inBlock < old(pool.entries.Keys - inBlock)
      ensures Progress(inBlock, m', failed, why, mi')
    {
      mi' := if usingModified then mi else mi + 1;
      m' := AddPackage(package, m, t, total, failed);
      assert t in old(pool.entries.Keys - inBlock) && t !in pool.entries.Keys - inBlock;
      TakeStep(old(inBlock), m, failed, why, mi, t, package, m', usingModified);
    }

    /** A candidate is taken if and only if its total fits and every member of its package may be mined; then the
        package is appended to the block. */
    ghost predicate Decides(before: seq<TxId>, t: TxId, total: Total, verdict: Verdict, after: seq<TxId>) {
      var s := SetOf(before);
      && (verdict == TooBig <==> !Fits(BlockWeight(pool, s), BlockSigOps(pool, s), maxWeight, total))
      && (verdict != TooBig ==> (verdict == Taken <==> forall u :: u in Package(pool, s, t) ==> eligible(u)))
      && (if verdict == Taken then Appends(before, after, Package(pool, s, t)) else after == before)
    }

    /** One candidate is taken with its package, or rejected, and those that do not fit in a row are counted. */
    method Evaluate(m: Modified, failed: set<TxId>, ghost why: Reasons, mi: nat, nFailed: nat, ghost recent: set<TxId>,
                    t: TxId, total: Total, usingModified: bool)
      returns (m': Modified, failed': set<TxId>, mi': nat, nFailed': nat, verdict: Verdict,
               ghost why': Reasons, ghost recent': set<TxId>)
      requires Valid() && t in pool.entries && t !in inBlock && Covered(pool, inBlock, t, total, false)
      requires Progress(inBlock, m, failed, why, mi) && Streak(Full(), recent, m, failed, why, mi, nFailed)
      requires if usingModified then t in m else mi < |order| && t == order[mi] && !SkipMapTxEntry(t, m, failed)
      modifies this
      ensures Valid() && old(block) <= block && Progress(inBlock, m', failed', why', mi')
      ensures forall u :: u in inBlock - old(inBlock) ==> eligible(u)
      ensures verdict == Taken ==> pool.entries.Keys - inBlock < old(pool.entries.Keys - inBlock)
      ensures verdict != Taken ==> inBlock == old(inBlock) && (mi' == mi + 1 || (mi' == mi && |m'| < |m|))
      ensures Streak(Full(), recent', m', failed', why', mi', nFailed')
      ensures Decides(old(block), t, total, verdict, block)
      ensures why' == if verdict == Taken then why else why[t := total]
      ensures nFailed' == if verdict == Taken then 0 else if verdict == TooBig then nFailed + 1 else nFailed
    {
      TallyIsSum(pool, block, nBlockWeight, nBlockSigOpsCost, nFees);
      var package;
      verdict, package := TryPackage(t, total);
      if verdict == Taken {
        failed', why', nFailed', recent' := failed, why, 0, {};
        m', mi' := Take(package, m, t, total, failed, why, mi, usingModified);
      } else {
        NotTaken(t, total, verdict);
        m', failed', mi', why' := Reject(m, failed, why, mi, t, total, usingModified);
        var tooBig := verdict == TooBig;
        StreakGrows(Full(), recent, m, failed, why, mi, nFailed, t, total, usingModified, m', failed', why', mi', tooBig);
        nFailed' := if tooBig then nFailed + 1 else nFailed;
        recent' := if tooBig then recent + {t} else recent;
      }
    }

    /** How a rejected candidate leaves the loop's state. */
    ghost predicate Passes(m: Modified, failed: set<TxId>, why: Reasons, mi: nat, t: TxId, total: Total,
                           usingModified: bool, m': Modified, failed': set<TxId>, why': Reasons, mi': nat) {
      && why' == why[t := total]
      && (usingModified ==> t in m && mi' == mi && m' == m - {t} && failed' == failed + {t})
      && (!usingModified ==> mi < |order| && t == order[mi] && mi' == mi + 1 && m' == m && failed' == failed)
    }

    // ----- why the loop stops -----

    /** The index is sorted by ancestor score. */
    ghost predicate InScoreOrder()
      requires Given()
    {
      forall i, j :: 0 <= i < j < |order| ==> Better(Indexed(i), Indexed(j))
    }

    ghost function Indexed(i: nat): (c: Candidate)
      requires Given() && i < |order|
      ensures c.id == order[i]
    {
      assert order[i] in SetOf(order);
      CandidateOf(pool, order[i], pool.entries[order[i]].total)
    }

    /** What the loop has still to consider: modified entries, and index entries that are not stale. */
    ghost predicate Remains(m: Modified, failed: set<TxId>, mi: nat, c: Candidate)
      requires Given() && mi <= |order|
      reads this
    {
      RemainsWith(inBlock, m, failed, mi, c)
    }

    /** The same with `s` in the block. */
    ghost predicate RemainsWith(s: set<TxId>, m: Modified, failed: set<TxId>, mi: nat, c: Candidate)
      requires Given() && mi <= |order|
    {
      || (c.id in m && c.id in pool.entries && c == CandidateOf(pool, c.id, m[c.id]))
      || (exists j :: mi <= j < |order| && c == Indexed(j) && !Stale(s, order[j], m, failed))
    }

    /** Everything else that might be considered has a lower score. */
    ghost predicate BestLeft(m: Modified, failed: set<TxId>, mi: nat, best: Candidate)
      requires Given() && mi <= |order|
      reads this
    {
      BestWith(inBlock, m, failed, mi, best)
    }

    ghost predicate BestWith(s: set<TxId>, m: Modified, failed: set<TxId>, mi: nat, best: Candidate)
      requires Given() && mi <= |order|
    {
      forall c :: RemainsWith(s, m, failed, mi, c) && c.id != best.id ==> Better(best, c)
    }

    /** And those that pay at least the feerate of their package, no higher feerate by packages. */
    ghost predicate LowerRatesLeft(m: Modified, failed: set<TxId>, mi: nat, best: Candidate)
      requires Given() && mi <= |order|
      reads this
    {
      forall c :: Remains(m, failed, mi, c) && c.id != best.id && PaysItsShare(c) ==>
        RateDiff(FeeFloor.PackageRate(best), FeeFloor.PackageRate(c)) >= 0
    }

    predicate PaysItsShare(c: Candidate) {
      RateDiff(FeeFloor.OwnRate(c), FeeFloor.PackageRate(c)) >= 0
    }

    lemma BestPaysMost(m: Modified, failed: set<TxId>, mi: nat, best: Candidate)
      requires Given() && mi <= |order| && AllSized(m) && Sized(best) && BestLeft(m, failed, mi, best)
      ensures LowerRatesLeft(m, failed, mi, best)
    {
      forall c | Remains(m, failed, mi, c) && c.id != best.id && PaysItsShare(c)
        ensures RateDiff(FeeFloor.PackageRate(best), FeeFloor.PackageRate(c)) >= 0
      {
        RemainingSized(m, failed, mi, c);
        FeeFloor.BetterPaysMore(best, c);
      }
    }

    lemma RemainingSized(m: Modified, failed: set<TxId>, mi: nat, c: Candidate)
      requires Given() && mi <= |order| && AllSized(m) && Remains(m, failed, mi, c)
      ensures Sized(c)
    {
      if !(c.id in m && c == CandidateOf(pool, c.id, m[c.id])) {
        var j :| mi <= j < |order| && c == Indexed(j) && !SkipMapTxEntry(order[j], m, failed);
        IndexedSized(j);
      }
    }

    lemma ChosenIsBest(m: Modified, failed: set<TxId>, mi: nat, t: TxId, total: Total, usingModified: bool)
      requires Given() && InScoreOrder() && AllSized(m) && mi <= |order|
      requires mi < |order| ==> !SkipMapTxEntry(order[mi], m, failed)
      requires usingModified ==> t in m && total == m[t]
      requires !usingModified ==> mi < |order| && t == order[mi] && t in pool.entries && total == pool.entries[t].total
      requires mi < |order| && order[mi] != t ==> Better(CandidateOf(pool, t, total), Indexed(mi))
      requires forall o :: o in m && o != t ==> !Better(CandidateOf(pool, o, m[o]), CandidateOf(pool, t, total))
      ensures BestLeft(m, failed, mi, CandidateOf(pool, t, total))
    {
      var best := CandidateOf(pool, t, total);
      if !usingModified {
        IndexedSized(mi);
      }
      forall c | Remains(m, failed, mi, c) && c.id != best.id ensures Better(best, c) {
        RemainingIsWorse(m, failed, mi, best, c);
      }
    }

    lemma ChosenRemains(m: Modified, failed: set<TxId>, mi: nat, t: TxId, total: Total, usingModified: bool)
      requires Given() && mi <= |order| && t in pool.entries
      requires mi < |order| ==> !SkipMapTxEntry(order[mi], m, failed)
      requires usingModified ==> t in m && total == m[t]
      requires !usingModified ==> mi < |order| && t == order[mi] && total == pool.entries[t].total
      ensures RemainsWith(inBlock, m, failed, mi, CandidateOf(pool, t, total))
    {
      if !usingModified {
        assert CandidateOf(pool, t, total) == Indexed(mi);
      }
    }

    lemma RemainingIsWorse(m: Modified, failed: set<TxId>, mi: nat, best: Candidate, c: Candidate)
      requires Given() && InScoreOrder() && AllSized(m) && mi <= |order| && Remains(m, failed, mi, c) && c.id != best.id
      requires Sized(best) && (mi < |order| && order[mi] == best.id ==> best == Indexed(mi))
      requires mi < |order| && order[mi] != best.id ==> Better(best, Indexed(mi))
      requires c.id in m ==> !Better(CandidateOf(pool, c.id, m[c.id]), best)
      ensures Better(best, c)
    {
      if c.id in m && c == CandidateOf(pool, c.id, m[c.id]) {
        BetterTotal(best, c);
      } else {
        var j :| mi <= j < |order| && c == Indexed(j) && !SkipMapTxEntry(order[j], m, failed);
        LaterIsWorse(mi, j, best);
      }
    }

    lemma LaterIsWorse(mi: nat, j: nat, best: Candidate)
      requires Given() && InScoreOrder() && mi <= j < |order| && Sized(best) && order[j] != best.id
      requires order[mi] == best.id ==> best == Indexed(mi)
      requires order[mi] != best.id ==> Better(best, Indexed(mi))
      ensures Better(best, Indexed(j))
    {
      if order[mi] != best.id && mi < j {
        IndexedSized(mi);
        IndexedSized(j);
        BetterTransitive(best, Indexed(mi), Indexed(j));
      }
    }

    lemma IndexedSized(i: nat)
      requires Given() && i < |order|
      ensures Sized(Indexed(i))
    {
      var t := order[i];
      assert t in SetOf(order);
      CachedCovers(pool, {}, t);
      CoveredSized(pool, {}, t, pool.entries[t].total, false);
    }

    /** The candidate that ends the loop pays too little, and no other one has a better score; the loop gives up
        only on a nearly full block. */
    ghost predicate StopsRightly(outcome: Outcome, m: Modified, failed: set<TxId>, mi: nat)
      requires Given() && mi <= |order|
      reads this
    {
      && (outcome.BelowMinFee? ==>
            && outcome.t in pool.entries && outcome.t !in inBlock
            && Covered(pool, inBlock, outcome.t, outcome.total, false)
            && outcome.total.fees < minFee(outcome.total.size)
            && var best := CandidateOf(pool, outcome.t, outcome.total);
               InScoreOrder() ==> BestLeft(m, failed, mi, best) && LowerRatesLeft(m, failed, mi, best))
      && (outcome.GaveUp? ==> nBlockWeight > maxWeight - 4000)
    }

    ghost function Full(): Fullness
      reads this
    {
      Fullness(nBlockWeight, nBlockSigOpsCost)
    }

    /** The candidates that did not fit, one after the other, since the last package was taken. */
    ghost predicate Streak(full: Fullness, recent: set<TxId>, m: Modified, failed: set<TxId>, why: Reasons, mi: nat, n: nat)
      requires mi <= |order|
    {
      Distinct(order) ==> |recent| == n && forall t {:trigger StreakAt(full, m, failed, why, mi, t)} ::
          t in recent ==> StreakAt(full, m, failed, why, mi, t)
    }

    ghost predicate StreakAt(full: Fullness, m: Modified, failed: set<TxId>, why: Reasons, mi: nat, t: TxId)
      requires mi <= |order|
    {
      && t in why && !Fits(full.weight, full.sigOps, maxWeight, why[t])
      && t !in m && (t in failed || t in order[..mi])
    }

    lemma StreakGrows(full: Fullness, recent: set<TxId>, m: Modified, failed: set<TxId>, why: Reasons, mi: nat, n: nat, t: TxId,
                      total: Total, usingModified: bool, m': Modified, failed': set<TxId>, why': Reasons, mi': nat,
                      tooBig: bool)
      requires mi <= |order| && mi' <= |order| && Streak(full, recent, m, failed, why, mi, n)
      requires Passes(m, failed, why, mi, t, total, usingModified, m', failed', why', mi')
      requires !usingModified ==> !SkipMapTxEntry(t, m, failed)
      requires tooBig ==> !Fits(full.weight, full.sigOps, maxWeight, total)
      ensures Streak(full, if tooBig then recent + {t} else recent, m', failed', why', mi', if tooBig then n + 1 else n)
    {
      if Distinct(order) {
        assert !StreakAt(full, m, failed, why, mi, t);
        assert !usingModified ==> order[..mi'] == order[..mi] + [t];
        forall u | u in recent ensures StreakAt(full, m', failed', why', mi', u) {
          assert StreakAt(full, m, failed, why, mi, u);
        }
        if tooBig {
          assert StreakAt(full, m', failed', why', mi', t);
        }
      }
    }

    lemma StreakAdvances(full: Fullness, recent: set<TxId>, m: Modified, failed: set<TxId>, why: Reasons, mi: nat, n: nat)
      requires mi < |order| && Streak(full, recent, m, failed, why, mi, n)
      ensures Streak(full, recent, m, failed, why, mi + 1, n)
    {
      var next := mi + 1;
      assert order[..next] == order[..mi] + [order[mi]];
      forall u | u in recent && Distinct(order) ensures StreakAt(full, m, failed, why, next, u) {
        assert StreakAt(full, m, failed, why, mi, u);
      }
    }

    // ----- the choices of a run -----

    /** The candidate to look at: it is one of those left, and no other one left has a better score. */
    ghost predicate Leads(s: set<TxId>, m: Modified, failed: set<TxId>, mi: nat, why: Reasons, t: TxId, total: Total)
      requires Given()
    {
      && Progress(s, m, failed, why, mi) && t in pool.entries && t !in s && Covered(pool, s, t, total, false)
      && var best := CandidateOf(pool, t, total);
         RemainsWith(s, m, failed, mi, best) && (InScoreOrder() ==> BestWith(s, m, failed, mi, best))
    }

    /** A choice of the loop: such a candidate that pays the floor, and what is decided on it. */
    ghost predicate ChoiceOk(c: Choice)
      requires Given()
    {
      && Leads(SetOf(c.block), c.m, c.failed, c.mi, c.why, c.t, c.total) && c.total.fees >= minFee(c.total.size)
      && Decides(c.block, c.t, c.total, c.verdict, c.after)
    }

    ghost function Good(): iset<Choice>
      requires Given()
    {
      iset c | ChoiceOk(c)
    }

    lemma MakesOne(before: seq<TxId>, m: Modified, failed: set<TxId>, mi: nat, why: Reasons, t: TxId, total: Total,
                   verdict: Verdict, after: seq<TxId>)
      requires Given() && Leads(SetOf(before), m, failed, mi, why, t, total) && total.fees >= minFee(total.size)
      requires Decides(before, t, total, verdict, after)
      ensures var c := Choice(before, m, failed, mi, why, t, total, verdict, after);
              Makes(Good(), [c], before, why, after, WhyAfter(c), verdict)
    {
      var c := Choice(before, m, failed, mi, why, t, total, verdict, after);
      IsGood(c);
      MakesSingle(Good(), c);
    }

    lemma IsGood(c: Choice)
      requires Given() && ChoiceOk(c)
      ensures c in Good()
    {
    }

    /** A run only appends, and only what may be mined. */
    lemma {:induction false} ChosenEligible(choices: seq<Choice>, first: seq<TxId>, last: seq<TxId>, why: Reasons)
      requires Given() && Chosen(Good(), choices, first, last, why)
      ensures first <= last && forall t :: t in SetOf(last) - SetOf(first) ==> eligible(t)
      decreases |choices|
    {
      if choices != [] {
        var n := |choices| - 1;
        var c := choices[n];
        assert c in choices && AllIn(choices[..n], Good());
        ChosenEligible(choices[..n], first, c.block, c.why);
        ChoiceEligible(c);
      }
    }

    lemma ChoiceEligible(c: Choice)
      requires Given() && c in Good()
      ensures c.block <= c.after && forall t :: t in SetOf(c.after) - SetOf(c.block) ==> eligible(t)
    {
      if c.verdict == Taken {
        SetOfSuffix(c.block, c.after);
      }
    }

    /** The total by which a transaction outside the block is compared. */
    function Counted(m: Modified, u: TxId): Total
      requires u in pool.entries
    {
      if u in m then m[u] else pool.entries[u].total
    }

    /** Every choice has a better score than everything that is neither in the block nor rejected before. */
    lemma ChoiceBeatsAll(c: Choice, u: TxId)
      requires Given() && InScoreOrder() && ChoiceOk(c)
      requires u in pool.entries && u !in SetOf(c.block) && u !in c.why && u != c.t
      ensures Better(CandidateOf(pool, c.t, c.total), CandidateOf(pool, u, Counted(c.m, u)))
    {
      var s := SetOf(c.block);
      assert ConsideredAt(pool, s, c.why, c.m, order, c.mi, u);
      var other := CandidateOf(pool, u, Counted(c.m, u));
      if u !in c.m {
        var j :| c.mi <= j < |order| && order[j] == u;
        assert other == Indexed(j) && !Stale(s, order[j], c.m, c.failed);
      }
      assert RemainsWith(s, c.m, c.failed, c.mi, other);
    }

    /** The next entry of the index pays less than the floor. */
    ghost predicate FloorFirst(mi: nat) {
      && mi < |order| && order[mi] in pool.entries
      && pool.entries[order[mi]].total.fees < minFee(pool.entries[order[mi]].total.size)
    }

    /** The chosen candidate leads. */
    method Lead(m: Modified, failed: set<TxId>, ghost why: Reasons, mi: nat)
      returns (t: TxId, total: Total, usingModified: bool)
      requires Valid() && Progress(inBlock, m, failed, why, mi) && (mi < |order| || |m| > 0)
      requires mi < |order| ==> !SkipMapTxEntry(order[mi], m, failed)
      ensures Leads(inBlock, m, failed, mi, why, t, total)
      ensures if usingModified then t in m else mi < |order| && t == order[mi] && total == pool.entries[t].total
    {
      CoversIsSized(failed, m);
      t, total, usingModified := Choose(m, mi);
      ChosenCovered(inBlock, m, failed, why, mi, t, total, usingModified);
      ChosenRemains(m, failed, mi, t, total, usingModified);
      if InScoreOrder() {
        ChosenIsBest(m, failed, mi, t, total, usingModified);
      }
    }

    lemma StopsBelow(m: Modified, failed: set<TxId>, mi: nat, why: Reasons, t: TxId, total: Total)
      requires Given() && Leads(inBlock, m, failed, mi, why, t, total) && total.fees < minFee(total.size)
      ensures StopsRightly(BelowMinFee(t, total), m, failed, mi)
    {
      if InScoreOrder() {
        CoversIsSized(failed, m);
        CoveredSized(pool, inBlock, t, total, false);
        BestPaysMost(m, failed, mi, CandidateOf(pool, t, total));
      }
    }

    /** A candidate is considered. */
    method Consider(m: Modified, failed: set<TxId>, ghost why: Reasons, mi: nat, nFailed: nat, ghost recent: set<TxId>)
      returns (m': Modified, failed': set<TxId>, mi': nat, nFailed': nat, verdict: Verdict, outcome: Outcome,
               ghost why': Reasons, ghost recent': set<TxId>, ghost made: seq<Choice>)
      requires Valid() && Progress(inBlock, m, failed, why, mi) && (mi < |order| || |m| > 0)
      requires mi < |order| ==> !SkipMapTxEntry(order[mi], m, failed)
      requires Streak(Full(), recent, m, failed, why, mi, nFailed)
      modifies this
      ensures Valid() && Progress(inBlock, m', failed', why', mi')
      ensures Shrinks(old(inBlock), inBlock, mi, mi', m, m', outcome)
      ensures !outcome.Exhausted? && StopsRightly(outcome, m', failed', mi')
      ensures Streak(Full(), recent', m', failed', why', mi', nFailed')
      ensures outcome.GaveUp? ==> nFailed' > MAX_CONSECUTIVE_FAILURES
      ensures m == map[] && FloorFirst(mi) ==> outcome == BelowMinFee(order[mi], pool.entries[order[mi]].total) && block == old(block)
      ensures Makes(Good(), made, old(block), why, block, why', verdict)
      ensures outcome.BelowMinFee? <==> made == []
      ensures nFailed' == (if verdict == Taken then 0 else if verdict == TooBig then nFailed + 1 else nFailed)
      ensures outcome.GaveUp? <==> GivesUp(maxWeight, verdict, nFailed', nBlockWeight)
    {
      m', failed', mi', nFailed', why', verdict, outcome := m, failed, mi, nFailed, why, NotFinal, Going;
      recent', made := recent, [];
      var t, total, usingModified := Lead(m, failed, why, mi);
      if total.fees < minFee(total.size) {
        StopsBelow(m, failed, mi, why, t, total);
        outcome := BelowMinFee(t, total);
      } else {
        m', failed', mi', nFailed', verdict, outcome, why', recent', made :=
          Decide(m, failed, why, mi, nFailed, recent, t, total, usingModified);
      }
    }

    /** A candidate that pays the floor. */
    method Decide(m: Modified, failed: set<TxId>, ghost why: Reasons, mi: nat, nFailed: nat, ghost recent: set<TxId>,
                  t: TxId, total: Total, usingModified: bool)
      returns (m': Modified, failed': set<TxId>, mi': nat, nFailed': nat, verdict: Verdict, outcome: Outcome,
               ghost why': Reasons, ghost recent': set<TxId>, ghost made: seq<Choice>)
      requires Valid() && Leads(inBlock, m, failed, mi, why, t, total) && total.fees >= minFee(total.size)
      requires Streak(Full(), recent, m, failed, why, mi, nFailed)
      requires if usingModified then t in m else mi < |order| && t == order[mi] && !SkipMapTxEntry(t, m, failed)
      modifies this
      ensures Valid() && Progress(inBlock, m', failed', why', mi')
      ensures Shrinks(old(inBlock), inBlock, mi, mi', m, m', outcome)
      ensures outcome == Going || outcome == GaveUp
      ensures Streak(Full(), recent', m', failed', why', mi', nFailed')
      ensures made != [] && Makes(Good(), made, old(block), why, block, why', verdict)
      ensures nFailed' == (if verdict == Taken then 0 else if verdict == TooBig then nFailed + 1 else nFailed)
      ensures outcome.GaveUp? <==> GivesUp(maxWeight, verdict, nFailed', nBlockWeight)
    {
      m', failed', mi', nFailed', verdict, why', recent' :=
        Evaluate(m, failed, why, mi, nFailed, recent, t, total, usingModified);
      outcome := Going;
      MakesOne(old(block), m, failed, mi, why, t, total, verdict, block);
      made := [Choice(old(block), m, failed, mi, why, t, total, verdict, block)];
      if verdict == TooBig && nFailed' > MAX_CONSECUTIVE_FAILURES && nBlockWeight > maxWeight - 4000 {
        outcome := GaveUp;
      }
    }

    /** One round of the loop: a stale entry of the index is passed, or a candidate is considered. */
    method Round(m: Modified, failed: set<TxId>, ghost why: Reasons, mi: nat, nFailed: nat, ghost recent: set<TxId>)
      returns (m': Modified, failed': set<TxId>, mi': nat, nFailed': nat, verdict: Verdict, outcome: Outcome,
               ghost why': Reasons, ghost recent': set<TxId>, ghost made: seq<Choice>)
      requires Valid() && Progress(inBlock, m, failed, why, mi) && (mi < |order| || |m| > 0)
      requires Streak(Full(), recent, m, failed, why, mi, nFailed)
      modifies this
      ensures Valid() && Progress(inBlock, m', failed', why', mi')
      ensures Shrinks(old(inBlock), inBlock, mi, mi', m, m', outcome)
      ensures !outcome.Exhausted? && StopsRightly(outcome, m', failed', mi')
      ensures Streak(Full(), recent', m', failed', why', mi', nFailed')
      ensures outcome.GaveUp? ==> nFailed' > MAX_CONSECUTIVE_FAILURES
      ensures m == map[] && failed == {} && old(inBlock) == {} && FloorFirst(mi) ==>
                outcome == BelowMinFee(order[mi], pool.entries[order[mi]].total) && block == old(block)
      ensures Makes(Good(), made, old(block), why, block, why', verdict)
      ensures nFailed' == (if verdict == Taken then 0 else if verdict == TooBig then nFailed + 1 else nFailed)
      ensures outcome.GaveUp? <==> GivesUp(maxWeight, verdict, nFailed', nBlockWeight)
    {
      if mi < |order| && SkipMapTxEntry(order[mi], m, failed) {
        Advance(inBlock, m, failed, why, mi);
        StreakAdvances(Full(), recent, m, failed, why, mi, nFailed);
        return m, failed, mi + 1, nFailed, NotFinal, Going, why, recent, [];
      }
      m', failed', mi', nFailed', verdict, outcome, why', recent', made := Consider(m, failed, why, mi, nFailed, recent);
    }

    /** A round, with the count of packages and the choices of the run so far, which began with the block `first`. */
    method CountedRound(m: Modified, failed: set<TxId>, ghost why: Reasons, mi: nat, nFailed: nat, ghost recent: set<TxId>,
                        nPackages: nat, ghost choices: seq<Choice>, ghost first: seq<TxId>)
      returns (m': Modified, failed': set<TxId>, mi': nat, nFailed': nat, nPackages': nat, outcome: Outcome,
               ghost why': Reasons, ghost recent': set<TxId>, ghost choices': seq<Choice>)
      requires Valid() && Progress(inBlock, m, failed, why, mi) && (mi < |order| || |m| > 0)
      requires Streak(Full(), recent, m, failed, why, mi, nFailed)
      requires Chosen(Good(), choices, first, block, why) && nPackages == TakenIn(choices)
      requires nFailed == FailedIn(choices) && GoesOn(pool, maxWeight, choices) && !GivesUpAfter(pool, maxWeight, choices)
      modifies this
      ensures Valid() && Progress(inBlock, m', failed', why', mi')
      ensures Shrinks(old(inBlock), inBlock, mi, mi', m, m', outcome)
      ensures !outcome.Exhausted? && StopsRightly(outcome, m', failed', mi')
      ensures Streak(Full(), recent', m', failed', why', mi', nFailed')
      ensures outcome.GaveUp? ==> nFailed' > MAX_CONSECUTIVE_FAILURES
      ensures m == map[] && failed == {} && old(inBlock) == {} && FloorFirst(mi) ==>
                outcome == BelowMinFee(order[mi], pool.entries[order[mi]].total) && block == old(block)
      ensures Chosen(Good(), choices', first, block, why') && nPackages' == TakenIn(choices')
      ensures nFailed' == FailedIn(choices') && GoesOn(pool, maxWeight, choices')
      ensures outcome.GaveUp? <==> GivesUpAfter(pool, maxWeight, choices')
    {
      var verdict;
      ghost var made;
      m', failed', mi', nFailed', verdict, outcome, why', recent', made := Round(m, failed, why, mi, nFailed, recent);
      MakesMore(Good(), choices, first, made, old(block), why, block, why', verdict);
      TallyIsSum(pool, block, nBlockWeight, nBlockSigOpsCost, nFees);
      GoesOnMore(pool, maxWeight, Good(), choices, made, old(block), why, block, why', verdict, nFailed, nFailed');
      choices' := choices + made;
      nPackages' := if verdict == Taken then nPackages + 1 else nPackages;
    }

    /** A round that does not end the loop takes something, passes an index entry, or drops a modified one. */
    ghost predicate Shrinks(s: set<TxId>, s': set<TxId>, mi: nat, mi': nat, m: Modified, m': Modified, outcome: Outcome) {
      outcome == Going ==>
        || pool.entries.Keys - s' < pool.entries.Keys - s
        || (s' == s && (mi' == mi + 1 || (mi' == mi && |m'| < |m|)))
    }

    /** The descendants of what is already in the block start out modified. */
    method Start() returns (m: Modified)
      requires Valid()
      ensures Progress(inBlock, m, {}, map[], 0)
      ensures inBlock == {} ==> m == map[]
    {
      m := UpdatePackagesForAdded(inBlock, map[]);
      StartsOk(m);
    }

    /** Greedy selection. The block stays ordered, closed and within its limits, and every transaction not taken was
        rejected for a reason that still stands, or is left to be considered; nothing is left unless the best candidate
        left pays too little, or, on a nearly full block, more candidates in a row than allowed did not fit. */
    method AddPackageTxs() returns (outcome: Outcome, nPackagesSelected: nat, ghost why: Reasons, ghost m: Modified,
                                    ghost failed: set<TxId>, ghost mi: nat, ghost recent: set<TxId>, ghost nFailed: nat,
                                    ghost choices: seq<Choice>)
      requires Valid()
      modifies this
      ensures Valid() && old(block) <= block
      ensures forall t :: t in inBlock - old(inBlock) ==> eligible(t)
      ensures ReasonsOk(pool, inBlock, maxWeight, eligible, why)
      ensures mi <= |order| && Considered(pool, inBlock, why, m, order, mi)
      ensures Covers(pool, inBlock, inBlock, failed, m)
      ensures outcome != Going
      ensures outcome.Exhausted? ==> m == map[] && mi == |order|
      ensures StopsRightly(outcome, m, failed, mi)
      ensures old(inBlock) == {} && FloorFirst(0) ==>
                outcome == BelowMinFee(order[0], pool.entries[order[0]].total) && block == old(block)
      ensures Streak(Full(), recent, m, failed, why, mi, nFailed)
      ensures outcome.GaveUp? ==> nFailed > MAX_CONSECUTIVE_FAILURES
      ensures Chosen(Good(), choices, old(block), block, why) && nPackagesSelected == TakenIn(choices)
      ensures GoesOn(pool, maxWeight, choices) && (outcome.GaveUp? <==> GivesUpAfter(pool, maxWeight, choices))
    {
      var failedTx: set<TxId> := {};
      var next: nat, nConsecutiveFailed: nat := 0, 0;
      outcome, nPackagesSelected, why, recent, choices := Going, 0, map[], {}, [];
      var mapModifiedTx := Start();
      while outcome == Going && (next < |order| || |mapModifiedTx| > 0)
        invariant Valid() && Progress(inBlock, mapModifiedTx, failedTx, why, next)
        invariant Streak(Full(), recent, mapModifiedTx, failedTx, why, next, nConsecutiveFailed)
        invariant Chosen(Good(), choices, old(block), block, why) && nPackagesSelected == TakenIn(choices)
        invariant nConsecutiveFailed == FailedIn(choices) && GoesOn(pool, maxWeight, choices)
        invariant outcome.GaveUp? <==> GivesUpAfter(pool, maxWeight, choices)
        invariant !outcome.Exhausted? && StopsRightly(outcome, mapModifiedTx, failedTx, next)
        invariant outcome.GaveUp? ==> nConsecutiveFailed > MAX_CONSECUTIVE_FAILURES
        invariant old(inBlock) == {} && FloorFirst(0) ==>
                    if outcome == Going then next == 0 && mapModifiedTx == map[] && failedTx == {} && inBlock == {}
                    else outcome == BelowMinFee(order[0], pool.entries[order[0]].total) && block == old(block)
        decreases outcome == Going, pool.entries.Keys - inBlock, |order| - next, |mapModifiedTx|
      {
        mapModifiedTx, failedTx, next, nConsecutiveFailed, nPackagesSelected, outcome, why, recent, choices :=
          CountedRound(mapModifiedTx, failedTx, why, next, nConsecutiveFailed, recent, nPackagesSelected, choices, old(block));
      }
      ChosenEligible(choices, old(block), block, why);
      m, failed, mi, nFailed := mapModifiedTx, failedTx, next, nConsecutiveFailed;
      if outcome == Going {
        assert m == map[];
        outcome := Exhausted;
      }
    }

    lemma StartsOk(m: Modified)
      requires Valid() && m == AfterUpdate(pool, inBlock, map[], inBlock)
      ensures Progress(inBlock, m, {}, map[], 0)
    {
      NothingCovered(pool, inBlock);
      UpdateKeeps(pool, {}, inBlock, {}, map[], inBlock, inBlock);
      assert {} + inBlock == inBlock;
      assert order[0..] == order;
      forall t ensures ConsideredAt(pool, inBlock, map[], m, order, 0, t) {
        assert t in pool.entries ==> t in SetOf(order);
      }
      forall t ensures ReasonAt(pool, inBlock, maxWeight, eligible, map[], t) {
      }
    }
  }
}
