/**
 Block template selection: packages of a transaction and its not yet selected ancestors are
 taken greedily by feerate from a mempool, with cached totals that go stale and are patched.

 The mempool is any finite acyclic set of entries with exact ancestor sets and totals.
 Feerates are compared as exact integers where the source multiplies doubles.
 */
module BlockAssembler {
  import Sets

  datatype TxId = TxId(hash: nat)

  /** Size, modified fees and signature cost of a transaction with ancestors. */
  datatype Total = Total(size: int, fees: int, sigOps: int)

  datatype Entry = Entry(
    size: nat, weight: nat, sigOps: nat, fee: int, modifiedFee: int,
    count: nat, total: Total)

  datatype Pool = Pool(entries: map<TxId, Entry>, anc: map<TxId, set<TxId>>)

  const WITNESS_SCALE_FACTOR := 4
  const MAX_BLOCK_SIGOPS_COST := 80000
  const COINBASE_WEIGHT := 4000
  const COINBASE_SIGOPS := 400
  const MAX_CONSECUTIVE_FAILURES := 1000

  // ----- sums over sets of transactions -----

  ghost function AnyOf(s: set<TxId>): (t: TxId)
    requires |s| > 0
    ensures t in s
  {
    var t :| t in s;
    t
  }

  ghost function Sum(s: set<TxId>, f: TxId -> int): int
    decreases |s|
  {
    if |s| == 0 then 0 else f(AnyOf(s)) + Sum(s - {AnyOf(s)}, f)
  }

  lemma {:induction false} SumRemove(s: set<TxId>, t: TxId, f: TxId -> int)
    requires t in s
    ensures Sum(s, f) == f(t) + Sum(s - {t}, f)
    decreases |s|
  {
    var u := AnyOf(s);
    if u != t {
      SumRemove(s - {u}, t, f);
      assert s - {u} - {t} == s - {t} - {u};
      SumRemove(s - {t}, u, f);
    }
  }

  lemma {:induction false} SumSubset(a: set<TxId>, b: set<TxId>, f: TxId -> int)
    requires a <= b && forall t :: f(t) >= 0
    ensures Sum(a, f) <= Sum(b, f)
    decreases |b|
  {
    if |a| == 0 {
      SumNonNegative(b, f);
    } else {
      var t :| t in a;
      SumRemove(a, t, f);
      SumRemove(b, t, f);
      SumSubset(a - {t}, b - {t}, f);
    }
  }

  lemma {:induction false} SumNonNegative(s: set<TxId>, f: TxId -> int)
    requires forall t :: f(t) >= 0
    ensures Sum(s, f) >= 0
    decreases |s|
  {
    if |s| > 0 {
      var t :| t in s;
      SumRemove(s, t, f);
      SumNonNegative(s - {t}, f);
    }
  }

  lemma {:induction false} SumBound(s: set<TxId>, f: TxId -> int, g: TxId -> int, k: int)
    requires forall t :: t in s ==> f(t) <= k * g(t)
    ensures Sum(s, f) <= k * Sum(s, g)
    decreases |s|
  {
    if |s| > 0 {
      var t :| t in s;
      SumRemove(s, t, f);
      SumRemove(s, t, g);
      SumBound(s - {t}, f, g, k);
      assert k * (g(t) + Sum(s - {t}, g)) == k * g(t) + k * Sum(s - {t}, g);
    }
  }

  // ----- the mempool -----

  function SizeOf(p: Pool): TxId -> int { (t: TxId) => if t in p.entries then p.entries[t].size else 0 }
  function WeightOf(p: Pool): TxId -> int { (t: TxId) => if t in p.entries then p.entries[t].weight else 0 }
  function SigOpsOf(p: Pool): TxId -> int { (t: TxId) => if t in p.entries then p.entries[t].sigOps else 0 }
  function FeeOf(p: Pool): TxId -> int { (t: TxId) => if t in p.entries then p.entries[t].fee else 0 }
  function ModifiedFeeOf(p: Pool): TxId -> int { (t: TxId) => if t in p.entries then p.entries[t].modifiedFee else 0 }

  function Ancestors(p: Pool, t: TxId): set<TxId> { if t in p.anc then p.anc[t] else {} }
  function Family(p: Pool, t: TxId): set<TxId> { Ancestors(p, t) + {t} }

  function Descendants(p: Pool, t: TxId): set<TxId> {
    set d | d in p.entries && (d == t || t in Ancestors(p, d))
  }

  ghost function TotalOf(p: Pool, s: set<TxId>): Total {
    Total(Sum(s, SizeOf(p)), Sum(s, ModifiedFeeOf(p)), Sum(s, SigOpsOf(p)))
  }

  /** An entry's ancestors are complete, do not include it, and its cached totals are exact. */
  ghost predicate EntryOk(p: Pool, t: TxId) {
    t in p.entries ==>
      && Ancestors(p, t) <= p.entries.Keys && t !in Ancestors(p, t)
      && (forall u :: u in Ancestors(p, t) ==> Ancestors(p, u) <= Ancestors(p, t))
      && p.entries[t].weight <= WITNESS_SCALE_FACTOR * p.entries[t].size && 0 < p.entries[t].size
      && p.entries[t].count == |Ancestors(p, t)| + 1
      && p.entries[t].total == TotalOf(p, Family(p, t))
  }

  ghost predicate PoolOk(p: Pool) {
    forall t {:trigger EntryOk(p, t)} :: EntryOk(p, t)
  }

  // ----- topological order -----

  function SetOf(block: seq<TxId>): set<TxId> { set t | t in block }

  /** Every transaction comes after all of its ancestors, so the block is also closed. */
  ghost predicate Topological(p: Pool, block: seq<TxId>) {
    forall i :: 0 <= i < |block| ==> Ancestors(p, block[i]) <= SetOf(block[..i])
  }

  predicate Distinct(block: seq<TxId>) {
    forall i, j :: 0 <= i < j < |block| ==> block[i] != block[j]
  }

  lemma TopologicalIsClosed(p: Pool, block: seq<TxId>, t: TxId)
    requires Topological(p, block) && t in block
    ensures Ancestors(p, t) <= SetOf(block)
  {
    var i :| 0 <= i < |block| && block[i] == t;
    assert SetOf(block[..i]) <= SetOf(block);
  }

  /** By ancestor count, then by hash. */
  predicate Precedes(p: Pool, a: TxId, b: TxId)
    requires a in p.entries && b in p.entries
  {
    if p.entries[a].count != p.entries[b].count then p.entries[a].count < p.entries[b].count else a.hash < b.hash
  }

  predicate SortedByCount(p: Pool, s: seq<TxId>) {
    && (forall t :: t in s ==> t in p.entries)
    && forall i, j :: 0 <= i < j < |s| ==> Precedes(p, s[i], s[j])
  }

  /** An ancestor has strictly fewer ancestors. */
  lemma AncestorCount(p: Pool, u: TxId, t: TxId)
    requires PoolOk(p) && t in p.entries && u in Ancestors(p, t)
    ensures u in p.entries && p.entries[u].count < p.entries[t].count
  {
    assert EntryOk(p, t) && EntryOk(p, u);
    Sets.SubsetSize(Ancestors(p, u) + {u}, Ancestors(p, t));
  }

  /** The package of `t`: itself and its ancestors that are not in the block. */
  function Package(p: Pool, inBlock: set<TxId>, t: TxId): set<TxId> { Family(p, t) - inBlock }

  lemma FamilyIsClosed(p: Pool, t: TxId, x: TxId, u: TxId)
    requires PoolOk(p) && t in p.entries && x in Family(p, t) && u in Ancestors(p, x)
    ensures u in Family(p, t) && x in p.entries
  {
    assert EntryOk(p, t);
  }

  lemma AncestorBefore(p: Pool, sorted: seq<TxId>, k: nat, u: TxId)
    requires PoolOk(p) && SortedByCount(p, sorted) && k < |sorted|
    requires u in Ancestors(p, sorted[k]) && u in sorted
    ensures u in sorted[..k]
  {
    AncestorCount(p, u, sorted[k]);
    var i :| 0 <= i < |sorted| && sorted[i] == u;
    assert k < i ==> Precedes(p, sorted[k], sorted[i]);
    assert sorted[..k][i] == u;
  }

  lemma PackageTopological(p: Pool, block: seq<TxId>, t: TxId, sorted: seq<TxId>, k: nat)
    requires PoolOk(p) && t in p.entries && k < |sorted|
    requires SortedByCount(p, sorted) && SetOf(sorted) == Package(p, SetOf(block), t)
    ensures Ancestors(p, sorted[k]) <= SetOf(block + sorted[..k])
  {
    assert sorted[k] in SetOf(sorted);
    forall u | u in Ancestors(p, sorted[k]) ensures u in block + sorted[..k] {
      FamilyIsClosed(p, t, sorted[k], u);
      if u !in block {
        assert u in SetOf(sorted);
        AncestorBefore(p, sorted, k, u);
      }
    }
  }

  /** Appending a package sorted by ancestor count keeps the block topological and repetition-free. */
  lemma AppendPackage(p: Pool, block: seq<TxId>, t: TxId, sorted: seq<TxId>)
    requires PoolOk(p) && Topological(p, block) && Distinct(block) && t in p.entries
    requires SortedByCount(p, sorted) && SetOf(sorted) == Package(p, SetOf(block), t)
    ensures Topological(p, block + sorted) && Distinct(block + sorted)
  {
    var all := block + sorted;
    forall i | 0 <= i < |all| ensures Ancestors(p, all[i]) <= SetOf(all[..i]) {
      if i < |block| {
        assert all[..i] == block[..i];
      } else {
        PackageTopological(p, block, t, sorted, i - |block|);
        assert all[..i] == block + sorted[..i - |block|];
      }
    }
    forall i, j | 0 <= i < j < |all| ensures all[i] != all[j] {
      if i >= |block| {
        assert Precedes(p, sorted[i - |block|], sorted[j - |block|]);
      } else if j >= |block| {
        assert sorted[j - |block|] in SetOf(sorted);
      }
    }
  }

  // ----- totals of transactions whose ancestors were included -----

  type Modified = map<TxId, Total>

  /** The total that is left when the transactions in `acc` are accounted for. */
  ghost predicate Covered(p: Pool, acc: set<TxId>, t: TxId, total: Total, exact: bool) {
    var size, sigOps := Sum(Package(p, acc, t), SizeOf(p)), Sum(Package(p, acc, t), SigOpsOf(p));
    && size <= total.size && sigOps <= total.sigOps
    && (exact ==> size == total.size && sigOps == total.sigOps)
  }

  ghost predicate FeesExact(p: Pool, acc: set<TxId>, t: TxId, total: Total) {
    total.fees == Sum(Package(p, acc, t), ModifiedFeeOf(p))
  }

  /** By how much the priority of a transaction was changed. */
  function DeltaOf(p: Pool): TxId -> int { (t: TxId) => ModifiedFeeOf(p)(t) - FeeOf(p)(t) }

  /** The fees of a modified total: those of what is left, and the deltas of the ancestors that were accounted for
      after the first one. */
  ghost predicate FeesOff(p: Pool, acc: set<TxId>, t: TxId, total: Total, first: TxId) {
    && first in Ancestors(p, t) * acc
    && total.fees == Sum(Package(p, acc, t), ModifiedFeeOf(p)) + Sum(Ancestors(p, t) * acc - {first}, DeltaOf(p))
  }

  ghost predicate FeesKnown(p: Pool, acc: set<TxId>, t: TxId, total: Total) {
    exists first :: FeesOff(p, acc, t, total, first)
  }

  /** A modified total is never too small, and exact unless the transaction failed before;
      a transaction without one, that did not fail, still has all of its ancestors to go. */
  ghost predicate CoversAt(p: Pool, acc: set<TxId>, block: set<TxId>, failed: set<TxId>, m: Modified, t: TxId) {
    && (t in m ==> t in p.entries && t !in block && Covered(p, acc, t, m[t], t !in failed))
    && (t in m && t !in failed ==> FeesKnown(p, acc, t, m[t]))
    && (t in p.entries && t !in m && t !in block && t !in failed ==> Ancestors(p, t) !! acc)
  }

  ghost predicate Covers(p: Pool, acc: set<TxId>, block: set<TxId>, failed: set<TxId>, m: Modified) {
    forall t {:trigger CoversAt(p, acc, block, failed, m, t)} :: CoversAt(p, acc, block, failed, m, t)
  }

  function Without(total: Total, p: Pool, t: TxId, fee: int): Total {
    Total(total.size - SizeOf(p)(t), total.fees - fee, total.sigOps - SigOpsOf(p)(t))
  }

  /** A first ancestor is subtracted with its modified fee from the cached total, a later one
      with its base fee from the modified total. */
  function PatchedAt(p: Pool, m: Modified, it: TxId, t: TxId): Total
    requires t in p.entries
  {
    if t in m then Without(m[t], p, it, FeeOf(p)(it)) else Without(p.entries[t].total, p, it, ModifiedFeeOf(p)(it))
  }

  function Patched(p: Pool, m: Modified, it: TxId, s: set<TxId>): Modified
    requires s <= p.entries.Keys
  {
    map t | t in m.Keys + s :: if t in s then PatchedAt(p, m, it, t) else m[t]
  }

  lemma PatchedStep(p: Pool, m: Modified, it: TxId, s: set<TxId>, d: TxId)
    requires s <= p.entries.Keys && d in p.entries && d !in s
    ensures Patched(p, m, it, s + {d}) == Patched(p, m, it, s)[d := PatchedAt(p, m, it, d)]
  {
  }

  /** The modified totals after `it` was included. */
  function AfterInclude(p: Pool, added: set<TxId>, m: Modified, it: TxId): Modified {
    Patched(p, m, it, Descendants(p, it) - added)
  }

  lemma PackageStep(p: Pool, acc: set<TxId>, t: TxId, it: TxId)
    requires it in Family(p, t) && it !in acc
    ensures it in Package(p, acc, t) && Package(p, acc + {it}, t) == Package(p, acc, t) - {it}
  {
  }

  lemma LeftStep(p: Pool, acc: set<TxId>, t: TxId, it: TxId, f: TxId -> int)
    requires it in Family(p, t) && it !in acc
    ensures Sum(Package(p, acc + {it}, t), f) == Sum(Package(p, acc, t), f) - f(it)
  {
    PackageStep(p, acc, t, it);
    SumRemove(Package(p, acc, t), it, f);
  }

  /** Accounting for one more member of the package. */
  lemma CoveredStep(p: Pool, acc: set<TxId>, t: TxId, total: Total, exact: bool, it: TxId, fee: int)
    requires Covered(p, acc, t, total, exact) && it in Family(p, t) && it !in acc
    ensures Covered(p, acc + {it}, t, Without(total, p, it, fee), exact)
  {
    LeftStep(p, acc, t, it, SizeOf(p));
    LeftStep(p, acc, t, it, SigOpsOf(p));
  }

  /** The fees are those of what is left exactly if the deltas of the later ancestors cancel. */
  lemma FeesExactWhen(p: Pool, acc: set<TxId>, t: TxId, total: Total, first: TxId)
    requires FeesOff(p, acc, t, total, first)
    ensures FeesExact(p, acc, t, total) <==> Sum(Ancestors(p, t) * acc - {first}, DeltaOf(p)) == 0
  {
  }

  /** A total that is patched for the first time: `it` is the first ancestor, taken off with its modified fee. */
  lemma FirstFee(p: Pool, acc: set<TxId>, t: TxId, total: Total, it: TxId)
    requires FeesExact(p, acc, t, total) && Ancestors(p, t) !! acc && it in Ancestors(p, t) && it !in acc
    ensures FeesOff(p, acc + {it}, t, Without(total, p, it, ModifiedFeeOf(p)(it)), it)
  {
    LeftStep(p, acc, t, it, ModifiedFeeOf(p));
    assert Ancestors(p, t) * (acc + {it}) - {it} == {};
  }

  /** And again: a later ancestor is taken off with its base fee, so its delta stays. */
  lemma LaterFee(p: Pool, acc: set<TxId>, t: TxId, total: Total, first: TxId, it: TxId)
    requires FeesOff(p, acc, t, total, first) && it in Ancestors(p, t) && it !in acc
    ensures FeesOff(p, acc + {it}, t, Without(total, p, it, FeeOf(p)(it)), first)
  {
    LeftStep(p, acc, t, it, ModifiedFeeOf(p));
    OneMore(Ancestors(p, t), acc, first, it, DeltaOf(p));
  }

  lemma OneMore(all: set<TxId>, acc: set<TxId>, first: TxId, it: TxId, f: TxId -> int)
    requires it in all && it !in acc && it != first
    ensures Sum(all * (acc + {it}) - {first}, f) == Sum(all * acc - {first}, f) + f(it)
  {
    var after := all * (acc + {it}) - {first};
    assert after - {it} == all * acc - {first};
    SumRemove(after, it, f);
  }

  /** The cached total covers what is left of any package; untouched, it is exact, and so are its fees. */
  lemma CachedCovers(p: Pool, acc: set<TxId>, t: TxId)
    requires PoolOk(p) && t in p.entries && t !in acc
    ensures Covered(p, acc, t, p.entries[t].total, Ancestors(p, t) !! acc)
    ensures Ancestors(p, t) !! acc ==> FeesExact(p, acc, t, p.entries[t].total)
  {
    assert EntryOk(p, t);
    var package, family := Package(p, acc, t), Family(p, t);
    assert package <= family && (Ancestors(p, t) !! acc ==> package == family);
    SumSubset(package, family, SizeOf(p));
    SumSubset(package, family, SigOpsOf(p));
  }

  /** The descendants of `it` that are in the block came with it. */
  ghost predicate NewInBlock(p: Pool, block: set<TxId>, added: set<TxId>, it: TxId) {
    Descendants(p, it) * block <= added
  }

  lemma IncludeKeeps(p: Pool, acc: set<TxId>, block: set<TxId>, failed: set<TxId>, m: Modified, added: set<TxId>, it: TxId)
    requires PoolOk(p) && Covers(p, acc, block, failed, m) && acc <= block && added <= block
    requires it in p.entries && it in added && it !in acc
    requires NewInBlock(p, block, added, it)
    ensures Covers(p, acc + {it}, block, failed, AfterInclude(p, added, m, it))
  {
    var m' := AfterInclude(p, added, m, it);
    forall t ensures CoversAt(p, acc + {it}, block, failed, m', t) {
      assert CoversAt(p, acc, block, failed, m, t);
      if t in Descendants(p, it) && t !in added {
        IncludeDescendant(p, acc, block, failed, m, it, t);
      } else {
        IncludeOther(p, acc, block, failed, m, it, t);
      }
    }
  }

  lemma IncludeOther(p: Pool, acc: set<TxId>, block: set<TxId>, failed: set<TxId>, m: Modified, it: TxId, t: TxId)
    requires CoversAt(p, acc, block, failed, m, t) && it in p.entries && (t !in Descendants(p, it) || t in block)
    ensures CoversAt(p, acc + {it}, block, failed, m, t)
  {
    if t in p.entries && t !in block {
      assert it !in Family(p, t);
      assert Package(p, acc + {it}, t) == Package(p, acc, t);
      assert Ancestors(p, t) * (acc + {it}) == Ancestors(p, t) * acc;
      if t in m && t !in failed {
        var first :| FeesOff(p, acc, t, m[t], first);
        assert FeesOff(p, acc + {it}, t, m[t], first);
      }
    }
  }

  lemma IncludeDescendant(p: Pool, acc: set<TxId>, block: set<TxId>, failed: set<TxId>, m: Modified, it: TxId, t: TxId)
    requires PoolOk(p) && CoversAt(p, acc, block, failed, m, t) && acc <= block && it !in acc
    requires t in Descendants(p, it) && t !in block && t != it
    ensures Covered(p, acc + {it}, t, PatchedAt(p, m, it, t), t !in failed)
    ensures t !in failed ==> FeesKnown(p, acc + {it}, t, PatchedAt(p, m, it, t))
  {
    if t in m {
      CoveredStep(p, acc, t, m[t], t !in failed, it, FeeOf(p)(it));
      if t !in failed {
        var first :| FeesOff(p, acc, t, m[t], first);
        LaterFee(p, acc, t, m[t], first, it);
      }
    } else {
      CachedCovers(p, acc, t);
      CoveredStep(p, acc, t, p.entries[t].total, t !in failed, it, ModifiedFeeOf(p)(it));
      if t !in failed {
        FirstFee(p, acc, t, p.entries[t].total, it);
      }
    }
  }

  // ----- updating for a whole package, lowest hash first -----

  predicate IsLowest(s: set<TxId>, t: TxId) {
    t in s && forall u :: u in s ==> t.hash <= u.hash
  }

  lemma {:induction false} LowestExists(s: set<TxId>) returns (t: TxId)
    requires |s| > 0
    ensures IsLowest(s, t)
    decreases |s|
  {
    t :| t in s;
    var others := s - {t};
    assert forall u :: u in s ==> u == t || u in others;
    if |others| > 0 {
      var low := LowestExists(others);
      if low.hash < t.hash { t := low; }
    }
  }

  lemma HasLowest(s: set<TxId>)
    requires |s| > 0
    ensures exists t :: IsLowest(s, t)
  {
    var t := LowestExists(s);
  }

  ghost function Lowest(s: set<TxId>): (t: TxId)
    requires |s| > 0
    ensures IsLowest(s, t)
  {
    HasLowest(s);
    var t :| IsLowest(s, t);
    t
  }

  ghost function AfterUpdate(p: Pool, added: set<TxId>, m: Modified, todo: set<TxId>): Modified
    decreases |todo|
  {
    if |todo| == 0 then m
    else AfterUpdate(p, added, AfterInclude(p, added, m, Lowest(todo)), todo - {Lowest(todo)})
  }

  lemma {:induction false} UpdateKeeps(p: Pool, acc: set<TxId>, block: set<TxId>, failed: set<TxId>, m: Modified,
                                       added: set<TxId>, todo: set<TxId>)
    requires PoolOk(p) && Covers(p, acc, block, failed, m) && acc <= block && added <= block
    requires todo <= added && added <= p.entries.Keys && todo !! acc
    requires forall x :: x in todo ==> NewInBlock(p, block, added, x)
    ensures Covers(p, acc + todo, block, failed, AfterUpdate(p, added, m, todo))
    decreases |todo|
  {
    if |todo| == 0 {
      assert acc + todo == acc;
    } else {
      var it := Lowest(todo);
      var m1 := AfterInclude(p, added, m, it);
      IncludeKeeps(p, acc, block, failed, m, added, it);
      assert acc + {it} + (todo - {it}) == acc + todo;
      UpdateKeeps(p, acc + {it}, block, failed, m1, added, todo - {it});
    }
  }

  /** A descendant of a transaction that was not in the closed block is not in it either. */
  lemma NoDescendantInBlock(p: Pool, block: set<TxId>, package: set<TxId>, x: TxId)
    requires forall t :: t in block ==> Ancestors(p, t) <= block
    requires x in package && package !! block
    ensures NewInBlock(p, block + package, package, x)
  {
    forall d | d in Descendants(p, x) && d in block + package ensures d in package {
      assert d in block ==> Ancestors(p, d) <= block;
    }
  }

  lemma {:induction false} SumOfZeros(s: set<TxId>, f: TxId -> int)
    requires forall t :: t in s ==> f(t) == 0
    ensures Sum(s, f) == 0
    decreases |s|
  {
    if |s| > 0 {
      SumOfZeros(s - {AnyOf(s)}, f);
    }
  }

  /** The fees of every modified total that did not fail before: off by the deltas of the included ancestors but the
      first, so they are exact if and only if those cancel, and in particular if none has one. */
  lemma ModifiedFees(p: Pool, block: set<TxId>, failed: set<TxId>, m: Modified, t: TxId) returns (first: TxId)
    requires Covers(p, block, block, failed, m) && t in m && t !in failed
    ensures first in Ancestors(p, t) * block
    ensures m[t].fees == Sum(Package(p, block, t), ModifiedFeeOf(p)) + Sum(Ancestors(p, t) * block - {first}, DeltaOf(p))
    ensures FeesExact(p, block, t, m[t]) <==> Sum(Ancestors(p, t) * block - {first}, DeltaOf(p)) == 0
    ensures (forall x :: x in Ancestors(p, t) * block && x != first ==> DeltaOf(p)(x) == 0) ==>
              FeesExact(p, block, t, m[t])
  {
    assert CoversAt(p, block, block, failed, m, t);
    first :| FeesOff(p, block, t, m[t], first);
    FeesExactWhen(p, block, t, m[t], first);
    if forall x :: x in Ancestors(p, t) * block && x != first ==> DeltaOf(p)(x) == 0 {
      SumOfZeros(Ancestors(p, t) * block - {first}, DeltaOf(p));
    }
  }

  // ----- the order by feerate -----

  /** What the comparator looks at. */
  datatype Candidate = Candidate(id: TxId, modifiedFee: int, size: int, total: Total)

  function CandidateOf(p: Pool, t: TxId, total: Total): Candidate
    requires t in p.entries
  {
    Candidate(t, p.entries[t].modifiedFee, p.entries[t].size, total)
  }

  datatype Rate = Rate(fee: int, size: int)

  /** The lower of the feerates with and without ancestors. */
  function RateOf(c: Candidate): Rate {
    if c.modifiedFee * c.total.size > c.total.fees * c.size
    then Rate(c.total.fees, c.total.size) else Rate(c.modifiedFee, c.size)
  }

  /** Positive if `a` is the higher feerate. */
  function RateDiff(a: Rate, b: Rate): int { a.fee * b.size - a.size * b.fee }

  predicate Better(a: Candidate, b: Candidate) {
    var d := RateDiff(RateOf(a), RateOf(b));
    if d == 0 then a.id.hash < b.id.hash else d > 0
  }

  predicate Sized(c: Candidate) { c.size > 0 && c.total.size > 0 }

  lemma RateDiffChain(a: Rate, b: Rate, c: Rate)
    requires a.size > 0 && b.size > 0 && c.size > 0 && RateDiff(a, b) >= 0 && RateDiff(b, c) >= 0
    ensures RateDiff(a, c) >= 0
    ensures RateDiff(a, c) == 0 ==> RateDiff(a, b) == 0 && RateDiff(b, c) == 0
  {
    var x, y, z := RateDiff(a, b), RateDiff(b, c), RateDiff(a, c);
    RateDiffIdentity(a, b, c);
    ProductSign(c.size, x);
    ProductSign(a.size, y);
    ProductSign(b.size, z);
  }

  lemma RateDiffIdentity(a: Rate, b: Rate, c: Rate)
    ensures b.size * RateDiff(a, c) == c.size * RateDiff(a, b) + a.size * RateDiff(b, c)
  {
    calc {
      c.size * RateDiff(a, b) + a.size * RateDiff(b, c);
      c.size * (a.fee * b.size) - c.size * (a.size * b.fee) + a.size * (b.fee * c.size) - a.size * (b.size * c.fee);
      b.size * (a.fee * c.size) - b.size * (a.size * c.fee);
      b.size * RateDiff(a, c);
    }
  }

  lemma ProductSign(k: int, x: int)
    requires k > 0
    ensures x > 0 ==> k * x > 0
    ensures x == 0 ==> k * x == 0
    ensures x < 0 ==> k * x < 0
  {
  }

  lemma RateDiffSwap(a: Rate, b: Rate)
    ensures RateDiff(a, b) == -RateDiff(b, a)
  {
  }

  /** The comparator is a strict total order on candidates with different hashes. */
  lemma BetterTransitive(a: Candidate, b: Candidate, c: Candidate)
    requires Sized(a) && Sized(b) && Sized(c) && Better(a, b) && Better(b, c)
    ensures Better(a, c)
  {
    RateDiffChain(RateOf(a), RateOf(b), RateOf(c));
  }

  lemma BetterTotal(a: Candidate, b: Candidate)
    requires a.id != b.id
    ensures Better(a, b) <==> !Better(b, a)
  {
    RateDiffSwap(RateOf(a), RateOf(b));
  }

  // ----- what is in the block, and what was left out -----

  lemma {:induction false} SumUnion(a: set<TxId>, b: set<TxId>, f: TxId -> int)
    requires a !! b
    ensures Sum(a + b, f) == Sum(a, f) + Sum(b, f)
    decreases |b|
  {
    if |b| == 0 {
      assert a + b == a;
    } else {
      var t :| t in b;
      SumRemove(b, t, f);
      SumRemove(a + b, t, f);
      assert a + b - {t} == a + (b - {t});
      SumUnion(a, b - {t}, f);
    }
  }

  ghost function BlockWeight(p: Pool, s: set<TxId>): int { COINBASE_WEIGHT + Sum(s, WeightOf(p)) }
  ghost function BlockSigOps(p: Pool, s: set<TxId>): int { COINBASE_SIGOPS + Sum(s, SigOpsOf(p)) }

  /** The limits on a package of the given total. */
  predicate Fits(weight: int, sigOps: int, maxWeight: int, total: Total) {
    weight + WITNESS_SCALE_FACTOR * total.size < maxWeight && sigOps + total.sigOps < MAX_BLOCK_SIGOPS_COST
  }

  /** A package that fits by a total that covers it keeps the block within its limits. */
  lemma PackageFits(p: Pool, s: set<TxId>, t: TxId, total: Total, exact: bool, maxWeight: int)
    requires PoolOk(p) && t in p.entries && Covered(p, s, t, total, exact)
    requires Fits(BlockWeight(p, s), BlockSigOps(p, s), maxWeight, total)
    ensures BlockWeight(p, s + Package(p, s, t)) < maxWeight
    ensures BlockSigOps(p, s + Package(p, s, t)) < MAX_BLOCK_SIGOPS_COST
  {
    var package := Package(p, s, t);
    SumUnion(s, package, WeightOf(p));
    SumUnion(s, package, SigOpsOf(p));
    assert EntryOk(p, t);
    forall u | u in package ensures WeightOf(p)(u) <= WITNESS_SCALE_FACTOR * SizeOf(p)(u) {
      assert EntryOk(p, u);
    }
    SumBound(package, WeightOf(p), SizeOf(p), WITNESS_SCALE_FACTOR);
  }

  lemma BlockGrows(p: Pool, s: set<TxId>, more: set<TxId>)
    requires s !! more
    ensures BlockWeight(p, s) <= BlockWeight(p, s + more) && BlockSigOps(p, s) <= BlockSigOps(p, s + more)
  {
    SumSubset(s, s + more, WeightOf(p));
    SumSubset(s, s + more, SigOpsOf(p));
  }

  /** Why `t` is not in the block: a total that covers what is left of its package did not fit,
      or a member of that package may not be mined yet. */
  ghost predicate Rejected(p: Pool, s: set<TxId>, maxWeight: int, eligible: TxId -> bool, t: TxId, total: Total) {
    || (Covered(p, s, t, total, false) && !Fits(BlockWeight(p, s), BlockSigOps(p, s), maxWeight, total))
    || exists u :: u in Package(p, s, t) && !eligible(u)
  }

  lemma RejectedBySize(p: Pool, s: set<TxId>, maxWeight: int, eligible: TxId -> bool, t: TxId, total: Total)
    requires Covered(p, s, t, total, false) && !Fits(BlockWeight(p, s), BlockSigOps(p, s), maxWeight, total)
    ensures Rejected(p, s, maxWeight, eligible, t, total)
  {
  }

  lemma RejectedByMember(p: Pool, s: set<TxId>, maxWeight: int, eligible: TxId -> bool, t: TxId, total: Total)
    requires !forall u :: u in Package(p, s, t) ==> eligible(u)
    ensures Rejected(p, s, maxWeight, eligible, t, total)
  {
  }

  lemma PackageOf(p: Pool, s: set<TxId>, t: TxId)
    requires t !in s
    ensures Ancestors(p, t) - s + {t} == Package(p, s, t)
  {
  }

  /** The reason stands when more transactions are taken. */
  lemma RejectedStays(p: Pool, s: set<TxId>, more: set<TxId>, maxWeight: int, eligible: TxId -> bool, t: TxId, total: Total)
    requires Rejected(p, s, maxWeight, eligible, t, total) && s !! more
    requires forall u :: u in more ==> eligible(u)
    ensures Rejected(p, s + more, maxWeight, eligible, t, total)
  {
    if u :| u in Package(p, s, t) && !eligible(u) {
      assert u in Package(p, s + more, t);
    } else {
      CoveredShrinks(p, s, more, t, total);
      BlockGrows(p, s, more);
    }
  }

  lemma CoveredShrinks(p: Pool, s: set<TxId>, more: set<TxId>, t: TxId, total: Total)
    requires Covered(p, s, t, total, false)
    ensures Covered(p, s + more, t, total, false)
  {
    var after, before := Package(p, s + more, t), Package(p, s, t);
    assert after <= before;
    SumSubset(after, before, SizeOf(p));
    SumSubset(after, before, SigOpsOf(p));
  }

  type Reasons = map<TxId, Total>

  ghost predicate ReasonsOk(p: Pool, s: set<TxId>, maxWeight: int, eligible: TxId -> bool, why: Reasons) {
    forall t {:trigger ReasonAt(p, s, maxWeight, eligible, why, t)} :: ReasonAt(p, s, maxWeight, eligible, why, t)
  }

  ghost predicate ReasonAt(p: Pool, s: set<TxId>, maxWeight: int, eligible: TxId -> bool, why: Reasons, t: TxId) {
    t in why ==> Rejected(p, s, maxWeight, eligible, t, why[t])
  }

  lemma ReasonsStay(p: Pool, s: set<TxId>, more: set<TxId>, maxWeight: int, eligible: TxId -> bool, why: Reasons)
    requires ReasonsOk(p, s, maxWeight, eligible, why) && s !! more
    requires forall u :: u in more ==> eligible(u)
    ensures ReasonsOk(p, s + more, maxWeight, eligible, why)
  {
    forall t ensures ReasonAt(p, s + more, maxWeight, eligible, why, t) {
      assert ReasonAt(p, s, maxWeight, eligible, why, t);
      if t in why {
        RejectedStays(p, s, more, maxWeight, eligible, t, why[t]);
      }
    }
  }

  /** Every transaction is in the block, was rejected for a reason that stands, or is still to come. */
  ghost predicate Considered(p: Pool, s: set<TxId>, why: Reasons, m: Modified, order: seq<TxId>, mi: nat)
    requires mi <= |order|
  {
    forall t {:trigger ConsideredAt(p, s, why, m, order, mi, t)} :: ConsideredAt(p, s, why, m, order, mi, t)
  }

  ghost predicate ConsideredAt(p: Pool, s: set<TxId>, why: Reasons, m: Modified, order: seq<TxId>, mi: nat, t: TxId)
    requires mi <= |order|
  {
    t in p.entries ==> t in s || t in why || t in m || t in order[mi..]
  }

  // ----- steps of the selection loop -----

  lemma CoveredSized(p: Pool, s: set<TxId>, t: TxId, total: Total, exact: bool)
    requires PoolOk(p) && t in p.entries && t !in s && Covered(p, s, t, total, exact)
    ensures Sized(CandidateOf(p, t, total))
  {
    assert EntryOk(p, t);
    SumRemove(Package(p, s, t), t, SizeOf(p));
    SumNonNegative(Package(p, s, t) - {t}, SizeOf(p));
  }

  /** A modified entry that fails is erased and remembered. */
  lemma EraseKeeps(p: Pool, s: set<TxId>, failed: set<TxId>, m: Modified, t: TxId)
    requires Covers(p, s, s, failed, m)
    ensures Covers(p, s, s, failed + {t}, m - {t})
  {
    forall u ensures CoversAt(p, s, s, failed + {t}, m - {t}, u) {
      assert CoversAt(p, s, s, failed, m, u);
    }
  }

  lemma NothingCovered(p: Pool, s: set<TxId>)
    ensures Covers(p, {}, s, {}, map[])
  {
    forall t ensures CoversAt(p, {}, s, {}, map[], t) {
    }
  }

  lemma {:induction false} UpdateKeepsKeys(p: Pool, added: set<TxId>, m: Modified, todo: set<TxId>)
    ensures m.Keys <= AfterUpdate(p, added, m, todo).Keys
    decreases |todo|
  {
    if |todo| > 0 {
      UpdateKeepsKeys(p, added, AfterInclude(p, added, m, Lowest(todo)), todo - {Lowest(todo)});
    }
  }

  /** Taking a package and patching the totals of its descendants keeps every total covering. */
  lemma TakeKeeps(p: Pool, s: set<TxId>, failed: set<TxId>, m: Modified, package: set<TxId>)
    requires PoolOk(p) && Covers(p, s, s, failed, m) && package <= p.entries.Keys && package !! s
    requires forall t :: t in s ==> Ancestors(p, t) <= s
    ensures Covers(p, s + package, s + package, failed, AfterUpdate(p, package, m - package, package))
  {
    forall t ensures CoversAt(p, s, s + package, failed, m - package, t) {
      assert CoversAt(p, s, s, failed, m, t);
    }
    forall x | x in package ensures NewInBlock(p, s + package, package, x) {
      NoDescendantInBlock(p, s, package, x);
    }
    UpdateKeeps(p, s, s + package, failed, m - package, package, package);
  }
}
