/**
 The coins (UTXO) cache stack: write-back caches with DIRTY/FRESH flags layered to any
 depth above a coin database.

 The first half models a stack as a value and proves that every operation refines a stack
 of plain maps from outpoints to unspent coins.  The second half is the mutable classes;
 each of their methods is proved to implement the corresponding function on stacks.
 */
module Coins {
  import opened Wrappers

  datatype OutPoint = OutPoint(txid: nat, n: nat)

  const OP_RETURN: bv8 := 0x6a
  const MAX_SCRIPT_SIZE := 10000
  const NULL_HASH: nat := 0
  const EMPTY_COIN := Coin(-1, [], 0, false)

  /** A transaction output with its height; a value of -1 marks the null output. */
  datatype Coin = Coin(value: int, script: seq<bv8>, height: nat, coinbase: bool) {
    predicate IsSpent() { value == -1 }

    predicate IsUnspendable() {
      (|script| > 0 && script[0] == OP_RETURN) || |script| > MAX_SCRIPT_SIZE
    }

    /** Heap bytes of the script: scripts of at most 28 bytes are stored inline. */
    function Usage(): nat {
      if |script| <= 28 then 0 else (|script| + 31) / 16 * 16
    }
  }

  /** A coin in one level of the hierarchy, with its two flags. */
  datatype Entry = Entry(coin: Coin, isDirty: bool, isFresh: bool) {
    function Unspent(): Option<Coin> {
      if coin.IsSpent() then None else Some(coin)
    }

    /** The five combinations of spent, DIRTY and FRESH that are allowed to occur. */
    predicate ValidFlags() {
      if coin.IsSpent() then isDirty != isFresh else isFresh ==> isDirty
    }
  }

  type CoinsMap = map<OutPoint, Entry>

  datatype Stack =
    | Db(coins: map<OutPoint, Coin>, best: nat)
    | Cache(entries: CoinsMap, usage: int, hashBlock: nat, base: Stack)

  // ----- the meaning of a stack -----

  /** The unspent coin that the top of the stack shows for `o`. */
  function Get(s: Stack, o: OutPoint): Option<Coin> {
    match s
    case Db(coins, _) => if o in coins && !coins[o].IsSpent() then Some(coins[o]) else None
    case Cache(entries, _, _, base) => if o in entries then entries[o].Unspent() else Get(base, o)
  }

  /** The best block that the top of the stack shows. */
  function Best(s: Stack): nat {
    match s
    case Db(_, best) => best
    case Cache(_, _, hashBlock, base) => if hashBlock == NULL_HASH then Best(base) else hashBlock
  }

  function Lookup<T>(m: map<OutPoint, T>, o: OutPoint): Option<T> {
    if o in m then Some(m[o]) else None
  }

  ghost function TotalUsage(entries: CoinsMap): nat {
    if entries == map[] then 0
    else
      var o :| o in entries;
      entries[o].coin.Usage() + TotalUsage(entries - {o})
  }

  /** What a level may assume about an entry, given the coin its parent shows. */
  predicate EntryOk(e: Entry, parent: Option<Coin>) {
    && e.ValidFlags()
    && (!e.isDirty ==> e.Unspent() == parent)
    && (e.isFresh ==> parent.None?)
  }

  ghost predicate Inv(s: Stack) {
    match s
    case Db(coins, _) => forall o :: o in coins ==> !coins[o].IsSpent()
    case Cache(entries, usage, _, base) =>
      && Inv(base)
      && (forall o :: o in entries ==> EntryOk(entries[o], Get(base, o)))
      && usage == TotalUsage(entries)
  }

  /** The reference: one plain map per level, the top first. */
  datatype Plain = Bottom(m: map<OutPoint, Coin>) | Layer(m: map<OutPoint, Coin>, below: Plain)

  ghost predicate Shows(s: Stack, m: map<OutPoint, Coin>) {
    forall o :: Get(s, o) == Lookup(m, o)
  }

  ghost predicate Represents(s: Stack, p: Plain) {
    && Shows(s, p.m)
    && match s
       case Db(_, _) => p.Bottom?
       case Cache(_, _, _, base) => p.Layer? && Represents(base, p.below)
  }

  // ----- the operations -----

  function FetchedEntry(c: Coin): Entry {
    Entry(c, false, c.IsSpent())
  }

  /** Reading `o` copies it from the parent into every level that did not have it. */
  function AfterFetch(s: Stack, o: OutPoint): Stack {
    match s
    case Db(_, _) => s
    case Cache(entries, usage, hashBlock, base) =>
      if o in entries then s
      else
        var base' := AfterFetch(base, o);
        match Get(base', o)
        case None => Cache(entries, usage, hashBlock, base')
        case Some(c) => Cache(entries[o := FetchedEntry(c)], usage + c.Usage(), hashBlock, base')
  }

  /** `AddCoin` throws when it is told no coin can be there and the cache holds one. */
  predicate AddThrows(s: Stack, o: OutPoint, coin: Coin, possibleOverwrite: bool)
    requires s.Cache?
  {
    !coin.IsUnspendable() && !possibleOverwrite && o in s.entries && !s.entries[o].coin.IsSpent()
  }

  function AfterAdd(s: Stack, o: OutPoint, coin: Coin, possibleOverwrite: bool): Stack
    requires s.Cache?
  {
    if coin.IsUnspendable() then s
    else
      var prev := if o in s.entries then s.entries[o] else Entry(EMPTY_COIN, false, false);
      if AddThrows(s, o, coin, possibleOverwrite) then s.(usage := s.usage - prev.coin.Usage())
      else
        var markFresh := !possibleOverwrite && !prev.isDirty;
        s.(entries := s.entries[o := Entry(coin, true, prev.isFresh || markFresh)],
           usage := s.usage - prev.coin.Usage() + coin.Usage())
  }

  function AfterSpend(s: Stack, o: OutPoint): Stack
    requires s.Cache?
  {
    var s' := AfterFetch(s, o);
    if o !in s'.entries then s'
    else
      var e := s'.entries[o];
      var usage := s'.usage - e.coin.Usage();
      if e.isFresh then s'.(entries := s'.entries - {o}, usage := usage)
      else s'.(entries := s'.entries[o := Entry(EMPTY_COIN, true, false)], usage := usage)
  }

  function AfterUncache(s: Stack, o: OutPoint): Stack
    requires s.Cache?
  {
    if o in s.entries && !s.entries[o].isDirty && !s.entries[o].isFresh then
      s.(entries := s.entries - {o}, usage := s.usage - s.entries[o].coin.Usage())
    else s
  }

  /** Asking for the best block stores it in every level that did not know one. */
  function AfterGetBest(s: Stack): Stack {
    if s.Db? || s.hashBlock != NULL_HASH then s
    else s.(hashBlock := Best(s.base), base := AfterGetBest(s.base))
  }

  /** What the parent's entry becomes when the child's entry is written to it. */
  function MergeAt(us: Option<Entry>, it: Option<Entry>): Option<Entry> {
    if it.None? || !it.value.isDirty then us
    else if us.None? then
      if it.value.isFresh && it.value.coin.IsSpent() then None
      else Some(Entry(it.value.coin, true, it.value.isFresh))
    else if us.value.isFresh && it.value.coin.IsSpent() then None
    else Some(Entry(it.value.coin, true, us.value.isFresh))
  }

  function Merge(us: CoinsMap, its: CoinsMap): CoinsMap {
    map o | o in us.Keys + its.Keys && MergeAt(Lookup(us, o), Lookup(its, o)).Some? ::
      MergeAt(Lookup(us, o), Lookup(its, o)).value
  }

  /** The condition of the "FRESH flag misapplied" error. */
  predicate Misapplied(us: CoinsMap, its: CoinsMap, o: OutPoint) {
    o in its && its[o].isDirty && its[o].isFresh && o in us && !us[o].coin.IsSpent()
  }

  function WriteAt(prev: Option<Coin>, it: Option<Entry>): Option<Coin> {
    if it.None? || !it.value.isDirty then prev else it.value.Unspent()
  }

  function WriteDb(coins: map<OutPoint, Coin>, its: CoinsMap): map<OutPoint, Coin> {
    map o | o in coins.Keys + its.Keys && WriteAt(Lookup(coins, o), Lookup(its, o)).Some? ::
      WriteAt(Lookup(coins, o), Lookup(its, o)).value
  }

  ghost function AfterBatchWrite(s: Stack, its: CoinsMap, hash: nat): Stack {
    match s
    case Db(coins, _) => Db(WriteDb(coins, its), hash)
    case Cache(entries, usage, _, base) =>
      Cache(Merge(entries, its), usage - TotalUsage(entries) + TotalUsage(Merge(entries, its)), hash, base)
  }

  ghost function AfterFlush(s: Stack): Stack
    requires s.Cache?
  {
    Cache(map[], 0, s.hashBlock, AfterBatchWrite(s.base, s.entries, s.hashBlock))
  }

  // ----- memory accounting -----

  lemma {:induction false} TotalUsageRemove(entries: CoinsMap, o: OutPoint)
    requires o in entries
    ensures TotalUsage(entries) == entries[o].coin.Usage() + TotalUsage(entries - {o})
    decreases |entries|
  {
    var p :| p in entries && TotalUsage(entries) == entries[p].coin.Usage() + TotalUsage(entries - {p});
    if p != o {
      TotalUsageRemove(entries - {p}, o);
      assert entries - {p} - {o} == entries - {o} - {p};
      TotalUsageRemove(entries - {o}, p);
    }
  }

  lemma TotalUsageUpdate(entries: CoinsMap, o: OutPoint, e: Entry)
    ensures TotalUsage(entries[o := e]) == e.coin.Usage() + TotalUsage(entries - {o})
  {
    var updated := entries[o := e];
    TotalUsageRemove(updated, o);
    assert updated - {o} == entries - {o};
  }

  lemma TotalUsageInsert(entries: CoinsMap, o: OutPoint, e: Entry)
    ensures TotalUsage(entries[o := e]) ==
            TotalUsage(entries) - (if o in entries then entries[o].coin.Usage() else 0) + e.coin.Usage()
  {
    TotalUsageUpdate(entries, o, e);
    if o in entries {
      TotalUsageRemove(entries, o);
    } else {
      assert entries - {o} == entries;
    }
  }

  // ----- each operation keeps the invariant and refines its plain counterpart -----

  /** Reading changes no level's view, and afterwards the entry mirrors the view. */
  lemma {:induction false} FetchCorrect(s: Stack, o: OutPoint)
    requires Inv(s)
    ensures Inv(AfterFetch(s, o))
    ensures forall p :: Get(AfterFetch(s, o), p) == Get(s, p)
    ensures s.Cache? ==> (o in AfterFetch(s, o).entries <==> o in s.entries || Get(s, o).Some?)
  {
    match s
    case Db(_, _) =>
    case Cache(entries, usage, hashBlock, base) =>
      if o !in entries {
        FetchCorrect(base, o);
        var c := Get(AfterFetch(base, o), o);
        if c.Some? {
          assert !c.value.IsSpent() by { GetUnspent(base, o); }
          TotalUsageInsert(entries, o, FetchedEntry(c.value));
        }
      }
  }

  /** What was read from below is neither dirty nor fresh. */
  lemma FetchedIsClean(s: Stack, o: OutPoint)
    requires Inv(s) && s.Cache? && o !in s.entries && Get(s, o).Some?
    ensures AfterFetch(s, o).entries == s.entries[o := Entry(Get(s, o).value, false, false)]
  {
    FetchCorrect(s.base, o);
    GetUnspent(s.base, o);
  }

  lemma {:induction false} GetUnspent(s: Stack, o: OutPoint)
    ensures Get(s, o).Some? ==> !Get(s, o).value.IsSpent()
  {
    if s.Cache? { GetUnspent(s.base, o); }
  }

  lemma {:induction false} FetchRepresents(s: Stack, o: OutPoint, p: Plain)
    requires Inv(s) && Represents(s, p)
    ensures Represents(AfterFetch(s, o), p)
  {
    FetchCorrect(s, o);
    if s.Cache? && o !in s.entries {
      FetchRepresents(s.base, o, p.below);
    }
  }

  /** The caller's duty: `possible_overwrite` may be false only if the view has no coin. */
  predicate AddLegal(s: Stack, o: OutPoint, coin: Coin, possibleOverwrite: bool) {
    s.Cache? && !coin.IsSpent() && (possibleOverwrite || Get(s, o).None?)
  }

  lemma AddCorrect(s: Stack, o: OutPoint, coin: Coin, possibleOverwrite: bool)
    requires Inv(s) && AddLegal(s, o, coin, possibleOverwrite)
    ensures !AddThrows(s, o, coin, possibleOverwrite)
    ensures Inv(AfterAdd(s, o, coin, possibleOverwrite))
    ensures forall p :: Get(AfterAdd(s, o, coin, possibleOverwrite), p) ==
                        if p == o && !coin.IsUnspendable() then Some(coin) else Get(s, p)
  {
    if !coin.IsUnspendable() {
      var s' := AfterAdd(s, o, coin, possibleOverwrite);
      TotalUsageInsert(s.entries, o, s'.entries[o]);
    }
  }

  /** The memory count is exact after an add, unless it throws over a coin whose script is stored on the heap. */
  lemma AddUsage(s: Stack, o: OutPoint, coin: Coin, possibleOverwrite: bool)
    requires Inv(s) && s.Cache?
    ensures var s' := AfterAdd(s, o, coin, possibleOverwrite);
            s'.usage == TotalUsage(s'.entries) <==>
            !(AddThrows(s, o, coin, possibleOverwrite) && s.entries[o].coin.Usage() > 0)
    ensures AddThrows(s, o, coin, possibleOverwrite) ==> AfterAdd(s, o, coin, possibleOverwrite).entries == s.entries
  {
    var s' := AfterAdd(s, o, coin, possibleOverwrite);
    if !coin.IsUnspendable() && !AddThrows(s, o, coin, possibleOverwrite) {
      TotalUsageInsert(s.entries, o, s'.entries[o]);
    }
  }

  /** Adding a coin a second time: the count misses the 48 bytes of the first one's script. */
  lemma AddLosesUsage() returns (s: Stack, o: OutPoint, coin: Coin)
    ensures s.Cache? && Inv(s) && AddThrows(s, o, coin, false) && s.usage == TotalUsage(s.entries) == 48
    ensures AfterAdd(s, o, coin, false).usage == 0 && TotalUsage(AfterAdd(s, o, coin, false).entries) == 48
  {
    o, coin := OutPoint(0, 0), Coin(1, seq(29, _ => 0), 0, false);
    var empty := Cache(map[], 0, NULL_HASH, Db(map[], 0));
    s := AfterAdd(empty, o, coin, false);
    AddCorrect(empty, o, coin, false);
  }

  lemma SpendCorrect(s: Stack, o: OutPoint)
    requires Inv(s) && s.Cache?
    ensures Inv(AfterSpend(s, o))
    ensures forall p :: Get(AfterSpend(s, o), p) == if p == o then None else Get(s, p)
  {
    var s' := AfterFetch(s, o);
    FetchCorrect(s, o);
    if o in s'.entries {
      TotalUsageRemove(s'.entries, o);
      TotalUsageUpdate(s'.entries, o, Entry(EMPTY_COIN, true, false));
    }
  }

  lemma UncacheCorrect(s: Stack, o: OutPoint)
    requires Inv(s) && s.Cache?
    ensures Inv(AfterUncache(s, o))
    ensures forall p :: Get(AfterUncache(s, o), p) == Get(s, p)
    ensures o in AfterUncache(s, o).entries <==> o in s.entries && (s.entries[o].isDirty || s.entries[o].isFresh)
    ensures AfterUncache(s, o).entries - {o} == s.entries - {o} && AfterUncache(s, o).base == s.base
  {
    if o in s.entries {
      TotalUsageRemove(s.entries, o);
    }
  }

  /** A coin that is spent right after it was added leaves nothing behind, so nothing to flush, unless a coin could
      have been overwritten or an unflushed spend of one was there; then the spend is kept. */
  lemma SpendAdded(s: Stack, o: OutPoint, coin: Coin, possibleOverwrite: bool)
    requires Inv(s) && AddLegal(s, o, coin, possibleOverwrite) && !coin.IsUnspendable()
    ensures var s' := AfterSpend(AfterAdd(s, o, coin, possibleOverwrite), o);
            && s'.entries - {o} == s.entries - {o} && s'.base == s.base
            && (o !in s'.entries <==>
                  (if o in s.entries && s.entries[o].isDirty then s.entries[o].isFresh
                   else !possibleOverwrite || (o in s.entries && s.entries[o].isFresh)))
  {
    AddCorrect(s, o, coin, possibleOverwrite);
  }

  /** Writing a child's entries makes the parent show exactly what the child showed. */
  lemma FlushCorrect(s: Stack)
    requires Inv(s) && s.Cache?
    ensures s.base.Cache? ==> forall o :: !Misapplied(s.base.entries, s.entries, o)
    ensures Inv(AfterFlush(s))
    ensures forall o :: Get(AfterFlush(s).base, o) == Get(s, o)
    ensures forall o :: Get(AfterFlush(s), o) == Get(s, o)
  {
    var parent := AfterBatchWrite(s.base, s.entries, s.hashBlock);
    forall o
      ensures Get(parent, o) == Get(s, o)
    {
      if o in s.entries { assert EntryOk(s.entries[o], Get(s.base, o)); }
      match s.base {
        case Db(coins, _) =>
          assert Lookup(WriteDb(coins, s.entries), o) == WriteAt(Lookup(coins, o), Lookup(s.entries, o));
        case Cache(entries, _, _, base) =>
          assert Lookup(Merge(entries, s.entries), o) == MergeAt(Lookup(entries, o), Lookup(s.entries, o));
          if o in entries { assert EntryOk(entries[o], Get(base, o)); }
      }
    }
    if s.base.Cache? {
      forall o | o in parent.entries
        ensures EntryOk(parent.entries[o], Get(s.base.base, o))
      {
        assert Lookup(parent.entries, o) == MergeAt(Lookup(s.base.entries, o), Lookup(s.entries, o));
        if o in s.entries { assert EntryOk(s.entries[o], Get(s.base, o)); }
        if o in s.base.entries { assert EntryOk(s.base.entries[o], Get(s.base.base, o)); }
      }
    }
  }

  /** The error is raised exactly where an entry claims a fresh coin and the cache below shows one. */
  lemma MisappliedIs(us: Stack, its: CoinsMap, o: OutPoint)
    requires us.Cache? && Inv(us) && o in us.entries && o in its && its[o].isDirty && its[o].ValidFlags()
    ensures Misapplied(us.entries, its, o) <==> !EntryOk(its[o], Get(us, o))
  {
  }

  /** After a flush the level below has an entry for every coin that was written, except those that were spent while
      nothing below that level knew of them; the rest of its entries stay, and an entry is fresh if it was. */
  lemma FlushEntries(s: Stack, o: OutPoint)
    requires Inv(s) && s.Cache? && s.base.Cache?
    ensures var below, us, it := AfterFlush(s).base.entries, Lookup(s.base.entries, o), Lookup(s.entries, o);
            && (it.None? || !it.value.isDirty ==> Lookup(below, o) == us)
            && (it.Some? && it.value.isDirty ==>
                  && (o !in below <==> it.value.coin.IsSpent() && us.Some? && us.value.isFresh)
                  && (o in below ==>
                        && below[o].coin == it.value.coin && below[o].isDirty
                        && below[o].isFresh == (if us.Some? then us.value.isFresh else it.value.isFresh)))
  {
    assert Lookup(Merge(s.base.entries, s.entries), o) == MergeAt(Lookup(s.base.entries, o), Lookup(s.entries, o));
    if o in s.entries { assert EntryOk(s.entries[o], Get(s.base, o)); }
  }

  /** Flushing keeps the best block exactly when this level knows one, or its parent does not
      disagree with the grandparent: a null hash is written over the parent's hash. */
  lemma FlushBestBlock(s: Stack)
    requires s.Cache? && s.base.Cache?
    ensures Best(AfterFlush(s).base) == Best(s) <==>
            s.hashBlock != NULL_HASH || s.base.hashBlock == NULL_HASH || s.base.hashBlock == Best(s.base.base)
  {
  }

  lemma FlushForgetsBestBlock() returns (s: Stack)
    ensures s.Cache? && Inv(s) && Best(s) == 2 && Best(AfterFlush(s).base) == 1
  {
    s := Cache(map[], 0, NULL_HASH, Cache(map[], 0, 2, Db(map[], 1)));
  }

  // ----- whole runs -----

  datatype Op =
    | FetchOp(o: OutPoint)
    | AddOp(o: OutPoint, coin: Coin, possibleOverwrite: bool)
    | SpendOp(o: OutPoint)
    | UncacheOp(o: OutPoint)
    | SetBestOp(hash: nat)
    | GetBestOp
    | FlushOp
    | PushOp
    | DiscardOp

  /** Callers' duties: what the source asserts, and the meaning of `possible_overwrite`. */
  predicate Legal(s: Stack, op: Op) {
    match op
    case AddOp(o, coin, possibleOverwrite) => AddLegal(s, o, coin, possibleOverwrite)
    case FlushOp => s.Cache? && (s.base.Db? ==> s.hashBlock != NULL_HASH)
    case FetchOp(_) => true
    case PushOp => true
    case _ => s.Cache?
  }

  ghost function Apply(s: Stack, op: Op): Stack
    requires Legal(s, op)
  {
    match op
    case FetchOp(o) => AfterFetch(s, o)
    case AddOp(o, coin, possibleOverwrite) => AfterAdd(s, o, coin, possibleOverwrite)
    case SpendOp(o) => AfterSpend(s, o)
    case UncacheOp(o) => AfterUncache(s, o)
    case SetBestOp(hash) => s.(hashBlock := hash)
    case GetBestOp => AfterGetBest(s)
    case FlushOp => AfterFlush(s)
    case PushOp => Cache(map[], 0, NULL_HASH, s)
    case DiscardOp => s.base
  }

  function PlainApply(p: Plain, op: Op): Plain {
    match op
    case AddOp(o, coin, _) => if coin.IsUnspendable() then p else p.(m := p.m[o := coin])
    case SpendOp(o) => p.(m := p.m - {o})
    case FlushOp => if p.Layer? then p.(below := p.below.(m := p.m)) else p
    case PushOp => Layer(p.m, p)
    case DiscardOp => if p.Layer? then p.below else p
    case _ => p
  }

  lemma {:induction false} GetBestCorrect(s: Stack, p: Plain)
    requires Inv(s) && Represents(s, p)
    ensures Inv(AfterGetBest(s)) && Represents(AfterGetBest(s), p)
    ensures Best(AfterGetBest(s)) == Best(s) && (s.Cache? ==> AfterGetBest(s).hashBlock == Best(s))
  {
    if s.Cache? && s.hashBlock == NULL_HASH {
      GetBestCorrect(s.base, p.below);
      assert forall o :: Get(AfterGetBest(s.base), o) == Lookup(p.below.m, o);
    }
  }

  lemma StepRefines(s: Stack, p: Plain, op: Op)
    requires Inv(s) && Represents(s, p) && Legal(s, op)
    ensures Inv(Apply(s, op)) && Represents(Apply(s, op), PlainApply(p, op))
  {
    match op
    case FetchOp(o) => FetchCorrect(s, o); FetchRepresents(s, o, p);
    case AddOp(o, coin, possibleOverwrite) => AddCorrect(s, o, coin, possibleOverwrite);
    case SpendOp(o) => SpendCorrect(s, o); FetchRepresents(s, o, p);
    case UncacheOp(o) => UncacheCorrect(s, o);
    case SetBestOp(_) =>
    case GetBestOp => GetBestCorrect(s, p);
    case FlushOp => FlushCorrect(s);
    case PushOp =>
      var s' := Apply(s, op);
      assert forall o :: Get(s', o) == Get(s, o);
    case DiscardOp =>
  }

  ghost predicate LegalRun(s: Stack, ops: seq<Op>)
    decreases |ops|
  {
    ops == [] || (Legal(s, ops[0]) && LegalRun(Apply(s, ops[0]), ops[1..]))
  }

  ghost function Run(s: Stack, ops: seq<Op>): Stack
    requires LegalRun(s, ops)
    decreases |ops|
  {
    if ops == [] then s else Run(Apply(s, ops[0]), ops[1..])
  }

  function PlainRun(p: Plain, ops: seq<Op>): Plain
    decreases |ops|
  {
    if ops == [] then p else PlainRun(PlainApply(p, ops[0]), ops[1..])
  }

  /** After any legal run every level still shows its plain map, and the flags, the
      parent relations and the memory count are right at every level. */
  lemma {:induction false} RunRefines(s: Stack, p: Plain, ops: seq<Op>)
    requires Inv(s) && Represents(s, p) && LegalRun(s, ops)
    ensures Inv(Run(s, ops)) && Represents(Run(s, ops), PlainRun(p, ops))
    decreases |ops|
  {
    if ops != [] {
      StepRefines(s, p, ops[0]);
      RunRefines(Apply(s, ops[0]), PlainApply(p, ops[0]), ops[1..]);
    }
  }

  // ----- the mutable classes -----

  class CoinsDb {
    var coins: map<OutPoint, Coin>
    var best: nat

    constructor (coins: map<OutPoint, Coin>, best: nat)
      ensures this.coins == coins && this.best == best
    {
      this.coins, this.best := coins, best;
    }

    ghost function Abs(): Stack
      reads this
    {
      Db(coins, best)
    }

    method BatchWrite(mapCoins: CoinsMap, hash: nat)
      requires hash != NULL_HASH
      modifies this
      ensures Abs() == AfterBatchWrite(old(Abs()), mapCoins, hash)
    {
      ghost var was := coins;
      var rest := mapCoins.Keys;
      while rest != {}
        invariant rest <= mapCoins.Keys
        invariant forall p :: p in rest ==> Lookup(coins, p) == Lookup(was, p)
        invariant forall p :: p !in rest ==> Lookup(coins, p) == WriteAt(Lookup(was, p), Lookup(mapCoins, p))
        decreases rest
      {
        var o :| o in rest;
        var e := mapCoins[o];
        if e.isDirty {
          coins := if e.coin.IsSpent() then coins - {o} else coins[o := e.coin];
        }
        rest := rest - {o};
      }
      assert forall p :: Lookup(coins, p) == Lookup(WriteDb(was, mapCoins), p);
      SameLookups(coins, WriteDb(was, mapCoins));
      best := hash;
    }
  }

  lemma SameLookups<T>(a: map<OutPoint, T>, b: map<OutPoint, T>)
    requires forall p :: Lookup(a, p) == Lookup(b, p)
    ensures a == b
  {
    forall p
      ensures p in a <==> p in b
      ensures p in a ==> a[p] == b[p]
    {
      assert Lookup(a, p) == Lookup(b, p);
    }
  }

  /** What a cache reads through and flushes into. */
  datatype Base = DbBase(db: CoinsDb) | CacheBase(cache: CoinsViewCache)

  datatype TxOut = TxOut(value: int, script: seq<bv8>) {
    /** Neither too long nor marked as data. */
    predicate Spendable() {
      |script| <= 10000 && (|script| == 0 || script[0] != 0x6a)
    }
  }
  datatype Tx = Tx(txid: nat, isCoinBase: bool, vout: seq<TxOut>)

  class CoinsViewCache {
    const base: Base
    var cacheCoins: CoinsMap
    var cachedCoinsUsage: int
    var hashBlock: nat

    ghost const depth: nat
    ghost const Repr: set<object>

    /** The chain of bases; it is fixed at construction, so this reads no heap. */
    ghost predicate Linked()
      decreases depth
    {
      && this in Repr
      && match base
         case DbBase(db) => db in Repr && depth == 0
         case CacheBase(c) => c.depth < depth && c.Repr <= Repr && this !in c.Repr && c.Linked()
    }

    ghost function AbsBase(): Stack
      requires Linked()
      reads Repr - {this}
      decreases depth, 0
    {
      match base
      case DbBase(db) => db.Abs()
      case CacheBase(c) => c.Abs()
    }

    ghost function Abs(): Stack
      requires Linked()
      reads Repr
      decreases depth, 1
    {
      Cache(cacheCoins, cachedCoinsUsage, hashBlock, AbsBase())
    }

    constructor (base: Base)
      requires base.CacheBase? ==> base.cache.Linked()
      ensures Linked() && this.base == base
      ensures Abs() == Cache(map[], 0, NULL_HASH, AbsBase())
      ensures Repr == {this} + match base { case DbBase(db) => {db as object} case CacheBase(c) => c.Repr }
    {
      this.base := base;
      cacheCoins, cachedCoinsUsage, hashBlock := map[], 0, NULL_HASH;
      match base {
        case DbBase(db) => depth := 0; Repr := {this, db};
        case CacheBase(c) => depth := c.depth + 1; Repr := {this} + c.Repr;
      }
    }

    method BaseGetCoin(o: OutPoint) returns (found: bool, coin: Coin)
      requires Linked()
      modifies Repr - {this}
      ensures AbsBase() == AfterFetch(old(AbsBase()), o)
      ensures found == Get(AbsBase(), o).Some?
      ensures found ==> Get(AbsBase(), o) == Some(coin)
      decreases depth, 0
    {
      match base {
        case DbBase(db) =>
          found := o in db.coins && !db.coins[o].IsSpent();
          coin := if found then db.coins[o] else EMPTY_COIN;
        case CacheBase(c) =>
          found, coin := c.GetCoin(o);
      }
    }

    method FetchCoin(o: OutPoint) returns (found: bool)
      requires Linked()
      modifies Repr
      ensures Abs() == AfterFetch(old(Abs()), o)
      ensures found == (o in cacheCoins)
      decreases depth, 1
    {
      if o in cacheCoins {
        return true;
      }
      var tmp;
      found, tmp := BaseGetCoin(o);
      if found {
        cacheCoins := cacheCoins[o := Entry(tmp, false, tmp.IsSpent())];
        cachedCoinsUsage := cachedCoinsUsage + tmp.Usage();
      }
    }

    method GetCoin(o: OutPoint) returns (found: bool, coin: Coin)
      requires Linked()
      modifies Repr
      ensures Abs() == AfterFetch(old(Abs()), o)
      ensures found == Get(Abs(), o).Some?
      ensures found ==> Get(Abs(), o) == Some(coin)
      decreases depth, 2
    {
      var here := FetchCoin(o);
      if here {
        coin := cacheCoins[o].coin;
        found := !coin.IsSpent();
      } else {
        found, coin := false, EMPTY_COIN;
        assert Get(Abs(), o).None?;
      }
    }

    method HaveCoin(o: OutPoint) returns (found: bool)
      requires Linked()
      modifies Repr
      ensures Abs() == AfterFetch(old(Abs()), o)
      ensures found == Get(Abs(), o).Some?
    {
      var coin;
      found, coin := GetCoin(o);
    }

    method AddCoin(o: OutPoint, coin: Coin, possibleOverwrite: bool) returns (thrown: bool)
      requires Linked()
      requires !coin.IsSpent()
      modifies this
      ensures Abs() == AfterAdd(old(Abs()), o, coin, possibleOverwrite)
      ensures thrown == AddThrows(old(Abs()), o, coin, possibleOverwrite)
      ensures Inv(old(Abs())) ==>
                (cachedCoinsUsage == TotalUsage(cacheCoins) <==> !(thrown && old(cacheCoins)[o].coin.Usage() > 0))
    {
      ghost var s := Abs();
      if Inv(s) {
        AddUsage(s, o, coin, possibleOverwrite);
      }
      if coin.IsUnspendable() {
        return false;
      }
      var inserted := o !in cacheCoins;
      var entry := if inserted then Entry(EMPTY_COIN, false, false) else cacheCoins[o];
      var markFresh := false;
      if !inserted {
        cachedCoinsUsage := cachedCoinsUsage - entry.coin.Usage();
      }
      if !possibleOverwrite {
        if !entry.coin.IsSpent() {
          return true;
        }
        markFresh := !entry.isDirty;
      }
      cacheCoins := cacheCoins[o := Entry(coin, true, entry.isFresh || markFresh)];
      cachedCoinsUsage := cachedCoinsUsage + coin.Usage();
      return false;
    }

    method SpendCoin(o: OutPoint) returns (found: bool, moveout: Coin)
      requires Linked()
      modifies Repr
      ensures Abs() == AfterSpend(old(Abs()), o)
      ensures found == (o in AfterFetch(old(Abs()), o).entries)
      ensures moveout == if found then AfterFetch(old(Abs()), o).entries[o].coin else EMPTY_COIN
      ensures Inv(old(Abs())) && Get(old(Abs()), o).Some? ==> found && Get(old(Abs()), o) == Some(moveout)
    {
      if Inv(Abs()) {
        FetchCorrect(Abs(), o);
      }
      found := FetchCoin(o);
      if !found {
        return false, EMPTY_COIN;
      }
      moveout := cacheCoins[o].coin;
      cachedCoinsUsage := cachedCoinsUsage - moveout.Usage();
      if cacheCoins[o].isFresh {
        cacheCoins := cacheCoins - {o};
      } else {
        cacheCoins := cacheCoins[o := Entry(EMPTY_COIN, true, false)];
      }
    }

    method Uncache(o: OutPoint)
      requires Linked()
      modifies this
      ensures Abs() == AfterUncache(old(Abs()), o)
    {
      if o in cacheCoins && !cacheCoins[o].isDirty && !cacheCoins[o].isFresh {
        cachedCoinsUsage := cachedCoinsUsage - cacheCoins[o].coin.Usage();
        cacheCoins := cacheCoins - {o};
      }
    }

    method GetBestBlock() returns (hash: nat)
      requires Linked()
      modifies Repr
      ensures hash == Best(old(Abs()))
      ensures Abs() == AfterGetBest(old(Abs()))
      decreases depth
    {
      if hashBlock == NULL_HASH {
        match base {
          case DbBase(db) => hashBlock := db.best;
          case CacheBase(c) => var h := c.GetBestBlock(); hashBlock := h;
        }
      }
      hash := hashBlock;
    }

    method SetBestBlock(hash: nat)
      requires Linked()
      modifies this
      ensures Abs() == Cache(old(cacheCoins), old(cachedCoinsUsage), hash, old(AbsBase()))
    {
      hashBlock := hash;
    }

    /** The body of the write loop: one entry of the child is moved into this cache. */
    method WriteEntry(o: OutPoint, it: Entry) returns (thrown: bool)
      modifies this`cacheCoins, this`cachedCoinsUsage
      ensures thrown == Misapplied(old(cacheCoins), map[o := it], o)
      ensures !thrown ==> Lookup(cacheCoins, o) == MergeAt(Lookup(old(cacheCoins), o), Some(it))
      ensures forall p :: p != o ==> Lookup(cacheCoins, p) == Lookup(old(cacheCoins), p)
      ensures cachedCoinsUsage - TotalUsage(cacheCoins) == old(cachedCoinsUsage - TotalUsage(cacheCoins))
    {
      if !it.isDirty {
        return false;
      }
      if o !in cacheCoins {
        if !(it.isFresh && it.coin.IsSpent()) {
          TotalUsageInsert(cacheCoins, o, Entry(it.coin, true, it.isFresh));
          cacheCoins := cacheCoins[o := Entry(it.coin, true, it.isFresh)];
          cachedCoinsUsage := cachedCoinsUsage + it.coin.Usage();
        }
        return false;
      }
      var us := cacheCoins[o];
      if it.isFresh && !us.coin.IsSpent() {
        return true;
      }
      TotalUsageRemove(cacheCoins, o);
      cachedCoinsUsage := cachedCoinsUsage - us.coin.Usage();
      if us.isFresh && it.coin.IsSpent() {
        cacheCoins := cacheCoins - {o};
      } else {
        TotalUsageUpdate(cacheCoins, o, Entry(it.coin, true, us.isFresh));
        cacheCoins := cacheCoins[o := Entry(it.coin, true, us.isFresh)];
        cachedCoinsUsage := cachedCoinsUsage + it.coin.Usage();
      }
      return false;
    }

    method WriteEntries(mapCoins: CoinsMap) returns (thrown: bool)
      modifies this`cacheCoins, this`cachedCoinsUsage
      ensures thrown <==> exists o :: Misapplied(old(cacheCoins), mapCoins, o)
      ensures !thrown ==> cacheCoins == Merge(old(cacheCoins), mapCoins)
      ensures cachedCoinsUsage - TotalUsage(cacheCoins) == old(cachedCoinsUsage - TotalUsage(cacheCoins))
    {
      ghost var was := cacheCoins;
      var rest := mapCoins.Keys;
      while rest != {}
        invariant rest <= mapCoins.Keys
        invariant forall p :: p in rest ==> Lookup(cacheCoins, p) == Lookup(was, p)
        invariant forall p :: p !in rest ==> Lookup(cacheCoins, p) == MergeAt(Lookup(was, p), Lookup(mapCoins, p))
        invariant forall p :: p !in rest ==> !Misapplied(was, mapCoins, p)
        invariant cachedCoinsUsage - TotalUsage(cacheCoins) == old(cachedCoinsUsage - TotalUsage(cacheCoins))
        decreases rest
      {
        var o :| o in rest;
        ghost var before := cacheCoins;
        thrown := WriteEntry(o, mapCoins[o]);
        assert Lookup(before, o) == Lookup(was, o);
        assert thrown == Misapplied(was, mapCoins, o);
        if thrown {
          return;
        }
        rest := rest - {o};
      }
      assert forall p :: Lookup(cacheCoins, p) == Lookup(Merge(was, mapCoins), p);
      SameLookups(cacheCoins, Merge(was, mapCoins));
      return false;
    }

    method BatchWrite(mapCoins: CoinsMap, hash: nat) returns (thrown: bool)
      requires Linked()
      modifies this
      ensures thrown <==> exists o :: Misapplied(old(cacheCoins), mapCoins, o)
      ensures !thrown ==> Abs() == AfterBatchWrite(old(Abs()), mapCoins, hash)
    {
      thrown := WriteEntries(mapCoins);
      if !thrown {
        hashBlock := hash;
      }
    }

    method Flush() returns (thrown: bool)
      requires Linked()
      requires base.DbBase? ==> hashBlock != NULL_HASH
      modifies Repr
      ensures Inv(old(Abs())) ==> !thrown
      ensures !thrown ==> Abs() == AfterFlush(old(Abs()))
    {
      match base {
        case DbBase(db) =>
          db.BatchWrite(cacheCoins, hashBlock);
          thrown := false;
        case CacheBase(c) =>
          ghost var s := Abs();
          assert s.base == AbsBase() == c.Abs();
          assert c.Abs().entries == c.cacheCoins;
          if Inv(s) {
            FlushCorrect(s);
          }
          thrown := c.BatchWrite(cacheCoins, hashBlock);
          if thrown {
            return;
          }
      }
      cacheCoins := map[];
      cachedCoinsUsage := 0;
    }
  }

  // ----- adding a whole transaction -----

  function OutputCoin(tx: Tx, height: nat, i: nat): Coin
    requires i < |tx.vout|
  {
    Coin(tx.vout[i].value, tx.vout[i].script, height, tx.isCoinBase)
  }

  /** The view after the first `n` outputs of `tx` were added to the view of `s`. */
  function OutputsAdded(s: Stack, tx: Tx, height: nat, n: nat, o: OutPoint): Option<Coin>
    requires n <= |tx.vout|
  {
    if o.txid == tx.txid && o.n < n && !OutputCoin(tx, height, o.n).IsUnspendable()
    then Some(OutputCoin(tx, height, o.n)) else Get(s, o)
  }

  /** Output `i` as a coin: amount and script as in the transaction, with the height and kind of its block. */
  predicate IsOutput(c: Coin, tx: Tx, height: nat, i: nat)
    requires i < |tx.vout|
  {
    && c.value == tx.vout[i].value && c.script == tx.vout[i].script
    && c.height == height && c.coinbase == tx.isCoinBase
  }

  /** Without the overwrite check only a coinbase may recreate outputs that are unspent. */
  method AddCoins(cache: CoinsViewCache, tx: Tx, height: nat, checkForOverwrite: bool)
    requires cache.Linked() && Inv(cache.Abs())
    requires forall i :: 0 <= i < |tx.vout| ==> tx.vout[i].value != -1
    requires checkForOverwrite || tx.isCoinBase ||
             forall i: nat :: i < |tx.vout| ==> Get(cache.Abs(), OutPoint(tx.txid, i)).None?
    modifies cache.Repr
    ensures Inv(cache.Abs())
    ensures forall o :: Get(cache.Abs(), o) == OutputsAdded(old(cache.Abs()), tx, height, |tx.vout|, o)
    ensures forall i: nat :: i < |tx.vout| && tx.vout[i].Spendable() ==>
              var coin := Get(cache.Abs(), OutPoint(tx.txid, i)); coin.Some? && IsOutput(coin.value, tx, height, i)
    ensures forall o: OutPoint :: (o.txid == tx.txid && o.n < |tx.vout| ==> !tx.vout[o.n].Spendable()) ==>
              Get(cache.Abs(), o) == Get(old(cache.Abs()), o)
  {
    ghost var s := cache.Abs();
    for i := 0 to |tx.vout|
      invariant Inv(cache.Abs())
      invariant forall o :: Get(cache.Abs(), o) == OutputsAdded(s, tx, height, i, o)
    {
      var o := OutPoint(tx.txid, i);
      assert Get(cache.Abs(), o) == Get(s, o);
      var overwrite := tx.isCoinBase;
      if checkForOverwrite {
        FetchCorrect(cache.Abs(), o);
        overwrite := cache.HaveCoin(o);
      }
      AddCorrect(cache.Abs(), o, OutputCoin(tx, height, i), overwrite);
      var thrown := cache.AddCoin(o, OutputCoin(tx, height, i), overwrite);
    }
    OutputsAre(s, cache.Abs(), tx, height);
  }

  lemma OutputsAre(s: Stack, s': Stack, tx: Tx, height: nat)
    requires forall o :: Get(s', o) == OutputsAdded(s, tx, height, |tx.vout|, o)
    ensures forall i: nat :: i < |tx.vout| && tx.vout[i].Spendable() ==>
              var coin := Get(s', OutPoint(tx.txid, i)); coin.Some? && IsOutput(coin.value, tx, height, i)
    ensures forall o: OutPoint :: (o.txid == tx.txid && o.n < |tx.vout| ==> !tx.vout[o.n].Spendable()) ==>
              Get(s', o) == Get(s, o)
  {
  }
}
