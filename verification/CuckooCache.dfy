/**
 The cuckoo cache: eight candidate slots per element, lazy erasure by collection flags, and
 two generations of live entries.

 The eight hash functions and the depth limit are parameters.
 */
module CuckooCache {

  datatype Element = Element(value: nat)

  const DEFAULT := Element(0)
  const UINT32 := 0x1_0000_0000

  /** The eight candidate slots of every element. */
  datatype Env = Env(locs: Element -> seq<nat>)

  datatype State = State(table: seq<Element>, collect: seq<bool>, epoch: seq<bool>, counter: nat, epochSize: nat)

  predicate Shaped(s: State) { |s.table| == |s.collect| == |s.epoch| >= 2 && s.epochSize >= 1 }

  // ----- locations -----

  predicate InRange(locs: seq<nat>, size: nat) { |locs| == 8 && forall k :: 0 <= k < 8 ==> locs[k] < size }

  ghost predicate Fits(env: Env, size: nat) {
    forall e {:trigger env.locs(e)} :: InRange(env.locs(e), size)
  }

  /** The first location, from the k-th, that holds `e`, or 8. */
  function FindFrom(locs: seq<nat>, table: seq<Element>, e: Element, k: nat): nat
    requires InRange(locs, |table|) && k <= 8
    decreases 8 - k
  {
    if k == 8 then 8 else if table[locs[k]] == e then k else FindFrom(locs, table, e, k + 1)
  }

  /** The first location, from the k-th, that may be collected, or 8. */
  function FreeFrom(locs: seq<nat>, collect: seq<bool>, k: nat): nat
    requires InRange(locs, |collect|) && k <= 8
    decreases 8 - k
  {
    if k == 8 then 8 else if collect[locs[k]] then k else FreeFrom(locs, collect, k + 1)
  }

  function IndexFrom(locs: seq<nat>, loc: int, k: nat): nat
    requires |locs| == 8 && k <= 8
    decreases 8 - k
  {
    if k == 8 then 8 else if locs[k] == loc then k else IndexFrom(locs, loc, k + 1)
  }

  lemma {:induction false} FindIs(locs: seq<nat>, table: seq<Element>, e: Element, k: nat)
    requires InRange(locs, |table|) && k <= 8
    ensures var r := FindFrom(locs, table, e, k);
            && k <= r <= 8 && (r < 8 ==> table[locs[r]] == e)
            && forall j :: k <= j < r ==> table[locs[j]] != e
    decreases 8 - k
  {
    if k < 8 {
      FindIs(locs, table, e, k + 1);
    }
  }

  lemma {:induction false} FreeIs(locs: seq<nat>, collect: seq<bool>, k: nat)
    requires InRange(locs, |collect|) && k <= 8
    ensures var r := FreeFrom(locs, collect, k);
            && k <= r <= 8 && (r < 8 ==> collect[locs[r]])
            && forall j :: k <= j < r ==> !collect[locs[j]]
    decreases 8 - k
  {
    if k < 8 {
      FreeIs(locs, collect, k + 1);
    }
  }

  lemma {:induction false} IndexIs(locs: seq<nat>, loc: int, k: nat)
    requires |locs| == 8 && k <= 8
    ensures var r := IndexFrom(locs, loc, k);
            && k <= r <= 8 && (r < 8 ==> locs[r] == loc)
            && forall j :: k <= j < r ==> locs[j] != loc
    decreases 8 - k
  {
    if k < 8 {
      IndexIs(locs, loc, k + 1);
    }
  }

  /** The location after the one last looked at; after none of them, the second. */
  function NextLoc(locs: seq<nat>, last: int): nat
    requires |locs| == 8
  {
    IndexIs(locs, last, 0);
    locs[(1 + IndexFrom(locs, last, 0)) % 8]
  }

  /** From a location it is the one after its first occurrence, around the end, and from elsewhere the second. */
  lemma NextLocIs(locs: seq<nat>, last: int, k: nat)
    requires |locs| == 8 && k <= 8 && (k < 8 ==> locs[k] == last) && forall j :: 0 <= j < k ==> locs[j] != last
    ensures NextLoc(locs, last) == if k < 7 then locs[k + 1] else if k == 7 then locs[0] else locs[1]
  {
    IndexIs(locs, last, 0);
  }

  // ----- counting live slots -----

  function Live(s: State, i: nat, newest: bool): nat
    requires Shaped(s) && i < |s.table|
  {
    if !s.collect[i] && s.epoch[i] == newest then 1 else 0
  }

  /** The live slots of a generation among the first n. */
  function LiveUpTo(s: State, newest: bool, n: nat): nat
    requires Shaped(s) && n <= |s.table|
  {
    if n == 0 then 0 else LiveUpTo(s, newest, n - 1) + Live(s, n - 1, newest)
  }

  function LiveCount(s: State, newest: bool): nat
    requires Shaped(s)
  {
    LiveUpTo(s, newest, |s.table|)
  }

  predicate SameBut(s: State, t: State, i: nat) {
    && Shaped(s) && Shaped(t) && |s.table| == |t.table| && i < |s.table|
    && forall j :: 0 <= j < |s.table| && j != i ==> s.collect[j] == t.collect[j] && s.epoch[j] == t.epoch[j]
  }

  lemma {:induction false} LiveChanges(s: State, t: State, i: nat, newest: bool, n: nat)
    requires SameBut(s, t, i) && n <= |s.table|
    ensures LiveUpTo(t, newest, n) == LiveUpTo(s, newest, n) + if i < n then Live(t, i, newest) - Live(s, i, newest) else 0
    decreases n
  {
    if n > 0 {
      LiveChanges(s, t, i, newest, n - 1);
    }
  }

  /** If not every slot is live, some slot may be collected. */
  lemma {:induction false} SomeCollectable(s: State, n: nat) returns (i: nat)
    requires Shaped(s) && n <= |s.table| && LiveUpTo(s, true, n) + LiveUpTo(s, false, n) < n
    ensures i < n && s.collect[i]
    decreases n
  {
    if s.collect[n - 1] {
      i := n - 1;
    } else {
      i := SomeCollectable(s, n - 1);
    }
  }

  // ----- placing and displacing -----

  function Place(s: State, loc: nat, e: Element, ep: bool): State
    requires Shaped(s) && loc < |s.table|
  {
    s.(table := s.table[loc := e], collect := s.collect[loc := false], epoch := s.epoch[loc := ep])
  }

  function Swap(s: State, loc: nat, e: Element, ep: bool): State
    requires Shaped(s) && loc < |s.table|
  {
    s.(table := s.table[loc := e], epoch := s.epoch[loc := ep])
  }

  /** The table after an insertion, and the element that is no longer in it. */
  datatype Landing = Landing(state: State, dropped: Element, exhausted: bool)

  /** Put `e` into a free slot, or swap it with the occupant of another and go on with that. */
  function Displace(env: Env, s: State, e: Element, last: int, ep: bool, depth: nat): Landing
    requires Shaped(s) && Fits(env, |s.table|)
    decreases depth
  {
    if depth == 0 then Landing(s, e, true)
    else
      var locs := env.locs(e);
      FreeIs(locs, s.collect, 0);
      var k := FreeFrom(locs, s.collect, 0);
      if k < 8 then Landing(Place(s, locs[k], e, ep), s.table[locs[k]], false)
      else
        var loc := NextLoc(locs, last);
        Displace(env, Swap(s, loc, e, ep), s.table[loc], loc, s.epoch[loc], depth - 1)
  }

  lemma DisplaceStep(env: Env, s: State, e: Element, last: int, ep: bool, depth: nat)
    requires Shaped(s) && Fits(env, |s.table|) && depth > 0
    ensures var locs := env.locs(e);
            var k := FreeFrom(locs, s.collect, 0);
            var loc := NextLoc(locs, last);
            && loc < |s.table|
            && (k < 8 ==>
                  Displace(env, s, e, last, ep, depth) == Landing(Place(s, locs[k], e, ep), s.table[locs[k]], false))
            && (k >= 8 ==>
                  Displace(env, s, e, last, ep, depth)
                  == Displace(env, Swap(s, loc, e, ep), s.table[loc], loc, s.epoch[loc], depth - 1))
  {
    FreeIs(env.locs(e), s.collect, 0);
  }

  // ----- conservation -----

  /** A free slot was overwritten, unless the depth limit was reached; nothing else was lost. */
  ghost predicate Conserves(s: State, e: Element, r: Landing) {
    && Shaped(s) && Shaped(r.state) && |r.state.table| == |s.table|
    && r.state.counter == s.counter && r.state.epochSize == s.epochSize
    && multiset(r.state.table) + multiset{r.dropped} == multiset(s.table) + multiset{e}
    && (r.exhausted ==> r.state.collect == s.collect)
    && (!r.exhausted ==> exists i :: FreedAt(s, r, i))
  }

  /** The dropped element was in a slot that could be collected, and that is now live. */
  ghost predicate FreedAt(s: State, r: Landing, i: int) {
    0 <= i < |s.table| == |s.collect| && s.collect[i] && r.dropped == s.table[i] && r.state.collect == s.collect[i := false]
  }

  lemma {:induction false} DisplaceConserves(env: Env, s: State, e: Element, last: int, ep: bool, depth: nat)
    requires Shaped(s) && Fits(env, |s.table|)
    ensures Conserves(s, e, Displace(env, s, e, last, ep, depth))
    decreases depth
  {
    if depth > 0 {
      var locs := env.locs(e);
      FreeIs(locs, s.collect, 0);
      IndexIs(locs, last, 0);
      var k, loc := FreeFrom(locs, s.collect, 0), NextLoc(locs, last);
      DisplaceStep(env, s, e, last, ep, depth);
      if k < 8 {
        assert FreedAt(s, Landing(Place(s, locs[k], e, ep), s.table[locs[k]], false), locs[k]);
      } else {
        DisplaceConserves(env, Swap(s, loc, e, ep), s.table[loc], loc, s.epoch[loc], depth - 1);
        SwapConserves(s, loc, e, ep, Displace(env, Swap(s, loc, e, ep), s.table[loc], loc, s.epoch[loc], depth - 1));
      }
    }
  }

  lemma SwapConserves(s: State, loc: nat, e: Element, ep: bool, r: Landing)
    requires Shaped(s) && loc < |s.table| && !s.collect[loc] && Conserves(Swap(s, loc, e, ep), s.table[loc], r)
    ensures Conserves(s, e, r)
  {
    var t := Swap(s, loc, e, ep);
    assert multiset(t.table) + multiset{s.table[loc]} == multiset(s.table) + multiset{e};
    if !r.exhausted {
      var i :| FreedAt(t, r, i);
      assert FreedAt(s, r, i);
    }
  }

  // ----- every element is at home, once -----

  predicate HomeAt(env: Env, table: seq<Element>, i: nat)
    requires i < |table|
  {
    table[i] != DEFAULT ==> i in env.locs(table[i])
  }

  ghost predicate AtHome(env: Env, table: seq<Element>) {
    forall i {:trigger HomeAt(env, table, i)} :: 0 <= i < |table| ==> HomeAt(env, table, i)
  }

  ghost predicate Once(table: seq<Element>) {
    forall e :: e != DEFAULT ==> multiset(table)[e] <= 1
  }

  lemma UpdateAtHome(env: Env, table: seq<Element>, loc: nat, e: Element)
    requires AtHome(env, table) && loc < |table| && loc in env.locs(e)
    ensures AtHome(env, table[loc := e])
  {
    var t := table[loc := e];
    forall i | 0 <= i < |t| ensures HomeAt(env, t, i) {
      assert HomeAt(env, table, i);
    }
  }

  lemma {:induction false} DisplaceAtHome(env: Env, s: State, e: Element, last: int, ep: bool, depth: nat)
    requires Shaped(s) && Fits(env, |s.table|) && AtHome(env, s.table)
    ensures AtHome(env, Displace(env, s, e, last, ep, depth).state.table)
    decreases depth
  {
    if depth > 0 {
      var locs := env.locs(e);
      FreeIs(locs, s.collect, 0);
      var k := FreeFrom(locs, s.collect, 0);
      if k < 8 {
        UpdateAtHome(env, s.table, locs[k], e);
      } else {
        IndexIs(locs, last, 0);
        var loc := NextLoc(locs, last);
        UpdateAtHome(env, s.table, loc, e);
        DisplaceAtHome(env, Swap(s, loc, e, ep), s.table[loc], loc, s.epoch[loc], depth - 1);
      }
    }
  }

  /** An element that is at none of its locations is not in the table. */
  lemma FoundIsMember(env: Env, table: seq<Element>, e: Element)
    requires Fits(env, |table|) && AtHome(env, table) && e != DEFAULT
    ensures FindFrom(env.locs(e), table, e, 0) < 8 <==> e in table
  {
    var locs := env.locs(e);
    FindIs(locs, table, e, 0);
    if e in table {
      var i :| 0 <= i < |table| && table[i] == e;
      assert HomeAt(env, table, i);
    }
  }

  // ----- generations -----

  function Ones(b: bool): nat { if b then 1 else 0 }

  lemma PlaceLive(s: State, loc: nat, e: Element, ep: bool, newest: bool)
    requires Shaped(s) && loc < |s.table| && s.collect[loc]
    ensures LiveCount(Place(s, loc, e, ep), newest) == LiveCount(s, newest) + Ones(ep == newest)
  {
    LiveChanges(s, Place(s, loc, e, ep), loc, newest, |s.table|);
  }

  lemma SwapLive(s: State, loc: nat, e: Element, ep: bool, newest: bool)
    requires Shaped(s) && loc < |s.table| && !s.collect[loc]
    ensures LiveCount(Swap(s, loc, e, ep), newest)
         == LiveCount(s, newest) + Ones(ep == newest) - Ones(s.epoch[loc] == newest)
  {
    LiveChanges(s, Swap(s, loc, e, ep), loc, newest, |s.table|);
  }

  /** At most one more live slot, of the generation of the inserted element. */
  lemma {:induction false} DisplaceLive(env: Env, s: State, e: Element, last: int, ep: bool, depth: nat, newest: bool)
    requires Shaped(s) && Fits(env, |s.table|)
    ensures var r := Displace(env, s, e, last, ep, depth).state;
            Shaped(r) && LiveCount(r, newest) <= LiveCount(s, newest) + Ones(ep == newest)
    decreases depth
  {
    if depth > 0 {
      var locs := env.locs(e);
      FreeIs(locs, s.collect, 0);
      IndexIs(locs, last, 0);
      var k, loc := FreeFrom(locs, s.collect, 0), NextLoc(locs, last);
      DisplaceStep(env, s, e, last, ep, depth);
      if k < 8 {
        PlaceLive(s, locs[k], e, ep, newest);
      } else {
        SwapLive(s, loc, e, ep, newest);
        DisplaceLive(env, Swap(s, loc, e, ep), s.table[loc], loc, s.epoch[loc], depth - 1, newest);
      }
    }
  }

  function Max(a: nat, b: nat): nat { if a < b then b else a }

  /** The size of an epoch: 45% of the table, computed in 32 bits. */
  function EpochSize(size: nat): nat { Max(1, 45 * size % UINT32 / 100) }

  /** It is 45% exactly while the product fits in 32 bits. */
  lemma EpochSizeIs(size: nat)
    requires 0 < size < UINT32
    ensures EpochSize(size) == Max(1, 45 * size / 100) <==> size < 95443718
  {
  }

  /** How many live entries a generation can reach. */
  function Bound(epochSize: nat): nat { epochSize + Max(1, epochSize / 16) }

  /** The old generation may be collected, the newest becomes the old one. */
  function Rotated(s: State): State
    requires Shaped(s)
  {
    State(s.table, seq(|s.table|, i requires 0 <= i < |s.table| => s.collect[i] || !s.epoch[i]),
          seq(|s.table|, _ => false), s.epochSize, s.epochSize)
  }

  function AfterEpochCheck(s: State): State
    requires Shaped(s)
  {
    if s.counter != 0 then s.(counter := s.counter - 1)
    else
      var unused := LiveCount(s, true);
      if unused >= s.epochSize then Rotated(s)
      else s.(counter := Max(1, Max(s.epochSize / 16, s.epochSize - unused)))
  }

  lemma {:induction false} RotatedLive(s: State, n: nat)
    requires Shaped(s) && n <= |s.table|
    ensures Shaped(Rotated(s)) && LiveUpTo(Rotated(s), true, n) == 0
    ensures LiveUpTo(Rotated(s), false, n) == LiveUpTo(s, true, n)
    decreases n
  {
    if n > 0 {
      RotatedLive(s, n - 1);
    }
  }

  ghost predicate Bounded(s: State) {
    && Shaped(s)
    && LiveCount(s, true) + s.counter <= Bound(s.epochSize)
    && LiveCount(s, false) <= Bound(s.epochSize)
  }

  lemma {:induction false} SameLive(s: State, t: State, newest: bool, n: nat)
    requires Shaped(s) && Shaped(t) && n <= |s.table| && s.collect == t.collect && s.epoch == t.epoch
    ensures LiveUpTo(s, newest, n) == LiveUpTo(t, newest, n)
    decreases n
  {
    if n > 0 {
      SameLive(s, t, newest, n - 1);
    }
  }

  /** After the check there is room for one more entry of the newest generation. */
  lemma EpochCheckBounded(s: State)
    requires Bounded(s)
    ensures var t := AfterEpochCheck(s);
            && Shaped(t) && t.table == s.table && t.epochSize == s.epochSize
            && LiveCount(t, true) + t.counter + 1 <= Bound(t.epochSize) && LiveCount(t, false) <= Bound(t.epochSize)
  {
    var t := AfterEpochCheck(s);
    if s.counter == 0 && LiveCount(s, true) >= s.epochSize {
      RotatedLive(s, |s.table|);
    } else {
      SameLive(s, t, true, |s.table|);
      SameLive(s, t, false, |s.table|);
    }
  }

  /** Aging is due when the counter is spent and the newest generation is full; then exactly the live slots of the
      old one may be collected.  Otherwise nothing does, and a spent counter is set to the insertions that could fill
      the generation, but to no less than one and a sixteenth of it. */
  lemma EpochCheckIs(s: State)
    requires Shaped(s)
    ensures var t, due := AfterEpochCheck(s), s.counter == 0 && LiveCount(s, true) >= s.epochSize;
            && t.table == s.table && t.epochSize == s.epochSize && |t.collect| == |t.epoch| == |s.table|
            && (forall i :: 0 <= i < |s.table| ==> (t.collect[i] <==> s.collect[i] || (due && !s.epoch[i])))
            && (forall i :: 0 <= i < |s.table| ==> (t.epoch[i] <==> s.epoch[i] && !due))
            && (s.counter > 0 ==> t.counter == s.counter - 1)
            && (due ==> t.counter == s.epochSize)
            && (s.counter == 0 && !due ==>
                  && t.counter >= 1 && t.counter >= s.epochSize / 16 && t.counter >= s.epochSize - LiveCount(s, true)
                  && (t.counter == 1 || t.counter == s.epochSize / 16 || t.counter == s.epochSize - LiveCount(s, true)))
  {
  }

  // ----- operations -----

  const INVALID := 0xFFFF_FFFF

  /** The first element to be displaced is at the second location. */
  lemma FirstDisplaced(locs: seq<nat>, size: nat)
    requires InRange(locs, size) && size <= INVALID
    ensures NextLoc(locs, INVALID) == locs[1]
  {
    NotThere(locs, size, 0);
  }

  lemma {:induction false} NotThere(locs: seq<nat>, size: nat, k: nat)
    requires InRange(locs, size) && size <= INVALID && k <= 8
    ensures IndexFrom(locs, INVALID, k) == 8
    decreases 8 - k
  {
    if k < 8 {
      NotThere(locs, size, k + 1);
    }
  }

  function Find(env: Env, table: seq<Element>, e: Element): nat
    requires Fits(env, |table|)
  {
    FindFrom(env.locs(e), table, e, 0)
  }

  /** An insertion after the epoch check: a copy that is there is kept and made new. */
  function AfterKeep(env: Env, s: State, e: Element): State
    requires Shaped(s) && Fits(env, |s.table|) && Find(env, s.table, e) < 8
  {
    var loc := env.locs(e)[Find(env, s.table, e)];
    s.(collect := s.collect[loc := false], epoch := s.epoch[loc := true])
  }

  function AfterInsert(env: Env, s: State, e: Element, depthLimit: nat): State
    requires Shaped(s) && Fits(env, |s.table|)
  {
    var t := AfterEpochCheck(s);
    if Find(env, t.table, e) < 8 then AfterKeep(env, t, e)
    else Displace(env, t, e, INVALID, true, depthLimit).state
  }

  function AfterContains(env: Env, s: State, e: Element, erase: bool): State
    requires Shaped(s) && Fits(env, |s.table|)
  {
    var k := Find(env, s.table, e);
    if k < 8 && erase then s.(collect := s.collect[env.locs(e)[k] := true]) else s
  }

  // ----- every run -----

  ghost predicate Inv(env: Env, s: State) {
    && Bounded(s) && Fits(env, |s.table|) && s.epochSize == EpochSize(|s.table|)
    && AtHome(env, s.table) && Once(s.table)
  }

  lemma InsertBounded(env: Env, s: State, e: Element, depthLimit: nat)
    requires Bounded(s) && Fits(env, |s.table|)
    ensures Bounded(AfterInsert(env, s, e, depthLimit))
  {
    EpochCheckBounded(s);
    var t := AfterEpochCheck(s);
    FindIs(env.locs(e), t.table, e, 0);
    if Find(env, t.table, e) < 8 {
      var loc := env.locs(e)[Find(env, t.table, e)];
      LiveChanges(t, AfterKeep(env, t, e), loc, true, |t.table|);
      LiveChanges(t, AfterKeep(env, t, e), loc, false, |t.table|);
    } else {
      DisplaceConserves(env, t, e, INVALID, true, depthLimit);
      DisplaceLive(env, t, e, INVALID, true, depthLimit, true);
      DisplaceLive(env, t, e, INVALID, true, depthLimit, false);
    }
  }

  /** Either the copy that is there is kept, or the table gains the element and loses exactly one,
      which was live only if the depth limit was reached. */
  lemma InsertConserves(env: Env, s: State, e: Element, depthLimit: nat)
    requires Shaped(s) && Fits(env, |s.table|)
    ensures var t, r := AfterEpochCheck(s), AfterInsert(env, s, e, depthLimit);
            && t.table == s.table && Shaped(t)
            && (Find(env, s.table, e) < 8 ==> r.table == s.table)
            && var x := Displace(env, t, e, INVALID, true, depthLimit);
               Find(env, s.table, e) == 8 ==> x.state == r && Conserves(t, e, x)
  {
    var t := AfterEpochCheck(s);
    FindIs(env.locs(e), t.table, e, 0);
    if Find(env, t.table, e) == 8 {
      DisplaceConserves(env, t, e, INVALID, true, depthLimit);
    }
  }

  lemma OnceStays(s: State, e: Element, x: Landing)
    requires Once(s.table) && Conserves(s, e, x) && (e == DEFAULT || e !in s.table)
    ensures Once(x.state.table)
  {
    forall a | a != DEFAULT ensures multiset(x.state.table)[a] <= 1 {
      var whole := multiset(x.state.table) + multiset{x.dropped};
      assert whole[a] == (multiset(s.table) + multiset{e})[a];
      assert a == e ==> multiset(s.table)[a] == 0;
    }
  }

  lemma InsertKeeps(env: Env, s: State, e: Element, depthLimit: nat)
    requires Inv(env, s)
    ensures Inv(env, AfterInsert(env, s, e, depthLimit))
  {
    InsertBounded(env, s, e, depthLimit);
    EpochCheckBounded(s);
    var t := AfterEpochCheck(s);
    FindIs(env.locs(e), t.table, e, 0);
    if Find(env, t.table, e) == 8 {
      DisplaceConserves(env, t, e, INVALID, true, depthLimit);
      DisplaceAtHome(env, t, e, INVALID, true, depthLimit);
      if e != DEFAULT {
        FoundIsMember(env, s.table, e);
      }
      OnceStays(t, e, Displace(env, t, e, INVALID, true, depthLimit));
    }
  }

  lemma ContainsKeeps(env: Env, s: State, e: Element, erase: bool)
    requires Inv(env, s)
    ensures Inv(env, AfterContains(env, s, e, erase))
  {
    FindIs(env.locs(e), s.table, e, 0);
    var k := Find(env, s.table, e);
    if k < 8 && erase {
      var t := AfterContains(env, s, e, erase);
      LiveChanges(s, t, env.locs(e)[k], true, |s.table|);
      LiveChanges(s, t, env.locs(e)[k], false, |s.table|);
    }
  }

  /** Asking changes nothing but, to erase, the flag of the slot that holds the element: that slot may then be
      collected. */
  lemma ContainsMarks(env: Env, s: State, e: Element, erase: bool)
    requires Inv(env, s) && e != DEFAULT
    ensures var t := AfterContains(env, s, e, erase);
            && t.table == s.table && t.epoch == s.epoch && t.counter == s.counter && t.epochSize == s.epochSize
            && |t.collect| == |s.collect|
            && forall i :: 0 <= i < |s.table| ==> (t.collect[i] <==> s.collect[i] || (erase && s.table[i] == e))
  {
    FoundIsMember(env, s.table, e);
    FindIs(env.locs(e), s.table, e, 0);
    var t, k := AfterContains(env, s, e, erase), Find(env, s.table, e);
    forall i | 0 <= i < |s.table| ensures t.collect[i] <==> s.collect[i] || (erase && s.table[i] == e) {
      if k < 8 && s.table[i] == e {
        OnlySlot(s.table, e, i, env.locs(e)[k]);
      }
    }
  }

  lemma OnlySlot(table: seq<Element>, e: Element, i: nat, j: nat)
    requires Once(table) && e != DEFAULT && i < |table| && j < |table| && table[i] == table[j] == e
    ensures i == j
  {
    if i < j {
      CountedTwice(table, e, i, j);
    } else if j < i {
      CountedTwice(table, e, j, i);
    }
  }

  lemma CountedTwice(table: seq<Element>, e: Element, i: nat, j: nat)
    requires i < j < |table| && table[i] == table[j] == e
    ensures multiset(table)[e] >= 2
  {
    assert table == table[..i] + [e] + table[i + 1..j] + [e] + table[j + 1..];
  }

  predicate Found(env: Env, s: State, e: Element)
    requires Fits(env, |s.table|)
  {
    Find(env, s.table, e) < 8
  }

  /** An inserted element is found, unless the depth limit was reached and it is the one that was dropped. */
  lemma InsertedIsFound(env: Env, s: State, e: Element, depthLimit: nat)
    requires Inv(env, s) && e != DEFAULT
    ensures |AfterInsert(env, s, e, depthLimit).table| == |s.table| && Shaped(AfterEpochCheck(s))
    ensures var x := Displace(env, AfterEpochCheck(s), e, INVALID, true, depthLimit);
            Found(env, AfterInsert(env, s, e, depthLimit), e) <==>
            Found(env, s, e) || !x.exhausted || x.dropped != e
  {
    InsertKeeps(env, s, e, depthLimit);
    InsertConserves(env, s, e, depthLimit);
    var t, r := AfterEpochCheck(s), AfterInsert(env, s, e, depthLimit);
    FoundIsMember(env, s.table, e);
    FoundIsMember(env, r.table, e);
    FindIs(env.locs(e), s.table, e, 0);
    if !Found(env, s, e) {
      var x := Displace(env, t, e, INVALID, true, depthLimit);
      assert multiset(r.table)[e] + multiset{x.dropped}[e] == multiset(s.table)[e] + multiset{e}[e] by {
        assert (multiset(r.table) + multiset{x.dropped})[e] == (multiset(s.table) + multiset{e})[e];
      }
    }
  }

  /** After an insertion an element that is found and marked for erasure is still found. */
  lemma ErasedIsFound(env: Env, s: State, e: Element, depthLimit: nat)
    requires Inv(env, s) && e != DEFAULT
    ensures var r := AfterInsert(env, s, e, depthLimit);
            && Inv(env, r) && Inv(env, AfterContains(env, r, e, true))
            && (Found(env, r, e) ==> Found(env, AfterContains(env, r, e, true), e))
            && Shaped(AfterEpochCheck(s))
            && (!Displace(env, AfterEpochCheck(s), e, INVALID, true, depthLimit).exhausted ==>
                  Found(env, AfterContains(env, r, e, true), e))
  {
    InsertKeeps(env, s, e, depthLimit);
    var r := AfterInsert(env, s, e, depthLimit);
    ContainsKeeps(env, r, e, true);
    ContainsMarks(env, r, e, true);
    InsertedIsFound(env, s, e, depthLimit);
  }

  function Initial(size: nat): State {
    State(seq(size, _ => DEFAULT), seq(size, _ => true), seq(size, _ => false), EpochSize(size), EpochSize(size))
  }

  lemma {:induction false} InitialLive(size: nat, newest: bool, n: nat)
    requires 2 <= size && n <= size
    ensures LiveUpTo(Initial(size), newest, n) == 0
    decreases n
  {
    if n > 0 {
      InitialLive(size, newest, n - 1);
    }
  }

  lemma InitialKeeps(env: Env, size: nat)
    requires 2 <= size && Fits(env, size)
    ensures Inv(env, Initial(size))
  {
    var s := Initial(size);
    InitialLive(size, true, size);
    InitialLive(size, false, size);
    forall i | 0 <= i < |s.table| ensures HomeAt(env, s.table, i) {
    }
    forall e | e != DEFAULT ensures multiset(s.table)[e] <= 1 {
      assert e !in s.table;
    }
  }

  datatype Op = Insert(e: Element) | Contains(e: Element, erase: bool)

  function Apply(env: Env, s: State, op: Op, depthLimit: nat): State
    requires Shaped(s) && Fits(env, |s.table|)
  {
    match op
    case Insert(e) => AfterInsert(env, s, e, depthLimit)
    case Contains(e, erase) => AfterContains(env, s, e, erase)
  }

  lemma ApplyKeeps(env: Env, s: State, op: Op, depthLimit: nat)
    requires Inv(env, s)
    ensures Inv(env, Apply(env, s, op, depthLimit)) && |Apply(env, s, op, depthLimit).table| == |s.table|
  {
    match op {
      case Insert(e) =>
        InsertKeeps(env, s, e, depthLimit);
        InsertConserves(env, s, e, depthLimit);
      case Contains(e, erase) =>
        ContainsKeeps(env, s, e, erase);
    }
  }

  /** The state after a run of operations. */
  ghost function Run(env: Env, s: State, ops: seq<Op>, depthLimit: nat): State
    requires Inv(env, s)
    decreases |ops|
  {
    if |ops| == 0 then s
    else
      ApplyKeeps(env, s, ops[0], depthLimit);
      Run(env, Apply(env, s, ops[0], depthLimit), ops[1..], depthLimit)
  }

  lemma {:induction false} RunKeeps(env: Env, s: State, ops: seq<Op>, depthLimit: nat)
    requires Inv(env, s)
    ensures Inv(env, Run(env, s, ops, depthLimit)) && |Run(env, s, ops, depthLimit).table| == |s.table|
    decreases |ops|
  {
    if |ops| > 0 {
      ApplyKeeps(env, s, ops[0], depthLimit);
      RunKeeps(env, Apply(env, s, ops[0], depthLimit), ops[1..], depthLimit);
    }
  }

  lemma BoundFits(size: nat)
    requires size >= 21
    ensures 2 * Bound(EpochSize(size)) < size
  {
  }

  /** In every run of a cache of at least 21 slots there is always a slot that may be collected. */
  lemma AlwaysCollectable(env: Env, size: nat, ops: seq<Op>, depthLimit: nat) returns (i: nat)
    requires 21 <= size && Fits(env, size)
    ensures Inv(env, Initial(size))
    ensures i < size == |Run(env, Initial(size), ops, depthLimit).collect|
    ensures Run(env, Initial(size), ops, depthLimit).collect[i]
  {
    InitialKeeps(env, size);
    RunKeeps(env, Initial(size), ops, depthLimit);
    BoundFits(size);
    i := SomeCollectable(Run(env, Initial(size), ops, depthLimit), size);
  }
}
