/** Which fields of which entry each operation of the address manager changes. */
module AddrManEffects {
  import opened AddrMan

  /** Nothing but entry `n` differs. */
  ghost predicate OnlyEntry(s: State, s': State, n: int) {
    && s' == s.(mapInfo := s'.mapInfo) && s'.mapInfo.Keys == s.mapInfo.Keys
    && forall k :: k in s.mapInfo && k != n ==> s'.mapInfo[k] == s.mapInfo[k]
  }

  /** Address, place and position of an entry. */
  predicate SamePlace(a: Info, b: Info) {
    && a.svc == b.svc && a.source == b.source
    && a.refCount == b.refCount && a.inTried == b.inTried && a.randomPos == b.randomPos
  }

  // ----- statistics -----

  /** An attempt sets the time of the last try; it counts as a failure only if asked to and if some address was good
      since the last one that counted. */
  lemma AttemptIs(s: State, svc: Service, countFailure: bool, time: int)
    ensures var s' := AfterAttempt(s, svc, countFailure, time);
            && (!Known(s, svc) ==> s' == s)
            && (Known(s, svc) ==>
                  var n := s.mapAddr[svc.ip];
                  var was, counts := s.mapInfo[n], countFailure && s.mapInfo[n].lastCountAttempt < s.lastGood;
                  && OnlyEntry(s, s', n) && SamePlace(was, s'.mapInfo[n])
                  && s'.mapInfo[n].lastTry == time
                  && s'.mapInfo[n].attempts == was.attempts + (if counts then 1 else 0)
                  && s'.mapInfo[n].lastCountAttempt == (if counts then time else was.lastCountAttempt)
                  && s'.mapInfo[n].lastSuccess == was.lastSuccess && s'.mapInfo[n].time == was.time
                  && s'.mapInfo[n].services == was.services)
  {
  }

  /** Of two attempts with no success of any address between them, at most one counts. */
  lemma SecondAttempt(s: State, svc: Service, a: bool, b: bool, time: int, later: int)
    requires Known(s, svc) && s.lastGood <= time
    ensures Known(AfterAttempt(AfterAttempt(s, svc, a, time), svc, b, later), svc)
    ensures var n := s.mapAddr[svc.ip];
            AfterAttempt(AfterAttempt(s, svc, a, time), svc, b, later).mapInfo[n].attempts <= s.mapInfo[n].attempts + 1
  {
    AttemptIs(s, svc, a, time);
    AttemptIs(AfterAttempt(s, svc, a, time), svc, b, later);
  }

  /** A connection moves the time of a known address forward, in steps of more than twenty minutes. */
  lemma ConnectedIs(s: State, svc: Service, time: int)
    requires 0 <= time < 0x1_0000_0000
    ensures var s' := AfterConnected(s, svc, time);
            && (!Known(s, svc) ==> s' == s)
            && (Known(s, svc) ==>
                  var n := s.mapAddr[svc.ip];
                  && OnlyEntry(s, s', n)
                  && s'.mapInfo[n] == s.mapInfo[n].(time := s'.mapInfo[n].time)
                  && s'.mapInfo[n].time == (if s.mapInfo[n].time + 1200 < time then time else s.mapInfo[n].time))
  {
  }

  lemma SetServicesIs(s: State, svc: Service, services: bv64)
    ensures var s' := AfterSetServices(s, svc, services);
            && (!Known(s, svc) ==> s' == s)
            && (Known(s, svc) ==>
                  var n := s.mapAddr[svc.ip];
                  && OnlyEntry(s, s', n) && s'.mapInfo[n].services == services
                  && s'.mapInfo[n] == s.mapInfo[n].(services := s'.mapInfo[n].services))
  {
  }

  /** Not after a try within the last minute; otherwise if the time is more than ten minutes ahead, missing or more
      than thirty days old, after three tries without any success, or after ten failures with the last success more
      than a week ago. */
  lemma TerribleIs(info: Info, now: int)
    ensures info.lastTry != 0 && now - info.lastTry <= 60 ==> !IsTerrible(info, now)
    ensures !(info.lastTry != 0 && now - info.lastTry <= 60) ==>
              (IsTerrible(info, now) <==>
                || info.time - now > 600 || info.time == 0 || now - info.time > 2592000
                || (info.lastSuccess == 0 && info.attempts >= 3)
                || (now - info.lastSuccess > 604800 && info.attempts >= 10))
  {
  }

  // ----- marking an address good -----

  /** A success is recorded for the entry with exactly this port.  If it is not tried yet it moves to its tried slot,
      and an entry it evicts goes back to its new slot; where a test is asked for and the slot is taken, it becomes
      pending instead, if fewer than ten are.  The statistics of all other entries stay. */
  lemma GoodIs(h: Env, s: State, svc: Service, testBeforeEvict: bool, time: int)
    requires Consistent(h, s) && time > 0
    ensures var s' := AfterGood(h, s, svc, testBeforeEvict, time);
            && s'.lastGood == time
            && (!Known(s, svc) ==> s' == s.(lastGood := time))
            && (Known(s, svc) ==>
                  var n, slot := s.mapAddr[svc.ip], h.TriedSlot(svc);
                  var was := s.mapInfo[n];
                  var moves := !was.inTried && !(testBeforeEvict && slot in s.vvTried);
                  var pends := !was.inTried && testBeforeEvict && slot in s.vvTried && |s.collisions| < 10;
                  && n in s'.mapInfo && s'.mapInfo[n].lastSuccess == s'.mapInfo[n].lastTry == time
                  && s'.mapInfo[n].attempts == 0 && s'.mapInfo[n].time == was.time
                  && s'.mapInfo[n].services == was.services && s'.mapInfo[n].lastCountAttempt == was.lastCountAttempt
                  && (forall k :: k in s'.mapInfo && k != n ==> k in s.mapInfo && SameStats(s.mapInfo[k], s'.mapInfo[k]))
                  && s'.collisions == s.collisions + (if pends then {n} else {})
                  && s'.vvTried == (if moves then s.vvTried[slot := n] else s.vvTried)
                  && s'.mapInfo[n].inTried == (was.inTried || moves)
                  && (!moves ==> s'.vvNew == s.vvNew && s'.mapInfo.Keys == s.mapInfo.Keys)
                  && (moves && slot in s.vvTried ==> GoesBack(h, s', s.vvTried[slot])))
  {
    if Known(s, svc) {
      var n, slot := s.mapAddr[svc.ip], h.TriedSlot(svc);
      GoodStats(h, s, n, time);
      var s2 := s.(mapInfo := s.mapInfo[n := Succeeded(s.mapInfo[n], time)], lastGood := time);
      if !s.mapInfo[n].inTried {
        BucketIsFound(h, s2, n);
        if !(testBeforeEvict && slot in s.vvTried) {
          MadeTried(h, s2, n);
          var s' := AfterMakeTried(h, s2, n);
          forall k | k in s'.mapInfo && k != n ensures k in s.mapInfo && SameStats(s.mapInfo[k], s'.mapInfo[k]) {
            assert SurvivorAt(s2.mapInfo, s'.mapInfo, k);
          }
        }
      }
    }
  }

  /** The entry is new again, with one reference, from the slot of its own source. */
  predicate GoesBack(h: Env, s: State, k: int) {
    && k in s.mapInfo && !s.mapInfo[k].inTried && s.mapInfo[k].refCount == 1
    && var slot := h.NewSlot(s.mapInfo[k].svc, s.mapInfo[k].source); slot in s.vvNew && s.vvNew[slot] == k
  }

  lemma MadeTried(h: Env, s: State, n: int)
    requires ConsistentBut(h, s, {}) && n in s.mapInfo && !s.mapInfo[n].inTried && s.mapInfo[n].lastSuccess > 0
    ensures var s', slot := AfterMakeTried(h, s, n), h.TriedSlot(s.mapInfo[n].svc);
            && Survivors(s.mapInfo, s'.mapInfo) && s'.lastGood == s.lastGood
            && s'.vvTried == s.vvTried[slot := n] && s'.collisions == s.collisions
            && n in s'.mapInfo && s'.mapInfo[n].inTried && SameStats(s.mapInfo[n], s'.mapInfo[n])
            && (slot in s.vvTried ==> GoesBack(h, s', s.vvTried[slot]))
  {
    MakeTriedKeeps(h, s, n);
    assert SurvivorAt(s.mapInfo, AfterMakeTried(h, s, n).mapInfo, n);
    StripKeeps(h, s, n, {});
    assert {} + {n} == {n};
    var s1 := Strip(s, n);
    MakeSpaceKeeps(h, s1, n);
    var slot := h.TriedSlot(s.mapInfo[n].svc);
    if slot in s.vvTried {
      assert TriedOk(h, s, slot);
      EvictedGoesBack(h, s1, n);
    }
  }

  lemma EvictedGoesBack(h: Env, s: State, n: int)
    requires ConsistentBut(h, s, {n}) && n in s.mapInfo && s.mapInfo[n].refCount == 0 && !s.mapInfo[n].inTried
    requires h.TriedSlot(s.mapInfo[n].svc) in s.vvTried
    ensures var k := s.vvTried[h.TriedSlot(s.mapInfo[n].svc)]; k != n && GoesBack(h, MakeSpace(h, s, n), k)
  {
    var tried := h.TriedSlot(s.mapInfo[n].svc);
    assert TriedOk(h, s, tried);
    var k := s.vvTried[tried];
    var slot := h.NewSlot(s.mapInfo[k].svc, s.mapInfo[k].source);
    Unreferenced(h, s, n, slot);
    ClearNewKeeps(h, s, slot, {n});
    var s1 := AfterClearNew(s, slot);
    assert TriedOk(h, s1, tried) && SurvivorAt(s.mapInfo, s1.mapInfo, k);
  }

  // ----- adding an address -----

  /** The time an announcement leaves behind: announced times count with the penalty taken off, and replace a missing
      time, or one older by more than an hour for an address seen within a day and by more than a day otherwise. */
  predicate TimeAfter(was: nat, announced: nat, penalty: int, now: int, time: nat) {
    var interval := if announced > now - 86400 then 3600 else 86400;
    if announced != 0 && (was == 0 || announced - penalty - was > interval)
    then time == (if announced > penalty then announced - penalty else 0) else time == was
  }

  lemma RefreshedIs(was: Info, addr: Address, penalty: int, now: int)
    requires penalty >= 0 && addr.time < 0x1_0000_0000
    ensures var info := Refreshed(was, addr, penalty, now);
            && TimeAfter(was.time, addr.time, penalty, now, info.time) && info.services == was.services | addr.services
            && info == was.(time := info.time, services := info.services)
  {
  }

  /** Whether or not it gets another reference, the refreshed entry and those left keep their statistics. */
  lemma AddKnownKeeps(h: Env, s: State, addr: Address, source: NetAddr, penalty: int, now: int, rnd: nat, n: int)
    requires ConsistentBut(h, s, {}) && n in s.mapInfo
    ensures var s1 := s.(mapInfo := s.mapInfo[n := Refreshed(s.mapInfo[n], addr, penalty, now)]);
            WantsReference(s1.mapInfo[n], addr, rnd) ==>
              && ConsistentBut(h, s1, {n})
              && var s' := Insert(h, s1, n, source, now);
                 && n in s'.mapInfo && Survivors(s1.mapInfo, s'.mapInfo)
                 && s'.vvTried == s1.vvTried && s'.idCount == s1.idCount && s'.collisions == s1.collisions
  {
    var s1 := s.(mapInfo := s.mapInfo[n := Refreshed(s.mapInfo[n], addr, penalty, now)]);
    if WantsReference(s1.mapInfo[n], addr, rnd) {
      RefreshedTables(h, s, n, addr, penalty, now);
      assert IdOk(h, s1, {}, n) && StatsOk(s1, {}, n);
      InsertKeeps(h, s1, n, source, now);
      KnownIsThere(h, s1, n, source, now);
    }
  }

  /** Entry `n` has the time and all the services announced; no other statistics, and no tried slot, changed. */
  ghost predicate Updates(s: State, s': State, n: int, addr: Address, penalty: int, now: int) {
    && n in s.mapInfo && n in s'.mapInfo
    && TimeAfter(s.mapInfo[n].time, addr.time, penalty, now, s'.mapInfo[n].time)
    && s'.mapInfo[n].services == s.mapInfo[n].services | addr.services
    && SameStats(s.mapInfo[n].(time := s'.mapInfo[n].time, services := s'.mapInfo[n].services), s'.mapInfo[n])
    && (forall k :: k in s'.mapInfo && k != n ==> k in s.mapInfo && SameStats(s.mapInfo[k], s'.mapInfo[k]))
    && s'.idCount == s.idCount && s'.vvTried == s.vvTried && s'.collisions == s.collisions
  }

  lemma RefreshedUpdates(s: State, s1: State, s': State, n: int, addr: Address, penalty: int, now: int)
    requires n in s.mapInfo && n in s'.mapInfo && penalty >= 0 && addr.time < 0x1_0000_0000
    requires s1 == s.(mapInfo := s.mapInfo[n := Refreshed(s.mapInfo[n], addr, penalty, now)])
    requires Survivors(s1.mapInfo, s'.mapInfo)
    requires s'.vvTried == s1.vvTried && s'.idCount == s1.idCount && s'.collisions == s1.collisions
    ensures Updates(s, s', n, addr, penalty, now)
  {
    RefreshedIs(s.mapInfo[n], addr, penalty, now);
    assert SurvivorAt(s1.mapInfo, s'.mapInfo, n);
    forall k | k in s'.mapInfo && k != n ensures k in s.mapInfo && SameStats(s.mapInfo[k], s'.mapInfo[k]) {
      assert SurvivorAt(s1.mapInfo, s'.mapInfo, k);
    }
  }

  /** An announcement of a known address updates its time and adds its services; no other statistics change. */
  lemma AddKnownIs(h: Env, s: State, addr: Address, source: NetAddr, penalty0: int, now: int, rnd: nat)
    requires ConsistentBut(h, s, {}) && h.isRoutable(addr.svc.ip) && Found(s, addr.svc.ip)
    requires penalty0 >= 0 && addr.time < 0x1_0000_0000
    ensures Updates(s, AfterAdd(h, s, addr, source, penalty0, now, rnd), s.mapAddr[addr.svc.ip], addr,
                    if addr.svc.ip == source then 0 else penalty0, now)
  {
    var penalty := if addr.svc.ip == source then 0 else penalty0;
    var n := s.mapAddr[addr.svc.ip];
    AddKnownKeeps(h, s, addr, source, penalty, now, rnd, n);
    var s1 := s.(mapInfo := s.mapInfo[n := Refreshed(s.mapInfo[n], addr, penalty, now)]);
    if WantsReference(s1.mapInfo[n], addr, rnd) {
      RefreshedUpdates(s, s1, Insert(h, s1, n, source, now), n, addr, penalty, now);
    } else {
      RefreshedUpdates(s, s1, s1, n, addr, penalty, now);
    }
  }

  lemma KnownIsThere(h: Env, s1: State, n: int, source: NetAddr, now: int)
    requires ConsistentBut(h, s1, {n}) && n in s1.mapInfo && s1.mapInfo[n].refCount > 0
    ensures n in Insert(h, s1, n, source, now).mapInfo
  {
    var slot := h.NewSlot(s1.mapInfo[n].svc, source);
    if !(slot in s1.vvNew && s1.vvNew[slot] == n) {
      ClearNewKeeps(h, s1, slot, {n});
      assert SameShapeAt(s1.mapInfo, AfterClearNew(s1, slot).mapInfo, n);
    }
  }

  /** A new entry has what was announced, the time reduced by the penalty, the source it came from, no history, and one
      reference; the entries left keep their statistics. */
  lemma AddNewIs(h: Env, s: State, addr: Address, source: NetAddr, penalty0: int, now: int, rnd: nat)
    requires ConsistentBut(h, s, {}) && h.isRoutable(addr.svc.ip) && !Found(s, addr.svc.ip)
    requires penalty0 >= 0 && addr.time < 0x1_0000_0000
    ensures var s', n := AfterAdd(h, s, addr, source, penalty0, now, rnd), s.idCount;
            var penalty := if addr.svc.ip == source then 0 else penalty0;
            && s'.idCount == n + 1 && n !in s.mapInfo
            && (n in s'.mapInfo ==>
                  SameStats(Info(addr.svc, addr.services, if addr.time > penalty then addr.time - penalty else 0, source,
                                 0, 0, 0, 0, 0, false, 0), s'.mapInfo[n]))
            && (forall k :: k in s'.mapInfo && k != n ==> k in s.mapInfo && SameStats(s.mapInfo[k], s'.mapInfo[k]))
  {
    var penalty, n := if addr.svc.ip == source then 0 else penalty0, s.idCount;
    assert AddrOk(s, addr.svc.ip);
    AnnounceKeeps(h, s, addr, source, penalty);
    var s1 := Announce(s, addr, source, penalty);
    InsertKeeps(h, s1, n, source, now);
    var s' := Insert(h, s1, n, source, now);
    forall k | k in s'.mapInfo ensures k != n ==> k in s.mapInfo && SameStats(s.mapInfo[k], s'.mapInfo[k]) {
      assert SurvivorAt(s1.mapInfo, s'.mapInfo, k);
    }
    assert n in s'.mapInfo ==> SurvivorAt(s1.mapInfo, s'.mapInfo, n);
  }

  /** One chance in 2, 4, and so on up to 128, by the number of references. */
  lemma ChancesAre()
    ensures TwoTo(1) == 2 && TwoTo(2) == 4 && TwoTo(3) == 8 && TwoTo(4) == 16 && TwoTo(5) == 32 && TwoTo(6) == 64
    ensures TwoTo(7) == 128
  {
    assert TwoTo(2) == 4;
    assert TwoTo(4) == 16;
    assert TwoTo(6) == 64;
  }

  /** What lets a known entry take another slot of the new table: an announced time later than the one it now has, not
      tried, fewer than eight references, and luck. */
  predicate Eligible(info: Info, addr: Address, rnd: nat) {
    && addr.time > info.time && !info.inTried && info.refCount < 8 && rnd % TwoTo(info.refCount) == 0
  }

  lemma EligibleIs(info: Info, addr: Address, rnd: nat)
    requires info.refCount <= 8
    ensures WantsReference(info, addr, rnd) <==> Eligible(info, addr, rnd)
  {
  }

  /** The slot is free, or holds another entry, which is terrible. */
  predicate Yields(s: State, n: int, slot: Slot, now: int) {
    slot !in s.vvNew || (s.vvNew[slot] != n && s.vvNew[slot] in s.mapInfo && IsTerrible(s.mapInfo[s.vvNew[slot]], now))
  }

  /** A known entry gains a reference, in the slot of the source that announced it, if and only if it is eligible and
      that slot is free or holds a terrible entry; it never loses one. */
  lemma AddReferences(h: Env, s: State, addr: Address, source: NetAddr, penalty0: int, now: int, rnd: nat)
    requires ConsistentBut(h, s, {}) && h.isRoutable(addr.svc.ip) && Found(s, addr.svc.ip)
    ensures var s', n := AfterAdd(h, s, addr, source, penalty0, now, rnd), s.mapAddr[addr.svc.ip];
            var slot := h.NewSlot(s.mapInfo[n].svc, source);
            && n in s'.mapInfo
            && var gains := Eligible(s.mapInfo[n].(time := s'.mapInfo[n].time), addr, rnd) && Yields(s, n, slot, now);
               && s'.mapInfo[n].refCount == s.mapInfo[n].refCount + (if gains then 1 else 0)
               && (gains ==> slot in s'.vvNew && s'.vvNew[slot] == n)
  {
    var penalty := if addr.svc.ip == source then 0 else penalty0;
    var n := s.mapAddr[addr.svc.ip];
    assert IdOk(h, s, {}, n) && StatsOk(s, {}, n);
    var s1 := s.(mapInfo := s.mapInfo[n := Refreshed(s.mapInfo[n], addr, penalty, now)]);
    EligibleIs(s1.mapInfo[n], addr, rnd);
    if WantsReference(s1.mapInfo[n], addr, rnd) {
      RefreshedTables(h, s, n, addr, penalty, now);
      InsertReferences(h, s1, n, source, now);
      assert Yields(s1, n, h.NewSlot(s.mapInfo[n].svc, source), now) == Yields(s, n, h.NewSlot(s.mapInfo[n].svc, source), now);
    }
  }

  lemma InsertReferences(h: Env, s: State, n: int, source: NetAddr, now: int)
    requires ConsistentBut(h, s, {n}) && n in s.mapInfo && s.mapInfo[n].refCount > 0
    ensures var s', slot := Insert(h, s, n, source, now), h.NewSlot(s.mapInfo[n].svc, source);
            var room := Yields(s, n, slot, now);
            && n in s'.mapInfo && s'.mapInfo[n].refCount == s.mapInfo[n].refCount + (if room then 1 else 0)
            && s'.mapInfo[n].time == s.mapInfo[n].time
            && (room ==> slot in s'.vvNew && s'.vvNew[slot] == n)
  {
    var slot := h.NewSlot(s.mapInfo[n].svc, source);
    if !(slot in s.vvNew && s.vvNew[slot] == n) {
      ClearNewKeeps(h, s, slot, {n});
      assert SameShapeAt(s.mapInfo, AfterClearNew(s, slot).mapInfo, n);
    }
  }

  // ----- the order in which addresses are given away -----

  /** The swaps of a shuffle on the order of the ids alone. */
  function Shuffled(order: seq<int>, rnd: seq<nat>): (r: seq<int>)
    requires |rnd| <= |order|
    ensures |r| == |order|
    decreases |rnd|
  {
    if rnd == [] then order
    else
      var n := |rnd| - 1;
      Exchanged(Shuffled(order, rnd[..n]), n, PickFrom(n, |order|, rnd[n]))
  }

  function Exchanged(order: seq<int>, p: nat, q: nat): seq<int>
    requires p < |order| && q < |order|
  {
    order[p := order[q]][q := order[p]]
  }

  lemma {:induction false} ShuffledHas(order: seq<int>, rnd: seq<nat>, n: int)
    requires |rnd| <= |order| && n in order
    ensures n in Shuffled(order, rnd)
    decreases |rnd|
  {
    if rnd != [] {
      var m := |rnd| - 1;
      ShuffledHas(order, rnd[..m], n);
      ExchangedHas(Shuffled(order, rnd[..m]), m, PickFrom(m, |order|, rnd[m]), n);
    }
  }

  lemma ExchangedHas(order: seq<int>, p: nat, q: nat, n: int)
    requires p < |order| && q < |order| && n in order
    ensures n in Exchanged(order, p, q)
  {
    var i :| 0 <= i < |order| && order[i] == n;
    var r := Exchanged(order, p, q);
    assert r[if i == p then q else if i == q then p else i] == n;
  }

  lemma PickIs(n: nat, size: nat, q: nat)
    requires n <= q < size
    ensures PickFrom(n, size, q - n) == q
  {
  }

  lemma {:induction false} ShuffleOrders(h: Env, s: State, rnd: seq<nat>)
    requires Consistent(h, s) && |rnd| <= |s.vRandom|
    ensures Shuffle(h, s, rnd).vRandom == Shuffled(s.vRandom, rnd)
    decreases |rnd|
  {
    if rnd != [] {
      var n := |rnd| - 1;
      ShuffleOrders(h, s, rnd[..n]);
      SwapKeeps(h, Shuffle(h, s, rnd[..n]), n, PickFrom(n, |s.vRandom|, rnd[n]));
    }
  }

  /** The next draw can bring any of the rest to the next place. */
  lemma DrawNext(order: seq<int>, rnd: seq<nat>, q: nat)
    requires |rnd| <= q < |order|
    ensures var front, m := Shuffled(order, rnd), |rnd|;
            Shuffled(order, rnd + [q - m])[..m + 1] == front[..m] + [front[q]]
  {
    var front, m := Shuffled(order, rnd), |rnd|;
    var more := rnd + [q - m];
    PickIs(m, |order|, q);
    assert more[..m] == rnd && more[m] == q - m;
    assert Shuffled(order, more) == Exchanged(front, m, q);
  }

  lemma FindBehind(order: seq<int>, m: nat, n: int) returns (q: nat)
    requires m <= |order| && n in order && n !in order[..m]
    ensures m <= q < |order| && order[q] == n
  {
    q :| 0 <= q < |order| && order[q] == n;
  }

  /** Any selection, in any order, can come first. */
  lemma {:induction false} ShuffledReaches(order: seq<int>, ids: seq<int>) returns (rnd: seq<nat>)
    requires (forall i :: 0 <= i < |ids| ==> ids[i] in order) && |ids| <= |order|
    requires forall i, j :: 0 <= i < j < |ids| ==> ids[i] != ids[j]
    ensures |rnd| == |ids| && Shuffled(order, rnd)[..|ids|] == ids
    decreases |ids|
  {
    rnd := [];
    if ids != [] {
      var m := |ids| - 1;
      rnd := ShuffledReaches(order, ids[..m]);
      ShuffledHas(order, rnd, ids[m]);
      var q := FindBehind(Shuffled(order, rnd), m, ids[m]);
      DrawNext(order, rnd, q);
      rnd := rnd + [q - m];
      assert ids == ids[..m] + [ids[m]];
    }
  }

  /** So the addresses that are given away can be any. */
  lemma ShuffleReaches(h: Env, s: State, ids: seq<int>) returns (rnd: seq<nat>)
    requires Consistent(h, s) && (forall i :: 0 <= i < |ids| ==> ids[i] in s.mapInfo)
    requires (forall i, j :: 0 <= i < j < |ids| ==> ids[i] != ids[j]) && |ids| <= |s.vRandom|
    ensures |rnd| == |ids| && Shuffle(h, s, rnd).vRandom[..|ids|] == ids
  {
    forall i | 0 <= i < |ids| ensures ids[i] in s.vRandom {
      assert IdOk(h, s, {}, ids[i]) && StatsOk(s, {}, ids[i]);
    }
    rnd := ShuffledReaches(s.vRandom, ids);
    ShuffleOrders(h, s, rnd);
  }
}
