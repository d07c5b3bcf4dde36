/**
 The address manager as an object: each method follows the source statement by statement
 and is proved to have the effect of the corresponding function on states.
 */
module AddrManager {
  import opened AddrMan

  class Manager {
    const h: Env
    var idCount: int
    var mapInfo: Infos
    var mapAddr: map<NetAddr, int>
    var vRandom: seq<int>
    var nTried: int
    var vvTried: Table
    var nNew: int
    var vvNew: Table
    var lastGood: int
    var collisions: set<int>

    function Abs(): State
      reads this
    {
      State(idCount, mapInfo, mapAddr, vRandom, nTried, vvTried, nNew, vvNew, lastGood, collisions)
    }

    constructor (h: Env)
      ensures this.h == h && Abs() == EMPTY
    {
      this.h := h;
      idCount, nTried, nNew, lastGood := 0, 0, 0, 1;
      mapInfo, mapAddr, vRandom, vvTried, vvNew, collisions := map[], map[], [], map[], map[], {};
    }

    method SwapRandom(p: int, q: int)
      requires 0 <= p < |vRandom| && 0 <= q < |vRandom|
      requires vRandom[p] in mapInfo && vRandom[q] in mapInfo
      modifies this`mapInfo, this`vRandom
      ensures Abs() == AfterSwap(old(Abs()), p, q)
    {
      if p == q {
        return;
      }
      var n, k := vRandom[p], vRandom[q];
      mapInfo := mapInfo[n := mapInfo[n].(randomPos := q)];
      mapInfo := mapInfo[k := mapInfo[k].(randomPos := p)];
      vRandom := vRandom[p := k];
      vRandom := vRandom[q := n];
    }

    method Delete(n: int)
      requires InRandom(Abs(), n)
      requires !mapInfo[n].inTried && mapInfo[n].refCount == 0
      modifies this`mapInfo, this`vRandom, this`mapAddr, this`nNew
      ensures Abs() == AfterDelete(old(Abs()), n)
    {
      var info := mapInfo[n];
      SwapRandom(info.randomPos, |vRandom| - 1);
      vRandom := vRandom[..|vRandom| - 1];
      mapAddr := mapAddr - {info.svc.ip};
      mapInfo := mapInfo - {n};
      nNew := nNew - 1;
    }

    method ClearNew(slot: Slot)
      requires slot in vvNew ==> InRandom(Abs(), vvNew[slot]) && CanUnref(mapInfo, vvNew[slot])
      modifies this`mapInfo, this`vRandom, this`mapAddr, this`nNew, this`vvNew
      ensures Abs() == AfterClearNew(old(Abs()), slot)
    {
      if slot in vvNew {
        var n := vvNew[slot];
        mapInfo := mapInfo[n := mapInfo[n].(refCount := mapInfo[n].refCount - 1)];
        vvNew := vvNew - {slot};
        if mapInfo[n].refCount == 0 {
          Delete(n);
        }
      }
    }

    method Create(addr: Address, source: NetAddr) returns (n: int)
      modifies this`idCount, this`mapInfo, this`mapAddr, this`vRandom
      ensures n == old(idCount) && Abs() == AfterCreate(old(Abs()), addr, source)
    {
      n := idCount;
      idCount := idCount + 1;
      mapInfo := mapInfo[n := Info(addr.svc, addr.services, addr.time, source, 0, 0, 0, 0, 0, false, -1)];
      mapAddr := mapAddr[addr.svc.ip := n];
      mapInfo := mapInfo[n := mapInfo[n].(randomPos := |vRandom|)];
      vRandom := vRandom + [n];
      assert mapInfo == AfterCreate(old(Abs()), addr, source).mapInfo;
    }

    /** The loop over all new buckets that removes entry `n` from each. */
    method LeaveNewBuckets(n: int)
      requires ConsistentBut(h, Abs(), {}) && n in mapInfo
      modifies this`mapInfo, this`vvNew
      ensures Abs() == Strip(old(Abs()), n)
    {
      ghost var s := Abs();
      var svc := mapInfo[n].svc;
      LeftFromZero(h, s, n);
      assert IdOk(h, s, {}, n);
      assert mapInfo[n := mapInfo[n].(refCount := |SlotsOf(vvNew, n)|)] == mapInfo;
      for bucket := 0 to NEW_BUCKET_COUNT
        invariant vvNew == LeftFrom(s.vvNew, n, bucket)
        invariant mapInfo == s.mapInfo[n := s.mapInfo[n].(refCount := |SlotsOf(vvNew, n)|)]
      {
        var slot := Slot(bucket, h.Position(svc, true, bucket));
        LeftFromStep(h, s, n, bucket);
        if slot in vvNew && vvNew[slot] == n {
          RemoveSlot(vvNew, slot, n);
          vvNew := vvNew - {slot};
          mapInfo := mapInfo[n := mapInfo[n].(refCount := mapInfo[n].refCount - 1)];
        }
      }
      LeftFromAll(h, s, n);
    }

    method LeaveTried(tried: Slot)
      requires tried in vvTried && vvTried[tried] in mapInfo
      modifies this`mapInfo, this`nTried, this`vvTried
      ensures Abs() == old(Abs()).(mapInfo := NotTried(old(mapInfo), old(vvTried)[tried]),
                                   vvTried := old(vvTried) - {tried}, nTried := old(nTried) - 1)
    {
      var evict := vvTried[tried];
      mapInfo := mapInfo[evict := mapInfo[evict].(inTried := false)];
      vvTried := vvTried - {tried};
      nTried := nTried - 1;
    }

    method EnterNew(n: int, slot: Slot)
      requires n in mapInfo
      modifies this`mapInfo, this`nNew, this`vvNew
      ensures Abs() == ReturnedToNew(old(Abs()), n, slot)
    {
      mapInfo := mapInfo[n := mapInfo[n].(refCount := 1)];
      vvNew := vvNew[slot := n];
      nNew := nNew + 1;
    }

    /** Moves the entry in the tried slot of `n` back to the new table, if there is one. */
    method EvictTried(n: int, ghost s: State)
      requires ConsistentBut(h, s, {n}) && n in s.mapInfo && s.mapInfo[n].refCount == 0
      requires Abs() == s.(nNew := s.nNew - 1)
      modifies this`mapInfo, this`vRandom, this`mapAddr, this`nNew, this`vvNew, this`nTried, this`vvTried
      ensures Abs() == MakeSpace(h, s, n).(nNew := MakeSpace(h, s, n).nNew - 1)
    {
      var tried := h.TriedSlot(mapInfo[n].svc);
      if tried in vvTried {
        assert TriedOk(h, s, tried);
        var evict := vvTried[tried];
        var slot := h.NewSlot(mapInfo[evict].svc, mapInfo[evict].source);
        MakeSpaceCommutes(h, s, n, slot);
        LeaveTried(tried);
        assert Abs() == Aside(s, tried);
        ClearNew(slot);
        DemoteFromAside(AfterClearNew(s, slot), tried, slot);
        EnterNew(evict, slot);
      }
    }

    method MakeTried(n: int)
      requires ConsistentBut(h, Abs(), {}) && n in mapInfo && !mapInfo[n].inTried
      modifies this`mapInfo, this`vRandom, this`mapAddr, this`nNew, this`vvNew, this`nTried, this`vvTried
      ensures Abs() == AfterMakeTried(h, old(Abs()), n)
    {
      ghost var s := Strip(Abs(), n);
      StripKeeps(h, Abs(), n, {});
      assert {} + {n} == {n};
      LeaveNewBuckets(n);
      nNew := nNew - 1;
      EvictTried(n, s);
      MakeSpaceKeeps(h, s, n);
      vvTried := vvTried[h.TriedSlot(mapInfo[n].svc) := n];
      nTried := nTried + 1;
      mapInfo := mapInfo[n := mapInfo[n].(inTried := true)];
    }

    /** Looks for the entry in all new buckets, starting anywhere. */
    method FindBucket(n: int, svc: Service, start: nat) returns (found: bool)
      ensures found == HasBucket(h, Abs(), svc, n)
    {
      for i := 0 to NEW_BUCKET_COUNT
        invariant forall j :: 0 <= j < i ==> !InBucket(h, vvNew, svc, NthBucket(start, j), n)
      {
        var bucket := NthBucket(start, i);
        var slot := Slot(bucket, h.Position(svc, true, bucket));
        if slot in vvNew && vvNew[slot] == n {
          assert InBucket(h, vvNew, svc, bucket, n);
          return true;
        }
      }
      forall b | 0 <= b < NEW_BUCKET_COUNT ensures !InBucket(h, vvNew, svc, b, n) {
        var j := (b - start) % NEW_BUCKET_COUNT;
        assert NthBucket(start, j) == b;
      }
      return false;
    }

    method Find(ip: NetAddr) returns (found: bool, n: int)
      ensures found == Found(Abs(), ip) && (found ==> n == mapAddr[ip])
    {
      if ip !in mapAddr {
        return false, -1;
      }
      n := mapAddr[ip];
      found := n in mapInfo;
    }

    method Good(svc: Service, testBeforeEvict: bool, time: int, rnd: nat)
      requires Consistent(h, Abs()) && time > 0
      modifies this
      ensures Abs() == AfterGood(h, old(Abs()), svc, testBeforeEvict, time)
    {
      ghost var s := Abs();
      lastGood := time;
      var found, n := Find(svc.ip);
      if !found || mapInfo[n].svc != svc {
        return;
      }
      assert Known(s, svc);
      mapInfo := mapInfo[n := mapInfo[n].(lastSuccess := time, lastTry := time, attempts := 0)];
      GoodStats(h, s, n, time);
      if mapInfo[n].inTried {
        return;
      }
      var inBucket := FindBucket(n, svc, rnd % NEW_BUCKET_COUNT);
      if !inBucket {
        return;
      }
      if testBeforeEvict && h.TriedSlot(svc) in vvTried {
        if |collisions| < SET_TRIED_COLLISION_SIZE {
          collisions := collisions + {n};
        }
      } else {
        MakeTried(n);
      }
    }

    method Attempt(svc: Service, countFailure: bool, time: int)
      modifies this`mapInfo
      ensures Abs() == AfterAttempt(old(Abs()), svc, countFailure, time)
    {
      var found, n := Find(svc.ip);
      if !found || mapInfo[n].svc != svc {
        return;
      }
      ghost var info := mapInfo[n];
      mapInfo := mapInfo[n := mapInfo[n].(lastTry := time)];
      if countFailure && mapInfo[n].lastCountAttempt < lastGood {
        mapInfo := mapInfo[n := mapInfo[n].(lastCountAttempt := time, attempts := mapInfo[n].attempts + 1)];
      }
      assert mapInfo == old(mapInfo)[n := Attempted(info, countFailure, time, lastGood)];
    }

    method Connected(svc: Service, time: int)
      modifies this`mapInfo
      ensures Abs() == AfterConnected(old(Abs()), svc, time)
    {
      var found, n := Find(svc.ip);
      if !found || mapInfo[n].svc != svc {
        return;
      }
      if time - mapInfo[n].time > 20 * 60 {
        mapInfo := mapInfo[n := mapInfo[n].(time := U32(time))];
      }
    }

    method SetServices(svc: Service, services: bv64)
      modifies this`mapInfo
      ensures Abs() == AfterSetServices(old(Abs()), svc, services)
    {
      var found, n := Find(svc.ip);
      if !found || mapInfo[n].svc != svc {
        return;
      }
      mapInfo := mapInfo[n := mapInfo[n].(services := services)];
    }

    method InsertNew(n: int, source: NetAddr, now: int)
      requires ConsistentBut(h, Abs(), {n}) && n in mapInfo
      modifies this`mapInfo, this`vRandom, this`mapAddr, this`nNew, this`vvNew
      ensures Abs() == Insert(h, old(Abs()), n, source, now)
    {
      ghost var s := Abs();
      var slot := h.NewSlot(mapInfo[n].svc, source);
      if slot in vvNew && vvNew[slot] == n {
        return;
      }
      var fInsert := slot !in vvNew;
      if !fInsert {
        assert NewOk(h, s, slot);
        var existing := mapInfo[vvNew[slot]];
        if IsTerrible(existing, now) || (existing.refCount > 1 && mapInfo[n].refCount == 0) {
          fInsert := true;
        }
      }
      if fInsert {
        ClearNewKeeps(h, s, slot, {n});
        assert SameShapeAt(s.mapInfo, AfterClearNew(s, slot).mapInfo, n);
        EnterCleared(n, slot);
      } else if mapInfo[n].refCount == 0 {
        DeleteKeeps(h, s, n, {n});
        assert IdOk(h, s, {n}, n) && StatsOk(s, {n}, n);
        Delete(n);
      }
    }

    /** Whatever is in the slot gives way to entry `n`. */
    method EnterCleared(n: int, slot: Slot)
      requires ConsistentBut(h, Abs(), {n}) && n in mapInfo && !(slot in vvNew && vvNew[slot] == n)
      requires slot in vvNew ==> InRandom(Abs(), vvNew[slot])
      requires n in AfterClearNew(Abs(), slot).mapInfo
      modifies this`mapInfo, this`vRandom, this`mapAddr, this`nNew, this`vvNew
      ensures Abs() == AddRef(old(AfterClearNew(Abs(), slot)), slot, n)
    {
      ClearIsSafe(h, Abs(), n, slot);
      ClearNew(slot);
      mapInfo := mapInfo[n := mapInfo[n].(refCount := mapInfo[n].refCount + 1)];
      vvNew := vvNew[slot := n];
    }

    /** Doubles a factor once per reference. */
    method StochasticFactor(refCount: int) returns (factor: nat)
      ensures factor == TwoTo(refCount)
    {
      factor := 1;
      var i := 0;
      while i < refCount
        invariant 0 <= i <= Max(0, refCount) && factor == TwoTo(i)
      {
        factor := factor * 2;
        i := i + 1;
      }
      assert refCount < 0 ==> TwoTo(refCount) == 1;
    }

    method Add(addr: Address, source: NetAddr, timePenalty: int, now: int, rnd: nat) returns (fNew: bool)
      requires Consistent(h, Abs())
      modifies this
      ensures Abs() == AfterAdd(h, old(Abs()), addr, source, timePenalty, now, rnd)
      ensures fNew == (h.isRoutable(addr.svc.ip) && !Found(old(Abs()), addr.svc.ip))
      ensures fNew ==> (Found(Abs(), addr.svc.ip) <==> HasRoom(h, old(Abs()), addr.svc, source, now))
    {
      if !h.isRoutable(addr.svc.ip) {
        return false;
      }
      ghost var s := Abs();
      var found, n := Find(addr.svc.ip);
      var penalty := if addr.svc.ip == source then 0 else timePenalty;
      if found {
        fNew := false;
        var wanted := Refresh(n, addr, penalty, now, rnd);
        if !wanted {
          return;
        }
        RefreshedKeeps(h, s, n, addr, penalty, now);
      } else {
        fNew := true;
        AddedStays(h, s, addr, source, timePenalty, now, rnd);
        assert AddrOk(s, addr.svc.ip);
        AnnounceKeeps(h, s, addr, source, penalty);
        n := CreateNew(addr, source, penalty);
      }
      InsertNew(n, source, now);
    }

    /** An entry for an address that was not known. */
    method CreateNew(addr: Address, source: NetAddr, penalty: int) returns (n: int)
      modifies this`idCount, this`mapInfo, this`mapAddr, this`vRandom, this`nNew
      ensures n == old(idCount) && Abs() == Announce(old(Abs()), addr, source, penalty)
    {
      n := Create(addr, source);
      mapInfo := mapInfo[n := mapInfo[n].(time := U32(Max(0, mapInfo[n].time - penalty)))];
      nNew := nNew + 1;
    }

    /** Updates what is known of entry `n` and decides whether it may get another reference. */
    method Refresh(n: int, addr: Address, penalty: int, now: int, rnd: nat) returns (wanted: bool)
      requires n in mapInfo
      modifies this`mapInfo
      ensures mapInfo == old(mapInfo)[n := Refreshed(old(mapInfo)[n], addr, penalty, now)]
      ensures wanted == WantsReference(mapInfo[n], addr, rnd)
    {
      var info := mapInfo[n];
      var currentlyOnline := now - addr.time < DAY;
      var updateInterval := if currentlyOnline then 60 * 60 else DAY;
      if addr.time != 0 && (info.time == 0 || info.time < addr.time - updateInterval - penalty) {
        info := info.(time := U32(Max(0, addr.time - penalty)));
      }
      info := info.(services := BothServices(info.services, addr.services));
      assert info == Refreshed(old(mapInfo[n]), addr, penalty, now);
      mapInfo := mapInfo[n := info];
      if addr.time == 0 || (info.time != 0 && addr.time <= info.time) {
        return false;
      }
      if info.inTried || info.refCount == NEW_BUCKETS_PER_ADDRESS {
        return false;
      }
      var factor := StochasticFactor(info.refCount);
      wanted := LuckyDraw(rnd, factor);
    }

    /** Shuffles the front of `vRandom` and collects the entries of good quality found there. */
    method GetAddr(maxAddresses: nat, maxPct: nat, network: Network, now: int, rnd: seq<nat>)
      returns (ids: seq<int>, addrs: seq<Address>, ghost looked: nat)
      requires Consistent(h, Abs()) && |vRandom| <= |rnd|
      modifies this`mapInfo, this`vRandom
      ensures looked <= old(|vRandom|) && Abs() == Shuffle(h, old(Abs()), rnd[..looked])
      ensures |ids| == |addrs| <= Limit(old(|vRandom|), maxAddresses, maxPct)
      ensures forall j :: 0 <= j < |ids| ==> Offers(h, old(mapInfo), ids[j], addrs[j], network, now)
      ensures forall j, k :: 0 <= j < k < |ids| ==> ids[j] != ids[k]
      ensures |ids| == Limit(old(|vRandom|), maxAddresses, maxPct) ||
              forall n :: n in old(mapInfo) && Wanted(h, old(mapInfo)[n], network, now) ==> n in ids
    {
      ghost var s := Abs();
      var nNodes := Limit(|vRandom|, maxAddresses, maxPct);
      var n;
      ids, addrs, n := Collect(nNodes, network, now, rnd);
      looked := n;
      if |ids| < nNodes {
        assert vRandom[..n] == vRandom;
        AllGathered(h, s, Abs(), ids, addrs, network, now);
      }
    }

    /** The loop: until enough entries are collected, or all were seen. */
    method Collect(nNodes: nat, network: Network, now: int, rnd: seq<nat>)
      returns (ids: seq<int>, addrs: seq<Address>, n: nat)
      requires Consistent(h, Abs()) && |vRandom| <= |rnd|
      modifies this`mapInfo, this`vRandom
      ensures n <= |vRandom| == old(|vRandom|) && |addrs| <= nNodes && (n == |vRandom| || |addrs| == nNodes)
      ensures Abs() == Shuffle(h, old(Abs()), rnd[..n]) && OnlyMoved(old(mapInfo), mapInfo)
      ensures Gathered(h, old(mapInfo), vRandom[..n], ids, addrs, network, now)
    {
      ghost var s := Abs();
      ids, addrs, n := [], [], 0;
      assert rnd[..0] == [] == vRandom[..0];
      OnlyMovedSelf(mapInfo);
      while n < |vRandom| && |addrs| < nNodes
        invariant n <= |vRandom| == |s.vRandom|
        invariant Abs() == Shuffle(h, s, rnd[..n]) && OnlyMoved(s.mapInfo, mapInfo)
        invariant |addrs| <= nNodes && Gathered(h, s.mapInfo, vRandom[..n], ids, addrs, network, now)
        decreases |vRandom| - n
      {
        var pos := PickFrom(n, |vRandom|, rnd[n]);
        ShuffleUnfold(h, s, rnd, n);
        ids, addrs := Visit(n, pos, s, ids, addrs, network, now);
        n := n + 1;
      }
    }

    /** One round of the loop: swap position `pos` to the front and look at it. */
    method Visit(n: int, pos: int, ghost s: State, ids: seq<int>, addrs: seq<Address>, network: Network, now: int)
      returns (ids': seq<int>, addrs': seq<Address>)
      requires Consistent(h, Abs()) && 0 <= n <= pos < |vRandom| && OnlyMoved(s.mapInfo, mapInfo)
      requires Gathered(h, s.mapInfo, vRandom[..n], ids, addrs, network, now)
      modifies this`mapInfo, this`vRandom
      ensures old(vRandom[n] in mapInfo && vRandom[pos] in mapInfo)
      ensures Abs() == AfterSwap(old(Abs()), n, pos) && OnlyMoved(s.mapInfo, mapInfo)
      ensures |vRandom| == old(|vRandom|) && |addrs'| <= |addrs| + 1
      ensures Gathered(h, s.mapInfo, vRandom[..n + 1], ids', addrs', network, now)
    {
      ghost var before := Abs();
      ShuffleStep(h, s, before, n, pos);
      SwapRandom(n, pos);
      assert vRandom[..n + 1] == before.vRandom[..n] + [vRandom[n]];
      GatherStep(h, s.mapInfo, before.vRandom[..n], vRandom[n], ids, addrs, network, now);
      var info := mapInfo[vRandom[n]];
      if Wanted(h, info, network, now) {
        return ids + [vRandom[n]], addrs + [AddressOf(info)];
      }
      return ids, addrs;
    }

    method ResolveCollisions(now: int, rnd: nat)
      requires Consistent(h, Abs()) && now > 0
      modifies this
      ensures Abs() == AfterResolve(h, old(Abs()), old(collisions), now)
    {
      ghost var s := Abs();
      var todo := collisions;
      while |todo| > 0
        invariant Consistent(h, Abs())
        invariant AfterResolve(h, Abs(), todo, now) == AfterResolve(h, s, s.collisions, now)
        decreases |todo|
      {
        var n := Smallest(todo);
        ghost var before := Abs();
        ResolveOneKeeps(h, before, n, now);
        ResolveCollision(n, now, rnd);
        todo := todo - {n};
      }
    }

    method ResolveCollision(n: int, now: int, rnd: nat)
      requires Consistent(h, Abs()) && now > 0
      modifies this
      ensures Abs() == ResolveOne(h, old(Abs()), n, now)
    {
      var eraseCollision := false;
      if n !in mapInfo {
        eraseCollision := true;
      } else {
        var info := mapInfo[n];
        var slot := h.TriedSlot(info.svc);
        if !h.isValid(info.svc.ip) {
          eraseCollision := true;
        } else if slot in vvTried {
          assert TriedOk(h, Abs(), slot);
          var holder := mapInfo[vvTried[slot]];
          if now - holder.lastSuccess < REPLACEMENT_HOURS * 60 * 60 {
            eraseCollision := true;
          } else if now - holder.lastTry < REPLACEMENT_HOURS * 60 * 60 {
            if now - holder.lastTry > 60 {
              Good(info.svc, false, now, rnd);
              eraseCollision := true;
            }
          } else if now - info.lastSuccess > TEST_WINDOW {
            Good(info.svc, false, now, rnd);
            eraseCollision := true;
          }
        } else {
          Good(info.svc, false, now, rnd);
          eraseCollision := true;
        }
      }
      if eraseCollision {
        collisions := collisions - {n};
      }
    }

    /** The tried entry that the pending collision `n` wants to evict. */
    method SelectTriedCollision(n: int) returns (found: bool, victim: int)
      requires Consistent(h, Abs()) && n in collisions
      modifies this`collisions
      ensures Abs() == AfterSelect(old(Abs()), n)
      ensures found == (n in mapInfo)
      ensures (n in collisions <==> n in mapInfo) && collisions - {n} == old(collisions) - {n}
      ensures found ==> victim in mapInfo && TriedEntry(h, mapInfo, h.TriedSlot(mapInfo[n].svc), victim)
      ensures found ==> h.TriedSlot(mapInfo[n].svc) in vvTried && victim == vvTried[h.TriedSlot(mapInfo[n].svc)]
    {
      if n !in mapInfo {
        collisions := collisions - {n};
        return false, -1;
      }
      CollisionHasVictim(h, Abs(), n);
      var slot := h.TriedSlot(mapInfo[n].svc);
      assert TriedOk(h, Abs(), slot);
      return true, vvTried[slot];
    }
  }

  datatype Network = AnyNetwork | OnlyNetwork(class_: nat)

  function Limit(size: nat, maxAddresses: nat, maxPct: nat): nat {
    var n := if maxPct != 0 then maxPct * size / 100 else size;
    if maxAddresses != 0 && maxAddresses < n then maxAddresses else n
  }

  function AddressOf(info: Info): Address { Address(info.svc, info.services, info.time) }

  predicate Wanted(h: Env, info: Info, network: Network, now: int) {
    (network.OnlyNetwork? ==> h.netClass(info.svc.ip) == network.class_) && !IsTerrible(info, now)
  }

  predicate Offers(h: Env, m: Infos, n: int, addr: Address, network: Network, now: int) {
    n in m && Wanted(h, m[n], network, now) && addr == AddressOf(m[n])
  }

  predicate Collected(h: Env, m: Infos, n: int, ids: seq<int>, network: Network, now: int) {
    n in m && (Wanted(h, m[n], network, now) ==> n in ids)
  }

  /** Only positions in `vRandom` differ. */
  predicate OnlyMovedAt(m: Infos, m': Infos, n: int) {
    (n in m <==> n in m') && (n in m ==> m'[n] == m[n].(randomPos := m'[n].randomPos))
  }

  ghost predicate OnlyMoved(m: Infos, m': Infos) {
    forall n {:trigger OnlyMovedAt(m, m', n)} :: OnlyMovedAt(m, m', n)
  }

  lemma OnlyMovedSelf(m: Infos)
    ensures OnlyMoved(m, m)
  {
  }

  /** What was collected from the ids in `seen`: exactly the wanted ones, each once. */
  ghost predicate Gathered(h: Env, m: Infos, seen: seq<int>, ids: seq<int>, addrs: seq<Address>,
                           network: Network, now: int)
  {
    && |ids| == |addrs|
    && (forall j :: 0 <= j < |ids| ==> ids[j] in seen && Offers(h, m, ids[j], addrs[j], network, now))
    && (forall j, k :: 0 <= j < k < |ids| ==> ids[j] != ids[k])
    && (forall p :: 0 <= p < |seen| ==> Collected(h, m, seen[p], ids, network, now))
  }

  lemma GatherStep(h: Env, m: Infos, seen: seq<int>, n: int, ids: seq<int>, addrs: seq<Address>,
                   network: Network, now: int)
    requires Gathered(h, m, seen, ids, addrs, network, now) && n !in seen && n in m
    ensures if Wanted(h, m[n], network, now)
            then Gathered(h, m, seen + [n], ids + [n], addrs + [AddressOf(m[n])], network, now)
            else Gathered(h, m, seen + [n], ids, addrs, network, now)
  {
  }

  lemma AllGathered(h: Env, s: State, s': State, ids: seq<int>, addrs: seq<Address>, network: Network, now: int)
    requires Consistent(h, s') && OnlyMoved(s.mapInfo, s'.mapInfo)
    requires Gathered(h, s.mapInfo, s'.vRandom, ids, addrs, network, now)
    ensures forall n :: n in s.mapInfo && Wanted(h, s.mapInfo[n], network, now) ==> n in ids
  {
    forall n | n in s.mapInfo && Wanted(h, s.mapInfo[n], network, now) ensures n in ids {
      assert OnlyMovedAt(s.mapInfo, s'.mapInfo, n) && IdOk(h, s', {}, n) && StatsOk(s', {}, n);
      assert Collected(h, s.mapInfo, s'.vRandom[s'.mapInfo[n].randomPos], ids, network, now);
    }
  }

  lemma ShuffleUnfold(h: Env, s: State, rnd: seq<nat>, n: nat)
    requires Consistent(h, s) && n < |s.vRandom| <= |rnd|
    ensures var q := PickFrom(n, |s.vRandom|, rnd[n]);
      var s1 := Shuffle(h, s, rnd[..n]);
      && s1.vRandom[n] in s1.mapInfo && s1.vRandom[q] in s1.mapInfo
      && Shuffle(h, s, rnd[..n + 1]) == AfterSwap(s1, n, q)
  {
    assert rnd[..n + 1][..n] == rnd[..n];
    var s1 := Shuffle(h, s, rnd[..n]);
    SwapKeeps(h, s1, n, PickFrom(n, |s.vRandom|, rnd[n]));
  }

  lemma MovedOnlyMoves(m0: Infos, m: Infos, n: int, p: int)
    requires OnlyMoved(m0, m) && n in m
    ensures OnlyMoved(m0, Moved(m, n, p))
  {
    forall k ensures OnlyMovedAt(m0, Moved(m, n, p), k) { assert OnlyMovedAt(m0, m, k); }
  }

  /** One swap leaves the front alone and brings an unseen entry to its end. */
  lemma ShuffleStep(h: Env, s: State, before: State, n: int, pos: int)
    requires Consistent(h, before) && OnlyMoved(s.mapInfo, before.mapInfo) && 0 <= n <= pos < |before.vRandom|
    ensures before.vRandom[n] in before.mapInfo && before.vRandom[pos] in before.mapInfo
    ensures var s' := AfterSwap(before, n, pos);
      && OnlyMoved(s.mapInfo, s'.mapInfo)
      && s'.vRandom[..n] == before.vRandom[..n] && s'.vRandom[n] == before.vRandom[pos]
      && s'.vRandom[n] !in before.vRandom[..n] && s'.vRandom[n] in s.mapInfo && s'.vRandom[n] in s'.mapInfo
      && s'.mapInfo[s'.vRandom[n]] == s.mapInfo[s'.vRandom[n]].(randomPos := s'.mapInfo[s'.vRandom[n]].randomPos)
  {
    assert PosOk(before, n) && PosOk(before, pos);
    var x, y := before.vRandom[n], before.vRandom[pos];
    if n != pos {
      MovedOnlyMoves(s.mapInfo, before.mapInfo, x, pos);
      MovedOnlyMoves(s.mapInfo, Moved(before.mapInfo, x, pos), y, n);
    }
    forall i | 0 <= i < n ensures before.vRandom[i] != y { assert PosOk(before, i); }
    assert OnlyMovedAt(s.mapInfo, AfterSwap(before, n, pos).mapInfo, y);
  }

  method Smallest(ids: set<int>) returns (n: int)
    requires |ids| > 0
    ensures n == Least(ids)
  {
    HasMember(ids);
    assert exists x :: x in ids && forall k :: k in ids ==> x <= k by {
      assert Least(ids) in ids;
    }
    n :| n in ids && forall k :: k in ids ==> n <= k;
  }

  function NthBucket(start: nat, j: int): int { (j + start) % NEW_BUCKET_COUNT }

  lemma ClearIsSafe(h: Env, s: State, n: int, slot: Slot)
    requires ConsistentBut(h, s, {n}) && (slot in s.vvNew ==> s.vvNew[slot] != n)
    ensures slot in s.vvNew ==> InRandom(s, s.vvNew[slot]) && CanUnref(s.mapInfo, s.vvNew[slot])
  {
    ClearNewKeeps(h, s, slot, {n});
    if slot in s.vvNew {
      assert NewOk(h, s, slot) && IdOk(h, s, {n}, s.vvNew[slot]);
      SlotIsReference(s.vvNew, slot);
    }
  }

  /** The tried entry in `tried` is in neither table for a moment; one new entry fewer. */
  function Aside(s: State, tried: Slot): State
    requires tried in s.vvTried && s.vvTried[tried] in s.mapInfo
  {
    var k := s.vvTried[tried];
    s.(mapInfo := NotTried(s.mapInfo, k), vvTried := s.vvTried - {tried},
       nTried := s.nTried - 1, nNew := s.nNew - 1)
  }

  function NotTried(m: Infos, k: int): Infos
    requires k in m
  {
    m[k := m[k].(inTried := false)]
  }

  lemma DemoteFromAside(s: State, tried: Slot, slot: Slot)
    requires tried in s.vvTried && s.vvTried[tried] in s.mapInfo
    ensures var a, k := Aside(s, tried), s.vvTried[tried];
      var d := Demote(s, tried, slot);
      d.(nNew := d.nNew - 1) == ReturnedToNew(a, k, slot)
  {
  }

  function ReturnedToNew(s: State, n: int, slot: Slot): State
    requires n in s.mapInfo
  {
    s.(mapInfo := s.mapInfo[n := s.mapInfo[n].(refCount := 1)], vvNew := s.vvNew[slot := n], nNew := s.nNew + 1)
  }

  lemma MovedCommutes(m: Infos, k: int, x: int, p: int)
    requires k in m && x in m
    ensures Moved(NotTried(m, k), x, p) == NotTried(Moved(m, x, p), k)
  {
    if x == k {
      assert Moved(NotTried(m, k), x, p) == m[k := m[k].(inTried := false, randomPos := p)];
    }
  }

  lemma SwapCommutes(s: State, tried: Slot, p: int, q: int)
    requires tried in s.vvTried && s.vvTried[tried] in s.mapInfo
    requires 0 <= p < |s.vRandom| && 0 <= q < |s.vRandom|
    requires s.vRandom[p] in s.mapInfo && s.vRandom[q] in s.mapInfo
    ensures AfterSwap(Aside(s, tried), p, q) == Aside(AfterSwap(s, p, q), tried)
  {
    var k := s.vvTried[tried];
    MovedCommutes(s.mapInfo, k, s.vRandom[p], q);
    MovedCommutes(Moved(s.mapInfo, s.vRandom[p], q), k, s.vRandom[q], p);
  }

  lemma DropLastCommutes(s: State, tried: Slot, n: int)
    requires tried in s.vvTried && s.vvTried[tried] in s.mapInfo && n != s.vvTried[tried]
    requires n in s.mapInfo && |s.vRandom| > 0
    ensures DropLast(Aside(s, tried), n) == Aside(DropLast(s, n), tried)
  {
    var k := s.vvTried[tried];
    assert NotTried(s.mapInfo, k) - {n} == NotTried(s.mapInfo - {n}, k);
  }

  lemma DeleteCommutes(s: State, tried: Slot, n: int)
    requires tried in s.vvTried && s.vvTried[tried] in s.mapInfo && n != s.vvTried[tried] && InRandom(s, n)
    ensures InRandom(Aside(s, tried), n)
    ensures AfterDelete(Aside(s, tried), n) == Aside(AfterDelete(s, n), tried)
  {
    var p, last := s.mapInfo[n].randomPos, |s.vRandom| - 1;
    SwapCommutes(s, tried, p, last);
    DropLastCommutes(AfterSwap(s, p, last), tried, n);
  }

  lemma ClearNewCommutes(s: State, tried: Slot, slot: Slot)
    requires tried in s.vvTried && s.vvTried[tried] in s.mapInfo
    requires slot in s.vvNew ==> InRandom(s, s.vvNew[slot]) && s.vvNew[slot] != s.vvTried[tried]
    ensures AfterClearNew(Aside(s, tried), slot) == Aside(AfterClearNew(s, slot), tried)
  {
    if slot in s.vvNew {
      var n, k := s.vvNew[slot], s.vvTried[tried];
      var s1 := Unref(s, slot);
      assert NotTried(s1.mapInfo, k) == Unref(Aside(s, tried), slot).mapInfo;
      assert Unref(Aside(s, tried), slot) == Aside(s1, tried);
      if s1.mapInfo[n].refCount == 0 {
        assert s1.vRandom[|s1.vRandom| - 1] in s1.mapInfo;
        DeleteCommutes(s1, tried, n);
      }
    }
  }

  predicate IsNewSlotOf(h: Env, s: State, n: int, slot: Slot) {
    n in s.mapInfo && slot == h.NewSlot(s.mapInfo[n].svc, s.mapInfo[n].source)
  }

  /** Evicting first and clearing the slot afterwards, or the other way round. */
  lemma MakeSpaceCommutes(h: Env, s: State, n: int, slot: Slot)
    requires ConsistentBut(h, s, {n}) && n in s.mapInfo && s.mapInfo[n].refCount == 0
    requires h.TriedSlot(s.mapInfo[n].svc) in s.vvTried && IsNewSlotOf(h, s, s.vvTried[h.TriedSlot(s.mapInfo[n].svc)], slot)
    ensures var tried := h.TriedSlot(s.mapInfo[n].svc);
      && (slot in s.vvNew ==>
            InRandom(Aside(s, tried), s.vvNew[slot]) && CanUnref(Aside(s, tried).mapInfo, s.vvNew[slot]))
      && (slot in s.vvNew ==> InRandom(s, s.vvNew[slot]))
      && AfterClearNew(s, slot).vvTried == s.vvTried
      && s.vvTried[tried] in AfterClearNew(s, slot).mapInfo
      && MakeSpace(h, s, n) == Demote(AfterClearNew(s, slot), tried, slot)
      && AfterClearNew(Aside(s, tried), slot) == Aside(AfterClearNew(s, slot), tried)
  {
    var tried := h.TriedSlot(s.mapInfo[n].svc);
    assert TriedOk(h, s, tried);
    Unreferenced(h, s, n, slot);
    ClearNewKeeps(h, s, slot, {n});
    assert TriedOk(h, AfterClearNew(s, slot), tried);
    if slot in s.vvNew {
      var k := s.vvNew[slot];
      assert NewOk(h, s, slot) && IdOk(h, s, {n}, k);
      SlotIsReference(s.vvNew, slot);
    }
    ClearNewCommutes(s, tried, slot);
  }

  /** The table without the references to `n` from the first buckets. */
  function LeftFrom(table: Table, n: int, bucket: int): Table {
    map slot | slot in table && !(table[slot] == n && slot.bucket < bucket) :: table[slot]
  }

  lemma LeftFromZero(h: Env, s: State, n: int)
    requires ConsistentBut(h, s, {})
    ensures LeftFrom(s.vvNew, n, 0) == s.vvNew
  {
    forall x | x in s.vvNew ensures x in LeftFrom(s.vvNew, n, 0) { assert NewOk(h, s, x); }
  }

  /** An entry has at most one slot in each bucket: the one at its position. */
  lemma LeftFromStep(h: Env, s: State, n: int, bucket: int)
    requires ConsistentBut(h, s, {}) && n in s.mapInfo && 0 <= bucket < NEW_BUCKET_COUNT
    ensures var slot := Slot(bucket, h.Position(s.mapInfo[n].svc, true, bucket));
      var left := LeftFrom(s.vvNew, n, bucket);
      LeftFrom(s.vvNew, n, bucket + 1) == if slot in left && left[slot] == n then left - {slot} else left
  {
    var slot := Slot(bucket, h.Position(s.mapInfo[n].svc, true, bucket));
    var left := LeftFrom(s.vvNew, n, bucket);
    var rest := if slot in left && left[slot] == n then left - {slot} else left;
    forall x ensures x in LeftFrom(s.vvNew, n, bucket + 1) <==> x in rest {
      assert NewOk(h, s, x);
    }
  }

  lemma LeftFromAll(h: Env, s: State, n: int)
    requires ConsistentBut(h, s, {}) && n in s.mapInfo
    ensures LeftFrom(s.vvNew, n, NEW_BUCKET_COUNT) == Strip(s, n).vvNew
    ensures |SlotsOf(LeftFrom(s.vvNew, n, NEW_BUCKET_COUNT), n)| == 0
  {
    var left := LeftFrom(s.vvNew, n, NEW_BUCKET_COUNT);
    forall x ensures x in left <==> x in Strip(s, n).vvNew { assert NewOk(h, s, x); }
    StripSlots(s.vvNew, left, n, n);
  }

  predicate CanUnref(m: Infos, n: int) {
    n in m && !m[n].inTried && m[n].refCount > 0
  }
}
