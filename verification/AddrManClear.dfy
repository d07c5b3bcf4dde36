/** Clearing the manager in the middle of a run: the pending collisions of the old tables stay. */
module AddrManClear {
  import opened AddrMan

  function AfterClear(s: State): State { EMPTY.(collisions := s.collisions) }

  lemma ClearedTables(h: Env, s: State)
    ensures ConsistentBut(h, AfterClear(s), {})
  {
    var s' := AfterClear(s);
    assert NewIds(s'.mapInfo) == {} && TriedIds(s'.mapInfo) == {};
    forall n ensures IdOk(h, s', {}, n) {
    }
    forall a ensures AddrOk(s', a) {
    }
    forall i ensures PosOk(s', i) {
    }
    forall slot ensures TriedOk(h, s', slot) && NewOk(h, s', slot) {
    }
  }

  lemma ClearedCollisions(h: Env, s: State)
    ensures CollisionsOk(h, AfterClear(s)) <==> s.collisions == {}
  {
    var s' := AfterClear(s);
    if |s.collisions| > 0 {
      var n := SomeMember(s.collisions);
      assert !CollisionOk(h, s', n);
    }
  }

  /** The new tables are consistent, under any new key; with the pending collisions they are exactly if there is none. */
  lemma ClearedIsConsistent(h: Env, s: State)
    ensures ConsistentBut(h, AfterClear(s), {})
    ensures Consistent(h, AfterClear(s)) <==> s.collisions == {}
  {
    ClearedTables(h, s);
    ClearedCollisions(h, s);
  }

  // ----- addresses added after a clear -----

  /** Every entry is terrible at any time: it has no time and was never tried. */
  predicate Idle(m: Infos) {
    forall n :: n in m ==> m[n].time == 0 && m[n].lastTry == 0
  }

  lemma ClearNewKeepsIdle(h: Env, s: State, slot: Slot, loose: set<int>)
    requires ConsistentBut(h, s, loose) && Idle(s.mapInfo)
    requires slot in s.vvNew ==> InRandom(s, s.vvNew[slot]) && s.vvNew[slot] !in loose
    ensures Idle(AfterClearNew(s, slot).mapInfo)
  {
    ClearNewKeeps(h, s, slot, loose);
    var s' := AfterClearNew(s, slot);
    forall k | k in s'.mapInfo ensures s'.mapInfo[k].time == 0 && s'.mapInfo[k].lastTry == 0 {
      assert SurvivorAt(s.mapInfo, s'.mapInfo, k);
    }
  }

  /** An unknown address whose slot is free or holds a terrible entry: that entry gives way. */
  lemma AddWithRoom(h: Env, s: State, addr: Address, source: NetAddr, penalty: int, now: int)
    requires ConsistentBut(h, s, {}) && Idle(s.mapInfo) && addr.svc.ip !in s.mapAddr
    ensures ConsistentBut(h, Announce(s, addr, source, penalty), {s.idCount})
    ensures var s1, slot := Announce(s, addr, source, penalty), h.NewSlot(addr.svc, source);
            && (slot in s1.vvNew ==> InRandom(s1, s1.vvNew[slot]) && s1.vvNew[slot] != s.idCount)
            && s.idCount in AfterClearNew(s1, slot).mapInfo
            && Insert(h, s1, s.idCount, source, now) == AddRef(AfterClearNew(s1, slot), slot, s.idCount)
  {
    var n, slot := s.idCount, h.NewSlot(addr.svc, source);
    assert NewOk(h, s, slot);
    AnnounceKeeps(h, s, addr, source, penalty);
    var s1 := Announce(s, addr, source, penalty);
    ClearNewKeeps(h, s1, slot, {n});
    assert SameShapeAt(s1.mapInfo, AfterClearNew(s1, slot).mapInfo, n);
  }

  /** Announcing an address and clearing a slot for it makes no other address known. */
  lemma ClearNewKeepsUnknown(h: Env, s: State, addr: Address, source: NetAddr, penalty: int, slot: Slot, a: NetAddr)
    requires ConsistentBut(h, Announce(s, addr, source, penalty), {s.idCount})
    requires var s1 := Announce(s, addr, source, penalty);
             slot in s1.vvNew ==> InRandom(s1, s1.vvNew[slot]) && s1.vvNew[slot] != s.idCount
    requires a in AfterClearNew(Announce(s, addr, source, penalty), slot).mapAddr
    ensures a in s.mapAddr || a == addr.svc.ip
  {
    var n, s1 := s.idCount, Announce(s, addr, source, penalty);
    ClearNewKeeps(h, s1, slot, {n});
    var s2 := AfterClearNew(s1, slot);
    assert AddrOk(s2, a);
    var k := s2.mapAddr[a];
    assert SurvivorAt(s1.mapInfo, s2.mapInfo, k) && IdOk(h, s1, {n}, k);
  }

  /** An address without a time is idle too. */
  lemma AnnounceIdle(h: Env, s: State, addr: Address, source: NetAddr, penalty: int, slot: Slot)
    requires ConsistentBut(h, Announce(s, addr, source, penalty), {s.idCount}) && Idle(s.mapInfo)
    requires addr.time == 0 && penalty >= 0
    requires var s1 := Announce(s, addr, source, penalty);
             && (slot in s1.vvNew ==> InRandom(s1, s1.vvNew[slot]) && s1.vvNew[slot] != s.idCount)
             && s.idCount in AfterClearNew(s1, slot).mapInfo
    ensures Idle(AddRef(AfterClearNew(Announce(s, addr, source, penalty), slot), slot, s.idCount).mapInfo)
  {
    ClearNewKeepsIdle(h, Announce(s, addr, source, penalty), slot, {s.idCount});
  }

  /** Among idle entries an unknown address always finds room, and gets the next id. */
  lemma AddAmongIdle(h: Env, s: State, addr: Address, source: NetAddr, penalty0: int, now: int, rnd: nat)
    requires ConsistentBut(h, s, {}) && Idle(s.mapInfo) && h.isRoutable(addr.svc.ip) && addr.svc.ip !in s.mapAddr
    ensures var s' := AfterAdd(h, s, addr, source, penalty0, now, rnd);
            && s'.idCount == s.idCount + 1 && s.idCount in s'.mapInfo
            && (addr.time == 0 && penalty0 >= 0 ==> Idle(s'.mapInfo))
            && forall a :: a in s'.mapAddr ==> a in s.mapAddr || a == addr.svc.ip
  {
    var penalty := if addr.svc.ip == source then 0 else penalty0;
    var n, slot := s.idCount, h.NewSlot(addr.svc, source);
    AddWithRoom(h, s, addr, source, penalty, now);
    var s1 := Announce(s, addr, source, penalty);
    var s2 := AfterClearNew(s1, slot);
    assert AfterAdd(h, s, addr, source, penalty0, now, rnd) == AddRef(s2, slot, n);
    assert s2.idCount == s1.idCount by { ClearNewKeeps(h, s1, slot, {n}); }
    if addr.time == 0 && penalty0 >= 0 {
      AnnounceIdle(h, s, addr, source, penalty, slot);
    }
    forall a | a in s2.mapAddr ensures a in s.mapAddr || a == addr.svc.ip {
      ClearNewKeepsUnknown(h, s, addr, source, penalty, slot, a);
    }
  }

  predicate Adds(ops: seq<Op>) {
    forall i :: 0 <= i < |ops| ==> ops[i].AddOp?
  }

  predicate Timeless(op: Op)
    requires op.AddOp?
  {
    op.addr.time == 0 && op.penalty >= 0
  }

  /** Distinct routable addresses, all but the last without a time. */
  predicate Unseen(h: Env, ops: seq<Op>)
    requires Adds(ops)
  {
    && (forall i :: 0 <= i < |ops| ==> h.isRoutable(ops[i].addr.svc.ip))
    && (forall i, j :: 0 <= i < j < |ops| ==> ops[i].addr.svc.ip != ops[j].addr.svc.ip)
    && (forall i :: 0 <= i < |ops| - 1 ==> Timeless(ops[i]))
  }

  /** The calls of `Add_`, whether or not the pending collisions are consistent. */
  ghost function Added(h: Env, s: State, ops: seq<Op>): (s': State)
    requires ConsistentBut(h, s, {}) && Adds(ops)
    ensures ConsistentBut(h, s', {}) && s'.collisions == s.collisions && s'.vvTried == s.vvTried
  {
    if ops == [] then s
    else
      var op, s1 := ops[|ops| - 1], Added(h, s, ops[..|ops| - 1]);
      AddKeepsTables(h, s1, op.addr, op.source, op.penalty, op.now, op.rnd);
      AfterAdd(h, s1, op.addr, op.source, op.penalty, op.now, op.rnd)
  }

  /** The ids start again at 0 and every address gets the next one. */
  lemma {:induction false} AddedAfterClear(h: Env, s: State, ops: seq<Op>)
    requires ConsistentBut(h, AfterClear(s), {}) && Adds(ops) && Unseen(h, ops)
    ensures var s' := Added(h, AfterClear(s), ops);
            && s'.idCount == |ops|
            && (|ops| > 0 ==> |ops| - 1 in s'.mapInfo)
            && ((|ops| > 0 ==> Timeless(ops[|ops| - 1])) ==> Idle(s'.mapInfo))
            && forall a :: a in s'.mapAddr ==> exists i :: 0 <= i < |ops| && ops[i].addr.svc.ip == a
  {
    if ops != [] {
      var m := |ops| - 1;
      var op, front := ops[m], ops[..m];
      UnseenPrefix(h, ops, m);
      AddedAfterClear(h, s, front);
      var s1 := Added(h, AfterClear(s), front);
      assert op.addr.svc.ip !in s1.mapAddr;
      assert m > 0 ==> front[m - 1] == ops[m - 1];
      AddAmongIdle(h, s1, op.addr, op.source, op.penalty, op.now, op.rnd);
      forall a | a in Added(h, AfterClear(s), ops).mapAddr
        ensures exists i :: 0 <= i < |ops| && ops[i].addr.svc.ip == a
      {
        if a in s1.mapAddr {
          var i :| 0 <= i < m && front[i].addr.svc.ip == a;
          assert ops[i].addr.svc.ip == a;
        } else {
          assert ops[m].addr.svc.ip == a;
        }
      }
    }
  }

  /** A pending collision whose id is in use has an entry in the tried table that it collides with. */
  ghost predicate HasVictims(h: Env, s: State) {
    forall n :: n in s.collisions && n in s.mapInfo ==> h.TriedSlot(s.mapInfo[n].svc) in s.vvTried
  }

  /** An id that was pending before the clear is given out again, to the address added as number `n + 1`; its
      collision is then pending without an entry to collide with. */
  lemma ReusedIdHasNoVictim(h: Env, s: State, n: nat, ops: seq<Op>)
    requires n in s.collisions && Adds(ops) && |ops| == n + 1 && Unseen(h, ops)
    ensures ConsistentBut(h, AfterClear(s), {})
    ensures var s' := Added(h, AfterClear(s), ops);
            n in s'.collisions && n in s'.mapInfo && h.TriedSlot(s'.mapInfo[n].svc) !in s'.vvTried
  {
    ClearedTables(h, s);
    AddedAfterClear(h, s, ops);
  }

  lemma UnseenPrefix(h: Env, ops: seq<Op>, k: nat)
    requires k <= |ops| && Adds(ops) && Unseen(h, ops)
    ensures Adds(ops[..k]) && Unseen(h, ops[..k])
  {
    var part := ops[..k];
    assert forall i :: 0 <= i < k ==> part[i] == ops[i];
  }

  /** After a clear, a run that gives out the old ids again keeps a victim for every pending collision exactly if
      none was pending when the manager was cleared. */
  lemma VictimsAfterClear(h0: Env, h: Env, s: State, ops: seq<Op>)
    requires Consistent(h0, s) && Adds(ops) && Unseen(h, ops) && s.idCount <= |ops|
    ensures ConsistentBut(h, AfterClear(s), {}) && forall k :: 0 <= k <= |ops| ==> Adds(ops[..k])
    ensures (forall k :: 0 <= k <= |ops| ==> HasVictims(h, Added(h, AfterClear(s), ops[..k]))) <==> s.collisions == {}
  {
    ClearedTables(h, s);
    forall k | 0 <= k <= |ops| ensures Adds(ops[..k]) { UnseenPrefix(h, ops, k); }
    if |s.collisions| > 0 {
      var n := SomeMember(s.collisions);
      assert CollisionOk(h0, s, n);
      UnseenPrefix(h, ops, n + 1);
      ReusedIdHasNoVictim(h, s, n, ops[..n + 1]);
      assert !HasVictims(h, Added(h, AfterClear(s), ops[..n + 1]));
    }
  }

  /** With none pending, every run of operations after the clear does. */
  lemma RunAfterClear(h: Env, s: State, ops: seq<Op>)
    requires s.collisions == {}
    ensures Consistent(h, AfterClear(s))
    ensures LegalRun(h, AfterClear(s), ops) ==> HasVictims(h, Run(h, AfterClear(s), ops))
  {
    ClearedIsConsistent(h, s);
    if LegalRun(h, AfterClear(s), ops) {
      RunKeeps(h, AfterClear(s), ops);
      var s' := Run(h, AfterClear(s), ops);
      forall n | n in s'.collisions && n in s'.mapInfo ensures h.TriedSlot(s'.mapInfo[n].svc) in s'.vvTried {
        assert CollisionOk(h, s', n);
      }
    }
  }

  /** A known entry whose tried slot is taken becomes a pending collision. */
  lemma GoodPends(h: Env, s: State, svc: Service, time: int)
    requires Consistent(h, s) && time > 0 && Known(s, svc) && !s.mapInfo[s.mapAddr[svc.ip]].inTried
    requires h.TriedSlot(svc) in s.vvTried && |s.collisions| < SET_TRIED_COLLISION_SIZE
    ensures s.mapAddr[svc.ip] in AfterGood(h, s, svc, true, time).collisions
  {
    var n := s.mapAddr[svc.ip];
    GoodStats(h, s, n, time);
    BucketIsFound(h, s.(mapInfo := s.mapInfo[n := Succeeded(s.mapInfo[n], time)], lastGood := time), n);
  }

  /** One whose tried slot is free moves there, and the others stay. */
  lemma GoodMoves(h: Env, s: State, svc: Service, time: int, k: int)
    requires Consistent(h, s) && time > 0 && Known(s, svc) && !s.mapInfo[s.mapAddr[svc.ip]].inTried
    requires h.TriedSlot(svc) !in s.vvTried && k in s.mapInfo && k != s.mapAddr[svc.ip]
    ensures var s' := AfterGood(h, s, svc, true, time);
            && h.TriedSlot(svc) in s'.vvTried && s'.collisions == s.collisions && s'.mapAddr == s.mapAddr
            && k in s'.mapInfo && s'.mapInfo[k] == s.mapInfo[k]
  {
    var n := s.mapAddr[svc.ip];
    GoodStats(h, s, n, time);
    var s2 := s.(mapInfo := s.mapInfo[n := Succeeded(s.mapInfo[n], time)], lastGood := time);
    BucketIsFound(h, s2, n);
    MakeTriedKeeps(h, s2, n);
  }

  /** A run that adds two addresses with different new slots and the same tried slot. */
  lemma TwoAdded() returns (h: Env, a: Service, b: Service, ops: seq<Op>, s: State)
    ensures RunsFromEmpty(h, ops) && s == Reached(h, ops)
    ensures Consistent(h, s) && Known(s, a) && Known(s, b) && s.mapAddr[a.ip] == 0 && s.mapAddr[b.ip] == 1
    ensures !s.mapInfo[0].inTried && !s.mapInfo[1].inTried && s.vvTried == map[] && s.collisions == {}
    ensures h.TriedSlot(a) == h.TriedSlot(b)
  {
    h := Env((ip, _) => ip, _ => 0, (_, _, _) => 0, _ => true, _ => true, _ => 0);
    a, b := Service(1, 0), Service(2, 0);
    assert h.NewSlot(a, 0) == Slot(1, 0) && h.NewSlot(b, 0) == Slot(2, 0);
    ops, s := AddTwo(h, a, b);
  }

  lemma AddTwo(h: Env, a: Service, b: Service) returns (ops: seq<Op>, s: State)
    requires h.isRoutable(a.ip) && h.isRoutable(b.ip) && a.ip != b.ip && h.NewSlot(a, 0) != h.NewSlot(b, 0)
    ensures RunsFromEmpty(h, ops) && s == Reached(h, ops)
    ensures Consistent(h, s) && Known(s, a) && Known(s, b) && s.mapAddr[a.ip] == 0 && s.mapAddr[b.ip] == 1
    ensures !s.mapInfo[0].inTried && !s.mapInfo[1].inTried && s.vvTried == map[] && s.collisions == {}
  {
    var x, y := AddOp(Address(a, 0, 1000), 0, 0, 1000, 0), AddOp(Address(b, 0, 1000), 0, 0, 1000, 0);
    FirstAdded(h, x);
    RunAdd(h, [x], y);
    AddToFree(h, Reached(h, [x]), y);
    ops := [x] + [y];
    s := Reached(h, ops);
    EmptyIsConsistent(h);
    RunKeeps(h, EMPTY, ops);
  }

  /** A run that leaves the collision of the entry with id 0 pending. */
  lemma PendingIsReachable() returns (h: Env, ops: seq<Op>, s: State)
    ensures RunsFromEmpty(h, ops) && s == Reached(h, ops)
    ensures Consistent(h, s) && 0 in s.collisions
  {
    var a, b, s2;
    h, a, b, ops, s2 := TwoAdded();
    EmptyIsConsistent(h);
    RunGood(h, ops, GoodOp(b, true, 1000));
    GoodMoves(h, s2, b, 1000, 0);
    ops := ops + [GoodOp(b, true, 1000)];
    RunGood(h, ops, GoodOp(a, true, 1000));
    GoodPends(h, Reached(h, ops), a, 1000);
    ops := ops + [GoodOp(a, true, 1000)];
    s := Reached(h, ops);
    RunKeeps(h, EMPTY, ops);
  }
}
