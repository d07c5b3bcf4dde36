/**
 The debugging self-check of the address manager, and that it accepts exactly the states
 described by a declarative condition, which every consistent state meets.
 */
module AddrManCheck {
  import opened AddrMan
  import Sets

  // ----- what the check accepts -----

  /** Looking up a missing address yields the default id 0. */
  function AddrLookup(mapAddr: map<NetAddr, int>, ip: NetAddr): int {
    if ip in mapAddr then mapAddr[ip] else 0
  }

  predicate EntryChecked(s: State, n: int) {
    n in s.mapInfo ==>
      var info := s.mapInfo[n];
      && EntryOk(info)
      && AddrLookup(s.mapAddr, info.svc.ip) == n
      && 0 <= info.randomPos < |s.vRandom| && s.vRandom[info.randomPos] == n
  }

  predicate TriedPlaced(h: Env, s: State, n: int) {
    n in s.mapInfo && s.mapInfo[n].inTried ==>
      h.TriedSlot(s.mapInfo[n].svc) in s.vvTried && s.vvTried[h.TriedSlot(s.mapInfo[n].svc)] == n
  }

  predicate RefsCounted(s: State, n: int) {
    n in s.mapInfo && !s.mapInfo[n].inTried ==> s.mapInfo[n].refCount == |SlotsOf(s.vvNew, n)|
  }

  predicate SizesOk(s: State) {
    |s.vRandom| == s.nTried + s.nNew && |TriedIds(s.mapInfo)| == s.nTried && |NewIds(s.mapInfo)| == s.nNew
  }

  ghost predicate EntriesChecked(s: State) {
    forall n {:trigger EntryChecked(s, n)} :: EntryChecked(s, n)
  }

  ghost predicate TriedChecked(h: Env, s: State) {
    && (forall slot {:trigger TriedOk(h, s, slot)} :: TriedOk(h, s, slot))
    && (forall n {:trigger TriedPlaced(h, s, n)} :: TriedPlaced(h, s, n))
  }

  ghost predicate NewChecked(h: Env, s: State) {
    && (forall slot {:trigger NewOk(h, s, slot)} :: NewOk(h, s, slot))
    && (forall n {:trigger RefsCounted(s, n)} :: RefsCounted(s, n))
  }

  ghost predicate Checked(h: Env, s: State) {
    SizesOk(s) && EntriesChecked(s) && TriedChecked(h, s) && NewChecked(h, s)
  }

  /** The bucket tables are fixed-size arrays. */
  predicate InRange(table: Table, buckets: int) {
    forall slot :: slot in table ==> 0 <= slot.bucket < buckets && 0 <= slot.pos < BUCKET_SIZE
  }

  /** Every consistent state passes the self-check. */
  lemma ConsistentIsChecked(h: Env, s: State)
    requires ConsistentBut(h, s, {})
    ensures Checked(h, s) && InRange(s.vvNew, NEW_BUCKET_COUNT) && InRange(s.vvTried, TRIED_BUCKET_COUNT)
  {
    forall n ensures EntryChecked(s, n) && TriedPlaced(h, s, n) && RefsCounted(s, n) {
      assert IdOk(h, s, {}, n) && StatsOk(s, {}, n);
    }
    forall slot | slot in s.vvNew ensures 0 <= slot.bucket < NEW_BUCKET_COUNT && 0 <= slot.pos < BUCKET_SIZE {
      assert NewOk(h, s, slot);
    }
    forall slot | slot in s.vvTried ensures 0 <= slot.bucket < TRIED_BUCKET_COUNT && 0 <= slot.pos < BUCKET_SIZE {
      assert TriedOk(h, s, slot);
    }
  }

  // ----- the loop over the entries -----

  /** The error code for one entry, 0 if there is none. */
  function EntryError(s: State, n: int): (err: int)
    requires n in s.mapInfo
    ensures err == 0 <==> EntryChecked(s, n)
  {
    var info := s.mapInfo[n];
    if info.inTried && info.lastSuccess == 0 then -1
    else if info.inTried && info.refCount != 0 then -2
    else if !info.inTried && (info.refCount < 0 || info.refCount > NEW_BUCKETS_PER_ADDRESS) then -3
    else if !info.inTried && info.refCount == 0 then -4
    else if AddrLookup(s.mapAddr, info.svc.ip) != n then -5
    else if info.randomPos < 0 || info.randomPos >= |s.vRandom| || s.vRandom[info.randomPos] != n then -14
    else if info.lastTry < 0 then -6
    else if info.lastSuccess < 0 then -8
    else 0
  }

  method CheckEntries(s: State) returns (err: int, setTried: set<int>, mapNew: map<int, int>)
    ensures err == 0 <==> EntriesChecked(s)
    ensures err == 0 ==> setTried == TriedIds(s.mapInfo) && mapNew.Keys == NewIds(s.mapInfo)
    ensures err == 0 ==> forall n :: n in mapNew ==> mapNew[n] == s.mapInfo[n].refCount
  {
    setTried, mapNew := {}, map[];
    var rest := s.mapInfo.Keys;
    while |rest| > 0
      invariant rest <= s.mapInfo.Keys
      invariant forall n {:trigger EntryChecked(s, n)} :: n !in rest ==> EntryChecked(s, n)
      invariant forall n :: n in setTried <==> n in s.mapInfo && n !in rest && s.mapInfo[n].inTried
      invariant forall n :: n in mapNew <==> n in s.mapInfo && n !in rest && !s.mapInfo[n].inTried
      invariant forall n :: n in mapNew ==> mapNew[n] == s.mapInfo[n].refCount
      decreases |rest|
    {
      HasMember(rest);
      var n :| n in rest;
      err := EntryError(s, n);
      if err != 0 {
        assert !EntryChecked(s, n);
        return;
      }
      if s.mapInfo[n].inTried {
        setTried := setTried + {n};
      } else {
        mapNew := mapNew[n := s.mapInfo[n].refCount];
      }
      rest := rest - {n};
    }
    assert forall n :: n in setTried <==> n in TriedIds(s.mapInfo);
    assert forall n :: n in mapNew.Keys <==> n in NewIds(s.mapInfo);
    err := 0;
  }

  // ----- the loop over the tried table -----

  predicate Before(slot: Slot, b: int, i: int) {
    slot.bucket < b || (slot.bucket == b && slot.pos < i)
  }

  /** The tried entries whose slot has not been visited. */
  predicate TriedPending(h: Env, s: State, n: int, b: int, i: int) {
    && n in s.mapInfo && s.mapInfo[n].inTried
    && !(TriedPlaced(h, s, n) && Before(h.TriedSlot(s.mapInfo[n].svc), b, i))
  }

  ghost predicate TriedVisited(h: Env, s: State, setTried: set<int>, b: int, i: int) {
    && (forall slot {:trigger TriedOk(h, s, slot)} :: Before(slot, b, i) ==> TriedOk(h, s, slot))
    && (forall n {:trigger TriedPending(h, s, n, b, i)} :: n in setTried <==> TriedPending(h, s, n, b, i))
  }

  lemma TriedStep(h: Env, s: State, setTried: set<int>, b: int, i: int)
    requires TriedVisited(h, s, setTried, b, i)
    ensures Slot(b, i) !in s.vvTried ==> TriedVisited(h, s, setTried, b, i + 1)
    ensures TriedOk(h, s, Slot(b, i)) && Slot(b, i) in s.vvTried ==>
              s.vvTried[Slot(b, i)] in setTried && TriedVisited(h, s, setTried - {s.vvTried[Slot(b, i)]}, b, i + 1)
  {
    var slot := Slot(b, i);
    if slot !in s.vvTried || TriedOk(h, s, slot) {
      forall x | Before(x, b, i + 1) ensures TriedOk(h, s, x) {
        if Before(x, b, i) { assert TriedOk(h, s, x); } else { assert x == slot; }
      }
      var left := if slot in s.vvTried then setTried - {s.vvTried[slot]} else setTried;
      forall n ensures n in left <==> TriedPending(h, s, n, b, i + 1) {
        assert n in setTried <==> TriedPending(h, s, n, b, i);
        if n in s.mapInfo && s.mapInfo[n].inTried { SlotOrder(h.TriedSlot(s.mapInfo[n].svc), b, i); }
      }
      if slot in s.vvTried {
        assert s.vvTried[slot] in setTried <==> TriedPending(h, s, s.vvTried[slot], b, i);
      }
    }
  }

  lemma SlotOrder(slot: Slot, b: int, i: int)
    ensures Before(slot, b, i + 1) <==> Before(slot, b, i) || slot == Slot(b, i)
  {
  }

  lemma NextBucket(h: Env, s: State, setTried: set<int>, b: int)
    requires TriedVisited(h, s, setTried, b, BUCKET_SIZE) && InRange(s.vvTried, TRIED_BUCKET_COUNT)
    ensures TriedVisited(h, s, setTried, b + 1, 0)
  {
    forall x | Before(x, b + 1, 0) ensures TriedOk(h, s, x) {
      if x in s.vvTried { assert Before(x, b, BUCKET_SIZE); assert TriedOk(h, s, x); }
    }
    forall n ensures n in setTried <==> TriedPending(h, s, n, b + 1, 0) {
      assert n in setTried <==> TriedPending(h, s, n, b, BUCKET_SIZE);
    }
  }

  method CheckTried(h: Env, s: State, start: set<int>) returns (err: int, setTried: set<int>)
    requires start == TriedIds(s.mapInfo) && InRange(s.vvTried, TRIED_BUCKET_COUNT)
    ensures err == 0 && |setTried| == 0 <==> TriedChecked(h, s)
  {
    setTried := start;
    assert TriedVisited(h, s, setTried, 0, 0) by { TriedVisitedStart(h, s); }
    for b := 0 to TRIED_BUCKET_COUNT
      invariant TriedVisited(h, s, setTried, b, 0)
    {
      for i := 0 to BUCKET_SIZE
        invariant TriedVisited(h, s, setTried, b, i)
      {
        var slot := Slot(b, i);
        TriedStep(h, s, setTried, b, i);
        if slot in s.vvTried {
          var n := s.vvTried[slot];
          if n !in setTried {
            assert !TriedOk(h, s, slot);
            return -11, setTried;
          }
          assert TriedPending(h, s, n, b, i);
          if h.TriedSlot(s.mapInfo[n].svc).bucket != b {
            assert !TriedOk(h, s, slot);
            return -17, setTried;
          }
          if h.TriedSlot(s.mapInfo[n].svc).pos != i {
            assert !TriedOk(h, s, slot);
            return -18, setTried;
          }
          assert TriedOk(h, s, slot);
          setTried := setTried - {n};
        }
      }
      NextBucket(h, s, setTried, b);
    }
    TriedVisitedEnd(h, s, setTried);
    err := 0;
  }

  lemma TriedVisitedStart(h: Env, s: State)
    requires InRange(s.vvTried, TRIED_BUCKET_COUNT)
    ensures TriedVisited(h, s, TriedIds(s.mapInfo), 0, 0)
  {
    forall x | Before(x, 0, 0) ensures TriedOk(h, s, x) {
      assert x !in s.vvTried;
    }
    forall n ensures n in TriedIds(s.mapInfo) <==> TriedPending(h, s, n, 0, 0) {
    }
  }

  lemma TriedVisitedEnd(h: Env, s: State, setTried: set<int>)
    requires TriedVisited(h, s, setTried, TRIED_BUCKET_COUNT, 0) && InRange(s.vvTried, TRIED_BUCKET_COUNT)
    ensures |setTried| == 0 <==> TriedChecked(h, s)
  {
    forall x ensures TriedOk(h, s, x) {
      if x in s.vvTried { assert Before(x, TRIED_BUCKET_COUNT, 0); assert TriedOk(h, s, x); }
    }
    if |setTried| == 0 {
      forall n ensures TriedPlaced(h, s, n) {
        assert n in setTried <==> TriedPending(h, s, n, TRIED_BUCKET_COUNT, 0);
      }
    } else {
      HasMember(setTried);
      var n :| n in setTried;
      assert TriedPending(h, s, n, TRIED_BUCKET_COUNT, 0);
      assert !TriedPlaced(h, s, n);
    }
  }

  // ----- the loop over the new table -----

  function VisitedSlots(table: Table, n: int, b: int, i: int): set<Slot> {
    set slot | slot in table && table[slot] == n && Before(slot, b, i)
  }

  /** What the countdown for entry `n` stands at. */
  predicate Countdown(s: State, mapNew: map<int, int>, n: int, b: int, i: int) {
    var isNew := n in s.mapInfo && !s.mapInfo[n].inTried;
    var left := if isNew then s.mapInfo[n].refCount - |VisitedSlots(s.vvNew, n, b, i)| else 0;
    && left >= 0
    && (n in mapNew <==> left > 0)
    && (n in mapNew ==> mapNew[n] == left)
  }

  ghost predicate NewVisited(h: Env, s: State, mapNew: map<int, int>, b: int, i: int) {
    && (forall slot {:trigger NewOk(h, s, slot)} :: Before(slot, b, i) ==> NewOk(h, s, slot))
    && (forall n {:trigger Countdown(s, mapNew, n, b, i)} :: Countdown(s, mapNew, n, b, i))
  }

  lemma VisitedStep(table: Table, n: int, b: int, i: int)
    ensures |VisitedSlots(table, n, b, i + 1)| ==
            |VisitedSlots(table, n, b, i)| + (if Slot(b, i) in table && table[Slot(b, i)] == n then 1 else 0)
  {
    var before, after := VisitedSlots(table, n, b, i), VisitedSlots(table, n, b, i + 1);
    forall x | x != Slot(b, i) ensures x in before <==> x in after { SlotOrder(x, b, i); }
    AgreeExcept(before, after, Slot(b, i));
  }

  function Tick(mapNew: map<int, int>, n: int): map<int, int>
    requires n in mapNew
  {
    if mapNew[n] - 1 == 0 then mapNew - {n} else mapNew[n := mapNew[n] - 1]
  }

  lemma NewStep(h: Env, s: State, mapNew: map<int, int>, b: int, i: int)
    requires NewVisited(h, s, mapNew, b, i)
    ensures Slot(b, i) !in s.vvNew ==> NewVisited(h, s, mapNew, b, i + 1)
    ensures NewOk(h, s, Slot(b, i)) && Slot(b, i) in s.vvNew && s.vvNew[Slot(b, i)] in mapNew ==>
              NewVisited(h, s, Tick(mapNew, s.vvNew[Slot(b, i)]), b, i + 1)
  {
    var slot := Slot(b, i);
    if slot !in s.vvNew || (NewOk(h, s, slot) && s.vvNew[slot] in mapNew) {
      forall x | Before(x, b, i + 1) ensures NewOk(h, s, x) {
        if Before(x, b, i) { assert NewOk(h, s, x); } else { assert x == slot; }
      }
      var left := if slot in s.vvNew then Tick(mapNew, s.vvNew[slot]) else mapNew;
      var i' := i + 1;
      forall n ensures Countdown(s, left, n, b, i') {
        assert Countdown(s, mapNew, n, b, i);
        VisitedStep(s.vvNew, n, b, i);
      }
    }
  }

  /** A slot of an entry whose countdown has run out is one too many. */
  lemma TooMany(h: Env, s: State, mapNew: map<int, int>, b: int, i: int)
    requires NewVisited(h, s, mapNew, b, i) && Slot(b, i) in s.vvNew && s.vvNew[Slot(b, i)] !in mapNew
    ensures !NewChecked(h, s)
  {
    var slot := Slot(b, i);
    var n := s.vvNew[slot];
    assert Countdown(s, mapNew, n, b, i);
    if NewOk(h, s, slot) {
      VisitedStep(s.vvNew, n, b, i);
      Sets.SubsetSize(VisitedSlots(s.vvNew, n, b, i + 1), SlotsOf(s.vvNew, n));
      assert !RefsCounted(s, n);
    }
  }

  lemma NextNewBucket(h: Env, s: State, mapNew: map<int, int>, b: int)
    requires NewVisited(h, s, mapNew, b, BUCKET_SIZE) && InRange(s.vvNew, NEW_BUCKET_COUNT)
    ensures NewVisited(h, s, mapNew, b + 1, 0)
  {
    forall x | Before(x, b + 1, 0) ensures NewOk(h, s, x) {
      if x in s.vvNew { assert Before(x, b, BUCKET_SIZE); assert NewOk(h, s, x); }
    }
    var b' := b + 1;
    forall n ensures Countdown(s, mapNew, n, b', 0) {
      assert Countdown(s, mapNew, n, b, BUCKET_SIZE);
      assert VisitedSlots(s.vvNew, n, b', 0) == VisitedSlots(s.vvNew, n, b, BUCKET_SIZE);
    }
  }

  lemma NewVisitedStart(h: Env, s: State, mapNew: map<int, int>)
    requires EntriesChecked(s) && mapNew.Keys == NewIds(s.mapInfo) && InRange(s.vvNew, NEW_BUCKET_COUNT)
    requires forall n :: n in mapNew ==> mapNew[n] == s.mapInfo[n].refCount
    ensures NewVisited(h, s, mapNew, 0, 0)
  {
    forall x | Before(x, 0, 0) ensures NewOk(h, s, x) {
      assert x !in s.vvNew;
    }
    forall n ensures Countdown(s, mapNew, n, 0, 0) {
      assert EntryChecked(s, n);
      assert VisitedSlots(s.vvNew, n, 0, 0) == {};
      assert n in mapNew.Keys <==> n in NewIds(s.mapInfo);
    }
  }

  lemma NewVisitedEnd(h: Env, s: State, mapNew: map<int, int>)
    requires NewVisited(h, s, mapNew, NEW_BUCKET_COUNT, 0) && InRange(s.vvNew, NEW_BUCKET_COUNT)
    ensures |mapNew.Keys| == 0 <==> NewChecked(h, s)
  {
    forall x ensures NewOk(h, s, x) {
      if x in s.vvNew { assert Before(x, NEW_BUCKET_COUNT, 0); assert NewOk(h, s, x); }
    }
    forall n ensures RefsCounted(s, n) <==> n !in mapNew.Keys {
      assert Countdown(s, mapNew, n, NEW_BUCKET_COUNT, 0);
      assert VisitedSlots(s.vvNew, n, NEW_BUCKET_COUNT, 0) == SlotsOf(s.vvNew, n);
    }
    if |mapNew.Keys| != 0 {
      HasMember(mapNew.Keys);
      var n :| n in mapNew.Keys;
      assert !RefsCounted(s, n);
    }
  }

  method CheckNew(h: Env, s: State, start: map<int, int>) returns (err: int, mapNew: map<int, int>)
    requires EntriesChecked(s) && start.Keys == NewIds(s.mapInfo) && InRange(s.vvNew, NEW_BUCKET_COUNT)
    requires forall n :: n in start ==> start[n] == s.mapInfo[n].refCount
    ensures err == 0 && |mapNew.Keys| == 0 <==> NewChecked(h, s)
  {
    mapNew := start;
    NewVisitedStart(h, s, start);
    for b := 0 to NEW_BUCKET_COUNT
      invariant NewVisited(h, s, mapNew, b, 0)
    {
      for i := 0 to BUCKET_SIZE
        invariant NewVisited(h, s, mapNew, b, i)
      {
        var slot := Slot(b, i);
        NewStep(h, s, mapNew, b, i);
        if slot in s.vvNew {
          var n := s.vvNew[slot];
          if n !in mapNew {
            TooMany(h, s, mapNew, b, i);
            return -12, mapNew;
          }
          assert Countdown(s, mapNew, n, b, i);
          if h.Position(s.mapInfo[n].svc, true, b) != i {
            assert !NewOk(h, s, slot);
            return -19, mapNew;
          }
          mapNew := Tick(mapNew, n);
        }
      }
      NextNewBucket(h, s, mapNew, b);
    }
    NewVisitedEnd(h, s, mapNew);
    err := 0;
  }

  /** The self-check reports no error exactly for the states described above. */
  method Check(h: Env, s: State, keyIsNull: bool) returns (err: int)
    requires InRange(s.vvNew, NEW_BUCKET_COUNT) && InRange(s.vvTried, TRIED_BUCKET_COUNT)
    ensures err == 0 <==> Checked(h, s) && !keyIsNull
  {
    if |s.vRandom| != s.nTried + s.nNew {
      return -7;
    }
    var setTried: set<int>, mapNew: map<int, int>;
    err, setTried, mapNew := CheckEntries(s);
    if err != 0 {
      return;
    }
    if |setTried| != s.nTried {
      return -9;
    }
    if |mapNew.Keys| != s.nNew {
      return -10;
    }
    err, setTried := CheckTried(h, s, setTried);
    if err != 0 {
      return;
    }
    err, mapNew := CheckNew(h, s, mapNew);
    if err != 0 {
      return;
    }
    if |setTried| != 0 {
      return -13;
    }
    if |mapNew.Keys| != 0 {
      return -15;
    }
    if keyIsNull {
      return -16;
    }
    return 0;
  }

  /** No run from an empty manager can make the self-check fail. */
  lemma RunPassesCheck(h: Env, ops: seq<Op>)
    requires RunsFromEmpty(h, ops)
    ensures Checked(h, Reached(h, ops))
  {
    EmptyIsConsistent(h);
    RunKeeps(h, EMPTY, ops);
    ConsistentIsChecked(h, Reached(h, ops));
  }
}
