/**
 The stochastic address manager: entries indexed by id, by address and by a shuffled
 vector, and spread over hash-determined slots of a "new" and a "tried" table.

 A slot that holds -1 in the source is absent from the table maps here.  The bucket hashes
 are arbitrary functions; clocks and random numbers are parameters.
 */
module AddrMan {

  const NEW_BUCKET_COUNT := 1024
  const TRIED_BUCKET_COUNT := 256
  const BUCKET_SIZE := 64
  const NEW_BUCKETS_PER_ADDRESS := 8
  const HORIZON_DAYS := 30
  const RETRIES := 3
  const MAX_FAILURES := 10
  const MIN_FAIL_DAYS := 7
  const REPLACEMENT_HOURS := 4
  const SET_TRIED_COLLISION_SIZE := 10
  const TEST_WINDOW := 40 * 60
  const DAY := 24 * 60 * 60

  type NetAddr = nat

  /** An address with its port. */
  datatype Service = Service(ip: NetAddr, port: nat)

  /** An announced address: the time is an unsigned 32-bit number. */
  datatype Address = Address(svc: Service, services: bv64, time: nat)

  datatype Info = Info(
    svc: Service, services: bv64, time: nat, source: NetAddr,
    lastTry: int, lastCountAttempt: int, lastSuccess: int, attempts: int,
    refCount: int, inTried: bool, randomPos: int)

  datatype Slot = Slot(bucket: int, pos: int)

  type Infos = map<int, Info>
  type Table = map<Slot, int>

  /** The keyed hashes and the address classes, left uninterpreted. */
  datatype Env = Env(
    newHash: (NetAddr, NetAddr) -> nat,
    triedHash: Service -> nat,
    positionHash: (Service, bool, int) -> nat,
    isRoutable: NetAddr -> bool,
    isValid: NetAddr -> bool,
    netClass: NetAddr -> nat)
  {
    function Position(svc: Service, isNew: bool, bucket: int): (pos: int)
      ensures 0 <= pos < BUCKET_SIZE
    {
      positionHash(svc, isNew, bucket) % BUCKET_SIZE
    }

    function NewSlot(svc: Service, source: NetAddr): Slot {
      var bucket := newHash(svc.ip, source) % NEW_BUCKET_COUNT;
      Slot(bucket, Position(svc, true, bucket))
    }

    function TriedSlot(svc: Service): Slot {
      var bucket := triedHash(svc) % TRIED_BUCKET_COUNT;
      Slot(bucket, Position(svc, false, bucket))
    }
  }

  datatype State = State(
    idCount: int,
    mapInfo: Infos,
    mapAddr: map<NetAddr, int>,
    vRandom: seq<int>,
    nTried: int,
    vvTried: Table,
    nNew: int,
    vvNew: Table,
    lastGood: int,
    collisions: set<int>)

  const EMPTY := State(0, map[], map[], [], 0, map[], 0, map[], 1, {})

  // ----- the consistency conditions -----

  function NewIds(m: Infos): set<int> { set n | n in m && !m[n].inTried }
  function TriedIds(m: Infos): set<int> { set n | n in m && m[n].inTried }
  function SlotsOf(table: Table, n: int): set<Slot> { set slot | slot in table && table[slot] == n }

  predicate EntryOk(info: Info) {
    && info.lastTry >= 0 && info.lastSuccess >= 0
    && (if info.inTried then info.lastSuccess != 0 && info.refCount == 0
        else 1 <= info.refCount <= NEW_BUCKETS_PER_ADDRESS)
  }

  /** An entry that an operation has just created or stripped of its last reference. */
  predicate LooseOk(info: Info) {
    && info.lastTry >= 0 && info.lastSuccess >= 0
    && !info.inTried && 0 <= info.refCount <= NEW_BUCKETS_PER_ADDRESS
  }

  /** Entry `n` is found by every index, and its reference count is its number of slots. */
  predicate IdOk(h: Env, s: State, loose: set<int>, n: int) {
    n in s.mapInfo ==>
      var info := s.mapInfo[n];
      && 0 <= n < s.idCount
      && info.svc.ip in s.mapAddr && s.mapAddr[info.svc.ip] == n
      && (info.inTried ==> h.TriedSlot(info.svc) in s.vvTried && s.vvTried[h.TriedSlot(info.svc)] == n)
      && info.refCount == |SlotsOf(s.vvNew, n)|
      && StatsOk(s, loose, n)
  }

  /** The position of entry `n` and its counters. */
  predicate StatsOk(s: State, loose: set<int>, n: int) {
    n in s.mapInfo ==>
      var info := s.mapInfo[n];
      && 0 <= info.randomPos < |s.vRandom| && s.vRandom[info.randomPos] == n
      && (if n in loose then LooseOk(info) else EntryOk(info))
  }

  predicate HasAddr(m: Infos, n: int, a: NetAddr) { n in m && m[n].svc.ip == a }

  predicate AddrOk(s: State, a: NetAddr) {
    a in s.mapAddr ==> HasAddr(s.mapInfo, s.mapAddr[a], a)
  }

  predicate HasPos(m: Infos, n: int, i: int) { n in m && m[n].randomPos == i }

  predicate PosOk(s: State, i: int) {
    0 <= i < |s.vRandom| ==> HasPos(s.mapInfo, s.vRandom[i], i)
  }

  /** A tried slot holds a tried entry, and it is the slot determined by that entry's hash. */
  predicate TriedEntry(h: Env, m: Infos, slot: Slot, n: int) {
    n in m && m[n].inTried && slot == h.TriedSlot(m[n].svc)
  }

  predicate TriedOk(h: Env, s: State, slot: Slot) {
    slot in s.vvTried ==> TriedEntry(h, s.mapInfo, slot, s.vvTried[slot])
  }

  /** A new slot holds an entry that is not tried, at its position for that bucket. */
  predicate NewEntry(h: Env, m: Infos, slot: Slot, n: int) {
    && n in m && !m[n].inTried
    && 0 <= slot.bucket < NEW_BUCKET_COUNT && slot.pos == h.Position(m[n].svc, true, slot.bucket)
  }

  predicate NewOk(h: Env, s: State, slot: Slot) {
    slot in s.vvNew ==> NewEntry(h, s.mapInfo, slot, s.vvNew[slot])
  }

  predicate CountsOk(s: State) {
    && 0 <= s.idCount
    && s.nNew == |NewIds(s.mapInfo)|
    && s.nTried == |TriedIds(s.mapInfo)|
    && |s.vRandom| == s.nNew + s.nTried
  }

  /** Everything `Check_` looks at, except that the entries in `loose` may lack references. */
  ghost predicate ConsistentBut(h: Env, s: State, loose: set<int>) {
    && (forall n {:trigger IdOk(h, s, loose, n)} :: IdOk(h, s, loose, n))
    && (forall a {:trigger AddrOk(s, a)} :: AddrOk(s, a))
    && (forall i {:trigger PosOk(s, i)} :: PosOk(s, i))
    && (forall slot {:trigger TriedOk(h, s, slot)} :: TriedOk(h, s, slot))
    && (forall slot {:trigger NewOk(h, s, slot)} :: NewOk(h, s, slot))
    && CountsOk(s)
  }

  // ----- positions in vRandom -----

  function Moved(m: Infos, n: int, p: int): Infos
    requires n in m
  {
    m[n := m[n].(randomPos := p)]
  }

  function AfterSwap(s: State, p: int, q: int): State
    requires 0 <= p < |s.vRandom| && 0 <= q < |s.vRandom|
    requires s.vRandom[p] in s.mapInfo && s.vRandom[q] in s.mapInfo
  {
    if p == q then s
    else
      var n, k := s.vRandom[p], s.vRandom[q];
      s.(mapInfo := Moved(Moved(s.mapInfo, n, q), k, p), vRandom := s.vRandom[p := k][q := n])
  }

  predicate SameEntry(a: Info, b: Info) {
    b == a.(randomPos := b.randomPos)
  }

  /** Two maps with the same entries, up to positions. */
  predicate SameShapeAt(m: Infos, m': Infos, n: int) {
    && (n in m <==> n in m')
    && (n in m ==> SameEntry(m[n], m'[n]))
  }

  ghost predicate SameShape(m: Infos, m': Infos) {
    forall n {:trigger SameShapeAt(m, m', n)} :: SameShapeAt(m, m', n)
  }

  /** The same address with the same statistics, wherever it is. */
  predicate SameStats(a: Info, b: Info) {
    b == a.(refCount := b.refCount, inTried := b.inTried, randomPos := b.randomPos)
  }

  /** Entries may be gone from `m'` but the remaining ones keep their address and statistics. */
  predicate SurvivorAt(m: Infos, m': Infos, n: int) {
    n in m' ==> n in m && SameStats(m[n], m'[n])
  }

  ghost predicate Survivors(m: Infos, m': Infos) {
    forall n {:trigger SurvivorAt(m, m', n)} :: SurvivorAt(m, m', n)
  }

  lemma SameShapeIds(m: Infos, m': Infos)
    requires SameShape(m, m')
    ensures NewIds(m') == NewIds(m) && TriedIds(m') == TriedIds(m)
  {
    forall n
      ensures n in NewIds(m') <==> n in NewIds(m)
      ensures n in TriedIds(m') <==> n in TriedIds(m)
    {
      assert SameShapeAt(m, m', n);
    }
  }

  /** A change of positions and statistics only touches the conditions about those. */
  lemma SameShapeKeeps(h: Env, s: State, s': State, loose: set<int>)
    requires ConsistentBut(h, s, loose) && SameShape(s.mapInfo, s'.mapInfo)
    requires s' == s.(mapInfo := s'.mapInfo, vRandom := s'.vRandom, lastGood := s'.lastGood)
    requires |s'.vRandom| == |s.vRandom|
    requires forall n {:trigger StatsOk(s', loose, n)} :: StatsOk(s', loose, n)
    requires forall i {:trigger PosOk(s', i)} :: PosOk(s', i)
    ensures ConsistentBut(h, s', loose)
  {
    forall n ensures IdOk(h, s', loose, n) {
      assert IdOk(h, s, loose, n) && SameShapeAt(s.mapInfo, s'.mapInfo, n) && StatsOk(s', loose, n);
    }
    forall a ensures AddrOk(s', a) {
      assert AddrOk(s, a);
      if a in s.mapAddr { assert SameShapeAt(s.mapInfo, s'.mapInfo, s.mapAddr[a]); }
    }
    forall slot ensures TriedOk(h, s', slot) {
      assert TriedOk(h, s, slot);
      if slot in s.vvTried { assert SameShapeAt(s.mapInfo, s'.mapInfo, s.vvTried[slot]); }
    }
    forall slot ensures NewOk(h, s', slot) {
      assert NewOk(h, s, slot);
      if slot in s.vvNew { assert SameShapeAt(s.mapInfo, s'.mapInfo, s.vvNew[slot]); }
    }
    SameShapeIds(s.mapInfo, s'.mapInfo);
  }

  lemma SwapRandomKeeps(h: Env, s: State, p: int, q: int, loose: set<int>)
    requires ConsistentBut(h, s, loose)
    requires 0 <= p < |s.vRandom| && 0 <= q < |s.vRandom|
    ensures s.vRandom[p] in s.mapInfo && s.vRandom[q] in s.mapInfo
    ensures ConsistentBut(h, AfterSwap(s, p, q), loose)
    ensures SameShape(s.mapInfo, AfterSwap(s, p, q).mapInfo)
  {
    assert PosOk(s, p) && PosOk(s, q);
    var s' := AfterSwap(s, p, q);
    forall n
      ensures SameShapeAt(s.mapInfo, s'.mapInfo, n) && StatsOk(s', loose, n)
    {
      assert IdOk(h, s, loose, n);
    }
    forall i ensures PosOk(s', i) { assert PosOk(s, i); }
    SameShapeKeeps(h, s, s', loose);
  }

  // ----- deleting an entry -----

  predicate InRandom(s: State, n: int) {
    && n in s.mapInfo && 0 <= s.mapInfo[n].randomPos < |s.vRandom|
    && s.vRandom[s.mapInfo[n].randomPos] == n
    && s.vRandom[|s.vRandom| - 1] in s.mapInfo
  }

  /** Drop entry `n`, which is the last one of `vRandom`. */
  function DropLast(s: State, n: int): State
    requires n in s.mapInfo && |s.vRandom| > 0
  {
    s.(vRandom := s.vRandom[..|s.vRandom| - 1], mapAddr := s.mapAddr - {s.mapInfo[n].svc.ip},
       mapInfo := s.mapInfo - {n}, nNew := s.nNew - 1)
  }

  function AfterDelete(s: State, n: int): State
    requires InRandom(s, n)
  {
    DropLast(AfterSwap(s, s.mapInfo[n].randomPos, |s.vRandom| - 1), n)
  }

  lemma DropIds(m: Infos, n: int)
    requires n in m && !m[n].inTried
    ensures |NewIds(m - {n})| == |NewIds(m)| - 1 && TriedIds(m - {n}) == TriedIds(m)
  {
    var m' := m - {n};
    forall k
      ensures k in NewIds(m') <==> k in NewIds(m) - {n}
      ensures k in TriedIds(m') <==> k in TriedIds(m)
    {
    }
    assert NewIds(m') == NewIds(m) - {n};
  }

  lemma SlotIsReference(table: Table, slot: Slot)
    requires slot in table
    ensures slot in SlotsOf(table, table[slot]) && |SlotsOf(table, table[slot])| > 0
  {
  }

  lemma DropLastKeeps(h: Env, s: State, n: int, loose: set<int>)
    requires ConsistentBut(h, s, loose) && n in s.mapInfo && n in loose
    requires s.mapInfo[n].refCount == 0 && s.mapInfo[n].randomPos == |s.vRandom| - 1
    ensures |s.vRandom| > 0 && ConsistentBut(h, DropLast(s, n), loose - {n})
  {
    assert IdOk(h, s, loose, n) && StatsOk(s, loose, n);
    var s', loose' := DropLast(s, n), loose - {n};
    forall k ensures IdOk(h, s', loose', k) {
      assert IdOk(h, s, loose, k) && StatsOk(s, loose, k);
      assert StatsOk(s', loose', k);
    }
    forall a ensures AddrOk(s', a) { assert AddrOk(s, a); }
    forall i ensures PosOk(s', i) { assert PosOk(s, i); }
    forall slot ensures TriedOk(h, s', slot) { assert TriedOk(h, s, slot); }
    forall slot ensures NewOk(h, s', slot) {
      assert NewOk(h, s, slot);
      if slot in s.vvNew { SlotIsReference(s.vvNew, slot); }
    }
    DropIds(s.mapInfo, n);
  }

  /** Deleting an entry without references removes it from every index. */
  lemma DeleteKeeps(h: Env, s: State, n: int, loose: set<int>)
    requires ConsistentBut(h, s, loose) && n in s.mapInfo && n in loose && s.mapInfo[n].refCount == 0
    ensures InRandom(s, n) && ConsistentBut(h, AfterDelete(s, n), loose - {n})
    ensures SameShape(s.mapInfo - {n}, AfterDelete(s, n).mapInfo)
  {
    var p, last := s.mapInfo[n].randomPos, |s.vRandom| - 1;
    assert IdOk(h, s, loose, n) && StatsOk(s, loose, n);
    assert PosOk(s, last) && HasPos(s.mapInfo, s.vRandom[last], last);
    SwapRandomKeeps(h, s, p, last, loose);
    var s1 := AfterSwap(s, p, last);
    assert SameShapeAt(s.mapInfo, s1.mapInfo, n);
    assert s1.mapInfo[n].randomPos == last;
    DropLastKeeps(h, s1, n, loose);
    assert AfterDelete(s, n) == DropLast(s1, n);
    forall k ensures SameShapeAt(s.mapInfo - {n}, AfterDelete(s, n).mapInfo, k) {
      assert SameShapeAt(s.mapInfo, s1.mapInfo, k);
    }
  }

  // ----- references from the new table -----

  /** Sets that agree except on `x` differ in size by that element alone. */
  lemma AgreeExcept<T>(a: set<T>, b: set<T>, x: T)
    requires forall y :: y != x ==> (y in a <==> y in b)
    ensures |b| == |a| - (if x in a then 1 else 0) + (if x in b then 1 else 0)
  {
    assert a - {x} == b - {x};
    assert x in a ==> a == (a - {x}) + {x};
    assert x in b ==> b == (b - {x}) + {x};
    assert x !in a ==> a == a - {x};
    assert x !in b ==> b == b - {x};
  }

  /** How the counts change when entry `n` is set to `info`. */
  lemma UpdateIds(m: Infos, n: int, info: Info)
    ensures |NewIds(m[n := info])| ==
            |NewIds(m)| - (if n in m && !m[n].inTried then 1 else 0) + (if info.inTried then 0 else 1)
    ensures |TriedIds(m[n := info])| ==
            |TriedIds(m)| - (if n in m && m[n].inTried then 1 else 0) + (if info.inTried then 1 else 0)
  {
    var m' := m[n := info];
    AgreeExcept(NewIds(m), NewIds(m'), n);
    AgreeExcept(TriedIds(m), TriedIds(m'), n);
  }

  /** Entry `n` loses the reference in `slot`. */
  function Unref(s: State, slot: Slot): State
    requires slot in s.vvNew && s.vvNew[slot] in s.mapInfo
  {
    var n := s.vvNew[slot];
    s.(mapInfo := s.mapInfo[n := s.mapInfo[n].(refCount := s.mapInfo[n].refCount - 1)], vvNew := s.vvNew - {slot})
  }

  lemma RemoveSlot(table: Table, slot: Slot, n: int)
    requires slot in table
    ensures |SlotsOf(table - {slot}, n)| == |SlotsOf(table, n)| - (if table[slot] == n then 1 else 0)
  {
    AgreeExcept(SlotsOf(table, n), SlotsOf(table - {slot}, n), slot);
  }

  lemma InsertSlot(table: Table, slot: Slot, n: int, k: int)
    requires slot !in table
    ensures |SlotsOf(table[slot := n], k)| == |SlotsOf(table, k)| + (if k == n then 1 else 0)
  {
    AgreeExcept(SlotsOf(table, k), SlotsOf(table[slot := n], k), slot);
  }

  lemma UnrefKeeps(h: Env, s: State, slot: Slot, loose: set<int>)
    requires ConsistentBut(h, s, loose) && slot in s.vvNew
    ensures s.vvNew[slot] in s.mapInfo && 1 <= s.mapInfo[s.vvNew[slot]].refCount
    ensures ConsistentBut(h, Unref(s, slot), loose + {s.vvNew[slot]})
  {
    assert NewOk(h, s, slot);
    var n := s.vvNew[slot];
    var s', loose' := Unref(s, slot), loose + {n};
    SlotIsReference(s.vvNew, slot);
    assert IdOk(h, s, loose, n) && StatsOk(s, loose, n);
    forall k ensures IdOk(h, s', loose', k) {
      assert IdOk(h, s, loose, k) && StatsOk(s, loose, k);
      RemoveSlot(s.vvNew, slot, k);
      assert StatsOk(s', loose', k);
    }
    forall a ensures AddrOk(s', a) { assert AddrOk(s, a); }
    forall i ensures PosOk(s', i) { assert PosOk(s, i); }
    forall x ensures TriedOk(h, s', x) { assert TriedOk(h, s, x); }
    forall x ensures NewOk(h, s', x) { assert NewOk(h, s, x); }
    UpdateIds(s.mapInfo, n, s'.mapInfo[n]);
  }

  /** An entry that has a reference need not be treated as loose. */
  lemma Tighten(h: Env, s: State, loose: set<int>, n: int)
    requires ConsistentBut(h, s, loose) && n in loose
    requires n in s.mapInfo ==> 1 <= s.mapInfo[n].refCount
    ensures ConsistentBut(h, s, loose - {n})
  {
    forall k ensures IdOk(h, s, loose - {n}, k) {
      assert IdOk(h, s, loose, k) && StatsOk(s, loose, k);
      assert StatsOk(s, loose - {n}, k);
    }
  }

  lemma Loosen(h: Env, s: State, loose: set<int>, n: int)
    requires ConsistentBut(h, s, loose) && (n in s.mapInfo ==> !s.mapInfo[n].inTried)
    ensures ConsistentBut(h, s, loose + {n})
  {
    forall k ensures IdOk(h, s, loose + {n}, k) {
      assert IdOk(h, s, loose, k) && StatsOk(s, loose, k);
      assert StatsOk(s, loose + {n}, k);
    }
  }

  function AfterClearNew(s: State, slot: Slot): State
    requires slot in s.vvNew ==> InRandom(s, s.vvNew[slot])
  {
    if slot !in s.vvNew then s
    else
      var n := s.vvNew[slot];
      var s1 := Unref(s, slot);
      if s1.mapInfo[n].refCount == 0 then
        assert s1.vRandom[|s1.vRandom| - 1] in s1.mapInfo;
        AfterDelete(s1, n)
      else s1
  }

  /** Clearing a slot drops one reference, and the entry with its last one. */
  lemma ClearNewKeeps(h: Env, s: State, slot: Slot, loose: set<int>)
    requires ConsistentBut(h, s, loose)
    requires slot in s.vvNew ==> s.vvNew[slot] !in loose
    ensures slot in s.vvNew ==> InRandom(s, s.vvNew[slot])
    ensures ConsistentBut(h, AfterClearNew(s, slot), loose)
    ensures AfterClearNew(s, slot).vvNew == s.vvNew - {slot}
    ensures AfterClearNew(s, slot).vvTried == s.vvTried && AfterClearNew(s, slot).idCount == s.idCount
    ensures AfterClearNew(s, slot).collisions == s.collisions
    ensures forall k {:trigger SameShapeAt(s.mapInfo, AfterClearNew(s, slot).mapInfo, k)} ::
              (slot in s.vvNew ==> k != s.vvNew[slot]) ==> SameShapeAt(s.mapInfo, AfterClearNew(s, slot).mapInfo, k)
    ensures Survivors(s.mapInfo, AfterClearNew(s, slot).mapInfo)
  {
    if slot in s.vvNew {
      var n := s.vvNew[slot];
      UnrefKeeps(h, s, slot, loose);
      assert IdOk(h, s, loose, n) && StatsOk(s, loose, n) && PosOk(s, |s.vRandom| - 1);
      var s1 := Unref(s, slot);
      if s1.mapInfo[n].refCount == 0 {
        DeleteKeeps(h, s1, n, loose + {n});
        assert loose + {n} - {n} == loose;
        forall k
          ensures k != n ==> SameShapeAt(s.mapInfo, AfterClearNew(s, slot).mapInfo, k)
          ensures SurvivorAt(s.mapInfo, AfterClearNew(s, slot).mapInfo, k)
        {
          assert SameShapeAt(s1.mapInfo - {n}, AfterDelete(s1, n).mapInfo, k);
        }
      } else {
        Tighten(h, s1, loose + {n}, n);
        assert loose + {n} - {n} == loose;
      }
    } else {
      assert s.vvNew - {slot} == s.vvNew;
    }
  }

  /** Entry `n` gains a reference in the free `slot`. */
  function AddRef(s: State, slot: Slot, n: int): State
    requires n in s.mapInfo
  {
    s.(mapInfo := s.mapInfo[n := s.mapInfo[n].(refCount := s.mapInfo[n].refCount + 1)], vvNew := s.vvNew[slot := n])
  }

  lemma AddRefKeeps(h: Env, s: State, slot: Slot, n: int, loose: set<int>)
    requires ConsistentBut(h, s, loose) && slot !in s.vvNew && NewEntry(h, s.mapInfo, slot, n)
    requires s.mapInfo[n].refCount < NEW_BUCKETS_PER_ADDRESS
    ensures ConsistentBut(h, AddRef(s, slot, n), loose - {n})
  {
    var s', loose' := AddRef(s, slot, n), loose - {n};
    forall k ensures IdOk(h, s', loose', k) {
      assert IdOk(h, s, loose, k) && StatsOk(s, loose, k);
      InsertSlot(s.vvNew, slot, n, k);
      assert StatsOk(s', loose', k);
    }
    forall a ensures AddrOk(s', a) { assert AddrOk(s, a); }
    forall i ensures PosOk(s', i) { assert PosOk(s, i); }
    forall x ensures TriedOk(h, s', x) { assert TriedOk(h, s, x); }
    forall x ensures NewOk(h, s', x) { assert NewOk(h, s, x); }
    UpdateIds(s.mapInfo, n, s'.mapInfo[n]);
  }

  /** Entry `n` leaves every new bucket. */
  function Strip(s: State, n: int): State
    requires n in s.mapInfo
  {
    s.(mapInfo := s.mapInfo[n := s.mapInfo[n].(refCount := 0)],
       vvNew := map slot | slot in s.vvNew && s.vvNew[slot] != n :: s.vvNew[slot])
  }

  lemma StripKeeps(h: Env, s: State, n: int, loose: set<int>)
    requires ConsistentBut(h, s, loose) && n in s.mapInfo && !s.mapInfo[n].inTried
    ensures ConsistentBut(h, Strip(s, n), loose + {n})
  {
    var s', loose' := Strip(s, n), loose + {n};
    forall k ensures IdOk(h, s', loose', k) {
      assert IdOk(h, s, loose, k) && StatsOk(s, loose, k);
      StripSlots(s.vvNew, s'.vvNew, n, k);
      assert StatsOk(s', loose', k);
    }
    forall a ensures AddrOk(s', a) { assert AddrOk(s, a); }
    forall i ensures PosOk(s', i) { assert PosOk(s, i); }
    forall x ensures TriedOk(h, s', x) { assert TriedOk(h, s, x); }
    forall x ensures NewOk(h, s', x) { assert NewOk(h, s, x); }
    UpdateIds(s.mapInfo, n, s'.mapInfo[n]);
  }

  lemma StripSlots(table: Table, table': Table, n: int, k: int)
    requires table' == map slot | slot in table && table[slot] != n :: table[slot]
    ensures SlotsOf(table', k) == if k == n then {} else SlotsOf(table, k)
  {
    forall x ensures x in SlotsOf(table', k) <==> x in (if k == n then {} else SlotsOf(table, k)) {
    }
  }

  // ----- creating an entry -----

  function U32(x: int): nat { x % 0x1_0000_0000 }
  function Max(a: int, b: int): int { if a >= b then a else b }

  function AfterCreate(s: State, addr: Address, source: NetAddr): State {
    var n := s.idCount;
    s.(idCount := n + 1,
       mapInfo := s.mapInfo[n := Info(addr.svc, addr.services, addr.time, source, 0, 0, 0, 0, 0, false, |s.vRandom|)],
       mapAddr := s.mapAddr[addr.svc.ip := n],
       vRandom := s.vRandom + [n])
  }

  /** A created entry, its time reduced by the penalty, and counted as new. */
  function Announce(s: State, addr: Address, source: NetAddr, penalty: int): State {
    var n := s.idCount;
    var s1 := AfterCreate(s, addr, source);
    s1.(mapInfo := s1.mapInfo[n := s1.mapInfo[n].(time := U32(Max(0, addr.time - penalty)))], nNew := s1.nNew + 1)
  }

  lemma AnnounceKeeps(h: Env, s: State, addr: Address, source: NetAddr, penalty: int)
    requires ConsistentBut(h, s, {}) && addr.svc.ip !in s.mapAddr
    ensures s.idCount !in s.mapInfo
    ensures ConsistentBut(h, Announce(s, addr, source, penalty), {s.idCount})
  {
    var n := s.idCount;
    assert IdOk(h, s, {}, n);
    var s' := Announce(s, addr, source, penalty);
    forall x ensures NewOk(h, s', x) && x !in SlotsOf(s.vvNew, n) { assert NewOk(h, s, x); }
    assert SlotsOf(s.vvNew, n) == {};
    forall k ensures IdOk(h, s', {n}, k) {
      assert IdOk(h, s, {}, k) && StatsOk(s, {}, k);
      assert StatsOk(s', {n}, k);
    }
    forall a ensures AddrOk(s', a) { assert AddrOk(s, a); }
    forall i ensures PosOk(s', i) { assert PosOk(s, i); }
    forall x ensures TriedOk(h, s', x) { assert TriedOk(h, s, x); }
    assert s'.mapInfo == s.mapInfo[n := s'.mapInfo[n]];
    UpdateIds(s.mapInfo, n, s'.mapInfo[n]);
  }

  // ----- moving between the tables -----

  /** The tried entry in `tried` goes back to the free new slot `slot`. */
  function Demote(s: State, tried: Slot, slot: Slot): State
    requires tried in s.vvTried && s.vvTried[tried] in s.mapInfo
  {
    var n := s.vvTried[tried];
    s.(mapInfo := s.mapInfo[n := s.mapInfo[n].(inTried := false, refCount := 1)],
       vvTried := s.vvTried - {tried}, nTried := s.nTried - 1,
       vvNew := s.vvNew[slot := n], nNew := s.nNew + 1)
  }

  lemma DemoteKeeps(h: Env, s: State, tried: Slot, slot: Slot, loose: set<int>)
    requires ConsistentBut(h, s, loose) && tried in s.vvTried && slot !in s.vvNew
    requires s.vvTried[tried] in s.mapInfo && 0 <= slot.bucket < NEW_BUCKET_COUNT
    requires slot.pos == h.Position(s.mapInfo[s.vvTried[tried]].svc, true, slot.bucket)
    ensures ConsistentBut(h, Demote(s, tried, slot), loose)
  {
    var n := s.vvTried[tried];
    var s' := Demote(s, tried, slot);
    assert TriedOk(h, s, tried) && IdOk(h, s, loose, n) && StatsOk(s, loose, n);
    forall k ensures IdOk(h, s', loose, k) {
      assert IdOk(h, s, loose, k) && StatsOk(s, loose, k);
      InsertSlot(s.vvNew, slot, n, k);
      assert StatsOk(s', loose, k);
    }
    forall a ensures AddrOk(s', a) { assert AddrOk(s, a); }
    forall i ensures PosOk(s', i) { assert PosOk(s, i); }
    forall x ensures TriedOk(h, s', x) { assert TriedOk(h, s, x); }
    forall x ensures NewOk(h, s', x) { assert NewOk(h, s, x); }
    UpdateIds(s.mapInfo, n, s'.mapInfo[n]);
  }

  /** Entry `n`, which has no reference, moves to its free tried slot. */
  function Place(h: Env, s: State, n: int): State
    requires n in s.mapInfo
  {
    s.(mapInfo := s.mapInfo[n := s.mapInfo[n].(inTried := true)],
       vvTried := s.vvTried[h.TriedSlot(s.mapInfo[n].svc) := n], nTried := s.nTried + 1, nNew := s.nNew - 1)
  }

  lemma PlaceKeeps(h: Env, s: State, n: int, loose: set<int>)
    requires ConsistentBut(h, s, loose) && n in s.mapInfo && n in loose
    requires s.mapInfo[n].refCount == 0 && s.mapInfo[n].lastSuccess > 0
    requires h.TriedSlot(s.mapInfo[n].svc) !in s.vvTried
    ensures ConsistentBut(h, Place(h, s, n), loose - {n})
  {
    var s', loose' := Place(h, s, n), loose - {n};
    assert IdOk(h, s, loose, n) && StatsOk(s, loose, n);
    forall k ensures IdOk(h, s', loose', k) {
      assert IdOk(h, s, loose, k) && StatsOk(s, loose, k);
      assert StatsOk(s', loose', k);
    }
    forall a ensures AddrOk(s', a) { assert AddrOk(s, a); }
    forall i ensures PosOk(s', i) { assert PosOk(s, i); }
    forall x ensures TriedOk(h, s', x) { assert TriedOk(h, s, x); }
    forall x ensures NewOk(h, s', x) {
      assert NewOk(h, s, x);
      if x in s.vvNew { SlotIsReference(s.vvNew, x); }
    }
    UpdateIds(s.mapInfo, n, s'.mapInfo[n]);
  }

  /** The state in which the tried slot of `n` is about to be filled. */
  ghost function MakeSpace(h: Env, s: State, n: int): State
    requires ConsistentBut(h, s, {n}) && n in s.mapInfo && s.mapInfo[n].refCount == 0
  {
    var tried := h.TriedSlot(s.mapInfo[n].svc);
    if tried in s.vvTried then
      assert TriedOk(h, s, tried);
      var evicted := s.mapInfo[s.vvTried[tried]];
      var slot := h.NewSlot(evicted.svc, evicted.source);
      Unreferenced(h, s, n, slot);
      ClearNewKeeps(h, s, slot, {n});
      var s1 := AfterClearNew(s, slot);
      assert TriedOk(h, s1, tried);
      Demote(s1, tried, slot)
    else s
  }

  lemma Unreferenced(h: Env, s: State, n: int, slot: Slot)
    requires ConsistentBut(h, s, {n}) && n in s.mapInfo && s.mapInfo[n].refCount == 0
    ensures slot in s.vvNew ==> s.vvNew[slot] !in {n}
  {
    if slot in s.vvNew {
      SlotIsReference(s.vvNew, slot);
      assert IdOk(h, s, {n}, n);
    }
  }

  lemma MakeSpaceKeeps(h: Env, s: State, n: int)
    requires ConsistentBut(h, s, {n}) && n in s.mapInfo && s.mapInfo[n].refCount == 0
    ensures var s' := MakeSpace(h, s, n);
      && ConsistentBut(h, s', {n}) && Survivors(s.mapInfo, s'.mapInfo)
      && n in s'.mapInfo && SameEntry(s.mapInfo[n], s'.mapInfo[n])
      && s'.vvTried == s.vvTried - {h.TriedSlot(s.mapInfo[n].svc)}
      && s'.idCount == s.idCount && s'.collisions == s.collisions && s'.lastGood == s.lastGood
  {
    var tried := h.TriedSlot(s.mapInfo[n].svc);
    if tried in s.vvTried {
      assert TriedOk(h, s, tried) && IdOk(h, s, {n}, n) && StatsOk(s, {n}, n);
      var k := s.vvTried[tried];
      var slot := h.NewSlot(s.mapInfo[k].svc, s.mapInfo[k].source);
      Unreferenced(h, s, n, slot);
      ClearNewKeeps(h, s, slot, {n});
      var s1 := AfterClearNew(s, slot);
      assert TriedOk(h, s1, tried) && SurvivorAt(s.mapInfo, s1.mapInfo, k);
      DemoteKeeps(h, s1, tried, slot, {n});
      var s' := Demote(s1, tried, slot);
      assert SameShapeAt(s.mapInfo, s1.mapInfo, n);
      forall x ensures SurvivorAt(s.mapInfo, s'.mapInfo, x) {
        assert SurvivorAt(s.mapInfo, s1.mapInfo, x);
      }
    } else {
      assert s.vvTried - {tried} == s.vvTried;
    }
  }

  ghost function AfterMakeTried(h: Env, s: State, n: int): State
    requires ConsistentBut(h, s, {}) && n in s.mapInfo && !s.mapInfo[n].inTried
  {
    StripKeeps(h, s, n, {});
    assert {} + {n} == {n};
    MakeSpaceKeeps(h, Strip(s, n), n);
    Place(h, MakeSpace(h, Strip(s, n), n), n)
  }

  /** The entry ends up tried; the one it evicts is new again; no tried slot is emptied. */
  lemma MakeTriedKeeps(h: Env, s: State, n: int)
    requires ConsistentBut(h, s, {}) && n in s.mapInfo && !s.mapInfo[n].inTried && s.mapInfo[n].lastSuccess > 0
    ensures var s' := AfterMakeTried(h, s, n);
      && ConsistentBut(h, s', {}) && Survivors(s.mapInfo, s'.mapInfo)
      && s'.vvTried == s.vvTried[h.TriedSlot(s.mapInfo[n].svc) := n]
      && s'.idCount == s.idCount && s'.collisions == s.collisions && s'.lastGood == s.lastGood
      && n in s'.mapInfo && s'.mapInfo[n].inTried
  {
    StripKeeps(h, s, n, {});
    assert {} + {n} == {n};
    var s1 := Strip(s, n);
    MakeSpaceKeeps(h, s1, n);
    var s2 := MakeSpace(h, s1, n);
    PlaceKeeps(h, s2, n, {n});
    assert {n} - {n} == {};
    var s' := Place(h, s2, n);
    forall x ensures SurvivorAt(s.mapInfo, s'.mapInfo, x) {
      assert SurvivorAt(s1.mapInfo, s2.mapInfo, x);
    }
  }

  // ----- pending collisions -----

  /** A pending collision that is still known has something to collide with. */
  ghost predicate CollisionsOk(h: Env, s: State) {
    && |s.collisions| <= SET_TRIED_COLLISION_SIZE
    && forall n :: n in s.collisions ==> CollisionOk(h, s, n)
  }

  predicate CollisionOk(h: Env, s: State, n: int) {
    0 <= n < s.idCount && (n in s.mapInfo ==> h.TriedSlot(s.mapInfo[n].svc) in s.vvTried)
  }

  ghost predicate Consistent(h: Env, s: State) {
    ConsistentBut(h, s, {}) && CollisionsOk(h, s)
  }

  /** An id that is in use belongs to the same address as before. */
  predicate OwnerAt(m: Infos, m': Infos, n: int) {
    n in m' ==> n in m && m'[n].svc == m[n].svc && m'[n].source == m[n].source
  }

  /** Occupied tried slots stay occupied, ids are not reused and keep their address. */
  ghost predicate Grows(s: State, s': State) {
    && s.idCount <= s'.idCount
    && (forall slot :: slot in s.vvTried ==> slot in s'.vvTried)
    && (forall n :: n < s.idCount ==> OwnerAt(s.mapInfo, s'.mapInfo, n))
  }

  lemma GrowsTransitive(a: State, b: State, c: State)
    requires Grows(a, b) && Grows(b, c)
    ensures Grows(a, c)
  {
    forall n | n < a.idCount ensures OwnerAt(a.mapInfo, c.mapInfo, n) {
      assert OwnerAt(a.mapInfo, b.mapInfo, n) && OwnerAt(b.mapInfo, c.mapInfo, n);
    }
  }

  lemma CollisionsKept(h: Env, s: State, s': State)
    requires CollisionsOk(h, s) && Grows(s, s') && s'.collisions == s.collisions
    ensures CollisionsOk(h, s')
  {
    forall n | n in s'.collisions ensures CollisionOk(h, s', n) {
      assert CollisionOk(h, s, n) && OwnerAt(s.mapInfo, s'.mapInfo, n);
    }
  }

  lemma SurvivorsGrow(s: State, s': State)
    requires Survivors(s.mapInfo, s'.mapInfo) && s'.idCount == s.idCount
    requires forall slot :: slot in s.vvTried ==> slot in s'.vvTried
    ensures Grows(s, s')
  {
    forall n | n < s.idCount ensures OwnerAt(s.mapInfo, s'.mapInfo, n) {
      assert SurvivorAt(s.mapInfo, s'.mapInfo, n);
    }
  }

  // ----- statistics -----

  predicate OnlyStats(a: Info, b: Info) {
    && a.svc == b.svc && a.source == b.source
    && a.inTried == b.inTried && a.refCount == b.refCount && a.randomPos == b.randomPos
  }

  lemma StatsKeepTables(h: Env, s: State, n: int, info: Info, lastGood: int)
    requires ConsistentBut(h, s, {}) && n in s.mapInfo && OnlyStats(s.mapInfo[n], info) && EntryOk(info)
    ensures ConsistentBut(h, s.(mapInfo := s.mapInfo[n := info], lastGood := lastGood), {})
  {
    var s' := s.(mapInfo := s.mapInfo[n := info], lastGood := lastGood);
    forall k ensures IdOk(h, s', {}, k) {
      assert IdOk(h, s, {}, k) && StatsOk(s, {}, k);
      assert StatsOk(s', {}, k);
    }
    forall a ensures AddrOk(s', a) { assert AddrOk(s, a); }
    forall i ensures PosOk(s', i) { assert PosOk(s, i); }
    forall x ensures TriedOk(h, s', x) { assert TriedOk(h, s, x); }
    forall x ensures NewOk(h, s', x) { assert NewOk(h, s, x); }
    UpdateIds(s.mapInfo, n, info);
  }

  lemma StatsKeep(h: Env, s: State, n: int, info: Info, lastGood: int)
    requires Consistent(h, s) && n in s.mapInfo && OnlyStats(s.mapInfo[n], info) && EntryOk(info)
    ensures var s' := s.(mapInfo := s.mapInfo[n := info], lastGood := lastGood);
      Consistent(h, s') && Grows(s, s')
  {
    var s' := s.(mapInfo := s.mapInfo[n := info], lastGood := lastGood);
    StatsKeepTables(h, s, n, info, lastGood);
    CollisionsKept(h, s, s');
  }

  lemma LastGoodKeeps(h: Env, s: State, lastGood: int)
    requires Consistent(h, s)
    ensures Consistent(h, s.(lastGood := lastGood)) && Grows(s, s.(lastGood := lastGood))
  {
    var s' := s.(lastGood := lastGood);
    forall k ensures IdOk(h, s', {}, k) && OwnerAt(s.mapInfo, s'.mapInfo, k) {
      assert IdOk(h, s, {}, k) && StatsOk(s, {}, k);
      assert StatsOk(s', {}, k);
    }
    forall a ensures AddrOk(s', a) { assert AddrOk(s, a); }
    forall i ensures PosOk(s', i) { assert PosOk(s, i); }
    forall x ensures TriedOk(h, s', x) { assert TriedOk(h, s, x); }
    forall x ensures NewOk(h, s', x) { assert NewOk(h, s, x); }
    CollisionsKept(h, s, s');
  }

  /** The entry for this address, if it has exactly this port. */
  predicate Known(s: State, svc: Service) {
    svc.ip in s.mapAddr && Matches(s.mapInfo, s.mapAddr[svc.ip], svc)
  }

  predicate Matches(m: Infos, n: int, svc: Service) { n in m && m[n].svc == svc }

  /** What `IsTerrible` decides from an entry's statistics. */
  predicate IsTerrible(info: Info, now: int) {
    if info.lastTry != 0 && info.lastTry >= now - 60 then false
    else if info.time > now + 10 * 60 then true
    else if info.time == 0 || now - info.time > HORIZON_DAYS * DAY then true
    else if info.lastSuccess == 0 && info.attempts >= RETRIES then true
    else now - info.lastSuccess > MIN_FAIL_DAYS * DAY && info.attempts >= MAX_FAILURES
  }

  function Attempted(info: Info, countFailure: bool, time: int, lastGood: int): Info {
    var info' := info.(lastTry := time);
    if countFailure && info.lastCountAttempt < lastGood then
      info'.(lastCountAttempt := time, attempts := info.attempts + 1)
    else info'
  }

  function AfterAttempt(s: State, svc: Service, countFailure: bool, time: int): State {
    if !Known(s, svc) then s
    else
      var n := s.mapAddr[svc.ip];
      s.(mapInfo := s.mapInfo[n := Attempted(s.mapInfo[n], countFailure, time, s.lastGood)])
  }

  function AfterConnected(s: State, svc: Service, time: int): State {
    if !Known(s, svc) then s
    else
      var n := s.mapAddr[svc.ip];
      if time - s.mapInfo[n].time <= 20 * 60 then s
      else s.(mapInfo := s.mapInfo[n := s.mapInfo[n].(time := U32(time))])
  }

  function AfterSetServices(s: State, svc: Service, services: bv64): State {
    if !Known(s, svc) then s
    else
      var n := s.mapAddr[svc.ip];
      s.(mapInfo := s.mapInfo[n := s.mapInfo[n].(services := services)])
  }

  // ----- marking an address good -----

  predicate HasBucket(h: Env, s: State, svc: Service, n: int) {
    exists b :: 0 <= b < NEW_BUCKET_COUNT && InBucket(h, s.vvNew, svc, b, n)
  }

  predicate InBucket(h: Env, vvNew: Table, svc: Service, b: int, n: int) {
    var slot := Slot(b, h.Position(svc, true, b));
    slot in vvNew && vvNew[slot] == n
  }

  function Succeeded(info: Info, time: int): Info {
    info.(lastSuccess := time, lastTry := time, attempts := 0)
  }

  ghost function AfterGood(h: Env, s: State, svc: Service, testBeforeEvict: bool, time: int): State
    requires Consistent(h, s) && time > 0
  {
    var s1 := s.(lastGood := time);
    if !Known(s, svc) then s1
    else
      var n := s.mapAddr[svc.ip];
      var s2 := s1.(mapInfo := s1.mapInfo[n := Succeeded(s.mapInfo[n], time)]);
      GoodStats(h, s, n, time);
      if s2.mapInfo[n].inTried || !HasBucket(h, s2, svc, n) then s2
      else if testBeforeEvict && h.TriedSlot(svc) in s2.vvTried then
        if |s2.collisions| < SET_TRIED_COLLISION_SIZE then s2.(collisions := s2.collisions + {n}) else s2
      else AfterMakeTried(h, s2, n)
  }

  lemma GoodStats(h: Env, s: State, n: int, time: int)
    requires Consistent(h, s) && n in s.mapInfo && time > 0
    ensures var s' := s.(mapInfo := s.mapInfo[n := Succeeded(s.mapInfo[n], time)], lastGood := time);
      Consistent(h, s') && Grows(s, s')
  {
    assert IdOk(h, s, {}, n) && StatsOk(s, {}, n);
    StatsKeep(h, s, n, Succeeded(s.mapInfo[n], time), time);
  }

  /** An entry that is not tried is always found in some new bucket. */
  lemma BucketIsFound(h: Env, s: State, n: int)
    requires ConsistentBut(h, s, {}) && n in s.mapInfo && !s.mapInfo[n].inTried
    ensures HasBucket(h, s, s.mapInfo[n].svc, n)
  {
    assert IdOk(h, s, {}, n) && StatsOk(s, {}, n);
    var slot :| slot in SlotsOf(s.vvNew, n);
    assert NewOk(h, s, slot);
    assert InBucket(h, s.vvNew, s.mapInfo[n].svc, slot.bucket, n);
  }

  lemma CollisionAdded(h: Env, s: State, n: int)
    requires Consistent(h, s) && n in s.mapInfo && h.TriedSlot(s.mapInfo[n].svc) in s.vvTried
    requires |s.collisions| < SET_TRIED_COLLISION_SIZE
    ensures var s' := s.(collisions := s.collisions + {n}); Consistent(h, s') && Grows(s, s')
  {
    var s' := s.(collisions := s.collisions + {n});
    assert IdOk(h, s, {}, n);
    SameButCollisions(h, s, s'.collisions);
    forall k | k in s'.collisions ensures CollisionOk(h, s', k) {
      if k != n { assert CollisionOk(h, s, k); }
    }
  }

  lemma SameButCollisions(h: Env, s: State, collisions: set<int>)
    requires ConsistentBut(h, s, {})
    ensures var s' := s.(collisions := collisions); ConsistentBut(h, s', {}) && Grows(s, s')
  {
    var s' := s.(collisions := collisions);
    forall k ensures IdOk(h, s', {}, k) && OwnerAt(s.mapInfo, s'.mapInfo, k) {
      assert IdOk(h, s, {}, k) && StatsOk(s, {}, k);
      assert StatsOk(s', {}, k);
    }
    forall a ensures AddrOk(s', a) { assert AddrOk(s, a); }
    forall i ensures PosOk(s', i) { assert PosOk(s, i); }
    forall x ensures TriedOk(h, s', x) { assert TriedOk(h, s, x); }
    forall x ensures NewOk(h, s', x) { assert NewOk(h, s, x); }
  }

  lemma GoodKeeps(h: Env, s: State, svc: Service, testBeforeEvict: bool, time: int)
    requires Consistent(h, s) && time > 0
    ensures Consistent(h, AfterGood(h, s, svc, testBeforeEvict, time))
    ensures Grows(s, AfterGood(h, s, svc, testBeforeEvict, time))
    ensures !testBeforeEvict ==> AfterGood(h, s, svc, testBeforeEvict, time).collisions == s.collisions
  {
    var s' := AfterGood(h, s, svc, testBeforeEvict, time);
    if !Known(s, svc) {
      LastGoodKeeps(h, s, time);
    } else {
      var n := s.mapAddr[svc.ip];
      GoodStats(h, s, n, time);
      var s2 := s.(mapInfo := s.mapInfo[n := Succeeded(s.mapInfo[n], time)], lastGood := time);
      if s2.mapInfo[n].inTried || !HasBucket(h, s2, svc, n) {
      } else if testBeforeEvict && h.TriedSlot(svc) in s2.vvTried {
        if |s2.collisions| < SET_TRIED_COLLISION_SIZE {
          CollisionAdded(h, s2, n);
          GrowsTransitive(s, s2, s');
        }
      } else {
        MakeTriedKeeps(h, s2, n);
        SurvivorsGrow(s2, s');
        CollisionsKept(h, s2, s');
        GrowsTransitive(s, s2, s');
      }
    }
  }

  // ----- adding an address -----

  /** Entry `k` gives way to entry `n` if it is terrible, or has spares while `n` has none. */
  predicate GivesWay(m: Infos, k: int, n: int, now: int)
    requires n in m
  {
    k in m && (IsTerrible(m[k], now) || (m[k].refCount > 1 && m[n].refCount == 0))
  }

  ghost function Insert(h: Env, s: State, n: int, source: NetAddr, now: int): State
    requires ConsistentBut(h, s, {n}) && n in s.mapInfo
  {
    var slot := h.NewSlot(s.mapInfo[n].svc, source);
    if slot in s.vvNew && s.vvNew[slot] == n then s
    else if slot !in s.vvNew || GivesWay(s.mapInfo, s.vvNew[slot], n, now) then
      ClearNewKeeps(h, s, slot, {n});
      assert SameShapeAt(s.mapInfo, AfterClearNew(s, slot).mapInfo, n);
      AddRef(AfterClearNew(s, slot), slot, n)
    else if s.mapInfo[n].refCount == 0 then
      DeleteKeeps(h, s, n, {n});
      AfterDelete(s, n)
    else s
  }

  lemma InsertKeeps(h: Env, s: State, n: int, source: NetAddr, now: int)
    requires ConsistentBut(h, s, {n}) && n in s.mapInfo && s.mapInfo[n].refCount < NEW_BUCKETS_PER_ADDRESS
    ensures var s' := Insert(h, s, n, source, now);
      && ConsistentBut(h, s', {}) && Survivors(s.mapInfo, s'.mapInfo)
      && s'.vvTried == s.vvTried && s'.idCount == s.idCount && s'.collisions == s.collisions
  {
    var slot := h.NewSlot(s.mapInfo[n].svc, source);
    var s' := Insert(h, s, n, source, now);
    assert {n} - {n} == {};
    assert IdOk(h, s, {n}, n) && StatsOk(s, {n}, n);
    if slot in s.vvNew && s.vvNew[slot] == n {
      SlotIsReference(s.vvNew, slot);
      Tighten(h, s, {n}, n);
    } else if slot !in s.vvNew || GivesWay(s.mapInfo, s.vvNew[slot], n, now) {
      ClearNewKeeps(h, s, slot, {n});
      var s1 := AfterClearNew(s, slot);
      assert SameShapeAt(s.mapInfo, s1.mapInfo, n);
      AddRefKeeps(h, s1, slot, n, {n});
      forall k ensures SurvivorAt(s.mapInfo, s'.mapInfo, k) { assert SurvivorAt(s.mapInfo, s1.mapInfo, k); }
    } else if s.mapInfo[n].refCount == 0 {
      DeleteKeeps(h, s, n, {n});
      forall k ensures SurvivorAt(s.mapInfo, s'.mapInfo, k) { assert SameShapeAt(s.mapInfo - {n}, s'.mapInfo, k); }
    } else {
      Tighten(h, s, {n}, n);
    }
  }

  function Refreshed(info: Info, addr: Address, penalty: int, now: int): Info {
    var interval := if now - addr.time < DAY then 60 * 60 else DAY;
    var time := if addr.time != 0 && (info.time == 0 || info.time < addr.time - interval - penalty)
                then U32(Max(0, addr.time - penalty)) else info.time;
    info.(time := time, services := BothServices(info.services, addr.services))
  }

  function BothServices(a: bv64, b: bv64): bv64 { a | b }

  function TwoTo(n: int): (p: nat)
    ensures p >= 1
  {
    if n <= 0 then 1 else 2 * TwoTo(n - 1)
  }

  /** A known entry gets another reference only on new information, below the limit, and with
      a probability that halves with each reference it has. */
  predicate WantsReference(info: Info, addr: Address, rnd: nat) {
    && addr.time != 0 && (info.time == 0 || addr.time > info.time)
    && !info.inTried && info.refCount != NEW_BUCKETS_PER_ADDRESS
    && LuckyDraw(rnd, TwoTo(info.refCount))
  }

  /** One chance in `factor`. */
  predicate LuckyDraw(rnd: nat, factor: nat) {
    factor > 1 ==> rnd % factor == 0
  }

  predicate Found(s: State, ip: NetAddr) {
    ip in s.mapAddr && s.mapAddr[ip] in s.mapInfo
  }

  ghost function AfterAdd(h: Env, s: State, addr: Address, source: NetAddr, penalty0: int, now: int, rnd: nat): State
    requires ConsistentBut(h, s, {})
  {
    var penalty := if addr.svc.ip == source then 0 else penalty0;
    if !h.isRoutable(addr.svc.ip) then s
    else if Found(s, addr.svc.ip) then
      var n := s.mapAddr[addr.svc.ip];
      var s1 := s.(mapInfo := s.mapInfo[n := Refreshed(s.mapInfo[n], addr, penalty, now)]);
      if WantsReference(s1.mapInfo[n], addr, rnd) then
        RefreshedTables(h, s, n, addr, penalty, now);
        Insert(h, s1, n, source, now)
      else s1
    else
      assert AddrOk(s, addr.svc.ip);
      AnnounceKeeps(h, s, addr, source, penalty);
      Insert(h, Announce(s, addr, source, penalty), s.idCount, source, now)
  }

  lemma RefreshedTables(h: Env, s: State, n: int, addr: Address, penalty: int, now: int)
    requires ConsistentBut(h, s, {}) && n in s.mapInfo
    ensures var s' := s.(mapInfo := s.mapInfo[n := Refreshed(s.mapInfo[n], addr, penalty, now)]);
      ConsistentBut(h, s', {}) && (!s.mapInfo[n].inTried ==> ConsistentBut(h, s', {n}))
  {
    var info := Refreshed(s.mapInfo[n], addr, penalty, now);
    assert IdOk(h, s, {}, n) && StatsOk(s, {}, n);
    StatsKeepTables(h, s, n, info, s.lastGood);
    var s' := s.(mapInfo := s.mapInfo[n := info], lastGood := s.lastGood);
    if !s.mapInfo[n].inTried {
      Loosen(h, s', {}, n);
      assert {} + {n} == {n};
    }
  }

  lemma RefreshedKeeps(h: Env, s: State, n: int, addr: Address, penalty: int, now: int)
    requires Consistent(h, s) && n in s.mapInfo
    ensures var s' := s.(mapInfo := s.mapInfo[n := Refreshed(s.mapInfo[n], addr, penalty, now)]);
      Consistent(h, s') && Grows(s, s') && (!s.mapInfo[n].inTried ==> ConsistentBut(h, s', {n}))
  {
    var info := Refreshed(s.mapInfo[n], addr, penalty, now);
    assert IdOk(h, s, {}, n) && StatsOk(s, {}, n);
    StatsKeep(h, s, n, info, s.lastGood);
    var s' := s.(mapInfo := s.mapInfo[n := info], lastGood := s.lastGood);
    if !s.mapInfo[n].inTried {
      Loosen(h, s', {}, n);
      assert {} + {n} == {n};
    }
  }

  lemma AnnounceGrows(h: Env, s: State, addr: Address, source: NetAddr, penalty: int)
    requires Consistent(h, s)
    ensures Grows(s, Announce(s, addr, source, penalty))
  {
    var s' := Announce(s, addr, source, penalty);
    forall k | k < s.idCount ensures OwnerAt(s.mapInfo, s'.mapInfo, k) {
    }
  }

  /** Add_ does not look at the pending collisions. */
  lemma AddKeepsTables(h: Env, s: State, addr: Address, source: NetAddr, penalty0: int, now: int, rnd: nat)
    requires ConsistentBut(h, s, {})
    ensures var s' := AfterAdd(h, s, addr, source, penalty0, now, rnd);
            ConsistentBut(h, s', {}) && s'.collisions == s.collisions && s'.vvTried == s.vvTried
  {
    var penalty := if addr.svc.ip == source then 0 else penalty0;
    if !h.isRoutable(addr.svc.ip) {
    } else if Found(s, addr.svc.ip) {
      var n := s.mapAddr[addr.svc.ip];
      RefreshedTables(h, s, n, addr, penalty, now);
      var s1 := s.(mapInfo := s.mapInfo[n := Refreshed(s.mapInfo[n], addr, penalty, now)]);
      if WantsReference(s1.mapInfo[n], addr, rnd) {
        assert IdOk(h, s1, {}, n) && StatsOk(s1, {}, n);
        InsertKeeps(h, s1, n, source, now);
      }
    } else {
      assert AddrOk(s, addr.svc.ip);
      AnnounceKeeps(h, s, addr, source, penalty);
      InsertKeeps(h, Announce(s, addr, source, penalty), s.idCount, source, now);
    }
  }

  lemma AddKeeps(h: Env, s: State, addr: Address, source: NetAddr, penalty0: int, now: int, rnd: nat)
    requires Consistent(h, s)
    ensures Consistent(h, AfterAdd(h, s, addr, source, penalty0, now, rnd))
    ensures Grows(s, AfterAdd(h, s, addr, source, penalty0, now, rnd))
  {
    var s' := AfterAdd(h, s, addr, source, penalty0, now, rnd);
    var penalty := if addr.svc.ip == source then 0 else penalty0;
    if !h.isRoutable(addr.svc.ip) {
      LastGoodKeeps(h, s, s.lastGood);
      assert s.(lastGood := s.lastGood) == s;
    } else if Found(s, addr.svc.ip) {
      var n := s.mapAddr[addr.svc.ip];
      RefreshedKeeps(h, s, n, addr, penalty, now);
      var s1 := s.(mapInfo := s.mapInfo[n := Refreshed(s.mapInfo[n], addr, penalty, now)]);
      if WantsReference(s1.mapInfo[n], addr, rnd) {
        assert IdOk(h, s1, {}, n) && StatsOk(s1, {}, n);
        InsertKeeps(h, s1, n, source, now);
        FinishAdd(h, s, s1, s');
      }
    } else {
      assert AddrOk(s, addr.svc.ip);
      AnnounceKeeps(h, s, addr, source, penalty);
      var s1 := Announce(s, addr, source, penalty);
      AnnounceGrows(h, s, addr, source, penalty);
      InsertKeeps(h, s1, s.idCount, source, now);
      FinishAdd(h, s, s1, s');
    }
  }

  lemma FinishAdd(h: Env, s: State, s1: State, s': State)
    requires CollisionsOk(h, s) && Grows(s, s1) && s1.collisions == s.collisions
    requires ConsistentBut(h, s', {}) && Survivors(s1.mapInfo, s'.mapInfo)
    requires s'.vvTried == s1.vvTried && s'.idCount == s1.idCount && s'.collisions == s1.collisions
    ensures Consistent(h, s') && Grows(s, s')
  {
    SurvivorsGrow(s1, s');
    GrowsTransitive(s, s1, s');
    CollisionsKept(h, s, s');
  }

  /** The slot for a new address is free, or the entry in it gives way to one without references. */
  predicate HasRoom(h: Env, s: State, svc: Service, source: NetAddr, now: int) {
    var slot := h.NewSlot(svc, source);
    slot in s.vvNew && s.vvNew[slot] in s.mapInfo ==>
      IsTerrible(s.mapInfo[s.vvNew[slot]], now) || s.mapInfo[s.vvNew[slot]].refCount > 1
  }

  /** An address that is reported as new is there afterwards exactly if its slot had room: otherwise its entry is
      deleted at once. */
  lemma AddedStays(h: Env, s: State, addr: Address, source: NetAddr, penalty0: int, now: int, rnd: nat)
    requires ConsistentBut(h, s, {}) && h.isRoutable(addr.svc.ip) && !Found(s, addr.svc.ip)
    ensures h.NewSlot(addr.svc, source) in s.vvNew ==> s.vvNew[h.NewSlot(addr.svc, source)] in s.mapInfo
    ensures Found(AfterAdd(h, s, addr, source, penalty0, now, rnd), addr.svc.ip) <==> HasRoom(h, s, addr.svc, source, now)
  {
    var penalty := if addr.svc.ip == source then 0 else penalty0;
    var n, slot := s.idCount, h.NewSlot(addr.svc, source);
    assert AddrOk(s, addr.svc.ip) && NewOk(h, s, slot);
    AnnounceKeeps(h, s, addr, source, penalty);
    var s1 := Announce(s, addr, source, penalty);
    if HasRoom(h, s, addr.svc, source, now) {
      ClearNewKeeps(h, s1, slot, {n});
      var s2 := AfterClearNew(s1, slot);
      assert SameShapeAt(s1.mapInfo, s2.mapInfo, n);
      assert IdOk(h, s2, {n}, n);
    } else {
      DeleteKeeps(h, s1, n, {n});
      var s2 := AfterDelete(s1, n);
      assert addr.svc.ip in s2.mapAddr ==> AddrOk(s2, addr.svc.ip);
    }
  }

  /** An address that was known before stays, whether or not it gets another reference. */
  lemma KnownStays(h: Env, s: State, addr: Address, source: NetAddr, penalty0: int, now: int, rnd: nat)
    requires ConsistentBut(h, s, {}) && Found(s, addr.svc.ip)
    ensures Found(AfterAdd(h, s, addr, source, penalty0, now, rnd), addr.svc.ip)
  {
    var penalty := if addr.svc.ip == source then 0 else penalty0;
    var n := s.mapAddr[addr.svc.ip];
    var s1 := s.(mapInfo := s.mapInfo[n := Refreshed(s.mapInfo[n], addr, penalty, now)]);
    if h.isRoutable(addr.svc.ip) && WantsReference(s1.mapInfo[n], addr, rnd) {
      RefreshedTables(h, s, n, addr, penalty, now);
      assert AddrOk(s, addr.svc.ip) && IdOk(h, s, {}, n) && StatsOk(s, {}, n);
      var slot := h.NewSlot(s1.mapInfo[n].svc, source);
      if slot in s1.vvNew && s1.vvNew[slot] == n {
      } else {
        ClearNewKeeps(h, s1, slot, {n});
        var s2 := AfterClearNew(s1, slot);
        assert SameShapeAt(s1.mapInfo, s2.mapInfo, n);
        assert IdOk(h, s2, {n}, n);
      }
    }
  }

  /** An unknown address whose new slot is free. */
  lemma AddToFree(h: Env, s: State, op: Op)
    requires Consistent(h, s) && op.AddOp? && h.isRoutable(op.addr.svc.ip) && op.addr.svc.ip !in s.mapAddr
    requires h.NewSlot(op.addr.svc, op.source) !in s.vvNew && op.penalty == 0
    ensures var s', n := AfterAdd(h, s, op.addr, op.source, 0, op.now, op.rnd), s.idCount;
            && s'.mapAddr == s.mapAddr[op.addr.svc.ip := n] && s'.idCount == n + 1
            && s'.vvTried == s.vvTried && s'.collisions == s.collisions
            && s'.vvNew == s.vvNew[h.NewSlot(op.addr.svc, op.source) := n]
            && s'.mapInfo == s.mapInfo[n := Info(op.addr.svc, op.addr.services, U32(Max(0, op.addr.time)), op.source,
                                                 0, 0, 0, 0, 1, false, |s.vRandom|)]
  {
    assert AddrOk(s, op.addr.svc.ip);
    AnnounceKeeps(h, s, op.addr, op.source, 0);
  }

  /** A run of one operation. */
  lemma FirstAdded(h: Env, op: Op)
    requires op.AddOp? && h.isRoutable(op.addr.svc.ip) && op.penalty == 0
    ensures RunsFromEmpty(h, [op]) && Consistent(h, Reached(h, [op]))
    ensures var s := Reached(h, [op]);
            && s.mapAddr == map[op.addr.svc.ip := 0] && s.idCount == 1 && s.vvTried == map[] && s.collisions == {}
            && s.vvNew == map[h.NewSlot(op.addr.svc, op.source) := 0]
            && s.mapInfo == map[0 := Info(op.addr.svc, op.addr.services, U32(Max(0, op.addr.time)), op.source,
                                          0, 0, 0, 0, 1, false, 0)]
  {
    RunAdd(h, [], op);
    assert [] + [op] == [op];
    EmptyIsConsistent(h);
    AddToFree(h, EMPTY, op);
    RunKeeps(h, EMPTY, [op]);
  }

  /** A run of two additions with the same slot at the same time: the second is reported as new, and gone. */
  lemma AddedIsGone() returns (h: Env, ops: seq<Op>, s: State, addr: Address, now: int)
    ensures RunsFromEmpty(h, ops) && s == Reached(h, ops)
    ensures Consistent(h, s) && h.isRoutable(addr.svc.ip) && !Found(s, addr.svc.ip)
    ensures !Found(AfterAdd(h, s, addr, 0, 0, now, 0), addr.svc.ip)
  {
    h := Env((_, _) => 0, _ => 0, (_, _, _) => 0, _ => true, _ => true, _ => 0);
    now := 1000;
    var first := Address(Service(1, 0), 0, 1000);
    addr := Address(Service(2, 0), 0, 1000);
    assert h.NewSlot(addr.svc, 0) == h.NewSlot(first.svc, 0) == Slot(0, 0);
    ops := [AddOp(first, 0, 0, now, 0)];
    FirstAdded(h, ops[0]);
    s := Reached(h, ops);
    AddedStays(h, s, addr, 0, 0, now, 0);
  }

  // ----- the remaining operations -----

  lemma AttemptKeeps(h: Env, s: State, svc: Service, countFailure: bool, time: int)
    requires Consistent(h, s) && time >= 0
    ensures Consistent(h, AfterAttempt(s, svc, countFailure, time)) && Grows(s, AfterAttempt(s, svc, countFailure, time))
  {
    if Known(s, svc) {
      var n := s.mapAddr[svc.ip];
      assert IdOk(h, s, {}, n) && StatsOk(s, {}, n);
      StatsKeep(h, s, n, Attempted(s.mapInfo[n], countFailure, time, s.lastGood), s.lastGood);
    } else {
      LastGoodKeeps(h, s, s.lastGood);
    }
  }

  lemma ConnectedKeeps(h: Env, s: State, svc: Service, time: int)
    requires Consistent(h, s)
    ensures Consistent(h, AfterConnected(s, svc, time)) && Grows(s, AfterConnected(s, svc, time))
  {
    LastGoodKeeps(h, s, s.lastGood);
    if Known(s, svc) {
      var n := s.mapAddr[svc.ip];
      assert IdOk(h, s, {}, n) && StatsOk(s, {}, n);
      StatsKeep(h, s, n, s.mapInfo[n].(time := U32(time)), s.lastGood);
    }
  }

  lemma SetServicesKeeps(h: Env, s: State, svc: Service, services: bv64)
    requires Consistent(h, s)
    ensures Consistent(h, AfterSetServices(s, svc, services)) && Grows(s, AfterSetServices(s, svc, services))
  {
    LastGoodKeeps(h, s, s.lastGood);
    if Known(s, svc) {
      var n := s.mapAddr[svc.ip];
      assert IdOk(h, s, {}, n) && StatsOk(s, {}, n);
      StatsKeep(h, s, n, s.mapInfo[n].(services := services), s.lastGood);
    }
  }

  /** A random position among those from `n` on. */
  function PickFrom(n: int, size: int, rnd: nat): (pos: int)
    requires 0 <= n < size
    ensures n <= pos < size
  {
    n + rnd % (size - n)
  }

  /** The first swaps of a Fisher-Yates shuffle of `vRandom`, one per element of `rnd`. */
  ghost function Shuffle(h: Env, s: State, rnd: seq<nat>): State
    requires Consistent(h, s) && |rnd| <= |s.vRandom|
    ensures Consistent(h, Shuffle(h, s, rnd)) && Grows(s, Shuffle(h, s, rnd))
    ensures |Shuffle(h, s, rnd).vRandom| == |s.vRandom|
    decreases |rnd|
  {
    if rnd == [] then LastGoodKeeps(h, s, s.lastGood); s
    else
      var n := |rnd| - 1;
      var s1 := Shuffle(h, s, rnd[..n]);
      var q := PickFrom(n, |s.vRandom|, rnd[n]);
      SwapKeeps(h, s1, n, q);
      GrowsTransitive(s, s1, AfterSwap(s1, n, q));
      AfterSwap(s1, n, q)
  }

  lemma SwapKeeps(h: Env, s: State, p: int, q: int)
    requires Consistent(h, s) && 0 <= p < |s.vRandom| && 0 <= q < |s.vRandom|
    ensures s.vRandom[p] in s.mapInfo && s.vRandom[q] in s.mapInfo
    ensures Consistent(h, AfterSwap(s, p, q)) && Grows(s, AfterSwap(s, p, q))
  {
    SwapRandomKeeps(h, s, p, q, {});
    var s' := AfterSwap(s, p, q);
    forall n ensures SurvivorAt(s.mapInfo, s'.mapInfo, n) { assert SameShapeAt(s.mapInfo, s'.mapInfo, n); }
    SurvivorsGrow(s, s');
    CollisionsKept(h, s, s');
  }

  function Forget(s: State, n: int): State { s.(collisions := s.collisions - {n}) }

  /** Whether a pending collision is settled, and if so whether the new entry wins. */
  datatype Verdict = Keep | Lose | Win

  function Judge(h: Env, s: State, n: int, now: int): Verdict {
    if n !in s.mapInfo || !h.isValid(s.mapInfo[n].svc.ip) then Lose
    else
      var slot := h.TriedSlot(s.mapInfo[n].svc);
      if slot !in s.vvTried then Win
      else if s.vvTried[slot] !in s.mapInfo then Keep
      else
        var holder := s.mapInfo[s.vvTried[slot]];
        if now - holder.lastSuccess < REPLACEMENT_HOURS * 60 * 60 then Lose
        else if now - holder.lastTry < REPLACEMENT_HOURS * 60 * 60 then
          if now - holder.lastTry > 60 then Win else Keep
        else if now - s.mapInfo[n].lastSuccess > TEST_WINDOW then Win
        else Keep
  }

  ghost function ResolveOne(h: Env, s: State, n: int, now: int): State
    requires Consistent(h, s) && now > 0
  {
    match Judge(h, s, n, now)
    case Keep => s
    case Lose => Forget(s, n)
    case Win => Forget(AfterGood(h, s, s.mapInfo[n].svc, false, now), n)
  }

  lemma ForgetKeeps(h: Env, s: State, n: int)
    requires Consistent(h, s)
    ensures Consistent(h, Forget(s, n)) && Grows(s, Forget(s, n))
  {
    var s' := Forget(s, n);
    SameButCollisions(h, s, s'.collisions);
    forall k | k in s'.collisions ensures CollisionOk(h, s', k) { assert CollisionOk(h, s, k); }
    AgreeExcept(s.collisions, s'.collisions, n);
  }

  lemma ResolveOneKeeps(h: Env, s: State, n: int, now: int)
    requires Consistent(h, s) && now > 0
    ensures Consistent(h, ResolveOne(h, s, n, now)) && Grows(s, ResolveOne(h, s, n, now))
  {
    match Judge(h, s, n, now)
    case Keep => LastGoodKeeps(h, s, s.lastGood);
    case Lose => ForgetKeeps(h, s, n);
    case Win =>
      GoodKeeps(h, s, s.mapInfo[n].svc, false, now);
      var s1 := AfterGood(h, s, s.mapInfo[n].svc, false, now);
      ForgetKeeps(h, s1, n);
      GrowsTransitive(s, s1, Forget(s1, n));
  }

  /** Resolving the pending collisions `todo` in ascending order of their ids. */
  ghost function AfterResolve(h: Env, s: State, todo: set<int>, now: int): State
    requires Consistent(h, s) && now > 0
    ensures Consistent(h, AfterResolve(h, s, todo, now)) && Grows(s, AfterResolve(h, s, todo, now))
    decreases |todo|
  {
    if |todo| == 0 then LastGoodKeeps(h, s, s.lastGood); s
    else
      var n := Least(todo);
      ResolveOneKeeps(h, s, n, now);
      var s1 := ResolveOne(h, s, n, now);
      GrowsTransitive(s, s1, AfterResolve(h, s1, todo - {n}, now));
      AfterResolve(h, s1, todo - {n}, now)
  }

  lemma SomeMember<T>(ids: set<T>) returns (k: T)
    requires |ids| > 0
    ensures k in ids
  {
    k :| k in ids;
  }

  lemma HasMember(ids: set<int>)
    requires |ids| > 0
    ensures exists k :: k in ids
  {
    var k := SomeMember(ids);
  }

  ghost function Least(ids: set<int>): (n: int)
    requires |ids| > 0
    ensures n in ids && forall k :: k in ids ==> n <= k
    decreases |ids|
  {
    HasMember(ids);
    var k :| k in ids;
    var others := ids - {k};
    assert forall x :: x in ids ==> x == k || x in others;
    if |others| == 0 then k
    else
      var rest := Least(others);
      if k < rest then k else rest
  }

  /** The entry that a pending collision would evict is there: no lookup of a missing id. */
  lemma CollisionHasVictim(h: Env, s: State, n: int)
    requires Consistent(h, s) && n in s.collisions && n in s.mapInfo
    ensures var slot := h.TriedSlot(s.mapInfo[n].svc);
      slot in s.vvTried && s.vvTried[slot] in s.mapInfo && s.mapInfo[s.vvTried[slot]].inTried
  {
    assert CollisionOk(h, s, n);
    assert TriedOk(h, s, h.TriedSlot(s.mapInfo[n].svc));
  }

  /** Picking the pending collision `n` to test; a forgotten entry is dropped. */
  function AfterSelect(s: State, n: int): State {
    if n in s.mapInfo then s else Forget(s, n)
  }

  // ----- whole runs -----

  datatype Op =
    | AddOp(addr: Address, source: NetAddr, penalty: int, now: int, rnd: nat)
    | GoodOp(svc: Service, testBeforeEvict: bool, time: int)
    | AttemptOp(svc: Service, countFailure: bool, time: int)
    | ConnectedOp(svc: Service, time: int)
    | SetServicesOp(svc: Service, services: bv64)
    | GetAddrOp(rndPositions: seq<nat>)
    | ResolveOp(now: int)
    | SelectCollisionOp(id: int)

  predicate Legal(s: State, op: Op) {
    match op
    case GoodOp(_, _, time) => time > 0
    case AttemptOp(_, _, time) => time >= 0
    case GetAddrOp(rndPositions) => |rndPositions| <= |s.vRandom|
    case ResolveOp(now) => now > 0
    case SelectCollisionOp(n) => n in s.collisions
    case _ => true
  }

  ghost function Apply(h: Env, s: State, op: Op): State
    requires Consistent(h, s) && Legal(s, op)
    ensures Consistent(h, Apply(h, s, op)) && Grows(s, Apply(h, s, op))
  {
    match op
    case AddOp(addr, source, penalty, now, rnd) =>
      AddKeeps(h, s, addr, source, penalty, now, rnd);
      AfterAdd(h, s, addr, source, penalty, now, rnd)
    case GoodOp(svc, testBeforeEvict, time) =>
      GoodKeeps(h, s, svc, testBeforeEvict, time);
      AfterGood(h, s, svc, testBeforeEvict, time)
    case AttemptOp(svc, countFailure, time) =>
      AttemptKeeps(h, s, svc, countFailure, time);
      AfterAttempt(s, svc, countFailure, time)
    case ConnectedOp(svc, time) => ConnectedKeeps(h, s, svc, time); AfterConnected(s, svc, time)
    case SetServicesOp(svc, services) => SetServicesKeeps(h, s, svc, services); AfterSetServices(s, svc, services)
    case GetAddrOp(rndPositions) => Shuffle(h, s, rndPositions)
    case ResolveOp(now) => AfterResolve(h, s, s.collisions, now)
    case SelectCollisionOp(n) =>
      ForgetKeeps(h, s, n);
      LastGoodKeeps(h, s, s.lastGood);
      AfterSelect(s, n)
  }

  ghost predicate LegalRun(h: Env, s: State, ops: seq<Op>)
    requires Consistent(h, s)
    decreases |ops|
  {
    ops == [] || (Legal(s, ops[0]) && LegalRun(h, Apply(h, s, ops[0]), ops[1..]))
  }

  ghost function Run(h: Env, s: State, ops: seq<Op>): State
    requires Consistent(h, s) && LegalRun(h, s, ops)
    decreases |ops|
  {
    if ops == [] then s else Run(h, Apply(h, s, ops[0]), ops[1..])
  }

  lemma EmptyIsConsistent(h: Env)
    ensures Consistent(h, EMPTY)
  {
    assert NewIds(EMPTY.mapInfo) == {} && TriedIds(EMPTY.mapInfo) == {};
  }

  /** Every legal run keeps every condition of `Check_` and never empties a tried slot. */
  lemma {:induction false} RunKeeps(h: Env, s: State, ops: seq<Op>)
    requires Consistent(h, s) && LegalRun(h, s, ops)
    ensures Consistent(h, Run(h, s, ops)) && Grows(s, Run(h, s, ops))
    decreases |ops|
  {
    if ops == [] {
      LastGoodKeeps(h, s, s.lastGood);
    } else {
      var s1 := Apply(h, s, ops[0]);
      RunKeeps(h, s1, ops[1..]);
      GrowsTransitive(s, s1, Run(h, s1, ops[1..]));
    }
  }

  ghost predicate RunsFromEmpty(h: Env, ops: seq<Op>) {
    EmptyIsConsistent(h);
    LegalRun(h, EMPTY, ops)
  }

  ghost function Reached(h: Env, ops: seq<Op>): State
    requires RunsFromEmpty(h, ops)
  {
    EmptyIsConsistent(h);
    Run(h, EMPTY, ops)
  }

  lemma RunOne(h: Env, s: State, op: Op)
    requires Consistent(h, s) && Legal(s, op)
    ensures LegalRun(h, s, [op]) && Run(h, s, [op]) == Apply(h, s, op)
  {
    assert [op][1..] == [];
  }

  lemma RunCons(h: Env, s: State, ops: seq<Op>)
    requires Consistent(h, s) && ops != [] && Legal(s, ops[0])
    ensures LegalRun(h, s, ops) <==> LegalRun(h, Apply(h, s, ops[0]), ops[1..])
    ensures LegalRun(h, s, ops) ==> Run(h, s, ops) == Run(h, Apply(h, s, ops[0]), ops[1..])
  {
  }

  /** A run with one more operation. */
  lemma {:induction false} RunSnoc(h: Env, s: State, ops: seq<Op>, op: Op)
    requires Consistent(h, s) && LegalRun(h, s, ops) && Legal(Run(h, s, ops), op)
    ensures Consistent(h, Run(h, s, ops))
    ensures LegalRun(h, s, ops + [op]) && Run(h, s, ops + [op]) == Apply(h, Run(h, s, ops), op)
    decreases |ops|
  {
    RunKeeps(h, s, ops);
    if ops == [] {
      assert ops + [op] == [op];
      RunOne(h, s, op);
    } else {
      RunCons(h, s, ops);
      RunSnoc(h, Apply(h, s, ops[0]), ops[1..], op);
      assert (ops + [op])[1..] == ops[1..] + [op] && (ops + [op])[0] == ops[0];
      RunCons(h, s, ops + [op]);
    }
  }

  lemma RunAdd(h: Env, ops: seq<Op>, op: Op)
    requires RunsFromEmpty(h, ops) && op.AddOp?
    ensures Consistent(h, Reached(h, ops)) && RunsFromEmpty(h, ops + [op])
    ensures Reached(h, ops + [op]) == AfterAdd(h, Reached(h, ops), op.addr, op.source, op.penalty, op.now, op.rnd)
  {
    EmptyIsConsistent(h);
    RunSnoc(h, EMPTY, ops, op);
  }

  lemma RunGood(h: Env, ops: seq<Op>, op: Op)
    requires RunsFromEmpty(h, ops) && op.GoodOp? && op.time > 0
    ensures Consistent(h, Reached(h, ops)) && RunsFromEmpty(h, ops + [op])
    ensures Reached(h, ops + [op]) == AfterGood(h, Reached(h, ops), op.svc, op.testBeforeEvict, op.time)
  {
    EmptyIsConsistent(h);
    RunSnoc(h, EMPTY, ops, op);
  }
}
