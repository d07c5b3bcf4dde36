/** What resolving the pending collisions does: who is replaced in the tried table, and who has to wait. */
module AddrManResolve {
  import opened AddrMan
  import opened AddrManEffects

  // ----- the rules, in seconds -----

  /** An entry of the tried table that may be replaced: no success for four hours, and either tried without success
      more than a minute ago, or not tried for four hours while the new one has been waiting for forty minutes. */
  predicate Replaceable(holder: Info, info: Info, now: int) {
    && now - holder.lastSuccess >= 14400
    && (60 < now - holder.lastTry < 14400 || (now - holder.lastTry >= 14400 && now - info.lastSuccess > 2400))
  }

  /** No success for four hours, but still given a minute to answer, or still waiting to be tried. */
  predicate Undecided(holder: Info, info: Info, now: int) {
    && now - holder.lastSuccess >= 14400
    && (now - holder.lastTry <= 60 || (now - holder.lastTry >= 14400 && now - info.lastSuccess <= 2400))
  }

  /** Entry `n` is there and valid, and the entry in its tried slot is `holder`. */
  predicate Faces(h: Env, s: State, n: int, slot: Slot, holder: int) {
    && n in s.mapInfo && h.isValid(s.mapInfo[n].svc.ip) && slot == h.TriedSlot(s.mapInfo[n].svc)
    && slot in s.vvTried && s.vvTried[slot] == holder && holder in s.mapInfo
  }

  predicate Wins(h: Env, s: State, n: int, slot: Slot, now: int) {
    slot in s.vvTried && Faces(h, s, n, slot, s.vvTried[slot]) && Replaceable(s.mapInfo[s.vvTried[slot]], s.mapInfo[n], now)
  }

  predicate Waits(h: Env, s: State, n: int, now: int) {
    n in s.mapInfo &&
    var slot := h.TriedSlot(s.mapInfo[n].svc);
    slot in s.vvTried && Faces(h, s, n, slot, s.vvTried[slot]) && Undecided(s.mapInfo[s.vvTried[slot]], s.mapInfo[n], now)
  }

  // ----- one collision -----

  /** Winning. */
  lemma WinnerMovesIn(h: Env, s: State, n: int, now: int)
    requires Consistent(h, s) && n in s.mapInfo && now > 0 && h.TriedSlot(s.mapInfo[n].svc) in s.vvTried
    ensures var s', slot := AfterGood(h, s, s.mapInfo[n].svc, false, now), h.TriedSlot(s.mapInfo[n].svc);
            && s'.collisions == s.collisions && s'.vvTried == s.vvTried[slot := n]
            && n in s'.mapInfo && s'.mapInfo[n].lastSuccess == now && s'.mapInfo[n].svc == s.mapInfo[n].svc
            && forall k :: k in s'.mapInfo && k != n ==> k in s.mapInfo && SameStats(s.mapInfo[k], s'.mapInfo[k])
  {
    assert IdOk(h, s, {}, n);
    GoodIs(h, s, s.mapInfo[n].svc, false, now);
    GoodKeeps(h, s, s.mapInfo[n].svc, false, now);
    var s' := AfterGood(h, s, s.mapInfo[n].svc, false, now);
    assert s.collisions + {} == s.collisions;
    assert OwnerAt(s.mapInfo, s'.mapInfo, n);
    assert s.mapInfo[n].inTried ==> s.vvTried[h.TriedSlot(s.mapInfo[n].svc) := n] == s.vvTried;
  }

  /** It wins, and is then tried in its slot; or it waits, and nothing happens; or it is forgotten, and nothing else
      happens. */
  lemma ResolveOneIs(h: Env, s: State, n: int, now: int)
    requires Consistent(h, s) && n in s.collisions && now > 0
    ensures var s' := ResolveOne(h, s, n, now);
            && (n in s'.collisions <==> Waits(h, s, n, now)) && s'.collisions - {n} == s.collisions - {n}
            && (n in s.mapInfo && Wins(h, s, n, h.TriedSlot(s.mapInfo[n].svc), now) ==>
                  && n in s'.mapInfo && s'.mapInfo[n].lastSuccess == now && s'.mapInfo[n].svc == s.mapInfo[n].svc
                  && s'.vvTried == s.vvTried[h.TriedSlot(s.mapInfo[n].svc) := n]
                  && forall k :: k in s'.mapInfo && k != n ==> k in s.mapInfo && SameStats(s.mapInfo[k], s'.mapInfo[k]))
            && (!(n in s.mapInfo && Wins(h, s, n, h.TriedSlot(s.mapInfo[n].svc), now)) ==>
                  s' == s.(collisions := s'.collisions))
  {
    if n in s.mapInfo {
      var slot := h.TriedSlot(s.mapInfo[n].svc);
      assert CollisionOk(h, s, n) && TriedOk(h, s, slot);
      if Wins(h, s, n, slot, now) {
        WinnerMovesIn(h, s, n, now);
      }
    }
  }

  // ----- all of them -----

  /** Statistics are those at the start of the call, or those of an entry that won during it. */
  predicate StatsSince(s: State, c: State, todo: set<int>, now: int, k: int) {
    k in c.mapInfo ==>
      && k in s.mapInfo && c.mapInfo[k].svc == s.mapInfo[k].svc
      && (SameStats(s.mapInfo[k], c.mapInfo[k]) || (k !in todo && c.mapInfo[k].lastSuccess == now))
  }

  /** A tried slot has its old holder, or a pending entry that was allowed to replace it. */
  predicate SlotSince(h: Env, s: State, c: State, now: int, slot: Slot) {
    && (slot in c.vvTried <==> slot in s.vvTried)
    && (slot in c.vvTried && c.vvTried[slot] != s.vvTried[slot] ==>
          var n := c.vvTried[slot];
          && n in s.collisions && Wins(h, s, n, slot, now)
          && n in c.mapInfo && c.mapInfo[n].lastSuccess == now)
  }

  /** Of those looked at, only who had to wait is still pending; and who had to wait is, unless its entry is gone or
      the one in its slot has won during the call. */
  predicate PendingSince(h: Env, s: State, c: State, todo: set<int>, now: int, n: int) {
    && (n in c.collisions ==> n in s.collisions)
    && (n in s.collisions && n in todo ==> n in c.collisions)
    && (n in s.collisions && n !in todo ==>
          && (n in c.collisions ==> Waits(h, s, n, now))
          && (Waits(h, s, n, now) && n !in c.collisions ==> n !in c.mapInfo || Renewed(c, h.TriedSlot(s.mapInfo[n].svc), now)))
  }

  predicate Renewed(c: State, slot: Slot, now: int) {
    slot in c.vvTried && c.vvTried[slot] in c.mapInfo && c.mapInfo[c.vvTried[slot]].lastSuccess == now
  }

  ghost predicate Since(h: Env, s: State, c: State, todo: set<int>, now: int) {
    && (forall k {:trigger StatsSince(s, c, todo, now, k)} :: StatsSince(s, c, todo, now, k))
    && (forall slot {:trigger SlotSince(h, s, c, now, slot)} :: SlotSince(h, s, c, now, slot))
    && (forall n {:trigger PendingSince(h, s, c, todo, now, n)} :: PendingSince(h, s, c, todo, now, n))
  }

  /** In the middle of the call an entry wins or waits only if it did so at the start, and the holder is the same. */
  lemma AsAtStart(h: Env, s: State, c: State, todo: set<int>, now: int, n: int)
    requires Consistent(h, s) && Consistent(h, c) && Since(h, s, c, todo, now)
    requires n in todo && n in c.mapInfo && n in s.collisions
    ensures n in s.mapInfo && c.mapInfo[n].svc == s.mapInfo[n].svc
    ensures var slot := h.TriedSlot(s.mapInfo[n].svc);
            && (Wins(h, c, n, slot, now) ==> Wins(h, s, n, slot, now))
            && (Waits(h, c, n, now) ==> Waits(h, s, n, now))
            && (Waits(h, s, n, now) ==> Waits(h, c, n, now) || Renewed(c, slot, now))
  {
    assert StatsSince(s, c, todo, now, n) && CollisionOk(h, s, n);
    var slot := h.TriedSlot(s.mapInfo[n].svc);
    assert SlotSince(h, s, c, now, slot) && TriedOk(h, s, slot) && TriedOk(h, c, slot);
    assert StatsSince(s, c, todo, now, c.vvTried[slot]);
  }

  lemma SinceStart(h: Env, s: State, now: int)
    requires Consistent(h, s)
    ensures Since(h, s, s, s.collisions, now)
  {
  }

  lemma SinceStats(h: Env, s: State, c: State, todo: set<int>, n: int, now: int, k: int)
    requires Consistent(h, s) && Consistent(h, c) && now > 0 && Since(h, s, c, todo, now)
    requires n in todo && n in c.collisions && n in s.collisions
    ensures StatsSince(s, ResolveOne(h, c, n, now), todo - {n}, now, k)
  {
    ResolveOneIs(h, c, n, now);
    assert StatsSince(s, c, todo, now, k) && StatsSince(s, c, todo, now, n);
  }

  lemma SinceSlot(h: Env, s: State, c: State, todo: set<int>, n: int, now: int, slot: Slot)
    requires Consistent(h, s) && Consistent(h, c) && now > 0 && Since(h, s, c, todo, now)
    requires n in todo && n in c.collisions && n in s.collisions
    ensures SlotSince(h, s, ResolveOne(h, c, n, now), now, slot)
  {
    ResolveOneIs(h, c, n, now);
    ResolveOneKeeps(h, c, n, now);
    var c' := ResolveOne(h, c, n, now);
    assert SlotSince(h, s, c, now, slot);
    assert TriedOk(h, c', slot);
    if n in c.mapInfo {
      AsAtStart(h, s, c, todo, now, n);
    }
  }

  lemma SincePending(h: Env, s: State, c: State, todo: set<int>, n: int, now: int, k: int)
    requires Consistent(h, s) && Consistent(h, c) && now > 0 && Since(h, s, c, todo, now)
    requires n in todo && n in c.collisions && n in s.collisions
    ensures PendingSince(h, s, ResolveOne(h, c, n, now), todo - {n}, now, k)
  {
    assert PendingSince(h, s, c, todo, now, k);
    ResolveOneShrinks(h, c, n, now, k);
    if k in s.mapInfo && Renewed(c, h.TriedSlot(s.mapInfo[k].svc), now) {
      RenewedStays(h, c, n, now, h.TriedSlot(s.mapInfo[k].svc));
    }
    if k == n {
      if n in c.mapInfo {
        AsAtStart(h, s, c, todo, now, n);
      }
    }
  }

  lemma ResolveOneShrinks(h: Env, c: State, n: int, now: int, k: int)
    requires Consistent(h, c) && n in c.collisions && now > 0
    ensures var c' := ResolveOne(h, c, n, now);
            && (k in c'.mapInfo ==> k in c.mapInfo)
            && (k in c'.collisions <==> if k == n then Waits(h, c, n, now) else k in c.collisions)
  {
    ResolveOneIs(h, c, n, now);
    assert k != n ==> (k in c.collisions - {n} <==> k in c.collisions);
  }

  /** A holder that has just won is not replaced. */
  lemma RenewedStays(h: Env, c: State, n: int, now: int, slot: Slot)
    requires Consistent(h, c) && n in c.collisions && now > 0 && Renewed(c, slot, now)
    ensures Renewed(ResolveOne(h, c, n, now), slot, now)
  {
    ResolveOneIs(h, c, n, now);
    ResolveOneKeeps(h, c, n, now);
    assert TriedOk(h, ResolveOne(h, c, n, now), slot);
  }

  lemma SinceStep(h: Env, s: State, c: State, todo: set<int>, n: int, now: int)
    requires Consistent(h, s) && Consistent(h, c) && now > 0 && Since(h, s, c, todo, now)
    requires n in todo && n in s.collisions
    ensures Since(h, s, ResolveOne(h, c, n, now), todo - {n}, now)
  {
    assert PendingSince(h, s, c, todo, now, n);
    var c', todo' := ResolveOne(h, c, n, now), todo - {n};
    forall k ensures StatsSince(s, c', todo', now, k) { SinceStats(h, s, c, todo, n, now, k); }
    forall slot ensures SlotSince(h, s, c', now, slot) { SinceSlot(h, s, c, todo, n, now, slot); }
    forall k ensures PendingSince(h, s, c', todo', now, k) { SincePending(h, s, c, todo, n, now, k); }
  }

  lemma {:induction false} SinceAll(h: Env, s: State, c: State, todo: set<int>, now: int)
    requires Consistent(h, s) && Consistent(h, c) && now > 0 && Since(h, s, c, todo, now) && todo <= s.collisions
    ensures Since(h, s, AfterResolve(h, c, todo, now), {}, now)
    decreases |todo|
  {
    if |todo| > 0 {
      var n := Least(todo);
      ResolveOneKeeps(h, c, n, now);
      SinceStep(h, s, c, todo, n, now);
      SinceAll(h, s, ResolveOne(h, c, n, now), todo - {n}, now);
    }
  }

  /** One call of `ResolveCollisions`: a tried slot changes hands only to a pending entry that may replace its holder;
      no slot is filled or emptied; an id whose entry is gone or no longer valid, or whose holder succeeded within
      four hours, is forgotten; and an id stays pending if and only if it has to wait, unless its entry has been
      dropped or the entry in its slot has won during the call. */
  lemma ResolveIs(h: Env, s: State, now: int)
    requires Consistent(h, s) && now > 0
    ensures var s' := AfterResolve(h, s, s.collisions, now);
            && s'.vvTried.Keys == s.vvTried.Keys
            && (forall slot :: slot in s.vvTried && s'.vvTried[slot] != s.vvTried[slot] ==>
                  s'.vvTried[slot] in s.collisions && Wins(h, s, s'.vvTried[slot], slot, now))
            && (forall n :: n in s'.collisions ==> n in s.collisions && Waits(h, s, n, now))
            && (forall n :: n in s.collisions && Waits(h, s, n, now) && n !in s'.collisions ==>
                  n !in s'.mapInfo || Renewed(s', h.TriedSlot(s.mapInfo[n].svc), now))
  {
    SinceStart(h, s, now);
    SinceAll(h, s, s, s.collisions, now);
    var s' := AfterResolve(h, s, s.collisions, now);
    forall slot
      ensures slot in s'.vvTried <==> slot in s.vvTried
      ensures slot in s.vvTried && s'.vvTried[slot] != s.vvTried[slot] ==>
                s'.vvTried[slot] in s.collisions && Wins(h, s, s'.vvTried[slot], slot, now)
    {
      assert SlotSince(h, s, s', now, slot);
    }
    forall n
      ensures n in s'.collisions ==> n in s.collisions && Waits(h, s, n, now)
      ensures n in s.collisions && Waits(h, s, n, now) && n !in s'.collisions ==>
                n !in s'.mapInfo || Renewed(s', h.TriedSlot(s.mapInfo[n].svc), now)
    {
      assert PendingSince(h, s, s', {}, now, n);
    }
  }
}
