/** Which live elements, in which generation, an insertion keeps. */
module CuckooLive {
  import opened CuckooCache

  /** Whether a slot holds x live in generation g, as a number. */
  function Holds(s: State, i: nat, x: Element, g: bool): nat
    requires Shaped(s) && i < |s.table|
  {
    Ones(!s.collect[i] && s.table[i] == x && s.epoch[i] == g)
  }

  function CountUpTo(s: State, x: Element, g: bool, n: nat): nat
    requires Shaped(s) && n <= |s.table|
  {
    if n == 0 then 0 else CountUpTo(s, x, g, n - 1) + Holds(s, n - 1, x, g)
  }

  /** How often x is live in generation g. */
  function Count(s: State, x: Element, g: bool): nat
    requires Shaped(s)
  {
    CountUpTo(s, x, g, |s.table|)
  }

  predicate SameElsewhere(s: State, t: State, i: nat) {
    SameBut(s, t, i) && forall j :: 0 <= j < |s.table| && j != i ==> s.table[j] == t.table[j]
  }

  lemma {:induction false} CountChanges(s: State, t: State, i: nat, x: Element, g: bool, n: nat)
    requires SameElsewhere(s, t, i) && n <= |s.table|
    ensures CountUpTo(t, x, g, n) == CountUpTo(s, x, g, n) + if i < n then Holds(t, i, x, g) - Holds(s, i, x, g) else 0
    decreases n
  {
    if n > 0 {
      CountChanges(s, t, i, x, g, n - 1);
    }
  }

  /** All live elements stay live in their generation, and the new one joins them; only if the depth limit was
      reached, one of them all is gone. */
  ghost predicate KeepsLive(s: State, e: Element, ep: bool, r: Landing) {
    && Shaped(s) && Shaped(r.state)
    && (!r.exhausted ==> Gains(s, e, ep, r.state))
    && (r.exhausted ==> LosesOne(s, e, ep, r, true) || LosesOne(s, e, ep, r, false))
  }

  ghost predicate Gains(s: State, e: Element, ep: bool, t: State)
    requires Shaped(s) && Shaped(t)
  {
    forall x, g {:trigger Count(t, x, g)} :: Count(t, x, g) == Count(s, x, g) + Ones(x == e && g == ep)
  }

  ghost predicate LosesOne(s: State, e: Element, ep: bool, r: Landing, b: bool)
    requires Shaped(s) && Shaped(r.state)
  {
    forall x, g {:trigger Count(r.state, x, g)} ::
      Count(r.state, x, g) + Ones(x == r.dropped && g == b) == Count(s, x, g) + Ones(x == e && g == ep)
  }

  lemma PlaceGains(s: State, loc: nat, e: Element, ep: bool)
    requires Shaped(s) && loc < |s.table| && s.collect[loc]
    ensures Shaped(Place(s, loc, e, ep)) && Gains(s, e, ep, Place(s, loc, e, ep))
  {
    var t := Place(s, loc, e, ep);
    forall x, g ensures Count(t, x, g) == Count(s, x, g) + Ones(x == e && g == ep) {
      CountChanges(s, t, loc, x, g, |s.table|);
    }
  }

  /** A swap exchanges one live element for another. */
  ghost predicate Exchanges(s: State, e: Element, ep: bool, t: State, e': Element, ep': bool)
    requires Shaped(s) && Shaped(t)
  {
    forall x, g {:trigger Count(t, x, g)} ::
      Count(t, x, g) + Ones(x == e' && g == ep') == Count(s, x, g) + Ones(x == e && g == ep)
  }

  lemma SwapExchanges(s: State, loc: nat, e: Element, ep: bool)
    requires Shaped(s) && loc < |s.table| && !s.collect[loc]
    ensures Shaped(Swap(s, loc, e, ep)) && Exchanges(s, e, ep, Swap(s, loc, e, ep), s.table[loc], s.epoch[loc])
  {
    var t := Swap(s, loc, e, ep);
    var e', ep' := s.table[loc], s.epoch[loc];
    forall x, g ensures Count(t, x, g) + Ones(x == e' && g == ep') == Count(s, x, g) + Ones(x == e && g == ep) {
      CountChanges(s, t, loc, x, g, |s.table|);
    }
  }

  lemma {:induction false} DisplaceKeepsLive(env: Env, s: State, e: Element, last: int, ep: bool, depth: nat)
    requires Shaped(s) && Fits(env, |s.table|)
    ensures KeepsLive(s, e, ep, Displace(env, s, e, last, ep, depth))
    decreases depth
  {
    if depth == 0 {
      assert LosesOne(s, e, ep, Displace(env, s, e, last, ep, depth), ep);
    } else {
      var locs := env.locs(e);
      FreeIs(locs, s.collect, 0);
      IndexIs(locs, last, 0);
      var k, loc := FreeFrom(locs, s.collect, 0), NextLoc(locs, last);
      DisplaceStep(env, s, e, last, ep, depth);
      if k < 8 {
        PlaceGains(s, locs[k], e, ep);
      } else {
        var t := Swap(s, loc, e, ep);
        SwapExchanges(s, loc, e, ep);
        DisplaceKeepsLive(env, t, s.table[loc], loc, s.epoch[loc], depth - 1);
        ChainKeepsLive(s, t, e, ep, s.table[loc], s.epoch[loc], Displace(env, t, s.table[loc], loc, s.epoch[loc], depth - 1));
      }
    }
  }

  lemma ChainKeepsLive(s: State, t: State, e: Element, ep: bool, e': Element, ep': bool, r: Landing)
    requires Shaped(s) && Shaped(t) && KeepsLive(t, e', ep', r) && Exchanges(s, e, ep, t, e', ep')
    ensures KeepsLive(s, e, ep, r)
  {
    if r.exhausted {
      var b := LosesOne(t, e', ep', r, true);
      assert LosesOne(t, e', ep', r, b);
      forall x, g
        ensures Count(r.state, x, g) + Ones(x == r.dropped && g == b) == Count(s, x, g) + Ones(x == e && g == ep)
      {
        var c := Count(t, x, g);
      }
      assert LosesOne(s, e, ep, r, b);
    } else {
      forall x, g ensures Count(r.state, x, g) == Count(s, x, g) + Ones(x == e && g == ep) {
        var c := Count(t, x, g);
      }
    }
  }

  /** An element that is there already becomes live and newest; every other slot stays as it is. */
  lemma KeepRefreshes(env: Env, s: State, e: Element)
    requires Shaped(s) && Fits(env, |s.table|) && Find(env, s.table, e) < 8
    ensures var loc, t := env.locs(e)[Find(env, s.table, e)], AfterKeep(env, s, e);
            && Shaped(t) && SameElsewhere(s, t, loc)
            && forall x, g {:trigger Count(t, x, g)} ::
                 Count(t, x, g) + Holds(s, loc, x, g) == Count(s, x, g) + Ones(x == e && g)
  {
    FindIs(env.locs(e), s.table, e, 0);
    var loc, t := env.locs(e)[Find(env, s.table, e)], AfterKeep(env, s, e);
    forall x, g ensures Count(t, x, g) + Holds(s, loc, x, g) == Count(s, x, g) + Ones(x == e && g) {
      CountChanges(s, t, loc, x, g, |s.table|);
    }
  }

  /** Aging keeps the newest elements, as old ones, and frees exactly the old ones. */
  lemma {:induction false} RotatedCounts(s: State, x: Element, n: nat)
    requires Shaped(s) && n <= |s.table|
    ensures Shaped(Rotated(s)) && CountUpTo(Rotated(s), x, true, n) == 0
    ensures CountUpTo(Rotated(s), x, false, n) == CountUpTo(s, x, true, n)
    decreases n
  {
    if n > 0 {
      RotatedCounts(s, x, n - 1);
    }
  }

  /** What an insertion does to the live elements: one that was there is made live and newest, a new one joins
      all the others, and one is lost only if the depth limit was reached. */
  lemma InsertKeepsLive(env: Env, s: State, e: Element, depthLimit: nat)
    requires Shaped(s) && Fits(env, |s.table|)
    ensures var t, r := AfterEpochCheck(s), AfterInsert(env, s, e, depthLimit);
            && Shaped(t) && Shaped(r)
            && (Find(env, t.table, e) < 8 ==> Count(r, e, true) > 0)
            && var x := Displace(env, t, e, INVALID, true, depthLimit);
               Find(env, t.table, e) == 8 ==> x.state == r && KeepsLive(t, e, true, x)
  {
    var t := AfterEpochCheck(s);
    FindIs(env.locs(e), t.table, e, 0);
    if Find(env, t.table, e) < 8 {
      KeepRefreshes(env, t, e);
      var loc, r := env.locs(e)[Find(env, t.table, e)], AfterKeep(env, t, e);
      CountHas(r, loc, e, true, |r.table|);
    } else {
      DisplaceKeepsLive(env, t, e, INVALID, true, depthLimit);
    }
  }

  lemma {:induction false} CountHas(s: State, i: nat, x: Element, g: bool, n: nat)
    requires Shaped(s) && i < n <= |s.table|
    ensures Holds(s, i, x, g) <= CountUpTo(s, x, g, n)
    decreases n
  {
    if i < n - 1 {
      CountHas(s, i, x, g, n - 1);
    }
  }
}
