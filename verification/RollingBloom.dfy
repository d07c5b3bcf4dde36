/**
 The rolling Bloom filter: two planes of bits hold, for every position, the number of the
 generation that touched it last.

 A 64-bit word is the sequence of its bits. The hash functions are a parameter, and so are the
 number of hash functions and the size, which the source computes in floating point.
 */
module RollingBloom {

  // ----- words -----

  type Word = s: seq<bool> | |s| == 64 witness seq(64, _ => false)

  function Not(x: Word): Word { seq(64, j requires 0 <= j < 64 => !x[j]) }
  function And(x: Word, y: Word): Word { seq(64, j requires 0 <= j < 64 => x[j] && y[j]) }
  function Or(x: Word, y: Word): Word { seq(64, j requires 0 <= j < 64 => x[j] || y[j]) }
  function Xor(x: Word, y: Word): Word { seq(64, j requires 0 <= j < 64 => x[j] != y[j]) }

  /** A bit shifted to a position. */
  function Shifted(v: bool, bit: nat): Word { seq(64, j => j == bit && v) }

  /** All ones or all zeros: zero minus a bit. */
  function Filled(v: bool): Word { seq(64, _ => v) }

  function Put(w: Word, bit: nat, v: bool): Word { Or(And(w, Not(Shifted(true, bit))), Shifted(v, bit)) }

  lemma PutIs(w: Word, bit: nat, v: bool)
    requires bit < 64
    ensures Put(w, bit, v) == w[bit := v]
  {
  }

  // ----- positions and generations -----

  /** A pair of words and a bit in both. */
  datatype Pos = Pos(pair: nat, bit: nat)

  /** The generation number at a position: 0 for untouched, or 1, 2 or 3. */
  function Cell(p1: Word, p2: Word, bit: nat): nat
    requires bit < 64
  {
    (if p1[bit] then 1 else 0) + (if p2[bit] then 2 else 0)
  }

  function Low(g: nat): bool { g % 2 == 1 }
  function High(g: nat): bool { g / 2 == 1 }

  /** The words without the entries of generation number g. */
  function WipeMask(p1: Word, p2: Word, g: nat): Word { Or(Xor(p1, Filled(Low(g))), Xor(p2, Filled(High(g)))) }

  lemma WipeIs(p1: Word, p2: Word, g: nat, bit: nat)
    requires bit < 64 && 1 <= g <= 3
    ensures var mask := WipeMask(p1, p2, g);
            Cell(And(p1, mask), And(p2, mask), bit) == if Cell(p1, p2, bit) == g then 0 else Cell(p1, p2, bit)
  {
  }

  lemma PutCell(p1: Word, p2: Word, g: nat, bit: nat, j: nat)
    requires bit < 64 && j < 64 && g <= 3
    ensures Cell(Put(p1, bit, Low(g)), Put(p2, bit, High(g)), j) == if j == bit then g else Cell(p1, p2, j)
  {
    PutIs(p1, bit, Low(g));
    PutIs(p2, bit, High(g));
  }

  /** The number of the g-th generation. */
  function Number(g: nat): nat
    requires g > 0
  {
    (g - 1) % 3 + 1
  }

  /** Touched in the current or one of the two generations before. */
  predicate Recent(gen: nat, touched: nat) { touched > 0 && touched + 2 >= gen }

  /** What a position holds when it was last touched in generation `touched`, or never if that is 0. */
  function Held(gen: nat, touched: nat): nat { if Recent(gen, touched) then Number(touched) else 0 }

  /** Starting a generation wipes exactly the positions whose number is reused. */
  lemma HeldNext(gen: nat, touched: nat)
    requires gen > 0 && touched <= gen
    ensures Held(gen + 1, touched) == if Held(gen, touched) == Number(gen + 1) then 0 else Held(gen, touched)
  {
  }

  type Touches = map<Pos, nat>

  function Touched(touch: Touches, p: Pos): nat { if p in touch then touch[p] else 0 }

  ghost predicate CellOk(d: seq<Word>, gen: nat, touch: Touches, w: nat, b: nat)
    requires 2 * w + 1 < |d| && b < 64
  {
    Touched(touch, Pos(w, b)) <= gen && Cell(d[2 * w], d[2 * w + 1], b) == Held(gen, Touched(touch, Pos(w, b)))
  }

  /** The planes hold the generation number of the last touch of every position; the pairs below
      `done` are already those of the next generation. */
  ghost predicate Planes(d: seq<Word>, gen: nat, touch: Touches, done: nat) {
    && |d| % 2 == 0
    && forall w: nat, b: nat {:trigger PlaneOk(d, gen, touch, done, w, b)} :: PlaneOk(d, gen, touch, done, w, b)
  }

  ghost predicate PlaneOk(d: seq<Word>, gen: nat, touch: Touches, done: nat, w: nat, b: nat) {
    2 * w + 1 < |d| && b < 64 ==> CellOk(d, if w < done then gen + 1 else gen, touch, w, b)
  }

  lemma WipeStep(d: seq<Word>, gen: nat, touch: Touches, w: nat, d': seq<Word>)
    requires gen > 0 && Planes(d, gen, touch, w) && 2 * w + 1 < |d| == |d'|
    requires var mask := WipeMask(d[2 * w], d[2 * w + 1], Number(gen + 1));
             d' == d[2 * w := And(d[2 * w], mask)][2 * w + 1 := And(d[2 * w + 1], mask)]
    ensures Planes(d', gen, touch, w + 1)
  {
    var done := w + 1;
    forall v: nat, b: nat ensures PlaneOk(d', gen, touch, done, v, b) {
      assert PlaneOk(d, gen, touch, w, v, b);
      if v == w && b < 64 {
        WipeIs(d[2 * w], d[2 * w + 1], Number(gen + 1), b);
        HeldNext(gen, Touched(touch, Pos(w, b)));
      }
    }
  }

  lemma Wiped(d: seq<Word>, gen: nat, touch: Touches)
    requires Planes(d, gen, touch, |d| / 2)
    ensures Planes(d, gen + 1, touch, 0)
  {
    var next := gen + 1;
    forall v: nat, b: nat ensures PlaneOk(d, next, touch, 0, v, b) {
      assert PlaneOk(d, gen, touch, |d| / 2, v, b);
    }
  }

  /** Writing the number of the current generation is touching the position. */
  lemma TouchStep(d: seq<Word>, gen: nat, touch: Touches, p: Pos, d': seq<Word>)
    requires gen > 0 && Planes(d, gen, touch, 0) && 2 * p.pair + 1 < |d| == |d'| && p.bit < 64
    requires d' == d[2 * p.pair := Put(d[2 * p.pair], p.bit, Low(Number(gen)))]
                    [2 * p.pair + 1 := Put(d[2 * p.pair + 1], p.bit, High(Number(gen)))]
    ensures Planes(d', gen, touch[p := gen], 0)
  {
    var touch' := touch[p := gen];
    forall v: nat, b: nat ensures PlaneOk(d', gen, touch', 0, v, b) {
      assert PlaneOk(d, gen, touch, 0, v, b);
      if v == p.pair && b < 64 {
        PutCell(d[2 * v], d[2 * v + 1], Number(gen), p.bit, b);
      }
    }
  }

  // ----- the filter -----

  type Key = seq<bv8>

  const UINT32 := 0x1_0000_0000

  function FastMod(x: nat, n: nat): (r: nat)
    requires x < UINT32 && n > 0
    ensures r < n && r * UINT32 <= x * n < (r + 1) * UINT32
  {
    MulLess(x, UINT32, n);
    x * n / UINT32
  }

  lemma MulLess(x: int, y: int, n: int)
    requires x < y && n > 0
    ensures x * n < y * n
  {
    assert (y - x) * n > 0;
  }

  /** Where a 32-bit hash points in a filter of n words. */
  function PosOf(h: nat, n: nat): (p: Pos)
    requires h < UINT32 && n > 0 && n % 2 == 0
    ensures 2 * p.pair + 1 < n && p.bit < 64
  {
    Pos(FastMod(h, n) / 2, h % 64)
  }

  /** The generation after n insertions, and how many of them are in it.  With no room for an entry in a generation,
      the second one never ends. */
  function GenAfter(n: nat, perGeneration: nat): (g: nat)
    ensures g > 0
  {
    if n == 0 then 1 else if perGeneration == 0 then 2 else (n - 1) / perGeneration + 1
  }

  function InGeneration(n: nat, perGeneration: nat): nat {
    if n == 0 then 0 else if perGeneration == 0 then n else (n - 1) % perGeneration + 1
  }

  /** One more insertion goes into the same generation, or starts the next one if that is full. */
  lemma GenStep(n: nat, perGeneration: nat)
    ensures var full := InGeneration(n, perGeneration) == perGeneration;
            && GenAfter(n + 1, perGeneration) == GenAfter(n, perGeneration) + (if full then 1 else 0)
            && InGeneration(n + 1, perGeneration) == (if full then 1 else InGeneration(n, perGeneration) + 1)
  {
    if n > 0 && perGeneration > 0 {
      DivStep(n - 1, perGeneration);
    }
  }

  lemma DivStep(x: nat, d: nat)
    requires d > 0
    ensures (x + 1) / d == x / d + (if x % d == d - 1 then 1 else 0)
    ensures (x + 1) % d == if x % d == d - 1 then 0 else x % d + 1
  {
    var q, r := x / d, x % d;
    assert x == q * d + r;
    if r == d - 1 {
      assert x + 1 == (q + 1) * d;
      DivIs(x + 1, d, q + 1, 0);
    } else {
      DivIs(x + 1, d, q, r + 1);
    }
  }

  lemma DivIs(x: nat, d: nat, q: nat, r: nat)
    requires d > 0 && x == q * d + r && r < d
    ensures x / d == q && x % d == r
  {
    var k := x / d;
    assert x == k * d + x % d;
    if k < q {
      MulAtMost(k + 1, q, d);
    } else if q < k {
      MulAtMost(q + 1, k, d);
    }
  }

  lemma MulAtMost(a: int, b: int, d: int)
    requires a <= b && d > 0
    ensures a * d <= b * d
  {
    assert (b - a) * d >= 0;
  }

  lemma {:induction false} GenMono(m: nat, n: nat, perGeneration: nat)
    requires m <= n
    ensures GenAfter(m, perGeneration) <= GenAfter(n, perGeneration)
    decreases n - m
  {
    if m < n {
      GenMono(m, n - 1, perGeneration);
      GenStep(n - 1, perGeneration);
    }
  }

  /** A key inserted since the generation before the one before the current one. */
  lemma RecentIndex(i: nat, n: nat, e: nat)
    requires i < n && i >= n - InGeneration(n, e) - 2 * e
    ensures GenAfter(i + 1, e) + 2 >= GenAfter(n, e)
  {
    if e > 0 {
      var q := (n - 1) / e;
      assert n - 1 == q * e + (n - 1) % e;
      assert i >= (q - 2) * e;
      if i / e < q - 2 {
        MulAtMost(i / e + 1, q - 2, e);
        assert i == i / e * e + i % e;
      }
    }
  }

  class Filter {
    const nEntriesPerGeneration: nat
    const nHashFuncs: nat
    const hash: (nat, nat, Key) -> nat
    const data: array<Word>
    var nEntriesThisGeneration: nat
    var nGeneration: nat
    var nTweak: nat
    /** Generations started since the last reset, the last touch of every position, and the keys inserted. */
    ghost var gen: nat
    ghost var touch: Touches
    ghost var keys: seq<Key>

    function Hash(n: nat, tweak: nat, key: Key): nat { hash(n, tweak, key) % UINT32 }

    function At(n: nat, tweak: nat, key: Key): (p: Pos)
      requires Sized()
      ensures 2 * p.pair + 1 < data.Length && p.bit < 64
    {
      PosOf(Hash(n, tweak, key), data.Length)
    }

    predicate Sized() { data.Length > 0 && data.Length % 2 == 0 }

    ghost function First(): int
      reads this
    {
      |keys| - nEntriesThisGeneration
    }

    /** A hash function of the filter sends the key to the position. */
    ghost predicate Hits(tweak: nat, key: Key, p: Pos)
      requires Sized()
    {
      exists n :: 0 <= n < nHashFuncs && At(n, tweak, key) == p
    }

    /** The generation of the last of these keys that hits the position, or 0. */
    ghost function LastTouch(tweak: nat, keys: seq<Key>, p: Pos): nat
      requires Sized()
      decreases |keys|
    {
      if keys == [] then 0
      else if Hits(tweak, keys[|keys| - 1], p) then GenAfter(|keys|, nEntriesPerGeneration)
      else LastTouch(tweak, keys[..|keys| - 1], p)
    }

    /** A key of the current or one of the two generations before hits the position. */
    ghost predicate RecentlyHit(p: Pos)
      requires Sized()
      reads this
    {
      exists i :: 0 <= i < |keys| && GenAfter(i + 1, nEntriesPerGeneration) + 2 >= gen && Hits(nTweak, keys[i], p)
    }

    ghost predicate Valid()
      reads this, data
    {
      && Sized() && gen == GenAfter(|keys|, nEntriesPerGeneration) && nGeneration == Number(gen)
      && nEntriesThisGeneration == InGeneration(|keys|, nEntriesPerGeneration)
      && Planes(data[..], gen, touch, 0)
      && forall p :: Touched(touch, p) == LastTouch(nTweak, keys, p)
    }

    lemma {:induction false} LastTouchIs(tweak: nat, keys: seq<Key>, p: Pos, g: nat)
      requires Sized()
      ensures LastTouch(tweak, keys, p) <= GenAfter(|keys|, nEntriesPerGeneration)
      ensures LastTouch(tweak, keys, p) > 0 && LastTouch(tweak, keys, p) >= g <==>
              exists i :: 0 <= i < |keys| && GenAfter(i + 1, nEntriesPerGeneration) >= g && Hits(tweak, keys[i], p)
      decreases |keys|
    {
      if keys != [] {
        var n := |keys| - 1;
        LastTouchIs(tweak, keys[..n], p, g);
        GenMono(n, n + 1, nEntriesPerGeneration);
        if Hits(tweak, keys[n], p) {
          if i :| 0 <= i < |keys| && GenAfter(i + 1, nEntriesPerGeneration) >= g && Hits(tweak, keys[i], p) {
            GenMono(i + 1, |keys|, nEntriesPerGeneration);
          }
        } else {
          assert forall i :: 0 <= i < n ==> keys[..n][i] == keys[i];
        }
      }
    }

    /** The key was inserted recently enough to be sure to be found: among the last two generations'
        worth of insertions, and in fact among all those since two generations before the current one. */
    ghost predicate Kept(key: Key)
      reads this
    {
      exists i :: 0 <= i < |keys| && i >= First() - 2 * nEntriesPerGeneration && keys[i] == key
    }

    constructor (nElements: nat, nHashFuncs: nat, pairs: nat, hash: (nat, nat, Key) -> nat, tweak: nat)
      requires pairs > 0
      ensures Valid() && fresh(data) && keys == [] && this.nHashFuncs == nHashFuncs && this.hash == hash
      ensures 2 * nEntriesPerGeneration >= nElements > 2 * nEntriesPerGeneration - 2
      ensures data.Length == 2 * pairs && nTweak == tweak
    {
      this.nHashFuncs := nHashFuncs;
      this.hash := hash;
      nEntriesPerGeneration := (nElements + 1) / 2;
      data := new Word[2 * pairs](_ => Filled(false));
      new;
      Reset(tweak);
    }

    method Reset(tweak: nat)
      requires Sized()
      modifies this, data
      ensures Valid() && keys == [] && nTweak == tweak
    {
      nTweak := tweak;
      nEntriesThisGeneration := 0;
      nGeneration := 1;
      for i := 0 to data.Length
        invariant forall k :: 0 <= k < i ==> data[k] == Filled(false)
        modifies data
      {
        data[i] := Filled(false);
      }
      gen, touch, keys := 1, map[], [];
      forall w: nat, b: nat ensures PlaneOk(data[..], 1, map[], 0, w, b) {
      }
    }

    method Insert(key: Key)
      requires Valid()
      modifies this, data
      ensures Valid() && keys == old(keys) + [key] && nTweak == old(nTweak) && Kept(key)
    {
      GenStep(|keys|, nEntriesPerGeneration);
      if nEntriesThisGeneration == nEntriesPerGeneration {
        NextGeneration();
      }
      TouchAll(key);
    }

    /** There is room for one more key in the generation that it belongs to. */
    ghost predicate Ready()
      reads this, data
    {
      && Sized() && gen == GenAfter(|keys| + 1, nEntriesPerGeneration) && nGeneration == Number(gen)
      && nEntriesThisGeneration + 1 == InGeneration(|keys| + 1, nEntriesPerGeneration)
      && Planes(data[..], gen, touch, 0)
      && forall p :: Touched(touch, p) == LastTouch(nTweak, keys, p)
    }

    method NextGeneration()
      requires Valid() && nEntriesThisGeneration == nEntriesPerGeneration
      modifies this`nEntriesThisGeneration, this`nGeneration, this`gen, data
      ensures Ready() && nEntriesThisGeneration == 0 && gen == old(gen) + 1
    {
      GenStep(|keys|, nEntriesPerGeneration);
      nGeneration := nGeneration + 1;
      if nGeneration == 4 {
        nGeneration := 1;
      }
      Wipe();
      gen := gen + 1;
      nEntriesThisGeneration := 0;
    }

    /** Wipes the entries that used the number of the new generation. */
    method Wipe()
      requires Sized() && gen > 0 && nGeneration == Number(gen + 1) && Planes(data[..], gen, touch, 0)
      modifies data
      ensures Planes(data[..], gen + 1, touch, 0)
    {
      var p := 0;
      while p < data.Length
        invariant 0 <= p <= data.Length && p % 2 == 0 && Planes(data[..], gen, touch, p / 2)
        decreases data.Length - p
      {
        ghost var d := data[..];
        var p1, p2 := data[p], data[p + 1];
        var mask := Or(Xor(p1, Filled(nGeneration % 2 == 1)), Xor(p2, Filled(nGeneration / 2 == 1)));
        data[p] := And(p1, mask);
        data[p + 1] := And(p2, mask);
        WipeStep(d, gen, touch, p / 2, data[..]);
        p := p + 2;
      }
      Wiped(data[..], gen, touch);
    }

    /** One of the first `k` hash functions sends the key to the position. */
    ghost predicate HitsBelow(k: nat, tweak: nat, key: Key, p: Pos)
      requires Sized()
    {
      exists n :: 0 <= n < k && At(n, tweak, key) == p
    }

    /** Touches every position of the key in the current generation, and no other. */
    method TouchAll(key: Key)
      requires Ready()
      modifies this`nEntriesThisGeneration, this`touch, this`keys, data
      ensures Valid() && keys == old(keys) + [key] && Kept(key)
    {
      for n := 0 to nHashFuncs
        invariant Planes(data[..], gen, touch, 0)
        invariant forall p :: Touched(touch, p) ==
                    if HitsBelow(n, nTweak, key, p) then gen else LastTouch(nTweak, keys, p)
        invariant keys == old(keys) && nEntriesThisGeneration == old(nEntriesThisGeneration)
      {
        TouchOne(n, key);
        HitsStep(n, key);
      }
      nEntriesThisGeneration := nEntriesThisGeneration + 1;
      LastTouchStep(key);
      keys := keys + [key];
      assert keys[|keys| - 1] == key;
    }

    /** Writes the number of the generation to one position. */
    method TouchOne(n: nat, key: Key)
      requires Sized() && gen > 0 && nGeneration == Number(gen) && Planes(data[..], gen, touch, 0)
      modifies this`touch, data
      ensures Planes(data[..], gen, touch, 0)
      ensures forall p :: Touched(touch, p) == if p == At(n, nTweak, key) then gen else old(Touched(touch, p))
    {
      ghost var d := data[..];
      var h := Hash(n, nTweak, key);
      var bit := h % 64;
      var pos := FastMod(h, data.Length);
      var even := pos - pos % 2;
      data[even] := Or(And(data[even], Not(Shifted(true, bit))), Shifted(nGeneration % 2 == 1, bit));
      data[even + 1] := Or(And(data[even + 1], Not(Shifted(true, bit))), Shifted(nGeneration / 2 == 1, bit));
      ghost var p := At(n, nTweak, key);
      TouchStep(d, gen, touch, p, data[..]);
      touch := touch[p := gen];
    }

    lemma HitsStep(n: nat, key: Key)
      requires Sized()
      ensures forall p :: HitsBelow(n + 1, nTweak, key, p) <==> p == At(n, nTweak, key) || HitsBelow(n, nTweak, key, p)
    {
      var next := n + 1;
      forall p ensures HitsBelow(next, nTweak, key, p) <==> p == At(n, nTweak, key) || HitsBelow(n, nTweak, key, p) {
        if m :| 0 <= m < n && At(m, nTweak, key) == p {
          assert 0 <= m < next;
        }
      }
    }

    lemma LastTouchStep(key: Key)
      requires Sized() && gen == GenAfter(|keys| + 1, nEntriesPerGeneration)
      ensures forall p :: LastTouch(nTweak, keys + [key], p) ==
                          if HitsBelow(nHashFuncs, nTweak, key, p) then gen else LastTouch(nTweak, keys, p)
    {
      assert (keys + [key])[..|keys|] == keys;
    }

    /** Found exactly if every position is hit by a key of the current or one of the two generations before; so it is,
        if the key was among the last 2 * nEntriesPerGeneration inserted. */
    method Contains(key: Key) returns (r: bool)
      requires Valid()
      ensures r <==> forall n: nat :: n < nHashFuncs ==> Recent(gen, Touched(touch, At(n, nTweak, key)))
      ensures r <==> forall n: nat :: n < nHashFuncs ==> RecentlyHit(At(n, nTweak, key))
      ensures Kept(key) ==> r
    {
      r := true;
      for n := 0 to nHashFuncs
        invariant forall m: nat :: m < n ==> Recent(gen, Touched(touch, At(m, nTweak, key))) && RecentlyHit(At(m, nTweak, key))
      {
        var h := Hash(n, nTweak, key);
        var bit := h % 64;
        var pos := FastMod(h, data.Length);
        var even := pos - pos % 2;
        ghost var p := At(n, nTweak, key);
        assert PlaneOk(data[..], gen, touch, 0, p.pair, p.bit);
        RecentIsHit(p);
        if !Or(data[even], data[even + 1])[bit] {
          assert !Recent(gen, Touched(touch, At(n, nTweak, key)));
          NotKept(key, n);
          return false;
        }
      }
    }

    lemma RecentIsHit(p: Pos)
      requires Valid()
      ensures Recent(gen, Touched(touch, p)) <==> RecentlyHit(p)
    {
      LastTouchIs(nTweak, keys, p, if gen > 2 then gen - 2 else 0);
    }

    lemma NotKept(key: Key, n: nat)
      requires Valid() && n < nHashFuncs && !RecentlyHit(At(n, nTweak, key))
      ensures !Kept(key)
    {
      forall i | 0 <= i < |keys| && i >= First() - 2 * nEntriesPerGeneration ensures keys[i] != key {
        RecentIndex(i, |keys|, nEntriesPerGeneration);
        if keys[i] == key {
          assert Hits(nTweak, keys[i], At(n, nTweak, key));
        }
      }
    }

    /** The last 2 * nEntriesPerGeneration insertions are all kept. */
    lemma LastAreKept(i: nat)
      requires Valid() && i < |keys| && i >= |keys| - 2 * nEntriesPerGeneration
      ensures Kept(keys[i])
    {
    }
  }
}
