/** The cuckoo cache as an object, with its collection flags packed eight to a byte. */
module CuckooTable {
  import opened Bits
  import opened CuckooCache

  /** The bytes allocated for the flags, in 32-bit arithmetic. */
  function FlagBytes(size: nat): nat { (size + 7) % UINT32 / 8 }

  /** The flags are large enough exactly when the rounding does not wrap around. */
  lemma FlagsSuffice(size: nat)
    requires 0 < size < UINT32
    ensures size <= 8 * FlagBytes(size) <==> size + 7 < UINT32
  {
  }

  ghost function FlagsOf(bytes: seq<bv8>, size: nat): (r: seq<bool>)
    requires size <= 8 * |bytes|
    ensures |r| == size
  {
    seq(size, i requires 0 <= i < size => Bit(bytes[i / 8], i % 8))
  }

  lemma SetFlag(bytes: seq<bv8>, size: nat, s: nat)
    requires s < size <= 8 * |bytes|
    ensures FlagsOf(bytes[s / 8 := bytes[s / 8] | Mask(s % 8)], size) == FlagsOf(bytes, size)[s := true]
  {
    forall i | 0 <= i < size {
      SetBit(bytes[s / 8], s % 8, i % 8);
    }
  }

  lemma ClearFlag(bytes: seq<bv8>, size: nat, s: nat)
    requires s < size <= 8 * |bytes|
    ensures FlagsOf(bytes[s / 8 := bytes[s / 8] & !Mask(s % 8)], size) == FlagsOf(bytes, size)[s := false]
  {
    forall i | 0 <= i < size {
      ClearBit(bytes[s / 8], s % 8, i % 8);
    }
  }

  class BitPackedFlags {
    var mem: array<bv8>
    ghost var size: nat

    ghost predicate Valid()
      reads this
    {
      size <= 8 * mem.Length
    }

    ghost function Content(): (r: seq<bool>)
      requires Valid()
      reads this, mem
      ensures |r| == size
    {
      FlagsOf(mem[..], size)
    }

    constructor (size: nat)
      requires size < UINT32
      ensures fresh(mem) && mem.Length == FlagBytes(size) && this.size == size
      ensures Valid() <==> size + 7 < UINT32
      ensures Valid() ==> Content() == seq(size, _ => true)
    {
      var n := FlagBytes(size);
      mem := new bv8[n];
      this.size := size;
      new;
      for i := 0 to n
        invariant mem.Length == n && fresh(mem) && this.size == size
        invariant forall k :: 0 <= k < i ==> mem[k] == 0xFF
      {
        mem[i] := 0xFF;
      }
      forall k, j | 0 <= k < n && 0 <= j < 8 ensures Bit(mem[k], j) {
        MaskIs(j);
      }
    }

    method BitSet(s: nat)
      requires Valid() && s < size
      modifies mem
      ensures Valid() && Content() == old(Content())[s := true]
    {
      SetFlag(mem[..], size, s);
      mem[s / 8] := mem[s / 8] | Mask(s % 8);
    }

    method BitUnset(s: nat)
      requires Valid() && s < size
      modifies mem
      ensures Valid() && Content() == old(Content())[s := false]
    {
      ClearFlag(mem[..], size, s);
      mem[s / 8] := mem[s / 8] & !Mask(s % 8);
    }

    method BitIsSet(s: nat) returns (r: bool)
      requires Valid() && s < size
      ensures r == Content()[s]
    {
      r := Mask(s % 8) & mem[s / 8] != 0;
    }
  }

  // ----- the eight locations of an element -----

  function LocAt(hash: (nat, Element) -> nat, size: nat, e: Element, k: nat): nat { hash(k, e) % UINT32 * size / UINT32 }

  function ComputeHashes(hash: (nat, Element) -> nat, size: nat, e: Element): (r: seq<nat>)
    requires size > 0
    ensures InRange(r, size)
    ensures forall k :: 0 <= k < 8 ==> r[k] * UINT32 <= hash(k, e) % UINT32 * size < (r[k] + 1) * UINT32
  {
    LocsInRange(hash, size, e);
    seq(8, k requires 0 <= k < 8 => LocAt(hash, size, e, k))
  }

  lemma LocsInRange(hash: (nat, Element) -> nat, size: nat, e: Element)
    requires size > 0
    ensures forall k :: 0 <= k < 8 ==> LocAt(hash, size, e, k) < size
  {
    forall k | 0 <= k < 8 ensures LocAt(hash, size, e, k) < size {
      var word := hash(k, e) % UINT32;
      assert (UINT32 - word) * size > 0;
    }
  }

  class Cache {
    const hash: (nat, Element) -> nat
    var table: seq<Element>
    var size: nat
    var flags: BitPackedFlags
    var epochFlags: seq<bool>
    var counter: nat
    var epochSize: nat
    var depthLimit: nat

    ghost predicate Valid()
      reads this, flags
    {
      && flags.Valid() && |table| == |epochFlags| == flags.size == size
      && 2 <= size <= INVALID && epochSize >= 1 && depthLimit >= 1
    }

    ghost function Abs(): State
      requires Valid()
      reads this, flags, flags.mem
    {
      State(table, flags.Content(), epochFlags, counter, epochSize)
    }

    ghost function TheEnv(): (env: Env)
      requires size > 0
      reads this`size
      ensures Fits(env, size)
    {
      var n := size;
      var h := hash;
      Env((e: Element) => if n > 0 then ComputeHashes(h, n, e) else [])
    }

    /** The depth limit is the logarithm of the size, at least one. */
    constructor (hash: (nat, Element) -> nat, newSize: nat, depthLimit: nat)
      requires newSize < UINT32 && 1 <= depthLimit
      ensures fresh(flags) && fresh(flags.mem) && this.hash == hash && size == Max(2, newSize)
      ensures Valid() <==> newSize + 7 < UINT32
      ensures Valid() ==> Abs() == Initial(size) && Inv(TheEnv(), Abs())
    {
      this.hash := hash;
      this.depthLimit := depthLimit;
      var n := if newSize < 2 then 2 else newSize;
      size := n;
      table := seq(n, _ => DEFAULT);
      flags := new BitPackedFlags(n);
      epochFlags := seq(n, _ => false);
      var e := 45 * n % UINT32 / 100;
      epochSize := if e < 1 then 1 else e;
      counter := if e < 1 then 1 else e;
      new;
      InitialKeeps(TheEnv(), n);
    }

    method ComputeLocs(e: Element) returns (locs: seq<nat>)
      requires size > 0
      ensures locs == TheEnv().locs(e) && InRange(locs, size)
    {
      locs := ComputeHashes(hash, size, e);
    }

    /** The newest live entries. */
    method CountUnused() returns (n: nat)
      requires Valid()
      ensures n == LiveCount(Abs(), true)
    {
      n := 0;
      for i := 0 to size
        invariant n == LiveUpTo(Abs(), true, i)
      {
        var isSet := flags.BitIsSet(i);
        if epochFlags[i] && !isSet {
          n := n + 1;
        }
      }
    }

    method Age()
      requires Valid()
      modifies this`epochFlags, flags.mem
      ensures Valid()
      ensures var r := Rotated(old(Abs())); epochFlags == r.epoch && flags.Content() == r.collect
    {
      ghost var r := Rotated(Abs());
      for i := 0 to size
        invariant Valid()
        invariant forall k :: 0 <= k < i ==> epochFlags[k] == r.epoch[k] && flags.Content()[k] == r.collect[k]
        invariant forall k :: i <= k < size ==> epochFlags[k] == old(epochFlags[k]) && flags.Content()[k] == old(flags.Content())[k]
      {
        if epochFlags[i] {
          epochFlags := epochFlags[i := false];
        } else {
          flags.BitSet(i);
        }
      }
    }

    method EpochCheck()
      requires Valid()
      modifies this`counter, this`epochFlags, flags.mem
      ensures Valid() && Abs() == AfterEpochCheck(old(Abs()))
    {
      if counter != 0 {
        counter := counter - 1;
        return;
      }
      var unused := CountUnused();
      if unused >= epochSize {
        Age();
        counter := epochSize;
      } else {
        counter := Max(1, Max(epochSize / 16, epochSize - unused));
      }
    }

    method FindLoc(locs: seq<nat>, e: Element) returns (k: nat)
      requires InRange(locs, |table|)
      ensures k == FindFrom(locs, table, e, 0) && k <= 8
    {
      k := 0;
      while k < 8 && table[locs[k]] != e
        invariant k <= 8 && FindFrom(locs, table, e, 0) == FindFrom(locs, table, e, k)
      {
        k := k + 1;
      }
    }

    method FreeLoc(locs: seq<nat>) returns (k: nat)
      requires Valid() && InRange(locs, size)
      ensures k == FreeFrom(locs, flags.Content(), 0) && k <= 8
    {
      k := 0;
      while k < 8
        invariant k <= 8 && FreeFrom(locs, flags.Content(), 0) == FreeFrom(locs, flags.Content(), k)
      {
        var isSet := flags.BitIsSet(locs[k]);
        if isSet {
          return;
        }
        k := k + 1;
      }
    }

    method IndexLoc(locs: seq<nat>, loc: nat) returns (k: nat)
      requires |locs| == 8
      ensures k == IndexFrom(locs, loc, 0) && k <= 8
    {
      k := 0;
      while k < 8 && locs[k] != loc
        invariant k <= 8 && IndexFrom(locs, loc, 0) == IndexFrom(locs, loc, k)
      {
        k := k + 1;
      }
    }

    method Insert(element: Element)
      requires Valid()
      modifies this`table, this`counter, this`epochFlags, flags.mem
      ensures Valid() && Abs() == AfterInsert(TheEnv(), old(Abs()), element, depthLimit)
      ensures old(Inv(TheEnv(), Abs())) ==> Inv(TheEnv(), Abs())
    {
      EpochCheck();
      var locs := ComputeLocs(element);
      var k := FindLoc(locs, element);
      if k < 8 {
        flags.BitUnset(locs[k]);
        epochFlags := epochFlags[locs[k] := true];
      } else {
        DisplaceInto(element);
      }
      if old(Inv(TheEnv(), Abs())) {
        InsertKeeps(TheEnv(), old(Abs()), element, depthLimit);
      }
    }

    method PlaceAt(loc: nat, e: Element, epoch: bool)
      requires Valid() && loc < size
      modifies this`table, this`epochFlags, flags.mem
      ensures Valid() && Abs() == Place(old(Abs()), loc, e, epoch)
    {
      table := table[loc := e];
      flags.BitUnset(loc);
      epochFlags := epochFlags[loc := epoch];
    }

    method SwapAt(loc: nat, e: Element, epoch: bool) returns (evicted: Element, itsEpoch: bool)
      requires Valid() && loc < size
      modifies this`table, this`epochFlags
      ensures Valid() && Abs() == Swap(old(Abs()), loc, e, epoch)
      ensures evicted == old(table[loc]) && itsEpoch == old(epochFlags[loc])
    {
      evicted, itsEpoch := table[loc], epochFlags[loc];
      table := table[loc := e];
      epochFlags := epochFlags[loc := epoch];
    }

    method DisplaceInto(element: Element)
      requires Valid()
      modifies this`table, this`epochFlags, flags.mem
      ensures Valid() && Abs() == Displace(TheEnv(), old(Abs()), element, INVALID, true, depthLimit).state
    {
      var done, e, lastLoc: nat, lastEpoch := false, element, INVALID, true;
      ghost var left: nat := depthLimit;
      ghost var goal := Displace(TheEnv(), Abs(), e, lastLoc, lastEpoch, left);
      for depth := 0 to depthLimit
        invariant Valid() && left == depthLimit - depth
        invariant Displace(TheEnv(), Abs(), e, lastLoc, lastEpoch, left) == goal
      {
        done, e, lastLoc, lastEpoch := DisplaceOnce(e, lastLoc, lastEpoch, left);
        if done {
          return;
        }
        left := left - 1;
      }
    }

    /** Into a free slot if there is one, or else into the next slot, whose occupant comes out. */
    method DisplaceOnce(e: Element, lastLoc: nat, lastEpoch: bool, ghost left: nat)
      returns (done: bool, e': Element, lastLoc': nat, lastEpoch': bool)
      requires Valid() && left > 0
      modifies this`table, this`epochFlags, flags.mem
      ensures Valid()
      ensures var r := Displace(TheEnv(), old(Abs()), e, lastLoc, lastEpoch, left);
              if done then Abs() == r.state else Displace(TheEnv(), Abs(), e', lastLoc', lastEpoch', left - 1) == r
    {
      DisplaceStep(TheEnv(), Abs(), e, lastLoc, lastEpoch, left);
      done, e', lastLoc', lastEpoch' := true, e, lastLoc, lastEpoch;
      var locs := ComputeLocs(e);
      var k := FreeLoc(locs);
      if k < 8 {
        PlaceAt(locs[k], e, lastEpoch);
      } else {
        var at := IndexLoc(locs, lastLoc);
        lastLoc' := locs[(1 + at) % 8];
        e', lastEpoch' := SwapAt(lastLoc', e, lastEpoch);
        done := false;
      }
    }

    /** Whether an element is in the table; asking may mark it for collection. */
    method Contains(e: Element, erase: bool) returns (found: bool)
      requires Valid()
      modifies flags.mem
      ensures Valid() && Abs() == AfterContains(TheEnv(), old(Abs()), e, erase)
      ensures e != DEFAULT && AtHome(TheEnv(), table) ==> found == (e in table)
    {
      var locs := ComputeLocs(e);
      var k := FindLoc(locs, e);
      found := k < 8;
      if e != DEFAULT && AtHome(TheEnv(), table) {
        FoundIsMember(TheEnv(), table, e);
      }
      if found && erase {
        flags.BitSet(locs[k]);
      }
    }
  }
}
