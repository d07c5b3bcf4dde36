/** How large a serialized partial tree is, against the bounds its documentation gives. */
module MerkleSize {
  import Limbs
  import opened PartialMerkleTree
  import opened MerkleBlock

  // ----- the number of hashes -----

  /** The nodes where the traversal stops, each of which stores a hash. */
  function Stops(n: nat, mask: seq<bool>, h: nat, pos: nat): nat {
    if h == 0 || !Matched(mask, h, pos) then 1
    else Stops(n, mask, h - 1, 2 * pos) + if Node(n, h - 1, 2 * pos + 1) then Stops(n, mask, h - 1, 2 * pos + 1) else 0
  }

  lemma {:induction false} HashesAreStops(H: PairHash, txids: seq<Hash>, mask: seq<bool>, h: nat, pos: nat)
    requires Node(|txids|, h, pos)
    ensures |Build(H, txids, mask, h, pos).hashes| == Stops(|txids|, mask, h, pos)
    decreases h
  {
    if h > 0 && Matched(mask, h, pos) {
      Children(|txids|, h, pos);
      HashesAreStops(H, txids, mask, h - 1, 2 * pos);
      if Node(|txids|, h - 1, 2 * pos + 1) {
        HashesAreStops(H, txids, mask, h - 1, 2 * pos + 1);
      }
    }
  }

  lemma BothSides(left: nat, right: nat, a: nat, b: nat, h: nat)
    requires h > 0 && left + right > 0 && a <= 1 + left * (h - 1) && b <= 1 + right * (h - 1)
    ensures a + b <= 1 + (left + right) * h && a <= 1 + (left + right) * h
  {
    assert (left + right) * h == left * (h - 1) + right * (h - 1) + (left + right);
    assert right * (h - 1) >= 0;
  }

  /** At most one hash, and one more for each matched transaction and level. */
  lemma {:induction false} StopsByMatches(n: nat, mask: seq<bool>, h: nat, pos: nat, k: nat)
    requires k == |Found(mask, h, pos)|
    ensures Stops(n, mask, h, pos) <= 1 + k * h
    decreases h
  {
    if h > 0 && Matched(mask, h, pos) {
      var left, right := |Found(mask, h - 1, 2 * pos)|, |Found(mask, h - 1, 2 * pos + 1)|;
      FoundChildren(mask, h, pos);
      assert k == left + right;
      StopsByMatches(n, mask, h - 1, 2 * pos, left);
      StopsByMatches(n, mask, h - 1, 2 * pos + 1, right);
      MatchedIsFound(mask, h, pos);
      BothSides(left, right, Stops(n, mask, h - 1, 2 * pos), Stops(n, mask, h - 1, 2 * pos + 1), h);
    } else {
      assert k * h >= 0;
    }
  }

  lemma MatchedIsFound(mask: seq<bool>, h: nat, pos: nat)
    requires Matched(mask, h, pos)
    ensures |Found(mask, h, pos)| > 0
  {
    var p :| First(h, pos) <= p < First(h, pos + 1) && p < |mask| && mask[p];
    MatchesAre(mask, First(h, pos), First(h, pos + 1), p);
  }

  /** Both documented bounds on the number N of hashes. */
  lemma HashBounds(H: PairHash, txids: seq<Hash>, mask: seq<bool>)
    requires |txids| > 0 && |mask| == |txids|
    ensures var h, q := Height(|txids|), Built(H, txids, mask);
            |q.hashes| <= |txids| && |q.hashes| <= 1 + |MatchesIn(mask, 0, |mask|)| * h
  {
    var n, h := |txids|, Height(|txids|);
    BuiltSizes(H, txids, mask);
    WidthPositive(n, h);
    HashesAreStops(H, txids, mask, h, 0);
    StopsByMatches(n, mask, h, 0, |Found(mask, h, 0)|);
    RootFinds(n, mask);
  }

  /** The root's matches are all matches. */
  // ----- the number of bytes -----

  /** The length prefix of a vector. */
  function CompactSize(n: nat): nat { if n < 253 then 1 else if n <= 0xFFFF then 3 else 5 }

  /** Count of transactions, hashes and flag bytes, both with their lengths. */
  function SerializedSize(hashes: nat, bytes: nat): nat {
    4 + CompactSize(hashes) + 32 * hashes + CompactSize(bytes) + bytes
  }

  /** The documented bound: 10 and 32.25 for each hash, rounded up. */
  function DocumentedSize(hashes: nat): nat { 10 + 32 * hashes + (hashes + 3) / 4 }

  /** The bits that are left in the last flag byte when no node has a single child. */
  function Spare(hashes: nat): nat {
    if hashes % 4 == 0 then 1 else if hashes % 4 == 1 then 7 else if hashes % 4 == 2 then 5 else 3
  }

  lemma SizeArithmetic(n: nat, s: nat, bytes: nat)
    requires 0 < n <= MAX_TRANSACTIONS && s <= 15 && bytes == (2 * n - 1 + s + 7) / 8
    ensures SerializedSize(n, bytes) <= DocumentedSize(n) <==> 2 * n - 1 + s <= 2016 || s <= Spare(n)
  {
    var q, r := n / 4, n % 4;
    assert n == 4 * q + r;
    if s <= Spare(n) {
      assert bytes == (n + 3) / 4;
    } else {
      assert (n + 3) / 4 < bytes <= (n + 3) / 4 + 2;
    }
  }

  lemma {:induction false} SinglesAtMost(n: nat, mask: seq<bool>, h: nat, pos: nat)
    requires n > 0 && Node(n, h, pos)
    ensures Singles(n, mask, h, pos) <= h
    decreases h
  {
    if h > 0 && Matched(mask, h, pos) {
      Children(n, h, pos);
      if Node(n, h - 1, 2 * pos + 1) {
        InnerSingles(n, mask, h - 1, 2 * pos);
        SinglesAtMost(n, mask, h - 1, 2 * pos + 1);
      } else {
        SinglesAtMost(n, mask, h - 1, 2 * pos);
      }
    }
  }

  lemma {:induction false} WidthAtMost(n: nat, h: nat, k: nat)
    requires h <= k && n <= Limbs.Pow2(k)
    ensures Width(n, h) <= Limbs.Pow2(k - h)
    decreases h
  {
    if h > 0 {
      WidthAtMost(n, h - 1, k);
    }
  }

  lemma {:induction false} HeightAtMost(n: nat, h: nat, k: nat)
    requires h <= k && Width(n, k) <= 1
    ensures HeightFrom(n, h) <= k
    decreases k - h
  {
    if Width(n, h) > 1 {
      HeightAtMost(n, h + 1, k);
    }
  }

  lemma HeightIsSmall(n: nat)
    requires n <= MAX_TRANSACTIONS
    ensures Height(n) <= 15
  {
    assert Limbs.Pow2(15) == 32768 by {
      assert Limbs.Pow2(5) == 32;
      assert Limbs.Pow2(10) == 1024;
    }
    WidthAtMost(n, 15, 15);
    HeightAtMost(n, 0, 15);
  }

  /** The documented size holds exactly if the flag bytes need only a short length, or the bits of the matched nodes
      with a single child fit into the last byte. */
  lemma SizeBound(H: PairHash, txids: seq<Hash>, mask: seq<bool>, bytes: seq<bv8>)
    requires 0 < |txids| <= MAX_TRANSACTIONS && IsPacked(bytes, Built(H, txids, mask).bits)
    ensures var n, h := |txids|, Height(|txids|);
            var hashes, singles := Stops(n, mask, h, 0), Singles(n, mask, h, 0);
            && |Built(H, txids, mask).hashes| == hashes
            && (SerializedSize(hashes, |bytes|) <= DocumentedSize(hashes) <==>
                2 * hashes - 1 + singles <= 2016 || singles <= Spare(hashes))
  {
    var n, h := |txids|, Height(|txids|);
    WidthPositive(n, h);
    BuiltSizes(H, txids, mask);
    BuildSizes(H, txids, mask, h, 0);
    HashesAreStops(H, txids, mask, h, 0);
    HeightIsSmall(n);
    SinglesAtMost(n, mask, h, 0);
    SizeArithmetic(Stops(n, mask, h, 0), Singles(n, mask, h, 0), |bytes|);
  }

  // ----- a tree that is larger -----

  function AllMatched(n: nat): seq<bool> { seq(n, _ => true) }

  lemma MatchedEverywhere(n: nat, h: nat, pos: nat)
    requires Node(n, h, pos)
    ensures Matched(AllMatched(n), h, pos)
  {
    NodeIsInList(n, h, pos);
    FirstIncreases(h, pos);
    assert AllMatched(n)[First(h, pos)];
  }

  lemma {:induction false} StopsAtLeaves(n: nat, h: nat, pos: nat)
    requires Node(n, h, pos)
    ensures Stops(n, AllMatched(n), h, pos) == Leaves(n, h, pos)
    decreases h
  {
    MatchedEverywhere(n, h, pos);
    if h > 0 {
      Children(n, h, pos);
      LeavesBelow(n, h, pos);
      StopsAtLeaves(n, h - 1, 2 * pos);
      if Node(n, h - 1, 2 * pos + 1) {
        StopsAtLeaves(n, h - 1, 2 * pos + 1);
      }
    }
  }

  lemma LastSinglesStep(n: nat, mask: seq<bool>, h: nat)
    requires n > 0 && h > 0 && Matched(mask, h, Last(n, h))
    ensures Singles(n, mask, h, Last(n, h)) == Singles(n, mask, h - 1, Last(n, h - 1)) + Width(n, h - 1) % 2
  {
    var last := Last(n, h);
    Children(n, h, last);
    if Width(n, h - 1) % 2 == 0 {
      InnerSingles(n, mask, h - 1, 2 * last);
      assert 2 * last + 1 == Last(n, h - 1);
    }
  }

  /** The odd rows among the lowest h. */
  function OddRows(n: nat, h: nat): nat { if h == 0 then 0 else OddRows(n, h - 1) + Width(n, h - 1) % 2 }

  lemma {:induction false} SinglesAreOddRows(n: nat, h: nat)
    requires n > 0
    ensures Singles(n, AllMatched(n), h, Last(n, h)) == OddRows(n, h)
  {
    if h > 0 {
      MatchedEverywhere(n, h, Last(n, h));
      LastSinglesStep(n, AllMatched(n), h);
      SinglesAreOddRows(n, h - 1);
    }
  }

  lemma RowsOf1025()
    ensures Height(1025) == 11 && Width(1025, 11) == 1 && OddRows(1025, 11) == 10
  {
    var n := 1025;
    assert Width(n, 1) == 513 && OddRows(n, 1) == 1;
    assert Width(n, 2) == 257 && OddRows(n, 2) == 2;
    assert Width(n, 3) == 129 && OddRows(n, 3) == 3;
    assert Width(n, 4) == 65 && OddRows(n, 4) == 4;
    assert Width(n, 5) == 33 && OddRows(n, 5) == 5;
    assert Width(n, 6) == 17 && OddRows(n, 6) == 6;
    assert Width(n, 7) == 9 && OddRows(n, 7) == 7;
    assert Width(n, 8) == 5 && OddRows(n, 8) == 8;
    assert Width(n, 9) == 3 && OddRows(n, 9) == 9;
    assert Width(n, 10) == 2 && OddRows(n, 10) == 10;
    assert Width(n, 11) == 1 && OddRows(n, 11) == 10;
    assert HeightFrom(n, 11) == 11 && HeightFrom(n, 10) == 11 && HeightFrom(n, 9) == 11 && HeightFrom(n, 8) == 11;
    assert HeightFrom(n, 7) == 11 && HeightFrom(n, 6) == 11 && HeightFrom(n, 5) == 11 && HeightFrom(n, 4) == 11;
    assert HeightFrom(n, 3) == 11 && HeightFrom(n, 2) == 11 && HeightFrom(n, 1) == 11;
  }

  /** 1025 transactions, all matched, take one byte more than documented. */
  lemma SizeExceeded(H: PairHash, txids: seq<Hash>, bytes: seq<bv8>)
    requires |txids| == 1025 && IsPacked(bytes, Built(H, txids, AllMatched(1025)).bits)
    ensures var hashes := |Built(H, txids, AllMatched(1025)).hashes|;
            hashes == 1025 && SerializedSize(hashes, |bytes|) == DocumentedSize(hashes) + 1
  {
    RowsOf1025();
    var mask := AllMatched(1025);
    StopsAtLeaves(1025, 11, 0);
    FirstOfZero(11);
    BeyondRow(1025, 11, 1);
    HashesAreStops(H, txids, mask, 11, 0);
    SinglesAreOddRows(1025, 11);
    BuildSizes(H, txids, mask, 11, 0);
  }
}
