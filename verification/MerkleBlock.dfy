/**
 The partial Merkle tree as an object: traversals that push flag bits and hashes or advance
 cursors, the packing of bits into bytes, and what a whole extraction establishes.
 */
module MerkleBlock {
  import opened Bits
  import Limbs
  import opened PartialMerkleTree

  // ----- bits in bytes -----

  /** Bit by bit, least significant first, with zeros after the last bit. */
  predicate IsPacked(bytes: seq<bv8>, bits: seq<bool>) {
    && |bytes| == (|bits| + 7) / 8
    && forall k, j :: 0 <= k < |bytes| && 0 <= j < 8 ==>
         (Bit(bytes[k], j) <==> 8 * k + j < |bits| && bits[8 * k + j])
  }

  method BitsToBytes(bits: seq<bool>) returns (ret: seq<bv8>)
    ensures IsPacked(ret, bits)
  {
    ret := seq((|bits| + 7) / 8, _ => 0);
    for p := 0 to |bits|
      invariant |ret| == (|bits| + 7) / 8
      invariant forall k, j :: 0 <= k < |ret| && 0 <= j < 8 ==> (Bit(ret[k], j) <==> 8 * k + j < p && bits[8 * k + j])
    {
      ghost var before := ret;
      if bits[p] {
        ret := ret[p / 8 := ret[p / 8] | Mask(p % 8)];
      }
      forall k, j | 0 <= k < |ret| && 0 <= j < 8
        ensures Bit(ret[k], j) <==> 8 * k + j < p + 1 && bits[8 * k + j]
      {
        SetBit(before[k], p % 8, j);
      }
    }
  }

  function Unpacked(bytes: seq<bv8>): seq<bool> {
    seq(8 * |bytes|, p requires 0 <= p < 8 * |bytes| => Bit(bytes[p / 8], p % 8))
  }

  method BytesToBits(bytes: seq<bv8>) returns (ret: seq<bool>)
    ensures ret == Unpacked(bytes)
  {
    ret := seq(8 * |bytes|, _ => false);
    for p := 0 to |ret|
      invariant |ret| == 8 * |bytes|
      invariant forall q :: 0 <= q < p ==> ret[q] == Unpacked(bytes)[q]
    {
      ret := ret[p := bytes[p / 8] & Mask(p % 8) != 0];
    }
  }

  function Padding(n: nat): seq<bool> { seq(8 * ((n + 7) / 8) - n, _ => false) }

  /** Unpacking gives the bits back, up to zeros that fill the last byte. */
  lemma PackRoundTrip(bytes: seq<bv8>, bits: seq<bool>)
    requires IsPacked(bytes, bits)
    ensures Unpacked(bytes) == bits + Padding(|bits|)
  {
    forall p | 0 <= p < 8 * |bytes| ensures Unpacked(bytes)[p] == (bits + Padding(|bits|))[p] {
      assert Bit(bytes[p / 8], p % 8) <==> p < |bits| && bits[p];
    }
  }

  // ----- a whole extraction -----

  function Start(p: Proof, bad: bool, indexes: seq<nat>): Walk { Walk(p.bits, p.hashes, bad, [], indexes) }

  predicate SizesOk(n: nat, p: Proof) {
    0 < n <= MAX_TRANSACTIONS && |p.hashes| <= n && |p.hashes| <= |p.bits|
  }

  /** All hashes were consumed, and all bits but the padding of the last byte. */
  predicate Consumed(p: Proof, w: Walk) {
    (|p.bits| - |w.bits| + 7) / 8 == (|p.bits| + 7) / 8 && |w.hashes| == 0
  }

  function Extraction(H: PairHash, n: nat, p: Proof, bad: bool, indexes: seq<nat>): Visit {
    if !SizesOk(n, p) then Visit(ZERO, Start(p, bad, indexes))
    else
      var v := Extract(H, n, Height(n), 0, Start(p, bad, indexes));
      if v.walk.bad || !Consumed(p, v.walk) then Visit(ZERO, v.walk) else v
  }

  /** Whatever was received: if a root comes out, and it is that of a list of this many transactions,
      then what was extracted is in the list at the extracted positions, or a genuine collision
      of the pair hash is at hand. */
  lemma ExtractionSound(H: PairHash, txids: seq<Hash>, p: Proof, bad: bool)
    requires |txids| > 0
    requires Extraction(H, |txids|, p, bad, []).hash == Root(H, txids) && Root(H, txids) != ZERO
    ensures Node(|txids|, Height(|txids|), 0)
    ensures var x := FindClash(H, txids, Height(|txids|), 0, Start(p, bad, []));
            if x.NoClash? then Right(txids, Extraction(H, |txids|, p, bad, []).walk) else Genuine(H, x)
  {
    WidthPositive(|txids|, Height(|txids|));
    ExtractSound(H, txids, Height(|txids|), 0, Start(p, bad, []));
  }

  function Built(H: PairHash, txids: seq<Hash>, mask: seq<bool>): Proof
    requires |txids| > 0
  {
    WidthPositive(|txids|, Height(|txids|));
    Build(H, txids, mask, Height(|txids|), 0)
  }

  lemma {:induction false} NothingBeyond(mask: seq<bool>, lo: nat, hi: nat)
    requires lo <= |mask| <= hi
    ensures MatchesIn(mask, lo, hi) == MatchesIn(mask, lo, |mask|)
    decreases hi
  {
    if |mask| < hi {
      NothingBeyond(mask, lo, hi - 1);
    }
  }

  lemma RootFinds(n: nat, mask: seq<bool>)
    requires 0 < n == |mask|
    ensures Found(mask, Height(n), 0) == MatchesIn(mask, 0, n)
  {
    HeightIsOne(n, 0);
    BeyondRow(n, Height(n), 1);
    FirstOfZero(Height(n));
    NothingBeyond(mask, 0, First(Height(n), 1));
  }

  lemma {:induction false} FirstOfZero(h: nat)
    ensures First(h, 0) == 0
  {
    if h > 0 {
      FirstOfZero(h - 1);
    }
  }

  lemma BuiltSizes(H: PairHash, txids: seq<Hash>, mask: seq<bool>)
    requires |txids| > 0
    ensures var q := Built(H, txids, mask); |q.hashes| <= |txids| && |q.hashes| <= |q.bits|
  {
    WidthPositive(|txids|, Height(|txids|));
    BuildSizes(H, txids, mask, Height(|txids|), 0);
    FirstOfZero(Height(|txids|));
  }

  /** The matched transactions and their positions, in order. */
  predicate FindsAll(txids: seq<Hash>, mask: seq<bool>, v: Visit) {
    var at := MatchesIn(mask, 0, |txids|);
    !v.walk.bad && v.walk.indexes == at && v.walk.matches == Pick(txids, at)
  }

  lemma ReadsBuilt(H: PairHash, txids: seq<Hash>, mask: seq<bool>, pad: seq<bool>)
    requires |txids| > 0 && |mask| == |txids| && Distinguished(H, txids)
    ensures var q := Built(H, txids, mask);
            var v := Extract(H, |txids|, Height(|txids|), 0, Start(Proof(q.bits + pad, q.hashes), false, []));
            v.hash == Root(H, txids) && FindsAll(txids, mask, v) && v.walk.bits == pad && v.walk.hashes == []
  {
    var q := Built(H, txids, mask);
    WidthPositive(|txids|, Height(|txids|));
    var rest := Walk(pad, [], false, [], []);
    assert Start(Proof(q.bits + pad, q.hashes), false, []) == Before(q, rest);
    ExtractBuilt(H, txids, mask, Height(|txids|), 0, rest);
    RootFinds(|txids|, mask);
    var at := MatchesIn(mask, 0, |txids|);
    assert [] + at == at && [] + Pick(txids, at) == Pick(txids, at);
  }

  /** Build, pack, unpack and extract: the root comes back, with exactly the matched transactions and
      their positions in order, and every check passes. */
  lemma ExtractionComplete(H: PairHash, txids: seq<Hash>, mask: seq<bool>, bytes: seq<bv8>)
    requires 0 < |txids| <= MAX_TRANSACTIONS && |mask| == |txids| && Distinguished(H, txids)
    requires IsPacked(bytes, Built(H, txids, mask).bits)
    ensures var q := Built(H, txids, mask);
            var v := Extraction(H, |txids|, Proof(Unpacked(bytes), q.hashes), false, []);
            v.hash == Root(H, txids) && FindsAll(txids, mask, v)
  {
    var q := Built(H, txids, mask);
    var pad := Padding(|q.bits|);
    PackRoundTrip(bytes, q.bits);
    BuiltSizes(H, txids, mask);
    ReadsBuilt(H, txids, mask, pad);
    ExtractionIs(H, |txids|, Proof(q.bits + pad, q.hashes), |q.bits|);
  }

  lemma ExtractionIs(H: PairHash, n: nat, p: Proof, used: nat)
    requires SizesOk(n, p) && used <= |p.bits| == 8 * ((used + 7) / 8)
    requires var w := Extract(H, n, Height(n), 0, Start(p, false, [])).walk;
             !w.bad && |w.bits| == |p.bits| - used && w.hashes == []
    ensures Extraction(H, n, p, false, []) == Extract(H, n, Height(n), 0, Start(p, false, []))
  {
  }

  /** With an injective pair hash this is so for every list of distinct transactions. */
  lemma InjectiveComplete(H: PairHash, txids: seq<Hash>, mask: seq<bool>, bytes: seq<bv8>)
    requires 0 < |txids| <= MAX_TRANSACTIONS && |mask| == |txids| && DistinctIds(txids) && Injective(H)
    requires IsPacked(bytes, Built(H, txids, mask).bits)
    ensures var q := Built(H, txids, mask);
            var v := Extraction(H, |txids|, Proof(Unpacked(bytes), q.hashes), false, []);
            v.hash == Root(H, txids) && FindsAll(txids, mask, v)
  {
    InjectiveDistinguishes(H, txids);
    ExtractionComplete(H, txids, mask, bytes);
  }

  // ----- shifts -----

  lemma {:induction false} FirstIsShift(h: nat, pos: nat)
    ensures First(h, pos) == pos * Limbs.Pow2(h)
    decreases h
  {
    if h > 0 {
      FirstIsShift(h - 1, 2 * pos);
      assert (2 * pos) * Limbs.Pow2(h - 1) == pos * (2 * Limbs.Pow2(h - 1));
    }
  }

  predicate IsCeil(n: int, p: int, w: int) { w * p - p < n <= w * p }

  lemma MulMono(a: int, b: int, p: int)
    requires a <= b && p >= 0
    ensures a * p <= b * p
  {
    assert (b - a) * p >= 0;
  }

  lemma CeilUnique(n: int, p: int, v: int, w: int)
    requires p > 0 && IsCeil(n, p, v) && IsCeil(n, p, w)
    ensures v == w
  {
    assert (w - 1) * p == w * p - p && (v - 1) * p == v * p - p;
    if v < w {
      MulMono(v, w - 1, p);
    } else if w < v {
      MulMono(w, v - 1, p);
    }
  }

  lemma {:induction false} WidthIsCeil(n: nat, h: nat)
    ensures IsCeil(n, Limbs.Pow2(h), Width(n, h))
  {
    if h > 0 {
      WidthIsCeil(n, h - 1);
      HalfCeil(n, Limbs.Pow2(h - 1), Width(n, h - 1));
    }
  }

  lemma HalfCeil(n: int, p: int, w: int)
    requires p > 0 && IsCeil(n, p, w)
    ensures IsCeil(n, 2 * p, (w + 1) / 2)
  {
    var k := (w + 1) / 2;
    MulMono(w, 2 * k, p);
    MulMono(2 * k - 1, w, p);
    assert (2 * k) * p == k * (2 * p) && (2 * k - 1) * p == (2 * k) * p - p;
  }

  /** The width by a shift is the width row by row. */
  lemma WidthIsShift(n: nat, h: nat)
    ensures (n + Limbs.Pow2(h) - 1) / Limbs.Pow2(h) == Width(n, h)
  {
    var p := Limbs.Pow2(h);
    var q := (n + p - 1) / p;
    assert q * p <= n + p - 1 < q * p + p;
    WidthIsCeil(n, h);
    CeilUnique(n, p, q, Width(n, h));
  }

  lemma JoinAssoc(a: Proof, b: Proof, c: Proof)
    ensures Join(Join(a, b), c) == Join(a, Join(b, c))
  {
    assert a.bits + b.bits + c.bits == a.bits + (b.bits + c.bits);
    assert a.hashes + b.hashes + c.hashes == a.hashes + (b.hashes + c.hashes);
  }

  lemma PushInner(q: Proof, left: Proof)
    ensures Join(Proof(q.bits + [true], q.hashes), left) == Join(q, Join(INNER, left))
  {
    JoinAssoc(q, INNER, left);
    assert q.hashes + [] == q.hashes;
  }

  /** Reading the children of a node whose flag was just read. */
  function Inner(H: PairHash, n: nat, h: nat, pos: nat, w: Walk): Visit
    requires h > 0
  {
    var left := Extract(H, n, h - 1, 2 * pos, w);
    if Node(n, h - 1, 2 * pos + 1) then Both(H, left.hash, Extract(H, n, h - 1, 2 * pos + 1, left.walk))
    else Visit(H(left.hash, left.hash), left.walk)
  }

  function Both(H: PairHash, left: Hash, right: Visit): Visit {
    Visit(H(left, right.hash), right.walk.(bad := right.walk.bad || right.hash == left))
  }

  lemma ExtractInner(H: PairHash, n: nat, h: nat, pos: nat, w: Walk)
    requires |w.bits| > 0 && h > 0 && w.bits[0]
    ensures Extract(H, n, h, pos, w) == Inner(H, n, h, pos, Flag(w))
  {
  }

  // ----- the object -----

  class PartialTree {
    const H: PairHash
    var nTransactions: nat
    var vBits: seq<bool>
    var vHash: seq<Hash>
    var fBad: bool

    method CalcTreeWidth(height: nat) returns (w: nat)
      ensures w == Width(nTransactions, height)
    {
      w := (nTransactions + Limbs.Pow2(height) - 1) / Limbs.Pow2(height);
      WidthIsShift(nTransactions, height);
    }

    method CalcHeight() returns (nHeight: nat)
      ensures nHeight == Height(nTransactions)
    {
      nHeight := 0;
      var width := CalcTreeWidth(0);
      while width > 1
        invariant width == Width(nTransactions, nHeight)
        invariant HeightFrom(nTransactions, nHeight) == Height(nTransactions)
        decreases width
      {
        nHeight := nHeight + 1;
        width := CalcTreeWidth(nHeight);
      }
    }

    constructor (H: PairHash, vTxid: seq<Hash>, vMatch: seq<bool>)
      requires 0 < |vTxid| == |vMatch|
      ensures this.H == H && nTransactions == |vTxid| && !fBad
      ensures Proof(vBits, vHash) == Built(H, vTxid, vMatch)
    {
      this.H := H;
      nTransactions := |vTxid|;
      vBits, vHash, fBad := [], [], false;
      new;
      var nHeight := CalcHeight();
      WidthPositive(nTransactions, nHeight);
      TraverseAndBuild(nHeight, 0, vTxid, vMatch);
    }

    method ParentOfMatch(height: nat, pos: nat, vMatch: seq<bool>) returns (fParentOfMatch: bool)
      requires |vMatch| == nTransactions
      ensures fParentOfMatch == Matched(vMatch, height, pos)
    {
      FirstIsShift(height, pos);
      FirstIsShift(height, pos + 1);
      fParentOfMatch := false;
      var p := pos * Limbs.Pow2(height);
      while p < (pos + 1) * Limbs.Pow2(height) && p < nTransactions
        invariant First(height, pos) <= p
        invariant fParentOfMatch <==> exists q :: First(height, pos) <= q < p && q < First(height, pos + 1) && q < |vMatch| && vMatch[q]
      {
        fParentOfMatch := fParentOfMatch || vMatch[p];
        p := p + 1;
      }
    }

    method TraverseAndBuild(height: nat, pos: nat, vTxid: seq<Hash>, vMatch: seq<bool>)
      requires |vTxid| == |vMatch| == nTransactions && Node(nTransactions, height, pos)
      modifies this`vBits, this`vHash
      ensures Proof(vBits, vHash) == Join(old(Proof(vBits, vHash)), Build(H, vTxid, vMatch, height, pos))
      decreases height, 1
    {
      var fParentOfMatch := ParentOfMatch(height, pos, vMatch);
      vBits := vBits + [fParentOfMatch];
      if height == 0 || !fParentOfMatch {
        vHash := vHash + [CalcHash(H, vTxid, height, pos)];
      } else {
        Children(nTransactions, height, pos);
        PushInner(old(Proof(vBits, vHash)), Build(H, vTxid, vMatch, height - 1, 2 * pos));
        BuildChildren(height, pos, vTxid, vMatch, old(Proof(vBits, vHash)));
      }
    }

    method BuildChildren(height: nat, pos: nat, vTxid: seq<Hash>, vMatch: seq<bool>, ghost q: Proof)
      requires |vTxid| == |vMatch| == nTransactions && height > 0 && Node(nTransactions, height, pos)
      requires Node(nTransactions, height - 1, 2 * pos) && Matched(vMatch, height, pos)
      requires var left := Build(H, vTxid, vMatch, height - 1, 2 * pos);
               Join(Proof(vBits, vHash), left) == Join(q, Join(INNER, left))
      modifies this`vBits, this`vHash
      ensures Proof(vBits, vHash) == Join(q, Build(H, vTxid, vMatch, height, pos))
      decreases height, 0
    {
      ghost var left := Build(H, vTxid, vMatch, height - 1, 2 * pos);
      TraverseAndBuild(height - 1, 2 * pos, vTxid, vMatch);
      var width := CalcTreeWidth(height - 1);
      if 2 * pos + 1 < width {
        ghost var right := Build(H, vTxid, vMatch, height - 1, 2 * pos + 1);
        BuildTwo(H, vTxid, vMatch, height, pos, left, right);
        JoinAssoc(q, Join(INNER, left), right);
        TraverseAndBuild(height - 1, 2 * pos + 1, vTxid, vMatch);
      } else {
        BuildOne(H, vTxid, vMatch, height, pos, left);
      }
    }

    ghost function WalkAt(nBitsUsed: nat, nHashUsed: nat, vMatch: seq<Hash>, vnIndex: seq<nat>): Walk
      requires nBitsUsed <= |vBits| && nHashUsed <= |vHash|
      reads this
    {
      Walk(vBits[nBitsUsed..], vHash[nHashUsed..], fBad, vMatch, vnIndex)
    }

    method TraverseAndExtract(height: nat, pos: nat, nBitsUsed: nat, nHashUsed: nat, vMatch: seq<Hash>, vnIndex: seq<nat>)
      returns (hash: Hash, nBitsUsed': nat, nHashUsed': nat, vMatch': seq<Hash>, vnIndex': seq<nat>)
      requires nBitsUsed <= |vBits| && nHashUsed <= |vHash|
      modifies this`fBad
      ensures nBitsUsed' <= |vBits| && nHashUsed' <= |vHash|
      ensures Visit(hash, WalkAt(nBitsUsed', nHashUsed', vMatch', vnIndex'))
           == Extract(H, nTransactions, height, pos, old(WalkAt(nBitsUsed, nHashUsed, vMatch, vnIndex)))
      decreases height, 1
    {
      nBitsUsed', nHashUsed', vMatch', vnIndex' := nBitsUsed, nHashUsed, vMatch, vnIndex;
      if nBitsUsed >= |vBits| {
        fBad := true;
        hash := ZERO;
        return;
      }
      ghost var w := WalkAt(nBitsUsed, nHashUsed, vMatch, vnIndex);
      var fParentOfMatch := vBits[nBitsUsed];
      nBitsUsed' := nBitsUsed + 1;
      assert vBits[nBitsUsed..][1..] == vBits[nBitsUsed'..];
      if height == 0 || !fParentOfMatch {
        if nHashUsed >= |vHash| {
          fBad := true;
          hash := ZERO;
          return;
        }
        hash := vHash[nHashUsed];
        nHashUsed' := nHashUsed + 1;
        assert vHash[nHashUsed..][1..] == vHash[nHashUsed'..];
        if height == 0 && fParentOfMatch {
          vMatch' := vMatch + [hash];
          vnIndex' := vnIndex + [pos];
        }
      } else {
        hash, nBitsUsed', nHashUsed', vMatch', vnIndex' :=
          ExtractChildren(height, pos, nBitsUsed', nHashUsed', vMatch', vnIndex');
        ExtractInner(H, nTransactions, height, pos, w);
      }
    }

    /** The part of the traversal that descends into the subtrees. */
    method ExtractChildren(height: nat, pos: nat, nBitsUsed: nat, nHashUsed: nat, vMatch: seq<Hash>, vnIndex: seq<nat>)
      returns (hash: Hash, nBitsUsed': nat, nHashUsed': nat, vMatch': seq<Hash>, vnIndex': seq<nat>)
      requires nBitsUsed <= |vBits| && nHashUsed <= |vHash| && height > 0
      modifies this`fBad
      ensures nBitsUsed' <= |vBits| && nHashUsed' <= |vHash|
      ensures Visit(hash, WalkAt(nBitsUsed', nHashUsed', vMatch', vnIndex'))
           == Inner(H, nTransactions, height, pos, old(WalkAt(nBitsUsed, nHashUsed, vMatch, vnIndex)))
      decreases height, 0
    {
      hash, nBitsUsed', nHashUsed', vMatch', vnIndex' :=
        TraverseAndExtract(height - 1, 2 * pos, nBitsUsed, nHashUsed, vMatch, vnIndex);
      var width := CalcTreeWidth(height - 1);
      if 2 * pos + 1 < width {
        hash, nBitsUsed', nHashUsed', vMatch', vnIndex' :=
          ExtractRight(height - 1, 2 * pos + 1, hash, nBitsUsed', nHashUsed', vMatch', vnIndex');
      } else {
        hash := H(hash, hash);
      }
    }

    /** Reading the right child, which must not be identical to the left one. */
    method ExtractRight(height: nat, pos: nat, left: Hash, nBitsUsed: nat, nHashUsed: nat, vMatch: seq<Hash>, vnIndex: seq<nat>)
      returns (hash: Hash, nBitsUsed': nat, nHashUsed': nat, vMatch': seq<Hash>, vnIndex': seq<nat>)
      requires nBitsUsed <= |vBits| && nHashUsed <= |vHash|
      modifies this`fBad
      ensures nBitsUsed' <= |vBits| && nHashUsed' <= |vHash|
      ensures Visit(hash, WalkAt(nBitsUsed', nHashUsed', vMatch', vnIndex'))
           == Both(H, left, Extract(H, nTransactions, height, pos, old(WalkAt(nBitsUsed, nHashUsed, vMatch, vnIndex))))
      decreases height, 2
    {
      var right;
      right, nBitsUsed', nHashUsed', vMatch', vnIndex' :=
        TraverseAndExtract(height, pos, nBitsUsed, nHashUsed, vMatch, vnIndex);
      if right == left {
        fBad := true;
      }
      hash := H(left, right);
    }

    /** The caller's positions are appended to; its matches are replaced. */
    method ExtractMatches(vnIndex: seq<nat>) returns (root: Hash, vMatch: seq<Hash>, vnIndex': seq<nat>)
      modifies this`fBad
      ensures var v := Extraction(H, nTransactions, Proof(vBits, vHash), old(fBad), vnIndex);
              root == v.hash && vMatch == v.walk.matches && vnIndex' == v.walk.indexes && fBad == v.walk.bad
    {
      vMatch, vnIndex' := [], vnIndex;
      if nTransactions == 0 {
        return ZERO, vMatch, vnIndex';
      }
      if nTransactions > 4000000 / 240 {
        return ZERO, vMatch, vnIndex';
      }
      if |vHash| > nTransactions {
        return ZERO, vMatch, vnIndex';
      }
      if |vBits| < |vHash| {
        return ZERO, vMatch, vnIndex';
      }
      var nHeight := CalcHeight();
      var nBitsUsed, nHashUsed;
      assert vBits[0..] == vBits && vHash[0..] == vHash;
      root, nBitsUsed, nHashUsed, vMatch, vnIndex' := TraverseAndExtract(nHeight, 0, 0, 0, vMatch, vnIndex');
      if fBad {
        return ZERO, vMatch, vnIndex';
      }
      if (nBitsUsed + 7) / 8 != (|vBits| + 7) / 8 {
        return ZERO, vMatch, vnIndex';
      }
      if nHashUsed != |vHash| {
        return ZERO, vMatch, vnIndex';
      }
    }

    method Serialize() returns (n: nat, hashes: seq<Hash>, bytes: seq<bv8>)
      ensures n == nTransactions && hashes == vHash && IsPacked(bytes, vBits)
    {
      n, hashes := nTransactions, vHash;
      bytes := BitsToBytes(vBits);
    }

    method Unserialize(n: nat, hashes: seq<Hash>, bytes: seq<bv8>)
      modifies this
      ensures nTransactions == n && vHash == hashes && vBits == Unpacked(bytes) && !fBad
    {
      nTransactions, vHash := n, hashes;
      vBits := BytesToBits(bytes);
      fBad := false;
    }
  }
}
