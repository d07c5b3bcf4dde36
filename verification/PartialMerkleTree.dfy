/**
 Partial Merkle trees: a list of transaction ids and a mask become flag bits and hashes in
 depth-first order, from which the matched ids and the root are extracted again.

 The pair hash is a parameter. Node positions and widths are unbounded; a tree within the size
 limit that extraction enforces stays far below 2^32.
 */
module PartialMerkleTree {

  datatype Hash = Hash(value: nat)

  type PairHash = (Hash, Hash) -> Hash

  const ZERO := Hash(0)
  const MAX_TRANSACTIONS := 4000000 / 240

  // ----- the shape of the tree -----

  /** The number of nodes in the row at a height. */
  function Width(n: nat, h: nat): nat { if h == 0 then n else (Width(n, h - 1) + 1) / 2 }

  /** The first transaction below a node. */
  function First(h: nat, pos: nat): nat { if h == 0 then pos else First(h - 1, 2 * pos) }

  predicate Node(n: nat, h: nat, pos: nat) { pos < Width(n, h) }

  /** A node has a left child, and a right child unless the row below ends there. */
  lemma Children(n: nat, h: nat, pos: nat)
    requires h > 0 && Node(n, h, pos)
    ensures Node(n, h - 1, 2 * pos)
    ensures !Node(n, h - 1, 2 * pos + 1) <==> pos == Width(n, h) - 1 && Width(n, h - 1) % 2 == 1
  {
  }

  function HeightFrom(n: nat, h: nat): nat
    decreases Width(n, h)
  {
    if Width(n, h) > 1 then HeightFrom(n, h + 1) else h
  }

  function Height(n: nat): nat { HeightFrom(n, 0) }

  lemma {:induction false} WidthPositive(n: nat, h: nat)
    requires n > 0
    ensures Node(n, h, 0)
  {
    if h > 0 {
      WidthPositive(n, h - 1);
    }
  }

  lemma {:induction false} FirstMono(h: nat, a: nat, b: nat)
    requires a <= b
    ensures First(h, a) <= First(h, b)
  {
    if h > 0 {
      FirstMono(h - 1, 2 * a, 2 * b);
    }
  }

  /** Beyond the row there are no transactions. */
  lemma {:induction false} BeyondRow(n: nat, h: nat, pos: nat)
    requires !Node(n, h, pos)
    ensures n <= First(h, pos)
  {
    if h > 0 {
      BeyondRow(n, h - 1, 2 * pos);
    }
  }

  // ----- the full tree -----

  function CalcHash(H: PairHash, txids: seq<Hash>, h: nat, pos: nat): Hash
    requires Node(|txids|, h, pos)
    decreases 3 * h
  {
    if h == 0 then
      txids[pos]
    else
      Children(|txids|, h, pos);
      H(LeftHash(H, txids, h, pos), RightHash(H, txids, h, pos))
  }

  function LeftHash(H: PairHash, txids: seq<Hash>, h: nat, pos: nat): Hash
    requires h > 0 && Node(|txids|, h, pos)
    decreases 3 * h - 2
  {
    Children(|txids|, h, pos);
    CalcHash(H, txids, h - 1, 2 * pos)
  }

  /** The left hash is used twice where there is no right child. */
  function RightHash(H: PairHash, txids: seq<Hash>, h: nat, pos: nat): Hash
    requires h > 0 && Node(|txids|, h, pos)
    decreases 3 * h - 1
  {
    if Node(|txids|, h - 1, 2 * pos + 1) then CalcHash(H, txids, h - 1, 2 * pos + 1) else LeftHash(H, txids, h, pos)
  }

  function Root(H: PairHash, txids: seq<Hash>): Hash
    requires |txids| > 0
  {
    WidthPositive(|txids|, Height(|txids|));
    CalcHash(H, txids, Height(|txids|), 0)
  }

  // ----- building -----

  predicate AnyMatch(mask: seq<bool>, lo: nat, hi: nat) {
    exists p :: lo <= p < hi && p < |mask| && mask[p]
  }

  /** Whether the node is an ancestor of a matched transaction. */
  predicate Matched(mask: seq<bool>, h: nat, pos: nat) { AnyMatch(mask, First(h, pos), First(h, pos + 1)) }

  datatype Proof = Proof(bits: seq<bool>, hashes: seq<Hash>)

  function Join(a: Proof, b: Proof): Proof { Proof(a.bits + b.bits, a.hashes + b.hashes) }

  function Build(H: PairHash, txids: seq<Hash>, mask: seq<bool>, h: nat, pos: nat): (r: Proof)
    requires Node(|txids|, h, pos)
    decreases h
  {
    if h == 0 || !Matched(mask, h, pos) then
      Proof([Matched(mask, h, pos)], [CalcHash(H, txids, h, pos)])
    else
      Children(|txids|, h, pos);
      var left := Join(Proof([true], []), Build(H, txids, mask, h - 1, 2 * pos));
      if Node(|txids|, h - 1, 2 * pos + 1) then Join(left, Build(H, txids, mask, h - 1, 2 * pos + 1)) else left
  }

  // ----- extracting -----

  /** The bits and hashes still to be read, the failure flag and what was found so far. */
  datatype Walk = Walk(bits: seq<bool>, hashes: seq<Hash>, bad: bool, matches: seq<Hash>, indexes: seq<nat>)

  datatype Visit = Visit(hash: Hash, walk: Walk)

  function Failed(w: Walk): Visit { Visit(ZERO, w.(bad := true)) }

  function Flag(w: Walk): Walk
    requires |w.bits| > 0
  {
    w.(bits := w.bits[1..])
  }

  function TakeHash(w: Walk, matched: bool, pos: nat): Visit
    requires |w.hashes| > 0
  {
    var hash := w.hashes[0];
    var used := w.(hashes := w.hashes[1..]);
    Visit(hash, if matched then used.(matches := w.matches + [hash], indexes := w.indexes + [pos]) else used)
  }

  /** Reading a subtree. A failure is recorded and reading goes on. */
  function Extract(H: PairHash, n: nat, h: nat, pos: nat, w: Walk): Visit
    decreases h
  {
    if |w.bits| == 0 then Failed(w)
    else if h == 0 || !w.bits[0] then
      if |w.hashes| == 0 then Failed(Flag(w)) else TakeHash(Flag(w), h == 0 && w.bits[0], pos)
    else
      var left := Extract(H, n, h - 1, 2 * pos, Flag(w));
      if Node(n, h - 1, 2 * pos + 1) then
        var right := Extract(H, n, h - 1, 2 * pos + 1, left.walk);
        Visit(H(left.hash, right.hash), right.walk.(bad := right.walk.bad || right.hash == left.hash))
      else Visit(H(left.hash, left.hash), left.walk)
  }

  // ----- soundness -----

  datatype Clash = NoClash | Clash(a: Hash, b: Hash, c: Hash, d: Hash)

  /** Two different pairs with the same hash. */
  predicate Genuine(H: PairHash, x: Clash) {
    x.Clash? && (x.a, x.b) != (x.c, x.d) && H(x.a, x.b) == H(x.c, x.d)
  }

  /** The first node, from the top, where the pair that was read is not the pair of the tree. */
  function FindClash(H: PairHash, txids: seq<Hash>, h: nat, pos: nat, w: Walk): Clash
    requires Node(|txids|, h, pos)
    decreases h
  {
    if |w.bits| == 0 || h == 0 || !w.bits[0] then NoClash
    else
      Children(|txids|, h, pos);
      var left := Extract(H, |txids|, h - 1, 2 * pos, Flag(w));
      var two := Node(|txids|, h - 1, 2 * pos + 1);
      var right := if two then Extract(H, |txids|, h - 1, 2 * pos + 1, left.walk) else left;
      if (left.hash, right.hash) != (LeftHash(H, txids, h, pos), RightHash(H, txids, h, pos)) then
        Clash(left.hash, right.hash, LeftHash(H, txids, h, pos), RightHash(H, txids, h, pos))
      else
        var below := FindClash(H, txids, h - 1, 2 * pos, Flag(w));
        if below.NoClash? && two then FindClash(H, txids, h - 1, 2 * pos + 1, left.walk) else below
  }

  /** What was found is in the list, at the given positions. */
  ghost predicate Right(txids: seq<Hash>, w: Walk) {
    && |w.matches| == |w.indexes|
    && forall i :: 0 <= i < |w.matches| ==> w.indexes[i] < |txids| && w.matches[i] == txids[w.indexes[i]]
  }

  /** Reading any bits and hashes at all: if the hash of a subtree comes out right, then so does
      everything that was found in it, or the two trees hold a genuine collision. */
  lemma {:induction false} ExtractSound(H: PairHash, txids: seq<Hash>, h: nat, pos: nat, w: Walk)
    requires Node(|txids|, h, pos) && Right(txids, w)
    requires !Extract(H, |txids|, h, pos, w).walk.bad
    requires Extract(H, |txids|, h, pos, w).hash == CalcHash(H, txids, h, pos)
    ensures var x := FindClash(H, txids, h, pos, w);
            if x.NoClash? then Right(txids, Extract(H, |txids|, h, pos, w).walk) else Genuine(H, x)
    decreases h
  {
    if |w.bits| > 0 && h > 0 && w.bits[0] {
      Children(|txids|, h, pos);
      var left := Extract(H, |txids|, h - 1, 2 * pos, Flag(w));
      StaysBad(H, |txids|, h - 1, 2 * pos + 1, left.walk);
      var two := Node(|txids|, h - 1, 2 * pos + 1);
      var right := if two then Extract(H, |txids|, h - 1, 2 * pos + 1, left.walk) else left;
      if (left.hash, right.hash) == (LeftHash(H, txids, h, pos), RightHash(H, txids, h, pos)) {
        ExtractSound(H, txids, h - 1, 2 * pos, Flag(w));
        if two && FindClash(H, txids, h - 1, 2 * pos, Flag(w)).NoClash? {
          ExtractSound(H, txids, h - 1, 2 * pos + 1, left.walk);
        }
      }
    }
  }

  lemma {:induction false} StaysBad(H: PairHash, n: nat, h: nat, pos: nat, w: Walk)
    ensures w.bad ==> Extract(H, n, h, pos, w).walk.bad
    decreases h
  {
    if |w.bits| > 0 && h > 0 && w.bits[0] {
      var left := Extract(H, n, h - 1, 2 * pos, Flag(w));
      StaysBad(H, n, h - 1, 2 * pos, Flag(w));
      StaysBad(H, n, h - 1, 2 * pos + 1, left.walk);
    }
  }

  // ----- completeness -----

  /** The matched transactions of a range, in order. */
  function MatchesIn(mask: seq<bool>, lo: nat, hi: nat): seq<nat>
    decreases hi
  {
    if hi <= lo then [] else MatchesIn(mask, lo, hi - 1) + One(mask, hi - 1)
  }

  function One(mask: seq<bool>, p: nat): seq<nat> { if p < |mask| && mask[p] then [p] else [] }

  /** Exactly the matched positions of the range. */
  lemma {:induction false} MatchesAre(mask: seq<bool>, lo: nat, hi: nat, p: nat)
    ensures p in MatchesIn(mask, lo, hi) <==> lo <= p < hi && p < |mask| && mask[p]
    decreases hi
  {
    if lo < hi {
      MatchesAre(mask, lo, hi - 1, p);
    }
  }

  /** In increasing order. */
  lemma {:induction false} MatchesIncrease(mask: seq<bool>, lo: nat, hi: nat, i: nat, j: nat)
    requires i < j < |MatchesIn(mask, lo, hi)|
    ensures MatchesIn(mask, lo, hi)[i] < MatchesIn(mask, lo, hi)[j]
    decreases hi
  {
    var before := MatchesIn(mask, lo, hi - 1);
    assert MatchesIn(mask, lo, hi) == before + One(mask, hi - 1);
    if j < |before| {
      MatchesIncrease(mask, lo, hi - 1, i, j);
    } else {
      assert before[i] in before;
      MatchesAre(mask, lo, hi - 1, before[i]);
    }
  }

  lemma {:induction false} MatchesSplit(mask: seq<bool>, lo: nat, mid: nat, hi: nat)
    requires lo <= mid <= hi
    ensures MatchesIn(mask, lo, hi) == MatchesIn(mask, lo, mid) + MatchesIn(mask, mid, hi)
    decreases hi
  {
    if mid < hi {
      MatchesSplit(mask, lo, mid, hi - 1);
    }
  }

  lemma {:induction false} NoMatches(mask: seq<bool>, lo: nat, hi: nat)
    requires !AnyMatch(mask, lo, hi)
    ensures MatchesIn(mask, lo, hi) == []
    decreases hi
  {
    if lo < hi {
      NoMatches(mask, lo, hi - 1);
    }
  }

  function Pick(txids: seq<Hash>, at: seq<nat>): (r: seq<Hash>)
    ensures |r| == |at|
  {
    seq(|at|, i requires 0 <= i < |at| => if at[i] < |txids| then txids[at[i]] else ZERO)
  }

  lemma PickJoin(txids: seq<Hash>, a: seq<nat>, b: seq<nat>)
    ensures Pick(txids, a + b) == Pick(txids, a) + Pick(txids, b)
  {
  }

  ghost predicate Apart(H: PairHash, txids: seq<Hash>, h: nat, a: nat, b: nat) {
    a < b && Node(|txids|, h, a) && Node(|txids|, h, b) ==> CalcHash(H, txids, h, a) != CalcHash(H, txids, h, b)
  }

  /** No two nodes in a row have the same hash. */
  ghost predicate Distinguished(H: PairHash, txids: seq<Hash>) {
    forall h: nat, a: nat, b: nat {:trigger Apart(H, txids, h, a, b)} :: Apart(H, txids, h, a, b)
  }

  /** Below two nodes with the same hash, down their left sides, lie two different pairs with the same hash. */
  function TwinClash(H: PairHash, txids: seq<Hash>, h: nat, a: nat, b: nat): Clash
    requires Node(|txids|, h, a) && Node(|txids|, h, b)
    decreases h
  {
    if h == 0 then NoClash
    else
      Children(|txids|, h, a);
      Children(|txids|, h, b);
      var x := Clash(LeftHash(H, txids, h, a), RightHash(H, txids, h, a),
                     LeftHash(H, txids, h, b), RightHash(H, txids, h, b));
      if (x.a, x.b) != (x.c, x.d) then x else TwinClash(H, txids, h - 1, 2 * a, 2 * b)
  }

  predicate DistinctIds(txids: seq<Hash>) {
    forall i, j :: 0 <= i < j < |txids| ==> txids[i] != txids[j]
  }

  lemma {:induction false} TwinsClash(H: PairHash, txids: seq<Hash>, h: nat, a: nat, b: nat)
    requires DistinctIds(txids) && a < b && Node(|txids|, h, a) && Node(|txids|, h, b)
    requires CalcHash(H, txids, h, a) == CalcHash(H, txids, h, b)
    ensures Genuine(H, TwinClash(H, txids, h, a, b))
    decreases h
  {
    if h > 0 {
      Children(|txids|, h, a);
      Children(|txids|, h, b);
      if LeftHash(H, txids, h, a) == LeftHash(H, txids, h, b) {
        TwinsClash(H, txids, h - 1, 2 * a, 2 * b);
      }
    }
  }

  ghost predicate Injective(H: PairHash) {
    forall a, b, c, d :: H(a, b) == H(c, d) ==> a == c && b == d
  }

  lemma InjectiveDistinguishes(H: PairHash, txids: seq<Hash>)
    requires Injective(H) && DistinctIds(txids)
    ensures Distinguished(H, txids)
  {
    forall h: nat, a: nat, b: nat ensures Apart(H, txids, h, a, b) {
      if !Apart(H, txids, h, a, b) {
        TwinsClash(H, txids, h, a, b);
      }
    }
  }

  function Found(mask: seq<bool>, h: nat, pos: nat): seq<nat> { MatchesIn(mask, First(h, pos), First(h, pos + 1)) }

  lemma FoundChildren(mask: seq<bool>, h: nat, pos: nat)
    requires h > 0
    ensures Found(mask, h, pos) == Found(mask, h - 1, 2 * pos) + Found(mask, h - 1, 2 * pos + 1)
  {
    FirstMono(h - 1, 2 * pos, 2 * pos + 1);
    FirstMono(h - 1, 2 * pos + 1, 2 * pos + 2);
    MatchesSplit(mask, First(h, pos), First(h - 1, 2 * pos + 1), First(h, pos + 1));
  }

  /** `w` with the bits and hashes of `q` put in front. */
  function Before(q: Proof, w: Walk): Walk { w.(bits := q.bits + w.bits, hashes := q.hashes + w.hashes) }

  /** `w` after the transactions at `at` were found. */
  function Past(txids: seq<Hash>, w: Walk, at: seq<nat>): Walk {
    w.(matches := w.matches + Pick(txids, at), indexes := w.indexes + at)
  }

  lemma PastJoin(txids: seq<Hash>, w: Walk, x: seq<nat>, y: seq<nat>)
    ensures Past(txids, Past(txids, w, x), y) == Past(txids, w, x + y)
  {
    PickJoin(txids, x, y);
    assert w.matches + Pick(txids, x) + Pick(txids, y) == w.matches + (Pick(txids, x) + Pick(txids, y));
    assert w.indexes + x + y == w.indexes + (x + y);
  }

  lemma BeforeJoin(a: Proof, b: Proof, w: Walk)
    ensures Before(Join(a, b), w) == Before(a, Before(b, w))
  {
    assert a.bits + b.bits + w.bits == a.bits + (b.bits + w.bits);
    assert a.hashes + b.hashes + w.hashes == a.hashes + (b.hashes + w.hashes);
  }

  const INNER := Proof([true], [])

  lemma BeforeInner(w: Walk)
    ensures var v := Before(INNER, w); |v.bits| > 0 && v.bits[0] && Flag(v) == w
  {
    var v := Before(INNER, w);
    assert v.bits[1..] == w.bits && [] + w.hashes == w.hashes;
  }

  /** Reading back what was built gives the hash of the node and its matched transactions, in
      order, and leaves what comes after. */
  lemma {:induction false} ExtractBuilt(H: PairHash, txids: seq<Hash>, mask: seq<bool>, h: nat, pos: nat, w: Walk)
    requires |mask| == |txids| && Node(|txids|, h, pos) && Distinguished(H, txids) && !w.bad
    ensures ReadsAs(H, txids, h, pos, Build(H, txids, mask, h, pos), w, CalcHash(H, txids, h, pos), Found(mask, h, pos))
    decreases h, 2
  {
    if h == 0 || !Matched(mask, h, pos) {
      ExtractStub(H, txids, mask, h, pos, w);
    } else {
      Children(|txids|, h, pos);
      var left, a := Build(H, txids, mask, h - 1, 2 * pos), CalcHash(H, txids, h - 1, 2 * pos);
      if Node(|txids|, h - 1, 2 * pos + 1) {
        var right, b := Build(H, txids, mask, h - 1, 2 * pos + 1), CalcHash(H, txids, h - 1, 2 * pos + 1);
        ExtractTwo(H, txids, mask, h, pos, w, left, right, a, b);
        BuildTwo(H, txids, mask, h, pos, left, right);
      } else {
        ExtractOne(H, txids, mask, h, pos, w, left, a);
        BuildOne(H, txids, mask, h, pos, left);
      }
    }
  }

  lemma {:induction false} ExtractTwo(H: PairHash, txids: seq<Hash>, mask: seq<bool>, h: nat, pos: nat, w: Walk,
                                      left: Proof, right: Proof, a: Hash, b: Hash)
    requires |mask| == |txids| && Distinguished(H, txids) && !w.bad && h > 0
    requires Node(|txids|, h - 1, 2 * pos) && Node(|txids|, h - 1, 2 * pos + 1)
    requires left == Build(H, txids, mask, h - 1, 2 * pos) && right == Build(H, txids, mask, h - 1, 2 * pos + 1)
    requires a == CalcHash(H, txids, h - 1, 2 * pos) && b == CalcHash(H, txids, h - 1, 2 * pos + 1)
    ensures ReadsAs(H, txids, h, pos, Join(Join(INNER, left), right), w, H(a, b), Found(mask, h, pos))
    decreases h, 1
  {
    var x, y := Found(mask, h - 1, 2 * pos), Found(mask, h - 1, 2 * pos + 1);
    assert a != b by {
      assert Apart(H, txids, h - 1, 2 * pos, 2 * pos + 1);
    }
    ExtractBuilt(H, txids, mask, h - 1, 2 * pos, Before(right, w));
    assert ReadsAs(H, txids, h - 1, 2 * pos, left, Before(right, w), a, x);
    ExtractBuilt(H, txids, mask, h - 1, 2 * pos + 1, Past(txids, w, x));
    assert ReadsAs(H, txids, h - 1, 2 * pos + 1, right, Past(txids, w, x), b, y);
    ReadTwo(H, txids, h, pos, w, left, right, x, y, a, b);
    FoundChildren(mask, h, pos);
  }

  lemma {:induction false} ExtractOne(H: PairHash, txids: seq<Hash>, mask: seq<bool>, h: nat, pos: nat, w: Walk,
                                      left: Proof, a: Hash)
    requires |mask| == |txids| && Distinguished(H, txids) && !w.bad && h > 0
    requires Node(|txids|, h - 1, 2 * pos) && !Node(|txids|, h - 1, 2 * pos + 1)
    requires left == Build(H, txids, mask, h - 1, 2 * pos) && a == CalcHash(H, txids, h - 1, 2 * pos)
    ensures ReadsAs(H, txids, h, pos, Join(INNER, left), w, H(a, a), Found(mask, h, pos))
    decreases h, 1
  {
    ExtractBuilt(H, txids, mask, h - 1, 2 * pos, w);
    ReadOne(H, txids, h, pos, w, left, Found(mask, h - 1, 2 * pos), a);
    FoundLeft(|txids|, mask, h, pos);
  }

  /** With `q` in front, reading a node yields `hash` and finds the transactions at `at`. */
  ghost predicate ReadsAs(H: PairHash, txids: seq<Hash>, h: nat, pos: nat, q: Proof, w: Walk, hash: Hash, at: seq<nat>) {
    Extract(H, |txids|, h, pos, Before(q, w)) == Visit(hash, Past(txids, w, at))
  }

  lemma FoundLeft(n: nat, mask: seq<bool>, h: nat, pos: nat)
    requires |mask| == n && h > 0 && !Node(n, h - 1, 2 * pos + 1)
    ensures Found(mask, h, pos) == Found(mask, h - 1, 2 * pos)
  {
    FoundChildren(mask, h, pos);
    BeyondRow(n, h - 1, 2 * pos + 1);
    NoMatches(mask, First(h - 1, 2 * pos + 1), First(h - 1, 2 * pos + 2));
  }

  lemma BuildTwo(H: PairHash, txids: seq<Hash>, mask: seq<bool>, h: nat, pos: nat, left: Proof, right: Proof)
    requires h > 0 && Node(|txids|, h, pos) && Matched(mask, h, pos)
    requires Node(|txids|, h - 1, 2 * pos) && Node(|txids|, h - 1, 2 * pos + 1)
    requires left == Build(H, txids, mask, h - 1, 2 * pos) && right == Build(H, txids, mask, h - 1, 2 * pos + 1)
    ensures Build(H, txids, mask, h, pos) == Join(Join(INNER, left), right)
    ensures CalcHash(H, txids, h, pos) == H(CalcHash(H, txids, h - 1, 2 * pos), CalcHash(H, txids, h - 1, 2 * pos + 1))
  {
  }

  lemma BuildOne(H: PairHash, txids: seq<Hash>, mask: seq<bool>, h: nat, pos: nat, left: Proof)
    requires h > 0 && Node(|txids|, h, pos) && Matched(mask, h, pos)
    requires Node(|txids|, h - 1, 2 * pos) && !Node(|txids|, h - 1, 2 * pos + 1)
    requires left == Build(H, txids, mask, h - 1, 2 * pos)
    ensures Build(H, txids, mask, h, pos) == Join(INNER, left)
    ensures CalcHash(H, txids, h, pos) == H(CalcHash(H, txids, h - 1, 2 * pos), CalcHash(H, txids, h - 1, 2 * pos))
  {
  }

  lemma ReadTwo(H: PairHash, txids: seq<Hash>, h: nat, pos: nat, w: Walk,
                left: Proof, right: Proof, x: seq<nat>, y: seq<nat>, a: Hash, b: Hash)
    requires h > 0 && Node(|txids|, h - 1, 2 * pos + 1) && !w.bad && a != b
    requires ReadsAs(H, txids, h - 1, 2 * pos, left, Before(right, w), a, x)
    requires ReadsAs(H, txids, h - 1, 2 * pos + 1, right, Past(txids, w, x), b, y)
    ensures ReadsAs(H, txids, h, pos, Join(Join(INNER, left), right), w, H(a, b), x + y)
  {
    BeforeJoin(Join(INNER, left), right, w);
    BeforeJoin(INNER, left, Before(right, w));
    BeforeInner(Before(left, Before(right, w)));
    PastJoin(txids, w, x, y);
  }

  lemma ReadOne(H: PairHash, txids: seq<Hash>, h: nat, pos: nat, w: Walk, left: Proof, x: seq<nat>, a: Hash)
    requires h > 0 && !Node(|txids|, h - 1, 2 * pos + 1)
    requires ReadsAs(H, txids, h - 1, 2 * pos, left, w, a, x)
    ensures ReadsAs(H, txids, h, pos, Join(INNER, left), w, H(a, a), x)
  {
    BeforeJoin(INNER, left, w);
    BeforeInner(Before(left, w));
  }

  lemma ExtractStub(H: PairHash, txids: seq<Hash>, mask: seq<bool>, h: nat, pos: nat, w: Walk)
    requires |mask| == |txids| && Node(|txids|, h, pos) && (h == 0 || !Matched(mask, h, pos))
    ensures ReadsAs(H, txids, h, pos, Build(H, txids, mask, h, pos), w, CalcHash(H, txids, h, pos), Found(mask, h, pos))
  {
    var v := Before(Build(H, txids, mask, h, pos), w);
    assert v.bits[1..] == w.bits && v.hashes[1..] == w.hashes;
    if !Matched(mask, h, pos) {
      NoMatches(mask, First(h, pos), First(h, pos + 1));
      assert w.matches + [] == w.matches && w.indexes + [] == w.indexes;
    } else {
      assert MatchesIn(mask, pos, pos) == [];
      assert Found(mask, h, pos) == [pos];
    }
  }

  // ----- how many bits and hashes -----

  lemma {:induction false} NodeIsInList(n: nat, h: nat, pos: nat)
    requires Node(n, h, pos)
    ensures First(h, pos) < n
  {
    if h > 0 {
      NodeIsInList(n, h - 1, 2 * pos);
    }
  }

  /** The number of transactions below a node. */
  function Leaves(n: nat, h: nat, pos: nat): int {
    (if First(h, pos + 1) < n then First(h, pos + 1) else n) - First(h, pos)
  }

  /** The nodes with a single child that are descended into. */
  function Singles(n: nat, mask: seq<bool>, h: nat, pos: nat): nat {
    if h == 0 || !Matched(mask, h, pos) then 0
    else Singles(n, mask, h - 1, 2 * pos) + if Node(n, h - 1, 2 * pos + 1) then Singles(n, mask, h - 1, 2 * pos + 1) else 1
  }

  /** There is at most a hash for every transaction and at least a bit for every hash, and the
      number of bits is exact. */
  lemma {:induction false} BuildSizes(H: PairHash, txids: seq<Hash>, mask: seq<bool>, h: nat, pos: nat)
    requires Node(|txids|, h, pos)
    ensures var q := Build(H, txids, mask, h, pos);
            && 1 <= |q.hashes| <= Leaves(|txids|, h, pos)
            && |q.bits| == 2 * |q.hashes| - 1 + Singles(|txids|, mask, h, pos)
    decreases h
  {
    var n := |txids|;
    if h == 0 || !Matched(mask, h, pos) {
      NodeIsInList(n, h, pos);
      FirstIncreases(h, pos);
    } else {
      Children(n, h, pos);
      var left := Build(H, txids, mask, h - 1, 2 * pos);
      BuildSizes(H, txids, mask, h - 1, 2 * pos);
      LeavesBelow(n, h, pos);
      if Node(n, h - 1, 2 * pos + 1) {
        BuildSizes(H, txids, mask, h - 1, 2 * pos + 1);
        BuildTwo(H, txids, mask, h, pos, left, Build(H, txids, mask, h - 1, 2 * pos + 1));
      } else {
        BuildOne(H, txids, mask, h, pos, left);
      }
    }
  }

  lemma LeavesBelow(n: nat, h: nat, pos: nat)
    requires h > 0
    ensures Node(n, h - 1, 2 * pos + 1) ==> Leaves(n, h, pos) == Leaves(n, h - 1, 2 * pos) + Leaves(n, h - 1, 2 * pos + 1)
    ensures !Node(n, h - 1, 2 * pos + 1) ==> Leaves(n, h, pos) == Leaves(n, h - 1, 2 * pos)
  {
    if Node(n, h - 1, 2 * pos + 1) {
      NodeIsInList(n, h - 1, 2 * pos + 1);
    } else {
      BeyondRow(n, h - 1, 2 * pos + 1);
      FirstMono(h - 1, 2 * pos + 1, 2 * pos + 2);
    }
  }

  lemma {:induction false} FirstIncreases(h: nat, pos: nat)
    ensures First(h, pos) < First(h, pos + 1)
  {
    if h > 0 {
      FirstIncreases(h - 1, 2 * pos);
      FirstIncreases(h - 1, 2 * pos + 1);
    }
  }

  function Last(n: nat, h: nat): nat
    requires n > 0
  {
    WidthPositive(n, h);
    Width(n, h) - 1
  }

  /** No transaction is matched below a node that has a single child. */
  predicate NoSingles(n: nat, mask: seq<bool>, h: nat)
    requires n > 0
  {
    forall k :: 1 <= k <= h && Width(n, k - 1) % 2 == 1 ==> !Matched(mask, k, Last(n, k))
  }

  lemma {:induction false} InnerSingles(n: nat, mask: seq<bool>, h: nat, pos: nat)
    requires n > 0 && pos < Last(n, h)
    ensures Singles(n, mask, h, pos) == 0
  {
    if h > 0 {
      WidthPositive(n, h - 1);
      InnerSingles(n, mask, h - 1, 2 * pos);
      InnerSingles(n, mask, h - 1, 2 * pos + 1);
    }
  }

  lemma LastNested(n: nat, mask: seq<bool>, h: nat)
    requires n > 0 && Matched(mask, h, Last(n, h))
    ensures Matched(mask, h + 1, Last(n, h + 1))
  {
    var a, b := Last(n, h), Last(n, h + 1);
    FirstMono(h, 2 * b, a);
    FirstMono(h, a + 1, 2 * b + 2);
    var p :| First(h, a) <= p < First(h, a + 1) && p < |mask| && mask[p];
    assert First(h + 1, b) <= p < First(h + 1, b + 1);
  }

  lemma {:induction false} UnmatchedBelow(n: nat, mask: seq<bool>, h: nat, k: nat)
    requires n > 0 && k <= h && !Matched(mask, h, Last(n, h))
    ensures !Matched(mask, k, Last(n, k))
    decreases h - k
  {
    if k < h {
      UnmatchedBelow(n, mask, h, k + 1);
      if Matched(mask, k, Last(n, k)) {
        LastNested(n, mask, k);
      }
    }
  }

  /** Only the last node of a row can have a single child. */
  lemma {:induction false} LastSingles(n: nat, mask: seq<bool>, h: nat)
    requires n > 0
    ensures Singles(n, mask, h, Last(n, h)) == 0 <==> NoSingles(n, mask, h)
  {
    if h > 0 {
      var last := Last(n, h);
      LastSingles(n, mask, h - 1);
      if !Matched(mask, h, last) {
        forall k | 1 <= k <= h && Width(n, k - 1) % 2 == 1 ensures !Matched(mask, k, Last(n, k)) {
          UnmatchedBelow(n, mask, h, k);
        }
      } else {
        Children(n, h, last);
        if Width(n, h - 1) % 2 == 0 {
          InnerSingles(n, mask, h - 1, 2 * last);
          assert 2 * last + 1 == Last(n, h - 1);
        }
      }
    }
  }

  lemma {:induction false} HeightIsOne(n: nat, h: nat)
    requires n > 0
    ensures Width(n, HeightFrom(n, h)) == 1
    decreases Width(n, h)
  {
    WidthPositive(n, h);
    if Width(n, h) > 1 {
      HeightIsOne(n, h + 1);
    }
  }

  /** At most 2N-1 bits for N hashes, exactly when nothing is matched below a node with a single child. */
  lemma FlagBits(H: PairHash, txids: seq<Hash>, mask: seq<bool>)
    requires |txids| > 0 && Node(|txids|, Height(|txids|), 0)
    ensures var q := Build(H, txids, mask, Height(|txids|), 0);
            |q.bits| <= 2 * |q.hashes| - 1 <==> NoSingles(|txids|, mask, Height(|txids|))
  {
    BuildSizes(H, txids, mask, Height(|txids|), 0);
    HeightIsOne(|txids|, 0);
    LastSingles(|txids|, mask, Height(|txids|));
  }

  const LAST_OF_FIVE := [false, false, false, false, true]

  lemma FiveShape()
    ensures Height(5) == 3 && Width(5, 3) == 1 && Width(5, 2) == 2 && Width(5, 1) == 3 && Width(5, 0) == 5
  {
    assert Width(5, 1) == 3;
    assert Width(5, 2) == 2;
    assert HeightFrom(5, 3) == 3;
    assert HeightFrom(5, 2) == 3;
    assert HeightFrom(5, 1) == 3;
  }

  lemma FiveMatched()
    ensures Matched(LAST_OF_FIVE, 3, 0) && Matched(LAST_OF_FIVE, 2, 1) && Matched(LAST_OF_FIVE, 1, 2)
    ensures !Matched(LAST_OF_FIVE, 2, 0)
  {
    assert LAST_OF_FIVE[4];
    assert First(1, 2) == 4 && First(1, 3) == 6;
    assert First(2, 1) == First(1, 2) && First(2, 2) == First(1, 4) == 8;
    assert First(2, 0) == First(1, 0) == 0;
    assert First(3, 0) == First(2, 0) && First(3, 1) == First(2, 2);
  }

  /** Five transactions with only the last one matched take 5 bits for 2 hashes. */
  lemma FiveLeaves(H: PairHash, txids: seq<Hash>)
    requires |txids| == 5 && Node(5, Height(5), 0)
    ensures var q := Build(H, txids, LAST_OF_FIVE, Height(5), 0); |q.bits| == 5 && |q.hashes| == 2
  {
    FiveShape();
    FiveMatched();
    BuildTwo(H, txids, LAST_OF_FIVE, 3, 0, Build(H, txids, LAST_OF_FIVE, 2, 0), Build(H, txids, LAST_OF_FIVE, 2, 1));
    BuildOne(H, txids, LAST_OF_FIVE, 2, 1, Build(H, txids, LAST_OF_FIVE, 1, 2));
    BuildOne(H, txids, LAST_OF_FIVE, 1, 2, Build(H, txids, LAST_OF_FIVE, 0, 4));
  }
}
