/** The tree that received bits and hashes spell, and what makes extraction accept it. */
module ReceivedTree {
  import opened PartialMerkleTree
  import opened MerkleBlock
  import Limbs

  /** A node is a transaction, a hash in place of a subtree, or has one or two children. */
  datatype Tree =
    | Leaf(hash: Hash, matched: bool)
    | Pruned(hash: Hash)
    | One(below: Tree)
    | Two(left: Tree, right: Tree)

  /** The tree has the shape of the tree over `n` transactions, from a node down. */
  predicate Shaped(n: nat, h: nat, pos: nat, t: Tree) {
    match t
    case Leaf(_, _) => h == 0
    case Pruned(_) => h > 0
    case One(below) => h > 0 && !Node(n, h - 1, 2 * pos + 1) && Shaped(n, h - 1, 2 * pos, below)
    case Two(left, right) =>
      h > 0 && Node(n, h - 1, 2 * pos + 1) && Shaped(n, h - 1, 2 * pos, left) && Shaped(n, h - 1, 2 * pos + 1, right)
  }

  /** Its flags and hashes, in depth-first order. */
  function Bits(t: Tree): seq<bool> {
    match t
    case Leaf(_, matched) => [matched]
    case Pruned(_) => [false]
    case One(below) => [true] + Bits(below)
    case Two(left, right) => [true] + (Bits(left) + Bits(right))
  }

  function Hashes(t: Tree): seq<Hash> {
    match t
    case Leaf(hash, _) => [hash]
    case Pruned(hash) => [hash]
    case One(below) => Hashes(below)
    case Two(left, right) => Hashes(left) + Hashes(right)
  }

  function HashOf(H: PairHash, t: Tree): Hash {
    match t
    case Leaf(hash, _) => hash
    case Pruned(hash) => hash
    case One(below) => H(HashOf(H, below), HashOf(H, below))
    case Two(left, right) => H(HashOf(H, left), HashOf(H, right))
  }

  /** No node has two children with the same hash. */
  predicate NoTwins(H: PairHash, t: Tree) {
    match t
    case Leaf(_, _) => true
    case Pruned(_) => true
    case One(below) => NoTwins(H, below)
    case Two(left, right) => NoTwins(H, left) && NoTwins(H, right) && HashOf(H, left) != HashOf(H, right)
  }

  /** The matched transactions and their positions, from left to right. */
  function Matches(t: Tree): seq<Hash> {
    match t
    case Leaf(hash, matched) => if matched then [hash] else []
    case Pruned(_) => []
    case One(below) => Matches(below)
    case Two(left, right) => Matches(left) + Matches(right)
  }

  function Indexes(t: Tree, pos: nat): seq<nat> {
    match t
    case Leaf(_, matched) => if matched then [pos] else []
    case Pruned(_) => []
    case One(below) => Indexes(below, 2 * pos)
    case Two(left, right) => Indexes(left, 2 * pos) + Indexes(right, 2 * pos + 1)
  }

  // ----- reading a tree -----

  /** `w` with the tree in front. */
  function Spelled(t: Tree, w: Walk): Walk { w.(bits := Bits(t) + w.bits, hashes := Hashes(t) + w.hashes) }

  /** `w` after the tree was read. */
  function ReadPast(H: PairHash, t: Tree, pos: nat, w: Walk): Walk {
    w.(bad := w.bad || !NoTwins(H, t), matches := w.matches + Matches(t), indexes := w.indexes + Indexes(t, pos))
  }

  lemma SpelledInner(bits: seq<bool>, t: Tree, w: Walk)
    requires Bits(t) == [true] + bits
    ensures |Spelled(t, w).bits| > 0 && Spelled(t, w).bits[0]
    ensures Flag(Spelled(t, w)) == w.(bits := bits + w.bits, hashes := Hashes(t) + w.hashes)
  {
    assert Spelled(t, w).bits[1..] == bits + w.bits;
  }

  lemma SpelledTwo(left: Tree, right: Tree, w: Walk)
    ensures Flag(Spelled(Two(left, right), w)) == Spelled(left, Spelled(right, w))
    ensures |Spelled(Two(left, right), w).bits| > 0 && Spelled(Two(left, right), w).bits[0]
  {
    SpelledInner(Bits(left) + Bits(right), Two(left, right), w);
    assert Bits(left) + Bits(right) + w.bits == Bits(left) + (Bits(right) + w.bits);
    assert Hashes(left) + Hashes(right) + w.hashes == Hashes(left) + (Hashes(right) + w.hashes);
  }

  /** The left tree can be read before or after the right one is put in front. */
  lemma ReadPastSpelled(H: PairHash, left: Tree, pos: nat, right: Tree, w: Walk)
    ensures ReadPast(H, left, pos, Spelled(right, w)) == Spelled(right, ReadPast(H, left, pos, w))
  {
  }

  lemma ReadPastTwo(H: PairHash, left: Tree, right: Tree, pos: nat, w: Walk)
    ensures var v := ReadPast(H, right, 2 * pos + 1, ReadPast(H, left, 2 * pos, w));
            v.(bad := v.bad || HashOf(H, right) == HashOf(H, left)) == ReadPast(H, Two(left, right), pos, w)
  {
    assert w.matches + Matches(left) + Matches(right) == w.matches + (Matches(left) + Matches(right));
    assert w.indexes + Indexes(left, 2 * pos) + Indexes(right, 2 * pos + 1)
        == w.indexes + (Indexes(left, 2 * pos) + Indexes(right, 2 * pos + 1));
  }

  /** Reading any tree of the right shape gives its hash and its matches, and fails if and only if some node has twins. */
  lemma {:induction false} ReadsTree(H: PairHash, n: nat, h: nat, pos: nat, t: Tree, w: Walk)
    requires Shaped(n, h, pos, t)
    ensures Extract(H, n, h, pos, Spelled(t, w)) == Visit(HashOf(H, t), ReadPast(H, t, pos, w))
    decreases h
  {
    match t
    case Leaf(hash, matched) => ReadsHash(H, n, h, pos, t, w);
    case Pruned(hash) => ReadsHash(H, n, h, pos, t, w);
    case One(below) =>
      SpelledInner(Bits(below), t, w);
      ReadsTree(H, n, h - 1, 2 * pos, below, w);
      ExtractInner(H, n, h, pos, Spelled(t, w));
    case Two(left, right) =>
      ReadsTree(H, n, h - 1, 2 * pos, left, Spelled(right, w));
      ReadsTree(H, n, h - 1, 2 * pos + 1, right, ReadPast(H, left, 2 * pos, w));
      ReadsTwo(H, n, h, pos, left, right, w);
  }

  lemma ReadsTwo(H: PairHash, n: nat, h: nat, pos: nat, left: Tree, right: Tree, w: Walk)
    requires h > 0 && Node(n, h - 1, 2 * pos + 1)
    requires Extract(H, n, h - 1, 2 * pos, Spelled(left, Spelled(right, w)))
          == Visit(HashOf(H, left), ReadPast(H, left, 2 * pos, Spelled(right, w)))
    requires Extract(H, n, h - 1, 2 * pos + 1, Spelled(right, ReadPast(H, left, 2 * pos, w)))
          == Visit(HashOf(H, right), ReadPast(H, right, 2 * pos + 1, ReadPast(H, left, 2 * pos, w)))
    ensures Extract(H, n, h, pos, Spelled(Two(left, right), w))
         == Visit(HashOf(H, Two(left, right)), ReadPast(H, Two(left, right), pos, w))
  {
    SpelledTwo(left, right, w);
    ReadPastSpelled(H, left, 2 * pos, right, w);
    ReadPastTwo(H, left, right, pos, w);
    ExtractInner(H, n, h, pos, Spelled(Two(left, right), w));
  }

  lemma ReadsHash(H: PairHash, n: nat, h: nat, pos: nat, t: Tree, w: Walk)
    requires Shaped(n, h, pos, t) && (t.Leaf? || t.Pruned?)
    ensures Extract(H, n, h, pos, Spelled(t, w)) == Visit(HashOf(H, t), ReadPast(H, t, pos, w))
  {
    var v := Spelled(t, w);
    assert v.bits[1..] == w.bits && v.hashes[1..] == w.hashes;
    assert w.matches + [] == w.matches && w.indexes + [] == w.indexes;
  }

  /** Between `w` and `rest` a tree was read. */
  predicate Spells(n: nat, h: nat, pos: nat, t: Tree, w: Walk, rest: Walk) {
    Shaped(n, h, pos, t) && w.bits == Bits(t) + rest.bits && w.hashes == Hashes(t) + rest.hashes
  }

  lemma SpellsTwo(n: nat, h: nat, pos: nat, w: Walk, left: Walk, rest: Walk, a: Tree, b: Tree)
    requires h > 0 && Node(n, h - 1, 2 * pos + 1) && |w.bits| > 0 && w.bits[0]
    requires Spells(n, h - 1, 2 * pos, a, Flag(w), left) && Spells(n, h - 1, 2 * pos + 1, b, left, rest)
    ensures Spells(n, h, pos, Two(a, b), w, rest)
  {
    assert w.bits == [true] + w.bits[1..];
  }

  lemma SpellsOne(n: nat, h: nat, pos: nat, w: Walk, rest: Walk, a: Tree)
    requires h > 0 && !Node(n, h - 1, 2 * pos + 1) && |w.bits| > 0 && w.bits[0]
    requires Spells(n, h - 1, 2 * pos, a, Flag(w), rest)
    ensures Spells(n, h, pos, One(a), w, rest)
  {
    assert w.bits == [true] + w.bits[1..];
  }

  lemma SpellsHash(H: PairHash, n: nat, h: nat, pos: nat, w: Walk) returns (t: Tree)
    requires |w.bits| > 0 && (h == 0 || !w.bits[0]) && !Extract(H, n, h, pos, w).walk.bad
    ensures Spells(n, h, pos, t, w, Extract(H, n, h, pos, w).walk)
  {
    t := if h == 0 then Leaf(w.hashes[0], w.bits[0]) else Pruned(w.hashes[0]);
    assert w.bits == [w.bits[0]] + w.bits[1..] && w.hashes == [w.hashes[0]] + w.hashes[1..];
  }

  /** Whatever was read without failure was a tree. */
  lemma {:induction false} TreeRead(H: PairHash, n: nat, h: nat, pos: nat, w: Walk) returns (t: Tree)
    requires !Extract(H, n, h, pos, w).walk.bad
    ensures Spells(n, h, pos, t, w, Extract(H, n, h, pos, w).walk) && !w.bad
    decreases h, 1
  {
    StaysBad(H, n, h, pos, w);
    if h == 0 || !w.bits[0] {
      t := SpellsHash(H, n, h, pos, w);
    } else {
      t := InnerRead(H, n, h, pos, w);
    }
  }

  lemma InnerRead(H: PairHash, n: nat, h: nat, pos: nat, w: Walk) returns (t: Tree)
    requires |w.bits| > 0 && h > 0 && w.bits[0] && !Extract(H, n, h, pos, w).walk.bad
    ensures Spells(n, h, pos, t, w, Extract(H, n, h, pos, w).walk)
    decreases h, 0
  {
    ExtractInner(H, n, h, pos, w);
    var left := Extract(H, n, h - 1, 2 * pos, Flag(w));
    if Node(n, h - 1, 2 * pos + 1) {
      var right := Extract(H, n, h - 1, 2 * pos + 1, left.walk);
      StaysBad(H, n, h - 1, 2 * pos + 1, left.walk);
      var a := TreeRead(H, n, h - 1, 2 * pos, Flag(w));
      var b := TreeRead(H, n, h - 1, 2 * pos + 1, left.walk);
      t := Two(a, b);
      SpellsTwo(n, h, pos, w, left.walk, right.walk, a, b);
    } else {
      var a := TreeRead(H, n, h - 1, 2 * pos, Flag(w));
      t := One(a);
      SpellsOne(n, h, pos, w, left.walk, a);
    }
  }

  // ----- what is accepted -----

  /** The data spell the tree, the flags with less than a byte of padding, and every check passes. */
  predicate Accepts(H: PairHash, n: nat, p: Proof, t: Tree) {
    && 0 < n <= 16666 && |p.hashes| <= n && |p.hashes| <= |p.bits|
    && Shaped(n, Height(n), 0, t) && NoTwins(H, t)
    && Hashes(t) == p.hashes && Bits(t) <= p.bits && (|Bits(t)| + 7) / 8 == (|p.bits| + 7) / 8
  }

  lemma SpelledStart(t: Tree, p: Proof, bad: bool)
    requires Hashes(t) == p.hashes && Bits(t) <= p.bits
    ensures Start(p, bad, []) == Spelled(t, Walk(p.bits[|Bits(t)|..], [], bad, [], []))
  {
    assert p.bits == Bits(t) + p.bits[|Bits(t)|..];
  }

  /** Data that spell an acceptable tree give its hash and exactly its matches. */
  lemma AcceptedGives(H: PairHash, n: nat, p: Proof, t: Tree)
    requires Accepts(H, n, p, t)
    ensures var v := Extraction(H, n, p, false, []);
            v.hash == HashOf(H, t) && v.walk.matches == Matches(t) && v.walk.indexes == Indexes(t, 0) && !v.walk.bad
  {
    var rest := Walk(p.bits[|Bits(t)|..], [], false, [], []);
    SpelledStart(t, p, false);
    ReadsTree(H, n, Height(n), 0, t, rest);
    assert [] + Matches(t) == Matches(t) && [] + Indexes(t, 0) == Indexes(t, 0);
  }

  /** Nothing else is accepted: from whatever data, a hash other than zero comes out only with an acceptable tree. */
  lemma OnlyAccepted(H: PairHash, n: nat, p: Proof, bad: bool) returns (t: Tree)
    requires Extraction(H, n, p, bad, []).hash != ZERO
    ensures !bad && Accepts(H, n, p, t)
    ensures var v := Extraction(H, n, p, bad, []);
            v.hash == HashOf(H, t) && v.walk.matches == Matches(t) && v.walk.indexes == Indexes(t, 0)
  {
    var w := Start(p, bad, []);
    t := TreeRead(H, n, Height(n), 0, w);
    var rest := Extract(H, n, Height(n), 0, w).walk;
    assert Bits(t) <= p.bits && Hashes(t) + [] == Hashes(t);
    SpelledStart(t, p, bad);
    ReadsTree(H, n, Height(n), 0, t, Walk(p.bits[|Bits(t)|..], [], bad, [], []));
    AcceptedGives(H, n, p, t);
  }

  /** Exactly what is accepted. */
  lemma AcceptedExactly(H: PairHash, n: nat, p: Proof, bad: bool)
    ensures Extraction(H, n, p, bad, []).hash != ZERO <==> !bad && exists t :: Accepts(H, n, p, t) && HashOf(H, t) != ZERO
  {
    if Extraction(H, n, p, bad, []).hash != ZERO {
      var t := OnlyAccepted(H, n, p, bad);
      assert Accepts(H, n, p, t) && HashOf(H, t) != ZERO;
    } else if t :| !bad && Accepts(H, n, p, t) && HashOf(H, t) != ZERO {
      AcceptedGives(H, n, p, t);
    }
  }

  // ----- repeated subtrees -----

  /** The ancestor of a transaction at a height. */
  function Above(i: nat, h: nat): nat { if h == 0 then i else Above(i, h - 1) / 2 }

  function Sibling(a: nat): nat { if a % 2 == 0 then a + 1 else a - 1 }

  lemma {:induction false} IndexIsBelow(n: nat, h: nat, pos: nat, t: Tree, i: nat)
    requires Shaped(n, h, pos, t) && i in Indexes(t, pos)
    ensures Above(i, h) == pos
    decreases h
  {
    match t
    case Leaf(_, _) =>
    case One(below) => IndexIsBelow(n, h - 1, 2 * pos, below, i);
    case Two(left, right) =>
      if i in Indexes(left, 2 * pos) {
        IndexIsBelow(n, h - 1, 2 * pos, left, i);
      } else {
        IndexIsBelow(n, h - 1, 2 * pos + 1, right, i);
      }
  }

  /** Two siblings with the same hash, one of them above a transaction. */
  predicate TwinsAbove(H: PairHash, txids: seq<Hash>, i: nat, k: nat) {
    var a := Above(i, k);
    Node(|txids|, k, a) && Node(|txids|, k, Sibling(a)) && CalcHash(H, txids, k, a) == CalcHash(H, txids, k, Sibling(a))
  }

  /** A received tree without twins, with the hash of the node it stands for, has no match below twins of the list,
      unless a genuine collision is at hand. */
  lemma {:induction false} MatchBelowTwins(H: PairHash, txids: seq<Hash>, h: nat, pos: nat, t: Tree, i: nat, k: nat)
    returns (x: Clash)
    requires Node(|txids|, h, pos) && Shaped(|txids|, h, pos, t) && NoTwins(H, t)
    requires HashOf(H, t) == CalcHash(H, txids, h, pos)
    requires i in Indexes(t, pos) && k < h && TwinsAbove(H, txids, i, k)
    ensures Genuine(H, x)
    decreases h
  {
    Children(|txids|, h, pos);
    IndexIsBelow(|txids|, h, pos, t, i);
    var left := if t.One? then t.below else t.left;
    var right := if t.One? then t.below else t.right;
    x := Clash(HashOf(H, left), HashOf(H, right), LeftHash(H, txids, h, pos), RightHash(H, txids, h, pos));
    if (x.a, x.b) == (x.c, x.d) {
      if t.One? || i in Indexes(left, 2 * pos) {
        IndexIsBelow(|txids|, h - 1, 2 * pos, left, i);
        x := MatchBelowTwins(H, txids, h - 1, 2 * pos, left, i, k);
      } else {
        IndexIsBelow(|txids|, h - 1, 2 * pos + 1, right, i);
        x := MatchBelowTwins(H, txids, h - 1, 2 * pos + 1, right, i, k);
      }
    }
  }

  /** So from whatever data the root of a list comes out, no match is below twins of the list. */
  lemma NoMatchBelowTwins(H: PairHash, txids: seq<Hash>, p: Proof, bad: bool, i: nat, k: nat) returns (x: Clash)
    requires |txids| > 0 && Extraction(H, |txids|, p, bad, []).hash == Root(H, txids) != ZERO
    requires i in Extraction(H, |txids|, p, bad, []).walk.indexes && k < Height(|txids|) && TwinsAbove(H, txids, i, k)
    ensures Genuine(H, x)
  {
    WidthPositive(|txids|, Height(|txids|));
    var t := OnlyAccepted(H, |txids|, p, bad);
    x := MatchBelowTwins(H, txids, Height(|txids|), 0, t, i, k);
  }

  // ----- a list with its last subtree repeated -----

  lemma InRow(n: nat, h: nat, pos: nat)
    requires First(h, pos) < n
    ensures Node(n, h, pos)
  {
    if !Node(n, h, pos) {
      BeyondRow(n, h, pos);
    }
  }

  lemma FirstNext(h: nat, pos: nat)
    ensures First(h, pos + 1) == First(h, pos) + First(h, 1) && First(h, 1) > 0
  {
    FirstIsShift(h, pos);
    FirstIsShift(h, pos + 1);
    FirstIsShift(h, 1);
    assert (pos + 1) * Limbs.Pow2(h) == pos * Limbs.Pow2(h) + Limbs.Pow2(h);
  }

  /** The transactions below a node of a full subtree. */
  function Below(x: seq<Hash>, h: nat, pos: nat): seq<Hash>
    requires First(h, pos + 1) <= |x|
  {
    FirstNext(h, pos);
    x[First(h, pos)..First(h, pos + 1)]
  }

  lemma BelowChildren(x: seq<Hash>, h: nat, pos: nat)
    requires h > 0 && First(h, pos + 1) <= |x|
    ensures First(h - 1, 2 * pos + 1) <= |x| && First(h - 1, 2 * pos + 2) <= |x|
    ensures |Below(x, h - 1, 2 * pos)| == First(h - 1, 1)
    ensures Below(x, h, pos) == Below(x, h - 1, 2 * pos) + Below(x, h - 1, 2 * pos + 1)
  {
    FirstNext(h - 1, 2 * pos);
    FirstNext(h - 1, 2 * pos + 1);
  }

  /** Full subtrees over the same transactions have the same hash. */
  lemma {:induction false} SameBelow(H: PairHash, x: seq<Hash>, y: seq<Hash>, h: nat, p: nat, q: nat)
    requires First(h, p + 1) <= |x| && First(h, q + 1) <= |y| && Below(x, h, p) == Below(y, h, q)
    ensures Node(|x|, h, p) && Node(|y|, h, q) && CalcHash(H, x, h, p) == CalcHash(H, y, h, q)
    decreases h
  {
    FirstNext(h, p);
    FirstNext(h, q);
    InRow(|x|, h, p);
    InRow(|y|, h, q);
    if h == 0 {
      assert Below(x, h, p)[0] == Below(y, h, q)[0];
    } else {
      BelowChildren(x, h, p);
      BelowChildren(y, h, q);
      var half := First(h - 1, 1);
      assert Below(x, h, p)[..half] == Below(x, h - 1, 2 * p) && Below(y, h, q)[..half] == Below(y, h - 1, 2 * q);
      assert Below(x, h, p)[half..] == Below(x, h - 1, 2 * p + 1) && Below(y, h, q)[half..] == Below(y, h - 1, 2 * q + 1);
      SameBelow(H, x, y, h - 1, 2 * p, 2 * q);
      SameBelow(H, x, y, h - 1, 2 * p + 1, 2 * q + 1);
    }
  }

  /** Row `h` of the tree over `a` ends with a full node that has no sibling. */
  predicate EndsAlone(a: seq<Hash>, h: nat) {
    var w := Width(|a|, h);
    w > 1 && w % 2 == 1 && First(h, w) == |a|
  }

  /** The list with the transactions below that node once more. */
  function Repeated(a: seq<Hash>, h: nat): seq<Hash>
    requires EndsAlone(a, h)
  {
    a + Below(a, h, Width(|a|, h) - 1)
  }

  /** Its row is longer by one, and the last two nodes are over the same transactions. */
  lemma RepeatedRow(a: seq<Hash>, h: nat)
    requires EndsAlone(a, h)
    ensures var b, w := Repeated(a, h), Width(|a|, h);
            |b| == First(h, w + 1) && Width(|b|, h) == w + 1 && Below(b, h, w) == Below(b, h, w - 1)
  {
    FirstNext(h, Width(|a|, h) - 1);
    FirstNext(h, Width(|a|, h));
    FullRow(h, Width(|a|, h) + 1);
  }

  lemma RepeatedSame(a: seq<Hash>, h: nat, pos: nat)
    requires EndsAlone(a, h) && pos < Width(|a|, h)
    ensures First(h, pos + 1) <= |a| && Below(Repeated(a, h), h, pos) == Below(a, h, pos)
  {
    FirstMono(h, pos + 1, Width(|a|, h));
    FirstNext(h, pos);
  }

  lemma FullRow(h: nat, w: nat)
    ensures Width(First(h, w), h) == w
  {
    FirstIsShift(h, w);
    WidthIsCeil(First(h, w), h);
    CeilUnique(First(h, w), Limbs.Pow2(h), w, Width(First(h, w), h));
  }

  /** The rows above have the same width, */
  lemma {:induction false} WidthsAbove(a: seq<Hash>, h: nat, k: nat)
    requires EndsAlone(a, h) && k > h
    ensures Width(|Repeated(a, h)|, k) == Width(|a|, k)
    decreases k
  {
    if k == h + 1 {
      RepeatedRow(a, h);
    } else {
      WidthsAbove(a, h, k - 1);
    }
  }

  /** and the same hashes: */
  lemma {:induction false} HashesAbove(H: PairHash, a: seq<Hash>, h: nat, k: nat, pos: nat)
    requires EndsAlone(a, h) && k > h && Node(|a|, k, pos)
    ensures Node(|Repeated(a, h)|, k, pos) && CalcHash(H, Repeated(a, h), k, pos) == CalcHash(H, a, k, pos)
    decreases k
  {
    var b, w := Repeated(a, h), Width(|a|, h);
    WidthsAbove(a, h, k);
    Children(|a|, k, pos);
    Children(|b|, k, pos);
    if k == h + 1 {
      RepeatedRow(a, h);
      RepeatedSame(a, h, 2 * pos);
      SameBelow(H, b, a, h, 2 * pos, 2 * pos);
      if 2 * pos + 1 < w {
        RepeatedSame(a, h, 2 * pos + 1);
        SameBelow(H, b, a, h, 2 * pos + 1, 2 * pos + 1);
      } else {
        FirstMono(h, w, w + 1);
        SameBelow(H, b, b, h, w, w - 1);
      }
    } else {
      WidthsAbove(a, h, k - 1);
      HashesAbove(H, a, h, k - 1, 2 * pos);
      if Node(|a|, k - 1, 2 * pos + 1) {
        HashesAbove(H, a, h, k - 1, 2 * pos + 1);
      }
    }
  }

  lemma {:induction false} HeightAbove(n: nat, k: nat, h: nat)
    requires k <= h && Width(n, h) > 1
    ensures HeightFrom(n, k) == HeightFrom(n, h + 1) && HeightFrom(n, h + 1) > h
    decreases h - k
  {
    WiderBelow(n, k, h);
    HeightAtLeast(n, h + 1);
    if k < h {
      HeightAbove(n, k + 1, h);
    }
  }

  lemma {:induction false} HeightAtLeast(n: nat, k: nat)
    ensures HeightFrom(n, k) >= k
    decreases Width(n, k)
  {
    if Width(n, k) > 1 {
      HeightAtLeast(n, k + 1);
    }
  }

  lemma {:induction false} WiderBelow(n: nat, k: nat, h: nat)
    requires k <= h
    ensures Width(n, h) <= Width(n, k)
  {
    if k < h {
      WiderBelow(n, k, h - 1);
    }
  }

  lemma {:induction false} HeightsAbove(a: seq<Hash>, h: nat, k: nat)
    requires EndsAlone(a, h) && k > h
    ensures HeightFrom(|Repeated(a, h)|, k) == HeightFrom(|a|, k)
    decreases Width(|a|, k)
  {
    WidthsAbove(a, h, k);
    if Width(|a|, k) > 1 {
      HeightsAbove(a, h, k + 1);
    }
  }

  /** Repeating the transactions below the last node of a row keeps the root. */
  lemma RepeatedRoot(H: PairHash, a: seq<Hash>, h: nat)
    requires EndsAlone(a, h)
    ensures |a| > 0 && Height(|Repeated(a, h)|) == Height(|a|) > h && Root(H, Repeated(a, h)) == Root(H, a)
  {
    RepeatedRow(a, h);
    WiderBelow(|a|, 0, h);
    HeightAbove(|a|, 0, h);
    HeightAbove(|Repeated(a, h)|, 0, h);
    HeightsAbove(a, h, h + 1);
    WidthPositive(|a|, Height(|a|));
    HashesAbove(H, a, h, Height(|a|), 0);
  }

  /** The longer list has the same root, but no data make extraction accept it as such with a match among the repeated
      transactions, in either copy, unless a genuine collision is at hand. */
  lemma RepeatedRefused(H: PairHash, a: seq<Hash>, h: nat, p: Proof, bad: bool, i: nat) returns (x: Clash)
    requires EndsAlone(a, h) && |a| > 0 && Root(H, a) != ZERO
    requires Extraction(H, |Repeated(a, h)|, p, bad, []).hash == Root(H, a)
    requires i in Extraction(H, |Repeated(a, h)|, p, bad, []).walk.indexes
    requires Above(i, h) == Width(|a|, h) - 1 || Above(i, h) == Width(|a|, h)
    ensures Genuine(H, x)
  {
    var b, w := Repeated(a, h), Width(|a|, h);
    RepeatedRoot(H, a, h);
    RepeatedRow(a, h);
    FirstMono(h, w, w + 1);
    SameBelow(H, b, b, h, w, w - 1);
    x := NoMatchBelowTwins(H, b, p, bad, i, h);
  }
}
