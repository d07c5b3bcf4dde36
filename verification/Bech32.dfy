/**
 Bech32 and Bech32m strings, after BIP 173 (section "Bech32") and BIP 350 (section "Bech32m").
 */
module Bech32 {
  import opened PolyMod

  datatype Encoding = BECH32 | BECH32M

  datatype Decoded = Invalid | Valid(encoding: Encoding, hrp: string, values: seq<Symbol>)

  type Symbol = x: nat | x < 32

  const CHARSET := "qpzry9x8gf2tvdw0s3jn54khce6mua7l"

  function EncodingConstant(e: Encoding): Residue { if e == BECH32 then Bits(1) else Bits(0x2bc830a3) }

  lemma ConstantsDiffer()
    ensures EncodingConstant(BECH32) != EncodingConstant(BECH32M)
  {
    assert !Bits(1)[1] && Bits(0x2bc830a3)[1];
  }

  // ----- characters -----

  /** The reverse table, in rows of sixteen. */
  function RevRow(r: nat): seq<int> {
    if r == 3 then [15, -1, 10, 17, 21, 20, 26, 30, 7, 5, -1, -1, -1, -1, -1, -1]
    else if r == 4 || r == 6 then [-1, 29, -1, 24, 13, 25, 9, 8, 23, -1, 18, 22, 31, 27, 19, -1]
    else if r == 5 || r == 7 then [1, 0, 3, 16, 11, 28, 12, 14, 6, 4, 2, -1, -1, -1, -1, -1]
    else [-1, -1, -1, -1, -1, -1, -1, -1, -1, -1, -1, -1, -1, -1, -1, -1]
  }

  function Rev(c: nat): int
    requires c < 128
  {
    RevRow(c / 16)[c % 16]
  }

  predicate IsUpper(c: char) { 'A' <= c <= 'Z' }
  predicate IsLower(c: char) { 'a' <= c <= 'z' }

  function LowerCase(c: char): char { if IsUpper(c) then (c as int + 32) as char else c }

  /** A character with a value stands for it, in either case. */
  lemma RevIs(c: nat)
    requires c < 128
    ensures Rev(c) == -1 || (0 <= Rev(c) < 32 && CHARSET[Rev(c)] == LowerCase(c as char))
  {
    var r, j := c / 16, c % 16;
    assert c == 16 * r + j;
    assert j == 0 || j == 1 || j == 2 || j == 3 || j == 4 || j == 5 || j == 6 || j == 7
        || j == 8 || j == 9 || j == 10 || j == 11 || j == 12 || j == 13 || j == 14 || j == 15;
    if r == 3 {
    } else if r == 4 {
    } else if r == 5 {
    } else if r == 6 {
    } else if r == 7 {
    }
  }

  /** The characters of the set are printable, lower case, not the separator, and read back. */
  predicate CharOk(v: Symbol) {
    var c := CHARSET[v];
    33 <= c as int <= 126 && !IsUpper(c) && c != '1' && Rev(c as int) == v
  }

  lemma CharIs(v: Symbol)
    ensures CharOk(v)
  {
    if v < 16 {
      assert v == 0 || v == 1 || v == 2 || v == 3 || v == 4 || v == 5 || v == 6 || v == 7
          || v == 8 || v == 9 || v == 10 || v == 11 || v == 12 || v == 13 || v == 14 || v == 15;
    } else {
      CharIsHigh(v);
    }
  }

  lemma CharIsHigh(v: Symbol)
    requires v >= 16
    ensures CharOk(v)
  {
    assert v == 16 || v == 17 || v == 18 || v == 19 || v == 20 || v == 21 || v == 22 || v == 23
        || v == 24 || v == 25 || v == 26 || v == 27 || v == 28 || v == 29 || v == 30 || v == 31;
  }

  // ----- symbols as residues -----

  lemma {:induction false} HighBits(n: nat, k: nat, j: nat)
    requires k <= j && (k == 0 ==> n == 0) && (k == 5 ==> n < 32) && (k == 4 ==> n < 16) && (k == 3 ==> n < 8)
    requires (k == 2 ==> n < 4) && (k == 1 ==> n < 2) && k <= 5
    ensures !BitOf(n, j)
    decreases j
  {
    if j > 0 {
      HighBits(n / 2, if k == 0 then 0 else k - 1, j - 1);
    }
  }

  lemma SymbolBits(v: Symbol)
    ensures IsSymbol(Bits(v))
  {
    forall j | 5 <= j < 30 ensures !Bits(v)[j] {
      HighBits(v, 5, j);
    }
  }

  function FromBits(b: Residue, at: nat): Symbol
    requires at + 5 <= 30
  {
    (if b[at] then 1 else 0) + (if b[at + 1] then 2 else 0) + (if b[at + 2] then 4 else 0) +
    (if b[at + 3] then 8 else 0) + (if b[at + 4] then 16 else 0)
  }

  lemma FiveBits(n: nat)
    ensures BitOf(n, 0) == (n % 2 == 1) && BitOf(n, 1) == (n / 2 % 2 == 1) && BitOf(n, 2) == (n / 4 % 2 == 1)
    ensures BitOf(n, 3) == (n / 8 % 2 == 1) && BitOf(n, 4) == (n / 16 % 2 == 1)
  {
    var a, b, c := n / 2, n / 4, n / 8;
    assert a / 2 == b && b / 2 == c && c / 2 == n / 16;
    assert BitOf(n, 1) == BitOf(a, 0);
    assert BitOf(n, 2) == BitOf(a, 1) == BitOf(b, 0);
    assert BitOf(n, 3) == BitOf(a, 2) == BitOf(b, 1) == BitOf(c, 0);
    assert BitOf(n, 4) == BitOf(a, 3) == BitOf(b, 2) == BitOf(c, 1) == BitOf(c / 2, 0);
  }

  function Digit(b: bool): nat { if b then 1 else 0 }

  lemma BitCons(b: bool, m: nat, j: nat)
    ensures BitOf(Digit(b) + 2 * m, j) == if j == 0 then b else BitOf(m, j - 1)
  {
  }

  lemma FromBitsAt(b: Residue, at: nat, j: nat)
    requires at + 5 <= 30 && j < 5
    ensures BitOf(FromBits(b, at), j) == b[at + j]
  {
    var m4 := Digit(b[at + 4]);
    var m3 := Digit(b[at + 3]) + 2 * m4;
    var m2 := Digit(b[at + 2]) + 2 * m3;
    var m1 := Digit(b[at + 1]) + 2 * m2;
    assert FromBits(b, at) == Digit(b[at]) + 2 * m1;
    BitCons(b[at], m1, j);
    if j > 0 {
      BitCons(b[at + 1], m2, j - 1);
    }
    if j > 1 {
      BitCons(b[at + 2], m3, j - 2);
    }
    if j > 2 {
      BitCons(b[at + 3], m4, j - 3);
    }
  }

  lemma FromBitsSame(v: Symbol)
    ensures FromBits(Bits(v), 0) == v
  {
    FiveBits(v);
  }

  lemma BitsInjective(v: Symbol, w: Symbol)
    requires Bits(v) == Bits(w)
    ensures v == w
  {
    FromBitsSame(v);
    FromBitsSame(w);
  }

  function Residues(vs: seq<Symbol>): (r: seq<Residue>)
    ensures |r| == |vs|
  {
    if |vs| == 0 then [] else [Bits(vs[0])] + Residues(vs[1..])
  }

  lemma {:induction false} ResiduesAt(vs: seq<Symbol>, i: nat)
    requires i < |vs|
    ensures Residues(vs)[i] == Bits(vs[i]) && IsSymbol(Residues(vs)[i])
    decreases |vs|
  {
    if i > 0 {
      ResiduesAt(vs[1..], i - 1);
    } else {
      SymbolBits(vs[0]);
    }
  }

  lemma ResiduesAreSymbols(vs: seq<Symbol>)
    ensures Symbols(Residues(vs))
  {
    forall i | 0 <= i < |vs| ensures IsSymbol(Residues(vs)[i]) {
      ResiduesAt(vs, i);
    }
  }

  lemma {:induction false} ResiduesAppend(vs: seq<Symbol>, ws: seq<Symbol>)
    ensures Residues(vs + ws) == Residues(vs) + Residues(ws)
    decreases |vs|
  {
    if |vs| == 0 {
      assert vs + ws == ws;
    } else {
      assert (vs + ws)[1..] == vs[1..] + ws;
      ResiduesAppend(vs[1..], ws);
    }
  }

  lemma ResiduesInjective(vs: seq<Symbol>, ws: seq<Symbol>)
    requires |vs| == |ws| && Residues(vs) == Residues(ws)
    ensures vs == ws
  {
    forall i | 0 <= i < |vs| ensures vs[i] == ws[i] {
      ResiduesAt(vs, i);
      ResiduesAt(ws, i);
      BitsInjective(vs[i], ws[i]);
    }
  }

  // ----- checksums -----

  /** The polynomial's residue, with an implicit leading one. */
  function Mod(vs: seq<Symbol>): Residue { PolyFrom(Bits(1), Residues(vs)) }

  lemma ModAppend(vs: seq<Symbol>, ws: seq<Symbol>)
    ensures Mod(vs + ws) == PolyFrom(Mod(vs), Residues(ws))
  {
    ResiduesAppend(vs, ws);
    PolyAppend(Bits(1), Residues(vs), Residues(ws));
  }

  const SIX_ZEROS: seq<Symbol> := [0, 0, 0, 0, 0, 0]

  function Groups(mod: Residue): (r: seq<Symbol>)
    ensures |r| == 6
  {
    [FromBits(mod, 25), FromBits(mod, 20), FromBits(mod, 15), FromBits(mod, 10), FromBits(mod, 5), FromBits(mod, 0)]
  }

  function ChecksumOf(c: Residue, target: Residue): seq<Symbol> {
    Groups(Xor(PolyFrom(c, Residues(SIX_ZEROS)), target))
  }

  lemma GroupsAt(mod: Residue, j: nat)
    requires j < 30
    ensures PackedBit(Residues(Groups(mod)), j) == mod[j]
  {
    var i, k := 5 - j / 5, j % 5;
    ResiduesAt(Groups(mod), i);
    assert Groups(mod)[i] == FromBits(mod, 5 * (5 - i));
    FromBitsAt(mod, 5 * (5 - i), k);
  }

  /** The six symbols packed together are the residue they were cut from. */
  lemma GroupsPack(mod: Residue)
    ensures PolyFrom(Zero(), Residues(Groups(mod))) == mod
  {
    var gs := Residues(Groups(mod));
    ResiduesAreSymbols(Groups(mod));
    PolyPacks(gs);
    var c := PolyFrom(Zero(), gs);
    forall j: nat | j < 30 ensures c[j] == mod[j] {
      assert c[j] == PackedBit(gs, j);
      GroupsAt(mod, j);
    }
  }

  lemma ZeroBits()
    ensures Bits(0) == Zero()
  {
    forall j: nat | j < 30 ensures !Bits(0)[j] {
      HighBits(0, 0, j);
    }
  }

  lemma XorZero(a: Residue, b: Residue)
    ensures Xor(a, Zero()) == a && Xor(Zero(), a) == a && Xor(b, Xor(b, a)) == a
  {
  }

  lemma {:induction false} XorZeros(zs: seq<Residue>, vs: seq<Residue>)
    requires |zs| == |vs| && AllZero(zs)
    ensures XorAll(zs, vs) == vs
    decreases |vs|
  {
    if |vs| > 0 {
      XorZero(vs[0], vs[0]);
      XorZeros(zs[1..], vs[1..]);
    }
  }

  lemma SixZeros()
    ensures AllZero(Residues(SIX_ZEROS))
  {
    ZeroBits();
    forall i: nat | i < 6 ensures Residues(SIX_ZEROS)[i] == Zero() {
      ResiduesAt(SIX_ZEROS, i);
    }
  }

  /** Appending the checksum brings the residue to the target. */
  lemma ChecksumReaches(c: Residue, target: Residue)
    ensures PolyFrom(c, Residues(ChecksumOf(c, target))) == target
  {
    var zs := Residues(SIX_ZEROS);
    var r := PolyFrom(c, zs);
    var ck := Residues(ChecksumOf(c, target));
    SixZeros();
    XorZeros(zs, ck);
    XorZero(c, c);
    PolyLinear(c, Zero(), zs, ck);
    GroupsPack(Xor(r, target));
    XorZero(target, r);
  }

  /** And nothing else does. */
  lemma ChecksumUnique(c: Residue, target: Residue, tail: seq<Symbol>)
    requires |tail| == 6 && PolyFrom(c, Residues(tail)) == target
    ensures tail == ChecksumOf(c, target)
  {
    var ck := ChecksumOf(c, target);
    ChecksumReaches(c, target);
    if Residues(tail) != Residues(ck) {
      ResiduesAreSymbols(tail);
      ResiduesAreSymbols(ck);
      BurstDetected(c, Residues(tail), Residues(ck), 0);
    }
    ResiduesInjective(tail, ck);
  }
}
