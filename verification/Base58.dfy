/** Base58 strings: what an encoding is, and what is read back from one. */
module Base58 {
  import opened Limbs
  import opened Powers
  import opened Radix
  import opened Wrappers

  // ----- characters -----

  /** The alphanumeric characters but for 0, I, O and l: digits, capitals and small letters, each run in order. */
  function Alphabet(v: nat): (c: char)
    requires v < 58
  {
    if v < 9 then (v + '1' as int) as char
    else if v < 17 then (v - 9 + 'A' as int) as char
    else if v < 22 then (v - 17 + 'J' as int) as char
    else if v < 33 then (v - 22 + 'P' as int) as char
    else if v < 44 then (v - 33 + 'a' as int) as char
    else (v - 44 + 'm' as int) as char
  }

  /** The table's own text. */
  lemma AlphabetIs(v: nat)
    requires v < 58
    ensures v < 9 ==> Alphabet(v) == "123456789"[v]
    ensures 9 <= v < 33 ==> Alphabet(v) == "ABCDEFGHJKLMNPQRSTUVWXYZ"[v - 9]
    ensures 33 <= v ==> Alphabet(v) == "abcdefghijkmnopqrstuvwxyz"[v - 33]
  {
    if v < 9 {
      assert v == 0 || v == 1 || v == 2 || v == 3 || v == 4 || v == 5 || v == 6 || v == 7 || v == 8;
    } else if v < 33 {
      assert v == 9 || v == 10 || v == 11 || v == 12 || v == 13 || v == 14 || v == 15 || v == 16
          || v == 17 || v == 18 || v == 19 || v == 20 || v == 21 || v == 22 || v == 23 || v == 24
          || v == 25 || v == 26 || v == 27 || v == 28 || v == 29 || v == 30 || v == 31 || v == 32;
    } else {
      assert v == 33 || v == 34 || v == 35 || v == 36 || v == 37 || v == 38 || v == 39 || v == 40
          || v == 41 || v == 42 || v == 43 || v == 44 || v == 45 || v == 46 || v == 47 || v == 48
          || v == 49 || v == 50 || v == 51 || v == 52 || v == 53 || v == 54 || v == 55 || v == 56
          || v == 57;
    }
  }

  /** The digit that a character stands for, or -1. */
  function Map58(c: char): int {
    if '1' <= c <= '9' then c as int - '1' as int
    else if 'A' <= c <= 'H' then c as int - 'A' as int + 9
    else if 'J' <= c <= 'N' then c as int - 'J' as int + 17
    else if 'P' <= c <= 'Z' then c as int - 'P' as int + 22
    else if 'a' <= c <= 'k' then c as int - 'a' as int + 33
    else if 'm' <= c <= 'z' then c as int - 'm' as int + 44
    else -1
  }

  /** The reverse table's own rows of sixteen. The second half of the table holds no digit. */
  function MapRow(r: nat): seq<int> {
    if r == 3 then [-1, 0, 1, 2, 3, 4, 5, 6, 7, 8, -1, -1, -1, -1, -1, -1]
    else if r == 4 then [-1, 9, 10, 11, 12, 13, 14, 15, 16, -1, 17, 18, 19, 20, 21, -1]
    else if r == 5 then [22, 23, 24, 25, 26, 27, 28, 29, 30, 31, 32, -1, -1, -1, -1, -1]
    else if r == 6 then [-1, 33, 34, 35, 36, 37, 38, 39, 40, 41, 42, 43, -1, 44, 45, 46]
    else if r == 7 then [47, 48, 49, 50, 51, 52, 53, 54, 55, 56, 57, -1, -1, -1, -1, -1]
    else [-1, -1, -1, -1, -1, -1, -1, -1, -1, -1, -1, -1, -1, -1, -1, -1]
  }

  lemma MapIsTable(c: char)
    ensures Map58(c) == MapRow(c as int / 16)[c as int % 16]
  {
    var r, j := c as int / 16, c as int % 16;
    assert c as int == 16 * r + j;
    assert j == 0 || j == 1 || j == 2 || j == 3 || j == 4 || j == 5 || j == 6 || j == 7
        || j == 8 || j == 9 || j == 10 || j == 11 || j == 12 || j == 13 || j == 14 || j == 15;
  }

  predicate IsSpace(c: char) {
    c == ' ' || c == 12 as char || c == '\n' || c == '\r' || c == '\t' || c == 11 as char
  }

  /** A character with a digit stands for it, and is neither a space nor the terminator. */
  lemma MapIs(c: char)
    ensures Map58(c) == -1 || (0 <= Map58(c) < 58 && Alphabet(Map58(c)) == c && !IsSpace(c) && c != '\0')
  {
  }

  /** Every digit reads back. */
  lemma CharIs(v: nat)
    requires v < 58
    ensures Map58(Alphabet(v)) == v
  {
  }

  predicate AllDigits(s: string) { forall i :: 0 <= i < |s| ==> Map58(s[i]) != -1 }

  function DigitOf(c: char): (d: nat) {
    if Map58(c) < 0 then 0 else Map58(c)
  }

  function DigitsIn(s: string): (r: seq<nat>) { seq(|s|, i requires 0 <= i < |s| => DigitOf(s[i])) }

  function Spell(ds: seq<nat>): (s: string)
    requires Digits(58, ds)
  {
    seq(|ds|, i requires 0 <= i < |ds| => Alphabet(ds[i]))
  }

  lemma SpellReads(ds: seq<nat>)
    requires Digits(58, ds)
    ensures AllDigits(Spell(ds)) && DigitsIn(Spell(ds)) == ds
  {
    forall i | 0 <= i < |ds| ensures Map58(Spell(ds)[i]) == ds[i] {
      CharIs(ds[i]);
    }
  }

  lemma ReadsSpelt(s: string)
    requires AllDigits(s)
    ensures Digits(58, DigitsIn(s)) && Spell(DigitsIn(s)) == s
  {
    forall i | 0 <= i < |s| ensures DigitsIn(s)[i] < 58 && Alphabet(DigitsIn(s)[i]) == s[i] {
      MapIs(s[i]);
    }
  }

  // ----- runs at the start -----

  function Leading<T(==)>(s: seq<T>, x: T): (n: nat)
    ensures n <= |s| && (forall i :: 0 <= i < n ==> s[i] == x) && (n < |s| ==> s[n] != x)
  {
    if |s| > 0 && s[0] == x then 1 + Leading(s[1..], x) else 0
  }

  lemma {:induction false} LeadingIs<T>(s: seq<T>, x: T, n: nat)
    requires n <= |s| && (forall i :: 0 <= i < n ==> s[i] == x) && (n < |s| ==> s[n] != x)
    ensures Leading(s, x) == n
  {
    if n > 0 {
      LeadingIs(s[1..], x, n - 1);
    }
  }

  function Repeat<T>(x: T, n: nat): (s: seq<T>) { seq(n, _ => x) }

  lemma LeadingSplit<T>(s: seq<T>, x: T)
    ensures s == Repeat(x, Leading(s, x)) + s[Leading(s, x)..]
  {
    var n := Leading(s, x);
    assert s[..n] == Repeat(x, n);
    assert s == s[..n] + s[n..];
  }

  lemma LeadingJoin<T>(x: T, n: nat, s: seq<T>)
    requires |s| > 0 ==> s[0] != x
    ensures Leading(Repeat(x, n) + s, x) == n && (Repeat(x, n) + s)[n..] == s
  {
    LeadingIs(Repeat(x, n) + s, x, n);
  }

  // ----- the encoding -----

  /** One '1' for each leading zero byte, then the number that the other bytes spell, in base 58. */
  ghost function Encoded(bytes: seq<nat>): (s: string) {
    var z := Leading(bytes, 0);
    var n := Value(256, bytes[z..]);
    DigitsAre(58, n);
    Repeat('1', z) + Spell(DigitsOf(58, n))
  }

  function SkipSpaces(s: string): (r: string) {
    if |s| > 0 && IsSpace(s[0]) then SkipSpaces(s[1..]) else s
  }

  function DropSpaces(s: string): (r: string) {
    if |s| > 0 && IsSpace(s[|s| - 1]) then DropSpaces(s[..|s| - 1]) else s
  }

  /** Without the spaces at both ends. */
  function Trim(s: string): (r: string) { DropSpaces(SkipSpaces(s)) }

  /** The length limit looks at the number only when there is one. */
  predicate TooLong(zeroes: nat, some: bool, length: nat, limit: int) {
    (zeroes > 0 && zeroes > limit) || (some && zeroes + length > limit)
  }

  /** The bytes that a text without spaces around it stands for. */
  ghost function DecodedText(t: string, limit: int): (r: Option<seq<nat>>) {
    var z := Leading(t, '1');
    var bytes := NumberIn(t[z..]);
    if !AllDigits(t) || TooLong(z, z < |t|, |bytes|, limit) then None else Some(Repeat(0, z) + bytes)
  }

  /** The bytes of the number that digits spell. */
  ghost function NumberIn(t: string): (r: seq<nat>) { DigitsOf(256, Value(58, DigitsIn(t))) }

  ghost function Decoded(s: string, limit: int): (r: Option<seq<nat>>) {
    if '\0' in s then None else DecodedText(Trim(s), limit)
  }

  lemma {:induction false} TrimDigits(s: string)
    requires AllDigits(s)
    ensures Trim(s) == s && '\0' !in s
  {
    forall i | 0 <= i < |s| ensures !IsSpace(s[i]) && s[i] != '\0' {
      MapIs(s[i]);
    }
  }

  /** What an encoding looks like to the decoder. */
  lemma EncodedIs(bytes: seq<nat>)
    requires Digits(256, bytes)
    ensures var z, s := Leading(bytes, 0), Encoded(bytes);
            && AllDigits(s) && Leading(s, '1') == z
            && DigitsOf(256, Value(58, DigitsIn(s[z..]))) == bytes[z..]
            && (z < |s| <==> z < |bytes|)
  {
    var z := Leading(bytes, 0);
    var n := Value(256, bytes[z..]);
    SpeltNumber(z, n);
    NumberBack(bytes[z..]);
  }

  lemma SpeltNumber(z: nat, n: nat)
    ensures var ds := DigitsOf(58, n);
            && Digits(58, ds)
            && var s := Repeat('1', z) + Spell(ds);
               AllDigits(s) && Leading(s, '1') == z && Value(58, DigitsIn(s[z..])) == n && (z < |s| <==> n > 0)
  {
    DigitsAre(58, n);
    var ds := DigitsOf(58, n);
    SpellReads(ds);
    if |ds| > 0 {
      CharIs(ds[0]);
      assert Map58('1') == 0;
    }
    LeadingJoin('1', z, Spell(ds));
    OnesAndDigits(z, ds);
  }

  lemma NumberBack(bytes: seq<nat>)
    requires Canonical(256, bytes)
    ensures DigitsOf(256, Value(256, bytes)) == bytes && (Value(256, bytes) > 0 <==> |bytes| > 0)
  {
    DigitsAre(256, Value(256, bytes));
    CanonicalUnique(256, bytes, DigitsOf(256, Value(256, bytes)));
    if |bytes| > 0 {
      CanonicalBound(256, bytes);
      PowerGrows(256, |bytes| - 1);
    }
  }

  lemma OnesAndDigits(z: nat, ds: seq<nat>)
    requires Digits(58, ds) && AllDigits(Spell(ds))
    ensures AllDigits(Repeat('1', z) + Spell(ds))
  {
    assert Map58('1') == 0;
  }

  /** Bytes come back from their encoding, unless the limit is below their number. */
  lemma DecodeEncoded(bytes: seq<nat>, limit: int)
    requires Digits(256, bytes)
    ensures Decoded(Encoded(bytes), limit) == if |bytes| == 0 || |bytes| <= limit then Some(bytes) else None
  {
    EncodedIs(bytes);
    TrimDigits(Encoded(bytes));
    LeadingSplit(bytes, 0);
  }

  /** Only the encoding of some bytes, between spaces, is accepted. */
  lemma EncodeDecoded(s: string, limit: int)
    requires Decoded(s, limit).Some?
    ensures var bytes := Decoded(s, limit).value;
            Digits(256, bytes) && (|bytes| == 0 || |bytes| <= limit) && Encoded(bytes) == Trim(s)
  {
    var t := Trim(s);
    LeadingSplit(t, '1');
    EncodedNumber(Leading(t, '1'), t[Leading(t, '1')..]);
  }

  /** Exactly that is accepted: the encoding of bytes within the limit, between spaces. */
  lemma DecodesExactly(s: string, limit: int, bytes: seq<nat>)
    ensures Decoded(s, limit) == Some(bytes) <==>
            && '\0' !in s && Digits(256, bytes) && Trim(s) == Encoded(bytes) && (|bytes| == 0 || |bytes| <= limit)
  {
    if Decoded(s, limit) == Some(bytes) {
      EncodeDecoded(s, limit);
    } else if Digits(256, bytes) && Trim(s) == Encoded(bytes) {
      DecodeEncoded(bytes, limit);
      EncodedIs(bytes);
      TrimDigits(Encoded(bytes));
    }
  }

  predicate AllSpaces(s: string) { forall i :: 0 <= i < |s| ==> IsSpace(s[i]) }

  /** Trimming takes off spaces at both ends and no more. */
  lemma TrimIs(s: string) returns (before: string, after: string)
    ensures s == before + Trim(s) + after && AllSpaces(before) && AllSpaces(after)
    ensures |Trim(s)| > 0 ==> !IsSpace(Trim(s)[0]) && !IsSpace(Trim(s)[|Trim(s)| - 1])
  {
    before := SkipSpacesIs(s);
    after := DropSpacesIs(SkipSpaces(s));
  }

  lemma {:induction false} SkipSpacesIs(s: string) returns (before: string)
    ensures s == before + SkipSpaces(s) && AllSpaces(before) && (|SkipSpaces(s)| > 0 ==> !IsSpace(SkipSpaces(s)[0]))
  {
    before := [];
    if |s| > 0 && IsSpace(s[0]) {
      var more := SkipSpacesIs(s[1..]);
      before := [s[0]] + more;
    }
  }

  lemma {:induction false} DropSpacesIs(s: string) returns (after: string)
    ensures s == DropSpaces(s) + after && AllSpaces(after)
    ensures |DropSpaces(s)| > 0 ==> !IsSpace(DropSpaces(s)[|DropSpaces(s)| - 1]) && DropSpaces(s)[0] == s[0]
  {
    after := [];
    if |s| > 0 && IsSpace(s[|s| - 1]) {
      var more := DropSpacesIs(s[..|s| - 1]);
      after := more + [s[|s| - 1]];
    }
  }

  lemma EncodedNumber(z: nat, t: string)
    requires AllDigits(t) && (|t| > 0 ==> t[0] != '1')
    ensures var bytes := Repeat(0, z) + DigitsOf(256, Value(58, DigitsIn(t)));
            Digits(256, bytes) && Encoded(bytes) == Repeat('1', z) + t
  {
    var ds := DigitsIn(t);
    var n := Value(58, ds);
    ReadsSpelt(t);
    if |ds| > 0 {
      MapIs(t[0]);
      assert Alphabet(0) == '1';
    }
    DigitsAre(58, n);
    CanonicalUnique(58, ds, DigitsOf(58, n));
    DigitsAre(256, n);
    LeadingJoin(0, z, DigitsOf(256, n));
  }

  // ----- the sizes of the buffers -----

  lemma Doubled(b: nat, e: nat, p: nat, odd: bool)
    requires Power(b, e) == p
    ensures odd ==> Power(b, 2 * e + 1) == b * (p * p)
    ensures !odd ==> Power(b, 2 * e) == p * p
  {
    PowerAdd(b, e, e);
    MulIs(p, p);
    MulIs(b, p * p);
  }

  function EncodedSize(n: nat): nat { n * 138 / 100 + 1 }

  function DecodedSize(n: nat): nat { n * 733 / 1000 + 1 }

  lemma PowerOne(b: nat)
    ensures Power(b, 1) == b
  {
    MulOne(b);
    assert Power(b, 0) == 1;
  }

  /** The number that n bytes spell fits the buffer for its digits. */
  lemma EncodedFits(n: nat)
    ensures Power(256, n) <= Power(58, EncodedSize(n))
  {
    PowerOne(256);
    Doubled(256, 1, 256, false);
    Doubled(256, 2, 65536, false);
    Doubled(256, 4, 4294967296, false);
    PowerOne(58);
    Doubled(58, 1, 58, false);
    Doubled(58, 2, 3364, true);
    Doubled(58, 5, 656356768, true);
    MulIs(n, 11);
    MulIs(EncodedSize(n), 8);
    PowersCompare(256, 8, 58, 11, n, EncodedSize(n));
  }

  /** The number that n digits spell fits the buffer for its bytes. */
  lemma DecodedFits(n: nat)
    ensures Power(58, n) <= Power(256, DecodedSize(n))
  {
    DecodedRatio();
    MulIs(n, 52);
    MulIs(DecodedSize(n), 71);
    PowersCompare(58, 71, 256, 52, n, DecodedSize(n));
  }

  lemma DecodedRatio()
    ensures Power(58, 71) <= Power(256, 52)
  {
    PowerOne(58);
    Doubled(58, 1, 58, false);
    Doubled(58, 2, 3364, false);
    Doubled(58, 4, 11316496, false);
    Doubled(58, 8, 128063081718016, true);
    Doubled(58, 17, 951208868148684143308060622848, true);
    Doubled(58, 35, 52478302028992644968172978478148648556151605660894866578604032, true);
    PowerOne(256);
    Doubled(256, 1, 256, true);
    Doubled(256, 3, 16777216, false);
    Doubled(256, 6, 281474976710656, true);
    Doubled(256, 13, 20282409603651670423947251286016, false);
    Doubled(256, 26, 411376139330301510538742295639337626245683966408394965837152256, false);
  }
}
