/** The Base58 codec: conversion between bases in a buffer, and the checked form with a hash. */
module Base58Codec {
  import opened Limbs
  import opened Powers
  import opened Radix
  import opened Wrappers
  import opened Base58

  const INT_MAX := 0x7fff_ffff

  // ----- encoding -----

  method EncodeBase58(input: seq<nat>) returns (str: string)
    requires Digits(256, input)
    ensures str == Encoded(input)
  {
    var zeroes := 0;
    while zeroes < |input| && input[zeroes] == 0
      invariant zeroes <= |input| && forall i :: 0 <= i < zeroes ==> input[i] == 0
    {
      zeroes := zeroes + 1;
    }
    LeadingIs(input, 0, zeroes);
    var digits := ToBase58(input[zeroes..]);
    str := SpellDigits(zeroes, digits);
  }

  /** The digits of the number that the bytes spell. */
  method ToBase58(bytes: seq<nat>) returns (digits: seq<nat>)
    requires Digits(256, bytes)
    ensures digits == DigitsOf(58, Value(256, bytes)) && Digits(58, digits)
  {
    var size := EncodedSize(|bytes|);
    var b58 := new nat[size](_ => 0);
    var length: nat := 0;
    HoldsNothing(b58[..], 58);
    var p := 0;
    while p < |bytes|
      invariant p <= |bytes| && Holds(b58[..], 58, length, Value(256, bytes[..p]))
    {
      EncodeStep(bytes, p);
      length := Accumulate(b58, length, 58, 256, bytes[p], Value(256, bytes[..p]));
      p := p + 1;
    }
    assert bytes[..p] == bytes;
    var it := SkipZeroes(b58, size - length);
    assert it == size - length;
    DigitsAre(58, Value(256, bytes));
    HoldsDigits(b58[..], 58, length, Value(256, bytes));
    digits := b58[it..];
  }

  method SkipZeroes(b: array<nat>, start: nat) returns (it: nat)
    requires start <= b.Length
    ensures start <= it <= b.Length && (forall k :: start <= k < it ==> b[k] == 0) && (it < b.Length ==> b[it] != 0)
    ensures start < b.Length && b[start] != 0 ==> it == start
  {
    it := start;
    while it != b.Length && b[it] == 0
      invariant start <= it <= b.Length && forall k :: start <= k < it ==> b[k] == 0
      decreases b.Length - it
    {
      it := it + 1;
    }
  }

  lemma HoldsNothing(b: seq<nat>, base: nat)
    requires base > 0 && forall k :: 0 <= k < |b| ==> b[k] == 0
    ensures Holds(b, base, 0, 0)
  {
    UpperZeros(base, b, |b|);
  }

  /** One byte more: the next number, and that it fits. */
  lemma EncodeStep(bytes: seq<nat>, p: nat)
    requires Digits(256, bytes) && p < |bytes|
    ensures var v := Value(256, bytes[..p]);
            && 0 <= Mul(256, v) && Mul(256, v) + bytes[p] == Value(256, bytes[..p + 1])
            && Mul(256, v) + bytes[p] < Power(58, EncodedSize(|bytes|))
  {
    PrefixStep(256, bytes, p);
    EncodedFits(|bytes|);
  }

  lemma PrefixStep(base: nat, s: seq<nat>, p: nat)
    requires base > 0 && Digits(base, s) && p < |s|
    ensures var v := Value(base, s[..p]);
            && 0 <= Mul(base, v) && Mul(base, v) + s[p] == Value(base, s[..p + 1])
            && Mul(base, v) + s[p] < Power(base, |s|)
  {
    var v := Value(base, s[..p]);
    assert s[..p + 1] == s[..p] + [s[p]];
    ValueAppend(base, s[..p], s[p]);
    MulComm(base, v);
    MulNonNegative(base, v);
    ValueBound(base, s[..p + 1]);
    PowerMonoExp(base, p + 1, |s|);
  }

  method SpellDigits(zeroes: nat, digits: seq<nat>) returns (str: string)
    requires Digits(58, digits)
    ensures str == Repeat('1', zeroes) + Spell(digits)
  {
    str := Repeat('1', zeroes);
    var i := 0;
    while i < |digits|
      invariant i <= |digits| && str == Repeat('1', zeroes) + Spell(digits)[..i]
    {
      str := str + [Alphabet(digits[i])];
      i := i + 1;
    }
  }

  // ----- decoding -----

  method DecodeBase58(str: string, limit: int) returns (r: Option<seq<nat>>)
    ensures r == Decoded(str, limit)
  {
    if '\0' in str {
      return None;
    }
    var first := 0;
    while first < |str| && IsSpace(str[first])
      invariant first <= |str| && SkipSpaces(str) == SkipSpaces(str[first..])
    {
      first := first + 1;
    }
    var rest := str[first..];
    assert SkipSpaces(str) == rest;
    r := DecodeRest(rest, limit);
  }

  method DecodeRest(s: string, limit: int) returns (r: Option<seq<nat>>)
    ensures r == DecodedText(DropSpaces(s), limit)
  {
    var zeroes := 0;
    while zeroes < |s| && s[zeroes] == '1'
      invariant zeroes <= |s| && forall i :: 0 <= i < zeroes ==> s[i] == '1'
      invariant zeroes > 0 ==> zeroes <= limit
    {
      zeroes := zeroes + 1;
      if zeroes > limit {
        TooManyOnes(s, zeroes, limit);
        return None;
      }
    }
    var p, bytes := ReadNumber(s[zeroes..], zeroes, limit);
    if bytes.None? {
      NoNumber(s, zeroes, p, limit);
      return None;
    }
    p := zeroes + p;
    var q := p;
    while q < |s| && IsSpace(s[q])
      invariant p <= q <= |s| && forall i :: p <= i < q ==> IsSpace(s[i])
    {
      q := q + 1;
    }
    if q < |s| {
      TextAfterSpaces(s, p, q, limit);
      return None;
    }
    WholeText(s, zeroes, p, limit);
    r := Some(Repeat(0, zeroes) + bytes.value);
  }

  // ----- the text between the spaces -----

  lemma {:induction false} DropKeeps(s: string, k: nat)
    requires k <= |s| && (k > 0 ==> !IsSpace(s[k - 1]))
    ensures var t := DropSpaces(s); k <= |t| <= |s| && t == s[..|t|]
    decreases |s|
  {
    if |s| > 0 && IsSpace(s[|s| - 1]) {
      DropKeeps(s[..|s| - 1], k);
    }
  }

  lemma {:induction false} DropTo(s: string, p: nat)
    requires p <= |s| && (p > 0 ==> !IsSpace(s[p - 1])) && forall i :: p <= i < |s| ==> IsSpace(s[i])
    ensures DropSpaces(s) == s[..p]
    decreases |s|
  {
    if |s| > p {
      DropTo(s[..|s| - 1], p);
    }
  }

  lemma TooManyOnes(s: string, zeroes: nat, limit: int)
    requires 0 < zeroes <= |s| && zeroes > limit && forall i :: 0 <= i < zeroes ==> s[i] == '1'
    ensures DecodedText(DropSpaces(s), limit) == None
  {
    DropKeeps(s, zeroes);
    var t := DropSpaces(s);
    forall i | 0 <= i < zeroes ensures t[i] == '1' {
      assert t[i] == s[i];
    }
  }

  lemma TextAfterSpaces(s: string, p: nat, q: nat, limit: int)
    requires p < q < |s| && IsSpace(s[p]) && !IsSpace(s[q])
    ensures DecodedText(DropSpaces(s), limit) == None
  {
    DropKeeps(s, q + 1);
    MapIs(s[p]);
    assert DropSpaces(s)[p] == s[p];
  }

  lemma OnesAre(s: string, zeroes: nat, t: string)
    requires zeroes <= |t| <= |s| && t == s[..|t|] && (forall i :: 0 <= i < zeroes ==> s[i] == '1')
    requires zeroes < |s| ==> s[zeroes] != '1'
    ensures Leading(t, '1') == zeroes
  {
    LeadingIs(t, '1', zeroes);
  }

  lemma WholeText(s: string, zeroes: nat, p: nat, limit: int)
    requires zeroes <= p <= |s| && (forall i :: 0 <= i < zeroes ==> s[i] == '1') && (zeroes < |s| ==> s[zeroes] != '1')
    requires AllDigits(s[zeroes..][..p - zeroes]) && forall i :: p <= i < |s| ==> IsSpace(s[i])
    requires !TooLong(zeroes, p > zeroes, |NumberIn(s[zeroes..][..p - zeroes])|, limit)
    ensures DecodedText(DropSpaces(s), limit) == Some(Repeat(0, zeroes) + NumberIn(s[zeroes..][..p - zeroes]))
  {
    var w := s[zeroes..][..p - zeroes];
    assert s[..p][zeroes..] == w;
    assert AllDigits(s[..p]) by {
      assert Map58('1') == 0;
      forall i | 0 <= i < p ensures Map58(s[i]) != -1 {
        if i >= zeroes {
          assert s[i] == w[i - zeroes];
        }
      }
    }
    if p > 0 {
      MapIs(s[..p][p - 1]);
    }
    DropTo(s, p);
    OnesAre(s, zeroes, s[..p]);
  }

  // ----- the number -----

  /** Why reading the number stops early: a character that is no digit, or more bytes than the limit allows. */
  ghost predicate Stopped(s: string, zeroes: nat, p: nat, limit: int) {
    && p < |s| && !IsSpace(s[p])
    && (Map58(s[p]) == -1 || (AllDigits(s[..p + 1]) && zeroes + |NumberIn(s[..p + 1])| > limit))
  }

  method ReadNumber(s: string, zeroes: nat, limit: int) returns (p: nat, bytes: Option<seq<nat>>)
    ensures p <= |s|
    ensures bytes.None? ==> Stopped(s, zeroes, p, limit)
    ensures bytes.Some? ==> AllDigits(s[..p]) && (p < |s| ==> IsSpace(s[p])) && bytes.value == NumberIn(s[..p])
    ensures bytes.Some? && p > 0 ==> zeroes + |bytes.value| <= limit
  {
    var size := DecodedSize(|s|);
    var b256 := new nat[size](_ => 0);
    var length: nat := 0;
    p := 0;
    HoldsNothing(b256[..], 256);
    while p < |s| && !IsSpace(s[p])
      invariant p <= |s| && AllDigits(s[..p]) && Holds(b256[..], 256, length, Value(58, DigitsIn(s[..p])))
      invariant p > 0 ==> zeroes + length <= limit
    {
      var d := Map58(s[p]);
      if d == -1 {
        return p, None;
      }
      MapIs(s[p]);
      DecodeStep(s, p);
      length := Accumulate(b256, length, 256, 58, d, Value(58, DigitsIn(s[..p])));
      if length + zeroes > limit {
        HoldsDigits(b256[..], 256, length, Value(58, DigitsIn(s[..p + 1])));
        return p, None;
      }
      p := p + 1;
    }
    HoldsDigits(b256[..], 256, length, Value(58, DigitsIn(s[..p])));
    bytes := Some(b256[size - length..]);
  }

  /** One digit more: the next number, and that it fits. */
  lemma DecodeStep(s: string, p: nat)
    requires p < |s| && AllDigits(s[..p]) && Map58(s[p]) != -1
    ensures AllDigits(s[..p + 1])
    ensures var v := Value(58, DigitsIn(s[..p]));
            && 0 <= Mul(58, v) && Mul(58, v) + DigitOf(s[p]) == Value(58, DigitsIn(s[..p + 1]))
            && Mul(58, v) + DigitOf(s[p]) < Power(256, DecodedSize(|s|))
  {
    assert s[..p + 1] == s[..p] + [s[p]];
    ReadsSpelt(s[..p + 1]);
    PrefixReads(s, p, p + 1);
    PrefixStep(58, DigitsIn(s[..p + 1]), p);
    assert DigitsIn(s[..p + 1])[..p + 1] == DigitsIn(s[..p + 1]);
    PowerMonoExp(58, p + 1, |s|);
    DecodedFits(|s|);
  }

  lemma PrefixReads(s: string, p: nat, q: nat)
    requires p <= q <= |s|
    ensures DigitsIn(s[..q])[..p] == DigitsIn(s[..p])
  {
  }

  lemma {:induction false} PrefixBelow(base: nat, s: seq<nat>, p: nat)
    requires base > 0 && Digits(base, s) && p <= |s|
    ensures Value(base, s[..p]) <= Value(base, s)
    decreases |s| - p
  {
    if p == |s| {
      assert s[..p] == s;
    } else {
      PrefixStep(base, s, p);
      MulLess(1, base, Value(base, s[..p]));
      MulOne(Value(base, s[..p]));
      PrefixBelow(base, s, p + 1);
    }
  }

  /** A larger number has no fewer digits. */
  lemma LongerNumber(base: nat, m: nat, n: nat)
    requires base > 1 && m <= n
    ensures |DigitsOf(base, m)| <= |DigitsOf(base, n)|
  {
    var s, t := DigitsOf(base, m), DigitsOf(base, n);
    DigitsAre(base, m);
    DigitsAre(base, n);
    if |t| < |s| {
      CanonicalBound(base, s);
      ValueBound(base, t);
      PowerMonoExp(base, |t|, |s| - 1);
    }
  }

  lemma NoNumber(s: string, zeroes: nat, p: nat, limit: int)
    requires zeroes <= |s| && (forall i :: 0 <= i < zeroes ==> s[i] == '1') && (zeroes < |s| ==> s[zeroes] != '1')
    requires Stopped(s[zeroes..], zeroes, p, limit)
    ensures DecodedText(DropSpaces(s), limit) == None
  {
    assert s[zeroes..][p] == s[zeroes + p];
    DropKeeps(s, zeroes + p + 1);
    var t := DropSpaces(s);
    if AllDigits(t) {
      assert t[zeroes + p] == s[zeroes + p];
      OnesAre(s, zeroes, t);
      assert t[zeroes..][..p + 1] == s[zeroes..][..p + 1];
      TooLongText(t, zeroes, p + 1, limit);
    }
  }

  lemma TooLongText(t: string, zeroes: nat, p: nat, limit: int)
    requires AllDigits(t) && zeroes == Leading(t, '1') && 0 < p <= |t| - zeroes
    requires zeroes + |NumberIn(t[zeroes..][..p])| > limit
    ensures DecodedText(t, limit) == None
  {
    LongerText(t[zeroes..], p);
  }

  lemma LongerText(w: string, p: nat)
    requires AllDigits(w) && p <= |w|
    ensures |NumberIn(w[..p])| <= |NumberIn(w)|
  {
    ReadsSpelt(w);
    assert w[..|w|] == w;
    PrefixReads(w, p, |w|);
    PrefixBelow(58, DigitsIn(w), p);
    LongerNumber(256, Value(58, DigitsIn(w[..p])), Value(58, DigitsIn(w)));
  }

  // ----- the checked form -----

  /** A hash gives at least four bytes. */
  ghost predicate IsHash(hash: seq<nat> -> seq<nat>) {
    forall v: seq<nat> :: |hash(v)| >= 4 && Digits(256, hash(v))
  }

  function CheckLimit(limit: int): int { if limit > INT_MAX - 4 then INT_MAX else limit + 4 }

  method EncodeBase58Check(input: seq<nat>, hash: seq<nat> -> seq<nat>) returns (str: string)
    requires Digits(256, input) && IsHash(hash)
    ensures str == Encoded(input + hash(input)[..4])
  {
    str := EncodeBase58(input + hash(input)[..4]);
  }

  method DecodeBase58Check(str: string, limit: int, hash: seq<nat> -> seq<nat>) returns (r: Option<seq<nat>>)
    requires IsHash(hash)
    ensures r.Some? ==> Decoded(str, CheckLimit(limit)) == Some(r.value + hash(r.value)[..4])
    ensures r.None? ==> forall v :: Decoded(str, CheckLimit(limit)) != Some(v + hash(v)[..4])
  {
    var bytes := DecodeBase58(str, CheckLimit(limit));
    if bytes.None? || |bytes.value| < 4 {
      return None;
    }
    var n := |bytes.value| - 4;
    var v := bytes.value[..n];
    if hash(v)[..4] != bytes.value[n..] {
      HashDiffers(bytes.value, hash);
      return None;
    }
    assert bytes.value == v + hash(v)[..4];
    r := Some(v);
  }

  lemma HashDiffers(bytes: seq<nat>, hash: seq<nat> -> seq<nat>)
    requires IsHash(hash) && |bytes| >= 4 && hash(bytes[..|bytes| - 4])[..4] != bytes[|bytes| - 4..]
    ensures forall u: seq<nat> :: bytes != u + hash(u)[..4]
  {
    forall u: seq<nat> ensures bytes != u + hash(u)[..4] {
      var w := u + hash(u)[..4];
      assert w[..|w| - 4] == u && w[|w| - 4..] == hash(u)[..4];
    }
  }

  /** What is encoded with its hash is decoded, exactly when the limit leaves room for both. */
  lemma CheckRoundTrip(input: seq<nat>, hash: seq<nat> -> seq<nat>, limit: int)
    requires Digits(256, input) && IsHash(hash)
    ensures Decoded(Encoded(input + hash(input)[..4]), CheckLimit(limit))
         == if |input| <= limit && |input| <= INT_MAX - 4 then Some(input + hash(input)[..4]) else None
  {
    DecodeEncoded(input + hash(input)[..4], CheckLimit(limit));
  }
}
