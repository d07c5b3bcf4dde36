/** Encoding and decoding of Bech32 and Bech32m strings. */
module Bech32Codec {
  import opened PolyMod
  import opened Bech32

  // ----- what the strings are -----

  function Byte(c: char): nat { c as int % 256 }

  function HighPart(c: char): Symbol { Byte(c) / 32 }
  function LowPart(c: char): Symbol { Byte(c) % 32 }

  function Highs(hrp: string): (r: seq<Symbol>)
    ensures |r| == |hrp|
  {
    seq(|hrp|, i requires 0 <= i < |hrp| => HighPart(hrp[i]))
  }

  function Lows(hrp: string): (r: seq<Symbol>)
    ensures |r| == |hrp|
  {
    seq(|hrp|, i requires 0 <= i < |hrp| => LowPart(hrp[i]))
  }

  function Expanded(hrp: string): seq<Symbol> { Highs(hrp) + [0] + Lows(hrp) }

  function Check(hrp: string, values: seq<Symbol>): Residue { Mod(Expanded(hrp) + values) }

  function Checksum(e: Encoding, hrp: string, values: seq<Symbol>): seq<Symbol> {
    ChecksumOf(Check(hrp, values), EncodingConstant(e))
  }

  function Chars(vs: seq<Symbol>): (r: string)
    ensures |r| == |vs|
  {
    seq(|vs|, i requires 0 <= i < |vs| => CHARSET[vs[i]])
  }

  predicate NoUpper(s: string) { forall i :: 0 <= i < |s| ==> !IsUpper(s[i]) }

  function Encoded(e: Encoding, hrp: string, values: seq<Symbol>): string {
    hrp + "1" + Chars(values + Checksum(e, hrp, values))
  }

  /** The encoding under which the checksum is right, if any. */
  datatype Verdict = Good(e: Encoding) | Bad

  function VerdictOn(check: Residue): Verdict {
    if check == EncodingConstant(BECH32) then Good(BECH32)
    else if check == EncodingConstant(BECH32M) then Good(BECH32M)
    else Bad
  }

  function Verified(hrp: string, values: seq<Symbol>): Verdict { VerdictOn(Check(hrp, values)) }

  lemma VerdictIs(check: Residue, e: Encoding)
    ensures VerdictOn(check) == Good(e) <==> check == EncodingConstant(e)
  {
    ConstantsDiffer();
  }

  predicate Printable(s: string) { forall i :: 0 <= i < |s| ==> 33 <= s[i] as int <= 126 }
  predicate HasLower(s: string) { exists i :: 0 <= i < |s| && IsLower(s[i]) }
  predicate HasUpper(s: string) { exists i :: 0 <= i < |s| && IsUpper(s[i]) }

  /** The last place of the separator, or -1. */
  function LastOne(s: string): (r: int)
    ensures -1 <= r < |s| && (r >= 0 ==> s[r] == '1')
  {
    if |s| == 0 then -1 else if s[|s| - 1] == '1' then |s| - 1 else LastOne(s[..|s| - 1])
  }

  predicate HasValue(c: char) { c as int < 128 && Rev(c as int) != -1 }

  predicate AllValues(s: string) { forall i :: 0 <= i < |s| ==> HasValue(s[i]) }

  function ValueOf(c: char): Symbol
    requires HasValue(c)
  {
    RevIs(c as int);
    Rev(c as int)
  }

  function Values(s: string): (r: seq<Symbol>)
    requires AllValues(s)
    ensures |r| == |s|
  {
    seq(|s|, i requires 0 <= i < |s| => ValueOf(s[i]))
  }

  function Lowered(s: string): (r: string)
    ensures |r| == |s|
  {
    seq(|s|, i requires 0 <= i < |s| => LowerCase(s[i]))
  }

  predicate Shaped(s: string) {
    var pos := LastOne(s);
    Printable(s) && !(HasLower(s) && HasUpper(s)) && |s| <= 90 && pos > 0 && pos + 7 <= |s| && AllValues(s[pos + 1..])
  }

  /** What decoding makes of a string with the right shape. */
  function DecodedParts(hrp: string, values: seq<Symbol>): Decoded
    requires |values| >= 6
  {
    var v := Verified(hrp, values);
    if v == Bad then Invalid else Valid(v.e, hrp, values[..|values| - 6])
  }

  function DecodedString(s: string): Decoded {
    if !Shaped(s) then Invalid
    else DecodedParts(Lowered(s[..LastOne(s)]), Values(s[LastOne(s) + 1..]))
  }

  // ----- the two round trips -----

  lemma {:induction false} LastOneIs(s: string, pos: nat)
    requires pos < |s| && s[pos] == '1' && forall i :: pos < i < |s| ==> s[i] != '1'
    ensures LastOne(s) == pos
    decreases |s|
  {
    if pos < |s| - 1 {
      LastOneIs(s[..|s| - 1], pos);
    }
  }

  lemma CharsAre(vs: seq<Symbol>)
    ensures Printable(Chars(vs)) && NoUpper(Chars(vs)) && AllValues(Chars(vs)) && Values(Chars(vs)) == vs
    ensures forall i :: 0 <= i < |vs| ==> Chars(vs)[i] != '1'
  {
    var cs := Chars(vs);
    forall i | 0 <= i < |vs|
      ensures 33 <= cs[i] as int <= 126 && !IsUpper(cs[i]) && cs[i] != '1' && Rev(cs[i] as int) == vs[i]
    {
      CharIs(vs[i]);
    }
  }

  lemma LowerIsSame(s: string)
    requires NoUpper(s)
    ensures Lowered(s) == s
  {
  }

  lemma CheckAppended(hrp: string, values: seq<Symbol>, tail: seq<Symbol>)
    ensures Check(hrp, values + tail) == PolyFrom(Check(hrp, values), Residues(tail))
  {
    assert Expanded(hrp) + (values + tail) == (Expanded(hrp) + values) + tail;
    ModAppend(Expanded(hrp) + values, tail);
  }

  lemma AppendedCheck(e: Encoding, hrp: string, values: seq<Symbol>)
    ensures Verified(hrp, values + Checksum(e, hrp, values)) == Good(e)
  {
    CheckAppended(hrp, values, Checksum(e, hrp, values));
    ChecksumReaches(Check(hrp, values), EncodingConstant(e));
    VerdictIs(Check(hrp, values + Checksum(e, hrp, values)), e);
  }

  /** A human-readable part that decoding accepts and leaves alone. */
  predicate Legal(hrp: string, values: seq<Symbol>) {
    |hrp| > 0 && Printable(hrp) && NoUpper(hrp) && |hrp| + 7 + |values| <= 90
  }

  lemma EncodedShape(hrp: string, cs: string, s: string)
    requires |hrp| > 0 && Printable(hrp) && NoUpper(hrp) && |hrp| + 1 + |cs| <= 90 && |cs| >= 6
    requires Printable(cs) && NoUpper(cs) && AllValues(cs) && (forall i :: 0 <= i < |cs| ==> cs[i] != '1')
    requires s == hrp + "1" + cs
    ensures Shaped(s) && LastOne(s) == |hrp| && s[..|hrp|] == hrp && s[|hrp| + 1..] == cs
  {
    LastOneIs(s, |hrp|);
    assert s[|hrp| + 1..] == cs;
    assert NoUpper(s);
  }

  lemma DecodeShape(hrp: string, cs: string, s: string)
    requires |hrp| > 0 && Printable(hrp) && NoUpper(hrp) && |hrp| + 1 + |cs| <= 90 && |cs| >= 6
    requires Printable(cs) && NoUpper(cs) && AllValues(cs) && (forall i :: 0 <= i < |cs| ==> cs[i] != '1')
    requires s == hrp + "1" + cs
    ensures DecodedString(s) == DecodedParts(hrp, Values(cs))
  {
    EncodedShape(hrp, cs, s);
    LowerIsSame(hrp);
  }

  lemma PartsOfEncoded(e: Encoding, hrp: string, values: seq<Symbol>)
    ensures DecodedParts(hrp, values + Checksum(e, hrp, values)) == Valid(e, hrp, values)
  {
    var all := values + Checksum(e, hrp, values);
    AppendedCheck(e, hrp, values);
    assert all[..|all| - 6] == values;
  }

  /** Decoding inverts encoding. */
  lemma DecodeEncoded(e: Encoding, hrp: string, values: seq<Symbol>)
    requires Legal(hrp, values)
    ensures DecodedString(Encoded(e, hrp, values)) == Valid(e, hrp, values)
  {
    var s, all := Encoded(e, hrp, values), values + Checksum(e, hrp, values);
    CharsAre(all);
    DecodeShape(hrp, Chars(all), s);
    PartsOfEncoded(e, hrp, values);
  }

  lemma ValueChars(s: string)
    requires AllValues(s)
    ensures Chars(Values(s)) == Lowered(s)
  {
    forall i | 0 <= i < |s| ensures Chars(Values(s))[i] == Lowered(s)[i] {
      RevIs(s[i] as int);
    }
  }

  lemma VerifiedTail(hrp: string, values: seq<Symbol>, e: Encoding)
    requires |values| >= 6 && Verified(hrp, values) == Good(e)
    ensures values == values[..|values| - 6] + Checksum(e, hrp, values[..|values| - 6])
  {
    var k := |values| - 6;
    var front, tail := values[..k], values[k..];
    assert values == front + tail;
    CheckAppended(hrp, front, tail);
    VerdictIs(Check(hrp, values), e);
    ChecksumUnique(Check(hrp, front), EncodingConstant(e), tail);
  }

  predicate SameOutside(vs: seq<Symbol>, ws: seq<Symbol>, at: nat) {
    |vs| == |ws| && forall i :: 0 <= i < |vs| && !(at <= i < at + 6) ==> vs[i] == ws[i]
  }

  /** Substitutions confined to six consecutive symbols, checksum included, are always noticed. */
  lemma BurstRejected(hrp: string, values: seq<Symbol>, changed: seq<Symbol>, at: nat, e: Encoding)
    requires Verified(hrp, values) == Good(e) && at <= |values| && SameOutside(values, changed, at) && values != changed
    ensures Verified(hrp, changed) != Good(e)
  {
    var vs, ws := Residues(values), Residues(changed);
    ModAppend(Expanded(hrp), values);
    ModAppend(Expanded(hrp), changed);
    ResiduesAreSymbols(values);
    ResiduesAreSymbols(changed);
    if vs == ws {
      ResiduesInjective(values, changed);
    }
    forall i | 0 <= i < |vs| && !(at <= i < at + 6) ensures vs[i] == ws[i] {
      ResiduesAt(values, i);
      ResiduesAt(changed, i);
    }
    BurstDetected(Mod(Expanded(hrp)), vs, ws, at);
    VerdictIs(Check(hrp, values), e);
    VerdictIs(Check(hrp, changed), e);
  }

  lemma LoweredParts(s: string, pos: nat)
    requires pos < |s| && s[pos] == '1'
    ensures Lowered(s) == Lowered(s[..pos]) + "1" + Lowered(s[pos + 1..])
  {
  }

  lemma LoweredHasNoUpper(s: string)
    ensures NoUpper(Lowered(s))
  {
  }

  /** An accepted string encodes again to its own lower-case form. */
  lemma EncodeDecoded(s: string)
    requires DecodedString(s).Valid?
    ensures var d := DecodedString(s); NoUpper(d.hrp) && Encoded(d.encoding, d.hrp, d.values) == Lowered(s)
  {
    var pos := LastOne(s);
    var hrp, values := Lowered(s[..pos]), Values(s[pos + 1..]);
    LoweredHasNoUpper(s[..pos]);
    EncodePieces(s, pos, hrp, values, Verified(hrp, values).e);
  }

  lemma EncodePieces(s: string, pos: nat, hrp: string, values: seq<Symbol>, e: Encoding)
    requires pos < |s| && s[pos] == '1' && AllValues(s[pos + 1..]) && |s| - pos - 1 >= 6
    requires hrp == Lowered(s[..pos]) && values == Values(s[pos + 1..]) && Verified(hrp, values) == Good(e)
    ensures Encoded(e, hrp, values[..|values| - 6]) == Lowered(s)
  {
    VerifiedTail(hrp, values, e);
    ValueChars(s[pos + 1..]);
    LoweredParts(s, pos);
  }

  // ----- the methods -----

  /** One symbol: shift it in, and add the multiple of the generator for the symbol shifted out. */
  method Feed(c: Residue, v: Symbol) returns (r: Residue)
    ensures r == Step(c, Bits(v))
  {
    r := Xor(Up(c), Bits(v));
    r := Xor(r, When(c[25], K1()));
    r := Xor(r, When(c[26], K2()));
    r := Xor(r, When(c[27], K4()));
    r := Xor(r, When(c[28], K8()));
    r := Xor(r, When(c[29], K16()));
  }

  method ComputePolyMod(v: seq<Symbol>) returns (c: Residue)
    ensures c == Mod(v)
  {
    c := Bits(1);
    assert v[0..] == v;
    for i := 0 to |v|
      invariant PolyFrom(c, Residues(v[i..])) == Mod(v)
    {
      assert v[i..][1..] == v[i + 1..];
      c := Feed(c, v[i]);
    }
  }

  method ExpandHRP(hrp: string) returns (ret: seq<Symbol>)
    ensures ret == Expanded(hrp)
  {
    var n := |hrp|;
    ret := seq(2 * n + 1, _ => 0);
    for i := 0 to n
      invariant |ret| == 2 * n + 1 && ret[n] == 0
      invariant forall k :: 0 <= k < i ==> ret[k] == HighPart(hrp[k])
      invariant forall k :: n < k < n + 1 + i ==> ret[k] == LowPart(hrp[k - n - 1])
    {
      var c := Byte(hrp[i]);
      ret := ret[i := c / 32][i + n + 1 := c % 32];
    }
    ret := ret[n := 0];
  }

  method VerifyChecksum(hrp: string, values: seq<Symbol>) returns (v: Verdict)
    ensures v == Verified(hrp, values)
  {
    var expanded := ExpandHRP(hrp);
    var check := ComputePolyMod(expanded + values);
    if check == EncodingConstant(BECH32) {
      return Good(BECH32);
    }
    if check == EncodingConstant(BECH32M) {
      return Good(BECH32M);
    }
    return Bad;
  }

  method CreateChecksum(e: Encoding, hrp: string, values: seq<Symbol>) returns (ret: seq<Symbol>)
    ensures ret == Checksum(e, hrp, values)
  {
    var enc := ExpandHRP(hrp);
    enc := enc + values;
    ModAppend(enc, SIX_ZEROS);
    var mod := ComputePolyMod(enc + SIX_ZEROS);
    mod := Xor(mod, EncodingConstant(e));
    ret := Split(mod);
  }

  method Split(mod: Residue) returns (ret: seq<Symbol>)
    ensures ret == Groups(mod)
  {
    ret := [];
    for i := 0 to 6
      invariant |ret| == i && forall k :: 0 <= k < i ==> ret[k] == FromBits(mod, 5 * (5 - k))
    {
      ret := ret + [FromBits(mod, 5 * (5 - i))];
    }
  }

  /** The caller must not pass upper case. */
  method Encode(e: Encoding, hrp: string, values: seq<Symbol>) returns (ret: string)
    requires NoUpper(hrp)
    ensures ret == Encoded(e, hrp, values)
  {
    var checksum := CreateChecksum(e, hrp, values);
    var spelled := Spell(values + checksum);
    ret := hrp + "1" + spelled;
  }

  method Spell(combined: seq<Symbol>) returns (ret: string)
    ensures ret == Chars(combined)
  {
    ret := "";
    for i := 0 to |combined|
      invariant |ret| == i && forall k :: 0 <= k < i ==> ret[k] == CHARSET[combined[k]]
    {
      ret := ret + [CHARSET[combined[i]]];
    }
  }

  method Decode(str: string) returns (d: Decoded)
    ensures d == DecodedString(str)
  {
    var ok := CheckCharacters(str);
    if !ok {
      return Invalid;
    }
    var pos := LastOne(str);
    if |str| > 90 || pos == -1 || pos == 0 || pos + 7 > |str| {
      return Invalid;
    }
    var good, values := ReadValues(str[pos + 1..]);
    if !good {
      return Invalid;
    }
    var hrp := ToLower(str[..pos]);
    var result := VerifyChecksum(hrp, values);
    if result == Bad {
      return Invalid;
    }
    return Valid(result.e, hrp, values[..|values| - 6]);
  }

  method CheckCharacters(str: string) returns (ok: bool)
    ensures ok == (Printable(str) && !(HasLower(str) && HasUpper(str)))
  {
    var lower, upper := false, false;
    for i := 0 to |str|
      invariant Printable(str[..i]) && lower == HasLower(str[..i]) && upper == HasUpper(str[..i])
    {
      var c := str[i];
      assert str[..i + 1] == str[..i] + [c];
      CaseStep(str[..i], c);
      if IsLower(c) {
        lower := true;
      } else if IsUpper(c) {
        upper := true;
      } else if c as int < 33 || c as int > 126 {
        return false;
      }
    }
    assert str[..|str|] == str;
    ok := !(lower && upper);
  }

  lemma CaseStep(s: string, c: char)
    ensures HasLower(s + [c]) == (HasLower(s) || IsLower(c)) && HasUpper(s + [c]) == (HasUpper(s) || IsUpper(c))
  {
    var t := s + [c];
    assert t[|s|] == c;
    if i :| 0 <= i < |s| && IsLower(s[i]) {
      assert IsLower(t[i]);
    }
    if i :| 0 <= i < |s| && IsUpper(s[i]) {
      assert IsUpper(t[i]);
    }
  }

  method ToLower(s: string) returns (r: string)
    ensures r == Lowered(s)
  {
    r := "";
    for i := 0 to |s|
      invariant |r| == i && forall k :: 0 <= k < i ==> r[k] == LowerCase(s[k])
    {
      r := r + [LowerCase(s[i])];
    }
  }

  method ReadValues(s: string) returns (good: bool, values: seq<Symbol>)
    requires Printable(s)
    ensures good == AllValues(s)
    ensures good ==> values == Values(s)
  {
    values := [];
    for i := 0 to |s|
      invariant AllValues(s[..i]) && values == Values(s[..i])
    {
      var has, rev := ReadValue(s[i]);
      if !has {
        return false, values;
      }
      ValuesStep(s, i);
      values := values + [rev];
    }
    assert s[..|s|] == s;
    good := true;
  }

  method ReadValue(c: char) returns (has: bool, v: Symbol)
    requires c as int < 128
    ensures has == HasValue(c)
    ensures has ==> v == ValueOf(c)
  {
    var rev := Rev(c as int);
    RevIs(c as int);
    if rev == -1 {
      return false, 0;
    }
    return true, rev;
  }

  lemma ValuesStep(s: string, i: nat)
    requires i < |s| && AllValues(s[..i]) && HasValue(s[i])
    ensures AllValues(s[..i + 1]) && Values(s[..i + 1]) == Values(s[..i]) + [ValueOf(s[i])]
  {
    assert s[..i + 1] == s[..i] + [s[i]];
  }
}
