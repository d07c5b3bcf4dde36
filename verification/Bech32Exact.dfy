/** Which strings decode: exactly the encodings, all in lower case or all in upper case. */
module Bech32Exact {
  import opened PolyMod
  import opened Bech32
  import opened Bech32Codec

  function UpperCase(c: char): char { if IsLower(c) then (c as int - 32) as char else c }

  function Uppered(s: string): (r: string)
    ensures |r| == |s|
  {
    seq(|s|, i requires 0 <= i < |s| => UpperCase(s[i]))
  }

  /** The table has the same values for both cases. */
  lemma CaseIsIgnored(c: char)
    requires HasValue(c)
    ensures HasValue(UpperCase(c)) && ValueOf(UpperCase(c)) == ValueOf(c)
  {
    if IsLower(c) {
      var n := c as int;
      assert (n - 32) / 16 == n / 16 - 2 && (n - 32) % 16 == n % 16 && (n / 16 == 6 || n / 16 == 7);
    }
  }

  lemma UpperValues(s: string)
    requires AllValues(s)
    ensures AllValues(Uppered(s)) && Values(Uppered(s)) == Values(s)
  {
    forall i | 0 <= i < |s| ensures HasValue(Uppered(s)[i]) && ValueOf(Uppered(s)[i]) == ValueOf(s[i]) {
      CaseIsIgnored(s[i]);
    }
  }

  lemma LowerOfUpper(s: string)
    requires NoUpper(s)
    ensures Lowered(Uppered(s)) == s
  {
  }

  lemma UpperOfLower(s: string)
    requires !HasLower(s)
    ensures Uppered(Lowered(s)) == s
  {
    forall i | 0 <= i < |s| ensures Uppered(Lowered(s))[i] == s[i] {
    }
  }

  lemma UpperChar(c: char)
    requires 33 <= c as int <= 126
    ensures 33 <= UpperCase(c) as int <= 126 && !IsLower(UpperCase(c)) && (UpperCase(c) == '1' <==> c == '1')
  {
  }

  lemma UpperChars(s: string)
    requires Printable(s)
    ensures Printable(Uppered(s)) && !HasLower(Uppered(s))
    ensures forall i :: 0 <= i < |s| ==> (Uppered(s)[i] == '1' <==> s[i] == '1')
  {
    forall i | 0 <= i < |s|
      ensures 33 <= Uppered(s)[i] as int <= 126 && !IsLower(Uppered(s)[i]) && (Uppered(s)[i] == '1' <==> s[i] == '1')
    {
      UpperChar(s[i]);
    }
  }

  /** The upper case form of a string that decodes has the same shape and parts. */
  lemma UpperShape(s: string)
    requires Shaped(s) && NoUpper(s)
    ensures var u, pos := Uppered(s), LastOne(s);
            && LastOne(u) == pos && u[..pos] == Uppered(s[..pos]) && u[pos + 1..] == Uppered(s[pos + 1..]) && Shaped(u)
  {
    var pos := LastOne(s);
    UpperLastOne(s);
    UpperSlices(s, pos);
    UpperChars(s);
    UpperValues(s[pos + 1..]);
  }

  lemma UpperLastOne(s: string)
    requires Printable(s) && LastOne(s) >= 0
    ensures LastOne(Uppered(s)) == LastOne(s)
  {
    LastOneIsLast(s);
    UpperChars(s);
    LastOneIs(Uppered(s), LastOne(s));
  }

  lemma UpperSlices(s: string, pos: nat)
    requires pos < |s|
    ensures Uppered(s)[..pos] == Uppered(s[..pos]) && Uppered(s)[pos + 1..] == Uppered(s[pos + 1..])
  {
  }

  lemma UpperDecodes(s: string)
    requires Shaped(s) && NoUpper(s)
    ensures DecodedString(Uppered(s)) == DecodedString(s)
  {
    var pos := LastOne(s);
    UpperShape(s);
    UpperValues(s[pos + 1..]);
    LowerOfUpper(s[..pos]);
    LowerIsSame(s[..pos]);
  }

  lemma {:induction false} LastOneIsLast(s: string)
    ensures forall i :: LastOne(s) < i < |s| ==> s[i] != '1'
    decreases |s|
  {
    if |s| > 0 && s[|s| - 1] != '1' {
      LastOneIsLast(s[..|s| - 1]);
      assert forall i :: 0 <= i < |s| - 1 ==> s[..|s| - 1][i] == s[i];
    }
  }

  /** An encoding in upper case decodes like the encoding. */
  lemma DecodeUpper(e: Encoding, hrp: string, values: seq<Symbol>)
    requires Legal(hrp, values)
    ensures DecodedString(Uppered(Encoded(e, hrp, values))) == Valid(e, hrp, values)
  {
    DecodeEncoded(e, hrp, values);
    EncodedHasNoUpper(e, hrp, values);
    UpperDecodes(Encoded(e, hrp, values));
  }

  lemma EncodedHasNoUpper(e: Encoding, hrp: string, values: seq<Symbol>)
    requires NoUpper(hrp)
    ensures NoUpper(Encoded(e, hrp, values))
  {
    var all := values + Checksum(e, hrp, values);
    CharsAre(all);
    JoinHasNoUpper(hrp, Chars(all));
  }

  lemma JoinHasNoUpper(hrp: string, cs: string)
    requires NoUpper(hrp) && NoUpper(cs)
    ensures NoUpper(hrp + "1" + cs)
  {
  }

  /** What was decoded is legal. */
  lemma DecodedIsLegal(s: string)
    requires DecodedString(s).Valid?
    ensures Legal(DecodedString(s).hrp, DecodedString(s).values)
  {
    LowerIsPrintable(s[..LastOne(s)]);
  }

  lemma LowerIsPrintable(s: string)
    requires Printable(s)
    ensures Printable(Lowered(s)) && NoUpper(Lowered(s))
  {
  }

  /** A string decodes to a human-readable part and values if and only if those are legal and the string is their
      encoding, or that in upper case. */
  lemma DecodesExactly(s: string, e: Encoding, hrp: string, values: seq<Symbol>)
    ensures DecodedString(s) == Valid(e, hrp, values) <==>
            Legal(hrp, values) && (s == Encoded(e, hrp, values) || s == Uppered(Encoded(e, hrp, values)))
  {
    if DecodedString(s) == Valid(e, hrp, values) {
      EncodeDecoded(s);
      DecodedIsLegal(s);
      if HasUpper(s) {
        UpperOfLower(s);
      } else {
        LowerIsSame(s);
      }
    } else if Legal(hrp, values) {
      DecodeEncoded(e, hrp, values);
      DecodeUpper(e, hrp, values);
    }
  }
}
