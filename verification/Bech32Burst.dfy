/** What the checksum guarantees for whole strings. */
module Bech32Burst {
  import opened PolyMod
  import opened Bech32
  import opened Bech32Codec

  /** Strings that differ only within six consecutive characters. */
  predicate CloseStrings(s: string, t: string, at: nat) {
    |s| == |t| && forall i :: 0 <= i < |s| && !(at <= i < at + 6) ==> s[i] == t[i]
  }

  /** An accepted string with six consecutive characters of its data part replaced, other than by case or by a
      separator, is not accepted as the same encoding. */
  lemma BurstInString(s: string, t: string, at: nat)
    requires DecodedString(s).Valid? && CloseStrings(s, t, at) && LastOne(s) < at <= |s| && Lowered(s) != Lowered(t)
    requires forall i :: at <= i < |t| ==> t[i] != '1'
    ensures DecodedString(t).Valid? ==> DecodedString(t).encoding != DecodedString(s).encoding
  {
    var pos := LastOne(s);
    StringFacts(s, t, at, pos);
    if Shaped(t) {
      PartsBurst(Lowered(s[..pos]), s[pos + 1..], t[pos + 1..], at - pos - 1);
    }
  }

  lemma StringFacts(s: string, t: string, at: nat, pos: nat)
    requires CloseStrings(s, t, at) && LastOne(s) == pos < at <= |s| && Lowered(s) != Lowered(t)
    requires forall i :: at <= i < |t| ==> t[i] != '1'
    ensures LastOne(t) == pos && s[..pos] == t[..pos]
    ensures CloseStrings(s[pos + 1..], t[pos + 1..], at - pos - 1) && Lowered(s[pos + 1..]) != Lowered(t[pos + 1..])
  {
    LastOfClose(s, t, at);
    SplitClose(s, t, at, pos);
    LoweredDiffer(s, t, pos);
  }

  lemma SplitClose(s: string, t: string, at: nat, pos: nat)
    requires CloseStrings(s, t, at) && pos < at <= |s|
    ensures s[..pos] == t[..pos] && s[pos] == t[pos] && CloseStrings(s[pos + 1..], t[pos + 1..], at - pos - 1)
  {
  }

  lemma PartsBurst(hrp: string, a: string, b: string, at: nat)
    requires AllValues(a) && AllValues(b) && |a| >= 6 && CloseStrings(a, b, at) && at <= |a| && Lowered(a) != Lowered(b)
    requires DecodedParts(hrp, Values(a)).Valid?
    ensures DecodedParts(hrp, Values(b)).Valid? ==>
              DecodedParts(hrp, Values(b)).encoding != DecodedParts(hrp, Values(a)).encoding
  {
    ValueChars(a);
    ValueChars(b);
    CloseValues(a, b, at);
    BurstRejected(hrp, Values(a), Values(b), at, DecodedParts(hrp, Values(a)).encoding);
  }

  lemma CloseValues(a: string, b: string, at: nat)
    requires AllValues(a) && AllValues(b) && CloseStrings(a, b, at)
    ensures SameOutside(Values(a), Values(b), at)
  {
    forall i | 0 <= i < |a| && !(at <= i < at + 6) ensures Values(a)[i] == Values(b)[i] {
      assert a[i] == b[i];
    }
  }

  lemma {:induction false} NoneAfterLast(s: string, i: nat)
    requires LastOne(s) < i < |s|
    ensures s[i] != '1'
    decreases |s|
  {
    if i < |s| - 1 {
      NoneAfterLast(s[..|s| - 1], i);
    }
  }

  lemma LastOfClose(s: string, t: string, at: nat)
    requires CloseStrings(s, t, at) && 0 <= LastOne(s) < at && forall i :: at <= i < |t| ==> t[i] != '1'
    ensures LastOne(t) == LastOne(s)
  {
    forall i | LastOne(s) < i < |t| ensures t[i] != '1' {
      if i < at {
        NoneAfterLast(s, i);
      }
    }
    LastOneIs(t, LastOne(s));
  }

  lemma LoweredDiffer(s: string, t: string, pos: nat)
    requires |s| == |t| && pos < |s| && s[..pos] == t[..pos] && s[pos] == t[pos] && Lowered(s) != Lowered(t)
    ensures Lowered(s[pos + 1..]) != Lowered(t[pos + 1..])
  {
    var i :| 0 <= i < |s| && Lowered(s)[i] != Lowered(t)[i];
    assert Lowered(s[pos + 1..])[i - pos - 1] == Lowered(s)[i];
    assert Lowered(t[pos + 1..])[i - pos - 1] == Lowered(t)[i];
  }
}
