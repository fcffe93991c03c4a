/** Which strings decode as CashAddr addresses, said on the strings themselves. */
module CashText {
  import opened Common
  import opened CashChecksum
  import opened CashAddr
  import opened CashCodec

  // ---------------------------------------------------------------- the shape of an address

  predicate IsTextChar(c: char) { IsLower(c) || IsUpper(c) || IsDigit(c) }

  /** Letters, digits and at most one colon, which is not the first character and has no digit before it. */
  ghost predicate WellFormed(s: string) {
    && (forall i :: 0 <= i < |s| ==> IsTextChar(s[i]) || s[i] == ':')
    && (forall i, j :: 0 <= i < |s| && 0 <= j < |s| && s[i] == ':' && s[j] == ':' ==> i == j)
    && (forall j :: 0 <= j < |s| && s[j] == ':' ==> j > 0)
    && (forall i, j :: 0 <= i < j < |s| && s[j] == ':' ==> !IsDigit(s[i]))
  }

  ghost predicate HasLower(s: string) { exists i :: 0 <= i < |s| && IsLower(s[i]) }

  ghost predicate HasUpper(s: string) { exists i :: 0 <= i < |s| && IsUpper(s[i]) }

  /** What follows the colon, or everything when there is none. */
  function After(s: string): string { s[|s| - AfterColon(s)..] }

  /** The prefix in lower case, or the default when there is no colon. */
  function PrefixText(s: string, defaultPrefix: string): string {
    if AfterColon(s) == |s| then defaultPrefix else LowerAll(s[..|s| - AfterColon(s) - 1])
  }

  /** One more character. */
  lemma WellFormedGrows(s: string, c: char)
    ensures WellFormed(s + [c]) <==>
              && WellFormed(s)
              && (IsTextChar(c) || (c == ':' && s != "" && ':' !in s && forall i :: 0 <= i < |s| ==> !IsDigit(s[i])))
  {
    var t := s + [c];
    if WellFormed(t) {
      assert forall i :: 0 <= i < |s| ==> s[i] == t[i];
      assert t[|s|] == c;
    }
  }

  /** The scan passes exactly the well-formed strings. */
  lemma {:induction false} ScanIff(s: string, i: nat)
    requires i <= |s|
    ensures ScanTo(s, i).Some? <==> WellFormed(s[..i])
  {
    if i > 0 {
      ScanIff(s, i - 1);
      assert s[..i] == s[..i - 1] + [s[i - 1]];
      WellFormedGrows(s[..i - 1], s[i - 1]);
      if ScanTo(s, i - 1).Some? {
        var st := ScanTo(s, i - 1).value;
        ScanSound(s, i - 1);
        hide WellFormed, ScanTo;
        ColonSeen(s, i - 1, st);
        ScanUnfold(s, i);
      } else {
        StaysRefused(s, i - 1, i);
      }
    }
  }

  lemma ScanUnfold(s: string, i: nat)
    requires 0 < i <= |s| && ScanTo(s, i - 1).Some?
    ensures ScanTo(s, i) == ScanStep(ScanTo(s, i - 1).value, s[i - 1], i - 1)
  {
  }

  lemma ColonSeen(s: string, i: nat, st: Scan)
    requires i <= |s| && ScanOk(s, i, st)
    ensures st.prefixSize != 0 <==> ':' in s[..i]
    ensures st.hasNumber <==> !forall k :: 0 <= k < |s[..i]| ==> !IsDigit(s[..i][k])
  {
    if ':' in s[..i] {
      var k :| 0 <= k < i && s[k] == ':';
      assert !IsTextChar(s[k]);
    }
    if st.hasNumber {
      var k :| 0 <= k < i && IsDigit(s[k]);
      assert IsDigit(s[..i][k]);
    }
  }

  // ---------------------------------------------------------------- exactly what is accepted

  /** The parts of a string that passes the scan. */
  lemma Parts(s: string, st: Scan, defaultPrefix: string)
    requires ScanOk(s, |s|, st)
    ensures st.prefixSize < |s| || st.prefixSize == 0
    ensures RestOf(s, st) == After(s) && PrefixOf(s, st, defaultPrefix) == PrefixText(s, defaultPrefix)
    ensures (st.lower <==> HasLower(s)) && (st.upper <==> HasUpper(s))
  {
    RestLength(s, st);
  }

  /** A string is accepted with this prefix and payload if and only if it is well formed and in one case, the
      prefix is what stands before the colon or else the default, and what follows is spelled with the
      alphabet and is the payload with the checksum created for it. */
  lemma AcceptedIff(s: string, defaultPrefix: string, prefix: string, payload: seq<Value>)
    ensures Decoded(s, defaultPrefix) == Accepted(prefix, payload) <==>
              && WellFormed(s) && !(HasLower(s) && HasUpper(s)) && AllValues(After(s))
              && prefix == PrefixText(s, defaultPrefix)
              && Values(After(s)) == payload + Checksum(prefix, payload)
  {
    assert s[..|s|] == s;
    ScanIff(s, |s|);
    if ScanTo(s, |s|).Some? {
      var st := ScanTo(s, |s|).value;
      ScanSound(s, |s|);
      Parts(s, st, defaultPrefix);
      hide WellFormed, ScanTo, ScanOk, AllValues, Values, Checksum, After, PrefixText, HasLower, HasUpper;
      if AllValues(After(s)) {
        CheckedIff(PrefixText(s, defaultPrefix), Values(After(s)), prefix, payload);
      }
    }
  }

  lemma CheckedIff(own: string, values: seq<Value>, prefix: string, payload: seq<Value>)
    ensures Checked(own, values) == Accepted(prefix, payload) <==>
              prefix == own && values == payload + Checksum(prefix, payload)
  {
    hide Verifies, Expand, Checksum;
    if prefix == own && values == payload + Checksum(prefix, payload) {
      CreatedVerifies(prefix, payload);
      assert values[..|values| - 8] == payload;
    } else if Checked(own, values) == Accepted(prefix, payload) {
      RejoinSum(prefix, payload, values);
    }
  }

  /** Mixed case is refused. */
  lemma MixedRefused(s: string, defaultPrefix: string)
    requires HasLower(s) && HasUpper(s)
    ensures Decoded(s, defaultPrefix) == Refused
  {
    if ScanTo(s, |s|).Some? {
      ScanSound(s, |s|);
      hide ScanTo;
    }
  }

  // ---------------------------------------------------------------- upper case

  lemma LowerTwice(s: string)
    ensures LowerAll(LowerAll(s)) == LowerAll(s)
  {
  }

  lemma LowerSlice(s: string, i: nat, j: nat)
    requires i <= j <= |s|
    ensures LowerAll(s)[i..j] == LowerAll(s[i..j])
  {
  }

  /** Lower case scans like the original, with nothing in upper case. */
  lemma {:induction false} CaseScan(s: string, i: nat)
    requires i <= |s|
    ensures var a, b := ScanTo(s, i), ScanTo(LowerAll(s), i);
            && (a.Some? <==> b.Some?)
            && (a.Some? ==> b.value == a.value.(lower := a.value.lower || a.value.upper, upper := false))
  {
    if i > 0 {
      CaseScan(s, i - 1);
    }
  }

  lemma CaseValues(s: string)
    ensures AllValues(LowerAll(s)) <==> AllValues(s)
    ensures AllValues(s) ==> Values(LowerAll(s)) == Values(s)
  {
    hide ValueOf;
    var t := LowerAll(s);
    assert forall i :: 0 <= i < |s| ==> CharsetRev(t[i]) == CharsetRev(s[i]);
    if AllValues(t) {
      forall i | 0 <= i < |s| ensures CharsetRev(s[i]).Some? { assert CharsetRev(t[i]).Some?; }
    }
  }

  /** An address in capitals decodes like the same address in lower case. */
  lemma CapitalsDecode(s: string, defaultPrefix: string)
    requires !HasLower(s)
    ensures Decoded(s, defaultPrefix) == Decoded(LowerAll(s), defaultPrefix)
  {
    var t := LowerAll(s);
    CaseScan(s, |s|);
    if ScanTo(s, |s|).Some? {
      var st, st' := ScanTo(s, |s|).value, ScanTo(t, |s|).value;
      ScanSound(s, |s|);
      ScanSound(t, |s|);
      SeparatorInside(s, st);
      LowerSlice(s, 0, st.prefixSize);
      LowerTwice(s[..st.prefixSize]);
      assert s[0..st.prefixSize] == s[..st.prefixSize] && t[0..st.prefixSize] == t[..st.prefixSize];
      var from := if st.prefixSize == 0 then 0 else st.prefixSize + 1;
      LowerSlice(s, from, |s|);
      assert s[from..|s|] == RestOf(s, st) && t[from..|s|] == RestOf(t, st');
      CaseValues(RestOf(s, st));
      assert !st.lower;
      hide ScanTo, ScanOk, AllValues, Values, Checked, LowerAll;
    }
  }

  function UpperCase(c: char): char { if IsLower(c) then (c as int - 32) as char else c }

  function UpperAll(s: string): (r: string)
    ensures |r| == |s| && forall i :: 0 <= i < |s| ==> r[i] == UpperCase(s[i])
  {
    seq(|s|, i requires 0 <= i < |s| => UpperCase(s[i]))
  }

  /** Encoding, writing the result in capitals and decoding it gives prefix and payload back. */
  lemma DecodeCapitals(prefix: string, payload: seq<Value>, defaultPrefix: string)
    requires prefix != "" && forall k :: 0 <= k < |prefix| ==> IsLower(prefix[k])
    ensures Decoded(UpperAll(Encoded(prefix, payload)), defaultPrefix) == Accepted(prefix, payload)
  {
    var values := payload + Checksum(prefix, payload);
    var s := Encoded(prefix, payload);
    TextValues(values);
    hide Checksum, Decoded, Text;
    assert s == prefix + ":" + Text(values);
    forall i | 0 <= i < |s| ensures IsLower(s[i]) || IsDigit(s[i]) || s[i] == ':' {
      if i > |prefix| { assert s[i] == Text(values)[i - |prefix| - 1]; }
    }
    assert LowerAll(UpperAll(s)) == s;
    CapitalsDecode(UpperAll(s), defaultPrefix);
    DecodeEncode(prefix, payload, defaultPrefix);
  }
}
