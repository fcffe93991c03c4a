/** Encoding and decoding of CashAddr strings (src/cashaddr.cpp). */
module CashCodec {
  import opened Common
  import opened CashChecksum
  import opened CashAddr

  predicate IsLower(c: char) { 'a' <= c <= 'z' }

  predicate IsUpper(c: char) { 'A' <= c <= 'Z' }

  predicate IsDigit(c: char) { '0' <= c <= '9' }

  /** c | 0x20, for letters and digits. */
  function LowerCase(c: char): char { if IsUpper(c) then (c as int + 32) as char else c }

  function LowerAll(s: string): (r: string)
    ensures |r| == |s| && forall i :: 0 <= i < |s| ==> r[i] == LowerCase(s[i])
  {
    seq(|s|, i requires 0 <= i < |s| => LowerCase(s[i]))
  }

  /** The table CHARSET_REV takes either case. */
  function CharsetRev(c: char): Option<Value> { ValueOf(LowerCase(c)) }

  function Low5(c: char): Value { (c as int % 32) as bv40 }

  /** The prefix as the checksum sees it. */
  function Expand(prefix: string): (r: seq<Value>)
    ensures |r| == |prefix| + 1
  {
    seq(|prefix|, i requires 0 <= i < |prefix| => Low5(prefix[i])) + [0]
  }

  function Checksum(prefix: string, payload: seq<Value>): (r: seq<Value>)
    ensures |r| == 8
  {
    Groups(Residue(Expand(prefix) + payload, 8))
  }

  /** The created checksum verifies, for every prefix and payload. */
  lemma CreatedVerifies(prefix: string, payload: seq<Value>)
    ensures Verifies(Expand(prefix) + (payload + Checksum(prefix, payload)))
  {
    hide Expand, Groups, Residue, Verifies;
    var v := Expand(prefix) + payload;
    ChecksumVerifies(v);
    assert Expand(prefix) + (payload + Checksum(prefix, payload)) == v + Checksum(prefix, payload);
  }

  /** No other checksum does. */
  lemma ChecksumUnique(prefix: string, payload: seq<Value>, sum: seq<Value>)
    requires |sum| == 8 && Verifies(Expand(prefix) + (payload + sum))
    ensures sum == Checksum(prefix, payload)
  {
    hide Expand, Groups, Residue, Verifies, Checksum;
    CreatedVerifies(prefix, payload);
    var head := Expand(prefix);
    var v, w := head + (payload + sum), head + (payload + Checksum(prefix, payload));
    var i := |head| + |payload|;
    BurstDetected(v, w, i, 8);
    assert v[i..] == sum && w[i..] == Checksum(prefix, payload);
  }

  function Text(values: seq<Value>): (t: string)
    ensures |t| == |values| && forall i :: 0 <= i < |values| ==> t[i] == CharOf(values[i])
  {
    seq(|values|, i requires 0 <= i < |values| => CharOf(values[i]))
  }

  function Encoded(prefix: string, payload: seq<Value>): string {
    prefix + ":" + Text(payload + Checksum(prefix, payload))
  }

  predicate AllValues(s: string) { forall i :: 0 <= i < |s| ==> CharsetRev(s[i]).Some? }

  function Values(s: string): (r: seq<Value>)
    requires AllValues(s)
    ensures |r| == |s| && forall i :: 0 <= i < |s| ==> r[i] == CharsetRev(s[i]).value
  {
    seq(|s|, i requires 0 <= i < |s| => CharsetRev(s[i]).value)
  }

  // ---------------------------------------------------------------- the first pass over the string

  datatype Scan = Scan(lower: bool, upper: bool, hasNumber: bool, prefixSize: nat)

  function ScanStep(st: Scan, c: char, i: nat): Option<Scan> {
    if IsLower(c) then Some(st.(lower := true))
    else if IsUpper(c) then Some(st.(upper := true))
    else if IsDigit(c) then Some(st.(hasNumber := true))
    else if c == ':' then
      if st.hasNumber || i == 0 || st.prefixSize != 0 then None else Some(st.(prefixSize := i))
    else None
  }

  function ScanTo(s: string, i: nat): Option<Scan>
    requires i <= |s|
  {
    if i == 0 then Some(Scan(false, false, false, 0))
    else
      match ScanTo(s, i - 1)
      case None => None
      case Some(st) => ScanStep(st, s[i - 1], i - 1)
  }

  /** What passing the scan says about the string. */
  ghost predicate ScanOk(s: string, i: nat, st: Scan)
    requires i <= |s|
  {
    && (st.prefixSize > 0 ==> st.prefixSize < i && s[st.prefixSize] == ':')
    && (forall k :: 0 <= k < i && (st.prefixSize == 0 || k != st.prefixSize) ==>
        IsLower(s[k]) || IsUpper(s[k]) || IsDigit(s[k]))
    && (forall k :: 0 <= k < st.prefixSize && k < i ==> IsLower(s[k]) || IsUpper(s[k]))
    && (st.hasNumber <==> exists k :: 0 <= k < i && IsDigit(s[k]))
    && (st.lower <==> exists k :: 0 <= k < i && IsLower(s[k]))
    && (st.upper <==> exists k :: 0 <= k < i && IsUpper(s[k]))
  }

  lemma {:induction false} ScanSound(s: string, i: nat)
    requires i <= |s| && ScanTo(s, i).Some?
    ensures ScanOk(s, i, ScanTo(s, i).value)
  {
    if i > 0 {
      ScanSound(s, i - 1);
    }
  }

  /** An encoder's output passes. */
  lemma {:induction false} ScanComplete(prefix: string, rest: string, i: nat)
    requires prefix != "" && i <= |prefix| + 1 + |rest|
    requires forall k :: 0 <= k < |prefix| ==> IsLower(prefix[k])
    requires forall k :: 0 <= k < |rest| ==> IsLower(rest[k]) || IsDigit(rest[k])
    ensures var r := ScanTo(prefix + ":" + rest, i);
            && r.Some? && !r.value.upper
            && r.value.prefixSize == (if i <= |prefix| then 0 else |prefix|)
            && (i <= |prefix| ==> !r.value.hasNumber)
    decreases i
  {
    var s := prefix + ":" + rest;
    if i > 0 {
      ScanComplete(prefix, rest, i - 1);
      assert i - 1 < |prefix| ==> s[i - 1] == prefix[i - 1];
      assert i - 1 > |prefix| ==> s[i - 1] == rest[i - 2 - |prefix|];
    }
  }

  // ---------------------------------------------------------------- decoding

  /** TooShort stands for a list that verifies but has fewer values than a checksum; what the
      source then returns is not defined. `TooShortIff` says when that is. */
  datatype Outcome = Refused | Accepted(prefix: string, payload: seq<Value>) | TooShort

  function PrefixOf(s: string, st: Scan, defaultPrefix: string): string
    requires st.prefixSize <= |s|
  {
    if st.prefixSize == 0 then defaultPrefix else LowerAll(s[..st.prefixSize])
  }

  /** What comes after the prefix and its colon. */
  function RestOf(s: string, st: Scan): string
    requires st.prefixSize < |s| || st.prefixSize == 0
  {
    if st.prefixSize == 0 then s else s[st.prefixSize + 1..]
  }

  function Checked(prefix: string, values: seq<Value>): Outcome {
    if !Verifies(Expand(prefix) + values) then Refused
    else if |values| < 8 then TooShort
    else Accepted(prefix, values[..|values| - 8])
  }

  function Decoded(s: string, defaultPrefix: string): Outcome {
    match ScanTo(s, |s|)
    case None => Refused
    case Some(st) =>
      ScanSound(s, |s|);
      if st.upper && st.lower then Refused
      else if !AllValues(RestOf(s, st)) then Refused
      else Checked(PrefixOf(s, st, defaultPrefix), Values(RestOf(s, st)))
  }

  lemma LowerIsOwn(s: string)
    requires forall i :: 0 <= i < |s| ==> !IsUpper(s[i])
    ensures LowerAll(s) == s
  {
  }

  /** Text reads back as the values it was made from. */
  lemma TextValues(values: seq<Value>)
    ensures AllValues(Text(values)) && Values(Text(values)) == values
    ensures forall i :: 0 <= i < |values| ==> IsLower(Text(values)[i]) || IsDigit(Text(values)[i])
  {
    hide CharOf, ValueOf;
    forall i | 0 <= i < |values|
      ensures CharsetRev(Text(values)[i]) == Some(values[i]) && (IsLower(Text(values)[i]) || IsDigit(Text(values)[i]))
    {
      ValueOfChar(values[i]);
      CharOfValue(CharOf(values[i]));
    }
  }

  /** And values spell the text they were read from, in lower case. */
  lemma ValuesText(s: string)
    requires AllValues(s)
    ensures Text(Values(s)) == LowerAll(s)
  {
    hide CharOf, ValueOf;
    forall i | 0 <= i < |s| ensures Text(Values(s))[i] == LowerCase(s[i]) {
      CharOfValue(LowerCase(s[i]));
    }
  }

  /** Decoding undoes encoding. */
  lemma DecodeEncode(prefix: string, payload: seq<Value>, defaultPrefix: string)
    requires prefix != "" && forall k :: 0 <= k < |prefix| ==> IsLower(prefix[k])
    ensures Decoded(Encoded(prefix, payload), defaultPrefix) == Accepted(prefix, payload)
  {
    hide Expand, Verifies, Checksum, ScanTo, CharOf, ValueOf, Text, Values, AllValues;
    var values := payload + Checksum(prefix, payload);
    var rest := Text(values);
    var s := Encoded(prefix, payload);
    assert s == prefix + ":" + rest && |s| == |prefix| + 1 + |rest|;
    TextValues(values);
    ScanComplete(prefix, rest, |s|);
    var st := ScanTo(s, |s|).value;
    assert s[..|prefix|] == prefix && s[|prefix| + 1..] == rest;
    LowerIsOwn(prefix);
    assert PrefixOf(s, st, defaultPrefix) == prefix && RestOf(s, st) == rest;
    CreatedVerifies(prefix, payload);
    assert values[..|values| - 8] == payload;
  }

  /** Encoding undoes decoding, up to case and a prefix that was left out. */
  lemma EncodeDecode(s: string, defaultPrefix: string)
    requires Decoded(s, defaultPrefix).Accepted?
    ensures var r := Decoded(s, defaultPrefix);
            && ScanTo(s, |s|).Some?
            && Encoded(r.prefix, r.payload) ==
                 if ScanTo(s, |s|).value.prefixSize == 0 then defaultPrefix + ":" + LowerAll(s) else LowerAll(s)
  {
    hide Expand, Verifies, Checksum, ScanTo, CharOf, ValueOf, Text, Values, AllValues, LowerAll, LowerCase, Decoded;
    AcceptedParts(s, defaultPrefix);
    var st := ScanTo(s, |s|).value;
    var rest := RestOf(s, st);
    var values := Values(rest);
    var r := Decoded(s, defaultPrefix);
    RejoinSum(r.prefix, r.payload, values);
    ValuesText(rest);
    if st.prefixSize > 0 {
      JoinLower(s, st.prefixSize);
    }
  }

  /** What an accepted string went through. */
  lemma AcceptedParts(s: string, defaultPrefix: string)
    requires Decoded(s, defaultPrefix).Accepted?
    ensures var r := Decoded(s, defaultPrefix);
            && ScanTo(s, |s|).Some?
            && var st := ScanTo(s, |s|).value;
            && (st.prefixSize > 0 ==> st.prefixSize < |s| && s[st.prefixSize] == ':')
            && r.prefix == PrefixOf(s, st, defaultPrefix)
            && AllValues(RestOf(s, st))
            && var values := Values(RestOf(s, st));
            && |values| >= 8 && Verifies(Expand(r.prefix) + values) && r.payload == values[..|values| - 8]
  {
    ScanSound(s, |s|);
    hide Expand, Verifies, ScanTo, ValueOf, Values, AllValues, LowerAll, LowerCase;
  }

  /** The last eight values are the only checksum there can be. */
  lemma RejoinSum(prefix: string, payload: seq<Value>, values: seq<Value>)
    requires |values| >= 8 && Verifies(Expand(prefix) + values) && payload == values[..|values| - 8]
    ensures payload + Checksum(prefix, payload) == values
  {
    hide Expand, Verifies, Checksum;
    var sum := values[|values| - 8..];
    assert values == payload + sum;
    ChecksumUnique(prefix, payload, sum);
  }

  lemma JoinLower(s: string, k: nat)
    requires k < |s| && s[k] == ':'
    ensures LowerAll(s) == LowerAll(s[..k]) + ":" + LowerAll(s[k + 1..])
  {
    var joined := LowerAll(s[..k]) + ":" + LowerAll(s[k + 1..]);
    forall i | 0 <= i < |s| ensures LowerAll(s)[i] == joined[i] {
      assert i > k ==> joined[i] == LowerAll(s[k + 1..])[i - k - 1];
    }
  }

  // ---------------------------------------------------------------- lists too short to hold a checksum

  /** How many characters follow the last colon, or there are when there is none. */
  function AfterColon(s: string): (n: nat)
    ensures n <= |s|
  {
    if s == "" || s[|s| - 1] == ':' then 0 else AfterColon(s[..|s| - 1]) + 1
  }

  lemma {:induction false} AfterColonIs(s: string, k: nat)
    requires k <= |s| && (k > 0 ==> s[k - 1] == ':') && ':' !in s[k..]
    ensures AfterColon(s) == |s| - k
    decreases |s|
  {
    if k < |s| {
      assert s[|s| - 1] == s[k..][|s| - 1 - k];
      assert s[..|s| - 1][k..] == s[k..][..|s| - 1 - k];
      AfterColonIs(s[..|s| - 1], k);
    }
  }

  /** In a string that passes the scan that is what is read as values. */
  lemma RestLength(s: string, st: Scan)
    requires ScanOk(s, |s|, st)
    ensures st.prefixSize < |s| || st.prefixSize == 0
    ensures |RestOf(s, st)| == AfterColon(s)
  {
    var k := if st.prefixSize == 0 then 0 else st.prefixSize + 1;
    forall i | k <= i < |s| ensures s[i] != ':' {
    }
    AfterColonIs(s, k);
  }

  /** The string is read up to the checksum test, has under eight values, and these are the low groups
      of its prefix's residue, the groups above being zero. */
  ghost predicate ShortAddress(s: string, defaultPrefix: string) {
    && ScanTo(s, |s|).Some? && AfterColon(s) < 8
    && var st := ScanTo(s, |s|).value;
    && !(st.upper && st.lower)
    && (st.prefixSize < |s| || st.prefixSize == 0)
    && AllValues(RestOf(s, st))
    && var values := Values(RestOf(s, st));
    && |values| < 8
    && Groups(Residue(Expand(PrefixOf(s, st, defaultPrefix)), |values|)) == ZeroList(8 - |values|) + values
  }

  /** When decoding leaves the defined range. */
  lemma TooShortIff(s: string, defaultPrefix: string)
    ensures Decoded(s, defaultPrefix).TooShort? <==> ShortAddress(s, defaultPrefix)
  {
    hide ScanTo, ScanOk, AllValues, Values, Expand, Groups, Residue, AfterColon, Checked, PrefixOf, RestOf, ZeroList;
    if ScanTo(s, |s|).Some? {
      var st := ScanTo(s, |s|).value;
      ScanSound(s, |s|);
      RestLength(s, st);
      if AllValues(RestOf(s, st)) {
        CheckedShort(PrefixOf(s, st, defaultPrefix), Values(RestOf(s, st)));
      }
    }
  }

  lemma CheckedShort(prefix: string, values: seq<Value>)
    ensures Checked(prefix, values).TooShort? <==>
              |values| < 8 && Groups(Residue(Expand(prefix), |values|)) == ZeroList(8 - |values|) + values
  {
    hide Verifies, Expand, Groups, Residue;
    if |values| < 8 {
      TailVerifiesIff(Expand(prefix), values);
    }
  }

  /** Eight characters after the colon are enough to stay in it. */
  lemma EightCharactersSuffice(s: string, defaultPrefix: string)
    requires AfterColon(s) >= 8
    ensures !Decoded(s, defaultPrefix).TooShort?
  {
    TooShortIff(s, defaultPrefix);
  }

  // ---------------------------------------------------------------- the loops

  method VerifyChecksum(prefix: string, payload: seq<Value>) returns (ok: bool)
    ensures ok <==> Verifies(Expand(prefix) + payload)
  {
    var r := PolyMod(Expand(prefix) + payload);
    ok := r == 0;
  }

  method CreateChecksum(prefix: string, payload: seq<Value>) returns (ret: seq<Value>)
    ensures ret == Checksum(prefix, payload)
  {
    hide Fold, Xor, Expand, Group;
    var mod := PolyMod(Expand(prefix) + payload + ZeroList(8));
    ret := [];
    for i := 0 to 8
      invariant |ret| == i && forall k :: 0 <= k < i ==> ret[k] == Group(mod, k)
    {
      ret := ret + [Group(mod, i)];
    }
    assert ret == Groups(mod);
  }

  method Encode(prefix: string, payload: seq<Value>) returns (ret: string)
    ensures ret == Encoded(prefix, payload)
  {
    hide Checksum, CharOf;
    var checksum := CreateChecksum(prefix, payload);
    var combined := payload + checksum;
    ret := prefix + ":";
    for i := 0 to |combined|
      invariant ret == prefix + ":" + Text(combined[..i])
    {
      assert combined[..i + 1] == combined[..i] + [combined[i]];
      assert Text(combined[..i + 1]) == Text(combined[..i]) + [CharOf(combined[i])];
      ret := ret + [CharOf(combined[i])];
    }
    assert combined[..|combined|] == combined;
  }

  method Decode(str: string, defaultPrefix: string) returns (r: Outcome)
    ensures r == Decoded(str, defaultPrefix)
    ensures r.TooShort? <==> ShortAddress(str, defaultPrefix)
    ensures AfterColon(str) >= 8 ==> !r.TooShort?
  {
    TooShortIff(str, defaultPrefix);
    if AfterColon(str) >= 8 { EightCharactersSuffice(str, defaultPrefix); }
    hide Verifies, Expand, ValueOf, ScanOk, Values, ShortAddress;
    var scan := ScanString(str);
    if scan.None? {
      return Refused;
    }
    var st := scan.value;
    ScanSound(str, |str|);
    SeparatorInside(str, st);
    if st.upper && st.lower {
      return Refused;
    }
    var prefix := PrefixOf(str, st, defaultPrefix);
    var rest := RestOf(str, st);
    var ok, values := ReadValues(rest);
    if !ok {
      return Refused;
    }
    var good := VerifyChecksum(prefix, values);
    if !good {
      return Refused;
    }
    r := if |values| < 8 then TooShort else Accepted(prefix, values[..|values| - 8]);
  }

  lemma SeparatorInside(s: string, st: Scan)
    requires ScanOk(s, |s|, st)
    ensures st.prefixSize < |s| || st.prefixSize == 0
  {
  }

  method ScanString(str: string) returns (r: Option<Scan>)
    ensures r == ScanTo(str, |str|)
  {
    var st := Scan(false, false, false, 0);
    for i := 0 to |str|
      invariant ScanTo(str, i) == Some(st)
    {
      var next := ScanStep(st, str[i], i);
      if next.None? {
        StaysRefused(str, i + 1, |str|);
        return None;
      }
      st := next.value;
    }
    r := Some(st);
  }

  lemma {:induction false} StaysRefused(s: string, i: nat, j: nat)
    requires i <= j <= |s| && ScanTo(s, i).None?
    ensures ScanTo(s, j).None?
    decreases j
  {
    if i < j {
      StaysRefused(s, i, j - 1);
    }
  }

  method ReadValues(s: string) returns (ok: bool, values: seq<Value>)
    ensures ok <==> AllValues(s)
    ensures ok ==> values == Values(s)
  {
    hide ValueOf;
    values := [];
    for i := 0 to |s|
      invariant |values| == i
      invariant forall k :: 0 <= k < i ==> CharsetRev(s[k]) == Some(values[k])
    {
      var v := CharsetRev(s[i]);
      if v.None? {
        return false, values;
      }
      values := values + [v.value];
    }
    ok := true;
    assert values == Values(s);
  }
}
