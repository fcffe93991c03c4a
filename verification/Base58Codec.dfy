/** Encoding and decoding of src/base58.cpp: the loops over a digit buffer, and the bijection they compute. */
module Base58Codec {
  import opened Common
  import opened Numerals
  import opened Base58

  /** How many leading elements satisfy p. */
  function Run<T>(s: seq<T>, p: T -> bool): (n: nat)
    ensures n <= |s| && (forall i :: 0 <= i < n ==> p(s[i])) && (n < |s| ==> !p(s[n]))
  {
    if s != [] && p(s[0]) then 1 + Run(s[1..], p) else 0
  }

  lemma {:induction false} RunIs<T>(s: seq<T>, p: T -> bool, n: nat)
    requires n <= |s| && (forall i :: 0 <= i < n ==> p(s[i])) && (n < |s| ==> !p(s[n]))
    ensures Run(s, p) == n
  {
    if n > 0 {
      RunIs(s[1..], p, n - 1);
    }
  }

  predicate IsZero(x: nat) { x == 0 }

  predicate IsOne(c: char) { c == '1' }

  predicate NotSpace(c: char) { !IsSpace(c) }

  predicate NotNul(c: char) { c != '\0' }

  function Text(ds: seq<nat>): (t: string)
    requires InBase(58, ds)
    ensures |t| == |ds| && forall i :: 0 <= i < |ds| ==> t[i] == Letter(ds[i])
  {
    seq(|ds|, i requires 0 <= i < |ds| => Letter(ds[i]))
  }

  function Ones(n: nat): (t: string)
    ensures |t| == n && forall i :: 0 <= i < n ==> t[i] == '1'
  {
    seq(n, _ => '1')
  }

  predicate AllValid(t: string) { forall i :: 0 <= i < |t| ==> MapBase58(t[i]) != -1 }

  function Values(t: string): (ds: seq<nat>)
    requires AllValid(t)
    ensures |ds| == |t| && forall i :: 0 <= i < |t| ==> ds[i] == MapBase58(t[i])
    ensures InBase(58, ds)
  {
    seq(|t|, i requires 0 <= i < |t| => MapInverse(t[i]); MapBase58(t[i]))
  }

  /** One '1' for each leading zero byte, then the number in base 58. */
  function Encoded(bytes: seq<nat>): string
    requires InBase(256, bytes)
  {
    Ones(Run(bytes, IsZero)) + Text(Digits(58, Val(256, bytes)))
  }

  /** The C string with leading and trailing spaces taken off, or None if there is a space inside. */
  function Token(s: string): Option<string> {
    var a := s[..Run(s, NotNul)];
    var b := a[Run(a, IsSpace)..];
    var n := Run(b, NotSpace);
    if Run(b[n..], IsSpace) == |b| - n then Some(b[..n]) else None
  }

  /** One zero byte for each leading '1', then the number in base 256. */
  function Decoded(s: string): Option<seq<nat>> {
    match Token(s)
    case None => None
    case Some(t) => if AllValid(t) then Some(Zeros(Run(t, IsOne)) + Digits(256, Val(58, Values(t)))) else None
  }

  // ---------------------------------------------------------------- the bijection

  /** Leading zeros and the rest, which has none. */
  lemma SplitZeros(b: nat, ds: seq<nat>)
    requires b >= 2 && InBase(b, ds)
    ensures ds == Zeros(Run(ds, IsZero)) + Digits(b, Val(b, ds))
  {
    var z := Run(ds, IsZero);
    assert ds == ds[..z] + ds[z..];
    assert ds[..z] == Zeros(z);
    ValSkipZeros(b, ds[..z], ds[z..]);
    DigitsVal(b, ds[z..]);
  }

  /** A plain string is its own token. */
  lemma PlainToken(s: string)
    requires forall i :: 0 <= i < |s| ==> NotSpace(s[i]) && NotNul(s[i])
    ensures Token(s) == Some(s)
  {
    RunIs(s, NotNul, |s|);
    assert s[..|s|] == s;
    RunIs(s, IsSpace, 0);
    assert s[0..] == s;
    RunIs(s, NotSpace, |s|);
    assert s[|s|..] == [];
  }

  /** The digits behind an encoding are the byte string's zeros and number. */
  lemma EncodedValues(bytes: seq<nat>)
    requires InBase(256, bytes)
    ensures var t := Encoded(bytes); var v := Val(256, bytes);
            && AllValid(t) && Values(t) == Zeros(Run(bytes, IsZero)) + Digits(58, v)
            && Run(t, IsOne) == Run(bytes, IsZero)
            && forall i :: 0 <= i < |t| ==> NotSpace(t[i]) && NotNul(t[i])
  {
    var t := Encoded(bytes);
    var z, ds := Run(bytes, IsZero), Digits(58, Val(256, bytes));
    ValDigits(58, Val(256, bytes));
    forall i | 0 <= i < |t|
      ensures MapBase58(t[i]) == (Zeros(z) + ds)[i] && NotSpace(t[i]) && NotNul(t[i])
    {
      if i >= z {
        LetterInverse(ds[i - z]);
      }
    }
    assert Values(t) == Zeros(z) + ds;
    if ds != [] {
      LetterInverse(ds[0]);
      assert t[z] == Letter(ds[0]);
    }
    RunIs(t, IsOne, z);
  }

  /** Decoding undoes encoding, for every byte string. */
  lemma DecodeEncode(bytes: seq<nat>)
    requires InBase(256, bytes)
    ensures Decoded(Encoded(bytes)) == Some(bytes)
  {
    var t, v := Encoded(bytes), Val(256, bytes);
    var z := Run(bytes, IsZero);
    EncodedValues(bytes);
    PlainToken(t);
    ValDigits(58, v);
    ValSkipZeros(58, Zeros(z), Digits(58, v));
    SplitZeros(256, bytes);
  }

  /** Encoding undoes decoding, up to the spaces that decoding takes off. */
  lemma EncodeDecode(s: string)
    requires Decoded(s).Some?
    ensures InBase(256, Decoded(s).value) && Token(s) == Some(Encoded(Decoded(s).value))
  {
    hide Val, Digits, Run, Token;
    var t := Token(s).value;
    var ds := Values(t);
    var z, v := Run(t, IsOne), Val(58, ds);
    var bytes := Zeros(z) + Digits(256, v);
    ValDigits(256, v);
    ValSkipZeros(256, Zeros(z), Digits(256, v));
    RunIs(bytes, IsZero, z);
    OnesAreZeros(t);
    SplitZeros(58, ds);
    forall i | 0 <= i < |t| ensures t[i] == Encoded(bytes)[i] {
      MapInverse(t[i]);
      LetterInverse(0);
    }
    assert t == Encoded(bytes);
  }

  lemma OnesAreZeros(t: string)
    requires AllValid(t)
    ensures Run(Values(t), IsZero) == Run(t, IsOne)
  {
    forall i | 0 <= i < |t| ensures IsOne(t[i]) <==> IsZero(Values(t)[i]) {
      MapInverse(t[i]);
      LetterInverse(Values(t)[i]);
    }
    RunIs(Values(t), IsZero, Run(t, IsOne));
  }

  /** On strings without spaces and NULs, decoding is one to one and encoding is its inverse. */
  lemma EncodeDecodePlain(s: string)
    requires forall i :: 0 <= i < |s| ==> NotSpace(s[i]) && NotNul(s[i])
    ensures Decoded(s).Some? <==> AllValid(s)
    ensures Decoded(s).Some? ==> InBase(256, Decoded(s).value) && Encoded(Decoded(s).value) == s
  {
    PlainToken(s);
    if Decoded(s).Some? {
      EncodeDecode(s);
    }
  }

  // ---------------------------------------------------------------- the loops

  /** The buffer's digits from its first nonzero one on are those of its number. */
  method SkipLeading(a: array<nat>, b: nat, length: nat) returns (it: nat)
    requires b >= 2 && length <= a.Length && InBase(b, a[..])
    requires forall k :: 0 <= k < a.Length - length ==> a[k] == 0
    ensures it <= a.Length && a[it..] == Digits(b, Val(b, a[..]))
  {
    it := a.Length - length;
    while it < a.Length && a[it] == 0
      invariant it <= a.Length
      invariant forall k :: 0 <= k < it ==> a[k] == 0
    {
      it := it + 1;
    }
    assert a[..] == a[..it] + a[it..];
    ValSkipZeros(b, a[..it], a[it..]);
    DigitsVal(b, a[it..]);
  }

  method EncodeBase58(bytes: seq<nat>) returns (str: string)
    requires InBase(256, bytes)
    ensures str == Encoded(bytes)
  {
    hide Val, Digits, Text, Ones, Run;
    var p, zeroes := 0, 0;
    while p < |bytes| && bytes[p] == 0
      invariant p == zeroes <= |bytes|
      invariant forall i :: 0 <= i < p ==> bytes[i] == 0
    {
      p, zeroes := p + 1, zeroes + 1;
    }
    RunIs(bytes, IsZero, zeroes);
    assert bytes == bytes[..zeroes] + bytes[p..];
    ValSkipZeros(256, bytes[..zeroes], bytes[p..]);
    var b58, length := ToBase58(bytes[p..]);
    var it := SkipLeading(b58, 58, length);
    str := Ones(zeroes);
    var text := Spell(b58, it);
    str := str + text;
  }

  /** The buffer of the encoder holds the number the bytes stand for. */
  method ToBase58(rest: seq<nat>) returns (b58: array<nat>, length: nat)
    requires InBase(256, rest)
    ensures fresh(b58) && length <= b58.Length && InBase(58, b58[..])
    ensures forall k :: 0 <= k < b58.Length - length ==> b58[k] == 0
    ensures Val(58, b58[..]) == Val(256, rest)
  {
    hide Val, Pow, Affine;
    var size := EncodeSize(|rest|);
    b58 := new nat[size](_ => 0);
    length := 0;
    ValZeros(58, b58[..]);
    assert rest[..0] == [];
    ValZeros(256, []);
    EncodeBufferSuffices(|rest|);
    for p := 0 to |rest|
      invariant length <= size && InBase(58, b58[..])
      invariant forall k :: 0 <= k < size - length ==> b58[k] == 0
      invariant Val(58, b58[..]) == Val(256, rest[..p])
    {
      EncodeStep(rest, p, size);
      length := MultiplyAdd(b58, 58, 256, rest[p], length);
    }
    assert rest[..|rest|] == rest;
  }

  method Spell(b58: array<nat>, start: nat) returns (str: string)
    requires start <= b58.Length && InBase(58, b58[..])
    ensures str == Text(b58[start..])
  {
    hide Letter;
    ghost var ds := b58[start..];
    str := "";
    for it := start to b58.Length
      invariant str == Text(ds[..it - start])
    {
      assert ds[..it + 1 - start] == ds[..it - start] + [b58[it]];
      str := str + [Letter(b58[it])];
    }
    assert ds[..|ds|] == ds;
  }

  /** The next byte leaves the number within the buffer. */
  lemma EncodeStep(rest: seq<nat>, k: nat, size: nat)
    requires k < |rest| && InBase(256, rest) && Pow(256, |rest|) <= Pow(58, size)
    ensures Val(256, rest[..k + 1]) == Affine(256, Val(256, rest[..k]), rest[k]) < Pow(58, size)
  {
    assert rest[..k + 1] == rest[..k] + [rest[k]];
    ValSnoc(256, rest[..k], rest[k]);
    ValBound(256, rest[..k + 1]);
    PowMonotone(256, k + 1, |rest|);
  }

  /** Count the characters of one kind that come next. */
  method Skip(s: string, p: char -> bool) returns (n: nat)
    ensures n == Run(s, p)
  {
    n := 0;
    while n < |s| && p(s[n])
      invariant n <= |s|
      invariant forall i :: 0 <= i < n ==> p(s[i])
    {
      n := n + 1;
    }
    RunIs(s, p, n);
  }

  /** The buffer of the decoder holds the number the characters up to the next space stand for. */
  method ToBase256(s: string) returns (ok: bool, psz: nat, b256: array<nat>, length: nat)
    ensures psz <= |s| && fresh(b256) && length <= b256.Length && InBase(256, b256[..])
    ensures ok <==> AllValid(s[..Run(s, NotSpace)])
    ensures ok ==> psz == Run(s, NotSpace) && Val(256, b256[..]) == Val(58, Values(s[..psz]))
    ensures forall k :: 0 <= k < b256.Length - length ==> b256[k] == 0
  {
    hide Val, Pow, Affine, MapBase58, Run;
    var size := DecodeSize(|s|);
    b256 := new nat[size](_ => 0);
    length, psz := 0, 0;
    ValZeros(256, b256[..]);
    ValZeros(58, Values(s[..0]));
    DecodeBufferSuffices(|s|);
    while psz < |s| && !IsSpace(s[psz])
      invariant psz <= |s| && length <= size && InBase(256, b256[..])
      invariant forall i :: 0 <= i < psz ==> NotSpace(s[i])
      invariant AllValid(s[..psz])
      invariant forall k :: 0 <= k < size - length ==> b256[k] == 0
      invariant Val(256, b256[..]) == Val(58, Values(s[..psz]))
    {
      var carry := MapBase58(s[psz]);
      if carry == -1 {
        InvalidFound(s, psz);
        return false, psz, b256, length;
      }
      DecodeStep(s, psz, size);
      length := MultiplyAdd(b256, 256, 58, carry, length);
      psz := psz + 1;
    }
    RunIs(s, NotSpace, psz);
    ok := true;
  }

  lemma InvalidFound(s: string, psz: nat)
    requires psz < |s| && (forall i :: 0 <= i <= psz ==> NotSpace(s[i])) && MapBase58(s[psz]) == -1
    ensures !AllValid(s[..Run(s, NotSpace)])
  {
    var n := Run(s, NotSpace);
    assert psz < n;
    assert s[..n][psz] == s[psz];
  }

  /** The next character leaves the number within the buffer. */
  lemma DecodeStep(s: string, k: nat, size: nat)
    requires k < |s| && AllValid(s[..k]) && MapBase58(s[k]) != -1 && Pow(58, |s|) <= Pow(256, size)
    ensures MapBase58(s[k]) >= 0 && AllValid(s[..k + 1])
    ensures Val(58, Values(s[..k + 1])) == Affine(58, Val(58, Values(s[..k])), MapBase58(s[k])) < Pow(256, size)
  {
    MapInverse(s[k]);
    hide MapBase58;
    assert s[..k + 1] == s[..k] + [s[k]];
    assert Values(s[..k + 1]) == Values(s[..k]) + [MapBase58(s[k])];
    ValSnoc(58, Values(s[..k]), MapBase58(s[k]));
    ValBound(58, Values(s[..k + 1]));
    PowMonotone(58, k + 1, |s|);
  }

  lemma DropDrop(s: string, j: nat, k: nat)
    requires j + k <= |s|
    ensures s[j..][k..] == s[j + k..]
  {
  }

  /** The token starts with its '1's. */
  lemma OnesFirst(b: string, z: nat, k: nat)
    requires z == Run(b, IsOne) && k == Run(b[z..], NotSpace)
    ensures z + k == Run(b, NotSpace) && z == Run(b[..z + k], IsOne)
    ensures b[..z + k] == b[..z] + b[z..][..k]
  {
    var n := z + k;
    assert forall i :: z <= i < n ==> b[i] == b[z..][i - z];
    assert k < |b[z..]| ==> b[n] == b[z..][k];
    RunIs(b, NotSpace, n);
    RunIs(b[..n], IsOne, z);
  }

  /** The leading '1's of the token are skipped before the conversion; they do not count. */
  lemma SkippedOnes(b: string, z: nat, k: nat)
    requires z == Run(b, IsOne) && k == Run(b[z..], NotSpace)
    ensures z + k == Run(b, NotSpace) && z == Run(b[..z + k], IsOne)
    ensures AllValid(b[..z + k]) <==> AllValid(b[z..][..k])
    ensures AllValid(b[..z + k]) ==> Val(58, Values(b[..z + k])) == Val(58, Values(b[z..][..k]))
  {
    OnesFirst(b, z, k);
    hide Run, AllValid, Values, Val;
    OnesDoNotCount(b[..z], b[z..][..k]);
  }

  lemma OnesDoNotCount(ones: string, t: string)
    requires forall i :: 0 <= i < |ones| ==> ones[i] == '1'
    ensures AllValid(ones + t) <==> AllValid(t)
    ensures AllValid(t) ==> Val(58, Values(ones + t)) == Val(58, Values(t))
  {
    assert MapBase58('1') == 0;
    hide MapBase58, Val;
    assert forall i :: 0 <= i < |t| ==> (ones + t)[i + |ones|] == t[i];
    if AllValid(t) {
      assert Values(ones + t) == Zeros(|ones|) + Values(t);
      ValSkipZeros(58, Zeros(|ones|), Values(t));
    }
  }

  method DecodeBase58(str: string) returns (vch: Option<seq<nat>>)
    ensures vch == Decoded(str)
  {
    hide Val, Digits, Run, AllValid, Values;
    var s := str[..Run(str, NotNul)];
    var spaces := Skip(s, IsSpace);
    var b := s[spaces..];
    var zeroes := Skip(b, IsOne);
    var ok, len, b256, length := ToBase256(b[zeroes..]);
    SkippedOnes(b, zeroes, Run(b[zeroes..], NotSpace));
    if !ok {
      return None;
    }
    DropDrop(b, zeroes, len);
    var rest := b[zeroes..][len..];
    var trailing := Skip(rest, IsSpace);
    if trailing != |rest| {
      return None;
    }
    var it := SkipLeading(b256, 256, length);
    vch := Some(Zeros(zeroes) + b256[it..]);
  }
}
