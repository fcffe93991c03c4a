/** Base58 text of src/base58.cpp. */
module Base58 {
  import opened Powers
  import opened Numerals

  const DIGITS := "123456789"
  const UPPER := "ABCDEFGH" + "JKLMN" + "PQRSTUVWXYZ"
  const LOWER := "abcdefghijk" + "mnopqrstuvwxyz"
  const ALPHABET := DIGITS + UPPER + LOWER

  predicate IsSpace(c: char) {
    c == ' ' || c == '\U{c}' || c == '\n' || c == '\r' || c == '\t' || c == '\U{b}'
  }

  /** The digit a character stands for, or -1. */
  function MapBase58(c: char): int {
    if '1' <= c <= '9' then c as int - '1' as int
    else if 'A' <= c <= 'H' then 9 + c as int - 'A' as int
    else if 'J' <= c <= 'N' then 17 + c as int - 'J' as int
    else if 'P' <= c <= 'Z' then 22 + c as int - 'P' as int
    else if 'a' <= c <= 'k' then 33 + c as int - 'a' as int
    else if 'm' <= c <= 'z' then 44 + c as int - 'm' as int
    else -1
  }

  function Letter(d: nat): char
    requires d < 58
  {
    ALPHABET[d]
  }

  lemma LetterCode(d: nat)
    requires d < 58
    ensures Letter(d) as int ==
              if d < 9 then d + '1' as int
              else if d < 17 then d - 9 + 'A' as int
              else if d < 22 then d - 17 + 'J' as int
              else if d < 33 then d - 22 + 'P' as int
              else if d < 44 then d - 33 + 'a' as int
              else d - 44 + 'm' as int
  {
    Lengths();
    hide DIGITS, UPPER, LOWER;
    if d < 9 {
      DigitCode(d);
    } else if d < 33 {
      UpperCode(d - 9);
    } else {
      LowerCode(d - 33);
    }
  }

  lemma Lengths()
    ensures |DIGITS| == 9 && |UPPER| == 24 && |LOWER| == 25
  {
  }

  lemma DigitCode(d: nat)
    requires d < 9
    ensures |DIGITS| == 9 && DIGITS[d] as int == d + '1' as int
  {
  }

  lemma UpperCode(d: nat)
    requires d < 24
    ensures |UPPER| == 24 && UPPER[d] as int ==
              if d < 8 then d + 'A' as int else if d < 13 then d - 8 + 'J' as int else d - 13 + 'P' as int
  {
  }

  lemma LowerCode(d: nat)
    requires d < 25
    ensures |LOWER| == 25 && LOWER[d] as int == if d < 11 then d + 'a' as int else d - 11 + 'm' as int
  {
  }

  lemma LetterInverse(d: nat)
    requires d < 58
    ensures MapBase58(Letter(d)) == d && !IsSpace(Letter(d)) && Letter(d) != '\0'
    ensures Letter(d) == '1' <==> d == 0
  {
    hide Letter;
    LetterCode(d);
  }

  lemma MapInverse(c: char)
    requires MapBase58(c) != -1
    ensures 0 <= MapBase58(c) < 58 && Letter(MapBase58(c)) == c && !IsSpace(c) && c != '\0'
  {
    hide Letter;
    LetterCode(MapBase58(c));
    assert Letter(MapBase58(c)) as int == c as int;
  }

  // ---------------------------------------------------------------- the buffers are large enough

  function EncodeSize(n: nat): nat { n * 138 / 100 + 1 }

  function DecodeSize(n: nat): nat { n * 733 / 1000 + 1 }

  lemma EncodeSizeStep(n: nat)
    ensures n >= 8 ==> 11 + EncodeSize(n - 8) <= EncodeSize(n)
    ensures n < 8 ==> EncodeSize(n) == [1, 2, 3, 5, 6, 7, 9, 10][n]
  {
  }

  lemma EightBytes()
    ensures Pow(256, 8) <= Pow(58, 11)
  {
    assert Pow(256, 8) == 18446744073709551616 && Pow(58, 11) == 24986644000165537792;
  }

  lemma FewBytes(n: nat)
    requires n < 8
    ensures Pow(256, n) <= Pow(58, EncodeSize(n))
  {
    assert Pow(256, 0) == 1 && Pow(256, 1) == 256 && Pow(256, 2) == 65536 && Pow(256, 3) == 16777216;
    assert Pow(256, 4) == 4294967296 && Pow(256, 5) == 1099511627776 && Pow(256, 6) == 281474976710656;
    assert Pow(256, 7) == 72057594037927936;
    assert Pow(58, 1) == 58 && Pow(58, 2) == 3364 && Pow(58, 3) == 195112 && Pow(58, 5) == 656356768;
    assert Pow(58, 6) == 38068692544 && Pow(58, 7) == 2207984167552 && Pow(58, 9) == 7427658739644928;
    assert Pow(58, 10) == 430804206899405824;
    EncodeSizeStep(n);
    hide Pow, EncodeSize;
    assert n in {0, 1, 2, 3, 4, 5, 6, 7};
  }

  lemma {:induction false} EncodeBufferSuffices(n: nat)
    ensures Pow(256, n) <= Pow(58, EncodeSize(n))
  {
    hide Pow, EncodeSize;
    if n < 8 {
      FewBytes(n);
    } else {
      EncodeBufferSuffices(n - 8);
      EncodeSizeStep(n);
      var m := EncodeSize(n - 8);
      EightBytes();
      PowAdd(256, 8, n - 8);
      PowAdd(58, 11, m);
      PowMonotone(58, 11 + m, EncodeSize(n));
      ProductLe(Pow(256, 8), Pow(58, 11), Pow(256, n - 8), Pow(58, m));
    }
  }

  lemma ProductLe(a: nat, b: nat, c: nat, d: nat)
    requires a <= b && c <= d
    ensures a * c <= b * d
  {
    MulLe(a, b, c);
    MulLe(c, d, b);
  }

  /** Bytes for fewer than fifteen digits. */
  function Room(t: nat): nat { if t == 0 then 0 else t * 733 / 1000 + 1 }

  lemma FewDigits(t: nat)
    requires t < 15
    ensures Pow(58, t) <= Pow(256, Room(t))
  {
    assert Pow(58, 0) == 1 && Pow(58, 1) == 58 && Pow(58, 2) == 3364 && Pow(58, 3) == 195112 && Pow(58, 4) == 11316496;
    assert Pow(58, 5) == 656356768 && Pow(58, 6) == 38068692544 && Pow(58, 7) == 2207984167552;
    assert Pow(58, 8) == 128063081718016 && Pow(58, 9) == 7427658739644928 && Pow(58, 10) == 430804206899405824;
    assert Pow(58, 11) == 24986644000165537792 && Pow(58, 12) == 1449225352009601191936;
    assert Pow(58, 13) == 84055070416556869132288 && Pow(58, 14) == 4875194084160298409672704;
    assert Pow(256, 0) == 1 && Pow(256, 1) == 256 && Pow(256, 2) == 0x1_0000 && Pow(256, 3) == 0x1_000000;
    assert Pow(256, 4) == 0x1_00000000 && Pow(256, 5) == 0x1_0000000000 && Pow(256, 6) == 0x1_000000000000;
    assert Pow(256, 7) == 0x1_00000000000000 && Pow(256, 8) == 0x1_0000000000000000;
    assert Pow(256, 9) == 0x1_000000000000000000 && Pow(256, 10) == 0x1_00000000000000000000;
    assert Pow(256, 11) == 0x1_0000000000000000000000;
  }

  lemma FifteenDigits()
    ensures Pow(58, 15) <= Pow(256, 11)
  {
    assert Pow(58, 8) == 128063081718016 && Pow(58, 7) == 2207984167552;
    assert Pow(256, 8) == 0x1_0000000000000000 && Pow(256, 3) == 0x1_000000;
    hide Pow;
    PowAdd(58, 8, 7);
    PowAdd(256, 8, 3);
  }

  lemma {:induction false} ManyDigits(s: nat, t: nat)
    requires t < 15
    ensures Pow(58, 15 * s + t) <= Pow(256, 11 * s + Room(t))
  {
    hide Pow, Room;
    var g := Room(t);
    if s == 0 {
      FewDigits(t);
    } else {
      ManyDigits(s - 1, t);
      FifteenDigits();
      PowAdd(58, 15, 15 * (s - 1) + t);
      PowAdd(256, 11, 11 * (s - 1) + g);
      ProductLe(Pow(58, 15), Pow(256, 11), Pow(58, 15 * (s - 1) + t), Pow(256, 11 * (s - 1) + g));
    }
  }

  /** 58^71 is just below 256^52. */
  lemma SeventyOneDigits()
    ensures Pow(58, 71) <= Pow(256, 52)
  {
    assert Pow(58, 8) == 128063081718016 && Pow(58, 7) == 2207984167552;
    assert Pow(256, 13) == 0x1_00000000000000000000000000;
    hide Pow;
    PowAdd(58, 8, 8);
    assert Pow(58, 16) == 16400152899115243850138976256;
    PowAdd(58, 16, 16);
    PowAdd(58, 32, 32);
    PowAdd(58, 64, 7);
    PowAdd(256, 13, 13);
    PowAdd(256, 26, 26);
  }

  lemma SizeOfFew(n: nat)
    requires n < 71
    ensures 11 * (n / 15) + Room(n % 15) <= DecodeSize(n)
  {
    var s, t := n / 15, n % 15;
    assert n == 15 * s + t && 0 <= s <= 4;
    var u := t * 733 / 1000;
    assert t == 0 || t * 733 >= u * 1000 + 63;
    assert n * 733 == s * 10995 + t * 733;
  }

  lemma DecodeSizeStep(n: nat)
    requires n >= 71
    ensures 52 + DecodeSize(n - 71) <= DecodeSize(n)
  {
  }

  lemma SizeOfMost(n: nat)
    requires n < 71
    ensures Pow(58, n) <= Pow(256, DecodeSize(n))
  {
    SizeOfFew(n);
    var s, t := n / 15, n % 15;
    assert n == 15 * s + t && 11 * s + Room(t) <= DecodeSize(n);
    hide Pow, Room, DecodeSize;
    ManyDigits(s, t);
    PowMonotone(256, 11 * s + Room(t), DecodeSize(n));
  }

  lemma {:induction false} DecodeBufferSuffices(n: nat)
    ensures Pow(58, n) <= Pow(256, DecodeSize(n))
  {
    hide Pow, DecodeSize;
    if n < 71 {
      SizeOfMost(n);
    } else {
      DecodeBufferSuffices(n - 71);
      DecodeSizeStep(n);
      var m := DecodeSize(n - 71);
      SeventyOneDigits();
      PowAdd(58, 71, n - 71);
      PowAdd(256, 52, m);
      PowMonotone(256, 52 + m, DecodeSize(n));
      ProductLe(Pow(58, 71), Pow(256, 52), Pow(58, n - 71), Pow(256, m));
    }
  }
}
