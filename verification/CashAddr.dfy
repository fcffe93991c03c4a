/** CashAddr text of src/cashaddr.cpp. */
module CashAddr {
  import opened Common
  import opened CashChecksum

  function Chars0(v: Value): char {
    if v == 0 then 'q'
    else if v == 1 then 'p'
    else if v == 2 then 'z'
    else if v == 3 then 'r'
    else if v == 4 then 'y'
    else if v == 5 then '9'
    else if v == 6 then 'x'
    else '8'
  }

  function Chars1(v: Value): char {
    if v == 8 then 'g'
    else if v == 9 then 'f'
    else if v == 10 then '2'
    else if v == 11 then 't'
    else if v == 12 then 'v'
    else if v == 13 then 'd'
    else if v == 14 then 'w'
    else '0'
  }

  function Chars2(v: Value): char {
    if v == 16 then 's'
    else if v == 17 then '3'
    else if v == 18 then 'j'
    else if v == 19 then 'n'
    else if v == 20 then '5'
    else if v == 21 then '4'
    else if v == 22 then 'k'
    else 'h'
  }

  function Chars3(v: Value): char {
    if v == 24 then 'c'
    else if v == 25 then 'e'
    else if v == 26 then '6'
    else if v == 27 then 'm'
    else if v == 28 then 'u'
    else if v == 29 then 'a'
    else if v == 30 then '7'
    else 'l'
  }

  /** The character of a value: "qpzry9x8" "gf2tvdw0" "s3jn54kh" "ce6mua7l". */
  function CharOf(v: Value): char {
    if v < 8 then Chars0(v) else if v < 16 then Chars1(v) else if v < 24 then Chars2(v) else Chars3(v)
  }

  function Digits(c: char): Option<Value> {
    if c == '0' then Some(15)
    else if c == '2' then Some(10)
    else if c == '3' then Some(17)
    else if c == '4' then Some(21)
    else if c == '5' then Some(20)
    else if c == '6' then Some(26)
    else if c == '7' then Some(30)
    else if c == '8' then Some(7)
    else if c == '9' then Some(5)
    else None
  }

  function LettersAH(c: char): Option<Value> {
    if c == 'a' then Some(29)
    else if c == 'c' then Some(24)
    else if c == 'd' then Some(13)
    else if c == 'e' then Some(25)
    else if c == 'f' then Some(9)
    else if c == 'g' then Some(8)
    else if c == 'h' then Some(23)
    else None
  }

  function LettersIQ(c: char): Option<Value> {
    if c == 'j' then Some(18)
    else if c == 'k' then Some(22)
    else if c == 'l' then Some(31)
    else if c == 'm' then Some(27)
    else if c == 'n' then Some(19)
    else if c == 'p' then Some(1)
    else if c == 'q' then Some(0)
    else None
  }

  function LettersRZ(c: char): Option<Value> {
    if c == 'r' then Some(3)
    else if c == 's' then Some(16)
    else if c == 't' then Some(11)
    else if c == 'u' then Some(28)
    else if c == 'v' then Some(12)
    else if c == 'w' then Some(14)
    else if c == 'x' then Some(6)
    else if c == 'y' then Some(4)
    else if c == 'z' then Some(2)
    else None
  }

  /** The value of a lower-case letter or a digit. */
  function ValueOf(c: char): Option<Value> {
    if c <= '9' then Digits(c) else if c <= 'h' then LettersAH(c) else if c <= 'q' then LettersIQ(c) else LettersRZ(c)
  }

  lemma ValueOfChar(v: Value)
    ensures ValueOf(CharOf(v)) == Some(v)
  {
    if v < 8 {
      ValueOfChars0(v);
    } else if v < 16 {
      ValueOfChars1(v);
    } else if v < 24 {
      ValueOfChars2(v);
    } else {
      ValueOfChars3(v);
    }
  }

  lemma ValueOfChars0(v: Value)
    requires 0 <= v < 8
    ensures ValueOf(Chars0(v)) == Some(v)
  {
  }

  lemma ValueOfChars1(v: Value)
    requires 8 <= v < 16
    ensures ValueOf(Chars1(v)) == Some(v)
  {
  }

  lemma ValueOfChars2(v: Value)
    requires 16 <= v < 24
    ensures ValueOf(Chars2(v)) == Some(v)
  {
  }

  lemma ValueOfChars3(v: Value)
    requires 24 <= v < 32
    ensures ValueOf(Chars3(v)) == Some(v)
  {
  }

  lemma CharOfValue(c: char)
    requires ValueOf(c).Some?
    ensures CharOf(ValueOf(c).value) == c && ('a' <= c <= 'z' || '0' <= c <= '9')
  {
  }
}
