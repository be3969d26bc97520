/** Well-formed UTF-8, by the syntax of section 4 of RFC 3629. */
module Utf8 {
  import opened ByteStrings

  predicate Tail(b: Byte) {
    0x80 <= b <= 0xBF
  }

  /** The length of the well-formed character `s` starts with, or 0. */
  function Width(s: Bytes): nat {
    if |s| >= 1 && s[0] <= 0x7F then 1
    else if |s| >= 2 && 0xC2 <= s[0] <= 0xDF && Tail(s[1]) then 2
    else if |s| >= 3 && Tail(s[2]) &&
            ((s[0] == 0xE0 && 0xA0 <= s[1] <= 0xBF) || (0xE1 <= s[0] <= 0xEC && Tail(s[1])) ||
             (s[0] == 0xED && 0x80 <= s[1] <= 0x9F) || (0xEE <= s[0] <= 0xEF && Tail(s[1]))) then 3
    else if |s| >= 4 && Tail(s[2]) && Tail(s[3]) &&
            ((s[0] == 0xF0 && 0x90 <= s[1] <= 0xBF) || (0xF1 <= s[0] <= 0xF3 && Tail(s[1])) ||
             (s[0] == 0xF4 && 0x80 <= s[1] <= 0x8F)) then 4
    else 0
  }

  predicate Valid(s: Bytes) {
    s == [] || (Width(s) > 0 && Valid(s[Width(s)..]))
  }

  // ---- The encoding it is the syntax of ----

  /** The code points UTF-8 encodes: all but the surrogates. */
  predicate Scalar(c: int) {
    0 <= c <= 0x10FFFF && !(0xD800 <= c <= 0xDFFF)
  }

  /** Six bits of the code point, as a tail byte. */
  function TailByte(c: nat): Byte {
    0x80 + c % 0x40
  }

  /** One code point, by section 3 of RFC 3629. */
  function EncodeOne(c: int): Bytes
    requires Scalar(c)
  {
    if c < 0x80 then [c]
    else if c < 0x800 then [0xC0 + c / 0x40, TailByte(c)]
    else if c < 0x10000 then [0xE0 + c / 0x1000, TailByte(c / 0x40), TailByte(c)]
    else [0xF0 + c / 0x40000, TailByte(c / 0x1000), TailByte(c / 0x40), TailByte(c)]
  }

  function EncodeText(text: seq<int>): Bytes
    requires forall i :: 0 <= i < |text| ==> Scalar(text[i])
  {
    if text == [] then [] else EncodeOne(text[0]) + EncodeText(text[1..])
  }

  /** What a byte adds to the code point, its marker bits taken off. */
  function Bits(b: Byte, marker: int): int {
    b - marker
  }

  /** The code point the bytes of one character stand for. */
  function DecodeOne(s: Bytes): int
    requires Width(s) > 0
  {
    match Width(s)
    case 1 => s[0]
    case 2 => Bits(s[0], 0xC0) * 0x40 + Bits(s[1], 0x80)
    case 3 => (Bits(s[0], 0xE0) * 0x40 + Bits(s[1], 0x80)) * 0x40 + Bits(s[2], 0x80)
    case _ =>
      ((Bits(s[0], 0xF0) * 0x40 + Bits(s[1], 0x80)) * 0x40 + Bits(s[2], 0x80)) * 0x40 + Bits(s[3], 0x80)
  }

  /** Splitting a code point into groups of six bits. */
  lemma Sextets(c: nat)
    ensures c / 0x1000 == c / 0x40 / 0x40 && c / 0x40000 == c / 0x1000 / 0x40
    ensures c / 0x40 == c / 0x1000 * 0x40 + c / 0x40 % 0x40
    ensures c / 0x1000 == c / 0x40000 * 0x40 + c / 0x1000 % 0x40
  {
  }

  lemma WidthOfTwoOrThree(c: int, rest: Bytes)
    requires Scalar(c) && c < 0x10000
    ensures Width(EncodeOne(c) + rest) == |EncodeOne(c)|
  {
    if c >= 0x800 {
      Sextets(c);
      var lead, second := c / 0x1000, c / 0x40 % 0x40;
      assert c / 0x40 == lead * 0x40 + second;
      assert lead == 0 ==> second >= 0x20;
      assert lead == 0xD ==> second < 0x20;
    }
  }

  lemma WidthOfFour(c: int, rest: Bytes)
    requires Scalar(c) && c >= 0x10000
    ensures Width(EncodeOne(c) + rest) == 4
  {
    Sextets(c);
    var lead, second := c / 0x40000, c / 0x1000 % 0x40;
    assert 0x10 <= c / 0x1000 == lead * 0x40 + second <= 0x10F;
    assert lead == 0 ==> second >= 0x10;
    assert lead == 4 ==> second < 0x10;
    var s := EncodeOne(c) + rest;
    assert s[0] == 0xF0 + lead && s[1] == 0x80 + second && Tail(s[2]) && Tail(s[3]);
  }

  lemma WidthOfEncoding(c: int, rest: Bytes)
    requires Scalar(c)
    ensures Width(EncodeOne(c) + rest) == |EncodeOne(c)|
  {
    if c < 0x10000 {
      WidthOfTwoOrThree(c, rest);
    } else {
      WidthOfFour(c, rest);
    }
  }

  /** Taking the last six bits off again. */
  lemma LastBits(high: nat, low: int)
    requires 0 <= low < 0x40
    ensures (high * 0x40 + low) / 0x40 == high && (high * 0x40 + low) % 0x40 == low
  {
  }

  lemma DecodedThree(s: Bytes)
    requires Width(s) == 3
    ensures Scalar(DecodeOne(s)) && EncodeOne(DecodeOne(s)) == s[..3]
  {
    var lead, second := Bits(s[0], 0xE0), Bits(s[1], 0x80);
    var high := lead * 0x40 + second;
    LastBits(lead, second);
    LastBits(high, Bits(s[2], 0x80));
    var c := DecodeOne(s);
    Sextets(c);
    assert c / 0x40 == high && c / 0x1000 == lead;
    assert 0x20 <= high < 0x400 && !(0x360 <= high < 0x380);
  }

  lemma DecodedFour(s: Bytes)
    requires Width(s) == 4
    ensures Scalar(DecodeOne(s)) && EncodeOne(DecodeOne(s)) == s[..4]
  {
    var lead, second := Bits(s[0], 0xF0), Bits(s[1], 0x80);
    var top := lead * 0x40 + second;
    var high := top * 0x40 + Bits(s[2], 0x80);
    LastBits(lead, second);
    LastBits(top, Bits(s[2], 0x80));
    LastBits(high, Bits(s[3], 0x80));
    var c := DecodeOne(s);
    Sextets(c);
    assert c / 0x40 == high && c / 0x1000 == top && c / 0x40000 == lead;
    assert 0x10 <= top < 0x110;
  }

  lemma EncodeOfDecoded(s: Bytes)
    requires Width(s) > 0
    ensures Scalar(DecodeOne(s)) && EncodeOne(DecodeOne(s)) == s[..Width(s)]
  {
    match Width(s) {
      case 1 =>
      case 2 => LastBits(Bits(s[0], 0xC0), Bits(s[1], 0x80));
      case 3 => DecodedThree(s);
      case _ => DecodedFour(s);
    }
  }

  lemma {:induction false} EncodingIsValid(text: seq<int>)
    requires forall i :: 0 <= i < |text| ==> Scalar(text[i])
    ensures Valid(EncodeText(text))
    decreases |text|
  {
    if text != [] {
      WidthOfEncoding(text[0], EncodeText(text[1..]));
      EncodingIsValid(text[1..]);
      assert EncodeText(text)[|EncodeOne(text[0])|..] == EncodeText(text[1..]);
    }
  }

  lemma {:induction false} ValidIsEncoding(s: Bytes) returns (text: seq<int>)
    requires Valid(s)
    ensures (forall i :: 0 <= i < |text| ==> Scalar(text[i])) && EncodeText(text) == s
    decreases |s|
  {
    if s == [] {
      text := [];
    } else {
      EncodeOfDecoded(s);
      var rest := ValidIsEncoding(s[Width(s)..]);
      text := [DecodeOne(s)] + rest;
      assert text[1..] == rest;
      assert s == s[..Width(s)] + s[Width(s)..];
    }
  }

  ghost predicate Encodes(text: seq<int>, s: Bytes) {
    (forall i :: 0 <= i < |text| ==> Scalar(text[i])) && EncodeText(text) == s
  }

  /** The syntax accepts exactly the encodings of texts: nothing overlong, no surrogate and
      nothing past U+10FFFF, and every other character. */
  lemma ValidExactly(s: Bytes)
    ensures Valid(s) <==> exists text :: Encodes(text, s)
  {
    if Valid(s) {
      var text := ValidIsEncoding(s);
      assert Encodes(text, s);
    }
    if text :| Encodes(text, s) {
      EncodingIsValid(text);
    }
  }

  /** UTF-8 never holds the byte 0xFF (nor anything above 0xF4), so every string is a key
      of the model and sorts below its prefix followed by 0xFF. */
  lemma {:induction false} NoTopByte(s: Bytes, i: nat)
    requires Valid(s) && i < |s|
    ensures s[i] <= 0xF4
  {
    var w := Width(s);
    if i >= w {
      NoTopByte(s[w..], i - w);
      assert s[w..][i - w] == s[i];
    }
  }
}
