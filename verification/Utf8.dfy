/** Well-formed UTF-8, as the decoder of text values accepts it, is exactly encoded Unicode text. */
module Utf8 {
  import opened Bytes
  import opened Record

  /** A Unicode scalar value: a code point that is no surrogate. */
  predicate IsScalar(c: int) {
    0 <= c < 0xD800 || 0xE000 <= c <= 0x10_FFFF
  }

  /** The bytes of a scalar value. */
  function Encoded(c: int): ByteString
    requires IsScalar(c)
  {
    if c < 0x80 then [c]
    else if c < 0x800 then [0xC0 + c / 64, 0x80 + c % 64]
    else if c < 0x1_0000 then [0xE0 + c / 4096, 0x80 + c / 64 % 64, 0x80 + c % 64]
    else [0xF0 + c / 26_2144, 0x80 + c / 4096 % 64, 0x80 + c / 64 % 64, 0x80 + c % 64]
  }

  predicate AllScalars(text: seq<int>) {
    forall i :: 0 <= i < |text| ==> IsScalar(text[i])
  }

  function EncodedText(text: seq<int>): ByteString
    requires AllScalars(text)
  {
    if text == [] then [] else Encoded(text[0]) + EncodedText(text[1..])
  }

  lemma Digits(high: int, low: int)
    requires 0 <= low < 64
    ensures (high * 64 + low) / 64 == high && (high * 64 + low) % 64 == low
  {
  }

  lemma EncodedIsRead(c: int, rest: ByteString)
    requires IsScalar(c)
    ensures ScalarLength(Encoded(c) + rest) == |Encoded(c)|
  {
    var s := Encoded(c) + rest;
    assert forall i :: 0 <= i < |Encoded(c)| ==> s[i] == Encoded(c)[i];
  }

  lemma TwoBytes(a: Byte, b: Byte) returns (c: int)
    requires 0xC2 <= a <= 0xDF && 0x80 <= b <= 0xBF
    ensures IsScalar(c) && Encoded(c) == [a, b]
  {
    c := (a - 0xC0) * 64 + (b - 0x80);
    Digits(a - 0xC0, b - 0x80);
  }

  lemma ThreeBytes(a: Byte, b: Byte, d: Byte) returns (c: int)
    requires 0xE0 <= a <= 0xEF && 0x80 <= b <= 0xBF && 0x80 <= d <= 0xBF
    requires (a == 0xE0 ==> b >= 0xA0) && (a == 0xED ==> b <= 0x9F)
    ensures IsScalar(c) && Encoded(c) == [a, b, d]
  {
    var high := (a - 0xE0) * 64 + (b - 0x80);
    c := high * 64 + (d - 0x80);
    Digits(a - 0xE0, b - 0x80);
    Digits(high, d - 0x80);
    assert c / 4096 == c / 64 / 64;
  }

  lemma FourBytes(a: Byte, b: Byte, d: Byte, e: Byte) returns (c: int)
    requires 0xF0 <= a <= 0xF4 && 0x80 <= b <= 0xBF && 0x80 <= d <= 0xBF && 0x80 <= e <= 0xBF
    requires (a == 0xF0 ==> b >= 0x90) && (a == 0xF4 ==> b <= 0x8F)
    ensures IsScalar(c) && Encoded(c) == [a, b, d, e]
  {
    var top := (a - 0xF0) * 64 + (b - 0x80);
    var high := top * 64 + (d - 0x80);
    c := high * 64 + (e - 0x80);
    Digits(a - 0xF0, b - 0x80);
    Digits(top, d - 0x80);
    Digits(high, e - 0x80);
    assert c / 4096 == c / 64 / 64 && c / 26_2144 == c / 64 / 64 / 64;
  }

  lemma ReadIsEncoded(s: ByteString) returns (c: int)
    requires s != [] && 0 < ScalarLength(s) <= |s|
    ensures IsScalar(c) && s[..ScalarLength(s)] == Encoded(c)
  {
    var n := ScalarLength(s);
    if n == 1 {
      c := s[0];
    } else if n == 2 {
      c := TwoBytes(s[0], s[1]);
    } else if n == 3 {
      c := ThreeBytes(s[0], s[1], s[2]);
    } else {
      c := FourBytes(s[0], s[1], s[2], s[3]);
    }
  }

  lemma {:induction false} WellFormedIsEncoded(s: ByteString) returns (text: seq<int>)
    requires WellFormed(s)
    ensures AllScalars(text) && EncodedText(text) == s
    decreases |s|
  {
    text := [];
    if s != [] {
      var c := ReadIsEncoded(s);
      var rest := WellFormedIsEncoded(s[ScalarLength(s)..]);
      text := [c] + rest;
      assert text[1..] == rest;
      assert s == s[..ScalarLength(s)] + s[ScalarLength(s)..];
    }
  }

  lemma {:induction false} EncodedIsWellFormed(text: seq<int>)
    requires AllScalars(text)
    ensures WellFormed(EncodedText(text))
  {
    if text != [] {
      EncodedIsWellFormed(text[1..]);
      EncodedIsRead(text[0], EncodedText(text[1..]));
      var s, n := EncodedText(text), |Encoded(text[0])|;
      assert s[n..] == EncodedText(text[1..]);
    }
  }

  /** Bytes are well formed exactly when they encode a sequence of Unicode scalar values. */
  lemma WellFormedExactly(s: ByteString)
    ensures WellFormed(s) <==> exists text :: AllScalars(text) && EncodedText(text) == s
  {
    if WellFormed(s) {
      var text := WellFormedIsEncoded(s);
    }
    if text :| AllScalars(text) && EncodedText(text) == s {
      EncodedIsWellFormed(text);
    }
  }
}
