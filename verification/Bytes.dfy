/** Byte strings. */
module Bytes {
  type Byte = b: int | 0 <= b < 256
  type ByteString = seq<Byte>

  function Zeros(n: nat): ByteString {
    seq(n, _ => 0)
  }

  /** The bytes of a text. */
  function Ascii(text: string): ByteString {
    seq(|text|, (i: nat) requires i < |text| => ByteOf(text[i]))
  }

  function ByteOf(c: char): Byte {
    if c as int < 256 then c as int else 0
  }

  /** Cutting at the first separator is unambiguous. */
  lemma CutAtSeparator(sep: Byte, a: ByteString, x: ByteString, b: ByteString, y: ByteString)
    requires sep !in a && sep !in b
    requires a + [sep] + x == b + [sep] + y
    ensures a == b && x == y
  {
    var s := a + [sep] + x;
    assert s[|a|] == sep && s[|b|] == sep;
    assert forall i :: 0 <= i < |a| ==> s[i] == a[i];
    assert forall i :: 0 <= i < |b| ==> s[i] == b[i];
    assert |a| == |b|;
    assert a == s[..|a|] && b == s[..|b|];
    assert x == s[|a| + 1..] && y == s[|b| + 1..];
  }

  lemma SliceOfSlice(s: ByteString, at: nat, n: nat, i: nat, j: nat)
    requires at + n <= |s| && i <= j <= n
    ensures s[at..at + n][i..j] == s[at + i..at + j]
  {
    var part := s[at..at + n];
    var a, b := part[i..j], s[at + i..at + j];
    assert |a| == |b|;
    forall k | 0 <= k < |a| ensures a[k] == b[k] {
      assert a[k] == part[i + k] && part[i + k] == s[at + i + k];
    }
  }

  /** A slice that is made of two parts. */
  lemma SliceParts(s: ByteString, at: nat, a: ByteString, b: ByteString)
    requires at + |a| + |b| <= |s| && s[at..at + |a| + |b|] == a + b
    ensures s[at..at + |a|] == a && s[at + |a|..at + |a| + |b|] == b
  {
    SliceOfSlice(s, at, |a| + |b|, 0, |a|);
    SliceOfSlice(s, at, |a| + |b|, |a|, |a| + |b|);
  }
}
