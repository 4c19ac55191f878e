/** Big-endian integers of a fixed number of bytes. */
module BigEndian {
  import opened Bytes

  function Pow256(n: nat): (r: nat)
    ensures r > 0
  {
    if n == 0 then 1 else 256 * Pow256(n - 1)
  }

  function Big(s: ByteString): nat {
    if s == [] then 0 else Big(s[..|s| - 1]) * 256 + s[|s| - 1]
  }

  function PutBig(v: nat, n: nat): ByteString {
    if n == 0 then [] else PutBig(v / 256, n - 1) + [v % 256]
  }

  lemma {:induction false} PutBigIsExact(v: nat, n: nat)
    requires v < Pow256(n)
    ensures |PutBig(v, n)| == n && Big(PutBig(v, n)) == v
  {
    if n > 0 {
      PutBigIsExact(v / 256, n - 1);
      var init := PutBig(v / 256, n - 1);
      assert (init + [v % 256])[..|init|] == init;
    }
  }

  lemma BigSnoc(s: ByteString, b: Byte)
    ensures Big(s + [b]) == Big(s) * 256 + b as int
  {
    assert (s + [b])[..|s|] == s;
  }

  lemma BigOfTwo(a: Byte, b: Byte)
    ensures Big([a, b]) == a as int * 256 + b as int
  {
    BigSnoc([], a);
    BigSnoc([a], b);
    assert [] + [a] == [a] && [a] + [b] == [a, b];
  }

  lemma BigOfFour(a: Byte, b: Byte, c: Byte, d: Byte)
    ensures Big([a, b, c, d]) == (a as int * 256 + b as int) * 65536 + c as int * 256 + d as int
  {
    BigOfTwo(a, b);
    BigSnoc([a, b], c);
    BigSnoc([a, b, c], d);
    assert [a, b] + [c] == [a, b, c] && [a, b, c] + [d] == [a, b, c, d];
  }

  /** Two's complement. */
  function Signed(s: ByteString): int {
    if 2 * Big(s) < Pow256(|s|) then Big(s) else Big(s) - Pow256(|s|)
  }

  predicate Fits(v: int, n: nat) {
    0 <= 2 * v + Pow256(n) < 2 * Pow256(n)
  }

  /** The ranges of two's complement. */
  lemma FitsIs(v: int)
    ensures Fits(v, 1) <==> -0x80 <= v < 0x80
    ensures Fits(v, 2) <==> -0x8000 <= v < 0x8000
    ensures Fits(v, 3) <==> -0x80_0000 <= v < 0x80_0000
    ensures Fits(v, 4) <==> -0x8000_0000 <= v < 0x8000_0000
    ensures Fits(v, 6) <==> -0x8000_0000_0000 <= v < 0x8000_0000_0000
    ensures Fits(v, 8) <==> -0x8000_0000_0000_0000 <= v < 0x8000_0000_0000_0000
  {
    assert Pow256(1) == 0x100 && Pow256(2) == 0x1_0000 && Pow256(3) == 0x100_0000 && Pow256(4) == 0x1_0000_0000;
    assert Pow256(6) == 0x1_0000_0000_0000 && Pow256(8) == 0x1_0000_0000_0000_0000;
  }

  function PutSigned(v: int, n: nat): ByteString
    requires Fits(v, n)
  {
    PutBig(if v < 0 then v + Pow256(n) else v, n)
  }

  lemma PutSignedIsExact(v: int, n: nat)
    requires Fits(v, n)
    ensures |PutSigned(v, n)| == n && Signed(PutSigned(v, n)) == v
  {
    PutBigIsExact(if v < 0 then v + Pow256(n) else v, n);
  }

  /** Writing what was read gives the same bytes. */
  lemma {:induction false} BigReadsAll(s: ByteString)
    ensures Big(s) < Pow256(|s|) && PutBig(Big(s), |s|) == s
  {
    if s != [] {
      BigReadsAll(s[..|s| - 1]);
      assert s == s[..|s| - 1] + [s[|s| - 1]];
    }
  }
}
