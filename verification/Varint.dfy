/**
  * SQLite variable-length integers (protocol/conformance/hub_sync.py): big-endian groups of seven
  * bits with a continuation bit, and a ninth byte that holds eight bits.
  */
module Varint {
  import opened Outcomes
  import opened Bytes

  const MAX_VALUE := 0xFFFF_FFFF_FFFF_FFFF
  const MAX_EIGHT := 0x00FF_FFFF_FFFF_FFFF

  // ------------------------------------------------------ continuation groups

  function Pow128(n: nat): nat {
    if n == 0 then 1 else 128 * Pow128(n - 1)
  }

  /** The number of groups that a value needs. */
  function Groups(v: nat): nat {
    if v == 0 then 0 else 1 + Groups(v / 128)
  }

  /** The low n groups, each with its continuation bit. */
  function Continued(v: nat, n: nat): ByteString {
    if n == 0 then [] else Continued(v / 128, n - 1) + [128 + v % 128]
  }

  /** The value of continuation groups. */
  function Value(groups: ByteString): nat {
    if groups == [] then 0 else Value(groups[..|groups| - 1]) * 128 + groups[|groups| - 1] % 128
  }

  lemma ValueSnoc(groups: ByteString, byte: Byte)
    ensures Value(groups + [byte]) == Value(groups) * 128 + (byte % 128) as int
  {
    assert (groups + [byte])[..|groups|] == groups;
  }

  predicate AllContinue(s: ByteString) {
    forall i :: 0 <= i < |s| ==> s[i] >= 128
  }

  lemma {:induction false} ContinuedShape(v: nat, n: nat)
    ensures |Continued(v, n)| == n && AllContinue(Continued(v, n))
  {
    if n > 0 {
      ContinuedShape(v / 128, n - 1);
    }
  }

  lemma {:induction false} ValueOfContinued(v: nat, n: nat)
    requires v < Pow128(n)
    ensures Value(Continued(v, n)) == v
  {
    if n > 0 {
      ValueOfContinued(v / 128, n - 1);
      var init := Continued(v / 128, n - 1);
      assert (init + [128 + v % 128])[..|init|] == init;
    }
  }

  lemma {:induction false} GroupsSuffice(v: nat)
    ensures v < Pow128(Groups(v))
  {
    if v > 0 {
      GroupsSuffice(v / 128);
    }
  }

  lemma {:induction false} GroupsAreFew(v: nat, n: nat)
    requires v < Pow128(n)
    ensures Groups(v) <= n
  {
    if v > 0 {
      GroupsAreFew(v / 128, n - 1);
    }
  }

  // -------------------------------------------------------------------- encode

  /** The bytes that the encoder writes. */
  function Spelling(v: nat): ByteString
    requires v <= MAX_VALUE
  {
    if v > MAX_EIGHT then Continued(v / 256, 8) + [v % 256]
    else Continued(v / 128, Groups(v / 128)) + [v % 128]
  }

  /** Names an encoding; its bytes are looked up only where this stands. */
  predicate Spelled(v: nat) {
    true
  }

  ghost predicate Spells(f: nat -> ByteString) {
    forall v: nat {:trigger Spelled(v)} :: Spelled(v) ==> f(v) == if v <= MAX_VALUE then Spelling(v) else []
  }

  /** The one encoding of a 64-bit value. */
  ghost function Encode(v: nat): ByteString
    requires v <= MAX_VALUE
  {
    assert Spells((v: nat) => if v <= MAX_VALUE then Spelling(v) else []);
    var f :| Spells(f);
    f(v)
  }

  lemma EncodeIs(v: nat)
    requires v <= MAX_VALUE
    ensures Encode(v) == Spelling(v)
  {
    assert Spelled(v);
  }

  lemma EncodeShape(v: nat)
    requires v <= MAX_VALUE
    ensures 1 <= |Encode(v)| <= 9 && AllContinue(Encode(v)[..|Encode(v)| - 1])
    ensures |Encode(v)| < 9 ==> Encode(v)[|Encode(v)| - 1] < 128
    ensures v == Decoded(Encode(v))
  {
    EncodeIs(v);
    if v > MAX_EIGHT {
      ContinuedShape(v / 256, 8);
      ValueOfContinued(v / 256, 8);
      assert Encode(v)[..8] == Continued(v / 256, 8);
    } else {
      var n := Groups(v / 128);
      GroupsSuffice(v / 128);
      assert v / 128 < 0x2_0000_0000_0000 == Pow128(7);
      GroupsAreFew(v / 128, 7);
      ContinuedShape(v / 128, n);
      ValueOfContinued(v / 128, n);
      assert Encode(v)[..n] == Continued(v / 128, n);
    }
  }

  /** The value that the bytes of an encoding stand for. */
  function Decoded(s: ByteString): nat
    requires 1 <= |s| <= 9
  {
    Value(s[..|s| - 1]) * (if |s| == 9 then 256 else 128) + s[|s| - 1]
  }

  lemma {:induction false} GroupsRange(v: nat)
    ensures v < Pow128(Groups(v)) && (v > 0 ==> v >= Pow128(Groups(v) - 1))
  {
    if v > 0 {
      GroupsRange(v / 128);
    }
  }

  lemma {:induction false} PowersAreFar(j: nat, k: nat)
    requires j < k
    ensures Pow128(j) > 0 && 128 * Pow128(j) <= Pow128(k)
  {
    if j > 0 {
      PowersAreFar(j - 1, k - 1);
    } else if k > 1 {
      PowersAreFar(0, k - 1);
    }
  }

  /** The values that take a given number of varint bytes. */
  lemma EncodeLength(h: nat)
    requires h <= MAX_VALUE
    ensures var k := |Encode(h)|; 1 <= k <= 9 && (k < 9 ==> h < Pow128(k)) && (k > 1 ==> h >= Pow128(k - 1))
  {
    EncodeShape(h);
    EncodeIs(h);
    if h > MAX_EIGHT {
      ContinuedShape(h / 256, 8);
      assert Pow128(8) == MAX_EIGHT + 1;
    } else {
      ContinuedShape(h / 128, Groups(h / 128));
      GroupsRange(h / 128);
    }
  }

  lemma {:induction false} ValueIsBounded(groups: ByteString)
    ensures Value(groups) < Pow128(|groups|)
  {
    if groups != [] {
      ValueIsBounded(groups[..|groups| - 1]);
    }
  }

  /** Bytes that spell a value: all but the last continue, and the last ends them or is the ninth. */
  predicate Spells64(s: ByteString, v: nat) {
    && 1 <= |s| <= 9 && AllContinue(s[..|s| - 1])
    && (|s| < 9 ==> s[|s| - 1] < 128)
    && Decoded(s) == v
  }

  /** The encoding spells its value, and nothing shorter does. */
  lemma EncodeIsShortest(v: nat, s: ByteString)
    requires v <= MAX_VALUE
    ensures Spells64(Encode(v), v)
    ensures Spells64(s, v) ==> |Encode(v)| <= |s|
  {
    EncodeShape(v);
    EncodeLength(v);
    if Spells64(s, v) && |s| < |Encode(v)| {
      ValueIsBounded(s[..|s| - 1]);
      if |s| < |Encode(v)| - 1 {
        PowersAreFar(|s|, |Encode(v)| - 1);
      }
    }
  }

  /** The byte loops of the encoder. */
  method EncodeVarint(value: int) returns (r: Option<ByteString>)
    ensures r == if 0 <= value <= MAX_VALUE then Some(Encode(value)) else None
  {
    if !(0 <= value <= MAX_VALUE) {
      return None;
    }
    EncodeIs(value);
    if value > MAX_EIGHT {
      var encoded: ByteString := [];
      var rest: nat := value / 256;
      assert Continued(rest, 8) + [] == Continued(rest, 8);
      for index := 8 downto 0
        invariant Continued(rest, index) + encoded == Continued(value / 256, 8)
      {
        OneGroup(rest, index + 1, encoded);
        encoded := [128 + rest % 128] + encoded;
        rest := rest / 128;
      }
      assert [] + encoded == encoded;
      return Some(encoded + [value % 256]);
    }
    var groups: ByteString := [];
    var rest: nat := value / 128;
    assert Continued(rest, Groups(rest)) + [] == Continued(rest, Groups(rest));
    while rest > 0
      invariant Continued(rest, Groups(rest)) + groups == Continued(value / 128, Groups(value / 128))
    {
      OneGroup(rest, Groups(rest), groups);
      groups := [128 + rest % 128] + groups;
      rest := rest / 128;
    }
    assert [] + groups == groups;
    return Some(groups + [value % 128]);
  }

  lemma OneGroup(v: nat, n: nat, tail: ByteString)
    requires n > 0
    ensures Continued(v, n) + tail == Continued(v / 128, n - 1) + ([128 + v % 128] + tail)
  {
  }

  // -------------------------------------------------------------------- decode

  /** The first byte without a continuation bit, or the ninth byte, ends every encoding. */
  lemma EndIsDetermined(s: ByteString, end: nat, value: nat)
    requires value <= MAX_VALUE && Encode(value) <= s
    requires end <= |s| && end <= 8 && AllContinue(s[..end])
    ensures |Encode(value)| > end
    ensures end < |s| && (s[end] < 128 || end == 8) ==> |Encode(value)| == end + 1 && value == Decoded(s[..end + 1])
  {
    EncodeShape(value);
    var e := Encode(value);
    var last := |e| - 1;
    assert s[last] == e[last];
    assert forall i :: 0 <= i < end ==> s[..end][i] == s[i];
    assert end < last ==> e[..last][end] >= 128 && s[end] == e[end];
    assert s[..|e|] == e;
  }

  /** The bytes from `offset` to `next` are the encoding of a value, and end by the limit. */
  ghost predicate Reads(data: ByteString, offset: nat, limit: nat, value: nat, next: nat)
    requires limit <= |data|
  {
    && value <= MAX_VALUE && offset <= limit
    && Encode(value) <= data[offset..limit]
    && next == offset + |Encode(value)|
  }

  /** Two encodings at one place are the same. */
  lemma ReadsIsUnique(data: ByteString, offset: nat, limit: nat, v: nat, next: nat, w: nat, next': nat)
    requires limit <= |data|
    requires Reads(data, offset, limit, v, next) && Reads(data, offset, limit, w, next')
    ensures v == w && next == next'
  {
    EncodeShape(v);
    var s, end := data[offset..limit], |Encode(v)| - 1;
    assert s[..end] == Encode(v)[..end] && s[end] == Encode(v)[end];
    EndIsDetermined(s, end, w);
    EndIsDetermined(s, end, v);
  }

  /** The value that can be read at an offset, and where it ends. */
  ghost function VarintAt(data: ByteString, offset: nat, limit: nat): Option<(nat, nat)>
    requires limit <= |data|
  {
    if exists v: nat, next: nat :: Reads(data, offset, limit, v, next) then
      var v: nat, next: nat :| Reads(data, offset, limit, v, next);
      Some((v, next))
    else None
  }

  lemma VarintAtIsExact(data: ByteString, offset: nat, limit: nat, r: Option<(nat, nat)>)
    requires limit <= |data|
    requires forall v: nat, next: nat :: Reads(data, offset, limit, v, next) <==> r == Some((v, next))
    ensures r == VarintAt(data, offset, limit)
  {
    if r.Some? {
      assert Reads(data, offset, limit, r.value.0, r.value.1);
    }
  }

  lemma VarintAtAdvances(data: ByteString, offset: nat, limit: nat)
    requires limit <= |data| && VarintAt(data, offset, limit).Some?
    ensures offset < VarintAt(data, offset, limit).value.1 <= limit
  {
    EncodeShape(VarintAt(data, offset, limit).value.0);
  }

  /**
    * Reads a varint. It accepts exactly the encodings of 64-bit values that end by the limit;
    * anything else, truncated or spelled at undue length, is rejected.
    */
  method ReadVarint(data: ByteString, offset: nat, limit: nat) returns (r: Option<(nat, nat)>)
    requires limit <= |data|
    ensures forall v: nat, next: nat :: Reads(data, offset, limit, v, next) <==> r == Some((v, next))
    ensures r == VarintAt(data, offset, limit)
  {
    r := AccumulateVarint(data, offset, limit);
    VarintAtIsExact(data, offset, limit, r);
  }

  /** Bytes that all go on, and the value that they have so far. */
  predicate Gathered(bytes: ByteString, value: nat) {
    AllContinue(bytes) && value == Value(bytes)
  }

  /** The byte loop of the decoder. */
  method AccumulateVarint(data: ByteString, offset: nat, limit: nat) returns (r: Option<(nat, nat)>)
    requires limit <= |data|
    ensures forall v: nat, next: nat :: Reads(data, offset, limit, v, next) <==> r == Some((v, next))
  {
    var value: nat := 0;
    for index := 0 to 9
      invariant index <= 8 && (index == 0 || offset + index <= limit)
      invariant offset <= limit ==> Gathered(data[offset..limit][..index], value)
    {
      if offset + index >= limit {
        NothingToRead(data, offset, limit);
        return None;
      }
      ghost var s := data[offset..limit];
      var byte := data[offset + index];
      assert s[..index + 1][..index] == s[..index] && s[..index + 1] == s[..index] + [byte];
      ValueSnoc(s[..index], byte);
      if index == 8 {
        value := value * 256 + byte;
        r := Checked(data, offset, limit, offset + 9, value);
        return;
      }
      value := value * 128 + (byte % 128) as int;
      if byte < 128 {
        r := Checked(data, offset, limit, offset + index + 1, value);
        return;
      }
    }
  }

  lemma NothingToRead(data: ByteString, offset: nat, limit: nat)
    requires limit <= |data|
    requires offset <= limit ==> limit - offset <= 8 && AllContinue(data[offset..limit])
    ensures forall v: nat, next: nat :: !Reads(data, offset, limit, v, next)
  {
    forall v: nat, next: nat ensures !Reads(data, offset, limit, v, next) {
      if Reads(data, offset, limit, v, next) {
        var s := data[offset..limit];
        assert s[..|s|] == s;
        EndIsDetermined(s, |s|, v);
      }
    }
  }

  /** The test for the one spelling of a value. */
  method Checked(data: ByteString, offset: nat, limit: nat, next: nat, value: nat) returns (r: Option<(nat, nat)>)
    requires offset < next <= limit <= |data| && next - offset <= 9
    requires AllContinue(data[offset..limit][..next - 1 - offset])
    requires data[next - 1] < 128 || next - offset == 9
    requires value == Decoded(data[offset..limit][..next - offset])
    ensures forall v: nat, n: nat :: Reads(data, offset, limit, v, n) <==> r == Some((v, n))
  {
    ghost var s := data[offset..limit];
    assert s[..next - offset] == data[offset..next];
    forall v: nat, n: nat | Reads(data, offset, limit, v, n)
      ensures v == value && n == next && Encode(v) == data[offset..next]
    {
      EndIsDetermined(s, next - 1 - offset, v);
      assert s[..|Encode(v)|] == Encode(v);
    }
    var canonical := EncodeVarint(value);
    if canonical != Some(data[offset..next]) {
      return None;
    }
    return Some((value, next));
  }
}
