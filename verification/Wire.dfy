/** Little-endian fixed-width integers at the front of a byte string. */
module Wire {
  import opened Outcomes
  import opened Bytes

  type U32 = n: nat | n < 0x1_0000_0000
  type I32 = n: int | -0x8000_0000 <= n < 0x8000_0000
  type I16 = n: int | -0x8000 <= n < 0x8000

  /** The number written in base 256, least significant digit first. */
  function Word(a: int, b: int, c: int, d: int): int {
    a + 256 * (b + 256 * (c + 256 * d))
  }

  lemma DivMod(low: int, high: int)
    requires 0 <= low < 256
    ensures (low + 256 * high) % 256 == low && (low + 256 * high) / 256 == high
  {
  }

  lemma EveryWordIsSpelled(v: U32)
    ensures exists s :: Spells(s, v)
  {
    var s: ByteString := [v % 256, v / 256 % 256, v / 256 / 256 % 256, v / 256 / 256 / 256];
    assert Spells(s, v);
  }

  lemma WordIsInjective(a: Byte, b: Byte, c: Byte, d: Byte, a': Byte, b': Byte, c': Byte, d': Byte)
    requires Word(a, b, c, d) == Word(a', b', c', d')
    ensures a == a' && b == b' && c == c' && d == d'
  {
    DivMod(a, Word(b, c, d, 0));
    DivMod(a', Word(b', c', d', 0));
    DivMod(b, Word(c, d, 0, 0));
    DivMod(b', Word(c', d', 0, 0));
    DivMod(c, d);
    DivMod(c', d');
  }

  ghost predicate Spells(s: ByteString, v: U32) {
    |s| == 4 && Word(s[0], s[1], s[2], s[3]) == v
  }

  /** The four bytes of a word. */
  ghost function PutU32(v: U32): (s: ByteString)
    ensures Spells(s, v)
  {
    EveryWordIsSpelled(v);
    var s :| Spells(s, v);
    s
  }

  /** A count as a 32-bit word; counts that do not fit occur in nothing within the size caps. */
  ghost function PutCount(n: nat): ByteString {
    PutU32(if n < 0x1_0000_0000 then n else 0)
  }

  function TakeU32(s: ByteString): Option<(U32, ByteString)> {
    if |s| < 4 then None else Some((Word(s[0], s[1], s[2], s[3]), s[4..]))
  }

  lemma PutTakeU32(v: U32, rest: ByteString)
    ensures TakeU32(PutU32(v) + rest) == Some((v, rest))
  {
    assert (PutU32(v) + rest)[4..] == rest;
  }

  lemma SpellingIsUnique(s: ByteString, v: U32)
    requires Spells(s, v)
    ensures s == PutU32(v)
  {
    var w := PutU32(v);
    WordIsInjective(s[0], s[1], s[2], s[3], w[0], w[1], w[2], w[3]);
  }

  lemma TakePutU32(s: ByteString)
    requires TakeU32(s).Some?
    ensures s == PutU32(TakeU32(s).value.0) + TakeU32(s).value.1
  {
    SpellingIsUnique(s[..4], TakeU32(s).value.0);
    assert s == s[..4] + s[4..];
  }

  /** `to_le_bytes`. */
  method LittleEndian(v: U32) returns (s: ByteString)
    ensures s == PutU32(v)
  {
    s := [v % 256, v / 256 % 256, v / 256 / 256 % 256, v / 256 / 256 / 256];
    SpellingIsUnique(s, v);
  }

  /** Two's complement. */
  function ToU32(v: I32): U32 {
    if v < 0 then v + 0x1_0000_0000 else v
  }

  function FromU32(v: U32): I32 {
    if v >= 0x8000_0000 then v - 0x1_0000_0000 else v
  }

  ghost function PutI32(v: I32): (s: ByteString)
    ensures |s| == 4
  {
    PutU32(ToU32(v))
  }

  function TakeI32(s: ByteString): Option<(I32, ByteString)> {
    var (v, rest) :- TakeU32(s);
    Some((FromU32(v), rest))
  }

  lemma PutTakeI32(v: I32, rest: ByteString)
    ensures TakeI32(PutI32(v) + rest) == Some((v, rest))
  {
    PutTakeU32(ToU32(v), rest);
  }

  lemma TakePutI32(s: ByteString)
    requires TakeI32(s).Some?
    ensures s == PutI32(TakeI32(s).value.0) + TakeI32(s).value.1
  {
    TakePutU32(s);
  }

  /** The value of two little-endian bytes in two's complement. */
  function Short(a: int, b: int): int {
    if b < 128 then a + 256 * b else a + 256 * b - 65536
  }

  ghost predicate SpellsShort(s: ByteString, v: I16) {
    |s| == 2 && Short(s[0], s[1]) == v
  }

  lemma EveryShortIsSpelled(v: I16)
    ensures exists s :: SpellsShort(s, v)
  {
    var u := if v < 0 then v + 65536 else v;
    var s: ByteString := [u % 256, u / 256];
    assert SpellsShort(s, v);
  }

  ghost function PutI16(v: I16): (s: ByteString)
    ensures SpellsShort(s, v)
  {
    EveryShortIsSpelled(v);
    var s :| SpellsShort(s, v);
    s
  }

  function TakeI16(s: ByteString): Option<(I16, ByteString)> {
    if |s| < 2 then None else Some((Short(s[0], s[1]), s[2..]))
  }

  lemma PutTakeI16(v: I16, rest: ByteString)
    ensures TakeI16(PutI16(v) + rest) == Some((v, rest))
  {
    assert (PutI16(v) + rest)[2..] == rest;
  }

  // ------------------------------------------------------------- repetition

  /** Reads one value from the front and returns it with what follows. */
  type Parser<!T> = ByteString -> Option<(T, ByteString)>
  type Printer<!T> = T -> ByteString

  function TakeMany<T>(take: Parser<T>, s: ByteString, count: nat): Option<(seq<T>, ByteString)>
    decreases count
  {
    if count == 0 then Some(([], s))
    else
      var (x, s1) :- take(s);
      var (xs, rest) :- TakeMany(take, s1, count - 1);
      Some(([x] + xs, rest))
  }

  function PutMany<T>(put: Printer<T>, xs: seq<T>): ByteString {
    if xs == [] then [] else put(xs[0]) + PutMany(put, xs[1..])
  }

  ghost predicate Undoes<T(!new)>(take: Parser<T>, put: Printer<T>, ok: T -> bool) {
    forall x, rest :: ok(x) ==> take(put(x) + rest) == Some((x, rest))
  }

  ghost predicate Exact<T(!new)>(take: Parser<T>, put: Printer<T>, ok: T -> bool) {
    forall s :: take(s).Some? ==> ok(take(s).value.0) && s == put(take(s).value.0) + take(s).value.1
  }

  /** Nothing but the list. */
  lemma ManyAlone<T(!new)>(take: Parser<T>, put: Printer<T>, ok: T -> bool, xs: seq<T>)
    requires Undoes(take, put, ok) && forall x :: x in xs ==> ok(x)
    ensures TakeMany(take, PutMany(put, xs), |xs|) == Some((xs, []))
  {
    ManyUndoes(take, put, ok, xs, []);
    assert PutMany(put, xs) + [] == PutMany(put, xs);
  }

  lemma {:induction false} ManyUndoes<T(!new)>(take: Parser<T>, put: Printer<T>, ok: T -> bool, xs: seq<T>,
                                               rest: ByteString)
    requires Undoes(take, put, ok) && forall x :: x in xs ==> ok(x)
    ensures TakeMany(take, PutMany(put, xs) + rest, |xs|) == Some((xs, rest))
  {
    if xs == [] {
      assert PutMany(put, xs) + rest == rest;
    } else {
      var tail := PutMany(put, xs[1..]) + rest;
      ManyUndoes(take, put, ok, xs[1..], rest);
      assert PutMany(put, xs) + rest == put(xs[0]) + tail;
      assert take(put(xs[0]) + tail) == Some((xs[0], tail));
      assert xs == [xs[0]] + xs[1..];
    }
  }

  lemma {:induction false} ManyExact<T(!new)>(take: Parser<T>, put: Printer<T>, ok: T -> bool, s: ByteString,
                                              count: nat)
    requires Exact(take, put, ok)
    requires TakeMany(take, s, count).Some?
    ensures var (xs, rest) := TakeMany(take, s, count).value;
            |xs| == count && (forall x :: x in xs ==> ok(x)) && s == PutMany(put, xs) + rest
    decreases count
  {
    if count > 0 {
      var (x, s1) := take(s).value;
      ManyExact(take, put, ok, s1, count - 1);
      var (xs, rest) := TakeMany(take, s1, count - 1).value;
      assert s == put(x) + s1;
      assert ([x] + xs)[1..] == xs;
      assert s == (put(x) + PutMany(put, xs)) + rest;
    }
  }

  lemma {:induction false} ManyLength<T(!new)>(put: Printer<T>, width: nat, xs: seq<T>)
    requires forall x :: |put(x)| == width
    ensures |PutMany(put, xs)| == |xs| * width
  {
    if xs != [] {
      ManyLength(put, width, xs[1..]);
      assert |xs| * width == (|xs| - 1) * width + width;
    }
  }

  /** Reading one more element after some have been read. */
  function After<T>(read: seq<T>, r: Option<(seq<T>, ByteString)>): Option<(seq<T>, ByteString)> {
    var (more, rest) :- r;
    Some((read + more, rest))
  }

  lemma AfterLaws<T>(read: seq<T>, x: T, r: Option<(seq<T>, ByteString)>)
    ensures After([], r) == r
    ensures After(read, After([x], r)) == After(read + [x], r)
  {
    if r.Some? {
      var more := r.value.0;
      assert [] + more == more && read + ([x] + more) == (read + [x]) + more;
    }
  }

  lemma TakeManyStep<T>(take: Parser<T>, s: ByteString, count: nat)
    requires count > 0 && take(s).Some?
    ensures TakeMany(take, s, count) == After([take(s).value.0], TakeMany(take, take(s).value.1, count - 1))
  {
  }
}
