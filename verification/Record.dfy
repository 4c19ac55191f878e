/**
  * SQLite records (protocol/conformance/hub_sync.py): a header of serial types and a body. Text
  * stands for its UTF-8 bytes and a real for its eight bytes.
  */
module Record {
  import opened Outcomes
  import opened Bytes
  import opened BigEndian
  import opened Varint

  datatype Value = Null | Integer(n: int) | Real(word: ByteString) | Text(utf8: ByteString) | Blob(bytes: ByteString)

  /** The exponent is not all ones. */
  predicate Finite(word: ByteString) {
    |word| == 8 && !(word[0] % 128 == 127 && word[1] >= 240)
  }

  predicate Continuation(s: ByteString, i: nat) {
    i < |s| && 0x80 <= s[i] <= 0xBF
  }

  /** The length of the well-formed UTF-8 sequence at the front; 0 when there is none. */
  function ScalarLength(s: ByteString): nat
    requires s != []
  {
    if s[0] < 0x80 then 1
    else if 0xC2 <= s[0] <= 0xDF && Continuation(s, 1) then 2
    else if 0xE0 <= s[0] <= 0xEF && Continuation(s, 1) && Continuation(s, 2)
            && (s[0] == 0xE0 ==> s[1] >= 0xA0) && (s[0] == 0xED ==> s[1] <= 0x9F) then 3
    else if 0xF0 <= s[0] <= 0xF4 && Continuation(s, 1) && Continuation(s, 2) && Continuation(s, 3)
            && (s[0] == 0xF0 ==> s[1] >= 0x90) && (s[0] == 0xF4 ==> s[1] <= 0x8F) then 4
    else 0
  }

  predicate WellFormed(s: ByteString)
    decreases |s|
  {
    s == [] || (0 < ScalarLength(s) <= |s| && WellFormed(s[ScalarLength(s)..]))
  }

  // ------------------------------------------------------------ serial types

  predicate Valid(v: Value) {
    match v
    case Null => true
    case Integer(n) => Fits(n, 8)
    case Real(word) => Finite(word)
    case Text(utf8) => WellFormed(utf8) && 13 + 2 * |utf8| <= MAX_VALUE
    case Blob(bytes) => 12 + 2 * |bytes| <= MAX_VALUE
  }

  /** The bytes of an integer type, for types 1 to 6. */
  function Width(serial: nat): nat {
    if serial == 5 then 6 else if serial == 6 then 8 else serial
  }

  /** The smallest integer type that holds a value. */
  function IntegerType(n: int): nat
    requires Fits(n, 8)
  {
    if Fits(n, 1) then 1 else if Fits(n, 2) then 2 else if Fits(n, 3) then 3
    else if Fits(n, 4) then 4 else if Fits(n, 6) then 5 else 6
  }

  /** No smaller integer type holds the value. */
  lemma IntegerTypeIsSmallest(n: int, serial: nat)
    requires Fits(n, 8)
    ensures 1 <= IntegerType(n) <= 6 && Fits(n, Width(IntegerType(n)))
    ensures 1 <= serial < IntegerType(n) ==> !Fits(n, Width(serial))
  {
  }

  /** The canonical serial type of a value and its body bytes. */
  function SerialType(v: Value): nat
    requires Valid(v)
  {
    match v
    case Null => 0
    case Integer(n) => if n == 0 then 8 else if n == 1 then 9 else IntegerType(n)
    case Real(_) => 7
    case Text(utf8) => 13 + 2 * |utf8|
    case Blob(bytes) => 12 + 2 * |bytes|
  }

  function Body(v: Value): ByteString
    requires Valid(v)
  {
    match v
    case Null => []
    case Integer(n) => if n == 0 || n == 1 then [] else PutSigned(n, Width(IntegerType(n)))
    case Real(word) => word
    case Text(utf8) => utf8
    case Blob(bytes) => bytes
  }

  /** The bytes of content that a serial type announces. */
  function ContentSize(serial: nat): nat {
    if serial in {0, 8, 9, 10, 11} then 0
    else if serial <= 4 then serial
    else if serial == 5 then 6
    else if serial <= 7 then 8
    else if serial % 2 == 0 then (serial - 12) / 2
    else (serial - 13) / 2
  }

  /** A serial type tells the kind of its value and the size of its content, as section 2.1 of the format says. */
  lemma TypeTellsKind(v: Value)
    requires Valid(v)
    ensures var t := SerialType(v);
            && |Body(v)| == ContentSize(t)
            && (v.Null? <==> t == 0)
            && (v.Integer? <==> 1 <= t <= 6 || t == 8 || t == 9)
            && (v.Integer? ==> (t == 8 <==> v.n == 0) && (t == 9 <==> v.n == 1) && (t <= 6 ==> Signed(Body(v)) == v.n))
            && (v.Real? <==> t == 7)
            && (v.Blob? <==> t >= 12 && t % 2 == 0)
            && (v.Text? <==> t >= 13 && t % 2 == 1)
            && (v.Blob? ==> Body(v) == v.bytes) && (v.Text? ==> Body(v) == v.utf8) && (v.Real? ==> Body(v) == v.word)
  {
    if v.Integer? && v.n != 0 && v.n != 1 {
      IntegerTypeIsSmallest(v.n, 1);
      PutSignedIsExact(v.n, Width(IntegerType(v.n)));
    }
  }

  // ------------------------------------------------------------- one value

  /** The value that a serial type and the front of the body stand for, before the canonical test. */
  function Stored(serial: nat, s: ByteString): Option<(Value, nat)> {
    if serial == 0 then Some((Null, 0))
    else if serial <= 6 then
      if |s| < Width(serial) then None else Some((Integer(Signed(s[..Width(serial)])), Width(serial)))
    else if serial == 7 then
      if |s| < 8 then None else Some((Real(s[..8]), 8))
    else if serial == 8 then Some((Integer(0), 0))
    else if serial == 9 then Some((Integer(1), 0))
    else if serial == 10 || serial == 11 then None
    else if serial % 2 == 0 then
      var n := (serial - 12) / 2;
      if |s| < n then None else Some((Blob(s[..n]), n))
    else
      var n := (serial - 13) / 2;
      if |s| < n || !WellFormed(s[..n]) then None else Some((Text(s[..n]), n))
  }

  /** One value, accepted only when its type and bytes are the canonical ones. */
  function TakeValue(serial: nat, s: ByteString): Option<(Value, ByteString)> {
    Accept(serial, s, Stored(serial, s))
  }

  function Accept(serial: nat, s: ByteString, stored: Option<(Value, nat)>): Option<(Value, ByteString)> {
    match stored
    case None => None
    case Some((v, n)) =>
      if Valid(v) && n <= |s| && SerialType(v) == serial && Body(v) == s[..n] then Some((v, s[n..])) else None
  }

  lemma StoredUndoesBody(v: Value, rest: ByteString)
    requires Valid(v)
    ensures Stored(SerialType(v), Body(v) + rest) == Some((v, |Body(v)|))
  {
    var s := Body(v) + rest;
    assert s[..|Body(v)|] == Body(v);
    if v.Integer? && v.n != 0 && v.n != 1 {
      IntegerTypeIsSmallest(v.n, 0);
      PutSignedIsExact(v.n, Width(IntegerType(v.n)));
    }
  }

  lemma AcceptedIsCanonical(serial: nat, s: ByteString, stored: Option<(Value, nat)>, v: Value, rest: ByteString)
    requires Accept(serial, s, stored) == Some((v, rest))
    ensures Valid(v) && SerialType(v) == serial && s == Body(v) + rest
  {
    assert s == s[..stored.value.1] + s[stored.value.1..];
  }

  lemma CanonicalIsAccepted(v: Value, rest: ByteString)
    requires Valid(v)
    ensures TakeValue(SerialType(v), Body(v) + rest) == Some((v, rest))
  {
    StoredUndoesBody(v, rest);
    var s := Body(v) + rest;
    assert s[..|Body(v)|] == Body(v) && s[|Body(v)|..] == rest;
  }

  /** Decoding undoes encoding, and accepts nothing else. */
  lemma TakeValueIsExact(serial: nat, s: ByteString, v: Value, rest: ByteString)
    ensures TakeValue(serial, s) == Some((v, rest))
       <==> Valid(v) && SerialType(v) == serial && s == Body(v) + rest
  {
    if Valid(v) && SerialType(v) == serial && s == Body(v) + rest {
      CanonicalIsAccepted(v, rest);
    }
    if TakeValue(serial, s) == Some((v, rest)) {
      AcceptedIsCanonical(serial, s, Stored(serial, s), v, rest);
    }
  }

  // ------------------------------------------------------- serial type lists

  predicate AllValid(values: seq<Value>) {
    forall i :: 0 <= i < |values| ==> Valid(values[i])
  }

  /** The serial types of a record, in order. */
  function TypesOf(values: seq<Value>): seq<nat>
    requires AllValid(values)
  {
    if values == [] then [] else [SerialType(values[0])] + TypesOf(values[1..])
  }

  predicate AllEncodable(types: seq<nat>) {
    forall i :: 0 <= i < |types| ==> types[i] <= MAX_VALUE
  }

  ghost function EncodeAll(types: seq<nat>): ByteString
    requires AllEncodable(types)
  {
    if types == [] then [] else Encode(types[0]) + EncodeAll(types[1..])
  }

  ghost predicate StartsWith(s: ByteString, v: nat) {
    v <= MAX_VALUE && Encode(v) <= s
  }

  /** The varint at the front. */
  ghost function TakeVarint(s: ByteString): Option<(nat, ByteString)> {
    if exists v: nat :: StartsWith(s, v) then
      var v: nat :| StartsWith(s, v);
      Some((v, s[|Encode(v)|..]))
    else None
  }

  lemma TakeVarintIsExact(s: ByteString, v: nat, rest: ByteString)
    ensures TakeVarint(s) == Some((v, rest)) <==> v <= MAX_VALUE && s == Encode(v) + rest
  {
    if v <= MAX_VALUE && s == Encode(v) + rest {
      assert StartsWith(s, v) && s[|Encode(v)|..] == rest;
      var w: nat := TakeVarint(s).value.0;
      assert s[0..|s|] == s;
      ReadsIsUnique(s, 0, |s|, v, |Encode(v)|, w, |Encode(w)|);
    }
    if TakeVarint(s) == Some((v, rest)) {
      assert StartsWith(s, v);
      assert s == s[..|Encode(v)|] + s[|Encode(v)|..];
    }
  }

  /** The varints that fill a byte string. */
  ghost function TakeTypes(s: ByteString): Option<seq<nat>>
    decreases |s|
  {
    if s == [] then Some([])
    else
      match TakeVarint(s)
      case None => None
      case Some((v, rest)) =>
        TakeVarintIsExact(s, v, rest);
        EncodeShape(v);
        match TakeTypes(rest)
        case None => None
        case Some(types) => Some([v] + types)
  }

  lemma {:induction false} TakeTypesIsExact(s: ByteString, types: seq<nat>)
    ensures TakeTypes(s) == Some(types) <==> AllEncodable(types) && EncodeAll(types) == s
    decreases |types|
  {
    if types == [] {
      if s != [] && TakeVarint(s).Some? {
        TakeVarintIsExact(s, TakeVarint(s).value.0, TakeVarint(s).value.1);
      }
    } else if s == [] {
      if AllEncodable(types) {
        EncodeShape(types[0]);
      }
    } else {
      var v, tail := types[0], types[1..];
      assert types == [v] + tail;
      if AllEncodable(types) && EncodeAll(types) == s {
        TakeVarintIsExact(s, v, EncodeAll(tail));
        TakeTypesIsExact(EncodeAll(tail), tail);
      }
      if TakeTypes(s) == Some(types) {
        var rest := TakeVarint(s).value.1;
        assert TakeTypes(rest) == Some(tail);
        TakeVarintIsExact(s, v, rest);
        TakeTypesIsExact(rest, tail);
      }
    }
  }

  // ------------------------------------------------------------------- bodies

  function Bodies(values: seq<Value>): ByteString
    requires AllValid(values)
  {
    if values == [] then [] else Body(values[0]) + Bodies(values[1..])
  }

  /** The values whose bodies fill a byte string. */
  function TakeValues(types: seq<nat>, s: ByteString): Option<seq<Value>> {
    if types == [] then (if s == [] then Some([]) else None)
    else
      match TakeValue(types[0], s)
      case None => None
      case Some((v, rest)) => Prepend([v], TakeValues(types[1..], rest))
  }

  lemma {:induction false} TakeValuesIsExact(types: seq<nat>, s: ByteString, values: seq<Value>)
    ensures TakeValues(types, s) == Some(values)
       <==> AllValid(values) && TypesOf(values) == types && Bodies(values) == s
    decreases |values|
  {
    if values != [] && types != [] {
      var v, tail := values[0], values[1..];
      assert values == [v] + tail;
      if AllValid(values) && TypesOf(values) == types && Bodies(values) == s {
        TakeValueIsExact(types[0], s, v, Bodies(tail));
        assert types[1..] == TypesOf(tail);
        TakeValuesIsExact(types[1..], Bodies(tail), tail);
      }
      if TakeValues(types, s) == Some(values) {
        var rest := TakeValue(types[0], s).value.1;
        assert TakeValues(types[1..], rest) == Some(tail);
        TakeValueIsExact(types[0], s, v, rest);
        TakeValuesIsExact(types[1..], rest, tail);
      }
    }
  }

  // ------------------------------------------------------------------- records

  /** A header size counts its own bytes and those of the serial types. */
  ghost predicate HeaderSize(h: nat, typeBytes: nat) {
    h <= MAX_VALUE && h == |Encode(h)| + typeBytes
  }

  ghost function TypeBytes(values: seq<Value>): ByteString
    requires AllValid(values)
  {
    TypesAreEncodable(values);
    EncodeAll(TypesOf(values))
  }

  lemma {:induction false} TypesAreEncodable(values: seq<Value>)
    requires AllValid(values)
    ensures AllEncodable(TypesOf(values)) && |TypesOf(values)| == |values|
  {
    if values != [] {
      TypesAreEncodable(values[1..]);
      assert SerialType(values[0]) <= MAX_VALUE;
    }
  }

  /** The record with a given header size. */
  ghost function RecordOf(h: nat, values: seq<Value>): ByteString
    requires h <= MAX_VALUE && AllValid(values)
  {
    Encode(h) + TypeBytes(values) + Bodies(values)
  }

  /** A payload is a record of the values. */
  ghost predicate IsRecord(payload: ByteString, values: seq<Value>) {
    && AllValid(values)
    && exists h: nat :: HeaderSize(h, |TypeBytes(values)|) && payload == RecordOf(h, values)
  }

  /** What the two loops of the decoder must find. */
  ghost predicate Parts(payload: ByteString, h: nat, offset: nat, values: seq<Value>) {
    && offset <= h <= |payload| && AllValid(values)
    && TakeTypes(payload[offset..h]) == Some(TypesOf(values))
    && TakeValues(TypesOf(values), payload[h..]) == Some(values)
  }

  lemma RecordHasParts(payload: ByteString, h: nat, offset: nat, values: seq<Value>)
    requires Reads(payload, 0, |payload|, h, offset) && IsRecord(payload, values)
    ensures Parts(payload, h, offset, values)
  {
    var h': nat :| HeaderSize(h', |TypeBytes(values)|) && payload == RecordOf(h', values);
    assert payload[0..|payload|] == payload;
    assert Encode(h') <= payload;
    ReadsIsUnique(payload, 0, |payload|, h, offset, h', |Encode(h')|);
    assert payload[offset..h] == TypeBytes(values);
    assert payload[h..] == Bodies(values);
    TypesAreEncodable(values);
    TakeTypesIsExact(payload[offset..h], TypesOf(values));
    TakeValuesIsExact(TypesOf(values), payload[h..], values);
  }

  lemma PartsMakeRecord(payload: ByteString, h: nat, offset: nat, values: seq<Value>)
    requires Reads(payload, 0, |payload|, h, offset) && Parts(payload, h, offset, values)
    ensures IsRecord(payload, values)
  {
    assert payload[..offset] == Encode(h) by {
      assert payload[0..|payload|] == payload;
    }
    assert payload[offset..h] == TypeBytes(values) by {
      TakeTypesIsExact(payload[offset..h], TypesOf(values));
    }
    assert payload[h..] == Bodies(values) by {
      TakeValuesIsExact(TypesOf(values), payload[h..], values);
    }
    ThreeParts(payload, offset, h);
    assert HeaderSize(h, |TypeBytes(values)|) && payload == RecordOf(h, values);
  }

  lemma ThreeParts(s: ByteString, i: nat, j: nat)
    requires i <= j <= |s|
    ensures s == s[..i] + s[i..j] + s[j..]
  {
  }

  lemma RecordHasHeader(payload: ByteString, values: seq<Value>) returns (h: nat)
    requires IsRecord(payload, values)
    ensures h <= MAX_VALUE && Reads(payload, 0, |payload|, h, |Encode(h)|)
  {
    h :| HeaderSize(h, |TypeBytes(values)|) && payload == RecordOf(h, values);
    assert payload[0..|payload|] == payload;
    assert Encode(h) <= payload;
  }

  /** The list, if it has the expected number of elements. */
  function Exactly<T>(xs: Option<seq<T>>, count: nat): Option<seq<T>> {
    if xs.Some? && |xs.value| == count then xs else None
  }

  /** The header loop: the serial types between two offsets. */
  method ReadTypes(payload: ByteString, start: nat, header: nat, expectedFields: nat) returns (r: Option<seq<nat>>)
    requires start <= header <= |payload|
    ensures r == Exactly(TakeTypes(payload[start..header]), expectedFields)
  {
    var types, offset := [], start;
    ghost var all := TakeTypes(payload[start..header]);
    PrependNothing(all);
    while offset < header
      invariant start <= offset <= header && |types| <= expectedFields
      invariant all == Prepend(types, TakeTypes(payload[offset..header]))
    {
      var read := ReadType(payload, offset, header);
      if read.None? {
        return None;
      }
      PrependTwice(types, read.value.0, TakeTypes(payload[read.value.1..header]));
      types, offset := types + [read.value.0], read.value.1;
      if |types| > expectedFields {
        return None;
      }
    }
    assert types + [] == types;
    if |types| != expectedFields {
      return None;
    }
    return Some(types);
  }

  /** One serial type, taken off the types that are left. */
  method ReadType(payload: ByteString, offset: nat, header: nat) returns (read: Option<(nat, nat)>)
    requires offset < header <= |payload|
    ensures match read
            case None => TakeTypes(payload[offset..header]) == None
            case Some((v, next)) =>
              && offset < next <= header
              && TakeTypes(payload[offset..header]) == Prepend([v], TakeTypes(payload[next..header]))
  {
    read := ReadVarint(payload, offset, header);
    ghost var s := payload[offset..header];
    match read
    case None =>
      if TakeVarint(s).Some? {
        ghost var v, rest := TakeVarint(s).value.0, TakeVarint(s).value.1;
        TakeVarintIsExact(s, v, rest);
        assert Reads(payload, offset, header, v, offset + |Encode(v)|);
      }
    case Some((v, next)) =>
      assert Reads(payload, offset, header, v, next);
      EncodeShape(v);
      assert s == s[..|Encode(v)|] + s[|Encode(v)|..];
      assert s[|Encode(v)|..] == payload[next..header];
      TakeVarintIsExact(s, v, payload[next..header]);
  }

  /** The body loop. */
  method ReadValues(types: seq<nat>, body: ByteString) returns (r: Option<seq<Value>>)
    ensures r == TakeValues(types, body)
  {
    var values, rest := [], body;
    assert types[0..] == types;
    PrependNothing(TakeValues(types, body));
    for i := 0 to |types|
      invariant TakeValues(types, body) == Prepend(values, TakeValues(types[i..], rest))
    {
      assert types[i..][1..] == types[i + 1..];
      var read := TakeValue(types[i], rest);
      if read.None? {
        return None;
      }
      PrependTwice(values, read.value.0, TakeValues(types[i + 1..], read.value.1));
      values, rest := values + [read.value.0], read.value.1;
    }
    assert values + [] == values;
    return if rest == [] then Some(values) else None;
  }

  /** Decodes a record of exactly the expected fields; it accepts records of valid values and nothing else. */
  method ReadRecord(payload: ByteString, expectedFields: nat) returns (r: Option<seq<Value>>)
    ensures forall values :: IsRecord(payload, values) && |values| == expectedFields <==> r == Some(values)
  {
    var header := ReadVarint(payload, 0, |payload|);
    if header.None? {
      forall values ensures !IsRecord(payload, values) {
        if IsRecord(payload, values) {
          var h := RecordHasHeader(payload, values);
        }
      }
      return None;
    }
    var h, offset := header.value.0, header.value.1;
    assert Reads(payload, 0, |payload|, h, offset);
    forall values ensures IsRecord(payload, values) <==> Parts(payload, h, offset, values) {
      if IsRecord(payload, values) {
        RecordHasParts(payload, h, offset, values);
      }
      if Parts(payload, h, offset, values) {
        PartsMakeRecord(payload, h, offset, values);
      }
    }
    if !(offset <= h <= |payload|) {
      return None;
    }
    var types := ReadTypes(payload, offset, h, expectedFields);
    if types.None? {
      forall values ensures !(IsRecord(payload, values) && |values| == expectedFields) {
        if AllValid(values) {
          TypesAreEncodable(values);
        }
      }
      return None;
    }
    r := ReadValues(types.value, payload[h..]);
    forall values ensures IsRecord(payload, values) && |values| == expectedFields <==> r == Some(values) {
      TakeValuesIsExact(types.value, payload[h..], values);
      if AllValid(values) {
        TypesAreEncodable(values);
      }
    }
  }

  /** The values of a record with a given number of fields. */
  ghost function DecodeRecord(payload: ByteString, fields: nat): Option<seq<Value>> {
    if exists values :: IsRecord(payload, values) && |values| == fields then
      var values :| IsRecord(payload, values) && |values| == fields;
      Some(values)
    else None
  }

  lemma DecodeRecordIsExact(payload: ByteString, fields: nat, r: Option<seq<Value>>)
    requires forall values :: IsRecord(payload, values) && |values| == fields <==> r == Some(values)
    ensures r == DecodeRecord(payload, fields)
  {
    if r.Some? {
      assert IsRecord(payload, r.value) && |r.value| == fields;
    }
  }

  // ---------------------------------------------------- payloads of one record

  /** Serial types of this many bytes have two header sizes: one that just fits and one just past it. */
  predicate Ambiguous(typeBytes: nat) {
    exists k :: 1 <= k <= 8 && typeBytes + k == Pow128(k) - 1
  }

  lemma TwoHeadersAreAmbiguous(h: nat, h': nat, n: nat)
    requires HeaderSize(h, n) && HeaderSize(h', n) && h < h'
    ensures Ambiguous(n)
  {
    EncodeLength(h);
    EncodeLength(h');
    var k, k' := |Encode(h)|, |Encode(h')|;
    if k + 1 < k' {
      PowersAreFar(k, k' - 1);
    }
    assert n + k == Pow128(k) - 1;
  }

  lemma LengthIs(h: nat, k: nat)
    requires 1 <= k <= 9 && h <= MAX_VALUE
    requires (k < 9 ==> h < Pow128(k)) && (k > 1 ==> h >= Pow128(k - 1))
    ensures |Encode(h)| == k
  {
    EncodeLength(h);
    var j := |Encode(h)|;
    if j < k - 1 {
      PowersAreFar(j, k - 1);
    }
    if k < j - 1 {
      PowersAreFar(k, j - 1);
    }
  }

  lemma PowerIsCounted(k: nat)
    requires k <= 8
    ensures Pow128(k) <= MAX_EIGHT + 1
  {
    assert Pow128(8) == MAX_EIGHT + 1;
    if k < 8 {
      PowersAreFar(k, 8);
    }
  }

  lemma TwoHeadersAt(n: nat, k: nat)
    requires 1 <= k <= 8 && n + k == Pow128(k) - 1
    ensures HeaderSize(n + k, n) && HeaderSize(n + k + 1, n)
  {
    PowerIsCounted(k);
    PowersAreFar(k - 1, k);
    PowersAreFar(k, k + 1);
    LengthIs(n + k, k);
    LengthIs(n + k + 1, k + 1);
  }

  lemma AmbiguousHasTwoHeaders(n: nat) returns (h: nat, h': nat)
    requires Ambiguous(n)
    ensures HeaderSize(h, n) && HeaderSize(h', n) && h < h'
  {
    var k: nat :| 1 <= k <= 8 && n + k == Pow128(k) - 1;
    TwoHeadersAt(n, k);
    h, h' := n + k, n + k + 1;
  }

  lemma RecordFixesHeader(h: nat, h': nat, values: seq<Value>)
    requires h <= MAX_VALUE && h' <= MAX_VALUE && AllValid(values)
    requires RecordOf(h, values) == RecordOf(h', values)
    ensures h == h'
  {
    var p := RecordOf(h, values);
    assert p[0..|p|] == p;
    assert Encode(h) <= p && Encode(h') <= p;
    ReadsIsUnique(p, 0, |p|, h, |Encode(h)|, h', |Encode(h')|);
  }

  /** Some header size always fits, short of a header that no varint can count. */
  lemma {:induction false} HeaderExists(n: nat, k: nat) returns (h: nat)
    requires 1 <= k <= 9 && n + 9 <= MAX_VALUE
    requires k > 1 ==> n + k - 1 >= Pow128(k - 1)
    ensures HeaderSize(h, n)
    decreases 9 - k
  {
    if k == 9 || n + k < Pow128(k) {
      h := n + k;
      LengthIs(h, k);
    } else {
      h := HeaderExists(n, k + 1);
    }
  }

  /** Every list of valid values has a record, and decoding it gives the values back. */
  lemma RecordExists(values: seq<Value>) returns (payload: ByteString)
    requires AllValid(values) && |TypeBytes(values)| + 9 <= MAX_VALUE
    ensures IsRecord(payload, values)
  {
    var h := HeaderExists(|TypeBytes(values)|, 1);
    payload := RecordOf(h, values);
  }

  /** Values have one accepted payload exactly when their serial types are not of an ambiguous length. */
  lemma OnePayloadExactly(values: seq<Value>)
    requires AllValid(values)
    ensures (forall p, q :: IsRecord(p, values) && IsRecord(q, values) ==> p == q)
       <==> !Ambiguous(|TypeBytes(values)|)
  {
    var n := |TypeBytes(values)|;
    if Ambiguous(n) {
      var h, h' := AmbiguousHasTwoHeaders(n);
      var p, q := RecordOf(h, values), RecordOf(h', values);
      assert IsRecord(p, values) && IsRecord(q, values);
      if p == q {
        RecordFixesHeader(h, h', values);
      }
    } else {
      forall p, q | IsRecord(p, values) && IsRecord(q, values) ensures p == q {
        var h: nat :| HeaderSize(h, n) && p == RecordOf(h, values);
        var h': nat :| HeaderSize(h', n) && q == RecordOf(h', values);
        if h < h' {
          TwoHeadersAreAmbiguous(h, h', n);
        } else if h' < h {
          TwoHeadersAreAmbiguous(h', h, n);
        }
      }
    }
  }

  lemma {:induction false} NullTypes(n: nat)
    ensures AllValid(Nulls(n)) && |TypeBytes(Nulls(n))| == n
  {
    if n > 0 {
      NullTypes(n - 1);
      assert Nulls(n)[1..] == Nulls(n - 1);
      TypesAreEncodable(Nulls(n));
      assert TypesOf(Nulls(n))[1..] == TypesOf(Nulls(n - 1));
      LengthIs(0, 1);
    }
  }

  function Nulls(n: nat): seq<Value> {
    seq(n, _ => Null)
  }

  /** A record of 126 nulls has two payloads. */
  lemma NullsHaveTwoPayloads() returns (p: ByteString, q: ByteString)
    ensures IsRecord(p, Nulls(126)) && IsRecord(q, Nulls(126)) && p != q
  {
    NullTypes(126);
    ShortTypesAreNotAmbiguous(126);
    OnePayloadExactly(Nulls(126));
    p, q :| IsRecord(p, Nulls(126)) && IsRecord(q, Nulls(126)) && p != q;
  }

  /** Below 126 bytes no length is ambiguous, and 126 is. */
  lemma ShortTypesAreNotAmbiguous(n: nat)
    ensures n < 126 ==> !Ambiguous(n)
    ensures Ambiguous(126)
  {
    assert Pow128(1) == 128 && 126 + 1 == Pow128(1) - 1;
    if n < 126 && Ambiguous(n) {
      var k :| 1 <= k <= 8 && n + k == Pow128(k) - 1;
      if k > 1 {
        PowersAreFar(1, k);
      }
      assert false;
    }
  }
}
