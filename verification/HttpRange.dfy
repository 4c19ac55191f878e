/**
  * Strict single-range parsing (src/api/http_range.rs), the `bytes` unit of
  * sections 14.1.2, 14.2 and 14.4 of RFC 9110.
  */
module HttpRange {
  import opened Outcomes

  const U64_LIMIT: nat := 0x1_0000_0000_0000_0000
  type U64 = n: nat | n < U64_LIMIT

  /** An inclusive byte interval inside a representation of `completeLength` bytes. */
  datatype ResolvedByteRange =
    ResolvedByteRange(start: U64, end: U64, completeLength: U64, requested: bool)
  {
    /** Whether the interval selects the byte at position `i`. */
    predicate Selects(i: nat) {
      start <= i <= end
    }
  }

  datatype RangeError =
    | EmptyRepresentation
    | UnsupportedUnit
    | MultipleRanges
    | Malformed
    | Overflow
    | Unsatisfiable
    | ZeroLengthSuffix

  type Resolution = Result<ResolvedByteRange, RangeError>

  // ---------------------------------------------------------------- decimals

  predicate IsDigit(c: char) {
    '0' <= c <= '9'
  }

  predicate AllDigits(s: string) {
    forall i :: 0 <= i < |s| ==> IsDigit(s[i])
  }

  /** What a digit string denotes, without any bound. */
  function Value(s: string): nat
    requires AllDigits(s)
  {
    if s == [] then 0 else 10 * Value(s[..|s| - 1]) + (s[|s| - 1] as int - '0' as int)
  }

  /** The exact meaning of a decimal field: malformed, out of 64-bit range, or its value. */
  function Decimal(s: string): Result<U64, RangeError> {
    if s == [] || !AllDigits(s) then Failure(Malformed)
    else if Value(s) < U64_LIMIT then Success(Value(s))
    else Failure(Overflow)
  }

  lemma {:induction false} PrefixValueAtMost(s: string, i: nat)
    requires AllDigits(s)
    requires i <= |s|
    ensures Value(s[..i]) <= Value(s)
    decreases |s| - i
  {
    if i == |s| {
      assert s[..i] == s;
    } else {
      assert s[..i + 1][..i] == s[..i];
      PrefixValueAtMost(s, i + 1);
    }
  }

  /** The checked accumulation stops at the first overflowing prefix, and that is never premature. */
  method ParseDecimal(value: string) returns (r: Result<U64, RangeError>)
    ensures r == Decimal(value)
  {
    if value == [] || !AllDigits(value) {
      return Failure(Malformed);
    }
    var number: U64 := 0;
    for i := 0 to |value|
      invariant number == Value(value[..i])
    {
      var digit := value[i] as int - '0' as int;
      assert value[..i + 1][..i] == value[..i];
      if number * 10 >= U64_LIMIT || number * 10 + digit >= U64_LIMIT {
        PrefixValueAtMost(value, i + 1);
        return Failure(Overflow);
      }
      number := number * 10 + digit;
    }
    assert value[..|value|] == value;
    return Success(number);
  }

  /** The shortest decimal text of a number, as the standard formatter prints it. */
  function Digits(n: nat): (s: string)
    ensures s != [] && AllDigits(s)
  {
    if n < 10 then [('0' as int + n) as char]
    else Digits(n / 10) + [('0' as int + n % 10) as char]
  }

  lemma {:induction false} ValueOfDigits(n: nat)
    ensures Value(Digits(n)) == n
  {
    var s := Digits(n);
    if n < 10 {
      assert s[..|s| - 1] == [];
    } else {
      ValueOfDigits(n / 10);
      assert s[..|s| - 1] == Digits(n / 10);
    }
  }

  // ----------------------------------------------------------------- parsing

  const UNIT := "bytes="

  predicate IsAsciiWhitespace(c: char) {
    c == ' ' || c == '\t' || c == '\n' || c == '\r' || c as int == 12
  }

  /** Index of the first occurrence of `c`, or the length when there is none. */
  function IndexOf(s: string, c: char): (i: nat)
    ensures i <= |s|
    ensures c !in s[..i]
    ensures i < |s| ==> s[i] == c
  {
    if s == [] || s[0] == c then 0
    else
      var j := IndexOf(s[1..], c);
      assert s[..j + 1] == [s[0]] + s[1..][..j];
      j + 1
  }

  function ResolveBounded(start: U64, requestedEnd: U64, completeLength: U64): Resolution {
    if start >= completeLength || requestedEnd < start then Failure(Unsatisfiable)
    else
      var end := if requestedEnd < completeLength - 1 then requestedEnd else completeLength - 1;
      Success(ResolvedByteRange(start, end, completeLength, true))
  }

  function ResolveOpenEnded(start: U64, completeLength: U64): Resolution {
    if start >= completeLength then Failure(Unsatisfiable)
    else Success(ResolvedByteRange(start, completeLength - 1, completeLength, true))
  }

  function ResolveSuffix(suffixLength: U64, completeLength: U64): Resolution
    requires completeLength > 0
  {
    if suffixLength == 0 then Failure(ZeroLengthSuffix)
    else
      var length := if suffixLength < completeLength then suffixLength else completeLength;
      Success(ResolvedByteRange(completeLength - length, completeLength - 1, completeLength, true))
  }

  function ParseSingleRange(header: Option<string>, completeLength: U64): Resolution {
    if completeLength == 0 then Failure(EmptyRepresentation)
    else if header.None? then Success(ResolvedByteRange(0, completeLength - 1, completeLength, false))
    else if !(UNIT <= header.value) then
      Failure(if '=' in header.value then UnsupportedUnit else Malformed)
    else ParseSpec(header.value[|UNIT|..], completeLength)
  }

  function ParseSpec(value: string, completeLength: U64): Resolution
    requires completeLength > 0
  {
    if value == [] then Failure(Malformed)
    else if ',' in value then Failure(MultipleRanges)
    else if exists i :: 0 <= i < |value| && IsAsciiWhitespace(value[i]) then Failure(Malformed)
    else if '-' !in value then Failure(Malformed)
    else
      var dash := IndexOf(value, '-');
      var first, last := value[..dash], value[dash + 1..];
      if '-' in last then Failure(Malformed)
      else if first == [] && last == [] then Failure(Malformed)
      else if first == [] then
        var suffix :- Decimal(last);
        ResolveSuffix(suffix, completeLength)
      else if last == [] then
        var start :- Decimal(first);
        ResolveOpenEnded(start, completeLength)
      else
        var start :- Decimal(first);
        var end :- Decimal(last);
        ResolveBounded(start, end, completeLength)
  }

  // -------------------------------------------------- the admitted language

  /**
    * Reference semantics, independent of the parser: the header is `bytes=` and two digit
    * strings around one dash, not both empty, all numbers are in range, and the interval is the
    * one RFC 9110 assigns to them.
    */
  ghost predicate Denotes(header: string, L: nat, first: string, last: string, start: nat, end: nat) {
    && AllDigits(first) && AllDigits(last)
    && header == UNIT + first + "-" + last
    && Value(first) < U64_LIMIT && Value(last) < U64_LIMIT
    && (first != [] || last != [])
    && 0 <= start <= end < L
    && (if first == [] then end == L - 1 && Value(last) > 0
                            && (start == L - Value(last) || (start == 0 && Value(last) >= L))
        else if last == [] then start == Value(first) && end == L - 1
        else start == Value(first) <= Value(last)
             && (end == Value(last) || (end == L - 1 && Value(last) >= L)))
  }

  lemma SplitAtDash(first: string, last: string)
    requires AllDigits(first)
    ensures IndexOf(first + "-" + last, '-') == |first|
  {
    var value := first + "-" + last;
    assert value[|first|] == '-';
    assert forall i :: 0 <= i < |first| ==> value[i] != '-';
  }

  lemma DigitSpecCharacters(first: string, last: string)
    requires AllDigits(first) && AllDigits(last)
    ensures var value := first + "-" + last;
            forall i :: 0 <= i < |value| ==> value[i] == '-' || IsDigit(value[i])
  {
  }

  /** What two decimal fields around a dash resolve to. */
  function ResolveFields(first: string, last: string, L: U64): Resolution
    requires L > 0
  {
    if first == [] then
      var suffix :- Decimal(last);
      ResolveSuffix(suffix, L)
    else
      var start :- Decimal(first);
      if last == [] then ResolveOpenEnded(start, L)
      else
        var end :- Decimal(last);
        ResolveBounded(start, end, L)
  }

  lemma DigitSpec(first: string, last: string, L: U64)
    requires L > 0
    requires AllDigits(first) && AllDigits(last)
    requires first != [] || last != []
    ensures ParseSpec(first + "-" + last, L) == ResolveFields(first, last, L)
  {
    var value := first + "-" + last;
    SplitAtDash(first, last);
    DigitSpecCharacters(first, last);
    assert value[|first|] == '-';
    assert value[..|first|] == first;
    assert value[|first| + 1..] == last;
  }

  /** How the parser treats every header built from two digit strings. */
  lemma DigitHeader(first: string, last: string, L: U64)
    requires L > 0
    requires AllDigits(first) && AllDigits(last)
    requires first != [] || last != []
    ensures ParseSingleRange(Some(UNIT + first + "-" + last), L) == ResolveFields(first, last, L)
  {
    var header := UNIT + first + "-" + last;
    assert header[|UNIT|..] == first + "-" + last;
    DigitSpec(first, last, L);
  }

  lemma ResolvedFieldsDenote(first: string, last: string, L: U64, start: U64, end: U64)
    requires L > 0
    requires AllDigits(first) && AllDigits(last)
    requires first != [] || last != []
    ensures ResolveFields(first, last, L) == Success(ResolvedByteRange(start, end, L, true))
       <==> Denotes(UNIT + first + "-" + last, L, first, last, start, end)
  {
  }

  lemma AcceptedSpecHasFields(value: string, L: U64) returns (first: string, last: string)
    requires L > 0 && ParseSpec(value, L).Success?
    ensures value == first + "-" + last
    ensures AllDigits(first) && AllDigits(last)
    ensures first != [] || last != []
  {
    var dash := IndexOf(value, '-');
    first, last := value[..dash], value[dash + 1..];
  }

  /** Every accepted header consists of two digit fields around its only dash. */
  lemma AcceptedHasFields(header: string, L: U64) returns (first: string, last: string)
    requires ParseSingleRange(Some(header), L).Success?
    ensures header == UNIT + first + "-" + last
    ensures AllDigits(first) && AllDigits(last)
    ensures first != [] || last != []
  {
    var value := header[|UNIT|..];
    assert header == UNIT + value;
    first, last := AcceptedSpecHasFields(value, L);
  }

  /** Accepted headers are exactly the ones that denote an interval, and the interval is the denoted one. */
  lemma AcceptsExactlyDenoted(header: string, L: U64, start: U64, end: U64)
    ensures ParseSingleRange(Some(header), L) == Success(ResolvedByteRange(start, end, L, true))
       <==> exists first, last :: Denotes(header, L, first, last, start, end)
  {
    if ParseSingleRange(Some(header), L) == Success(ResolvedByteRange(start, end, L, true)) {
      var first, last := AcceptedHasFields(header, L);
      DigitHeader(first, last, L);
      ResolvedFieldsDenote(first, last, L, start, end);
    }
    forall first, last | Denotes(header, L, first, last, start, end)
      ensures ParseSingleRange(Some(header), L) == Success(ResolvedByteRange(start, end, L, true))
    {
      DigitHeader(first, last, L);
      ResolvedFieldsDenote(first, last, L, start, end);
    }
  }

  /** Whatever the header, an accepted range is a non-empty interval inside the representation. */
  lemma AcceptedRangeIsInside(header: Option<string>, L: U64)
    ensures var r := ParseSingleRange(header, L);
            r.Success? ==> && r.value.start <= r.value.end < L
                           && r.value.completeLength == L
                           && r.value.requested == header.Some?
  {
  }

  /** The request text that names a resolved interval. */
  function RangeHeader(start: U64, end: U64): string {
    UNIT + Digits(start) + "-" + Digits(end)
  }

  /** The request text for everything from `start` on. */
  function OpenRangeHeader(start: U64): string {
    UNIT + Digits(start) + "-"
  }

  lemma ParsePrintedBounded(start: U64, end: U64, L: U64)
    requires L > 0
    ensures ParseSingleRange(Some(RangeHeader(start, end)), L) == ResolveBounded(start, end, L)
  {
    DigitHeader(Digits(start), Digits(end), L);
    ValueOfDigits(start);
    ValueOfDigits(end);
  }

  lemma ParsePrintedOpen(start: U64, L: U64)
    requires L > 0
    ensures ParseSingleRange(Some(OpenRangeHeader(start)), L) == ResolveOpenEnded(start, L)
  {
    assert OpenRangeHeader(start) == UNIT + Digits(start) + "-" + [];
    DigitHeader(Digits(start), [], L);
    ValueOfDigits(start);
  }

  lemma ParsePrintedSuffix(length: U64, L: U64)
    requires L > 0
    ensures ParseSingleRange(Some(UNIT + "-" + Digits(length)), L) == ResolveSuffix(length, L)
  {
    assert UNIT + "-" + Digits(length) == UNIT + [] + "-" + Digits(length);
    DigitHeader([], Digits(length), L);
    ValueOfDigits(length);
  }

  /** Printing a resolved range and parsing it again selects the same bytes. */
  lemma PrintParseRoundTrip(header: Option<string>, L: U64)
    requires ParseSingleRange(header, L).Success?
    ensures var r := ParseSingleRange(header, L).value;
            ParseSingleRange(Some(RangeHeader(r.start, r.end)), L) == Success(r.(requested := true))
  {
    AcceptedRangeIsInside(header, L);
    var r := ParseSingleRange(header, L).value;
    ParsePrintedBounded(r.start, r.end, L);
  }

  /** A download resumed at byte `k` fetches exactly the bytes its first part lacks. */
  lemma ResumptionPartitions(k: U64, L: U64)
    requires 0 < k < L
    ensures var head := ParseSingleRange(Some(RangeHeader(0, k - 1)), L);
            var tail := ParseSingleRange(Some(OpenRangeHeader(k)), L);
            var whole := ParseSingleRange(None, L);
            && head.Success? && tail.Success? && whole.Success?
            && forall i :: whole.value.Selects(i) <==> (head.value.Selects(i) != tail.value.Selects(i))
  {
    ParsePrintedBounded(0, k - 1, L);
    ParsePrintedOpen(k, L);
  }

  /** `bytes=-n` asks for the same bytes as the open range that starts `n` bytes before the end. */
  lemma SuffixIsOpenRange(n: U64, L: U64)
    requires 0 < n <= L
    ensures ParseSingleRange(Some(UNIT + "-" + Digits(n)), L) == ParseSingleRange(Some(OpenRangeHeader(L - n)), L)
  {
    ParsePrintedSuffix(n, L);
    ParsePrintedOpen(L - n, L);
  }

  // ------------------------------------------------------ why a header is refused

  predicate Clean(s: string) {
    ',' !in s && '-' !in s && Spaceless(s)
  }

  /** A header of two fields around its only dash, not both empty. */
  predicate HasFields(header: string, first: string, last: string) {
    header == "bytes=" + first + "-" + last && AreFields(first, last)
  }

  predicate AreFields(first: string, last: string) {
    Clean(first) && Clean(last) && (first != [] || last != [])
  }

  predicate IsNumber(s: string) {
    s != [] && AllDigits(s)
  }

  predicate TooLarge(s: string) {
    IsNumber(s) && Value(s) >= 0x1_0000_0000_0000_0000
  }

  /** A field that is empty or a number below 2^64. */
  predicate IsField(s: string) {
    s == [] || (IsNumber(s) && Value(s) < 0x1_0000_0000_0000_0000)
  }

  lemma FirstDash(first: string, last: string)
    requires '-' !in first
    ensures IndexOf(first + "-" + last, '-') == |first|
  {
    var value := first + "-" + last;
    assert value[|first|] == '-';
    assert forall i :: 0 <= i < |first| ==> value[i] == first[i];
  }

  lemma CleanCharacters(first: string, last: string)
    requires Clean(first) && Clean(last)
    ensures var value := first + "-" + last;
            ',' !in value && '-' in value && forall i :: 0 <= i < |value| ==> !IsAsciiWhitespace(value[i])
  {
    var value := first + "-" + last;
    assert value[|first|] == '-';
  }

  lemma FieldsAreResolved(header: string, first: string, last: string, L: U64)
    requires L > 0 && HasFields(header, first, last)
    ensures ParseSingleRange(Some(header), L) == ResolveFields(first, last, L)
  {
    var value := first + "-" + last;
    assert header == UNIT + value && header[|UNIT|..] == value;
    FirstDash(first, last);
    CleanCharacters(first, last);
    assert value[..|first|] == first && value[|first| + 1..] == last;
  }

  predicate Spaceless(s: string) {
    forall i :: 0 <= i < |s| ==> !IsAsciiWhitespace(s[i])
  }

  lemma PartIsClean(value: string, from: nat, to: nat)
    requires from <= to <= |value| && ',' !in value && Spaceless(value)
    ensures '-' !in value[from..to] ==> Clean(value[from..to])
  {
    var part := value[from..to];
    assert forall i :: 0 <= i < |part| ==> part[i] == value[from + i];
    assert ',' !in part;
  }

  lemma SplitsAt(value: string, i: nat)
    requires i < |value|
    ensures value == value[..i] + [value[i]] + value[i + 1..]
  {
  }

  lemma {:induction false} IndexIsInside(value: string, c: char)
    requires c in value
    ensures IndexOf(value, c) < |value|
  {
    if value[0] != c {
      assert value == [value[0]] + value[1..];
      IndexIsInside(value[1..], c);
    }
  }

  lemma PartsAreClean(value: string)
    requires ',' !in value && '-' in value && Spaceless(value)
    ensures var dash := IndexOf(value, '-');
            && dash < |value| && value == value[..dash] + "-" + value[dash + 1..]
            && Clean(value[..dash]) && ('-' !in value[dash + 1..] ==> Clean(value[dash + 1..]))
  {
    IndexIsInside(value, '-');
    var dash := IndexOf(value, '-');
    SplitsAt(value, dash);
    PartIsClean(value, 0, dash);
    PartIsClean(value, dash + 1, |value|);
  }

  lemma SpecWithoutFields(value: string, L: U64)
    requires L > 0 && forall first, last :: value == first + "-" + last ==> !AreFields(first, last)
    ensures ParseSpec(value, L) == Failure(if ',' in value then MultipleRanges else Malformed)
  {
    if ',' !in value && '-' in value && Spaceless(value) {
      PartsAreClean(value);
      var dash := IndexOf(value, '-');
      assert !AreFields(value[..dash], value[dash + 1..]);
    }
  }

  /** A header without such fields is refused before any number is read. */
  lemma WithoutFields(header: string, L: U64)
    requires L > 0 && forall first, last :: !HasFields(header, first, last)
    ensures ParseSingleRange(Some(header), L)
         == if !("bytes=" <= header) then Failure(if '=' in header then UnsupportedUnit else Malformed)
            else Failure(if ',' in header[6..] then MultipleRanges else Malformed)
  {
    if "bytes=" <= header {
      var value := header[6..];
      forall first, last | value == first + "-" + last ensures !AreFields(first, last) {
        assert header == "bytes=" + first + "-" + last;
        assert !HasFields(header, first, last);
      }
      SpecWithoutFields(value, L);
    }
  }

  lemma FieldErrors(first: string, last: string, L: U64)
    requires L > 0 && (first != [] || last != [])
    ensures var r := ResolveFields(first, last, L);
            && r != Failure(UnsupportedUnit) && r != Failure(MultipleRanges) && r != Failure(EmptyRepresentation)
            && (r == Failure(Overflow) <==> TooLarge(first) || (IsField(first) && TooLarge(last)))
            && (r == Failure(ZeroLengthSuffix) <==> first == [] && IsNumber(last) && Value(last) == 0)
            && (r == Failure(Unsatisfiable)
                <==> && IsNumber(first) && IsField(first) && IsField(last)
                     && (Value(first) >= L || (last != [] && Value(last) < Value(first))))
  {
  }

  /** Which error a header gets, for every error but the malformed ones that remain. */
  lemma ErrorsAreExact(header: string, L: U64)
    requires L > 0
    ensures var r := ParseSingleRange(Some(header), L);
            && (r == Failure(UnsupportedUnit) <==> !("bytes=" <= header) && '=' in header)
            && (r == Failure(MultipleRanges) <==> "bytes=" <= header && ',' in header[6..])
            && (r == Failure(Overflow)
                <==> exists first, last :: HasFields(header, first, last)
                       && (TooLarge(first) || (IsField(first) && TooLarge(last))))
            && (r == Failure(ZeroLengthSuffix)
                <==> exists last :: HasFields(header, "", last) && IsNumber(last) && Value(last) == 0)
            && (r == Failure(Unsatisfiable)
                <==> exists first, last :: HasFields(header, first, last)
                       && IsNumber(first) && IsField(first) && IsField(last)
                       && (Value(first) >= L || (last != [] && Value(last) < Value(first))))
            && r != Failure(EmptyRepresentation)
  {
    if first, last :| HasFields(header, first, last) {
      FieldsAreResolved(header, first, last, L);
      FieldErrors(first, last, L);
      forall f, l | HasFields(header, f, l) ensures f == first && l == last {
        FieldsAreUnique(first, last, f, l);
      }
      FieldsHaveNoComma(header, first, last);
    } else {
      WithoutFields(header, L);
    }
  }

  lemma FieldsAreUnique(first: string, last: string, f: string, l: string)
    requires "bytes=" + first + "-" + last == "bytes=" + f + "-" + l && '-' !in first && '-' !in f
    ensures f == first && l == last
  {
    var value, other := first + "-" + last, f + "-" + l;
    assert ("bytes=" + first + "-" + last)[6..] == value && ("bytes=" + f + "-" + l)[6..] == other;
    FirstDash(first, last);
    FirstDash(f, l);
    assert value[..|first|] == first && other[..|f|] == f;
    assert value[|first| + 1..] == last && other[|f| + 1..] == l;
  }

  lemma FieldsHaveNoComma(header: string, first: string, last: string)
    requires HasFields(header, first, last)
    ensures "bytes=" <= header && ',' !in header[6..]
  {
    assert header[6..] == first + "-" + last;
    CleanCharacters(first, last);
  }
}
