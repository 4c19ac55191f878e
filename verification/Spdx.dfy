/**
  * Tokens and grammar of the license expressions that `normalize_spdx_expression`
  * (scripts/release-evidence.py) accepts: the expressions of Annex D of SPDX 2.3 without `+`,
  * except that WITH may follow a parenthesized group.
  */
module SpdxGrammar {
  import opened Outcomes

  const RESERVED: set<string> := {"(", ")", "AND", "OR", "WITH"}

  // ------------------------------------------------- derivations of the grammar

  /** Or := And (OR And)* */
  datatype OrExpr = OrOne(operand: AndExpr) | OrMore(operand: AndExpr, others: OrExpr)

  /** And := With (AND With)* */
  datatype AndExpr = AndOne(operand: WithExpr) | AndMore(operand: WithExpr, others: AndExpr)

  /** With := Primary (WITH identifier)? */
  datatype WithExpr = Plain(base: Primary) | With(base: Primary, exception: string)

  /** Primary := identifier | ( Or ) */
  datatype Primary = License(id: string) | Group(body: OrExpr)

  ghost predicate WellFormedOr(e: OrExpr) {
    WellFormedAnd(e.operand) && (e.OrMore? ==> WellFormedOr(e.others))
  }

  ghost predicate WellFormedAnd(e: AndExpr) {
    WellFormedWith(e.operand) && (e.AndMore? ==> WellFormedAnd(e.others))
  }

  ghost predicate WellFormedWith(e: WithExpr) {
    WellFormedPrimary(e.base) && (e.With? ==> e.exception !in RESERVED)
  }

  ghost predicate WellFormedPrimary(e: Primary) {
    match e
    case License(id) => id !in RESERVED
    case Group(body) => WellFormedOr(body)
  }

  function YieldOr(e: OrExpr): seq<string> {
    match e
    case OrOne(a) => YieldAnd(a)
    case OrMore(a, others) => YieldAnd(a) + ["OR"] + YieldOr(others)
  }

  function YieldAnd(e: AndExpr): seq<string> {
    match e
    case AndOne(w) => YieldWith(w)
    case AndMore(w, others) => YieldWith(w) + ["AND"] + YieldAnd(others)
  }

  function YieldWith(e: WithExpr): seq<string> {
    match e
    case Plain(p) => YieldPrimary(p)
    case With(p, exception) => YieldPrimary(p) + ["WITH", exception]
  }

  function YieldPrimary(e: Primary): seq<string> {
    match e
    case License(id) => [id]
    case Group(body) => ["("] + YieldOr(body) + [")"]
  }

  // --------------------------------------------------- deterministic reading

  predicate StartsWith(s: seq<string>, token: string) {
    s != [] && s[0] == token
  }

  /** Reads the longest Or expression at the front; returns its derivation and what is left. */
  function ReadOr(s: seq<string>): (r: Option<(OrExpr, seq<string>)>)
    ensures r.Some? ==> |r.value.1| < |s|
    ensures r.Some? ==> WellFormedOr(r.value.0) && s == YieldOr(r.value.0) + r.value.1
    decreases |s|, 3
  {
    var (a, rest) :- ReadAnd(s);
    if StartsWith(rest, "OR") then
      var (others, left) :- ReadOr(rest[1..]);
      assert s == YieldAnd(a) + (["OR"] + rest[1..]);
      Some((OrMore(a, others), left))
    else Some((OrOne(a), rest))
  }

  function ReadAnd(s: seq<string>): (r: Option<(AndExpr, seq<string>)>)
    ensures r.Some? ==> |r.value.1| < |s|
    ensures r.Some? ==> WellFormedAnd(r.value.0) && s == YieldAnd(r.value.0) + r.value.1
    decreases |s|, 2
  {
    var (w, rest) :- ReadWith(s);
    if StartsWith(rest, "AND") then
      var (others, left) :- ReadAnd(rest[1..]);
      assert s == YieldWith(w) + (["AND"] + rest[1..]);
      Some((AndMore(w, others), left))
    else Some((AndOne(w), rest))
  }

  function ReadWith(s: seq<string>): (r: Option<(WithExpr, seq<string>)>)
    ensures r.Some? ==> |r.value.1| < |s|
    ensures r.Some? ==> WellFormedWith(r.value.0) && s == YieldWith(r.value.0) + r.value.1
    decreases |s|, 1
  {
    var (p, rest) :- ReadPrimary(s);
    if StartsWith(rest, "WITH") then
      if |rest| < 2 || rest[1] in RESERVED then None
      else
        assert rest == ["WITH", rest[1]] + rest[2..];
        Some((With(p, rest[1]), rest[2..]))
    else Some((Plain(p), rest))
  }

  function ReadPrimary(s: seq<string>): (r: Option<(Primary, seq<string>)>)
    ensures r.Some? ==> |r.value.1| < |s|
    ensures r.Some? ==> WellFormedPrimary(r.value.0) && s == YieldPrimary(r.value.0) + r.value.1
    decreases |s|, 0
  {
    if s == [] then None
    else if s[0] == "(" then
      var (body, rest) :- ReadOr(s[1..]);
      if !StartsWith(rest, ")") then None
      else
        assert rest == [")"] + rest[1..];
        Some((Group(body), rest[1..]))
    else if s[0] in RESERVED then None
    else Some((License(s[0]), s[1..]))
  }

  // ------------------------------------------------------------ completeness

  lemma OrStep(s: seq<string>, a: AndExpr, tail: seq<string>, others: OrExpr, rest: seq<string>)
    requires ReadAnd(s) == Some((a, tail))
    requires StartsWith(tail, "OR") && ReadOr(tail[1..]) == Some((others, rest))
    ensures ReadOr(s) == Some((OrMore(a, others), rest))
  {
  }

  lemma AndStep(s: seq<string>, w: WithExpr, tail: seq<string>, others: AndExpr, rest: seq<string>)
    requires ReadWith(s) == Some((w, tail))
    requires StartsWith(tail, "AND") && ReadAnd(tail[1..]) == Some((others, rest))
    ensures ReadAnd(s) == Some((AndMore(w, others), rest))
  {
  }

  lemma {:induction false} ReadsOr(e: OrExpr, rest: seq<string>)
    requires WellFormedOr(e)
    requires !StartsWith(rest, "OR") && !StartsWith(rest, "AND") && !StartsWith(rest, "WITH")
    ensures ReadOr(YieldOr(e) + rest) == Some((e, rest))
    decreases e
  {
    match e
    case OrOne(a) => ReadsAnd(a, rest);
    case OrMore(a, others) =>
      var left := YieldOr(others) + rest;
      var tail := ["OR"] + left;
      ReadsAnd(a, tail);
      ReadsOr(others, rest);
      assert tail[1..] == left;
      OrStep(YieldAnd(a) + tail, a, tail, others, rest);
      assert YieldOr(e) + rest == YieldAnd(a) + tail;
  }

  lemma {:induction false} ReadsAnd(e: AndExpr, rest: seq<string>)
    requires WellFormedAnd(e)
    requires !StartsWith(rest, "AND") && !StartsWith(rest, "WITH")
    ensures ReadAnd(YieldAnd(e) + rest) == Some((e, rest))
    decreases e
  {
    match e
    case AndOne(w) => ReadsWith(w, rest);
    case AndMore(w, others) =>
      var left := YieldAnd(others) + rest;
      var tail := ["AND"] + left;
      ReadsWith(w, tail);
      ReadsAnd(others, rest);
      assert tail[1..] == left;
      AndStep(YieldWith(w) + tail, w, tail, others, rest);
      assert YieldAnd(e) + rest == YieldWith(w) + tail;
  }

  lemma {:induction false} ReadsWith(e: WithExpr, rest: seq<string>)
    requires WellFormedWith(e)
    requires !StartsWith(rest, "WITH")
    ensures ReadWith(YieldWith(e) + rest) == Some((e, rest))
    decreases e
  {
    match e
    case Plain(p) => ReadsPrimary(p, rest);
    case With(p, exception) =>
      var tail := ["WITH", exception] + rest;
      ReadsPrimary(p, tail);
      assert YieldWith(e) + rest == YieldPrimary(p) + tail;
      assert tail[2..] == rest;
  }

  lemma {:induction false} ReadsPrimary(e: Primary, rest: seq<string>)
    requires WellFormedPrimary(e)
    ensures ReadPrimary(YieldPrimary(e) + rest) == Some((e, rest))
    decreases e
  {
    match e
    case License(id) =>
    case Group(body) =>
      ReadsOr(body, [")"] + rest);
      var s := YieldPrimary(e) + rest;
      assert s[1..] == YieldOr(body) + ([")"] + rest);
      assert ([")"] + rest)[1..] == rest;
  }

  ghost predicate Derives(e: OrExpr, tokens: seq<string>) {
    WellFormedOr(e) && YieldOr(e) == tokens
  }

  /** The recognizer's verdict: one Or expression that uses every token. */
  predicate Accepts(tokens: seq<string>) {
    var r := ReadOr(tokens);
    r.Some? && r.value.1 == []
  }

  /** Acceptance is exactly derivability in the grammar. */
  lemma AcceptsExactlyDerivable(tokens: seq<string>)
    ensures Accepts(tokens) <==> exists e :: Derives(e, tokens)
  {
    if Accepts(tokens) {
      assert Derives(ReadOr(tokens).value.0, tokens);
    }
    forall e | Derives(e, tokens)
      ensures Accepts(tokens)
    {
      ReadsOr(e, []);
      assert YieldOr(e) + [] == tokens;
    }
  }

  /** No token list has two derivations: precedence and grouping are fully determined. */
  lemma DerivationIsUnique(tokens: seq<string>, e: OrExpr, f: OrExpr)
    requires Derives(e, tokens) && Derives(f, tokens)
    ensures e == f
  {
    ReadsOr(e, []);
    ReadsOr(f, []);
    assert YieldOr(e) + [] == tokens == YieldOr(f) + [];
  }

  // --------------------------------------------- the shared-index recognizer

  function OrRest(s: seq<string>): Option<seq<string>> {
    var (_, rest) :- ReadOr(s);
    Some(rest)
  }

  function AndRest(s: seq<string>): Option<seq<string>> {
    var (_, rest) :- ReadAnd(s);
    Some(rest)
  }

  function WithRest(s: seq<string>): Option<seq<string>> {
    var (_, rest) :- ReadWith(s);
    Some(rest)
  }

  function PrimaryRest(s: seq<string>): Option<seq<string>> {
    var (_, rest) :- ReadPrimary(s);
    Some(rest)
  }

  /** The four mutually recursive procedures, which advance one shared `index`. */
  class Recognizer {
    const tokens: seq<string>
    var index: nat

    constructor (tokens: seq<string>)
      ensures this.tokens == tokens && index == 0
    {
      this.tokens := tokens;
      index := 0;
    }

    method ParsePrimary() returns (ok: bool)
      requires index <= |tokens|
      modifies this
      ensures index <= |tokens|
      ensures ok ==> old(index) < index
      ensures PrimaryRest(tokens[old(index)..]) == if ok then Some(tokens[index..]) else None
      decreases |tokens| - index, 0
    {
      if index >= |tokens| {
        return false;
      }
      if tokens[index] == "(" {
        assert tokens[index..][1..] == tokens[index + 1..];
        index := index + 1;
        var inner := ParseOr();
        if !inner || index >= |tokens| || tokens[index] != ")" {
          return false;
        }
        assert tokens[index..][1..] == tokens[index + 1..];
        index := index + 1;
        return true;
      }
      if tokens[index] in RESERVED {
        return false;
      }
      assert tokens[index..][1..] == tokens[index + 1..];
      index := index + 1;
      return true;
    }

    method ParseWith() returns (ok: bool)
      requires index <= |tokens|
      modifies this
      ensures index <= |tokens|
      ensures ok ==> old(index) < index
      ensures WithRest(tokens[old(index)..]) == if ok then Some(tokens[index..]) else None
      decreases |tokens| - index, 1
    {
      ok := ParsePrimary();
      if ok && index < |tokens| && tokens[index] == "WITH" {
        assert |tokens[index..]| >= 2 ==> tokens[index..][1] == tokens[index + 1];
        assert |tokens[index..]| >= 2 ==> tokens[index..][2..] == tokens[index + 2..];
        index := index + 1;
        if index >= |tokens| || tokens[index] in RESERVED {
          return false;
        }
        index := index + 1;
      }
    }

    method ParseAnd() returns (ok: bool)
      requires index <= |tokens|
      modifies this
      ensures index <= |tokens|
      ensures ok ==> old(index) < index
      ensures AndRest(tokens[old(index)..]) == if ok then Some(tokens[index..]) else None
      decreases |tokens| - index, 2
    {
      ok := ParseWith();
      if !ok {
        return;
      }
      while index < |tokens| && tokens[index] == "AND"
        invariant old(index) < index <= |tokens|
        invariant AndRest(tokens[old(index)..])
               == if StartsWith(tokens[index..], "AND") then AndRest(tokens[index..][1..])
                  else Some(tokens[index..])
      {
        assert tokens[index..][1..] == tokens[index + 1..];
        index := index + 1;
        ok := ParseWith();
        if !ok {
          return;
        }
      }
    }

    method ParseOr() returns (ok: bool)
      requires index <= |tokens|
      modifies this
      ensures index <= |tokens|
      ensures ok ==> old(index) < index
      ensures OrRest(tokens[old(index)..]) == if ok then Some(tokens[index..]) else None
      decreases |tokens| - index, 3
    {
      ok := ParseAnd();
      if !ok {
        return;
      }
      while index < |tokens| && tokens[index] == "OR"
        invariant old(index) < index <= |tokens|
        invariant OrRest(tokens[old(index)..])
               == if StartsWith(tokens[index..], "OR") then OrRest(tokens[index..][1..])
                  else Some(tokens[index..])
      {
        assert tokens[index..][1..] == tokens[index + 1..];
        index := index + 1;
        ok := ParseAnd();
        if !ok {
          return;
        }
      }
    }
  }

  /** The source's recognition step: parse one Or expression, then require the index at the end. */
  method Recognize(tokens: seq<string>) returns (accepted: bool)
    ensures accepted <==> exists e :: Derives(e, tokens)
  {
    var recognizer := new Recognizer(tokens);
    var ok := recognizer.ParseOr();
    accepted := ok && recognizer.index == |tokens|;
    assert tokens[0..] == tokens;
    AcceptsExactlyDerivable(tokens);
  }
}
