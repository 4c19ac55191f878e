/**
  * The text side of `normalize_spdx_expression` (scripts/release-evidence.py): the regular
  * expression scan, the coverage check and the printer.
  */
module SpdxText {
  import opened Outcomes
  import opened SpdxGrammar

  // ----------------------------------------------------------------- scanning

  /** The characters `\s` and `str.strip` treat as white space. */
  predicate IsSpace(c: char) {
    var n := c as int;
    || 9 <= n <= 13 || 28 <= n <= 32 || n == 0x85 || n == 0xA0 || n == 0x1680
    || 0x2000 <= n <= 0x200A || n == 0x2028 || n == 0x2029 || n == 0x202F || n == 0x205F || n == 0x3000
  }

  predicate IsAlphanumeric(c: char) {
    'A' <= c <= 'Z' || 'a' <= c <= 'z' || '0' <= c <= '9'
  }

  predicate IsIdentifierChar(c: char) {
    IsAlphanumeric(c) || c == '.' || c == '-'
  }

  /** The two classes of characters by their codes. */
  lemma CharacterClasses(c: char)
    ensures IsAlphanumeric(c) <==> 65 <= c as int <= 90 || 97 <= c as int <= 122 || 48 <= c as int <= 57
    ensures IsSpace(c)
       <==> c as int in {9, 10, 11, 12, 13, 28, 29, 30, 31, 32, 0x85, 0xA0, 0x1680, 0x2000, 0x2001, 0x2002, 0x2003,
                         0x2004, 0x2005, 0x2006, 0x2007, 0x2008, 0x2009, 0x200A, 0x2028, 0x2029, 0x202F, 0x205F, 0x3000}
  {
  }

  /** Length of the run of identifier characters at the front. */
  function Span(s: string): (n: nat)
    ensures n <= |s|
    ensures forall i :: 0 <= i < n ==> IsIdentifierChar(s[i])
    ensures n < |s| ==> !IsIdentifierChar(s[n])
  {
    if s == [] || !IsIdentifierChar(s[0]) then 0 else 1 + Span(s[1..])
  }

  /**
    * What the pattern matches at the front; 0 is no match. The alternatives are tried in order,
    * so a keyword wins over an identifier that merely starts with it.
    */
  function MatchLength(s: string): (n: nat)
    ensures n <= |s|
  {
    if s == [] then 0
    else if s[0] == '(' || s[0] == ')' then 1
    else if "AND" <= s then 3
    else if "OR" <= s then 2
    else if "WITH" <= s then 4
    else if IsAlphanumeric(s[0]) then Span(s)
    else 0
  }

  /** All matches from left to right; a character that starts no match is skipped. */
  function Tokenize(s: string): seq<string> {
    if s == [] then []
    else
      var n := MatchLength(s);
      if n == 0 then Tokenize(s[1..]) else [s[..n]] + Tokenize(s[n..])
  }

  function Concat(tokens: seq<string>): string {
    if tokens == [] then [] else tokens[0] + Concat(tokens[1..])
  }

  function WithoutSpace(s: string): string {
    if s == [] then []
    else if IsSpace(s[0]) then WithoutSpace(s[1..])
    else [s[0]] + WithoutSpace(s[1..])
  }

  function StripLeft(s: string): string {
    if s != [] && IsSpace(s[0]) then StripLeft(s[1..]) else s
  }

  function StripRight(s: string): string {
    if s != [] && IsSpace(s[|s| - 1]) then StripRight(s[..|s| - 1]) else s
  }

  // ----------------------------------------------------------------- printing

  function JoinWithSpaces(tokens: seq<string>): string {
    if tokens == [] then []
    else if |tokens| == 1 then tokens[0]
    else tokens[0] + " " + JoinWithSpaces(tokens[1..])
  }

  /** Replaces the occurrences of a non-empty pattern from left to right, without overlap. */
  function Replace(s: string, pattern: string, substitute: string): string
    requires pattern != []
    decreases |s|
  {
    if s == [] then []
    else if pattern <= s then substitute + Replace(s[|pattern|..], pattern, substitute)
    else [s[0]] + Replace(s[1..], pattern, substitute)
  }

  function Print(tokens: seq<string>): string {
    Replace(Replace(JoinWithSpaces(tokens), "( ", "("), " )", ")")
  }

  datatype LicenseError = Ambiguous | Invalid

  function Legacy(s: string): string {
    if s == "MIT/Apache-2.0" then "MIT OR Apache-2.0"
    else if s == "Apache-2.0 / MIT" then "Apache-2.0 OR MIT"
    else if s == "Unlicense/MIT" then "Unlicense OR MIT"
    else s
  }

  function Candidate(expression: string): string {
    Legacy(StripRight(StripLeft(expression)))
  }

  function Normalize(expression: string): Result<string, LicenseError> {
    if expression == "NOASSERTION" then Success(expression)
    else
      var candidate := Candidate(expression);
      if '/' in candidate || ',' in candidate || '+' in candidate then Failure(Ambiguous)
      else
        var tokens := Tokenize(candidate);
        if tokens == [] || Concat(tokens) != WithoutSpace(candidate) then Failure(Invalid)
        else if !Accepts(tokens) then Failure(Invalid)
        else Success(Print(tokens))
  }

  // ------------------------------------------------------ tokens and coverage

  /** The strings the scan can produce. */
  predicate IsToken(t: string) {
    || t in RESERVED
    || (&& t != [] && IsAlphanumeric(t[0])
        && (forall i :: 0 <= i < |t| ==> IsIdentifierChar(t[i]))
        && !("AND" <= t) && !("OR" <= t) && !("WITH" <= t))
  }

  predicate AllTokens(tokens: seq<string>) {
    forall i :: 0 <= i < |tokens| ==> IsToken(tokens[i])
  }

  lemma MatchIsToken(s: string)
    requires MatchLength(s) > 0
    ensures IsToken(s[..MatchLength(s)])
  {
    var t := s[..MatchLength(s)];
    if s[0] == '(' || s[0] == ')' {
      assert t == [s[0]];
    } else if "AND" <= s {
      assert t == "AND";
    } else if "OR" <= s {
      assert t == "OR";
    } else if "WITH" <= s {
      assert t == "WITH";
    } else {
      assert "AND" <= t ==> "AND" <= s;
      assert "OR" <= t ==> "OR" <= s;
      assert "WITH" <= t ==> "WITH" <= s;
    }
  }

  lemma {:induction false} TokenizeGivesTokens(s: string)
    ensures AllTokens(Tokenize(s))
    decreases |s|
  {
    if s != [] {
      var n := MatchLength(s);
      if n == 0 {
        TokenizeGivesTokens(s[1..]);
      } else {
        MatchIsToken(s);
        TokenizeGivesTokens(s[n..]);
      }
    }
  }

  /** Every character the scan skipped is white space. */
  predicate Covered(s: string)
    decreases |s|
  {
    s == [] ||
    var n := MatchLength(s);
    if n == 0 then IsSpace(s[0]) && Covered(s[1..]) else Covered(s[n..])
  }

  lemma {:induction false} WithoutSpaceAppend(s: string, t: string)
    requires forall i :: 0 <= i < |s| ==> !IsSpace(s[i])
    ensures WithoutSpace(s + t) == s + WithoutSpace(t)
  {
    if s == [] {
      assert s + t == t;
    } else {
      WithoutSpaceAppend(s[1..], t);
      assert (s + t)[1..] == s[1..] + t;
    }
  }

  lemma TokenHasNoSpace(t: string)
    requires IsToken(t)
    ensures t != []
    ensures forall i :: 0 <= i < |t| ==> !IsSpace(t[i])
  {
  }

  lemma {:induction false} ScanIsShorter(s: string)
    ensures |Concat(Tokenize(s))| <= |WithoutSpace(s)|
    ensures Covered(s) <==> Concat(Tokenize(s)) == WithoutSpace(s)
    ensures Covered(s) <==> |Concat(Tokenize(s))| == |WithoutSpace(s)|
    decreases |s|
  {
    if s != [] {
      var n := MatchLength(s);
      if n == 0 {
        ScanIsShorter(s[1..]);
      } else {
        MatchIsToken(s);
        TokenHasNoSpace(s[..n]);
        assert s[..n] + s[n..] == s;
        WithoutSpaceAppend(s[..n], s[n..]);
        ScanIsShorter(s[n..]);
        var tokens := Tokenize(s);
        assert tokens[1..] == Tokenize(s[n..]);
      }
    }
  }

  /** Comparing the joined tokens with the text detects exactly the skipped characters. */
  lemma CoverageCheckIsExact(s: string)
    ensures Concat(Tokenize(s)) == WithoutSpace(s) <==> Covered(s)
  {
    ScanIsShorter(s);
  }

  // ----------------------------------------------------------- printed layout

  /** One space between tokens, except inside the parentheses. */
  function Layout(tokens: seq<string>): string {
    if tokens == [] then []
    else if |tokens| == 1 then tokens[0]
    else tokens[0] + Separator(tokens[0], tokens[1]) + Layout(tokens[1..])
  }

  function Separator(left: string, right: string): string {
    if left == "(" || right == ")" then "" else " "
  }

  /** The text after the first of the two replacements. */
  function OpenLayout(tokens: seq<string>): string {
    if tokens == [] then []
    else if |tokens| == 1 then tokens[0]
    else tokens[0] + (if tokens[0] == "(" then "" else " ") + OpenLayout(tokens[1..])
  }

  lemma {:induction false} ReplaceSkips(s: string, t: string, pattern: string, substitute: string)
    requires pattern != []
    requires pattern[0] !in s
    ensures Replace(s + t, pattern, substitute) == s + Replace(t, pattern, substitute)
  {
    if s == [] {
      assert s + t == t;
    } else {
      var u := s + t;
      assert u[0] == s[0] && u[1..] == s[1..] + t && !(pattern <= u);
      ReplaceSkips(s[1..], t, pattern, substitute);
    }
  }

  /** What the printer needs to know of a token. */
  predicate Printable(t: string) {
    && t != [] && ' ' !in t
    && (t == "(" || '(' !in t)
    && (t == ")" || t[0] != ')')
  }

  predicate AllPrintable(tokens: seq<string>) {
    forall i :: 0 <= i < |tokens| ==> Printable(tokens[i])
  }

  lemma TokensArePrintable(tokens: seq<string>)
    requires AllTokens(tokens)
    ensures AllPrintable(tokens)
  {
  }

  lemma FirstStep(t: string, rest: string)
    requires Printable(t)
    ensures Replace(t + " " + rest, "( ", "(")
         == t + (if t == "(" then "" else " ") + Replace(rest, "( ", "(")
  {
    if t == "(" {
      assert (t + " " + rest)[2..] == rest;
    } else {
      ReplaceSkips(t + " ", rest, "( ", "(");
    }
  }

  lemma LastStep(t: string)
    requires Printable(t)
    ensures Replace(t, "( ", "(") == t && Replace(t, " )", ")") == t
  {
    assert t + [] == t;
    ReplaceSkips(t, [], " )", ")");
    if t != "(" {
      ReplaceSkips(t, [], "( ", "(");
    }
  }

  lemma {:induction false} FirstReplacement(tokens: seq<string>)
    requires AllPrintable(tokens)
    ensures Replace(JoinWithSpaces(tokens), "( ", "(") == OpenLayout(tokens)
  {
    if |tokens| == 1 {
      LastStep(tokens[0]);
    } else if |tokens| > 1 {
      FirstReplacement(tokens[1..]);
      FirstStep(tokens[0], JoinWithSpaces(tokens[1..]));
    }
  }

  lemma LayoutStartsWithToken(tokens: seq<string>)
    requires AllPrintable(tokens) && tokens != []
    ensures OpenLayout(tokens) != [] && OpenLayout(tokens)[0] == tokens[0][0]
    ensures Layout(tokens) != [] && Layout(tokens)[0] == tokens[0][0]
  {
  }

  lemma SpaceStep(rest: string)
    requires rest != []
    ensures Replace(" " + rest, " )", ")")
         == (if rest[0] == ')' then "" else " ") + Replace(rest, " )", ")")
  {
    if rest[0] == ')' {
      assert (" " + rest)[2..] == rest[1..];
    } else {
      assert (" " + rest)[1..] == rest;
    }
  }

  lemma GapStep(t: string, next: string, rest: string)
    requires rest != [] && (next == ")" <==> rest[0] == ')')
    ensures Replace((if t == "(" then "" else " ") + rest, " )", ")") == Separator(t, next) + Replace(rest, " )", ")")
  {
    if t == "(" {
      assert "" + rest == rest;
    } else {
      SpaceStep(rest);
    }
  }

  lemma SeparatorStep(t: string, next: string, rest: string)
    requires Printable(t)
    requires rest != [] && (next == ")" <==> rest[0] == ')')
    ensures Replace(t + (if t == "(" then "" else " ") + rest, " )", ")")
         == t + Separator(t, next) + Replace(rest, " )", ")")
  {
    var gap, rest' := if t == "(" then "" else " ", Replace(rest, " )", ")");
    assert Replace(t + (gap + rest), " )", ")") == t + (Separator(t, next) + rest') by {
      GapStep(t, next, rest);
      ReplaceSkips(t, gap + rest, " )", ")");
    }
    Associates(t, gap, rest);
    Associates(t, Separator(t, next), rest');
  }

  lemma Associates(a: string, b: string, c: string)
    ensures a + b + c == a + (b + c)
  {
  }

  lemma {:induction false} SecondReplacement(tokens: seq<string>)
    requires AllPrintable(tokens)
    ensures Replace(OpenLayout(tokens), " )", ")") == Layout(tokens)
  {
    if |tokens| == 1 {
      LastStep(tokens[0]);
    } else if |tokens| > 1 {
      SecondReplacement(tokens[1..]);
      LayoutStartsWithToken(tokens[1..]);
      SeparatorStep(tokens[0], tokens[1], OpenLayout(tokens[1..]));
    }
  }

  lemma PrintIsLayout(tokens: seq<string>)
    requires AllTokens(tokens)
    ensures Print(tokens) == Layout(tokens)
  {
    TokensArePrintable(tokens);
    FirstReplacement(tokens);
    SecondReplacement(tokens);
  }

  // ------------------------------------------------------- scanning the print

  lemma {:induction false} SpanOf(t: string, rest: string)
    requires forall i :: 0 <= i < |t| ==> IsIdentifierChar(t[i])
    requires rest == [] || !IsIdentifierChar(rest[0])
    ensures Span(t + rest) == |t|
  {
    if t == [] {
      assert t + rest == rest;
    } else {
      assert (t + rest)[1..] == t[1..] + rest;
      SpanOf(t[1..], rest);
    }
  }

  lemma PrefixOfToken(k: string, t: string, rest: string)
    requires rest == [] || !IsIdentifierChar(rest[0])
    requires forall i :: 0 <= i < |k| ==> IsIdentifierChar(k[i])
    ensures k <= t + rest ==> k <= t
  {
    assert rest != [] ==> (t + rest)[|t|] == rest[0];
  }

  lemma MatchesToken(t: string, rest: string)
    requires IsToken(t)
    requires t == "(" || rest == [] || !IsIdentifierChar(rest[0])
    ensures MatchLength(t + rest) == |t|
  {
    if t == "(" || t == ")" {
    } else if t in RESERVED {
      assert t <= t + rest;
    } else {
      PrefixOfToken("AND", t, rest);
      PrefixOfToken("OR", t, rest);
      PrefixOfToken("WITH", t, rest);
      SpanOf(t, rest);
    }
  }

  lemma TokenizeStep(t: string, rest: string)
    requires IsToken(t)
    requires t == "(" || rest == [] || !IsIdentifierChar(rest[0])
    ensures Tokenize(t + rest) == [t] + Tokenize(rest)
  {
    MatchesToken(t, rest);
    assert (t + rest)[..|t|] == t;
    assert (t + rest)[|t|..] == rest;
  }

  lemma TokenizeSpace(rest: string)
    ensures Tokenize(" " + rest) == Tokenize(rest)
  {
    assert (" " + rest)[1..] == rest;
  }

  lemma TokenizeSeparated(t: string, next: string, rest: string)
    requires IsToken(t)
    requires rest != [] && (next == ")" <==> rest[0] == ')')
    ensures Tokenize(t + Separator(t, next) + rest) == [t] + Tokenize(rest)
  {
    if t == "(" || next == ")" {
      assert t + "" + rest == t + rest;
      TokenizeStep(t, rest);
    } else {
      assert t + " " + rest == t + (" " + rest);
      TokenizeStep(t, " " + rest);
      TokenizeSpace(rest);
    }
  }

  /** The printed text of any token list scans back to that list. */
  lemma {:induction false} PrintedTextScansBack(tokens: seq<string>)
    requires AllTokens(tokens)
    ensures Tokenize(Layout(tokens)) == tokens
  {
    if |tokens| == 1 {
      TokenizeStep(tokens[0], []);
      assert tokens[0] + [] == tokens[0];
    } else if |tokens| > 1 {
      PrintedTextScansBack(tokens[1..]);
      TokensArePrintable(tokens);
      LayoutStartsWithToken(tokens[1..]);
      TokenizeSeparated(tokens[0], tokens[1], Layout(tokens[1..]));
    }
  }

  predicate LayoutChar(c: char) {
    c == ' ' || c == '(' || c == ')' || IsIdentifierChar(c)
  }

  lemma WithoutSpaceStep(t: string, next: string, rest: string)
    requires IsToken(t)
    ensures WithoutSpace(t + Separator(t, next) + rest) == t + WithoutSpace(rest)
  {
    TokenHasNoSpace(t);
    var separator := Separator(t, next);
    assert t + separator + rest == t + (separator + rest);
    WithoutSpaceAppend(t, separator + rest);
    assert (" " + rest)[1..] == rest;
    assert "" + rest == rest;
  }

  lemma {:induction false} LayoutKeepsCharacters(tokens: seq<string>)
    requires AllTokens(tokens)
    ensures WithoutSpace(Layout(tokens)) == Concat(tokens)
  {
    if |tokens| == 1 {
      TokenHasNoSpace(tokens[0]);
      WithoutSpaceAppend(tokens[0], []);
      assert tokens[0] + [] == tokens[0];
    } else if |tokens| > 1 {
      LayoutKeepsCharacters(tokens[1..]);
      WithoutSpaceStep(tokens[0], tokens[1], Layout(tokens[1..]));
    }
  }

  lemma {:induction false} LayoutCharacters(tokens: seq<string>)
    requires AllTokens(tokens)
    ensures forall i :: 0 <= i < |Layout(tokens)| ==> LayoutChar(Layout(tokens)[i])
  {
    if |tokens| > 1 {
      LayoutCharacters(tokens[1..]);
    }
  }

  lemma {:induction false} LayoutEndsWithToken(tokens: seq<string>)
    requires AllTokens(tokens) && tokens != []
    ensures Layout(tokens) != [] && !IsSpace(Layout(tokens)[|Layout(tokens)| - 1])
  {
    TokenHasNoSpace(tokens[0]);
    if |tokens| > 1 {
      LayoutEndsWithToken(tokens[1..]);
    }
  }

  lemma NoSlashNoLegacy(s: string)
    requires '/' !in s
    ensures Legacy(s) == s
  {
    assert "MIT/Apache-2.0"[3] == '/' && "Apache-2.0 / MIT"[11] == '/' && "Unlicense/MIT"[9] == '/';
  }

  lemma TrimmedIsItsOwnCandidate(p: string)
    requires p != [] && !IsSpace(p[0]) && !IsSpace(p[|p| - 1])
    requires '/' !in p
    ensures Candidate(p) == p
  {
    NoSlashNoLegacy(p);
  }

  lemma LayoutIsTrimmed(tokens: seq<string>)
    requires AllTokens(tokens) && tokens != []
    ensures var p := Layout(tokens); p != [] && !IsSpace(p[0]) && !IsSpace(p[|p| - 1])
  {
    TokensArePrintable(tokens);
    LayoutStartsWithToken(tokens);
    LayoutEndsWithToken(tokens);
    TokenHasNoSpace(tokens[0]);
  }

  lemma LayoutIsItsOwnCandidate(tokens: seq<string>)
    requires AllTokens(tokens) && tokens != []
    ensures Candidate(Layout(tokens)) == Layout(tokens)
    ensures var p := Layout(tokens); '/' !in p && ',' !in p && '+' !in p
  {
    LayoutIsTrimmed(tokens);
    LayoutCharacters(tokens);
    TrimmedIsItsOwnCandidate(Layout(tokens));
  }

  // ------------------------------------------------------------- main results

  /** Normalizing keeps the tokens, so the derivation and with it the meaning is unchanged. */
  lemma NormalizeKeepsTokens(expression: string)
    requires expression != "NOASSERTION"
    requires Normalize(expression).Success?
    ensures Tokenize(Normalize(expression).value) == Tokenize(Candidate(expression))
    ensures exists e :: Derives(e, Tokenize(Normalize(expression).value))
  {
    var tokens := Tokenize(Candidate(expression));
    TokenizeGivesTokens(Candidate(expression));
    PrintIsLayout(tokens);
    PrintedTextScansBack(tokens);
    AcceptsExactlyDerivable(tokens);
  }

  /** Normalization is idempotent on everything it accepts. */
  lemma NormalizeIsIdempotent(expression: string)
    requires Normalize(expression).Success?
    ensures Normalize(Normalize(expression).value) == Normalize(expression)
  {
    if expression != "NOASSERTION" {
      var tokens := Tokenize(Candidate(expression));
      TokenizeGivesTokens(Candidate(expression));
      PrintIsLayout(tokens);
      PrintedTextScansBack(tokens);
      LayoutIsItsOwnCandidate(tokens);
      LayoutKeepsCharacters(tokens);
    }
  }

  /** The normal form is canonical: it is shared exactly by the expressions with equal tokens. */
  lemma NormalFormIsCanonical(e: string, f: string)
    requires e != "NOASSERTION" && f != "NOASSERTION"
    requires Normalize(e).Success? && Normalize(f).Success?
    ensures Normalize(e) == Normalize(f) <==> Tokenize(Candidate(e)) == Tokenize(Candidate(f))
  {
    NormalizeKeepsTokens(e);
    NormalizeKeepsTokens(f);
  }

  /** Exactly which texts are accepted, without reference to the scan's skipping or to the recognizer. */
  lemma AcceptedTexts(expression: string)
    requires expression != "NOASSERTION"
    ensures Normalize(expression).Success?
       <==> && Covered(Candidate(expression))
            && exists e :: Derives(e, Tokenize(Candidate(expression)))
  {
    var candidate := Candidate(expression);
    CoverageCheckIsExact(candidate);
    AcceptsExactlyDerivable(Tokenize(candidate));
    if Covered(candidate) {
      CoveredCharacters(candidate);
    }
  }

  lemma TokenCharacters(t: string)
    requires IsToken(t)
    ensures '/' !in t && ',' !in t && '+' !in t
  {
  }

  lemma {:induction false} CoveredCharacters(s: string)
    requires Covered(s)
    ensures '/' !in s && ',' !in s && '+' !in s
    decreases |s|
  {
    if s != [] {
      var n := MatchLength(s);
      if n == 0 {
        CoveredCharacters(s[1..]);
        assert s == [s[0]] + s[1..];
      } else {
        MatchIsToken(s);
        TokenCharacters(s[..n]);
        CoveredCharacters(s[n..]);
        assert s == s[..n] + s[n..];
      }
    }
  }

  // ------------------------------------------------------------ legacy spellings

  predicate AllSpace(s: string) {
    forall i :: 0 <= i < |s| ==> IsSpace(s[i])
  }

  predicate IsTrimmed(s: string) {
    s == [] || (!IsSpace(s[0]) && !IsSpace(s[|s| - 1]))
  }

  lemma {:induction false} StripLeftIs(left: string, t: string)
    requires AllSpace(left) && (t == [] || !IsSpace(t[0]))
    ensures StripLeft(left + t) == t
  {
    if left == [] {
      assert left + t == t;
    } else {
      StripLeftIs(left[1..], t);
      assert (left + t)[1..] == left[1..] + t;
    }
  }

  lemma {:induction false} StripRightIs(t: string, right: string)
    requires AllSpace(right) && (t == [] || !IsSpace(t[|t| - 1]))
    ensures StripRight(t + right) == t
  {
    if right == [] {
      assert t + right == t;
    } else {
      StripRightIs(t, right[..|right| - 1]);
      assert (t + right)[..|t + right| - 1] == t + right[..|right| - 1];
    }
  }

  /** White space around an expression is ignored. */
  lemma StripIs(left: string, t: string, right: string)
    requires AllSpace(left) && AllSpace(right) && IsTrimmed(t) && t != []
    ensures StripRight(StripLeft(left + t + right)) == t
  {
    assert left + t + right == left + (t + right);
    StripLeftIs(left, t + right);
    StripRightIs(t, right);
  }

  /** A license identifier. */
  predicate IsLicense(t: string) {
    IsToken(t) && t !in RESERVED
  }

  lemma LicenseYields(id: string)
    requires id !in RESERVED
    ensures var e := AndOne(Plain(License(id)));
            && WellFormedAnd(e) && YieldAnd(e) == [id]
            && WellFormedOr(OrOne(e)) && YieldOr(OrOne(e)) == [id]
  {
    var p := License(id);
    var w := Plain(p);
    var e := AndOne(w);
    assert WellFormedPrimary(p) && YieldPrimary(p) == [id];
    assert WellFormedWith(w) && YieldWith(w) == [id];
    assert WellFormedAnd(e) && YieldAnd(e) == [id];
  }

  lemma ChoiceIsDerived(a: string, b: string)
    requires IsLicense(a) && IsLicense(b)
    ensures Accepts([a, "OR", b])
  {
    var p, q := AndOne(Plain(License(a))), AndOne(Plain(License(b)));
    var e := OrMore(p, OrOne(q));
    LicenseYields(a);
    LicenseYields(b);
    assert YieldOr(e) == [a] + ["OR"] + [b];
    assert Derives(e, [a, "OR", b]);
    AcceptsExactlyDerivable([a, "OR", b]);
  }

  lemma ChoiceLayout(a: string, b: string)
    requires IsLicense(a) && IsLicense(b)
    ensures AllTokens([a, "OR", b]) && Layout([a, "OR", b]) == a + " OR " + b
  {
    var tokens := [a, "OR", b];
    assert tokens[1..] == ["OR", b] && tokens[1..][1..] == [b];
    assert Layout([b]) == b && Layout(["OR", b]) == "OR" + " " + b;
    assert a + " " + ("OR" + " " + b) == a + " OR " + b;
  }

  /** A choice between two licenses is its own normal form. */
  lemma ChoiceIsNormal(candidate: string, a: string, b: string)
    requires IsLicense(a) && IsLicense(b) && candidate == a + " OR " + b
    ensures Tokenize(candidate) == [a, "OR", b] && Print([a, "OR", b]) == candidate
    ensures Concat([a, "OR", b]) == WithoutSpace(candidate) && Accepts([a, "OR", b])
    ensures '/' !in candidate && ',' !in candidate && '+' !in candidate
  {
    var tokens := [a, "OR", b];
    ChoiceLayout(a, b);
    ChoiceIsDerived(a, b);
    PrintIsLayout(tokens);
    PrintedTextScansBack(tokens);
    LayoutKeepsCharacters(tokens);
    LayoutIsItsOwnCandidate(tokens);
  }

  /** The two licenses of a legacy spelling with a slash. */
  predicate IsLegacy(s: string, a: string, b: string) {
    || (s == "MIT/Apache-2.0" && a == "MIT" && b == "Apache-2.0")
    || (s == "Apache-2.0 / MIT" && a == "Apache-2.0" && b == "MIT")
    || (s == "Unlicense/MIT" && a == "Unlicense" && b == "MIT")
  }

  lemma PlainIsLicense(t: string)
    requires |t| >= 2 && IsAlphanumeric(t[0]) && forall i :: 0 <= i < |t| ==> IsIdentifierChar(t[i])
    requires t[1] != 'N' && t[1] != 'R' && t[..2] != "WI"
    ensures IsLicense(t)
  {
    assert t[..2][0] == t[0] && t[..2][1] == t[1];
  }

  lemma LegacyLicenses()
    ensures IsLicense("MIT") && IsLicense("Apache-2.0") && IsLicense("Unlicense")
  {
    var m, a, u := "MIT", "Apache-2.0", "Unlicense";
    assert m[0] == 'M' && m[1] == 'I' && a[1] == 'p' && u[0] == 'U' && u[1] == 'n';
    assert m[..2][0] == 'M' && a[..2][0] == 'A' && u[..2][0] == 'U';
    PlainIsLicense(m);
    PlainIsLicense(a);
    PlainIsLicense(u);
  }

  lemma LegacyIsChoice(s: string, a: string, b: string)
    requires IsLegacy(s, a, b)
    ensures IsLicense(a) && IsLicense(b) && Legacy(s) == a + " OR " + b && IsTrimmed(s) && s != []
  {
    LegacyLicenses();
    assert "MIT" + " OR " + "Apache-2.0" == "MIT OR Apache-2.0";
    assert "Apache-2.0" + " OR " + "MIT" == "Apache-2.0 OR MIT";
    assert "Unlicense" + " OR " + "MIT" == "Unlicense OR MIT";
  }

  /** Exactly three legacy spellings with a slash are a choice, with any white space around them. */
  lemma LegacyBecomesOr(left: string, s: string, right: string, a: string, b: string)
    requires AllSpace(left) && AllSpace(right) && IsLegacy(s, a, b)
    ensures Normalize(left + s + right) == Success(a + " OR " + b)
  {
    LegacyIsChoice(s, a, b);
    StripIs(left, s, right);
    ChoiceIsNormal(a + " OR " + b, a, b);
    HasSlash(left, s, right, a, b);
  }

  lemma HasSlash(left: string, s: string, right: string, a: string, b: string)
    requires IsLegacy(s, a, b)
    ensures left + s + right != "NOASSERTION"
  {
    assert "MIT/Apache-2.0"[3] == '/' && "Apache-2.0 / MIT"[11] == '/' && "Unlicense/MIT"[9] == '/';
    assert '/' in s;
    assert '/' in left + s + right;
    assert '/' !in "NOASSERTION";
  }

  /** Any other slash, and every comma or plus sign, is refused as ambiguous. */
  lemma AmbiguousExactly(left: string, t: string, right: string)
    requires AllSpace(left) && AllSpace(right) && IsTrimmed(t) && t != [] && left + t + right != "NOASSERTION"
    ensures Normalize(left + t + right) == Failure(Ambiguous)
       <==> ('/' in t && forall a, b :: !IsLegacy(t, a, b)) || ',' in t || '+' in t
  {
    StripIs(left, t, right);
    if a, b :| IsLegacy(t, a, b) {
      LegacyIsChoice(t, a, b);
      ChoiceIsNormal(a + " OR " + b, a, b);
      LegacyBecomesOr(left, t, right, a, b);
    } else {
      NotLegacy(t);
    }
  }

  lemma NotLegacy(t: string)
    requires forall a, b :: !IsLegacy(t, a, b)
    ensures Legacy(t) == t
  {
    assert !IsLegacy(t, "MIT", "Apache-2.0");
    assert !IsLegacy(t, "Apache-2.0", "MIT");
    assert !IsLegacy(t, "Unlicense", "MIT");
  }
}
