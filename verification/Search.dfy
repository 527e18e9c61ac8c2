/**
 * Product search of src/server/repositories/product.ts: LIKE patterns, the escape that keeps a query
 * from being one, the model-number normaliser, and the condition list `searchProducts` builds.
 *
 * `lower` stands for lower-casing one character, which the program and the database are taken to do
 * alike; what the results need of it is a parameter of each of them.
 */
module Search {
  import opened Prelude
  import opened Pieces

  // ---------------------------------------------------------------- LIKE

  /** The pieces of a pattern: any run, any one character, or one given character. */
  datatype Token = AnyRun | AnyOne | Literal(c: char)

  const ESCAPE: char := '\\'

  /**
   * A pattern read as section 8.5 of ISO/IEC 9075-2 reads it: the escape character makes the next
   * character literal and may only stand before `%`, `_` or itself.
   */
  function ParsePattern(p: string): Option<seq<Token>> {
    if p == "" then Some([])
    else if p[0] == ESCAPE then
      if |p| < 2 || p[1] !in {'%', '_', ESCAPE} then None
      else Prepend(Literal(p[1]), ParsePattern(p[2..]))
    else Prepend(if p[0] == '%' then AnyRun else if p[0] == '_' then AnyOne else Literal(p[0]), ParsePattern(p[1..]))
  }

  function Prepend(t: Token, rest: Option<seq<Token>>): Option<seq<Token>> {
    if rest.Some? then Some([t] + rest.value) else None
  }

  predicate Matches(tokens: seq<Token>, s: string)
    decreases |tokens| + |s|
  {
    if tokens == [] then s == ""
    else match tokens[0]
      case AnyRun => Matches(tokens[1..], s) || (s != "" && Matches(tokens, s[1..]))
      case AnyOne => s != "" && Matches(tokens[1..], s[1..])
      case Literal(c) => s != "" && s[0] == c && Matches(tokens[1..], s[1..])
  }

  /** `s LIKE p ESCAPE '\'`; none where the statement would fail. */
  function Like(s: string, p: string): Option<bool> {
    match ParsePattern(p)
    case None => None
    case Some(tokens) => Some(Matches(tokens, s))
  }

  function Literals(q: string): (r: seq<Token>)
    ensures |r| == |q|
  {
    Each(c => Literal(c), q)
  }

  lemma {:induction false} MatchesRest(s: string)
    ensures Matches([AnyRun], s)
  {
    if s == "" {
      assert Matches([AnyRun][1..], "");
    } else {
      MatchesRest(s[1..]);
    }
  }

  /** Literal text and then anything: the text is a prefix. */
  lemma {:induction false} MatchesPrefix(q: string, s: string)
    ensures Matches(Literals(q) + [AnyRun], s) <==> HasAt(s, q, 0)
  {
    if q == "" {
      assert Literals(q) + [AnyRun] == [AnyRun];
      MatchesRest(s);
    } else {
      assert (Literals(q) + [AnyRun])[1..] == Literals(q[1..]) + [AnyRun];
      if s != "" {
        MatchesPrefix(q[1..], s[1..]);
        PrefixStep(s, q);
      }
    }
  }

  lemma PrefixStep(s: string, q: string)
    requires s != "" && q != ""
    ensures HasAt(s, q, 0) <==> s[0] == q[0] && HasAt(s[1..], q[1..], 0)
  {
    if s[0] == q[0] && HasAt(s[1..], q[1..], 0) {
      assert s == [s[0]] + s[1..] && q == [q[0]] + q[1..];
      assert s[..|q|] == [s[0]] + s[1..][..|q| - 1];
    }
    if HasAt(s, q, 0) {
      assert s[1..][..|q| - 1] == s[0..|q|][1..];
    }
  }

  lemma ContainsStep(s: string, q: string)
    requires s != ""
    ensures Contains(s, q) <==> HasAt(s, q, 0) || Contains(s[1..], q)
  {
    if Contains(s, q) && !HasAt(s, q, 0) {
      var i: nat :| i <= |s| && HasAt(s, q, i);
      assert s[1..][i - 1..i - 1 + |q|] == s[i..i + |q|];
      assert HasAt(s[1..], q, i - 1);
    }
    if Contains(s[1..], q) {
      var i: nat :| i <= |s[1..]| && HasAt(s[1..], q, i);
      assert s[i + 1..i + 1 + |q|] == s[1..][i..i + |q|];
      assert HasAt(s, q, i + 1);
    }
    if HasAt(s, q, 0) { assert 0 <= |s|; }
  }

  /** Anything, literal text, anything: the text occurs somewhere. */
  lemma {:induction false} MatchesSomewhere(q: string, s: string)
    ensures Matches([AnyRun] + (Literals(q) + [AnyRun]), s) <==> Contains(s, q)
  {
    var tokens := [AnyRun] + (Literals(q) + [AnyRun]);
    assert tokens[1..] == Literals(q) + [AnyRun];
    MatchesPrefix(q, s);
    if s != "" {
      MatchesSomewhere(q, s[1..]);
      ContainsStep(s, q);
    } else {
      assert Contains(s, q) <==> HasAt(s, q, 0);
    }
  }

  // ---------------------------------------------------------------- escaping

  predicate IsMeta(c: char) { c == ESCAPE || c == '%' || c == '_' }

  /** `value.replace(/[\\%_]/g, (char) => "\\" + char)`. */
  function EscapeLike(value: string): string {
    if value == "" then ""
    else EscapeChar(value[0]) + EscapeLike(value[1..])
  }

  function EscapeChar(c: char): string { if IsMeta(c) then [ESCAPE, c] else [c] }

  lemma EscapedCharParses(c: char, rest: string)
    ensures ParsePattern(EscapeChar(c) + rest) == Prepend(Literal(c), ParsePattern(rest))
  {
    var p := EscapeChar(c) + rest;
    if IsMeta(c) { assert p[2..] == rest; } else { assert p[1..] == rest; }
  }

  lemma PrependLiteral(c: char, q: string, tokens: seq<Token>)
    ensures [Literal(c)] + (Literals(q) + tokens) == Literals([c] + q) + tokens
  {
    EachStep(x => Literal(x), c, q);
  }

  /** An escaped text parses, whatever follows it, and means itself. */
  lemma {:induction false} EscapedParses(q: string, rest: string)
    ensures ParsePattern(EscapeLike(q) + rest)
            == if ParsePattern(rest).None? then None else Some(Literals(q) + ParsePattern(rest).value)
  {
    if q == "" {
      assert EscapeLike(q) + rest == rest;
      if ParsePattern(rest).Some? { assert Literals(q) + ParsePattern(rest).value == ParsePattern(rest).value; }
    } else {
      EscapedParses(q[1..], rest);
      EscapedCharParses(q[0], EscapeLike(q[1..]) + rest);
      assert EscapeLike(q) + rest == EscapeChar(q[0]) + (EscapeLike(q[1..]) + rest);
      assert [q[0]] + q[1..] == q;
      if ParsePattern(rest).Some? { PrependLiteral(q[0], q[1..], ParsePattern(rest).value); }
    }
  }

  lemma PercentParses()
    ensures ParsePattern("%") == Some([AnyRun])
  {
    assert "%"[1..] == "" && [AnyRun] + [] == [AnyRun];
  }

  /**
   * For every query and every name, the escaped pattern never fails and matches exactly the names
   * that contain the query, character for character.
   */
  lemma EscapedLikeIsSubstring(name: string, q: string)
    ensures Like(name, "%" + EscapeLike(q) + "%") == Some(Contains(name, q))
  {
    var p := "%" + EscapeLike(q) + "%";
    EscapedParses(q, "%");
    PercentParses();
    assert p[1..] == EscapeLike(q) + "%";
    assert ParsePattern(p) == Some([AnyRun] + (Literals(q) + [AnyRun]));
    MatchesSomewhere(q, name);
  }

  /** Without the escape a pattern may fail, and may match a name that does not hold the query. */
  lemma UnescapedIsNotSubstring()
    ensures Like("ab", "%\\") == None
    ensures Like("ab", "%_%") == Some(true) && !Contains("ab", "_")
  {
    assert "%\\"[1..] == "\\" && ParsePattern("\\") == None;
    PercentParses();
    assert "%_%"[1..] == "_%" && "_%"[1..] == "%";
    assert ParsePattern("_%") == Some([AnyOne] + [AnyRun]);
    var tokens := [AnyRun] + ([AnyOne] + [AnyRun]);
    assert tokens[1..] == [AnyOne] + [AnyRun] && ([AnyOne] + [AnyRun])[1..] == [AnyRun];
    MatchesRest("ab"[1..]);
    forall i: nat | i <= 2 ensures !HasAt("ab", "_", i) {
      if i < 2 { assert "ab"[i..i + 1][0] != '_'; }
    }
  }

  // ---------------------------------------------------------------- the model normaliser

  predicate IsModelChar(c: char) { 'a' <= c <= 'z' || '0' <= c <= '9' }

  function LowerAll(lower: char -> string, s: string): string { Flatten(Each(lower, s)) }

  /** `normalizeModelQuery`, and the expression the model index is built on. */
  function NormalizeModelQuery(lower: char -> string, s: string): string {
    Filter(IsModelChar, LowerAll(lower, s))
  }

  /** What one character contributes to a normalised model. */
  function Contribution(lower: char -> string, c: char): string { Filter(IsModelChar, lower(c)) }

  lemma {:induction false} NormalizeAppend(lower: char -> string, a: string, b: string)
    ensures NormalizeModelQuery(lower, a + b) == NormalizeModelQuery(lower, a) + NormalizeModelQuery(lower, b)
    decreases |b|
  {
    if b == "" {
      assert a + b == a;
      assert Each(lower, b) == [];
    } else {
      var n := |b| - 1;
      NormalizeAppend(lower, a, b[..n]);
      NormalizeLast(lower, b[..n], b[n]);
      NormalizeLast(lower, a + b[..n], b[n]);
      assert a + b[..n] + [b[n]] == a + b && b[..n] + [b[n]] == b;
    }
  }

  lemma NormalizeLast(lower: char -> string, front: string, c: char)
    ensures NormalizeModelQuery(lower, front + [c]) == NormalizeModelQuery(lower, front) + Contribution(lower, c)
  {
    assert Each(lower, front + [c]) == Each(lower, front) + [lower(c)];
    FlattenAppend(Each(lower, front), lower(c));
    FilterAppend(IsModelChar, LowerAll(lower, front), lower(c));
  }

  /**
   * `q` spells `f` with other letter cases, and with punctuation left out or put in. Punctuation is
   * what contributes nothing to a model.
   */
  ghost predicate Respells(lower: char -> string, f: string, q: string)
    decreases |f| + |q|
  {
    || (f == "" && q == "")
    || (q != "" && Contribution(lower, q[0]) == "" && Respells(lower, f, q[1..]))
    || (f != "" && Contribution(lower, f[0]) == "" && Respells(lower, f[1..], q))
    || (f != "" && q != "" && lower(f[0]) == lower(q[0]) && Respells(lower, f[1..], q[1..]))
  }

  lemma NormalizeFirst(lower: char -> string, s: string)
    requires s != ""
    ensures NormalizeModelQuery(lower, s) == Contribution(lower, s[0]) + NormalizeModelQuery(lower, s[1..])
  {
    assert s == [s[0]] + s[1..];
    NormalizeAppend(lower, [s[0]], s[1..]);
    NormalizeLast(lower, "", s[0]);
    assert "" + [s[0]] == [s[0]];
    assert Each(lower, "") == [];
    assert NormalizeModelQuery(lower, "") == "";
  }

  lemma {:induction false} RespellingNormalizesAlike(lower: char -> string, f: string, q: string)
    requires Respells(lower, f, q)
    ensures NormalizeModelQuery(lower, f) == NormalizeModelQuery(lower, q)
    decreases |f| + |q|
  {
    if f != "" { NormalizeFirst(lower, f); }
    if q != "" { NormalizeFirst(lower, q); }
    if f == "" && q == "" {
    } else if q != "" && Contribution(lower, q[0]) == "" && Respells(lower, f, q[1..]) {
      RespellingNormalizesAlike(lower, f, q[1..]);
    } else if f != "" && Contribution(lower, f[0]) == "" && Respells(lower, f[1..], q) {
      RespellingNormalizesAlike(lower, f[1..], q);
    } else {
      RespellingNormalizesAlike(lower, f[1..], q[1..]);
    }
  }

  // ---------------------------------------------------------------- what the normaliser keeps

  predicate IsAscii(s: string) { forall c <- s :: c < 128 as char }

  function AsciiLower(c: char): char { if 'A' <= c <= 'Z' then c + ('a' - 'A') else c }

  /** Lower-casing as every locale does it to ASCII. */
  ghost predicate LowersAscii(lower: char -> string) {
    forall c: char | c < 128 as char :: lower(c) == [AsciiLower(c)]
  }

  /** The letters and digits of a text in their order, the letters in lower case. */
  function LettersAndDigits(s: string): string {
    if s == "" then ""
    else
      var c := s[|s| - 1];
      LettersAndDigits(s[..|s| - 1])
      + if 'A' <= c <= 'Z' then [c + ('a' - 'A')]
        else if 'a' <= c <= 'z' || '0' <= c <= '9' then [c]
        else ""
  }

  lemma {:induction false} NormalizeKeeps(lower: char -> string, s: string)
    requires LowersAscii(lower) && IsAscii(s)
    ensures NormalizeModelQuery(lower, s) == LettersAndDigits(s)
  {
    if s == "" {
      assert Each(lower, s) == [];
    } else {
      var front, c := s[..|s| - 1], s[|s| - 1];
      assert s == front + [c];
      assert c in s && forall x <- front :: x in s;
      NormalizeKeeps(lower, front);
      NormalizeLast(lower, front, c);
      assert [AsciiLower(c)][..0] == [];
      assert Filter(IsModelChar, [AsciiLower(c)]) == if IsModelChar(AsciiLower(c)) then [AsciiLower(c)] else [];
    }
  }

  /** A text of lower-case letters and digits is its own normal form. */
  lemma {:induction false} NormalFormStays(s: string)
    requires forall c <- s :: 'a' <= c <= 'z' || '0' <= c <= '9'
    ensures LettersAndDigits(s) == s
  {
    if s != "" {
      var front := s[..|s| - 1];
      assert s == front + [s[|s| - 1]] && s[|s| - 1] in s;
      forall c | c in front ensures 'a' <= c <= 'z' || '0' <= c <= '9' { assert c in s; }
      NormalFormStays(front);
    }
  }

  /**
   * Exactly which models a query finds: those among whose letters and digits the query's letters and
   * digits stand side by side, whatever the case and whatever else stands between them.
   */
  lemma ModelFoundIff(lower: char -> string, model: string, q: string)
    requires LowersAscii(lower) && IsAscii(model) && IsAscii(q)
    ensures ModelArm(lower, model, q) == Some(Contains(LettersAndDigits(model), LettersAndDigits(q)))
  {
    NormalizeKeeps(lower, model);
    NormalizeKeeps(lower, q);
    ModelArmIsSubstring(lower, model, q);
  }

  lemma LowerAllLast(lower: char -> string, front: string, c: char)
    ensures LowerAll(lower, front + [c]) == LowerAll(lower, front) + lower(c)
  {
    assert Each(lower, front + [c]) == Each(lower, front) + [lower(c)];
    FlattenAppend(Each(lower, front), lower(c));
  }

  /** Lower-casing an ASCII text changes its capitals and nothing else. */
  lemma {:induction false} LowerAllIs(lower: char -> string, s: string)
    requires LowersAscii(lower) && IsAscii(s)
    ensures LowerAll(lower, s) == Each(AsciiLower, s)
  {
    if s == "" {
      assert Each(lower, s) == [];
    } else {
      var front, c := s[..|s| - 1], s[|s| - 1];
      assert c in s && forall x <- front :: x in s;
      LowerAllIs(lower, front);
      LowerAllLast(lower, front, c);
      assert s == front + [c] && Each(AsciiLower, s) == Each(AsciiLower, front) + [AsciiLower(c)];
    }
  }

  // ---------------------------------------------------------------- the model arm

  lemma {:induction false} ModelCharsOnly(s: string)
    ensures EscapeLike(Filter(IsModelChar, s)) == Filter(IsModelChar, s)
    ensures forall c <- Filter(IsModelChar, s) :: IsModelChar(c)
  {
    forall c | c in Filter(IsModelChar, s) ensures IsModelChar(c) { FilterIn(IsModelChar, s, c); }
    NothingToEscape(Filter(IsModelChar, s));
  }

  lemma {:induction false} NothingToEscape(s: string)
    requires forall c <- s :: !IsMeta(c)
    ensures EscapeLike(s) == s
  {
    if s != "" {
      assert s[0] in s;
      NothingToEscape(s[1..]);
      assert s == [s[0]] + s[1..];
    }
  }

  /** The model arm: `%` + normalised + `%`, which needs no escaping because nothing special survives. */
  function ModelArm(lower: char -> string, model: string, q: string): Option<bool> {
    Like(NormalizeModelQuery(lower, model), "%" + NormalizeModelQuery(lower, q) + "%")
  }

  lemma ModelArmIsSubstring(lower: char -> string, model: string, q: string)
    ensures ModelArm(lower, model, q)
            == Some(Contains(NormalizeModelQuery(lower, model), NormalizeModelQuery(lower, q)))
  {
    ModelCharsOnly(LowerAll(lower, q));
    EscapedLikeIsSubstring(NormalizeModelQuery(lower, model), NormalizeModelQuery(lower, q));
  }

  /** Any respelling of any fragment of its model finds a product. */
  lemma FragmentIsFound(lower: char -> string, model: string, i: nat, j: nat, q: string)
    requires i <= j <= |model| && Respells(lower, model[i..j], q)
    ensures ModelArm(lower, model, q) == Some(true)
  {
    RespellingNormalizesAlike(lower, model[i..j], q);
    var before, fragment, after := NormalizeModelQuery(lower, model[..i]), NormalizeModelQuery(lower, model[i..j]),
                                   NormalizeModelQuery(lower, model[j..]);
    NormalizeAppend(lower, model[..i], model[i..j]);
    NormalizeAppend(lower, model[..i] + model[i..j], model[j..]);
    assert model[..i] + model[i..j] + model[j..] == model;
    HasMiddle(before, fragment, after);
    assert HasAt(NormalizeModelQuery(lower, model), NormalizeModelQuery(lower, q), |before|);
    ModelArmIsSubstring(lower, model, q);
  }
}
