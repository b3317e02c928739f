/** The pattern compiler (`createRegexes` and the regex builder of the
    standalone script). Every (quote, identifier) pair yields one call-site
    pattern

        ident \( \n? \s* [q] (?<translation>[^q]+) [q] ([,.\n\s]+)? [\)\{\[]

    The fixed part of the pattern is interpreted structurally by the
    matcher; what the compiler decides is how the identifier is read once
    its `$` characters have been escaped. */
module Patterns {

  /** The two copies of the pipeline: `Overview` is src/createTranslationsOverview.js,
      `Standalone` is missing-translations.js. */
  datatype Variant = Overview | Standalone

  /** One element of an identifier as the regex engine reads it: a literal
      code unit, or the unescaped `$` assertion (end of input, no `m` flag). */
  datatype Atom = Literal(c: char) | EndOfInput

  /** A compiled call-site pattern: the identifier atoms and the quote character. */
  datatype Pattern = Pattern(ident: seq<Atom>, quote: char)

  /** `s.replaceAll('$', '\\$')`: every `$` gets a backslash in front. */
  function EscapeEvery(s: string): (r: string)
  {
    if |s| == 0 then ""
    else (if s[0] == '$' then "\\$" else [s[0]]) + EscapeEvery(s[1..])
  }

  /** `s.replace('$', '\\$')` with a string pattern: only the first `$` is escaped. */
  function EscapeFirst(s: string): (r: string)
  {
    if |s| == 0 then ""
    else if s[0] == '$' then "\\$" + s[1..]
    else [s[0]] + EscapeFirst(s[1..])
  }

  /** How the RegExp constructor reads the identifier part of the source:
      `\x` is the literal `x`, a bare `$` asserts the end of the input,
      anything else is itself. */
  function ParseIdent(src: string): (r: seq<Atom>)
  {
    if |src| == 0 then []
    else if src[0] == '\\' && |src| >= 2 then [Literal(src[1])] + ParseIdent(src[2..])
    else if src[0] == '$' then [EndOfInput] + ParseIdent(src[1..])
    else [Literal(src[0])] + ParseIdent(src[1..])
  }

  /** The identifier matched code unit by code unit. */
  function Literals(s: string): (r: seq<Atom>)
    ensures |r| == |s|
    ensures forall i :: 0 <= i < |s| ==> r[i] == Literal(s[i])
  {
    if |s| == 0 then [] else [Literal(s[0])] + Literals(s[1..])
  }

  /** The identifier part of the pattern each copy builds. */
  function CompileIdent(ident: string, variant: Variant): (r: seq<Atom>)
  {
    match variant
    case Overview => ParseIdent(EscapeEvery(ident))
    case Standalone => ParseIdent(EscapeFirst(ident))
  }

  /** The patterns of one quote character, in identifier order. */
  function PatternsForQuote(quote: char, idents: seq<string>, variant: Variant): (r: seq<Pattern>)
  {
    seq(|idents|, i requires 0 <= i < |idents| => Pattern(CompileIdent(idents[i], variant), quote))
  }

  /** `hyphen.reduce((acc, q) => acc.concat(translationFunctions.map(...)), [])`:
      the quote groups concatenated in quote order. */
  function CreatePatterns(quotes: seq<char>, idents: seq<string>, variant: Variant): (r: seq<Pattern>)
    ensures |r| == |quotes| * |idents|
    decreases |quotes|
  {
    if |quotes| == 0 then []
    else PatternsForQuote(quotes[0], idents, variant) + CreatePatterns(quotes[1..], idents, variant)
  }

  /** One pattern per (quote, identifier) pair: the pattern for quote `qi`
      and identifier `ii` sits at `qi * |idents| + ii`, so the patterns are
      grouped by quote in quote order and by identifier order inside each group. */
  lemma {:induction false} CreatePatternsAt(quotes: seq<char>, idents: seq<string>, variant: Variant, qi: nat, ii: nat)
    requires qi < |quotes| && ii < |idents|
    ensures qi * |idents| + ii < |CreatePatterns(quotes, idents, variant)|
    ensures CreatePatterns(quotes, idents, variant)[qi * |idents| + ii]
         == Pattern(CompileIdent(idents[ii], variant), quotes[qi])
    decreases qi
  {
    var m := |idents|;
    var row, rest := PatternsForQuote(quotes[0], idents, variant), CreatePatterns(quotes[1..], idents, variant);
    CreatePatternsCons(quotes, idents, variant);
    if qi > 0 {
      CreatePatternsAt(quotes[1..], idents, variant, qi - 1, ii);
      var k := (qi - 1) * m + ii;
      assert qi * m + ii == m + k by { MulSucc(qi - 1, m); }
      ConcatIndex(row, rest, k);
      assert quotes[1..][qi - 1] == quotes[qi];
    }
  }

  /** The patterns of the first quote come first. */
  lemma CreatePatternsCons(quotes: seq<char>, idents: seq<string>, variant: Variant)
    requires |quotes| > 0
    ensures CreatePatterns(quotes, idents, variant)
         == PatternsForQuote(quotes[0], idents, variant) + CreatePatterns(quotes[1..], idents, variant)
  {
  }

  /** Element `k` of the second part sits at `|a| + k` of a concatenation. */
  lemma ConcatIndex<T>(a: seq<T>, b: seq<T>, k: nat)
    requires k < |b|
    ensures (a + b)[|a| + k] == b[k]
  {
  }

  /** One more group of `m` adds `m`. */
  lemma MulSucc(a: nat, m: nat)
    ensures (a + 1) * m == a * m + m
  {
  }

  /** In the standalone copy, escaping the first `$` is escaping them all
      when an identifier has at most one `$`, so both copies agree on it. */
  lemma {:induction false} EscapeFirstAgrees(s: string)
    requires multiset(s)['$'] <= 1
    ensures EscapeFirst(s) == EscapeEvery(s)
    ensures CompileIdent(s, Standalone) == CompileIdent(s, Overview)
    decreases |s|
  {
    if |s| > 0 {
      assert s == [s[0]] + s[1..];
      assert multiset(s) == multiset{s[0]} + multiset(s[1..]);
      if s[0] == '$' {
        assert multiset(s[1..])['$'] == 0;
        NoDollarEscapeEvery(s[1..]);
      } else {
        EscapeFirstAgrees(s[1..]);
      }
    }
  }

  /** Escaping leaves a string without `$` unchanged. */
  lemma {:induction false} NoDollarEscapeEvery(s: string)
    requires multiset(s)['$'] == 0
    ensures EscapeEvery(s) == s
    decreases |s|
  {
    if |s| > 0 {
      assert s == [s[0]] + s[1..];
      assert multiset(s) == multiset{s[0]} + multiset(s[1..]);
      NoDollarEscapeEvery(s[1..]);
    }
  }

  /** In the overview copy every `$` of an identifier (without backslashes
      of its own) is matched literally: the identifier is read back as
      exactly its own code units. */
  lemma {:induction false} EscapeEveryIsLiteral(s: string)
    requires '\\' !in s
    ensures CompileIdent(s, Overview) == Literals(s)
    decreases |s|
  {
    if |s| > 0 {
      assert s == [s[0]] + s[1..];
      EscapeEveryIsLiteral(s[1..]);
      var tail := EscapeEvery(s[1..]);
      if s[0] == '$' {
        assert EscapeEvery(s) == "\\$" + tail;
        assert ("\\$" + tail)[2..] == tail;
      } else {
        assert EscapeEvery(s) == [s[0]] + tail;
        assert ([s[0]] + tail)[1..] == tail;
      }
      assert Literals(s) == [Literal(s[0])] + Literals(s[1..]);
    }
  }

  /** In the standalone copy an identifier with two or more `$` keeps an
      unescaped `$`, which the regex reads as the end-of-input assertion. */
  lemma {:induction false} EscapeFirstAnchors(s: string)
    requires '\\' !in s
    requires multiset(s)['$'] >= 2
    ensures EndOfInput in CompileIdent(s, Standalone)
    decreases |s|
  {
    assert s == [s[0]] + s[1..];
    assert multiset(s) == multiset{s[0]} + multiset(s[1..]);
    if s[0] == '$' {
      assert EscapeFirst(s) == "\\$" + s[1..];
      assert ("\\$" + s[1..])[2..] == s[1..];
      BareDollarAnchors(s[1..]);
    } else {
      EscapeFirstAnchors(s[1..]);
      assert EscapeFirst(s) == [s[0]] + EscapeFirst(s[1..]);
      assert ([s[0]] + EscapeFirst(s[1..]))[1..] == EscapeFirst(s[1..]);
    }
  }

  /** An unescaped `$` (with no backslash before it) parses as the assertion. */
  lemma {:induction false} BareDollarAnchors(s: string)
    requires '\\' !in s
    requires '$' in s
    ensures EndOfInput in ParseIdent(s)
    decreases |s|
  {
    if s[0] != '$' {
      assert s == [s[0]] + s[1..];
      BareDollarAnchors(s[1..]);
    }
  }
}
