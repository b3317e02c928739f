/** The call-site recogniser and the `matchAll` scanner. With a quote that
    is not white space the pattern is deterministic: `\n?\s*` is `\s*`
    (a line feed is white space), the key runs to the first closing quote,
    and the separator class `[,.\n\s]` shares nothing with the closers
    `)`, `{`, `[`, so no backtracking can change a match. */
module Matcher {
  import opened Seqs
  import opened Text
  import opened Patterns

  /** The offsets of one match: `match.index` (= `indices[0][0]`), the
      capture `indices[1]` and the end `indices[0][1]`. */
  datatype Match = Match(start: nat, keyStart: nat, keyEnd: nat, end: nat)

  /** `[,.\n\s]`: what may separate the closing quote from the closer. */
  predicate IsSeparator(c: char)
  {
    c == ',' || c == '.' || IsSpace(c)
  }

  /** `[\)\{\[]`: the code unit that ends a call-site match. */
  predicate IsCloser(c: char)
  {
    c == ')' || c == '{' || c == '['
  }

  /** Match the identifier atoms at `pos`: the offset after them, if they match. */
  function MatchIdent(text: string, atoms: seq<Atom>, pos: nat): (r: Option<nat>)
    requires pos <= |text|
    ensures r.Some? ==> pos <= r.value <= |text|
    decreases |atoms|
  {
    if |atoms| == 0 then Some(pos)
    else match atoms[0]
      case EndOfInput => if pos == |text| then MatchIdent(text, atoms[1..], pos) else None
      case Literal(c) =>
        if pos < |text| && text[pos] == c then MatchIdent(text, atoms[1..], pos + 1) else None
  }

  /** Greedy `\s*` from `i`: the first offset that is not white space. */
  function SkipSpaces(text: string, i: nat): (j: nat)
    requires i <= |text|
    ensures i <= j <= |text|
    ensures forall k :: i <= k < j ==> IsSpace(text[k])
    ensures j == |text| || !IsSpace(text[j])
    decreases |text| - i
  {
    if i < |text| && IsSpace(text[i]) then SkipSpaces(text, i + 1) else i
  }

  /** Greedy `[,.\n\s]*` from `i`: the first offset that is not a separator. */
  function SkipSeparators(text: string, i: nat): (j: nat)
    requires i <= |text|
    ensures i <= j <= |text|
    ensures forall k :: i <= k < j ==> IsSeparator(text[k])
    ensures j == |text| || !IsSeparator(text[j])
    decreases |text| - i
  {
    if i < |text| && IsSeparator(text[i]) then SkipSeparators(text, i + 1) else i
  }

  /** Greedy `[^q]*` from `i`: the offset of the first `q` (or the end). */
  function ScanKey(text: string, q: char, i: nat): (j: nat)
    requires i <= |text|
    ensures i <= j <= |text|
    ensures forall k :: i <= k < j ==> text[k] != q
    ensures j == |text| || text[j] == q
    decreases |text| - i
  {
    if i < |text| && text[i] != q then ScanKey(text, q, i + 1) else i
  }

  /** The declarative reading of the pattern: `m` is a decomposition of
      `text[m.start..m.end]` into identifier, `(`, white space, quote, a
      non-empty quote-free key, quote, separators and a closer. */
  ghost predicate Shape(text: string, pat: Pattern, m: Match)
  {
    && m.start <= |text|
    && MatchIdent(text, pat.ident, m.start).Some?
    && var open := MatchIdent(text, pat.ident, m.start).value;
    && open < m.keyStart - 1
    && m.keyStart < m.keyEnd < |text|
    && m.keyEnd + 1 < m.end <= |text|
    && text[open] == '('
    && (forall k :: open < k < m.keyStart - 1 ==> IsSpace(text[k]))
    && text[m.keyStart - 1] == pat.quote
    && (forall k :: m.keyStart <= k < m.keyEnd ==> text[k] != pat.quote)
    && text[m.keyEnd] == pat.quote
    && (forall k :: m.keyEnd < k < m.end - 1 ==> IsSeparator(text[k]))
    && IsCloser(text[m.end - 1])
  }

  /** The regex tried at offset `pos` (one attempt of `matchAll`). */
  function MatchAt(text: string, pat: Pattern, pos: nat): (r: Option<Match>)
    requires pos <= |text|
    ensures r.Some? ==> pos == r.value.start < r.value.keyStart < r.value.keyEnd < r.value.end <= |text|
  {
    match MatchIdent(text, pat.ident, pos)
    case None => None
    case Some(open) =>
      if open < |text| && text[open] == '(' then
        var q := SkipSpaces(text, open + 1);
        if q < |text| && text[q] == pat.quote then
          var keyEnd := ScanKey(text, pat.quote, q + 1);
          if q + 1 < keyEnd < |text| then
            var closer := SkipSeparators(text, keyEnd + 1);
            if closer < |text| && IsCloser(text[closer]) then Some(Match(pos, q + 1, keyEnd, closer + 1))
            else None
          else None
        else None
      else None
  }

  /** Whatever the recogniser returns has the pattern's shape. */
  lemma MatchAtSound(text: string, pat: Pattern, pos: nat)
    requires pos <= |text|
    requires MatchAt(text, pat, pos).Some?
    ensures MatchAt(text, pat, pos).value.start == pos
    ensures Shape(text, pat, MatchAt(text, pat, pos).value)
  {
  }

  /** Conversely, every decomposition with the pattern's shape at `pos` is
      the one the recogniser finds, provided the quote is not white space:
      the pattern has at most one match at each offset. */
  lemma MatchAtComplete(text: string, pat: Pattern, m: Match)
    requires !IsSpace(pat.quote)
    requires Shape(text, pat, m)
    ensures MatchAt(text, pat, m.start) == Some(m)
  {
    ShapeSteps(text, pat, m);
    MatchAtBuild(text, pat, m.start, MatchIdent(text, pat.ident, m.start).value, m.keyStart - 1, m.keyEnd, m.end - 1);
  }

  /** The white-space, key and separator scans of a shaped match stop where
      the shape says. */
  lemma ShapeSteps(text: string, pat: Pattern, m: Match)
    requires !IsSpace(pat.quote)
    requires Shape(text, pat, m)
    ensures var open := MatchIdent(text, pat.ident, m.start).value;
      && SkipSpaces(text, open + 1) == m.keyStart - 1
      && ScanKey(text, pat.quote, m.keyStart) == m.keyEnd
      && SkipSeparators(text, m.keyEnd + 1) == m.end - 1
  {
    var open := MatchIdent(text, pat.ident, m.start).value;
    SkipSpacesTo(text, open + 1, m.keyStart - 1);
    ScanKeyTo(text, pat.quote, m.keyStart, m.keyEnd);
    SkipSeparatorsTo(text, m.keyEnd + 1, m.end - 1);
  }

  /** The recogniser's steps, each at the offset the previous one reached. */
  lemma MatchAtBuild(text: string, pat: Pattern, pos: nat, open: nat, q: nat, keyEnd: nat, closer: nat)
    requires pos <= |text| && MatchIdent(text, pat.ident, pos) == Some(open)
    requires open < |text| && text[open] == '('
    requires SkipSpaces(text, open + 1) == q && q < |text| && text[q] == pat.quote
    requires ScanKey(text, pat.quote, q + 1) == keyEnd && q + 1 < keyEnd < |text|
    requires SkipSeparators(text, keyEnd + 1) == closer && closer < |text| && IsCloser(text[closer])
    ensures MatchAt(text, pat, pos) == Some(Match(pos, q + 1, keyEnd, closer + 1))
  {
  }

  lemma {:induction false} SkipSpacesTo(text: string, i: nat, j: nat)
    requires i <= j < |text|
    requires forall k :: i <= k < j ==> IsSpace(text[k])
    requires !IsSpace(text[j])
    ensures SkipSpaces(text, i) == j
    decreases j - i
  {
    if i < j {
      SkipSpacesTo(text, i + 1, j);
    }
  }

  lemma {:induction false} ScanKeyTo(text: string, q: char, i: nat, j: nat)
    requires i <= j < |text|
    requires forall k :: i <= k < j ==> text[k] != q
    requires text[j] == q
    ensures ScanKey(text, q, i) == j
    decreases j - i
  {
    if i < j {
      ScanKeyTo(text, q, i + 1, j);
    }
  }

  lemma {:induction false} SkipSeparatorsTo(text: string, i: nat, j: nat)
    requires i <= j < |text|
    requires forall k :: i <= k < j ==> IsSeparator(text[k])
    requires !IsSeparator(text[j])
    ensures SkipSeparators(text, i) == j
    decreases j - i
  {
    if i < j {
      SkipSeparatorsTo(text, i + 1, j);
    }
  }

  /** No match starts at any offset in `[a, b)`. */
  ghost predicate NoMatchIn(text: string, pat: Pattern, a: nat, b: nat)
    requires b <= |text|
  {
    forall p :: a <= p < b ==> MatchAt(text, pat, p).None?
  }

  /** `ms` are the matches `matchAll` reports when the search starts at
      `from`: each one starts at the leftmost offset, at or after the end of
      the previous one, where the pattern matches, and no match is left
      after the last. */
  ghost predicate Leftmost(text: string, pat: Pattern, from: nat, ms: seq<Match>)
    decreases |ms|
  {
    && from <= |text|
    && if |ms| == 0 then NoMatchIn(text, pat, from, |text|)
       else
         && from <= ms[0].start <= |text|
         && NoMatchIn(text, pat, from, ms[0].start)
         && MatchAt(text, pat, ms[0].start) == Some(ms[0])
         && Leftmost(text, pat, ms[0].end, ms[1..])
  }

  /** The matches found from offset `from` onwards, left to right. */
  function ScanFrom(text: string, pat: Pattern, from: nat): (ms: seq<Match>)
    requires from <= |text|
    ensures Leftmost(text, pat, from, ms)
    decreases |text| - from
  {
    if from == |text| then []
    else
      var r := MatchAt(text, pat, from);
      if r.Some? then
        var rest := ScanFrom(text, pat, r.value.end);
        LeftmostFound(text, pat, from, r.value, rest);
        [r.value] + rest
      else
        var rest := ScanFrom(text, pat, from + 1);
        LeftmostSkip(text, pat, from, rest);
        rest
  }

  /** A match at `from` followed by the matches after it. */
  lemma LeftmostFound(text: string, pat: Pattern, from: nat, m: Match, rest: seq<Match>)
    requires from < |text| && MatchAt(text, pat, from) == Some(m)
    requires Leftmost(text, pat, m.end, rest)
    ensures Leftmost(text, pat, from, [m] + rest)
  {
    assert ([m] + rest)[1..] == rest;
  }

  /** No match at `from`: the search may as well start one offset later. */
  lemma LeftmostSkip(text: string, pat: Pattern, from: nat, ms: seq<Match>)
    requires from < |text| && MatchAt(text, pat, from).None?
    requires Leftmost(text, pat, from + 1, ms)
    ensures Leftmost(text, pat, from, ms)
  {
  }

  /** `text.matchAll(regex)` for one compiled pattern. */
  function Scan(text: string, pat: Pattern): (r: seq<Match>)
  {
    ScanFrom(text, pat, 0)
  }

  /** The leftmost-match characterisation has exactly one solution: it is
      what the scanner computes. */
  lemma LeftmostUnique(text: string, pat: Pattern, from: nat, ms: seq<Match>)
    requires Leftmost(text, pat, from, ms)
    ensures ms == ScanFrom(text, pat, from)
  {
    LeftmostDeterministic(text, pat, from, ms, ScanFrom(text, pat, from));
  }

  /** Two match sequences that both satisfy the characterisation from the
      same offset are the same. */
  lemma {:induction false} LeftmostDeterministic(text: string, pat: Pattern, from: nat, a: seq<Match>, b: seq<Match>)
    requires Leftmost(text, pat, from, a) && Leftmost(text, pat, from, b)
    ensures a == b
    decreases |a|
  {
    if |a| > 0 && |b| > 0 {
      LeftmostSameHead(text, pat, from, a, b);
      LeftmostDeterministic(text, pat, a[0].end, a[1..], b[1..]);
      assert a == [a[0]] + a[1..] && b == [b[0]] + b[1..];
    } else {
      LeftmostEmpty(text, pat, from, a, b);
    }
  }

  /** Both sequences report the same first match. */
  lemma LeftmostSameHead(text: string, pat: Pattern, from: nat, a: seq<Match>, b: seq<Match>)
    requires Leftmost(text, pat, from, a) && Leftmost(text, pat, from, b)
    requires |a| > 0 && |b| > 0
    ensures a[0] == b[0]
  {
  }

  /** If one of them reports nothing, so does the other. */
  lemma LeftmostEmpty(text: string, pat: Pattern, from: nat, a: seq<Match>, b: seq<Match>)
    requires Leftmost(text, pat, from, a) && Leftmost(text, pat, from, b)
    requires |a| == 0 || |b| == 0
    ensures a == b
  {
  }

  /** Matches found from `from` come left to right and never overlap, each
      starting at or after `from`. */
  lemma {:induction false} LeftmostOrdered(text: string, pat: Pattern, from: nat, ms: seq<Match>)
    requires Leftmost(text, pat, from, ms)
    ensures forall i :: 0 <= i < |ms| ==> from <= ms[i].start < ms[i].end <= |text|
    ensures forall i, j :: 0 <= i < j < |ms| ==> ms[i].end <= ms[j].start
    decreases |ms|
  {
    if |ms| > 0 {
      LeftmostOrdered(text, pat, ms[0].end, ms[1..]);
      forall i, j | 0 <= i < j < |ms| ensures ms[i].end <= ms[j].start {
        assert ms[j] == ms[1..][j - 1];
        if i > 0 {
          assert ms[i] == ms[1..][i - 1];
        }
      }
      forall i | 0 <= i < |ms| ensures from <= ms[i].start < ms[i].end <= |text| {
        if i > 0 {
          assert ms[i] == ms[1..][i - 1];
        }
      }
    }
  }

  /** Every reported match is a genuine match of the pattern at its offset. */
  lemma {:induction false} LeftmostMatches(text: string, pat: Pattern, from: nat, ms: seq<Match>)
    requires Leftmost(text, pat, from, ms)
    ensures forall i :: 0 <= i < |ms| ==> ms[i].start <= |text| && MatchAt(text, pat, ms[i].start) == Some(ms[i])
    decreases |ms|
  {
    if |ms| > 0 {
      LeftmostMatches(text, pat, ms[0].end, ms[1..]);
      forall i | 0 < i < |ms|
        ensures ms[i].start <= |text| && MatchAt(text, pat, ms[i].start) == Some(ms[i])
      {
        assert ms[i] == ms[1..][i - 1];
      }
    }
  }

  /** The capture of `m` is a non-empty run between an opening and a closing
      `q`, and contains no `q`. */
  ghost predicate QuotedKey(text: string, q: char, m: Match)
  {
    && m.start < m.keyStart < m.keyEnd < m.end <= |text|
    && q !in text[m.keyStart..m.keyEnd]
    && text[m.keyStart - 1] == q
    && text[m.keyEnd] == q
  }

  /** The capture of one successful attempt is a quoted key. */
  lemma MatchKey(text: string, pat: Pattern, pos: nat)
    requires pos <= |text|
    requires MatchAt(text, pat, pos).Some?
    ensures QuotedKey(text, pat.quote, MatchAt(text, pat, pos).value)
  {
    var m := MatchAt(text, pat, pos).value;
    MatchAtSound(text, pat, pos);
    var key := text[m.keyStart..m.keyEnd];
    forall k | 0 <= k < |key| ensures key[k] != pat.quote {
      assert key[k] == text[m.keyStart + k];
    }
  }

  /** Every key `matchAll` captures is the non-empty text between an opening
      and a closing quote of the pattern's quote character and contains no
      such quote; the matches come left to right and never overlap. */
  lemma ScanKeys(text: string, pat: Pattern)
    ensures forall i :: 0 <= i < |Scan(text, pat)| ==> QuotedKey(text, pat.quote, Scan(text, pat)[i])
    ensures forall i, j :: 0 <= i < j < |Scan(text, pat)| ==> Scan(text, pat)[i].end <= Scan(text, pat)[j].start
  {
    var ms := Scan(text, pat);
    LeftmostMatches(text, pat, 0, ms);
    LeftmostOrdered(text, pat, 0, ms);
    forall i | 0 <= i < |ms| ensures QuotedKey(text, pat.quote, ms[i]) {
      MatchKey(text, pat, ms[i].start);
    }
  }

  /** `matchAll` as a loop: repeatedly try the pattern at the current
      offset, record a match and continue after it, or move one on. */
  method MatchAll(text: string, pat: Pattern) returns (ms: seq<Match>)
    ensures ms == Scan(text, pat)
    ensures Leftmost(text, pat, 0, ms)
  {
    ms := [];
    var pos := 0;
    while pos < |text|
      invariant pos <= |text|
      invariant ms + ScanFrom(text, pat, pos) == ScanFrom(text, pat, 0)
      decreases |text| - pos
    {
      var r := MatchAt(text, pat, pos);
      if r.Some? {
        ScanFromHit(text, pat, pos);
        AppendAssoc(ms, [r.value], ScanFrom(text, pat, r.value.end));
        ms := ms + [r.value];
        pos := r.value.end;
      } else {
        ScanFromMiss(text, pat, pos);
        pos := pos + 1;
      }
    }
    assert ms == ms + ScanFrom(text, pat, pos);
  }

  /** A match at `pos` is reported, and the search resumes after it. */
  lemma ScanFromHit(text: string, pat: Pattern, pos: nat)
    requires pos < |text| && MatchAt(text, pat, pos).Some?
    ensures ScanFrom(text, pat, pos) == [MatchAt(text, pat, pos).value] + ScanFrom(text, pat, MatchAt(text, pat, pos).value.end)
  {
  }

  /** No match at `pos`: the search moves one offset on. */
  lemma ScanFromMiss(text: string, pat: Pattern, pos: nat)
    requires pos < |text| && MatchAt(text, pat, pos).None?
    ensures ScanFrom(text, pat, pos) == ScanFrom(text, pat, pos + 1)
  {
  }

  /** Once the identifier holds the end-of-input assertion (an unescaped
      `$`), only the end of the text can follow it. */
  lemma {:induction false} AnchorAtEnd(text: string, atoms: seq<Atom>, pos: nat)
    requires pos <= |text|
    requires EndOfInput in atoms
    requires MatchIdent(text, atoms, pos).Some?
    ensures MatchIdent(text, atoms, pos).value == |text|
    decreases |atoms|
  {
    if atoms[0] != EndOfInput {
      AnchorAtEnd(text, atoms[1..], pos + 1);
    } else if EndOfInput in atoms[1..] {
      AnchorAtEnd(text, atoms[1..], pos);
    } else {
      AtEndStays(text, atoms[1..]);
    }
  }

  /** Literal atoms cannot match past the end of the text. */
  lemma {:induction false} AtEndStays(text: string, atoms: seq<Atom>)
    requires MatchIdent(text, atoms, |text|).Some?
    ensures MatchIdent(text, atoms, |text|).value == |text|
    decreases |atoms|
  {
    if |atoms| > 0 {
      AtEndStays(text, atoms[1..]);
    }
  }

  /** A pattern whose identifier holds the end-of-input assertion never
      matches: it still needs a `(` after the end of the text. */
  lemma AnchoredNeverMatches(text: string, pat: Pattern)
    requires EndOfInput in pat.ident
    ensures Scan(text, pat) == []
  {
    var ms := Scan(text, pat);
    if |ms| > 0 {
      assert MatchAt(text, pat, ms[0].start) == Some(ms[0]);
      AnchorAtEnd(text, pat.ident, ms[0].start);
      assert false;
    }
  }
}
