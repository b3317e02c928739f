/** Concrete call sites modelled on the repository's failing test project
    (test-env/failure-env/src/main.js), run through the overview copy. Each
    text is a small stand-in with the call shape of the cited lines, not
    the file's own text. */
module Fixtures {
  import opened Seqs
  import opened Text
  import opened Patterns
  import opened Matcher
  import opened Locations
  import opened Extraction
  import opened Grouping

  /** The pattern for `$t` with the given quote. */
  function Dt(quote: char): (r: Pattern)
  {
    Pattern([Literal('$'), Literal('t')], quote)
  }

  /** It is what `createRegexes` builds: the escaped `$` is matched literally. */
  lemma DtCompiled(quote: char)
    ensures CreatePatterns([quote], ["$t"], Overview) == [Dt(quote)]
  {
    EscapeEveryIsLiteral("$t");
    assert CompileIdent("$t", Overview) == [Literal('$'), Literal('t')];
  }

  /** An offset whose code unit is not the identifier's first one starts no match. */
  lemma Miss(text: string, pat: Pattern, p: nat)
    requires p < |text| && |pat.ident| > 0 && pat.ident[0].Literal? && text[p] != pat.ident[0].c
    ensures MatchAt(text, pat, p).None?
  {
  }

  /** Every offset from `from` on misses when no `$` follows it. */
  lemma NoDollarNoMatch(text: string, from: nat, quote: char)
    requires from <= |text|
    requires forall p :: from <= p < |text| ==> text[p] != '$'
    ensures Leftmost(text, Dt(quote), from, [])
  {
    forall p | from <= p < |text| ensures MatchAt(text, Dt(quote), p).None? {
      Miss(text, Dt(quote), p);
    }
  }

  /** A `$t(` call with the quote right after the parenthesis, a key up to
      `keyEnd`, separators and a closer at `closer`. */
  lemma DtHit(text: string, quote: char, pos: nat, keyEnd: nat, closer: nat)
    requires !IsSpace(quote)
    requires pos + 4 < keyEnd < closer < |text|
    requires text[pos] == '$' && text[pos + 1] == 't' && text[pos + 2] == '(' && text[pos + 3] == quote
    requires forall k :: pos + 4 <= k < keyEnd ==> text[k] != quote
    requires text[keyEnd] == quote
    requires forall k :: keyEnd < k < closer ==> IsSeparator(text[k])
    requires IsCloser(text[closer])
    ensures MatchAt(text, Dt(quote), pos) == Some(Match(pos, pos + 4, keyEnd, closer + 1))
  {
    assert MatchIdent(text, Dt(quote).ident, pos) == Some(pos + 2);
    MatchAtComplete(text, Dt(quote), Match(pos, pos + 4, keyEnd, closer + 1));
  }

  /** A stand-in for the shape of main.js:23-25: `$t(` and a backtick key
      spanning two line feeds, inside a call. */
  const MultilineText: string := "f($t(`\nab\n`))"

  /** Its one match: the key between offsets 6 and 10, the closer at 11. */
  const MultilineMatch: Match := Match(2, 6, 10, 12)

  lemma MultilineHit()
    ensures MatchAt(MultilineText, Dt('`'), 2) == Some(MultilineMatch)
  {
    DtHit(MultilineText, '`', 2, 10, 11);
  }

  lemma MultilineScan()
    ensures Scan(MultilineText, Dt('`')) == [MultilineMatch]
  {
    var text, pat, m := MultilineText, Dt('`'), MultilineMatch;
    MultilineHit();
    NoDollarNoMatch(text, 12, '`');
    LeftmostFound(text, pat, 2, m, []);
    assert [m] + [] == [m];
    Miss(text, pat, 1);
    LeftmostSkip(text, pat, 1, [m]);
    Miss(text, pat, 0);
    LeftmostSkip(text, pat, 0, [m]);
    LeftmostUnique(text, pat, 0, [m]);
  }

  lemma MultilineCounts()
    ensures multiset(MultilineText[..2])['\n'] == 0
    ensures multiset(MultilineText[..12])['\n'] == 2
    ensures IsColumn(MultilineText, 6, 6)
    ensures IsColumn(MultilineText, 10, 0)
  {
    var text := MultilineText;
    assert text[..2] == ['f', '('];
    assert text[..12] == ['f', '(', '$', 't', '(', '`'] + ['\n'] + ['a', 'b'] + ['\n'] + ['`', ')'];
    assert text[0..6] == "f($t(`";
    assert text[9] == '\n';
  }

  /** The file holds exactly one occurrence, the one of its single match. */
  lemma MultilineOccurrences()
    ensures FindTranslations(Overview, SourceFile("m.js", MultilineText), Dt('`'), None)
         == [Occur(Overview, SourceFile("m.js", MultilineText), MultilineMatch)]
  {
    var file, m := SourceFile("m.js", MultilineText), MultilineMatch;
    MultilineScan();
    OccurrencesAll(Overview, file, [m]);
  }

  /** The key and the position recorded for that match. */
  lemma MultilineLocation()
    ensures var o := Occur(Overview, SourceFile("m.js", MultilineText), MultilineMatch);
      && o.key == "\nab\n"
      && o.loc.lineStart == 1 && o.loc.lineEnd == 3
      && o.loc.columnStart == 6 && o.loc.columnEnd == 0
  {
    var o := Occur(Overview, SourceFile("m.js", MultilineText), MultilineMatch);
    MultilineCounts();
    assert MultilineText[6..10] == "\nab\n";
    IsColumnUnique(MultilineText, 6, 6, o.loc.columnStart);
    IsColumnUnique(MultilineText, 10, 0, o.loc.columnEnd);
  }

  /** A backtick key spanning lines (main.js:23-25): the match starts on
      line 1 and ends on line 3, the capture starts at column 6 and ends at
      column 0 of its last line, and the key keeps its line feeds. */
  lemma MultilineKey()
    ensures var occs := FindTranslations(Overview, SourceFile("m.js", MultilineText), Dt('`'), None);
      && |occs| == 1
      && occs[0].key == "\nab\n"
      && occs[0].loc.lineStart == 1 && occs[0].loc.lineEnd == 3
      && occs[0].loc.columnStart == 6 && occs[0].loc.columnEnd == 0
  {
    MultilineOccurrences();
    MultilineLocation();
  }

  /** A stand-in for the shape of main.js:17: a call with further arguments. */
  const ArgumentsText: string := "$t('a :v', { v })"

  /** Its one match, ending after the brace. */
  const ArgumentsMatch: Match := Match(0, 4, 8, 12)

  /** `, ` is a separator run and `{` a closer, so the match ends after the
      brace and captures only the quoted key. */
  lemma ArgumentsHit()
    ensures MatchAt(ArgumentsText, Dt('\''), 0) == Some(ArgumentsMatch)
  {
    DtHit(ArgumentsText, '\'', 0, 8, 11);
  }

  /** The capture keeps the text between the quotes as it is. */
  lemma ArgumentsCapture()
    ensures ArgumentsText[4..8] == "a :v"
  {
  }

  lemma TrailingArguments()
    ensures Scan(ArgumentsText, Dt('\'')) == [ArgumentsMatch]
    ensures ArgumentsText[4..8] == "a :v"
  {
    ArgumentsCapture();
    var text, pat, m := ArgumentsText, Dt('\''), ArgumentsMatch;
    ArgumentsHit();
    NoDollarNoMatch(text, 12, '\'');
    LeftmostFound(text, pat, 0, m, []);
    assert [m] + [] == [m];
    LeftmostUnique(text, pat, 0, [m]);
  }

  /** A stand-in for main.js:13 and :28, which use the same key twice. */
  const RepeatedText: string := "$t('k')\n$t('k')"

  /** Its two matches, one per line. */
  const RepeatedFirst: Match := Match(0, 4, 5, 7)
  const RepeatedSecond: Match := Match(8, 12, 13, 15)

  lemma RepeatedFirstHit(text: string)
    requires text == RepeatedText
    ensures MatchAt(text, Dt('\''), 0) == Some(RepeatedFirst)
  {
    DtHit(text, '\'', 0, 5, 6);
  }

  lemma RepeatedSecondHit(text: string)
    requires text == RepeatedText
    ensures MatchAt(text, Dt('\''), 8) == Some(RepeatedSecond)
  {
    DtHit(text, '\'', 8, 13, 14);
  }

  lemma RepeatedScan(text: string)
    requires text == RepeatedText
    ensures Scan(text, Dt('\'')) == [RepeatedFirst, RepeatedSecond]
  {
    var pat := Dt('\'');
    var m1, m2 := RepeatedFirst, RepeatedSecond;
    RepeatedFirstHit(text);
    RepeatedTail(text);
    LeftmostFound(text, pat, 0, m1, [m2]);
    assert [m1] + [m2] == [m1, m2];
    LeftmostUnique(text, pat, 0, [m1, m2]);
  }

  /** After the first call only the second one matches. */
  lemma RepeatedTail(text: string)
    requires text == RepeatedText
    ensures Leftmost(text, Dt('\''), 7, [RepeatedSecond])
  {
    var pat, m2 := Dt('\''), RepeatedSecond;
    RepeatedSecondHit(text);
    NoDollarNoMatch(text, 15, '\'');
    LeftmostFound(text, pat, 8, m2, []);
    assert [m2] + [] == [m2];
    Miss(text, pat, 7);
    LeftmostSkip(text, pat, 7, [m2]);
  }

  /** Two occurrences of the same key group under that key, in order. */
  lemma GroupTwoSame(o1: Occurrence, o2: Occurrence)
    requires o1.key == o2.key
    ensures Group([o1, o2]) == Index([o1.key], map[o1.key := [o1.loc, o2.loc]])
  {
    assert Group([o1]) == Record(Index([], map[]), o1) by {
      GroupSnoc([], o1);
      assert [] + [o1] == [o1];
    }
    assert Group([o1, o2]) == Record(Group([o1]), o2) by {
      GroupSnoc([o1], o2);
      assert [o1] + [o2] == [o1, o2];
    }
    RecordTwice(o1, o2);
  }

  /** Recording two occurrences of one key into the empty index. */
  lemma RecordTwice(o1: Occurrence, o2: Occurrence)
    requires o1.key == o2.key
    ensures Record(Record(Index([], map[]), o1), o2) == Index([o1.key], map[o1.key := [o1.loc, o2.loc]])
  {
    var k := o1.key;
    var m1 := map[k := [o1.loc]];
    assert Record(Index([], map[]), o1) == Index([k], m1) by {
      assert map[][k := [o1.loc]] == m1;
    }
    assert m1[k := [o1.loc] + [o2.loc]] == map[k := [o1.loc, o2.loc]] by {
      assert [o1.loc] + [o2.loc] == [o1.loc, o2.loc];
    }
  }

  lemma RepeatedCounts()
    ensures RepeatedText[4..5] == "k" && RepeatedText[12..13] == "k"
    ensures multiset(RepeatedText[..0])['\n'] == 0
    ensures multiset(RepeatedText[..8])['\n'] == 1
  {
    assert RepeatedText[..0] == [];
    assert RepeatedText[..8] == ['$', 't', '(', '\'', 'k', '\'', ')'] + ['\n'];
  }

  /** The file holds the occurrences of its two matches, in text order. */
  lemma RepeatedMatches(text: string)
    requires text == RepeatedText
    ensures var occs := FindTranslations(Overview, SourceFile("m.js", text), Dt('\''), None);
      && |occs| == 2
      && occs[0] == Occur(Overview, SourceFile("m.js", text), RepeatedFirst)
      && occs[1] == Occur(Overview, SourceFile("m.js", text), RepeatedSecond)
  {
    RepeatedScan(text);
    OccurrencesAll(Overview, SourceFile("m.js", text), [RepeatedFirst, RepeatedSecond]);
  }

  /** Both matches record key `k`, on lines 1 and 2. */
  lemma RepeatedLines()
    ensures var o1 := Occur(Overview, SourceFile("m.js", RepeatedText), RepeatedFirst);
      var o2 := Occur(Overview, SourceFile("m.js", RepeatedText), RepeatedSecond);
      && o1.key == "k" && o2.key == "k"
      && o1.loc.lineStart == 1 && o2.loc.lineStart == 2
  {
    RepeatedCounts();
  }

  lemma RepeatedOccurrences()
    ensures var occs := FindTranslations(Overview, SourceFile("m.js", RepeatedText), Dt('\''), None);
      && |occs| == 2
      && occs[0].key == "k" && occs[1].key == "k"
      && occs[0].loc.lineStart == 1 && occs[1].loc.lineStart == 2
  {
    RepeatedMatches(RepeatedText);
    RepeatedLines();
  }

  /** One key with two locations, on lines 1 and 2, in text order. */
  lemma RepeatedKey()
    ensures var ix := Group(FindTranslations(Overview, SourceFile("m.js", RepeatedText), Dt('\''), None));
      && ix.keys == ["k"]
      && |ix.locs["k"]| == 2
      && ix.locs["k"][0].lineStart == 1 && ix.locs["k"][1].lineStart == 2
  {
    var occs := FindTranslations(Overview, SourceFile("m.js", RepeatedText), Dt('\''), None);
    RepeatedOccurrences();
    assert occs == [occs[0], occs[1]];
    GroupTwoSame(occs[0], occs[1]);
  }
}
