/** Source locations of a match: line and column arithmetic done the way
    `findTranslations` does it (`substr(0, n).split('\n')`), and the
    bounded context snippet. */
module Locations {
  import opened Text
  import opened Matcher

  /** Where one key occurrence sits: the file, the match offset, a context
      snippet, 1-based lines of the match start and end, and 0-based
      columns of the capture start and end. */
  datatype Location = Location(
    file: string,
    index: nat,
    area: string,
    lineStart: nat,
    lineEnd: nat,
    columnStart: nat,
    columnEnd: nat)

  /** `input.substr(0, n).split('\n').length`. */
  function LineAt(text: string, n: nat): (r: nat)
    requires n <= |text|
  {
    |SplitLines(text[..n])|
  }

  /** `input.substr(0, n).split('\n').pop().length`. */
  function ColumnAt(text: string, n: nat): (r: nat)
    requires n <= |text|
  {
    var parts := SplitLines(text[..n]);
    |parts[|parts| - 1]|
  }

  /** `c` code units precede offset `n` on its line: none of them is a line
      feed, and they start the text or follow a line feed. */
  ghost predicate IsColumn(text: string, n: nat, c: nat)
    requires n <= |text|
  {
    && c <= n
    && '\n' !in text[n - c..n]
    && (c == n || text[n - c - 1] == '\n')
  }

  /** The line number is one more than the number of line feeds before `n`. */
  lemma LineAtCount(text: string, n: nat)
    requires n <= |text|
    ensures LineAt(text, n) == 1 + multiset(text[..n])['\n']
  {
    SplitLinesCount(text[..n]);
  }

  /** Line numbers start at 1 and never decrease along the text. */
  lemma LineAtMonotone(text: string, a: nat, b: nat)
    requires a <= b <= |text|
    ensures 1 <= LineAt(text, a) <= LineAt(text, b)
  {
    LineAtCount(text, a);
    LineAtCount(text, b);
    assert text[..b] == text[..a] + text[a..b];
    assert multiset(text[..b]) == multiset(text[..a]) + multiset(text[a..b]);
  }

  /** The column is the number of code units since the last preceding line
      feed (or since the start of the text). */
  lemma ColumnAtMeaning(text: string, n: nat)
    requires n <= |text|
    ensures IsColumn(text, n, ColumnAt(text, n))
  {
    LastLine(text[..n]);
    var c := ColumnAt(text, n);
    assert text[..n][n - c..] == text[n - c..n];
    if c < n {
      assert text[..n][n - c - 1] == text[n - c - 1];
    }
  }

  /** A column is determined by its offset. */
  lemma IsColumnUnique(text: string, n: nat, c1: nat, c2: nat)
    requires n <= |text|
    requires IsColumn(text, n, c1) && IsColumn(text, n, c2)
    ensures c1 == c2
  {
  }

  /** `Math.max(index - 100, 0)`: where the context snippet starts. */
  function AreaStart(index: nat): (r: nat)
  {
    if index >= 100 then index - 100 else 0
  }

  /** `input.slice(Math.max(index - 100, 0), Math.min(index + keyLen + 100, input.length))`:
      a piece of the file around the match, at most 100 code units before
      its start and `keyLen + 100` after. */
  function Area(text: string, index: nat, keyLen: nat): (a: string)
    requires index <= |text|
    ensures |a| <= keyLen + 200
    ensures AreaStart(index) + |a| <= |text|
    ensures a == text[AreaStart(index)..AreaStart(index) + |a|]
    ensures index + keyLen + 100 <= |text| ==> AreaStart(index) + |a| == index + keyLen + 100
    ensures index + keyLen + 100 > |text| ==> AreaStart(index) + |a| == |text|
  {
    var hi := if index + keyLen + 100 <= |text| then index + keyLen + 100 else |text|;
    text[AreaStart(index)..hi]
  }

  /** The location `findTranslations` records for match `m` of a key of
      length `keyLen` in `file`. */
  function Locate(file: string, text: string, m: Match, keyLen: nat): (loc: Location)
    requires m.start <= m.keyStart <= m.keyEnd <= m.end <= |text|
    ensures loc.file == file && loc.index == m.start
    ensures 1 <= loc.lineStart <= loc.lineEnd
    ensures loc.lineStart == 1 + multiset(text[..m.start])['\n']
    ensures loc.lineEnd == 1 + multiset(text[..m.end])['\n']
    ensures IsColumn(text, m.keyStart, loc.columnStart)
    ensures IsColumn(text, m.keyEnd, loc.columnEnd)
    ensures loc.area == Area(text, m.start, keyLen)
    ensures |loc.area| <= keyLen + 200
  {
    LineAtMonotone(text, m.start, m.end);
    LineAtCount(text, m.start);
    LineAtCount(text, m.end);
    ColumnAtMeaning(text, m.keyStart);
    ColumnAtMeaning(text, m.keyEnd);
    Location(
      file,
      m.start,
      Area(text, m.start, keyLen),
      LineAt(text, m.start),
      LineAt(text, m.end),
      ColumnAt(text, m.keyStart),
      ColumnAt(text, m.keyEnd))
  }
}
