/** The occurrence extractor: `findTranslations` / `findAllTranslations`
    of both copies, with the positional suppression of the ignore file. */
module Extraction {
  import opened Seqs
  import opened Text
  import opened Patterns
  import opened Matcher
  import opened Locations

  /** A discovered file and its full text. */
  datatype SourceFile = SourceFile(path: string, text: string)

  /** One located use of a translation key. */
  datatype Occurrence = Occurrence(key: string, loc: Location)

  /** The parsed ignore file: the truthiness of each `"<file>:<offset>"`
      entry, or `None` when `loadIgnoreFile` returned `false` (no file, or
      one that does not parse). */
  type IgnoreFile = Option<map<string, bool>>

  /** `` `${file}:${match.index}` ``: the identity of a match. */
  function IgnoreKey(file: string, index: nat): (r: string)
  {
    file + ":" + NatToString(index)
  }

  /** `ignoreFile?.[`${file}:${match.index}`]` is truthy. */
  predicate Suppressed(ignore: IgnoreFile, file: string, index: nat)
  {
    ignore.Some? && IgnoreKey(file, index) in ignore.value && ignore.value[IgnoreKey(file, index)]
  }

  /** The filter that keeps what the ignore file does not suppress. */
  function Unsuppressed(ignore: IgnoreFile): (r: Occurrence -> bool)
  {
    (o: Occurrence) => !Suppressed(ignore, o.loc.file, o.loc.index)
  }

  /** The offset of the last `:` of `s`, or -1 when there is none. */
  function LastColon(s: string): (r: int)
    ensures -1 <= r < |s|
    decreases |s|
  {
    if |s| == 0 then -1
    else if s[|s| - 1] == ':' then |s| - 1
    else LastColon(s[..|s| - 1])
  }

  /** In `f + ":" + d` with a colon-free `d`, the last colon is the separator. */
  lemma {:induction false} LastColonSeparates(f: string, d: string)
    requires ':' !in d
    ensures LastColon(f + ":" + d) == |f|
    decreases |d|
  {
    if |d| > 0 {
      var s := f + ":" + d;
      assert s[..|s| - 1] == f + ":" + d[..|d| - 1];
      LastColonSeparates(f, d[..|d| - 1]);
    }
  }

  /** Two match identities are the same string only for the same file and
      the same offset: suppression is exactly positional. */
  lemma IgnoreKeyInjective(f1: string, i1: nat, f2: string, i2: nat)
    requires IgnoreKey(f1, i1) == IgnoreKey(f2, i2)
    ensures f1 == f2 && i1 == i2
  {
    var d1, d2 := NatToString(i1), NatToString(i2);
    var s := IgnoreKey(f1, i1);
    LastColonSeparates(f1, d1);
    LastColonSeparates(f2, d2);
    assert f1 == s[..|f1|] == f2;
    assert d1 == s[|f1| + 1..] == d2;
    ParseNatToString(i1);
    ParseNatToString(i2);
  }

  /** The position of the first `c` in `s`. */
  function IndexOf(s: string, c: char): (i: nat)
    requires c in s
    ensures i < |s| && s[i] == c && c !in s[..i]
  {
    if s[0] == c then 0
    else
      var j := IndexOf(s[1..], c);
      assert s[..j + 1] == [s[0]] + s[1..][..j];
      j + 1
  }

  /** `s.replace('\\', '')`: the first backslash removed, nothing else. */
  function StripFirstBackslash(s: string): (r: string)
    ensures '\\' !in s ==> r == s
    ensures '\\' in s ==> r == s[..IndexOf(s, '\\')] + s[IndexOf(s, '\\') + 1..]
  {
    if |s| == 0 then ""
    else if s[0] == '\\' then s[1..]
    else
      var rest := StripFirstBackslash(s[1..]);
      DropAfterHead(s, '\\');
      [s[0]] + rest
  }

  /** Dropping the first `c` of `s` commutes with keeping a head that is not `c`. */
  lemma DropAfterHead(s: string, c: char)
    requires |s| > 0 && s[0] != c
    ensures c in s ==> c in s[1..]
    ensures c in s ==>
      s[..IndexOf(s, c)] + s[IndexOf(s, c) + 1..]
      == [s[0]] + (s[1..][..IndexOf(s[1..], c)] + s[1..][IndexOf(s[1..], c) + 1..])
  {
    if c in s {
      var j := IndexOf(s[1..], c);
      assert s[..j + 1] == [s[0]] + s[1..][..j];
      assert s[j + 2..] == s[1..][j + 1..];
    }
  }

  /** The key each copy stores for a capture: the overview copy keeps the
      capture as it is, the standalone copy strips its first backslash. */
  function KeyOf(variant: Variant, capture: string): (r: string)
  {
    match variant
    case Overview => capture
    case Standalone => StripFirstBackslash(capture)
  }

  /** Offsets of a match that lie inside its text. */
  predicate Within(text: string, m: Match)
  {
    m.start <= m.keyStart <= m.keyEnd <= m.end <= |text|
  }

  /** The occurrence recorded for match `m`; the snippet uses the stored key's length. */
  function Occur(variant: Variant, file: SourceFile, m: Match): (o: Occurrence)
    requires Within(file.text, m)
    ensures variant == Overview ==> o.key == file.text[m.keyStart..m.keyEnd]
    ensures variant == Standalone ==> o.key == StripFirstBackslash(file.text[m.keyStart..m.keyEnd])
    ensures o.loc == Locate(file.path, file.text, m, |o.key|)
    ensures o.loc.file == file.path && o.loc.index == m.start
  {
    var key := KeyOf(variant, file.text[m.keyStart..m.keyEnd]);
    Occurrence(key, Locate(file.path, file.text, m, |key|))
  }

  /** The occurrences of the matches `ms`, dropping every suppressed match. */
  function Occurrences(variant: Variant, file: SourceFile, ms: seq<Match>, ignore: IgnoreFile): (r: seq<Occurrence>)
    requires forall i :: 0 <= i < |ms| ==> Within(file.text, ms[i])
    decreases |ms|
  {
    if |ms| == 0 then []
    else
      var rest := Occurrences(variant, file, ms[1..], ignore);
      if Suppressed(ignore, file.path, ms[0].start) then rest
      else [Occur(variant, file, ms[0])] + rest
  }

  /** `findTranslations(data, regex, fileName, ignoreFile)`: one pattern over one file. */
  function FindTranslations(variant: Variant, file: SourceFile, pat: Pattern, ignore: IgnoreFile): (r: seq<Occurrence>)
  {
    var ms := Scan(file.text, pat);
    LeftmostMatches(file.text, pat, 0, ms);
    Occurrences(variant, file, ms, ignore)
  }

  /** `regexes.forEach(...)`: every pattern over one file, in pattern order. */
  function FindInFile(variant: Variant, file: SourceFile, pats: seq<Pattern>, ignore: IgnoreFile): (r: seq<Occurrence>)
    decreases |pats|
  {
    if |pats| == 0 then []
    else FindTranslations(variant, file, pats[0], ignore) + FindInFile(variant, file, pats[1..], ignore)
  }

  /** The occurrences of `findAllTranslations` before grouping: files in
      order, then patterns in order, then matches by offset. */
  function FindAll(variant: Variant, files: seq<SourceFile>, pats: seq<Pattern>, ignore: IgnoreFile): (r: seq<Occurrence>)
    decreases |files|
  {
    if |files| == 0 then []
    else FindInFile(variant, files[0], pats, ignore) + FindAll(variant, files[1..], pats, ignore)
  }

  /** Without an ignore file every match yields its occurrence, in match order. */
  lemma {:induction false} OccurrencesAll(variant: Variant, file: SourceFile, ms: seq<Match>)
    requires forall i :: 0 <= i < |ms| ==> Within(file.text, ms[i])
    ensures |Occurrences(variant, file, ms, None)| == |ms|
    ensures forall i :: 0 <= i < |ms| ==> Occurrences(variant, file, ms, None)[i] == Occur(variant, file, ms[i])
    decreases |ms|
  {
    if |ms| > 0 {
      OccurrencesAll(variant, file, ms[1..]);
      OccurrencesCons(variant, file, ms);
      var f := (m: Match) requires Within(file.text, m) => Occur(variant, file, m);
      MapShift(f, ms, Occurrences(variant, file, ms, None));
    }
  }

  /** Without an ignore file the first match is recorded before the rest. */
  lemma OccurrencesCons(variant: Variant, file: SourceFile, ms: seq<Match>)
    requires |ms| > 0 && forall i :: 0 <= i < |ms| ==> Within(file.text, ms[i])
    ensures Occurrences(variant, file, ms, None) == [Occur(variant, file, ms[0])] + Occurrences(variant, file, ms[1..], None)
  {
  }

  lemma {:induction false} OccurrencesSuppressed(variant: Variant, file: SourceFile, ms: seq<Match>, ignore: IgnoreFile)
    requires forall i :: 0 <= i < |ms| ==> Within(file.text, ms[i])
    ensures Occurrences(variant, file, ms, ignore)
         == Filter(Occurrences(variant, file, ms, None), Unsuppressed(ignore))
    decreases |ms|
  {
    if |ms| > 0 {
      OccurrencesSuppressed(variant, file, ms[1..], ignore);
      OccurrencesCons(variant, file, ms);
      FilterCons(Occur(variant, file, ms[0]), Occurrences(variant, file, ms[1..], None), Unsuppressed(ignore));
    }
  }

  lemma {:induction false} FindInFileSuppressed(variant: Variant, file: SourceFile, pats: seq<Pattern>, ignore: IgnoreFile)
    ensures FindInFile(variant, file, pats, ignore)
         == Filter(FindInFile(variant, file, pats, None), Unsuppressed(ignore))
    decreases |pats|
  {
    if |pats| > 0 {
      var ms := Scan(file.text, pats[0]);
      LeftmostMatches(file.text, pats[0], 0, ms);
      OccurrencesSuppressed(variant, file, ms, ignore);
      FindInFileSuppressed(variant, file, pats[1..], ignore);
      FilterConcat(FindTranslations(variant, file, pats[0], None),
                   FindInFile(variant, file, pats[1..], None), Unsuppressed(ignore));
    }
  }

  /** Suppression only removes matches: the occurrences found with an ignore
      file are exactly those found without one whose `file:offset` entry is
      not truthy, in the same order. */
  lemma {:induction false} FindAllSuppressed(variant: Variant, files: seq<SourceFile>, pats: seq<Pattern>, ignore: IgnoreFile)
    ensures FindAll(variant, files, pats, ignore)
         == Filter(FindAll(variant, files, pats, None), Unsuppressed(ignore))
    decreases |files|
  {
    if |files| > 0 {
      FindInFileSuppressed(variant, files[0], pats, ignore);
      FindAllSuppressed(variant, files[1..], pats, ignore);
      FilterConcat(FindInFile(variant, files[0], pats, None),
                   FindAll(variant, files[1..], pats, None), Unsuppressed(ignore));
    }
  }
}
