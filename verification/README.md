# missing-translations-action, modelled in Dafny

The action scans a project's source files for calls of translation
functions (`$t('key')`, `__("key")`, …). It groups the keys it finds with
the places they occur and compares them with a JSON translation catalog.
It reports the keys that occur without a usable translation ("missing")
and the catalog keys that never occur ("unused"). For each missing key it
can propose a similar catalog key. It can also write a baseline (the
ignore file) that silences the current occurrences of every missing key
on the next run.

The repository holds two copies of this pipeline, and the model covers
both as one `Variant`:

- `Overview` is `createTranslationsOverview` and `createIgnoreFile` in
  `src/createTranslationsOverview.js`.
- `Standalone` is `main` in `missing-translations.js`.

They differ in eight places:

- how the `$` of an identifier is escaped (`replaceAll` or `replace`);
- the standalone copy's removal of the first backslash of every key;
- the context snippet, sized by the stored key, so by the key without
  that backslash in the standalone copy;
- the similarity index each one queries;
- the `!!str` filter on candidates;
- the standalone copy's crash (`k.length` of `undefined`) when its index
  returns an id outside the catalog;
- the indentation after each location in the report;
- who writes the baseline: `main` writes it itself
  (missing-translations.js:217-221), while the overview module only
  exports `createIgnoreFile` and never calls it. For `Overview`,
  `Pipeline.Run` models `createTranslationsOverview` followed by a
  caller's `createIgnoreFile(env, missingTranslations, translations)`.

Modules, one per stage, in pipeline order:

| module | stage |
|---|---|
| `Seqs` | `Option`, `Result`, order-preserving `Filter`, sub-sequences |
| `Text` | JavaScript `\s`, `split('\n')`, decimal rendering of offsets |
| `Patterns` | the pattern builder (`createRegexes` / `createRegex`) |
| `Matcher` | the call-site regex as a deterministic recogniser, and `matchAll` |
| `Locations` | line, column and context-snippet arithmetic of a match |
| `Extraction` | `findTranslations` / `findAllTranslations` with positional suppression |
| `Grouping` | the `translations` object: keys in first-seen order, each with its locations |
| `Reconcile` | the missing and unused key lists |
| `Similarity` | the suggestion filter: the length window, the Levenshtein threshold and the first survivor |
| `Report` | the per-key report entries (`createLogs` / the report loop) |
| `Baseline` | the baseline writer (`createIgnoreFile`) |
| `Discovery` | `getAllFiles` over an in-memory directory tree |
| `Pipeline` | `loadEnvData`'s defaults, one whole run, and the rerun after a baseline |
| `Fixtures` | concrete call sites from `test-env/failure-env/src/main.js` |

### Modelling choices

- **The regex as a recogniser.** The regex
  `ident\(\n?\s*[q](?<translation>[^q]+)[q]([,.\n\s]+)?[\)\{\[]` is modelled
  as a deterministic recogniser (`Matcher.MatchAt`). `Matcher.Shape` is the
  declarative reading of the same pattern. The two agree when the quote is
  not white space (`MatchAtSound`, `MatchAtComplete`). `matchAll`'s
  leftmost, non-overlapping search is `Matcher.Leftmost`, and the scanner
  is its unique solution.
- **How an identifier is read.** After escaping, an identifier is parsed
  the way the RegExp constructor reads it: `\$` is a literal `$`, and a bare
  `$` asserts the end of the input. The standalone copy escapes only the
  first `$`. An identifier with two or more `$` therefore yields a pattern
  that never matches (`EscapeFirstAnchors`, `AnchoredNeverMatches`).
- **The catalog.** A catalog value is a string or something else. A key is
  missing when the catalog has no value for it or its value is the empty
  string. A non-string value counts as a translation, as `=== ''` and
  `=== undefined` decide in the source.
- **Unavailable settings.** A setting the source treats as falsy is
  `None`: `undefined`, `''` or `NaN`. An empty list is truthy and is kept,
  as `||` keeps it.
- **Outside effects become parameters.**
  - The directory tree is a map from each readable root to its entries.
  - The catalog and the ignore file are passed already parsed.
  - The similarity index is a function from a query text to the ids it
    returns (`Report.Queries`).
  - A failure is a `Result`: an unreadable root, or the standalone copy's
    `k.length` on an id outside the catalog.
- **The suggestion.** The code reports the first survivor in the index's
  answer order (`similar[0]`), not the nearest one; `Similarity.SelectedFrom`
  states this rule and `Similarity.FirstNotClosest` exhibits the difference.

## Model

| member | source | states |
|---|---|---|
| Patterns.CreatePatterns | missing-translations.js:122-129 | there is one pattern per (quote, identifier) pair: the number of quotes times the number of identifiers |
| Patterns.CreatePatternsAt | src/createTranslationsOverview.js:277-294 | with `m` identifiers, the pattern at `qi * m + ii` has quote `qi` and identifier `ii`: patterns are grouped by quote in quote order, and by identifier order inside each group |
| Patterns.EscapeEveryIsLiteral | src/createTranslationsOverview.js:285-288 | escaping with `replaceAll` makes every `$` literal: the overview copy matches an identifier without backslashes exactly, code unit by code unit |
| Patterns.EscapeFirstAgrees | missing-translations.js:125 | for an identifier with at most one `$`, escaping the first `$` is escaping all of them, so both copies compile it alike |
| Patterns.EscapeFirstAnchors | missing-translations.js:125 | with two or more `$`, the standalone copy leaves a bare `$`, which reads as the end-of-input assertion |
| Patterns.BareDollarAnchors | missing-translations.js:125 | an unescaped `$` in the regex source parses as the end-of-input assertion |
| Matcher.SkipSpaces | src/createTranslationsOverview.js:288 | `\n?\s*` consumes exactly the run of white space: everything skipped is white space, and what follows is not |
| Matcher.ScanKey | src/createTranslationsOverview.js:288 | `[^q]+` runs to the first quote: nothing before it is a quote, and it stops at a quote or the end |
| Matcher.SkipSeparators | src/createTranslationsOverview.js:288 | `([,.\n\s]+)?` consumes exactly the run of separators |
| Matcher.MatchAt | src/createTranslationsOverview.js:288 | a match's start, capture start, capture end and end are strictly increasing and inside the text |
| Matcher.MatchAtSound | src/createTranslationsOverview.js:288 | a match is an identifier, `(`, white space, a quote, a non-empty quote-free key, a quote, separators and a closer |
| Matcher.MatchAtComplete | src/createTranslationsOverview.js:288 | for a quote that is not white space, every decomposition of that shape at an offset is the recogniser's answer: there is at most one match per offset |
| Matcher.ScanFrom | src/createTranslationsOverview.js:81 | the scan from an offset is a leftmost, non-overlapping sequence of matches with no match left after the last one |
| Matcher.LeftmostUnique | src/createTranslationsOverview.js:81 | the leftmost characterisation has exactly one solution, the scan |
| Matcher.LeftmostDeterministic | src/createTranslationsOverview.js:81 | two leftmost match sequences from the same offset are equal |
| Matcher.LeftmostOrdered | src/createTranslationsOverview.js:81 | matches lie inside the text, come left to right and never overlap |
| Matcher.LeftmostMatches | src/createTranslationsOverview.js:81 | every reported match is what the pattern matches at its start |
| Matcher.MatchKey | src/createTranslationsOverview.js:82 | a capture is a non-empty run between two quotes and holds no quote |
| Matcher.ScanKeys | src/createTranslationsOverview.js:81-82 | every key `matchAll` captures is quoted and quote-free, and matches do not overlap |
| Matcher.MatchAll | src/createTranslationsOverview.js:81 | the loop form of `matchAll` computes the leftmost scan |
| Matcher.ScanFromHit | src/createTranslationsOverview.js:81 | a match at the current offset is reported, and the search resumes at its end |
| Matcher.ScanFromMiss | src/createTranslationsOverview.js:81 | no match at the current offset moves the search one code unit on |
| Matcher.AnchorAtEnd | missing-translations.js:125 | an identifier holding the end-of-input assertion can only match up to the end of the text |
| Matcher.AnchoredNeverMatches | missing-translations.js:125 | such a pattern never matches, since it still needs a `(` after the end |
| Text.SplitJoin | src/createTranslationsOverview.js:90-92 | `split('\n')` loses nothing: joining the pieces gives the text back, and no piece holds a line feed |
| Text.SplitLinesCount | src/createTranslationsOverview.js:90-92 | `split('\n').length` is one more than the number of line feeds |
| Text.LastLine | src/createTranslationsOverview.js:97-100 | `split('\n').pop()` is the text after the last line feed, or all of it when there is none |
| Text.NatToString | src/createTranslationsOverview.js:85 | an offset renders as a non-empty string of decimal digits |
| Text.ParseNatToString | src/createTranslationsOverview.js:85 | the decimal rendering reads back as the same number, so it is injective |
| Locations.LineAtCount | src/createTranslationsOverview.js:90-95 | the line of an offset is 1 plus the line feeds before it |
| Locations.LineAtMonotone | src/createTranslationsOverview.js:90-95 | line numbers start at 1 and never decrease along the text |
| Locations.ColumnAtMeaning | src/createTranslationsOverview.js:97-104 | the column of an offset is the number of code units since the preceding line feed, or since the start |
| Locations.IsColumnUnique | src/createTranslationsOverview.js:97-104 | an offset has exactly one column |
| Locations.Area | src/createTranslationsOverview.js:109-112 | the snippet is the slice from at most 100 code units before the match to `keyLen + 100` after it, clipped to the text |
| Locations.Locate | src/createTranslationsOverview.js:87-117 | a location records the file and match offset, the 1-based lines of the match's start and end, the columns of the capture's start and end, and exactly the `Area` snippet around the match |
| Extraction.LastColonSeparates | src/createTranslationsOverview.js:85 | in `file:offset`, the last colon is the separator |
| Extraction.IgnoreKeyInjective | src/createTranslationsOverview.js:85 | two `file:offset` identities are equal only for the same file and offset: suppression is exactly positional |
| Extraction.StripFirstBackslash | missing-translations.js:71 | `replace('\\', '')` removes exactly the first backslash: the result is the text before it followed by the text after it, and a key without a backslash is unchanged |
| Extraction.Occur | src/createTranslationsOverview.js:106-119 | an occurrence carries the capture as its key (the standalone copy without its first backslash), and the location of the match in that file, with a snippet sized by the stored key |
| Extraction.OccurrencesAll | src/createTranslationsOverview.js:80-121 | without an ignore file, every match yields its occurrence, in match order |
| Extraction.OccurrencesSuppressed | src/createTranslationsOverview.js:85 | with an ignore file, a file's occurrences are those without it, less the ones whose entry is truthy, in the same order |
| Extraction.FindInFileSuppressed | src/createTranslationsOverview.js:134-147 | the same holds over all patterns of one file |
| Extraction.FindAllSuppressed | src/createTranslationsOverview.js:123-151 | the same holds over all files: suppression only removes occurrences and keeps the order |
| Grouping.Group | src/createTranslationsOverview.js:141-145 | the index lists the occurring keys in first-seen order, once each, with exactly that key's locations in occurrence order |
| Grouping.GroupSnoc | src/createTranslationsOverview.js:141-145 | one more occurrence is recorded into the index of the ones before it |
| Grouping.RecordIndexes | src/createTranslationsOverview.js:141-145 | a push or a fresh list keeps the index exact |
| Grouping.RecordWellFormed | src/createTranslationsOverview.js:141-145 | recording keeps the key list duplicate-free and in step with the stored keys |
| Grouping.RecordKeysExact | src/createTranslationsOverview.js:141-145 | after recording, a key is stored exactly when it occurs |
| Grouping.RecordLocationsExact | src/createTranslationsOverview.js:141-145 | after recording, every stored list is exactly that key's locations |
| Grouping.RecordFirstSeenOrder | src/createTranslationsOverview.js:141-145 | after recording, keys stay in order of first occurrence |
| Grouping.GroupNonEmpty | src/createTranslationsOverview.js:144 | a stored location list is never empty |
| Grouping.LocationsOfSound | src/createTranslationsOverview.js:142 | every stored location comes from an occurrence of that key |
| Grouping.LocationsOfComplete | src/createTranslationsOverview.js:142 | every occurrence's location is stored under its key |
| Reconcile.Missing | src/createTranslationsOverview.js:322-326 | a key is missing exactly when it occurs and the catalog has no value or the empty string for it; first-seen order is kept |
| Reconcile.Unused | src/createTranslationsOverview.js:328-330 | a catalog key is unused exactly when it never occurs; catalog order is kept |
| Reconcile.MissingUnusedDisjoint | src/createTranslationsOverview.js:322-330 | no key is both missing and unused |
| Reconcile.MissingUnusedDistinct | src/createTranslationsOverview.js:317-330 | both lists are duplicate-free |
| Reconcile.ReferencedKeysPartition | src/createTranslationsOverview.js:322-326 | an occurring key is missing or has a non-empty or non-string value, never both |
| Reconcile.CatalogKeysPartition | src/createTranslationsOverview.js:328-330 | a catalog key is unused exactly when no occurrence carries it |
| Similarity.EffectiveDistance | src/createTranslationsOverview.js:167 | `similarDist` or 1 is never 0: a missing, `NaN` or zero setting becomes 1, any other value is kept |
| Similarity.LevSelf | src/createTranslationsOverview.js:244 | a string is at distance 0 from itself |
| Similarity.LevZero | src/createTranslationsOverview.js:244 | distance 0 holds only between equal strings |
| Similarity.LevLengthGap | src/createTranslationsOverview.js:244 | the distance is at least the difference of the lengths |
| Similarity.DifferentNeedsDistance | src/createTranslationsOverview.js:245 | a key other than the missing one passes the threshold only when it is at least 1 |
| Similarity.WindowVacuous | src/createTranslationsOverview.js:237-243 | for a distance of at least 1, the length window keeps every candidate |
| Similarity.Survivors | src/createTranslationsOverview.js:237-246 | survivors are candidates within the distance, in query order; with a positive distance every such candidate survives; a negative distance leaves none |
| Similarity.SurvivorsHead | src/createTranslationsOverview.js:237-247 | the first survivor is the first candidate that passes both the window and the distance filter |
| Similarity.FirstSelects | src/createTranslationsOverview.js:249-250 | taking `similar[0]` unless it equals the missing key is the selection rule: a suggestion exists exactly when the first passing candidate is not the missing key, and then it is that candidate |
| Similarity.SelectedFromUnique | src/createTranslationsOverview.js:249-250 | the selection rule determines the suggestion: two answers that both follow it are equal |
| Similarity.PadShape | missing-translations.js:173 | `padStart` only prepends spaces, keeps keys of 6 or more code units, and yields at least 6 |
| Similarity.OverviewCandidates | src/createTranslationsOverview.js:234-236 | candidates are non-empty catalog keys, at most one per returned id, and every non-empty key at a returned position is a candidate; which positions and in what order is stated by the three lemmas below |
| Similarity.OverviewCandidatesOrigin | src/createTranslationsOverview.js:234-236 | every candidate is the key some returned id resolves to |
| Similarity.OverviewCandidatesConcat | src/createTranslationsOverview.js:234-236 | mapping and filtering work id by id: the candidates of `a + b` are those of `a` followed by those of `b` |
| Similarity.OverviewCandidatesOne | src/createTranslationsOverview.js:234-236 | a single id contributes its truthy key, or nothing |
| Similarity.OverviewSuggestion | src/createTranslationsOverview.js:225-252 | the suggestion is the first passing candidate of the resolved answer, present exactly when that candidate is not the missing key; it is a non-empty catalog key other than the missing one, within the distance |
| Similarity.StandaloneCandidates | missing-translations.js:177 | the lookup fails exactly when some id is outside the catalog, and otherwise yields the key at each id |
| Similarity.StandaloneSuggestion | missing-translations.js:171-185 | the standalone suggestion crashes exactly on an id outside the catalog, and otherwise is the first passing candidate of the looked-up keys, present exactly when it is not the missing key |
| Similarity.FirstNotClosest | src/createTranslationsOverview.js:249-252 | the suggestion is the first survivor, not the closest: `"xy"` is proposed for `"ab"` although `"ax"` is nearer |
| Similarity.OmittedWhenFirstIsSelf | src/createTranslationsOverview.js:250 | when the first survivor is the missing key itself, no suggestion is shown although another key survives |
| Report.SimilarText | src/createTranslationsOverview.js:249-252 | the suggestion line is empty exactly when there is no suggestion |
| Report.SimilarTextInjective | src/createTranslationsOverview.js:251 | the suggestion line determines the suggestion |
| Report.EmptyNote | src/createTranslationsOverview.js:254-257 | the note appears exactly when the catalog holds the empty string under the key |
| Report.LocationList | src/createTranslationsOverview.js:262-266 | the location list is empty exactly when there are no locations |
| Report.LocationListConcat | src/createTranslationsOverview.js:262-266 | every location contributes its own item, in location order |
| Report.MessageShape | src/createTranslationsOverview.js:259-267 | a message starts with the headline and the key, and ends with a line feed and the colour reset |
| Report.Suggest | src/createTranslationsOverview.js:228-247 | the overview copy never fails; the standalone copy fails exactly when its lookup does; otherwise the suggestion follows the selection rule over the candidates of the variant's query (the key, or the padded key) |
| Report.Log | src/createTranslationsOverview.js:225-273 | an entry reports its key with the message built from its locations, its empty-value note and its suggestion line; the line is that of the selected suggestion when suggestions are on, and empty when off; it fails exactly when the suggestion lookup does |
| Report.CreateLogs | src/createTranslationsOverview.js:212-275 | there is one entry per missing key, in order, each with that key's message and selected suggestion; it fails exactly when some missing key's lookup fails, which only the standalone copy with suggestions on can do |
| Baseline.EntriesOf | src/createTranslationsOverview.js:36-43 | the entries are exactly the `file:index` of each location, all `true` |
| Baseline.BaselineMap | src/createTranslationsOverview.js:44-48 | the baseline is the union of the entries of every missing key's locations |
| Baseline.BaselineSuppresses | src/createTranslationsOverview.js:36-48 | every location of every missing key is suppressed by the baseline |
| Baseline.BaselineOnlyMissing | src/createTranslationsOverview.js:36-48 | each baseline entry names a location of some missing key |
| Baseline.CreateIgnoreFile | src/createTranslationsOverview.js:29-52 | a baseline is written exactly when `createIgnore` is set, and it is the union of the missing keys' entries, all `true` |
| Discovery.WalkIsFilteredListing | src/createTranslationsOverview.js:62-78 | the walk returns exactly the files below a directory whose name ends in `.` plus a configured ending, depth first, in entry order, each read under its own path |
| Discovery.FirstUnreadable | src/createTranslationsOverview.js:64-65 | the run aborts at the first root that cannot be listed, after only listable roots |
| Discovery.GetAllFiles | src/createTranslationsOverview.js:62-78 | it fails exactly when some root cannot be listed, and then names the first one; otherwise it returns each root's ending-filtered files, depth first, root by root in order, so overlapping roots repeat files |
| Discovery.RootsFilesAreListings | src/createTranslationsOverview.js:64-75 | walking the roots one after the other gives the reference listing: the roots before the last, then the last root's filtered files |
| Discovery.RootsFilesConcat | src/createTranslationsOverview.js:64-75 | the files of two root lists are those of their concatenation |
| Discovery.GetAllFilesConcat | src/createTranslationsOverview.js:64-75 | roots are independent: listing `a + b` lists `a`, then `b` |
| Pipeline.LoadEnvData | src/createTranslationsOverview.js:153-182 | a falsy setting gets its default (endings `js`, `ts`, `vue`, `php`; the three quotes; `$t`, `$tc`, `@lang`, `__`; no folders; `lang/en.json`; distance 1), and a set one is kept |
| Pipeline.LoadEnvDataSettled | src/createTranslationsOverview.js:153-182 | loaded settings are complete: loading them again changes nothing |
| Pipeline.Analyse | src/createTranslationsOverview.js:312-330 | the index is that of the occurrences; a key is missing exactly when it occurs untranslated, and unused exactly when it is in the catalog and never occurs |
| Pipeline.RerunAfterBaseline | missing-translations.js:217-221 | over the same occurrences, a baseline written for the missing keys leaves no key missing |
| Pipeline.Run | missing-translations.js:111-221 | a run fails on an unreadable root exactly when one exists, and with a lookup crash exactly when discovery succeeds and some missing key's lookup fails (standalone copy, suggestions on); otherwise it holds the discovered files, the analysis of their occurrences, one entry per missing key with its message and selected suggestion, and the baseline of the missing keys exactly when requested (for the overview copy, as a caller of `createIgnoreFile` would write it) |
| Pipeline.Conclude | missing-translations.js:132-221 | after discovery, the run analyses the files' occurrences, reports each missing key and writes the baseline when asked; it fails exactly when some missing key's lookup fails |
| Pipeline.BaselineSilencesRerun | missing-translations.js:132-221 | a run that writes a baseline, then a run reading it over the same tree and catalog, reports no missing key |
| Fixtures.DtCompiled | src/createTranslationsOverview.js:285-288 | `$t` compiles to the literal atoms `$`, `t` |
| Fixtures.DtHit | src/createTranslationsOverview.js:288 | `$t(`, a quote, a key, a quote, separators and a closer make exactly one match |
| Fixtures.MultilineKey | test-env/failure-env/src/main.js:23-25 | a backtick key spanning lines keeps its line feeds; its match starts on line 1 and ends on line 3, at capture columns 6 and 0 |
| Fixtures.TrailingArguments | test-env/failure-env/src/main.js:17 | a call with more arguments matches once, up to the `{`, and captures only the quoted key |
| Fixtures.RepeatedOccurrences | test-env/failure-env/src/main.js:13-28 | a key used twice yields two occurrences with that key, on lines 1 and 2 |
| Fixtures.RepeatedKey | test-env/failure-env/src/main.js:13-28 | the repeated key is grouped once, with both locations in text order |
| Fixtures.GroupTwoSame | src/createTranslationsOverview.js:141-145 | two occurrences of one key group under that key, in order |

## Left out

- File and process effects are parameters or left out:
  - reading files, `readdirSync`/`statSync`, and JSON parsing of the catalog and the ignore file;
  - writing the ignore file, logging, `core.info`/`core.error` annotations and the totals lines;
  - the GitHub Actions input parsing in `index.js`.
- The similarity indexes are given as a function from query text to ids:
  - the minhash/LSH internals, `createHashInstance` and `buildLocalitySearch`;
  - the overview copy's insertion of each missing key into its index;
  - the shingle configuration.
- `levensteinDistance.js` is not part of this model. `Similarity.Lev` is
  the standard unit-cost edit distance.
- `consoleConsts.js` is not part of this model. The colour and tab
  constants of the overview copy are taken to be those
  `missing-translations.js` declares (lines 10-17).
- Regex features outside the built patterns are left out:
  - metacharacters other than `$` inside an identifier, and backslashes of an identifier's own;
  - quote strings longer than one code unit;
  - white-space quotes, which would need backtracking. `Matcher.MatchAtComplete` requires a quote that is not white space.
- Patterns.CreatePatterns: a quote is always read as a literal code unit
  inside `[q]` and `[^q]`. A quote that is special inside a character class
  is not modelled: `^` gives `[^]`, which matches any code unit, `]` gives
  `[]]`, which never matches, and `\` makes `new RegExp` throw.
- `path.join` normalisation is left out. A path is the directory, `/` and the entry name.
- Strings are sequences of UTF-16 code units. Surrogate pairs and
  normalisation are not modelled.
- The overview copy writes the baseline to `env.ignoreTranslationFile`
  but reads `./.ignoretrans`. `Pipeline.BaselineSilencesRerun` assumes the
  written baseline is what the next run reads, as in the standalone copy.
- Asynchronous reads and generator laziness are left out. The model
  computes the whole report at once, which yields the same entries in the
  same order.
- JavaScript object quirks of `translations[key]` and
  `translationJSON[key]` are left out:
  - keys such as `__proto__` or `constructor` that hit prototype properties;
  - numeric-like keys that `Object.keys` lists first.
- A non-integer `similarDist` is left out. `parseInt` gives an integer or `NaN`.
- Which ids the similarity indexes return is a parameter. The model states
  which candidate is chosen from a given answer, not which answer an index
  gives. An overview id that is a key inserted before the query resolves to
  no candidate; a numeric-looking key such as `"0"`, or `"length"`, would
  index the key array in JavaScript, and that is not modelled.
