/** The report builder (`createLogs` / the report loop of `main`): one entry
    per missing key, with its locations, the empty-value note and the
    optional suggestion. */
module Report {
  import opened Seqs
  import opened Text
  import opened Patterns
  import opened Locations
  import opened Grouping
  import opened Reconcile
  import opened Similarity

  /** The ANSI reset sequence. The fixed texts below are written out as
      single literals: `baseTabs` is one tab, and red, green, yellow and
      magenta are `ESC[31m`, `ESC[32m`, `ESC[33m` and `ESC[35m`. */
  const Reset: string := "\U{1B}[0m"

  /** The fixed text before a shown suggestion (`\n${baseTabs}\t${fgGreen}Similar to: `). */
  const SimilarLead: string := "\n\t\t\U{1B}[32mSimilar to: "

  /** `similarStr`: the suggestion line, or nothing. */
  function SimilarText(s: Option<string>): (r: string)
    ensures r == "" <==> s.None?
  {
    match s
    case Some(k) => SimilarLead + k + Reset
    case None => ""
  }

  /** The suggestion line determines the suggestion: it can be read back by
      removing the fixed lead and the trailing reset. */
  lemma SimilarTextInjective(a: Option<string>, b: Option<string>)
    requires SimilarText(a) == SimilarText(b)
    ensures a == b
  {
    if a.Some? && b.Some? {
      var t := SimilarText(a);
      assert a.value == t[|SimilarLead|..|t| - |Reset|];
      assert b.value == t[|SimilarLead|..|t| - |Reset|];
    }
  }

  /** The texts around the catalog file name in the empty-value note. */
  const NoteLead: string := "\n\t\t\U{1B}[33mThis key does exist in "
  const NoteTail: string := " but there is no translation given.\n\t\tConsider adding a translation for this key.\U{1B}[0m"

  /** `emptyStrMsg`: the note shown when the catalog holds the key with an
      empty translation, naming the catalog file. */
  function EmptyNote(cat: Catalog, trans: string, translationFile: string): (r: string)
    ensures r != "" <==> trans in cat.values && cat.values[trans] == Str("")
  {
    if trans in cat.values && cat.values[trans] == Str("") then
      NoteLead + translationFile + NoteTail
    else ""
  }

  /** What follows each location in the list: a line feed and the overview's
      tab indentation, or the standalone copy's eight spaces. */
  function ItemSuffix(variant: Variant): (r: string)
  {
    match variant
    case Overview => "\n\t\t\t"
    case Standalone => "\n        "
  }

  /** `${loc.file}:${loc.lineStart}:${loc.columnStart}` and the suffix. */
  function Item(loc: Location, suffix: string): (r: string)
  {
    loc.file + ":" + NatToString(loc.lineStart) + ":" + NatToString(loc.columnStart) + suffix
  }

  /** The `reduce` over a key's locations, one item per location, in order. */
  function LocationList(locs: seq<Location>, suffix: string): (r: string)
    ensures |locs| == 0 <==> r == ""
    decreases |locs|
  {
    if |locs| == 0 then ""
    else LocationList(locs[..|locs| - 1], suffix) + Item(locs[|locs| - 1], suffix)
  }

  /** The list of a concatenation is the concatenation of the lists: every
      location contributes its own item, and items keep location order. */
  lemma {:induction false} LocationListConcat(a: seq<Location>, b: seq<Location>, suffix: string)
    ensures LocationList(a + b, suffix) == LocationList(a, suffix) + LocationList(b, suffix)
    decreases |b|
  {
    if |b| == 0 {
      assert a + b == a;
    } else {
      var init, last := b[..|b| - 1], b[|b| - 1];
      assert a + b == (a + init) + [last];
      assert b == init + [last];
      LocationListConcat(a, init, suffix);
      LocationListSnoc(a + init, last, suffix);
      LocationListSnoc(init, last, suffix);
      AppendAssoc(LocationList(a, suffix), LocationList(init, suffix), Item(last, suffix));
    }
  }

  /** One more location appends its item. */
  lemma LocationListSnoc(locs: seq<Location>, loc: Location, suffix: string)
    ensures LocationList(locs + [loc], suffix) == LocationList(locs, suffix) + Item(loc, suffix)
  {
    assert (locs + [loc])[..|locs|] == locs;
  }

  /** The text before the missing key in its message. */
  const Headline: string := "\n\t\U{1B}[31mMissing translation for:\U{1B}[0m\U{1B}[35m \""

  /** The text that closes every message. */
  const Closing: string := "\n\U{1B}[0m"

  /** The template `msg` of one missing key. */
  function Message(variant: Variant, trans: string, emptyNote: string, similar: string, locs: seq<Location>): (r: string)
  {
    Headline + trans + MessageBody(variant, emptyNote, similar, locs) + Closing
  }

  /** The part of the template between the key and the closing reset. */
  function MessageBody(variant: Variant, emptyNote: string, similar: string, locs: seq<Location>): (r: string)
  {
    KeyClose + emptyNote + similar + FoundIn + LocationList(locs, ItemSuffix(variant))
  }

  /** The closing quote of the key and the colour reset after it. */
  const KeyClose: string := "\"\U{1B}[0m "

  /** The heading of the location list. */
  const FoundIn: string := " \n\t\t\U{1B}[33mFound in: \n\t\t\t"

  /** The pieces of a four-part concatenation sit at their offsets. */
  lemma Pieces(w: string, x: string, y: string, z: string)
    ensures var s := w + x + y + z;
      && s[..|w|] == w
      && s[|w|..|w| + |x|] == x
      && s[|s| - |z|..] == z
  {
  }

  /** A message starts with the headline and the key, and ends with a line
      feed and the colour reset. */
  lemma MessageShape(variant: Variant, trans: string, emptyNote: string, similar: string, locs: seq<Location>)
    ensures var m := Message(variant, trans, emptyNote, similar, locs);
      && |m| >= |Headline| + |trans| + |Closing|
      && m[..|Headline|] == Headline
      && m[|Headline|..|Headline| + |trans|] == trans
      && m[|m| - |Closing|..] == Closing
  {
    Pieces(Headline, trans, MessageBody(variant, emptyNote, similar, locs), Closing);
  }

  /** The ids the locality-sensitive index of each copy returns for a query
      text (the index itself is a foreign library). */
  datatype Queries = Queries(minhash: string -> seq<Id>, shingles: string -> seq<int>)

  /** A yielded report entry. */
  datatype Entry = Entry(msg: string, translation: string, similarStrings: string)

  /** The suggestion for one missing key when suggestions are enabled: the
      overview copy queries with the key itself, the standalone copy with
      the padded key. */
  function Suggest(variant: Variant, keys: seq<string>, q: Queries, trans: string, d: int): (r: Result<Option<string>, Crash>)
    ensures variant == Overview ==> r.Success?
    ensures r.Success? && r.value.Some? ==>
              r.value.value in keys && r.value.value != trans && Lev(r.value.value, trans) <= d && d >= 1
    ensures variant == Overview ==> r.Success? && SelectedFrom(OverviewCandidates(keys, q.minhash(trans)), trans, d, r.value)
    ensures variant == Standalone ==> (r.Failure? <==> StandaloneCandidates(keys, q.shingles(Pad(trans))).Failure?)
    ensures variant == Standalone && r.Success? ==>
              SelectedFrom(StandaloneCandidates(keys, q.shingles(Pad(trans))).value, trans, d, r.value)
  {
    match variant
    case Overview => Success(OverviewSuggestion(keys, q.minhash(trans), trans, d))
    case Standalone => StandaloneSuggestion(keys, q.shingles(Pad(trans)), trans, d)
  }

  /** The run settings the report reads. */
  datatype LogSettings = LogSettings(
    variant: Variant,
    translationFile: string,
    findSimilarStrs: bool,
    similarDist: int)

  /** A suggestion line whose suggestion is a catalog key other than
      `trans` within distance `d`. */
  ghost predicate SoundSuggestion(text: string, cat: Catalog, trans: string, d: int)
  {
    exists s :: text == SimilarText(Some(s)) && s in cat.keys && s != trans && Lev(s, trans) <= d
  }

  /** An entry reports `trans` with the message built from its locations in
      `ix`, its empty-value note and its suggestion line, and shows either no
      suggestion or a sound one, and none at all when suggestions are off. */
  ghost predicate EntryFor(cfg: LogSettings, cat: Catalog, ix: Index, q: Queries, trans: string, e: Entry)
  {
    && e.translation == trans
    && trans in ix.locs
    && e.msg == Message(cfg.variant, trans, EmptyNote(cat, trans, cfg.translationFile), e.similarStrings, ix.locs[trans])
    && (e.similarStrings == "" || SoundSuggestion(e.similarStrings, cat, trans, cfg.similarDist))
    && (!cfg.findSimilarStrs ==> e.similarStrings == "")
    && (cfg.findSimilarStrs ==> ShowsSuggestion(cfg, cat, q, trans, e.similarStrings))
  }

  /** `text` is the suggestion line of the lookup for `trans`, which succeeds. */
  ghost predicate ShowsSuggestion(cfg: LogSettings, cat: Catalog, q: Queries, trans: string, text: string)
  {
    var s := Suggest(cfg.variant, cat.keys, q, trans, cfg.similarDist);
    s.Success? && text == SimilarText(s.value)
  }

  /** The suggestion lookup for `trans` runs and fails. */
  ghost predicate LookupFails(cfg: LogSettings, cat: Catalog, q: Queries, trans: string)
  {
    cfg.findSimilarStrs && Suggest(cfg.variant, cat.keys, q, trans, cfg.similarDist).Failure?
  }

  /** The entry of one missing key. */
  function Log(cfg: LogSettings, cat: Catalog, ix: Index, q: Queries, trans: string): (r: Result<Entry, Crash>)
    requires trans in ix.locs
    ensures r.Success? ==> EntryFor(cfg, cat, ix, q, trans, r.value)
    ensures r.Failure? <==> cfg.findSimilarStrs && Suggest(cfg.variant, cat.keys, q, trans, cfg.similarDist).Failure?
    ensures r.Success? && cfg.findSimilarStrs ==>
              r.value.similarStrings == SimilarText(Suggest(cfg.variant, cat.keys, q, trans, cfg.similarDist).value)
  {
    var suggestion :=
      if cfg.findSimilarStrs then Suggest(cfg.variant, cat.keys, q, trans, cfg.similarDist)
      else Success(None);
    match suggestion
    case Failure(e) => Failure(e)
    case Success(s) =>
      var similar := SimilarText(s);
      var note := EmptyNote(cat, trans, cfg.translationFile);
      Success(Entry(Message(cfg.variant, trans, note, similar, ix.locs[trans]), trans, similar))
  }

  /** The entries for the missing keys, in order; the standalone copy aborts
      on the first failing lookup. */
  function CreateLogs(cfg: LogSettings, cat: Catalog, ix: Index, q: Queries, missing: seq<string>): (r: Result<seq<Entry>, Crash>)
    requires forall i :: 0 <= i < |missing| ==> missing[i] in ix.locs
    ensures r.Success? ==> |r.value| == |missing| && forall i :: 0 <= i < |missing| ==> EntryFor(cfg, cat, ix, q, missing[i], r.value[i])
    ensures r.Failure? <==> exists i :: 0 <= i < |missing| && LookupFails(cfg, cat, q, missing[i])
    ensures r.Failure? ==> cfg.findSimilarStrs && cfg.variant == Standalone
    decreases |missing|
  {
    if |missing| == 0 then Success([])
    else
      match Log(cfg, cat, ix, q, missing[0])
      case Failure(e) => Failure(e)
      case Success(entry) =>
        match CreateLogs(cfg, cat, ix, q, missing[1..])
        case Failure(e) =>
          LookupFailsShift(cfg, cat, q, missing);
          Failure(e)
        case Success(rest) =>
          EntriesCons(cfg, cat, ix, q, missing, entry, rest);
          LookupFailsShift(cfg, cat, q, missing);
          Success([entry] + rest)
  }

  /** The entry of the first key followed by the entries of the others
      reports every key at its position. */
  lemma EntriesCons(cfg: LogSettings, cat: Catalog, ix: Index, q: Queries, missing: seq<string>, entry: Entry, rest: seq<Entry>)
    requires |missing| > 0 && |rest| == |missing| - 1
    requires EntryFor(cfg, cat, ix, q, missing[0], entry)
    requires forall i :: 0 <= i < |rest| ==> EntryFor(cfg, cat, ix, q, missing[1..][i], rest[i])
    ensures forall i :: 0 <= i < |missing| ==> EntryFor(cfg, cat, ix, q, missing[i], ([entry] + rest)[i])
  {
    var rel := (k: string, e: Entry) => EntryFor(cfg, cat, ix, q, k, e);
    PairwiseCons(rel, missing, entry, rest);
  }

  /** Some key's lookup fails exactly when the first key's or a later key's does. */
  lemma LookupFailsShift(cfg: LogSettings, cat: Catalog, q: Queries, missing: seq<string>)
    requires |missing| > 0
    ensures (exists i :: 0 <= i < |missing| && LookupFails(cfg, cat, q, missing[i]))
        <==> LookupFails(cfg, cat, q, missing[0])
             || exists i :: 0 <= i < |missing[1..]| && LookupFails(cfg, cat, q, missing[1..][i])
  {
    if i :| 0 <= i < |missing[1..]| && LookupFails(cfg, cat, q, missing[1..][i]) {
      assert missing[i + 1] == missing[1..][i];
    }
    if i :| 0 <= i < |missing| && LookupFails(cfg, cat, q, missing[i]) {
      if i > 0 {
        assert missing[1..][i - 1] == missing[i];
      }
    }
  }
}
