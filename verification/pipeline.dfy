/** The whole run of either copy (`createTranslationsOverview` / `main`):
    settings with their defaults, discovery, extraction, grouping,
    reconciliation, the report and the baseline. */
module Pipeline {
  import opened Seqs
  import opened Patterns
  import opened Extraction
  import opened Grouping
  import opened Reconcile
  import opened Similarity
  import opened Report
  import opened Baseline
  import opened Discovery

  /** The caller's settings. A list or distance that is falsy in the source
      (`undefined`, `''`, `NaN`) is `None`; an empty list is truthy and
      stays. A falsy catalog path is `""`. */
  datatype Env = Env(
    fileEndings: Option<seq<string>>,
    folders: Option<seq<string>>,
    translationFunctions: Option<seq<string>>,
    hyphen: Option<seq<char>>,
    translationFile: string,
    findSimilarStrs: bool,
    similarDist: Option<int>,
    createIgnore: bool)

  /** The settings after `loadEnvData` applied its defaults. */
  datatype Settings = Settings(
    fileEndings: seq<string>,
    folders: seq<string>,
    translationFunctions: seq<string>,
    hyphen: seq<char>,
    translationFile: string,
    findSimilarStrs: bool,
    similarDist: int,
    createIgnore: bool)

  const DefaultFileEndings: seq<string> := ["js", "ts", "vue", "php"]
  const DefaultTranslationFunctions: seq<string> := ["$t", "$tc", "@lang", "__"]
  const DefaultHyphen: seq<char> := ['"', '\'', '`']
  const DefaultTranslationFile: string := "lang/en.json"

  function OrElse<T>(o: Option<T>, default: T): (r: T)
  {
    match o
    case Some(v) => v
    case None => default
  }

  /** `loadEnvData(env)`: every falsy setting replaced by its default. */
  function LoadEnvData(env: Env): (s: Settings)
    ensures s.translationFile != "" && s.similarDist != 0
    ensures env.fileEndings.None? ==> s.fileEndings == DefaultFileEndings
    ensures env.hyphen.None? ==> s.hyphen == DefaultHyphen
    ensures env.translationFunctions.None? ==> s.translationFunctions == DefaultTranslationFunctions
    ensures env.translationFile == "" ==> s.translationFile == DefaultTranslationFile
    ensures s.similarDist == EffectiveDistance(env.similarDist)
    ensures env.folders.None? ==> s.folders == []
    ensures env.folders.Some? ==> s.folders == env.folders.value
    ensures env.hyphen.Some? ==> s.hyphen == env.hyphen.value
    ensures env.translationFunctions.Some? ==> s.translationFunctions == env.translationFunctions.value
    ensures env.fileEndings.Some? ==> s.fileEndings == env.fileEndings.value
    ensures env.translationFile != "" ==> s.translationFile == env.translationFile
    ensures s.findSimilarStrs == env.findSimilarStrs && s.createIgnore == env.createIgnore
  {
    Settings(
      OrElse(env.fileEndings, DefaultFileEndings),
      OrElse(env.folders, []),
      OrElse(env.translationFunctions, DefaultTranslationFunctions),
      OrElse(env.hyphen, DefaultHyphen),
      if env.translationFile == "" then DefaultTranslationFile else env.translationFile,
      env.findSimilarStrs,
      EffectiveDistance(env.similarDist),
      env.createIgnore)
  }

  /** The settings written back as caller settings. */
  function AsEnv(s: Settings): (r: Env)
  {
    Env(Some(s.fileEndings), Some(s.folders), Some(s.translationFunctions), Some(s.hyphen),
        s.translationFile, s.findSimilarStrs, Some(s.similarDist), s.createIgnore)
  }

  /** Loaded settings are already complete: loading them again changes nothing. */
  lemma LoadEnvDataSettled(env: Env)
    ensures LoadEnvData(AsEnv(LoadEnvData(env))) == LoadEnvData(env)
  {
  }

  /** What the run derives from the occurrences and the catalog. */
  datatype Analysis = Analysis(index: Index, missing: seq<string>, unused: seq<string>)

  /** Grouping and reconciliation: the index of the occurrences, the keys
      that occur without a usable translation and the catalog keys that
      never occur. */
  function Analyse(occs: seq<Occurrence>, cat: Catalog): (a: Analysis)
    ensures Indexes(a.index, occs)
    ensures forall i :: 0 <= i < |a.missing| ==> a.missing[i] in a.index.locs
    ensures forall k :: k in a.missing <==> FirstPos(occs, k) < |occs| && Untranslated(cat, k)
    ensures forall k :: k in a.unused <==> k in cat.keys && FirstPos(occs, k) == |occs|
  {
    var ix := Group(occs);
    Analysis(ix, Missing(ix, cat), Unused(ix, cat))
  }

  /** Rerunning over the same occurrences with the baseline written for
      their missing keys leaves no key missing: every occurrence of a
      missing key is suppressed, and no other occurrence lacks a
      translation. */
  lemma RerunAfterBaseline(occs: seq<Occurrence>, cat: Catalog)
    ensures var a := Analyse(occs, cat);
      Analyse(Filter(occs, Unsuppressed(Some(BaselineMap(a.missing, a.index)))), cat).missing == []
  {
    var a := Analyse(occs, cat);
    var keep := Unsuppressed(Some(BaselineMap(a.missing, a.index)));
    var occs2 := Filter(occs, keep);
    var a2 := Analyse(occs2, cat);
    if |a2.missing| > 0 {
      var k := a2.missing[0];
      var p := FirstPos(occs2, k);
      var o := occs2[p];
      assert o in occs && keep(o);
      var q :| 0 <= q < |occs| && occs[q] == o;
      LocationsOfComplete(occs, q);
      assert FirstPos(occs, k) <= q;
      assert k in a.missing;
      BaselineSuppresses(a.missing, a.index, k, o.loc);
      assert false;
    }
  }

  /** The failures of a run: a root folder that cannot be listed, or the
      standalone copy's lookup of a key outside the catalog. */
  datatype RunError = Unreadable(e: DiscoveryError) | LookupCrash(c: Crash)

  /** The results of a run and the baseline written, if any. */
  datatype Outcome = Outcome(
    files: seq<SourceFile>,
    analysis: Analysis,
    logs: seq<Entry>,
    written: Option<map<string, bool>>)

  /** The occurrences of a run over the discovered files. */
  function RunOccurrences(variant: Variant, s: Settings, files: seq<SourceFile>, ignore: IgnoreFile): (r: seq<Occurrence>)
  {
    FindAll(variant, files, CreatePatterns(s.hyphen, s.translationFunctions, variant), ignore)
  }

  /** One run of a copy: `roots` lists the readable folders, `cat` is the
      parsed catalog, `ignore` the parsed ignore file and `q` the answers
      of the similarity index. For the standalone copy this is `main`,
      which writes the baseline itself. For the overview copy it is
      `createTranslationsOverview` followed by a caller's
      `createIgnoreFile(env, missingTranslations, translations)`: the
      module exports both but never makes that call itself. */
  function Run(variant: Variant, env: Env, roots: map<string, seq<Node>>, cat: Catalog, ignore: IgnoreFile, q: Queries): (r: Result<Outcome, RunError>)
    ensures r.Failure? && r.error.Unreadable? <==>
              exists f :: f in LoadEnvData(env).folders && f !in roots
    ensures r.Failure? && r.error.LookupCrash? ==> variant == Standalone && env.findSimilarStrs
    ensures r.Failure? && r.error.LookupCrash? <==>
              var s := LoadEnvData(env);
              var found := GetAllFiles(s.fileEndings, s.folders, roots);
              found.Success? && SomeLookupFails(variant, s, found.value, cat, ignore, q)
    ensures r.Success? ==>
              var o, s := r.value, LoadEnvData(env);
              && GetAllFiles(s.fileEndings, s.folders, roots) == Success(o.files)
              && o.analysis == Analyse(RunOccurrences(variant, s, o.files, ignore), cat)
              && o.written == CreateIgnoreFile(env.createIgnore, o.analysis.missing, o.analysis.index)
              && Indexes(o.analysis.index, RunOccurrences(variant, LoadEnvData(env), o.files, ignore))
              && |o.logs| == |o.analysis.missing|
              && (forall i :: 0 <= i < |o.logs| ==> EntryFor(ReportSettings(variant, s), cat, o.analysis.index, q, o.analysis.missing[i], o.logs[i]))
              && (o.written.Some? <==> env.createIgnore)
  {
    RunWith(variant, LoadEnvData(env), roots, cat, ignore, q)
  }

  /** A run with settings already loaded. */
  function RunWith(variant: Variant, s: Settings, roots: map<string, seq<Node>>, cat: Catalog, ignore: IgnoreFile, q: Queries): (r: Result<Outcome, RunError>)
    ensures r.Failure? && r.error.Unreadable? <==> exists f :: f in s.folders && f !in roots
    ensures r.Failure? && r.error.LookupCrash? ==> variant == Standalone && s.findSimilarStrs
    ensures r.Failure? && r.error.LookupCrash? <==>
              var found := GetAllFiles(s.fileEndings, s.folders, roots);
              found.Success? && SomeLookupFails(variant, s, found.value, cat, ignore, q)
    ensures r.Success? ==>
              var o := r.value;
              && GetAllFiles(s.fileEndings, s.folders, roots) == Success(o.files)
              && o.analysis == Analyse(RunOccurrences(variant, s, o.files, ignore), cat)
              && o.written == CreateIgnoreFile(s.createIgnore, o.analysis.missing, o.analysis.index)
              && |o.logs| == |o.analysis.missing|
              && (forall i :: 0 <= i < |o.logs| ==> EntryFor(ReportSettings(variant, s), cat, o.analysis.index, q, o.analysis.missing[i], o.logs[i]))
  {
    match GetAllFiles(s.fileEndings, s.folders, roots)
    case Failure(e) => Failure(Unreadable(e))
    case Success(files) =>
      match Conclude(variant, s, files, cat, ignore, q)
      case Failure(c) => Failure(LookupCrash(c))
      case Success(o) => Success(o)
  }

  /** The settings the report of a run reads. */
  function ReportSettings(variant: Variant, s: Settings): (cfg: LogSettings)
    ensures cfg.variant == variant && cfg.translationFile == s.translationFile
    ensures cfg.findSimilarStrs == s.findSimilarStrs && cfg.similarDist == s.similarDist
  {
    LogSettings(variant, s.translationFile, s.findSimilarStrs, s.similarDist)
  }

  /** The suggestion lookup of some missing key of the files fails. */
  ghost predicate SomeLookupFails(variant: Variant, s: Settings, files: seq<SourceFile>, cat: Catalog, ignore: IgnoreFile, q: Queries)
  {
    var a := Analyse(RunOccurrences(variant, s, files, ignore), cat);
    exists i :: 0 <= i < |a.missing| && LookupFails(ReportSettings(variant, s), cat, q, a.missing[i])
  }

  /** The part of a run after discovery: analysis, report and baseline. */
  function Conclude(variant: Variant, s: Settings, files: seq<SourceFile>, cat: Catalog, ignore: IgnoreFile, q: Queries): (r: Result<Outcome, Crash>)
    ensures r.Failure? <==> SomeLookupFails(variant, s, files, cat, ignore, q)
    ensures r.Failure? ==> variant == Standalone && s.findSimilarStrs
    ensures r.Success? ==>
              var o := r.value;
              && o.files == files
              && o.analysis == Analyse(RunOccurrences(variant, s, files, ignore), cat)
              && o.written == CreateIgnoreFile(s.createIgnore, o.analysis.missing, o.analysis.index)
              && |o.logs| == |o.analysis.missing|
              && (forall i :: 0 <= i < |o.logs| ==> EntryFor(ReportSettings(variant, s), cat, o.analysis.index, q, o.analysis.missing[i], o.logs[i]))
  {
    var a := Analyse(RunOccurrences(variant, s, files, ignore), cat);
    var cfg := ReportSettings(variant, s);
    match CreateLogs(cfg, cat, a.index, q, a.missing)
    case Failure(c) => Failure(c)
    case Success(logs) => Success(Outcome(files, a, logs, CreateIgnoreFile(s.createIgnore, a.missing, a.index)))
  }

  /** A first run without an ignore file that writes a baseline, followed by
      a run over the same tree and catalog that reads that baseline, reports
      no missing key. */
  lemma {:induction false} BaselineSilencesRerun(variant: Variant, env: Env, roots: map<string, seq<Node>>, cat: Catalog, q: Queries)
    requires env.createIgnore
    requires Run(variant, env, roots, cat, None, q).Success?
    ensures var first := Run(variant, env, roots, cat, None, q).value;
      && first.written.Some?
      && Run(variant, env, roots, cat, first.written, q).Success?
      && Run(variant, env, roots, cat, first.written, q).value.analysis.missing == []
  {
    var s := LoadEnvData(env);
    var first := Run(variant, env, roots, cat, None, q).value;
    var files := first.files;
    var pats := CreatePatterns(s.hyphen, s.translationFunctions, variant);
    var occs := FindAll(variant, files, pats, None);
    var a := Analyse(occs, cat);
    assert first.analysis == a;
    assert first.written == Some(BaselineMap(a.missing, a.index));
    FindAllSuppressed(variant, files, pats, first.written);
    RerunAfterBaseline(occs, cat);
    var a2 := Analyse(FindAll(variant, files, pats, first.written), cat);
    assert a2.missing == [];
    var cfg := LogSettings(variant, s.translationFile, s.findSimilarStrs, s.similarDist);
    assert CreateLogs(cfg, cat, a2.index, q, a2.missing) == Success([]);
  }
}
