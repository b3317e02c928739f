/** The baseline writer (`createIgnoreFile`): the ignore map that silences
    every current occurrence of every missing key. */
module Baseline {
  import opened Seqs
  import opened Locations
  import opened Extraction
  import opened Grouping

  /** `ignoreKey(locs)`: an entry `file:index -> true` per location. */
  function EntriesOf(locs: seq<Location>): (m: map<string, bool>)
    ensures forall key :: key in m ==> m[key]
    ensures forall key :: key in m <==> exists j :: 0 <= j < |locs| && key == IgnoreKey(locs[j].file, locs[j].index)
    decreases |locs|
  {
    if |locs| == 0 then map[]
    else
      var init := locs[..|locs| - 1];
      var m0 := EntriesOf(init);
      assert forall j :: 0 <= j < |init| ==> init[j] == locs[j];
      m0[IgnoreKey(locs[|locs| - 1].file, locs[|locs| - 1].index) := true]
  }

  /** The entries of the missing keys' locations are covered by `m`. */
  ghost predicate Covers(missing: seq<string>, ix: Index, key: string)
    requires forall i :: 0 <= i < |missing| ==> missing[i] in ix.locs
  {
    exists i :: 0 <= i < |missing| && key in EntriesOf(ix.locs[missing[i]])
  }

  /** `missingTranslations.reduce(...)`: the union of the entries of every
      location of every missing key, all mapped to `true`. */
  function BaselineMap(missing: seq<string>, ix: Index): (m: map<string, bool>)
    requires forall i :: 0 <= i < |missing| ==> missing[i] in ix.locs
    ensures forall key :: key in m ==> m[key]
    ensures forall key :: key in m <==> Covers(missing, ix, key)
    decreases |missing|
  {
    if |missing| == 0 then map[]
    else
      var init := missing[..|missing| - 1];
      CoversStep(missing, ix);
      BaselineMap(init, ix) + EntriesOf(ix.locs[missing[|missing| - 1]])
  }

  /** The entries covered by the missing keys are those covered by all but
      the last one and those of the last one. */
  lemma CoversStep(missing: seq<string>, ix: Index)
    requires |missing| > 0 && forall i :: 0 <= i < |missing| ==> missing[i] in ix.locs
    ensures var init := missing[..|missing| - 1];
      && (forall i :: 0 <= i < |init| ==> init[i] in ix.locs)
      && forall key :: Covers(missing, ix, key) <==>
           Covers(init, ix, key) || key in EntriesOf(ix.locs[missing[|missing| - 1]])
  {
    var init := missing[..|missing| - 1];
    assert forall i :: 0 <= i < |init| ==> init[i] == missing[i];
  }

  /** Every location of every missing key is suppressed by the baseline. */
  lemma BaselineSuppresses(missing: seq<string>, ix: Index, k: string, loc: Location)
    requires forall i :: 0 <= i < |missing| ==> missing[i] in ix.locs
    requires k in missing && loc in ix.locs[k]
    ensures Suppressed(Some(BaselineMap(missing, ix)), loc.file, loc.index)
  {
    var i :| 0 <= i < |missing| && missing[i] == k;
    var j :| 0 <= j < |ix.locs[k]| && ix.locs[k][j] == loc;
    assert IgnoreKey(loc.file, loc.index) in EntriesOf(ix.locs[missing[i]]);
  }

  /** Only those locations are suppressed: an entry of the baseline names a
      location of some missing key. */
  lemma BaselineOnlyMissing(missing: seq<string>, ix: Index, key: string)
    requires forall i :: 0 <= i < |missing| ==> missing[i] in ix.locs
    requires key in BaselineMap(missing, ix)
    ensures exists k, loc :: k in missing && loc in ix.locs[k] && key == IgnoreKey(loc.file, loc.index)
  {
    var i :| 0 <= i < |missing| && key in EntriesOf(ix.locs[missing[i]]);
    var locs := ix.locs[missing[i]];
    var j :| 0 <= j < |locs| && key == IgnoreKey(locs[j].file, locs[j].index);
    assert missing[i] in missing && locs[j] in ix.locs[missing[i]];
  }

  /** The exported `createIgnoreFile`: the map written when `createIgnore`
      is set, nothing otherwise. */
  function CreateIgnoreFile(createIgnore: bool, missing: seq<string>, ix: Index): (r: Option<map<string, bool>>)
    requires forall i :: 0 <= i < |missing| ==> missing[i] in ix.locs
    ensures r.Some? <==> createIgnore
    ensures r.Some? ==> r.value == BaselineMap(missing, ix)
    ensures r.Some? ==> forall key :: key in r.value ==> r.value[key] && Covers(missing, ix, key)
  {
    if createIgnore then Some(BaselineMap(missing, ix)) else None
  }
}
