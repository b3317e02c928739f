/** The `translations` object `findAllTranslations` builds: an
    insertion-ordered index from key to the locations of its occurrences. */
module Grouping {
  import opened Seqs
  import opened Locations
  import opened Extraction

  /** Keys in insertion order (what `Object.keys` lists) and the location
      list stored under each. */
  datatype Index = Index(keys: seq<string>, locs: map<string, seq<Location>>)

  /** The key list is duplicate-free and names exactly the stored keys. */
  ghost predicate WellFormed(ix: Index)
  {
    && Distinct(ix.keys)
    && (forall k :: k in ix.locs <==> k in ix.keys)
  }

  /** The offset of the first occurrence of key `k`, or `|occs|` when there is none. */
  ghost function FirstPos(occs: seq<Occurrence>, k: string): (p: nat)
    ensures p <= |occs|
    ensures p < |occs| ==> occs[p].key == k
    ensures forall i :: 0 <= i < p ==> occs[i].key != k
    decreases |occs|
  {
    if |occs| == 0 then 0
    else
      var p0 := FirstPos(occs[..|occs| - 1], k);
      if p0 < |occs| - 1 then p0
      else if occs[|occs| - 1].key == k then |occs| - 1
      else |occs|
  }

  /** The locations of the occurrences whose key is `k`, in occurrence order. */
  function LocationsOf(occs: seq<Occurrence>, k: string): (r: seq<Location>)
    decreases |occs|
  {
    if |occs| == 0 then []
    else
      var last := occs[|occs| - 1];
      LocationsOf(occs[..|occs| - 1], k) + (if last.key == k then [last.loc] else [])
  }

  /** The loop body: `translations[key].push(location)` when the key is
      present, `translations[key] = [location]` otherwise. */
  function Record(ix: Index, o: Occurrence): (r: Index)
  {
    if o.key in ix.locs then Index(ix.keys, ix.locs[o.key := ix.locs[o.key] + [o.loc]])
    else Index(ix.keys + [o.key], ix.locs[o.key := [o.loc]])
  }

  /** A key is stored exactly when it occurs. */
  ghost predicate KeysExact(ix: Index, occs: seq<Occurrence>)
  {
    forall k :: k in ix.locs <==> FirstPos(occs, k) < |occs|
  }

  /** Every stored location list is exactly the locations of that key's
      occurrences: nothing lost, duplicated or misfiled. */
  ghost predicate LocationsExact(ix: Index, occs: seq<Occurrence>)
  {
    forall k :: k in ix.locs ==> ix.locs[k] == LocationsOf(occs, k)
  }

  /** Keys are listed in the order of their first occurrence. */
  ghost predicate FirstSeenOrder(ix: Index, occs: seq<Occurrence>)
  {
    forall i, j :: 0 <= i < j < |ix.keys| ==> FirstPos(occs, ix.keys[i]) < FirstPos(occs, ix.keys[j])
  }

  /** `ix` is the index of `occs`. */
  ghost predicate Indexes(ix: Index, occs: seq<Occurrence>)
  {
    WellFormed(ix) && KeysExact(ix, occs) && LocationsExact(ix, occs) && FirstSeenOrder(ix, occs)
  }

  /** The occurrences folded into the index in order (`findAllTranslations`):
      keys in first-seen order, each with exactly its occurrences' locations. */
  function Group(occs: seq<Occurrence>): (ix: Index)
    ensures Indexes(ix, occs)
    decreases |occs|
  {
    if |occs| == 0 then Index([], map[])
    else
      var init := occs[..|occs| - 1];
      var o := occs[|occs| - 1];
      assert occs == init + [o];
      var ix0 := Group(init);
      RecordIndexes(ix0, init, o);
      Record(ix0, o)
  }

  /** Grouping one more occurrence records it into the index of the others. */
  lemma GroupSnoc(occs: seq<Occurrence>, o: Occurrence)
    ensures Group(occs + [o]) == Record(Group(occs), o)
  {
    assert (occs + [o])[..|occs|] == occs;
  }

  /** Recording one more occurrence keeps the index exact. */
  lemma RecordIndexes(ix: Index, occs: seq<Occurrence>, o: Occurrence)
    requires Indexes(ix, occs)
    ensures Indexes(Record(ix, o), occs + [o])
  {
    SnocFirstPos(occs, o);
    SnocLocations(occs, o);
    RecordWellFormed(ix, o);
    RecordKeysExact(ix, occs, o);
    RecordLocationsExact(ix, occs, o);
    RecordFirstSeenOrder(ix, occs, o);
  }

  /** How first positions change when one occurrence is appended. */
  lemma SnocFirstPos(occs: seq<Occurrence>, o: Occurrence)
    ensures forall k :: FirstPos(occs, k) < |occs| ==> FirstPos(occs + [o], k) == FirstPos(occs, k)
    ensures FirstPos(occs, o.key) == |occs| ==> FirstPos(occs + [o], o.key) == |occs|
    ensures forall k :: k != o.key && FirstPos(occs, k) == |occs| ==> FirstPos(occs + [o], k) == |occs| + 1
  {
    var all := occs + [o];
    assert all[..|all| - 1] == occs;
  }

  /** How location lists change when one occurrence is appended. */
  lemma SnocLocations(occs: seq<Occurrence>, o: Occurrence)
    ensures forall k :: LocationsOf(occs + [o], k) == LocationsOf(occs, k) + (if o.key == k then [o.loc] else [])
  {
    var all := occs + [o];
    assert all[..|all| - 1] == occs;
  }

  lemma RecordWellFormed(ix: Index, o: Occurrence)
    requires WellFormed(ix)
    ensures WellFormed(Record(ix, o))
  {
    var ix' := Record(ix, o);
    if o.key !in ix.locs {
      forall i, j | 0 <= i < j < |ix'.keys|
        ensures ix'.keys[i] != ix'.keys[j]
      {
        assert ix'.keys[i] == ix.keys[i];
        if j < |ix.keys| {
          assert ix'.keys[j] == ix.keys[j];
        }
      }
    }
  }

  lemma RecordKeysExact(ix: Index, occs: seq<Occurrence>, o: Occurrence)
    requires KeysExact(ix, occs)
    requires forall k :: FirstPos(occs, k) < |occs| ==> FirstPos(occs + [o], k) == FirstPos(occs, k)
    requires FirstPos(occs, o.key) == |occs| ==> FirstPos(occs + [o], o.key) == |occs|
    requires forall k :: k != o.key && FirstPos(occs, k) == |occs| ==> FirstPos(occs + [o], k) == |occs| + 1
    ensures KeysExact(Record(ix, o), occs + [o])
  {
  }

  lemma RecordLocationsExact(ix: Index, occs: seq<Occurrence>, o: Occurrence)
    requires KeysExact(ix, occs) && LocationsExact(ix, occs)
    requires forall k :: LocationsOf(occs + [o], k) == LocationsOf(occs, k) + (if o.key == k then [o.loc] else [])
    ensures LocationsExact(Record(ix, o), occs + [o])
  {
    if o.key !in ix.locs {
      LocationsOfAbsent(occs, o.key);
    }
  }

  lemma RecordFirstSeenOrder(ix: Index, occs: seq<Occurrence>, o: Occurrence)
    requires WellFormed(ix) && KeysExact(ix, occs) && FirstSeenOrder(ix, occs)
    requires forall k :: FirstPos(occs, k) < |occs| ==> FirstPos(occs + [o], k) == FirstPos(occs, k)
    requires FirstPos(occs, o.key) == |occs| ==> FirstPos(occs + [o], o.key) == |occs|
    ensures FirstSeenOrder(Record(ix, o), occs + [o])
  {
    var all := occs + [o];
    var ix' := Record(ix, o);
    forall i, j | 0 <= i < j < |ix'.keys|
      ensures FirstPos(all, ix'.keys[i]) < FirstPos(all, ix'.keys[j])
    {
      assert ix'.keys[i] == ix.keys[i];
      assert ix.keys[i] in ix.locs;
      if j < |ix.keys| {
        assert ix'.keys[j] == ix.keys[j];
        assert ix.keys[j] in ix.locs;
      }
    }
  }

  /** A key that never occurs has no locations. */
  lemma {:induction false} LocationsOfAbsent(occs: seq<Occurrence>, k: string)
    requires FirstPos(occs, k) == |occs|
    ensures LocationsOf(occs, k) == []
    decreases |occs|
  {
    if |occs| > 0 {
      LocationsOfAbsent(occs[..|occs| - 1], k);
    }
  }

  /** Stored location lists are never empty: a key is only created with its
      first location. */
  lemma GroupNonEmpty(occs: seq<Occurrence>, k: string)
    requires k in Group(occs).locs
    ensures |Group(occs).locs[k]| >= 1
  {
    LocationsOfFirst(occs, k, FirstPos(occs, k));
  }

  lemma {:induction false} LocationsOfFirst(occs: seq<Occurrence>, k: string, p: nat)
    requires p < |occs| && occs[p].key == k
    ensures |LocationsOf(occs, k)| >= 1
    decreases |occs|
  {
    if p < |occs| - 1 {
      LocationsOfFirst(occs[..|occs| - 1], k, p);
    }
  }

  /** Every location stored under `k` came from an occurrence of `k`. */
  lemma {:induction false} LocationsOfSound(occs: seq<Occurrence>, k: string, loc: Location)
    requires loc in LocationsOf(occs, k)
    ensures Occurrence(k, loc) in occs
    decreases |occs|
  {
    var init := occs[..|occs| - 1];
    if loc in LocationsOf(init, k) {
      LocationsOfSound(init, k, loc);
      assert Occurrence(k, loc) in init;
    } else {
      assert occs[|occs| - 1] == Occurrence(k, loc);
    }
  }

  /** Every occurrence of `k` contributes its location. */
  lemma {:induction false} LocationsOfComplete(occs: seq<Occurrence>, i: nat)
    requires i < |occs|
    ensures occs[i].loc in LocationsOf(occs, occs[i].key)
    decreases |occs|
  {
    if i < |occs| - 1 {
      LocationsOfComplete(occs[..|occs| - 1], i);
    }
  }
}
