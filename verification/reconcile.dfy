/** The reconciler: the Missing and Unused key lists computed from the
    occurrence index and the translation catalog. */
module Reconcile {
  import opened Seqs
  import opened Extraction
  import opened Grouping

  /** A catalog value as `JSON.parse` yields it: a string, or anything else
      (number, object, array, boolean, null). */
  datatype Value = Str(s: string) | NonString

  /** The parsed translation file: its keys in `Object.keys` order and the
      value under each. */
  datatype Catalog = Catalog(keys: seq<string>, values: map<string, Value>)

  /** The key list is duplicate-free and names exactly the stored keys. */
  ghost predicate ValidCatalog(cat: Catalog)
  {
    && Distinct(cat.keys)
    && (forall k :: k in cat.values <==> k in cat.keys)
  }

  /** `translationJSON[key] === undefined || translationJSON[key] === ''`. */
  predicate Untranslated(cat: Catalog, k: string)
  {
    k !in cat.values || cat.values[k] == Str("")
  }

  /** `uniqueTranslations.filter(...)`: the referenced keys that have no
      usable translation, in first-seen order. */
  function Missing(ix: Index, cat: Catalog): (r: seq<string>)
    ensures forall k :: k in r <==> k in ix.keys && Untranslated(cat, k)
    ensures IsSubseq(r, ix.keys)
  {
    Filter(ix.keys, (k: string) => Untranslated(cat, k))
  }

  /** `translationKeys.filter(key => translations[key] === undefined)`: the
      catalog keys that are never referenced, in catalog order. */
  function Unused(ix: Index, cat: Catalog): (r: seq<string>)
    ensures forall k :: k in r <==> k in cat.keys && k !in ix.locs
    ensures IsSubseq(r, cat.keys)
  {
    Filter(cat.keys, (k: string) => k !in ix.locs)
  }

  /** A referenced key is never unused, so no key is both missing and unused. */
  lemma MissingUnusedDisjoint(ix: Index, cat: Catalog, k: string)
    requires WellFormed(ix)
    ensures !(k in Missing(ix, cat) && k in Unused(ix, cat))
  {
  }

  /** Both lists are duplicate-free when their sources are. */
  lemma MissingUnusedDistinct(ix: Index, cat: Catalog)
    requires WellFormed(ix) && ValidCatalog(cat)
    ensures Distinct(Missing(ix, cat)) && Distinct(Unused(ix, cat))
  {
    FilterDistinct(ix.keys, (k: string) => Untranslated(cat, k));
    FilterDistinct(cat.keys, (k: string) => k !in ix.locs);
  }

  /** Every referenced key is accounted for: it is missing, or the catalog
      holds a non-empty string or a non-string value for it. */
  lemma ReferencedKeysPartition(ix: Index, cat: Catalog, k: string)
    requires k in ix.keys
    ensures k in Missing(ix, cat) <==> !(k in cat.values && cat.values[k] != Str(""))
  {
  }

  /** Every catalog key is either referenced or unused; with the index of a
      run, referenced means some occurrence carries that key. */
  lemma CatalogKeysPartition(occs: seq<Occurrence>, cat: Catalog, k: string)
    requires k in cat.keys
    ensures k in Unused(Group(occs), cat) <==> FirstPos(occs, k) == |occs|
  {
  }
}
