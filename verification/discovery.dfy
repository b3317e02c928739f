/** The file discoverer (`getAllFiles`), over an in-memory directory tree:
    each directory lists its entries in the order `readdirSync` returns
    them, and each file carries the text `readFile` would return. */
module Discovery {
  import opened Seqs
  import opened Text
  import opened Extraction

  /** A directory entry. */
  datatype Node =
    | File(name: string, text: string)
    | Directory(name: string, entries: seq<Node>)

  /** `path.join(dir, name)` for a name without separators. */
  function Join(dir: string, name: string): (r: string)
  {
    dir + "/" + name
  }

  /** `fileEndings.some(end => name.endsWith(`.${end}`))`. */
  predicate HasEnding(name: string, endings: seq<string>)
  {
    exists e :: e in endings && EndsWith(name, "." + e)
  }

  /** The body of `getAllFiles` for one directory: its entries in order,
      descending into every sub-directory, keeping the files with a
      configured ending. */
  function Walk(dir: string, entries: seq<Node>, endings: seq<string>): (r: seq<SourceFile>)
    decreases entries
  {
    if |entries| == 0 then []
    else
      var here := match entries[0]
        case File(name, text) =>
          if HasEnding(name, endings) then [SourceFile(Join(dir, name), text)] else []
        case Directory(name, children) => Walk(Join(dir, name), children, endings);
      here + Walk(dir, entries[1..], endings)
  }

  /** A file entry of the tree with its full path. */
  datatype Listed = Listed(path: string, name: string, text: string)

  /** Every non-directory entry below `dir`, depth first in entry order. */
  function AllFiles(dir: string, entries: seq<Node>): (r: seq<Listed>)
    decreases entries
  {
    if |entries| == 0 then []
    else
      var here := match entries[0]
        case File(name, text) => [Listed(Join(dir, name), name, text)]
        case Directory(name, children) => AllFiles(Join(dir, name), children);
      here + AllFiles(dir, entries[1..])
  }

  /** Keeps the files whose name carries a configured ending. */
  function EndingFilter(endings: seq<string>): (r: Listed -> bool)
  {
    (l: Listed) => HasEnding(l.name, endings)
  }

  /** A listed file as the pipeline reads it. */
  function Read(ls: seq<Listed>): (fs: seq<SourceFile>)
  {
    seq(|ls|, i requires 0 <= i < |ls| => SourceFile(ls[i].path, ls[i].text))
  }

  /** Reading keeps the files in order, so it distributes over concatenation. */
  lemma ReadConcat(a: seq<Listed>, b: seq<Listed>)
    ensures Read(a + b) == Read(a) + Read(b)
  {
    var r, s := Read(a + b), Read(a) + Read(b);
    forall i | 0 <= i < |r| ensures r[i] == s[i] {
      if i < |a| {
        assert (a + b)[i] == a[i];
      } else {
        assert (a + b)[i] == b[i - |a|];
      }
    }
  }

  /** The walk returns exactly the non-directory entries whose name ends with
      `.` and a configured ending, depth first, in entry order. */
  lemma {:induction false} WalkIsFilteredListing(dir: string, entries: seq<Node>, endings: seq<string>)
    ensures Walk(dir, entries, endings) == Read(Filter(AllFiles(dir, entries), EndingFilter(endings)))
    decreases entries
  {
    if |entries| > 0 {
      WalkIsFilteredListing(dir, entries[1..], endings);
      match entries[0]
      case File(name, text) =>
        WalkStep(dir, entries, endings, [Listed(Join(dir, name), name, text)]);
      case Directory(name, children) =>
        WalkIsFilteredListing(Join(dir, name), children, endings);
        WalkStep(dir, entries, endings, AllFiles(Join(dir, name), children));
    }
  }

  /** One step of the walk: the first entry's files, filtered and read,
      followed by the rest. */
  lemma WalkStep(dir: string, entries: seq<Node>, endings: seq<string>, here: seq<Listed>)
    requires |entries| > 0
    requires AllFiles(dir, entries) == here + AllFiles(dir, entries[1..])
    requires Walk(dir, entries, endings)
          == Read(Filter(here, EndingFilter(endings))) + Read(Filter(AllFiles(dir, entries[1..]), EndingFilter(endings)))
    ensures Walk(dir, entries, endings) == Read(Filter(AllFiles(dir, entries), EndingFilter(endings)))
  {
    var keep := EndingFilter(endings);
    var rest := AllFiles(dir, entries[1..]);
    FilterConcat(here, rest, keep);
    ReadConcat(Filter(here, keep), Filter(rest, keep));
  }

  /** The failure of a run: `readdirSync` on a root that is missing or not a directory. */
  datatype DiscoveryError = UnreadableRoot(path: string)

  /** Every root can be listed. */
  predicate Readable(folders: seq<string>, roots: map<string, seq<Node>>)
  {
    forall f :: f in folders ==> f in roots
  }

  /** The files below readable roots, root by root in order. */
  function RootsFiles(endings: seq<string>, folders: seq<string>, roots: map<string, seq<Node>>): (r: seq<SourceFile>)
    requires Readable(folders, roots)
    decreases |folders|
  {
    if |folders| == 0 then []
    else Walk(folders[0], roots[folders[0]], endings) + RootsFiles(endings, folders[1..], roots)
  }

  /** The root at which the loop over the roots throws: the first one that
      cannot be listed. */
  function FirstUnreadable(folders: seq<string>, roots: map<string, seq<Node>>): (i: nat)
    requires !Readable(folders, roots)
    ensures i < |folders| && folders[i] !in roots && Readable(folders[..i], roots)
    decreases |folders|
  {
    if folders[0] !in roots then 0
    else
      var i := FirstUnreadable(folders[1..], roots) + 1;
      assert forall f :: f in folders[..i] ==> f == folders[0] || f in folders[1..][..i - 1] by {
        assert folders[..i] == [folders[0]] + folders[1..][..i - 1];
      }
      i
  }

  /** `getAllFiles(fileEndings, folders)`: every root in order. `roots`
      maps each readable root to its listing; the first other root aborts
      the run. */
  function GetAllFiles(endings: seq<string>, folders: seq<string>, roots: map<string, seq<Node>>): (r: Result<seq<SourceFile>, DiscoveryError>)
    ensures r.Failure? <==> exists f :: f in folders && f !in roots
    ensures r.Failure? ==> exists i :: 0 <= i < |folders| && r.error.path == folders[i] && folders[i] !in roots && Readable(folders[..i], roots)
    ensures r.Success? ==> r.value == Listings(endings, folders, roots)
  {
    if Readable(folders, roots) then
      RootsFilesAreListings(endings, folders, roots);
      Success(RootsFiles(endings, folders, roots))
    else Failure(UnreadableRoot(folders[FirstUnreadable(folders, roots)]))
  }

  /** The reference listing of readable roots: the files of the roots before
      the last, then the last root's files ending in a configured ending,
      depth first, each read under its own path. */
  ghost function Listings(endings: seq<string>, folders: seq<string>, roots: map<string, seq<Node>>): (r: seq<SourceFile>)
    requires Readable(folders, roots)
    decreases |folders|
  {
    if |folders| == 0 then []
    else
      var last := folders[|folders| - 1];
      Listings(endings, folders[..|folders| - 1], roots)
        + Read(Filter(AllFiles(last, roots[last]), EndingFilter(endings)))
  }

  /** The root-by-root walk is the reference listing. */
  lemma {:induction false} RootsFilesAreListings(endings: seq<string>, folders: seq<string>, roots: map<string, seq<Node>>)
    requires Readable(folders, roots)
    ensures RootsFiles(endings, folders, roots) == Listings(endings, folders, roots)
    decreases |folders|
  {
    if |folders| > 0 {
      var init, last := folders[..|folders| - 1], folders[|folders| - 1];
      assert folders == init + [last];
      assert Readable(init, roots) && Readable([last], roots);
      RootsFilesAreListings(endings, init, roots);
      RootsFilesConcat(endings, init, [last], roots);
      assert [last][1..] == [];
      WalkIsFilteredListing(last, roots[last], endings);
    }
  }

  lemma {:induction false} RootsFilesConcat(endings: seq<string>, a: seq<string>, b: seq<string>, roots: map<string, seq<Node>>)
    requires Readable(a, roots) && Readable(b, roots)
    ensures Readable(a + b, roots)
    ensures RootsFiles(endings, a + b, roots) == RootsFiles(endings, a, roots) + RootsFiles(endings, b, roots)
    decreases |a|
  {
    if |a| == 0 {
      assert a + b == b;
    } else {
      assert (a + b)[1..] == a[1..] + b;
      RootsFilesConcat(endings, a[1..], b, roots);
    }
  }

  /** Roots are independent: listing two root lists one after the other is
      listing their concatenation, so overlapping roots yield duplicates. */
  lemma GetAllFilesConcat(endings: seq<string>, a: seq<string>, b: seq<string>, roots: map<string, seq<Node>>)
    requires GetAllFiles(endings, a, roots).Success? && GetAllFiles(endings, b, roots).Success?
    ensures GetAllFiles(endings, a + b, roots)
         == Success(GetAllFiles(endings, a, roots).value + GetAllFiles(endings, b, roots).value)
  {
    RootsFilesConcat(endings, a, b, roots);
  }
}
