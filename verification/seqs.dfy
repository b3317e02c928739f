/** Small generic vocabulary shared by every stage of the pipeline:
    optional values, results with an error, and order-preserving filtering. */
module Seqs {

  datatype Option<+T> = None | Some(value: T)

  /** A computation that either produces a value or aborts the whole run. */
  datatype Result<+T, +E> = Success(value: T) | Failure(error: E)

  /** `a` is obtained from `b` by deleting elements, so `a` keeps `b`'s order. */
  ghost predicate IsSubseq<T>(a: seq<T>, b: seq<T>)
    decreases |b|
  {
    if |a| == 0 then true
    else if |b| == 0 then false
    else if a[0] == b[0] then IsSubseq(a[1..], b[1..])
    else IsSubseq(a, b[1..])
  }

  /** No element occurs twice. */
  ghost predicate Distinct<T>(s: seq<T>)
  {
    forall i, j :: 0 <= i < j < |s| ==> s[i] != s[j]
  }

  /** `Array.prototype.filter`: the elements that satisfy `keep`, in their original order. */
  function Filter<T>(s: seq<T>, keep: T -> bool): (r: seq<T>)
    ensures forall i :: 0 <= i < |r| ==> r[i] in s && keep(r[i])
    ensures forall i :: 0 <= i < |s| && keep(s[i]) ==> s[i] in r
    ensures |r| <= |s|
    ensures IsSubseq(r, s)
  {
    if |s| == 0 then []
    else if keep(s[0]) then
      var rest := Filter(s[1..], keep);
      assert ([s[0]] + rest)[1..] == rest;
      [s[0]] + rest
    else
      var rest := Filter(s[1..], keep);
      assert |rest| > 0 ==> keep(rest[0]) && rest[0] != s[0];
      rest
  }

  /** Filtering distributes over concatenation. */
  lemma {:induction false} FilterConcat<T>(a: seq<T>, b: seq<T>, keep: T -> bool)
    ensures Filter(a + b, keep) == Filter(a, keep) + Filter(b, keep)
    decreases |a|
  {
    if |a| == 0 {
      assert a + b == b;
    } else {
      assert (a + b)[0] == a[0];
      assert (a + b)[1..] == a[1..] + b;
      FilterConcat(a[1..], b, keep);
    }
  }

  /** A filter that every element passes changes nothing. */
  lemma {:induction false} FilterKeepsAll<T>(s: seq<T>, keep: T -> bool)
    requires forall i :: 0 <= i < |s| ==> keep(s[i])
    ensures Filter(s, keep) == s
    decreases |s|
  {
    if |s| > 0 {
      FilterKeepsAll(s[1..], keep);
    }
  }

  /** Filtering a sequence without repetitions yields one without repetitions. */
  lemma {:induction false} FilterDistinct<T>(s: seq<T>, keep: T -> bool)
    requires Distinct(s)
    ensures Distinct(Filter(s, keep))
    decreases |s|
  {
    if |s| > 0 {
      FilterDistinct(s[1..], keep);
      var rest := Filter(s[1..], keep);
      if keep(s[0]) {
        assert s[0] !in s[1..] by {
          forall i | 0 <= i < |s[1..]| ensures s[1..][i] != s[0] {
            assert s[1..][i] == s[i + 1];
          }
        }
        assert s[0] !in rest;
        var r := [s[0]] + rest;
        forall i, j | 0 <= i < j < |r| ensures r[i] != r[j] {
          if i == 0 {
            assert r[j] == rest[j - 1];
          } else {
            assert r[i] == rest[i - 1] && r[j] == rest[j - 1];
          }
        }
      }
    }
  }

  /** A sequence whose head is `f` of the first element and whose tail is
      `f` of the rest, element by element, is `f` of every element. */
  lemma MapShift<A, B>(f: A --> B, xs: seq<A>, ys: seq<B>)
    requires |xs| == |ys| > 0
    requires forall i :: 0 <= i < |xs| ==> f.requires(xs[i])
    requires ys[0] == f(xs[0])
    requires forall i :: 0 <= i < |xs| - 1 ==> ys[1..][i] == f(xs[1..][i])
    ensures forall i :: 0 <= i < |xs| ==> ys[i] == f(xs[i])
  {
    forall i | 1 <= i < |xs| ensures ys[i] == f(xs[i]) {
      assert ys[1..][i - 1] == ys[i] && xs[1..][i - 1] == xs[i];
    }
  }

  /** Concatenation is associative. */
  lemma AppendAssoc<T>(a: seq<T>, b: seq<T>, c: seq<T>)
    ensures (a + b) + c == a + (b + c)
  {
  }

  /** Filtering an element followed by a sequence. */
  lemma FilterCons<T>(x: T, s: seq<T>, keep: T -> bool)
    ensures Filter([x] + s, keep) == if keep(x) then [x] + Filter(s, keep) else Filter(s, keep)
  {
    assert ([x] + s)[1..] == s;
  }

  /** A non-empty sequence is its prefix followed by its last element. */
  lemma InitLast<T>(s: seq<T>)
    requires |s| > 0
    ensures s == s[..|s| - 1] + [s[|s| - 1]]
  {
  }

  /** Prepending one related pair to position-wise related sequences keeps
      them related position by position. */
  lemma PairwiseCons<A, B>(rel: (A, B) -> bool, xs: seq<A>, y: B, ys: seq<B>)
    requires |xs| > 0 && |ys| == |xs| - 1
    requires rel(xs[0], y)
    requires forall i :: 0 <= i < |ys| ==> rel(xs[1..][i], ys[i])
    ensures forall i :: 0 <= i < |xs| ==> rel(xs[i], ([y] + ys)[i])
  {
    forall i | 1 <= i < |xs| ensures rel(xs[i], ([y] + ys)[i]) {
      assert xs[1..][i - 1] == xs[i] && ([y] + ys)[i] == ys[i - 1];
    }
  }
}
