/** The suggestion filter of `createLogs` / `main`: catalog keys proposed by
    a locality-sensitive index are resolved, filtered by a length window
    and a Levenshtein threshold, and the first survivor is suggested. */
module Similarity {
  import opened Seqs

  /** `shingleSize` of the standalone copy's index. */
  const ShingleSize: nat := 6

  function Min3(a: nat, b: nat, c: nat): (m: nat)
    ensures m <= a && m <= b && m <= c
    ensures m == a || m == b || m == c
  {
    if a <= b && a <= c then a else if b <= c then b else c
  }

  /** The edit distance with unit-cost insertion, deletion and substitution
      (what `levenshteinDistance` computes). */
  function Lev(a: string, b: string): (r: nat)
    decreases |a| + |b|
  {
    if |a| == 0 then |b|
    else if |b| == 0 then |a|
    else Min3(Lev(a[1..], b) + 1, Lev(a, b[1..]) + 1,
              Lev(a[1..], b[1..]) + (if a[0] == b[0] then 0 else 1))
  }

  /** A string is at distance 0 from itself. */
  lemma {:induction false} LevSelf(a: string)
    ensures Lev(a, a) == 0
    decreases |a|
  {
    if |a| > 0 {
      LevSelf(a[1..]);
    }
  }

  /** Distance 0 only between equal strings. */
  lemma {:induction false} LevZero(a: string, b: string)
    requires Lev(a, b) == 0
    ensures a == b
    decreases |a| + |b|
  {
    if |a| > 0 && |b| > 0 {
      LevZero(a[1..], b[1..]);
      assert a == [a[0]] + a[1..] && b == [b[0]] + b[1..];
    }
  }

  /** The distance is at least the difference of the lengths. */
  lemma {:induction false} LevLengthGap(a: string, b: string)
    ensures Lev(a, b) >= |a| - |b| && Lev(a, b) >= |b| - |a|
    decreases |a| + |b|
  {
    if |a| > 0 && |b| > 0 {
      LevLengthGap(a[1..], b);
      LevLengthGap(a, b[1..]);
      LevLengthGap(a[1..], b[1..]);
    }
  }

  /** A string other than `t` is within distance `d` of it only when `d >= 1`. */
  lemma DifferentNeedsDistance(s: string, t: string, d: int)
    requires s != t && Lev(s, t) <= d
    ensures d >= 1
  {
    if Lev(s, t) == 0 {
      LevZero(s, t);
    }
  }

  /** `similarDist || 1`, where the raw setting is absent when the input is
      missing or not a number (`parseInt` gave `NaN`). */
  function EffectiveDistance(raw: Option<int>): (d: int)
    ensures d != 0
    ensures raw.Some? && raw.value != 0 ==> d == raw.value
    ensures raw.None? || raw.value == 0 ==> d == 1
  {
    match raw
    case Some(v) => if v != 0 then v else 1
    case None => 1
  }

  /** `n` spaces. */
  function Spaces(n: nat): (r: string)
    ensures |r| == n && forall i :: 0 <= i < n ==> r[i] == ' '
  {
    seq(n, _ => ' ')
  }

  /** `s.padStart(Math.max(shingleSize - s.length + 5, 0), ' ')`. */
  function Pad(s: string): (r: string)
  {
    var target := ShingleSize + 5 - |s|;
    if target <= |s| then s else Spaces(target - |s|) + s
  }

  /** Padding only prepends spaces, leaves strings of at least
      `shingleSize` characters unchanged, and always yields at least
      `shingleSize` characters (5 + 1 for the shortest cases). */
  lemma PadShape(s: string)
    ensures |Pad(s)| >= |s| && |Pad(s)| >= ShingleSize
    ensures Pad(s)[|Pad(s)| - |s|..] == s
    ensures forall i :: 0 <= i < |Pad(s)| - |s| ==> Pad(s)[i] == ' '
    ensures |s| >= ShingleSize ==> Pad(s) == s
  {
    var r := Pad(s);
    if ShingleSize + 5 - |s| > |s| {
      assert r == Spaces(ShingleSize + 5 - 2 * |s|) + s;
      assert r[|r| - |s|..] == s;
    }
  }

  /** `!(k.length >= trans.length + similarDist && k.length <= trans.length - similarDist)`. */
  predicate LengthWindowKeeps(k: string, trans: string, d: int)
  {
    !(|k| >= |trans| + d && |k| <= |trans| - d)
  }

  /** For a positive distance the two bounds of the window cannot both hold,
      so the window keeps every candidate. */
  lemma WindowVacuous(cands: seq<string>, trans: string, d: int)
    requires d >= 1
    ensures Filter(cands, (k: string) => LengthWindowKeeps(k, trans, d)) == cands
  {
    FilterKeepsAll(cands, (k: string) => LengthWindowKeeps(k, trans, d));
  }

  /** A candidate that passes both the length window and the distance filter. */
  predicate Passes(k: string, trans: string, d: int)
  {
    LengthWindowKeeps(k, trans, d) && Lev(k, trans) <= d
  }

  /** The window filter followed by the distance filter: the candidates that
      pass both, in query order. */
  function Survivors(cands: seq<string>, trans: string, d: int): (r: seq<string>)
    ensures forall i :: 0 <= i < |r| ==> r[i] in cands && Lev(r[i], trans) <= d
    ensures forall i :: 0 <= i < |cands| && Lev(cands[i], trans) <= d && d >= 1 ==> cands[i] in r
    ensures IsSubseq(r, cands)
    ensures d < 0 ==> r == []
  {
    Filter(cands, (k: string) => Passes(k, trans, d))
  }

  /** `j` is the position of the first candidate that passes. */
  ghost predicate FirstPass(cands: seq<string>, trans: string, d: int, j: int)
  {
    && 0 <= j < |cands|
    && Passes(cands[j], trans, d)
    && forall i :: 0 <= i < j ==> !Passes(cands[i], trans, d)
  }

  /** The suggestion rule of both copies: `s` names a candidate exactly when
      the first passing candidate is not the missing key itself, and then it
      is that candidate. */
  ghost predicate SelectedFrom(cands: seq<string>, trans: string, d: int, s: Option<string>)
  {
    && (s.Some? <==> exists j :: FirstPass(cands, trans, d, j) && cands[j] != trans)
    && (s.Some? ==> exists j :: FirstPass(cands, trans, d, j) && s.value == cands[j])
  }

  /** The selection rule leaves no choice: at most one answer satisfies it. */
  lemma SelectedFromUnique(cands: seq<string>, trans: string, d: int, s1: Option<string>, s2: Option<string>)
    requires SelectedFrom(cands, trans, d, s1) && SelectedFrom(cands, trans, d, s2)
    ensures s1 == s2
  {
    if s1.Some? {
      var j1 :| FirstPass(cands, trans, d, j1) && s1.value == cands[j1];
      var j2 :| FirstPass(cands, trans, d, j2) && s2.value == cands[j2];
      assert j1 == j2;
    }
  }

  /** The head of the survivors is the first passing candidate. */
  lemma {:induction false} SurvivorsHead(cands: seq<string>, trans: string, d: int)
    requires |Survivors(cands, trans, d)| > 0
    ensures exists j :: FirstPass(cands, trans, d, j) && Survivors(cands, trans, d)[0] == cands[j]
  {
    if Passes(cands[0], trans, d) {
      assert FirstPass(cands, trans, d, 0);
    } else {
      assert Survivors(cands, trans, d) == Survivors(cands[1..], trans, d);
      SurvivorsHead(cands[1..], trans, d);
      var j :| FirstPass(cands[1..], trans, d, j) && Survivors(cands[1..], trans, d)[0] == cands[1..][j];
      assert FirstPass(cands, trans, d, j + 1);
    }
  }

  /** Taking the first survivor, unless it is `trans`, follows the selection rule. */
  lemma FirstSelects(cands: seq<string>, trans: string, d: int)
    ensures SelectedFrom(cands, trans, d, First(Survivors(cands, trans, d), trans))
  {
    var survivors := Survivors(cands, trans, d);
    if |survivors| > 0 {
      SurvivorsHead(cands, trans, d);
    }
  }

  /** `similar.length > 0 && similar[0] !== trans`: the first survivor,
      unless it is the missing key itself. */
  function First(survivors: seq<string>, trans: string): (r: Option<string>)
  {
    if |survivors| > 0 && survivors[0] != trans then Some(survivors[0]) else None
  }

  /** An id the overview copy's index returns: a catalog position, or a
      missing key inserted before the query. */
  datatype Id = Pos(n: int) | Label(s: string)

  /** `translationKeys[i]` when it is a present, truthy key. */
  function Resolve(keys: seq<string>, id: Id): (r: Option<string>)
  {
    match id
    case Pos(n) => if 0 <= n < |keys| && keys[n] != "" then Some(keys[n]) else None
    case Label(_) => None
  }

  /** `result.map(i => translationKeys[i]).filter(str => !!str)`. */
  function OverviewCandidates(keys: seq<string>, ids: seq<Id>): (r: seq<string>)
    ensures forall i :: 0 <= i < |r| ==> r[i] in keys && r[i] != ""
    ensures forall j :: 0 <= j < |ids| && ids[j].Pos? && 0 <= ids[j].n < |keys| && keys[ids[j].n] != ""
              ==> keys[ids[j].n] in r
    ensures |r| <= |ids|
    decreases |ids|
  {
    if |ids| == 0 then []
    else
      var rest := OverviewCandidates(keys, ids[1..]);
      match Resolve(keys, ids[0])
      case Some(k) => [k] + rest
      case None => rest
  }

  /** Every candidate is what some returned id resolves to. */
  lemma {:induction false} OverviewCandidatesOrigin(keys: seq<string>, ids: seq<Id>)
    ensures forall i :: 0 <= i < |OverviewCandidates(keys, ids)| ==>
              exists j :: 0 <= j < |ids| && Resolve(keys, ids[j]) == Some(OverviewCandidates(keys, ids)[i])
    decreases |ids|
  {
    if |ids| > 0 {
      var rest := OverviewCandidates(keys, ids[1..]);
      OverviewCandidatesOrigin(keys, ids[1..]);
      forall i | 0 <= i < |rest|
        ensures exists j :: 0 <= j < |ids| && Resolve(keys, ids[j]) == Some(rest[i])
      {
        var j :| 0 <= j < |ids[1..]| && Resolve(keys, ids[1..][j]) == Some(rest[i]);
        assert ids[1..][j] == ids[j + 1];
      }
      match Resolve(keys, ids[0])
      case Some(k) =>
        var r := [k] + rest;
        assert OverviewCandidates(keys, ids) == r;
        forall i | 0 <= i < |r|
          ensures exists j :: 0 <= j < |ids| && Resolve(keys, ids[j]) == Some(r[i])
        {
          if i > 0 {
            assert r[i] == rest[i - 1];
          } else {
            assert Resolve(keys, ids[0]) == Some(r[0]);
          }
        }
      case None =>
        assert OverviewCandidates(keys, ids) == rest;
    } else {
      assert OverviewCandidates(keys, ids) == [];
    }
  }

  /** Resolving distributes over concatenation of the index's answer. */
  lemma {:induction false} OverviewCandidatesConcat(keys: seq<string>, a: seq<Id>, b: seq<Id>)
    ensures OverviewCandidates(keys, a + b) == OverviewCandidates(keys, a) + OverviewCandidates(keys, b)
    decreases |a|
  {
    if |a| == 0 {
      assert a + b == b;
    } else {
      assert (a + b)[0] == a[0] && (a + b)[1..] == a[1..] + b;
      OverviewCandidatesConcat(keys, a[1..], b);
      match Resolve(keys, a[0])
      case Some(k) => AppendAssoc([k], OverviewCandidates(keys, a[1..]), OverviewCandidates(keys, b));
      case None =>
    }
  }

  /** A single id contributes its resolved key, or nothing. */
  lemma OverviewCandidatesOne(keys: seq<string>, id: Id)
    ensures OverviewCandidates(keys, [id]) == if Resolve(keys, id).Some? then [Resolve(keys, id).value] else []
  {
    assert [id][1..] == [];
  }

  /** The suggestion of the overview copy for missing key `trans`, given the
      ids its index returns: a non-empty catalog key other than `trans`
      within distance `d` of it. */
  function OverviewSuggestion(keys: seq<string>, ids: seq<Id>, trans: string, d: int): (r: Option<string>)
    ensures r.Some? ==> r.value in keys && r.value != "" && r.value != trans && Lev(r.value, trans) <= d
    ensures r.Some? ==> d >= 1
    ensures SelectedFrom(OverviewCandidates(keys, ids), trans, d, r)
  {
    var cands := OverviewCandidates(keys, ids);
    var r := First(Survivors(cands, trans, d), trans);
    FirstSelects(cands, trans, d);
    if r.Some? then DifferentNeedsDistance(r.value, trans, d); r else r
  }

  /** The standalone copy reads `k.length` of every looked-up key, which
      throws when an id is not a catalog position. */
  datatype Crash = UndefinedKey(id: int)

  /** `result.map(i => jsonArr[i])`, failing on the first id outside the catalog. */
  function StandaloneCandidates(keys: seq<string>, ids: seq<int>): (r: Result<seq<string>, Crash>)
    ensures r.Failure? <==> exists j :: 0 <= j < |ids| && !(0 <= ids[j] < |keys|)
    ensures r.Success? ==> |r.value| == |ids| && forall j :: 0 <= j < |ids| ==> r.value[j] == keys[ids[j]]
    decreases |ids|
  {
    if |ids| == 0 then Success([])
    else if !(0 <= ids[0] < |keys|) then Failure(UndefinedKey(ids[0]))
    else
      match StandaloneCandidates(keys, ids[1..])
      case Failure(e) => Failure(e)
      case Success(rest) => Success([keys[ids[0]]] + rest)
  }

  /** The suggestion of the standalone copy: a catalog key other than
      `trans` within distance `d`, or a crash on an id outside the catalog. */
  function StandaloneSuggestion(keys: seq<string>, ids: seq<int>, trans: string, d: int): (r: Result<Option<string>, Crash>)
    ensures r.Failure? <==> exists j :: 0 <= j < |ids| && !(0 <= ids[j] < |keys|)
    ensures r.Success? && r.value.Some? ==>
              r.value.value in keys && r.value.value != trans && Lev(r.value.value, trans) <= d && d >= 1
    ensures r.Success? ==> SelectedFrom(StandaloneCandidates(keys, ids).value, trans, d, r.value)
  {
    match StandaloneCandidates(keys, ids)
    case Failure(e) => Failure(e)
    case Success(cands) =>
      var s := First(Survivors(cands, trans, d), trans);
      FirstSelects(cands, trans, d);
      if s.Some? then DifferentNeedsDistance(s.value, trans, d); Success(s) else Success(s)
  }

  /** One edit separates `"y"` and `"b"`, `"x"` and `"b"`. */
  lemma LevOneLetter(c: char)
    requires c != 'b'
    ensures Lev([c], "b") == 1
  {
    assert [c][1..] == [] && "b"[1..] == [];
  }

  /** `"xy"` is two edits from `"ab"`. */
  lemma LevXY()
    ensures Lev("xy", "ab") == 2
  {
    var xy, y, ab, b := "xy", "y", "ab", "b";
    assert xy[1..] == y && ab[1..] == b && y[1..] == [];
    LevOneLetter('y');
    assert Lev(y, ab) == 2;
    assert Lev(xy, b) == 2;
  }

  /** `"ax"` is one edit from `"ab"`. */
  lemma LevAX()
    ensures Lev("ax", "ab") == 1
  {
    var ax, x, ab, b := "ax", "x", "ab", "b";
    assert ax[1..] == x && ab[1..] == b && x[1..] == [];
    LevOneLetter('x');
    assert Lev(ax, ab) <= 1;
    LevZeroOnly(ax, ab);
  }

  /** Different strings are at least one edit apart. */
  lemma LevZeroOnly(a: string, b: string)
    requires a != b
    ensures Lev(a, b) >= 1
  {
    if Lev(a, b) == 0 {
      LevZero(a, b);
    }
  }

  /** The suggestion is the first survivor, not the closest one: `"xy"` is
      suggested for `"ab"` although `"ax"` is nearer. */
  lemma FirstNotClosest()
    ensures OverviewSuggestion(["xy", "ax"], [Pos(0), Pos(1)], "ab", 2) == Some("xy")
    ensures Lev("ax", "ab") < Lev("xy", "ab")
  {
    var keys, ids := ["xy", "ax"], [Pos(0), Pos(1)];
    LevXY();
    LevAX();
    TwoCandidates(keys);
    assert FirstPass(keys, "ab", 2, 0);
    SelectedFromUnique(keys, "ab", 2, OverviewSuggestion(keys, ids, "ab", 2), Some("xy"));
  }

  /** Two ids naming two non-empty keys in order resolve to those keys. */
  lemma TwoCandidates(keys: seq<string>)
    requires |keys| == 2 && keys[0] != "" && keys[1] != ""
    ensures OverviewCandidates(keys, [Pos(0), Pos(1)]) == keys
  {
    OverviewCandidatesOne(keys, Pos(0));
    OverviewCandidatesOne(keys, Pos(1));
    OverviewCandidatesConcat(keys, [Pos(0)], [Pos(1)]);
    assert [Pos(0)] + [Pos(1)] == [Pos(0), Pos(1)];
  }

  /** A first survivor equal to the missing key hides every later survivor. */
  lemma OmittedWhenFirstIsSelf()
    ensures OverviewSuggestion(["ab", "abc"], [Pos(0), Pos(1)], "ab", 1) == None
    ensures "abc" in Survivors(OverviewCandidates(["ab", "abc"], [Pos(0), Pos(1)]), "ab", 1)
  {
    var keys, ids := ["ab", "abc"], [Pos(0), Pos(1)];
    LevSelf("ab");
    LevABC();
    TwoCandidates(keys);
    assert FirstPass(keys, "ab", 1, 0);
    SelectedFromUnique(keys, "ab", 1, OverviewSuggestion(keys, ids, "ab", 1), None);
  }

  /** `"abc"` is one deletion from `"ab"`. */
  lemma LevABC()
    ensures Lev("abc", "ab") == 1
  {
    var abc, bc, c, ab, b := "abc", "bc", "c", "ab", "b";
    assert abc[1..] == bc && bc[1..] == c && ab[1..] == b && b[1..] == [];
    assert Lev(bc, b) <= 1;
    LevLengthGap(abc, ab);
  }
}
