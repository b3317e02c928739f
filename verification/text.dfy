/** Text vocabulary: the JavaScript `\s` class, `split('\n')`, decimal
    rendering of offsets and suffix tests. A string is a sequence of UTF-16
    code units, one `char` each, as JavaScript counts them. */
module Text {
  import opened Seqs

  /** JavaScript's `\s`: the white-space and line-terminator code units. */
  predicate IsSpace(c: char)
  {
    || c == '\t' || c == '\n' || c == '\U{B}' || c == '\U{C}' || c == '\r' || c == ' '
    || c == '\U{A0}' || c == '\U{1680}' || ('\U{2000}' <= c <= '\U{200A}')
    || c == '\U{2028}' || c == '\U{2029}' || c == '\U{202F}' || c == '\U{205F}'
    || c == '\U{3000}' || c == '\U{FEFF}'
  }

  /** `s.split('\n')`: the pieces of `s` between line feeds (never empty). */
  function SplitLines(s: string): (r: seq<string>)
    ensures |r| >= 1
    decreases |s|
  {
    if |s| == 0 then [""]
    else
      var init := SplitLines(s[..|s| - 1]);
      if s[|s| - 1] == '\n' then init + [""]
      else init[..|init| - 1] + [init[|init| - 1] + [s[|s| - 1]]]
  }

  /** The pieces joined back with line feeds (`parts.join('\n')`). */
  function JoinLines(parts: seq<string>): (r: string)
    requires |parts| >= 1
    decreases |parts|
  {
    if |parts| == 1 then parts[0]
    else JoinLines(parts[..|parts| - 1]) + "\n" + parts[|parts| - 1]
  }

  /** Splitting loses nothing: joining the pieces gives the text back,
      and no piece contains a line feed. */
  lemma SplitJoin(s: string)
    ensures JoinLines(SplitLines(s)) == s
    ensures forall i :: 0 <= i < |SplitLines(s)| ==> '\n' !in SplitLines(s)[i]
  {
    SplitJoinRound(s);
    SplitLinesNoBreak(s);
  }

  lemma {:induction false} SplitJoinRound(s: string)
    ensures JoinLines(SplitLines(s)) == s
    decreases |s|
  {
    if |s| > 0 {
      var init, c := s[..|s| - 1], s[|s| - 1];
      SplitJoinRound(init);
      SplitJoinSnoc(init, c);
      InitLast(s);
    }
  }

  /** How one more code unit changes the pieces: a line feed starts an
      empty piece, anything else extends the last one. */
  lemma SplitLinesSnoc(t: string, c: char)
    ensures var parts, r := SplitLines(t), SplitLines(t + [c]);
      if c == '\n' then r == parts + [""]
      else r == parts[..|parts| - 1] + [parts[|parts| - 1] + [c]]
  {
    assert (t + [c])[..|t|] == t;
  }

  /** The round trip survives one more code unit. */
  lemma SplitJoinSnoc(t: string, c: char)
    requires JoinLines(SplitLines(t)) == t
    ensures JoinLines(SplitLines(t + [c])) == t + [c]
  {
    var parts, r := SplitLines(t), SplitLines(t + [c]);
    SplitLinesSnoc(t, c);
    if c == '\n' {
      assert r[..|r| - 1] == parts;
      assert JoinLines(r) == t + "\n" + "";
    } else {
      var n := |parts|;
      if n == 1 {
        assert JoinLines(r) == parts[0] + [c];
      } else {
        var pre := JoinLines(parts[..n - 1]) + "\n";
        assert r[..|r| - 1] == parts[..n - 1];
        assert JoinLines(parts) == pre + parts[n - 1];
        assert JoinLines(r) == pre + (parts[n - 1] + [c]);
        AppendAssoc(pre, parts[n - 1], [c]);
      }
    }
  }

  lemma {:induction false} SplitLinesNoBreak(s: string)
    ensures forall i :: 0 <= i < |SplitLines(s)| ==> '\n' !in SplitLines(s)[i]
    decreases |s|
  {
    if |s| > 0 {
      var init, c := s[..|s| - 1], s[|s| - 1];
      var parts, r := SplitLines(init), SplitLines(s);
      SplitLinesNoBreak(init);
      if c != '\n' {
        var n := |parts|;
        assert r == parts[..n - 1] + [parts[n - 1] + [c]];
        forall i | 0 <= i < |r| ensures '\n' !in r[i] {
          if i < n - 1 {
            assert r[i] == parts[i];
          } else {
            assert r[i] == parts[n - 1] + [c];
          }
        }
      } else {
        assert r == parts + [""];
        forall i | 0 <= i < |r| ensures '\n' !in r[i] {
          if i < |parts| {
            assert r[i] == parts[i];
          }
        }
      }
    }
  }

  /** `s.split('\n').length` is one more than the number of line feeds in `s`. */
  lemma {:induction false} SplitLinesCount(s: string)
    ensures |SplitLines(s)| == 1 + multiset(s)['\n']
    decreases |s|
  {
    if |s| > 0 {
      SplitLinesCount(s[..|s| - 1]);
      assert s == s[..|s| - 1] + [s[|s| - 1]];
      assert multiset(s) == multiset(s[..|s| - 1]) + multiset{s[|s| - 1]};
    }
  }

  /** `tail` is the text after the last line feed of `s` (all of `s` when
      it has none). */
  predicate IsLastLine(s: string, tail: string)
  {
    && |tail| <= |s|
    && tail == s[|s| - |tail|..]
    && '\n' !in tail
    && (|tail| == |s| || s[|s| - |tail| - 1] == '\n')
  }

  /** `s.split('\n').pop()` is the text after the last line feed of `s`. */
  lemma {:induction false} LastLine(s: string)
    ensures IsLastLine(s, SplitLines(s)[|SplitLines(s)| - 1])
    decreases |s|
  {
    if |s| > 0 {
      var init := s[..|s| - 1];
      LastLine(init);
      var parts := SplitLines(init);
      if s[|s| - 1] == '\n' {
        assert SplitLines(s)[|SplitLines(s)| - 1] == "";
      } else {
        assert SplitLines(s)[|SplitLines(s)| - 1] == parts[|parts| - 1] + [s[|s| - 1]];
        LastLineExtend(s, parts[|parts| - 1]);
      }
    }
  }

  /** A code unit other than a line feed extends the last line. */
  lemma LastLineExtend(s: string, t0: string)
    requires |s| > 0 && s[|s| - 1] != '\n'
    requires IsLastLine(s[..|s| - 1], t0)
    ensures IsLastLine(s, t0 + [s[|s| - 1]])
  {
    var n, k, c := |s|, |t0|, s[|s| - 1];
    var init, t := s[..n - 1], t0 + [c];
    assert t == s[n - 1 - k..] by {
      assert t0 == init[n - 1 - k..] == s[n - 1 - k..n - 1];
      assert s[n - 1 - k..] == s[n - 1 - k..n - 1] + [c];
    }
    assert '\n' !in t by {
      assert forall x :: x in t ==> x in t0 || x == c;
    }
    if k + 1 < n {
      assert s[n - k - 2] == init[n - k - 2];
    }
  }

  /** The decimal digit for `d`. */
  function DigitChar(d: nat): (c: char)
    requires d < 10
    ensures '0' <= c <= '9'
    ensures c as int - '0' as int == d
  {
    (d + '0' as int) as char
  }

  /** Every code unit is an ASCII decimal digit. */
  predicate AllDigits(s: string)
  {
    forall i :: 0 <= i < |s| ==> '0' <= s[i] <= '9'
  }

  /** `String(n)` for a non-negative integer: its decimal rendering. */
  function NatToString(n: nat): (r: string)
    ensures |r| >= 1
    ensures AllDigits(r)
    decreases n
  {
    if n < 10 then [DigitChar(n)] else NatToString(n / 10) + [DigitChar(n % 10)]
  }

  /** The value of a string of decimal digits (`parseInt(s, 10)`). */
  function ParseNat(s: string): (r: nat)
    requires AllDigits(s)
    decreases |s|
  {
    if |s| == 0 then 0
    else ParseNat(s[..|s| - 1]) * 10 + (s[|s| - 1] as int - '0' as int)
  }

  /** Rendering a number and reading it back gives the number: the decimal
      rendering is injective. */
  lemma {:induction false} ParseNatToString(n: nat)
    ensures ParseNat(NatToString(n)) == n
    decreases n
  {
    if n >= 10 {
      ParseNatToString(n / 10);
      var r := NatToString(n);
      assert r[..|r| - 1] == NatToString(n / 10);
    }
  }

  /** `s.endsWith(suffix)`. */
  predicate EndsWith(s: string, suffix: string)
  {
    |suffix| <= |s| && s[|s| - |suffix|..] == suffix
  }
}
