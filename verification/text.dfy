/**
 * String rewriting used by the message builder: PHP's `str_replace` for one
 * search string, and the line-ending normalisation of `addText`.
 */
module Text {

  const CR: char := '\r'
  const LF: char := '\n'

  /**
   * `str_replace(pat, rep, s)`: every occurrence of `pat`, found left to right
   * without overlap, replaced by `rep`.
   */
  function ReplaceAll(s: string, pat: string, rep: string): string
    requires |pat| > 0
    decreases |s|
  {
    if |s| < |pat| then s
    else if s[..|pat|] == pat then rep + ReplaceAll(s[|pat|..], pat, rep)
    else [s[0]] + ReplaceAll(s[1..], pat, rep)
  }

  /**
   * The rewrite `addText` applies to its text: every LF becomes CR LF, then
   * every doubled CR (left to right, without overlap) becomes one CR.
   */
  function NormalizeNewlines(text: string): string {
    ReplaceAll(ReplaceAll(text, "\n", "\r\n"), "\r\r", "\r")
  }

  /** Every LF after the first character is immediately preceded by a CR. */
  predicate InnerLfAfterCr(s: string) {
    forall i :: 0 < i < |s| && s[i] == LF ==> s[i - 1] == CR
  }

  /** Every LF is immediately preceded by a CR (so none comes first). */
  predicate LfAfterCr(s: string) {
    InnerLfAfterCr(s) && (|s| > 0 ==> s[0] != LF)
  }

  /** Regrouping a concatenation of three strings. */
  lemma ConcatAssoc(a: string, b: string, c: string)
    ensures a + b + c == a + (b + c)
  {
  }

  /** A string without the first character of `pat` is left as it is. */
  lemma {:induction false} ReplaceAllNoMatch(s: string, pat: string, rep: string)
    requires |pat| > 0 && pat[0] !in s
    ensures ReplaceAll(s, pat, rep) == s
    decreases |s|
  {
    if |s| >= |pat| {
      assert s[0] != pat[0];
      assert s[..|pat|] != pat;
      ReplaceAllNoMatch(s[1..], pat, rep);
      assert [s[0]] + s[1..] == s;
    }
  }

  /**
   * When the first character of `pat` occurs in `pat` only there, no
   * occurrence can straddle a cut made just before that character, so the
   * two sides are rewritten independently.
   */
  lemma {:induction false} ReplaceAllSplit(x: string, y: string, pat: string, rep: string)
    requires |pat| > 0 && pat[0] !in pat[1..]
    requires y == [] || y[0] == pat[0]
    ensures ReplaceAll(x + y, pat, rep) == ReplaceAll(x, pat, rep) + ReplaceAll(y, pat, rep)
    decreases |x|
  {
    var s := x + y;
    var n := |pat|;
    if x == [] {
      assert s == y;
    } else if |s| < n {
      assert ReplaceAll(x, pat, rep) == x && ReplaceAll(y, pat, rep) == y;
    } else if s[..n] == pat {
      NoStraddle(x, y, pat);
      ReplaceAllSplit(x[n..], y, pat, rep);
      ConcatAssoc(rep, ReplaceAll(x[n..], pat, rep), ReplaceAll(y, pat, rep));
    } else {
      SplitAfterHead(x, y, pat);
      ReplaceAllSplit(x[1..], y, pat, rep);
      ConcatAssoc([x[0]], ReplaceAll(x[1..], pat, rep), ReplaceAll(y, pat, rep));
      if |x| < n {
        assert ReplaceAll(x[1..], pat, rep) == x[1..];
        assert [x[0]] + x[1..] == x;
      }
    }
  }

  /** An occurrence of `pat` at the start of `x + y` lies inside `x`. */
  lemma NoStraddle(x: string, y: string, pat: string)
    requires |pat| > 0 && pat[0] !in pat[1..]
    requires y == [] || y[0] == pat[0]
    requires x != [] && |x + y| >= |pat| && (x + y)[..|pat|] == pat
    ensures |x| >= |pat| && x[..|pat|] == pat && (x + y)[|pat|..] == x[|pat|..] + y
  {
    if |x| < |pat| {
      HeadOnlyAtHead(pat, |x|);
      assert false;
    }
  }

  /** Without an occurrence of `pat` at the start of `x + y`, the rest of `x` leads the rest. */
  lemma SplitAfterHead(x: string, y: string, pat: string)
    requires |pat| > 0 && x != [] && |x + y| >= |pat| && (x + y)[..|pat|] != pat
    ensures (x + y)[0] == x[0] && (x + y)[1..] == x[1..] + y
    ensures |x| >= |pat| ==> x[..|pat|] != pat
  {
    if |x| >= |pat| {
      assert x[..|pat|] == (x + y)[..|pat|];
    }
  }

  /** A pattern whose first character does not recur has it only at its head. */
  lemma HeadOnlyAtHead(pat: string, i: nat)
    requires 0 < i < |pat| && pat[0] !in pat[1..]
    ensures pat[i] != pat[0]
  {
    assert pat[i] == pat[1..][i - 1];
  }

  /**
   * A string that starts with the first character of `pat`, does not start
   * with `pat` and holds that character nowhere else is left as it is.
   */
  lemma ReplaceAllHeadOnly(s: string, pat: string, rep: string)
    requires |pat| > 0 && s != [] && pat[0] !in s[1..]
    requires |s| >= |pat| ==> s[..|pat|] != pat
    ensures ReplaceAll(s, pat, rep) == s
  {
    if |s| >= |pat| {
      ReplaceAllNoMatch(s[1..], pat, rep);
      assert [s[0]] + s[1..] == s;
    }
  }

  /** Joining two strings whose line feeds follow carriage returns keeps that property. */
  lemma LfAfterCrConcat(x: string, y: string)
    requires LfAfterCr(x) && LfAfterCr(y)
    ensures LfAfterCr(x + y)
  {
    var s := x + y;
    forall i | 0 < i < |s| && s[i] == LF ensures s[i - 1] == CR {
      if i > |x| {
        assert s[i] == y[i - |x|] && s[i - 1] == y[i - 1 - |x|];
      } else if i < |x| {
        assert s[i] == x[i] && s[i - 1] == x[i - 1];
      }
    }
  }

  /** After LF -> CR LF, every LF is preceded by a CR. */
  lemma {:induction false} ExpandLfAfterCr(s: string)
    ensures LfAfterCr(ReplaceAll(s, "\n", "\r\n"))
    decreases |s|
  {
    if |s| >= 1 {
      ExpandLfAfterCr(s[1..]);
      var rest := ReplaceAll(s[1..], "\n", "\r\n");
      if s[..1] == "\n" {
        assert LfAfterCr("\r\n");
        LfAfterCrConcat("\r\n", rest);
      } else {
        assert s[0] != LF;
        LfAfterCrConcat([s[0]], rest);
      }
    }
  }

  /** Collapsing CR CR into CR keeps each LF after a CR, and keeps the first character. */
  lemma {:induction false} CollapseKeepsLfAfterCr(s: string)
    requires InnerLfAfterCr(s)
    ensures var r := ReplaceAll(s, "\r\r", "\r");
      InnerLfAfterCr(r) && (|s| > 0 ==> |r| > 0 && r[0] == s[0])
    decreases |s|
  {
    var r := ReplaceAll(s, "\r\r", "\r");
    if |s| >= 2 {
      if s[..2] == "\r\r" {
        var t := ReplaceAll(s[2..], "\r\r", "\r");
        CollapseKeepsLfAfterCr(s[2..]);
        assert r == "\r" + t;
        forall i | 0 < i < |r| && r[i] == LF ensures r[i - 1] == CR {
          if i > 1 { assert r[i] == t[i - 1] && r[i - 1] == t[i - 2]; }
        }
      } else {
        var t := ReplaceAll(s[1..], "\r\r", "\r");
        CollapseKeepsLfAfterCr(s[1..]);
        assert r == [s[0]] + t;
        forall i | 0 < i < |r| && r[i] == LF ensures r[i - 1] == CR {
          if i > 1 { assert r[i] == t[i - 1] && r[i - 1] == t[i - 2]; }
          else { assert r[1] == s[1]; }
        }
      }
    }
  }

  /** After normalisation every LF is immediately preceded by a CR. */
  lemma NormalizedLfAfterCr(text: string)
    ensures LfAfterCr(NormalizeNewlines(text))
  {
    var expanded := ReplaceAll(text, "\n", "\r\n");
    ExpandLfAfterCr(text);
    CollapseKeepsLfAfterCr(expanded);
  }

  /** Text with neither CR nor LF is left unchanged by normalisation. */
  lemma NormalizeWithoutLineBreaks(text: string)
    requires CR !in text && LF !in text
    ensures NormalizeNewlines(text) == text
  {
    ReplaceAllNoMatch(text, "\n", "\r\n");
    ReplaceAllNoMatch(text, "\r\r", "\r");
  }

  /**
   * The normalisation is not idempotent: four CRs become two, which a second
   * pass turns into one.
   */
  lemma NormalizeNotIdempotent()
    ensures NormalizeNewlines(NormalizeNewlines("\r\r\r\r")) != NormalizeNewlines("\r\r\r\r")
  {
    ReplaceAllNoMatch("\r\r\r\r", "\n", "\r\n");
    assert ReplaceAll("\r\r", "\r\r", "\r") == "\r";
    assert ReplaceAll("\r\r\r\r", "\r\r", "\r") == "\r\r";
    ReplaceAllNoMatch("\r\r", "\n", "\r\n");
  }
}
