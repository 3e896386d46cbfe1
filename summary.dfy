/**
 The three-sentence cut applied to an encyclopedia summary before it is
 shown: `". ".join(summary.split('.')[:3]) + "."`. Sentences are whatever
 lies between literal periods, so an abbreviation such as "U.S." ends a
 "sentence" early, and the piece after a period keeps its leading space,
 so a piece that starts with a space follows the inserted ". " and the
 output then holds a double space.
 */
module Summary {

  import opened PyStr

  /** How many pieces are kept. */
  const SentenceLimit: nat := 3

  function Min(a: int, b: int): int {
    if a < b then a else b
  }

  /** Python's `ps[:n]`, which stops at the end of a shorter list. */
  function Take<T>(ps: seq<T>, n: nat): (r: seq<T>)
    ensures |r| == Min(|ps|, n)
    ensures r <= ps
  {
    if |ps| <= n then ps else ps[..n]
  }

  /** The printed answer for a page summary: it ends with a period, holds
      one more period than the summary up to three, and every other period
      in it is followed by a space. */
  function Truncate(summary: string): (r: string)
    ensures PeriodsKept(summary, r)
    ensures PeriodsSpaced(r)
  {
    var ps := Split(summary, ".");
    var t := Take(ps, SentenceLimit);
    SplitCharPieces(summary, '.');
    assert forall i :: 0 <= i < |t| ==> t[i] == ps[i];
    JoinPeriodCount(". ", t);
    CountAppend(Join(". ", t), ".", '.');
    JoinSpaced(t);
    Join(". ", t) + "."
  }

  /** The truncated text with each inserted ". " turned back into ".". */
  function Unspaced(text: string): string {
    Replace(text, ". ", ".")
  }

  /** Joining period-free pieces with a one-period separator puts one
      period between each two pieces and no other. */
  lemma {:induction false} JoinPeriodCount(sep: string, ps: seq<string>)
    requires Count(sep, '.') == 1
    requires |ps| >= 1 && forall i :: 0 <= i < |ps| ==> '.' !in ps[i]
    ensures Count(Join(sep, ps), '.') == |ps| - 1
    decreases |ps|
  {
    if |ps| > 1 {
      JoinPeriodCount(sep, ps[1..]);
      CountAppend(ps[0] + sep, Join(sep, ps[1..]), '.');
      CountAppend(ps[0], sep, '.');
    }
  }

  /** `r` ends with a period and holds min(3, k + 1) periods, where k is
      the number of periods in `summary`. */
  predicate PeriodsKept(summary: string, r: string) {
    |r| >= 1 && r[|r| - 1] == '.'
    && Count(r, '.') == Min(SentenceLimit, Count(summary, '.') + 1)
  }

  /** Every period of `r` but a final one is followed by a space. */
  predicate PeriodsSpaced(r: string) {
    forall i :: 0 <= i < |r| - 1 && r[i] == '.' ==> r[i + 1] == ' '
  }

  /** Period-free pieces joined by ". " and closed by "." have a space
      after every period but the last. */
  lemma {:induction false} JoinSpaced(ps: seq<string>)
    requires |ps| >= 1 && forall i :: 0 <= i < |ps| ==> '.' !in ps[i]
    ensures PeriodsSpaced(Join(". ", ps) + ".")
    decreases |ps|
  {
    var p := ps[0];
    var r := Join(". ", ps) + ".";
    if |ps| == 1 {
      assert r == p + ".";
      forall i | 0 <= i < |r| - 1 ensures r[i] != '.' {
        assert r[i] == p[i];
      }
    } else {
      var rest := Join(". ", ps[1..]) + ".";
      JoinSpaced(ps[1..]);
      assert r == p + ". " + rest;
      forall i | 0 <= i < |r| - 1 ensures r[i] == '.' ==> r[i + 1] == ' ' {
        if i < |p| {
          assert r[i] == p[i];
        } else if i >= |p| + 2 {
          assert r[i] == rest[i - |p| - 2];
          assert r[i + 1] == rest[i - |p| - 1];
        }
      }
    }
  }

  /** A summary without a period is shown whole with a period added; the
      empty summary is shown as ".". */
  lemma TruncateWithoutPeriod(summary: string)
    requires '.' !in summary
    ensures Truncate(summary) == summary + "."
    ensures summary == "" ==> Truncate(summary) == "."
  {
    SplitWithoutSep(summary, '.');
  }

  /** Two period-free sentences: the second keeps its leading space, so the
      answer has two spaces after the inserted period. */
  lemma TruncateKeepsLeadingSpace(a: string, b: string)
    requires '.' !in a && '.' !in b
    ensures Truncate(a + ". " + b) == a + ".  " + b + "."
  {
    assert a + ". " + b == a + ['.'] + (" " + b);
    SplitAfterPiece(a, '.', " " + b);
    SplitWithoutSep(" " + b, '.');
    var ps := Split(a + ". " + b, ".");
    assert ps == [a, " " + b];
    assert Take(ps, SentenceLimit) == ps;
    assert Join(". ", ps) == a + ". " + (" " + b);
    assert a + ". " + (" " + b) + "." == a + ".  " + b + ".";
  }

  /** Turning ". " back into "." after joining period-free pieces gives the
      pieces joined by "." alone. */
  lemma {:induction false} UnspacedJoin(ps: seq<string>)
    requires |ps| >= 1 && forall i :: 0 <= i < |ps| ==> '.' !in ps[i]
    ensures Unspaced(Join(". ", ps) + ".") == Join(".", ps) + "."
    decreases |ps|
  {
    var pat := ". ";
    if |ps| == 1 {
      ReplaceSkip(ps[0], ".", pat, ".");
      assert Replace(".", pat, ".") == ['.'] + Replace("", pat, ".");
    } else {
      var rest := Join(". ", ps[1..]) + ".";
      assert '.' !in ps[0];
      assert forall i :: 0 <= i < |ps[1..]| ==> '.' !in ps[1..][i];
      calc {
        Unspaced(Join(". ", ps) + ".");
        { assert Join(". ", ps) + "." == ps[0] + (pat + rest); }
        Replace(ps[0] + (pat + rest), pat, ".");
        { ReplaceSkip(ps[0], pat + rest, pat, "."); }
        ps[0] + Replace(pat + rest, pat, ".");
        { assert (pat + rest)[|pat|..] == rest; }
        ps[0] + ("." + Replace(rest, pat, "."));
        { UnspacedJoin(ps[1..]); }
        ps[0] + ("." + (Join(".", ps[1..]) + "."));
        Join(".", ps) + ".";
      }
    }
  }

  /** The answer keeps the leading sentences in their original order: with
      the inserted spaces taken back out it is the whole summary plus "."
      when the summary has fewer than three periods, and otherwise the
      summary up to and including its third period. */
  lemma TruncateKeepsLeadingSentences(summary: string)
    ensures Count(summary, '.') < 3 ==> Unspaced(Truncate(summary)) == summary + "."
    ensures Count(summary, '.') >= 3 ==>
      var u := Unspaced(Truncate(summary));
      u <= summary && Count(u, '.') == 3 && u[|u| - 1] == '.'
  {
    var ps := Split(summary, ".");
    SplitCharPieces(summary, '.');
    var t := Take(ps, SentenceLimit);
    assert forall i :: 0 <= i < |t| ==> t[i] == ps[i];
    UnspacedJoin(t);
    if Count(summary, '.') >= 3 {
      JoinTakePrefix(".", ps, 3);
      JoinPeriodCount(".", t);
      CountAppend(Join(".", t), ".", '.');
    }
  }
}
