/**
 The Python string operations the assistant relies on, over `seq<char>`:
 substring test (`k in s`), `s.split(sep)`, `sep.join(parts)`,
 `s.replace(pat, repl)`, `s.strip()` and counting a character.
 Each is defined the way CPython computes it (a left-to-right scan) and is
 tied by lemmas to an independent description of what it means.
 */
module PyStr {

  /** The characters `str.strip()` removes, restricted to ASCII:
      space, tab, line feed, vertical tab, form feed, carriage return and
      the four separators U+001C..U+001F. */
  predicate IsSpace(c: char) {
    c == ' ' || c == '\t' || c == '\n' || c == '\U{0B}' || c == '\U{0C}' || c == '\r'
    || ('\U{1C}' <= c <= '\U{1F}')
  }

  predicate AllSpace(s: string) {
    forall i :: 0 <= i < |s| ==> IsSpace(s[i])
  }

  /** Neither the first nor the last character is whitespace. */
  predicate Stripped(s: string) {
    s == [] || (!IsSpace(s[0]) && !IsSpace(s[|s| - 1]))
  }

  // ---------------------------------------------------------------------
  // Substring test: Python `k in s`
  // ---------------------------------------------------------------------

  /** `k in s`, scanning the start positions of `s` from the left. */
  predicate Contains(s: string, k: string)
    ensures Contains(s, k) ==> |k| <= |s|
    decreases |s|
  {
    k <= s || (|s| > 0 && Contains(s[1..], k))
  }

  /** `k` occurs in `s` starting at index `i`. */
  predicate OccursAt(s: string, k: string, i: int) {
    0 <= i <= |s| && k <= s[i..]
  }

  /** The scan finds `k` exactly when `k` occurs at some index of `s`. */
  lemma {:induction false} ContainsIffOccurs(s: string, k: string)
    ensures Contains(s, k) <==> exists i :: OccursAt(s, k, i)
    decreases |s|
  {
    assert s[0..] == s;
    if k <= s {
      assert OccursAt(s, k, 0);
    } else if |s| == 0 {
    } else {
      ContainsIffOccurs(s[1..], k);
      if Contains(s[1..], k) {
        var i :| OccursAt(s[1..], k, i);
        assert s[1..][i..] == s[i + 1..];
        assert OccursAt(s, k, i + 1);
      }
      forall i | OccursAt(s, k, i) ensures Contains(s[1..], k) {
        assert i != 0;
        assert s[1..][i - 1..] == s[i..];
        assert OccursAt(s[1..], k, i - 1);
      }
    }
  }

  /** An occurrence of `k` inside an occurrence of `m` is an occurrence in `s`. */
  lemma {:induction false} ContainsTransitive(s: string, m: string, k: string)
    requires Contains(s, m) && Contains(m, k)
    ensures Contains(s, k)
  {
    ContainsIffOccurs(s, m);
    ContainsIffOccurs(m, k);
    var i :| OccursAt(s, m, i);
    var j :| OccursAt(m, k, j);
    assert s[i + j..][..|k|] == m[j..][..|k|];
    assert OccursAt(s, k, i + j);
    ContainsIffOccurs(s, k);
  }

  /** A prefix that does not hold the first character of `k` cannot hold
      the start of an occurrence of `k`. */
  lemma {:induction false} ContainsSkip(a: string, t: string, k: string)
    requires |k| > 0 && k[0] !in a
    ensures Contains(a + t, k) <==> Contains(t, k)
    decreases |a|
  {
    if |a| > 0 {
      assert !(k <= a + t) by { assert (a + t)[0] == a[0]; }
      assert (a + t)[1..] == a[1..] + t;
      ContainsSkip(a[1..], t, k);
    } else {
      assert a + t == t;
    }
  }

  // ---------------------------------------------------------------------
  // Python `s.split(sep)` and `sep.join(parts)`
  // ---------------------------------------------------------------------

  /** `s.split(sep)` for a non-empty separator: cut at every occurrence of
      `sep` found by a left-to-right, non-overlapping scan, so the first cut
      is at the leftmost occurrence. There is always at least one piece; the
      empty string gives `[""]`. */
  function Split(s: string, sep: string): (r: seq<string>)
    requires |sep| > 0
    ensures |r| >= 1 && r[0] <= s
    ensures Join(sep, r) == s
    ensures forall i :: 0 <= i < |r| ==> !Contains(r[i], sep)
    ensures forall i :: 0 <= i < |r[0]| ==> !OccursAt(s, sep, i)
    decreases |s|
  {
    if sep <= s then
      var t := Split(s[|sep|..], sep);
      SplitAtSep(s, sep, t);
      EmptyPieceFree(sep, t);
      [""] + t
    else if |s| == 0 then
      assert !Contains("", sep);
      [""]
    else
      var t := Split(s[1..], sep);
      SplitPastChar(s, sep, t);
      [[s[0]] + t[0]] + t[1..]
  }

  /** The step of `split` where `s` starts with the separator: an empty
      first piece, then the pieces of the rest, rejoin to `s`. */
  lemma SplitAtSep(s: string, sep: string, t: seq<string>)
    requires |sep| > 0 && sep <= s
    requires |t| >= 1 && Join(sep, t) == s[|sep|..]
    ensures Join(sep, [""] + t) == s
  {
    calc {
      Join(sep, [""] + t);
      { assert ([""] + t)[1..] == t; }
      "" + sep + Join(sep, t);
      { assert "" + sep == sep; }
      sep + s[|sep|..];
      { assert sep == s[..|sep|]; }
      s;
    }
  }

  /** An empty first piece holds no separator either. */
  lemma EmptyPieceFree(sep: string, t: seq<string>)
    requires |sep| > 0
    requires forall i :: 0 <= i < |t| ==> !Contains(t[i], sep)
    ensures forall i :: 0 <= i < |t| + 1 ==> !Contains(([""] + t)[i], sep)
  {
    forall i | 0 <= i < |t| + 1 ensures !Contains(([""] + t)[i], sep) {
      if i == 0 {
        assert !Contains("", sep);
      } else {
        assert ([""] + t)[i] == t[i - 1];
      }
    }
  }

  /** The step of `split` where `s` does not start with the separator: its
      first character joins the first piece of the rest. */
  lemma SplitPastChar(s: string, sep: string, t: seq<string>)
    requires |sep| > 0 && |s| > 0 && !(sep <= s)
    requires |t| >= 1 && t[0] <= s[1..] && Join(sep, t) == s[1..]
    requires forall i :: 0 <= i < |t| ==> !Contains(t[i], sep)
    requires forall i :: 0 <= i < |t[0]| ==> !OccursAt(s[1..], sep, i)
    ensures [s[0]] + t[0] <= s
    ensures Join(sep, [[s[0]] + t[0]] + t[1..]) == s
    ensures forall i :: 0 <= i < |t| ==> !Contains(([[s[0]] + t[0]] + t[1..])[i], sep)
    ensures forall i :: 0 <= i < |t[0]| + 1 ==> !OccursAt(s, sep, i)
  {
    var first := [s[0]] + t[0];
    assert [s[0]] + s[1..] == s;
    assert first[1..] == t[0];
    assert !Contains(first, sep);
    JoinConsFirst(sep, s[0], t);
    LeftmostCutStep(s, sep, |t[0]|);
  }

  /** When `s` does not start with `sep`, an occurrence at index `i + 1`
      of `s` is one at index `i` of `s[1..]`. */
  lemma LeftmostCutStep(s: string, sep: string, n: nat)
    requires |s| > 0 && !(sep <= s)
    requires forall i :: 0 <= i < n ==> !OccursAt(s[1..], sep, i)
    ensures forall i :: 0 <= i < n + 1 ==> !OccursAt(s, sep, i)
  {
    forall i | 0 <= i < n + 1 ensures !OccursAt(s, sep, i) {
      if i == 0 {
        assert s[0..] == s;
      } else if i <= |s| {
        assert s[i..] == s[1..][i - 1..];
        assert !OccursAt(s[1..], sep, i - 1);
      }
    }
  }

  /** The characters of all `parts` together. */
  function TotalLength(parts: seq<string>): nat {
    if |parts| == 0 then 0 else |parts[0]| + TotalLength(parts[1..])
  }

  /** `sep.join(parts)`: the parts in order, with one separator between
      each two of them and none at either end. */
  function Join(sep: string, parts: seq<string>): (r: string)
  {
    if |parts| == 0 then ""
    else if |parts| == 1 then parts[0]
    else parts[0] + sep + Join(sep, parts[1..])
  }

  /** The joined string holds the parts' characters and one separator
      between each two parts, nothing more. */
  lemma {:induction false} JoinLength(sep: string, parts: seq<string>)
    requires |parts| >= 1
    ensures parts[0] <= Join(sep, parts)
    ensures |Join(sep, parts)| == TotalLength(parts) + (|parts| - 1) * |sep|
    decreases |parts|
  {
    if |parts| > 1 {
      JoinLength(sep, parts[1..]);
      assert Join(sep, parts) == parts[0] + (sep + Join(sep, parts[1..]));
      assert (|parts| - 1) * |sep| == (|parts| - 2) * |sep| + |sep|;
    }
  }

  /** Putting a character in front of the first piece puts it in front of
      the joined string. */
  lemma JoinConsFirst(sep: string, c: char, t: seq<string>)
    requires |t| >= 1
    ensures Join(sep, [[c] + t[0]] + t[1..]) == [c] + Join(sep, t)
  {
    var u := [[c] + t[0]] + t[1..];
    assert u[1..] == t[1..];
  }

  /** A piece of a single-character split never holds that character, and
      there is one more piece than there are separators. */
  lemma {:induction false} SplitCharPieces(s: string, c: char)
    ensures |Split(s, [c])| == Count(s, c) + 1
    ensures forall i :: 0 <= i < |Split(s, [c])| ==> c !in Split(s, [c])[i]
    decreases |s|
  {
    if [c] <= s {
      SplitCharPieces(s[1..], c);
    } else if |s| > 0 {
      SplitCharPieces(s[1..], c);
      var t := Split(s[1..], [c]);
      assert s[0] != c;
      assert c !in [s[0]] + t[0];
    }
  }

  /** Splitting a string that does not hold the separator gives the string
      itself as the only piece. */
  lemma {:induction false} SplitWithoutSep(s: string, c: char)
    requires c !in s
    ensures Split(s, [c]) == [s]
    decreases |s|
  {
    if |s| > 0 {
      assert s[0] != c;
      assert !([c] <= s);
      SplitWithoutSep(s[1..], c);
      assert [s[0]] + s[1..] == s;
    }
  }

  /** The separator after a separator-free first piece ends that piece. */
  lemma {:induction false} SplitAfterPiece(a: string, c: char, b: string)
    requires c !in a
    ensures Split(a + [c] + b, [c]) == [a] + Split(b, [c])
    decreases |a|
  {
    var s := a + [c] + b;
    if |a| == 0 {
      assert s == [c] + b;
      assert s[1..] == b;
    } else {
      assert s[0] == a[0] && a[0] != c;
      assert s[1..] == a[1..] + [c] + b;
      SplitAfterPiece(a[1..], c, b);
      assert [a[0]] + a[1..] == a;
    }
  }

  /** Joining separator-free words with a one-character separator and
      splitting on it gives the words back. */
  lemma {:induction false} SplitJoinWords(ws: seq<string>, c: char)
    requires |ws| >= 1
    requires forall i :: 0 <= i < |ws| ==> c !in ws[i]
    ensures Split(Join([c], ws), [c]) == ws
    decreases |ws|
  {
    if |ws| == 1 {
      SplitWithoutSep(ws[0], c);
    } else {
      SplitAfterPiece(ws[0], c, Join([c], ws[1..]));
      SplitJoinWords(ws[1..], c);
      assert [ws[0]] + ws[1..] == ws;
    }
  }

  /** The joined first `n` pieces, followed by the separator, begin the
      joined whole. */
  lemma {:induction false} JoinTakePrefix(sep: string, ps: seq<string>, n: nat)
    requires 1 <= n < |ps|
    ensures Join(sep, ps[..n]) + sep <= Join(sep, ps)
    decreases n
  {
    if n > 1 {
      JoinTakePrefix(sep, ps[1..], n - 1);
      assert ps[..n][1..] == ps[1..][..n - 1];
    }
  }

  // ---------------------------------------------------------------------
  // Python `s.replace(pat, repl)`
  // ---------------------------------------------------------------------

  /** `s.replace(pat, repl)` for a non-empty pattern: scan from the left,
      replace each occurrence and resume after it. */
  function Replace(s: string, pat: string, repl: string): (r: string)
    requires |pat| > 0
    ensures !Contains(s, pat) ==> r == s
    ensures |repl| <= |pat| ==> |r| <= |s|
    decreases |s|
  {
    if pat <= s then repl + Replace(s[|pat|..], pat, repl)
    else if |s| == 0 then ""
    else [s[0]] + Replace(s[1..], pat, repl)
  }

  /** Python's identity `s.replace(pat, repl) == repl.join(s.split(pat))`. */
  lemma {:induction false} ReplaceIsJoinOfSplit(s: string, pat: string, repl: string)
    requires |pat| > 0
    ensures Replace(s, pat, repl) == Join(repl, Split(s, pat))
    decreases |s|
  {
    if pat <= s {
      var rest := s[|pat|..];
      ReplaceIsJoinOfSplit(rest, pat, repl);
      var t := Split(rest, pat);
      calc {
        Join(repl, Split(s, pat));
        { assert Split(s, pat) == [""] + t; }
        Join(repl, [""] + t);
        { assert ([""] + t)[1..] == t; }
        "" + repl + Join(repl, t);
        { assert "" + repl == repl; }
        repl + Replace(rest, pat, repl);
      }
    } else if |s| > 0 {
      ReplaceIsJoinOfSplit(s[1..], pat, repl);
      var t := Split(s[1..], pat);
      calc {
        Join(repl, Split(s, pat));
        { assert Split(s, pat) == [[s[0]] + t[0]] + t[1..]; }
        Join(repl, [[s[0]] + t[0]] + t[1..]);
        { JoinConsFirst(repl, s[0], t); }
        [s[0]] + Join(repl, t);
      }
    }
  }

  /** `split` cuts somewhere exactly when the separator occurs. */
  lemma {:induction false} SplitCutsIffContains(s: string, sep: string)
    requires |sep| > 0
    ensures |Split(s, sep)| > 1 <==> Contains(s, sep)
    decreases |s|
  {
    if !(sep <= s) && |s| > 0 {
      SplitCutsIffContains(s[1..], sep);
    }
  }

  /** `replace` copies a prefix that holds no first character of the pattern. */
  lemma {:induction false} ReplaceSkip(a: string, t: string, pat: string, repl: string)
    requires |pat| > 0 && pat[0] !in a
    ensures Replace(a + t, pat, repl) == a + Replace(t, pat, repl)
    decreases |a|
  {
    if |a| > 0 {
      var s := a + t;
      assert s[0] == a[0];
      assert s[1..] == a[1..] + t;
      ReplaceSkip(a[1..], t, pat, repl);
      assert [a[0]] + a[1..] == a;
    } else {
      assert a + t == t;
    }
  }

  // ---------------------------------------------------------------------
  // Python `s.strip()`
  // ---------------------------------------------------------------------

  /** `s.lstrip()`: the longest suffix of `s` that does not start with
      whitespace, everything before it being whitespace. */
  function StripLeft(s: string): (r: string)
    ensures |r| <= |s| && r == s[|s| - |r|..]
    ensures AllSpace(s[..|s| - |r|])
    ensures r == [] || !IsSpace(r[0])
    decreases |s|
  {
    if |s| > 0 && IsSpace(s[0]) then
      var r := StripLeft(s[1..]);
      StripLeftStep(s, r);
      r
    else s
  }

  /** A whitespace character in front of `s[1..]` joins the whitespace
      that `lstrip` removes from it. */
  lemma StripLeftStep(s: string, r: string)
    requires |s| > 0 && IsSpace(s[0])
    requires |r| <= |s| - 1 && r == s[1..][|s| - 1 - |r|..]
    requires AllSpace(s[1..][..|s| - 1 - |r|])
    ensures r == s[|s| - |r|..] && AllSpace(s[..|s| - |r|])
  {
    var a := s[1..][..|s| - 1 - |r|];
    assert s[..|s| - |r|] == [s[0]] + a;
    forall i | 0 <= i < |s| - |r| ensures IsSpace(s[i]) {
      if i > 0 {
        assert s[i] == a[i - 1];
      }
    }
  }

  /** `s.rstrip()`: the longest prefix of `s` that does not end with
      whitespace, everything after it being whitespace. */
  function StripRight(s: string): (r: string)
    ensures |r| <= |s| && r == s[..|r|]
    ensures AllSpace(s[|r|..])
    ensures r == [] || !IsSpace(r[|r| - 1])
    decreases |s|
  {
    if |s| > 0 && IsSpace(s[|s| - 1]) then
      var r := StripRight(s[..|s| - 1]);
      StripRightStep(s, r);
      r
    else s
  }

  /** A whitespace character after `s[..|s| - 1]` joins the whitespace
      that `rstrip` removes from it. */
  lemma StripRightStep(s: string, r: string)
    requires |s| > 0 && IsSpace(s[|s| - 1])
    requires |r| <= |s| - 1 && r == s[..|s| - 1][..|r|]
    requires AllSpace(s[..|s| - 1][|r|..])
    ensures r == s[..|r|] && AllSpace(s[|r|..])
  {
    var b := s[..|s| - 1][|r|..];
    assert s[|r|..] == b + [s[|s| - 1]];
    forall i | |r| <= i < |s| ensures IsSpace(s[i]) {
      if i < |s| - 1 {
        assert s[i] == b[i - |r|];
      }
    }
  }

  /** `s` is `r` with whitespace `a` in front and whitespace `b` behind. */
  predicate Padded(s: string, a: string, r: string, b: string) {
    AllSpace(a) && AllSpace(b) && s == a + r + b
  }

  /** `r` is what is left of `s` once surrounding whitespace is removed. */
  ghost predicate IsStripOf(s: string, r: string) {
    Stripped(r) && exists a, b :: Padded(s, a, r, b)
  }

  /** `s.strip()`. */
  function Strip(s: string): (r: string)
    ensures IsStripOf(s, r)
  {
    var l := StripLeft(s);
    var r := StripRight(l);
    StripSplitsPadding(s, l, r);
    r
  }

  /** The two halves of `strip` leave whitespace in front and behind. */
  lemma StripSplitsPadding(s: string, l: string, r: string)
    requires |l| <= |s| && l == s[|s| - |l|..] && AllSpace(s[..|s| - |l|])
    requires l == [] || !IsSpace(l[0])
    requires |r| <= |l| && r == l[..|r|] && AllSpace(l[|r|..])
    requires r == [] || !IsSpace(r[|r| - 1])
    ensures IsStripOf(s, r)
  {
    var a, b := s[..|s| - |l|], l[|r|..];
    assert l == r + b;
    assert s == a + l;
    assert Padded(s, a, r, b);
    if r != [] {
      assert r[0] == l[0];
    }
  }

  lemma {:induction false} StripLeftOfSpaces(a: string, t: string)
    requires AllSpace(a) && (t == [] || !IsSpace(t[0]))
    ensures StripLeft(a + t) == t
    decreases |a|
  {
    if |a| > 0 {
      assert (a + t)[1..] == a[1..] + t;
      StripLeftOfSpaces(a[1..], t);
    } else {
      assert a + t == t;
    }
  }

  lemma {:induction false} StripRightOfSpaces(t: string, b: string)
    requires AllSpace(b) && (t == [] || !IsSpace(t[|t| - 1]))
    ensures StripRight(t + b) == t
    decreases |b|
  {
    if |b| > 0 {
      assert (t + b)[..|t + b| - 1] == t + b[..|b| - 1];
      StripRightOfSpaces(t, b[..|b| - 1]);
    } else {
      assert t + b == t;
    }
  }

  /** Whatever whitespace surrounds a stripped string, `strip` recovers
      exactly that string: together with Strip's own postcondition this
      makes `IsStripOf(s, r)` determine `r`. */
  lemma StripPadded(s: string, a: string, r: string, b: string)
    requires Padded(s, a, r, b) && Stripped(r)
    ensures Strip(s) == r
  {
    if r == [] {
      assert AllSpace(a + b);
      assert s == a + b + [];
      StripLeftOfSpaces(a + b, []);
    } else {
      assert s == a + (r + b);
      StripLeftOfSpaces(a, r + b);
      StripRightOfSpaces(r, b);
    }
  }

  lemma StripUnique(s: string, r: string)
    requires IsStripOf(s, r)
    ensures Strip(s) == r
  {
    var a, b :| Padded(s, a, r, b);
    StripPadded(s, a, r, b);
  }

  /** `s.strip().strip() == s.strip()`. */
  lemma {:induction false} StripIdempotent(s: string)
    ensures Strip(Strip(s)) == Strip(s)
  {
    var r := Strip(s);
    assert Stripped(r);
    assert r == [] + r + [];
    StripPadded(r, [], r, []);
  }

  // ---------------------------------------------------------------------
  // Counting a character: `s.count(c)`
  // ---------------------------------------------------------------------

  function Count(s: string, c: char): (n: nat)
    ensures n <= |s|
    ensures n == 0 <==> c !in s
    decreases |s|
  {
    if |s| == 0 then 0
    else (if s[0] == c then 1 else 0) + Count(s[1..], c)
  }

  lemma {:induction false} CountAppend(a: string, b: string, c: char)
    ensures Count(a + b, c) == Count(a, c) + Count(b, c)
    decreases |a|
  {
    if |a| > 0 {
      assert (a + b)[1..] == a[1..] + b;
      CountAppend(a[1..], b, c);
    } else {
      assert a + b == b;
    }
  }
}
