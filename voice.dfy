/**
 The keyword router for a recognised voice command (mark_one.py,
 `process_voice_command`). The command arrives lower-cased, or is absent
 when nothing was recognised. Instead of calling a handler, the router
 returns the action it would take.
 */
module Voice {

  import opened Maybe
  import opened PyStr

  const FastKeyword: string := "fast search"
  const SearchKeyword: string := "search"

  datatype Action =
    | Idle                            // no command: nothing happens
    | FastSearch(query: string)       // the fast-summary handler runs on query
    | StructuredSearch(query: string) // the structured-search handler runs on query
    | Unrecognized                    // neither keyword: only an apology is printed

  /** The command with every occurrence of `keyword` deleted, then stripped:
      `command.replace(keyword, "").strip()`. */
  function QueryAfter(command: string, keyword: string): (q: string)
    requires |keyword| > 0
    ensures IsStripOf(Join("", Split(command, keyword)), q)
    ensures !Contains(command, keyword) ==> IsStripOf(command, q)
  {
    ReplaceIsJoinOfSplit(command, keyword, "");
    Strip(Replace(command, keyword, ""))
  }

  /** "fast search" is tested first, then "search"; anything else is not
      recognised. */
  function Route(command: Option<string>): (a: Action)
    ensures a.Idle? <==> command.None?
    ensures a.FastSearch? <==> command.Some? && Contains(command.value, FastKeyword)
    ensures a.StructuredSearch? <==>
      command.Some? && !Contains(command.value, FastKeyword) && Contains(command.value, SearchKeyword)
    ensures a.Unrecognized? <==>
      command.Some? && !Contains(command.value, FastKeyword) && !Contains(command.value, SearchKeyword)
    ensures (a.FastSearch? || a.StructuredSearch?) ==> Stripped(a.query)
  {
    match command
    case None => Idle
    case Some(c) =>
      if Contains(c, FastKeyword) then FastSearch(QueryAfter(c, FastKeyword))
      else if Contains(c, SearchKeyword) then StructuredSearch(QueryAfter(c, SearchKeyword))
      else Unrecognized
  }

  /** "fast search" holds "search", so a command with neither keyword is
      exactly one without "search". */
  lemma UnrecognizedIffNoSearch(c: string)
    ensures Route(Some(c)).Unrecognized? <==> !Contains(c, SearchKeyword)
  {
    if Contains(c, FastKeyword) {
      assert OccursAt(FastKeyword, SearchKeyword, 5);
      ContainsIffOccurs(FastKeyword, SearchKeyword);
      ContainsTransitive(c, FastKeyword, SearchKeyword);
    }
  }

  /** The routed query is what `replace` leaves: the command is its pieces
      around the keyword joined back by the keyword (with at least one
      occurrence), and the query is those pieces run together and
      stripped. */
  lemma RouteQuery(c: string)
    ensures Route(Some(c)).FastSearch? ==>
      var pieces := Split(c, FastKeyword);
      |pieces| > 1 && Join(FastKeyword, pieces) == c
      && (forall i :: 0 <= i < |pieces| ==> !Contains(pieces[i], FastKeyword))
      && IsStripOf(Join("", pieces), Route(Some(c)).query)
    ensures Route(Some(c)).StructuredSearch? ==>
      var pieces := Split(c, SearchKeyword);
      |pieces| > 1 && Join(SearchKeyword, pieces) == c
      && (forall i :: 0 <= i < |pieces| ==> !Contains(pieces[i], SearchKeyword))
      && IsStripOf(Join("", pieces), Route(Some(c)).query)
  {
    SplitCutsIffContains(c, FastKeyword);
    ReplaceIsJoinOfSplit(c, FastKeyword, "");
    SplitCutsIffContains(c, SearchKeyword);
    ReplaceIsJoinOfSplit(c, SearchKeyword, "");
  }

  /** A keyword, a space and a stripped query without the keyword leave
      exactly that query. */
  lemma QueryAfterKeyword(keyword: string, q: string)
    requires |keyword| > 0 && keyword[0] != ' '
    requires Stripped(q) && !Contains(q, keyword)
    ensures QueryAfter(keyword + " " + q, keyword) == q
  {
    DeleteLeadingKeyword(keyword, q);
    assert Padded(" " + q, " ", q, "");
    StripPadded(" " + q, " ", q, "");
  }

  /** Deleting the keyword from the keyword, a space and a text without
      the keyword leaves the space and the text. */
  lemma DeleteLeadingKeyword(keyword: string, q: string)
    requires |keyword| > 0 && keyword[0] != ' ' && !Contains(q, keyword)
    ensures Replace(keyword + " " + q, keyword, "") == " " + q
  {
    var c := keyword + (" " + q);
    calc {
      Replace(keyword + " " + q, keyword, "");
      { assert keyword + " " + q == c; }
      Replace(c, keyword, "");
      { assert keyword <= c; assert c[|keyword|..] == " " + q; }
      "" + Replace(" " + q, keyword, "");
      { ReplaceSkip(" ", q, keyword, ""); }
      " " + Replace(q, keyword, "");
      " " + q;
    }
  }

  /** Saying "fast search" and then a query hands exactly that query to
      the fast-summary handler. */
  lemma SayFastSearch(q: string)
    requires Stripped(q) && !Contains(q, FastKeyword)
    ensures Route(Some(FastKeyword + " " + q)) == FastSearch(q)
  {
    var c := FastKeyword + " " + q;
    assert c == FastKeyword + (" " + q);
    assert Contains(c, FastKeyword);
    QueryAfterKeyword(FastKeyword, q);
  }

  /** Saying "search" and then a query without the keyword hands exactly
      that query to the structured-search handler. */
  lemma SaySearch(q: string)
    requires Stripped(q) && !Contains(q, SearchKeyword)
    ensures Route(Some(SearchKeyword + " " + q)) == StructuredSearch(q)
  {
    var c := SearchKeyword + " " + q;
    assert c == SearchKeyword + (" " + q);
    assert Contains(c, SearchKeyword);
    ContainsSkip(SearchKeyword + " ", q, FastKeyword);
    if Contains(q, FastKeyword) {
      assert OccursAt(FastKeyword, SearchKeyword, 5);
      ContainsIffOccurs(FastKeyword, SearchKeyword);
      ContainsTransitive(q, FastKeyword, SearchKeyword);
    }
    QueryAfterKeyword(SearchKeyword, q);
  }

  /** The keyword test is a substring test, not a word test: "research"
      starts a structured search for "re". */
  lemma ResearchIsASearch()
    ensures Route(Some("research")) == StructuredSearch("re")
  {
    var c := "research";
    assert c == "re" + SearchKeyword;
    ContainsSkip("re", SearchKeyword, SearchKeyword);
    ReplaceSkip("re", SearchKeyword, SearchKeyword, "");
    assert Replace(SearchKeyword, SearchKeyword, "") == "" + Replace("", SearchKeyword, "");
    assert Padded("re", "", "re", "");
    StripPadded("re", "", "re", "");
  }
}
