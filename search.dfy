/**
 The two search handlers, with their external calls abstracted away:
 a language-model reply is an `Option<string>` (`None` when the request,
 the status check or the JSON path raised), and the encyclopedia is a
 function from a search term to the page it has for it, if any.
 */
module Search {

  import opened Maybe
  import opened PyStr
  import opened Summary

  datatype Page = Page(title: string, summary: string)

  /** What a structured search shows: either that no page exists for the
      term, or the page title and the truncated summary. */
  datatype Answer =
    | NotFound(term: string)
    | Found(term: string, title: string, text: string)

  /** The search term: the stripped model reply, or the user's query
      unchanged when the model call failed. */
  function SearchTerm(query: string, reply: Option<string>): (term: string)
    ensures reply.None? ==> term == query
    ensures reply.Some? ==> IsStripOf(reply.value, term)
  {
    match reply
    case None => query
    case Some(text) => Strip(text)
  }

  /** Look a term up and show at most three sentences of its summary. */
  function WikiAnswer(term: string, wiki: string -> Option<Page>): (a: Answer)
    ensures a.term == term
    ensures a.Found? <==> wiki(term).Some?
    ensures a.Found? ==> a.title == wiki(term).value.title
    ensures a.Found? ==> a.text == Truncate(wiki(term).value.summary)
    ensures a.Found? ==> PeriodsKept(wiki(term).value.summary, a.text)
  {
    match wiki(term)
    case None => NotFound(term)
    case Some(page) =>
      Found(term, page.title, Truncate(page.summary))
  }

  /** The whole structured search: choose the term, then look it up. */
  function StructuredAnswer(query: string, reply: Option<string>, wiki: string -> Option<Page>): (a: Answer)
    ensures a.term == SearchTerm(query, reply)
    ensures reply.None? ==> a.term == query
    ensures a.Found? <==> wiki(a.term).Some?
    ensures a.Found? ==> a.title == wiki(a.term).value.title
    ensures a.Found? ==> a.text == Truncate(wiki(a.term).value.summary)
    ensures a.Found? ==> PeriodsKept(wiki(a.term).value.summary, a.text) && PeriodsSpaced(a.text)
  {
    WikiAnswer(SearchTerm(query, reply), wiki)
  }

  /** The fast summary: the stripped model reply, or nothing when the call
      failed (the handler then only reports the error). */
  function FastAnswer(reply: Option<string>): (answer: Option<string>)
    ensures answer.Some? <==> reply.Some?
    ensures answer.Some? ==> IsStripOf(reply.value, answer.value)
  {
    match reply
    case None => None
    case Some(text) => Some(Strip(text))
  }

  /** A reply that is a term wrapped in whitespace (a trailing newline,
      say) yields exactly that term, whatever the query was. */
  lemma SearchTermOfPaddedReply(query: string, a: string, t: string, b: string)
    requires AllSpace(a) && AllSpace(b) && Stripped(t)
    ensures SearchTerm(query, Some(a + t + b)) == t
  {
    StripPadded(a + t + b, a, t, b);
  }
}
