/**
 The two command-line entry points, after argument parsing and the API-key
 check: mark_one.py's `main` (one of `--search WORDS`, `--fast-search WORDS`
 or `--listen`) and feature_test.py's `__main__` block (words on the command
 line ask for a fast summary; none start one interactive structured search).
 */
module Cli {

  import opened Maybe
  import opened PyStr
  import opened Search
  import opened Voice
  import opened Summary

  /** The query typed as separate command-line words, joined by single
      spaces. */
  function JoinWords(words: seq<string>): string {
    Join(" ", words)
  }

  /** Words without spaces are recovered by splitting their joined query
      on " ". */
  lemma JoinWordsRoundTrip(words: seq<string>)
    requires |words| >= 1
    requires forall i :: 0 <= i < |words| ==> ' ' !in words[i]
    ensures Split(JoinWords(words), " ") == words
  {
    SplitJoinWords(words, ' ');
  }

  /** The one flag of mark_one.py's mutually exclusive group that was given;
      for `--listen`, what the microphone heard. */
  datatype Flag =
    | SearchFlag(words: seq<string>)
    | FastSearchFlag(words: seq<string>)
    | ListenFlag(heard: Option<string>)

  /** mark_one.py `main`: the word flags go straight to their handler with
      the words joined; `--listen` goes through the voice router. An empty
      word list is falsy and falls through every branch. */
  function Dispatch(flag: Flag): (a: Action)
    ensures flag.SearchFlag? && |flag.words| > 0 ==>
      a.StructuredSearch? && a.query == JoinWords(flag.words)
    ensures flag.FastSearchFlag? && |flag.words| > 0 ==>
      a.FastSearch? && a.query == JoinWords(flag.words)
    ensures (flag.SearchFlag? || flag.FastSearchFlag?) && |flag.words| == 0 ==> a.Idle?
    ensures flag.ListenFlag? ==> a == Route(flag.heard)
  {
    match flag
    case SearchFlag(words) => if |words| > 0 then StructuredSearch(JoinWords(words)) else Idle
    case FastSearchFlag(words) => if |words| > 0 then FastSearch(JoinWords(words)) else Idle
    case ListenFlag(heard) => Route(heard)
  }

  /** A word query typed on the command line reaches its handler word for
      word, unlike a spoken one, whose keyword is removed. */
  lemma DispatchKeepsWords(flag: Flag)
    requires flag.SearchFlag? || flag.FastSearchFlag?
    requires |flag.words| >= 1
    requires forall i :: 0 <= i < |flag.words| ==> ' ' !in flag.words[i]
    ensures (Dispatch(flag).FastSearch? || Dispatch(flag).StructuredSearch?)
      && Split(Dispatch(flag).query, " ") == flag.words
  {
    JoinWordsRoundTrip(flag.words);
  }

  /** What one run of feature_test.py does. */
  datatype Run =
    | Summarized(query: string, answer: Option<string>) // fast summary of the argument words
    | Skipped                                            // empty interactive input: nothing else
    | Searched(outcome: Answer)                          // one interactive structured search

  /** feature_test.py `__main__`: `args` are the command-line words after
      the script name, `typed` the interactive input line, `reply` the one
      language-model call the run makes, `wiki` the encyclopedia. */
  function FeatureTestMain(args: seq<string>, typed: string, reply: Option<string>,
                           wiki: string -> Option<Page>): (r: Run)
    ensures r.Summarized? <==> |args| > 0
    ensures r.Summarized? ==> r.query == JoinWords(args) && r.answer == FastAnswer(reply)
    ensures r.Skipped? <==> |args| == 0 && typed == ""
    ensures r.Searched? ==>
      r.outcome.term == SearchTerm(typed, reply)
      && (reply.None? ==> r.outcome.term == typed)
      && (r.outcome.Found? <==> wiki(r.outcome.term).Some?)
    ensures r.Searched? && r.outcome.Found? ==>
      var page := wiki(r.outcome.term).value;
      r.outcome.title == page.title && r.outcome.text == Truncate(page.summary)
      && PeriodsKept(page.summary, r.outcome.text) && PeriodsSpaced(r.outcome.text)
  {
    if |args| > 0 then Summarized(JoinWords(args), FastAnswer(reply))
    else if typed != "" then Searched(WikiAnswer(SearchTerm(typed, reply), wiki))
    else Skipped
  }
}
