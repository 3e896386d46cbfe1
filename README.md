# AI personal assistant: keyword routing and answer shaping

A model, in Dafny, of the string logic of a small personal assistant that
answers spoken or typed questions with the help of a language model and an
online encyclopedia. Everything around that logic is calls to external
services; the model keeps the decisions the program makes on strings:

- **Voice-command routing** (`mark_one.py`, `process_voice_command`): an
  absent command does nothing; a command containing "fast search" goes to
  the fast summary, one containing "search" (but not "fast search") to the
  structured search, anything else is not recognised. The query is the
  command with every occurrence of the keyword deleted (Python
  `str.replace`) and then stripped. `Voice.Route` returns the chosen action
  instead of calling a handler.
- **Three-sentence cut** of an encyclopedia summary (both files):
  `". ".join(summary.split('.')[:3]) + "."`, with Python's `split`
  semantics (the empty string gives one empty piece; pieces keep their
  leading spaces, so the output can contain double spaces: a piece that
  starts with a space ends up after the inserted `". "`).
- **Search-term fallback**: the stripped model reply, or the user's query
  unchanged when the model call failed.
- **Command-line entry points**: argument words joined by single spaces;
  `mark_one.py` dispatches on one of three flags, `feature_test.py` runs a
  fast summary when words are given and one interactive structured search
  otherwise, skipping everything on an empty input line.

Modules: `Maybe` (the optional value), `PyStr` (Python `in`, `split`,
`join`, `replace`, `strip`, `count` on `seq<char>`, each defined as CPython
scans and tied by lemmas to an independent description), `Summary`,
`Search`, `Voice`, `Cli`. External calls are parameters: a model reply is
an `Option<string>` (`None` for any exception), the encyclopedia is a
function from a search term to an optional page (title and summary).

Behaviour worth knowing, proved as stated in the table: because the keyword
test is a substring test, "research" is routed to a structured search for
"re" (`Voice.ResearchIsASearch`); an abbreviation such as "U.S." counts its
periods as sentence ends.

## Model

| member | source | states |
|---|---|---|
| Voice.Route | mark_one.py:102-118 | No command gives no action; the fast summary is chosen exactly when the command contains "fast search", the structured search exactly when it contains "search" but not "fast search", "unrecognised" exactly when it contains neither; a routed query has no surrounding whitespace |
| Voice.UnrecognizedIffNoSearch | mark_one.py:110-118 | A command is unrecognised exactly when it does not contain "search" (every "fast search" command also contains "search", so the fast test must come first) |
| Voice.QueryAfter | mark_one.py:112-115 | The query is the command's pieces around the keyword, run together and stripped; a command without the keyword is only stripped |
| Voice.RouteQuery | mark_one.py:110-116 | For a routed command, the command is its pieces around the keyword rejoined by the keyword, with at least one occurrence; no piece contains the keyword; and the query is those pieces concatenated and stripped: every occurrence is removed |
| Voice.QueryAfterKeyword | mark_one.py:112-115 | A keyword, a space and a stripped query that does not contain the keyword leave exactly that query |
| Voice.SayFastSearch | mark_one.py:110-113 | "fast search " followed by a stripped query without the keyword hands exactly that query to the fast summary |
| Voice.SaySearch | mark_one.py:114-116 | "search " followed by a stripped query without "search" hands exactly that query to the structured search |
| Voice.ResearchIsASearch | mark_one.py:114-116 | The command "research" starts a structured search for "re" |
| Summary.Take | mark_one.py:73 | The slice `summary_sentences[:3]` (also feature_test.py:77): its length is the smaller of the list's length and the limit, and it is a prefix of the list |
| Summary.Truncate | mark_one.py:72-73 | The shown summary ends with '.', holds min(3, k+1) periods, k being the periods of the page summary, and every period but the last is followed by a space (the ". " the pieces are joined with) |
| Summary.TruncateWithoutPeriod | feature_test.py:76-77 | A summary with no '.' is shown as itself followed by "."; the empty summary is shown as "." |
| Summary.TruncateKeepsLeadingSpace | feature_test.py:76-77 | Two period-free sentences "a. b" are shown as "a.  b." (the second piece keeps its leading space) |
| Summary.TruncateKeepsLeadingSentences | mark_one.py:72-73 | With each inserted ". " turned back into ".", the shown text is the summary plus "." when it has fewer than three periods, else the prefix of the summary that ends at its third period: the first three pieces in their original order |
| Search.SearchTerm | feature_test.py:52-61 | On failure the term is the query unchanged; on success it is the reply with surrounding whitespace removed (a stripped middle part of the reply with only whitespace around it) |
| Search.SearchTermOfPaddedReply | mark_one.py:52-61 | A reply that is a stripped term wrapped in whitespace yields exactly that term |
| Search.WikiAnswer | feature_test.py:63-77 | No page gives no summary; an existing page gives its title and a text ending in '.' with min(3, k+1) periods, namely the three-sentence cut of its summary |
| Search.StructuredAnswer | mark_one.py:38-73 | The page is looked up under the fallback search term (the query itself when the model call failed); a summary is shown exactly when that page exists, and then it is the page title with the three-sentence cut of its summary (ending in '.', min(3, k+1) periods, each inner period followed by a space) |
| Search.FastAnswer | mark_one.py:28-35 | A summary is produced exactly when the model call succeeds, and it is the reply stripped |
| Cli.Dispatch | mark_one.py:138-148 | `--search`/`--fast-search` words go, joined by single spaces, to the structured search or the fast summary; an empty word list does nothing; `--listen` goes through the voice router |
| Cli.DispatchKeepsWords | mark_one.py:139-144 | For space-free words, splitting the dispatched query on " " gives back the words |
| Cli.JoinWordsRoundTrip | feature_test.py:93 | Splitting the joined query on " " gives back the argument words when none contains a space |
| Cli.FeatureTestMain | feature_test.py:88-102 | Words on the command line give a fast summary of their joined query; with none, an empty input line does nothing, and any other line is looked up under the fallback search term (the line itself when the model call failed), and a found page is shown as its title and the three-sentence cut of its summary |
| PyStr.Contains | mark_one.py:110-114 | The keyword test (`in`) can only succeed when the keyword is no longer than the command |
| PyStr.ContainsIffOccurs | mark_one.py:110 | The `in` scan succeeds exactly when the keyword occurs at some index |
| PyStr.ReplaceIsJoinOfSplit | mark_one.py:112 | `s.replace(p, r)` equals `r.join(s.split(p))` |
| PyStr.Split | mark_one.py:72 | `split` gives at least one piece, the first a prefix of the string; no piece contains the separator; joining the pieces with the separator gives the string back; and no occurrence of the separator starts inside the first piece, so the first cut is at the leftmost occurrence |
| PyStr.JoinLength | mark_one.py:140 | About `PyStr.Join`, the model of `sep.join(parts)` (mark_one.py:73, 140 and 143; feature_test.py:77 and 93), which is also the reference definition that `Split`'s round trip is stated against: the first part begins the joined string, and its length is the parts' total length plus one separator between each two parts |
| PyStr.Replace | mark_one.py:112 | `replace` leaves a string without the pattern unchanged, and deleting (or shortening) the pattern never lengthens the string |
| PyStr.SplitCharPieces | feature_test.py:76 | Splitting on '.' gives one more piece than there are periods, and no piece holds a period |
| PyStr.SplitCutsIffContains | mark_one.py:112 | A split cuts the string exactly when the separator occurs in it |
| PyStr.Strip | mark_one.py:56 | The result has no whitespace at either end and is the input with only whitespace removed around it |
| PyStr.StripUnique | feature_test.py:56 | Any stripped string with only whitespace around it in the input is the result of `strip` |
| PyStr.StripIdempotent | mark_one.py:56 | A property of `strip` itself: stripping twice is stripping once |

## Left out

- Speech capture and recognition (`listen_for_command`, `voice_test.py`):
  microphone and remote API; the model takes the recognised, lower-cased
  command as an `Option<string>`.
- Text-to-speech (`tts_test.py`): synthesis, file writes, playback and
  deletion of the audio file.
- The HTTP requests to the language model, the JSON path into its reply and
  the encyclopedia library: a reply is an `Option<string>` and a lookup a
  function to an optional page. For the model calls, which are wrapped in a
  catch-all `try`, timeouts, status codes and the exception raised are not
  distinguished, as in the source.
- Argument parsing, `.env` loading and the API-key checks. `mark_one.py`
  returns when the key is missing; `feature_test.py` only prints an error
  and carries on. Neither is modelled. Command-line words are the list the
  parser produces; words that the parser would take as options are not
  modelled.
- Failures the source does not catch: the encyclopedia lookup (`page.exists()`,
  `page.summary`, mark_one.py:64-73 and feature_test.py:68-77) sits outside
  any `try`, so a network failure there ends the program with a traceback,
  and `input()` (feature_test.py:99) raises on a closed input stream. The
  model's lookup function and input line are always given, so every run ends
  in `NotFound`, `Found` or `Skipped`; these crashes are not modelled.
- All printed messages.
- PyStr.IsSpace: `strip` removes only the ASCII characters Python counts as
  whitespace (space, `\t`, `\n`, `\v`, `\f`, `\r` and U+001C..U+001F), not
  the non-ASCII Unicode whitespace Python also removes.
- `split` and `replace` with an empty separator: every use in the source
  has a non-empty literal separator.
- A later version of the assistant with an intent classifier, news and
  notes handlers: its code is not part of this model.
