# howto — a verified model of the answer-retrieval core

`howto` answers a programming question by searching Google restricted to
StackOverflow, fetching each StackOverflow link it finds, and extracting an answer
(question title, code instruction, full text) from the highest-voted answer on the
page. A small command-line front end turns its arguments into a configuration and
prints a window of the answers.

This project models, in Dafny:

- `wrappers.dfy` (`Wrappers`): `Option` and `Result`.
- `strings.dfy` (`Strings`): `starts_with`, `join("")`, `join(sep)` and `flat_map` over
  text nodes, with the lemmas that relate them, and an `EndsWith` that only the inverse
  of the page URL (`Howto.LinkOfPageUrl`) uses.
- `howto.dfy` (`Howto`, from `howto/src/lib.rs`): the `Answer` record, the search and
  page URLs, link harvesting, answer extraction, the `howto` stream and the
  `prefetch_howto` stream. The network call `get` together with the HTML parser is a
  `Fetcher`, a function from URL to either a request error or the page as seen through
  the program's fixed CSS selectors (`.r>a`, `#question-header>h1`, `.answer`, and
  inside an answer `pre`, `code` and `.post-text>*`), each an ordered list of matched
  elements with their `href` and their text nodes.
- `ordered.dfy` (`Ordered`): the delivery discipline of `FuturesOrdered`, which
  `prefetch_howto` relies on. Futures complete in any order (`completion`, a parameter)
  and a buffer keyed by push index hands their outputs on in push order.
- `cli.dfy` (`HowtoCli`, from `howto-cli/src/main.rs`): `ShowOption`, `Config`, the
  guard chain of `get_config_from_args` over the outcome of option parsing, and the
  output `main` produces as a sequence of stdout/stderr lines.

Points of the program's behaviour that the model keeps as written:

- A page with no title, no answer block, or no `pre`/`code` element in its first
  answer block is the error `Cannot parse StackOverflow` (lib.rs:104-112); there is
  no title-less or instruction-less answer.
- The query is appended to the search URL unencoded (lib.rs:66-69).
- Per-link failures are dropped from the library's stream by `.ok()` and
  `filter_map` (lib.rs:133), not surfaced as error items.
- The links after the prefetch window are fetched one at a time (lib.rs:152-153).

`main.rs` treats the items of the answer stream as `Ok`/`Err` values and does not
await `howto`, while `lib.rs` yields plain answers. The CLI model takes the stream as a
function from the query to a sequence of `Result<Answer, string>` items, as `main.rs`
is written, and does not tie it to the library model.

## Model

| member | source | states |
|---|---|---|
| Howto.SearchUrl | howto/src/lib.rs:66-69 | the search URL is the fixed site-restricted Google prefix followed by the query character for character |
| Howto.SearchUrlRoundTrip | howto/src/lib.rs:66-69 | the query is read back unchanged from its search URL, and any URL that reads back as a query is that query's search URL |
| Howto.PageUrl | howto/src/lib.rs:98 | the page URL is the link followed by `?answerstab=votes` |
| Howto.PageUrlRoundTrip | howto/src/lib.rs:98-99 | the link is recovered from its page URL by dropping the suffix, and only the link's own page URL yields it |
| Howto.HarvestLinks | howto/src/lib.rs:74-79 | every harvested link starts with `https://stackoverflow.com/`; every matched element with such an `href` contributes it; never more links than elements |
| Howto.HarvestAppend | howto/src/lib.rs:74-79 | harvesting two parts of the document gives the first part's links before the second part's |
| Howto.HarvestSnoc | howto/src/lib.rs:74-79 | one more matched element at the end adds its link at the end exactly when it has a StackOverflow `href` |
| Howto.KeptPositions | howto/src/lib.rs:76-78 | the positions of the elements with a StackOverflow `href`, strictly increasing, all of them |
| Howto.HarvestInDocumentOrder | howto/src/lib.rs:74-79 | the k-th harvested link is the `href` of the k-th element that has a StackOverflow `href`: elements without `href` or elsewhere are dropped and document order is kept |
| Howto.GetStackOverflowLinks | howto/src/lib.rs:61-82 | the search fails exactly when the fetch of the search URL fails, with that error; otherwise every link has the StackOverflow origin and there are no more links than `.r>a` matches (`HarvestInDocumentOrder` gives the exact list) |
| Howto.Links | howto/src/lib.rs:130 | a failed search gives no links; every link starts with the StackOverflow origin |
| Howto.TextOf | howto/src/lib.rs:105 | an element's text is its text nodes joined with the empty separator (`FixtureRoundTrip` uses it for title and instruction) |
| Howto.GetAnswer | howto/src/lib.rs:84-126 | a request error for the page URL is passed on; otherwise the result is `Cannot parse StackOverflow` exactly when the title, the first answer block or both its `pre` and `code` are missing; an answer keeps the link without the suffix, the first title's text, the first `pre`'s text or else the first `code`'s, and the texts of the `.post-text>*` matches in order |
| Howto.FullTextIsTextsInOrder | howto/src/lib.rs:114-118 | joining the flattened text nodes of the paragraph matches equals joining the paragraphs' own texts in document order |
| Howto.FixtureRoundTrip | howto/src/lib.rs:98-125 | a page with a known title, code block and paragraph text yields exactly that title, instruction and concatenated text, with the link as given |
| Howto.GetAnswerReadsOnlyPageUrl | howto/src/lib.rs:98-101 | extraction depends only on what is fetched for the page URL of the link |
| Howto.ExtractWith | howto/src/lib.rs:133 | the per-link step `get_answer(&link).await.ok()` succeeds exactly when `get_answer` does, and its answer carries the link asked about |
| Howto.ExtractionKeepsLink | howto/src/lib.rs:120-125 | a successful per-link step gives the answer `get_answer` built, whose link is the link asked about |
| Howto.AnswersOf | howto/src/lib.rs:132-133 | the stream of a link list has no more answers than links and each answer is the successful extraction of one of them |
| Howto.AnswersOfAppend | howto/src/lib.rs:132-133 | the stream of two link lists is the first list's answers followed by the second's |
| Howto.AnswersOfSingleton | howto/src/lib.rs:133 | one link yields its answer, or nothing when extraction fails |
| Howto.FailedLinkIsDropped | howto/src/lib.rs:132-134 | a failed link is dropped without affecting the links before or after it; a successful one contributes its answer in its place |
| Howto.Howto | howto/src/lib.rs:128-135 | at most one answer per harvested link, each the successful extraction of a harvested link; `FailedLinkIsDropped` fixes the order and the dropping, `PrefetchHowto` its equality with the prefetch stream |
| Howto.HowtoOfFailedSearch | howto/src/lib.rs:130-134 | a failed search yields an empty stream, not an error |
| Howto.HowtoAnswersComeFromStackOverflow | howto/src/lib.rs:129-135 | every answer `howto` yields has a harvested StackOverflow link and is that link's extraction |
| Howto.Outcomes | howto/src/lib.rs:147-150 | the futures pushed into the `FuturesOrdered`: one outcome per prefetched link, in link order, the i-th being link i's per-link step (`SuccessesOfOutcomes` relates them to `howto`) |
| Howto.Successes | howto/src/lib.rs:151 | `filter_map(future::ready)` keeps only present values, never more than it is given |
| Howto.SuccessesOfOutcomes | howto/src/lib.rs:147-153 | keeping the successful per-link outcomes in push order is the same stream as `howto`'s `filter_map` |
| Howto.PrefetchSplit | howto/src/lib.rs:141-145 | prefetch window followed by the others is the harvested list; the others are empty when there are fewer than `n` links, and the window has `n` links otherwise |
| Howto.PrefetchHowto | howto/src/lib.rs:138-156 | for every completion order of the prefetched futures, the stream equals `howto`'s for the same pages |
| Ordered.Deliver | howto/src/lib.rs:147-151 | whatever order the pushed futures complete in, their outputs are delivered exactly in push order |
| Strings.ConcatFlatten | howto/src/lib.rs:116-118 | joining flattened text nodes equals joining each element's text, element after element |
| Strings.ConcatIsJoinWithEmpty | howto/src/lib.rs:105 | `join("")` is `join` with the empty separator |
| Strings.ConcatAppend | howto/src/lib.rs:113-118 | joining with `""` turns sequence concatenation into string concatenation |
| Strings.JoinWithEmptyIff | howto-cli/src/main.rs:83-84 | a non-empty list joined with a space is empty exactly when it is one empty string |
| HowtoCli.OptOrDefault | howto-cli/src/main.rs:74-81 | an absent option takes the default, a given one its value, and an unparsable one bails out |
| HowtoCli.ShowOptionFor | howto-cli/src/main.rs:92-97 | no show option exactly when both `-l` and `-a` are given; CodeOnly, LinkOnly and FullText exactly for their rows of the flag table |
| HowtoCli.GetConfigFromArgs | howto-cli/src/main.rs:64-104 | help when parsing fails, with no free argument or with `--help`; the version exactly when those pass and `--version` is set; a configuration exactly when every guard passes, carrying the space-joined non-empty query, position and count of at least one (default 1) and the show option of the flag table |
| HowtoCli.VersionNeedsQueryAndNoHelp | howto-cli/src/main.rs:66-72 | `--version` without a query gives the help message, `--help` beats `--version`, and otherwise `--version` gives the version |
| HowtoCli.EmptyQueryOnlyFromOneEmptyArgument | howto-cli/src/main.rs:83-84 | the empty-query guard refuses exactly the single empty free argument |
| HowtoCli.PositionAndCountDefaultToOne | howto-cli/src/main.rs:86-90 | without `--pos` and `--num-answers` the configuration has position 1 and count 1 |
| HowtoCli.ShowOptionTable | howto-cli/src/main.rs:92-97 | neither flag gives CodeOnly, `-l` LinkOnly, `-a` FullText, and both are refused |
| HowtoCli.RenderItem | howto-cli/src/main.rs:120-136 | an error is one stderr line; LinkOnly prints the link; CodeOnly and FullText print the header only when more than one answer is wanted, then the instruction or full text and a blank line |
| HowtoCli.RenderAll | howto-cli/src/main.rs:120-137 | each item prints one or two lines; `RenderAllAppend`, `ErrorDoesNotStopIteration` and the two mode lemmas fix the lines |
| HowtoCli.RenderAllAppend | howto-cli/src/main.rs:120 | the output of two item lists is the first's output followed by the second's |
| HowtoCli.ErrorDoesNotStopIteration | howto-cli/src/main.rs:120-121 | an error item prints one stderr line and the items after it are printed as before |
| HowtoCli.LinkModePrintsOneLinePerItem | howto-cli/src/main.rs:121-129 | in link mode the k-th line is the k-th item's link or error |
| HowtoCli.SingleAnswerHasNoHeader | howto-cli/src/main.rs:123-135 | with one answer requested each item prints exactly one line, the first (and only) line of its rendering, so no header appears |
| HowtoCli.Window | howto-cli/src/main.rs:117-119 | `skip(position-1).take(num_answers)` is the item run starting at `position-1`, `num_answers` long or cut short by the end of the stream |
| HowtoCli.PrintAnswers | howto-cli/src/main.rs:117-137 | the output is the lines of the selected window's items, item after item |
| HowtoCli.RunMain | howto-cli/src/main.rs:107-137 | a refused configuration prints only its message to stderr; an accepted one prints the selected answers for its query |

## Left out

- The HTTP function `get` (`howto/src/lib.rs:41-59`: the user-agent header, the status check, the body read) is the `Fetcher` parameter; its failures are one `RequestFailed` error whose message text is not modelled.
- URL parsing inside `get` (`surf::get`, lib.rs:42) is not modelled: the search URL is modelled as a string, and the query Google receives can differ from it (a `#` starts a fragment that is not sent, `&` separates parameters and `+` reads as a space).
- HTML parsing and CSS selector matching (`scraper`, `lazy_static`) are foreign library code; the `Fetcher` returns their results as ordered lists of matched elements.
- The `Fetcher` is a function of the URL: a link that the search lists twice is assumed to give the same page both times.
- Asynchrony and concurrency: when futures are launched, the trickle of the links after the prefetch window, laziness, and cancellation when the stream is dropped. Only the order of delivery is modelled (`Ordered.Deliver`, with the completion order as a parameter).
- `getopts` is not modelled: its outcome (free arguments, flags, option values) is the `ParseOutcome` input, and values beyond `usize` are among the `Unparsable` ones. The program name `args[0]` (and its panic on an empty argument list) is unused by the model.
- The help text (`help_message`) and `CARGO_PKG_VERSION` are the `helpText` and `versionText` parameters of `HowtoCli.RunMain`.
- Printing is not performed: the programs' output is a sequence of stdout/stderr lines.
- The answer stream `main` consumes is the `answersFor` parameter, because `main.rs` as written does not connect to `howto`'s stream type.
- `howto/src/tests.rs` runs live network queries and a timing test; nothing in it is sequential logic.
