# arxiv-automation, modelled in Dafny

arxiv-automation is a daily pipeline. It finds newly published papers on
mechanistic interpretability on arXiv and skips the papers it has already
seen. It has a language model summarise each new paper's PDF into four tagged
sections, and it mails a digest of the papers as HTML and plain text.

This project models the three core modules of that pipeline:

- `modules/arxiv.py` is the arXiv client. Its model is `papers.dfy`,
  `query.dfy`, `discovery.dfy` and `arxiv.dfy`:
  - the `seen_papers` map that the client updates in place;
  - the paginated interpretability search, with its stopping rule of three
    consecutive stale pages;
  - the general search and the query string it builds;
  - the conversion of a search result to a `PaperData` record.
- `modules/summarizer.py` is the summariser. Its model is `summarizer.dfy`:
  - extraction of the four tagged sections, with the parsed-XML tier and the
    regular-expression fallback;
  - their HTML rendering;
  - the request-size check;
  - the retry loop with exponential backoff;
  - the batch pass with its paper cache.
- `modules/email_sender.py` renders the e-mail bodies. Its model is
  `email_sender.dfy`: HTML escaping of text and of link targets, and the
  plain-text and HTML renderings of a list of papers.
- `common.dfy` holds shared string functions: Python truthiness,
  `str.join`, `str.strip` and case-insensitive matching.

The model follows the source's form:

- `ArxivClient` and `PaperSummarizer` are classes whose methods update their
  fields, the seen map and the cache. Each method is proved against a
  specification function:
  - `Discover` for the paginated loop;
  - `PageYield` for the scan of one page;
  - `Retry` for the retry loop;
  - `CachedHits`, `Pending`, `Completed` and `Saved` for the batch pass.
- The properties the source promises are proved about those functions as
  lemmas. For example, `DiscoverSpec` proves the following of every
  discovery call:
  - no paper seen before is returned, and no paper is returned twice;
  - the limit is respected;
  - the stop reason is the right one;
  - the pages were requested at consecutive offsets, with a pause after every
    page but the last;
  - three stale pages in a row happen only at the end;
  - each logged page is what the feed answered for its offset, and its new
    papers are the ones the scan takes from that answer.
- The e-mail renderings are loops that append to a string. They are proved
  equal to functions that say what each paper contributes. Lemmas then show
  what the escaping guarantees:
  - escaped text round-trips through decoding;
  - escaped text holds no markup characters;
  - a paper's text cannot change the number of markup characters in the
    document.

The outside world is replaced by arguments:

- The arXiv library is an oracle: a function from a page request to its
  results or to an error, and for the general search a function from the
  query to the results the stream yields and whether it then raises.
- The language-model client is an oracle: the reply to each attempt of each
  task.
- ElementTree is an oracle: what parsing the wrapped response gives.
- The clock is the `now` argument.
- The order in which the summarisation tasks complete is the `order`
  argument.
- `seen_papers.json` is the constructor's `stored` argument.

Some behaviours of the code that the model reproduces:

- `_summarize_with_retry` catches every exception, so a prompt refused for
  its size is retried like any other failure. See `RetrySpec` and
  `PromptSizeCheck`.
- `search` appends a paper before it compares the count with `max_results`.
  So `max_results <= 0` still returns one new paper, when there is one.
  See `Arxiv.ArxivClient.Search` and `SearchBounds`.
- `search_interpretability_papers` prints a progress message that divides
  the offset by `request_size` before the `try` block. A `request_size` of
  zero therefore raises on the first iteration, and nothing is marked as
  seen. See `Arxiv.ArxivClient.SearchInterpretabilityPapers`.
- `search` does not catch an exception raised by the result stream. The
  call then ends before any paper is marked as seen.
- `_summarize_with_retry` with a negative `max_retries` makes no attempt
  and returns `None` (`RetrySpec`). The batch pass always uses the default
  of two retries, so it never takes that path: every paper it collects
  carries a summary (`BatchSummarized`).

## Model

| member | source | states |
|---|---|---|
| Common.JoinContains | modules/arxiv.py:186 | every item of a `sep.join` occurs in the joined string |
| Common.StripLeftSpec | modules/summarizer.py:26 | stripping the left end removes exactly the leading whitespace: the result is a suffix, everything cut off is whitespace, and the result does not start with whitespace |
| Common.StripRightSpec | modules/summarizer.py:26 | stripping the right end removes exactly the trailing whitespace: the result is a prefix, everything cut off is whitespace, and the result does not end with whitespace |
| Common.StripSpec | modules/summarizer.py:34 | `str.strip` gives a contiguous slice of its input, with only whitespace before and after the slice, and the slice neither starts nor ends with whitespace |
| Common.MatchesAtSpec | modules/summarizer.py:32 | the pattern matches at index `i` under `re.IGNORECASE` exactly when it fits in the text there and every character agrees after case folding |
| Common.FindFrom | modules/summarizer.py:32 | the result is the leftmost index at or after `from` where the pattern matches, or none when it matches nowhere from there |
| Papers.LastSlashSpec | modules/arxiv.py:295 | the index found holds a slash and no slash follows it |
| Papers.LastSegmentSpec | modules/arxiv.py:295 | `split('/')[-1]` is the suffix after the last slash: it holds no slash, and it is the whole string or is preceded by a slash |
| Papers.SecureUrlSpec | modules/arxiv.py:299-300 | the rewritten link never starts with `http:`; an `http:` link becomes `https:` followed by the same rest; any other link is unchanged |
| Papers.SecureUrlIdempotent | modules/arxiv.py:299-300 | rewriting a rewritten link changes nothing |
| Papers.ConvertResultSpec | modules/arxiv.py:284-322 | the id is the last segment of the entry id and the URL is the entry id; the PDF link is always set and never insecure; a link from the result is passed through the `http:` rewrite, so a secure link from the result is kept, and a missing one defaults to the arXiv PDF path of the id; there is no summary yet; authors and keywords are those of the result |
| Query.CategoryPart | modules/arxiv.py:184-190 | the category part exists exactly for a non-empty category list; it is non-empty and is parenthesised exactly when there are several categories |
| Query.TermsPart | modules/arxiv.py:193-207 | the terms part exists exactly for truthy search terms; it is non-empty and is parenthesised for a list of terms |
| Query.BuildQuery | modules/arxiv.py:209-210 | the query is the category part and the terms part joined by ` AND `, or whichever of them exists alone |
| Query.QueryEmptyIff | modules/arxiv.py:210 | the query is empty exactly when there are neither categories nor truthy search terms |
| Query.QueryMentionsEveryCategory | modules/arxiv.py:184-210 | every requested category appears in the query as `cat:X` |
| Query.QueryMentionsEveryTerm | modules/arxiv.py:193-210 | every term of a search-term list appears in the query in its quoted or bare form |
| Query.QueryMentionsSingleTerm | modules/arxiv.py:203-210 | a single non-empty search term appears in the query, quoted when it contains a space |
| Discovery.PageYieldSpec | modules/arxiv.py:122-140 | a page contributes at most `room` papers and at most the page's length; none of them is excluded; their ids are distinct; each comes from the page; and when fewer than `room` are taken, every paper on the page whose id is not excluded is taken |
| Discovery.PageYieldFirstNew | modules/arxiv.py:122-140 | the papers a page contributes are its new papers (id neither excluded nor on an earlier paper of the page) in page order: all of them when there are at most `room`, otherwise the first `room` |
| Discovery.PageStep | modules/arxiv.py:97-159 | every page request that does not end the call lowers the budget of further requests, so the loop terminates |
| Discovery.ListingAdvance | modules/arxiv.py:120-155 | a page that lists results moves the loop to the state with that page's new papers, stale count, next offset and log entry, and leaves the call's final outcome unchanged |
| Discovery.StepPapers | modules/arxiv.py:122-140 | each page request keeps the papers new, distinct and within the limit, and keeps the run's id set equal to their ids |
| Discovery.StepLog | modules/arxiv.py:97-159 | each page request keeps the log consistent: offsets are multiples of the page size, the papers are the pages' new papers in order, and the loop pauses exactly when it will request again |
| Discovery.StepStale | modules/arxiv.py:142-147 | each page request keeps the stale counter equal to the number of trailing pages without a new paper |
| Discovery.StepFeed | modules/arxiv.py:110-159 | each page request logs the feed's answer for the current offset: an error, an empty page, or results whose new papers are the ones the scan takes after the papers found so far |
| Discovery.StalePageAllSeen | modules/arxiv.py:120-144 | a page counted as stale listed only papers already in the seen map or found earlier in the call |
| Discovery.DiscoverFromFeed | modules/arxiv.py:97-159 | from any state whose log follows the feed, the finished call's log follows the feed |
| Discovery.DiscoverFromOk | modules/arxiv.py:97-159 | from any state satisfying the loop invariant, the finished call satisfies every guarantee on papers, log and stale pages |
| Discovery.DiscoverSpec | modules/arxiv.py:72-166 | a discovery call returns only unseen papers with distinct ids; it returns at most `max_results` of them and stops for enough papers exactly when it reaches that; its papers are the listed pages' new papers, requested at offsets 0, size, 2·size, …; it pauses after every listed page but the last; it ends on an empty page or an error exactly when its stop reason says so; three stale pages in a row occur only as the last three, when it stops for stale pages; and each logged page is what the feed answered for its offset (an error, an empty page, or results), its new papers being exactly those the scan takes from those results after the earlier pages' papers |
| Discovery.DiscoverNothingWanted | modules/arxiv.py:97 | with `max_results <= 0` no request is made and nothing is returned |
| Discovery.DiscoverAgainFindsNothing | modules/arxiv.py:126-128 | once a call's papers are added to the seen set, a second call over the same feed returns no paper with any of their ids |
| Arxiv.TakeNewPapers | modules/arxiv.py:122-140 | the scan of one page appends exactly the page's new papers (`PageYield`) to the found list and adds their ids to the run's set |
| Arxiv.ListingIteration | modules/arxiv.py:120-155 | one iteration over a listed page yields exactly the loop state `Advance` specifies: the found papers, the run's ids, the stale counter, the offset and the log entry with its pause |
| Arxiv.ArxivClient.constructor | modules/arxiv.py:30-49 | the seen map is the stored one, or empty when none could be read |
| Arxiv.ArxivClient.MarkPapersAsSeen | modules/arxiv.py:59-70 | every truthy paper's id now maps to the current time; other entries keep their value; no other key is added |
| Arxiv.ArxivClient.SearchInterpretabilityPapers | modules/arxiv.py:72-166 | the call fails exactly when the page size is zero and papers are wanted (the progress message divides by the page size before any request), and then marks nothing; otherwise the returned papers and the page log are those of `Discover` over the seen map at entry, and exactly their ids are then marked seen at the current time |
| Arxiv.ArxivClient.Search | modules/arxiv.py:168-250 | the returned papers are the new papers of the result stream for `BuildQuery`, taken in order up to the limit, and exactly their ids are then marked seen; when the stream raises before the limit is reached, the call fails and the seen map is unchanged |
| Arxiv.SearchBounds | modules/arxiv.py:229-245 | the general search returns at most `max_results` papers (one when that is not positive); none was seen before; their ids are distinct; each converts a streamed result; and when fewer than the limit come back, every unseen result is among them |
| Summarizer.FoundPairIsFirst | modules/summarizer.py:31-32 | the opening tag's first occurrence and the first closing tag after it form the one match `re.search` reports for the lazy pattern |
| Summarizer.MissingTagNoPair | modules/summarizer.py:32-33 | when either tag is not found, the pattern matches nowhere |
| Summarizer.RegexTagFinds | modules/summarizer.py:30-34 | the fallback finds a value exactly when the pattern matches somewhere |
| Summarizer.RegexTagValue | modules/summarizer.py:33-34 | the fallback's value is the stripped body of the match `re.search` reports |
| Summarizer.ExtractXmlContent | modules/summarizer.py:13-36 | starting from all `None`, the loop fills in exactly the value each tag gets from the parsed document, or from the regex fallback on a parse error |
| Summarizer.Present | modules/summarizer.py:51-52 | the kept entries are entries of the dict with a truthy value, and there are no more of them than entries |
| Summarizer.PresentConcat | modules/summarizer.py:51-52 | the filter distributes over concatenation, so it keeps the dict's order |
| Summarizer.PresentComplete | modules/summarizer.py:51-54 | every entry with a truthy value is kept |
| Summarizer.RenderedShape | modules/summarizer.py:51-54 | entry `k` becomes line `2k`, its capitalised heading, and line `2k+1`, its paragraph, with no other lines |
| Summarizer.FormatSummaryHtml | modules/summarizer.py:39-56 | the HTML is the heading and paragraph lines of the truthy entries, in order, joined by newlines |
| Summarizer.SummaryHtmlEmptyIff | modules/summarizer.py:49-56 | the HTML is empty exactly when no entry has a truthy value |
| Summarizer.Utf8LengthBounds | modules/summarizer.py:110 | a string's UTF-8 length lies between its length and four times its length |
| Summarizer.PromptSizeCheck | modules/summarizer.py:109-111 | a prompt longer than 32,000,000 characters is always refused before any request; one of at most 8,000,000 characters never is |
| Summarizer.RetryFromSpec | modules/summarizer.py:125-131 | from any attempt in range, the outcome is the first later success, or, when every remaining attempt fails, the last attempt's error; it is never `None` |
| Summarizer.RetrySpec | modules/summarizer.py:123-131 | at most `max_retries + 1` attempts; the result is the first success, or the last error when all attempts fail; `None` exactly when `max_retries` is negative |
| Summarizer.PendingSpec | modules/summarizer.py:148-161 | a paper is queued for summarising exactly when it is not a cache hit and has a truthy PDF URL |
| Summarizer.CachedHitsSpec | modules/summarizer.py:148-161 | every paper taken from the cache is a hit's cached copy with a truthy summary; hits and queued papers together are no more than the input |
| Summarizer.CachedHitsComplete | modules/summarizer.py:148-155 | every input paper that is a cache hit has its cached copy among the papers taken from the cache |
| Summarizer.CompletedFromTasks | modules/summarizer.py:171-183 | each collected paper comes from a completed task that did not raise, carrying that task's result; there are no more of them than completions |
| Summarizer.CompletedKeepsSuccesses | modules/summarizer.py:171-183 | every task that completes without raising contributes its paper |
| Summarizer.CompletedSummarized | modules/summarizer.py:171-183 | when no task returned `None`, every collected paper carries a summary |
| Summarizer.SummarizeBound | modules/summarizer.py:133-185 | the batch returns no more papers than it was given |
| Summarizer.SavedSpec | modules/summarizer.py:178-180 | saving adds exactly the saved papers' ids to the cache, each mapped to a saved paper with that id, and leaves every other entry unchanged |
| Summarizer.PaperSummarizer.constructor | modules/summarizer.py:64-66 | the summariser holds the given prompt, parser and cache |
| Summarizer.PaperSummarizer.SummarizePaper | modules/summarizer.py:96-121 | the result is `PaperSummary` of the reply; the request is sent exactly when the prompt's UTF-8 length is within 32 MB, and otherwise the call fails with the size error |
| Summarizer.PaperSummarizer.SummarizeWithRetry | modules/summarizer.py:123-131 | the result is `Retry` of the replies; the backoff delays are 1, 2, 4, …, one before each retry and at most `max_retries` of them; every attempt followed by a delay failed; a success is the result of the attempt after the last delay; a raise comes after all `max_retries` delays (each attempt goes through the helper `Attempt`, which only passes on `SummarizePaper`'s result) |
| Summarizer.PaperSummarizer.CheckCache | modules/summarizer.py:147-161 | the first pass returns the cache hits' copies and the queued papers, in input order |
| Summarizer.PaperSummarizer.RecordOutcome | modules/summarizer.py:172-183 | a completed task appends its paper with the summary, or nothing when it raised, and saves that paper to the cache |
| Summarizer.PaperSummarizer.CollectResults | modules/summarizer.py:163-183 | the second pass appends the completed papers in completion order and saves each of them to the cache |
| Summarizer.PaperSummarizer.BatchSummarized | modules/summarizer.py:163-183 | with the default two retries no task returns `None`, so every paper the batch collects carries a summary |
| Summarizer.PaperSummarizer.SummarizePapers | modules/summarizer.py:133-185 | the batch returns the cached copies followed by the completed papers in completion order, and the cache afterwards holds exactly the completed papers saved over the old cache |
| EmailSender.EscapeIsReplacing | modules/email_sender.py:25 | escaping character by character equals `html.escape`'s chain of five replacements, `&` first |
| EmailSender.EscapeNoMarkup | modules/email_sender.py:25 | escaped text contains no raw `<`, `>`, `"` or `'` |
| EmailSender.EscapeRoundTrip | modules/email_sender.py:25 | decoding the five entities gives the escaped text back unchanged |
| EmailSender.EscapeHtmlSpec | modules/email_sender.py:23-25 | `_escape_html` is empty exactly for `None` and `""`; otherwise it holds no markup and decodes to the original |
| EmailSender.EscapeUrlSpec | modules/email_sender.py:27-37 | the result never contains a `"` that could close the `href` attribute; it is `#` exactly when the URL is not an arXiv one; an arXiv URL decodes back to itself (the first two clauses only name the two branches of `EscapeUrl`) |
| EmailSender.EscapeUrlMarkup | modules/email_sender.py:36-37 | the link target contains no markup characters |
| EmailSender.PlainLinesLayout | modules/email_sender.py:106-112 | a paper's plain-text block has Title first and Summary and URL last; it has an Authors line exactly when the authors are non-empty, and a Published line exactly when the date is truthy |
| EmailSender.AppendPlainBlock | modules/email_sender.py:105-112 | the loop body appends exactly the paper's plain-text block |
| EmailSender.CreatePlainTextContent | modules/email_sender.py:94-114 | the text is the header followed by each paper's block in turn |
| EmailSender.PlainTextOrder | modules/email_sender.py:104-114 | the text starts with the header, and paper `k`'s block sits right after the header and the blocks before it |
| EmailSender.AppendKeywords | modules/email_sender.py:80-84 | the keywords loop appends the keywords div: the opening tag, one span per keyword in order, the closing tag |
| EmailSender.AppendHtmlBlock | modules/email_sender.py:61-86 | the loop body appends exactly the paper's div, with the optional parts present exactly when the source writes them |
| EmailSender.AppendHtmlBlocks | modules/email_sender.py:60-86 | the loop over papers appends each paper's div in turn |
| EmailSender.CreateHtmlContent | modules/email_sender.py:39-92 | the document is the head with the style sheet, each paper's div in turn, and the foot |
| EmailSender.DocumentOrder | modules/email_sender.py:41-91 | the document starts with its head and ends with its foot, and paper `k`'s div sits right after the head and the divs of the papers before it |
| EmailSender.KeywordsDivMarkup | modules/email_sender.py:80-84 | keyword lists of equal length give keyword divs with the same number of markup characters, whatever the keywords say |
| EmailSender.HtmlBlockMarkup | modules/email_sender.py:61-86 | two papers with the same optional parts and the same number of keywords give divs with the same number of markup characters, whatever their text |
| EmailSender.HtmlBlocksMarkup | modules/email_sender.py:60-86 | lists of papers of the same shapes give the same number of markup characters over all their divs |
| EmailSender.DocumentMarkup | modules/email_sender.py:39-92 | documents over lists of papers of the same shapes have the same number of markup characters: no paper text can open or close a tag |

## Left out

- Network access is not modelled. The arXiv library and the Anthropic client are oracles passed as arguments, and the model does not check the request parameters of the sort order or of `max_tokens_to_sample`.
- Reading and writing `seen_papers.json` is not modelled. The stored map is a constructor argument; `_save_seen_papers` and its I/O warning are not modelled.
- `datetime.now()` is the `now` argument, and `time.sleep` is a ghost flag or delay list that records each pause.
- Printing, logging and the `tqdm` progress bar are not modelled.
- The thread pool is replaced by a completion order given as an argument. `Summarizer.PaperSummarizer.SummarizePapers` requires that order to be a permutation of the tasks. The model does not capture concurrent interleavings, and `max_workers` has no effect on the results.
- The in-place update `paper.summary = summary` and the aliasing it creates between the input list and the returned list are not modelled. The returned paper is a copy with the summary set.
- ElementTree parsing is an oracle. It returns the text of the first element of each tag, or a parse error.
- `Summarizer.Capitalize` models `str.capitalize` on ASCII only. The four tags it is applied to are ASCII.
- `EmailSender.EscapeRoundTrip`: decoding covers only the five entities `html.escape` produces, not all of `html.unescape`.
- The prompt text of `_generate_summary_prompt` is a constructor argument and is not reproduced. `MAX_REQ_PAGES` is never used by the source and is not modelled.
- `Discovery.ConvertAll`: a page is converted as a whole before it is scanned. The source converts each result only after finding it new. Conversion has no effects and yields the same id, so the same papers come out. An exception raised during conversion is not modelled.
- `Arxiv.ArxivClient.Search`: the stream is the oracle's results and a flag telling whether it raises after the last one; a stream that fails part-way is one whose results end there. The library's own cap of 100 results is not modelled.
- `EmailSender.DocumentOrder` and `EmailSender.DocumentMarkup` are stated for any head and foot. `HtmlContent` is the instance with the style-sheet head and the closing foot.
- `get_paper_by_id` and `get_pdf_url` are not modelled. They are single lookups through the arXiv library, which is an oracle here.
- `send_email` is not modelled. It calls SendGrid, and `MAX_EMAIL_SIZE` and the `api_key` and `sender_email` fields serve only that call.
- Configuration, scheduling and the entry points (`config.py`, `app.py`, `run_once.py`) are not modelled.
