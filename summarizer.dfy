/**
 * The summariser (modules/summarizer.py): extraction of the four tagged
 * sections from a model response, their HTML rendering, the request-size
 * check, the retry loop and the batch pass over a list of papers.
 *
 * ElementTree is not modelled: what parsing `<root>` + response + `</root>`
 * gives is an oracle, either a parse error or, for each tag it finds, the
 * text of the first element with that name. The regular-expression fallback
 * is modelled concretely. The language-model client is an oracle too: the
 * reply to each request is an argument.
 */
module Summarizer {
  import opened Common
  import opened Papers

  /** The four sections asked for, in the order the results dict holds them. */
  const Tags: seq<string> := ["summary", "methods", "contributions", "limitations"]

  /** What XML parsing of the wrapped response gave: the text of the first
      element of each tag name that has text, or a parse error. */
  datatype XmlParse = Parsed(texts: map<string, string>) | ParseError

  /** One entry of a results dict, in the dict's order. */
  datatype Field = Field(tag: string, content: Option<string>)

  /** The response wrapped in a root element, as handed to the XML parser. */
  function Wrap(text: string): string
  {
    "<root>" + text + "</root>"
  }

  function OpenTag(tag: string): string
  {
    "<" + tag + ">"
  }

  function CloseTag(tag: string): string
  {
    "</" + tag + ">"
  }

  /** `<tag>(.*?)</tag>` matches `text` from index `i` with its closing tag at
      `j`: with `re.DOTALL` the body may hold anything, newlines included. */
  ghost predicate TagPair(text: string, tag: string, i: int, j: int)
  {
    MatchesAt(text, i, OpenTag(tag)) && i + |OpenTag(tag)| <= j && MatchesAt(text, j, CloseTag(tag))
  }

  /** The match `re.search` reports: the leftmost start at which the pattern
      matches at all, and there the shortest body, since `.*?` is lazy. */
  ghost predicate FirstTagPair(text: string, tag: string, i: int, j: int)
  {
    && TagPair(text, tag, i, j)
    && (forall i', j' :: 0 <= i' < i ==> !TagPair(text, tag, i', j'))
    && (forall j' :: j' < j ==> !TagPair(text, tag, i, j'))
  }

  /** The regular-expression fallback for one tag: the stripped text between
      the leftmost opening tag and the first closing tag after it. */
  function RegexTag(text: string, tag: string): Option<string>
  {
    match FindFrom(text, OpenTag(tag), 0)
    case None => None
    case Some(i) =>
      match FindFrom(text, CloseTag(tag), i + |OpenTag(tag)|)
      case None => None
      case Some(j) => Some(Strip(text[i + |OpenTag(tag)|..j]))
  }

  /** When the opening tag is found at `i` and the closing tag first after
      it at `j`, the pair `(i, j)` is the one and only match `re.search` reports. */
  lemma FoundPairIsFirst(text: string, tag: string, i: nat, j: nat)
    requires FindFrom(text, OpenTag(tag), 0) == Some(i)
    requires FindFrom(text, CloseTag(tag), i + |OpenTag(tag)|) == Some(j)
    ensures FirstTagPair(text, tag, i, j)
    ensures forall i1, j1 :: FirstTagPair(text, tag, i1, j1) ==> i1 == i && j1 == j
  {
    assert TagPair(text, tag, i, j);
    forall i1, j1 | FirstTagPair(text, tag, i1, j1)
      ensures i1 == i && j1 == j
    {
      assert i <= i1 && !(i < i1);
    }
  }

  /** Without an opening tag, or without a closing tag after the leftmost
      opening tag, the pattern matches nowhere. */
  lemma MissingTagNoPair(text: string, tag: string)
    requires FindFrom(text, OpenTag(tag), 0).None?
      || FindFrom(text, CloseTag(tag), FindFrom(text, OpenTag(tag), 0).value + |OpenTag(tag)|).None?
    ensures forall i, j :: !TagPair(text, tag, i, j)
  {
    var open := OpenTag(tag);
    if FindFrom(text, open, 0).Some? {
      var i := FindFrom(text, open, 0).value;
      forall i', j' ensures !TagPair(text, tag, i', j') {
        if i <= i' {
          assert !MatchesAt(text, j', CloseTag(tag)) || j' < i' + |open|;
        }
      }
    }
  }

  /** The fallback finds a tag exactly when the pattern matches somewhere,
      and then at the match `re.search` reports. */
  lemma RegexTagFinds(text: string, tag: string)
    ensures RegexTag(text, tag).None? <==> forall i, j :: !TagPair(text, tag, i, j)
    ensures RegexTag(text, tag).Some? ==> exists i, j :: FirstTagPair(text, tag, i, j)
  {
    var open := OpenTag(tag);
    match FindFrom(text, open, 0)
    case None =>
      MissingTagNoPair(text, tag);
    case Some(i) =>
      match FindFrom(text, CloseTag(tag), i + |open|)
      case None =>
        MissingTagNoPair(text, tag);
      case Some(j) =>
        FoundPairIsFirst(text, tag, i, j);
  }

  /** The fallback's value is the stripped body of the match `re.search`
      reports, newlines included. */
  lemma RegexTagValue(text: string, tag: string, i: int, j: int)
    requires FirstTagPair(text, tag, i, j)
    ensures RegexTag(text, tag) == Some(Strip(text[i + |OpenTag(tag)|..j]))
  {
    var open := OpenTag(tag);
    match FindFrom(text, open, 0)
    case None =>
      MissingTagNoPair(text, tag);
      assert false;
    case Some(i0) =>
      match FindFrom(text, CloseTag(tag), i0 + |open|)
      case None =>
        MissingTagNoPair(text, tag);
        assert false;
      case Some(j0) =>
        FoundPairIsFirst(text, tag, i0, j0);
  }

  /** The value `extract_xml_content` gives one tag: from a parsed document,
      the stripped element text when the element has non-empty text; after a
      parse error, the regular-expression fallback. */
  function TagContent(text: string, parsed: XmlParse, tag: string): Option<string>
  {
    match parsed
    case Parsed(texts) => if tag in texts && texts[tag] != "" then Some(Strip(texts[tag])) else None
    case ParseError => RegexTag(text, tag)
  }

  /** The results dict for a response: the four tags in order, each with its value. */
  function Extracted(text: string, parsed: XmlParse): (r: seq<Field>)
    ensures |r| == |Tags|
    ensures forall k :: 0 <= k < |Tags| ==> r[k] == Field(Tags[k], TagContent(text, parsed, Tags[k]))
  {
    seq(|Tags|, k requires 0 <= k < |Tags| => Field(Tags[k], TagContent(text, parsed, Tags[k])))
  }

  /** `extract_xml_content`: every tag starts at `None` and is filled in from
      the parsed document or, on a parse error, from the fallback. */
  method ExtractXmlContent(text: string, parse: string -> XmlParse) returns (results: seq<Field>)
    ensures |results| == |Tags| && forall k :: 0 <= k < |Tags| ==> results[k].tag == Tags[k]
    ensures results == Extracted(text, parse(Wrap(text)))
  {
    results := seq(|Tags|, k requires 0 <= k < |Tags| => Field(Tags[k], None));
    var parsed := parse(Wrap(text));
    for k := 0 to |Tags|
      invariant |results| == |Tags|
      invariant forall m :: 0 <= m < k ==> results[m] == Field(Tags[m], TagContent(text, parsed, Tags[m]))
      invariant forall m :: k <= m < |Tags| ==> results[m] == Field(Tags[m], None)
    {
      var tag := Tags[k];
      match parsed {
        case Parsed(texts) =>
          if tag in texts && texts[tag] != "" {
            results := results[k := Field(tag, Some(Strip(texts[tag])))];
          }
        case ParseError =>
          var found := RegexTag(text, tag);
          if found.Some? {
            results := results[k := Field(tag, Some(found.value))];
          }
      }
    }
  }

  /** `str.capitalize()` for ASCII: the first character upper-cased, the rest
      lower-cased. */
  function Capitalize(s: string): (r: string)
  {
    if s == [] then [] else [UpperAscii(s[0])] + LowerAll(s[1..])
  }

  function LowerAll(s: string): string
  {
    if s == [] then [] else [LowerAscii(s[0])] + LowerAll(s[1..])
  }

  function Heading(tag: string): string
  {
    "<h3>" + Capitalize(tag) + "</h3>"
  }

  function Paragraph(content: string): string
  {
    "<p>" + content + "</p>"
  }

  function ContentText(f: Field): string
  {
    if f.content.Some? then f.content.value else ""
  }

  /** The entries with a truthy value (neither `None` nor `""`), in order. */
  function Present(fields: seq<Field>): (r: seq<Field>)
    ensures |r| <= |fields|
    ensures forall f :: f in r ==> f in fields && Truthy(f.content)
  {
    if fields == [] then []
    else
      var last := fields[|fields| - 1];
      Present(fields[..|fields| - 1]) + (if Truthy(last.content) then [last] else [])
  }

  /** Filtering distributes over concatenation, so `Present` keeps every
      truthy entry in its original order and nothing else. */
  lemma {:induction false} PresentConcat(a: seq<Field>, b: seq<Field>)
    ensures Present(a + b) == Present(a) + Present(b)
    decreases |b|
  {
    if b == [] {
      assert a + b == a;
    } else {
      var last := b[|b| - 1];
      var init := b[..|b| - 1];
      var tail := if Truthy(last.content) then [last] else [];
      assert (a + b)[..|a + b| - 1] == a + init && (a + b)[|a + b| - 1] == last;
      PresentConcat(a, init);
      assert Present(a + b) == Present(a + init) + tail;
      assert Present(b) == Present(init) + tail;
      assert (Present(a) + Present(init)) + tail == Present(a) + (Present(init) + tail);
    }
  }

  lemma PresentOne(f: Field)
    ensures Present([f]) == if Truthy(f.content) then [f] else []
  {
    assert [f][..0] == [];
  }

  /** Every truthy entry of the dict is among the present ones. */
  lemma {:induction false} PresentComplete(fields: seq<Field>, k: nat)
    requires k < |fields| && Truthy(fields[k].content)
    ensures fields[k] in Present(fields)
  {
    assert fields == fields[..k] + [fields[k]] + fields[k + 1..];
    PresentConcat(fields[..k] + [fields[k]], fields[k + 1..]);
    PresentConcat(fields[..k], [fields[k]]);
    PresentOne(fields[k]);
  }

  /** The lines of the HTML: a heading line and a paragraph line per entry. */
  function Rendered(fields: seq<Field>): seq<string>
  {
    if fields == [] then []
    else
      var last := fields[|fields| - 1];
      Rendered(fields[..|fields| - 1]) + [Heading(last.tag), Paragraph(ContentText(last))]
  }

  /** Entry `k` becomes lines `2k` (its capitalised heading) and `2k + 1` (its
      paragraph), and there are no other lines. */
  lemma {:induction false} RenderedShape(fields: seq<Field>)
    ensures |Rendered(fields)| == 2 * |fields|
    ensures forall k :: 0 <= k < |fields| ==>
      Rendered(fields)[2 * k] == Heading(fields[k].tag)
      && Rendered(fields)[2 * k + 1] == Paragraph(ContentText(fields[k]))
  {
    if fields != [] {
      var prefix := fields[..|fields| - 1];
      var last := fields[|fields| - 1];
      RenderedShape(prefix);
      var lines := Rendered(fields);
      assert lines == Rendered(prefix) + [Heading(last.tag), Paragraph(ContentText(last))];
      forall k | 0 <= k < |fields|
        ensures lines[2 * k] == Heading(fields[k].tag) && lines[2 * k + 1] == Paragraph(ContentText(fields[k]))
      {
        if k < |prefix| {
          assert fields[k] == prefix[k];
          assert lines[2 * k] == Rendered(prefix)[2 * k];
          assert lines[2 * k + 1] == Rendered(prefix)[2 * k + 1];
        } else {
          assert 2 * k == |Rendered(prefix)|;
        }
      }
    }
  }

  /** The HTML for a results dict: the lines of its present entries joined by
      newlines. */
  function SummaryHtml(fields: seq<Field>): string
  {
    Join(Rendered(Present(fields)), "\n")
  }

  /** `format_summary_html`: a heading and a paragraph for each truthy entry,
      in the dict's order, joined by newlines. */
  method FormatSummaryHtml(results: seq<Field>) returns (html: string)
    ensures html == SummaryHtml(results)
  {
    var lines: seq<string> := [];
    for k := 0 to |results|
      invariant lines == Rendered(Present(results[..k]))
    {
      var field := results[k];
      var before := Present(results[..k]);
      assert results[..k + 1][..k] == results[..k];
      if Truthy(field.content) {
        var shown := before + [field];
        assert Present(results[..k + 1]) == shown;
        assert shown[..|shown| - 1] == before;
        assert Rendered(shown) == Rendered(before) + [Heading(field.tag), Paragraph(field.content.value)];
        lines := lines + [Heading(field.tag), Paragraph(field.content.value)];
      } else {
        assert Present(results[..k + 1]) == before + [];
        assert before + [] == before;
      }
    }
    assert results[..|results|] == results;
    html := Join(lines, "\n");
  }

  /** The HTML is empty exactly when no entry has a truthy value. */
  lemma SummaryHtmlEmptyIff(fields: seq<Field>)
    ensures SummaryHtml(fields) == "" <==> forall k :: 0 <= k < |fields| ==> !Truthy(fields[k].content)
  {
    var shown := Present(fields);
    RenderedShape(shown);
    if shown != [] {
      var lines := Rendered(shown);
      assert lines[0] == Heading(shown[0].tag);
      assert |Join(lines, "\n")| >= |lines[0]| by {
        if |lines| > 1 {
          assert Join(lines, "\n") == lines[0] + "\n" + Join(lines[1..], "\n");
        }
      }
      assert shown[0] in shown;
    } else {
      forall k | 0 <= k < |fields| ensures !Truthy(fields[k].content) {
        if Truthy(fields[k].content) {
          PresentComplete(fields, k);
        }
      }
    }
  }

  /** `MAX_REQ_BYTES`: 32 MB. */
  const MaxReqBytes: nat := 32 * 1000000

  /** The default `max_retries` of `_summarize_with_retry`. */
  const DefaultMaxRetries: int := 2

  /** The number of bytes UTF-8 spends on one character. */
  function Utf8Width(c: char): nat
  {
    var n := c as int;
    if n < 0x80 then 1 else if n < 0x800 then 2 else if n < 0x10000 then 3 else 4
  }

  /** `len(s.encode('utf-8'))` */
  function Utf8Length(s: string): nat
  {
    if s == [] then 0 else Utf8Length(s[..|s| - 1]) + Utf8Width(s[|s| - 1])
  }

  lemma {:induction false} Utf8LengthBounds(s: string)
    ensures |s| <= Utf8Length(s) <= 4 * |s|
  {
    if s != [] {
      Utf8LengthBounds(s[..|s| - 1]);
    }
  }

  /** What the language-model client does with one request: it returns the
      response text or raises. */
  datatype Reply = Response(text: string) | ClientError(message: string)

  /** Why `summarize_paper` raised. */
  datatype SummaryError = PromptTooLarge | RequestFailed(message: string)

  /** `summarize_paper` for a given client reply: a prompt over the size limit
      raises before the request is sent; otherwise a raised request raises,
      and a response becomes the HTML of its extracted sections. */
  function PaperSummary(prompt: string, reply: Reply, parse: string -> XmlParse): Result<string, SummaryError>
  {
    if Utf8Length(prompt) > MaxReqBytes then Failure(PromptTooLarge)
    else
      match reply
      case ClientError(message) => Failure(RequestFailed(message))
      case Response(text) => Success(SummaryHtml(Extracted(text, parse(Wrap(text)))))
  }

  /** A prompt of more than 32,000,000 characters is always refused, whatever
      the client would have answered; one of at most 8,000,000 characters
      never is. */
  lemma PromptSizeCheck(prompt: string, reply: Reply, parse: string -> XmlParse)
    ensures |prompt| > MaxReqBytes ==> PaperSummary(prompt, reply, parse) == Failure(PromptTooLarge)
    ensures 4 * |prompt| <= MaxReqBytes ==> PaperSummary(prompt, reply, parse) != Failure(PromptTooLarge)
  {
    Utf8LengthBounds(prompt);
  }

  /** How `_summarize_with_retry` ends: with a summary, by re-raising the last
      failure, or by falling off the end of an empty attempt range, which
      returns `None`. */
  datatype RetryOutcome = Summarized(html: string) | Raised(error: SummaryError) | ReturnedNone

  function Pow2(n: nat): nat
  {
    if n == 0 then 1 else 2 * Pow2(n - 1)
  }

  /** What each attempt of `summarize_paper` gives, the reply to attempt `a`
      being `send(a)`. */
  function Attempts(prompt: string, send: nat -> Reply, parse: string -> XmlParse): nat -> Result<string, SummaryError>
  {
    (a: nat) => PaperSummary(prompt, send(a), parse)
  }

  /** Attempts that failed in `Attempts` are attempts whose summary failed. */
  lemma AttemptsFailed(prompt: string, send: nat -> Reply, parse: string -> XmlParse, n: nat)
    requires forall b :: 0 <= b < n ==> Attempts(prompt, send, parse)(b).Failure?
    ensures forall b :: 0 <= b < n ==> PaperSummary(prompt, send(b), parse).Failure?
  {
    forall b | 0 <= b < n ensures PaperSummary(prompt, send(b), parse).Failure? {
      assert Attempts(prompt, send, parse)(b).Failure?;
    }
  }

  /** The attempts from `attempt` on, attempt `a` ending as `outcome(a)`. */
  function RetryFrom(outcome: nat -> Result<string, SummaryError>, maxRetries: int, attempt: nat): RetryOutcome
    decreases maxRetries - attempt
  {
    if attempt > maxRetries then ReturnedNone
    else
      match outcome(attempt)
      case Success(html) => Summarized(html)
      case Failure(error) => if attempt == maxRetries then Raised(error) else RetryFrom(outcome, maxRetries, attempt + 1)
  }

  /** `_summarize_with_retry` for the given replies. */
  function Retry(prompt: string, send: nat -> Reply, parse: string -> XmlParse, maxRetries: int): RetryOutcome
  {
    RetryFrom(Attempts(prompt, send, parse), maxRetries, 0)
  }

  lemma {:induction false} RetryFromSpec(outcome: nat -> Result<string, SummaryError>, maxRetries: int, attempt: nat)
    requires attempt <= maxRetries
    ensures var r := RetryFrom(outcome, maxRetries, attempt);
      && !r.ReturnedNone?
      && (r.Summarized? ==>
            exists a :: attempt <= a <= maxRetries && outcome(a) == Success(r.html)
              && forall b :: attempt <= b < a ==> outcome(b).Failure?)
      && (r.Raised? ==>
            && (forall b :: attempt <= b <= maxRetries ==> outcome(b).Failure?)
            && outcome(maxRetries) == Failure(r.error))
    decreases maxRetries - attempt
  {
    if outcome(attempt).Failure? && attempt < maxRetries {
      RetryFromSpec(outcome, maxRetries, attempt + 1);
    }
  }

  /** At most `maxRetries + 1` attempts: the result is the first successful
      attempt's summary, or, when every attempt fails, the last attempt's
      error; with a negative `maxRetries` nothing is attempted and `None`
      comes back. */
  lemma RetrySpec(prompt: string, send: nat -> Reply, parse: string -> XmlParse, maxRetries: int)
    ensures var r := Retry(prompt, send, parse, maxRetries);
      && (r.ReturnedNone? <==> maxRetries < 0)
      && (r.Summarized? ==>
            exists a :: 0 <= a <= maxRetries && PaperSummary(prompt, send(a), parse) == Success(r.html)
              && forall b :: 0 <= b < a ==> PaperSummary(prompt, send(b), parse).Failure?)
      && (r.Raised? ==>
            && (forall b :: 0 <= b <= maxRetries ==> PaperSummary(prompt, send(b), parse).Failure?)
            && PaperSummary(prompt, send(maxRetries), parse) == Failure(r.error))
  {
    if maxRetries >= 0 {
      var outcome := Attempts(prompt, send, parse);
      RetryFromSpec(outcome, maxRetries, 0);
      assert forall a :: outcome(a) == PaperSummary(prompt, send(a), parse);
    }
  }

  /** The optional paper cache: `None` when there is no arXiv client or it
      has no cache methods; otherwise the cached papers by identifier. */
  type Cache = Option<map<string, PaperData>>

  /** The paper is cached and its cached copy has a non-empty summary. */
  predicate CacheHit(cache: Cache, p: PaperData)
  {
    cache.Some? && p.id in cache.value && Truthy(cache.value[p.id].summary)
  }

  /** The cached copies of the cache hits, in input order. */
  function CachedHits(papers: seq<PaperData>, cache: Cache): seq<PaperData>
  {
    if papers == [] then []
    else
      var p := papers[|papers| - 1];
      CachedHits(papers[..|papers| - 1], cache) + (if CacheHit(cache, p) then [cache.value[p.id]] else [])
  }

  /** The papers to summarise, in input order: not cache hits, and with a
      truthy `pdf_url`. */
  function Pending(papers: seq<PaperData>, cache: Cache): seq<PaperData>
  {
    if papers == [] then []
    else
      var p := papers[|papers| - 1];
      Pending(papers[..|papers| - 1], cache) + (if !CacheHit(cache, p) && Truthy(p.pdfUrl) then [p] else [])
  }

  /** A paper after its summarisation task ended: with the returned summary,
      or dropped when the task raised. */
  function Finished(p: PaperData, outcome: RetryOutcome): seq<PaperData>
  {
    match outcome
    case Summarized(html) => [p.(summary := Some(html))]
    case ReturnedNone => [p.(summary := None)]
    case Raised(_) => []
  }

  /** The order in which the summarisation tasks complete: every one of the
      `n` tasks exactly once. */
  predicate IsCompletionOrder(order: seq<nat>, n: nat)
  {
    |order| == n && (forall k :: 0 <= k < |order| ==> order[k] < n) && forall i :: 0 <= i < n ==> i in order
  }

  /** The papers of the tasks that did not raise, in completion order. */
  function Completed(pending: seq<PaperData>, order: seq<nat>, outcomes: seq<RetryOutcome>): seq<PaperData>
    requires |outcomes| == |pending| && forall k :: 0 <= k < |order| ==> order[k] < |pending|
  {
    if order == [] then []
    else
      var i := order[|order| - 1];
      Completed(pending, order[..|order| - 1], outcomes) + Finished(pending[i], outcomes[i])
  }

  /** The cache after saving each paper in turn. */
  function Saved(cache: Cache, papers: seq<PaperData>): Cache
  {
    if cache.None? || papers == [] then cache
    else
      var p := papers[|papers| - 1];
      var before := Saved(cache, papers[..|papers| - 1]);
      Some(before.value[p.id := p])
  }

  /** Partition: every pending paper is an input paper that is not a cache
      hit and has a PDF URL, and every such input paper is pending. */
  lemma {:induction false} PendingSpec(papers: seq<PaperData>, cache: Cache)
    ensures forall p :: p in Pending(papers, cache) <==> p in papers && !CacheHit(cache, p) && Truthy(p.pdfUrl)
  {
    if papers != [] {
      var prefix := papers[..|papers| - 1];
      PendingSpec(prefix, cache);
      assert papers == prefix + [papers[|papers| - 1]];
    }
  }

  /** Every paper taken from the cache is the cached copy of a cache hit in
      the input, with a non-empty summary; hits and pending papers together
      are no more than the input. */
  lemma {:induction false} CachedHitsSpec(papers: seq<PaperData>, cache: Cache)
    ensures forall q :: q in CachedHits(papers, cache) ==>
      Truthy(q.summary) && exists p :: p in papers && CacheHit(cache, p) && q == cache.value[p.id]
    ensures |CachedHits(papers, cache)| + |Pending(papers, cache)| <= |papers|
  {
    if papers != [] {
      var prefix := papers[..|papers| - 1];
      var p := papers[|papers| - 1];
      CachedHitsSpec(prefix, cache);
      assert papers == prefix + [p];
      forall q | q in CachedHits(papers, cache)
        ensures Truthy(q.summary) && exists p' :: p' in papers && CacheHit(cache, p') && q == cache.value[p'.id]
      {
        if q in CachedHits(prefix, cache) {
          var p' :| p' in prefix && CacheHit(cache, p') && q == cache.value[p'.id];
          assert p' in papers;
        } else {
          assert p in papers;
        }
      }
    }
  }

  /** Every cache hit of the input has its cached copy among the papers
      taken from the cache. */
  lemma {:induction false} CachedHitsComplete(papers: seq<PaperData>, cache: Cache, p: PaperData)
    requires p in papers && CacheHit(cache, p)
    ensures cache.value[p.id] in CachedHits(papers, cache)
  {
    var prefix, last := papers[..|papers| - 1], papers[|papers| - 1];
    if p != last {
      assert papers == prefix + [last];
      CachedHitsComplete(prefix, cache, p);
    }
  }

  /** Every paper collected in completion order came from a task that did not
      raise, with that task's summary set; there is at most one per task. */
  lemma {:induction false} CompletedFromTasks(pending: seq<PaperData>, order: seq<nat>, outcomes: seq<RetryOutcome>)
    requires |outcomes| == |pending| && forall k :: 0 <= k < |order| ==> order[k] < |pending|
    ensures |Completed(pending, order, outcomes)| <= |order|
    ensures forall q :: q in Completed(pending, order, outcomes) ==>
      exists k :: 0 <= k < |order| && !outcomes[order[k]].Raised? && [q] == Finished(pending[order[k]], outcomes[order[k]])
  {
    if order != [] {
      var prefix := order[..|order| - 1];
      var last := |order| - 1;
      CompletedFromTasks(pending, prefix, outcomes);
      forall q | q in Completed(pending, order, outcomes)
        ensures exists k :: 0 <= k < |order| && !outcomes[order[k]].Raised? && [q] == Finished(pending[order[k]], outcomes[order[k]])
      {
        if q in Completed(pending, prefix, outcomes) {
          var k :| 0 <= k < |prefix| && !outcomes[prefix[k]].Raised? && [q] == Finished(pending[prefix[k]], outcomes[prefix[k]]);
          assert order[k] == prefix[k];
        } else {
          assert !outcomes[order[last]].Raised? && [q] == Finished(pending[order[last]], outcomes[order[last]]);
        }
      }
    }
  }

  /** A task that did not raise has its paper, with its summary, among the
      collected papers once it has completed. */
  lemma {:induction false} CompletedKeepsSuccesses(pending: seq<PaperData>, order: seq<nat>,
                                                   outcomes: seq<RetryOutcome>, i: nat)
    requires |outcomes| == |pending| && forall k :: 0 <= k < |order| ==> order[k] < |pending|
    requires i in order && !outcomes[i].Raised?
    ensures Finished(pending[i], outcomes[i])[0] in Completed(pending, order, outcomes)
  {
    var prefix := order[..|order| - 1];
    if order[|order| - 1] != i {
      assert i in prefix by {
        var k :| 0 <= k < |order| && order[k] == i;
        assert prefix[k] == i;
      }
      CompletedKeepsSuccesses(pending, prefix, outcomes, i);
    }
  }

  /** When no task returned nothing, every collected paper carries a summary. */
  lemma CompletedSummarized(pending: seq<PaperData>, order: seq<nat>, outcomes: seq<RetryOutcome>)
    requires |outcomes| == |pending| && forall k :: 0 <= k < |order| ==> order[k] < |pending|
    requires forall i :: 0 <= i < |outcomes| ==> !outcomes[i].ReturnedNone?
    ensures forall q :: q in Completed(pending, order, outcomes) ==> q.summary.Some?
  {
    CompletedFromTasks(pending, order, outcomes);
    forall q | q in Completed(pending, order, outcomes) ensures q.summary.Some? {
      var k :| 0 <= k < |order| && !outcomes[order[k]].Raised?
        && [q] == Finished(pending[order[k]], outcomes[order[k]]);
      assert outcomes[order[k]].Summarized?;
    }
  }

  /** The batch never returns more papers than it was given. */
  lemma SummarizeBound(papers: seq<PaperData>, cache: Cache, order: seq<nat>, outcomes: seq<RetryOutcome>)
    requires |outcomes| == |Pending(papers, cache)| && IsCompletionOrder(order, |Pending(papers, cache)|)
    ensures |CachedHits(papers, cache) + Completed(Pending(papers, cache), order, outcomes)| <= |papers|
  {
    CachedHitsSpec(papers, cache);
    CompletedFromTasks(Pending(papers, cache), order, outcomes);
  }

  /** Saving keeps the cache present, adds exactly the saved identifiers, maps
      each of them to a saved paper with that identifier (the last one saved)
      and leaves the other entries alone. */
  lemma {:induction false} SavedSpec(cache: Cache, papers: seq<PaperData>)
    requires cache.Some?
    ensures var after := Saved(cache, papers);
      && after.Some?
      && after.value.Keys == cache.value.Keys + Ids(papers)
      && (forall id :: id in Ids(papers) ==> after.value[id] in papers && after.value[id].id == id)
      && (forall id :: id in cache.value && id !in Ids(papers) ==> after.value[id] == cache.value[id])
  {
    if papers != [] {
      var prefix := papers[..|papers| - 1];
      var p := papers[|papers| - 1];
      SavedSpec(cache, prefix);
      assert papers == prefix + [p];
      assert forall q :: q in papers <==> q in prefix || q == p;
    }
  }

  /** One more input paper extends the hits or the pending papers by at most that paper. */
  lemma PartitionStep(papers: seq<PaperData>, i: nat, cache: Cache)
    requires i < |papers|
    ensures CachedHits(papers[..i + 1], cache)
      == CachedHits(papers[..i], cache) + (if CacheHit(cache, papers[i]) then [cache.value[papers[i].id]] else [])
    ensures Pending(papers[..i + 1], cache)
      == Pending(papers[..i], cache) + (if !CacheHit(cache, papers[i]) && Truthy(papers[i].pdfUrl) then [papers[i]] else [])
  {
    assert papers[..i + 1][..i] == papers[..i];
  }

  /** One more completed task extends the collected papers by its paper, if any. */
  lemma CompletedStep(pending: seq<PaperData>, order: seq<nat>, outcomes: seq<RetryOutcome>, j: nat)
    requires |outcomes| == |pending| && forall k :: 0 <= k < |order| ==> order[k] < |pending|
    requires j < |order|
    ensures Completed(pending, order[..j + 1], outcomes)
      == Completed(pending, order[..j], outcomes) + Finished(pending[order[j]], outcomes[order[j]])
  {
    assert order[..j + 1][..j] == order[..j];
  }

  /** Saving one more paper stores it under its identifier. */
  lemma SavedStep(cache: Cache, done: seq<PaperData>, p: PaperData)
    requires cache.Some?
    ensures Saved(cache, done).Some?
    ensures Saved(cache, done + [p]) == Some(Saved(cache, done).value[p.id := p])
  {
    if done != [] {
      SavedSpec(cache, done);
    }
    assert (done + [p])[..|done|] == done;
  }

  /** Saving a finished task's papers after `done` is saving them into the
      cache `done` left. */
  lemma SavedFinished(cache: Cache, done: seq<PaperData>, p: PaperData, outcome: RetryOutcome)
    ensures Saved(cache, done + Finished(p, outcome)) == Saved(Saved(cache, done), Finished(p, outcome))
  {
    if outcome.Raised? {
      assert done + Finished(p, outcome) == done;
    } else if cache.Some? {
      var f := Finished(p, outcome);
      SavedStep(cache, done, f[0]);
      assert f == [] + [f[0]];
      SavedStep(Saved(cache, done), [], f[0]);
    }
  }

  class PaperSummarizer {
    /** The prompt `_generate_summary_prompt` returns. */
    const prompt: string
    /** What XML parsing gives for a wrapped response. */
    const parseXml: string -> XmlParse
    /** The arXiv client's paper cache, when it has one. */
    var cache: Cache

    constructor(prompt: string, parseXml: string -> XmlParse, cache: Cache)
      ensures this.prompt == prompt && this.parseXml == parseXml && this.cache == cache
    {
      this.prompt := prompt;
      this.parseXml := parseXml;
      this.cache := cache;
    }

    /** `summarize_paper`: checks the prompt size, sends one request whose
        reply is `reply`, and renders the extracted sections. `requested`
        tells whether the request went out: not when the prompt is too large. */
    method SummarizePaper(reply: Reply) returns (r: Result<string, SummaryError>, ghost requested: bool)
      ensures r == PaperSummary(prompt, reply, parseXml)
      ensures requested <==> Utf8Length(prompt) <= MaxReqBytes
      ensures !requested ==> r == Failure(PromptTooLarge)
    {
      if Utf8Length(prompt) > MaxReqBytes {
        return Failure(PromptTooLarge), false;
      }
      requested := true;
      match reply {
        case ClientError(message) =>
          r := Failure(RequestFailed(message));
        case Response(text) =>
          var processed := ExtractXmlContent(text, parseXml);
          var html := FormatSummaryHtml(processed);
          r := Success(html);
      }
    }

    /** Attempt `a` of `_summarize_with_retry`: one `summarize_paper` call
        whose reply is `send(a)`. */
    method Attempt(send: nat -> Reply, a: nat) returns (result: Result<string, SummaryError>)
      ensures result == Attempts(prompt, send, parseXml)(a)
    {
      ghost var requested;
      result, requested := SummarizePaper(send(a));
    }

    /** `_summarize_with_retry`: attempt `a` gets reply `send(a)`. The ghost
        `delays` are the back-off sleeps: `2^a` after every failed attempt
        `a` but the last, so the attempt that ended the call is number
        `|delays|`. */
    method SummarizeWithRetry(maxRetries: int, send: nat -> Reply)
      returns (r: RetryOutcome, ghost delays: seq<nat>)
      ensures r == Retry(prompt, send, parseXml, maxRetries)
      ensures |delays| <= if maxRetries > 0 then maxRetries else 0
      ensures forall k :: 0 <= k < |delays| ==> delays[k] == Pow2(k)
      ensures r.Summarized? ==> PaperSummary(prompt, send(|delays|), parseXml) == Success(r.html)
      ensures r.Raised? ==> |delays| == maxRetries
      ensures forall b :: 0 <= b < |delays| ==> PaperSummary(prompt, send(b), parseXml).Failure?
    {
      ghost var outcome := Attempts(prompt, send, parseXml);
      delays := [];
      var attempt: nat := 0;
      while attempt <= maxRetries
        invariant attempt == 0 || attempt <= maxRetries
        invariant |delays| == attempt
        invariant forall k :: 0 <= k < |delays| ==> delays[k] == Pow2(k)
        invariant forall b :: 0 <= b < |delays| ==> outcome(b).Failure?
        invariant RetryFrom(outcome, maxRetries, attempt) == Retry(prompt, send, parseXml, maxRetries)
        decreases maxRetries - attempt
      {
        var result := Attempt(send, attempt);
        if result.Success? {
          AttemptsFailed(prompt, send, parseXml, |delays|);
          return Summarized(result.value), delays;
        }
        if attempt == maxRetries {
          AttemptsFailed(prompt, send, parseXml, |delays|);
          return Raised(result.error), delays;
        }
        assert forall k :: 0 <= k < attempt ==> (delays + [Pow2(attempt)])[k] == delays[k];
        delays := delays + [Pow2(attempt)];
        attempt := attempt + 1;
      }
      AttemptsFailed(prompt, send, parseXml, |delays|);
      r := ReturnedNone;
    }

    /** The outcome of each pending paper's task, task `i` getting the
        replies `replies(i)`. */
    function Outcomes(pending: seq<PaperData>, replies: nat -> nat -> Reply): (r: seq<RetryOutcome>)
      ensures |r| == |pending|
      ensures forall i :: 0 <= i < |pending| ==> r[i] == Retry(prompt, replies(i), parseXml, DefaultMaxRetries)
    {
      seq(|pending|, i requires 0 <= i < |pending| => Retry(prompt, replies(i), parseXml, DefaultMaxRetries))
    }

    /** The batch retries each task with `DefaultMaxRetries`, so no task
        returns nothing and every paper it collects carries a summary. */
    lemma BatchSummarized(pending: seq<PaperData>, order: seq<nat>, replies: nat -> nat -> Reply)
      requires IsCompletionOrder(order, |pending|)
      ensures forall q :: q in Completed(pending, order, Outcomes(pending, replies)) ==> q.summary.Some?
    {
      var outcomes := Outcomes(pending, replies);
      forall i | 0 <= i < |outcomes| ensures !outcomes[i].ReturnedNone? {
        RetrySpec(prompt, replies(i), parseXml, DefaultMaxRetries);
      }
      CompletedSummarized(pending, order, outcomes);
    }

    /** The first pass of `summarize_papers`: the cached copies of the cache
        hits, and the other papers that have a PDF URL, both in input order. */
    method CheckCache(papers: seq<PaperData>) returns (cached: seq<PaperData>, pending: seq<PaperData>)
      ensures cached == CachedHits(papers, cache)
      ensures pending == Pending(papers, cache)
    {
      cached := [];
      pending := [];
      for i := 0 to |papers|
        invariant cached == CachedHits(papers[..i], cache)
        invariant pending == Pending(papers[..i], cache)
      {
        var paper := papers[i];
        PartitionStep(papers, i, cache);
        if cache.Some? && paper.id in cache.value {
          var cachedPaper := cache.value[paper.id];
          if Truthy(cachedPaper.summary) {
            cached := cached + [cachedPaper];
            continue;
          }
        }
        if Truthy(paper.pdfUrl) {
          pending := pending + [paper];
        }
      }
      assert papers[..|papers|] == papers;
    }

    /** One finished task: the paper with its summary, or with `None`, is
        appended to the result and saved to the cache when there is one; a
        task that raised leaves both as they were. */
    method RecordOutcome(paper: PaperData, outcome: RetryOutcome, summarized: seq<PaperData>)
      returns (summarized': seq<PaperData>)
      modifies this
      ensures summarized' == summarized + Finished(paper, outcome)
      ensures cache == Saved(old(cache), Finished(paper, outcome))
    {
      summarized' := summarized;
      if !outcome.Raised? {
        var updated := paper.(summary := if outcome.Summarized? then Some(outcome.html) else None);
        assert Finished(paper, outcome) == [updated];
        summarized' := summarized + [updated];
        if cache.Some? {
          cache := Some(cache.value[updated.id := updated]);
        }
      }
    }

    /** The second pass of `summarize_papers`: the pending papers' tasks
        finish in the order `order`; the papers whose task did not raise are
        appended to `summarized` in that order, each with its new summary and
        saved to the cache. */
    method CollectResults(pending: seq<PaperData>, order: seq<nat>, replies: nat -> nat -> Reply,
                          summarized: seq<PaperData>)
      returns (summarized': seq<PaperData>)
      requires forall k :: 0 <= k < |order| ==> order[k] < |pending|
      modifies this
      ensures var completed := Completed(pending, order, Outcomes(pending, replies));
        && summarized' == summarized + completed
        && cache == Saved(old(cache), completed)
    {
      ghost var outcomes := Outcomes(pending, replies);
      ghost var done := [];
      summarized' := summarized;
      for j := 0 to |order|
        invariant done == Completed(pending, order[..j], outcomes)
        invariant summarized' == summarized + done
        invariant cache == Saved(old(cache), done)
      {
        var i := order[j];
        var outcome;
        ghost var delays;
        outcome, delays := SummarizeWithRetry(DefaultMaxRetries, replies(i));
        assert outcome == outcomes[i];
        ghost var finished := Finished(pending[i], outcome);
        CompletedStep(pending, order, outcomes, j);
        SavedFinished(old(cache), done, pending[i], outcome);
        assert summarized + (done + finished) == (summarized + done) + finished;
        summarized' := RecordOutcome(pending[i], outcome, summarized');
        done := done + finished;
      }
      assert order[..|order|] == order;
    }

    /** `summarize_papers`: the cache hits first, in input order, then the
        papers whose task did not raise, in the completion order `order`,
        each with its new summary and saved to the cache. */
    method SummarizePapers(papers: seq<PaperData>, order: seq<nat>, replies: nat -> nat -> Reply)
      returns (summarized: seq<PaperData>)
      requires IsCompletionOrder(order, |Pending(papers, cache)|)
      modifies this
      ensures var pending := Pending(papers, old(cache));
        var completed := Completed(pending, order, Outcomes(pending, replies));
        && summarized == CachedHits(papers, old(cache)) + completed
        && cache == Saved(old(cache), completed)
    {
      var pending;
      summarized, pending := CheckCache(papers);
      summarized := CollectResults(pending, order, replies, summarized);
    }
  }
}
