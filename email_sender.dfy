/**
 * The e-mail bodies (modules/email_sender.py): HTML escaping of text and of
 * link targets, and the plain-text and HTML renderings of a list of papers.
 * Sending through SendGrid is not modelled, and neither are the API key and
 * sender address the `EmailSender` object keeps for it.
 */
module EmailSender {
  import opened Common
  import opened Papers

  /** What `html.escape` (with `quote=True`) turns one character into. */
  function EscapeChar(c: char): string
  {
    if c == '&' then "&amp;"
    else if c == '<' then "&lt;"
    else if c == '>' then "&gt;"
    else if c == '"' then "&quot;"
    else if c == '\'' then "&#x27;"
    else [c]
  }

  /** `html.escape(s)`, character by character. */
  function Escape(s: string): string
  {
    if s == [] then [] else EscapeChar(s[0]) + Escape(s[1..])
  }

  /** `s.replace(c, rep)` for a one-character `c`. */
  function ReplaceChar(s: string, c: char, rep: string): string
  {
    if s == [] then [] else (if s[0] == c then rep else [s[0]]) + ReplaceChar(s[1..], c, rep)
  }

  /** `html.escape` as the standard library writes it: five replacements in
      turn, `&` first. */
  function EscapeByReplacing(s: string): string
  {
    var s1 := ReplaceChar(s, '&', "&amp;");
    var s2 := ReplaceChar(s1, '<', "&lt;");
    var s3 := ReplaceChar(s2, '>', "&gt;");
    var s4 := ReplaceChar(s3, '"', "&quot;");
    ReplaceChar(s4, '\'', "&#x27;")
  }

  lemma {:induction false} ReplaceCharConcat(a: string, b: string, c: char, rep: string)
    ensures ReplaceChar(a + b, c, rep) == ReplaceChar(a, c, rep) + ReplaceChar(b, c, rep)
  {
    if a != [] {
      assert (a + b)[0] == a[0] && (a + b)[1..] == a[1..] + b;
      ReplaceCharConcat(a[1..], b, c, rep);
    } else {
      assert a + b == b;
    }
  }

  lemma ReplaceCharOne(x: char, c: char, rep: string)
    ensures ReplaceChar([x], c, rep) == if x == c then rep else [x]
  {
    assert [x][1..] == [];
  }

  /** A string none of whose characters is `c` is left alone by replacing `c`. */
  lemma {:induction false} ReplaceCharAbsent(s: string, c: char, rep: string)
    requires c !in s
    ensures ReplaceChar(s, c, rep) == s
  {
    if s != [] {
      assert s[0] in s;
      assert forall x :: x in s[1..] ==> x in s;
      ReplaceCharAbsent(s[1..], c, rep);
    }
  }

  /** The last replacements leave a string alone that holds none of their
      characters. */
  lemma ReplacingAbsent(s: string, from: nat)
    requires from <= 4
    requires from <= 1 ==> '<' !in s
    requires from <= 2 ==> '>' !in s
    requires from <= 3 ==> '"' !in s
    requires '\'' !in s
    ensures from == 1 ==> ReplaceChar(ReplaceChar(ReplaceChar(ReplaceChar(s, '<', "&lt;"), '>', "&gt;"), '"', "&quot;"), '\'', "&#x27;") == s
    ensures from == 2 ==> ReplaceChar(ReplaceChar(ReplaceChar(s, '>', "&gt;"), '"', "&quot;"), '\'', "&#x27;") == s
    ensures from == 3 ==> ReplaceChar(ReplaceChar(s, '"', "&quot;"), '\'', "&#x27;") == s
    ensures from == 4 ==> ReplaceChar(s, '\'', "&#x27;") == s
  {
    if from <= 1 { ReplaceCharAbsent(s, '<', "&lt;"); }
    if from <= 2 { ReplaceCharAbsent(s, '>', "&gt;"); }
    if from <= 3 { ReplaceCharAbsent(s, '"', "&quot;"); }
    ReplaceCharAbsent(s, '\'', "&#x27;");
  }

  /** The five replacements applied to one character give its escape. */
  lemma EscapeByReplacingOne(x: char)
    ensures EscapeByReplacing([x]) == EscapeChar(x)
  {
    ReplaceCharOne(x, '&', "&amp;");
    var s1 := ReplaceChar([x], '&', "&amp;");
    if x == '&' {
      ReplacingAbsent("&amp;", 1);
      return;
    }
    assert s1 == [x];
    ReplaceCharOne(x, '<', "&lt;");
    var s2 := ReplaceChar(s1, '<', "&lt;");
    if x == '<' {
      ReplacingAbsent("&lt;", 2);
      return;
    }
    assert s2 == [x];
    ReplaceCharOne(x, '>', "&gt;");
    var s3 := ReplaceChar(s2, '>', "&gt;");
    if x == '>' {
      ReplacingAbsent("&gt;", 3);
      return;
    }
    assert s3 == [x];
    ReplaceCharOne(x, '"', "&quot;");
    var s4 := ReplaceChar(s3, '"', "&quot;");
    if x == '"' {
      ReplacingAbsent("&quot;", 4);
      return;
    }
    assert s4 == [x];
    ReplaceCharOne(x, '\'', "&#x27;");
  }

  /** The character-by-character escape is exactly the library's chain of
      replacements. */
  lemma {:induction false} EscapeIsReplacing(s: string)
    ensures Escape(s) == EscapeByReplacing(s)
  {
    if s != [] {
      var x, rest := s[0], s[1..];
      assert s == [x] + rest;
      EscapeIsReplacing(rest);
      EscapeByReplacingOne(x);
      var s1a, s1b := ReplaceChar([x], '&', "&amp;"), ReplaceChar(rest, '&', "&amp;");
      ReplaceCharConcat([x], rest, '&', "&amp;");
      var s2a, s2b := ReplaceChar(s1a, '<', "&lt;"), ReplaceChar(s1b, '<', "&lt;");
      ReplaceCharConcat(s1a, s1b, '<', "&lt;");
      var s3a, s3b := ReplaceChar(s2a, '>', "&gt;"), ReplaceChar(s2b, '>', "&gt;");
      ReplaceCharConcat(s2a, s2b, '>', "&gt;");
      var s4a, s4b := ReplaceChar(s3a, '"', "&quot;"), ReplaceChar(s3b, '"', "&quot;");
      ReplaceCharConcat(s3a, s3b, '"', "&quot;");
      ReplaceCharConcat(s4a, s4b, '\'', "&#x27;");
    }
  }

  /** The characters that must not appear raw in escaped text. */
  predicate Markup(c: char)
  {
    c == '<' || c == '>' || c == '"' || c == '\''
  }

  /** Escaped text holds no raw `<`, `>`, `"` or `'`. */
  lemma {:induction false} EscapeNoMarkup(s: string)
    ensures forall k :: 0 <= k < |Escape(s)| ==> !Markup(Escape(s)[k])
  {
    if s != [] {
      EscapeNoMarkup(s[1..]);
      var head := EscapeChar(s[0]);
      assert forall k :: 0 <= k < |head| ==> !Markup(head[k]);
      forall k | 0 <= k < |Escape(s)| ensures !Markup(Escape(s)[k]) {
        if k >= |head| {
          assert Escape(s)[k] == Escape(s[1..])[k - |head|];
        }
      }
    }
  }

  /** The number of markup characters in `s`. */
  function MarkupCount(s: string): nat
  {
    if s == [] then 0 else MarkupCount(s[..|s| - 1]) + (if Markup(s[|s| - 1]) then 1 else 0)
  }

  lemma {:induction false} MarkupCountAppend(a: string, b: string)
    ensures MarkupCount(a + b) == MarkupCount(a) + MarkupCount(b)
    decreases |b|
  {
    if b != [] {
      assert (a + b)[..|a + b| - 1] == a + b[..|b| - 1];
      MarkupCountAppend(a, b[..|b| - 1]);
    } else {
      assert a + b == a;
    }
  }

  /** Pieces with the same markup counts, put together, keep the totals
      equal. */
  lemma MarkupJoin(u: string, v: string, x: string, y: string)
    requires MarkupCount(u) == MarkupCount(v) && MarkupCount(x) == MarkupCount(y)
    ensures MarkupCount(u + x) == MarkupCount(v + y)
  {
    MarkupCountAppend(u, x);
    MarkupCountAppend(v, y);
  }

  /** Lists whose elements render with the same markup counts, one by one,
      render with the same total. */
  lemma {:induction false} ConcatMapMarkup<T>(xs: seq<T>, ys: seq<T>, f: T -> string)
    requires |xs| == |ys| && forall k :: 0 <= k < |xs| ==> MarkupCount(f(xs[k])) == MarkupCount(f(ys[k]))
    ensures MarkupCount(ConcatMap(xs, f)) == MarkupCount(ConcatMap(ys, f))
    decreases |xs|
  {
    if xs != [] {
      var n := |xs| - 1;
      ConcatMapMarkup(xs[..n], ys[..n], f);
      MarkupJoin(ConcatMap(xs[..n], f), ConcatMap(ys[..n], f), f(xs[n]), f(ys[n]));
    }
  }

  lemma {:induction false} MarkupFreeCount(s: string)
    requires forall k :: 0 <= k < |s| ==> !Markup(s[k])
    ensures MarkupCount(s) == 0
  {
    if s != [] {
      MarkupFreeCount(s[..|s| - 1]);
    }
  }

  /** Decoding of the five entities `html.escape` produces; every other
      character stands for itself. */
  function Unescape(s: string): string
  {
    if s == [] then []
    else if s[0] != '&' then [s[0]] + Unescape(s[1..])
    else if StartsWith(s, "&amp;") then "&" + Unescape(s[5..])
    else if StartsWith(s, "&lt;") then "<" + Unescape(s[4..])
    else if StartsWith(s, "&gt;") then ">" + Unescape(s[4..])
    else if StartsWith(s, "&quot;") then "\"" + Unescape(s[6..])
    else if StartsWith(s, "&#x27;") then "'" + Unescape(s[6..])
    else [s[0]] + Unescape(s[1..])
  }

  lemma UnescapeAmp(e: string)
    ensures Unescape("&amp;" + e) == "&" + Unescape(e)
  {
    var out := "&amp;" + e;
    assert out[..5] == "&amp;" && out[5..] == e;
  }

  lemma UnescapeLt(e: string)
    ensures Unescape("&lt;" + e) == "<" + Unescape(e)
  {
    var out := "&lt;" + e;
    assert out[..4] == "&lt;" && out[1] == 'l' && out[4..] == e;
  }

  lemma UnescapeGt(e: string)
    ensures Unescape("&gt;" + e) == ">" + Unescape(e)
  {
    var out := "&gt;" + e;
    assert out[..4] == "&gt;" && out[1] == 'g' && out[4..] == e;
  }

  lemma UnescapeQuot(e: string)
    ensures Unescape("&quot;" + e) == "\"" + Unescape(e)
  {
    var out := "&quot;" + e;
    assert out[..6] == "&quot;" && out[1] == 'q' && out[6..] == e;
  }

  lemma UnescapeApos(e: string)
    ensures Unescape("&#x27;" + e) == "'" + Unescape(e)
  {
    var out := "&#x27;" + e;
    assert out[..6] == "&#x27;" && out[1] == '#' && out[2] == 'x' && out[6..] == e;
  }

  /** Decoding undoes the escape of the first character. */
  lemma UnescapeStep(x: char, e: string)
    ensures Unescape(EscapeChar(x) + e) == [x] + Unescape(e)
  {
    if x == '&' {
      UnescapeAmp(e);
    } else if x == '<' {
      UnescapeLt(e);
    } else if x == '>' {
      UnescapeGt(e);
    } else if x == '"' {
      UnescapeQuot(e);
    } else if x == '\'' {
      UnescapeApos(e);
    } else {
      var out := [x] + e;
      assert out[0] == x && out[1..] == e;
    }
  }

  /** Escaping loses nothing: decoding gives the original text back. */
  lemma {:induction false} EscapeRoundTrip(s: string)
    ensures Unescape(Escape(s)) == s
  {
    if s != [] {
      EscapeRoundTrip(s[1..]);
      UnescapeStep(s[0], Escape(s[1..]));
      assert s == [s[0]] + s[1..];
    }
  }

  /** `_escape_html`: `""` for `None` or `""`, the escaped text otherwise. */
  function EscapeHtml(text: Option<string>): string
  {
    if Truthy(text) then Escape(text.value) else ""
  }

  /** `_escape_html` gives `""` exactly for `None` and `""`; otherwise text
      without markup that decodes back to the original. */
  lemma EscapeHtmlSpec(text: Option<string>)
    ensures EscapeHtml(text) == "" <==> !Truthy(text)
    ensures MarkupCount(EscapeHtml(text)) == 0
    ensures Truthy(text) ==> Unescape(EscapeHtml(text)) == text.value
  {
    if Truthy(text) {
      var s := text.value;
      assert |EscapeChar(s[0])| >= 1;
      assert |Escape(s)| >= 1;
      EscapeNoMarkup(s);
      MarkupFreeCount(Escape(s));
      EscapeRoundTrip(s);
    }
  }

  const ArxivHttp: string := "http://arxiv.org"
  const ArxivHttps: string := "https://arxiv.org"

  /** `_escape_url`: `#` for an empty URL or one that does not begin with
      `http://arxiv.org` or `https://arxiv.org`; the escaped URL otherwise. */
  function EscapeUrl(url: string): string
  {
    if url == "" then "#"
    else if !(StartsWith(url, ArxivHttp) || StartsWith(url, ArxivHttps)) then "#"
    else Escape(url)
  }

  /** Only an arXiv URL gets through, and then escaped, so it cannot close the
      `href` attribute it is written into and decodes to the URL itself;
      anything else becomes `#`, and only such a URL does. */
  lemma EscapeUrlSpec(url: string)
    ensures StartsWith(url, ArxivHttp) || StartsWith(url, ArxivHttps) ==> EscapeUrl(url) == Escape(url)
    ensures !(StartsWith(url, ArxivHttp) || StartsWith(url, ArxivHttps)) ==> EscapeUrl(url) == "#"
    ensures forall k :: 0 <= k < |EscapeUrl(url)| ==> EscapeUrl(url)[k] != '"'
    ensures EscapeUrl(url) == "#" <==> !(StartsWith(url, ArxivHttp) || StartsWith(url, ArxivHttps))
    ensures StartsWith(url, ArxivHttp) || StartsWith(url, ArxivHttps) ==> Unescape(EscapeUrl(url)) == url
  {
    EscapeNoMarkup(url);
    EscapeRoundTrip(url);
    if StartsWith(url, ArxivHttp) || StartsWith(url, ArxivHttps) {
      assert url[0] == 'h';
      assert Escape(url)[0] == 'h';
    }
  }

  /** The rendering of a list: each element's text, in order. */
  function ConcatMap<T>(xs: seq<T>, f: T -> string): string
  {
    if xs == [] then "" else ConcatMap(xs[..|xs| - 1], f) + f(xs[|xs| - 1])
  }

  lemma {:induction false} ConcatMapAppend<T>(xs: seq<T>, ys: seq<T>, f: T -> string)
    ensures ConcatMap(xs + ys, f) == ConcatMap(xs, f) + ConcatMap(ys, f)
    decreases |ys|
  {
    if ys == [] {
      assert xs + ys == xs;
    } else {
      var n := |ys| - 1;
      assert (xs + ys)[..|xs + ys| - 1] == xs + ys[..n];
      ConcatMapAppend(xs, ys[..n], f);
    }
  }

  /** The text of element `k` sits right after the text of the elements
      before it. */
  lemma ConcatMapAt<T>(xs: seq<T>, k: nat, f: T -> string)
    requires k < |xs|
    ensures var o := |ConcatMap(xs[..k], f)|;
      o + |f(xs[k])| <= |ConcatMap(xs, f)| && ConcatMap(xs, f)[o..o + |f(xs[k])|] == f(xs[k])
  {
    assert xs == xs[..k] + [xs[k]] + xs[k + 1..];
    ConcatMapAppend(xs[..k] + [xs[k]], xs[k + 1..], f);
    ConcatMapAppend(xs[..k], [xs[k]], f);
    assert ConcatMap([xs[k]], f) == f(xs[k]) by {
      assert [xs[k]][..0] == [];
    }
  }

  lemma ConcatMapSnoc<T>(xs: seq<T>, x: T, f: T -> string)
    ensures ConcatMap(xs + [x], f) == ConcatMap(xs, f) + f(x)
  {
    assert (xs + [x])[..|xs|] == xs;
  }

  /** One more piece written after the pieces so far. */
  lemma Extend<T>(start: string, text: string, xs: seq<T>, f: T -> string, x: T)
    requires text == start + ConcatMap(xs, f)
    ensures text + f(x) == start + ConcatMap(xs + [x], f)
  {
    ConcatMapSnoc(xs, x, f);
  }

  /** Several pieces written after the pieces so far. */
  lemma ExtendAll<T>(start: string, text: string, xs: seq<T>, f: T -> string, ys: seq<T>)
    requires text == start + ConcatMap(xs, f)
    ensures text + ConcatMap(ys, f) == start + ConcatMap(xs + ys, f)
  {
    ConcatMapAppend(xs, ys, f);
  }

  /** Nothing written yet. */
  lemma ExtendNone<T>(start: string, f: T -> string)
    ensures start == start + ConcatMap([], f)
  {
  }

  /** A piece written after the text so far grows the part written since
      `start`. */
  lemma Grow(start: string, part: string, text: string, piece: string)
    requires text == start + part
    ensures text + piece == start + (part + piece)
  {
  }

  /** Nothing written: the part written since `start` grows by nothing. */
  lemma Keep(start: string, part: string, text: string)
    requires text == start + part
    ensures text == start + (part + "")
  {
    assert part + "" == part;
  }

  /** One more element rendered after a header and the elements before it. */
  lemma RenderStep<T>(h: string, xs: seq<T>, i: nat, f: T -> string, text: string, text': string)
    requires i < |xs|
    requires text == h + ConcatMap(xs[..i], f) && text' == text + f(xs[i])
    ensures text' == h + ConcatMap(xs[..i + 1], f)
  {
    ConcatMapSnoc(xs[..i], xs[i], f);
    assert xs[..i + 1] == xs[..i] + [xs[i]];
  }

  /** The rendering of a list after a fixed header: element `k`'s text sits
      right after the header and the texts of the elements before it. */
  lemma HeaderConcatMapAt<T>(h: string, xs: seq<T>, k: nat, f: T -> string, text: string)
    requires k < |xs| && text == h + ConcatMap(xs, f)
    ensures StartsWith(text, h)
    ensures var o := |h| + |ConcatMap(xs[..k], f)|;
      o + |f(xs[k])| <= |text| && text[o..o + |f(xs[k])|] == f(xs[k])
  {
    ConcatMapAt(xs, k, f);
    var body := ConcatMap(xs, f);
    var o := |ConcatMap(xs[..k], f)|;
    assert text[..|h|] == h;
    assert text[|h| + o..|h| + o + |f(xs[k])|] == body[o..o + |f(xs[k])|];
  }

  /** The same, with a fixed footer after the list: the text also ends with
      the footer. */
  lemma FramedConcatMapAt<T>(h: string, xs: seq<T>, k: nat, f: T -> string, foot: string, b: string)
    requires k < |xs| && b == f(xs[k])
    ensures var c := h + ConcatMap(xs, f) + foot;
      && StartsWith(c, h)
      && |foot| <= |c| && c[|c| - |foot|..] == foot
    ensures var c := h + ConcatMap(xs, f) + foot;
      var o := |h| + |ConcatMap(xs[..k], f)|;
      o + |b| <= |c| && c[o..o + |b|] == b
  {
    var body := h + ConcatMap(xs, f);
    var c := body + foot;
    HeaderConcatMapAt(h, xs, k, f, body);
    assert c[..|body|] == body;
    assert c[|body|..] == foot;
  }

  // ---------------------------------------------------------------------
  // Plain text

  /** `f"{x}"` of an optional string: `None` prints as `None`. */
  function Show(o: Option<string>): string
  {
    if o.Some? then o.value else "None"
  }

  /** The lines of a paper's plain-text block. */
  datatype Line =
    | TitleLine(title: string)
    | AuthorsLine(authors: seq<string>)
    | PublishedLine(date: string)
    | SummaryLine(summary: Option<string>)
    | UrlLine(url: string)

  function LineText(l: Line): string
  {
    match l
    case TitleLine(t) => "Title: " + t + "\n"
    case AuthorsLine(a) => "Authors: " + Join(a, ", ") + "\n"
    case PublishedLine(d) => "Published: " + d + "\n"
    case SummaryLine(s) => "Summary: " + Show(s) + "\n"
    case UrlLine(u) => "URL: " + u + "\n\n"
  }

  /** The lines written for one paper. */
  function PlainLines(p: PaperData): seq<Line>
  {
    [TitleLine(p.title)] + AuthorsLines(p) + PublishedLines(p) + [SummaryLine(p.summary)] + [UrlLine(p.url)]
  }

  function AuthorsLines(p: PaperData): seq<Line>
  {
    if NonEmpty(p.authors) then [AuthorsLine(p.authors.value)] else []
  }

  function PublishedLines(p: PaperData): seq<Line>
  {
    if Truthy(p.published) then [PublishedLine(p.published.value)] else []
  }

  /** Title, Summary and URL lines always, first and last two; an Authors line
      (right after the title) exactly when the authors are non-empty; a
      Published line (before the summary) exactly when the date is truthy;
      no other lines. */
  lemma PlainLinesLayout(p: PaperData)
    ensures var ls := PlainLines(p);
      var a := if NonEmpty(p.authors) then 1 else 0;
      var d := if Truthy(p.published) then 1 else 0;
      && |ls| == 3 + a + d
      && ls[0] == TitleLine(p.title)
      && ls[|ls| - 2..] == [SummaryLine(p.summary), UrlLine(p.url)]
      && (NonEmpty(p.authors) <==> ls[1].AuthorsLine?)
      && (NonEmpty(p.authors) ==> ls[1] == AuthorsLine(p.authors.value))
      && (Truthy(p.published) <==> ls[1 + a].PublishedLine?)
      && (Truthy(p.published) ==> ls[1 + a] == PublishedLine(p.published.value))
  {
  }

  /** The heading of both renderings. */
  const DigestTitle: string := "Daily arXiv Interpretability Papers"

  const PlainHeader: string := DigestTitle + "\n\n"

  /** The plain-text block of one paper. */
  function PlainBlock(p: PaperData): string
  {
    ConcatMap(PlainLines(p), LineText)
  }

  /** `_create_plain_text_content`: the header, then each paper's block. */
  function PlainText(papers: seq<PaperData>): string
  {
    PlainHeader + ConcatMap(papers, PlainBlock)
  }

  /** `_create_plain_text_content`: the header, then the lines of each paper
      in turn. */
  method CreatePlainTextContent(papers: seq<PaperData>) returns (text: string)
    ensures text == PlainText(papers)
  {
    text := PlainHeader;
    for i := 0 to |papers|
      invariant text == PlainHeader + ConcatMap(papers[..i], PlainBlock)
    {
      ghost var before := text;
      text := AppendPlainBlock(text, papers[i]);
      RenderStep(PlainHeader, papers, i, PlainBlock, before, text);
    }
    assert papers[..|papers|] == papers;
  }

  /** The body of the loop over papers: one line at a time, the Authors and
      Published lines only when there is something to write. */
  method AppendPlainBlock(text: string, paper: PaperData) returns (text': string)
    ensures text' == text + PlainBlock(paper)
  {
    ghost var lines: seq<Line> := [];
    text' := text;
    ExtendNone(text, LineText);
    Extend(text, text', lines, LineText, TitleLine(paper.title));
    text' := text' + LineText(TitleLine(paper.title));
    assert [] + [TitleLine(paper.title)] == [TitleLine(paper.title)];
    lines := [TitleLine(paper.title)];
    if NonEmpty(paper.authors) {
      Extend(text, text', lines, LineText, AuthorsLine(paper.authors.value));
      text' := text' + LineText(AuthorsLine(paper.authors.value));
    } else {
      ExtendAll(text, text', lines, LineText, []);
    }
    lines := lines + AuthorsLines(paper);
    if Truthy(paper.published) {
      Extend(text, text', lines, LineText, PublishedLine(paper.published.value));
      text' := text' + LineText(PublishedLine(paper.published.value));
    } else {
      ExtendAll(text, text', lines, LineText, []);
    }
    lines := lines + PublishedLines(paper);
    Extend(text, text', lines, LineText, SummaryLine(paper.summary));
    text' := text' + LineText(SummaryLine(paper.summary));
    lines := lines + [SummaryLine(paper.summary)];
    Extend(text, text', lines, LineText, UrlLine(paper.url));
    text' := text' + LineText(UrlLine(paper.url));
    lines := lines + [UrlLine(paper.url)];
    assert lines == PlainLines(paper);
  }

  /** The plain text is the header followed by one block per paper, in input
      order. */
  lemma PlainTextOrder(papers: seq<PaperData>, k: nat)
    requires k < |papers|
    ensures StartsWith(PlainText(papers), PlainHeader)
    ensures var o := |PlainHeader| + |ConcatMap(papers[..k], PlainBlock)|;
      var b := PlainBlock(papers[k]);
      o + |b| <= |PlainText(papers)| && PlainText(papers)[o..o + |b|] == b
  {
    HeaderConcatMapAt(PlainHeader, papers, k, PlainBlock, PlainText(papers));
  }

  // ---------------------------------------------------------------------
  // HTML

  /** The document head with its style sheet, then the body's heading
      holding `title`. */
  function HtmlHead(title: string): string
  {
    "\n        " + "<html>" + "\n        " + "<head>" + "\n            " + "<style>"
    + "\n                " + "body { font-family: Arial, sans-serif; line-height: 1.6; }"
    + "\n                " + ".paper { margin-bottom: 30px; border-bottom: 1px solid #eee; padding-bottom: 20px; }"
    + "\n                " + ".title { font-size: 18px; font-weight: bold; margin-bottom: 10px; }"
    + "\n                " + ".authors { font-style: italic; margin-bottom: 10px; }"
    + "\n                " + ".published { color: #666; margin-bottom: 10px; }"
    + "\n                " + ".summary { margin-bottom: 15px; }"
    + "\n                " + ".link { color: #0366d6; }"
    + "\n                " + ".keywords { margin-top: 10px; }"
    + "\n                " + ".keyword { background-color: #f1f8ff; padding: 3px 8px; border-radius: 3px; margin-right: 5px; font-size: 12px; }"
    + "\n            " + "</style>" + "\n        " + "</head>" + "\n        " + "<body>"
    + "\n            " + "<h1>" + title + "</h1>" + "\n        "
  }

  function HtmlFoot(): string
  {
    "\n        " + "</body>" + "\n        " + "</html>" + "\n        "
  }

  /** Each author escaped on its own (the list comprehension). */
  function EscapeEach(xs: seq<string>): (r: seq<string>)
    ensures |r| == |xs| && forall k :: 0 <= k < |xs| ==> r[k] == EscapeHtml(Some(xs[k]))
  {
    seq(|xs|, k requires 0 <= k < |xs| => EscapeHtml(Some(xs[k])))
  }

  /** The opening of a paper's div, with its escaped title. */
  function PaperOpen(title: string): string
  {
    "\n            " + "<div class=\"paper\">"
    + "\n                " + "<div class=\"title\">" + EscapeHtml(Some(title)) + "</div>" + "\n            "
  }

  /** The authors div, over the already escaped names. */
  function AuthorsDiv(escapedAuthors: seq<string>): string
  {
    "<div class=\"authors\">" + "Authors: " + Join(escapedAuthors, ", ") + "</div>"
  }

  function PublishedDiv(date: string): string
  {
    "<div class=\"published\">" + "Published: " + EscapeHtml(Some(date)) + "</div>"
  }

  /** The escaped summary and the link to the paper. */
  function SummaryAndLink(summary: Option<string>, url: string): string
  {
    "\n                " + "<div class=\"summary\">" + EscapeHtml(summary) + "</div>"
    + "\n                " + "<div><a class=\"link\" href=\"" + EscapeUrl(url)
    + "\" target=\"_blank\">Read Paper</a></div>" + "\n            "
  }

  function KeywordSpan(keyword: string): string
  {
    "<span class=\"keyword\">" + EscapeHtml(Some(keyword)) + "</span>"
  }

  const KeywordsOpen: string := "<div class=\"keywords\">"
  const DivClose: string := "</div>"

  /** The keywords div: one span per keyword, in order. */
  function KeywordsDiv(keywords: seq<string>): string
  {
    KeywordsOpen + ConcatMap(keywords, KeywordSpan) + DivClose
  }

  function AuthorsPart(p: PaperData): string
  {
    if NonEmpty(p.authors) then AuthorsDiv(EscapeEach(p.authors.value)) else ""
  }

  function PublishedPart(p: PaperData): string
  {
    if Truthy(p.published) then PublishedDiv(p.published.value) else ""
  }

  function KeywordsPart(p: PaperData): string
  {
    if NonEmpty(p.keywords) then KeywordsDiv(p.keywords.value) else ""
  }

  /** The `paper` div of one paper. */
  function HtmlBlock(p: PaperData): string
  {
    PaperOpen(p.title) + AuthorsPart(p) + PublishedPart(p) + SummaryAndLink(p.summary, p.url) + KeywordsPart(p)
    + DivClose
  }

  /** `_create_html_content`: the head with the style sheet, each paper's
      div in turn, the foot. */
  function HtmlContent(papers: seq<PaperData>): string
  {
    HtmlHead(DigestTitle) + ConcatMap(papers, HtmlBlock) + HtmlFoot()
  }

  /** `_create_html_content`: the head, the loop over papers, the foot. */
  method CreateHtmlContent(papers: seq<PaperData>) returns (html: string)
    ensures html == HtmlContent(papers)
  {
    html := AppendHtmlBlocks(HtmlHead(DigestTitle), papers);
    html := html + HtmlFoot();
  }

  /** The loop over papers of `_create_html_content`, from the text so far. */
  method AppendHtmlBlocks(start: string, papers: seq<PaperData>) returns (html: string)
    ensures html == start + ConcatMap(papers, HtmlBlock)
  {
    html := start;
    for i := 0 to |papers|
      invariant html == start + ConcatMap(papers[..i], HtmlBlock)
    {
      ghost var before := html;
      html := AppendHtmlBlock(html, papers[i]);
      RenderStep(start, papers, i, HtmlBlock, before, html);
    }
    assert papers[..|papers|] == papers;
  }

  /** The body of the loop over papers: the title, the optional authors and
      date, the summary and link, the optional keywords, the closing tag. */
  method AppendHtmlBlock(html: string, paper: PaperData) returns (html': string)
    ensures html' == html + HtmlBlock(paper)
  {
    html' := html + PaperOpen(paper.title);
    ghost var block := PaperOpen(paper.title);
    if NonEmpty(paper.authors) {
      var escapedAuthors := EscapeEach(paper.authors.value);
      Grow(html, block, html', AuthorsDiv(escapedAuthors));
      html' := html' + AuthorsDiv(escapedAuthors);
    } else {
      Keep(html, block, html');
    }
    block := block + AuthorsPart(paper);
    if Truthy(paper.published) {
      Grow(html, block, html', PublishedDiv(paper.published.value));
      html' := html' + PublishedDiv(paper.published.value);
    } else {
      Keep(html, block, html');
    }
    block := block + PublishedPart(paper);
    Grow(html, block, html', SummaryAndLink(paper.summary, paper.url));
    html' := html' + SummaryAndLink(paper.summary, paper.url);
    block := block + SummaryAndLink(paper.summary, paper.url);
    if NonEmpty(paper.keywords) {
      ghost var before := html';
      html' := AppendKeywords(html', paper.keywords.value);
      Grow(html, block, before, KeywordsDiv(paper.keywords.value));
    } else {
      Keep(html, block, html');
    }
    block := block + KeywordsPart(paper);
    Grow(html, block, html', DivClose);
    html' := html' + DivClose;
    block := block + DivClose;
  }

  /** The keywords div: the opening tag, one span per keyword in turn, the
      closing tag. */
  method AppendKeywords(html: string, keywords: seq<string>) returns (html': string)
    ensures html' == html + KeywordsDiv(keywords)
  {
    html' := html + KeywordsOpen;
    for j := 0 to |keywords|
      invariant html' == html + KeywordsOpen + ConcatMap(keywords[..j], KeywordSpan)
    {
      ghost var before := html';
      html' := html' + KeywordSpan(keywords[j]);
      RenderStep(html + KeywordsOpen, keywords, j, KeywordSpan, before, html');
    }
    assert keywords[..|keywords|] == keywords;
    Grow(html, KeywordsOpen, html + KeywordsOpen, ConcatMap(keywords, KeywordSpan));
    Grow(html, KeywordsOpen + ConcatMap(keywords, KeywordSpan), html', DivClose);
    html' := html' + DivClose;
  }

  // ---------------------------------------------------------------------
  // What the HTML rendering guarantees

  /** A document opens with its head and closes with its foot, and each
      paper's div sits right after the head and the divs of the papers before
      it (`block` names the div of paper `k`). `HtmlContent` is the document
      whose head is `HtmlHead(DigestTitle)` and whose foot is `HtmlFoot()`. */
  lemma DocumentOrder(head: string, papers: seq<PaperData>, foot: string, k: nat, block: string)
    requires k < |papers| && block == HtmlBlock(papers[k])
    ensures var c := head + ConcatMap(papers, HtmlBlock) + foot;
      && StartsWith(c, head)
      && |foot| <= |c| && c[|c| - |foot|..] == foot
    ensures var c := head + ConcatMap(papers, HtmlBlock) + foot;
      var o := |head| + |ConcatMap(papers[..k], HtmlBlock)|;
      o + |block| <= |c| && c[o..o + |block|] == block
  {
    FramedConcatMapAt(head, papers, k, HtmlBlock, foot, block);
  }

  /** Which optional parts a paper's div has, and how many keyword spans:
      everything of a paper that its markup depends on. */
  predicate SameShape(p: PaperData, q: PaperData)
  {
    && NonEmpty(p.authors) == NonEmpty(q.authors)
    && Truthy(p.published) == Truthy(q.published)
    && NonEmpty(p.keywords) == NonEmpty(q.keywords)
    && (NonEmpty(p.keywords) ==> |p.keywords.value| == |q.keywords.value|)
  }

  /** The link target adds no markup. */
  lemma EscapeUrlMarkup(url: string)
    ensures MarkupCount(EscapeUrl(url)) == 0
  {
    EscapeNoMarkup(url);
    MarkupFreeCount(EscapeUrl(url));
  }

  lemma {:induction false} JoinMarkup(xs: seq<string>, sep: string)
    requires forall k :: 0 <= k < |xs| ==> MarkupCount(xs[k]) == 0
    requires MarkupCount(sep) == 0
    ensures MarkupCount(Join(xs, sep)) == 0
  {
    if |xs| >= 2 {
      JoinMarkup(xs[1..], sep);
      MarkupCountAppend(xs[0], sep);
      MarkupCountAppend(xs[0] + sep, Join(xs[1..], sep));
    }
  }

  lemma PaperOpenMarkup(t: string, t': string)
    ensures MarkupCount(PaperOpen(t)) == MarkupCount(PaperOpen(t'))
  {
    EscapeHtmlSpec(Some(t));
    EscapeHtmlSpec(Some(t'));
    var a := "\n            " + "<div class=\"paper\">" + "\n                " + "<div class=\"title\">";
    var e, e' := EscapeHtml(Some(t)), EscapeHtml(Some(t'));
    MarkupJoin(a, a, e, e');
    MarkupJoin(a + e, a + e', "</div>", "</div>");
    MarkupJoin(a + e + "</div>", a + e' + "</div>", "\n            ", "\n            ");
  }

  lemma AuthorsDivMarkup(authors: seq<string>, authors': seq<string>)
    ensures MarkupCount(AuthorsDiv(EscapeEach(authors))) == MarkupCount(AuthorsDiv(EscapeEach(authors')))
  {
    forall a | a in authors + authors' ensures MarkupCount(EscapeHtml(Some(a))) == 0 {
      EscapeHtmlSpec(Some(a));
    }
    MarkupFreeCount(", ");
    var j, j' := Join(EscapeEach(authors), ", "), Join(EscapeEach(authors'), ", ");
    JoinMarkup(EscapeEach(authors), ", ");
    JoinMarkup(EscapeEach(authors'), ", ");
    var a := "<div class=\"authors\">" + "Authors: ";
    MarkupJoin(a, a, j, j');
    MarkupJoin(a + j, a + j', "</div>", "</div>");
  }

  lemma PublishedDivMarkup(d: string, d': string)
    ensures MarkupCount(PublishedDiv(d)) == MarkupCount(PublishedDiv(d'))
  {
    EscapeHtmlSpec(Some(d));
    EscapeHtmlSpec(Some(d'));
    var a := "<div class=\"published\">" + "Published: ";
    var e, e' := EscapeHtml(Some(d)), EscapeHtml(Some(d'));
    MarkupJoin(a, a, e, e');
    MarkupJoin(a + e, a + e', "</div>", "</div>");
  }

  lemma SummaryAndLinkMarkup(s: Option<string>, u: string, s': Option<string>, u': string)
    ensures MarkupCount(SummaryAndLink(s, u)) == MarkupCount(SummaryAndLink(s', u'))
  {
    EscapeHtmlSpec(s);
    EscapeHtmlSpec(s');
    EscapeUrlMarkup(u);
    EscapeUrlMarkup(u');
    var a := "\n                " + "<div class=\"summary\">";
    var e, e' := EscapeHtml(s), EscapeHtml(s');
    MarkupJoin(a, a, e, e');
    MarkupJoin(a + e, a + e', "</div>", "</div>");
    var b, b' := a + e + "</div>", a + e' + "</div>";
    MarkupJoin(b, b', "\n                ", "\n                ");
    MarkupJoin(b + "\n                ", b' + "\n                ", "<div><a class=\"link\" href=\"", "<div><a class=\"link\" href=\"");
    var c, c' := b + "\n                " + "<div><a class=\"link\" href=\"", b' + "\n                " + "<div><a class=\"link\" href=\"";
    MarkupJoin(c, c', EscapeUrl(u), EscapeUrl(u'));
    var r := "\" target=\"_blank\">Read Paper</a></div>";
    MarkupJoin(c + EscapeUrl(u), c' + EscapeUrl(u'), r, r);
    MarkupJoin(c + EscapeUrl(u) + r, c' + EscapeUrl(u') + r, "\n            ", "\n            ");
  }

  lemma KeywordSpanMarkup(k: string, k': string)
    ensures MarkupCount(KeywordSpan(k)) == MarkupCount(KeywordSpan(k'))
  {
    EscapeHtmlSpec(Some(k));
    EscapeHtmlSpec(Some(k'));
    var a := "<span class=\"keyword\">";
    var e, e' := EscapeHtml(Some(k)), EscapeHtml(Some(k'));
    MarkupJoin(a, a, e, e');
    MarkupJoin(a + e, a + e', "</span>", "</span>");
  }

  lemma KeywordsDivMarkup(ks: seq<string>, ks': seq<string>)
    requires |ks| == |ks'|
    ensures MarkupCount(KeywordsDiv(ks)) == MarkupCount(KeywordsDiv(ks'))
  {
    forall k | 0 <= k < |ks|
      ensures MarkupCount(KeywordSpan(ks[k])) == MarkupCount(KeywordSpan(ks'[k]))
    {
      KeywordSpanMarkup(ks[k], ks'[k]);
    }
    ConcatMapMarkup(ks, ks', KeywordSpan);
    var c, c' := ConcatMap(ks, KeywordSpan), ConcatMap(ks', KeywordSpan);
    MarkupJoin(KeywordsOpen, KeywordsOpen, c, c');
    MarkupJoin(KeywordsOpen + c, KeywordsOpen + c', DivClose, DivClose);
  }

  lemma MarkupSix(a1: string, a2: string, a3: string, a4: string, a5: string, a6: string,
                  b1: string, b2: string, b3: string, b4: string, b5: string, b6: string)
    requires MarkupCount(a1) == MarkupCount(b1) && MarkupCount(a2) == MarkupCount(b2)
    requires MarkupCount(a3) == MarkupCount(b3) && MarkupCount(a4) == MarkupCount(b4)
    requires MarkupCount(a5) == MarkupCount(b5) && MarkupCount(a6) == MarkupCount(b6)
    ensures MarkupCount(a1 + a2 + a3 + a4 + a5 + a6) == MarkupCount(b1 + b2 + b3 + b4 + b5 + b6)
  {
    MarkupJoin(a1, b1, a2, b2);
    MarkupJoin(a1 + a2, b1 + b2, a3, b3);
    MarkupJoin(a1 + a2 + a3, b1 + b2 + b3, a4, b4);
    MarkupJoin(a1 + a2 + a3 + a4, b1 + b2 + b3 + b4, a5, b5);
    MarkupJoin(a1 + a2 + a3 + a4 + a5, b1 + b2 + b3 + b4 + b5, a6, b6);
  }

  /** No title, author, date, summary, URL or keyword can add or remove a
      markup character: two papers of the same shape give divs with the
      same number of them. */
  lemma HtmlBlockMarkup(p: PaperData, q: PaperData)
    requires SameShape(p, q)
    ensures MarkupCount(HtmlBlock(p)) == MarkupCount(HtmlBlock(q))
  {
    PaperOpenMarkup(p.title, q.title);
    if NonEmpty(p.authors) {
      AuthorsDivMarkup(p.authors.value, q.authors.value);
    }
    if Truthy(p.published) {
      PublishedDivMarkup(p.published.value, q.published.value);
    }
    SummaryAndLinkMarkup(p.summary, p.url, q.summary, q.url);
    if NonEmpty(p.keywords) {
      KeywordsDivMarkup(p.keywords.value, q.keywords.value);
    }
    MarkupSix(PaperOpen(p.title), AuthorsPart(p), PublishedPart(p), SummaryAndLink(p.summary, p.url),
              KeywordsPart(p), DivClose,
              PaperOpen(q.title), AuthorsPart(q), PublishedPart(q), SummaryAndLink(q.summary, q.url),
              KeywordsPart(q), DivClose);
  }

  lemma HtmlBlocksMarkup(ps: seq<PaperData>, qs: seq<PaperData>)
    requires |ps| == |qs| && forall k :: 0 <= k < |ps| ==> SameShape(ps[k], qs[k])
    ensures MarkupCount(ConcatMap(ps, HtmlBlock)) == MarkupCount(ConcatMap(qs, HtmlBlock))
  {
    forall k | 0 <= k < |ps|
      ensures MarkupCount(HtmlBlock(ps[k])) == MarkupCount(HtmlBlock(qs[k]))
    {
      HtmlBlockMarkup(ps[k], qs[k]);
    }
    ConcatMapMarkup(ps, qs, HtmlBlock);
  }

  /** The whole document: lists of papers of the same shapes give documents
      with the same number of markup characters, whatever their text. */
  lemma DocumentMarkup(head: string, ps: seq<PaperData>, qs: seq<PaperData>, foot: string)
    requires |ps| == |qs| && forall k :: 0 <= k < |ps| ==> SameShape(ps[k], qs[k])
    ensures MarkupCount(head + ConcatMap(ps, HtmlBlock) + foot) == MarkupCount(head + ConcatMap(qs, HtmlBlock) + foot)
  {
    HtmlBlocksMarkup(ps, qs);
    var c, c' := ConcatMap(ps, HtmlBlock), ConcatMap(qs, HtmlBlock);
    MarkupJoin(head, head, c, c');
    MarkupJoin(head + c, head + c', foot, foot);
  }
}
