/**
 * Paper records: the search results the arXiv library yields and the
 * `PaperData` records the pipeline passes on (modules/arxiv.py), with the
 * conversion between them.
 */
module Papers {
  import opened Common

  /** One search result as the arXiv library yields it. The `Option` fields
      are the attributes that `_convert_result` guards with `hasattr`;
      `published` is the publication time already rendered by `isoformat()`. */
  datatype ArxivResult = ArxivResult(
    entryId: string,
    title: string,
    authors: seq<string>,
    summary: string,
    categories: seq<string>,
    pdfUrl: Option<string>,
    published: Option<string>,
    doi: Option<string>,
    comment: Option<string>)

  /** The `PaperData` record. `summary` is absent until summarisation succeeds. */
  datatype PaperData = PaperData(
    id: string,
    title: string,
    url: string,
    pdfUrl: Option<string>,
    doi: Option<string>,
    comment: Option<string>,
    published: Option<string>,
    authors: Option<seq<string>>,
    abstractText: Option<string>,
    keywords: Option<seq<string>>,
    summary: Option<string>,
    categories: Option<seq<string>>)

  /** The index of the last slash among the first `n` characters of `s`, or -1. */
  function LastSlash(s: string, n: nat): (k: int)
    requires n <= |s|
    ensures -1 <= k < n
  {
    if n == 0 then -1 else if s[n - 1] == '/' then n - 1 else LastSlash(s, n - 1)
  }

  /** `s.split('/')[-1]`: what follows the last slash of `s`, or all of `s`. */
  function LastSegment(s: string): string
  {
    s[LastSlash(s, |s|) + 1..]
  }

  lemma {:induction false} LastSlashSpec(s: string, n: nat)
    requires n <= |s|
    ensures var k := LastSlash(s, n);
      (k >= 0 ==> s[k] == '/') && forall j :: k < j < n ==> s[j] != '/'
  {
    if n > 0 && s[n - 1] != '/' {
      LastSlashSpec(s, n - 1);
    }
  }

  /** The last segment is the longest suffix of `s` without a slash: a suffix,
      free of slashes, and either all of `s` or preceded by a slash. */
  lemma LastSegmentSpec(s: string)
    ensures var r := LastSegment(s);
      && |r| <= |s| && r == s[|s| - |r|..]
      && '/' !in r
      && (|r| == |s| || s[|s| - |r| - 1] == '/')
  {
    LastSlashSpec(s, |s|);
  }

  /** The arXiv identifier of a result: the last path segment of its entry id. */
  function IdOf(r: ArxivResult): string
  {
    LastSegment(r.entryId)
  }

  /** The rewrite of an insecure PDF link: a URL starting with `http:` becomes
      `https` followed by the rest after the first four characters. Its
      properties are `SecureUrlSpec`. */
  function SecureUrl(u: string): string
  {
    if StartsWith(u, "http:") then "https" + u[4..] else u
  }

  /** The rewritten link never starts with `http:`; an insecure link becomes
      `https:` followed by what followed `http:`; any other link is kept. */
  lemma SecureUrlSpec(u: string)
    ensures var r := SecureUrl(u);
      && !StartsWith(r, "http:")
      && (StartsWith(u, "http:") ==> StartsWith(r, "https:") && r[6..] == u[5..])
      && (!StartsWith(u, "http:") ==> r == u)
  {
  }

  /** Rewriting a link that is already secure changes nothing. */
  lemma SecureUrlIdempotent(u: string)
    ensures SecureUrl(SecureUrl(u)) == SecureUrl(u)
  {
    SecureUrlSpec(u);
    SecureUrlSpec(SecureUrl(u));
  }

  /** The PDF link used when a result has none: `PdfBase + id + PdfSuffix`. */
  const PdfBase: string := "https://arxiv.org/pdf/"
  const PdfSuffix: string := ".pdf"

  /** `_convert_result`: the fields of the result, the identifier taken from
      the entry id, and the PDF link made secure. Its properties are
      `ConvertResultSpec`. */
  function ConvertResult(r: ArxivResult): PaperData
  {
    var arxivId := IdOf(r);
    var pdfUrl :=
      if r.pdfUrl.Some? then r.pdfUrl.value else PdfBase + arxivId + PdfSuffix;
    PaperData(
      id := arxivId,
      title := r.title,
      url := r.entryId,
      pdfUrl := Some(SecureUrl(pdfUrl)),
      doi := r.doi,
      comment := r.comment,
      published := r.published,
      authors := Some(r.authors),
      abstractText := Some(r.summary),
      keywords := Some(r.categories),
      summary := None,
      categories := Some(r.categories))
  }

  /** The identifier is the last segment of the entry id, the PDF link is
      always present and never insecure (a link from the result that is
      already secure is kept, a missing one defaults to the arXiv PDF path of
      the identifier), and no summary is set yet. */
  lemma ConvertResultSpec(r: ArxivResult)
    ensures var p := ConvertResult(r);
      && p.id == IdOf(r) && p.url == r.entryId
      && p.pdfUrl.Some? && !StartsWith(p.pdfUrl.value, "http:")
      && (r.pdfUrl.Some? ==> p.pdfUrl == Some(SecureUrl(r.pdfUrl.value)))
      && (r.pdfUrl.Some? && !StartsWith(r.pdfUrl.value, "http:") ==> p.pdfUrl == r.pdfUrl)
      && (r.pdfUrl.None? ==> p.pdfUrl == Some(PdfBase + IdOf(r) + PdfSuffix))
      && p.summary.None?
      && p.authors == Some(r.authors) && p.keywords == Some(r.categories)
  {
    var u := if r.pdfUrl.Some? then r.pdfUrl.value else PdfBase + IdOf(r) + PdfSuffix;
    SecureUrlSpec(u);
    if r.pdfUrl.None? {
      assert !StartsWith(u, "http:") by {
        assert u[4] == 's';
      }
    }
  }

  /** The identifiers of a list of papers. */
  function Ids(ps: seq<PaperData>): set<string>
  {
    set p | p in ps :: p.id
  }

  /** No two papers of the list share an identifier. */
  predicate DistinctIds(ps: seq<PaperData>)
  {
    forall i, j :: 0 <= i < j < |ps| ==> ps[i].id != ps[j].id
  }

  /** The identifiers of a concatenation are those of its parts. */
  lemma IdsConcat(a: seq<PaperData>, b: seq<PaperData>)
    ensures Ids(a + b) == Ids(a) + Ids(b)
  {
    assert forall p :: p in a + b <==> p in a || p in b;
  }

  /** Two lists without repeated identifiers and with no identifier in
      common concatenate to a list without repeated identifiers. */
  lemma DistinctConcat(a: seq<PaperData>, b: seq<PaperData>)
    requires DistinctIds(a) && DistinctIds(b)
    requires forall p :: p in b ==> p.id !in Ids(a)
    ensures DistinctIds(a + b)
  {
    var c := a + b;
    forall i, j | 0 <= i < j < |c| ensures c[i].id != c[j].id {
      if i < |a| <= j {
        assert c[i] == a[i] && a[i] in a;
        assert c[j] == b[j - |a|] && b[j - |a|] in b;
      } else if |a| <= i {
        assert c[i] == b[i - |a|] && c[j] == b[j - |a|];
      }
    }
  }
}
