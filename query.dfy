/**
 * The query string that `ArxivClient.search` builds from its optional search
 * terms and categories (modules/arxiv.py).
 */
module Query {
  import opened Common

  /** A dynamically typed argument of `search`: `None`, a single string, or a list. */
  datatype Arg = Absent | Text(text: string) | List(items: seq<string>)

  /** Python truthiness of an argument. */
  predicate IsTruthy(a: Arg)
  {
    match a
    case Absent => false
    case Text(s) => s != ""
    case List(xs) => xs != []
  }

  /** `cat:X` for every category, in order. */
  function CategoryFilters(cats: seq<string>): (r: seq<string>)
    ensures |r| == |cats|
    ensures forall k :: 0 <= k < |cats| ==> r[k] == "cat:" + cats[k]
  {
    seq(|cats|, k requires 0 <= k < |cats| => "cat:" + cats[k])
  }

  /** A term containing a space is wrapped in double quotes for an exact match. */
  function QuoteTerm(term: string): string
  {
    if ' ' in term then "\"" + term + "\"" else term
  }

  /** Every term of the list, quoted where needed, in order. */
  function QuoteTerms(terms: seq<string>): (r: seq<string>)
    ensures |r| == |terms|
    ensures forall k :: 0 <= k < |terms| ==> r[k] == QuoteTerm(terms[k])
  {
    seq(|terms|, k requires 0 <= k < |terms| => QuoteTerm(terms[k]))
  }

  /** The category part: only a non-empty list contributes; the filters are
      joined by ` OR ` and parenthesised only when there is more than one. */
  function CategoryPart(categories: Arg): (r: Option<string>)
    ensures r.Some? <==> categories.List? && categories.items != []
    ensures r.Some? ==> r.value != ""
    ensures r.Some? ==> (r.value[0] == '(' <==> |categories.items| > 1)
    ensures r.Some? && |categories.items| > 1 ==> r.value[|r.value| - 1] == ')'
  {
    if categories.List? && categories.items != [] then
      var cats := Join(CategoryFilters(categories.items), " OR ");
      if |categories.items| > 1 then Some("(" + cats + ")") else Some(cats)
    else None
  }

  /** The search-term part: a non-empty list becomes its quoted terms joined by
      ` OR ` in parentheses, a non-empty string becomes that term quoted where needed. */
  function TermsPart(searchTerms: Arg): (r: Option<string>)
    ensures r.Some? <==> IsTruthy(searchTerms)
    ensures r.Some? ==> r.value != ""
    ensures r.Some? && searchTerms.List? ==> r.value[0] == '(' && r.value[|r.value| - 1] == ')'
  {
    match searchTerms
    case List(terms) =>
      if terms == [] then None else Some("(" + Join(QuoteTerms(terms), " OR ") + ")")
    case Text(term) =>
      if term == "" then None
      else
        assert QuoteTerm(term) != "" by { if ' ' !in term { assert term[0] in term; } }
        Some(QuoteTerm(term))
    case Absent => None
  }

  /** The parts that are present, categories first. */
  function Parts(searchTerms: Arg, categories: Arg): seq<string>
  {
    (if CategoryPart(categories).Some? then [CategoryPart(categories).value] else [])
    + (if TermsPart(searchTerms).Some? then [TermsPart(searchTerms).value] else [])
  }

  /** The query: the present parts joined by ` AND `, or `""` when there are none. */
  function BuildQuery(searchTerms: Arg, categories: Arg): (q: string)
    ensures CategoryPart(categories).Some? && TermsPart(searchTerms).Some? ==>
      q == CategoryPart(categories).value + " AND " + TermsPart(searchTerms).value
    ensures CategoryPart(categories).Some? && TermsPart(searchTerms).None? ==>
      q == CategoryPart(categories).value
    ensures CategoryPart(categories).None? && TermsPart(searchTerms).Some? ==>
      q == TermsPart(searchTerms).value
  {
    var parts := Parts(searchTerms, categories);
    if parts != [] then
      assert |parts| == 2 ==> Join(parts, " AND ") == parts[0] + " AND " + Join(parts[1..], " AND ");
      assert |parts| == 2 ==> parts[1..] == [parts[1]];
      Join(parts, " AND ")
    else ""
  }

  /** The query is empty exactly when neither a non-empty category list nor a
      truthy search term was given. */
  lemma QueryEmptyIff(searchTerms: Arg, categories: Arg)
    ensures BuildQuery(searchTerms, categories) == ""
      <==> !(categories.List? && categories.items != []) && !IsTruthy(searchTerms)
  {
  }

  /** Every requested category appears in the category part as its `cat:` filter. */
  lemma CategoryPartMentions(categories: Arg, k: nat)
    requires categories.List? && k < |categories.items|
    ensures Contains(CategoryPart(categories).value, "cat:" + categories.items[k])
  {
    var filters := CategoryFilters(categories.items);
    JoinContains(filters, " OR ", k);
    var cats := Join(filters, " OR ");
    if |categories.items| > 1 {
      ContainsWithin("(", cats, ")", filters[k]);
    } else {
      ContainsWithin("", cats, "", filters[k]);
      assert "" + cats + "" == cats;
    }
  }

  /** Every requested category appears in the query as its `cat:` filter. */
  lemma QueryMentionsEveryCategory(searchTerms: Arg, categories: Arg, k: nat)
    requires categories.List? && k < |categories.items|
    ensures Contains(BuildQuery(searchTerms, categories), "cat:" + categories.items[k])
  {
    CategoryPartMentions(categories, k);
    var part := CategoryPart(categories).value;
    if TermsPart(searchTerms).Some? {
      ContainsAppend(part, " AND ", TermsPart(searchTerms).value, "cat:" + categories.items[k]);
    }
  }

  /** Every term of a search-term list appears in the query, quoted where it
      contains a space. */
  lemma QueryMentionsEveryTerm(searchTerms: Arg, categories: Arg, k: nat)
    requires searchTerms.List? && k < |searchTerms.items|
    ensures Contains(BuildQuery(searchTerms, categories), QuoteTerm(searchTerms.items[k]))
  {
    var quoted := QuoteTerms(searchTerms.items);
    var part := TermsPart(searchTerms).value;
    assert Contains(part, quoted[k]) by {
      JoinContains(quoted, " OR ", k);
      ContainsWithin("(", Join(quoted, " OR "), ")", quoted[k]);
    }
    var prefix := if CategoryPart(categories).Some? then CategoryPart(categories).value + " AND " else "";
    assert BuildQuery(searchTerms, categories) == prefix + part + "" by {
      if CategoryPart(categories).Some? {
        assert BuildQuery(searchTerms, categories) == CategoryPart(categories).value + " AND " + part;
      }
    }
    ContainsWithin(prefix, part, "", quoted[k]);
  }

  /** A single non-empty search term appears in the query, quoted where it
      contains a space. */
  lemma QueryMentionsSingleTerm(searchTerms: Arg, categories: Arg)
    requires searchTerms.Text? && searchTerms.text != ""
    ensures Contains(BuildQuery(searchTerms, categories), QuoteTerm(searchTerms.text))
  {
    var part := TermsPart(searchTerms).value;
    assert part == QuoteTerm(searchTerms.text);
    assert Contains(part, part) by {
      assert OccursAt(part, part, 0);
    }
    var prefix := if CategoryPart(categories).Some? then CategoryPart(categories).value + " AND " else "";
    assert BuildQuery(searchTerms, categories) == prefix + part + "" by {
      if CategoryPart(categories).Some? {
        assert BuildQuery(searchTerms, categories) == CategoryPart(categories).value + " AND " + part;
      }
    }
    ContainsWithin(prefix, part, "", part);
  }
}
