/**
 * `ArxivClient` (modules/arxiv.py): the persistent map of seen paper
 * identifiers, the paginated interpretability search, the general search, and
 * the marking of returned papers as seen.
 *
 * The map is loaded from `seen_papers.json` in the source; here the stored
 * map is a constructor argument (`None` when the file is missing or cannot be
 * read). The arXiv library is an oracle; `datetime.now().isoformat()` is the
 * `now` argument of the methods that take it.
 */
module Arxiv {
  import opened Common
  import opened Papers
  import opened Query
  import opened Discovery

  /** What the library's result generator gives for a query: the results it
      yields, in order, and whether it raises once they are used up. */
  datatype ResultStream = ResultStream(results: seq<ArxivResult>, raises: bool)

  /** Why a search ended with an exception: the general search's result
      stream raised, or the paginated search was given a page size of zero. */
  datatype SearchError = StreamRaised | ZeroPageSize

  /** The identifiers of the truthy entries of a list of papers. */
  function PresentIds(papers: seq<Option<PaperData>>): set<string>
  {
    set p | p in papers && p.Some? :: p.value.id
  }

  /** The papers of a list, each one present. */
  function AllPresent(papers: seq<PaperData>): (r: seq<Option<PaperData>>)
    ensures |r| == |papers| && forall k :: 0 <= k < |papers| ==> r[k] == Some(papers[k])
  {
    seq(|papers|, k requires 0 <= k < |papers| => Some(papers[k]))
  }

  lemma PresentIdsAll(papers: seq<PaperData>)
    ensures PresentIds(AllPresent(papers)) == Ids(papers)
  {
    var r := AllPresent(papers);
    forall id | id in Ids(papers) ensures id in PresentIds(r) {
      var k :| 0 <= k < |papers| && papers[k].id == id;
      assert r[k] in r;
    }
  }

  lemma IdsSnoc(ps: seq<PaperData>, p: PaperData)
    ensures Ids(ps + [p]) == Ids(ps) + {p.id}
  {
    assert forall q :: q in ps + [p] <==> q in ps || q == p;
  }

  /** How many new papers a scan of one list of results may still take: what
      is missing to `maxResults`, but at least one, since the source checks the
      limit only after appending. */
  function Room(found: seq<PaperData>, maxResults: int): (room: nat)
    ensures room >= 1
    ensures |found| < maxResults ==> |found| + room == maxResults
  {
    if |found| < maxResults then maxResults - |found| else 1
  }

  /** The scan of one list of results shared by both searches: skip results
      whose identifier is in the seen map or already taken in this call,
      append the others, and stop right after the append that reaches
      `maxResults`. The results arrive already converted (see `ConvertAll`);
      a converted paper's identifier is the result's (`ConvertResultSpec`). */
  method TakeNewPapers(page: seq<PaperData>, seen: set<string>, run: set<string>,
                       found: seq<PaperData>, maxResults: int)
    returns (found': seq<PaperData>, run': set<string>)
    ensures found' == found + PageYield(page, seen + run, Room(found, maxResults))
    ensures run' == run + Ids(PageYield(page, seen + run, Room(found, maxResults)))
  {
    ghost var yielded := PageYield(page, seen + run, Room(found, maxResults));
    ghost var taken: seq<PaperData> := [];
    ghost var room := Room(found, maxResults);
    ghost var excluded := seen + run;
    found', run' := found, run;
    var i := 0;
    assert page[i..] == page;
    while i < |page|
      invariant 0 <= i <= |page| && room >= 1
      invariant found' == found + taken && run' == run + Ids(taken)
      invariant excluded == seen + run'
      invariant if |found'| < maxResults then |found'| + room == maxResults else room == 1
      invariant yielded == taken + PageYield(page[i..], excluded, room)
    {
      var paperId := page[i].id;
      PageYieldAt(page, i, excluded, room, taken, yielded);
      if paperId in seen || paperId in run' {
        i := i + 1;
        continue;
      }
      IdsSnoc(taken, page[i]);
      taken := taken + [page[i]];
      found' := found' + [page[i]];
      run' := run' + {paperId};
      excluded := excluded + {paperId};
      if |found'| >= maxResults {
        assert room == 1 && yielded == taken;
        break;
      }
      assert room > 1;
      room := room - 1;
      i := i + 1;
    }
    if i == |page| {
      assert page[i..] == [];
    }
  }

  /** The rest of one iteration of the interpretability search after a page
      that listed results: take its new papers, count the page as stale when
      none is new (and reset the count otherwise), move the offset on by the
      page size, and log the page with whether the loop pauses before the next
      request. */
  method ListingIteration(ghost fetch: PageRequest -> PageOutcome, page: seq<PaperData>, seen: set<string>,
                          maxResults: int, requestSize: int, found: seq<PaperData>, run: set<string>,
                          startIndex: int, consecutiveSeen: nat, ghost log: seq<PageLog>)
    returns (found': seq<PaperData>, run': set<string>, startIndex': int, consecutiveSeen': nat,
             ghost log': seq<PageLog>)
    ensures var next := Advance(Env(fetch, seen, maxResults, requestSize),
                                LoopState(found, run, startIndex, consecutiveSeen, log),
                                PageYield(page, seen + run, Room(found, maxResults)));
      found' == next.found && run' == next.run && startIndex' == next.offset && consecutiveSeen' == next.stale
    ensures log' == Advance(Env(fetch, seen, maxResults, requestSize),
                            LoopState(found, run, startIndex, consecutiveSeen, log),
                            PageYield(page, seen + run, Room(found, maxResults))).log
  {
    ghost var yielded := PageYield(page, seen + run, Room(found, maxResults));
    found', run' := TakeNewPapers(page, seen, run, found, maxResults);
    var newPapersInBatch := |found'| - |found|;
    if newPapersInBatch == 0 {
      consecutiveSeen' := consecutiveSeen + 1;
    } else {
      consecutiveSeen' := 0;
    }
    startIndex' := startIndex + requestSize;
    ghost var slept := false;
    if |found'| < maxResults && consecutiveSeen' < MaxConsecutiveSeen {
      slept := true;
    }
    assert found'[|found|..] == yielded;
    log' := log + [Fetched(startIndex, found'[|found|..], slept)];
  }

  class ArxivClient {
    /** Paper identifier to the time it was last marked as seen. */
    var seenPapers: map<string, string>

    /** A client over the stored seen map, or an empty one when the file is
        missing or unreadable. */
    constructor(stored: Option<map<string, string>>)
      ensures seenPapers == (if stored.Some? then stored.value else map[])
    {
      seenPapers := if stored.Some? then stored.value else map[];
    }

    /** Every truthy paper's identifier now maps to `now`; every other entry
        of the map is unchanged, and nothing else is added. */
    method MarkPapersAsSeen(papers: seq<Option<PaperData>>, now: string)
      modifies this
      ensures seenPapers.Keys == old(seenPapers).Keys + PresentIds(papers)
      ensures forall id :: id in PresentIds(papers) ==> seenPapers[id] == now
      ensures forall id :: id in old(seenPapers) && id !in PresentIds(papers) ==>
        seenPapers[id] == old(seenPapers)[id]
    {
      var i := 0;
      while i < |papers|
        invariant 0 <= i <= |papers|
        invariant seenPapers.Keys == old(seenPapers).Keys + PresentIds(papers[..i])
        invariant forall id :: id in PresentIds(papers[..i]) ==> seenPapers[id] == now
        invariant forall id :: id in old(seenPapers) && id !in PresentIds(papers[..i]) ==>
          seenPapers[id] == old(seenPapers)[id]
      {
        assert papers[..i + 1] == papers[..i] + [papers[i]];
        assert forall p :: p in papers[..i + 1] <==> p in papers[..i] || p == papers[i];
        if papers[i].Some? {
          seenPapers := seenPapers[papers[i].value.id := now];
        }
        i := i + 1;
      }
      assert papers[..i] == papers;
    }

    /** The paginated interpretability search: the papers and the page log
        are those of `Discover` over the seen map at the start, and the found
        papers are then marked as seen. The progress message at the top of
        the loop divides the offset by the page size before any request, so
        a page size of zero raises on the first iteration: the call fails
        without marking anything. */
    method SearchInterpretabilityPapers(maxResults: int, requestSize: int,
                                        fetch: PageRequest -> PageOutcome, now: string)
      returns (r: Result<seq<PaperData>, SearchError>, ghost log: seq<PageLog>)
      modifies this
      ensures r.Failure? <==> requestSize == 0 && maxResults > 0
      ensures r.Failure? ==> r.error == ZeroPageSize && seenPapers == old(seenPapers)
      ensures r.Success? ==> var d := Discover(Env(fetch, old(seenPapers).Keys, maxResults, requestSize));
        r.value == d.papers && log == d.log
      ensures r.Success? ==> seenPapers.Keys == old(seenPapers).Keys + Ids(r.value)
      ensures r.Success? ==> forall id :: id in Ids(r.value) ==> seenPapers[id] == now
      ensures r.Success? ==> forall id :: id in old(seenPapers) && id !in Ids(r.value) ==>
        seenPapers[id] == old(seenPapers)[id]
    {
      if requestSize == 0 && maxResults > 0 {
        return Failure(ZeroPageSize), [];
      }
      var seen := seenPapers.Keys;
      ghost var env := Env(fetch, seen, maxResults, requestSize);
      var found: seq<PaperData> := [];
      var seenInThisRun: set<string> := {};
      var startIndex := 0;
      var consecutiveSeen: nat := 0;
      log := [];
      while |found| < maxResults && consecutiveSeen < MaxConsecutiveSeen
        invariant seenPapers == old(seenPapers)
        invariant DiscoverFrom(env, LoopState(found, seenInThisRun, startIndex, consecutiveSeen, log)) == Discover(env)
        decreases Budget(env, LoopState(found, seenInThisRun, startIndex, consecutiveSeen, log))
      {
        ghost var st := LoopState(found, seenInThisRun, startIndex, consecutiveSeen, log);
        var outcome := fetch(PageRequest(InterpretabilityQuery, requestSize, startIndex));
        if outcome.RequestError? {
          log := log + [Failed(startIndex)];
          assert DiscoverFrom(env, st) == Discovery(found, log, RequestFailed);
          break;
        }
        var results := outcome.results;
        if results == [] {
          log := log + [Exhausted(startIndex)];
          assert DiscoverFrom(env, st) == Discovery(found, log, NoMorePapers);
          break;
        }
        var page := ConvertAll(results);
        ghost var yielded := PageYield(page, seen + seenInThisRun, Room(found, maxResults));
        ListingAdvance(env, st, results, page, seen + seenInThisRun, Room(found, maxResults), yielded);
        AdvanceBudget(env, st, yielded);
        found, seenInThisRun, startIndex, consecutiveSeen, log :=
          ListingIteration(fetch, page, seen, maxResults, requestSize, found, seenInThisRun, startIndex, consecutiveSeen, log);
      }
      PresentIdsAll(found);
      MarkPapersAsSeen(AllPresent(found), now);
      r := Success(found);
    }

    /** The general search: the query is `BuildQuery` of the arguments, the
        papers are the results' new papers in stream order up to
        `maxResults` (at least one when any is new), and they are then marked
        as seen. When the stream raises after its last result and the scan
        reached that point without filling the limit, the exception ends the
        call and the seen map is left as it was. */
    method Search(searchTerms: Arg, categories: Arg, maxResults: int,
                  results: string -> ResultStream, now: string)
      returns (r: Result<seq<PaperData>, SearchError>)
      modifies this
      ensures var stream := results(BuildQuery(searchTerms, categories));
        var limit := if maxResults >= 1 then maxResults else 1;
        var taken := PageYield(ConvertAll(stream.results), old(seenPapers).Keys, limit);
        r == if stream.raises && |taken| < limit then Failure(StreamRaised) else Success(taken)
      ensures r.Failure? ==> seenPapers == old(seenPapers)
      ensures r.Success? ==> seenPapers.Keys == old(seenPapers).Keys + Ids(r.value)
      ensures r.Success? ==> forall id :: id in Ids(r.value) ==> seenPapers[id] == now
      ensures r.Success? ==> forall id :: id in old(seenPapers) && id !in Ids(r.value) ==>
        seenPapers[id] == old(seenPapers)[id]
    {
      var query := BuildQuery(searchTerms, categories);
      var stream := results(query);
      var limit := Room([], maxResults);
      ghost var taken := PageYield(ConvertAll(stream.results), seenPapers.Keys, limit);
      var found: seq<PaperData>, seenInThisRun: set<string>;
      found, seenInThisRun := TakeNewPapers(ConvertAll(stream.results), seenPapers.Keys, {}, [], maxResults);
      assert seenPapers.Keys + {} == seenPapers.Keys;
      assert found == taken;
      assert limit == if maxResults >= 1 then maxResults else 1;
      if stream.raises && |found| < limit {
        return Failure(StreamRaised);
      }
      PresentIdsAll(found);
      MarkPapersAsSeen(AllPresent(found), now);
      r := Success(found);
    }
  }

  /** The general search returns at most `maxResults` papers when that is
      positive and at most one otherwise, none of them already seen, with
      distinct identifiers, each the conversion of a streamed result; and
      when it returns fewer than that, it returned every result not yet seen. */
  lemma SearchBounds(stream: seq<ArxivResult>, seen: set<string>, maxResults: int)
    ensures var limit := if maxResults >= 1 then maxResults else 1;
      var found := PageYield(ConvertAll(stream), seen, limit);
      && |found| <= limit
      && (forall p :: p in found ==> p.id !in seen)
      && DistinctIds(found)
      && (forall p :: p in found ==> p in ConvertAll(stream))
      && (|found| < limit ==>
            forall k :: 0 <= k < |stream| && IdOf(stream[k]) !in seen ==> IdOf(stream[k]) in Ids(found))
  {
    var limit := if maxResults >= 1 then maxResults else 1;
    var page := ConvertAll(stream);
    PageYieldSpec(page, seen, limit);
    forall k | 0 <= k < |stream| && IdOf(stream[k]) !in seen
      ensures page[k].id == IdOf(stream[k]) && page[k] in page
    {
      ConvertResultSpec(stream[k]);
    }
  }
}
