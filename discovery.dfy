/**
 * What `ArxivClient.search_interpretability_papers` computes (modules/arxiv.py),
 * stated as a recursive function over the page loop, with a log of every page
 * request, and the properties of that loop proved about it.
 *
 * The arXiv library is an oracle `fetch` from a page request to the outcome
 * of that request: a list of results (possibly empty) or a raised error.
 */
module Discovery {
  import opened Common
  import opened Papers

  /** The loop stops after this many consecutive pages without a new paper. */
  const MaxConsecutiveSeen: nat := 3

  /** The fixed query the paginated search sends. */
  const InterpretabilityQuery: string :=
    "(cat:cs.AI OR cat:cs.LG OR cat:cs.CL) AND %22mechanistic interpretability%22"

  /** One `arxiv.Search` for a page: query, page size and start offset. */
  datatype PageRequest = PageRequest(query: string, size: int, offset: int)

  /** What listing the results of one page request gives. */
  datatype PageOutcome = Entries(results: seq<ArxivResult>) | RequestError

  /** One page request as it happened: the page listed results (with the new
      papers it contributed, and whether the loop then paused before the next
      request), listed nothing, or raised. */
  datatype PageLog =
    | Fetched(offset: int, newPapers: seq<PaperData>, slept: bool)
    | Exhausted(offset: int)
    | Failed(offset: int)

  /** Why the loop ended. */
  datatype Stop = EnoughPapers | StalePages | NoMorePapers | RequestFailed

  /** The outcome of a discovery: the new papers, the page log, the stop reason. */
  datatype Discovery = Discovery(papers: seq<PaperData>, log: seq<PageLog>, stop: Stop)

  /** Every result of a page converted, in order. The source converts a
      result only after finding its identifier new; conversion has no effects
      and sets `id` to that same identifier (`ConvertResultSpec`), so the scan
      is stated over the converted page. */
  function ConvertAll(results: seq<ArxivResult>): (page: seq<PaperData>)
    ensures |page| == |results|
    ensures forall k :: 0 <= k < |results| ==> page[k] == ConvertResult(results[k])
  {
    seq(|results|, k requires 0 <= k < |results| => ConvertResult(results[k]))
  }

  /** The new papers one page contributes: the papers whose identifier is not
      excluded and not already taken from this page, in page order, stopping
      right after the `room`-th one. */
  function PageYield(page: seq<PaperData>, excluded: set<string>, room: nat): seq<PaperData>
    requires room >= 1
    decreases |page|
  {
    if page == [] then []
    else
      var id := page[0].id;
      if id in excluded then PageYield(page[1..], excluded, room)
      else if room == 1 then [page[0]]
      else [page[0]] + PageYield(page[1..], excluded + {id}, room - 1)
  }

  /** A page yields at most `room` papers, and no more than it lists. */
  lemma {:induction false} PageYieldBounds(page: seq<PaperData>, excluded: set<string>, room: nat)
    requires room >= 1
    ensures |PageYield(page, excluded, room)| <= room
    ensures |PageYield(page, excluded, room)| <= |page|
    decreases |page|
  {
    if page != [] {
      var id := page[0].id;
      if id in excluded {
        PageYieldBounds(page[1..], excluded, room);
      } else if room > 1 {
        PageYieldBounds(page[1..], excluded + {id}, room - 1);
      }
    }
  }

  /** No yielded paper is excluded, and no identifier is yielded twice. */
  lemma {:induction false} PageYieldFresh(page: seq<PaperData>, excluded: set<string>, room: nat)
    requires room >= 1
    ensures forall p :: p in PageYield(page, excluded, room) ==> p.id !in excluded
    ensures DistinctIds(PageYield(page, excluded, room))
    decreases |page|
  {
    if page != [] {
      var id := page[0].id;
      if id in excluded {
        PageYieldFresh(page[1..], excluded, room);
      } else if room > 1 {
        var rest := PageYield(page[1..], excluded + {id}, room - 1);
        PageYieldFresh(page[1..], excluded + {id}, room - 1);
        YieldCons(page[0], rest, excluded);
      }
    }
  }

  /** Every yielded paper is one of the page's papers. */
  lemma {:induction false} PageYieldFromPage(page: seq<PaperData>, excluded: set<string>, room: nat)
    requires room >= 1
    ensures forall p :: p in PageYield(page, excluded, room) ==> p in page
    decreases |page|
  {
    if page != [] {
      var id := page[0].id;
      if id in excluded {
        PageYieldFromPage(page[1..], excluded, room);
      } else if room > 1 {
        PageYieldFromPage(page[1..], excluded + {id}, room - 1);
      }
    }
  }

  /** When a page yields fewer than `room` papers, every paper on it whose
      identifier is not excluded was taken. */
  predicate YieldComplete(page: seq<PaperData>, excluded: set<string>, room: nat)
    requires room >= 1
  {
    var yielded := PageYield(page, excluded, room);
    |yielded| < room ==> forall p :: p in page && p.id !in excluded ==> p.id in Ids(yielded)
  }

  lemma {:induction false} PageYieldComplete(page: seq<PaperData>, excluded: set<string>, room: nat)
    requires room >= 1
    ensures YieldComplete(page, excluded, room)
    decreases |page|
  {
    if page != [] {
      var id := page[0].id;
      var yielded := PageYield(page, excluded, room);
      assert forall p :: p in page <==> p == page[0] || p in page[1..];
      if id in excluded {
        PageYieldComplete(page[1..], excluded, room);
      } else if room > 1 {
        var rest := PageYield(page[1..], excluded + {id}, room - 1);
        PageYieldComplete(page[1..], excluded + {id}, room - 1);
        assert Ids(yielded) == {id} + Ids(rest) by {
          assert forall p :: p in yielded <==> p == page[0] || p in rest;
        }
      }
    }
  }

  /** All four properties of a page's yield. */
  lemma PageYieldSpec(page: seq<PaperData>, excluded: set<string>, room: nat)
    requires room >= 1
    ensures var yielded := PageYield(page, excluded, room);
      && |yielded| <= room && |yielded| <= |page|
      && (forall p :: p in yielded ==> p.id !in excluded)
      && DistinctIds(yielded)
      && (forall p :: p in yielded ==> p in page)
      && YieldComplete(page, excluded, room)
  {
    PageYieldBounds(page, excluded, room);
    PageYieldFresh(page, excluded, room);
    PageYieldFromPage(page, excluded, room);
    PageYieldComplete(page, excluded, room);
  }

  /** The papers of a page whose identifier is neither excluded nor carried
      by an earlier paper of the page, in page order: every paper a scan of
      the whole page would take. */
  function NewPapers(page: seq<PaperData>, excluded: set<string>): seq<PaperData>
  {
    if page == [] then []
    else
      var init, last := page[..|page| - 1], page[|page| - 1];
      NewPapers(init, excluded) + (if last.id !in excluded && last.id !in Ids(init) then [last] else [])
  }

  /** The new papers of a page, seen from its first paper. */
  lemma {:induction false} NewPapersCons(x: PaperData, rest: seq<PaperData>, excluded: set<string>)
    ensures NewPapers([x] + rest, excluded)
      == (if x.id in excluded then [] else [x]) + NewPapers(rest, excluded + {x.id})
    decreases |rest|
  {
    var page := [x] + rest;
    if rest == [] {
      assert page[..|page| - 1] == [] && page[|page| - 1] == x;
    } else {
      var init, last := rest[..|rest| - 1], rest[|rest| - 1];
      var front := [x] + init;
      assert page[..|page| - 1] == front && page[|page| - 1] == last;
      var tail := if last.id !in excluded && last.id !in Ids(front) then [last] else [];
      assert NewPapers(page, excluded) == NewPapers(front, excluded) + tail;
      IdsConcat([x], init);
      assert Ids([x]) == {x.id};
      assert tail == if last.id !in excluded + {x.id} && last.id !in Ids(init) then [last] else [];
      assert NewPapers(rest, excluded + {x.id}) == NewPapers(init, excluded + {x.id}) + tail;
      NewPapersCons(x, init, excluded);
    }
  }

  /** A page yields its first `room` new papers, or all of them when it has
      fewer, in page order. */
  lemma {:induction false} PageYieldFirstNew(page: seq<PaperData>, excluded: set<string>, room: nat)
    requires room >= 1
    ensures var news := NewPapers(page, excluded);
      PageYield(page, excluded, room) == if |news| <= room then news else news[..room]
    decreases |page|
  {
    if page == [] {
      assert NewPapers(page, excluded) == [];
    } else {
      var x, rest := page[0], page[1..];
      var news := NewPapers(page, excluded);
      var yielded := PageYield(page, excluded, room);
      assert page == [x] + rest;
      NewPapersCons(x, rest, excluded);
      var news' := NewPapers(rest, excluded + {x.id});
      if x.id in excluded {
        assert excluded + {x.id} == excluded;
        assert news == news' && yielded == PageYield(rest, excluded, room);
        PageYieldFirstNew(rest, excluded, room);
      } else if room > 1 {
        assert news == [x] + news';
        assert yielded == [x] + PageYield(rest, excluded + {x.id}, room - 1);
        PageYieldFirstNew(rest, excluded + {x.id}, room - 1);
        if |news'| > room - 1 {
          assert news[..room] == [x] + news'[..room - 1];
        }
      } else {
        assert news == [x] + news' && yielded == [x];
        assert news[..1] == [x];
      }
    }
  }

  /** A scan that has taken `taken` so far and has `PageYield(page[i..], ..)`
      still to take, moved past paper `i`. */
  lemma PageYieldAt(page: seq<PaperData>, i: nat, excluded: set<string>, room: nat,
                    taken: seq<PaperData>, yielded: seq<PaperData>)
    requires i < |page| && room >= 1
    requires yielded == taken + PageYield(page[i..], excluded, room)
    ensures page[i].id in excluded ==> yielded == taken + PageYield(page[i + 1..], excluded, room)
    ensures page[i].id !in excluded && room == 1 ==> yielded == taken + [page[i]]
    ensures page[i].id !in excluded && room > 1 ==>
      yielded == (taken + [page[i]]) + PageYield(page[i + 1..], excluded + {page[i].id}, room - 1)
  {
    assert page[i..][0] == page[i] && page[i..][1..] == page[i + 1..];
  }

  lemma YieldCons(first: PaperData, rest: seq<PaperData>, excluded: set<string>)
    requires first.id !in excluded
    requires forall p :: p in rest ==> p.id !in excluded + {first.id}
    requires DistinctIds(rest)
    ensures forall p :: p in [first] + rest ==> p.id !in excluded
    ensures DistinctIds([first] + rest)
  {
    var y := [first] + rest;
    forall i, j | 0 <= i < j < |y| ensures y[i].id != y[j].id {
      assert y[j] == rest[j - 1] && rest[j - 1] in rest;
      if i > 0 {
        assert y[i] == rest[i - 1];
      }
    }
  }

  /** The fixed inputs of one call: the page oracle, the identifiers already
      in the seen map at the start, `max_results` and `request_size`. */
  datatype Env = Env(fetch: PageRequest -> PageOutcome, seen: set<string>, maxResults: int, size: int)

  /** The loop variables: papers found, identifiers emitted in this call
      (`seen_in_this_run`), the next offset (`start_index`), the count of
      consecutive pages without a new paper, and the log of requests so far. */
  datatype LoopState = LoopState(found: seq<PaperData>, run: set<string>, offset: int, stale: nat, log: seq<PageLog>)

  /** What one page request does: it ends the call, or moves to a new state. */
  datatype Step = Finished(result: Discovery) | Advanced(next: LoopState)

  /** The loop guard: fewer papers than wanted and fewer stale pages than the limit. */
  predicate Continue(env: Env, found: seq<PaperData>, stale: nat)
  {
    |found| < env.maxResults && stale < MaxConsecutiveSeen
  }

  /** A bound on the number of further page requests. */
  function Budget(env: Env, st: LoopState): nat
  {
    if Continue(env, st.found, st.stale) then 4 * (env.maxResults - |st.found|) - st.stale else 0
  }

  /** The initial loop state. */
  function Start(): LoopState
  {
    LoopState([], {}, 0, 0, [])
  }

  /** One iteration of the page loop: request the page at the current offset;
      an error or an empty page ends the call; otherwise take the page's new
      papers, update the stale counter, move the offset on by the page size,
      and pause when the loop will run again. */
  function PageStep(env: Env, st: LoopState): (s: Step)
    requires Continue(env, st.found, st.stale)
    ensures s.Advanced? ==> Budget(env, s.next) < Budget(env, st)
  {
    match env.fetch(PageRequest(InterpretabilityQuery, env.size, st.offset))
    case RequestError => Finished(Discovery(st.found, st.log + [Failed(st.offset)], RequestFailed))
    case Entries(results) =>
      if results == [] then Finished(Discovery(st.found, st.log + [Exhausted(st.offset)], NoMorePapers))
      else
        var yielded := PageYield(ConvertAll(results), env.seen + st.run, env.maxResults - |st.found|);
        var found := st.found + yielded;
        var stale := if yielded == [] then st.stale + 1 else 0;
        Advanced(LoopState(found, st.run + Ids(yielded), st.offset + env.size, stale,
                           st.log + [Fetched(st.offset, yielded, Continue(env, found, stale))]))
  }

  /** The loop run to its end from a given state. */
  function DiscoverFrom(env: Env, st: LoopState): Discovery
    decreases Budget(env, st)
  {
    if !Continue(env, st.found, st.stale) then
      Discovery(st.found, st.log, if |st.found| >= env.maxResults then EnoughPapers else StalePages)
    else
      match PageStep(env, st)
      case Finished(d) => d
      case Advanced(next) => DiscoverFrom(env, next)
  }

  /** One discovery call. */
  function Discover(env: Env): Discovery
  {
    DiscoverFrom(env, Start())
  }

  /** The papers of all listed pages, in page order. */
  function Flatten(log: seq<PageLog>): seq<PaperData>
  {
    if log == [] then []
    else Flatten(log[..|log| - 1]) + (if log[|log| - 1].Fetched? then log[|log| - 1].newPapers else [])
  }

  /** Page `k` and the two after it listed results without a new paper. */
  predicate StaleRunAt(log: seq<PageLog>, k: int)
  {
    0 <= k && k + 3 <= |log|
    && log[k].Fetched? && log[k].newPapers == []
    && log[k + 1].Fetched? && log[k + 1].newPapers == []
    && log[k + 2].Fetched? && log[k + 2].newPapers == []
  }

  /** The number of pages at the end of the log that listed results without a new paper. */
  function TrailingStale(log: seq<PageLog>): nat
  {
    if log != [] && log[|log| - 1].Fetched? && log[|log| - 1].newPapers == [] then
      1 + TrailingStale(log[..|log| - 1])
    else 0
  }

  lemma {:induction false} TrailingStaleRun(log: seq<PageLog>)
    requires TrailingStale(log) >= 3
    ensures StaleRunAt(log, |log| - 3)
  {
    var a := log[..|log| - 1];
    var b := a[..|a| - 1];
    assert TrailingStale(a) >= 2 && TrailingStale(b) >= 1;
    assert log[|log| - 2] == a[|a| - 1] && log[|log| - 3] == b[|b| - 1];
  }

  lemma {:induction false} StaleRunTrailing(log: seq<PageLog>)
    requires |log| >= 3 && StaleRunAt(log, |log| - 3)
    ensures TrailingStale(log) >= 3
  {
    var a := log[..|log| - 1];
    var b := a[..|a| - 1];
    assert a[|a| - 1] == log[|log| - 2] && b[|b| - 1] == log[|log| - 3];
    assert TrailingStale(b) >= 1;
  }

  /** A run of stale pages in an extended log ends at the new page or lies
      wholly in the old log. */
  lemma StaleRunPrefix(log: seq<PageLog>, e: PageLog, k: int)
    requires StaleRunAt(log + [e], k)
    ensures k + 3 == |log| + 1 || StaleRunAt(log, k)
  {
    if k + 3 < |log| + 1 {
      assert forall j :: 0 <= j < |log| ==> (log + [e])[j] == log[j];
    }
  }

  // ---------------------------------------------------------------------------
  // What the loop keeps, and what it guarantees at the end
  // ---------------------------------------------------------------------------

  /** The papers so far are new to the seen map, distinct, within the limit,
      and their identifiers are exactly the ones emitted in this call. */
  predicate PapersInv(env: Env, st: LoopState)
  {
    && st.run == Ids(st.found)
    && (forall p :: p in st.found ==> p.id !in env.seen)
    && DistinctIds(st.found)
    && (|st.found| <= env.maxResults || st.found == [])
  }

  /** The log so far: every request listed results, page `k` was at offset
      `k * size`, the papers are the pages' new papers in order, and the
      loop paused after every page but possibly the latest. */
  predicate LogInv(env: Env, st: LoopState)
  {
    && st.offset == |st.log| * env.size
    && (forall k :: 0 <= k < |st.log| ==> st.log[k].Fetched? && st.log[k].offset == k * env.size)
    && st.found == Flatten(st.log)
    && (forall k :: 0 <= k < |st.log| ==>
          (st.log[k].slept <==> k + 1 < |st.log| || Continue(env, st.found, st.stale)))
  }

  /** The stale counter counts the trailing pages without a new paper, and
      three such pages in a row occur only at the end, when the loop stops. */
  ghost predicate StaleInv(env: Env, st: LoopState)
  {
    && st.stale == TrailingStale(st.log)
    && (forall k :: 0 <= k < |st.log| ==> st.log[k].Fetched?)
    && (forall k :: StaleRunAt(st.log, k) ==>
          k + 3 == |st.log| && st.stale >= MaxConsecutiveSeen && |st.found| < env.maxResults)
    && (st.stale >= MaxConsecutiveSeen ==> |st.found| < env.maxResults)
  }

  ghost predicate Inv(env: Env, st: LoopState)
  {
    PapersInv(env, st) && LogInv(env, st) && StaleInv(env, st)
  }

  /** What a finished call guarantees about its papers. */
  predicate PapersOk(env: Env, d: Discovery)
  {
    && (forall p :: p in d.papers ==> p.id !in env.seen)
    && DistinctIds(d.papers)
    && (|d.papers| <= env.maxResults || d.papers == [])
    && (d.stop == EnoughPapers <==> |d.papers| >= env.maxResults)
  }

  /** What a finished call guarantees about its page log. */
  predicate LogOk(env: Env, d: Discovery)
  {
    && d.papers == Flatten(d.log)
    && (forall k :: 0 <= k < |d.log| ==> d.log[k].offset == k * env.size)
    && (forall k :: 0 <= k < |d.log| - 1 ==> d.log[k].Fetched?)
    && (forall k :: 0 <= k < |d.log| ==> d.log[k].Fetched? ==> (d.log[k].slept <==> k + 1 < |d.log|))
    && (d.stop == NoMorePapers <==> |d.log| > 0 && d.log[|d.log| - 1].Exhausted?)
    && (d.stop == RequestFailed <==> |d.log| > 0 && d.log[|d.log| - 1].Failed?)
  }

  /** What a finished call guarantees about stale pages. */
  ghost predicate StaleOk(env: Env, d: Discovery)
  {
    && (forall k :: StaleRunAt(d.log, k) ==> k + 3 == |d.log| && d.stop == StalePages)
    && (d.stop == StalePages ==> |d.log| >= 3 && StaleRunAt(d.log, |d.log| - 3))
  }

  /** The request for page `k` of the listing. */
  function RequestAt(env: Env, k: nat): PageRequest
  {
    PageRequest(InterpretabilityQuery, env.size, k * env.size)
  }

  /** Entry `k` of a log records what the feed answers to the request for
      page `k`: an error, an empty page, or results whose new papers are the
      ones `PageYield` takes from them after the papers of the earlier pages. */
  predicate PageFollowsFeed(env: Env, log: seq<PageLog>, k: nat)
    requires k < |log|
  {
    var out := env.fetch(RequestAt(env, k));
    var before := Flatten(log[..k]);
    && (log[k].Failed? <==> out.RequestError?)
    && (log[k].Exhausted? <==> out == Entries([]))
    && (log[k].Fetched? ==>
          && out.Entries? && out.results != [] && |before| < env.maxResults
          && log[k].newPapers
             == PageYield(ConvertAll(out.results), env.seen + Ids(before), env.maxResults - |before|))
  }

  /** Every entry of the log records what the feed answered. */
  predicate FeedOk(env: Env, log: seq<PageLog>)
  {
    forall k :: 0 <= k < |log| ==> PageFollowsFeed(env, log, k)
  }

  /** A log that follows the feed, extended by an entry that does, still does. */
  lemma FeedSnoc(env: Env, log: seq<PageLog>, e: PageLog)
    requires FeedOk(env, log) && PageFollowsFeed(env, log + [e], |log|)
    ensures FeedOk(env, log + [e])
  {
    forall k | 0 <= k < |log| ensures PageFollowsFeed(env, log + [e], k) {
      assert (log + [e])[..k] == log[..k] && (log + [e])[k] == log[k];
      assert PageFollowsFeed(env, log, k);
    }
  }

  /** A page logged without a new paper listed only papers already in the
      seen map or found on an earlier page of the call. */
  lemma StalePageAllSeen(env: Env, log: seq<PageLog>, k: nat)
    requires FeedOk(env, log) && k < |log| && log[k].Fetched? && log[k].newPapers == []
    ensures var out := env.fetch(RequestAt(env, k));
      && out.Entries?
      && forall p :: p in ConvertAll(out.results) ==> p.id in env.seen + Ids(Flatten(log[..k]))
  {
    assert PageFollowsFeed(env, log, k);
    var out := env.fetch(RequestAt(env, k));
    var before := Flatten(log[..k]);
    PageYieldComplete(ConvertAll(out.results), env.seen + Ids(before), env.maxResults - |before|);
    assert Ids([]) == {};
  }

  /** An entry that records the feed's answer at the current offset keeps
      the log in step with the feed. */
  lemma FeedExtend(env: Env, st: LoopState, e: PageLog)
    requires PapersInv(env, st) && LogInv(env, st) && FeedOk(env, st.log)
    requires var out := env.fetch(PageRequest(InterpretabilityQuery, env.size, st.offset));
      && (e.Failed? <==> out.RequestError?)
      && (e.Exhausted? <==> out == Entries([]))
      && (e.Fetched? ==>
            && out.Entries? && out.results != [] && |st.found| < env.maxResults
            && e.newPapers == PageYield(ConvertAll(out.results), env.seen + st.run, env.maxResults - |st.found|))
    ensures FeedOk(env, st.log + [e])
  {
    var n := |st.log|;
    assert RequestAt(env, n) == PageRequest(InterpretabilityQuery, env.size, st.offset);
    assert (st.log + [e])[..n] == st.log && (st.log + [e])[n] == e;
    assert PageFollowsFeed(env, st.log + [e], n);
    FeedSnoc(env, st.log, e);
  }

  /** One page keeps the log in step with the feed. */
  lemma StepFeed(env: Env, st: LoopState)
    requires Continue(env, st.found, st.stale) && PapersInv(env, st) && LogInv(env, st)
    requires FeedOk(env, st.log)
    ensures match PageStep(env, st)
      case Finished(d) => FeedOk(env, d.log)
      case Advanced(next) => FeedOk(env, next.log)
  {
    match env.fetch(PageRequest(InterpretabilityQuery, env.size, st.offset))
    case RequestError =>
      FeedExtend(env, st, Failed(st.offset));
    case Entries(results) =>
      if results == [] {
        FeedExtend(env, st, Exhausted(st.offset));
      } else {
        PageStepListing(env, st, results);
        var next := PageStep(env, st).next;
        FeedExtend(env, st, next.log[|st.log|]);
        assert next.log == st.log + [next.log[|st.log|]];
      }
  }

  /** The loop run from any state whose log follows the feed ends with a log
      that follows the feed. */
  lemma {:induction false} DiscoverFromFeed(env: Env, st: LoopState)
    requires Inv(env, st) && FeedOk(env, st.log)
    ensures FeedOk(env, DiscoverFrom(env, st).log)
    decreases Budget(env, st)
  {
    if Continue(env, st.found, st.stale) {
      StepPapers(env, st);
      StepLog(env, st);
      StepStale(env, st);
      StepFeed(env, st);
      match PageStep(env, st)
      case Finished(d) =>
      case Advanced(next) => DiscoverFromFeed(env, next);
    }
  }

  lemma OffsetStep(n: nat, size: int)
    ensures (n + 1) * size == n * size + size
  {
  }

  /** The state after a listing page that contributed `yielded`. */
  function Advance(env: Env, st: LoopState, yielded: seq<PaperData>): LoopState
  {
    var found := st.found + yielded;
    var stale := if yielded == [] then st.stale + 1 else 0;
    LoopState(found, st.run + Ids(yielded), st.offset + env.size, stale,
              st.log + [Fetched(st.offset, yielded, Continue(env, found, stale))])
  }

  /** A listing page advances the loop by the papers `PageYield` takes from it. */
  lemma PageStepListing(env: Env, st: LoopState, results: seq<ArxivResult>)
    requires Continue(env, st.found, st.stale)
    requires env.fetch(PageRequest(InterpretabilityQuery, env.size, st.offset)) == Entries(results)
    requires results != []
    ensures PageStep(env, st)
      == Advanced(Advance(env, st, PageYield(ConvertAll(results), env.seen + st.run, env.maxResults - |st.found|)))
  {
  }

  /** A listing page leaves the rest of the call unchanged and uses up budget. */
  lemma ListingAdvance(env: Env, st: LoopState, results: seq<ArxivResult>,
                       page: seq<PaperData>, excluded: set<string>, room: nat, yielded: seq<PaperData>)
    requires Continue(env, st.found, st.stale)
    requires env.fetch(PageRequest(InterpretabilityQuery, env.size, st.offset)) == Entries(results)
    requires results != []
    requires page == ConvertAll(results) && excluded == env.seen + st.run && room == env.maxResults - |st.found|
    requires room >= 1 && yielded == PageYield(page, excluded, room)
    ensures DiscoverFrom(env, Advance(env, st, yielded)) == DiscoverFrom(env, st)
  {
    assert yielded == PageYield(ConvertAll(results), env.seen + st.run, env.maxResults - |st.found|);
    PageStepListing(env, st, results);
    DiscoverFromStep(env, st);
  }

  /** A page that moves the loop on leaves the rest of the call to the new state. */
  lemma DiscoverFromStep(env: Env, st: LoopState)
    requires Continue(env, st.found, st.stale) && PageStep(env, st).Advanced?
    ensures DiscoverFrom(env, st) == DiscoverFrom(env, PageStep(env, st).next)
  {
  }

  /** Every listing page uses up budget, whatever it contributes. */
  lemma AdvanceBudget(env: Env, st: LoopState, yielded: seq<PaperData>)
    requires Continue(env, st.found, st.stale)
    ensures Budget(env, Advance(env, st, yielded)) < Budget(env, st)
  {
  }

  /** One page keeps the paper invariant, or ends the call with its guarantees. */
  lemma StepPapers(env: Env, st: LoopState)
    requires Continue(env, st.found, st.stale) && PapersInv(env, st)
    ensures match PageStep(env, st)
      case Finished(d) => PapersOk(env, d)
      case Advanced(next) => PapersInv(env, next)
  {
    match env.fetch(PageRequest(InterpretabilityQuery, env.size, st.offset))
    case RequestError =>
    case Entries(results) =>
      if results != [] {
        PageStepListing(env, st, results);
        PageYieldSpec(ConvertAll(results), env.seen + st.run, env.maxResults - |st.found|);
        PapersAdvance(env, st, PageYield(ConvertAll(results), env.seen + st.run, env.maxResults - |st.found|));
      }
  }

  /** Papers new to the seen map and to this call, distinct and within the
      room left, keep the paper invariant. */
  lemma PapersAdvance(env: Env, st: LoopState, yielded: seq<PaperData>)
    requires PapersInv(env, st) && |st.found| < env.maxResults
    requires |yielded| <= env.maxResults - |st.found|
    requires forall p :: p in yielded ==> p.id !in env.seen + st.run
    requires DistinctIds(yielded)
    ensures PapersInv(env, Advance(env, st, yielded))
  {
    IdsConcat(st.found, yielded);
    DistinctConcat(st.found, yielded);
  }

  /** One page keeps the log invariant, or ends the call with its guarantees. */
  lemma StepLog(env: Env, st: LoopState)
    requires Continue(env, st.found, st.stale) && LogInv(env, st)
    ensures match PageStep(env, st)
      case Finished(d) => LogOk(env, d)
      case Advanced(next) => LogInv(env, next)
  {
    match env.fetch(PageRequest(InterpretabilityQuery, env.size, st.offset))
    case RequestError =>
      LogFinish(env, st, Failed(st.offset), RequestFailed);
    case Entries(results) =>
      if results == [] {
        LogFinish(env, st, Exhausted(st.offset), NoMorePapers);
      } else {
        PageStepListing(env, st, results);
        LogAdvance(env, st, PageYield(ConvertAll(results), env.seen + st.run, env.maxResults - |st.found|));
      }
  }

  /** An empty page or an error at the current offset ends the call with the
      log guarantees. */
  lemma LogFinish(env: Env, st: LoopState, last: PageLog, stop: Stop)
    requires LogInv(env, st) && Continue(env, st.found, st.stale)
    requires last == Failed(st.offset) || last == Exhausted(st.offset)
    requires stop == (if last.Failed? then RequestFailed else NoMorePapers)
    ensures LogOk(env, Discovery(st.found, st.log + [last], stop))
  {
    var log := st.log + [last];
    assert log[..|log| - 1] == st.log;
    assert forall k :: 0 <= k < |st.log| ==> log[k] == st.log[k];
  }

  /** A listing page keeps the log invariant. */
  lemma LogAdvance(env: Env, st: LoopState, yielded: seq<PaperData>)
    requires LogInv(env, st) && Continue(env, st.found, st.stale)
    ensures LogInv(env, Advance(env, st, yielded))
  {
    var next := Advance(env, st, yielded);
    assert next.log[..|next.log| - 1] == st.log;
    assert forall k :: 0 <= k < |st.log| ==> next.log[k] == st.log[k];
    OffsetStep(|st.log|, env.size);
  }

  /** One page keeps the stale invariant, or ends the call with its guarantees. */
  lemma StepStale(env: Env, st: LoopState)
    requires Continue(env, st.found, st.stale) && StaleInv(env, st)
    ensures match PageStep(env, st)
      case Finished(d) => StaleOk(env, d)
      case Advanced(next) => StaleInv(env, next)
  {
    assert forall k :: !StaleRunAt(st.log, k);
    match env.fetch(PageRequest(InterpretabilityQuery, env.size, st.offset))
    case RequestError =>
      NoStaleRunAfter(st.log, Failed(st.offset));
    case Entries(results) =>
      if results == [] {
        NoStaleRunAfter(st.log, Exhausted(st.offset));
      } else {
        PageStepListing(env, st, results);
        var yielded := PageYield(ConvertAll(results), env.seen + st.run, env.maxResults - |st.found|);
        var found := st.found + yielded;
        var stale := if yielded == [] then st.stale + 1 else 0;
        StaleAdvance(env, st, yielded, Continue(env, found, stale));
      }
  }

  /** A listing page keeps the stale invariant. */
  lemma StaleAdvance(env: Env, st: LoopState, yielded: seq<PaperData>, slept: bool)
    requires Continue(env, st.found, st.stale) && StaleInv(env, st)
    ensures var stale := if yielded == [] then st.stale + 1 else 0;
      StaleInv(env, LoopState(st.found + yielded, st.run + Ids(yielded), st.offset + env.size, stale,
                              st.log + [Fetched(st.offset, yielded, slept)]))
  {
    var e := Fetched(st.offset, yielded, slept);
    var log := st.log + [e];
    var stale := if yielded == [] then st.stale + 1 else 0;
    assert log[..|log| - 1] == st.log;
    assert stale == TrailingStale(log);
    assert forall k :: 0 <= k < |st.log| ==> log[k] == st.log[k];
    forall k | StaleRunAt(log, k)
      ensures k + 3 == |log| && stale >= MaxConsecutiveSeen && |st.found + yielded| < env.maxResults
    {
      StaleRunPrefix(st.log, e, k);
      StaleRunTrailing(log);
    }
  }

  /** A page that is not a listing cannot complete a run of stale pages. */
  lemma NoStaleRunAfter(log: seq<PageLog>, e: PageLog)
    requires !e.Fetched? && forall k :: !StaleRunAt(log, k)
    ensures forall k :: !StaleRunAt(log + [e], k)
  {
    forall k | StaleRunAt(log + [e], k) ensures false {
      StaleRunPrefix(log, e, k);
    }
  }

  /** The loop run from any state that satisfies the invariant ends with all
      three guarantees. */
  lemma {:induction false} DiscoverFromOk(env: Env, st: LoopState)
    requires Inv(env, st)
    ensures var d := DiscoverFrom(env, st);
      PapersOk(env, d) && LogOk(env, d) && StaleOk(env, d)
    decreases Budget(env, st)
  {
    if !Continue(env, st.found, st.stale) {
      if st.stale >= MaxConsecutiveSeen {
        TrailingStaleRun(st.log);
      }
    } else {
      StepPapers(env, st);
      StepLog(env, st);
      StepStale(env, st);
      match PageStep(env, st)
      case Finished(d) =>
      case Advanced(next) => DiscoverFromOk(env, next);
    }
  }

  /** The properties of one discovery call: `PapersOk` (fresh, distinct,
      within the limit, stopped for enough papers exactly when the limit is
      met), `LogOk` (page offsets, page order, pauses, empty page and error)
      `StaleOk` (three stale pages end the call, and only at the end) and
      `FeedOk` (each logged page is what the feed answered for its offset,
      and its new papers are the ones the scan takes from it). */
  lemma DiscoverSpec(env: Env)
    ensures PapersOk(env, Discover(env)) && LogOk(env, Discover(env)) && StaleOk(env, Discover(env))
    ensures FeedOk(env, Discover(env).log)
  {
    assert Ids([]) == {};
    assert Inv(env, Start());
    DiscoverFromOk(env, Start());
    DiscoverFromFeed(env, Start());
  }

  /** With a limit of zero or less no page is requested and nothing is found. */
  lemma DiscoverNothingWanted(env: Env)
    requires env.maxResults <= 0
    ensures Discover(env) == Discovery([], [], EnoughPapers)
  {
  }

  /** Repeating a call once its papers are marked as seen, against the same
      pages, returns no paper whose identifier the first call returned. */
  lemma DiscoverAgainFindsNothing(env: Env)
    ensures var d := Discover(env);
      var again := Discover(env.(seen := env.seen + Ids(d.papers)));
      forall p :: p in again.papers ==> p.id !in Ids(d.papers)
  {
    var d := Discover(env);
    var env' := env.(seen := env.seen + Ids(d.papers));
    DiscoverSpec(env');
  }
}
