/** `Start`: check the bucket, then walk the listing page by page, appending
    each page's hits, until enough hits are gathered or the pages run out. */
module Pagination {
  import opened SearchTypes
  import opened Matching
  import opened Selection

  /** The pages' hits joined in page order. */
  function Flatten(pages: seq<seq<Object>>): seq<Object>
  {
    if pages == [] then [] else pages[0] + Flatten(pages[1..])
  }

  function Max(a: int, b: int): int
  {
    if a < b then b else a
  }

  /** The value the listing callback returns: `true` asks for the next page. */
  predicate Continue(lastPage: bool, gathered: nat, resultCount: int)
  {
    lastPage || gathered < resultCount
  }

  /** What one listing request contributes to the walk: the hits of the page
      it delivered, or the listing error. */
  datatype PageOutcome = PageDone(hits: seq<Object>) | PageFailed(error: Error)

  function Outcome(env: Env, req: SReq, r: ListResponse): PageOutcome
  {
    match r
    case Page(contents) => PageDone(PageHits(env, req, contents))
    case ListFailed(e) => PageFailed(e)
  }

  /** The outcomes of the listing responses, one per response. */
  function Outcomes(env: Env, req: SReq, rs: seq<ListResponse>): seq<PageOutcome>
  {
    seq(|rs|, k requires 0 <= k < |rs| => Outcome(env, req, rs[k]))
  }

  /** How a walk over the listing ends: the hits of every page delivered, in
      page order, and the listing error that cut it short, if any. */
  datatype ListRun = ListRun(hits: seq<seq<Object>>, failure: Option<Error>)

  /** The walk over the page outcomes `os`, with `gathered` hits already
      accumulated; a page is the last one when no response follows it. */
  function Paginate(os: seq<PageOutcome>, resultCount: int, gathered: nat): ListRun
    decreases |os|
  {
    if os == [] then ListRun([], None)
    else match os[0]
      case PageFailed(e) => ListRun([], Some(e))
      case PageDone(h) =>
        if Continue(|os| == 1, gathered + |h|, resultCount) then
          var rest := Paginate(os[1..], resultCount, gathered + |h|);
          ListRun([h] + rest.hits, rest.failure)
        else
          ListRun([h], None)
  }

  /** The walk `Start` performs over a bucket's listing responses. */
  function Walk(env: Env, req: SReq, rs: seq<ListResponse>): ListRun
  {
    Paginate(Outcomes(env, req, rs), req.resultCount, 0)
  }

  /** How many listing requests a walk issued. */
  function Requests(run: ListRun): nat
  {
    |run.hits| + if run.failure.Some? then 1 else 0
  }

  /** What `Start` returns, with every page's hits in listing order. */
  function StartSpec(env: Env, req: SReq, head: Option<Error>, rs: seq<ListResponse>): Result<seq<Object>>
  {
    if head.Some? then Failure(head.value)
    else
      var run := Walk(env, req, rs);
      if run.failure.Some? then Failure(run.failure.value) else Success(Flatten(run.hits))
  }

  /** Page by page, the same hits up to order within each page. */
  ghost predicate SameUpToOrder(a: seq<seq<Object>>, b: seq<seq<Object>>)
  {
    |a| == |b| && forall k :: 0 <= k < |a| ==> multiset(a[k]) == multiset(b[k])
  }

  /** The per-page hits of a sequence of outcomes (none for an error). */
  function HitsOf(os: seq<PageOutcome>): seq<seq<Object>>
  {
    seq(|os|, k requires 0 <= k < |os| => if os[k].PageDone? then os[k].hits else [])
  }

  /** `Start`. `head` is the outcome of the HeadBucket call and `responses`
      the answers the listing service gives, in order. The ghost `pages` holds
      each delivered page's hits as appended, and `requested` counts the
      listing requests issued. */
  method Start(env: Env, req: SReq, head: Option<Error>, responses: seq<ListResponse>)
    returns (r: Result<seq<Object>>, ghost pages: seq<seq<Object>>, ghost requested: nat)
    ensures r.Failure? <==> StartSpec(env, req, head, responses).Failure?
    ensures r.Failure? ==> r == StartSpec(env, req, head, responses)
    ensures r.Success? ==> r.value == Flatten(pages)
    ensures r.Success? ==> multiset(r.value) == multiset(StartSpec(env, req, head, responses).value)
    ensures head.Some? ==> requested == 0 && pages == []
    ensures head.None? ==>
              var run := Walk(env, req, responses);
              SameUpToOrder(pages, run.hits) && requested == Requests(run)
  {
    if head.Some? {
      return Failure(head.value), [], 0;
    }
    r, pages, requested := ListPages(env, req, responses);
    if r.Success? {
      SameUpToOrderFlatten(pages, Walk(env, req, responses).hits);
    }
  }

  /** The listing walk of `Start`: the callback appends each page's hits and
      asks for the next page while `Continue` holds. */
  method ListPages(env: Env, req: SReq, responses: seq<ListResponse>)
    returns (r: Result<seq<Object>>, ghost pages: seq<seq<Object>>, ghost requested: nat)
    ensures var run := Walk(env, req, responses);
      && SameUpToOrder(pages, run.hits)
      && requested == Requests(run)
      && (run.failure.Some? ==> r == Failure(run.failure.value))
      && (run.failure.None? ==> r == Success(Flatten(pages)))
  {
    ghost var os := Outcomes(env, req, responses);
    ghost var run := Paginate(os, req.resultCount, 0);
    var result: seq<Object> := [];
    pages := [];
    ghost var hits: seq<seq<Object>> := [];
    var i := 0;
    var more := true;
    while more && i < |responses|
      invariant 0 <= i <= |responses|
      invariant result == Flatten(pages)
      invariant SameUpToOrder(pages, hits) && |pages| == i
      invariant |result| == |Flatten(hits)|
      invariant more ==> Pending(run, hits, Paginate(os[i..], req.resultCount, |result|))
      invariant !more ==> run == ListRun(hits, None)
    {
      if responses[i].ListFailed? {
        assert os[i] == PageFailed(responses[i].error);
        PendingFails(os, req.resultCount, i, run, hits, |result|);
        return Failure(responses[i].error), pages, i + 1;
      }
      var s;
      ghost var probed;
      s, probed := Search(env, responses[i].contents, req);
      ghost var h := PageHits(env, req, responses[i].contents);
      assert os[i] == PageDone(h);
      JoinAdvances(result, pages, hits, s, h);
      PendingAdvances(os, req.resultCount, i, run, hits, |result|, |s|);
      if s != [] {
        result := result + s;
      } else {
        assert result + s == result;
      }
      pages := pages + [s];
      hits := hits + [h];
      more := Continue(i + 1 == |responses|, |result|, req.resultCount);
      i := i + 1;
    }
    if more {
      PendingExhausted(os, req.resultCount, run, hits, |result|);
    }
    return Success(result), pages, |pages|;
  }

  /** The joined result and the page chunks of `ListPages` survive one page. */
  lemma JoinAdvances(result: seq<Object>, pages: seq<seq<Object>>, hits: seq<seq<Object>>,
                     s: seq<Object>, h: seq<Object>)
    requires result == Flatten(pages) && SameUpToOrder(pages, hits) && |result| == |Flatten(hits)|
    requires multiset(s) == multiset(h)
    ensures result + s == Flatten(pages + [s])
    ensures SameUpToOrder(pages + [s], hits + [h])
    ensures |s| == |h| && |result + s| == |Flatten(hits + [h])|
  {
    assert |s| == |h| by {
      assert |multiset(s)| == |multiset(h)|;
    }
    FlattenAppend(pages, [s]);
    FlattenAppend(hits, [h]);
    assert Flatten([s]) == s && Flatten([h]) == h;
  }

  /** The pending part of the walk in `ListPages` survives one page. */
  lemma PendingAdvances(os: seq<PageOutcome>, rc: int, i: nat, run: ListRun,
                        hits: seq<seq<Object>>, g: nat, n: nat)
    requires i < |os| && os[i].PageDone? && |os[i].hits| == n
    requires Pending(run, hits, Paginate(os[i..], rc, g))
    ensures var h := os[i].hits;
      var more := Continue(i + 1 == |os|, g + n, rc);
      && (more ==> Pending(run, hits + [h], Paginate(os[i + 1..], rc, g + n)))
      && (!more ==> run == ListRun(hits + [h], None))
  {
    var h := os[i].hits;
    assert os[i..][0] == os[i];
    assert os[i..][1..] == os[i + 1..];
    var later := Paginate(os[i + 1..], rc, g + n);
    assert hits + ([h] + later.hits) == (hits + [h]) + later.hits;
  }

  /** A failed response ends the pending walk with that error. */
  lemma PendingFails(os: seq<PageOutcome>, rc: int, i: nat, run: ListRun,
                     hits: seq<seq<Object>>, g: nat)
    requires i < |os| && os[i].PageFailed?
    requires Pending(run, hits, Paginate(os[i..], rc, g))
    ensures run == ListRun(hits, Some(os[i].error))
  {
    assert os[i..][0] == os[i];
    assert hits + [] == hits;
  }

  /** A walk still pending when the responses run out ends without error. */
  lemma PendingExhausted(os: seq<PageOutcome>, rc: int, run: ListRun,
                         hits: seq<seq<Object>>, g: nat)
    requires Pending(run, hits, Paginate(os[|os|..], rc, g))
    ensures run == ListRun(hits, None)
  {
    assert os[|os|..] == [];
    assert hits + [] == hits;
  }

  /** `run` is what remains after `hits` when the walk still has `rest` to do. */
  ghost predicate Pending(run: ListRun, hits: seq<seq<Object>>, rest: ListRun)
  {
    run == ListRun(hits + rest.hits, rest.failure)
  }

  lemma {:induction false} FlattenAppend(a: seq<seq<Object>>, b: seq<seq<Object>>)
    ensures Flatten(a + b) == Flatten(a) + Flatten(b)
  {
    if a == [] {
      assert a + b == b;
    } else {
      assert (a + b)[0] == a[0];
      assert (a + b)[1..] == a[1..] + b;
      FlattenAppend(a[1..], b);
    }
  }

  /** Earlier pages' hits are never removed or reordered: the hits of the
      first k pages are a prefix of the whole result. */
  lemma FlattenPrefix(pages: seq<seq<Object>>, k: nat)
    requires k <= |pages|
    ensures Flatten(pages[..k]) <= Flatten(pages)
  {
    assert pages == pages[..k] + pages[k..];
    FlattenAppend(pages[..k], pages[k..]);
  }

  /** Reordering within pages leaves the joined result the same up to order. */
  lemma {:induction false} SameUpToOrderFlatten(a: seq<seq<Object>>, b: seq<seq<Object>>)
    requires SameUpToOrder(a, b)
    ensures multiset(Flatten(a)) == multiset(Flatten(b))
  {
    if a != [] {
      assert multiset(a[0]) == multiset(b[0]);
      SameUpToOrderFlatten(a[1..], b[1..]);
    }
  }

  /** The walk delivers a prefix of the listing in page order, each page
      contributing exactly its own hits; an error ends it at the failed
      response. */
  lemma {:induction false} PaginateVisitsPrefix(os: seq<PageOutcome>, rc: int, g: nat)
    ensures var run := Paginate(os, rc, g);
      && |run.hits| <= |os|
      && (forall k :: 0 <= k < |run.hits| ==> os[k] == PageDone(run.hits[k]))
      && (run.failure.Some? ==> |run.hits| < |os| && os[|run.hits|] == PageFailed(run.failure.value))
  {
    if os != [] && os[0].PageDone? {
      var h := os[0].hits;
      if Continue(|os| == 1, g + |h|, rc) {
        PaginateVisitsPrefix(os[1..], rc, g + |h|);
      }
    }
  }

  /** The stop rule. After the n-th page, when it is not the last, the next
      page is requested iff fewer than `resultCount` hits have been gathered;
      and a walk that ends without error before the pages run out has gathered
      at least `resultCount` hits. */
  lemma {:induction false} PaginateStopRule(os: seq<PageOutcome>, rc: int, g: nat)
    ensures var run := Paginate(os, rc, g);
      forall n :: 0 < n <= |run.hits| && n < |os| ==>
        (n < Requests(run) <==> g + |Flatten(run.hits[..n])| < rc)
    ensures var run := Paginate(os, rc, g);
      run.failure.None? && |run.hits| < |os| ==> g + |Flatten(run.hits)| >= rc
  {
    if os != [] && os[0].PageDone? {
      var run := Paginate(os, rc, g);
      var h := os[0].hits;
      assert Flatten([h]) == h;
      if Continue(|os| == 1, g + |h|, rc) {
        var rest := Paginate(os[1..], rc, g + |h|);
        PaginateStopRule(os[1..], rc, g + |h|);
        assert |os| > 1 ==> Requests(rest) >= 1;
        forall n | 0 < n <= |run.hits| && n < |os|
          ensures n < Requests(run) <==> g + |Flatten(run.hits[..n])| < rc
        {
          if n > 1 {
            assert run.hits[..n] == [h] + rest.hits[..n - 1];
            assert Flatten(run.hits[..n]) == h + Flatten(rest.hits[..n - 1]);
          } else {
            assert run.hits[..1] == [h];
          }
        }
        assert run.hits[..|run.hits|] == run.hits;
      }
    }
  }

  /** The converse: if every outcome before the k-th is a page, each leaving
      fewer than `resultCount` hits, and the k-th is an error, the walk fails
      with that error, whatever hits it gathered on the way. */
  lemma {:induction false} PaginateReachesError(os: seq<PageOutcome>, rc: int, g: nat, k: nat)
    requires k < |os| && os[k].PageFailed?
    requires forall j :: 0 <= j < k ==> os[j].PageDone?
    requires forall n :: 0 < n <= k ==> g + |Flatten(HitsOf(os[..n]))| < rc
    ensures Paginate(os, rc, g) == ListRun(HitsOf(os[..k]), Some(os[k].error))
  {
    if k == 0 {
      assert HitsOf(os[..0]) == [];
    } else {
      var h := os[0].hits;
      var tail := os[1..];
      assert g + |h| < rc by {
        assert HitsOf(os[..1]) == [h];
        assert Flatten([h]) == h;
      }
      forall n | 0 < n <= k - 1
        ensures g + |h| + |Flatten(HitsOf(tail[..n]))| < rc
      {
        HitsOfCons(os, n + 1);
        assert os[..n + 1][1..] == tail[..n];
      }
      PaginateReachesError(tail, rc, g + |h|, k - 1);
      HitsOfCons(os, k);
      assert os[..k][1..] == tail[..k - 1];
    }
  }

  /** The hits of a prefix split after its first page. */
  lemma HitsOfCons(os: seq<PageOutcome>, n: nat)
    requires 0 < n <= |os| && os[0].PageDone?
    ensures HitsOf(os[..n]) == [os[0].hits] + HitsOf(os[..n][1..])
    ensures Flatten(HitsOf(os[..n])) == os[0].hits + Flatten(HitsOf(os[..n][1..]))
  {
  }

  /** A listing without errors never fails. */
  lemma {:induction false} PaginateWithoutErrors(os: seq<PageOutcome>, rc: int, g: nat)
    requires forall j :: 0 <= j < |os| ==> os[j].PageDone?
    ensures Paginate(os, rc, g).failure.None?
  {
    if os != [] {
      PaginateWithoutErrors(os[1..], rc, g + |os[0].hits|);
    }
  }

  /** Early stop is per page: once a page that is not the last brings the
      count to `resultCount`, no further page is requested and all of that
      page's hits are kept. */
  lemma WholePageKept(os: seq<PageOutcome>, rc: int, g: nat)
    requires |os| > 1 && os[0].PageDone?
    requires g + |os[0].hits| >= rc
    ensures Paginate(os, rc, g) == ListRun([os[0].hits], None)
  {
  }

  /** The overshoot: the hits gathered before the final page are at most
      `resultCount - 1` (or the initial count), so the result exceeds the
      request by at most the final page's hits. */
  lemma {:induction false} PaginateOvershoot(os: seq<PageOutcome>, rc: int, g: nat)
    ensures var run := Paginate(os, rc, g);
      |run.hits| > 0 ==> g + |Flatten(run.hits)| <= Max(rc - 1, g) + |run.hits[|run.hits| - 1]|
  {
    if os != [] && os[0].PageDone? {
      var h := os[0].hits;
      assert Flatten([h]) == h;
      if Continue(|os| == 1, g + |h|, rc) {
        PaginateOvershoot(os[1..], rc, g + |h|);
      }
    }
  }

  /** With pages no larger than the MaxKeys sent, a successful search returns
      at most `resultCount - 1 + 1000` objects (at most one page's worth when
      `resultCount` is not positive). */
  lemma StartOvershootBound(env: Env, req: SReq, head: Option<Error>, rs: seq<ListResponse>)
    requires forall j :: 0 <= j < |rs| && rs[j].Page? ==> |rs[j].contents| <= MaxObjectSizePerRequest
    ensures StartSpec(env, req, head, rs).Success? ==>
              |StartSpec(env, req, head, rs).value| <= Max(req.resultCount - 1, 0) + MaxObjectSizePerRequest
  {
    if head.None? {
      var os := Outcomes(env, req, rs);
      var run := Paginate(os, req.resultCount, 0);
      PaginateVisitsPrefix(os, req.resultCount, 0);
      PaginateOvershoot(os, req.resultCount, 0);
      if |run.hits| > 0 {
        var k := |run.hits| - 1;
        assert os[k] == Outcome(env, req, rs[k]);
        PageHitsExactly(env, req, rs[k].contents);
      }
    }
  }
}
