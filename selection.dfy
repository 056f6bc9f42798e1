/** One page of a listing: which objects are eligible for download, and which
    of them end up in the page's result. */
module Selection {
  import opened SearchTypes
  import opened Matching

  /** The last-modified filter. It applies only when `endDate > startDate`;
      a zero bound leaves that side open; both bounds are inclusive. */
  predicate InWindow(req: SReq, t: int)
  {
    req.endDate > req.startDate ==>
      && (req.startDate == 0 || req.startDate <= t)
      && (req.endDate == 0 || t <= req.endDate)
  }

  /** An object is handed to `Found` iff it passes the time filter and is no
      larger than the size cap. */
  predicate Eligible(req: SReq, o: Object)
  {
    InWindow(req, o.lastModified) && o.size <= MaxAllowedFileSize
  }

  /** An object belongs to the page's result iff it is eligible and matches. */
  predicate Selected(env: Env, req: SReq, o: Object)
  {
    Eligible(req, o) && Matches(env, req.bucket, o.key, req.text, o.size)
  }

  /** The eligible objects of a page, in listing order. */
  function Candidates(req: SReq, s: seq<Object>): (r: seq<Object>)
    ensures forall o :: o in r ==> o in s && Eligible(req, o)
  {
    if s == [] then []
    else
      var last := s[|s| - 1];
      Candidates(req, s[..|s| - 1]) + (if Eligible(req, last) then [last] else [])
  }

  /** The selected objects of a page, in listing order. */
  function PageHits(env: Env, req: SReq, s: seq<Object>): seq<Object>
  {
    if s == [] then []
    else
      var last := s[|s| - 1];
      PageHits(env, req, s[..|s| - 1]) + (if Selected(env, req, last) then [last] else [])
  }

  /** The filter passes on every eligible object of a page, as often as the
      page lists it, and no other object. */
  lemma {:induction false} CandidatesCount(req: SReq, s: seq<Object>, x: Object)
    ensures multiset(Candidates(req, s))[x] ==
              if Eligible(req, x) then multiset(s)[x] else 0
    ensures x in Candidates(req, s) <==> x in s && Eligible(req, x)
  {
    if s != [] {
      var init, last := s[..|s| - 1], s[|s| - 1];
      CandidatesCount(req, init, x);
      assert s == init + [last];
    }
  }

  /** `search`: the page is scanned in order, skipping objects outside the time
      window or above the size cap, and every remaining object is checked with
      `Found`. The source runs the checks concurrently and appends hits in
      completion order, so only the multiset of the result is promised. The
      ghost `probed` lists the objects handed to `Found`, in order. */
  method Search(env: Env, contents: seq<Object>, req: SReq)
    returns (res: seq<Object>, ghost probed: seq<Object>)
    ensures probed == Candidates(req, contents)
    ensures multiset(res) == multiset(PageHits(env, req, contents))
  {
    res := [];
    probed := [];
    for i := 0 to |contents|
      invariant probed == Candidates(req, contents[..i])
      invariant res == PageHits(env, req, contents[..i])
    {
      var c := contents[i];
      assert contents[..i + 1][..i] == contents[..i];
      if req.endDate > req.startDate {
        if req.startDate != 0 && req.startDate > c.lastModified {
          continue;
        }
        if req.endDate != 0 && req.endDate < c.lastModified {
          continue;
        }
      }
      if c.size > MaxAllowedFileSize {
        continue;
      }
      probed := probed + [c];
      var hit;
      ghost var fed;
      hit, fed := Found(env, req.bucket, c.key, req.text, c.size);
      if hit {
        res := res + [c];
      }
    }
    assert contents[..|contents|] == contents;
  }

  /** Size cap: an object above the cap is never eligible, and one exactly at
      the cap is not excluded by the size test. */
  lemma SizeCap(req: SReq, o: Object)
    ensures o.size > MaxAllowedFileSize ==> !Eligible(req, o)
    ensures o.size == 500 * 1048576 ==> (Eligible(req, o) <==> InWindow(req, o.lastModified))
  {
  }

  /** When `endDate <= startDate` the time filter is inert: eligibility
      depends on the size alone. */
  lemma TimeFilterInert(req: SReq, o: Object)
    requires req.endDate <= req.startDate
    ensures Eligible(req, o) <==> o.size <= MaxAllowedFileSize
  {
  }

  /** When the time filter is active, both bounds are admitted, and the time
      just outside a non-zero bound is not. */
  lemma TimeWindowInclusive(req: SReq)
    requires req.endDate > req.startDate
    ensures InWindow(req, req.startDate) && InWindow(req, req.endDate)
    ensures req.startDate != 0 ==> !InWindow(req, req.startDate - 1)
    ensures req.endDate != 0 ==> !InWindow(req, req.endDate + 1)
  {
  }

  /** How often an object occurs in a page's result: as often as in the page
      when it is selected, never otherwise. */
  lemma {:induction false} PageHitsCount(env: Env, req: SReq, s: seq<Object>, x: Object)
    ensures multiset(PageHits(env, req, s))[x] ==
              if Selected(env, req, x) then multiset(s)[x] else 0
  {
    if s != [] {
      var init, last := s[..|s| - 1], s[|s| - 1];
      PageHitsCount(env, req, init, x);
      assert s == init + [last];
    }
  }

  /** A page's result holds exactly the selected objects of the page, nothing
      from outside it, and each at most as often as the page lists it. */
  lemma PageHitsExactly(env: Env, req: SReq, s: seq<Object>)
    ensures forall x :: x in PageHits(env, req, s) <==> x in s && Selected(env, req, x)
    ensures multiset(PageHits(env, req, s)) <= multiset(s)
    ensures |PageHits(env, req, s)| <= |s|
  {
    forall x
      ensures x in PageHits(env, req, s) <==> x in s && Selected(env, req, x)
      ensures multiset(PageHits(env, req, s))[x] <= multiset(s)[x]
    {
      PageHitsCount(env, req, s, x);
    }
    assert |multiset(PageHits(env, req, s))| <= |multiset(s)|;
  }

  /** The page's result does not depend on the order in which its objects are
      checked: any reordering of the page selects the same multiset. */
  lemma ScheduleIndependent(env: Env, req: SReq, s: seq<Object>, t: seq<Object>)
    requires multiset(s) == multiset(t)
    ensures multiset(PageHits(env, req, s)) == multiset(PageHits(env, req, t))
  {
    forall x
      ensures multiset(PageHits(env, req, s))[x] == multiset(PageHits(env, req, t))[x]
    {
      PageHitsCount(env, req, s, x);
      PageHitsCount(env, req, t, x);
    }
  }
}
