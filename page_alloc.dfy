/**
 * `AllocatedPages`, a range of mapped virtual pages, and `split_at`, which
 * cuts it into `[start : at - 1]` and `[at : end]` the way `slice::split_at`
 * cuts a slice. Page `+ 1` caps at the largest page number and page `- 1`
 * saturates at 0, as `PageAdd` and `PageSub` write out.
 */
module PageAlloc {
  import opened Wrappers
  import opened Addr

  datatype AllocatedPages = AllocatedPages(pages: PageRange)

  /** `split_at` as written: for `at == start` the right part is `new(at, start)`, a single page. */
  function SplitAtAsWritten(a: AllocatedPages, at: Usize): (r: Result<(AllocatedPages, AllocatedPages), AllocatedPages>)
    ensures r.Err? ==> r.error == a
  {
    var s := a.pages.start;
    var e := a.pages.end;
    if at == s then Ok((AllocatedPages(EMPTY_RANGE), AllocatedPages(PageRange(at, s))))
    else if at == PageAdd(e, 1) then Ok((AllocatedPages(PageRange(s, PageSub(at, 1))), AllocatedPages(EMPTY_RANGE)))
    else if s < at <= e then Ok((AllocatedPages(PageRange(s, PageSub(at, 1))), AllocatedPages(PageRange(at, e))))
    else Err(a)
  }

  /** Splitting pages 2..=5 at its own start leaves page 3 in neither part. */
  lemma SplitAtStartLosesPages()
    ensures SplitAtAsWritten(AllocatedPages(PageRange(2, 5)), 2) ==
      Ok((AllocatedPages(EMPTY_RANGE), AllocatedPages(PageRange(2, 2))))
    ensures Contains(PageRange(2, 5), 3) && !Contains(EMPTY_RANGE, 3) && !Contains(PageRange(2, 2), 3)
  {
  }

  /**
   * `split_at` as documented: at `start` the left part is empty and the right
   * part is the whole range. At `start`, at `end + 1` or strictly inside,
   * the two parts hold exactly the range's pages, all of the left before all
   * of the right; anywhere else the pages come back unchanged as the error.
   */
  function SplitAt(a: AllocatedPages, at: Usize): (r: Result<(AllocatedPages, AllocatedPages), AllocatedPages>)
    requires a.pages.end < MAX_PAGE_NUMBER
    ensures r.Ok? <==> at == a.pages.start || at == a.pages.end + 1 || a.pages.start < at <= a.pages.end
    ensures r.Err? ==> r.error == a
    ensures r.Ok? ==> forall p :: Contains(a.pages, p) <==> Contains(r.value.0.pages, p) || Contains(r.value.1.pages, p)
    ensures r.Ok? ==> forall p, q :: Contains(r.value.0.pages, p) && Contains(r.value.1.pages, q) ==> p < q
    ensures r.Ok? && !IsEmpty(a.pages) ==> (IsEmpty(r.value.0.pages) <==> at == a.pages.start)
    ensures r.Ok? && !IsEmpty(a.pages) ==> (IsEmpty(r.value.1.pages) <==> at == a.pages.end + 1)
  {
    var s := a.pages.start;
    var e := a.pages.end;
    if at == s then Ok((AllocatedPages(EMPTY_RANGE), AllocatedPages(PageRange(at, e))))
    else if at == PageAdd(e, 1) then Ok((AllocatedPages(PageRange(s, PageSub(at, 1))), AllocatedPages(EMPTY_RANGE)))
    else if s < at <= e then Ok((AllocatedPages(PageRange(s, PageSub(at, 1))), AllocatedPages(PageRange(at, e))))
    else Err(a)
  }

  /** Away from `at == start` the two versions agree. */
  lemma SplitAtAgreesAwayFromStart(a: AllocatedPages, at: Usize)
    requires a.pages.end < MAX_PAGE_NUMBER && at != a.pages.start
    ensures SplitAtAsWritten(a, at) == SplitAt(a, at)
  {
  }
}
