/**
 * Virtual memory areas (`VMArea`): `[start_va, end_va)` with page-table
 * flags, the pages the area owns and the physical area behind it, and the
 * two loops that enter the area into a page table or take it out again.
 *
 * An area is a value here: its operations read it and change only the page
 * table. Of the physical area behind it, only `is_mapped` matters to these
 * loops; the frames a mapped physical area hands out are a parameter (the
 * slots `get_frames` returns, see `LazyPma` and `FixedPma`).
 *
 * User addresses lie far below 2^38, where canonicalising a virtual address
 * changes nothing, so address arithmetic uses the identity canonicaliser.
 */
module Vma {
  import opened Wrappers
  import opened Addr
  import opened Errors
  import opened Pte

  /** `flags | VALID`: the valid bit set, every other bit kept. */
  function WithValid(f: Flags): (r: Flags)
    ensures HasFlag(r, VALID) && r / 2 == f / 2
  {
    if HasFlag(f, VALID) then f else f + 1
  }

  /** A leaf entry: the frame a page maps to, and the entry's flags. */
  datatype Leaf = Leaf(frame: nat, flags: Flags)

  /**
   * The page table as areas use it: the leaf of each mapped page. `map`
   * fails on the pages in `refused` (those whose walk cannot reach a leaf
   * slot), `unmap` on pages that have no leaf; the Sv39 tables behind this
   * view are `PageTableMmRv` and `PageTableTmm`.
   */
  class PageMap {
    var leaves: map<Usize, Leaf>
    const refused: set<Usize>

    constructor (refused: set<Usize>)
      ensures leaves == map[] && this.refused == refused
    {
      leaves := map[];
      this.refused := refused;
    }

    /** `map(page, frame, flags)`: write the leaf, or fail and change nothing. */
    method Map(page: Usize, frame: nat, flags: Flags) returns (ok: bool)
      modifies this`leaves
      ensures ok <==> page !in refused
      ensures leaves == if ok then old(leaves)[page := Leaf(frame, flags)] else old(leaves)
    {
      ok := page !in refused;
      if ok {
        leaves := leaves[page := Leaf(frame, flags)];
      }
    }

    /** `unmap(page)`: clear the leaf, or fail when there is none. */
    method Unmap(page: Usize) returns (ok: bool)
      modifies this`leaves
      ensures ok <==> page in old(leaves)
      ensures leaves == old(leaves) - {page}
    {
      ok := page in leaves;
      leaves := leaves - {page};
    }
  }

  /** An area: flags, `[startVa, endVa)`, its pages, and whether its physical area is mapped. */
  datatype VMArea = VMArea(flags: Flags, startVa: Usize, endVa: Usize, pages: PageRange, mapped: bool)

  /** Page `p` shares at least one byte with `[s, e)`. */
  predicate Touches(s: Usize, e: Usize, p: nat)
  {
    s < e && p * PAGE_SIZE < e && s < (p + 1) * PAGE_SIZE
  }

  /**
   * `VMArea::new` as written: the pages run from the one holding `start_va`
   * to the page AFTER the one holding `end_va - 1`, inclusive.
   */
  function NewAsWritten(startVa: Usize, endVa: Usize, flags: Flags, mapped: bool): (a: VMArea)
  {
    VMArea(flags, startVa, endVa, PageRange(Ceil(startVa), PageAdd(Ceil(AddrSub(Identity, endVa, 1)), 1)), mapped)
  }

  /** `VMArea::new` owning exactly the pages that share a byte with `[start_va, end_va)`. */
  function New(startVa: Usize, endVa: Usize, flags: Flags, mapped: bool): (a: VMArea)
    ensures a.startVa == startVa && a.endVa == endVa && a.flags == flags && a.mapped == mapped
    ensures forall p: Usize :: Contains(a.pages, p) <==> Touches(startVa, endVa, p)
  {
    if startVa < endVa then
      FromAddrTouches(startVa, endVa);
      VMArea(flags, startVa, endVa, FromAddr(Identity, startVa, endVa - startVa), mapped)
    else
      VMArea(flags, startVa, endVa, EMPTY_RANGE, mapped)
  }

  lemma FromAddrTouches(s: Usize, e: Usize)
    requires s < e
    ensures forall p: Usize :: Contains(FromAddr(Identity, s, e - s), p) <==> Touches(s, e, p)
  {
    forall p: Usize ensures Contains(FromAddr(Identity, s, e - s), p) <==> Touches(s, e, p) {
      FromAddrCoversBytes(s, e - s, p);
    }
  }

  /**
   * As written, an area ending on a page boundary also owns the page at its
   * end address, the first page of any area that starts where it ends.
   */
  lemma NewAsWrittenOwnsNextPage(startVa: Usize, endVa: Usize, flags: Flags, mapped: bool)
    requires startVa < endVa < MAX_PAGE_NUMBER * PAGE_SIZE && IsAligned(endVa)
    ensures Contains(NewAsWritten(startVa, endVa, flags, mapped).pages, Ceil(endVa))
    ensures !Contains(New(startVa, endVa, flags, mapped).pages, Ceil(endVa))
    ensures Contains(New(endVa, endVa + PAGE_SIZE, flags, mapped).pages, Ceil(endVa))
  {
    assert Touches(endVa, endVa + PAGE_SIZE, Ceil(endVa));
  }

  /** Areas `[0x1000, 0x2000)` and `[0x2000, 0x3000)`: as written, both own page 2. */
  lemma AdjacentAreasShareAPage()
    ensures Contains(NewAsWritten(0x1000, 0x2000, 0, true).pages, 2)
    ensures Contains(New(0x2000, 0x3000, 0, true).pages, 2)
    ensures !Contains(New(0x1000, 0x2000, 0, true).pages, 2)
  {
    assert Touches(0x2000, 0x3000, 2);
  }

  /** The frames `map_this` pairs with the pages: the slots of a mapped area, else frame `n` for page `n`. */
  function FramesFor(a: VMArea, slots: seq<Option<nat>>): (fs: seq<Option<nat>>)
    ensures !a.mapped ==> |fs| == SizeInPages(a.pages) && forall k :: 0 <= k < |fs| ==> fs[k] == Some(a.pages.start + k)
    ensures a.mapped ==> fs == slots
  {
    if a.mapped then slots else seq(SizeInPages(a.pages), k => Some(a.pages.start + k))
  }

  /** `leaves` after mapping page `start + k` to the frame in `frames[k]` (when there is one) with `flags`. */
  function Installed(leaves: map<Usize, Leaf>, start: Usize, frames: seq<Option<nat>>, flags: Flags): map<Usize, Leaf>
    requires start + |frames| <= U64
  {
    if frames == [] then leaves
    else
      var m := Installed(leaves, start, frames[..|frames| - 1], flags);
      var last := frames[|frames| - 1];
      if last.Some? then m[start + |frames| - 1 := Leaf(last.value, flags)] else m
  }

  /** What `Installed` holds: the leaves of the pages given a frame, and every other leaf unchanged. */
  lemma {:induction false} InstalledLeaves(leaves: map<Usize, Leaf>, start: Usize, frames: seq<Option<nat>>, flags: Flags, p: Usize)
    requires start + |frames| <= U64
    ensures start <= p < start + |frames| && frames[p - start].Some? ==>
      p in Installed(leaves, start, frames, flags) &&
      Installed(leaves, start, frames, flags)[p] == Leaf(frames[p - start].value, flags)
    ensures !(start <= p < start + |frames| && frames[p - start].Some?) ==>
      (p in Installed(leaves, start, frames, flags) <==> p in leaves) &&
      (p in leaves ==> Installed(leaves, start, frames, flags)[p] == leaves[p])
  {
    if frames != [] {
      var init := frames[..|frames| - 1];
      InstalledLeaves(leaves, start, init, flags, p);
      if start <= p < start + |init| {
        assert frames[p - start] == init[p - start];
      }
    }
  }

  /** The position of the first page given a frame that the table refuses, or `|frames|` when there is none. */
  function FirstRefused(start: Usize, frames: seq<Option<nat>>, refused: set<Usize>): (j: nat)
    requires start + |frames| <= U64
    ensures j <= |frames|
    decreases |frames|
  {
    if frames == [] then 0
    else if frames[0].Some? && start in refused then 0
    else if start + 1 == U64 then 1
    else 1 + FirstRefused(start + 1, frames[1..], refused)
  }

  /** `FirstRefused` is the first refusal: every page before it is accepted, and the page at it is refused. */
  lemma {:induction false} FirstRefusedIsFirst(start: Usize, frames: seq<Option<nat>>, refused: set<Usize>)
    requires start + |frames| <= U64
    ensures forall k :: 0 <= k < FirstRefused(start, frames, refused) ==> frames[k].None? || start + k !in refused
    ensures FirstRefused(start, frames, refused) < |frames| ==>
      frames[FirstRefused(start, frames, refused)].Some? && start + FirstRefused(start, frames, refused) in refused
    decreases |frames|
  {
    if frames != [] && !(frames[0].Some? && start in refused) && start + 1 < U64 {
      FirstRefusedIsFirst(start + 1, frames[1..], refused);
      forall k | 1 <= k < FirstRefused(start, frames, refused)
        ensures frames[k].None? || start + k !in refused
      {
        assert frames[k] == frames[1..][k - 1];
      }
    }
  }

  /** Extending the mapped prefix by one accepted position. */
  lemma InstalledStep(leaves: map<Usize, Leaf>, start: Usize, frames: seq<Option<nat>>, flags: Flags, k: nat)
    requires k < |frames| && start + |frames| <= U64
    ensures frames[..k + 1][..k] == frames[..k]
    ensures Installed(leaves, start, frames[..k + 1], flags) ==
      if frames[k].Some? then Installed(leaves, start, frames[..k], flags)[start + k := Leaf(frames[k].value, flags)]
      else Installed(leaves, start, frames[..k], flags)
  {
    assert frames[..k + 1][..k] == frames[..k];
  }

  /** The accepted prefix grows by one when position `k` is not refused. */
  lemma {:induction false} FirstRefusedPast(start: Usize, frames: seq<Option<nat>>, refused: set<Usize>, k: nat)
    requires start + |frames| <= U64
    requires k < |frames| && forall i :: 0 <= i <= k ==> frames[i].None? || start + i !in refused
    ensures k < FirstRefused(start, frames, refused)
    decreases k
  {
    if k > 0 {
      assert forall i :: 0 <= i <= k - 1 ==> frames[1..][i] == frames[i + 1];
      FirstRefusedPast(start + 1, frames[1..], refused, k - 1);
    }
  }

  /**
   * `map_this`: pair the area's pages with the frames in order (as far as
   * both last) and map each with `flags | VALID`. The first refusal ends
   * the loop with `PageTableInvalid`, leaving the pages mapped before it in
   * place.
   */
  method MapThis(a: VMArea, slots: seq<Option<nat>>, pt: PageMap) returns (r: Result<(), KernelError>)
    requires a.pages.start + |FramesFor(a, slots)| <= U64
    modifies pt`leaves
    ensures var frames := FramesFor(a, slots);
      var n := if |frames| < SizeInPages(a.pages) then |frames| else SizeInPages(a.pages);
      var j := FirstRefused(a.pages.start, frames[..n], pt.refused);
      (r.Ok? <==> j == n) && (r.Err? ==> r.error == PageTableInvalid) &&
      pt.leaves == Installed(old(pt.leaves), a.pages.start, frames[..n][..j], WithValid(a.flags))
  {
    var frames := FramesFor(a, slots);
    var n := if |frames| < SizeInPages(a.pages) then |frames| else SizeInPages(a.pages);
    var flags := WithValid(a.flags);
    ghost var fs := frames[..n];
    var k := 0;
    while k < n
      invariant k <= n
      invariant forall i :: 0 <= i < k ==> fs[i].None? || a.pages.start + i !in pt.refused
      invariant pt.leaves == Installed(old(pt.leaves), a.pages.start, fs[..k], flags)
    {
      InstalledStep(old(pt.leaves), a.pages.start, fs, flags, k);
      if frames[k].Some? {
        var ok := pt.Map(a.pages.start + k, frames[k].value, flags);
        if !ok {
          FirstRefusedPrefix(a.pages.start, fs, pt.refused, k);
          return Err(PageTableInvalid);
        }
      }
      k := k + 1;
    }
    if n > 0 {
      FirstRefusedPast(a.pages.start, fs, pt.refused, n - 1);
    }
    assert FirstRefused(a.pages.start, fs, pt.refused) == n;
    assert fs[..n] == fs;
    r := Ok(());
  }

  /** When every position before `k` is accepted and `k` is refused, the first refusal is `k`. */
  lemma {:induction false} FirstRefusedPrefix(start: Usize, frames: seq<Option<nat>>, refused: set<Usize>, k: nat)
    requires start + |frames| <= U64
    requires k < |frames| && frames[k].Some? && start + k in refused
    requires forall i :: 0 <= i < k ==> frames[i].None? || start + i !in refused
    ensures FirstRefused(start, frames, refused) == k
    decreases k
  {
    if k > 0 {
      assert forall i :: 0 <= i < k - 1 ==> frames[1..][i] == frames[i + 1];
      FirstRefusedPrefix(start + 1, frames[1..], refused, k - 1);
    }
  }

  /** `leaves` without the pages `[lo, hi)`. */
  function Without(leaves: map<Usize, Leaf>, lo: nat, hi: nat): (m: map<Usize, Leaf>)
    ensures forall p :: p in m <==> p in leaves && !(lo <= p < hi)
    ensures forall p :: p in m ==> m[p] == leaves[p]
  {
    map p | p in leaves && !(lo <= p < hi) :: leaves[p]
  }

  /**
   * `unmap_this`: unmap every page of the area, ignoring pages that were
   * not mapped; it always succeeds.
   */
  method UnmapThis(a: VMArea, pt: PageMap) returns (r: Result<(), KernelError>)
    modifies pt`leaves
    ensures r == Ok(())
    ensures pt.leaves == Without(old(pt.leaves), a.pages.start, a.pages.start + SizeInPages(a.pages))
  {
    var n := SizeInPages(a.pages);
    var k := 0;
    while k < n
      invariant k <= n
      invariant pt.leaves == Without(old(pt.leaves), a.pages.start, a.pages.start + k)
    {
      SizeCountsPages(a.pages, k);
      var _ := pt.Unmap(a.pages.start + k);
      k := k + 1;
    }
    r := Ok(());
  }

  /** The pages `unmap_this` clears are exactly the pages the area owns. */
  lemma UnmapClearsOwnedPages(a: VMArea, p: Usize)
    requires a.pages.end < USIZE_MAX
    ensures a.pages.start <= p < a.pages.start + SizeInPages(a.pages) <==> Contains(a.pages, p)
  {
    if a.pages.start <= p {
      SizeCountsPages(a.pages, p - a.pages.start);
    }
  }
}
