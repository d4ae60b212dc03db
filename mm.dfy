/**
 * The address space `MM` as a class: the area slots, the recycled slots,
 * the start-address index, the cache, the heap bounds and the page table
 * are its fields, and each operation updates them in place. Every method is
 * proved against the function on `Space` values that states it (modules
 * `MmSpace`, `MmSpec`, `MmUnmap`, `MmBrk` and `MmUser`), and the properties
 * of the operations are proved about those functions.
 *
 * The page table is the map of its leaves (`Vma.PageMap`).
 */
module Mm {
  import opened Wrappers
  import opened Bytes
  import opened Addr
  import opened Errors
  import opened Pte
  import opened VmFlags
  import opened Vma
  import opened MmSpec
  import opened MmSpace
  import opened MmUnmap
  import opened MmBrk
  import opened MmUser
  import StackLayout

  // ---------------------------------------------------------------------------
  // Walking a set of keys in increasing order, one smallest key at a time

  /** The slots of the keys `keys`, in increasing key order. */
  function Listed(idx: Index, keys: set<Usize>): (r: seq<nat>)
    requires forall k :: k in keys ==> k in idx
  {
    AscendingLists(keys);
    SlotsOf(idx, Ascending(keys))
  }

  /** Taking the smallest key first: its slot, then the slots of the rest. */
  lemma ListedStep(idx: Index, keys: set<Usize>)
    requires keys != {} && forall k :: k in keys ==> k in idx
    ensures Listed(idx, keys) == [idx[MinKey(keys)]] + Listed(idx, keys - {MinKey(keys)})
  {
    var m := MinKey(keys);
    AscendingLists(keys - {m});
    assert Ascending(keys) == [m] + Ascending(keys - {m});
    assert Ascending(keys)[1..] == Ascending(keys - {m});
  }

  /** The `find_free_area` walk yields the address below the first key's area when it fits. */
  lemma FreeFits(slots: Slots, idx: Index, ks: seq<Usize>, a: VMArea, lastEnd: Usize, len: Usize, minAddr: Usize)
    requires Indexed(slots, idx) && ks != [] && forall k :: k in ks ==> k in idx
    requires slots[idx[ks[0]]] == Some(a) && Wrap(a.startVa - lastEnd) >= len && AddrSub(Identity, a.startVa, len) >= minAddr
    ensures FreeFrom(slots, idx, ks, lastEnd, len, minAddr) == Ok(AddrSub(Identity, a.startVa, len))
  {
  }

  /** Otherwise the walk goes on after the first key, from the end of its area. */
  lemma FreeGoesOn(slots: Slots, idx: Index, ks: seq<Usize>, a: VMArea, lastEnd: Usize, len: Usize, minAddr: Usize)
    requires Indexed(slots, idx) && ks != [] && forall k :: k in ks ==> k in idx
    requires slots[idx[ks[0]]] == Some(a) && !(Wrap(a.startVa - lastEnd) >= len && AddrSub(Identity, a.startVa, len) >= minAddr)
    ensures FreeFrom(slots, idx, ks, lastEnd, len, minAddr) == FreeFrom(slots, idx, ks[1..], a.endVa, len, minAddr)
  {
  }

  /** Listing the keys in increasing order starts with the smallest. */
  lemma AscendingFirst(keys: set<Usize>)
    requires keys != {}
    ensures Ascending(keys) != [] && Ascending(keys)[0] == MinKey(keys) && Ascending(keys)[1..] == Ascending(keys - {MinKey(keys)})
  {
    var m := MinKey(keys);
    assert Ascending(keys) == [m] + Ascending(keys - {m});
  }

  /** `xs` put in front of a fetched sequence; errors and hangs pass through. */
  function Joined<T>(xs: seq<T>, f: Fetch<seq<T>>): (r: Fetch<seq<T>>)
    ensures f.Fetched? <==> r.Fetched?
    ensures f.Fetched? ==> r.value == xs + f.value
    ensures !f.Fetched? ==> r == f
    ensures xs == [] ==> r == f
    ensures f == Fetched([]) ==> r == Fetched(xs)
  {
    if f.Fetched? then
      assert [] + f.value == f.value && xs + [] == xs;
      Fetched(xs + f.value)
    else f
  }

  /** Joining after one more element is joining that element in front. */
  lemma JoinedStep<T>(xs: seq<T>, x: T, f: Fetch<seq<T>>)
    ensures Joined(xs, Prefixed(x, f)) == Joined(xs + [x], f)
  {
    if f.Fetched? {
      assert xs + ([x] + f.value) == (xs + [x]) + f.value;
    }
  }

  /** The pieces from the address after a piece of length `n` are the pieces from `next`. */
  lemma SameRest(t: Space, va: Usize, n: Usize, next: Usize, end: Usize, frameOf: Usize -> Result<nat, KernelError>)
    requires Sound(t) && va < end && n == Step(va, end) && next == va + n
    ensures BufFrom(t, va + Step(va, end), end, frameOf) == BufFrom(t, next, end, frameOf)
  {
  }

  /** The `get_buf_mut` loop at `va` once the frame of its page is allocated: one piece, then the rest. */
  lemma BufFromStep(s: Space, t: Space, va: Usize, end: Usize, frame: nat, frameOf: Usize -> Result<nat, KernelError>)
    requires Sound(s) && va < end && Step(va, end) != 0
    requires AllocFrame(s, va, frameOf) == (t, Ok(frame))
    ensures var rest := BufFrom(t, va + Step(va, end), end, frameOf);
      BufFrom(s, va, end, frameOf) == (rest.0, Prefixed(BufPiece(frame, PageOffset(va), Step(va, end)), rest.1))
  {
  }

  /**
   * One turn of the `get_buf_mut` loop, once the frame of the page of `va`
   * is allocated: the pieces still to come are the new piece of length `n`,
   * then the pieces from `next` on.
   */
  lemma BufTurn(goal: (Space, Fetch<seq<BufPiece>>), v: seq<BufPiece>, s: Space, t: Space, va: Usize, n: Usize, next: Usize,
                end: Usize, frame: nat, frameOf: Usize -> Result<nat, KernelError>)
    requires Sound(s) && va < end && n == Step(va, end) && n != 0 && next == va + n
    requires AllocFrame(s, va, frameOf) == (t, Ok(frame))
    requires goal == (BufFrom(s, va, end, frameOf).0, Joined(v, BufFrom(s, va, end, frameOf).1))
    ensures goal == (BufFrom(t, next, end, frameOf).0, Joined(v + [BufPiece(frame, PageOffset(va), n)], BufFrom(t, next, end, frameOf).1))
  {
    var rest := BufFrom(t, va + Step(va, end), end, frameOf);
    var p := BufPiece(frame, PageOffset(va), Step(va, end));
    BufFromStep(s, t, va, end, frame, frameOf);
    SameRest(t, va, n, next, end, frameOf);
    JoinedStep(v, p, rest.1);
  }

  // ---------------------------------------------------------------------------
  // The address space

  /** The page of `TRAMPOLINE_VA`, the highest page. */
  function TrampolinePage(): (p: Usize)
    ensures p * PAGE_SIZE == StackLayout.TRAMPOLINE_VA && p == USIZE_MAX / PAGE_SIZE
  {
    StackLayout.TRAMPOLINE_VA / PAGE_SIZE
  }

  class MM {
    var vmaList: Slots
    var vmaRecycled: seq<nat>
    var vmaMap: Index
    var vmaCache: Option<nat>
    var startBrk: Usize
    var brk: Usize
    const pageTable: PageMap

    /** The area bookkeeping as one value. */
    function Book(): Space
      reads this
    {
      Space(vmaList, vmaRecycled, vmaMap, vmaCache)
    }

    /** The invariant every operation keeps. */
    predicate Valid()
      reads this
    {
      Sound(Book())
    }

    /** The struct `MM::new` builds: no areas, an empty page table, and the heap bounds at 0. */
    constructor (refused: set<Usize>)
      ensures Valid() && Book() == Space([], [], map[], None)
      ensures startBrk == 0 && brk == 0
      ensures fresh(pageTable) && pageTable.leaves == map[] && pageTable.refused == refused
    {
      vmaList := [];
      vmaRecycled := [];
      vmaMap := map[];
      vmaCache := None;
      startBrk := 0;
      brk := 0;
      pageTable := new PageMap(refused);
    }

    /**
     * `MM::new`: `FrameAllocFailed` when no frame is left for the page
     * table's root (`rootFrame` false); otherwise the empty space, with the
     * trampoline page mapped readable and executable, without `USER`, to
     * the frame of the trampoline code, or `PageTableInvalid` when the table
     * refuses that page. The trampoline belongs to no area.
     */
    static method Create(rootFrame: bool, refused: set<Usize>, trampolineFrame: nat) returns (r: Result<MM, KernelError>)
      ensures !rootFrame ==> r == Err(FrameAllocFailed)
      ensures rootFrame && TrampolinePage() in refused ==> r == Err(PageTableInvalid)
      ensures rootFrame && TrampolinePage() !in refused ==>
        r.Ok? && fresh(r.value) && fresh(r.value.pageTable) &&
        r.value.Valid() && r.value.Book() == Space([], [], map[], None) &&
        r.value.startBrk == 0 && r.value.brk == 0 && r.value.pageTable.refused == refused &&
        r.value.pageTable.leaves == map[TrampolinePage() := Leaf(trampolineFrame, READABLE + EXECUTABLE + VALID)]
    {
      if !rootFrame {
        return Err(FrameAllocFailed);
      }
      var mm := new MM(refused);
      var ok := mm.pageTable.Map(TrampolinePage(), trampolineFrame, READABLE + EXECUTABLE + VALID);
      if !ok {
        return Err(PageTableInvalid);
      }
      r := Ok(mm);
    }

    /** `add_vma`: the bookkeeping becomes `Add` of it, or nothing changes on `ENOMEM`. */
    method AddVma(vma: VMArea) returns (r: Result<(), KernelError>)
      requires Valid()
      modifies this`vmaList, this`vmaRecycled, this`vmaMap, this`vmaCache
      ensures Valid()
      ensures Add(old(Book()), vma).Ok? ==> r == Ok(()) && Book() == Add(old(Book()), vma).value
      ensures Add(old(Book()), vma).Err? ==> r == Err(Add(old(Book()), vma).error) && Book() == old(Book())
    {
      if |vmaMap| >= MAX_MAP_COUNT {
        return Err(ErrnoError(ENOMEM));
      }
      var index := |vmaList|;
      if vmaRecycled != [] {
        index := vmaRecycled[|vmaRecycled| - 1];
        vmaRecycled := vmaRecycled[..|vmaRecycled| - 1];
        vmaMap := vmaMap[vma.startVa := index];
        vmaList := vmaList[index := Some(vma)];
      } else {
        vmaMap := vmaMap[vma.startVa := index];
        vmaList := vmaList + [Some(vma)];
      }
      vmaCache := Some(index);
      r := Ok(());
    }

    /**
     * `get_vma`: the slot `Find` gives (first the cached area, then the area
     * under the greatest start at or below `va`), or `PageUnmapped`; an area
     * found through the index becomes the cached one.
     */
    method GetVma(va: Usize) returns (r: Result<nat, KernelError>)
      requires Valid()
      modifies this`vmaCache
      ensures Valid() && Book() == Looked(old(Book()), va)
      ensures var f := Find(vmaList, vmaMap, old(vmaCache), va);
        (f.Some? ==> r == Ok(f.value)) && (f.None? ==> r == Err(PageUnmapped))
    {
      if vmaCache.Some? {
        var index := vmaCache.value;
        if vmaList[index].Some? && InArea(vmaList[index].value, va) {
          return Ok(index);
        }
      }
      var k := FloorKey(vmaMap.Keys, va);
      if k.Some? {
        var index := vmaMap[k.value];
        if InArea(vmaList[index].value, va) {
          vmaCache := Some(index);
          return Ok(index);
        }
      }
      return Err(PageUnmapped);
    }

    /**
     * `get_vma_range`: the area holding `start` when it starts before
     * `start`, then the area of every start address in `[start, end)` in
     * increasing order.
     */
    method GetVmaRange(start: Usize, end: Usize) returns (v: seq<nat>)
      requires Valid()
      modifies this`vmaCache
      ensures Valid() && Book() == Looked(old(Book()), start)
      ensures v == Range(old(vmaList), old(vmaMap), old(vmaCache), start, end)
    {
      var first := GetVma(start);
      v := [];
      if first.Ok? && vmaList[first.value].value.startVa < start {
        v := [first.value];
      }
      var rest := ListKeys(KeysIn(vmaMap, start, end));
      v := v + rest;
    }

    /** The `get_vma_range` loop over the start addresses `keys`: their slots, smallest key first. */
    method ListKeys(keys: set<Usize>) returns (v: seq<nat>)
      requires forall k :: k in keys ==> k in vmaMap
      ensures v == Listed(vmaMap, keys)
    {
      v := [];
      var left := keys;
      while left != {}
        invariant left <= keys
        invariant v + Listed(vmaMap, left) == Listed(vmaMap, keys)
        decreases |left|
      {
        var m := MinKey(left);
        ListedStep(vmaMap, left);
        v := v + [vmaMap[m]];
        left := left - {m};
      }
      AscendingLists({});
    }

    /**
     * `find_free_area`: walking the areas from `hint` up, the first start
     * with `len` free bytes below it since the end of the previous area
     * (the area below `hint` included), and at or above `mmap_min_addr`.
     */
    method FindFreeArea(hint: Usize, len: Usize) returns (r: Result<Usize, KernelError>)
      requires Valid()
      ensures r == FreeArea(vmaList, vmaMap, startBrk, hint, len)
    {
      var lastEnd: Usize := 0;
      if hint > 0 {
        var k := FloorKey(vmaMap.Keys, hint - 1);
        if k.Some? {
          lastEnd := vmaList[vmaMap[k.value]].value.endVa;
        }
      }
      var minAddr := MmapMinAddr(startBrk);
      var keys := KeysIn(vmaMap, hint, U64);
      AscendingLists(keys);
      ghost var ks := Ascending(keys);
      ghost var goal := FreeArea(vmaList, vmaMap, startBrk, hint, len);
      while keys != {}
        invariant ks == Ascending(keys) && forall k :: k in ks ==> k in vmaMap
        invariant goal == FreeFrom(vmaList, vmaMap, ks, lastEnd, len, minAddr)
        decreases |keys|
      {
        var m := MinKey(keys);
        AscendingFirst(keys);
        if vmaList[vmaMap[m]].Some? {
          var a := vmaList[vmaMap[m]].value;
          if Wrap(a.startVa - lastEnd) >= len && AddrSub(Identity, a.startVa, len) >= minAddr {
            FreeFits(vmaList, vmaMap, ks, a, lastEnd, len, minAddr);
            return Ok(AddrSub(Identity, a.startVa, len));
          }
          FreeGoesOn(vmaList, vmaMap, ks, a, lastEnd, len, minAddr);
          lastEnd := a.endVa;
        }
        keys := keys - {m};
        ks := ks[1..];
      }
      return Err(VMAAllocFailed);
    }

    /** The covered case of `do_munmap`: the area's pages are unmapped and its slot is recycled. */
    method RemoveArea(i: nat)
      requires Valid() && i < |vmaList| && vmaList[i].Some?
      modifies this`vmaList, this`vmaRecycled, this`vmaMap, this`vmaCache, pageTable`leaves
      ensures Book() == CutCovered(old(Book()), i) && Valid()
      ensures pageTable.leaves == Unmapped(old(pageTable.leaves), old(vmaList[i].value))
    {
      var vma := vmaList[i].value;
      var _ := UnmapThis(vma, pageTable);
      vmaList := vmaList[i := None];
      vmaRecycled := vmaRecycled + [i];
      vmaMap := vmaMap - {vma.startVa};
      vmaCache := None;
    }

    /** The area in slot `i` keeps its part below `lo`; the pages from `lo` to `hi` are unmapped. */
    method KeepLeft(i: nat, lo: Usize, hi: Usize)
      requires Valid() && i < |vmaList| && vmaList[i].Some?
      modifies this`vmaList, this`vmaCache, pageTable`leaves
      ensures Book() == CutKeepLeft(old(Book()), i, lo) && Valid()
      ensures pageTable.leaves == Unmapped(old(pageTable.leaves), Piece(old(vmaList[i].value), lo, hi))
    {
      var vma := vmaList[i].value;
      vmaList := vmaList[i := Some(Piece(vma, vma.startVa, lo))];
      var _ := UnmapThis(Piece(vma, lo, hi), pageTable);
      vmaCache := None;
    }

    /** The area in slot `i` keeps its part from `hi` on, indexed under `hi`; the pages below `hi` are unmapped. */
    method KeepRight(i: nat, hi: Usize)
      requires Valid() && i < |vmaList| && vmaList[i].Some?
      modifies this`vmaList, this`vmaMap, this`vmaCache, pageTable`leaves
      ensures Book() == CutKeepRight(old(Book()), i, hi) && Valid()
      ensures pageTable.leaves == Unmapped(old(pageTable.leaves), Piece(old(vmaList[i].value), old(vmaList[i].value.startVa), hi))
    {
      var vma := vmaList[i].value;
      vmaMap := vmaMap - {vma.startVa};
      vmaList := vmaList[i := Some(Piece(vma, hi, vma.endVa))];
      vmaMap := vmaMap[hi := i];
      var _ := UnmapThis(Piece(vma, vma.startVa, hi), pageTable);
      vmaCache := None;
    }

    /** One turn of the `do_munmap` loop on slot `i`: the state `Cut` gives, or nothing changes on `ENOMEM`. */
    method CutOne(i: nat, start: Usize, end: Usize) returns (r: Result<(), KernelError>)
      requires Valid() && i < |vmaList| && vmaList[i].Some?
      modifies this`vmaList, this`vmaRecycled, this`vmaMap, this`vmaCache, pageTable`leaves
      ensures Valid()
      ensures var c := Cut(old(Book()), old(pageTable.leaves), i, start, end);
        (c.Err? ==> r == Err(c.error) && Book() == old(Book()) && pageTable.leaves == old(pageTable.leaves)) &&
        (c.Ok? ==> r == Ok(()) && Book() == c.value.0 && pageTable.leaves == c.value.1)
    {
      var vma := vmaList[i].value;
      if start > vma.startVa && end < vma.endVa && |vmaMap| >= MAX_MAP_COUNT {
        return Err(ErrnoError(ENOMEM));
      }
      if vma.startVa >= start && vma.endVa <= end {
        RemoveArea(i);
      } else if vma.startVa < start && vma.endVa > end {
        KeepLeft(i, start, end);
        var _ := AddVma(Piece(vma, end, vma.endVa));
      } else if vma.endVa > end {
        KeepRight(i, end);
      } else {
        KeepLeft(i, start, vma.endVa);
      }
      r := Ok(());
    }

    /** `do_munmap`: the bookkeeping, the leaves and the result `Munmap` gives. */
    method DoMunmap(start: Usize, len: Usize) returns (r: Result<(), KernelError>)
      requires Valid()
      modifies this`vmaList, this`vmaRecycled, this`vmaMap, this`vmaCache, pageTable`leaves
      ensures (Book(), pageTable.leaves, r) == Munmap(old(Book()), old(pageTable.leaves), start, len)
      ensures Valid()
    {
      var n := PageAlign(len);
      if !IsAligned(start) || n == 0 {
        return Err(ErrnoError(EINVAL));
      }
      var end := AddrAdd(Identity, start, n);
      RangeListsOccupiedSlots(vmaList, vmaMap, vmaCache, start, end);
      var ids := GetVmaRange(start, end);
      r := CutEach(ids, start, end);
    }

    /** The `do_munmap` loop: each listed area is cut in turn, and the first error ends it. */
    method CutEach(ids: seq<nat>, start: Usize, end: Usize) returns (r: Result<(), KernelError>)
      requires Valid() && Occupied(vmaList, ids) && Distinct(ids)
      modifies this`vmaList, this`vmaRecycled, this`vmaMap, this`vmaCache, pageTable`leaves
      ensures (Book(), pageTable.leaves, r) == CutAll(old(Book()), old(pageTable.leaves), ids, start, end)
      ensures Valid()
    {
      var k := 0;
      ghost var goal := CutAll(Book(), pageTable.leaves, ids, start, end);
      while k < |ids|
        invariant Valid() && k <= |ids|
        invariant Occupied(vmaList, ids[k..]) && Distinct(ids[k..])
        invariant CutAll(Book(), pageTable.leaves, ids[k..], start, end) == goal
      {
        assert ids[k..][0] == ids[k] && ids[k..][1..] == ids[k + 1..];
        var c := CutFirst(ids[k..], start, end);
        if c.Err? {
          return c;
        }
        k := k + 1;
      }
      r := Ok(());
    }

    /** One turn of the `do_munmap` loop: the first listed area is cut, and the cut of the rest gives the same end state. */
    method CutFirst(ids: seq<nat>, start: Usize, end: Usize) returns (r: Result<(), KernelError>)
      requires Valid() && ids != [] && Occupied(vmaList, ids) && Distinct(ids)
      modifies this`vmaList, this`vmaRecycled, this`vmaMap, this`vmaCache, pageTable`leaves
      ensures Valid()
      ensures r.Err? ==> (Book(), pageTable.leaves, r) == CutAll(old(Book()), old(pageTable.leaves), ids, start, end)
      ensures r.Ok? ==> Occupied(vmaList, ids[1..]) && Distinct(ids[1..])
      ensures r.Ok? ==>
        CutAll(Book(), pageTable.leaves, ids[1..], start, end) == CutAll(old(Book()), old(pageTable.leaves), ids, start, end)
    {
      ghost var before := Book();
      r := CutOne(ids[0], start, end);
      if r.Ok? {
        RestOccupied(before, Book(), ids);
      }
    }

    /**
     * The growing part of `do_brk`: the heap area is added first when
     * `create` holds, then the area holding `start_brk` is extended to
     * `newBrk`.
     */
    method GrowHeap(newBrk: Usize, create: bool) returns (r: Reply)
      requires Valid()
      modifies this`vmaList, this`vmaRecycled, this`vmaMap, this`vmaCache, this`brk
      ensures BrkOutcome(Book(), pageTable.leaves, brk, r) == Grow(old(Book()), pageTable.leaves, startBrk, old(brk), newBrk, create)
      ensures Valid()
    {
      if create {
        var added := AddVma(HeapArea(startBrk));
        if added.Err? {
          return Failed(added.error);
        }
      }
      var heap := GetVma(startBrk);
      if heap.Err? {
        return Panicked;
      }
      var a := vmaList[heap.value].value;
      vmaList := vmaList[heap.value := Some(New(a.startVa, newBrk, a.flags, a.mapped))];
      brk := newBrk;
      return Reply(newBrk);
    }

    /**
     * The shrinking part of `do_brk`: the pages above the new break's page
     * up to the old break's page are unmapped, and the break moves only
     * when that succeeds.
     */
    method ShrinkHeap(newBrk: Usize) returns (r: Reply)
      requires Valid() && startBrk <= newBrk < brk && Ceil(newBrk) != Ceil(brk)
      modifies this`vmaList, this`vmaRecycled, this`vmaMap, this`vmaCache, this`brk, pageTable`leaves
      ensures BrkOutcome(Book(), pageTable.leaves, brk, r) ==
        BrkFirst(old(Book()), old(pageTable.leaves), startBrk, old(brk), newBrk).value
      ensures Valid()
    {
      var start := StartAddress(Identity, PageAdd(Ceil(newBrk), 1));
      var len := Wrap((Ceil(brk) - Ceil(newBrk)) * PAGE_SIZE);
      ShrinkStep(Book(), pageTable.leaves, startBrk, brk, newBrk, start, len);
      var m := DoMunmap(start, len);
      if m.Err? {
        return Reply(brk);
      }
      brk := newBrk;
      return Reply(brk);
    }

    /**
     * `do_brk`: the bookkeeping, the leaves, the break and the reply `Brk`
     * gives; the heap's start stays.
     */
    method DoBrk(newBrk: Usize) returns (r: Reply)
      requires Valid()
      modifies this`vmaList, this`vmaRecycled, this`vmaMap, this`vmaCache, this`brk, pageTable`leaves
      ensures BrkOutcome(Book(), pageTable.leaves, brk, r) == Brk(old(Book()), old(pageTable.leaves), startBrk, old(brk), newBrk)
      ensures Valid()
    {
      if newBrk < startBrk {
        return Reply(brk);
      }
      if Ceil(newBrk) == Ceil(brk) {
        brk := newBrk;
        return Reply(newBrk);
      }
      if newBrk < brk {
        r := ShrinkHeap(newBrk);
        return;
      }
      var probe := GetVma(AddrSub(Identity, newBrk, 1));
      if probe.Ok? {
        return Reply(brk);
      }
      var heap := GetVma(startBrk);
      r := GrowHeap(newBrk, heap.Err?);
    }

    /** `alloc_frame`: `PageUnmapped` outside every area, else the frame `frameOf` gives for the page. */
    method AllocFrame(va: Usize, frameOf: Usize -> Result<nat, KernelError>) returns (r: Result<nat, KernelError>)
      requires Valid()
      modifies this`vmaCache
      ensures Valid() && (Book(), r) == MmUser.AllocFrame(old(Book()), va, frameOf)
    {
      var found := GetVma(va);
      if found.Err? {
        return Err(found.error);
      }
      return frameOf(Ceil(va));
    }

    /**
     * `get_buf_mut`: the pieces `GetBuf` gives (a piece of length 0, where
     * the source loops without end, is reported as `Hangs`).
     */
    method GetBufMut(va: Usize, len: Usize, frameOf: Usize -> Result<nat, KernelError>) returns (r: Fetch<seq<BufPiece>>)
      requires Valid()
      modifies this`vmaCache
      ensures Valid() && (Book(), r) == GetBuf(old(Book()), va, len, frameOf)
    {
      var cur := va;
      var end := AddrAdd(Identity, va, len);
      var v: seq<BufPiece> := [];
      ghost var goal := GetBuf(Book(), va, len, frameOf);
      ghost var rest := goal;
      while cur < end
        invariant Valid() && cur <= end
        invariant rest == BufFrom(Book(), cur, end, frameOf) && goal == (rest.0, Joined(v, rest.1))
        decreases end - cur
      {
        var n := PageLen(cur, end);
        PageLenIsStep(cur, end);
        ghost var before := Book();
        var frame := AllocFrame(cur, frameOf);
        if frame.Err? {
          return Refused(frame.error);
        }
        if n == 0 {
          return Hangs;
        }
        var next := cur + n;
        BufTurn(goal, v, before, Book(), cur, n, next, end, frame.value, frameOf);
        v := v + [BufPiece(frame.value, PageOffset(cur), n)];
        cur := next;
        rest := BufFrom(Book(), cur, end, frameOf);
      }
      return Fetched(v);
    }

    /**
     * `get_str`: the string `GetStr` gives (a nonzero byte at the last
     * address, where the source loops without end, is reported as `Hangs`).
     */
    method GetStr(va0: Usize, frameOf: Usize -> Result<nat, KernelError>, byteAt: (nat, Usize) -> Byte) returns (r: Fetch<seq<Byte>>)
      requires Valid()
      modifies this`vmaCache
      ensures Valid() && (Book(), r) == MmUser.GetStr(old(Book()), va0, frameOf, byteAt)
    {
      var str: seq<Byte> := [];
      var alloc := true;
      var frame: nat := 0;
      var va := va0;
      while true
        invariant Valid()
        invariant MmUser.GetStr(old(Book()), va0, frameOf, byteAt) ==
          (StrFrom(Book(), va, alloc, frame, frameOf, byteAt).0, Joined(str, StrFrom(Book(), va, alloc, frame, frameOf, byteAt).1))
        decreases U64 - va
      {
        if PageOffset(va) == 0 {
          alloc := true;
        }
        if alloc {
          var f := AllocFrame(va, frameOf);
          if f.Err? {
            return Refused(f.error);
          }
          frame := f.value;
          alloc := false;
        }
        var ch := byteAt(frame, PageOffset(va));
        if ch == 0 {
          return Fetched(str);
        }
        if va == USIZE_MAX {
          return Hangs;
        }
        JoinedStep(str, ch, StrFrom(Book(), va + 1, false, frame, frameOf, byteAt).1);
        str := str + [ch];
        va := va + 1;
      }
    }

    /**
     * `do_handle_page_fault(va, flags)`: the outcome `PageFault` gives for
     * the outcome `alloc` of the area's `alloc_frame`.
     */
    method DoHandlePageFault(va: Usize, flags: Usize, alloc: Result<(nat, bool), KernelError>) returns (r: Result<(), KernelError>)
      requires Valid()
      modifies this`vmaCache
      ensures Valid() && (Book(), r) == PageFault(old(Book()), va, flags, alloc)
    {
      var found := GetVma(va);
      if found.Err? {
        return Err(found.error);
      }
      var vma := vmaList[found.value].value;
      if alloc.Err? {
        return Err(alloc.error);
      }
      if !alloc.value.1 || !Includes(vma.flags, ToPteFlags(flags)) {
        return Err(FatalPageFault);
      }
      return Ok(());
    }
  }
}
