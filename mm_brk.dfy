/**
 * `do_brk` stated on values: the break moves within the heap that starts
 * at `start_brk`; shrinking unmaps the pages given up, growing extends the
 * heap area (creating it first when needed) unless the new top would land
 * in an area already there. `Mm.MM.DoBrk` performs the same steps on its
 * fields.
 *
 * `VMArea::extend` is not part of this model: extending an area to `brk`
 * gives the area `VMArea::new` builds over `[start_va, brk)`.
 */
module MmBrk {
  import opened Wrappers
  import opened Addr
  import opened Errors
  import opened Pte
  import opened VmFlags
  import opened Vma
  import opened MmSpec
  import opened MmSpace
  import opened MmUnmap

  /** What `do_brk` gives back: the break it reports, an error passed on by `?`, or a panic in `unwrap`. */
  datatype Reply = Reply(value: Usize) | Failed(error: KernelError) | Panicked

  /** The state `do_brk` leaves: the areas, the page table's leaves, the break, and the reply. */
  datatype BrkOutcome = BrkOutcome(space: Space, leaves: Leaves, brk: Usize, reply: Reply)

  /** `USER | READ | WRITE` as the page-table flags the heap area carries. */
  const HEAP_FLAGS: Flags := ToPteFlags(VM_USER + VM_READ + VM_WRITE)

  /** The heap area `do_brk` creates: one page from `start_brk`, over a (mapped) lazy area. */
  function HeapArea(startBrk: Usize): (a: VMArea)
    ensures startBrk < USIZE_MAX - PAGE_SIZE ==> InArea(a, startBrk)
    ensures a.startVa == startBrk && a.flags == HEAP_FLAGS
  {
    New(startBrk, AddrAdd(Identity, startBrk, PAGE_SIZE), HEAP_FLAGS, true)
  }

  /**
   * The steps `do_brk` takes before it grows the heap: a break below
   * `start_brk` is refused; one in the same page as the old break is taken
   * as it is; a lower break unmaps the pages above its page up to the old
   * break's page (and is refused when that fails); a higher break whose
   * last byte lies in an existing area is refused. `None` when the heap is
   * to grow.
   */
  function BrkFirst(s: Space, leaves: Leaves, startBrk: Usize, brk: Usize, newBrk: Usize): (r: Option<BrkOutcome>)
    requires Sound(s)
    ensures r.Some? ==> Sound(r.value.space) && r.value.reply == Reply(r.value.brk)
    ensures r.Some? ==> r.value.brk == brk || r.value.brk == newBrk
    ensures r.None? <==> (startBrk <= newBrk && Ceil(newBrk) != Ceil(brk) && brk <= newBrk &&
                          Find(s.list, s.index, s.cache, AddrSub(Identity, newBrk, 1)).None?)
  {
    if newBrk < startBrk then Some(BrkOutcome(s, leaves, brk, Reply(brk)))
    else if Ceil(newBrk) == Ceil(brk) then Some(BrkOutcome(s, leaves, newBrk, Reply(newBrk)))
    else if newBrk < brk then
      var m := Munmap(s, leaves, StartAddress(Identity, PageAdd(Ceil(newBrk), 1)), Wrap((Ceil(brk) - Ceil(newBrk)) * PAGE_SIZE));
      Some(if m.2.Err? then BrkOutcome(m.0, m.1, brk, Reply(brk)) else BrkOutcome(m.0, m.1, newBrk, Reply(newBrk)))
    else if Find(s.list, s.index, s.cache, AddrSub(Identity, newBrk, 1)).Some? then
      Some(BrkOutcome(Looked(s, AddrSub(Identity, newBrk, 1)), leaves, brk, Reply(brk)))
    else None
  }

  /** A lower break in another page: `BrkFirst` is the unmapping of the pages above the new break's page. */
  lemma ShrinkStep(s: Space, leaves: Leaves, startBrk: Usize, brk: Usize, newBrk: Usize, start: Usize, len: Usize)
    requires Sound(s) && startBrk <= newBrk < brk && Ceil(newBrk) != Ceil(brk)
    requires start == StartAddress(Identity, PageAdd(Ceil(newBrk), 1)) && len == Wrap((Ceil(brk) - Ceil(newBrk)) * PAGE_SIZE)
    ensures var m := Munmap(s, leaves, start, len);
      BrkFirst(s, leaves, startBrk, brk, newBrk) ==
        Some(if m.2.Err? then BrkOutcome(m.0, m.1, brk, Reply(brk)) else BrkOutcome(m.0, m.1, newBrk, Reply(newBrk)))
  {
  }

  /**
   * Growing the heap to `newBrk`: add the heap area first when `create`
   * holds (its error is passed on), then extend the area holding
   * `start_brk` to `newBrk`; `unwrap` panics when there is none.
   */
  function Grow(s: Space, leaves: Leaves, startBrk: Usize, brk: Usize, newBrk: Usize, create: bool): (r: BrkOutcome)
    requires Sound(s)
    ensures Sound(r.space) && r.leaves == leaves
    ensures r.reply.Reply? ==> r.reply.value == r.brk == newBrk
    ensures !r.reply.Reply? ==> r.brk == brk
    ensures r.reply.Failed? ==> r.reply.error == ErrnoError(ENOMEM)
  {
    var added := if create then Add(s, HeapArea(startBrk)) else Ok(s);
    if added.Err? then BrkOutcome(s, leaves, brk, Failed(added.error))
    else
      var t := added.value;
      var f := Find(t.list, t.index, t.cache, startBrk);
      if f.None? then BrkOutcome(t, leaves, brk, Panicked)
      else
        var a := t.list[f.value].value;
        var grown := Space(t.list[f.value := Some(New(a.startVa, newBrk, a.flags, a.mapped))], t.recycled, t.index, f);
        ReplaceSound(t, f.value, New(a.startVa, newBrk, a.flags, a.mapped));
        BrkOutcome(grown, leaves, newBrk, Reply(newBrk))
  }

  /** `do_brk` as written: the heap area is created only when the old break is still `start_brk`. */
  function BrkAsWritten(s: Space, leaves: Leaves, startBrk: Usize, brk: Usize, newBrk: Usize): (r: BrkOutcome)
    requires Sound(s)
  {
    match BrkFirst(s, leaves, startBrk, brk, newBrk)
    case Some(r) => r
    case None => Grow(s, leaves, startBrk, brk, newBrk, brk == startBrk)
  }

  /** `do_brk` creating the heap area whenever no area holds `start_brk`. */
  function Brk(s: Space, leaves: Leaves, startBrk: Usize, brk: Usize, newBrk: Usize): (r: BrkOutcome)
    requires Sound(s)
    ensures Sound(r.space)
    ensures r.reply.Reply? ==> r.reply.value == r.brk
    ensures r.brk == brk || r.brk == newBrk
  {
    match BrkFirst(s, leaves, startBrk, brk, newBrk)
    case Some(r) => r
    case None => Grow(s, leaves, startBrk, brk, newBrk, Find(s.list, s.index, s.cache, startBrk).None?)
  }

  /**
   * As written, a first break inside the heap's first page moves the break
   * without creating the heap area; the next break past that page finds
   * neither the old break at `start_brk` nor a heap area, and panics.
   */
  lemma BrkAsWrittenPanics()
    ensures var s := Space([], [], map[], None);
      var first := BrkAsWritten(s, map[], 0x10000, 0x10000, 0x10800);
      first == BrkOutcome(s, map[], 0x10800, Reply(0x10800)) &&
      BrkAsWritten(first.space, first.leaves, 0x10000, first.brk, 0x12000).reply == Panicked
  {
    var s := Space([], [], map[], None);
    assert Find(s.list, s.index, s.cache, 0x11FFF).None?;
    assert Find(s.list, s.index, s.cache, 0x10000).None?;
  }

  /** Creating the heap area whenever none holds `start_brk`, `do_brk` never panics. */
  lemma BrkNeverPanics(s: Space, leaves: Leaves, startBrk: Usize, brk: Usize, newBrk: Usize)
    requires Sound(s) && startBrk < USIZE_MAX - PAGE_SIZE
    ensures Brk(s, leaves, startBrk, brk, newBrk).reply != Panicked
  {
    if BrkFirst(s, leaves, startBrk, brk, newBrk).None? && Find(s.list, s.index, s.cache, startBrk).None? {
      if Add(s, HeapArea(startBrk)).Ok? {
        AddThenFind(s, HeapArea(startBrk), startBrk);
      }
    }
  }

  /** A higher break whose last byte lies in an existing area is refused and reported as the old break. */
  lemma BrkRefusesTakenAddress(s: Space, leaves: Leaves, startBrk: Usize, brk: Usize, newBrk: Usize, i: nat)
    requires Orderly(s) && startBrk <= newBrk && brk <= newBrk && Ceil(newBrk) != Ceil(brk)
    requires i < |s.list| && s.list[i].Some? && InArea(s.list[i].value, AddrSub(Identity, newBrk, 1))
    ensures Brk(s, leaves, startBrk, brk, newBrk).brk == brk
    ensures Brk(s, leaves, startBrk, brk, newBrk).reply == Reply(brk)
    ensures Brk(s, leaves, startBrk, brk, newBrk).leaves == leaves
  {
    FindComplete(s.list, s.index, s.cache, AddrSub(Identity, newBrk, 1), i);
  }

  /**
   * A higher break in free space, with room for one more area, moves the
   * break and leaves the area holding `start_brk` ending at the new break.
   */
  lemma BrkGrowsHeap(s: Space, leaves: Leaves, startBrk: Usize, brk: Usize, newBrk: Usize)
    requires Sound(s) && startBrk < USIZE_MAX - PAGE_SIZE && |s.index| < MAX_MAP_COUNT
    requires startBrk <= newBrk && brk <= newBrk && Ceil(newBrk) != Ceil(brk)
    requires Find(s.list, s.index, s.cache, AddrSub(Identity, newBrk, 1)).None?
    ensures var r := Brk(s, leaves, startBrk, brk, newBrk);
      r.brk == newBrk && r.reply == Reply(newBrk) &&
      r.space.cache.Some? && r.space.list[r.space.cache.value].Some? &&
      r.space.list[r.space.cache.value].value.endVa == newBrk
  {
    if Find(s.list, s.index, s.cache, startBrk).None? {
      AddThenFind(s, HeapArea(startBrk), startBrk);
    }
  }
}
