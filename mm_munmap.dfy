/**
 * `do_munmap` stated on values: every listed area is cut against
 * `[start, end)` in one of four ways (removed whole, split around the
 * range, trimmed at its head, trimmed at its tail), and the pages cut off
 * are unmapped. `Mm.MM.DoMunmap` performs the same steps on its fields.
 *
 * `VMArea::split` is not part of this model: a piece of an area is the area
 * built by `VMArea::new` over the piece's addresses, with the flags and the
 * physical area kept.
 */
module MmUnmap {
  import opened Wrappers
  import opened Addr
  import opened Errors
  import opened Vma
  import opened MmSpec
  import opened MmSpace
  import opened Pte

  type Leaves = map<Usize, Leaf>

  /** Area `a` cut down to `[lo, hi)`. */
  function Piece(a: VMArea, lo: Usize, hi: Usize): (p: VMArea)
    ensures p.startVa == lo && p.endVa == hi && p.flags == a.flags && p.mapped == a.mapped
  {
    New(lo, hi, a.flags, a.mapped)
  }

  /** The leaves left after `unmap_all` on area `a`: its pages are cleared. */
  function Unmapped(leaves: Leaves, a: VMArea): Leaves
  {
    Without(leaves, a.pages.start, a.pages.start + SizeInPages(a.pages))
  }

  /** Every area is the one `VMArea::new` builds over its addresses. */
  predicate Shaped(s: Space)
  {
    forall j :: 0 <= j < |s.list| && s.list[j].Some? ==>
      s.list[j].value == New(s.list[j].value.startVa, s.list[j].value.endVa, s.list[j].value.flags, s.list[j].value.mapped)
  }

  /** The leaves only lose pages, and only pages sharing a byte with `[start, end)`. */
  predicate KeepsOutside(before: Leaves, after: Leaves, start: Usize, end: Usize)
  {
    (forall p :: p in after ==> p in before && after[p] == before[p]) &&
    (forall p :: p in before && !Touches(start, end, p) ==> p in after)
  }

  // ---------------------------------------------------------------------------
  // The four cuts

  /** The area is inside the range: its slot is emptied and recycled, and its index entry removed. */
  function CutCovered(s: Space, i: nat): (t: Space)
    requires Sound(s) && i < |s.list| && s.list[i].Some?
    ensures Sound(t) && |t.list| == |s.list| && t.list[i].None?
    ensures t.recycled == s.recycled + [i] && t.index == s.index - {s.list[i].value.startVa}
    ensures forall j :: 0 <= j < |s.list| && j != i ==> t.list[j] == s.list[j]
  {
    var t := Space(s.list[i := None], s.recycled + [i], s.index - {s.list[i].value.startVa}, None);
    assert forall k :: k in t.index ==> s.index[k] != i;
    t
  }

  /** The area keeps only its part below `lo`. */
  function CutKeepLeft(s: Space, i: nat, lo: Usize): (t: Space)
    requires Sound(s) && i < |s.list| && s.list[i].Some?
    ensures Sound(t) && |t.list| == |s.list| && t.recycled == s.recycled && t.index == s.index
    ensures t.list[i] == Some(Piece(s.list[i].value, s.list[i].value.startVa, lo))
    ensures forall j :: 0 <= j < |s.list| && j != i ==> t.list[j] == s.list[j]
  {
    var a := s.list[i].value;
    Space(s.list[i := Some(Piece(a, a.startVa, lo))], s.recycled, s.index, None)
  }

  /** The area keeps only its part from `hi` on, and is indexed under `hi` instead of its old start. */
  function CutKeepRight(s: Space, i: nat, hi: Usize): (t: Space)
    requires Sound(s) && i < |s.list| && s.list[i].Some?
    ensures Sound(t) && |t.list| == |s.list| && t.recycled == s.recycled
    ensures t.index == (s.index - {s.list[i].value.startVa})[hi := i]
    ensures t.list[i] == Some(Piece(s.list[i].value, hi, s.list[i].value.endVa))
    ensures forall j :: 0 <= j < |s.list| && j != i ==> t.list[j] == s.list[j]
  {
    var a := s.list[i].value;
    var t := Space(s.list[i := Some(Piece(a, hi, a.endVa))], s.recycled, (s.index - {a.startVa})[hi := i], None);
    assert forall k :: k in t.index && k != hi ==> s.index[k] != i;
    t
  }

  /**
   * One turn of the `do_munmap` loop on slot `i`: `ENOMEM` when the range
   * lies strictly inside the area and `MAX_MAP_COUNT` areas exist already
   * (nothing changes); otherwise the area is removed, split around the
   * range (the part above it added as a new area), trimmed to the part
   * above the range, or trimmed to the part below it, and the pages cut
   * off are unmapped.
   */
  function Cut(s: Space, leaves: Leaves, i: nat, start: Usize, end: Usize): (r: Result<(Space, Leaves), KernelError>)
    requires Sound(s) && i < |s.list| && s.list[i].Some?
    ensures r.Err? <==> start > s.list[i].value.startVa && end < s.list[i].value.endVa && |s.index| >= MAX_MAP_COUNT
    ensures r.Err? ==> r.error == ErrnoError(ENOMEM)
    ensures r.Ok? ==> Sound(r.value.0) && |s.list| <= |r.value.0.list|
    ensures r.Ok? ==> forall j :: 0 <= j < |s.list| && j != i && s.list[j].Some? ==> r.value.0.list[j] == s.list[j]
  {
    var a := s.list[i].value;
    if start > a.startVa && end < a.endVa && |s.index| >= MAX_MAP_COUNT then Err(ErrnoError(ENOMEM))
    else if a.startVa >= start && a.endVa <= end then
      Ok((CutCovered(s, i), Unmapped(leaves, a)))
    else if a.startVa < start && a.endVa > end then
      var s1 := CutKeepLeft(s, i, start);
      var t := Add(s1, Piece(a, end, a.endVa)).value;
      assert forall j :: 0 <= j < |s.list| && j != i && s.list[j].Some? ==> j != NextSlot(s1);
      Ok((t, Unmapped(leaves, Piece(a, start, end))))
    else if a.endVa > end then
      Ok((CutKeepRight(s, i, end), Unmapped(leaves, Piece(a, a.startVa, end))))
    else
      Ok((CutKeepLeft(s, i, start), Unmapped(leaves, Piece(a, start, a.endVa))))
  }

  /** The `do_munmap` loop over the slots `ids`: each is cut in turn, and the first error ends the loop. */
  function CutAll(s: Space, leaves: Leaves, ids: seq<nat>, start: Usize, end: Usize): (r: (Space, Leaves, Result<(), KernelError>))
    requires Sound(s) && Occupied(s.list, ids) && Distinct(ids)
    ensures Sound(r.0)
    ensures r.2.Err? ==> r.2.error == ErrnoError(ENOMEM)
    decreases |ids|
  {
    if ids == [] then (s, leaves, Ok(()))
    else
      match Cut(s, leaves, ids[0], start, end)
      case Err(e) => (s, leaves, Err(e))
      case Ok(next) =>
        RestOccupied(s, next.0, ids);
        CutAll(next.0, next.1, ids[1..], start, end)
  }

  /** The slots after the first stay occupied by the same areas once the first is cut. */
  lemma RestOccupied(s: Space, t: Space, ids: seq<nat>)
    requires Occupied(s.list, ids) && Distinct(ids) && ids != [] && |s.list| <= |t.list|
    requires forall j :: 0 <= j < |s.list| && j != ids[0] && s.list[j].Some? ==> t.list[j] == s.list[j]
    ensures Occupied(t.list, ids[1..]) && Distinct(ids[1..])
    ensures forall x :: 0 <= x < |ids| - 1 ==> t.list[ids[1..][x]] == s.list[ids[1..][x]]
  {
    forall x | 0 <= x < |ids| - 1 ensures t.list[ids[1..][x]] == s.list[ids[1..][x]] {
      assert ids[1..][x] == ids[x + 1] != ids[0];
    }
  }

  /** The space after `get_vma(va)`: the cache names the area holding `va`, when there is one. */
  function Looked(s: Space, va: Usize): (t: Space)
    requires Sound(s)
    ensures Sound(t) && t.list == s.list && t.recycled == s.recycled && t.index == s.index
    ensures Find(s.list, s.index, s.cache, va).Some? ==> t.cache == Find(s.list, s.index, s.cache, va)
    ensures Find(s.list, s.index, s.cache, va).None? ==> t.cache == s.cache
  {
    var f := Find(s.list, s.index, s.cache, va);
    if f.Some? then s.(cache := f) else s
  }

  /**
   * `do_munmap(start, len)`: `EINVAL` for an unaligned start or a length
   * that aligns down to 0; otherwise the loop over the areas meeting
   * `[start, start + page_align(len))`.
   */
  function Munmap(s: Space, leaves: Leaves, start: Usize, len: Usize): (r: (Space, Leaves, Result<(), KernelError>))
    requires Sound(s)
    ensures Sound(r.0)
    ensures r.2.Err? ==> r.2.error == ErrnoError(EINVAL) || r.2.error == ErrnoError(ENOMEM)
    ensures r.2 == Err(ErrnoError(EINVAL)) <==> !IsAligned(start) || PageAlign(len) == 0
    ensures !IsAligned(start) || PageAlign(len) == 0 ==> r.0 == s && r.1 == leaves
  {
    var n := PageAlign(len);
    if !IsAligned(start) || n == 0 then (s, leaves, Err(ErrnoError(EINVAL)))
    else
      var end := AddrAdd(Identity, start, n);
      RangeListsOccupiedSlots(s.list, s.index, s.cache, start, end);
      CutAll(Looked(s, start), leaves, Range(s.list, s.index, s.cache, start, end), start, end)
  }

  // ---------------------------------------------------------------------------
  // Pages: only pages in the range are unmapped

  /** Unmapping a piece inside `[start, end)` only clears pages sharing a byte with that range. */
  lemma PieceUnmapsInside(leaves: Leaves, lo: Usize, hi: Usize, flags: Flags, mapped: bool, start: Usize, end: Usize)
    requires start <= lo && hi <= end
    ensures KeepsOutside(leaves, Unmapped(leaves, New(lo, hi, flags, mapped)), start, end)
  {
    var a := New(lo, hi, flags, mapped);
    assert a.pages.end <= MAX_PAGE_NUMBER;
    forall p | p in leaves && !Touches(start, end, p)
      ensures p in Unmapped(leaves, a)
    {
      UnmapClearsOwnedPages(a, p);
    }
  }

  lemma KeepsOutsideChains(a: Leaves, b: Leaves, c: Leaves, start: Usize, end: Usize)
    requires KeepsOutside(a, b, start, end) && KeepsOutside(b, c, start, end)
    ensures KeepsOutside(a, c, start, end)
  {
  }

  /** A cut of a built area unmaps only pages in the range and leaves every area built. */
  lemma CutUnmapsInside(s: Space, leaves: Leaves, i: nat, start: Usize, end: Usize)
    requires Sound(s) && Shaped(s) && i < |s.list| && s.list[i].Some?
    requires Cut(s, leaves, i, start, end).Ok?
    ensures Shaped(Cut(s, leaves, i, start, end).value.0)
    ensures KeepsOutside(leaves, Cut(s, leaves, i, start, end).value.1, start, end)
  {
    var a := s.list[i].value;
    var t := Cut(s, leaves, i, start, end).value.0;
    if a.startVa >= start && a.endVa <= end {
      PieceUnmapsInside(leaves, a.startVa, a.endVa, a.flags, a.mapped, start, end);
    } else if a.startVa < start && a.endVa > end {
      PieceUnmapsInside(leaves, start, end, a.flags, a.mapped, start, end);
      var s1 := CutKeepLeft(s, i, start);
      var n := NextSlot(s1);
      forall j | 0 <= j < |t.list| && t.list[j].Some?
        ensures t.list[j].value == New(t.list[j].value.startVa, t.list[j].value.endVa, t.list[j].value.flags, t.list[j].value.mapped)
      {
        if j != n {
          assert t.list[j] == s1.list[j];
        }
      }
    } else if a.endVa > end {
      PieceUnmapsInside(leaves, a.startVa, end, a.flags, a.mapped, start, end);
    } else {
      PieceUnmapsInside(leaves, start, a.endVa, a.flags, a.mapped, start, end);
    }
  }

  /** The whole loop unmaps only pages in the range and leaves every area built. */
  lemma {:induction false} CutAllUnmapsInside(s: Space, leaves: Leaves, ids: seq<nat>, start: Usize, end: Usize)
    requires Sound(s) && Shaped(s) && Occupied(s.list, ids) && Distinct(ids)
    ensures Shaped(CutAll(s, leaves, ids, start, end).0)
    ensures KeepsOutside(leaves, CutAll(s, leaves, ids, start, end).1, start, end)
    decreases |ids|
  {
    if ids != [] && Cut(s, leaves, ids[0], start, end).Ok? {
      var next := Cut(s, leaves, ids[0], start, end).value;
      CutUnmapsInside(s, leaves, ids[0], start, end);
      RestOccupied(s, next.0, ids);
      CutAllUnmapsInside(next.0, next.1, ids[1..], start, end);
      KeepsOutsideChains(leaves, next.1, CutAll(next.0, next.1, ids[1..], start, end).1, start, end);
    }
  }

  /** A page lying wholly inside `[start, end)`. */
  predicate Inside(start: Usize, end: Usize, p: nat)
  {
    start <= p * PAGE_SIZE && (p + 1) * PAGE_SIZE <= end
  }

  /** Every page an area owned inside `[start, end)` is gone afterwards. */
  predicate ClearsOwned(areas: seq<Option<VMArea>>, after: Leaves, start: Usize, end: Usize)
  {
    forall j, p: Usize :: 0 <= j < |areas| && areas[j].Some? && Contains(areas[j].value.pages, p) && Inside(start, end, p) ==>
      p !in after
  }

  /** A cut of an area meeting the range clears every page the area shares with the range. */
  lemma CutClearsShared(s: Space, leaves: Leaves, i: nat, start: Usize, end: Usize, p: Usize)
    requires Sound(s) && Shaped(s) && i < |s.list| && s.list[i].Some?
    requires Cut(s, leaves, i, start, end).Ok?
    requires Meets(s.list[i].value, start, end)
    requires Touches(s.list[i].value.startVa, s.list[i].value.endVa, p) && Touches(start, end, p)
    ensures p !in Cut(s, leaves, i, start, end).value.1
  {
    var a := s.list[i].value;
    var lo := if a.startVa < start then start else a.startVa;
    var hi := if a.endVa > end then end else a.endVa;
    var b := New(lo, hi, a.flags, a.mapped);
    assert Contains(b.pages, p);
    assert b.pages.end <= MAX_PAGE_NUMBER;
    UnmapClearsOwnedPages(b, p);
    assert Cut(s, leaves, i, start, end).value.1 == Unmapped(leaves, b);
  }

  /** The loop clears every page that a listed area shares with the range. */
  lemma {:induction false} CutAllClearsShared(s: Space, leaves: Leaves, ids: seq<nat>, start: Usize, end: Usize, x: nat, p: Usize)
    requires Sound(s) && Shaped(s) && Occupied(s.list, ids) && Distinct(ids)
    requires CutAll(s, leaves, ids, start, end).2.Ok?
    requires x < |ids| && Meets(s.list[ids[x]].value, start, end)
    requires Touches(s.list[ids[x]].value.startVa, s.list[ids[x]].value.endVa, p) && Touches(start, end, p)
    ensures p !in CutAll(s, leaves, ids, start, end).1
    decreases |ids|
  {
    var next := Cut(s, leaves, ids[0], start, end).value;
    CutUnmapsInside(s, leaves, ids[0], start, end);
    RestOccupied(s, next.0, ids);
    if x == 0 {
      CutClearsShared(s, leaves, ids[0], start, end, p);
      CutAllUnmapsInside(next.0, next.1, ids[1..], start, end);
    } else {
      assert ids[1..][x - 1] == ids[x] && ids[x] != ids[0];
      CutAllClearsShared(next.0, next.1, ids[1..], start, end, x - 1, p);
    }
  }

  // ---------------------------------------------------------------------------
  // Areas: no area meets the range afterwards

  /** Every slot of `t` that `i` or a new area now fills, or that changed from `s`, holds an area clear of `[start, end)`. */
  predicate ChangedClear(s: Space, t: Space, i: nat, start: Usize, end: Usize)
  {
    forall j :: 0 <= j < |t.list| && t.list[j].Some? && (j == i || j >= |s.list| || t.list[j] != s.list[j]) ==>
      !Meets(t.list[j].value, start, end)
  }

  /** Every area outside the slots `ids` is clear of `[start, end)`. */
  predicate OthersClear(s: Space, ids: seq<nat>, start: Usize, end: Usize)
  {
    forall j :: 0 <= j < |s.list| && s.list[j].Some? && j !in ids ==> !Meets(s.list[j].value, start, end)
  }

  /** Removing an area keeps the areas indexed and apart. */
  lemma CoveredOrderly(s: Space, i: nat)
    requires Orderly(s) && i < |s.list| && s.list[i].Some?
    ensures Orderly(CutCovered(s, i))
  {
    var t := CutCovered(s, i);
    forall j | 0 <= j < |t.list| && t.list[j].Some?
      ensures t.list[j].value.startVa in t.index && t.index[t.list[j].value.startVa] == j
    {
      assert Apart(s.list[i].value, s.list[j].value);
    }
  }

  /** Keeping part of an area from `lo` to `hi` inside it keeps the areas apart. */
  lemma ShrunkApart(s: Space, t: Space, i: nat, lo: Usize, hi: Usize)
    requires Disjoint(s.list) && i < |s.list| && s.list[i].Some? && |t.list| == |s.list|
    requires s.list[i].value.startVa <= lo < hi <= s.list[i].value.endVa
    requires t.list[i].Some? && t.list[i].value.startVa == lo && t.list[i].value.endVa == hi
    requires forall j :: 0 <= j < |s.list| && j != i ==> t.list[j] == s.list[j]
    ensures Disjoint(t.list)
  {
    forall j, k | 0 <= j < |t.list| && 0 <= k < |t.list| && j != k && t.list[j].Some? && t.list[k].Some?
      ensures Apart(t.list[j].value, t.list[k].value)
    {
      assert Apart(s.list[j].value, s.list[k].value);
    }
  }

  /** Keeping the part of an area below `lo` keeps the areas indexed and apart. */
  lemma KeepLeftOrderly(s: Space, i: nat, lo: Usize)
    requires Orderly(s) && i < |s.list| && s.list[i].Some? && s.list[i].value.startVa < lo <= s.list[i].value.endVa
    ensures Orderly(CutKeepLeft(s, i, lo))
  {
    ShrunkApart(s, CutKeepLeft(s, i, lo), i, s.list[i].value.startVa, lo);
  }

  /** Keeping the part of an area from `hi` on keeps the areas indexed and apart. */
  lemma KeepRightOrderly(s: Space, i: nat, hi: Usize)
    requires Orderly(s) && i < |s.list| && s.list[i].Some? && s.list[i].value.startVa < hi < s.list[i].value.endVa
    ensures Orderly(CutKeepRight(s, i, hi))
  {
    var a := s.list[i].value;
    var t := CutKeepRight(s, i, hi);
    ShrunkApart(s, t, i, hi, a.endVa);
    forall j | 0 <= j < |t.list| && t.list[j].Some?
      ensures t.list[j].value.startVa in t.index && t.index[t.list[j].value.startVa] == j
    {
      if j != i {
        assert Apart(a, s.list[j].value);
      }
    }
  }

  /** Splitting an area around `[start, end)` keeps the areas indexed and apart. */
  lemma InteriorOrderly(s: Space, i: nat, start: Usize, end: Usize)
    requires Orderly(s) && i < |s.list| && s.list[i].Some?
    requires s.list[i].value.startVa < start < end < s.list[i].value.endVa && |s.index| < MAX_MAP_COUNT
    ensures var s1 := CutKeepLeft(s, i, start);
      Add(s1, Piece(s.list[i].value, end, s.list[i].value.endVa)).Ok? &&
      Orderly(Add(s1, Piece(s.list[i].value, end, s.list[i].value.endVa)).value)
  {
    var a := s.list[i].value;
    var s1 := CutKeepLeft(s, i, start);
    KeepLeftOrderly(s, i, start);
    var right := Piece(a, end, a.endVa);
    forall j | 0 <= j < |s1.list| && s1.list[j].Some?
      ensures Apart(right, s1.list[j].value)
    {
      if j != i {
        assert Apart(a, s.list[j].value);
      }
    }
    AddKeepsOrderly(s1, right);
  }

  /** A cut of an area meeting the range keeps the areas indexed and apart, and whatever it changes is clear of the range. */
  lemma CutClears(s: Space, leaves: Leaves, i: nat, start: Usize, end: Usize)
    requires Orderly(s) && i < |s.list| && s.list[i].Some? && Meets(s.list[i].value, start, end) && start < end
    requires Cut(s, leaves, i, start, end).Ok?
    ensures Orderly(Cut(s, leaves, i, start, end).value.0)
    ensures ChangedClear(s, Cut(s, leaves, i, start, end).value.0, i, start, end)
  {
    var a := s.list[i].value;
    var t := Cut(s, leaves, i, start, end).value.0;
    if a.startVa >= start && a.endVa <= end {
      CoveredOrderly(s, i);
    } else if a.startVa < start && a.endVa > end {
      InteriorOrderly(s, i, start, end);
      var s1 := CutKeepLeft(s, i, start);
      forall j | 0 <= j < |t.list| && t.list[j].Some? && (j == i || j >= |s.list| || t.list[j] != s.list[j])
        ensures !Meets(t.list[j].value, start, end)
      {
        if j != NextSlot(s1) && j < |s1.list| {
          assert t.list[j] == s1.list[j];
        }
      }
    } else if a.endVa > end {
      KeepRightOrderly(s, i, end);
    } else {
      KeepLeftOrderly(s, i, start);
    }
  }

  /**
   * After cutting the first listed area, the rest of the list still names
   * occupied slots meeting the range, and every other area is clear of it.
   */
  lemma ClearsRest(s: Space, t: Space, ids: seq<nat>, start: Usize, end: Usize)
    requires ids != [] && Occupied(s.list, ids) && Distinct(ids) && |s.list| <= |t.list|
    requires forall j :: 0 <= j < |s.list| && j != ids[0] && s.list[j].Some? ==> t.list[j] == s.list[j]
    requires AllMeet(s.list, ids, start, end) && OthersClear(s, ids, start, end)
    requires ChangedClear(s, t, ids[0], start, end)
    ensures Occupied(t.list, ids[1..]) && Distinct(ids[1..])
    ensures AllMeet(t.list, ids[1..], start, end) && OthersClear(t, ids[1..], start, end)
  {
    RestOccupied(s, t, ids);
    var rest := ids[1..];
    assert ids == [ids[0]] + rest;
    forall x | 0 <= x < |rest| ensures Meets(t.list[rest[x]].value, start, end) {
      assert rest[x] == ids[x + 1];
    }
    forall j | 0 <= j < |t.list| && t.list[j].Some? && j !in rest
      ensures !Meets(t.list[j].value, start, end)
    {
      if !(j == ids[0] || j >= |s.list| || t.list[j] != s.list[j]) {
        assert j !in ids;
      }
    }
  }

  /** Once every listed area has been cut, no area meets the range. */
  lemma {:induction false} CutAllClears(s: Space, leaves: Leaves, ids: seq<nat>, start: Usize, end: Usize)
    requires Orderly(s) && Occupied(s.list, ids) && Distinct(ids) && start < end
    requires AllMeet(s.list, ids, start, end) && OthersClear(s, ids, start, end)
    ensures CutAll(s, leaves, ids, start, end).2.Ok? ==>
      Orderly(CutAll(s, leaves, ids, start, end).0) && OthersClear(CutAll(s, leaves, ids, start, end).0, [], start, end)
    decreases |ids|
  {
    if ids != [] && Cut(s, leaves, ids[0], start, end).Ok? {
      var next := Cut(s, leaves, ids[0], start, end).value;
      var t := next.0;
      CutClears(s, leaves, ids[0], start, end);
      ClearsRest(s, t, ids, start, end);
      var rest := ids[1..];
      CutAllClears(t, next.1, rest, start, end);
    }
  }

  /**
   * When the areas are indexed, apart and built by `VMArea::new`, a
   * successful `do_munmap` keeps them so, leaves no area meeting
   * `[start, end)`, unmaps only pages sharing a byte with it, and unmaps
   * every page of `[start, end)` that an area owned.
   */
  lemma MunmapClearsRange(s: Space, leaves: Leaves, start: Usize, len: Usize)
    requires Orderly(s) && Shaped(s)
    ensures var r := Munmap(s, leaves, start, len);
      var end := AddrAdd(Identity, start, PageAlign(len));
      r.2.Ok? ==>
        start < end && Orderly(r.0) && Shaped(r.0) && OthersClear(r.0, [], start, end) &&
        KeepsOutside(leaves, r.1, start, end) &&
        ClearsOwned(s.list, r.1, start, end)
  {
    var n := PageAlign(len);
    if IsAligned(start) && n != 0 {
      var end := AddrAdd(Identity, start, n);
      RangeClears(s, start, end);
      CutAllKeeps(Looked(s, start), leaves, Range(s.list, s.index, s.cache, start, end), start, end);
    }
    MunmapClearsOwned(s, leaves, start, len);
  }

  /** A successful `do_munmap` clears every page of `[start, end)` that an area owned. */
  lemma MunmapClearsOwned(s: Space, leaves: Leaves, start: Usize, len: Usize)
    requires Orderly(s) && Shaped(s)
    ensures var r := Munmap(s, leaves, start, len);
      var end := AddrAdd(Identity, start, PageAlign(len));
      r.2.Ok? ==> ClearsOwned(s.list, r.1, start, end)
  {
    var n := PageAlign(len);
    if IsAligned(start) && n != 0 {
      RangeCutClearsOwned(s, leaves, start, AddrAdd(Identity, start, n));
    }
  }

  /** Cutting the areas that meet `[start, end)` clears every page of it that one of them owned. */
  lemma RangeCutClearsOwned(s: Space, leaves: Leaves, start: Usize, end: Usize)
    requires Orderly(s) && Shaped(s) && start < end
    ensures var ids := Range(s.list, s.index, s.cache, start, end);
      Occupied(s.list, ids) && Distinct(ids) &&
      (CutAll(Looked(s, start), leaves, ids, start, end).2.Ok? ==>
        ClearsOwned(s.list, CutAll(Looked(s, start), leaves, ids, start, end).1, start, end))
  {
    var ids := Range(s.list, s.index, s.cache, start, end);
    RangeClears(s, start, end);
    var r := CutAll(Looked(s, start), leaves, ids, start, end);
    if r.2.Ok? {
      forall j, p: Usize | 0 <= j < |s.list| && s.list[j].Some? && Contains(s.list[j].value.pages, p) && Inside(start, end, p)
        ensures p !in r.1
      {
        var a := s.list[j].value;
        assert Touches(a.startVa, a.endVa, p) && Touches(start, end, p);
        assert Meets(a, start, end);
        assert j in ids;
        var x :| 0 <= x < |ids| && ids[x] == j;
        CutAllClearsShared(Looked(s, start), leaves, ids, start, end, x, p);
      }
    }
  }

  lemma RangeClears(s: Space, start: Usize, end: Usize)
    requires Orderly(s) && start < end
    ensures var ids := Range(s.list, s.index, s.cache, start, end);
      Occupied(s.list, ids) && Distinct(ids) && AllMeet(s.list, ids, start, end) && OthersClear(s, ids, start, end)
  {
    var ids := Range(s.list, s.index, s.cache, start, end);
    RangeListsOccupiedSlots(s.list, s.index, s.cache, start, end);
    RangeListsMeetingAreas(s.list, s.index, s.cache, start, end);
    forall j | 0 <= j < |s.list| && s.list[j].Some? && Meets(s.list[j].value, start, end)
      ensures j in ids
    {
      RangeListsEveryMeetingArea(s.list, s.index, s.cache, start, end, j);
    }
  }

  /** Cutting every listed area, when the others are already clear, keeps the invariants and clears the range. */
  lemma CutAllKeeps(s: Space, leaves: Leaves, ids: seq<nat>, start: Usize, end: Usize)
    requires Orderly(s) && Shaped(s) && Occupied(s.list, ids) && Distinct(ids) && start < end
    requires AllMeet(s.list, ids, start, end) && OthersClear(s, ids, start, end)
    ensures var r := CutAll(s, leaves, ids, start, end);
      r.2.Ok? ==>
        Orderly(r.0) && Shaped(r.0) && OthersClear(r.0, [], start, end) && KeepsOutside(leaves, r.1, start, end)
  {
    CutAllClears(s, leaves, ids, start, end);
    CutAllUnmapsInside(s, leaves, ids, start, end);
  }

  /**
   * With `get_vma_range` as written, an area starting at `start` is listed
   * twice; when the range covers it, the first turn of the loop empties its
   * slot, so the second turn's `unwrap` finds no area there.
   */
  lemma MunmapAsWrittenRevisitsEmptySlot()
    ensures var s := Space([Some(New(0x1000, 0x3000, 0, true))], [], map[0x1000 := 0], None);
      var ids := RangeAsWritten(s.list, s.index, s.cache, 0x1000, 0x3000);
      ids == [0, 0] && Cut(Looked(s, 0x1000), map[], ids[0], 0x1000, 0x3000).Ok? &&
      Cut(Looked(s, 0x1000), map[], ids[0], 0x1000, 0x3000).value.0.list[ids[1]].None?
  {
    RangeAsWrittenExample();
  }
}
