/**
 * The bookkeeping of an address space as one value: the area slots, the
 * recycled slot indexes, the start-address index and the cache. `add_vma`
 * is stated here as a function on that value; the class `Mm.MM` performs
 * it on its fields.
 */
module MmSpace {
  import opened Wrappers
  import opened Addr
  import opened Errors
  import opened Vma
  import opened MmSpec

  datatype Space = Space(list: Slots, recycled: seq<nat>, index: Index, cache: Option<nat>)

  /** The invariant every operation keeps: index entries name their areas, recycled slots are empty, the cache names a slot. */
  predicate Sound(s: Space)
  {
    Indexed(s.list, s.index) && Recyclable(s.list, s.recycled) && CacheInList(s.list, s.cache)
  }

  /** The stronger invariant: every area is indexed under its start, and areas are non-empty and do not overlap. */
  predicate Orderly(s: Space)
  {
    Sound(s) && Tidy(s.list, s.index) && Disjoint(s.list)
  }

  /** The slot `add_vma` fills: the most recently recycled one, or a new one at the end of the list. */
  function NextSlot(s: Space): (i: nat)
    requires Sound(s)
    ensures i <= |s.list| && (i < |s.list| ==> s.list[i].None?)
    ensures s.recycled == [] <==> i == |s.list|
  {
    if s.recycled == [] then |s.list| else s.recycled[|s.recycled| - 1]
  }

  /**
   * `add_vma`: refused with `ENOMEM` once `MAX_MAP_COUNT` areas are indexed;
   * otherwise the area goes into the slot `NextSlot` names, is indexed
   * under its start address and becomes the cached area.
   */
  function Add(s: Space, vma: VMArea): (r: Result<Space, KernelError>)
    requires Sound(s)
    ensures r.Err? <==> |s.index| >= MAX_MAP_COUNT
    ensures r.Err? ==> r.error == ErrnoError(ENOMEM)
    ensures r.Ok? ==> Sound(r.value)
    ensures r.Ok? ==> |r.value.list| == |s.list| + (if s.recycled == [] then 1 else 0)
    ensures r.Ok? ==> var i := NextSlot(s);
      i < |r.value.list| && r.value.list[i] == Some(vma) && r.value.cache == Some(i) &&
      r.value.index == s.index[vma.startVa := i] &&
      (forall j :: 0 <= j < |s.list| && j != i ==> r.value.list[j] == s.list[j])
  {
    if |s.index| >= MAX_MAP_COUNT then Err(ErrnoError(ENOMEM))
    else
      var i := NextSlot(s);
      var list := if s.recycled == [] then s.list + [Some(vma)] else s.list[i := Some(vma)];
      var rec := if s.recycled == [] then s.recycled else s.recycled[..|s.recycled| - 1];
      var t := Space(list, rec, s.index[vma.startVa := i], Some(i));
      AddSound(s, vma, t);
      Ok(t)
  }

  /** The value `Add` builds keeps the invariant. */
  lemma AddSound(s: Space, vma: VMArea, t: Space)
    requires Sound(s)
    requires var i := NextSlot(s);
      t.list == (if s.recycled == [] then s.list + [Some(vma)] else s.list[i := Some(vma)]) &&
      t.recycled == (if s.recycled == [] then s.recycled else s.recycled[..|s.recycled| - 1]) &&
      t.index == s.index[vma.startVa := i] && t.cache == Some(i)
    ensures Sound(t)
  {
    var i := NextSlot(s);
    assert forall j :: 0 <= j < |s.list| && j != i ==> t.list[j] == s.list[j];
    forall k | k in t.index
      ensures t.index[k] < |t.list| && t.list[t.index[k]].Some? && t.list[t.index[k]].value.startVa == k
    {
      if k != vma.startVa {
        assert s.list[s.index[k]].Some?;
      }
    }
    if s.recycled != [] {
      forall x | 0 <= x < |t.recycled| ensures t.recycled[x] != i {
        assert t.recycled[x] == s.recycled[x];
      }
    }
  }

  /** Putting an area with the same start into an occupied slot, and caching that slot, keeps the invariant. */
  lemma ReplaceSound(s: Space, i: nat, a: VMArea)
    requires Sound(s) && i < |s.list| && s.list[i].Some? && a.startVa == s.list[i].value.startVa
    ensures Sound(Space(s.list[i := Some(a)], s.recycled, s.index, Some(i)))
  {
    var l := s.list[i := Some(a)];
    forall k | k in s.index
      ensures s.index[k] < |l| && l[s.index[k]].Some? && l[s.index[k]].value.startVa == k
    {
    }
  }

  /**
   * Adding an area that is non-empty and overlaps none keeps every area
   * indexed under its start and the areas apart.
   */
  lemma AddKeepsOrderly(s: Space, vma: VMArea)
    requires Orderly(s) && vma.startVa < vma.endVa
    requires forall j :: 0 <= j < |s.list| && s.list[j].Some? ==> Apart(vma, s.list[j].value)
    requires Add(s, vma).Ok?
    ensures Orderly(Add(s, vma).value)
  {
    var t := Add(s, vma).value;
    var i := NextSlot(s);
    assert vma.startVa !in s.index;
    forall j | 0 <= j < |t.list| && t.list[j].Some?
      ensures t.list[j].value.startVa in t.index && t.index[t.list[j].value.startVa] == j
    {
      if j != i {
        assert t.list[j] == s.list[j];
        assert Apart(vma, s.list[j].value);
      }
    }
    forall j, k | 0 <= j < |t.list| && 0 <= k < |t.list| && j != k && t.list[j].Some? && t.list[k].Some?
      ensures Apart(t.list[j].value, t.list[k].value)
    {
      if j != i && k != i {
        assert t.list[j] == s.list[j] && t.list[k] == s.list[k];
      } else if j == i {
        assert t.list[k] == s.list[k];
      } else {
        assert t.list[j] == s.list[j];
      }
    }
  }

  /** After `add_vma`, `get_vma` finds the new area for every address in it. */
  lemma AddThenFind(s: Space, vma: VMArea, va: Usize)
    requires Sound(s) && Add(s, vma).Ok? && InArea(vma, va)
    ensures var t := Add(s, vma).value;
      Find(t.list, t.index, t.cache, va) == Some(NextSlot(s))
  {
  }
}
