/**
 * The older Sv39 page table of the `tmm_rv` crate. It has the same state as
 * the `mm-rv` table (a root frame and the frames it owns) and the same entry
 * layout, but one walk serves every operation: with the CREAT flag it
 * installs missing tables at depths 0 and 1, and it always insists that the
 * leaf entry is valid. So `map` succeeds only on a page that was already
 * mapped, and then creates nothing (`Walk`, `Map`). The `mm-rv` table's
 * `PageTableMmRv.PageTable.Map`, whose `create` returns the leaf slot
 * unchecked, is the map this one evidently intends.
 *
 * Three departures from the code as written:
 * - New table frames come zero-filled from `PhysMem.FrameSupply.Alloc`. The
 *   code allocates them with `AllocatedFrames::new(1)`, which does not clear
 *   the frame, so a fresh depth-1 table may hold stale valid entries, and
 *   then `map` can succeed on a page never mapped. "Succeeds only on a page
 *   already mapped" holds under the zero-filling assumption only.
 * - The walk follows `Pte.Frame`, the PPN field. The code calls
 *   `entry.frame()`, which rounds up through the swapped `floor` of
 *   `tmm_addr` and so names the frame after the right one whenever any flag
 *   is set (`Pte.FrameAsWritten`, `Pte.FrameAsWrittenIsOffByOne`).
 * - `translate` walks the page holding `va` (`Addr.Ceil`, the floor in plain
 *   terms). The code walks `Page::floor(va)`, the next page whenever `va` is
 *   unaligned (`PageTableMmRv.TranslateAsWritten`,
 *   `PageTableMmRv.TranslateAsWrittenCounterexample`).
 *
 * The walk specification, the link and tree invariants and the allocation
 * step are shared with `PageTableMmRv`.
 */
module PageTableTmm {
  import opened Wrappers
  import opened Addr
  import opened Sv39Address
  import opened Pte
  import opened PhysMem
  import opened PageTableMmRv

  class PageTable {
    /** The root frame, pointed to by `satp`. */
    var root: Usize
    /** The frames this table owns: the root and every table frame created since. */
    var frames: seq<Usize>
    /** The depth of each owned frame below the root. */
    ghost var level: map<Usize, nat>

    ghost predicate Valid(mem: Memory)
      reads this, mem
    {
      Shape(level, root) && Linked(mem.words, level) && Tree(mem.words, level) &&
      (forall t :: t in level <==> t in frames)
    }

    /** No frame still in the supply belongs to this table. */
    ghost predicate FreshFor(supply: FrameSupply)
      reads this, supply
    {
      Unowned(supply.free, level)
    }

    /** The table `PageTable::new` builds once a root frame is available: the root is the first free frame, zeroed. */
    constructor (mem: Memory, supply: FrameSupply)
      requires supply.Valid() && supply.free != []
      modifies mem, supply
      ensures Valid(mem) && supply.Valid() && FreshFor(supply)
      ensures root == old(supply.free)[0] && frames == [root]
      ensures supply.free == old(supply.free)[1..]
    {
      var f := supply.Alloc(mem);
      root := f.value;
      frames := [f.value];
      level := map[f.value := 0];
      new;
      forall t: Usize, i: Usize | t in level && level[t] < 2 && i < ENTRIES
        ensures ReadWord(mem.words, FromIndex(t, i)) == 0
      {
        SlotInItsFrame(t, i, f.value);
      }
    }

    /** The allocation branch of `walk`, recorded in `frames` and `level`. */
    method InstallTable(mem: Memory, supply: FrameSupply, link: Usize, index: nat, ghost depth: nat)
      returns (nf: Option<Usize>, entry: Usize)
      requires Valid(mem) && supply.Valid() && FreshFor(supply)
      requires link in level && level[link] == depth && depth < 2 && index < ENTRIES
      requires !IsValid(FlagsOf(ReadWord(mem.words, FromIndex(link, index))))
      modifies this`frames, this`level, mem, supply
      ensures Valid(mem) && supply.Valid() && FreshFor(supply)
      ensures nf.None? ==>
        old(supply.free) == [] && supply.free == [] &&
        frames == old(frames) && level == old(level) && mem.words == old(mem.words)
      ensures nf.Some? ==>
        old(supply.free) != [] && nf.value == old(supply.free)[0] &&
        supply.free == old(supply.free)[1..] &&
        frames == old(frames) + [nf.value] && level == old(level)[nf.value := depth + 1] &&
        KeepsValidUpper(old(mem.words), mem.words, old(level)) && KeepsLeaves(old(mem.words), mem.words, old(level)) &&
        ReadWord(mem.words, FromIndex(link, index)) == entry &&
        Step(mem.words, link, index) == Ok(nf.value) &&
        ZeroTable(mem.words, nf.value)
    {
      nf, entry := Install(mem, supply, level, root, link, index, depth);
      if nf.Some? {
        frames := frames + [nf.value];
        level := level[nf.value := depth + 1];
      }
    }

    /**
     * One level of `walk` for `page`, below table `link` at depth `depth`:
     * read entry `index`. An invalid entry gets a fresh zeroed table when
     * `creat` is set and the depth is 0 or 1; any other invalid entry is an
     * error, and so is the whole walk.
     */
    method Advance(mem: Memory, supply: FrameSupply, page: Usize, depth: nat, link: Usize, index: nat, creat: bool)
      returns (r: Result<Slot, PtError>)
      requires Valid(mem) && supply.Valid() && FreshFor(supply)
      requires depth < 3 && index == VpnIndexes(page)[depth]
      requires Descend(mem.words, root, VpnIndexes(page)[..depth]) == Ok(link) && link in level && level[link] == depth
      modifies this`frames, this`level, mem, supply
      ensures Valid(mem) && supply.Valid() && FreshFor(supply)
      ensures Grows(old(mem.words), old(frames), old(level), old(supply.free), mem.words, frames, level, supply.free)
      ensures |frames| <= |old(frames)| + (if creat && depth < 2 then 1 else 0)
      ensures !creat ==> |frames| == |old(frames)|
      ensures |frames| != |old(frames)| ==> WalkSpec(old(mem.words), root, page) == Err(InvalidEntry)
      ensures r.Err? ==>
        (r.error == FrameAllocFailed && creat && supply.free == [] && WalkSpec(old(mem.words), root, page) == Err(InvalidEntry)) ||
        (r.error == InvalidEntry && WalkSpec(mem.words, root, page) == Err(InvalidEntry))
      ensures r.Ok? ==>
        r.value.pa == FromIndex(link, index) && r.value.entry == ReadWord(mem.words, r.value.pa) &&
        IsValid(FlagsOf(r.value.entry))
      ensures ZeroTable(old(mem.words), link) && r.Ok? ==> |frames| != |old(frames)|
      ensures r.Ok? && |frames| != |old(frames)| ==> ZeroTable(mem.words, Frame(r.value.entry))
      ensures r.Ok? && depth < 2 ==>
        Descend(mem.words, root, VpnIndexes(page)[..depth + 1]) == Ok(Frame(r.value.entry)) &&
        Frame(r.value.entry) in level && level[Frame(r.value.entry)] == depth + 1
      ensures r.Ok? && depth == 2 ==> WalkSpec(mem.words, root, page) == Ok(r.value)
    {
      ghost var prefix := VpnIndexes(page)[..depth];
      var pa := FromIndex(link, index);
      var entry := ReadWord(mem.words, pa);
      if !IsValid(FlagsOf(entry)) {
        StepFailsWalk(mem.words, root, page, depth, link);
        if creat && depth < 2 {
          ghost var w0 := mem.words;
          ghost var f0, free0 := frames, supply.free;
          var nf;
          nf, entry := InstallTable(mem, supply, link, index, depth);
          if nf.None? {
            return Err(FrameAllocFailed);
          }
          TakeFront(f0, free0);
          DescendStable(w0, mem.words, old(level), root, prefix);
        } else {
          return Err(InvalidEntry);
        }
      } else {
        ValidEntryNotZero(mem.words, link, index);
      }
      if depth < 2 {
        DescendNext(mem.words, level, root, page, depth, link);
      }
      r := Ok(Slot(pa, entry));
    }

    /**
     * `walk`: follow the three indexes of `page` to its leaf entry, which must
     * be valid. With `creat`, missing tables at depths 0 and 1 are installed
     * first; since a fresh table is all zeroes here, the leaf below it is invalid,
     * so the walk succeeds only on a page whose walk already succeeded, and
     * then it has created nothing. Otherwise it fails as the plain walk does,
     * or because no frame was left for a table.
     */
    method Walk(mem: Memory, supply: FrameSupply, page: Usize, creat: bool) returns (r: Result<Slot, PtError>)
      requires Valid(mem) && supply.Valid() && FreshFor(supply)
      modifies this`frames, this`level, mem, supply
      ensures Valid(mem) && supply.Valid() && FreshFor(supply)
      ensures Grows(old(mem.words), old(frames), old(level), old(supply.free), mem.words, frames, level, supply.free)
      ensures |frames| <= |old(frames)| + (if creat then 2 else 0)
      ensures !creat ==> |frames| == |old(frames)|
      ensures r.Ok? ==> r == WalkSpec(old(mem.words), root, page) && |frames| == |old(frames)|
      ensures r.Err? && r.error == InvalidEntry ==> WalkSpec(old(mem.words), root, page) == r
      ensures r.Err? && r.error == FrameAllocFailed ==>
        creat && supply.free == [] && WalkSpec(old(mem.words), root, page).Err?
    {
      var indexes := SplitVpn(page);
      var link: Usize := root;
      var result := Slot(0, 0);
      for j := 0 to 3
        invariant Valid(mem) && supply.Valid() && FreshFor(supply)
        invariant Grows(old(mem.words), old(frames), old(level), old(supply.free), mem.words, frames, level, supply.free)
        invariant |frames| <= |old(frames)| + (if !creat then 0 else if j < 2 then j else 2)
        invariant !creat ==> |frames| == |old(frames)|
        invariant |frames| != |old(frames)| ==> WalkSpec(old(mem.words), root, page) == Err(InvalidEntry)
        invariant 0 < j < 3 && |frames| != |old(frames)| ==> ZeroTable(mem.words, link)
        invariant j < 3 ==> Descend(mem.words, root, indexes[..j]) == Ok(link) && link in level && level[link] == j
        invariant j == 3 ==> |frames| == |old(frames)| && WalkSpec(mem.words, root, page) == Ok(result)
      {
        ghost var w0, f0, l0, free0 := mem.words, frames, level, supply.free;
        var step := Advance(mem, supply, page, j, link, indexes[j], creat);
        GrowsTrans(old(mem.words), old(frames), old(level), old(supply.free), w0, f0, l0, free0, mem.words, frames, level, supply.free);
        if step.Err? {
          return step;
        }
        result := step.value;
        link := Frame(step.value.entry);
      }
      r := Ok(result);
    }

    /**
     * `map`: walk with CREAT, then overwrite the leaf with `flags` and the
     * frame number. Because the walk rejects an invalid leaf, a success means
     * the page was mapped before; a page never mapped cannot be mapped.
     */
    method Map(mem: Memory, supply: FrameSupply, page: Usize, frame: Usize, flags: Flags) returns (r: Result<(), PtError>)
      requires Valid(mem) && supply.Valid() && FreshFor(supply)
      modifies this`frames, this`level, mem, supply
      ensures Valid(mem) && supply.Valid() && FreshFor(supply)
      ensures frames + supply.free == old(frames) + old(supply.free)
      ensures old(frames) <= frames && |frames| <= |old(frames)| + 2
      ensures KeepsValidUpper(old(mem.words), mem.words, old(level))
      ensures forall q :: VpnIndexes(q) != VpnIndexes(page) && WalkSpec(old(mem.words), root, q).Ok? ==>
        WalkSpec(mem.words, root, q) == WalkSpec(old(mem.words), root, q)
      ensures r.Ok? ==> frames == old(frames) && WalkSpec(old(mem.words), root, page).Ok?
      ensures WalkSpec(old(mem.words), root, page).Err? ==> r.Err?
      ensures r.Ok? && IsValid(flags) ==>
        WalkSpec(mem.words, root, page).Ok? &&
        FlagsOf(WalkSpec(mem.words, root, page).value.entry) == flags &&
        Frame(WalkSpec(mem.words, root, page).value.entry) == frame % PPN_SPAN
      ensures r.Ok? && !IsValid(flags) ==> WalkSpec(mem.words, root, page) == Err(InvalidEntry)
    {
      var slot := Walk(mem, supply, page, true);
      ghost var w1 := mem.words;
      forall q | VpnIndexes(q) != VpnIndexes(page) && WalkSpec(old(mem.words), root, q).Ok?
        ensures WalkSpec(w1, root, q) == WalkSpec(old(mem.words), root, q)
      {
        KeptWalk(old(mem.words), w1, old(level), root, q);
      }
      if slot.Err? {
        return Err(slot.error);
      }
      var idx := VpnIndexes(page);
      ghost var leafTable := Descend(mem.words, root, idx[..2]).value;
      var entry := SetPpn(SetFlags(slot.value.entry, flags), frame);
      WriteLeafWalk(w1, level, root, page, leafTable, entry);
      forall q | VpnIndexes(q) != VpnIndexes(page) && WalkSpec(w1, root, q).Ok?
        ensures WalkSpec(w1[slot.value.pa := entry], root, q) == WalkSpec(w1, root, q)
      {
        WriteLeafKeepsOthers(w1, level, root, page, leafTable, entry, q);
      }
      mem.Write(slot.value.pa, entry);
      r := Ok(());
    }

    /** `unmap`: zero the leaf entry of `page`, or fail, changing nothing, when the walk fails. */
    method Unmap(mem: Memory, supply: FrameSupply, page: Usize) returns (r: Result<(), PtError>)
      requires Valid(mem) && supply.Valid() && FreshFor(supply)
      modifies this`frames, this`level, mem, supply
      ensures Valid(mem) && frames == old(frames) && level == old(level) && supply.free == old(supply.free)
      ensures r.Err? <==> WalkSpec(old(mem.words), root, page).Err?
      ensures r.Err? ==> r.error == InvalidEntry && mem.words == old(mem.words)
      ensures r.Ok? ==>
        mem.words == old(mem.words)[WalkSpec(old(mem.words), root, page).value.pa := 0] &&
        WalkSpec(mem.words, root, page) == Err(InvalidEntry)
    {
      var slot := Walk(mem, supply, page, false);
      if slot.Err? {
        WalkErrorIsInvalidEntry(mem.words, root, page);
        return Err(slot.error);
      }
      var idx := VpnIndexes(page);
      ghost var leafTable := Descend(mem.words, root, idx[..2]).value;
      WriteLeafWalk(mem.words, level, root, page, leafTable, 0);
      mem.Write(slot.value.pa, 0);
      r := Ok(());
    }

    /** `translate`: the start of the leaf frame of the page holding `va`, plus `va`'s page offset. */
    method Translate(mem: Memory, supply: FrameSupply, va: Usize) returns (r: Result<Usize, PtError>)
      requires Valid(mem) && supply.Valid() && FreshFor(supply)
      modifies this`frames, this`level, mem, supply
      ensures mem.words == old(mem.words) && frames == old(frames) && supply.free == old(supply.free)
      ensures r == TranslateSpec(mem.words, root, va)
    {
      var slot := Walk(mem, supply, Ceil(va), false);
      if slot.Err? {
        return Err(slot.error);
      }
      var offset := PageOffset(va);
      var pa := StartAddress(CanonicalizePa, Frame(slot.value.entry));
      r := Ok(AddrAdd(CanonicalizePa, pa, offset));
    }
  }

  /** `PageTable::new`: a table over a freshly allocated, zeroed root frame, or an error when no frame is left. */
  method NewPageTable(mem: Memory, supply: FrameSupply) returns (r: Result<PageTable, PtError>)
    requires supply.Valid()
    modifies mem, supply
    ensures supply.Valid()
    ensures r.Err? ==> r.error == FrameAllocFailed && old(supply.free) == [] && supply.free == []
    ensures r.Ok? ==>
      fresh(r.value) && r.value.Valid(mem) && r.value.FreshFor(supply) &&
      old(supply.free) != [] && r.value.root == old(supply.free)[0] && r.value.frames == [r.value.root] &&
      supply.free == old(supply.free)[1..]
  {
    if supply.free == [] {
      return Err(FrameAllocFailed);
    }
    var table := new PageTable(mem, supply);
    r := Ok(table);
  }
}
