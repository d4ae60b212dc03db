/**
 * Physical memory as the page-table code sees it through raw pointers, and
 * the frame allocator it draws page-table frames from.
 *
 * The buddy allocator behind `AllocatedFrame::new` is an external crate; here
 * it is an abstract supply of distinct frames, each zero-filled when handed
 * out, as `mm-rv` requests with `AllocatedFrame::new(true)`. The `tmm_rv`
 * table allocates with `AllocatedFrames::new(1)`, which does not clear the
 * frame; its model draws from this same zeroing supply, so it assumes
 * cleared frames where the code does not provide them.
 */
module PhysMem {
  import opened Wrappers
  import opened Addr
  import opened Sv39Address
  import opened Pte

  /** The 64-bit word stored at physical address `pa`; memory never written reads as zero. */
  function ReadWord(words: map<nat, Usize>, pa: nat): Usize
  {
    if pa in words then words[pa] else 0
  }

  /** Physical address `a` lies in frame `f`. */
  predicate InFrame(a: nat, f: nat)
  {
    f * PAGE_SIZE <= a < f * PAGE_SIZE + PAGE_SIZE
  }

  /** Entry `i` of a frame lies in that frame and in no other. */
  lemma SlotInItsFrame(t: nat, i: nat, f: nat)
    requires t < FRAME_SPAN && f < FRAME_SPAN && i < ENTRIES
    ensures InFrame(FromIndex(t, i), f) <==> t == f
  {
    FromIndexLayout(t, i);
  }

  class Memory {
    /** The words written so far, by physical address. */
    var words: map<nat, Usize>

    constructor ()
      ensures words == map[]
    {
      words := map[];
    }

    /** `PageTableEntry::write`: store one word. */
    method Write(pa: nat, w: Usize)
      modifies this
      ensures words == old(words)[pa := w]
    {
      words := words[pa := w];
    }

    /** Fill frame `f` with zeros. */
    method ZeroFrame(f: Usize)
      modifies this
      ensures forall a :: InFrame(a, f) ==> ReadWord(words, a) == 0
      ensures forall a :: !InFrame(a, f) ==> ReadWord(words, a) == ReadWord(old(words), a)
    {
      words := map a | a in words && !InFrame(a, f) :: words[a];
    }
  }

  /** The frames still available to the page tables, each below 2^38 so that its start address is canonical. */
  class FrameSupply {
    var free: seq<Usize>

    ghost predicate Valid()
      reads this
    {
      (forall k :: 0 <= k < |free| ==> free[k] < FRAME_SPAN) &&
      (forall j, k :: 0 <= j < k < |free| ==> free[j] != free[k])
    }

    constructor (frames: seq<Usize>)
      ensures free == frames
    {
      free := frames;
    }

    /**
     * `AllocatedFrame::new(true)` of `mm-rv`: the next free frame, zero-filled,
     * or `None` when none is left. `tmm_rv`'s `AllocatedFrames::new(1)` hands
     * out the same frame without clearing it.
     */
    method Alloc(mem: Memory) returns (f: Option<Usize>)
      requires Valid()
      modifies this, mem
      ensures Valid()
      ensures old(free) == [] ==> f == None && free == [] && mem.words == old(mem.words)
      ensures old(free) != [] ==> f == Some(old(free)[0]) && free == old(free)[1..]
      ensures f.Some? ==> f.value < FRAME_SPAN
      ensures f.Some? ==> forall a :: InFrame(a, f.value) ==> ReadWord(mem.words, a) == 0
      ensures f.Some? ==> forall a :: !InFrame(a, f.value) ==> ReadWord(mem.words, a) == ReadWord(old(mem.words), a)
    {
      if free == [] {
        return None;
      }
      f := Some(free[0]);
      free := free[1..];
      mem.ZeroFrame(f.value);
    }
  }
}
