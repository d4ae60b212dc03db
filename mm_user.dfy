/**
 * Reaching user memory through an address space, stated on values:
 * `alloc_frame` (the frame backing the page of an address, found through
 * `get_vma`), `get_buf_mut` (a user buffer cut into pieces that stay within
 * one page), `get_str` (a NUL-terminated string read byte by byte) and
 * `do_handle_page_fault`. The class `Mm.MM` performs the same loops on its
 * fields.
 *
 * `VMArea::alloc_frame` is not part of this model: what it gives for a page
 * is a parameter, `frameOf` (the frame backing each page, or the error), or
 * the outcome handed to the page-fault handler. The bytes of a frame are
 * read through the parameter `byteAt`.
 */
module MmUser {
  import opened Wrappers
  import opened Bytes
  import opened Addr
  import opened Errors
  import opened Pte
  import opened VmFlags
  import opened Vma
  import opened MmSpec
  import opened MmSpace
  import opened MmUnmap
  import opened MmBrk

  /** What reading user memory gives: the value, an error, or no end at all (the source keeps looping). */
  datatype Fetch<T> = Fetched(value: T) | Refused(error: KernelError) | Hangs

  /** `x` put in front of a fetched sequence; errors and hangs pass through. */
  function Prefixed<T>(x: T, f: Fetch<seq<T>>): (r: Fetch<seq<T>>)
    ensures f.Fetched? <==> r.Fetched?
    ensures f.Fetched? ==> r.value == [x] + f.value
    ensures !f.Fetched? ==> r == f
  {
    if f.Fetched? then Fetched([x] + f.value) else f
  }

  /**
   * `alloc_frame(va)`: `PageUnmapped` when no area holds `va`; otherwise
   * the area's frame for the page of `va`, with that area cached.
   */
  function AllocFrame(s: Space, va: Usize, frameOf: Usize -> Result<nat, KernelError>): (r: (Space, Result<nat, KernelError>))
    requires Sound(s)
    ensures r.0 == Looked(s, va)
    ensures r.1.Ok? ==> Find(s.list, s.index, s.cache, va).Some? && r.1 == frameOf(Ceil(va))
    ensures Find(s.list, s.index, s.cache, va).None? ==> r.1 == Err(PageUnmapped)
  {
    if Find(s.list, s.index, s.cache, va).None? then (s, Err(PageUnmapped))
    else (Looked(s, va), frameOf(Ceil(va)))
  }

  // ---------------------------------------------------------------------------
  // `get_buf_mut`

  /** A piece of a user buffer: `len` bytes of frame `frame` from byte `offset`. */
  datatype BufPiece = BufPiece(frame: nat, offset: Usize, len: Usize)

  /**
   * The length of the piece at `va` as `get_buf_mut` computes it: up to
   * `end` or up to the start of the next page, whichever is nearer, where
   * the next page's number is capped at the largest page.
   */
  function PageLen(va: Usize, end: Usize): (n: Usize)
    requires va < end
  {
    var next := StartAddress(Identity, PageAdd(Ceil(va), 1));
    Min(end - va, Wrap(next - va))
  }

  /**
   * The length of the piece at `va` in plain terms: the rest of the page
   * of `va`, cut at `end`, and nothing at the start of the last page.
   */
  function Step(va: Usize, end: Usize): (n: Usize)
    requires va < end
    ensures n <= end - va
  {
    if va == MAX_PAGE_NUMBER * PAGE_SIZE then 0 else Min(end - va, PAGE_SIZE - PageOffset(va))
  }

  /** The capped next page makes `get_buf_mut`'s length exactly `Step`. */
  lemma PageLenIsStep(va: Usize, end: Usize)
    requires va < end
    ensures PageLen(va, end) == Step(va, end)
  {
    var p := Ceil(va);
    if p < MAX_PAGE_NUMBER {
      assert PageAdd(p, 1) == p + 1;
      assert (p + 1) * PAGE_SIZE < U64;
      assert StartAddress(Identity, PageAdd(p, 1)) == (p + 1) * PAGE_SIZE;
      assert (p + 1) * PAGE_SIZE - va == PAGE_SIZE - PageOffset(va);
    } else {
      assert PageAdd(p, 1) == MAX_PAGE_NUMBER;
      assert StartAddress(Identity, PageAdd(p, 1)) == MAX_PAGE_NUMBER * PAGE_SIZE;
      if va != MAX_PAGE_NUMBER * PAGE_SIZE {
        assert Wrap(MAX_PAGE_NUMBER * PAGE_SIZE - va) == U64 - (va - MAX_PAGE_NUMBER * PAGE_SIZE);
        assert PAGE_SIZE - PageOffset(va) == U64 - va;
      }
    }
  }

  /**
   * A piece never crosses a page: it ends at `end` or at the end of the
   * page of `va`, and it is empty exactly at the start of the last page.
   */
  lemma StepBounds(va: Usize, end: Usize)
    requires va < end
    ensures PageOffset(va) + Step(va, end) <= PAGE_SIZE
    ensures Step(va, end) == 0 <==> va == MAX_PAGE_NUMBER * PAGE_SIZE
    ensures Step(va, end) == 0 || Step(va, end) == end - va || PageOffset(va) + Step(va, end) == PAGE_SIZE
  {
  }

  /** The bytes the pieces hold, together. */
  function Total(ps: seq<BufPiece>): nat
  {
    if ps == [] then 0 else ps[0].len + Total(ps[1..])
  }

  /**
   * The pieces tile `[va, end)` in order: the first piece holds at least
   * one byte from `va` on, within the frame backing the page of `va` and
   * not past the end of that page, and the rest tile what is left.
   */
  predicate Tiles(ps: seq<BufPiece>, va: nat, end: nat, frameOf: Usize -> Result<nat, KernelError>)
    decreases |ps|
  {
    if ps == [] then va == end
    else
      va < end < U64 && 0 < ps[0].len && ps[0].offset == PageOffset(va) && ps[0].offset + ps[0].len <= PAGE_SIZE &&
      frameOf(Ceil(va)) == Ok(ps[0].frame) && Tiles(ps[1..], va + ps[0].len, end, frameOf)
  }

  /** The lengths of a tiling add up to the bytes tiled. */
  lemma {:induction false} TilesAddUp(ps: seq<BufPiece>, va: nat, end: nat, frameOf: Usize -> Result<nat, KernelError>)
    requires Tiles(ps, va, end, frameOf)
    ensures va + Total(ps) == end
    decreases |ps|
  {
    if ps != [] {
      TilesAddUp(ps[1..], va + ps[0].len, end, frameOf);
    }
  }

  /** A fetched outcome, if any, tiles `[va, end)`. */
  predicate TiledOutcome(f: Fetch<seq<BufPiece>>, va: Usize, end: Usize, frameOf: Usize -> Result<nat, KernelError>)
  {
    f.Fetched? ==> Tiles(f.value, va, end, frameOf)
  }

  /** A first piece from `va`, within the frame and page of `va`, in front of a tiling of the rest tiles the whole. */
  lemma TilesStep(p: BufPiece, f: Fetch<seq<BufPiece>>, va: Usize, next: Usize, end: Usize, frameOf: Usize -> Result<nat, KernelError>)
    requires va < end && 0 < p.len && p.offset == PageOffset(va) && p.offset + p.len <= PAGE_SIZE && next == va + p.len
    requires frameOf(Ceil(va)) == Ok(p.frame) && TiledOutcome(f, next, end, frameOf)
    ensures TiledOutcome(Prefixed(p, f), va, end, frameOf)
  {
    if f.Fetched? {
      assert ([p] + f.value)[1..] == f.value;
    }
  }

  /**
   * The loop of `get_buf_mut` from `va` to `end`: allocate the frame of the
   * page of `va` (its error ends the loop), take the piece of that frame up
   * to `end` or the page's end, and go on after it. A piece of length 0 is
   * taken again and again, without end.
   */
  function BufFrom(s: Space, va: Usize, end: Usize, frameOf: Usize -> Result<nat, KernelError>): (r: (Space, Fetch<seq<BufPiece>>))
    requires Sound(s)
    ensures Sound(r.0)
    ensures va <= end ==> TiledOutcome(r.1, va, end, frameOf)
    decreases end - va
  {
    if va >= end then (s, Fetched([]))
    else
      var n := Step(va, end);
      var a := AllocFrame(s, va, frameOf);
      if a.1.Err? then (a.0, Refused(a.1.error))
      else if n == 0 then (a.0, Hangs)
      else
        var p := BufPiece(a.1.value, PageOffset(va), n);
        var rest := BufFrom(a.0, va + n, end, frameOf);
        StepBounds(va, end);
        TilesStep(p, rest.1, va, va + n, end, frameOf);
        (rest.0, Prefixed(p, rest.1))
  }

  /** `get_buf_mut(va, len)`: the pieces of `[va, va + len)`, the end saturating at the top of the address space. */
  function GetBuf(s: Space, va: Usize, len: Usize, frameOf: Usize -> Result<nat, KernelError>): (r: (Space, Fetch<seq<BufPiece>>))
    requires Sound(s)
  {
    BufFrom(s, va, AddrAdd(Identity, va, len), frameOf)
  }

  /**
   * What `get_buf_mut` promises: its pieces tile the buffer in order, each
   * within one page, and their lengths add up to `len` unless the buffer's
   * end saturates at the top of the address space.
   */
  lemma GetBufTilesBuffer(s: Space, va: Usize, len: Usize, frameOf: Usize -> Result<nat, KernelError>)
    requires Sound(s)
    ensures var r := GetBuf(s, va, len, frameOf).1;
      r.Fetched? ==> (Tiles(r.value, va, AddrAdd(Identity, va, len), frameOf) &&
                      (va + len <= USIZE_MAX ==> Total(r.value) == len))
  {
    var r := GetBuf(s, va, len, frameOf).1;
    if r.Fetched? {
      TilesAddUp(r.value, va, AddrAdd(Identity, va, len), frameOf);
    }
  }

  /** `get_buf_mut` only fails to return when the buffer starts a piece at the start of the last page. */
  lemma {:induction false} BufHangsOnlyAtLastPage(s: Space, va: Usize, end: Usize, frameOf: Usize -> Result<nat, KernelError>)
    requires Sound(s)
    ensures BufFrom(s, va, end, frameOf).1.Hangs? ==> va <= MAX_PAGE_NUMBER * PAGE_SIZE < end
    decreases end - va
  {
    if va < end {
      StepBounds(va, end);
    }
    if va < end && Step(va, end) > 0 {
      BufHangsOnlyAtLastPage(AllocFrame(s, va, frameOf).0, va + Step(va, end), end, frameOf);
    }
  }

  // ---------------------------------------------------------------------------
  // `get_str`

  /**
   * The loop of `get_str` at `va`: a new frame is allocated at the first
   * byte and at every page start (its error ends the loop); a 0 byte ends
   * the string. Past the last address `va` stays put, so a nonzero byte
   * there is read again and again, without end.
   */
  function StrFrom(s: Space, va: Usize, alloc: bool, frame: nat, frameOf: Usize -> Result<nat, KernelError>,
                   byteAt: (nat, Usize) -> Byte): (r: (Space, Fetch<seq<Byte>>))
    requires Sound(s)
    ensures Sound(r.0)
    decreases U64 - va
  {
    var a := if alloc || PageOffset(va) == 0 then AllocFrame(s, va, frameOf) else (s, Ok(frame));
    if a.1.Err? then (a.0, Refused(a.1.error))
    else
      var ch := byteAt(a.1.value, PageOffset(va));
      if ch == 0 then (a.0, Fetched([]))
      else if va == USIZE_MAX then (a.0, Hangs)
      else
        var rest := StrFrom(a.0, va + 1, false, a.1.value, frameOf, byteAt);
        (rest.0, Prefixed(ch, rest.1))
  }

  /** `get_str(va)`: the loop started with a frame to allocate. */
  function GetStr(s: Space, va: Usize, frameOf: Usize -> Result<nat, KernelError>, byteAt: (nat, Usize) -> Byte): (r: (Space, Fetch<seq<Byte>>))
    requires Sound(s)
  {
    StrFrom(s, va, true, 0, frameOf, byteAt)
  }

  /** The byte at address `va`, read through the frame backing its page. */
  function ByteAt(va: nat, frameOf: Usize -> Result<nat, KernelError>, byteAt: (nat, Usize) -> Byte): Option<Byte>
  {
    if va < U64 && frameOf(va / PAGE_SIZE).Ok? then Some(byteAt(frameOf(va / PAGE_SIZE).value, va % PAGE_SIZE)) else None
  }

  /** `str` is the bytes from `va` on, each nonzero, and the byte after them is 0. */
  predicate ReadsUpToNul(str: seq<Byte>, va: nat, frameOf: Usize -> Result<nat, KernelError>, byteAt: (nat, Usize) -> Byte)
  {
    (forall k :: 0 <= k < |str| ==> str[k] != 0 && ByteAt(va + k, frameOf, byteAt) == Some(str[k])) &&
    ByteAt(va + |str|, frameOf, byteAt) == Some(0)
  }

  /** A nonzero first byte in front of the bytes read from the next address gives the bytes read from `va`. */
  lemma ReadsCons(ch: Byte, rest: seq<Byte>, va: nat, frameOf: Usize -> Result<nat, KernelError>, byteAt: (nat, Usize) -> Byte)
    requires ch != 0 && ByteAt(va, frameOf, byteAt) == Some(ch) && ReadsUpToNul(rest, va + 1, frameOf, byteAt)
    ensures ReadsUpToNul([ch] + rest, va, frameOf, byteAt)
  {
    var str := [ch] + rest;
    forall k | 0 <= k < |str| ensures str[k] != 0 && ByteAt(va + k, frameOf, byteAt) == Some(str[k]) {
      if k > 0 {
        assert str[k] == rest[k - 1];
        assert va + k == (va + 1) + (k - 1);
      }
    }
    assert va + |str| == (va + 1) + |rest|;
  }

  /**
   * What `get_str` promises: the string is the bytes at `va`, `va + 1`, ...
   * up to the first 0, each read through the frame backing its page, even
   * though a frame is fetched only at page starts.
   */
  lemma {:induction false} StrReadsUpToNul(s: Space, va: Usize, alloc: bool, frame: nat, frameOf: Usize -> Result<nat, KernelError>,
                                             byteAt: (nat, Usize) -> Byte)
    requires Sound(s) && (alloc || PageOffset(va) == 0 || frameOf(Ceil(va)) == Ok(frame))
    ensures StrFrom(s, va, alloc, frame, frameOf, byteAt).1.Fetched? ==>
      ReadsUpToNul(StrFrom(s, va, alloc, frame, frameOf, byteAt).1.value, va, frameOf, byteAt)
    decreases U64 - va
  {
    var a := if alloc || PageOffset(va) == 0 then AllocFrame(s, va, frameOf) else (s, Ok(frame));
    if a.1.Ok? {
      var ch := byteAt(a.1.value, PageOffset(va));
      assert ByteAt(va, frameOf, byteAt) == Some(ch);
      if ch != 0 && va < USIZE_MAX {
        StrReadsUpToNul(a.0, va + 1, false, a.1.value, frameOf, byteAt);
        var rest := StrFrom(a.0, va + 1, false, a.1.value, frameOf, byteAt).1;
        if rest.Fetched? {
          ReadsCons(ch, rest.value, va, frameOf, byteAt);
        }
      }
    }
  }

  // ---------------------------------------------------------------------------
  // `do_handle_page_fault`

  /** `contains` on entry flags: every bit set in `want` is set in `have`. */
  predicate Includes(have: Flags, want: Flags)
  {
    (HasFlag(want, VALID) ==> HasFlag(have, VALID)) &&
    (HasFlag(want, READABLE) ==> HasFlag(have, READABLE)) &&
    (HasFlag(want, WRITABLE) ==> HasFlag(have, WRITABLE)) &&
    (HasFlag(want, EXECUTABLE) ==> HasFlag(have, EXECUTABLE)) &&
    (HasFlag(want, USER_ACCESSIBLE) ==> HasFlag(have, USER_ACCESSIBLE)) &&
    (HasFlag(want, GLOBAL) ==> HasFlag(have, GLOBAL)) &&
    (HasFlag(want, ACCESSED) ==> HasFlag(have, ACCESSED)) &&
    (HasFlag(want, DIRTY) ==> HasFlag(have, DIRTY))
  }

  /**
   * `do_handle_page_fault(va, flags)`: `PageUnmapped` when no area holds
   * `va`; the allocation's error passed on; otherwise served only when the
   * allocation made a new frame and the area's flags include those asked
   * for, and `FatalPageFault` when not.
   */
  function PageFault(s: Space, va: Usize, want: Usize, alloc: Result<(nat, bool), KernelError>): (r: (Space, Result<(), KernelError>))
    requires Sound(s)
    ensures r.0 == Looked(s, va)
    ensures r.1.Err? ==> r.1.error == PageUnmapped || r.1.error == FatalPageFault || alloc == Err(r.1.error)
  {
    var f := Find(s.list, s.index, s.cache, va);
    if f.None? then (s, Err(PageUnmapped))
    else if alloc.Err? then (Looked(s, va), Err(alloc.error))
    else if !alloc.value.1 || !Includes(s.list[f.value].value.flags, ToPteFlags(want)) then (Looked(s, va), Err(FatalPageFault))
    else (Looked(s, va), Ok(()))
  }

  /**
   * With areas apart, a fault at an address some area holds is served
   * exactly when a new frame was made and that area's flags include those
   * asked for; at an address no area holds it is `PageUnmapped`.
   */
  lemma PageFaultServed(s: Space, va: Usize, want: Usize, alloc: Result<(nat, bool), KernelError>, i: nat)
    requires Orderly(s) && i < |s.list| && s.list[i].Some? && InArea(s.list[i].value, va)
    ensures PageFault(s, va, want, alloc).1.Ok? <==>
      alloc.Ok? && alloc.value.1 && Includes(s.list[i].value.flags, ToPteFlags(want))
    ensures PageFault(s, va, want, alloc).1 != Err(PageUnmapped) || alloc == Err(PageUnmapped)
  {
    FindComplete(s.list, s.index, s.cache, va, i);
  }

  /** A fault at an address no area holds is `PageUnmapped`, whatever the allocation. */
  lemma PageFaultOutsideAreas(s: Space, va: Usize, want: Usize, alloc: Result<(nat, bool), KernelError>)
    requires Sound(s)
    requires forall j :: 0 <= j < |s.list| && s.list[j].Some? ==> !InArea(s.list[j].value, va)
    ensures PageFault(s, va, want, alloc) == (s, Err(PageUnmapped))
  {
  }

  /** The heap's flags serve user reads and writes, and make an instruction fetch fatal. */
  lemma HeapFaults()
    ensures Includes(HEAP_FLAGS, ToPteFlags(VM_USER + VM_READ))
    ensures Includes(HEAP_FLAGS, ToPteFlags(VM_USER + VM_WRITE))
    ensures !Includes(HEAP_FLAGS, ToPteFlags(VM_EXEC))
  {
  }
}
