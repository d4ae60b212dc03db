/**
 * Address, page and page-range arithmetic shared by virtual and physical
 * memory (the `implement_address!`, `implement_page_frame!` and
 * `implement_page_frame_range!` macros).
 *
 * A `usize` is a natural number below 2^64. Where the source's `+`, `-` or
 * `*` can leave that range they wrap modulo 2^64 (the kernel is built in
 * release mode, without overflow checks); `Wrap` writes that out, and the
 * saturating operations are written out too. `x & (PAGE_SIZE - 1)` is
 * `x % PAGE_SIZE`, since the page size is a power of two.
 * The macros are instantiated with an address-space specific canonicaliser,
 * passed here as the parameter `canon`.
 */
module Addr {
  import opened Wrappers

  /** 2^64: `usize` arithmetic wraps modulo this in a release build. */
  const U64: nat := 0x1_0000_0000_0000_0000

  type Usize = x: nat | x < U64

  const PAGE_SIZE: Usize := 0x1000
  const USIZE_MAX: Usize := U64 - 1
  /** `MAX_VA / PAGE_SIZE`, the largest page (and frame) number. */
  const MAX_PAGE_NUMBER: Usize := USIZE_MAX / PAGE_SIZE

  const I64_MIN: int := -0x8000_0000_0000_0000
  const I64_MAX: int := 0x7fff_ffff_ffff_ffff

  /** `i64`, and `isize` on a 64-bit target. */
  type I64 = x: int | I64_MIN <= x <= I64_MAX

  /** `x as isize`: the same 64 bits read as two's complement. */
  function AsIsize(x: Usize): (r: I64)
    ensures x <= I64_MAX ==> r == x
    ensures x > I64_MAX ==> r < 0 && r == x - U64
  {
    if x <= I64_MAX then x else x - U64
  }

  /** Release-mode `isize` arithmetic: the result wrapped into the `isize` range. */
  function WrapIsize(x: int): (r: I64)
    ensures I64_MIN <= x <= I64_MAX ==> r == x
    ensures (r - x) % U64 == 0
  {
    (x - I64_MIN) % U64 + I64_MIN
  }

  /** Release-mode `usize` arithmetic: the result modulo 2^64. */
  function Wrap(x: int): (r: Usize)
    ensures 0 <= x < U64 ==> r == x
  {
    x % U64
  }

  /** `bits.contains(flag)` for a one-bit `flag`: that bit of `f` is set. */
  predicate HasFlag(f: nat, bit: nat)
    requires bit > 0
  {
    (f / bit) % 2 == 1
  }

  function SaturatingAdd(a: Usize, b: Usize): (r: Usize)
    ensures a <= USIZE_MAX - b ==> r == a + b
    ensures a > USIZE_MAX - b ==> r == USIZE_MAX
  {
    if a <= USIZE_MAX - b then a + b else USIZE_MAX
  }

  function SaturatingSub(a: Usize, b: Usize): (r: Usize)
    ensures b <= a ==> r == a - b
    ensures a < b ==> r == 0
  {
    if b <= a then a - b else 0
  }

  // ---------------------------------------------------------------------------
  // Addresses

  /** `addr & (PAGE_SIZE - 1)`: the distance from the page boundary below `a`. */
  function PageOffset(a: Usize): (r: Usize)
    ensures r < PAGE_SIZE
    ensures a - r == (a / PAGE_SIZE) * PAGE_SIZE
  {
    a % PAGE_SIZE
  }

  predicate IsAligned(a: Usize)
  {
    PageOffset(a) == 0
  }

  lemma AlignedIffMultiple(a: Usize)
    ensures IsAligned(a) <==> a == Ceil(a) * PAGE_SIZE
  {
  }

  /** `Add<usize>` on an address: saturate, then canonicalise. */
  function AddrAdd(canon: Usize -> Usize, a: Usize, n: Usize): (r: Usize)
    ensures a <= USIZE_MAX - n ==> r == canon(a + n)
    ensures a > USIZE_MAX - n ==> r == canon(USIZE_MAX)
  {
    canon(SaturatingAdd(a, n))
  }

  /** `Sub<usize>` on an address: saturate at zero, then canonicalise. */
  function AddrSub(canon: Usize -> Usize, a: Usize, n: Usize): (r: Usize)
    ensures n <= a ==> r == canon(a - n)
    ensures a < n ==> r == canon(0)
  {
    canon(SaturatingSub(a, n))
  }

  /** The canonicaliser of the crate's own test, under which every address is canonical. */
  function Identity(a: Usize): Usize { a }

  /** The crate test: 0 + 0x1001 lies one byte into page 1. */
  lemma AddressTestExample()
    ensures PageOffset(AddrAdd(Identity, 0, 0x1001)) == 1
    ensures Ceil(AddrAdd(Identity, 0, 0x1001)) == 1
    ensures StartAddress(Identity, 1) == 0x1000
  {
  }

  // ---------------------------------------------------------------------------
  // Pages and frames (only the page number is stored)

  function StartAddress(canon: Usize -> Usize, p: Usize): Usize
  {
    canon(Wrap(p * PAGE_SIZE))
  }

  /** `ceil`: despite the name, the page CONTAINING `a` (rounds down). */
  function Ceil(a: Usize): (r: Usize)
    ensures r * PAGE_SIZE <= a && a - r * PAGE_SIZE < PAGE_SIZE
    ensures r <= MAX_PAGE_NUMBER
  {
    a / PAGE_SIZE
  }

  /**
   * `floor`: despite the name, the first page at or above `a` (rounds up).
   * `a - 1 + PAGE_SIZE` wraps, which gives 0 at `a == 0` and for the last
   * `PAGE_SIZE - 1` addresses of the address space.
   */
  function Floor(a: Usize): (r: Usize)
    ensures a <= USIZE_MAX - PAGE_SIZE + 1 ==> a <= r * PAGE_SIZE < a + PAGE_SIZE
    ensures a > USIZE_MAX - PAGE_SIZE + 1 ==> r == 0
  {
    Wrap(Wrap(a - 1) + PAGE_SIZE) / PAGE_SIZE
  }

  /** The two roundings agree exactly on page-aligned addresses. */
  lemma FloorIsCeilRoundedUp(a: Usize)
    requires a <= USIZE_MAX - PAGE_SIZE + 1
    ensures IsAligned(a) ==> Floor(a) == Ceil(a)
    ensures !IsAligned(a) ==> Floor(a) == Ceil(a) + 1
  {
  }

  /** `Add<usize>` on a page: saturate, then cap at the largest page number. */
  function PageAdd(p: Usize, n: Usize): (r: Usize)
    ensures r <= MAX_PAGE_NUMBER
    ensures p + n <= MAX_PAGE_NUMBER ==> r == p + n
    ensures p + n > MAX_PAGE_NUMBER ==> r == MAX_PAGE_NUMBER
  {
    var s := SaturatingAdd(p, n);
    if MAX_PAGE_NUMBER <= s then MAX_PAGE_NUMBER else s
  }

  /** `Sub<usize>` on a page saturates at page 0. */
  function PageSub(p: Usize, n: Usize): (r: Usize)
    ensures n <= p ==> r + n == p
    ensures p < n ==> r == 0
  {
    SaturatingSub(p, n)
  }

  // ---------------------------------------------------------------------------
  // Inclusive page ranges

  datatype PageRange = PageRange(start: Usize, end: Usize)

  /** `empty()`, the range 1..=0. */
  const EMPTY_RANGE: PageRange := PageRange(1, 0)

  /** `RangeInclusive::is_empty`. */
  predicate IsEmpty(r: PageRange)
  {
    r.end < r.start
  }

  predicate Contains(r: PageRange, p: Usize)
  {
    r.start <= p <= r.end
  }

  lemma EmptyRangeIsEmpty()
    ensures IsEmpty(EMPTY_RANGE)
    ensures forall p :: !Contains(EMPTY_RANGE, p)
    ensures SizeInPages(EMPTY_RANGE) == 0
  {
  }

  /** `from_virt_addr`/`from_phys_addr`: the pages from the one holding `a` to the one holding its last byte. */
  function FromAddr(canon: Usize -> Usize, a: Usize, size: Usize): (r: PageRange)
    requires size > 0
  {
    PageRange(Ceil(a), Ceil(AddrAdd(canon, a, size - 1)))
  }

  /**
   * With the identity canonicaliser and no saturation, `FromAddr(a, n)` holds
   * exactly the pages that share a byte with [a, a + n).
   */
  lemma FromAddrCoversBytes(a: Usize, size: Usize, p: Usize)
    requires 0 < size && a + (size - 1) < U64
    ensures Contains(FromAddr(Identity, a, size), p) <==> p * PAGE_SIZE < a + size && a < (p + 1) * PAGE_SIZE
  {
  }

  /** The crate test: 0x1002 with 0x3124 bytes spans pages 1 to 4. */
  lemma FromAddrTestExample()
    ensures FromAddr(Identity, 0x1002, 0x3124) == PageRange(1, 4)
    ensures SizeInPages(FromAddr(Identity, 0x1002, 0x3124)) == 4
  {
  }

  /** `(end + 1).saturating_sub(start)`. */
  function SizeInPages(r: PageRange): (n: Usize)
  {
    SaturatingSub(Wrap(r.end + 1), r.start)
  }

  /** The size counts the pages of the range: page `start + k` is in it iff `k < size`. */
  lemma SizeCountsPages(r: PageRange, k: nat)
    requires r.end < USIZE_MAX
    ensures r.start + k < U64 ==> (Contains(r, r.start + k) <==> k < SizeInPages(r))
    ensures IsEmpty(r) <==> SizeInPages(r) == 0
  {
  }

  function SizeInBytes(r: PageRange): Usize
  {
    Wrap(SizeInPages(r) * PAGE_SIZE)
  }

  /** Whether the page containing `a` lies in the range. */
  predicate ContainsAddress(r: PageRange, a: Usize)
  {
    Contains(r, Ceil(a))
  }

  lemma ContainsAddressBounds(r: PageRange, a: Usize)
    requires r.end < MAX_PAGE_NUMBER
    ensures ContainsAddress(r, a) <==> r.start * PAGE_SIZE <= a < (r.end + 1) * PAGE_SIZE
  {
  }

  /** `offset_of_address`: `a` minus the range's start address, when `a` is in the range. */
  function OffsetOfAddress(canon: Usize -> Usize, r: PageRange, a: Usize): (o: Option<Usize>)
    ensures o.Some? <==> ContainsAddress(r, a)
    ensures o.Some? && canon(r.start * PAGE_SIZE) == r.start * PAGE_SIZE ==>
      r.start * PAGE_SIZE + o.value == a && o.value < (Ceil(a) - r.start + 1) * PAGE_SIZE
  {
    if ContainsAddress(r, a) then Some(Wrap(a - StartAddress(canon, r.start))) else None
  }

  /**
   * `address_at_offset` as written: it accepts `offset <= size_in_bytes`, so
   * the offset one past the range yields an address the range does not contain.
   */
  function AddressAtOffsetAsWritten(canon: Usize -> Usize, r: PageRange, offset: Usize): (a: Option<Usize>)
    ensures a.Some? <==> offset <= SizeInBytes(r)
  {
    if offset <= SizeInBytes(r) then Some(AddrAdd(canon, StartAddress(canon, r.start), offset)) else None
  }

  lemma AddressAtOffsetPastEnd()
    ensures AddressAtOffsetAsWritten(Identity, PageRange(0, 0), 0x1000) == Some(0x1000)
    ensures !ContainsAddress(PageRange(0, 0), 0x1000)
  {
  }

  /** `address_at_offset` with the bound its documentation states: offsets strictly inside the range. */
  function AddressAtOffset(canon: Usize -> Usize, r: PageRange, offset: Usize): (a: Option<Usize>)
    ensures a.Some? <==> offset < SizeInBytes(r)
  {
    if offset < SizeInBytes(r) then Some(AddrAdd(canon, StartAddress(canon, r.start), offset)) else None
  }

  /** Under the identity canonicaliser every offset accepted lands inside the range, at that offset. */
  lemma AddressAtOffsetInRange(r: PageRange, offset: Usize)
    requires r.start <= r.end < MAX_PAGE_NUMBER
    requires AddressAtOffset(Identity, r, offset).Some?
    ensures ContainsAddress(r, AddressAtOffset(Identity, r, offset).value)
    ensures OffsetOfAddress(Identity, r, AddressAtOffset(Identity, r, offset).value) == Some(offset)
  {
  }

  /** `to_extended`: the smallest range holding `r` and page `p` (just `p` if `r` is empty). */
  function ToExtended(r: PageRange, p: Usize): (e: PageRange)
    ensures Contains(e, p)
    ensures forall q :: Contains(r, q) ==> Contains(e, q)
    ensures IsEmpty(r) ==> e == PageRange(p, p)
    ensures !IsEmpty(r) ==> (e.start == r.start || e.start == p) && (e.end == r.end || e.end == p)
  {
    if IsEmpty(r) then PageRange(p, p)
    else PageRange(if p < r.start then p else r.start, if r.end < p then p else r.end)
  }

  /** `overlap`: the pages in both ranges, or `None` when there are none. */
  function Overlap(a: PageRange, b: PageRange): (o: Option<PageRange>)
    ensures o.Some? <==> exists p :: Contains(a, p) && Contains(b, p)
    ensures o.Some? ==> forall p :: Contains(o.value, p) <==> Contains(a, p) && Contains(b, p)
  {
    var starts := if a.start < b.start then b.start else a.start;
    var ends := if a.end < b.end then a.end else b.end;
    if starts <= ends then
      assert Contains(a, starts) && Contains(b, starts);
      Some(PageRange(starts, ends))
    else None
  }

  lemma OverlapCommutes(a: PageRange, b: PageRange)
    ensures Overlap(a, b) == Overlap(b, a)
  {
  }
}
