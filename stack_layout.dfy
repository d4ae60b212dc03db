/**
 * Where the kernel places per-task memory: kernel stacks below the
 * trampoline page, trapframes right below the trampoline in each address
 * space, and user stacks below the top of the low half. Each stack is
 * followed (above it) by one unmapped guard page. The arithmetic is
 * `usize` arithmetic of a release build, so it wraps.
 */
module StackLayout {
  import opened Wrappers
  import opened Addr
  import IdAlloc

  /** `size_of::<usize>()`. */
  const ADDR_ALIGN: Usize := 8
  /** `MAX_VA - PAGE_SIZE + 1` with `MAX_VA == usize::MAX`: the highest page. */
  const TRAMPOLINE_VA: Usize := USIZE_MAX - PAGE_SIZE + 1
  const KERNEL_STACK_SIZE: Usize := 0x1_0000
  const USER_STACK_SIZE: Usize := 0x2_0000
  /** `LOW_MAX_VA + 1` with `LOW_MAX_VA == 0xFFFF_FFFF`. */
  const USER_STACK_BASE: Usize := 0x1_0000_0000

  /** The largest kernel stack id whose stack does not wrap below address 0. */
  const MAX_KSTACK_ID: nat := (TRAMPOLINE_VA - KERNEL_STACK_SIZE) / (KERNEL_STACK_SIZE + PAGE_SIZE)
  /** The largest task id whose user stack does not wrap below address 0. */
  const MAX_USTACK_ID: nat := (USER_STACK_BASE - USER_STACK_SIZE) / (USER_STACK_SIZE + PAGE_SIZE)
  /** The largest task id whose trapframe does not wrap below address 0. */
  const MAX_TRAPFRAME_ID: nat := (TRAMPOLINE_VA - PAGE_SIZE) / PAGE_SIZE

  /**
   * The shared shape of `kstack_layout` and `ustack_layout`: stack `id` has
   * its base `id * (size + PAGE_SIZE)` below `limit` and its top `size`
   * below its base; the result is `(top, base - ADDR_ALIGN)`.
   */
  function Layout(limit: Usize, size: Usize, id: Usize): (r: (Usize, Usize))
  {
    var base := Wrap(limit - Wrap(id * (size + PAGE_SIZE)));
    (Wrap(base - size), Wrap(base - ADDR_ALIGN))
  }

  /** Without wrap-around, stack `id` is `size` bytes ending `id` strides below `limit`. */
  lemma LayoutInRange(limit: Usize, size: Usize, id: Usize)
    requires ADDR_ALIGN <= size && id * (size + PAGE_SIZE) + size <= limit
    ensures Layout(limit, size, id).0 == limit - id * (size + PAGE_SIZE) - size
    ensures Layout(limit, size, id).1 + ADDR_ALIGN == limit - id * (size + PAGE_SIZE)
  {
    assert 0 <= id * (size + PAGE_SIZE) < U64;
  }

  /**
   * Two stacks without wrap-around are disjoint: the lower one's base sits at
   * least a guard page below the higher one's top, exactly one page for
   * neighbouring ids.
   */
  lemma {:induction false} LayoutsSeparated(limit: Usize, size: Usize, j: Usize, k: Usize)
    requires ADDR_ALIGN <= size && j < k && k * (size + PAGE_SIZE) + size <= limit
    ensures Layout(limit, size, k).1 + ADDR_ALIGN + PAGE_SIZE <= Layout(limit, size, j).0
    ensures k == j + 1 ==> Layout(limit, size, k).1 + ADDR_ALIGN + PAGE_SIZE == Layout(limit, size, j).0
  {
    var s := size + PAGE_SIZE;
    assert j * s <= k * s by {
      MulMonotone(j, k, s);
    }
    LayoutInRange(limit, size, k);
    LayoutInRange(limit, size, j);
    assert k * s >= (j + 1) * s by {
      MulMonotone(j + 1, k, s);
    }
    assert (j + 1) * s == j * s + s;
  }

  lemma MulMonotone(a: nat, b: nat, s: nat)
    requires a <= b
    ensures a * s <= b * s
  {
  }

  /**
   * `kstack_layout`: kernel stack `id` as `(top, base - ADDR_ALIGN)`. For
   * ids without wrap-around the stack is `KERNEL_STACK_SIZE` bytes and
   * page-aligned, lies below the trampoline, and from id 1 on leaves a guard
   * page under it.
   */
  function KstackLayout(id: Usize): (r: (Usize, Usize))
    ensures id <= MAX_KSTACK_ID ==>
      r.0 % PAGE_SIZE == 0 && r.1 + ADDR_ALIGN - r.0 == KERNEL_STACK_SIZE && r.1 + ADDR_ALIGN <= TRAMPOLINE_VA
    ensures 1 <= id <= MAX_KSTACK_ID ==> r.1 + ADDR_ALIGN + PAGE_SIZE <= TRAMPOLINE_VA
  {
    if id <= MAX_KSTACK_ID then
      LayoutInRange(TRAMPOLINE_VA, KERNEL_STACK_SIZE, id);
      PageMultiple(id, KERNEL_STACK_SIZE + PAGE_SIZE, 0x11);
      Layout(TRAMPOLINE_VA, KERNEL_STACK_SIZE, id)
    else
      Layout(TRAMPOLINE_VA, KERNEL_STACK_SIZE, id)
  }

  lemma PageMultiple(id: nat, s: nat, m: nat)
    requires s == m * PAGE_SIZE
    ensures (id * s) % PAGE_SIZE == 0
  {
    assert id * s == (id * m) * PAGE_SIZE;
  }

  /** Distinct kernel stack ids give disjoint stacks with a guard page between them. */
  lemma KstacksDisjoint(j: Usize, k: Usize)
    requires j < k <= MAX_KSTACK_ID
    ensures KstackLayout(k).1 + ADDR_ALIGN + PAGE_SIZE <= KstackLayout(j).0
  {
    LayoutsSeparated(TRAMPOLINE_VA, KERNEL_STACK_SIZE, j, k);
  }

  /** The kernel stack allocator starts at 1, so the first kernel stack is id 1 and not the one touching the trampoline. */
  method KstackAllocatorStart() returns (first: Option<Usize>)
    ensures first == Some(1)
    ensures KstackLayout(first.value).1 + ADDR_ALIGN + PAGE_SIZE <= TRAMPOLINE_VA
  {
    var allocator := new IdAlloc.RecycleAllocator(1);
    first := allocator.Alloc();
  }

  /**
   * `trapframe_base`: trapframe `tid` is the page `tid + 1` pages below the
   * trampoline. It is always page-aligned, and for ids without wrap-around
   * it is below the trampoline.
   */
  function TrapframeBase(tid: Usize): (r: Usize)
    ensures r % PAGE_SIZE == 0
    ensures tid <= MAX_TRAPFRAME_ID ==> r + (tid + 1) * PAGE_SIZE == TRAMPOLINE_VA
  {
    var r := Wrap(Wrap(TRAMPOLINE_VA - PAGE_SIZE) - Wrap(tid * PAGE_SIZE));
    WrapSub(TRAMPOLINE_VA - PAGE_SIZE, tid * PAGE_SIZE);
    WrapKeepsPageMultiple(TRAMPOLINE_VA - PAGE_SIZE - tid * PAGE_SIZE, TRAMPOLINE_VA / PAGE_SIZE - 1 - tid);
    r
  }

  /** Subtracting wrapped values wraps the difference. */
  lemma WrapSub(a: int, b: int)
    ensures Wrap(Wrap(a) - Wrap(b)) == Wrap(a - b)
  {
    var qa, qb := a / U64, b / U64;
    assert Wrap(a) - Wrap(b) == (a - b) + (qb - qa) * U64;
  }

  lemma WrapKeepsPageMultiple(x: int, q: int)
    requires x == q * PAGE_SIZE
    ensures Wrap(x) % PAGE_SIZE == 0
  {
    assert U64 == 0x10_0000_0000_0000 * PAGE_SIZE;
    var w := x % U64;
    assert x == (x / U64) * U64 + w;
    assert w == (q - (x / U64) * 0x10_0000_0000_0000) * PAGE_SIZE;
  }

  /** Different tasks have different trapframe pages. */
  lemma TrapframeBaseInjective(a: Usize, b: Usize)
    requires a <= MAX_TRAPFRAME_ID && b <= MAX_TRAPFRAME_ID && a != b
    ensures TrapframeBase(a) != TrapframeBase(b)
  {
  }

  /**
   * `ustack_layout`: user stack `tid` as `(top, base - ADDR_ALIGN)`, below
   * `USER_STACK_BASE`. For ids without wrap-around the stack is
   * `USER_STACK_SIZE` bytes, page-aligned and below `USER_STACK_BASE`.
   */
  function UstackLayout(tid: Usize): (r: (Usize, Usize))
    ensures tid <= MAX_USTACK_ID ==>
      r.0 % PAGE_SIZE == 0 && r.1 + ADDR_ALIGN - r.0 == USER_STACK_SIZE && r.1 + ADDR_ALIGN <= USER_STACK_BASE
  {
    if tid <= MAX_USTACK_ID then
      LayoutInRange(USER_STACK_BASE, USER_STACK_SIZE, tid);
      PageMultiple(tid, USER_STACK_SIZE + PAGE_SIZE, 0x21);
      Layout(USER_STACK_BASE, USER_STACK_SIZE, tid)
    else
      Layout(USER_STACK_BASE, USER_STACK_SIZE, tid)
  }

  /** Distinct task ids give disjoint user stacks with a guard page between them. */
  lemma UstacksDisjoint(j: Usize, k: Usize)
    requires j < k <= MAX_USTACK_ID
    ensures UstackLayout(k).1 + ADDR_ALIGN + PAGE_SIZE <= UstackLayout(j).0
  {
    LayoutsSeparated(USER_STACK_BASE, USER_STACK_SIZE, j, k);
  }
}
