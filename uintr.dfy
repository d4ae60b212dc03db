/**
 * User-interrupt bookkeeping of the RISC-V port: the sender status table
 * entry `UISTE` (a 64-bit word: valid bit 63, sender vector in bits
 * 16..31, receiver index under `0xffff << 48`), the sender table with
 * its entry allocator, and a task's mask of sender vectors.
 */
module UIntr {
  import opened Wrappers
  import opened Addr
  import opened IdAlloc

  /** `1u64 << 63`, the valid bit. */
  const UISTE_VALID: bv64 := 0x8000_0000_0000_0000
  /** `UISTE_VEC_MASK`, `0xffff << 16`. */
  const UISTE_VEC_MASK: bv64 := 0xffff_0000
  /** `UISTE_INDEX_MASK`, `0xffff << 48`: sixteen bits from 48, which take in the valid bit. */
  const UISTE_INDEX_MASK: bv64 := 0xffff_0000_0000_0000
  /** `size_of::<UISTE>()`. */
  const UISTE_SIZE: nat := 8

  /** Bit 63 is set. */
  predicate ValidBit(bits: bv64)
  {
    bits & UISTE_VALID != 0
  }

  function WithValid(bits: bv64, valid: bool): bv64
  {
    if valid then bits | UISTE_VALID else bits & !UISTE_VALID
  }

  function WithVec(bits: bv64, vec: bv64): bv64
  {
    (bits & !UISTE_VEC_MASK) | ((vec << 16) & UISTE_VEC_MASK)
  }

  function VecOf(bits: bv64): bv64
  {
    (bits & UISTE_VEC_MASK) >> 16
  }

  function WithIndex(bits: bv64, index: bv64): bv64
  {
    (bits & !UISTE_INDEX_MASK) | ((index << 48) & UISTE_INDEX_MASK)
  }

  function IndexOf(bits: bv64): bv64
  {
    (bits & UISTE_INDEX_MASK) >> 48
  }

  /** `is_valid` tests `bits >> 63 != 0`, which is bit 63 being set. */
  lemma ValidIsTopBit(bits: bv64)
    ensures ValidBit(bits) <==> bits >> 63 != 0
  {
  }

  /** Setting the valid bit reads back as set. */
  lemma ValidReadBack(bits: bv64, valid: bool)
    ensures ValidBit(WithValid(bits, valid)) == valid
  {
  }

  /** Setting the valid bit leaves every other bit as it was. */
  lemma ValidKeepsRest(bits: bv64, valid: bool)
    ensures WithValid(bits, valid) & !UISTE_VALID == bits & !UISTE_VALID
  {
  }

  /** The vector reads back as its low sixteen bits, so as itself below 2^16. */
  lemma VecReadBack(bits: bv64, vec: bv64)
    ensures VecOf(WithVec(bits, vec)) == vec & 0xffff
  {
  }

  /** Setting the vector leaves every bit outside its field as it was. */
  lemma VecKeepsRest(bits: bv64, vec: bv64)
    ensures WithVec(bits, vec) & !UISTE_VEC_MASK == bits & !UISTE_VEC_MASK
  {
  }

  /** Setting the vector keeps the valid bit and the index. */
  lemma VecKeepsFields(bits: bv64, vec: bv64)
    ensures ValidBit(WithVec(bits, vec)) == ValidBit(bits) && IndexOf(WithVec(bits, vec)) == IndexOf(bits)
  {
  }

  /** The index reads back as its low sixteen bits. */
  lemma IndexReadBack(bits: bv64, index: bv64)
    ensures IndexOf(WithIndex(bits, index)) == index & 0xffff
  {
  }

  /** Setting the index leaves every bit outside the mask, the vector among them, as it was. */
  lemma IndexKeepsRest(bits: bv64, index: bv64)
    ensures WithIndex(bits, index) & !UISTE_INDEX_MASK == bits & !UISTE_INDEX_MASK
    ensures VecOf(WithIndex(bits, index)) == VecOf(bits)
  {
  }

  /** The index mask takes in the valid bit: setting index 0 disables a valid entry. */
  lemma IndexClearsValid(bits: bv64)
    ensures ValidBit(bits) ==> !ValidBit(WithIndex(bits, 0))
  {
  }

  /** A valid entry's index reads back with bit 15 set. */
  lemma ValidShowsInIndex(bits: bv64)
    ensures IndexOf(WithValid(WithIndex(bits, 5), true)) == 0x8005
  {
  }

  /** The receiver index field without the valid bit: fifteen bits from 48, `0x7fff << 48`. */
  const UISTE_INDEX_FIELD: bv64 := 0x7fff_0000_0000_0000

  function WithIndexKeepingValid(bits: bv64, index: bv64): bv64
  {
    (bits & !UISTE_INDEX_FIELD) | ((index << 48) & UISTE_INDEX_FIELD)
  }

  function IndexFieldOf(bits: bv64): bv64
  {
    (bits & UISTE_INDEX_FIELD) >> 48
  }

  /** With the index field kept off bit 63, the index reads back as its low fifteen bits. */
  lemma IndexFieldReadBack(bits: bv64, index: bv64)
    ensures IndexFieldOf(WithIndexKeepingValid(bits, index)) == index & 0x7fff
  {
  }

  /** With the index field kept off bit 63, setting the index keeps the valid bit and the vector. */
  lemma IndexFieldKeepsFields(bits: bv64, index: bv64)
    ensures ValidBit(WithIndexKeepingValid(bits, index)) == ValidBit(bits)
    ensures VecOf(WithIndexKeepingValid(bits, index)) == VecOf(bits)
  {
  }

  /** Setting the valid bit or the vector keeps the index field. */
  lemma FieldsKeepIndexField(bits: bv64, vec: bv64, valid: bool)
    ensures IndexFieldOf(WithValid(bits, valid)) == IndexFieldOf(bits)
    ensures IndexFieldOf(WithVec(bits, vec)) == IndexFieldOf(bits)
  {
  }

  /** `UISTE`: one entry of the sender status table. */
  class Uiste {
    var bits: bv64

    constructor (bits: bv64)
      ensures this.bits == bits
    {
      this.bits := bits;
    }

    /** `is_valid` (see `ValidIsTopBit`). */
    predicate IsValid()
      reads this
    {
      ValidBit(bits)
    }

    /** `get_vec`. */
    function GetVec(): bv64
      reads this
    {
      VecOf(bits)
    }

    /** `get_index`. */
    function GetIndex(): bv64
      reads this
    {
      IndexOf(bits)
    }

    /** `set_valid`: the entry is enabled or disabled; no other bit changes. */
    method SetValid(valid: bool)
      modifies this
      ensures bits == WithValid(old(bits), valid)
      ensures IsValid() == valid && bits & !UISTE_VALID == old(bits) & !UISTE_VALID
    {
      if valid {
        bits := bits | UISTE_VALID;
      } else {
        bits := bits & !UISTE_VALID;
      }
      ValidReadBack(old(bits), valid);
      ValidKeepsRest(old(bits), valid);
    }

    /**
     * `set_vec`: the vector's low sixteen bits go to bits 16..31; no other
     * bit changes. The `usize` argument is taken as its 64 bits, which is
     * what `vec as u64` gives.
     */
    method SetVec(vec: bv64)
      modifies this
      ensures bits == WithVec(old(bits), vec)
    {
      bits := (bits & !UISTE_VEC_MASK) | ((vec << 16) & UISTE_VEC_MASK);
    }

    /**
     * `set_index`: the index's low sixteen bits go under the index mask,
     * bit 63 among them; the `usize` argument is taken as its 64 bits.
     */
    method SetIndex(index: bv64)
      modifies this
      ensures bits == WithIndex(old(bits), index)
    {
      bits := (bits & !UISTE_INDEX_MASK) | ((index << 48) & UISTE_INDEX_MASK);
    }
  }

  /**
   * A valid entry given receiver index 3 is no longer valid as written,
   * and stays valid with the index field kept off the valid bit.
   */
  method SetIndexDisables() returns (asWritten: bool, keepingValid: bool)
    ensures !asWritten && keepingValid
  {
    var e := new Uiste(0);
    e.SetValid(true);
    e.SetIndex(3);
    asWritten := e.IsValid();
    var kept := WithIndexKeepingValid(WithValid(0, true), 3);
    keepingValid := ValidBit(kept);
  }

  /** The sender status table: `limit` entries of `UISTE_SIZE` bytes from the first frame. */
  class UIntrSender {
    /** The number of entries the frames hold. */
    const limit: Usize
    /** The entry allocator. */
    const ids: RecycleAllocator
    /** The start addresses of the table's frames. */
    const frames: seq<Usize>

    ghost predicate Valid()
      reads this, ids
    {
      ids.Valid() && ids.current < USIZE_MAX
    }

    /**
     * `new`: `pages` zeroed frames (their addresses are `frameStarts`), as
     * many entries as they hold, and an allocator counting from 0.
     */
    constructor (pages: Usize, frameStarts: seq<Usize>)
      requires |frameStarts| == pages
      ensures frames == frameStarts && fresh(ids) && Valid()
      ensures limit == Wrap(PAGE_SIZE * pages) / UISTE_SIZE
      ensures PAGE_SIZE * pages < U64 ==> limit == pages * (PAGE_SIZE / UISTE_SIZE)
      ensures ids.current == 0 && ids.recycled == []
    {
      limit := Wrap(PAGE_SIZE * pages) / UISTE_SIZE;
      ids := new RecycleAllocator(0);
      frames := frameStarts;
    }

    /**
     * `get`, as written: the address of entry `index`, refusing only an
     * index above `limit`. The first frame must exist.
     */
    function Get(index: Usize): (r: Option<Usize>)
      reads this
      requires frames != []
      ensures r.None? <==> index > limit
      ensures r.Some? ==> r.value == Wrap(frames[0] + index * UISTE_SIZE)
    {
      if index > limit then None else Some(Wrap(frames[0] + index * UISTE_SIZE))
    }

    /** `get` refusing every index at or past `limit`: an address it gives lies inside the table. */
    function GetInTable(index: Usize): (r: Option<Usize>)
      reads this
      requires frames != []
      ensures r.None? <==> index >= limit
      ensures r.Some? && frames[0] + limit * UISTE_SIZE < U64 ==>
        frames[0] <= r.value && r.value + UISTE_SIZE <= frames[0] + limit * UISTE_SIZE
    {
      if index >= limit then None else Some(Wrap(frames[0] + index * UISTE_SIZE))
    }

    /**
     * `alloc`: the allocator's next id if it lies below `limit`. An id at
     * or past `limit` is taken from the allocator all the same.
     */
    method Alloc() returns (r: Option<Usize>)
      requires Valid()
      modifies ids
      ensures old(ids.recycled) != [] || old(ids.current) + 1 < USIZE_MAX ==> Valid()
      ensures r.Some? ==> r.value < limit
      ensures r.Some? ==> r.value !in old(ids.Outstanding()) && ids.Outstanding() == old(ids.Outstanding()) + {r.value}
      ensures old(ids.recycled) != [] ==>
        r == (if old(ids.recycled)[|old(ids.recycled)| - 1] < limit then Some(old(ids.recycled)[|old(ids.recycled)| - 1]) else None)
      ensures old(ids.recycled) == [] && old(ids.current) + 1 < USIZE_MAX ==>
        r == (if old(ids.current) < limit then Some(old(ids.current)) else None)
      // The id is taken from the allocator whether or not it is handed out.
      ensures old(ids.recycled) != [] ==>
        ids.recycled == old(ids.recycled)[..|old(ids.recycled)| - 1] && ids.current == old(ids.current) &&
        ids.Outstanding() == old(ids.Outstanding()) + {old(ids.recycled)[|old(ids.recycled)| - 1]}
      ensures old(ids.recycled) == [] && old(ids.current) + 1 < USIZE_MAX ==>
        ids.recycled == [] && ids.current == old(ids.current) + 1 &&
        ids.Outstanding() == old(ids.Outstanding()) + {old(ids.current)}
      ensures old(ids.recycled) == [] && old(ids.current) + 1 == USIZE_MAX ==>
        r.None? && ids.recycled == [] && ids.current == USIZE_MAX
    {
      var id := ids.Alloc();
      if id.Some? && id.value < limit {
        return Some(id.value);
      }
      r := None;
    }

    /** `dealloc`: an id below `limit` goes back to the allocator; any other is ignored. */
    method Dealloc(index: Usize)
      requires Valid()
      modifies ids
      ensures index < limit ==> ids.recycled == old(ids.recycled) + [index] && ids.current == old(ids.current)
      ensures index >= limit ==> ids.recycled == old(ids.recycled) && ids.current == old(ids.current)
      ensures index < limit && index in old(ids.Outstanding()) ==>
        Valid() && ids.Outstanding() == old(ids.Outstanding()) - {index}
    {
      if index < limit {
        ids.Dealloc(index);
      }
    }
  }

  /**
   * A one-frame table has 512 entries; as written, `get(512)` gives the
   * address just past the table, and the checked lookup refuses it.
   */
  method GetPastTable(base: Usize) returns (asWritten: Option<Usize>, inTable: Option<Usize>)
    requires base + PAGE_SIZE < U64
    ensures asWritten == Some(base + PAGE_SIZE) && inTable == None
  {
    var s := new UIntrSender(1, [base]);
    asWritten := s.Get(512);
    inTable := s.GetInTable(512);
  }

  /** `u64::leading_ones`: how many bits from bit 63 down are set. */
  function LeadingOnes(mask: seq<bool>): (r: nat)
    requires |mask| == 64
    ensures r <= 64 && forall j :: 64 - r <= j < 64 ==> mask[j]
    ensures r < 64 ==> !mask[63 - r]
  {
    LeadingOnesFrom(mask, 0)
  }

  function LeadingOnesFrom(mask: seq<bool>, k: nat): (r: nat)
    requires |mask| == 64 && k <= 64 && forall j :: 64 - k <= j < 64 ==> mask[j]
    ensures k <= r <= 64 && forall j :: 64 - r <= j < 64 ==> mask[j]
    ensures r < 64 ==> !mask[63 - r]
    decreases 64 - k
  {
    if k == 64 || !mask[63 - k] then k else LeadingOnesFrom(mask, k + 1)
  }

  /** `u64::trailing_ones`: how many bits from bit 0 up are set. */
  function TrailingOnes(mask: seq<bool>): (r: nat)
    requires |mask| == 64
    ensures r <= 64 && forall j :: 0 <= j < r ==> mask[j]
    ensures r < 64 ==> !mask[r]
  {
    TrailingOnesFrom(mask, 0)
  }

  function TrailingOnesFrom(mask: seq<bool>, k: nat): (r: nat)
    requires |mask| == 64 && k <= 64 && forall j :: 0 <= j < k ==> mask[j]
    ensures k <= r <= 64 && forall j :: 0 <= j < r ==> mask[j]
    ensures r < 64 ==> !mask[r]
    decreases 64 - k
  {
    if k == 64 || !mask[k] then k else TrailingOnesFrom(mask, k + 1)
  }

  /** A task's user-interrupt state; `mask` bit `i` (from bit 0) marks sender vector `i` as taken. */
  class TaskUIntrInner {
    var mask: seq<bool>
    var utvec: Usize
    var uscratch: Usize

    predicate Valid()
      reads this
    {
      |mask| == 64
    }

    /** `new`: no vector taken. */
    constructor ()
      ensures Valid() && (forall j :: 0 <= j < 64 ==> !mask[j]) && utvec == 0 && uscratch == 0
    {
      mask := seq(64, _ => false);
      utvec := 0;
      uscratch := 0;
    }

    /**
     * `alloc` as written: `i` is the count of set bits from bit 63 down,
     * and `set_bit(i, true)` sets bit `i` counted from bit 0; with every
     * bit set, `i` is 64 and `set_bit` panics (`None`).
     */
    method Alloc() returns (r: Option<nat>)
      requires Valid()
      modifies this
      ensures Valid() && utvec == old(utvec) && uscratch == old(uscratch)
      ensures r.None? <==> LeadingOnes(old(mask)) == 64
      ensures r.None? ==> mask == old(mask)
      ensures r.Some? ==> r.value == LeadingOnes(old(mask)) && mask == old(mask)[r.value := true]
    {
      var i := LeadingOnes(mask);
      if i == 64 {
        return None;
      }
      mask := mask[i := true];
      r := Some(i);
    }

    /**
     * `alloc` counting set bits from bit 0, the end `set_bit` counts from:
     * the lowest free vector, which was free and is now taken; `None`
     * when every vector is taken.
     */
    method AllocLowestFree() returns (r: Option<nat>)
      requires Valid()
      modifies this
      ensures Valid() && utvec == old(utvec) && uscratch == old(uscratch)
      ensures r.None? <==> forall j :: 0 <= j < 64 ==> old(mask)[j]
      ensures r.None? ==> mask == old(mask)
      ensures r.Some? ==> r.value < 64 && !old(mask)[r.value] && mask == old(mask)[r.value := true]
      ensures r.Some? ==> forall j :: 0 <= j < r.value ==> old(mask)[j]
    {
      var i := TrailingOnes(mask);
      if i == 64 {
        return None;
      }
      mask := mask[i := true];
      r := Some(i);
    }

    /** `dealloc`: vector `i` is free again; `set_bit` demands `i < 64`. */
    method Dealloc(i: nat)
      requires Valid() && i < 64
      modifies this
      ensures Valid() && mask == old(mask)[i := false]
      ensures utvec == old(utvec) && uscratch == old(uscratch)
    {
      mask := mask[i := false];
    }
  }

  /**
   * From a new task, two allocations as written both return vector 0;
   * counting from bit 0 they return 0 and 1, and freeing 1 lets the next
   * allocation return it again.
   */
  method AllocTwice() returns (a: Option<nat>, b: Option<nat>, c: Option<nat>, d: Option<nat>, e: Option<nat>)
    ensures a == Some(0) && b == Some(0)
    ensures c == Some(0) && d == Some(1) && e == Some(1)
  {
    var t := new TaskUIntrInner();
    assert !t.mask[63];
    a := t.Alloc();
    assert !t.mask[63];
    b := t.Alloc();
    var u := new TaskUIntrInner();
    assert !u.mask[0];
    c := u.AllocLowestFree();
    assert u.mask[0] && !u.mask[1];
    d := u.AllocLowestFree();
    u.Dealloc(1);
    assert u.mask[0] && !u.mask[1];
    e := u.AllocLowestFree();
  }

  /** Counting from bit 0, a vector once taken is not handed out again until it is freed. */
  method AllocDistinct(t: TaskUIntrInner) returns (a: Option<nat>, b: Option<nat>)
    requires t.Valid()
    modifies t
    ensures a.Some? && b.Some? ==> a.value != b.value
  {
    a := t.AllocLowestFree();
    b := t.AllocLowestFree();
  }
}
