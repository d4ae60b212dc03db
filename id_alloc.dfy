/**
 * `RecycleAllocator`: identifiers are issued from a counter, and
 * deallocated ones are reissued first, most recently returned first.
 * `alloc` asserts that the incremented counter is not `usize::MAX`; that
 * panic is the `None` result.
 */
module IdAlloc {
  import opened Wrappers
  import opened Addr

  class RecycleAllocator {
    var current: Usize
    var recycled: seq<Usize>

    /** The recycled ids are distinct ids already issued. */
    ghost predicate Valid()
      reads this
    {
      (forall i :: 0 <= i < |recycled| ==> recycled[i] < current) &&
      (forall i, j :: 0 <= i < j < |recycled| ==> recycled[i] != recycled[j])
    }

    /** The ids handed out and not yet returned. */
    ghost function Outstanding(): set<nat>
      reads this
    {
      set i: nat | i < current && i !in recycled
    }

    constructor (current: Usize)
      ensures this.current == current && recycled == []
      ensures Valid() && forall i: nat :: i in Outstanding() <==> i < current
    {
      this.current := current;
      recycled := [];
    }

    /**
     * `alloc`: pop the last recycled id, or issue `current` and count up.
     * An id it returns is not outstanding before and is afterwards.
     */
    method Alloc() returns (id: Option<Usize>)
      modifies this
      ensures old(recycled) != [] ==>
        id == Some(old(recycled)[|old(recycled)| - 1]) &&
        recycled == old(recycled)[..|old(recycled)| - 1] && current == old(current)
      ensures old(recycled) == [] && Wrap(old(current) + 1) != USIZE_MAX ==>
        id == Some(Wrap(Wrap(old(current) + 1) - 1)) && current == Wrap(old(current) + 1) && recycled == []
      ensures old(recycled) == [] && Wrap(old(current) + 1) == USIZE_MAX ==>
        id.None? && current == USIZE_MAX && recycled == []
      ensures old(Valid()) && old(current) < USIZE_MAX ==> Valid()
      ensures old(Valid()) && old(current) < USIZE_MAX && id.Some? ==>
        id.value !in old(Outstanding()) && Outstanding() == old(Outstanding()) + {id.value}
    {
      if |recycled| > 0 {
        id := Some(recycled[|recycled| - 1]);
        recycled := recycled[..|recycled| - 1];
        return;
      }
      current := Wrap(current + 1);
      if current == USIZE_MAX {
        return None;
      }
      id := Some(Wrap(current - 1));
    }

    /**
     * `dealloc`: push `id` for reuse. Returning an outstanding id keeps the
     * recycled ids distinct, so no id is ever outstanding twice.
     */
    method Dealloc(id: Usize)
      modifies this
      ensures recycled == old(recycled) + [id] && current == old(current)
      ensures old(Valid()) && id in old(Outstanding()) ==> Valid() && Outstanding() == old(Outstanding()) - {id}
    {
      recycled := recycled + [id];
    }
  }

  /** The crate test: ids 0, 1, 2 from a fresh allocator, then 1 again after it is returned. */
  method IdAllocScenario() returns (a: Option<Usize>, b: Option<Usize>, c: Option<Usize>, d: Option<Usize>)
    ensures a == Some(0) && b == Some(1) && c == Some(2) && d == Some(1)
  {
    var r := new RecycleAllocator(0);
    a := r.Alloc();
    b := r.Alloc();
    c := r.Alloc();
    r.Dealloc(1);
    d := r.Alloc();
  }
}
