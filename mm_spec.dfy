/**
 * The bookkeeping of an address space (`MM`), stated on values: the list of
 * area slots (`vma_list`, `None` where an area was removed), the recycled
 * slot indexes (`vma_recycled`), the ordered index from start address to
 * slot (`vma_map`, a `BTreeMap`) and the cache of the last area found
 * (`vma_cache`). The class `Mm.MM` holds these as fields; here are the
 * invariants it keeps, the lookups it performs and what they find.
 */
module MmSpec {
  import opened Wrappers
  import opened Addr
  import opened Errors
  import opened Vma

  const MAX_MAP_COUNT: nat := 256
  const USER_HEAP_SIZE: Usize := 0x40_0000

  type Slots = seq<Option<VMArea>>
  type Index = map<Usize, nat>

  // ---------------------------------------------------------------------------
  // Invariants

  /** Every index entry names an occupied slot whose area starts at the entry's key. */
  predicate Indexed(slots: Slots, idx: Index)
  {
    forall k :: k in idx ==> idx[k] < |slots| && slots[idx[k]].Some? && slots[idx[k]].value.startVa == k
  }

  /** The recycled indexes are distinct empty slots. */
  predicate Recyclable(slots: Slots, rec: seq<nat>)
  {
    (forall i :: 0 <= i < |rec| ==> rec[i] < |slots| && slots[rec[i]].None?) &&
    (forall i, j :: 0 <= i < j < |rec| ==> rec[i] != rec[j])
  }

  /** The cache, when set, names a slot of the list. */
  predicate CacheInList(slots: Slots, cache: Option<nat>)
  {
    cache.Some? ==> cache.value < |slots|
  }

  /** Every occupied slot is reached from the index under its start address. */
  predicate Tidy(slots: Slots, idx: Index)
  {
    forall i :: 0 <= i < |slots| && slots[i].Some? ==> slots[i].value.startVa in idx && idx[slots[i].value.startVa] == i
  }

  /** Two areas share no address. */
  predicate Apart(a: VMArea, b: VMArea)
  {
    a.endVa <= b.startVa || b.endVa <= a.startVa
  }

  /** Every area is non-empty and no two areas overlap. */
  predicate Disjoint(slots: Slots)
  {
    (forall i :: 0 <= i < |slots| && slots[i].Some? ==> slots[i].value.startVa < slots[i].value.endVa) &&
    (forall i, j :: 0 <= i < |slots| && 0 <= j < |slots| && i != j && slots[i].Some? && slots[j].Some? ==>
      Apart(slots[i].value, slots[j].value))
  }

  /** `VMArea::contains`: the address lies in `[start_va, end_va)`. */
  predicate InArea(a: VMArea, va: Usize)
  {
    a.startVa <= va < a.endVa
  }

  /** The area shares an address with `[start, end)`. */
  predicate Meets(a: VMArea, start: Usize, end: Usize)
  {
    a.startVa < end && start < a.endVa
  }

  // ---------------------------------------------------------------------------
  // Ordered keys

  /** `m` is the smallest of `keys`. */
  predicate IsLeast(m: Usize, keys: set<Usize>)
  {
    m in keys && forall k :: k in keys ==> m <= k
  }

  /** `m` is the greatest of `keys`. */
  predicate IsGreatest(m: Usize, keys: set<Usize>)
  {
    m in keys && forall k :: k in keys ==> k <= m
  }

  lemma {:induction false} LeastExists(keys: set<Usize>)
    requires keys != {}
    ensures exists m :: IsLeast(m, keys)
    decreases |keys|
  {
    var x :| x in keys;
    if keys == {x} {
      assert IsLeast(x, keys);
    } else {
      var rest := keys - {x};
      LeastExists(rest);
      var m :| IsLeast(m, rest);
      var least := if x < m then x else m;
      forall k | k in keys
        ensures least <= k
      {
        if k != x {
          assert k in rest;
        }
      }
      assert IsLeast(least, keys);
    }
  }

  lemma {:induction false} GreatestExists(keys: set<Usize>)
    requires keys != {}
    ensures exists m :: IsGreatest(m, keys)
    decreases |keys|
  {
    var x :| x in keys;
    if keys == {x} {
      assert IsGreatest(x, keys);
    } else {
      var rest := keys - {x};
      GreatestExists(rest);
      var m :| IsGreatest(m, rest);
      var greatest := if m < x then x else m;
      forall k | k in keys
        ensures k <= greatest
      {
        if k != x {
          assert k in rest;
        }
      }
      assert IsGreatest(greatest, keys);
    }
  }

  /** The smallest key, the first a `BTreeMap` iteration visits. */
  function MinKey(keys: set<Usize>): (m: Usize)
    requires keys != {}
    ensures m in keys && forall k :: k in keys ==> m <= k
  {
    LeastExists(keys);
    var m :| IsLeast(m, keys);
    m
  }

  /** `range(..=va).last()`: the greatest key at or below `va`. */
  function FloorKey(keys: set<Usize>, va: Usize): (r: Option<Usize>)
    ensures r.Some? ==> r.value in keys && r.value <= va && forall k :: k in keys && k <= va ==> k <= r.value
    ensures r.None? ==> forall k :: k in keys ==> va < k
  {
    var below := set k | k in keys && k <= va;
    if below == {} then
      assert forall k :: k in keys ==> k > va || k in below;
      None
    else
      GreatestExists(below);
      var m :| IsGreatest(m, below);
      assert forall k :: k in keys && k <= va ==> k in below;
      Some(m)
  }

  /** The keys in `[lo, hi)`. */
  function KeysIn(idx: Index, lo: Usize, hi: nat): (ks: set<Usize>)
    ensures forall k :: k in ks <==> k in idx && lo <= k < hi
  {
    set k | k in idx && lo <= k < hi
  }

  /** The keys of a set in increasing order, the order a `BTreeMap` range visits them. */
  function Ascending(keys: set<Usize>): (s: seq<Usize>)
    decreases |keys|
  {
    if keys == {} then [] else
      var m := MinKey(keys);
      [m] + Ascending(keys - {m})
  }

  /** `Ascending` lists exactly the keys, each once, in strictly increasing order. */
  lemma {:induction false} AscendingLists(keys: set<Usize>)
    ensures |Ascending(keys)| == |keys|
    ensures forall k :: k in Ascending(keys) <==> k in keys
    ensures forall i, j :: 0 <= i < j < |Ascending(keys)| ==> Ascending(keys)[i] < Ascending(keys)[j]
    decreases |keys|
  {
    if keys != {} {
      var m := MinKey(keys);
      var rest := Ascending(keys - {m});
      AscendingLists(keys - {m});
      assert Ascending(keys) == [m] + rest;
      forall i, j | 0 <= i < j < |Ascending(keys)|
        ensures Ascending(keys)[i] < Ascending(keys)[j]
      {
        if i > 0 {
          assert Ascending(keys)[i] == rest[i - 1] && Ascending(keys)[j] == rest[j - 1];
        } else {
          assert Ascending(keys)[j] == rest[j - 1] && rest[j - 1] in keys - {m};
        }
      }
    }
  }

  /** The slot indexes an index lists for the keys `ks`, in the order of `ks`. */
  function SlotsOf(idx: Index, ks: seq<Usize>): (r: seq<nat>)
    requires forall k :: k in ks ==> k in idx
    ensures |r| == |ks| && forall i :: 0 <= i < |ks| ==> r[i] == idx[ks[i]]
  {
    if ks == [] then [] else [idx[ks[0]]] + SlotsOf(idx, ks[1..])
  }

  // ---------------------------------------------------------------------------
  // Lookup (`get_vma`)

  /**
   * `get_vma`: the cached area if it holds `va`; otherwise the area under
   * the greatest start address at or below `va`, if that one holds `va`.
   */
  function Find(slots: Slots, idx: Index, cache: Option<nat>, va: Usize): (r: Option<nat>)
    requires Indexed(slots, idx) && CacheInList(slots, cache)
    ensures r.Some? ==> r.value < |slots| && slots[r.value].Some? && InArea(slots[r.value].value, va)
  {
    if cache.Some? && slots[cache.value].Some? && InArea(slots[cache.value].value, va) then cache
    else
      match FloorKey(idx.Keys, va)
      case None => None
      case Some(k) => if InArea(slots[idx[k]].value, va) then Some(idx[k]) else None
  }

  /** Whether the lookup found its area through the cache (then the cache is left as it is). */
  predicate FoundInCache(slots: Slots, cache: Option<nat>, va: Usize)
    requires CacheInList(slots, cache)
  {
    cache.Some? && slots[cache.value].Some? && InArea(slots[cache.value].value, va)
  }

  /**
   * When every area is indexed and no two overlap, the lookup finds the
   * area holding `va` whenever there is one.
   */
  lemma FindComplete(slots: Slots, idx: Index, cache: Option<nat>, va: Usize, i: nat)
    requires Indexed(slots, idx) && CacheInList(slots, cache) && Tidy(slots, idx) && Disjoint(slots)
    requires i < |slots| && slots[i].Some? && InArea(slots[i].value, va)
    ensures Find(slots, idx, cache, va) == Some(i)
  {
    var a := slots[i].value;
    if cache.Some? && slots[cache.value].Some? && InArea(slots[cache.value].value, va) {
      assert Apart(a, slots[cache.value].value) || cache.value == i;
    } else {
      assert a.startVa in idx.Keys;
      var k := FloorKey(idx.Keys, va).value;
      var j := idx[k];
      assert Apart(a, slots[j].value) || j == i;
    }
  }

  // ---------------------------------------------------------------------------
  // Areas meeting a range (`get_vma_range`)

  /**
   * `get_vma_range` as written: the area holding `start`, then the area of
   * every key in `[start, end)` in increasing order.
   */
  function RangeAsWritten(slots: Slots, idx: Index, cache: Option<nat>, start: Usize, end: Usize): (r: seq<nat>)
    requires Indexed(slots, idx) && CacheInList(slots, cache)
  {
    var f := Find(slots, idx, cache, start);
    AscendingLists(KeysIn(idx, start, end));
    (if f.Some? then [f.value] else []) + SlotsOf(idx, Ascending(KeysIn(idx, start, end)))
  }

  /**
   * As written, an area starting exactly at `start` is listed twice: once
   * as the area holding `start`, once under its own key.
   */
  lemma RangeAsWrittenRepeats(slots: Slots, idx: Index, cache: Option<nat>, start: Usize, end: Usize, i: nat)
    requires Indexed(slots, idx) && CacheInList(slots, cache) && Tidy(slots, idx) && Disjoint(slots)
    requires i < |slots| && slots[i].Some? && slots[i].value.startVa == start < end
    ensures |RangeAsWritten(slots, idx, cache, start, end)| >= 2
    ensures RangeAsWritten(slots, idx, cache, start, end)[0] == i
    ensures i in RangeAsWritten(slots, idx, cache, start, end)[1..]
  {
    FindComplete(slots, idx, cache, start, i);
    var ks := KeysIn(idx, start, end);
    AscendingLists(ks);
    var asc := Ascending(ks);
    var j :| 0 <= j < |asc| && asc[j] == start;
    assert RangeAsWritten(slots, idx, cache, start, end)[1..] == SlotsOf(idx, asc);
    assert SlotsOf(idx, asc)[j] == i;
  }

  /** One area `[0x1000, 0x3000)`: as written, unmapping all of it lists slot 0 twice. */
  lemma RangeAsWrittenExample()
    ensures var slots: Slots := [Some(New(0x1000, 0x3000, 0, true))];
      RangeAsWritten(slots, map[0x1000 := 0], None, 0x1000, 0x3000) == [0, 0]
  {
    var slots: Slots := [Some(New(0x1000, 0x3000, 0, true))];
    var idx: Index := map[0x1000 := 0];
    assert KeysIn(idx, 0x1000, 0x3000) == {0x1000};
    AscendingLists({0x1000});
    assert Ascending({0x1000}) == [0x1000];
    assert FloorKey(idx.Keys, 0x1000) == Some(0x1000);
  }

  /**
   * `get_vma_range` listing each area once: the area holding `start` only
   * when it starts before `start` (otherwise its own key lists it).
   */
  function Range(slots: Slots, idx: Index, cache: Option<nat>, start: Usize, end: Usize): (r: seq<nat>)
    requires Indexed(slots, idx) && CacheInList(slots, cache)
  {
    var f := Find(slots, idx, cache, start);
    AscendingLists(KeysIn(idx, start, end));
    (if f.Some? && slots[f.value].value.startVa < start then [f.value] else []) + SlotsOf(idx, Ascending(KeysIn(idx, start, end)))
  }

  /** The slot indexes of `s` are occupied slots whose areas meet `[start, end)`. */
  predicate AllMeet(slots: Slots, s: seq<nat>, start: Usize, end: Usize)
  {
    forall x :: 0 <= x < |s| ==> s[x] < |slots| && slots[s[x]].Some? && Meets(slots[s[x]].value, start, end)
  }

  /** No slot index appears twice in `s`. */
  predicate Distinct(s: seq<nat>)
  {
    forall x, y :: 0 <= x < y < |s| ==> s[x] != s[y]
  }

  /** Keys listed in increasing order name distinct slots. */
  lemma KeyedSlotsDistinct(slots: Slots, idx: Index, ks: seq<Usize>)
    requires Indexed(slots, idx) && forall k :: k in ks ==> k in idx
    requires forall x, y :: 0 <= x < y < |ks| ==> ks[x] < ks[y]
    ensures Distinct(SlotsOf(idx, ks))
  {
    var t := SlotsOf(idx, ks);
    forall x, y | 0 <= x < y < |t|
      ensures t[x] != t[y]
    {
      assert ks[x] < ks[y];
      assert slots[t[x]].value.startVa == ks[x] && slots[t[y]].value.startVa == ks[y];
    }
  }

  /** Every slot index of `s` names an occupied slot. */
  predicate Occupied(slots: Slots, s: seq<nat>)
  {
    forall x :: 0 <= x < |s| ==> s[x] < |slots| && slots[s[x]].Some?
  }

  /** Every area of `s` starts in `[start, end)` or holds `start`. */
  predicate FromStart(slots: Slots, s: seq<nat>, start: Usize, end: Usize)
    requires Occupied(slots, s)
  {
    forall x :: 0 <= x < |s| ==> start <= slots[s[x]].value.startVa < end || InArea(slots[s[x]].value, start)
  }

  /** Every area of `s` starts in `[start, end)`. */
  predicate StartsIn(slots: Slots, s: seq<nat>, start: Usize, end: Usize)
    requires Occupied(slots, s)
  {
    forall x :: 0 <= x < |s| ==> start <= slots[s[x]].value.startVa < end
  }

  /** The areas under keys in `[start, end)` are distinct occupied slots starting in that range. */
  lemma KeyedSlotsFrom(slots: Slots, idx: Index, start: Usize, end: Usize)
    requires Indexed(slots, idx)
    ensures var asc := Ascending(KeysIn(idx, start, end));
      (forall k :: k in asc ==> k in idx) &&
      var t := SlotsOf(idx, asc);
      Occupied(slots, t) && Distinct(t) && StartsIn(slots, t, start, end)
  {
    var ks := KeysIn(idx, start, end);
    AscendingLists(ks);
    KeyedSlotsIn(slots, idx, Ascending(ks), start, end);
  }

  /** The areas under increasing keys in `[start, end)` are distinct occupied slots starting in that range. */
  lemma KeyedSlotsIn(slots: Slots, idx: Index, ks: seq<Usize>, start: Usize, end: Usize)
    requires Indexed(slots, idx) && forall k :: k in ks ==> k in idx && start <= k < end
    requires forall x, y :: 0 <= x < y < |ks| ==> ks[x] < ks[y]
    ensures var t := SlotsOf(idx, ks);
      Occupied(slots, t) && Distinct(t) && StartsIn(slots, t, start, end)
  {
    var t := SlotsOf(idx, ks);
    forall x | 0 <= x < |t|
      ensures t[x] < |slots| && slots[t[x]].Some? && start <= slots[t[x]].value.startVa < end
    {
      assert ks[x] in ks;
    }
    KeyedSlotsDistinct(slots, idx, ks);
  }

  /** Putting an area that holds `start` and starts before it in front of such a list keeps it distinct. */
  lemma PrependHolder(slots: Slots, h: nat, t: seq<nat>, start: Usize, end: Usize)
    requires Occupied(slots, t) && Distinct(t) && StartsIn(slots, t, start, end)
    requires h < |slots| && slots[h].Some? && InArea(slots[h].value, start) && slots[h].value.startVa < start
    ensures Occupied(slots, [h] + t) && Distinct([h] + t) && FromStart(slots, [h] + t, start, end)
  {
    var r := [h] + t;
    assert forall x :: 0 < x < |r| ==> r[x] == t[x - 1];
  }

  /** The listed slots are occupied and distinct, even when areas overlap. */
  lemma RangeListsOccupiedSlots(slots: Slots, idx: Index, cache: Option<nat>, start: Usize, end: Usize)
    requires Indexed(slots, idx) && CacheInList(slots, cache)
    ensures Occupied(slots, Range(slots, idx, cache, start, end))
    ensures Distinct(Range(slots, idx, cache, start, end))
    ensures FromStart(slots, Range(slots, idx, cache, start, end), start, end)
  {
    KeyedSlotsFrom(slots, idx, start, end);
    var t := SlotsOf(idx, Ascending(KeysIn(idx, start, end)));
    var f := Find(slots, idx, cache, start);
    if f.Some? && slots[f.value].value.startVa < start {
      assert Range(slots, idx, cache, start, end) == [f.value] + t;
      PrependHolder(slots, f.value, t, start, end);
    } else {
      assert Range(slots, idx, cache, start, end) == t;
    }
  }

  /** The listed areas are distinct occupied slots, and each meets `[start, end)`. */
  lemma RangeListsMeetingAreas(slots: Slots, idx: Index, cache: Option<nat>, start: Usize, end: Usize)
    requires Indexed(slots, idx) && CacheInList(slots, cache) && Disjoint(slots) && start < end
    ensures AllMeet(slots, Range(slots, idx, cache, start, end), start, end)
    ensures Distinct(Range(slots, idx, cache, start, end))
  {
    RangeListsOccupiedSlots(slots, idx, cache, start, end);
    var r := Range(slots, idx, cache, start, end);
    forall x | 0 <= x < |r| ensures Meets(slots[r[x]].value, start, end) {
      assert slots[r[x]].value.startVa < slots[r[x]].value.endVa;
    }
  }

  /** When every area is indexed and none overlap, every area meeting `[start, end)` is listed. */
  lemma RangeListsEveryMeetingArea(slots: Slots, idx: Index, cache: Option<nat>, start: Usize, end: Usize, i: nat)
    requires Indexed(slots, idx) && CacheInList(slots, cache) && Tidy(slots, idx) && Disjoint(slots)
    requires i < |slots| && slots[i].Some? && Meets(slots[i].value, start, end)
    ensures i in Range(slots, idx, cache, start, end)
  {
    var a := slots[i].value;
    var ks := KeysIn(idx, start, end);
    AscendingLists(ks);
    var asc := Ascending(ks);
    if a.startVa < start {
      FindComplete(slots, idx, cache, start, i);
    } else {
      assert a.startVa in ks;
      var j :| 0 <= j < |asc| && asc[j] == a.startVa;
      assert SlotsOf(idx, asc)[j] == i;
    }
  }

  // ---------------------------------------------------------------------------
  // A free range for `mmap` (`find_free_area`)

  /** `mmap_min_addr`: the start of the heap plus the heap's size. */
  function MmapMinAddr(startBrk: Usize): Usize
  {
    AddrAdd(Identity, startBrk, USER_HEAP_SIZE)
  }

  /**
   * The walk of `find_free_area` over the keys `ks` in increasing order:
   * the first area with at least `len` bytes free below it since `lastEnd`,
   * and whose start minus `len` is at least `minAddr`, yields that address.
   * Every key names an area, so the walk's `if let Some(vma)` always finds one.
   */
  function FreeFrom(slots: Slots, idx: Index, ks: seq<Usize>, lastEnd: Usize, len: Usize, minAddr: Usize): (r: Result<Usize, KernelError>)
    requires Indexed(slots, idx) && forall k :: k in ks ==> k in idx
    ensures r.Err? ==> r.error == VMAAllocFailed
  {
    if ks == [] then Err(VMAAllocFailed)
    else
      var a := slots[idx[ks[0]]].value;
      if Wrap(a.startVa - lastEnd) >= len && AddrSub(Identity, a.startVa, len) >= minAddr then
        Ok(AddrSub(Identity, a.startVa, len))
      else FreeFrom(slots, idx, ks[1..], a.endVa, len, minAddr)
  }

  /** `find_free_area` as written: the walk over the keys from `hint` on, starting from address 0. */
  function FreeAreaAsWritten(slots: Slots, idx: Index, startBrk: Usize, hint: Usize, len: Usize): (r: Result<Usize, KernelError>)
    requires Indexed(slots, idx)
  {
    AscendingLists(KeysIn(idx, hint, U64));
    FreeFrom(slots, idx, Ascending(KeysIn(idx, hint, U64)), 0, len, MmapMinAddr(startBrk))
  }

  /** The end of the area under the greatest key below `hint`, or 0 when there is none. */
  function EndBelow(slots: Slots, idx: Index, hint: Usize): (e: Usize)
    requires Indexed(slots, idx)
  {
    if hint == 0 then 0 else
      match FloorKey(idx.Keys, hint - 1)
      case None => 0
      case Some(k) => slots[idx[k]].value.endVa
  }

  /** `find_free_area` with the walk starting from the end of the area below `hint`. */
  function FreeArea(slots: Slots, idx: Index, startBrk: Usize, hint: Usize, len: Usize): (r: Result<Usize, KernelError>)
    requires Indexed(slots, idx)
  {
    AscendingLists(KeysIn(idx, hint, U64));
    FreeFrom(slots, idx, Ascending(KeysIn(idx, hint, U64)), EndBelow(slots, idx, hint), len, MmapMinAddr(startBrk))
  }

  /** The `len` bytes from `r` fit below the top of the address space and meet no area. */
  predicate Vacant(slots: Slots, r: Usize, len: Usize)
  {
    r + len < U64 && forall i :: 0 <= i < |slots| && slots[i].Some? ==> !Meets(slots[i].value, r, r + len)
  }

  /**
   * The walk's invariant: the keys still to visit are increasing and not
   * below `lastEnd`, and every area whose key is not among them ends by
   * `lastEnd`.
   */
  predicate Walking(slots: Slots, idx: Index, ks: seq<Usize>, lastEnd: Usize)
  {
    (forall k :: k in ks ==> k in idx && lastEnd <= k) &&
    (forall x, y :: 0 <= x < y < |ks| ==> ks[x] < ks[y]) &&
    (forall i :: 0 <= i < |slots| && slots[i].Some? ==> slots[i].value.startVa in ks || slots[i].value.endVa <= lastEnd)
  }

  /** Passing an area keeps the invariant, with `lastEnd` moved to that area's end. */
  lemma WalkPast(slots: Slots, idx: Index, ks: seq<Usize>, lastEnd: Usize)
    requires Indexed(slots, idx) && Tidy(slots, idx) && Disjoint(slots)
    requires Walking(slots, idx, ks, lastEnd) && ks != []
    ensures Walking(slots, idx, ks[1..], slots[idx[ks[0]]].value.endVa)
  {
    var a := slots[idx[ks[0]]].value;
    forall k | k in ks[1..] ensures k in idx && a.endVa <= k {
      var y :| 0 < y < |ks| && ks[y] == k;
      assert ks[0] < k;
      assert Apart(a, slots[idx[k]].value);
    }
    forall i | 0 <= i < |slots| && slots[i].Some?
      ensures slots[i].value.startVa in ks[1..] || slots[i].value.endVa <= a.endVa
    {
      if slots[i].value.startVa !in ks[1..] && slots[i].value.startVa != ks[0] {
        assert slots[i].value.endVa <= lastEnd <= ks[0];
      }
    }
  }

  /** Stopping at an area with `len` bytes free below it: those bytes meet no area. */
  lemma WalkStop(slots: Slots, idx: Index, ks: seq<Usize>, lastEnd: Usize, len: Usize)
    requires Indexed(slots, idx)
    requires Walking(slots, idx, ks, lastEnd) && ks != []
    requires Wrap(slots[idx[ks[0]]].value.startVa - lastEnd) >= len
    ensures len <= slots[idx[ks[0]]].value.startVa
    ensures forall i :: 0 <= i < |slots| && slots[i].Some? ==>
      !Meets(slots[i].value, slots[idx[ks[0]]].value.startVa - len, slots[idx[ks[0]]].value.startVa)
  {
    var s0 := slots[idx[ks[0]]].value.startVa;
    assert lastEnd <= ks[0] == s0;
    forall i | 0 <= i < |slots| && slots[i].Some?
      ensures !Meets(slots[i].value, s0 - len, s0)
    {
      if slots[i].value.startVa in ks {
        var y :| 0 <= y < |ks| && ks[y] == slots[i].value.startVa;
        assert y == 0 || ks[0] < ks[y];
      }
    }
  }

  /** Under the invariant, an address the walk yields starts a free range at or above `minAddr`. */
  lemma {:induction false} FreeFromIsFree(slots: Slots, idx: Index, ks: seq<Usize>, lastEnd: Usize, len: Usize, minAddr: Usize)
    requires Indexed(slots, idx) && Tidy(slots, idx) && Disjoint(slots)
    requires Walking(slots, idx, ks, lastEnd)
    ensures FreeFrom(slots, idx, ks, lastEnd, len, minAddr).Ok? ==>
      minAddr <= FreeFrom(slots, idx, ks, lastEnd, len, minAddr).value &&
      Vacant(slots, FreeFrom(slots, idx, ks, lastEnd, len, minAddr).value, len)
  {
    if ks != [] {
      var a := slots[idx[ks[0]]].value;
      if Wrap(a.startVa - lastEnd) >= len && AddrSub(Identity, a.startVa, len) >= minAddr {
        WalkStop(slots, idx, ks, lastEnd, len);
      } else {
        WalkPast(slots, idx, ks, lastEnd);
        FreeFromIsFree(slots, idx, ks[1..], a.endVa, len, minAddr);
      }
    }
  }

  /**
   * The end of the area below `hint` is not above any key from `hint` on,
   * and every area starting below `hint` ends by it.
   */
  lemma EndBelowBounds(slots: Slots, idx: Index, hint: Usize)
    requires Indexed(slots, idx) && Tidy(slots, idx) && Disjoint(slots)
    ensures forall k :: k in idx && hint <= k ==> EndBelow(slots, idx, hint) <= k
    ensures forall i :: 0 <= i < |slots| && slots[i].Some? && slots[i].value.startVa < hint ==>
      slots[i].value.endVa <= EndBelow(slots, idx, hint)
  {
    if hint > 0 && FloorKey(idx.Keys, hint - 1).Some? {
      var kf := FloorKey(idx.Keys, hint - 1).value;
      var f := slots[idx[kf]].value;
      forall k | k in idx && hint <= k ensures f.endVa <= k {
        assert Apart(f, slots[idx[k]].value);
      }
      forall i | 0 <= i < |slots| && slots[i].Some? && slots[i].value.startVa < hint
        ensures slots[i].value.endVa <= f.endVa
      {
        if i != idx[kf] {
          assert Apart(f, slots[i].value);
        }
      }
    } else {
      forall i | 0 <= i < |slots| && slots[i].Some?
        ensures hint <= slots[i].value.startVa
      {
        assert slots[i].value.startVa in idx.Keys;
      }
    }
  }

  /** The walk of `find_free_area` starts with its invariant holding. */
  lemma WalkStarts(slots: Slots, idx: Index, hint: Usize)
    requires Indexed(slots, idx) && Tidy(slots, idx) && Disjoint(slots)
    ensures Walking(slots, idx, Ascending(KeysIn(idx, hint, U64)), EndBelow(slots, idx, hint))
  {
    var ks := KeysIn(idx, hint, U64);
    AscendingLists(ks);
    EndBelowBounds(slots, idx, hint);
    forall i | 0 <= i < |slots| && slots[i].Some? && hint <= slots[i].value.startVa
      ensures slots[i].value.startVa in Ascending(ks)
    {
      assert slots[i].value.startVa in ks;
    }
  }

  /**
   * When every area is indexed and none overlap, the address `find_free_area`
   * yields starts `len` free bytes at or above `mmap_min_addr`.
   */
  lemma FreeAreaIsFree(slots: Slots, idx: Index, startBrk: Usize, hint: Usize, len: Usize)
    requires Indexed(slots, idx) && Tidy(slots, idx) && Disjoint(slots)
    ensures FreeArea(slots, idx, startBrk, hint, len).Ok? ==>
      MmapMinAddr(startBrk) <= FreeArea(slots, idx, startBrk, hint, len).value &&
      Vacant(slots, FreeArea(slots, idx, startBrk, hint, len).value, len)
  {
    WalkStarts(slots, idx, hint);
    FreeFromIsFree(slots, idx, Ascending(KeysIn(idx, hint, U64)), EndBelow(slots, idx, hint), len, MmapMinAddr(startBrk));
  }

  /**
   * Areas `[0x50_0000, 0x60_0000)` and `[0x60_1000, 0x70_0000)`, heap at 0:
   * as written, two pages from hint `0x60_1000` land on `0x5F_F000`, inside
   * the first area; the walk from that area's end finds no room.
   */
  lemma FreeAreaAsWrittenOverlaps()
    ensures var a := New(0x50_0000, 0x60_0000, 0, true);
      var b := New(0x60_1000, 0x70_0000, 0, true);
      var slots: Slots := [Some(a), Some(b)];
      var idx: Index := map[0x50_0000 := 0, 0x60_1000 := 1];
      FreeAreaAsWritten(slots, idx, 0, 0x60_1000, 0x2000) == Ok(0x5F_F000) &&
      Meets(a, 0x5F_F000, 0x60_1000)
    ensures var a := New(0x50_0000, 0x60_0000, 0, true);
      var b := New(0x60_1000, 0x70_0000, 0, true);
      var slots: Slots := [Some(a), Some(b)];
      var idx: Index := map[0x50_0000 := 0, 0x60_1000 := 1];
      FreeArea(slots, idx, 0, 0x60_1000, 0x2000) == Err(VMAAllocFailed)
  {
    var a := New(0x50_0000, 0x60_0000, 0, true);
    var b := New(0x60_1000, 0x70_0000, 0, true);
    var slots: Slots := [Some(a), Some(b)];
    var idx: Index := map[0x50_0000 := 0, 0x60_1000 := 1];
    assert KeysIn(idx, 0x60_1000, U64) == {0x60_1000};
    AscendingLists({0x60_1000});
    assert Ascending({0x60_1000}) == [0x60_1000];
    assert idx.Keys == {0x50_0000, 0x60_1000};
    var fk := FloorKey(idx.Keys, 0x60_0FFF);
    assert fk.Some? by { assert 0x50_0000 in idx.Keys; }
    assert fk.value == 0x50_0000;
    assert EndBelow(slots, idx, 0x60_1000) == 0x60_0000;
    assert MmapMinAddr(0) == 0x40_0000;
    assert AddrSub(Identity, 0x60_1000, 0x2000) == 0x5F_F000;
    assert [0x60_1000][1..] == [];
    assert FreeFrom(slots, idx, [], 0x70_0000, 0x2000, 0x40_0000) == Err(VMAAllocFailed);
  }

  // ---------------------------------------------------------------------------
  // Syscall helpers

  /** `page_align`: `value` rounded down to a multiple of the page size. */
  function PageAlign(value: Usize): (r: Usize)
    ensures r % PAGE_SIZE == 0 && r <= value < r + PAGE_SIZE
  {
    value - value % PAGE_SIZE
  }

  /** Aligning is idempotent, and an aligned value is its own alignment. */
  lemma PageAlignIdempotent(value: Usize)
    ensures PageAlign(PageAlign(value)) == PageAlign(value)
    ensures PageAlign(value) == value <==> IsAligned(value)
  {
  }

  /** `page_index`: the number of pages from the page holding `start_va` to the page holding `va`, wrapping below it. */
  function PageIndex(startVa: Usize, va: Usize): (r: Usize)
    ensures Ceil(startVa) <= Ceil(va) ==> Ceil(startVa) + r == Ceil(va)
    ensures Ceil(va) < Ceil(startVa) ==> r + Ceil(startVa) == Ceil(va) + U64
  {
    Wrap(Ceil(va) - Ceil(startVa))
  }

  /** For a page-aligned end, `page_index(start, end)` is the number of pages the area owns. */
  lemma PageIndexCountsPages(startVa: Usize, endVa: Usize)
    requires startVa < endVa < MAX_PAGE_NUMBER * PAGE_SIZE && IsAligned(endVa)
    ensures PageIndex(startVa, endVa) == SizeInPages(New(startVa, endVa, 0, true).pages)
  {
    var r := New(startVa, endVa, 0, true).pages;
    assert Contains(r, Ceil(startVa));
    assert Contains(r, Ceil(endVa) - 1);
  }
}
