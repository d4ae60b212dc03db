/**
 * `LazyPMA`: the physical side of a user memory area whose frames are
 * allocated on first touch. `frames` holds one slot per page of the area,
 * empty until a frame is allocated for that page; `alloc_count` is
 * documented as the number of allocated frames. A frame is named by its
 * number. A backing file, when one is attached, fills each new frame and
 * takes dirty frames back; the model keeps only whether a file is attached
 * (`backed`) and, per call, whether its read succeeds.
 */
module LazyPma {
  import opened Wrappers
  import opened Addr
  import opened Errors
  import opened Bytes

  /** `LOW_MAX_VA` of the page-table crate: user space ends below 4 GiB. */
  const LOW_MAX_VA: Usize := 0xFFFF_FFFF

  /** `(LOW_MAX_VA + 1) >> PAGE_SIZE_BITS`: the most pages a user area may span. */
  const USER_MAX_PAGES: Usize := 0x10_0000

  /** One page's slot: the number of its frame once allocated. */
  type Slot = Option<Usize>

  /** The number of occupied slots. */
  function CountSome(fs: seq<Slot>): (n: nat)
    ensures n <= |fs|
  {
    if fs == [] then 0 else (if fs[0].Some? then 1 else 0) + CountSome(fs[1..])
  }

  lemma {:induction false} CountSomeAppend(a: seq<Slot>, b: seq<Slot>)
    ensures CountSome(a + b) == CountSome(a) + CountSome(b)
  {
    if a == [] {
      assert a + b == b;
    } else {
      assert (a + b)[1..] == a[1..] + b;
      CountSomeAppend(a[1..], b);
    }
  }

  /** Every slot is occupied exactly when the count reaches the length. */
  lemma {:induction false} CountSomeFull(fs: seq<Slot>)
    ensures CountSome(fs) == |fs| <==> forall i :: 0 <= i < |fs| ==> fs[i].Some?
  {
    if fs != [] {
      CountSomeFull(fs[1..]);
      assert forall i :: 1 <= i < |fs| ==> fs[i] == fs[1..][i - 1];
    }
  }

  /** Filling or emptying one slot moves the count by one. */
  lemma CountSomeSet(fs: seq<Slot>, i: nat, x: Slot)
    requires i < |fs|
    ensures CountSome(fs[i := x]) + (if fs[i].Some? then 1 else 0) == CountSome(fs) + (if x.Some? then 1 else 0)
  {
    var g := fs[i := x];
    assert fs == fs[..i] + ([fs[i]] + fs[i + 1..]);
    assert g == fs[..i] + ([x] + fs[i + 1..]);
    CountSomeAppend(fs[..i], [fs[i]] + fs[i + 1..]);
    CountSomeAppend([fs[i]], fs[i + 1..]);
    CountSomeAppend(fs[..i], [x] + fs[i + 1..]);
    CountSomeAppend([x], fs[i + 1..]);
  }

  /** Empty slots hold no frame. */
  lemma {:induction false} CountSomeEmpty(fs: seq<Slot>)
    requires forall i :: 0 <= i < |fs| ==> fs[i].None?
    ensures CountSome(fs) == 0
  {
    if fs != [] {
      assert forall i :: 0 <= i < |fs| - 1 ==> fs[1..][i] == fs[i + 1];
      CountSomeEmpty(fs[1..]);
    }
  }

  /** The `for_each` of `new_with_frames`: one for every occupied slot. */
  method CountAllocated(fs: seq<Slot>) returns (n: nat)
    ensures n == CountSome(fs)
  {
    n := 0;
    var i := 0;
    while i < |fs|
      invariant i <= |fs| && n == CountSome(fs[..i])
    {
      assert fs[..i + 1] == fs[..i] + [fs[i]];
      CountSomeAppend(fs[..i], [fs[i]]);
      if fs[i].Some? {
        n := n + 1;
      }
      i := i + 1;
    }
    assert fs[..|fs|] == fs;
  }

  /**
   * The slots after `get_frames(true)`: each empty slot, in order, takes the
   * next frame of `supply`; once `supply` runs out the rest stay as they
   * were.
   */
  function Fill(fs: seq<Slot>, supply: seq<Usize>): (r: seq<Slot>)
    ensures |r| == |fs|
  {
    if fs == [] then []
    else if fs[0].Some? then [fs[0]] + Fill(fs[1..], supply)
    else if supply == [] then fs
    else [Some(supply[0])] + Fill(fs[1..], supply[1..])
  }

  /** Slots already occupied keep their frames, and empty slots stay empty or take a frame of `supply`. */
  lemma {:induction false} FillKeepsFrames(fs: seq<Slot>, supply: seq<Usize>, i: nat)
    requires i < |fs|
    ensures fs[i].Some? ==> Fill(fs, supply)[i] == fs[i]
    ensures Fill(fs, supply)[i].Some? && fs[i].None? ==> Fill(fs, supply)[i].value in supply
  {
    if i > 0 && !(fs[0].None? && supply == []) {
      var rest := if fs[0].Some? then supply else supply[1..];
      FillKeepsFrames(fs[1..], rest, i - 1);
    }
  }

  /** One step of `Fill`, at slot `i`. */
  lemma FillAt(fs: seq<Slot>, i: nat, supply: seq<Usize>)
    requires i < |fs|
    ensures Fill(fs[i..], supply) ==
      if fs[i].Some? then [fs[i]] + Fill(fs[i + 1..], supply)
      else if supply == [] then fs[i..]
      else [Some(supply[0])] + Fill(fs[i + 1..], supply[1..])
  {
    assert fs[i..][1..] == fs[i + 1..];
  }

  /** The loop step of `get_frames`: slot `i` joins the filled prefix. */
  lemma FillStep(fs: seq<Slot>, supply: seq<Usize>, out: seq<Slot>, i: nat, added: nat)
    requires i < |fs| && added <= |supply| && Fill(fs, supply) == out + Fill(fs[i..], supply[added..])
    requires fs[i].Some? || added < |supply|
    ensures fs[i].Some? ==> Fill(fs, supply) == (out + [fs[i]]) + Fill(fs[i + 1..], supply[added..])
    ensures fs[i].None? ==> Fill(fs, supply) == (out + [Some(supply[added])]) + Fill(fs[i + 1..], supply[added + 1..])
  {
    var rest := supply[added..];
    FillAt(fs, i, rest);
    if fs[i].Some? {
      var t := Fill(fs[i + 1..], rest);
      assert out + ([fs[i]] + t) == (out + [fs[i]]) + t;
    } else {
      assert rest[1..] == supply[added + 1..];
      var t := Fill(fs[i + 1..], supply[added + 1..]);
      assert out + ([Some(supply[added])] + t) == (out + [Some(supply[added])]) + t;
    }
  }

  /** `Fill` allocates one frame per empty slot while the supply lasts. */
  lemma {:induction false} FillCount(fs: seq<Slot>, supply: seq<Usize>)
    ensures CountSome(Fill(fs, supply)) == CountSome(fs) + Min(|fs| - CountSome(fs), |supply|)
  {
    if fs != [] && !(fs[0].None? && supply == []) {
      var rest := if fs[0].Some? then supply else supply[1..];
      FillCount(fs[1..], rest);
      CountSomeAppend([Fill(fs, supply)[0]], Fill(fs[1..], rest));
      assert Fill(fs, supply) == [Fill(fs, supply)[0]] + Fill(fs[1..], rest);
    }
  }

  /** With enough frames at hand, `Fill` leaves no slot empty. */
  lemma FillCompletes(fs: seq<Slot>, supply: seq<Usize>)
    requires |fs| - CountSome(fs) <= |supply|
    ensures forall i :: 0 <= i < |fs| ==> Fill(fs, supply)[i].Some?
  {
    FillCount(fs, supply);
    CountSomeFull(Fill(fs, supply));
  }

  /** The invariant of `get_frames`' loop after `i` slots, `added` of them newly filled, giving `out`. */
  predicate Filling(fs: seq<Slot>, supply: seq<Usize>, alloc: bool, out: seq<Slot>, i: nat, added: nat)
  {
    i <= |fs| && added <= |supply| && |out| == i &&
    CountSome(out) == CountSome(fs[..i]) + added &&
    (!alloc ==> out == fs[..i] && added == 0) &&
    (alloc ==> Fill(fs, supply) == out + Fill(fs[i..], supply[added..]) && added + CountSome(fs[..i]) == i)
  }

  /** One turn of the loop: slot `i` is copied, or filled from the supply. */
  lemma FillingNext(fs: seq<Slot>, supply: seq<Usize>, alloc: bool, out: seq<Slot>, i: nat, added: nat)
    requires Filling(fs, supply, alloc, out, i, added) && i < |fs|
    requires !(alloc && fs[i].None? && added == |supply|)
    ensures fs[i].Some? || !alloc ==> Filling(fs, supply, alloc, out + [fs[i]], i + 1, added)
    ensures fs[i].None? && alloc ==> Filling(fs, supply, alloc, out + [Some(supply[added])], i + 1, added + 1)
  {
    assert fs[..i + 1] == fs[..i] + [fs[i]];
    CountSomeAppend(fs[..i], [fs[i]]);
    if alloc {
      FillStep(fs, supply, out, i, added);
    }
    if fs[i].Some? || !alloc {
      CountSomeAppend(out, [fs[i]]);
    } else {
      CountSomeAppend(out, [Some(supply[added])]);
    }
  }

  /** The supply runs out at the empty slot `i`: the slots from `i` stay as they were. */
  lemma FillExhausted(fs: seq<Slot>, supply: seq<Usize>, out: seq<Slot>, i: nat, added: nat)
    requires Filling(fs, supply, true, out, i, added) && i < |fs| && fs[i].None? && added == |supply|
    ensures out + fs[i..] == Fill(fs, supply)
    ensures CountSome(out + fs[i..]) == CountSome(fs) + added
    ensures |fs| - CountSome(fs) > |supply|
  {
    var tail := fs[i..];
    assert supply[added..] == [];
    FillAt(fs, i, []);
    assert fs[..i] + tail == fs;
    CountSomeAppend(out, tail);
    CountSomeAppend(fs[..i], tail);
    assert CountSome(tail) == CountSome(tail[1..]);
  }

  /** The loop has reached every slot. */
  lemma FillingDone(fs: seq<Slot>, supply: seq<Usize>, alloc: bool, out: seq<Slot>, added: nat)
    requires Filling(fs, supply, alloc, out, |fs|, added)
    ensures !alloc ==> out == fs && added == 0
    ensures alloc ==> out == Fill(fs, supply) && |fs| - CountSome(fs) <= |supply|
    ensures CountSome(out) == CountSome(fs) + added
  {
    assert fs[..|fs|] == fs;
    assert fs[|fs|..] == [];
  }

  /**
   * The loop of `get_frames`: walk the slots in order, and with `alloc` put
   * the next frame of `supply` in each empty one, stopping when the supply
   * is exhausted. `ok` says whether every slot was reached; `added` counts
   * the frames placed.
   */
  method FillSlots(fs: seq<Slot>, alloc: bool, supply: seq<Usize>) returns (out: seq<Slot>, added: nat, ok: bool)
    ensures !alloc ==> out == fs && added == 0 && ok
    ensures alloc ==> out == Fill(fs, supply) && (ok <==> |fs| - CountSome(fs) <= |supply|)
    ensures CountSome(out) == CountSome(fs) + added
  {
    out := [];
    added := 0;
    var i := 0;
    assert fs[..0] == [] && fs[0..] == fs;
    while i < |fs|
      invariant Filling(fs, supply, alloc, out, i, added)
    {
      if alloc && fs[i].None? && added == |supply| {
        FillExhausted(fs, supply, out, i, added);
        return out + fs[i..], added, false;
      }
      FillingNext(fs, supply, alloc, out, i, added);
      if fs[i].Some? || !alloc {
        out := out + [fs[i]];
      } else {
        out := out + [Some(supply[added])];
        added := added + 1;
      }
      i := i + 1;
    }
    FillingDone(fs, supply, alloc, out, added);
    ok := true;
  }

  /** The pieces `split` produces: the slots kept, the first piece returned and the second. */
  datatype Pieces = Pieces(kept: seq<Slot>, first: Option<seq<Slot>>, second: Option<seq<Slot>>)

  /** The slots of an optional piece, none when it is absent. */
  function Held(p: Option<seq<Slot>>): seq<Slot>
  {
    if p.Some? then p.value else []
  }

  /**
   * `split(start, end)` on the slot vector: `(start, None)` cuts off the
   * tail from `start`, `(None, end)` the head before `end`, and
   * `(start, end)` both the middle `[start, end)` and the tail from `end`.
   * In every successful case the pieces put back in address order are the
   * original slots; the errors are the source's range checks.
   */
  function SplitFrames(fs: seq<Slot>, start: Option<Usize>, end: Option<Usize>): (r: Result<Pieces, KernelError>)
    ensures r.Ok? && !(start.None? && end.Some?) ==> r.value.kept + Held(r.value.first) + Held(r.value.second) == fs
    ensures r.Ok? && start.None? && end.Some? ==> Held(r.value.first) + r.value.kept == fs
    ensures r.Ok? ==> (r.value.first.Some? <==> start != end)
    ensures r.Ok? ==> (r.value.second.Some? <==> start.Some? && end.Some? && start != end)
    ensures r.Ok? && start.Some? && start != end ==> Held(r.value.first) != []
    ensures r.Err? <==>
      (start.Some? && end.None? && start.value >= |fs|) ||
      (start.None? && end.Some? && end.value > |fs|) ||
      (start.Some? && end.Some? && start != end &&
        (start.value > end.value || start.value >= |fs| || end.value >= |fs|))
    ensures r.Err? ==> (r.error == InvalidArgs <==> start.Some? && end.Some? && start.value > end.value)
    ensures r.Err? ==> r.error == InvalidArgs || r.error == PMAOutOfRange
  {
    if start.None? && end.None? then Ok(Pieces(fs, None, None))
    else if end.None? then
      var s := start.value;
      if s >= |fs| then Err(PMAOutOfRange)
      else
        assert fs[..s] + fs[s..] == fs;
        Ok(Pieces(fs[..s], Some(fs[s..]), None))
    else if start.None? then
      var e := end.value;
      if e > |fs| then Err(PMAOutOfRange)
      else
        assert fs[..e] + fs[e..] == fs;
        Ok(Pieces(fs[e..], Some(fs[..e]), None))
    else
      var s := start.value;
      var e := end.value;
      if s == e then Ok(Pieces(fs, None, None))
      else if s > e then Err(InvalidArgs)
      else if s >= |fs| || e >= |fs| then Err(PMAOutOfRange)
      else
        assert fs[..s] + fs[s..e] + fs[e..] == fs;
        Ok(Pieces(fs[..s], Some(fs[s..e]), Some(fs[e..])))
  }

  class LazyPMA {
    var frames: seq<Slot>
    var allocCount: Usize
    var backed: bool

    /** `alloc_count` counts the occupied slots. */
    predicate Valid()
      reads this
    {
      allocCount == CountSome(frames) && |frames| < U64
    }

    /** `new_with_frames`: an area over the given slots, counting the occupied ones. */
    constructor WithFrames(fs: seq<Slot>, backed: bool)
      requires |fs| < U64
      ensures frames == fs && this.backed == backed && Valid()
    {
      var n := CountAllocated(fs);
      frames := fs;
      allocCount := n;
      this.backed := backed;
    }

    /** `check_frame`: whether a frame has been allocated for page `index`. */
    function CheckFrame(index: Usize): (b: bool)
      reads this
      requires index < |frames|
      ensures b <==> frames[index] != None
    {
      frames[index].Some?
    }

    /**
     * `get_frame(index, alloc)`: the frame already in the slot; otherwise,
     * when `alloc` is set, the frame `supplied` by the global allocator
     * (`FrameAllocFailed` when it has none), after the backing file has
     * filled it (`PMAFailedIO` when that read fails, and the frame is
     * dropped); otherwise `PMAFrameNotFound`. Only a new frame changes the
     * area, and it keeps `alloc_count` exact.
     */
    method GetFrame(index: Usize, alloc: bool, supplied: Option<Usize>, readOk: bool) returns (r: Result<Usize, KernelError>)
      requires index < |frames|
      modifies this
      ensures backed == old(backed) && |frames| == |old(frames)|
      ensures old(CheckFrame(index)) ==> r == Ok(old(frames)[index].value) && frames == old(frames) && allocCount == old(allocCount)
      ensures !old(CheckFrame(index)) && !alloc ==> r == Err(PMAFrameNotFound) && frames == old(frames) && allocCount == old(allocCount)
      ensures !old(CheckFrame(index)) && alloc && supplied.None? ==> r == Err(FrameAllocFailed) && frames == old(frames) && allocCount == old(allocCount)
      ensures !old(CheckFrame(index)) && alloc && supplied.Some? && backed && !readOk ==>
        r == Err(PMAFailedIO) && frames == old(frames) && allocCount == old(allocCount)
      ensures !old(CheckFrame(index)) && alloc && supplied.Some? && (!backed || readOk) ==>
        r == Ok(supplied.value) && frames == old(frames)[index := supplied] && allocCount == Wrap(old(allocCount) + 1)
      ensures r.Ok? ==> CheckFrame(index) && frames[index] == Some(r.value)
      ensures old(Valid()) ==> Valid()
    {
      if frames[index].Some? {
        return Ok(frames[index].value);
      } else if alloc {
        if supplied.None? {
          return Err(FrameAllocFailed);
        }
        if backed && !readOk {
          return Err(PMAFailedIO);
        }
        CountSomeSet(frames, index, supplied);
        frames := frames[index := supplied];
        allocCount := Wrap(allocCount + 1);
        return Ok(supplied.value);
      } else {
        return Err(PMAFrameNotFound);
      }
    }

    /**
     * `get_frames(alloc)`: every slot's frame in page order. With `alloc`,
     * each empty slot first takes the next frame of `supply`; when the
     * supply runs out the call fails with `FrameAllocFailed`, keeping the
     * frames it has already placed. `alloc_count` grows by the frames placed.
     */
    method GetFrames(alloc: bool, supply: seq<Usize>) returns (r: Result<seq<Slot>, KernelError>)
      requires Valid()
      modifies this
      ensures Valid() && backed == old(backed)
      ensures !alloc ==> r == Ok(old(frames)) && frames == old(frames)
      ensures alloc ==> frames == Fill(old(frames), supply)
      ensures alloc ==> (r.Ok? <==> |old(frames)| - CountSome(old(frames)) <= |supply|)
      ensures r.Ok? ==> r.value == frames
      ensures r.Err? ==> r.error == FrameAllocFailed
    {
      var out, added, ok := FillSlots(frames, alloc, supply);
      frames := out;
      allocCount := allocCount + added;
      r := if ok then Ok(out) else Err(FrameAllocFailed);
    }

    /**
     * `dealloc_frame`: empty the slot of page `index` (its frame goes back
     * to the allocator after the backing file has been written), or fail
     * with `PMAFrameNotFound` when it is already empty.
     */
    method DeallocFrame(index: Usize) returns (r: Result<(), KernelError>)
      requires index < |frames|
      modifies this
      ensures backed == old(backed)
      ensures r.Err? <==> !old(CheckFrame(index))
      ensures r.Err? ==> r.error == PMAFrameNotFound && frames == old(frames) && allocCount == old(allocCount)
      ensures r.Ok? ==> frames == old(frames)[index := None] && allocCount == Wrap(old(allocCount) - 1)
      ensures old(Valid()) ==> Valid()
    {
      if frames[index].None? {
        return Err(PMAFrameNotFound);
      }
      CountSomeSet(frames, index, None);
      frames := frames[index := None];
      allocCount := Wrap(allocCount - 1);
      r := Ok(());
    }

    /**
     * `split(start, end)` as written: the area keeps the slots
     * `SplitFrames` keeps and hands the others out as new areas, but its
     * own `alloc_count` is not updated, so it still counts the frames it
     * handed out.
     */
    method Split(start: Option<Usize>, end: Option<Usize>) returns (r: Result<(Option<LazyPMA>, Option<LazyPMA>), KernelError>)
      requires |frames| < U64
      modifies this
      ensures backed == old(backed) && allocCount == old(allocCount)
      ensures var p := SplitFrames(old(frames), start, end);
        (r.Err? <==> p.Err?) &&
        (r.Err? ==> r.error == p.error && frames == old(frames)) &&
        (r.Ok? ==>
          frames == p.value.kept &&
          (r.value.0.Some? <==> p.value.first.Some?) &&
          (r.value.1.Some? <==> p.value.second.Some?))
      ensures r.Ok? && r.value.0.Some? ==>
        fresh(r.value.0.value) && r.value.0.value.Valid() && r.value.0.value.backed == backed &&
        r.value.0.value.frames == SplitFrames(old(frames), start, end).value.first.value
      ensures r.Ok? && r.value.1.Some? ==>
        fresh(r.value.1.value) && r.value.1.value.Valid() && r.value.1.value.backed == backed &&
        r.value.1.value.frames == SplitFrames(old(frames), start, end).value.second.value
    {
      var p := SplitFrames(frames, start, end);
      if p.Err? {
        return Err(p.error);
      }
      var first: Option<LazyPMA> := None;
      var second: Option<LazyPMA> := None;
      if p.value.first.Some? {
        var a := new LazyPMA.WithFrames(p.value.first.value, backed);
        first := Some(a);
      }
      if p.value.second.Some? {
        var b := new LazyPMA.WithFrames(p.value.second.value, backed);
        second := Some(b);
      }
      frames := p.value.kept;
      r := Ok((first, second));
    }

    /**
     * `split` with `alloc_count` recounted over the slots the area keeps,
     * so the count stays exact on every side of the cut.
     */
    method SplitRecount(start: Option<Usize>, end: Option<Usize>) returns (r: Result<(Option<LazyPMA>, Option<LazyPMA>), KernelError>)
      requires |frames| < U64
      modifies this
      ensures Valid() && backed == old(backed)
      ensures var p := SplitFrames(old(frames), start, end);
        (r.Err? <==> p.Err?) &&
        (r.Err? ==> r.error == p.error && frames == old(frames)) &&
        (r.Ok? ==>
          frames == p.value.kept &&
          (r.value.0.Some? <==> p.value.first.Some?) &&
          (r.value.1.Some? <==> p.value.second.Some?))
      ensures r.Ok? && r.value.0.Some? ==>
        fresh(r.value.0.value) && r.value.0.value.Valid() &&
        r.value.0.value.frames == SplitFrames(old(frames), start, end).value.first.value
      ensures r.Ok? && r.value.1.Some? ==>
        fresh(r.value.1.value) && r.value.1.value.Valid() &&
        r.value.1.value.frames == SplitFrames(old(frames), start, end).value.second.value
    {
      r := Split(start, end);
      var n := CountAllocated(frames);
      allocCount := n;
    }

    /**
     * `extend(new_size)`: `resize_with` truncates to `new_size` slots or
     * pads with empty ones. The count is left alone, which stays exact when
     * the area grows.
     */
    method Extend(newSize: Usize)
      modifies this
      ensures backed == old(backed) && allocCount == old(allocCount) && |frames| == newSize
      ensures forall i :: 0 <= i < newSize && i < |old(frames)| ==> frames[i] == old(frames)[i]
      ensures forall i :: |old(frames)| <= i < newSize ==> frames[i].None?
      ensures old(Valid()) && newSize >= |old(frames)| ==> Valid()
    {
      if newSize <= |frames| {
        assert newSize == |frames| ==> frames[..newSize] == frames;
        frames := frames[..newSize];
      } else {
        var pad: seq<Slot> := seq(newSize - |frames|, _ => None);
        CountSomeAppend(frames, pad);
        CountSomeEmpty(pad);
        frames := frames + pad;
      }
    }
  }

  /**
   * `new(count, file)` as written: `count` must lie in
   * `1..=USER_MAX_PAGES` (`InvalidArgs` otherwise), but
   * `Vec::with_capacity` makes an empty vector and `fill_with` fills only
   * the elements it already has, so the area has no slot at all.
   */
  method New(count: Usize, backed: bool) returns (r: Result<LazyPMA, KernelError>)
    ensures r.Err? <==> count == 0 || count > USER_MAX_PAGES
    ensures r.Err? ==> r.error == InvalidArgs
    ensures r.Ok? ==>
      fresh(r.value) && r.value.Valid() && r.value.backed == backed &&
      r.value.frames == [] && r.value.allocCount == 0
  {
    if count == 0 || count > USER_MAX_PAGES {
      return Err(InvalidArgs);
    }
    var a := new LazyPMA.WithFrames([], backed);
    r := Ok(a);
  }

  /** `new` with the `count` empty slots its callers index: page `i < count` has a slot. */
  method NewFilled(count: Usize, backed: bool) returns (r: Result<LazyPMA, KernelError>)
    ensures r.Err? <==> count == 0 || count > USER_MAX_PAGES
    ensures r.Err? ==> r.error == InvalidArgs
    ensures r.Ok? ==>
      fresh(r.value) && r.value.Valid() && r.value.backed == backed &&
      |r.value.frames| == count && r.value.allocCount == 0 &&
      forall i :: 0 <= i < count ==> !r.value.CheckFrame(i)
  {
    if count == 0 || count > USER_MAX_PAGES {
      return Err(InvalidArgs);
    }
    var empty: seq<Slot> := seq(count, _ => None);
    CountSomeEmpty(empty);
    var a := new LazyPMA.WithFrames(empty, backed);
    r := Ok(a);
  }

  /**
   * A one-page area as written has no slot for page 0, which `get_frame(0, _)`
   * indexes; the filled one has it.
   */
  method NewAreaHasNoSlots() returns (asWritten: nat, filled: nat)
    ensures asWritten == 0 && filled == 1
  {
    var a := New(1, false);
    var b := NewFilled(1, false);
    asWritten := |a.value.frames|;
    filled := |b.value.frames|;
  }

  /**
   * Splitting `[empty, frame 7]` at slot 1 as written leaves one empty slot
   * that still counts one frame; the recounting split counts none.
   */
  method SplitLeavesStaleCount() returns (asWritten: nat, recounted: nat, held: nat)
    ensures asWritten == 1 && recounted == 0 && held == 0
  {
    var a := new LazyPMA.WithFrames([None, Some(7)], false);
    var two: seq<Slot> := [None, Some(7)];
    assert CountSome(two) == 1 by {
      assert two[1..] == [Some(7)];
      assert two[1..][1..] == [];
    }
    var _ := a.Split(Some(1), None);
    assert a.frames == [None];
    var one: seq<Slot> := [None];
    assert CountSome(one) == 0 by {
      assert one[1..] == [];
    }
    asWritten := a.allocCount;
    held := CountSome(a.frames);
    var b := new LazyPMA.WithFrames([None, Some(7)], false);
    var _ := b.SplitRecount(Some(1), None);
    recounted := b.allocCount;
  }
}
