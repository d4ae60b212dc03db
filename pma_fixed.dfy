/**
 * `FixedPMA`: a physical memory area over a run of frames allocated up
 * front, `[lo, hi)` by frame number. Page `i` of the area is frame
 * `lo + i`. `split` cuts the run with the frame range's `split_at(at, left)`,
 * read here as: cut `[lo, hi)` at `at`, hand out `[lo, at)` when `left` is
 * set and `[at, hi)` otherwise, and keep the other part.
 */
module FixedPma {
  import opened Wrappers
  import opened Addr
  import opened Errors
  import LazyPma

  /** A run of frames `[lo, hi)`. */
  datatype FrameRange = FrameRange(lo: nat, hi: nat)

  /** The outcome of `split` on a run: the part kept, the first part handed out and the second. */
  datatype Plan = Plan(kept: FrameRange, first: Option<FrameRange>, second: Option<FrameRange>)

  /**
   * `split(start, end)` with both bounds taken from the start of the run:
   * `(start, None)` hands out the tail from `start`, `(None, end)` the head
   * before `end`, `(start, end)` the middle `[start, end)` and the tail from
   * `end`. Each successful plan tiles the run without gap or overlap.
   */
  function SplitRun(fr: FrameRange, start: Option<nat>, end: Option<nat>): (r: Result<Plan, KernelError>)
    requires fr.lo <= fr.hi
    ensures r.Ok? && r.value.first.None? ==> r.value.kept == fr && r.value.second.None?
    ensures r.Ok? && r.value.first.Some? && r.value.second.None? && start.Some? ==>
      r.value.kept.lo == fr.lo && r.value.kept.hi == r.value.first.value.lo &&
      r.value.first.value.lo < r.value.first.value.hi == fr.hi
    ensures r.Ok? && r.value.first.Some? && r.value.second.None? && start.None? ==>
      r.value.first.value.lo == fr.lo && r.value.first.value.hi == r.value.kept.lo &&
      r.value.kept.lo < r.value.kept.hi == fr.hi
    ensures r.Ok? && r.value.second.Some? ==>
      r.value.first.Some? && r.value.kept.lo == fr.lo && r.value.kept.hi == r.value.first.value.lo &&
      r.value.first.value.lo < r.value.first.value.hi == r.value.second.value.lo &&
      r.value.second.value.lo < r.value.second.value.hi == fr.hi
    ensures r.Ok? ==> (r.value.first.Some? <==> start != end)
    ensures r.Ok? ==> (r.value.second.Some? <==> start.Some? && end.Some? && start != end)
    ensures r.Err? <==>
      (start.Some? && end.None? && start.value >= fr.hi - fr.lo) ||
      (start.None? && end.Some? && end.value >= fr.hi - fr.lo) ||
      (start.Some? && end.Some? && start != end &&
        (start.value > end.value || start.value >= fr.hi - fr.lo || end.value >= fr.hi - fr.lo))
    ensures r.Err? ==> (r.error == InvalidArgs <==> start.Some? && end.Some? && start.value > end.value)
    ensures r.Err? ==> r.error == InvalidArgs || r.error == PMAOutOfRange
  {
    if start.None? && end.None? then Ok(Plan(fr, None, None))
    else if end.None? then
      var a := fr.lo + start.value;
      if a >= fr.hi then Err(PMAOutOfRange)
      else Ok(Plan(FrameRange(fr.lo, a), Some(FrameRange(a, fr.hi)), None))
    else if start.None? then
      var b := fr.lo + end.value;
      if b >= fr.hi then Err(PMAOutOfRange)
      else Ok(Plan(FrameRange(b, fr.hi), Some(FrameRange(fr.lo, b)), None))
    else
      var a := fr.lo + start.value;
      var b := fr.lo + end.value;
      if a == b then Ok(Plan(fr, None, None))
      else if a > b then Err(InvalidArgs)
      else if a >= fr.hi || b >= fr.hi then Err(PMAOutOfRange)
      else Ok(Plan(FrameRange(fr.lo, a), Some(FrameRange(a, b)), Some(FrameRange(b, fr.hi))))
  }

  /**
   * `split` as written: with both bounds, `end` is taken from the END of the
   * run (`frames.end + end`), which is the corrected plan with `end` moved
   * one run length further on.
   */
  function SplitRunAsWritten(fr: FrameRange, start: Option<nat>, end: Option<nat>): (r: Result<Plan, KernelError>)
    requires fr.lo <= fr.hi
  {
    if start.Some? && end.Some? then SplitRun(fr, start, Some(end.value + (fr.hi - fr.lo)))
    else SplitRun(fr, start, end)
  }

  /**
   * As written, a split with both bounds never cuts anything: every such
   * call fails or hands back nothing.
   */
  lemma SplitBothNeverCuts(fr: FrameRange, start: nat, end: nat)
    requires fr.lo <= fr.hi
    ensures SplitRunAsWritten(fr, Some(start), Some(end)).Ok? ==>
      SplitRunAsWritten(fr, Some(start), Some(end)).value.first.None?
  {
  }

  /** The run of frames 10 to 13 split at pages 1 and 2: frame 11 as the middle, or an error as written. */
  lemma SplitMiddleExample()
    ensures SplitRun(FrameRange(10, 14), Some(1), Some(2)) ==
      Ok(Plan(FrameRange(10, 11), Some(FrameRange(11, 12)), Some(FrameRange(12, 14))))
    ensures SplitRunAsWritten(FrameRange(10, 14), Some(1), Some(2)) == Err(PMAOutOfRange)
  {
  }

  /**
   * The fixed and the lazy area refuse a split under the same conditions,
   * except that the lazy one lets `(None, end)` take every page
   * (`end == len`), which the fixed one refuses.
   */
  lemma SplitAgreesWithLazy(fr: FrameRange, fs: seq<LazyPma.Slot>, start: Option<Usize>, end: Option<Usize>)
    requires fr.lo <= fr.hi && |fs| == fr.hi - fr.lo && |fs| < U64
    ensures !(start.None? && end == Some(|fs| as Usize)) ==>
      (SplitRun(fr, start, end).Err? <==> LazyPma.SplitFrames(fs, start, end).Err?) &&
      (SplitRun(fr, start, end).Err? ==> SplitRun(fr, start, end).error == LazyPma.SplitFrames(fs, start, end).error)
    ensures start.None? && end == Some(|fs| as Usize) ==>
      SplitRun(fr, start, end).Err? && LazyPma.SplitFrames(fs, start, end).Ok?
  {
  }

  class FixedPMA {
    var run: FrameRange

    predicate Valid()
      reads this
    {
      run.lo <= run.hi
    }

    /** `size_in_frames`. */
    function Size(): nat
      reads this
      requires Valid()
    {
      run.hi - run.lo
    }

    /** `get_frame(index, _)`: frame `lo + index`, or `FrameOutOfRange` past the run. */
    function GetFrame(index: nat): (r: Result<nat, KernelError>)
      reads this
      requires Valid()
      ensures r.Ok? <==> index < Size()
      ensures r.Ok? ==> run.lo <= r.value < run.hi && r.value - run.lo == index
      ensures r.Err? ==> r.error == FrameOutOfRange
    {
      if index >= Size() then Err(FrameOutOfRange) else Ok(run.lo + index)
    }

    /** `get_frames(_)`: every frame of the run, in order, each present. */
    function GetFrames(): (r: seq<Option<nat>>)
      reads this
      requires Valid()
      ensures |r| == Size()
      ensures forall i :: 0 <= i < |r| ==> r[i].Some? && GetFrame(i) == Ok(r[i].value)
    {
      var lo := run.lo;
      seq(Size(), i => Some(lo + i))
    }

    /**
     * `check_frame` as written: `index >= size`, true exactly when
     * `get_frame(index)` has no frame to give.
     */
    function CheckFrameAsWritten(index: nat): (b: bool)
      reads this
      requires Valid()
      ensures b <==> GetFrame(index).Err?
    {
      index >= Size()
    }

    /** `check_frame` in the sense of the lazy area: a frame exists for page `index`. */
    function CheckFrame(index: nat): (b: bool)
      reads this
      requires Valid()
      ensures b <==> GetFrame(index).Ok?
    {
      index < Size()
    }

    /** Applies a split plan: keep one part, hand the others out as new areas. */
    method Apply(p: Result<Plan, KernelError>) returns (r: Result<(Option<FixedPMA>, Option<FixedPMA>), KernelError>)
      requires p.Ok? ==> p.value.kept.lo <= p.value.kept.hi
      requires p.Ok? && p.value.first.Some? ==> p.value.first.value.lo <= p.value.first.value.hi
      requires p.Ok? && p.value.second.Some? ==> p.value.second.value.lo <= p.value.second.value.hi
      modifies this
      ensures r.Err? <==> p.Err?
      ensures r.Err? ==> r.error == p.error && run == old(run)
      ensures r.Ok? ==> run == p.value.kept && Valid()
      ensures r.Ok? ==> (r.value.0.Some? <==> p.value.first.Some?) && (r.value.1.Some? <==> p.value.second.Some?)
      ensures r.Ok? && r.value.0.Some? ==> fresh(r.value.0.value) && r.value.0.value.run == p.value.first.value && r.value.0.value.Valid()
      ensures r.Ok? && r.value.1.Some? ==> fresh(r.value.1.value) && r.value.1.value.run == p.value.second.value && r.value.1.value.Valid()
    {
      if p.Err? {
        return Err(p.error);
      }
      var first: Option<FixedPMA> := None;
      var second: Option<FixedPMA> := None;
      if p.value.first.Some? {
        var a := new FixedPMA(p.value.first.value);
        first := Some(a);
      }
      if p.value.second.Some? {
        var b := new FixedPMA(p.value.second.value);
        second := Some(b);
      }
      run := p.value.kept;
      r := Ok((first, second));
    }

    constructor (run: FrameRange)
      requires run.lo <= run.hi
      ensures this.run == run && Valid()
    {
      this.run := run;
    }

    /** `split` as written, with `end` measured from the end of the run when both bounds are given. */
    method SplitAsWritten(start: Option<nat>, end: Option<nat>) returns (r: Result<(Option<FixedPMA>, Option<FixedPMA>), KernelError>)
      requires Valid()
      modifies this
      ensures var p := SplitRunAsWritten(old(run), start, end);
        (r.Err? <==> p.Err?) && (r.Err? ==> r.error == p.error && run == old(run)) &&
        (r.Ok? ==> run == p.value.kept && Valid())
      ensures start.Some? && end.Some? && r.Ok? ==> r.value.0.None? && r.value.1.None?
    {
      var p := SplitRunAsWritten(run, start, end);
      if start.Some? && end.Some? {
        SplitBothNeverCuts(run, start.value, end.value);
      }
      r := Apply(p);
    }

    /** `split` with both bounds measured from the start of the run. */
    method Split(start: Option<nat>, end: Option<nat>) returns (r: Result<(Option<FixedPMA>, Option<FixedPMA>), KernelError>)
      requires Valid()
      modifies this
      ensures var p := SplitRun(old(run), start, end);
        (r.Err? <==> p.Err?) && (r.Err? ==> r.error == p.error && run == old(run)) &&
        (r.Ok? ==>
           run == p.value.kept && Valid() &&
           (r.value.0.Some? <==> p.value.first.Some?) && (r.value.1.Some? <==> p.value.second.Some?))
      ensures r.Ok? && r.value.0.Some? ==>
        fresh(r.value.0.value) && r.value.0.value.run == SplitRun(old(run), start, end).value.first.value
      ensures r.Ok? && r.value.1.Some? ==>
        fresh(r.value.1.value) && r.value.1.value.run == SplitRun(old(run), start, end).value.second.value
    {
      r := Apply(SplitRun(run, start, end));
    }
  }
}
