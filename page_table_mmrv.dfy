/**
 * The Sv39 page table of the `mm-rv` crate: a root frame, the list of frames
 * the table owns, and the three-level walk that reads and writes entries in
 * physical memory.
 *
 * `frame()` is modelled as intended (the PPN field, `Pte.Frame`); the code as
 * written decodes the frame off by one (`Pte.FrameAsWritten`). `translate`
 * is modelled on the page containing the address (`Addr.Ceil`); the code as
 * written walks `Page::floor(va)` (`TranslateAsWritten`).
 *
 * The ghost map `level` records, for each frame the table owns, its depth
 * below the root; `Linked` says that every valid entry of a depth-0 or
 * depth-1 table names an owned frame one level deeper. The walk reads only
 * those entries, so writes elsewhere do not disturb it.
 */
module PageTableMmRv {
  import opened Wrappers
  import opened Addr
  import opened Sv39Address
  import opened Pte
  import opened PhysMem

  /** The address of a leaf entry and the entry itself (`(PhysAddr, PageTableEntry)`). */
  datatype Slot = Slot(pa: nat, entry: Usize)

  datatype PtError = InvalidEntry | FrameAllocFailed

  /** `SATP_MODE_SV39`: mode 8 in bits 63..60. */
  const SATP_MODE: nat := 0x8000_0000_0000_0000

  predicate IndexesOk(indexes: seq<nat>)
  {
    forall k :: 0 <= k < |indexes| ==> indexes[k] < ENTRIES
  }

  /** One step of the walk: read entry `index` of table `link`; it must be valid. */
  function Step(words: map<nat, Usize>, link: Usize, index: nat): Result<Usize, PtError>
    requires index < ENTRIES
  {
    var e := ReadWord(words, FromIndex(link, index));
    if IsValid(FlagsOf(e)) then Ok(Frame(e)) else Err(InvalidEntry)
  }

  /** Follow `indexes` down from table `link`; the table frame reached. */
  function Descend(words: map<nat, Usize>, link: Usize, indexes: seq<nat>): Result<Usize, PtError>
    requires IndexesOk(indexes)
    decreases |indexes|
  {
    if |indexes| == 0 then Ok(link)
    else
      match Step(words, link, indexes[0])
      case Err(e) => Err(e)
      case Ok(next) => Descend(words, next, indexes[1..])
  }

  /** `walk`: the leaf entry for `page`, failing on any invalid entry along the way. */
  function WalkSpec(words: map<nat, Usize>, root: Usize, page: Usize): Result<Slot, PtError>
  {
    var idx := VpnIndexes(page);
    match Descend(words, root, idx[..2])
    case Err(e) => Err(e)
    case Ok(leafTable) =>
      var pa := FromIndex(leafTable, idx[2]);
      var e := ReadWord(words, pa);
      if IsValid(FlagsOf(e)) then Ok(Slot(pa, e)) else Err(InvalidEntry)
  }

  /** `translate` as intended: the frame of the page containing `va`, plus `va`'s page offset. */
  function TranslateSpec(words: map<nat, Usize>, root: Usize, va: Usize): Result<Usize, PtError>
  {
    match WalkSpec(words, root, Ceil(va))
    case Err(e) => Err(e)
    case Ok(slot) => Ok(AddrAdd(CanonicalizePa, StartAddress(CanonicalizePa, Frame(slot.entry)), PageOffset(va)))
  }

  /** `translate` as written: it walks `Page::floor(va)`, the page AFTER `va` when `va` is unaligned. */
  function TranslateAsWritten(words: map<nat, Usize>, root: Usize, va: Usize): Result<Usize, PtError>
  {
    match WalkSpec(words, root, Floor(va))
    case Err(e) => Err(e)
    case Ok(slot) => Ok(AddrAdd(CanonicalizePa, StartAddress(CanonicalizePa, Frame(slot.entry)), PageOffset(va)))
  }

  /** A table at frame 0 mapping only page 1 to frame 7 (through tables at frames 1 and 2). */
  const EXAMPLE_WORDS: map<nat, Usize> := map[0 := 1 * PPN_UNIT + VALID, PAGE_SIZE := 2 * PPN_UNIT + VALID, 2 * PAGE_SIZE + 8 := 7 * PPN_UNIT + VALID + READABLE]

  /** In the example, indexes 0 and 0 lead from the root to the leaf table at frame 2. */
  lemma ExampleDescent()
    ensures Descend(EXAMPLE_WORDS, 0, [0, 0]) == Ok(2)
  {
    FromIndexLayout(0, 0);
    FromIndexLayout(1, 0);
    assert Step(EXAMPLE_WORDS, 0, 0) == Ok(1);
    assert Step(EXAMPLE_WORDS, 1, 0) == Ok(2);
    assert [0, 0][1..] == [0];
    assert Descend(EXAMPLE_WORDS, 1, [0]) == Ok(2);
  }

  /** In the example, page 1 walks to its leaf. */
  lemma ExampleWalkMapped()
    ensures WalkSpec(EXAMPLE_WORDS, 0, 1) == Ok(Slot(2 * PAGE_SIZE + 8, 7 * PPN_UNIT + VALID + READABLE))
  {
    assert VpnIndexes(1) == [0, 0, 1];
    assert VpnIndexes(1)[..2] == [0, 0];
    ExampleDescent();
    FromIndexLayout(2, 1);
    assert FromIndex(2, 1) == 2 * PAGE_SIZE + 8;
  }

  /** In the example, page 2 fails at an invalid leaf. */
  lemma ExampleWalkUnmapped()
    ensures WalkSpec(EXAMPLE_WORDS, 0, 2) == Err(InvalidEntry)
  {
    assert VpnIndexes(2) == [0, 0, 2];
    assert VpnIndexes(2)[..2] == [0, 0];
    ExampleDescent();
    FromIndexLayout(2, 2);
    assert FromIndex(2, 2) !in EXAMPLE_WORDS;
  }

  /** Address 0x1001 of the mapped page 1: the intended translation finds it, the written one fails. */
  lemma TranslateAsWrittenCounterexample()
    ensures TranslateSpec(EXAMPLE_WORDS, 0, 0x1001) == Ok(7 * PAGE_SIZE + 1)
    ensures TranslateAsWritten(EXAMPLE_WORDS, 0, 0x1001) == Err(InvalidEntry)
  {
    assert Ceil(0x1001) == 1;
    assert Floor(0x1001) == 2;
    ExampleWalkMapped();
    ExampleWalkUnmapped();
    assert Frame(7 * PPN_UNIT + VALID + READABLE) == 7;
  }

  /** A successful translation lands at the given offset inside the leaf's frame. */
  lemma TranslateLandsInFrame(words: map<nat, Usize>, root: Usize, va: Usize)
    requires WalkSpec(words, root, Ceil(va)).Ok?
    requires Frame(WalkSpec(words, root, Ceil(va)).value.entry) < FRAME_SPAN
    ensures TranslateSpec(words, root, va) ==
      Ok(Frame(WalkSpec(words, root, Ceil(va)).value.entry) * PAGE_SIZE + va % PAGE_SIZE)
  {
  }

  // ---------------------------------------------------------------------------
  // Walk facts

  /** Extending the index list by one entry is one more step. */
  lemma {:induction false} DescendSnoc(words: map<nat, Usize>, link: Usize, s: seq<nat>, x: nat)
    requires IndexesOk(s) && x < ENTRIES
    decreases |s|
    ensures IndexesOk(s + [x])
    ensures Descend(words, link, s + [x]) ==
      match Descend(words, link, s)
      case Err(e) => Err(e)
      case Ok(t) => Step(words, t, x)
  {
    if |s| > 0 {
      assert (s + [x])[1..] == s[1..] + [x];
      match Step(words, link, s[0])
      case Err(_) =>
      case Ok(next) => DescendSnoc(words, next, s[1..], x);
    }
  }

  /** The walk fails exactly when the entry-by-entry descent through all three indexes fails. */
  lemma WalkSpecIsDescent(words: map<nat, Usize>, root: Usize, page: Usize)
    ensures WalkSpec(words, root, page).Ok? <==> Descend(words, root, VpnIndexes(page)).Ok?
  {
    var idx := VpnIndexes(page);
    assert idx == idx[..2] + [idx[2]];
    DescendSnoc(words, root, idx[..2], idx[2]);
  }

  /** Frame depths: the root is depth 0 and every owned frame is a canonical frame at depth at most 2. */
  ghost predicate Shape(level: map<Usize, nat>, root: Usize)
  {
    root in level && level[root] == 0 &&
    forall t :: t in level ==> t < FRAME_SPAN && level[t] <= 2
  }

  /** Every valid entry of a depth-0 or depth-1 table names an owned frame one level deeper. */
  ghost predicate Linked(words: map<nat, Usize>, level: map<Usize, nat>)
  {
    forall t: Usize, i: Usize ::
      t in level && level[t] < 2 && i < ENTRIES && IsValid(FlagsOf(ReadWord(words, FromIndex(t, i)))) ==>
        Frame(ReadWord(words, FromIndex(t, i))) in level &&
        level[Frame(ReadWord(words, FromIndex(t, i)))] == level[t] + 1
  }

  /** `w2` keeps every valid entry `w1` has in the depth-0 and depth-1 tables. */
  ghost predicate KeepsValidUpper(w1: map<nat, Usize>, w2: map<nat, Usize>, level: map<Usize, nat>)
  {
    forall t: Usize, i: Usize ::
      t in level && level[t] < 2 && i < ENTRIES && IsValid(FlagsOf(ReadWord(w1, FromIndex(t, i)))) ==>
        ReadWord(w2, FromIndex(t, i)) == ReadWord(w1, FromIndex(t, i))
  }

  /** The tables form a tree: no two valid entries of the depth-0 and depth-1 tables name the same frame. */
  ghost predicate Tree(words: map<nat, Usize>, level: map<Usize, nat>)
  {
    forall t1: Usize, i1: Usize, t2: Usize, i2: Usize ::
      t1 in level && level[t1] < 2 && i1 < ENTRIES && t2 in level && level[t2] < 2 && i2 < ENTRIES &&
      IsValid(FlagsOf(ReadWord(words, FromIndex(t1, i1)))) && IsValid(FlagsOf(ReadWord(words, FromIndex(t2, i2)))) &&
      Frame(ReadWord(words, FromIndex(t1, i1))) == Frame(ReadWord(words, FromIndex(t2, i2))) ==>
        t1 == t2 && i1 == i2
  }

  /** `w2` keeps every entry `w1` has in the depth-2 tables. */
  ghost predicate KeepsLeaves(w1: map<nat, Usize>, w2: map<nat, Usize>, level: map<Usize, nat>)
  {
    forall t: Usize, i: Usize :: t in level && level[t] == 2 && i < ENTRIES ==>
      ReadWord(w2, FromIndex(t, i)) == ReadWord(w1, FromIndex(t, i))
  }

  /** A descent through linked tables ends at an owned frame as deep as the number of steps taken. */
  lemma {:induction false} DescendDepth(words: map<nat, Usize>, level: map<Usize, nat>, link: Usize, s: seq<nat>)
    requires Linked(words, level) && IndexesOk(s)
    decreases |s|
    requires link in level && level[link] + |s| <= 2
    ensures Descend(words, link, s).Ok? ==>
      Descend(words, link, s).value in level && level[Descend(words, link, s).value] == level[link] + |s|
  {
    if |s| > 0 {
      match Step(words, link, s[0])
      case Err(_) =>
      case Ok(next) => DescendDepth(words, level, next, s[1..]);
    }
  }

  /** Below a reached table, a valid entry on `page`'s path reaches the next table, one level deeper. */
  lemma DescendNext(words: map<nat, Usize>, level: map<Usize, nat>, root: Usize, page: Usize, depth: nat, link: Usize)
    requires Linked(words, level) && root in level && level[root] == 0
    requires depth < 2 && Descend(words, root, VpnIndexes(page)[..depth]) == Ok(link)
    requires IsValid(FlagsOf(ReadWord(words, FromIndex(link, VpnIndexes(page)[depth]))))
    ensures Descend(words, root, VpnIndexes(page)[..depth + 1]) ==
      Ok(Frame(ReadWord(words, FromIndex(link, VpnIndexes(page)[depth]))))
    ensures Frame(ReadWord(words, FromIndex(link, VpnIndexes(page)[depth]))) in level
    ensures level[Frame(ReadWord(words, FromIndex(link, VpnIndexes(page)[depth])))] == depth + 1
  {
    var idx := VpnIndexes(page);
    DescendSnoc(words, root, idx[..depth], idx[depth]);
    assert idx[..depth] + [idx[depth]] == idx[..depth + 1];
    DescendDepth(words, level, root, idx[..depth + 1]);
  }

  /** A successful descent survives any change that keeps the valid upper entries. */
  lemma {:induction false} DescendStable(w1: map<nat, Usize>, w2: map<nat, Usize>, level: map<Usize, nat>, link: Usize, s: seq<nat>)
    requires Linked(w1, level) && KeepsValidUpper(w1, w2, level) && IndexesOk(s)
    decreases |s|
    requires link in level && level[link] + |s| <= 2
    requires Descend(w1, link, s).Ok?
    ensures Descend(w2, link, s) == Descend(w1, link, s)
  {
    if |s| > 0 {
      var next := Step(w1, link, s[0]).value;
      assert Step(w2, link, s[0]) == Ok(next);
      DescendStable(w1, w2, level, next, s[1..]);
    }
  }

  /** Writing one word into a depth-2 table keeps every upper entry, the links between tables and their tree shape. */
  lemma WriteLeafKeepsUpper(words: map<nat, Usize>, level: map<Usize, nat>, root: Usize, leafTable: Usize, index: nat, w: Usize)
    requires Shape(level, root) && Linked(words, level) && Tree(words, level)
    requires leafTable in level && level[leafTable] == 2 && index < ENTRIES
    ensures KeepsValidUpper(words, words[FromIndex(leafTable, index) := w], level)
    ensures Linked(words[FromIndex(leafTable, index) := w], level)
    ensures Tree(words[FromIndex(leafTable, index) := w], level)
  {
    var w2 := words[FromIndex(leafTable, index) := w];
    forall t: Usize, i: Usize | t in level && level[t] < 2 && i < ENTRIES
      ensures ReadWord(w2, FromIndex(t, i)) == ReadWord(words, FromIndex(t, i))
    {
      FromIndexInjective(t, i, leafTable, index);
    }
  }

  /** Writing the leaf slot of `page` keeps the tables linked, and the walk of `page` then finds the word written. */
  lemma WriteLeafWalk(words: map<nat, Usize>, level: map<Usize, nat>, root: Usize, page: Usize, leafTable: Usize, w: Usize)
    requires Shape(level, root) && Linked(words, level) && Tree(words, level)
    requires Descend(words, root, VpnIndexes(page)[..2]) == Ok(leafTable)
    ensures leafTable in level && level[leafTable] == 2
    ensures KeepsValidUpper(words, words[FromIndex(leafTable, VpnIndexes(page)[2]) := w], level)
    ensures Linked(words[FromIndex(leafTable, VpnIndexes(page)[2]) := w], level)
    ensures Tree(words[FromIndex(leafTable, VpnIndexes(page)[2]) := w], level)
    ensures WalkSpec(words[FromIndex(leafTable, VpnIndexes(page)[2]) := w], root, page) ==
      if IsValid(FlagsOf(w)) then Ok(Slot(FromIndex(leafTable, VpnIndexes(page)[2]), w)) else Err(InvalidEntry)
  {
    var idx := VpnIndexes(page);
    var w2 := words[FromIndex(leafTable, idx[2]) := w];
    DescendDepth(words, level, root, idx[..2]);
    WriteLeafKeepsUpper(words, level, root, leafTable, idx[2], w);
    DescendStable(words, w2, level, root, idx[..2]);
  }

  /** In a tree, two-step descents from the root that reach the same table took the same indexes. */
  lemma DescendInjective(words: map<nat, Usize>, level: map<Usize, nat>, root: Usize, a: seq<nat>, b: seq<nat>)
    requires Shape(level, root) && Linked(words, level) && Tree(words, level)
    requires |a| == 2 && |b| == 2 && IndexesOk(a) && IndexesOk(b)
    requires Descend(words, root, a).Ok? && Descend(words, root, a) == Descend(words, root, b)
    ensures a == b
  {
    var x := Step(words, root, a[0]).value;
    var y := Step(words, root, b[0]).value;
    assert Descend(words, root, a) == Descend(words, x, a[1..]);
    assert Descend(words, root, b) == Descend(words, y, b[1..]);
    assert a[1..][1..] == [] && b[1..][1..] == [];
    assert Step(words, x, a[1]) == Step(words, y, b[1]);
    assert a[1] == b[1] && x == y;
  }

  /** A state that keeps the valid upper entries and the leaf tables keeps every walk that succeeded. */
  lemma KeptWalk(w0: map<nat, Usize>, w1: map<nat, Usize>, level: map<Usize, nat>, root: Usize, q: Usize)
    requires Shape(level, root) && Linked(w0, level)
    requires KeepsValidUpper(w0, w1, level) && KeepsLeaves(w0, w1, level)
    requires WalkSpec(w0, root, q).Ok?
    ensures WalkSpec(w1, root, q) == WalkSpec(w0, root, q)
  {
    var qi := VpnIndexes(q);
    VpnIndexesReassemble(q);
    DescendDepth(w0, level, root, qi[..2]);
    DescendStable(w0, w1, level, root, qi[..2]);
  }

  /** Writing the leaf slot of `page` leaves the walk of every other page that succeeded as it was. */
  lemma WriteLeafKeepsOthers(words: map<nat, Usize>, level: map<Usize, nat>, root: Usize, page: Usize, leafTable: Usize, w: Usize, q: Usize)
    requires Shape(level, root) && Linked(words, level) && Tree(words, level)
    requires Descend(words, root, VpnIndexes(page)[..2]) == Ok(leafTable)
    requires VpnIndexes(q) != VpnIndexes(page) && WalkSpec(words, root, q).Ok?
    ensures WalkSpec(words[FromIndex(leafTable, VpnIndexes(page)[2]) := w], root, q) == WalkSpec(words, root, q)
  {
    var qi, pi := VpnIndexes(q), VpnIndexes(page);
    VpnIndexesReassemble(q);
    VpnIndexesReassemble(page);
    var qTable := Descend(words, root, qi[..2]).value;
    var w2 := words[FromIndex(leafTable, pi[2]) := w];
    DescendDepth(words, level, root, qi[..2]);
    DescendDepth(words, level, root, pi[..2]);
    WriteLeafKeepsUpper(words, level, root, leafTable, pi[2], w);
    DescendStable(words, w2, level, root, qi[..2]);
    if qTable == leafTable {
      DescendInjective(words, level, root, qi[..2], pi[..2]);
    }
    FromIndexInjective(qTable, qi[2], leafTable, pi[2]);
  }

  /** Every entry of table `t` reads zero, as in a freshly allocated frame. */
  ghost predicate ZeroTable(words: map<nat, Usize>, t: Usize)
  {
    forall i :: 0 <= i < ENTRIES ==> ReadWord(words, FromIndex(t, i)) == 0
  }

  /** A table holding a valid entry is not a fresh, all-zero table. */
  lemma ValidEntryNotZero(words: map<nat, Usize>, t: Usize, i: nat)
    requires i < ENTRIES && IsValid(FlagsOf(ReadWord(words, FromIndex(t, i))))
    ensures !ZeroTable(words, t)
  {
  }

  /** Moving the first free frame onto the owned frames keeps the two lists' concatenation. */
  lemma TakeFront(owned: seq<Usize>, free: seq<Usize>)
    requires free != []
    ensures (owned + [free[0]]) + free[1..] == owned + free
  {
    assert [free[0]] + free[1..] == free;
  }

  /** Every frame left in the supply is outside the tables. */
  ghost predicate Unowned(free: seq<Usize>, level: map<Usize, nat>)
  {
    forall k :: 0 <= k < |free| ==> free[k] !in level
  }

  /**
   * The allocation step of a creating walk: a fresh zeroed frame becomes a
   * table one level below `link`, installed under the invalid entry `index`
   * with only the VALID flag set. The caller records the frame.
   */
  method Install(mem: Memory, supply: FrameSupply, ghost level: map<Usize, nat>, ghost root: Usize,
                 link: Usize, index: nat, ghost depth: nat)
    returns (nf: Option<Usize>, entry: Usize)
    requires Shape(level, root) && Linked(mem.words, level) && Tree(mem.words, level)
    requires supply.Valid() && Unowned(supply.free, level)
    requires link in level && level[link] == depth && depth < 2 && index < ENTRIES
    requires !IsValid(FlagsOf(ReadWord(mem.words, FromIndex(link, index))))
    modifies mem, supply
    ensures supply.Valid()
    ensures nf.None? ==> old(supply.free) == [] && supply.free == [] && mem.words == old(mem.words)
    ensures nf.Some? ==>
      old(supply.free) != [] && nf.value == old(supply.free)[0] && nf.value !in level &&
      supply.free == old(supply.free)[1..] &&
      Shape(level[nf.value := depth + 1], root) &&
      Linked(mem.words, level[nf.value := depth + 1]) &&
      Tree(mem.words, level[nf.value := depth + 1]) &&
      Unowned(supply.free, level[nf.value := depth + 1]) &&
      KeepsValidUpper(old(mem.words), mem.words, level) &&
      KeepsLeaves(old(mem.words), mem.words, level) &&
      ReadWord(mem.words, FromIndex(link, index)) == entry &&
      Step(mem.words, link, index) == Ok(nf.value) &&
      ZeroTable(mem.words, nf.value)
  {
    var pa := FromIndex(link, index);
    entry := ReadWord(mem.words, pa);
    ghost var w0 := mem.words;
    nf := supply.Alloc(mem);
    if nf.None? {
      return;
    }
    entry := SetPpn(SetFlags(entry, VALID), nf.value);
    FrameOfSetPpn(ReadWord(w0, pa), VALID, nf.value);
    ghost var w1 := mem.words;
    mem.Write(pa, entry);
    InstallKeepsLinks(w0, w1, mem.words, level, link, index, nf.value, entry);
    InstallKeepsTree(w0, w1, mem.words, level, link, index, nf.value, entry);
    forall i | 0 <= i < ENTRIES
      ensures ReadWord(mem.words, FromIndex(nf.value, i)) == 0
    {
      SlotInItsFrame(nf.value, i, nf.value);
      SlotInItsFrame(link, index, nf.value);
    }
  }

  class PageTable {
    /** The root frame, pointed to by `satp`. */
    var root: Usize
    /** The frames this table owns: the root and every table frame created since. */
    var frames: seq<Usize>
    /** The depth of each owned frame below the root. */
    ghost var level: map<Usize, nat>

    ghost predicate Valid(mem: Memory)
      reads this, mem
    {
      Shape(level, root) && Linked(mem.words, level) && Tree(mem.words, level) &&
      (forall t :: t in level <==> t in frames)
    }

    /** No frame still in the supply belongs to this table. */
    ghost predicate FreshFor(supply: FrameSupply)
      reads this, supply
    {
      Unowned(supply.free, level)
    }

    /** The table `PageTable::new` builds once a root frame is available: the root is the first free frame, zeroed. */
    constructor (mem: Memory, supply: FrameSupply)
      requires supply.Valid() && supply.free != []
      modifies mem, supply
      ensures Valid(mem) && supply.Valid() && FreshFor(supply)
      ensures root == old(supply.free)[0] && frames == [root]
      ensures supply.free == old(supply.free)[1..]
    {
      var f := supply.Alloc(mem);
      root := f.value;
      frames := [f.value];
      level := map[f.value := 0];
      new;
      forall t: Usize, i: Usize | t in level && level[t] < 2 && i < ENTRIES
        ensures ReadWord(mem.words, FromIndex(t, i)) == 0
      {
        SlotInItsFrame(t, i, f.value);
      }
    }

    /** `satp`: Sv39 mode in bits 63..60, ASID 0, the root frame in bits 43..0. */
    function Satp(): (s: nat)
      reads this
      requires root < PPN_SPAN
      ensures s / 0x1000_0000_0000_0000 == 8
      ensures (s / PPN_SPAN) % 0x1_0000 == 0
      ensures s % PPN_SPAN == root
    {
      SATP_MODE + root
    }

    /** `walk`: read the entries the three indexes select, failing on the first invalid one. */
    method Walk(mem: Memory, page: Usize) returns (r: Result<Slot, PtError>)
      ensures r == WalkSpec(mem.words, root, page)
    {
      var indexes := SplitVpn(page);
      var link := root;
      var result := Slot(0, 0);
      for i := 0 to 3
        invariant i < 3 ==> Descend(mem.words, root, indexes[..i]) == Ok(link)
        invariant i == 3 ==> WalkSpec(mem.words, root, page) == Ok(result)
      {
        var pa := FromIndex(link, indexes[i]);
        var entry := ReadWord(mem.words, pa);
        if !IsValid(FlagsOf(entry)) {
          StepFailsWalk(mem.words, root, page, i, link);
          return Err(InvalidEntry);
        }
        DescendSnoc(mem.words, root, indexes[..i], indexes[i]);
        assert indexes[..i] + [indexes[i]] == indexes[..i + 1];
        result := Slot(pa, entry);
        link := Frame(entry);
      }
      r := Ok(result);
    }

    /** The allocation branch of `create`, recorded in `frames` and `level`. */
    method InstallTable(mem: Memory, supply: FrameSupply, link: Usize, index: nat, ghost depth: nat)
      returns (nf: Option<Usize>, entry: Usize)
      requires Valid(mem) && supply.Valid() && FreshFor(supply)
      requires link in level && level[link] == depth && depth < 2 && index < ENTRIES
      requires !IsValid(FlagsOf(ReadWord(mem.words, FromIndex(link, index))))
      modifies this`frames, this`level, mem, supply
      ensures Valid(mem) && supply.Valid() && FreshFor(supply)
      ensures nf.None? ==>
        old(supply.free) == [] && supply.free == [] &&
        frames == old(frames) && level == old(level) && mem.words == old(mem.words)
      ensures nf.Some? ==>
        old(supply.free) != [] && nf.value == old(supply.free)[0] &&
        supply.free == old(supply.free)[1..] &&
        frames == old(frames) + [nf.value] && level == old(level)[nf.value := depth + 1] &&
        KeepsValidUpper(old(mem.words), mem.words, old(level)) && KeepsLeaves(old(mem.words), mem.words, old(level)) &&
        ReadWord(mem.words, FromIndex(link, index)) == entry &&
        Step(mem.words, link, index) == Ok(nf.value) &&
        ZeroTable(mem.words, nf.value)
    {
      nf, entry := Install(mem, supply, level, root, link, index, depth);
      if nf.Some? {
        frames := frames + [nf.value];
        level := level[nf.value := depth + 1];
      }
    }

    /**
     * One step of `create` below table `link`, reached by `prefix`: read entry
     * `index`; at depths 0 and 1 an invalid entry gets a fresh zeroed table.
     * `ok` is false only when that table cannot be allocated.
     */
    method Advance(mem: Memory, supply: FrameSupply, ghost prefix: seq<nat>, depth: nat, link: Usize, index: nat)
      returns (ok: bool, pa: nat, entry: Usize)
      requires Valid(mem) && supply.Valid() && FreshFor(supply)
      requires IndexesOk(prefix) && depth == |prefix| < 3 && index < ENTRIES
      requires Descend(mem.words, root, prefix) == Ok(link) && link in level && level[link] == |prefix|
      modifies this`frames, this`level, mem, supply
      ensures Valid(mem) && supply.Valid() && FreshFor(supply)
      ensures Grows(old(mem.words), old(frames), old(level), old(supply.free), mem.words, frames, level, supply.free)
      ensures |frames| <= |old(frames)| + (if depth < 2 then 1 else 0)
      ensures Descend(mem.words, root, prefix) == Ok(link)
      ensures !ok ==> supply.free == [] && |prefix| < 2
      ensures ok ==> pa == FromIndex(link, index) && entry == ReadWord(mem.words, pa)
      ensures ok && |prefix| < 2 ==>
        Descend(mem.words, root, prefix + [index]) == Ok(Frame(entry)) &&
        Frame(entry) in level && level[Frame(entry)] == |prefix| + 1
    {
      pa := FromIndex(link, index);
      entry := ReadWord(mem.words, pa);
      ok := true;
      if !IsValid(FlagsOf(entry)) && depth < 2 {
        ghost var w0 := mem.words;
        ghost var f0, free0 := frames, supply.free;
        var nf;
        nf, entry := InstallTable(mem, supply, link, index, depth);
        if nf.None? {
          return false, pa, entry;
        }
        TakeFront(f0, free0);
        DescendStable(w0, mem.words, old(level), root, prefix);
      }
      if depth < 2 {
        DescendSnoc(mem.words, root, prefix, index);
        DescendDepth(mem.words, level, root, prefix + [index]);
      }
    }

    /**
     * `create`: walk to the leaf slot of `page`, installing a fresh zeroed table
     * for every invalid entry at depths 0 and 1. Valid entries are followed
     * whatever their kind; the leaf entry is returned without being checked.
     * The frames taken come from the front of the supply, at most two of them.
     */
    method Create(mem: Memory, supply: FrameSupply, page: Usize) returns (r: Result<Slot, PtError>)
      requires Valid(mem) && supply.Valid() && FreshFor(supply)
      modifies this`frames, this`level, mem, supply
      ensures Valid(mem) && supply.Valid() && FreshFor(supply)
      ensures Grows(old(mem.words), old(frames), old(level), old(supply.free), mem.words, frames, level, supply.free)
      ensures |frames| <= |old(frames)| + 2
      ensures r.Err? ==> r.error == FrameAllocFailed && supply.free == []
      ensures r.Ok? ==>
        var idx := VpnIndexes(page);
        Descend(mem.words, root, idx[..2]).Ok? &&
        var leafTable := Descend(mem.words, root, idx[..2]).value;
        leafTable in level && level[leafTable] == 2 &&
        r.value == Slot(FromIndex(leafTable, idx[2]), ReadWord(mem.words, FromIndex(leafTable, idx[2])))
    {
      var indexes := SplitVpn(page);
      var link := root;
      var result := Slot(0, 0);
      ghost var leafTable := root;
      for j := 0 to 3
        invariant Valid(mem) && supply.Valid() && FreshFor(supply)
        invariant Grows(old(mem.words), old(frames), old(level), old(supply.free), mem.words, frames, level, supply.free)
        invariant |frames| <= |old(frames)| + (if j < 2 then j else 2)
        invariant j < 3 ==> Descend(mem.words, root, indexes[..j]) == Ok(link) && link in level && level[link] == j
        invariant j == 3 ==> (Descend(mem.words, root, indexes[..2]) == Ok(leafTable) &&
          leafTable in level && level[leafTable] == 2 &&
          result == Slot(FromIndex(leafTable, indexes[2]), ReadWord(mem.words, FromIndex(leafTable, indexes[2]))))
      {
        ghost var w0, f0, l0, free0 := mem.words, frames, level, supply.free;
        var ok, pa, entry := Advance(mem, supply, indexes[..j], j, link, indexes[j]);
        GrowsTrans(old(mem.words), old(frames), old(level), old(supply.free), w0, f0, l0, free0, mem.words, frames, level, supply.free);
        if !ok {
          return Err(FrameAllocFailed);
        }
        if j < 2 {
          PrefixSnoc(indexes, j);
        } else {
          leafTable := link;
        }
        result := Slot(pa, entry);
        link := Frame(entry);
      }
      r := Ok(result);
    }

    /**
     * `map`: `create` the leaf slot of `page`, then overwrite it, whatever it
     * held, with `flags` and the frame number. Afterwards the walk of `page`
     * finds exactly that entry when `flags` has VALID, and fails otherwise.
     */
    method Map(mem: Memory, supply: FrameSupply, page: Usize, frame: Usize, flags: Flags) returns (r: Result<(), PtError>)
      requires Valid(mem) && supply.Valid() && FreshFor(supply)
      modifies this`frames, this`level, mem, supply
      ensures Valid(mem) && supply.Valid() && FreshFor(supply)
      ensures frames + supply.free == old(frames) + old(supply.free)
      ensures old(frames) <= frames && |frames| <= |old(frames)| + 2
      ensures KeepsValidUpper(old(mem.words), mem.words, old(level))
      ensures forall q :: VpnIndexes(q) != VpnIndexes(page) && WalkSpec(old(mem.words), root, q).Ok? ==>
        WalkSpec(mem.words, root, q) == WalkSpec(old(mem.words), root, q)
      ensures r.Err? ==> r.error == FrameAllocFailed && supply.free == []
      ensures r.Ok? && IsValid(flags) ==>
        WalkSpec(mem.words, root, page).Ok? &&
        FlagsOf(WalkSpec(mem.words, root, page).value.entry) == flags &&
        Frame(WalkSpec(mem.words, root, page).value.entry) == frame % PPN_SPAN
      ensures r.Ok? && !IsValid(flags) ==> WalkSpec(mem.words, root, page) == Err(InvalidEntry)
    {
      var slot := Create(mem, supply, page);
      ghost var w1 := mem.words;
      forall q | VpnIndexes(q) != VpnIndexes(page) && WalkSpec(old(mem.words), root, q).Ok?
        ensures WalkSpec(w1, root, q) == WalkSpec(old(mem.words), root, q)
      {
        KeptWalk(old(mem.words), w1, old(level), root, q);
      }
      if slot.Err? {
        return Err(slot.error);
      }
      var idx := VpnIndexes(page);
      ghost var leafTable := Descend(mem.words, root, idx[..2]).value;
      var entry := SetPpn(SetFlags(slot.value.entry, flags), frame);
      WriteLeafWalk(w1, level, root, page, leafTable, entry);
      forall q | VpnIndexes(q) != VpnIndexes(page) && WalkSpec(w1, root, q).Ok?
        ensures WalkSpec(w1[slot.value.pa := entry], root, q) == WalkSpec(w1, root, q)
      {
        WriteLeafKeepsOthers(w1, level, root, page, leafTable, entry, q);
      }
      mem.Write(slot.value.pa, entry);
      KeepsValidUpperTrans(old(mem.words), w1, mem.words, old(level), level);
      r := Ok(());
    }

    /** `unmap`: zero the leaf entry of `page` when the walk reaches it; otherwise change nothing. */
    method Unmap(mem: Memory, page: Usize)
      requires Valid(mem)
      modifies mem
      ensures Valid(mem)
      ensures WalkSpec(old(mem.words), root, page).Err? ==> mem.words == old(mem.words)
      ensures WalkSpec(old(mem.words), root, page).Ok? ==>
        mem.words == old(mem.words)[WalkSpec(old(mem.words), root, page).value.pa := 0]
      ensures WalkSpec(mem.words, root, page).Err?
      ensures KeepsValidUpper(old(mem.words), mem.words, level)
    {
      var slot := Walk(mem, page);
      if slot.Err? {
        return;
      }
      var idx := VpnIndexes(page);
      ghost var leafTable := Descend(mem.words, root, idx[..2]).value;
      WriteLeafWalk(mem.words, level, root, page, leafTable, 0);
      mem.Write(slot.value.pa, 0);
    }

    /** `translate`: the start of the leaf frame of the page holding `va`, plus `va`'s page offset. */
    method Translate(mem: Memory, va: Usize) returns (r: Result<Usize, PtError>)
      ensures r == TranslateSpec(mem.words, root, va)
    {
      var slot := Walk(mem, Ceil(va));
      if slot.Err? {
        return Err(slot.error);
      }
      var offset := PageOffset(va);
      var pa := StartAddress(CanonicalizePa, Frame(slot.value.entry));
      r := Ok(AddrAdd(CanonicalizePa, pa, offset));
    }
  }

  /** `PageTable::new`: a table over a freshly allocated, zeroed root frame, or an error when no frame is left. */
  method NewPageTable(mem: Memory, supply: FrameSupply) returns (r: Result<PageTable, PtError>)
    requires supply.Valid()
    modifies mem, supply
    ensures supply.Valid()
    ensures r.Err? ==> r.error == FrameAllocFailed && old(supply.free) == [] && supply.free == []
    ensures r.Ok? ==>
      fresh(r.value) && r.value.Valid(mem) && r.value.FreshFor(supply) &&
      old(supply.free) != [] && r.value.root == old(supply.free)[0] && r.value.frames == [r.value.root] &&
      supply.free == old(supply.free)[1..]
  {
    if supply.free == [] {
      return Err(FrameAllocFailed);
    }
    var table := new PageTable(mem, supply);
    r := Ok(table);
  }

  /** The descent fails only on an invalid entry. */
  lemma {:induction false} DescendErrorIsInvalidEntry(words: map<nat, Usize>, link: Usize, s: seq<nat>)
    requires IndexesOk(s)
    decreases |s|
    ensures Descend(words, link, s).Err? ==> Descend(words, link, s).error == InvalidEntry
  {
    if |s| > 0 {
      match Step(words, link, s[0])
      case Err(_) =>
      case Ok(next) => DescendErrorIsInvalidEntry(words, next, s[1..]);
    }
  }

  /** The walk fails only on an invalid entry. */
  lemma WalkErrorIsInvalidEntry(words: map<nat, Usize>, root: Usize, page: Usize)
    ensures WalkSpec(words, root, page).Err? ==> WalkSpec(words, root, page).error == InvalidEntry
  {
    DescendErrorIsInvalidEntry(words, root, VpnIndexes(page)[..2]);
  }

  /** An invalid entry at step `j` of the path of `page` makes the whole walk fail. */
  lemma StepFailsWalk(words: map<nat, Usize>, root: Usize, page: Usize, j: nat, link: Usize)
    requires j < 3
    requires Descend(words, root, VpnIndexes(page)[..j]) == Ok(link)
    requires Step(words, link, VpnIndexes(page)[j]).Err?
    ensures WalkSpec(words, root, page) == Err(InvalidEntry)
  {
    var idx := VpnIndexes(page);
    DescendSnoc(words, root, idx[..j], idx[j]);
    assert idx[..j] + [idx[j]] == idx[..j + 1];
    WalkSpecIsDescent(words, root, page);
    if j < 2 {
      assert idx == idx[..j + 1] + idx[j + 1..];
      DescendAppendErr(words, root, idx[..j + 1], idx[j + 1..]);
    }
    DescendErrorIsInvalidEntry(words, root, idx[..2]);
  }

  /** Once a prefix of the indexes fails, the whole descent fails. */
  lemma {:induction false} DescendAppendErr(words: map<nat, Usize>, link: Usize, s: seq<nat>, rest: seq<nat>)
    requires IndexesOk(s) && IndexesOk(rest)
    decreases |s|
    requires Descend(words, link, s).Err?
    ensures IndexesOk(s + rest)
    ensures Descend(words, link, s + rest).Err?
  {
    assert |s| > 0;
    assert (s + rest)[0] == s[0];
    assert (s + rest)[1..] == s[1..] + rest;
    match Step(words, link, s[0])
    case Err(_) =>
    case Ok(next) => DescendAppendErr(words, next, s[1..], rest);
  }

  /**
   * Installing a zeroed table `nf` (not owned before) under the invalid entry
   * `index` of owned table `link` keeps the tables linked, with `nf` one level
   * below `link`, and keeps every valid upper entry.
   */
  lemma InstallKeepsLinks(w0: map<nat, Usize>, w1: map<nat, Usize>, w2: map<nat, Usize>,
                          level: map<Usize, nat>, link: Usize, index: nat, nf: Usize, e: Usize)
    requires Linked(w0, level)
    requires forall t :: t in level ==> t < FRAME_SPAN && level[t] <= 2
    requires link in level && level[link] < 2 && index < ENTRIES
    requires nf < FRAME_SPAN && nf !in level
    requires !IsValid(FlagsOf(ReadWord(w0, FromIndex(link, index))))
    requires forall a :: InFrame(a, nf) ==> ReadWord(w1, a) == 0
    requires forall a :: !InFrame(a, nf) ==> ReadWord(w1, a) == ReadWord(w0, a)
    requires IsValid(FlagsOf(e)) && Frame(e) == nf
    requires w2 == w1[FromIndex(link, index) := e]
    ensures Linked(w2, level[nf := level[link] + 1])
    ensures KeepsValidUpper(w0, w2, level)
    ensures KeepsLeaves(w0, w2, level)
  {
    var pa := FromIndex(link, index);
    var level2 := level[nf := level[link] + 1];
    forall t: Usize, i: Usize | t in level2 && level2[t] < 2 && i < ENTRIES && IsValid(FlagsOf(ReadWord(w2, FromIndex(t, i))))
      ensures Frame(ReadWord(w2, FromIndex(t, i))) in level2 &&
        level2[Frame(ReadWord(w2, FromIndex(t, i)))] == level2[t] + 1
    {
      SlotInItsFrame(t, i, nf);
      SlotInItsFrame(link, index, nf);
      if t != nf && (t != link || i != index) {
        FromIndexInjective(t, i, link, index);
        assert ReadWord(w2, FromIndex(t, i)) == ReadWord(w0, FromIndex(t, i));
      }
    }
    forall t: Usize, i: Usize | t in level && level[t] < 2 && i < ENTRIES && IsValid(FlagsOf(ReadWord(w0, FromIndex(t, i))))
      ensures ReadWord(w2, FromIndex(t, i)) == ReadWord(w0, FromIndex(t, i))
    {
      SlotInItsFrame(t, i, nf);
      if t != link || i != index {
        FromIndexInjective(t, i, link, index);
      }
    }
    forall t: Usize, i: Usize | t in level && level[t] == 2 && i < ENTRIES
      ensures ReadWord(w2, FromIndex(t, i)) == ReadWord(w0, FromIndex(t, i))
    {
      SlotInItsFrame(t, i, nf);
      FromIndexInjective(t, i, link, index);
    }
  }

  /**
   * Installing fresh table `nf` under the invalid entry `index` of `link`
   * keeps the tables a tree: the new entry is the only one naming `nf`.
   */
  lemma InstallKeepsTree(w0: map<nat, Usize>, w1: map<nat, Usize>, w2: map<nat, Usize>,
                         level: map<Usize, nat>, link: Usize, index: nat, nf: Usize, e: Usize)
    requires Linked(w0, level) && Tree(w0, level)
    requires forall t :: t in level ==> t < FRAME_SPAN && level[t] <= 2
    requires link in level && level[link] < 2 && index < ENTRIES
    requires nf < FRAME_SPAN && nf !in level
    requires forall a :: InFrame(a, nf) ==> ReadWord(w1, a) == 0
    requires forall a :: !InFrame(a, nf) ==> ReadWord(w1, a) == ReadWord(w0, a)
    requires Frame(e) == nf
    requires w2 == w1[FromIndex(link, index) := e]
    ensures Tree(w2, level[nf := level[link] + 1])
  {
    var level2 := level[nf := level[link] + 1];
    forall t: Usize, i: Usize | t in level2 && level2[t] < 2 && i < ENTRIES && IsValid(FlagsOf(ReadWord(w2, FromIndex(t, i))))
      ensures (t == link && i == index) ||
        (t in level && IsValid(FlagsOf(ReadWord(w0, FromIndex(t, i)))) && ReadWord(w2, FromIndex(t, i)) == ReadWord(w0, FromIndex(t, i)))
    {
      SlotInItsFrame(t, i, nf);
      SlotInItsFrame(link, index, nf);
      if t != link || i != index {
        FromIndexInjective(t, i, link, index);
      }
    }
  }

  /**
   * What a creating walk may do to the state: move frames from the front of
   * the supply into the table, keep the depth of every owned frame, and keep
   * every valid upper entry; taking no frame changes nothing.
   */
  ghost predicate Grows(w0: map<nat, Usize>, f0: seq<Usize>, l0: map<Usize, nat>, free0: seq<Usize>,
                        w1: map<nat, Usize>, f1: seq<Usize>, l1: map<Usize, nat>, free1: seq<Usize>)
  {
    f1 + free1 == f0 + free0 && f0 <= f1 &&
    (forall t :: t in l0 ==> t in l1 && l1[t] == l0[t]) &&
    KeepsValidUpper(w0, w1, l0) && KeepsLeaves(w0, w1, l0) &&
    (|f1| == |f0| ==> w1 == w0 && l1 == l0 && free1 == free0)
  }

  /** Extending the prefix of `s` of length `j` by its next element gives the prefix of length `j + 1`. */
  lemma PrefixSnoc(s: seq<nat>, j: nat)
    requires j < |s|
    ensures s[..j] + [s[j]] == s[..j + 1]
  {
  }

  lemma GrowsTrans(w0: map<nat, Usize>, f0: seq<Usize>, l0: map<Usize, nat>, free0: seq<Usize>,
                   w1: map<nat, Usize>, f1: seq<Usize>, l1: map<Usize, nat>, free1: seq<Usize>,
                   w2: map<nat, Usize>, f2: seq<Usize>, l2: map<Usize, nat>, free2: seq<Usize>)
    requires Grows(w0, f0, l0, free0, w1, f1, l1, free1) && Grows(w1, f1, l1, free1, w2, f2, l2, free2)
    ensures Grows(w0, f0, l0, free0, w2, f2, l2, free2)
  {
    KeepsValidUpperTrans(w0, w1, w2, l0, l1);
  }

  lemma KeepsValidUpperTrans(wa: map<nat, Usize>, wb: map<nat, Usize>, wc: map<nat, Usize>,
                             la: map<Usize, nat>, lb: map<Usize, nat>)
    requires KeepsValidUpper(wa, wb, la) && KeepsValidUpper(wb, wc, lb)
    requires forall t :: t in la ==> t in lb && lb[t] == la[t]
    ensures KeepsValidUpper(wa, wc, la)
  {
  }
}
