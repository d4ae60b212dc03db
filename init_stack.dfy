/**
 * `InitStack`, the initial user stack a loaded program starts with: the
 * argument and environment strings, the auxiliary vector, the pointer
 * arrays and `argc`, pushed downward from a base address. The stack is
 * tracked twice, by its physical address (where the kernel writes) and by
 * its virtual address (what the pointers on the stack hold). The written
 * bytes are the sequence `data` between `sp` and `base`.
 */
module Loader {
  import opened Addr
  import opened Bytes

  /** `AuxType::AT_RANDOM`: its entry holds the address of the 16 random bytes. */
  const AT_RANDOM: Usize := 25

  /** `x` rounded down to a multiple of `align`. */
  function AlignDown(x: nat, align: nat): (r: nat)
    requires align == 1 || align == 8
    ensures r <= x && r % align == 0 && x - r < align
  {
    if align == 1 then x else x - x % 8
  }

  function Zeros(n: nat): (r: seq<Byte>)
    ensures |r| == n && forall i :: 0 <= i < n ==> r[i] == 0
  {
    seq(n, i => 0)
  }

  function Pow256(k: nat): (r: nat)
    ensures r >= 1
  {
    if k == 0 then 1 else 256 * Pow256(k - 1)
  }

  /** The low `k` bytes of `x`, least significant first, as a `usize` lies in memory. */
  function LeBytes(x: nat, k: nat): (r: seq<Byte>)
    ensures |r| == k
  {
    if k == 0 then [] else [x % 256] + LeBytes(x / 256, k - 1)
  }

  /** The number whose little-endian bytes are `b`. */
  function Decode(b: seq<Byte>): nat
  {
    if b == [] then 0 else b[0] + 256 * Decode(b[1..])
  }

  /** Reading back a number that fits in `k` bytes gives the number. */
  lemma {:induction false} DecodeLeBytes(x: nat, k: nat)
    requires x < Pow256(k)
    ensures Decode(LeBytes(x, k)) == x
  {
    if k > 0 {
      assert x / 256 < Pow256(k - 1);
      DecodeLeBytes(x / 256, k - 1);
      assert LeBytes(x, k)[1..] == LeBytes(x / 256, k - 1);
    }
  }

  lemma WordFits(x: Usize)
    ensures x < Pow256(8)
  {
    assert Pow256(8) == U64;
  }

  /** A slice of `usize` values as the bytes `push_slice` copies. */
  function Words(ws: seq<Usize>): (r: seq<Byte>)
    ensures |r| == 8 * |ws|
  {
    if ws == [] then [] else LeBytes(ws[0], 8) + Words(ws[1..])
  }

  lemma {:induction false} WordsAppend(a: seq<Usize>, b: seq<Usize>)
    ensures Words(a + b) == Words(a) + Words(b)
  {
    if a == [] {
      assert a + b == b;
    } else {
      assert (a + b)[1..] == a[1..] + b;
      WordsAppend(a[1..], b);
    }
  }

  /**
   * `s` followed by its NUL lies in `data` starting `fromEnd` bytes below
   * the base: a position that later pushes, which only add below, keep.
   */
  predicate StrAt(data: seq<Byte>, fromEnd: nat, s: seq<Byte>)
  {
    |s| + 1 <= fromEnd <= |data| && data[|data| - fromEnd..|data| - fromEnd + |s| + 1] == s + [0]
  }

  /** Each pointer of `ptrs` points, below `vbase`, at its string of `ss`. */
  predicate AllAt(data: seq<Byte>, vbase: nat, ptrs: seq<nat>, ss: seq<seq<Byte>>)
  {
    |ptrs| == |ss| &&
    forall j :: 0 <= j < |ptrs| ==> ptrs[j] <= vbase && StrAt(data, vbase - ptrs[j], ss[j])
  }

  /** `small` is what `big` ends with: pushes only add in front. */
  predicate IsSuffix(small: seq<Byte>, big: seq<Byte>)
  {
    |small| <= |big| && big[|big| - |small|..] == small
  }

  lemma SuffixTrans(a: seq<Byte>, b: seq<Byte>, c: seq<Byte>)
    requires IsSuffix(a, b) && IsSuffix(b, c)
    ensures IsSuffix(a, c)
  {
    assert c[|c| - |a|..] == c[|c| - |b|..][|b| - |a|..];
  }

  /** Strings placed below the base stay where they are when more is pushed below them. */
  lemma SuffixKeeps(data: seq<Byte>, grown: seq<Byte>, vbase: nat, ptrs: seq<nat>, ss: seq<seq<Byte>>)
    requires IsSuffix(data, grown)
    requires AllAt(data, vbase, ptrs, ss)
    ensures AllAt(grown, vbase, ptrs, ss)
  {
    var x := |grown| - |data|;
    forall j | 0 <= j < |ptrs|
      ensures StrAt(grown, vbase - ptrs[j], ss[j])
    {
      var lo := |data| - (vbase - ptrs[j]);
      var n := |ss[j]| + 1;
      assert grown[x..] == data;
      assert grown[x + lo..x + lo + n] == grown[x..][lo..lo + n];
    }
  }

  lemma AllAtSnoc(data: seq<Byte>, vbase: nat, ptrs: seq<nat>, ss: seq<seq<Byte>>, p: nat, s: seq<Byte>)
    requires AllAt(data, vbase, ptrs, ss) && p <= vbase && StrAt(data, vbase - p, s)
    ensures AllAt(data, vbase, ptrs + [p], ss + [s])
  {
  }

  /** Each pointer of `ptrs`, read as an offset from `vsp` into `data`, finds its string of `ss` and the NUL. */
  predicate FoundFromSp(data: seq<Byte>, vsp: nat, ptrs: seq<nat>, ss: seq<seq<Byte>>)
  {
    |ptrs| == |ss| &&
    forall j :: 0 <= j < |ss| ==>
      vsp <= ptrs[j] &&
      ptrs[j] - vsp + |ss[j]| + 1 <= |data| &&
      data[ptrs[j] - vsp..ptrs[j] - vsp + |ss[j]| + 1] == ss[j] + [0]
  }

  /** With `data` running from `vsp` up to `vbase`, pointers placed below `vbase` are found from `vsp`. */
  lemma AllAtFromSp(data: seq<Byte>, vbase: nat, vsp: nat, ptrs: seq<nat>, ss: seq<seq<Byte>>)
    requires AllAt(data, vbase, ptrs, ss) && vsp + |data| == vbase
    ensures FoundFromSp(data, vsp, ptrs, ss)
  {
    forall j | 0 <= j < |ss|
      ensures vsp <= ptrs[j] && ptrs[j] - vsp + |ss[j]| + 1 <= |data|
    {
      assert StrAt(data, vbase - ptrs[j], ss[j]);
    }
  }

  /** Bytes the strings of `ss` take with their NULs. */
  function StrNeed(ss: seq<seq<Byte>>): nat
  {
    if ss == [] then 0 else |ss[0]| + 1 + StrNeed(ss[1..])
  }

  /**
   * Room `serialize` uses: every string and word, and up to 7 bytes of
   * alignment for the two word pushes that follow strings.
   */
  function Need(args: seq<seq<Byte>>, envs: seq<seq<Byte>>, auxv: seq<(Usize, Usize)>): nat
    requires |args| > 0
  {
    StringAreaNeed(args, envs) + TableNeed(|auxv|, |envs|, |args|)
  }

  /** Room for the strings and the random bytes, with up to 7 bytes aligning the latter. */
  function StringAreaNeed(args: seq<seq<Byte>>, envs: seq<seq<Byte>>): nat
    requires |args| > 0
  {
    |args[0]| + 1 + 23 + StrNeed(envs) + StrNeed(args)
  }

  /** Room for the padding (with up to 7 bytes aligning it), the auxiliary entries, the pointers and `argc`. */
  function TableNeed(auxc: nat, envc: nat, argc: nat): nat
  {
    23 + 16 * auxc + 8 * (envc + argc + 3)
  }

  class InitStack {
    var sp: Usize
    const base: Usize
    var vsp: Usize
    const vbase: Usize
    var data: seq<Byte>

    /** Both pointers are below their bases, and exactly the bytes between `sp` and `base` are written. */
    predicate Valid()
      reads this
    {
      sp <= base && vsp <= vbase && |data| == base - sp
    }

    /** The physical and virtual stacks have grown alike and share their alignment. */
    predicate Lockstep()
      reads this
    {
      base - sp == vbase - vsp && sp % 8 == vsp % 8
    }

    /** `new`: an empty stack with both pointers at their bases. */
    constructor (sp: Usize, vsp: Usize)
      ensures Valid() && this.sp == sp && base == sp && this.vsp == vsp && vbase == vsp && data == []
      ensures sp % 8 == vsp % 8 ==> Lockstep()
    {
      this.sp := sp;
      base := sp;
      this.vsp := vsp;
      vbase := vsp;
      data := [];
    }

    /** `deref`: the written bytes, exactly `base - sp` of them. */
    function Deref(): (r: seq<Byte>)
      requires Valid()
      reads this
      ensures |r| == base - sp
      ensures r == data
    {
      data
    }

    /**
     * `push_slice`: both pointers drop by the slice's size and then down to
     * its alignment, the slice is copied to the new `sp` above the padding,
     * and the new `vsp` is returned. The slice must fit below `sp`; the
     * caller maps the stack's pages first.
     */
    method PushSlice(bytes: seq<Byte>, align: nat) returns (r: Usize)
      requires Valid() && (align == 1 || align == 8) && |bytes| <= sp && |bytes| <= vsp
      modifies this
      ensures Valid()
      ensures sp == AlignDown(old(sp) - |bytes|, align)
      ensures vsp == AlignDown(old(vsp) - |bytes|, align) && r == vsp
      ensures data == bytes + Zeros(old(sp) - |bytes| - sp) + old(data)
      ensures old(sp) - sp < |bytes| + align && old(vsp) - vsp < |bytes| + align
      ensures IsSuffix(old(data), data)
      ensures old(sp) % align == 0 && |bytes| % align == 0 ==> data == bytes + old(data) && sp == old(sp) - |bytes|
      ensures old(vsp) % align == 0 && |bytes| % align == 0 ==> vsp == old(vsp) - |bytes|
      ensures old(Lockstep()) ==> Lockstep()
    {
      ghost var oldSp := sp;
      ghost var oldVsp := vsp;
      var low := sp - |bytes|;
      sp := AlignDown(low, align);
      data := bytes + Zeros(low - sp) + data;
      vsp := AlignDown(vsp - |bytes|, align);
      r := vsp;
      assert data[|data| - |old(data)|..] == old(data);
      AlignDownExact(oldSp, |bytes|, align);
      AlignDownExact(oldVsp, |bytes|, align);
      if old(Lockstep()) {
        SameShift(oldSp, oldVsp, |bytes|, align);
      }
    }

    /** `push_str`: the string and a NUL terminator, with no alignment; returns the new `vsp`. */
    method PushStr(s: seq<Byte>) returns (r: Usize)
      requires Valid() && |s| + 1 <= sp && |s| + 1 <= vsp
      modifies this
      ensures Valid()
      ensures data == s + [0] + old(data) && IsSuffix(old(data), data)
      ensures sp == old(sp) - |s| - 1 && vsp == old(vsp) - |s| - 1 && r == vsp
      ensures old(Lockstep()) ==> Lockstep() && StrAt(data, vbase - r, s)
    {
      r := PushSlice([0], 1);
      r := PushSlice(s, 1);
      assert Zeros(0) == [];
    }

    /** `push_slice` of a slice of `usize` values onto a stack aligned to 8: no padding is needed. */
    method PushWords(ws: seq<Usize>) returns (r: Usize)
      requires Valid() && sp % 8 == 0 && vsp % 8 == 0 && 8 * |ws| <= sp && 8 * |ws| <= vsp
      modifies this
      ensures Valid() && sp % 8 == 0 && vsp % 8 == 0
      ensures data == Words(ws) + old(data) && IsSuffix(old(data), data)
      ensures sp == old(sp) - 8 * |ws| && vsp == old(vsp) - 8 * |ws| && r == vsp
      ensures old(Lockstep()) ==> Lockstep()
    {
      assert (8 * |ws|) % 8 == 0;
      r := PushSlice(Words(ws), 8);
    }
  }

  /** Lowering an aligned address by a multiple of the alignment needs no padding. */
  lemma AlignDownExact(x: nat, n: nat, align: nat)
    requires (align == 1 || align == 8) && n <= x
    ensures x % align == 0 && n % align == 0 ==> AlignDown(x - n, align) == x - n
  {
    if align == 8 && x % 8 == 0 && n % 8 == 0 {
      assert x == 8 * (x / 8) && n == 8 * (n / 8);
      assert x - n == 8 * (x / 8 - n / 8);
    }
  }

  /** Two addresses equal modulo 8 drop alike, and stay so, when lowered by `n` and aligned to 1 or 8. */
  lemma SameShift(x: nat, y: nat, n: nat, align: nat)
    requires (align == 1 || align == 8) && x % 8 == y % 8 && n <= x && n <= y
    ensures x - AlignDown(x - n, align) == y - AlignDown(y - n, align)
    ensures AlignDown(x - n, align) % 8 == AlignDown(y - n, align) % 8
  {
    assert x == 8 * (x / 8) + x % 8 && y == 8 * (y / 8) + y % 8;
    var d := x / 8 - y / 8;
    assert x - y == 8 * d;
    var u, v := x - n, y - n;
    assert u == v + 8 * d;
    assert u % 8 == v % 8 by {
      assert v == 8 * (v / 8) + v % 8;
      assert u == 8 * (v / 8 + d) + v % 8;
    }
    if align == 8 {
      assert AlignDown(u, 8) == AlignDown(v, 8) + 8 * d;
      assert AlignDown(u, 8) % 8 == 0 && AlignDown(v, 8) % 8 == 0;
    }
  }

  /**
   * Pushes each string of `ss` in turn with `push_str`, collecting the
   * returned pointers; what lies above is kept.
   */
  method PushStrings(stack: InitStack, ss: seq<seq<Byte>>) returns (ptrs: seq<Usize>)
    requires stack.Valid() && StrNeed(ss) <= stack.sp && StrNeed(ss) <= stack.vsp
    modifies stack
    ensures stack.Valid() && |ptrs| == |ss|
    ensures stack.sp == old(stack.sp) - StrNeed(ss) && stack.vsp == old(stack.vsp) - StrNeed(ss)
    ensures IsSuffix(old(stack.data), stack.data)
    ensures old(stack.Lockstep()) ==> stack.Lockstep() && AllAt(stack.data, stack.vbase, ptrs, ss)
  {
    ptrs := [];
    var i := 0;
    while i < |ss|
      invariant i <= |ss| && |ptrs| == i
      invariant stack.Valid()
      invariant stack.sp + StrNeed(ss[..i]) == old(stack.sp) && stack.vsp + StrNeed(ss[..i]) == old(stack.vsp)
      invariant StrNeed(ss) == StrNeed(ss[..i]) + StrNeed(ss[i..])
      invariant IsSuffix(old(stack.data), stack.data)
      invariant old(stack.Lockstep()) ==> stack.Lockstep() && AllAt(stack.data, stack.vbase, ptrs, ss[..i])
    {
      StrNeedSplit(ss, i);
      ghost var before := stack.data;
      var p := stack.PushStr(ss[i]);
      SuffixTrans(old(stack.data), before, stack.data);
      if old(stack.Lockstep()) {
        SuffixKeeps(before, stack.data, stack.vbase, ptrs, ss[..i]);
        assert ss[..i + 1] == ss[..i] + [ss[i]];
        AllAtSnoc(stack.data, stack.vbase, ptrs, ss[..i], p, ss[i]);
      }
      ptrs := ptrs + [p];
      i := i + 1;
    }
    assert ss[..|ss|] == ss;
  }

  lemma {:induction false} StrNeedAppend(a: seq<seq<Byte>>, b: seq<seq<Byte>>)
    ensures StrNeed(a + b) == StrNeed(a) + StrNeed(b)
  {
    if a == [] {
      assert a + b == b;
    } else {
      assert (a + b)[1..] == a[1..] + b;
      StrNeedAppend(a[1..], b);
    }
  }

  /** Splitting off one more string at `i`. */
  lemma StrNeedSplit(ss: seq<seq<Byte>>, i: nat)
    requires i < |ss|
    ensures StrNeed(ss[..i + 1]) == StrNeed(ss[..i]) + |ss[i]| + 1
    ensures StrNeed(ss) == StrNeed(ss[..i]) + StrNeed(ss[i..])
  {
    assert ss[..i + 1] == ss[..i] + [ss[i]];
    StrNeedAppend(ss[..i], [ss[i]]);
    assert StrNeed([ss[i]]) == |ss[i]| + 1 + StrNeed([]);
    assert ss == ss[..i] + ss[i..];
    StrNeedAppend(ss[..i], ss[i..]);
  }

  /** The two words `serialize` pushes for the auxiliary entry `e`: `AT_RANDOM`'s value is the address of the random bytes. */
  function AuxPair(e: (Usize, Usize), random: Usize): (r: seq<Usize>)
    ensures |r| == 2 && r[0] == e.0
    ensures r[1] == (if e.0 == AT_RANDOM then random else e.1)
  {
    [e.0, if e.0 == AT_RANDOM then random else e.1]
  }

  /**
   * The words of the auxiliary table as they lie from low to high address:
   * each entry is pushed below the previous one, so entry `k` of `auxv`
   * sits `|auxv| - 1 - k` pairs above the lowest.
   */
  function AuxTable(auxv: seq<(Usize, Usize)>, random: Usize): (r: seq<Usize>)
    ensures |r| == 2 * |auxv|
    ensures forall k :: 0 <= k < |auxv| ==>
      r[2 * (|auxv| - 1 - k)] == auxv[k].0 && r[2 * (|auxv| - 1 - k) + 1] == AuxPair(auxv[k], random)[1]
  {
    if auxv == [] then []
    else
      var n := |auxv|;
      var rest := AuxTable(auxv[..n - 1], random);
      assert forall k :: 0 <= k < n - 1 ==> auxv[..n - 1][k] == auxv[k];
      AuxPair(auxv[n - 1], random) + rest
  }

  /**
   * The words at the top of the stack `serialize` builds, from `sp` up:
   * `argc`, the argument pointers, a NULL, the environment pointers, a
   * NULL, the auxiliary table and the two NULL words of padding.
   */
  function TableWords(argc: Usize, argv: seq<Usize>, envp: seq<Usize>, auxv: seq<(Usize, Usize)>, random: Usize): (r: seq<Usize>)
    ensures |r| == |argv| + |envp| + 2 * |auxv| + 5
    ensures r[0] == argc && r[1 + |argv|] == 0 && r[2 + |argv| + |envp|] == 0
    ensures forall j :: 0 <= j < |argv| ==> r[1 + j] == argv[j]
    ensures forall j :: 0 <= j < |envp| ==> r[2 + |argv| + j] == envp[j]
    ensures forall k :: 0 <= k < |auxv| ==>
      r[3 + |argv| + |envp| + 2 * (|auxv| - 1 - k)] == auxv[k].0 &&
      r[3 + |argv| + |envp| + 2 * (|auxv| - 1 - k) + 1] == AuxPair(auxv[k], random)[1]
    ensures r[|r| - 2] == 0 && r[|r| - 1] == 0
  {
    var low := [argc] + argv + [0] + envp + [0];
    var aux := AuxTable(auxv, random);
    assert forall k :: 0 <= k < |aux| ==> (low + aux + [0, 0])[|low| + k] == aux[k];
    low + aux + [0, 0]
  }

  /** One more auxiliary entry: its pair goes below the table of the earlier ones. */
  lemma AuxTableSnoc(auxv: seq<(Usize, Usize)>, k: nat, random: Usize)
    requires k < |auxv|
    ensures AuxTable(auxv[..k + 1], random) == AuxPair(auxv[k], random) + AuxTable(auxv[..k], random)
  {
    assert auxv[..k + 1][..k] == auxv[..k];
  }

  /** One more auxiliary pair pushed in front of the table so far gives the table one entry longer. */
  lemma AuxStep(auxv: seq<(Usize, Usize)>, k: nat, random: Usize, rest: seq<Byte>, before: seq<Byte>, after: seq<Byte>)
    requires k < |auxv|
    requires before == Words(AuxTable(auxv[..k], random)) + rest
    requires after == Words(AuxPair(auxv[k], random)) + before
    ensures after == Words(AuxTable(auxv[..k + 1], random)) + rest
  {
    AuxTableSnoc(auxv, k, random);
    PrependWords(AuxPair(auxv[k], random), AuxTable(auxv[..k], random), rest, after);
  }

  /** Words pushed in front of words already pushed read as one run. */
  lemma PrependWords(x: seq<Usize>, ws: seq<Usize>, rest: seq<Byte>, data: seq<Byte>)
    requires data == Words(x) + (Words(ws) + rest)
    ensures data == Words(x + ws) + rest
  {
    WordsAppend(x, ws);
  }

  /** The auxiliary entries as pairs of words, `AT_RANDOM`'s value replaced by `random`, each pair below the previous. */
  method PushAux(stack: InitStack, auxv: seq<(Usize, Usize)>, random: Usize)
    requires stack.Valid() && stack.sp % 8 == 0 && stack.vsp % 8 == 0
    requires 16 * |auxv| <= stack.sp && 16 * |auxv| <= stack.vsp
    modifies stack
    ensures stack.Valid() && stack.sp % 8 == 0 && stack.vsp % 8 == 0
    ensures stack.sp == old(stack.sp) - 16 * |auxv| && stack.vsp == old(stack.vsp) - 16 * |auxv|
    ensures stack.data == Words(AuxTable(auxv, random)) + old(stack.data)
    ensures IsSuffix(old(stack.data), stack.data)
    ensures old(stack.Lockstep()) ==> stack.Lockstep()
  {
    var k := 0;
    while k < |auxv|
      invariant k <= |auxv|
      invariant stack.Valid() && stack.sp % 8 == 0 && stack.vsp % 8 == 0
      invariant stack.sp == old(stack.sp) - 16 * k && stack.vsp == old(stack.vsp) - 16 * k
      invariant stack.data == Words(AuxTable(auxv[..k], random)) + old(stack.data)
      invariant IsSuffix(old(stack.data), stack.data)
      invariant old(stack.Lockstep()) ==> stack.Lockstep()
    {
      var (kind, value) := auxv[k];
      ghost var before := stack.data;
      var pair;
      if kind == AT_RANDOM {
        pair := [kind, random];
      } else {
        pair := [kind, value];
      }
      assert pair == AuxPair(auxv[k], random);
      var _ := stack.PushWords(pair);
      AuxStep(auxv, k, random, old(stack.data), before, stack.data);
      SuffixTrans(old(stack.data), before, stack.data);
      k := k + 1;
    }
    assert auxv[..|auxv|] == auxv;
  }

  /** `b` lies in `data` starting `fromEnd` bytes below the base. */
  predicate BytesAt(data: seq<Byte>, fromEnd: nat, b: seq<Byte>)
  {
    |b| <= fromEnd <= |data| && data[|data| - fromEnd..|data| - fromEnd + |b|] == b
  }

  /** The 16 random bytes (two zero words) lie at address `random`, below `vbase`. */
  predicate RandomAt(data: seq<Byte>, vbase: nat, random: nat)
  {
    random <= vbase && BytesAt(data, vbase - random, Words([0, 0]))
  }

  /** Bytes placed below the base stay where they are when more is pushed below them. */
  lemma BytesAtKeeps(data: seq<Byte>, grown: seq<Byte>, fromEnd: nat, b: seq<Byte>)
    requires IsSuffix(data, grown) && BytesAt(data, fromEnd, b)
    ensures BytesAt(grown, fromEnd, b)
  {
    var x := |grown| - |data|;
    var lo := |data| - fromEnd;
    assert grown[x + lo..x + lo + |b|] == data[lo..lo + |b|];
  }

  lemma StrAtKeeps(data: seq<Byte>, grown: seq<Byte>, fromEnd: nat, s: seq<Byte>)
    requires IsSuffix(data, grown) && StrAt(data, fromEnd, s)
    ensures StrAt(grown, fromEnd, s)
  {
    BytesAtKeeps(data, grown, fromEnd, s + [0]);
  }

  /**
   * The head of the string area: the first argument string right below
   * what the stack held, then 16 random bytes (aligned to 8) whose address
   * is `random`.
   */
  method PushHead(stack: InitStack, first: seq<Byte>) returns (random: Usize)
    requires stack.Valid() && |first| + 24 <= stack.sp && |first| + 24 <= stack.vsp
    modifies stack
    ensures stack.Valid()
    ensures old(stack.sp) - stack.sp <= |first| + 24 && old(stack.vsp) - stack.vsp <= |first| + 24
    ensures IsSuffix(old(stack.data), stack.data)
    ensures StrAt(stack.data, |old(stack.data)| + |first| + 1, first)
    ensures old(stack.Lockstep()) ==> (stack.Lockstep() && random == stack.vsp && RandomAt(stack.data, stack.vbase, random))
  {
    ghost var d0 := stack.data;
    var _ := stack.PushStr(first);
    ghost var d1 := stack.data;
    assert StrAt(d1, |d0| + |first| + 1, first) by {
      assert d1[..|first| + 1] == first + [0];
    }
    ghost var pad;
    random, pad := PushNullPair(stack);
    SuffixTrans(d0, d1, stack.data);
    StrAtKeeps(d1, stack.data, |d0| + |first| + 1, first);
    TopBytes(stack.data, Words([0, 0]), pad);
  }

  lemma Regroup3(a: seq<Byte>, b: seq<Byte>, c: seq<Byte>)
    ensures a + b + c == a + (b + c)
  {
  }

  /** Two zero words, aligned to 8: the stack then starts with their 16 bytes over the padding. */
  method PushNullPair(stack: InitStack) returns (r: Usize, ghost pad: seq<Byte>)
    requires stack.Valid() && 16 <= stack.sp && 16 <= stack.vsp
    modifies stack
    ensures stack.Valid() && stack.sp % 8 == 0 && stack.vsp % 8 == 0 && r == stack.vsp
    ensures old(stack.sp) - stack.sp < 24 && old(stack.vsp) - stack.vsp < 24
    ensures stack.data == Words([0, 0]) + pad && IsSuffix(old(stack.data), stack.data)
    ensures old(stack.Lockstep()) ==> stack.Lockstep()
  {
    ghost var d0 := stack.data;
    ghost var sp0 := stack.sp;
    var head := Words([0, 0]);
    r := stack.PushSlice(head, 8);
    var zeros := Zeros(sp0 - |head| - stack.sp);
    pad := zeros + d0;
    Regroup3(head, zeros, d0);
  }

  /** Bytes pushed last lie at the top of the stack. */
  lemma TopBytes(data: seq<Byte>, b: seq<Byte>, rest: seq<Byte>)
    requires data == b + rest
    ensures BytesAt(data, |data|, b)
  {
    assert data[..|b|] == b;
  }

  /**
   * The string area of `serialize`: the first argument string right below
   * what the stack held, 16 random bytes (aligned to 8) whose address is
   * `random`, then the environment strings, whose pointers are `envp`,
   * and the argument strings, whose pointers are `argv`.
   */
  method PushStringArea(stack: InitStack, args: seq<seq<Byte>>, envs: seq<seq<Byte>>)
    returns (random: Usize, envp: seq<Usize>, argv: seq<Usize>)
    requires |args| > 0 && stack.Valid()
    requires StringAreaNeed(args, envs) <= stack.sp
    requires StringAreaNeed(args, envs) <= stack.vsp
    modifies stack
    ensures stack.Valid() && |envp| == |envs| && |argv| == |args|
    ensures old(stack.sp) - stack.sp <= StringAreaNeed(args, envs)
    ensures old(stack.vsp) - stack.vsp <= StringAreaNeed(args, envs)
    ensures IsSuffix(old(stack.data), stack.data)
    ensures StrAt(stack.data, |old(stack.data)| + |args[0]| + 1, args[0])
    ensures old(stack.Lockstep()) ==> (stack.Lockstep() &&
      AllAt(stack.data, stack.vbase, argv, args) && AllAt(stack.data, stack.vbase, envp, envs) &&
      RandomAt(stack.data, stack.vbase, random))
  {
    ghost var d0 := stack.data;
    ghost var lock := stack.Lockstep();
    random := PushHead(stack, args[0]);
    ghost var d1 := stack.data;
    envp := PushStrings(stack, envs);
    ghost var d2 := stack.data;
    argv := PushStrings(stack, args);
    AreaKept(d0, d1, d2, stack.data, |d0| + |args[0]| + 1, args[0], lock, stack.vbase, random, envp, envs);
  }

  /** What the head and the environment strings placed survives the pushes below them. */
  lemma AreaKept(d0: seq<Byte>, d1: seq<Byte>, d2: seq<Byte>, d3: seq<Byte>, fromEnd: nat, first: seq<Byte>,
                 lock: bool, vbase: nat, random: nat, envp: seq<nat>, envs: seq<seq<Byte>>)
    requires IsSuffix(d0, d1) && IsSuffix(d1, d2) && IsSuffix(d2, d3)
    requires StrAt(d1, fromEnd, first)
    requires lock ==> RandomAt(d1, vbase, random) && AllAt(d2, vbase, envp, envs)
    ensures IsSuffix(d0, d3) && StrAt(d3, fromEnd, first)
    ensures lock ==> RandomAt(d3, vbase, random) && AllAt(d3, vbase, envp, envs)
  {
    SuffixTrans(d1, d2, d3);
    SuffixTrans(d0, d1, d3);
    StrAtKeeps(d1, d3, fromEnd, first);
    if lock {
      BytesAtKeeps(d1, d3, vbase - random, Words([0, 0]));
      SuffixKeeps(d2, d3, vbase, envp, envs);
    }
  }

  /**
   * The word area of `serialize`: 16 bytes of padding (aligned to 8), the
   * auxiliary entries, a NULL, the environment pointers, a NULL, the
   * argument pointers and `argc`, so the stack starts with the words of
   * `TableWords`.
   */
  method PushTable(stack: InitStack, auxv: seq<(Usize, Usize)>, random: Usize, envp: seq<Usize>, argv: seq<Usize>, argc: Usize)
    requires stack.Valid()
    requires TableNeed(|auxv|, |envp|, |argv|) <= stack.sp
    requires TableNeed(|auxv|, |envp|, |argv|) <= stack.vsp
    modifies stack
    ensures stack.Valid()
    ensures 8 * |TableWords(argc, argv, envp, auxv, random)| <= |stack.data|
    ensures stack.data[..8 * |TableWords(argc, argv, envp, auxv, random)|] == Words(TableWords(argc, argv, envp, auxv, random))
    ensures IsSuffix(old(stack.data), stack.data)
    ensures old(stack.Lockstep()) ==> stack.Lockstep()
  {
    ghost var d0 := stack.data;
    var _, pad := PushNullPair(stack);
    ghost var d1 := stack.data;
    PushAux(stack, auxv, random);
    SuffixTrans(d0, d1, stack.data);
    ghost var d2 := stack.data;
    PushLowWords(stack, envp, argv, argc);
    SuffixTrans(d1, d2, stack.data);
    SuffixTrans(d0, d1, stack.data);
    TableLayout(stack.data, d2, d1, pad, argc, argv, envp, auxv, random);
  }

  /** The low words, over the auxiliary table, over the padding: the table's words. */
  lemma TableLayout(data: seq<Byte>, d2: seq<Byte>, d1: seq<Byte>, pad: seq<Byte>,
                    argc: Usize, argv: seq<Usize>, envp: seq<Usize>, auxv: seq<(Usize, Usize)>, random: Usize)
    requires d1 == Words([0, 0]) + pad
    requires d2 == Words(AuxTable(auxv, random)) + d1
    requires data == Words([argc] + argv + [0] + envp + [0]) + d2
    ensures var t := TableWords(argc, argv, envp, auxv, random); 8 * |t| <= |data| && data[..8 * |t|] == Words(t)
  {
    var low := [argc] + argv + [0] + envp + [0];
    var aux := AuxTable(auxv, random);
    WordsAppend(low, aux);
    WordsAppend(low + aux, [0, 0]);
    assert TableWords(argc, argv, envp, auxv, random) == low + aux + [0, 0];
    LowWordsPrefix(data, Words(low), Words(aux), Words([0, 0]), pad);
  }

  lemma LowWordsPrefix(data: seq<Byte>, a: seq<Byte>, b: seq<Byte>, c: seq<Byte>, rest: seq<Byte>)
    requires data == a + (b + (c + rest))
    ensures data[..|a| + |b| + |c|] == a + b + c
  {
  }

  /** The pointer arrays and `argc`, on a stack aligned to 8: the stack then starts with `argc`, `argv`, NULL, `envp`, NULL. */
  method PushLowWords(stack: InitStack, envp: seq<Usize>, argv: seq<Usize>, argc: Usize)
    requires stack.Valid() && stack.sp % 8 == 0 && stack.vsp % 8 == 0
    requires 8 * (|envp| + |argv| + 3) <= stack.sp && 8 * (|envp| + |argv| + 3) <= stack.vsp
    modifies stack
    ensures stack.Valid()
    ensures stack.data == Words([argc] + argv + [0] + envp + [0]) + old(stack.data)
    ensures IsSuffix(old(stack.data), stack.data)
    ensures old(stack.Lockstep()) ==> stack.Lockstep()
  {
    ghost var d0 := stack.data;
    var _ := stack.PushWords([0]);
    ghost var d1 := stack.data;
    var _ := stack.PushWords(envp);
    SuffixTrans(d0, d1, stack.data);
    ghost var d2 := stack.data;
    var _ := stack.PushWords([0]);
    SuffixTrans(d0, d2, stack.data);
    ghost var top := stack.data;
    var _ := stack.PushWords(argv);
    SuffixTrans(d0, top, stack.data);
    ghost var d4 := stack.data;
    var _ := stack.PushWords([argc]);
    SuffixTrans(d0, d4, stack.data);
    LowWords([argc], argv, [0], envp, [0], d0, stack.data);
  }

  /** Five runs of words pushed one below the other read as one run. */
  lemma LowWords(a: seq<Usize>, b: seq<Usize>, c: seq<Usize>, d: seq<Usize>, e: seq<Usize>, rest: seq<Byte>, data: seq<Byte>)
    requires data == Words(a) + (Words(b) + (Words(c) + (Words(d) + (Words(e) + rest))))
    ensures data == Words(a + b + c + d + e) + rest
  {
    var de := d + e;
    var cde := c + de;
    var bcde := b + cde;
    PrependWords(d, e, rest, Words(d) + (Words(e) + rest));
    PrependWords(c, de, rest, Words(c) + (Words(d) + (Words(e) + rest)));
    PrependWords(b, cde, rest, Words(b) + (Words(c) + (Words(d) + (Words(e) + rest))));
    PrependWords(a, bcde, rest, data);
    Regroup5(a, b, c, d, e);
  }

  lemma Regroup5(a: seq<Usize>, b: seq<Usize>, c: seq<Usize>, d: seq<Usize>, e: seq<Usize>)
    ensures a + (b + (c + (d + e))) == a + b + c + d + e
  {
  }

  /** A stack starting with the words of `argc`, `argv` and a NULL reads back `argc` from its first word. */
  lemma ArgcFirst(data: seq<Byte>, argc: Usize, argv: seq<Usize>)
    requires 8 * (|argv| + 2) <= |data| && data[..8 * (|argv| + 2)] == Words([argc] + argv + [0])
    ensures Decode(data[..8]) == argc
  {
    assert data[..8] == data[..8 * (|argv| + 2)][..8];
    assert Words([argc] + argv + [0])[..8] == LeBytes(argc, 8);
    WordFits(argc);
    DecodeLeBytes(argc, 8);
  }

  /** Word `i` of a stack starting with the words `ws` reads back as `ws[i]`. */
  lemma {:induction false} WordsRead(ws: seq<Usize>, i: nat)
    requires i < |ws|
    ensures Words(ws)[8 * i..8 * i + 8] == LeBytes(ws[i], 8)
  {
    if i > 0 {
      WordsRead(ws[1..], i - 1);
      assert Words(ws) == LeBytes(ws[0], 8) + Words(ws[1..]);
    }
  }

  /** Every word of `ws`, read from the top of `data`, is the word pushed. */
  predicate WordsAtTop(data: seq<Byte>, ws: seq<Usize>)
  {
    8 * |ws| <= |data| && forall i :: 0 <= i < |ws| ==> Decode(data[8 * i..8 * i + 8]) == ws[i]
  }

  lemma WordsTop(data: seq<Byte>, ws: seq<Usize>)
    requires 8 * |ws| <= |data| && data[..8 * |ws|] == Words(ws)
    ensures WordsAtTop(data, ws)
  {
    forall i | 0 <= i < |ws|
      ensures Decode(data[8 * i..8 * i + 8]) == ws[i]
    {
      PrefixSlice(data, Words(ws), 8 * i, 8 * i + 8);
      WordDecodes(ws, i);
    }
  }

  lemma PrefixSlice(data: seq<Byte>, p: seq<Byte>, lo: nat, hi: nat)
    requires |p| <= |data| && data[..|p|] == p && lo <= hi <= |p|
    ensures data[lo..hi] == p[lo..hi]
  {
    forall k | 0 <= k < hi - lo
      ensures data[lo..hi][k] == p[lo..hi][k]
    {
      assert data[..|p|][lo + k] == data[lo + k];
    }
  }

  lemma WordDecodes(ws: seq<Usize>, i: nat)
    requires i < |ws|
    ensures Decode(Words(ws)[8 * i..8 * i + 8]) == ws[i]
  {
    WordsRead(ws, i);
    WordFits(ws[i]);
    DecodeLeBytes(ws[i], 8);
  }

  /**
   * `serialize`: the string area, then the word area. Reading the stack
   * word by word from `sp` gives `argc`, the argument pointers, a NULL,
   * the environment pointers, a NULL, the auxiliary table (with
   * `AT_RANDOM`'s value the address of the random bytes) and the padding;
   * the first argument lies right at the base. When the physical and
   * virtual stacks start equally aligned, each argument and environment
   * pointer, read as an offset from `vsp`, finds its string, and `random`
   * finds the 16 random bytes.
   */
  method Serialize(args: seq<seq<Byte>>, envs: seq<seq<Byte>>, auxv: seq<(Usize, Usize)>, sp: Usize, vsp: Usize)
    returns (stack: InitStack, argv: seq<Usize>, envp: seq<Usize>, random: Usize)
    requires |args| > 0 && Need(args, envs, auxv) <= sp && Need(args, envs, auxv) <= vsp
    ensures stack.Valid() && |argv| == |args| && |envp| == |envs|
    ensures WordsAtTop(stack.data, TableWords(|args|, argv, envp, auxv, random))
    ensures 8 * (|args| + 2) <= |stack.data| && stack.data[..8 * (|args| + 2)] == Words([|args|] + argv + [0])
    ensures Decode(stack.data[..8]) == |args|
    ensures StrAt(stack.data, |args[0]| + 1, args[0])
    ensures sp % 8 == vsp % 8 ==>
      FoundFromSp(stack.data, stack.vsp, argv, args) && FoundFromSp(stack.data, stack.vsp, envp, envs) &&
      stack.vsp <= random && random - stack.vsp + 16 <= |stack.data| &&
      stack.data[random - stack.vsp..random - stack.vsp + 16] == Words([0, 0])
  {
    ghost var area := StringAreaNeed(args, envs);
    ghost var table := TableNeed(|auxv|, |envs|, |args|);
    assert area + table <= sp && area + table <= vsp && |args| < table;
    stack := new InitStack(sp, vsp);
    random, envp, argv := PushStringArea(stack, args, envs);
    assert table <= stack.sp && table <= stack.vsp;
    ghost var placed := stack.data;
    PushTable(stack, auxv, random, envp, argv, |args|);
    ghost var t := TableWords(|args|, argv, envp, auxv, random);
    WordsTop(stack.data, t);
    TableHead(stack.data, |args|, argv, envp, auxv, random);
    ArgcFirst(stack.data, |args|, argv);
    StrAtKeeps(placed, stack.data, |args[0]| + 1, args[0]);
    if sp % 8 == vsp % 8 {
      FoundAfterTable(placed, stack.data, vsp, stack.vsp, argv, args, envp, envs, random);
    }
  }

  /** The stack starting with the table's words starts with `argc`, the argument pointers and their NULL. */
  lemma TableHead(data: seq<Byte>, argc: Usize, argv: seq<Usize>, envp: seq<Usize>, auxv: seq<(Usize, Usize)>, random: Usize)
    requires var t := TableWords(argc, argv, envp, auxv, random); 8 * |t| <= |data| && data[..8 * |t|] == Words(t)
    ensures 8 * (|argv| + 2) <= |data| && data[..8 * (|argv| + 2)] == Words([argc] + argv + [0])
  {
    var t := TableWords(argc, argv, envp, auxv, random);
    var head := [argc] + argv + [0];
    assert t == head + t[|head|..];
    WordsAppend(head, t[|head|..]);
    PrefixSlice(data, Words(t), 0, 8 * |head|);
    assert data[..8 * |head|] == data[0..8 * |head|];
  }

  /** What the string area placed is found from the final `vsp` once the table is pushed below it. */
  lemma FoundAfterTable(placed: seq<Byte>, data: seq<Byte>, vbase: nat, vsp: nat, argv: seq<nat>, args: seq<seq<Byte>>,
                        envp: seq<nat>, envs: seq<seq<Byte>>, random: nat)
    requires IsSuffix(placed, data) && vsp + |data| == vbase
    requires AllAt(placed, vbase, argv, args) && AllAt(placed, vbase, envp, envs)
    requires RandomAt(placed, vbase, random)
    ensures FoundFromSp(data, vsp, argv, args) && FoundFromSp(data, vsp, envp, envs)
    ensures vsp <= random && random - vsp + 16 <= |data| && data[random - vsp..random - vsp + 16] == Words([0, 0])
  {
    SuffixKeeps(placed, data, vbase, argv, args);
    AllAtFromSp(data, vbase, vsp, argv, args);
    SuffixKeeps(placed, data, vbase, envp, envs);
    AllAtFromSp(data, vbase, vsp, envp, envs);
    BytesAtKeeps(placed, data, vbase - random, Words([0, 0]));
  }
}
