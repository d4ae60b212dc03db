/**
 * The firmware's `strlen`, `memset`, `memmove`, `memcpy` and `memcmp`.
 * Memory is one byte array and a pointer is an index into it; the loops
 * are the C loops, with the decrementing count `n` replaced by an index.
 */
module CString {
  import opened Bytes

  /** `strlen`: the number of bytes before the first NUL at or after `s`. */
  method Strlen(mem: array<Byte>, s: nat) returns (count: nat)
    requires exists k :: s <= k < mem.Length && mem[k] == 0
    ensures s + count < mem.Length && mem[s + count] == 0
    ensures forall k :: s <= k < s + count ==> mem[k] != 0
  {
    count := 0;
    while mem[s + count] != 0
      invariant s + count < mem.Length
      invariant forall k :: s <= k < s + count ==> mem[k] != 0
      invariant exists k :: s + count <= k < mem.Length && mem[k] == 0
      decreases mem.Length - (s + count)
    {
      count := count + 1;
    }
  }

  /** `memset`: the `n` bytes from `s` become `c`; `s` is returned. */
  method Memset(mem: array<Byte>, s: nat, c: Byte, n: nat) returns (r: nat)
    requires s + n <= mem.Length
    modifies mem
    ensures r == s
    ensures forall k :: s <= k < s + n ==> mem[k] == c
    ensures forall k :: 0 <= k < mem.Length && !(s <= k < s + n) ==> mem[k] == old(mem[k])
  {
    var i := 0;
    while i < n
      invariant i <= n
      invariant forall k :: s <= k < s + i ==> mem[k] == c
      invariant forall k :: 0 <= k < mem.Length && !(s <= k < s + i) ==> mem[k] == old(mem[k])
    {
      mem[s + i] := c;
      i := i + 1;
    }
    r := s;
  }

  /**
   * `memmove`: the `n` bytes at `dst` become the `n` bytes that were at
   * `src`, even when the two overlap; copying runs backwards when `src` lies
   * below `dst` inside the range, forwards otherwise.
   */
  method Memmove(mem: array<Byte>, dst: nat, src: nat, n: nat) returns (r: nat)
    requires dst + n <= mem.Length && src + n <= mem.Length
    modifies mem
    ensures r == dst
    ensures mem[dst..dst + n] == old(mem[src..src + n])
    ensures forall k :: 0 <= k < mem.Length && !(dst <= k < dst + n) ==> mem[k] == old(mem[k])
  {
    if src < dst && src + n > dst {
      var i: nat := n;
      while i > 0
        invariant i <= n
        invariant forall k :: dst + i <= k < dst + n ==> mem[k] == old(mem[k - dst + src])
        invariant forall k :: 0 <= k < mem.Length && !(dst + i <= k < dst + n) ==> mem[k] == old(mem[k])
      {
        i := i - 1;
        mem[dst + i] := mem[src + i];
      }
    } else {
      var i := 0;
      while i < n
        invariant i <= n
        invariant forall k :: dst <= k < dst + i ==> mem[k] == old(mem[k - dst + src])
        invariant forall k :: 0 <= k < mem.Length && !(dst <= k < dst + i) ==> mem[k] == old(mem[k])
      {
        mem[dst + i] := mem[src + i];
        i := i + 1;
      }
    }
    r := dst;
  }

  /**
   * `memcpy`: a forward copy of `n` bytes. It is correct when `dst` does not
   * lie inside the source range above `src`, which covers every pair of
   * disjoint ranges.
   */
  method Memcpy(mem: array<Byte>, dst: nat, src: nat, n: nat) returns (r: nat)
    requires dst + n <= mem.Length && src + n <= mem.Length
    requires dst <= src || src + n <= dst
    modifies mem
    ensures r == dst
    ensures mem[dst..dst + n] == old(mem[src..src + n])
    ensures forall k :: 0 <= k < mem.Length && !(dst <= k < dst + n) ==> mem[k] == old(mem[k])
  {
    var i := 0;
    while i < n
      invariant i <= n
      invariant forall k :: dst <= k < dst + i ==> mem[k] == old(mem[k - dst + src])
      invariant forall k :: 0 <= k < mem.Length && !(dst <= k < dst + i) ==> mem[k] == old(mem[k])
    {
      mem[dst + i] := mem[src + i];
      i := i + 1;
    }
    r := dst;
  }

  /** The reference meaning of `memcmp`: 0 for equal ranges, else the first byte difference. */
  function Compare(a: seq<Byte>, b: seq<Byte>): (c: int)
    requires |a| == |b|
    ensures c == 0 <==> a == b
    ensures -256 < c < 256
    decreases |a|
  {
    if |a| == 0 then 0
    else if a[0] != b[0] then a[0] as int - b[0] as int
    else
      assert a == [a[0]] + a[1..] && b == [b[0]] + b[1..];
      Compare(a[1..], b[1..])
  }

  /** A nonzero comparison is the difference at the first position where the ranges differ. */
  lemma {:induction false} CompareIsFirstDifference(a: seq<Byte>, b: seq<Byte>)
    requires |a| == |b| && Compare(a, b) != 0
    ensures exists i :: 0 <= i < |a| && a[..i] == b[..i] && a[i] != b[i] && Compare(a, b) == a[i] as int - b[i] as int
    decreases |a|
  {
    if a[0] != b[0] {
      assert a[..0] == b[..0];
    } else {
      CompareIsFirstDifference(a[1..], b[1..]);
      var i :| 0 <= i < |a[1..]| && a[1..][..i] == b[1..][..i] && a[1..][i] != b[1..][i] && Compare(a[1..], b[1..]) == a[1..][i] as int - b[1..][i] as int;
      assert a[..i + 1] == [a[0]] + a[1..][..i];
      assert b[..i + 1] == [b[0]] + b[1..][..i];
    }
  }

  /** Comparing from position `i` looks at byte `i`, then moves on only if it matches. */
  lemma CompareStep(a: seq<Byte>, b: seq<Byte>, i: nat)
    requires |a| == |b| && i < |a|
    ensures a[i] != b[i] ==> Compare(a[i..], b[i..]) == a[i] as int - b[i] as int
    ensures a[i] == b[i] ==> Compare(a[i..], b[i..]) == Compare(a[i + 1..], b[i + 1..])
  {
    assert a[i..][1..] == a[i + 1..] && b[i..][1..] == b[i + 1..];
  }

  /** `memcmp`: compare `n` bytes, returning the first unsigned byte difference or 0. */
  method Memcmp(mem: array<Byte>, v1: nat, v2: nat, n: nat) returns (r: int)
    requires v1 + n <= mem.Length && v2 + n <= mem.Length
    ensures r == Compare(mem[v1..v1 + n], mem[v2..v2 + n])
  {
    ghost var a, b := mem[v1..v1 + n], mem[v2..v2 + n];
    var i := 0;
    while i < n
      invariant i <= n
      invariant Compare(a, b) == Compare(a[i..], b[i..])
    {
      CompareStep(a, b, i);
      if mem[v1 + i] != mem[v2 + i] {
        return mem[v1 + i] as int - mem[v2 + i] as int;
      }
      i := i + 1;
    }
    assert a[n..] == [] == b[n..];
    r := 0;
  }
}
