/**
 * `FDManager`, a process's file descriptor table: a growable list of
 * optional open files, a stack of recycled descriptors handed out again
 * before the list grows, a limit on the list's length and the umask.
 * An open file is an opaque handle here.
 */
module FileDescriptors {
  import opened Wrappers
  import opened Errors

  /** `DEFAULT_FD_LIMIT`. */
  const DEFAULT_FD_LIMIT: nat := 0x100

  /** An open file: the three standard streams, or any other file by an identity. */
  datatype File = Stdin | Stdout | Stderr | Opened(id: nat)

  class FDManager {
    var list: seq<Option<File>>
    var recycled: seq<nat>
    var limit: nat
    var umask: nat

    /** Every recycled descriptor indexes the list; `alloc` and `push` rely on it. */
    predicate InBounds()
      reads this
    {
      forall i :: 0 <= i < |recycled| ==> recycled[i] < |list|
    }

    /**
     * The table is sound: recycled descriptors index empty slots and none is
     * recycled twice, so `push` never replaces an open file.
     */
    predicate Valid()
      reads this
    {
      InBounds() &&
      (forall i :: 0 <= i < |recycled| ==> list[recycled[i]].None?) &&
      (forall i, j :: 0 <= i < j < |recycled| ==> recycled[i] != recycled[j])
    }

    /** `new`: stdin, stdout and stderr on descriptors 0, 1 and 2. */
    constructor ()
      ensures Valid()
      ensures list == [Some(Stdin), Some(Stdout), Some(Stderr)] && recycled == []
      ensures limit == DEFAULT_FD_LIMIT && umask == 0
    {
      list := [];
      recycled := [];
      limit := DEFAULT_FD_LIMIT;
      umask := 0;
      new;
      var r := Push(Stdin);
      r := Push(Stdout);
      r := Push(Stderr);
    }

    /** `get`: the open file on `fd`, or `FDNotFound` past the end or on an empty slot. */
    function Get(fd: nat): (r: Result<File, KernelError>)
      reads this
      ensures r.Err? <==> fd >= |list| || list[fd].None?
      ensures r.Err? ==> r.error == FDNotFound
      ensures r.Ok? ==> list[fd] == Some(r.value)
    {
      if fd >= |list| || list[fd].None? then Err(FDNotFound) else Ok(list[fd].value)
    }

    /** `take`: the open file leaves its slot and the descriptor is recycled. */
    method Take(fd: nat) returns (r: Result<File, KernelError>)
      modifies this
      ensures r == old(Get(fd))
      ensures r.Ok? ==> list == old(list)[fd := None] && recycled == old(recycled) + [fd]
      ensures r.Err? ==> list == old(list) && recycled == old(recycled)
      ensures r.Ok? ==> Get(fd) == Err(FDNotFound)
      ensures limit == old(limit) && umask == old(umask)
      ensures old(Valid()) ==> Valid()
    {
      if fd >= |list| || list[fd].None? {
        return Err(FDNotFound);
      }
      ghost var wasValid := Valid();
      recycled := recycled + [fd];
      r := Ok(list[fd].value);
      list := list[fd := None];
      if wasValid {
        assert forall i :: 0 <= i < |recycled| - 1 ==> recycled[i] != fd;
      }
    }

    /**
     * `remove` as written: the descriptor is recycled before `take`, which
     * recycles it a second time, and stays recycled when `take` fails.
     */
    method RemoveAsWritten(fd: nat) returns (r: Result<(), KernelError>)
      modifies this
      ensures r.Err? <==> old(Get(fd)).Err?
      ensures r.Ok? ==> list == old(list)[fd := None] && recycled == old(recycled) + [fd, fd]
      ensures r.Err? ==> r.error == FDNotFound && list == old(list) && recycled == old(recycled) + [fd]
      ensures limit == old(limit) && umask == old(umask)
    {
      recycled := recycled + [fd];
      var t := Take(fd);
      if t.Err? {
        return Err(t.error);
      }
      r := Ok(());
    }

    /** `remove`, recycling the descriptor once and only when it was open. */
    method Remove(fd: nat) returns (r: Result<(), KernelError>)
      modifies this
      ensures r.Err? <==> old(Get(fd)).Err?
      ensures r.Ok? ==> list == old(list)[fd := None] && recycled == old(recycled) + [fd]
      ensures r.Err? ==> r.error == FDNotFound && list == old(list) && recycled == old(recycled)
      ensures limit == old(limit) && umask == old(umask)
      ensures old(Valid()) ==> Valid()
    {
      var t := Take(fd);
      if t.Err? {
        return Err(t.error);
      }
      r := Ok(());
    }

    /**
     * `alloc`: the most recently recycled descriptor, else a new empty slot
     * at the end while the list stays within `limit`, else `FDOutOfBound`.
     */
    method Alloc() returns (r: Result<nat, KernelError>)
      modifies this
      ensures old(recycled) != [] ==>
        (r == Ok(old(recycled)[|old(recycled)| - 1]) &&
         recycled == old(recycled)[..|old(recycled)| - 1] && list == old(list))
      ensures old(recycled) == [] && |old(list)| + 1 <= old(limit) ==>
        (r == Ok(|old(list)|) && list == old(list) + [None] && recycled == [])
      ensures old(recycled) == [] && |old(list)| + 1 > old(limit) ==>
        (r == Err(FDOutOfBound) && list == old(list) && recycled == [])
      ensures limit == old(limit) && umask == old(umask)
      ensures old(InBounds()) ==> InBounds()
      ensures old(Valid()) ==> Valid() && (r.Ok? ==> r.value !in recycled && Get(r.value).Err?)
    {
      if |recycled| > 0 {
        ghost var wasValid := Valid();
        var fd := recycled[|recycled| - 1];
        recycled := recycled[..|recycled| - 1];
        if wasValid {
          assert forall i :: 0 <= i < |recycled| ==> recycled[i] == old(recycled)[i];
        }
        return Ok(fd);
      }
      var fd := |list|;
      if fd + 1 <= limit {
        list := list + [None];
        return Ok(fd);
      }
      r := Err(FDOutOfBound);
    }

    /**
     * `push`: the file is installed on the descriptor `alloc` gives. In a
     * sound table that slot was empty, so no open file is replaced.
     */
    method Push(file: File) returns (r: Result<nat, KernelError>)
      requires InBounds()
      modifies this
      ensures r.Err? ==> r.error == FDOutOfBound && list == old(list) && recycled == old(recycled)
      ensures r.Ok? ==> r.value < |list| && Get(r.value) == Ok(file)
      ensures r.Ok? && old(recycled) != [] ==>
        (r.value == old(recycled)[|old(recycled)| - 1] &&
         list == old(list)[r.value := Some(file)] && recycled == old(recycled)[..|old(recycled)| - 1])
      ensures r.Ok? && old(recycled) == [] ==>
        (r.value == |old(list)| && list == old(list) + [Some(file)] && recycled == [])
      ensures r.Err? <==> old(recycled) == [] && |old(list)| + 1 > old(limit)
      ensures limit == old(limit) && umask == old(umask)
      ensures InBounds()
      ensures old(Valid()) ==> Valid() && (r.Ok? ==> r.value >= |old(list)| || old(list)[r.value].None?)
    {
      ghost var wasValid := Valid();
      r := Alloc();
      if r.Err? {
        return;
      }
      list := list[r.value := Some(file)];
      if wasValid {
        assert forall i :: 0 <= i < |recycled| ==> recycled[i] != r.value;
      }
    }
  }

  /** In a sound table two pushes hand out two different descriptors, and both files stay open. */
  method PushTwiceDistinct(m: FDManager, a: File, b: File) returns (fa: Result<nat, KernelError>, fb: Result<nat, KernelError>)
    requires m.Valid()
    modifies m
    ensures fa.Ok? && fb.Ok? ==> fa.value != fb.value && m.Get(fa.value) == Ok(a) && m.Get(fb.value) == Ok(b)
    ensures m.Valid()
  {
    fa := m.Push(a);
    fb := m.Push(b);
  }

  /**
   * With the written `remove`, closing stdout and opening two files hands
   * descriptor 1 out twice: the second open replaces the first file.
   */
  method RemoveThenOpenTwiceAsWritten() returns (fa: Result<nat, KernelError>, fb: Result<nat, KernelError>, first: Result<File, KernelError>)
    ensures fa == Ok(1) && fb == Ok(1) && first == Ok(Opened(11))
  {
    var m := new FDManager();
    var r := m.RemoveAsWritten(1);
    assert m.recycled == [1, 1] && |m.list| == 3;
    fa := m.Push(Opened(10));
    assert m.recycled == [1] && |m.list| == 3;
    fb := m.Push(Opened(11));
    first := m.Get(1);
  }

  /** With the corrected `remove`, the same steps give the two files descriptors 1 and 3. */
  method RemoveThenOpenTwice() returns (fa: Result<nat, KernelError>, fb: Result<nat, KernelError>)
    ensures fa == Ok(1) && fb == Ok(3)
  {
    var m := new FDManager();
    var r := m.Remove(1);
    assert r.Ok? && m.recycled == [1] && |m.list| == 3;
    fa := m.Push(Opened(10));
    assert fa == Ok(1) && m.recycled == [] && |m.list| == 3;
    fb := m.Push(Opened(11));
  }

  /**
   * With the written `remove`, closing a descriptor that was never open
   * fails yet recycles it, so the next `push` would index past the list.
   */
  method RemoveUnopened() returns (r: Result<(), KernelError>, recycledAfter: seq<nat>, lenAfter: nat)
    ensures r == Err(FDNotFound) && recycledAfter == [100] && lenAfter == 3
  {
    var m := new FDManager();
    r := m.RemoveAsWritten(100);
    recycledAfter := m.recycled;
    lenAfter := |m.list|;
  }
}
