/**
 * The checks `do_clone` makes on its flags and the identity it gives the
 * child. Copying or sharing the address space, allocating the kernel stack
 * and mapping the trapframe can fail inside code outside this model; those
 * failures are not modelled.
 */
module Clone {
  import opened Wrappers
  import opened Addr
  import opened Errors
  import opened Tasks

  /** The low byte: the signal sent to the parent when the child exits. */
  const CSIGNAL: nat := 0xff
  const CLONE_VM: nat := 0x100
  const CLONE_FS: nat := 0x200
  const CLONE_FILES: nat := 0x400
  const CLONE_SIGHAND: nat := 0x800
  const CLONE_PARENT: nat := 0x8000
  const CLONE_THREAD: nat := 0x1_0000
  const CLONE_NEWNS: nat := 0x2_0000
  const CLONE_SETTLS: nat := 0x8_0000
  const CLONE_PARENT_SETTID: nat := 0x10_0000
  const CLONE_CHILD_CLEARTID: nat := 0x20_0000
  const CLONE_CHILD_SETTID: nat := 0x100_0000

  /**
   * The new task as `do_clone` fills it in: its ids and exit signal, the
   * child-tid addresses, and which of the parent's resources it shares
   * rather than copies. `sameParent` says it gets the caller's parent
   * instead of the caller.
   */
  datatype Child = Child(
    tid: nat, pid: nat, exitSignal: nat,
    setChildTid: Usize, clearChildTid: Usize,
    sharesVm: bool, sharesFiles: bool, sharesSigActions: bool, sameParent: bool)

  /** The three flag combinations `do_clone` refuses before doing any work. */
  predicate RejectedFlags(flags: nat)
  {
    HasFlag(flags, CLONE_NEWNS) || HasFlag(flags, CLONE_FS) ||
    (HasFlag(flags, CLONE_THREAD) && !HasFlag(flags, CLONE_SIGHAND)) ||
    (HasFlag(flags, CLONE_SIGHAND) && !HasFlag(flags, CLONE_VM))
  }

  /**
   * `do_clone` for a caller with pid `parentPid`, the child's kernel stack
   * being `newId` (which is also its tid). `sigValid` stands for `sigvalid`.
   * A thread joins the caller's thread group and reports no signal; any
   * other child leads a new group named by its tid and reports the signal
   * in the low byte of `flags`, which must be valid.
   */
  function DoClone(flags: nat, parentPid: nat, newId: nat, ctid: Usize, sigValid: nat -> bool): (r: Result<Child, Errno>)
    ensures r.Err? ==> r.error == EINVAL
    ensures r.Err? <==> RejectedFlags(flags) || (!HasFlag(flags, CLONE_THREAD) && !sigValid(flags % 0x100))
    ensures r.Ok? && HasFlag(flags, CLONE_THREAD) ==> r.value.pid == parentPid && r.value.exitSignal == SIGNONE
    ensures r.Ok? && !HasFlag(flags, CLONE_THREAD) ==> r.value.pid == newId && r.value.exitSignal == flags % 0x100
    ensures r.Ok? ==> r.value.tid == newId
    ensures r.Ok? ==> r.value.setChildTid == (if HasFlag(flags, CLONE_CHILD_SETTID) then ctid else 0)
    ensures r.Ok? ==> r.value.clearChildTid == (if HasFlag(flags, CLONE_CHILD_CLEARTID) then ctid else 0)
    ensures r.Ok? ==> (r.value.sharesVm <==> HasFlag(flags, CLONE_VM))
    ensures r.Ok? ==> (r.value.sharesFiles <==> HasFlag(flags, CLONE_FILES))
    ensures r.Ok? ==> (r.value.sharesSigActions <==> HasFlag(flags, CLONE_SIGHAND) || HasFlag(flags, CLONE_THREAD))
    ensures r.Ok? ==> (r.value.sameParent <==> HasFlag(flags, CLONE_PARENT) || HasFlag(flags, CLONE_THREAD))
  {
    if HasFlag(flags, CLONE_NEWNS) || HasFlag(flags, CLONE_FS) then Err(EINVAL)
    else if HasFlag(flags, CLONE_THREAD) && !HasFlag(flags, CLONE_SIGHAND) then Err(EINVAL)
    else if HasFlag(flags, CLONE_SIGHAND) && !HasFlag(flags, CLONE_VM) then Err(EINVAL)
    else
      var thread := HasFlag(flags, CLONE_THREAD);
      var sig := flags % 0x100;
      if !thread && !sigValid(sig) then Err(EINVAL)
      else Ok(Child(
        newId,
        if thread then parentPid else newId,
        if thread then SIGNONE else sig,
        if HasFlag(flags, CLONE_CHILD_SETTID) then ctid else 0,
        if HasFlag(flags, CLONE_CHILD_CLEARTID) then ctid else 0,
        HasFlag(flags, CLONE_VM),
        HasFlag(flags, CLONE_FILES),
        HasFlag(flags, CLONE_SIGHAND) || thread,
        HasFlag(flags, CLONE_PARENT) || thread))
  }

  /**
   * What the checks buy: a created thread shares the address space and the
   * signal handlers of its group, so does any child sharing handlers, and
   * no child shares the filesystem information.
   */
  lemma CloneSharing(flags: nat, parentPid: nat, newId: nat, ctid: Usize, sigValid: nat -> bool)
    ensures var r := DoClone(flags, parentPid, newId, ctid, sigValid);
      r.Ok? ==> (r.value.sharesSigActions ==> r.value.sharesVm) && !HasFlag(flags, CLONE_FS)
  {
  }

  /**
   * A thread and a process created with the same id differ only in whom
   * they belong to: the thread carries the caller's pid and no exit signal.
   */
  lemma ThreadBelongsToCaller(flags: nat, parentPid: nat, newId: nat, ctid: Usize, sigValid: nat -> bool)
    requires HasFlag(flags, CLONE_THREAD) && HasFlag(flags, CLONE_SIGHAND) && HasFlag(flags, CLONE_VM)
    requires !HasFlag(flags, CLONE_NEWNS) && !HasFlag(flags, CLONE_FS)
    ensures DoClone(flags, parentPid, newId, ctid, sigValid).Ok?
    ensures DoClone(flags, parentPid, newId, ctid, sigValid).value.pid == parentPid
  {
  }
}
