/**
 * Task exit and `wait4`: an exiting task hands its children to the init
 * task, and a waiting parent scans its children for one that matches the
 * requested pid and wait options and has become a zombie. Writing the
 * status word to user memory is not part of this model; the reaped
 * children are returned instead.
 */
module TaskExit {
  import opened Wrappers
  import opened Addr
  import opened Errors
  import opened Tasks

  const WNONHANG: nat := 1
  const WEXITED: nat := 4
  const WCONTINUED: nat := 8
  /** `__WALL`: wait for every child. */
  const WALL: nat := 0x4000_0000
  /** `__WCLONE`: wait for clone children only. */
  const WCLONE: nat := 0x8000_0000

  /**
   * `valid_child`: a positive `pid` must name the child's pid; unless
   * `__WALL` is given, a clone child (exit signal other than `SIGCHLD`)
   * matches exactly when `__WCLONE` is given.
   */
  predicate ValidChild(pid: int, options: nat, child: Task)
  {
    (pid <= 0 || child.pid == pid) &&
    (HasFlag(options, WALL) || ((child.exitSignal != SIGCHLD) == HasFlag(options, WCLONE)))
  }

  /** The three cases of `valid_child` on the child's kind, once the pid matches. */
  lemma ValidChildCases(pid: int, options: nat, child: Task)
    ensures pid > 0 && child.pid != pid ==> !ValidChild(pid, options, child)
    ensures HasFlag(options, WALL) ==> (ValidChild(pid, options, child) <==> pid <= 0 || child.pid == pid)
    ensures !HasFlag(options, WALL) && !HasFlag(options, WCLONE) && child.exitSignal != SIGCHLD ==> !ValidChild(pid, options, child)
    ensures !HasFlag(options, WALL) && HasFlag(options, WCLONE) && child.exitSignal == SIGCHLD ==> !ValidChild(pid, options, child)
  {
  }

  /**
   * One pass of `do_wait` over the children: the first matching zombie
   * (with `WEXITED`), the `todo!()` on a matching stopped child, or which
   * of "no matching child" and "matching children, none ready" holds.
   */
  datatype Scanned = Found(index: nat) | NoValidChild | NotReady | Unimplemented

  /** What a pass over `cs[i..]` finds, `seen` recording whether a matching child came before `i`. */
  ghost function ScanFrom(cs: seq<Task>, i: nat, pid: int, options: nat, seen: bool): (r: Scanned)
    requires i <= |cs|
    reads cs
    ensures r.Found? ==> i <= r.index < |cs|
    decreases |cs| - i
  {
    if i == |cs| then (if seen then NotReady else NoValidChild)
    else if !ValidChild(pid, options, cs[i]) then ScanFrom(cs, i + 1, pid, options, seen)
    else if cs[i].state == Stopped then Unimplemented
    else if cs[i].state == Zombie && HasFlag(options, WEXITED) then Found(i)
    else ScanFrom(cs, i + 1, pid, options, true)
  }

  /** A child the waiter takes: matching, zombie, and `WEXITED` asked for. */
  ghost predicate Ready(pid: int, options: nat, c: Task)
    reads c
  {
    ValidChild(pid, options, c) && c.state == Zombie && HasFlag(options, WEXITED)
  }

  /**
   * What a pass means: `Found(i)` is the first ready child with no matching
   * stopped child before it; `NoValidChild` holds exactly when no child
   * matches; `NotReady` when some child matches and none is ready or stopped.
   */
  lemma {:induction false} ScanMeaning(cs: seq<Task>, i: nat, pid: int, options: nat, seen: bool)
    requires i <= |cs|
    ensures ScanFrom(cs, i, pid, options, seen).Found? ==>
      var k := ScanFrom(cs, i, pid, options, seen).index;
      i <= k < |cs| && Ready(pid, options, cs[k]) &&
      forall j :: i <= j < k ==> !Ready(pid, options, cs[j]) && !(ValidChild(pid, options, cs[j]) && cs[j].state == Stopped)
    ensures ScanFrom(cs, i, pid, options, seen) == NoValidChild <==>
      !seen && forall j :: i <= j < |cs| ==> !ValidChild(pid, options, cs[j])
    ensures ScanFrom(cs, i, pid, options, seen) == NotReady ==>
      forall j :: i <= j < |cs| ==> !Ready(pid, options, cs[j]) && !(ValidChild(pid, options, cs[j]) && cs[j].state == Stopped)
    decreases |cs| - i
  {
    if i < |cs| {
      ScanMeaning(cs, i + 1, pid, options, seen);
      ScanMeaning(cs, i + 1, pid, options, true);
    }
  }

  /** The loop of `do_wait` over `children`, stopping at the first ready or stopped child. */
  method Scan(cs: seq<Task>, pid: int, options: nat) returns (r: Scanned)
    ensures r == ScanFrom(cs, 0, pid, options, false)
  {
    var i := 0;
    var needSched := false;
    while i < |cs|
      invariant i <= |cs|
      invariant ScanFrom(cs, 0, pid, options, false) == ScanFrom(cs, i, pid, options, needSched)
    {
      if ValidChild(pid, options, cs[i]) {
        needSched := true;
        if cs[i].state == Stopped {
          return Unimplemented;
        }
        if cs[i].state == Zombie && HasFlag(options, WEXITED) {
          return Found(i);
        }
      }
      i := i + 1;
    }
    r := if needSched then NotReady else NoValidChild;
  }

  /** How `do_wait` ends: with a reaped child's pid, an error, by sleeping, or in the `todo!()` panic. */
  datatype WaitOutcome = Reaped(pid: nat) | Failed(errno: Errno) | Blocks | Panics

  /**
   * `do_wait` as written: after reaping a child the loop starts over instead
   * of returning, so it reaps every ready child and then ends in `ECHILD`
   * or sleeps; it never reports a reaped child. The model follows the loop
   * up to its first sleep.
   */
  method DoWaitAsWritten(curr: Task, pid: int, options: nat) returns (r: WaitOutcome, reaped: seq<Task>)
    requires curr !in curr.children
    modifies curr
    ensures !r.Reaped?
    ensures r.Failed? ==> r.errno == ECHILD
    ensures |curr.children| + |reaped| == old(|curr.children|)
    ensures curr.state == old(curr.state)
    ensures (forall c :: c in old(curr.children) ==> Ready(pid, options, c)) ==> r == Failed(ECHILD) && curr.children == []
  {
    reaped := [];
    ghost var allReady := forall c :: c in curr.children ==> Ready(pid, options, c);
    while true
      invariant |curr.children| + |reaped| == old(|curr.children|)
      invariant curr.state == old(curr.state)
      invariant curr !in curr.children
      invariant allReady ==> forall c :: c in curr.children ==> Ready(pid, options, c)
      invariant allReady == forall c :: c in old(curr.children) ==> Ready(pid, options, c)
      decreases |curr.children|
    {
      var s := Scan(curr.children, pid, options);
      if allReady && curr.children != [] {
        assert Ready(pid, options, curr.children[0]);
        assert s == Found(0);
      }
      match s
      case Found(i) =>
        ScanMeaning(curr.children, 0, pid, options, false);
        reaped := reaped + [curr.children[i]];
        curr.children := curr.children[..i] + curr.children[i + 1..];
      case Unimplemented =>
        return Panics, reaped;
      case NoValidChild =>
        return Failed(ECHILD), reaped;
      case NotReady =>
        if HasFlag(options, WNONHANG) {
          return Failed(ECHILD), reaped;
        }
        return Blocks, reaped;
    }
  }

  /**
   * `do_wait` returning the reaped child's pid, as `wait4` promises: the
   * first ready child leaves the child list and its pid is returned; with no
   * matching child, or none ready under `WNONHANG`, the result is `ECHILD`;
   * with matching children none ready, the caller sleeps.
   */
  method DoWait(curr: Task, pid: int, options: nat) returns (r: WaitOutcome)
    requires curr !in curr.children
    modifies curr
    ensures var s := ScanFrom(old(curr.children), 0, pid, options, false);
      (r.Reaped? <==> s.Found?) &&
      (s.Found? ==> r.pid == old(curr.children)[s.index].pid) &&
      (s.Found? ==> curr.children == old(curr.children)[..s.index] + old(curr.children)[s.index + 1..]) &&
      (!s.Found? ==> curr.children == old(curr.children)) &&
      (r == Failed(ECHILD) <==> s == NoValidChild || (s == NotReady && HasFlag(options, WNONHANG))) &&
      (r == Blocks <==> s == NotReady && !HasFlag(options, WNONHANG)) &&
      (r == Panics <==> s == Unimplemented)
    ensures curr.state == old(curr.state)
  {
    var s := Scan(curr.children, pid, options);
    match s
    case Found(i) =>
      ScanMeaning(curr.children, 0, pid, options, false);
      var child := curr.children[i];
      curr.children := curr.children[..i] + curr.children[i + 1..];
      r := Reaped(child.pid);
    case Unimplemented =>
      r := Panics;
    case NoValidChild =>
      r := Failed(ECHILD);
    case NotReady =>
      r := if HasFlag(options, WNONHANG) then Failed(ECHILD) else Blocks;
  }

  /**
   * A parent with one exited child waits for it: the written `do_wait`
   * reaps it and then answers `ECHILD`, the corrected one returns its pid.
   */
  method WaitForExitedChild() returns (written: WaitOutcome, intended: WaitOutcome)
    ensures written == Failed(ECHILD) && intended == Reaped(2)
  {
    var parent := new Task(1, 1, SIGCHLD, Running);
    var child := new Task(2, 2, SIGCHLD, Zombie);
    parent.children := [child];
    assert ValidChild(-1, WEXITED, child);
    assert ScanFrom([child], 0, -1, WEXITED, false) == Found(0);
    var reaped;
    written, reaped := DoWaitAsWritten(parent, -1, WEXITED);
    var parent2 := new Task(1, 1, SIGCHLD, Running);
    parent2.children := [child];
    intended := DoWait(parent2, -1, WEXITED);
  }

  /**
   * `handle_zombie`: every child is re-parented to the init task and
   * appended, in order, to its children; the exiting task's own list is
   * emptied and it becomes a zombie.
   */
  method HandleZombie(task: Task, init: Task)
    requires task != init
    modifies task`children, task`state, init`children, task.children`parent
    ensures init.children == old(init.children) + old(task.children)
    ensures forall c :: c in old(task.children) ==> c.parent == Some(init)
    ensures task.children == [] && task.state == Zombie
  {
    var cs := task.children;
    var i := 0;
    while i < |cs|
      invariant i <= |cs|
      invariant task.children == cs
      invariant init.children == old(init.children) + cs[..i]
      invariant forall k :: 0 <= k < i ==> cs[k].parent == Some(init)
    {
      cs[i].parent := Some(init);
      init.children := init.children + [cs[i]];
      i := i + 1;
    }
    assert cs[..i] == cs;
    task.children := [];
    task.state := Zombie;
  }
}
