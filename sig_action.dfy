/**
 * `SigAction` (one signal's disposition) and `SigActions`, the table of
 * 64 optional actions indexed by `signum - 1`.
 */
module SigAction {
  import opened Wrappers
  import opened Addr
  import opened SigSetBits

  const SA_SIGINFO: nat := 4
  /** `SIG_DFL`, the default action. */
  const SIG_DFL: Usize := 0
  /** `SIG_IGN`, the signal is ignored. */
  const SIG_IGN: Usize := 1
  const NSIG: nat := 64

  /** `sa_handler`, `sa_flags`, `sa_restorer` and `sa_mask`. */
  datatype Action = Action(handler: Usize, flags: Usize, restorer: Usize, mask: Word)

  /** `default()`/`new()`: `SIG_DFL`, no flags, no restorer, empty mask. */
  const DEFAULT_ACTION: Action := Action(SIG_DFL, 0, 0, Zero())

  predicate IsSiginfo(a: Action)
  {
    (a.flags / SA_SIGINFO) % 2 == 1
  }

  /** `get_handler`: the user handler, or `None` under `SA_SIGINFO`, `SIG_DFL` or `SIG_IGN`. */
  function GetHandler(a: Action): (r: Option<Usize>)
    ensures r.None? <==> IsSiginfo(a) || a.handler == SIG_DFL || a.handler == SIG_IGN
    ensures r.Some? ==> r.value == a.handler && r.value > SIG_IGN
  {
    if IsSiginfo(a) || a.handler == SIG_DFL || a.handler == SIG_IGN then None else Some(a.handler)
  }

  /** `is_ignored`. */
  predicate IsIgnored(a: Action)
  {
    !IsSiginfo(a) && a.handler == SIG_IGN
  }

  /** An ignored signal has no user handler, and the default action is neither ignored nor handled. */
  lemma IgnoredHasNoHandler(a: Action)
    ensures IsIgnored(a) ==> GetHandler(a).None?
    ensures !IsIgnored(DEFAULT_ACTION) && GetHandler(DEFAULT_ACTION).None?
  {
  }

  class SigActions {
    const slots: array<Option<Action>>

    ghost predicate Valid()
      reads this
    {
      slots.Length == NSIG
    }

    /** `new`: every slot empty. */
    constructor ()
      ensures Valid() && fresh(slots)
      ensures forall i :: 0 <= i < NSIG ==> slots[i].None?
    {
      slots := new Option<Action>[NSIG](_ => None);
    }

    /**
     * `get_ref` and `get_mut` as written: the slot is overwritten with the
     * default action before it is returned, whatever it held.
     */
    method GetRefAsWritten(signum: nat) returns (a: Action)
      requires Valid() && 1 <= signum <= NSIG
      modifies slots
      ensures a == DEFAULT_ACTION
      ensures slots[..] == old(slots[..])[signum - 1 := Some(DEFAULT_ACTION)]
    {
      slots[signum - 1] := Some(DEFAULT_ACTION);
      a := slots[signum - 1].value;
    }

    /** `get_ref` as its name promises: the stored action, the default put in only for an empty slot. */
    method GetRef(signum: nat) returns (a: Action)
      requires Valid() && 1 <= signum <= NSIG
      modifies slots
      ensures old(slots[signum - 1]).Some? ==> a == old(slots[signum - 1]).value && slots[..] == old(slots[..])
      ensures old(slots[signum - 1]).None? ==>
        a == DEFAULT_ACTION && slots[..] == old(slots[..])[signum - 1 := Some(DEFAULT_ACTION)]
    {
      if slots[signum - 1].None? {
        slots[signum - 1] := Some(DEFAULT_ACTION);
      }
      a := slots[signum - 1].value;
    }

    /** Installing `act` for `signum` (what a caller does through `get_mut`). */
    method Store(signum: nat, act: Action)
      requires Valid() && 1 <= signum <= NSIG
      modifies slots
      ensures slots[..] == old(slots[..])[signum - 1 := Some(act)]
    {
      slots[signum - 1] := Some(act);
    }

    /** `get_handler(signum)`: the handler of the stored action, `None` for an empty slot. */
    function GetHandlerOf(signum: nat): (r: Option<Usize>)
      requires Valid() && 1 <= signum <= NSIG
      reads this, slots
      ensures slots[signum - 1].None? ==> r.None?
      ensures slots[signum - 1].Some? ==> r == GetHandler(slots[signum - 1].value)
    {
      match slots[signum - 1]
      case None => None
      case Some(a) => GetHandler(a)
    }
  }

  /**
   * Install a handler at address 0x8000 for signal 10, then read it back
   * with `get_ref`: the written version hands back `SIG_DFL` and has erased
   * the handler, the intended one hands back the handler.
   */
  method GetRefErasesHandler() returns (written: Action, intended: Action, after: Option<Usize>)
    ensures written.handler == SIG_DFL && after.None?
    ensures intended.handler == 0x8000
  {
    var act := Action(0x8000, 0, 0, Zero());
    var t := new SigActions();
    t.Store(10, act);
    written := t.GetRefAsWritten(10);
    after := t.GetHandlerOf(10);
    var u := new SigActions();
    u.Store(10, act);
    intended := u.GetRef(10);
  }

  /**
   * `Task::sig_ignored(sig_actions, sig)` for signals 1..=64: a blocked
   * signal is never ignored, since its handler may change before it is
   * unblocked; otherwise it is ignored under `SIG_IGN`, or under `SIG_DFL`
   * when the signal's default is to ignore it. That default
   * (`sig_kernel_ignore`) is not part of this model and arrives as
   * `defaultIgnores`.
   */
  function SigIgnored(blocked: Word, actions: seq<Action>, sig: nat, defaultIgnores: bool): (r: bool)
    requires |actions| == NSIG && 1 <= sig <= NSIG
    ensures blocked[sig - 1] ==> !r
    ensures !blocked[sig - 1] && actions[sig - 1].handler == SIG_IGN ==> r
    ensures r ==> actions[sig - 1].handler == SIG_IGN || (actions[sig - 1].handler == SIG_DFL && defaultIgnores)
    ensures actions[sig - 1].handler > SIG_IGN ==> !r
  {
    if blocked[sig - 1] then false
    else actions[sig - 1].handler == SIG_IGN || (actions[sig - 1].handler == SIG_DFL && defaultIgnores)
  }

  /**
   * The task-level test agrees with the action-level one: an unblocked signal
   * whose action `is_ignored` is ignored by the task, and a signal with a user
   * handler (`get_handler` is `Some`) never is.
   */
  lemma SigIgnoredAgreesWithAction(blocked: Word, actions: seq<Action>, sig: nat, defaultIgnores: bool)
    requires |actions| == NSIG && 1 <= sig <= NSIG
    ensures !blocked[sig - 1] && IsIgnored(actions[sig - 1]) ==> SigIgnored(blocked, actions, sig, defaultIgnores)
    ensures GetHandler(actions[sig - 1]).Some? ==> !SigIgnored(blocked, actions, sig, defaultIgnores)
  {
  }
}
