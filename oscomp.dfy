/**
 * The test-suite runner: splitting a command line into arguments, and the
 * `TestManger` record of running, passed and failed tests. Command lines
 * are byte strings whose only bytes of interest, the space and the double
 * quote, are ASCII; they are modelled as character strings.
 */
module OsComp {
  import opened Wrappers
  import opened Addr

  /**
   * The arguments of a command line read from `cur`, the argument begun so
   * far, onward: a space outside quotes ends the current argument, dropping
   * it when empty; a double quote toggles quoting and stays in the argument.
   */
  function Tokens(s: string, inQuote: bool, cur: string): seq<string>
    decreases |s|
  {
    if s == [] then (if cur == [] then [] else [cur])
    else if s[0] == '"' then Tokens(s[1..], !inQuote, cur + ['"'])
    else if s[0] == ' ' && !inQuote then (if cur == [] then [] else [cur]) + Tokens(s[1..], inQuote, [])
    else Tokens(s[1..], inQuote, cur + [s[0]])
  }

  /** The characters of `s` that belong to some argument: all but the spaces outside quotes. */
  function Kept(s: string, inQuote: bool): (r: string)
    ensures |r| <= |s|
    decreases |s|
  {
    if s == [] then []
    else if s[0] == '"' then ['"'] + Kept(s[1..], !inQuote)
    else if s[0] == ' ' && !inQuote then Kept(s[1..], inQuote)
    else [s[0]] + Kept(s[1..], inQuote)
  }

  function Flatten(ts: seq<string>): string
  {
    if ts == [] then [] else ts[0] + Flatten(ts[1..])
  }

  lemma {:induction false} FlattenAppend(a: seq<string>, b: seq<string>)
    ensures Flatten(a + b) == Flatten(a) + Flatten(b)
  {
    if a != [] {
      assert (a + b)[1..] == a[1..] + b;
      FlattenAppend(a[1..], b);
    } else {
      assert a + b == b;
    }
  }

  /**
   * No argument is empty, and the arguments laid end to end are exactly the
   * characters kept from the line: nothing but unquoted spaces is lost and
   * quotes stay inside the arguments.
   */
  lemma {:induction false} TokensNonEmpty(s: string, inQuote: bool, cur: string)
    ensures forall t :: t in Tokens(s, inQuote, cur) ==> t != []
    decreases |s|
  {
    if s == [] {
    } else if s[0] == '"' {
      TokensNonEmpty(s[1..], !inQuote, cur + ['"']);
    } else if s[0] == ' ' && !inQuote {
      TokensNonEmpty(s[1..], inQuote, []);
    } else {
      TokensNonEmpty(s[1..], inQuote, cur + [s[0]]);
    }
  }

  /**
   * The arguments laid end to end are exactly the characters kept from the
   * line: nothing but unquoted spaces is lost and quotes stay inside the
   * arguments.
   */
  lemma {:induction false} TokensFlatten(s: string, inQuote: bool, cur: string)
    ensures Flatten(Tokens(s, inQuote, cur)) == cur + Kept(s, inQuote)
    decreases |s|
  {
    if s == [] {
      assert cur + [] == cur;
      if cur != [] {
        assert Flatten([cur]) == cur + Flatten([]);
      }
    } else if s[0] == '"' {
      TokensFlatten(s[1..], !inQuote, cur + ['"']);
      assert Tokens(s, inQuote, cur) == Tokens(s[1..], !inQuote, cur + ['"']);
      assert Kept(s, inQuote) == ['"'] + Kept(s[1..], !inQuote);
      Assoc(cur, ['"'], Kept(s[1..], !inQuote));
    } else if s[0] == ' ' && !inQuote {
      TokensFlatten(s[1..], inQuote, []);
      var head: seq<string> := if cur == [] then [] else [cur];
      var rest := Tokens(s[1..], inQuote, []);
      assert Tokens(s, inQuote, cur) == head + rest;
      FlattenAppend(head, rest);
      assert Flatten(head) == cur by {
        if cur != [] {
          assert Flatten([cur]) == cur + Flatten([]);
        }
      }
      assert [] + Kept(s[1..], inQuote) == Kept(s[1..], inQuote);
      assert Kept(s, inQuote) == Kept(s[1..], inQuote);
    } else {
      TokensFlatten(s[1..], inQuote, cur + [s[0]]);
      assert Tokens(s, inQuote, cur) == Tokens(s[1..], inQuote, cur + [s[0]]);
      assert Kept(s, inQuote) == [s[0]] + Kept(s[1..], inQuote);
      Assoc(cur, [s[0]], Kept(s[1..], inQuote));
    }
  }

  lemma Assoc(a: string, b: string, c: string)
    ensures (a + b) + c == a + (b + c)
  {
  }

  /** One character of the line read by `Tokens`, the current argument being `s[start..i]`. */
  lemma TokensStep(s: string, i: nat, start: nat, inQuote: bool)
    requires start <= i < |s|
    ensures s[i] == '"' ==>
      Tokens(s[i..], inQuote, s[start..i]) == Tokens(s[i + 1..], !inQuote, s[start..i + 1])
    ensures s[i] != '"' && (s[i] != ' ' || inQuote) ==>
      Tokens(s[i..], inQuote, s[start..i]) == Tokens(s[i + 1..], inQuote, s[start..i + 1])
    ensures s[i] == ' ' && !inQuote ==>
      Tokens(s[i..], inQuote, s[start..i]) ==
        (if start == i then [] else [s[start..i]]) + Tokens(s[i + 1..], inQuote, s[i + 1..i + 1])
  {
    assert s[i..][0] == s[i];
    assert s[i..][1..] == s[i + 1..];
    assert s[start..i] + [s[i]] == s[start..i + 1];
    assert s[i + 1..i + 1] == [];
  }

  /** `Tokens` reading the first character of a line. */
  lemma TokensCons(ch: char, rest: string, inQuote: bool, cur: string)
    ensures Tokens([ch] + rest, inQuote, cur) ==
      if ch == '"' then Tokens(rest, !inQuote, cur + ['"'])
      else if ch == ' ' && !inQuote then (if cur == [] then [] else [cur]) + Tokens(rest, inQuote, [])
      else Tokens(rest, inQuote, cur + [ch])
  {
    assert ([ch] + rest)[0] == ch && ([ch] + rest)[1..] == rest;
  }

  /**
   * A quoted argument keeps its spaces and quotes: `c "x y"` splits into
   * `c` and `"x y"`.
   */
  lemma QuotedArgument(c: char, x: char, y: char)
    requires c != ' ' && c != '"' && x != ' ' && x != '"' && y != ' ' && y != '"'
    ensures Tokens([c, ' ', '"', x, ' ', y, '"'], false, []) == [[c], ['"', x, ' ', y, '"']]
  {
    var t5 := [y] + ['"'];
    var t4 := [' '] + t5;
    var t3 := [x] + t4;
    var t2 := ['"'] + t3;
    var t1 := [' '] + t2;
    assert [c] + t1 == [c, ' ', '"', x, ' ', y, '"'];
    var q := ['"', x, ' ', y, '"'];
    TokensCons('"', [], true, ['"', x, ' ', y]);
    assert ['"', x, ' ', y] + ['"'] == q;
    TokensCons(y, ['"'], true, ['"', x, ' ']);
    assert ['"', x, ' '] + [y] == ['"', x, ' ', y];
    TokensCons(' ', t5, true, ['"', x]);
    assert ['"', x] + [' '] == ['"', x, ' '];
    TokensCons(x, t4, true, ['"']);
    assert ['"'] + [x] == ['"', x];
    TokensCons('"', t3, false, []);
    assert [] + ['"'] == ['"'];
    TokensCons(' ', t2, false, [c]);
    TokensCons(c, t1, false, []);
    assert [] + [c] == [c];
  }

  /** `split_argv`: one pass over the line with the start of the current argument and the quoting state. */
  method SplitArgv(s: string) returns (argv: seq<string>)
    ensures argv == Tokens(s, false, [])
    ensures forall t :: t in argv ==> t != []
    ensures Flatten(argv) == Kept(s, false)
  {
    argv := [];
    var inQuotation := false;
    var start := 0;
    for pos := 0 to |s|
      invariant start <= pos
      invariant Tokens(s, false, []) == argv + Tokens(s[pos..], inQuotation, s[start..pos])
    {
      TokensStep(s, pos, start, inQuotation);
      if s[pos] == '"' {
        inQuotation := !inQuotation;
      } else if s[pos] == ' ' && !inQuotation {
        if pos > start {
          argv := argv + [s[start..pos]];
        }
        start := pos + 1;
      }
    }
    assert s[|s|..] == [] && s[start..|s|] == s[start..];
    if start < |s| {
      argv := argv + [s[start..]];
    } else {
      assert s[start..] == [] && argv + [] == argv;
    }
    TokensNonEmpty(s, false, []);
    TokensFlatten(s, false, []);
  }

  class TestManager {
    var cases: Option<seq<string>>
    var passed: nat
    var running: map<string, Usize>
    var failed: seq<string>

    /** `new`: no cases, nothing run. */
    constructor ()
      ensures cases == None && passed == 0 && running == map[] && failed == []
    {
      cases := None;
      passed := 0;
      running := map[];
      failed := [];
    }

    /** How many runs of `name` are outstanding, 0 for a name never loaded. */
    function Running(name: string): Usize
      reads this
    {
      if name in running then running[name] else 0
    }

    /** `init`: the list of test commands. */
    method Init(cs: seq<string>)
      modifies this
      ensures cases == Some(cs) && passed == old(passed) && running == old(running) && failed == old(failed)
    {
      cases := Some(cs);
    }

    /** `load`: one more run of `name` is outstanding (the count wraps as `usize` does). */
    method Load(name: string)
      modifies this
      ensures running == old(running)[name := Wrap(old(Running(name)) as int + 1)]
      ensures cases == old(cases) && passed == old(passed) && failed == old(failed)
    {
      var count := if name in running then Wrap(running[name] as int + 1) else 1;
      running := running[name := count];
    }

    /**
     * `exit`: a name never loaded is ignored; otherwise exit code 0 counts
     * a pass, any other code records the name as failed, and one run fewer
     * is outstanding (a count already at 0 wraps).
     */
    method Exit(code: int, name: string)
      modifies this
      ensures name !in old(running) ==> passed == old(passed) && failed == old(failed) && running == old(running)
      ensures name in old(running) && code == 0 ==> passed == old(passed) + 1 && failed == old(failed)
      ensures name in old(running) && code != 0 ==> passed == old(passed) && failed == old(failed) + [name]
      ensures name in old(running) ==> running == old(running)[name := Wrap(old(running)[name] as int - 1)]
      ensures cases == old(cases)
    {
      if name !in running {
        return;
      }
      if code == 0 {
        passed := passed + 1;
      } else {
        failed := failed + [name];
      }
      running := running[name := Wrap(running[name] as int - 1)];
    }
  }

  /**
   * Loading a test and reporting its exit records exactly one result and
   * leaves the outstanding count of every name as it was.
   */
  method LoadThenExit(m: TestManager, code: int, name: string)
    requires m.Running(name) < USIZE_MAX
    modifies m
    ensures m.passed + |m.failed| == old(m.passed + |m.failed|) + 1
    ensures forall n :: m.Running(n) == old(m.Running(n))
  {
    m.Load(name);
    m.Exit(code, name);
  }
}
