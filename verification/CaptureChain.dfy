/** The chain-capture functions of pysrc/dec_dyn.py: they call the capture functions of a pattern one
    after the other and stop at the first one that reports an error. */
module CaptureChain {
  import opened CaptureCode

  /** A line of a chain function: a statement, the check after a call, or the last return. */
  datatype ChainLine = Do(statement: Line) | ReturnIfError | ReturnNoError

  /** What a chain is made from: a nonterminal of the pattern, an operand with a lookup function, an
      operand with a constant or register, or an operand of another type. */
  datatype Link =
    | Nonterminal(fn: string)
    | Lookup(name: string, fn: string)
    | Direct(name: string, text: string)
    | Ignored

  // ----- Running a chain function -----

  ghost predicate WellFormed(lines: seq<ChainLine>) {
    forall i :: 0 <= i < |lines| && lines[i].Do? ==> IsStatement(lines[i].statement)
  }

  /** The state that a chain function leaves, and the error value that it returns; 0 is no error. */
  function Run(lines: seq<ChainLine>, st: State, env: Env): (State, int)
    requires WellFormed(lines)
  {
    if lines == [] || lines[0].ReturnNoError? then (st, 0)
    else if lines[0].ReturnIfError? then
      if Get(st, ERROR_OP) != 0 then (st, Get(st, ERROR_OP)) else Run(lines[1..], st, env)
    else Run(lines[1..], RunStatement(lines[0].statement, st, env), env)
  }

  /** The lines for one link. */
  function LinkLines(l: Link): (lines: seq<ChainLine>)
    ensures WellFormed(lines)
  {
    match l
    case Nonterminal(fn) => [Do(Call(fn)), ReturnIfError]
    case Lookup(name, fn) => [Do(Call(fn)), Do(Assign(name, Outreg)), ReturnIfError]
    case Direct(name, text) => [Do(Assign(name, Constant(text)))]
    case Ignored => []
  }

  function AllLines(links: seq<Link>): (lines: seq<ChainLine>)
    ensures WellFormed(lines)
  {
    if links == [] then [] else AllLines(links[..|links| - 1]) + LinkLines(links[|links| - 1])
  }

  // ----- What a chain is for -----

  /** What capturing one link does, whether or not it ends in an error. */
  function Capture(l: Link, st: State, env: Env): State {
    match l
    case Nonterminal(fn) => env.capture(fn, st)
    case Lookup(name, fn) => var s := env.capture(fn, st); s[name := Get(s, OUTREG_OP)]
    case Direct(name, text) => st[name := env.constant(text)]
    case Ignored => st
  }

  function CaptureAll(links: seq<Link>, st: State, env: Env): State {
    if links == [] then st else Capture(links[|links| - 1], CaptureAll(links[..|links| - 1], st, env), env)
  }

  /** Capturing link k ends in an error; constants and registers are never checked. */
  predicate FailsAt(links: seq<Link>, st: State, env: Env, k: nat) {
    k < |links| && (links[k].Nonterminal? || links[k].Lookup?)
    && Get(CaptureAll(links[..k + 1], st, env), ERROR_OP) != 0
  }

  /** How many links a chain captures: up to and including the first that fails. */
  ghost predicate StopsAfter(links: seq<Link>, st: State, env: Env, n: nat) {
    n <= |links| && (forall k :: 0 <= k < n - 1 ==> !FailsAt(links, st, env, k))
    && (if n < |links| then n > 0 && FailsAt(links, st, env, n - 1) else true)
  }

  /** The lines of one link, followed by others: its capture, then a return on an error or the rest. */
  lemma LinkRuns(l: Link, rest: seq<ChainLine>, st: State, env: Env)
    requires WellFormed(rest)
    ensures WellFormed(LinkLines(l) + rest)
    ensures var s := Capture(l, st, env);
      Run(LinkLines(l) + rest, st, env) ==
        if (l.Nonterminal? || l.Lookup?) && Get(s, ERROR_OP) != 0 then (s, Get(s, ERROR_OP)) else Run(rest, s, env)
  {
    var lines := LinkLines(l) + rest;
    match l {
      case Nonterminal(_) =>
        assert lines[1..][1..] == rest;
      case Lookup(name, fn) =>
        var called := env.capture(fn, st);
        assert lines[1..] == [Do(Assign(name, Outreg)), ReturnIfError] + rest;
        assert Run(lines, st, env) == Run(lines[1..], called, env);
        assert lines[1..][1..] == [ReturnIfError] + rest;
        assert Run(lines[1..], called, env) == Run([ReturnIfError] + rest, Capture(l, st, env), env);
        assert ([ReturnIfError] + rest)[1..] == rest;
      case Direct(_, _) =>
        assert lines[1..] == rest;
      case Ignored =>
        assert lines == rest;
    }
  }

  lemma LinesInFront(links: seq<Link>, n: nat, rest: seq<ChainLine>)
    requires 0 < n <= |links|
    ensures AllLines(links[..n]) + rest == AllLines(links[..n - 1]) + (LinkLines(links[n - 1]) + rest)
  {
    assert links[..n][..n - 1] == links[..n - 1];
  }

  lemma CapturedOneMore(links: seq<Link>, n: nat, st: State, env: Env)
    requires 0 < n <= |links|
    ensures CaptureAll(links[..n], st, env) == Capture(links[n - 1], CaptureAll(links[..n - 1], st, env), env)
  {
    assert links[..n][..n - 1] == links[..n - 1];
  }

  /** The first n links captured without failing, the function goes on behind their lines. */
  lemma {:induction false} PrefixRuns(links: seq<Link>, n: nat, rest: seq<ChainLine>, st: State, env: Env)
    requires n <= |links| && WellFormed(rest)
    requires forall k :: 0 <= k < n ==> !FailsAt(links, st, env, k)
    ensures WellFormed(AllLines(links[..n]) + rest)
    ensures Run(AllLines(links[..n]) + rest, st, env) == Run(rest, CaptureAll(links[..n], st, env), env)
    decreases n
  {
    if n == 0 {
      assert AllLines(links[..0]) + rest == rest;
    } else {
      LinkRuns(links[n - 1], rest, CaptureAll(links[..n - 1], st, env), env);
      PrefixRuns(links, n - 1, LinkLines(links[n - 1]) + rest, st, env);
      LinesInFront(links, n, rest);
      CapturedOneMore(links, n, st, env);
      assert !FailsAt(links, st, env, n - 1);
    }
  }

  /** Where the first capture fails, the function returns its error. */
  lemma StopsAt(links: seq<Link>, st: State, env: Env, n: nat)
    requires FailsAt(links, st, env, n) && forall k :: 0 <= k < n ==> !FailsAt(links, st, env, k)
    ensures var s := CaptureAll(links[..n + 1], st, env);
      Run(AllLines(links) + [ReturnNoError], st, env) == (s, Get(s, ERROR_OP))
  {
    var later := LaterLines(links, n + 1);
    LinesSplit(links, n);
    PrefixRuns(links, n, LinkLines(links[n]) + later, st, env);
    LinkRuns(links[n], later, CaptureAll(links[..n], st, env), env);
    CapturedOneMore(links, n + 1, st, env);
  }

  lemma RunsThrough(links: seq<Link>, st: State, env: Env)
    requires forall k :: 0 <= k < |links| ==> !FailsAt(links, st, env, k)
    ensures Run(AllLines(links) + [ReturnNoError], st, env) == (CaptureAll(links, st, env), 0)
  {
    PrefixRuns(links, |links|, [ReturnNoError], st, env);
    assert links[..|links|] == links;
  }

  /** A chain runs its captures in order and stops behind the first that fails: it leaves the state
      that these captures leave and returns the error, or no error when none failed. */
  lemma ChainStopsAtFirstError(links: seq<Link>, st: State, env: Env) returns (n: nat)
    ensures StopsAfter(links, st, env, n)
    ensures var (s, error) := Run(AllLines(links) + [ReturnNoError], st, env);
      && s == CaptureAll(links[..n], st, env)
      && (error != 0 <==> n > 0 && FailsAt(links, st, env, n - 1))
      && (error != 0 ==> error == Get(s, ERROR_OP))
  {
    n := 0;
    while n < |links| && !FailsAt(links, st, env, n)
      invariant n <= |links| && forall k :: 0 <= k < n ==> !FailsAt(links, st, env, k)
    {
      n := n + 1;
    }
    if n < |links| {
      StopsAt(links, st, env, n);
      n := n + 1;
    } else {
      RunsThrough(links, st, env);
      assert links[..n] == links;
    }
  }

  // ----- A chain, one state after the other -----

  /** What one link does: a nonterminal is captured, an operand takes what its lookup leaves in
      OUTREG or its constant, and others are left alone. */
  ghost predicate LinkDoes(l: Link, before: State, after: State, env: Env) {
    match l
    case Nonterminal(fn) => after == env.capture(fn, before)
    case Lookup(name, fn) =>
      var found := env.capture(fn, before);
      after == found[name := if "OUTREG" in found then found["OUTREG"] else 0]
    case Direct(name, text) => after == before[name := env.constant(text)]
    case Ignored => after == before
  }

  /** A call that leaves an error; constants and registers are not checked. */
  ghost predicate LinkFails(l: Link, after: State) {
    (l.Nonterminal? || l.Lookup?) && "error" in after && after["error"] != 0
  }

  lemma {:induction false} CaptureStates(links: seq<Link>, st: State, env: Env) returns (states: seq<State>)
    ensures |states| == |links| + 1 && states[0] == st
    ensures forall i :: 0 <= i <= |links| ==> states[i] == CaptureAll(links[..i], st, env)
    ensures forall i :: 0 <= i < |links| ==> LinkDoes(links[i], states[i], states[i + 1], env)
    decreases |links|
  {
    if links == [] {
      states := [st];
    } else {
      var n := |links| - 1;
      var before := CaptureStates(links[..n], st, env);
      states := before + [CaptureAll(links, st, env)];
      assert links[..|links|] == links;
      forall i | 0 <= i <= n ensures states[i] == CaptureAll(links[..i], st, env) {
        assert links[..n][..i] == links[..i];
      }
      forall i | 0 <= i < |links| ensures LinkDoes(links[i], states[i], states[i + 1], env) {
        if i < n {
          assert LinkDoes(links[..n][i], before[i], before[i + 1], env);
        }
      }
    }
  }

  /** The run of a chain: the states follow each other link by link, up to the first that fails, or
      through all of them; the last state is left, with its error or without one. */
  lemma ChainDoes(links: seq<Link>, st: State, env: Env) returns (states: seq<State>)
    ensures 1 <= |states| <= |links| + 1 && states[0] == st
    ensures forall i :: 0 <= i < |states| - 1 ==> LinkDoes(links[i], states[i], states[i + 1], env)
    ensures forall i :: 0 <= i < |states| - 2 ==> !LinkFails(links[i], states[i + 1])
    ensures |states| <= |links| ==> |states| > 1 && LinkFails(links[|states| - 2], states[|states| - 1])
    ensures var last := states[|states| - 1];
      Run(AllLines(links) + [ReturnNoError], st, env) ==
        (last, if |states| > 1 && LinkFails(links[|states| - 2], last) then last["error"] else 0)
  {
    var n := ChainStopsAtFirstError(links, st, env);
    var all := CaptureStates(links, st, env);
    states := all[..n + 1];
    forall i | 0 <= i < |links| ensures FailsAt(links, st, env, i) <==> LinkFails(links[i], all[i + 1]) {
      assert all[i + 1] == CaptureAll(links[..i + 1], st, env);
    }
  }

  function LaterLines(links: seq<Link>, n: nat): (lines: seq<ChainLine>)
    requires n <= |links|
    ensures WellFormed(lines)
    decreases |links| - n
  {
    if n == |links| then [ReturnNoError] else LinkLines(links[n]) + LaterLines(links, n + 1)
  }

  lemma {:induction false} LinesSplit(links: seq<Link>, n: nat)
    requires n < |links|
    ensures AllLines(links) + [ReturnNoError] == AllLines(links[..n]) + (LinkLines(links[n]) + LaterLines(links, n + 1))
    decreases |links| - n
  {
    LinesInFront(links, n + 1, LaterLines(links, n + 1));
    if n + 1 == |links| {
      assert links[..n + 1] == links;
    } else {
      LinesSplit(links, n + 1);
    }
  }

  // ----- The generators -----

  /** _gen_capture_chain_fo */
  method GenCaptureChain(names: seq<string>) returns (lines: seq<ChainLine>)
    ensures lines == AllLines(Nonterminals(names)) + [ReturnNoError]
  {
    lines := [];
    for i := 0 to |names|
      invariant lines == AllLines(Nonterminals(names[..i]))
    {
      assert Nonterminals(names[..i + 1]) == Nonterminals(names[..i]) + [Nonterminal(names[i])];
      AllLinesAppend(Nonterminals(names[..i]), Nonterminal(names[i]));
      lines := lines + [Do(Call(names[i])), ReturnIfError];
    }
    assert names[..|names|] == names;
    lines := lines + [ReturnNoError];
  }

  function Nonterminals(names: seq<string>): (links: seq<Link>)
    ensures |links| == |names| && forall i :: 0 <= i < |names| ==> links[i] == Nonterminal(names[i])
  {
    seq(|names|, i requires 0 <= i < |names| => Nonterminal(names[i]))
  }

  lemma AllLinesAppend(links: seq<Link>, l: Link)
    ensures AllLines(links + [l]) == AllLines(links) + LinkLines(l)
  {
    assert (links + [l])[..|links|] == links;
  }

  /** The lines for one operand of an instruction. */
  method OperandLines(l: Link) returns (lines: seq<ChainLine>)
    requires !l.Nonterminal?
    ensures lines == LinkLines(l)
  {
    match l {
      case Lookup(name, fn) =>
        lines := [Do(Call(fn))];
        lines := lines + [Do(Assign(name, Outreg))];
        lines := lines + [ReturnIfError];
      case Direct(name, text) =>
        lines := [Do(Assign(name, Constant(text)))];
      case Ignored =>
        lines := [];
    }
  }

  /** _gen_ntluf_capture_chain_fo, over the operands of an instruction */
  method GenNtlufChain(operands: seq<Link>) returns (lines: seq<ChainLine>)
    requires forall i :: 0 <= i < |operands| ==> !operands[i].Nonterminal?
    ensures lines == AllLines(operands) + [ReturnNoError]
  {
    lines := [];
    for i := 0 to |operands|
      invariant lines == AllLines(operands[..i])
    {
      assert operands[..i + 1] == operands[..i] + [operands[i]];
      AllLinesAppend(operands[..i], operands[i]);
      var own := OperandLines(operands[i]);
      lines := lines + own;
    }
    assert operands[..|operands|] == operands;
    lines := lines + [ReturnNoError];
  }
}
