/** The capture functions that pysrc/dec_dyn.py emits: the C lines, what running them does, and
    what the rules they were made from mean. */
module CaptureCode {
  import opened Wrappers

  /** The operand storage of a decoded instruction. */
  type State = map<string, int>

  function Get(st: State, op: string): int {
    if op in st then st[op] else 0
  }

  datatype Expr = Constant(text: string) | Outreg

  /** The lines of an emitted function, in a form without layout. */
  datatype Line =
    | DeclareKey
    | AddToKey(cname: string, shift: nat)
    | Switch
    | Case(key: int)
    | Default
    | Break
    | EndSwitch
    | Assign(op: string, value: Expr)
    | Call(fn: string)

  /** What the emitted code refers to: the values of C constants, the other capture functions, and
      what this compiler makes of a shift by 32 or more, which C leaves undefined. */
  datatype Env = Env(
    constant: string -> int,
    capture: (string, State) -> State,
    undefinedShift: (int, nat) -> int)

  const ERROR_OP := "error"
  const GENERAL_ERROR := "XED_ERROR_GENERAL_ERROR"
  const BAD_REGISTER := "XED_ERROR_BAD_REGISTER"
  const OUTREG_OP := "OUTREG"

  // ----- Running emitted lines -----

  function Eval(e: Expr, st: State, env: Env): int {
    match e
    case Constant(text) => env.constant(text)
    case Outreg => Get(st, OUTREG_OP)
  }

  predicate IsStatement(l: Line) {
    l.Assign? || l.Call?
  }

  function RunStatement(l: Line, st: State, env: Env): State
    requires IsStatement(l)
  {
    match l
    case Assign(op, value) => st[op := Eval(value, st, env)]
    case Call(fn) => env.capture(fn, st)
  }

  /** Execution falls through labels and ends at a break. */
  function Exec(lines: seq<Line>, st: State, env: Env): State {
    if lines == [] || lines[0].Break? then st
    else if IsStatement(lines[0]) then Exec(lines[1..], RunStatement(lines[0], st, env), env)
    else Exec(lines[1..], st, env)
  }

  const KEY_MODULUS: nat := 0x1_0000_0000

  /** xed_uint32_t arithmetic */
  function Wrap(x: int): nat {
    x % KEY_MODULUS
  }

  /** Where the switch jumps to: behind the first label equal to key. C converts every label to the
      type of the key. */
  function Jump(lines: seq<Line>, key: int): Option<seq<Line>> {
    if lines == [] then None
    else if lines[0].Case? && Wrap(lines[0].key) == key then Some(lines[1..])
    else Jump(lines[1..], key)
  }

  /** The lines after the first label written as key. */
  function Enter(lines: seq<Line>, key: int): Option<seq<Line>> {
    if lines == [] then None
    else if lines[0] == Case(key) then Some(lines[1..])
    else Enter(lines[1..], key)
  }

  function EnterDefault(lines: seq<Line>): Option<seq<Line>> {
    if lines == [] then None
    else if lines[0].Default? then Some(lines[1..])
    else EnterDefault(lines[1..])
  }

  function RunSwitch(lines: seq<Line>, key: int, st: State, env: Env): State {
    var target := if Jump(lines, key).Some? then Jump(lines, key) else EnterDefault(lines);
    if target.Some? then Exec(target.value, st, env) else st
  }

  function Labels(lines: seq<Line>): seq<int> {
    if lines == [] then [] else LabelsOf(lines[0]) + Labels(lines[1..])
  }

  function LabelsOf(l: Line): seq<int> {
    if l.Case? then [l.key] else []
  }

  /** The labels as C converts them; it accepts no two that are equal. */
  function Wraps(ks: seq<int>): (r: seq<int>)
    ensures |r| == |ks| && forall i :: 0 <= i < |ks| ==> r[i] == Wrap(ks[i])
  {
    seq(|ks|, i requires 0 <= i < |ks| => Wrap(ks[i]))
  }

  function SkipLabels(lines: seq<Line>): seq<Line> {
    if lines != [] && lines[0].Case? then SkipLabels(lines[1..]) else lines
  }

  function Cases(ks: seq<int>): seq<Line> {
    if ks == [] then [] else [Case(ks[0])] + Cases(ks[1..])
  }

  predicate Straight(lines: seq<Line>) {
    forall l :: l in lines ==> IsStatement(l)
  }

  lemma {:induction false} EnterAppend(a: seq<Line>, b: seq<Line>, key: int)
    ensures Enter(a + b, key) == if Enter(a, key).Some? then Some(Enter(a, key).value + b) else Enter(b, key)
  {
    if a == [] {
      assert a + b == b;
    } else {
      assert (a + b)[1..] == a[1..] + b;
      EnterAppend(a[1..], b, key);
    }
  }

  lemma {:induction false} LabelsAppend(a: seq<Line>, b: seq<Line>)
    ensures Labels(a + b) == Labels(a) + Labels(b)
  {
    if a == [] {
      assert a + b == b;
    } else {
      assert (a + b)[1..] == a[1..] + b;
      LabelsAppend(a[1..], b);
    }
  }

  lemma {:induction false} EnterIffLabel(lines: seq<Line>, key: int)
    ensures Enter(lines, key).Some? <==> key in Labels(lines)
  {
    if lines != [] {
      EnterIffLabel(lines[1..], key);
    }
  }

  /** Where no other label converts to the same key, the switch jumps behind the label as written. */
  lemma {:induction false} JumpIsEnter(lines: seq<Line>, k: int)
    requires forall l :: l in Labels(lines) && Wrap(l) == Wrap(k) ==> l == k
    ensures Jump(lines, Wrap(k)) == Enter(lines, k)
  {
    if lines != [] {
      assert lines[0].Case? ==> lines[0].key in Labels(lines);
      JumpIsEnter(lines[1..], k);
    }
  }

  lemma {:induction false} JumpIffLabel(lines: seq<Line>, key: int)
    ensures Jump(lines, key).Some? <==> key in Wraps(Labels(lines))
  {
    if lines != [] {
      JumpIffLabel(lines[1..], key);
      WrapsAppend(LabelsOf(lines[0]), Labels(lines[1..]));
      assert lines[0].Case? ==> Wraps(LabelsOf(lines[0])) == [Wrap(lines[0].key)];
    }
  }

  lemma WrapsAppend(a: seq<int>, b: seq<int>)
    ensures Wraps(a + b) == Wraps(a) + Wraps(b)
  {
  }

  lemma {:induction false} CasesLabels(ks: seq<int>)
    ensures Labels(Cases(ks)) == ks
  {
    if ks != [] {
      CasesLabels(ks[1..]);
      assert Cases(ks)[1..] == Cases(ks[1..]);
    }
  }

  lemma {:induction false} StraightLabels(lines: seq<Line>)
    requires Straight(lines)
    ensures Labels(lines) == []
  {
    if lines != [] {
      assert lines[0] in lines;
      StraightLabels(lines[1..]);
    }
  }

  /** Jumping among the labels of a group leads to the group's body. */
  lemma {:induction false} EnterCases(ks: seq<int>, key: int, rest: seq<Line>)
    requires key in ks && (rest == [] || !rest[0].Case?)
    ensures Enter(Cases(ks) + rest, key).Some?
    ensures SkipLabels(Enter(Cases(ks) + rest, key).value) == rest
  {
    assert (Cases(ks) + rest)[1..] == Cases(ks[1..]) + rest;
    if ks[0] == key {
      SkipCases(ks[1..], rest);
    } else {
      EnterCases(ks[1..], key, rest);
    }
  }

  lemma {:induction false} SkipCases(ks: seq<int>, rest: seq<Line>)
    requires rest == [] || !rest[0].Case?
    ensures SkipLabels(Cases(ks) + rest) == rest
  {
    if ks == [] {
      assert Cases(ks) + rest == rest;
    } else {
      assert (Cases(ks) + rest)[1..] == Cases(ks[1..]) + rest;
      SkipCases(ks[1..], rest);
    }
  }

  lemma {:induction false} ExecSkips(lines: seq<Line>, st: State, env: Env)
    ensures Exec(lines, st, env) == Exec(SkipLabels(lines), st, env)
  {
    if lines != [] && lines[0].Case? {
      ExecSkips(lines[1..], st, env);
    }
  }

  /** A body runs to its break, whatever follows. */
  lemma {:induction false} ExecBody(body: seq<Line>, rest: seq<Line>, st: State, env: Env)
    requires Straight(body)
    ensures Exec(body + [Break] + rest, st, env) == Exec(body, st, env)
  {
    var all := body + [Break] + rest;
    if body != [] {
      assert body[0] in body;
      assert all[1..] == body[1..] + [Break] + rest;
      ExecBody(body[1..], rest, RunStatement(body[0], st, env), env);
    }
  }

  lemma {:induction false} ExecAppend(a: seq<Line>, b: seq<Line>, st: State, env: Env)
    requires Straight(a)
    ensures Exec(a + b, st, env) == Exec(b, Exec(a, st, env), env)
  {
    if a == [] {
      assert a + b == b;
    } else {
      assert a[0] in a && (a + b)[1..] == a[1..] + b;
      ExecAppend(a[1..], b, RunStatement(a[0], st, env), env);
    }
  }

  lemma StraightAppend(a: seq<Line>, b: seq<Line>, st: State, env: Env)
    requires Straight(a) && Straight(b)
    ensures Straight(a + b) && Exec(a + b, st, env) == Exec(b, Exec(a, st, env), env)
  {
    ExecAppend(a, b, st, env);
  }
}

/** Rules of a nonterminal, their meaning, and the generator. */
module DecDyn {
  import opened ConstraintSpec
  import opened CaptureCode

  /** The kinds of right-hand-side operands the generator tells apart. */
  datatype Kind = ErrorKind | Imm | NtLookup(fn: string) | Other

  datatype Operand = Operand(name: string, kind: Kind, bits: string)

  datatype NtRule = NtRule(constraints: Rule, patternNts: seq<string>, operands: seq<Operand>)

  // ----- What a rule means -----

  predicate IsErrorRule(rule: NtRule) {
    exists i :: 0 <= i < |rule.operands| && rule.operands[i].kind.ErrorKind?
  }

  function Captured(nts: seq<string>, st: State, env: Env): State {
    if nts == [] then st else Captured(nts[1..], env.capture(nts[0], st), env)
  }

  /** One operand is left alone, takes the register a nonterminal found, or takes a constant. */
  function OperandEffect(op: Operand, st: State, env: Env): State {
    if op.name == "ENCODER_PREFERRED" || op.kind.Imm? then st
    else if op.kind.NtLookup? then
      var found := env.capture(op.kind.fn, st);
      if op.name == OUTREG_OP then found else found[op.name := Get(found, OUTREG_OP)]
    else
      var bound := st[op.name := env.constant(op.bits)];
      if op.bits == "XED_REG_ERROR" then bound[ERROR_OP := env.constant(BAD_REGISTER)] else bound
  }

  function OperandsEffect(ops: seq<Operand>, st: State, env: Env): State {
    if ops == [] then st else OperandsEffect(ops[1..], OperandEffect(ops[0], st, env), env)
  }

  function RuleEffect(rule: NtRule, st: State, env: Env): State {
    if IsErrorRule(rule) then st[ERROR_OP := env.constant(GENERAL_ERROR)]
    else OperandsEffect(rule.operands, Captured(rule.patternNts, st, env), env)
  }

  // ----- What a rule does, one step after the other -----

  /** One operand: the encoder's preference and immediates are skipped, a lookup takes what the
      nonterminal leaves in OUTREG, and any other operand its constant, with an error for a bad register. */
  ghost predicate OperandDoes(op: Operand, before: State, after: State, env: Env) {
    if op.name == "ENCODER_PREFERRED" || op.kind == Imm then after == before
    else
      match op.kind
      case NtLookup(fn) =>
        var found := env.capture(fn, before);
        if op.name == "OUTREG" then after == found
        else after == found[op.name := if "OUTREG" in found then found["OUTREG"] else 0]
      case _ =>
        after ==
          if op.bits == "XED_REG_ERROR"
          then before[op.name := env.constant(op.bits)]["error" := env.constant("XED_ERROR_BAD_REGISTER")]
          else before[op.name := env.constant(op.bits)]
  }

  /** The states from one capture of the pattern to the next, and from one operand to the next. */
  ghost predicate RuleStates(rule: NtRule, states: seq<State>, env: Env) {
    var n := |rule.patternNts|;
    && |states| == n + |rule.operands| + 1
    && (forall i :: 0 <= i < n ==> states[i + 1] == env.capture(rule.patternNts[i], states[i]))
    && forall j :: 0 <= j < |rule.operands| ==> OperandDoes(rule.operands[j], states[n + j], states[n + j + 1], env)
  }

  /** A rule with an error operand sets the general error; any other captures its pattern and then
      its operands, in order. */
  ghost predicate RuleDoes(rule: NtRule, st: State, after: State, env: Env) {
    if exists i :: 0 <= i < |rule.operands| && rule.operands[i].kind == ErrorKind
    then after == st["error" := env.constant("XED_ERROR_GENERAL_ERROR")]
    else exists states :: RuleStates(rule, states, env) && states[0] == st && states[|states| - 1] == after
  }

  lemma {:induction false} CapturedStates(nts: seq<string>, st: State, env: Env) returns (states: seq<State>)
    ensures |states| == |nts| + 1 && states[0] == st && states[|nts|] == Captured(nts, st, env)
    ensures forall i :: 0 <= i < |nts| ==> states[i + 1] == env.capture(nts[i], states[i])
  {
    states := [st];
    if nts != [] {
      var later := CapturedStates(nts[1..], env.capture(nts[0], st), env);
      states := states + later;
      forall i | 0 <= i < |nts| ensures states[i + 1] == env.capture(nts[i], states[i]) {
        if i > 0 {
          assert later[i] == env.capture(nts[1..][i - 1], later[i - 1]);
        }
      }
    }
  }

  lemma OperandEffectDoes(op: Operand, st: State, env: Env)
    ensures OperandDoes(op, st, OperandEffect(op, st, env), env)
  {
  }

  lemma {:induction false} OperandStates(ops: seq<Operand>, st: State, env: Env) returns (states: seq<State>)
    ensures |states| == |ops| + 1 && states[0] == st && states[|ops|] == OperandsEffect(ops, st, env)
    ensures forall j :: 0 <= j < |ops| ==> OperandDoes(ops[j], states[j], states[j + 1], env)
  {
    states := [st];
    if ops != [] {
      OperandEffectDoes(ops[0], st, env);
      var later := OperandStates(ops[1..], OperandEffect(ops[0], st, env), env);
      states := states + later;
      forall j | 0 <= j < |ops| ensures OperandDoes(ops[j], states[j], states[j + 1], env) {
        if j > 0 {
          assert OperandDoes(ops[1..][j - 1], later[j - 1], later[j], env);
        }
      }
    }
  }

  lemma RuleEffectDoes(rule: NtRule, st: State, env: Env)
    ensures RuleDoes(rule, st, RuleEffect(rule, st, env), env)
  {
    if !IsErrorRule(rule) {
      var states := StatesOfRule(rule, st, env);
    }
  }

  lemma StatesOfRule(rule: NtRule, st: State, env: Env) returns (states: seq<State>)
    ensures RuleStates(rule, states, env) && states[0] == st
    ensures states[|states| - 1] == OperandsEffect(rule.operands, Captured(rule.patternNts, st, env), env)
  {
    var first := CapturedStates(rule.patternNts, st, env);
    var second := OperandStates(rule.operands, first[|rule.patternNts|], env);
    states := first + second[1..];
    StatesJoin(rule, first, second, env);
  }

  lemma StatesJoin(rule: NtRule, first: seq<State>, second: seq<State>, env: Env)
    requires |first| == |rule.patternNts| + 1 && |second| == |rule.operands| + 1 && first[|first| - 1] == second[0]
    requires forall i :: 0 <= i < |first| - 1 ==> first[i + 1] == env.capture(rule.patternNts[i], first[i])
    requires forall j :: 0 <= j < |second| - 1 ==> OperandDoes(rule.operands[j], second[j], second[j + 1], env)
    ensures RuleStates(rule, first + second[1..], env)
  {
    var n, states := |rule.patternNts|, first + second[1..];
    forall i | 0 <= i < n ensures states[i + 1] == env.capture(rule.patternNts[i], states[i]) {
      assert states[i] == first[i] && states[i + 1] == first[i + 1];
    }
    forall j | 0 <= j < |rule.operands|
      ensures OperandDoes(rule.operands[j], states[n + j], states[n + j + 1], env)
    {
      assert states[n + j] == second[j] && states[n + j + 1] == second[j + 1];
    }
  }

  // ----- The lines emitted for a rule -----

  function CallLines(nts: seq<string>): seq<Line> {
    if nts == [] then [] else CallLines(nts[..|nts| - 1]) + [Call(nts[|nts| - 1])]
  }

  function OperandLines(op: Operand): seq<Line> {
    if op.name == "ENCODER_PREFERRED" || op.kind.Imm? then []
    else if op.kind.NtLookup? then
      [Call(op.kind.fn)] + if op.name == OUTREG_OP then [] else [Assign(op.name, Outreg)]
    else
      [Assign(op.name, Constant(op.bits))]
      + if op.bits == "XED_REG_ERROR" then [Assign(ERROR_OP, Constant(BAD_REGISTER))] else []
  }

  function OperandsLines(ops: seq<Operand>): seq<Line> {
    if ops == [] then [] else OperandsLines(ops[..|ops| - 1]) + OperandLines(ops[|ops| - 1])
  }

  function RhsLines(rule: NtRule): seq<Line> {
    if IsErrorRule(rule) then [Assign(ERROR_OP, Constant(GENERAL_ERROR))]
    else CallLines(rule.patternNts) + OperandsLines(rule.operands)
  }

  lemma {:induction false} CallLinesRun(nts: seq<string>, st: State, env: Env)
    ensures Straight(CallLines(nts)) && Exec(CallLines(nts), st, env) == Captured(nts, st, env)
  {
    if nts != [] {
      var init, last := nts[..|nts| - 1], nts[|nts| - 1];
      CallLinesRun(init, st, env);
      ExecAppend(CallLines(init), [Call(last)], st, env);
      CapturedSnoc(init, last, st, env);
      assert nts == init + [last];
    }
  }

  lemma {:induction false} CapturedSnoc(nts: seq<string>, nt: string, st: State, env: Env)
    ensures Captured(nts + [nt], st, env) == env.capture(nt, Captured(nts, st, env))
  {
    if nts == [] {
      assert Captured(([nt])[1..], env.capture(nt, st), env) == env.capture(nt, st);
    } else {
      assert (nts + [nt])[1..] == nts[1..] + [nt];
      CapturedSnoc(nts[1..], nt, env.capture(nts[0], st), env);
    }
  }

  lemma {:induction false} OperandsSnoc(ops: seq<Operand>, op: Operand, st: State, env: Env)
    ensures OperandsEffect(ops + [op], st, env) == OperandEffect(op, OperandsEffect(ops, st, env), env)
  {
    if ops == [] {
      assert ([op])[1..] == [];
    } else {
      assert (ops + [op])[1..] == ops[1..] + [op];
      OperandsSnoc(ops[1..], op, OperandEffect(ops[0], st, env), env);
    }
  }

  lemma OperandLinesRun(op: Operand, st: State, env: Env)
    ensures Straight(OperandLines(op)) && Exec(OperandLines(op), st, env) == OperandEffect(op, st, env)
  {
    var lines := OperandLines(op);
    if lines != [] {
      var after := RunStatement(lines[0], st, env);
      assert Exec(lines, st, env) == Exec(lines[1..], after, env);
      if |lines| == 2 {
        assert lines[1..] == [lines[1]] && lines[1..][1..] == [];
        assert Exec(lines[1..], after, env) == Exec([], RunStatement(lines[1], after, env), env);
      } else {
        assert lines[1..] == [];
      }
    }
  }

  lemma {:induction false} OperandsLinesRun(ops: seq<Operand>, st: State, env: Env)
    ensures Straight(OperandsLines(ops)) && Exec(OperandsLines(ops), st, env) == OperandsEffect(ops, st, env)
  {
    if ops != [] {
      var init, last := ops[..|ops| - 1], ops[|ops| - 1];
      OperandsLinesRun(init, st, env);
      OperandLinesRun(last, OperandsEffect(init, st, env), env);
      StraightAppend(OperandsLines(init), OperandLines(last), st, env);
      OperandsSnoc(init, last, st, env);
      assert ops == init + [last];
      assert OperandsLines(ops) == OperandsLines(init) + OperandLines(last);
    }
  }

  /** The emitted body does what the rule means. */
  lemma RhsLinesRun(rule: NtRule, st: State, env: Env)
    ensures Straight(RhsLines(rule)) && Exec(RhsLines(rule), st, env) == RuleEffect(rule, st, env)
  {
    if IsErrorRule(rule) {
      var l := Assign(ERROR_OP, Constant(GENERAL_ERROR));
      assert Exec([l], st, env) == Exec([l][1..], RunStatement(l, st, env), env);
    } else {
      CallLinesRun(rule.patternNts, st, env);
      OperandsLinesRun(rule.operands, Captured(rule.patternNts, st, env), env);
      ExecAppend(CallLines(rule.patternNts), OperandsLines(rule.operands), st, env);
    }
  }

  // ----- Keys at run time -----

  const KEY_BITS: nat := 32

  /** key += (accessor) << (shift) */
  function AddShifted(key: nat, v: int, shift: nat, env: Env): nat {
    Wrap(key + Wrap(if shift < KEY_BITS then v * Pow2(shift) else env.undefinedShift(v, shift)))
  }

  /** The emitted function: key lines, then the switch; without constraints just the body. */
  function RunCapture(lines: seq<Line>, key: nat, st: State, env: Env): State {
    if lines == [] then st
    else match lines[0]
      case DeclareKey => RunCapture(lines[1..], 0, st, env)
      case AddToKey(cname, shift) => RunCapture(lines[1..], AddShifted(key, Get(st, cname), shift, env), st, env)
      case Switch => RunSwitch(lines[1..], key, st, env)
      case _ => Exec(lines, st, env)
  }

  function WidthsOf(names: seq<string>, widths: map<string, nat>): (ws: seq<nat>)
    requires forall n :: n in names ==> n in widths
    ensures |ws| == |names| && forall i :: 0 <= i < |ws| ==> ws[i] == widths[names[i]]
  {
    if names == [] then [] else WidthsOf(names[..|names| - 1], widths) + [widths[names[|names| - 1]]]
  }

  /** The operand values a state offers to the constraints. */
  function TupleOf(st: State, names: seq<string>): (t: Tuple)
    ensures |t| == |names|
  {
    seq(|names|, i requires 0 <= i < |names| => Get(st, names[i]))
  }

  /** The key lines after the declaration. */
  function KeyLines(names: seq<string>, widths: map<string, nat>): seq<Line>
    requires forall n :: n in names ==> n in widths
  {
    if names == [] then []
    else
      var init := names[..|names| - 1];
      KeyLines(init, widths) + [AddToKey(names[|names| - 1], Total(WidthsOf(init, widths)))]
  }

  /** C defines every shift of the key lines. */
  ghost predicate ShiftsDefined(names: seq<string>, widths: map<string, nat>)
    requires forall n :: n in names ==> n in widths
  {
    forall l :: l in KeyLines(names, widths) ==> l.AddToKey? && l.shift < KEY_BITS
  }

  lemma {:induction false} ShiftsGrow(names: seq<string>, widths: map<string, nat>)
    requires forall n :: n in names ==> n in widths
    ensures forall l :: l in KeyLines(names, widths) ==> l.AddToKey? && l.shift <= Total(WidthsOf(names, widths))
  {
    if names != [] {
      var init := names[..|names| - 1];
      ShiftsGrow(init, widths);
      TotalSnoc(WidthsOf(init, widths), widths[names[|names| - 1]]);
    }
  }

  /** It does exactly when the widths of all names but the last stay below 32 bits. */
  lemma ShiftsAreDefined(names: seq<string>, widths: map<string, nat>)
    requires forall n :: n in names ==> n in widths
    ensures ShiftsDefined(names, widths) <==>
      names == [] || Total(WidthsOf(names[..|names| - 1], widths)) < KEY_BITS
  {
    if names != [] {
      var init := names[..|names| - 1];
      var l := AddToKey(names[|names| - 1], Total(WidthsOf(init, widths)));
      ShiftsGrow(init, widths);
      assert KeyLines(names, widths) == KeyLines(init, widths) + [l];
      assert l in KeyLines(names, widths);
    }
  }

  lemma {:induction false} TotalSnoc(ws: seq<nat>, w: nat)
    ensures Total(ws + [w]) == Total(ws) + w
  {
    if ws == [] {
      assert ([w])[1..] == [];
    } else {
      assert (ws + [w])[1..] == ws[1..] + [w];
      TotalSnoc(ws[1..], w);
    }
  }

  lemma Distributes(p: int, q: int, v: int, r: int)
    ensures p * (q + v * r) == p * q + v * (p * r)
  {
    assert p * (v * r) == v * (p * r);
  }

  /** A further component is added above all the others. */
  lemma {:induction false} PackSnoc(t: Tuple, ws: seq<nat>, v: int, w: nat)
    requires |t| == |ws|
    ensures Pack(t + [v], ws + [w]) == Pack(t, ws) + v * Pow2(Total(ws))
  {
    if t == [] {
      assert ([v])[1..] == [] && ([w])[1..] == [];
      assert t + [v] == [v] && ws + [w] == [w];
    } else {
      assert (t + [v])[1..] == t[1..] + [v] && (ws + [w])[1..] == ws[1..] + [w];
      PackSnoc(t[1..], ws[1..], v, w);
      Pow2Adds(ws[0], Total(ws[1..]));
      Distributes(Pow2(ws[0]), Pack(t[1..], ws[1..]), v, Pow2(Total(ws[1..])));
    }
  }

  lemma {:induction false} Pow2Grows(a: nat, b: nat)
    requires a <= b
    ensures Pow2(a) <= Pow2(b)
  {
    if a < b {
      Pow2Grows(a, b - 1);
    }
  }

  lemma Pow2Plus8(n: nat)
    ensures Pow2(n + 8) == 256 * Pow2(n)
  {
    assert Pow2(n + 2) == 4 * Pow2(n);
    assert Pow2(n + 4) == 16 * Pow2(n);
    assert Pow2(n + 6) == 64 * Pow2(n);
  }

  lemma Pow2Of32(n: nat)
    requires n <= 32
    ensures Pow2(n) <= KEY_MODULUS
  {
    Pow2Grows(n, 32);
    Pow2Plus8(0);
    Pow2Plus8(8);
    Pow2Plus8(16);
    Pow2Plus8(24);
  }

  lemma WrapAdds(x: int, y: int)
    ensures Wrap(Wrap(x) + Wrap(y)) == Wrap(x + y)
  {
  }

  lemma TupleSnoc(names: seq<string>, widths: map<string, nat>, st: State)
    requires names != [] && forall n :: n in names ==> n in widths
    ensures var n := |names| - 1;
            TupleOf(st, names) == TupleOf(st, names[..n]) + [Get(st, names[n])]
    ensures var n := |names| - 1;
            WidthsOf(names, widths) == WidthsOf(names[..n], widths) + [widths[names[n]]]
  {
  }

  lemma LastShift(names: seq<string>, widths: map<string, nat>)
    requires names != [] && (forall n :: n in names ==> n in widths) && ShiftsDefined(names, widths)
    ensures var init := names[..|names| - 1];
      ShiftsDefined(init, widths) && Total(WidthsOf(init, widths)) < KEY_BITS
  {
    var init := names[..|names| - 1];
    var l := AddToKey(names[|names| - 1], Total(WidthsOf(init, widths)));
    assert KeyLines(names, widths) == KeyLines(init, widths) + [l];
    assert l in KeyLines(names, widths);
  }

  lemma AddsShifted(name: string, shift: nat, rest: seq<Line>, key: nat, st: State, env: Env)
    requires shift < KEY_BITS
    ensures RunCapture([AddToKey(name, shift)] + rest, key, st, env)
         == RunCapture(rest, Wrap(key + Wrap(Get(st, name) * Pow2(shift))), st, env)
  {
    assert ([AddToKey(name, shift)] + rest)[1..] == rest;
  }

  lemma PackedAdds(names: seq<string>, widths: map<string, nat>, st: State)
    requires names != [] && forall n :: n in names ==> n in widths
    ensures var init := names[..|names| - 1];
      var ws := WidthsOf(init, widths);
      Wrap(Wrap(Pack(TupleOf(st, init), ws)) + Wrap(Get(st, names[|names| - 1]) * Pow2(Total(ws))))
      == Wrap(Pack(TupleOf(st, names), WidthsOf(names, widths)))
  {
    var n := |names| - 1;
    var init, ws, v := names[..n], WidthsOf(names[..n], widths), Get(st, names[n]);
    TupleSnoc(names, widths, st);
    PackSnoc(TupleOf(st, init), ws, v, widths[names[n]]);
    WrapAdds(Pack(TupleOf(st, init), ws), v * Pow2(Total(ws)));
  }

  /** One key line adds one component. */
  lemma KeyLineAdds(names: seq<string>, widths: map<string, nat>, rest: seq<Line>, st: State, env: Env)
    requires names != [] && forall n :: n in names ==> n in widths
    requires Total(WidthsOf(names[..|names| - 1], widths)) < KEY_BITS
    ensures var init := names[..|names| - 1];
      var ws := WidthsOf(init, widths);
      RunCapture([AddToKey(names[|names| - 1], Total(ws))] + rest, Wrap(Pack(TupleOf(st, init), ws)), st, env)
      == RunCapture(rest, Wrap(Pack(TupleOf(st, names), WidthsOf(names, widths))), st, env)
  {
    var init := names[..|names| - 1];
    var ws := WidthsOf(init, widths);
    PackedAdds(names, widths, st);
    AddsShifted(names[|names| - 1], Total(ws), rest, Wrap(Pack(TupleOf(st, init), ws)), st, env);
  }

  /** The emitted uint32 sum is the packed tuple modulo 2^32, for any operand values, where C defines
      all of its shifts. */
  lemma {:induction false} KeyLinesPack(names: seq<string>, widths: map<string, nat>, rest: seq<Line>,
                                        st: State, env: Env)
    requires (forall n :: n in names ==> n in widths) && ShiftsDefined(names, widths)
    ensures RunCapture(KeyLines(names, widths) + rest, 0, st, env)
         == RunCapture(rest, Wrap(Pack(TupleOf(st, names), WidthsOf(names, widths))), st, env)
    decreases |names|
  {
    if names == [] {
      assert KeyLines(names, widths) + rest == rest;
    } else {
      var init := names[..|names| - 1];
      var l := AddToKey(names[|names| - 1], Total(WidthsOf(init, widths)));
      LastShift(names, widths);
      KeyLinesPack(init, widths, [l] + rest, st, env);
      KeyLineAdds(names, widths, rest, st, env);
      assert KeyLines(names, widths) + rest == KeyLines(init, widths) + ([l] + rest);
    }
  }

  /** The greatest value of every width. */
  function Largest(ws: seq<nat>): (t: Tuple)
    ensures Fits(t, ws)
  {
    if ws == [] then [] else [Pow2(ws[0]) - 1] + Largest(ws[1..])
  }

  lemma {:induction false} LargestPacks(ws: seq<nat>)
    ensures Pack(Largest(ws), ws) == Pow2(Total(ws)) - 1
  {
    if ws != [] {
      LargestPacks(ws[1..]);
      Pow2Adds(ws[0], Total(ws[1..]));
      assert Largest(ws)[1..] == Largest(ws[1..]);
      Distributes(Pow2(ws[0]), Pow2(Total(ws[1..])), -1, 1);
    }
  }

  /** Every number of as many bits as the widths add up to is a packed tuple. */
  lemma {:induction false} PackUnpack(n: int, ws: seq<nat>)
    requires 0 <= n < Pow2(Total(ws))
    ensures Fits(Unpack(n, ws), ws) && Pack(Unpack(n, ws), ws) == n
    decreases |ws|
  {
    if ws != [] {
      var p, rest := Pow2(ws[0]), Pow2(Total(ws[1..]));
      Pow2Adds(ws[0], Total(ws[1..]));
      QuotientBelow(n, p, rest);
      var q, m := n / p, n % p;
      PackUnpack(q, ws[1..]);
      PackFront(m, Unpack(q, ws[1..]), ws);
    }
  }

  lemma PackFront(v: int, t: Tuple, ws: seq<nat>)
    requires ws != [] && Fits(t, ws[1..]) && 0 <= v < Pow2(ws[0])
    ensures Fits([v] + t, ws) && Pack([v] + t, ws) == v + Pow2(ws[0]) * Pack(t, ws[1..])
  {
    assert ([v] + t)[1..] == t;
  }

  lemma QuotientBelow(n: int, p: int, rest: int)
    requires p > 0 && 0 <= n < p * rest
    ensures 0 <= n / p < rest && n == n % p + p * (n / p)
  {
    var q := n / p;
    MultipleIsFar(p, q - rest + 1);
    assert p * (q - rest + 1) == p * q - p * rest + p;
  }

  /** The uint32 key tells all fitting tuples apart exactly when the widths add up to at most 32. */
  lemma KeysTellApart(ws: seq<nat>)
    ensures (forall t, u :: Fits(t, ws) && Fits(u, ws) && Wrap(Pack(t, ws)) == Wrap(Pack(u, ws)) ==> t == u)
       <==> Total(ws) <= 32
  {
    KeyIsExact(ws);
    if Total(ws) <= 32 {
      forall t, u | Fits(t, ws) && Fits(u, ws) && Wrap(Pack(t, ws)) == Wrap(Pack(u, ws))
        ensures t == u
      {
        PackInjective(t, u, ws);
      }
    } else {
      Pow2Grows(33, Total(ws));
      Pow2Of33();
      PackUnpack(0, ws);
      PackUnpack(KEY_MODULUS, ws);
      var t, u := Unpack(0, ws), Unpack(KEY_MODULUS, ws);
      assert Wrap(Pack(t, ws)) == Wrap(Pack(u, ws)) && t != u;
    }
  }

  /** Packing to uint32 loses nothing for any fitting tuple exactly when the widths add up to at
      most 32. */
  lemma KeyIsExact(ws: seq<nat>)
    ensures (forall t :: Fits(t, ws) ==> Wrap(Pack(t, ws)) == Pack(t, ws)) <==> Total(ws) <= 32
  {
    if Total(ws) <= 32 {
      forall t | Fits(t, ws)
        ensures Wrap(Pack(t, ws)) == Pack(t, ws)
      {
        UnpackPack(t, ws);
        Pow2Of32(Total(ws));
      }
    } else {
      LargestPacks(ws);
      Pow2Grows(33, Total(ws));
      Pow2Of33();
      assert Wrap(Pack(Largest(ws), ws)) != Pack(Largest(ws), ws);
    }
  }

  lemma Pow2Of33()
    ensures Pow2(33) == 2 * KEY_MODULUS
  {
    Pow2Plus8(1);
    Pow2Plus8(9);
    Pow2Plus8(17);
    Pow2Plus8(25);
  }

  // ----- The switch -----

  /** The lines jump for exactly the keys of sel, each to the body of its rule. */
  ghost predicate Selects(lines: seq<Line>, sel: map<int, nat>, rules: seq<NtRule>) {
    && (forall k :: k in sel <==> Enter(lines, k).Some?)
    && (forall k :: k in sel ==> sel[k] < |rules|)
    && (forall k :: k in sel ==> RhsLines(rules[sel[k]]) + [Break] <= SkipLabels(Enter(lines, k).value))
  }

  function Group(ks: seq<int>, rule: NtRule): seq<Line> {
    Cases(ks) + (RhsLines(rule) + [Break])
  }

  lemma {:induction false} SkipAppend(a: seq<Line>, b: seq<Line>)
    requires SkipLabels(a) != []
    ensures SkipLabels(a + b) == SkipLabels(a) + b
  {
    if a[0].Case? {
      assert (a + b)[1..] == a[1..] + b;
      SkipAppend(a[1..], b);
    }
  }

  lemma GroupLabels(ks: seq<int>, rule: NtRule)
    ensures Labels(Group(ks, rule)) == ks
  {
    CasesLabels(ks);
    LabelsAppend(Cases(ks), RhsLines(rule) + [Break]);
    LabelsAppend(RhsLines(rule), [Break]);
    RhsStraight(rule);
    StraightLabels(RhsLines(rule));
    assert [Break][1..] == [];
  }

  lemma RhsStraight(rule: NtRule)
    ensures Straight(RhsLines(rule))
  {
    RhsLinesRun(rule, map[], Env(_ => 0, (_, st) => st, (v, _) => v));
  }

  /** A further group adds its keys and disturbs no earlier one. */
  lemma SelectsStep(lines: seq<Line>, sel: map<int, nat>, rules: seq<NtRule>, ks: seq<int>, r: nat)
    requires Selects(lines, sel, rules) && r < |rules|
    requires forall k :: k in ks ==> k !in sel
    ensures Selects(lines + Group(ks, rules[r]), sel + map k | k in ks :: r, rules)
  {
    var g, more := Group(ks, rules[r]), sel + map k | k in ks :: r;
    forall k
      ensures k in more <==> Enter(lines + g, k).Some?
      ensures k in more ==> RhsLines(rules[more[k]]) + [Break] <= SkipLabels(Enter(lines + g, k).value)
    {
      EnterAppend(lines, g, k);
      if k in sel {
        SkipAppend(Enter(lines, k).value, g);
      } else {
        EnterGroup(ks, rules[r], k);
      }
    }
  }

  /** A value enters a group exactly when it is one of its labels, and then runs its body. */
  lemma EnterGroup(ks: seq<int>, rule: NtRule, k: int)
    ensures k in ks <==> Enter(Group(ks, rule), k).Some?
    ensures k in ks ==> RhsLines(rule) + [Break] <= SkipLabels(Enter(Group(ks, rule), k).value)
  {
    GroupLabels(ks, rule);
    EnterIffLabel(Group(ks, rule), k);
    if k in ks {
      RhsStraight(rule);
      var body := RhsLines(rule) + [Break];
      assert body[0] in body;
      EnterCases(ks, k, body);
    }
  }

  lemma {:induction false} NoDefault(lines: seq<Line>, rest: seq<Line>)
    requires Default !in lines
    ensures EnterDefault(lines + rest) == EnterDefault(rest)
  {
    if lines == [] {
      assert lines + rest == rest;
    } else {
      assert lines[0] in lines && (lines + rest)[1..] == lines[1..] + rest;
      NoDefault(lines[1..], rest);
    }
  }

  function DefaultLines(otherwiseOk: bool): seq<Line> {
    if otherwiseOk then [] else [Assign(ERROR_OP, Constant(GENERAL_ERROR))]
  }

  function DefaultTail(otherwiseOk: bool): seq<Line> {
    [Default] + (DefaultLines(otherwiseOk) + [Break] + [EndSwitch])
  }

  function DefaultEffect(otherwiseOk: bool, st: State, env: Env): State {
    if otherwiseOk then st else st[ERROR_OP := env.constant(GENERAL_ERROR)]
  }

  /** No other selected key looks like k to C. */
  ghost predicate Alone(sel: map<int, nat>, k: int) {
    forall l :: l in sel && Wrap(l) == Wrap(k) ==> l == k
  }

  lemma SwitchJumps(groups: seq<Line>, sel: map<int, nat>, rules: seq<NtRule>, otherwiseOk: bool, k: int)
    requires Selects(groups, sel, rules) && Alone(sel, k)
    ensures var lines := groups + DefaultTail(otherwiseOk); Jump(lines, Wrap(k)) == Enter(lines, k)
  {
    var tail := DefaultTail(otherwiseOk);
    LabelsAppend(groups, tail);
    TailLabels(otherwiseOk);
    forall l | l in Labels(groups + tail) && Wrap(l) == Wrap(k)
      ensures l == k
    {
      EnterIffLabel(groups, l);
      assert l in sel;
    }
    JumpIsEnter(groups + tail, k);
  }

  /** A selecting switch runs the body of the selected rule, or the default. */
  lemma SwitchRuns(groups: seq<Line>, sel: map<int, nat>, rules: seq<NtRule>, otherwiseOk: bool, k: int,
                   st: State, env: Env)
    requires Selects(groups, sel, rules) && Default !in groups && Alone(sel, k)
    ensures RunSwitch(groups + DefaultTail(otherwiseOk), Wrap(k), st, env) ==
      if k in sel then RuleEffect(rules[sel[k]], st, env) else DefaultEffect(otherwiseOk, st, env)
  {
    var tail := DefaultTail(otherwiseOk);
    EnterAppend(groups, tail, k);
    SwitchJumps(groups, sel, rules, otherwiseOk, k);
    if k in sel {
      var target, body := Enter(groups, k).value, RhsLines(rules[sel[k]]);
      SkipAppend(target, tail);
      ExecSkips(target + tail, st, env);
      var after := (SkipLabels(target) + tail)[|body| + 1..];
      assert SkipLabels(target) + tail == body + [Break] + after;
      RhsLinesRun(rules[sel[k]], st, env);
      ExecBody(body, after, st, env);
    } else {
      TailRuns(otherwiseOk, k, st, env);
      NoDefault(groups, tail);
    }
  }

  lemma TailRuns(otherwiseOk: bool, k: int, st: State, env: Env)
    ensures Enter(DefaultTail(otherwiseOk), k).None?
    ensures EnterDefault(DefaultTail(otherwiseOk)).Some?
    ensures Exec(EnterDefault(DefaultTail(otherwiseOk)).value, st, env) == DefaultEffect(otherwiseOk, st, env)
  {
    var body := DefaultLines(otherwiseOk);
    var tail := DefaultTail(otherwiseOk);
    assert tail[1..] == body + [Break] + [EndSwitch];
    ExecBody(body, [EndSwitch], st, env);
    if !otherwiseOk {
      assert Exec(body, st, env) == Exec(body[1..], RunStatement(body[0], st, env), env);
    }
    EnterIffLabel(tail, k);
    TailLabels(otherwiseOk);
  }

  lemma TailLabels(otherwiseOk: bool)
    ensures Labels(DefaultTail(otherwiseOk)) == []
  {
    var body := DefaultLines(otherwiseOk);
    var tail := DefaultTail(otherwiseOk);
    assert tail[1..] == body + [Break] + [EndSwitch];
    LabelsAppend(body + [Break], [EndSwitch]);
    LabelsAppend(body, [Break]);
    StraightLabels(body);
    assert [Break][1..] == [] && [EndSwitch][1..] == [];
  }

  /** The keys of the tuples bound to the given rules. */
  ghost function Selection(int2key: map<int, Tuple>, m: map<Tuple, nat>, covered: set<nat>): map<int, nat>
    requires forall k :: k in int2key ==> int2key[k] in m
  {
    map k | k in int2key && m[int2key[k]] in covered :: m[int2key[k]]
  }

  function Constraints(rules: seq<NtRule>): seq<Rule> {
    seq(|rules|, i requires 0 <= i < |rules| => rules[i].constraints)
  }

  /** No other bound tuple has the uint32 key of t. */
  ghost predicate Told(ts: set<Tuple>, ws: seq<nat>, t: Tuple) {
    |t| == |ws| && forall u :: u in ts && |u| == |ws| && Wrap(Pack(u, ws)) == Wrap(Pack(t, ws)) ==> u == t
  }

  /** The key of a tuple that is told apart is selected exactly when the tuple is bound, for the same
      rule, and no other selected key looks like it to C. */
  lemma SelectionIsBinding(ws: seq<nat>, m: map<Tuple, nat>, int2key: map<int, Tuple>, key2int: map<Tuple, int>,
                           t: Tuple)
    requires InverseKeys(key2int, int2key, ws) && key2int.Keys == m.Keys
    requires Told(m.Keys, ws, t)
    ensures var k, sel := Pack(t, ws), Selection(int2key, m, m.Values);
            (k in sel <==> t in m) && (t in m ==> sel[k] == m[t]) && Alone(sel, k)
  {
    var k, sel := Pack(t, ws), Selection(int2key, m, m.Values);
    forall l | l in sel && Wrap(l) == Wrap(k)
      ensures l == k && t in m
    {
      assert int2key[l] in key2int && Pack(int2key[l], ws) == l;
      assert int2key[l] == t;
    }
    if t in m {
      assert t in key2int && key2int[t] == k && m[t] in m.Values;
    }
  }

  /** The rules' own meaning: the rule that admits the operand values acts, or the default does. */
  ghost predicate Means(space: StateSpace, rules: seq<NtRule>, names: seq<string>, otherwiseOk: bool,
                        st: State, env: Env, after: State)
    requires AllDefined(space, Constraints(rules), names)
  {
    var t := TupleOf(st, names);
    && (forall i :: 0 <= i < |rules| && Admits(space, Constraints(rules)[i], names, t) ==>
          after == RuleEffect(rules[i], st, env))
    && ((forall i :: 0 <= i < |rules| ==> !Admits(space, Constraints(rules)[i], names, t)) ==>
          after == DefaultEffect(otherwiseOk, st, env))
  }

  /** The lines of a capture function around the given groups. */
  function FunctionLines(names: seq<string>, widths: map<string, nat>, groups: seq<Line>, otherwiseOk: bool): seq<Line>
    requires forall n :: n in names ==> n in widths
  {
    [DeclareKey] + (KeyLines(names, widths) + ([Switch] + (groups + DefaultTail(otherwiseOk))))
  }

  lemma FunctionRuns(names: seq<string>, widths: map<string, nat>, groups: seq<Line>, sel: map<int, nat>,
                     rules: seq<NtRule>, otherwiseOk: bool, st: State, env: Env)
    requires (forall n :: n in names ==> n in widths) && ShiftsDefined(names, widths)
    requires Selects(groups, sel, rules) && Default !in groups
    requires Alone(sel, Pack(TupleOf(st, names), WidthsOf(names, widths)))
    ensures var k := Pack(TupleOf(st, names), WidthsOf(names, widths));
            RunCapture(FunctionLines(names, widths, groups, otherwiseOk), 0, st, env) ==
              if k in sel then RuleEffect(rules[sel[k]], st, env) else DefaultEffect(otherwiseOk, st, env)
  {
    var switch := groups + DefaultTail(otherwiseOk);
    var rest := [Switch] + switch;
    var lines := FunctionLines(names, widths, groups, otherwiseOk);
    assert lines[1..] == KeyLines(names, widths) + rest && rest[1..] == switch;
    KeyLinesPack(names, widths, rest, st, env);
    SwitchRuns(groups, sel, rules, otherwiseOk, Pack(TupleOf(st, names), WidthsOf(names, widths)), st, env);
  }

  lemma MeansByBinding(space: StateSpace, rules: seq<NtRule>, names: seq<string>, m: map<Tuple, nat>,
                       otherwiseOk: bool, st: State, env: Env, after: State)
    requires AllDefined(space, Constraints(rules), names) && BindsAdmitted(space, Constraints(rules), names, m)
    requires var t := TupleOf(st, names);
             after == if t in m then RuleEffect(rules[m[t]], st, env) else DefaultEffect(otherwiseOk, st, env)
    ensures Means(space, rules, names, otherwiseOk, st, env, after)
  {
    var t := TupleOf(st, names);
    if t in m {
      assert Admits(space, Constraints(rules)[m[t]], names, t);
    }
  }

  /** The whole compile preserves meaning: where no other bound tuple has the uint32 key of the
      operand values, the emitted function does what the one rule does that admits the values, and
      takes the default when no rule does. */
  lemma CompiledMeaning(space: StateSpace, rules: seq<NtRule>, names: seq<string>, widths: map<string, nat>,
                        m: map<Tuple, nat>, int2key: map<int, Tuple>, key2int: map<Tuple, int>,
                        groups: seq<Line>, otherwiseOk: bool, st: State, env: Env)
    requires AllDefined(space, Constraints(rules), names) && BindsAdmitted(space, Constraints(rules), names, m)
    requires forall n :: n in names ==> n in widths
    requires InverseKeys(key2int, int2key, WidthsOf(names, widths)) && key2int.Keys == m.Keys
    requires Default !in groups && Selects(groups, Selection(int2key, m, m.Values), rules)
    requires ShiftsDefined(names, widths)
    requires Told(m.Keys, WidthsOf(names, widths), TupleOf(st, names))
    ensures Means(space, rules, names, otherwiseOk, st, env,
                  RunCapture(FunctionLines(names, widths, groups, otherwiseOk), 0, st, env))
  {
    SelectionIsBinding(WidthsOf(names, widths), m, int2key, key2int, TupleOf(st, names));
    FunctionRuns(names, widths, groups, Selection(int2key, m, m.Values), rules, otherwiseOk, st, env);
    MeansByBinding(space, rules, names, m, otherwiseOk, st, env,
                   RunCapture(FunctionLines(names, widths, groups, otherwiseOk), 0, st, env));
  }

  // ----- The generator -----

  /** function_object_t, to which the generator appends lines. */
  class FunctionObject {
    var lines: seq<Line>

    constructor ()
      ensures lines == []
    {
      lines := [];
    }

    method AddCode(l: Line)
      modifies this
      ensures lines == old(lines) + [l]
    {
      lines := lines + [l];
    }
  }

  lemma KeyLinesStep(names: seq<string>, widths: map<string, nat>, i: nat)
    requires i < |names| && forall n :: n in names ==> n in widths
    ensures var shift := Total(WidthsOf(names[..i], widths));
      && KeyLines(names[..i + 1], widths) == KeyLines(names[..i], widths) + [AddToKey(names[i], shift)]
      && Total(WidthsOf(names[..i + 1], widths)) == shift + widths[names[i]]
  {
    assert names[..i + 1][..i] == names[..i];
    TotalSnoc(WidthsOf(names[..i], widths), widths[names[i]]);
  }

  /** _add_cgen_key_lines */
  method AddKeyLines(fo: FunctionObject, names: seq<string>, widths: map<string, nat>)
    requires forall n :: n in names ==> n in widths
    modifies fo
    ensures fo.lines == old(fo.lines) + ([DeclareKey] + KeyLines(names, widths))
  {
    fo.AddCode(DeclareKey);
    var bitShift := 0;
    for i := 0 to |names|
      invariant bitShift == Total(WidthsOf(names[..i], widths))
      invariant fo.lines == old(fo.lines) + ([DeclareKey] + KeyLines(names[..i], widths))
    {
      KeyLinesStep(names, widths, i);
      fo.AddCode(AddToKey(names[i], bitShift));
      bitShift := bitShift + widths[names[i]];
    }
    assert names[..|names|] == names;
  }

  /** _add_nt_rhs_assignments */
  method AddRhsAssignments(fo: FunctionObject, rule: NtRule)
    modifies fo
    ensures fo.lines == old(fo.lines) + RhsLines(rule)
  {
    if IsErrorRule(rule) {
      fo.AddCode(Assign(ERROR_OP, Constant(GENERAL_ERROR)));
      return;
    }
    AddCalls(fo, rule.patternNts);
    AddOperands(fo, rule.operands);
    RhsLinesJoin(old(fo.lines), rule);
  }

  lemma RhsLinesJoin(lines: seq<Line>, rule: NtRule)
    requires !IsErrorRule(rule)
    ensures (lines + CallLines(rule.patternNts)) + OperandsLines(rule.operands) == lines + RhsLines(rule)
  {
    RegroupLines(lines, CallLines(rule.patternNts), OperandsLines(rule.operands));
  }

  lemma RegroupLines(a: seq<Line>, b: seq<Line>, c: seq<Line>)
    ensures (a + b) + c == a + (b + c)
  {
  }

  method AddCalls(fo: FunctionObject, nts: seq<string>)
    modifies fo
    ensures fo.lines == old(fo.lines) + CallLines(nts)
  {
    for i := 0 to |nts|
      invariant fo.lines == old(fo.lines) + CallLines(nts[..i])
    {
      assert nts[..i + 1][..i] == nts[..i];
      fo.AddCode(Call(nts[i]));
    }
    assert nts[..|nts|] == nts;
  }

  lemma OperandsLinesStep(ops: seq<Operand>, i: nat, lines: seq<Line>)
    requires i < |ops|
    ensures (lines + OperandsLines(ops[..i])) + OperandLines(ops[i]) == lines + OperandsLines(ops[..i + 1])
  {
    assert ops[..i + 1][..i] == ops[..i];
  }

  method AddOperands(fo: FunctionObject, operands: seq<Operand>)
    modifies fo
    ensures fo.lines == old(fo.lines) + OperandsLines(operands)
  {
    for i := 0 to |operands|
      invariant fo.lines == old(fo.lines) + OperandsLines(operands[..i])
    {
      OperandsLinesStep(operands, i, old(fo.lines));
      AddOperand(fo, operands[i]);
    }
    assert operands[..|operands|] == operands;
  }

  method AddOperand(fo: FunctionObject, op: Operand)
    modifies fo
    ensures fo.lines == old(fo.lines) + OperandLines(op)
  {
    if op.name == "ENCODER_PREFERRED" {
      return;
    }
    if op.kind.Imm? {
      return;
    }
    if op.kind.NtLookup? {
      fo.AddCode(Call(op.kind.fn));
      if op.name != OUTREG_OP {
        fo.AddCode(Assign(op.name, Outreg));
      }
    } else {
      fo.AddCode(Assign(op.name, Constant(op.bits)));
      if op.bits == "XED_REG_ERROR" {
        fo.AddCode(Assign(ERROR_OP, Constant(BAD_REGISTER)));
      }
    }
  }

  /** The case labels of one rule, its body and the break. */
  method AddGroup(fo: FunctionObject, ks: seq<int>, rule: NtRule)
    modifies fo
    ensures fo.lines == old(fo.lines) + Group(ks, rule)
  {
    for i := 0 to |ks|
      invariant fo.lines == old(fo.lines) + Cases(ks[..i])
    {
      CasesSnoc(ks[..i], ks[i]);
      assert ks[..i + 1] == ks[..i] + [ks[i]];
      fo.AddCode(Case(ks[i]));
    }
    assert ks[..|ks|] == ks;
    AddRhsAssignments(fo, rule);
    fo.AddCode(Break);
  }

  lemma {:induction false} CasesSnoc(ks: seq<int>, k: int)
    ensures Cases(ks + [k]) == Cases(ks) + [Case(k)]
  {
    if ks == [] {
      assert [k][1..] == [];
    } else {
      assert (ks + [k])[1..] == ks[1..] + [k];
      CasesSnoc(ks[1..], k);
    }
  }

  lemma NonEmpty(s: set<int>)
    requires s != {}
    ensures exists k :: k in s
  {
    assert (forall k: int :: k !in s) ==> s == {};
  }

  lemma {:induction false} LeastExists(s: set<int>) returns (m: int)
    requires s != {}
    ensures m in s && forall k :: k in s ==> m <= k
    decreases s
  {
    NonEmpty(s);
    var a :| a in s;
    var rest := s - {a};
    assert forall k :: k in s ==> k == a || k in rest;
    m := a;
    if rest != {} {
      var b := LeastExists(rest);
      m := if a < b then a else b;
    }
  }

  method Least(s: set<int>) returns (m: int)
    requires s != {}
    ensures m in s && forall k :: k in s ==> m <= k
  {
    ghost var l := LeastExists(s);
    m :| m in s && forall k :: k in s ==> m <= k;
  }

  /** No two of the tuples have the same integer key. */
  ghost predicate PacksApart(ts: set<Tuple>, ws: seq<nat>)
    requires forall t :: t in ts ==> |t| == |ws|
  {
    forall t, u :: t in ts && u in ts && Pack(t, ws) == Pack(u, ws) ==> t == u
  }

  /** The integer keys of all tuples; two tuples with one key stop the generator. */
  method MakeKeys(m: map<Tuple, nat>, names: seq<string>, widths: map<string, nat>)
    returns (ok: bool, int2key: map<int, Tuple>, key2int: map<Tuple, int>)
    requires forall n :: n in names ==> n in widths
    requires forall t :: t in m ==> |t| == |names|
    ensures ok <==> PacksApart(m.Keys, WidthsOf(names, widths))
    ensures ok ==> InverseKeys(key2int, int2key, WidthsOf(names, widths)) && key2int.Keys == m.Keys
  {
    var ws := WidthsOf(names, widths);
    int2key, key2int := map[], map[];
    var rest := m.Keys;
    while rest != {}
      invariant rest <= m.Keys && key2int.Keys == m.Keys - rest
      invariant InverseKeys(key2int, int2key, ws)
      decreases rest
    {
      var key :| key in rest;
      var keyval := Pack(key, ws);
      if keyval in int2key {
        assert Pack(int2key[keyval], ws) == Pack(key, ws);
        ok := false;
        return;
      }
      InverseStep(key2int, int2key, ws, key);
      int2key, key2int := int2key[keyval := key], key2int[key := keyval];
      rest := rest - {key};
    }
    ok := true;
  }

  /** get_all_keys_by_val, as labels: every key bound to the rule, once. */
  method LabelsOfRule(m: map<Tuple, nat>, int2key: map<int, Tuple>, r: nat) returns (ks: seq<int>)
    requires forall k :: k in int2key ==> int2key[k] in m
    ensures Distinct(ks) && forall k :: k in ks <==> k in int2key && m[int2key[k]] == r
  {
    ks := [];
    var rest := set k | k in int2key && m[int2key[k]] == r;
    while rest != {}
      invariant Distinct(ks)
      invariant forall k :: k in int2key && m[int2key[k]] == r <==> k in ks || k in rest
      invariant forall k :: k in rest ==> k !in ks
      decreases rest
    {
      NonEmpty(rest);
      var k :| k in rest;
      ks, rest := ks + [k], rest - {k};
    }
  }

  /** What holds of the groups emitted for the covered rules. */
  ghost predicate Emitted(groups: seq<Line>, int2key: map<int, Tuple>, m: map<Tuple, nat>, covered: set<nat>,
                          rules: seq<NtRule>)
    requires forall k :: k in int2key ==> int2key[k] in m
  {
    && Selects(groups, Selection(int2key, m, covered), rules)
    && Distinct(Labels(groups))
    && Default !in groups
  }

  lemma SelectionStep(int2key: map<int, Tuple>, m: map<Tuple, nat>, covered: set<nat>, ks: seq<int>, r: nat)
    requires forall k :: k in int2key ==> int2key[k] in m
    requires forall k :: k in ks <==> k in int2key && m[int2key[k]] == r
    ensures Selection(int2key, m, covered + {r}) == Selection(int2key, m, covered) + map k | k in ks :: r
  {
    var a, b := Selection(int2key, m, covered + {r}), Selection(int2key, m, covered) + map k | k in ks :: r;
    forall k: int
      ensures k in a <==> k in b
      ensures k in a ==> a[k] == b[k]
    {
    }
  }

  lemma GroupAddsLabels(groups: seq<Line>, ks: seq<int>, rule: NtRule)
    requires Distinct(Labels(groups)) && Distinct(ks)
    requires forall k :: k in ks ==> Enter(groups, k).None?
    ensures Distinct(Labels(groups + Group(ks, rule)))
  {
    LabelsAppend(groups, Group(ks, rule));
    GroupLabels(ks, rule);
    forall k | k in ks
      ensures k !in Labels(groups)
    {
      EnterIffLabel(groups, k);
    }
    ConcatDistinct(Labels(groups), ks);
  }

  lemma GroupHasNoDefault(ks: seq<int>, rule: NtRule)
    ensures Default !in Group(ks, rule)
  {
    RhsStraight(rule);
    CasesHold(ks);
  }

  lemma EmittedStep(groups: seq<Line>, int2key: map<int, Tuple>, m: map<Tuple, nat>, covered: set<nat>,
                    rules: seq<NtRule>, ks: seq<int>, r: nat)
    requires forall k :: k in int2key ==> int2key[k] in m
    requires Emitted(groups, int2key, m, covered, rules)
    requires r < |rules| && r !in covered
    requires Distinct(ks) && forall k :: k in ks <==> k in int2key && m[int2key[k]] == r
    ensures Emitted(groups + Group(ks, rules[r]), int2key, m, covered + {r}, rules)
  {
    var sel := Selection(int2key, m, covered);
    assert forall k :: k in ks ==> k !in sel;
    SelectsStep(groups, sel, rules, ks, r);
    SelectionStep(int2key, m, covered, ks, r);
    GroupAddsLabels(groups, ks, rules[r]);
    GroupHasNoDefault(ks, rules[r]);
  }

  lemma {:induction false} CasesHold(ks: seq<int>)
    ensures forall l :: l in Cases(ks) ==> l.Case?
  {
    if ks != [] {
      CasesHold(ks[1..]);
    }
  }

  method AddRuleGroup(fo: FunctionObject, rules: seq<NtRule>, m: map<Tuple, nat>, int2key: map<int, Tuple>,
                      ghost groups: seq<Line>, ghost covered: set<nat>, rule: nat)
    returns (ghost more: seq<Line>)
    requires forall k :: k in int2key ==> int2key[k] in m
    requires Emitted(groups, int2key, m, covered, rules) && rule < |rules| && rule !in covered
    modifies fo
    ensures groups <= more && fo.lines == old(fo.lines) + more[|groups|..]
    ensures Emitted(more, int2key, m, covered + {rule}, rules)
  {
    var ks := LabelsOfRule(m, int2key, rule);
    EmittedStep(groups, int2key, m, covered, rules, ks, rule);
    AddGroup(fo, ks, rules[rule]);
    more := groups + Group(ks, rules[rule]);
  }

  method AddDefault(fo: FunctionObject, otherwiseOk: bool)
    modifies fo
    ensures fo.lines == old(fo.lines) + DefaultTail(otherwiseOk)
  {
    fo.AddCode(Default);
    if !otherwiseOk {
      fo.AddCode(Assign(ERROR_OP, Constant(GENERAL_ERROR)));
    }
    fo.AddCode(Break);
    fo.AddCode(EndSwitch);
  }

  /** The loop over the sorted keys: one group for every rule, at its first key. */
  method AddGroups(fo: FunctionObject, rules: seq<NtRule>, m: map<Tuple, nat>, int2key: map<int, Tuple>,
                   ghost key2int: map<Tuple, int>)
    returns (ghost groups: seq<Line>)
    requires forall k :: k in int2key ==> int2key[k] in m
    requires forall t :: t in m ==> t in key2int && key2int[t] in int2key && int2key[key2int[t]] == t
    requires forall t :: t in m ==> m[t] < |rules|
    modifies fo
    ensures fo.lines == old(fo.lines) + groups
    ensures Emitted(groups, int2key, m, m.Values, rules)
  {
    groups := [];
    var covered: set<nat> := {};
    var rest := int2key.Keys;
    while rest != {}
      invariant rest <= int2key.Keys && covered <= m.Values
      invariant forall k :: k in int2key && k !in rest ==> m[int2key[k]] in covered
      invariant fo.lines == old(fo.lines) + groups
      invariant Emitted(groups, int2key, m, covered, rules)
      decreases rest
    {
      var keyval := Least(rest);
      rest := rest - {keyval};
      var rule := m[int2key[keyval]];
      if rule !in covered {
        groups := AddRuleGroup(fo, rules, m, int2key, groups, covered, rule);
        covered := covered + {rule};
      }
    }
    AllCovered(m, int2key, key2int, covered);
  }

  lemma AllCovered(m: map<Tuple, nat>, int2key: map<int, Tuple>, key2int: map<Tuple, int>, covered: set<nat>)
    requires forall k :: k in int2key ==> int2key[k] in m
    requires forall t :: t in m ==> t in key2int && key2int[t] in int2key && int2key[key2int[t]] == t
    requires covered <= m.Values && forall k :: k in int2key ==> m[int2key[k]] in covered
    ensures covered == m.Values
  {
    forall t | t in m
      ensures m[t] in covered
    {
      var k := key2int[t];
      assert k in int2key && int2key[k] == t;
      assert m[int2key[k]] in covered;
    }
  }

  lemma KeysLead(m: map<Tuple, nat>, int2key: map<int, Tuple>, key2int: map<Tuple, int>, ws: seq<nat>)
    requires InverseKeys(key2int, int2key, ws) && key2int.Keys == m.Keys
    ensures forall k :: k in int2key ==> int2key[k] in m
    ensures forall t :: t in m ==> t in key2int && key2int[t] in int2key && int2key[key2int[t]] == t
  {
    forall k | k in int2key
      ensures int2key[k] in m
    {
      assert int2key[k] in key2int.Keys;
    }
    forall t | t in m
      ensures t in key2int && key2int[t] in int2key && int2key[key2int[t]] == t
    {
      assert t in key2int.Keys;
    }
  }

  /** _add_switchcase_lines */
  method AddSwitchCaseLines(fo: FunctionObject, rules: seq<NtRule>, m: map<Tuple, nat>, names: seq<string>,
                            widths: map<string, nat>, otherwiseOk: bool)
    returns (ok: bool, ghost groups: seq<Line>, int2key: map<int, Tuple>, key2int: map<Tuple, int>)
    requires forall n :: n in names ==> n in widths
    requires forall t :: t in m ==> |t| == |names| && m[t] < |rules|
    modifies fo
    ensures ok <==> PacksApart(m.Keys, WidthsOf(names, widths))
    ensures ok ==> InverseKeys(key2int, int2key, WidthsOf(names, widths)) && key2int.Keys == m.Keys
    ensures ok ==> Emitted(groups, int2key, m, m.Values, rules)
    ensures ok ==> fo.lines == old(fo.lines) + ([Switch] + (groups + DefaultTail(otherwiseOk)))
  {
    groups := [];
    ok, int2key, key2int := MakeKeys(m, names, widths);
    if ok {
      KeysLead(m, int2key, key2int, WidthsOf(names, widths));
      groups := AddSwitch(fo, rules, m, int2key, key2int, otherwiseOk);
    }
  }

  method AddSwitch(fo: FunctionObject, rules: seq<NtRule>, m: map<Tuple, nat>, int2key: map<int, Tuple>,
                   ghost key2int: map<Tuple, int>, otherwiseOk: bool)
    returns (ghost groups: seq<Line>)
    requires forall k :: k in int2key ==> int2key[k] in m
    requires forall t :: t in m ==> t in key2int && key2int[t] in int2key && int2key[key2int[t]] == t
    requires forall t :: t in m ==> m[t] < |rules|
    modifies fo
    ensures Emitted(groups, int2key, m, m.Values, rules)
    ensures fo.lines == old(fo.lines) + ([Switch] + (groups + DefaultTail(otherwiseOk)))
  {
    fo.AddCode(Switch);
    groups := AddGroups(fo, rules, m, int2key, key2int);
    AddDefault(fo, otherwiseOk);
  }

  /** The lines mean what the rules mean, for every state whose operands fit their widths. */
  ghost predicate Preserves(lines: seq<Line>, space: StateSpace, rules: seq<NtRule>, names: seq<string>,
                            widths: map<string, nat>, otherwiseOk: bool)
    requires AllDefined(space, Constraints(rules), names) && forall n :: n in names ==> n in widths
  {
    forall st, env :: Fits(TupleOf(st, names), WidthsOf(names, widths)) ==>
      Means(space, rules, names, otherwiseOk, st, env, RunCapture(lines, 0, st, env))
  }

  /** The rule lists the operand values of the state, or leaves them open. */
  ghost predicate RuleTakes(space: StateSpace, rule: NtRule, names: seq<string>, st: State) {
    forall i :: 0 <= i < |names| ==>
      var v := if names[i] in st then st[names[i]] else 0;
      if names[i] in rule.constraints.cdict then v in rule.constraints.cdict[names[i]]
      else names[i] in space && v in space[names[i]]
  }

  /** What preserving the meaning comes to, in terms of the rules alone: for operand values that fit
      their widths, the lines do what a rule does that takes them, or the default when none does. */
  lemma PreservesMeans(lines: seq<Line>, space: StateSpace, rules: seq<NtRule>, names: seq<string>,
                       widths: map<string, nat>, otherwiseOk: bool, st: State, env: Env)
    requires AllDefined(space, Constraints(rules), names) && forall n :: n in names ==> n in widths
    requires Preserves(lines, space, rules, names, widths, otherwiseOk)
    requires forall i :: 0 <= i < |names| ==>
      0 <= (if names[i] in st then st[names[i]] else 0) < Pow2(widths[names[i]])
    ensures var after := RunCapture(lines, 0, st, env);
      && (forall i :: 0 <= i < |rules| && RuleTakes(space, rules[i], names, st) ==> RuleDoes(rules[i], st, after, env))
      && ((forall i :: 0 <= i < |rules| ==> !RuleTakes(space, rules[i], names, st)) ==>
            after == if otherwiseOk then st else st["error" := env.constant("XED_ERROR_GENERAL_ERROR")])
  {
    var t, after := TupleOf(st, names), RunCapture(lines, 0, st, env);
    assert Fits(t, WidthsOf(names, widths));
    assert Means(space, rules, names, otherwiseOk, st, env, after);
    forall i | 0 <= i < |rules|
      ensures Admits(space, Constraints(rules)[i], names, t) <==> RuleTakes(space, rules[i], names, st)
      ensures RuleDoes(rules[i], st, RuleEffect(rules[i], st, env), env)
    {
      assert Defined(space, Constraints(rules)[i], names);
      TakesIsAdmits(space, rules[i], names, st);
      RuleEffectDoes(rules[i], st, env);
    }
  }

  lemma TakesIsAdmits(space: StateSpace, rule: NtRule, names: seq<string>, st: State)
    requires Defined(space, rule.constraints, names)
    ensures Admits(space, rule.constraints, names, TupleOf(st, names)) <==> RuleTakes(space, rule, names, st)
  {
    AdmitsIsLists(space, rule.constraints, names, TupleOf(st, names));
  }

  lemma EmittedPreserves(space: StateSpace, rules: seq<NtRule>, names: seq<string>, widths: map<string, nat>,
                         m: map<Tuple, nat>, int2key: map<int, Tuple>, key2int: map<Tuple, int>,
                         groups: seq<Line>, otherwiseOk: bool)
    requires AllDefined(space, Constraints(rules), names) && BindsAdmitted(space, Constraints(rules), names, m)
    requires forall n :: n in names ==> n in widths
    requires InverseKeys(key2int, int2key, WidthsOf(names, widths)) && key2int.Keys == m.Keys
    requires (forall k :: k in int2key ==> int2key[k] in m) && Emitted(groups, int2key, m, m.Values, rules)
    ensures ShiftsDefined(names, widths) && KeysTold(m.Keys, WidthsOf(names, widths)) ==>
      Preserves(FunctionLines(names, widths, groups, otherwiseOk), space, rules, names, widths, otherwiseOk)
  {
    if ShiftsDefined(names, widths) && KeysTold(m.Keys, WidthsOf(names, widths)) {
      forall st, env | Fits(TupleOf(st, names), WidthsOf(names, widths))
        ensures Means(space, rules, names, otherwiseOk, st, env,
                      RunCapture(FunctionLines(names, widths, groups, otherwiseOk), 0, st, env))
      {
        CompiledMeaning(space, rules, names, widths, m, int2key, key2int, groups, otherwiseOk, st, env);
      }
    }
  }

  /** All bound values fit their widths, the widths fit the uint32 key, and C defines the shifts. */
  ghost predicate KeysFit32(names: seq<string>, widths: map<string, nat>, m: map<Tuple, nat>)
    requires forall n :: n in names ==> n in widths
  {
    && Total(WidthsOf(names, widths)) <= KEY_BITS && ShiftsDefined(names, widths)
    && forall t :: t in m ==> Fits(t, WidthsOf(names, widths))
  }

  /** No fitting operand values share their uint32 key with another bound tuple. */
  ghost predicate KeysTold(ts: set<Tuple>, ws: seq<nat>) {
    forall t :: Fits(t, ws) ==> Told(ts, ws, t)
  }

  /** No two bound tuples have the same uint32 key. */
  ghost predicate WrapsApart(ts: set<Tuple>, ws: seq<nat>) {
    forall t :: t in ts ==> Told(ts, ws, t)
  }

  /** With keys of at most 32 bits that is so. */
  lemma FittingKeysAreTold(names: seq<string>, widths: map<string, nat>, m: map<Tuple, nat>)
    requires (forall n :: n in names ==> n in widths) && KeysFit32(names, widths, m)
    ensures KeysTold(m.Keys, WidthsOf(names, widths)) && WrapsApart(m.Keys, WidthsOf(names, widths))
  {
    var ws := WidthsOf(names, widths);
    forall t | Fits(t, ws) ensures Told(m.Keys, ws, t) {
      FittingIsTold(m.Keys, ws, t);
    }
  }

  lemma FittingIsTold(ts: set<Tuple>, ws: seq<nat>, t: Tuple)
    requires Total(ws) <= 32 && Fits(t, ws) && forall u :: u in ts ==> Fits(u, ws)
    ensures Told(ts, ws, t)
  {
    KeysTellApart(ws);
  }

  /** The labels of the groups are the keys of the bound tuples. */
  lemma LabelsAreKeys(groups: seq<Line>, rules: seq<NtRule>, m: map<Tuple, nat>, int2key: map<int, Tuple>,
                      l: int)
    requires forall k :: k in int2key ==> int2key[k] in m
    requires Emitted(groups, int2key, m, m.Values, rules)
    ensures l in Labels(groups) <==> l in int2key
  {
    EnterIffLabel(groups, l);
    assert l in int2key ==> m[int2key[l]] in m.Values;
    assert l in int2key <==> l in Selection(int2key, m, m.Values);
  }

  lemma WrapIsLabel(groups: seq<Line>, rules: seq<NtRule>, m: map<Tuple, nat>, int2key: map<int, Tuple>,
                    key2int: map<Tuple, int>, ws: seq<nat>, u: Tuple)
    requires InverseKeys(key2int, int2key, ws) && key2int.Keys == m.Keys
    requires (forall k :: k in int2key ==> int2key[k] in m) && Emitted(groups, int2key, m, m.Values, rules)
    requires u in m
    ensures |u| == |ws| && Wrap(Pack(u, ws)) in Wraps(Labels(groups))
  {
    assert u in key2int;
    var l := key2int[u];
    LabelsAreKeys(groups, rules, m, int2key, l);
    var i :| 0 <= i < |Labels(groups)| && Labels(groups)[i] == l;
    assert Wraps(Labels(groups))[i] == Wrap(l);
  }

  lemma LabelIsWrap(groups: seq<Line>, rules: seq<NtRule>, m: map<Tuple, nat>, int2key: map<int, Tuple>,
                    key2int: map<Tuple, int>, ws: seq<nat>, i: nat)
    returns (u: Tuple)
    requires InverseKeys(key2int, int2key, ws) && key2int.Keys == m.Keys
    requires (forall k :: k in int2key ==> int2key[k] in m) && Emitted(groups, int2key, m, m.Values, rules)
    requires i < |Labels(groups)|
    ensures u in m && |u| == |ws| && Labels(groups)[i] == Pack(u, ws)
  {
    var l := Labels(groups)[i];
    LabelsAreKeys(groups, rules, m, int2key, l);
    u := int2key[l];
    assert u in key2int;
  }

  /** C accepts the case labels exactly when no two bound tuples have the same uint32 key. */
  lemma LabelsCompile(groups: seq<Line>, rules: seq<NtRule>, m: map<Tuple, nat>, int2key: map<int, Tuple>,
                      key2int: map<Tuple, int>, ws: seq<nat>)
    requires InverseKeys(key2int, int2key, ws) && key2int.Keys == m.Keys
    requires (forall k :: k in int2key ==> int2key[k] in m) && Emitted(groups, int2key, m, m.Values, rules)
    ensures Distinct(Wraps(Labels(groups))) <==> WrapsApart(m.Keys, ws)
  {
    var labels := Labels(groups);
    if WrapsApart(m.Keys, ws) {
      forall i, j | 0 <= i < j < |labels|
        ensures Wraps(labels)[i] != Wraps(labels)[j]
      {
        var t := LabelIsWrap(groups, rules, m, int2key, key2int, ws, i);
        var u := LabelIsWrap(groups, rules, m, int2key, key2int, ws, j);
        assert labels[i] != labels[j] && Told(m.Keys, ws, t);
      }
    }
    if Distinct(Wraps(labels)) {
      forall t | t in m.Keys
        ensures Told(m.Keys, ws, t)
      {
        DistinctWrapsTell(groups, rules, m, int2key, key2int, ws, t);
      }
    }
  }

  lemma DistinctWrapsTell(groups: seq<Line>, rules: seq<NtRule>, m: map<Tuple, nat>, int2key: map<int, Tuple>,
                          key2int: map<Tuple, int>, ws: seq<nat>, t: Tuple)
    requires InverseKeys(key2int, int2key, ws) && key2int.Keys == m.Keys
    requires (forall k :: k in int2key ==> int2key[k] in m) && Emitted(groups, int2key, m, m.Values, rules)
    requires Distinct(Wraps(Labels(groups))) && t in m
    ensures Told(m.Keys, ws, t)
  {
    var labels := Labels(groups);
    assert t in key2int;
    LabelsAreKeys(groups, rules, m, int2key, key2int[t]);
    var i :| 0 <= i < |labels| && labels[i] == key2int[t];
    forall u | u in m.Keys && |u| == |ws| && Wrap(Pack(u, ws)) == Wrap(Pack(t, ws))
      ensures u == t
    {
      assert u in key2int;
      LabelsAreKeys(groups, rules, m, int2key, key2int[u]);
      var j :| 0 <= j < |labels| && labels[j] == key2int[u];
      assert Wraps(labels)[i] == Wraps(labels)[j];
      assert i == j;
    }
  }

  /** C accepts the labels and the switch jumps to a label for exactly the bound ones among the
      fitting operand values: that is so if and only if no bound tuple shares its uint32 key with
      another one or with other fitting operand values. */
  lemma JumpsAreBindings(groups: seq<Line>, rules: seq<NtRule>, m: map<Tuple, nat>, int2key: map<int, Tuple>,
                         key2int: map<Tuple, int>, ws: seq<nat>)
    requires InverseKeys(key2int, int2key, ws) && key2int.Keys == m.Keys
    requires (forall k :: k in int2key ==> int2key[k] in m) && Emitted(groups, int2key, m, m.Values, rules)
    ensures WrapsApart(m.Keys, ws) && KeysTold(m.Keys, ws) <==>
      && Distinct(Wraps(Labels(groups)))
      && forall t :: Fits(t, ws) ==> (Jump(groups, Wrap(Pack(t, ws))).Some? <==> t in m)
  {
    LabelsCompile(groups, rules, m, int2key, key2int, ws);
    forall t | Fits(t, ws)
      ensures t in m ==> Jump(groups, Wrap(Pack(t, ws))).Some?
      ensures Told(m.Keys, ws, t) && Jump(groups, Wrap(Pack(t, ws))).Some? ==> t in m
      ensures WrapsApart(m.Keys, ws) && (Jump(groups, Wrap(Pack(t, ws))).Some? ==> t in m) ==> Told(m.Keys, ws, t)
    {
      JumpIsBinding(groups, rules, m, int2key, key2int, ws, t);
    }
  }

  lemma JumpIsBinding(groups: seq<Line>, rules: seq<NtRule>, m: map<Tuple, nat>, int2key: map<int, Tuple>,
                      key2int: map<Tuple, int>, ws: seq<nat>, t: Tuple)
    requires InverseKeys(key2int, int2key, ws) && key2int.Keys == m.Keys && |t| == |ws|
    requires (forall k :: k in int2key ==> int2key[k] in m) && Emitted(groups, int2key, m, m.Values, rules)
    ensures t in m ==> Jump(groups, Wrap(Pack(t, ws))).Some?
    ensures Told(m.Keys, ws, t) && Jump(groups, Wrap(Pack(t, ws))).Some? ==> t in m
    ensures WrapsApart(m.Keys, ws) && (Jump(groups, Wrap(Pack(t, ws))).Some? ==> t in m) ==> Told(m.Keys, ws, t)
  {
    var key := Wrap(Pack(t, ws));
    JumpIffLabel(groups, key);
    forall u | u in m
      ensures |u| == |ws| && Wrap(Pack(u, ws)) in Wraps(Labels(groups))
    {
      WrapIsLabel(groups, rules, m, int2key, key2int, ws, u);
    }
    if Jump(groups, key).Some? {
      var i :| 0 <= i < |Labels(groups)| && Wraps(Labels(groups))[i] == key;
      var u := LabelIsWrap(groups, rules, m, int2key, key2int, ws, i);
      assert u in m.Keys;
    } else {
      assert forall u :: u in m ==> Wrap(Pack(u, ws)) != key;
    }
  }

  lemma JoinedLines(a: seq<Line>, b: seq<Line>, c: seq<Line>)
    ensures [] + (a + b) + c == a + (b + c)
  {
  }

  lemma StraightCapture(lines: seq<Line>, st: State, env: Env)
    requires Straight(lines)
    ensures RunCapture(lines, 0, st, env) == Exec(lines, st, env)
  {
    assert lines != [] ==> lines[0] in lines;
  }

  /** Without constraint names there is one rule, and the function is its right-hand side. */
  lemma UnconstrainedMeans(space: StateSpace, rules: seq<NtRule>, otherwiseOk: bool, st: State, env: Env)
    requires AllDefined(space, Constraints(rules), []) && |rules| == 1
    ensures Means(space, rules, [], otherwiseOk, st, env, RunCapture(RhsLines(rules[0]), 0, st, env))
  {
    RhsLinesRun(rules[0], st, env);
    StraightCapture(RhsLines(rules[0]), st, env);
    assert Admits(space, Constraints(rules)[0], [], TupleOf(st, []));
  }

  lemma OneEmptyTuple(keys: set<Tuple>)
    requires forall t :: t in keys ==> |t| == 0
    ensures PacksApart(keys, []) && WrapsApart(keys, [])
  {
    assert forall t :: t in keys ==> t == [];
  }

  /** The branch of _gen_capture_fo for a nonterminal with constraints. */
  method GenConstrained(space: StateSpace, rules: seq<NtRule>, names: seq<string>, widths: map<string, nat>,
                        m: map<Tuple, nat>, otherwiseOk: bool)
    returns (ok: bool, fo: FunctionObject)
    requires AllDefined(space, Constraints(rules), names) && BindsAdmitted(space, Constraints(rules), names, m)
    requires forall n :: n in names ==> n in widths
    requires forall t :: t in m ==> |t| == |names|
    ensures ok <==> PacksApart(m.Keys, WidthsOf(names, widths))
    ensures ok && ShiftsDefined(names, widths) && KeysTold(m.Keys, WidthsOf(names, widths)) ==>
      Preserves(fo.lines, space, rules, names, widths, otherwiseOk)
    ensures ok ==> Distinct(Labels(fo.lines))
    ensures ok ==> (Distinct(Wraps(Labels(fo.lines))) <==> WrapsApart(m.Keys, WidthsOf(names, widths)))
  {
    fo := new FunctionObject();
    ghost var groups;
    var int2key, key2int;
    AddKeyLines(fo, names, widths);
    ok, groups, int2key, key2int := AddSwitchCaseLines(fo, rules, m, names, widths, otherwiseOk);
    if ok {
      JoinedLines([DeclareKey], KeyLines(names, widths), [Switch] + (groups + DefaultTail(otherwiseOk)));
      FunctionLabels(names, widths, groups, otherwiseOk);
      KeysLead(m, int2key, key2int, WidthsOf(names, widths));
      LabelsCompile(groups, rules, m, int2key, key2int, WidthsOf(names, widths));
      EmittedPreserves(space, rules, names, widths, m, int2key, key2int, groups, otherwiseOk);
    }
  }

  /** _gen_capture_fo: on success the emitted function preserves the meaning of the rules and repeats
      no label. A nonterminal without constraint names has the one rule that its dictionary names. */
  method GenCapture(space: StateSpace, rules: seq<NtRule>, names: seq<string>, widths: map<string, nat>,
                    m: map<Tuple, nat>, otherwiseOk: bool)
    returns (ok: bool, fo: FunctionObject)
    requires AllDefined(space, Constraints(rules), names) && BindsAdmitted(space, Constraints(rules), names, m)
    requires forall n :: n in names ==> n in widths
    requires forall t :: t in m ==> |t| == |names|
    requires names == [] ==> |rules| == 1
    ensures ok <==> PacksApart(m.Keys, WidthsOf(names, widths))
    ensures ok && KeysFit32(names, widths, m) ==>
      && Preserves(fo.lines, space, rules, names, widths, otherwiseOk)
      && Distinct(Wraps(Labels(fo.lines)))
    ensures ok && ShiftsDefined(names, widths) && KeysTold(m.Keys, WidthsOf(names, widths)) ==>
      Preserves(fo.lines, space, rules, names, widths, otherwiseOk)
    ensures ok ==> Distinct(Labels(fo.lines))
    ensures ok ==> (Distinct(Wraps(Labels(fo.lines))) <==> WrapsApart(m.Keys, WidthsOf(names, widths)))
  {
    if |names| > 0 {
      ok, fo := GenConstrained(space, rules, names, widths, m, otherwiseOk);
    } else {
      ok := true;
      OneEmptyTuple(m.Keys);
      fo := GenUnconstrained(space, rules, widths, otherwiseOk);
    }
    if KeysFit32(names, widths, m) {
      FittingKeysAreTold(names, widths, m);
    }
  }

  /** The branch for a nonterminal without constraint names. */
  method GenUnconstrained(ghost space: StateSpace, rules: seq<NtRule>, ghost widths: map<string, nat>,
                          ghost otherwiseOk: bool)
    returns (fo: FunctionObject)
    requires AllDefined(space, Constraints(rules), []) && |rules| == 1
    ensures fresh(fo) && Preserves(fo.lines, space, rules, [], widths, otherwiseOk)
    ensures Labels(fo.lines) == []
  {
    fo := new FunctionObject();
    AddRhsAssignments(fo, rules[0]);
    assert [] + RhsLines(rules[0]) == RhsLines(rules[0]);
    UnconstrainedPreserves(space, rules, widths, otherwiseOk);
  }

  lemma UnconstrainedPreserves(space: StateSpace, rules: seq<NtRule>, widths: map<string, nat>, otherwiseOk: bool)
    requires AllDefined(space, Constraints(rules), []) && |rules| == 1
    ensures Preserves(RhsLines(rules[0]), space, rules, [], widths, otherwiseOk)
    ensures Labels(RhsLines(rules[0])) == []
  {
    UnconstrainedLabels(rules[0]);
    forall st, env
      ensures Means(space, rules, [], otherwiseOk, st, env, RunCapture(RhsLines(rules[0]), 0, st, env))
    {
      UnconstrainedMeans(space, rules, otherwiseOk, st, env);
    }
  }

  lemma UnconstrainedLabels(rule: NtRule)
    ensures Labels(RhsLines(rule)) == []
  {
    RhsStraight(rule);
    StraightLabels(RhsLines(rule));
  }

  lemma {:induction false} KeyLinesLabels(names: seq<string>, widths: map<string, nat>)
    requires forall n :: n in names ==> n in widths
    ensures Labels(KeyLines(names, widths)) == []
  {
    if names != [] {
      var init, l := names[..|names| - 1], KeyLines(names, widths)[|KeyLines(names, widths)| - 1];
      KeyLinesLabels(init, widths);
      LabelsAppend(KeyLines(init, widths), [l]);
      assert [l][1..] == [];
    }
  }

  /** All labels of the function are those of the groups. */
  lemma FunctionLabels(names: seq<string>, widths: map<string, nat>, groups: seq<Line>, otherwiseOk: bool)
    requires forall n :: n in names ==> n in widths
    ensures Labels(FunctionLines(names, widths, groups, otherwiseOk)) == Labels(groups)
  {
    var tail := DefaultTail(otherwiseOk);
    var switch := [Switch] + (groups + tail);
    KeyLinesLabels(names, widths);
    LabelsAppend(KeyLines(names, widths), switch);
    LabelsAppend(groups, tail);
    TailLabels(otherwiseOk);
    assert switch[1..] == groups + tail;
    assert ([DeclareKey] + (KeyLines(names, widths) + switch))[1..] == KeyLines(names, widths) + switch;
  }
}
