/** Table rows and guarded assignments of pysrc/actions_codegen.py: the row of a tuple, executed by
    the emitted code, does what the field bindings of the tuple's rule do. */
module ActionsCodegen {
  import opened ConstraintSpec
  import opened ConstraintVecGen

  /** The actions of a rule; only field bindings matter here. */
  datatype Action = FieldBinding(fieldName: string, value: int) | OtherAction

  type Actions = seq<Action>

  /** The operand storage. */
  type State = map<string, int>

  function LowerChar(c: char): char {
    if 'A' <= c <= 'Z' then c - 'A' + 'a' else c
  }

  function Lower(s: string): string {
    seq(|s|, i requires 0 <= i < |s| => LowerChar(s[i]))
  }

  predicate Binds(a: Action, fb: string) {
    a.FieldBinding? && Lower(a.fieldName) == fb
  }

  /** The fields a rule binds. */
  function Fields(actions: Actions): set<string> {
    set i | 0 <= i < |actions| && actions[i].FieldBinding? :: Lower(actions[i].fieldName)
  }

  ghost predicate OncePerField(actions: Actions) {
    forall i, j :: 0 <= i < j < |actions| && actions[i].FieldBinding? ==>
      !Binds(actions[j], Lower(actions[i].fieldName))
  }

  /** Running the rule's own bindings. */
  function Effect(actions: Actions, st: State): State {
    if actions == [] then st
    else
      var before := Effect(actions[..|actions| - 1], st);
      var a := actions[|actions| - 1];
      if a.FieldBinding? then before[Lower(a.fieldName) := a.value] else before
  }

  /** The values a rule has for one field, in order. */
  function Matching(actions: Actions, fb: string): seq<int> {
    if actions == [] then []
    else
      var a := actions[|actions| - 1];
      Matching(actions[..|actions| - 1], fb) + if Binds(a, fb) then [a.value] else []
  }

  /** A field without binding gets the dummy -1. */
  function Column(actions: Actions, fb: string): seq<int> {
    if Matching(actions, fb) == [] then [-1] else Matching(actions, fb)
  }

  function Row(actions: Actions, fbs: seq<string>): seq<int> {
    if fbs == [] then [] else Row(actions, fbs[..|fbs| - 1]) + Column(actions, fbs[|fbs| - 1])
  }

  /** The emitted assignments, run on one table row: a field that not all rules bind is set only
      when its entry is not negative. */
  function RunRow(fbs: seq<string>, common: set<string>, row: seq<int>, st: State): State
    requires |fbs| <= |row|
  {
    if fbs == [] then st
    else
      var n := |fbs| - 1;
      var before := RunRow(fbs[..n], common, row, st);
      if fbs[n] in common || row[n] >= 0 then before[fbs[n] := row[n]] else before
  }

  // ----- One rule -----

  lemma {:induction false} MatchingOnce(actions: Actions, fb: string)
    requires OncePerField(actions)
    ensures |Matching(actions, fb)| == if fb in Fields(actions) then 1 else 0
  {
    if actions != [] {
      var n := |actions| - 1;
      MatchingOnce(actions[..n], fb);
      assert Fields(actions) ==
        Fields(actions[..n]) + if actions[n].FieldBinding? then {Lower(actions[n].fieldName)} else {};
    }
  }

  /** What a rule's bindings leave in one field. */
  lemma {:induction false} EffectAt(actions: Actions, st: State, fb: string)
    requires OncePerField(actions)
    ensures var m := Matching(actions, fb);
            if m == [] then
              (fb in Effect(actions, st) <==> fb in st) && (fb in st ==> Effect(actions, st)[fb] == st[fb])
            else fb in Effect(actions, st) && Effect(actions, st)[fb] == m[|m| - 1]
  {
    if actions != [] {
      EffectAt(actions[..|actions| - 1], st, fb);
    }
  }

  lemma LowerIs(s: string, i: nat)
    requires i < |s|
    ensures |Lower(s)| == |s|
    ensures Lower(s)[i] == if 'A' <= s[i] <= 'Z' then (s[i] as int + 32) as char else s[i]
  {
  }

  /** A rule's bindings leave in every field that they name its value, and all other fields alone. */
  lemma BindingsAre(actions: Actions, st: State, fb: string)
    requires OncePerField(actions)
    ensures forall i :: 0 <= i < |actions| && actions[i].FieldBinding? && Lower(actions[i].fieldName) == fb ==>
      fb in Effect(actions, st) && Effect(actions, st)[fb] == actions[i].value
    ensures (forall i :: 0 <= i < |actions| && actions[i].FieldBinding? ==> Lower(actions[i].fieldName) != fb) ==>
      (fb in Effect(actions, st) <==> fb in st) && (fb in st ==> Effect(actions, st)[fb] == st[fb])
  {
    EffectAt(actions, st, fb);
    MatchingOnce(actions, fb);
    forall i | 0 <= i < |actions| && actions[i].FieldBinding? && Lower(actions[i].fieldName) == fb
      ensures Matching(actions, fb) == [actions[i].value]
    {
      MatchingValues(actions, fb, actions[i].value);
    }
  }

  lemma ColumnIsOne(actions: Actions, fb: string)
    requires OncePerField(actions)
    ensures |Column(actions, fb)| == 1
  {
    MatchingOnce(actions, fb);
  }

  lemma {:induction false} RowLength(actions: Actions, fbs: seq<string>)
    requires OncePerField(actions)
    ensures |Row(actions, fbs)| == |fbs|
    decreases |fbs|
  {
    if fbs != [] {
      RowLength(actions, fbs[..|fbs| - 1]);
      ColumnIsOne(actions, fbs[|fbs| - 1]);
    }
  }

  lemma RowStep(actions: Actions, fbs: seq<string>)
    requires OncePerField(actions) && fbs != []
    ensures var n := |fbs| - 1;
      |Row(actions, fbs[..n])| == n && Row(actions, fbs) == Row(actions, fbs[..n]) + [Column(actions, fbs[n])[0]]
  {
    var n := |fbs| - 1;
    RowLength(actions, fbs[..n]);
    ColumnIsOne(actions, fbs[n]);
    assert Column(actions, fbs[n]) == [Column(actions, fbs[n])[0]];
  }

  lemma {:induction false} RowAt(actions: Actions, fbs: seq<string>, i: nat)
    requires OncePerField(actions) && i < |fbs|
    ensures |Row(actions, fbs)| == |fbs| && Row(actions, fbs)[i] == Column(actions, fbs[i])[0]
    decreases |fbs|
  {
    var n := |fbs| - 1;
    RowStep(actions, fbs);
    if i < n {
      RowAt(actions, fbs[..n], i);
    }
  }

  lemma RowIsAligned(actions: Actions, fbs: seq<string>)
    requires OncePerField(actions)
    ensures |Row(actions, fbs)| == |fbs|
    ensures forall i :: 0 <= i < |fbs| ==> Row(actions, fbs)[i] == Column(actions, fbs[i])[0]
  {
    RowLength(actions, fbs);
    forall i | 0 <= i < |fbs| ensures Row(actions, fbs)[i] == Column(actions, fbs[i])[0] {
      RowAt(actions, fbs, i);
    }
  }

  /** What the emitted assignments leave in one field. */
  lemma {:induction false} RunRowAt(fbs: seq<string>, common: set<string>, row: seq<int>, st: State, fb: string)
    requires |fbs| <= |row| && Distinct(fbs)
    ensures var r := RunRow(fbs, common, row, st);
            if exists i :: 0 <= i < |fbs| && fbs[i] == fb && (fb in common || row[i] >= 0)
            then fb in r && forall i :: 0 <= i < |fbs| && fbs[i] == fb ==> r[fb] == row[i]
            else (fb in r <==> fb in st) && (fb in st ==> r[fb] == st[fb])
  {
    if fbs != [] {
      var n := |fbs| - 1;
      RunRowAt(fbs[..n], common, row, st, fb);
      assert forall i :: 0 <= i < n ==> fbs[..n][i] == fbs[i];
    }
  }

  /** A negative value survives only in a field that every rule binds. */
  ghost predicate ValuesGuarded(actions: Actions, common: set<string>) {
    forall i :: 0 <= i < |actions| && actions[i].FieldBinding? ==>
      actions[i].value >= 0 || Lower(actions[i].fieldName) in common
  }

  lemma {:induction false} MatchingValues(actions: Actions, fb: string, v: int)
    ensures v in Matching(actions, fb) <==>
      exists i :: 0 <= i < |actions| && Binds(actions[i], fb) && actions[i].value == v
  {
    if actions != [] {
      var n := |actions| - 1;
      MatchingValues(actions[..n], fb, v);
      assert forall i :: 0 <= i < n ==> actions[..n][i] == actions[i];
      if Binds(actions[n], fb) && actions[n].value == v {
        assert Matching(actions, fb)[|Matching(actions, fb)| - 1] == v;
      }
    }
  }

  function At(st: State, fb: string): seq<int> {
    if fb in st then [st[fb]] else []
  }

  /** One field after the rule's bindings and after the emitted assignments. */
  lemma FieldAgrees(actions: Actions, fbs: seq<string>, common: set<string>, st: State, fb: string)
    requires OncePerField(actions) && Distinct(fbs)
    requires (forall f :: f in Fields(actions) ==> f in fbs) && common <= Fields(actions)
    ensures |Row(actions, fbs)| == |fbs|
    ensures var m, row := Matching(actions, fb), Row(actions, fbs);
            (m == [] || m[0] >= 0 || fb in common || At(st, fb) == [m[0]]) <==>
            At(RunRow(fbs, common, row, st), fb) == At(Effect(actions, st), fb)
  {
    RowIsAligned(actions, fbs);
    MatchingOnce(actions, fb);
    EffectAt(actions, st, fb);
    RunRowAt(fbs, common, Row(actions, fbs), st, fb);
    if fb in fbs {
      var i :| 0 <= i < |fbs| && fbs[i] == fb;
      assert Row(actions, fbs)[i] == Column(actions, fb)[0];
    }
  }

  lemma StatesAgree(s: State, t: State)
    requires forall fb :: At(s, fb) == At(t, fb)
    ensures s == t
  {
    forall fb
      ensures fb in s <==> fb in t
      ensures fb in s && fb in t ==> s[fb] == t[fb]
    {
      assert At(s, fb) == At(t, fb);
    }
  }

  lemma GuardedRowRuns(actions: Actions, fbs: seq<string>, common: set<string>, st: State)
    requires OncePerField(actions) && Distinct(fbs) && ValuesGuarded(actions, common)
    requires (forall f :: f in Fields(actions) ==> f in fbs) && common <= Fields(actions)
    ensures |Row(actions, fbs)| == |fbs|
    ensures RunRow(fbs, common, Row(actions, fbs), st) == Effect(actions, st)
  {
    RowIsAligned(actions, fbs);
    forall fb
      ensures At(RunRow(fbs, common, Row(actions, fbs), st), fb) == At(Effect(actions, st), fb)
    {
      FieldAgrees(actions, fbs, common, st, fb);
      var m := Matching(actions, fb);
      if m != [] {
        MatchingValues(actions, fb, m[0]);
      }
    }
    StatesAgree(RunRow(fbs, common, Row(actions, fbs), st), Effect(actions, st));
  }

  /** The emitted assignments drop a negative value of a guarded field. */
  lemma NegativeIsDropped(actions: Actions, fbs: seq<string>, common: set<string>)
    requires OncePerField(actions) && Distinct(fbs) && !ValuesGuarded(actions, common)
    requires (forall f :: f in Fields(actions) ==> f in fbs) && common <= Fields(actions)
    ensures |Row(actions, fbs)| == |fbs|
    ensures RunRow(fbs, common, Row(actions, fbs), map[]) != Effect(actions, map[])
  {
    RowIsAligned(actions, fbs);
    var i :| 0 <= i < |actions| && actions[i].FieldBinding?
      && actions[i].value < 0 && Lower(actions[i].fieldName) !in common;
    BindingIsDropped(actions, fbs, common, i);
  }

  lemma BindingIsDropped(actions: Actions, fbs: seq<string>, common: set<string>, i: nat)
    requires OncePerField(actions) && Distinct(fbs) && |Row(actions, fbs)| == |fbs|
    requires (forall f :: f in Fields(actions) ==> f in fbs) && common <= Fields(actions)
    requires i < |actions| && actions[i].FieldBinding?
    requires actions[i].value < 0 && Lower(actions[i].fieldName) !in common
    ensures RunRow(fbs, common, Row(actions, fbs), map[]) != Effect(actions, map[])
  {
    var fb := Lower(actions[i].fieldName);
    MatchingOnce(actions, fb);
    MatchingValues(actions, fb, actions[i].value);
    FieldAgrees(actions, fbs, common, map[], fb);
  }

  /** The emitted assignments do what the rule's bindings do, in every state, exactly when no
      guarded field is bound to a negative value. */
  lemma RowRunsRule(actions: Actions, fbs: seq<string>, common: set<string>)
    requires OncePerField(actions) && Distinct(fbs)
    requires (forall f :: f in Fields(actions) ==> f in fbs) && common <= Fields(actions)
    ensures |Row(actions, fbs)| == |fbs|
    ensures ValuesGuarded(actions, common) <==>
      forall st :: RunRow(fbs, common, Row(actions, fbs), st) == Effect(actions, st)
  {
    RowIsAligned(actions, fbs);
    if ValuesGuarded(actions, common) {
      forall st
        ensures RunRow(fbs, common, Row(actions, fbs), st) == Effect(actions, st)
      {
        GuardedRowRuns(actions, fbs, common, st);
      }
    } else {
      NegativeIsDropped(actions, fbs, common);
    }
  }

  // ----- The generator -----

  class Generator {
    const tuple2rule: map<Tuple, Actions>
    var allFbs: seq<string>
    var commonFbs: set<string>
    var tuple2actions: map<Tuple, seq<int>>

    constructor (tuple2rule: map<Tuple, Actions>)
      ensures this.tuple2rule == tuple2rule
    {
      this.tuple2rule := tuple2rule;
      allFbs, commonFbs, tuple2actions := [], {}, map[];
    }

    /** _gather_all_fb: the union and the intersection of the rules' fields. */
    method GatherAllFb()
      modifies this`allFbs, this`commonFbs
      ensures SortedNames(allFbs)
      ensures forall f :: f in allFbs <==> exists t :: t in tuple2rule && f in Fields(tuple2rule[t])
      ensures tuple2rule != map[] ==>
        forall f :: f in commonFbs <==> forall t :: t in tuple2rule ==> f in Fields(tuple2rule[t])
      ensures tuple2rule == map[] ==> commonFbs == {}
    {
      allFbs, commonFbs := [], {};
      if tuple2rule == map[] {
        return;
      }
      var first :| first in tuple2rule.Keys;
      var all, common, rest := {}, Fields(tuple2rule[first]), tuple2rule.Keys;
      while rest != {}
        invariant rest <= tuple2rule.Keys
        invariant forall f :: f in all <==> exists t :: t in tuple2rule && t !in rest && f in Fields(tuple2rule[t])
        invariant forall f :: f in common <==>
          f in Fields(tuple2rule[first]) && forall t :: t in tuple2rule && t !in rest ==> f in Fields(tuple2rule[t])
        decreases rest
      {
        var t :| t in rest;
        all, common, rest := all + Fields(tuple2rule[t]), common * Fields(tuple2rule[t]), rest - {t};
      }
      commonFbs := common;
      allFbs := Sort(all);
    }

    /** _create_fb_actions: the row entries of one rule. */
    method CreateFbActions(actions: Actions) returns (row: seq<int>)
      ensures row == Row(actions, allFbs)
    {
      row := [];
      for i := 0 to |allFbs|
        invariant row == Row(actions, allFbs[..i])
      {
        assert allFbs[..i + 1][..i] == allFbs[..i];
        var column := [];
        for j := 0 to |actions|
          invariant column == Matching(actions[..j], allFbs[i])
        {
          assert actions[..j + 1][..j] == actions[..j];
          if Binds(actions[j], allFbs[i]) {
            column := column + [actions[j].value];
          }
        }
        assert actions[..|actions|] == actions;
        if column == [] {
          column := [-1];
        }
        row := row + column;
      }
      assert allFbs[..|allFbs|] == allFbs;
    }

    /** Every rule binds the field. */
    ghost predicate InEveryRule(f: string) {
      forall t :: t in tuple2rule ==>
        exists j :: 0 <= j < |tuple2rule[t]| && tuple2rule[t][j].FieldBinding? && Lower(tuple2rule[t][j].fieldName) == f
    }

    /** The tuple's rule binds negative values only to fields that every rule binds. */
    ghost predicate ValuesKept(t: Tuple)
      requires t in tuple2rule
    {
      forall i :: 0 <= i < |tuple2rule[t]| && tuple2rule[t][i].FieldBinding? ==>
        tuple2rule[t][i].value >= 0 || InEveryRule(Lower(tuple2rule[t][i].fieldName))
    }

    lemma GuardedIsKept(t: Tuple)
      requires Gathered() && t in tuple2rule
      ensures ValuesGuarded(tuple2rule[t], commonFbs) <==> ValuesKept(t)
    {
    }

    /** allFbs and commonFbs are the fields of some and of all rules. */
    ghost predicate Gathered()
      reads this
    {
      && SortedNames(allFbs)
      && (forall f :: f in allFbs <==> exists t :: t in tuple2rule && f in Fields(tuple2rule[t]))
      && (forall t :: t in tuple2rule ==> commonFbs <= Fields(tuple2rule[t]))
      && (tuple2rule != map[] ==> forall f :: f in commonFbs <==> InEveryRule(f))
    }

    /** _preprocess: one row for every tuple. */
    method Preprocess()
      modifies this
      ensures Preprocessed()
    {
      GatherAllFb();
      var rows, rest := map[], tuple2rule.Keys;
      ghost var fbs := allFbs;
      while rest != {}
        invariant Gathered() && allFbs == fbs
        invariant rest <= tuple2rule.Keys && rows.Keys == tuple2rule.Keys - rest
        invariant forall t :: t in rows ==> rows[t] == Row(tuple2rule[t], fbs)
        decreases rest
      {
        var t :| t in rest;
        var row := CreateFbActions(tuple2rule[t]);
        rows, rest := rows[t := row], rest - {t};
      }
      tuple2actions := rows;
    }

    /** Every tuple's stored row is that of its rule. */
    ghost predicate Preprocessed()
      reads this
    {
      && Gathered() && tuple2actions.Keys == tuple2rule.Keys
      && forall t :: t in tuple2rule ==> tuple2actions[t] == Row(tuple2rule[t], allFbs)
    }

    /** After preprocessing, a tuple's stored row has the effect of its rule exactly when no guarded
        field of the rule is bound to a negative value. */
    lemma TableRunsRules(t: Tuple)
      requires Preprocessed() && t in tuple2rule && OncePerField(tuple2rule[t])
      ensures |tuple2actions[t]| == |allFbs|
      ensures ValuesGuarded(tuple2rule[t], commonFbs) <==>
        forall st :: RunRow(allFbs, commonFbs, tuple2actions[t], st) == Effect(tuple2rule[t], st)
    {
      SortedIsDistinct(allFbs);
      RowRunsRule(tuple2rule[t], allFbs, commonFbs);
    }

    /** The emitted code, run on a tuple's stored row, does to every state what the bindings of the
        tuple's rule do. */
    ghost predicate CodeRunsRule(code: seq<Assignment>, t: Tuple)
      reads this
      requires t in tuple2rule && t in tuple2actions
    {
      forall st :: RunCode(code, tuple2actions[t], st) == Effect(tuple2rule[t], st)
    }

    lemma CodeRunsTable(code: seq<Assignment>, t: Tuple)
      requires Preprocessed() && t in tuple2rule && OncePerField(tuple2rule[t])
      requires forall row, st :: |allFbs| <= |row| ==> RunCode(code, row, st) == RunRow(allFbs, commonFbs, row, st)
      ensures CodeRunsRule(code, t) <==> ValuesGuarded(tuple2rule[t], commonFbs)
    {
      TableRunsRules(t);
      var row := tuple2actions[t];
      if CodeRunsRule(code, t) {
        forall st ensures RunRow(allFbs, commonFbs, row, st) == Effect(tuple2rule[t], st) {
          assert RunCode(code, row, st) == RunRow(allFbs, commonFbs, row, st);
        }
      }
      if ValuesGuarded(tuple2rule[t], commonFbs) {
        forall st ensures RunCode(code, row, st) == Effect(tuple2rule[t], st) {
          assert RunCode(code, row, st) == RunRow(allFbs, commonFbs, row, st);
        }
      }
    }

    /** The table and the code together: for every tuple whose rule binds each field once, the code
        run on the stored row does what the rule does exactly when no guarded field of the rule is
        bound to a negative value. */
    method Compile() returns (code: seq<Assignment>)
      modifies this
      ensures Preprocessed()
      ensures forall t :: t in tuple2rule && OncePerField(tuple2rule[t]) ==>
        (CodeRunsRule(code, t) <==> ValuesGuarded(tuple2rule[t], commonFbs))
      ensures forall t :: t in tuple2rule && OncePerField(tuple2rule[t]) ==>
        (CodeRunsRule(code, t) <==> ValuesKept(t))
    {
      Preprocess();
      code := EmitActions();
      forall t | t in tuple2rule && OncePerField(tuple2rule[t])
        ensures CodeRunsRule(code, t) <==> ValuesGuarded(tuple2rule[t], commonFbs)
        ensures ValuesGuarded(tuple2rule[t], commonFbs) <==> ValuesKept(t)
      {
        CodeRunsTable(code, t);
        GuardedIsKept(t);
      }
    }

    /** The assignments of emit_actions, run on a tuple's row. */
    method EmitActions() returns (code: seq<Assignment>)
      ensures forall row, st :: |allFbs| <= |row| ==> RunCode(code, row, st) == RunRow(allFbs, commonFbs, row, st)
    {
      code := [];
      for i := 0 to |allFbs|
        invariant |code| == i
        invariant forall k :: 0 <= k < i ==> code[k] == Assignment(allFbs[k], k, allFbs[k] !in commonFbs)
      {
        code := code + [Assignment(allFbs[i], i, allFbs[i] !in commonFbs)];
      }
      forall row: seq<int>, st: State | |allFbs| <= |row|
        ensures RunCode(code, row, st) == RunRow(allFbs, commonFbs, row, st)
      {
        CodeRunsRow(code, allFbs, commonFbs, row, st);
      }
    }
  }

  lemma SortedIsDistinct(names: seq<string>)
    requires SortedNames(names)
    ensures Distinct(names)
  {
    forall i, j | 0 <= i < j < |names|
      ensures names[i] != names[j]
    {
      NotBeforeItself(names[i]);
    }
  }

  lemma {:induction false} NotBeforeItself(s: string)
    ensures !Before(s, s)
  {
    if s != [] {
      NotBeforeItself(s[1..]);
    }
  }

  /** if (table[hidx].field >= 0) set_field(table[hidx].field), the test only where guarded */
  datatype Assignment = Assignment(fb: string, column: nat, guarded: bool)

  function RunCode(code: seq<Assignment>, row: seq<int>, st: State): State {
    if code == [] then st
    else
      var a, before := code[|code| - 1], RunCode(code[..|code| - 1], row, st);
      if a.column < |row| && (!a.guarded || row[a.column] >= 0) then before[a.fb := row[a.column]] else before
  }

  lemma {:induction false} CodeRunsRow(code: seq<Assignment>, fbs: seq<string>, common: set<string>,
                                       row: seq<int>, st: State)
    requires |code| == |fbs| <= |row|
    requires forall k :: 0 <= k < |code| ==> code[k] == Assignment(fbs[k], k, fbs[k] !in common)
    ensures RunCode(code, row, st) == RunRow(fbs, common, row, st)
  {
    if code != [] {
      var n := |code| - 1;
      CodeRunsRow(code[..n], fbs[..n], common, row, st);
    }
  }
}
