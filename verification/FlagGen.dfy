/** What the emitted flag tables have to say about each record, and the interning on values. */
module FlagSpec {
  import opened Wrappers

  /** A flag with what is done to it, or the word "nothing". */
  datatype Action = Action(flag: string, action: string) | Nothing

  datatype Record = Record(qualifier: Option<string>, mayMust: string, actions: seq<Action>)

  /** identifier takes up to this many actions unless it is told otherwise. */
  const LIMIT: nat := 100

  /** What parsing leaves: a known flag and a known action, neither with a dash or a colon. */
  ghost predicate Proper(a: Action) {
    a.Action? && '-' !in a.flag && ':' !in a.flag && '-' !in a.action && ':' !in a.action
  }

  ghost predicate AllProper(s: seq<Action>) {
    forall i :: 0 <= i < |s| ==> Proper(s[i])
  }

  function Text(a: Action): string
    requires a.Action?
  {
    a.flag + "-" + a.action
  }

  /** The texts of the actions joined by colons. */
  function Identifier(s: seq<Action>): string
    requires forall i :: 0 <= i < |s| ==> s[i].Action?
  {
    if s == [] then ""
    else if |s| == 1 then Text(s[0])
    else Identifier(s[..|s| - 1]) + ":" + Text(s[|s| - 1])
  }

  // ----- Identifiers tell action lists apart -----

  lemma SplitsOnce(a: string, b: string, x: string, y: string, c: char)
    requires a + [c] + b == x + [c] + y
    requires (c !in a && c !in x) || (c !in b && c !in y)
    ensures a == x && b == y
  {
    var s, t := a + [c] + b, x + [c] + y;
    assert s[|a|] == c && t[|x|] == c;
    assert |a| < |x| ==> c in x;
    assert |x| < |a| ==> c in a;
    assert |a| < |x| ==> c in b;
    assert |x| < |a| ==> c in y;
    assert a == s[..|a|] && x == t[..|x|];
    assert b == s[|a| + 1..] && y == t[|x| + 1..];
  }

  lemma TextIsInjective(a: Action, b: Action)
    requires Proper(a) && Proper(b) && Text(a) == Text(b)
    ensures a == b
  {
    SplitsOnce(a.flag, a.action, b.flag, b.action, '-');
  }

  lemma TextHasNoColon(a: Action)
    requires Proper(a)
    ensures ':' !in Text(a) && |Text(a)| > 0
  {
  }

  /** Two action lists with the same identifier are the same list. */
  lemma {:induction false} IdentifierIsInjective(s: seq<Action>, t: seq<Action>)
    requires AllProper(s) && AllProper(t) && Identifier(s) == Identifier(t)
    ensures s == t
    decreases |s|
  {
    assert |s| > 1 ==> ':' in Identifier(s);
    assert |t| > 1 ==> ':' in Identifier(t);
    if |s| > 0 {
      TextHasNoColon(s[|s| - 1]);
    }
    if |t| > 0 {
      TextHasNoColon(t[|t| - 1]);
    }
    if |s| > 1 && |t| > 1 {
      var m, n := |s| - 1, |t| - 1;
      SplitsOnce(Identifier(s[..m]), Text(s[m]), Identifier(t[..n]), Text(t[n]), ':');
      IdentifierIsInjective(s[..m], t[..n]);
      TextIsInjective(s[m], t[n]);
      assert s == s[..m] + [s[m]] && t == t[..n] + [t[n]];
    } else if |s| == 1 && |t| == 1 {
      TextIsInjective(s[0], t[0]);
    }
  }

  // ----- What the rows of the tables stand for -----

  datatype SimpleRow = SimpleRow(
    count: nat, may: bool, must: bool,
    read: set<string>, write: set<string>, undefined: set<string>,
    index: nat)

  datatype ComplexRow = ComplexRow(rep: bool, imm: bool, cases: seq<nat>)

  function ReadSet(s: seq<Action>): set<string> {
    set a | a in s && a.Action? && a.action == "tst" :: a.flag
  }

  function WriteSet(s: seq<Action>): set<string> {
    set a | a in s && a.Action? && a.action != "tst" :: a.flag
  }

  function UndefinedSet(s: seq<Action>): set<string> {
    set a | a in s && a.Action? && a.action == "u" :: a.flag
  }

  function RowOf(r: Record, index: nat): SimpleRow {
    SimpleRow(|r.actions|, r.mayMust == "MAY", r.mayMust == "MUST",
              ReadSet(r.actions), WriteSet(r.actions), UndefinedSet(r.actions), index)
  }

  function First(s: seq<Action>): seq<Action> {
    if |s| <= LIMIT then s else s[..LIMIT]
  }

  /** The actions stand one after the other in the emitted array, from index t. */
  ghost predicate Stored(emitted: seq<Action>, t: nat, s: seq<Action>) {
    t + |s| <= |emitted| && emitted[t..t + |s|] == s
  }

  /** Following an index of the simple table leads to the record's own flags and actions. */
  ghost predicate Recovers(simple: seq<SimpleRow>, emitted: seq<Action>, r: Record, id: nat) {
    1 <= id <= |simple| && simple[id - 1] == RowOf(r, simple[id - 1].index)
    && Stored(emitted, simple[id - 1].index, First(r.actions))
  }

  /** With no more than 100 actions the row says exactly where all of them are. */
  lemma RecoversAll(simple: seq<SimpleRow>, emitted: seq<Action>, r: Record, id: nat)
    requires Recovers(simple, emitted, r, id) && |r.actions| <= 100
    ensures simple[id - 1].index + simple[id - 1].count <= |emitted|
    ensures emitted[simple[id - 1].index..simple[id - 1].index + simple[id - 1].count] == r.actions
  {
  }

  /** What the row that a record leads to says of its flags. */
  lemma RowMeans(simple: seq<SimpleRow>, emitted: seq<Action>, r: Record, id: nat, flag: string)
    requires Recovers(simple, emitted, r, id)
    ensures 1 <= id <= |simple|
    ensures var row := simple[id - 1];
      && (row.may <==> r.mayMust == "MAY") && (row.must <==> r.mayMust == "MUST")
      && (flag in row.read <==> Action(flag, "tst") in r.actions)
      && (flag in row.write <==> exists a :: a != "tst" && Action(flag, a) in r.actions)
      && (flag in row.undefined <==> Action(flag, "u") in r.actions)
      && row.count == |r.actions|
    ensures var row := simple[id - 1];
      forall k :: 0 <= k < |r.actions| && k < 100 ==>
        row.index + k < |emitted| && emitted[row.index + k] == r.actions[k]
  {
    FlagSets(r.actions, flag);
    FirstStored(emitted, simple[id - 1].index, r.actions);
  }

  lemma FlagSets(s: seq<Action>, flag: string)
    ensures flag in ReadSet(s) <==> Action(flag, "tst") in s
    ensures flag in WriteSet(s) <==> exists a :: a != "tst" && Action(flag, a) in s
    ensures flag in UndefinedSet(s) <==> Action(flag, "u") in s
  {
    if flag in WriteSet(s) {
      var a :| a in s && a.Action? && a.action != "tst" && a.flag == flag;
      assert a == Action(flag, a.action);
    }
    if flag in ReadSet(s) {
      var a :| a in s && a.Action? && a.action == "tst" && a.flag == flag;
      assert a == Action(flag, "tst");
    }
    if flag in UndefinedSet(s) {
      var a :| a in s && a.Action? && a.action == "u" && a.flag == flag;
      assert a == Action(flag, "u");
    }
  }

  lemma FirstStored(emitted: seq<Action>, t: nat, s: seq<Action>)
    requires Stored(emitted, t, First(s))
    ensures forall k :: 0 <= k < |s| && k < 100 ==> t + k < |emitted| && emitted[t + k] == s[k]
  {
    var first := First(s);
    forall k | 0 <= k < |s| && k < 100
      ensures t + k < |emitted| && emitted[t + k] == s[k]
    {
      assert emitted[t..t + |first|][k] == first[k];
    }
  }

  lemma StoredStays(emitted: seq<Action>, more: seq<Action>, t: nat, s: seq<Action>)
    requires Stored(emitted, t, s) && emitted <= more
    ensures Stored(more, t, s)
  {
    assert more[t..t + |s|] == emitted[t..t + |s|];
  }

  /** What a record is given stays right while the tables grow. */
  lemma RecoversStays(simple: seq<SimpleRow>, emitted: seq<Action>, simple': seq<SimpleRow>, emitted': seq<Action>,
                      r: Record, id: nat)
    requires Recovers(simple, emitted, r, id) && simple <= simple' && emitted <= emitted'
    ensures Recovers(simple', emitted', r, id)
  {
    StoredStays(emitted, emitted', simple[id - 1].index, First(r.actions));
  }

  // ----- Interning -----

  /** Every identifier in the table points at its own actions. */
  ghost predicate Interned(table: map<string, nat>, emitted: seq<Action>) {
    forall p: seq<Action> :: AllProper(p) && Identifier(p) in table ==> Stored(emitted, table[Identifier(p)], p)
  }

  ghost predicate PointsTo(table: map<string, nat>, s: seq<Action>, t: nat) {
    AllProper(s) && Identifier(s) in table && table[Identifier(s)] == t
  }

  lemma InternedStays(table: map<string, nat>, emitted: seq<Action>, more: seq<Action>)
    requires Interned(table, emitted)
    ensures Interned(table, emitted + more)
  {
    forall p: seq<Action> | AllProper(p) && Identifier(p) in table
      ensures Stored(emitted + more, table[Identifier(p)], p)
    {
      StoredStays(emitted, emitted + more, table[Identifier(p)], p);
    }
  }

  /** Pointing a prefix of the new actions at their start keeps the table right, also when the
      prefix had an index before. */
  lemma PrefixInstalled(table: map<string, nat>, emitted: seq<Action>, s: seq<Action>, k: nat)
    requires Interned(table, emitted + s) && k <= |s| && AllProper(s[..k])
    ensures Interned(table[Identifier(s[..k]) := |emitted|], emitted + s)
  {
    var id := Identifier(s[..k]);
    forall p: seq<Action> | AllProper(p) && Identifier(p) in table[id := |emitted|]
      ensures Stored(emitted + s, table[id := |emitted|][Identifier(p)], p)
    {
      if Identifier(p) == id {
        IdentifierIsInjective(p, s[..k]);
        assert (emitted + s)[|emitted|..|emitted| + k] == s[..k];
      }
    }
  }

  lemma FirstIsStored(emitted: seq<Action>, s: seq<Action>)
    ensures Stored(emitted + s, |emitted|, First(s))
    ensures First(s) == s[..|First(s)|] && (s != [] ==> First(s) != [])
    ensures AllProper(s) ==> AllProper(First(s))
  {
    assert (emitted + s)[|emitted|..|emitted| + |First(s)|] == s[..|First(s)|];
  }

  // ----- Cases -----

  const CASES: seq<string> := ["IMMED_ZERO", "IMMED_ONE", "IMMED_OTHER", "HAS_REP", "NO_REP"]

  /** make_case_name; None where it dies */
  function CaseName(q: Option<string>): Option<string> {
    if q == Some("IMMx") then Some("IMMED_OTHER")
    else if q == Some("IMM0") then Some("IMMED_ZERO")
    else if q == Some("IMM1") then Some("IMMED_ONE")
    else if q == Some("REP") then Some("HAS_REP")
    else if q == Some("NOREP") then Some("NO_REP")
    else None
  }

  /** The search for a case passes over all records before k. */
  ghost predicate Passes(recs: seq<Record>, c: string, k: nat) {
    k <= |recs|
    && forall j :: 0 <= j < k ==> CaseName(recs[j].qualifier).Some? && CaseName(recs[j].qualifier) != Some(c)
  }

  ghost predicate FoundAt(recs: seq<Record>, c: string, k: nat) {
    k < |recs| && Passes(recs, c, k) && CaseName(recs[k].qualifier) == Some(c)
  }

  ghost predicate DiesAt(recs: seq<Record>, c: string, k: nat) {
    k < |recs| && Passes(recs, c, k) && CaseName(recs[k].qualifier).None?
  }

  predicate IsComplex(recs: seq<Record>) {
    exists i :: 0 <= i < |recs| && recs[i].qualifier.Some?
  }

  predicate IsRep(recs: seq<Record>) {
    exists i :: 0 <= i < |recs| && recs[i].qualifier in {Some("REP"), Some("NOREP")}
  }

  predicate IsImm(recs: seq<Record>) {
    exists i :: 0 <= i < |recs| && recs[i].qualifier in {Some("IMM0"), Some("IMM1"), Some("IMMx")}
  }

  /** The entry of a complex row for a case: the simple row of the first record of that case, or 0. */
  ghost predicate CaseRecovers(simple: seq<SimpleRow>, emitted: seq<Action>, recs: seq<Record>, c: string, id: nat) {
    if Passes(recs, c, |recs|) then id == 0
    else exists k: nat :: FoundAt(recs, c, k) && Recovers(simple, emitted, recs[k], id)
  }
}

/** The three tables of pysrc/flag_gen.py while they are filled. */
module FlagGen {
  import opened FlagSpec
  import opened Wrappers

  class FlagTables {
    var faTable: map<string, nat>
    var frTable: map<SimpleRow, nat>
    var maxFlagActions: nat
    var flagSimpleRec: nat
    var flagComplexRec: nat
    var flagActions: seq<Action>
    var simple: seq<SimpleRow>
    var complex: seq<ComplexRow>

    ghost predicate Valid()
      reads this
    {
      && Interned(faTable, flagActions) && maxFlagActions == |flagActions|
      && RowsInterned(frTable, simple) && flagSimpleRec == |simple| + 1
      && flagComplexRec == |complex| + 1
    }

    constructor ()
      ensures Valid() && flagActions == [] && simple == [] && complex == [] && faTable == map[]
    {
      faTable, frTable := map[], map[];
      maxFlagActions, flagSimpleRec, flagComplexRec := 0, 1, 1;
      flagActions, simple, complex := [], [], [];
    }

    /** _compute_assign_flag_action_id; None where the program dies on a bogus flag */
    method AssignActionIndex(actions: seq<Action>) returns (r: Option<nat>)
      requires Valid() && AllParsed(actions)
      modifies this`faTable, this`maxFlagActions, this`flagActions
      ensures r.Some? ==> Valid() && AllProper(First(actions))
      ensures r.Some? ==> Stored(flagActions, r.value, First(actions))
      ensures r.Some? && actions != [] ==> faTable[Identifier(First(actions)) := r.value] == faTable
      ensures r.Some? && Identifier(First(actions)) in old(faTable) ==>
        flagActions == old(flagActions) && r.value == old(faTable)[Identifier(First(actions))]
      ensures r.Some? && Identifier(First(actions)) !in old(faTable) ==> flagActions == old(flagActions) + actions
      ensures r.Some? <==>
        AllProper(First(actions)) && (Identifier(First(actions)) in old(faTable) || AllProper(actions))
    {
      FirstIsStored(flagActions, actions);
      var id := Identify(actions, LIMIT - 1);
      if id.None? {
        return None;
      }
      if id.value in faTable {
        return Some(faTable[id.value]);
      }
      r := Install(actions);
    }

    /** Points every prefix of the actions at where they will be emitted. */
    method InstallPrefixes(actions: seq<Action>, t: nat) returns (ok: bool)
      requires Interned(faTable, flagActions + actions) && t == |flagActions| && AllParsed(actions)
      modifies this`faTable
      ensures ok <==> AllProper(actions)
      ensures ok ==> Interned(faTable, flagActions + actions)
      ensures ok ==> forall k :: 0 < k <= |actions| ==> PointsTo(faTable, actions[..k], t)
    {
      for i := 0 to |actions|
        invariant AllProper(actions[..i]) && Interned(faTable, flagActions + actions)
        invariant forall k :: 0 < k <= i ==> PointsTo(faTable, actions[..k], t)
      {
        var id := Identify(actions, i);
        if id.None? {
          return false;
        }
        PrefixInstalled(faTable, flagActions, actions, i + 1);
        faTable := faTable[id.value := t];
      }
      assert actions[..|actions|] == actions;
      return true;
    }

    /** The part for actions that are not in the table yet. */
    method Install(actions: seq<Action>) returns (r: Option<nat>)
      requires Valid() && AllParsed(actions)
      modifies this`faTable, this`maxFlagActions, this`flagActions
      ensures r.Some? <==> AllProper(actions)
      ensures r.Some? ==> Valid() && r == Some(|old(flagActions)|) && flagActions == old(flagActions) + actions
      ensures r.Some? ==> forall k :: 0 < k <= |actions| ==> PointsTo(faTable, actions[..k], r.value)
    {
      var t := maxFlagActions;
      maxFlagActions := maxFlagActions + |actions|;
      InternedStays(faTable, flagActions, actions);
      var ok := InstallPrefixes(actions, t);
      if !ok {
        return None;
      }
      EmitActions(actions);
      return Some(t);
    }

    /** flags_rec_t.emit_data_record */
    method EmitActions(actions: seq<Action>)
      modifies this`flagActions
      ensures flagActions == old(flagActions) + actions
    {
      for i := 0 to |actions|
        invariant flagActions == old(flagActions) + actions[..i]
      {
        flagActions := flagActions + [actions[i]];
      }
      assert actions[..|actions|] == actions;
    }

    /** The part of emit_data_record that reuses an identical row or adds a new one. */
    method InternRow(row: SimpleRow) returns (id: nat)
      requires Valid()
      modifies this`frTable, this`flagSimpleRec, this`simple
      ensures Valid() && 1 <= id <= |simple| && simple[id - 1] == row
      ensures simple == if row in old(frTable) then old(simple) else old(simple) + [row]
    {
      if row in frTable {
        id := frTable[row];
      } else {
        id := flagSimpleRec;
        flagSimpleRec := flagSimpleRec + 1;
        frTable := frTable[row := id];
        simple := simple + [row];
      }
    }

    /** One record of emit_data_record. */
    method EmitRecord(fr: Record) returns (r: Option<nat>)
      requires Valid() && AllParsed(fr.actions)
      modifies this`faTable, this`maxFlagActions, this`flagActions, this`frTable, this`flagSimpleRec, this`simple
      ensures AllProper(fr.actions) ==> r.Some?
      ensures r.Some? ==> Valid() && old(simple) <= simple && old(flagActions) <= flagActions
      ensures r.Some? ==> Recovers(simple, flagActions, fr, r.value)
    {
      FirstIsStored([], fr.actions);
      var t := AssignActionIndex(fr.actions);
      if t.None? {
        return None;
      }
      var id := InternRow(RowOf(fr, t.value));
      return Some(id);
    }

    /** The records of one instruction, in order: their ids in the simple table. */
    method EmitRecords(recs: seq<Record>) returns (r: Option<seq<nat>>)
      requires Valid() && forall i :: 0 <= i < |recs| ==> AllParsed(recs[i].actions)
      modifies this`faTable, this`maxFlagActions, this`flagActions, this`frTable, this`flagSimpleRec, this`simple
      ensures (forall i :: 0 <= i < |recs| ==> AllProper(recs[i].actions)) ==> r.Some?
      ensures r.Some? ==> Valid() && old(simple) <= simple && old(flagActions) <= flagActions
      ensures r.Some? ==> AllRecover(simple, flagActions, recs, r.value)
    {
      var ids: seq<nat> := [];
      for i := 0 to |recs|
        invariant Valid() && old(simple) <= simple && old(flagActions) <= flagActions
        invariant AllRecover(simple, flagActions, recs[..i], ids)
      {
        ghost var before, actions := simple, flagActions;
        var id := EmitRecord(recs[i]);
        if id.None? {
          return None;
        }
        AllRecoverGrows(before, actions, simple, flagActions, recs, ids, i, id.value);
        ids := ids + [id.value];
      }
      assert recs[..|recs|] == recs;
      return Some(ids);
    }

    /** flags_info_t.emit_data_record: the id that the instruction keeps, and whether it is one of
        the complex table; None where the program dies. */
    method EmitDataRecord(recs: seq<Record>) returns (r: Option<(nat, bool)>)
      requires Valid() && forall i :: 0 <= i < |recs| ==> AllParsed(recs[i].actions)
      modifies this
      ensures r.Some? ==> Valid() && recs != [] && r.value.1 == IsComplex(recs)
      ensures r.Some? ==> (r.value.1 <==> exists i :: 0 <= i < |recs| && recs[i].qualifier != None)
      ensures r.Some? ==>
        old(simple) <= simple && old(flagActions) <= flagActions && old(complex) <= complex
      ensures r.Some? && !r.value.1 ==> Recovers(simple, flagActions, recs[|recs| - 1], r.value.0)
      ensures r.Some? && r.value.1 ==> ComplexRecovers(complex, simple, flagActions, recs, r.value.0)
      ensures (forall i :: 0 <= i < |recs| ==> AllProper(recs[i].actions)) ==>
        (r.None? <==> recs == [] || (IsComplex(recs) && SomeCaseDies(recs)))
    {
      var ids := EmitRecords(recs);
      if ids.None? {
        return None;
      }
      if IsComplex(recs) {
        var id := flagComplexRec;
        flagComplexRec := flagComplexRec + 1;
        var cases := EmitCases(recs, ids.value, simple, flagActions);
        if cases.None? {
          return None;
        }
        complex := complex + [ComplexRow(IsRep(recs), IsImm(recs), cases.value)];
        return Some((id, true));
      }
      if recs == [] {
        return None;
      }
      return Some((ids.value[|recs| - 1], false));
    }
  }

  ghost predicate AllRecover(simple: seq<SimpleRow>, emitted: seq<Action>, recs: seq<Record>, ids: seq<nat>) {
    |ids| == |recs| && forall i :: 0 <= i < |recs| ==> Recovers(simple, emitted, recs[i], ids[i])
  }

  lemma AllRecoverGrows(simple: seq<SimpleRow>, emitted: seq<Action>, simple': seq<SimpleRow>, emitted': seq<Action>,
                        recs: seq<Record>, ids: seq<nat>, n: nat, id: nat)
    requires n < |recs| && AllRecover(simple, emitted, recs[..n], ids)
    requires simple <= simple' && emitted <= emitted' && Recovers(simple', emitted', recs[n], id)
    ensures AllRecover(simple', emitted', recs[..n + 1], ids + [id])
  {
    forall i | 0 <= i < n ensures Recovers(simple', emitted', recs[i], ids[i]) {
      assert recs[..n][i] == recs[i];
      RecoversStays(simple, emitted, simple', emitted', recs[i], ids[i]);
    }
  }

  /** The row of the complex table leads, case by case, to the record for that case. */
  ghost predicate ComplexRecovers(complex: seq<ComplexRow>, simple: seq<SimpleRow>, emitted: seq<Action>,
                                  recs: seq<Record>, id: nat)
  {
    && 1 <= id <= |complex|
    && complex[id - 1].rep == IsRep(recs) && complex[id - 1].imm == IsImm(recs)
    && CasesRecover(simple, emitted, recs, complex[id - 1].cases)
  }

  ghost predicate CasesRecover(simple: seq<SimpleRow>, emitted: seq<Action>, recs: seq<Record>, cases: seq<nat>) {
    |cases| == |CASES|
    && forall c :: 0 <= c < |CASES| ==> CaseRecovers(simple, emitted, recs, CASES[c], cases[c])
  }

  /** The qualifiers in the order of the cases. */
  function CaseQualifier(c: nat): (q: string)
    requires c < 5
    ensures q == ["IMM0", "IMM1", "IMMx", "REP", "NOREP"][c]
  {
    match c
    case 0 => "IMM0"
    case 1 => "IMM1"
    case 2 => "IMMx"
    case 3 => "REP"
    case _ => "NOREP"
  }

  lemma CaseNamed(c: nat, q: Option<string>)
    requires c < 5
    ensures CaseName(q) == Some(CASES[c]) <==> q == Some(CaseQualifier(c))
    ensures CaseName(q).None? <==>
      q != Some("IMM0") && q != Some("IMM1") && q != Some("IMMx") && q != Some("REP") && q != Some("NOREP")
  {
  }

  /** Record k is the first one with the qualifier. */
  ghost predicate FirstWith(recs: seq<Record>, q: string, k: nat) {
    k < |recs| && recs[k].qualifier == Some(q) && forall j :: 0 <= j < k ==> recs[j].qualifier != Some(q)
  }

  /** What a complex row says, in terms of the qualifiers: whether there are repeat and immediate
      ones, and for the five qualifiers in order the simple row of the first record with it, or 0. */
  lemma ComplexMeans(complex: seq<ComplexRow>, simple: seq<SimpleRow>, emitted: seq<Action>,
                     recs: seq<Record>, id: nat, c: nat)
    requires ComplexRecovers(complex, simple, emitted, recs, id) && c < 5
    ensures 1 <= id <= |complex| && |complex[id - 1].cases| == 5
    ensures complex[id - 1].rep <==>
      exists i :: 0 <= i < |recs| && (recs[i].qualifier == Some("REP") || recs[i].qualifier == Some("NOREP"))
    ensures complex[id - 1].imm <==>
      exists i :: 0 <= i < |recs| &&
        (recs[i].qualifier == Some("IMM0") || recs[i].qualifier == Some("IMM1") || recs[i].qualifier == Some("IMMx"))
    ensures var q := ["IMM0", "IMM1", "IMMx", "REP", "NOREP"][c];
      if exists i :: 0 <= i < |recs| && recs[i].qualifier == Some(q)
      then exists k: nat :: FirstWith(recs, q, k) && Recovers(simple, emitted, recs[k], complex[id - 1].cases[c])
      else complex[id - 1].cases[c] == 0
  {
    var q, entry := CaseQualifier(c), complex[id - 1].cases[c];
    assert CaseRecovers(simple, emitted, recs, CASES[c], entry);
    forall i | 0 <= i < |recs|
      ensures CaseName(recs[i].qualifier) == Some(CASES[c]) <==> recs[i].qualifier == Some(q)
    {
      CaseNamed(c, recs[i].qualifier);
    }
    if !Passes(recs, CASES[c], |recs|) {
      var k: nat :| FoundAt(recs, CASES[c], k) && Recovers(simple, emitted, recs[k], entry);
      assert FirstWith(recs, q, k);
    }
  }

  /** Where the search for a case dies: at a record with another qualifier than the five, or none,
      when none before it has the case's. */
  lemma DiesMeans(recs: seq<Record>)
    ensures SomeCaseDies(recs) <==> exists c: nat, k: nat :: c < 5 && UnknownBefore(recs, CaseQualifier(c), k)
  {
    forall c: nat, k: nat | c < 5
      ensures DiesAt(recs, CASES[c], k) <==> UnknownBefore(recs, CaseQualifier(c), k)
    {
      DiesAtMeans(recs, c, k);
    }
    if SomeCaseDies(recs) {
      var c :| 0 <= c < |CASES| && CaseDies(recs, CASES[c]);
      var k: nat :| DiesAt(recs, CASES[c], k);
      assert UnknownBefore(recs, CaseQualifier(c), k);
    }
    if c: nat, k: nat :| c < 5 && UnknownBefore(recs, CaseQualifier(c), k) {
      assert DiesAt(recs, CASES[c], k);
      assert CaseDies(recs, CASES[c]);
    }
  }

  ghost predicate KnownQualifier(q: Option<string>) {
    q in {Some("IMM0"), Some("IMM1"), Some("IMMx"), Some("REP"), Some("NOREP")}
  }

  ghost predicate UnknownBefore(recs: seq<Record>, q: string, k: nat) {
    && k < |recs| && !KnownQualifier(recs[k].qualifier)
    && forall j :: 0 <= j < k ==> KnownQualifier(recs[j].qualifier) && recs[j].qualifier != Some(q)
  }

  lemma DiesAtMeans(recs: seq<Record>, c: nat, k: nat)
    requires c < 5
    ensures DiesAt(recs, CASES[c], k) <==> UnknownBefore(recs, CaseQualifier(c), k)
  {
    forall j | 0 <= j < |recs|
      ensures CaseName(recs[j].qualifier).Some? <==> KnownQualifier(recs[j].qualifier)
      ensures CaseName(recs[j].qualifier) == Some(CASES[c]) <==> recs[j].qualifier == Some(CaseQualifier(c))
    {
      CaseNamed(c, recs[j].qualifier);
    }
  }

  ghost predicate CaseDies(recs: seq<Record>, c: string) {
    exists k: nat :: DiesAt(recs, c, k)
  }

  /** A record without a qualifier comes before some case has been found. */
  ghost predicate SomeCaseDies(recs: seq<Record>) {
    exists c :: 0 <= c < |CASES| && CaseDies(recs, CASES[c])
  }

  /** The search for one case: None where make_case_name dies, 0 where no record has the case. */
  method FindCase(recs: seq<Record>, ids: seq<nat>, c: string, ghost simple: seq<SimpleRow>,
                  ghost emitted: seq<Action>) returns (id: Option<nat>)
    requires AllRecover(simple, emitted, recs, ids)
    ensures id.None? <==> CaseDies(recs, c)
    ensures id.Some? ==> CaseRecovers(simple, emitted, recs, c, id.value)
  {
    for k := 0 to |recs|
      invariant Passes(recs, c, k)
    {
      var name := CaseName(recs[k].qualifier);
      if name.None? {
        assert DiesAt(recs, c, k);
        return None;
      }
      if name.value == c {
        assert FoundAt(recs, c, k);
        return Some(ids[k]);
      }
    }
    return Some(0);
  }

  ghost predicate Settled(simple: seq<SimpleRow>, emitted: seq<Action>, recs: seq<Record>, c: string, id: nat) {
    CaseRecovers(simple, emitted, recs, c, id) && !CaseDies(recs, c)
  }

  ghost predicate AllSettled(simple: seq<SimpleRow>, emitted: seq<Action>, recs: seq<Record>, names: seq<string>,
                             ids: seq<nat>)
  {
    |ids| == |names| && forall d :: 0 <= d < |names| ==> Settled(simple, emitted, recs, names[d], ids[d])
  }

  lemma SettledStep(simple: seq<SimpleRow>, emitted: seq<Action>, recs: seq<Record>, names: seq<string>, c: nat,
                    ids: seq<nat>, id: nat)
    requires c < |names| && AllSettled(simple, emitted, recs, names[..c], ids)
    requires Settled(simple, emitted, recs, names[c], id)
    ensures AllSettled(simple, emitted, recs, names[..c + 1], ids + [id])
  {
    assert names[..c + 1] == names[..c] + [names[c]];
  }

  lemma SettledCases(simple: seq<SimpleRow>, emitted: seq<Action>, recs: seq<Record>, ids: seq<nat>)
    requires AllSettled(simple, emitted, recs, CASES, ids)
    ensures CasesRecover(simple, emitted, recs, ids) && !SomeCaseDies(recs)
  {
  }

  /** The loop over the ordered cases. */
  method EmitCases(recs: seq<Record>, ids: seq<nat>, ghost simple: seq<SimpleRow>, ghost emitted: seq<Action>)
    returns (r: Option<seq<nat>>)
    requires AllRecover(simple, emitted, recs, ids)
    ensures r.None? <==> SomeCaseDies(recs)
    ensures r.Some? ==> CasesRecover(simple, emitted, recs, r.value)
  {
    var cases: seq<nat> := [];
    for c := 0 to |CASES|
      invariant |cases| == c && AllSettled(simple, emitted, recs, CASES[..c], cases)
    {
      var id := FindCase(recs, ids, CASES[c], simple, emitted);
      if id.None? {
        return None;
      }
      SettledStep(simple, emitted, recs, CASES, c, cases, id.value);
      cases := cases + [id.value];
    }
    assert CASES[..|CASES|] == CASES;
    SettledCases(simple, emitted, recs, cases);
    return Some(cases);
  }

  ghost predicate RowsInterned(table: map<SimpleRow, nat>, simple: seq<SimpleRow>) {
    forall row :: row in table ==> 1 <= table[row] <= |simple| && simple[table[row] - 1] == row
  }

  ghost predicate AllParsed(s: seq<Action>) {
    forall i :: 0 <= i < |s| ==> Proper(s[i]) || s[i].Nothing?
  }

  lemma IdentifierStep(actions: seq<Action>, i: nat)
    requires i < |actions| && AllProper(actions[..i])
    ensures AllProper(actions[..i + 1]) <==> Proper(actions[i])
    ensures actions[i].Nothing? ==> forall n :: i < n <= |actions| ==> !AllProper(actions[..n])
    ensures Proper(actions[i]) ==>
      Identifier(actions[..i + 1]) ==
        if i == 0 then Text(actions[i]) else Identifier(actions[..i]) + ":" + Text(actions[i])
  {
    assert actions[..i + 1] == actions[..i] + [actions[i]];
    assert actions[..i + 1][..i] == actions[..i];
    forall n | actions[i].Nothing? && i < n <= |actions|
      ensures !AllProper(actions[..n])
    {
      assert actions[..n][i] == actions[i];
    }
  }

  /** identifier: dies on "nothing" among the actions it looks at */
  method Identify(actions: seq<Action>, limit: nat) returns (id: Option<string>)
    requires AllParsed(actions)
    ensures var n := if limit < |actions| then limit + 1 else |actions|;
      && (id.Some? <==> AllProper(actions[..n]))
      && (id.Some? ==> id.value == Identifier(actions[..n]))
  {
    var s := "";
    for i := 0 to |actions|
      invariant i <= limit + 1 && AllProper(actions[..i]) && s == Identifier(actions[..i])
      invariant i <= limit
    {
      IdentifierStep(actions, i);
      if actions[i].Nothing? {
        return None;
      }
      s := if i == 0 then Text(actions[i]) else s + ":" + Text(actions[i]);
      if i >= limit {
        return Some(s);
      }
    }
    assert actions[..|actions|] == actions;
    return Some(s);
  }

  // ----- A whole database -----

  lemma CaseRecoversStays(simple: seq<SimpleRow>, emitted: seq<Action>, simple': seq<SimpleRow>,
                          emitted': seq<Action>, recs: seq<Record>, c: string, id: nat)
    requires CaseRecovers(simple, emitted, recs, c, id) && simple <= simple' && emitted <= emitted'
    ensures CaseRecovers(simple', emitted', recs, c, id)
  {
    if !Passes(recs, c, |recs|) {
      var k: nat :| FoundAt(recs, c, k) && Recovers(simple, emitted, recs[k], id);
      RecoversStays(simple, emitted, simple', emitted', recs[k], id);
    }
  }

  /** Three tables, as they stand at some time. */
  datatype Tables = Tables(complex: seq<ComplexRow>, simple: seq<SimpleRow>, emitted: seq<Action>)
  {
    predicate GrowsTo(later: Tables) {
      complex <= later.complex && simple <= later.simple && emitted <= later.emitted
    }
  }

  /** The id that an instruction keeps leads to its own records. */
  ghost predicate Leads(t: Tables, recs: seq<Record>, r: (nat, bool)) {
    && recs != [] && r.1 == IsComplex(recs)
    && if r.1 then ComplexRecovers(t.complex, t.simple, t.emitted, recs, r.0)
       else Recovers(t.simple, t.emitted, recs[|recs| - 1], r.0)
  }

  /** And it goes on doing so while the tables grow. */
  lemma LeadsStays(t: Tables, later: Tables, recs: seq<Record>, r: (nat, bool))
    requires Leads(t, recs, r) && t.GrowsTo(later)
    ensures Leads(later, recs, r)
  {
    if r.1 {
      var cases := t.complex[r.0 - 1].cases;
      forall c | 0 <= c < |CASES|
        ensures CaseRecovers(later.simple, later.emitted, recs, CASES[c], cases[c])
      {
        CaseRecoversStays(t.simple, t.emitted, later.simple, later.emitted, recs, CASES[c], cases[c]);
      }
    } else {
      RecoversStays(t.simple, t.emitted, later.simple, later.emitted, recs[|recs| - 1], r.0);
    }
  }

  ghost predicate AllLead(t: Tables, infos: seq<seq<Record>>, ids: seq<(nat, bool)>) {
    |ids| == |infos| && forall i :: 0 <= i < |infos| ==> Leads(t, infos[i], ids[i])
  }

  lemma AllLeadGrows(t: Tables, later: Tables, infos: seq<seq<Record>>, ids: seq<(nat, bool)>, n: nat, r: (nat, bool))
    requires n < |infos| && AllLead(t, infos[..n], ids) && t.GrowsTo(later) && Leads(later, infos[n], r)
    ensures AllLead(later, infos[..n + 1], ids + [r])
  {
    forall i | 0 <= i < n + 1
      ensures Leads(later, infos[..n + 1][i], (ids + [r])[i])
    {
      if i < n {
        assert infos[..n][i] == infos[i];
        LeadsStays(t, later, infos[i], ids[i]);
      }
    }
  }

  /** The program dies on an instruction with proper flags. */
  ghost predicate Dies(recs: seq<Record>) {
    recs == [] || (IsComplex(recs) && SomeCaseDies(recs))
  }

  ghost predicate SomeDies(infos: seq<seq<Record>>, n: nat)
    requires n <= |infos|
  {
    exists i :: 0 <= i < n && Dies(infos[i])
  }

  lemma DiesStep(infos: seq<seq<Record>>, n: nat)
    requires n < |infos|
    ensures SomeDies(infos, n + 1) <==> SomeDies(infos, n) || Dies(infos[n])
    ensures SomeDies(infos, n + 1) ==> SomeDies(infos, |infos|)
  {
  }

  ghost predicate ProperRecords(recs: seq<Record>) {
    forall j :: 0 <= j < |recs| ==> AllProper(recs[j].actions)
  }

  ghost predicate ParsedRecords(recs: seq<Record>) {
    forall j :: 0 <= j < |recs| ==> AllParsed(recs[j].actions)
  }

  method EmitNext(tables: FlagTables, recs: seq<Record>) returns (r: Option<(nat, bool)>)
    requires tables.Valid() && ParsedRecords(recs)
    modifies tables
    ensures r.Some? ==> tables.Valid() && Leads(TablesOf(tables), recs, r.value)
    ensures r.Some? ==> old(TablesOf(tables)).GrowsTo(TablesOf(tables))
    ensures ProperRecords(recs) ==> (r.None? <==> Dies(recs))
  {
    r := tables.EmitDataRecord(recs);
  }

  /** The instructions of a database, one after the other: in the final tables every id still leads
      to the records of its own instruction. */
  method EmitAll(tables: FlagTables, infos: seq<seq<Record>>) returns (r: Option<seq<(nat, bool)>>)
    requires tables.Valid()
    requires forall i :: 0 <= i < |infos| ==> ParsedRecords(infos[i])
    modifies tables
    ensures r.Some? ==> tables.Valid() && AllLead(TablesOf(tables), infos, r.value)
    ensures r.Some? ==> old(TablesOf(tables)).GrowsTo(TablesOf(tables))
    ensures (forall i :: 0 <= i < |infos| ==> ProperRecords(infos[i])) ==> (r.None? <==> SomeDies(infos, |infos|))
  {
    ghost var proper := forall i :: 0 <= i < |infos| ==> ProperRecords(infos[i]);
    var ids: seq<(nat, bool)> := [];
    for n := 0 to |infos|
      invariant tables.Valid() && AllLead(TablesOf(tables), infos[..n], ids)
      invariant old(TablesOf(tables)).GrowsTo(TablesOf(tables))
      invariant proper ==> !SomeDies(infos, n)
    {
      ghost var before := TablesOf(tables);
      var id := EmitNext(tables, infos[n]);
      DiesStep(infos, n);
      if id.None? {
        return None;
      }
      AllLeadGrows(before, TablesOf(tables), infos, ids, n, id.value);
      ids := ids + [id.value];
    }
    assert infos[..|infos|] == infos;
    return Some(ids);
  }

  ghost function TablesOf(f: FlagTables): Tables
    reads f
  {
    Tables(f.complex, f.simple, f.flagActions)
  }

  /** The limit of 100 actions is needed: any longer list is confused with another one that differs
      from it after the first 100, when that one was interned first. */
  method LongListsCollide(b: seq<Action>) returns (tables: FlagTables, t: nat)
    requires AllProper(b) && |b| > LIMIT
    ensures fresh(tables) && tables.Valid()
    ensures !Stored(tables.flagActions, t, b) && Stored(tables.flagActions, t, First(b))
  {
    var last := |b| - 1;
    var other := if b[last] == Action("cf", "mod") then Action("cf", "tst") else Action("cf", "mod");
    var a := b[last := other];
    Twins(a, b);
    tables := new FlagTables();
    var r := tables.AssignActionIndex(a);
    assert tables.flagActions == a;
    r := tables.AssignActionIndex(b);
    t := r.value;
  }

  lemma Twins(a: seq<Action>, b: seq<Action>)
    requires AllProper(a) && AllProper(b) && |a| == |b| > LIMIT && a != b && a[..LIMIT] == b[..LIMIT]
    ensures First(a) == First(b) && AllProper(First(b)) && First(b) != []
    ensures forall t :: !Stored(a, t, b)
  {
    FirstIsStored([], b);
    assert a[0..|b|] == a;
  }
}
