/** What a symbol table answers, as values: examples/xed-symbol-table.c over maps. */
module SymbolSpec {
  import opened Wrappers
  import opened AvlSpec

  /** A char* that may be null. */
  type Name = Option<string>

  type Symbols = map<Key, Name>

  /** The global symbols, the local tables made so far, the table of each section that has one, and
      the table made current. */
  datatype State = State(
    globals: Symbols,
    tables: seq<Symbols>,
    sections: map<Key, nat>,
    current: Option<nat>)
  {
    /** Sections do not share a table. */
    ghost predicate Valid() {
      && (forall u :: u in sections ==> sections[u] < |tables|)
      && (forall u, v :: u in sections && v in sections && sections[u] == sections[v] ==> u == v)
      && (current.Some? ==> current.value < |tables|)
    }

    ghost function CurrentSymbols(): Symbols
      requires Valid()
    {
      if current.None? then map[] else tables[current.value]
    }

    /** The symbols of a section, none before it has a table. */
    ghost function Locals(section: Key): Symbols
      requires Valid()
    {
      if section in sections then tables[sections[section]] else map[]
    }
  }

  datatype Op =
    | AddGlobal(addr: Key, name: Name)
    | AddLocal(addr: Key, name: Name, section: Key)
    | MakeLocal(section: Key)
    | SetCurrent(section: Key)

  /** A section gets a new empty table; the current table stays what it is. */
  function Made(s: State, section: Key): State {
    s.(tables := s.tables + [map[]], sections := s.sections[section := |s.tables|])
  }

  ghost function Step(s: State, op: Op): (r: State)
    requires s.Valid()
    ensures r.Valid()
  {
    match op
    case AddGlobal(addr, name) => s.(globals := s.globals[addr := name])
    case AddLocal(addr, name, section) =>
      var made := if section in s.sections then s else Made(s, section);
      var t := made.sections[section];
      var table: Symbols := made.tables[t][addr := name];
      made.(tables := made.tables[t := table])
    case MakeLocal(section) => Made(s, section)
    case SetCurrent(section) => s.(current := Lookup(s.sections, section))
  }

  /** Adding a local symbol changes one entry of its section; no other section sees it, and the
      current symbols change only when the current table is the section's. */
  lemma LocalsStayApart(s: State, op: Op, other: Key)
    requires s.Valid() && op.AddLocal?
    ensures var r := Step(s, op);
      && r.Locals(op.section) == s.Locals(op.section)[op.addr := op.name]
      && (other != op.section ==> r.Locals(other) == s.Locals(other))
      && r.CurrentSymbols() ==
         if op.section in s.sections && s.current == Some(s.sections[op.section])
         then s.CurrentSymbols()[op.addr := op.name] else s.CurrentSymbols()
  {
    var empty: Symbols := map[];
    assert op.section !in s.sections ==> s.Locals(op.section) == empty;
  }

  /** Making the section's empty table first changes nothing in the end. */
  lemma MadeThenAdded(s: State, op: Op)
    requires s.Valid() && op.AddLocal? && op.section !in s.sections
    ensures Step(Step(s, MakeLocal(op.section)), op) == Step(s, op)
  {
  }

  ghost function Run(ops: seq<Op>): (s: State)
    ensures s.Valid()
  {
    if ops == [] then State(map[], [], map[], None) else Step(Run(ops[..|ops| - 1]), ops[|ops| - 1])
  }

  // ----- What a run leaves, in terms of the operations alone -----

  /** Operation i is the last one that writes the address among the globals, and writes this name. */
  ghost predicate GlobalAt(ops: seq<Op>, i: nat, a: Key, name: Name) {
    && i < |ops| && ops[i] == AddGlobal(a, name)
    && forall j :: i < j < |ops| ==> !(ops[j].AddGlobal? && ops[j].addr == a)
  }

  ghost predicate IsGlobal(ops: seq<Op>, a: Key, name: Name) {
    exists i: nat :: GlobalAt(ops, i, a, name)
  }

  /** The globals are the last names written to each address. */
  lemma {:induction false} GlobalsAreWritten(ops: seq<Op>, a: Key, name: Name)
    ensures a in Run(ops).globals && Run(ops).globals[a] == name <==> IsGlobal(ops, a, name)
    decreases |ops|
  {
    if ops != [] {
      var n := |ops| - 1;
      var before := ops[..n];
      GlobalsAreWritten(before, a, name);
      if ops[n].AddGlobal? && ops[n].addr == a {
        assert ops[n].name == name ==> GlobalAt(ops, n, a, name);
      } else {
        GlobalStays(ops, a, name);
      }
    }
  }

  lemma GlobalStays(ops: seq<Op>, a: Key, name: Name)
    requires ops != [] && !(ops[|ops| - 1].AddGlobal? && ops[|ops| - 1].addr == a)
    ensures IsGlobal(ops, a, name) <==> IsGlobal(ops[..|ops| - 1], a, name)
  {
    var before := ops[..|ops| - 1];
    forall i: nat ensures GlobalAt(ops, i, a, name) <==> GlobalAt(before, i, a, name) {
      if GlobalAt(before, i, a, name) {
        assert forall j :: i < j < |before| ==> before[j] == ops[j];
      }
      if GlobalAt(ops, i, a, name) && i < |before| {
        assert before[i] == ops[i];
      }
    }
  }

  /** Operation i is the last one that writes the address in the section, and writes this name; the
      section's table has not been made anew since. */
  ghost predicate LocalAt(ops: seq<Op>, i: nat, section: Key, a: Key, name: Name) {
    && i < |ops| && ops[i] == AddLocal(a, name, section)
    && forall j :: i < j < |ops| ==>
         ops[j] != MakeLocal(section) && !(ops[j].AddLocal? && ops[j].section == section && ops[j].addr == a)
  }

  ghost predicate IsLocal(ops: seq<Op>, section: Key, a: Key, name: Name) {
    exists i: nat :: LocalAt(ops, i, section, a, name)
  }

  /** The symbols of a section are the last names written to it at each address. */
  lemma {:induction false} LocalsAreWritten(ops: seq<Op>, section: Key, a: Key, name: Name)
    ensures var m := Run(ops).Locals(section);
      a in m && m[a] == name <==> IsLocal(ops, section, a, name)
    decreases |ops|
  {
    if ops != [] {
      var n := |ops| - 1;
      LocalsAreWritten(ops[..n], section, a, name);
      LocalsStep(Run(ops[..n]), ops[n], section);
      if ops[n] == MakeLocal(section) {
        assert forall i: nat :: !LocalAt(ops, i, section, a, name);
      } else if ops[n].AddLocal? && ops[n].section == section && ops[n].addr == a {
        assert ops[n].name == name ==> LocalAt(ops, n, section, a, name);
      } else {
        LocalStays(ops, section, a, name);
      }
    }
  }

  lemma LocalsStep(s: State, op: Op, section: Key)
    requires s.Valid()
    ensures op == MakeLocal(section) ==> Step(s, op).Locals(section) == map[]
    ensures op.AddLocal? && op.section == section ==>
      Step(s, op).Locals(section) == s.Locals(section)[op.addr := op.name]
    ensures op != MakeLocal(section) && !(op.AddLocal? && op.section == section) ==>
      Step(s, op).Locals(section) == s.Locals(section)
  {
    if op.AddLocal? {
      LocalsStayApart(s, op, section);
    }
  }

  lemma LocalStays(ops: seq<Op>, section: Key, a: Key, name: Name)
    requires ops != [] && ops[|ops| - 1] != MakeLocal(section)
    requires var op := ops[|ops| - 1]; !(op.AddLocal? && op.section == section && op.addr == a)
    ensures IsLocal(ops, section, a, name) <==> IsLocal(ops[..|ops| - 1], section, a, name)
  {
    var before := ops[..|ops| - 1];
    forall i: nat ensures LocalAt(ops, i, section, a, name) <==> LocalAt(before, i, section, a, name) {
      if LocalAt(before, i, section, a, name) {
        assert forall j :: i < j < |before| ==> before[j] == ops[j];
      }
      if LocalAt(ops, i, section, a, name) && i < |before| {
        assert before[i] == ops[i];
      }
    }
  }

  /** The operation gives the section a table if it has none. */
  ghost predicate GivesTable(op: Op, section: Key) {
    op == MakeLocal(section) || (op.AddLocal? && op.section == section)
  }

  /** The section has been given a table. */
  ghost predicate HasTable(ops: seq<Op>, section: Key) {
    exists i :: 0 <= i < |ops| && GivesTable(ops[i], section)
  }

  lemma {:induction false} TablesAreMade(ops: seq<Op>, section: Key)
    ensures section in Run(ops).sections <==> HasTable(ops, section)
    decreases |ops|
  {
    if ops != [] {
      var n := |ops| - 1;
      TablesAreMade(ops[..n], section);
      HasTableStep(ops, section);
      SectionStep(Run(ops[..n]), ops[n], section);
    }
  }

  lemma HasTableStep(ops: seq<Op>, section: Key)
    requires ops != []
    ensures HasTable(ops, section) <==>
      HasTable(ops[..|ops| - 1], section) || GivesTable(ops[|ops| - 1], section)
  {
    var n := |ops| - 1;
    if GivesTable(ops[n], section) {
      assert HasTable(ops, section);
    }
    if i :| 0 <= i < n && GivesTable(ops[..n][i], section) {
      assert GivesTable(ops[i], section);
    }
    if i :| 0 <= i < n && GivesTable(ops[i], section) {
      assert GivesTable(ops[..n][i], section);
    }
  }

  lemma SectionStep(s: State, op: Op, section: Key)
    requires s.Valid()
    ensures section in Step(s, op).sections <==> section in s.sections || GivesTable(op, section)
  {
  }

  /** Operation i is the last one that sets the current section. */
  ghost predicate SetAt(ops: seq<Op>, i: nat) {
    i < |ops| && ops[i].SetCurrent? && forall j :: i < j < |ops| ==> !ops[j].SetCurrent?
  }

  /** Up to m the section's table has not been made anew since operation i; it is at m, if anywhere. */
  ghost predicate KeptUntil(ops: seq<Op>, i: nat, section: Key, m: nat) {
    && i < m <= |ops| && (m < |ops| ==> ops[m] == MakeLocal(section))
    && forall j :: i < j < m ==> ops[j] != MakeLocal(section)
  }

  /** The current symbols hold the name at the address: the section set last had a table then, and
      the name was the last one written to that table, which later tables of the section are not. */
  ghost predicate CurrentAt(ops: seq<Op>, i: nat, m: nat, a: Key, name: Name) {
    && SetAt(ops, i) && HasTable(ops[..i], ops[i].section)
    && KeptUntil(ops, i, ops[i].section, m) && IsLocal(ops[..m], ops[i].section, a, name)
  }

  ghost predicate IsCurrent(ops: seq<Op>, a: Key, name: Name) {
    exists i: nat, m: nat :: CurrentAt(ops, i, m, a, name)
  }

  /** The current table is the section's. */
  ghost predicate Attached(s: State, section: Key) {
    section in s.sections && s.current == Some(s.sections[section])
  }

  /** The current table is no section's any more. */
  ghost predicate Detached(s: State) {
    s.current.Some? && forall u :: u in s.sections ==> s.current != Some(s.sections[u])
  }

  lemma StepAttached(s: State, op: Op, section: Key)
    requires s.Valid() && !op.SetCurrent? && Attached(s, section)
    ensures op != MakeLocal(section) ==> Attached(Step(s, op), section)
    ensures op == MakeLocal(section) ==>
      Detached(Step(s, op)) && Step(s, op).CurrentSymbols() == s.Locals(section)
  {
  }

  lemma StepDetached(s: State, op: Op)
    requires s.Valid() && !op.SetCurrent? && Detached(s)
    ensures Detached(Step(s, op)) && Step(s, op).CurrentSymbols() == s.CurrentSymbols()
  {
  }

  lemma {:induction false} NoneIsCurrent(ops: seq<Op>, i: nat)
    requires SetAt(ops, i) && !HasTable(ops[..i], ops[i].section)
    ensures Run(ops).current == None
    decreases |ops|
  {
    var n := |ops| - 1;
    if n == i {
      TablesAreMade(ops[..n], ops[i].section);
    } else {
      SetBefore(ops, i);
      NoneIsCurrent(ops[..n], i);
    }
  }

  lemma SetBefore(ops: seq<Op>, i: nat)
    requires SetAt(ops, i) && i < |ops| - 1
    ensures var before := ops[..|ops| - 1];
      SetAt(before, i) && before[i] == ops[i] && before[..i] == ops[..i]
  {
  }

  lemma {:induction false} SectionIsCurrent(ops: seq<Op>, i: nat)
    requires SetAt(ops, i) && HasTable(ops[..i], ops[i].section) && KeptUntil(ops, i, ops[i].section, |ops|)
    ensures Attached(Run(ops), ops[i].section)
    decreases |ops|
  {
    var n := |ops| - 1;
    if n == i {
      TablesAreMade(ops[..n], ops[i].section);
    } else {
      SetBefore(ops, i);
      assert forall j :: i < j < n ==> ops[..n][j] == ops[j];
      SectionIsCurrent(ops[..n], i);
      StepAttached(Run(ops[..n]), ops[n], ops[i].section);
    }
  }

  lemma {:induction false} OldTableIsCurrent(ops: seq<Op>, i: nat, m: nat)
    requires SetAt(ops, i) && HasTable(ops[..i], ops[i].section)
    requires m < |ops| && KeptUntil(ops, i, ops[i].section, m)
    ensures Detached(Run(ops)) && Run(ops).CurrentSymbols() == Run(ops[..m]).Locals(ops[i].section)
    decreases |ops|
  {
    var n := |ops| - 1;
    SetBefore(ops, i);
    assert forall j :: i < j < n ==> ops[..n][j] == ops[j];
    if m == n {
      SectionIsCurrent(ops[..n], i);
      StepAttached(Run(ops[..n]), ops[n], ops[i].section);
    } else {
      OldTableIsCurrent(ops[..n], i, m);
      assert ops[..n][..m] == ops[..m];
      StepDetached(Run(ops[..n]), ops[n]);
    }
  }

  /** The current symbols are those of the section set last, in the table that it had then. */
  lemma CurrentIsSection(ops: seq<Op>, i: nat, m: nat)
    requires SetAt(ops, i) && HasTable(ops[..i], ops[i].section) && KeptUntil(ops, i, ops[i].section, m)
    ensures Run(ops).CurrentSymbols() == Run(ops[..m]).Locals(ops[i].section)
  {
    if m < |ops| {
      OldTableIsCurrent(ops, i, m);
    } else {
      assert ops[..m] == ops;
      SectionIsCurrent(ops, i);
    }
  }

  lemma {:induction false} NeverSet(ops: seq<Op>)
    requires forall j :: 0 <= j < |ops| ==> !ops[j].SetCurrent?
    ensures Run(ops).current == None
    decreases |ops|
  {
    if ops != [] {
      NeverSet(ops[..|ops| - 1]);
    }
  }

  lemma {:induction false} LastSet(ops: seq<Op>) returns (i: nat)
    requires exists j :: 0 <= j < |ops| && ops[j].SetCurrent?
    ensures SetAt(ops, i)
    decreases |ops|
  {
    i := |ops| - 1;
    if !ops[i].SetCurrent? {
      var n := i;
      i := LastSet(ops[..n]);
      assert forall j :: i < j < n ==> ops[j] == ops[..n][j];
    }
  }

  lemma KeptTo(ops: seq<Op>, i: nat, section: Key) returns (m: nat)
    requires i < |ops|
    ensures KeptUntil(ops, i, section, m)
  {
    m := i + 1;
    while m < |ops| && ops[m] != MakeLocal(section)
      invariant i < m <= |ops| && forall j :: i < j < m ==> ops[j] != MakeLocal(section)
    {
      m := m + 1;
    }
  }

  /** The current symbols in terms of the operations alone. */
  lemma CurrentIsWritten(ops: seq<Op>, a: Key, name: Name)
    ensures var c := Run(ops).CurrentSymbols();
      a in c && c[a] == name <==> IsCurrent(ops, a, name)
  {
    if exists j :: 0 <= j < |ops| && ops[j].SetCurrent? {
      var i := LastSet(ops);
      var m := KeptTo(ops, i, ops[i].section);
      CurrentIsOne(ops, i, m, a, name);
      forall k: nat, l: nat ensures CurrentAt(ops, k, l, a, name) ==> k == i && l == m {
      }
    } else {
      NeverSet(ops);
    }
  }

  lemma CurrentIsOne(ops: seq<Op>, i: nat, m: nat, a: Key, name: Name)
    requires SetAt(ops, i) && KeptUntil(ops, i, ops[i].section, m)
    ensures var c := Run(ops).CurrentSymbols();
      a in c && c[a] == name <==> CurrentAt(ops, i, m, a, name)
  {
    if HasTable(ops[..i], ops[i].section) {
      CurrentIsSection(ops, i, m);
      LocalsAreWritten(ops[..m], ops[i].section, a, name);
    } else {
      NoneIsCurrent(ops, i);
    }
  }

  // ----- The greatest entry at or below an address -----

  lemma {:induction false} GreatestBelow<V>(m: map<Key, V>, keys: set<Key>, a: Key) returns (e: Option<Entry<V>>)
    requires keys <= m.Keys
    ensures e.None? ==> forall k :: k in keys ==> a < k
    ensures e.Some? ==> e.value.key in keys && e.value.key <= a && m[e.value.key] == e.value.data
    ensures e.Some? ==> forall k :: k in keys && k <= a ==> k <= e.value.key
    decreases keys
  {
    if keys == {} {
      e := None;
    } else {
      var k :| k in keys;
      e := GreatestBelow(m, keys - {k}, a);
      assert forall j :: j in keys ==> j == k || j in keys - {k};
      if k <= a && (e.None? || e.value.key < k) {
        e := Some(Entry(k, m[k]));
      }
    }
  }

  lemma FloorExists<V>(m: map<Key, V>, a: Key)
    ensures exists e :: IsFloor(m, a, e)
  {
    var e := GreatestBelow(m, m.Keys, a);
    assert IsFloor(m, a, e);
  }

  ghost function Floor<V>(m: map<Key, V>, a: Key): (e: Option<Entry<V>>)
    ensures IsFloor(m, a, e)
  {
    FloorExists(m, a);
    var e :| IsFloor(m, a, e); e
  }

  lemma FloorIs<V>(m: map<Key, V>, a: Key, e: Option<Entry<V>>)
    requires IsFloor(m, a, e)
    ensures e == Floor(m, a)
  {
    FloorIsUnique(m, a, e, Floor(m, a));
  }

  /** find_symbol_address: a null name counts as nothing found. */
  ghost function Nearest(m: Symbols, a: Key): Option<Entry<string>> {
    var e := Floor(m, a);
    if e.Some? && e.value.data.Some? then Some(Entry(e.value.key, e.value.data.value)) else None
  }

  /** avl_find on a table: a null name looks like a missing one. */
  function NameAt(m: Symbols, a: Key): Name {
    if a in m then m[a] else None
  }

  /** get_symbol */
  ghost function GetSymbol(s: State, a: Key): Name
    requires s.Valid()
  {
    if NameAt(s.globals, a).Some? then NameAt(s.globals, a) else NameAt(s.CurrentSymbols(), a)
  }

  /** find_symbol_address_global */
  ghost function FindSymbol(s: State, a: Key): Option<Entry<string>>
    requires s.Valid()
  {
    if Nearest(s.globals, a).Some? then Nearest(s.globals, a) else Nearest(s.CurrentSymbols(), a)
  }

  /** The callback: the address found first is looked up a second time for its name. */
  ghost function Answer(s: State, a: Key): Option<Entry<string>>
    requires s.Valid()
  {
    var f := FindSymbol(s, a);
    if f.None? then None
    else
      var name := GetSymbol(s, f.value.key);
      if name.None? then None else Some(Entry(f.value.key, name.value))
  }

  /** A global with a null name is the nearest one, and the section's nearest symbol shares its
      address with another global of a different name. */
  ghost predicate NullNameMisleads(s: State, a: Key)
    requires s.Valid()
  {
    var g, l := Floor(s.globals, a), Nearest(s.CurrentSymbols(), a);
    && g.Some? && g.value.data.None?
    && l.Some? && NameAt(s.globals, l.value.key).Some?
    && NameAt(s.globals, l.value.key).value != l.value.data
  }

  /** The second look-up finds the symbol of the first one except in exactly that case. */
  lemma AnswerIsSymbolFound(s: State, a: Key)
    requires s.Valid()
    ensures Answer(s, a) == FindSymbol(s, a) <==> !NullNameMisleads(s, a)
  {
  }

  /** The nearest symbol at or below an address, named or not: a global one if there is any,
      otherwise one of the current section. */
  ghost function NearestSymbol(s: State, a: Key): Option<Entry<Name>>
    requires s.Valid()
  {
    if Floor(s.globals, a).Some? then Floor(s.globals, a) else Floor(s.CurrentSymbols(), a)
  }

  /** The callback reports the nearest symbol under its own name, or nothing when there is none. */
  ghost predicate ReportsNearest(s: State, a: Key)
    requires s.Valid()
  {
    match NearestSymbol(s, a)
    case None => Answer(s, a).None?
    case Some(e) => e.data.Some? && Answer(s, a) == Some(Entry(e.key, e.data.value))
  }

  /** It does so exactly when the nearest symbol, if there is one, has a name. */
  lemma NearestIsReportedIfNamed(s: State, a: Key)
    requires s.Valid()
    ensures ReportsNearest(s, a) <==> (NearestSymbol(s, a).Some? ==> NearestSymbol(s, a).value.data.Some?)
  {
  }

  /** What it answers otherwise: nothing, or, when the nameless symbol is a global one, the nearest
      named symbol of the current section, under the name of a global symbol at the same address if
      there is one. */
  lemma NamelessNearest(s: State, a: Key)
    requires s.Valid() && NearestSymbol(s, a).Some? && NearestSymbol(s, a).value.data.None?
    ensures var l := Nearest(s.CurrentSymbols(), a);
      Answer(s, a) ==
        if Floor(s.globals, a).None? || l.None? then None
        else
          var g := NameAt(s.globals, l.value.key);
          Some(Entry(l.value.key, if g.Some? then g.value else l.value.data))
  {
  }

  ghost predicate Named(m: Symbols) {
    forall k :: k in m ==> m[k].Some?
  }

  predicate NamesGiven(ops: seq<Op>) {
    forall op :: op in ops && (op.AddGlobal? || op.AddLocal?) ==> op.name.Some?
  }

  /** All names are there. */
  ghost predicate AllNamed(s: State) {
    Named(s.globals) && forall t :: 0 <= t < |s.tables| ==> Named(s.tables[t])
  }

  lemma LocalStaysNamed(s: State, addr: Key, name: string, section: Key)
    requires s.Valid() && AllNamed(s) && section in s.sections
    ensures AllNamed(Step(s, AddLocal(addr, Some(name), section)))
  {
    assert Named(s.tables[s.sections[section]]);
  }

  lemma StepStaysNamed(s: State, op: Op)
    requires s.Valid() && AllNamed(s) && (op.AddGlobal? || op.AddLocal? ==> op.name.Some?)
    ensures AllNamed(Step(s, op))
  {
    match op
    case AddLocal(addr, name, section) =>
      if section !in s.sections {
        MadeThenAdded(s, op);
        LocalStaysNamed(Made(s, section), addr, name.value, section);
      } else {
        LocalStaysNamed(s, addr, name.value, section);
      }
    case _ =>
  }

  lemma {:induction false} RunsStayNamed(ops: seq<Op>)
    requires NamesGiven(ops)
    ensures AllNamed(Run(ops))
    decreases |ops|
  {
    if ops != [] {
      RunsStayNamed(ops[..|ops| - 1]);
      assert ops[|ops| - 1] in ops;
      StepStaysNamed(Run(ops[..|ops| - 1]), ops[|ops| - 1]);
    }
  }

  lemma NamedIsNamed(s: State, a: Key)
    requires s.Valid() && AllNamed(s)
    ensures NearestSymbol(s, a).Some? ==> NearestSymbol(s, a).value.data.Some?
  {
    assert Named(s.CurrentSymbols());
  }

  /** The answer in terms of the operations alone: the nearest global that they left at or below the
      address, otherwise the nearest symbol that they left in the current table, otherwise nothing. */
  ghost predicate Reported(ops: seq<Op>, a: Key, answer: Option<Entry<string>>) {
    match answer
    case None => forall k: Key, n :: k <= a ==> !IsGlobal(ops, k, n) && !IsCurrent(ops, k, n)
    case Some(e) =>
      && e.key <= a
      && if exists k: Key, n :: k <= a && IsGlobal(ops, k, n)
         then IsGlobal(ops, e.key, Some(e.data)) && forall k: Key, n :: e.key < k <= a ==> !IsGlobal(ops, k, n)
         else IsCurrent(ops, e.key, Some(e.data)) && forall k: Key, n :: e.key < k <= a ==> !IsCurrent(ops, k, n)
  }

  /** After any run of insertions with names: the nearest global symbol at or below the address
      if there is one, otherwise the nearest one of the current section, under its own name. */
  lemma NearestSymbolIsReported(ops: seq<Op>, a: Key)
    requires NamesGiven(ops)
    ensures ReportsNearest(Run(ops), a) && Reported(ops, a, Answer(Run(ops), a))
  {
    RunsStayNamed(ops);
    NamedIsNamed(Run(ops), a);
    NearestIsReportedIfNamed(Run(ops), a);
    NearestIsWritten(ops, a);
  }

  lemma NearestIsWritten(ops: seq<Op>, a: Key)
    requires ReportsNearest(Run(ops), a)
    ensures Reported(ops, a, Answer(Run(ops), a))
  {
    var s := Run(ops);
    forall k: Key, n: Name
      ensures IsGlobal(ops, k, n) <==> k in s.globals && s.globals[k] == n
      ensures IsCurrent(ops, k, n) <==> k in s.CurrentSymbols() && s.CurrentSymbols()[k] == n
    {
      GlobalsAreWritten(ops, k, n);
      CurrentIsWritten(ops, k, n);
    }
    if Floor(s.globals, a).Some? {
      var e := Floor(s.globals, a).value;
      assert e.key <= a && IsGlobal(ops, e.key, e.data);
    }
  }

  /** Without names the promise fails: globals 1 "a" and 3 null, local 1 "b", queried at 3. */
  lemma NullNameExample()
    ensures var s := State(map[1 := Some("a"), 3 := None], [map[1 := Some("b")]], map[0 := 0], Some(0));
      && s.Valid() && !ReportsNearest(s, 3)
      && FindSymbol(s, 3) == Some(Entry(1, "b")) && Answer(s, 3) == Some(Entry(1, "a"))
  {
    var s := State(map[1 := Some("a"), 3 := None], [map[1 := Some("b")]], map[0 := 0], Some(0));
    FloorIs(s.globals, 3, Some(Entry(3, None)));
    FloorIs(s.CurrentSymbols(), 3, Some(Entry(1, Some("b"))));
  }
}

/** The tables of examples/xed-symbol-table.c.  A local table that was allocated is an index into
    the tables made so far, so that the section tree and curtab may refer to the same table. */
module SymbolTable {
  import opened Wrappers
  import opened AvlSpec
  import opened SymbolSpec

  type Table = Tree<Name>

  /** avl_insert */
  function AvlInsert<V>(t: Tree<V>, key: Key, data: V): Tree<V>
    requires Balanced(t)
  {
    Insert(t, key, data)
  }

  /** avl_find */
  function AvlFind<V>(t: Tree<V>, key: Key): (r: Option<V>)
    requires Ordered(t)
    ensures r == Lookup(Contents(t), key)
  {
    if t.Leaf? then None
    else
      FindIsLookup(t, key);
      Find(t, key)
  }

  /** avl_find_lower_bound */
  function AvlFindLowerBound<V>(t: Tree<V>, key: Key): (r: Option<Entry<V>>)
    requires Ordered(t)
    ensures r == Floor(Contents(t), key)
  {
    if t.Leaf? then
      FloorIs(Contents(t), key, None);
      None
    else
      LowerBoundIsFloor(t, key);
      FloorIs(Contents(t), key, LowerBound(t, key, None));
      LowerBound(t, key, None)
  }

  ghost function Viewed(tables: seq<Table>): (symbols: seq<Symbols>)
    ensures |symbols| == |tables| && forall t :: 0 <= t < |tables| ==> symbols[t] == Contents(tables[t])
  {
    seq(|tables|, t requires 0 <= t < |tables| => Contents(tables[t]))
  }

  class SymbolTable {
    var gtab: Table
    var avlLmap: Tree<nat>
    var tables: seq<Table>
    var curtab: Option<nat>
    ghost var history: seq<Op>

    /** The tables hold what the operations so far have left. */
    ghost predicate Valid()
      reads this
    {
      Sound() && View() == Run(history)
    }

    ghost predicate Sound()
      reads this
    {
      && AvlSpec.Valid(gtab) && AvlSpec.Valid(avlLmap)
      && (forall i :: 0 <= i < |tables| ==> AvlSpec.Valid(tables[i]))
      && View().Valid()
    }

    ghost function View(): State
      reads this
    {
      State(Contents(gtab), Viewed(tables), Contents(avlLmap), curtab)
    }

    /** xed_symbol_table_init */
    constructor ()
      ensures Valid() && history == []
    {
      gtab, avlLmap, tables, curtab, history := Leaf, Leaf, [], None, [];
    }

    /** xst_get_local_map */
    function GetLocalMap(section: Key): (t: Option<nat>)
      requires Sound()
      reads this
      ensures t == Lookup(View().sections, section)
    {
      AvlFind(avlLmap, section)
    }

    /** xst_make_local_map: malloc, xed_local_symbol_table_init and avl_insert. A section that has a
        table already loses it, except that it stays current if it was. */
    method MakeLocalMap(section: Key) returns (t: nat)
      requires Valid()
      modifies this`avlLmap, this`tables, this`history
      ensures Valid() && history == old(history) + [MakeLocal(section)]
      ensures var was := old(View());
        View() == was.(tables := was.tables + [map[]], sections := was.sections[section := |was.tables|])
      ensures GetLocalMap(section) == Some(t)
    {
      t := NewTable(section);
      Record(MakeLocal(section));
    }

    /** The section's table as malloc and xed_local_symbol_table_init leave it. */
    method NewTable(section: Key) returns (t: nat)
      requires Sound()
      modifies this`avlLmap, this`tables
      ensures Sound() && View() == Step(old(View()), MakeLocal(section))
      ensures GetLocalMap(section) == Some(t)
    {
      t := |tables|;
      assert Viewed(tables + [Leaf]) == Viewed(tables) + [map[]];
      tables := tables + [Leaf];
      InsertUpdatesMap(avlLmap, section, t);
      avlLmap := AvlInsert(avlLmap, section, t);
    }

    /** The operation that has just been done. */
    ghost method Record(op: Op)
      requires Sound() && View() == Step(Run(history), op)
      modifies this`history
      ensures Valid() && history == old(history) + [op]
    {
      assert (history + [op])[..|history|] == history;
      history := history + [op];
    }

    /** xst_set_current_table */
    method SetCurrentTable(section: Key)
      requires Valid()
      modifies this`curtab, this`history
      ensures Valid() && history == old(history) + [SetCurrent(section)]
      ensures var was := old(View());
        View() == was.(current := if section in was.sections then Some(was.sections[section]) else None)
    {
      curtab := GetLocalMap(section);
      Record(SetCurrent(section));
    }

    /** xst_add_global_symbol */
    method AddGlobalSymbol(addr: Key, name: Name)
      requires Valid()
      modifies this`gtab, this`history
      ensures Valid() && history == old(history) + [AddGlobal(addr, name)]
      ensures var was := old(View()); View() == was.(globals := was.globals[addr := name])
    {
      InsertUpdatesMap(gtab, addr, name);
      gtab := AvlInsert(gtab, addr, name);
      Record(AddGlobal(addr, name));
    }

    /** xst_add_local_symbol: the section's table is made on first use. */
    method AddLocalSymbol(addr: Key, name: Name, section: Key)
      requires Valid()
      modifies this`avlLmap, this`tables, this`history
      ensures Valid() && history == old(history) + [AddLocal(addr, name, section)]
      ensures View() == Step(old(View()), AddLocal(addr, name, section))
    {
      var found := GetLocalMap(section);
      if found.None? {
        MadeThenAdded(View(), AddLocal(addr, name, section));
        var t := NewTable(section);
        PutInto(t, addr, name, section);
      } else {
        PutInto(found.value, addr, name, section);
      }
      Record(AddLocal(addr, name, section));
    }

    /** avl_insert on the section's table */
    method PutInto(t: nat, addr: Key, name: Name, ghost section: Key)
      requires Sound() && GetLocalMap(section) == Some(t)
      modifies this`tables
      ensures Sound() && View() == Step(old(View()), AddLocal(addr, name, section))
    {
      InsertUpdatesMap(tables[t], addr, name);
      var r := AvlInsert(tables[t], addr, name);
      assert Viewed(tables[t := r]) == Viewed(tables)[t := Contents(r)];
      tables := tables[t := r];
    }

    /** find_symbol_address */
    function FindSymbolAddress(t: Table, tgt: Key): (r: Option<Key>)
      requires Ordered(t)
      ensures r == var e := Nearest(Contents(t), tgt); if e.Some? then Some(e.value.key) else None
    {
      var sym := AvlFindLowerBound(t, tgt);
      if sym.Some? && sym.value.data.Some? then Some(sym.value.key) else None
    }

    /** find_symbol_address_global */
    function FindSymbolAddressGlobal(tgt: Key): (r: Option<Key>)
      requires Valid()
      reads this
      ensures r == var e := FindSymbol(View(), tgt); if e.Some? then Some(e.value.key) else None
    {
      var r := FindSymbolAddress(gtab, tgt);
      if r.None? && curtab.Some? then FindSymbolAddress(tables[curtab.value], tgt) else r
    }

    /** get_symbol */
    function GetSymbolName(a: Key): (r: Name)
      requires Valid()
      reads this
      ensures r == GetSymbol(View(), a)
    {
      var name := AvlFind(gtab, a);
      if name.Some? && name.value.Some? then name.value
      else if curtab.None? then None
      else
        var local := AvlFind(tables[curtab.value], a);
        if local.Some? then local.value else None
    }

    /** The reported symbol, its name cut to the buffer, and the offset of the address. */
    ghost predicate Shows(address: Key, bufferLength: nat, r: Option<(string, Key)>, e: Option<Entry<string>>)
      requires 0 < bufferLength
    {
      && (r.Some? <==> e.Some?)
      && (r.Some? ==>
            && r.value.1 == address - e.value.key
            && r.value.0 <= e.value.data && |r.value.0| < bufferLength
            && (r.value.0 == e.value.data || |r.value.0| == bufferLength - 1))
    }

    /** xed_disassembly_callback_function: the reported name, cut to the buffer, and the offset. */
    function DisassemblyCallback(address: Key, bufferLength: nat): (r: Option<(string, Key)>)
      requires Valid() && 0 < bufferLength
      reads this
      ensures var e := Answer(View(), address);
              && (r.Some? <==> e.Some?)
              && (r.Some? ==> r.value.1 == address - e.value.key)
              && (r.Some? && |e.value.data| < bufferLength ==> r.value.0 == e.value.data)
              && (r.Some? && |e.value.data| >= bufferLength ==> r.value.0 == e.value.data[..bufferLength - 1])
      ensures NamesGiven(history) ==>
        exists e :: Reported(history, address, e) && Shows(address, bufferLength, r, e)
    {
      assert NamesGiven(history) ==> Reported(history, address, Answer(View(), address)) by {
        if NamesGiven(history) {
          NearestSymbolIsReported(history, address);
        }
      }
      var found := FindSymbolAddressGlobal(address);
      if found.None? then None
      else
        var symbol := GetSymbolName(found.value);
        if symbol.None? then None
        else
          var name := symbol.value;
          Some((if |name| < bufferLength then name else name[..bufferLength - 1], address - found.value))
    }
  }
}
