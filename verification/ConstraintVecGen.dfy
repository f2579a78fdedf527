/** The generator of pysrc/constraint_vec_gen.py: it fills its three dictionaries step by step. */
module ConstraintVecGen {
  import opened ConstraintSpec

  /** How a step ends: normally, through genutil.die, or on a missing dictionary key. */
  datatype Outcome = Done | Died | KeyError

  // ----- Sorting names -----

  predicate Before(a: string, b: string) {
    if a == [] || b == [] then b != [] && a == []
    else a[0] < b[0] || (a[0] == b[0] && Before(a[1..], b[1..]))
  }

  /** Names are in the order of their first difference; a name comes before its extensions. */
  lemma {:induction false} BeforeIsLexicographic(a: string, b: string)
    ensures Before(a, b) <==>
      exists i :: 0 <= i <= |a| && i < |b| && a[..i] == b[..i] && (i == |a| || a[i] < b[i])
  {
    if a == [] && b != [] {
      assert a[..0] == b[..0];
    } else if a != [] && b != [] {
      assert a[..0] == b[..0];
      BeforeIsLexicographic(a[1..], b[1..]);
      if i :| 0 <= i <= |a| && i < |b| && a[..i] == b[..i] && (i == |a| || a[i] < b[i]) {
        DifferLater(a, b, i);
      }
      if i :| 0 <= i < |a| && i < |b| - 1 && a[1..][..i] == b[1..][..i] && (i == |a| - 1 || a[1..][i] < b[1..][i]) {
        SameLater(a, b, i);
      }
    }
  }

  lemma DifferLater(a: string, b: string, i: nat)
    requires a != [] && b != [] && i <= |a| && i < |b| && a[..i] == b[..i] && (i == |a| || a[i] < b[i])
    ensures i == 0 ==> a[0] < b[0]
    ensures i > 0 ==> a[0] == b[0] && a[1..][..i - 1] == b[1..][..i - 1] && (i == |a| || a[1..][i - 1] < b[1..][i - 1])
  {
    if i > 0 {
      assert a[0] == a[..i][0] == b[..i][0] == b[0];
      assert a[1..][..i - 1] == a[..i][1..] && b[1..][..i - 1] == b[..i][1..];
    }
  }

  lemma SameLater(a: string, b: string, i: nat)
    requires a != [] && b != [] && i < |a| && i < |b| - 1 && a[1..][..i] == b[1..][..i]
    ensures a[0] == b[0] ==> a[..i + 1] == b[..i + 1]
  {
    assert a[..i + 1] == [a[0]] + a[1..][..i] && b[..i + 1] == [b[0]] + b[1..][..i];
  }

  lemma {:induction false} BeforeIsTotal(a: string, b: string)
    ensures a == b || Before(a, b) || Before(b, a)
  {
    if a != [] && b != [] && a[0] == b[0] {
      BeforeIsTotal(a[1..], b[1..]);
      assert a == [a[0]] + a[1..] && b == [b[0]] + b[1..];
    }
  }

  lemma {:induction false} BeforeIsTransitive(a: string, b: string, c: string)
    requires Before(a, b) && Before(b, c)
    ensures Before(a, c)
  {
    if a != [] && b != [] && c != [] && a[0] == b[0] == c[0] {
      BeforeIsTransitive(a[1..], b[1..], c[1..]);
    }
  }

  lemma {:induction false} FirstExists(s: set<string>) returns (m: string)
    requires s != {}
    ensures m in s && forall n :: n in s && n != m ==> Before(m, n)
    decreases s
  {
    var a :| a in s;
    var rest := s - {a};
    assert forall n :: n in s ==> n == a || n in rest;
    m := a;
    if rest != {} {
      var f := FirstExists(rest);
      BeforeIsTotal(a, f);
      m := if Before(a, f) then a else f;
      forall n | n in s && n != m
        ensures Before(m, n)
      {
        if n != a && n != f {
          assert n in rest;
          if Before(a, f) {
            BeforeIsTransitive(a, f, n);
          }
        }
      }
    }
  }

  ghost predicate SortedNames(names: seq<string>) {
    forall i, j :: 0 <= i < j < |names| ==> Before(names[i], names[j])
  }

  method Sort(s: set<string>) returns (names: seq<string>)
    ensures SortedNames(names) && forall n :: n in names <==> n in s
  {
    names := [];
    var rest := s;
    while rest != {}
      invariant rest <= s && forall n :: n in names <==> n in s && n !in rest
      invariant SortedNames(names) && forall m, n :: m in names && n in rest ==> Before(m, n)
      decreases rest
    {
      ghost var first := FirstExists(rest);
      var m :| m in rest && forall n :: n in rest && n != m ==> Before(m, n);
      names, rest := names + [m], rest - {m};
    }
  }

  ghost function AllNames(rules: seq<Rule>): set<string> {
    set i, n | 0 <= i < |rules| && n in rules[i].cdict :: n
  }

  class Generator {
    const stateSpace: StateSpace
    const opWidths: map<string, nat>
    const rules: seq<Rule>
    var cnames: seq<string>
    var tuple2rule: map<Tuple, nat>
    var tuple2conditions: map<Tuple, string>
    var tuple2int: map<Tuple, int>
    var int2tuple: map<int, Tuple>

    constructor (stateSpace: StateSpace, opWidths: map<string, nat>, rules: seq<Rule>)
      ensures this.stateSpace == stateSpace && this.opWidths == opWidths && this.rules == rules
      ensures cnames == [] && tuple2rule == map[] && tuple2conditions == map[]
      ensures tuple2int == map[] && int2tuple == map[]
    {
      this.stateSpace, this.opWidths, this.rules := stateSpace, opWidths, rules;
      cnames, tuple2rule, tuple2conditions, tuple2int, int2tuple := [], map[], map[], map[], map[];
    }

    /** copy.copy with other dictionaries */
    constructor Copy(g: Generator, t2r: map<Tuple, nat>, t2i: map<Tuple, int>, t2c: map<Tuple, string>,
                     i2t: map<int, Tuple>)
      ensures stateSpace == g.stateSpace && opWidths == g.opWidths && rules == g.rules && cnames == g.cnames
      ensures tuple2rule == t2r && tuple2int == t2i && tuple2conditions == t2c && int2tuple == i2t
    {
      stateSpace, opWidths, rules, cnames := g.stateSpace, g.opWidths, g.rules, g.cnames;
      tuple2rule, tuple2int, tuple2conditions, int2tuple := t2r, t2i, t2c, i2t;
    }

    /** _capture_cnames */
    method CaptureCnames() returns (r: Outcome)
      modifies this`cnames
      ensures r == if rules != [] && AllNames(rules) == {} then Died else Done
      ensures r.Done? ==> SortedNames(cnames) && forall n :: n in cnames <==> n in AllNames(rules)
      ensures r.Done? ==> forall n :: n in cnames <==> exists i :: 0 <= i < |rules| && n in rules[i].cdict
    {
      if rules == [] {
        cnames := [];
        return Done;
      }
      var names := {};
      for i := 0 to |rules|
        invariant names == AllNames(rules[..i])
      {
        names := names + rules[i].cdict.Keys;
      }
      assert rules[..|rules|] == rules;
      if names == {} {
        return Died;
      }
      cnames := Sort(names);
      return Done;
    }

    /** The inner loops: every tuple with every value. */
    method ExtendTuples(ctup: seq<Tuple>, vals: seq<int>) returns (newCtup: seq<Tuple>)
      ensures newCtup == ExtendAll(ctup, vals)
    {
      newCtup := [];
      for v := 0 to |vals|
        invariant newCtup == ExtendAll(ctup, vals[..v])
      {
        assert vals[..v + 1][..v] == vals[..v];
        newCtup := newCtup + Extend(ctup, vals[v]);
      }
      assert vals[..|vals|] == vals;
    }

    /** The loop over the names that builds one rule's tuples. */
    method BuildTuples(rule: Rule) returns (r: Outcome, ctup: seq<Tuple>)
      requires cnames != []
      ensures r == if Defined(stateSpace, rule, cnames) then Done else KeyError
      ensures r.Done? ==> ctup == Cross(stateSpace, rule, cnames)
    {
      ctup := [];
      var first := true;
      for i := 0 to |cnames|
        invariant first <==> i == 0
        invariant Defined(stateSpace, rule, cnames[..i])
        invariant i > 0 ==> ctup == Cross(stateSpace, rule, cnames[..i])
      {
        var cname := cnames[i];
        var vals;
        if cname in rule.cdict {
          vals := rule.cdict[cname];
        } else if cname in stateSpace {
          vals := stateSpace[cname];
        } else {
          return KeyError, ctup;
        }
        CrossStep(stateSpace, rule, cnames, i);
        ctup := ExtendTuples(if first then [[]] else ctup, vals);
        first := false;
      }
      assert cnames[..|cnames|] == cnames;
      return Done, ctup;
    }

    /** Every bound tuple carries its rule's conditions. */
    ghost predicate ConditionsMatch()
      reads this
    {
      && tuple2conditions.Keys == tuple2rule.Keys
      && forall t :: t in tuple2rule ==>
           tuple2rule[t] < |rules| && tuple2conditions[t] == rules[tuple2rule[t]].conditions
    }

    method BindTuple(tupl: Tuple, i: nat)
      requires i < |rules| && ConditionsMatch()
      modifies this`tuple2rule, this`tuple2conditions
      ensures tuple2rule == old(tuple2rule)[tupl := i] && ConditionsMatch()
    {
      tuple2rule := tuple2rule[tupl := i];
      tuple2conditions := tuple2conditions[tupl := rules[i].conditions];
    }

    /** One rule's tuples enter the dictionaries, up to the first one that is there already. */
    method BindTuples(i: nat, ctup: seq<Tuple>) returns (r: Outcome)
      requires i < |rules| && ConditionsMatch()
      modifies this`tuple2rule, this`tuple2conditions
      ensures r == if AllNew(old(tuple2rule), ctup) then Done else Died
      ensures r.Done? ==> tuple2rule == Bound(old(tuple2rule), ctup, i) && ConditionsMatch()
    {
      ghost var before := tuple2rule;
      for j := 0 to |ctup|
        invariant AllNew(before, ctup[..j])
        invariant tuple2rule == Bound(before, ctup[..j], i) && ConditionsMatch()
      {
        NewStep(before, ctup, j);
        BoundStep(before, ctup, i, j);
        if ctup[j] !in tuple2rule {
          BindTuple(ctup[j], i);
        } else {
          return Died;
        }
      }
      assert ctup[..|ctup|] == ctup;
      return Done;
    }

    ghost predicate ProductsOf(products: seq<seq<Tuple>>)
      reads this
    {
      && |products| <= |rules|
      && forall k :: 0 <= k < |products| ==>
        Defined(stateSpace, rules[k], cnames) && products[k] == Cross(stateSpace, rules[k], cnames)
    }

    /** The dictionaries hold the products of the first rules. */
    ghost predicate BoundSoFar(products: seq<seq<Tuple>>)
      reads this
    {
      ProductsOf(products) && NoRepeat(products) && BindsListed(products, tuple2rule) && ConditionsMatch()
    }

    /** One round of the loop over the rules. */
    method BindRule(i: nat, ghost products: seq<seq<Tuple>>) returns (r: Outcome, ghost more: seq<seq<Tuple>>)
      requires cnames != [] && i == |products| < |rules| && BoundSoFar(products)
      modifies this`tuple2rule, this`tuple2conditions
      ensures r.Done? ==> |more| == i + 1 && BoundSoFar(more)
      ensures r.KeyError? <==> !Defined(stateSpace, rules[i], cnames)
      ensures r.Died? ==> !Bindable(stateSpace, rules[..i + 1], cnames)
    {
      var ctup;
      more := products;
      r, ctup := BuildTuples(rules[i]);
      if r.Done? {
        more := products + [ctup];
        ProductStep(products, ctup);
        r := BindTuples(i, ctup);
      }
    }

    /** A further rule's product can be bound exactly when the rules so far can. */
    lemma ProductStep(products: seq<seq<Tuple>>, ctup: seq<Tuple>)
      requires BoundSoFar(products) && |products| < |rules|
      requires var rule := rules[|products|];
        Defined(stateSpace, rule, cnames) && ctup == Cross(stateSpace, rule, cnames)
      ensures ProductsOf(products + [ctup])
      ensures AllNew(tuple2rule, ctup) <==> Bindable(stateSpace, rules[..|products| + 1], cnames)
      ensures AllNew(tuple2rule, ctup) ==>
        NoRepeat(products + [ctup]) && BindsListed(products + [ctup], Bound(tuple2rule, ctup, |products|))
    {
      RepeatStep(products, tuple2rule, ctup);
      RepeatIsClash(products + [ctup]);
    }

    /** _make_tuple2rule */
    method MakeTuple2Rule() returns (r: Outcome)
      requires cnames != [] || rules == []
      requires tuple2rule == map[] && tuple2conditions == map[]
      modifies this`tuple2rule, this`tuple2conditions
      ensures r.Done? <==> Bindable(stateSpace, rules, cnames)
      ensures r.KeyError? <==> MissesName(stateSpace, rules, cnames)
      ensures r.Done? ==> BindsAdmitted(stateSpace, rules, cnames, tuple2rule) && ConditionsMatch()
      ensures r.Done? ==> forall t :: t in tuple2rule ==>
        && tuple2rule[t] < |rules|
        && t in tuple2conditions && tuple2conditions[t] == rules[tuple2rule[t]].conditions
      ensures r.Done? ==> BindsLists(stateSpace, rules, cnames, tuple2rule)
    {
      r := BindRules();
      if r.Done? {
        BindsAdmittedIsLists(stateSpace, rules, cnames, tuple2rule);
      }
    }

    /** The loop of _make_tuple2rule over the rules. */
    method BindRules() returns (r: Outcome)
      requires cnames != [] || rules == []
      requires tuple2rule == map[] && tuple2conditions == map[]
      modifies this`tuple2rule, this`tuple2conditions
      ensures r.Done? <==> Bindable(stateSpace, rules, cnames)
      ensures r.KeyError? <==> MissesName(stateSpace, rules, cnames)
      ensures r.Done? ==> BindsAdmitted(stateSpace, rules, cnames, tuple2rule) && ConditionsMatch()
    {
      ghost var products := [];
      for i := 0 to |rules|
        invariant |products| == i && BoundSoFar(products)
      {
        RepeatIsClash(products);
        r, products := BindRule(i, products);
        if r.KeyError? {
          KeyErrorMisses(i);
          return;
        }
        if r.Died? {
          ClashMissesNone(stateSpace, rules, cnames, i);
          return;
        }
      }
      AllBound(products);
      BindableMissesNone(stateSpace, rules, cnames);
      r := Done;
    }

    lemma KeyErrorMisses(i: nat)
      requires i < |rules| && Bindable(stateSpace, rules[..i], cnames) && !Defined(stateSpace, rules[i], cnames)
      ensures MissesName(stateSpace, rules, cnames) && !Bindable(stateSpace, rules, cnames)
    {
      assert MissesNameAt(stateSpace, rules, cnames, i);
    }

    /** The products of the first rules repeat a tuple exactly when these rules cannot all be bound. */
    lemma RepeatIsClash(products: seq<seq<Tuple>>)
      requires ProductsOf(products)
      ensures NoRepeat(products) <==> Bindable(stateSpace, rules[..|products|], cnames)
    {
      var first := rules[..|products|];
      assert forall k :: 0 <= k < |first| ==> first[k] == rules[k];
      assert AllDefined(stateSpace, first, cnames);
      assert products == Products(stateSpace, first, cnames);
      NoClashIsNoRepeat(stateSpace, first, cnames);
    }

    lemma AllBound(products: seq<seq<Tuple>>)
      requires ProductsOf(products) && |products| == |rules|
      requires NoRepeat(products) && BindsListed(products, tuple2rule)
      ensures Bindable(stateSpace, rules, cnames)
      ensures BindsAdmitted(stateSpace, rules, cnames, tuple2rule)
    {
      assert products == Products(stateSpace, rules, cnames);
      NoClashIsNoRepeat(stateSpace, rules, cnames);
      BindsListedIsAdmitted(stateSpace, rules, cnames, tuple2rule);
    }

    ghost predicate WidthsKnown()
      reads this
    {
      forall n :: n in cnames ==> n in opWidths
    }

    ghost function Widths(): (ws: seq<nat>)
      requires WidthsKnown()
      reads this
      ensures |ws| == |cnames| && forall i :: 0 <= i < |ws| ==> ws[i] == opWidths[cnames[i]]
    {
      seq(|cnames|, i requires 0 <= i < |cnames| reads this requires WidthsKnown() => opWidths[cnames[i]])
    }

    /** The shift-and-add loop of _gen_tuple2int; KeyError on a name without a width. */
    method KeyOf(t: Tuple) returns (r: Outcome, res: int)
      requires |t| == |cnames|
      ensures r == if WidthsKnown() then Done else KeyError
      ensures r.Done? ==> res == Pack(t, Widths())
    {
      res := 0;
      var bitShift := 0;
      assert WidthsKnown() ==> t[0..] == t && Widths()[0..] == Widths();
      for i := 0 to |t|
        invariant forall j :: 0 <= j < i ==> cnames[j] in opWidths
        invariant WidthsKnown() ==> res + Pow2(bitShift) * Pack(t[i..], Widths()[i..]) == Pack(t, Widths())
      {
        if cnames[i] !in opWidths {
          return KeyError, res;
        }
        var opwidth := opWidths[cnames[i]];
        if WidthsKnown() {
          PackSplits(t, Widths(), i, res, bitShift);
        }
        res := res + t[i] * Pow2(bitShift);
        bitShift := bitShift + opwidth;
      }
      return Done, res;
    }

    ghost predicate TuplesFull()
      reads this
    {
      forall t :: t in tuple2rule ==> |t| == |cnames|
    }

    /** No two bound tuples have the same key. */
    ghost predicate KeysDistinct()
      requires WidthsKnown()
      reads this
    {
      TuplesFull()
      && forall t, u :: t in tuple2rule && u in tuple2rule && Pack(t, Widths()) == Pack(u, Widths()) ==> t == u
    }

    /** Keys can be given: there is nothing to pack, or every name has a width and no keys collide. */
    ghost predicate Packable()
      reads this
    {
      tuple2rule == map[] || (WidthsKnown() && KeysDistinct())
    }

    /** One tuple's key; Died when another tuple has it. */
    method EnterKey(t: Tuple) returns (r: Outcome)
      requires |t| == |cnames| && t !in tuple2int
      requires WidthsKnown() ==> InverseKeys(tuple2int, int2tuple, Widths())
      modifies this`tuple2int, this`int2tuple
      ensures r.KeyError? <==> !WidthsKnown()
      ensures r.KeyError? ==> tuple2int == old(tuple2int) && int2tuple == old(int2tuple)
      ensures r.Died? ==> exists u :: u in old(tuple2int) && Pack(u, Widths()) == Pack(t, Widths())
      ensures r.Done? ==> tuple2int.Keys == old(tuple2int).Keys + {t} && InverseKeys(tuple2int, int2tuple, Widths())
    {
      var res;
      r, res := KeyOf(t);
      if r.KeyError? {
        return;
      }
      if res in int2tuple {
        assert int2tuple[res] in tuple2int && Pack(int2tuple[res], Widths()) == Pack(t, Widths());
        return Died;
      }
      ghost var ws := Widths();
      InverseStep(tuple2int, int2tuple, ws, t);
      tuple2int := tuple2int[t := res];
      int2tuple := int2tuple[res := t];
      assert Widths() == ws;
    }

    /** _gen_tuple2int */
    method GenTuple2Int() returns (r: Outcome)
      requires TuplesFull()
      requires tuple2int == map[] && int2tuple == map[]
      modifies this`tuple2int, this`int2tuple
      ensures r.Done? <==> Packable()
      ensures r.KeyError? <==> tuple2rule != map[] && !WidthsKnown()
      ensures r.Done? ==> tuple2int.Keys == tuple2rule.Keys
      ensures r.Done? && WidthsKnown() ==> InverseKeys(tuple2int, int2tuple, Widths())
      ensures r.Done? && WidthsKnown() ==>
        && (forall t :: t in tuple2rule ==>
              && tuple2int[t] == Pack(t, Widths())
              && tuple2int[t] in int2tuple && int2tuple[tuple2int[t]] == t)
        && forall k :: k in int2tuple ==> int2tuple[k] in tuple2rule && tuple2int[int2tuple[k]] == k
    {
      var rest := tuple2rule.Keys;
      while rest != {}
        invariant rest <= tuple2rule.Keys && tuple2int.Keys == tuple2rule.Keys - rest
        invariant WidthsKnown() ==> InverseKeys(tuple2int, int2tuple, Widths())
        invariant !WidthsKnown() ==> rest == tuple2rule.Keys
        decreases rest
      {
        var t :| t in rest;
        r := EnterKey(t);
        if !r.Done? {
          return;
        }
        rest := rest - {t};
      }
      if WidthsKnown() {
        InverseIsDistinct();
      }
      return Done;
    }

    lemma InverseIsDistinct()
      requires WidthsKnown() && TuplesFull() && tuple2int.Keys == tuple2rule.Keys
      requires InverseKeys(tuple2int, int2tuple, Widths())
      ensures KeysDistinct()
    {
      forall t, u | t in tuple2rule && u in tuple2rule && Pack(t, Widths()) == Pack(u, Widths()) ensures t == u {
        assert t in tuple2int.Keys && u in tuple2int.Keys;
      }
    }

    /** The rules name something to constrain, unless there are no rules. */
    ghost predicate Constrained()
      reads this
    {
      rules == [] || AllNames(rules) != {}
    }

    /** The tuples can all be bound, there is one, and some name has no width. */
    ghost predicate MissesWidth()
      reads this
    {
      Bindable(stateSpace, rules, cnames) && tuple2rule != map[] && !WidthsKnown()
    }

    /** work: the three steps in order. It dies on rules that name nothing, on a clash and on a
        conflict of keys, and raises KeyError on a name without values or without a width. */
    method Work() returns (r: Outcome)
      requires cnames == [] && tuple2rule == map[] && tuple2conditions == map[]
      requires tuple2int == map[] && int2tuple == map[]
      modifies this
      ensures r.Done? <==> Constrained() && Bindable(stateSpace, rules, cnames) && Packable()
      ensures r.KeyError? <==> Constrained() && (MissesName(stateSpace, rules, cnames) || MissesWidth())
      ensures Constrained() ==> SortedNames(cnames) && forall n :: n in cnames <==> n in AllNames(rules)
      ensures Constrained() && Bindable(stateSpace, rules, cnames) ==>
        BindsAdmitted(stateSpace, rules, cnames, tuple2rule) && ConditionsMatch()
      ensures Constrained() && Bindable(stateSpace, rules, cnames) ==> BindsLists(stateSpace, rules, cnames, tuple2rule)
      ensures r.Done? ==> tuple2int.Keys == tuple2rule.Keys
      ensures r.Done? && WidthsKnown() ==> InverseKeys(tuple2int, int2tuple, Widths())
    {
      r := CaptureCnames();
      if r.Done? {
        assert rules != [] ==> exists n :: n in AllNames(rules);
        r := MakeTuple2Rule();
        if r.Done? {
          BindableMissesNone(stateSpace, rules, cnames);
          r := GenTuple2Int();
        }
      }
    }

    /** When every component fits its width the conflict branch is never taken. */
    lemma FittingKeysAreDistinct()
      requires WidthsKnown() && TuplesFull()
      requires forall t :: t in tuple2rule ==> Fits(t, Widths())
      ensures KeysDistinct()
    {
      forall t, u | t in tuple2rule && u in tuple2rule && Pack(t, Widths()) == Pack(u, Widths())
        ensures t == u
      {
        PackInjective(t, u, Widths());
      }
    }

    /** The copying loop of filter_tuples. */
    method FilterMaps(tuples: seq<Tuple>)
      returns (r: Outcome, t2r: map<Tuple, nat>, t2i: map<Tuple, int>, t2c: map<Tuple, string>)
      requires tuple2int.Keys == tuple2rule.Keys == tuple2conditions.Keys
      ensures r == if forall t :: t in tuples ==> t in tuple2rule then Done else KeyError
      ensures r.Done? ==> t2r == Restrict(tuple2rule, Members(tuples))
      ensures r.Done? ==> t2i == Restrict(tuple2int, Members(tuples))
      ensures r.Done? ==> t2c == Restrict(tuple2conditions, Members(tuples))
    {
      t2r, t2i, t2c := map[], map[], map[];
      for j := 0 to |tuples|
        invariant Members(tuples[..j]) <= tuple2rule.Keys
        invariant t2r == Restrict(tuple2rule, Members(tuples[..j]))
        invariant t2i == Restrict(tuple2int, Members(tuples[..j]))
        invariant t2c == Restrict(tuple2conditions, Members(tuples[..j]))
      {
        var t := tuples[j];
        if t !in tuple2rule {
          r := KeyError;
          return;
        }
        ghost var done := Members(tuples[..j]);
        assert Members(tuples[..j + 1]) == done + {t};
        RestrictStep(tuple2rule, done, t);
        RestrictStep(tuple2int, done, t);
        RestrictStep(tuple2conditions, done, t);
        t2r, t2i, t2c := t2r[t := tuple2rule[t]], t2i[t := tuple2int[t]], t2c[t := tuple2conditions[t]];
      }
      assert tuples[..|tuples|] == tuples;
      r := Done;
    }

    /** filter_tuples */
    method FilterTuples(tuples: seq<Tuple>) returns (r: Outcome, g: Generator?)
      requires tuple2int.Keys == tuple2rule.Keys == tuple2conditions.Keys
      requires WidthsKnown() && InverseKeys(tuple2int, int2tuple, Widths())
      ensures r == if forall t :: t in tuples ==> t in tuple2rule then Done else KeyError
      ensures r.Done? ==> g != null && fresh(g)
      ensures r.Done? ==> g.rules == rules && g.cnames == cnames && g.opWidths == opWidths
      ensures r.Done? ==> g.tuple2rule == Restrict(tuple2rule, Members(tuples))
      ensures r.Done? ==> g.tuple2int == Restrict(tuple2int, Members(tuples))
      ensures r.Done? ==> g.tuple2conditions == Restrict(tuple2conditions, Members(tuples))
      ensures r.Done? ==> InverseKeys(g.tuple2int, g.int2tuple, Widths())
      ensures r.Done? ==> forall t ::
        && (t in g.tuple2rule <==> t in tuples)
        && (t in g.tuple2rule ==> t in tuple2rule && g.tuple2rule[t] == tuple2rule[t])
        && (t in g.tuple2int <==> t in tuples)
        && (t in g.tuple2int ==>
              && t in tuple2int && g.tuple2int[t] == tuple2int[t]
              && tuple2int[t] in g.int2tuple && g.int2tuple[tuple2int[t]] == t)
    {
      var t2r, t2i, t2c;
      r, t2r, t2i, t2c := FilterMaps(tuples);
      g := null;
      if r.Done? {
        RestrictedInverse(tuple2int, int2tuple, Widths(), Members(tuples));
        assert forall t :: t in t2i ==> t in tuple2int && t2i[t] == tuple2int[t];
        g := new Generator.Copy(this, t2r, t2i, t2c, Inverted(t2i));
      }
    }
  }

  function Members(tuples: seq<Tuple>): set<Tuple> {
    set t | t in tuples
  }
}
