/** Constraint tuples: which operand tuples a rule admits, their cross products and integer keys. */
module ConstraintSpec {
  type Tuple = seq<int>

  /** The legal values of every operand. */
  type StateSpace = map<string, seq<int>>

  /** A rule lists the values it allows for some operands; the other operands are free. */
  datatype Rule = Rule(cdict: map<string, seq<int>>, conditions: string)

  predicate Defined(space: StateSpace, rule: Rule, names: seq<string>) {
    forall n :: n in names ==> n in rule.cdict || n in space
  }

  function Values(space: StateSpace, rule: Rule, name: string): seq<int>
    requires name in rule.cdict || name in space
  {
    if name in rule.cdict then rule.cdict[name] else space[name]
  }

  /** Every component is a value the rule lists, or any legal value where it lists none. */
  predicate Admits(space: StateSpace, rule: Rule, names: seq<string>, t: Tuple)
    requires Defined(space, rule, names)
  {
    |t| == |names| && forall i :: 0 <= i < |t| ==> t[i] in Values(space, rule, names[i])
  }

  predicate Distinct<T(==)>(s: seq<T>) {
    forall i, j :: 0 <= i < j < |s| ==> s[i] != s[j]
  }

  function Extend(ctup: seq<Tuple>, val: int): (r: seq<Tuple>)
    ensures |r| == |ctup|
  {
    seq(|ctup|, i requires 0 <= i < |ctup| => ctup[i] + [val])
  }

  function ExtendAll(ctup: seq<Tuple>, vals: seq<int>): seq<Tuple> {
    if vals == [] then [] else ExtendAll(ctup, vals[..|vals| - 1]) + Extend(ctup, vals[|vals| - 1])
  }

  /** The cross product of a rule's values, in the order of the nested loops. */
  function Cross(space: StateSpace, rule: Rule, names: seq<string>): seq<Tuple>
    requires Defined(space, rule, names)
  {
    if names == [] then [[]]
    else
      var last := names[|names| - 1];
      ExtendAll(Cross(space, rule, names[..|names| - 1]), Values(space, rule, last))
  }

  lemma CrossStep(space: StateSpace, rule: Rule, names: seq<string>, i: nat)
    requires i < |names| && Defined(space, rule, names[..i])
    ensures Defined(space, rule, names[..i + 1]) <==> names[i] in rule.cdict || names[i] in space
    ensures Defined(space, rule, names[..i + 1]) ==>
      Cross(space, rule, names[..i + 1]) == ExtendAll(Cross(space, rule, names[..i]), Values(space, rule, names[i]))
  {
    assert names[..i + 1] == names[..i] + [names[i]];
    assert names[..i + 1][..i] == names[..i];
  }

  lemma {:induction false} ExtendAllHolds(ctup: seq<Tuple>, vals: seq<int>, t: Tuple)
    ensures t in ExtendAll(ctup, vals) <==> t != [] && t[..|t| - 1] in ctup && t[|t| - 1] in vals
  {
    if vals != [] {
      var val := vals[|vals| - 1];
      ExtendAllHolds(ctup, vals[..|vals| - 1], t);
      var e := Extend(ctup, val);
      if t in e {
        var i :| 0 <= i < |e| && e[i] == t;
        assert t[..|t| - 1] == ctup[i];
      }
      if t != [] && t[..|t| - 1] in ctup && t[|t| - 1] == val {
        var i :| 0 <= i < |ctup| && ctup[i] == t[..|t| - 1];
        assert e[i] == t;
      }
      assert vals == vals[..|vals| - 1] + [val];
    }
  }

  lemma AdmitsStep(space: StateSpace, rule: Rule, names: seq<string>, t: Tuple)
    requires Defined(space, rule, names) && names != []
    ensures var n := |names| - 1;
      Admits(space, rule, names, t) <==>
      t != [] && Admits(space, rule, names[..n], t[..|t| - 1]) && t[|t| - 1] in Values(space, rule, names[n])
  {
    var n := |names| - 1;
    if t != [] && Admits(space, rule, names[..n], t[..|t| - 1]) && t[|t| - 1] in Values(space, rule, names[n]) {
      forall i | 0 <= i < |t|
        ensures t[i] in Values(space, rule, names[i])
      {
        if i < n {
          assert t[..n][i] in Values(space, rule, names[..n][i]);
        }
      }
    }
  }

  /** The cross product holds exactly the admitted tuples. */
  lemma {:induction false} CrossIsAdmitted(space: StateSpace, rule: Rule, names: seq<string>, t: Tuple)
    requires Defined(space, rule, names)
    ensures t in Cross(space, rule, names) <==> Admits(space, rule, names, t)
  {
    if names != [] {
      var n := |names| - 1;
      ExtendAllHolds(Cross(space, rule, names[..n]), Values(space, rule, names[n]), t);
      AdmitsStep(space, rule, names, t);
      if t != [] {
        CrossIsAdmitted(space, rule, names[..n], t[..|t| - 1]);
      }
    }
  }

  /** The product in terms of the lists alone: a component is a value that the rule lists for the
      name, or, where the rule lists none, a legal one. */
  lemma CrossLists(space: StateSpace, rule: Rule, names: seq<string>, t: Tuple)
    requires forall n :: n in names ==> n in rule.cdict || n in space
    ensures Defined(space, rule, names)
    ensures t in Cross(space, rule, names) <==>
      && |t| == |names|
      && forall i :: 0 <= i < |t| ==>
           if names[i] in rule.cdict then t[i] in rule.cdict[names[i]] else t[i] in space[names[i]]
  {
    CrossIsAdmitted(space, rule, names, t);
  }

  /** The rule lists the tuple, or leaves it open. */
  ghost predicate Lists(space: StateSpace, rule: Rule, names: seq<string>, t: Tuple) {
    && |t| == |names|
    && forall i :: 0 <= i < |t| ==>
         if names[i] in rule.cdict then t[i] in rule.cdict[names[i]]
         else names[i] in space && t[i] in space[names[i]]
  }

  lemma AdmitsIsLists(space: StateSpace, rule: Rule, names: seq<string>, t: Tuple)
    requires Defined(space, rule, names)
    ensures Admits(space, rule, names, t) <==> Lists(space, rule, names, t)
  {
  }

  lemma ConcatDistinct<T>(a: seq<T>, b: seq<T>)
    ensures Distinct(a + b) <==> Distinct(a) && Distinct(b) && forall x :: x in b ==> x !in a
  {
    var c := a + b;
    assert forall i :: 0 <= i < |a| ==> c[i] == a[i];
    assert forall i :: 0 <= i < |b| ==> c[|a| + i] == b[i];
    if Distinct(c) {
      forall i, j | 0 <= i < j < |a|
        ensures a[i] != a[j]
      {
        assert c[i] != c[j];
      }
      forall i, j | 0 <= i < j < |b|
        ensures b[i] != b[j]
      {
        assert c[|a| + i] != c[|a| + j];
      }
      forall x | x in b
        ensures x !in a
      {
        var j :| 0 <= j < |b| && b[j] == x;
        assert c[|a| + j] == x;
      }
    }
    if Distinct(a) && Distinct(b) && forall x :: x in b ==> x !in a {
      forall i, j | 0 <= i < j < |c|
        ensures c[i] != c[j]
      {
        if j >= |a| {
          assert c[j] in b && (i < |a| ==> c[i] in a);
          assert i >= |a| ==> c[i] == b[i - |a|];
        }
      }
    }
  }

  lemma ExtendDistinct(ctup: seq<Tuple>, val: int)
    ensures Distinct(Extend(ctup, val)) <==> Distinct(ctup)
  {
    var e := Extend(ctup, val);
    assert forall i :: 0 <= i < |e| ==> e[i][..|e[i]| - 1] == ctup[i];
    if Distinct(ctup) {
      forall i, j | 0 <= i < j < |e|
        ensures e[i] != e[j]
      {
        assert ctup[i] != ctup[j];
      }
    }
    if Distinct(e) {
      forall i, j | 0 <= i < j < |ctup|
        ensures ctup[i] != ctup[j]
      {
        assert e[i] != e[j];
      }
    }
  }

  lemma {:induction false} ExtendAllEmpty(ctup: seq<Tuple>, vals: seq<int>)
    ensures ExtendAll(ctup, vals) == [] <==> ctup == [] || vals == []
  {
    if vals != [] {
      ExtendAllEmpty(ctup, vals[..|vals| - 1]);
    }
  }

  /** A repeated value is the only way for a product to repeat a tuple. */
  lemma {:induction false} ExtendAllDistinct(ctup: seq<Tuple>, vals: seq<int>)
    requires ctup != []
    ensures Distinct(ExtendAll(ctup, vals)) <==> vals == [] || (Distinct(ctup) && Distinct(vals))
  {
    if vals != [] {
      var n := |vals| - 1;
      var init, val := vals[..n], vals[n];
      var pre, e := ExtendAll(ctup, init), Extend(ctup, val);
      ExtendAllDistinct(ctup, init);
      ConcatDistinct(pre, e);
      ExtendDistinct(ctup, val);
      assert Distinct(vals) <==> Distinct(init) && val !in init by {
        ConcatDistinct(init, [val]);
        assert vals == init + [val];
      }
      forall t | t in e
        ensures t in pre <==> val in init
      {
        ExtendAllHolds(ctup, init, t);
        var i :| 0 <= i < |e| && e[i] == t;
        assert t[..|t| - 1] == ctup[i];
      }
      assert e[0] in e;
    }
  }

  /** A rule's product repeats a tuple exactly when one of its value lists repeats a value and
      none is empty. */
  lemma {:induction false} CrossDistinct(space: StateSpace, rule: Rule, names: seq<string>)
    requires Defined(space, rule, names)
    ensures Cross(space, rule, names) == [] <==> exists n :: n in names && Values(space, rule, n) == []
    ensures Distinct(Cross(space, rule, names)) <==>
      Cross(space, rule, names) == [] || forall n :: n in names ==> Distinct(Values(space, rule, n))
  {
    if names != [] {
      var init, last := names[..|names| - 1], names[|names| - 1];
      assert names == init + [last];
      CrossDistinct(space, rule, init);
      var ctup := Cross(space, rule, init);
      ExtendAllEmpty(ctup, Values(space, rule, last));
      if ctup != [] {
        ExtendAllDistinct(ctup, Values(space, rule, last));
      }
    }
  }

  // ----- All rules together -----

  predicate AllDefined(space: StateSpace, rules: seq<Rule>, names: seq<string>) {
    forall i :: 0 <= i < |rules| ==> Defined(space, rules[i], names)
  }

  /** No tuple is listed twice: not in one product and not in two. */
  ghost predicate NoRepeat(products: seq<seq<Tuple>>) {
    && (forall i :: 0 <= i < |products| ==> Distinct(products[i]))
    && forall i, j, t :: 0 <= i < j < |products| && t in products[i] ==> t !in products[j]
  }

  /** m binds a tuple to a product exactly when the product lists it. */
  ghost predicate BindsListed(products: seq<seq<Tuple>>, m: map<Tuple, nat>) {
    && (forall t :: t in m ==> m[t] < |products| && t in products[m[t]])
    && (forall i, t :: 0 <= i < |products| && t in products[i] ==> t in m && m[t] == i)
  }

  ghost function Bound(m: map<Tuple, nat>, ctup: seq<Tuple>, i: nat): map<Tuple, nat> {
    m + map t | t in ctup :: i
  }

  /** A further product repeats something exactly when it does so itself or lists a bound tuple. */
  lemma RepeatStep(products: seq<seq<Tuple>>, m: map<Tuple, nat>, c: seq<Tuple>)
    requires NoRepeat(products) && BindsListed(products, m)
    ensures NoRepeat(products + [c]) <==> AllNew(m, c)
    ensures AllNew(m, c) ==> BindsListed(products + [c], Bound(m, c, |products|))
  {
    var more := products + [c];
    assert forall i :: 0 <= i < |products| ==> more[i] == products[i];
    assert more[|products|] == c;
    forall t | t in m
      ensures t in more[m[t]]
    {
      assert t in products[m[t]];
    }
  }

  /** The tuples of a list, each met for the first time. */
  ghost predicate AllNew(m: map<Tuple, nat>, ctup: seq<Tuple>) {
    Distinct(ctup) && forall t :: t in ctup ==> t !in m
  }

  /** The dictionary meets tuple j for the first time exactly when the list up to it is all new. */
  lemma NewStep(m: map<Tuple, nat>, ctup: seq<Tuple>, j: nat)
    requires j < |ctup| && AllNew(m, ctup[..j])
    ensures AllNew(m, ctup[..j + 1]) <==> ctup[j] !in m && ctup[j] !in ctup[..j]
    ensures AllNew(m, ctup) ==> AllNew(m, ctup[..j + 1])
  {
    ConcatDistinct(ctup[..j], [ctup[j]]);
    ConcatDistinct(ctup[..j + 1], ctup[j + 1..]);
    assert ctup[..j + 1] == ctup[..j] + [ctup[j]] && ctup == ctup[..j + 1] + ctup[j + 1..];
  }

  lemma BoundStep(m: map<Tuple, nat>, ctup: seq<Tuple>, i: nat, j: nat)
    requires j < |ctup|
    ensures Bound(m, ctup[..j + 1], i) == Bound(m, ctup[..j], i)[ctup[j] := i]
  {
    assert ctup[..j + 1] == ctup[..j] + [ctup[j]];
  }

  ghost function Products(space: StateSpace, rules: seq<Rule>, names: seq<string>): (ps: seq<seq<Tuple>>)
    requires AllDefined(space, rules, names)
    ensures |ps| == |rules| && forall i :: 0 <= i < |rules| ==> ps[i] == Cross(space, rules[i], names)
  {
    seq(|rules|, i requires 0 <= i < |rules| => Cross(space, rules[i], names))
  }

  /** The tuples of the rules can all be bound: no tuple is admitted by two rules, and no rule
      repeats a value in a list (unless another of its lists is empty). */
  ghost predicate NoClash(space: StateSpace, rules: seq<Rule>, names: seq<string>)
    requires AllDefined(space, rules, names)
  {
    && (forall i, n :: 0 <= i < |rules| && n in names ==>
          Distinct(Values(space, rules[i], n)) || exists e :: e in names && Values(space, rules[i], e) == [])
    && forall i, j, t :: 0 <= i < j < |rules| && Admits(space, rules[i], names, t) ==>
         !Admits(space, rules[j], names, t)
  }

  lemma NoClashIsNoRepeat(space: StateSpace, rules: seq<Rule>, names: seq<string>)
    requires AllDefined(space, rules, names)
    ensures NoClash(space, rules, names) <==> NoRepeat(Products(space, rules, names))
  {
    var ps := Products(space, rules, names);
    forall i | 0 <= i < |rules|
      ensures Distinct(ps[i]) <==>
        forall n :: n in names ==>
          || Distinct(Values(space, rules[i], n))
          || exists e :: e in names && Values(space, rules[i], e) == []
    {
      CrossDistinct(space, rules[i], names);
    }
    forall i, t | 0 <= i < |rules|
      ensures t in ps[i] <==> Admits(space, rules[i], names, t)
    {
      CrossIsAdmitted(space, rules[i], names, t);
    }
  }

  /** The rules can all be expanded and bound. */
  ghost predicate Bindable(space: StateSpace, rules: seq<Rule>, names: seq<string>) {
    AllDefined(space, rules, names) && NoClash(space, rules, names)
  }

  /** In terms of the lists alone: every rule has values for all names, no two rules list a common
      tuple, and no rule lists a value twice, unless it has an empty list. */
  lemma BindableMeans(space: StateSpace, rules: seq<Rule>, names: seq<string>)
    ensures Bindable(space, rules, names) <==>
      && (forall i, n :: 0 <= i < |rules| && n in names ==> n in rules[i].cdict || n in space)
      && (forall i, j, t :: 0 <= i < j < |rules| ==>
            !(Lists(space, rules[i], names, t) && Lists(space, rules[j], names, t)))
      && (forall i :: 0 <= i < |rules| ==> HasEmptyList(space, rules[i], names) || ListsOnce(space, rules[i], names))
  {
    if AllDefined(space, rules, names) {
      forall i, t | 0 <= i < |rules|
        ensures Admits(space, rules[i], names, t) <==> Lists(space, rules[i], names, t)
      {
        assert Defined(space, rules[i], names);
        AdmitsIsLists(space, rules[i], names, t);
      }
      forall i | 0 <= i < |rules|
        ensures HasEmptyList(space, rules[i], names) <==> exists e :: e in names && Values(space, rules[i], e) == []
        ensures ListsOnce(space, rules[i], names) <==> forall n :: n in names ==> Distinct(Values(space, rules[i], n))
      {
        EmptyLists(space, rules[i], names);
      }
    }
  }

  ghost predicate HasEmptyList(space: StateSpace, rule: Rule, names: seq<string>) {
    exists n :: n in names &&
      if n in rule.cdict then rule.cdict[n] == [] else n in space && space[n] == []
  }

  ghost predicate ListsOnce(space: StateSpace, rule: Rule, names: seq<string>) {
    forall n, j, k :: n in names ==>
      if n in rule.cdict then 0 <= j < k < |rule.cdict[n]| ==> rule.cdict[n][j] != rule.cdict[n][k]
      else n in space && 0 <= j < k < |space[n]| ==> space[n][j] != space[n][k]
  }

  lemma EmptyLists(space: StateSpace, rule: Rule, names: seq<string>)
    requires Defined(space, rule, names)
    ensures HasEmptyList(space, rule, names) <==> exists e :: e in names && Values(space, rule, e) == []
    ensures ListsOnce(space, rule, names) <==> forall n :: n in names ==> Distinct(Values(space, rule, n))
  {
  }

  lemma BindableShrinks(space: StateSpace, rules: seq<Rule>, names: seq<string>, n: nat)
    requires Bindable(space, rules, names) && n <= |rules|
    ensures Bindable(space, rules[..n], names)
  {
    assert forall i :: 0 <= i < n ==> rules[..n][i] == rules[i];
  }

  /** The rules before rule i can be bound, and rule i needs a name that has no values. */
  ghost predicate MissesNameAt(space: StateSpace, rules: seq<Rule>, names: seq<string>, i: nat) {
    i < |rules| && Bindable(space, rules[..i], names) && !Defined(space, rules[i], names)
  }

  ghost predicate MissesName(space: StateSpace, rules: seq<Rule>, names: seq<string>) {
    exists i: nat :: MissesNameAt(space, rules, names, i)
  }

  lemma BindableMissesNone(space: StateSpace, rules: seq<Rule>, names: seq<string>)
    requires Bindable(space, rules, names)
    ensures !MissesName(space, rules, names)
  {
  }

  lemma NotMissedAt(space: StateSpace, rules: seq<Rule>, names: seq<string>, i: nat, j: nat)
    requires i < |rules| && Bindable(space, rules[..i], names)
    requires Defined(space, rules[i], names) && !Bindable(space, rules[..i + 1], names)
    ensures !MissesNameAt(space, rules, names, j)
  {
    if j < i {
      assert rules[..i][j] == rules[j];
    } else if i < j < |rules| {
      assert rules[..j][..i + 1] == rules[..i + 1];
      if Bindable(space, rules[..j], names) {
        BindableShrinks(space, rules[..j], names, i + 1);
      }
    }
  }

  /** Where a clash comes first, no later rule is reached. */
  lemma ClashMissesNone(space: StateSpace, rules: seq<Rule>, names: seq<string>, i: nat)
    requires i < |rules| && Bindable(space, rules[..i], names)
    requires Defined(space, rules[i], names) && !Bindable(space, rules[..i + 1], names)
    ensures !MissesName(space, rules, names) && !Bindable(space, rules, names)
  {
    if Bindable(space, rules, names) {
      BindableShrinks(space, rules, names, i + 1);
    }
    forall j: nat ensures !MissesNameAt(space, rules, names, j) {
      NotMissedAt(space, rules, names, i, j);
    }
  }

  /** m binds a tuple to a rule exactly when the rule admits the tuple, so each tuple has one rule. */
  ghost predicate BindsAdmitted(space: StateSpace, rules: seq<Rule>, names: seq<string>, m: map<Tuple, nat>)
    requires AllDefined(space, rules, names)
  {
    && (forall t :: t in m ==> m[t] < |rules|)
    && forall i, t :: 0 <= i < |rules| ==> (Admits(space, rules[i], names, t) <==> t in m && m[t] == i)
  }

  /** In terms of the rules' lists alone: m binds a tuple to a rule exactly when the rule lists it. */
  ghost predicate BindsLists(space: StateSpace, rules: seq<Rule>, names: seq<string>, m: map<Tuple, nat>) {
    forall i, t :: 0 <= i < |rules| ==> (t in m && m[t] == i <==> Lists(space, rules[i], names, t))
  }

  lemma BindsAdmittedIsLists(space: StateSpace, rules: seq<Rule>, names: seq<string>, m: map<Tuple, nat>)
    requires AllDefined(space, rules, names) && BindsAdmitted(space, rules, names, m)
    ensures BindsLists(space, rules, names, m)
  {
    forall i, t | 0 <= i < |rules|
      ensures t in m && m[t] == i <==> Lists(space, rules[i], names, t)
    {
      AdmitsIsLists(space, rules[i], names, t);
    }
  }

  lemma BindsListedIsAdmitted(space: StateSpace, rules: seq<Rule>, names: seq<string>, m: map<Tuple, nat>)
    requires AllDefined(space, rules, names) && BindsListed(Products(space, rules, names), m)
    ensures BindsAdmitted(space, rules, names, m)
  {
    forall i, t | 0 <= i < |rules|
      ensures Admits(space, rules[i], names, t) <==> t in m && m[t] == i
    {
      CrossIsAdmitted(space, rules[i], names, t);
    }
  }

  // ----- Packing a tuple into an integer key -----

  function Pow2(n: nat): (r: nat)
    ensures r >= 1
  {
    if n == 0 then 1 else 2 * Pow2(n - 1)
  }

  lemma {:induction false} Pow2Adds(a: nat, b: nat)
    ensures Pow2(a + b) == Pow2(a) * Pow2(b)
  {
    if a > 0 {
      Pow2Adds(a - 1, b);
      assert Pow2(a + b) == 2 * Pow2(a - 1 + b);
      assert 2 * (Pow2(a - 1) * Pow2(b)) == (2 * Pow2(a - 1)) * Pow2(b);
    }
  }

  function Total(widths: seq<nat>): nat {
    if widths == [] then 0 else widths[0] + Total(widths[1..])
  }

  /** The first component takes the lowest bits. */
  function Pack(t: Tuple, widths: seq<nat>): int
    requires |t| == |widths|
  {
    if t == [] then 0 else t[0] + Pow2(widths[0]) * Pack(t[1..], widths[1..])
  }

  function Unpack(key: int, widths: seq<nat>): Tuple
    decreases widths
  {
    if widths == [] then []
    else
      var p := Pow2(widths[0]);
      [key % p] + Unpack(key / p, widths[1..])
  }

  predicate Fits(t: Tuple, widths: seq<nat>) {
    |t| == |widths| && forall i :: 0 <= i < |t| ==> 0 <= t[i] < Pow2(widths[i])
  }

  lemma MultipleIsFar(p: int, x: int)
    requires p > 0
    ensures x >= 1 ==> p * x >= p
    ensures x <= -1 ==> p * x <= -p
  {
    assert p * x - p == p * (x - 1);
    assert p * x + p == p * (x + 1);
  }

  lemma QuotientIsUnique(p: int, q: int, v: int, d: int, m: int)
    requires 0 <= v < p && 0 <= m < p && p * q + v == p * d + m
    ensures q == d && v == m
  {
    MultipleIsFar(p, q - d);
    assert p * (q - d) == p * q - p * d;
  }

  lemma DivMod(v: int, p: int, q: int)
    requires 0 <= v < p
    ensures (v + p * q) % p == v && (v + p * q) / p == q
  {
    var n := v + p * q;
    QuotientIsUnique(p, q, v, n / p, n % p);
  }

  /** Packing can be undone when every component fits its width. */
  lemma {:induction false} UnpackPack(t: Tuple, widths: seq<nat>)
    requires Fits(t, widths)
    ensures Unpack(Pack(t, widths), widths) == t
    ensures 0 <= Pack(t, widths) < Pow2(Total(widths))
  {
    if t != [] {
      var v, w, init, ws := t[0], widths[0], t[1..], widths[1..];
      UnpackPack(init, ws);
      var p, q, rest := Pow2(w), Pack(init, ws), Pow2(Total(ws));
      DivMod(v, p, q);
      Pow2Adds(w, Total(ws));
      MulBelow(v, p, q, rest);
      assert t == [v] + init;
    }
  }

  /** The component of each name sits above the bits of the names before it. */
  lemma ComponentBits(t: Tuple, widths: seq<nat>, i: nat)
    requires Fits(t, widths) && i < |t|
    ensures (Pack(t, widths) / Pow2(Total(widths[..i]))) % Pow2(widths[i]) == t[i]
  {
    UnpackPack(t, widths);
    UnpackAt(Pack(t, widths), widths, i);
  }

  lemma {:induction false} UnpackAt(n: int, widths: seq<nat>, i: nat)
    requires i < |widths| && n >= 0
    ensures |Unpack(n, widths)| == |widths|
    ensures Unpack(n, widths)[i] == (n / Pow2(Total(widths[..i]))) % Pow2(widths[i])
    decreases i
  {
    UnpackLength(n, widths);
    if i > 0 {
      var p, ws := Pow2(widths[0]), widths[1..];
      assert widths[..i][1..] == ws[..i - 1] && widths[..i][0] == widths[0];
      Pow2Adds(widths[0], Total(ws[..i - 1]));
      QuotientOfQuotient(n, p, Pow2(Total(ws[..i - 1])));
      UnpackAt(n / p, ws, i - 1);
    }
  }

  lemma {:induction false} UnpackLength(n: int, widths: seq<nat>)
    ensures |Unpack(n, widths)| == |widths|
    decreases |widths|
  {
    if widths != [] {
      UnpackLength(n / Pow2(widths[0]), widths[1..]);
    }
  }

  lemma QuotientOfQuotient(n: int, p: int, q: int)
    requires n >= 0 && p > 0 && q > 0
    ensures p * q > 0 && n / p >= 0 && (n / p) / q == n / (p * q)
  {
    var a, m := n / p, n % p;
    var b, c := a / q, a % q;
    MulBelow(m, p, c, q);
    assert p * (q * b + c) == (p * q) * b + p * c;
    QuotientIsUnique(p * q, b, p * c + m, n / (p * q), n % (p * q));
  }

  lemma MulBelow(v: int, p: int, q: int, r: int)
    requires 0 <= v < p && 0 <= q < r
    ensures 0 <= v + p * q < p * r
  {
    assert p * q <= p * (r - 1);
    assert 0 <= p * q;
  }

  lemma PackInjective(t: Tuple, u: Tuple, widths: seq<nat>)
    requires Fits(t, widths) && Fits(u, widths) && Pack(t, widths) == Pack(u, widths)
    ensures t == u
  {
    UnpackPack(t, widths);
    UnpackPack(u, widths);
  }

  /** What the shift-and-add loop has still to add after i components. */
  lemma PackSplits(t: Tuple, widths: seq<nat>, i: nat, res: int, shift: nat)
    requires |t| == |widths| && i < |t|
    ensures res + Pow2(shift) * Pack(t[i..], widths[i..])
         == res + t[i] * Pow2(shift) + Pow2(shift + widths[i]) * Pack(t[i + 1..], widths[i + 1..])
  {
    assert t[i..][1..] == t[i + 1..] && widths[i..][1..] == widths[i + 1..];
    Pow2Adds(shift, widths[i]);
    Multiplied(Pow2(shift), Pow2(widths[i]), Pack(t[i + 1..], widths[i + 1..]), t[i]);
  }

  lemma Multiplied(a: int, b: int, c: int, v: int)
    ensures a * (v + b * c) == v * a + (a * b) * c
  {
    assert a * (b * c) == (a * b) * c;
  }

  /** t2i packs its tuples and i2t is its inverse. */
  ghost predicate InverseKeys(t2i: map<Tuple, int>, i2t: map<int, Tuple>, widths: seq<nat>) {
    && (forall t :: t in t2i ==> |t| == |widths| && t2i[t] == Pack(t, widths))
    && (forall t :: t in t2i ==> t2i[t] in i2t && i2t[t2i[t]] == t)
    && (forall k :: k in i2t ==> i2t[k] in t2i && t2i[i2t[k]] == k)
  }

  lemma InverseStep(t2i: map<Tuple, int>, i2t: map<int, Tuple>, widths: seq<nat>, t: Tuple)
    requires InverseKeys(t2i, i2t, widths) && |t| == |widths|
    requires t !in t2i && Pack(t, widths) !in i2t
    ensures InverseKeys(t2i[t := Pack(t, widths)], i2t[Pack(t, widths) := t], widths)
  {
  }

  ghost function Restrict<V>(m: map<Tuple, V>, ts: set<Tuple>): map<Tuple, V> {
    map t | t in ts && t in m :: m[t]
  }

  lemma RestrictStep<V>(m: map<Tuple, V>, ts: set<Tuple>, t: Tuple)
    requires t in m
    ensures Restrict(m, ts + {t}) == Restrict(m, ts)[t := m[t]]
  {
  }

  function Inverted(m: map<Tuple, int>): map<int, Tuple>
    requires forall t, u :: t in m && u in m && m[t] == m[u] ==> t == u
  {
    map t | t in m :: m[t] := t
  }

  /** Keeping some tuples keeps the two key maps inverse. */
  lemma RestrictedInverse(t2i: map<Tuple, int>, i2t: map<int, Tuple>, widths: seq<nat>, ts: set<Tuple>)
    requires InverseKeys(t2i, i2t, widths)
    ensures InverseKeys(Restrict(t2i, ts), Inverted(Restrict(t2i, ts)), widths)
  {
    var sub := Restrict(t2i, ts);
    var inv := Inverted(sub);
    forall t | t in sub
      ensures sub[t] in inv && inv[sub[t]] == t
    {
      assert i2t[sub[t]] == t;
    }
  }

  /** Parts that cover the tuples answer every look-up as the whole does. */
  lemma PartsAnswerAlike<V>(m: map<Tuple, V>, parts: seq<set<Tuple>>, t: Tuple)
    requires forall u :: u in m ==> exists i :: 0 <= i < |parts| && u in parts[i]
    ensures t in m <==> exists i :: 0 <= i < |parts| && t in Restrict(m, parts[i])
    ensures forall i :: 0 <= i < |parts| && t in Restrict(m, parts[i]) ==> Restrict(m, parts[i])[t] == m[t]
  {
    if t in m {
      var i :| 0 <= i < |parts| && t in parts[i];
      assert t in Restrict(m, parts[i]);
    }
  }
}
