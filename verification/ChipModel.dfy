/** What a chip definition means: the isa-sets of a chip by inheritance. */
module ChipSpec {
  /** One word of a chip's line. */
  datatype Token =
    | Plain(name: string)
    | AllOf(chip: string)
    | CommonSubset(first: string, second: string)
    | Not(name: string)

  type Chips = map<string, seq<Token>>

  function Refs(t: Token): set<string> {
    match t
    case AllOf(c) => {c}
    case CommonSubset(a, b) => {a, b}
    case _ => {}
  }

  /** The rank of a chip falls along every reference: the chips form no cycle. */
  ghost predicate Acyclic(d: Chips, rank: string -> nat) {
    forall c, t, r :: c in d && t in d[c] && r in Refs(t) ==> rank(r) < rank(c)
  }

  /** A chip table with a rank that shows that it has no cycle. */
  datatype Ranked = Ranked(chips: Chips, rank: string -> nat)

  type Hierarchy = h: Ranked | Acyclic(h.chips, h.rank) ghost witness Ranked(map[], _ => 0)

  /** Everything the chip refers to, directly or not, has a definition. */
  ghost predicate Defined(d: Hierarchy, c: string)
    decreases d.rank(c)
  {
    c in d.chips && forall t, r :: t in d.chips[c] && r in Refs(t) ==> Defined(d, r)
  }

  function Plains(ts: seq<Token>): set<string> {
    set t | t in ts && t.Plain? :: t.name
  }

  function Nots(ts: seq<Token>): set<string> {
    set t | t in ts && t.Not? :: t.name
  }

  /** What the ALL_OF words bring in, when e says what each chip stands for. */
  function AllOfs(e: map<string, set<string>>, ts: seq<Token>): set<string> {
    set t, x | t in ts && t.AllOf? && t.chip in e && x in e[t.chip] :: x
  }

  function Commons(e: map<string, set<string>>, ts: seq<Token>): set<string> {
    set t, x | t in ts && t.CommonSubset? && t.first in e && t.second in e && x in e[t.first] * e[t.second] :: x
  }

  function Combine(e: map<string, set<string>>, ts: seq<Token>): set<string> {
    ((AllOfs(e, ts) + Commons(e, ts)) - Nots(ts)) + Plains(ts)
  }

  /** The isa-sets of the chips of lower rank. */
  ghost function Below(d: Hierarchy, c: string): map<string, set<string>>
    decreases d.rank(c), 0
  {
    map r | r in d.chips && d.rank(r) < d.rank(c) && Defined(d, r) :: Expansion(d, r)
  }

  /** The isa-sets of a chip. */
  ghost function Expansion(d: Hierarchy, c: string): set<string>
    requires Defined(d, c)
    decreases d.rank(c), 1
  {
    Combine(Below(d, c), d.chips[c])
  }

  lemma RefIsBelow(d: Hierarchy, c: string, t: Token, r: string)
    requires Defined(d, c) && t in d.chips[c] && r in Refs(t)
    ensures Defined(d, r) && r in Below(d, c) && Below(d, c)[r] == Expansion(d, r)
  {
  }

  /** An ALL_OF word of the chip brings in x. */
  ghost predicate Inherits(d: Hierarchy, c: string, x: string)
    requires Defined(d, c)
  {
    exists s :: AllOf(s) in d.chips[c] && Defined(d, s) && x in Expansion(d, s)
  }

  /** A COMMON_SUBSET word of the chip brings in x. */
  ghost predicate Shares(d: Hierarchy, c: string, x: string)
    requires Defined(d, c)
  {
    exists a, b :: CommonSubset(a, b) in d.chips[c] && Defined(d, a) && Defined(d, b)
      && x in Expansion(d, a) && x in Expansion(d, b)
  }

  lemma AllOfsInherit(d: Hierarchy, c: string, x: string)
    requires Defined(d, c)
    ensures x in AllOfs(Below(d, c), d.chips[c]) <==> Inherits(d, c, x)
  {
    var e := Below(d, c);
    InAllOfs(e, d.chips[c], x);
    forall s | AllOf(s) in d.chips[c] ensures Defined(d, s) && s in e && e[s] == Expansion(d, s) {
      RefIsBelow(d, c, AllOf(s), s);
    }
  }

  lemma CommonsShare(d: Hierarchy, c: string, x: string)
    requires Defined(d, c)
    ensures x in Commons(Below(d, c), d.chips[c]) <==> Shares(d, c, x)
  {
    var e := Below(d, c);
    InCommons(e, d.chips[c], x);
    forall a, b | CommonSubset(a, b) in d.chips[c]
      ensures Defined(d, a) && a in e && e[a] == Expansion(d, a)
      ensures Defined(d, b) && b in e && e[b] == Expansion(d, b)
    {
      RefIsBelow(d, c, CommonSubset(a, b), a);
      RefIsBelow(d, c, CommonSubset(a, b), b);
    }
  }

  /** A chip has an isa-set exactly when its line names it, or some ALL_OF or COMMON_SUBSET word
      brings it in and no NOT word takes it out again. */
  lemma ExpansionIs(d: Hierarchy, c: string, x: string)
    requires Defined(d, c)
    ensures x in Expansion(d, c) <==>
      || Plain(x) in d.chips[c]
      || (Not(x) !in d.chips[c] && (Inherits(d, c, x) || Shares(d, c, x)))
    ensures Inherits(d, c, x) <==> exists s :: AllOf(s) in d.chips[c] && Defined(d, s) && x in Expansion(d, s)
    ensures Shares(d, c, x) <==>
      exists a, b :: CommonSubset(a, b) in d.chips[c] && Defined(d, a) && Defined(d, b)
        && x in Expansion(d, a) && x in Expansion(d, b)
  {
    AllOfsInherit(d, c, x);
    CommonsShare(d, c, x);
    InWords(d.chips[c], x);
  }

  /** A chip is defined when it has a line and every chip that its words name is defined. */
  lemma DefinedIs(d: Hierarchy, c: string)
    ensures Defined(d, c) <==>
      && c in d.chips
      && (forall s :: AllOf(s) in d.chips[c] ==> Defined(d, s))
      && (forall a, b :: CommonSubset(a, b) in d.chips[c] ==> Defined(d, a) && Defined(d, b))
  {
    if Defined(d, c) {
      forall s | AllOf(s) in d.chips[c] ensures Defined(d, s) {
        assert s in Refs(AllOf(s));
      }
      forall a, b | CommonSubset(a, b) in d.chips[c] ensures Defined(d, a) && Defined(d, b) {
        assert a in Refs(CommonSubset(a, b)) && b in Refs(CommonSubset(a, b));
      }
    }
  }

  lemma InWords(ts: seq<Token>, x: string)
    ensures x in Plains(ts) <==> Plain(x) in ts
    ensures x in Nots(ts) <==> Not(x) in ts
  {
    if x in Plains(ts) {
      var t :| t in ts && t.Plain? && t.name == x;
      assert t == Plain(x);
    }
    if x in Nots(ts) {
      var t :| t in ts && t.Not? && t.name == x;
      assert t == Not(x);
    }
  }

  lemma InAllOfs(e: map<string, set<string>>, ts: seq<Token>, x: string)
    ensures x in AllOfs(e, ts) <==> exists s :: AllOf(s) in ts && s in e && x in e[s]
  {
    if x in AllOfs(e, ts) {
      var t :| t in ts && t.AllOf? && t.chip in e && x in e[t.chip];
      assert AllOf(t.chip) in ts;
    }
  }

  lemma InCommons(e: map<string, set<string>>, ts: seq<Token>, x: string)
    ensures x in Commons(e, ts) <==>
      exists a, b :: CommonSubset(a, b) in ts && a in e && b in e && x in e[a] && x in e[b]
  {
    if x in Commons(e, ts) {
      var t :| t in ts && t.CommonSubset? && t.first in e && t.second in e && x in e[t.first] * e[t.second];
      assert CommonSubset(t.first, t.second) in ts;
    }
    if a, b :| CommonSubset(a, b) in ts && a in e && b in e && x in e[a] && x in e[b] {
      assert x in e[a] * e[b];
    }
  }

  ghost predicate SameOn(e: map<string, set<string>>, f: map<string, set<string>>, t: Token) {
    forall r :: r in Refs(t) ==> r in e && r in f && e[r] == f[r]
  }

  lemma RefsAgreeAt(d: Hierarchy, e: Hierarchy, c: string, t: Token)
    requires d.chips == e.chips && Defined(d, c) && Defined(e, c) && t in d.chips[c]
    requires forall r :: r in Refs(t) && Defined(d, r) && Defined(e, r) ==>
               Expansion(d, r) == Expansion(e, r)
    ensures SameOn(Below(d, c), Below(e, c), t)
  {
    forall r | r in Refs(t)
      ensures r in Below(d, c) && r in Below(e, c) && Below(d, c)[r] == Below(e, c)[r]
    {
      RefIsBelow(d, c, t, r);
      RefIsBelow(e, c, t, r);
    }
  }

  lemma RefsAgree(d: Hierarchy, e: Hierarchy, c: string)
    requires d.chips == e.chips && Defined(d, c) && Defined(e, c)
    requires forall t, r :: t in d.chips[c] && r in Refs(t) && Defined(d, r) && Defined(e, r) ==>
               Expansion(d, r) == Expansion(e, r)
    ensures Expansion(d, c) == Expansion(e, c)
  {
    forall t | t in d.chips[c] ensures SameOn(Below(d, c), Below(e, c), t) {
      RefsAgreeAt(d, e, c, t);
    }
    Agree(Below(d, c), Below(e, c), d.chips[c]);
  }

  lemma {:induction false} DefinedIsUnique(d: Hierarchy, e: Hierarchy, c: string)
    requires d.chips == e.chips && Defined(d, c)
    ensures Defined(e, c)
    decreases d.rank(c)
  {
    forall t, r | t in d.chips[c] && r in Refs(t) ensures Defined(e, r) {
      DefinedIsUnique(d, e, r);
    }
  }

  /** The isa-sets do not depend on how the lack of cycles is witnessed. */
  lemma {:induction false} ExpansionIsUnique(d: Hierarchy, e: Hierarchy, c: string)
    requires d.chips == e.chips && Defined(d, c)
    ensures Defined(e, c) && Expansion(d, c) == Expansion(e, c)
    decreases d.rank(c)
  {
    DefinedIsUnique(d, e, c);
    forall t, r | t in d.chips[c] && r in Refs(t) && Defined(d, r) && Defined(e, r)
      ensures Expansion(d, r) == Expansion(e, r)
    {
      ExpansionIsUnique(d, e, r);
    }
    RefsAgree(d, e, c);
  }

  lemma Agree(e: map<string, set<string>>, f: map<string, set<string>>, ts: seq<Token>)
    requires forall t :: t in ts ==> SameOn(e, f, t)
    ensures Combine(e, ts) == Combine(f, ts)
  {
    forall t | t in ts
      ensures t.AllOf? ==> t.chip in e && t.chip in f && e[t.chip] == f[t.chip]
      ensures t.CommonSubset? ==> t.first in e && t.first in f && e[t.first] == f[t.first]
      ensures t.CommonSubset? ==> t.second in e && t.second in f && e[t.second] == f[t.second]
    {
      assert SameOn(e, f, t);
    }
    assert AllOfs(e, ts) == AllOfs(f, ts);
    assert Commons(e, ts) == Commons(f, ts);
  }

  /** No operators are left, nothing is listed twice, and the words are those of s. */
  ghost predicate Expanded(ts: seq<Token>, s: set<string>) {
    && (forall i :: 0 <= i < |ts| ==> ts[i].Plain?)
    && (forall i, j :: 0 <= i < j < |ts| ==> ts[i] != ts[j])
    && Plains(ts) == s
  }

  ghost predicate AllExpanded(d: Chips) {
    forall c :: c in d ==> Expanded(d[c], Plains(d[c]))
  }

  /** Expanding once more changes nothing: a table without operators is its own expansion. */
  lemma ExpansionIsIdempotent(d: Chips, rank: string -> nat, c: string)
    requires AllExpanded(d) && c in d
    ensures Acyclic(d, rank)
    ensures var h := Ranked(d, rank); Defined(h, c) && Expansion(h, c) == Plains(d[c])
  {
    NoRefs(d);
    PlainCombines(Below(Ranked(d, rank), c), d[c]);
  }

  lemma NoRefs(d: Chips)
    requires AllExpanded(d)
    ensures forall c, t :: c in d && t in d[c] ==> t.Plain? && Refs(t) == {}
  {
    forall c, t | c in d && t in d[c] ensures t.Plain? {
      assert Expanded(d[c], Plains(d[c]));
    }
  }

  lemma PlainCombines(e: map<string, set<string>>, ts: seq<Token>)
    requires forall i :: 0 <= i < |ts| ==> ts[i].Plain?
    ensures Combine(e, ts) == Plains(ts)
  {
    assert AllOfs(e, ts) == {} && Commons(e, ts) == {};
  }
}

/** The expansion of the chip table in place, and the feature words made from it
    (pysrc/chipmodel.py). */
module ChipModel {
  import opened ChipSpec
  import opened Wrappers

  ghost predicate AllPlain(ts: seq<Token>) {
    forall i :: 0 <= i < |ts| ==> ts[i].Plain?
  }

  lemma PlainsConcat(a: seq<Token>, b: seq<Token>)
    ensures Plains(a + b) == Plains(a) + Plains(b)
  {
    assert forall t :: t in a + b <==> t in a || t in b;
  }

  lemma CombineStep(e: map<string, set<string>>, ts: seq<Token>, i: nat)
    requires i < |ts|
    ensures AllOfs(e, ts[..i + 1]) == AllOfs(e, ts[..i]) + AllOfs(e, [ts[i]])
    ensures Commons(e, ts[..i + 1]) == Commons(e, ts[..i]) + Commons(e, [ts[i]])
    ensures Nots(ts[..i + 1]) == Nots(ts[..i]) + Nots([ts[i]])
    ensures Plains(ts[..i + 1]) == Plains(ts[..i]) + Plains([ts[i]])
  {
    assert ts[..i + 1] == ts[..i] + [ts[i]];
  }

  /** list(s) of a Python set: every element once, in no particular order. */
  method ToList(s: set<string>) returns (ts: seq<Token>)
    ensures AllPlain(ts) && Plains(ts) == s
  {
    ts := [];
    var rest := s;
    while rest != {}
      invariant rest <= s && AllPlain(ts) && Plains(ts) == s - rest
      decreases rest
    {
      var x :| x in rest;
      PlainsConcat(ts, [Plain(x)]);
      ts, rest := ts + [Plain(x)], rest - {x};
    }
  }

  /** The while loop that removes every occurrence of a name. */
  method RemoveAll(ts: seq<Token>, name: string) returns (r: seq<Token>)
    requires AllPlain(ts)
    ensures AllPlain(r) && Plains(r) == Plains(ts) - {name}
  {
    r := ts;
    while Plain(name) in r
      invariant AllPlain(r) && Plains(r) - {name} == Plains(ts) - {name}
      decreases |r|
    {
      var k := 0;
      while r[k] != Plain(name)
        invariant k < |r| && Plain(name) in r[k..]
        decreases |r| - k
      {
        k := k + 1;
      }
      assert r == r[..k] + [r[k]] + r[k + 1..];
      PlainsConcat(r[..k] + [r[k]], r[k + 1..]);
      PlainsConcat(r[..k], [r[k]]);
      PlainsConcat(r[..k], r[k + 1..]);
      r := r[..k] + r[k + 1..];
    }
    InWords(r, name);
  }

  /** uniquify_list: the first occurrence of everything, in order. */
  method Uniquify(ts: seq<Token>) returns (r: seq<Token>)
    requires AllPlain(ts)
    ensures Expanded(r, Plains(ts))
  {
    r := [];
    for i := 0 to |ts|
      invariant Expanded(r, Plains(ts[..i])) && forall t :: t in r <==> t in ts[..i]
    {
      assert ts[..i + 1] == ts[..i] + [ts[i]];
      PlainsConcat(ts[..i], [ts[i]]);
      PlainsConcat(r, [ts[i]]);
      if ts[i] !in r {
        r := r + [ts[i]];
      }
    }
    assert ts[..|ts|] == ts;
  }

  /** The NOT loop of expand_chip. */
  method RemoveNots(ts: seq<Token>, ext: seq<Token>) returns (r: seq<Token>)
    requires AllPlain(ext)
    ensures AllPlain(r) && Plains(r) == Plains(ext) - Nots(ts)
  {
    r := ext;
    for i := 0 to |ts|
      invariant AllPlain(r) && Plains(r) == Plains(ext) - Nots(ts[..i])
    {
      CombineStep(map[], ts, i);
      if ts[i].Not? {
        r := RemoveAll(r, ts[i].name);
        assert Nots([ts[i]]) == {ts[i].name};
      }
    }
    assert ts[..|ts|] == ts;
  }

  /** The loop that adds the chip's own words. */
  method AddPlains(ts: seq<Token>, ext: seq<Token>) returns (r: seq<Token>)
    requires AllPlain(ext)
    ensures AllPlain(r) && Plains(r) == Plains(ext) + Plains(ts)
  {
    r := ext;
    for i := 0 to |ts|
      invariant AllPlain(r) && Plains(r) == Plains(ext) + Plains(ts[..i])
    {
      CombineStep(map[], ts, i);
      if ts[i].Plain? {
        PlainsConcat(r, [ts[i]]);
        r := r + [ts[i]];
      }
    }
    assert ts[..|ts|] == ts;
  }

  /** The rest of expand_chip: the chip's own words against what came in. */
  method OwnWords(ts: seq<Token>, ext: seq<Token>) returns (r: seq<Token>)
    requires AllPlain(ext)
    ensures Expanded(r, (Plains(ext) - Nots(ts)) + Plains(ts))
  {
    r := RemoveNots(ts, ext);
    r := AddPlains(ts, r);
    r := Uniquify(r);
  }

  /** A step of the expansion only ever replaces a chip's line by what the chip stands for. */
  ghost predicate Moved(original: Hierarchy, before: Chips, after: Chips) {
    before.Keys == after.Keys == original.chips.Keys
    && forall c :: c in original.chips ==> LineMoved(original, c, before[c], after[c])
  }

  ghost predicate LineMoved(original: Hierarchy, c: string, was: seq<Token>, now: seq<Token>) {
    was == now || (Defined(original, c) && Expanded(now, Expansion(original, c)))
  }

  /** Moved, and only below a rank. */
  ghost predicate MovedBelow(original: Hierarchy, before: Chips, after: Chips, limit: nat) {
    Moved(original, before, after)
    && forall b :: b in original.chips && original.rank(b) >= limit ==> after[b] == before[b]
  }

  lemma LineIs(original: Hierarchy, d: Chips, c: string)
    requires Moved(original, original.chips, d) && c in original.chips
    ensures forall i, r :: 0 <= i < |d[c]| && r in Refs(d[c][i]) ==>
      original.rank(r) < original.rank(c) && d[c] == original.chips[c]
  {
    assert LineMoved(original, c, original.chips[c], d[c]);
    if d[c] == original.chips[c] {
      assert forall i :: 0 <= i < |d[c]| ==> d[c][i] in original.chips[c];
    } else {
      ExpandedRefersToNone(d[c], Expansion(original, c));
    }
  }

  lemma ExpandedRefersToNone(ts: seq<Token>, s: set<string>)
    requires Expanded(ts, s)
    ensures forall i :: 0 <= i < |ts| ==> Refs(ts[i]) == {}
  {
  }

  /** With the chips it refers to known, a line stands for what the chip stands for, whether or not
      it has been replaced before. */
  lemma LineMeans(original: Hierarchy, d: Chips, c: string)
    requires Moved(original, original.chips, d) && c in original.chips
    ensures RefsDefined(original, d[c]) <==> Defined(original, c)
    ensures RefsDefined(original, d[c]) ==> Combine(Below(original, c), d[c]) == Expansion(original, c)
  {
    if d[c] == original.chips[c] {
      LineRefers(original, c);
    } else {
      assert LineMoved(original, c, original.chips[c], d[c]);
      PlainCombines(Below(original, c), d[c]);
    }
  }

  lemma LineRefers(original: Hierarchy, c: string)
    requires c in original.chips
    ensures RefsDefined(original, original.chips[c]) <==> Defined(original, c)
  {
    var ts := original.chips[c];
    if RefsDefined(original, ts) {
      forall t, r | t in ts && r in Refs(t) ensures Defined(original, r) {
        var i :| 0 <= i < |ts| && ts[i] == t;
        assert r in Refs(ts[i]);
      }
    }
  }

  /** What is known of a word's references in the terms of the two loops. */
  lemma RefsOfWord(original: Hierarchy, t: Token)
    ensures (forall r :: r in Refs(t) ==> Defined(original, r)) <==>
      (t.AllOf? ==> Defined(original, t.chip)) && BothDefined(original, t)
  {
    match t {
      case AllOf(c) => assert c in Refs(t);
      case CommonSubset(a, b) => assert a in Refs(t) && b in Refs(t);
      case _ =>
    }
  }

  /** Every reference of the words has a definition. */
  ghost predicate RefsDefined(original: Hierarchy, ts: seq<Token>) {
    forall i, r :: 0 <= i < |ts| && r in Refs(ts[i]) ==> Defined(original, r)
  }

  ghost predicate AllBothDefined(original: Hierarchy, ts: seq<Token>) {
    forall i :: 0 <= i < |ts| ==> BothDefined(original, ts[i])
  }

  lemma BothDefinedStep(original: Hierarchy, ts: seq<Token>, i: nat)
    requires i < |ts|
    ensures AllBothDefined(original, ts[..i + 1]) <==> AllBothDefined(original, ts[..i]) && BothDefined(original, ts[i])
    ensures AllBothDefined(original, ts) ==> AllBothDefined(original, ts[..i + 1])
  {
    assert forall j :: 0 <= j < i ==> ts[..i + 1][j] == ts[..i][j];
    assert ts[..i + 1][i] == ts[i];
  }

  lemma RefsOfWords(original: Hierarchy, ts: seq<Token>)
    ensures RefsDefined(original, ts) <==>
      && (forall i :: 0 <= i < |ts| && ts[i].AllOf? ==> Defined(original, ts[i].chip))
      && AllBothDefined(original, ts)
  {
    forall i | 0 <= i < |ts|
      ensures (forall r :: r in Refs(ts[i]) ==> Defined(original, r)) <==>
        (ts[i].AllOf? ==> Defined(original, ts[i].chip)) && BothDefined(original, ts[i])
    {
      RefsOfWord(original, ts[i]);
    }
  }

  lemma AllOfMeans(original: Hierarchy, c: string, t: Token)
    requires forall r :: r in Refs(t) ==> original.rank(r) < original.rank(c)
    ensures AllOfs(Below(original, c), [t]) ==
      if t.AllOf? && Defined(original, t.chip) then Expansion(original, t.chip) else {}
  {
    if t.AllOf? {
      assert t.chip in Refs(t);
      InBelow(original, c, t.chip);
    }
    OneWord(Below(original, c), t);
  }

  lemma InBelow(original: Hierarchy, c: string, r: string)
    requires original.rank(r) < original.rank(c)
    ensures r in Below(original, c) <==> Defined(original, r)
    ensures Defined(original, r) ==> Below(original, c)[r] == Expansion(original, r)
  {
  }

  lemma OneWord(e: map<string, set<string>>, t: Token)
    ensures AllOfs(e, [t]) == if t.AllOf? && t.chip in e then e[t.chip] else {}
    ensures Commons(e, [t]) ==
      if t.CommonSubset? && t.first in e && t.second in e then e[t.first] * e[t.second] else {}
  {
  }

  ghost predicate BothDefined(original: Hierarchy, t: Token) {
    t.CommonSubset? ==> Defined(original, t.first) && Defined(original, t.second)
  }

  lemma CommonMeans(original: Hierarchy, c: string, t: Token)
    requires forall r :: r in Refs(t) ==> original.rank(r) < original.rank(c)
    ensures Commons(Below(original, c), [t]) ==
      if t.CommonSubset? && Defined(original, t.first) && Defined(original, t.second)
      then Expansion(original, t.first) * Expansion(original, t.second) else {}
  {
    if t.CommonSubset? {
      assert t.first in Refs(t) && t.second in Refs(t);
      InBelow(original, c, t.first);
      InBelow(original, c, t.second);
    }
    OneWord(Below(original, c), t);
  }

  lemma LineReplaced(original: Hierarchy, before: Chips, d: Chips, c: string, ts: seq<Token>)
    requires c in original.chips && Moved(original, before, d) && d[c] == before[c]
    requires Defined(original, c) && Expanded(ts, Expansion(original, c))
    ensures Moved(original, before, d[c := ts])
  {
    var after := d[c := ts];
    forall b | b in original.chips ensures LineMoved(original, b, before[b], after[b]) {
      if b == c {
        LineSettled(original, c, before[c], ts);
      } else {
        assert LineMoved(original, b, before[b], d[b]);
      }
    }
  }

  lemma LineSettled(original: Hierarchy, c: string, was: seq<Token>, ts: seq<Token>)
    requires Defined(original, c) && Expanded(ts, Expansion(original, c))
    ensures LineMoved(original, c, was, ts)
  {
  }

  lemma MovedTwice(original: Hierarchy, a: Chips, b: Chips, e: Chips)
    requires Moved(original, a, b) && Moved(original, b, e)
    ensures Moved(original, a, e)
  {
    forall c | c in original.chips ensures LineMoved(original, c, a[c], e[c]) {
      assert b[c] == e[c] || a[c] == b[c] || LineMoved(original, c, b[c], e[c]);
    }
  }

  /** These chips' lines are expanded. */
  ghost predicate AllDone(original: Hierarchy, d: Chips, chips: seq<string>) {
    forall j :: 0 <= j < |chips| ==> DoneIn(original, d, chips[j])
  }

  ghost predicate DoneIn(original: Hierarchy, d: Chips, c: string) {
    c in original.chips && c in d && Defined(original, c) && Expanded(d[c], Expansion(original, c))
  }

  lemma DoneStays(original: Hierarchy, before: Chips, after: Chips, c: string)
    requires Moved(original, before, after)
    ensures DoneIn(original, before, c) ==> DoneIn(original, after, c)
  {
    if DoneIn(original, before, c) {
      assert LineMoved(original, c, before[c], after[c]);
    }
  }

  lemma DoneGrows(original: Hierarchy, before: Chips, after: Chips, chips: seq<string>, i: nat)
    requires i < |chips| && Moved(original, before, after)
    requires AllDone(original, before, chips[..i]) && DoneIn(original, after, chips[i])
    ensures AllDone(original, after, chips[..i + 1])
  {
    forall j | 0 <= j < i ensures DoneIn(original, after, chips[j]) {
      assert chips[..i][j] == chips[j];
      DoneStays(original, before, after, chips[j]);
    }
  }

  class ChipModel {
    var d: Chips
    ghost const original: Hierarchy

    ghost predicate Valid()
      reads this
    {
      Moved(original, original.chips, d)
    }

    constructor (d: Chips, ghost rank: string -> nat)
      requires Acyclic(d, rank)
      ensures Valid() && this.d == d && original == Ranked(d, rank)
    {
      this.d := d;
      original := Ranked(d, rank);
    }

    ghost predicate Done(c: string)
      reads this
      requires Valid()
    {
      DoneIn(original, d, c)
    }

    /** What one word of the chip's line brings in when it is an ALL_OF; false stands for a KeyError. */
    method AllOfWord(c: string, t: Token) returns (ok: bool, more: seq<Token>)
      requires Valid() && forall r :: r in Refs(t) ==> original.rank(r) < original.rank(c)
      modifies this
      ensures Valid() && MovedBelow(original, old(d), d, original.rank(c))
      ensures ok <==> (t.AllOf? ==> Defined(original, t.chip))
      ensures ok ==> AllPlain(more) && Plains(more) == AllOfs(Below(original, c), [t])
      decreases original.rank(c), 0
    {
      AllOfMeans(original, c, t);
      ok, more := true, [];
      if t.AllOf? {
        assert t.chip in Refs(t);
        ok := ExpandChip(t.chip);
        if ok {
          more := d[t.chip];
        }
      }
    }

    /** The ALL_OF loop of expand_chip over the chip's words. */
    method ExpandAllOf(c: string, ts: seq<Token>) returns (ok: bool, ext: seq<Token>)
      requires Valid() && forall i, r :: 0 <= i < |ts| && r in Refs(ts[i]) ==> original.rank(r) < original.rank(c)
      modifies this
      ensures Valid() && MovedBelow(original, old(d), d, original.rank(c))
      ensures ok <==> forall i :: 0 <= i < |ts| && ts[i].AllOf? ==> Defined(original, ts[i].chip)
      ensures ok ==> AllPlain(ext) && Plains(ext) == AllOfs(Below(original, c), ts)
      decreases original.rank(c), 1
    {
      ok, ext := true, [];
      for i := 0 to |ts|
        invariant Valid() && MovedBelow(original, old(d), d, original.rank(c))
        invariant AllPlain(ext) && Plains(ext) == AllOfs(Below(original, c), ts[..i])
        invariant ok && forall j :: 0 <= j < i && ts[j].AllOf? ==> Defined(original, ts[j].chip)
      {
        var more;
        ok, more := AllOfWord(c, ts[i]);
        if !ok {
          return;
        }
        CombineStep(Below(original, c), ts, i);
        PlainsConcat(ext, more);
        ext := ext + more;
      }
      assert ts[..|ts|] == ts;
    }

    /** The common part of two chips. */
    method CommonOf(c: string, a: string, b: string) returns (ok: bool, more: seq<Token>)
      requires Valid() && original.rank(a) < original.rank(c) && original.rank(b) < original.rank(c)
      modifies this
      ensures Valid() && MovedBelow(original, old(d), d, original.rank(c))
      ensures ok <==> Defined(original, a) && Defined(original, b)
      ensures ok ==> AllPlain(more)
      ensures ok ==> Plains(more) == Expansion(original, a) * Expansion(original, b)
      decreases original.rank(c), 0
    {
      more := [];
      ok := ExpandChip(a);
      if !ok {
        return;
      }
      ok := ExpandChip(b);
      if !ok {
        return;
      }
      more := ToList(Plains(d[a]) * Plains(d[b]));
    }

    /** What one word brings in when it is a COMMON_SUBSET. */
    method CommonWord(c: string, t: Token) returns (ok: bool, more: seq<Token>)
      requires Valid() && forall r :: r in Refs(t) ==> original.rank(r) < original.rank(c)
      modifies this
      ensures Valid() && MovedBelow(original, old(d), d, original.rank(c))
      ensures ok <==> BothDefined(original, t)
      ensures ok ==> AllPlain(more) && Plains(more) == Commons(Below(original, c), [t])
      decreases original.rank(c), 1
    {
      CommonMeans(original, c, t);
      ok, more := true, [];
      if t.CommonSubset? {
        assert t.first in Refs(t) && t.second in Refs(t);
        ok, more := CommonOf(c, t.first, t.second);
      }
    }

    /** The COMMON_SUBSET loop. */
    method ExpandCommon(c: string, ts: seq<Token>) returns (ok: bool, ext: seq<Token>)
      requires Valid() && forall i, r :: 0 <= i < |ts| && r in Refs(ts[i]) ==> original.rank(r) < original.rank(c)
      modifies this
      ensures Valid() && MovedBelow(original, old(d), d, original.rank(c))
      ensures ok <==> AllBothDefined(original, ts)
      ensures ok ==> AllPlain(ext) && Plains(ext) == Commons(Below(original, c), ts)
      decreases original.rank(c), 2
    {
      ok, ext := true, [];
      for i := 0 to |ts|
        invariant Valid() && MovedBelow(original, old(d), d, original.rank(c))
        invariant AllPlain(ext) && Plains(ext) == Commons(Below(original, c), ts[..i])
        invariant ok && AllBothDefined(original, ts[..i])
      {
        BothDefinedStep(original, ts, i);
        var more;
        ok, more := CommonWord(c, ts[i]);
        if !ok {
          return;
        }
        CombineStep(Below(original, c), ts, i);
        PlainsConcat(ext, more);
        ext := ext + more;
      }
      assert ts[..|ts|] == ts;
    }

    /** What comes in from other chips: the two loops of expand_chip that expand them. */
    method Incoming(c: string, ts: seq<Token>) returns (ok: bool, ext: seq<Token>)
      requires Valid() && forall i, r :: 0 <= i < |ts| && r in Refs(ts[i]) ==> original.rank(r) < original.rank(c)
      modifies this
      ensures Valid() && MovedBelow(original, old(d), d, original.rank(c))
      ensures ok <==> RefsDefined(original, ts)
      ensures ok ==> AllPlain(ext)
      ensures ok ==> Plains(ext) == AllOfs(Below(original, c), ts) + Commons(Below(original, c), ts)
      decreases original.rank(c), 3
    {
      RefsOfWords(original, ts);
      var more;
      ok, ext := ExpandAllOf(c, ts);
      if !ok {
        return;
      }
      ok, more := ExpandCommon(c, ts);
      if !ok {
        return;
      }
      PlainsConcat(ext, more);
      ext := ext + more;
    }

    /** expand_chip */
    method ExpandChip(c: string) returns (ok: bool)
      requires Valid()
      modifies this
      ensures Valid() && Moved(original, old(d), d)
      ensures forall b :: b in original.chips && original.rank(b) >= original.rank(c) && b != c ==> d[b] == old(d)[b]
      ensures ok <==> Defined(original, c)
      ensures ok ==> Done(c)
      decreases original.rank(c), 4
    {
      if c !in d {
        return false;
      }
      var ts := d[c];
      LineIs(original, d, c);
      var ext;
      ok, ext := Incoming(c, ts);
      LineMeans(original, d, c);
      if ok {
        ext := OwnWords(ts, ext);
        LineReplaced(original, old(d), d, c, ext);
        ReplaceLine(c, ext);
      }
    }

    /** d[chip] = ... */
    method ReplaceLine(c: string, ts: seq<Token>)
      requires Valid() && Defined(original, c) && Expanded(ts, Expansion(original, c))
      modifies this
      ensures Valid() && d == old(d)[c := ts] && Done(c)
    {
      LineReplaced(original, d, d, c, ts);
      MovedTwice(original, original.chips, d, d[c := ts]);
      d := d[c := ts];
    }

    /** The chip's line has plain words only, each once, and those of its isa-sets. */
    ghost predicate IsExpanded(c: string)
      reads this
    {
      && c in d && Defined(original, c)
      && (forall i :: 0 <= i < |d[c]| ==> d[c][i].Plain? && d[c][i].name in Expansion(original, c))
      && (forall i, j :: 0 <= i < j < |d[c]| ==> d[c][i] != d[c][j])
      && forall x :: x in Expansion(original, c) ==> Plain(x) in d[c]
    }

    lemma DoneIsExpanded(c: string)
      requires Valid() && Done(c)
      ensures IsExpanded(c)
    {
      forall i | 0 <= i < |d[c]| ensures d[c][i].Plain? && d[c][i].name in Expansion(original, c) {
        InWords(d[c], d[c][i].name);
        assert d[c][i] in d[c];
      }
      forall x | x in Expansion(original, c) ensures Plain(x) in d[c] {
        InWords(d[c], x);
      }
    }

    /** recursive_expand, with the keys of the table in some order */
    method RecursiveExpand(order: seq<string>) returns (ok: bool)
      requires Valid() && forall c :: c in order <==> c in d
      modifies this
      ensures Valid() && Moved(original, old(d), d)
      ensures ok <==> forall c :: c in original.chips ==> Defined(original, c)
      ensures ok ==> forall c :: c in original.chips ==> Done(c)
      ensures ok ==> d.Keys == original.chips.Keys
      ensures ok ==> forall c :: c in d ==> IsExpanded(c)
    {
      ok := true;
      for i := 0 to |order|
        invariant Valid() && Moved(original, old(d), d)
        invariant AllDone(original, d, order[..i])
      {
        ghost var before := d;
        ok := ExpandChip(order[i]);
        if !ok {
          return;
        }
        MovedTwice(original, old(d), before, d);
        DoneGrows(original, before, d, order, i);
      }
      assert order[..|order|] == order;
      forall c | c in d ensures IsExpanded(c) {
        DoneIsExpanded(c);
      }
    }
  }

  // ----- Feature words -----

  const WORDS: nat := 7

  /** list.index, or its failure */
  method IndexOf(names: seq<string>, f: string) returns (index: nat)
    ensures index <= |names| && f !in names[..index]
    ensures index < |names| ==> names[index] == f
  {
    index := 0;
    while index < |names| && names[index] != f
      invariant index <= |names| && f !in names[..index]
    {
      index := index + 1;
    }
  }

  /** Where the isa-set has its bit: its first position in the list of all isa-sets. */
  ghost predicate IsPosition(isaSet: seq<string>, b: nat, f: string) {
    b < |isaSet| && isaSet[b] == f && f !in isaSet[..b]
  }

  /** The word and the shift of a bit hold it exactly when one of the features sits there. */
  ghost predicate Packs(words: seq<seq<nat>>, isaSet: seq<string>, features: seq<string>) {
    && |words| == WORDS
    && (forall k, j :: 0 <= k < WORDS && 0 <= j < |words[k]| ==> words[k][j] < 64)
    && forall k, i :: 0 <= k < WORDS && 0 <= i < 64 ==>
         (i in words[k] <==> exists f :: f in features && IsPosition(isaSet, 64 * k + i, f))
  }

  lemma PacksOneMore(words: seq<seq<nat>>, isaSet: seq<string>, features: seq<string>, f: string, b: nat)
    requires Packs(words, isaSet, features) && IsPosition(isaSet, b, f) && b < 64 * WORDS
    ensures Packs(words[b / 64 := words[b / 64] + [b % 64]], isaSet, features + [f])
  {
    var more := words[b / 64 := words[b / 64] + [b % 64]];
    forall k, i | 0 <= k < WORDS && 0 <= i < 64
      ensures i in more[k] <==> exists g :: g in features + [f] && IsPosition(isaSet, 64 * k + i, g)
    {
      assert i in more[k] <==> i in words[k] || (k == b / 64 && i == b % 64);
      if 64 * k + i == b {
        assert f in features + [f] && IsPosition(isaSet, 64 * k + i, f);
      } else {
        assert !IsPosition(isaSet, 64 * k + i, f);
        assert forall g :: g in features ==> g in features + [f];
      }
    }
  }

  /** The loop of work over the features of a chip: the shifts that go into each of its words.
      None stands for genutil.die. */
  method FeatureWords(features: seq<string>, isaSet: seq<string>) returns (r: Option<seq<seq<nat>>>)
    ensures r.Some? <==> forall f :: f in features ==> exists b :: 0 <= b < 64 * WORDS && IsPosition(isaSet, b, f)
    ensures r.Some? ==> Packs(r.value, isaSet, features)
    ensures r.Some? <==> forall f :: f in features ==> exists b :: 0 <= b < 448 && b < |isaSet| && isaSet[b] == f
    ensures r.Some? ==> |r.value| == 7
    ensures r.Some? ==> forall k, i :: 0 <= k < 7 && 0 <= i < 64 ==>
      (i in r.value[k] <==>
        var b := 64 * k + i; b < |isaSet| && isaSet[b] in features && isaSet[b] !in isaSet[..b])
    ensures r.Some? ==> forall k, i :: 0 <= k < 7 && i in r.value[k] ==> i < 64
  {
    r := PackFeatures(features, isaSet);
    forall f | f in features
      ensures (exists b :: 0 <= b < 448 && b < |isaSet| && isaSet[b] == f) <==>
        exists b :: 0 <= b < 64 * WORDS && IsPosition(isaSet, b, f)
    {
      FirstPosition(isaSet, f);
    }
  }

  lemma FirstPosition(isaSet: seq<string>, f: string)
    ensures (exists b :: 0 <= b < 448 && b < |isaSet| && isaSet[b] == f) <==>
      exists b :: 0 <= b < 64 * WORDS && IsPosition(isaSet, b, f)
  {
    if b :| 0 <= b < 448 && b < |isaSet| && isaSet[b] == f {
      var k := 0;
      while isaSet[k] != f
        invariant k <= b && f !in isaSet[..k]
        decreases b - k
      {
        k := k + 1;
      }
      assert IsPosition(isaSet, k, f);
    }
  }

  method PackFeatures(features: seq<string>, isaSet: seq<string>) returns (r: Option<seq<seq<nat>>>)
    ensures r.Some? <==> forall f :: f in features ==> exists b :: 0 <= b < 64 * WORDS && IsPosition(isaSet, b, f)
    ensures r.Some? ==> Packs(r.value, isaSet, features)
  {
    var words: seq<seq<nat>> := seq(WORDS, _ => []);
    for i := 0 to |features|
      invariant Packs(words, isaSet, features[..i])
      invariant forall f :: f in features[..i] ==> exists b :: 0 <= b < 64 * WORDS && IsPosition(isaSet, b, f)
    {
      var index := IndexOf(isaSet, features[i]);
      if index >= |isaSet| || index >= 64 * WORDS {
        NoOtherPosition(isaSet, features[i], index);
        assert features[i] in features;
        return None;
      }
      assert IsPosition(isaSet, index, features[i]);
      PacksOneMore(words, isaSet, features[..i], features[i], index);
      assert features[..i + 1] == features[..i] + [features[i]];
      words := words[index / 64 := words[index / 64] + [index % 64]];
    }
    assert features[..|features|] == features;
    return Some(words);
  }

  lemma NoOtherPosition(isaSet: seq<string>, f: string, index: nat)
    requires index <= |isaSet| && f !in isaSet[..index] && (index < |isaSet| ==> isaSet[index] == f)
    ensures forall b :: 0 <= b < index ==> !IsPosition(isaSet, b, f)
    ensures index == |isaSet| ==> forall b :: 0 <= b ==> !IsPosition(isaSet, b, f)
    ensures forall b :: index < b ==> !IsPosition(isaSet, b, f)
  {
  }
}
