/** The enumerations of pysrc/enumer.py: which values the generator expects, which values a C compiler
    gives, and what the emitted converters return. */
module EnumSpec {
  import opened Numerals
  import opened Wrappers

  /** A name with the text shown for it and the text of its value, if one was given. */
  datatype Value = Value(name: string, display: string, text: Option<string>)

  // ----- Numbers as the generator and as C read them -----

  predicate IsHex(s: string) {
    |s| > 2 && s[..2] == "0x" && forall i :: 2 <= i < |s| ==> IsHexDigit(s[i])
  }

  predicate IsDecimal(s: string) {
    forall i :: 0 <= i < |s| ==> IsDigit(s[i])
  }

  /** _make_number: a number, no number, or an exception from int() */
  datatype Reading = Reads(value: nat) | NoNumber | Raises

  function MakeNumber(s: string): Reading {
    if |s| >= 2 && s[..2] == "0x" then
      if IsHex(s) then Reads(Number(s[2..], 16)) else Raises
    else if IsDecimal(s) then
      if s == "" then Raises else Reads(Number(s, 10))
    else NoNumber
  }

  /** The value of an integer constant in C: a leading zero makes it octal. */
  function CConstant(s: string): Option<nat> {
    if IsHex(s) then Some(Number(s[2..], 16))
    else if s == "" || !IsDecimal(s) then None
    else if s[0] != '0' then Some(Number(s, 10))
    else if forall i :: 0 <= i < |s| ==> s[i] <= '7' then Some(Number(s, 8))
    else None
  }

  /** The texts that the two read differently: decimals of 8 or more behind a leading zero. */
  predicate Misread(s: string) {
    s != "" && s[0] == '0' && IsDecimal(s) && Number(s, 10) >= 8
  }

  lemma {:induction false} OctalIsSmaller(s: string)
    requires IsDecimal(s)
    ensures Number(s, 8) <= Number(s, 10)
    ensures Number(s, 10) >= 8 && (forall i :: 0 <= i < |s| ==> s[i] <= '7') ==> Number(s, 8) < Number(s, 10)
    ensures Number(s, 10) < 8 ==> Number(s, 8) == Number(s, 10) && forall i :: 0 <= i < |s| ==> s[i] <= '7'
    decreases |s|
  {
    if s != [] {
      var before := s[..|s| - 1];
      OctalIsSmaller(before);
      assert s == before + [s[|s| - 1]];
    }
  }

  /** Python and C agree on a number exactly when it is not misread. */
  lemma ReadingsAgree(s: string)
    requires MakeNumber(s).Reads?
    ensures CConstant(s) == Some(MakeNumber(s).value) <==> !Misread(s)
    ensures Misread(s) <==>
      s != "" && s[0] == '0' && (forall i :: 0 <= i < |s| ==> '0' <= s[i] <= '9') && MakeNumber(s).value >= 8
  {
    if |s| >= 2 && s[..2] == "0x" {
      assert s[1] == 'x';
      assert !IsDecimal(s);
    } else {
      assert !IsHex(s) && IsDecimal(s);
      if s[0] == '0' {
        OctalIsSmaller(s);
      }
    }
  }

  /** The texts that are read, and those that raise an error, character by character. */
  lemma MakeNumberIs(s: string, n: nat)
    ensures MakeNumber(s) == Reads(n) <==>
      if |s| >= 2 && s[0] == '0' && s[1] == 'x'
      then |s| > 2 && (forall i :: 2 <= i < |s| ==> IsHexDigit(s[i])) && n == Number(s[2..], 16)
      else s != "" && (forall i :: 0 <= i < |s| ==> '0' <= s[i] <= '9') && n == Number(s, 10)
    ensures MakeNumber(s) == Raises <==>
      || s == ""
      || (|s| >= 2 && s[0] == '0' && s[1] == 'x' && (|s| == 2 || exists i :: 2 <= i < |s| && !IsHexDigit(s[i])))
  {
    if |s| >= 2 {
      assert s[..2] == [s[0], s[1]];
    }
  }

  /** A C constant is hexadecimal behind 0x, octal behind another 0, and decimal otherwise. */
  lemma CConstantIs(s: string, n: nat)
    ensures CConstant(s) == Some(n) <==>
      if |s| >= 2 && s[0] == '0' && s[1] == 'x'
      then |s| > 2 && (forall i :: 2 <= i < |s| ==> IsHexDigit(s[i])) && n == Number(s[2..], 16)
      else if s != "" && s[0] == '0'
      then (forall i :: 0 <= i < |s| ==> '0' <= s[i] <= '7') && n == Number(s, 8)
      else s != "" && (forall i :: 0 <= i < |s| ==> '0' <= s[i] <= '9') && n == Number(s, 10)
  {
    if |s| >= 2 {
      assert s[..2] == [s[0], s[1]];
    }
  }

  // ----- The scan on values -----

  datatype Verdict = Fits | Alias | Misfit | Fails

  function NamesOf(vals: seq<Value>): seq<string> {
    seq(|vals|, i requires 0 <= i < |vals| => vals[i].name)
  }

  /** How the scan takes a value when it expects the number b next. */
  function Judge(before: seq<Value>, v: Value, b: nat): Verdict {
    if v.text.None? then Fits
    else
      match MakeNumber(v.text.value)
      case Raises => Fails
      case r =>
        if r == Reads(b) then Fits
        else if v.text.value in NamesOf(before) then Alias
        else Misfit
  }

  /** The values that are not aliases of earlier ones. */
  function Kept(vals: seq<Value>): seq<Value> {
    if vals == [] then []
    else
      var n := |vals| - 1;
      var kept := Kept(vals[..n]);
      if Judge(vals[..n], vals[n], |kept|) == Alias then kept else kept + [vals[n]]
  }

  function Aliases(vals: seq<Value>): seq<Value> {
    if vals == [] then []
    else
      var n := |vals| - 1;
      if Judge(vals[..n], vals[n], |Kept(vals[..n])|) == Alias then Aliases(vals[..n]) + [vals[n]]
      else Aliases(vals[..n])
  }

  /** The scan goes through all values. */
  predicate Dense(vals: seq<Value>) {
    vals == [] ||
    var n := |vals| - 1;
    Dense(vals[..n]) && Judge(vals[..n], vals[n], |Kept(vals[..n])|) in {Fits, Alias}
  }

  /** In a dense enumeration every number that was given is the position of its name. */
  lemma {:induction false} DensePositions(vals: seq<Value>)
    requires Dense(vals)
    ensures forall i :: 0 <= i < |Kept(vals)| && Kept(vals)[i].text.Some? ==>
      MakeNumber(Kept(vals)[i].text.value) == Reads(i)
    decreases |vals|
  {
    if vals != [] {
      DensePositions(vals[..|vals| - 1]);
    }
  }

  // ----- The values that C gives -----

  /** The value of enumerator i in the typedef: what its text says, or one more than the one before. */
  function CValue(vals: seq<Value>, i: nat): Option<nat>
    requires i < |vals|
    decreases i
  {
    if vals[i].text.Some? then CConstant(vals[i].text.value)
    else if i == 0 then Some(0)
    else if CValue(vals, i - 1).Some? then Some(CValue(vals, i - 1).value + 1)
    else None
  }

  /** An enumerator counts on from the last one that was given a number, or from zero. */
  lemma {:induction false} CValueIs(vals: seq<Value>, i: nat, j: nat)
    requires j <= i < |vals| && forall k :: j < k <= i ==> vals[k].text.None?
    ensures vals[j].text.Some? ==>
      (CValue(vals, i).Some? <==> CConstant(vals[j].text.value).Some?)
      && (CValue(vals, i).Some? ==> CValue(vals, i).value == CConstant(vals[j].text.value).value + (i - j))
    ensures j == 0 && vals[0].text.None? ==> CValue(vals, i) == Some(i)
    decreases i
  {
    if i > j {
      CValueIs(vals, i - 1, j);
    }
  }

  ghost predicate NoneMisread(vals: seq<Value>) {
    forall i :: 0 <= i < |vals| && vals[i].text.Some? ==> !Misread(vals[i].text.value)
  }

  ghost predicate Positional(vals: seq<Value>) {
    forall i :: 0 <= i < |vals| ==> CValue(vals, i) == Some(i)
  }

  /** The numbers given are the positions, as Python reads them. */
  ghost predicate Numbered(vals: seq<Value>) {
    forall i :: 0 <= i < |vals| && vals[i].text.Some? ==> MakeNumber(vals[i].text.value) == Reads(i)
  }

  lemma {:induction false} ValueIsPosition(vals: seq<Value>, i: nat)
    requires Numbered(vals) && NoneMisread(vals) && i < |vals|
    ensures CValue(vals, i) == Some(i)
    decreases i
  {
    if vals[i].text.Some? {
      ReadingsAgree(vals[i].text.value);
    } else if i > 0 {
      ValueIsPosition(vals, i - 1);
    }
  }

  /** C numbers a dense enumeration by position exactly when none of its numbers is misread. */
  lemma DenseIsPositional(vals: seq<Value>, last: Value)
    requires Dense(vals) && last.text.None?
    ensures Positional(Kept(vals) + [last]) <==> NoneMisread(Kept(vals))
  {
    var all := Kept(vals) + [last];
    DensePositions(vals);
    assert forall i :: 0 <= i < |all| ==> all[i] == if i < |Kept(vals)| then Kept(vals)[i] else last;
    if NoneMisread(Kept(vals)) {
      forall i | 0 <= i < |all| ensures CValue(all, i) == Some(i) {
        ValueIsPosition(all, i);
      }
    }
    if Positional(all) {
      forall i | 0 <= i < |Kept(vals)| && Kept(vals)[i].text.Some?
        ensures !Misread(Kept(vals)[i].text.value)
      {
        assert CValue(all, i) == Some(i);
        ReadingsAgree(all[i].text.value);
      }
    }
  }

  /** The condition is needed: an eleventh name with the value text 010 passes the scan as ten, and
      is eight in C. */
  lemma MisreadExample(vals: seq<Value>)
    requires Dense(vals) && |Kept(vals)| == 10
    ensures var more := vals + [Value("X", "X", Some("010"))];
      Dense(more) && |Kept(more)| == 11 && CValue(Kept(more), 10) == Some(8)
  {
    var t := "010";
    ZeroOneZero(10);
    ZeroOneZero(8);
    var x := Value("X", "X", Some(t));
    assert (vals + [x])[..|vals|] == vals;
    assert Kept(vals + [x]) == Kept(vals) + [x];
  }

  lemma ZeroOneZero(base: nat)
    ensures Number("010", base) == base
  {
    var t := "010";
    assert t[..2] == "01" && t[..2][..1] == "0" && t[..2][..1][..0] == "";
    assert Number("0", base) == 0;
    assert Number("01", base) == 1;
  }

  // ----- Aliases -----

  function IndexOf(names: seq<string>, name: string): (r: Option<nat>)
    ensures r.Some? ==> r.value < |names| && names[r.value] == name
    ensures r.None? ==> name !in names
  {
    if names == [] then None
    else if names[|names| - 1] == name then Some(|names| - 1)
    else IndexOf(names[..|names| - 1], name)
  }

  /** The value of alias k: that of the enumerator it names, which is emitted before it. */
  function AliasValue(all: seq<Value>, aliases: seq<Value>, k: nat): Option<nat>
    requires k < |aliases|
    decreases k
  {
    if aliases[k].text.None? then None
    else
      match IndexOf(NamesOf(all), aliases[k].text.value)
      case Some(i) => CValue(all, i)
      case None =>
        match IndexOf(NamesOf(aliases[..k]), aliases[k].text.value)
        case Some(j) => AliasValue(all, aliases, j)
        case None => None
  }

  /** Value i is the last one with the name. */
  ghost predicate LastNamed(vals: seq<Value>, name: string, i: nat) {
    i < |vals| && vals[i].name == name && forall j :: i < j < |vals| ==> vals[j].name != name
  }

  /** An alias has the value of the enumerator that it names, which stands before it. */
  lemma AliasValueIs(all: seq<Value>, aliases: seq<Value>, k: nat)
    requires k < |aliases| && aliases[k].text.Some?
    ensures var text := aliases[k].text.value;
      && (forall i: nat :: LastNamed(all, text, i) ==> AliasValue(all, aliases, k) == CValue(all, i))
      && ((forall i :: 0 <= i < |all| ==> all[i].name != text) ==>
            forall i: nat :: LastNamed(aliases[..k], text, i) ==>
              AliasValue(all, aliases, k) == AliasValue(all, aliases, i))
  {
    var text := aliases[k].text.value;
    forall i: nat | LastNamed(all, text, i)
      ensures IndexOf(NamesOf(all), text) == Some(i)
    {
      LastIndex(NamesOf(all), text, i);
    }
    forall i: nat | LastNamed(aliases[..k], text, i)
      ensures IndexOf(NamesOf(aliases[..k]), text) == Some(i)
    {
      LastIndex(NamesOf(aliases[..k]), text, i);
    }
    if forall i :: 0 <= i < |all| ==> all[i].name != text {
      NotIndexed(NamesOf(all), text);
    }
  }

  lemma {:induction false} LastIndex(names: seq<string>, name: string, i: nat)
    requires i < |names| && names[i] == name && forall j :: i < j < |names| ==> names[j] != name
    ensures IndexOf(names, name) == Some(i)
    decreases |names|
  {
    if i < |names| - 1 {
      LastIndex(names[..|names| - 1], name, i);
    }
  }

  lemma {:induction false} NotIndexed(names: seq<string>, name: string)
    requires forall j :: 0 <= j < |names| ==> names[j] != name
    ensures IndexOf(names, name) == None
    decreases |names|
  {
    if names != [] {
      NotIndexed(names[..|names| - 1], name);
    }
  }

  lemma {:induction false} NamesSplit(vals: seq<Value>, name: string)
    requires name in NamesOf(vals)
    ensures name in NamesOf(Kept(vals)) || name in NamesOf(Aliases(vals))
    decreases |vals|
  {
    var n := |vals| - 1;
    var before := vals[..n];
    if name in NamesOf(before) {
      NamesSplit(before, name);
      NamesGrow(Kept(before), Kept(vals), name);
      NamesGrow(Aliases(before), Aliases(vals), name);
    } else {
      assert NamesOf(vals) == NamesOf(before) + [vals[n].name];
      if Judge(before, vals[n], |Kept(before)|) == Alias {
        assert NamesOf(Aliases(vals))[|Aliases(before)|] == name;
      } else {
        assert NamesOf(Kept(vals))[|Kept(before)|] == name;
      }
    }
  }

  lemma NamesGrow(a: seq<Value>, b: seq<Value>, name: string)
    requires a <= b
    ensures name in NamesOf(a) ==> name in NamesOf(b)
  {
    if name in NamesOf(a) {
      var i :| 0 <= i < |a| && NamesOf(a)[i] == name;
      assert NamesOf(b)[i] == name;
    }
  }

  /** Every alias names an enumerator that is emitted before it. */
  lemma {:induction false} AliasRefersBack(vals: seq<Value>, k: nat)
    requires k < |Aliases(vals)|
    ensures var t := Aliases(vals)[k].text;
      t.Some? && (t.value in NamesOf(Kept(vals)) || t.value in NamesOf(Aliases(vals)[..k]))
    decreases |vals|
  {
    var n := |vals| - 1;
    var before := vals[..n];
    if k < |Aliases(before)| {
      AliasRefersBack(before, k);
      NamesGrow(Kept(before), Kept(vals), Aliases(vals)[k].text.value);
      assert Aliases(vals)[..k] == Aliases(before)[..k];
    } else {
      NamesSplit(before, vals[n].text.value);
      assert Aliases(vals)[..k] == Aliases(before);
    }
  }

  /** When C numbers by position, every alias has the value of some name of the table. */
  lemma {:induction false} AliasHasValue(vals: seq<Value>, last: Value, k: nat)
    requires k < |Aliases(vals)| && Positional(Kept(vals) + [last])
    ensures AliasValue(Kept(vals) + [last], Aliases(vals), k).Some?
    ensures AliasValue(Kept(vals) + [last], Aliases(vals), k).value <= |Kept(vals)|
    decreases k
  {
    var all, t := Kept(vals) + [last], Aliases(vals)[k].text;
    AliasRefersBack(vals, k);
    NamesGrow(Kept(vals), all, t.value);
    if IndexOf(NamesOf(all), t.value).None? {
      AliasHasValue(vals, last, IndexOf(NamesOf(Aliases(vals)[..k]), t.value).value);
    }
  }
}

/** The generator and the converters it emits. */
module Enumer {
  import opened EnumSpec
  import opened Wrappers

  // ----- _unique -----

  ghost predicate Consistent(vals: seq<Value>) {
    forall i, j :: 0 <= i < j < |vals| && vals[i].name == vals[j].name ==> vals[i].text == vals[j].text
  }

  /** The names, each once, in the order of their first use. */
  function FirstNames(vals: seq<Value>): seq<string> {
    if vals == [] then []
    else
      var n := |vals| - 1;
      var before := FirstNames(vals[..n]);
      if vals[n].name in before then before else before + [vals[n].name]
  }

  /** The last value with a name. */
  function Latest(vals: seq<Value>, name: string): Option<Value> {
    if vals == [] then None
    else if vals[|vals| - 1].name == name then Some(vals[|vals| - 1])
    else Latest(vals[..|vals| - 1], name)
  }

  function Without(names: seq<string>, x: string): seq<string> {
    if names == [] then []
    else
      var n := |names| - 1;
      if names[n] == x then Without(names[..n], x) else Without(names[..n], x) + [names[n]]
  }

  function WithoutInvalid(names: seq<string>): seq<string> {
    Without(names, "INVALID")
  }

  /** The order in which _unique returns the names: INVALID comes first. */
  function Ordered(names: seq<string>): seq<string> {
    (if "INVALID" in names then ["INVALID"] else []) + WithoutInvalid(names)
  }

  /** What the dictionary holds: for each name its latest value. */
  ghost predicate HoldsLatest(vals: seq<Value>, u: map<string, Value>) {
    forall name :: (name in u <==> Latest(vals, name).Some?) && (name in u ==> Some(u[name]) == Latest(vals, name))
  }

  lemma {:induction false} LatestIs(vals: seq<Value>, name: string)
    ensures Latest(vals, name).Some? <==> exists i :: 0 <= i < |vals| && vals[i].name == name
    ensures Latest(vals, name).Some? <==> name in FirstNames(vals)
    ensures Latest(vals, name).Some? ==> Latest(vals, name).value in vals && Latest(vals, name).value.name == name
    decreases |vals|
  {
    if vals != [] {
      var n := |vals| - 1;
      LatestIs(vals[..n], name);
      assert vals == vals[..n] + [vals[n]];
    }
  }

  /** The first loop of _unique: None when a name comes with two values. */
  method CollectNames(vals: seq<Value>) returns (r: Option<map<string, Value>>)
    ensures r.Some? <==> Consistent(vals)
    ensures r.Some? ==> HoldsLatest(vals, r.value)
  {
    var u: map<string, Value> := map[];
    for n := 0 to |vals|
      invariant HoldsLatest(vals[..n], u) && Consistent(vals[..n])
    {
      var v := vals[n];
      CollectStep(vals, n, u);
      if v.name in u && u[v.name].text != v.text {
        return None;
      }
      u := u[v.name := v];
    }
    assert vals[..|vals|] == vals;
    return Some(u);
  }

  lemma OtherText(vals: seq<Value>, n: nat, w: Value)
    requires n < |vals| && w in vals[..n]
    requires w.name == vals[n].name && w.text != vals[n].text
    ensures !Consistent(vals)
  {
    var i :| 0 <= i < n && vals[..n][i] == w;
    assert vals[i].name == vals[n].name && vals[i].text != vals[n].text;
  }

  lemma CollectStep(vals: seq<Value>, n: nat, u: map<string, Value>)
    requires n < |vals| && HoldsLatest(vals[..n], u) && Consistent(vals[..n])
    ensures var v := vals[n];
      if v.name in u && u[v.name].text != v.text then !Consistent(vals)
      else Consistent(vals[..n + 1]) && HoldsLatest(vals[..n + 1], u[v.name := v])
  {
    var v := vals[n];
    assert vals[..n + 1][..n] == vals[..n];
    LatestIs(vals[..n], v.name);
    if v.name in u {
      if u[v.name].text != v.text {
        OtherText(vals, n, u[v.name]);
      } else {
        SameText(vals, n, u[v.name]);
      }
    }
  }

  lemma SameText(vals: seq<Value>, n: nat, w: Value)
    requires n < |vals| && Consistent(vals[..n]) && w in vals[..n]
    requires w.name == vals[n].name && w.text == vals[n].text
    ensures Consistent(vals[..n + 1])
  {
    var k :| 0 <= k < n && vals[..n][k] == w;
    forall i | 0 <= i < n && vals[i].name == vals[n].name ensures vals[i].text == vals[n].text {
      assert vals[..n][i] == vals[i];
    }
  }

  /** The dictionary of _unique while it is emptied: the names that the first n values do not use. */
  ghost predicate Remaining(vals: seq<Value>, n: nat, u: map<string, Value>)
    requires n <= |vals|
  {
    forall name ::
      && (name in u <==> Latest(vals, name).Some? && name != "INVALID" && name !in FirstNames(vals[..n]))
      && (name in u ==> Some(u[name]) == Latest(vals, name))
  }

  lemma RemainingStep(vals: seq<Value>, n: nat, u: map<string, Value>)
    requires n < |vals| && Remaining(vals, n, u)
    ensures vals[n].name in u <==> vals[n].name != "INVALID" && vals[n].name !in FirstNames(vals[..n])
    ensures Remaining(vals, n + 1, if vals[n].name in u then u - {vals[n].name} else u)
  {
    assert vals[..n + 1][..n] == vals[..n];
    LatestIs(vals, vals[n].name);
  }

  /** What the second loop of _unique has collected from the first n values. */
  ghost predicate Taken(vals: seq<Value>, n: nat, ovals: seq<Value>)
    requires n <= |vals|
  {
    && NamesOf(ovals) == WithoutInvalid(FirstNames(vals[..n]))
    && forall i :: 0 <= i < |ovals| ==> Some(ovals[i]) == Latest(vals, ovals[i].name)
  }

  lemma TakenStep(vals: seq<Value>, n: nat, rest: map<string, Value>, ovals: seq<Value>)
    requires n < |vals| && Remaining(vals, n, rest) && Taken(vals, n, ovals)
    ensures vals[n].name in rest ==> Taken(vals, n + 1, ovals + [rest[vals[n].name]])
    ensures vals[n].name !in rest ==> Taken(vals, n + 1, ovals)
  {
    var name := vals[n].name;
    NamesStep(vals, n);
    RemainingStep(vals, n, rest);
    if name in rest {
      LatestIs(vals, name);
      NamesAppend(ovals, rest[name]);
    }
  }

  /** The second loop of _unique. */
  method TakeInOrder(vals: seq<Value>, u: map<string, Value>) returns (ovals: seq<Value>)
    requires Remaining(vals, 0, u)
    ensures Taken(vals, |vals|, ovals)
  {
    var rest := u;
    ovals := [];
    for n := 0 to |vals|
      invariant Remaining(vals, n, rest) && Taken(vals, n, ovals)
    {
      var name := vals[n].name;
      RemainingStep(vals, n, rest);
      TakenStep(vals, n, rest, ovals);
      if name in rest {
        ovals := ovals + [rest[name]];
        rest := rest - {name};
      }
    }
  }

  lemma NamesAppend(vals: seq<Value>, v: Value)
    ensures NamesOf(vals + [v]) == NamesOf(vals) + [v.name]
  {
  }

  /** Value a is the first one with its name. */
  ghost predicate FirstUse(vals: seq<Value>, a: nat) {
    a < |vals| && forall b :: 0 <= b < a ==> vals[b].name != vals[a].name
  }

  /** The name x is first used before the name y. */
  ghost predicate UsedBefore(vals: seq<Value>, x: string, y: string) {
    exists a: nat, b: nat :: a < b && FirstUse(vals, a) && FirstUse(vals, b) && vals[a].name == x && vals[b].name == y
  }

  ghost predicate SameNames(vals: seq<Value>, r: seq<Value>) {
    && (forall n :: 0 <= n < |vals| ==> vals[n].name in NamesOf(r))
    && (forall i :: 0 <= i < |r| ==> r[i].name in NamesOf(vals))
  }

  /** The names of r are those of vals in the order of their first use; only INVALID is moved to the
      front. */
  ghost predicate InOrder(vals: seq<Value>, r: seq<Value>) {
    && SameNames(vals, r)
    && forall i, j :: 0 <= i < j < |r| ==> Precedes(vals, r[i].name, r[j].name)
  }

  /** Of two names, y is not INVALID, and x is that or is used first. */
  ghost predicate Precedes(vals: seq<Value>, x: string, y: string) {
    y != "INVALID" && (x == "INVALID" || UsedBefore(vals, x, y))
  }

  /** The places of the first uses, in order. */
  ghost predicate FirstPlaces(vals: seq<Value>, names: seq<string>, pos: seq<nat>) {
    && |pos| == |names|
    && (forall i :: 0 <= i < |pos| ==> FirstUse(vals, pos[i]) && vals[pos[i]].name == names[i])
    && forall i, j :: 0 <= i < j < |pos| ==> pos[i] < pos[j]
  }

  lemma FirstPlacesStay(vals: seq<Value>, n: nat, names: seq<string>, pos: seq<nat>)
    requires n <= |vals| && FirstPlaces(vals[..n], names, pos)
    ensures FirstPlaces(vals, names, pos) && forall i :: 0 <= i < |pos| ==> pos[i] < n
  {
    forall i | 0 <= i < |pos| ensures FirstUse(vals, pos[i]) && vals[pos[i]].name == names[i] {
      assert FirstUse(vals[..n], pos[i]) && vals[..n][pos[i]] == vals[pos[i]];
      assert forall b :: 0 <= b < pos[i] ==> vals[..n][b] == vals[b];
    }
  }

  lemma {:induction false} AllAreFirst(vals: seq<Value>)
    ensures forall n :: 0 <= n < |vals| ==> vals[n].name in FirstNames(vals)
    decreases |vals|
  {
    if vals != [] {
      AllAreFirst(vals[..|vals| - 1]);
      assert forall k :: 0 <= k < |vals| - 1 ==> vals[..|vals| - 1][k] == vals[k];
    }
  }

  lemma {:induction false} FirstNamesAre(vals: seq<Value>) returns (pos: seq<nat>)
    ensures FirstPlaces(vals, FirstNames(vals), pos)
    decreases |vals|
  {
    pos := [];
    if vals != [] {
      var n := |vals| - 1;
      pos := FirstNamesAre(vals[..n]);
      FirstPlacesStay(vals, n, FirstNames(vals[..n]), pos);
      if vals[n].name !in FirstNames(vals[..n]) {
        NewIsFirst(vals, n);
        FirstPlacesStep(vals, n, FirstNames(vals[..n]), pos);
        pos := pos + [n];
      }
    }
  }

  lemma NewIsFirst(vals: seq<Value>, n: nat)
    requires n < |vals| && vals[n].name !in FirstNames(vals[..n])
    ensures FirstUse(vals, n)
  {
    AllAreFirst(vals[..n]);
    forall b | 0 <= b < n ensures vals[b].name != vals[n].name {
      assert vals[..n][b] == vals[b];
    }
  }

  lemma FirstPlacesStep(vals: seq<Value>, n: nat, names: seq<string>, pos: seq<nat>)
    requires FirstPlaces(vals, names, pos) && FirstUse(vals, n)
    requires forall i :: 0 <= i < |pos| ==> pos[i] < n
    ensures FirstPlaces(vals, names + [vals[n].name], pos + [n])
  {
  }

  lemma {:induction false} WithoutIs(names: seq<string>, x: string) returns (pos: seq<nat>)
    ensures |pos| == |Without(names, x)|
    ensures forall i :: 0 <= i < |pos| ==> pos[i] < |names| && names[pos[i]] == Without(names, x)[i] != x
    ensures forall i, j :: 0 <= i < j < |pos| ==> pos[i] < pos[j]
    ensures forall n :: 0 <= n < |names| && names[n] != x ==> names[n] in Without(names, x)
    decreases |names|
  {
    pos := [];
    if names != [] {
      var n := |names| - 1;
      pos := WithoutIs(names[..n], x);
      assert forall k :: 0 <= k < n ==> names[..n][k] == names[k];
      if names[n] != x {
        pos := pos + [n];
      }
    }
  }

  lemma InOrdered(names: seq<string>, name: string)
    ensures name in Ordered(names) <==> name in names
  {
    var kept := WithoutIs(names, "INVALID");
  }

  lemma NamesAreOrdered(vals: seq<Value>, name: string)
    ensures name in Ordered(FirstNames(vals)) <==> name in NamesOf(vals)
  {
    var names := FirstNames(vals);
    InOrdered(names, name);
    var first := FirstNamesAre(vals);
    AllAreFirst(vals);
    if name in NamesOf(vals) {
      var n :| 0 <= n < |vals| && NamesOf(vals)[n] == name;
      assert vals[n].name in names;
    }
    if i :| 0 <= i < |names| && names[i] == name {
      assert NamesOf(vals)[first[i]] == name;
    }
  }

  /** The places of the names other than INVALID. */
  lemma OrderedPlaces(vals: seq<Value>, i: nat, j: nat)
    requires i < j < |Ordered(FirstNames(vals))|
    ensures Precedes(vals, Ordered(FirstNames(vals))[i], Ordered(FirstNames(vals))[j])
  {
    var a, b := OrderedParts(FirstNames(vals), i, j);
    NotInvalid(FirstNames(vals), b);
    if a >= 0 {
      OthersInOrder(vals, a, b);
    }
  }

  /** Where two names of the order come from; -1 stands for INVALID in front. */
  lemma OrderedParts(names: seq<string>, i: nat, j: nat) returns (a: int, b: nat)
    requires i < j < |Ordered(names)|
    ensures var others := WithoutInvalid(names);
      && b < |others| && Ordered(names)[j] == others[b]
      && (if a < 0 then Ordered(names)[i] == "INVALID" else a < b && Ordered(names)[i] == others[a])
  {
    var k := if "INVALID" in names then 1 else 0;
    OrderedAt(names, i);
    OrderedAt(names, j);
    a, b := i - k, j - k;
  }

  lemma OrderedAt(names: seq<string>, i: nat)
    requires i < |Ordered(names)|
    ensures var k := if "INVALID" in names then 1 else 0;
      |Ordered(names)| == k + |WithoutInvalid(names)|
      && Ordered(names)[i] == if i < k then "INVALID" else WithoutInvalid(names)[i - k]
  {
  }

  lemma NotInvalid(names: seq<string>, j: nat)
    requires j < |WithoutInvalid(names)|
    ensures WithoutInvalid(names)[j] != "INVALID"
  {
    var kept := WithoutIs(names, "INVALID");
  }

  lemma OthersInOrder(vals: seq<Value>, i: nat, j: nat)
    requires i < j < |WithoutInvalid(FirstNames(vals))|
    ensures var others := WithoutInvalid(FirstNames(vals)); UsedBefore(vals, others[i], others[j])
  {
    var first := FirstNamesAre(vals);
    var kept := WithoutIs(FirstNames(vals), "INVALID");
    var a, b := first[kept[i]], first[kept[j]];
    assert a < b && FirstUse(vals, a) && FirstUse(vals, b);
  }

  lemma OrderedIsInOrder(vals: seq<Value>, r: seq<Value>)
    requires NamesOf(r) == Ordered(FirstNames(vals))
    ensures InOrder(vals, r)
  {
    forall n | 0 <= n < |vals| ensures vals[n].name in NamesOf(r) {
      assert NamesOf(vals)[n] == vals[n].name;
      NamesAreOrdered(vals, vals[n].name);
    }
    forall i | 0 <= i < |r| ensures r[i].name in NamesOf(vals) {
      assert NamesOf(r)[i] == r[i].name;
      NamesAreOrdered(vals, r[i].name);
    }
    forall i, j | 0 <= i < j < |r|
      ensures Precedes(vals, r[i].name, r[j].name)
    {
      OrderedPlaces(vals, i, j);
      assert NamesOf(r)[i] == r[i].name && NamesOf(r)[j] == r[j].name;
    }
  }

  /** The value is the last one with its name. */
  ghost predicate IsLatest(vals: seq<Value>, v: Value) {
    exists n: nat :: LatestAt(vals, n, v)
  }

  ghost predicate LatestAt(vals: seq<Value>, n: nat, v: Value) {
    n < |vals| && vals[n] == v && forall m :: n < m < |vals| ==> vals[m].name != v.name
  }

  ghost predicate AllLatest(vals: seq<Value>, r: seq<Value>) {
    forall i :: 0 <= i < |r| ==> IsLatest(vals, r[i])
  }

  lemma LatestAreLast(vals: seq<Value>, r: seq<Value>)
    requires forall i :: 0 <= i < |r| ==> Some(r[i]) == Latest(vals, r[i].name)
    ensures AllLatest(vals, r)
  {
    forall i | 0 <= i < |r| ensures IsLatest(vals, r[i]) {
      LatestIsLast(vals, r[i]);
    }
  }

  lemma {:induction false} LatestIsLast(vals: seq<Value>, v: Value)
    requires Latest(vals, v.name) == Some(v)
    ensures IsLatest(vals, v)
    decreases |vals|
  {
    var n := |vals| - 1;
    if vals[n].name == v.name {
      assert LatestAt(vals, n, v);
    } else {
      LatestIsLast(vals[..n], v);
      var k: nat :| LatestAt(vals[..n], k, v);
      assert forall m :: k < m < n ==> vals[m] == vals[..n][m];
      assert LatestAt(vals, k, v);
    }
  }

  /** _unique: every name once, with its latest value, INVALID first and the others in the order of
      their first use; None when a name comes with two values. */
  method Unique(vals: seq<Value>) returns (r: Option<seq<Value>>)
    ensures r.Some? <==> Consistent(vals)
    ensures r.Some? ==> NamesOf(r.value) == Ordered(FirstNames(vals))
    ensures r.Some? ==> forall i :: 0 <= i < |r.value| ==> Some(r.value[i]) == Latest(vals, r.value[i].name)
    ensures r.Some? ==> InOrder(vals, r.value) && AllLatest(vals, r.value)
  {
    r := MakeUnique(vals);
    if r.Some? {
      OrderedIsInOrder(vals, r.value);
      LatestAreLast(vals, r.value);
    }
  }

  /** The two loops of _unique. */
  method MakeUnique(vals: seq<Value>) returns (r: Option<seq<Value>>)
    ensures r.Some? <==> Consistent(vals)
    ensures r.Some? ==> NamesOf(r.value) == Ordered(FirstNames(vals))
    ensures r.Some? ==> forall i :: 0 <= i < |r.value| ==> Some(r.value[i]) == Latest(vals, r.value[i].name)
  {
    var collected := CollectNames(vals);
    if collected.None? {
      return None;
    }
    var rest := collected.value;
    var first: seq<Value> := [];
    LatestIs(vals, "INVALID");
    if "INVALID" in rest {
      first := [rest["INVALID"]];
      rest := rest - {"INVALID"};
    }
    var others := TakeInOrder(vals, rest);
    assert vals[..|vals|] == vals;
    assert NamesOf(first + others) == NamesOf(first) + NamesOf(others);
    return Some(first + others);
  }

  lemma NamesStep(vals: seq<Value>, n: nat)
    requires n < |vals|
    ensures var before, name := FirstNames(vals[..n]), vals[n].name;
      WithoutInvalid(FirstNames(vals[..n + 1])) ==
        WithoutInvalid(before) + if name in before || name == "INVALID" then [] else [name]
  {
    assert vals[..n + 1][..n] == vals[..n];
    var before := FirstNames(vals[..n]);
    assert (before + [vals[n].name])[..|before|] == before;
  }

  class EnumerValue {
    const data: Value
    var duplicate: bool

    constructor (data: Value)
      ensures this.data == data && !duplicate
    {
      this.data := data;
      duplicate := false;
    }
  }

  function Datas(vals: seq<EnumerValue>): (r: seq<Value>)
    ensures |r| == |vals| && forall i :: 0 <= i < |r| ==> r[i] == vals[i].data
  {
    seq(|vals|, i requires 0 <= i < |vals| => vals[i].data)
  }

  /** Value i of the list is an alias of an earlier one. */
  predicate AliasAt(vals: seq<Value>, i: nat)
    requires i < |vals|
  {
    Judge(vals[..i], vals[i], |Kept(vals[..i])|) == Alias
  }

  /** What the scan takes for value n, given which of the values before are marked as aliases: a
      number has to be the count of the unmarked ones, and an alias names an earlier value. */
  ghost predicate WellMarked(vals: seq<Value>, marks: seq<bool>, n: nat)
    requires n < |vals| && |marks| == |vals|
  {
    var b := |Unmarked(marks, n)|;
    if marks[n] then
      && vals[n].text.Some? && MakeNumber(vals[n].text.value) != Raises
      && MakeNumber(vals[n].text.value) != Reads(b)
      && exists j :: 0 <= j < n && vals[j].name == vals[n].text.value
    else vals[n].text.None? || MakeNumber(vals[n].text.value) == Reads(b)
  }

  ghost function Unmarked(marks: seq<bool>, n: nat): set<int> {
    set j | 0 <= j < n && j < |marks| && !marks[j]
  }

  lemma UnmarkedStep(marks: seq<bool>, n: nat)
    requires n < |marks|
    ensures |Unmarked(marks, n + 1)| == |Unmarked(marks, n)| + if marks[n] then 0 else 1
  {
    assert Unmarked(marks, n + 1) == Unmarked(marks, n) + if marks[n] then {} else {n};
  }

  ghost predicate AllWellMarked(vals: seq<Value>, marks: seq<bool>) {
    |marks| == |vals| && forall n :: 0 <= n < |vals| ==> WellMarked(vals, marks, n)
  }

  /** The marks of the scan. */
  ghost function AliasMarks(vals: seq<Value>): (marks: seq<bool>)
    ensures |marks| == |vals| && forall i :: 0 <= i < |marks| ==> marks[i] == AliasAt(vals, i)
  {
    seq(|vals|, i requires 0 <= i < |vals| => AliasAt(vals, i))
  }

  lemma {:induction false} KeptAreUnmarked(vals: seq<Value>, n: nat)
    requires n <= |vals|
    ensures |Kept(vals[..n])| == |Unmarked(AliasMarks(vals), n)|
  {
    if n == 0 {
      assert Unmarked(AliasMarks(vals), 0) == {};
    } else {
      KeptAreUnmarked(vals, n - 1);
      KeptGrows(vals, n - 1);
      UnmarkedStep(AliasMarks(vals), n - 1);
    }
  }

  lemma KeptGrows(vals: seq<Value>, n: nat)
    requires n < |vals|
    ensures |Kept(vals[..n + 1])| == |Kept(vals[..n])| + if AliasMarks(vals)[n] then 0 else 1
  {
    KeptStep(vals, n);
  }

  lemma VerdictIsMark(vals: seq<Value>, n: nat)
    requires n < |vals|
    ensures VerdictAt(vals, n) in {Fits, Alias} <==> WellMarked(vals, AliasMarks(vals), n)
  {
    KeptAreUnmarked(vals, n);
    var name := if vals[n].text.Some? then vals[n].text.value else "";
    assert name in NamesOf(vals[..n]) <==> exists j :: 0 <= j < n && vals[j].name == name by {
      if j :| 0 <= j < n && vals[j].name == name {
        assert NamesOf(vals[..n])[j] == name;
      }
    }
  }

  lemma {:induction false} DenseIsVerdicts(vals: seq<Value>, n: nat)
    requires n <= |vals|
    ensures Dense(vals[..n]) <==> forall i :: 0 <= i < n ==> VerdictAt(vals, i) in {Fits, Alias}
  {
    if n > 0 {
      DenseIsVerdicts(vals, n - 1);
      assert vals[..n][..n - 1] == vals[..n - 1];
      assert Dense(vals[..n]) <==> Dense(vals[..n - 1]) && VerdictAt(vals, n - 1) in {Fits, Alias};
    }
  }

  /** The marks that the scan accepts are its own. */
  lemma {:induction false} MarksAreAliases(vals: seq<Value>, marks: seq<bool>, n: nat)
    requires AllWellMarked(vals, marks) && n <= |vals|
    ensures marks[..n] == AliasMarks(vals)[..n]
  {
    if n > 0 {
      MarksAreAliases(vals, marks, n - 1);
      NextMark(vals, marks, n - 1);
    }
  }

  lemma NextMark(vals: seq<Value>, marks: seq<bool>, n: nat)
    requires AllWellMarked(vals, marks) && n < |vals| && marks[..n] == AliasMarks(vals)[..n]
    ensures marks[n] == AliasMarks(vals)[n]
  {
    assert forall j :: 0 <= j < n ==> marks[j] == marks[..n][j] == AliasMarks(vals)[..n][j] == AliasMarks(vals)[j];
    assert Unmarked(marks, n) == Unmarked(AliasMarks(vals), n);
    KeptAreUnmarked(vals, n);
    assert WellMarked(vals, marks, n);
    if marks[n] {
      var j :| 0 <= j < n && vals[j].name == vals[n].text.value;
      assert NamesOf(vals[..n])[j] == vals[n].text.value;
    }
  }

  /** A list is accepted exactly when its values can be marked so that all of them are as the marks
      say. */
  lemma DenseIsMarked(vals: seq<Value>)
    ensures Dense(vals) <==> exists marks :: AllWellMarked(vals, marks)
    ensures Dense(vals) ==> AllWellMarked(vals, AliasMarks(vals))
  {
    assert vals[..|vals|] == vals;
    DenseIsVerdicts(vals, |vals|);
    forall n | 0 <= n < |vals|
      ensures VerdictAt(vals, n) in {Fits, Alias} <==> WellMarked(vals, AliasMarks(vals), n)
    {
      VerdictIsMark(vals, n);
    }
    if Dense(vals) {
      assert AllWellMarked(vals, AliasMarks(vals));
    }
    if marks :| AllWellMarked(vals, marks) {
      MarksAreAliases(vals, marks, |vals|);
      assert marks == marks[..|vals|] && AliasMarks(vals) == AliasMarks(vals)[..|vals|];
      assert AllWellMarked(vals, AliasMarks(vals));
    }
  }

  ghost function DuplicateMarks(vals: seq<EnumerValue>): (marks: seq<bool>)
    reads vals
    ensures |marks| == |vals| && forall i :: 0 <= i < |marks| ==> marks[i] == vals[i].duplicate
  {
    seq(|vals|, i requires 0 <= i < |vals| reads vals => vals[i].duplicate)
  }

  /** _scan_for_dense_zero_based_preset_values; None stands for an exception. Aliases are marked. */
  method ScanForDense(vals: seq<EnumerValue>) returns (dense: Option<bool>)
    requires forall i, j :: 0 <= i < j < |vals| ==> vals[i] != vals[j]
    requires forall i :: 0 <= i < |vals| ==> !vals[i].duplicate
    modifies vals
    ensures dense == Some(true) <==> Dense(Datas(vals))
    ensures dense == None <==> Raising(Datas(vals))
    ensures dense == Some(true) ==> forall i :: 0 <= i < |vals| ==> vals[i].duplicate == AliasAt(Datas(vals), i)
    ensures dense == Some(true) <==> exists marks :: AllWellMarked(Datas(vals), marks)
    ensures dense == Some(true) ==> AllWellMarked(Datas(vals), DuplicateMarks(vals))
  {
    dense := Scan(vals);
    DenseIsMarked(Datas(vals));
    if dense == Some(true) {
      assert DuplicateMarks(vals) == AliasMarks(Datas(vals));
    }
  }

  /** The loop of the scan. */
  method Scan(vals: seq<EnumerValue>) returns (dense: Option<bool>)
    requires forall i, j :: 0 <= i < j < |vals| ==> vals[i] != vals[j]
    requires forall i :: 0 <= i < |vals| ==> !vals[i].duplicate
    modifies vals
    ensures dense == Some(true) <==> Dense(Datas(vals))
    ensures dense == None <==> Raising(Datas(vals))
    ensures dense == Some(true) ==> forall i :: 0 <= i < |vals| ==> vals[i].duplicate == AliasAt(Datas(vals), i)
  {
    ghost var data := Datas(vals);
    ghost var marks := seq(|data|, i requires 0 <= i < |data| => AliasAt(data, i));
    var b := 0;
    for n := 0 to |vals|
      invariant b == |Kept(data[..n])| && Dense(data[..n])
      invariant forall i :: 0 <= i < n ==> vals[i].duplicate == marks[i]
      invariant forall i :: n <= i < |vals| ==> !vals[i].duplicate
    {
      ScanStep(data, n);
      var verdict := JudgeNext(vals, n, b);
      match verdict {
        case Fits =>
          b := b + 1;
        case Alias =>
          vals[n].duplicate := true;
        case Misfit =>
          ScanStops(data, n);
          return Some(false);
        case Fails =>
          ScanStops(data, n);
          return None;
      }
    }
    assert data[..|vals|] == data;
    DenseNeverStops(data);
    return Some(true);
  }

  /** The first value that is neither in place nor an alias. */
  ghost predicate StopsAt(vals: seq<Value>, n: nat) {
    n < |vals| && Dense(vals[..n]) && Judge(vals[..n], vals[n], |Kept(vals[..n])|) !in {Fits, Alias}
  }

  /** The scan meets a text that int() refuses before any misfit. */
  ghost predicate Raising(vals: seq<Value>) {
    exists n: nat :: StopsAt(vals, n) && Judge(vals[..n], vals[n], |Kept(vals[..n])|) == Fails
  }

  lemma DenseNeverStops(vals: seq<Value>)
    requires Dense(vals)
    ensures !Raising(vals)
  {
    if n: nat :| StopsAt(vals, n) {
      NotDense(vals, n);
    }
  }

  /** The verdict on value n, where b values have been kept so far. */
  method JudgeNext(vals: seq<EnumerValue>, n: nat, b: nat) returns (verdict: Verdict)
    requires n < |vals| && b == |Kept(Datas(vals)[..n])|
    ensures verdict == VerdictAt(Datas(vals), n)
  {
    verdict := Judge(Datas(vals[..n]), vals[n].data, b);
    assert Datas(vals[..n]) == Datas(vals)[..n];
  }

  function VerdictAt(vals: seq<Value>, n: nat): Verdict
    requires n < |vals|
  {
    Judge(vals[..n], vals[n], |Kept(vals[..n])|)
  }

  lemma ScanStep(vals: seq<Value>, n: nat)
    requires n < |vals| && Dense(vals[..n])
    ensures VerdictAt(vals, n) in {Fits, Alias} ==>
      && Dense(vals[..n + 1])
      && |Kept(vals[..n + 1])| == |Kept(vals[..n])| + if VerdictAt(vals, n) == Fits then 1 else 0
    ensures VerdictAt(vals, n) == Alias <==> AliasAt(vals, n)
  {
    PrefixStep(vals, n);
  }

  lemma ScanStops(vals: seq<Value>, n: nat)
    requires n < |vals| && Dense(vals[..n]) && VerdictAt(vals, n) !in {Fits, Alias}
    ensures !Dense(vals) && (Raising(vals) <==> VerdictAt(vals, n) == Fails)
  {
    assert StopsAt(vals, n);
    NotDense(vals, n);
    if Judge(vals[..n], vals[n], |Kept(vals[..n])|) == Misfit {
      StopsOnce(vals, n);
    }
  }

  lemma StopsOnce(vals: seq<Value>, n: nat)
    requires StopsAt(vals, n) && Judge(vals[..n], vals[n], |Kept(vals[..n])|) == Misfit
    ensures !Raising(vals)
  {
    forall m: nat | StopsAt(vals, m) ensures m == n {
      if m < n {
        assert vals[..n][..m] == vals[..m];
        NotDense(vals[..n], m);
      } else if n < m {
        assert vals[..m][..n] == vals[..n];
        NotDense(vals[..m], n);
      }
    }
  }

  lemma PrefixStep(data: seq<Value>, n: nat)
    requires n < |data|
    ensures data[..n + 1][..n] == data[..n] && data[..n + 1][n] == data[n]
  {
  }

  lemma {:induction false} NotDense(data: seq<Value>, n: nat)
    requires n < |data| && Judge(data[..n], data[n], |Kept(data[..n])|) !in {Fits, Alias}
    ensures !Dense(data)
    decreases |data|
  {
    if n < |data| - 1 {
      assert data[..|data| - 1][..n] == data[..n];
      NotDense(data[..|data| - 1], n);
    }
  }

  /** The marks on the first n values are those of the scan. */
  ghost predicate Marked(vals: seq<EnumerValue>)
    reads vals
  {
    forall i :: 0 <= i < |vals| ==> vals[i].duplicate == AliasAt(Datas(vals), i)
  }

  lemma KeptStep(data: seq<Value>, n: nat)
    requires n < |data|
    ensures Kept(data[..n + 1]) == if AliasAt(data, n) then Kept(data[..n]) else Kept(data[..n]) + [data[n]]
    ensures Aliases(data[..n + 1]) == if AliasAt(data, n) then Aliases(data[..n]) + [data[n]] else Aliases(data[..n])
  {
    PrefixStep(data, n);
  }

  /** The first n values, without their aliases and these apart. */
  ghost predicate Divided(data: seq<Value>, n: nat, unique: seq<Value>, duplicates: seq<Value>)
    requires n <= |data|
  {
    unique == Kept(data[..n]) && duplicates == Aliases(data[..n])
  }

  lemma DividedStep(data: seq<Value>, n: nat, unique: seq<Value>, duplicates: seq<Value>)
    requires n < |data|
    ensures Divided(data, n, unique, duplicates) ==>
      if AliasAt(data, n) then Divided(data, n + 1, unique, duplicates + [data[n]])
      else Divided(data, n + 1, unique + [data[n]], duplicates)
  {
    KeptStep(data, n);
  }

  lemma DatasAppend(vals: seq<EnumerValue>, v: EnumerValue)
    ensures Datas(vals + [v]) == Datas(vals) + [v.data]
  {
  }

  ghost predicate Separates(vals: seq<EnumerValue>, n: nat, unique: seq<EnumerValue>, duplicates: seq<EnumerValue>)
    requires n <= |vals|
    reads vals
  {
    Marked(vals) ==> Divided(Datas(vals), n, Datas(unique), Datas(duplicates))
  }

  lemma SeparatesStep(vals: seq<EnumerValue>, n: nat, unique: seq<EnumerValue>, duplicates: seq<EnumerValue>)
    requires n < |vals| && Separates(vals, n, unique, duplicates)
    ensures if vals[n].duplicate then Separates(vals, n + 1, unique, duplicates + [vals[n]])
            else Separates(vals, n + 1, unique + [vals[n]], duplicates)
  {
    DividedStep(Datas(vals), n, Datas(unique), Datas(duplicates));
    DatasAppend(unique, vals[n]);
    DatasAppend(duplicates, vals[n]);
  }

  /** part holds the values with the mark, in order: value pos[i] is its value i. */
  ghost predicate IsPart(vals: seq<EnumerValue>, n: nat, mark: bool, part: seq<EnumerValue>, pos: seq<nat>)
    reads vals
    requires n <= |vals|
  {
    && |pos| == |part| && (forall i, j :: 0 <= i < j < |pos| ==> pos[i] < pos[j])
    && (forall i :: 0 <= i < |pos| ==> pos[i] < n && part[i] == vals[pos[i]] && vals[pos[i]].duplicate == mark)
    && forall k :: 0 <= k < n && vals[k].duplicate == mark ==> k in pos
  }

  lemma IsPartStep(vals: seq<EnumerValue>, n: nat, mark: bool, part: seq<EnumerValue>, pos: seq<nat>)
    requires n < |vals| && IsPart(vals, n, mark, part, pos)
    ensures if vals[n].duplicate == mark then IsPart(vals, n + 1, mark, part + [vals[n]], pos + [n])
            else IsPart(vals, n + 1, mark, part, pos)
  {
    var more := pos + [n];
    assert forall k :: k in pos ==> k in more;
    assert more[|pos|] == n;
  }

  ghost predicate Parts(vals: seq<EnumerValue>, n: nat, unique: seq<EnumerValue>, u: seq<nat>,
                        duplicates: seq<EnumerValue>, d: seq<nat>)
    requires n <= |vals|
    reads vals
  {
    && IsPart(vals, n, false, unique, u) && IsPart(vals, n, true, duplicates, d)
    && Separates(vals, n, unique, duplicates)
  }

  lemma PartsStep(vals: seq<EnumerValue>, n: nat, unique: seq<EnumerValue>, u: seq<nat>,
                  duplicates: seq<EnumerValue>, d: seq<nat>)
    requires n < |vals| && Parts(vals, n, unique, u, duplicates, d)
    ensures if vals[n].duplicate then Parts(vals, n + 1, unique, u, duplicates + [vals[n]], d + [n])
            else Parts(vals, n + 1, unique + [vals[n]], u + [n], duplicates, d)
  {
    IsPartStep(vals, n, false, unique, u);
    IsPartStep(vals, n, true, duplicates, d);
    SeparatesStep(vals, n, unique, duplicates);
  }

  lemma PartsEnd(vals: seq<EnumerValue>, unique: seq<EnumerValue>, u: seq<nat>, duplicates: seq<EnumerValue>,
                 d: seq<nat>)
    requires Parts(vals, |vals|, unique, u, duplicates, d)
    ensures Marked(vals) ==> Datas(unique) == Kept(Datas(vals)) && Datas(duplicates) == Aliases(Datas(vals))
  {
    assert Datas(vals)[..|vals|] == Datas(vals);
  }

  /** _partition_duplicates: the unmarked and the marked values, each in order */
  method PartitionDuplicates(vals: seq<EnumerValue>)
    returns (unique: seq<EnumerValue>, duplicates: seq<EnumerValue>, ghost u: seq<nat>, ghost d: seq<nat>)
    ensures Marked(vals) ==> Datas(unique) == Kept(Datas(vals)) && Datas(duplicates) == Aliases(Datas(vals))
    ensures IsPart(vals, |vals|, false, unique, u) && IsPart(vals, |vals|, true, duplicates, d)
  {
    unique, duplicates, u, d := Divide(vals);
    PartsEnd(vals, unique, u, duplicates, d);
  }

  method Divide(vals: seq<EnumerValue>)
    returns (unique: seq<EnumerValue>, duplicates: seq<EnumerValue>, ghost u: seq<nat>, ghost d: seq<nat>)
    ensures Parts(vals, |vals|, unique, u, duplicates, d)
  {
    unique, duplicates, u, d := [], [], [], [];
    for n := 0 to |vals|
      invariant Parts(vals, n, unique, u, duplicates, d)
    {
      PartsStep(vals, n, unique, u, duplicates, d);
      if vals[n].duplicate {
        duplicates, d := duplicates + [vals[n]], d + [n];
      } else {
        unique, u := unique + [vals[n]], u + [n];
      }
    }
  }

  // ----- The emitted converters -----

  datatype Row = Row(name: string, value: nat)

  /** Row p of the table is the row of the value p. */
  ghost predicate Direct(table: seq<Row>) {
    forall p :: 0 <= p < |table| ==> table[p].value == p
  }

  ghost predicate DistinctNames(table: seq<Row>) {
    forall i, j :: 0 <= i < j < |table| ==> table[i].name != table[j].name
  }

  /** The rows of the names in order, with the values that C gives them. */
  ghost predicate IsTable(vals: seq<Value>, table: seq<Row>) {
    |table| == |vals|
    && forall i :: 0 <= i < |table| ==> table[i].name == vals[i].display && CValue(vals, i) == Some(table[i].value)
  }

  /** The first row that has the value; the text for an unknown value when there is none. */
  function NameOf(table: seq<Row>, p: nat): string {
    if table == [] then "???" else if table[0].value == p then table[0].name else NameOf(table[1..], p)
  }

  /** The search: the first row with the value, or the text for an unknown one. */
  method SparseToString(table: seq<Row>, p: nat) returns (s: string)
    ensures s == NameOf(table, p)
    ensures forall i :: 0 <= i < |table| && table[i].value == p && (forall j :: 0 <= j < i ==> table[j].value != p) ==>
      s == table[i].name
    ensures (forall j :: 0 <= j < |table| ==> table[j].value != p) ==> s == "???"
  {
    s := FindValue(table, p);
    forall i | 0 <= i < |table| && table[i].value == p && (forall j :: 0 <= j < i ==> table[j].value != p)
      ensures s == table[i].name
    {
      NameOfIs(table, p, i);
    }
    if forall j :: 0 <= j < |table| ==> table[j].value != p {
      NoNameOf(table, p);
    }
  }

  method FindValue(table: seq<Row>, p: nat) returns (s: string)
    ensures s == NameOf(table, p)
  {
    for q := 0 to |table|
      invariant NameOf(table, p) == NameOf(table[q..], p)
    {
      if table[q].value == p {
        return table[q].name;
      }
    }
    return "???";
  }

  /** The value of the first row that has the name. */
  function Named(table: seq<Row>, s: string): Option<nat> {
    if table == [] then None
    else if table[0].name == s then Some(table[0].value)
    else Named(table[1..], s)
  }

  function Parsed(table: seq<Row>, aliases: seq<Row>, s: string, invalid: nat): nat {
    if Named(table, s).Some? then Named(table, s).value
    else if Named(aliases, s).Some? then Named(aliases, s).value
    else invalid
  }

  /** One of the two loops of the string converter. */
  method FindNamed(table: seq<Row>, s: string) returns (v: Option<nat>)
    ensures v == Named(table, s)
  {
    for p := 0 to |table|
      invariant Named(table, s) == Named(table[p..], s)
    {
      if table[p].name == s {
        return Some(table[p].value);
      }
    }
    return None;
  }

  /** Row i is the first one with the name. */
  ghost predicate FirstNamed(table: seq<Row>, s: string, i: nat) {
    i < |table| && table[i].name == s && forall j :: 0 <= j < i ==> table[j].name != s
  }

  method FromString(table: seq<Row>, aliases: seq<Row>, s: string, invalid: nat) returns (v: nat)
    ensures v == Parsed(table, aliases, s, invalid)
    ensures forall i: nat :: FirstNamed(table, s, i) ==> v == table[i].value
    ensures (forall j :: 0 <= j < |table| ==> table[j].name != s) ==>
      forall i: nat :: FirstNamed(aliases, s, i) ==> v == aliases[i].value
    ensures (forall j :: 0 <= j < |table| ==> table[j].name != s) ==>
      (forall j :: 0 <= j < |aliases| ==> aliases[j].name != s) ==> v == invalid
  {
    v := Parse(table, aliases, s, invalid);
    forall i: nat ensures FirstNamed(table, s, i) ==> Named(table, s) == Some(table[i].value) {
      if FirstNamed(table, s, i) {
        NamedIs(table, s, i);
      }
    }
    forall i: nat ensures FirstNamed(aliases, s, i) ==> Named(aliases, s) == Some(aliases[i].value) {
      if FirstNamed(aliases, s, i) {
        NamedIs(aliases, s, i);
      }
    }
    if forall j :: 0 <= j < |table| ==> table[j].name != s {
      NotNamed(table, s);
    }
    if forall j :: 0 <= j < |aliases| ==> aliases[j].name != s {
      NotNamed(aliases, s);
    }
  }

  method Parse(table: seq<Row>, aliases: seq<Row>, s: string, invalid: nat) returns (v: nat)
    ensures v == Parsed(table, aliases, s, invalid)
  {
    var found := FindNamed(table, s);
    if found.Some? {
      return found.value;
    }
    found := FindNamed(aliases, s);
    if found.Some? {
      return found.value;
    }
    return invalid;
  }

  // ----- What the converters are for -----

  /** The table of a dense enumeration has every value at its own position exactly when no number in
      it is misread. */
  lemma DenseTableIsDirect(vals: seq<Value>, last: Value, table: seq<Row>)
    requires Dense(vals) && last.text.None? && IsTable(Kept(vals) + [last], table)
    ensures Direct(table) <==> NoneMisread(Kept(vals))
  {
    DenseIsPositional(vals, last);
    var all := Kept(vals) + [last];
    assert forall i :: 0 <= i < |table| ==> CValue(all, i) == Some(table[i].value);
  }

  lemma {:induction false} NameOfIs(table: seq<Row>, p: nat, i: nat)
    requires i < |table| && table[i].value == p && forall j :: 0 <= j < i ==> table[j].value != p
    ensures NameOf(table, p) == table[i].name
    decreases i
  {
    if i > 0 {
      NameOfIs(table[1..], p, i - 1);
    }
  }

  lemma {:induction false} NoNameOf(table: seq<Row>, p: nat)
    requires forall j :: 0 <= j < |table| ==> table[j].value != p
    ensures NameOf(table, p) == "???"
    decreases |table|
  {
    if table != [] {
      NoNameOf(table[1..], p);
    }
  }

  /** The direct lookup and the search agree on all values up to the last one, and above it they
      differ: the search finds nothing. */
  lemma DenseAgreesWithSparse(table: seq<Row>, p: nat)
    requires Direct(table)
    ensures p < |table| ==> NameOf(table, p) == table[p].name
    ensures p >= |table| ==> NameOf(table, p) == "???"
  {
    if p < |table| {
      NameOfIs(table, p, p);
    } else {
      NoNameOf(table, p);
    }
  }

  /** The direct lookup, where last is the value of the last name: in a table with every value at its
      own position it shows what the search finds, for values above the last one the last name. */
  method DenseToString(table: seq<Row>, last: nat, p: nat) returns (s: string)
    requires last < |table|
    ensures Direct(table) && |table| == last + 1 ==> s == NameOf(table, if p > last then last else p)
    ensures s == table[if p > last then last else p].name
  {
    var index := p;
    if p > last {
      index := last;
    }
    s := table[index].name;
    if Direct(table) {
      DenseAgreesWithSparse(table, index);
    }
  }

  /** With different texts shown, the direct lookup agrees with the search on every value only in a
      table with every value at its own position. */
  lemma AgreementNeedsPositions(table: seq<Row>)
    requires DistinctNames(table) && forall i :: 0 <= i < |table| ==> table[i].name != "???"
    ensures Direct(table) <==> forall p :: 0 <= p < |table| ==> NameOf(table, p) == table[p].name
  {
    forall p | 0 <= p < |table| ensures NameOf(table, p) == table[p].name ==> table[p].value == p {
      NamedRowIsDirect(table, p);
    }
    if Direct(table) {
      forall p | 0 <= p < |table| ensures NameOf(table, p) == table[p].name {
        DenseAgreesWithSparse(table, p);
      }
    }
  }

  lemma NamedRowIsDirect(table: seq<Row>, p: nat)
    requires DistinctNames(table) && p < |table| && table[p].name != "???"
    ensures NameOf(table, p) == table[p].name ==> table[p].value == p
  {
    NameIsOfRow(table, p);
  }

  lemma {:induction false} NameIsOfRow(table: seq<Row>, p: nat)
    ensures NameOf(table, p) == "???" || exists i :: 0 <= i < |table| && table[i] == Row(NameOf(table, p), p)
    decreases |table|
  {
    if table != [] {
      NameIsOfRow(table[1..], p);
      if i :| 0 <= i < |table| - 1 && table[1..][i] == Row(NameOf(table[1..], p), p) {
        assert table[i + 1] == table[1..][i];
      }
      if table[0].value == p {
        assert table[0] == Row(NameOf(table, p), p);
      }
    }
  }

  lemma {:induction false} NamedIs(table: seq<Row>, s: string, i: nat)
    requires i < |table| && table[i].name == s && forall j :: 0 <= j < i ==> table[j].name != s
    ensures Named(table, s) == Some(table[i].value)
    decreases i
  {
    if i > 0 {
      NamedIs(table[1..], s, i - 1);
    }
  }

  lemma {:induction false} NotNamed(table: seq<Row>, s: string)
    requires forall j :: 0 <= j < |table| ==> table[j].name != s
    ensures Named(table, s) == None
    decreases |table|
  {
    if table != [] {
      NotNamed(table[1..], s);
    }
  }

  ghost predicate ParsesBack(table: seq<Row>, aliases: seq<Row>, invalid: nat) {
    forall p :: 0 <= p < |table| ==> Parsed(table, aliases, NameOf(table, p), invalid) == p
  }

  lemma DistinctParsesBack(table: seq<Row>, aliases: seq<Row>, invalid: nat)
    requires Direct(table) && DistinctNames(table)
    ensures ParsesBack(table, aliases, invalid)
  {
    forall p | 0 <= p < |table| ensures Parsed(table, aliases, NameOf(table, p), invalid) == p {
      DenseAgreesWithSparse(table, p);
      NamedIs(table, table[p].name, p);
    }
  }

  /** Two values that show alike cannot both be parsed back. */
  lemma AlikeParsesOnce(table: seq<Row>, aliases: seq<Row>, invalid: nat, i: nat, j: nat)
    requires Direct(table) && i < j < |table| && table[i].name == table[j].name
    ensures !ParsesBack(table, aliases, invalid)
  {
    DenseAgreesWithSparse(table, i);
    DenseAgreesWithSparse(table, j);
    var v := Parsed(table, aliases, table[i].name, invalid);
    assert Parsed(table, aliases, NameOf(table, i), invalid) == v;
    assert Parsed(table, aliases, NameOf(table, j), invalid) == v;
  }

  /** Parsing what is shown gives every value back exactly when no two shown texts are the same. */
  lemma RoundTrip(table: seq<Row>, aliases: seq<Row>, invalid: nat)
    requires Direct(table)
    ensures DistinctNames(table) <==> ParsesBack(table, aliases, invalid)
  {
    if DistinctNames(table) {
      DistinctParsesBack(table, aliases, invalid);
    } else {
      var i, j :| 0 <= i < j < |table| && table[i].name == table[j].name;
      AlikeParsesOnce(table, aliases, invalid, i, j);
    }
  }

  /** The rows of the aliases with the values of the names they stand for. */
  ghost predicate IsAliasTable(all: seq<Value>, aliases: seq<Value>, rows: seq<Row>) {
    |rows| == |aliases|
    && forall k :: 0 <= k < |rows| ==>
         rows[k].name == aliases[k].display && AliasValue(all, aliases, k) == Some(rows[k].value)
  }

  /** The text of an alias, where no other name shows the same, parses to the value of the name that
      it stands for, be it a name of the table or an alias itself; and that value shows as some name
      of the table. */
  lemma AliasParses(vals: seq<Value>, last: Value, table: seq<Row>, rows: seq<Row>, k: nat, invalid: nat)
    requires IsTable(Kept(vals) + [last], table) && IsAliasTable(Kept(vals) + [last], Aliases(vals), rows)
    requires k < |rows|
    requires forall j :: 0 <= j < |table| ==> table[j].name != rows[k].name
    requires forall j :: 0 <= j < k ==> rows[j].name != rows[k].name
    ensures AliasValue(Kept(vals) + [last], Aliases(vals), k) == Some(Parsed(table, rows, rows[k].name, invalid))
    ensures Direct(table) ==>
      var v := Parsed(table, rows, rows[k].name, invalid);
      v < |table| && NameOf(table, v) == (Kept(vals) + [last])[v].display
  {
    NotNamed(table, rows[k].name);
    NamedIs(rows, rows[k].name, k);
    if Direct(table) {
      assert Positional(Kept(vals) + [last]);
      AliasHasValue(vals, last, k);
      DenseAgreesWithSparse(table, rows[k].value);
    }
  }
}
