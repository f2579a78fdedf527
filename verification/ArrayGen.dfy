/** The lookup-array generator of pysrc/codegen.py: entries with missing indices are replicated over
    all present values of those indices, one index a pass, and then written out as assignments. */
module ArrayGen {
  import opened Wrappers

  /** A value for the positions with these indices; an index may be missing. */
  datatype Entry = Entry(indices: map<string, string>, value: string)

  /** One emitted assignment: name[coords...]=value; */
  datatype Line = Line(coords: seq<string>, value: string)

  // ----- What an entry list stands for -----

  /** The values of an index among the entries, each once, in the order of their first use. */
  function Present(values: seq<Entry>, key: string): seq<string> {
    if values == [] then []
    else
      var last := |values| - 1;
      var before := Present(values[..last], key);
      if key in values[last].indices && values[last].indices[key] !in before
      then before + [values[last].indices[key]]
      else before
  }

  /** The entry covers the position p: it agrees on the indices it has, and takes any value that the
      index has in the original entries where it has none. */
  ghost predicate Covers(original: seq<Entry>, dims: seq<string>, e: Entry, p: string -> string) {
    forall k :: k in dims ==>
      if k in e.indices then e.indices[k] == p(k) else p(k) in Present(original, k)
  }

  /** The value at p: that of the last entry that covers it. */
  ghost function Meaning(original: seq<Entry>, dims: seq<string>, values: seq<Entry>, p: string -> string)
    : Option<string>
  {
    if values == [] then None
    else
      var last := |values| - 1;
      if Covers(original, dims, values[last], p) then Some(values[last].value)
      else Meaning(original, dims, values[..last], p)
  }

  /** The assignments executed in order. */
  function Run(lines: seq<Line>): map<seq<string>, string> {
    if lines == [] then map[]
    else Run(lines[..|lines| - 1])[lines[|lines| - 1].coords := lines[|lines| - 1].value]
  }

  function CoordsOf(dims: seq<string>, p: string -> string): (c: seq<string>)
    ensures |c| == |dims| && forall j :: 0 <= j < |dims| ==> c[j] == p(dims[j])
  {
    seq(|dims|, j requires 0 <= j < |dims| => p(dims[j]))
  }

  // ----- One pass on values -----

  /** The missing index that a pass fills: the last one in the order of the dimensions. */
  function LastMissing(dims: seq<string>, e: Entry): (r: Option<string>)
    ensures r.None? <==> Complete(dims, e)
    ensures r.Some? ==> r.value in dims && r.value !in e.indices
  {
    if dims == [] then None
    else if dims[|dims| - 1] !in e.indices then Some(dims[|dims| - 1])
    else LastMissing(dims[..|dims| - 1], e)
  }

  predicate Complete(dims: seq<string>, e: Entry) {
    forall k :: k in dims ==> k in e.indices
  }

  function Copies(e: Entry, key: string, vs: seq<string>): (r: seq<Entry>)
    ensures |r| == |vs|
    ensures forall i :: 0 <= i < |vs| ==> r[i] == Entry(e.indices[key := vs[i]], e.value)
  {
    seq(|vs|, i requires 0 <= i < |vs| => Entry(e.indices[key := vs[i]], e.value))
  }

  function Replicated(dims: seq<string>, values: seq<Entry>, e: Entry): seq<Entry> {
    match LastMissing(dims, e)
    case None => [e]
    case Some(k) => Copies(e, k, Present(values, k))
  }

  function Passed(dims: seq<string>, values: seq<Entry>, todo: seq<Entry>): seq<Entry> {
    if todo == [] then []
    else Passed(dims, values, todo[..|todo| - 1]) + Replicated(dims, values, todo[|todo| - 1])
  }

  // ----- The measure -----

  function Missing(dims: seq<string>, e: Entry): set<string> {
    set k | k in dims && k !in e.indices
  }

  /** The largest number of missing indices of an entry. */
  function MaxMissing(dims: seq<string>, values: seq<Entry>): (m: nat)
    ensures forall i :: 0 <= i < |values| ==> |Missing(dims, values[i])| <= m
    ensures m > 0 ==> exists i :: 0 <= i < |values| && |Missing(dims, values[i])| == m
  {
    if values == [] then 0
    else
      var n := |values| - 1;
      var m := MaxMissing(dims, values[..n]);
      assert forall i :: 0 <= i < n ==> values[..n][i] == values[i];
      if |Missing(dims, values[n])| > m then |Missing(dims, values[n])| else m
  }

  lemma ReplicatedMissesLess(dims: seq<string>, values: seq<Entry>, e: Entry, i: nat)
    requires i < |Replicated(dims, values, e)|
    ensures var m := |Missing(dims, e)|;
      |Missing(dims, Replicated(dims, values, e)[i])| == if m == 0 then 0 else m - 1
  {
    match LastMissing(dims, e) {
      case None =>
        assert Missing(dims, e) == {};
      case Some(k) =>
        assert k in Missing(dims, e);
        assert Missing(dims, Replicated(dims, values, e)[i]) == Missing(dims, e) - {k};
    }
  }

  lemma {:induction false} PassMissesLess(dims: seq<string>, values: seq<Entry>, todo: seq<Entry>, m: nat)
    requires forall i :: 0 <= i < |todo| ==> |Missing(dims, todo[i])| <= m
    ensures forall i :: 0 <= i < |Passed(dims, values, todo)| ==>
      |Missing(dims, Passed(dims, values, todo)[i])| <= if m == 0 then 0 else m - 1
    decreases |todo|
  {
    if todo != [] {
      var n := |todo| - 1;
      var before, added := Passed(dims, values, todo[..n]), Replicated(dims, values, todo[n]);
      PassMissesLess(dims, values, todo[..n], m);
      forall i | 0 <= i < |before + added|
        ensures |Missing(dims, (before + added)[i])| <= if m == 0 then 0 else m - 1
      {
        if i >= |before| {
          ReplicatedMissesLess(dims, values, todo[n], i - |before|);
        }
      }
    }
  }

  /** A pass that had something to fill brings the measure down. */
  lemma PassDecreases(dims: seq<string>, values: seq<Entry>)
    requires exists i :: 0 <= i < |values| && !Complete(dims, values[i])
    ensures MaxMissing(dims, Passed(dims, values, values)) < MaxMissing(dims, values)
  {
    var i :| 0 <= i < |values| && !Complete(dims, values[i]);
    var k :| k in dims && k !in values[i].indices;
    assert k in Missing(dims, values[i]);
    PassMissesLess(dims, values, values, MaxMissing(dims, values));
  }

  // ----- A pass keeps the meaning -----

  ghost predicate SamePresent(original: seq<Entry>, dims: seq<string>, values: seq<Entry>) {
    forall k, v :: k in dims ==> (v in Present(values, k) <==> v in Present(original, k))
  }

  lemma {:induction false} PresentIs(values: seq<Entry>, k: string, v: string)
    ensures v in Present(values, k) <==>
      exists i :: 0 <= i < |values| && k in values[i].indices && values[i].indices[k] == v
    decreases |values|
  {
    if values != [] {
      var last := |values| - 1;
      PresentIs(values[..last], k, v);
      assert forall i :: 0 <= i < last ==> values[..last][i] == values[i];
    }
  }

  /** Entry a has the value at the index, and none before it has. */
  ghost predicate FirstWith(values: seq<Entry>, key: string, v: string, a: nat) {
    && a < |values| && key in values[a].indices && values[a].indices[key] == v
    && forall b :: 0 <= b < a ==> !(key in values[b].indices && values[b].indices[key] == v)
  }

  /** The places of the first uses rise along the list, which has every value of the index once. */
  ghost predicate PresentPlaces(values: seq<Entry>, key: string, present: seq<string>, pos: seq<nat>) {
    && |pos| == |present| && (forall i, j :: 0 <= i < j < |pos| ==> pos[i] < pos[j])
    && forall i :: 0 <= i < |pos| ==> FirstWith(values, key, present[i], pos[i])
  }

  lemma {:induction false} PresentInOrder(values: seq<Entry>, key: string) returns (pos: seq<nat>)
    ensures PresentPlaces(values, key, Present(values, key), pos)
    decreases |values|
  {
    pos := [];
    if values != [] {
      var last := |values| - 1;
      pos := PresentInOrder(values[..last], key);
      PlacesStay(values, last, key, Present(values[..last], key), pos);
      if key in values[last].indices && values[last].indices[key] !in Present(values[..last], key) {
        NewAtLast(values, last, key);
        PlacesGrow(values, last, key, Present(values[..last], key), pos);
        pos := pos + [last];
      }
    }
  }

  lemma PlacesStay(values: seq<Entry>, n: nat, key: string, present: seq<string>, pos: seq<nat>)
    requires n <= |values| && PresentPlaces(values[..n], key, present, pos)
    ensures PresentPlaces(values, key, present, pos) && forall i :: 0 <= i < |pos| ==> pos[i] < n
  {
    forall i | 0 <= i < |pos| ensures FirstWith(values, key, present[i], pos[i]) && pos[i] < n {
      assert FirstWith(values[..n], key, present[i], pos[i]);
      assert forall b :: 0 <= b <= pos[i] ==> values[..n][b] == values[b];
    }
  }

  lemma PlacesGrow(values: seq<Entry>, n: nat, key: string, present: seq<string>, pos: seq<nat>)
    requires PresentPlaces(values, key, present, pos) && forall i :: 0 <= i < |pos| ==> pos[i] < n
    requires n < |values| && key in values[n].indices && FirstWith(values, key, values[n].indices[key], n)
    ensures PresentPlaces(values, key, present + [values[n].indices[key]], pos + [n])
  {
  }

  lemma NewAtLast(values: seq<Entry>, n: nat, key: string)
    requires n < |values| && key in values[n].indices && values[n].indices[key] !in Present(values[..n], key)
    ensures FirstWith(values, key, values[n].indices[key], n)
  {
    PresentIs(values[..n], key, values[n].indices[key]);
    forall b | 0 <= b < n ensures !(key in values[b].indices && values[b].indices[key] == values[n].indices[key]) {
      assert values[..n][b] == values[b];
    }
  }

  lemma {:induction false} MeaningConcat(original: seq<Entry>, dims: seq<string>, a: seq<Entry>, b: seq<Entry>,
                                         p: string -> string)
    ensures Meaning(original, dims, a + b, p) ==
      if Meaning(original, dims, b, p).Some? then Meaning(original, dims, b, p) else Meaning(original, dims, a, p)
    decreases |b|
  {
    if b == [] {
      assert a + b == a;
    } else {
      MeaningConcat(original, dims, a, b[..|b| - 1], p);
      assert (a + b)[..|a + b| - 1] == a + b[..|b| - 1];
    }
  }

  ghost predicate SomeCovers(original: seq<Entry>, dims: seq<string>, values: seq<Entry>, p: string -> string) {
    exists i :: 0 <= i < |values| && Covers(original, dims, values[i], p)
  }

  lemma SomeCoversStep(original: seq<Entry>, dims: seq<string>, values: seq<Entry>, last: nat, p: string -> string)
    requires |values| == last + 1
    ensures SomeCovers(original, dims, values, p) <==>
      SomeCovers(original, dims, values[..last], p) || Covers(original, dims, values[last], p)
  {
    assert forall i :: 0 <= i < last ==> values[..last][i] == values[i];
  }

  lemma {:induction false} UniformMeaning(original: seq<Entry>, dims: seq<string>, values: seq<Entry>, value: string,
                                          p: string -> string)
    requires forall i :: 0 <= i < |values| ==> values[i].value == value
    ensures Meaning(original, dims, values, p) ==
      if SomeCovers(original, dims, values, p) then Some(value) else None
    decreases |values|
  {
    if values != [] {
      var last := |values| - 1;
      UniformMeaning(original, dims, values[..last], value, p);
      SomeCoversStep(original, dims, values, last, p);
    }
  }

  lemma CopyCovers(original: seq<Entry>, dims: seq<string>, e: Entry, k: string, v: string, p: string -> string)
    requires k in dims && k !in e.indices && v in Present(original, k)
    ensures Covers(original, dims, Entry(e.indices[k := v], e.value), p) <==>
      Covers(original, dims, e, p) && p(k) == v
  {
    var c := Entry(e.indices[k := v], e.value);
    if Covers(original, dims, c, p) {
      assert p(k) == v;
      forall j | j in dims
        ensures if j in e.indices then e.indices[j] == p(j) else p(j) in Present(original, j)
      {
        assert j == k || (j in c.indices <==> j in e.indices);
      }
    }
  }

  lemma ReplicatedMeans(original: seq<Entry>, dims: seq<string>, values: seq<Entry>, e: Entry, p: string -> string)
    requires SamePresent(original, dims, values)
    ensures Meaning(original, dims, Replicated(dims, values, e), p) == Meaning(original, dims, [e], p)
  {
    UniformMeaning(original, dims, [e], e.value, p);
    match LastMissing(dims, e) {
      case None =>
      case Some(k) =>
        var copies := Replicated(dims, values, e);
        UniformMeaning(original, dims, copies, e.value, p);
        forall i | 0 <= i < |copies|
          ensures Covers(original, dims, copies[i], p) <==>
            Covers(original, dims, e, p) && p(k) == Present(values, k)[i]
        {
          CopyCovers(original, dims, e, k, Present(values, k)[i], p);
        }
        if Covers(original, dims, e, p) {
          assert p(k) in Present(original, k);
          var i :| 0 <= i < |copies| && Present(values, k)[i] == p(k);
          assert Covers(original, dims, copies[i], p);
          assert Covers(original, dims, [e][0], p);
        }
    }
  }

  lemma MeaningStep(original: seq<Entry>, dims: seq<string>, a: seq<Entry>, b: seq<Entry>, todo: seq<Entry>, n: nat,
                    p: string -> string)
    requires |todo| == n + 1
    requires Meaning(original, dims, a, p) == Meaning(original, dims, todo[..n], p)
    requires Meaning(original, dims, b, p) == Meaning(original, dims, [todo[n]], p)
    ensures Meaning(original, dims, a + b, p) == Meaning(original, dims, todo, p)
  {
    MeaningConcat(original, dims, a, b, p);
    MeaningConcat(original, dims, todo[..n], [todo[n]], p);
    assert todo[..n] + [todo[n]] == todo;
  }

  lemma {:induction false} PassMeans(original: seq<Entry>, dims: seq<string>, values: seq<Entry>, todo: seq<Entry>,
                                     p: string -> string)
    requires SamePresent(original, dims, values)
    ensures Meaning(original, dims, Passed(dims, values, todo), p) == Meaning(original, dims, todo, p)
    decreases |todo|
  {
    if todo != [] {
      var n := |todo| - 1;
      PassMeans(original, dims, values, todo[..n], p);
      ReplicatedMeans(original, dims, values, todo[n], p);
      MeaningStep(original, dims, Passed(dims, values, todo[..n]), Replicated(dims, values, todo[n]), todo, n, p);
    }
  }

  // ----- A pass keeps the present values -----

  lemma {:induction false} InPassed(dims: seq<string>, values: seq<Entry>, todo: seq<Entry>, c: Entry)
    ensures c in Passed(dims, values, todo) <==> SomeReplica(dims, values, todo, c)
    decreases |todo|
  {
    if todo != [] {
      var n := |todo| - 1;
      InPassed(dims, values, todo[..n], c);
      PassedLast(dims, values, todo, c);
      ReplicaStep(dims, values, todo[..n], todo[n], c);
      assert todo == todo[..n] + [todo[n]];
    }
  }

  lemma PassedLast(dims: seq<string>, values: seq<Entry>, todo: seq<Entry>, c: Entry)
    requires todo != []
    ensures var n := |todo| - 1;
      c in Passed(dims, values, todo) <==>
        c in Passed(dims, values, todo[..n]) || c in Replicated(dims, values, todo[n])
  {
  }

  lemma ReplicaStep(dims: seq<string>, values: seq<Entry>, todo: seq<Entry>, e: Entry, c: Entry)
    ensures SomeReplica(dims, values, todo + [e], c) <==>
      SomeReplica(dims, values, todo, c) || c in Replicated(dims, values, e)
  {
    var more := todo + [e];
    if i :| 0 <= i < |todo| && c in Replicated(dims, values, todo[i]) {
      assert c in Replicated(dims, values, more[i]);
    }
    if c in Replicated(dims, values, e) {
      assert c in Replicated(dims, values, more[|todo|]);
    }
  }

  ghost predicate SomeReplica(dims: seq<string>, values: seq<Entry>, todo: seq<Entry>, c: Entry) {
    exists i :: 0 <= i < |todo| && c in Replicated(dims, values, todo[i])
  }

  lemma ReplicaAddsNoValue(dims: seq<string>, values: seq<Entry>, i: nat, c: Entry, k: string)
    requires i < |values| && c in Replicated(dims, values, values[i]) && k in c.indices
    ensures c.indices[k] in Present(values, k)
  {
    var e := values[i];
    PresentIs(values, k, c.indices[k]);
    match LastMissing(dims, e) {
      case None =>
      case Some(key) =>
        var j :| 0 <= j < |Present(values, key)| && c == Entry(e.indices[key := Present(values, key)[j]], e.value);
    }
  }

  lemma PassAddsNoValue(dims: seq<string>, values: seq<Entry>, k: string, v: string)
    requires v in Present(Passed(dims, values, values), k)
    ensures v in Present(values, k)
  {
    var passed := Passed(dims, values, values);
    PresentIs(passed, k, v);
    var j :| 0 <= j < |passed| && k in passed[j].indices && passed[j].indices[k] == v;
    InPassed(dims, values, values, passed[j]);
    var i :| 0 <= i < |values| && passed[j] in Replicated(dims, values, values[i]);
    ReplicaAddsNoValue(dims, values, i, passed[j], k);
  }

  lemma PassLosesNoValue(dims: seq<string>, values: seq<Entry>, k: string, v: string)
    requires forall d :: d in dims ==> Present(values, d) != []
    requires v in Present(values, k)
    ensures v in Present(Passed(dims, values, values), k)
  {
    var passed := Passed(dims, values, values);
    PresentIs(passed, k, v);
    PresentIs(values, k, v);
    var i :| 0 <= i < |values| && k in values[i].indices && values[i].indices[k] == v;
    var c := Replicated(dims, values, values[i])[0];
    assert c in Replicated(dims, values, values[i]);
    InPassed(dims, values, values, c);
    assert c.indices[k] == v;
  }

  // ----- The loop -----

  ghost predicate AllPresent(values: seq<Entry>, dims: seq<string>) {
    forall k :: k in dims ==> Present(values, k) != []
  }

  /** What every pass keeps: the present values and the meaning; or, when some index has no value
      anywhere, that it has none. */
  ghost predicate Kept(original: seq<Entry>, dims: seq<string>, values: seq<Entry>) {
    if AllPresent(original, dims) then SamePresent(original, dims, values) && SameMeaning(original, dims, values)
    else exists k :: k in dims && Present(original, k) == [] && Present(values, k) == []
  }

  ghost predicate SameMeaning(original: seq<Entry>, dims: seq<string>, values: seq<Entry>) {
    forall p: string -> string ::
      Meaning(original, dims, values, p) == Meaning(original, dims, original, p)
  }

  lemma PassKeepsPresent(original: seq<Entry>, dims: seq<string>, values: seq<Entry>)
    requires AllPresent(original, dims) && SamePresent(original, dims, values)
    ensures SamePresent(original, dims, Passed(dims, values, values))
  {
    forall d | d in dims ensures Present(values, d) != [] {
      assert Present(original, d)[0] in Present(original, d);
    }
    forall k, v | k in dims
      ensures v in Present(Passed(dims, values, values), k) <==> v in Present(original, k)
    {
      if v in Present(Passed(dims, values, values), k) {
        PassAddsNoValue(dims, values, k, v);
      }
      if v in Present(values, k) {
        PassLosesNoValue(dims, values, k, v);
      }
    }
  }

  lemma PassKeeps(original: seq<Entry>, dims: seq<string>, values: seq<Entry>)
    requires Kept(original, dims, values)
    ensures Kept(original, dims, Passed(dims, values, values))
  {
    var passed := Passed(dims, values, values);
    if AllPresent(original, dims) {
      PassKeepsPresent(original, dims, values);
      forall p: string -> string
        ensures Meaning(original, dims, passed, p) == Meaning(original, dims, original, p)
      {
        PassMeans(original, dims, values, values, p);
      }
    } else {
      var k :| k in dims && Present(original, k) == [] && Present(values, k) == [];
      if Present(passed, k) != [] {
        PassAddsNoValue(dims, values, k, Present(passed, k)[0]);
      }
    }
  }

  ghost predicate AllComplete(dims: seq<string>, values: seq<Entry>) {
    forall i :: 0 <= i < |values| ==> Complete(dims, values[i])
  }

  lemma {:induction false} NothingCovered(original: seq<Entry>, dims: seq<string>, values: seq<Entry>, k: string,
                                          p: string -> string)
    requires k in dims && Present(original, k) == [] && Present(values, k) == []
    ensures Meaning(original, dims, values, p) == None
    decreases |values|
  {
    if values != [] {
      var last := |values| - 1;
      PresentIs(values, k, if k in values[last].indices then values[last].indices[k] else "");
      NothingCovered(original, dims, values[..last], k, p);
    }
  }

  /** Once nothing is missing, the entries mean what the original ones do. */
  lemma CompleteMeans(original: seq<Entry>, dims: seq<string>, values: seq<Entry>, p: string -> string)
    requires Kept(original, dims, values) && AllComplete(dims, values)
    ensures Meaning(original, dims, values, p) == Meaning(original, dims, original, p)
  {
    if !AllPresent(original, dims) {
      var k :| k in dims && Present(original, k) == [] && Present(values, k) == [];
      NothingCovered(original, dims, values, k, p);
      NothingCovered(original, dims, original, k, p);
    }
  }

  lemma CompleteCovers(original: seq<Entry>, dims: seq<string>, e: Entry, coords: seq<string>, p: string -> string)
    requires Complete(dims, e) && |coords| == |dims|
    requires forall j :: 0 <= j < |dims| ==> coords[j] == e.indices[dims[j]]
    ensures Covers(original, dims, e, p) <==> coords == CoordsOf(dims, p)
  {
    if coords == CoordsOf(dims, p) {
      forall k | k in dims ensures e.indices[k] == p(k) {
        var j :| 0 <= j < |dims| && dims[j] == k;
        assert coords[j] == CoordsOf(dims, p)[j];
      }
    }
  }

  /** The lines write exactly the entries, in order. */
  ghost predicate Writes(dims: seq<string>, values: seq<Entry>, lines: seq<Line>) {
    && |lines| == |values| && AllComplete(dims, values)
    && forall i :: 0 <= i < |lines| ==>
         && lines[i].value == values[i].value && |lines[i].coords| == |dims|
         && forall j :: 0 <= j < |dims| ==> lines[i].coords[j] == values[i].indices[dims[j]]
  }

  lemma {:induction false} RunMeans(original: seq<Entry>, dims: seq<string>, values: seq<Entry>, lines: seq<Line>,
                                    p: string -> string)
    requires Writes(dims, values, lines)
    ensures var c := CoordsOf(dims, p);
      Meaning(original, dims, values, p) == if c in Run(lines) then Some(Run(lines)[c]) else None
    decreases |lines|
  {
    if lines != [] {
      var n := |lines| - 1;
      assert forall i :: 0 <= i < n ==> lines[..n][i] == lines[i] && values[..n][i] == values[i];
      RunMeans(original, dims, values[..n], lines[..n], p);
      CompleteCovers(original, dims, values[n], lines[n].coords, p);
    }
  }

  // ----- The emitted lines in terms of the entries alone -----

  /** Entry i covers p: it agrees on the indices that it has, and where it has none, some entry has
      the index with the value at p. */
  ghost predicate EntryCovers(entries: seq<Entry>, dims: seq<string>, i: nat, p: string -> string)
    requires i < |entries|
  {
    forall k :: k in dims ==>
      if k in entries[i].indices then entries[i].indices[k] == p(k)
      else exists m :: 0 <= m < |entries| && k in entries[m].indices && entries[m].indices[k] == p(k)
  }

  /** Entry i is the last one that covers p. */
  ghost predicate LastCovers(entries: seq<Entry>, dims: seq<string>, i: nat, p: string -> string) {
    && i < |entries| && EntryCovers(entries, dims, i, p)
    && forall j :: i < j < |entries| ==> !EntryCovers(entries, dims, j, p)
  }

  /** Line l is the last one that assigns to the position p. */
  ghost predicate LastAssigns(lines: seq<Line>, dims: seq<string>, l: nat, p: string -> string) {
    && l < |lines| && |lines[l].coords| == |dims| && (forall j :: 0 <= j < |dims| ==> lines[l].coords[j] == p(dims[j]))
    && forall m :: l < m < |lines| ==> lines[m].coords != lines[l].coords
  }

  lemma CoversIs(entries: seq<Entry>, dims: seq<string>, i: nat, p: string -> string)
    requires i < |entries|
    ensures Covers(entries, dims, entries[i], p) <==> EntryCovers(entries, dims, i, p)
  {
    forall k | k in dims
      ensures p(k) in Present(entries, k) <==>
        exists m :: 0 <= m < |entries| && k in entries[m].indices && entries[m].indices[k] == p(k)
    {
      PresentIs(entries, k, p(k));
    }
  }

  ghost predicate CoversLast(original: seq<Entry>, dims: seq<string>, values: seq<Entry>, i: nat, p: string -> string) {
    && i < |values| && Covers(original, dims, values[i], p)
    && forall j :: i < j < |values| ==> !Covers(original, dims, values[j], p)
  }

  ghost predicate CoversNone(original: seq<Entry>, dims: seq<string>, values: seq<Entry>, p: string -> string) {
    forall j :: 0 <= j < |values| ==> !Covers(original, dims, values[j], p)
  }

  /** The meaning is the value of the last entry that covers the position. */
  lemma {:induction false} MeaningIs(original: seq<Entry>, dims: seq<string>, values: seq<Entry>, p: string -> string)
    returns (i: nat)
    ensures match Meaning(original, dims, values, p)
            case None => CoversNone(original, dims, values, p)
            case Some(v) => CoversLast(original, dims, values, i, p) && values[i].value == v
    decreases |values|
  {
    i := 0;
    if values != [] {
      var n := |values| - 1;
      if Covers(original, dims, values[n], p) {
        i := n;
      } else {
        i := MeaningIs(original, dims, values[..n], p);
        LastUncovered(original, dims, values, n, i, p);
      }
    }
  }

  lemma LastUncovered(original: seq<Entry>, dims: seq<string>, values: seq<Entry>, n: nat, i: nat, p: string -> string)
    requires |values| == n + 1 && !Covers(original, dims, values[n], p)
    ensures CoversNone(original, dims, values[..n], p) ==> CoversNone(original, dims, values, p)
    ensures CoversLast(original, dims, values[..n], i, p) ==> CoversLast(original, dims, values, i, p)
  {
    assert forall j :: 0 <= j < n ==> values[..n][j] == values[j];
  }

  lemma AllCoversAre(entries: seq<Entry>, dims: seq<string>, p: string -> string)
    ensures forall i :: 0 <= i < |entries| ==>
      (Covers(entries, dims, entries[i], p) <==> EntryCovers(entries, dims, i, p))
  {
    forall i | 0 <= i < |entries|
      ensures Covers(entries, dims, entries[i], p) <==> EntryCovers(entries, dims, i, p)
    {
      CoversIs(entries, dims, i, p);
    }
  }

  lemma {:induction false} RunIs(lines: seq<Line>, c: seq<string>)
    ensures c !in Run(lines) ==> forall l :: 0 <= l < |lines| ==> lines[l].coords != c
    ensures c in Run(lines) ==>
      exists l :: 0 <= l < |lines| && lines[l].coords == c && lines[l].value == Run(lines)[c]
        && forall m :: l < m < |lines| ==> lines[m].coords != c
    decreases |lines|
  {
    if lines != [] {
      var n := |lines| - 1;
      RunIs(lines[..n], c);
      if lines[n].coords != c && c in Run(lines) {
        var l :| 0 <= l < n && lines[..n][l].coords == c && lines[..n][l].value == Run(lines)[c]
          && forall m :: l < m < n ==> lines[..n][m].coords != c;
        assert lines[l].coords == c && lines[l].value == Run(lines)[c];
        assert forall m :: l < m < n ==> lines[m].coords == lines[..n][m].coords;
      }
    }
  }

  /** Every position that some entry covers is last assigned the value of the last such entry, and a
      position that none covers is not assigned. */
  ghost predicate AssignsLast(entries: seq<Entry>, dims: seq<string>, lines: seq<Line>, p: string -> string) {
    if exists i: nat :: LastCovers(entries, dims, i, p)
    then exists i: nat, l: nat ::
      LastCovers(entries, dims, i, p) && LastAssigns(lines, dims, l, p) && lines[l].value == entries[i].value
    else forall l: nat :: !LastAssigns(lines, dims, l, p)
  }

  lemma MeaningAssigns(entries: seq<Entry>, dims: seq<string>, lines: seq<Line>, p: string -> string)
    requires var c := CoordsOf(dims, p);
      Meaning(entries, dims, entries, p) == if c in Run(lines) then Some(Run(lines)[c]) else None
    ensures AssignsLast(entries, dims, lines, p)
  {
    var c := CoordsOf(dims, p);
    assert forall l: nat :: LastAssigns(lines, dims, l, p) ==> lines[l].coords == c;
    var i := MeaningIs(entries, dims, entries, p);
    AllCoversAre(entries, dims, p);
    RunIs(lines, c);
    if c in Run(lines) {
      assert LastCovers(entries, dims, i, p);
      var l :| 0 <= l < |lines| && lines[l].coords == c && lines[l].value == Run(lines)[c]
        && forall m :: l < m < |lines| ==> lines[m].coords != c;
      assert LastAssigns(lines, dims, l, p);
    }
  }

  class ArrayGen {
    const dims: seq<string>
    var values: seq<Entry>

    constructor (dims: seq<string>)
      ensures this.dims == dims && values == []
    {
      this.dims := dims;
      values := [];
    }

    /** add_value */
    method AddValue(indices: map<string, string>, value: string)
      modifies this
      ensures values == old(values) + [Entry(indices, value)]
    {
      values := values + [Entry(indices, value)];
    }

    /** compute_missing_values */
    method ComputeMissingValues(key: string) returns (present: seq<string>)
      ensures present == Present(values, key)
      ensures exists pos :: PresentPlaces(values, key, present, pos)
      ensures forall m :: 0 <= m < |values| && key in values[m].indices ==> values[m].indices[key] in present
    {
      ghost var pos := PresentInOrder(values, key);
      forall m | 0 <= m < |values| && key in values[m].indices ensures values[m].indices[key] in Present(values, key) {
        PresentIs(values, key, values[m].indices[key]);
      }
      present := [];
      for i := 0 to |values|
        invariant present == Present(values[..i], key)
      {
        assert values[..i + 1][..i] == values[..i];
        if key in values[i].indices && values[i].indices[key] !in present {
          present := present + [values[i].indices[key]];
        }
      }
      assert values[..|values|] == values;
    }

    /** The search for the missing index of one entry. */
    method FindMissing(e: Entry) returns (missing: Option<string>)
      ensures missing == LastMissing(dims, e)
    {
      missing := None;
      for j := 0 to |dims|
        invariant missing == LastMissing(dims[..j], e)
      {
        assert dims[..j + 1][..j] == dims[..j];
        if dims[j] !in e.indices {
          missing := Some(dims[j]);
        }
      }
      assert dims[..|dims|] == dims;
    }

    /** The entries that one entry is replaced by. */
    method Replace(e: Entry) returns (missing: bool, r: seq<Entry>)
      ensures r == Replicated(dims, values, e)
      ensures missing <==> !Complete(dims, e)
    {
      var index := FindMissing(e);
      if index.None? {
        return false, [e];
      }
      var present := ComputeMissingValues(index.value);
      return true, Copies(e, index.value, present);
    }

    /** One pass over the entries: what is missing is filled by one index. */
    method Pass() returns (missedOne: bool, newValues: seq<Entry>)
      ensures newValues == Passed(dims, values, values)
      ensures missedOne <==> !AllComplete(dims, values)
    {
      missedOne, newValues := false, [];
      for i := 0 to |values|
        invariant PassedTo(dims, values, i, newValues, missedOne)
      {
        PassStep(dims, values, i, newValues, missedOne);
        var missing, r := Replace(values[i]);
        missedOne := missedOne || missing;
        newValues := newValues + r;
      }
      assert values[..|values|] == values;
    }

    /** The while loop of emit_initialization. */
    method Replicate()
      modifies this
      ensures AllComplete(dims, values) && Kept(old(values), dims, values)
    {
      var missedOne := true;
      while missedOne
        invariant Kept(old(values), dims, values)
        invariant !missedOne ==> AllComplete(dims, values)
        decreases MaxMissing(dims, values), missedOne
      {
        ghost var before := values;
        var newValues;
        missedOne, newValues := Pass();
        PassKeeps(old(values), dims, values);
        if missedOne {
          PassDecreases(dims, values);
        } else {
          NothingMissing(dims, values, values);
        }
        values := newValues;
      }
    }

    /** The subscripts of one line. */
    method EmitCoords(e: Entry) returns (coords: seq<string>)
      requires Complete(dims, e)
      ensures |coords| == |dims| && forall j :: 0 <= j < |dims| ==> coords[j] == e.indices[dims[j]]
    {
      coords := [];
      for j := 0 to |dims|
        invariant |coords| == j && forall k :: 0 <= k < j ==> coords[k] == e.indices[dims[k]]
      {
        coords := coords + [e.indices[dims[j]]];
      }
    }

    /** The lines for entries without missing indices. */
    method EmitLines() returns (lines: seq<Line>)
      requires AllComplete(dims, values)
      ensures Writes(dims, values, lines)
    {
      lines := [];
      for i := 0 to |values|
        invariant |lines| == i && Writes(dims, values[..i], lines)
      {
        var coords := EmitCoords(values[i]);
        lines := lines + [Line(coords, values[i].value)];
      }
      assert values[..|values|] == values;
    }

    /** emit_initialization: executing the lines leaves at every position the value of the last
        original entry that covers it, and leaves a position alone when none does. */
    method EmitInitialization() returns (lines: seq<Line>)
      modifies this
      ensures forall p: string -> string ::
        Meaning(old(values), dims, old(values), p) ==
          var c := CoordsOf(dims, p); if c in Run(lines) then Some(Run(lines)[c]) else None
      ensures forall p: string -> string :: AssignsLast(old(values), dims, lines, p)
    {
      Replicate();
      lines := EmitLines();
      forall p: string -> string
        ensures Meaning(old(values), dims, old(values), p) ==
          var c := CoordsOf(dims, p); if c in Run(lines) then Some(Run(lines)[c]) else None
      {
        CompleteMeans(old(values), dims, values, p);
        RunMeans(old(values), dims, values, lines, p);
      }
      forall p: string -> string ensures AssignsLast(old(values), dims, lines, p) {
        MeaningAssigns(old(values), dims, lines, p);
      }
    }
  }

  /** What a pass has made of the first i entries, and whether one of them missed an index. */
  ghost predicate PassedTo(dims: seq<string>, values: seq<Entry>, i: nat, newValues: seq<Entry>, missed: bool)
    requires i <= |values|
  {
    newValues == Passed(dims, values, values[..i]) && (missed <==> !AllComplete(dims, values[..i]))
  }

  lemma PassStep(dims: seq<string>, values: seq<Entry>, i: nat, newValues: seq<Entry>, missed: bool)
    requires i < |values| && PassedTo(dims, values, i, newValues, missed)
    ensures PassedTo(dims, values, i + 1, newValues + Replicated(dims, values, values[i]),
                     missed || !Complete(dims, values[i]))
  {
    assert values[..i + 1] == values[..i] + [values[i]];
    assert values[..i + 1][..i] == values[..i];
  }

  lemma {:induction false} NothingMissing(dims: seq<string>, values: seq<Entry>, todo: seq<Entry>)
    requires AllComplete(dims, todo)
    ensures Passed(dims, values, todo) == todo
    decreases |todo|
  {
    if todo != [] {
      var n := |todo| - 1;
      NothingMissing(dims, values, todo[..n]);
      assert Complete(dims, todo[n]);
      assert todo == todo[..n] + [todo[n]];
    }
  }
}
