/** Trees as values: what the nodes of examples/avltree.c hold at one moment.
    A value keeps the stored height and balance factor of every node, so that the states
    in the middle of a double rotation, where those fields are stale, are values too. */
module AvlSpec {
  import opened Wrappers

  const KEY_LIMIT: int := 0x1_0000_0000_0000_0000

  /** avl_key_t is uint64_t. */
  type Key = k: int | 0 <= k < KEY_LIMIT

  datatype Entry<V> = Entry(key: Key, data: V)

  datatype Tree<V> =
    | Leaf
    | Node(left: Tree<V>, key: Key, data: V, balance: int, height: nat, right: Tree<V>)

  // ----- The operations, field by field as the C code performs them -----

  function StoredHeight<V>(t: Tree<V>): nat {
    if t.Leaf? then 0 else t.height
  }

  function Max(a: nat, b: nat): nat {
    if a > b then a else b
  }

  /** update_height_and_balance */
  function Refresh<V>(t: Tree<V>): Tree<V>
    requires t.Node?
  {
    t.(height := 1 + Max(StoredHeight(t.left), StoredHeight(t.right)),
       balance := StoredHeight(t.left) - StoredHeight(t.right))
  }

  function LeftLeft<V>(t: Tree<V>): Tree<V>
    requires t.Node? && t.left.Node?
  {
    var oldTop := Refresh(t.(left := t.left.right));
    Refresh(t.left.(right := oldTop))
  }

  function LeftRight<V>(t: Tree<V>): Tree<V>
    requires t.Node? && t.left.Node? && t.left.right.Node?
  {
    var l := Refresh(t.left.(right := t.left.right.left));
    t.(left := Refresh(t.left.right.(left := l)))
  }

  function RightLeft<V>(t: Tree<V>): Tree<V>
    requires t.Node? && t.right.Node? && t.right.left.Node?
  {
    var r := Refresh(t.right.(left := t.right.left.right));
    t.(right := Refresh(t.right.left.(right := r)))
  }

  function RightRight<V>(t: Tree<V>): Tree<V>
    requires t.Node? && t.right.Node?
  {
    var oldTop := Refresh(t.(right := t.right.left));
    Refresh(t.right.(left := oldTop))
  }

  /** The pointers that the dispatch on balance factors dereferences are not null. */
  predicate CanRotate<V>(t: Tree<V>) {
    && t.Node?
    && (t.balance >= 2 ==> t.left.Node? && (t.left.balance == -1 ==> t.left.right.Node?))
    && (t.balance <= -2 ==> t.right.Node? && (t.right.balance == 1 ==> t.right.left.Node?))
  }

  /** The dispatch at the end of insert: a child balance of 0 is left alone. */
  function Rebalance<V>(t: Tree<V>): Tree<V>
    requires CanRotate(t)
  {
    if t.balance >= 2 then
      if t.left.balance == -1 then LeftLeft(LeftRight(t))
      else if t.left.balance == 1 then LeftLeft(t)
      else t
    else if t.balance <= -2 then
      if t.right.balance == 1 then RightRight(RightLeft(t))
      else if t.right.balance == -1 then RightRight(t)
      else t
    else t
  }

  function MakeNode<V>(key: Key, data: V): Tree<V> {
    Node(Leaf, key, data, 0, 1, Leaf)
  }

  // ----- The invariant -----

  /** Stored heights and balance factors are exact and no node leans by more than one. */
  ghost predicate Balanced<V>(t: Tree<V>) {
    t.Leaf? || (
      && Balanced(t.left) && Balanced(t.right)
      && t == Refresh(t)
      && -1 <= t.balance <= 1)
  }

  ghost function Contents<V>(t: Tree<V>): map<Key, V> {
    if t.Leaf? then map[] else Contents(t.left) + Contents(t.right) + map[t.key := t.data]
  }

  /** Search order, with every key strictly between lo and hi. */
  ghost predicate Within<V>(t: Tree<V>, lo: int, hi: int) {
    t.Leaf? || (
      && lo < t.key < hi
      && Within(t.left, lo, t.key)
      && Within(t.right, t.key, hi))
  }

  ghost predicate Ordered<V>(t: Tree<V>) {
    Within(t, -1, KEY_LIMIT)
  }

  ghost predicate Valid<V>(t: Tree<V>) {
    Balanced(t) && Ordered(t)
  }

  // ----- Insertion -----

  /** What one insertion may do to the height: it grows by at most one, and a subtree that was
      there before and did grow never ends up with balance 0.  The second half is why a dispatch
      on exactly +1 and -1 is enough. */
  ghost predicate GrownFrom<V>(t: Tree<V>, r: Tree<V>) {
    && StoredHeight(t) <= StoredHeight(r) <= StoredHeight(t) + 1
    && (StoredHeight(r) == StoredHeight(t) + 1 && t.Node? ==> r.Node? && r.balance != 0)
  }

  /** A node whose height and balance factor were just recomputed. */
  function Join<V>(left: Tree<V>, e: Entry<V>, right: Tree<V>): Tree<V> {
    Refresh(Node(left, e.key, e.data, 0, 0, right))
  }

  function Root<V>(t: Tree<V>): Entry<V>
    requires t.Node?
  {
    Entry(t.key, t.data)
  }

  lemma JoinBalanced<V>(left: Tree<V>, e: Entry<V>, right: Tree<V>)
    requires Balanced(left) && Balanced(right)
    ensures Balanced(Join(left, e, right)) <==> -1 <= StoredHeight(left) - StoredHeight(right) <= 1
    ensures StoredHeight(Join(left, e, right)) == 1 + Max(StoredHeight(left), StoredHeight(right))
  {
  }

  /** The two-step rotations, whatever stale heights they meet on the way, rebuild the tree
      from its four parts and leave every height and balance factor recomputed. */
  lemma RotationsRebuild<V>(t: Tree<V>)
    requires t.Node?
    ensures t.left.Node? ==>
      LeftLeft(t) == Join(t.left.left, Root(t.left), Join(t.left.right, Root(t), t.right))
    ensures t.right.Node? ==>
      RightRight(t) == Join(Join(t.left, Root(t), t.right.left), Root(t.right), t.right.right)
    ensures t.left.Node? && t.left.right.Node? ==>
      LeftLeft(LeftRight(t)) == Join(Join(t.left.left, Root(t.left), t.left.right.left), Root(t.left.right),
                                     Join(t.left.right.right, Root(t), t.right))
    ensures t.right.Node? && t.right.left.Node? ==>
      RightRight(RightLeft(t)) == Join(Join(t.left, Root(t), t.right.left.left), Root(t.right.left),
                                       Join(t.right.left.right, Root(t.right), t.right.right))
  {
  }

  /** The shape of every single and double rotation that insert asks for. */
  lemma ThreeJoinsBalanced<V>(a: Tree<V>, x: Entry<V>, b: Tree<V>, y: Entry<V>, c: Tree<V>, z: Entry<V>, d: Tree<V>)
    requires Balanced(a) && Balanced(b) && Balanced(c) && Balanced(d)
    requires StoredHeight(a) == StoredHeight(d) == Max(StoredHeight(b), StoredHeight(c))
    requires -1 <= StoredHeight(b) - StoredHeight(c) <= 1
    ensures Balanced(Join(Join(a, x, b), y, Join(c, z, d)))
    ensures StoredHeight(Join(Join(a, x, b), y, Join(c, z, d))) == StoredHeight(a) + 2
  {
    JoinBalanced(a, x, b);
    JoinBalanced(c, z, d);
    JoinBalanced(Join(a, x, b), y, Join(c, z, d));
  }

  /** The left child was replaced by a grown one: the dispatch restores the invariant. */
  lemma RebalanceLeftRestores<V>(before: Tree<V>, left: Tree<V>)
    requires before.Node? && Balanced(before) && Balanced(left) && GrownFrom(before.left, left)
    ensures var t := Join(left, Root(before), before.right);
            CanRotate(t) && Balanced(Rebalance(t)) && GrownFrom(before, Rebalance(t))
  {
    var e, right := Root(before), before.right;
    var t := Join(left, e, right);
    if t.balance < 2 {
      JoinBalanced(left, e, right);
    } else if left.balance == 1 {
      assert Rebalance(t) == Join(left.left, Root(left), Join(left.right, e, right)) by { RotationsRebuild(t); }
      JoinBalanced(left.right, e, right);
      JoinBalanced(left.left, Root(left), Join(left.right, e, right));
    } else {
      DoubleRightRestores(left, e, right);
    }
  }

  lemma DoubleRightRestores<V>(left: Tree<V>, e: Entry<V>, right: Tree<V>)
    requires left.Node? && Balanced(left) && Balanced(right)
    requires left.balance == -1 && StoredHeight(left) == StoredHeight(right) + 2
    ensures var t := Join(left, e, right);
            CanRotate(t) && Balanced(Rebalance(t)) && StoredHeight(Rebalance(t)) == StoredHeight(left)
  {
    var t, m := Join(left, e, right), left.right;
    assert Rebalance(t) == Join(Join(left.left, Root(left), m.left), Root(m), Join(m.right, e, right)) by {
      RotationsRebuild(t);
    }
    ThreeJoinsBalanced(left.left, Root(left), m.left, Root(m), m.right, e, right);
  }

  lemma RebalanceRightRestores<V>(before: Tree<V>, right: Tree<V>)
    requires before.Node? && Balanced(before) && Balanced(right) && GrownFrom(before.right, right)
    ensures var t := Join(before.left, Root(before), right);
            CanRotate(t) && Balanced(Rebalance(t)) && GrownFrom(before, Rebalance(t))
  {
    var e, left := Root(before), before.left;
    var t := Join(left, e, right);
    if t.balance > -2 {
      JoinBalanced(left, e, right);
    } else if right.balance == -1 {
      assert Rebalance(t) == Join(Join(left, e, right.left), Root(right), right.right) by { RotationsRebuild(t); }
      JoinBalanced(left, e, right.left);
      JoinBalanced(Join(left, e, right.left), Root(right), right.right);
    } else {
      DoubleLeftRestores(left, e, right);
    }
  }

  lemma DoubleLeftRestores<V>(left: Tree<V>, e: Entry<V>, right: Tree<V>)
    requires right.Node? && Balanced(left) && Balanced(right)
    requires right.balance == 1 && StoredHeight(right) == StoredHeight(left) + 2
    ensures var t := Join(left, e, right);
            CanRotate(t) && Balanced(Rebalance(t)) && StoredHeight(Rebalance(t)) == StoredHeight(right)
  {
    var t, m := Join(left, e, right), right.left;
    assert Rebalance(t) == Join(Join(left, e, m.left), Root(m), Join(m.right, Root(right), right.right)) by {
      RotationsRebuild(t);
    }
    ThreeJoinsBalanced(left, e, m.left, Root(m), m.right, Root(right), right.right);
  }

  function Insert<V>(t: Tree<V>, key: Key, data: V): (r: Tree<V>)
    requires Balanced(t)
    ensures r.Node? && Balanced(r) && GrownFrom(t, r)
  {
    if t.Leaf? then MakeNode(key, data)
    else if t.key == key then t.(data := data)
    else if t.key > key then
      var left := Insert(t.left, key, data);
      RebalanceLeftRestores(t, left);
      Rebalance(Join(left, Root(t), t.right))
    else
      var right := Insert(t.right, key, data);
      RebalanceRightRestores(t, right);
      Rebalance(Join(t.left, Root(t), right))
  }

  // ----- Insertion updates the map -----

  /** Look-up by search order alone. */
  function Get<V>(t: Tree<V>, key: Key): Option<V> {
    if t.Leaf? then None
    else if key < t.key then Get(t.left, key)
    else if key > t.key then Get(t.right, key)
    else Some(t.data)
  }

  function Lookup<V>(m: map<Key, V>, key: Key): Option<V> {
    if key in m then Some(m[key]) else None
  }

  lemma {:induction false} GetIsLookup<V>(t: Tree<V>, lo: int, hi: int, key: Key)
    requires Within(t, lo, hi)
    ensures Get(t, key) == Lookup(Contents(t), key)
    ensures key in Contents(t) ==> lo < key < hi
  {
    if t.Node? {
      GetIsLookup(t.left, lo, t.key, key);
      GetIsLookup(t.right, t.key, hi, key);
    }
  }

  lemma JoinOrder<V>(left: Tree<V>, e: Entry<V>, right: Tree<V>, lo: int, hi: int, key: Key)
    ensures Within(Join(left, e, right), lo, hi) <==>
      lo < e.key < hi && Within(left, lo, e.key) && Within(right, e.key, hi)
    ensures Get(Join(left, e, right), key) ==
      if key < e.key then Get(left, key) else if key > e.key then Get(right, key) else Some(e.data)
  {
  }

  /** A single rotation, read in either direction, keeps the search order and what a key finds. */
  lemma RotationOrder<V>(a: Tree<V>, x: Entry<V>, b: Tree<V>, y: Entry<V>, c: Tree<V>, lo: int, hi: int, key: Key)
    ensures Within(Join(Join(a, x, b), y, c), lo, hi) <==> Within(Join(a, x, Join(b, y, c)), lo, hi)
    ensures x.key < y.key ==> Get(Join(Join(a, x, b), y, c), key) == Get(Join(a, x, Join(b, y, c)), key)
  {
    JoinOrder(Join(a, x, b), y, c, lo, hi, key);
    JoinOrder(a, x, b, lo, y.key, key);
    JoinOrder(a, x, Join(b, y, c), lo, hi, key);
    JoinOrder(b, y, c, x.key, hi, key);
  }

  lemma DoubleRotationOrder<V>(a: Tree<V>, x: Entry<V>, m: Tree<V>, z: Entry<V>, d: Tree<V>, lo: int, hi: int, key: Key)
    requires m.Node? && Balanced(m)
    requires Within(Join(Join(a, x, m), z, d), lo, hi)
    ensures Within(Join(Join(a, x, m.left), Root(m), Join(m.right, z, d)), lo, hi)
    ensures Get(Join(Join(a, x, m.left), Root(m), Join(m.right, z, d)), key) == Get(Join(Join(a, x, m), z, d), key)
  {
    var y, b, c := Root(m), m.left, m.right;
    assert m == Join(b, y, c);
    JoinOrder(Join(a, x, m), z, d, lo, hi, key);
    JoinOrder(a, x, m, lo, z.key, key);
    JoinOrder(b, y, c, x.key, z.key, key);
    RotationOrder(a, x, b, y, c, lo, z.key, key);
    JoinOrder(Join(Join(a, x, b), y, c), z, d, lo, hi, key);
    RotationOrder(Join(a, x, b), y, c, z, d, lo, hi, key);
  }

  lemma LeftHeavyKeepsOrder<V>(left: Tree<V>, e: Entry<V>, right: Tree<V>, lo: int, hi: int, key: Key)
    requires Balanced(left) && Balanced(right)
    requires var t := Join(left, e, right); CanRotate(t) && Within(t, lo, hi)
    requires Join(left, e, right).balance >= 2
    ensures var t := Join(left, e, right);
            Within(Rebalance(t), lo, hi) && Get(Rebalance(t), key) == Get(t, key)
  {
    var t, x := Join(left, e, right), Root(left);
    assert left == Join(left.left, x, left.right);
    RotationsRebuild(t);
    if left.balance == -1 {
      DoubleRotationOrder(left.left, x, left.right, e, right, lo, hi, key);
    } else {
      RotationOrder(left.left, x, left.right, e, right, lo, hi, key);
      JoinOrder(left, e, right, lo, hi, key);
      JoinOrder(left.left, x, left.right, lo, e.key, key);
    }
  }

  lemma RightHeavyKeepsOrder<V>(left: Tree<V>, e: Entry<V>, right: Tree<V>, lo: int, hi: int, key: Key)
    requires Balanced(left) && Balanced(right)
    requires var t := Join(left, e, right); CanRotate(t) && Within(t, lo, hi)
    requires Join(left, e, right).balance <= -2
    ensures var t := Join(left, e, right);
            Within(Rebalance(t), lo, hi) && Get(Rebalance(t), key) == Get(t, key)
  {
    var t, x := Join(left, e, right), Root(right);
    assert right == Join(right.left, x, right.right);
    RotationsRebuild(t);
    JoinOrder(left, e, right, lo, hi, key);
    JoinOrder(right.left, x, right.right, e.key, hi, key);
    RotationOrder(left, e, right.left, x, right.right, lo, hi, key);
    if right.balance == 1 {
      DoubleRotationOrder(left, e, right.left, x, right.right, lo, hi, key);
    }
  }

  /** Rebalancing keeps the search order and what every key finds. */
  lemma RebalanceKeepsOrder<V>(left: Tree<V>, e: Entry<V>, right: Tree<V>, lo: int, hi: int, key: Key)
    requires Balanced(left) && Balanced(right)
    requires var t := Join(left, e, right); CanRotate(t) && Within(t, lo, hi)
    ensures var t := Join(left, e, right);
            Within(Rebalance(t), lo, hi) && Get(Rebalance(t), key) == Get(t, key)
  {
    if Join(left, e, right).balance >= 2 {
      LeftHeavyKeepsOrder(left, e, right, lo, hi, key);
    } else if Join(left, e, right).balance <= -2 {
      RightHeavyKeepsOrder(left, e, right, lo, hi, key);
    }
  }

  /** Insertion keeps the search order and changes what one key finds. */
  lemma {:induction false} InsertSets<V>(t: Tree<V>, key: Key, data: V, lo: int, hi: int, k: Key)
    requires Balanced(t) && Within(t, lo, hi) && lo < key < hi
    ensures Within(Insert(t, key, data), lo, hi)
    ensures Get(Insert(t, key, data), k) == if k == key then Some(data) else Get(t, k)
  {
    if t.Node? {
      if t.key > key {
        InsertSets(t.left, key, data, lo, t.key, k);
        var left := Insert(t.left, key, data);
        RebalanceLeftRestores(t, left);
        RebalanceKeepsOrder(left, Root(t), t.right, lo, hi, k);
      } else if t.key < key {
        InsertSets(t.right, key, data, t.key, hi, k);
        var right := Insert(t.right, key, data);
        RebalanceRightRestores(t, right);
        RebalanceKeepsOrder(t.left, Root(t), right, lo, hi, k);
      } else {
        assert t.(data := data).left == t.left;
      }
    } else {
      assert Within(MakeNode(key, data).left, lo, key) && Within(MakeNode(key, data).right, key, hi);
    }
  }

  /** Insertion keeps the whole invariant and is a map update. */
  lemma InsertUpdatesMap<V>(t: Tree<V>, key: Key, data: V)
    requires Valid(t)
    ensures Valid(Insert(t, key, data))
    ensures Contents(Insert(t, key, data)) == Contents(t)[key := data]
  {
    var r := Insert(t, key, data);
    InsertSets(t, key, data, -1, KEY_LIMIT, key);
    forall k: Key
      ensures Lookup(Contents(r), k) == Lookup(Contents(t)[key := data], k)
    {
      InsertSets(t, key, data, -1, KEY_LIMIT, k);
      GetIsLookup(t, -1, KEY_LIMIT, k);
      GetIsLookup(r, -1, KEY_LIMIT, k);
    }
    MapsAgree(Contents(r), Contents(t)[key := data]);
  }

  lemma MapsAgree<V>(m: map<Key, V>, n: map<Key, V>)
    requires forall k: Key :: Lookup(m, k) == Lookup(n, k)
    ensures m == n
  {
    forall k: Key
      ensures k in m <==> k in n
      ensures k in m && k in n ==> m[k] == n[k]
    {
      assert Lookup(m, k) == Lookup(n, k);
    }
  }

  /** All insertions of a run, oldest first. */
  function InsertAll<V>(entries: seq<Entry<V>>): (t: Tree<V>)
    ensures Balanced(t)
  {
    if entries == [] then Leaf
    else
      var e := entries[|entries| - 1];
      Insert(InsertAll(entries[..|entries| - 1]), e.key, e.data)
  }

  /** The last entry of the run with the key, if any. */
  function LastWritten<V>(entries: seq<Entry<V>>, key: Key): Option<V> {
    if entries == [] then None
    else
      var e := entries[|entries| - 1];
      if e.key == key then Some(e.data) else LastWritten(entries[..|entries| - 1], key)
  }

  /** After any run of insertions the tree is valid and holds the last value given to each key. */
  lemma {:induction false} RunsAreMaps<V>(entries: seq<Entry<V>>, key: Key)
    ensures Valid(InsertAll(entries))
    ensures Lookup(Contents(InsertAll(entries)), key) == LastWritten(entries, key)
  {
    if entries != [] {
      var e := entries[|entries| - 1];
      RunsAreMaps(entries[..|entries| - 1], key);
      InsertUpdatesMap(InsertAll(entries[..|entries| - 1]), e.key, e.data);
    }
  }

  // ----- Searches -----

  /** find_node: descends right also when the key is smaller but there is no left child. */
  function Find<V>(t: Tree<V>, key: Key): Option<V>
    requires t.Node?
  {
    if t.key == key then Some(t.data)
    else if t.key > key && t.left.Node? then Find(t.left, key)
    else if t.right.Node? then Find(t.right, key)
    else None
  }

  lemma {:induction false} FindIsGet<V>(t: Tree<V>, key: Key, lo: int, hi: int)
    requires t.Node? && Within(t, lo, hi)
    ensures Find(t, key) == Get(t, key)
  {
    if t.key != key {
      if t.key > key && t.left.Node? {
        FindIsGet(t.left, key, lo, t.key);
      } else if t.right.Node? {
        FindIsGet(t.right, key, t.key, hi);
        GetIsLookup(t.right, t.key, hi, key);
      }
    }
  }

  lemma FindIsLookup<V>(t: Tree<V>, key: Key)
    requires t.Node? && Ordered(t)
    ensures Find(t, key) == Lookup(Contents(t), key)
  {
    FindIsGet(t, key, -1, KEY_LIMIT);
    GetIsLookup(t, -1, KEY_LIMIT, key);
  }

  /** find_node_lower_bound, with the best entry met so far. */
  function LowerBound<V>(t: Tree<V>, key: Key, best: Option<Entry<V>>): Option<Entry<V>>
    requires t.Node?
  {
    if t.key == key then Some(Root(t))
    else if t.key > key && t.left.Node? then LowerBound(t.left, key, best)
    else
      var b := if t.key < key && (best.None? || best.value.key < t.key) then Some(Root(t)) else best;
      if t.right.Node? then LowerBound(t.right, key, b) else b
  }

  /** e is the entry of m with the greatest key that is at most key; None when there is none. */
  ghost predicate IsFloor<V>(m: map<Key, V>, key: Key, e: Option<Entry<V>>) {
    match e
    case None => forall k :: k in m ==> key < k
    case Some(b) =>
      && b.key in m && m[b.key] == b.data && b.key <= key
      && forall k :: k in m && k <= key ==> k <= b.key
  }

  /** Inside the recursion the answer is the entry brought along or a better one from the
      subtree, and no key of the subtree at or below the query lies above it. */
  lemma {:induction false} LowerBoundStep<V>(t: Tree<V>, key: Key, best: Option<Entry<V>>, lo: int, hi: int, k: Key)
    requires t.Node? && Within(t, lo, hi)
    requires best.Some? ==> best.value.key < key && best.value.key <= lo
    ensures var e := LowerBound(t, key, best);
            e == best || (e.Some? && lo < e.value.key <= key && Get(t, e.value.key) == Some(e.value.data))
    ensures var e := LowerBound(t, key, best);
            Get(t, k).Some? && k <= key ==> e.Some? && k <= e.value.key
  {
    GetIsLookup(t.left, lo, t.key, k);
    GetIsLookup(t.right, t.key, hi, k);
    var e := LowerBound(t, key, best);
    if t.key == key {
    } else if t.key > key && t.left.Node? {
      LowerBoundStep(t.left, key, best, lo, t.key, k);
    } else {
      var b := if t.key < key && (best.None? || best.value.key < t.key) then Some(Root(t)) else best;
      if t.right.Node? {
        LowerBoundStep(t.right, key, b, t.key, hi, k);
      }
    }
  }

  /** The lower-bound search finds the greatest key at or below the query, over the whole tree. */
  lemma LowerBoundIsFloor<V>(t: Tree<V>, key: Key)
    requires t.Node? && Ordered(t)
    ensures IsFloor(Contents(t), key, LowerBound(t, key, None))
  {
    var e := LowerBound(t, key, None);
    forall k: Key
      ensures k in Contents(t) ==> if e.None? then key < k else (k <= key ==> k <= e.value.key)
    {
      LowerBoundStep(t, key, None, -1, KEY_LIMIT, k);
      GetIsLookup(t, -1, KEY_LIMIT, k);
    }
    LowerBoundStep(t, key, None, -1, KEY_LIMIT, key);
    if e.Some? {
      GetIsLookup(t, -1, KEY_LIMIT, e.value.key);
    }
  }

  lemma FloorIsUnique<V>(m: map<Key, V>, key: Key, d: Option<Entry<V>>, e: Option<Entry<V>>)
    requires IsFloor(m, key, d) && IsFloor(m, key, e)
    ensures d == e
  {
  }

  // ----- Height -----

  function Size<V>(t: Tree<V>): nat {
    if t.Leaf? then 0 else Size(t.left) + 1 + Size(t.right)
  }

  /** Nodes on the longest path down: the depth of every recursion in the file. */
  function TrueHeight<V>(t: Tree<V>): nat {
    if t.Leaf? then 0 else 1 + Max(TrueHeight(t.left), TrueHeight(t.right))
  }

  function Fib(n: nat): nat {
    if n < 2 then n else Fib(n - 1) + Fib(n - 2)
  }

  lemma {:induction false} FibGrows(m: nat, n: nat)
    requires m <= n
    ensures Fib(m) <= Fib(n)
    decreases n - m
  {
    if m < n {
      FibGrows(m + 1, n);
    }
  }

  lemma {:induction false} StoredHeightIsTrue<V>(t: Tree<V>)
    requires Balanced(t)
    ensures StoredHeight(t) == TrueHeight(t)
  {
    if t.Node? {
      StoredHeightIsTrue(t.left);
      StoredHeightIsTrue(t.right);
    }
  }

  lemma FibSplits(h: nat, m: nat, n: nat, p: nat)
    requires m == h + 1 && n == h + 2 && p == h + 3
    ensures Fib(p) == Fib(m) + Fib(n)
  {
  }

  /** A tree of height h holds at least Fib(h+2)-1 nodes. */
  lemma {:induction false} HeightNeedsFibNodes<V>(t: Tree<V>, n: nat)
    requires Balanced(t) && n == StoredHeight(t) + 2
    ensures Size(t) + 1 >= Fib(n)
  {
    if t.Node? {
      var l, r := StoredHeight(t.left) + 2, StoredHeight(t.right) + 2;
      HeightNeedsFibNodes(t.left, l);
      HeightNeedsFibNodes(t.right, r);
      FibGrows(n - 2, l);
      FibGrows(n - 2, r);
      FibSplits(n - 3, n - 2, n - 1, n);
    }
  }

  lemma {:induction false} SizeIsCardinality<V>(t: Tree<V>, lo: int, hi: int)
    requires Within(t, lo, hi)
    ensures Size(t) == |Contents(t).Keys|
  {
    if t.Node? {
      SizeIsCardinality(t.left, lo, t.key);
      SizeIsCardinality(t.right, t.key, hi);
      KeysAreSplit(t, lo, hi);
      DisjointUnionSize(Contents(t.left).Keys, Contents(t.right).Keys, t.key);
    }
  }

  lemma KeysAreSplit<V>(t: Tree<V>, lo: int, hi: int)
    requires t.Node? && Within(t, lo, hi)
    ensures Contents(t).Keys == Contents(t.left).Keys + Contents(t.right).Keys + {t.key}
    ensures forall k :: k in Contents(t.left).Keys ==> k < t.key
    ensures forall k :: k in Contents(t.right).Keys ==> t.key < k
  {
    forall k: Key
      ensures k in Contents(t.left) ==> k < t.key
      ensures k in Contents(t.right) ==> t.key < k
    {
      GetIsLookup(t.left, lo, t.key, k);
      GetIsLookup(t.right, t.key, hi, k);
    }
  }

  lemma DisjointUnionSize(l: set<Key>, r: set<Key>, k: Key)
    requires forall i :: i in l ==> i < k
    requires forall i :: i in r ==> k < i
    ensures |l + r + {k}| == |l| + 1 + |r|
  {
    assert l !! r && k !in l + r;
  }

  lemma {:induction false} DistinctBelow(s: set<int>, n: nat)
    requires forall k :: k in s ==> 0 <= k < n
    ensures |s| <= n
  {
    if n > 0 {
      DistinctBelow(s - {n - 1}, n - 1);
      assert |s| <= |s - {n - 1}| + 1;
    } else {
      assert forall k :: k !in s;
    }
  }

  /** Five steps of the recurrence at once. */
  lemma FibFiveOn(n: nat, a: nat, b: nat) returns (m: nat, c: nat, d: nat)
    requires Fib(n) == a && Fib(n + 1) == b
    ensures m == n + 5 && Fib(m) == c && Fib(m + 1) == d
    ensures c == 3 * a + 5 * b && d == 5 * a + 8 * b
  {
    m, c, d := n + 5, 3 * a + 5 * b, 5 * a + 8 * b;
    assert Fib(n + 2) == a + b;
    assert Fib(n + 3) == a + 2 * b;
    assert Fib(n + 4) == 2 * a + 3 * b;
    assert Fib(n + 5) == c;
    assert Fib(n + 6) == d;
  }

  lemma FibFifteenOn(n: nat, a: nat, b: nat) returns (m: nat, c: nat, d: nat)
    requires Fib(n) == a && Fib(n + 1) == b
    ensures m == n + 15 && Fib(m) == c && Fib(m + 1) == d
    ensures c == 377 * a + 610 * b && d == 610 * a + 987 * b
  {
    m, c, d := FibFiveOn(n, a, b);
    m, c, d := FibFiveOn(m, c, d);
    m, c, d := FibFiveOn(m, c, d);
  }

  lemma FibThirtyOn(n: nat, a: nat, b: nat) returns (m: nat, c: nat, d: nat)
    requires Fib(n) == a && Fib(n + 1) == b
    ensures m == n + 30 && Fib(m) == c && Fib(m + 1) == d
    ensures c == 514229 * a + 832040 * b && d == 832040 * a + 1346269 * b
  {
    m, c, d := FibFifteenOn(n, a, b);
    m, c, d := FibFifteenOn(m, c, d);
  }

  lemma FibIsLarge(n: nat)
    requires n >= 94
    ensures Fib(n) > KEY_LIMIT + 1
  {
    var m, a, b := FibThirtyOn(4, 3, 5);
    m, a, b := FibThirtyOn(m, a, b);
    m, a, b := FibThirtyOn(m, a, b);
    FibGrows(m, n);
  }

  /** Any tree of distinct 64-bit keys is at most 91 levels deep, so the uint32 height cannot wrap
      and the int32 subtraction of two heights is exact. */
  lemma DepthBound<V>(t: Tree<V>)
    requires Valid(t)
    ensures StoredHeight(t) == TrueHeight(t) <= 91
  {
    var n := StoredHeight(t) + 2;
    StoredHeightIsTrue(t);
    HeightNeedsFibNodes(t, n);
    SizeIsCardinality(t, -1, KEY_LIMIT);
    DistinctBelow(Contents(t).Keys, KEY_LIMIT);
    if n >= 94 {
      FibIsLarge(n);
    }
  }
}
