/** The heap-allocated tree of examples/avltree.c.  The nodes hold exactly the C fields; a ghost
    skeleton records which nodes make up a tree, and the pointer updates are shown to compute the
    functions of AvlSpec on the tree's value. */
module Avl {
  import opened Wrappers
  import S = AvlSpec

  class AvlNode<V> {
    var key: S.Key
    var data: V
    var balanceFactor: int
    var height: nat
    var left: AvlNode?<V>
    var right: AvlNode?<V>

    /** make_node */
    constructor (key: S.Key, data: V)
      ensures Represents(this, Fork(Nil, this, Nil), S.MakeNode(key, data))
    {
      this.key, this.data := key, data;
      balanceFactor, height := 0, 1;
      left, right := null, null;
    }
  }

  /** The nodes of a tree, in the tree's shape. */
  datatype Skeleton<V> = Nil | Fork(left: Skeleton<V>, node: AvlNode<V>, right: Skeleton<V>)

  ghost function Nodes<V>(s: Skeleton<V>): set<AvlNode<V>> {
    if s.Nil? then {} else Nodes(s.left) + {s.node} + Nodes(s.right)
  }

  /** No node occurs twice. */
  ghost predicate Distinct<V>(s: Skeleton<V>) {
    s.Fork? ==>
      && Distinct(s.left) && Distinct(s.right)
      && s.node !in Nodes(s.left) + Nodes(s.right)
      && forall o :: o in Nodes(s.left) ==> o !in Nodes(s.right)
  }

  /** The nodes of s, reached from p, currently hold the tree t. */
  ghost predicate Represents<V>(p: AvlNode?<V>, s: Skeleton<V>, t: S.Tree<V>)
    reads Nodes(s)
  {
    match s
    case Nil => p == null && t.Leaf?
    case Fork(l, n, r) =>
      && p == n && t.Node?
      && t.key == n.key && t.data == n.data && t.balance == n.balanceFactor && t.height == n.height
      && Represents(n.left, l, t.left)
      && Represents(n.right, r, t.right)
  }

  method UpdateHeightAndBalance<V>(n: AvlNode<V>, ghost l: Skeleton<V>, ghost r: Skeleton<V>,
                                   ghost tl: S.Tree<V>, ghost tr: S.Tree<V>)
    requires n !in Nodes(l) + Nodes(r)
    requires Represents(n.left, l, tl) && Represents(n.right, r, tr)
    modifies n`height, n`balanceFactor
    ensures Represents(n, Fork(l, n, r), S.Join(tl, S.Entry(n.key, n.data), tr))
  {
    var a, b := if n.left == null then 0 else n.left.height, if n.right == null then 0 else n.right.height;
    n.height := 1 + if a > b then a else b;
    n.balanceFactor := a as int - b as int;
  }

  /** The tree ((a) n.left (b)) n (c) is knocked over to the right. */
  method LeftLeft<V>(n: AvlNode<V>, ghost a: Skeleton<V>, ghost b: Skeleton<V>, ghost c: Skeleton<V>,
                     ghost ta: S.Tree<V>, ghost tb: S.Tree<V>, ghost tc: S.Tree<V>)
    returns (newTop: AvlNode<V>)
    requires n.left != null && n.left != n
    requires n !in Nodes(a) + Nodes(b) + Nodes(c) && n.left !in Nodes(a) + Nodes(b) + Nodes(c)
    requires Represents(n.left.left, a, ta) && Represents(n.left.right, b, tb) && Represents(n.right, c, tc)
    modifies n, n.left
    ensures newTop == old(n.left)
    ensures Represents(newTop, Fork(a, newTop, Fork(b, n, c)),
                       S.Join(ta, old(EntryOf(n.left)), S.Join(tb, old(EntryOf(n)), tc)))
  {
    newTop := n.left;
    ghost var e := EntryOf(n);
    assert allocated(Nodes(a));
    n.left := newTop.right;
    newTop.right := n;
    UpdateHeightAndBalance(n, b, c, tb, tc);
    UpdateHeightAndBalance(newTop, a, Fork(b, n, c), ta, S.Join(tb, e, tc));
  }

  method RightRight<V>(n: AvlNode<V>, ghost a: Skeleton<V>, ghost b: Skeleton<V>, ghost c: Skeleton<V>,
                       ghost ta: S.Tree<V>, ghost tb: S.Tree<V>, ghost tc: S.Tree<V>)
    returns (newTop: AvlNode<V>)
    requires n.right != null && n.right != n
    requires n !in Nodes(a) + Nodes(b) + Nodes(c) && n.right !in Nodes(a) + Nodes(b) + Nodes(c)
    requires Represents(n.left, a, ta) && Represents(n.right.left, b, tb) && Represents(n.right.right, c, tc)
    modifies n, n.right
    ensures newTop == old(n.right)
    ensures Represents(newTop, Fork(Fork(a, n, b), newTop, c),
                       S.Join(S.Join(ta, old(EntryOf(n)), tb), old(EntryOf(n.right)), tc))
  {
    newTop := n.right;
    ghost var e := EntryOf(n);
    assert allocated(Nodes(c));
    n.right := newTop.left;
    newTop.left := n;
    UpdateHeightAndBalance(n, a, b, ta, tb);
    UpdateHeightAndBalance(newTop, Fork(a, n, b), c, S.Join(ta, e, tb), tc);
  }

  /** The left child (a) n.left ((b) n.left.right (c)) is replaced by its own right child; n itself
      keeps its stale height and balance factor. */
  method LeftRight<V>(n: AvlNode<V>, ghost a: Skeleton<V>, ghost b: Skeleton<V>, ghost c: Skeleton<V>,
                      ghost ta: S.Tree<V>, ghost tb: S.Tree<V>, ghost tc: S.Tree<V>)
    requires n.left != null && n.left != n && n.left.right != null && n.left.right != n && n.left.right != n.left
    requires n.left !in Nodes(a) + Nodes(b) + Nodes(c) && n.left.right !in Nodes(a) + Nodes(b) + Nodes(c)
    requires n !in Nodes(a) + Nodes(b) + Nodes(c)
    requires Represents(n.left.left, a, ta)
    requires Represents(n.left.right.left, b, tb) && Represents(n.left.right.right, c, tc)
    modifies n`left, n.left, n.left.right
    ensures n.left == old(n.left.right)
    ensures Represents(n.left, Fork(Fork(a, old(n.left), b), old(n.left.right), c),
                       S.Join(S.Join(ta, old(EntryOf(n.left)), tb), old(EntryOf(n.left.right)), tc))
  {
    var l, lr := n.left, n.left.right;
    ghost var e := EntryOf(l);
    assert allocated(Nodes(c));
    n.left := lr;
    l.right := lr.left;
    lr.left := l;
    UpdateHeightAndBalance(l, a, b, ta, tb);
    UpdateHeightAndBalance(lr, Fork(a, l, b), c, S.Join(ta, e, tb), tc);
  }

  method RightLeft<V>(n: AvlNode<V>, ghost a: Skeleton<V>, ghost b: Skeleton<V>, ghost c: Skeleton<V>,
                      ghost ta: S.Tree<V>, ghost tb: S.Tree<V>, ghost tc: S.Tree<V>)
    requires n.right != null && n.right != n && n.right.left != null && n.right.left != n && n.right.left != n.right
    requires n.right !in Nodes(a) + Nodes(b) + Nodes(c) && n.right.left !in Nodes(a) + Nodes(b) + Nodes(c)
    requires n !in Nodes(a) + Nodes(b) + Nodes(c)
    requires Represents(n.right.left.left, a, ta) && Represents(n.right.left.right, b, tb)
    requires Represents(n.right.right, c, tc)
    modifies n`right, n.right, n.right.left
    ensures n.right == old(n.right.left)
    ensures Represents(n.right, Fork(a, old(n.right.left), Fork(b, old(n.right), c)),
                       S.Join(ta, old(EntryOf(n.right.left)), S.Join(tb, old(EntryOf(n.right)), tc)))
  {
    var r, rl := n.right, n.right.left;
    ghost var e := EntryOf(r);
    assert allocated(Nodes(a));
    n.right := rl;
    r.left := rl.right;
    rl.right := r;
    UpdateHeightAndBalance(r, b, c, tb, tc);
    UpdateHeightAndBalance(rl, a, Fork(b, r, c), ta, S.Join(tb, e, tc));
  }

  ghost function EntryOf<V>(n: AvlNode<V>): S.Entry<V>
    reads n
  {
    S.Entry(n.key, n.data)
  }

  lemma RotatedSkeleton<V>(a: Skeleton<V>, x: AvlNode<V>, b: Skeleton<V>, y: AvlNode<V>, c: Skeleton<V>)
    ensures Nodes(Fork(Fork(a, x, b), y, c)) == Nodes(Fork(a, x, Fork(b, y, c)))
    ensures Distinct(Fork(Fork(a, x, b), y, c)) <==> Distinct(Fork(a, x, Fork(b, y, c)))
  {
  }

  ghost predicate Outside<V>(n: AvlNode<V>, a: Skeleton<V>, b: Skeleton<V>, c: Skeleton<V>, d: Skeleton<V>) {
    n !in Nodes(a) + Nodes(b) + Nodes(c) + Nodes(d)
  }

  lemma PartsApart<V>(a: Skeleton<V>, x: AvlNode<V>, b: Skeleton<V>, y: AvlNode<V>, c: Skeleton<V>,
                      z: AvlNode<V>, d: Skeleton<V>)
    requires Distinct(Fork(Fork(a, x, b), y, Fork(c, z, d)))
    ensures x != y && y != z && x != z
    ensures Outside(x, a, b, c, d) && Outside(y, a, b, c, d) && Outside(z, a, b, c, d)
  {
    var l, r := Fork(a, x, b), Fork(c, z, d);
    assert Nodes(l) == Nodes(a) + {x} + Nodes(b) && Nodes(r) == Nodes(c) + {z} + Nodes(d);
  }

  /** left_right followed by left_left */
  method DoubleRight<V>(n: AvlNode<V>, ghost a: Skeleton<V>, ghost x: AvlNode<V>, ghost b: Skeleton<V>,
                        ghost y: AvlNode<V>, ghost c: Skeleton<V>, ghost d: Skeleton<V>, ghost t: S.Tree<V>)
    returns (top: AvlNode<V>)
    requires Distinct(Fork(Fork(a, x, b), y, Fork(c, n, d)))
    requires Represents(n, Fork(Fork(a, x, Fork(b, y, c)), n, d), t)
    requires t.Node? && t.left.Node? && t.left.right.Node?
    modifies n, x, y
    ensures Represents(top, Fork(Fork(a, x, b), y, Fork(c, n, d)), S.LeftLeft(S.LeftRight(t)))
  {
    ghost var tl, tm, td := t.left, t.left.right, t.right;
    assert Represents(n.left, Fork(a, x, Fork(b, y, c)), tl);
    assert Represents(x.right, Fork(b, y, c), tm);
    PartsApart(a, x, b, y, c, n, d);
    assert allocated(Nodes(d));
    LeftRight(n, a, b, c, tl.left, tm.left, tm.right);
    top := LeftLeft(n, Fork(a, x, b), c, d, S.Join(tl.left, S.Root(tl), tm.left), tm.right, td);
    S.RotationsRebuild(t);
  }

  /** right_left followed by right_right */
  method DoubleLeft<V>(n: AvlNode<V>, ghost a: Skeleton<V>, ghost b: Skeleton<V>, ghost y: AvlNode<V>,
                       ghost c: Skeleton<V>, ghost z: AvlNode<V>, ghost d: Skeleton<V>, ghost t: S.Tree<V>)
    returns (top: AvlNode<V>)
    requires Distinct(Fork(Fork(a, n, b), y, Fork(c, z, d)))
    requires Represents(n, Fork(a, n, Fork(Fork(b, y, c), z, d)), t)
    requires t.Node? && t.right.Node? && t.right.left.Node?
    modifies n, z, y
    ensures Represents(top, Fork(Fork(a, n, b), y, Fork(c, z, d)), S.RightRight(S.RightLeft(t)))
  {
    ghost var tr, tm, ta := t.right, t.right.left, t.left;
    assert Represents(n.right, Fork(Fork(b, y, c), z, d), tr);
    assert Represents(z.left, Fork(b, y, c), tm);
    PartsApart(a, n, b, y, c, z, d);
    assert allocated(Nodes(a));
    RightLeft(n, b, c, d, tm.left, tm.right, tr.right);
    top := RightRight(n, a, b, Fork(c, z, d), ta, tm.left, S.Join(tm.right, S.Root(tr), tr.right));
    S.RotationsRebuild(t);
  }

  /** The dispatch of insert for a node heavy on the left. */
  method RebalanceLeft<V>(n: AvlNode<V>, ghost s: Skeleton<V>, ghost t: S.Tree<V>)
    returns (top: AvlNode<V>, ghost s': Skeleton<V>)
    requires s.Fork? && Distinct(s) && Represents(n, s, t)
    requires S.CanRotate(t) && t.balance >= 2
    modifies Nodes(s)
    ensures Represents(top, s', S.Rebalance(t)) && Distinct(s') && Nodes(s') == Nodes(s)
  {
    ghost var l, d := s.left, s.right;
    assert Represents(n.left, l, t.left);
    if n.left.balanceFactor == -1 {
      assert Represents(l.node.right, l.right, t.left.right);
      ghost var a, x, b, y, c := l.left, l.node, l.right.left, l.right.node, l.right.right;
      RotatedSkeleton(a, x, b, y, c);
      RotatedSkeleton(Fork(a, x, b), y, c, n, d);
      top := DoubleRight(n, a, x, b, y, c, d, t);
      s' := Fork(Fork(a, x, b), y, Fork(c, n, d));
    } else if n.left.balanceFactor == 1 {
      S.RotationsRebuild(t);
      ghost var a, x, b := l.left, l.node, l.right;
      RotatedSkeleton(a, x, b, n, d);
      top := LeftLeft(n, a, b, d, t.left.left, t.left.right, t.right);
      s' := Fork(a, x, Fork(b, n, d));
    } else {
      top, s' := n, s;
    }
  }

  /** The dispatch of insert for a node heavy on the right. */
  method RebalanceRight<V>(n: AvlNode<V>, ghost s: Skeleton<V>, ghost t: S.Tree<V>)
    returns (top: AvlNode<V>, ghost s': Skeleton<V>)
    requires s.Fork? && Distinct(s) && Represents(n, s, t)
    requires S.CanRotate(t) && t.balance <= -2
    modifies Nodes(s)
    ensures Represents(top, s', S.Rebalance(t)) && Distinct(s') && Nodes(s') == Nodes(s)
  {
    ghost var a, r := s.left, s.right;
    assert Represents(n.right, r, t.right);
    if n.right.balanceFactor == 1 {
      assert Represents(r.node.left, r.left, t.right.left);
      ghost var b, y, c, z, d := r.left.left, r.left.node, r.left.right, r.node, r.right;
      RotatedSkeleton(b, y, c, z, d);
      RotatedSkeleton(a, n, b, y, Fork(c, z, d));
      top := DoubleLeft(n, a, b, y, c, z, d, t);
      s' := Fork(Fork(a, n, b), y, Fork(c, z, d));
    } else if n.right.balanceFactor == -1 {
      S.RotationsRebuild(t);
      ghost var b, z, d := r.left, r.node, r.right;
      RotatedSkeleton(a, n, b, z, d);
      top := RightRight(n, a, b, d, t.left, t.right.left, t.right.right);
      s' := Fork(Fork(a, n, b), z, d);
    } else {
      top, s' := n, s;
    }
  }

  /** The branch of insert for a smaller key: n->left becomes the grown left subtree. */
  method InsertLeft<V>(n: AvlNode<V>, key: S.Key, data: V, ghost s: Skeleton<V>, ghost t: S.Tree<V>)
    returns (ghost l: Skeleton<V>)
    requires s.Fork? && Distinct(s) && Represents(n, s, t) && S.Balanced(t)
    modifies Nodes(s)
    ensures Represents(n, Fork(l, n, s.right), S.Join(S.Insert(t.left, key, data), S.Root(t), t.right))
    ensures Distinct(Fork(l, n, s.right))
    ensures Nodes(s.left) <= Nodes(l) && fresh(Nodes(l) - Nodes(s.left))
    decreases s, 0
  {
    ghost var r := s.right;
    assert allocated(Nodes(r));
    if n.left != null {
      n.left, l := InsertNode(n.left, key, data, s.left, t.left);
    } else {
      n.left := new AvlNode(key, data);
      l := Fork(Nil, n.left, Nil);
    }
    UpdateHeightAndBalance(n, l, r, S.Insert(t.left, key, data), t.right);
  }

  method InsertRight<V>(n: AvlNode<V>, key: S.Key, data: V, ghost s: Skeleton<V>, ghost t: S.Tree<V>)
    returns (ghost r: Skeleton<V>)
    requires s.Fork? && Distinct(s) && Represents(n, s, t) && S.Balanced(t)
    modifies Nodes(s)
    ensures Represents(n, Fork(s.left, n, r), S.Join(t.left, S.Root(t), S.Insert(t.right, key, data)))
    ensures Distinct(Fork(s.left, n, r))
    ensures Nodes(s.right) <= Nodes(r) && fresh(Nodes(r) - Nodes(s.right))
    decreases s, 0
  {
    ghost var l := s.left;
    assert allocated(Nodes(l));
    if n.right != null {
      n.right, r := InsertNode(n.right, key, data, s.right, t.right);
    } else {
      n.right := new AvlNode(key, data);
      r := Fork(Nil, n.right, Nil);
    }
    UpdateHeightAndBalance(n, l, r, t.left, S.Insert(t.right, key, data));
  }

  /** The end of insert: the dispatch, the redundant refresh, and the balance that it asserts. */
  method Rebalanced<V>(n: AvlNode<V>, ghost s: Skeleton<V>, ghost u: S.Tree<V>, ghost v: S.Tree<V>)
    returns (top: AvlNode<V>, ghost s': Skeleton<V>)
    requires s.Fork? && Distinct(s) && Represents(n, s, u)
    requires S.CanRotate(u) && v == S.Rebalance(u) && S.Balanced(v) && v.Node?
    modifies Nodes(s)
    ensures Represents(top, s', v) && Distinct(s') && Nodes(s') == Nodes(s)
    ensures -2 < top.balanceFactor < 2
  {
    top, s' := n, s;
    if n.balanceFactor >= 2 {
      top, s' := RebalanceLeft(n, s, u);
    } else if n.balanceFactor <= -2 {
      top, s' := RebalanceRight(n, s, u);
    }
    assert v == S.Join(v.left, S.Root(v), v.right);
    UpdateHeightAndBalance(top, s'.left, s'.right, v.left, v.right);
    assert -2 < top.balanceFactor < 2;
  }

  /** insert: a path of nodes is updated in place; the assertion on the final balance holds. */
  method InsertNode<V>(n: AvlNode<V>, key: S.Key, data: V, ghost s: Skeleton<V>, ghost t: S.Tree<V>)
    returns (top: AvlNode<V>, ghost s': Skeleton<V>)
    requires s.Fork? && Distinct(s) && Represents(n, s, t) && S.Balanced(t)
    modifies Nodes(s)
    ensures Represents(top, s', S.Insert(t, key, data)) && Distinct(s')
    ensures Nodes(s) <= Nodes(s') && fresh(Nodes(s') - Nodes(s))
    decreases s, 1
  {
    ghost var u, grown := t, s;
    if n.key == key {
      n.data := data;
      u := t.(data := data);
    } else if n.key > key {
      ghost var l := InsertLeft(n, key, data, s, t);
      grown := Fork(l, n, s.right);
      u := S.Join(S.Insert(t.left, key, data), S.Root(t), t.right);
      S.RebalanceLeftRestores(t, S.Insert(t.left, key, data));
    } else {
      ghost var r := InsertRight(n, key, data, s, t);
      grown := Fork(s.left, n, r);
      u := S.Join(t.left, S.Root(t), S.Insert(t.right, key, data));
      S.RebalanceRightRestores(t, S.Insert(t.right, key, data));
    }
    top, s' := Rebalanced(n, grown, u, S.Insert(t, key, data));
  }

  /** find_node */
  function FindNode<V>(n: AvlNode<V>, key: S.Key, ghost s: Skeleton<V>, ghost t: S.Tree<V>): (r: AvlNode?<V>)
    requires t.Node? && Represents(n, s, t)
    reads Nodes(s)
    ensures r != null ==> r in Nodes(s)
    ensures S.Find(t, key) == if r == null then None else Some(r.data)
    decreases s
  {
    assert Represents(n.left, s.left, t.left) && Represents(n.right, s.right, t.right);
    if n.key == key then n
    else if n.key > key && n.left != null then FindNode(n.left, key, s.left, t.left)
    else if n.right != null then FindNode(n.right, key, s.right, t.right)
    else null
  }

  ghost function EntryAt<V>(n: AvlNode?<V>): Option<S.Entry<V>>
    reads n
  {
    if n == null then None else Some(EntryOf(n))
  }

  /** find_node_lower_bound; lb is the node the C code keeps in its output parameter. */
  function FindNodeLowerBound<V>(n: AvlNode<V>, key: S.Key, lb: AvlNode?<V>, ghost s: Skeleton<V>, ghost t: S.Tree<V>)
    : (r: AvlNode?<V>)
    requires t.Node? && Represents(n, s, t)
    reads Nodes(s), lb
    ensures r == lb || r in Nodes(s)
    ensures EntryAt(r) == S.LowerBound(t, key, EntryAt(lb))
    decreases s
  {
    assert Represents(n.left, s.left, t.left) && Represents(n.right, s.right, t.right);
    if n.key == key then n
    else if n.key > key && n.left != null then FindNodeLowerBound(n.left, key, lb, s.left, t.left)
    else
      var best := if n.key < key && (lb == null || lb.key < n.key) then n else lb;
      if n.right != null then FindNodeLowerBound(n.right, key, best, s.right, t.right) else best
  }

  class AvlTree<V> {
    var top: AvlNode?<V>
    ghost var skeleton: Skeleton<V>
    ghost var shape: S.Tree<V>
    ghost var Repr: set<object>

    ghost predicate Valid()
      reads this, Repr
      ensures Valid() ==> this in Repr
    {
      && this in Repr && (forall n :: n in Nodes(skeleton) ==> n in Repr)
      && Represents(top, skeleton, shape) && Distinct(skeleton) && S.Valid(shape)
    }

    ghost function Contents(): map<S.Key, V>
      reads this
    {
      S.Contents(shape)
    }

    /** avl_tree_init */
    constructor ()
      ensures Valid() && fresh(Repr) && Contents() == map[]
    {
      top, skeleton, shape := null, Nil, S.Leaf;
      Repr := {this};
    }

    /** avl_insert */
    method Insert(key: S.Key, data: V)
      requires Valid()
      modifies Repr
      ensures Valid() && fresh(Repr - old(Repr)) && old(Repr) <= Repr
      ensures shape == S.Insert(old(shape), key, data)
      ensures Contents() == old(Contents())[key := data]
    {
      S.InsertUpdatesMap(shape, key, data);
      if top != null {
        top, skeleton := InsertNode(top, key, data, skeleton, shape);
      } else {
        top := new AvlNode(key, data);
        skeleton := Fork(Nil, top, Nil);
      }
      shape := S.Insert(shape, key, data);
      Repr := Repr + Nodes(skeleton);
    }

    /** avl_find */
    function Find(key: S.Key): (r: Option<V>)
      requires Valid()
      reads this, Repr
      ensures r == S.Lookup(Contents(), key)
      ensures r == if key in Contents() then Some(Contents()[key]) else None
    {
      if top == null then None
      else
        S.FindIsLookup(shape, key);
        var n := FindNode(top, key, skeleton, shape);
        if n == null then None else Some(n.data)
    }

    /** avl_find_lower_bound */
    function FindLowerBound(key: S.Key): (r: Option<S.Entry<V>>)
      requires Valid()
      reads this, Repr
      ensures S.IsFloor(Contents(), key, r)
      ensures r.None? ==> forall k :: k in Contents() ==> k > key
      ensures r.Some? ==>
        && r.value.key in Contents() && Contents()[r.value.key] == r.value.data && r.value.key <= key
        && forall k :: k in Contents() && r.value.key < k ==> k > key
    {
      if top == null then None
      else
        S.LowerBoundIsFloor(shape, key);
        var n := FindNodeLowerBound(top, key, null, skeleton, shape);
        if n == null then None else Some(S.Entry(n.key, n.data))
    }
  }
}
