/** Level order over trees, and the queue iterator of examples/avltree.c that walks it. */
module AvlLevelOrder {
  import S = AvlSpec

  /** An entry together with the depth of its node. */
  datatype Visit<V> = Visit(entry: S.Entry<V>, depth: nat)

  /** A subtree waiting in the queue. */
  datatype Waiting<V> = Waiting(tree: S.Tree<V>, depth: nat)

  function Queued<V>(t: S.Tree<V>, depth: nat): (q: seq<Waiting<V>>)
    ensures forall w :: w in q ==> w.tree.Node? && w.depth == depth
  {
    if t.Leaf? then [] else [Waiting(t, depth)]
  }

  function Children<V>(w: Waiting<V>): (q: seq<Waiting<V>>)
    requires w.tree.Node?
    ensures forall c :: c in q ==> c.tree.Node? && c.depth == w.depth + 1
  {
    Queued(w.tree.left, w.depth + 1) + Queued(w.tree.right, w.depth + 1)
  }

  ghost predicate AllNodes<V>(q: seq<Waiting<V>>) {
    forall w :: w in q ==> w.tree.Node?
  }

  function TotalSize<V>(q: seq<Waiting<V>>): nat {
    if q == [] then 0 else S.Size(q[0].tree) + TotalSize(q[1..])
  }

  lemma {:induction false} TotalSizeAdds<V>(p: seq<Waiting<V>>, q: seq<Waiting<V>>)
    ensures TotalSize(p + q) == TotalSize(p) + TotalSize(q)
  {
    if p == [] {
      assert p + q == q;
    } else {
      assert (p + q)[1..] == p[1..] + q;
      TotalSizeAdds(p[1..], q);
    }
  }

  lemma QueuedAlone<V>(t: S.Tree<V>, depth: nat)
    ensures TotalSize(Queued(t, depth)) == S.Size(t)
    ensures AllVisits(Queued(t, depth)) == Visits(t, depth)
  {
    var q := Queued(t, depth);
    if q != [] {
      assert q[1..] == [];
    }
  }

  lemma QueueShrinks<V>(q: seq<Waiting<V>>)
    requires q != [] && AllNodes(q)
    ensures TotalSize(q[1..] + Children(q[0])) == TotalSize(q) - 1
  {
    var w := q[0];
    TotalSizeAdds(q[1..], Children(w));
    TotalSizeAdds(Queued(w.tree.left, w.depth + 1), Queued(w.tree.right, w.depth + 1));
    QueuedAlone(w.tree.left, w.depth + 1);
    QueuedAlone(w.tree.right, w.depth + 1);
  }

  /** What the iterator will still visit, in order. */
  ghost function LevelOrder<V>(q: seq<Waiting<V>>): seq<Visit<V>>
    requires AllNodes(q)
    decreases TotalSize(q)
  {
    if q == [] then []
    else
      QueueShrinks(q);
      [Visit(S.Root(q[0].tree), q[0].depth)] + LevelOrder(q[1..] + Children(q[0]))
  }

  /** The entries of a tree with their depths, in no order. */
  ghost function Visits<V>(t: S.Tree<V>, depth: nat): multiset<Visit<V>> {
    if t.Leaf? then multiset{}
    else multiset{Visit(S.Root(t), depth)} + Visits(t.left, depth + 1) + Visits(t.right, depth + 1)
  }

  ghost function AllVisits<V>(q: seq<Waiting<V>>): multiset<Visit<V>> {
    if q == [] then multiset{} else Visits(q[0].tree, q[0].depth) + AllVisits(q[1..])
  }

  lemma {:induction false} AllVisitsAdds<V>(p: seq<Waiting<V>>, q: seq<Waiting<V>>)
    ensures AllVisits(p + q) == AllVisits(p) + AllVisits(q)
  {
    if p == [] {
      assert p + q == q;
    } else {
      assert (p + q)[1..] == p[1..] + q;
      AllVisitsAdds(p[1..], q);
    }
  }

  lemma ChildrenVisits<V>(w: Waiting<V>)
    requires w.tree.Node?
    ensures Visits(w.tree, w.depth) == multiset{Visit(S.Root(w.tree), w.depth)} + AllVisits(Children(w))
  {
    ChildrenHold(w);
    Regroup(multiset{Visit(S.Root(w.tree), w.depth)}, Visits(w.tree.left, w.depth + 1),
            Visits(w.tree.right, w.depth + 1));
  }

  lemma ChildrenHold<V>(w: Waiting<V>)
    requires w.tree.Node?
    ensures AllVisits(Children(w)) == Visits(w.tree.left, w.depth + 1) + Visits(w.tree.right, w.depth + 1)
  {
    TwoQueued(w.tree.left, w.tree.right, w.depth + 1);
  }

  lemma TwoQueued<V>(l: S.Tree<V>, r: S.Tree<V>, depth: nat)
    ensures AllVisits(Queued(l, depth) + Queued(r, depth)) == Visits(l, depth) + Visits(r, depth)
  {
    AllVisitsAdds(Queued(l, depth), Queued(r, depth));
    QueuedAlone(l, depth);
    QueuedAlone(r, depth);
  }

  lemma Regroup<T>(a: multiset<T>, b: multiset<T>, c: multiset<T>)
    ensures a + b + c == a + (b + c)
  {
  }

  lemma VisitsStep<V>(q: seq<Waiting<V>>, rest: seq<Visit<V>>)
    requires q != [] && AllNodes(q) && multiset(rest) == AllVisits(q[1..] + Children(q[0]))
    ensures multiset([Visit(S.Root(q[0].tree), q[0].depth)] + rest) == AllVisits(q)
  {
    AllVisitsAdds(q[1..], Children(q[0]));
    ChildrenVisits(q[0]);
  }

  /** The queued subtrees hold exactly what is still to be visited, each entry once. */
  lemma {:induction false} LevelOrderVisitsAll<V>(q: seq<Waiting<V>>)
    requires AllNodes(q)
    ensures multiset(LevelOrder(q)) == AllVisits(q)
    ensures |LevelOrder(q)| == TotalSize(q)
    decreases TotalSize(q)
  {
    if q != [] {
      QueueShrinks(q);
      LevelOrderVisitsAll(q[1..] + Children(q[0]));
      VisitsStep(q, LevelOrder(q[1..] + Children(q[0])));
    }
  }

  /** The queue holds one level and the start of the next. */
  ghost predicate TwoLevels<V>(q: seq<Waiting<V>>) {
    && (forall i, j :: 0 <= i < j < |q| ==> q[i].depth <= q[j].depth)
    && (forall i :: 0 <= i < |q| ==> q[i].depth <= q[0].depth + 1)
  }

  ghost predicate DepthSorted<V>(vs: seq<Visit<V>>) {
    forall i, j :: 0 <= i < j < |vs| ==> vs[i].depth <= vs[j].depth
  }

  lemma {:induction false} LevelOrderIsSorted<V>(q: seq<Waiting<V>>)
    requires AllNodes(q) && TwoLevels(q)
    ensures DepthSorted(LevelOrder(q))
    ensures forall v :: v in LevelOrder(q) ==> q != [] && q[0].depth <= v.depth
    decreases TotalSize(q)
  {
    if q != [] {
      QueueShrinks(q);
      LevelOrderIsSorted(q[1..] + Children(q[0]));
    }
  }

  /** From the top of a tree: every entry once, shallow entries first. */
  lemma LevelOrderOfTree<V>(t: S.Tree<V>)
    ensures var vs := LevelOrder(Queued(t, 0));
            && multiset(vs) == Visits(t, 0)
            && |vs| == S.Size(t)
            && DepthSorted(vs)
  {
    var q := Queued(t, 0);
    LevelOrderVisitsAll(q);
    LevelOrderIsSorted(q);
    QueuedAlone(t, 0);
  }
}

module AvlIter {
  import S = AvlSpec
  import opened Avl
  import opened AvlLevelOrder

  class LinkNode<V> {
    var node: AvlNode<V>
    var next: LinkNode?<V>

    constructor (node: AvlNode<V>)
      ensures this.node == node && next == null
    {
      this.node, next := node, null;
    }
  }

  ghost function AllSkeletonNodes<V>(ss: seq<Skeleton<V>>): set<AvlNode<V>> {
    set i, o | 0 <= i < |ss| && o in Nodes(ss[i]) :: o
  }

  /** The nodes ns are the roots of the pending subtrees. */
  ghost predicate Hold<V>(ns: seq<AvlNode<V>>, ss: seq<Skeleton<V>>, q: seq<Waiting<V>>)
    reads AllSkeletonNodes(ss)
  {
    && |ns| == |ss| == |q|
    && AllNodes(q)
    && forall i :: 0 <= i < |ns| ==> Represents(ns[i], ss[i], q[i].tree)
  }

  function NonNull<V>(n: AvlNode?<V>): seq<AvlNode<V>> {
    if n == null then [] else [n]
  }

  ghost function NonNil<V>(s: Skeleton<V>): seq<Skeleton<V>> {
    if s.Nil? then [] else [s]
  }

  /** The first subtree makes way for its children. */
  lemma HoldAdvances<V>(ns: seq<AvlNode<V>>, ss: seq<Skeleton<V>>, q: seq<Waiting<V>>)
    requires Hold(ns, ss, q) && q != []
    ensures ss[0].Fork? && ns[0] == ss[0].node
    ensures Hold(ns[1..] + NonNull(ns[0].left) + NonNull(ns[0].right),
                 ss[1..] + NonNil(ss[0].left) + NonNil(ss[0].right),
                 q[1..] + Children(q[0]))
  {
    var n, s, t := ns[0], ss[0], q[0].tree;
    assert Represents(n, s, t);
    assert Represents(n.left, s.left, t.left) && Represents(n.right, s.right, t.right);
  }

  class AvlIter<V> {
    var head: LinkNode?<V>
    var tail: LinkNode?<V>
    ghost var links: seq<LinkNode<V>>
    ghost var Repr: set<LinkNode<V>>
    ghost var roots: seq<AvlNode<V>>
    ghost var skeletons: seq<Skeleton<V>>
    ghost var pending: seq<Waiting<V>>
    ghost var visited: seq<Visit<V>>

    /** head and tail delimit the linked queue of roots. */
    ghost predicate Linked()
      reads this, Repr
    {
      && (forall l :: l in links ==> l in Repr)
      && |links| == |roots|
      && (if links == [] then head == null else head == links[0] && tail == links[|links| - 1])
      && (forall i {:trigger links[i].next} :: 0 <= i < |links| ==>
            links[i].next == if i + 1 < |links| then links[i + 1] else null)
      && (forall i :: 0 <= i < |links| ==> links[i].node == roots[i])
      && (forall i, j :: 0 <= i < j < |links| ==> links[i] != links[j])
    }

    ghost predicate Valid()
      reads this, Repr, AllSkeletonNodes(skeletons)
    {
      Linked() && Hold(roots, skeletons, pending)
    }

    /** avl_iter_begin */
    constructor (tree: AvlTree<V>)
      requires tree.Valid()
      ensures Valid() && fresh(Repr)
      ensures pending == Queued(tree.shape, 0) && visited == []
    {
      assert allocated(Nodes(tree.skeleton));
      head, tail, links, Repr, roots, skeletons, pending, visited := null, null, [], {}, [], [], [], [];
      if tree.top != null {
        var n := new LinkNode(tree.top);
        head, tail := n, n;
        links, Repr, roots, skeletons, pending := [n], {n}, [tree.top], [tree.skeleton], [Waiting(tree.shape, 0)];
      }
    }

    /** avl_iter_done */
    predicate Done()
      requires Valid()
      reads this, Repr, AllSkeletonNodes(skeletons)
      ensures Done() <==> pending == []
    {
      head == null
    }

    /** avl_iter_current */
    method Current() returns (data: V)
      requires Valid() && pending != []
      ensures Valid() && data == pending[0].tree.data
    {
      HoldAdvances(roots, skeletons, pending);
      data := head.node.data;
    }

    method AddLinkNode(n: AvlNode?<V>)
      requires Linked() && links != []
      modifies this`tail, this`links, this`Repr, this`roots, Repr
      ensures Linked() && links != []
      ensures roots == old(roots) + NonNull(n)
      ensures fresh(Repr - old(Repr))
    {
      if n != null {
        var l := new LinkNode(n);
        tail.next := l;
        tail := l;
        links, Repr, roots := links + [l], Repr + {l}, roots + [n];
      }
    }

    method PopLink()
      requires Linked() && links != []
      modifies this`head, this`links, this`roots
      ensures Linked() && links == old(links)[1..] && roots == old(roots)[1..]
    {
      head := head.next;
      links, roots := links[1..], roots[1..];
    }

    /** The link operations of avl_iter_increment. */
    method AdvanceLinks(l: AvlNode?<V>, r: AvlNode?<V>)
      requires Linked() && links != []
      modifies this`head, this`tail, this`links, this`Repr, this`roots, Repr
      ensures Linked() && roots == old(roots)[1..] + NonNull(l) + NonNull(r)
      ensures fresh(Repr - old(Repr))
    {
      AddLinkNode(l);
      AddLinkNode(r);
      assert roots == old(roots) + NonNull(l) + NonNull(r);
      PopLink();
    }

    /** The link operations of avl_iter_increment, which touch no tree node. */
    method AdvanceRoots()
      requires Valid() && pending != []
      modifies this`head, this`tail, this`links, this`Repr, this`roots, Repr
      ensures Linked() && fresh(Repr - old(Repr))
      ensures var n := old(roots[0]); roots == old(roots)[1..] + NonNull(n.left) + NonNull(n.right)
      ensures Hold(old(roots), skeletons, pending)
    {
      assert forall i :: 0 <= i < |skeletons| ==> allocated(Nodes(skeletons[i]));
      HoldAdvances(roots, skeletons, pending);
      AdvanceLinks(head.node.left, head.node.right);
    }

    /** avl_iter_increment: the entry at the head has been visited, its children join the queue. */
    method Increment()
      requires Valid() && pending != []
      modifies this, Repr
      ensures Valid() && fresh(Repr - old(Repr))
      ensures var w := old(pending[0]);
              && pending == old(pending)[1..] + Children(w)
              && visited == old(visited) + [Visit(S.Root(w.tree), w.depth)]
    {
      ghost var w, s, ns := pending[0], skeletons[0], roots;
      AdvanceRoots();
      HoldAdvances(ns, skeletons, pending);
      Record(skeletons[1..] + NonNil(s.left) + NonNil(s.right), pending[1..] + Children(w),
             visited + [Visit(S.Root(w.tree), w.depth)]);
    }

    ghost method Record(skeletons: seq<Skeleton<V>>, pending: seq<Waiting<V>>, visited: seq<Visit<V>>)
      requires Linked() && Hold(roots, skeletons, pending)
      modifies this`skeletons, this`pending, this`visited
      ensures Valid()
      ensures this.skeletons == skeletons && this.pending == pending && this.visited == visited
    {
      assert forall i :: 0 <= i < |skeletons| ==> allocated(Nodes(skeletons[i]));
      this.skeletons, this.pending, this.visited := skeletons, pending, visited;
    }
  }

  /** The visits already made and those the queue still promises. */
  ghost function Plan<V>(past: seq<Visit<V>>, q: seq<Waiting<V>>): seq<Visit<V>>
    requires AllNodes(q)
  {
    past + LevelOrder(q)
  }

  /** One increment moves the first planned visit to the past. */
  lemma IncrementKeepsPlan<V>(past: seq<Visit<V>>, q: seq<Waiting<V>>)
    requires q != [] && AllNodes(q)
    ensures Plan(past, q) == Plan(past + [Visit(S.Root(q[0].tree), q[0].depth)], q[1..] + Children(q[0]))
    ensures TotalSize(q[1..] + Children(q[0])) == TotalSize(q) - 1
  {
    QueueShrinks(q);
  }

  /** The body of a client's loop. */
  method Step<V>(iter: AvlIter<V>) returns (data: V, ghost v: Visit<V>)
    requires iter.Valid() && iter.pending != []
    modifies iter, iter.Repr
    ensures iter.Valid() && fresh(iter.Repr - old(iter.Repr))
    ensures iter.visited == old(iter.visited) + [v] && v.entry.data == data
    ensures Plan(iter.visited, iter.pending) == old(Plan(iter.visited, iter.pending))
    ensures TotalSize(iter.pending) == old(TotalSize(iter.pending)) - 1
  {
    data := iter.Current();
    v := Visit(S.Root(iter.pending[0].tree), iter.pending[0].depth);
    IncrementKeepsPlan(iter.visited, iter.pending);
    iter.Increment();
  }

  /** The visits show every key of the map exactly once, with its data, and nothing else. */
  ghost predicate ShowMap<V>(visits: seq<Visit<V>>, m: map<S.Key, V>) {
    && (forall i, j :: 0 <= i < j < |visits| ==> visits[i].entry.key != visits[j].entry.key)
    && (forall i :: 0 <= i < |visits| ==>
          visits[i].entry.key in m && m[visits[i].entry.key] == visits[i].entry.data)
    && forall k :: k in m ==> exists i :: 0 <= i < |visits| && visits[i].entry == S.Entry(k, m[k])
  }

  lemma VisitsSplit<V>(t: S.Tree<V>, depth: nat, v: Visit<V>)
    requires t.Node?
    ensures Visits(t, depth)[v] ==
      (if v == Visit(S.Root(t), depth) then 1 else 0) + Visits(t.left, depth + 1)[v] + Visits(t.right, depth + 1)[v]
  {
  }

  /** The visits of an ordered tree are the entries of its map, one for each key. */
  lemma {:induction false} VisitsAreEntries<V>(t: S.Tree<V>, depth: nat, lo: int, hi: int, v: Visit<V>)
    requires S.Within(t, lo, hi)
    ensures Visits(t, depth)[v] <= 1
    ensures v in Visits(t, depth) ==>
      v.entry.key in S.Contents(t) && S.Contents(t)[v.entry.key] == v.entry.data
    decreases t
  {
    if t.Node? {
      VisitsAreEntries(t.left, depth + 1, lo, t.key, v);
      VisitsAreEntries(t.right, depth + 1, t.key, hi, v);
      S.KeysAreSplit(t, lo, hi);
      VisitsSplit(t, depth, v);
    }
  }

  lemma {:induction false} EntriesAreVisited<V>(t: S.Tree<V>, depth: nat, lo: int, hi: int, key: S.Key)
    returns (v: Visit<V>)
    requires S.Within(t, lo, hi) && key in S.Contents(t)
    ensures v in Visits(t, depth) && v.entry == S.Entry(key, S.Contents(t)[key])
    decreases t
  {
    S.KeysAreSplit(t, lo, hi);
    S.GetIsLookup(t, lo, hi, key);
    if key == t.key {
      v := Visit(S.Root(t), depth);
    } else if key in S.Contents(t.left) {
      S.GetIsLookup(t.left, lo, t.key, key);
      v := EntriesAreVisited(t.left, depth + 1, lo, t.key, key);
    } else {
      S.GetIsLookup(t.right, t.key, hi, key);
      v := EntriesAreVisited(t.right, depth + 1, t.key, hi, key);
    }
  }

  /** Visits of one key are the same visit. */
  lemma {:induction false} KeysVisitedOnce<V>(t: S.Tree<V>, depth: nat, lo: int, hi: int, v: Visit<V>, w: Visit<V>)
    requires S.Within(t, lo, hi) && v in Visits(t, depth) && w in Visits(t, depth) && v.entry.key == w.entry.key
    ensures v == w
    decreases t
  {
    S.KeysAreSplit(t, lo, hi);
    VisitsAreEntries(t.left, depth + 1, lo, t.key, v);
    VisitsAreEntries(t.left, depth + 1, lo, t.key, w);
    VisitsAreEntries(t.right, depth + 1, t.key, hi, v);
    VisitsAreEntries(t.right, depth + 1, t.key, hi, w);
    if v in Visits(t.left, depth + 1) && w in Visits(t.left, depth + 1) {
      KeysVisitedOnce(t.left, depth + 1, lo, t.key, v, w);
    } else if v in Visits(t.right, depth + 1) && w in Visits(t.right, depth + 1) {
      KeysVisitedOnce(t.right, depth + 1, t.key, hi, v, w);
    }
  }

  // ----- One level from left to right -----

  /** Subtrees of one level stand in the order of their keys, and those of the next level, whose
      parents have left the queue, have smaller keys than those of this one. */
  ghost predicate Apart<V>(q: seq<Waiting<V>>) {
    forall i, j :: 0 <= i < j < |q| ==>
      if q[i].depth == q[j].depth then KeysBelow(q[i].tree, q[j].tree) else KeysBelow(q[j].tree, q[i].tree)
  }

  ghost predicate KeysBelow<V>(t: S.Tree<V>, u: S.Tree<V>) {
    forall x, y :: x in S.Contents(t) && y in S.Contents(u) ==> x < y
  }

  ghost predicate AllOrdered<V>(q: seq<Waiting<V>>) {
    forall i :: 0 <= i < |q| ==> S.Ordered(q[i].tree)
  }

  lemma {:induction false} WithinWider<V>(t: S.Tree<V>, lo: int, hi: int, lo': int, hi': int)
    requires S.Within(t, lo, hi) && lo' <= lo && hi <= hi'
    ensures S.Within(t, lo', hi')
  {
    if t.Node? {
      WithinWider(t.left, lo, t.key, lo', t.key);
      WithinWider(t.right, t.key, hi, t.key, hi');
    }
  }

  /** The children of an ordered node are ordered, apart, and within its keys. */
  lemma ChildrenApart<V>(w: Waiting<V>)
    requires w.tree.Node? && S.Ordered(w.tree)
    ensures S.Ordered(w.tree.left) && S.Ordered(w.tree.right) && KeysBelow(w.tree.left, w.tree.right)
    ensures S.Contents(w.tree.left).Keys <= S.Contents(w.tree).Keys
    ensures S.Contents(w.tree.right).Keys <= S.Contents(w.tree).Keys
  {
    var t := w.tree;
    WithinWider(t.left, -1, t.key, -1, S.KEY_LIMIT);
    WithinWider(t.right, t.key, S.KEY_LIMIT, -1, S.KEY_LIMIT);
    S.KeysAreSplit(t, -1, S.KEY_LIMIT);
    forall x, y | x in S.Contents(t.left) && y in S.Contents(t.right) ensures x < y {
      assert x in S.Contents(t.left).Keys && y in S.Contents(t.right).Keys;
    }
  }

  lemma ChildKeys<V>(w: Waiting<V>, c: Waiting<V>)
    requires w.tree.Node? && S.Ordered(w.tree) && c in Children(w)
    ensures S.Ordered(c.tree) && S.Contents(c.tree).Keys <= S.Contents(w.tree).Keys && c.depth == w.depth + 1
  {
    ChildrenApart(w);
  }

  lemma NarrowBelow<V>(t: S.Tree<V>, u: S.Tree<V>, c: S.Tree<V>)
    requires S.Contents(c).Keys <= S.Contents(t).Keys
    ensures KeysBelow(t, u) ==> KeysBelow(c, u)
    ensures KeysBelow(u, t) ==> KeysBelow(u, c)
  {
    assert forall x :: x in S.Contents(c) ==> x in S.Contents(c).Keys && x in S.Contents(t);
  }

  lemma ApartNext<V>(q: seq<Waiting<V>>)
    requires q != [] && AllNodes(q) && TwoLevels(q) && Apart(q) && AllOrdered(q)
    ensures Apart(q[1..] + Children(q[0])) && AllOrdered(q[1..] + Children(q[0]))
  {
    var h, rest, cs := q[0], q[1..], Children(q[0]);
    var next := rest + cs;
    forall i | 0 <= i < |next| ensures S.Ordered(next[i].tree) {
      if i >= |rest| {
        ChildKeys(h, cs[i - |rest|]);
      }
    }
    forall i, j | 0 <= i < j < |next|
      ensures if next[i].depth == next[j].depth then KeysBelow(next[i].tree, next[j].tree)
              else KeysBelow(next[j].tree, next[i].tree)
    {
      if j < |rest| {
        assert next[i] == q[i + 1] && next[j] == q[j + 1];
      } else if i < |rest| {
        assert next[i] == q[i + 1] && next[j] == cs[j - |rest|];
        ChildKeys(h, cs[j - |rest|]);
        NarrowBelow(h.tree, next[i].tree, next[j].tree);
      } else {
        ChildrenApart(h);
      }
    }
  }

  lemma {:induction false} VisitInQueue<V>(q: seq<Waiting<V>>, v: Visit<V>) returns (i: nat)
    requires v in AllVisits(q)
    ensures i < |q| && v in Visits(q[i].tree, q[i].depth)
  {
    i := 0;
    if v !in Visits(q[0].tree, q[0].depth) {
      i := VisitInQueue(q[1..], v);
      i := i + 1;
    }
  }

  lemma {:induction false} VisitsAreDeeper<V>(t: S.Tree<V>, depth: nat, v: Visit<V>)
    requires v in Visits(t, depth)
    ensures v.depth >= depth
    decreases t
  {
    if v in Visits(t.left, depth + 1) {
      VisitsAreDeeper(t.left, depth + 1, v);
    } else if v in Visits(t.right, depth + 1) {
      VisitsAreDeeper(t.right, depth + 1, v);
    }
  }

  /** By depth, and from left to right in each level. */
  ghost predicate LevelSorted<V>(vs: seq<Visit<V>>) {
    forall i, j :: 0 <= i < j < |vs| ==> Earlier(vs[i], vs[j])
  }

  ghost predicate Earlier<V>(v: Visit<V>, w: Visit<V>) {
    v.depth < w.depth || (v.depth == w.depth && v.entry.key < w.entry.key)
  }

  lemma HeadIsEarlier<V>(q: seq<Waiting<V>>, v: Visit<V>)
    requires q != [] && AllNodes(q) && TwoLevels(q) && Apart(q) && AllOrdered(q)
    requires v in AllVisits(q[1..] + Children(q[0]))
    ensures Earlier(Visit(S.Root(q[0].tree), q[0].depth), v)
  {
    var next := q[1..] + Children(q[0]);
    var i := VisitInQueue(next, v);
    VisitsAreDeeper(next[i].tree, next[i].depth, v);
    if i < |q| - 1 {
      assert next[i] == q[i + 1];
      VisitsAreEntries(q[i + 1].tree, q[i + 1].depth, -1, S.KEY_LIMIT, v);
      S.KeysAreSplit(q[0].tree, -1, S.KEY_LIMIT);
      assert q[0].tree.key in S.Contents(q[0].tree).Keys;
    } else {
      assert next[i] in Children(q[0]);
    }
  }

  lemma {:induction false} LevelOrderIsLevelSorted<V>(q: seq<Waiting<V>>)
    requires AllNodes(q) && TwoLevels(q) && Apart(q) && AllOrdered(q)
    ensures LevelSorted(LevelOrder(q))
    decreases TotalSize(q)
  {
    if q != [] {
      var next := q[1..] + Children(q[0]);
      QueueShrinks(q);
      ApartNext(q);
      LevelOrderIsLevelSorted(next);
      HeadComesFirst(q, LevelOrder(next));
    }
  }

  lemma HeadComesFirst<V>(q: seq<Waiting<V>>, later: seq<Visit<V>>)
    requires q != [] && AllNodes(q) && TwoLevels(q) && Apart(q) && AllOrdered(q)
    requires AllNodes(q[1..] + Children(q[0])) && later == LevelOrder(q[1..] + Children(q[0]))
    ensures forall j :: 0 <= j < |later| ==> Earlier(Visit(S.Root(q[0].tree), q[0].depth), later[j])
  {
    LevelOrderVisitsAll(q[1..] + Children(q[0]));
    forall j | 0 <= j < |later|
      ensures Earlier(Visit(S.Root(q[0].tree), q[0].depth), later[j])
    {
      assert later[j] in multiset(later);
      HeadIsEarlier(q, later[j]);
    }
  }

  lemma VisitsShowMap<V>(t: S.Tree<V>, visits: seq<Visit<V>>)
    requires S.Valid(t) && multiset(visits) == Visits(t, 0)
    ensures ShowMap(visits, S.Contents(t))
  {
    forall i | 0 <= i < |visits|
      ensures visits[i].entry.key in S.Contents(t)
      ensures S.Contents(t)[visits[i].entry.key] == visits[i].entry.data
    {
      assert visits[i] in multiset(visits);
      VisitsAreEntries(t, 0, -1, S.KEY_LIMIT, visits[i]);
    }
    forall i, j | 0 <= i < j < |visits| ensures visits[i].entry.key != visits[j].entry.key {
      DifferentKeys(t, visits, i, j);
    }
    forall k | k in S.Contents(t)
      ensures exists i :: 0 <= i < |visits| && visits[i].entry == S.Entry(k, S.Contents(t)[k])
    {
      var v := EntriesAreVisited(t, 0, -1, S.KEY_LIMIT, k);
      assert v in multiset(visits);
    }
  }

  lemma DifferentKeys<V>(t: S.Tree<V>, visits: seq<Visit<V>>, i: nat, j: nat)
    requires S.Valid(t) && multiset(visits) == Visits(t, 0) && i < j < |visits|
    ensures visits[i].entry.key != visits[j].entry.key
  {
    VisitsAreEntries(t, 0, -1, S.KEY_LIMIT, visits[i]);
    assert visits[i] in multiset(visits) && visits[j] in multiset(visits);
    if visits[i].entry.key == visits[j].entry.key {
      KeysVisitedOnce(t, 0, -1, S.KEY_LIMIT, visits[i], visits[j]);
      TwiceCounted(visits, i, j);
      assert false;
    }
  }

  lemma TwiceCounted<T>(s: seq<T>, i: nat, j: nat)
    requires i < j < |s| && s[i] == s[j]
    ensures multiset(s)[s[i]] >= 2
  {
    assert s == s[..j] + [s[j]] + s[j + 1..];
    assert s[..j][i] == s[i];
  }

  ghost predicate DataOf<V>(datas: seq<V>, visits: seq<Visit<V>>) {
    |datas| == |visits| && forall i :: 0 <= i < |datas| ==> datas[i] == visits[i].entry.data
  }

  /** begin, then current and increment until done: the visits are the level order of the tree,
      so every entry is visited once, shallow entries first, in Size many increments. */
  method Walk<V>(tree: AvlTree<V>) returns (datas: seq<V>, ghost visits: seq<Visit<V>>, increments: nat)
    requires tree.Valid()
    ensures visits == LevelOrder(Queued(tree.shape, 0))
    ensures multiset(visits) == Visits(tree.shape, 0) && DepthSorted(visits)
    ensures ShowMap(visits, tree.Contents())
    ensures DataOf(datas, visits)
    ensures increments == S.Size(tree.shape)
    ensures LevelSorted(visits) && increments == |tree.Contents()|
    ensures |datas| == |visits| && forall i :: 0 <= i < |datas| ==> datas[i] == visits[i].entry.data
  {
    ghost var t := tree.shape;
    var iter := new AvlIter(tree);
    datas, visits, increments := RunOut(iter);
    LevelOrderOfTree(t);
    assert visits == LevelOrder(Queued(t, 0));
    VisitsShowMap(t, visits);
    LevelOrderIsLevelSorted(Queued(t, 0));
    S.SizeIsCardinality(t, -1, S.KEY_LIMIT);
  }

  method RunOut<V>(iter: AvlIter<V>) returns (datas: seq<V>, ghost visits: seq<Visit<V>>, increments: nat)
    requires iter.Valid() && iter.visited == []
    modifies iter, iter.Repr
    ensures visits == old(LevelOrder(iter.pending))
    ensures DataOf(datas, visits) && increments == |visits|
  {
    ghost var plan := Plan([], iter.pending);
    assert plan == LevelOrder(iter.pending);
    datas, increments, visits := [], 0, [];
    while !iter.Done()
      invariant iter.Valid() && fresh(iter.Repr - old(iter.Repr))
      invariant iter.visited == visits && Plan(visits, iter.pending) == plan
      invariant DataOf(datas, visits) && increments == |visits|
      decreases TotalSize(iter.pending)
    {
      var data;
      ghost var v;
      data, v := Step(iter);
      datas, visits, increments := datas + [data], visits + [v], increments + 1;
    }
    assert visits + [] == visits;
  }
}
