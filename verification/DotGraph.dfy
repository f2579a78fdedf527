/** Which instruction supplies which: the dependences of a whole trace, as links between node numbers.
    Node 0 is "start"; the instruction at position k of the trace is node k + 1. */
module DotSpec {
  import opened Wrappers

  /** XED_REG_INVALID: no base or no index register. */
  const INVALID: nat := 0

  /** For each register its largest enclosing register. */
  type Registers = seq<nat>

  datatype Operand =
    | Register(reg: nat, read: bool, written: bool)
    | Memory(base: nat, index: nat)
    | Other

  type Instruction = seq<Operand>

  datatype Style = Solid | Dashed

  datatype Link = Link(src: nat, dst: nat, style: Style)

  /** A register's largest enclosing register; the table covers all registers there are. */
  function Enclosing(enclosing: Registers, r: nat): nat {
    if r < |enclosing| then enclosing[r] else r
  }

  ghost predicate Closed(enclosing: Registers) {
    |enclosing| > INVALID && forall r :: 0 <= r < |enclosing| ==> enclosing[r] < |enclosing|
  }

  ghost predicate Fits(enclosing: Registers, op: Operand) {
    match op
    case Register(r, _, _) => r < |enclosing|
    case Memory(b, x) => b < |enclosing| && x < |enclosing|
    case Other => true
  }

  ghost predicate AllFit(enclosing: Registers, ops: Instruction) {
    forall i :: 0 <= i < |ops| ==> Fits(enclosing, ops[i])
  }

  // ----- What an instruction reads and writes, in enclosing registers -----

  function Present(r: nat): seq<nat> {
    if r != INVALID then [r] else []
  }

  function Reads(op: Operand): seq<nat> {
    match op
    case Register(r, read, _) => if read then [r] else []
    case Memory(b, x) => Present(b) + Present(x)
    case Other => []
  }

  function Writes(op: Operand): seq<nat> {
    if op.Register? && op.written then [op.reg] else []
  }

  ghost predicate ReadsIn(enclosing: Registers, ops: Instruction, r: nat) {
    exists i, x :: 0 <= i < |ops| && x in Reads(ops[i]) && Enclosing(enclosing, x) == r
  }

  ghost predicate WritesAt(enclosing: Registers, ops: Instruction, i: nat, r: nat) {
    i < |ops| && ops[i].Register? && ops[i].written && Enclosing(enclosing, ops[i].reg) == r
  }

  ghost predicate WritesIn(enclosing: Registers, ops: Instruction, r: nat) {
    exists i :: WritesAt(enclosing, ops, i, r)
  }

  // ----- Reaching definitions -----

  /** Instruction k is the latest one of the trace before n to write r. */
  ghost predicate Reaches(enclosing: Registers, trace: seq<Instruction>, n: nat, r: nat, k: nat)
    requires n <= |trace|
  {
    && k < n && WritesIn(enclosing, trace[k], r)
    && forall j :: k < j < n ==> !WritesIn(enclosing, trace[j], r)
  }

  ghost predicate Unwritten(enclosing: Registers, trace: seq<Instruction>, n: nat, r: nat)
    requires n <= |trace|
  {
    forall j :: 0 <= j < n ==> !WritesIn(enclosing, trace[j], r)
  }

  // ----- The builder's steps on values -----

  /** Which node wrote each enclosing register last. */
  type Writers = seq<Option<nat>>

  function WriterAt(writers: Writers, r: nat): Option<nat> {
    if r < |writers| then writers[r] else None
  }

  function Installed(writers: Writers, r: nat, n: nat): (w: Writers)
    ensures |w| == |writers|
  {
    if r < |writers| then writers[r := Some(n)] else writers
  }

  function LinkFrom(writer: Option<nat>, n: nat, style: Style): seq<Link> {
    if writer.Some? then [Link(writer.value, n, style)] else []
  }

  function LinksFrom(enclosing: Registers, writers: Writers, n: nat, regs: seq<nat>): seq<Link> {
    if regs == [] then []
    else
      var last := |regs| - 1;
      LinksFrom(enclosing, writers, n, regs[..last])
      + LinkFrom(WriterAt(writers, Enclosing(enclosing, regs[last])), n, Solid)
  }

  function ReadLinks(enclosing: Registers, writers: Writers, n: nat, ops: Instruction): seq<Link> {
    if ops == [] then []
    else
      var last := |ops| - 1;
      ReadLinks(enclosing, writers, n, ops[..last]) + LinksFrom(enclosing, writers, n, Reads(ops[last]))
  }

  /** The edges into a new node: from its sources, or from the start node when it has none. */
  function SolidLinks(enclosing: Registers, writers: Writers, n: nat, ops: Instruction): seq<Link> {
    var links := ReadLinks(enclosing, writers, n, ops);
    if links == [] then [Link(0, n, Solid)] else links
  }

  /** The writers once the operands have been installed, in order, as written by node n. */
  function WritersAfter(enclosing: Registers, writers: Writers, n: nat, ops: Instruction): (r: Writers)
    ensures |r| == |writers|
  {
    if ops == [] then writers
    else
      var last := |ops| - 1;
      var before := WritersAfter(enclosing, writers, n, ops[..last]);
      if Writes(ops[last]) == [] then before else Installed(before, Enclosing(enclosing, ops[last].reg), n)
  }

  function DashedLinks(enclosing: Registers, writers: Writers, n: nat, ops: Instruction): seq<Link> {
    if ops == [] then []
    else
      var last := |ops| - 1;
      var before := WritersAfter(enclosing, writers, n, ops[..last]);
      DashedLinks(enclosing, writers, n, ops[..last])
      + if Writes(ops[last]) == [] then []
        else LinkFrom(WriterAt(before, Enclosing(enclosing, ops[last].reg)), n, Dashed)
  }

  /** The edges that adding the instruction of node n makes. */
  function NodeLinks(enclosing: Registers, writers: Writers, n: nat, ops: Instruction): seq<Link> {
    SolidLinks(enclosing, writers, n, ops) + DashedLinks(enclosing, writers, n, ops)
  }

  function NoWriters(enclosing: Registers): (w: Writers)
    ensures |w| == |enclosing| && forall r :: 0 <= r < |w| ==> w[r] == None
  {
    seq(|enclosing|, _ => None)
  }

  function WritersOf(enclosing: Registers, trace: seq<Instruction>): (w: Writers)
    ensures |w| == |enclosing|
  {
    if trace == [] then NoWriters(enclosing)
    else
      var last := |trace| - 1;
      WritersAfter(enclosing, WritersOf(enclosing, trace[..last]), last + 1, trace[last])
  }

  /** All edges of the graph, in the order they are made. */
  function GraphOf(enclosing: Registers, trace: seq<Instruction>): seq<Link> {
    if trace == [] then []
    else
      var last := |trace| - 1;
      GraphOf(enclosing, trace[..last])
      + NodeLinks(enclosing, WritersOf(enclosing, trace[..last]), last + 1, trace[last])
  }

  // ----- The table of writers holds the reaching definitions -----

  lemma {:induction false} WritersAfterAt(enclosing: Registers, writers: Writers, n: nat, ops: Instruction, r: nat)
    requires r < |writers|
    ensures WritersAfter(enclosing, writers, n, ops)[r] ==
      if WritesIn(enclosing, ops, r) then Some(n) else WriterAt(writers, r)
    decreases |ops|
  {
    if ops != [] {
      var last := |ops| - 1;
      var before := ops[..last];
      WritersAfterAt(enclosing, writers, n, before, r);
      assert forall i :: 0 <= i < last ==> WritesAt(enclosing, before, i, r) == WritesAt(enclosing, ops, i, r);
      if Writes(ops[last]) != [] && Enclosing(enclosing, ops[last].reg) == r {
        assert WritesAt(enclosing, ops, last, r);
      } else {
        assert !WritesAt(enclosing, ops, last, r);
        assert WritesIn(enclosing, before, r) <==> WritesIn(enclosing, ops, r);
      }
    }
  }

  /** What reaches a point of the trace does not depend on what comes after it. */
  lemma ReachesInPrefix(enclosing: Registers, trace: seq<Instruction>, n: nat, r: nat)
    requires n <= |trace|
    ensures Unwritten(enclosing, trace[..n], n, r) <==> Unwritten(enclosing, trace, n, r)
    ensures forall k :: Reaches(enclosing, trace[..n], n, r, k) <==> Reaches(enclosing, trace, n, r, k)
  {
    assert forall j :: 0 <= j < n ==> trace[..n][j] == trace[j];
  }

  lemma ReachesStep(enclosing: Registers, trace: seq<Instruction>, n: nat, r: nat)
    requires n < |trace|
    ensures WritesIn(enclosing, trace[n], r) ==> Reaches(enclosing, trace, n + 1, r, n)
    ensures !WritesIn(enclosing, trace[n], r) && Unwritten(enclosing, trace, n, r) ==>
      Unwritten(enclosing, trace, n + 1, r)
    ensures forall k :: !WritesIn(enclosing, trace[n], r) && Reaches(enclosing, trace, n, r, k) ==>
      Reaches(enclosing, trace, n + 1, r, k)
  {
  }

  /** The table of writers is the table of reaching definitions of the whole trace. */
  lemma {:induction false} WritersReach(enclosing: Registers, trace: seq<Instruction>, r: nat)
    requires r < |enclosing|
    ensures match WritersOf(enclosing, trace)[r]
            case None => Unwritten(enclosing, trace, |trace|, r)
            case Some(w) => w > 0 && Reaches(enclosing, trace, |trace|, r, w - 1)
    decreases |trace|
  {
    if trace != [] {
      var last := |trace| - 1;
      WritersReach(enclosing, trace[..last], r);
      ReachesInPrefix(enclosing, trace, last, r);
      ReachesStep(enclosing, trace, last, r);
      WritersAfterAt(enclosing, WritersOf(enclosing, trace[..last]), last + 1, trace[last], r);
    }
  }

  // ----- Membership in the lists of links -----

  lemma {:induction false} LinksFromAt(enclosing: Registers, writers: Writers, n: nat, regs: seq<nat>, l: Link)
    ensures l in LinksFrom(enclosing, writers, n, regs) <==>
      && l.dst == n && l.style == Solid
      && exists x :: x in regs && WriterAt(writers, Enclosing(enclosing, x)) == Some(l.src)
    decreases |regs|
  {
    if regs != [] {
      var last := |regs| - 1;
      LinksFromAt(enclosing, writers, n, regs[..last], l);
      assert regs == regs[..last] + [regs[last]];
    }
  }

  ghost predicate Supplied(enclosing: Registers, writers: Writers, ops: Instruction, src: nat) {
    exists r :: 0 <= r < |writers| && ReadsIn(enclosing, ops, r) && WriterAt(writers, r) == Some(src)
  }

  lemma ReadsInStep(enclosing: Registers, ops: Instruction, last: nat, r: nat)
    requires |ops| == last + 1
    ensures ReadsIn(enclosing, ops, r) <==>
      ReadsIn(enclosing, ops[..last], r) || exists x :: x in Reads(ops[last]) && Enclosing(enclosing, x) == r
  {
    assert forall i :: 0 <= i < last ==> ops[..last][i] == ops[i];
  }

  /** One operand reads what node src wrote. */
  ghost predicate SuppliedBy(enclosing: Registers, writers: Writers, op: Operand, src: nat) {
    exists x :: x in Reads(op) && WriterAt(writers, Enclosing(enclosing, x)) == Some(src)
  }

  lemma OperandLinksAt(enclosing: Registers, writers: Writers, n: nat, op: Operand, l: Link)
    ensures l in LinksFrom(enclosing, writers, n, Reads(op)) <==>
      l.dst == n && l.style == Solid && SuppliedBy(enclosing, writers, op, l.src)
  {
    LinksFromAt(enclosing, writers, n, Reads(op), l);
  }

  lemma SuppliedStep(enclosing: Registers, writers: Writers, ops: Instruction, last: nat, src: nat)
    requires |ops| == last + 1
    ensures Supplied(enclosing, writers, ops, src) <==>
      Supplied(enclosing, writers, ops[..last], src) || SuppliedBy(enclosing, writers, ops[last], src)
  {
    forall r | 0 <= r < |writers|
      ensures ReadsIn(enclosing, ops, r) <==>
        ReadsIn(enclosing, ops[..last], r) || exists x :: x in Reads(ops[last]) && Enclosing(enclosing, x) == r
    {
      ReadsInStep(enclosing, ops, last, r);
    }
    if SuppliedBy(enclosing, writers, ops[last], src) {
      var x :| x in Reads(ops[last]) && WriterAt(writers, Enclosing(enclosing, x)) == Some(src);
      assert ReadsIn(enclosing, ops, Enclosing(enclosing, x));
    }
  }

  lemma InReadLinks(enclosing: Registers, writers: Writers, n: nat, ops: Instruction, last: nat, l: Link)
    requires |ops| == last + 1
    ensures l in ReadLinks(enclosing, writers, n, ops) <==>
      l in ReadLinks(enclosing, writers, n, ops[..last]) || l in LinksFrom(enclosing, writers, n, Reads(ops[last]))
  {
  }

  lemma {:induction false} ReadLinksAt(enclosing: Registers, writers: Writers, n: nat, ops: Instruction, l: Link)
    ensures l in ReadLinks(enclosing, writers, n, ops) <==>
      l.dst == n && l.style == Solid && Supplied(enclosing, writers, ops, l.src)
    decreases |ops|
  {
    if ops != [] {
      var last := |ops| - 1;
      ReadLinksAt(enclosing, writers, n, ops[..last], l);
      InReadLinks(enclosing, writers, n, ops, last, l);
      OperandLinksAt(enclosing, writers, n, ops[last], l);
      SuppliedStep(enclosing, writers, ops, last, l.src);
    }
  }

  /** Operand i overwrites what node src wrote, which is the node n itself when the instruction
      has already written the same enclosing register. */
  ghost predicate Overwrites(enclosing: Registers, writers: Writers, n: nat, ops: Instruction, i: nat, src: nat) {
    exists r :: 0 <= r < |writers| && WritesAt(enclosing, ops, i, r)
      && if WritesIn(enclosing, ops[..i], r) then src == n else WriterAt(writers, r) == Some(src)
  }

  ghost predicate SomeOverwrite(enclosing: Registers, writers: Writers, n: nat, ops: Instruction, src: nat) {
    exists i: nat :: Overwrites(enclosing, writers, n, ops, i, src)
  }

  lemma {:induction false} DashedLinksAt(enclosing: Registers, writers: Writers, n: nat, ops: Instruction, l: Link)
    ensures l in DashedLinks(enclosing, writers, n, ops) <==>
      l.dst == n && l.style == Dashed && SomeOverwrite(enclosing, writers, n, ops, l.src)
    decreases |ops|
  {
    if ops != [] {
      var last := |ops| - 1;
      var before := ops[..last];
      DashedLinksAt(enclosing, writers, n, before, l);
      LastOverwrites(enclosing, writers, n, ops, l);
      SomeOverwriteStep(enclosing, writers, n, ops, l.src);
    }
  }

  lemma OverwriteInPrefix(enclosing: Registers, writers: Writers, n: nat, ops: Instruction, last: nat, i: nat, src: nat)
    requires i < last <= |ops|
    ensures Overwrites(enclosing, writers, n, ops[..last], i, src) <==> Overwrites(enclosing, writers, n, ops, i, src)
  {
    assert ops[..last][..i] == ops[..i];
    assert forall r :: 0 <= r < |writers| ==>
      WritesAt(enclosing, ops[..last], i, r) == WritesAt(enclosing, ops, i, r);
  }

  lemma SomeOverwriteStep(enclosing: Registers, writers: Writers, n: nat, ops: Instruction, src: nat)
    requires ops != []
    ensures var last := |ops| - 1;
      SomeOverwrite(enclosing, writers, n, ops, src) <==>
        SomeOverwrite(enclosing, writers, n, ops[..last], src) || Overwrites(enclosing, writers, n, ops, last, src)
  {
    var last := |ops| - 1;
    if i: nat :| Overwrites(enclosing, writers, n, ops[..last], i, src) {
      OverwriteInPrefix(enclosing, writers, n, ops, last, i, src);
    }
    if i: nat :| Overwrites(enclosing, writers, n, ops, i, src) {
      if i < last {
        OverwriteInPrefix(enclosing, writers, n, ops, last, i, src);
      }
    }
  }

  lemma LastOverwrites(enclosing: Registers, writers: Writers, n: nat, ops: Instruction, l: Link)
    requires ops != []
    ensures var last := |ops| - 1;
      l in DashedLinks(enclosing, writers, n, ops) <==>
        || l in DashedLinks(enclosing, writers, n, ops[..last])
        || (l.dst == n && l.style == Dashed && Overwrites(enclosing, writers, n, ops, last, l.src))
  {
    var last := |ops| - 1;
    if Writes(ops[last]) != [] {
      var r := Enclosing(enclosing, ops[last].reg);
      assert WritesAt(enclosing, ops, last, r);
      if r < |writers| {
        WritersAfterAt(enclosing, writers, n, ops[..last], r);
      }
    }
  }

  // ----- The graph is the graph of reaching definitions -----

  /** The links made for the instruction at position n. */
  function LinksAt(enclosing: Registers, trace: seq<Instruction>, n: nat): seq<Link>
    requires n < |trace|
  {
    NodeLinks(enclosing, WritersOf(enclosing, trace[..n]), n + 1, trace[n])
  }

  lemma LinksEnterNode(enclosing: Registers, trace: seq<Instruction>, n: nat, l: Link)
    requires n < |trace|
    ensures l in LinksAt(enclosing, trace, n) ==> l.dst == n + 1
  {
    var writers := WritersOf(enclosing, trace[..n]);
    ReadLinksAt(enclosing, writers, n + 1, trace[n], l);
    DashedLinksAt(enclosing, writers, n + 1, trace[n], l);
  }

  lemma GraphStep(enclosing: Registers, trace: seq<Instruction>, last: nat, l: Link)
    requires |trace| == last + 1
    ensures l in GraphOf(enclosing, trace) <==>
      l in GraphOf(enclosing, trace[..last]) || l in LinksAt(enclosing, trace, last)
  {
  }

  lemma LinksInPrefix(enclosing: Registers, trace: seq<Instruction>, last: nat, n: nat)
    requires n < last <= |trace|
    ensures LinksAt(enclosing, trace[..last], n) == LinksAt(enclosing, trace, n)
  {
    assert trace[..last][..n] == trace[..n];
  }

  ghost predicate MadeAt(enclosing: Registers, trace: seq<Instruction>, l: Link) {
    0 < l.dst <= |trace| && l in LinksAt(enclosing, trace, l.dst - 1)
  }

  lemma MadeAtStep(enclosing: Registers, trace: seq<Instruction>, last: nat, l: Link)
    requires |trace| == last + 1
    ensures MadeAt(enclosing, trace, l) <==>
      MadeAt(enclosing, trace[..last], l) || l in LinksAt(enclosing, trace, last)
  {
    LinksEnterNode(enclosing, trace, last, l);
    if 0 < l.dst <= last {
      LinksInPrefix(enclosing, trace, last, l.dst - 1);
      assert MadeAt(enclosing, trace, l) <==> l in LinksAt(enclosing, trace, l.dst - 1);
    } else if l.dst == last + 1 {
      assert MadeAt(enclosing, trace, l) <==> l in LinksAt(enclosing, trace, last);
    }
  }

  /** The edges into a node are those made for its instruction. */
  lemma {:induction false} GraphAt(enclosing: Registers, trace: seq<Instruction>, l: Link)
    ensures l in GraphOf(enclosing, trace) <==> MadeAt(enclosing, trace, l)
    decreases |trace|
  {
    if trace != [] {
      var last := |trace| - 1;
      GraphAt(enclosing, trace[..last], l);
      GraphStep(enclosing, trace, last, l);
      MadeAtStep(enclosing, trace, last, l);
    }
  }

  /** Instruction n reads a register whose latest earlier writer is instruction k. */
  ghost predicate Depends(enclosing: Registers, trace: seq<Instruction>, n: nat, k: nat)
    requires n < |trace|
  {
    exists r :: 0 <= r < |enclosing| && ReadsIn(enclosing, trace[n], r) && Reaches(enclosing, trace, n, r, k)
  }

  ghost predicate Independent(enclosing: Registers, trace: seq<Instruction>, n: nat)
    requires n < |trace|
  {
    forall k :: 0 <= k < n ==> !Depends(enclosing, trace, n, k)
  }

  lemma LatestIsUnique(enclosing: Registers, trace: seq<Instruction>, n: nat, r: nat, j: nat, k: nat)
    requires n <= |trace|
    requires Reaches(enclosing, trace, n, r, j) && Reaches(enclosing, trace, n, r, k)
    ensures j == k
  {
  }

  lemma TableReaches(enclosing: Registers, trace: seq<Instruction>, n: nat, r: nat, w: nat)
    requires n <= |trace| && r < |enclosing|
    ensures WritersOf(enclosing, trace[..n])[r] == Some(w) <==> w > 0 && Reaches(enclosing, trace, n, r, w - 1)
  {
    WritersReach(enclosing, trace[..n], r);
    ReachesInPrefix(enclosing, trace, n, r);
    match WritersOf(enclosing, trace[..n])[r] {
      case None =>
      case Some(v) =>
        if w > 0 && Reaches(enclosing, trace, n, r, w - 1) {
          LatestIsUnique(enclosing, trace, n, r, v - 1, w - 1);
        }
    }
  }

  lemma SuppliedIsDepends(enclosing: Registers, trace: seq<Instruction>, n: nat, w: nat)
    requires n < |trace|
    ensures Supplied(enclosing, WritersOf(enclosing, trace[..n]), trace[n], w) <==>
      w > 0 && Depends(enclosing, trace, n, w - 1)
  {
    forall r | 0 <= r < |enclosing|
      ensures WritersOf(enclosing, trace[..n])[r] == Some(w) <==> w > 0 && Reaches(enclosing, trace, n, r, w - 1)
    {
      TableReaches(enclosing, trace, n, r, w);
    }
  }

  ghost predicate NoneSupplied(enclosing: Registers, writers: Writers, ops: Instruction) {
    forall src: nat :: !Supplied(enclosing, writers, ops, src)
  }

  lemma SolidLinksAt(enclosing: Registers, writers: Writers, n: nat, ops: Instruction, l: Link)
    requires l.style == Solid && l.dst == n
    ensures l in NodeLinks(enclosing, writers, n, ops) <==>
      Supplied(enclosing, writers, ops, l.src) || (l.src == 0 && NoneSupplied(enclosing, writers, ops))
  {
    var links := ReadLinks(enclosing, writers, n, ops);
    DashedLinksAt(enclosing, writers, n, ops, l);
    ReadLinksAt(enclosing, writers, n, ops, l);
    if links == [] {
      forall src: nat ensures !Supplied(enclosing, writers, ops, src) {
        ReadLinksAt(enclosing, writers, n, ops, Link(src, n, Solid));
      }
    } else {
      ReadLinksAt(enclosing, writers, n, ops, links[0]);
    }
  }

  lemma NoneIsIndependent(enclosing: Registers, trace: seq<Instruction>, n: nat)
    requires n < |trace|
    ensures NoneSupplied(enclosing, WritersOf(enclosing, trace[..n]), trace[n]) <==> Independent(enclosing, trace, n)
  {
    var writers := WritersOf(enclosing, trace[..n]);
    if !NoneSupplied(enclosing, writers, trace[n]) {
      var src: nat :| Supplied(enclosing, writers, trace[n], src);
      SuppliedIsDepends(enclosing, trace, n, src);
    }
    if !Independent(enclosing, trace, n) {
      var k: nat :| k < n && Depends(enclosing, trace, n, k);
      SuppliedIsDepends(enclosing, trace, n, k + 1);
    }
  }

  lemma SourcedLink(enclosing: Registers, trace: seq<Instruction>, n: nat, k: nat)
    requires n < |trace|
    ensures Link(k + 1, n + 1, Solid) in LinksAt(enclosing, trace, n) <==> Depends(enclosing, trace, n, k)
  {
    SolidLinksAt(enclosing, WritersOf(enclosing, trace[..n]), n + 1, trace[n], Link(k + 1, n + 1, Solid));
    SuppliedIsDepends(enclosing, trace, n, k + 1);
  }

  /** A solid edge between two instructions says that the newer one reads a register whose latest
      earlier writer is the older one. */
  lemma SolidIsReaching(enclosing: Registers, trace: seq<Instruction>, n: nat, k: nat)
    requires n < |trace|
    ensures Link(k + 1, n + 1, Solid) in GraphOf(enclosing, trace) <==> Depends(enclosing, trace, n, k)
  {
    GraphAt(enclosing, trace, Link(k + 1, n + 1, Solid));
    SourcedLink(enclosing, trace, n, k);
  }

  /** A solid edge from the start node says that nothing the instruction reads was written before. */
  lemma StartIsIndependent(enclosing: Registers, trace: seq<Instruction>, n: nat)
    requires n < |trace|
    ensures Link(0, n + 1, Solid) in GraphOf(enclosing, trace) <==> Independent(enclosing, trace, n)
  {
    GraphAt(enclosing, trace, Link(0, n + 1, Solid));
    SolidLinksAt(enclosing, WritersOf(enclosing, trace[..n]), n + 1, trace[n], Link(0, n + 1, Solid));
    SuppliedIsDepends(enclosing, trace, n, 0);
    NoneIsIndependent(enclosing, trace, n);
  }

  /** Instruction n overwrites with its operand i what instruction src - 1 wrote last. */
  ghost predicate Outputs(enclosing: Registers, trace: seq<Instruction>, n: nat, i: nat, src: nat)
    requires n < |trace|
  {
    exists r :: 0 <= r < |enclosing| && WritesAt(enclosing, trace[n], i, r)
      && if WritesIn(enclosing, trace[n][..i], r) then src == n + 1
         else src > 0 && Reaches(enclosing, trace, n, r, src - 1)
  }

  lemma OverwritesIsOutputs(enclosing: Registers, trace: seq<Instruction>, n: nat, i: nat, src: nat)
    requires n < |trace|
    ensures Overwrites(enclosing, WritersOf(enclosing, trace[..n]), n + 1, trace[n], i, src) <==>
      Outputs(enclosing, trace, n, i, src)
  {
    forall r | 0 <= r < |enclosing|
      ensures WritersOf(enclosing, trace[..n])[r] == Some(src) <==>
        src > 0 && Reaches(enclosing, trace, n, r, src - 1)
    {
      TableReaches(enclosing, trace, n, r, src);
    }
  }

  ghost predicate SomeOutput(enclosing: Registers, trace: seq<Instruction>, n: nat, src: nat)
    requires n < |trace|
  {
    exists i: nat :: Outputs(enclosing, trace, n, i, src)
  }

  /** A dashed edge comes from the latest earlier writer of a register that is written; it is a loop
      exactly where an instruction writes the same enclosing register twice. */
  lemma DashedIsOutput(enclosing: Registers, trace: seq<Instruction>, l: Link)
    requires l.style == Dashed
    ensures l in GraphOf(enclosing, trace) <==>
      0 < l.dst <= |trace| && SomeOutput(enclosing, trace, l.dst - 1, l.src)
  {
    GraphAt(enclosing, trace, l);
    if 0 < l.dst <= |trace| {
      DashedLinksReach(enclosing, trace, l.dst - 1, l);
    }
  }

  lemma DashedLinksReach(enclosing: Registers, trace: seq<Instruction>, n: nat, l: Link)
    requires n < |trace| && l.style == Dashed && l.dst == n + 1
    ensures l in LinksAt(enclosing, trace, n) <==> SomeOutput(enclosing, trace, n, l.src)
  {
    var writers := WritersOf(enclosing, trace[..n]);
    DashedLinksAt(enclosing, writers, n + 1, trace[n], l);
    ReadLinksAt(enclosing, writers, n + 1, trace[n], l);
    SomeOverwriteIsOutput(enclosing, trace, n, l.src);
  }

  lemma SomeOverwriteIsOutput(enclosing: Registers, trace: seq<Instruction>, n: nat, src: nat)
    requires n < |trace|
    ensures SomeOverwrite(enclosing, WritersOf(enclosing, trace[..n]), n + 1, trace[n], src) <==>
      SomeOutput(enclosing, trace, n, src)
  {
    var writers := WritersOf(enclosing, trace[..n]);
    if SomeOverwrite(enclosing, writers, n + 1, trace[n], src) {
      var i: nat :| Overwrites(enclosing, writers, n + 1, trace[n], i, src);
      OverwritesIsOutputs(enclosing, trace, n, i, src);
    }
    if SomeOutput(enclosing, trace, n, src) {
      var i: nat :| Outputs(enclosing, trace, n, i, src);
      OverwritesIsOutputs(enclosing, trace, n, i, src);
    }
  }

  // ----- The edges in terms of the operands alone -----

  lemma ReadsAre(op: Operand, x: nat)
    ensures x in Reads(op) <==>
      || (op.Register? && op.read && op.reg == x)
      || (op.Memory? && (op.base == x || op.index == x) && x != 0)
  {
  }

  lemma WritesAre(enclosing: Registers, ops: Instruction, r: nat)
    requires AllFit(enclosing, ops)
    ensures WritesIn(enclosing, ops, r) <==>
      exists i :: 0 <= i < |ops| && ops[i].Register? && ops[i].written && enclosing[ops[i].reg] == r
  {
    if i :| 0 <= i < |ops| && ops[i].Register? && ops[i].written && enclosing[ops[i].reg] == r {
      assert WritesAt(enclosing, ops, i, r);
    }
    if i: nat :| WritesAt(enclosing, ops, i, r) {
      assert Fits(enclosing, ops[i]);
    }
  }

  /** Instruction n has a register operand that is read, or a memory operand with a base or index
      register, and instruction k is the latest before it to write the enclosing register. */
  ghost predicate ReadsFrom(enclosing: Registers, trace: seq<Instruction>, n: nat, k: nat)
    requires n < |trace|
  {
    exists i, x :: 0 <= i < |trace[n]| && 0 <= x < |enclosing|
      && (|| (trace[n][i].Register? && trace[n][i].read && trace[n][i].reg == x)
          || (trace[n][i].Memory? && (trace[n][i].base == x || trace[n][i].index == x) && x != 0))
      && Reaches(enclosing, trace, n, enclosing[x], k)
  }

  lemma DependsIsReadsFrom(enclosing: Registers, trace: seq<Instruction>, n: nat, k: nat)
    requires n < |trace| && Closed(enclosing) && AllFit(enclosing, trace[n])
    ensures Depends(enclosing, trace, n, k) <==> ReadsFrom(enclosing, trace, n, k)
  {
    if Depends(enclosing, trace, n, k) {
      var r :| 0 <= r < |enclosing| && ReadsIn(enclosing, trace[n], r) && Reaches(enclosing, trace, n, r, k);
      var i, x :| 0 <= i < |trace[n]| && x in Reads(trace[n][i]) && Enclosing(enclosing, x) == r;
      ReadsAre(trace[n][i], x);
      assert Fits(enclosing, trace[n][i]) && enclosing[x] == r;
    }
    if ReadsFrom(enclosing, trace, n, k) {
      var i, x :| 0 <= i < |trace[n]| && 0 <= x < |enclosing|
        && (|| (trace[n][i].Register? && trace[n][i].read && trace[n][i].reg == x)
            || (trace[n][i].Memory? && (trace[n][i].base == x || trace[n][i].index == x) && x != 0))
        && Reaches(enclosing, trace, n, enclosing[x], k);
      ReadsAre(trace[n][i], x);
      assert ReadsIn(enclosing, trace[n], Enclosing(enclosing, x));
    }
  }

  /** A solid edge between two instructions, in terms of their operands. */
  lemma SolidEdges(enclosing: Registers, trace: seq<Instruction>, n: nat, k: nat)
    requires n < |trace| && Closed(enclosing) && AllFit(enclosing, trace[n])
    ensures Link(k + 1, n + 1, Solid) in GraphOf(enclosing, trace) <==>
      exists i, x :: 0 <= i < |trace[n]| && 0 <= x < |enclosing|
        && (|| (trace[n][i].Register? && trace[n][i].read && trace[n][i].reg == x)
            || (trace[n][i].Memory? && (trace[n][i].base == x || trace[n][i].index == x) && x != 0))
        && Reaches(enclosing, trace, n, enclosing[x], k)
  {
    SolidIsReaching(enclosing, trace, n, k);
    DependsIsReadsFrom(enclosing, trace, n, k);
  }

  /** An edge from the start node: nothing that the instruction reads was written before. */
  lemma StartEdges(enclosing: Registers, trace: seq<Instruction>, n: nat)
    requires n < |trace| && Closed(enclosing) && AllFit(enclosing, trace[n])
    ensures Link(0, n + 1, Solid) in GraphOf(enclosing, trace) <==>
      forall k :: 0 <= k < n ==> !ReadsFrom(enclosing, trace, n, k)
  {
    StartIsIndependent(enclosing, trace, n);
    forall k | 0 <= k < n
      ensures Depends(enclosing, trace, n, k) <==> ReadsFrom(enclosing, trace, n, k)
    {
      DependsIsReadsFrom(enclosing, trace, n, k);
    }
  }

  /** Operand i of instruction n is a register operand that is written, and src is the latest before
      it to write the enclosing register, be it the instruction itself by an earlier operand or an
      older one. */
  ghost predicate OverwritesFrom(enclosing: Registers, trace: seq<Instruction>, n: nat, i: nat, src: nat)
    requires n < |trace| && AllFit(enclosing, trace[n])
  {
    && i < |trace[n]| && trace[n][i].Register? && trace[n][i].written
    && var r := enclosing[trace[n][i].reg];
       if exists j :: 0 <= j < i && trace[n][j].Register? && trace[n][j].written && enclosing[trace[n][j].reg] == r
       then src == n + 1
       else src > 0 && Reaches(enclosing, trace, n, r, src - 1)
  }

  lemma OutputOverwrites(enclosing: Registers, trace: seq<Instruction>, n: nat, i: nat, src: nat)
    requires n < |trace| && Closed(enclosing) && AllFit(enclosing, trace[n])
    ensures Outputs(enclosing, trace, n, i, src) <==> OverwritesFrom(enclosing, trace, n, i, src)
  {
    var ops := trace[n];
    if i < |ops| && ops[i].Register? && ops[i].written {
      var r := enclosing[ops[i].reg];
      assert Fits(enclosing, ops[i]) && WritesAt(enclosing, ops, i, r);
      EarlierWrites(enclosing, ops, i, r);
    }
  }

  /** A dashed edge, in terms of the operands. */
  lemma DashedEdges(enclosing: Registers, trace: seq<Instruction>, n: nat, src: nat)
    requires n < |trace| && Closed(enclosing) && AllFit(enclosing, trace[n])
    ensures Link(src, n + 1, Dashed) in GraphOf(enclosing, trace) <==>
      exists i: nat :: OverwritesFrom(enclosing, trace, n, i, src)
  {
    DashedIsOutput(enclosing, trace, Link(src, n + 1, Dashed));
    forall i: nat
      ensures Outputs(enclosing, trace, n, i, src) <==> OverwritesFrom(enclosing, trace, n, i, src)
    {
      OutputOverwrites(enclosing, trace, n, i, src);
    }
  }

  lemma EarlierWrites(enclosing: Registers, ops: Instruction, i: nat, r: nat)
    requires AllFit(enclosing, ops) && i < |ops|
    ensures WritesIn(enclosing, ops[..i], r) <==>
      exists j :: 0 <= j < i && ops[j].Register? && ops[j].written && enclosing[ops[j].reg] == r
  {
    WritesAre(enclosing, ops[..i], r);
    if j :| 0 <= j < i && ops[j].Register? && ops[j].written && enclosing[ops[j].reg] == r {
      assert ops[..i][j] == ops[j];
    }
  }

  /** Solid edges run from an older node to a newer one, so they form no cycle. */
  lemma SolidGoesForward(enclosing: Registers, trace: seq<Instruction>, l: Link)
    requires l in GraphOf(enclosing, trace) && l.style == Solid
    ensures l.src < l.dst <= |trace|
  {
    EdgesEnterNodes(enclosing, trace, l);
    if l.src > 0 {
      assert l == Link(l.src - 1 + 1, l.dst - 1 + 1, Solid);
      SolidIsReaching(enclosing, trace, l.dst - 1, l.src - 1);
      DependsOnEarlier(enclosing, trace, l.dst - 1, l.src - 1);
    }
  }

  lemma EdgesEnterNodes(enclosing: Registers, trace: seq<Instruction>, l: Link)
    requires l in GraphOf(enclosing, trace)
    ensures 0 < l.dst <= |trace|
  {
    GraphAt(enclosing, trace, l);
  }

  lemma DependsOnEarlier(enclosing: Registers, trace: seq<Instruction>, n: nat, k: nat)
    requires n < |trace|
    ensures Depends(enclosing, trace, n, k) ==> k < n
  {
  }

  ghost predicate IsPath(links: seq<Link>, path: seq<nat>) {
    path != [] && path[0] == 0
    && forall i {:trigger path[i]} :: 0 < i < |path| ==> Link(path[i - 1], path[i], Solid) in links
  }

  lemma SomeSolidEnters(enclosing: Registers, trace: seq<Instruction>, n: nat) returns (l: Link)
    requires 0 < n <= |trace|
    ensures l in GraphOf(enclosing, trace) && l.style == Solid && l.dst == n
  {
    var writers := WritersOf(enclosing, trace[..n - 1]);
    l := SolidLinks(enclosing, writers, n, trace[n - 1])[0];
    ReadLinksAt(enclosing, writers, n, trace[n - 1], l);
    assert l in LinksAt(enclosing, trace, n - 1);
    GraphAt(enclosing, trace, l);
  }

  /** Every instruction is reached from the start node along solid edges. */
  lemma {:induction false} AllReachable(enclosing: Registers, trace: seq<Instruction>, n: nat) returns (path: seq<nat>)
    requires n <= |trace|
    ensures IsPath(GraphOf(enclosing, trace), path) && path[|path| - 1] == n
    decreases n
  {
    if n == 0 {
      path := [0];
    } else {
      var l := SomeSolidEnters(enclosing, trace, n);
      SolidGoesForward(enclosing, trace, l);
      path := AllReachable(enclosing, trace, l.src);
      path := path + [n];
    }
  }
}

/** The graph with its linked lists (examples/xed-util-dot.c) and the builder that extends it one
    instruction at a time (examples/xed-util-dot-prep.c). */
module DotGraph {
  import opened Wrappers
  import opened DotSpec

  /** A node never changes once it is in the list. Its id counts the nodes made before it. */
  class DotNode {
    const name: string
    const next: DotNode?
    ghost const id: nat

    constructor (name: string, next: DotNode?, ghost id: nat)
      ensures this.name == name && this.next == next && this.id == id
    {
      this.name := name;
      this.next := next;
      this.id := id;
    }
  }

  class DotEdge {
    const src: DotNode
    const dst: DotNode
    const style: Style
    const next: DotEdge?

    constructor (src: DotNode, dst: DotNode, style: Style, next: DotEdge?)
      ensures this.src == src && this.dst == dst && this.style == style && this.next == next
    {
      this.src := src;
      this.dst := dst;
      this.style := style;
      this.next := next;
    }
  }

  /** Following next from n visits the nodes made, newest first. */
  ghost predicate NodeChain(n: DotNode?, made: seq<DotNode>) {
    if made == [] then n == null
    else
      var last := |made| - 1;
      n == made[last] && made[last].id == last && NodeChain(made[last].next, made[..last])
  }

  /** Following next from e visits edges that join the nodes of the links, newest first. */
  ghost predicate EdgeChain(e: DotEdge?, made: seq<DotNode>, links: seq<Link>) {
    if links == [] then e == null
    else
      var last := |links| - 1;
      && e != null && links[last] == Link(e.src.id, e.dst.id, e.style)
      && Member(made, e.src) && Member(made, e.dst)
      && EdgeChain(e.next, made, links[..last])
  }

  ghost predicate Member(made: seq<DotNode>, n: DotNode) {
    n.id < |made| && made[n.id] == n
  }

  lemma {:induction false} ChainGrows(e: DotEdge?, made: seq<DotNode>, links: seq<Link>, n: DotNode)
    requires EdgeChain(e, made, links)
    ensures EdgeChain(e, made + [n], links)
    decreases |links|
  {
    if links != [] {
      ChainGrows(e.next, made, links[..|links| - 1], n);
    }
  }

  class DotList {
    var nodes: DotNode?
    var edges: DotEdge?
    ghost var made: seq<DotNode>
    ghost var links: seq<Link>

    ghost predicate Valid()
      reads this
    {
      NodeChain(nodes, made) && EdgeChain(edges, made, links)
    }

    constructor ()
      ensures Valid() && made == [] && links == []
    {
      nodes, edges, made, links := null, null, [], [];
    }

    /** xed_dot_node */
    method Node(name: string) returns (n: DotNode)
      requires Valid()
      modifies this
      ensures Valid() && fresh(n) && n.name == name && n.id == |old(made)|
      ensures made == old(made) + [n] && links == old(links)
    {
      n := new DotNode(name, nodes, |made|);
      ChainGrows(edges, made, links, n);
      made := made + [n];
      assert made[..n.id] == old(made);
      nodes := n;
    }

    /** xed_dot_edge */
    method Edge(src: DotNode, dst: DotNode, style: Style)
      requires Valid() && Member(made, src) && Member(made, dst)
      modifies this
      ensures Valid() && made == old(made)
      ensures links == old(links) + [Link(src.id, dst.id, style)]
    {
      var e := new DotEdge(src, dst, style, edges);
      links := links + [Link(src.id, dst.id, style)];
      assert links[..|links| - 1] == old(links);
      edges := e;
    }
  }

  ghost function IdOf(n: DotNode?): Option<nat> {
    if n == null then None else Some(n.id)
  }

  ghost function IdsOf(nodes: seq<DotNode?>): (ids: seq<Option<nat>>)
    ensures |ids| == |nodes| && forall r :: 0 <= r < |ids| ==> ids[r] == IdOf(nodes[r])
  {
    seq(|nodes|, r requires 0 <= r < |nodes| => IdOf(nodes[r]))
  }

  ghost predicate Known(made: seq<DotNode>, nodes: seq<DotNode?>) {
    forall r :: 0 <= r < |nodes| && nodes[r] != null ==> Member(made, nodes[r])
  }

  lemma {:induction false} LinksFromConcat(enclosing: Registers, writers: Writers, n: nat, a: seq<nat>, b: seq<nat>)
    requires |writers| == |enclosing| && Closed(enclosing)
    requires forall i :: 0 <= i < |a| ==> a[i] < |enclosing|
    requires forall i :: 0 <= i < |b| ==> b[i] < |enclosing|
    ensures LinksFrom(enclosing, writers, n, a + b)
         == LinksFrom(enclosing, writers, n, a) + LinksFrom(enclosing, writers, n, b)
    decreases |b|
  {
    if b == [] {
      assert a + b == a;
    } else {
      var last := |b| - 1;
      LinksFromConcat(enclosing, writers, n, a, b[..last]);
      LinksFromLast(enclosing, writers, n, b);
      LinksFromLast(enclosing, writers, n, a + b);
      assert (a + b)[..|a + b| - 1] == a + b[..last];
      Regroup(LinksFrom(enclosing, writers, n, a), LinksFrom(enclosing, writers, n, b[..last]),
              LinkFrom(WriterAt(writers, Enclosing(enclosing, b[last])), n, Solid));
    }
  }

  lemma LinksFromLast(enclosing: Registers, writers: Writers, n: nat, regs: seq<nat>)
    requires regs != []
    ensures var last := |regs| - 1;
      LinksFrom(enclosing, writers, n, regs) ==
        LinksFrom(enclosing, writers, n, regs[..last])
        + LinkFrom(WriterAt(writers, Enclosing(enclosing, regs[last])), n, Solid)
  {
  }

  lemma OneLink(enclosing: Registers, writers: Writers, n: nat, r: nat)
    requires |writers| == |enclosing| && Closed(enclosing) && r < |enclosing|
    ensures LinksFrom(enclosing, writers, n, [r]) == LinkFrom(writers[enclosing[r]], n, Solid)
    ensures LinksFrom(enclosing, writers, n, []) == []
  {
    assert [r][..0] == [];
  }

  lemma ReadLinksStep(enclosing: Registers, writers: Writers, n: nat, ops: Instruction, i: nat, links: seq<Link>)
    requires |writers| == |enclosing| && Closed(enclosing) && AllFit(enclosing, ops) && i < |ops|
    ensures (links + ReadLinks(enclosing, writers, n, ops[..i])) + LinksFrom(enclosing, writers, n, Reads(ops[i]))
         == links + ReadLinks(enclosing, writers, n, ops[..i + 1])
  {
    assert ops[..i + 1][..i] == ops[..i];
    Regroup(links, ReadLinks(enclosing, writers, n, ops[..i]), LinksFrom(enclosing, writers, n, Reads(ops[i])));
  }

  lemma WriteStep(enclosing: Registers, writers: Writers, n: nat, ops: Instruction, i: nat, links: seq<Link>)
    requires i < |ops|
    ensures var now := WritersAfter(enclosing, writers, n, ops[..i]);
      var from := if Writes(ops[i]) == [] then []
                  else LinkFrom(WriterAt(now, Enclosing(enclosing, ops[i].reg)), n, Dashed);
      && (links + DashedLinks(enclosing, writers, n, ops[..i])) + from ==
         links + DashedLinks(enclosing, writers, n, ops[..i + 1])
      && WritersAfter(enclosing, writers, n, ops[..i + 1]) ==
         if Writes(ops[i]) == [] then now else Installed(now, Enclosing(enclosing, ops[i].reg), n)
  {
    assert ops[..i + 1][..i] == ops[..i];
  }

  lemma TwoReads(enclosing: Registers, writers: Writers, n: nat, b: nat, x: nat, links: seq<Link>)
    requires |writers| == |enclosing| && Closed(enclosing) && b < |enclosing| && x < |enclosing|
    ensures (links + LinksFrom(enclosing, writers, n, Present(b))) + LinksFrom(enclosing, writers, n, Present(x))
         == links + LinksFrom(enclosing, writers, n, Reads(Memory(b, x)))
  {
    LinksFromConcat(enclosing, writers, n, Present(b), Present(x));
    Regroup(links, LinksFrom(enclosing, writers, n, Present(b)), LinksFrom(enclosing, writers, n, Present(x)));
  }

  lemma Regroup(a: seq<Link>, b: seq<Link>, c: seq<Link>)
    ensures (a + b) + c == a + (b + c)
  {
  }

  lemma TraceGrows(enclosing: Registers, trace: seq<Instruction>, ops: Instruction)
    ensures var writers := WritersOf(enclosing, trace);
      && WritersOf(enclosing, trace + [ops]) == WritersAfter(enclosing, writers, |trace| + 1, ops)
      && GraphOf(enclosing, trace + [ops]) ==
         (GraphOf(enclosing, trace) + SolidLinks(enclosing, writers, |trace| + 1, ops))
         + DashedLinks(enclosing, writers, |trace| + 1, ops)
  {
    var writers := WritersOf(enclosing, trace);
    assert (trace + [ops])[..|trace|] == trace;
    Regroup(GraphOf(enclosing, trace), SolidLinks(enclosing, writers, |trace| + 1, ops),
            DashedLinks(enclosing, writers, |trace| + 1, ops));
  }

  class DotGraph {
    const graph: DotList
    const enclosing: Registers
    const start: DotNode
    const regToNode: array<DotNode?>
    ghost var trace: seq<Instruction>

    /** Between the steps of an instruction: the lists are sound and the table holds nodes. */
    ghost predicate Sound()
      reads this, graph, regToNode
    {
      && graph.Valid() && Closed(enclosing) && regToNode.Length == |enclosing|
      && Member(graph.made, start) && start.id == 0
      && Known(graph.made, regToNode[..])
    }

    /** Between instructions: the edges are the graph of the trace, the table its last writers. */
    ghost predicate Valid()
      reads this, graph, regToNode
    {
      && Sound()
      && |graph.made| == |trace| + 1
      && graph.links == GraphOf(enclosing, trace)
      && IdsOf(regToNode[..]) == WritersOf(enclosing, trace)
    }

    /** xed_dot_graph_supp_create */
    constructor (enclosing: Registers)
      requires Closed(enclosing)
      ensures Valid() && trace == [] && this.enclosing == enclosing
      ensures fresh(graph) && fresh(regToNode)
    {
      this.enclosing := enclosing;
      var g := new DotList();
      var table := new DotNode?[|enclosing|](_ => null);
      var s := g.Node("start");
      graph, regToNode, start := g, table, s;
      trace := [];
    }

    /** add_edge */
    method AddEdge(n: DotNode, r: nat, style: Style) returns (found: bool)
      requires Sound() && Member(graph.made, n) && r < |enclosing|
      modifies graph
      ensures Sound() && graph.made == old(graph.made)
      ensures graph.links == old(graph.links) + LinkFrom(IdsOf(regToNode[..])[enclosing[r]], n.id, style)
      ensures found <==> IdsOf(regToNode[..])[enclosing[r]].Some?
    {
      var src := regToNode[enclosing[r]];
      assert regToNode[..][enclosing[r]] == src;
      if src != null {
        graph.Edge(src, n, style);
        return true;
      }
      return false;
    }

    /** The edge for a register that is read, or for a base or index register that is present. */
    method AddRead(n: DotNode, r: nat, wanted: bool) returns (found: bool)
      requires Sound() && Member(graph.made, n) && r < |enclosing|
      modifies graph
      ensures Sound() && graph.made == old(graph.made)
      ensures graph.links == old(graph.links)
        + LinksFrom(enclosing, IdsOf(regToNode[..]), n.id, if wanted then [r] else [])
      ensures found <==> |graph.links| > |old(graph.links)|
    {
      OneLink(enclosing, IdsOf(regToNode[..]), n.id, r);
      found := false;
      if wanted {
        found := AddEdge(n, r, Solid);
      }
    }

    /** The base and index registers of a memory operand. */
    method AddAddressReads(n: DotNode, b: nat, x: nat) returns (found: bool)
      requires Sound() && Member(graph.made, n) && b < |enclosing| && x < |enclosing|
      modifies graph
      ensures Sound() && graph.made == old(graph.made)
      ensures graph.links == old(graph.links) + LinksFrom(enclosing, IdsOf(regToNode[..]), n.id, Reads(Memory(b, x)))
      ensures found <==> |graph.links| > |old(graph.links)|
    {
      TwoReads(enclosing, IdsOf(regToNode[..]), n.id, b, x, graph.links);
      found := AddRead(n, b, b != INVALID);
      var more := AddRead(n, x, x != INVALID);
      found := found || more;
    }

    /** The reads of one operand. */
    method AddReads(n: DotNode, op: Operand) returns (found: bool)
      requires Sound() && Member(graph.made, n) && Fits(enclosing, op)
      modifies graph
      ensures Sound() && graph.made == old(graph.made)
      ensures graph.links == old(graph.links) + LinksFrom(enclosing, IdsOf(regToNode[..]), n.id, Reads(op))
      ensures found <==> |graph.links| > |old(graph.links)|
    {
      match op {
        case Register(r, read, _) =>
          found := AddRead(n, r, read);
        case Memory(b, x) =>
          found := AddAddressReads(n, b, x);
        case Other =>
          found := false;
      }
    }

    /** The loop of add_read_operands. */
    method AddAllReads(n: DotNode, ops: Instruction) returns (found: bool)
      requires Sound() && Member(graph.made, n) && AllFit(enclosing, ops)
      modifies graph
      ensures Sound() && graph.made == old(graph.made)
      ensures graph.links == old(graph.links) + ReadLinks(enclosing, IdsOf(regToNode[..]), n.id, ops)
      ensures found <==> |graph.links| > |old(graph.links)|
    {
      ghost var writers := IdsOf(regToNode[..]);
      found := false;
      for i := 0 to |ops|
        invariant Sound() && graph.made == old(graph.made)
        invariant graph.links == old(graph.links) + ReadLinks(enclosing, writers, n.id, ops[..i])
        invariant found <==> |graph.links| > |old(graph.links)|
      {
        var more := AddReads(n, ops[i]);
        found := found || more;
        ReadLinksStep(enclosing, writers, n.id, ops, i, old(graph.links));
      }
      assert ops[..|ops|] == ops;
    }

    /** add_read_operands */
    method AddReadOperands(n: DotNode, ops: Instruction)
      requires Sound() && Member(graph.made, n) && AllFit(enclosing, ops)
      modifies graph
      ensures Sound() && graph.made == old(graph.made)
      ensures graph.links == old(graph.links) + SolidLinks(enclosing, IdsOf(regToNode[..]), n.id, ops)
    {
      var found := AddAllReads(n, ops);
      if !found {
        graph.Edge(start, n, Solid);
      }
    }

    /** add_write_operands */
    method AddWriteOperands(n: DotNode, ops: Instruction)
      requires Sound() && Member(graph.made, n) && AllFit(enclosing, ops)
      modifies graph, regToNode
      ensures Sound() && graph.made == old(graph.made)
      ensures graph.links == old(graph.links) + DashedLinks(enclosing, old(IdsOf(regToNode[..])), n.id, ops)
      ensures IdsOf(regToNode[..]) == WritersAfter(enclosing, old(IdsOf(regToNode[..])), n.id, ops)
    {
      ghost var writers := IdsOf(regToNode[..]);
      for i := 0 to |ops|
        invariant Sound() && graph.made == old(graph.made)
        invariant graph.links == old(graph.links) + DashedLinks(enclosing, writers, n.id, ops[..i])
        invariant IdsOf(regToNode[..]) == WritersAfter(enclosing, writers, n.id, ops[..i])
      {
        WriteStep(enclosing, writers, n.id, ops, i, old(graph.links));
        WriteOne(n, ops[i]);
      }
      assert ops[..|ops|] == ops;
    }

    /** One operand of add_write_operands. */
    method WriteOne(n: DotNode, op: Operand)
      requires Sound() && Member(graph.made, n) && Fits(enclosing, op)
      modifies graph, regToNode
      ensures Sound() && graph.made == old(graph.made)
      ensures var writers := old(IdsOf(regToNode[..]));
        && graph.links == old(graph.links) +
             (if Writes(op) == [] then []
              else LinkFrom(WriterAt(writers, Enclosing(enclosing, op.reg)), n.id, Dashed))
        && IdsOf(regToNode[..]) ==
             if Writes(op) == [] then writers else Installed(writers, Enclosing(enclosing, op.reg), n.id)
    {
      if op.Register? && op.written {
        WriteOperand(n, op.reg);
      }
    }

    /** One written register: the output dependence, then n becomes the source of its value. */
    method WriteOperand(n: DotNode, r: nat)
      requires Sound() && Member(graph.made, n) && r < |enclosing|
      modifies graph, regToNode
      ensures Sound() && graph.made == old(graph.made)
      ensures var writers := old(IdsOf(regToNode[..]));
        && graph.links == old(graph.links) + LinkFrom(writers[enclosing[r]], n.id, Dashed)
        && IdsOf(regToNode[..]) == writers[enclosing[r] := Some(n.id)]
    {
      var _ := AddEdge(n, r, Dashed);
      regToNode[enclosing[r]] := n;
      assert regToNode[..] == old(regToNode[..])[enclosing[r] := n];
    }

    /** xed_dot_graph_add_instruction */
    method AddInstruction(ops: Instruction, name: string)
      requires Valid() && AllFit(enclosing, ops)
      modifies this`trace, graph, regToNode
      ensures Valid() && trace == old(trace) + [ops]
      ensures graph.made[..|old(graph.made)|] == old(graph.made) && graph.made[|trace|].name == name
    {
      var n := graph.Node(name);
      AddReadOperands(n, ops);
      AddWriteOperands(n, ops);
      TraceGrows(enclosing, trace, ops);
      trace := trace + [ops];
    }
  }
}
