/** The region disassembly scanner of examples/xed-examples-util.c in decode-only mode. */
module DisasScan {
  import opened Wrappers

  type Byte = b: int | 0 <= b < 256

  /** xed_uint64_t addresses wrap around. */
  const ADDRESS_SPACE: nat := 0x1_0000_0000_0000_0000

  type Address = a: int | 0 <= a < ADDRESS_SPACE

  const MAX_LENGTH: nat := 15

  datatype Error = NoError | InvalidForChip | OtherError

  datatype Decoded = Decoded(error: Error, length: nat)

  /** What the scan is asked to do: the bytes from a up to q, their address, the address range,
      the number of things to decode, the decoder, and the symbol table when resync is on. */
  datatype Region = Region(
    mem: seq<Byte>,
    vaddr: Address,
    vstart: Address,
    vend: Address,
    ninst: nat,
    decode: seq<Byte> -> Decoded,
    symbols: Option<Address -> bool>)

  /** The decoder never claims more bytes than it was given. */
  ghost predicate Bounded(r: Region) {
    forall w :: |w| <= MAX_LENGTH ==> r.decode(w).length <= |w|
  }

  datatype Kind = Shown(error: Error) | Undecodable(error: Error) | Resynced | Skipped

  /** One turn of the loop: the bytes it passes over and what became of them. */
  datatype Event = Event(pos: nat, len: nat, kind: Kind)

  // ----- The scan without flags -----

  /** The bytes offered to the decoder: at most 15, fewer at the end of the region. */
  function Window(r: Region, z: nat): (w: seq<Byte>)
    requires z <= |r.mem|
    ensures |w| <= MAX_LENGTH && (z < |r.mem| ==> |w| > 0) && z + |w| <= |r.mem|
  {
    if z + MAX_LENGTH > |r.mem| then r.mem[z..] else r.mem[z..z + MAX_LENGTH]
  }

  predicate AllZeros(w: seq<Byte>) {
    forall i :: 0 <= i < |w| ==> w[i] == 0
  }

  function AddressOf(r: Region, z: nat): Address {
    (z + r.vaddr) % ADDRESS_SPACE
  }

  predicate SymbolAt(r: Region, a: Address) {
    r.symbols.Some? && r.symbols.value(a)
  }

  function Plus(a: Address, x: nat): Address {
    (a + x) % ADDRESS_SPACE
  }

  /** x is the first offset inside an instruction of the given length that carries a symbol. */
  predicate FirstSymbol(r: Region, z: nat, length: nat, x: nat) {
    && 0 < x < length && SymbolAt(r, Plus(AddressOf(r, z), x))
    && forall y :: 0 < y < x ==> !SymbolAt(r, Plus(AddressOf(r, z), y))
  }

  predicate NoSymbolInside(r: Region, z: nat, length: nat) {
    forall y :: 0 < y < length ==> !SymbolAt(r, Plus(AddressOf(r, z), y))
  }

  function AtLeastOne(n: nat): nat {
    if n == 0 then 1 else n
  }

  /** What the turn at z must do, given whether the window of the turn before was all zeros. */
  ghost predicate IsTurn(r: Region, z: nat, zerosBefore: bool, e: Event)
    requires z < |r.mem|
  {
    var w := Window(r, z);
    var d := r.decode(w);
    && e.pos == z
    && if AllZeros(w) && zerosBefore then e.kind == Skipped && e.len == |w|
       else if NoSymbolInside(r, z, d.length) then
         e.kind == (if d.error.OtherError? then Undecodable(d.error) else Shown(d.error))
         && e.len == AtLeastOne(d.length) && (d.error.NoError? ==> d.length > 0)
       else e.kind == Resynced && FirstSymbol(r, z, d.length, e.len)
  }

  /** The loop stops with an error message at z. */
  ghost predicate DiesAt(r: Region, z: nat, zerosBefore: bool)
    requires z < |r.mem|
  {
    var w := Window(r, z);
    !(AllZeros(w) && zerosBefore) && r.decode(w) == Decoded(NoError, 0)
  }

  /** Where the turn after the events starts. */
  function EndOf(start: nat, events: seq<Event>): nat {
    if events == [] then start
    else events[|events| - 1].pos + events[|events| - 1].len
  }

  ghost predicate ZerosBefore(r: Region, events: seq<Event>) {
    events != [] && events[|events| - 1].pos <= |r.mem| && AllZeros(Window(r, events[|events| - 1].pos))
  }

  /** Event i is the turn that its predecessors call for. */
  ghost predicate Follows(r: Region, start: nat, events: seq<Event>, i: nat)
    requires i < |events|
  {
    && EndOf(start, events[..i]) < |r.mem|
    && IsTurn(r, EndOf(start, events[..i]), ZerosBefore(r, events[..i]), events[i])
  }

  ghost predicate IsRun(r: Region, start: nat, events: seq<Event>) {
    forall i :: 0 <= i < |events| ==> Follows(r, start, events, i)
  }

  /** Where the scan begins and ends: None when the range lies before the region. */
  function StartOf(r: Region): nat {
    if r.vstart > r.vaddr then r.vstart - r.vaddr else 0
  }

  function LimitOf(r: Region): Option<nat> {
    if r.vend == 0 then Some(|r.mem|)
    else if r.vend > r.vaddr then Some(if r.vend - r.vaddr < |r.mem| then r.vend - r.vaddr else |r.mem|)
    else None
  }

  predicate IsError(e: Event) {
    match e.kind
    case Shown(error) => error.InvalidForChip?
    case Undecodable(_) => true
    case _ => false
  }

  function ErrorCount(events: seq<Event>): nat {
    if events == [] then 0
    else ErrorCount(events[..|events| - 1]) + if IsError(events[|events| - 1]) then 1 else 0
  }

  // ----- The scan as the code runs it -----

  datatype Outcome = Finished | Died

  method CheckResync(r: Region, z: nat, length: nat) returns (x: nat)
    ensures x == 0 <==> NoSymbolInside(r, z, length)
    ensures x != 0 ==> FirstSymbol(r, z, length, x)
  {
    var address := AddressOf(r, z);
    if r.symbols.Some? {
      x := 1;
      while x < length
        invariant 1 <= x && forall y :: 0 < y < x ==> !SymbolAt(r, Plus(address, y))
      {
        if r.symbols.value(Plus(address, x)) {
          assert SymbolAt(r, Plus(address, x));
          return x;
        }
        x := x + 1;
      }
    }
    return 0;
  }

  class DisasInfo {
    const region: Region
    var errors: nat

    constructor (region: Region)
      ensures this.region == region && errors == 0
    {
      this.region := region;
      errors := 0;
    }

    /** One decode: the part of the loop body after the zero check. */
    method DecodeAt(z: nat) returns (outcome: Outcome, e: Event)
      requires z < |region.mem|
      ensures outcome.Died? <==> region.decode(Window(region, z)) == Decoded(NoError, 0)
      ensures outcome.Finished? ==> IsTurn(region, z, false, e)
    {
      var d := region.decode(Window(region, z));
      var okay := d.error.NoError?;
      var length := d.length;
      e := Event(z, 0, Skipped);
      if okay && length == 0 {
        return Died, e;
      }
      var resync := CheckResync(region, z, length);
      if resync != 0 {
        return Finished, Event(z, resync, Resynced);
      }
      if !okay && length == 0 {
        length := 1;
      }
      if okay || d.error.InvalidForChip? {
        return Finished, Event(z, length, Shown(d.error));
      } else {
        return Finished, Event(z, length, Undecodable(d.error));
      }
    }

    /** The body of the loop at z, with the two flags that make it skip runs of zeros. */
    method Turn(z: nat, skipping: bool, lastAllZeros: bool)
      returns (outcome: Outcome, e: Event, skipping': bool, lastAllZeros': bool)
      requires z < |region.mem| && (skipping ==> lastAllZeros)
      ensures outcome.Died? <==> DiesAt(region, z, lastAllZeros)
      ensures outcome.Finished? ==> IsTurn(region, z, lastAllZeros, e)
      ensures outcome.Finished? ==> lastAllZeros' == AllZeros(Window(region, z)) && (skipping' ==> lastAllZeros')
    {
      var w := Window(region, z);
      skipping', lastAllZeros' := skipping, lastAllZeros;
      e := Event(z, |w|, Skipped);
      if AllZeros(w) {
        if skipping {
          return Finished, e, skipping', lastAllZeros';
        } else if lastAllZeros {
          return Finished, e, true, lastAllZeros';
        } else {
          lastAllZeros' := true;
        }
      } else {
        skipping', lastAllZeros' := false, false;
      }
      outcome, e := DecodeAt(z);
    }

    /** One round of the loop: a turn is taken and recorded, unless the decoder dies. */
    method Round(s: Scan, ghost start: nat, ghost limit: nat) returns (outcome: Outcome, t: Scan)
      requires SoFar(region, limit, start, s) && s.z < |region.mem| && s.z < limit
      ensures SoFar(region, limit, start, t)
      ensures outcome.Finished? ==> |t.events| == |s.events| + 1
      ensures outcome.Died? ==> t == s && DiesAt(region, s.z, s.lastAllZeros)
    {
      var e, skipping, lastAllZeros;
      outcome, e, skipping, lastAllZeros := Turn(s.z, s.skipping, s.lastAllZeros);
      t := s;
      if outcome.Finished? {
        SoFarGrows(region, limit, start, s, e, skipping);
        t := Scan(s.events + [e], if IsError(e) then s.errs + 1 else s.errs, s.z + e.len, skipping, lastAllZeros);
      }
    }

    /** The loop of xed_disas_test from the clipped start; limit is the clipped end. */
    method ScanLoop(start: nat, zlimit: Option<nat>, ghost limit: nat) returns (outcome: Outcome, s: Scan)
      requires limit == if zlimit.Some? && zlimit.value < |region.mem| then zlimit.value else |region.mem|
      ensures SoFar(region, limit, start, s) && |s.events| <= region.ninst
      ensures outcome.Finished? ==> |s.events| == region.ninst || s.z >= limit
      ensures outcome.Died? ==> s.z < |region.mem| && s.z < limit && DiesAt(region, s.z, s.lastAllZeros)
    {
      s, outcome := Scan([], 0, start, false, false), Finished;
      for i := 0 to region.ninst
        invariant |s.events| == i && outcome.Finished?
        invariant SoFar(region, limit, start, s)
      {
        if zlimit.Some? && s.z >= zlimit.value {
          break;
        }
        if s.z >= |region.mem| {
          break;
        }
        outcome, s := Round(s, start, limit);
        if outcome.Died? {
          return;
        }
      }
    }

    /** The part of xed_disas_test behind the clipping of the range: nothing is done when the start
        lies behind the region. */
    method ScanFrom(start: nat, zlimit: Option<nat>, ghost limit: nat)
      returns (outcome: Outcome, events: seq<Event>, errs: nat)
      requires limit == if zlimit.Some? && zlimit.value < |region.mem| then zlimit.value else |region.mem|
      ensures Scanned(region, start, limit, outcome, events) && errs == ErrorCount(events)
    {
      if start >= |region.mem| {
        return Finished, [], 0;
      }
      var s;
      outcome, s := ScanLoop(start, zlimit, limit);
      return outcome, s.events, s.errs;
    }

    /** xed_disas_test; Died stands for the program's exit on a zero length. */
    method DisasTest() returns (outcome: Outcome, events: seq<Event>)
      modifies this`errors
      ensures LimitOf(region).None? ==> outcome == Finished && events == []
      ensures LimitOf(region).Some? ==>
        Scanned(region, StartOf(region), LimitOf(region).value, outcome, events)
      ensures outcome.Finished? ==> errors == old(errors) + ErrorCount(events)
      ensures ScanTells(region, outcome, events)
      ensures outcome.Finished? ==>
        var bad := set i | 0 <= i < |events| &&
          (events[i].kind == Shown(InvalidForChip) || events[i].kind.Undecodable?);
        errors == old(errors) + |bad|
    {
      outcome, events := ScanRange();
      ScannedTells(region, outcome, events);
      ErrorCountIs(events);
    }

    /** The body of xed_disas_test: the range is clipped to the region and scanned. */
    method ScanRange() returns (outcome: Outcome, events: seq<Event>)
      modifies this`errors
      ensures LimitOf(region).None? ==> outcome == Finished && events == []
      ensures LimitOf(region).Some? ==>
        Scanned(region, StartOf(region), LimitOf(region).value, outcome, events)
      ensures outcome.Finished? ==> errors == old(errors) + ErrorCount(events)
    {
      var r := region;
      events, outcome := [], Finished;
      var z := 0;
      if r.vstart != 0 {
        if r.vstart > r.vaddr {
          z := r.vstart - r.vaddr;
        }
      }
      var zlimit: Option<nat> := None;
      if r.vend != 0 {
        if r.vend > r.vaddr {
          zlimit := Some(r.vend - r.vaddr);
        } else {
          return;
        }
      }
      assert z == StartOf(r);
      var errs;
      outcome, events, errs := ScanFrom(z, zlimit, LimitOf(r).value);
      if outcome.Finished? {
        errors := errors + errs;
      }
    }
  }

  /** The events are a run from the start within the limit; it ends with the number of instructions
      asked for, at the limit, or where the decoder claims success with no length. */
  ghost predicate Scanned(r: Region, start: nat, limit: nat, outcome: Outcome, events: seq<Event>) {
    var end := EndOf(start, events);
    && IsRun(r, start, events) && |events| <= r.ninst && StartBelow(events, limit)
    && (outcome.Finished? ==> |events| == r.ninst || end >= limit)
    && (outcome.Died? ==> end < |r.mem| && end < limit && DiesAt(r, end, ZerosBefore(r, events)))
  }

  ghost predicate StartBelow(events: seq<Event>, limit: nat) {
    forall k :: 0 <= k < |events| ==> events[k].pos < limit
  }

  /** The variables of the loop, and the events so far. */
  datatype Scan = Scan(events: seq<Event>, errs: nat, z: nat, skipping: bool, lastAllZeros: bool)

  /** What the loop keeps: the events are a run within the limit that ends at z, the flag tells
      whether the last window was all zeros, and the counter counts errors. */
  ghost predicate SoFar(r: Region, limit: nat, start: nat, s: Scan) {
    && IsRun(r, start, s.events) && s.errs == ErrorCount(s.events)
    && s.z == EndOf(start, s.events)
    && (s.lastAllZeros <==> ZerosBefore(r, s.events)) && (s.skipping ==> s.lastAllZeros)
    && StartBelow(s.events, limit)
  }

  lemma SoFarGrows(r: Region, limit: nat, start: nat, s: Scan, e: Event, skipping: bool)
    requires SoFar(r, limit, start, s)
    requires s.z < |r.mem| && s.z < limit && IsTurn(r, s.z, s.lastAllZeros, e)
    requires skipping ==> AllZeros(Window(r, s.z))
    ensures SoFar(r, limit, start, Scan(s.events + [e], if IsError(e) then s.errs + 1 else s.errs, s.z + e.len,
                                        skipping, AllZeros(Window(r, s.z))))
  {
    RunGrows(r, start, s.events, e);
    EventAdded(r, start, s.events, e);
  }

  lemma EventAdded(r: Region, start: nat, events: seq<Event>, e: Event)
    requires e.pos < |r.mem|
    ensures ErrorCount(events + [e]) == ErrorCount(events) + if IsError(e) then 1 else 0
    ensures EndOf(start, events + [e]) == e.pos + e.len
    ensures ZerosBefore(r, events + [e]) == AllZeros(Window(r, e.pos))
  {
    assert (events + [e])[..|events|] == events;
  }

  lemma RunGrows(r: Region, start: nat, events: seq<Event>, e: Event)
    requires IsRun(r, start, events) && EndOf(start, events) < |r.mem|
    requires IsTurn(r, EndOf(start, events), ZerosBefore(r, events), e)
    ensures IsRun(r, start, events + [e])
  {
    var more := events + [e];
    assert more[..|events|] == events;
    forall i | 0 <= i < |more|
      ensures Follows(r, start, more, i)
    {
      if i < |events| {
        assert more[..i] == events[..i] && Follows(r, start, events, i);
      }
    }
  }

  // ----- Properties of whole runs -----

  ghost predicate Covers(e: Event, b: nat) {
    e.pos <= b < e.pos + e.len
  }

  /** The events follow each other without a gap, and each covers something below end. */
  ghost predicate Chained(start: nat, end: nat, events: seq<Event>)
    decreases |events|
  {
    events == [] ||
    var n := |events| - 1;
    && Chained(start, end, events[..n])
    && events[n].pos == EndOf(start, events[..n])
    && events[n].len > 0 && events[n].pos + events[n].len <= end
  }

  lemma RunShrinks(r: Region, start: nat, events: seq<Event>, n: nat)
    requires IsRun(r, start, events) && n <= |events|
    ensures IsRun(r, start, events[..n])
  {
    forall i | 0 <= i < n
      ensures Follows(r, start, events[..n], i)
    {
      assert events[..n][..i] == events[..i] && Follows(r, start, events, i);
    }
  }

  lemma PosAt(r: Region, start: nat, events: seq<Event>, i: nat)
    requires IsRun(r, start, events) && i < |events|
    ensures EndOf(start, events[..i]) == events[i].pos < |r.mem|
  {
    assert Follows(r, start, events, i);
  }

  /** Where event i starts, and what the turn there has to be. */
  lemma RunAt(r: Region, start: nat, events: seq<Event>, i: nat)
    requires IsRun(r, start, events) && i < |events|
    ensures EndOf(start, events[..i]) == events[i].pos < |r.mem|
    ensures IsTurn(r, events[i].pos, ZerosBefore(r, events[..i]), events[i])
  {
    assert Follows(r, start, events, i);
  }

  lemma TurnAdvances(r: Region, z: nat, zerosBefore: bool, e: Event)
    requires Bounded(r) && z < |r.mem| && IsTurn(r, z, zerosBefore, e)
    ensures 1 <= e.len && z + e.len <= |r.mem|
  {
    var w := Window(r, z);
    assert r.decode(w).length <= |w|;
  }

  /** Every turn makes progress and none leaves the region. */
  lemma {:induction false} RunIsChained(r: Region, start: nat, events: seq<Event>)
    requires Bounded(r) && IsRun(r, start, events)
    ensures Chained(start, |r.mem|, events)
    decreases |events|
  {
    if events != [] {
      var n := |events| - 1;
      RunShrinks(r, start, events, n);
      RunIsChained(r, start, events[..n]);
      RunAt(r, start, events, n);
      TurnAdvances(r, events[n].pos, ZerosBefore(r, events[..n]), events[n]);
    }
  }

  lemma {:induction false} ChainStaysInside(start: nat, end: nat, events: seq<Event>)
    requires Chained(start, end, events) && start <= end
    ensures start + |events| <= EndOf(start, events) <= end
    ensures forall i :: 0 <= i < |events| ==>
      start <= events[i].pos && events[i].pos + events[i].len <= EndOf(start, events)
    decreases |events|
  {
    if events != [] {
      var n := |events| - 1;
      ChainStaysInside(start, end, events[..n]);
      assert forall i :: 0 <= i < n ==> events[i] == events[..n][i];
    }
  }

  lemma {:induction false} ChainTiles(start: nat, end: nat, events: seq<Event>, b: nat)
    requires Chained(start, end, events) && start <= end
    ensures start <= b < EndOf(start, events) <==> exists i :: 0 <= i < |events| && Covers(events[i], b)
    ensures forall i, j :: 0 <= i < j < |events| ==> !(Covers(events[i], b) && Covers(events[j], b))
    decreases |events|
  {
    if events != [] {
      var n := |events| - 1;
      var before := events[..n];
      ChainTiles(start, end, before, b);
      ChainStaysInside(start, end, before);
      assert forall i :: 0 <= i < n ==> events[i] == before[i];
      if start <= b < EndOf(start, before) {
        var i :| 0 <= i < |before| && Covers(before[i], b);
        assert Covers(events[i], b);
      } else if start <= b < EndOf(start, events) {
        assert Covers(events[n], b);
      }
    }
  }

  /** The events tile what was traversed: every byte from the start of the scan to its end belongs
      to exactly one event, nothing else does, and there are no more events than bytes. */
  lemma RunTiles(r: Region, start: nat, events: seq<Event>, b: nat)
    requires Bounded(r) && IsRun(r, start, events) && start <= |r.mem|
    ensures start + |events| <= EndOf(start, events) <= |r.mem|
    ensures start <= b < EndOf(start, events) <==> exists i :: 0 <= i < |events| && Covers(events[i], b)
    ensures forall i, j :: 0 <= i < j < |events| ==> !(Covers(events[i], b) && Covers(events[j], b))
  {
    RunIsChained(r, start, events);
    ChainStaysInside(start, |r.mem|, events);
    ChainTiles(start, |r.mem|, events, b);
  }

  lemma ZerosBeforeAt(r: Region, start: nat, events: seq<Event>, i: nat)
    requires IsRun(r, start, events) && 0 < i < |events|
    ensures events[i - 1].pos < |r.mem|
    ensures ZerosBefore(r, events[..i]) == AllZeros(Window(r, events[i - 1].pos))
  {
    RunAt(r, start, events, i - 1);
  }

  /** A window is skipped exactly when it and the window of the event before are all zeros. */
  lemma SkippedIffZerosTwice(r: Region, start: nat, events: seq<Event>, i: nat)
    requires IsRun(r, start, events) && i < |events|
    ensures events[i].pos < |r.mem| && (i > 0 ==> events[i - 1].pos < |r.mem|)
    ensures events[i].kind.Skipped? <==>
      AllZeros(Window(r, events[i].pos)) && i > 0 && AllZeros(Window(r, events[i - 1].pos))
    ensures events[i].kind.Skipped? ==> events[i].len == |Window(r, events[i].pos)|
  {
    RunAt(r, start, events, i);
    if i > 0 {
      ZerosBeforeAt(r, start, events, i);
    }
  }

  /** No byte that is passed over without decoding is anything but zero. */
  lemma SkippedBytesAreZero(r: Region, start: nat, events: seq<Event>, i: nat, b: nat)
    requires IsRun(r, start, events) && i < |events|
    requires events[i].kind.Skipped? && Covers(events[i], b)
    ensures b < |r.mem| && r.mem[b] == 0
  {
    SkippedIffZerosTwice(r, start, events, i);
    assert Window(r, events[i].pos)[b - events[i].pos] == r.mem[b];
  }

  lemma AddressesAdd(r: Region, z: nat, x: nat)
    ensures Plus(AddressOf(r, z), x) == AddressOf(r, z + x)
  {
    var n := z + r.vaddr;
    assert n == ADDRESS_SPACE * (n / ADDRESS_SPACE) + n % ADDRESS_SPACE;
    var q := (n % ADDRESS_SPACE + x) / ADDRESS_SPACE;
    var m := (n % ADDRESS_SPACE + x) % ADDRESS_SPACE;
    assert n + x == ADDRESS_SPACE * (n / ADDRESS_SPACE + q) + m;
  }

  /** Resynchronisation: outside the skipped zeros, a symbol can only lie where an event starts. */
  lemma SymbolsStartEvents(r: Region, start: nat, events: seq<Event>, i: nat, b: nat)
    requires IsRun(r, start, events) && i < |events|
    ensures Covers(events[i], b) && r.symbols.Some? && r.symbols.value((r.vaddr + b) % ADDRESS_SPACE) ==>
      b == events[i].pos || events[i].kind.Skipped?
  {
    RunAt(r, start, events, i);
    if Covers(events[i], b) && SymbolAt(r, AddressOf(r, b)) {
      TurnAvoidsSymbols(r, events[i].pos, ZerosBefore(r, events[..i]), events[i], b);
    }
  }

  lemma TurnAvoidsSymbols(r: Region, z: nat, zerosBefore: bool, e: Event, b: nat)
    requires z < |r.mem| && IsTurn(r, z, zerosBefore, e)
    requires Covers(e, b) && SymbolAt(r, AddressOf(r, b))
    ensures b == z || e.kind.Skipped?
  {
    AddressesAdd(r, z, b - z);
  }

  lemma TurnCutsAtSymbol(r: Region, z: nat, zerosBefore: bool, e: Event)
    requires z < |r.mem| && IsTurn(r, z, zerosBefore, e) && e.kind.Resynced?
    ensures 0 < e.len < r.decode(Window(r, z)).length && SymbolAt(r, AddressOf(r, z + e.len))
  {
    AddressesAdd(r, z, e.len);
  }

  lemma NextStarts(r: Region, start: nat, events: seq<Event>, i: nat)
    requires IsRun(r, start, events) && i + 1 < |events|
    ensures events[i + 1].pos == events[i].pos + events[i].len
  {
    PosAt(r, start, events, i + 1);
  }

  lemma ResyncCuts(r: Region, start: nat, events: seq<Event>, i: nat)
    requires IsRun(r, start, events) && i < |events| && events[i].kind.Resynced?
    ensures events[i].pos < |r.mem|
    ensures 0 < events[i].len < r.decode(Window(r, events[i].pos)).length
    ensures SymbolAt(r, AddressOf(r, events[i].pos + events[i].len))
  {
    RunAt(r, start, events, i);
    TurnCutsAtSymbol(r, events[i].pos, ZerosBefore(r, events[..i]), events[i]);
  }

  /** A rejected instruction is cut where its first inner symbol lies, and the next event starts there. */
  lemma ResyncEndsAtSymbol(r: Region, start: nat, events: seq<Event>, i: nat)
    requires IsRun(r, start, events) && i < |events| && events[i].kind.Resynced?
    ensures events[i].pos < |r.mem|
    ensures 0 < events[i].len < r.decode(Window(r, events[i].pos)).length
    ensures r.symbols.Some? && r.symbols.value((r.vaddr + events[i].pos + events[i].len) % ADDRESS_SPACE)
    ensures i + 1 < |events| ==> events[i + 1].pos == events[i].pos + events[i].len
  {
    ResyncCuts(r, start, events, i);
    if i + 1 < |events| {
      NextStarts(r, start, events, i);
    }
  }

  // ----- A run in terms of the region alone -----

  /** The fifteen bytes from b on, as far as there are any, are zeros. */
  ghost predicate ZerosFrom(r: Region, b: nat) {
    forall k :: b <= k < b + 15 && k < |r.mem| ==> r.mem[k] == 0
  }

  ghost predicate NameAt(r: Region, b: nat) {
    r.symbols.Some? && r.symbols.value((r.vaddr + b) % 0x1_0000_0000_0000_0000)
  }

  /** No byte of an instruction at p but the first has a name. */
  ghost predicate NamelessInside(r: Region, p: nat, length: nat) {
    forall b :: p < b < p + length ==> !NameAt(r, b)
  }

  /** What event i says about the bytes of the region. */
  ghost predicate Tells(r: Region, events: seq<Event>, i: nat) {
    i < |events| &&
    var e, p := events[i], events[i].pos;
    && (i + 1 < |events| ==> events[i + 1].pos == p + e.len)
    && EventTells(r, e, i > 0 && ZerosFrom(r, p) && ZerosFrom(r, events[i - 1].pos))
  }

  /** What one event says, given whether its bytes and those of the event before are zeros. */
  ghost predicate EventTells(r: Region, e: Event, zerosTwice: bool) {
    var p := e.pos;
    && p < |r.mem|
    && var n := if |r.mem| - p < 15 then |r.mem| - p else 15;
    var d := r.decode(r.mem[p..p + n]);
    && (e.kind.Skipped? <==> zerosTwice)
    && match e.kind
       case Skipped => e.len == n
       case Resynced => p + e.len < p + d.length && NameAt(r, p + e.len) && e.len > 0 && NamelessInside(r, p, e.len)
       case Shown(error) =>
         && error == d.error && !error.OtherError? && NamelessInside(r, p, d.length)
         && e.len == (if d.length == 0 then 1 else d.length) && (d.length == 0 ==> error.InvalidForChip?)
       case Undecodable(error) =>
         && error == d.error && error.OtherError? && NamelessInside(r, p, d.length)
         && e.len == if d.length == 0 then 1 else d.length
  }

  lemma WindowBytes(r: Region, z: nat)
    requires z < |r.mem|
    ensures var n := if |r.mem| - z < 15 then |r.mem| - z else 15; Window(r, z) == r.mem[z..z + n]
    ensures AllZeros(Window(r, z)) <==> ZerosFrom(r, z)
  {
    var w := Window(r, z);
    assert forall i :: 0 <= i < |w| ==> w[i] == r.mem[z + i];
    if AllZeros(w) {
      forall k | z <= k < z + 15 && k < |r.mem| ensures r.mem[k] == 0 {
        assert w[k - z] == r.mem[k];
      }
    }
  }

  lemma NoSymbolIsNameless(r: Region, z: nat, length: nat)
    ensures NoSymbolInside(r, z, length) <==> NamelessInside(r, z, length)
    ensures forall x: nat :: FirstSymbol(r, z, length, x) <==>
      0 < x < length && NameAt(r, z + x) && NamelessInside(r, z, x)
  {
    forall y: nat ensures SymbolAt(r, Plus(AddressOf(r, z), y)) <==> NameAt(r, z + y) {
      AddressesAdd(r, z, y);
    }
    forall b | z < b
      ensures NameAt(r, b) <==> SymbolAt(r, Plus(AddressOf(r, z), b - z))
    {
      assert b == z + (b - z);
    }
  }

  lemma TurnTells(r: Region, z: nat, zerosBefore: bool, e: Event)
    requires z < |r.mem| && IsTurn(r, z, zerosBefore, e)
    ensures EventTells(r, e, ZerosFrom(r, z) && zerosBefore)
  {
    WindowBytes(r, z);
    NoSymbolIsNameless(r, z, r.decode(Window(r, z)).length);
  }

  /** Every event of a run tells what the bytes, the decoder and the symbols say. */
  lemma RunTells(r: Region, start: nat, events: seq<Event>, i: nat)
    requires IsRun(r, start, events) && i < |events|
    ensures Tells(r, events, i)
  {
    RunAt(r, start, events, i);
    TurnTells(r, events[i].pos, ZerosBefore(r, events[..i]), events[i]);
    if i > 0 {
      ZerosBeforeAt(r, start, events, i);
      WindowBytes(r, events[i - 1].pos);
    }
    if i + 1 < |events| {
      NextStarts(r, start, events, i);
    }
  }

  /** What the scan leaves, in terms of the region alone: where it starts, what each event tells, the
      limit of the range, and why it ends. */
  ghost predicate ScanTells(r: Region, outcome: Outcome, events: seq<Event>) {
    var start := if r.vaddr < r.vstart then r.vstart - r.vaddr else 0;
    var end := if events == [] then start else events[|events| - 1].pos + events[|events| - 1].len;
    && |events| <= r.ninst
    && (events != [] ==> events[0].pos == start)
    && (forall i :: 0 <= i < |events| ==> Tells(r, events, i))
    && (forall i :: 0 <= i < |events| && r.vend != 0 ==> r.vaddr + events[i].pos < r.vend)
    && match outcome
       case Finished => |events| == r.ninst || end >= |r.mem| || (r.vend != 0 && r.vaddr + end >= r.vend)
       case Died =>
         && end < |r.mem| && (r.vend != 0 ==> r.vaddr + end < r.vend)
         && !(events != [] && ZerosFrom(r, end) && ZerosFrom(r, events[|events| - 1].pos))
         && var n := if |r.mem| - end < 15 then |r.mem| - end else 15;
            r.decode(r.mem[end..end + n]) == Decoded(NoError, 0)
  }

  lemma ScannedTells(r: Region, outcome: Outcome, events: seq<Event>)
    requires LimitOf(r).None? ==> outcome == Finished && events == []
    requires LimitOf(r).Some? ==> Scanned(r, StartOf(r), LimitOf(r).value, outcome, events)
    ensures ScanTells(r, outcome, events)
  {
    if LimitOf(r).Some? {
      var start := StartOf(r);
      forall i | 0 <= i < |events| ensures Tells(r, events, i) {
        RunTells(r, start, events, i);
      }
      if events != [] {
        PosAt(r, start, events, 0);
        PosAt(r, start, events, |events| - 1);
        WindowBytes(r, events[|events| - 1].pos);
      }
      if outcome.Died? {
        DeathTells(r, EndOf(start, events), ZerosBefore(r, events));
      }
    }
  }

  lemma DeathTells(r: Region, z: nat, zerosBefore: bool)
    requires z < |r.mem| && DiesAt(r, z, zerosBefore)
    ensures !(ZerosFrom(r, z) && zerosBefore)
    ensures var n := if |r.mem| - z < 15 then |r.mem| - z else 15; r.decode(r.mem[z..z + n]) == Decoded(NoError, 0)
  {
    WindowBytes(r, z);
  }

  lemma {:induction false} ErrorCountIs(events: seq<Event>)
    ensures ErrorCount(events) ==
      |set i | 0 <= i < |events| && (events[i].kind == Shown(InvalidForChip) || events[i].kind.Undecodable?)|
    decreases |events|
  {
    var bad := set i | 0 <= i < |events| && (events[i].kind == Shown(InvalidForChip) || events[i].kind.Undecodable?);
    if events == [] {
      assert bad == {};
    } else {
      var n := |events| - 1;
      var before := events[..n];
      var less := set i | 0 <= i < |before| && (before[i].kind == Shown(InvalidForChip) || before[i].kind.Undecodable?);
      ErrorCountIs(before);
      assert bad == less + if IsError(events[n]) then {n} else {};
    }
  }

  lemma NextIsUnique(r: Region, start: nat, a: seq<Event>, b: seq<Event>, n: nat)
    requires IsRun(r, start, a) && IsRun(r, start, b)
    requires n < |a| && n < |b| && a[..n] == b[..n]
    ensures a[n] == b[n]
  {
    RunAt(r, start, a, n);
    RunAt(r, start, b, n);
    TurnIsUnique(r, a[n].pos, ZerosBefore(r, a[..n]), a[n], b[n]);
  }

  /** The region determines the run: of two runs from the same start, one is a prefix of the other. */
  lemma RunIsUnique(r: Region, start: nat, a: seq<Event>, b: seq<Event>)
    requires IsRun(r, start, a) && IsRun(r, start, b) && |a| <= |b|
    ensures a == b[..|a|]
  {
    PrefixIsUnique(r, start, a, b, |a|);
    assert a[..|a|] == a;
  }

  lemma {:induction false} PrefixIsUnique(r: Region, start: nat, a: seq<Event>, b: seq<Event>, n: nat)
    requires IsRun(r, start, a) && IsRun(r, start, b) && n <= |a| <= |b|
    ensures a[..n] == b[..n]
    decreases n
  {
    if n > 0 {
      PrefixIsUnique(r, start, a, b, n - 1);
      NextIsUnique(r, start, a, b, n - 1);
      SamePrefix(a, b, n - 1);
    }
  }

  lemma SamePrefix(a: seq<Event>, b: seq<Event>, n: nat)
    requires n < |a| && n < |b| && a[..n] == b[..n] && a[n] == b[n]
    ensures a[..n + 1] == b[..n + 1]
  {
    assert a[..n + 1] == a[..n] + [a[n]];
    assert b[..n + 1] == b[..n] + [b[n]];
  }

  lemma TurnIsUnique(r: Region, z: nat, zerosBefore: bool, d: Event, e: Event)
    requires z < |r.mem| && IsTurn(r, z, zerosBefore, d) && IsTurn(r, z, zerosBefore, e)
    ensures d == e
  {
    if d.kind.Resynced? {
      FirstIsUnique(r, z, r.decode(Window(r, z)).length, d.len, e.len);
    }
  }

  lemma FirstIsUnique(r: Region, z: nat, length: nat, x: nat, y: nat)
    requires FirstSymbol(r, z, length, x) && FirstSymbol(r, z, length, y)
    ensures x == y
  {
  }
}
