/**
 The dispatcher in front of a functional unit: a warp trace leaves as packets of at most as many
 lanes as the unit has.
 */
module Dispatch {
  import opened Arith

  /** A warp trace, or one packet of it; lanes are numbered over the whole warp. */
  datatype Trace = Trace(mask: set<nat>, pid: nat, sop: bool, eop: bool)

  /** The packet lane i goes into. */
  function PacketOf(i: nat, lanes: nat): nat
    requires lanes > 0
  {
    i / lanes
  }

  /** The lanes of a mask that packet pid holds. */
  ghost function Group(mask: set<nat>, lanes: nat, pid: nat): set<nat>
    requires lanes > 0
  {
    set i | i in mask && PacketOf(i, lanes) == pid
  }

  /** A packet that holds its lanes, and some. */
  ghost predicate Holds(p: Trace, mask: set<nat>, lanes: nat)
    requires lanes > 0
  {
    p.mask == Group(mask, lanes, p.pid) && p.mask != {}
  }

  ghost predicate Increasing(ps: seq<Trace>) { forall j, k :: 0 <= j < k < |ps| ==> ps[j].pid < ps[k].pid }

  /** Some packet of ps is packet pid. */
  ghost predicate Has(ps: seq<Trace>, pid: nat) { exists k :: 0 <= k < |ps| && ps[k].pid == pid }

  /** What has left of a trace so far: every packet that holds lanes, up to but not including packet from. */
  ghost predicate Begun(mask: set<nat>, lanes: nat, from: nat, ps: seq<Trace>)
    requires lanes > 0
  {
    && (forall k :: 0 <= k < |ps| ==> ps[k].pid < from && Holds(ps[k], mask, lanes) && (ps[k].sop <==> k == 0) && !ps[k].eop)
    && Increasing(ps)
    && forall i :: i in mask && PacketOf(i, lanes) < from ==> Has(ps, PacketOf(i, lanes))
  }

  /**
   A whole trace: packets with lanes, in increasing order, that share out the mask; the first
   starts the trace and the last ends it.
   */
  ghost predicate Whole(mask: set<nat>, lanes: nat, ps: seq<Trace>)
    requires lanes > 0
  {
    && ps != [] && Increasing(ps)
    && (forall k :: 0 <= k < |ps| ==>
          Holds(ps[k], mask, lanes) && (ps[k].sop <==> k == 0) && (ps[k].eop <==> k == |ps| - 1))
    && forall i :: i in mask ==> Has(ps, PacketOf(i, lanes))
  }

  /** Every lane of the trace leaves in exactly one packet. */
  lemma WholePartitions(mask: set<nat>, lanes: nat, ps: seq<Trace>, i: nat)
    requires lanes > 0 && Whole(mask, lanes, ps)
    ensures i in mask <==> exists k :: 0 <= k < |ps| && i in ps[k].mask
    ensures forall j, k :: 0 <= j < |ps| && 0 <= k < |ps| && i in ps[j].mask && i in ps[k].mask ==> j == k
  {
    hide PacketOf;
    if i in mask {
      var k :| 0 <= k < |ps| && ps[k].pid == PacketOf(i, lanes);
      assert i in ps[k].mask;
    }
    forall k | 0 <= k < |ps| && i in ps[k].mask ensures i in mask && ps[k].pid == PacketOf(i, lanes) {
      assert Holds(ps[k], mask, lanes);
    }
  }

  /** There are at most as many packets as lanes groups in the warp. */
  lemma WholeLength(mask: set<nat>, lanes: nat, count: nat, ps: seq<Trace>)
    requires lanes > 0 && Whole(mask, lanes, ps) && forall i :: i in mask ==> i < count * lanes
    ensures |ps| <= count
  {
    hide PacketOf;
    var p := ps[|ps| - 1];
    assert Holds(p, mask, lanes);
    var i :| i in p.mask;
    LaneBelow(i, lanes, count);
    IncreasingBound(ps, |ps| - 1);
  }

  lemma LaneBelow(i: nat, lanes: nat, count: nat)
    requires lanes > 0
    ensures PacketOf(i, lanes) < count <==> i < count * lanes
  {
    assert i == i / lanes * lanes + i % lanes;
    RowBound(i / lanes, count, lanes, i % lanes);
  }

  lemma {:induction false} IncreasingBound(ps: seq<Trace>, n: nat)
    requires n < |ps| && Increasing(ps)
    ensures ps[n].pid >= n
  {
    if n > 0 { IncreasingBound(ps, n - 1); }
  }

  /** first and last are the outermost lanes of the mask from packet from on. */
  ghost predicate Span(mask: set<nat>, lanes: nat, from: nat, first: nat, last: nat)
    requires lanes > 0
  {
    && first in mask && last in mask && PacketOf(first, lanes) >= from
    && forall i :: i in mask && PacketOf(i, lanes) >= from ==>
         PacketOf(first, lanes) <= PacketOf(i, lanes) <= PacketOf(last, lanes)
  }

  lemma BegunEmpty(mask: set<nat>, lanes: nat)
    requires lanes > 0
    ensures Begun(mask, lanes, 0, [])
  {
  }

  lemma SpanIn(mask: set<nat>, lanes: nat, from: nat, first: nat, last: nat)
    requires lanes > 0 && Span(mask, lanes, from, first, last)
    ensures first in mask && last in mask && PacketOf(first, lanes) >= from
  {
  }

  /** The next packet of a trace: its first lanes from packet from on, ending the trace when they are its last. */
  ghost predicate Next(t: Trace, lanes: nat, from: nat, p: Trace)
    requires lanes > 0
  {
    && Holds(p, t.mask, lanes) && p.pid >= from
    && (forall i :: i in t.mask && PacketOf(i, lanes) >= from ==> PacketOf(i, lanes) >= p.pid)
    && (p.sop <==> from == 0)
    && (p.eop <==> forall i :: i in t.mask ==> PacketOf(i, lanes) <= p.pid)
  }

  lemma SpanNext(t: Trace, lanes: nat, from: nat, first: nat, last: nat, p: Trace)
    requires lanes > 0 && Span(t.mask, lanes, from, first, last)
    requires p == Trace(Group(t.mask, lanes, PacketOf(first, lanes)), PacketOf(first, lanes), from == 0,
                        PacketOf(first, lanes) == PacketOf(last, lanes))
    ensures Next(t, lanes, from, p) && (!p.eop ==> PacketOf(last, lanes) > p.pid)
  {
    hide PacketOf;
    assert first in p.mask;
  }

  /** The next packet either completes the trace or leaves lanes for a later one. */
  lemma NextPacket(t: Trace, lanes: nat, from: nat, ps: seq<Trace>, p: Trace)
    requires lanes > 0 && Begun(t.mask, lanes, from, ps) && (from == 0 <==> ps == []) && Next(t, lanes, from, p)
    ensures if p.eop then Whole(t.mask, lanes, ps + [p])
            else Begun(t.mask, lanes, p.pid + 1, ps + [p]) && exists i :: i in t.mask && PacketOf(i, lanes) > p.pid
  {
    hide PacketOf;
    var qs := ps + [p];
    assert forall k :: 0 <= k < |ps| ==> qs[k] == ps[k];
    forall i | i in t.mask && PacketOf(i, lanes) <= p.pid ensures Has(qs, PacketOf(i, lanes)) {
      if PacketOf(i, lanes) < from {
        var k :| 0 <= k < |ps| && ps[k].pid == PacketOf(i, lanes);
        assert qs[k].pid == PacketOf(i, lanes);
      } else {
        assert qs[|ps|].pid == PacketOf(i, lanes);
      }
    }
  }

  /** All packets of a list of split traces. */
  function Flat(w: seq<seq<Trace>>): seq<Trace> { if w == [] then [] else Flat(w[..|w| - 1]) + w[|w| - 1] }

  lemma FlatMore(w: seq<seq<Trace>>, ps: seq<Trace>)
    ensures Flat(w + [ps]) == Flat(w) + ps
  {
    assert (w + [ps])[..|w|] == w;
  }

  /**
   What happened to the traces of one port: the splits in whole are those of the first traces it
   took in, begun is what has left of the next one, and nothing else has left.
   */
  ghost predicate Port(lanes: nat, accepted: seq<Trace>, input: seq<Trace>, output: seq<Trace>,
                       whole: seq<seq<Trace>>, begun: seq<Trace>)
    requires lanes > 0
  {
    && |whole| <= |accepted| && input == accepted[|whole|..]
    && (forall k :: 0 <= k < |whole| ==> Whole(accepted[k].mask, lanes, whole[k]))
    && output == Flat(whole) + begun
  }

  /** How far a block is with the front trace of its port. */
  ghost predicate Block(lanes: nat, pidCount: nat, input: seq<Trace>, start: int, begun: seq<Trace>)
    requires lanes > 0
  {
    && -1 <= start && (start == 0 || start < pidCount) && (pidCount == 1 ==> start == 0)
    && if start <= 0 then begun == []
       else input != [] && begun != [] && Begun(input[0].mask, lanes, start, begun)
            && exists i :: i in input[0].mask && PacketOf(i, lanes) >= start
  }

  /** A trace as it comes in: a whole warp with some thread on. */
  ghost predicate Fresh(t: Trace, threads: nat) {
    t.mask != {} && t.sop && t.eop && forall j :: j in t.mask ==> j < threads
  }

  /**
   One turn of a block: nothing leaves when it has no trace or is finished with one; otherwise the
   next packet of the front trace does, and the trace with its last packet.
   */
  ghost predicate Turn(lanes: nat, pidCount: nat, input: seq<Trace>, start: int, input': seq<Trace>, start': int,
                       left: seq<Trace>, done: bool)
    requires lanes > 0
  {
    if input == [] || start < 0 then
      done && input' == input && start' == start && left == []
    else
      && |left| == 1 && Next(input[0], lanes, start, left[0]) && done == left[0].eop
      && input' == (if done then input[1..] else input)
      && start' == (if pidCount == 1 then 0 else if done then -1 else left[0].pid + 1)
  }

  /** A turn of the block at a port, seen from outside. */
  ghost predicate Went(lanes: nat, pidCount: nat, input: seq<Trace>, output: seq<Trace>, start: int,
                       input': seq<Trace>, output': seq<Trace>, start': int, left: seq<Trace>, done: bool)
    requires lanes > 0
  {
    && Turn(lanes, pidCount, input, start, input', start', left, done)
    && output' == output + left && (!done ==> start' > start)
  }

  /** A turn keeps the books of its port. */
  lemma TurnKeeps(lanes: nat, pidCount: nat, accepted: seq<Trace>, input: seq<Trace>, output: seq<Trace>,
                  whole: seq<seq<Trace>>, begun: seq<Trace>, start: int, input': seq<Trace>, start': int,
                  left: seq<Trace>, done: bool)
      returns (whole': seq<seq<Trace>>, begun': seq<Trace>)
    requires lanes > 0 && pidCount > 0
    requires Port(lanes, accepted, input, output, whole, begun) && Block(lanes, pidCount, input, start, begun)
    requires forall k :: 0 <= k < |input| ==> Fresh(input[k], pidCount * lanes)
    requires Turn(lanes, pidCount, input, start, input', start', left, done)
    ensures Port(lanes, accepted, input', output + left, whole', begun') && Block(lanes, pidCount, input', start', begun')
    ensures whole <= whole' && (done <==> begun' == []) && (!done ==> start' > start)
  {
    hide Whole, Begun, Next, Flat, PacketOf;
    whole', begun' := whole, begun;
    if input == [] || start < 0 {
      assert output + left == output;
    } else {
      var t, p := input[0], left[0];
      BegunEmpty(t.mask, lanes);
      NextPacket(t, lanes, start, begun, p);
      NextBelow(t, lanes, pidCount, start, p);
      if p.eop {
        FlatMore(whole, begun + [p]);
        whole', begun' := whole + [begun + [p]], [];
        assert output + left == Flat(whole') + [];
      } else {
        begun' := begun + [p];
      }
    }
  }

  /** A packet that does not end its trace is not the last the warp has room for. */
  lemma NextBelow(t: Trace, lanes: nat, pidCount: nat, from: nat, p: Trace)
    requires lanes > 0 && pidCount > 0 && Fresh(t, pidCount * lanes) && Next(t, lanes, from, p)
    ensures !p.eop ==> p.pid + 1 < pidCount
    ensures p.pid >= from
  {
    if !p.eop {
      var i :| i in t.mask && PacketOf(i, lanes) > p.pid;
      LaneBelow(i, lanes, pidCount);
    }
    hide PacketOf;
  }

  lemma TurnStart(lanes: nat, pidCount: nat, input: seq<Trace>, start: int, begun: seq<Trace>, input': seq<Trace>,
                  start': int, left: seq<Trace>, done: bool)
    requires lanes > 0 && pidCount > 0 && Block(lanes, pidCount, input, start, begun)
    requires Turn(lanes, pidCount, input, start, input', start', left, done) && (!done ==> start' > start)
    ensures start < pidCount && (start' < 0 || start' >= start >= 0) && (!done ==> start' > start >= 0)
  {
    hide Begun, Next, PacketOf;
  }

  /** How many more turns the blocks can take before they are all finished. */
  function TurnsLeft(pidCount: nat, starts: seq<int>): int {
    if starts == [] then 0
    else TurnsLeft(pidCount, starts[1..]) + (if starts[0] < 0 then 0 else pidCount - starts[0])
  }

  /** With one packet a trace no turn is left over; otherwise each turn that does not finish uses one up. */
  lemma {:induction false} TurnsUsed(pidCount: nat, starts: seq<int>, starts': seq<int>)
    requires |starts| == |starts'|
    requires forall b :: 0 <= b < |starts| ==> starts[b] < pidCount && (starts'[b] < 0 || starts'[b] >= starts[b] >= 0)
    ensures TurnsLeft(pidCount, starts') <= TurnsLeft(pidCount, starts)
    ensures (exists b :: 0 <= b < |starts| && starts'[b] > starts[b] >= 0) ==> TurnsLeft(pidCount, starts') < TurnsLeft(pidCount, starts)
  {
    if starts != [] {
      assert forall b :: 0 <= b < |starts| - 1 ==> starts[1..][b] == starts[b + 1] && starts'[1..][b] == starts'[b + 1];
      TurnsUsed(pidCount, starts[1..], starts'[1..]);
      if b :| 0 <= b < |starts| && starts'[b] > starts[b] >= 0 {
        if b > 0 { assert starts'[1..][b - 1] > starts[1..][b - 1] >= 0; }
      }
    }
  }

  /** The ports, and how far each block and port is. */
  datatype Ports = Ports(inputs: seq<seq<Trace>>, outputs: seq<seq<Trace>>, startP: seq<int>, begun: seq<seq<Trace>>) {
    ghost predicate Sized(base: nat, blocks: nat) {
      |inputs| == |outputs| == |begun| && |startP| == blocks && base + blocks <= |inputs|
    }
  }

  /** Block b, at port base + b, had its turn and no other did. */
  ghost predicate Step(lanes: nat, pidCount: nat, base: nat, blocks: nat, b: nat, s: Ports, s': Ports, left: seq<Trace>, done: bool)
    requires lanes > 0
  {
    && s.Sized(base, blocks) && s'.Sized(base, blocks) && |s'.inputs| == |s.inputs| && b < blocks
    && Went(lanes, pidCount, s.inputs[base + b], s.outputs[base + b], s.startP[b],
            s'.inputs[base + b], s'.outputs[base + b], s'.startP[b], left, done)
    && (done <==> s'.begun[base + b] == [])
    && (forall i :: 0 <= i < |s.inputs| && i != base + b ==>
          s'.begun[i] == s.begun[i] && s'.inputs[i] == s.inputs[i] && s'.outputs[i] == s.outputs[i])
    && forall c :: 0 <= c < blocks && c != b ==> s'.startP[c] == s.startP[c]
  }

  /** The first n blocks had one turn each, and nothing else changed. */
  ghost predicate Served(lanes: nat, pidCount: nat, base: nat, blocks: nat, n: nat, s: Ports, s': Ports,
                         left: seq<seq<Trace>>, done: seq<bool>)
    requires lanes > 0
  {
    && s.Sized(base, blocks) && s'.Sized(base, blocks) && |s'.inputs| == |s.inputs| && |left| == |done| == n <= blocks
    && (forall b :: 0 <= b < n ==>
          && Went(lanes, pidCount, s.inputs[base + b], s.outputs[base + b], s.startP[b],
                  s'.inputs[base + b], s'.outputs[base + b], s'.startP[b], left[b], done[b])
          && (done[b] <==> s'.begun[base + b] == []))
    && (forall i :: 0 <= i < |s.inputs| && !(base <= i < base + n) ==>
          s'.inputs[i] == s.inputs[i] && s'.outputs[i] == s.outputs[i])
    && forall c :: n <= c < blocks ==> s'.startP[c] == s.startP[c]
  }

  lemma ServedNone(lanes: nat, pidCount: nat, base: nat, blocks: nat, s: Ports)
    requires lanes > 0 && s.Sized(base, blocks)
    ensures Served(lanes, pidCount, base, blocks, 0, s, s, [], [])
  {
  }

  lemma ServedMore(lanes: nat, pidCount: nat, base: nat, blocks: nat, n: nat, s: Ports, m: Ports, s': Ports,
                   left: seq<seq<Trace>>, done: seq<bool>, gain: seq<Trace>, ok: bool)
    requires lanes > 0 && Served(lanes, pidCount, base, blocks, n, s, m, left, done)
    requires Step(lanes, pidCount, base, blocks, n, m, s', gain, ok)
    ensures Served(lanes, pidCount, base, blocks, n + 1, s, s', left + [gain], done + [ok])
  {
    hide Went;
  }

  /** While a block is not done, the turns left have become fewer. */
  lemma ServedProgress(lanes: nat, pidCount: nat, base: nat, blocks: nat, s: Ports, s': Ports,
                       left: seq<seq<Trace>>, done: seq<bool>)
    requires lanes > 0 && pidCount > 0 && Served(lanes, pidCount, base, blocks, blocks, s, s', left, done)
    requires forall b :: 0 <= b < blocks ==> Block(lanes, pidCount, s.inputs[base + b], s.startP[b], s.begun[base + b])
    requires exists b :: 0 <= b < blocks && !done[b]
    ensures TurnsLeft(pidCount, s'.startP) < TurnsLeft(pidCount, s.startP)
  {
    hide Block, Turn, TurnsLeft;
    forall b | 0 <= b < blocks
      ensures s.startP[b] < pidCount && (s'.startP[b] < 0 || s'.startP[b] >= s.startP[b] >= 0)
      ensures !done[b] ==> s'.startP[b] > s.startP[b] >= 0
    {
      TurnStart(lanes, pidCount, s.inputs[base + b], s.startP[b], s.begun[base + b], s'.inputs[base + b], s'.startP[b], left[b], done[b]);
    }
    var b :| 0 <= b < blocks && !done[b];
    TurnsUsed(pidCount, s.startP, s'.startP);
  }

  class Dispatcher {
    const blocks: nat
    const batches: nat
    const pidCount: nat
    const lanes: nat
    /** The next packet of each block; -1 when its trace is finished. */
    var startP: seq<int>
    var batchIdx: nat
    var inputs: seq<seq<Trace>>
    var outputs: seq<seq<Trace>>
    /** For each port, all traces taken in, the splits of those gone, and what has left of the front one. */
    ghost var accepted: seq<seq<Trace>>
    ghost var whole: seq<seq<seq<Trace>>>
    ghost var begun: seq<seq<Trace>>

    function Threads(): nat { pidCount * lanes }

    /** The port of block b in the batch that has its turn. */
    function PortOf(b: nat): nat
      reads `batchIdx
    {
      batchIdx * blocks + b
    }

    ghost predicate Shape()
      reads this
    {
      && lanes > 0 && pidCount > 0 && batches > 0 && batchIdx < batches
      && |inputs| == |outputs| == |accepted| == |whole| == |begun| == batches * blocks
      && |startP| == blocks
      && forall b :: 0 <= b < blocks ==> PortOf(b) < |inputs|
    }

    ghost function Now(): Ports
      reads this
    {
      Ports(inputs, outputs, startP, begun)
    }

    ghost predicate TracesOk()
      reads `inputs
    {
      forall i, k :: 0 <= i < |inputs| && 0 <= k < |inputs[i]| ==> Fresh(inputs[i][k], Threads())
    }

    ghost predicate PortOk(i: nat)
      requires Shape() && i < |inputs|
      reads this
    {
      Port(lanes, accepted[i], inputs[i], outputs[i], whole[i], begun[i])
    }

    ghost predicate BlockOk(b: nat)
      requires Shape() && b < blocks
      reads this
    {
      Block(lanes, pidCount, inputs[PortOf(b)], startP[b], begun[PortOf(b)])
    }

    /** Only the batch that has its turn is in the middle of traces. */
    ghost predicate OthersIdle()
      requires Shape()
      reads this
    {
      forall i :: 0 <= i < |inputs| && !(PortOf(0) <= i < PortOf(blocks)) ==> begun[i] == []
    }

    ghost predicate Valid()
      reads this
    {
      && Shape() && TracesOk() && OthersIdle()
      && (forall i :: 0 <= i < |inputs| ==> PortOk(i))
      && forall b :: 0 <= b < blocks ==> BlockOk(b)
    }

    constructor (blocks: nat, batches: nat, pidCount: nat, lanes: nat)
      requires batches > 0 && pidCount > 0 && lanes > 0
      ensures Valid() && this.blocks == blocks && this.pidCount == pidCount && this.lanes == lanes
      ensures |inputs| == batches * blocks && forall i :: 0 <= i < |inputs| ==> inputs[i] == outputs[i] == accepted[i] == []
    {
      this.blocks, this.batches, this.pidCount, this.lanes := blocks, batches, pidCount, lanes;
      startP, batchIdx := seq(blocks, _ => 0), 0;
      inputs, outputs := seq(batches * blocks, _ => []), seq(batches * blocks, _ => []);
      accepted, whole, begun := seq(batches * blocks, _ => []), seq(batches * blocks, _ => []), seq(batches * blocks, _ => []);
      new;
      PortsExist();
    }

    lemma PortsExist()
      requires batchIdx < batches
      ensures forall b :: 0 <= b < blocks ==> PortOf(b) < batches * blocks
    {
      forall b | 0 <= b < blocks ensures PortOf(b) < batches * blocks { RowBound(batchIdx, batches, blocks, b); }
    }

    /** A trace joins the queue of its port. */
    method Accept(i: nat, t: Trace)
      requires Valid() && i < |inputs| && Fresh(t, Threads())
      modifies `inputs, `accepted
      ensures Valid() && inputs == old(inputs)[i := old(inputs)[i] + [t]]
      ensures accepted == old(accepted)[i := old(accepted)[i] + [t]]
    {
      hide Begun, Whole, Flat, PacketOf;
      inputs := inputs[i := inputs[i] + [t]];
      accepted := accepted[i := accepted[i] + [t]];
      forall k | 0 <= k < |inputs| ensures PortOk(k) { assert old(PortOk(k)); }
      forall b | 0 <= b < blocks ensures BlockOk(b) { assert old(BlockOk(b)); }
    }

    /** The outermost lanes that are on, from packet from on. */
    method FindSpan(mask: set<nat>, from: nat) returns (first: nat, last: nat)
      requires lanes > 0 && forall j :: j in mask ==> j < Threads()
      requires exists i :: i in mask && PacketOf(i, lanes) >= from
      ensures Span(mask, lanes, from, first, last)
    {
      hide PacketOf;
      var start, end := -1, -1;
      var j := from * lanes;
      forall i: nat ensures PacketOf(i, lanes) >= from <==> i >= from * lanes { LaneBelow(i, lanes, from); }
      while j < Threads()
        invariant from * lanes <= j
        invariant start == -1 <==> forall i :: i in mask && i >= from * lanes ==> i >= j
        invariant start != -1 ==> start >= from * lanes && start in mask && end in mask && from * lanes <= start <= end < j
        invariant start != -1 ==> forall i :: i in mask && from * lanes <= i < j ==> start <= i <= end
      {
        if j in mask {
          if start == -1 {
            start := j;
          }
          end := j;
        }
        j := j + 1;
      }
      first, last := start, end;
      forall i | i in mask && PacketOf(i, lanes) >= from
        ensures PacketOf(first, lanes) <= PacketOf(i, lanes) <= PacketOf(last, lanes)
      {
        PacketOrder(first, i, lanes);
        PacketOrder(i, last, lanes);
      }
    }

    /** The lanes of one packet. */
    method Lanes(mask: set<nat>, pid: nat) returns (part: set<nat>)
      requires lanes > 0
      ensures part == Group(mask, lanes, pid)
    {
      hide PacketOf;
      part := {};
      var j := pid * lanes;
      while j < pid * lanes + lanes
        invariant pid * lanes <= j <= pid * lanes + lanes
        invariant part == set i | i in mask && pid * lanes <= i < j
      {
        if j in mask {
          part := part + {j};
        }
        j := j + 1;
      }
      forall i: nat ensures PacketOf(i, lanes) == pid <==> pid * lanes <= i < pid * lanes + lanes {
        LaneBelow(i, lanes, pid);
        LaneBelow(i, lanes, pid + 1);
      }
    }

    /** The next packet of a trace that the unit cannot take at once. */
    method SplitFront(b: nat) returns (done: bool)
      requires Shape() && TracesOk() && b < blocks && BlockOk(b) && pidCount != 1
      requires inputs[PortOf(b)] != [] && startP[b] >= 0
      modifies `startP, `inputs, `outputs
      ensures exists left :: Turned(b, old(inputs), old(outputs), old(startP), left, done)
    {
      hide Begun, Whole, Group, PacketOf, Increasing, Span, Next;
      var port := PortOf(b);
      var trace := inputs[port][0];
      var from: nat := startP[b];
      LanesFrom(b);
      var first, last := FindSpan(trace.mask, from);
      var start, end := PacketOf(first, lanes), PacketOf(last, lanes);
      SpanIn(trace.mask, lanes, from, first, last);
      var part := Lanes(trace.mask, start);
      var p := Trace(part, start, from == 0, start == end);
      SpanNext(trace, lanes, from, first, last, p);
      if start != end {
        startP := startP[b := start + 1];
        done := false;
      } else {
        startP := startP[b := -1];
        inputs := inputs[port := inputs[port][1..]];
        done := true;
      }
      outputs := outputs[port := outputs[port] + [p]];
      assert Turned(b, old(inputs), old(outputs), old(startP), [p], done);
    }

    lemma LanesFrom(b: nat)
      requires Shape() && TracesOk() && b < blocks && BlockOk(b) && inputs[PortOf(b)] != [] && startP[b] >= 0
      ensures exists i :: i in inputs[PortOf(b)][0].mask && PacketOf(i, lanes) >= startP[b]
      ensures Fresh(inputs[PortOf(b)][0], Threads())
    {
      var t := inputs[PortOf(b)][0];
      assert Fresh(t, Threads());
      if startP[b] == 0 {
        var i :| i in t.mask;
        assert PacketOf(i, lanes) >= 0;
      }
    }

    /** Block b had its turn: left is what its output gained. */
    ghost predicate Turned(b: nat, inputs0: seq<seq<Trace>>, outputs0: seq<seq<Trace>>, startP0: seq<int>,
                           left: seq<Trace>, done: bool)
      reads `inputs, `outputs, `startP, `batchIdx
    {
      var i := PortOf(b);
      && lanes > 0 && i < |inputs0| == |outputs0| && b < |startP0|
      && |inputs| == |inputs0| && |startP| == |startP0|
      && inputs == inputs0[i := inputs[i]] && outputs == outputs0[i := outputs0[i] + left] && startP == startP0[b := startP[b]]
      && Turn(lanes, pidCount, inputs0[i], startP0[b], inputs[i], startP[b], left, done)
    }

    /** A unit as wide as the warp takes a trace as it is. */
    method PassFront(b: nat)
      requires Shape() && TracesOk() && b < blocks && BlockOk(b) && pidCount == 1 && inputs[PortOf(b)] != []
      modifies `inputs, `outputs
      ensures exists left :: Turned(b, old(inputs), old(outputs), old(startP), left, true)
    {
      var port := PortOf(b);
      var trace := inputs[port][0];
      assert Fresh(trace, Threads());
      forall j | j in trace.mask ensures PacketOf(j, lanes) == 0 { LaneBelow(j, lanes, 1); }
      assert Group(trace.mask, lanes, 0) == trace.mask;
      var p := trace.(pid := 0);
      inputs := inputs[port := inputs[port][1..]];
      outputs := outputs[port := outputs[port] + [p]];
      assert Next(trace, lanes, 0, p);
      assert Turned(b, old(inputs), old(outputs), old(startP), [p], true);
    }

    /** The turn of one block; done when it needs no more turns in this batch. */
    method TickBlock(b: nat) returns (done: bool, ghost left: seq<Trace>)
      requires Valid() && b < blocks
      modifies `startP, `inputs, `outputs, `whole, `begun
      ensures Valid() && Step(lanes, pidCount, batchIdx * blocks, blocks, b, old(Now()), Now(), left, done)
      ensures |whole| == |old(whole)| && forall i :: 0 <= i < |whole| ==> old(whole)[i] <= whole[i]
    {
      hide *;
      ghost var inputs0, outputs0, startP0, begun0 := inputs, outputs, startP, begun;
      ghost var s0 := Now();
      NowIs(s0);
      PortBase();
      ShapeNow();
      BooksNow();
      done, left := Emit(b);
      Book(b, inputs0, outputs0, startP0, left, done);
      ShapeNow();
      TurnedWent(b, inputs0, outputs0, startP0, begun0, left, done);
    }

    lemma PortBase()
      ensures PortOf(0) == batchIdx * blocks
    {
    }

    lemma NowIs(s: Ports)
      requires s == Now()
      ensures s == Ports(inputs, outputs, startP, begun)
    {
    }

    lemma ShapeNow()
      requires Valid()
      ensures Shape() && TracesOk() && OthersIdle() && |outputs| == |inputs| == |begun| == |whole| && |startP| == blocks
      ensures lanes > 0 && pidCount > 0 && PortOf(0) + blocks <= |inputs| && Now().Sized(PortOf(0), blocks)
      ensures forall b :: 0 <= b < blocks ==> PortOf(b) < |inputs| && BlockOk(b)
    {
      hide Fresh, Port, Block;
      Blocks();
    }

    /** What a turn of block b puts out. */
    method Emit(b: nat) returns (done: bool, ghost left: seq<Trace>)
      requires Shape() && TracesOk() && OthersIdle() && b < blocks && BlockOk(b)
      modifies `startP, `inputs, `outputs
      ensures Shape() && OthersIdle() && Turned(b, old(inputs), old(outputs), old(startP), left, done)
      ensures |inputs| == |old(inputs)| && |outputs| == |old(outputs)| == |begun| == |whole| == |inputs| && |old(startP)| == blocks
    {
      hide Turned, Block, Fresh;
      if inputs[PortOf(b)] == [] {
        Unturned(b);
        return true, [];
      }
      if pidCount != 1 {
        if startP[b] < 0 {
          Unturned(b);
          return true, [];
        }
        done := SplitFront(b);
        left :| Turned(b, old(inputs), old(outputs), old(startP), left, done);
      } else {
        PassFront(b);
        done := true;
        left :| Turned(b, old(inputs), old(outputs), old(startP), left, done);
      }
      TurnedShape(b, old(inputs), old(outputs), old(startP), left, done);
    }

    lemma TurnedShape(b: nat, inputs0: seq<seq<Trace>>, outputs0: seq<seq<Trace>>, startP0: seq<int>,
                      left: seq<Trace>, done: bool)
      requires Turned(b, inputs0, outputs0, startP0, left, done)
      ensures |inputs| == |inputs0| && |outputs| == |outputs0| && |startP| == |startP0|
    {
    }

    lemma TurnedWent(b: nat, inputs0: seq<seq<Trace>>, outputs0: seq<seq<Trace>>, startP0: seq<int>,
                     begun0: seq<seq<Trace>>, left: seq<Trace>, done: bool)
      requires Shape() && b < blocks && Turned(b, inputs0, outputs0, startP0, left, done) && |outputs0| == |begun0| == |inputs|
      requires (done <==> begun[PortOf(b)] == []) && (!done ==> startP[b] > startP0[b])
      requires forall i :: 0 <= i < |begun| && i != PortOf(b) ==> begun[i] == begun0[i]
      ensures Step(lanes, pidCount, PortOf(0), blocks, b, Ports(inputs0, outputs0, startP0, begun0), Now(), left, done)
    {
      hide Turn;
      Blocks();
    }

    lemma Blocks()
      requires Shape()
      ensures PortOf(0) + blocks <= |inputs|
    {
      RowBound(batchIdx, batches, 1, 0);
      if blocks > 0 { assert PortOf(blocks - 1) < |inputs|; } else { assert (batchIdx + 1) * blocks <= batches * blocks; }
    }

    lemma Unturned(b: nat)
      requires Shape() && b < blocks && (inputs[PortOf(b)] == [] || startP[b] < 0)
      ensures Turned(b, inputs, outputs, startP, [], true)
    {
      var i := PortOf(b);
      assert outputs[i] + [] == outputs[i];
    }

    /** Enters what left in a turn into the books. */
    ghost method Book(b: nat, inputs0: seq<seq<Trace>>, outputs0: seq<seq<Trace>>, startP0: seq<int>,
                      left: seq<Trace>, done: bool)
      requires Shape() && b < blocks && |inputs0| == |inputs| && |outputs0| == |inputs| && |startP0| == blocks
      requires OthersIdle() && Turned(b, inputs0, outputs0, startP0, left, done)
      requires forall i, k :: 0 <= i < |inputs| && 0 <= k < |inputs0[i]| ==> Fresh(inputs0[i][k], Threads())
      requires forall i :: 0 <= i < |inputs| ==> Port(lanes, accepted[i], inputs0[i], outputs0[i], whole[i], begun[i])
      requires forall c :: 0 <= c < blocks ==> Block(lanes, pidCount, inputs0[PortOf(c)], startP0[c], begun[PortOf(c)])
      modifies `whole, `begun
      ensures Valid() && (done <==> begun[PortOf(b)] == []) && (!done ==> startP[b] > startP0[b])
      ensures |whole| == |old(whole)| && forall i :: 0 <= i < |whole| ==> old(whole)[i] <= whole[i]
      ensures |begun| == |old(begun)| && forall i :: 0 <= i < |begun| && i != PortOf(b) ==> begun[i] == old(begun)[i]
    {
      hide Port, Block, Fresh;
      var i := PortOf(b);
      TurnFresh(b, inputs0, outputs0, startP0, left, done);
      var w, g := TurnKeeps(lanes, pidCount, accepted[i], inputs0[i], outputs0[i], whole[i], begun[i], startP0[b],
                            inputs[i], startP[b], left, done);
      whole := whole[i := w];
      begun := begun[i := g];
      forall k | 0 <= k < |inputs| ensures PortOk(k) {}
      forall c | 0 <= c < blocks ensures BlockOk(c) {
        if c != b { assert PortOf(c) != i; }
      }
      assert OthersIdle();
    }

    lemma TurnFresh(b: nat, inputs0: seq<seq<Trace>>, outputs0: seq<seq<Trace>>, startP0: seq<int>,
                    left: seq<Trace>, done: bool)
      requires Turned(b, inputs0, outputs0, startP0, left, done)
      requires forall i, k :: 0 <= i < |inputs| && 0 <= k < |inputs0[i]| ==> Fresh(inputs0[i][k], Threads())
      ensures TracesOk()
    {
      hide Fresh, Next;
    }

    /**
     A cycle: every block of the batch has its turn, and no other port changes. The next batch follows
     when all blocks are done; until then turns are used up.
     */
    method Tick() returns (advanced: bool, ghost left: seq<seq<Trace>>, ghost done: seq<bool>, ghost ends: seq<int>)
      requires Valid()
      modifies `startP, `inputs, `outputs, `whole, `begun, `batchIdx
      ensures Valid()
      ensures Served(lanes, pidCount, old(batchIdx) * blocks, blocks, blocks, old(Now()), Ports(inputs, outputs, ends, begun), left, done)
      ensures advanced <==> forall b :: 0 <= b < blocks ==> done[b]
      ensures if advanced then batchIdx == (old(batchIdx) + 1) % batches && startP == seq(blocks, _ => 0)
              else batchIdx == old(batchIdx) && startP == ends
                   && TurnsLeft(pidCount, startP) < TurnsLeft(pidCount, old(startP))
    {
      hide *;
      ghost var s0 := Now();
      NowIs(s0);
      PortBase();
      BlocksNow();
      ShapeNow();
      ServedNone(lanes, pidCount, PortOf(0), blocks, s0);
      var blockSent, b := 0, 0;
      ghost var open := 0;
      left, done := [], [];
      while b < blocks
        invariant b <= blocks && Valid() && batchIdx == old(batchIdx) && |done| == b
        invariant lanes > 0 && Served(lanes, pidCount, PortOf(0), blocks, b, s0, Now(), left, done)
        invariant if blockSent == b then forall c :: 0 <= c < b ==> done[c]
                  else blockSent < b && open < b && !done[open]
      {
        ghost var m := Now();
        var ok, gain := TickBlock(b);
        ServedMore(lanes, pidCount, PortOf(0), blocks, b, s0, m, Now(), left, done, gain, ok);
        if ok {
          blockSent := blockSent + 1;
        } else {
          open := b;
        }
        left, done := left + [gain], done + [ok];
        b := b + 1;
      }
      ends := startP;
      ShapeNow();
      NowIs(Now());
      advanced := blockSent == blocks;
      if advanced {
        AllDone(s0, left, done);
        NextBatch();
      } else {
        ServedProgress(lanes, pidCount, PortOf(0), blocks, s0, Now(), left, done);
      }
    }

    lemma AllDone(s0: Ports, left: seq<seq<Trace>>, done: seq<bool>)
      requires Shape() && Served(lanes, pidCount, PortOf(0), blocks, blocks, s0, Now(), left, done)
      requires forall b :: 0 <= b < blocks ==> done[b]
      ensures forall b :: 0 <= b < blocks ==> begun[PortOf(b)] == []
    {
      hide Went;
      forall b | 0 <= b < blocks ensures begun[PortOf(b)] == [] {
        assert PortOf(b) == PortOf(0) + b;
        assert done[b];
      }
    }

    lemma BlocksNow()
      requires Valid()
      ensures PortOf(0) + blocks <= |Now().inputs| && |Now().begun| == |Now().inputs| && |Now().startP| == blocks && lanes > 0
      ensures forall b :: 0 <= b < blocks ==>
        Block(lanes, pidCount, Now().inputs[PortOf(0) + b], Now().startP[b], Now().begun[PortOf(0) + b])
    {
      hide Block, Port, Fresh;
      Blocks();
      forall b | 0 <= b < blocks
        ensures Block(lanes, pidCount, Now().inputs[PortOf(0) + b], Now().startP[b], Now().begun[PortOf(0) + b])
      {
        assert PortOf(b) == PortOf(0) + b && BlockOk(b);
      }
    }

    lemma BooksNow()
      requires Valid()
      ensures forall i :: 0 <= i < |inputs| ==> Port(lanes, accepted[i], inputs[i], outputs[i], whole[i], begun[i])
      ensures forall b :: 0 <= b < blocks ==> Block(lanes, pidCount, inputs[PortOf(b)], startP[b], begun[PortOf(b)])
      ensures forall i, k :: 0 <= i < |inputs| && 0 <= k < |inputs[i]| ==> Fresh(inputs[i][k], Threads())
    {
      hide Port, Block, Fresh;
      forall i | 0 <= i < |inputs| ensures Port(lanes, accepted[i], inputs[i], outputs[i], whole[i], begun[i]) {
        assert PortOk(i);
      }
      forall b | 0 <= b < blocks ensures Block(lanes, pidCount, inputs[PortOf(b)], startP[b], begun[PortOf(b)]) {
        assert BlockOk(b);
      }
    }

    method NextBatch()
      requires Valid() && forall b :: 0 <= b < blocks ==> begun[PortOf(b)] == []
      modifies `batchIdx, `startP
      ensures Valid() && batchIdx == (old(batchIdx) + 1) % batches && startP == seq(blocks, _ => 0)
    {
      hide Port, Fresh;
      forall i | 0 <= i < |begun| ensures begun[i] == [] {
        if PortOf(0) <= i < PortOf(blocks) { assert i == PortOf(i - PortOf(0)); }
      }
      ghost var b0 := batchIdx;
      batchIdx := (batchIdx + 1) % batches;
      startP := seq(blocks, _ => 0);
      PortsExist();
      forall i | 0 <= i < |inputs| ensures PortOk(i) { assert old(PortOk(i)); }
    }

    /**
     Whatever the run: a port whose queue is empty has put out the whole splits of all traces it took
     in, in order, and nothing else.
     */
    lemma LeavesWhole(i: nat)
      requires Valid() && i < |inputs| && inputs[i] == []
      ensures |whole[i]| == |accepted[i]| && outputs[i] == Flat(whole[i])
      ensures forall k :: 0 <= k < |whole[i]| ==> Whole(accepted[i][k].mask, lanes, whole[i][k])
    {
      hide Whole, Flat;
      assert PortOk(i);
      if PortOf(0) <= i < PortOf(blocks) {
        assert BlockOk(i - PortOf(0));
      }
    }
  }

  lemma PacketOrder(i: nat, j: nat, lanes: nat)
    requires lanes > 0 && i <= j
    ensures PacketOf(i, lanes) <= PacketOf(j, lanes)
  {
    LaneBelow(j, lanes, PacketOf(j, lanes) + 1);
    LaneBelow(i, lanes, PacketOf(j, lanes) + 1);
  }
}
