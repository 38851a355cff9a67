/**
 The memory coalescer: lanes of a request that fall in one line leave as one line request, and the
 line's answer comes back as an answer to those lanes.
 */
module Coalescer {
  import opened Arith
  import opened LaneTable
  import opened Wrappers

  /** A request or its answer, over the lanes in mask. */
  datatype LsuReq = LsuReq(mask: set<nat>, addrs: seq<nat>, write: bool, tag: nat)

  datatype LsuRsp = LsuRsp(mask: set<nat>, tag: nat)

  /** ratio input lanes share each output; lines hold 2^lineBits bytes. */
  datatype Config = Config(outputs: nat, ratio: nat, lineBits: nat) {
    predicate Valid() { outputs > 0 && ratio > 0 }
    function Inputs(): nat { outputs * ratio }
  }

  ghost predicate ReqOk(c: Config, r: LsuReq) {
    && r.mask != {} && |r.addrs| == c.Inputs()
    && forall i :: i in r.mask ==> i < c.Inputs()
  }

  function Line(c: Config, addr: nat): nat { AlignDown(addr, Pow2(c.lineBits)) }

  /** The output a lane belongs to. */
  function Block(c: Config, i: nat): nat
    requires c.Valid()
  {
    i / c.ratio
  }

  /** Lane r of output o. */
  function Lane(c: Config, o: nat, r: nat): nat { o * c.ratio + r }

  lemma LaneBlock(c: Config, o: nat, r: nat)
    requires c.Valid() && r < c.ratio
    ensures Block(c, Lane(c, o, r)) == o
    ensures o < c.outputs ==> Lane(c, o, r) < c.Inputs()
  {
    DivModUnique(Lane(c, o, r), c.ratio, o, r);
    if o < c.outputs {
      assert (o + 1) * c.ratio <= c.outputs * c.ratio;
    }
  }

  lemma LaneOrder(c: Config, o: nat, r: nat, s: nat)
    ensures r <= s ==> Lane(c, o, r) <= Lane(c, o, s)
  {
  }

  /** Every lane is lane r of its output, for some r. */
  lemma BlockLane(c: Config, i: nat)
    requires c.Valid()
    ensures i == Lane(c, Block(c, i), i % c.ratio) && i % c.ratio < c.ratio
    ensures i < c.Inputs() ==> Block(c, i) < c.outputs
  {
    var q := i / c.ratio;
    assert i == q * c.ratio + i % c.ratio;
    assert q >= c.outputs ==> q * c.ratio >= c.outputs * c.ratio;
  }

  // ---- One batch ----

  /** k is the first lane of output o that is still to be sent. */
  ghost predicate FirstOf(c: Config, left: set<nat>, o: nat, k: nat)
    requires c.Valid()
  {
    && k in left && Block(c, k) == o
    && forall i :: i in left && Block(c, i) == o ==> k <= i
  }

  /** The first lane of output o is among those sent. */
  ghost predicate SendsFirst(c: Config, left: set<nat>, o: nat, cur: set<nat>)
    requires c.Valid()
  {
    exists k :: FirstOf(c, left, o, k) && k in cur
  }

  /**
   What one tick sends for outputs below n: each output that has lanes left takes the line of its
   first one, and with it all lanes left on that line.
   */
  ghost predicate Batch(c: Config, r: LsuReq, sent: set<nat>, n: nat, outMask: set<nat>, outAddrs: seq<nat>, cur: set<nat>)
    requires c.Valid() && ReqOk(c, r)
  {
    var left := r.mask - sent;
    && |outAddrs| == c.outputs && n <= c.outputs && cur <= left
    && (forall j :: j in cur ==> Block(c, j) < n)
    && (forall o :: o in outMask ==> o < n && SendsFirst(c, left, o, cur))
    && (forall j :: j in left && Block(c, j) < n ==>
          Block(c, j) in outMask && (j in cur <==> Line(c, r.addrs[j]) == outAddrs[Block(c, j)]))
  }

  /** The lanes of one output that leave this tick, and their line. */
  ghost predicate Group(c: Config, r: LsuReq, left: set<nat>, o: nat, found: bool, line: nat, group: set<nat>)
    requires c.Valid() && ReqOk(c, r) && left <= r.mask
  {
    if found then
      && SendsFirst(c, left, o, group)
      && (forall j :: j in group <==> j in left && Block(c, j) == o && Line(c, r.addrs[j]) == line)
    else
      group == {} && forall j :: j in left ==> Block(c, j) != o
  }

  method CoalesceBlock(c: Config, r: LsuReq, sent: set<nat>, o: nat) returns (found: bool, line: nat, group: set<nat>)
    requires c.Valid() && ReqOk(c, r) && o < c.outputs
    ensures Group(c, r, r.mask - sent, o, found, line, group)
  {
    hide Block, Line, Lane;
    ghost var left := r.mask - sent;
    found, line, group := false, 0, {};
    var first := 0;
    while first < c.ratio
      invariant first <= c.ratio && !found && group == {}
      invariant forall t :: 0 <= t < first ==> Lane(c, o, t) !in left
    {
      var i := Lane(c, o, first);
      LaneBlock(c, o, first);
      if i in sent || i !in r.mask {
        first := first + 1;
        continue;
      }
      line := Line(c, r.addrs[i]);
      group := {i};
      var s := first + 1;
      while s < c.ratio
        invariant first < s <= c.ratio
        invariant forall j :: j in group ==> j in left && Block(c, j) == o && Line(c, r.addrs[j]) == line
        invariant forall t :: first <= t < s && Lane(c, o, t) in left && Line(c, r.addrs[Lane(c, o, t)]) == line
                              ==> Lane(c, o, t) in group
      {
        var j := Lane(c, o, s);
        LaneBlock(c, o, s);
        if j !in sent && j in r.mask && Line(c, r.addrs[j]) == line {
          group := group + {j};
        }
        s := s + 1;
      }
      found := true;
      forall j | j in left && Block(c, j) == o
        ensures i <= j && (Line(c, r.addrs[j]) == line ==> j in group)
      {
        BlockLane(c, j);
        LaneOrder(c, o, first, j % c.ratio);
      }
      assert FirstOf(c, left, o, i);
      return;
    }
    forall j | j in left ensures Block(c, j) != o { BlockLane(c, j); }
  }

  lemma BatchMore(c: Config, r: LsuReq, sent: set<nat>, o: nat, outMask: set<nat>, outAddrs: seq<nat>, cur: set<nat>,
                  found: bool, line: nat, group: set<nat>)
    requires c.Valid() && ReqOk(c, r) && o < c.outputs && Batch(c, r, sent, o, outMask, outAddrs, cur)
    requires Group(c, r, r.mask - sent, o, found, line, group)
    ensures Batch(c, r, sent, o + 1, if found then outMask + {o} else outMask,
                  if found then outAddrs[o := line] else outAddrs, cur + group)
  {
    hide Block, Line, SendsFirst;
    var left := r.mask - sent;
    var outMask' := if found then outMask + {o} else outMask;
    forall o' | o' in outMask' ensures o' < o + 1 && SendsFirst(c, left, o', cur + group) {
      FirstStays(c, left, o', if o' in outMask then cur else group, cur + group);
    }
  }

  lemma FirstStays(c: Config, left: set<nat>, o: nat, part: set<nat>, cur: set<nat>)
    requires c.Valid() && SendsFirst(c, left, o, part) && part <= cur
    ensures SendsFirst(c, left, o, cur)
  {
  }

  /** One pass over the outputs. */
  method FindBatch(c: Config, r: LsuReq, sent: set<nat>) returns (outMask: set<nat>, outAddrs: seq<nat>, cur: set<nat>)
    requires c.Valid() && ReqOk(c, r)
    ensures Batch(c, r, sent, c.outputs, outMask, outAddrs, cur)
  {
    hide Block, Line;
    outMask, outAddrs, cur := {}, seq(c.outputs, _ => 0), {};
    var o := 0;
    while o < c.outputs
      invariant o <= c.outputs && Batch(c, r, sent, o, outMask, outAddrs, cur)
    {
      var found, line, group := CoalesceBlock(c, r, sent, o);
      BatchMore(c, r, sent, o, outMask, outAddrs, cur, found, line, group);
      if found {
        outMask := outMask + {o};
        outAddrs := outAddrs[o := line];
      }
      cur := cur + group;
      o := o + 1;
    }
  }

  // ---- All batches of a request ----

  ghost predicate IsBatch(c: Config, r: LsuReq, sent: set<nat>, cur: set<nat>)
    requires c.Valid() && ReqOk(c, r)
  {
    exists outMask, outAddrs :: Batch(c, r, sent, c.outputs, outMask, outAddrs, cur)
  }

  function Union(batches: seq<set<nat>>): set<nat> {
    if batches == [] then {} else Union(batches[..|batches| - 1]) + batches[|batches| - 1]
  }

  /** The batches sent so far for a request, each while lanes were left. */
  ghost predicate Sends(c: Config, r: LsuReq, batches: seq<set<nat>>)
    requires c.Valid() && ReqOk(c, r)
  {
    batches != [] ==>
      var before := batches[..|batches| - 1];
      Sends(c, r, before) && Union(before) != r.mask && IsBatch(c, r, Union(before), batches[|batches| - 1])
  }

  ghost predicate PairwiseDisjoint(batches: seq<set<nat>>) {
    forall i, j :: 0 <= i < j < |batches| ==> batches[i] !! batches[j]
  }

  lemma {:induction false} InUnion(batches: seq<set<nat>>, i: nat)
    requires i < |batches|
    ensures batches[i] <= Union(batches)
  {
    var n := |batches| - 1;
    if i < n { InUnion(batches[..n], i); }
  }

  /** No lane is sent twice, and none that was not asked for. */
  lemma {:induction false} SendsDisjoint(c: Config, r: LsuReq, batches: seq<set<nat>>)
    requires c.Valid() && ReqOk(c, r) && Sends(c, r, batches)
    ensures PairwiseDisjoint(batches) && Union(batches) <= r.mask
  {
    hide *;
    if batches == [] {
      NoBatches(batches);
    } else {
      var n := |batches| - 1;
      LastBatch(c, r, batches);
      SendsDisjoint(c, r, batches[..n]);
      DisjointMore(batches[..n], batches[n]);
      assert batches == batches[..n] + [batches[n]];
    }
  }

  lemma NoBatches(batches: seq<set<nat>>)
    requires batches == []
    ensures PairwiseDisjoint(batches) && Union(batches) == {}
  {
  }

  /** A last batch takes only lanes that were asked for and not sent before. */
  lemma LastBatch(c: Config, r: LsuReq, batches: seq<set<nat>>)
    requires c.Valid() && ReqOk(c, r) && Sends(c, r, batches) && batches != []
    ensures var before, cur := batches[..|batches| - 1], batches[|batches| - 1];
            Sends(c, r, before) && cur <= r.mask - Union(before) && Union(batches) == Union(before) + cur
  {
    hide Block, Line, FirstOf, SendsFirst, ReqOk;
  }

  lemma DisjointMore(batches: seq<set<nat>>, cur: set<nat>)
    requires PairwiseDisjoint(batches) && cur !! Union(batches)
    ensures PairwiseDisjoint(batches + [cur])
  {
    hide Union;
    forall i | 0 <= i < |batches| ensures batches[i] !! cur { InUnion(batches, i); }
  }

  /** The lanes of output o among left. */
  ghost function Of(c: Config, left: set<nat>, o: nat): set<nat>
    requires c.Valid()
  {
    set i | i in left && Block(c, i) == o
  }

  /** A batch takes at least one lane from every output that has some left. */
  lemma BatchShrinks(c: Config, r: LsuReq, sent: set<nat>, cur: set<nat>, o: nat)
    requires c.Valid() && ReqOk(c, r) && IsBatch(c, r, sent, cur)
    ensures Of(c, r.mask - (sent + cur), o) <= Of(c, r.mask - sent, o)
    ensures Of(c, r.mask - sent, o) != {} ==> Of(c, r.mask - (sent + cur), o) != Of(c, r.mask - sent, o)
  {
    hide Block, Line;
    var left := r.mask - sent;
    var outMask, outAddrs :| Batch(c, r, sent, c.outputs, outMask, outAddrs, cur);
    if Of(c, left, o) != {} {
      var j :| j in Of(c, left, o);
      BlockLane(c, j);
      assert o in outMask;
      var k :| FirstOf(c, left, o, k) && k in cur;
      assert k in Of(c, left, o) && k !in Of(c, r.mask - (sent + cur), o);
    }
  }

  lemma SetSmaller(a: set<nat>, b: set<nat>)
    requires a <= b
    ensures |a| <= |b| && (a != b ==> |a| < |b|)
  {
    assert b == a + (b - a) && |b| == |a| + |b - a|;
    if a != b { assert b - a != {}; }
  }

  /** An output has at most ratio lanes. */
  lemma {:induction false} OfSize(c: Config, left: set<nat>, o: nat, n: nat)
    requires c.Valid() && forall i :: i in left ==> Lane(c, o, 0) <= i < Lane(c, o, n)
    ensures |left| <= n
  {
    if n == 0 {
      assert left == {};
    } else {
      var last := Lane(c, o, n - 1);
      OfSize(c, left - {last}, o, n - 1);
      assert left <= (left - {last}) + {last};
      SetSmaller(left, (left - {last}) + {last});
    }
  }

  lemma OfAtMostRatio(c: Config, left: set<nat>, o: nat)
    requires c.Valid()
    ensures |Of(c, left, o)| <= c.ratio
  {
    forall i | i in Of(c, left, o) ensures Lane(c, o, 0) <= i < Lane(c, o, c.ratio) {
      BlockLane(c, i);
    }
    OfSize(c, Of(c, left, o), o, c.ratio);
  }

  /** Each batch leaves every output with fewer lanes. */
  lemma {:induction false} LeftShrinks(c: Config, r: LsuReq, batches: seq<set<nat>>, o: nat)
    requires c.Valid() && ReqOk(c, r) && Sends(c, r, batches)
    ensures var left := Of(c, r.mask - Union(batches), o);
            left == {} || |left| + |batches| <= c.ratio
    decreases |batches|
  {
    if batches == [] {
      OfAtMostRatio(c, r.mask, o);
      assert r.mask - Union(batches) == r.mask;
    } else {
      var n := |batches| - 1;
      var before := batches[..n];
      hide Of, IsBatch, ReqOk;
      LeftShrinks(c, r, before, o);
      BatchShrinks(c, r, Union(before), batches[n], o);
      SetSmaller(Of(c, r.mask - Union(batches), o), Of(c, r.mask - Union(before), o));
    }
  }

  /**
   The batches of a request are disjoint and cover nothing else than its mask; there are at most
   ratio of them, and after ratio of them the mask is used up.
   */
  lemma BatchesPartition(c: Config, r: LsuReq, batches: seq<set<nat>>)
    requires c.Valid() && ReqOk(c, r) && Sends(c, r, batches)
    ensures PairwiseDisjoint(batches) && Union(batches) <= r.mask
    ensures |batches| <= c.ratio
    ensures |batches| == c.ratio ==> Union(batches) == r.mask
  {
    hide *;
    SendsDisjoint(c, r, batches);
    if Union(batches) != r.mask {
      LeftOver(c, r, batches);
    } else if batches != [] {
      var n := |batches| - 1;
      SentWhileLeft(c, r, batches);
      SendsDisjoint(c, r, batches[..n]);
      LeftOver(c, r, batches[..n]);
    } else {
      RatioPositive(c);
    }
  }

  lemma RatioPositive(c: Config)
    requires c.Valid()
    ensures c.ratio > 0
  {
  }

  lemma SentWhileLeft(c: Config, r: LsuReq, batches: seq<set<nat>>)
    requires c.Valid() && ReqOk(c, r) && Sends(c, r, batches) && batches != []
    ensures Sends(c, r, batches[..|batches| - 1]) && Union(batches[..|batches| - 1]) != r.mask
  {
    hide Union, IsBatch;
  }

  /** While lanes are left, fewer than ratio batches were sent. */
  lemma LeftOver(c: Config, r: LsuReq, batches: seq<set<nat>>)
    requires c.Valid() && ReqOk(c, r) && Sends(c, r, batches) && Union(batches) <= r.mask && Union(batches) != r.mask
    ensures |batches| < c.ratio
  {
    var left := r.mask - Union(batches);
    assert !(r.mask <= Union(batches));
    var j :| j in r.mask && j !in Union(batches);
    LeftShrinks(c, r, batches, Block(c, j));
    assert j in Of(c, left, Block(c, j));
  }

  /** Lanes of the same output leave together exactly when their addresses are in the same line. */
  lemma BatchSharesLine(c: Config, r: LsuReq, sent: set<nat>, cur: set<nat>, i: nat, j: nat)
    requires c.Valid() && ReqOk(c, r) && IsBatch(c, r, sent, cur)
    requires i in cur && j in r.mask - sent && i / c.ratio == j / c.ratio
    ensures j in cur <==> r.addrs[i] / Pow2(c.lineBits) == r.addrs[j] / Pow2(c.lineBits)
  {
    hide Pow2, Line, FirstOf, SendsFirst;
    BlockLane(c, i);
    SameLine(c, r.addrs[i], r.addrs[j]);
    var outMask, outAddrs :| Batch(c, r, sent, c.outputs, outMask, outAddrs, cur);
  }

  lemma SameLine(c: Config, x: nat, y: nat)
    ensures Line(c, x) == Line(c, y) <==> x / Pow2(c.lineBits) == y / Pow2(c.lineBits)
    ensures Line(c, x) == x - x % Pow2(c.lineBits)
  {
    hide Pow2;
    LineOf(x, y, Pow2(c.lineBits));
  }

  lemma LineOf(x: nat, y: nat, a: nat)
    requires a > 0
    ensures x - x % a == y - y % a <==> x / a == y / a
  {
    Remainder(x, a);
    Remainder(y, a);
    if x - x % a == y - y % a {
      DivModUnique(x, a, y / a, x % a);
    }
  }

  /**
   An output with lanes left sends the line of its first one, and with it exactly the lanes left whose
   addresses are in that line.
   */
  lemma BatchMeans(c: Config, r: LsuReq, sent: set<nat>, outMask: set<nat>, outAddrs: seq<nat>, cur: set<nat>, j: nat) returns (k: nat)
    requires c.Valid() && ReqOk(c, r) && Batch(c, r, sent, c.outputs, outMask, outAddrs, cur) && j in r.mask - sent
    ensures k in r.mask - sent && k / c.ratio == j / c.ratio
    ensures forall i :: i in r.mask - sent && i / c.ratio == j / c.ratio ==> k <= i
    ensures j / c.ratio in outMask && j / c.ratio < |outAddrs| && outAddrs[j / c.ratio] == r.addrs[k] - r.addrs[k] % Pow2(c.lineBits)
    ensures j in cur <==> r.addrs[j] / Pow2(c.lineBits) == r.addrs[k] / Pow2(c.lineBits)
  {
    hide *;
    k := LeastOf(c, r, sent, outMask, outAddrs, cur, j);
    SameLine(c, r.addrs[j], r.addrs[k]);
    SameLine(c, r.addrs[k], r.addrs[k]);
    BlockIs(c);
  }

  lemma BlockIs(c: Config)
    requires c.Valid()
    ensures c.ratio > 0 && forall i: nat :: Block(c, i) == i / c.ratio
  {
  }

  lemma LeastOf(c: Config, r: LsuReq, sent: set<nat>, outMask: set<nat>, outAddrs: seq<nat>, cur: set<nat>, j: nat) returns (k: nat)
    requires c.Valid() && ReqOk(c, r) && Batch(c, r, sent, c.outputs, outMask, outAddrs, cur) && j in r.mask - sent
    ensures j < |r.addrs| && k < |r.addrs| && k in r.mask - sent && Block(c, k) == Block(c, j)
    ensures forall i :: i in r.mask - sent && Block(c, i) == Block(c, j) ==> k <= i
    ensures Block(c, j) in outMask && Block(c, j) < |outAddrs| && outAddrs[Block(c, j)] == Line(c, r.addrs[k])
    ensures j in cur <==> Line(c, r.addrs[j]) == Line(c, r.addrs[k])
  {
    hide Block, Line;
    BlockLane(c, j);
    assert Block(c, j) in outMask;
    k :| FirstOf(c, r.mask - sent, Block(c, j), k) && k in cur;
    assert k in r.mask;
  }

  // ---- What is owed ----

  /** The read tokens of a request, without the lanes already sent. */
  ghost function ReadTokens(r: LsuReq, lanes: set<nat>): multiset<(nat, nat)> {
    if r.write then multiset{} else Tokens(r.tag, lanes)
  }

  ghost function ReqTokens(r: LsuReq, sent: set<nat>): multiset<(nat, nat)> {
    ReadTokens(r, r.mask - sent)
  }

  ghost function QueueTokens(q: seq<LsuReq>): multiset<(nat, nat)> {
    if q == [] then multiset{} else QueueTokens(q[..|q| - 1]) + ReqTokens(q[|q| - 1], {})
  }

  ghost function WaitingTokens(q: seq<LsuReq>, sent: set<nat>): multiset<(nat, nat)> {
    if q == [] then multiset{} else ReqTokens(q[0], sent) + QueueTokens(q[1..])
  }

  lemma {:induction false} QueueFront(q: seq<LsuReq>)
    ensures QueueTokens(q) == WaitingTokens(q, {})
  {
    if |q| > 1 {
      var n := |q| - 1;
      QueueFront(q[..n]);
      assert q[..n][1..] == q[1..][..n - 1] && q[1..][n - 1] == q[n];
      assert QueueTokens(q[1..]) == QueueTokens(q[1..n]) + ReqTokens(q[n], {});
    } else if q != [] {
      assert q[..0] == [] && q[1..] == [];
    }
  }

  lemma QueueMore(q: seq<LsuReq>, sent: set<nat>, r: LsuReq)
    requires q == [] ==> sent == {}
    ensures WaitingTokens(q + [r], sent) == WaitingTokens(q, sent) + ReqTokens(r, {})
  {
    if q == [] {
      assert (q + [r])[1..] == [];
    } else {
      assert (q + [r])[1..] == q[1..] + [r];
      assert (q[1..] + [r])[..|q| - 1] == q[1..];
    }
  }

  ghost predicate LanesOk(c: Config, mask: set<nat>) {
    mask != {} && forall i :: i in mask ==> i < c.Inputs()
  }

  /** The answers memory owes: one per entry and output that still waits. */
  ghost predicate Outstanding(c: Config, e: seq<Slot<nat>>, asked: set<(nat, nat)>)
    requires c.Valid()
  {
    && (forall p :: p in asked ==> p.0 < |e| && e[p.0].Used? && Of(c, e[p.0].value.mask, p.1) != {})
    && (forall t, i :: 0 <= t < |e| && e[t].Used? && i in e[t].value.mask ==> (t, Block(c, i)) in asked)
    && (forall t :: 0 <= t < |e| && e[t].Used? ==> LanesOk(c, e[t].value.mask))
  }

  ghost function Asks(t: nat, outs: set<nat>): set<(nat, nat)> { set o | o in outs :: (t, o) }

  lemma OutstandingMore(c: Config, e: seq<Slot<nat>>, asked: set<(nat, nat)>, t: nat, tag: nat, r: LsuReq, sent: set<nat>,
                        outMask: set<nat>, outAddrs: seq<nat>, cur: set<nat>)
    requires c.Valid() && ReqOk(c, r) && Outstanding(c, e, asked) && t < |e| && e[t].Free?
    requires Batch(c, r, sent, c.outputs, outMask, outAddrs, cur) && cur != {}
    ensures Outstanding(c, e[t := Used(Pending(tag, cur))], asked + Asks(t, outMask))
  {
    hide Block, Line;
    var e', asked' := e[t := Used(Pending(tag, cur))], asked + Asks(t, outMask);
    forall p | p in asked'
      ensures p.0 < |e'| && e'[p.0].Used? && Of(c, e'[p.0].value.mask, p.1) != {}
    {
      if p !in asked {
        var k :| FirstOf(c, r.mask - sent, p.1, k) && k in cur;
        assert k in Of(c, cur, p.1);
      }
    }
  }

  lemma OutstandingLess(c: Config, e: seq<Slot<nat>>, asked: set<(nat, nat)>, t: nat, outs: set<nat>, lanes: set<nat>)
    requires c.Valid() && Outstanding(c, e, asked) && t < |e| && e[t].Used?
    requires forall i :: i in lanes <==> i in e[t].value.mask && Block(c, i) in outs
    ensures var p := e[t].value;
            Outstanding(c, e[t := if p.mask == lanes then Free else Used(Pending(p.owner, p.mask - lanes))], asked - Asks(t, outs))
  {
    hide Block;
    var p := e[t].value;
    var e' := e[t := if p.mask == lanes then Free else Used(Pending(p.owner, p.mask - lanes))];
    forall a | a in asked - Asks(t, outs)
      ensures e'[a.0].Used? && Of(c, e'[a.0].value.mask, a.1) != {}
    {
      if a.0 == t {
        assert a.1 in outs ==> (t, a.1) in Asks(t, outs);
        var i :| i in Of(c, p.mask, a.1);
        assert i in p.mask - lanes && i in Of(c, p.mask - lanes, a.1);
      }
    }
    assert p.mask == lanes + (p.mask - lanes);
  }

  // ---- The coalescer ----

  /** The table once an answer has been taken: the lanes of its outputs no longer wait. */
  ghost function Answered(c: Config, e: seq<Slot<nat>>, rsp: LsuRsp): seq<Slot<nat>>
    requires rsp.tag < |e| && e[rsp.tag].Used?
  {
    if !c.Valid() then e
    else
      var p := e[rsp.tag].value;
      var left := set i | i in p.mask && Block(c, i) !in rsp.mask;
      e[rsp.tag := if left == {} then Free else Used(Pending(p.owner, left))]
  }

  /** The requests that wait, and the batches sent for the one in front. */
  datatype Front = Front(reqIn: seq<LsuReq>, batches: seq<set<nat>>)

  /** A cycle that is not blocked sends one batch more; the last one takes the request out. */
  ghost predicate Moves(c: Config, f: Front, f': Front, blocked: bool) {
    if blocked then f' == f
    else f.reqIn != [] && if f'.reqIn == f.reqIn[1..] then f'.batches == []
                          else f'.reqIn == f.reqIn && |f'.batches| == |f.batches| + 1 < c.ratio
  }

  /** Cycles one after the other; requests may arrive in between. */
  ghost predicate Cycles(c: Config, before: seq<Front>, after: seq<Front>, blocked: seq<bool>) {
    && |before| == |after| == |blocked|
    && (forall k :: 0 <= k < |before| ==> Moves(c, before[k], after[k], blocked[k]))
    && forall k :: 0 <= k < |before| - 1 ==> after[k].reqIn <= before[k + 1].reqIn && before[k + 1].batches == after[k].batches
  }

  lemma MovesIs(c: Config, f: Front, f': Front)
    ensures Moves(c, f, f', true) <==> f' == f
    ensures Moves(c, f, f', false) <==>
      f.reqIn != [] && if f'.reqIn == f.reqIn[1..] then f'.batches == []
                       else f'.reqIn == f.reqIn && |f'.batches| == |f.batches| + 1 < c.ratio
  {
  }

  function Unblocked(blocked: seq<bool>): nat {
    if blocked == [] then 0 else (if blocked[0] then 0 else 1) + Unblocked(blocked[1..])
  }

  lemma {:induction false} UnblockedLast(blocked: seq<bool>)
    requires blocked != []
    ensures var n := |blocked| - 1; Unblocked(blocked) == Unblocked(blocked[..n]) + (if blocked[n] then 0 else 1)
  {
    var n := |blocked| - 1;
    if n > 0 {
      UnblockedLast(blocked[1..]);
      assert blocked[1..][..n - 1] == blocked[..n][1..];
    }
  }

  lemma {:induction false} UnblockedCounts(blocked: seq<bool>)
    ensures Unblocked(blocked) == |set k | 0 <= k < |blocked| && !blocked[k]|
  {
    var all := set k | 0 <= k < |blocked| && !blocked[k];
    if blocked == [] {
      assert all == {};
    } else {
      var n := |blocked| - 1;
      var init := set k | 0 <= k < n && !blocked[..n][k];
      UnblockedLast(blocked);
      UnblockedCounts(blocked[..n]);
      assert all == if blocked[n] then init else init + {n};
    }
  }

  /** A request is sent whole within ratio cycles that are not blocked, whatever the run. */
  lemma SentInTime(c: Config, before: seq<Front>, after: seq<Front>, blocked: seq<bool>)
    requires Cycles(c, before, after, blocked) && before != [] && before[0].reqIn != [] && |before[0].batches| < c.ratio
    requires |set k | 0 <= k < |blocked| && !blocked[k]| + |before[0].batches| >= c.ratio
    ensures exists k :: 0 <= k < |before| && before[k].reqIn != [] && before[k].reqIn[0] == before[0].reqIn[0]
                        && after[k].reqIn == before[k].reqIn[1..]
  {
    hide *;
    UnblockedCounts(blocked);
    SentWithin(c, before, after, blocked);
  }

  lemma {:induction false} SentWithin(c: Config, before: seq<Front>, after: seq<Front>, blocked: seq<bool>)
    requires Cycles(c, before, after, blocked) && before != [] && before[0].reqIn != [] && |before[0].batches| < c.ratio
    requires Unblocked(blocked) + |before[0].batches| >= c.ratio
    ensures exists k :: 0 <= k < |before| && before[k].reqIn != [] && before[k].reqIn[0] == before[0].reqIn[0]
                        && after[k].reqIn == before[k].reqIn[1..]
    decreases |before|
  {
    assert Moves(c, before[0], after[0], blocked[0]);
    if after[0].reqIn != before[0].reqIn[1..] {
      assert after[0].reqIn == before[0].reqIn;
      if |before| > 1 {
        assert before[1].reqIn[0] == after[0].reqIn[0];
        CyclesRest(c, before, after, blocked);
        SentWithin(c, before[1..], after[1..], blocked[1..]);
        var k :| 0 <= k < |before[1..]| && before[1..][k].reqIn != [] && before[1..][k].reqIn[0] == before[1].reqIn[0]
                 && after[1..][k].reqIn == before[1..][k].reqIn[1..];
        assert before[k + 1] == before[1..][k] && after[k + 1] == after[1..][k];
      }
    }
  }

  lemma CyclesRest(c: Config, before: seq<Front>, after: seq<Front>, blocked: seq<bool>)
    requires Cycles(c, before, after, blocked) && before != []
    ensures Cycles(c, before[1..], after[1..], blocked[1..])
  {
    hide Moves;
    assert forall k :: 0 <= k < |before| - 1 ==>
      before[1..][k] == before[k + 1] && after[1..][k] == after[k + 1] && blocked[1..][k] == blocked[k + 1];
  }

  class MemCoalescer {
    const c: Config
    const pendingRdReqs: HashTable<nat>
    var sentMask: set<nat>
    /** Requests waiting, the front one partly sent. */
    var reqIn: seq<LsuReq>
    /** Everything sent to memory and answered to the lanes. */
    var reqOut: seq<LsuReq>
    var rspIn: seq<LsuRsp>
    /** The batches sent for the front request; the line answers memory owes. */
    ghost var batches: seq<set<nat>>
    ghost var asked: set<(nat, nat)>
    /** The lane reads taken in, and those answered. */
    ghost var accepted: multiset<(nat, nat)>
    ghost var answered: multiset<(nat, nat)>

    ghost predicate Valid()
      reads this, pendingRdReqs
    {
      && c.Valid() && pendingRdReqs.Valid()
      && QueueOk()
      && Outstanding(c, pendingRdReqs.entries, asked)
      && accepted == answered + TableTokens(pendingRdReqs.entries) + WaitingTokens(reqIn, sentMask)
    }

    /** The front request is partly sent, its batches so far in sentMask. */
    ghost predicate QueueOk()
      requires c.Valid()
      reads `reqIn, `sentMask, `batches
    {
      && (forall i :: 0 <= i < |reqIn| ==> ReqOk(c, reqIn[i]))
      && (if reqIn == [] then batches == []
          else Sends(c, reqIn[0], batches) && Union(batches) != reqIn[0].mask)
      && sentMask == Union(batches)
    }

    constructor (c: Config, queueSize: nat)
      requires c.Valid()
      ensures Valid() && fresh(pendingRdReqs)
      ensures reqIn == [] && reqOut == [] && rspIn == [] && accepted == multiset{} && answered == multiset{}
    {
      this.c := c;
      var table := new HashTable<nat>(queueSize);
      UsedCountBounds(table.entries);
      NoTokens(table.entries);
      pendingRdReqs := table;
      sentMask, reqIn, reqOut, rspIn := {}, [], [], [];
      batches, asked, accepted, answered := [], {}, multiset{}, multiset{};
    }

    method Submit(r: LsuReq)
      requires Valid() && ReqOk(c, r)
      modifies this
      ensures Valid() && reqIn == old(reqIn) + [r]
      ensures accepted == old(accepted) + ReqTokens(r, {})
      ensures unchanged(`answered) && unchanged(`reqOut) && unchanged(`rspIn) && unchanged(`asked)
    {
      hide Outstanding, TableTokens, Sends, Union, ReqOk, ReqTokens, WaitingTokens;
      FreshRequest(c, r);
      QueueMore(reqIn, sentMask, r);
      ghost var t, w := TableTokens(pendingRdReqs.entries), WaitingTokens(reqIn, sentMask);
      reqIn := reqIn + [r];
      assert answered + t + (w + ReqTokens(r, {})) == answered + t + w + ReqTokens(r, {});
      accepted := accepted + ReqTokens(r, {});
    }

    /** The lanes of an entry that a line answer serves. */
    method LanesOf(mask: set<nat>, outs: set<nat>) returns (lanes: set<nat>)
      requires c.Valid() && forall i :: i in mask ==> i < c.Inputs()
      ensures forall i :: i in lanes <==> i in mask && Block(c, i) in outs
    {
      hide Block, Lane;
      lanes := {};
      var o := 0;
      while o < c.outputs
        invariant o <= c.outputs
        invariant forall i :: i in lanes <==> i in mask && Block(c, i) in outs && Block(c, i) < o
      {
        ghost var done := lanes;
        if o in outs {
          var r := 0;
          while r < c.ratio
            invariant r <= c.ratio
            invariant forall i :: i in lanes ==> i in mask && (i in done || Block(c, i) == o)
            invariant done <= lanes && forall t :: 0 <= t < r && Lane(c, o, t) in mask ==> Lane(c, o, t) in lanes
          {
            var i := Lane(c, o, r);
            LaneBlock(c, o, r);
            if i in mask {
              lanes := lanes + {i};
            }
            r := r + 1;
          }
          forall i | i in mask && Block(c, i) == o ensures i in lanes { BlockLane(c, i); }
        }
        o := o + 1;
      }
      forall i | i in mask ensures Block(c, i) < c.outputs { BlockLane(c, i); }
    }

    /** A line answer: memory answers, for one entry, outputs it still owes. */
    method HandleResponse(rsp: LsuRsp)
      requires Valid() && rsp.mask != {} && Asks(rsp.tag, rsp.mask) <= asked
      modifies this, pendingRdReqs
      ensures Valid() && |rspIn| == |old(rspIn)| + 1 && rspIn[..|old(rspIn)|] == old(rspIn)
      ensures rsp.tag < |old(pendingRdReqs.entries)| && old(pendingRdReqs.entries)[rsp.tag].Used?
      ensures var p, out := old(pendingRdReqs.entries)[rsp.tag].value, rspIn[|old(rspIn)|];
              && out.tag == p.owner && out.mask != {}
              && (forall i :: i in out.mask <==> i in p.mask && Block(c, i) in rsp.mask)
              && answered == old(answered) + Tokens(out.tag, out.mask)
              && pendingRdReqs.entries == old(pendingRdReqs.entries)[rsp.tag :=
                   if p.mask == out.mask then Free else Used(Pending(p.owner, p.mask - out.mask))]
      ensures asked == old(asked) - Asks(rsp.tag, rsp.mask)
      ensures unchanged(`accepted) && unchanged(`reqIn) && unchanged(`reqOut) && unchanged(`sentMask) && unchanged(`batches)
    {
      hide Block, QueueOk, TableTokens, Tokens, WaitingTokens, Outstanding, LanesOk, Of;
      var outs, tag := rsp.mask, rsp.tag;
      ghost var k := AskedEntry(c, pendingRdReqs.entries, asked, tag, outs);
      var entry := pendingRdReqs.entries[tag].value;
      var rspMask := LanesOf(entry.mask, outs);
      assert k in rspMask;
      assert entry.mask != {};
      OutstandingLess(c, pendingRdReqs.entries, asked, tag, outs, rspMask);
      rspIn := rspIn + [LsuRsp(rspMask, entry.owner)];
      ghost var t0, w := TableTokens(pendingRdReqs.entries), WaitingTokens(reqIn, sentMask);
      var done := pendingRdReqs.Answer(tag, rspMask);
      Moved(answered, TableTokens(pendingRdReqs.entries), w, Tokens(entry.owner, rspMask), t0);
      answered := answered + Tokens(entry.owner, rspMask);
      asked := asked - Asks(tag, outs);
    }

    /** The next batch of the front request, if a table entry is free. */
    method SendRequest() returns (ghost cur: set<nat>)
      requires Valid()
      modifies this, pendingRdReqs
      ensures Valid()
      ensures unchanged(`accepted) && unchanged(`answered) && unchanged(`rspIn)
      ensures var blocked := old(reqIn == [] || pendingRdReqs.Full());
              if blocked then unchanged(this) && unchanged(pendingRdReqs)
              else Sent(old(reqIn), old(sentMask), old(reqOut), old(pendingRdReqs.entries), old(asked), old(batches), cur)
    {
      hide *;
      cur := {};
      ValidParts();
      if reqIn == [] || pendingRdReqs.Full() {
        return;
      }
      QueueFrontOk();
      cur := SendBatch();
    }

    lemma ValidParts()
      requires Valid()
      ensures c.Valid() && pendingRdReqs.Valid() && QueueOk() && Outstanding(c, pendingRdReqs.entries, asked)
      ensures accepted == answered + TableTokens(pendingRdReqs.entries) + WaitingTokens(reqIn, sentMask)
    {
    }

    lemma QueueFrontOk()
      requires c.Valid() && QueueOk() && reqIn != []
      ensures ReqOk(c, reqIn[0]) && Sends(c, reqIn[0], batches)
      ensures sentMask == Union(batches) && Union(batches) != reqIn[0].mask
    {
    }

    method SendBatch() returns (ghost cur: set<nat>)
      requires c.Valid() && pendingRdReqs.Valid() && QueueOk() && Outstanding(c, pendingRdReqs.entries, asked)
      requires accepted == answered + TableTokens(pendingRdReqs.entries) + WaitingTokens(reqIn, sentMask)
      requires reqIn != [] && ReqOk(c, reqIn[0]) && !pendingRdReqs.Full()
      modifies `reqIn, `sentMask, `batches, `reqOut, `asked, pendingRdReqs
      ensures Valid()
      ensures Sent(old(reqIn), old(sentMask), old(reqOut), old(pendingRdReqs.entries), old(asked), old(batches), cur)
    {
      hide *;
      QueueFrontOk();
      var r := reqIn[0];
      ghost var t0, w0 := TableTokens(pendingRdReqs.entries), WaitingTokens(reqIn, sentMask);
      var outMask, outAddrs, curMask := FindBatch(c, r, sentMask);
      cur := curMask;
      SendsDisjoint(c, r, batches);
      BatchNotEmpty(c, r, sentMask, outMask, outAddrs, curMask);
      Issue(r, outMask, outAddrs, curMask);
      ghost var t1 := TableTokens(pendingRdReqs.entries);
      Advance(curMask, outMask, outAddrs);
      MovedIn(accepted, answered, t0, w0, t1, WaitingTokens(reqIn, sentMask), ReadTokens(r, curMask));
      ValidFrom();
      SentFrom(old(reqIn), old(sentMask), old(reqOut), old(pendingRdReqs.entries), old(asked), old(batches),
               outMask, outAddrs, cur);
    }

    lemma ValidFrom()
      requires c.Valid() && pendingRdReqs.Valid() && QueueOk() && Outstanding(c, pendingRdReqs.entries, asked)
      requires accepted == answered + TableTokens(pendingRdReqs.entries) + WaitingTokens(reqIn, sentMask)
      ensures Valid()
    {
    }

    lemma SentFrom(reqIn0: seq<LsuReq>, sent0: set<nat>, reqOut0: seq<LsuReq>, e0: seq<Slot<nat>>, asked0: set<(nat, nat)>,
                   batches0: seq<set<nat>>, outMask: set<nat>, outAddrs: seq<nat>, cur: set<nat>)
      requires c.Valid() && reqIn0 != [] && ReqOk(c, reqIn0[0]) && cur != {} && Advanced(reqIn0, sent0, batches0, cur)
      requires Batch(c, reqIn0[0], sent0, c.outputs, outMask, outAddrs, cur)
      requires Issued(reqOut0, e0, asked0, reqIn0[0], outMask, outAddrs, cur)
      ensures Sent(reqIn0, sent0, reqOut0, e0, asked0, batches0, cur)
    {
    }

    /** Books the lanes of a read and sends the batch. */
    method Issue(r: LsuReq, outMask: set<nat>, outAddrs: seq<nat>, cur: set<nat>)
      requires c.Valid() && pendingRdReqs.Valid() && !pendingRdReqs.Full() && ReqOk(c, r) && cur != {}
      requires Batch(c, r, sentMask, c.outputs, outMask, outAddrs, cur) && Outstanding(c, pendingRdReqs.entries, asked)
      modifies this`reqOut, this`asked, pendingRdReqs
      ensures pendingRdReqs.Valid() && Outstanding(c, pendingRdReqs.entries, asked)
      ensures TableTokens(pendingRdReqs.entries)
           == TableTokens(old(pendingRdReqs.entries)) + ReadTokens(r, cur)
      ensures Issued(old(reqOut), old(pendingRdReqs.entries), old(asked), r, outMask, outAddrs, cur)
    {
      hide Block, Batch, ReqOk, TableTokens, Tokens, Outstanding;
      var tag := 0;
      if !r.write {
        ghost var e := pendingRdReqs.entries;
        tag := pendingRdReqs.Allocate(Pending(r.tag, cur));
        OutstandingMore(c, e, asked, tag, r.tag, r, sentMask, outMask, outAddrs, cur);
        asked := asked + Asks(tag, outMask);
      }
      reqOut := reqOut + [LsuReq(outMask, outAddrs, r.write, tag)];
    }

    ghost predicate Issued(reqOut0: seq<LsuReq>, e0: seq<Slot<nat>>, asked0: set<(nat, nat)>, r: LsuReq,
                           outMask: set<nat>, outAddrs: seq<nat>, cur: set<nat>)
      reads `reqOut, `asked, pendingRdReqs
    {
      exists tag: nat ::
        && reqOut == reqOut0 + [LsuReq(outMask, outAddrs, r.write, tag)]
        && if r.write then pendingRdReqs.entries == e0 && asked == asked0
           else tag < |e0| && e0[tag].Free?
                && pendingRdReqs.entries == e0[tag := Used(Pending(r.tag, cur))] && asked == asked0 + Asks(tag, outMask)
    }

    /** Marks the batch as sent; the request leaves the queue with its last batch. */
    method Advance(cur: set<nat>, ghost outMask: set<nat>, ghost outAddrs: seq<nat>)
      requires c.Valid() && QueueOk() && reqIn != []
      requires Batch(c, reqIn[0], sentMask, c.outputs, outMask, outAddrs, cur)
      modifies this`reqIn, this`sentMask, this`batches
      ensures QueueOk()
      ensures WaitingTokens(old(reqIn), old(sentMask))
           == WaitingTokens(reqIn, sentMask) + ReadTokens(old(reqIn)[0], cur)
      ensures Advanced(old(reqIn), old(sentMask), old(batches), cur)
    {
      hide *;
      var r := reqIn[0];
      ghost var q0, sent0, batches0 := reqIn, sentMask, batches;
      QueueFrontOk();
      SendsMore(c, r, batches, outMask, outAddrs, cur);
      ghost var sends := batches + [cur];
      BatchesPartition(c, r, sends);
      BatchWithin(c, r, sentMask, outMask, outAddrs, cur);
      QueueRest();
      WaitingLess(reqIn, sentMask, cur);
      sentMask := sentMask + cur;
      batches := sends;
      if sentMask == r.mask {
        reqIn := reqIn[1..];
        sentMask := {};
        batches := [];
        FreshRequest(c, r);
        if reqIn != [] { FreshRequest(c, reqIn[0]); }
      } else {
        LeftOver(c, r, batches);
      }
      QueueIs();
      AdvancedIs(q0, sent0, batches0, cur);
    }

    lemma QueueRest()
      requires c.Valid() && QueueOk() && reqIn != []
      ensures (forall i :: 0 <= i < |reqIn| ==> ReqOk(c, reqIn[i])) && forall i :: 0 <= i < |reqIn[1..]| ==> ReqOk(c, reqIn[1..][i])
    {
      hide ReqOk, Sends, Union;
    }

    lemma QueueIs()
      requires c.Valid() && forall i :: 0 <= i < |reqIn| ==> ReqOk(c, reqIn[i])
      requires if reqIn == [] then batches == [] else Sends(c, reqIn[0], batches) && Union(batches) != reqIn[0].mask
      requires sentMask == Union(batches)
      ensures QueueOk()
    {
    }

    lemma AdvancedIs(q0: seq<LsuReq>, sent0: set<nat>, batches0: seq<set<nat>>, cur: set<nat>)
      requires c.Valid() && q0 != [] && PairwiseDisjoint(batches0 + [cur]) && |batches0 + [cur]| <= c.ratio
      requires if sent0 + cur == q0[0].mask
               then reqIn == q0[1..] && sentMask == {} && batches == [] && Union(batches0 + [cur]) == q0[0].mask
               else reqIn == q0 && sentMask == sent0 + cur && batches == batches0 + [cur] && |batches| < c.ratio
      ensures Advanced(q0, sent0, batches0, cur)
    {
    }

    ghost predicate Advanced(reqIn0: seq<LsuReq>, sent0: set<nat>, batches0: seq<set<nat>>, cur: set<nat>)
      requires c.Valid() && reqIn0 != []
      reads `reqIn, `sentMask, `batches
    {
      && PairwiseDisjoint(batches0 + [cur]) && |batches0 + [cur]| <= c.ratio
      && if sent0 + cur == reqIn0[0].mask
         then reqIn == reqIn0[1..] && sentMask == {} && batches == [] && Union(batches0 + [cur]) == reqIn0[0].mask
         else reqIn == reqIn0 && sentMask == sent0 + cur && batches == batches0 + [cur] && |batches| < c.ratio
    }

    /** What sending a batch does. */
    ghost predicate Sent(reqIn0: seq<LsuReq>, sent0: set<nat>, reqOut0: seq<LsuReq>, e0: seq<Slot<nat>>,
                         asked0: set<(nat, nat)>, batches0: seq<set<nat>>, cur: set<nat>)
      requires c.Valid() && reqIn0 != [] && ReqOk(c, reqIn0[0])
      reads this, pendingRdReqs
    {
      && cur != {} && Advanced(reqIn0, sent0, batches0, cur)
      && exists outMask, outAddrs ::
           && Batch(c, reqIn0[0], sent0, c.outputs, outMask, outAddrs, cur)
           && Issued(reqOut0, e0, asked0, reqIn0[0], outMask, outAddrs, cur)
    }

    /** The table and the answers memory owes, once an answer has been taken. */
    ghost function TableAfter(rsp: Option<LsuRsp>): seq<Slot<nat>>
      reads this, pendingRdReqs
    {
      if rsp.None? || rsp.value.tag >= |pendingRdReqs.entries| || pendingRdReqs.entries[rsp.value.tag].Free? then pendingRdReqs.entries
      else Answered(c, pendingRdReqs.entries, rsp.value)
    }

    ghost function AskedAfter(rsp: Option<LsuRsp>): set<(nat, nat)>
      reads this
    {
      if rsp.None? then asked else asked - Asks(rsp.value.tag, rsp.value.mask)
    }

    ghost function Here(): Front
      reads this
    {
      Front(reqIn, batches)
    }

    /**
     One cycle: the answer at hand, if any, then the next batch, unless no request waits or the table is
     full even after the answer.
     */
    method Tick(rsp: Option<LsuRsp>) returns (blocked: bool, ghost cur: set<nat>)
      requires Valid() && (rsp.Some? ==> rsp.value.mask != {} && Asks(rsp.value.tag, rsp.value.mask) <= asked)
      modifies this, pendingRdReqs
      ensures Valid() && accepted == old(accepted)
      ensures if rsp.None? then rspIn == old(rspIn) && answered == old(answered)
              else |rspIn| == |old(rspIn)| + 1 && rspIn[..|old(rspIn)|] == old(rspIn)
                   && rspIn[|old(rspIn)|].mask != {}
                   && answered == old(answered) + Tokens(rspIn[|old(rspIn)|].tag, rspIn[|old(rspIn)|].mask)
      ensures var e := old(TableAfter(rsp));
              && (blocked <==> old(reqIn) == [] || UsedCount(e) == |e|)
              && if blocked then unchanged(`reqIn) && unchanged(`sentMask) && unchanged(`reqOut) && unchanged(`batches)
                                 && pendingRdReqs.entries == e && asked == old(AskedAfter(rsp))
                 else Sent(old(reqIn), old(sentMask), old(reqOut), e, old(AskedAfter(rsp)), old(batches), cur)
      ensures Moves(c, old(Here()), Here(), blocked)
    {
      hide *;
      ghost var h0, e0 := Here(), pendingRdReqs.entries;
      ghost var e, a := TableAfter(rsp), AskedAfter(rsp);
      AfterIs(rsp);
      HereIs();
      if rsp.Some? {
        HandleResponse(rsp.value);
        TableIs(rsp.value, e0, rspIn[|rspIn| - 1], e);
      }
      FullIs();
      FrontOk();
      blocked := reqIn == [] || pendingRdReqs.size == |pendingRdReqs.entries|;
      cur := SendRequest();
      HereIs();
      if !blocked { SentMoves(h0.reqIn, old(sentMask), old(reqOut), e, a, h0.batches, cur); }
      MovesIs(c, h0, Here());
    }

    lemma FullIs()
      requires Valid()
      ensures pendingRdReqs.Full() <==> pendingRdReqs.size == |pendingRdReqs.entries|
      ensures pendingRdReqs.size == UsedCount(pendingRdReqs.entries)
    {
    }

    lemma FrontOk()
      requires Valid()
      ensures reqIn != [] ==> ReqOk(c, reqIn[0])
    {
      hide ReqOk, Sends, Union, Outstanding;
    }

    lemma HereIs()
      ensures Here() == Front(reqIn, batches)
    {
    }

    /** What an answer will do to the table. */
    lemma AfterIs(rsp: Option<LsuRsp>)
      requires Valid() && (rsp.Some? ==> rsp.value.mask != {} && Asks(rsp.value.tag, rsp.value.mask) <= asked)
      ensures c.Valid() && (rsp.Some? ==> rsp.value.tag < |pendingRdReqs.entries| && pendingRdReqs.entries[rsp.value.tag].Used?)
      ensures TableAfter(rsp) == if rsp.None? then pendingRdReqs.entries else Answered(c, pendingRdReqs.entries, rsp.value)
      ensures AskedAfter(rsp) == if rsp.None? then asked else asked - Asks(rsp.value.tag, rsp.value.mask)
    {
      hide QueueOk, TableTokens, WaitingTokens, Outstanding, Asks, Block;
      if rsp.Some? {
        var k := AskedEntry(c, pendingRdReqs.entries, asked, rsp.value.tag, rsp.value.mask);
      }
    }

    lemma SentMoves(reqIn0: seq<LsuReq>, sent0: set<nat>, reqOut0: seq<LsuReq>, e0: seq<Slot<nat>>,
                    asked0: set<(nat, nat)>, batches0: seq<set<nat>>, cur: set<nat>)
      requires c.Valid() && reqIn0 != [] && ReqOk(c, reqIn0[0]) && Sent(reqIn0, sent0, reqOut0, e0, asked0, batches0, cur)
      ensures if reqIn == reqIn0[1..] then batches == [] else reqIn == reqIn0 && |batches| == |batches0| + 1 < c.ratio
    {
      hide ReqOk, Batch, Issued;
    }

    lemma TableIs(rsp: LsuRsp, e0: seq<Slot<nat>>, out: LsuRsp, e: seq<Slot<nat>>)
      requires c.Valid() && rsp.tag < |e0| && e0[rsp.tag].Used? && e == Answered(c, e0, rsp)
      requires forall i :: i in out.mask <==> i in e0[rsp.tag].value.mask && Block(c, i) in rsp.mask
      requires var p := e0[rsp.tag].value;
               pendingRdReqs.entries == e0[rsp.tag := if p.mask == out.mask then Free else Used(Pending(p.owner, p.mask - out.mask))]
      ensures pendingRdReqs.entries == e
    {
      hide Block;
      var p := e0[rsp.tag].value;
      assert p.mask - out.mask == set i | i in p.mask && Block(c, i) !in rsp.mask;
      assert out.mask <= p.mask;
      assert p.mask == (p.mask - out.mask) + out.mask;
    }

    /** Once memory owes nothing and no request waits, every lane read was answered exactly once. */
    lemma AllAnswered()
      requires Valid() && asked == {} && reqIn == []
      ensures answered == accepted
    {
      var e := pendingRdReqs.entries;
      forall t | 0 <= t < |e| ensures e[t].Free? {
        UsedAsks(c, e, asked, t);
      }
      UsedCountBounds(e);
      NoTokens(e);
    }
  }

  /** An answer memory owes is for a used entry that waits for a lane of it. */
  lemma AskedEntry(c: Config, e: seq<Slot<nat>>, asked: set<(nat, nat)>, t: nat, outs: set<nat>) returns (k: nat)
    requires c.Valid() && Outstanding(c, e, asked) && outs != {} && Asks(t, outs) <= asked
    ensures t < |e| && e[t].Used? && k in e[t].value.mask && Block(c, k) in outs
    ensures forall i :: i in e[t].value.mask ==> i < c.Inputs()
  {
    var o :| o in outs;
    assert (t, o) in Asks(t, outs);
    k :| k in Of(c, e[t].value.mask, o);
    assert LanesOk(c, e[t].value.mask);
  }

  lemma UsedAsks(c: Config, e: seq<Slot<nat>>, asked: set<(nat, nat)>, t: nat)
    requires c.Valid() && Outstanding(c, e, asked) && t < |e|
    ensures e[t].Used? ==> asked != {}
  {
    if e[t].Used? {
      var i :| i in e[t].value.mask;
      assert (t, Block(c, i)) in asked;
    }
  }

  lemma FreshRequest(c: Config, r: LsuReq)
    requires c.Valid() && ReqOk(c, r)
    ensures Sends(c, r, []) && Union([]) == {} != r.mask
  {
  }

  lemma Moved<X>(answered: multiset<X>, table: multiset<X>, waiting: multiset<X>, lanes: multiset<X>, table0: multiset<X>)
    requires table0 == table + lanes
    ensures answered + table0 + waiting == answered + lanes + table + waiting
  {
  }

  lemma MovedIn<X>(accepted: multiset<X>, answered: multiset<X>, table0: multiset<X>, waiting0: multiset<X>,
                   table: multiset<X>, waiting: multiset<X>, lanes: multiset<X>)
    requires accepted == answered + table0 + waiting0
    requires table == table0 + lanes && waiting0 == waiting + lanes
    ensures accepted == answered + table + waiting
  {
  }

  lemma BatchNotEmpty(c: Config, r: LsuReq, sent: set<nat>, outMask: set<nat>, outAddrs: seq<nat>, cur: set<nat>)
    requires c.Valid() && ReqOk(c, r) && Batch(c, r, sent, c.outputs, outMask, outAddrs, cur)
    requires sent <= r.mask && sent != r.mask
    ensures cur != {}
  {
    assert !(r.mask <= sent);
    var j :| j in r.mask && j !in sent;
    BlockLane(c, j);
    hide Block, Line;
    assert Block(c, j) in outMask;
  }

  lemma SendsMore(c: Config, r: LsuReq, batches: seq<set<nat>>, outMask: set<nat>, outAddrs: seq<nat>, cur: set<nat>)
    requires c.Valid() && ReqOk(c, r) && Sends(c, r, batches) && Union(batches) != r.mask
    requires Batch(c, r, Union(batches), c.outputs, outMask, outAddrs, cur)
    ensures Sends(c, r, batches + [cur]) && Union(batches + [cur]) == Union(batches) + cur
  {
    assert (batches + [cur])[..|batches|] == batches;
    hide Batch;
  }

  lemma BatchWithin(c: Config, r: LsuReq, sent: set<nat>, outMask: set<nat>, outAddrs: seq<nat>, cur: set<nat>)
    requires c.Valid() && ReqOk(c, r) && Batch(c, r, sent, c.outputs, outMask, outAddrs, cur)
    ensures cur <= r.mask - sent
  {
    hide Block, Line, FirstOf, ReqOk;
  }

  /** Sending a batch moves its tokens out of the queue. */
  lemma WaitingLess(q: seq<LsuReq>, sent: set<nat>, cur: set<nat>)
    requires q != [] && cur <= q[0].mask - sent
    ensures WaitingTokens(q, sent)
         == WaitingTokens(q, sent + cur) + ReadTokens(q[0], cur)
    ensures q[0].mask == sent + cur ==> WaitingTokens(q, sent + cur) == WaitingTokens(q[1..], {})
  {
    var r := q[0];
    TokensSplit(r.tag, r.mask - (sent + cur), cur);
    assert r.mask - sent == (r.mask - (sent + cur)) + cur;
    TokensNone(r.tag);
    QueueFront(q[1..]);
  }
}