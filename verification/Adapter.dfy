/**
 The adapter between a request over many lanes and one memory port per lane.
 */
module Adapter {
  import opened LaneTable
  import C = Coalescer

  datatype MemReq = MemReq(addr: nat, write: bool, tag: nat)

  /** The (tag, lane) tokens of the answers queued at a lane's port. */
  ghost function QueueTokens(q: seq<nat>, lane: nat): multiset<(nat, nat)> {
    if q == [] then multiset{} else multiset{(q[0], lane)} + QueueTokens(q[1..], lane)
  }

  ghost function PortTokens(ports: seq<seq<nat>>): multiset<(nat, nat)> {
    if ports == [] then multiset{}
    else PortTokens(ports[..|ports| - 1]) + QueueTokens(ports[|ports| - 1], |ports| - 1)
  }

  /** Taking the front answer of a port takes its token. */
  lemma {:induction false} PopTokens(ports: seq<seq<nat>>, i: nat)
    requires i < |ports| && ports[i] != []
    ensures PortTokens(ports) == PortTokens(ports[i := ports[i][1..]]) + multiset{(ports[i][0], i)}
  {
    var n := |ports| - 1;
    var after := ports[i := ports[i][1..]];
    if i < n {
      PopTokens(ports[..n], i);
      assert after[..n] == ports[..n][i := ports[i][1..]];
      hide QueueTokens;
      Regroup(PortTokens(after[..n]), multiset{(ports[i][0], i)}, QueueTokens(ports[n], n));
    } else {
      assert after[..n] == ports[..n];
    }
  }

  class LsuMemAdapter {
    const lanes: nat
    var reqIn: seq<C.LsuReq>
    var reqOut: seq<seq<MemReq>>
    /** The tags of the answers waiting at each port. */
    var rspOut: seq<seq<nat>>
    var rspIn: seq<C.LsuRsp>

    ghost predicate Valid()
      reads this
    {
      && |reqOut| == |rspOut| == lanes
      && forall k :: 0 <= k < |reqIn| ==> |reqIn[k].addrs| == lanes && forall i :: i in reqIn[k].mask ==> i < lanes
    }

    constructor (lanes: nat)
      ensures Valid() && this.lanes == lanes && reqIn == [] && rspIn == []
    {
      this.lanes := lanes;
      reqIn, rspIn, reqOut, rspOut := [], [], seq(lanes, _ => []), seq(lanes, _ => []);
    }

    /** The port has an answer with this tag in front. */
    ghost predicate Fronts(q: seq<nat>, tag: nat) { q != [] && q[0] == tag }

    /**
     One answer leaves: that of the first port that has one, joined by every later port whose front
     answer has the same tag. No answer is lost or made up.
     */
    method TickResponses()
      requires Valid()
      modifies `rspOut, `rspIn
      ensures Valid()
      ensures (forall i :: 0 <= i < lanes ==> old(rspOut)[i] == []) ==> unchanged(this)
      ensures (exists i :: 0 <= i < lanes && old(rspOut)[i] != []) ==>
        && |rspIn| == |old(rspIn)| + 1 && rspIn[..|old(rspIn)|] == old(rspIn)
        && var rsp := rspIn[|old(rspIn)|];
        && rsp.mask != {} && PortTokens(old(rspOut)) == PortTokens(rspOut) + Tokens(rsp.tag, rsp.mask)
        && (forall i :: i in rsp.mask <==> 0 <= i < lanes && Fronts(old(rspOut)[i], rsp.tag))
        && forall i :: 0 <= i < lanes ==> rspOut[i] == if i in rsp.mask then old(rspOut)[i][1..] else old(rspOut)[i]
    {
      hide Tokens, PortTokens;
      var i := 0;
      while i < lanes
        invariant i <= lanes && forall k :: 0 <= k < i ==> rspOut[k] == []
      {
        if rspOut[i] == [] {
          i := i + 1;
          continue;
        }
        var tag := rspOut[i][0];
        var mask := Join(i, tag);
        rspIn := rspIn + [C.LsuRsp(mask, tag)];
        return;
      }
    }

    /** Takes the front answers with this tag from port i on. */
    method Join(i: nat, tag: nat) returns (mask: set<nat>)
      requires Valid() && i < lanes && Fronts(rspOut[i], tag)
      modifies `rspOut
      ensures |rspOut| == lanes && PortTokens(old(rspOut)) == PortTokens(rspOut) + Tokens(tag, mask)
      ensures forall k :: k in mask <==> i <= k < lanes && Fronts(old(rspOut)[k], tag)
      ensures forall k :: k in mask ==> k < lanes && old(rspOut)[k] != []
      ensures forall k :: 0 <= k < lanes ==> rspOut[k] == if k in mask then old(rspOut)[k][1..] else old(rspOut)[k]
    {
      hide Tokens, PortTokens;
      ghost var before := rspOut;
      TokensNone(tag);
      mask := {};
      var j := i;
      while j < lanes
        invariant i <= j <= lanes && |rspOut| == lanes
        invariant PortTokens(before) == PortTokens(rspOut) + Tokens(tag, mask)
        invariant forall k :: k in mask <==> i <= k < j && Fronts(before[k], tag)
        invariant forall k :: 0 <= k < lanes ==> rspOut[k] == if k in mask then before[k][1..] else before[k]
      {
        if rspOut[j] != [] && rspOut[j][0] == tag {
          PopTokens(rspOut, j);
          TokensOne(tag, j);
          TokensSplit(tag, mask, {j});
          Regroup(PortTokens(rspOut[j := rspOut[j][1..]]), multiset{(tag, j)}, Tokens(tag, mask));
          mask := mask + {j};
          rspOut := rspOut[j := rspOut[j][1..]];
        }
        j := j + 1;
      }
    }

    /** The front request goes to the ports of its lanes, each with its own address. */
    method TickRequests()
      requires Valid()
      modifies `reqIn, `reqOut
      ensures Valid()
      ensures old(reqIn) == [] ==> unchanged(this)
      ensures old(reqIn) != [] ==>
        var r := old(reqIn)[0];
        && reqIn == old(reqIn)[1..]
        && forall i :: 0 <= i < lanes ==>
             reqOut[i] == old(reqOut)[i] + (if i in r.mask then [MemReq(r.addrs[i], r.write, r.tag)] else [])
    {
      if reqIn == [] {
        return;
      }
      var r := reqIn[0];
      var i := 0;
      while i < lanes
        invariant i <= lanes && |reqOut| == lanes
        invariant forall k :: 0 <= k < lanes ==>
          reqOut[k] == old(reqOut)[k] + (if k < i && k in r.mask then [MemReq(r.addrs[k], r.write, r.tag)] else [])
        modifies `reqOut
      {
        if i in r.mask {
          reqOut := reqOut[i := reqOut[i] + [MemReq(r.addrs[i], r.write, r.tag)]];
        }
        i := i + 1;
      }
      reqIn := reqIn[1..];
    }
  }

  lemma TokensOne(tag: nat, i: nat)
    ensures Tokens(tag, {i}) == multiset{(tag, i)}
  {
  }

  lemma Regroup<X>(p: multiset<X>, x: multiset<X>, t: multiset<X>)
    ensures p + x + t == p + (t + x)
  {
  }
}
