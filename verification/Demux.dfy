/**
 The demultiplexer in front of local memory: the lanes of a request that lie in the local memory
 window go there, all others to the data cache; answers come back from both sides.
 */
module Demux {
  import opened LaneTable
  import C = Coalescer

  /** The address windows; addresses outside both are global. */
  datatype Space = Space(ioBase: nat, ioEnd: nat, lmemEnabled: bool, lmemBase: nat, lmemSize: nat) {
    predicate Shared(addr: nat) {
      if ioBase <= addr < ioEnd then false
      else lmemEnabled && lmemBase <= addr && addr - lmemBase < lmemSize
    }
  }

  ghost function Reads(r: C.LsuReq): multiset<(nat, nat)> {
    if r.write then multiset{} else Tokens(r.tag, r.mask)
  }

  ghost function Asked(q: seq<C.LsuReq>): multiset<(nat, nat)> {
    if q == [] then multiset{} else Reads(q[0]) + Asked(q[1..])
  }

  ghost function Answers(q: seq<C.LsuRsp>): multiset<(nat, nat)> {
    if q == [] then multiset{} else Tokens(q[0].tag, q[0].mask) + Answers(q[1..])
  }

  lemma {:induction false} AskedMore(q: seq<C.LsuReq>, r: C.LsuReq)
    ensures Asked(q + [r]) == Asked(q) + Reads(r)
  {
    hide Reads;
    if q == [] {
      assert (q + [r])[1..] == [];
    } else {
      assert (q + [r])[1..] == q[1..] + [r];
      AskedMore(q[1..], r);
    }
  }

  lemma {:induction false} AnswersMore(q: seq<C.LsuRsp>, r: C.LsuRsp)
    ensures Answers(q + [r]) == Answers(q) + Tokens(r.tag, r.mask)
  {
    hide Tokens;
    if q == [] {
      assert (q + [r])[1..] == [];
    } else {
      assert (q + [r])[1..] == q[1..] + [r];
      AnswersMore(q[1..], r);
    }
  }

  ghost predicate ReqOk(lanes: nat, r: C.LsuReq) {
    |r.addrs| == lanes && forall i :: i in r.mask ==> i < lanes
  }

  /**
   part is r cut down to the lanes on one side, which is local memory for the addresses in its window that are
   no device registers; the addresses of other lanes are 0.
   */
  ghost predicate Side(lanes: nat, m: Space, r: C.LsuReq, shared: bool, part: C.LsuReq)
    requires ReqOk(lanes, r)
  {
    && part.write == r.write && part.tag == r.tag && |part.addrs| == lanes
    && (forall i ::
          i in part.mask <==>
            && i in r.mask
            && shared == (m.lmemEnabled && m.lmemBase <= r.addrs[i] < m.lmemBase + m.lmemSize && !(m.ioBase <= r.addrs[i] < m.ioEnd)))
    && forall i :: 0 <= i < lanes ==> part.addrs[i] == if i in part.mask then r.addrs[i] else 0
  }

  /** Every lane of a request is on exactly one side, so both sides together ask for what it asks. */
  lemma SidesShareReads(lanes: nat, m: Space, r: C.LsuReq, lmem: C.LsuReq, dc: C.LsuReq)
    requires ReqOk(lanes, r) && Side(lanes, m, r, true, lmem) && Side(lanes, m, r, false, dc)
    ensures lmem.mask !! dc.mask && lmem.mask + dc.mask == r.mask
    ensures Reads(r) == Reads(lmem) + Reads(dc)
  {
    assert lmem.mask + dc.mask == r.mask;
    TokensSplit(r.tag, lmem.mask, dc.mask);
  }

  method Split(lanes: nat, m: Space, r: C.LsuReq) returns (lmem: C.LsuReq, dc: C.LsuReq)
    requires ReqOk(lanes, r)
    ensures Side(lanes, m, r, true, lmem) && Side(lanes, m, r, false, dc)
  {
    dc := C.LsuReq({}, seq(lanes, _ => 0), r.write, r.tag);
    lmem := dc;
    var i := 0;
    while i < lanes
      invariant i <= lanes && |dc.addrs| == |lmem.addrs| == lanes
      invariant dc.write == lmem.write == r.write && dc.tag == lmem.tag == r.tag
      invariant forall k :: k in lmem.mask <==> k in r.mask && k < i && m.Shared(r.addrs[k])
      invariant forall k :: k in dc.mask <==> k in r.mask && k < i && !m.Shared(r.addrs[k])
      invariant forall k :: 0 <= k < lanes ==> lmem.addrs[k] == if k in lmem.mask then r.addrs[k] else 0
      invariant forall k :: 0 <= k < lanes ==> dc.addrs[k] == if k in dc.mask then r.addrs[k] else 0
    {
      if i in r.mask {
        if m.Shared(r.addrs[i]) {
          lmem := lmem.(mask := lmem.mask + {i}, addrs := lmem.addrs[i := r.addrs[i]]);
        } else {
          dc := dc.(mask := dc.mask + {i}, addrs := dc.addrs[i := r.addrs[i]]);
        }
      }
      i := i + 1;
    }
  }

  /** A request with no lane is not sent. */
  function Pushed(q: seq<C.LsuReq>, r: C.LsuReq): seq<C.LsuReq> { if r.mask != {} then q + [r] else q }

  lemma PushedIs(q: seq<C.LsuReq>, r: C.LsuReq)
    ensures Pushed(q, r) == if r.mask != {} then q + [r] else q
  {
  }

  function Front<T>(q: seq<T>): seq<T> { if q == [] then [] else [q[0]] }

  function Rest<T>(q: seq<T>): seq<T> { if q == [] then [] else q[1..] }

  class LocalMemDemux {
    const lanes: nat
    const space: Space
    var reqIn: seq<C.LsuReq>
    var rspIn: seq<C.LsuRsp>
    var reqLmem: seq<C.LsuReq>
    var reqDc: seq<C.LsuReq>
    var rspLmem: seq<C.LsuRsp>
    var rspDc: seq<C.LsuRsp>
    /** The lane reads taken in, and those each side still has to answer. */
    ghost var accepted: multiset<(nat, nat)>
    ghost var owedLmem: multiset<(nat, nat)>
    ghost var owedDc: multiset<(nat, nat)>

    /** Every lane read taken in is waiting, owed by one side, or answered. */
    ghost predicate Valid()
      reads this
    {
      && (forall k :: 0 <= k < |reqIn| ==> ReqOk(lanes, reqIn[k]))
      && Routed(reqLmem, true) && Routed(reqDc, false)
      && accepted == Asked(reqIn) + (owedLmem + Answers(rspLmem)) + (owedDc + Answers(rspDc)) + Answers(rspIn)
    }

    /** Every lane sent to this side belongs there. */
    ghost predicate Routed(q: seq<C.LsuReq>, shared: bool) {
      forall k, i :: 0 <= k < |q| && i in q[k].mask ==> i < |q[k].addrs| && space.Shared(q[k].addrs[i]) == shared
    }

    constructor (lanes: nat, space: Space)
      ensures Valid() && this.lanes == lanes && this.space == space
      ensures reqIn == reqLmem == reqDc == [] && rspIn == rspLmem == rspDc == []
      ensures accepted == owedLmem == owedDc == multiset{}
    {
      this.lanes, this.space := lanes, space;
      reqIn, reqLmem, reqDc, rspIn, rspLmem, rspDc := [], [], [], [], [], [];
      accepted, owedLmem, owedDc := multiset{}, multiset{}, multiset{};
    }

    method Submit(r: C.LsuReq)
      requires Valid() && ReqOk(lanes, r)
      modifies `reqIn, `accepted
      ensures Valid() && reqIn == old(reqIn) + [r] && accepted == old(accepted) + Reads(r)
    {
      hide Reads, Tokens, Asked, Answers;
      AskedMore(reqIn, r);
      reqIn := reqIn + [r];
      accepted := accepted + Reads(r);
    }

    /** Local memory answers reads it owes. */
    method LmemAnswers(rsp: C.LsuRsp)
      requires Valid() && Tokens(rsp.tag, rsp.mask) <= owedLmem
      modifies `rspLmem, `owedLmem
      ensures Valid() && rspLmem == old(rspLmem) + [rsp] && owedLmem == old(owedLmem) - Tokens(rsp.tag, rsp.mask)
    {
      hide Tokens, Asked, Answers;
      AnswersMore(rspLmem, rsp);
      rspLmem := rspLmem + [rsp];
      owedLmem := owedLmem - Tokens(rsp.tag, rsp.mask);
    }

    /** The data cache answers reads it owes. */
    method DcAnswers(rsp: C.LsuRsp)
      requires Valid() && Tokens(rsp.tag, rsp.mask) <= owedDc
      modifies `rspDc, `owedDc
      ensures Valid() && rspDc == old(rspDc) + [rsp] && owedDc == old(owedDc) - Tokens(rsp.tag, rsp.mask)
    {
      hide Tokens, Asked, Answers;
      AnswersMore(rspDc, rsp);
      rspDc := rspDc + [rsp];
      owedDc := owedDc - Tokens(rsp.tag, rsp.mask);
    }

    /** Both sides get the lanes that belong to them, and owe the reads among those. */
    ghost predicate PartsSent(r: C.LsuReq, reqLmem0: seq<C.LsuReq>, reqDc0: seq<C.LsuReq>,
                              owedLmem0: multiset<(nat, nat)>, owedDc0: multiset<(nat, nat)>)
      requires ReqOk(lanes, r)
      reads this
    {
      exists lmem, dc ::
        && Side(lanes, space, r, true, lmem) && Side(lanes, space, r, false, dc)
        && reqLmem == Pushed(reqLmem0, lmem) && reqDc == Pushed(reqDc0, dc)
        && owedLmem == owedLmem0 + Reads(lmem) && owedDc == owedDc0 + Reads(dc)
    }

    /** One answer of each side goes through unchanged, local memory first; then the front request is split. */
    method Tick()
      requires Valid()
      modifies this
      ensures Valid() && accepted == old(accepted)
      ensures rspIn == old(rspIn) + Front(old(rspLmem)) + Front(old(rspDc))
      ensures rspLmem == Rest(old(rspLmem)) && rspDc == Rest(old(rspDc))
      ensures reqIn == Rest(old(reqIn))
      ensures if old(reqIn) == [] then unchanged(`reqLmem) && unchanged(`reqDc) && unchanged(`owedLmem) && unchanged(`owedDc)
              else PartsSent(old(reqIn)[0], old(reqLmem), old(reqDc), old(owedLmem), old(owedDc))
    {
      hide PartsSent, Asked, Answers, ReqOk, Routed;
      ForwardLmem();
      ForwardDc();
      if reqIn != [] {
        SendParts();
      }
    }

    method ForwardLmem()
      requires Valid()
      modifies `rspIn, `rspLmem
      ensures Valid() && rspIn == old(rspIn) + Front(old(rspLmem)) && rspLmem == Rest(old(rspLmem))
    {
      hide Tokens, Asked, Answers, ReqOk, Routed;
      if rspLmem != [] {
        Forward(rspIn, rspLmem);
        ForwardedFirst(Asked(reqIn), owedLmem, Answers(rspLmem), owedDc + Answers(rspDc), Answers(rspIn),
                       Answers(rspLmem[1..]), Answers(rspIn + [rspLmem[0]]));
        rspIn := rspIn + [rspLmem[0]];
        rspLmem := rspLmem[1..];
      }
    }

    method ForwardDc()
      requires Valid()
      modifies `rspIn, `rspDc
      ensures Valid() && rspIn == old(rspIn) + Front(old(rspDc)) && rspDc == Rest(old(rspDc))
    {
      hide Tokens, Asked, Answers, ReqOk, Routed;
      if rspDc != [] {
        Forward(rspIn, rspDc);
        Forwarded(Asked(reqIn) + (owedLmem + Answers(rspLmem)), owedDc, Answers(rspDc), Answers(rspIn),
                  Answers(rspDc[1..]), Answers(rspIn + [rspDc[0]]));
        rspIn := rspIn + [rspDc[0]];
        rspDc := rspDc[1..];
      }
    }

    method SendParts()
      requires Valid() && reqIn != []
      modifies `reqIn, `reqLmem, `reqDc, `owedLmem, `owedDc
      ensures Valid() && reqIn == old(reqIn)[1..]
      ensures PartsSent(old(reqIn)[0], old(reqLmem), old(reqDc), old(owedLmem), old(owedDc))
    {
      hide *;
      ValidParts();
      var r := reqIn[0];
      var lmem, dc := Split(lanes, space, r);
      SidesShareReads(lanes, space, r, lmem, dc);
      RoutedMore(reqLmem, true, r, lmem);
      RoutedMore(reqDc, false, r, dc);
      AskedFront(reqIn);
      Parted(Asked(reqIn[1..]), Reads(r), Reads(lmem), Reads(dc), owedLmem, Answers(rspLmem), owedDc, Answers(rspDc));
      ghost var q, l, d, ol, od := reqIn, reqLmem, reqDc, owedLmem, owedDc;
      PushedIs(reqDc, dc);
      PushedIs(reqLmem, lmem);
      if dc.mask != {} {
        reqDc := reqDc + [dc];
      }
      if lmem.mask != {} {
        reqLmem := reqLmem + [lmem];
      }
      reqIn := reqIn[1..];
      owedLmem, owedDc := owedLmem + Reads(lmem), owedDc + Reads(dc);
      ValidAgain(q);
      PartsAre(r, lmem, dc, l, d, ol, od);
    }

    lemma ValidParts()
      requires Valid()
      ensures (forall k :: 0 <= k < |reqIn| ==> ReqOk(lanes, reqIn[k])) && Routed(reqLmem, true) && Routed(reqDc, false)
      ensures accepted == Asked(reqIn) + (owedLmem + Answers(rspLmem)) + (owedDc + Answers(rspDc)) + Answers(rspIn)
    {
    }

    lemma ValidAgain(q: seq<C.LsuReq>)
      requires q != [] && reqIn == q[1..] && forall k :: 0 <= k < |q| ==> ReqOk(lanes, q[k])
      requires Routed(reqLmem, true) && Routed(reqDc, false)
      requires accepted == Asked(reqIn) + (owedLmem + Answers(rspLmem)) + (owedDc + Answers(rspDc)) + Answers(rspIn)
      ensures Valid()
    {
      hide ReqOk, Routed, Asked, Answers;
    }

    lemma PartsAre(r: C.LsuReq, lmem: C.LsuReq, dc: C.LsuReq, reqLmem0: seq<C.LsuReq>, reqDc0: seq<C.LsuReq>,
                   owedLmem0: multiset<(nat, nat)>, owedDc0: multiset<(nat, nat)>)
      requires ReqOk(lanes, r) && Side(lanes, space, r, true, lmem) && Side(lanes, space, r, false, dc)
      requires reqLmem == Pushed(reqLmem0, lmem) && reqDc == Pushed(reqDc0, dc)
      requires owedLmem == owedLmem0 + Reads(lmem) && owedDc == owedDc0 + Reads(dc)
      ensures PartsSent(r, reqLmem0, reqDc0, owedLmem0, owedDc0)
    {
      hide ReqOk, Side, Reads, Pushed;
    }

    lemma RoutedMore(q: seq<C.LsuReq>, shared: bool, r: C.LsuReq, part: C.LsuReq)
      requires ReqOk(lanes, r) && Side(lanes, space, r, shared, part) && Routed(q, shared)
      ensures Routed(Pushed(q, part), shared)
    {
    }

    /** Once no request waits and both sides owe nothing, every lane read was answered exactly once. */
    lemma AllAnswered()
      requires Valid() && reqIn == [] && owedLmem == owedDc == multiset{} && rspLmem == rspDc == []
      ensures Answers(rspIn) == accepted
    {
    }
  }

  lemma Forward(to: seq<C.LsuRsp>, from: seq<C.LsuRsp>)
    requires from != []
    ensures Answers(to + [from[0]]) + Answers(from[1..]) == Answers(to) + Answers(from)
  {
    AnswersMore(to, from[0]);
  }

  lemma AskedFront(q: seq<C.LsuReq>)
    requires q != []
    ensures Asked(q) == Reads(q[0]) + Asked(q[1..])
  {
  }

  /** An answer moves from one queue to the other. */
  lemma Forwarded<X>(others: multiset<X>, owed: multiset<X>, from: multiset<X>, to: multiset<X>, from1: multiset<X>, to1: multiset<X>)
    requires to1 + from1 == to + from
    ensures others + (owed + from1) + to1 == others + (owed + from) + to
  {
    assert others + (owed + from1) + to1 == others + owed + (to1 + from1);
  }

  lemma ForwardedFirst<X>(a: multiset<X>, owed: multiset<X>, from: multiset<X>, other: multiset<X>, to: multiset<X>,
                          from1: multiset<X>, to1: multiset<X>)
    requires to1 + from1 == to + from
    ensures a + (owed + from1) + other + to1 == a + (owed + from) + other + to
  {
    assert a + (owed + from1) + other + to1 == a + owed + other + (to1 + from1);
  }

  /** The reads of a request move to the two sides. */
  lemma Parted<X>(rest: multiset<X>, r: multiset<X>, l: multiset<X>, d: multiset<X>,
                  owedL: multiset<X>, rspL: multiset<X>, owedD: multiset<X>, rspD: multiset<X>)
    requires r == l + d
    ensures (r + rest) + (owedL + rspL) + (owedD + rspD) == rest + ((owedL + l) + rspL) + ((owedD + d) + rspD)
  {
  }
}
