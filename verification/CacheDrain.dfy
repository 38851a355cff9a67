/**
 The cache when no more requests come and memory answers every fill, in whatever order: it runs empty,
 and every request is answered exactly once.
 */
module CacheDrain {
  import opened CacheBank
  import opened CacheSim
  import opened CacheTraffic
  import Arith
  import CacheAddr

  // ---- What is left to do ----

  function Waiting(qs: seq<seq<CoreReq>>): nat { if qs == [] then 0 else |qs[0]| + Waiting(qs[1..]) }

  function WorkAll(banks: seq<Bank>): nat { if banks == [] then 0 else Work(banks[0].mshr) + WorkAll(banks[1..]) }

  lemma {:induction false} WaitingLess(a: seq<seq<CoreReq>>, b: seq<seq<CoreReq>>)
    requires |a| == |b| && forall p :: 0 <= p < |a| ==> b[p] == a[p] || (a[p] != [] && b[p] == a[p][1..])
    ensures if b == a then Waiting(b) == Waiting(a) else Waiting(b) < Waiting(a)
  {
    if a != [] {
      assert forall p :: 0 <= p < |a| - 1 ==> a[1..][p] == a[p + 1] && b[1..][p] == b[p + 1];
      WaitingLess(a[1..], b[1..]);
      assert a == [a[0]] + a[1..] && b == [b[0]] + b[1..];
    }
  }

  lemma {:induction false} WorkAllLess(a: seq<Bank>, b: seq<Bank>)
    requires |a| == |b| && forall k :: 0 <= k < |a| ==> Work(b[k].mshr) <= Work(a[k].mshr)
    ensures WorkAll(b) <= WorkAll(a)
    ensures (exists k :: 0 <= k < |a| && Work(b[k].mshr) < Work(a[k].mshr)) ==> WorkAll(b) < WorkAll(a)
  {
    hide Work;
    if a != [] {
      assert forall k :: 0 <= k < |a| - 1 ==> a[1..][k] == a[k + 1] && b[1..][k] == b[k + 1];
      WorkAllLess(a[1..], b[1..]);
      if k :| 0 <= k < |a| && Work(b[k].mshr) < Work(a[k].mshr) {
        if k > 0 { assert Work(b[1..][k - 1].mshr) < Work(a[1..][k - 1].mshr); }
      }
    }
  }

  // ---- One tick ----

  /** Work that is no core request leaves the bank with less to do, unless it was idle. */
  lemma BankWork(c: Config, b: Bank, mem: set<nat>, q: seq<nat>, p: Pipe)
    requires BankOk(c, b, mem, q) && p == Filled(Popped(c, b).1, q).0 && Processable(c, Popped(c, b).0, p)
    ensures var b' := Process(c, Popped(c, b).0, p).bank;
            if p == Idle then b' == b && FirstOf(b.mshr, Replay) == |b.mshr| && q == [] else Work(b'.mshr) < Work(b.mshr)
  {
    hide Inv, Work, StepFill;
    if FirstOf(b.mshr, Replay) < |b.mshr| {
      WorkUpdate(b.mshr, FirstOf(b.mshr, Replay), b.mshr[FirstOf(b.mshr, Replay)].(kind := Free));
    } else if q != [] {
      assert q[0] in Elems(q);
      FillWork(b, q[0]);
    }
  }

  lemma FillWork(b: Bank, id: nat)
    requires id < |b.mshr| && b.mshr[id].kind == Core
    requires b.mshr[id].req.setId < |b.sets| && b.mshr[id].line < |b.sets[b.mshr[id].req.setId]|
    ensures Work(StepFill(b, id).bank.mshr) < Work(b.mshr)
  {
    var r := Replayed(b.mshr, id);
    assert SlotWork(r[id]) < SlotWork(b.mshr[id]);
    WorkLess(b.mshr, r);
    hide Work;
  }

  /** No request waits and no bank holds anything. */
  predicate Quiet(banks: seq<Bank>, qs: seq<seq<CoreReq>>) {
    (forall b :: 0 <= b < |banks| ==> banks[b].size == 0) && forall p :: 0 <= p < |qs| ==> qs[p] == []
  }

  /** A tick as the cache makes it. */
  ghost predicate Ticked(g: CacheAddr.Geometry, c: Config, banks: seq<Bank>, rs: seq<seq<nat>>, qs: seq<seq<CoreReq>>,
                         banks': seq<Bank>, qs': seq<seq<CoreReq>>, pipes: seq<Pipe>, chosen: seq<int>)
  {
    && g.Valid() && |banks| == |rs| == |banks'| == |pipes| == |chosen| == Arith.Pow2(g.B) && |qs'| == |qs|
    && (forall b :: 0 <= b < |banks| ==>
          Processable(c, Popped(c, banks[b]).0, pipes[b]) && banks'[b] == Process(c, Popped(c, banks[b]).0, pipes[b]).bank)
    && Served(g, c, PoppedBanks(c, banks), EarlyWork(c, banks, rs), qs, |qs|, chosen, pipes, qs')
  }

  /** Ports give up their front request or nothing. */
  lemma PortsGive(g: CacheAddr.Geometry, c: Config, banks: seq<Bank>, rs: seq<seq<nat>>, qs: seq<seq<CoreReq>>,
                  banks': seq<Bank>, qs': seq<seq<CoreReq>>, pipes: seq<Pipe>, chosen: seq<int>)
    requires Ticked(g, c, banks, rs, qs, banks', qs', pipes, chosen)
    ensures forall p :: 0 <= p < |qs| ==> qs'[p] == qs[p] || (qs[p] != [] && qs'[p] == qs[p][1..])
    ensures qs' == qs ==> pipes == EarlyWork(c, banks, rs) && forall b :: 0 <= b < |chosen| ==> chosen[b] == -1
  {
    hide Popped, Process, Processable, Filled, Accepts, BankOf, ToBank;
    if qs' == qs {
      forall b | 0 <= b < |chosen| ensures chosen[b] == -1 {}
      forall b | 0 <= b < |pipes| ensures pipes[b] == EarlyWork(c, banks, rs)[b] {}
    }
  }

  /** When all banks are idle and none took a request, the requests that wait find a full MSHR. */
  lemma IdleMeans(g: CacheAddr.Geometry, c: Config, banks: seq<Bank>, rs: seq<seq<nat>>, qs: seq<seq<CoreReq>>,
                  banks': seq<Bank>, pipes: seq<Pipe>, chosen: seq<int>, p: nat)
    requires Ticked(g, c, banks, rs, qs, banks', qs, pipes, chosen) && p < |qs| && qs[p] != []
    requires forall b :: 0 <= b < |banks| ==> chosen[b] == -1 && EarlyWork(c, banks, rs)[b] == Idle
    ensures exists b :: 0 <= b < |banks| && Full(PoppedBanks(c, banks)[b])
  {
    hide Popped, Process, Processable, Filled, BankOf, ToBank, Full;
    BankExists(g, qs[p][0]);
    var b := BankOf(g, qs[p][0]);
    assert IsChosen(g, c, PoppedBanks(c, banks), EarlyWork(c, banks, rs)[b], qs, b, |qs|, chosen[b]);
    assert !Wants(g, c, PoppedBanks(c, banks), qs[p], p, b);
  }

  /**
   While anything waits or is held: a tick takes a request, or leaves the banks with less to do - given
   that memory has an answer queued whenever it owes one.
   */
  lemma TickProgress(g: CacheAddr.Geometry, c: Config, banks: seq<Bank>, mem: seq<set<nat>>, rs: seq<seq<nat>>,
                     qs: seq<seq<CoreReq>>, banks': seq<Bank>, qs': seq<seq<CoreReq>>, pipes: seq<Pipe>, chosen: seq<int>)
    requires Ticked(g, c, banks, rs, qs, banks', qs', pipes, chosen) && |mem| == |banks| && c.Valid()
    requires forall b :: 0 <= b < |banks| ==> BankOk(c, banks[b], mem[b], rs[b])
    requires (forall b :: 0 <= b < |mem| ==> mem[b] == {}) || exists b :: 0 <= b < |rs| && rs[b] != []
    requires !Quiet(banks, qs)
    ensures Waiting(qs') < Waiting(qs) || (Waiting(qs') == Waiting(qs) && WorkAll(banks') < WorkAll(banks))
  {
    hide *;
    Sizes(g, c, banks, rs, qs, banks', qs', pipes, chosen);
    PortsGive(g, c, banks, rs, qs, banks', qs', pipes, chosen);
    WaitingLess(qs, qs');
    if qs' == qs {
      forall b | 0 <= b < |banks|
        ensures if pipes[b] == Idle then banks'[b] == banks[b] && FirstOf(banks[b].mshr, Replay) == |banks[b].mshr| && rs[b] == []
                else Work(banks'[b].mshr) < Work(banks[b].mshr)
      {
        EarlyWorkIs(c, banks, rs, b);
        BankWork(c, banks[b], mem[b], rs[b], pipes[b]);
      }
      WorkAllLess(banks, banks');
      if forall b :: 0 <= b < |banks| ==> pipes[b] == Idle {
        NothingLeft(g, c, banks, mem, rs, qs, banks', pipes, chosen);
      }
    }
  }

  lemma Sizes(g: CacheAddr.Geometry, c: Config, banks: seq<Bank>, rs: seq<seq<nat>>, qs: seq<seq<CoreReq>>,
              banks': seq<Bank>, qs': seq<seq<CoreReq>>, pipes: seq<Pipe>, chosen: seq<int>)
    requires Ticked(g, c, banks, rs, qs, banks', qs', pipes, chosen)
    ensures g.Valid() && |banks| == |rs| == |banks'| == |pipes| == |chosen| == Arith.Pow2(g.B) && |qs'| == |qs|
    ensures forall b :: 0 <= b < |banks| ==>
      Processable(c, Popped(c, banks[b]).0, pipes[b]) && banks'[b] == Process(c, Popped(c, banks[b]).0, pipes[b]).bank
  {
    hide Popped, Process, Processable, Served, Filled;
  }

  lemma EarlyWorkIs(c: Config, banks: seq<Bank>, rs: seq<seq<nat>>, b: nat)
    requires |rs| == |banks| && b < |banks|
    ensures EarlyWork(c, banks, rs)[b] == Filled(Popped(c, banks[b]).1, rs[b]).0
  {
    hide Popped, Filled;
  }

  /** All banks idle, no request taken, nothing on the way from memory: nothing was left at all. */
  lemma NothingLeft(g: CacheAddr.Geometry, c: Config, banks: seq<Bank>, mem: seq<set<nat>>, rs: seq<seq<nat>>,
                    qs: seq<seq<CoreReq>>, banks': seq<Bank>, pipes: seq<Pipe>, chosen: seq<int>)
    requires Ticked(g, c, banks, rs, qs, banks', qs, pipes, chosen) && |mem| == |banks| == |rs| == |pipes| && c.Valid()
    requires forall b :: 0 <= b < |banks| ==> BankOk(c, banks[b], mem[b], rs[b])
    requires forall b :: 0 <= b < |banks| ==> pipes[b] == Idle && rs[b] == [] && FirstOf(banks[b].mshr, Replay) == |banks[b].mshr|
    requires (forall b :: 0 <= b < |mem| ==> mem[b] == {}) || exists b :: 0 <= b < |rs| && rs[b] != []
    ensures Quiet(banks, qs)
  {
    hide Ticked, BankOk, Served, Full, Inv, EarlyWork, PoppedBanks;
    forall b | 0 <= b < |banks| ensures banks[b].size == 0 && !Full(banks[b]) {
      BankEmpty(c, banks[b], mem[b], rs[b]);
    }
    PortsGive(g, c, banks, rs, qs, banks', qs, pipes, chosen);
    forall p | 0 <= p < |qs| ensures qs[p] == [] {
      if qs[p] != [] {
        Sizes(g, c, banks, rs, qs, banks', qs, pipes, chosen);
        forall b | 0 <= b < |banks| ensures PoppedBanks(c, banks)[b] == banks[b] { PoppedIs(c, banks, b); }
        IdleMeans(g, c, banks, rs, qs, banks', pipes, chosen, p);
        assert false;
      }
    }
  }

  lemma PoppedIs(c: Config, banks: seq<Bank>, b: nat)
    requires b < |banks| && FirstOf(banks[b].mshr, Replay) == |banks[b].mshr|
    ensures PoppedBanks(c, banks)[b] == banks[b]
  {
  }

  lemma BankEmpty(c: Config, b: Bank, mem: set<nat>, q: seq<nat>)
    requires BankOk(c, b, mem, q) && mem == {} && q == [] && FirstOf(b.mshr, Replay) == |b.mshr| && c.Valid()
    ensures b.size == 0 && !Full(b)
  {
    assert mem + Elems(q) == {};
    if b.size > 0 {
      NeverStuck(c, b, {});
    }
  }

  // ---- The answers the queues ask for ----

  function QueueAsks(g: CacheAddr.Geometry, c: Config, q: seq<CoreReq>, port: nat): multiset<Rsp>
    requires g.Valid()
  {
    if q == [] then multiset{} else multiset(Answer(c, ToBank(g, port, q[0]))) + QueueAsks(g, c, q[1..], port)
  }

  function PortAsks(g: CacheAddr.Geometry, c: Config, qs: seq<seq<CoreReq>>, limit: nat): multiset<Rsp>
    requires g.Valid() && limit <= |qs|
  {
    if limit == 0 then multiset{} else PortAsks(g, c, qs, limit - 1) + QueueAsks(g, c, qs[limit - 1], limit - 1)
  }

  lemma {:induction false} AsksTaken(g: CacheAddr.Geometry, c: Config, qs: seq<seq<CoreReq>>, qs': seq<seq<CoreReq>>, limit: nat)
    requires g.Valid() && limit <= |qs| == |qs'|
    requires forall p :: 0 <= p < |qs| ==> qs'[p] == qs[p] || (qs[p] != [] && qs'[p] == qs[p][1..])
    ensures PortAsks(g, c, qs, limit) == Taken(g, c, qs, qs', limit) + PortAsks(g, c, qs', limit)
  {
    hide Answer, ToBank;
    if limit > 0 {
      AsksTaken(g, c, qs, qs', limit - 1);
      var p := limit - 1;
      if qs'[p] != qs[p] { assert |qs'[p]| < |qs[p]|; }
    }
  }

  lemma {:induction false} AsksNone(g: CacheAddr.Geometry, c: Config, qs: seq<seq<CoreReq>>, limit: nat)
    requires g.Valid() && limit <= |qs| && forall p :: 0 <= p < |qs| ==> qs[p] == []
    ensures PortAsks(g, c, qs, limit) == multiset{}
  {
    if limit > 0 { AsksNone(g, c, qs, limit - 1); }
  }

  // ---- Running empty ----

  /** Memory answers one of the fills it owes, if any: the choice is its own. */
  method AnswerOne(cache: Cache)
    requires cache.Valid()
    modifies cache`memRsps, cache`inMemory
    ensures cache.Valid()
    ensures (forall b :: 0 <= b < |cache.inMemory| ==> cache.inMemory[b] == {})
            || exists b :: 0 <= b < |cache.memRsps| && cache.memRsps[b] != []
  {
    hide Owed, BankOk;
    if exists b :: 0 <= b < |cache.inMemory| && cache.inMemory[b] != {} {
      var b :| 0 <= b < |cache.inMemory| && cache.inMemory[b] != {};
      var id :| id in cache.inMemory[b];
      cache.MemoryAnswers(b, id);
      assert cache.memRsps[b] != [];
    }
  }

  /**
   With no more requests coming, and memory answering a fill in each tick while it owes one, the cache
   runs empty, and every request that was taken or queued has been answered exactly once.
   */
  method Drain(cache: Cache)
    requires cache.Valid()
    modifies cache
    ensures cache.Valid() && Quiet(cache.banks, cache.coreReqs)
    ensures cache.g.Valid() && old(cache.responses) <= cache.responses
    ensures multiset(cache.responses)
         == old(cache.accepted) + PortAsks(cache.g, cache.c, old(cache.coreReqs), |old(cache.coreReqs)|)
  {
    hide *;
    cache.Opened();
    ghost var all := cache.accepted + PortAsks(cache.g, cache.c, cache.coreReqs, |cache.coreReqs|);
    while !Quiet(cache.banks, cache.coreReqs)
      invariant cache.Valid() && cache.g.Valid() && old(cache.responses) <= cache.responses
      invariant all == cache.accepted + PortAsks(cache.g, cache.c, cache.coreReqs, |cache.coreReqs|)
      decreases Waiting(cache.coreReqs), WorkAll(cache.banks)
    {
      AnswerOne(cache);
      cache.Opened();
      ghost var banks, mem, rs, qs, acc := cache.banks, cache.inMemory, cache.memRsps, cache.coreReqs, cache.accepted;
      ghost var pipes, chosen;
      pipes, chosen := cache.Tick();
      cache.Opened();
      TickedIs(cache.g, cache.c, banks, rs, qs, cache.banks, cache.coreReqs, pipes, chosen);
      TickProgress(cache.g, cache.c, banks, mem, rs, qs, cache.banks, cache.coreReqs, pipes, chosen);
      PortsGive(cache.g, cache.c, banks, rs, qs, cache.banks, cache.coreReqs, pipes, chosen);
      AsksTaken(cache.g, cache.c, qs, cache.coreReqs, |qs|);
      Moved(acc, Taken(cache.g, cache.c, qs, cache.coreReqs, |qs|), PortAsks(cache.g, cache.c, cache.coreReqs, |qs|));
    }
    QuietMeans(cache.banks, cache.coreReqs);
    AsksNone(cache.g, cache.c, cache.coreReqs, |cache.coreReqs|);
    cache.AllAnswered();
    Moved(cache.accepted, multiset{}, multiset{});
  }

  lemma Moved<X>(a: multiset<X>, t: multiset<X>, q: multiset<X>)
    ensures a + (t + q) == a + t + q && a + multiset{} == a
  {
  }

  lemma QuietMeans(banks: seq<Bank>, qs: seq<seq<CoreReq>>)
    requires Quiet(banks, qs)
    ensures (forall b :: 0 <= b < |banks| ==> banks[b].size == 0) && forall p :: 0 <= p < |qs| ==> qs[p] == []
  {
  }

  lemma TickedIs(g: CacheAddr.Geometry, c: Config, banks: seq<Bank>, rs: seq<seq<nat>>, qs: seq<seq<CoreReq>>,
                 banks': seq<Bank>, qs': seq<seq<CoreReq>>, pipes: seq<Pipe>, chosen: seq<int>)
    requires g.Valid() && |banks| == |rs| == |banks'| == |pipes| == |chosen| == Arith.Pow2(g.B) && |qs'| == |qs|
    requires forall b :: 0 <= b < |banks| ==>
      Processable(c, Popped(c, banks[b]).0, pipes[b]) && banks'[b] == Process(c, Popped(c, banks[b]).0, pipes[b]).bank
    requires Served(g, c, PoppedBanks(c, banks), EarlyWork(c, banks, rs), qs, |qs|, chosen, pipes, qs')
    ensures Ticked(g, c, banks, rs, qs, banks', qs', pipes, chosen)
  {
    hide Popped, Process, Processable, Served, EarlyWork, PoppedBanks;
  }
}
