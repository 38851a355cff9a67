/**
 The tick over all banks and ports: memory answers fills in any order, and requests and responses always balance.
 */
module CacheSim {
  import opened SeqEdits
  import opened CacheBank
  import opened CacheTraffic
  import Arith
  import CacheAddr
  import opened Wrappers

  /** What a bank does in a tick. */
  datatype Pipe = Idle | DoReplay(req: BankReq) | DoFill(id: nat) | DoCore(req: BankReq)

  // ---- The loops of the MSHR and of the tag lookup ----

  method MshrPop(m: seq<Slot>) returns (r: Option<BankReq>, m': seq<Slot>)
    ensures r == None <==> FirstOf(m, Replay) == |m|
    ensures r == None ==> m' == m
    ensures r.Some? ==> var i := FirstOf(m, Replay); r.value == m[i].req && m' == m[i := m[i].(kind := Free)]
  {
    for i := 0 to |m|
      invariant forall j :: 0 <= j < i ==> m[j].kind != Replay
    {
      if m[i].kind == Replay {
        return Some(m[i].req), m[i := m[i].(kind := Free)];
      }
    }
    return None, m;
  }

  method MshrLookup(m: seq<Slot>, req: BankReq) returns (r: bool)
    ensures r <==> Pending(m, req)
  {
    for i := 0 to |m|
      invariant forall j :: 0 <= j < i ==> !(m[j].kind != Free && SameLine(m[j].req, req))
    {
      if m[i].kind != Free && SameLine(m[i].req, req) {
        return true;
      }
    }
    return false;
  }

  /** The id of the new entry, or -1. */
  method MshrAllocate(m: seq<Slot>, req: BankReq, line: nat) returns (id: int, m': seq<Slot>)
    ensures id == -1 <==> FirstOf(m, Free) == |m|
    ensures id == -1 ==> m' == m
    ensures id != -1 ==> id == FirstOf(m, Free) && m' == m[id := Slot(Core, req, line)]
  {
    for i := 0 to |m|
      invariant forall j :: 0 <= j < i ==> m[j].kind != Free
    {
      if m[i].kind == Free {
        return i, m[i := Slot(Core, req, line)];
      }
    }
    return -1, m;
  }

  method MshrReplay(m: seq<Slot>, id: nat) returns (m': seq<Slot>)
    requires id < |m| && m[id].kind == Core
    ensures m' == Replayed(m, id)
  {
    m' := m;
    for i := 0 to |m|
      invariant |m'| == |m|
      invariant forall j :: 0 <= j < i ==> m'[j] == Replayed(m, id)[j]
      invariant forall j :: i <= j < |m| ==> m'[j] == m[j]
    {
      if m'[i].kind == Core && SameLine(m'[i].req, m[id].req) {
        m' := m'[i := m'[i].(kind := Replay)];
      }
    }
  }

  /** One more line in each of the three searches. */
  lemma LookupStep(s: seq<Line>, tag: nat, i: nat)
    requires i < |s|
    ensures HitLine(s[..i + 1], tag) == if Hits(s[i], tag) then i else if HitLine(s[..i], tag) == i then i + 1 else HitLine(s[..i], tag)
    ensures FreeLine(s[..i + 1]) == if !s[i].valid then i else if FreeLine(s[..i]) == i then i + 1 else FreeLine(s[..i])
    ensures OldestLine(s[..i + 1]) == if i == 0 then 0 else if s[OldestLine(s[..i])].lru < s[i].lru then i else OldestLine(s[..i])
  {
    assert s[..i + 1][..i] == s[..i];
  }

  /** The line that hits, a free one (each -1 when there is none), the oldest one, and the aged set. */
  method TagLookup(s: seq<Line>, tag: nat) returns (hitLine: int, freeLine: int, replLine: nat, s': seq<Line>)
    requires s != []
    ensures hitLine == (if HitLine(s, tag) < |s| then HitLine(s, tag) else -1)
    ensures freeLine == (if FreeLine(s) < |s| then FreeLine(s) else -1)
    ensures replLine == OldestLine(s) && s' == Aged(s, tag)
  {
    hide HitLine, FreeLine, OldestLine;
    hitLine, freeLine, replLine, s' := -1, -1, 0, s;
    var maxCnt := 0;
    for i := 0 to |s|
      invariant |s'| == |s| && replLine < |s|
      invariant forall j :: 0 <= j < i ==> s'[j] == Aged(s, tag)[j]
      invariant forall j :: i <= j < |s| ==> s'[j] == s[j]
      invariant hitLine == if HitLine(s[..i], tag) < i then HitLine(s[..i], tag) else -1
      invariant freeLine == if FreeLine(s[..i]) < i then FreeLine(s[..i]) else -1
      invariant i == 0 ==> replLine == 0 && maxCnt == 0
      invariant i > 0 ==> replLine == OldestLine(s[..i]) && maxCnt == s[replLine].lru
    {
      LookupStep(s, tag, i);
      if maxCnt < s'[i].lru {
        maxCnt := s'[i].lru;
        replLine := i;
      }
      if s'[i].valid {
        if s'[i].tag == tag {
          hitLine := i;
          s' := s'[i := s'[i].(lru := 0)];
        } else {
          s' := s'[i := s'[i].(lru := s'[i].lru + 1)];
        }
      } else {
        freeLine := i;
      }
    }
    assert s[..|s|] == s;
  }

  // ---- One bank, once its work for the tick is scheduled ----

  function Process(c: Config, b: Bank, p: Pipe): Result
    requires Processable(c, b, p)
  {
    match p
    case Idle => Result(b, [], [])
    case DoReplay(r) => Result(b, Answer(c, r), [])
    case DoFill(id) => StepFill(b, id)
    case DoCore(r) => StepCore(c, b, r)
  }

  predicate Processable(c: Config, b: Bank, p: Pipe) {
    match p
    case Idle => true
    case DoReplay(_) => true
    case DoFill(id) =>
      id < |b.mshr| && b.mshr[id].kind == Core && b.mshr[id].req.setId < |b.sets| && b.mshr[id].line < |b.sets[b.mshr[id].req.setId]|
    case DoCore(r) =>
      && r.setId < |b.sets| && b.sets[r.setId] != []
      && ((r.write && !c.writeBack) || FirstOf(b.mshr, Free) < |b.mshr|)
  }

  /** The state of a bank between scheduling and processing; out no longer holds the fill that was taken. */
  ghost predicate Scheduled(c: Config, b: Bank, out: set<nat>, p: Pipe) {
    match p
    case Idle => Inv(c, b, out)
    case DoReplay(_) => Inv(c, b, out)
    case DoFill(id) => id !in out && Inv(c, b, out + {id}) && !HasReplay(b.mshr)
    case DoCore(r) => Inv(c, b, out) && !HasReplay(b.mshr) && r.setId < c.numSets && Accepts(c, b, r)
  }

  function PipeOwes(c: Config, p: Pipe): multiset<Rsp> {
    match p
    case Idle => multiset{}
    case DoReplay(r) => multiset(Answer(c, r))
    case DoFill(_) => multiset{}
    case DoCore(r) => multiset(Answer(c, r))
  }

  function BankOwes(c: Config, b: Bank, p: Pipe): multiset<Rsp> { Held(c, b.mshr) + PipeOwes(c, p) }

  lemma ProcessKeeps(c: Config, b: Bank, out: set<nat>, p: Pipe)
    requires Scheduled(c, b, out, p)
    ensures Processable(c, b, p)
    ensures var o := Process(c, b, p);
            && Asked(o.reqs) !! out && Inv(c, o.bank, out + Asked(o.reqs))
            && BankOwes(c, b, p) == Held(c, o.bank.mshr) + multiset(o.rsps)
  {
    hide Inv, StepFill, StepCore, Held;
    match p
    case Idle => assert Asked([]) == {} && out + {} == out;
    case DoReplay(r) => assert Asked([]) == {} && out + {} == out;
    case DoFill(id) =>
      FillRootWaits(c, b, out + {id}, id);
      FillKeeps(c, b, out + {id}, id);
      FillConserves(c, b, id);
      assert out + {id} - {id} == out && out + {} == out;
      FillAsksNothing(b, id);
    case DoCore(r) =>
      CoreKeeps(c, b, out, r);
      CoreConserves(c, b, r);
  }

  lemma FillAsksNothing(b: Bank, id: nat)
    requires id < |b.mshr| && b.mshr[id].req.setId < |b.sets| && b.mshr[id].line < |b.sets[b.mshr[id].req.setId]|
    ensures StepFill(b, id).reqs == [] && Asked(StepFill(b, id).reqs) == {} && StepFill(b, id).rsps == []
  {
  }

  /** The switch over the kind of work in processBankRequests. */
  method ProcessBank(c: Config, b: Bank, p: Pipe) returns (b': Bank, rsps: seq<Rsp>, reqs: seq<LineReq>)
    requires Processable(c, b, p)
    ensures Result(b', rsps, reqs) == Process(c, b, p)
  {
    b', rsps, reqs := b, [], [];
    match p
    case Idle =>
    case DoReplay(r) =>
      if !r.write || c.writeResponse {
        rsps := [Rsp(r.reqId, r.reqTag)];
      }
    case DoFill(id) =>
      var entry := b.mshr[id];
      var m := MshrReplay(b.mshr, id);
      var set_ := b.sets[entry.req.setId];
      var line := set_[entry.line].(valid := true, tag := entry.req.tag);
      b' := b.(mshr := m, sets := b.sets[entry.req.setId := set_[entry.line := line]]);
    case DoCore(r) =>
      b', rsps, reqs := ProcessCore(c, b, r);
  }

  method ProcessCore(c: Config, b: Bank, r: BankReq) returns (b': Bank, rsps: seq<Rsp>, reqs: seq<LineReq>)
    requires Processable(c, b, DoCore(r))
    ensures Result(b', rsps, reqs) == StepCore(c, b, r)
  {
    hide HitLine, FreeLine, OldestLine, Aged, Pending;
    rsps, reqs := [], [];
    var hitLine, freeLine, replLine, set_ := TagLookup(b.sets[r.setId], r.tag);
    if hitLine != -1 {
      if r.write {
        if !c.writeBack {
          reqs := [LineReq(r.setId, r.tag, true, 0)];
        } else {
          set_ := set_[hitLine := set_[hitLine].(dirty := true)];
        }
      }
      b' := b.(sets := b.sets[r.setId := set_]);
      if !r.write || c.writeResponse {
        rsps := [Rsp(r.reqId, r.reqTag)];
      }
    } else {
      b' := b.(sets := b.sets[r.setId := set_]);
      if freeLine == -1 && c.writeBack {
        AgedKeepsLine(b.sets[r.setId], r.tag, replLine);
        if set_[replLine].dirty {
          reqs := [LineReq(r.setId, set_[replLine].tag, true, 0)];
        }
      }
      if r.write && !c.writeBack {
        reqs := reqs + [LineReq(r.setId, r.tag, true, 0)];
        if c.writeResponse {
          rsps := [Rsp(r.reqId, r.reqTag)];
        }
      } else {
        var mshrPending := MshrLookup(b.mshr, r);
        var mshrId, m := MshrAllocate(b.mshr, r, if freeLine != -1 then freeLine else replLine);
        b' := b'.(mshr := m, size := b.size + 1);
        if !mshrPending {
          reqs := reqs + [LineReq(r.setId, r.tag, false, mshrId)];
        }
      }
    }
  }

  lemma AgedKeepsLine(s: seq<Line>, tag: nat, i: nat)
    requires i < |s|
    ensures Aged(s, tag)[i].dirty == s[i].dirty && Aged(s, tag)[i].tag == s[i].tag
  {
  }

  // ---- All banks ----

  /** The responses that all banks and their scheduled work owe. */
  function Owed(c: Config, banks: seq<Bank>, pipes: seq<Pipe>): multiset<Rsp>
    requires |banks| == |pipes|
  {
    if banks == [] then multiset{} else BankOwes(c, banks[0], pipes[0]) + Owed(c, banks[1..], pipes[1..])
  }

  lemma {:induction false} OwedUpdate(c: Config, banks: seq<Bank>, pipes: seq<Pipe>, k: nat, b: Bank, p: Pipe)
    requires |banks| == |pipes| && k < |banks|
    ensures Owed(c, banks[k := b], pipes[k := p]) + BankOwes(c, banks[k], pipes[k]) == Owed(c, banks, pipes) + BankOwes(c, b, p)
  {
    hide BankOwes;
    if k == 0 {
      assert banks[k := b][1..] == banks[1..] && pipes[k := p][1..] == pipes[1..];
    } else {
      assert banks[k := b][1..] == banks[1..][k - 1 := b] && pipes[k := p][1..] == pipes[1..][k - 1 := p];
      OwedUpdate(c, banks[1..], pipes[1..], k - 1, b, p);
      SwapSums(BankOwes(c, banks[0], pipes[0]), Owed(c, banks[1..][k - 1 := b], pipes[1..][k - 1 := p]),
               BankOwes(c, banks[k], pipes[k]), Owed(c, banks[1..], pipes[1..]), BankOwes(c, b, p));
    }
  }

  /** Work that owes the same keeps the sum. */
  lemma OwedReplaced(c: Config, banks: seq<Bank>, pipes: seq<Pipe>, k: nat, b: Bank, p: Pipe)
    requires |banks| == |pipes| && k < |banks| && BankOwes(c, b, p) == BankOwes(c, banks[k], pipes[k])
    ensures Owed(c, banks[k := b], pipes[k := p]) == Owed(c, banks, pipes)
  {
    hide BankOwes, Owed;
    OwedUpdate(c, banks, pipes, k, b, p);
    Cancel(Owed(c, banks[k := b], pipes[k := p]), Owed(c, banks, pipes), BankOwes(c, b, p));
  }

  lemma Cancel<T>(x: multiset<T>, y: multiset<T>, o: multiset<T>)
    requires x + o == y + o
    ensures x == y
  {
    assert x == (x + o) - o && y == (y + o) - o;
  }

  function Idles(n: nat): (p: seq<Pipe>)
    ensures |p| == n && forall b :: 0 <= b < n ==> p[b] == Idle
  {
    seq(n, b => Idle)
  }

  /** A bank after the first stage: the first replay, if there is one, has left the MSHR. */
  function Popped(c: Config, b: Bank): (Bank, Pipe) {
    var i := FirstOf(b.mshr, Replay);
    if i < |b.mshr| then (StepReplay(c, b).bank, DoReplay(b.mshr[i].req)) else (b, Idle)
  }

  lemma PoppedOwes(c: Config, b: Bank)
    ensures BankOwes(c, b, Idle) == BankOwes(c, Popped(c, b).0, Popped(c, b).1)
  {
    if FirstOf(b.mshr, Replay) < |b.mshr| { ReplayConserves(c, b); }
  }

  /** First stage: schedule MSHR replay. */
  method ScheduleReplays(c: Config, banks: seq<Bank>) returns (banks': seq<Bank>, pipes: seq<Pipe>)
    ensures |banks'| == |pipes| == |banks|
    ensures forall b :: 0 <= b < |banks| ==> (banks'[b], pipes[b]) == Popped(c, banks[b])
    ensures Owed(c, banks', pipes) == Owed(c, banks, Idles(|banks|))
  {
    hide Popped, Owed, BankOwes;
    banks', pipes := banks, Idles(|banks|);
    for b := 0 to |banks|
      invariant |banks'| == |pipes| == |banks|
      invariant forall k :: 0 <= k < b ==> (banks'[k], pipes[k]) == Popped(c, banks[k])
      invariant forall k :: b <= k < |banks| ==> banks'[k] == banks[k] && pipes[k] == Idle
      invariant Owed(c, banks', pipes) == Owed(c, banks, Idles(|banks|))
    {
      var r, m := MshrPop(banks'[b].mshr);
      var bank, pipe := banks'[b], Idle;
      if r.Some? {
        bank, pipe := bank.(mshr := m, size := bank.size - 1), DoReplay(r.value);
      }
      PopIsPopped(c, banks[b], r, m);
      PoppedOwes(c, banks[b]);
      OwedReplaced(c, banks', pipes, b, bank, pipe);
      banks', pipes := banks'[b := bank], pipes[b := pipe];
    }
  }

  lemma PopIsPopped(c: Config, b: Bank, r: Option<BankReq>, m: seq<Slot>)
    requires r == None <==> FirstOf(b.mshr, Replay) == |b.mshr|
    requires r.Some? ==> var i := FirstOf(b.mshr, Replay); r.value == b.mshr[i].req && m == b.mshr[i := b.mshr[i].(kind := Free)]
    ensures Popped(c, b) == if r.Some? then (b.(mshr := m, size := b.size - 1), DoReplay(r.value)) else (b, Idle)
  {
  }

  /** The work of a bank after the second stage, from the answers that memory has queued for it. */
  function Filled(p: Pipe, rsps: seq<nat>): (Pipe, seq<nat>) {
    if rsps != [] && p == Idle then (DoFill(rsps[0]), rsps[1..]) else (p, rsps)
  }

  /** Second stage: schedule memory fill. */
  method ScheduleFills(c: Config, banks: seq<Bank>, pipes: seq<Pipe>, memRsps: seq<seq<nat>>)
    returns (pipes': seq<Pipe>, memRsps': seq<seq<nat>>)
    requires |banks| == |pipes| == |memRsps|
    ensures |pipes'| == |memRsps'| == |pipes|
    ensures forall b :: 0 <= b < |pipes| ==> (pipes'[b], memRsps'[b]) == Filled(pipes[b], memRsps[b])
    ensures Owed(c, banks, pipes') == Owed(c, banks, pipes)
  {
    hide Owed;
    pipes', memRsps' := pipes, memRsps;
    for b := 0 to |pipes|
      invariant |pipes'| == |memRsps'| == |pipes|
      invariant forall k :: 0 <= k < b ==> (pipes'[k], memRsps'[k]) == Filled(pipes[k], memRsps[k])
      invariant forall k :: b <= k < |pipes| ==> pipes'[k] == pipes[k] && memRsps'[k] == memRsps[k]
      invariant Owed(c, banks, pipes') == Owed(c, banks, pipes)
    {
      if memRsps'[b] != [] {
        if pipes'[b] == Idle {
          OwedReplaced(c, banks, pipes', b, banks[b], DoFill(memRsps'[b][0]));
          assert banks[b := banks[b]] == banks;
          pipes' := pipes'[b := DoFill(memRsps'[b][0])];
          memRsps' := memRsps'[b := memRsps'[b][1..]];
        }
      }
    }
  }

  // ---- Core requests ----

  /** The front request of a port is for bank b, and the bank would take it. */
  predicate Wants(g: CacheAddr.Geometry, c: Config, banks: seq<Bank>, q: seq<CoreReq>, port: nat, b: nat)
    requires g.Valid() && b < |banks|
  {
    q != [] && BankOf(g, q[0]) == b && Accepts(c, banks[b], ToBank(g, port, q[0]))
  }

  /** chosen[b] is the first port that wants idle bank b, up to a port limit, or -1. */
  ghost predicate IsChosen(g: CacheAddr.Geometry, c: Config, banks: seq<Bank>, p: Pipe, qs: seq<seq<CoreReq>>, b: nat, limit: nat, chosen: int)
    requires g.Valid() && b < |banks| && limit <= |qs|
  {
    if chosen == -1 then p == Idle ==> forall k :: 0 <= k < limit ==> !Wants(g, c, banks, qs[k], k, b)
    else
      && p == Idle && 0 <= chosen < limit && Wants(g, c, banks, qs[chosen], chosen, b)
      && forall k :: 0 <= k < chosen ==> !Wants(g, c, banks, qs[k], k, b)
  }

  /** The ports below the limit have been served: banks got their chosen request, whose port gave it up. */
  ghost predicate Served(g: CacheAddr.Geometry, c: Config, banks: seq<Bank>, pipes: seq<Pipe>, qs: seq<seq<CoreReq>>,
                         limit: nat, chosen: seq<int>, pipes': seq<Pipe>, qs': seq<seq<CoreReq>>)
    requires g.Valid() && limit <= |qs|
    requires |pipes| == |pipes'| == |chosen| == |banks| && |qs'| == |qs|
  {
    && (forall b :: 0 <= b < |banks| ==> IsChosen(g, c, banks, pipes[b], qs, b, limit, chosen[b]))
    && (forall b :: 0 <= b < |banks| ==>
          pipes'[b] == if chosen[b] >= 0 then DoCore(ToBank(g, chosen[b], qs[chosen[b]][0])) else pipes[b])
    && (forall p :: 0 <= p < |qs| ==>
          qs'[p] == if p < limit && qs[p] != [] && BankOf(g, qs[p][0]) < |banks| && chosen[BankOf(g, qs[p][0])] == p
                    then qs[p][1..] else qs[p])
  }

  /** The responses that the requests taken from the first ports ask for. */
  function Taken(g: CacheAddr.Geometry, c: Config, qs: seq<seq<CoreReq>>, qs': seq<seq<CoreReq>>, limit: nat): multiset<Rsp>
    requires g.Valid() && limit <= |qs| == |qs'|
  {
    if limit == 0 then multiset{}
    else
      Taken(g, c, qs, qs', limit - 1)
      + if qs[limit - 1] != [] && qs'[limit - 1] != qs[limit - 1] then multiset(Answer(c, ToBank(g, limit - 1, qs[limit - 1][0]))) else multiset{}
  }

  lemma {:induction false} TakenSame(g: CacheAddr.Geometry, c: Config, qs: seq<seq<CoreReq>>, a: seq<seq<CoreReq>>, b: seq<seq<CoreReq>>, limit: nat)
    requires g.Valid() && limit <= |qs| == |a| == |b| && forall p :: 0 <= p < limit ==> a[p] == b[p]
    ensures Taken(g, c, qs, a, limit) == Taken(g, c, qs, b, limit)
  {
    if limit > 0 { TakenSame(g, c, qs, a, b, limit - 1); }
  }

  /** Last stage: schedule core requests. */
  method ScheduleCore(g: CacheAddr.Geometry, c: Config, banks: seq<Bank>, pipes: seq<Pipe>, qs: seq<seq<CoreReq>>)
    returns (pipes': seq<Pipe>, qs': seq<seq<CoreReq>>, ghost chosen: seq<int>)
    requires g.Valid() && |banks| == |pipes| == Arith.Pow2(g.B)
    ensures |pipes'| == |chosen| == |pipes| && |qs'| == |qs|
    ensures Served(g, c, banks, pipes, qs, |qs|, chosen, pipes', qs')
    ensures Owed(c, banks, pipes') == Owed(c, banks, pipes) + Taken(g, c, qs, qs', |qs|)
  {
    hide Owed, Taken, Served, BankOf, ToBank;
    pipes', qs', chosen := pipes, qs, seq(|pipes|, b => -1);
    TakenNone(g, c, qs, qs');
    ServedNone(g, c, banks, pipes, qs, chosen);
    for port := 0 to |qs|
      invariant |pipes'| == |chosen| == |pipes| && |qs'| == |qs|
      invariant forall p :: port <= p < |qs| ==> qs'[p] == qs[p]
      invariant Served(g, c, banks, pipes, qs, port, chosen, pipes', qs')
      invariant Owed(c, banks, pipes') == Owed(c, banks, pipes) + Taken(g, c, qs, qs', port)
    {
      if qs'[port] != [] {
        var coreReq := qs'[port][0];
        BankExists(g, coreReq);
        var bankId := BankOf(g, coreReq);
        var req := ToBank(g, port, coreReq);
        ToBankWrites(g, port, coreReq);
        // The bank must be idle and have room for a miss.
        if pipes'[bankId] == Idle && !((!coreReq.write || c.writeBack) && Full(banks[bankId])) {
          OwedTaken(c, banks, pipes', bankId, req);
          TakenMore(g, c, qs, qs', port);
          ServedTake(g, c, banks, pipes, qs, port, chosen, pipes', qs');
          pipes' := pipes'[bankId := DoCore(req)];
          qs' := qs'[port := qs'[port][1..]];
          chosen := chosen[bankId := port];
        } else {
          NotTaken(g, c, qs, qs', port);
          ServedSkip(g, c, banks, pipes, qs, port, chosen, pipes', qs');
        }
      } else {
        NotTaken(g, c, qs, qs', port);
        ServedSkip(g, c, banks, pipes, qs, port, chosen, pipes', qs');
      }
    }
  }

  lemma BankExists(g: CacheAddr.Geometry, r: CoreReq)
    requires g.Valid()
    ensures BankOf(g, r) < Arith.Pow2(g.B)
  {
    CacheAddr.FieldsOf(g, r.addr);
  }

  lemma ToBankWrites(g: CacheAddr.Geometry, port: nat, r: CoreReq)
    requires g.Valid()
    ensures ToBank(g, port, r).write == r.write
  {
  }

  lemma ServedNone(g: CacheAddr.Geometry, c: Config, banks: seq<Bank>, pipes: seq<Pipe>, qs: seq<seq<CoreReq>>, chosen: seq<int>)
    requires g.Valid() && |pipes| == |chosen| == |banks| && forall b :: 0 <= b < |chosen| ==> chosen[b] == -1
    ensures Served(g, c, banks, pipes, qs, 0, chosen, pipes, qs)
  {
  }

  lemma TakenNone(g: CacheAddr.Geometry, c: Config, qs: seq<seq<CoreReq>>, qs': seq<seq<CoreReq>>)
    requires g.Valid() && |qs| == |qs'|
    ensures Taken(g, c, qs, qs', 0) == multiset{}
  {
  }

  lemma NotTaken(g: CacheAddr.Geometry, c: Config, qs: seq<seq<CoreReq>>, qs': seq<seq<CoreReq>>, port: nat)
    requires g.Valid() && port < |qs| == |qs'| && qs'[port] == qs[port]
    ensures Taken(g, c, qs, qs', port + 1) == Taken(g, c, qs, qs', port)
  {
  }

  lemma TakenMore(g: CacheAddr.Geometry, c: Config, qs: seq<seq<CoreReq>>, qs': seq<seq<CoreReq>>, port: nat)
    requires g.Valid() && port < |qs| == |qs'| && qs'[port] == qs[port] != []
    ensures Taken(g, c, qs, qs'[port := qs[port][1..]], port + 1)
         == Taken(g, c, qs, qs', port) + multiset(Answer(c, ToBank(g, port, qs[port][0])))
  {
    var q := qs'[port := qs[port][1..]];
    assert |q[port]| < |qs[port]|;
    TakenSame(g, c, qs, qs', q, port);
  }

  lemma OwedTaken(c: Config, banks: seq<Bank>, pipes: seq<Pipe>, b: nat, r: BankReq)
    requires |banks| == |pipes| && b < |banks| && pipes[b] == Idle
    ensures Owed(c, banks, pipes[b := DoCore(r)]) == Owed(c, banks, pipes) + multiset(Answer(c, r))
  {
    hide Owed, Held, Answer;
    OwedUpdate(c, banks, pipes, b, banks[b], DoCore(r));
    assert banks[b := banks[b]] == banks;
    CancelMiddle(Owed(c, banks, pipes[b := DoCore(r)]), Owed(c, banks, pipes), Held(c, banks[b].mshr), multiset(Answer(c, r)));
  }

  lemma CancelMiddle<T>(x: multiset<T>, y: multiset<T>, h: multiset<T>, a: multiset<T>)
    requires x + (h + multiset{}) == y + (h + a)
    ensures x == y + a
  {
    assert h + multiset{} == h && y + (h + a) == (y + a) + h;
    Cancel(x, y + a, h);
  }

  /** A port whose request nobody took: its bank is busy or the MSHR of its bank is full. */
  lemma ServedSkip(g: CacheAddr.Geometry, c: Config, banks: seq<Bank>, pipes: seq<Pipe>, qs: seq<seq<CoreReq>>,
                   port: nat, chosen: seq<int>, pipes': seq<Pipe>, qs': seq<seq<CoreReq>>)
    requires g.Valid() && port < |qs| && |pipes| == |pipes'| == |chosen| == |banks| && |qs'| == |qs|
    requires Served(g, c, banks, pipes, qs, port, chosen, pipes', qs')
    requires qs[port] != [] ==>
               var b := BankOf(g, qs[port][0]);
               b < |banks| && (pipes'[b] != Idle || !Accepts(c, banks[b], ToBank(g, port, qs[port][0])))
    ensures Served(g, c, banks, pipes, qs, port + 1, chosen, pipes', qs')
  {
    hide Accepts, BankOf, ToBank;
  }

  lemma ServedTake(g: CacheAddr.Geometry, c: Config, banks: seq<Bank>, pipes: seq<Pipe>, qs: seq<seq<CoreReq>>,
                   port: nat, chosen: seq<int>, pipes': seq<Pipe>, qs': seq<seq<CoreReq>>)
    requires g.Valid() && port < |qs| && |pipes| == |pipes'| == |chosen| == |banks| && |qs'| == |qs|
    requires Served(g, c, banks, pipes, qs, port, chosen, pipes', qs') && qs[port] != []
    requires var b := BankOf(g, qs[port][0]);
             b < |banks| && pipes'[b] == Idle && Accepts(c, banks[b], ToBank(g, port, qs[port][0]))
    ensures var b, r := BankOf(g, qs[port][0]), ToBank(g, port, qs[port][0]);
            Served(g, c, banks, pipes, qs, port + 1, chosen[b := port], pipes'[b := DoCore(r)], qs'[port := qs[port][1..]])
  {
    hide Accepts, BankOf, ToBank;
  }

  // ---- From one tick boundary to the next ----

  function Elems(q: seq<nat>): set<nat> { set id | id in q }

  /** Between ticks: the fills of a bank are in memory or queued for it, each once. */
  ghost predicate BankOk(c: Config, b: Bank, mem: set<nat>, q: seq<nat>) {
    Inv(c, b, mem + Elems(q)) && mem !! Elems(q) && Distinct(q)
  }

  /** The work a bank ends up with, given the core request that was chosen for it. */
  ghost predicate WorkOf(c: Config, b: Bank, p: Pipe, p': Pipe) {
    p' == p || (p == Idle && p'.DoCore? && p'.req.setId < c.numSets && Accepts(c, b, p'.req))
  }

  lemma ScheduledBank(c: Config, b: Bank, mem: set<nat>, q: seq<nat>, p: Pipe)
    requires BankOk(c, b, mem, q)
    requires var (b1, p1) := Popped(c, b); WorkOf(c, b1, Filled(p1, q).0, p)
    ensures var q2 := Filled(Popped(c, b).1, q).1;
            && Scheduled(c, Popped(c, b).0, mem + Elems(q2), p)
            && mem !! Elems(q2) && Distinct(q2)
  {
    hide Inv;
    if FirstOf(b.mshr, Replay) < |b.mshr| {
      ReplayKeeps(c, b, mem + Elems(q));
    } else if q != [] {
      assert q == InsertAt(q[1..], 0, q[0]) && RemoveAt(q, 0) == q[1..];
      RemovedDistinct(q, 0);
      RemovedMembers(q, 0);
      assert Elems(q) == Elems(q[1..]) + {q[0]};
      assert mem + Elems(q[1..]) + {q[0]} == mem + Elems(q);
    }
  }

  lemma ProcessedBank(c: Config, b: Bank, mem: set<nat>, q: seq<nat>, p: Pipe)
    requires Scheduled(c, b, mem + Elems(q), p) && mem !! Elems(q) && Distinct(q)
    ensures Processable(c, b, p)
    ensures BankOk(c, Process(c, b, p).bank, mem + Asked(Process(c, b, p).reqs), q)
  {
    hide Inv, Scheduled, Process;
    ProcessKeeps(c, b, mem + Elems(q), p);
    var a := Asked(Process(c, b, p).reqs);
    assert mem + Elems(q) + a == mem + a + Elems(q);
  }

  /** processBankRequests: every bank does its work; responses leave in bank order. */
  method ProcessBanks(g: CacheAddr.Geometry, c: Config, banks: seq<Bank>, pipes: seq<Pipe>, memReqs: seq<seq<MemReq>>, inMemory: seq<set<nat>>)
    returns (banks': seq<Bank>, rsps: seq<Rsp>, memReqs': seq<seq<MemReq>>, inMemory': seq<set<nat>>)
    requires g.Valid() && |banks| == |pipes| == |memReqs| == |inMemory|
    requires forall b :: 0 <= b < |banks| ==> Processable(c, banks[b], pipes[b]) && Balanced(c, banks[b], pipes[b])
    ensures |banks'| == |memReqs'| == |inMemory'| == |banks|
    ensures forall b :: 0 <= b < |banks| ==>
              var o := Process(c, banks[b], pipes[b]);
              && banks'[b] == o.bank && memReqs'[b] == memReqs[b] + AllToMemory(g, b, o.reqs)
              && inMemory'[b] == inMemory[b] + Asked(o.reqs)
    ensures Owed(c, banks, pipes) == Owed(c, banks', Idles(|banks|)) + multiset(rsps)
  {
    hide Owed, Process, Processable, Balanced, Asked;
    banks', rsps, memReqs', inMemory' := banks, [], memReqs, inMemory;
    ghost var pipes' := pipes;
    for b := 0 to |banks|
      invariant |banks'| == |memReqs'| == |inMemory'| == |pipes'| == |banks|
      invariant forall k :: 0 <= k < b ==>
                  var o := Process(c, banks[k], pipes[k]);
                  && banks'[k] == o.bank && memReqs'[k] == memReqs[k] + AllToMemory(g, k, o.reqs)
                  && inMemory'[k] == inMemory[k] + Asked(o.reqs) && pipes'[k] == Idle
      invariant forall k :: b <= k < |banks| ==>
                  banks'[k] == banks[k] && memReqs'[k] == memReqs[k] && inMemory'[k] == inMemory[k] && pipes'[k] == pipes[k]
      invariant Owed(c, banks, pipes) == Owed(c, banks', pipes') + multiset(rsps)
    {
      var bank, out, reqs := ProcessBank(c, banks'[b], pipes[b]);
      BalancedMeans(c, banks[b], pipes[b]);
      Settle(c, banks', pipes', b, bank, out, rsps, Owed(c, banks, pipes));
      banks', rsps := banks'[b := bank], rsps + out;
      memReqs' := memReqs'[b := memReqs'[b] + AllToMemory(g, b, reqs)];
      inMemory', pipes' := inMemory'[b := inMemory'[b] + Asked(reqs)], pipes'[b := Idle];
    }
    assert pipes' == Idles(|banks|);
  }

  /** What a bank and its work owe is owed or answered afterwards. */
  ghost predicate Balanced(c: Config, b: Bank, p: Pipe)
    requires Processable(c, b, p)
  {
    BankOwes(c, b, p) == BankOwes(c, Process(c, b, p).bank, Idle) + multiset(Process(c, b, p).rsps)
  }

  lemma BalancedMeans(c: Config, b: Bank, p: Pipe)
    requires Processable(c, b, p) && Balanced(c, b, p)
    ensures BankOwes(c, b, p) == BankOwes(c, Process(c, b, p).bank, Idle) + multiset(Process(c, b, p).rsps)
  {
  }

  lemma Settle(c: Config, banks: seq<Bank>, pipes: seq<Pipe>, k: nat, b: Bank, out: seq<Rsp>, rsps: seq<Rsp>, all: multiset<Rsp>)
    requires |banks| == |pipes| && k < |banks| && BankOwes(c, banks[k], pipes[k]) == BankOwes(c, b, Idle) + multiset(out)
    requires all == Owed(c, banks, pipes) + multiset(rsps)
    ensures all == Owed(c, banks[k := b], pipes[k := Idle]) + multiset(rsps + out)
  {
    hide Owed, BankOwes;
    OwedUpdate(c, banks, pipes, k, b, Idle);
    var x, y, n, o := Owed(c, banks[k := b], pipes[k := Idle]), Owed(c, banks, pipes), BankOwes(c, b, Idle), multiset(out);
    assert (x + o) + n == y + n;
    Cancel(x + o, y, n);
    assert multiset(rsps + out) == multiset(rsps) + multiset(out);
  }

  /** The stages of a tick on the state of the banks and the queues. */
  method TickBanks(g: CacheAddr.Geometry, c: Config, banks: seq<Bank>, coreReqs: seq<seq<CoreReq>>, memRsps: seq<seq<nat>>,
                   memReqs: seq<seq<MemReq>>, mem: seq<set<nat>>)
    returns (banks': seq<Bank>, coreReqs': seq<seq<CoreReq>>, memRsps': seq<seq<nat>>, memReqs': seq<seq<MemReq>>,
             rsps: seq<Rsp>, mem': seq<set<nat>>, ghost pipes: seq<Pipe>, ghost chosen: seq<int>)
    requires g.Valid() && c.numSets == Arith.Pow2(g.IndexBits())
    requires |banks| == |memRsps| == |memReqs| == |mem| == Arith.Pow2(g.B)
    requires forall b :: 0 <= b < |banks| ==> BankOk(c, banks[b], mem[b], memRsps[b])
    ensures |banks'| == |memRsps'| == |memReqs'| == |mem'| == |pipes| == |chosen| == |banks| && |coreReqs'| == |coreReqs|
    ensures forall b :: 0 <= b < |banks| ==>
              var (b1, p1) := Popped(c, banks[b]);
              && memRsps'[b] == Filled(p1, memRsps[b]).1
              && Processable(c, b1, pipes[b]) && banks'[b] == Process(c, b1, pipes[b]).bank
              && memReqs'[b] == memReqs[b] + AllToMemory(g, b, Process(c, b1, pipes[b]).reqs)
              && mem'[b] == mem[b] + Asked(Process(c, b1, pipes[b]).reqs)
    ensures Served(g, c, PoppedBanks(c, banks), EarlyWork(c, banks, memRsps), coreReqs, |coreReqs|, chosen, pipes, coreReqs')
    ensures forall b :: 0 <= b < |banks| ==> BankOk(c, banks'[b], mem'[b], memRsps'[b])
    ensures Owed(c, banks, Idles(|banks|)) + Taken(g, c, coreReqs, coreReqs', |coreReqs|)
         == Owed(c, banks', Idles(|banks|)) + multiset(rsps)
  {
    hide Popped, Owed, Process, Processable, BankOk, Taken, Served, Balanced, Filled, Asked;
    var banks1, pipes1 := ScheduleReplays(c, banks);
    assert banks1 == PoppedBanks(c, banks);
    var pipes2;
    pipes2, memRsps' := ScheduleFills(c, banks1, pipes1, memRsps);
    assert pipes2 == EarlyWork(c, banks, memRsps);
    var pipes3;
    pipes3, coreReqs', chosen := ScheduleCore(g, c, banks1, pipes2, coreReqs);
    pipes := pipes3;
    ReadyBanks(g, c, banks, mem, memRsps, memRsps', coreReqs, chosen, pipes3, coreReqs');
    banks', rsps, memReqs', mem' := ProcessBanks(g, c, banks1, pipes3, memReqs, mem);
  }

  class Cache {
    const g: CacheAddr.Geometry
    const c: Config
    var banks: seq<Bank>
    var coreReqs: seq<seq<CoreReq>>
    var memRsps: seq<seq<nat>>
    var memReqs: seq<seq<MemReq>>
    var responses: seq<Rsp>

    /** The fills that memory has not answered yet, and the responses that taken requests ask for. */
    var inMemory: seq<set<nat>>
    ghost var accepted: multiset<Rsp>

    ghost predicate Geometry()
      reads this
    {
      && g.Valid() && c.Valid() && c.numSets == Arith.Pow2(g.IndexBits()) && c.numWays == Arith.Pow2(g.A)
      && |banks| == |memRsps| == |memReqs| == |inMemory| == Arith.Pow2(g.B)
    }

    /** Every bank keeps its invariant, and every taken request is answered or owed, once. */
    ghost predicate Valid()
      reads this
    {
      && Geometry()
      && (forall b :: 0 <= b < |banks| ==> BankOk(c, banks[b], inMemory[b], memRsps[b]) && TagsBelow(TagBound(g), banks[b]))
      && accepted == multiset(responses) + Owed(c, banks, Idles(|banks|))
    }

    constructor (g: CacheAddr.Geometry, numInputs: nat, mshrSize: nat, writeBack: bool, writeResponse: bool)
      requires g.Valid() && mshrSize > 0
      ensures Valid() && this.g == g && |coreReqs| == numInputs && responses == [] && accepted == multiset{}
      ensures c.mshrSize == mshrSize && c.writeBack == writeBack && c.writeResponse == writeResponse
      ensures (forall p :: 0 <= p < numInputs ==> coreReqs[p] == [])
      ensures forall b :: 0 <= b < |banks| ==> Cleared(banks[b]) && memRsps[b] == [] && memReqs[b] == [] && inMemory[b] == {}
    {
      hide *;
      SetBits(g);
      var conf := Config(Arith.Pow2(g.IndexBits()), Arith.Pow2(g.A), mshrSize, writeBack, writeResponse);
      var n := Arith.Pow2(g.B);
      this.g, c := g, conf;
      banks := seq(n, b => EmptyBank(conf));
      coreReqs := seq(numInputs, p => []);
      memRsps, memReqs := seq(n, b => []), seq(n, b => []);
      responses := [];
      inMemory, accepted := seq(n, b => {}), multiset{};
      new;
      ConfigOk(c);
      EmptyOk(c);
      EmptyTags(g, c);
      EmptyCleared(c);
      NothingOwed(c, banks);
      assert multiset(responses) == multiset{};
      Closed();
    }

    /** With nothing left in the MSHRs every taken request has been answered exactly once. */
    lemma AllAnswered()
      requires Valid() && forall b :: 0 <= b < |banks| ==> banks[b].size == 0
      ensures accepted == multiset(responses)
    {
      forall b | 0 <= b < |banks| ensures Held(c, banks[b].mshr) == multiset{} {
        SomeOccupied(banks[b].mshr);
        AllFree(c, banks[b].mshr);
      }
      NothingOwed(c, banks);
    }

    method Tick() returns (ghost pipes: seq<Pipe>, ghost chosen: seq<int>)
      requires Valid()
      modifies this
      ensures Valid() && |banks| == |old(banks)| == |pipes| == |chosen| && |coreReqs| == |old(coreReqs)|
      ensures forall b :: 0 <= b < |banks| ==>
                var (b1, p1) := Popped(c, old(banks)[b]);
                && memRsps[b] == Filled(p1, old(memRsps)[b]).1
                && Processable(c, b1, pipes[b]) && banks[b] == Process(c, b1, pipes[b]).bank
                && memReqs[b] == old(memReqs)[b] + AllToMemory(g, b, Process(c, b1, pipes[b]).reqs)
                && inMemory[b] == old(inMemory)[b] + Asked(Process(c, b1, pipes[b]).reqs)
      ensures Served(g, c, PoppedBanks(c, old(banks)), EarlyWork(c, old(banks), old(memRsps)),
                     old(coreReqs), |old(coreReqs)|, chosen, pipes, coreReqs)
      ensures accepted == old(accepted) + Taken(g, c, old(coreReqs), coreReqs, |coreReqs|)
      ensures old(responses) <= responses
      ensures forall b :: 0 <= b < |banks| ==> old(memReqs)[b] <= memReqs[b]
      ensures forall b :: 0 <= b < |banks| ==>
        Works(g, c, b, old(banks)[b], banks[b], old(memRsps)[b], memRsps[b], old(coreReqs), coreReqs, chosen[b], memReqs[b][|old(memReqs)[b]|..])
    {
      hide *;
      Opened();
      ghost var owed, qs, bs, rs, ms := Owed(c, banks, Idles(|banks|)), coreReqs, banks, memRsps, memReqs;
      ghost var mem := inMemory;
      var rsps;
      banks, coreReqs, memRsps, memReqs, rsps, inMemory, pipes, chosen := TickBanks(g, c, banks, coreReqs, memRsps, memReqs, inMemory);
      ghost var taken := Taken(g, c, qs, coreReqs, |qs|);
      accepted := accepted + taken;
      Balance(accepted, taken, responses, rsps, owed, Owed(c, banks, Idles(|banks|)));
      responses := responses + rsps;
      forall b | 0 <= b < |banks|
        ensures ms[b] <= memReqs[b] && TagsBelow(TagBound(g), banks[b])
        ensures Works(g, c, b, bs[b], banks[b], rs[b], memRsps[b], qs, coreReqs, chosen[b], memReqs[b][|ms[b]|..])
      {
        BankWorks(g, c, bs, mem[b], rs, qs, chosen, pipes, coreReqs, b);
        Added(ms[b], AllToMemory(g, b, Process(c, Popped(c, bs[b]).0, pipes[b]).reqs));
      }
      Closed();
    }

    lemma Opened()
      requires Valid()
      ensures g.Valid() && c.Valid() && c.numSets == Arith.Pow2(g.IndexBits()) && c.numWays == Arith.Pow2(g.A)
      ensures |banks| == |memRsps| == |memReqs| == |inMemory| == Arith.Pow2(g.B)
      ensures forall b :: 0 <= b < |banks| ==> BankOk(c, banks[b], inMemory[b], memRsps[b]) && TagsBelow(TagBound(g), banks[b])
      ensures accepted == multiset(responses) + Owed(c, banks, Idles(|banks|))
    {
      hide Owed, BankOk, TagsBelow;
    }

    lemma Closed()
      requires g.Valid() && c.Valid() && c.numSets == Arith.Pow2(g.IndexBits()) && c.numWays == Arith.Pow2(g.A)
      requires |banks| == |memRsps| == |memReqs| == |inMemory| == Arith.Pow2(g.B)
      requires forall b :: 0 <= b < |banks| ==> BankOk(c, banks[b], inMemory[b], memRsps[b]) && TagsBelow(TagBound(g), banks[b])
      requires accepted == multiset(responses) + Owed(c, banks, Idles(|banks|))
      ensures Valid()
    {
      hide Owed, BankOk, TagsBelow;
    }

    /** Memory answers a fill; it may pick any of those it was asked for. */
    method MemoryAnswers(b: nat, id: nat)
      requires Valid() && b < |banks| && id in inMemory[b]
      modifies this`memRsps, this`inMemory
      ensures Valid() && memRsps == old(memRsps)[b := old(memRsps)[b] + [id]]
      ensures inMemory == old(inMemory)[b := old(inMemory)[b] - {id}]
    {
      hide Owed, Inv, TagsBelow;
      QueuedOnce(memRsps[b], id);
      assert inMemory[b] + Elems(memRsps[b]) == inMemory[b] - {id} + Elems(memRsps[b] + [id]);
      memRsps := memRsps[b := memRsps[b] + [id]];
      inMemory := inMemory[b := inMemory[b] - {id}];
    }

    /** A core hands a request to its port. */
    method Submit(port: nat, r: CoreReq)
      requires Valid() && port < |coreReqs|
      modifies this`coreReqs
      ensures Valid() && coreReqs == old(coreReqs)[port := old(coreReqs)[port] + [r]]
    {
      coreReqs := coreReqs[port := coreReqs[port] + [r]];
    }
  }

  function EmptyBank(c: Config): Bank {
    Bank(seq(c.numSets, s => seq(c.numWays, w => Line(0, 0, false, false))),
         seq(c.mshrSize, i => Slot(Free, BankReq(0, 0, 0, 0, false), 0)), 0)
  }

  lemma SetBits(g: CacheAddr.Geometry)
    requires g.Valid()
    ensures g.IndexBits() >= 0
  {
  }

  lemma ConfigOk(c: Config)
    requires c.numSets > 0 && c.numWays > 0 && c.mshrSize > 0
    ensures c.Valid()
  {
  }

  lemma EmptyOk(c: Config)
    requires c.Valid()
    ensures BankOk(c, EmptyBank(c), {}, []) && Held(c, EmptyBank(c).mshr) == multiset{}
  {
    SomeOccupied(EmptyBank(c).mshr);
    AllFree(c, EmptyBank(c).mshr);
  }

  /** No line is valid or dirty, no counter has run, and no entry waits. */
  ghost predicate Cleared(bank: Bank) {
    && (forall k, l :: 0 <= k < |bank.sets| && 0 <= l < |bank.sets[k]| ==>
          !bank.sets[k][l].valid && !bank.sets[k][l].dirty && bank.sets[k][l].lru == 0)
    && (forall i :: 0 <= i < |bank.mshr| ==> bank.mshr[i].kind == Free) && bank.size == 0
  }

  lemma EmptyCleared(c: Config)
    ensures Cleared(EmptyBank(c))
  {
  }

  lemma EmptyTags(g: CacheAddr.Geometry, c: Config)
    requires g.Valid()
    ensures TagsBelow(TagBound(g), EmptyBank(c))
  {
    Arith.Pow2Next(g.addrWidth - g.TagStart());
  }

  lemma {:induction false} NothingOwed(c: Config, banks: seq<Bank>)
    requires forall b :: 0 <= b < |banks| ==> Held(c, banks[b].mshr) == multiset{}
    ensures Owed(c, banks, Idles(|banks|)) == multiset{}
  {
    if banks != [] {
      assert Idles(|banks|)[1..] == Idles(|banks[1..]|);
      NothingOwed(c, banks[1..]);
    }
  }

  lemma QueuedOnce(q: seq<nat>, id: nat)
    requires Distinct(q) && id !in q
    ensures Distinct(q + [id]) && Elems(q + [id]) == Elems(q) + {id}
  {
    InsertedDistinct(q, |q|, id);
    assert InsertAt(q, |q|, id) == q + [id];
  }

  function PoppedBanks(c: Config, banks: seq<Bank>): (r: seq<Bank>)
    ensures |r| == |banks| && forall b :: 0 <= b < |banks| ==> r[b] == Popped(c, banks[b]).0
  {
    seq(|banks|, b requires 0 <= b < |banks| => Popped(c, banks[b]).0)
  }

  /** The work of every bank after the replays and fills are scheduled. */
  function EarlyWork(c: Config, banks: seq<Bank>, memRsps: seq<seq<nat>>): (r: seq<Pipe>)
    requires |banks| == |memRsps|
    ensures |r| == |banks| && forall b :: 0 <= b < |banks| ==> r[b] == Filled(Popped(c, banks[b]).1, memRsps[b]).0
  {
    seq(|banks|, b requires 0 <= b < |banks| => Filled(Popped(c, banks[b]).1, memRsps[b]).0)
  }

  lemma ServedWork(g: CacheAddr.Geometry, c: Config, banks: seq<Bank>, pipes: seq<Pipe>, qs: seq<seq<CoreReq>>,
                   chosen: seq<int>, pipes': seq<Pipe>, qs': seq<seq<CoreReq>>, b: nat)
    requires g.Valid() && |pipes| == |pipes'| == |chosen| == |banks| && |qs'| == |qs| && b < |banks|
    requires Served(g, c, banks, pipes, qs, |qs|, chosen, pipes', qs') && c.numSets == Arith.Pow2(g.IndexBits())
    ensures WorkOf(c, banks[b], pipes[b], pipes'[b])
  {
    if chosen[b] >= 0 { CacheAddr.FieldsOf(g, qs[chosen[b]][0].addr); }
  }

  /**
   What a tick does to bank b: it serves the front request of a port as the address says, or else sends
   nothing and replays, fills or rests.
   */
  ghost predicate Works(g: CacheAddr.Geometry, c: Config, b: nat, bank: Bank, bank': Bank, rs: seq<nat>, rs': seq<nat>,
                        qs: seq<seq<CoreReq>>, qs': seq<seq<CoreReq>>, port: int, sent: seq<MemReq>)
    requires g.Valid()
  {
    if port >= 0 then
      && port < |qs| == |qs'| && qs[port] != [] && qs'[port] == qs[port][1..] && rs' == rs
      && Serves(g, c, b, bank, port, qs[port][0], bank', sent)
    else
      sent == [] && Settles(bank, rs, bank', rs')
  }

  lemma Added<T>(a: seq<T>, b: seq<T>)
    ensures a <= a + b && (a + b)[|a|..] == b
  {
  }

  lemma BankWorks(g: CacheAddr.Geometry, c: Config, banks: seq<Bank>, mem: set<nat>, rs: seq<seq<nat>>, qs: seq<seq<CoreReq>>,
                  chosen: seq<int>, pipes: seq<Pipe>, qs': seq<seq<CoreReq>>, b: nat)
    requires g.Valid() && c.numSets == Arith.Pow2(g.IndexBits()) && |banks| == |rs| == |chosen| == |pipes| && |qs| == |qs'|
    requires b < |banks| && BankOk(c, banks[b], mem, rs[b]) && TagsBelow(TagBound(g), banks[b])
    requires Served(g, c, PoppedBanks(c, banks), EarlyWork(c, banks, rs), qs, |qs|, chosen, pipes, qs')
    requires Processable(c, Popped(c, banks[b]).0, pipes[b])
    ensures var (b1, p1) := Popped(c, banks[b]);
      var o := Process(c, b1, pipes[b]);
      && TagsBelow(TagBound(g), o.bank)
      && Works(g, c, b, banks[b], o.bank, rs[b], Filled(p1, rs[b]).1, qs, qs', chosen[b], AllToMemory(g, b, o.reqs))
  {
    hide *;
    ServedBank(g, c, banks, rs, qs, chosen, pipes, qs', b);
    if chosen[b] >= 0 {
      ServesChosen(g, c, b, banks[b], mem, rs[b], qs, qs', chosen[b]);
    } else {
      SettlesRest(TagBound(g), c, banks[b], rs[b], pipes[b]);
      WorksRest(g, c, b, banks[b], rs[b], qs, qs', chosen[b], pipes[b]);
    }
  }

  lemma ServedBank(g: CacheAddr.Geometry, c: Config, banks: seq<Bank>, rs: seq<seq<nat>>, qs: seq<seq<CoreReq>>,
                   chosen: seq<int>, pipes: seq<Pipe>, qs': seq<seq<CoreReq>>, b: nat)
    requires g.Valid() && |banks| == |rs| == |chosen| == |pipes| && |qs| == |qs'| && b < |banks|
    requires Served(g, c, PoppedBanks(c, banks), EarlyWork(c, banks, rs), qs, |qs|, chosen, pipes, qs')
    ensures var (b1, p1) := Popped(c, banks[b]);
      if chosen[b] >= 0 then
        && Filled(p1, rs[b]).0 == Idle && chosen[b] < |qs| && qs[chosen[b]] != [] && qs'[chosen[b]] == qs[chosen[b]][1..]
        && BankOf(g, qs[chosen[b]][0]) == b && Accepts(c, b1, ToBank(g, chosen[b], qs[chosen[b]][0]))
        && pipes[b] == DoCore(ToBank(g, chosen[b], qs[chosen[b]][0]))
      else pipes[b] == Filled(p1, rs[b]).0
  {
    hide Popped, Filled, Accepts, BankOf, ToBank;
  }

  lemma ServesChosen(g: CacheAddr.Geometry, c: Config, b: nat, bank: Bank, mem: set<nat>, rs: seq<nat>,
                     qs: seq<seq<CoreReq>>, qs': seq<seq<CoreReq>>, port: nat)
    requires g.Valid() && c.numSets == Arith.Pow2(g.IndexBits()) && BankOk(c, bank, mem, rs) && TagsBelow(TagBound(g), bank)
    requires Filled(Popped(c, bank).1, rs).0 == Idle && port < |qs| == |qs'| && qs[port] != [] && qs'[port] == qs[port][1..]
    requires BankOf(g, qs[port][0]) == b && Accepts(c, Popped(c, bank).0, ToBank(g, port, qs[port][0]))
    requires Processable(c, Popped(c, bank).0, DoCore(ToBank(g, port, qs[port][0])))
    ensures var o := Process(c, Popped(c, bank).0, DoCore(ToBank(g, port, qs[port][0])));
      && TagsBelow(TagBound(g), o.bank)
      && Works(g, c, b, bank, o.bank, rs, Filled(Popped(c, bank).1, rs).1, qs, qs', port, AllToMemory(g, b, o.reqs))
  {
    hide Inv, StepCore, Serves, TagsBelow, Accepts, BankOf, ToBank, AllToMemory;
    CoreServes(g, c, b, bank, mem + Elems(rs), port, qs[port][0]);
  }

  lemma SettlesRest(t: nat, c: Config, bank: Bank, rs: seq<nat>, p: Pipe)
    requires TagsBelow(t, bank) && p == Filled(Popped(c, bank).1, rs).0 && Processable(c, Popped(c, bank).0, p)
    ensures var o := Process(c, Popped(c, bank).0, p);
      TagsBelow(t, o.bank) && o.reqs == [] && Settles(bank, rs, o.bank, Filled(Popped(c, bank).1, rs).1)
  {
    hide TagsBelow, StepReplay, StepFill, Settles;
    var i := FirstOf(bank.mshr, Replay);
    if i < |bank.mshr| {
      ReplayTags(t, c, bank);
      ReplaySettles(c, bank, rs);
    } else if rs != [] {
      FillTags(t, bank, rs[0]);
      FillAsksNothing(bank, rs[0]);
      FillSettles(bank, rs);
    } else {
      RestSettles(bank);
    }
  }

  lemma WorksRest(g: CacheAddr.Geometry, c: Config, b: nat, bank: Bank, rs: seq<nat>, qs: seq<seq<CoreReq>>, qs': seq<seq<CoreReq>>,
                  port: int, p: Pipe)
    requires g.Valid() && port < 0 && Processable(c, Popped(c, bank).0, p)
    requires var o := Process(c, Popped(c, bank).0, p); o.reqs == [] && Settles(bank, rs, o.bank, Filled(Popped(c, bank).1, rs).1)
    ensures var o := Process(c, Popped(c, bank).0, p);
      Works(g, c, b, bank, o.bank, rs, Filled(Popped(c, bank).1, rs).1, qs, qs', port, AllToMemory(g, b, o.reqs))
  {
    hide Process, Popped, Filled, Settles, Processable;
  }

  lemma ReadyBanks(g: CacheAddr.Geometry, c: Config, banks: seq<Bank>, mem: seq<set<nat>>, rs: seq<seq<nat>>, rs2: seq<seq<nat>>,
                   qs: seq<seq<CoreReq>>, chosen: seq<int>, pipes: seq<Pipe>, qs': seq<seq<CoreReq>>)
    requires g.Valid() && |banks| == |mem| == |rs| == |rs2| == |chosen| == |pipes| && |qs| == |qs'|
    requires c.numSets == Arith.Pow2(g.IndexBits())
    requires forall b :: 0 <= b < |banks| ==> BankOk(c, banks[b], mem[b], rs[b])
    requires forall b :: 0 <= b < |banks| ==> rs2[b] == Filled(Popped(c, banks[b]).1, rs[b]).1
    requires Served(g, c, PoppedBanks(c, banks), EarlyWork(c, banks, rs), qs, |qs|, chosen, pipes, qs')
    ensures forall b :: 0 <= b < |banks| ==>
              var b1 := Popped(c, banks[b]).0;
              && Processable(c, b1, pipes[b]) && Balanced(c, b1, pipes[b])
              && BankOk(c, Process(c, b1, pipes[b]).bank, mem[b] + Asked(Process(c, b1, pipes[b]).reqs), rs2[b])
  {
    hide Popped, Served, Filled, Process, Processable, BankOk, Balanced, Scheduled, Asked;
    forall b | 0 <= b < |banks|
      ensures var b1 := Popped(c, banks[b]).0;
              && Processable(c, b1, pipes[b]) && Balanced(c, b1, pipes[b])
              && BankOk(c, Process(c, b1, pipes[b]).bank, mem[b] + Asked(Process(c, b1, pipes[b]).reqs), rs2[b])
    {
      ServedWork(g, c, PoppedBanks(c, banks), EarlyWork(c, banks, rs), qs, chosen, pipes, qs', b);
      ScheduledBank(c, banks[b], mem[b], rs[b], pipes[b]);
      ProcessedBank(c, Popped(c, banks[b]).0, mem[b], rs2[b], pipes[b]);
      ProcessBalances(c, Popped(c, banks[b]).0, mem[b] + Elems(rs2[b]), pipes[b]);
    }
  }

  lemma ProcessBalances(c: Config, b: Bank, out: set<nat>, p: Pipe)
    requires Scheduled(c, b, out, p)
    ensures Processable(c, b, p) && Balanced(c, b, p)
  {
    hide Held, Process, Scheduled;
    ProcessKeeps(c, b, out, p);
  }

  lemma Balance(accepted: multiset<Rsp>, taken: multiset<Rsp>, responses: seq<Rsp>, rsps: seq<Rsp>, owed: multiset<Rsp>, owed': multiset<Rsp>)
    requires accepted == multiset(responses) + owed + taken && owed + taken == owed' + multiset(rsps)
    ensures accepted == multiset(responses + rsps) + owed'
  {
    assert multiset(responses + rsps) == multiset(responses) + multiset(rsps);
    assert multiset(responses) + owed + taken == multiset(responses) + (owed + taken);
  }
}
