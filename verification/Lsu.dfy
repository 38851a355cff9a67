/**
 The load/store unit in front of the coalescer: a load leaves when all its lanes were answered, a
 fence when no load is pending.
 */
module Lsu {
  import opened LaneTable
  import C = Coalescer
  import opened Wrappers

  datatype Trace = Trace(id: nat)

  datatype Input =
    | Fence(trace: Trace)
    | Access(trace: Trace, mask: set<nat>, addrs: seq<nat>, write: bool)

  // ---- Lanes a table waits for ----

  ghost function Lanes<T>(e: seq<Slot<T>>): set<(nat, nat)> {
    set t: nat, i: nat | t < |e| && e[t].Used? && i in e[t].value.mask :: (t, i)
  }

  ghost function At(t: nat, mask: set<nat>): set<(nat, nat)> { set i | i in mask :: (t, i) }

  lemma TokensAre(t: nat, mask: set<nat>)
    ensures Tokens(t, mask) == multiset(At(t, mask))
  {
  }

  lemma LanesMore<T>(e: seq<Slot<T>>, t: nat, owner: T, mask: set<nat>)
    requires t < |e| && e[t].Free?
    ensures Lanes(e[t := Used(Pending(owner, mask))]) == Lanes(e) + At(t, mask)
    ensures Lanes(e) !! At(t, mask)
  {
  }

  lemma LanesLess<T>(e: seq<Slot<T>>, t: nat, mask: set<nat>)
    requires t < |e| && e[t].Used? && mask <= e[t].value.mask
    ensures var p := e[t].value;
            Lanes(e[t := if p.mask == mask then Free else Used(Pending(p.owner, p.mask - mask))]) == Lanes(e) - At(t, mask)
    ensures At(t, mask) <= Lanes(e)
  {
  }

  lemma LanesBelong<T>(e: seq<Slot<T>>, t: nat, mask: set<nat>)
    requires mask != {} && At(t, mask) <= Lanes(e)
    ensures t < |e| && e[t].Used? && mask <= e[t].value.mask
  {
    var k :| k in mask;
    assert (t, k) in Lanes(e);
    forall i | i in mask ensures i in e[t].value.mask { assert (t, i) in At(t, mask); }
  }

  lemma AddDisjoint<X>(a: set<X>, b: set<X>)
    requires a !! b
    ensures multiset(a + b) == multiset(a) + multiset(b)
    ensures |a + b| == |a| + |b|
  {
  }

  lemma Remove<X>(a: set<X>, b: set<X>, rest: multiset<X>)
    requires b <= a && multiset(a) == rest + multiset(b)
    ensures multiset(a - b) == rest && |a - b| == |a| - |b|
  {
    AddDisjoint(a - b, b);
    assert a - b + b == a;
    forall x ensures multiset(a - b)[x] == rest[x] {
      assert multiset(a)[x] == (multiset(a - b) + multiset(b))[x] && multiset(a)[x] == (rest + multiset(b))[x];
    }
  }

  lemma SizeAt(t: nat, mask: set<nat>)
    ensures |At(t, mask)| == |mask|
    decreases mask
  {
    if mask == {} {
      assert At(t, mask) == {};
    } else {
      var k :| k in mask;
      SizeAt(t, mask - {k});
      assert At(t, mask) == At(t, mask - {k}) + {(t, k)};
    }
  }

  // ---- Answers on their way ----

  ghost function RspTokens(q: seq<C.LsuRsp>): multiset<(nat, nat)> {
    if q == [] then multiset{} else Tokens(q[0].tag, q[0].mask) + RspTokens(q[1..])
  }

  lemma {:induction false} RspMore(q: seq<C.LsuRsp>, r: C.LsuRsp)
    ensures RspTokens(q + [r]) == RspTokens(q) + Tokens(r.tag, r.mask)
  {
    if q == [] {
      assert (q + [r])[1..] == [];
    } else {
      assert (q + [r])[1..] == q[1..] + [r];
      RspMore(q[1..], r);
    }
  }

  /** What the coalescer still owes. */
  ghost function Owed(mem: C.MemCoalescer): multiset<(nat, nat)>
    requires mem.c.Valid()
    reads mem, mem.pendingRdReqs
  {
    TableTokens(mem.pendingRdReqs.entries) + C.WaitingTokens(mem.reqIn, mem.sentMask)
  }

  /** Every lane waited for is owed by the coalescer or answered and on its way, once. */
  ghost predicate Balanced(e: seq<Slot<Trace>>, pendingLoads: int, rspIn: seq<C.LsuRsp>, taken: nat,
                           owed: multiset<(nat, nat)>, loads: multiset<Trace>, released: multiset<Trace>)
  {
    && taken <= |rspIn|
    && (forall k :: taken <= k < |rspIn| ==> rspIn[k].mask != {})
    && multiset(Lanes(e)) == RspTokens(rspIn[taken..]) + owed
    && pendingLoads == |Lanes(e)|
    && (forall t :: 0 <= t < |e| && e[t].Used? ==> e[t].value.mask != {})
    && loads == released + Owners(e)
  }

  function Remaining(s: Slot<Trace>, mask: set<nat>): Slot<Trace>
    requires s.Used?
  {
    if s.value.mask == mask then Free else Used(Pending(s.value.owner, s.value.mask - mask))
  }

  /** Taking the oldest answer keeps the books balanced. */
  lemma TakeBalances(e: seq<Slot<Trace>>, pendingLoads: int, rspIn: seq<C.LsuRsp>, taken: nat,
                     owed: multiset<(nat, nat)>, loads: multiset<Trace>, released: multiset<Trace>)
    requires Balanced(e, pendingLoads, rspIn, taken, owed, loads, released) && taken < |rspIn|
    ensures var t, mask := rspIn[taken].tag, rspIn[taken].mask;
      && t < |e| && e[t].Used? && mask <= e[t].value.mask && mask != {}
      && Balanced(e[t := Remaining(e[t], mask)], pendingLoads - |mask|, rspIn, taken + 1, owed, loads,
                  if e[t].value.mask == mask then released + multiset{e[t].value.owner} else released)
  {
    hide Lanes, At, Owners, RspTokens;
    var t, mask := rspIn[taken].tag, rspIn[taken].mask;
    var rest := RspTokens(rspIn[taken + 1..]) + owed;
    FrontAnswer(rspIn, taken, owed, Lanes(e));
    LanesBelong(e, t, mask);
    LanesLess(e, t, mask);
    Remove(Lanes(e), At(t, mask), rest);
    SizeAt(t, mask);
    OwnerAnswered(e, t, Remaining(e[t], mask));
    LeftOrDone(e[t].value.mask, mask);
    Rotate(released, Owners(e[t := Remaining(e[t], mask)]), multiset{e[t].value.owner});
  }

  lemma Associate<X>(a: multiset<X>, b: multiset<X>, c: multiset<X>)
    ensures a + b + c == a + (b + c)
  {
  }

  lemma Rotate<X>(a: multiset<X>, b: multiset<X>, c: multiset<X>)
    ensures a + (b + c) == a + c + b && a + (b + multiset{}) == a + b
  {
  }

  lemma OwnerBooked(e: seq<Slot<Trace>>, t: nat, trace: Trace, mask: set<nat>)
    requires t < |e| && e[t].Free?
    ensures Owners(e[t := Used(Pending(trace, mask))]) == Owners(e) + multiset{trace}
  {
    OwnersUpdate(e, t, Used(Pending(trace, mask)));
  }

  lemma LeftOrDone(a: set<nat>, b: set<nat>)
    requires b <= a
    ensures a != b ==> a - b != {}
  {
    assert a == b + (a - b);
  }

  /** Booking a load and handing it to the coalescer keeps the books balanced. */
  lemma LoadBalances(e: seq<Slot<Trace>>, pendingLoads: int, rspIn: seq<C.LsuRsp>, taken: nat,
                     owed: multiset<(nat, nat)>, loads: multiset<Trace>, released: multiset<Trace>,
                     t: nat, trace: Trace, mask: set<nat>)
    requires Balanced(e, pendingLoads, rspIn, taken, owed, loads, released) && t < |e| && e[t].Free? && mask != {}
    ensures Balanced(e[t := Used(Pending(trace, mask))], pendingLoads + |mask|, rspIn, taken,
                     owed + Tokens(t, mask), loads + multiset{trace}, released)
  {
    hide Lanes, At, Owners, RspTokens, Tokens;
    LanesMore(e, t, trace, mask);
    AddDisjoint(Lanes(e), At(t, mask));
    TokensAre(t, mask);
    SizeAt(t, mask);
    OwnerBooked(e, t, trace, mask);
    Associate(RspTokens(rspIn[taken..]), owed, Tokens(t, mask));
    Associate(released, Owners(e), multiset{trace});
  }

  // ---- The unit ----

  class LsuUnit {
    const mem: C.MemCoalescer
    const pendingRdReqs: HashTable<Trace>
    var pendingLoads: int
    var fenceLock: bool
    var fenceTrace: Trace
    /** Traces handed on, oldest first. */
    var output: seq<Trace>
    /** How many of the coalescer's answers were consumed. */
    var taken: nat
    /** The loads taken in, and the loads handed on. */
    ghost var loads: multiset<Trace>
    ghost var released: multiset<Trace>

    ghost predicate Valid()
      reads this, pendingRdReqs, mem, mem.pendingRdReqs
    {
      && Apart() && pendingRdReqs.Valid() && mem.Valid() && Books()
    }

    ghost predicate Apart() {
      && (pendingRdReqs as object) != mem.pendingRdReqs
      && mem.c.Valid()
    }

    ghost predicate Books()
      requires mem.c.Valid()
      reads this, pendingRdReqs, mem, mem.pendingRdReqs
    {
      Balanced(pendingRdReqs.entries, pendingLoads, mem.rspIn, taken, Owed(mem), loads, released)
    }

    constructor (c: C.Config, tableSize: nat, memSize: nat)
      requires c.Valid()
      ensures Valid() && pendingLoads == 0 && !fenceLock && output == [] && loads == released == multiset{}
      ensures fresh(pendingRdReqs) && fresh(mem) && fresh(mem.pendingRdReqs)
    {
      var m := new C.MemCoalescer(c, memSize);
      var t := new HashTable<Trace>(tableSize);
      UsedCountBounds(t.entries);
      NoOwners(t.entries);
      assert Lanes(t.entries) == {};
      mem, pendingRdReqs := m, t;
      pendingLoads, fenceLock, fenceTrace, output, taken := 0, false, Trace(0), [], 0;
      loads, released := multiset{}, multiset{};
      assert Owed(m) == multiset{} by { NothingOwed(m.answered, TableTokens(m.pendingRdReqs.entries), C.WaitingTokens(m.reqIn, m.sentMask)); }
    }

    /**
     A cycle of the coalescer, with an answer of memory if there is one: the lanes it answers are no
     longer owed but on their way, and the request in front goes on unless the coalescer is blocked.
     */
    method MemoryTick(rsp: Option<C.LsuRsp>) returns (blocked: bool)
      requires Valid() && (rsp.Some? ==> rsp.value.mask != {} && C.Asks(rsp.value.tag, rsp.value.mask) <= mem.asked)
      modifies mem, mem.pendingRdReqs
      ensures Valid()
      ensures if rsp.None? then mem.rspIn == old(mem.rspIn) && Owed(mem) == old(Owed(mem))
              else exists r: C.LsuRsp :: mem.rspIn == old(mem.rspIn) + [r] && r.mask != {} && old(Owed(mem)) == Owed(mem) + Tokens(r.tag, r.mask)
      ensures C.Moves(mem.c, old(mem.Here()), mem.Here(), blocked)
      ensures var e := old(mem.TableAfter(rsp)); blocked <==> old(mem.reqIn) == [] || UsedCount(e) == |e|
    {
      hide *;
      Opened();
      ghost var a0, o0, r0, n := mem.answered, Owed(mem), mem.rspIn, |mem.rspIn|;
      ghost var cur;
      Ledger(mem);
      blocked, cur := mem.Tick(rsp);
      Ledger(mem);
      if rsp.Some? {
        ghost var r := mem.rspIn[n];
        assert mem.rspIn == r0 + [r];
        Answered(mem.accepted, a0, o0, Owed(mem), Tokens(r.tag, r.mask));
        RspRest(r0, r);
        Associate(RspTokens(r0[taken..]), Tokens(r.tag, r.mask), Owed(mem));
        Rotate(RspTokens(r0[taken..]), Owed(mem), Tokens(r.tag, r.mask));
        Closed(r0, o0);
      } else {
        Answered(mem.accepted, a0, o0, Owed(mem), multiset{});
        Closed(r0, o0);
      }
    }

    lemma Opened()
      requires Valid()
      ensures Apart() && mem.Valid() && mem.c.Valid() && pendingRdReqs.Valid() && taken <= |mem.rspIn|
      ensures Balanced(pendingRdReqs.entries, pendingLoads, mem.rspIn, taken, Owed(mem), loads, released)
    {
    }

    /** The books are balanced again once an answer is on its way instead of owed. */
    lemma Closed(r0: seq<C.LsuRsp>, o0: multiset<(nat, nat)>)
      requires Apart() && mem.Valid() && mem.c.Valid() && pendingRdReqs.Valid() && taken <= |r0|
      requires Balanced(pendingRdReqs.entries, pendingLoads, r0, taken, o0, loads, released)
      requires if mem.rspIn == r0 then Owed(mem) == o0
               else |mem.rspIn| == |r0| + 1 && mem.rspIn[..|r0|] == r0 && mem.rspIn[|r0|].mask != {}
                    && RspTokens(r0[taken..]) + o0 == RspTokens(mem.rspIn[taken..]) + Owed(mem)
      ensures Valid()
    {
      hide Lanes, Owners, Tokens, RspTokens, Owed, C.MemCoalescer.Valid, HashTable.Valid;
    }

    lemma RspRest(r0: seq<C.LsuRsp>, r: C.LsuRsp)
      requires taken <= |r0|
      ensures RspTokens((r0 + [r])[taken..]) == RspTokens(r0[taken..]) + Tokens(r.tag, r.mask)
    {
      assert (r0 + [r])[taken..] == r0[taken..] + [r];
      RspMore(r0[taken..], r);
    }

    /** Takes the oldest answer, and hands its load on when no lane is left. */
    method TakeResponse()
      requires Valid()
      modifies this, pendingRdReqs
      ensures Valid() && unchanged(`loads) && unchanged(`fenceLock)
      ensures if old(taken) == |mem.rspIn| then unchanged(this) && unchanged(pendingRdReqs)
              else Taken(old(pendingRdReqs.entries), mem.rspIn[old(taken)], old(output), old(released), old(pendingLoads))
    {
      if taken < |mem.rspIn| {
        Consume();
      }
    }

    method Consume()
      requires Apart() && pendingRdReqs.Valid() && mem.Valid() && taken < |mem.rspIn|
      requires Balanced(pendingRdReqs.entries, pendingLoads, mem.rspIn, taken, Owed(mem), loads, released)
      modifies this, pendingRdReqs
      ensures pendingRdReqs.Valid() && mem.Valid() && unchanged(`loads) && unchanged(`fenceLock) && taken == old(taken) + 1
      ensures Balanced(pendingRdReqs.entries, pendingLoads, mem.rspIn, taken, Owed(mem), loads, released)
      ensures Taken(old(pendingRdReqs.entries), mem.rspIn[old(taken)], old(output), old(released), old(pendingLoads))
    {
      hide Balanced, Owed, Tokens, C.MemCoalescer.Valid, HashTable.Valid;
      var rsp := mem.rspIn[taken];
      TakeBalances(pendingRdReqs.entries, pendingLoads, mem.rspIn, taken, Owed(mem), loads, released);
      var trace := pendingRdReqs.entries[rsp.tag].value.owner;
      var done := pendingRdReqs.Answer(rsp.tag, rsp.mask);
      if done {
        output := output + [trace];
        released := released + multiset{trace};
      }
      pendingLoads := pendingLoads - |rsp.mask|;
      taken := taken + 1;
    }

    /** The request side of a cycle: a pending fence first, then the instruction at hand. */
    method TakeRequest(input: Option<Input>) returns (popped: bool)
      requires Valid()
      requires input.Some? && input.value.Access? ==> C.ReqOk(mem.c, C.LsuReq(input.value.mask, input.value.addrs, input.value.write, 0))
      modifies this, pendingRdReqs, mem, mem.pendingRdReqs
      ensures Valid() && unchanged(`taken)
      ensures old(fenceLock && pendingLoads != 0) ==> !popped && unchanged(this) && unchanged(pendingRdReqs) && unchanged(mem)
      ensures popped <==> input.Some? && !old(fenceLock && pendingLoads != 0)
                          && (input.value.Fence? || input.value.write || !old(pendingRdReqs.Full()))
      ensures if popped && input.value.Access? then PassedOn(old(pendingRdReqs.entries), old(mem.reqIn), input.value)
              else mem.reqIn == old(mem.reqIn) && pendingRdReqs.entries == old(pendingRdReqs.entries)
      ensures popped && input.value.Fence? ==> fenceLock && fenceTrace == input.value.trace && loads == old(loads)
      ensures popped && input.value.Access? ==>
                loads == old(loads) + (if input.value.write then multiset{} else multiset{input.value.trace})
      ensures !popped ==> loads == old(loads)
      ensures output == old(output) + (if old(fenceLock && pendingLoads == 0) then [old(fenceTrace)] else [])
                        + (if popped && input.value.Access? && input.value.write then [input.value.trace] else [])
      ensures released == old(released)
    {
      hide *;
      Opened();
      EmptyMeansNoLoads();
      popped := false;
      if fenceLock {
        if !pendingRdReqs.Empty() {
          return;
        }
        output := output + [fenceTrace];
        fenceLock := false;
      }
      Restored();
      if input.None? {
        return;
      }
      match input.value
      case Fence(trace) =>
        fenceTrace, fenceLock := trace, true;
        popped := true;
        Restored();
      case Access(trace, mask, addrs, write) =>
        if !write && pendingRdReqs.Full() {
          return;
        }
        Issue(trace, mask, addrs, write);
        popped := true;
    }

    /** Sends an access; a store is handed on at once. */
    method Issue(trace: Trace, mask: set<nat>, addrs: seq<nat>, write: bool)
      requires Valid() && (write || !pendingRdReqs.Full())
      requires mem.c.Valid() && C.ReqOk(mem.c, C.LsuReq(mask, addrs, write, 0))
      modifies `loads, `pendingLoads, `output, pendingRdReqs, mem
      ensures Valid() && PassedOn(old(pendingRdReqs.entries), old(mem.reqIn), Access(trace, mask, addrs, write))
      ensures loads == old(loads) + (if write then multiset{} else multiset{trace})
      ensures output == old(output) + (if write then [trace] else [])
    {
      hide *;
      Opened();
      BooksAre();
      Send(trace, mask, addrs, write);
      BooksAre();
      if write {
        output := output + [trace];
      }
      Restored();
    }

    lemma Restored()
      requires Apart() && mem.Valid() && mem.c.Valid() && pendingRdReqs.Valid()
      requires Balanced(pendingRdReqs.entries, pendingLoads, mem.rspIn, taken, Owed(mem), loads, released)
      ensures Valid()
    {
      hide Balanced, Owed, C.MemCoalescer.Valid, HashTable.Valid;
    }

    lemma BooksAre()
      requires mem.c.Valid()
      ensures Books() <==> Balanced(pendingRdReqs.entries, pendingLoads, mem.rspIn, taken, Owed(mem), loads, released)
    {
      hide Balanced, Owed;
    }

    /** The access is in the coalescer's queue; a load has its entry and goes under its number. */
    ghost predicate PassedOn(e: seq<Slot<Trace>>, reqIn0: seq<C.LsuReq>, access: Input)
      requires access.Access?
      reads pendingRdReqs, mem
    {
      if access.write then
        pendingRdReqs.entries == e && mem.reqIn == reqIn0 + [C.LsuReq(access.mask, access.addrs, true, 0)]
      else
        exists tag: nat :: tag < |e| && e[tag].Free? && pendingRdReqs.entries == e[tag := Used(Pending(access.trace, access.mask))]
                           && mem.reqIn == reqIn0 + [C.LsuReq(access.mask, access.addrs, false, tag)]
    }

    lemma EmptyMeansNoLoads()
      requires Valid()
      ensures pendingRdReqs.Empty() <==> pendingLoads == 0
    {
      var e := pendingRdReqs.entries;
      UsedCountBounds(e);
      assert pendingRdReqs.Empty() ==> Lanes(e) == {};
      forall t | 0 <= t < |e| && e[t].Used? ensures Lanes(e) != {} {
        var i :| i in e[t].value.mask;
        assert (t, i) in Lanes(e);
      }
    }

    /** Books a load and passes the request on. */
    method Send(trace: Trace, mask: set<nat>, addrs: seq<nat>, write: bool)
      requires Apart() && pendingRdReqs.Valid() && mem.Valid() && Books()
      requires C.ReqOk(mem.c, C.LsuReq(mask, addrs, write, 0)) && (write || !pendingRdReqs.Full())
      modifies `loads, `pendingLoads, pendingRdReqs, mem
      ensures pendingRdReqs.Valid() && mem.Valid() && Books()
      ensures loads == old(loads) + (if write then multiset{} else multiset{trace})
      ensures PassedOn(old(pendingRdReqs.entries), old(mem.reqIn), Access(trace, mask, addrs, write))
    {
      hide Balanced, Owed, Tokens, C.MemCoalescer.Valid, HashTable.Valid, C.ReqOk;
      ghost var e, o0 := pendingRdReqs.entries, Owed(mem);
      if write {
        Pass(C.LsuReq(mask, addrs, true, 0));
      } else {
        var tag := pendingRdReqs.Allocate(Pending(trace, mask));
        SameLanes(mem.c, C.LsuReq(mask, addrs, false, 0), C.LsuReq(mask, addrs, false, tag));
        Pass(C.LsuReq(mask, addrs, false, tag));
        LoadBalances(e, pendingLoads, mem.rspIn, taken, o0, loads, released, tag, trace, mask);
        pendingLoads := pendingLoads + |mask|;
        loads := loads + multiset{trace};
      }
    }

    /** Passes a request on: what it reads is owed from then on. */
    method Pass(r: C.LsuReq)
      requires Apart() && mem.Valid() && C.ReqOk(mem.c, r)
      modifies mem
      ensures mem.Valid() && mem.rspIn == old(mem.rspIn) && mem.reqIn == old(mem.reqIn) + [r]
      ensures Owed(mem) == if r.write then old(Owed(mem)) else old(Owed(mem)) + Tokens(r.tag, r.mask)
    {
      hide Owed, Tokens, C.MemCoalescer.Valid, C.ReqOk;
      Ledger(mem);
      ghost var a0, n0, o0 := mem.accepted, mem.answered, Owed(mem);
      mem.Submit(r);
      Ledger(mem);
      Booked(r, a0, n0, o0, Owed(mem));
    }

    /** When memory owes nothing and nothing is under way, every load was handed on exactly once. */
    lemma AllReleased()
      requires Valid() && mem.asked == {} && mem.reqIn == [] && taken == |mem.rspIn|
      ensures loads == released && pendingLoads == 0
    {
      mem.AllAnswered();
      Ledger(mem);
      var e := pendingRdReqs.entries;
      assert mem.rspIn[taken..] == [];
      forall x ensures Owed(mem)[x] == 0 { assert mem.accepted[x] == (mem.answered + Owed(mem))[x]; }
      assert multiset(Lanes(e)) == multiset{};
      NoMembers(Lanes(e));
      EmptyMeansNoLoads();
      NoOwners(e);
    }

    /** What an answer does: its lanes were waited for; the load leaves with its last lane. */
    ghost predicate Taken(e: seq<Slot<Trace>>, rsp: C.LsuRsp, output0: seq<Trace>, released0: multiset<Trace>, pendingLoads0: int)
      reads `output, `released, `pendingLoads
    {
      && rsp.tag < |e| && e[rsp.tag].Used? && rsp.mask <= e[rsp.tag].value.mask
      && var trace := e[rsp.tag].value.owner;
      && pendingLoads == pendingLoads0 - |rsp.mask|
      && if e[rsp.tag].value.mask == rsp.mask then output == output0 + [trace] && released == released0 + multiset{trace}
         else output == output0 && released == released0
    }
  }

  lemma NothingOwed<X>(a: multiset<X>, t: multiset<X>, w: multiset<X>)
    requires multiset{} == a + t + w
    ensures t + w == multiset{}
  {
    forall x ensures (t + w)[x] == 0 { assert (a + t + w)[x] == 0; }
  }

  lemma Ledger(mem: C.MemCoalescer)
    requires mem.Valid()
    ensures mem.accepted == mem.answered + Owed(mem)
  {
  }

  lemma SameLanes(c: C.Config, r: C.LsuReq, r': C.LsuReq)
    requires C.ReqOk(c, r) && r' == r.(tag := r'.tag)
    ensures C.ReqOk(c, r') && r.mask != {}
  {
  }

  /** What is submitted is owed. */
  lemma Booked(r: C.LsuReq, acc: multiset<(nat, nat)>, ans: multiset<(nat, nat)>, owed: multiset<(nat, nat)>, owed': multiset<(nat, nat)>)
    requires acc == ans + owed && acc + C.ReqTokens(r, {}) == ans + owed'
    ensures owed' == if r.write then owed else owed + Tokens(r.tag, r.mask)
  {
    assert r.mask - {} == r.mask;
    var x := if r.write then multiset{} else Tokens(r.tag, r.mask);
    hide Tokens;
    forall k ensures owed'[k] == (owed + x)[k] {
      assert (ans + owed + x)[k] == (ans + owed')[k];
    }
    assert owed + multiset{} == owed;
  }

  lemma NoMembers<X>(s: set<X>)
    requires multiset(s) == multiset{}
    ensures s == {}
  {
    forall x ensures x !in s { assert multiset(s)[x] == 0; }
  }

  /** What the coalescer answers is no longer owed. */
  lemma Answered<X>(acc: multiset<X>, ans: multiset<X>, owed: multiset<X>, owed': multiset<X>, x: multiset<X>)
    requires acc == ans + owed && (acc == ans + x + owed' || (acc == ans + owed' && x == multiset{}))
    ensures owed == owed' + x && (x == multiset{} ==> owed == owed')
  {
    forall k ensures owed[k] == (owed' + x)[k] {
      assert (ans + owed)[k] == acc[k];
    }
  }

  /** The oldest answer is for lanes the table waits for. */
  lemma FrontAnswer(q: seq<C.LsuRsp>, n: nat, owed: multiset<(nat, nat)>, lanes: set<(nat, nat)>)
    requires n < |q| && multiset(lanes) == RspTokens(q[n..]) + owed
    ensures At(q[n].tag, q[n].mask) <= lanes
    ensures multiset(lanes) == RspTokens(q[n + 1..]) + owed + multiset(At(q[n].tag, q[n].mask))
  {
    TokensAre(q[n].tag, q[n].mask);
    assert q[n..][1..] == q[n + 1..];
    hide Tokens, At;
    forall x | x in At(q[n].tag, q[n].mask) ensures x in lanes {
      assert x in multiset(lanes);
    }
  }

  lemma OwnerAnswered(e: seq<Slot<Trace>>, t: nat, s: Slot<Trace>)
    requires t < |e| && e[t].Used? && (s.Used? ==> s.value.owner == e[t].value.owner)
    ensures Owners(e) == Owners(e[t := s]) + (if s.Used? then multiset{} else multiset{e[t].value.owner})
  {
    OwnersUpdate(e, t, s);
    if s.Used? { Cancelled(Owners(e), Owners(e[t := s]), SlotOwner(s), multiset{}); }
  }
}
