/**
 The warp scheduler of a core: which warps are active and stalled, local barriers, and the
 fork and join of warps by wspawn.
 */
module Barrier {

  /** What a scheduled warp has in flight until its trace comes back. */
  datatype Op =
    | Plain
    | Bar(barId: nat, count: nat)
    | Wspawn(numWarps: nat)

  /** The warps of a thread group, as the kernel library numbers them. */
  ghost function Members(group: nat, groupSize: nat, numWarps: nat): set<nat>
    requires groupSize > 0
  {
    set w | 0 <= w < numWarps && w / groupSize == group
  }

  lemma SubsetSize(a: set<nat>, b: set<nat>)
    requires a <= b
    ensures |a| <= |b| && (|a| == |b| ==> a == b)
  {
    assert b == a + (b - a) && |b| == |a| + |b - a|;
  }

  lemma {:induction false} RangeSize(a: set<nat>, lo: nat, n: nat)
    requires forall w :: w in a ==> lo <= w < lo + n
    ensures |a| <= n
  {
    if n == 0 {
      assert a == {};
    } else {
      var last := lo + n - 1;
      RangeSize(a - {last}, lo, n - 1);
      SubsetSize(a, (a - {last}) + {last});
    }
  }

  /** A group has at most as many warps as its size. */
  lemma MembersSize(group: nat, groupSize: nat, numWarps: nat)
    requires groupSize > 0
    ensures |Members(group, groupSize, numWarps)| <= groupSize
  {
    forall w | w in Members(group, groupSize, numWarps) ensures group * groupSize <= w < group * groupSize + groupSize {
      assert w == w / groupSize * groupSize + w % groupSize;
    }
    RangeSize(Members(group, groupSize, numWarps), group * groupSize, groupSize);
  }

  function Below(n: nat): set<nat> { if n == 0 then {} else Below(n - 1) + {n - 1} }

  lemma {:induction false} InBelow(n: nat)
    ensures forall w :: w in Below(n) <==> 0 <= w < n
  {
    if n > 0 { InBelow(n - 1); }
  }

  ghost predicate WaitsIn(barriers: seq<set<nat>>, w: nat) {
    exists b :: 0 <= b < |barriers| && w in barriers[b]
  }

  ghost predicate SameGroup(groupSize: nat, v: nat, w: nat)
    requires groupSize > 0
  {
    v / groupSize == w / groupSize
  }

  /** A warp is stalled for one reason: its trace, a barrier, or a pending fork. */
  ghost predicate StallsOk(numWarps: nat, active: set<nat>, stalled: set<nat>, barriers: seq<set<nat>>,
                           flight: set<nat>, fork: bool)
  {
    && (forall w :: w in active || w in stalled ==> w < numWarps)
    && (forall w :: w in flight ==> w in stalled && !WaitsIn(barriers, w))
    && (forall w :: WaitsIn(barriers, w) ==> w in active && w in stalled)
    && (forall w :: w in stalled ==> w in flight || WaitsIn(barriers, w) || (w == 0 && fork))
    && (fork ==> 0 in active && 0 in stalled && 0 !in flight && !WaitsIn(barriers, 0))
  }

  /** Only the warps of its group wait at a barrier, and never all of them. */
  ghost predicate GroupsApart(numWarps: nat, groupSize: nat, barriers: seq<set<nat>>) {
    if groupSize < 2 then forall b :: 0 <= b < |barriers| ==> barriers[b] == {}
    else forall b :: 0 <= b < |barriers| ==>
           barriers[b] <= Members(b, groupSize, numWarps) && |barriers[b]| < groupSize
  }

  /** The warps of a group are in step: a warp is one barrier ahead exactly while it waits. */
  ghost predicate StepOk(numWarps: nat, groupSize: nat, barriers: seq<set<nat>>, arrived: seq<nat>, passed: seq<nat>) {
    && |arrived| == |passed| == numWarps
    && GroupsApart(numWarps, groupSize, barriers)
    && (forall w :: 0 <= w < numWarps ==> arrived[w] == passed[w] + (if WaitsIn(barriers, w) then 1 else 0))
    && (groupSize >= 2 ==>
          forall v, w :: 0 <= v < numWarps && 0 <= w < numWarps && SameGroup(groupSize, v, w) ==> passed[v] == passed[w])
  }

  /** A warp waits at the barrier of its group or not at all. */
  lemma Home(numWarps: nat, groupSize: nat, barriers: seq<set<nat>>, w: nat)
    requires GroupsApart(numWarps, groupSize, barriers) && groupSize >= 2
    ensures WaitsIn(barriers, w) <==> w / groupSize < |barriers| && w in barriers[w / groupSize]
    ensures WaitsIn(barriers, w) ==> w < numWarps
  {
    assert forall b :: 0 <= b < |barriers| && w in barriers[b] ==> w in Members(b, groupSize, numWarps);
  }

  /** A barrier is changed for the warps of its group only. */
  lemma HomeChanged(numWarps: nat, groupSize: nat, barriers: seq<set<nat>>, g: nat, to: set<nat>, w: nat)
    requires GroupsApart(numWarps, groupSize, barriers) && groupSize >= 2 && g < |barriers|
    requires to <= Members(g, groupSize, numWarps) && |to| < groupSize
    ensures GroupsApart(numWarps, groupSize, barriers[g := to])
    ensures WaitsIn(barriers[g := to], w) <==> if w / groupSize == g then w in to else WaitsIn(barriers, w)
  {
    Home(numWarps, groupSize, barriers, w);
    Home(numWarps, groupSize, barriers[g := to], w);
  }

  /** Coming to the barrier without filling it. */
  lemma WaitKeeps(numWarps: nat, groupSize: nat, active: set<nat>, stalled: set<nat>, barriers: seq<set<nat>>,
                  flight: set<nat>, fork: bool, arrived: seq<nat>, passed: seq<nat>, wid: nat)
    requires groupSize >= 2 && StallsOk(numWarps, active, stalled, barriers, flight, fork)
    requires StepOk(numWarps, groupSize, barriers, arrived, passed)
    requires wid in flight && wid in active && wid / groupSize < |barriers|
    requires |barriers[wid / groupSize] + {wid}| < groupSize
    ensures wid < numWarps
    ensures var g := wid / groupSize;
            var after := barriers[g := barriers[g] + {wid}];
            && StallsOk(numWarps, active, stalled, after, flight - {wid}, fork)
            && StepOk(numWarps, groupSize, after, arrived[wid := arrived[wid] + 1], passed)
            && WaitsIn(after, wid)
  {
    var g := wid / groupSize;
    var to := barriers[g] + {wid};
    var after := barriers[g := to];
    assert wid in Members(g, groupSize, numWarps);
    forall w: nat ensures GroupsApart(numWarps, groupSize, after)
      ensures WaitsIn(after, w) <==> w == wid || WaitsIn(barriers, w)
    {
      HomeChanged(numWarps, groupSize, barriers, g, to, w);
      Home(numWarps, groupSize, barriers, w);
    }
    hide WaitsIn, GroupsApart;
  }

  /** Filling the barrier lets its whole group go on. */
  lemma ReleaseKeeps(numWarps: nat, groupSize: nat, active: set<nat>, stalled: set<nat>, barriers: seq<set<nat>>,
                     flight: set<nat>, fork: bool, arrived: seq<nat>, passed: seq<nat>, wid: nat, passed': seq<nat>)
    requires groupSize >= 2 && StallsOk(numWarps, active, stalled, barriers, flight, fork)
    requires StepOk(numWarps, groupSize, barriers, arrived, passed)
    requires wid in flight && wid in active && wid / groupSize < |barriers|
    requires barriers[wid / groupSize] + {wid} == Members(wid / groupSize, groupSize, numWarps)
    requires |passed'| == numWarps
    requires forall w :: 0 <= w < numWarps ==>
      passed'[w] == passed[w] + (if w in Members(wid / groupSize, groupSize, numWarps) then 1 else 0)
    ensures wid < numWarps
    ensures var g := wid / groupSize;
            var group := Members(g, groupSize, numWarps);
            var after := barriers[g := {}];
            && StallsOk(numWarps, active, stalled - group, after, flight - {wid}, fork)
            && StepOk(numWarps, groupSize, after, arrived[wid := arrived[wid] + 1], passed')
  {
    var g := wid / groupSize;
    var group := Members(g, groupSize, numWarps);
    var after := barriers[g := {}];
    forall w: nat ensures GroupsApart(numWarps, groupSize, after)
      ensures WaitsIn(after, w) <==> WaitsIn(barriers, w) && w !in group
      ensures w in group && w != wid ==> WaitsIn(barriers, w)
    {
      HomeChanged(numWarps, groupSize, barriers, g, {}, w);
      Home(numWarps, groupSize, barriers, w);
    }
    hide WaitsIn, GroupsApart;
  }

  ghost predicate OthersWait(group: set<nat>, barriers: seq<set<nat>>, wid: nat) {
    forall w :: w in group && w != wid ==> WaitsIn(barriers, w)
  }

  /** Both outcomes of coming to a barrier. */
  lemma ArriveKeeps(numWarps: nat, groupSize: nat, active: set<nat>, stalled: set<nat>, barriers: seq<set<nat>>,
                    flight: set<nat>, fork: bool, arrived: seq<nat>, passed: seq<nat>, wid: nat) returns (passed': seq<nat>)
    requires groupSize >= 2 && StallsOk(numWarps, active, stalled, barriers, flight, fork)
    requires StepOk(numWarps, groupSize, barriers, arrived, passed)
    requires wid in flight && wid in active && wid / groupSize < |barriers|
    ensures wid < numWarps && forall w :: w in barriers[wid / groupSize] ==> w < numWarps
    ensures |passed| == |passed'| == |arrived| == numWarps
    ensures var g := wid / groupSize;
      var group, to := Members(g, groupSize, numWarps), barriers[g] + {wid};
      var arrived' := arrived[wid := arrived[wid] + 1];
      && (|to| == groupSize <==> |group| == groupSize && OthersWait(group, barriers, wid))
      && if |to| == groupSize then
           && to == group && (forall w :: 0 <= w < numWarps ==> passed'[w] == passed[w] + (if w in group then 1 else 0))
           && StallsOk(numWarps, active, stalled - group, barriers[g := {}], flight - {wid}, fork)
           && StepOk(numWarps, groupSize, barriers[g := {}], arrived', passed')
         else
           && passed' == passed && WaitsIn(barriers[g := to], wid)
           && StallsOk(numWarps, active, stalled, barriers[g := to], flight - {wid}, fork)
           && StepOk(numWarps, groupSize, barriers[g := to], arrived', passed)
  {
    var g := wid / groupSize;
    var group, to := Members(g, groupSize, numWarps), barriers[g] + {wid};
    MembersSize(g, groupSize, numWarps);
    assert wid in group && barriers[g] <= group;
    GroupFull(barriers[g], wid, group, groupSize);
    SubsetSize(to, group);
    forall w | w in group ensures WaitsIn(barriers, w) <==> w in barriers[g] { Home(numWarps, groupSize, barriers, w); }
    assert to == group <==> OthersWait(group, barriers, wid);
    passed' := passed;
    if |to| == groupSize {
      passed' := seq(numWarps, w requires 0 <= w < numWarps => passed[w] + (if w in group then 1 else 0));
      ReleaseKeeps(numWarps, groupSize, active, stalled, barriers, flight, fork, arrived, passed, wid, passed');
    } else {
      WaitKeeps(numWarps, groupSize, active, stalled, barriers, flight, fork, arrived, passed, wid);
    }
  }

  class Scheduler {
    const numWarps: nat
    var activeWarps: set<nat>
    var stalledWarps: set<nat>
    var barriers: seq<set<nat>>
    var wspawnValid: bool
    var wspawnNumWarps: nat
    /** Traces not yet back, by warp. */
    var inFlight: map<nat, Op>
    /** The warps per group of the running launch. */
    ghost var groupSize: nat
    /** How many barriers each warp has reached, and has got past, in this launch. */
    ghost var arrived: seq<nat>
    ghost var passed: seq<nat>

    ghost predicate Waits(w: nat)
      reads `barriers
    {
      WaitsIn(barriers, w)
    }

    /** A warp is stalled for one reason: its trace, a barrier, or a pending fork. */
    ghost predicate Stalls()
      reads `activeWarps, `stalledWarps, `barriers, `inFlight, `wspawnValid, `wspawnNumWarps
    {
      && StallsOk(numWarps, activeWarps, stalledWarps, barriers, inFlight.Keys, wspawnValid)
      && (wspawnValid ==> wspawnNumWarps <= numWarps)
    }

    /** Requests in flight are those of the kernel library. */
    ghost predicate Requests()
      reads `activeWarps, `barriers, `inFlight, `groupSize
    {
      && (forall w :: w in inFlight && inFlight[w].Wspawn? ==> w == 0 && w in activeWarps)
      && (forall w :: w in inFlight && inFlight[w].Bar? ==>
            w in activeWarps && inFlight[w].count == groupSize
            && (groupSize >= 2 ==> inFlight[w].barId == w / groupSize && inFlight[w].barId < |barriers|))
    }

    /** The warps of a group are in step: a warp is one barrier ahead exactly while it waits. */
    ghost predicate InStep()
      reads `barriers, `groupSize, `arrived, `passed
    {
      StepOk(numWarps, groupSize, barriers, arrived, passed)
    }

    ghost predicate Valid()
      reads this
    {
      Stalls() && Requests() && InStep()
    }

    constructor (numWarps: nat, numBarriers: nat)
      requires numWarps > 0
      ensures Valid() && activeWarps == {0} && stalledWarps == {} && !wspawnValid && inFlight == map[]
      ensures |barriers| == numBarriers && this.numWarps == numWarps && groupSize == 0
    {
      this.numWarps := numWarps;
      activeWarps, stalledWarps, barriers := {0}, {}, seq(numBarriers, _ => {});
      wspawnValid, wspawnNumWarps := false, 0;
      inFlight, groupSize, arrived, passed := map[], 0, seq(numWarps, _ => 0), seq(numWarps, _ => 0);
    }

    /**
     Safety of a local barrier: a warp that got past its n-th barrier knows that every warp of its
     group has reached its n-th.
     */
    lemma BarrierSafe(v: nat, w: nat, n: nat)
      requires Valid() && groupSize >= 2 && v < numWarps && w < numWarps && SameGroup(groupSize, v, w)
      requires passed[v] >= n
      ensures arrived[w] >= n
      ensures passed[w] == passed[v]
      ensures arrived[w] > passed[v] <==> Waits(w)
    {
    }

    // ---- Scheduling ----

    method Suspend(wid: nat)
      requires wid !in stalledWarps
      modifies `stalledWarps
      ensures stalledWarps == old(stalledWarps) + {wid}
    {
      stalledWarps := stalledWarps + {wid};
    }

    method Resume(wid: nat)
      requires wid in stalledWarps
      modifies `stalledWarps
      ensures stalledWarps == old(stalledWarps) - {wid}
    {
      stalledWarps := stalledWarps - {wid};
    }

    /** A pending fork starts its warps, and lets warp 0 go on, only when warp 0 is alone. */
    method Fork()
      requires Valid()
      modifies `activeWarps, `stalledWarps, `wspawnValid
      ensures Valid()
      ensures if old(wspawnValid) && old(activeWarps) == {0}
              then !wspawnValid && stalledWarps == old(stalledWarps) - {0}
                   && activeWarps == {0} + Below(wspawnNumWarps)
              else unchanged(this)
    {
      hide InStep;
      if wspawnValid && |activeWarps| == 1 {
        Alone(activeWarps, 0);
        var i := 1;
        while i < wspawnNumWarps
          invariant 1 <= i && (i <= wspawnNumWarps || (i == 1 && wspawnNumWarps == 0))
          invariant activeWarps == {0} + Below(i)
          modifies `activeWarps
        {
          activeWarps := activeWarps + {i};
          i := i + 1;
        }
        InBelow(wspawnNumWarps);
        wspawnValid := false;
        Resume(0);
      }
    }

    /** The ready warp with the smallest number, or -1. */
    method Schedule() returns (scheduled: int)
      requires Valid()
      ensures if scheduled == -1 then forall w :: w in activeWarps ==> w in stalledWarps
              else 0 <= scheduled && scheduled in activeWarps && scheduled !in stalledWarps
                   && forall w :: 0 <= w < scheduled ==> !(w in activeWarps && w !in stalledWarps)
    {
      scheduled := -1;
      var wid := 0;
      while wid < numWarps
        invariant forall w :: 0 <= w < wid ==> !(w in activeWarps && w !in stalledWarps)
      {
        if wid in activeWarps && wid !in stalledWarps {
          return wid;
        }
        wid := wid + 1;
      }
    }

    /**
     A ready warp executes an instruction: it stalls until its trace is back. A warp whose last
     thread ends is no longer active.
     */
    method Issue(wid: nat, op: Op, ends: bool)
      requires Valid() && wid in activeWarps && wid !in stalledWarps
      requires op.Bar? ==> op.count == groupSize && (groupSize >= 2 ==> op.barId == wid / groupSize && op.barId < |barriers|)
      requires op.Wspawn? ==> wid == 0
      requires ends ==> op.Plain?
      modifies `activeWarps, `stalledWarps, `inFlight
      ensures Valid() && stalledWarps == old(stalledWarps) + {wid} && inFlight == old(inFlight)[wid := op]
      ensures activeWarps == if ends then old(activeWarps) - {wid} else old(activeWarps)
    {
      hide InStep;
      assert !Waits(wid) && wid !in inFlight;
      if ends {
        activeWarps := activeWarps - {wid};
      }
      Suspend(wid);
      inFlight := inFlight[wid := op];
    }

    /** The barrier of the emulator, for local barriers. */
    method ArriveAt(barId: nat, count: nat, wid: nat) returns (release: bool)
      requires count >= 2 ==> barId < |barriers| && forall w :: w in barriers[barId] ==> w < numWarps
      requires wid < numWarps
      modifies `barriers, `stalledWarps
      ensures release <==> count < 2
      ensures release ==> unchanged(this)
      ensures !release ==>
        var b := old(barriers)[barId] + {wid};
        if |b| == count then barriers == old(barriers)[barId := {}] && stalledWarps == old(stalledWarps) - b
        else barriers == old(barriers)[barId := b] && stalledWarps == old(stalledWarps)
    {
      if count < 2 {
        return true;
      }
      barriers := barriers[barId := barriers[barId] + {wid}];
      var b := barriers[barId];
      if |b| == count {
        var i := 0;
        while i < numWarps
          invariant i <= numWarps
          invariant stalledWarps == old(stalledWarps) - set w | w in b && w < i
          modifies `stalledWarps
        {
          if i in b {
            stalledWarps := stalledWarps - {i};
          }
          i := i + 1;
        }
        assert (set w | w in b && w < numWarps) == b;
        barriers := barriers[barId := {}];
      }
      return false;
    }

    /** The warp spawn of the emulator: true lets the caller go on. */
    method RequestSpawn(n: nat) returns (release: bool)
      modifies `wspawnValid, `wspawnNumWarps
      ensures var m := if n < numWarps then n else numWarps;
              && release == (m < 2 && |activeWarps| == 1)
              && if release then unchanged(this) else wspawnValid && wspawnNumWarps == m
    {
      var m := if n < numWarps then n else numWarps;
      if m < 2 && |activeWarps| == 1 {
        return true;
      }
      wspawnValid := true;
      wspawnNumWarps := m;
      return false;
    }

    /** The trace of a plain instruction is back. */
    method PlainDone(wid: nat)
      requires Valid() && wid in inFlight && inFlight[wid].Plain?
      modifies `stalledWarps, `inFlight
      ensures Valid() && stalledWarps == old(stalledWarps) - {wid}
    {
      hide InStep;
      inFlight := inFlight - {wid};
      Resume(wid);
    }

    /**
     The trace of a fork is back: warp 0 goes on at once only when it is alone and asks for no other
     warp; otherwise the fork stays pending for as many warps as were asked for and exist, and warp 0
     waits.
     */
    method SpawnDone()
      requires Valid() && 0 in inFlight && inFlight[0].Wspawn?
      modifies `stalledWarps, `inFlight, `wspawnValid, `wspawnNumWarps
      ensures Valid() && inFlight == old(inFlight) - {0} && (0 in stalledWarps <==> wspawnValid)
      ensures var n := old(inFlight)[0].numWarps;
        if activeWarps == {0} && (n < 2 || numWarps < 2) then stalledWarps == old(stalledWarps) - {0}
        else wspawnValid && stalledWarps == old(stalledWarps) && wspawnNumWarps == if n < numWarps then n else numWarps
    {
      hide InStep;
      var n := inFlight[0].numWarps;
      inFlight := inFlight - {0};
      var release := RequestSpawn(n);
      if release {
        Alone(activeWarps, 0);
        Resume(0);
      }
    }

    /** A barrier for one warp lets it go on. */
    method SingleBarrierDone(wid: nat)
      requires Valid() && wid in inFlight && inFlight[wid].Bar? && groupSize < 2
      modifies `stalledWarps, `inFlight, `barriers, `arrived, `passed
      ensures Valid() && inFlight == old(inFlight) - {wid} && stalledWarps == old(stalledWarps) - {wid}
      ensures arrived == old(arrived)[wid := old(arrived)[wid] + 1] && passed == old(passed)[wid := old(passed)[wid] + 1]
    {
      var op := inFlight[wid];
      var release := ArriveAt(op.barId, op.count, wid);
      inFlight := inFlight - {wid};
      arrived := arrived[wid := arrived[wid] + 1];
      passed := passed[wid := passed[wid] + 1];
      Resume(wid);
    }

    /**
     The trace of a group's barrier is back. The last warp of the group to come releases exactly
     the warps of its group; any other is left waiting.
     */
    method GroupBarrierDone(wid: nat)
      requires Valid() && wid in inFlight && inFlight[wid].Bar? && groupSize >= 2
      modifies `stalledWarps, `inFlight, `barriers, `arrived, `passed
      ensures Valid() && inFlight == old(inFlight) - {wid}
      ensures arrived == old(arrived)[wid := old(arrived)[wid] + 1]
      ensures
        var g := wid / groupSize;
        var group := Members(g, groupSize, numWarps);
        if |group| == groupSize && OthersWait(group, old(barriers), wid) then
          && stalledWarps == old(stalledWarps) - group && barriers == old(barriers)[g := {}]
          && forall w :: 0 <= w < numWarps ==> passed[w] == old(passed)[w] + (if w in group then 1 else 0)
        else stalledWarps == old(stalledWarps) && Waits(wid) && passed == old(passed)
    {
      hide StallsOk, StepOk, WaitsIn, Members, OthersWait, GroupsApart;
      var op := inFlight[wid];
      ghost var after := ArriveKeeps(numWarps, groupSize, activeWarps, stalledWarps, barriers, inFlight.Keys,
                                     wspawnValid, arrived, passed, wid);
      assert (inFlight - {wid}).Keys == inFlight.Keys - {wid};
      var release := ArriveAt(op.barId, op.count, wid);
      inFlight := inFlight - {wid};
      arrived := arrived[wid := arrived[wid] + 1];
      passed := after;
    }

    /** A new launch begins when warp 0 is alone: the barrier counts start again. */
    ghost method Launch(size: nat)
      requires Valid() && activeWarps == {0} && forall w :: w in inFlight ==> !inFlight[w].Bar?
      requires !Waits(0)
      modifies `groupSize, `arrived, `passed
      ensures Valid() && groupSize == size && forall w :: 0 <= w < numWarps ==> arrived[w] == passed[w] == 0
    {
      forall b | 0 <= b < |barriers| ensures barriers[b] == {} {
        forall w ensures w !in barriers[b] { assert w in barriers[b] ==> Waits(w); }
      }
      groupSize, arrived, passed := size, seq(numWarps, _ => 0), seq(numWarps, _ => 0);
    }
  }

  lemma Alone(a: set<nat>, w: nat)
    requires |a| == 1 && w in a
    ensures a == {w}
  {
    SubsetSize({w}, a);
  }

  /** One more warp fills the barrier exactly when all others of a full group wait. */
  lemma GroupFull(waiting: set<nat>, w: nat, group: set<nat>, size: nat)
    requires waiting <= group && w in group && |group| <= size
    ensures |waiting + {w}| == size <==> |group| == size && waiting + {w} == group
  {
    SubsetSize(waiting + {w}, group);
  }
}
