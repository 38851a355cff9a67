/**
 The tagging switch: several inputs share an output, and the number of
 the input rides along in the low bits of the tag. Each output grants
 one input per tick, starting its search at a cursor.
 */
module Switches {
  import opened Arith

  const TAG_BITS: nat := 32

  // ---- Tags ----

  /** The tag on the output of input i, out of 2^lg inputs: a 32-bit shift and or. */
  function Tagged(tag: nat, lg: nat, i: nat): nat {
    if lg == 0 then tag else Or((tag * Pow2(lg)) % Pow2(TAG_BITS), i)
  }

  function SlotOf(tag: nat, lg: nat): nat { if lg == 0 then 0 else tag % Pow2(lg) }

  function Untagged(tag: nat, lg: nat): nat { if lg == 0 then tag else Quotient(tag, Pow2(lg)) }

  /** The slot comes back whatever the tag; of the tag, the bits that fitted beside it. */
  lemma TagRoundTrip(tag: nat, lg: nat, i: nat)
    requires lg <= TAG_BITS && i < Pow2(lg) && tag < Pow2(TAG_BITS)
    ensures Tagged(tag, lg, i) < Pow2(TAG_BITS)
    ensures SlotOf(Tagged(tag, lg, i), lg) == i
    ensures Untagged(Tagged(tag, lg, i), lg) == tag % Pow2(TAG_BITS - lg)
  {
    hide Pow2, Or;
    PowZero();
    if lg > 0 {
      var a, b := Pow2(lg), Pow2(TAG_BITS - lg);
      Pow2Add(TAG_BITS - lg, lg);
      ModScale(tag, a, b);
      OrDisjoint(tag % b, i, lg);
      DivModUnique(tag % b * a + i, a, tag % b, i);
      RowBound(tag % b, b, a, i);
    }
  }

  lemma PowZero()
    ensures Pow2(0) == 1
  {
  }

  /** One stage of a stack of switches: its width in bits and the input taken. */
  datatype Stage = Stage(lg: nat, slot: nat)

  function Width(path: seq<Stage>): nat {
    if path == [] then 0 else Width(path[..|path| - 1]) + path[|path| - 1].lg
  }

  ghost predicate SlotsFit(path: seq<Stage>) { forall k :: 0 <= k < |path| ==> path[k].slot < Pow2(path[k].lg) }

  /** A tag on its way out through the stages. */
  function Outward(tag: nat, path: seq<Stage>): nat {
    if path == [] then tag
    else Tagged(Outward(tag, path[..|path| - 1]), path[|path| - 1].lg, path[|path| - 1].slot)
  }

  /** A tag on its way back: the slots read off, first stage first, and what is left of the tag. */
  function Homeward(tag: nat, path: seq<Stage>): (r: (seq<nat>, nat))
    ensures |r.0| == |path|
  {
    if path == [] then ([], tag)
    else
      var lg := path[|path| - 1].lg;
      var rest := Homeward(Untagged(tag, lg), path[..|path| - 1]);
      (rest.0 + [SlotOf(tag, lg)], rest.1)
  }

  function Slots(path: seq<Stage>): seq<nat> { seq(|path|, k requires 0 <= k < |path| => path[k].slot) }

  /** Cutting off high bits before going home only cuts them off the tag. */
  lemma {:induction false} HomewardMod(tag: nat, path: seq<Stage>, k: nat)
    requires Width(path) <= k
    ensures Homeward(tag % Pow2(k), path) == (Homeward(tag, path).0, Homeward(tag, path).1 % Pow2(k - Width(path)))
  {
    if path != [] {
      var init, lg := path[..|path| - 1], path[|path| - 1].lg;
      HomewardMod(Untagged(tag, lg), init, k - lg);
      CutStage(tag, lg, k);
    }
  }

  lemma CutStage(tag: nat, lg: nat, k: nat)
    requires lg <= k
    ensures SlotOf(tag % Pow2(k), lg) == SlotOf(tag, lg)
    ensures Untagged(tag % Pow2(k), lg) == Untagged(tag, lg) % Pow2(k - lg)
  {
    hide Pow2;
    PowZero();
    Pow2Add(lg, k - lg);
    DivOfMod(tag, Pow2(lg), Pow2(k - lg));
  }

  /**
   Through any stack of switches a response finds the input its request came from, at every stage;
   the tag comes back with the bits that the stages left room for.
   */
  lemma {:induction false} StackRoundTrip(tag: nat, path: seq<Stage>)
    requires tag < Pow2(TAG_BITS) && Width(path) <= TAG_BITS && SlotsFit(path)
    ensures Outward(tag, path) < Pow2(TAG_BITS)
    ensures Homeward(Outward(tag, path), path) == (Slots(path), tag % Pow2(TAG_BITS - Width(path)))
  {
    hide *;
    if path == [] {
      StackEmpty(tag, path);
    } else {
      var init, last := path[..|path| - 1], path[|path| - 1];
      StackLast(tag, path);
      StackRoundTrip(tag, init);
      var w := Outward(tag, init);
      TagRoundTrip(w, last.lg, last.slot);
      HomewardMod(w, init, TAG_BITS - last.lg);
      ModMod(tag, TAG_BITS - Width(path), TAG_BITS - Width(init));
    }
  }

  lemma StackEmpty(tag: nat, path: seq<Stage>)
    requires path == [] && tag < Pow2(TAG_BITS)
    ensures Outward(tag, path) == tag && Width(path) == 0 && Slots(path) == [] && Homeward(tag, path) == ([], tag)
    ensures tag % Pow2(TAG_BITS) == tag
  {
    ModSelf(tag, Pow2(TAG_BITS));
    hide Pow2;
  }

  lemma StackLast(tag: nat, path: seq<Stage>)
    requires path != [] && SlotsFit(path)
    ensures var init, last := path[..|path| - 1], path[|path| - 1];
      && SlotsFit(init) && last.slot < Pow2(last.lg) && Width(path) == Width(init) + last.lg
      && Slots(path) == Slots(init) + [last.slot]
      && Outward(tag, path) == Tagged(Outward(tag, init), last.lg, last.slot)
      && (forall t: nat :: Homeward(t, path)
            == (Homeward(Untagged(t, last.lg), init).0 + [SlotOf(t, last.lg)], Homeward(Untagged(t, last.lg), init).1))
  {
    hide Pow2, Tagged, Untagged, SlotOf;
  }

  /** So the original tag comes back exactly when it fits beside the slots. */
  lemma TagSurvives(tag: nat, path: seq<Stage>)
    requires tag < Pow2(TAG_BITS) && Width(path) <= TAG_BITS && SlotsFit(path)
    ensures Homeward(Outward(tag, path), path) == (Slots(path), tag) <==> tag < Pow2(TAG_BITS - Width(path))
  {
    hide *;
    StackRoundTrip(tag, path);
    ModSelf(tag, Pow2(TAG_BITS - Width(path)));
  }

  /** A 32-bit tag with its top bit set loses it in one stage of two inputs. */
  lemma TagLost(slot: nat)
    requires slot < 2
    ensures Homeward(Outward(0x8000_0000, [Stage(1, slot)]), [Stage(1, slot)]) == ([slot], 0)
  {
    var path := [Stage(1, slot)];
    OneStage(slot);
    HighPowers();
    StackRoundTrip(0x8000_0000, path);
    ModSelf(0, Pow2(31));
    DivModUnique(0x8000_0000, Pow2(31), 1, 0);
    hide *;
    assert Slots(path) == [slot];
  }

  lemma OneStage(slot: nat)
    requires slot < 2
    ensures Width([Stage(1, slot)]) == 1 && SlotsFit([Stage(1, slot)]) && Slots([Stage(1, slot)]) == [slot]
  {
    assert Pow2(1) == 2 * Pow2(0);
    assert [Stage(1, slot)][..0] == [];
  }

  lemma HighPowers()
    ensures Pow2(31) == 0x8000_0000 && Pow2(32) == 0x1_0000_0000
  {
    assert Pow2(7) == 0x80 && Pow2(8) == 0x100;
    Pow2Add(8, 8);
    Pow2Add(16, 8);
    Pow2Add(24, 7);
    Pow2Add(31, 1);
  }

  lemma ModSelf(x: nat, m: nat)
    requires m > 0
    ensures x % m == x <==> x < m
  {
    if x < m { DivModUnique(x, m, 0, x); }
  }

  // ---- Arbitration ----

  /** How far slot i is from the cursor, around a ring of r slots. */
  function Distance(cursor: nat, i: nat, r: nat): nat
    requires r > 0
  {
    (i - cursor) % r
  }

  /** The slot looked at s steps from the cursor. */
  function Probe(cursor: nat, s: nat, r: nat): (i: nat)
    requires r > 0
    ensures i < r
  {
    (cursor + s) % r
  }

  /** The slot granted: the first waiting one from the cursor on, or -1. */
  ghost predicate Grants(cursor: nat, waiting: set<nat>, r: nat, g: int)
    requires r > 0
  {
    && (forall i :: i in waiting ==> i < r)
    && if waiting == {} then g == -1
       else 0 <= g && g in waiting && forall i :: i in waiting ==> Distance(cursor, g, r) <= Distance(cursor, i, r)
  }

  /** Moving the cursor past the granted slot brings every other waiting slot nearer. */
  lemma Nearer(cursor: nat, waiting: set<nat>, r: nat, g: int, i: nat)
    requires r > 0 && Grants(cursor, waiting, r, g) && i in waiting && i != g
    ensures Distance(g + 1, i, r) < Distance(cursor, i, r)
  {
    hide Distance, Modulo;
    DistanceIs(cursor, i, r);
    DistanceIs(cursor, g, r);
    DistancePast(i, g, r);
  }

  lemma DistanceIs(cursor: nat, i: nat, r: nat)
    requires r > 0 && i < r
    ensures var c := Modulo(cursor, r); Distance(cursor, i, r) == if i >= c then i - c else i - c + r
  {
    QuotientModulo(cursor, r);
    var q, c := Quotient(cursor, r), Modulo(cursor, r);
    Ring(i, q, c, r);
    hide Quotient, Modulo;
  }

  lemma DistancePast(i: nat, g: nat, r: nat)
    requires r > 0 && i < r && g < r
    ensures Distance(g + 1, i, r) == if i > g then i - g - 1 else i - g - 1 + r
  {
    if i > g {
      DivModUnique(i - (g + 1), r, 0, i - (g + 1));
    } else {
      DivModUnique(i - (g + 1), r, -1, i - (g + 1) + r);
    }
  }

  lemma Ring(i: nat, q: nat, c: nat, r: nat)
    requires r > 0 && c < r && i < r
    ensures (i - (q * r + c)) % r == if i >= c then i - c else i - c + r
  {
    var p: int := 0 - q;
    assert p * r == 0 - q * r;
    if i >= c {
      DivModUnique(i - (q * r + c), r, p, i - c);
    } else {
      assert (p - 1) * r == p * r - r;
      DivModUnique(i - (q * r + c), r, p - 1, i - c + r);
    }
  }

  // ---- The switch ----

  datatype Req = Req(tag: nat, body: nat)

  datatype Rsp = Rsp(tag: nat, body: nat)

  /** Input i of output o. */
  function Port(o: nat, r: nat, i: nat): nat { o * r + i }

  /** Inputs of different outputs are different. */
  lemma PortsApart(o: nat, r: nat, i: nat, o': nat, i': nat)
    requires i < r && i' < r
    ensures Port(o, r, i) == Port(o', r, i') ==> o == o' && i == i'
  {
    if Port(o, r, i) == Port(o', r, i') {
      DivModUnique(Port(o, r, i), r, o, i);
      DivModUnique(Port(o, r, i), r, o', i');
    }
  }

  /** The inputs of output o that have a request waiting, as slots of o. */
  ghost function Waiting(reqIn: seq<seq<Req>>, o: nat, r: nat): set<nat> {
    set i: nat | i < r && WaitsAt(reqIn, o, r, i)
  }

  ghost predicate WaitsAt(reqIn: seq<seq<Req>>, o: nat, r: nat, i: nat) {
    Port(o, r, i) < |reqIn| && reqIn[Port(o, r, i)] != []
  }

  /** What a tick does for one output, given the slot it granted. */
  ghost predicate Served(o: nat, r: nat, lg: nat, roundRobin: bool, reqIn: seq<seq<Req>>, reqIn': seq<seq<Req>>,
                         out: seq<Req>, out': seq<Req>, cursor: nat, cursor': nat, g: int)
    requires r > 0
  {
    && Grants(cursor, Waiting(reqIn, o, r), r, g)
    && cursor' == (if g == -1 || !roundRobin then cursor else g + 1)
    && (if g == -1 then out' == out
        else 0 <= g < r && WaitsAt(reqIn, o, r, g)
             && var req := reqIn[Port(o, r, g)][0]; out' == out + [Req(Tagged(req.tag, lg, g), req.body)])
    && |reqIn'| == |reqIn|
    && forall i :: 0 <= i < r && Port(o, r, i) < |reqIn| ==>
         reqIn'[Port(o, r, i)] == if i == g then reqIn[Port(o, r, i)][1..] else reqIn[Port(o, r, i)]
  }

  /** The answer in front of an output goes to the input its tag names, without that name. */
  ghost predicate Returned(o: nat, r: nat, lg: nat, out: seq<Rsp>, out': seq<Rsp>, rspIn: seq<seq<Rsp>>, rspIn': seq<seq<Rsp>>) {
    && out' == (if out == [] then [] else out[1..])
    && |rspIn'| == |rspIn|
    && forall i :: 0 <= i < r && Port(o, r, i) < |rspIn| ==>
         rspIn'[Port(o, r, i)] == rspIn[Port(o, r, i)]
           + (if out != [] && SlotOf(out[0].tag, lg) == i then [Rsp(Untagged(out[0].tag, lg), out[0].body)] else [])
  }

  /** The ports and cursors of a switch. */
  datatype State = State(cursors: seq<nat>, reqIn: seq<seq<Req>>, reqOut: seq<seq<Req>>, rspOut: seq<seq<Rsp>>, rspIn: seq<seq<Rsp>>) {
    predicate Sized(inputs: nat, outputs: nat) {
      |cursors| == |reqOut| == |rspOut| == outputs && |reqIn| == |rspIn| == inputs
    }
  }

  /** A switch: 2^lg inputs to an output. */
  datatype Config = Config(inputs: nat, outputs: nat, lg: nat, roundRobin: bool) {
    function Ring(): (r: nat) ensures r > 0 { Pow2(lg) }
  }

  /** What a tick did for outputs below n. */
  ghost predicate TickedTo(c: Config, s: State, s': State, grants: seq<int>, n: nat) {
    && s.Sized(c.inputs, c.outputs) && s'.Sized(c.inputs, c.outputs) && |grants| == n <= c.outputs
    && (forall o :: 0 <= o < n ==>
          && Served(o, c.Ring(), c.lg, c.roundRobin, s.reqIn, s'.reqIn, s.reqOut[o], s'.reqOut[o], s.cursors[o], s'.cursors[o], grants[o])
          && Returned(o, c.Ring(), c.lg, s.rspOut[o], s'.rspOut[o], s.rspIn, s'.rspIn))
    && (forall j :: Port(n, c.Ring(), 0) <= j < c.inputs ==> s'.reqIn[j] == s.reqIn[j] && s'.rspIn[j] == s.rspIn[j])
    && forall o :: n <= o < c.outputs ==>
         s'.reqOut[o] == s.reqOut[o] && s'.cursors[o] == s.cursors[o] && s'.rspOut[o] == s.rspOut[o]
  }

  /** One cycle of the switch; one with as many outputs as inputs is wired through and does nothing. */
  ghost predicate Ticked(c: Config, s: State, s': State, grants: seq<int>) {
    if c.inputs == c.outputs then s' == s && grants == [] && s.Sized(c.inputs, c.outputs)
    else TickedTo(c, s, s', grants, c.outputs)
  }

  lemma PortRows(o: nat, r: nat, i: nat)
    requires i < r
    ensures Port(o, r, 0) <= Port(o, r, i) < Port(o + 1, r, 0)
    ensures forall n: nat :: Port(o, r, i) < Port(n, r, 0) <==> o < n
  {
    assert (o + 1) * r == o * r + r;
    forall n: nat ensures Port(o, r, i) < Port(n, r, 0) <==> o < n { RowBound(o, n, r, i); }
  }

  /** Output o passed on its answer and granted g; nothing else changed. */
  ghost predicate Stepped(c: Config, s: State, s': State, o: nat, g: int) {
    && s.Sized(c.inputs, c.outputs) && s'.Sized(c.inputs, c.outputs) && o < c.outputs
    && Served(o, c.Ring(), c.lg, c.roundRobin, s.reqIn, s'.reqIn, s.reqOut[o], s'.reqOut[o], s.cursors[o], s'.cursors[o], g)
    && Returned(o, c.Ring(), c.lg, s.rspOut[o], s'.rspOut[o], s.rspIn, s'.rspIn)
    && (forall j :: 0 <= j < c.inputs && !(Port(o, c.Ring(), 0) <= j < Port(o + 1, c.Ring(), 0)) ==>
          s'.reqIn[j] == s.reqIn[j] && s'.rspIn[j] == s.rspIn[j])
    && forall p :: 0 <= p < c.outputs && p != o ==>
         s'.reqOut[p] == s.reqOut[p] && s'.cursors[p] == s.cursors[p] && s'.rspOut[p] == s.rspOut[p]
  }

  lemma TickedNone(c: Config, s: State)
    requires s.Sized(c.inputs, c.outputs)
    ensures TickedTo(c, s, s, [], 0)
  {
  }

  lemma TickedMore(c: Config, s0: State, s: State, s': State, grants: seq<int>, o: nat, g: int)
    requires TickedTo(c, s0, s, grants, o) && Stepped(c, s, s', o, g)
    ensures TickedTo(c, s0, s', grants + [g], o + 1)
  {
    hide Port, Served, Returned, Pow2;
    var r := c.Ring();
    forall p, i | 0 <= p <= o && 0 <= i < r
      ensures p < o ==> !(Port(o, r, 0) <= Port(p, r, i) < Port(o + 1, r, 0))
      ensures p == o ==> Port(o, r, 0) <= Port(p, r, i)
    {
      PortRows(p, r, i);
    }
    PortRows(o, r, 0);
    ServedNow(o, r, c.lg, c.roundRobin, s0.reqIn, s.reqIn, s'.reqIn, s.reqOut[o], s'.reqOut[o], s.cursors[o], s'.cursors[o], g);
    ReturnedNow(o, r, c.lg, s.rspOut[o], s'.rspOut[o], s0.rspIn, s.rspIn, s'.rspIn);
    forall p | 0 <= p < o
      ensures Served(p, r, c.lg, c.roundRobin, s0.reqIn, s'.reqIn, s0.reqOut[p], s'.reqOut[p], s0.cursors[p], s'.cursors[p], grants[p])
      ensures Returned(p, r, c.lg, s0.rspOut[p], s'.rspOut[p], s0.rspIn, s'.rspIn)
    {
      ServedKept(p, r, c.lg, c.roundRobin, s0.reqIn, s.reqIn, s'.reqIn, s0.reqOut[p], s'.reqOut[p], s0.cursors[p], s'.cursors[p], grants[p]);
      ReturnedKept(p, r, c.lg, s0.rspOut[p], s'.rspOut[p], s0.rspIn, s.rspIn, s'.rspIn);
    }
  }

  lemma ReturnedNow(o: nat, r: nat, lg: nat, out: seq<Rsp>, out': seq<Rsp>, q0: seq<seq<Rsp>>, q: seq<seq<Rsp>>, q': seq<seq<Rsp>>)
    requires Returned(o, r, lg, out, out', q, q') && |q0| == |q|
    requires forall i :: 0 <= i < r && Port(o, r, i) < |q0| ==> q[Port(o, r, i)] == q0[Port(o, r, i)]
    ensures Returned(o, r, lg, out, out', q0, q')
  {
    hide Port, SlotOf, Untagged;
  }

  lemma ReturnedKept(o: nat, r: nat, lg: nat, out: seq<Rsp>, out': seq<Rsp>, q0: seq<seq<Rsp>>, q: seq<seq<Rsp>>, q': seq<seq<Rsp>>)
    requires Returned(o, r, lg, out, out', q0, q) && |q'| == |q|
    requires forall i :: 0 <= i < r && Port(o, r, i) < |q| ==> q'[Port(o, r, i)] == q[Port(o, r, i)]
    ensures Returned(o, r, lg, out, out', q0, q')
  {
    hide Port, SlotOf, Untagged;
  }

  // ---- Fairness over runs ----

  /** Between two ticks requests may arrive, and other ports may change; the cursors do not. */
  ghost predicate Between(s: State, s': State) {
    && s'.cursors == s.cursors && |s'.reqIn| == |s.reqIn|
    && forall j :: 0 <= j < |s.reqIn| ==> s.reqIn[j] <= s'.reqIn[j]
  }

  /** A run of ticks: the states before and after each, and what each granted. */
  ghost predicate Run(c: Config, before: seq<State>, after: seq<State>, grants: seq<seq<int>>) {
    && |before| == |after| == |grants|
    && (forall k :: 0 <= k < |before| ==> TickedTo(c, before[k], after[k], grants[k], c.outputs))
    && forall k :: 0 <= k < |before| - 1 ==> Between(after[k], before[k + 1])
  }

  /** What a waiting input sees of a tick that does not grant it. */
  lemma Passed(c: Config, s: State, s': State, s'': State, grants: seq<int>, o: nat, i: nat)
    requires c.roundRobin && TickedTo(c, s, s', grants, c.outputs) && Between(s', s'') && o < c.outputs
    requires i < c.Ring() && WaitsAt(s.reqIn, o, c.Ring(), i) && grants[o] != i
    ensures |s''.cursors| == c.outputs && WaitsAt(s''.reqIn, o, c.Ring(), i)
    ensures Distance(s''.cursors[o], i, c.Ring()) < Distance(s.cursors[o], i, c.Ring())
  {
    hide Pow2, Port, Tagged, Returned, Distance;
    var r := c.Ring();
    assert Served(o, r, c.lg, c.roundRobin, s.reqIn, s'.reqIn, s.reqOut[o], s'.reqOut[o], s.cursors[o], s'.cursors[o], grants[o]);
    assert i in Waiting(s.reqIn, o, r);
    Nearer(s.cursors[o], Waiting(s.reqIn, o, r), r, grants[o], i);
    assert s'.reqIn[Port(o, r, i)] <= s''.reqIn[Port(o, r, i)];
  }

  /** A waiting input of an output is granted before its distance from the cursor has run out. */
  lemma {:induction false} Fair(c: Config, before: seq<State>, after: seq<State>, grants: seq<seq<int>>, o: nat, i: nat)
    requires c.roundRobin && Run(c, before, after, grants) && o < c.outputs && i < c.Ring() && before != []
    requires WaitsAt(before[0].reqIn, o, c.Ring(), i) && |before[0].cursors| == c.outputs
    requires |before| > Distance(before[0].cursors[o], i, c.Ring())
    ensures exists k :: 0 <= k <= Distance(before[0].cursors[o], i, c.Ring()) && k < |grants| && o < |grants[k]| && grants[k][o] == i
    decreases |before|
  {
    hide Pow2, Port, TickedTo, Distance, WaitsAt;
    TickedGrants(c, before[0], after[0], grants[0]);
    if grants[0][o] != i {
      if |before| == 1 {
        StillThere(before[0].cursors[o], i, c.Ring());
        LastGrant(c, before[0], after[0], grants[0], o, i);
      } else {
        Passed(c, before[0], after[0], before[1], grants[0], o, i);
        assert Run(c, before[1..], after[1..], grants[1..]) by { RunTail(c, before, after, grants); }
        Fair(c, before[1..], after[1..], grants[1..], o, i);
        var k :| 0 <= k <= Distance(before[1].cursors[o], i, c.Ring()) && k < |grants[1..]| && o < |grants[1..][k]| && grants[1..][k][o] == i;
        assert grants[k + 1][o] == i;
      }
    }
  }

  lemma TickedGrants(c: Config, s: State, s': State, grants: seq<int>)
    requires TickedTo(c, s, s', grants, c.outputs)
    ensures |grants| == c.outputs && |s.cursors| == c.outputs
  {
  }

  lemma StillThere(cursor: nat, i: nat, r: nat)
    requires r > 0
    ensures Distance(cursor, i, r) >= 0
  {
  }

  /** A waiting input at the cursor is granted at once. */
  lemma LastGrant(c: Config, s: State, s': State, grants: seq<int>, o: nat, i: nat)
    requires TickedTo(c, s, s', grants, c.outputs) && o < c.outputs && i < c.Ring() && |s.cursors| == c.outputs
    requires WaitsAt(s.reqIn, o, c.Ring(), i) && Distance(s.cursors[o], i, c.Ring()) == 0
    ensures |grants| == c.outputs && grants[o] == i
  {
    hide Pow2, Port, Tagged, Returned;
    var r, x := c.Ring(), s.cursors[o];
    assert Served(o, r, c.lg, c.roundRobin, s.reqIn, s'.reqIn, s.reqOut[o], s'.reqOut[o], x, s'.cursors[o], grants[o]);
    assert i in Waiting(s.reqIn, o, r);
    ScanReaches(x, r, i);
    ScanReaches(x, r, grants[o]);
  }

  lemma RunTail(c: Config, before: seq<State>, after: seq<State>, grants: seq<seq<int>>)
    requires Run(c, before, after, grants) && before != []
    ensures Run(c, before[1..], after[1..], grants[1..])
  {
    hide TickedTo, Between;
    assert forall k :: 0 <= k < |before| - 1 ==> before[1..][k] == before[k + 1] && after[1..][k] == after[k + 1] && grants[1..][k] == grants[k + 1];
  }

  /** The tick granted input j. */
  ghost predicate GrantedTo(c: Config, grants: seq<int>, j: nat) {
    Quotient(j, c.Ring()) < |grants| && grants[Quotient(j, c.Ring())] == Modulo(j, c.Ring())
  }

  /**
   Round robin: in every run, an input that has a request waiting is granted within R ticks exactly
   when it is below outputs * R.
   */
  lemma GrantedWithinRing(c: Config, before: seq<State>, after: seq<State>, grants: seq<seq<int>>, j: nat)
    requires c.roundRobin && Run(c, before, after, grants) && |before| >= c.Ring()
    requires j < c.inputs && |before[0].reqIn| == c.inputs && before[0].reqIn[j] != []
    ensures (exists k :: 0 <= k < c.Ring() && k < |grants| && GrantedTo(c, grants[k], j)) <==> j < c.outputs * c.Ring()
  {
    hide *;
    var r := c.Ring();
    var o, i := Quotient(j, r), Modulo(j, r);
    QuotientModulo(j, r);
    RowBound(o, c.outputs, r, i);
    RunSized(c, before, after, grants);
    if j < c.outputs * r {
      PortIs(o, r, i);
      WaitsNow(before[0].reqIn, o, r, i);
      DistanceBelow(before[0].cursors[o], i, r);
      Fair(c, before, after, grants, o, i);
      var k :| 0 <= k <= Distance(before[0].cursors[o], i, r) && k < |grants| && o < |grants[k]| && grants[k][o] == i;
      GrantIs(c, grants[k], j);
    } else {
      forall k | 0 <= k < |grants| ensures !GrantedTo(c, grants[k], j) { GrantIs(c, grants[k], j); }
    }
  }

  lemma GrantIs(c: Config, grants: seq<int>, j: nat)
    ensures GrantedTo(c, grants, j) <==> Quotient(j, c.Ring()) < |grants| && grants[Quotient(j, c.Ring())] == Modulo(j, c.Ring())
  {
    hide Pow2;
  }

  lemma RunSized(c: Config, before: seq<State>, after: seq<State>, grants: seq<seq<int>>)
    requires Run(c, before, after, grants) && before != []
    ensures |before[0].cursors| == c.outputs && |grants| == |before|
    ensures forall k :: 0 <= k < |grants| ==> |grants[k]| == c.outputs
  {
    hide Served, Returned;
  }

  lemma PortIs(o: nat, r: nat, i: nat)
    ensures Port(o, r, i) == o * r + i
  {
  }

  lemma WaitsNow(reqIn: seq<seq<Req>>, o: nat, r: nat, i: nat)
    requires Port(o, r, i) < |reqIn| && reqIn[Port(o, r, i)] != []
    ensures WaitsAt(reqIn, o, r, i)
  {
  }

  lemma DistanceBelow(cursor: nat, i: nat, r: nat)
    requires r > 0
    ensures 0 <= Distance(cursor, i, r) < r
  {
  }

  /** An input at or above outputs * R is never served: its queue only grows, in every run. */
  lemma {:induction false} NeverServed(c: Config, before: seq<State>, after: seq<State>, grants: seq<seq<int>>, j: nat)
    requires Run(c, before, after, grants) && before != [] && c.outputs * c.Ring() <= j < c.inputs
    ensures |before[0].reqIn| == c.inputs && |after[|after| - 1].reqIn| == c.inputs
    ensures before[0].reqIn[j] <= after[|after| - 1].reqIn[j]
  {
    hide Pow2, Served, Returned;
    PortIs(c.outputs, c.Ring(), 0);
    assert after[0].reqIn[j] == before[0].reqIn[j] by {
      assert TickedTo(c, before[0], after[0], grants[0], c.outputs);
      hide Port;
    }
    if |before| > 1 {
      RunTail(c, before, after, grants);
      NeverServed(c, before[1..], after[1..], grants[1..], j);
      assert after[1..][|after| - 2] == after[|after| - 1];
      assert Between(after[0], before[1]);
    }
  }

  /** Five inputs and four outputs give one input to an output: the fifth waits for ever. */
  lemma FifthInputStarves(before: seq<State>, after: seq<State>, grants: seq<seq<int>>)
    requires Run(Config(5, 4, Log2Ceil(Quotient(5, 4)), true), before, after, grants) && before != []
    ensures |before[0].reqIn| == 5 && |after[|after| - 1].reqIn| == 5 && before[0].reqIn[4] <= after[|after| - 1].reqIn[4]
  {
    var c := Config(5, 4, Log2Ceil(Quotient(5, 4)), true);
    assert c.lg == 0 && c.outputs * c.Ring() == 4;
    NeverServed(c, before, after, grants, 4);
    hide *;
  }

  // ---- Requests and their answers ----

  function BitLength(n: nat): (k: nat)
    ensures n < Pow2(k) && (k > 0 ==> Pow2(k - 1) <= n)
  {
    if n == 0 then 0 else 1 + BitLength(n / 2)
  }

  lemma {:induction false} BitsBound(n: nat, k: nat)
    requires n < Pow2(k)
    ensures BitLength(n) <= k
  {
    if n > 0 { BitsBound(n / 2, k - 1); }
  }

  /** The least power of two not below n > 0. */
  function Log2Ceil(n: nat): nat
    requires n > 0
  {
    BitLength(n - 1)
  }

  /** A request that left on an output. */
  datatype Issue = Issue(input: nat, output: nat, slot: nat, tag: nat)

  /**
   The requests that left, in order; for each output those behind its requests and behind its answers
   on the way; for each input those behind the answers it got; and those memory has answered.
   */
  datatype Ledger = Ledger(issued: seq<Issue>, sent: seq<seq<nat>>, coming: seq<seq<nat>>, home: seq<seq<nat>>, answered: set<nat>)

  ghost predicate IssueOk(c: Config, e: Issue) {
    && e.output < c.outputs && e.slot < c.Ring() && e.input == Port(e.output, c.Ring(), e.slot) < c.inputs
    && e.tag < Pow2(TAG_BITS)
  }

  /** The tag a request carried on its output, and what its answer gives back. */
  function Wire(c: Config, e: Issue): nat { Tagged(e.tag, c.lg, e.slot) }

  function Kept(c: Config, e: Issue): nat
    requires c.lg <= TAG_BITS
  {
    e.tag % Pow2(TAG_BITS - c.lg)
  }

  /** The ids of a list of lists. */
  ghost function Ids(w: seq<seq<nat>>): multiset<nat> { if w == [] then multiset{} else multiset(w[0]) + Ids(w[1..]) }

  /** The numbers below n, each once. */
  ghost function Numbers(n: nat): multiset<nat> { if n == 0 then multiset{} else Numbers(n - 1) + multiset{n - 1} }

  lemma {:induction false} IdsUpdate(w: seq<seq<nat>>, o: nat, q: seq<nat>)
    requires o < |w|
    ensures Ids(w[o := q]) + multiset(w[o]) == Ids(w) + multiset(q)
  {
    if o == 0 {
      assert w[o := q][1..] == w[1..];
    } else {
      assert w[o := q][1..] == w[1..][o - 1 := q];
      IdsUpdate(w[1..], o - 1, q);
      Swap(multiset(w[0]), Ids(w[1..][o - 1 := q]), multiset(w[o]), Ids(w[1..]), multiset(q));
    }
  }

  lemma Swap<X>(f: multiset<X>, a: multiset<X>, b: multiset<X>, c: multiset<X>, d: multiset<X>)
    requires a + b == c + d
    ensures f + a + b == f + c + d
  {
    assert f + a + b == f + (a + b) && f + c + d == f + (c + d);
  }

  lemma IdsMore(w: seq<seq<nat>>, o: nat, k: nat)
    requires o < |w|
    ensures Ids(w[o := w[o] + [k]]) == Ids(w) + multiset{k}
  {
    IdsUpdate(w, o, w[o] + [k]);
    assert multiset(w[o] + [k]) == multiset(w[o]) + multiset{k};
    hide Ids;
    Cancel(Ids(w[o := w[o] + [k]]), Ids(w), multiset(w[o]), multiset{k});
  }

  lemma IdsLess(w: seq<seq<nat>>, o: nat)
    requires o < |w| && w[o] != []
    ensures Ids(w[o := w[o][1..]]) + multiset{w[o][0]} == Ids(w)
  {
    IdsUpdate(w, o, w[o][1..]);
    assert w[o] == [w[o][0]] + w[o][1..];
    assert multiset(w[o]) == multiset{w[o][0]} + multiset(w[o][1..]);
    hide Ids;
    Cancel(Ids(w), Ids(w[o := w[o][1..]]), multiset(w[o][1..]), multiset{w[o][0]});
  }

  lemma Cancel<X>(a: multiset<X>, b: multiset<X>, s: multiset<X>, k: multiset<X>)
    requires a + s == b + (s + k) || a + s == b + (k + s)
    ensures a == b + k
  {
    forall x ensures a[x] == (b + k)[x] { assert (a + s)[x] == (b + (s + k))[x]; }
  }

  /** The tags of an output's requests or answers are those of the issues behind them. */
  ghost predicate Behind(c: Config, issued: seq<Issue>, o: nat, tags: seq<nat>, ids: seq<nat>) {
    && |ids| == |tags|
    && forall m :: 0 <= m < |ids| ==> ids[m] < |issued| && issued[ids[m]].output == o && tags[m] == Wire(c, issued[ids[m]])
  }

  /** The answers an input got are answers to its own requests, with their own tags. */
  ghost predicate Mine(c: Config, issued: seq<Issue>, j: nat, tags: seq<nat>, ids: seq<nat>)
    requires c.lg <= TAG_BITS
  {
    && |ids| == |tags|
    && forall m :: 0 <= m < |ids| ==> ids[m] < |issued| && issued[ids[m]].input == j && tags[m] == Kept(c, issued[ids[m]])
  }

  function ReqTags(q: seq<Req>): seq<nat> { seq(|q|, m requires 0 <= m < |q| => q[m].tag) }

  function RspTags(q: seq<Rsp>): seq<nat> { seq(|q|, m requires 0 <= m < |q| => q[m].tag) }

  ghost predicate Books(c: Config, s: State, l: Ledger)
    requires c.lg <= TAG_BITS
  {
    && s.Sized(c.inputs, c.outputs) && |l.sent| == |l.coming| == c.outputs && |l.home| == c.inputs
    && (forall k :: 0 <= k < |l.issued| ==> IssueOk(c, l.issued[k]))
    && (forall o :: 0 <= o < c.outputs ==> Behind(c, l.issued, o, ReqTags(s.reqOut[o]), l.sent[o]))
    && (forall o :: 0 <= o < c.outputs ==> Behind(c, l.issued, o, RspTags(s.rspOut[o]), l.coming[o]))
    && (forall j :: 0 <= j < c.inputs ==> Mine(c, l.issued, j, RspTags(s.rspIn[j]), l.home[j]))
    && Ids(l.sent) == Numbers(|l.issued|)
    && (forall k :: k in l.answered ==> k < |l.issued|)
    && Ids(l.coming) + Ids(l.home) == multiset(l.answered)
  }

  lemma BehindMore(c: Config, issued: seq<Issue>, o: nat, tags: seq<nat>, ids: seq<nat>, k: nat)
    requires Behind(c, issued, o, tags, ids) && k < |issued| && issued[k].output == o
    ensures Behind(c, issued, o, tags + [Wire(c, issued[k])], ids + [k])
  {
    hide Wire;
  }

  lemma BehindLater(c: Config, issued: seq<Issue>, e: Issue, o: nat, tags: seq<nat>, ids: seq<nat>)
    requires Behind(c, issued, o, tags, ids)
    ensures Behind(c, issued + [e], o, tags, ids)
  {
    hide Wire;
  }

  lemma BehindRest(c: Config, issued: seq<Issue>, o: nat, tags: seq<nat>, ids: seq<nat>)
    requires Behind(c, issued, o, tags, ids) && tags != []
    ensures Behind(c, issued, o, tags[1..], ids[1..])
    ensures ids[0] < |issued| && issued[ids[0]].output == o && tags[0] == Wire(c, issued[ids[0]])
  {
    hide Wire;
  }

  lemma MineMore(c: Config, issued: seq<Issue>, j: nat, tags: seq<nat>, ids: seq<nat>, k: nat)
    requires c.lg <= TAG_BITS && Mine(c, issued, j, tags, ids) && k < |issued| && issued[k].input == j
    ensures Mine(c, issued, j, tags + [Kept(c, issued[k])], ids + [k])
  {
    hide Kept, Pow2;
  }

  lemma MineLater(c: Config, issued: seq<Issue>, e: Issue, j: nat, tags: seq<nat>, ids: seq<nat>)
    requires c.lg <= TAG_BITS && Mine(c, issued, j, tags, ids)
    ensures Mine(c, issued + [e], j, tags, ids)
  {
    hide Kept, Pow2;
  }

  lemma ReqTagsMore(q: seq<Req>, x: Req)
    ensures ReqTags(q + [x]) == ReqTags(q) + [x.tag]
  {
  }

  lemma RspTagsMore(q: seq<Rsp>, x: Rsp)
    ensures RspTags(q + [x]) == RspTags(q) + [x.tag]
  {
  }

  lemma RspTagsRest(q: seq<Rsp>)
    requires q != []
    ensures RspTags(q[1..]) == RspTags(q)[1..] && RspTags(q)[0] == q[0].tag && RspTags(q) != []
  {
  }

  /** A request leaves on an output. */
  lemma IssueBooks(c: Config, s: State, l: Ledger, e: Issue, body: nat) returns (s': State, l': Ledger)
    requires c.lg <= TAG_BITS && Books(c, s, l) && IssueOk(c, e)
    ensures s' == s.(reqOut := s.reqOut[e.output := s.reqOut[e.output] + [Req(Wire(c, e), body)]])
    ensures l' == l.(issued := l.issued + [e], sent := l.sent[e.output := l.sent[e.output] + [|l.issued|]])
    ensures Books(c, s', l')
  {
    hide Behind, Mine, Ids, ReqTags, RspTags, Wire, IssueOk, Pow2;
    var n, o := |l.issued|, e.output;
    IssueWithin(c, e);
    s' := s.(reqOut := s.reqOut[o := s.reqOut[o] + [Req(Wire(c, e), body)]]);
    l' := l.(issued := l.issued + [e], sent := l.sent[o := l.sent[o] + [n]]);
    forall p | 0 <= p < c.outputs
      ensures Behind(c, l'.issued, p, ReqTags(s'.reqOut[p]), l'.sent[p])
      ensures Behind(c, l'.issued, p, RspTags(s'.rspOut[p]), l'.coming[p])
    {
      BehindLater(c, l.issued, e, p, ReqTags(s.reqOut[p]), l.sent[p]);
      BehindLater(c, l.issued, e, p, RspTags(s.rspOut[p]), l.coming[p]);
      if p == o {
        ReqTagsMore(s.reqOut[o], Req(Wire(c, e), body));
        BehindMore(c, l'.issued, o, ReqTags(s.reqOut[o]), l.sent[o], n);
      }
    }
    forall j | 0 <= j < c.inputs ensures Mine(c, l'.issued, j, RspTags(s'.rspIn[j]), l'.home[j]) {
      MineLater(c, l.issued, e, j, RspTags(s.rspIn[j]), l.home[j]);
    }
    IdsMore(l.sent, o, n);
  }

  lemma IssueWithin(c: Config, e: Issue)
    requires IssueOk(c, e)
    ensures e.output < c.outputs && e.input < c.inputs
  {
  }

  /** Memory answers a request it has not answered yet. */
  lemma AnswerBooks(c: Config, s: State, l: Ledger, o: nat, m: nat, body: nat) returns (s': State, l': Ledger)
    requires c.lg <= TAG_BITS && Books(c, s, l) && o < c.outputs && m < |s.reqOut[o]|
    requires m < |l.sent[o]| && l.sent[o][m] !in l.answered
    ensures s' == s.(rspOut := s.rspOut[o := s.rspOut[o] + [Rsp(s.reqOut[o][m].tag, body)]])
    ensures l' == l.(coming := l.coming[o := l.coming[o] + [l.sent[o][m]]], answered := l.answered + {l.sent[o][m]})
    ensures Books(c, s', l')
  {
    hide Mine, Ids, RspTags, Wire, IssueOk, Pow2;
    var k := l.sent[o][m];
    s' := s.(rspOut := s.rspOut[o := s.rspOut[o] + [Rsp(s.reqOut[o][m].tag, body)]]);
    l' := l.(coming := l.coming[o := l.coming[o] + [k]], answered := l.answered + {k});
    assert Behind(c, l.issued, o, ReqTags(s.reqOut[o]), l.sent[o]);
    assert ReqTags(s.reqOut[o])[m] == s.reqOut[o][m].tag;
    assert k < |l.issued| && l.issued[k].output == o && s.reqOut[o][m].tag == Wire(c, l.issued[k]);
    hide Behind, ReqTags;
    RspTagsMore(s.rspOut[o], Rsp(s.reqOut[o][m].tag, body));
    BehindMore(c, l.issued, o, RspTags(s.rspOut[o]), l.coming[o], k);
    IdsMore(l.coming, o, k);
    AnsweredMore(Ids(l.coming), Ids(l.home), l.answered, k);
  }

  lemma AnsweredMore(a: multiset<nat>, b: multiset<nat>, answered: set<nat>, k: nat)
    requires a + b == multiset(answered) && k !in answered
    ensures (a + multiset{k}) + b == multiset(answered + {k})
  {
    assert multiset(answered + {k}) == multiset(answered) + multiset{k};
  }

  /** The answer in front of an output goes home. */
  lemma ReturnBooks(c: Config, s: State, l: Ledger, o: nat) returns (k: nat, s': State, l': Ledger)
    requires c.lg <= TAG_BITS && Books(c, s, l) && o < c.outputs && s.rspOut[o] != []
    ensures l.coming[o] != [] && k == l.coming[o][0] < |l.issued| && l.issued[k].output == o && IssueOk(c, l.issued[k])
    ensures var e, rsp := l.issued[k], s.rspOut[o][0];
            && SlotOf(rsp.tag, c.lg) == e.slot && Untagged(rsp.tag, c.lg) == Kept(c, e)
            && e.input == Port(o, c.Ring(), SlotOf(rsp.tag, c.lg)) < |s.rspIn|
            && s' == s.(rspOut := s.rspOut[o := s.rspOut[o][1..]],
                        rspIn := s.rspIn[e.input := s.rspIn[e.input] + [Rsp(Kept(c, e), rsp.body)]])
            && l' == l.(coming := l.coming[o := l.coming[o][1..]], home := l.home[e.input := l.home[e.input] + [k]])
    ensures Books(c, s', l')
  {
    hide Behind, Mine, Ids, ReqTags, RspTags, Pow2, Tagged, SlotOf, Untagged, Port;
    var rsp := s.rspOut[o][0];
    RspTagsRest(s.rspOut[o]);
    BehindRest(c, l.issued, o, RspTags(s.rspOut[o]), l.coming[o]);
    BehindSize(c, l.issued, o, RspTags(s.rspOut[o]), l.coming[o]);
    k := l.coming[o][0];
    var e := l.issued[k];
    assert IssueOk(c, e);
    TagRoundTrip(e.tag, c.lg, e.slot);
    var j := e.input;
    s' := s.(rspOut := s.rspOut[o := s.rspOut[o][1..]], rspIn := s.rspIn[j := s.rspIn[j] + [Rsp(Kept(c, e), rsp.body)]]);
    l' := l.(coming := l.coming[o := l.coming[o][1..]], home := l.home[j := l.home[j] + [k]]);
    RspTagsMore(s.rspIn[j], Rsp(Kept(c, e), rsp.body));
    MineMore(c, l.issued, j, RspTags(s.rspIn[j]), l.home[j], k);
    IdsLess(l.coming, o);
    IdsMore(l.home, j, k);
    HomeMore(Ids(l.coming), Ids(l'.coming), Ids(l.home), k);
  }

  lemma BehindSize(c: Config, issued: seq<Issue>, o: nat, tags: seq<nat>, ids: seq<nat>)
    requires Behind(c, issued, o, tags, ids)
    ensures |ids| == |tags|
  {
  }

  lemma HomeMore(a: multiset<nat>, a': multiset<nat>, b: multiset<nat>, k: nat)
    requires a' + multiset{k} == a
    ensures a' + (b + multiset{k}) == a + b
  {
  }

  /**
   Once memory has answered every request that left and no answer is on the way, every request has
   exactly one answer.
   */
  lemma AllHome(c: Config, s: State, l: Ledger)
    requires c.lg <= TAG_BITS && Books(c, s, l)
    requires (forall k :: 0 <= k < |l.issued| ==> k in l.answered) && forall o :: 0 <= o < c.outputs ==> s.rspOut[o] == []
    ensures Ids(l.home) == multiset(l.answered) && forall k :: k in l.answered <==> 0 <= k < |l.issued|
    ensures forall j :: 0 <= j < c.inputs ==> Mine(c, l.issued, j, RspTags(s.rspIn[j]), l.home[j])
  {
    hide Mine, Wire, Pow2, Ids;
    forall o | 0 <= o < c.outputs ensures l.coming[o] == [] {
      assert Behind(c, l.issued, o, RspTags(s.rspOut[o]), l.coming[o]);
    }
    IdsNone(l.coming);
  }

  lemma {:induction false} IdsNone(w: seq<seq<nat>>)
    requires forall o :: 0 <= o < |w| ==> w[o] == []
    ensures Ids(w) == multiset{}
  {
    if w != [] { IdsNone(w[1..]); }
  }

  /** What fills the request queues and where the cursors are does not matter to the books. */
  lemma ReqInBooks(c: Config, s: State, s': State, l: Ledger)
    requires c.lg <= TAG_BITS && Books(c, s, l)
    requires s' == s.(reqIn := s'.reqIn, cursors := s'.cursors) && |s'.reqIn| == |s.reqIn| && |s'.cursors| == |s.cursors|
    ensures Books(c, s', l)
  {
    hide Behind, Mine, Ids, IssueOk, Pow2;
  }

  lemma RingFits(inputs: nat, outputs: nat)
    requires 0 < outputs <= inputs <= 32
    ensures Quotient(inputs, outputs) > 0 && Log2Ceil(Quotient(inputs, outputs)) <= TAG_BITS
    ensures inputs == outputs ==> Log2Ceil(Quotient(inputs, outputs)) == 0
  {
    var q := Quotient(inputs, outputs);
    assert 0 < q <= 32;
    if inputs == outputs { DivModUnique(inputs, outputs, 1, 0); }
    assert Pow2(5) == 32;
    BitsBound(q - 1, 5);
  }

  lemma WiredIssue(c: Config, j: nat, tag: nat)
    requires c.inputs == c.outputs && c.lg == 0 && j < c.inputs && tag < Pow2(TAG_BITS)
    ensures IssueOk(c, Issue(j, j, 0, tag)) && Wire(c, Issue(j, j, 0, tag)) == tag
  {
    hide Pow2;
    PowZero();
  }

  lemma WiredReturn(c: Config, o: nat, tag: nat, e: Issue)
    requires c.inputs == c.outputs && c.lg == 0 && IssueOk(c, e) && e.output == o && Untagged(tag, c.lg) == Kept(c, e)
    ensures e.input == o && Kept(c, e) == tag
  {
    hide Pow2;
    PowZero();
  }

  lemma NotReturned(o: nat, r: nat, lg: nat, rspIn: seq<seq<Rsp>>)
    ensures Returned(o, r, lg, [], [], rspIn, rspIn)
  {
    hide Port;
    assert forall q: seq<Rsp> :: q + [] == q;
  }

  lemma ReturnedBy(o: nat, r: nat, lg: nat, out: seq<Rsp>, rspIn: seq<seq<Rsp>>)
    requires out != [] && SlotOf(out[0].tag, lg) < r && Port(o, r, SlotOf(out[0].tag, lg)) < |rspIn|
    ensures var j := Port(o, r, SlotOf(out[0].tag, lg));
            Returned(o, r, lg, out, out[1..], rspIn, rspIn[j := rspIn[j] + [Rsp(Untagged(out[0].tag, lg), out[0].body)]])
  {
    var k := SlotOf(out[0].tag, lg);
    forall i | 0 <= i < r ensures Port(o, r, i) == Port(o, r, k) ==> i == k { PortsApart(o, r, i, o, k); }
    hide Port, SlotOf, Untagged;
    assert forall q: seq<Rsp> :: q + [] == q;
  }

  lemma WaitingHas(reqIn: seq<seq<Req>>, o: nat, r: nat, i: nat)
    requires i < r
    ensures i in Waiting(reqIn, o, r) <==> Port(o, r, i) < |reqIn| && reqIn[Port(o, r, i)] != []
  {
    hide Port;
  }

  lemma WaitingBelow(reqIn: seq<seq<Req>>, o: nat, r: nat)
    ensures forall i :: i in Waiting(reqIn, o, r) ==> i < r
  {
    hide Port;
  }

  lemma TickedBypass(c: Config, s: State)
    requires c.inputs == c.outputs && s.Sized(c.inputs, c.outputs)
    ensures Ticked(c, s, s, [])
  {
  }

  lemma TickedAll(c: Config, s: State, s': State, grants: seq<int>)
    requires c.inputs != c.outputs && TickedTo(c, s, s', grants, c.outputs)
    ensures Ticked(c, s, s', grants)
  {
  }

  /** Output o and its inputs are all that its turn changed. */
  lemma SteppedBy(c: Config, s: State, m: State, s': State, o: nat, g: int)
    requires s.Sized(c.inputs, c.outputs) && s'.Sized(c.inputs, c.outputs) && o < c.outputs
    requires |m.reqIn| == |m.rspIn| == c.inputs && |m.rspOut| == |m.reqOut| == |m.cursors| == c.outputs
    requires Returned(o, c.Ring(), c.lg, s.rspOut[o], m.rspOut[o], s.rspIn, m.rspIn)
    requires m == s.(rspOut := m.rspOut, rspIn := m.rspIn) && m.rspOut == s.rspOut[o := m.rspOut[o]]
    requires forall j :: 0 <= j < c.inputs && !(Port(o, c.Ring(), 0) <= j < Port(o + 1, c.Ring(), 0)) ==> m.rspIn[j] == s.rspIn[j]
    requires Served(o, c.Ring(), c.lg, c.roundRobin, m.reqIn, s'.reqIn, m.reqOut[o], s'.reqOut[o], m.cursors[o], s'.cursors[o], g)
    requires s' == m.(reqIn := s'.reqIn, reqOut := s'.reqOut, cursors := s'.cursors)
    requires s'.reqOut == m.reqOut[o := s'.reqOut[o]] && s'.cursors == m.cursors[o := s'.cursors[o]]
    requires g == -1 ==> s'.reqIn == m.reqIn
    requires g != -1 ==> 0 <= g < c.Ring() && Port(o, c.Ring(), g) < c.inputs && s'.reqIn == m.reqIn[Port(o, c.Ring(), g) := s'.reqIn[Port(o, c.Ring(), g)]]
    ensures Stepped(c, s, s', o, g)
  {
    hide Port, Served, Returned, Pow2;
    if g != -1 { PortRows(o, c.Ring(), g); }
  }

  lemma SlotRow(c: Config, e: Issue)
    requires IssueOk(c, e)
    ensures Port(e.output, c.Ring(), 0) <= e.input < Port(e.output + 1, c.Ring(), 0) && e.slot < c.Ring()
  {
    PortRows(e.output, c.Ring(), e.slot);
    hide Port, Pow2;
  }

  lemma WireOf(c: Config, s: State, l: Ledger, o: nat)
    requires c.lg <= TAG_BITS && Books(c, s, l) && o < c.outputs && s.rspOut[o] != []
    ensures l.coming[o] != [] && l.coming[o][0] < |l.issued| && s.rspOut[o][0].tag == Wire(c, l.issued[l.coming[o][0]])
  {
    hide Wire, Ids, Numbers, Mine, IssueOk, Pow2;
    assert Behind(c, l.issued, o, RspTags(s.rspOut[o]), l.coming[o]);
    RspTagsRest(s.rspOut[o]);
  }

  class Switch {
    const c: Config
    var cursors: seq<nat>
    var reqIn: seq<seq<Req>>
    var reqOut: seq<seq<Req>>
    var rspOut: seq<seq<Rsp>>
    var rspIn: seq<seq<Rsp>>
    ghost var ledger: Ledger

    ghost function Now(): State
      reads this
    {
      State(cursors, reqIn, reqOut, rspOut, rspIn)
    }

    /** With as many outputs as inputs, each input is bound to its output and no port holds anything. */
    ghost predicate Valid()
      reads this
    {
      && 0 < c.outputs <= c.inputs && c.lg == Log2Ceil(Quotient(c.inputs, c.outputs)) && c.lg <= TAG_BITS
      && Books(c, Now(), ledger)
      && TagsFit()
      && (c.inputs == c.outputs ==> c.lg == 0 && (forall j :: 0 <= j < |reqIn| ==> reqIn[j] == []) && forall o :: 0 <= o < |rspOut| ==> rspOut[o] == [])
    }

    ghost predicate TagsFit()
      reads `reqIn
    {
      forall j, k :: 0 <= j < |reqIn| && 0 <= k < |reqIn[j]| ==> reqIn[j][k].tag < Pow2(TAG_BITS)
    }

    constructor (roundRobin: bool, inputs: nat, outputs: nat)
      requires 0 < outputs <= inputs <= 32
      ensures Valid() && c.inputs == inputs && c.outputs == outputs && c.roundRobin == roundRobin
      ensures ledger.issued == [] && ledger.answered == {} && forall o :: 0 <= o < outputs ==> cursors[o] == 0
    {
      c := Config(inputs, outputs, Log2Ceil(Quotient(inputs, outputs)), roundRobin);
      cursors, reqIn, reqOut := seq(outputs, _ => 0), seq(inputs, _ => []), seq(outputs, _ => []);
      rspOut, rspIn := seq(outputs, _ => []), seq(inputs, _ => []);
      ledger := Ledger([], seq(outputs, _ => []), seq(outputs, _ => []), seq(inputs, _ => []), {});
      new;
      RingFits(inputs, outputs);
      IdsNone(ledger.sent);
      IdsNone(ledger.coming);
      IdsNone(ledger.home);
      hide Pow2, Ids;
    }

    /** A request comes in; wired through, it is at the output at once. */
    method Push(j: nat, r: Req)
      requires Valid() && j < |reqIn| && r.tag < Pow2(TAG_BITS)
      modifies `reqIn, `reqOut, `ledger
      ensures Valid()
      ensures if c.inputs == c.outputs then
                && unchanged(`reqIn) && j < |reqOut| && reqOut == old(reqOut)[j := old(reqOut)[j] + [r]]
                && ledger.issued == old(ledger).issued + [Issue(j, j, 0, r.tag)] && ledger.home == old(ledger).home
              else reqIn == old(reqIn)[j := old(reqIn)[j] + [r]] && unchanged(`reqOut) && unchanged(`ledger)
    {
      hide Books, Pow2, Log2Ceil, Quotient, IssueOk;
      SizedNow();
      if c.inputs == c.outputs {
        WiredIssue(c, j, r.tag);
        ghost var s', l' := IssueBooks(c, Now(), ledger, Issue(j, j, 0, r.tag), r.body);
        reqOut := reqOut[j := reqOut[j] + [r]];
        ledger := l';
      } else {
        ghost var s := Now();
        reqIn := reqIn[j := reqIn[j] + [r]];
        ReqInBooks(c, s, Now(), ledger);
      }
    }

    lemma SizedNow()
      requires c.lg <= TAG_BITS && Books(c, Now(), ledger)
      ensures |cursors| == |reqOut| == |rspOut| == |ledger.sent| == |ledger.coming| == c.outputs
      ensures |reqIn| == |rspIn| == |ledger.home| == c.inputs
      ensures forall o :: 0 <= o < c.outputs ==> |ledger.sent[o]| == |reqOut[o]| && |ledger.coming[o]| == |rspOut[o]|
    {
      hide Ids, Mine, Pow2, IssueOk;
      forall o | 0 <= o < c.outputs ensures |ledger.sent[o]| == |reqOut[o]| && |ledger.coming[o]| == |rspOut[o]| {
        assert Behind(c, ledger.issued, o, ReqTags(Now().reqOut[o]), ledger.sent[o]);
        assert Behind(c, ledger.issued, o, RspTags(Now().rspOut[o]), ledger.coming[o]);
      }
    }

    /** Memory answers request m of output o, once; wired through, the answer is at the input at once. */
    method MemoryAnswers(o: nat, m: nat, body: nat)
      requires Valid() && o < |reqOut| && m < |reqOut[o]| && |ledger.sent| == |reqOut| && m < |ledger.sent[o]|
      requires ledger.sent[o][m] !in ledger.answered
      modifies `rspOut, `rspIn, `ledger
      ensures Valid() && ledger.issued == old(ledger).issued && ledger.answered == old(ledger).answered + {old(ledger).sent[o][m]}
      ensures if c.inputs == c.outputs then
                && o < |rspIn| && unchanged(`rspOut) && rspIn == old(rspIn)[o := old(rspIn)[o] + [Rsp(reqOut[o][m].tag, body)]]
                && ledger.home == old(ledger).home[o := old(ledger).home[o] + [old(ledger).sent[o][m]]]
              else unchanged(`rspIn) && rspOut == old(rspOut)[o := old(rspOut)[o] + [Rsp(reqOut[o][m].tag, body)]]
                   && ledger.home == old(ledger).home
    {
      hide Books, Pow2, Log2Ceil, Quotient, IssueOk, Ids, Port, SlotOf, Untagged, Kept;
      SizedNow();
      ghost var s', l' := AnswerBooks(c, Now(), ledger, o, m, body);
      if c.inputs == c.outputs {
        ghost var k, s'', l'' := ReturnBooks(c, s', l', o);
        WiredReturn(c, o, reqOut[o][m].tag, l'.issued[k]);
        rspIn := rspIn[o := rspIn[o] + [Rsp(reqOut[o][m].tag, body)]];
        ledger := l'';
        assert s''.rspOut[o] == [];
        assert Now() == s'';
      } else {
        rspOut := rspOut[o := rspOut[o] + [Rsp(reqOut[o][m].tag, body)]];
        ledger := l';
      }
    }

    /**
     The answer in front of an output is the answer to a request that left on it: it goes to the input
     that made the request, with the tag the request came with as far as it fitted.
     */
    method TakeResponse(o: nat)
      requires Valid() && c.inputs != c.outputs && o < |rspOut|
      modifies `rspIn, `rspOut, `ledger
      ensures Valid() && |rspIn| == |old(rspIn)| && |rspOut| == |old(rspOut)|
      ensures Returned(o, c.Ring(), c.lg, old(rspOut)[o], rspOut[o], old(rspIn), rspIn)
      ensures ledger.issued == old(ledger).issued && ledger.sent == old(ledger).sent && ledger.answered == old(ledger).answered
      ensures forall j :: 0 <= j < |rspIn| && !(Port(o, c.Ring(), 0) <= j < Port(o + 1, c.Ring(), 0)) ==> rspIn[j] == old(rspIn)[j]
      ensures rspOut == old(rspOut)[o := rspOut[o]]
      ensures if old(rspOut)[o] == [] then unchanged(this)
              else exists k :: Homed(o, k, old(rspOut), old(rspIn), old(ledger), Now(), ledger)
    {
      hide Books, Pow2, Log2Ceil, Quotient, IssueOk, Ids, Port, SlotOf, Untagged, Kept, Returned;
      SizedNow();
      if rspOut[o] == [] {
        NotReturned(o, c.Ring(), c.lg, rspIn);
        return;
      }
      ghost var k, s', l' := ReturnBooks(c, Now(), ledger, o);
      SlotRow(c, l'.issued[k]);
      assert Homed(o, k, rspOut, rspIn, ledger, s', l') by { WireOf(c, Now(), ledger, o); }
      var rsp := rspOut[o][0];
      var j := Port(o, c.Ring(), SlotOf(rsp.tag, c.lg));
      rspIn := rspIn[j := rspIn[j] + [Rsp(Untagged(rsp.tag, c.lg), rsp.body)]];
      rspOut := rspOut[o := rspOut[o][1..]];
      ledger := l';
      assert Now() == s';
      ReturnedBy(o, c.Ring(), c.lg, old(rspOut)[o], old(rspIn));
      assert Homed(o, k, old(rspOut), old(rspIn), old(ledger), Now(), ledger);
    }

    /** The answer to issue k arrived at the input that made it. */
    ghost predicate Homed(o: nat, k: nat, rspOut0: seq<seq<Rsp>>, rspIn0: seq<seq<Rsp>>, l0: Ledger, s: State, l: Ledger)
      requires c.lg <= TAG_BITS
    {
      && o < |rspOut0| == |l0.coming| && rspOut0[o] != [] && l0.coming[o] != [] && k == l0.coming[o][0] < |l0.issued|
      && var e := l0.issued[k];
      && e.output == o && rspOut0[o][0].tag == Wire(c, e) && e.input < |rspIn0| == |l0.home|
      && s.rspOut == rspOut0[o := rspOut0[o][1..]]
      && s.rspIn == rspIn0[e.input := rspIn0[e.input] + [Rsp(Kept(c, e), rspOut0[o][0].body)]]
      && l.home == l0.home[e.input := l0.home[e.input] + [k]]
    }

    /** The request the arbiter picks for an output leaves, tagged with its slot. */
    method TakeRequest(o: nat) returns (g: int)
      requires Valid() && c.inputs != c.outputs && o < c.outputs && |cursors| == c.outputs
      modifies `reqIn, `reqOut, `cursors, `ledger
      ensures Valid() && |cursors| == |reqOut| == c.outputs
      ensures Grants(old(cursors)[o], Waiting(old(reqIn), o, c.Ring()), c.Ring(), g) && (g == -1 || 0 <= g < c.Ring())
      ensures if g == -1 then unchanged(this)
              else
                var j := Port(o, c.Ring(), g);
                && 0 <= j < |old(reqIn)| && old(reqIn)[j] != [] && reqIn == old(reqIn)[j := old(reqIn)[j][1..]]
                && |old(reqOut)| == c.outputs && reqOut == old(reqOut)[o := old(reqOut)[o]
                     + [Req(Tagged(old(reqIn)[j][0].tag, c.lg, g), old(reqIn)[j][0].body)]]
                && cursors == (if c.roundRobin then old(cursors)[o := g + 1] else old(cursors))
                && ledger.issued == old(ledger).issued + [Issue(j, o, g, old(reqIn)[j][0].tag)]
                && ledger == old(ledger).(issued := ledger.issued, sent := ledger.sent)
    {
      hide *;
      ValidNow();
      SizedNow();
      var size := c.Ring();
      var r := 0;
      WaitingBelow(reqIn, o, size);
      while r < size
        invariant r <= size && unchanged(this)
        invariant forall s :: 0 <= s < r ==> Probe(cursors[o], s, size) !in Waiting(reqIn, o, size)
      {
        var i := Probe(cursors[o], r, size);
        var j := Port(o, size, i);
        WaitingHas(reqIn, o, size, i);
        if j < |reqIn| && reqIn[j] != [] {
          FirstFound(cursors[o], Waiting(reqIn, o, size), size, r);
          Depart(o, i, j);
          return i;
        }
        r := r + 1;
      }
      NoneFound(cursors[o], Waiting(reqIn, o, size), size);
      return -1;
    }

    lemma ValidNow()
      requires Valid()
      ensures 0 < c.outputs <= c.inputs && c.lg <= TAG_BITS && Books(c, Now(), ledger)
    {
    }

    /** The front request of input j, in slot i of output o, leaves. */
    method Depart(o: nat, i: nat, j: nat)
      requires Valid() && c.inputs != c.outputs && o < c.outputs && i < c.Ring() && j == Port(o, c.Ring(), i) < |reqIn| && reqIn[j] != []
      requires |cursors| == |reqOut| == c.outputs
      modifies `reqIn, `reqOut, `cursors, `ledger
      ensures Valid() && |cursors| == |reqOut| == c.outputs
      ensures reqIn == old(reqIn)[j := old(reqIn)[j][1..]]
      ensures reqOut == old(reqOut)[o := old(reqOut)[o] + [Req(Tagged(old(reqIn)[j][0].tag, c.lg, i), old(reqIn)[j][0].body)]]
      ensures cursors == if c.roundRobin then old(cursors)[o := i + 1] else old(cursors)
      ensures ledger.issued == old(ledger).issued + [Issue(j, o, i, old(reqIn)[j][0].tag)]
      ensures ledger == old(ledger).(issued := ledger.issued, sent := ledger.sent)
    {
      hide Books, Pow2, Log2Ceil, Quotient, Tagged, Port;
      SizedNow();
      var req := reqIn[j][0];
      assert IssueOk(c, Issue(j, o, i, req.tag));
      ghost var s', l' := IssueBooks(c, Now(), ledger, Issue(j, o, i, req.tag), req.body);
      reqOut := reqOut[o := reqOut[o] + [Req(Tagged(req.tag, c.lg, i), req.body)]];
      reqIn := reqIn[j := reqIn[j][1..]];
      UpdateCursor(o, i);
      ledger := l';
      ReqInBooks(c, s', Now(), l');
    }

    method UpdateCursor(o: nat, grant: nat)
      requires o < |cursors|
      modifies `cursors
      ensures cursors == if c.roundRobin then old(cursors)[o := grant + 1] else old(cursors)
    {
      if c.roundRobin {
        cursors := cursors[o := grant + 1];
      }
    }

    /** A cycle: every output passes on one answer and grants one input. */
    method Tick() returns (grants: seq<int>)
      requires Valid()
      modifies this
      ensures Valid() && Ticked(c, old(Now()), Now(), grants)
      ensures old(ledger).issued <= ledger.issued && ledger.answered == old(ledger).answered
    {
      hide *;
      ghost var s0 := Now();
      ValidNow();
      SizedNow();
      NowIs(s0);
      grants := [];
      if c.inputs == c.outputs {
        NowIs(Now());
        TickedBypass(c, s0);
        return;
      }
      TickedNone(c, s0);
      var o := 0;
      while o < c.outputs
        invariant Valid() && o <= c.outputs && TickedTo(c, s0, Now(), grants, o)
        invariant old(ledger).issued <= ledger.issued && ledger.answered == old(ledger).answered
      {
        ghost var s := Now();
        var g := TickOutput(o);
        TickedMore(c, s0, s, Now(), grants, o, g);
        grants := grants + [g];
        o := o + 1;
      }
      TickedAll(c, s0, Now(), grants);
    }

    lemma NowIs(s: State)
      requires s == Now()
      ensures s == State(cursors, reqIn, reqOut, rspOut, rspIn)
      ensures |cursors| == |reqOut| == |rspOut| == c.outputs && |reqIn| == |rspIn| == c.inputs ==> s.Sized(c.inputs, c.outputs)
    {
    }

    method TickOutput(o: nat) returns (g: int)
      requires Valid() && c.inputs != c.outputs && o < c.outputs
      modifies this
      ensures Valid() && Stepped(c, old(Now()), Now(), o, g)
      ensures old(ledger).issued <= ledger.issued && ledger.answered == old(ledger).answered
    {
      hide *;
      ghost var s := Now();
      NowIs(s);
      ValidNow();
      SizedNow();
      TakeResponse(o);
      ghost var m := Now();
      NowIs(m);
      ValidNow();
      SizedNow();
      g := TakeRequest(o);
      ValidNow();
      SizedNow();
      NowIs(Now());
      ServedBy(o, c.Ring(), c.lg, c.roundRobin, m.reqIn, reqIn, m.reqOut[o], reqOut[o], m.cursors[o], cursors[o], g);
      SteppedBy(c, s, m, Now(), o, g);
    }
  }

  lemma SameWaiting(q: seq<seq<Req>>, q': seq<seq<Req>>, o: nat, r: nat)
    requires |q| == |q'| && forall i :: 0 <= i < r && Port(o, r, i) < |q| ==> q'[Port(o, r, i)] == q[Port(o, r, i)]
    ensures Waiting(q', o, r) == Waiting(q, o, r)
  {
    hide Port;
  }

  lemma ServedKept(p: nat, r: nat, lg: nat, roundRobin: bool, q0: seq<seq<Req>>, q: seq<seq<Req>>, q': seq<seq<Req>>,
                   out: seq<Req>, out': seq<Req>, cursor: nat, cursor': nat, g: int)
    requires r > 0 && Served(p, r, lg, roundRobin, q0, q, out, out', cursor, cursor', g)
    requires |q'| == |q| && forall i :: 0 <= i < r && Port(p, r, i) < |q| ==> q'[Port(p, r, i)] == q[Port(p, r, i)]
    ensures Served(p, r, lg, roundRobin, q0, q', out, out', cursor, cursor', g)
  {
    hide Port, Grants, Waiting, Tagged;
  }

  lemma ServedNow(o: nat, r: nat, lg: nat, roundRobin: bool, q0: seq<seq<Req>>, q: seq<seq<Req>>, q': seq<seq<Req>>,
                  out: seq<Req>, out': seq<Req>, cursor: nat, cursor': nat, g: int)
    requires r > 0 && Served(o, r, lg, roundRobin, q, q', out, out', cursor, cursor', g) && |q0| == |q|
    requires Waiting(q, o, r) == Waiting(q0, o, r)
    requires forall i :: 0 <= i < r && Port(o, r, i) < |q0| ==> q[Port(o, r, i)] == q0[Port(o, r, i)]
    ensures Served(o, r, lg, roundRobin, q0, q', out, out', cursor, cursor', g)
  {
    hide Tagged, Distance, Port, Waiting;
  }

  lemma ServedBy(o: nat, r: nat, lg: nat, roundRobin: bool, q: seq<seq<Req>>, q': seq<seq<Req>>,
                 out: seq<Req>, out': seq<Req>, cursor: nat, cursor': nat, g: int)
    requires r > 0 && Grants(cursor, Waiting(q, o, r), r, g) && |q| == |q'|
    requires cursor' == (if g == -1 || !roundRobin then cursor else g + 1)
    requires if g == -1 then q' == q && out' == out
             else 0 <= g && Port(o, r, g) < |q| && q[Port(o, r, g)] != []
                  && q' == q[Port(o, r, g) := q[Port(o, r, g)][1..]]
                  && out' == out + [Req(Tagged(q[Port(o, r, g)][0].tag, lg, g), q[Port(o, r, g)][0].body)]
    ensures Served(o, r, lg, roundRobin, q, q', out, out', cursor, cursor', g)
  {
    hide Tagged, Distance;
    if g != -1 {
      assert g in Waiting(q, o, r);
      OthersKeep(q, o, r, g);
    }
    hide Port;
  }

  /** Taking a request from an input of o leaves the inputs of the other outputs alone. */
  lemma OthersKeep(q: seq<seq<Req>>, o: nat, r: nat, g: nat)
    requires g < r && Port(o, r, g) < |q| && q[Port(o, r, g)] != []
    ensures forall p, i :: 0 <= p && 0 <= i < r && Port(p, r, i) < |q| && !(p == o && i == g) ==>
      q[Port(o, r, g) := q[Port(o, r, g)][1..]][Port(p, r, i)] == q[Port(p, r, i)]
  {
    forall p: nat, i: nat | i < r && Port(p, r, i) == Port(o, r, g) ensures p == o && i == g { PortsApart(p, r, i, o, g); }
  }

  /** The scan visits slots in order of distance. */
  lemma ScanOrder(cursor: nat, r: nat, s: nat)
    requires r > 0 && s < r
    ensures Probe(cursor, s, r) < r && Distance(cursor, Probe(cursor, s, r), r) == s
  {
    var x := cursor + s;
    var q := x / r;
    assert x == q * r + x % r;
    var p: int := 0 - q;
    assert p * r == 0 - q * r;
    DivModUnique(x % r - cursor, r, p, s);
  }

  lemma ScanReaches(cursor: nat, r: nat, i: nat)
    requires r > 0 && i < r
    ensures Distance(cursor, i, r) < r && Probe(cursor, Distance(cursor, i, r), r) == i
  {
    var d := (i - cursor) % r;
    var q := (i - cursor) / r;
    assert i - cursor == q * r + d;
    var p: int := 0 - q;
    assert p * r == 0 - q * r;
    DivModUnique(cursor + d, r, p, i);
  }

  lemma FirstFound(cursor: nat, waiting: set<nat>, r: nat, s: nat)
    requires r > 0 && s < r && (forall i :: i in waiting ==> i < r) && Probe(cursor, s, r) in waiting
    requires forall t :: 0 <= t < s ==> Probe(cursor, t, r) !in waiting
    ensures Grants(cursor, waiting, r, Probe(cursor, s, r))
  {
    hide Probe, Distance;
    ScanOrder(cursor, r, s);
    forall i | i in waiting ensures s <= Distance(cursor, i, r) { ScanReaches(cursor, r, i); }
  }

  lemma NoneFound(cursor: nat, waiting: set<nat>, r: nat)
    requires r > 0 && (forall i :: i in waiting ==> i < r)
    requires forall t :: 0 <= t < r ==> Probe(cursor, t, r) !in waiting
    ensures Grants(cursor, waiting, r, -1)
  {
    hide Probe, Distance;
    if waiting != {} {
      var i :| i in waiting;
      ScanReaches(cursor, r, i);
      assert false;
    }
  }
}
