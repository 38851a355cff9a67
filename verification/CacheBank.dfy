/**
 One bank of the non-blocking cache on values: its lines and MSHR; a tick replays, fills, or serves a core request.
 */
module CacheBank {
  import opened Wrappers

  /** Free is the source's None. */
  datatype Kind = Free | Replay | Core

  datatype BankReq = BankReq(reqId: nat, reqTag: nat, setId: nat, tag: nat, write: bool)

  datatype Slot = Slot(kind: Kind, req: BankReq, line: nat)

  datatype Line = Line(tag: nat, lru: nat, valid: bool, dirty: bool)

  /** size is the MSHR's own counter. */
  datatype Bank = Bank(sets: seq<seq<Line>>, mshr: seq<Slot>, size: int)

  datatype Config = Config(numSets: nat, numWays: nat, mshrSize: nat, writeBack: bool, writeResponse: bool) {
    predicate Valid() { numSets > 0 && numWays > 0 && mshrSize > 0 }
  }

  datatype Rsp = Rsp(reqId: nat, reqTag: nat)

  /** A request to memory: a write of a line, or a read whose answer carries the MSHR id. */
  datatype LineReq = LineReq(setId: nat, tag: nat, write: bool, id: nat)

  datatype Result = Result(bank: Bank, rsps: seq<Rsp>, reqs: seq<LineReq>)

  // ---- MSHR ----

  /** The first slot of a kind, or the length. */
  function FirstOf(m: seq<Slot>, k: Kind): (i: nat)
    ensures i <= |m| && (i < |m| ==> m[i].kind == k) && forall j :: 0 <= j < i ==> m[j].kind != k
  {
    if m == [] || m[0].kind == k then 0 else 1 + FirstOf(m[1..], k)
  }

  predicate SameLine(a: BankReq, b: BankReq) { a.setId == b.setId && a.tag == b.tag }

  function Occupied(m: seq<Slot>): nat {
    if m == [] then 0 else (if m[0].kind != Free then 1 else 0) + Occupied(m[1..])
  }

  ghost predicate HasReplay(m: seq<Slot>) { exists i :: 0 <= i < |m| && m[i].kind == Replay }

  predicate Full(b: Bank) { b.size == |b.mshr| }

  /** Whether some slot waits for the line of a request. */
  predicate Pending(m: seq<Slot>, r: BankReq) {
    exists i :: 0 <= i < |m| && m[i].kind != Free && SameLine(m[i].req, r)
  }

  /** The slots after a fill: all misses on the filled line are ready for replay. */
  function Replayed(m: seq<Slot>, id: nat): (r: seq<Slot>)
    requires id < |m|
    ensures |r| == |m|
    ensures forall i {:trigger r[i]} :: 0 <= i < |m| ==>
              r[i] == if m[i].kind == Core && SameLine(m[i].req, m[id].req) then m[i].(kind := Replay) else m[i]
  {
    seq(|m|, i requires 0 <= i < |m| =>
      if m[i].kind == Core && SameLine(m[i].req, m[id].req) then m[i].(kind := Replay) else m[i])
  }

  // ---- Lookup in a set ----

  predicate Hits(l: Line, tag: nat) { l.valid && l.tag == tag }

  /** The last line that hits, or the number of lines. */
  function HitLine(s: seq<Line>, tag: nat): (h: nat)
    ensures h <= |s|
    ensures if h < |s| then Hits(s[h], tag) else forall i :: 0 <= i < |s| ==> !Hits(s[i], tag)
  {
    if s == [] then 0
    else if Hits(s[|s| - 1], tag) then |s| - 1
    else
      var h := HitLine(s[..|s| - 1], tag);
      if h == |s| - 1 then |s| else h
  }

  /** The last line that is not valid, or the number of lines. */
  function FreeLine(s: seq<Line>): (f: nat)
    ensures f <= |s|
    ensures if f < |s| then !s[f].valid else forall i :: 0 <= i < |s| ==> s[i].valid
  {
    if s == [] then 0
    else if !s[|s| - 1].valid then |s| - 1
    else
      var f := FreeLine(s[..|s| - 1]);
      if f == |s| - 1 then |s| else f
  }

  /** The first line with the largest counter. */
  function OldestLine(s: seq<Line>): (v: nat)
    requires s != []
    ensures v < |s|
    ensures forall i :: 0 <= i < |s| ==> s[i].lru <= s[v].lru
    ensures forall i :: 0 <= i < v ==> s[i].lru < s[v].lru
  {
    if |s| == 1 then 0
    else
      var v := OldestLine(s[..|s| - 1]);
      if s[v].lru < s[|s| - 1].lru then |s| - 1 else v
  }

  /** A lookup ages the valid lines that miss and renews those that hit. */
  function Aged(s: seq<Line>, tag: nat): (r: seq<Line>)
    ensures |r| == |s|
    ensures forall i {:trigger r[i]} :: 0 <= i < |s| ==>
              r[i] == if !s[i].valid then s[i] else if s[i].tag == tag then s[i].(lru := 0) else s[i].(lru := s[i].lru + 1)
  {
    seq(|s|, i requires 0 <= i < |s| =>
      if !s[i].valid then s[i] else if s[i].tag == tag then s[i].(lru := 0) else s[i].(lru := s[i].lru + 1))
  }

  function Victim(s: seq<Line>): (v: nat)
    requires s != []
    ensures v < |s|
  {
    if FreeLine(s) < |s| then FreeLine(s) else OldestLine(s)
  }

  // ---- The steps of a bank ----

  predicate Responds(c: Config, r: BankReq) { !r.write || c.writeResponse }

  function Answer(c: Config, r: BankReq): seq<Rsp> { if Responds(c, r) then [Rsp(r.reqId, r.reqTag)] else [] }

  function StepReplay(c: Config, b: Bank): Result
    requires FirstOf(b.mshr, Replay) < |b.mshr|
  {
    var i := FirstOf(b.mshr, Replay);
    Result(b.(mshr := b.mshr[i := b.mshr[i].(kind := Free)], size := b.size - 1), Answer(c, b.mshr[i].req), [])
  }

  function StepFill(b: Bank, id: nat): Result
    requires id < |b.mshr| && b.mshr[id].req.setId < |b.sets| && b.mshr[id].line < |b.sets[b.mshr[id].req.setId]|
  {
    var r := b.mshr[id];
    var s := b.sets[r.req.setId];
    Result(b.(mshr := Replayed(b.mshr, id),
              sets := b.sets[r.req.setId := s[r.line := s[r.line].(tag := r.req.tag, valid := true)]]), [], [])
  }

  /** A hit: writes go through to memory or make the line dirty. */
  function StepHit(c: Config, b: Bank, r: BankReq): Result
    requires r.setId < |b.sets| && HitLine(b.sets[r.setId], r.tag) < |b.sets[r.setId]|
  {
    var s, h := Aged(b.sets[r.setId], r.tag), HitLine(b.sets[r.setId], r.tag);
    var s' := if r.write && c.writeBack then s[h := s[h].(dirty := true)] else s;
    Result(b.(sets := b.sets[r.setId := s']), Answer(c, r),
           if r.write && !c.writeBack then [LineReq(r.setId, r.tag, true, 0)] else [])
  }

  /** A miss: a write goes through, anything else waits in the MSHR and asks for its line once. */
  function StepMiss(c: Config, b: Bank, r: BankReq): Result
    requires r.setId < |b.sets| && b.sets[r.setId] != []
    requires (r.write && !c.writeBack) || FirstOf(b.mshr, Free) < |b.mshr|
  {
    var s := b.sets[r.setId];
    var b' := b.(sets := b.sets[r.setId := Aged(s, r.tag)]);
    var evict := if FreeLine(s) == |s| && c.writeBack && s[OldestLine(s)].dirty
                 then [LineReq(r.setId, s[OldestLine(s)].tag, true, 0)] else [];
    if r.write && !c.writeBack then
      Result(b', Answer(c, r), evict + [LineReq(r.setId, r.tag, true, 0)])
    else
      var i := FirstOf(b.mshr, Free);
      Result(b'.(mshr := b.mshr[i := Slot(Core, r, Victim(s))], size := b.size + 1), [],
             evict + if Pending(b.mshr, r) then [] else [LineReq(r.setId, r.tag, false, i)])
  }

  function StepCore(c: Config, b: Bank, r: BankReq): Result
    requires r.setId < |b.sets| && b.sets[r.setId] != []
    requires (r.write && !c.writeBack) || FirstOf(b.mshr, Free) < |b.mshr|
  {
    if HitLine(b.sets[r.setId], r.tag) < |b.sets[r.setId]| then StepHit(c, b, r) else StepMiss(c, b, r)
  }

  /** Whether the tick may take a core request: the MSHR has room, or a write that never waits there. */
  predicate Accepts(c: Config, b: Bank, r: BankReq) { (r.write && !c.writeBack) || !Full(b) }

  // ---- What every step keeps ----

  ghost predicate Shape(c: Config, b: Bank) {
    && c.Valid() && |b.mshr| == c.mshrSize && |b.sets| == c.numSets
    && (forall s :: s in b.sets ==> |s| == c.numWays)
    && b.size == Occupied(b.mshr)
    && (forall i {:trigger b.mshr[i]} :: 0 <= i < |b.mshr| && b.mshr[i].kind != Free ==>
          b.mshr[i].req.setId < c.numSets && b.mshr[i].line < c.numWays)
  }

  ghost predicate InSet(s: seq<Line>, tag: nat) { exists l :: 0 <= l < |s| && Hits(s[l], tag) }

  ghost predicate Resident(b: Bank, r: BankReq)
    requires r.setId < |b.sets|
  {
    InSet(b.sets[r.setId], r.tag)
  }

  /** No tag is in two valid lines of a set. */
  ghost predicate OneCopy(s: seq<Line>) {
    forall i, j {:trigger s[i], s[j]} :: 0 <= i < j < |s| && s[i].valid && s[j].valid ==> s[i].tag != s[j].tag
  }

  /** out is the set of fills that memory has been asked for and the bank has not taken yet. */
  ghost predicate Fills(b: Bank, out: set<nat>) {
    && (forall id :: id in out ==> id < |b.mshr| && b.mshr[id].kind == Core)
    && (forall i, j :: i in out && j in out && SameLine(b.mshr[i].req, b.mshr[j].req) ==> i == j)
    && (forall i {:trigger b.mshr[i]} :: 0 <= i < |b.mshr| && b.mshr[i].kind == Core ==>
          exists id :: id in out && SameLine(b.mshr[i].req, b.mshr[id].req))
  }

  /** Waiting lines are not resident, lines of replays are, and each tag is held once. */
  ghost predicate Lines(b: Bank)
    requires forall i {:trigger b.mshr[i]} :: 0 <= i < |b.mshr| && b.mshr[i].kind != Free ==> b.mshr[i].req.setId < |b.sets|
  {
    && (forall i {:trigger b.mshr[i]} :: 0 <= i < |b.mshr| && b.mshr[i].kind == Core ==>
          !Resident(b, b.mshr[i].req))
    && (forall i {:trigger b.mshr[i]} :: 0 <= i < |b.mshr| && b.mshr[i].kind == Replay ==>
          Resident(b, b.mshr[i].req))
    && (forall s :: s in b.sets ==> OneCopy(s))
  }

  ghost predicate Inv(c: Config, b: Bank, out: set<nat>) { Shape(c, b) && Fills(b, out) && Lines(b) }

  /** The fills asked for by a result, added to those outstanding. */
  function Asked(reqs: seq<LineReq>): set<nat> { set r | r in reqs && !r.write :: r.id }

  // ---- Counting slots ----

  lemma {:induction false} OccupiedUpdate(m: seq<Slot>, i: nat, s: Slot)
    requires i < |m|
    ensures Occupied(m[i := s]) == Occupied(m) - (if m[i].kind != Free then 1 else 0) + (if s.kind != Free then 1 else 0)
  {
    if i == 0 {
      assert m[i := s][1..] == m[1..];
    } else {
      assert m[i := s][1..] == m[1..][i - 1 := s];
      OccupiedUpdate(m[1..], i - 1, s);
    }
  }

  lemma {:induction false} OccupiedSame(m: seq<Slot>, r: seq<Slot>)
    requires |m| == |r| && forall i :: 0 <= i < |m| ==> (m[i].kind == Free <==> r[i].kind == Free)
    ensures Occupied(m) == Occupied(r)
  {
    if m != [] { OccupiedSame(m[1..], r[1..]); }
  }

  /** The counter tells when the MSHR is full: a slot is free exactly when it is not. */
  lemma {:induction false} FullMeans(m: seq<Slot>)
    ensures Occupied(m) <= |m|
    ensures Occupied(m) == |m| <==> FirstOf(m, Free) == |m|
  {
    if m != [] { FullMeans(m[1..]); }
  }

  // ---- Replay ----

  lemma ReplayKeeps(c: Config, b: Bank, out: set<nat>)
    requires Inv(c, b, out) && HasReplay(b.mshr)
    ensures FirstOf(b.mshr, Replay) < |b.mshr| && Inv(c, StepReplay(c, b).bank, out)
  {
    hide *;
    HasFirstReplay(b.mshr);
    var i := FirstOf(b.mshr, Replay);
    InvIs(c, b, out);
    StepReplayIs(c, b);
    ReplayShape(c, b, i);
    ReplayLines(b, i);
    FillsElsewhere(b, StepReplay(c, b).bank, out, i);
    InvFrom(c, StepReplay(c, b).bank, out);
  }

  lemma HasFirstReplay(m: seq<Slot>)
    ensures HasReplay(m) <==> FirstOf(m, Replay) < |m|
    ensures FirstOf(m, Replay) < |m| ==> m[FirstOf(m, Replay)].kind == Replay
  {
  }

  lemma StepReplayIs(c: Config, b: Bank)
    requires FirstOf(b.mshr, Replay) < |b.mshr|
    ensures var i := FirstOf(b.mshr, Replay);
            StepReplay(c, b).bank == b.(mshr := b.mshr[i := b.mshr[i].(kind := Free)], size := b.size - 1)
  {
  }

  lemma ReplayShape(c: Config, b: Bank, i: nat)
    requires Shape(c, b) && i < |b.mshr| && b.mshr[i].kind == Replay
    ensures Shape(c, b.(mshr := b.mshr[i := b.mshr[i].(kind := Free)], size := b.size - 1))
  {
    OccupiedUpdate(b.mshr, i, b.mshr[i].(kind := Free));
  }

  lemma ReplayLines(b: Bank, i: nat)
    requires forall k {:trigger b.mshr[k]} :: 0 <= k < |b.mshr| && b.mshr[k].kind != Free ==> b.mshr[k].req.setId < |b.sets|
    requires Lines(b) && i < |b.mshr|
    ensures var b' := b.(mshr := b.mshr[i := b.mshr[i].(kind := Free)], size := b.size - 1);
            && (forall k {:trigger b'.mshr[k]} :: 0 <= k < |b'.mshr| && b'.mshr[k].kind != Free ==> b'.mshr[k].req.setId < |b'.sets|)
            && Lines(b')
  {
    hide OneCopy, InSet;
  }

  lemma FillsElsewhere(b: Bank, b': Bank, out: set<nat>, i: nat)
    requires Fills(b, out) && i < |b.mshr| && b.mshr[i].kind != Core && b'.mshr == b.mshr[i := b.mshr[i].(kind := Free)]
    ensures Fills(b', out)
  {
  }

  // ---- Fill ----

  /** The assertion in MSHR::replay: the root entry of a fill is a waiting miss. */
  lemma FillRootWaits(c: Config, b: Bank, out: set<nat>, id: nat)
    requires Inv(c, b, out) && id in out
    ensures id < |b.mshr| && b.mshr[id].kind == Core
    ensures b.mshr[id].req.setId < |b.sets| && b.mshr[id].line < |b.sets[b.mshr[id].req.setId]|
  {
    assert b.sets[b.mshr[id].req.setId] in b.sets;
  }

  lemma FillFills(b: Bank, out: set<nat>, id: nat, m: seq<Slot>)
    requires Fills(b, out) && id in out && m == Replayed(b.mshr, id)
    ensures Fills(b.(mshr := m), out - {id})
  {
    var b' := b.(mshr := m);
    forall i {:trigger m[i]} | 0 <= i < |m| && m[i].kind == Core
      ensures exists k :: k in out - {id} && SameLine(m[i].req, m[k].req)
    {
      var k :| k in out && SameLine(b.mshr[i].req, b.mshr[k].req);
      assert m[k].req == b.mshr[k].req;
    }
  }

  /** The filled set: the new tag is in it once, and no other tag came in. */
  lemma FilledSet(s: seq<Line>, l: nat, tag: nat)
    requires l < |s| && OneCopy(s) && !InSet(s, tag)
    ensures var s' := s[l := s[l].(tag := tag, valid := true)];
            OneCopy(s') && InSet(s', tag) && forall t: nat :: t != tag && InSet(s', t) ==> InSet(s, t)
  {
    var s' := s[l := s[l].(tag := tag, valid := true)];
    assert Hits(s'[l], tag);
    forall i, j | 0 <= i < j < |s'| && s'[i].valid && s'[j].valid ensures s'[i].tag != s'[j].tag {
      if i == l { assert !Hits(s[j], tag); }
      if j == l { assert !Hits(s[i], tag); }
    }
    forall t: nat | t != tag && InSet(s', t) ensures InSet(s, t) {
      var k :| 0 <= k < |s'| && Hits(s'[k], t);
      assert Hits(s[k], t);
    }
  }

  lemma FillShape(c: Config, b: Bank, id: nat)
    requires Shape(c, b)
    requires id < |b.mshr| && b.mshr[id].req.setId < |b.sets| && b.mshr[id].line < |b.sets[b.mshr[id].req.setId]|
    ensures Shape(c, StepFill(b, id).bank)
  {
    var b' := StepFill(b, id).bank;
    OccupiedSame(b.mshr, b'.mshr);
    forall x | x in b'.sets ensures |x| == c.numWays {
      var k :| 0 <= k < |b'.sets| && b'.sets[k] == x;
      assert b.sets[k] in b.sets;
    }
  }

  lemma FillLines(c: Config, b: Bank, id: nat)
    requires Shape(c, b) && Lines(b) && !HasReplay(b.mshr)
    requires id < |b.mshr| && b.mshr[id].kind == Core
    requires b.mshr[id].req.setId < |b.sets| && b.mshr[id].line < |b.sets[b.mshr[id].req.setId]|
    ensures Shape(c, StepFill(b, id).bank) && Lines(StepFill(b, id).bank)
  {
    hide OneCopy, InSet;
    var r, b' := b.mshr[id], StepFill(b, id).bank;
    FillShape(c, b, id);
    var s := b.sets[r.req.setId];
    assert s in b.sets && !Resident(b, r.req);
    FilledSet(s, r.line, r.req.tag);
    forall x | x in b'.sets ensures OneCopy(x) {
      var k :| 0 <= k < |b'.sets| && b'.sets[k] == x;
      assert b.sets[k] in b.sets;
    }
  }

  lemma FillKeeps(c: Config, b: Bank, out: set<nat>, id: nat)
    requires Inv(c, b, out) && id in out && !HasReplay(b.mshr)
    ensures id < |b.mshr| && b.mshr[id].req.setId < |b.sets| && b.mshr[id].line < |b.sets[b.mshr[id].req.setId]|
    ensures Inv(c, StepFill(b, id).bank, out - {id})
  {
    FillRootWaits(c, b, out, id);
    FillLines(c, b, id);
    FillFills(b, out, id, Replayed(b.mshr, id));
  }

  // ---- Core requests ----

  /** The same tags are valid in the same lines. */
  ghost predicate SameTags(s: seq<Line>, s': seq<Line>) {
    |s| == |s'| && forall i {:trigger s'[i]} :: 0 <= i < |s| ==> s'[i].valid == s[i].valid && s'[i].tag == s[i].tag
  }

  lemma SameTagsSet(s: seq<Line>, s': seq<Line>)
    requires SameTags(s, s')
    ensures OneCopy(s) ==> OneCopy(s')
    ensures forall t: nat :: InSet(s, t) <==> InSet(s', t)
  {
    forall t: nat ensures InSet(s, t) <==> InSet(s', t) {
      if i :| 0 <= i < |s| && Hits(s[i], t) { assert Hits(s'[i], t); }
      if i :| 0 <= i < |s'| && Hits(s'[i], t) { assert Hits(s[i], t); }
    }
  }

  /** Ageing and dirtying lines of a set changes nothing that the bank keeps. */
  lemma TouchKeeps(c: Config, b: Bank, out: set<nat>, k: nat, s': seq<Line>)
    requires Inv(c, b, out) && k < |b.sets| && SameTags(b.sets[k], s')
    ensures Inv(c, b.(sets := b.sets[k := s']), out)
  {
    hide OneCopy, InSet, SameTags, Fills;
    var b' := b.(sets := b.sets[k := s']);
    assert b.sets[k] in b.sets;
    assert |s'| == |b.sets[k]| by { SameTagsLength(b.sets[k], s'); }
    SameTagsSet(b.sets[k], s');
    SameFills(b, b', out);
    forall x | x in b'.sets ensures OneCopy(x) && |x| == c.numWays {
      var i :| 0 <= i < |b'.sets| && b'.sets[i] == x;
      assert b.sets[i] in b.sets;
    }
  }

  lemma SameTagsLength(s: seq<Line>, s': seq<Line>)
    requires SameTags(s, s')
    ensures |s| == |s'|
  {
  }

  lemma SameFills(b: Bank, b': Bank, out: set<nat>)
    requires Fills(b, out) && b'.mshr == b.mshr
    ensures Fills(b', out)
  {
  }

  /** A free slot takes a missing request; a fill is asked for unless one is on its way. */
  lemma AllocateKeeps(c: Config, b: Bank, out: set<nat>, r: BankReq, line: nat)
    requires Inv(c, b, out) && !HasReplay(b.mshr) && r.setId < c.numSets && line < c.numWays
    requires !Resident(b, r) && FirstOf(b.mshr, Free) < |b.mshr|
    ensures var i := FirstOf(b.mshr, Free);
            && i !in out
            && Inv(c, b.(mshr := b.mshr[i := Slot(Core, r, line)], size := b.size + 1),
                   if Pending(b.mshr, r) then out else out + {i})
  {
    hide *;
    var i := FirstOf(b.mshr, Free);
    InvIs(c, b, out);
    AllocateFills(b, out, r, line);
    AllocateShape(c, b, r, line);
    AllocateLines(c, b, r, line);
    var b' := b.(mshr := b.mshr[i := Slot(Core, r, line)], size := b.size + 1);
    SameFills(b.(mshr := b'.mshr), b', if Pending(b.mshr, r) then out else out + {i});
    InvFrom(c, b', if Pending(b.mshr, r) then out else out + {i});
  }

  lemma InvIs(c: Config, b: Bank, out: set<nat>)
    requires Inv(c, b, out)
    ensures Shape(c, b) && Fills(b, out) && |b.sets| == c.numSets
    ensures (forall i {:trigger b.mshr[i]} :: 0 <= i < |b.mshr| && b.mshr[i].kind != Free ==> b.mshr[i].req.setId < |b.sets|) && Lines(b)
  {
    hide Fills, Lines;
  }

  lemma InvFrom(c: Config, b: Bank, out: set<nat>)
    requires Shape(c, b) && Fills(b, out)
    requires (forall i {:trigger b.mshr[i]} :: 0 <= i < |b.mshr| && b.mshr[i].kind != Free ==> b.mshr[i].req.setId < |b.sets|) && Lines(b)
    ensures Inv(c, b, out)
  {
    hide Shape, Fills, Lines;
  }

  lemma AllocateShape(c: Config, b: Bank, r: BankReq, line: nat)
    requires Shape(c, b) && r.setId < c.numSets && line < c.numWays && FirstOf(b.mshr, Free) < |b.mshr|
    ensures Shape(c, b.(mshr := b.mshr[FirstOf(b.mshr, Free) := Slot(Core, r, line)], size := b.size + 1))
  {
    OccupiedUpdate(b.mshr, FirstOf(b.mshr, Free), Slot(Core, r, line));
  }

  lemma AllocateLines(c: Config, b: Bank, r: BankReq, line: nat)
    requires forall i {:trigger b.mshr[i]} :: 0 <= i < |b.mshr| && b.mshr[i].kind != Free ==> b.mshr[i].req.setId < |b.sets|
    requires Lines(b) && r.setId < |b.sets| && !Resident(b, r) && FirstOf(b.mshr, Free) < |b.mshr|
    ensures var b' := b.(mshr := b.mshr[FirstOf(b.mshr, Free) := Slot(Core, r, line)], size := b.size + 1);
            && (forall i {:trigger b'.mshr[i]} :: 0 <= i < |b'.mshr| && b'.mshr[i].kind != Free ==> b'.mshr[i].req.setId < |b'.sets|)
            && Lines(b')
  {
    hide OneCopy, InSet;
  }

  lemma AllocateFills(b: Bank, out: set<nat>, r: BankReq, line: nat)
    requires Fills(b, out) && !HasReplay(b.mshr) && FirstOf(b.mshr, Free) < |b.mshr|
    ensures var i := FirstOf(b.mshr, Free);
            i !in out && Fills(b.(mshr := b.mshr[i := Slot(Core, r, line)]), if Pending(b.mshr, r) then out else out + {i})
  {
    var i := FirstOf(b.mshr, Free);
    if j :| 0 <= j < |b.mshr| && b.mshr[j].kind != Free && SameLine(b.mshr[j].req, r) {
      assert b.mshr[j].kind == Core;
      var id :| id in out && SameLine(b.mshr[j].req, b.mshr[id].req);
      AllocatePending(b, out, i, Slot(Core, r, line), id);
    } else {
      AllocateFresh(b, out, i, Slot(Core, r, line));
    }
  }

  lemma AllocatePending(b: Bank, out: set<nat>, i: nat, s: Slot, id: nat)
    requires Fills(b, out) && i < |b.mshr| && b.mshr[i].kind == Free && s.kind == Core
    requires id in out && SameLine(s.req, b.mshr[id].req)
    ensures i !in out && Fills(b.(mshr := b.mshr[i := s]), out)
  {
    var m := b.mshr[i := s];
    forall k {:trigger m[k]} | 0 <= k < |m| && m[k].kind == Core
      ensures exists j :: j in out && SameLine(m[k].req, m[j].req)
    {
      var j :| j in out && SameLine(m[k].req, b.mshr[j].req);
      assert m[j] == b.mshr[j];
    }
  }

  lemma AllocateFresh(b: Bank, out: set<nat>, i: nat, s: Slot)
    requires Fills(b, out) && i < |b.mshr| && b.mshr[i].kind == Free && s.kind == Core
    requires forall j :: 0 <= j < |b.mshr| && b.mshr[j].kind != Free ==> !SameLine(b.mshr[j].req, s.req)
    ensures i !in out && Fills(b.(mshr := b.mshr[i := s]), out + {i})
  {
    var m, out' := b.mshr[i := s], out + {i};
    forall k {:trigger m[k]} | 0 <= k < |m| && m[k].kind == Core
      ensures exists j :: j in out' && SameLine(m[k].req, m[j].req)
    {
      if k == i {
        assert SameLine(m[k].req, m[i].req);
      } else {
        var j :| j in out && SameLine(m[k].req, b.mshr[j].req);
        assert m[j] == b.mshr[j];
      }
    }
  }

  /** An accepted core request finds a free slot when it needs one: MSHR::allocate never fails. */
  lemma AcceptedHasSlot(c: Config, b: Bank, out: set<nat>, r: BankReq)
    requires Inv(c, b, out) && Accepts(c, b, r)
    ensures (r.write && !c.writeBack) || FirstOf(b.mshr, Free) < |b.mshr|
  {
    FullMeans(b.mshr);
  }

  lemma SetOf(c: Config, b: Bank, k: nat)
    requires Shape(c, b) && k < c.numSets
    ensures |b.sets[k]| == c.numWays && b.sets[k] != [] && b.sets[k] in b.sets
  {
    assert b.sets[k] in b.sets;
  }

  lemma HitKeeps(c: Config, b: Bank, out: set<nat>, r: BankReq)
    requires Inv(c, b, out) && r.setId < c.numSets && HitLine(b.sets[r.setId], r.tag) < |b.sets[r.setId]|
    ensures Inv(c, StepHit(c, b, r).bank, out) && Asked(StepHit(c, b, r).reqs) == {}
  {
    SetOfInv(c, b, out, r.setId);
    hide Inv;
    var b' := StepHit(c, b, r).bank;
    TouchKeeps(c, b, out, r.setId, b'.sets[r.setId]);
    assert b' == b.(sets := b.sets[r.setId := b'.sets[r.setId]]);
  }

  lemma MissKeeps(c: Config, b: Bank, out: set<nat>, r: BankReq)
    requires Inv(c, b, out) && !HasReplay(b.mshr) && r.setId < c.numSets && b.sets[r.setId] != []
    requires HitLine(b.sets[r.setId], r.tag) == |b.sets[r.setId]|
    requires (r.write && !c.writeBack) || FirstOf(b.mshr, Free) < |b.mshr|
    ensures var o := StepMiss(c, b, r);
            Asked(o.reqs) !! out && Inv(c, o.bank, out + Asked(o.reqs))
  {
    SetOfInv(c, b, out, r.setId);
    hide Inv, Pending, InSet;
    var s := b.sets[r.setId];
    TouchKeeps(c, b, out, r.setId, Aged(s, r.tag));
    AskedMiss(c, b, r);
    if r.write && !c.writeBack {
      assert out + {} == out;
    } else {
      WaitKeeps(c, b, out, r);
    }
  }

  lemma WaitKeeps(c: Config, b: Bank, out: set<nat>, r: BankReq)
    requires Inv(c, b, out) && !HasReplay(b.mshr) && r.setId < c.numSets && b.sets[r.setId] != []
    requires HitLine(b.sets[r.setId], r.tag) == |b.sets[r.setId]|
    requires !(r.write && !c.writeBack) && FirstOf(b.mshr, Free) < |b.mshr|
    ensures var o := StepMiss(c, b, r);
            Asked(o.reqs) !! out && Inv(c, o.bank, out + Asked(o.reqs))
  {
    SetOfInv(c, b, out, r.setId);
    hide Inv, Pending;
    var s := b.sets[r.setId];
    TouchKeeps(c, b, out, r.setId, Aged(s, r.tag));
    SameTagsSet(s, Aged(s, r.tag));
    assert !InSet(s, r.tag);
    AllocateKeeps(c, b.(sets := b.sets[r.setId := Aged(s, r.tag)]), out, r, Victim(s));
    AskedMiss(c, b, r);
    assert out + {} == out;
  }

  lemma SetOfInv(c: Config, b: Bank, out: set<nat>, k: nat)
    requires Inv(c, b, out) && k < c.numSets
    ensures k < |b.sets| && |b.sets[k]| == c.numWays
  {
    SetOf(c, b, k);
  }

  lemma AskedMiss(c: Config, b: Bank, r: BankReq)
    requires r.setId < |b.sets| && b.sets[r.setId] != []
    requires (r.write && !c.writeBack) || FirstOf(b.mshr, Free) < |b.mshr|
    ensures Asked(StepMiss(c, b, r).reqs) == if (r.write && !c.writeBack) || Pending(b.mshr, r) then {} else {FirstOf(b.mshr, Free)}
  {
    hide Pending;
    var q := LineReq(r.setId, r.tag, false, FirstOf(b.mshr, Free));
    var reqs := StepMiss(c, b, r).reqs;
    if !(r.write && !c.writeBack) && !Pending(b.mshr, r) {
      assert reqs[|reqs| - 1] == q;
    }
  }

  /** A core request taken by a bank without replays keeps its invariant and asks only for new fills. */
  lemma CoreKeeps(c: Config, b: Bank, out: set<nat>, r: BankReq)
    requires Inv(c, b, out) && !HasReplay(b.mshr) && r.setId < c.numSets && Accepts(c, b, r)
    ensures r.setId < |b.sets| && b.sets[r.setId] != []
    ensures (r.write && !c.writeBack) || FirstOf(b.mshr, Free) < |b.mshr|
    ensures var o := StepCore(c, b, r);
            Asked(o.reqs) !! out && Inv(c, o.bank, out + Asked(o.reqs))
  {
    SetOf(c, b, r.setId);
    AcceptedHasSlot(c, b, out, r);
    hide Inv;
    if HitLine(b.sets[r.setId], r.tag) < |b.sets[r.setId]| {
      HitKeeps(c, b, out, r);
      assert out + {} == out;
    } else {
      MissKeeps(c, b, out, r);
    }
  }

  // ---- Conservation of responses ----

  /** The responses the occupied slots still owe. */
  function Held(c: Config, m: seq<Slot>): multiset<Rsp> {
    if m == [] then multiset{}
    else Owes(c, m[0]) + Held(c, m[1..])
  }

  function Owes(c: Config, s: Slot): multiset<Rsp> { if s.kind != Free then multiset(Answer(c, s.req)) else multiset{} }

  lemma SwapSums<T>(a: multiset<T>, x: multiset<T>, o: multiset<T>, y: multiset<T>, p: multiset<T>)
    requires x + o == y + p
    ensures (a + x) + o == (a + y) + p
  {
    assert (a + x) + o == a + (x + o);
  }

  lemma {:induction false} HeldUpdate(c: Config, m: seq<Slot>, i: nat, s: Slot)
    requires i < |m|
    ensures Held(c, m[i := s]) + Owes(c, m[i]) == Held(c, m) + Owes(c, s)
  {
    hide Owes;
    if i == 0 {
      assert m[i := s][1..] == m[1..];
    } else {
      assert m[i := s][1..] == m[1..][i - 1 := s];
      HeldUpdate(c, m[1..], i - 1, s);
      SwapSums(Owes(c, m[0]), Held(c, m[1..][i - 1 := s]), Owes(c, m[i]), Held(c, m[1..]), Owes(c, s));
    }
  }

  lemma {:induction false} HeldSame(c: Config, m: seq<Slot>, r: seq<Slot>)
    requires |m| == |r| && forall i :: 0 <= i < |m| ==> Owes(c, m[i]) == Owes(c, r[i])
    ensures Held(c, m) == Held(c, r)
  {
    if m != [] { HeldSame(c, m[1..], r[1..]); }
  }

  /** A replay answers exactly what its slot owed. */
  lemma ReplayConserves(c: Config, b: Bank)
    requires FirstOf(b.mshr, Replay) < |b.mshr|
    ensures var o := StepReplay(c, b); Held(c, b.mshr) == Held(c, o.bank.mshr) + multiset(o.rsps)
  {
    var i := FirstOf(b.mshr, Replay);
    HeldUpdate(c, b.mshr, i, b.mshr[i].(kind := Free));
  }

  lemma FillConserves(c: Config, b: Bank, id: nat)
    requires id < |b.mshr| && b.mshr[id].req.setId < |b.sets| && b.mshr[id].line < |b.sets[b.mshr[id].req.setId]|
    ensures Held(c, b.mshr) == Held(c, StepFill(b, id).bank.mshr)
  {
    HeldSame(c, b.mshr, Replayed(b.mshr, id));
  }

  /** A core request is answered at once or owed by the slot it takes, never both and never neither. */
  lemma CoreConserves(c: Config, b: Bank, r: BankReq)
    requires r.setId < |b.sets| && b.sets[r.setId] != []
    requires (r.write && !c.writeBack) || FirstOf(b.mshr, Free) < |b.mshr|
    ensures var o := StepCore(c, b, r);
            Held(c, b.mshr) + multiset(Answer(c, r)) == Held(c, o.bank.mshr) + multiset(o.rsps)
  {
    if HitLine(b.sets[r.setId], r.tag) == |b.sets[r.setId]| && !(r.write && !c.writeBack) {
      HeldUpdate(c, b.mshr, FirstOf(b.mshr, Free), Slot(Core, r, Victim(b.sets[r.setId])));
    }
  }

  // ---- Progress ----

  /** Two ticks for a waiting miss, one for a replay. */
  function Work(m: seq<Slot>): nat {
    if m == [] then 0 else (match m[0].kind case Free => 0 case Replay => 1 case Core => 2) + Work(m[1..])
  }

  function SlotWork(s: Slot): nat { match s.kind case Free => 0 case Replay => 1 case Core => 2 }

  lemma {:induction false} WorkUpdate(m: seq<Slot>, i: nat, s: Slot)
    requires i < |m|
    ensures Work(m[i := s]) == Work(m) - SlotWork(m[i]) + SlotWork(s)
  {
    if i == 0 {
      assert m[i := s][1..] == m[1..];
    } else {
      assert m[i := s][1..] == m[1..][i - 1 := s];
      WorkUpdate(m[1..], i - 1, s);
    }
  }

  lemma {:induction false} WorkLess(m: seq<Slot>, r: seq<Slot>)
    requires |m| == |r| && forall i :: 0 <= i < |m| ==> SlotWork(r[i]) <= SlotWork(m[i])
    ensures Work(r) <= Work(m)
    ensures (exists i :: 0 <= i < |m| && SlotWork(r[i]) < SlotWork(m[i])) ==> Work(r) < Work(m)
  {
    if m != [] {
      WorkLess(m[1..], r[1..]);
      if i :| 0 <= i < |m| && SlotWork(r[i]) < SlotWork(m[i]) {
        if i > 0 { assert SlotWork(r[1..][i - 1]) < SlotWork(m[1..][i - 1]); }
      }
    }
  }

  /** While the MSHR holds anything, a replay is ready or memory has a fill to answer. */
  lemma NeverStuck(c: Config, b: Bank, out: set<nat>)
    requires Inv(c, b, out) && b.size > 0
    ensures HasReplay(b.mshr) || out != {}
  {
    FullMeans(b.mshr);
    SomeOccupied(b.mshr);
    var i :| 0 <= i < |b.mshr| && b.mshr[i].kind != Free;
    if b.mshr[i].kind == Core {
      var id :| id in out && SameLine(b.mshr[i].req, b.mshr[id].req);
    }
  }

  lemma {:induction false} SomeOccupied(m: seq<Slot>)
    ensures Occupied(m) > 0 <==> exists i :: 0 <= i < |m| && m[i].kind != Free
  {
    if m != [] {
      SomeOccupied(m[1..]);
      if i :| 0 <= i < |m[1..]| && m[1..][i].kind != Free { assert m[i + 1].kind != Free; }
      if i :| 0 <= i < |m| && m[i].kind != Free { if i > 0 { assert m[1..][i - 1].kind != Free; } }
    }
  }

  /** The responses of a bank that gets no more core requests while memory answers in the order of pick. */
  ghost function Drain(c: Config, b: Bank, out: set<nat>, pick: set<nat> -> nat): multiset<Rsp>
    requires Inv(c, b, out) && forall s: set<nat> {:trigger pick(s)} :: s != {} ==> pick(s) in s
    decreases Work(b.mshr)
  {
    if FirstOf(b.mshr, Replay) < |b.mshr| then
      ReplayLess(c, b, out);
      multiset(StepReplay(c, b).rsps) + Drain(c, StepReplay(c, b).bank, out, pick)
    else if out != {} then
      FillLess(c, b, out, pick(out));
      Drain(c, StepFill(b, pick(out)).bank, out - {pick(out)}, pick)
    else multiset{}
  }

  lemma ReplayLess(c: Config, b: Bank, out: set<nat>)
    requires Inv(c, b, out) && FirstOf(b.mshr, Replay) < |b.mshr|
    ensures Inv(c, StepReplay(c, b).bank, out) && Work(StepReplay(c, b).bank.mshr) < Work(b.mshr)
  {
    hide Inv;
    ReplayKeeps(c, b, out);
    WorkUpdate(b.mshr, FirstOf(b.mshr, Replay), b.mshr[FirstOf(b.mshr, Replay)].(kind := Free));
  }

  lemma FillLess(c: Config, b: Bank, out: set<nat>, id: nat)
    requires Inv(c, b, out) && FirstOf(b.mshr, Replay) == |b.mshr| && id in out
    ensures id < |b.mshr| && b.mshr[id].req.setId < |b.sets| && b.mshr[id].line < |b.sets[b.mshr[id].req.setId]|
    ensures Inv(c, StepFill(b, id).bank, out - {id}) && Work(StepFill(b, id).bank.mshr) < Work(b.mshr)
  {
    hide Inv;
    FillKeeps(c, b, out, id);
    FillRootWaits(c, b, out, id);
    assert SlotWork(Replayed(b.mshr, id)[id]) < SlotWork(b.mshr[id]);
    WorkLess(b.mshr, Replayed(b.mshr, id));
  }

  /** Whatever order memory answers in, every response that is owed is given, each once. */
  lemma {:induction false} DrainAnswersAll(c: Config, b: Bank, out: set<nat>, pick: set<nat> -> nat)
    requires Inv(c, b, out) && forall s: set<nat> {:trigger pick(s)} :: s != {} ==> pick(s) in s
    ensures Drain(c, b, out, pick) == Held(c, b.mshr)
    decreases Work(b.mshr)
  {
    hide Inv;
    if FirstOf(b.mshr, Replay) < |b.mshr| {
      ReplayLess(c, b, out);
      ReplayConserves(c, b);
      DrainAnswersAll(c, StepReplay(c, b).bank, out, pick);
    } else if out != {} {
      FillLess(c, b, out, pick(out));
      FillConserves(c, b, pick(out));
      DrainAnswersAll(c, StepFill(b, pick(out)).bank, out - {pick(out)}, pick);
    } else {
      NothingHeld(c, b, out);
    }
  }

  lemma NothingHeld(c: Config, b: Bank, out: set<nat>)
    requires Inv(c, b, out) && out == {} && FirstOf(b.mshr, Replay) == |b.mshr|
    ensures Held(c, b.mshr) == multiset{}
  {
    if b.size > 0 { NeverStuck(c, b, out); }
    SomeOccupied(b.mshr);
    AllFree(c, b.mshr);
  }

  lemma {:induction false} AllFree(c: Config, m: seq<Slot>)
    requires forall i :: 0 <= i < |m| ==> m[i].kind == Free
    ensures Held(c, m) == multiset{}
  {
    if m != [] { AllFree(c, m[1..]); }
  }
}
