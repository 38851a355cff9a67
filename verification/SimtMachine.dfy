/**
 One warp on values: masked execution, SPLIT and JOIN, and where the emulator aborts. The PC counts instructions.
 */
module SimtMachine {

  const NUM_REGS := 32
  const WORD_RANGE := 0x1_0000_0000

  type Word = x: int | 0 <= x < WORD_RANGE
  type Reg = r: nat | r < NUM_REGS
  type Mask = seq<bool>
  type RegFile = r: seq<Word> | |r| == NUM_REGS witness seq(NUM_REGS, i => 0)

  datatype BranchOp = BEQ | BNE | BLT | BGE | BLTU | BGEU

  /** Op stands for any instruction that computes rd of a thread from its id and two of its registers. */
  datatype Instr =
    | Op(rd: Reg, rs1: Reg, rs2: Reg, f: (nat, Word, Word) -> Word)
    | Branch(op: BranchOp, rs1: Reg, rs2: Reg, offset: int)
    | Jal(rd: Reg, offset: int)
    | Split(rd: Reg, rs: Reg, negate: bool)
    | Join(rs: Reg)

  datatype Entry = Entry(orig: Mask, els: Mask, pc: Word, fallthrough: bool)

  /** The top of the stack is its last entry. */
  datatype State = State(pc: Word, tmask: Mask, stack: seq<Entry>, regs: seq<RegFile>)

  datatype Outcome = Next(state: State) | DivergentBranch | StackFull | StackEmpty

  function Wrap(x: int): Word { x % WORD_RANGE }

  function Signed(x: Word): int { if x < WORD_RANGE / 2 then x else x - WORD_RANGE }

  predicate Taken(op: BranchOp, a: Word, b: Word) {
    match op
    case BEQ => a == b
    case BNE => a != b
    case BLT => Signed(a) < Signed(b)
    case BGE => Signed(a) >= Signed(b)
    case BLTU => a < b
    case BGEU => a >= b
  }

  /**
   The laws of the six comparisons: BLTU is the order of the words, BLT the same order with the top bits
   turned over, and BGEU, BGE and BNE are the opposites of BLTU, BLT and equality.
   */
  lemma BranchOrder(a: Word, b: Word, c: Word)
    ensures !Taken(BLTU, a, a)
    ensures Taken(BLTU, a, b) && Taken(BLTU, b, c) ==> Taken(BLTU, a, c)
    ensures a != b ==> Taken(BLTU, a, b) || Taken(BLTU, b, a)
    ensures a + 1 < 0x1_0000_0000 ==> Taken(BLTU, a, a + 1)
    ensures Taken(BLT, a, b) <==> Taken(BLTU, (a + 0x8000_0000) % 0x1_0000_0000, (b + 0x8000_0000) % 0x1_0000_0000)
    ensures Taken(BGEU, a, b) <==> !Taken(BLTU, a, b)
    ensures Taken(BGE, a, b) <==> !Taken(BLT, a, b)
    ensures Taken(BEQ, a, b) <==> a == b
    ensures Taken(BNE, a, b) <==> !Taken(BEQ, a, b)
  {
  }

  // ---- Masks ----

  predicate Any(m: Mask) { exists t :: 0 <= t < |m| && m[t] }

  function Count(m: Mask): nat {
    if m == [] then 0 else (if m[0] then 1 else 0) + Count(m[1..])
  }

  predicate Within(a: Mask, b: Mask) { |a| == |b| && forall t :: 0 <= t < |a| ==> a[t] ==> b[t] }

  /** a is contained in b and misses one of its threads. */
  predicate StrictlyWithin(a: Mask, b: Mask) { Within(a, b) && a != b }

  lemma {:induction false} CountWithin(a: Mask, b: Mask)
    requires Within(a, b)
    ensures Count(a) <= Count(b)
    ensures a != b ==> Count(a) < Count(b)
    ensures Any(a) <==> Count(a) > 0
    ensures Count(b) <= |b|
  {
    if a != [] {
      CountWithin(a[1..], b[1..]);
      assert Any(a[1..]) ==> Any(a) by {
        if t :| 0 <= t < |a[1..]| && a[1..][t] { assert a[t + 1]; }
      }
      if t :| 0 <= t < |a| && a[t] { assert t > 0 ==> a[1..][t - 1]; }
    }
  }

  // ---- One instruction ----

  /** The write-back: every active thread gets its value, and x0 keeps zero. */
  function WriteBack(st: State, rd: Reg, v: seq<Word>): (r: seq<RegFile>)
    requires |st.tmask| == |st.regs| == |v|
    ensures |r| == |st.regs|
    ensures forall t :: 0 <= t < |r| ==> r[t] == if st.tmask[t] && rd != 0 then st.regs[t][rd := v[t]] else st.regs[t]
  {
    seq(|st.regs|, t requires 0 <= t < |st.regs| => if st.tmask[t] && rd != 0 then st.regs[t][rd := v[t]] else st.regs[t])
  }

  predicate Takes(st: State, op: BranchOp, rs1: Reg, rs2: Reg, t: nat)
    requires t < |st.regs|
  {
    Taken(op, st.regs[t][rs1], st.regs[t][rs2])
  }

  ghost predicate Uniform(st: State, op: BranchOp, rs1: Reg, rs2: Reg)
    requires |st.tmask| == |st.regs|
  {
    forall t, u: nat :: 0 <= t < |st.tmask| && u < |st.tmask| && st.tmask[t] && st.tmask[u]
      ==> (Takes(st, op, rs1, rs2, t) <==> Takes(st, op, rs1, rs2, u))
  }

  /** The low bit of the predicate register decides the side of a thread. */
  predicate Side(r: RegFile, rs: Reg, negate: bool) { (r[rs] % 2 == 1) != negate }

  function SplitMask(st: State, rs: Reg, negate: bool, side: bool): (m: Mask)
    requires |st.tmask| == |st.regs|
    ensures |m| == |st.tmask|
    ensures forall t :: 0 <= t < |m| ==> m[t] == (st.tmask[t] && Side(st.regs[t], rs, negate) == side)
  {
    seq(|st.tmask|, t requires 0 <= t < |st.tmask| => st.tmask[t] && Side(st.regs[t], rs, negate) == side)
  }

  function Minus(a: Mask, b: Mask): (m: Mask)
    requires |a| == |b|
    ensures |m| == |a|
    ensures forall t :: 0 <= t < |m| ==> m[t] == (a[t] && !b[t])
  {
    seq(|a|, t requires 0 <= t < |a| => a[t] && !b[t])
  }

  /** The highest active thread. */
  function LastThread(m: Mask): (t: nat)
    requires Any(m)
    ensures t < |m| && m[t] && forall u :: t < u < |m| ==> !m[u]
  {
    if m[|m| - 1] then |m| - 1
    else
      assert Any(m[..|m| - 1]) by { var t :| 0 <= t < |m| && m[t]; assert m[..|m| - 1][t]; }
      LastThread(m[..|m| - 1])
  }

  function Fill(n: nat, w: Word): (v: seq<Word>)
    ensures |v| == n && forall t :: 0 <= t < n ==> v[t] == w
  {
    seq(n, t => w)
  }

  ghost predicate Shape(n: nat, st: State) {
    0 < n <= 32 && |st.tmask| == n && |st.regs| == n && Any(st.tmask) && |st.stack| < n
  }

  function ExecOp(n: nat, st: State, rd: Reg, rs1: Reg, rs2: Reg, f: (nat, Word, Word) -> Word): State
    requires Shape(n, st)
  {
    var v := seq(n, t requires 0 <= t < n => f(t, st.regs[t][rs1], st.regs[t][rs2]));
    st.(pc := Wrap(st.pc + 1), regs := WriteBack(st, rd, v))
  }

  ghost function ExecBranch(n: nat, st: State, op: BranchOp, rs1: Reg, rs2: Reg, offset: int): Outcome
    requires Shape(n, st)
  {
    if !Uniform(st, op, rs1, rs2) then DivergentBranch
    else Next(st.(pc := if Takes(st, op, rs1, rs2, LastThread(st.tmask)) then Wrap(st.pc + offset) else Wrap(st.pc + 1)))
  }

  /** The larger of the two sides goes first. */
  function FirstSide(thn: Mask, els: Mask): Mask { if Count(thn) >= Count(els) then thn else els }

  function ExecSplit(n: nat, st: State, rd: Reg, rs: Reg, negate: bool): Outcome
    requires Shape(n, st)
  {
    var thn, els := SplitMask(st, rs, negate, true), SplitMask(st, rs, negate, false);
    var st' := st.(pc := Wrap(st.pc + 1), regs := WriteBack(st, rd, Fill(n, |st.stack|)));
    if !(Any(thn) && Any(els)) then Next(st')
    else if |st.stack| == n - 1 then StackFull
    else
      var next := FirstSide(thn, els);
      Next(st'.(tmask := next, stack := st.stack + [Entry(st.tmask, Minus(st.tmask, next), Wrap(st.pc + 1), false)]))
  }

  ghost function Threads(m: Mask): set<nat> { set t: nat | t < |m| && m[t] }

  lemma {:induction false} CountThreads(m: Mask)
    ensures Count(m) == |Threads(m)|
  {
    if m == [] {
      assert Threads(m) == {};
    } else {
      var k := |m| - 1;
      CountThreads(m[..k]);
      CountLast(m);
      LastOf(m);
    }
  }

  lemma LastOf(m: Mask)
    requires m != []
    ensures var k := |m| - 1;
      |Threads(m)| == |Threads(m[..k])| + if m[k] then 1 else 0
  {
    var k := |m| - 1;
    assert Threads(m) == Threads(m[..k]) + if m[k] then {k} else {};
  }

  lemma {:induction false} CountLast(m: Mask)
    requires m != []
    ensures Count(m) == Count(m[..|m| - 1]) + if m[|m| - 1] then 1 else 0
  {
    if |m| > 1 {
      CountLast(m[1..]);
      assert m[1..][..|m| - 2] == m[..|m| - 1][1..];
    }
  }

  /**
   A split of threads that differ in the low bit of the predicate register goes on with the side that has
   more of them, with the set bits when the sides are equal; the others are saved, all threads below them.
   */
  lemma LargerSideFirst(n: nat, st: State, rd: Reg, rs: Reg, negate: bool)
    requires Shape(n, st) && ExecSplit(n, st, rd, rs, negate).Next?
    ensures var thn := set t: nat | t < n && st.tmask[t] && (st.regs[t][rs] % 2 == 1) != negate;
      var els := set t: nat | t < n && st.tmask[t] && (st.regs[t][rs] % 2 == 1) == negate;
      var st' := ExecSplit(n, st, rd, rs, negate).state;
      if thn == {} || els == {} then st'.tmask == st.tmask && st'.stack == st.stack
      else && Threads(st'.tmask) == (if |thn| >= |els| then thn else els)
           && |st'.stack| == |st.stack| + 1 && st'.stack[..|st.stack|] == st.stack
           && var e := st'.stack[|st.stack|];
              && e.orig == st.tmask && Threads(e.els) == (if |thn| >= |els| then els else thn)
              && e.pc == (st.pc + 1) % 0x1_0000_0000 && !e.fallthrough
  {
    hide *;
    SplitThreads(n, st, rs, negate);
    var m0, m1 := SplitMask(st, rs, negate, true), SplitMask(st, rs, negate, false);
    AnyThreads(m0);
    AnyThreads(m1);
    CountThreads(m0);
    CountThreads(m1);
    SplitIs(n, st, rd, rs, negate);
  }

  lemma SplitIs(n: nat, st: State, rd: Reg, rs: Reg, negate: bool)
    requires Shape(n, st) && ExecSplit(n, st, rd, rs, negate).Next?
    ensures |st.tmask| == |st.regs|
    ensures var m0, m1 := SplitMask(st, rs, negate, true), SplitMask(st, rs, negate, false);
      var st' := ExecSplit(n, st, rd, rs, negate).state;
      if !Any(m0) || !Any(m1) then st'.tmask == st.tmask && st'.stack == st.stack
      else
        var next := if Count(m0) >= Count(m1) then m0 else m1;
        && st'.tmask == next && |st'.stack| == |st.stack| + 1 && st'.stack[..|st.stack|] == st.stack
        && st'.stack[|st.stack|] == Entry(st.tmask, Minus(st.tmask, next), (st.pc + 1) % 0x1_0000_0000, false)
  {
    hide Count, Any, WriteBack, SplitMask, Minus;
  }

  lemma SplitThreads(n: nat, st: State, rs: Reg, negate: bool)
    requires Shape(n, st)
    ensures |st.tmask| == |st.regs| == n
    ensures var m0, m1 := SplitMask(st, rs, negate, true), SplitMask(st, rs, negate, false);
      && Threads(m0) == (set t: nat | t < n && st.tmask[t] && (st.regs[t][rs] % 2 == 1) != negate)
      && Threads(m1) == (set t: nat | t < n && st.tmask[t] && (st.regs[t][rs] % 2 == 1) == negate)
      && Threads(Minus(st.tmask, m0)) == Threads(m1) && Threads(Minus(st.tmask, m1)) == Threads(m0)
  {
  }

  lemma AnyThreads(m: Mask)
    ensures Any(m) <==> Threads(m) != {}
  {
    if Any(m) {
      var t :| 0 <= t < |m| && m[t];
      assert t in Threads(m);
    }
  }

  function ExecJoin(n: nat, st: State, rs: Reg): Outcome
    requires Shape(n, st)
  {
    if st.regs[LastThread(st.tmask)][rs] == |st.stack| then Next(st.(pc := Wrap(st.pc + 1)))
    else if st.stack == [] then StackEmpty
    else
      var top, rest := st.stack[|st.stack| - 1], st.stack[..|st.stack| - 1];
      if top.fallthrough then Next(st.(pc := Wrap(st.pc + 1), tmask := top.orig, stack := rest))
      else Next(st.(pc := top.pc, tmask := top.els, stack := rest + [top.(fallthrough := true)]))
  }

  ghost function Execute(n: nat, i: Instr, st: State): Outcome
    requires Shape(n, st)
  {
    match i
    case Op(rd, rs1, rs2, f) => Next(ExecOp(n, st, rd, rs1, rs2, f))
    case Branch(op, rs1, rs2, offset) => ExecBranch(n, st, op, rs1, rs2, offset)
    case Jal(rd, offset) =>
      Next(st.(pc := Wrap(st.pc + offset), regs := WriteBack(st, rd, Fill(n, Wrap(st.pc + 1)))))
    case Split(rd, rs, negate) => ExecSplit(n, st, rd, rs, negate)
    case Join(rs) => ExecJoin(n, st, rs)
  }

  // ---- The stack never overflows ----

  /** Each saved mask strictly contains the one above it, and the top one the current mask. */
  ghost predicate Nested(n: nat, stack: seq<Entry>, tmask: Mask) {
    && |tmask| == n && Any(tmask)
    && (stack != [] ==>
          var top := stack[|stack| - 1];
          && StrictlyWithin(tmask, top.orig)
          && StrictlyWithin(top.els, top.orig) && Any(top.els)
          && Nested(n, stack[..|stack| - 1], top.orig))
  }

  /** The depth of the stack is bounded by the threads that are off. */
  lemma {:induction false} NestedDepth(n: nat, stack: seq<Entry>, tmask: Mask)
    requires Nested(n, stack, tmask)
    ensures |stack| + Count(tmask) <= n && Count(tmask) >= 1
  {
    CountWithin(tmask, tmask);
    if stack != [] {
      var top := stack[|stack| - 1];
      CountWithin(tmask, top.orig);
      NestedDepth(n, stack[..|stack| - 1], top.orig);
    }
  }

  lemma SplitSides(st: State, rs: Reg, negate: bool)
    requires |st.tmask| == |st.regs|
    ensures var thn, els := SplitMask(st, rs, negate, true), SplitMask(st, rs, negate, false);
            && Minus(st.tmask, thn) == els && Minus(st.tmask, els) == thn
            && (Any(els) ==> StrictlyWithin(thn, st.tmask)) && (Any(thn) ==> StrictlyWithin(els, st.tmask))
  {
    var thn, els := SplitMask(st, rs, negate, true), SplitMask(st, rs, negate, false);
    if t :| 0 <= t < |els| && els[t] { assert !thn[t] && st.tmask[t]; }
    if t :| 0 <= t < |thn| && thn[t] { assert !els[t] && st.tmask[t]; }
  }

  /** Without threads on one side, the other side is the whole mask. */
  lemma SplitWhole(st: State, rs: Reg, negate: bool)
    requires |st.tmask| == |st.regs|
    ensures var thn, els := SplitMask(st, rs, negate, true), SplitMask(st, rs, negate, false);
            (!Any(els) ==> thn == st.tmask) && (!Any(thn) ==> els == st.tmask)
  {
  }

  ghost predicate Good(n: nat, st: State) { Shape(n, st) && Nested(n, st.stack, st.tmask) }

  lemma NestedSplit(n: nat, st: State, rd: Reg, rs: Reg, negate: bool)
    requires Shape(n, st) && Nested(n, st.stack, st.tmask)
    ensures var o := ExecSplit(n, st, rd, rs, negate);
            o.Next? && Good(n, o.state)
  {
    hide Minus, SplitMask, WriteBack, Fill, Count;
    NestedDepth(n, st.stack, st.tmask);
    SplitSides(st, rs, negate);
    var thn, els := SplitMask(st, rs, negate, true), SplitMask(st, rs, negate, false);
    if Any(thn) && Any(els) {
      var next := FirstSide(thn, els);
      CountWithin(next, next);
      CountWithin(next, st.tmask);
      var stack' := st.stack + [Entry(st.tmask, Minus(st.tmask, next), Wrap(st.pc + 1), false)];
      assert stack'[..|stack'| - 1] == st.stack;
    }
  }

  lemma NestedJoin(n: nat, st: State, rs: Reg)
    requires Shape(n, st) && Nested(n, st.stack, st.tmask)
    ensures var o := ExecJoin(n, st, rs);
            o != StackFull && (o.Next? ==> Good(n, o.state))
  {
    if st.stack != [] {
      var top, rest := st.stack[|st.stack| - 1], st.stack[..|st.stack| - 1];
      var stack' := rest + [top.(fallthrough := true)];
      assert stack'[..|stack'| - 1] == rest;
    }
  }

  /** Every instruction keeps the masks nested, so a SPLIT never finds the stack full. */
  lemma NestedKept(n: nat, i: Instr, st: State)
    requires Good(n, st)
    ensures Execute(n, i, st) != StackFull
    ensures Execute(n, i, st).Next? ==> Good(n, Execute(n, i, st).state)
  {
    hide ExecSplit, ExecJoin, WriteBack, Nested;
    match i
    case Split(rd, rs, negate) => NestedSplit(n, st, rd, rs, negate);
    case Join(rs) => NestedJoin(n, st, rs);
    case Op(_, _, _, _) =>
    case Branch(_, _, _, _) =>
    case Jal(_, _) =>
  }

  // ---- Runs ----

  /** k instructions of a program, or the abort they end in. */
  ghost function Run(n: nat, code: Word -> Instr, st: State, k: nat): Outcome
    requires Good(n, st)
    decreases k
  {
    if k == 0 then Next(st)
    else
      match Execute(n, code(st.pc), st)
      case Next(st') => NestedKept(n, code(st.pc), st); Run(n, code, st', k - 1)
      case o => o
  }

  /**
   In every run of every program the stack stays below num_threads - 1 plus the threads that are
   off, and the emulator never aborts because the stack is full.
   */
  lemma {:induction false} RunNeverFull(n: nat, code: Word -> Instr, st: State, k: nat)
    requires Good(n, st)
    ensures Run(n, code, st, k) != StackFull
    ensures Run(n, code, st, k).Next? ==>
              var st' := Run(n, code, st, k).state;
              Good(n, st') && |st'.stack| + Count(st'.tmask) <= n && |st'.stack| <= n - 1
    decreases k
  {
    hide Execute, Nested, Shape;
    if k == 0 {
      NestedDepth(n, st.stack, st.tmask);
    } else {
      NestedKept(n, code(st.pc), st);
      if Execute(n, code(st.pc), st).Next? {
        RunNeverFull(n, code, Execute(n, code(st.pc), st).state, k - 1);
      }
    }
  }

  lemma {:induction false} RunSplit(n: nat, code: Word -> Instr, st: State, j: nat, k: nat)
    requires Good(n, st) && Run(n, code, st, j).Next?
    ensures Good(n, Run(n, code, st, j).state)
    ensures Run(n, code, st, j + k) == Run(n, code, Run(n, code, st, j).state, k)
    decreases j
  {
    hide Execute, Nested, Shape;
    if j > 0 {
      NestedKept(n, code(st.pc), st);
      RunSplit(n, code, Execute(n, code(st.pc), st).state, j - 1, k);
    }
  }
}
