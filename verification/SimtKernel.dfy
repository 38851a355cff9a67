/**
 Structured kernels compiled to SPLIT, branch and JOIN: a warp gives each active thread what running it alone gives.
 */
module SimtKernel {
  import opened SimtMachine

  /** What an If tests: any value computed from two registers, or one of the six comparisons. */
  datatype Test = Value(g: (nat, Word, Word) -> bool) | Comparison(op: BranchOp)

  /**
   If tests two registers into rc, splits on rc (or on its negation), and keeps the stack pointer of
   the split in sp. The branch behind the split looks at rc, or compares the two registers again.
   */
  datatype Stmt =
    | Do(rd: Reg, rs1: Reg, rs2: Reg, f: (nat, Word, Word) -> Word)
    | Then(first: Stmt, second: Stmt)
    | If(rc: Reg, rs1: Reg, rs2: Reg, test: Test, sp: Reg, negate: bool, thn: Stmt, els: Stmt)

  // ---- Meaning for one thread ----

  function Write(r: RegFile, rd: Reg, w: Word): RegFile { if rd != 0 then r[rd := w] else r }

  function Flag(b: bool): Word { if b then 1 else 0 }

  /** A word read as a two's complement number keeps its order when 2^31 is added modulo 2^32. */
  function Biased(x: Word): int { (x + 0x8000_0000) % 0x1_0000_0000 }

  /** The six comparisons of two words, of which BLT and BGE read them as signed. */
  predicate Compare(op: BranchOp, a: Word, b: Word) {
    match op
    case BEQ => a == b
    case BNE => a != b
    case BLT => Biased(a) < Biased(b)
    case BGE => Biased(b) <= Biased(a)
    case BLTU => a < b
    case BGEU => b <= a
  }

  predicate Verdict(test: Test, t: nat, a: Word, b: Word) {
    match test
    case Value(g) => g(t, a, b)
    case Comparison(op) => Compare(op, a, b)
  }

  /** The machine branches as the comparison says. */
  lemma TakenMeans(op: BranchOp, a: Word, b: Word)
    ensures Taken(op, a, b) <==> Compare(op, a, b)
  {
  }

  /** Which side of an If a thread takes, after the comparison. */
  predicate ThenSide(r: RegFile, rc: Reg, negate: bool) { (r[rc] != 0) != negate }

  function Exec(s: Stmt, t: nat, r: RegFile): RegFile {
    match s
    case Do(rd, rs1, rs2, f) => Write(r, rd, f(t, r[rs1], r[rs2]))
    case Then(a, b) => Exec(b, t, Exec(a, t, r))
    case If(rc, rs1, rs2, test, _, negate, thn, els) =>
      var met := match test case Value(g) => g(t, r[rs1], r[rs2]) case Comparison(op) => Compare(op, r[rs1], r[rs2]);
      var r1 := Write(r, rc, Flag(met));
      if ThenSide(r1, rc, negate) then Exec(thn, t, r1) else Exec(els, t, r1)
  }

  // ---- Compilation ----

  /** Stack pointers live in their own registers; an inner one never replaces an open one. */
  ghost predicate WellFormed(SP: set<Reg>, s: Stmt, open: set<Reg>) {
    match s
    case Do(rd, rs1, rs2, _) => rd !in SP && rs1 !in SP && rs2 !in SP
    case Then(a, b) => WellFormed(SP, a, open) && WellFormed(SP, b, open)
    case If(rc, rs1, rs2, test, sp, _, thn, els) =>
      && rc !in SP && rs1 !in SP && rs2 !in SP
      && (test.Comparison? ==> rc != 0 && rc != rs1 && rc != rs2)
      && sp in SP && sp !in open
      && WellFormed(SP, thn, open + {sp}) && WellFormed(SP, els, open + {sp})
  }

  /** What an If starts with: the condition, the split, and the branch over the then part. */
  function Head(s: Stmt, thnLength: nat): seq<Instr>
    requires s.If?
  {
    [Op(s.rc, s.rs1, s.rs2, (t, a, b) => Flag(Verdict(s.test, t, a, b))), Split(s.sp, s.rc, s.negate),
     Skip(s, thnLength + 2)]
  }

  /** The comparison that holds when the given one does not. */
  function Inverse(op: BranchOp): BranchOp {
    match op
    case BEQ => BNE
    case BNE => BEQ
    case BLT => BGE
    case BGE => BLT
    case BLTU => BGEU
    case BGEU => BLTU
  }

  /** The branch over the then part. */
  function Skip(s: Stmt, offset: int): Instr
    requires s.If?
  {
    match s.test
    case Value(_) => Branch(if s.negate then BNE else BEQ, s.rc, 0, offset)
    case Comparison(op) => Branch(if s.negate then op else Inverse(op), s.rs1, s.rs2, offset)
  }

  function Compile(s: Stmt): (c: seq<Instr>)
    ensures |c| >= 1
  {
    match s
    case Do(rd, rs1, rs2, f) => [Op(rd, rs1, rs2, f)]
    case Then(a, b) => Compile(a) + Compile(b)
    case If(_, _, _, _, sp, _, thn, els) =>
      var T, E := Compile(thn), Compile(els);
      Head(s, |T|) + T + [Jal(0, |E| + 1)] + E + [Join(sp)]
  }

  ghost predicate CodeAt(code: Word -> Instr, p: nat, c: seq<Instr>) {
    p + |c| < WORD_RANGE && forall i {:trigger c[i]} :: 0 <= i < |c| ==> code(p + i) == c[i]
  }

  lemma CodeSlice(code: Word -> Instr, p: nat, a: seq<Instr>, b: seq<Instr>, c: seq<Instr>)
    requires CodeAt(code, p, a + b + c)
    ensures CodeAt(code, p + |a|, b)
  {
    var s := a + b + c;
    forall i | 0 <= i < |b| ensures code(p + |a| + i) == b[i] {
      assert s[|a| + i] == b[i];
    }
  }

  // ---- Runs ----

  ghost predicate Reaches(n: nat, code: Word -> Instr, st: State, st': State)
    requires Good(n, st)
  {
    Good(n, st') && exists k: nat :: Run(n, code, st, k) == Next(st')
  }

  lemma ReachesStep(n: nat, code: Word -> Instr, st: State)
    requires Good(n, st) && Execute(n, code(st.pc), st).Next?
    ensures Reaches(n, code, st, Execute(n, code(st.pc), st).state)
  {
    hide Execute, Nested, Shape;
    NestedKept(n, code(st.pc), st);
    assert Run(n, code, Execute(n, code(st.pc), st).state, 0) == Next(Execute(n, code(st.pc), st).state);
    assert Run(n, code, st, 1) == Next(Execute(n, code(st.pc), st).state);
  }

  lemma ReachesTrans(n: nat, code: Word -> Instr, a: State, b: State, c: State)
    requires Good(n, a) && Reaches(n, code, a, b) && Reaches(n, code, b, c)
    ensures Reaches(n, code, a, c)
  {
    hide Execute, Nested, Shape;
    var j: nat :| Run(n, code, a, j) == Next(b);
    var k: nat :| Run(n, code, b, k) == Next(c);
    RunSplit(n, code, a, j, k);
  }

  // ---- What a statement does to the register files ----

  ghost predicate Agree(SP: set<Reg>, a: RegFile, b: RegFile) {
    forall r: Reg :: r !in SP ==> a[r] == b[r]
  }

  /** r' is what statement s leaves of r, up to the stack pointers; those in open are kept. */
  ghost predicate ThreadAfter(SP: set<Reg>, s: Stmt, open: set<Reg>, t: nat, r: RegFile, r': RegFile) {
    && Agree(SP, r', Exec(s, t, r))
    && (forall q :: q in open ==> r'[q] == r[q])
    && r'[0] == 0
  }

  ghost predicate After(SP: set<Reg>, s: Stmt, open: set<Reg>, m: Mask, rs: seq<RegFile>, rs': seq<RegFile>) {
    && |rs| == |rs'| == |m|
    && forall t :: 0 <= t < |m| ==> if m[t] then ThreadAfter(SP, s, open, t, rs[t], rs'[t]) else rs'[t] == rs[t]
  }

  ghost predicate Zero(rs: seq<RegFile>) { forall t :: 0 <= t < |rs| ==> rs[t][0] == 0 }

  lemma {:induction false} ExecAgree(SP: set<Reg>, s: Stmt, open: set<Reg>, t: nat, a: RegFile, b: RegFile)
    requires WellFormed(SP, s, open) && Agree(SP, a, b)
    ensures Agree(SP, Exec(s, t, a), Exec(s, t, b))
  {
    match s
    case Do(rd, rs1, rs2, f) =>
    case Then(x, y) =>
      ExecAgree(SP, x, open, t, a, b);
      ExecAgree(SP, y, open, t, Exec(x, t, a), Exec(x, t, b));
    case If(rc, rs1, rs2, test, sp, negate, thn, els) =>
      var a1 := Write(a, rc, Flag(Verdict(test, t, a[rs1], a[rs2])));
      var b1 := Write(b, rc, Flag(Verdict(test, t, b[rs1], b[rs2])));
      assert Agree(SP, a1, b1);
      ExecAgree(SP, thn, open + {sp}, t, a1, b1);
      ExecAgree(SP, els, open + {sp}, t, a1, b1);
  }

  lemma AfterThen(SP: set<Reg>, a: Stmt, b: Stmt, open: set<Reg>, m: Mask, r0: seq<RegFile>, r1: seq<RegFile>, r2: seq<RegFile>)
    requires WellFormed(SP, b, open)
    requires After(SP, a, open, m, r0, r1) && After(SP, b, open, m, r1, r2)
    ensures After(SP, Then(a, b), open, m, r0, r2)
  {
    forall t | 0 <= t < |m| && m[t] ensures ThreadAfter(SP, Then(a, b), open, t, r0[t], r2[t]) {
      ExecAgree(SP, b, open, t, r1[t], Exec(a, t, r0[t]));
    }
  }

  // ---- The steps of an If ----

  function Compared(s: Stmt, t: nat, r: RegFile): RegFile
    requires s.If?
  {
    Write(r, s.rc, Flag(Verdict(s.test, t, r[s.rs1], r[s.rs2])))
  }

  /** The register files after the comparison and after the split, whose depth goes to sp. */
  ghost predicate AfterSplit(s: Stmt, m: Mask, depth: nat, rs: seq<RegFile>, rs2: seq<RegFile>)
    requires s.If? && depth < WORD_RANGE
  {
    && |rs| == |rs2| == |m|
    && forall t :: 0 <= t < |m| ==> rs2[t] == if m[t] then Compared(s, t, rs[t])[s.sp := depth] else rs[t]
  }

  lemma ThreadIf(SP: set<Reg>, s: Stmt, open: set<Reg>, t: nat, r: RegFile, depth: Word, r': RegFile)
    requires s.If? && WellFormed(SP, s, open) && 0 !in SP && r[0] == 0 && open <= SP
    requires var r1 := Compared(s, t, r);
             ThreadAfter(SP, if ThenSide(r1, s.rc, s.negate) then s.thn else s.els, open + {s.sp}, t, r1[s.sp := depth], r')
    ensures ThreadAfter(SP, s, open, t, r, r')
  {
    var r1 := Compared(s, t, r);
    ExecAgree(SP, if ThenSide(r1, s.rc, s.negate) then s.thn else s.els, open + {s.sp}, t, r1[s.sp := depth], r1);
  }

  ghost predicate Ready(n: nat, code: Word -> Instr, SP: set<Reg>, s: Stmt, open: set<Reg>, p: nat, st: State) {
    && Good(n, st) && Zero(st.regs) && 0 !in SP && open <= SP
    && WellFormed(SP, s, open) && CodeAt(code, p, Compile(s))
  }

  /** The state a statement leaves: the next instruction, same threads, same stack. */
  ghost predicate Done(SP: set<Reg>, s: Stmt, open: set<Reg>, pc: int, st: State, st': State) {
    && st'.pc == pc && st'.tmask == st.tmask && st'.stack == st.stack
    && After(SP, s, open, st.tmask, st.regs, st'.regs)
  }

  /** All active threads take the given side of the If, and the registers compared are still those compared. */
  ghost predicate OneSide(s: Stmt, side: bool, m: Mask, rs: seq<RegFile>)
    requires s.If? && |m| == |rs|
  {
    forall t :: 0 <= t < |m| && m[t] ==>
      && ThenSide(rs[t], s.rc, s.negate) == side
      && (s.test.Comparison? ==> rs[t][s.rc] == Flag(Verdict(s.test, t, rs[t][s.rs1], rs[t][s.rs2])))
  }

  function Body(s: Stmt, side: bool): Stmt
    requires s.If?
  {
    if side then s.thn else s.els
  }

  lemma IfCode(code: Word -> Instr, p: nat, s: Stmt)
    requires s.If? && CodeAt(code, p, Compile(s))
    ensures var T, E := |Compile(s.thn)|, |Compile(s.els)|;
            && |Compile(s)| == T + E + 5
            && code(p) == Op(s.rc, s.rs1, s.rs2, (t, a, b) => Flag(Verdict(s.test, t, a, b)))
            && code(p + 1) == Split(s.sp, s.rc, s.negate)
            && code(p + 2) == Skip(s, T + 2)
            && CodeAt(code, p + 3, Compile(s.thn))
            && code(p + 3 + T) == Jal(0, E + 1)
            && CodeAt(code, p + 4 + T, Compile(s.els))
            && code(p + 4 + T + E) == Join(s.sp)
  {
    hide *;
    var T, E := Compile(s.thn), Compile(s.els);
    CompileIf(s);
    HeadShape(s, |T|);
    CodeParts(code, p, Head(s, |T|), T, Jal(0, |E| + 1), E, Join(s.sp));
  }

  lemma CompileIf(s: Stmt)
    requires s.If?
    ensures var T, E := Compile(s.thn), Compile(s.els);
      Compile(s) == Head(s, |T|) + T + [Jal(0, |E| + 1)] + E + [Join(s.sp)]
  {
  }

  lemma HeadShape(s: Stmt, n: nat)
    requires s.If?
    ensures var head := Head(s, n);
      && |head| == 3 && head[0] == Op(s.rc, s.rs1, s.rs2, (t, a, b) => Flag(Verdict(s.test, t, a, b)))
      && head[1] == Split(s.sp, s.rc, s.negate)
      && head[2] == Skip(s, n + 2)
  {
  }

  lemma CodeParts(code: Word -> Instr, p: nat, head: seq<Instr>, T: seq<Instr>, jump: Instr, E: seq<Instr>, last: Instr)
    requires CodeAt(code, p, head + T + [jump] + E + [last])
    ensures forall i :: 0 <= i < |head| ==> p + i < WORD_RANGE && code(p + i) == head[i]
    ensures CodeAt(code, p + |head|, T) && CodeAt(code, p + |head| + |T| + 1, E)
    ensures code(p + |head| + |T|) == jump && code(p + |head| + |T| + 1 + |E|) == last
  {
    var c := head + T + [jump] + E + [last];
    assert c == [] + head + (T + [jump] + E + [last]);
    CodeSlice(code, p, [], head, T + [jump] + E + [last]);
    assert c == head + T + ([jump] + E + [last]);
    CodeSlice(code, p, head, T, [jump] + E + [last]);
    CodeSlice(code, p, head + T + [jump], E, [last]);
    assert c[|head| + |T|] == jump;
    assert c[|head| + |T| + 1 + |E|] == last;
  }

  /** The branch after a split is uniform: every active thread has the same side. */
  lemma BranchStep(n: nat, code: Word -> Instr, p: nat, s: Stmt, st: State, side: bool) returns (st': State)
    requires s.If? && Good(n, st) && Zero(st.regs) && CodeAt(code, p, Compile(s)) && st.pc == p + 2
    requires OneSide(s, side, st.tmask, st.regs)
    ensures Reaches(n, code, st, st')
    ensures st' == st.(pc := if side then p + 3 else p + 4 + |Compile(s.thn)|)
  {
    hide Nested, Compile, Taken, Compare, Skip, OneSide, Zero;
    IfCode(code, p, s);
    SkipTakes(s, side, st, |Compile(s.thn)| + 2);
    ReachesStep(n, code, st);
    st' := Execute(n, code(st.pc), st).state;
  }

  /** The branch leaves every active thread on its own side. */
  lemma SkipTakes(s: Stmt, side: bool, st: State, offset: int)
    requires s.If? && Zero(st.regs) && |st.tmask| == |st.regs| && OneSide(s, side, st.tmask, st.regs)
    ensures Skip(s, offset).Branch? && Skip(s, offset).offset == offset
    ensures var b := Skip(s, offset);
      forall t :: 0 <= t < |st.tmask| && st.tmask[t] ==> Takes(st, b.op, b.rs1, b.rs2, t) == !side
  {
    forall t | 0 <= t < |st.tmask| && st.tmask[t]
      ensures var b := Skip(s, offset); Takes(st, b.op, b.rs1, b.rs2, t) == !side
    {
      var b := Skip(s, offset);
      TakenMeans(b.op, st.regs[t][b.rs1], st.regs[t][b.rs2]);
    }
  }

  lemma JalStep(n: nat, code: Word -> Instr, st: State, d: int) returns (st': State)
    requires Good(n, st) && code(st.pc) == Jal(0, d) && 0 <= st.pc + d < WORD_RANGE
    ensures Reaches(n, code, st, st') && st' == st.(pc := st.pc + d)
  {
    hide Nested;
    ReachesStep(n, code, st);
    st' := Execute(n, code(st.pc), st).state;
    assert WriteBack(st, 0, Fill(n, Wrap(st.pc + 1))) == st.regs;
  }

  /** From the branch to the join with one side of the If active. */
  lemma {:induction false} HalfRun(n: nat, code: Word -> Instr, SP: set<Reg>, s: Stmt, open: set<Reg>, p: nat, st: State, side: bool)
    returns (st': State)
    requires s.If? && Ready(n, code, SP, s, open, p, st) && st.pc == p + 2
    requires OneSide(s, side, st.tmask, st.regs)
    ensures Reaches(n, code, st, st')
    ensures Done(SP, Body(s, side), open + {s.sp}, p + |Compile(s)| - 1, st, st')
    decreases s, 0
  {
    hide *;
    if side {
      st' := ThenHalf(n, code, SP, s, open, p, st);
    } else {
      st' := ElseHalf(n, code, SP, s, open, p, st);
    }
  }

  lemma {:induction false} ThenHalf(n: nat, code: Word -> Instr, SP: set<Reg>, s: Stmt, open: set<Reg>, p: nat, st: State)
    returns (st': State)
    requires s.If? && Ready(n, code, SP, s, open, p, st) && st.pc == p + 2
    requires OneSide(s, true, st.tmask, st.regs)
    ensures Reaches(n, code, st, st')
    ensures Done(SP, Body(s, true), open + {s.sp}, p + |Compile(s)| - 1, st, st')
    decreases s, 0, 0
  {
    hide Nested, Compile, After, Shape, Execute, Run, OneSide;
    IfCode(code, p, s);
    var st1 := BranchStep(n, code, p, s, st, true);
    var st2 := Correct(n, code, SP, s.thn, open + {s.sp}, st1);
    st' := JalStep(n, code, st2, |Compile(s.els)| + 1);
    ReachesTrans(n, code, st1, st2, st');
    ReachesTrans(n, code, st, st1, st');
  }

  lemma {:induction false} ElseHalf(n: nat, code: Word -> Instr, SP: set<Reg>, s: Stmt, open: set<Reg>, p: nat, st: State)
    returns (st': State)
    requires s.If? && Ready(n, code, SP, s, open, p, st) && st.pc == p + 2
    requires OneSide(s, false, st.tmask, st.regs)
    ensures Reaches(n, code, st, st')
    ensures Done(SP, Body(s, false), open + {s.sp}, p + |Compile(s)| - 1, st, st')
    decreases s, 0, 0
  {
    hide Nested, Compile, After, Shape, Execute, Run, OneSide;
    IfCode(code, p, s);
    var st1 := BranchStep(n, code, p, s, st, false);
    st' := Correct(n, code, SP, s.els, open + {s.sp}, st1);
    ReachesTrans(n, code, st, st1, st');
  }

  lemma CompareStep(n: nat, code: Word -> Instr, p: nat, s: Stmt, st: State) returns (st': State)
    requires s.If? && Good(n, st) && CodeAt(code, p, Compile(s)) && st.pc == p
    ensures Reaches(n, code, st, st') && st' == st.(pc := p + 1, regs := st'.regs) && |st'.regs| == |st.regs| == |st.tmask|
    ensures forall t :: 0 <= t < |st.regs| ==>
              st'.regs[t] == if st.tmask[t] then Compared(s, t, st.regs[t]) else st.regs[t]
  {
    hide Nested, Compile;
    IfCode(code, p, s);
    ReachesStep(n, code, st);
    st' := Execute(n, code(st.pc), st).state;
  }

  lemma DoStep(n: nat, code: Word -> Instr, SP: set<Reg>, s: Stmt, open: set<Reg>, st: State) returns (st': State)
    requires s.Do? && Ready(n, code, SP, s, open, st.pc, st)
    ensures Reaches(n, code, st, st') && Done(SP, s, open, st.pc + |Compile(s)|, st, st')
  {
    hide Nested;
    assert code(st.pc + 0) == Compile(s)[0];
    ReachesStep(n, code, st);
    st' := Execute(n, code(st.pc), st).state;
  }

  /** Straight-line statements take one step, sequences two runs, an If its own proof. */
  lemma {:induction false} Correct(n: nat, code: Word -> Instr, SP: set<Reg>, s: Stmt, open: set<Reg>, st: State)
    returns (st': State)
    requires Ready(n, code, SP, s, open, st.pc, st)
    ensures Reaches(n, code, st, st') && Done(SP, s, open, st.pc + |Compile(s)|, st, st')
    decreases s, 3
  {
    hide *;
    match s
    case Do(_, _, _, _) => st' := DoStep(n, code, SP, s, open, st);
    case Then(_, _) => st' := ThenRun(n, code, SP, s, open, st);
    case If(_, _, _, _, _, _, _, _) => st' := IfRun(n, code, SP, s, open, st);
  }

  lemma {:induction false} ThenRun(n: nat, code: Word -> Instr, SP: set<Reg>, s: Stmt, open: set<Reg>, st: State)
    returns (st': State)
    requires s.Then? && Ready(n, code, SP, s, open, st.pc, st)
    ensures Reaches(n, code, st, st') && Done(SP, s, open, st.pc + |Compile(s)|, st, st')
    decreases s, 1
  {
    hide Nested, After, Execute, Shape, Zero, CodeAt;
    var a, b := Compile(s.first), Compile(s.second);
    assert Compile(s) == [] + a + b && Compile(s) == a + b + [];
    CodeSlice(code, st.pc, [], a, b);
    CodeSlice(code, st.pc, a, b, []);
    var st1 := Correct(n, code, SP, s.first, open, st);
    ZeroAfter(SP, s.first, open, st, st1);
    st' := Correct(n, code, SP, s.second, open, st1);
    ReachesTrans(n, code, st, st1, st');
    AfterThen(SP, s.first, s.second, open, st.tmask, st.regs, st1.regs, st'.regs);
  }

  lemma ZeroAfter(SP: set<Reg>, s: Stmt, open: set<Reg>, st: State, st': State)
    requires Zero(st.regs) && After(SP, s, open, st.tmask, st.regs, st'.regs)
    ensures Zero(st'.regs)
  {
  }

  /** What the comparison and the split leave: one side active, the other saved when it has threads. */
  ghost predicate Parted(s: Stmt, p: nat, st: State, st2: State, side: bool, divergent: bool)
    requires s.If?
  {
    && |st.stack| < WORD_RANGE && AfterSplit(s, st.tmask, |st.stack|, st.regs, st2.regs)
    && st2.pc == p + 2 && |st2.tmask| == |st.tmask| && Within(st2.tmask, st.tmask)
    && OneSide(s, side, st2.tmask, st2.regs)
    && (if divergent then
          && OneSide(s, !side, Minus(st.tmask, st2.tmask), st2.regs)
          && st2.stack == st.stack + [Entry(st.tmask, Minus(st.tmask, st2.tmask), p + 2, false)]
        else st2.tmask == st.tmask && st2.stack == st.stack)
  }

  /** The registers an If needs at the same time are different ones. */
  predicate Separate(s: Stmt)
    requires s.If?
  {
    && s.sp != 0 && s.sp != s.rc
    && (s.test.Comparison? ==> s.rc != 0 && s.rc != s.rs1 && s.rc != s.rs2 && s.sp != s.rs1 && s.sp != s.rs2)
  }

  lemma SplitStep(n: nat, code: Word -> Instr, p: nat, s: Stmt, st: State) returns (st2: State, side: bool, divergent: bool)
    requires s.If? && Good(n, st) && Zero(st.regs) && CodeAt(code, p, Compile(s)) && st.pc == p && Separate(s)
    ensures Reaches(n, code, st, st2) && Zero(st2.regs) && Parted(s, p, st, st2, side, divergent)
  {
    hide Nested, Compile, ExecSplit, Parted, Zero, ExecOp;
    IfCode(code, p, s);
    var st1 := CompareStep(n, code, p, s, st);
    NestedKept(n, code(st1.pc), st1);
    st2, side, divergent := SplitParts(n, p, s, st, st1);
    ReachesStep(n, code, st1);
    ReachesTrans(n, code, st, st1, st2);
  }

  ghost predicate IsCompared(s: Stmt, st: State, st1: State)
    requires s.If?
  {
    && |st.tmask| == |st.regs| == |st1.regs|
    && forall t :: 0 <= t < |st.regs| ==> st1.regs[t] == if st.tmask[t] then Compared(s, t, st.regs[t]) else st.regs[t]
  }

  lemma SplitParts(n: nat, p: nat, s: Stmt, st: State, st1: State) returns (st2: State, side: bool, divergent: bool)
    requires s.If? && Separate(s) && Zero(st.regs) && Good(n, st1)
    requires IsCompared(s, st, st1) && p + 2 < WORD_RANGE && st1 == st.(pc := p + 1, regs := st1.regs)
    requires ExecSplit(n, st1, s.sp, s.rc, s.negate) != StackFull
    ensures ExecSplit(n, st1, s.sp, s.rc, s.negate) == Next(st2)
    ensures Zero(st2.regs) && Parted(s, p, st, st2, side, divergent)
  {
    hide Nested, Count, SplitMask, Minus, OneSide, AfterSplit, Zero, Any, WriteBack, Fill;
    var thn, els := SplitMask(st1, s.rc, s.negate, true), SplitMask(st1, s.rc, s.negate, false);
    assert Any(st1.tmask);
    st2 := ExecSplit(n, st1, s.sp, s.rc, s.negate).state;
    SplitSides(st1, s.rc, s.negate);
    SplitWhole(st1, s.rc, s.negate);
    divergent := Any(thn) && Any(els);
    side := if divergent then FirstSide(thn, els) == thn else Any(thn);
    SplitRegs(n, s, st, st1, st2.regs);
    MaskSides(s, st, st1, st2.regs);
  }

  lemma SplitRegs(n: nat, s: Stmt, st: State, st1: State, rs2: seq<RegFile>)
    requires s.If? && s.sp != 0 && Zero(st.regs) && IsCompared(s, st, st1) && st1.tmask == st.tmask
    requires |st.stack| < n == |st.regs| && n <= 32 && st1.stack == st.stack && rs2 == WriteBack(st1, s.sp, Fill(n, |st.stack|))
    ensures AfterSplit(s, st.tmask, |st.stack|, st.regs, rs2) && Zero(rs2)
  {
  }

  /** The masks of a split hold the threads of either side of the If. */
  lemma MaskSides(s: Stmt, st: State, st1: State, rs2: seq<RegFile>)
    requires s.If? && Separate(s) && Zero(st.regs) && IsCompared(s, st, st1) && st1.tmask == st.tmask
    requires |st.stack| < WORD_RANGE && AfterSplit(s, st.tmask, |st.stack|, st.regs, rs2)
    ensures OneSide(s, true, SplitMask(st1, s.rc, s.negate, true), rs2)
    ensures OneSide(s, false, SplitMask(st1, s.rc, s.negate, false), rs2)
  {
  }

  // ---- The joins of an If ----

  /** The active threads hold the stack pointer of the split. */
  ghost predicate Holds(sp: Reg, depth: nat, m: Mask, rs: seq<RegFile>) {
    |m| == |rs| && forall t :: 0 <= t < |m| && m[t] ==> rs[t][sp] == depth
  }

  /** After a split without divergence the stack pointer is the current depth. */
  lemma JoinSame(n: nat, code: Word -> Instr, sp: Reg, st: State) returns (st': State)
    requires Good(n, st) && code(st.pc) == Join(sp) && Holds(sp, |st.stack|, st.tmask, st.regs) && st.pc + 1 < WORD_RANGE
    ensures Reaches(n, code, st, st') && st' == st.(pc := st.pc + 1)
  {
    hide Nested;
    ReachesStep(n, code, st);
    st' := Execute(n, code(st.pc), st).state;
  }

  /** The first join of a divergent split goes back to the branch with the other side. */
  lemma JoinElse(n: nat, code: Word -> Instr, sp: Reg, st: State, rest: seq<Entry>, e: Entry) returns (st': State)
    requires Good(n, st) && code(st.pc) == Join(sp) && st.stack == rest + [e] && !e.fallthrough
    requires Holds(sp, |rest|, st.tmask, st.regs)
    ensures Reaches(n, code, st, st')
    ensures st' == st.(pc := e.pc, tmask := e.els, stack := rest + [e.(fallthrough := true)])
  {
    hide Nested;
    assert st.stack[..|st.stack| - 1] == rest;
    ReachesStep(n, code, st);
    st' := Execute(n, code(st.pc), st).state;
  }

  /** The second one goes on with all threads. */
  lemma JoinEnd(n: nat, code: Word -> Instr, sp: Reg, st: State, rest: seq<Entry>, e: Entry) returns (st': State)
    requires Good(n, st) && code(st.pc) == Join(sp) && st.stack == rest + [e] && e.fallthrough && st.pc + 1 < WORD_RANGE
    requires Holds(sp, |rest|, st.tmask, st.regs)
    ensures Reaches(n, code, st, st')
    ensures st' == st.(pc := st.pc + 1, tmask := e.orig, stack := rest)
  {
    hide Nested;
    assert st.stack[..|st.stack| - 1] == rest;
    ReachesStep(n, code, st);
    st' := Execute(n, code(st.pc), st).state;
  }

  /** A side of an If keeps the stack pointer and the zero register. */
  lemma SideKeeps(SP: set<Reg>, s: Stmt, side: bool, open: set<Reg>, depth: nat, m: Mask, rs: seq<RegFile>, rs': seq<RegFile>)
    requires s.If? && Zero(rs) && Holds(s.sp, depth, m, rs)
    requires After(SP, Body(s, side), open + {s.sp}, m, rs, rs')
    ensures Zero(rs') && Holds(s.sp, depth, m, rs')
  {
    forall t | 0 <= t < |m| && m[t] ensures rs'[t][s.sp] == depth {
      assert s.sp in open + {s.sp};
    }
  }

  /** The threads of the other side wait unchanged. */
  lemma OthersWait(SP: set<Reg>, s: Stmt, side: bool, open: set<Reg>, depth: nat, all: Mask, m: Mask, rs: seq<RegFile>, rs': seq<RegFile>)
    requires s.If? && |all| == |m| && After(SP, Body(s, side), open + {s.sp}, m, rs, rs')
    requires Holds(s.sp, depth, Minus(all, m), rs) && OneSide(s, !side, Minus(all, m), rs)
    ensures Holds(s.sp, depth, Minus(all, m), rs') && OneSide(s, !side, Minus(all, m), rs')
  {
  }

  lemma SplitHolds(s: Stmt, depth: nat, all: Mask, m: Mask, rs: seq<RegFile>, rs2: seq<RegFile>)
    requires s.If? && depth < WORD_RANGE && AfterSplit(s, all, depth, rs, rs2) && Within(m, all)
    ensures Holds(s.sp, depth, m, rs2)
  {
  }

  lemma AfterUniform(SP: set<Reg>, s: Stmt, open: set<Reg>, side: bool, depth: nat, m: Mask, rs: seq<RegFile>, rs2: seq<RegFile>, rs3: seq<RegFile>)
    requires s.If? && WellFormed(SP, s, open) && 0 !in SP && open <= SP && Zero(rs) && depth < WORD_RANGE
    requires AfterSplit(s, m, depth, rs, rs2) && OneSide(s, side, m, rs2)
    requires After(SP, Body(s, side), open + {s.sp}, m, rs2, rs3)
    ensures After(SP, s, open, m, rs, rs3)
  {
    forall t | 0 <= t < |m| && m[t] ensures ThreadAfter(SP, s, open, t, rs[t], rs3[t]) {
      ThreadIf(SP, s, open, t, rs[t], depth, rs3[t]);
    }
  }

  lemma AfterDivergent(SP: set<Reg>, s: Stmt, open: set<Reg>, side: bool, depth: nat, all: Mask, m: Mask,
                       rs: seq<RegFile>, rs2: seq<RegFile>, rs3: seq<RegFile>, rs5: seq<RegFile>)
    requires s.If? && WellFormed(SP, s, open) && 0 !in SP && open <= SP && Zero(rs) && depth < WORD_RANGE && Within(m, all)
    requires AfterSplit(s, all, depth, rs, rs2) && OneSide(s, side, m, rs2) && OneSide(s, !side, Minus(all, m), rs2)
    requires After(SP, Body(s, side), open + {s.sp}, m, rs2, rs3)
    requires After(SP, Body(s, !side), open + {s.sp}, Minus(all, m), rs3, rs5)
    ensures After(SP, s, open, all, rs, rs5)
  {
    forall t | 0 <= t < |all| && all[t] ensures ThreadAfter(SP, s, open, t, rs[t], rs5[t]) {
      if m[t] {
        assert rs5[t] == rs3[t];
        ThreadIf(SP, s, open, t, rs[t], depth, rs3[t]);
      } else {
        assert Minus(all, m)[t] && rs3[t] == rs2[t];
        ThreadIf(SP, s, open, t, rs[t], depth, rs5[t]);
      }
    }
  }

  /** Both sides of a divergent split, one after the other, from the branch to the end of the If. */
  lemma {:induction false} DivergentRun(n: nat, code: Word -> Instr, SP: set<Reg>, s: Stmt, open: set<Reg>, st: State, st2: State, side: bool)
    returns (st': State)
    requires s.If? && Ready(n, code, SP, s, open, st.pc, st) && Good(n, st2) && Zero(st2.regs)
    requires Parted(s, st.pc, st, st2, side, true)
    ensures Reaches(n, code, st2, st') && Done(SP, s, open, st.pc + |Compile(s)|, st, st')
    decreases s, 1
  {
    hide Nested, Compile, After, Execute, Zero, OneSide, AfterSplit, Minus, Holds, CodeAt, Within, Shape;
    var p, depth, other := st.pc, |st.stack|, Minus(st.tmask, st2.tmask);
    var e := Entry(st.tmask, other, p + 2, false);
    IfCode(code, p, s);
    CodeEnd(code, p, Compile(s));
    MinusWithin(st.tmask, st2.tmask);
    SplitHolds(s, depth, st.tmask, st2.tmask, st.regs, st2.regs);
    SplitHolds(s, depth, st.tmask, other, st.regs, st2.regs);
    var st3 := HalfRun(n, code, SP, s, open, p, st2, side);
    SideKeeps(SP, s, side, open, depth, st2.tmask, st2.regs, st3.regs);
    OthersWait(SP, s, side, open, depth, st.tmask, st2.tmask, st2.regs, st3.regs);
    var st4 := JoinElse(n, code, s.sp, st3, st.stack, e);
    var st5 := HalfRun(n, code, SP, s, open, p, st4, !side);
    SideKeeps(SP, s, !side, open, depth, other, st4.regs, st5.regs);
    st' := JoinEnd(n, code, s.sp, st5, st.stack, e.(fallthrough := true));
    AfterDivergent(SP, s, open, side, depth, st.tmask, st2.tmask, st.regs, st2.regs, st3.regs, st5.regs);
    ReachesTrans(n, code, st2, st3, st4);
    ReachesTrans(n, code, st2, st4, st5);
    ReachesTrans(n, code, st2, st5, st');
  }

  lemma CodeEnd(code: Word -> Instr, p: nat, c: seq<Instr>)
    requires CodeAt(code, p, c)
    ensures p + |c| < WORD_RANGE
  {
  }

  lemma MinusWithin(a: Mask, b: Mask)
    requires |a| == |b|
    ensures Within(Minus(a, b), a)
  {
  }

  lemma {:induction false} IfRun(n: nat, code: Word -> Instr, SP: set<Reg>, s: Stmt, open: set<Reg>, st: State)
    returns (st': State)
    requires s.If? && Ready(n, code, SP, s, open, st.pc, st)
    ensures Reaches(n, code, st, st') && Done(SP, s, open, st.pc + |Compile(s)|, st, st')
    decreases s, 2
  {
    hide Nested, Compile, After, Execute, Zero, OneSide, AfterSplit, Minus, Holds, CodeAt, Within, Shape;
    var p := st.pc;
    IfCode(code, p, s);
    CodeEnd(code, p, Compile(s));
    var st2, side, divergent := SplitStep(n, code, p, s, st);
    if divergent {
      st' := DivergentRun(n, code, SP, s, open, st, st2, side);
    } else {
      SplitHolds(s, |st.stack|, st.tmask, st2.tmask, st.regs, st2.regs);
      var st3 := HalfRun(n, code, SP, s, open, p, st2, side);
      SideKeeps(SP, s, side, open, |st.stack|, st2.tmask, st2.regs, st3.regs);
      st' := JoinSame(n, code, s.sp, st3);
      AfterUniform(SP, s, open, side, |st.stack|, st.tmask, st.regs, st2.regs, st3.regs);
      ReachesTrans(n, code, st2, st3, st');
    }
    ReachesTrans(n, code, st, st2, st');
  }

  // ---- The theorem ----

  /** A warp mask with one thread. */
  function Only(n: nat, t: nat): (m: Mask)
    requires t < n
    ensures |m| == n && forall u :: 0 <= u < n ==> m[u] == (u == t)
  {
    seq(n, u => u == t)
  }

  /** The same warp with thread t alone, and nothing on the stack. */
  function Alone(n: nat, t: nat, st: State): State
    requires t < n
  {
    st.(tmask := Only(n, t), stack := [])
  }

  lemma AloneGood(n: nat, t: nat, st: State)
    requires Good(n, st) && t < n
    ensures Good(n, Alone(n, t, st))
  {
    assert Only(n, t)[t];
  }

  /**
   Running a structured kernel on a warp ends behind it with the mask and stack it started with;
   inactive threads keep their registers, and every active thread has, outside the stack pointers,
   the registers the kernel means for it and the registers it gets when it runs alone.
   */
  lemma KernelMeansThreads(n: nat, code: Word -> Instr, SP: set<Reg>, s: Stmt, st: State, t: nat)
    returns (st': State, lone: State)
    requires Ready(n, code, SP, s, {}, st.pc, st) && t < n
    ensures Reaches(n, code, st, st')
    ensures st'.pc == st.pc + |Compile(s)| && st'.tmask == st.tmask && st'.stack == st.stack
    ensures !st.tmask[t] ==> st'.regs[t] == st.regs[t]
    ensures st.tmask[t] ==> Agree(SP, st'.regs[t], Exec(s, t, st.regs[t]))
    ensures Good(n, Alone(n, t, st)) && Reaches(n, code, Alone(n, t, st), lone)
    ensures st.tmask[t] ==> Agree(SP, st'.regs[t], lone.regs[t])
  {
    hide *;
    var alone := Alone(n, t, st);
    AloneReady(n, code, SP, s, t, st);
    st' := Correct(n, code, SP, s, {}, st);
    lone := Correct(n, code, SP, s, {}, alone);
    DoneAt(SP, s, st.pc + |Compile(s)|, st, st', t);
    DoneAt(SP, s, st.pc + |Compile(s)|, alone, lone, t);
    AgreeBoth(SP, st'.regs[t], lone.regs[t], Exec(s, t, st.regs[t]));
  }

  lemma AloneReady(n: nat, code: Word -> Instr, SP: set<Reg>, s: Stmt, t: nat, st: State)
    requires Ready(n, code, SP, s, {}, st.pc, st) && t < n
    ensures Good(n, st) && |st.tmask| == |st.regs| == n
    ensures var alone := Alone(n, t, st);
            && Ready(n, code, SP, s, {}, alone.pc, alone) && Good(n, alone)
            && alone.pc == st.pc && alone.regs == st.regs && |alone.tmask| == n && alone.tmask[t]
  {
    hide Nested, Compile, CodeAt, WellFormed;
    AloneGood(n, t, st);
  }

  /** What a statement that is done means for one thread. */
  lemma DoneAt(SP: set<Reg>, s: Stmt, pc: int, st: State, st': State, t: nat)
    requires Done(SP, s, {}, pc, st, st') && t < |st.tmask|
    ensures st'.pc == pc && st'.tmask == st.tmask && st'.stack == st.stack && |st.regs| == |st'.regs| == |st.tmask|
    ensures if st.tmask[t] then Agree(SP, st'.regs[t], Exec(s, t, st.regs[t])) else st'.regs[t] == st.regs[t]
  {
    hide Exec, Agree;
  }

  lemma AgreeBoth(SP: set<Reg>, a: RegFile, b: RegFile, c: RegFile)
    ensures Agree(SP, a, c) && Agree(SP, b, c) ==> Agree(SP, a, b)
  {
  }

  /** A run that gets to a state aborts nowhere on the way: no divergent branch, no full or empty stack. */
  lemma {:induction false} NoAbortBefore(n: nat, code: Word -> Instr, st: State, j: nat, k: nat)
    requires Good(n, st) && Run(n, code, st, k).Next? && j <= k
    ensures Run(n, code, st, j).Next?
    decreases j
  {
    hide Execute, Nested, Shape;
    if j > 0 {
      NestedKept(n, code(st.pc), st);
      NoAbortBefore(n, code, Execute(n, code(st.pc), st).state, j - 1, k - 1);
    }
  }

  // ---- Predicates other than 0 and 1 ----

  /** The low bit splits, but the branch compares with zero: an even predicate that is not zero. */
  predicate EvenNotZero(w: Word) { w % 2 == 0 && w != 0 }

  ghost predicate BranchUniform(st: State, m: Mask, rs: Reg, negate: bool)
    requires |m| == |st.regs|
  {
    Uniform(st.(tmask := m), if negate then BNE else BEQ, rs, 0)
  }

  /**
   The branch that follows a split is uniform on both of its sides exactly when no active thread
   holds zero while another one holds an even number that is not zero.
   */
  lemma SplitBranchExact(st: State, rs: Reg, negate: bool)
    requires |st.tmask| == |st.regs| && Zero(st.regs)
    ensures BranchUniform(st, SplitMask(st, rs, negate, true), rs, negate)
         && BranchUniform(st, SplitMask(st, rs, negate, false), rs, negate)
       <==> !exists t, u {:trigger st.regs[t], st.regs[u]} ::
              && 0 <= t < |st.regs| && 0 <= u < |st.regs| && st.tmask[t] && st.tmask[u]
              && st.regs[t][rs] == 0 && EvenNotZero(st.regs[u][rs])
  {
    if t, u {:trigger st.regs[t], st.regs[u]} :|
         && 0 <= t < |st.regs| && 0 <= u < |st.regs| && st.tmask[t] && st.tmask[u]
         && st.regs[t][rs] == 0 && EvenNotZero(st.regs[u][rs])
    {
      var m := SplitMask(st, rs, negate, negate);
      assert m[t] && m[u];
      var st1, op := st.(tmask := m), if negate then BNE else BEQ;
      assert Takes(st1, op, rs, 0, t) != Takes(st1, op, rs, 0, u);
    }
  }

  /** Two threads with predicates 0 and 2: the split sends both the same way, and the branch behind it aborts. */
  lemma SplitThenAborts(st: State, offset: int)
    requires st.tmask == [true, true] && st.stack == [] && |st.regs| == 2 && Zero(st.regs)
    requires st.regs[0][1] == 0 && st.regs[1][1] == 2
    ensures Shape(2, st)
    ensures var o := Execute(2, Split(3, 1, false), st);
            o.Next? && Shape(2, o.state) && Execute(2, Branch(BEQ, 1, 0, offset), o.state) == DivergentBranch
  {
    assert st.tmask[0];
    var thn := SplitMask(st, 1, false, true);
    assert !Any(thn);
    var st1 := st.(pc := Wrap(st.pc + 1), regs := WriteBack(st, 3, Fill(2, 0)));
    assert Execute(2, Split(3, 1, false), st) == Next(st1);
    assert Takes(st1, BEQ, 1, 0, 0) && !Takes(st1, BEQ, 1, 0, 1);
    assert st1.tmask[0] && st1.tmask[1];
  }
}
