/** The emulator's execute on the fields of a warp, thread by thread, as SimtMachine describes it. */
module SimtWarp {
  import opened SimtMachine

  /** How an instruction ends: carried out, or one of the emulator's aborts. */
  datatype Status = Ok | AbortDivergentBranch | AbortStackFull | AbortStackEmpty

  function StatusOf(o: Outcome): Status {
    match o
    case Next(_) => Ok
    case DivergentBranch => AbortDivergentBranch
    case StackFull => AbortStackFull
    case StackEmpty => AbortStackEmpty
  }

  lemma WriteBackActive(st: State, rd: Reg, v: seq<Word>, w: seq<Word>)
    requires |st.tmask| == |st.regs| == |v| == |w|
    requires forall t :: 0 <= t < |v| && st.tmask[t] ==> v[t] == w[t]
    ensures WriteBack(st, rd, v) == WriteBack(st, rd, w)
  {
  }

  class Warp {
    const numThreads: nat
    const ipdomSize: int
    var PC: Word
    var tmask: Mask
    var ipdomStack: seq<Entry>
    var iregFile: seq<RegFile>

    ghost function Now(): State
      reads this
    {
      State(PC, tmask, ipdomStack, iregFile)
    }

    ghost predicate Valid()
      reads this
    {
      ipdomSize == numThreads - 1 && Shape(numThreads, Now())
    }

    constructor (numThreads: nat, startup: Word)
      requires 0 < numThreads <= 32
      ensures Valid() && this.numThreads == numThreads && Nested(numThreads, Now().stack, Now().tmask)
      ensures PC == startup && ipdomStack == [] && forall t :: 0 <= t < numThreads ==> tmask[t] == (t == 0)
    {
      this.numThreads, ipdomSize := numThreads, numThreads - 1;
      PC, ipdomStack := startup, [];
      tmask := seq(numThreads, t => t == 0);
      iregFile := seq(numThreads, t => seq(NUM_REGS, i => 0));
      new;
      assert tmask[0];
    }

    /** The first and the last active thread. */
    method ThreadRange() returns (threadStart: nat, threadLast: nat)
      requires Valid()
      ensures threadStart < numThreads && tmask[threadStart] && forall t :: 0 <= t < threadStart ==> !tmask[t]
      ensures threadLast == LastThread(tmask)
    {
      threadStart := 0;
      while !tmask[threadStart]
        invariant threadStart < numThreads && forall t :: 0 <= t < threadStart ==> !tmask[t]
        decreases numThreads - threadStart
      {
        ghost var t :| 0 <= t < numThreads && tmask[t];
        threadStart := threadStart + 1;
      }
      threadLast := numThreads - 1;
      while !tmask[threadLast]
        invariant threadLast < numThreads && forall t :: threadLast < t < numThreads ==> !tmask[t]
        decreases threadLast
      {
        threadLast := threadLast - 1;
      }
    }

    /** The write-back of rd for the active threads. */
    method WriteRd(rdest: Reg, rddata: seq<Word>)
      requires Valid() && |rddata| == numThreads
      modifies this`iregFile
      ensures iregFile == WriteBack(old(Now()), rdest, rddata)
    {
      if rdest != 0 {
        ghost var was := iregFile;
        for t := 0 to numThreads
          invariant |iregFile| == numThreads
          invariant forall u :: 0 <= u < numThreads ==>
                      iregFile[u] == if u < t && tmask[u] then was[u][rdest := rddata[u]] else was[u]
        {
          if tmask[t] {
            iregFile := iregFile[t := iregFile[t][rdest := rddata[t]]];
          }
        }
      }
    }

    method ExecuteOp(rd: Reg, rs1: Reg, rs2: Reg, f: (nat, Word, Word) -> Word, threadStart: nat)
      requires Valid() && threadStart <= numThreads && forall t :: 0 <= t < threadStart ==> !tmask[t]
      modifies this
      ensures Now() == ExecOp(numThreads, old(Now()), rd, rs1, rs2, f)
    {
      var rddata: seq<Word> := seq(numThreads, t => 0);
      for t := threadStart to numThreads
        invariant |rddata| == numThreads
        invariant forall u :: 0 <= u < t && tmask[u] ==> rddata[u] == f(u, iregFile[u][rs1], iregFile[u][rs2])
      {
        if tmask[t] {
          rddata := rddata[t := f(t, iregFile[t][rs1], iregFile[t][rs2])];
        }
      }
      ghost var st := Now();
      WriteBackActive(st, rd, rddata, seq(numThreads, t requires 0 <= t < numThreads => f(t, st.regs[t][rs1], st.regs[t][rs2])));
      WriteRd(rd, rddata);
      PC := Wrap(PC + 1);
    }

    method ExecuteBranch(op: BranchOp, rs1: Reg, rs2: Reg, offset: int, threadStart: nat) returns (r: Status)
      requires Valid() && threadStart < numThreads && tmask[threadStart] && forall t :: 0 <= t < threadStart ==> !tmask[t]
      modifies this`PC
      ensures var o := ExecBranch(numThreads, old(Now()), op, rs1, rs2, offset);
              r == StatusOf(o) && Now() == if o.Next? then o.state else old(Now())
    {
      ghost var st := Now();
      var nextPC := Wrap(PC + 1);
      var allTaken := false;
      for t := threadStart to numThreads
        invariant t == threadStart ==> nextPC == Wrap(PC + 1)
        invariant t > threadStart ==> allTaken == Takes(st, op, rs1, rs2, threadStart)
        invariant t > threadStart ==> nextPC == if allTaken then Wrap(PC + offset) else Wrap(PC + 1)
        invariant forall u :: threadStart <= u < t && tmask[u] ==> Takes(st, op, rs1, rs2, u) == allTaken
      {
        if tmask[t] {
          var currTaken := false;
          if Taken(op, iregFile[t][rs1], iregFile[t][rs2]) {
            nextPC := Wrap(PC + offset);
            currTaken := true;
          }
          if t == threadStart {
            allTaken := currTaken;
          } else if allTaken != currTaken {
            assert Takes(st, op, rs1, rs2, t) != Takes(st, op, rs1, rs2, threadStart);
            return AbortDivergentBranch;
          }
        }
      }
      assert Takes(st, op, rs1, rs2, LastThread(tmask)) == allTaken;
      PC := nextPC;
      r := Ok;
    }

    /** The masks of the two sides of a split. */
    method SplitMasks(rsrc0: Reg, notPred: bool) returns (thenTmask: Mask, elseTmask: Mask)
      requires Valid()
      ensures thenTmask == SplitMask(Now(), rsrc0, notPred, true) && elseTmask == SplitMask(Now(), rsrc0, notPred, false)
    {
      thenTmask, elseTmask := seq(numThreads, t => false), seq(numThreads, t => false);
      for t := 0 to numThreads
        invariant |thenTmask| == |elseTmask| == numThreads
        invariant forall u :: 0 <= u < t ==> thenTmask[u] == SplitMask(Now(), rsrc0, notPred, true)[u]
        invariant forall u :: 0 <= u < t ==> elseTmask[u] == SplitMask(Now(), rsrc0, notPred, false)[u]
      {
        var cond := (iregFile[t][rsrc0] % 2 == 1) != notPred;
        thenTmask := thenTmask[t := tmask[t] && cond];
        elseTmask := elseTmask[t := tmask[t] && !cond];
      }
    }

    /** The depth of the stack goes to rd of the active threads. */
    method WriteDepth(rd: Reg, stackSize: nat, threadStart: nat)
      requires Valid() && threadStart <= numThreads && forall t :: 0 <= t < threadStart ==> !tmask[t]
      requires stackSize < 0x1_0000_0000
      modifies this`iregFile
      ensures iregFile == WriteBack(old(Now()), rd, Fill(numThreads, stackSize))
    {
      hide WriteBack;
      var rddata: seq<Word> := seq(numThreads, t => 0);
      for t := threadStart to numThreads
        invariant |rddata| == numThreads && forall u :: threadStart <= u < t ==> rddata[u] == stackSize
      {
        rddata := rddata[t := stackSize];
      }
      WriteBackActive(Now(), rd, rddata, Fill(numThreads, stackSize));
      WriteRd(rd, rddata);
    }

    method ExecuteSplit(rd: Reg, rsrc0: Reg, notPred: bool, threadStart: nat) returns (r: Status)
      requires Valid() && threadStart <= numThreads && forall t :: 0 <= t < threadStart ==> !tmask[t]
      modifies this
      ensures var o := ExecSplit(numThreads, old(Now()), rd, rsrc0, notPred);
              r == StatusOf(o) && Now() == if o.Next? then o.state else old(Now())
    {
      hide WriteBack, Count, SplitMask, Minus;
      var stackSize := |ipdomStack|;
      var nextPC := Wrap(PC + 1);
      var nextTmask, nextStack := tmask, ipdomStack;
      var thenTmask, elseTmask := SplitMasks(rsrc0, notPred);
      var isDivergent := Any(thenTmask) && Any(elseTmask);
      if isDivergent {
        if stackSize == ipdomSize {
          return AbortStackFull;
        }
        if Count(thenTmask) >= Count(elseTmask) {
          nextTmask := thenTmask;
        } else {
          nextTmask := elseTmask;
        }
        var ntakenTmask := Minus(tmask, nextTmask);
        nextStack := ipdomStack + [Entry(tmask, ntakenTmask, nextPC, false)];
      }
      WriteDepth(rd, stackSize, threadStart);
      ipdomStack, PC, tmask := nextStack, nextPC, nextTmask;
      r := Ok;
    }

    method ExecuteJoin(rsrc0: Reg, threadLast: nat) returns (r: Status)
      requires Valid() && threadLast == LastThread(tmask)
      modifies this`PC, this`tmask, this`ipdomStack
      ensures var o := ExecJoin(numThreads, old(Now()), rsrc0);
              r == StatusOf(o) && Now() == if o.Next? then o.state else old(Now())
    {
      var nextPC, nextTmask := Wrap(PC + 1), tmask;
      var stackPtr := iregFile[threadLast][rsrc0];
      if stackPtr != |ipdomStack| {
        if |ipdomStack| == 0 {
          return AbortStackEmpty;
        }
        var top := |ipdomStack| - 1;
        if ipdomStack[top].fallthrough {
          nextTmask := ipdomStack[top].orig;
          ipdomStack := ipdomStack[..top];
        } else {
          nextTmask := ipdomStack[top].els;
          nextPC := ipdomStack[top].pc;
          ipdomStack := ipdomStack[..top] + [ipdomStack[top].(fallthrough := true)];
        }
      }
      PC, tmask := nextPC, nextTmask;
      r := Ok;
    }

    method ExecuteJal(rd: Reg, offset: int)
      requires Valid()
      modifies this
      ensures var st := old(Now());
              Now() == st.(pc := Wrap(st.pc + offset), regs := WriteBack(st, rd, Fill(numThreads, Wrap(st.pc + 1))))
    {
      hide WriteBack, Wrap;
      var link := Wrap(PC + 1);
      var rddata := seq(numThreads, t => link);
      assert rddata == Fill(numThreads, link);
      WriteRd(rd, rddata);
      PC := Wrap(PC + offset);
    }

    method Execute(instr: Instr) returns (r: Status)
      requires Valid()
      modifies this
      ensures var o := SimtMachine.Execute(numThreads, instr, old(Now()));
              r == StatusOf(o) && Now() == if o.Next? then o.state else old(Now())
    {
      hide ExecOp, ExecBranch, ExecSplit, ExecJoin, WriteBack, LastThread, Wrap;
      var threadStart, threadLast := ThreadRange();
      match instr
      case Op(rd, rs1, rs2, f) =>
        ExecuteOp(rd, rs1, rs2, f, threadStart);
        r := Ok;
      case Branch(op, rs1, rs2, offset) =>
        r := ExecuteBranch(op, rs1, rs2, offset, threadStart);
      case Jal(rd, offset) =>
        ExecuteJal(rd, offset);
        r := Ok;
      case Split(rd, rs, negate) =>
        r := ExecuteSplit(rd, rs, negate, threadStart);
      case Join(rs) =>
        r := ExecuteJoin(rs, threadLast);
    }
  }
}
