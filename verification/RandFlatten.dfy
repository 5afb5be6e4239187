/** Flattening preserves meaning: the interpreter on flat code does what direct evaluation does. */
module RandFlatten {
  import opened Words
  import opened RandProgram
  import opened RandInterp

  ghost predicate CodeAt(prog: seq<u32>, pc: nat, c: seq<u32>) {
    pc + |c| <= |prog| && prog[pc..pc + |c|] == c
  }

  lemma CodeSplits(prog: seq<u32>, pc: nat, a: seq<u32>, b: seq<u32>)
    requires CodeAt(prog, pc, a + b)
    ensures CodeAt(prog, pc, a) && CodeAt(prog, pc + |a|, b)
  {
    var c := prog[pc..pc + |a + b|];
    assert prog[pc..pc + |a|] == c[..|a|] && prog[pc + |a|..pc + |a| + |b|] == c[|a|..];
  }

  lemma CodeWord(prog: seq<u32>, pc: nat, w: u32)
    requires CodeAt(prog, pc, [w])
    ensures pc < |prog| && prog[pc] == w
  {
    assert prog[pc..pc + 1][0] == w;
  }

  /** Whether the operation limit strikes in the course of an evaluation that ends in `st`. */
  function Finish(st: State, pc: nat): Result {
    if st.opCtr > MAX_OPS + 1 then Limit else Ok(st, pc)
  }

  // ---------- single instructions ----------

  lemma RunPrim(e: Env, prog: seq<u32>, w: u32, st: State, pc: nat, cycle: nat)
    requires StateOk(st) && CodeAt(prog, pc, [w])
    requires Executable(w, st) && (Opcode(w) == OP_MEMORY ==> st.loopCycle == cycle)
    ensures Run(e, prog, st, pc) == Run(e, prog, Exec(e, w, st, cycle), pc + 1)
  {
    CodeWord(prog, pc, w);
  }

  lemma OpcodeOfJmp(d: nat)
    requires d < 0x100_0000
    ensures Opcode(JumpOver(d)) == OP_JMP && JmpDist(JumpOver(d)) == d
  {
  }

  lemma RunJmp(e: Env, prog: seq<u32>, d: nat, st: State, pc: nat)
    requires StateOk(st) && d < 0x100_0000 && CodeAt(prog, pc, [JumpOver(d)])
    ensures Run(e, prog, st, pc) == Run(e, prog, Tick(st), pc + d + 1)
  {
    CodeWord(prog, pc, JumpOver(d));
    OpcodeOfJmp(d);
    hide JumpOver;
  }

  lemma RunEnd(e: Env, prog: seq<u32>, st: State, pc: nat)
    requires StateOk(st) && |st.frames| > 0 && CodeAt(prog, pc, [OP_END])
    ensures Run(e, prog, st, pc) == Finish(Close(Tick(st)), pc)
  {
    CodeWord(prog, pc, OP_END);
  }

  /** MEMORY instructions at the head of a loop see that loop's index. */
  lemma {:induction false} RunMems(e: Env, prog: seq<u32>, ws: seq<u32>, st: State, pc: nat, cycle: nat)
    requires StateOk(st) && |st.frames| > 0 && st.loopCycle == cycle && CodeAt(prog, pc, ws)
    requires forall i :: 0 <= i < |ws| ==> Opcode(ws[i]) == OP_MEMORY
    ensures Run(e, prog, st, pc) == Run(e, prog, ExecAll(e, ws, st, cycle), pc + |ws|)
  {
    hide Run, Exec, CodeAt, Opcode;
    if |ws| > 0 {
      var n := |ws| - 1;
      assert ws == ws[..n] + [ws[n]];
      CodeSplits(prog, pc, ws[..n], [ws[n]]);
      RunMems(e, prog, ws[..n], st, pc, cycle);
      RunPrim(e, prog, ws[n], ExecAll(e, ws[..n], st, cycle), pc + n, cycle);
    }
  }

  // ---------- structured code ----------

  lemma {:induction false} RunBlock(e: Env, prog: seq<u32>, b: seq<Stmt>, st: State, pc: nat)
    requires StateOk(st) && |st.frames| > 0 && pc > 0 && |prog| <= MAX_INSNS
    requires WellFormed(b, Sizes(st.frames)) && CodeAt(prog, pc, Flat(b)) && pc + |Flat(b)| < |prog|
    ensures Run(e, prog, st, pc) == Run(e, prog, Eval(e, b, st), pc + |Flat(b)|)
    decreases b, 0
  {
    hide *;
    BlockUnfolds(e, b, st);
    if |b| > 0 {
      var b', s := b[..|b| - 1], b[|b| - 1];
      CodeSplits(prog, pc, Flat(b'), FlatStmt(s));
      RunBlock(e, prog, b', st, pc);
      EvalSizes(e, b', st);
      RunStmt(e, prog, s, Eval(e, b', st), pc + |Flat(b')|);
    }
  }

  /** A block is a shorter one and a last statement. */
  lemma BlockUnfolds(e: Env, b: seq<Stmt>, st: State)
    requires StateOk(st) && |st.frames| > 0
    ensures |b| == 0 ==> Eval(e, b, st) == st && Flat(b) == []
    ensures |b| > 0 ==>
              var b', s := b[..|b| - 1], b[|b| - 1];
              && Flat(b) == Flat(b') + FlatStmt(s) && Eval(e, b, st) == EvalStmt(e, s, Eval(e, b', st))
              && StateOk(Eval(e, b', st)) && |Eval(e, b', st).frames| == |st.frames|
              && (WellFormed(b, Sizes(st.frames)) ==>
                    WellFormed(b', Sizes(st.frames)) && WellFormedStmt(s, SizeBlock(b', Sizes(st.frames))))
  {
    hide EvalStmt, WellFormedStmt, FlatStmt, SizeStmt, Sizes;
  }

  /** A scope's code up to and including its END. */
  lemma {:induction false} RunScope(e: Env, prog: seq<u32>, b: seq<Stmt>, st: State, pc: nat)
    requires StateOk(st) && |st.frames| > 0 && pc > 0 && |prog| <= MAX_INSNS
    requires WellFormed(b, Sizes(st.frames)) && CodeAt(prog, pc, Flat(b) + [OP_END])
    ensures Run(e, prog, st, pc) == Finish(Close(Tick(Eval(e, b, st))), pc + |Flat(b)|)
    decreases b, 1
  {
    hide Run;
    CodeSplits(prog, pc, Flat(b), [OP_END]);
    RunBlock(e, prog, b, st, pc);
    RunEnd(e, prog, Eval(e, b, st), pc + |Flat(b)|);
  }

  lemma {:induction false} RunStmt(e: Env, prog: seq<u32>, s: Stmt, st: State, pc: nat)
    requires StateOk(st) && |st.frames| > 0 && pc > 0 && |prog| <= MAX_INSNS
    requires WellFormedStmt(s, Sizes(st.frames)) && CodeAt(prog, pc, FlatStmt(s)) && pc + |FlatStmt(s)| < |prog|
    ensures Run(e, prog, st, pc) == Run(e, prog, EvalStmt(e, s, st), pc + |FlatStmt(s)|)
    decreases s, 1
  {
    hide Run, CodeAt, Taken, Count, Opcode, OperandsOk;
    match s
    case Prim(w) =>
      RunPrim(e, prog, w, st, pc, 0);
    case If(w, thn, els) =>
      if Taken(w, st.frames) {
        RunThen(e, prog, w, thn, els, st, pc);
      } else {
        RunElse(e, prog, w, thn, els, st, pc);
      }
    case Loop(w, mems, body) =>
      RunNestedLoop(e, prog, w, mems, body, st, pc);
  }

  lemma BranchPieces(w: seq<u32>, j1: seq<u32>, f1: seq<u32>, end: seq<u32>, j2: seq<u32>, f2: seq<u32>)
    ensures w + j1 + f1 + end + j2 + f2 + end == w + (j1 + ((f1 + end) + (j2 + (f2 + end))))
  {
  }

  lemma PiecesSplit(prog: seq<u32>, pc: nat, w: u32, j1: seq<u32>, t: seq<u32>, j2: seq<u32>, f: seq<u32>)
    requires CodeAt(prog, pc, [w] + (j1 + (t + (j2 + f)))) && |j1| == |j2| == 1
    ensures pc + 3 + |t| + |f| <= |prog| && prog[pc] == w
    ensures CodeAt(prog, pc + 1, j1) && CodeAt(prog, pc + 2, t)
    ensures CodeAt(prog, pc + 2 + |t|, j2) && CodeAt(prog, pc + 3 + |t|, f)
  {
    CodeSplits(prog, pc, [w], j1 + (t + (j2 + f)));
    CodeWord(prog, pc, w);
    CodeSplits(prog, pc + 1, j1, t + (j2 + f));
    CodeSplits(prog, pc + 2, t, j2 + f);
    CodeSplits(prog, pc + 2 + |t|, j2, f);
  }

  /** The pieces of a branch's code. */
  lemma BranchCode(prog: seq<u32>, w: u32, thn: seq<Stmt>, els: seq<Stmt>, pc: nat)
    requires CodeAt(prog, pc, FlatStmt(If(w, thn, els))) && |prog| <= MAX_INSNS
    ensures var n1, n2 := |Flat(thn)|, |Flat(els)|;
            && |FlatStmt(If(w, thn, els))| == n1 + n2 + 5 && n1 + 2 < 0x100_0000 && n2 + 1 < 0x100_0000
            && pc < |prog| && prog[pc] == w
            && CodeAt(prog, pc + 1, [JumpOver(n1 + 2)])
            && CodeAt(prog, pc + 2, Flat(thn) + [OP_END])
            && CodeAt(prog, pc + 3 + n1, [JumpOver(n2 + 1)])
            && CodeAt(prog, pc + 4 + n1, Flat(els) + [OP_END])
  {
    hide JumpOver, Flat, CodeAt;
    var f1, f2 := Flat(thn), Flat(els);
    var j1, j2 := [JumpOver(|f1| + 2)], [JumpOver(|f2| + 1)];
    BranchPieces([w], j1, f1, [OP_END], j2, f2);
    assert FlatStmt(If(w, thn, els)) == [w] + (j1 + ((f1 + [OP_END]) + (j2 + (f2 + [OP_END]))));
    PiecesSplit(prog, pc, w, j1, f1 + [OP_END], j2, f2 + [OP_END]);
  }

  lemma {:induction false} RunThen(e: Env, prog: seq<u32>, w: u32, thn: seq<Stmt>, els: seq<Stmt>, st: State, pc: nat)
    requires StateOk(st) && |st.frames| > 0 && pc > 0 && |prog| <= MAX_INSNS
    requires WellFormedStmt(If(w, thn, els), Sizes(st.frames)) && CodeAt(prog, pc, FlatStmt(If(w, thn, els)))
    requires Taken(w, st.frames)
    ensures Run(e, prog, st, pc) == Run(e, prog, EvalStmt(e, If(w, thn, els), st), pc + |FlatStmt(If(w, thn, els))|)
    decreases thn, 2
  {
    hide Run, Taken, Flat, FlatStmt, WellFormed, Eval, CodeAt, Close, Count, Opcode, RegA, IsReg;
    BranchCode(prog, w, thn, els, pc);
    var n1, n2 := |Flat(thn)|, |Flat(els)|;
    var st1 := Open(Tick(st));
    assert Sizes(st1.frames) == Sizes(st.frames) + [0];
    RunScope(e, prog, thn, st1, pc + 2);
    var st2 := Close(Tick(Eval(e, thn, st1)));
    hide WellFormedStmt;
    RunJmp(e, prog, n2 + 1, st2, pc + 3 + n1);
    IfSteps(e, prog, w, st, pc);
    LimitStays(e, prog, Tick(st2), pc + 5 + n1 + n2);
  }

  lemma {:induction false} RunElse(e: Env, prog: seq<u32>, w: u32, thn: seq<Stmt>, els: seq<Stmt>, st: State, pc: nat)
    requires StateOk(st) && |st.frames| > 0 && pc > 0 && |prog| <= MAX_INSNS
    requires WellFormedStmt(If(w, thn, els), Sizes(st.frames)) && CodeAt(prog, pc, FlatStmt(If(w, thn, els)))
    requires !Taken(w, st.frames)
    ensures Run(e, prog, st, pc) == Run(e, prog, EvalStmt(e, If(w, thn, els), st), pc + |FlatStmt(If(w, thn, els))|)
    decreases els, 2
  {
    hide Run, Taken, Flat, FlatStmt, WellFormed, Eval, CodeAt, Close, Count, Opcode, RegA, IsReg;
    BranchCode(prog, w, thn, els, pc);
    var n1, n2 := |Flat(thn)|, |Flat(els)|;
    var st1 := Open(Tick(st));
    assert Sizes(Tick(st1).frames) == Sizes(st.frames) + [0];
    RunScope(e, prog, els, Tick(st1), pc + 4 + n1);
    var st2 := Close(Tick(Eval(e, els, Tick(st1))));
    hide WellFormedStmt;
    RunJmp(e, prog, n1 + 2, st1, pc + 1);
    IfSteps(e, prog, w, st, pc);
    LimitStays(e, prog, st2, pc + 5 + n1 + n2);
  }

  /** An IF enters the scope of its branch and goes on where that ends. */
  lemma IfSteps(e: Env, prog: seq<u32>, w: u32, st: State, pc: nat)
    requires StateOk(st) && pc < |prog| && prog[pc] == w
    requires IsIf(Opcode(w)) && IsReg(Sizes(st.frames), RegA(w)) && Count(w) == 2
    ensures st.opCtr > MAX_OPS ==> Run(e, prog, st, pc) == Limit
    ensures st.opCtr <= MAX_OPS ==>
              Run(e, prog, st, pc) ==
              match Run(e, prog, Open(Tick(st)), if Taken(w, st.frames) then pc + 2 else pc + 1)
              case Limit => Limit
              case Wrong => Wrong
              case Ok(st2, ret) => Run(e, prog, st2, ret + 1)
  {
    hide Taken, Sizes, Count, Tick, Open, Opcode, RegA, IsReg, Executable, StateOk;
  }

  lemma LimitStays(e: Env, prog: seq<u32>, st: State, pc: int)
    requires StateOk(st)
    ensures st.opCtr > MAX_OPS ==> Run(e, prog, st, pc) == Limit
  {
  }

  /** One turn of a loop. */
  lemma {:induction false} RunCycle(e: Env, prog: seq<u32>, mems: seq<u32>, body: seq<Stmt>, st: State, pc: nat, i: nat)
    requires StateOk(st) && pc > 0 && |prog| <= MAX_INSNS
    requires forall j :: 0 <= j < |mems| ==> Opcode(mems[j]) == OP_MEMORY
    requires WellFormed(body, Sizes(st.frames) + [|mems|]) && CodeAt(prog, pc, mems + (Flat(body) + [OP_END]))
    ensures Enter(e, prog, st.(loopCycle := i), pc) == Finish(Cycle(e, mems, body, st, i), pc + |mems| + |Flat(body)|)
    decreases body, 2, 0
  {
    hide Run, Eval, ExecAll, Flat, WellFormed, CodeAt, Close, Opcode;
    var st1 := Open(st.(loopCycle := i));
    CodeSplits(prog, pc, mems, Flat(body) + [OP_END]);
    RunMems(e, prog, mems, st1, pc, i);
    MemFrame(e, mems, st, i);
    RunScope(e, prog, body, ExecAll(e, mems, st1, i), pc + |mems|);
  }

  lemma MemFrame(e: Env, mems: seq<u32>, st: State, i: nat)
    requires forall j :: 0 <= j < |mems| ==> Opcode(mems[j]) == OP_MEMORY
    ensures Sizes(ExecAll(e, mems, Open(st.(loopCycle := i)), i).frames) == Sizes(st.frames) + [|mems|]
  {
    hide ExecAll, Opcode;
    var st1 := Open(st.(loopCycle := i));
    MemSizes(e, mems, st1, i);
    assert Sizes(st1.frames) == Sizes(st.frames) + [0];
  }

  lemma {:induction false} MemSizes(e: Env, ws: seq<u32>, st: State, cycle: nat)
    requires |st.frames| > 0 && forall i :: 0 <= i < |ws| ==> Opcode(ws[i]) == OP_MEMORY
    ensures Sizes(ExecAll(e, ws, st, cycle).frames) == Grow(Sizes(st.frames), |ws|)
  {
    if |ws| > 0 {
      var n := |ws| - 1;
      MemSizes(e, ws[..n], st, cycle);
      AppendSizes(ExecAll(e, ws[..n], st, cycle).frames,
                  Outputs(e, ws[n], ExecAll(e, ws[..n], st, cycle).frames, cycle));
    }
  }

  /** All the turns of a loop. */
  lemma {:induction false} RunTurns(e: Env, prog: seq<u32>, mems: seq<u32>, body: seq<Stmt>, st: State, pc: nat,
                                    i: nat, count: int, ret: nat)
    requires StateOk(st) && pc > 0 && |prog| <= MAX_INSNS
    requires forall j :: 0 <= j < |mems| ==> Opcode(mems[j]) == OP_MEMORY
    requires WellFormed(body, Sizes(st.frames) + [|mems|]) && CodeAt(prog, pc, mems + (Flat(body) + [OP_END]))
    ensures i < count ==>
              Turns(e, prog, st, pc, i, count, ret)
              == Finish(Iterate(e, mems, body, st, i, count), pc + |mems| + |Flat(body)|)
    decreases body, 3, count - i
  {
    hide Cycle, Enter, Flat, CodeAt, WellFormed, Opcode;
    if i < count {
      RunCycle(e, prog, mems, body, st, pc, i);
      CycleKeepsFrames(e, mems, body, st, i);
      var st1 := Cycle(e, mems, body, st, i);
      RunTurns(e, prog, mems, body, st1, pc, i + 1, count, pc + |mems| + |Flat(body)|);
      if st1.opCtr > MAX_OPS && i + 1 < count {
        IterateGoesOver(e, mems, body, st1, i + 1, count);
      }
    }
  }

  /** An evaluation that has passed the limit stays past it. */
  lemma IterateGoesOver(e: Env, mems: seq<u32>, body: seq<Stmt>, st: State, i: nat, count: int)
    requires StateOk(st) && i < count
    ensures Iterate(e, mems, body, st, i, count).opCtr > st.opCtr
  {
  }

  /** The pieces of a loop's code. */
  lemma LoopCode(prog: seq<u32>, w: u32, mems: seq<u32>, body: seq<Stmt>, pc: nat)
    requires CodeAt(prog, pc, FlatStmt(Loop(w, mems, body)))
    ensures |FlatStmt(Loop(w, mems, body))| == |mems| + |Flat(body)| + 2
    ensures pc < |prog| && prog[pc] == w && CodeAt(prog, pc + 1, mems + (Flat(body) + [OP_END]))
  {
    assert FlatStmt(Loop(w, mems, body)) == [w] + (mems + (Flat(body) + [OP_END]));
    CodeSplits(prog, pc, [w], mems + (Flat(body) + [OP_END]));
    CodeWord(prog, pc, w);
  }

  /** A LOOP runs its turns and goes on behind its END, unless that is the end of the program. */
  lemma LoopSteps(e: Env, prog: seq<u32>, w: u32, st: State, pc: nat)
    requires StateOk(st) && pc < |prog| && prog[pc] == w && Opcode(w) == OP_LOOP
    ensures st.opCtr > MAX_OPS ==> Run(e, prog, st, pc) == Limit
    ensures st.opCtr <= MAX_OPS ==>
              Run(e, prog, st, pc) ==
              match Turns(e, prog, Tick(st), pc + 1, 0, Count(w), pc)
              case Limit => Limit
              case Wrong => Wrong
              case Ok(st2, ret) =>
                if st2.opCtr > MAX_OPS then Limit
                else if ret == |prog| - 1 then (if st2.frames == [] then Ok(st2, ret) else Wrong)
                else Run(e, prog, st2, ret + 1)
  {
    hide Count;
  }

  lemma {:induction false} RunNestedLoop(e: Env, prog: seq<u32>, w: u32, mems: seq<u32>, body: seq<Stmt>, st: State,
                                         pc: nat)
    requires StateOk(st) && |st.frames| > 0 && pc > 0 && |prog| <= MAX_INSNS
    requires WellFormedStmt(Loop(w, mems, body), Sizes(st.frames)) && CodeAt(prog, pc, FlatStmt(Loop(w, mems, body)))
    requires pc + |FlatStmt(Loop(w, mems, body))| < |prog|
    ensures Run(e, prog, st, pc)
         == Run(e, prog, EvalStmt(e, Loop(w, mems, body), st), pc + |FlatStmt(Loop(w, mems, body))|)
    decreases body, 4
  {
    hide Run, Turns, Flat, FlatStmt, WellFormed, CodeAt, Iterate, Count, Opcode;
    LoopCode(prog, w, mems, body, pc);
    RunTurns(e, prog, mems, body, Tick(st), pc + 1, 0, Count(w), pc);
    hide WellFormedStmt;
    LoopSteps(e, prog, w, st, pc);
    var st2 := Iterate(e, mems, body, Tick(st), 0, Count(w));
    LimitStays(e, prog, st2, pc + |mems| + |Flat(body)| + 2);
  }

  /**
   * The theorem: run from the start, the flat code of a well-formed program never goes wrong.  It
   * ends at its last instruction with all stacks empty and the output hash of direct evaluation,
   * unless that takes more operations than the limit, and then the run is cut off by the limit.
   */
  lemma FlatteningPreservesMeaning(e: Env, s: Stmt, st: State)
    requires WellFormedProgram(s) && |FlatStmt(s)| <= MAX_INSNS
    requires StateOk(st) && st.frames == [] && st.opCtr == 0
    ensures var r := EvalProgram(e, s, st);
            Enter(e, FlatStmt(s), st, 0) == if r.opCtr > MAX_OPS then Limit else Ok(r, |FlatStmt(s)| - 1)
    ensures Enter(e, FlatStmt(s), st, 0) != Wrong
  {
    hide WellFormed, Iterate, Count, Flat, Turns;
    var prog := FlatStmt(s);
    var w, mems, body := s.w, s.mems, s.body;
    WholeCode(prog);
    LoopCode(prog, w, mems, body, 0);
    assert Sizes(st.frames) + [|mems|] == [|mems|];
    RunTurns(e, prog, mems, body, Tick(st), 1, 0, Count(w), 0);
    hide FlatStmt, CodeAt;
    LoopSteps(e, prog, w, st, 0);
  }

  lemma WholeCode(code: seq<u32>)
    ensures CodeAt(code, 0, code)
  {
  }
}
