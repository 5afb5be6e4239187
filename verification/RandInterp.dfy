/**
 * The interpreter of flat programs (RandHash_interpreted.c), with every way it can go wrong made
 * visible, and the proof that a well-formed program never does and means what its structure means.
 */
module RandInterp {
  import opened Words
  import opened RandProgram

  /** A finished run and the pc of its END; the operation limit; a failed assertion or stray access. */
  datatype Result = Ok(st: State, pc: nat) | Limit | Wrong

  function Sizes(frames: seq<seq<u32>>): (r: seq<nat>)
    ensures |r| == |frames|
    ensures forall i :: 0 <= i < |r| ==> r[i] == |frames[i]|
  {
    seq(|frames|, i requires 0 <= i < |frames| => |frames[i]|)
  }

  /** What one straight-line instruction needs: operands in scope, none of them a scope marker. */
  predicate Executable(w: u32, st: State) {
    var op := Opcode(w);
    && |st.frames| > 0
    && (op == OP_IN || op == OP_MEMORY || (IsAlu(op) && OperandsOk(w, Sizes(st.frames))))
  }

  /** The instruction loop of `interpret`, from `pc` to the END that closes the current scope. */
  function Run(e: Env, prog: seq<u32>, st: State, pc: int): (r: Result)
    requires StateOk(st)
    ensures r.Ok? ==> StateOk(r.st) && r.st.opCtr > st.opCtr && st.opCtr <= MAX_OPS
    decreases MAX_OPS + 1 - st.opCtr, 0
  {
    if st.opCtr > MAX_OPS then Limit
    else if !(0 <= pc < |prog|) then Wrong
    else
      var w, st1 := prog[pc], Tick(st);
      var op := Opcode(w);
      if op == OP_LOOP then
        match Turns(e, prog, st1, pc + 1, 0, Count(w), pc)
        case Limit => Limit
        case Wrong => Wrong
        case Ok(st2, ret) =>
          if st2.opCtr > MAX_OPS then Limit
          else if ret == |prog| - 1 then (if st2.frames == [] then Ok(st2, ret) else Wrong)
          else Run(e, prog, st2, ret + 1)
      else if IsIf(op) then
        if !IsReg(Sizes(st.frames), RegA(w)) || Count(w) != 2 then Wrong
        else match Enter(e, prog, st1, if Taken(w, st.frames) then pc + 2 else pc + 1)
             case Limit => Limit
             case Wrong => Wrong
             case Ok(st2, ret) => Run(e, prog, st2, ret + 1)
      else if op == OP_JMP then Run(e, prog, st1, pc + JmpDist(w) + 1)
      else if op == OP_END then (if |st.frames| > 0 then Ok(Close(st1), pc) else Wrong)
      else if Executable(w, st) then Run(e, prog, Exec(e, w, st, st.loopCycle), pc + 1)
      else Wrong
  }

  /** A nested call of `interpret`: it opens a scope, except at the start of the program. */
  function Enter(e: Env, prog: seq<u32>, st: State, pc: int): (r: Result)
    requires StateOk(st)
    ensures r.Ok? ==> StateOk(r.st) && r.st.opCtr > st.opCtr && st.opCtr <= MAX_OPS
    decreases MAX_OPS + 1 - st.opCtr, 1
  {
    Run(e, prog, if pc != 0 then Open(st) else st, pc)
  }

  /** The turns of a LOOP instruction from index `i`; `ret` is where the last one ended. */
  function Turns(e: Env, prog: seq<u32>, st: State, pc: int, i: nat, count: int, ret: nat): (r: Result)
    requires StateOk(st)
    ensures r.Ok? ==> StateOk(r.st) && r.st.opCtr >= st.opCtr
    decreases MAX_OPS + 1 - st.opCtr, 2
  {
    if i >= count then Ok(st, ret)
    else match Enter(e, prog, st.(loopCycle := i), pc)
         case Limit => Limit
         case Wrong => Wrong
         case Ok(st1, ret1) => Turns(e, prog, st1, pc, i + 1, count, ret1)
  }

  // ---------- frame sizes ----------

  lemma AppendSizes(frames: seq<seq<u32>>, out: seq<u32>)
    requires |frames| > 0
    ensures Sizes(Append(frames, out)) == Grow(Sizes(frames), |out|)
  {
  }

  /** Executing well-formed code changes the frame sizes as predicted. */
  lemma {:induction false} EvalSizes(e: Env, b: seq<Stmt>, st: State)
    requires StateOk(st) && |st.frames| > 0 && WellFormed(b, Sizes(st.frames))
    ensures Sizes(Eval(e, b, st).frames) == SizeBlock(b, Sizes(st.frames))
    decreases b, 0
  {
    if |b| > 0 {
      EvalSizes(e, b[..|b| - 1], st);
      StmtSizes(e, b[|b| - 1], Eval(e, b[..|b| - 1], st));
    }
  }

  lemma {:induction false} StmtSizes(e: Env, s: Stmt, st: State)
    requires StateOk(st) && |st.frames| > 0 && WellFormedStmt(s, Sizes(st.frames))
    ensures Sizes(EvalStmt(e, s, st).frames) == SizeStmt(s, Sizes(st.frames))
    decreases s, 1
  {
    match s
    case Prim(w) =>
      AppendSizes(st.frames, Outputs(e, w, st.frames, 0));
    case If(w, thn, els) =>
      ScopeKeepsFrames(e, thn, Open(Tick(st)), st.frames);
      ScopeKeepsFrames(e, els, Tick(Open(Tick(st))), st.frames);
    case Loop(w, mems, body) =>
      IterateKeepsFrames(e, mems, body, Tick(st), 0, Count(w));
  }

  /** Code touches only the innermost frame. */
  lemma {:induction false} EvalPrefix(e: Env, b: seq<Stmt>, st: State)
    requires StateOk(st) && |st.frames| > 0
    ensures Eval(e, b, st).frames[..|st.frames| - 1] == st.frames[..|st.frames| - 1]
    decreases b, 0
  {
    if |b| > 0 {
      EvalPrefix(e, b[..|b| - 1], st);
      StmtPrefix(e, b[|b| - 1], Eval(e, b[..|b| - 1], st));
    }
  }

  lemma {:induction false} StmtPrefix(e: Env, s: Stmt, st: State)
    requires StateOk(st) && |st.frames| > 0
    ensures EvalStmt(e, s, st).frames[..|st.frames| - 1] == st.frames[..|st.frames| - 1]
    decreases s, 1
  {
    match s
    case Prim(w) =>
    case If(w, thn, els) =>
      ScopeKeepsFrames(e, thn, Open(Tick(st)), st.frames);
      ScopeKeepsFrames(e, els, Tick(Open(Tick(st))), st.frames);
    case Loop(w, mems, body) =>
      IterateKeepsFrames(e, mems, body, Tick(st), 0, Count(w));
  }

  lemma {:induction false} ScopeKeepsFrames(e: Env, b: seq<Stmt>, st: State, frames: seq<seq<u32>>)
    requires StateOk(st) && |st.frames| == |frames| + 1 && st.frames[..|frames|] == frames
    ensures Close(Tick(Eval(e, b, st))).frames == frames
    decreases b, 1
  {
    EvalPrefix(e, b, st);
  }

  lemma {:induction false} ExecAllPrefix(e: Env, ws: seq<u32>, st: State, cycle: nat)
    requires |st.frames| > 0
    ensures ExecAll(e, ws, st, cycle).frames[..|st.frames| - 1] == st.frames[..|st.frames| - 1]
  {
    if |ws| > 0 {
      ExecAllPrefix(e, ws[..|ws| - 1], st, cycle);
    }
  }

  lemma {:induction false} IterateKeepsFrames(e: Env, mems: seq<u32>, body: seq<Stmt>, st: State, i: nat, count: int)
    requires StateOk(st)
    ensures Iterate(e, mems, body, st, i, count).frames == st.frames
    decreases body, 2, count - i
  {
    if i < count {
      CycleKeepsFrames(e, mems, body, st, i);
      IterateKeepsFrames(e, mems, body, Cycle(e, mems, body, st, i), i + 1, count);
    }
  }

  lemma {:induction false} CycleKeepsFrames(e: Env, mems: seq<u32>, body: seq<Stmt>, st: State, i: nat)
    requires StateOk(st)
    ensures Cycle(e, mems, body, st, i).frames == st.frames
    decreases body, 2, 0
  {
    var st1 := Open(st.(loopCycle := i));
    ExecAllPrefix(e, mems, st1, i);
    ScopeKeepsFrames(e, body, ExecAll(e, mems, st1, i), st.frames);
  }
}
