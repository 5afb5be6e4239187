/**
 * The interpreter itself (RandHash_interpreted.c): one flat variable stack with scope markers, a
 * stack of saved scope sizes, and in-place counters.  It is proved to do what `RandInterp.Run` says,
 * with each of its assertions holding.
 */
module RandHash {
  import opened Words
  import opened RandProgram
  import opened RandInterp
  import opened RandFlatten

  const TOO_LONG: int := -3
  const PROGBUF_SZ: nat := 2048

  // ---------- how the stacks represent frames ----------

  /** The scope stack: the size of each enclosing frame, and 0 below the first. */
  function ScopesOf(frames: seq<seq<u32>>): (r: seq<nat>)
    ensures |r| == |frames|
  {
    seq(|frames|, i requires 0 <= i < |frames| => if i == 0 then 0 else |frames[i - 1]|)
  }

  function LastSize(frames: seq<seq<u32>>): nat {
    if |frames| == 0 then 0 else |frames[|frames| - 1]|
  }

  lemma {:induction false} StackSize(frames: seq<seq<u32>>)
    ensures |Stack(frames)| == Sum(Sizes(frames))
  {
    if |frames| > 0 {
      StackSize(frames[..|frames| - 1]);
      assert Sizes(frames)[..|frames| - 1] == Sizes(frames[..|frames| - 1]);
    }
  }

  lemma {:induction false} RegBound(sz: seq<nat>, i: int)
    requires IsReg(sz, i)
    ensures 0 < i < Sum(sz)
  {
    if i < Sum(sz[..|sz| - 1]) {
      RegBound(sz[..|sz| - 1], i);
    }
  }

  /** A register in scope is inside the variable stack. */
  lemma RegInStack(frames: seq<seq<u32>>, i: int)
    requires IsReg(Sizes(frames), i)
    ensures 0 < i < |Stack(frames)|
  {
    RegBound(Sizes(frames), i);
    StackSize(frames);
  }

  lemma StackSplits(frames: seq<seq<u32>>)
    requires |frames| > 0
    ensures Stack(frames) == Stack(frames[..|frames| - 1]) + [MARK] + frames[|frames| - 1]
  {
  }

  lemma ConcatAssociates(a: seq<u32>, b: seq<u32>, c: seq<u32>)
    ensures a + (b + c) == (a + b) + c
  {
  }

  lemma StackAppends(frames: seq<seq<u32>>, out: seq<u32>)
    requires |frames| > 0
    ensures Stack(Append(frames, out)) == Stack(frames) + out
  {
    hide Stack;
    var n := |frames| - 1;
    assert Append(frames, out)[..n] == frames[..n];
    StackSplits(frames);
    StackSplits(Append(frames, out));
    ConcatAssociates(Stack(frames[..n]) + [MARK], frames[n], out);
  }

  lemma ScopesAppend(frames: seq<seq<u32>>, out: seq<u32>)
    requires |frames| > 0
    ensures ScopesOf(Append(frames, out)) == ScopesOf(frames)
    ensures LastSize(Append(frames, out)) == LastSize(frames) + |out|
  {
    var a, b := ScopesOf(Append(frames, out)), ScopesOf(frames);
    forall i | 0 <= i < |frames| ensures a[i] == b[i] {
    }
  }

  lemma StackOpen(frames: seq<seq<u32>>)
    ensures Stack(frames + [[]]) == Stack(frames) + [MARK]
    ensures ScopesOf(frames + [[]]) == ScopesOf(frames) + [LastSize(frames)]
    ensures LastSize(frames + [[]]) == 0
  {
    assert (frames + [[]])[..|frames|] == frames;
  }

  lemma ScopesClose(frames: seq<seq<u32>>)
    requires |frames| > 0
    ensures ScopesOf(frames) == ScopesOf(frames[..|frames| - 1]) + [LastSize(frames[..|frames| - 1])]
  {
    var n := |frames| - 1;
    var a, b := ScopesOf(frames), ScopesOf(frames[..n]) + [LastSize(frames[..n])];
    forall i | 0 <= i < |frames| ensures a[i] == b[i] {
    }
  }

  // ---------- the machine ----------

  /** PacketCrypt_ValidateCtx_t together with the hash buffers it points into. */
  class Interpreter {
    const progbuf: seq<u32>
    const progLen: nat
    const alu: Alu
    var memory: seq<u32>
    var hashIn: seq<u32>
    var hashOut: seq<u32>
    var hashctr: nat
    var loopCycle: nat
    var varCount: nat
    var opCtr: nat
    var vars: seq<u32>
    var scopes: seq<nat>

    constructor (progbuf: seq<u32>, progLen: nat, alu: Alu)
      ensures this.progbuf == progbuf && this.progLen == progLen && this.alu == alu
    {
      this.progbuf, this.progLen, this.alu := progbuf, progLen, alu;
      memory, hashIn, hashOut, hashctr, loopCycle, varCount, opCtr, vars, scopes := [], [], [], 0, 0, 0, 0, [], [];
    }

    ghost predicate Sized()
      reads this
    {
      && progLen <= |progbuf| && |memory| == MEMORY_SZ && |hashIn| == |hashOut| == INOUT_SZ && hashctr < INOUT_SZ
    }

    ghost function Environment(): Env
      reads `memory, `hashIn
    {
      Env(memory, hashIn, alu)
    }

    /** The fields represent the state `st`. */
    ghost predicate Holds(st: State)
      reads this
    {
      && StateOk(st) && vars == Stack(st.frames) && scopes == ScopesOf(st.frames) && varCount == LastSize(st.frames)
      && hashOut == st.hashOut && hashctr == st.hashctr && opCtr == st.opCtr && loopCycle == st.loopCycle
    }

    lemma NoFrames(st: State)
      requires Holds(st) && st.frames == []
      ensures vars == [] && scopes == [] && varCount == 0
    {
    }

    ghost function Code(): seq<u32>
      requires progLen <= |progbuf|
    {
      progbuf[..progLen]
    }

    method GetReg(index: int) returns (r: u32)
      requires 0 <= index < |vars|
      ensures r == vars[index]
    {
      r := vars[index];
    }

    method GetA(insn: u32) returns (r: u64)
      requires 0 <= RegA(insn) < |vars| && (IsDouble(Opcode(insn)) ==> RegA(insn) > 0)
      ensures r == if IsDouble(Opcode(insn)) then Wide(vars[RegA(insn) - 1], vars[RegA(insn)]) else vars[RegA(insn)]
    {
      if IsDouble(Opcode(insn)) {
        var lo := GetReg(RegA(insn) - 1);
        var hi := GetReg(RegA(insn));
        r := Wide(lo, hi);
      } else {
        r := GetReg(RegA(insn));
      }
    }

    method GetB(insn: u32) returns (r: u64)
      requires !HasImm(insn) ==> 0 <= RegB(insn) < |vars| && (IsDouble(Opcode(insn)) ==> RegB(insn) > 0)
      ensures r == if HasImm(insn) then (if IsDouble(Opcode(insn)) then Imm(insn) else Imm(insn) % TWO32)
                   else if IsDouble(Opcode(insn)) then Wide(vars[RegB(insn) - 1], vars[RegB(insn)])
                   else vars[RegB(insn)]
    {
      if HasImm(insn) {
        if IsDouble(Opcode(insn)) { r := Imm(insn); } else { r := Imm(insn) % TWO32; }
      } else if IsDouble(Opcode(insn)) {
        var lo := GetReg(RegB(insn) - 1);
        var hi := GetReg(RegB(insn));
        r := Wide(lo, hi);
      } else {
        r := GetReg(RegB(insn));
      }
    }

    method Out1(val: u32)
      modifies `vars, `varCount
      ensures vars == old(vars) + [val] && varCount == old(varCount) + 1
    {
      vars := vars + [val];
      varCount := varCount + 1;
    }

    /** One straight-line instruction: what the switch does for it. */
    method Execute(insn: u32, ghost st: State)
      requires Sized() && Holds(st) && Executable(insn, st)
      modifies `vars, `varCount
      ensures Sized() && Holds(Exec(Environment(), insn, st, st.loopCycle).(opCtr := st.opCtr))
    {
      var op := Opcode(insn);
      ghost var out := Outputs(Environment(), insn, st.frames, st.loopCycle);
      StackAppends(st.frames, out);
      ScopesAppend(st.frames, out);
      hide Stack, Sized, Imm;
      if op == OP_MEMORY {
        Out1(memory[MemIndex(insn, loopCycle)]);
      } else if op == OP_IN {
        Out1(hashIn[Imm(insn) % INOUT_SZ]);
      } else {
        OperandsInStack(insn, st.frames);
        hide Executable, OperandsOk, Sizes, IsReg;
        var a := GetA(insn);
        var b := 0;
        if HasB(op) { b := GetB(insn); }
        assert a == OperandA(insn, st.frames) && b == OperandB(insn, st.frames);
        hide OperandA, OperandB;
        ghost var before, count := vars, varCount;
        for k := 0 to NOut(op)
          invariant vars == before + out[..k] && varCount == count + k
        {
          Out1(alu(op, a, b, k));
          assert out[..k + 1] == out[..k] + [out[k]];
        }
        assert out[..NOut(op)] == out;
      }
    }

    /** END: output the words of the innermost scope, then drop it with its marker. */
    method EndScope(ghost st: State)
      requires Sized() && Holds(st) && |st.frames| > 0
      modifies `hashOut, `hashctr, `vars, `scopes, `varCount
      ensures Sized() && Holds(Close(st))
    {
      ghost var n := |st.frames| - 1;
      ghost var last, below := st.frames[n], Stack(st.frames[..n]);
      StackSplits(st.frames);
      ScopesClose(st.frames);
      hide Stack, ScopesOf;
      assert vars == below + [MARK] + last && varCount == |last|;
      ghost var all := vars;
      assert |vars| - varCount > 0;
      var from := |vars| - varCount;
      for i := from to |vars|
        invariant vars == all && varCount == |last| && scopes == old(scopes)
        invariant |hashOut| == INOUT_SZ && hashctr < INOUT_SZ
        invariant Absorb(st.hashOut, st.hashctr, last[..i - from]) == (hashOut, hashctr)
      {
        assert vars[i] == last[i - from] && last[..i + 1 - from] == last[..i - from] + [last[i - from]];
        AbsorbOne(st.hashOut, st.hashctr, last[..i - from], last[i - from]);
        hashOut := hashOut[hashctr := (hashOut[hashctr] + vars[i]) % TWO32];
        hashctr := (hashctr + 1) % INOUT_SZ;
      }
      assert last[..|last|] == last;
      vars := vars[..from];
      assert vars[|vars| - 1] == MARK;
      vars := vars[..|vars| - 1];
      assert vars == below;
      varCount := scopes[|scopes| - 1];
      scopes := scopes[..|scopes| - 1];
    }

    /** Where a run has come to: the interpreter's state and the value it returns. */
    ghost predicate Reached(r: Result, ret: int)
      reads this
    {
      match r
      case Ok(st, p) => Sized() && Holds(st) && ret == p
      case Limit => opCtr > MAX_OPS && ret == -1
      case Wrong => false
    }

    /** A run that will still end as `goal`: it goes on from `cur`, or it is past the limit. */
    ghost predicate Going(e: Env, code: seq<u32>, cur: State, pc: int, goal: Result)
      reads this
    {
      if opCtr > MAX_OPS then goal == Limit
      else Sized() && Holds(cur) && Run(e, code, cur, pc) == goal && goal != Wrong
    }

    /** `interpret`: past the operation limit it returns -1 at once, whatever the stacks hold. */
    method Interpret(start: int, ghost st: State) returns (pc: int)
      requires progLen <= |progbuf|
      requires opCtr <= MAX_OPS ==> Sized() && Holds(st) && Enter(Environment(), Code(), st, start) != Wrong
      modifies `hashOut, `hashctr, `loopCycle, `varCount, `opCtr, `vars, `scopes
      ensures old(opCtr) <= MAX_OPS ==> Reached(Enter(old(Environment()), Code(), st, start), pc)
      ensures old(opCtr) > MAX_OPS ==> opCtr > MAX_OPS && pc == -1
      decreases MAX_OPS + 1 - opCtr, 1
    {
      hide Run, Stack, ScopesOf, LastSize;
      if start != 0 {
        StackOpen(st.frames);
        vars := vars + [MARK];
        scopes := scopes + [varCount];
        varCount := 0;
      }
      pc := Instructions(start, if start != 0 then Open(st) else st);
    }

    /** The instruction loop of `interpret`. */
    method Instructions(start: int, ghost st: State) returns (pc: int)
      requires progLen <= |progbuf|
      requires opCtr <= MAX_OPS ==> Sized() && Holds(st) && Run(Environment(), Code(), st, start) != Wrong
      modifies `hashOut, `hashctr, `loopCycle, `varCount, `opCtr, `vars, `scopes
      ensures old(opCtr) <= MAX_OPS ==> Reached(Run(old(Environment()), Code(), st, start), pc)
      ensures old(opCtr) > MAX_OPS ==> opCtr > MAX_OPS && pc == -1
      decreases MAX_OPS + 1 - opCtr, 0
    {
      hide Run, Turns, Stack, ScopesOf, LastSize, Count, Taken, IsReg, Sizes, Close, Exec, Executable, Opcode, RegA,
           JmpDist, Reg,
           Environment, Enter;
      ghost var env, code := Environment(), Code();
      ghost var goal := if opCtr > MAX_OPS then Limit else Run(env, code, st, start);
      ghost var cur := st;
      pc := start;
      while true
        invariant Environment() == env && opCtr >= old(opCtr)
        invariant Going(env, code, cur, pc, goal)
        decreases MAX_OPS + 1 - opCtr
      {
        if opCtr > MAX_OPS { return -1; }
        StepIsFine(env, code, cur, pc);
        opCtr := opCtr + 1;
        ghost var st1 := Tick(cur);
        var insn := progbuf[pc];
        var op := Opcode(insn);
        assert Holds(st1) && vars == Stack(cur.frames);
        hide Holds;
        if op == OP_LOOP {
          LoopSteps(env, code, insn, cur, pc);
          var ret := Loop(insn, pc, st1);
          if opCtr > MAX_OPS { return -1; }
          cur := Turns(env, code, st1, pc + 1, 0, Count(insn), pc).st;
          pc := ret;
          if pc == progLen - 1 {
            NoFrames(cur);
            assert vars == [] && scopes == [] && varCount == 0;
            return pc;
          }
          LimitStays(env, code, cur, pc + 1);
        } else if op == OP_IF_LIKELY || op == OP_IF_RANDOM {
          IfEnters(env, code, insn, cur, pc);
          RegInStack(cur.frames, RegA(insn));
          var a := GetReg(RegA(insn));
          TakenTests(insn, cur.frames);
          ghost var r := Enter(env, code, st1, if Taken(insn, cur.frames) then pc + 2 else pc + 1);
          pc := Branch(if op == OP_IF_LIKELY then a % 8 else a % 2, insn, pc, st1);
          if r.Ok? {
            cur := r.st;
            LimitStays(env, code, cur, pc + 1);
          }
        } else if op == OP_JMP {
          pc := pc + JmpDist(insn);
          cur := st1;
          LimitStays(env, code, cur, pc + 1);
        } else if op == OP_END {
          EndScope(st1);
          return pc;
        } else {
          ExecTicks(env, insn, cur, cur.loopCycle);
          Execute(insn, st1);
          cur := Exec(env, insn, cur, cur.loopCycle);
          LimitStays(env, code, cur, pc + 1);
        }
        pc := pc + 1;
      }
    }

    /** The body of the LOOP case: every cycle is a nested run from the next instruction. */
    method Loop(insn: u32, pc: nat, ghost st: State) returns (ret: int)
      requires progLen <= |progbuf| && opCtr <= MAX_OPS + 1
      requires Sized() && Holds(st) && Turns(Environment(), Code(), st, pc + 1, 0, Count(insn), pc) != Wrong
      modifies `hashOut, `hashctr, `loopCycle, `varCount, `opCtr, `vars, `scopes
      ensures match Turns(old(Environment()), Code(), st, pc + 1, 0, Count(insn), pc)
              case Ok(st1, p) => Sized() && Holds(st1) && ret == p
              case Limit => opCtr > MAX_OPS
              case Wrong => false
      decreases MAX_OPS + 1 - opCtr, 3
    {
      hide Turns, Enter, Run, Count;
      ghost var env, code, goal := Environment(), Code(), Turns(Environment(), Code(), st, pc + 1, 0, Count(insn), pc);
      ghost var cur := st;
      var count := Count(insn);
      ret := pc;
      var i := 0;
      if i >= count { TurnsEnd(env, code, cur, pc + 1, i, count, ret); }
      while i < count
        invariant 0 <= i && ret >= -1 && Environment() == env && opCtr >= old(opCtr)
        invariant (opCtr > MAX_OPS && goal == Limit && i > 0)
               || (ret >= 0 && Sized() && Holds(cur) && goal != Wrong &&
                   Turns(env, code, cur, pc + 1, i, count, ret) == goal)
        invariant i >= count ==> (opCtr > MAX_OPS && goal == Limit) || goal == Ok(cur, ret)
      {
        if opCtr <= MAX_OPS || goal != Limit {
          TurnsStep(env, code, cur, pc + 1, i, count, ret);
        }
        ghost var r := if goal == Limit && opCtr > MAX_OPS then Limit else Enter(env, code, cur.(loopCycle := i),
                                                                                 pc + 1);
        loopCycle := i;
        ret := Interpret(pc + 1, cur.(loopCycle := i));
        if r.Ok? { cur := r.st; }
        i := i + 1;
        if i >= count && r.Ok? { TurnsEnd(env, code, cur, pc + 1, i, count, ret); }
      }
    }

    method Branch(a: u32, insn: u32, pc: int, ghost st: State) returns (ret: int)
      requires progLen <= |progbuf| && Count(insn) == 2
      requires opCtr <= MAX_OPS ==> Sized() && Holds(st)
      requires opCtr <= MAX_OPS ==> Enter(Environment(), Code(), st, if a != 0 then pc + 2 else pc + 1) != Wrong
      modifies `hashOut, `hashctr, `loopCycle, `varCount, `opCtr, `vars, `scopes
      ensures old(opCtr) <= MAX_OPS ==>
                Reached(Enter(old(Environment()), Code(), st, if a != 0 then pc + 2 else pc + 1), ret)
      ensures old(opCtr) > MAX_OPS ==> opCtr > MAX_OPS && ret == -1
      decreases MAX_OPS + 1 - opCtr, 2
    {
      var count := Count(insn);
      if a != 0 {
        ret := Interpret(pc + count, st);
      } else {
        ret := Interpret(pc + 1, st);
      }
    }

    /** One run of the program, with the stacks empty before and after. */
    method RunOnce(ghost s: Stmt)
      requires WellFormedProgram(s) && |FlatStmt(s)| <= MAX_INSNS
      requires Sized() && Code() == FlatStmt(s) && vars == [] && scopes == [] && varCount == 0 && hashctr == 0
      modifies `hashOut, `hashctr, `loopCycle, `varCount, `opCtr, `vars, `scopes
      ensures var r := EvalProgram(old(Environment()), s, State([], old(loopCycle), old(hashOut), 0, 0));
              && (r.opCtr > MAX_OPS <==> opCtr > MAX_OPS)
              && (r.opCtr <= MAX_OPS ==> Sized() && hashOut == r.hashOut && loopCycle == r.loopCycle)
      ensures opCtr <= MAX_OPS ==> vars == [] && scopes == [] && varCount == 0
    {
      assert s.Loop?;
      hide EvalProgram, FlatStmt, WellFormedProgram, Enter;
      opCtr := 0;
      ghost var st := State([], loopCycle, hashOut, 0, 0);
      FlatteningPreservesMeaning(Environment(), s, st);
      ghost var r := EvalProgram(Environment(), s, st);
      var pc := Interpret(0, st);
      if opCtr <= MAX_OPS {
        NoFrames(r);
      }
    }

    /**
     * RandHash_interpret: run the program `cycles` times, swapping the two halves of the hash state
     * between runs.  For the flat code of a well-formed program the result is that of direct
     * evaluation, and the only failure is the operation limit.
     */
    method RandHashInterpret(itemNum: u64, input: seq<u32>, output: seq<u32>, cycles: nat, ghost s: Stmt)
      returns (ret: int)
      requires WellFormedProgram(s) && |FlatStmt(s)| <= MAX_INSNS
      requires progLen <= |progbuf| == PROGBUF_SZ && Code() == FlatStmt(s)
      requires |input| == |output| == INOUT_SZ
      modifies this
      ensures var e := Env(MemoryAt(progbuf, itemNum), input, alu);
              match EvalCycles(e, s, output, 0, cycles)
              case Some(h) => ret == 0 && hashIn == h.0 && hashOut == h.1 && vars == [] && scopes == []
              case None => ret == TOO_LONG
    {
      hide EvalProgram, FlatStmt, MemoryAt;
      memory := MemoryAt(progbuf, itemNum);
      hashIn, hashOut := input, output;
      hashctr, loopCycle, varCount, vars, scopes := 0, 0, 0, [], [];
      opCtr := 0;
      ghost var goal := EvalCycles(Environment(), s, output, 0, cycles);
      for i := 0 to cycles
        invariant Sized() && memory == MemoryAt(progbuf, itemNum) && hashctr == 0 && varCount == 0 && vars == []
        invariant scopes == []
        invariant EvalCycles(Environment(), s, hashOut, loopCycle, cycles - i) == goal
      {
        ghost var r := EvalProgram(Environment(), s, State([], loopCycle, hashOut, 0, 0));
        RunOnce(s);
        if opCtr > MAX_OPS {
          return TOO_LONG;
        }
        hashctr := 0;
        hashIn, hashOut := hashOut, hashIn;
      }
      ret := 0;
    }
  }

  /** The window of program memory that an item reads. */
  function MemoryAt(progbuf: seq<u32>, itemNum: nat): (r: seq<u32>)
    requires |progbuf| == PROGBUF_SZ
    ensures |r| == MEMORY_SZ
  {
    var at := itemNum % (PROGBUF_SZ - MEMORY_SZ);
    progbuf[at..at + MEMORY_SZ]
  }

  /** Direct evaluation repeated, input and output changing places each time; None past the limit. */
  function EvalCycles(e: Env, s: Stmt, hashOut: seq<u32>, loopCycle: nat, n: nat): Option<(seq<u32>, seq<u32>)>
    requires s.Loop? && |e.hashIn| == |hashOut| == INOUT_SZ
    decreases n
  {
    if n == 0 then Some((e.hashIn, hashOut))
    else
      var r := EvalProgram(e, s, State([], loopCycle, hashOut, 0, 0));
      if r.opCtr > MAX_OPS then None else EvalCycles(e.(hashIn := r.hashOut), s, e.hashIn, r.loopCycle, n - 1)
  }

  lemma AbsorbOne(h: seq<u32>, c: nat, out: seq<u32>, x: u32)
    requires |h| == INOUT_SZ && c < INOUT_SZ
    ensures var (h1, c1) := Absorb(h, c, out);
            Absorb(h, c, out + [x]) == (h1[c1 := (h1[c1] + x) % TWO32], (c1 + 1) % INOUT_SZ)
  {
    assert (out + [x])[..|out|] == out;
  }

  lemma ExecTicks(e: Env, w: u32, st: State, cycle: nat)
    ensures Exec(e, w, Tick(st), cycle).(opCtr := st.opCtr + 1) == Exec(e, w, st, cycle)
    ensures Executable(w, Tick(st)) == Executable(w, st)
  {
  }

  lemma TakenTests(w: u32, frames: seq<seq<u32>>)
    requires IsIf(Opcode(w)) && 0 <= RegA(w) < |Stack(frames)|
    ensures var a := Stack(frames)[RegA(w)];
            Taken(w, frames) <==> (if Opcode(w) == OP_IF_LIKELY then a % 8 else a % 2) != 0
  {
  }

  /** `IfSteps` in terms of the nested call. */
  lemma IfEnters(e: Env, prog: seq<u32>, w: u32, st: State, pc: nat)
    requires StateOk(st) && st.opCtr <= MAX_OPS && pc < |prog| && prog[pc] == w
    requires IsIf(Opcode(w)) && IsReg(Sizes(st.frames), RegA(w)) && Count(w) == 2
    ensures var r := Enter(e, prog, Tick(st), if Taken(w, st.frames) then pc + 2 else pc + 1);
            && Run(e, prog, st, pc) ==
               (match r case Limit => Limit case Wrong => Wrong case Ok(st2, ret) => Run(e, prog, st2, ret + 1))
            && (st.opCtr + 1 > MAX_OPS ==> r == Limit)
  {
    hide Run, Taken, IsReg, Sizes, Count, Opcode, RegA;
    IfSteps(e, prog, w, st, pc);
    LimitStays(e, prog, Open(Tick(st)), if Taken(w, st.frames) then pc + 2 else pc + 1);
  }

  lemma TurnsStep(e: Env, prog: seq<u32>, st: State, pc: int, i: nat, count: int, ret: nat)
    requires StateOk(st) && i < count
    ensures Turns(e, prog, st, pc, i, count, ret) ==
            match Enter(e, prog, st.(loopCycle := i), pc)
            case Limit => Limit
            case Wrong => Wrong
            case Ok(st1, ret1) => Turns(e, prog, st1, pc, i + 1, count, ret1)
    ensures st.opCtr > MAX_OPS ==> Enter(e, prog, st.(loopCycle := i), pc) == Limit
  {
  }

  lemma TurnsEnd(e: Env, prog: seq<u32>, st: State, pc: int, i: nat, count: int, ret: nat)
    requires StateOk(st) && i >= count
    ensures Turns(e, prog, st, pc, i, count, ret) == Ok(st, ret)
  {
  }

  /** A run that does not go wrong meets what each instruction needs. */
  lemma StepIsFine(e: Env, prog: seq<u32>, st: State, pc: int)
    requires StateOk(st) && st.opCtr <= MAX_OPS && Run(e, prog, st, pc) != Wrong
    ensures 0 <= pc < |prog|
    ensures var w, op := prog[pc], Opcode(prog[pc]);
            && (op == OP_LOOP ==> Turns(e, prog, Tick(st), pc + 1, 0, Count(w), pc) != Wrong)
            && (IsIf(op) ==> IsReg(Sizes(st.frames), RegA(w)) && Count(w) == 2)
            && (IsIf(op) ==> Enter(e, prog, Tick(st), if Taken(w, st.frames) then pc + 2 else pc + 1) != Wrong)
            && (op == OP_END ==> |st.frames| > 0 && Run(e, prog, st, pc) == Ok(Close(Tick(st)), pc))
            && (op == OP_JMP ==> Run(e, prog, st, pc) == Run(e, prog, Tick(st), pc + JmpDist(w) + 1))
            && (op != OP_LOOP && !IsIf(op) && op != OP_END && op != OP_JMP ==>
                  Executable(w, st) && Run(e, prog, st, pc) == Run(e, prog, Exec(e, w, st, st.loopCycle), pc + 1))
  {
    hide Turns, Enter, Close, Exec, Executable, Sizes, IsReg, Taken, Count;
  }

  lemma OperandsInStack(w: u32, frames: seq<seq<u32>>)
    requires OperandsOk(w, Sizes(frames))
    ensures var op, n := Opcode(w), |Stack(frames)|;
            && 0 < RegA(w) < n && (HasB(op) && !HasImm(w) ==> 0 < RegB(w) < n)
  {
    hide IsReg, Stack, Sizes;
    RegInStack(frames, RegA(w));
    if HasB(Opcode(w)) && !HasImm(w) {
      RegInStack(frames, RegB(w));
    }
  }
}
