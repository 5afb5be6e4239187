/**
 * Random hash programs: the instruction words, the structured program they flatten, what a
 * well-formed one is, and what it means when evaluated directly on its structure.
 */
module RandProgram {
  import opened Words

  // ---------- instruction words (OpCodes.h, DecodeInsn.h) ----------

  const OP_1_1: nat := 1
  const OP_2_1: nat := 12
  const OP_2_2: nat := 36
  const OP_4_2: nat := 51
  const OP_4_4: nat := 59
  const OP_IN: nat := 64
  const OP_MEMORY: nat := 65
  const OP_LOOP: nat := 66
  const OP_IF_LIKELY: nat := 67
  const OP_IF_RANDOM: nat := 68
  const OP_JMP: nat := 69
  const OP_END: nat := 70
  const OP_INVALID_BIG: nat := 71

  const BIT8: nat := 0x100
  const BIT9: nat := 0x200
  const BIT13: nat := 0x2000
  const BIT17: nat := 0x2_0000
  const BIT18: nat := 0x4_0000
  const BIT19: nat := 0x8_0000
  const BIT20: nat := 0x10_0000

  const MARK: u32 := 0xffff_ffff
  const TWO32: nat := 0x1_0000_0000
  const INOUT_SZ: nat := 256
  const MEMORY_SZ: nat := 256
  const MAX_OPS: nat := 20000
  const MAX_INSNS: nat := 2048

  function Opcode(w: u32): nat { w % BIT8 }
  function RegA(w: u32): nat { (w / BIT9) % BIT9 }
  function RegB(w: u32): nat { (w / BIT20) % BIT9 }
  predicate HasImm(w: u32) { (w / BIT18) % 2 == 1 }
  function JmpDist(w: u32): nat { w / BIT8 }
  function MemBase(w: u32): nat { w / BIT17 }
  function MemStep(w: u32): nat { (w / BIT13) % 16 }
  function MemCarry(w: u32): nat { (w / BIT9) % 16 }

  /** The bit-pattern immediate: all ones but two bits, with chosen top bits. */
  function ImmPattern(w: u32): u64 {
    var imm := w / BIT20;
    var a, b, i, s := imm % 32, (imm / 32) % 32, (imm / 1024) % 2, imm / 2048;
    var ones: nat := if i == 1 then 0x7fff_ffff_ffff_ffff else MAX64;
    Pow2Monotone(a, 31);
    Pow2Monotone(b, 31);
    assert Pow2(31) == 0x8000_0000 by { Pow2Of31(); }
    var out := if a == b then ones else ones - Pow2(a) - Pow2(b);
    if s == 1 && i == 1 then out + 0x8000_0000_0000_0000 else out
  }

  lemma Pow2Of31()
    ensures Pow2(31) == 0x8000_0000
  {
    assert Pow2(7) == 128 && Pow2(8) == 256;
    Pow2Adds(8, 8);
    Pow2Adds(16, 8);
    Pow2Adds(24, 7);
  }

  /** DecodeInsn_imm as a two's-complement 64-bit value. */
  function Imm(w: u32): u64 {
    if (w / BIT19) % 2 == 1 then ImmPattern(w)
    else
      var v := w / BIT20;
      if v < 2048 then v else TWO64 - 4096 + v
  }

  /** The immediate as a C int: a loop count or a branch distance. */
  function Count(w: u32): int {
    var v := Imm(w) % TWO32;
    if v < 0x8000_0000 then v else v - TWO32
  }

  /** How many words an instruction appends. */
  function NOut(op: nat): nat {
    if op < OP_2_1 then 1 else if op < OP_2_2 then 1 else if op < OP_4_2 then 2 else if op < OP_4_4 then 2
    else if op < OP_IN then 4 else 1
  }

  predicate IsAlu(op: nat) { OP_1_1 <= op < OP_IN }
  predicate IsDouble(op: nat) { OP_4_2 <= op < OP_IN }
  predicate HasB(op: nat) { OP_2_1 <= op < OP_IN }
  predicate IsIf(op: nat) { op == OP_IF_LIKELY || op == OP_IF_RANDOM }

  function JmpWord(d: nat): u32
    requires d < 0x100_0000
  {
    d * BIT8 + OP_JMP
  }

  // ---------- structured programs ----------

  datatype Stmt =
    | Prim(w: u32)
    | If(w: u32, thn: seq<Stmt>, els: seq<Stmt>)
    | Loop(w: u32, mems: seq<u32>, body: seq<Stmt>)

  /** A branch keeps its two halves apart with jumps; every scope closes with an END. */
  function FlatStmt(s: Stmt): (c: seq<u32>)
    ensures |c| >= 1
    decreases s, 1
  {
    match s
    case Prim(w) => [w]
    case If(w, thn, els) =>
      var f1, f2 := Flat(thn), Flat(els);
      [w] + [JumpOver(|f1| + 2)] + f1 + [OP_END] + [JumpOver(|f2| + 1)] + f2 + [OP_END]
    case Loop(w, mems, body) => [w] + mems + Flat(body) + [OP_END]
  }

  /** A jump too long for its 24 bits cannot occur in a program that fits the instruction cap. */
  function JumpOver(d: nat): u32 {
    if d < 0x100_0000 then JmpWord(d) else OP_JMP
  }

  function Flat(b: seq<Stmt>): seq<u32>
    decreases b, 0
  {
    if |b| == 0 then [] else Flat(b[..|b| - 1]) + FlatStmt(b[|b| - 1])
  }

  // ---------- frames and registers ----------

  function Sum(sz: seq<nat>): nat {
    if |sz| == 0 then 0 else Sum(sz[..|sz| - 1]) + sz[|sz| - 1] + 1
  }

  /** Index `i` of the variable stack is a variable of some frame, not a scope marker. */
  predicate IsReg(sz: seq<nat>, i: int) {
    if |sz| == 0 then false
    else
      var b := Sum(sz[..|sz| - 1]);
      if i < b then IsReg(sz[..|sz| - 1], i) else b < i <= b + sz[|sz| - 1]
  }

  function Grow(sz: seq<nat>, n: nat): seq<nat>
    requires |sz| > 0
  {
    sz[|sz| - 1 := sz[|sz| - 1] + n]
  }

  /** The operands of an ALU instruction are variables in scope. */
  predicate OperandsOk(w: u32, sz: seq<nat>) {
    var op := Opcode(w);
    && IsReg(sz, RegA(w)) && (IsDouble(op) ==> IsReg(sz, RegA(w) - 1))
    && (HasB(op) && !HasImm(w) ==> IsReg(sz, RegB(w)) && (IsDouble(op) ==> IsReg(sz, RegB(w) - 1)))
  }

  /** Frame sizes after a statement. */
  function SizeStmt(s: Stmt, sz: seq<nat>): (r: seq<nat>)
    requires |sz| > 0
    ensures |r| == |sz|
  {
    if s.Prim? then Grow(sz, NOut(Opcode(s.w))) else sz
  }

  function SizeBlock(b: seq<Stmt>, sz: seq<nat>): (r: seq<nat>)
    requires |sz| > 0
    ensures |r| == |sz|
  {
    if |b| == 0 then sz else SizeStmt(b[|b| - 1], SizeBlock(b[..|b| - 1], sz))
  }

  predicate WellFormedStmt(s: Stmt, sz: seq<nat>)
    requires |sz| > 0
    decreases s, 1
  {
    match s
    case Prim(w) => (IsAlu(Opcode(w)) && OperandsOk(w, sz)) || Opcode(w) == OP_IN
    case If(w, thn, els) =>
      && IsIf(Opcode(w)) && IsReg(sz, RegA(w)) && Count(w) == 2
      && WellFormed(thn, sz + [0]) && WellFormed(els, sz + [0])
    case Loop(w, mems, body) =>
      && Opcode(w) == OP_LOOP && 2 <= Count(w) < 2048
      && (forall i :: 0 <= i < |mems| ==> Opcode(mems[i]) == OP_MEMORY)
      && WellFormed(body, sz + [|mems|])
  }

  predicate WellFormed(b: seq<Stmt>, sz: seq<nat>)
    requires |sz| > 0
    decreases b, 0
  {
    |b| == 0 || (WellFormed(b[..|b| - 1], sz) && WellFormedStmt(b[|b| - 1], SizeBlock(b[..|b| - 1], sz)))
  }

  /** A whole program is one loop, run with no frame open. */
  predicate WellFormedProgram(s: Stmt) {
    && s.Loop? && Opcode(s.w) == OP_LOOP && 2 <= Count(s.w) < 2048
    && (forall i :: 0 <= i < |s.mems| ==> Opcode(s.mems[i]) == OP_MEMORY)
    && WellFormed(s.body, [|s.mems|])
  }

  // ---------- direct evaluation ----------

  /** The word operations: operation, two 64-bit operands, which result word. */
  type Alu = (nat, u64, u64, nat) -> u32

  datatype Env = Env(memory: seq<u32>, hashIn: seq<u32>, alu: Alu)

  /** `loopCycle` is the interpreter's one loop counter; direct evaluation writes but never reads it. */
  datatype State = State(frames: seq<seq<u32>>, loopCycle: nat, hashOut: seq<u32>, hashctr: nat, opCtr: nat)

  /** The variable stack: each frame behind its marker. */
  function Stack(frames: seq<seq<u32>>): seq<u32> {
    if |frames| == 0 then [] else Stack(frames[..|frames| - 1]) + [MARK] + frames[|frames| - 1]
  }

  function Reg(frames: seq<seq<u32>>, i: int): u32 {
    if 0 <= i < |Stack(frames)| then Stack(frames)[i] else 0
  }

  function Wide(lo: u32, hi: u32): u64 {
    lo + hi * TWO32
  }

  function OperandA(w: u32, frames: seq<seq<u32>>): u64 {
    if IsDouble(Opcode(w)) then Wide(Reg(frames, RegA(w) - 1), Reg(frames, RegA(w))) else Reg(frames, RegA(w))
  }

  function OperandB(w: u32, frames: seq<seq<u32>>): u64 {
    if !HasB(Opcode(w)) then 0
    else if HasImm(w) then (if IsDouble(Opcode(w)) then Imm(w) else Imm(w) % TWO32)
    else if IsDouble(Opcode(w)) then Wide(Reg(frames, RegB(w) - 1), Reg(frames, RegB(w)))
    else Reg(frames, RegB(w))
  }

  function MemIndex(w: u32, cycle: nat): nat {
    (MemBase(w) + (cycle + MemCarry(w)) * MemStep(w)) % MEMORY_SZ
  }

  function At(s: seq<u32>, i: nat): u32 {
    if i < |s| then s[i] else 0
  }

  /** The words an instruction appends; a MEMORY instruction depends on the loop index `cycle`. */
  function Outputs(e: Env, w: u32, frames: seq<seq<u32>>, cycle: nat): (r: seq<u32>)
    ensures |r| == NOut(Opcode(w)) || Opcode(w) >= OP_IN
    ensures Opcode(w) >= OP_IN ==> |r| == 1
  {
    var op := Opcode(w);
    if op == OP_IN then [At(e.hashIn, Imm(w) % INOUT_SZ)]
    else if op >= OP_IN then [At(e.memory, MemIndex(w, cycle))]
    else
      var a, b := OperandA(w, frames), OperandB(w, frames);
      seq<u32>(NOut(op), k requires 0 <= k < NOut(op) => e.alu(op, a, b, k))
  }

  function Append(frames: seq<seq<u32>>, out: seq<u32>): (r: seq<seq<u32>>)
    ensures |r| == |frames|
  {
    if |frames| == 0 then frames else frames[|frames| - 1 := frames[|frames| - 1] + out]
  }

  /** Add the words of a closing frame to the output hash, round and round. */
  function Absorb(hashOut: seq<u32>, ctr: nat, out: seq<u32>): (r: (seq<u32>, nat))
    requires |hashOut| == INOUT_SZ && ctr < INOUT_SZ
    ensures |r.0| == INOUT_SZ && r.1 < INOUT_SZ
  {
    if |out| == 0 then (hashOut, ctr)
    else
      var (h, c) := Absorb(hashOut, ctr, out[..|out| - 1]);
      (h[c := (h[c] + out[|out| - 1]) % TWO32], (c + 1) % INOUT_SZ)
  }

  ghost predicate StateOk(st: State) {
    |st.hashOut| == INOUT_SZ && st.hashctr < INOUT_SZ
  }

  function Tick(st: State): State { st.(opCtr := st.opCtr + 1) }
  function Open(st: State): State { st.(frames := st.frames + [[]]) }

  /** END: the innermost frame is output and dropped. */
  function Close(st: State): (r: State)
    requires StateOk(st) && |st.frames| > 0
    ensures StateOk(r) && |r.frames| == |st.frames| - 1 && r.opCtr == st.opCtr && r.loopCycle == st.loopCycle
  {
    var n := |st.frames| - 1;
    var (h, c) := Absorb(st.hashOut, st.hashctr, st.frames[n]);
    st.(frames := st.frames[..n], hashOut := h, hashctr := c)
  }

  /** One straight-line instruction. */
  function Exec(e: Env, w: u32, st: State, cycle: nat): (r: State)
    ensures |r.frames| == |st.frames| && r.opCtr == st.opCtr + 1 && (StateOk(st) ==> StateOk(r))
    ensures r.loopCycle == st.loopCycle
  {
    Tick(st).(frames := Append(st.frames, Outputs(e, w, st.frames, cycle)))
  }

  function ExecAll(e: Env, ws: seq<u32>, st: State, cycle: nat): (r: State)
    ensures |r.frames| == |st.frames| && r.opCtr == st.opCtr + |ws| && (StateOk(st) ==> StateOk(r))
    ensures r.loopCycle == st.loopCycle
  {
    if |ws| == 0 then st else Exec(e, ws[|ws| - 1], ExecAll(e, ws[..|ws| - 1], st, cycle), cycle)
  }

  predicate Taken(w: u32, frames: seq<seq<u32>>) {
    var a := Reg(frames, RegA(w));
    if Opcode(w) == OP_IF_LIKELY then a % 8 != 0 else a % 2 != 0
  }

  /** Evaluate one statement; branches and loops are evaluated on their structure. */
  function EvalStmt(e: Env, s: Stmt, st: State): (r: State)
    requires StateOk(st) && |st.frames| > 0
    ensures StateOk(r) && |r.frames| == |st.frames| && r.opCtr > st.opCtr
    decreases s, 1, 0
  {
    match s
    case Prim(w) => Exec(e, w, st, 0)
    case If(w, thn, els) =>
      var st1 := Open(Tick(st));
      if Taken(w, st.frames) then Tick(Close(Tick(Eval(e, thn, st1)))) else Close(Tick(Eval(e, els, Tick(st1))))
    case Loop(w, mems, body) => Iterate(e, mems, body, Tick(st), 0, Count(w))
  }

  function Eval(e: Env, b: seq<Stmt>, st: State): (r: State)
    requires StateOk(st) && |st.frames| > 0
    ensures StateOk(r) && |r.frames| == |st.frames| && r.opCtr >= st.opCtr
    decreases b, 0, 0
  {
    if |b| == 0 then st else EvalStmt(e, b[|b| - 1], Eval(e, b[..|b| - 1], st))
  }

  /** Run a loop body for the cycles from `i` to `count`, each in a frame of its own. */
  function Iterate(e: Env, mems: seq<u32>, body: seq<Stmt>, st: State, i: nat, count: int): (r: State)
    requires StateOk(st)
    ensures StateOk(r) && |r.frames| == |st.frames| && r.opCtr >= st.opCtr
    decreases body, 1, count - i
  {
    if i >= count then st
    else Iterate(e, mems, body, Cycle(e, mems, body, st, i), i + 1, count)
  }

  /** One cycle of a loop: its MEMORY instructions see the index `i` of their own loop. */
  function Cycle(e: Env, mems: seq<u32>, body: seq<Stmt>, st: State, i: nat): (r: State)
    requires StateOk(st)
    ensures StateOk(r) && |r.frames| == |st.frames| && r.opCtr > st.opCtr
    decreases body, 1, 0
  {
    Close(Tick(Eval(e, body, ExecAll(e, mems, Open(st.(loopCycle := i)), i))))
  }

  /** What a whole program does, run with empty stacks. */
  function EvalProgram(e: Env, s: Stmt, st: State): (r: State)
    requires s.Loop? && StateOk(st) && st.frames == []
    ensures StateOk(r) && r.frames == []
  {
    Iterate(e, s.mems, s.body, Tick(st), 0, Count(s.w))
  }
}
