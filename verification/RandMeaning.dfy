/**
 * What single instructions of a random program mean, apart from how they are decoded: where they
 * read, what they append, when they branch and how a scope is output.
 */
module RandMeaning {
  import opened Words
  import opened RandProgram
  import opened RandHash
  import RandGen

  // ---------- memory reads ----------

  /** Operation, carry, step and place sit next to each other in a MEMORY instruction. */
  lemma MemoryFields(op: nat, carry: nat, step: nat, base: nat)
    requires op < 0x200 && carry < 16 && step < 16 && base < 0x8000
    ensures var w := op + carry * 0x200 + step * 0x2000 + base * 0x2_0000;
            && w < 0x1_0000_0000 && MemBase(w) == base && MemStep(w) == step && MemCarry(w) == carry
            && Opcode(w) == op % 0x100
  {
    var w := op + carry * 0x200 + step * 0x2000 + base * 0x2_0000;
    assert w / 0x200 == carry + step * 16 + base * 256;
    assert w / 0x2000 == step + base * 16;
    assert w == op + (carry * 2 + step * 32 + base * 512) * 0x100;
  }

  /** Whatever the variables, a MEMORY instruction loads one word of memory. */
  lemma LoadsOneWord(e: Env, w: u32, frames: seq<seq<u32>>, i: nat)
    requires Opcode(w) == OP_MEMORY && |e.memory| == MEMORY_SZ
    ensures var place := MemIndex(w, i);
            place < MEMORY_SZ && Outputs(e, w, frames, i) == [e.memory[place]]
  {
    hide MemIndex;
    PlaceInMemory(w, i);
  }

  lemma PlaceInMemory(w: u32, i: nat)
    ensures MemIndex(w, i) < MEMORY_SZ
  {
    hide MemBase, MemStep, MemCarry;
  }

  /** With no carry the first cycle reads the place the instruction names. */
  lemma FirstRead(e: Env, w: u32, frames: seq<seq<u32>>)
    requires Opcode(w) == OP_MEMORY && |e.memory| == MEMORY_SZ
    ensures Outputs(e, RandGen.WithCarry(w, 0), frames, 0) == [e.memory[MemBase(w) % 256]]
  {
    var v := RandGen.WithCarry(w, 0);
    SameBase(v, w);
    hide RandGen.WithCarry, MemBase, MemStep, MemCarry, Opcode;
    LoadsOneWord(e, v, frames, 0);
    assert MemIndex(v, 0) == (MemBase(w) + (0 + 0) * MemStep(w)) % MEMORY_SZ;
  }

  /** A carry reads ahead: one more is what the next cycle reads. */
  lemma CarryReadsAhead(e: Env, w: u32, c: nat, frames: seq<seq<u32>>, i: nat)
    requires Opcode(w) == OP_MEMORY && |e.memory| == MEMORY_SZ && c < 15
    ensures Outputs(e, RandGen.WithCarry(w, c + 1), frames, i) == Outputs(e, RandGen.WithCarry(w, c), frames, i + 1)
  {
    hide *;
    var v, u := RandGen.WithCarry(w, c + 1), RandGen.WithCarry(w, c);
    CarryIs(w, c);
    CarryIs(w, c + 1);
    LoadsOneWord(e, v, frames, i);
    LoadsOneWord(e, u, frames, i + 1);
    SamePlace(v, u, i);
  }

  lemma CarryIs(w: u32, c: nat)
    requires c < 16
    ensures var v := RandGen.WithCarry(w, c);
            Opcode(v) == Opcode(w) && MemCarry(v) == c && MemBase(v) == MemBase(w) && MemStep(v) == MemStep(w)
  {
    SameBase(RandGen.WithCarry(w, c), w);
    hide RandGen.WithCarry, MemBase, MemStep, MemCarry, Opcode;
  }

  lemma SamePlace(v: u32, u: u32, i: nat)
    requires MemBase(v) == MemBase(u) && MemStep(v) == MemStep(u) && MemCarry(v) == MemCarry(u) + 1
    ensures MemIndex(v, i) == MemIndex(u, i + 1)
  {
    hide MemBase, MemStep, MemCarry;
    assert i + MemCarry(v) == i + 1 + MemCarry(u);
  }

  /** From one cycle to the next the place moves on by the step, round the memory. */
  lemma StepsOn(e: Env, w: u32, frames: seq<seq<u32>>, i: nat, place: nat)
    requires Opcode(w) == OP_MEMORY && |e.memory| == MEMORY_SZ && place == MemIndex(w, i)
    ensures place < 256 && Outputs(e, w, frames, i) == [e.memory[place]]
    ensures Outputs(e, w, frames, i + 1) == [e.memory[(place + MemStep(w)) % 256]]
  {
    LoadsOneWord(e, w, frames, i);
    LoadsOneWord(e, w, frames, i + 1);
    hide MemBase, MemStep, MemCarry, Opcode, Outputs;
    OneStep(MemBase(w), i + MemCarry(w), MemStep(w));
    assert i + 1 + MemCarry(w) == i + MemCarry(w) + 1;
  }

  lemma OneStep(base: nat, k: nat, step: nat)
    ensures (base + (k + 1) * step) % 256 == ((base + k * step) % 256 + step) % 256
  {
    var x := base + k * step;
    assert base + (k + 1) * step == x + step;
  }

  lemma SameBase(v: u32, w: u32)
    requires v / BIT13 == w / BIT13
    ensures MemBase(v) == MemBase(w) && MemStep(v) == MemStep(w)
  {
    assert v / BIT17 == v / BIT13 / 16 && w / BIT17 == w / BIT13 / 16;
  }

  /** So in closed form, for every cycle and carry. */
  lemma ReadsAt(e: Env, w: u32, c: nat, frames: seq<seq<u32>>, i: nat)
    requires Opcode(w) == OP_MEMORY && |e.memory| == MEMORY_SZ && c < 16
    ensures Outputs(e, RandGen.WithCarry(w, c), frames, i) == [e.memory[(MemBase(w) + (i + c) * MemStep(w)) % 256]]
  {
    var v := RandGen.WithCarry(w, c);
    SameBase(v, w);
    hide RandGen.WithCarry, MemBase, MemStep, MemCarry, Opcode, Outputs;
    LoadsOneWord(e, v, frames, i);
  }

  /** The memory is a window of the program buffer, at a place that the item's number chooses. */
  lemma MemoryIsWindow(progbuf: seq<u32>, itemNum: nat, place: nat)
    requires |progbuf| == PROGBUF_SZ && place < 256
    ensures MemoryAt(progbuf, itemNum)[place] == progbuf[itemNum % 1792 + place]
  {
  }

  // ---------- the other straight-line instructions ----------

  /** A jump's distance is all that is not its operation. */
  lemma JumpDistance(op: nat, d: nat)
    requires op < 0x100 && d < 0x100_0000
    ensures Opcode(op + 0x100 * d) == op && JmpDist(op + 0x100 * d) == d
  {
  }

  /** The fields of an instruction with operands. */
  lemma OperandFields(op: nat, a: nat, imm: nat, pattern: nat, b: nat)
    requires op < 0x100 && a < 0x200 && imm < 2 && pattern < 2 && b < 0x1000
    ensures var w := op + a * 0x200 + imm * 0x4_0000 + pattern * 0x8_0000 + b * 0x10_0000;
            && w < 0x1_0000_0000 && Opcode(w) == op && RegA(w) == a && RegB(w) == b % 0x200
            && (HasImm(w) <==> imm == 1) && w / BIT20 == b && (w / BIT19) % 2 == pattern
  {
    var w := op + a * 0x200 + imm * 0x4_0000 + pattern * 0x8_0000 + b * 0x10_0000;
    hide Opcode, RegA, HasImm, RegB;
    RandGen.LowFields(w, op, a, imm + pattern * 2 + b * 4);
    HighBits(w, imm, pattern, b);
  }

  lemma HighBits(w: u32, imm: nat, pattern: nat, b: nat)
    requires imm < 2 && pattern < 2 && b < 0x1000 && w / BIT18 == imm + pattern * 2 + b * 4
    ensures RegB(w) == b % 0x200 && (HasImm(w) <==> imm == 1) && w / BIT20 == b && (w / BIT19) % 2 == pattern
  {
    assert w / BIT19 == w / BIT18 / 2 == pattern + b * 2;
    assert w / BIT20 == w / BIT19 / 2;
  }

  /** Twelve bits are a number with a sign ... */
  lemma ShortImmediate(w: u32)
    requires (w / BIT19) % 2 == 0
    ensures var v := w / BIT20;
            Imm(w) == if v < 2048 then v else TWO64 - (4096 - v)
  {
  }

  /** ... or two bits of 64 to be cleared, and what becomes of the top one. */
  lemma PatternImmediate(w: u32, a: nat, b: nat, i: nat, s: nat)
    requires (w / BIT19) % 2 == 1 && w / BIT20 == a + 32 * b + 1024 * i + 2048 * s
    requires a < 32 && b < 32 && i < 2 && s < 2
    ensures var ones := if i == 1 && s == 0 then 0x7fff_ffff_ffff_ffff else 0xffff_ffff_ffff_ffff;
            Imm(w) + (if a == b then 0 else Pow2(a) + Pow2(b)) == ones
  {
    PatternFields(w / BIT20, a, b, i, s);
    hide Pow2;
  }

  lemma PatternFields(imm: nat, a: nat, b: nat, i: nat, s: nat)
    requires a < 32 && b < 32 && i < 2 && s < 2 && imm == a + 32 * b + 1024 * i + 2048 * s
    ensures imm % 32 == a && (imm / 32) % 32 == b && (imm / 1024) % 2 == i && imm / 2048 == s
  {
    assert imm / 32 == b + 32 * i + 64 * s;
    assert imm / 1024 == i + 2 * s;
  }

  /** IN appends the input word that its low eight immediate bits name, unless they are a pattern. */
  lemma InReads(e: Env, w: u32, frames: seq<seq<u32>>, cycle: nat)
    requires Opcode(w) == OP_IN && |e.hashIn| == INOUT_SZ && (w / BIT19) % 2 == 0
    ensures Outputs(e, w, frames, cycle) == [e.hashIn[w / BIT20 % 256]]
  {
    ShortImmediate(w);
    hide Imm, Opcode;
    if w / BIT20 >= 2048 {
      assert (TWO64 - (4096 - w / BIT20)) % 256 == w / BIT20 % 256;
    }
  }

  /** The two words an operand of a double operation is made of: the high one in the register named. */
  function DoubleAt(stack: seq<u32>, i: int): u64
    requires 1 <= i < |stack|
  {
    var low: nat, high: nat := stack[i - 1], stack[i];
    low + 0x1_0000_0000 * high
  }

  /** An operation appends the words of its result, in order. */
  lemma OperationAppends(e: Env, w: u32, frames: seq<seq<u32>>, cycle: nat, k: nat)
    requires IsAlu(Opcode(w)) && k < NOut(Opcode(w))
    requires 1 <= RegA(w) < |Stack(frames)| && 1 <= RegB(w) < |Stack(frames)|
    ensures var op, stack := Opcode(w), Stack(frames);
            var a := if op < 51 then stack[RegA(w)] else DoubleAt(stack, RegA(w));
            var b := if op < 12 then 0
                     else if HasImm(w) then (if op < 51 then Imm(w) % 0x1_0000_0000 else Imm(w))
                     else if op < 51 then stack[RegB(w)] else DoubleAt(stack, RegB(w));
            && |Outputs(e, w, frames, cycle)| == (if op < 36 then 1 else if op < 59 then 2 else 4)
            && Outputs(e, w, frames, cycle)[k] == e.alu(op, a, b, k)
  {
    hide Opcode, RegA, RegB, HasImm, Imm, Stack;
  }

  /** A likely branch is taken unless three low bits are clear, a random one if the lowest is set. */
  lemma BranchTaken(w: u32, frames: seq<seq<u32>>)
    requires IsIf(Opcode(w)) && 0 <= RegA(w) < |Stack(frames)|
    ensures Opcode(w) == OP_IF_LIKELY ==>
              (Taken(w, frames) <==> !exists q: nat :: Multiple(Stack(frames)[RegA(w)], q, 8))
    ensures Opcode(w) == OP_IF_RANDOM ==>
              (Taken(w, frames) <==> !exists q: nat :: Multiple(Stack(frames)[RegA(w)], q, 2))
  {
    hide Opcode, RegA, Stack;
    var v := Stack(frames)[RegA(w)];
    assert Multiple(v, v / 8, 8) <==> v % 8 == 0;
    assert Multiple(v, v / 2, 2) <==> v % 2 == 0;
  }

  predicate Multiple(v: nat, q: nat, n: nat) { v == q * n }

  // ---------- the output of a scope ----------

  /** The words of a scope are added one to each word of the output, going on from the counter. */
  lemma {:induction false} ScopeOutput(h: seq<u32>, c: nat, out: seq<u32>, k: nat)
    requires |h| == INOUT_SZ && c < INOUT_SZ && |out| <= INOUT_SZ && k < INOUT_SZ
    ensures var (r, d) := Absorb(h, c, out);
            && d == (c + |out|) % 256
            && r[(c + k) % 256] == if k < |out| then (h[(c + k) % 256] + out[k]) % TWO32 else h[(c + k) % 256]
  {
    var n := |out| - 1;
    if |out| > 0 {
      AbsorbLast(h, c, out);
      hide Absorb;
      ScopeOutput(h, c, out[..n], k);
      NextPlace(c, n);
      if k != n { OtherPlace(c, k, n); }
    }
  }

  lemma NextPlace(c: nat, n: nat)
    ensures ((c + n) % 256 + 1) % 256 == (c + (n + 1)) % 256
  {
  }

  lemma OtherPlace(c: nat, k: nat, n: nat)
    requires k < 256 && n < 256 && k != n
    ensures (c + k) % 256 != (c + n) % 256
  {
    var a, b := (c + k) / 256, (c + n) / 256;
    assert c + k == 256 * a + (c + k) % 256 && c + n == 256 * b + (c + n) % 256;
  }

  lemma AbsorbLast(h: seq<u32>, c: nat, out: seq<u32>)
    requires |h| == INOUT_SZ && c < INOUT_SZ && |out| > 0
    ensures var (r, d) := Absorb(h, c, out[..|out| - 1]);
            Absorb(h, c, out) == (r[d := (r[d] + out[|out| - 1]) % TWO32], (d + 1) % 256)
  {
  }

  // ---------- a whole item ----------

  /**
   * The two runs of an item: the second takes the output of the first as its input and adds its own
   * to what the first had as input.
   */
  lemma TwoRuns(e: Env, s: Stmt, hashOut: seq<u32>)
    requires s.Loop? && |e.hashIn| == |hashOut| == INOUT_SZ
    ensures var r1 := EvalProgram(e, s, State([], 0, hashOut, 0, 0));
            var r2 := EvalProgram(e.(hashIn := r1.hashOut), s, State([], r1.loopCycle, e.hashIn, 0, 0));
            EvalCycles(e, s, hashOut, 0, 2)
            == if r1.opCtr > MAX_OPS || r2.opCtr > MAX_OPS then None else Some((r2.hashOut, r1.hashOut))
  {
    hide EvalProgram;
    var one := 1;
    var r1 := EvalProgram(e, s, State([], 0, hashOut, 0, 0));
    var e1 := e.(hashIn := r1.hashOut);
    var r2 := EvalProgram(e1, s, State([], r1.loopCycle, e.hashIn, 0, 0));
    assert EvalCycles(e1, s, e.hashIn, r1.loopCycle, one)
        == if r2.opCtr > MAX_OPS then None else Some((r2.hashOut, r1.hashOut));
  }
}
