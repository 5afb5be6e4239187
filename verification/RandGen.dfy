/**
 * The random program generator (RandGen.c): a small compiler driven by a stream of random draws.
 * Whatever the draws, a program it does not reject is the flat code of a well-formed structured
 * program.
 */
module RandGen {
  import opened Words
  import opened RandProgram

  const INITIAL_BUDGET: nat := 20000
  const MEMORY_COST: nat := 20
  const INPUT_COST: nat := 2
  const BRANCH_COST: nat := 50
  const HIGHER_SCOPE_LIKELYHOOD: nat := 4
  const VAR_REUSE_LIKELYHOOD: nat := 8
  const IMMEDIATE_LIKELYHOOD: nat := 4
  const RANDOM_BRANCH_LIKELYHOOD: nat := 2
  const TOO_BIG: int := -1

  datatype OpType = Op11 | Op21 | Op22 | Op42 | Op44

  function Cost(t: OpType): nat {
    match t case Op11 => 1 case Op21 => 2 case Op22 => 4 case Op42 => 8 case Op44 => 16
  }

  /** GET_OP: an operation of the given type. */
  function GetOp(t: OpType, r: u32): nat {
    match t
    case Op11 => OP_1_1 + r % (OP_2_1 - OP_1_1)
    case Op21 => OP_2_1 + r % (OP_2_2 - OP_2_1)
    case Op22 => OP_2_2 + r % (OP_4_2 - OP_2_2)
    case Op42 => OP_4_2 + r % (OP_4_4 - OP_4_2)
    case Op44 => OP_4_4 + r % (OP_IN - OP_4_4)
  }

  predicate TakesDouble(t: OpType) { t.Op42? || t.Op44? }
  function Results(t: OpType): nat {
    match t case Op11 => 1 case Op21 => 1 case Op22 => 2 case Op42 => 2 case Op44 => 4
  }

  function LoopMaxCycles(scope: nat): nat { 7 + scope * 29 }
  predicate ShouldLoop(r: u32) { r % 32 < 23 }
  predicate ShouldBranch(r: u32, insnCount: nat) { r % 64 + insnCount * 25 / MAX_INSNS < 50 }

  /** A draw selects the operation of its kind that it is congruent to; the kinds are 1 to 11, 12 to 35 and so on. */
  lemma DrawSelects(t: OpType, r: u32)
    ensures var (lo, n) := match t
                           case Op11 => (1, 11) case Op21 => (12, 24) case Op22 => (36, 15) case Op42 => (51, 8)
                           case Op44 => (59, 5);
            lo <= GetOp(t, r) < lo + n && (GetOp(t, r) - lo) % n == r % n
  {
  }

  /** A branch is drawn 50 times in 64 while the program is empty, and 25 times when it is full. */
  lemma BranchOdds(r: u32)
    ensures ShouldBranch(r, 0) <==> r % 64 <= 49
    ensures ShouldBranch(r, 1024) <==> r % 64 <= 37
    ensures ShouldBranch(r, MAX_INSNS) <==> r % 64 <= 24
    ensures ShouldLoop(r) <==> r % 32 <= 22
  {
  }

  // ---------- the budget ----------

  /** What a straight-line instruction costs. */
  function CostOf(w: u32): nat {
    var op := Opcode(w);
    if op == OP_IN then 2
    else if op < OP_2_1 then 1 else if op < OP_2_2 then 2 else if op < OP_4_2 then 4 else if op < OP_4_4 then 8 else 16
  }

  /**
   * What is left of a budget after a statement; None if it does not suffice.  Each half of a branch
   * has 7/32 of what is left after the branch itself, at no further cost; a loop pays for one of its
   * cycles out of an equal share, and leaves what that leaves.
   */
  function Pay(s: Stmt, budget: nat): Option<nat>
    decreases s, 1
  {
    match s
    case Prim(w) => if CostOf(w) <= budget then Some(budget - CostOf(w)) else None
    case If(_, thn, els) =>
      if budget < 50 then None
      else
        var left := budget - 50;
        if PayAll(thn, left * 7 / 32).Some? && PayAll(els, left * 7 / 32).Some? then Some(left) else None
    case Loop(w, mems, body) =>
      if Count(w) < 1 || budget / Count(w) < 20 * |mems| then None
      else PayAll(body, budget / Count(w) - 20 * |mems|)
  }

  function PayAll(b: seq<Stmt>, budget: nat): Option<nat>
    decreases b, 0
  {
    if |b| == 0 then Some(budget)
    else match PayAll(b[..|b| - 1], budget)
      case None => None
      case Some(left) => Pay(b[|b| - 1], left)
  }

  /** What has been generated so far is paid for, and `left` is what remains. */
  ghost predicate Paid(p: Progress, b: seq<Stmt>, budget: nat, left: nat) {
    p.clean ==> PayAll(b, budget) == Some(left)
  }

  lemma PaidStart(p: Progress, budget: nat)
    ensures Paid(p, [], budget, budget)
  {
  }

  lemma PaidBy(p1: Progress, p2: Progress, b: seq<Stmt>, ok: bool, s: Stmt, budget: nat, left: nat, rest: nat)
    requires Paid(p1, b, budget, left) && (p2.clean ==> p1.clean)
    requires if ok then p2.clean ==> Pay(s, left) == Some(rest) else rest == left
    ensures Paid(p2, Plus(b, ok, s), budget, rest)
  {
    hide Pay;
    assert (b + [s])[..|b|] == b;
  }

  lemma PayPrim(w: u32, t: OpType, r: u32, budget: nat, left: nat)
    requires Opcode(w) == GetOp(t, r) && left + Cost(t) == budget
    ensures Pay(Prim(w), budget) == Some(left)
  {
    hide Opcode;
  }

  lemma PayInput(r: u32, budget: nat, left: nat)
    requires left + INPUT_COST == budget
    ensures Pay(Prim(InWord(r)), budget) == Some(left)
  {
    InOpcode(r);
    hide InWord, Opcode;
  }

  lemma PayBranch(w: u32, thn: seq<Stmt>, els: seq<Stmt>, budget: nat)
    requires budget >= BRANCH_COST
    requires PayAll(thn, (budget - BRANCH_COST) * 7 / 32).Some? && PayAll(els, (budget - BRANCH_COST) * 7 / 32).Some?
    ensures Pay(If(w, thn, els), budget) == Some(budget - BRANCH_COST)
  {
  }

  lemma PayLoop(w: u32, mems: seq<u32>, body: seq<Stmt>, budget: nat, share: nat, left: nat)
    requires Count(w) >= 1 && budget / Count(w) == share && share >= MEMORY_COST * |mems|
    requires PayAll(body, share - MEMORY_COST * |mems|) == Some(left)
    ensures Pay(Loop(w, mems, body), budget) == Some(left)
  {
    hide Count, PayAll;
  }

  // ---------- instruction words ----------

  /** Fields side by side; an operand field that is too wide would run into its neighbour. */
  function Word(op: nat, a: nat, b: nat): u32 {
    (op + a * BIT9 + b) % TWO32
  }

  const IMM_BIT: nat := BIT18

  lemma LowFields(w: u32, op: nat, a: nat, rest: nat)
    requires op < BIT8 && a < 512 && w == op + a * BIT9 + rest * BIT18
    ensures Opcode(w) == op && RegA(w) == a && w / BIT18 == rest
  {
    assert w / BIT9 == a + rest * 512;
  }

  lemma HighFields(w: u32, i: nat, b: nat)
    requires i < 2 && b < 4096 && w / BIT18 == i + b * 4
    ensures (HasImm(w) <==> i == 1) && w / BIT20 == b && RegB(w) == b % 512 && (w / BIT19) % 2 == 0
  {
    ImmField(w, i, b);
    HighField(w, i, b);
    hide HasImm, RegB;
  }

  lemma ImmField(w: u32, i: nat, b: nat)
    requires i < 2 && w / BIT18 == i + b * 4
    ensures (HasImm(w) <==> i == 1) && (w / BIT19) % 2 == 0
  {
    assert w / BIT19 == w / BIT18 / 2 == b * 2;
  }

  lemma HighField(w: u32, i: nat, b: nat)
    requires i < 2 && w / BIT18 == i + b * 4
    ensures w / BIT20 == b && RegB(w) == b % 512
  {
    assert w / BIT20 == w / BIT18 / 4;
  }

  lemma WordFields(op: nat, a: nat, imm: bool, b: nat)
    requires op < BIT8 && a < 512 && b < 4096
    ensures var w := Word(op, a, (if imm then IMM_BIT else 0) + b * BIT20);
            && Opcode(w) == op && RegA(w) == a && RegB(w) == b % 512 && (HasImm(w) <==> imm)
            && w / BIT20 == b && (w / BIT19) % 2 == 0
  {
    hide Opcode, RegA, RegB, HasImm;
    var i := if imm then 1 else 0;
    var w := Word(op, a, i * BIT18 + b * BIT20);
    assert w == op + a * BIT9 + (i + b * 4) * BIT18;
    LowFields(w, op, a, i + b * 4);
    HighFields(w, i, b);
  }

  lemma CountOfWord(op: nat, a: nat, b: nat)
    requires op < BIT8 && a < 512 && b < 2048
    ensures Count(Word(op, a, b * BIT20)) == b
  {
    WordFields(op, a, false, b);
  }

  function InWord(r: u32): u32 { (r % 0x100_0000) * BIT8 + OP_IN }
  function MemTemplate(r: u32): u32 { (r % 0x100_0000) * BIT8 + OP_MEMORY }

  /** DecodeInsn_MEMORY_WITH_CARRY: replace the four carry bits. */
  function WithCarry(w: u32, carry: u32): (r: u32)
    ensures Opcode(r) == Opcode(w) && MemCarry(r) == carry % 16 && r / BIT13 == w / BIT13
  {
    CarryFits(w / BIT13, carry % 16, w % BIT9, w);
    var r := w / BIT13 * BIT13 + carry % 16 * BIT9 + w % BIT9;
    CarryHigh(w / BIT13, carry % 16, w % BIT9);
    CarryMiddle(w / BIT13, carry % 16, w % BIT9);
    CarryLow(w / BIT13, carry % 16, w % BIT9, w);
    r
  }

  lemma CarryFits(hi: nat, c: nat, lo: nat, w: u32)
    requires hi == w / BIT13 && c < 16 && lo < BIT9
    ensures hi * BIT13 + c * BIT9 + lo < TWO32
  {
    assert hi < 0x8_0000;
  }

  lemma CarryHigh(hi: nat, c: nat, lo: nat)
    requires c < 16 && lo < BIT9
    ensures (hi * BIT13 + c * BIT9 + lo) / BIT13 == hi
  {
  }

  lemma CarryMiddle(hi: nat, c: nat, lo: nat)
    requires c < 16 && lo < BIT9
    ensures (hi * BIT13 + c * BIT9 + lo) / BIT9 % 16 == c
  {
    assert (hi * BIT13 + c * BIT9 + lo) / BIT9 == hi * 16 + c;
  }

  lemma CarryLow(hi: nat, c: nat, lo: nat, w: nat)
    requires lo == w % BIT9
    ensures (hi * BIT13 + c * BIT9 + lo) % BIT8 == w % BIT8
  {
    var k := hi * 32 + c * 2;
    assert hi * BIT13 + c * BIT9 + lo == k * BIT8 + lo;
    assert (k * BIT8 + lo) % BIT8 == lo % BIT8;
    var j := w / BIT9 * 2;
    assert w == j * BIT8 + lo;
    assert (j * BIT8 + lo) % BIT8 == lo % BIT8;
  }

  // ---------- blocks ----------

  lemma Snoc(b: seq<Stmt>, s: Stmt, sz: seq<nat>)
    requires |sz| > 0
    ensures Flat(b + [s]) == Flat(b) + FlatStmt(s)
    ensures SizeBlock(b + [s], sz) == SizeStmt(s, SizeBlock(b, sz))
    ensures WellFormed(b, sz) && WellFormedStmt(s, SizeBlock(b, sz)) ==> WellFormed(b + [s], sz)
  {
    assert (b + [s])[..|b|] == b;
    hide FlatStmt, SizeStmt, WellFormedStmt;
  }

  // ---------- the variable stack ----------

  /** The stack of variables with markers: index `i` holds a variable exactly if it is a register. */
  ghost predicate Marks(vars: seq<u32>, sizes: seq<nat>) {
    && |vars| == Sum(sizes)
    && (forall i :: 0 <= i < |vars| ==> vars[i] == 0 || vars[i] == 1 || vars[i] == MARK)
    && (forall i :: 0 <= i < |vars| ==> (vars[i] != MARK <==> IsReg(sizes, i)))
  }

  lemma MarksPushVar(vars: seq<u32>, sizes: seq<nat>)
    requires Marks(vars, sizes) && |sizes| > 0
    ensures Marks(vars + [0], Grow(sizes, 1))
  {
    var n := |sizes| - 1;
    assert Grow(sizes, 1)[..n] == sizes[..n];
  }

  lemma MarksPushScope(vars: seq<u32>, sizes: seq<nat>)
    requires Marks(vars, sizes)
    ensures Marks(vars + [MARK], sizes + [0])
  {
    assert (sizes + [0])[..|sizes|] == sizes;
  }

  lemma MarksPop(vars: seq<u32>, sizes: seq<nat>)
    requires Marks(vars, sizes) && |sizes| > 0
    ensures var below := Sum(sizes[..|sizes| - 1]);
            && below < |vars| && vars[below] == MARK && Marks(vars[..below], sizes[..|sizes| - 1])
            && forall i :: below < i < |vars| ==> vars[i] != MARK
  {
  }

  lemma MarksSet(vars: seq<u32>, sizes: seq<nat>, i: nat)
    requires Marks(vars, sizes) && i < |vars| && vars[i] != MARK
    ensures Marks(vars[i := 1], sizes)
  {
  }

  /** Only the words 0 (unused) and 1 (used) are variables; setting the low bit of one gives 1. */
  function Used(v: u32): u32 { if v % 2 == 1 then v else v + 1 }

  /** A coin that comes up again and again, so that looking for a variable ends. */
  ghost predicate Fair(draws: nat -> u32) {
    forall n: nat :: HitFrom(draws, n)
  }

  ghost predicate HitFrom(draws: nat -> u32, n: nat) {
    exists m: nat :: m >= n && Hit(draws, m)
  }

  predicate Hit(draws: nat -> u32, m: nat) { draws(m) % VAR_REUSE_LIKELYHOOD == 0 }

  // ---------- the generator ----------

  class Generator {
    const draws: nat -> u32
    var pos: nat
    var insns: seq<u32>
    var vars: seq<u32>
    var scope: nat
    var tooBig: bool
    /** The sizes of the open scopes. */
    ghost var sizes: seq<nat>
    /** Whether a register number was emitted that does not fit its 9-bit field; the source does not notice. */
    var wide: bool

    constructor (draws: nat -> u32)
      requires Fair(draws)
      ensures Valid() && Clean() && pos == 0 && insns == [] && sizes == [] && scope == 0
    {
      this.draws := draws;
      pos, insns, vars, scope, tooBig, sizes, wide := 0, [], [], 0, false, [], false;
    }

    ghost predicate Valid()
      reads `insns, `scope, `sizes, `vars
    {
      && Fair(draws) && |insns| <= MAX_INSNS && scope == |sizes| && Marks(vars, sizes)
    }

    /** There is a scope with two variables to draw operands from. */
    ghost predicate Ready()
      reads `insns, `scope, `sizes, `vars
    {
      Valid() && |sizes| > 0 && sizes[0] >= 2
    }

    /** The program has not been rejected. */
    predicate Clean()
      reads `tooBig, `wide
    {
      !tooBig && !wide
    }

    method RandU32() returns (r: u32)
      modifies `pos
      ensures pos == old(pos) + 1 && r == draws(old(pos))
    {
      r := draws(pos);
      pos := pos + 1;
    }

    method CoinToss(oneIn: nat) returns (b: bool)
      requires oneIn > 0
      modifies `pos
      ensures pos == old(pos) + 1 && (b <==> draws(old(pos)) % oneIn == 0)
    {
      var r := RandU32();
      b := r % oneIn == 0;
    }

    method RandRange(start: nat, end: nat) returns (r: nat)
      requires start < end
      modifies `pos
      ensures start <= r < end && pos == old(pos) + 1 && r == draws(old(pos)) % (end - start) + start
    {
      var x := RandU32();
      r := x % (end - start) + start;
    }

    method Emit(insn: u32)
      requires |insns| <= MAX_INSNS
      modifies `insns, `tooBig
      ensures |insns| <= MAX_INSNS && (old(tooBig) ==> tooBig) && (!tooBig ==> insns == old(insns) + [insn])
    {
      if |insns| >= MAX_INSNS {
        tooBig := true;
        return;
      }
      insns := insns + [insn];
    }

    method OpenScope()
      requires Valid()
      modifies `scope, `vars, `sizes
      ensures Valid() && sizes == old(sizes) + [0]
    {
      MarksPushScope(vars, sizes);
      scope := scope + 1;
      vars := vars + [MARK];
      sizes := sizes + [0];
    }

    /** END, then pop the variables of the scope and its marker. */
    method End()
      requires Valid() && scope > 0
      modifies `scope, `vars, `sizes, `insns, `tooBig
      ensures Valid() && sizes == old(sizes[..|sizes| - 1])
      ensures (old(tooBig) ==> tooBig) && (!tooBig ==> insns == old(insns) + [OP_END])
    {
      Emit(OP_END);
      scope := scope - 1;
      ghost var all, below := vars, Sum(sizes[..|sizes| - 1]);
      MarksPop(vars, sizes);
      var v := vars[|vars| - 1];
      vars := vars[..|vars| - 1];
      while v != MARK
        modifies `vars
        invariant below <= |vars| < |all| && vars == all[..|vars|] && v == all[|vars|]
        decreases |vars|
      {
        v := vars[|vars| - 1];
        vars := vars[..|vars| - 1];
      }
      sizes := sizes[..|sizes| - 1];
    }

    method MkVar()
      requires Valid() && scope > 0
      modifies `vars, `sizes
      ensures Valid() && sizes == Grow(old(sizes), 1)
    {
      MarksPushVar(vars, sizes);
      vars := vars + [0];
      sizes := Grow(sizes, 1);
    }

    /** The frame to draw from: variables `bof + 1` to `eof - 1`, at least two of them if `dbl`. */
    method FindFrame(dbl: bool) returns (bof: int, eof: int)
      requires Ready()
      modifies `pos
      ensures 0 <= bof < eof <= |vars| && vars[bof] == MARK && (if dbl then bof + 2 < eof else bof + 1 < eof)
      ensures forall k :: bof < k < eof ==> vars[k] != MARK
      ensures pos >= old(pos) && (bof == 0 || (pos > old(pos) && draws(pos - 1) % HIGHER_SCOPE_LIKELYHOOD != 0))
    {
      FirstFrame(vars, sizes);
      eof := |vars|;
      bof := eof - 1;
      while bof >= 0
        invariant 0 <= bof < eof <= |vars|
        invariant forall k :: bof < k < eof ==> vars[k] != MARK
        invariant (eof == |vars| || vars[eof] == MARK) && pos >= old(pos)
      {
        if vars[bof] != MARK {
          bof := bof - 1;
          continue;
        }
        if dbl {
          if bof >= eof - 2 {
            eof := bof;
            bof := bof - 1;
            continue;
          }
        } else {
          if bof >= eof - 1 {
            eof := bof;
            bof := bof - 1;
            continue;
          }
        }
        if bof == 0 { break; }
        var higher := CoinToss(HIGHER_SCOPE_LIKELYHOOD);
        if !higher { break; }
        eof := bof;
        bof := bof - 1;
      }
      assert bof >= 0;
    }

    /** _getVar: go round the frame until an unused variable, or a coin, says to take one. */
    method PickVar(dbl: bool) returns (j: int)
      requires Ready()
      modifies `pos
      ensures 0 < j < |vars| && vars[j] != MARK && (dbl ==> vars[j - 1] != MARK)
      ensures pos > old(pos)
      ensures draws(pos - 1) % VAR_REUSE_LIKELYHOOD == 0 || (vars[j] % 2 == 0 && (dbl ==> vars[j - 1] % 2 == 0))
    {
      var bof, eof := FindFrame(dbl);
      var start := RandRange(bof + 1, eof);
      assert HitFrom(draws, pos);
      ghost var hit: nat :| hit >= pos && Hit(draws, hit);
      j := start + 1;
      while true
        invariant bof < j <= eof && old(pos) < pos <= hit
        decreases hit - pos, if bof + 1 < j < eof then 0 else 1
      {
        if j >= eof { j := bof + 1; }
        if !dbl || j > bof + 1 {
          var reuse := CoinToss(VAR_REUSE_LIKELYHOOD);
          if reuse { return; }
        }
        if vars[j] % 2 == 0 {
          if !dbl || vars[j - 1] % 2 == 0 { return; }
        }
        j := j + 1;
      }
    }

    /** getVar: the chosen register, marked as used. */
    method GetVar(dbl: bool) returns (out: nat)
      requires Ready()
      modifies `pos, `vars, `wide
      ensures Ready() && IsReg(sizes, out) && (dbl ==> IsReg(sizes, out - 1))
      ensures (old(wide) ==> wide) && (!wide ==> out < 512)
      ensures pos > old(pos) && out < |old(vars)| && |vars| == |old(vars)|
      ensures draws(pos - 1) % VAR_REUSE_LIKELYHOOD == 0 || old(vars)[out] % 2 == 0
      ensures forall k :: 0 <= k < |vars| ==> vars[k] == if k == out || (dbl && k == out - 1) then 1 else old(vars)[k]
    {
      out := PickVar(dbl);
      assert IsReg(sizes, out) && (dbl ==> IsReg(sizes, out - 1));
      hide IsReg;
      MarksSet(vars, sizes, out);
      assert Used(vars[out]) == 1;
      vars := vars[out := Used(vars[out])];
      if dbl {
        MarksSet(vars, sizes, out - 1);
        assert Used(vars[out - 1]) == 1;
        vars := vars[out - 1 := Used(vars[out - 1])];
      }
      wide := wide || out >= 512;
    }

    /** getB: an immediate or a register, in place in the high field. */
    method GetB(dbl: bool) returns (b: nat, ghost imm: bool, ghost v: nat)
      requires Ready()
      modifies `pos, `vars, `wide
      ensures Ready() && b == (if imm then IMM_BIT else 0) + v * BIT20
      ensures (old(wide) ==> wide) && (!wide ==> if imm then v < 4096 else v < 512)
      ensures !imm ==> IsReg(sizes, v) && (dbl ==> IsReg(sizes, v - 1))
      ensures pos > old(pos) && (imm <==> draws(old(pos)) % IMMEDIATE_LIKELYHOOD == 0)
      ensures imm ==> v == draws(old(pos) + 1) % 4096
    {
      var toss := CoinToss(IMMEDIATE_LIKELYHOOD);
      imm := toss;
      if toss {
        var r := RandU32();
        v := r % 4096;
        b := r % 4096 * BIT20 + IMM_BIT;
      } else {
        var r := GetVar(dbl);
        v := r;
        b := r * BIT20;
      }
    }

    /** op: draw the operation, then its operands, then push its results. */
    method Op(t: OpType, budget: nat) returns (ok: bool, left: nat, ghost s: Stmt)
      requires Ready()
      modifies `pos, `vars, `wide, `insns, `tooBig, `sizes
      ensures Ready() && (ok ==> left + Cost(t) == budget) && (!ok ==> left == budget)
      ensures Emitted(old(Now()), Now(), ok, s)
      ensures (ok <==> budget >= Cost(t)) && pos > old(pos) && (!ok ==> pos == old(pos) + 1)
      ensures ok ==> s.Prim? && (Clean() ==> Opcode(s.w) == GetOp(t, draws(old(pos))))
    {
      hide IsReg, Opcode, RegA, RegB, HasImm, OperandsOk, Marks, WellFormedStmt, FlatStmt, Word, GetOp;
      var r := RandU32();
      s := Prim(0);
      if budget < Cost(t) { return false, budget, s; }
      left := budget - Cost(t);
      ok := true;
      var a := GetVar(TakesDouble(t));
      ghost var imm, v;
      var b := 0;
      if t.Op11? {
        imm, v := false, 0;
      } else {
        b, imm, v := GetB(TakesDouble(t));
      }
      var w := Word(GetOp(t, r), a, b);
      s := Prim(w);
      if !wide {
        OpIsFine(t, r, a, imm, v, sizes);
      }
      Emit(w);
      PushResults(t);
      FlatPrim(w);
    }

    method PushResults(t: OpType)
      requires Ready()
      modifies `vars, `sizes
      ensures Ready() && sizes == Grow(old(sizes), Results(t))
    {
      hide Marks, IsReg;
      for i := 0 to Results(t)
        invariant Ready() && sizes == Grow(old(sizes), i)
      {
        MkVar();
      }
    }

    ghost function Now(): Progress
      reads `insns, `sizes, `tooBig, `wide
    {
      Progress(insns, sizes, Clean())
    }

    lemma NowIsClean()
      ensures Now().clean == Clean()
    {
    }

    method Input(budget: nat) returns (ok: bool, left: nat, ghost s: Stmt)
      requires Ready()
      modifies `pos, `vars, `insns, `tooBig, `sizes
      ensures Ready() && (ok ==> left + INPUT_COST == budget) && (!ok ==> left == budget)
      ensures Emitted(old(Now()), Now(), ok, s)
      ensures (ok <==> budget >= INPUT_COST) && (!ok ==> pos == old(pos))
      ensures ok ==> s == Prim(InWord(draws(old(pos))))
    {
      hide Marks, IsReg;
      s := Prim(0);
      if budget < INPUT_COST { return false, budget, s; }
      left, ok := budget - INPUT_COST, true;
      MkVar();
      var r := RandU32();
      InputIsFine(r, old(sizes));
      s := Prim(InWord(r));
      Emit(InWord(r));
    }

    /** An operation of the given type, if the coin says so and the budget allows it. */
    method MaybeOp(oneIn: nat, t: OpType, budget: nat) returns (ok: bool, left: nat, ghost s: Stmt)
      requires Ready() && oneIn > 0
      modifies `pos, `vars, `wide, `insns, `tooBig, `sizes
      ensures Ready() && (!ok ==> left == budget) && Emitted(old(Now()), Now(), ok, s)
      ensures !ok ==> Now() == old(Now())
      ensures ok <==> draws(old(pos)) % oneIn == 0 && budget >= Cost(t)
      ensures !ok ==> pos == old(pos) + if draws(old(pos)) % oneIn == 0 then 2 else 1
      ensures ok ==> s.Prim? && left + Cost(t) == budget
      ensures ok && Clean() ==> Opcode(s.w) == GetOp(t, draws(old(pos) + 1)) && Pay(s, budget) == Some(left)
    {
      hide Marks, IsReg, FlatStmt, WellFormedStmt, SizeStmt, Opcode, GetOp, Pay;
      ok, left, s := false, budget, Prim(0);
      var toss := CoinToss(oneIn);
      if toss {
        ok, left, s := Op(t, budget);
        if ok && Clean() { PayPrim(s.w, t, draws(old(pos) + 1), budget, left); }
      }
    }

    /** One turn of the inner loop of `body`: the dearest operation the coins and the budget allow. */
    method OneOp(max: nat, i: nat, budget: nat) returns (ok: bool, left: nat, ghost s: Stmt)
      requires Ready() && 1 <= i <= max
      modifies `pos, `vars, `wide, `insns, `tooBig, `sizes
      ensures Ready() && (ok ==> left < budget) && (!ok ==> left == budget)
      ensures Emitted(old(Now()), Now(), ok, s)
      ensures ok ==> s.Prim? && (Clean() ==> IsChosen(draws, old(pos), max, i, budget, s.w))
      ensures ok && Clean() ==> Pay(s, budget) == Some(left)
    {
      hide Ready, Emitted, InWord, GetOp, Opcode, Pay, Odds, IsCheap;
      ok, left, s := MaybeOp(Odds(4, max, i), Op44, budget);
      if ok { return; }
      ok, left, s := MaybeOp(Odds(3, max, i), Op42, left);
      if ok { return; }
      ok, left, s := MaybeOp(Odds(3, max, i), Op22, left);
      if ok { return; }
      ok, left, s := CheapOp(max, i, left);
    }

    /** The rest of the turn, once the dear operations are out. */
    method CheapOp(max: nat, i: nat, budget: nat) returns (ok: bool, left: nat, ghost s: Stmt)
      requires Ready() && 1 <= i <= max
      modifies `pos, `vars, `wide, `insns, `tooBig, `sizes
      ensures Ready() && (ok ==> left < budget) && (!ok ==> left == budget)
      ensures Emitted(old(Now()), Now(), ok, s)
      ensures ok ==> s.Prim? && (Clean() ==> IsCheap(draws, old(pos), max, i, budget, s.w))
      ensures ok && Clean() ==> Pay(s, budget) == Some(left)
    {
      hide Ready, Emitted, InWord, GetOp, Opcode, Pay, Odds;
      ok, left, s := MaybeOp(Odds(2, max, i), Op21, budget);
      if ok { return; }
      ok, left, s := MaybeInput(i, left);
      if ok { return; }
      ghost var p := pos;
      ok, left, s := Op(Op11, left);
      if ok && Clean() { PayPrim(s.w, Op11, draws(p), budget, left); }
    }

    method MaybeInput(oneIn: nat, budget: nat) returns (ok: bool, left: nat, ghost s: Stmt)
      requires Ready() && oneIn > 0
      modifies `pos, `vars, `insns, `tooBig, `sizes
      ensures Ready() && (!ok ==> left == budget) && Emitted(old(Now()), Now(), ok, s)
      ensures !ok ==> Now() == old(Now()) && pos == old(pos) + 1
      ensures ok <==> draws(old(pos)) % oneIn == 0 && budget >= INPUT_COST
      ensures ok ==> s == Prim(InWord(draws(old(pos) + 1))) && left + INPUT_COST == budget
      ensures ok ==> Pay(s, budget) == Some(left)
    {
      hide Marks, IsReg, FlatStmt, WellFormedStmt, SizeStmt;
      ok, left, s := false, budget, Prim(0);
      var toss := CoinToss(oneIn);
      if toss {
        ok, left, s := Input(budget);
        if ok { PayInput(draws(old(pos) + 1), budget, left); }
      }
    }

    /** branch: a test, two jumps to be patched once the distances are known, and two scopes. */
    method Branch(budget: nat) returns (ok: bool, left: nat, ghost s: Stmt)
      requires Ready() && budget <= INITIAL_BUDGET
      modifies `pos, `vars, `wide, `insns, `tooBig, `sizes, `scope
      ensures Ready() && (ok ==> left + BRANCH_COST == budget) && (!ok ==> left == budget)
      ensures Emitted(old(Now()), Now(), ok, s)
      ensures ok <==> budget >= BRANCH_COST
      ensures ok ==> s.If?
      ensures ok && Clean() ==> Opcode(s.w) == if draws(old(pos)) % 2 == 0 then OP_IF_RANDOM else OP_IF_LIKELY
      ensures ok && Clean() ==> Pay(s, budget) == Some(left)
      decreases budget, 0
    {
      hide Marks, IsReg, FlatStmt, WellFormed, WellFormedStmt, Opcode, RegA, Count, Flat, JumpOver, SizeBlock, Pay,
           PayAll;
      ok, left, s := false, budget, Prim(0);
      if budget < BRANCH_COST { return; }
      left, ok := budget - BRANCH_COST, true;
      var random := CoinToss(RANDOM_BRANCH_LIKELYHOOD);
      var op := if random then OP_IF_RANDOM else OP_IF_LIKELY;
      var a := GetVar(false);
      ghost var inScope := IsReg(sizes, a);
      var w := Word(op, a, 2 * BIT20);
      Emit(w);
      var j1 := |insns|;
      Emit(OP_JMP);
      ghost var thn, els;
      thn := Body(left * 7 / 32);
      var j2 := |insns|;
      Emit(OP_JMP);
      els := Body(left * 7 / 32);
      if Clean() {
        PatchJumps(j1, j2, old(insns), w, thn, els);
        BranchIsFine(op, a, thn, els, sizes);
        PayBranch(w, thn, els, budget);
      }
      s := If(w, thn, els);
    }

    /** Fill in the distances of a branch's two jumps. */
    method PatchJumps(j1: nat, j2: nat, ghost i0: seq<u32>, ghost w: u32, ghost thn: seq<Stmt>, ghost els: seq<Stmt>)
      requires insns == i0 + [w] + [OP_JMP] + (Flat(thn) + [OP_END]) + [OP_JMP] + (Flat(els) + [OP_END])
      requires j1 == |i0| + 1 && j2 == j1 + 2 + |Flat(thn)| && |insns| <= MAX_INSNS
      modifies `insns
      ensures |insns| == |old(insns)| && insns == i0 + FlatStmt(If(w, thn, els))
    {
      hide FlatStmt, Flat, Fair;
      Patched(i0, w, thn, els, insns, j1, j2);
      assert j2 - j1 < 0x80_0000 && |insns| - j2 < 0x80_0000;
      insns := insns[j1 := JmpWord(j2 - j1)][j2 := JmpWord(|insns| - j2 - 1)];
    }

    /** The memory instructions of a loop: one place in memory, read with differing carries. */
    method MemoryAccesses(count: nat, budget: nat) returns (left: nat, ghost mems: seq<u32>)
      requires Valid() && |sizes| > 0 && sizes[|sizes| - 1] == 0
      modifies `pos, `vars, `sizes, `insns, `tooBig
      ensures Valid() && left <= budget && sizes == old(sizes)[..|old(sizes)| - 1] + [|mems|]
      ensures |mems| <= count && (budget >= count * MEMORY_COST ==> |mems| == count)
      ensures left + MEMORY_COST * |mems| == budget && MemoryDrawn(draws, old(pos), count, budget, mems)
      ensures forall k :: 0 <= k < |mems| ==> Opcode(mems[k]) == OP_MEMORY
      ensures Clean() ==> old(Clean()) && insns == old(insns) + mems
    {
      hide Marks, IsReg, Opcode, WithCarry, MemTemplate;
      left, mems := budget, [];
      var r := RandU32();
      var template := MemTemplate(r);
      for i := 0 to count
        invariant Valid() && |mems| == i && left + i * MEMORY_COST == budget
        invariant sizes == old(sizes)[..|old(sizes)| - 1] + [i]
        invariant pos == old(pos) + 1 + i
        invariant forall k :: 0 <= k < i ==> Opcode(mems[k]) == OP_MEMORY && mems[k] == MemoryWord(draws, old(pos), k)
        invariant Clean() ==> old(Clean()) && insns == old(insns) + mems
      {
        if left < MEMORY_COST { break; }
        left := left - MEMORY_COST;
        MkVar();
        var carry := RandU32();
        MemoryOpcode(r, carry);
        Emit(WithCarry(template, carry));
        mems := mems + [WithCarry(template, carry)];
      }
    }

    /** loop: its cycles divide the budget; its memory instructions come first in its scope. */
    method Loop(budget: nat) returns (ret: bool, left: nat, ghost entered: bool, ghost s: Stmt)
      requires Valid() && budget <= INITIAL_BUDGET
      requires Ready() || (sizes == [] && budget == INITIAL_BUDGET)
      modifies `pos, `vars, `wide, `insns, `tooBig, `sizes, `scope
      ensures Valid() && !ret && left <= budget && LoopEmitted(old(Now()), Now(), entered, s)
      ensures old(sizes) == [] ==> entered
      ensures !entered ==> left == budget
      ensures entered <==> MEMORY_COST * LoopLength(draws, old(pos), old(scope)) <= budget
      ensures entered ==> LoopDrawn(draws, old(pos), old(scope), budget, s)
      ensures entered && Clean() ==> Pay(s, budget) == Some(left)
      decreases budget, 1
    {
      hide Marks, IsReg, LoopEmitted, Now, Count, Opcode, Pay, PayAll, LoopDrawn, MemoryDrawn, Word;
      ret, left, entered, s := false, budget, false, Prim(0);
      var loopLen := RandRange(2, LoopMaxCycles(scope));
      var numMemAcc := RandRange(2, 4);
      if budget < MEMORY_COST * loopLen {
        NotEntered(Now(), s);
        return;
      }
      entered := true;
      left := budget / loopLen;
      ShareBounds(budget, loopLen);
      ret, left, s := LoopScope(loopLen, numMemAcc, left, budget);
      LoopIsDrawn(draws, old(pos), old(scope), budget, s);
    }

    /** The loop's instruction, then its scope up to its END. */
    method LoopScope(loopLen: nat, numMemAcc: nat, budget: nat, ghost all: nat)
      returns (ret: bool, left: nat, ghost s: Stmt)
      requires Valid() && 2 <= loopLen < 2048 && all / loopLen == budget && 2 <= numMemAcc && budget <= INITIAL_BUDGET
      requires Ready() || (sizes == [] && budget >= numMemAcc * MEMORY_COST)
      modifies `pos, `vars, `wide, `insns, `tooBig, `sizes, `scope
      ensures Valid() && !ret && left <= budget && LoopEmitted(old(Now()), Now(), true, s)
      ensures s.Loop? && s.w == Word(OP_LOOP, 0, loopLen * BIT20)
      ensures MemoryDrawn(draws, old(pos), numMemAcc, budget, s.mems)
      ensures Clean() ==> Pay(s, all) == Some(left)
      decreases budget, 2
    {
      hide Marks, IsReg, FlatStmt, WellFormed, Opcode, Count, Flat, LoopOk, SizeBlock, Pay, PayAll, MemoryWord, Word,
           MemoryDrawn, LoopEmitted;
      var w := Word(OP_LOOP, 0, loopLen * BIT20);
      Emit(w);
      OpenScope();
      ghost var mems, body;
      left, mems := MemoryAccesses(numMemAcc, budget);
      ghost var rest := left;
      ret, left, body := Statements(left);
      End();
      s := Stmt.Loop(w, mems, body);
      LoopCount(loopLen);
      if Clean() {
        LoopIsFine(loopLen, mems, body, old(sizes));
        PayLoop(w, mems, body, all, budget, left);
      }
      LoopIsEmitted(old(Now()), Now(), s);
    }

    /** A body in a scope of its own. */
    method Body(budget: nat) returns (ghost b: seq<Stmt>)
      requires Ready() && budget <= INITIAL_BUDGET
      modifies `pos, `vars, `wide, `insns, `tooBig, `sizes, `scope
      ensures Ready() && sizes == old(sizes)
      ensures Clean() ==> old(Clean()) && insns == old(insns) + (Flat(b) + [OP_END]) && WellFormed(b, old(sizes) + [0])
      ensures Clean() ==> PayAll(b, budget).Some?
      decreases budget, 2
    {
      hide Marks, IsReg, Flat, WellFormed, SizeBlock, PayAll;
      OpenScope();
      var ret, left;
      ret, left, b := Statements(budget);
      End();
    }

    /** The inner loop of `body`: a basic block of up to `max` operations. */
    method BasicBlock(budget: nat, ghost p0: Progress, ghost b0: seq<Stmt>, ghost all: nat)
      returns (ok: bool, left: nat, ghost b: seq<Stmt>)
      requires Ready() && Extended(p0, Now(), b0) && Paid(Now(), b0, all, budget)
      modifies `pos, `vars, `wide, `insns, `tooBig, `sizes
      ensures Ready() && Extended(p0, Now(), b) && left <= budget && (ok ==> left + 2 <= budget)
      ensures Paid(Now(), b, all, left)
    {
      hide Ready, Extended, Emitted, Now, Paid, Pay, IsChosen;
      left, b, ok := budget, b0, true;
      var max := RandRange(2, 12);
      for i := 1 to max + 1
        invariant Ready() && Extended(p0, Now(), b) && left + (i - 1) <= budget && Paid(Now(), b, all, left)
      {
        ghost var p1, before := Now(), left;
        ghost var s;
        ok, left, s := OneOp(max, i, left);
        ExtendedBy(p0, p1, Now(), b, ok, s);
        CleanBefore(p1, Now(), ok, s);
        NowIsClean();
        PaidBy(p1, Now(), b, ok, s, all, before, left);
        b := Plus(b, ok, s);
        if !ok { return; }
      }
      ok := true;
    }

    /** The loop of `body`: basic blocks, branches and at most one inner loop, until the budget is spent. */
    method Statements(budget: nat) returns (ret: bool, left: nat, ghost b: seq<Stmt>)
      requires Ready() && budget <= INITIAL_BUDGET
      modifies `pos, `vars, `wide, `insns, `tooBig, `sizes, `scope
      ensures Ready() && !ret && left <= budget
      ensures Extended(old(Now()), Now(), b) && Paid(Now(), b, budget, left)
      decreases budget, 1
    {
      ret, left, b := false, budget, [];
      ghost var p0 := Now();
      ExtendedStart(p0);
      PaidStart(p0, budget);
      hide Ready, Extended, Emitted, ShouldBranch, ShouldLoop, Now, Paid, Pay, Opcode;
      while true
        invariant Ready() && !ret && left <= budget && Extended(p0, Now(), b) && Paid(Now(), b, budget, left)
        decreases left
      {
        if |insns| > MAX_INSNS { return; }
        var ok; ghost var s, p1, before;
        ok, left, b := BasicBlock(left, p0, b, budget);
        if !ok { return; }
        var r := RandU32();
        if ShouldBranch(r, |insns|) {
          p1, before := Now(), left;
          ok, left, s := Branch(left);
          ExtendedBy(p0, p1, Now(), b, ok, s);
          CleanBefore(p1, Now(), ok, s);
          NowIsClean();
          PaidBy(p1, Now(), b, ok, s, budget, before, left);
          b := Plus(b, ok, s);
          if !ok { return; }
        }
        r := RandU32();
        if ShouldLoop(r) {
          ghost var entered;
          p1, before := Now(), left;
          ok, left, entered, s := Loop(left);
          LoopStands(p0, p1, Now(), b, entered, s);
          ExtendedBy(p0, p1, Now(), b, entered, s);
          CleanBefore(p1, Now(), entered, s);
          NowIsClean();
          PaidBy(p1, Now(), b, entered, s, budget, before, left);
          b := Plus(b, entered, s);
          if !ok { return; }
        }
      }
    }

    /** RandGen_generate. */
    method Generate() returns (ret: int, ghost s: Stmt)
      requires Valid() && Clean() && insns == [] && sizes == []
      modifies this
      ensures |insns| <= MAX_INSNS && (tooBig <==> ret == TOO_BIG) && (!tooBig ==> ret == |insns|)
      ensures Clean() ==> WellFormedProgram(s) && insns == FlatStmt(s)
      ensures LoopDrawn(draws, old(pos), 0, INITIAL_BUDGET, s) && (Clean() ==> Pay(s, INITIAL_BUDGET).Some?)
    {
      hide Pay, LoopDrawn;
      var more, left; ghost var entered;
      more, left, entered, s := Loop(INITIAL_BUDGET);
      if Clean() { LoopIsProgram(s); }
      ret := if tooBig then TOO_BIG else |insns|;
    }
  }

  /** Memory instruction `k` of a loop whose draws for them begin at `p`: one template, a carry for each. */
  function MemoryWord(draws: nat -> u32, p: nat, k: nat): u32 {
    WithCarry(MemTemplate(draws(p)), draws(p + 1 + k))
  }

  /** As many memory instructions as were asked for, or as the budget pays for. */
  predicate MemoryDrawn(draws: nat -> u32, p: nat, count: nat, budget: nat, mems: seq<u32>) {
    && |mems| <= count && MEMORY_COST * |mems| <= budget
    && (|mems| < count ==> budget < MEMORY_COST * (|mems| + 1))
    && forall k :: 0 <= k < |mems| ==> mems[k] == MemoryWord(draws, p, k)
  }

  /** The cycles of a loop: at least two, and the more the deeper it is. */
  function LoopLength(draws: nat -> u32, p: nat, depth: nat): nat { draws(p) % (5 + 29 * depth) + 2 }

  /** What the draws from `p` on make of a loop: its cycles, two or three memory reads, and where they read. */
  predicate LoopDrawn(draws: nat -> u32, p: nat, depth: nat, budget: nat, s: Stmt) {
    && s.Loop? && s.w == Word(OP_LOOP, 0, LoopLength(draws, p, depth) * BIT20)
    && MemoryDrawn(draws, p + 2, draws(p + 1) % 2 + 2, budget / LoopLength(draws, p, depth), s.mems)
  }

  lemma LoopIsDrawn(draws: nat -> u32, p: nat, depth: nat, budget: nat, s: Stmt)
    requires s.Loop? && s.w == Word(OP_LOOP, 0, LoopLength(draws, p, depth) * BIT20)
    requires MemoryDrawn(draws, p + 2, draws(p + 1) % 2 + 2, budget / LoopLength(draws, p, depth), s.mems)
    ensures LoopDrawn(draws, p, depth, budget, s)
  {
    hide MemoryDrawn, LoopLength, Word;
  }

  lemma LoopCount(n: nat)
    requires 2 <= n < 2048
    ensures Count(Word(OP_LOOP, 0, n * BIT20)) == n
  {
    hide Word, Count;
    CountOfWord(OP_LOOP, 0, n);
  }

  /** A coin that is more and more likely to fall heads as a block goes on: once in `k` at its end. */
  function Odds(k: nat, max: nat, i: nat): (oneIn: nat)
    requires k >= 1 && 1 <= i <= max
    ensures oneIn > 0
  {
    MulMonotone(1, k, max);
    k * max / i
  }

  /**
   * Which instruction the draws from `p` on select, for turn `i` of `max`: a coin is tossed for each
   * kind in turn, from the dearest to the cheapest, and the next draw selects within the kind.  A kind
   * that the budget does not allow takes both of its draws all the same, but for the input.
   */
  predicate IsChosen(draws: nat -> u32, p: nat, max: nat, i: nat, budget: nat, w: u32)
    requires 1 <= i <= max
  {
    var heads44 := draws(p) % Odds(4, max, i) == 0;
    var p42 := if heads44 then p + 2 else p + 1;
    var heads42 := draws(p42) % Odds(3, max, i) == 0;
    var p22 := if heads42 then p42 + 2 else p42 + 1;
    var heads22 := draws(p22) % Odds(3, max, i) == 0;
    var p21 := if heads22 then p22 + 2 else p22 + 1;
    if heads44 && budget >= 16 then Opcode(w) == GetOp(Op44, draws(p + 1))
    else if heads42 && budget >= 8 then Opcode(w) == GetOp(Op42, draws(p42 + 1))
    else if heads22 && budget >= 4 then Opcode(w) == GetOp(Op22, draws(p22 + 1))
    else IsCheap(draws, p21, max, i, budget, w)
  }

  predicate IsCheap(draws: nat -> u32, p: nat, max: nat, i: nat, budget: nat, w: u32)
    requires 1 <= i <= max
  {
    var heads21 := draws(p) % Odds(2, max, i) == 0;
    var pin := if heads21 then p + 2 else p + 1;
    if heads21 && budget >= 2 then Opcode(w) == GetOp(Op21, draws(p + 1))
    else if draws(pin) % i == 0 && budget >= 2 then w == InWord(draws(pin + 1))
    else Opcode(w) == GetOp(Op11, draws(pin + 1))
  }

  /** A loop ready to stand where the scopes have sizes `sz`. */
  predicate LoopOk(s: Stmt, sz: seq<nat>) {
    && s.Loop? && Opcode(s.w) == OP_LOOP && 2 <= Count(s.w) < 2048
    && (forall i :: 0 <= i < |s.mems| ==> Opcode(s.mems[i]) == OP_MEMORY)
    && WellFormed(s.body, sz + [|s.mems|])
  }

  /** What a loop contributes; it leaves the scopes as they were. */
  ghost predicate LoopEmitted(p0: Progress, p: Progress, entered: bool, s: Stmt) {
    && p.sizes == p0.sizes && (p.clean ==> p0.clean)
    && (entered && p.clean ==> p.code == p0.code + FlatStmt(s) && LoopOk(s, p0.sizes))
    && (!entered ==> p == p0)
  }

  lemma LoopIsEmitted(p0: Progress, p: Progress, s: Stmt)
    requires p.sizes == p0.sizes
    requires p.clean ==> p0.clean && p.code == p0.code + FlatStmt(s) && LoopOk(s, p0.sizes)
    ensures LoopEmitted(p0, p, true, s)
  {
    hide FlatStmt, LoopOk;
  }

  lemma NotEntered(p: Progress, s: Stmt)
    ensures LoopEmitted(p, p, false, s)
  {
  }

  lemma LoopStands(p0: Progress, p1: Progress, p2: Progress, b: seq<Stmt>, entered: bool, s: Stmt)
    requires Extended(p0, p1, b) && LoopEmitted(p1, p2, entered, s)
    ensures Emitted(p1, p2, entered, s)
  {
    hide Flat, FlatStmt, WellFormed, SizeBlock, Count, Opcode;
  }

  lemma LoopIsProgram(s: Stmt)
    requires LoopOk(s, [])
    ensures WellFormedProgram(s)
  {
    assert [] + [|s.mems|] == [|s.mems|];
  }

  /** A loop that is entered leaves its memory instructions and a budget worth more than one each. */
  lemma ShareBounds(budget: nat, loopLen: nat)
    requires loopLen >= 2 && MEMORY_COST * loopLen <= budget <= INITIAL_BUDGET
    ensures MEMORY_COST <= budget / loopLen < budget && loopLen < 2048
    ensures budget == INITIAL_BUDGET && loopLen < 7 ==> budget / loopLen >= 3 * MEMORY_COST
  {
    var q := budget / loopLen;
    assert q * loopLen <= budget < (q + 1) * loopLen;
    ShareAtLeast(q, MEMORY_COST, loopLen, budget);
    MulMonotone(2, loopLen, q);
    if budget == INITIAL_BUDGET && loopLen < 7 {
      ShareAtLeast(q, 3 * MEMORY_COST, loopLen, budget);
    }
  }

  lemma ShareAtLeast(q: nat, m: nat, n: nat, budget: nat)
    requires m * n <= budget < (q + 1) * n
    ensures m <= q
  {
    if q < m {
      MulMonotone(q + 1, m, n);
    }
  }

  /** Patching the two jumps of a branch gives its flat code. */
  lemma Patched(i0: seq<u32>, w: u32, thn: seq<Stmt>, els: seq<Stmt>, i1: seq<u32>, j1: nat, j2: nat)
    requires i1 == i0 + [w] + [OP_JMP] + (Flat(thn) + [OP_END]) + [OP_JMP] + (Flat(els) + [OP_END])
    requires j1 == |i0| + 1 && j2 == j1 + 2 + |Flat(thn)| && |i1| <= MAX_INSNS
    ensures i1[j1 := JmpWord(j2 - j1)][j2 := JmpWord(|i1| - j2 - 1)] == i0 + FlatStmt(If(w, thn, els))
  {
    hide Flat, JmpWord;
    var f1, f2 := Flat(thn), Flat(els);
    assert j2 - j1 == |f1| + 2 && |i1| - j2 - 1 == |f2| + 1;
    PatchWords(i0, w, f1, f2, JmpWord(|f1| + 2), JmpWord(|f2| + 1));
  }

  lemma PatchWords(i0: seq<u32>, w: u32, f1: seq<u32>, f2: seq<u32>, d1: u32, d2: u32)
    ensures (i0 + [w] + [OP_JMP] + (f1 + [OP_END]) + [OP_JMP] + (f2 + [OP_END]))[|i0| + 1 := d1][|i0| + |f1| + 3 := d2]
         == i0 + ([w] + [d1] + f1 + [OP_END] + [d2] + f2 + [OP_END])
  {
  }

  lemma BranchIsFine(op: nat, a: nat, thn: seq<Stmt>, els: seq<Stmt>, sizes: seq<nat>)
    requires IsIf(op) && a < 512 && |sizes| > 0 && IsReg(sizes, a)
    requires WellFormed(thn, sizes + [0]) && WellFormed(els, sizes + [0])
    ensures WellFormedStmt(If(Word(op, a, 2 * BIT20), thn, els), sizes) && Opcode(Word(op, a, 2 * BIT20)) == op
  {
    hide IsReg, WellFormed, Word, Opcode, RegA, Count;
    WordFields(op, a, false, 2);
    CountOfWord(op, a, 2);
  }

  lemma MemoryOpcode(r: u32, carry: u32)
    ensures Opcode(WithCarry(MemTemplate(r), carry)) == OP_MEMORY
  {
    hide WithCarry;
  }

  lemma LoopIsFine(loopLen: nat, mems: seq<u32>, body: seq<Stmt>, sz: seq<nat>)
    requires 2 <= loopLen < 2048 && WellFormed(body, sz + [|mems|])
    requires forall i :: 0 <= i < |mems| ==> Opcode(mems[i]) == OP_MEMORY
    ensures var s := Loop(Word(OP_LOOP, 0, loopLen * BIT20), mems, body);
            && LoopOk(s, sz) && (|sz| > 0 ==> WellFormedStmt(s, sz))
            && FlatStmt(s) == [s.w] + mems + Flat(body) + [OP_END]
  {
    hide WellFormed, Word, Opcode, Count, Flat;
    WordFields(OP_LOOP, 0, false, loopLen);
    CountOfWord(OP_LOOP, 0, loopLen);
  }

  /** How far a run of the generator has come: its code, its scopes, and whether it is still accepted. */
  datatype Progress = Progress(code: seq<u32>, sizes: seq<nat>, clean: bool)

  /** What a generating step contributes, unless the program is rejected on the way. */
  ghost predicate Emitted(p0: Progress, p: Progress, ok: bool, s: Stmt) {
    && Grown(p0.sizes, p.sizes) && (p.clean ==> p0.clean)
    && (ok && p.clean ==>
          p.code == p0.code + FlatStmt(s) && WellFormedStmt(s, p0.sizes) && p.sizes == SizeStmt(s, p0.sizes))
    && (!ok ==> p == p0)
  }

  /** The same for a block of statements. */
  ghost predicate Extended(p0: Progress, p: Progress, b: seq<Stmt>) {
    && Grown(p0.sizes, p.sizes) && (p.clean ==> p0.clean)
    && (p.clean ==> p.code == p0.code + Flat(b) && WellFormed(b, p0.sizes) && p.sizes == SizeBlock(b, p0.sizes))
  }

  function Plus(b: seq<Stmt>, ok: bool, s: Stmt): seq<Stmt> {
    if ok then b + [s] else b
  }

  lemma ExtendedBy(p0: Progress, p1: Progress, p2: Progress, b: seq<Stmt>, ok: bool, s: Stmt)
    requires Extended(p0, p1, b) && Emitted(p1, p2, ok, s)
    ensures Extended(p0, p2, Plus(b, ok, s))
  {
    hide Flat, FlatStmt, WellFormed, WellFormedStmt, SizeStmt, SizeBlock;
    if ok && p2.clean {
      Snoc(b, s, p0.sizes);
      assert p0.code + (Flat(b) + FlatStmt(s)) == p0.code + Flat(b) + FlatStmt(s);
    }
  }

  lemma CleanBefore(p1: Progress, p2: Progress, ok: bool, s: Stmt)
    requires Emitted(p1, p2, ok, s)
    ensures p2.clean ==> p1.clean
  {
    hide FlatStmt, WellFormedStmt, SizeStmt, Grown;
  }

  lemma ExtendedStart(p: Progress)
    requires |p.sizes| > 0
    ensures Extended(p, p, [])
  {
  }

  /** Code grows only the innermost scope. */
  ghost predicate Grown(sz0: seq<nat>, sz: seq<nat>) {
    && |sz| == |sz0| > 0 && sz[..|sz| - 1] == sz0[..|sz| - 1] && sz[|sz| - 1] >= sz0[|sz| - 1]
  }

  lemma InOpcode(r: u32)
    ensures Opcode(InWord(r)) == OP_IN
  {
  }

  lemma InputIsFine(r: u32, sizes: seq<nat>)
    requires |sizes| > 0
    ensures WellFormedStmt(Prim(InWord(r)), sizes) && SizeStmt(Prim(InWord(r)), sizes) == Grow(sizes, 1)
    ensures FlatStmt(Prim(InWord(r))) == [InWord(r)]
  {
    InOpcode(r);
    hide InWord, Opcode, OperandsOk;
  }

  lemma FlatPrim(w: u32)
    ensures FlatStmt(Prim(w)) == [w]
  {
  }

  lemma OpIsFine(t: OpType, r: u32, a: nat, imm: bool, v: nat, sizes: seq<nat>)
    requires |sizes| > 0 && a < 512 && (if imm then v < 4096 else v < 512)
    requires IsReg(sizes, a) && (TakesDouble(t) ==> IsReg(sizes, a - 1))
    requires !imm && !t.Op11? ==> IsReg(sizes, v) && (TakesDouble(t) ==> IsReg(sizes, v - 1))
    requires t.Op11? ==> !imm && v == 0
    ensures var w := Word(GetOp(t, r), a, (if imm then IMM_BIT else 0) + v * BIT20);
            && WellFormedStmt(Prim(w), sizes) && SizeStmt(Prim(w), sizes) == Grow(sizes, Results(t))
            && Opcode(w) == GetOp(t, r)
  {
    hide IsReg, Opcode, RegA, RegB, HasImm, Word;
    WordFields(GetOp(t, r), a, imm, v);
  }

  lemma FirstFrame(vars: seq<u32>, sizes: seq<nat>)
    requires Marks(vars, sizes) && |sizes| > 0 && sizes[0] >= 2
    ensures |vars| >= 3 && vars[0] == MARK && vars[1] != MARK && vars[2] != MARK
  {
    BottomRegs(sizes);
  }

  lemma {:induction false} BottomRegs(sizes: seq<nat>)
    requires |sizes| > 0 && sizes[0] >= 2
    ensures Sum(sizes) >= 3 && !IsReg(sizes, 0) && IsReg(sizes, 1) && IsReg(sizes, 2)
  {
    if |sizes| > 1 {
      BottomRegs(sizes[..|sizes| - 1]);
    }
  }
}
