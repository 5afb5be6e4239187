/**
 * Making and running an announcement's random program (Announce.c): what the generator accepts,
 * the interpreter runs without ever going wrong.
 */
module AnnProgram {
  import opened Words
  import opened RandProgram
  import RandGen
  import opened RandHash

  /** Announce_createProg: fill the program buffer and generate over the start of it. */
  method CreateProg(filler: seq<u32>, draws: nat -> u32, alu: Alu)
    returns (ret: int, prog: Interpreter, wide: bool, ghost s: Stmt)
    requires |filler| == PROGBUF_SZ && RandGen.Fair(draws)
    ensures fresh(prog) && prog.alu == alu && (ret == 0 || ret == RandGen.TOO_BIG)
    ensures ret == 0 && !wide ==>
              && WellFormedProgram(s) && |FlatStmt(s)| <= MAX_INSNS
              && prog.progbuf == FlatStmt(s) + filler[|FlatStmt(s)|..] && prog.progLen == |FlatStmt(s)|
  {
    var g := new RandGen.Generator(draws);
    ret, s := g.Generate();
    hide WellFormedProgram, FlatStmt;
    prog := new Interpreter(g.insns + filler[|g.insns|..], |g.insns|, alu);
    wide := g.wide;
    if ret >= 0 { ret := 0; }
  }

  /**
   * Announce_mkitem2 up to the interpreter's verdict: whatever the draws, the memory and the hash
   * state, an accepted program runs to the end or to the operation limit, and its result is that of
   * the structured program it was generated from.
   */
  method RunItem(filler: seq<u32>, draws: nat -> u32, alu: Alu, num: u64, input: seq<u32>, output: seq<u32>)
    returns (made: int, ret: int, wide: bool, ghost s: Stmt, prog: Interpreter)
    requires |filler| == PROGBUF_SZ && RandGen.Fair(draws) && |input| == |output| == INOUT_SZ
    ensures made == 0 || made == RandGen.TOO_BIG
    ensures made == 0 && !wide ==>
              && WellFormedProgram(s) && |FlatStmt(s)| <= MAX_INSNS
              && var e := Env(MemoryAt(FlatStmt(s) + filler[|FlatStmt(s)|..], num), input, alu);
                 match EvalCycles(e, s, output, 0, 2)
                 case Some(h) => ret == 0 && prog.hashIn == h.0 && prog.hashOut == h.1
                 case None => ret == TOO_LONG
  {
    made, prog, wide, s := CreateProg(filler, draws, alu);
    ret := 0;
    if made == 0 && !wide {
      assert prog.progbuf[..prog.progLen] == FlatStmt(s);
      hide WellFormedProgram, FlatStmt, EvalCycles, MemoryAt;
      ret := prog.RandHashInterpret(num, input, output, 2, s);
    }
  }
}
