/**
 * Making an item of an announcement's table (Announce_createProg, Announce_mkitem2): the program of a
 * seed runs on a state expanded from another seed, and what it leaves is encrypted.  This is the item
 * that the announcement theorems speak of.
 */
module AnnItem {
  import opened Words
  import opened CycleState
  import opened CryptoCycle
  import opened CycleMining
  import opened RandProgram
  import opened RandHash
  import opened RandMeaning
  import opened AnnProgram
  import opened Work
  import A = Announce

  // ---------- the state as 512 integers ----------

  /** Four bytes read as a little-endian integer, and written. */
  function ReadInt(s: seq<byte>): u32
    requires |s| == 4
  {
    hide Value;
    Value(s[0]) + 0x100 * Value(s[1]) + 0x1_0000 * Value(s[2]) + 0x100_0000 * Value(s[3])
  }

  function Octet(n: nat): byte { (n % 0x100) as byte }

  function WriteInt(x: u32): (s: seq<byte>)
    ensures |s| == 4
  {
    [Octet(x), Octet(x / 0x100), Octet(x / 0x100 / 0x100), Octet(x / 0x100 / 0x100 / 0x100)]
  }

  lemma ByteValue(k: nat)
    requires k < 0x100
    ensures Value(k as byte) == k
  {
  }

  lemma OctetValue(n: nat)
    ensures Value(Octet(n)) == n % 0x100
  {
    hide Value;
    ByteValue(n % 0x100);
  }

  lemma LastDigit(x: nat)
    ensures x == x % 0x100 + 0x100 * (x / 0x100)
  {
  }

  /** What is written reads back. */
  lemma ReadWritten(x: u32)
    ensures ReadInt(WriteInt(x)) == x
  {
    hide Octet, Value;
    var q1 := x / 0x100;
    var q2 := q1 / 0x100;
    var q3 := q2 / 0x100;
    OctetValue(x);
    OctetValue(q1);
    OctetValue(q2);
    OctetValue(q3);
    LastDigit(x);
    LastDigit(q1);
    LastDigit(q2);
    assert q3 % 0x100 == q3;
  }

  const HALF: nat := 1024

  /** Half a state as the 256 integers that the interpreter reads and writes. */
  function Ints(s: seq<byte>): (r: seq<u32>)
    requires |s| == HALF
    ensures |r| == INOUT_SZ
  {
    seq(INOUT_SZ, i requires 0 <= i < INOUT_SZ => ReadInt(s[4 * i..4 * i + 4]))
  }

  function Octets(r: seq<u32>): (s: seq<byte>)
    requires |r| == INOUT_SZ
    ensures |s| == HALF
  {
    seq(HALF, j requires 0 <= j < HALF => WriteInt(r[j / 4])[j % 4])
  }

  lemma IntsOfOctets(r: seq<u32>)
    requires |r| == INOUT_SZ
    ensures Ints(Octets(r)) == r
  {
    hide ReadInt, WriteInt;
    forall i | 0 <= i < INOUT_SZ ensures Ints(Octets(r))[i] == r[i] {
      assert Octets(r)[4 * i..4 * i + 4] == WriteInt(r[i]);
      ReadWritten(r[i]);
    }
  }

  // ---------- programs and items ----------

  /** What createProg leaves behind: a program, over a buffer that was filled before. */
  datatype Program = Program(code: Stmt, filler: seq<u32>)

  ghost predicate ProgramOk(p: Program) {
    WellFormedProgram(p.code) && |FlatStmt(p.code)| <= MAX_INSNS && |p.filler| == PROGBUF_SZ
  }

  /** The program buffer. */
  function ProgBuf(p: Program): (r: seq<u32>)
    requires |FlatStmt(p.code)| <= |p.filler|
    ensures |r| == |p.filler|
  {
    FlatStmt(p.code) + p.filler[|FlatStmt(p.code)|..]
  }

  lemma BufFits(p: Program)
    requires ProgramOk(p)
    ensures |FlatStmt(p.code)| <= |p.filler| == PROGBUF_SZ && p.code.Loop?
  {
    hide FlatStmt, WellFormed;
  }

  lemma {:induction false} CyclesKeepSize(e: Env, s: Stmt, hashOut: seq<u32>, loopCycle: nat, n: nat)
    requires s.Loop? && |e.hashIn| == |hashOut| == INOUT_SZ
    ensures var r := EvalCycles(e, s, hashOut, loopCycle, n);
            r.Some? ==> |r.value.0| == |r.value.1| == INOUT_SZ
    decreases n
  {
    hide EvalProgram;
    if n > 0 {
      var r := EvalProgram(e, s, State([], loopCycle, hashOut, 0, 0));
      CyclesKeepSize(e.(hashIn := r.hashOut), s, e.hashIn, r.loopCycle, n - 1);
    }
  }

  /** The hash state after two runs of the program; None if it takes too many operations. */
  ghost function Hashed(alu: Alu, p: Program, start: Full, num: u64): Option<Full>
    requires ProgramOk(p)
  {
    BufFits(p);
    var e := Env(MemoryAt(ProgBuf(p), num), Ints(start[..HALF]), alu);
    CyclesKeepSize(e, p.code, Ints(start[HALF..]), 0, 2);
    match EvalCycles(e, p.code, Ints(start[HALF..]), 0, 2)
    case None => None
    case Some((hashIn, hashOut)) => Some(Octets(hashIn) + Octets(hashOut))
  }

  function NumWord(num: u64): bv64 { num as bv64 }

  /** The item: the state is made fuzzable and encrypted, and its first half is the item. */
  ghost function ItemOf(l: Library, alu: Alu, p: Program, seed: seq<byte>, num: u64): Option<Item>
    requires ProgramOk(p)
  {
    match Hashed(alu, p, Init0(l, seed, NumWord(num)), num)
    case None => None
    case Some(state) => Some(Crypt(l, MakeFuzzable(state), true)[..ITEM_SZ])
  }

  /**
   * The program reads a window of its own buffer, at a place the item's number chooses.  It runs from
   * the first half of the state into the second, and then from the second into the first.
   */
  lemma HashedSpelledOut(alu: Alu, p: Program, start: Full, num: u64)
    requires ProgramOk(p)
    ensures |FlatStmt(p.code)| <= |p.filler| == 2048 && p.code.Loop?
    ensures var at := num % 1792;
            var e := Env(ProgBuf(p)[at..at + 256], Ints(start[..1024]), alu);
            var r1 := EvalProgram(e, p.code, State([], 0, Ints(start[1024..]), 0, 0));
            var r2 := EvalProgram(e.(hashIn := r1.hashOut), p.code, State([], r1.loopCycle, e.hashIn, 0, 0));
            Hashed(alu, p, start, num)
            == if r1.opCtr > 20000 || r2.opCtr > 20000 then None else Some(Octets(r2.hashOut) + Octets(r1.hashOut))
  {
    BufFits(p);
    var at := num % 1792;
    assert MemoryAt(ProgBuf(p), num) == ProgBuf(p)[at..at + 256];
    hide EvalProgram, EvalCycles, FlatStmt, WellFormedProgram, ProgramOk, Ints, Octets, MemoryAt, ProgBuf;
    TwoRuns(Env(ProgBuf(p)[at..at + 256], Ints(start[..1024]), alu), p.code, Ints(start[1024..]));
  }

  /** Integer `i` of half a state is its bytes from `4 * i` on, the least significant first. */
  lemma IntsAreLittleEndian(s: seq<byte>, i: nat)
    requires |s| == HALF && i < 256
    ensures Ints(s)[i] == HashValue(s[4 * i..4 * i + 4])
  {
    hide Value;
    var b := s[4 * i..4 * i + 4];
    assert Ints(s)[i] == ReadInt(b);
    FourBytes(b);
  }

  lemma FourBytes(b: seq<byte>)
    requires |b| == 4
    ensures HashValue(b) == ReadInt(b)
  {
    hide Value;
    assert b[1..][1..] == b[2..] && b[2..][1..] == b[3..] && b[3..][1..] == [];
    assert HashValue(b[3..]) == Value(b[3]);
    assert HashValue(b[2..]) == Value(b[2]) + 0x100 * HashValue(b[3..]);
    assert HashValue(b[1..]) == Value(b[1]) + 0x100 * HashValue(b[2..]);
  }

  /** RandHash_interpret on the two halves of a state. */
  method RunOn(prog: Interpreter, state: array<byte>, num: u64, ghost p: Program) returns (ok: bool)
    requires state.Length == STATE_SZ && ProgramOk(p)
    requires prog.progbuf == ProgBuf(p) && prog.progLen == |FlatStmt(p.code)|
    modifies prog, state
    ensures var h := Hashed(prog.alu, p, old(state[..]), num);
            (ok <==> h.Some?) && (ok ==> state[..] == h.value)
  {
    assert HALF + HALF == STATE_SZ;
    ghost var start: Full := state[..];
    assert start[..HALF] == state[..HALF] && start[HALF..] == state[HALF..];
    BufFits(p);
    assert prog.progbuf[..prog.progLen] == FlatStmt(p.code);
    hide FlatStmt, WellFormedProgram, ReadInt, WriteInt, EvalCycles, MemoryAt;
    var input, output := Ints(state[..HALF]), Ints(state[HALF..]);
    CyclesKeepSize(Env(MemoryAt(ProgBuf(p), num), input, prog.alu), p.code, output, 0, 2);
    var ret := prog.RandHashInterpret(num, input, output, 2, p.code);
    if ret != 0 { return false; }
    var hashed := Octets(prog.hashIn) + Octets(prog.hashOut);
    Put(state, 0, hashed);
    assert state[..] == hashed;
    ok := true;
  }

  /** Announce_mkitem2 with a program that has been made; its assertion never fails. */
  method MkItem2(l: Library, prog: Interpreter, seed: seq<byte>, num: u64, ghost p: Program)
    returns (item: Option<Item>)
    requires ProgramOk(p) && prog.progbuf == ProgBuf(p) && prog.progLen == |FlatStmt(p.code)|
    modifies prog
    ensures item == ItemOf(l, prog.alu, p, seed, num)
  {
    assert STATE_SZ == 2048 && ITEM_SZ == 1024;
    hide *;
    var state := new byte[STATE_SZ];
    Init0InPlace(l, state, seed, NumWord(num));
    ItemIs(l, prog.alu, p, seed, num);
    var ok := RunOn(prog, state, num, p);
    if !ok { return None; }
    ghost var hashed: Full := state[..];
    MakeFuzzableAt(state);
    CryptInPlace(l, state, true);
    FuzzableNeverFails(l, hashed, true);
    assert !IsFailed(Data(state[..]));
    assert state[..][..ITEM_SZ] == state[..ITEM_SZ];
    item := Some(state[..ITEM_SZ]);
  }

  lemma ItemIs(l: Library, alu: Alu, p: Program, seed: seq<byte>, num: u64)
    requires ProgramOk(p)
    ensures var h := Hashed(alu, p, Init0(l, seed, NumWord(num)), num);
            && (h.None? ==> ItemOf(l, alu, p, seed, num) == None)
            && (h.Some? ==> ItemOf(l, alu, p, seed, num) == Some(Crypt(l, MakeFuzzable(h.value), true)[..ITEM_SZ]))
  {
    hide ProgramOk, Hashed, Init0, NumWord, Crypt, MakeFuzzable;
  }

  /** Both steps: whatever the draws, if the program is made, the item is that of a well-formed program. */
  method MakeItem(l: Library, filler: seq<u32>, draws: nat -> u32, alu: Alu, seed: seq<byte>, num: u64)
    returns (made: int, wide: bool, ghost p: Program, item: Option<Item>)
    requires |filler| == PROGBUF_SZ && RandGen.Fair(draws)
    ensures made == 0 || made == RandGen.TOO_BIG
    ensures made == 0 && !wide ==> p.filler == filler && ProgramOk(p) && item == ItemOf(l, alu, p, seed, num)
  {
    var prog;
    ghost var s;
    item := None;
    made, prog, wide, s := CreateProg(filler, draws, alu);
    p := Program(s, filler);
    if made == 0 && !wide {
      hide WellFormedProgram, FlatStmt, ItemOf;
      item := MkItem2(l, prog, seed, num, p);
    }
  }

  // ---------- in announcements ----------

  /** The programs of all seeds, as createProg makes them; None for a seed whose program is rejected. */
  type Programs = seq<byte> -> Option<Program>

  ghost predicate ProgramsOk(programs: Programs) {
    forall seed :: programs(seed).Some? ==> ProgramOk(programs(seed).value)
  }

  ghost function MadeBy(l: Library, alu: Alu, programs: Programs, progSeed: seq<byte>, seed: seq<byte>,
                        n: nat): Option<Item>
    requires ProgramsOk(programs)
  {
    if programs(progSeed).None? then None else ItemOf(l, alu, programs(progSeed).value, seed, n % 0x1_0000_0000)
  }

  /** The items of an announcement library are those that the programs make. */
  ghost predicate MadeByPrograms(lib: A.AnnLibrary, alu: Alu, programs: Programs) {
    && ProgramsOk(programs)
    && forall progSeed, seed, n :: lib.makeItem(progSeed, seed, n) == MadeBy(lib.cc, alu, programs, progSeed, seed, n)
  }

  /** A table of such a library is there exactly if its seed has a program, and holds that program's items. */
  lemma TableOfPrograms(lib: A.AnnLibrary, alu: Alu, programs: Programs, seed: Block, table: seq<Item>)
    requires MadeByPrograms(lib, alu, programs)
    ensures A.TableOf(lib, seed, table) <==>
              && |table| == TABLE_SZ && programs(seed[..32]).Some?
              && forall i :: 0 <= i < TABLE_SZ ==>
                   ItemOf(lib.cc, alu, programs(seed[..32]).value, seed[32..], i) == Some(table[i])
  {
    hide ItemOf, ProgramOk;
    assert forall i :: 0 <= i < TABLE_SZ ==>
      lib.makeItem(seed[..32], seed[32..], i) == MadeBy(lib.cc, alu, programs, seed[..32], seed[32..], i);
    if A.TableOf(lib, seed, table) {
      assert lib.makeItem(seed[..32], seed[32..], 0) == Some(table[0]);
    }
  }

  /**
   * So the announcements mined over tables that the programs of their seeds made are accepted: by a
   * validator that makes one item at a time from the same programs.
   */
  lemma MinedFromProgramsValidate(lib: A.AnnLibrary, alu: Alu, programs: Programs, h: A.Hdr, parent: seq<byte>,
                                  table0: seq<Item>, table1: seq<Item>, n: u32, stale: Item)
    requires MadeByPrograms(lib, alu, programs) && A.ZeroSoft(h) == h && h.version > 0
    requires |table0| == |table1| == TABLE_SZ && A.TargetUsable(h.workBits) && A.InRange(n, h.workBits)
    requires var annHash0 := A.FirstHash(lib, h, parent);
             && ItemsOf(lib, alu, programs, annHash0, table0)
             && ItemsOf(lib, alu, programs, A.SecondSeed(lib, A.TableRoot(lib, table0), annHash0), table1)
    requires A.WorkOk(A.MinedState(lib, h, A.TableRoot(lib, table0), table1, n), h.workBits)
    ensures A.CheckAnn(lib, A.MinedAnn(lib, h, table0, table1, n), parent, stale) == Some(A.OK)
  {
    hide *;
    HalfOfState();
    var annHash0 := A.FirstHash(lib, h, parent);
    ItemsAreTable(lib, alu, programs, annHash0, table0);
    ItemsAreTable(lib, alu, programs, A.SecondSeed(lib, A.TableRoot(lib, table0), annHash0), table1);
    JobFromTables(lib, h, parent, table0, table1);
    A.UsableTarget(h.workBits, A.MinedState(lib, h, A.TableRoot(lib, table0), table1, n)[..32]);
    A.MinedAnnouncementsValidate(lib, h, parent, table0, table1, n, stale);
  }

  lemma HalfOfState()
    ensures ITEM_SZ == 1024 && STATE_SZ == 2048
  {
  }

  /** The table that the program of a seed makes. */
  ghost predicate ItemsOf(lib: A.AnnLibrary, alu: Alu, programs: Programs, seed: Block, table: seq<Item>)
    requires MadeByPrograms(lib, alu, programs) && |table| == TABLE_SZ
  {
    && programs(seed[..32]).Some?
    && forall i :: 0 <= i < TABLE_SZ ==>
         ItemOf(lib.cc, alu, programs(seed[..32]).value, seed[32..], i) == Some(table[i])
  }

  lemma ItemsAreTable(lib: A.AnnLibrary, alu: Alu, programs: Programs, seed: Block, table: seq<Item>)
    requires MadeByPrograms(lib, alu, programs) && |table| == TABLE_SZ && ItemsOf(lib, alu, programs, seed, table)
    ensures A.TableOf(lib, seed, table)
  {
    hide ItemOf, MadeByPrograms, A.TableOf;
    TableOfPrograms(lib, alu, programs, seed, table);
  }

  lemma JobFromTables(lib: A.AnnLibrary, h: A.Hdr, parent: seq<byte>, table0: seq<Item>, table1: seq<Item>)
    requires A.ZeroSoft(h) == h && h.version > 0 && |table0| == TABLE_SZ
    requires A.TableOf(lib, A.FirstHash(lib, h, parent), table0)
    requires A.TableOf(lib, A.SecondSeed(lib, A.TableRoot(lib, table0), A.FirstHash(lib, h, parent)), table1)
    ensures A.JobOk(lib, h, parent, table0, table1)
  {
    hide A.TableOf, A.FirstHash, A.SecondSeed, A.TableRoot, A.ZeroSoft;
  }
}
