/**
 * The 1024-byte announcement (PacketCrypt.h, Announce.h) and its validation (Validate_checkAnn).
 */
module Announce {
  import opened Words
  import opened CycleState
  import opened CryptoCycle
  import opened CycleMining
  import opened LaneMining
  import opened AnnMerkle
  import opened Difficulty
  import opened Work

  const MERKLE_DEPTH: nat := 13
  const PROOF_SZ: nat := 896
  const CRYPTED_SZ: nat := 832
  const PFX_SZ: nat := 40

  type u24 = x: int | 0 <= x < 0x100_0000
  type ProofBytes = s: seq<byte> | |s| == PROOF_SZ witness Zeros(PROOF_SZ)
  type Prefix = s: seq<byte> | |s| == PFX_SZ witness Zeros(PFX_SZ)

  /** PacketCrypt_AnnounceHdr_t; `rest` is the content description and the signing key. */
  datatype Hdr = Hdr(version: u8, softNonce: u24, hardNonce: u32, workBits: u32, parentBlockHeight: u32,
                     rest: seq<byte>)

  /** PacketCrypt_Announce_t: the header, 14 hashes of Merkle proof, and the last item's prefix. */
  datatype Ann = Ann(hdr: Hdr, proof: ProofBytes, pfx: Prefix)

  /**
   * The library functions an announcement uses; `layout` gives the 88 bytes of a header, and
   * `makeItem(p, i, n)` is item `n` under item seed `i` from the program of seed `p`, if that program
   * can be made and run.
   */
  datatype AnnLibrary = AnnLibrary(
    cc: Library,
    h64: Hash64,
    layout: Hdr -> seq<byte>,
    makeItem: (seq<byte>, seq<byte>, nat) -> Option<Item>)

  function ZeroSoft(h: Hdr): Hdr { h.(softNonce := 0) }

  /** The low three bytes of a nonce are kept. */
  function WithSoft(h: Hdr, n: u32): Hdr { h.(softNonce := n % 0x100_0000) }

  // ---------- the Merkle proof and its encryption ----------

  /** Block `i` of the Merkle proof. */
  function ProofBlock(a: Ann, i: nat): Block
    requires i <= MERKLE_DEPTH
  {
    a.proof[64 * i..64 * i + 64]
  }

  function ProofBlocks(a: Ann): (b: seq<Block>)
    ensures |b| == MERKLE_DEPTH + 1
  {
    seq(MERKLE_DEPTH + 1, i requires 0 <= i <= MERKLE_DEPTH => ProofBlock(a, i))
  }

  function Join(b: seq<Block>): (s: seq<byte>)
    ensures |s| == 64 * |b|
  {
    seq(64 * |b|, i requires 0 <= i < 64 * |b| => b[i / 64][i % 64])
  }

  function XorBytes(s: seq<byte>, key: seq<byte>): (r: seq<byte>)
    requires |key| <= |s|
    ensures |r| == |s|
  {
    seq(|s|, i requires 0 <= i < |s| => if i < |key| then s[i] ^ key[i] else s[i])
  }

  /** Announce_crypt: the state is laid over the proof except its root, and then over the prefix. */
  function CryptAnn(a: Ann, s: Full): Ann
  {
    a.(proof := XorBytes(a.proof, s[..CRYPTED_SZ]), pfx := XorBytes(a.pfx, s[CRYPTED_SZ..CRYPTED_SZ + PFX_SZ]))
  }

  lemma XorTwice(s: seq<byte>, key: seq<byte>)
    requires |key| <= |s|
    ensures XorBytes(XorBytes(s, key), key) == s
  {
    var t := XorBytes(XorBytes(s, key), key);
    forall i | 0 <= i < |s| ensures t[i] == s[i] {
    }
  }

  lemma CryptTwice(a: Ann, s: Full)
    ensures CryptAnn(CryptAnn(a, s), s) == a
  {
    XorTwice(a.proof, s[..CRYPTED_SZ]);
    XorTwice(a.pfx, s[CRYPTED_SZ..CRYPTED_SZ + PFX_SZ]);
    hide XorBytes;
  }

  /** The header and the root stay readable. */
  lemma CryptKeeps(a: Ann, s: Full)
    ensures CryptAnn(a, s).hdr == a.hdr && ProofBlock(CryptAnn(a, s), MERKLE_DEPTH) == ProofBlock(a, MERKLE_DEPTH)
  {
  }

  /** Announce_crypt in place on the two buffers, eight bytes at a time. */
  method AnnCrypt(proof: array<byte>, pfx: array<byte>, state: Full)
    requires proof.Length == PROOF_SZ && pfx.Length == PFX_SZ && proof != pfx
    modifies proof, pfx
    ensures proof[..] == XorBytes(old(proof[..]), state[..CRYPTED_SZ])
    ensures pfx[..] == XorBytes(old(pfx[..]), state[CRYPTED_SZ..CRYPTED_SZ + PFX_SZ])
  {
    var j := XorLongs(proof, PROOF_SZ / 8 - 8, state, 0);
    ghost var done := proof[..];
    j := XorLongs(pfx, PFX_SZ / 8, state, j);
    assert proof[..] == done;
  }

  /** One of the two loops: `count` longs of the buffer, from long `j` of the state on. */
  method XorLongs(buf: array<byte>, count: nat, state: Full, j0: nat) returns (j: nat)
    requires 8 * count <= buf.Length && 8 * (j0 + count) <= STATE_SZ
    modifies buf
    ensures j == j0 + count
    ensures buf[..] == XorBytes(old(buf[..]), state[8 * j0..8 * (j0 + count)])
  {
    j := j0;
    for i := 0 to count
      invariant j == j0 + i
      invariant forall k :: 0 <= k < buf.Length ==>
                  buf[k] == if k < 8 * i then old(buf[k]) ^ state[8 * j0 + k] else old(buf[k])
    {
      XorLong(buf, 8 * i, state, 8 * j);
      j := j + 1;
    }
  }

  method XorLong(buf: array<byte>, at: nat, state: seq<byte>, from: nat)
    requires at + 8 <= buf.Length && from + 8 <= |state|
    modifies buf
    ensures forall k :: 0 <= k < buf.Length ==>
              buf[k] == if at <= k < at + 8 then old(buf[k]) ^ state[from + (k - at)] else old(buf[k])
  {
    for b := 0 to 8
      invariant forall k :: 0 <= k < buf.Length ==>
                  buf[k] == if at <= k < at + b then old(buf[k]) ^ state[from + (k - at)] else old(buf[k])
    {
      buf[at + b] := buf[at + b] ^ state[from + b];
    }
  }

  // ---------- validation ----------

  const OK: int := 0
  const INVAL: int := 1
  const INVAL_ITEM4: int := 2
  const INSUF_POW: int := 3
  const SOFT_NONCE_HIGH: int := 4

  /** The header without its soft nonce, hashed together with 64 further bytes. */
  function HeaderHash(lib: AnnLibrary, h: Hdr, b: seq<byte>): Block { lib.h64(lib.layout(ZeroSoft(h)) + b) }

  function FirstHash(lib: AnnLibrary, h: Hdr, parent: seq<byte>): Block { HeaderHash(lib, h, parent + Zeros(32)) }

  function SecondSeed(lib: AnnLibrary, root: seq<byte>, annHash0: seq<byte>): Block { lib.h64(root + annHash0) }

  /**
   * The item the validator works on.  When the program of a seed is rejected, or fails to run, `before`
   * stands for what the buffer then holds: the validator does not look at the outcome of making the
   * program, and would run one partly overwritten by the rejected one.  No announcement that is
   * accepted for a table gets there, since the table itself was made from the same seeds.
   */
  function MadeItem(lib: AnnLibrary, seed: Block, n: nat, before: Item): Item {
    match lib.makeItem(seed[..32], seed[32..], n)
    case Some(item) => item
    case None => before
  }

  /** State, item buffer and item number after `n` updates, making each item when it is needed. */
  function Replay(lib: AnnLibrary, start: Full, stale: Item, seed: Block, n: nat): (Full, Item, nat) {
    if n == 0 then (start, stale, 0)
    else
      var (s, item, _) := Replay(lib, start, stale, seed, n - 1);
      var no := ItemNo(s) % TABLE_SZ;
      var made := MadeItem(lib, seed, no, item);
      (Update(lib.cc, s, made, true), made, no)
  }

  predicate WorkOk(s: Full, target: u32) {
    target <= MAX_COMPACT && !Negative(target) && IsWork(s[..32], target)
  }

  /** The Merkle branch and the proof of work; None if checking the work is undefined. */
  function Verdict(lib: AnnLibrary, a: Ann, item: Item, itemNo: nat, s: Full): Option<int> {
    if !AnnMerkle.Valid(lib.h64, MERKLE_DEPTH, ProofBlocks(a), lib.h64(item), itemNo) then Some(INVAL)
    else if !WorkDefined(s[..32], a.hdr.workBits) then None
    else if !WorkOk(s, a.hdr.workBits) then Some(INSUF_POW)
    else Some(OK)
  }

  /** Targets that no part of the source's arithmetic has trouble with. */
  predicate TargetUsable(target: u32): (usable: bool)
    ensures usable ==> NonceMaxDefined(target)
  {
    NonceMaxDefinedFor(target);
    Word(target) > 0 && 3 <= Size(target) <= 0x20
  }

  lemma UsableTarget(target: u32, hash: Digest32)
    requires TargetUsable(target)
    ensures 1023 <= AnnSoftNonceMax(target) && WorkDefined(hash, target)
  {
    hide NonceMaxDefined;
  }

  /** The outcome once the replay has ended in state `s` with its last item. */
  function Finished(lib: AnnLibrary, a: Ann, annHash0: Block, item: Item, itemNo: nat, s: Full): Option<int> {
    if a.hdr.version > 0 then
      var b := CryptAnn(a, s);
      if b.pfx != Zeros(PFX_SZ) then Some(INVAL_ITEM4)
      else Verdict(lib, b, MadeItem(lib, annHash0, itemNo, item), itemNo, s)
    else if item[..PFX_SZ] != a.pfx then Some(INVAL_ITEM4)
    else Verdict(lib, a, item, itemNo, s)
  }

  predicate NonceTooHigh(h: Hdr)
    requires NonceMaxDefined(h.workBits)
  {
    h.softNonce > AnnSoftNonceMax(h.workBits)
  }

  /** Validate_checkAnn; None where it aborts or does something undefined. */
  function CheckAnn(lib: AnnLibrary, a: Ann, parent: seq<byte>, stale: Item): Option<int> {
    var h, root := a.hdr, ProofBlock(a, MERKLE_DEPTH);
    var annHash0, annHash1 := FirstHash(lib, h, parent), HeaderHash(lib, h, root);
    if !NonceMaxDefined(h.workBits) then None
    else if NonceTooHigh(h) then Some(SOFT_NONCE_HIGH)
    else
      var seed := SecondSeed(lib, root, annHash0);
      var (t, item, itemNo) := Replay(lib, Init0(lib.cc, annHash1[..32], NonceWord(h.softNonce)), stale, seed, UPDATES);
      Finished(lib, a, annHash0, item, itemNo, Final(lib.cc, t))
  }

  // ---------- mined announcements ----------

  /** All the items under a seed. */
  ghost predicate TableOf(lib: AnnLibrary, seed: Block, table: seq<Item>) {
    |table| == TABLE_SZ && forall i :: 0 <= i < TABLE_SZ ==> lib.makeItem(seed[..32], seed[32..], i) == Some(table[i])
  }

  lemma TableSize()
    ensures Pow2(MERKLE_DEPTH) == TABLE_SZ
  {
    assert Pow2(4) == 16;
    Pow2Adds(4, 4);
    Pow2Adds(8, 5);
    assert Pow2(5) == 32;
  }

  function TableRoot(lib: AnnLibrary, table: seq<Item>): Block
    requires |table| == TABLE_SZ
  {
    TableSize();
    Root(lib.h64, table, MERKLE_DEPTH)
  }

  function TableBranch(lib: AnnLibrary, table: seq<Item>, itemNo: nat): (b: seq<Block>)
    requires |table| == TABLE_SZ && itemNo < TABLE_SZ
    ensures |b| == MERKLE_DEPTH + 1
  {
    TableSize();
    Branch(lib.h64, table, MERKLE_DEPTH, itemNo)
  }

  /** With the whole table at hand, making items on demand is looking them up. */
  lemma {:induction false} ReplayIsReference(lib: AnnLibrary, start: Full, stale: Item, seed: Block, table: seq<Item>,
                                             n: nat)
    requires TableOf(lib, seed, table)
    ensures var (s, item, no) := Replay(lib, start, stale, seed, n);
            && s == Reference(lib.cc, start, TablePick(table), n)
            && (n > 0 ==> no == NthItem(lib.cc, start, TablePick(table), n - 1) % TABLE_SZ)
  {
    hide Update, ItemNo;
    if n > 0 {
      ReplayIsReference(lib, start, stale, seed, table, n - 1);
    }
  }

  /** An announcement before encryption: header with soft nonce, branch, empty prefix. */
  function Assembled(h: Hdr, n: u32, branch: seq<Block>): Ann
    requires |branch| == MERKLE_DEPTH + 1
  {
    Ann(WithSoft(h, n), Join(branch), Zeros(PFX_SZ))
  }

  lemma JoinedBlocks(a: Ann, branch: seq<Block>)
    requires |branch| == MERKLE_DEPTH + 1 && a.proof == Join(branch)
    ensures ProofBlocks(a) == branch
  {
    forall i | 0 <= i <= MERKLE_DEPTH ensures ProofBlock(a, i) == branch[i] {
      forall k | 0 <= k < 64 ensures ProofBlock(a, i)[k] == branch[i][k] {
        assert (64 * i + k) / 64 == i && (64 * i + k) % 64 == k;
      }
    }
  }

  /** A job's seeds and tables belong together. */
  ghost predicate JobOk(lib: AnnLibrary, h: Hdr, parent: seq<byte>, table0: seq<Item>, table1: seq<Item>) {
    && ZeroSoft(h) == h && h.version > 0
    && TableOf(lib, FirstHash(lib, h, parent), table0)
    && TableOf(lib, SecondSeed(lib, TableRoot(lib, table0), FirstHash(lib, h, parent)), table1)
  }

  /** What the miner computes for a soft nonce. */
  function MinedState(lib: AnnLibrary, h: Hdr, root: Block, table1: seq<Item>, n: u32): Full
    requires |table1| == TABLE_SZ
  {
    AnnHash(lib.cc, HeaderHash(lib, h, root)[..32], n, TablePick(table1))
  }

  function MinedItem(lib: AnnLibrary, h: Hdr, root: Block, table1: seq<Item>, n: u32): (no: nat)
    requires |table1| == TABLE_SZ
    ensures no < TABLE_SZ
  {
    AttemptItem(lib.cc, HeaderHash(lib, h, root)[..32], n, TablePick(table1), 3) % TABLE_SZ
  }

  /** The announcement the miner hands out for a soft nonce. */
  function MinedAnn(lib: AnnLibrary, h: Hdr, table0: seq<Item>, table1: seq<Item>, n: u32): Ann
    requires |table0| == |table1| == TABLE_SZ
  {
    hide *;
    var root := TableRoot(lib, table0);
    EncryptedAnn(h, n, TableBranch(lib, table0, MinedItem(lib, h, root, table1, n)),
                 MinedState(lib, h, root, table1, n))
  }

  function EncryptedAnn(h: Hdr, n: u32, branch: seq<Block>, s: Full): Ann
    requires |branch| == MERKLE_DEPTH + 1
  {
    CryptAnn(Assembled(h, n, branch), s)
  }

  /** What the validator reads off an announcement, and finds when it has undone the encryption. */
  lemma EncryptedParts(h: Hdr, n: u32, branch: seq<Block>, s: Full)
    requires |branch| == MERKLE_DEPTH + 1 && n <= 0xff_ffff
    ensures var a := EncryptedAnn(h, n, branch, s);
            && a.hdr.softNonce == n && ZeroSoft(a.hdr) == ZeroSoft(h) && a.hdr.workBits == h.workBits
            && a.hdr.version == h.version && ProofBlock(a, MERKLE_DEPTH) == branch[MERKLE_DEPTH]
    ensures var b := CryptAnn(EncryptedAnn(h, n, branch, s), s);
            && b.hdr.workBits == h.workBits && b.pfx == Zeros(PFX_SZ) && ProofBlocks(b) == branch
  {
    var plain := Assembled(h, n, branch);
    JoinedBlocks(plain, branch);
    CryptTwice(plain, s);
    CryptKeeps(plain, s);
    hide Join, XorBytes, ProofBlock;
    assert ProofBlock(plain, MERKLE_DEPTH) == ProofBlocks(plain)[MERKLE_DEPTH];
  }

  predicate InRange(n: u32, target: u32)
    requires NonceMaxDefined(target)
  {
    n <= AnnSoftNonceMax(target)
  }

  /**
   * Every announcement of a well-formed job that meets its target and whose soft nonce is in range
   * validates against the parent hash it was mined for.
   */
  lemma MinedAnnouncementsValidate(lib: AnnLibrary, h: Hdr, parent: seq<byte>, table0: seq<Item>, table1: seq<Item>,
                                   n: u32, stale: Item)
    requires JobOk(lib, h, parent, table0, table1) && NonceMaxDefined(h.workBits) && InRange(n, h.workBits)
    requires var s := MinedState(lib, h, TableRoot(lib, table0), table1, n);
             WorkOk(s, h.workBits) && WorkDefined(s[..32], h.workBits)
    ensures var a := MinedAnn(lib, h, table0, table1, n);
            a.hdr.workBits == h.workBits && CheckAnn(lib, a, parent, stale) == Some(OK)
  {
    hide InRange, NonceTooHigh, MinedState, MinedItem, TableRoot, CryptAnn, Replays, WorkOk, CheckAnn,
         MinedAnn, AnnSoftNonceMax, SecondSeed, FirstHash, ZeroSoft, HeaderHash, Word, Size, WorkDefined,
         NonceMaxDefined;
    NonceFits(h.workBits, n);
    MinedParts(lib, h, parent, table0, table1, n, stale);
    NotTooHigh(MinedAnn(lib, h, table0, table1, n).hdr, n, h.workBits);
    Accepts(lib, MinedAnn(lib, h, table0, table1, n), parent, stale,
            MinedState(lib, h, TableRoot(lib, table0), table1, n),
            MinedItem(lib, h, TableRoot(lib, table0), table1, n));
  }

  lemma NotTooHigh(g: Hdr, n: u32, target: u32)
    requires NonceMaxDefined(target) && InRange(n, target) && g.softNonce == n && g.workBits == target
    ensures !NonceTooHigh(g)
  {
    hide AnnSoftNonceMax, NonceMaxDefined;
  }

  lemma NonceFits(target: u32, n: u32)
    requires NonceMaxDefined(target) && InRange(n, target)
    ensures n <= 0xff_ffff
  {
    hide AnnSoftNonceMax, NonceMaxDefined;
  }

  /** What the validator finds at each step when it is given a mined announcement. */
  lemma MinedParts(lib: AnnLibrary, h: Hdr, parent: seq<byte>, table0: seq<Item>, table1: seq<Item>, n: u32,
                   stale: Item)
    requires JobOk(lib, h, parent, table0, table1) && n <= 0xff_ffff
    requires var s := MinedState(lib, h, TableRoot(lib, table0), table1, n);
             WorkOk(s, h.workBits) && WorkDefined(s[..32], h.workBits)
    ensures var a, root := MinedAnn(lib, h, table0, table1, n), TableRoot(lib, table0);
            var s, no := MinedState(lib, h, root, table1, n), MinedItem(lib, h, root, table1, n);
            && a.hdr.workBits == h.workBits && a.hdr.version > 0 && a.hdr.softNonce == n
            && CryptAnn(a, s).pfx == Zeros(PFX_SZ)
            && Replays(lib, a, parent, stale, s, no)
  {
    assert |table0| == |table1| == TABLE_SZ && h.version > 0;
    hide TableRoot, TableBranch, EncryptedAnn, CryptAnn, ZeroSoft, ProofBlock, ProofBlocks,
         Verdict, SecondSeed, MinedState, MinedItem, HeaderHash, Replay, Init0, Final, WorkOk, TableOf, MadeItem,
         WorkDefined;
    var root := TableRoot(lib, table0);
    var no, s := MinedItem(lib, h, root, table1, n), MinedState(lib, h, root, table1, n);
    var branch := TableBranch(lib, table0, no);
    EncryptedParts(h, n, branch, s);
    TrueBranch(lib, table0, no);
    var a, annHash0 := MinedAnn(lib, h, table0, table1, n), FirstHash(lib, h, parent);
    SameHeaderHash(lib, a.hdr, h, root);
    SameHeaderHash(lib, a.hdr, h, parent + Zeros(32));
    ReplayMines(lib, h, root, SecondSeed(lib, root, annHash0), table1, n, stale);
    var item := Replay(lib, Init0(lib.cc, HeaderHash(lib, h, root)[..32], NonceWord(n)), stale,
                       SecondSeed(lib, root, annHash0), UPDATES).1;
    MadeFromTable(lib, annHash0, table0, no, item);
    VerdictOk(lib, CryptAnn(a, s), table0, no, s);
  }

  /** The replay ends in state `s` with item number `no`, and the verdict on the first table's item is good. */
  ghost predicate Replays(lib: AnnLibrary, a: Ann, parent: seq<byte>, stale: Item, s: Full, no: nat) {
    var h, root := a.hdr, ProofBlock(a, MERKLE_DEPTH);
    var annHash0 := FirstHash(lib, h, parent);
    var r := Replay(lib, Init0(lib.cc, HeaderHash(lib, h, root)[..32], NonceWord(h.softNonce)), stale,
                    SecondSeed(lib, root, annHash0), UPDATES);
    && Final(lib.cc, r.0) == s && r.2 == no
    && Verdict(lib, CryptAnn(a, s), MadeItem(lib, annHash0, no, r.1), no, s) == Some(OK)
  }

  lemma MadeFromTable(lib: AnnLibrary, seed: Block, table: seq<Item>, i: nat, before: Item)
    requires TableOf(lib, seed, table) && i < TABLE_SZ
    ensures MadeItem(lib, seed, i, before) == table[i]
  {
  }

  lemma VerdictOk(lib: AnnLibrary, b: Ann, table: seq<Item>, no: nat, s: Full)
    requires |table| == TABLE_SZ && no < TABLE_SZ && ProofBlocks(b) == TableBranch(lib, table, no)
    requires WorkOk(s, b.hdr.workBits) && WorkDefined(s[..32], b.hdr.workBits)
    ensures Verdict(lib, b, table[no], no, s) == Some(OK)
  {
    hide ProofBlocks, TableBranch, Climb, WorkOk, WorkDefined;
    TrueBranch(lib, table, no);
  }

  /** When each step of the validator succeeds, so does the validator. */
  lemma Accepts(lib: AnnLibrary, a: Ann, parent: seq<byte>, stale: Item, s: Full, no: nat)
    requires NonceMaxDefined(a.hdr.workBits) && a.hdr.version > 0 && !NonceTooHigh(a.hdr)
    requires CryptAnn(a, s).pfx == Zeros(PFX_SZ) && Replays(lib, a, parent, stale, s, no)
    ensures CheckAnn(lib, a, parent, stale) == Some(OK)
  {
    hide CryptAnn, ProofBlock, Init0, Final, Replay, Verdict, NonceTooHigh, NonceMaxDefined,
         SecondSeed, HeaderHash, FirstHash, MadeItem;
  }

  /** Replaying with items made on demand gives what the miner computed from its table. */
  lemma ReplayMines(lib: AnnLibrary, h: Hdr, root: Block, seed: Block, table1: seq<Item>, n: u32, stale: Item)
    requires TableOf(lib, seed, table1)
    ensures var (t, item, no) := Replay(lib, Init0(lib.cc, HeaderHash(lib, h, root)[..32], NonceWord(n)), stale, seed,
                                        UPDATES);
            Final(lib.cc, t) == MinedState(lib, h, root, table1, n) && no == MinedItem(lib, h, root, table1, n)
  {
    hide Replay, Reference, Init0, Final, HeaderHash, TablePick, TableOf;
    ReplayIsReference(lib, Init0(lib.cc, HeaderHash(lib, h, root)[..32], NonceWord(n)), stale, seed, table1, UPDATES);
  }

  lemma SameHeaderHash(lib: AnnLibrary, g: Hdr, h: Hdr, b: seq<byte>)
    requires ZeroSoft(g) == ZeroSoft(h)
    ensures HeaderHash(lib, g, b) == HeaderHash(lib, h, b)
  {
  }

  lemma TrueBranch(lib: AnnLibrary, table: seq<Item>, itemNo: nat)
    requires |table| == TABLE_SZ && itemNo < TABLE_SZ
    ensures TableBranch(lib, table, itemNo)[MERKLE_DEPTH] == TableRoot(lib, table)
    ensures AnnMerkle.Valid(lib.h64, MERKLE_DEPTH, TableBranch(lib, table, itemNo), lib.h64(table[itemNo]), itemNo)
  {
    hide Climb, Root, Branch, Pow2;
    TableSize();
    OwnBranchIsValid(lib.h64, table, MERKLE_DEPTH, itemNo);
    BranchTop(lib.h64, table, MERKLE_DEPTH, itemNo);
  }

  lemma BranchTop(h: Hash64, items: seq<seq<byte>>, depth: nat, itemNo: nat)
    requires |items| == Pow2(depth) && itemNo < Pow2(depth)
    ensures Branch(h, items, depth, itemNo)[depth] == Root(h, items, depth)
  {
    hide Root, Beside;
  }
}
