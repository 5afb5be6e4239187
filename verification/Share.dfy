/** Validate_checkBlock: what a pool or a node makes of a block or a share. */
module Share {
  import opened Words
  import opened CycleState
  import opened CryptoCycle
  import opened CycleMining
  import opened LaneMining
  import opened Difficulty
  import opened Work
  import opened RangeTree
  import opened ProofCheck
  import opened ClimbLoop
  import A = Announce
  import V = CheckAnnMethod

  const NUM_ANNS: nat := 4
  const COINBASE_MAGIC: u32 := 0x0211_f909

  const OK: int := 0
  const SHARE_OK: int := 0x100
  const ANN_INVALID: int := 0x200
  const ANN_INSUF_POW: int := 0x300
  const PCP_INVAL: int := 0x600
  const PCP_MISMATCH: int := 0x700
  const INSUF_POW: int := 0x800
  const BAD_COINBASE: int := 0x900

  /** PacketCrypt_BlockHeader_t; `rest` is what the program does not look at. */
  datatype BlockHeader = BlockHeader(rest: seq<byte>, workBits: u32, nonce: u32)

  type Items = s: seq<Item> | |s| == NUM_ANNS witness [Zeros(ITEM_SZ), Zeros(ITEM_SZ), Zeros(ITEM_SZ), Zeros(ITEM_SZ)]

  /** PacketCrypt_HeaderAndProof_t and the proof behind it. */
  datatype HeaderAndProof = HeaderAndProof(header: BlockHeader, nonce2: u32, announcements: Items, proof: seq<u8>)

  datatype Coinbase = Coinbase(magic: u32, annLeastWorkTarget: u32, merkleRoot: Hash, numAnns: u64)

  /**
   * The library functions: those of announcements, the hash of tree entries, the 80 bytes of a block
   * header, and 1024 bytes seen as an announcement.
   */
  datatype BlockLibrary = BlockLibrary(
    ann: A.AnnLibrary,
    H: Hasher,
    headerBytes: BlockHeader -> seq<byte>,
    parse: Item -> A.Ann)

  /** A code, or no return at all: a Rust panic on its way into C, a division by zero or an undefined read or shift. */
  datatype Verdict = Returned(code: int) | Crashed

  // ---------- hashes ----------

  function Values(s: seq<byte>): (r: seq<u8>)
    ensures |r| == |s|
  {
    seq(|s|, i requires 0 <= i < |s| => Value(s[i]))
  }

  /** The 32-byte hash of an announcement, as its four words. */
  function AnnHash32(lib: BlockLibrary, item: Item): Hash {
    ReadHash(Values(lib.ann.cc.compress32(item)))
  }

  function HeaderHash32(lib: BlockLibrary, h: BlockHeader): seq<byte> {
    lib.ann.cc.compress32(lib.headerBytes(h))
  }

  // ---------- proof of work ----------

  /** `n` updates with the given announcements. */
  function ReplayOn(l: Library, s: Full, items: seq<Item>, n: nat): Full
    requires n <= |items|
  {
    if n == 0 then s else Update(l, ReplayOn(l, s, items, n - 1), items[n - 1], true)
  }

  /** The item numbers the state names on the way. */
  function Indexes(l: Library, s: Full, items: seq<Item>, n: nat): (r: seq<nat>)
    requires n <= |items|
    ensures |r| == n
  {
    seq(n, j requires 0 <= j < n => ItemNo(ReplayOn(l, s, items, j)))
  }

  function PowHash(l: Library, s: Full, items: Items): Full {
    Final(l, Smul(l, ReplayOn(l, s, items, NUM_ANNS)))
  }

  function StartOf(lib: BlockLibrary, hap: HeaderAndProof): Full {
    Init0(lib.ann.cc, HeaderHash32(lib, hap.header), NonceWord(hap.nonce2))
  }

  /** The hash of the four updates, whose work counts. */
  function WorkHash(lib: BlockLibrary, hap: HeaderAndProof): Digest32 {
    PowHash(lib.ann.cc, StartOf(lib, hap), hap.announcements)[..32]
  }

  predicate CoinbaseOk(cb: Coinbase) {
    cb.magic == COINBASE_MAGIC && IsMinAnnDiffOk(cb.annLeastWorkTarget)
  }

  /** isWorkOk; None if the target's sign makes it panic, or the effective target makes it read out of bounds. */
  function EnoughWork(hash: Digest32, cb: Coinbase, target: u32): Option<bool>
    requires CoinbaseOk(cb)
  {
    if Negative(target) then None
    else
      var e := GetEffectiveTarget(target, cb.annLeastWorkTarget, cb.numAnns);
      if !WorkDefined(hash, e) then None else Some(Meets(hash, e))
  }

  predicate Meets(hash: seq<byte>, e: u32) {
    e <= MAX_COMPACT && !Negative(e) && IsWork(hash, e)
  }

  function PowVerdict(hash: Digest32, cb: Coinbase, workBits: u32, shareTarget: u32): Verdict
    requires CoinbaseOk(cb)
  {
    match EnoughWork(hash, cb, workBits)
    case None => Crashed
    case Some(true) => Returned(OK)
    case Some(false) =>
      if shareTarget == 0 then Returned(INSUF_POW)
      else match EnoughWork(hash, cb, shareTarget)
        case None => Crashed
        case Some(enough) => Returned(if enough then SHARE_OK else INSUF_POW)
  }

  method IsWorkOk(hash: Digest32, cb: Coinbase, target: u32) returns (ok: Option<bool>)
    requires CoinbaseOk(cb)
    ensures ok == EnoughWork(hash, cb, target)
  {
    hide GetEffectiveTarget, IsWork, Size, WorkDefined;
    if Negative(target) { return None; }
    var e := GetEffectiveTarget(target, cb.annLeastWorkTarget, cb.numAnns);
    if !WorkDefined(hash, e) { return None; }
    var enough := WorkCheck(hash, e);
    ok := Some(enough);
  }

  /** checkPcHash: the four item numbers, the hash, and what the hash is worth. */
  method CheckPcHash(lib: BlockLibrary, hap: HeaderAndProof, cb: Coinbase, shareTarget: u32)
    returns (indexes: seq<nat>, chk: Verdict, workHash: Digest32)
    requires CoinbaseOk(cb)
    ensures indexes == Indexes(lib.ann.cc, StartOf(lib, hap), hap.announcements, NUM_ANNS)
    ensures workHash == PowHash(lib.ann.cc, StartOf(lib, hap), hap.announcements)[..32]
    ensures chk == PowVerdict(workHash, cb, hap.header.workBits, shareTarget)
  {
    hide Init0, Update, Smul, Final, ItemNo, CoinbaseOk;
    var l := lib.ann.cc;
    var state := new byte[STATE_SZ];
    var hdrHash := HeaderHash32(lib, hap.header);
    Init0InPlace(l, state, hdrHash, NonceWord(hap.nonce2));
    ghost var start: Full := state[..];
    indexes := [];
    for j := 0 to NUM_ANNS
      invariant indexes == Indexes(l, start, hap.announcements, j)
      invariant state[..] == ReplayOn(l, start, hap.announcements, j)
    {
      var n := GetItemNo(state);
      indexes := indexes + [n];
      UpdateInPlace(l, state, hap.announcements[j], true);
    }
    SmulInPlace(l, state);
    FinalInPlace(l, state);
    assert state[..][..32] == state[..32];
    workHash := state[..32];
    hide EnoughWork;
    var ok := IsWorkOk(workHash, cb, hap.header.workBits);
    if ok.None? { return indexes, Crashed, workHash; }
    if ok.value { return indexes, Returned(OK), workHash; }
    if shareTarget == 0 { return indexes, Returned(INSUF_POW), workHash; }
    ok := IsWorkOk(workHash, cb, shareTarget);
    if ok.None? { return indexes, Crashed, workHash; }
    chk := Returned(if ok.value then SHARE_OK else INSUF_POW);
  }

  // ---------- the announcements ----------

  /** `a - b` on uint32_t. */
  function Sub32(a: u32, b: u32): u32 { if b <= a then a - b else a - b + 0x1_0000_0000 }

  /** pc_degrade_announcement_target; None if the sign of the target makes it panic. */
  function Degraded(annTar: u32, age: u32): Option<u32> {
    if !Negative(annTar) then Some(DegradeAnnouncementTarget(annTar, age))
    else if age < ANN_WAIT_PERIOD || age > 256 + ANN_WAIT_PERIOD then Some(NO_TARGET)
    else if age == ANN_WAIT_PERIOD then Some(annTar)
    else None
  }

  /** The parent hashes, if the caller wants the announcements themselves validated. */
  type Parents = p: Option<seq<seq<byte>>> | p.Some? ==> |p.value| == NUM_ANNS witness None

  /** What Validate_checkAnn makes of announcement `i`, if it is asked; None if it does not return. */
  function Validation(lib: BlockLibrary, ann: A.Ann, i: nat, parents: Parents, stale: seq<Item>): Option<int>
    requires i < NUM_ANNS == |stale|
  {
    if parents.Some? then A.CheckAnn(lib.ann, ann, parents.value[i], stale[i]) else Some(A.OK)
  }

  /** What is wrong with announcement `i`; None if it passes. */
  function AnnFault(lib: BlockLibrary, items: Items, i: nat, height: u32, cb: Coinbase, parents: Parents,
                    stale: seq<Item>): Option<Verdict>
    requires i < NUM_ANNS == |stale|
  {
    var ann := lib.parse(items[i]);
    match Validation(lib, ann, i, parents, stale)
    case None => Some(Crashed)
    case Some(ret) =>
      if ret != A.OK then Some(Returned(ANN_INVALID + i))
      else match Degraded(ann.hdr.workBits, Sub32(height, ann.hdr.parentBlockHeight))
        case None => Some(Crashed)
        case Some(d) =>
          var effective := if height < 3 then ann.hdr.workBits else d;
          if effective > cb.annLeastWorkTarget then Some(Returned(ANN_INSUF_POW + i)) else None
  }

  /** The first fault among announcements `i` and up. */
  function FirstFault(lib: BlockLibrary, items: Items, i: nat, height: u32, cb: Coinbase, parents: Parents,
                      stale: seq<Item>): Option<Verdict>
    requires i <= NUM_ANNS == |stale|
    decreases NUM_ANNS - i
  {
    if i == NUM_ANNS then None
    else
      var f := AnnFault(lib, items, i, height, cb, parents, stale);
      if f.Some? then f else FirstFault(lib, items, i + 1, height, cb, parents, stale)
  }

  function AnnHashes(lib: BlockLibrary, items: seq<Item>): (r: seq<Hash>)
    ensures |r| == |items| && forall i :: 0 <= i < |items| ==> r[i] == AnnHash32(lib, items[i])
  {
    seq(|items|, i requires 0 <= i < |items| => AnnHash32(lib, items[i]))
  }

  /** One turn of the loop over the announcements. */
  method CheckOne(lib: BlockLibrary, items: Items, i: nat, height: u32, cb: Coinbase, parents: Parents,
                  stale: seq<Item>)
    returns (fault: Option<Verdict>)
    requires i < NUM_ANNS == |stale|
    ensures fault == AnnFault(lib, items, i, height, cb, parents, stale)
  {
    hide A.CheckAnn, Degraded;
    var ann := lib.parse(items[i]);
    if parents.Some? {
      var ret := V.ValidateAnn(lib.ann, ann, parents.value[i], stale[i]);
      if ret.None? { return Some(Crashed); }
      if ret.value != A.OK { return Some(Returned(ANN_INVALID + i)); }
    }
    var effective := Degraded(ann.hdr.workBits, Sub32(height, ann.hdr.parentBlockHeight));
    if effective.None? { return Some(Crashed); }
    if height < 3 { effective := Some(ann.hdr.workBits); }
    if effective.value > cb.annLeastWorkTarget { return Some(Returned(ANN_INSUF_POW + i)); }
    fault := None;
  }

  method CheckAnns(lib: BlockLibrary, items: Items, height: u32, cb: Coinbase, parents: Parents, stale: seq<Item>)
    returns (fault: Option<Verdict>, annHashes: seq<Hash>)
    requires |stale| == NUM_ANNS
    ensures fault == FirstFault(lib, items, 0, height, cb, parents, stale)
    ensures fault.None? ==> annHashes == AnnHashes(lib, items)
  {
    hide AnnFault, AnnHash32;
    annHashes := [];
    for i := 0 to NUM_ANNS
      invariant FirstFault(lib, items, 0, height, cb, parents, stale)
                == FirstFault(lib, items, i, height, cb, parents, stale)
      invariant annHashes == AnnHashes(lib, items[..i])
    {
      fault := CheckOne(lib, items, i, height, cb, parents, stale);
      if fault.Some? { return; }
      annHashes := annHashes + [AnnHash32(lib, items[i])];
    }
    assert items[..NUM_ANNS] == items;
    fault := None;
  }

  // ---------- the proof ----------

  /** Announcement counts for which hashProof is defined: it divides by the count, and shifts by the tree's height. */
  predicate CountDefined(numAnns: u64) { 1 <= numAnns < Pow2(63) }

  /** hashProof's root compared with the commitment's. */
  function ProofVerdict(lib: BlockLibrary, annHashes: seq<Hash>, indexes: seq<nat>, proof: seq<u8>, cb: Coinbase,
                        chk: Verdict): Verdict
    requires |annHashes| == |indexes| == NUM_ANNS
  {
    if cb.numAnns == MAX64 then Returned(PCP_INVAL)
    else if !CountDefined(cb.numAnns) then Crashed
    else match Check(lib.H, annHashes, cb.numAnns, indexes, proof)
      case None => Returned(PCP_INVAL)
      case Some(root) => if root != cb.merkleRoot then Returned(PCP_MISMATCH) else chk
  }

  /** With the count all ones, adding one for the zero entry leaves none, and no number is below that. */
  method CheckProof(lib: BlockLibrary, annHashes: seq<Hash>, indexes: seq<nat>, proof: seq<u8>, cb: Coinbase,
                    chk: Verdict)
    returns (v: Verdict)
    requires |annHashes| == |indexes| == NUM_ANNS
    ensures v == ProofVerdict(lib, annHashes, indexes, proof, cb, chk)
  {
    hide Check, Pow2;
    if cb.numAnns == MAX64 { return Returned(PCP_INVAL); }
    if !CountDefined(cb.numAnns) { return Crashed; }
    var ret, root := HashProof(lib.H, annHashes, cb.numAnns, indexes, proof);
    if ret != 0 { return Returned(PCP_INVAL); }
    if root != cb.merkleRoot { return Returned(PCP_MISMATCH); }
    v := chk;
  }

  // ---------- the whole check ----------

  /** Stage by stage, the first fault decides; a share with none is worth what its work is worth. */
  function BlockVerdict(lib: BlockLibrary, hap: Option<HeaderAndProof>, height: u32, shareTarget: u32, cb: Coinbase,
                        parents: Parents, stale: seq<Item>): Verdict
    requires |stale| == NUM_ANNS
  {
    if hap.None? then Returned(PCP_INVAL)
    else if !CoinbaseOk(cb) then Returned(BAD_COINBASE)
    else
      var l, start, items := lib.ann.cc, StartOf(lib, hap.value), hap.value.announcements;
      var chk := PowVerdict(PowHash(l, start, items)[..32], cb, hap.value.header.workBits, shareTarget);
      if chk == Crashed then Crashed
      else
        var fault := FirstFault(lib, items, 0, height, cb, parents, stale);
        if fault.Some? then fault.value
        else ProofVerdict(lib, AnnHashes(lib, items), Indexes(l, start, items, NUM_ANNS), hap.value.proof, cb, chk)
  }

  /** Validate_checkBlock; no header and proof stands for a buffer shorter than the fixed part. */
  method CheckBlock(lib: BlockLibrary, hap: Option<HeaderAndProof>, height: u32, shareTarget: u32, cb: Coinbase,
                    parents: Parents, stale: seq<Item>) returns (v: Verdict)
    requires |stale| == NUM_ANNS
    ensures v == BlockVerdict(lib, hap, height, shareTarget, cb, parents, stale)
  {
    hide PowVerdict, PowHash, StartOf, Indexes, FirstFault, ProofVerdict, IsMinAnnDiffOk, AnnHashes;
    if hap.None? { return Returned(PCP_INVAL); }
    if cb.magic != COINBASE_MAGIC { return Returned(BAD_COINBASE); }
    if !IsMinAnnDiffOk(cb.annLeastWorkTarget) { return Returned(BAD_COINBASE); }
    var indexes, chk, workHash := CheckPcHash(lib, hap.value, cb, shareTarget);
    if chk == Crashed { return Crashed; }
    var fault, annHashes := CheckAnns(lib, hap.value.announcements, height, cb, parents, stale);
    if fault.Some? { return fault.value; }
    v := CheckProof(lib, annHashes, indexes, hap.value.proof, cb, chk);
  }
}
