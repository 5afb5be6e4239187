/**
 * The miner's self-test: fakeMine over a computed tree, its proof and its commitment, checked as a
 * share (BlockMine.c, blkmine.rs).  And what an accepted share vouches for.
 */
module SelfTest {
  import opened Words
  import opened CycleState
  import opened CryptoCycle
  import opened CycleMining
  import opened LaneMining
  import opened Difficulty
  import opened RangeTree
  import opened ProofCheck
  import opened ProofSoundness
  import opened ProofRoundTrip
  import opened ProofSystem
  import opened TreeBuild
  import opened Compress
  import opened WriteProof
  import opened MinerTree
  import opened Share
  import Announce

  // ---------- the reference miner ----------

  const FAKE_HIGH_NONCE: u32 := 123
  const FAKE_LOW_NONCE: nat := 457
  const EASIEST: u32 := 0x207f_ffff

  /** The low nonce of attempt `k`. */
  function FakeNonce(k: nat): u32 { (FAKE_LOW_NONCE + k) % 0x1_0000_0000 }

  lemma FakeNonces(k: nat)
    ensures FakeNonce(0) == 457 && FakeNonce(k + 1) == (FakeNonce(k) + 1) % 0x1_0000_0000
  {
  }

  predicate Hit(l: Library, seed: seq<byte>, nonce: u32, pick: nat -> Item) {
    Meets(BlockHash(l, seed, nonce, pick)[..32], EASIEST)
  }

  /** The body of fakeMine's loop: four updates, noting which announcements they used. */
  method Attempt(l: Library, state: array<byte>, seed: seq<byte>, nonce: u32, annCount: nat, annIndexes: seq<nat>,
                 anns: seq<Item>)
    returns (res: BlockRes)
    requires state.Length == STATE_SZ
    requires 0 < annCount <= |annIndexes| && forall i :: 0 <= i < annCount ==> annIndexes[i] < |anns|
    modifies state
    ensures var pick := BlockPick(annCount, annIndexes, anns);
            && state[..] == BlockHash(l, seed, nonce, pick)
            && Reports(l, res, seed, nonce, pick, annCount, annIndexes, 4)
  {
    hide Init0, Update, Smul, Final, ItemNo, Reports;
    ghost var pick := BlockPick(annCount, annIndexes, anns);
    Init0InPlace(l, state, seed, NonceWord(nonce));
    ghost var start: Full := state[..];
    res := BlockRes([], []);
    NothingReported(l, seed, nonce, pick, annCount, annIndexes);
    for j := 0 to 4
      invariant state[..] == Reference(l, start, pick, j)
      invariant Reports(l, res, seed, nonce, pick, annCount, annIndexes, j)
    {
      var n := GetItemNo(state);
      var itnum := n % annCount;
      var x := annIndexes[itnum];
      ReportsMore(l, res, seed, nonce, pick, annCount, annIndexes, j, itnum);
      res := BlockRes(res.mlocs + [x], res.llocs + [itnum]);
      UpdateInPlace(l, state, anns[x], true);
    }
    SmulInPlace(l, state);
    FinalInPlace(l, state);
  }

  lemma NothingReported(l: Library, seed: seq<byte>, nonce: u32, pick: nat -> Item, annCount: nat, annIndexes: seq<nat>)
    requires 0 < annCount <= |annIndexes|
    ensures Reports(l, BlockRes([], []), seed, nonce, pick, annCount, annIndexes, 0)
  {
  }

  /**
   * BlockMine_fakeMine, given up after `tries` attempts: the first low nonce from 457 that meets the
   * easiest target.
   */
  method FakeMine(lib: BlockLibrary, header: BlockHeader, annCount: nat, annIndexes: seq<nat>, anns: seq<Item>,
                  tries: nat)
    returns (found: Option<(BlockRes, u32)>)
    requires 0 < annCount <= |annIndexes| && forall i :: 0 <= i < annCount ==> annIndexes[i] < |anns|
    ensures var seed := HeaderHash32(lib, header.(nonce := FAKE_HIGH_NONCE));
            var pick := BlockPick(annCount, annIndexes, anns);
            match found
            case None => forall k :: 0 <= k < tries ==> !Hit(lib.ann.cc, seed, FakeNonce(k), pick)
            case Some((res, lowNonce)) =>
              && Reports(lib.ann.cc, res, seed, lowNonce, pick, annCount, annIndexes, 4)
              && exists k :: 0 <= k < tries && lowNonce == FakeNonce(k) && FirstHit(lib.ann.cc, seed, pick, k)
  {
    hide BlockHash, Reports, HeaderHash32, Hit, BlockPick;
    var hdr := header.(nonce := FAKE_HIGH_NONCE);
    var hdrHash := HeaderHash32(lib, hdr);
    ghost var pick := BlockPick(annCount, annIndexes, anns);
    var pcState := new byte[STATE_SZ];
    for k := 0 to tries
      invariant forall j :: 0 <= j < k ==> !Hit(lib.ann.cc, hdrHash, FakeNonce(j), pick)
    {
      var res := Attempt(lib.ann.cc, pcState, hdrHash, FakeNonce(k), annCount, annIndexes, anns);
      assert pcState[..][..32] == pcState[..32];
      HitIs(lib.ann.cc, hdrHash, FakeNonce(k), pick);
      var ok := CheckEasiest(pcState[..32]);
      if ok {
        assert FirstHit(lib.ann.cc, hdrHash, pick, k);
        return Some((res, FakeNonce(k)));
      }
    }
    found := None;
  }

  ghost predicate FirstHit(l: Library, seed: seq<byte>, pick: nat -> Item, k: nat) {
    Hit(l, seed, FakeNonce(k), pick) && forall j :: 0 <= j < k ==> !Hit(l, seed, FakeNonce(j), pick)
  }

  lemma HitIs(l: Library, seed: seq<byte>, nonce: u32, pick: nat -> Item)
    ensures Hit(l, seed, nonce, pick) <==> Meets(BlockHash(l, seed, nonce, pick)[..32], EASIEST)
  {
    hide BlockHash, Meets;
  }

  method CheckEasiest(hash: Digest32) returns (ok: bool)
    ensures ok <==> Meets(hash, EASIEST)
  {
    hide Work.IsWork;
    ok := Work.WorkCheck(hash, EASIEST);
  }

  // ---------- the commitment's target ----------

  /** A class of announcements by parent block height and target; heights are those of an i32. */
  datatype HeightWork = HeightWork(blockHeight: nat, work: u32)

  function EffectiveOf(hw: HeightWork, next: u32): Option<u32> {
    Degraded(hw.work, if next <= hw.blockHeight then 0 else next - hw.blockHeight)
  }

  /** class_set_min_effective_work: the largest effective target of the set; None is a panic. */
  method ClassSetMinEffectiveWork(best: seq<HeightWork>, next: u32) returns (mew: Option<u32>)
    ensures mew.None? <==> |best| == 0 || exists i :: 0 <= i < |best| && EffectiveOf(best[i], next).None?
    ensures mew.Some? ==> IsMaxOf(mew.value, best, next)
  {
    hide EffectiveOf;
    mew := None;
    for i := 0 to |best|
      invariant mew.None? <==> i == 0
      invariant forall j :: 0 <= j < i ==> EffectiveOf(best[j], next).Some?
      invariant mew.Some? ==> IsMaxOf(mew.value, best[..i], next)
    {
      var e := EffectiveOf(best[i], next);
      if e.None? { return None; }
      if mew.None? || mew.value <= e.value { mew := e; }
      assert best[..i + 1] == best[..i] + [best[i]];
    }
    assert best[..|best|] == best;
  }

  ghost predicate IsMaxOf(m: u32, best: seq<HeightWork>, next: u32) {
    && (forall hw :: hw in best ==> EffectiveOf(hw, next).Some? && EffectiveOf(hw, next).value <= m)
    && (exists hw :: hw in best && EffectiveOf(hw, next) == Some(m))
  }

  /** The class of an announcement. */
  function HeightWorkOf(lib: BlockLibrary, item: Item): HeightWork {
    HeightWork(lib.parse(item).hdr.parentBlockHeight, lib.parse(item).hdr.workBits)
  }

  /** A class that is too young has no effective target, and then neither has the set. */
  lemma TooYoungIsUnusable(best: seq<HeightWork>, next: u32, m: u32, hw: HeightWork)
    requires IsMaxOf(m, best, next) && hw in best && next < hw.blockHeight + ANN_WAIT_PERIOD
    ensures m == NO_TARGET && !IsMinAnnDiffOk(m)
  {
    assert EffectiveOf(hw, next) == Some(NO_TARGET);
    hide Degraded, BnForCompact, WorkForTar;
  }

  /** An announcement belongs to one of the classes. */
  ghost predicate Classified(lib: BlockLibrary, item: Item, best: seq<HeightWork>) { HeightWorkOf(lib, item) in best }

  // ---------- the self-test ----------

  /** The validator's verdict on a share of the miner's own, whose announcements are not validated again. */
  function OwnVerdict(lib: BlockLibrary, hap: HeaderAndProof, height: u32, shareTarget: u32, cb: Coinbase,
                      stale: seq<Item>): Verdict
    requires |stale| == NUM_ANNS
  {
    BlockVerdict(lib, Some(hap), height, shareTarget, cb, None, stale)
  }

  /** If the largest effective target is usable at all, then every class is old enough and passes. */
  lemma ClassPasses(lib: BlockLibrary, items: Items, i: nat, height: u32, cb: Coinbase, stale: seq<Item>,
                    best: seq<HeightWork>)
    requires i < NUM_ANNS == |stale| && Classified(lib, items[i], best)
    requires IsMaxOf(cb.annLeastWorkTarget, best, height) && IsMinAnnDiffOk(cb.annLeastWorkTarget)
    ensures AnnFault(lib, items, i, height, cb, None, stale).None?
  {
    hide *;
    var hdr := lib.parse(items[i]).hdr;
    var hw := HeightWork(hdr.parentBlockHeight, hdr.workBits);
    ClassOf(lib, items[i], best);
    UsableIsSmall(cb.annLeastWorkTarget);
    AtMost(cb.annLeastWorkTarget, best, height, hw);
    OldEnough(hw.work, if height <= hw.blockHeight then 0 else height - hw.blockHeight);
    PassesWith(lib, items, i, height, cb, stale);
  }

  lemma ClassOf(lib: BlockLibrary, item: Item, best: seq<HeightWork>)
    requires Classified(lib, item, best)
    ensures HeightWork(lib.parse(item).hdr.parentBlockHeight, lib.parse(item).hdr.workBits) in best
  {
  }

  lemma AtMost(m: u32, best: seq<HeightWork>, next: u32, hw: HeightWork)
    requires IsMaxOf(m, best, next) && hw in best
    ensures var d := Degraded(hw.work, if next <= hw.blockHeight then 0 else next - hw.blockHeight);
            d.Some? && d.value <= m
  {
    hide Degraded;
    assert EffectiveOf(hw, next).Some?;
  }

  lemma PassesWith(lib: BlockLibrary, items: Items, i: nat, height: u32, cb: Coinbase, stale: seq<Item>)
    requires i < NUM_ANNS == |stale|
    requires var hdr := lib.parse(items[i]).hdr;
             height >= hdr.parentBlockHeight + 3 &&
             var d := Degraded(hdr.workBits, height - hdr.parentBlockHeight);
             d.Some? && d.value <= cb.annLeastWorkTarget
    ensures AnnFault(lib, items, i, height, cb, None, stale).None?
  {
    hide Degraded;
  }

  lemma UsableIsSmall(target: u32)
    requires IsMinAnnDiffOk(target)
    ensures target <= MAX_COMPACT < NO_TARGET
  {
  }

  lemma OldEnough(annTar: u32, age: u32)
    requires Degraded(annTar, age).Some? && Degraded(annTar, age).value < NO_TARGET
    ensures age >= 3
  {
    hide BnForCompact, CompactForBn, Bits;
  }

  lemma {:induction false} NoFault(lib: BlockLibrary, items: Items, i: nat, height: u32, cb: Coinbase,
                                   stale: seq<Item>, best: seq<HeightWork>)
    requires i <= NUM_ANNS == |stale| && forall k :: 0 <= k < NUM_ANNS ==> Classified(lib, items[k], best)
    requires IsMaxOf(cb.annLeastWorkTarget, best, height) && IsMinAnnDiffOk(cb.annLeastWorkTarget)
    ensures FirstFault(lib, items, i, height, cb, None, stale).None?
    decreases NUM_ANNS - i
  {
    hide Classified, IsMaxOf, IsMinAnnDiffOk, AnnFault;
    if i < NUM_ANNS {
      ClassPasses(lib, items, i, height, cb, stale, best);
      NoFault(lib, items, i + 1, height, cb, stale, best);
    }
  }

  /** Replaying on the announcements an attempt picked repeats the attempt. */
  lemma {:induction false} ReplayRepeats(l: Library, s: Full, items: seq<Item>, pick: nat -> Item, n: nat)
    requires n <= |items| && forall j :: 0 <= j < n ==> items[j] == pick(NthItem(l, s, pick, j))
    ensures ReplayOn(l, s, items, n) == Reference(l, s, pick, n)
  {
    hide Update, ItemNo;
    if n > 0 {
      ReplayRepeats(l, s, items, pick, n - 1);
    }
  }

  /** The announcements an attempt reports, fetched from memory. */
  ghost predicate Fetched(l: Library, items: Items, seed: seq<byte>, nonce: u32, pick: nat -> Item) {
    forall j :: 0 <= j < NUM_ANNS ==> items[j] == pick(AttemptItem(l, seed, nonce, pick, j))
  }

  lemma SameAttempt(l: Library, items: Items, seed: seq<byte>, nonce: u32, pick: nat -> Item)
    requires Fetched(l, items, seed, nonce, pick)
    ensures var start := Init0(l, seed, NonceWord(nonce));
            && PowHash(l, start, items) == BlockHash(l, seed, nonce, pick)
            && forall j :: 0 <= j < NUM_ANNS ==>
                 Indexes(l, start, items, NUM_ANNS)[j] == AttemptItem(l, seed, nonce, pick, j)
  {
    hide Init0, Smul, Final, ItemNo, Reference, ReplayOn;
    var start := Init0(l, seed, NonceWord(nonce));
    ReplayRepeats(l, start, items, pick, NUM_ANNS);
    forall j | 0 <= j < NUM_ANNS
      ensures Indexes(l, start, items, NUM_ANNS)[j] == AttemptItem(l, seed, nonce, pick, j)
    {
      ReplayRepeats(l, start, items, pick, j);
    }
  }

  /** The tree's leaves carry the hashes of the announcements in memory. */
  ghost predicate MemoryMatches(lib: BlockLibrary, leaves: seq<Entry>, indexTable: seq<nat>, anns: seq<Item>) {
    && |leaves| == |indexTable| + 1
    && forall i :: 0 <= i < |indexTable| ==>
         indexTable[i] < |anns| && leaves[i + 1].hash == AnnHash32(lib, anns[indexTable[i]])
  }

  /** The locations an attempt reports are what the check derives from the announcements. */
  lemma SameNumbers(l: Library, indexes: seq<nat>, seed: seq<byte>, nonce: u32, pick: nat -> Item, res: BlockRes,
                    annCount: nat, annIndexes: seq<nat>)
    requires 0 < annCount <= |annIndexes| && Reports(l, res, seed, nonce, pick, annCount, annIndexes, NUM_ANNS)
    requires |indexes| == NUM_ANNS
    requires forall j :: 0 <= j < NUM_ANNS ==> indexes[j] == AttemptItem(l, seed, nonce, pick, j)
    ensures AnnIdxs(indexes, annCount) == PastZero(res.llocs)
    ensures forall j :: 0 <= j < NUM_ANNS ==>
              && res.llocs[j] < annCount && res.mlocs[j] == annIndexes[res.llocs[j]]
              && res.llocs[j] == indexes[j] % annCount
  {
    hide AttemptItem;
    forall j | 0 <= j < NUM_ANNS
      ensures AnnIdxs(indexes, annCount)[j] == PastZero(res.llocs)[j] && res.llocs[j] < annCount
    {
      NumberOf(indexes[j], annCount);
    }
  }

  /** The share of an attempt over a tree: the announcements it used, fetched from memory, and their proof. */
  ghost predicate MadeFrom(lib: BlockLibrary, hap: HeaderAndProof, leaves: seq<Entry>, indexTable: seq<nat>,
                           anns: seq<Item>, res: BlockRes) {
    && |leaves| == |indexTable| + 1 >= 2 && (forall i :: 0 <= i < |indexTable| ==> indexTable[i] < |anns|)
    && var seed, pick := HeaderHash32(lib, hap.header), BlockPick(|indexTable|, indexTable, anns);
       && Reports(lib.ann.cc, res, seed, hap.nonce2, pick, |indexTable|, indexTable, NUM_ANNS)
       && Fetched(lib.ann.cc, hap.announcements, seed, hap.nonce2, pick)
       && hap.proof == ProofBytes(lib.H, leaves, PastZero(res.llocs))
  }

  /**
   * A share made from any attempt over a committed tree, with the tree's proof for it, passes every
   * check but that of its work.
   */
  lemma SharesValidate(lib: BlockLibrary, hap: HeaderAndProof, height: u32, shareTarget: u32, cb: Coinbase,
                       stale: seq<Item>,
                       leaves: seq<Entry>, indexTable: seq<nat>, anns: seq<Item>, res: BlockRes, best: seq<HeightWork>)
    requires |stale| == NUM_ANNS && ValidLeaves(leaves) && MemoryMatches(lib, leaves, indexTable, anns)
    requires 1 <= |indexTable| < Pow2(63) && |indexTable| < MAX64
    requires cb == Coinbase(COINBASE_MAGIC, cb.annLeastWorkTarget, RootHash(lib.H, leaves), |indexTable|)
    requires IsMinAnnDiffOk(cb.annLeastWorkTarget) && IsMaxOf(cb.annLeastWorkTarget, best, height)
    requires forall k :: 0 <= k < NUM_ANNS ==> Classified(lib, hap.announcements[k], best)
    requires MadeFrom(lib, hap, leaves, indexTable, anns, res)
    ensures CoinbaseOk(cb) && OwnVerdict(lib, hap, height, shareTarget, cb, stale)
                              == PowVerdict(WorkHash(lib, hap), cb, hap.header.workBits, shareTarget)
  {
    hide *;
    MadeParts(lib, hap, leaves, indexTable, anns, res);
    var l, seed, pick := lib.ann.cc, HeaderHash32(lib, hap.header), BlockPick(|indexTable|, indexTable, anns);
    var items := hap.announcements;
    Usable(cb);
    StartIs(lib, hap);
    Four(hap);
    SameAttempt(l, items, seed, hap.nonce2, pick);
    var indexes := Indexes(l, StartOf(lib, hap), items, NUM_ANNS);
    SameNumbers(l, indexes, seed, hap.nonce2, pick, res, |indexTable|, indexTable);
    HashesMatch(lib, leaves, indexTable, anns, items, indexes, seed, hap.nonce2);
    ProofChecks(lib.H, leaves, AnnHashes(lib, items), indexes);
    NoFault(lib, items, 0, height, cb, stale, best);
    VerdictIsPow(lib, hap, height, shareTarget, cb, stale);
  }

  lemma MadeParts(lib: BlockLibrary, hap: HeaderAndProof, leaves: seq<Entry>, indexTable: seq<nat>, anns: seq<Item>,
                  res: BlockRes)
    requires MadeFrom(lib, hap, leaves, indexTable, anns, res)
    ensures |leaves| == |indexTable| + 1 >= 2 && forall i :: 0 <= i < |indexTable| ==> indexTable[i] < |anns|
    ensures var seed, pick := HeaderHash32(lib, hap.header), BlockPick(|indexTable|, indexTable, anns);
            && Reports(lib.ann.cc, res, seed, hap.nonce2, pick, |indexTable|, indexTable, NUM_ANNS)
            && Fetched(lib.ann.cc, hap.announcements, seed, hap.nonce2, pick)
            && hap.proof == ProofBytes(lib.H, leaves, PastZero(res.llocs))
  {
    hide Reports, Fetched, HeaderHash32, BlockPick, ProofBytes, PastZero;
  }

  lemma Usable(cb: Coinbase)
    requires cb.magic == COINBASE_MAGIC && IsMinAnnDiffOk(cb.annLeastWorkTarget)
    ensures CoinbaseOk(cb)
  {
  }

  lemma Four(hap: HeaderAndProof)
    ensures NUM_ANNS == 4 && |hap.announcements| == 4
  {
  }

  lemma StartIs(lib: BlockLibrary, hap: HeaderAndProof)
    ensures StartOf(lib, hap) == Init0(lib.ann.cc, HeaderHash32(lib, hap.header), NonceWord(hap.nonce2))
  {
    hide Init0;
  }

  lemma HashesMatch(lib: BlockLibrary, leaves: seq<Entry>, indexTable: seq<nat>, anns: seq<Item>, items: Items,
                    indexes: seq<nat>, seed: seq<byte>, nonce: u32)
    requires MemoryMatches(lib, leaves, indexTable, anns) && |indexTable| >= 1 && |indexes| == NUM_ANNS
    requires var pick := BlockPick(|indexTable|, indexTable, anns);
             && Fetched(lib.ann.cc, items, seed, nonce, pick)
             && forall j :: 0 <= j < NUM_ANNS ==> indexes[j] == AttemptItem(lib.ann.cc, seed, nonce, pick, j)
    ensures |leaves| >= 2 && |AnnHashes(lib, items)| == NUM_ANNS
    ensures var idxs := AnnIdxs(indexes, |leaves| - 1);
            forall i :: 0 <= i < NUM_ANNS ==> AnnHashes(lib, items)[i] == leaves[idxs[i]].hash
  {
    hide AttemptItem, AnnHash32;
    var idxs := AnnIdxs(indexes, |leaves| - 1);
    forall i | 0 <= i < NUM_ANNS ensures AnnHashes(lib, items)[i] == leaves[idxs[i]].hash {
      NumberOf(indexes[i], |indexTable|);
    }
  }

  /** Once announcements and proof pass, the verdict is that on the work. */
  lemma VerdictIsPow(lib: BlockLibrary, hap: HeaderAndProof, height: u32, shareTarget: u32, cb: Coinbase,
                     stale: seq<Item>)
    requires |stale| == NUM_ANNS && CoinbaseOk(cb) && 1 <= cb.numAnns < Pow2(63) && cb.numAnns < MAX64
    requires FirstFault(lib, hap.announcements, 0, height, cb, None, stale).None?
    requires Check(lib.H, AnnHashes(lib, hap.announcements), cb.numAnns,
                   Indexes(lib.ann.cc, StartOf(lib, hap), hap.announcements, NUM_ANNS), hap.proof)
             == Some(cb.merkleRoot)
    ensures OwnVerdict(lib, hap, height, shareTarget, cb, stale)
         == PowVerdict(WorkHash(lib, hap), cb, hap.header.workBits, shareTarget)
  {
    hide CoinbaseOk, FirstFault, Check, AnnHashes, Indexes, StartOf, PowHash, PowVerdict, Pow2;
  }

  // ---------- the commitment ----------

  function ReadU32(s: seq<u8>): u32
    requires |s| == 4
  {
    FromLittleEndianBound(s);
    Pow2Of32();
    FromLittleEndian(s)
  }

  /** The 48 bytes of a commitment as PacketCrypt_Coinbase_t. */
  function ParseCoinbase(c: seq<u8>): Coinbase
    requires |c| == 48
  {
    Coinbase(ReadU32(c[..4]), ReadU32(c[4..8]), ReadHash(c[8..40]), ReadU64(c[40..]))
  }

  lemma ParsedCommit(c: seq<u8>, magic: u32, target: u32, root: Hash, n: u64)
    requires |c| == 48 && FromLittleEndian(c[..4]) == magic && FromLittleEndian(c[4..8]) == target
    requires ReadHash(c[8..40]) == root && FromLittleEndian(c[40..]) == n
    ensures ParseCoinbase(c) == Coinbase(magic, target, root, n)
  {
    hide ReadHash, FromLittleEndian;
  }

  /** The tree was computed over announcements that are still in memory and belong to the class set. */
  ghost predicate TreeReady(tree: ProofTree, lib: BlockLibrary, anns: seq<Item>, best: seq<HeightWork>)
    reads tree, tree.tbl
  {
    && tree.Valid() && tree.locked.Some? && tree.H == lib.H && 1 <= |tree.indexTable| < 0x1_0000_0000
    && NoAllOnes(lib.H, tree.Leaves())
    && forall i :: 0 <= i < |tree.indexTable| ==>
         && tree.indexTable[i] < |anns|
         && tree.db(tree.indexTable[i]) == AnnHash32(lib, anns[tree.indexTable[i]])
         && Classified(lib, anns[tree.indexTable[i]], best)
  }

  /** What a commitment to a tree says. */
  ghost function CommitOf(tree: ProofTree, lib: BlockLibrary, anns: seq<Item>, best: seq<HeightWork>,
                          mew: u32): Coinbase
    requires TreeReady(tree, lib, anns, best)
    reads tree, tree.tbl
  {
    hide ValidLeaves, NoAllOnes, Classified, AnnHash32, TreeTable.HoldsTree, RootHash;
    Coinbase(COINBASE_MAGIC, mew, RootHash(lib.H, tree.Leaves()), |tree.indexTable|)
  }

  lemma CommitIs(tree: ProofTree, lib: BlockLibrary, anns: seq<Item>, best: seq<HeightWork>, mew: u32)
    requires TreeReady(tree, lib, anns, best)
    ensures |tree.Leaves()| >= 1
    ensures CommitOf(tree, lib, anns, best, mew)
         == Coinbase(COINBASE_MAGIC, mew, RootHash(lib.H, tree.Leaves()), |tree.indexTable|)
  {
    hide ValidLeaves, NoAllOnes, Classified, AnnHash32, TreeTable.HoldsTree, RootHash;
  }

  /** get_commit, as the validator will see it. */
  method CommitTo(tree: ProofTree, lib: BlockLibrary, anns: seq<Item>, best: seq<HeightWork>, mew: u32)
    returns (cb: Coinbase)
    requires TreeReady(tree, lib, anns, best)
    ensures cb == CommitOf(tree, lib, anns, best, mew)
  {
    hide *;
    ReadyParts(tree, lib, anns, best);
    Magics();
    CommitIs(tree, lib, anns, best, mew);
    var commit := tree.GetCommit(mew);
    ParsedCommit(commit.value, COINBASE_MAGIC, mew, RootHash(lib.H, tree.Leaves()), |tree.indexTable|);
    cb := ParseCoinbase(commit.value);
  }

  /** The share that fakeMine finds, with mk_proof's proof, and what the proofs need to know of it. */
  ghost predicate ShareOf(tree: ProofTree, lib: BlockLibrary, anns: seq<Item>, header: BlockHeader, hap: HeaderAndProof,
                          res: BlockRes)
    reads tree, tree.tbl
    requires |tree.indexTable| >= 1 && forall i :: 0 <= i < |tree.indexTable| ==> tree.indexTable[i] < |anns|
  {
    var n := |tree.indexTable|;
    var seed, pick := HeaderHash32(lib, hap.header), BlockPick(n, tree.indexTable, anns);
    && hap.header == header.(nonce := FAKE_HIGH_NONCE)
    && Reports(lib.ann.cc, res, seed, hap.nonce2, pick, n, tree.indexTable, NUM_ANNS)
    && Fetched(lib.ann.cc, hap.announcements, seed, hap.nonce2, pick)
    && hap.proof == ProofBytes(lib.H, tree.Leaves(), PastZero(res.llocs))
    && Hit(lib.ann.cc, seed, hap.nonce2, pick)
  }

  /** fake_mine, then the proof and the announcements as make_share puts them together. */
  method MakeShare(tree: ProofTree, lib: BlockLibrary, header: BlockHeader, anns: seq<Item>, best: seq<HeightWork>,
                   tries: nat)
    returns (hap: Option<HeaderAndProof>, ghost res: BlockRes)
    requires TreeReady(tree, lib, anns, best)
    ensures |tree.indexTable| >= 1 && forall i :: 0 <= i < |tree.indexTable| ==> tree.indexTable[i] < |anns|
    ensures hap.Some? ==> ShareOf(tree, lib, anns, header, hap.value, res)
    ensures hap.Some? ==> forall k :: 0 <= k < NUM_ANNS ==> Classified(lib, hap.value.announcements[k], best)
  {
    hide *;
    hap, res := None, BlockRes([], []);
    ReadyParts(tree, lib, anns, best);
    Magics();
    var n := |tree.indexTable|;
    var found := FakeMine(lib, header, n, tree.indexTable, anns, tries);
    if found.None? { return; }
    var (r, lowNonce) := found.value;
    var hdr := header.(nonce := FAKE_HIGH_NONCE);
    ghost var pick := BlockPick(n, tree.indexTable, anns);
    ReportedAre(lib.ann.cc, r, HeaderHash32(lib, hdr), lowNonce, n, tree.indexTable, anns);
    var proof := tree.MkProof(r.llocs);
    assert proof.Some?;
    var items: Items := [anns[r.mlocs[0]], anns[r.mlocs[1]], anns[r.mlocs[2]], anns[r.mlocs[3]]];
    FetchedAre(lib.ann.cc, r, items, HeaderHash32(lib, hdr), lowNonce, n, tree.indexTable, anns);
    hap, res := Some(HeaderAndProof(hdr, lowNonce, items, proof.value)), r;
    FoundHits(lib.ann.cc, HeaderHash32(lib, hdr), pick, lowNonce, tries);
    ShareStands(tree, lib, anns, header, hap.value, res);
    ItemsClassified(lib, items, anns, r, tree.indexTable, best);
  }

  lemma ShareStands(tree: ProofTree, lib: BlockLibrary, anns: seq<Item>, header: BlockHeader, hap: HeaderAndProof,
                    res: BlockRes)
    requires |tree.indexTable| >= 1 && forall i :: 0 <= i < |tree.indexTable| ==> tree.indexTable[i] < |anns|
    requires |tree.Leaves()| >= 1 && hap.header == header.(nonce := FAKE_HIGH_NONCE)
    requires var n := |tree.indexTable|;
             var seed, pick := HeaderHash32(lib, hap.header), BlockPick(n, tree.indexTable, anns);
             && Reports(lib.ann.cc, res, seed, hap.nonce2, pick, n, tree.indexTable, 4)
             && Fetched(lib.ann.cc, hap.announcements, seed, hap.nonce2, pick)
             && hap.proof == ProofBytes(lib.H, tree.Leaves(), PastZero(res.llocs))
             && Hit(lib.ann.cc, seed, hap.nonce2, pick)
    ensures ShareOf(tree, lib, anns, header, hap, res)
  {
    hide Reports, Fetched, ProofBytes, Hit, HeaderHash32, BlockPick, PastZero;
  }

  lemma FoundHits(l: Library, seed: seq<byte>, pick: nat -> Item, nonce: u32, tries: nat)
    requires exists k :: 0 <= k < tries && nonce == FakeNonce(k) && FirstHit(l, seed, pick, k)
    ensures Hit(l, seed, nonce, pick)
  {
    hide Hit;
  }

  lemma ItemsClassified(lib: BlockLibrary, items: Items, anns: seq<Item>, res: BlockRes, indexTable: seq<nat>,
                        best: seq<HeightWork>)
    requires |res.mlocs| == |res.llocs| == 4
    requires forall j :: 0 <= j < 4 ==> res.llocs[j] < |indexTable| && res.mlocs[j] == indexTable[res.llocs[j]] < |anns|
    requires items == [anns[res.mlocs[0]], anns[res.mlocs[1]], anns[res.mlocs[2]], anns[res.mlocs[3]]]
    requires forall i :: 0 <= i < |indexTable| ==> indexTable[i] < |anns| && Classified(lib, anns[indexTable[i]], best)
    ensures forall k :: 0 <= k < NUM_ANNS ==> Classified(lib, items[k], best)
  {
    hide Classified;
  }

  method CheckOwn(lib: BlockLibrary, hap: HeaderAndProof, height: u32, shareTarget: u32, cb: Coinbase,
                  stale: seq<Item>)
    returns (v: Verdict)
    requires |stale| == NUM_ANNS
    ensures v == OwnVerdict(lib, hap, height, shareTarget, cb, stale)
  {
    hide BlockVerdict;
    v := CheckBlock(lib, Some(hap), height, shareTarget, cb, None, stale);
  }

  /**
   * The self-test of on_work2 and make_share, at any share target: commit to the tree with the class
   * set's largest effective target, mine a share with fakeMine, prove it and check it.  With a usable
   * target the verdict is exactly that on the work; otherwise the commitment is refused.
   */
  method RunSelfTest(tree: ProofTree, lib: BlockLibrary, header: BlockHeader, anns: seq<Item>, best: seq<HeightWork>,
                     height: u32, shareTarget: u32, stale: seq<Item>, tries: nat)
    returns (mew: Option<u32>, hap: Option<HeaderAndProof>, v: Option<Verdict>)
    requires TreeReady(tree, lib, anns, best) && |stale| == NUM_ANNS
    ensures mew.Some? ==> IsMaxOf(mew.value, best, height)
    ensures v.Some? ==> mew.Some? && hap.Some?
    ensures v.Some? && !IsMinAnnDiffOk(mew.value) ==> v.value == Returned(BAD_COINBASE)
    ensures v.Some? && IsMinAnnDiffOk(mew.value) ==>
              WorkDecides(v.value, WorkHash(lib, hap.value), header.workBits, shareTarget,
                          CommitOf(tree, lib, anns, best, mew.value))
  {
    hide *;
    mew, hap, v := None, None, None;
    ReadyParts(tree, lib, anns, best);
    mew := ClassSetMinEffectiveWork(best, height);
    if mew.None? { return; }
    var cb := CommitTo(tree, lib, anns, best, mew.value);
    ghost var res;
    hap, res := MakeShare(tree, lib, header, anns, best, tries);
    if hap.None? { return; }
    var verdict := CheckOwn(lib, hap.value, height, shareTarget, cb, stale);
    v := Some(verdict);
    CommitIs(tree, lib, anns, best, mew.value);
    if IsMinAnnDiffOk(mew.value) {
      ShareValidates(tree, lib, anns, header, hap.value, res, height, shareTarget, cb, best, stale);
      PowCodes(WorkHash(lib, hap.value), cb, header.workBits, shareTarget);
      Decided(verdict, WorkHash(lib, hap.value), header.workBits, shareTarget, cb);
    } else {
      BadTarget(lib, hap.value, height, shareTarget, cb, stale);
    }
  }

  /** Nothing but the work of the hash decides the verdict. */
  ghost predicate WorkDecides(v: Verdict, hash: Digest32, workBits: u32, shareTarget: u32, cb: Coinbase) {
    && CoinbaseOk(cb) && Meets(hash, EASIEST) && v == PowVerdict(hash, cb, workBits, shareTarget)
    && (v == Crashed || v.code in {OK, SHARE_OK, INSUF_POW})
  }

  lemma Decided(v: Verdict, hash: Digest32, workBits: u32, shareTarget: u32, cb: Coinbase)
    requires CoinbaseOk(cb) && Meets(hash, EASIEST) && v == PowVerdict(hash, cb, workBits, shareTarget)
    requires v == Crashed || v.code in {OK, SHARE_OK, INSUF_POW}
    ensures WorkDecides(v, hash, workBits, shareTarget, cb)
  {
    hide CoinbaseOk, Meets, PowVerdict;
  }

  /** The share of a self-test passes all but the check of its work. */
  lemma ShareValidates(tree: ProofTree, lib: BlockLibrary, anns: seq<Item>, header: BlockHeader, hap: HeaderAndProof,
                       res: BlockRes,
                    height: u32, shareTarget: u32, cb: Coinbase, best: seq<HeightWork>, stale: seq<Item>)
    requires TreeReady(tree, lib, anns, best) && |stale| == NUM_ANNS
    requires |tree.indexTable| >= 1 && forall i :: 0 <= i < |tree.indexTable| ==> tree.indexTable[i] < |anns|
    requires ShareOf(tree, lib, anns, header, hap, res)
    requires forall k :: 0 <= k < NUM_ANNS ==> Classified(lib, hap.announcements[k], best)
    requires IsMinAnnDiffOk(cb.annLeastWorkTarget) && IsMaxOf(cb.annLeastWorkTarget, best, height)
    requires cb == CommitOf(tree, lib, anns, best, cb.annLeastWorkTarget)
    ensures CoinbaseOk(cb) && Meets(WorkHash(lib, hap), EASIEST)
    ensures OwnVerdict(lib, hap, height, shareTarget, cb, stale)
         == PowVerdict(WorkHash(lib, hap), cb, header.workBits, shareTarget)
  {
    hide *;
    ReadyParts(tree, lib, anns, best);
    Magics();
    CommitIs(tree, lib, anns, best, cb.annLeastWorkTarget);
    ShareParts(tree, lib, anns, header, hap, res);
    SharesValidate(lib, hap, height, shareTarget, cb, stale, tree.Leaves(), tree.indexTable, anns, res, best);
    var pick := BlockPick(|tree.indexTable|, tree.indexTable, anns);
    WorkHashIs(lib, hap, pick);
    HitIs(lib.ann.cc, HeaderHash32(lib, hap.header), hap.nonce2, pick);
  }

  lemma WorkHashIs(lib: BlockLibrary, hap: HeaderAndProof, pick: nat -> Item)
    requires Fetched(lib.ann.cc, hap.announcements, HeaderHash32(lib, hap.header), hap.nonce2, pick)
    ensures WorkHash(lib, hap) == BlockHash(lib.ann.cc, HeaderHash32(lib, hap.header), hap.nonce2, pick)[..32]
  {
    hide Init0, PowHash, BlockHash, Fetched, HeaderHash32;
    SameAttempt(lib.ann.cc, hap.announcements, HeaderHash32(lib, hap.header), hap.nonce2, pick);
  }

  lemma ShareParts(tree: ProofTree, lib: BlockLibrary, anns: seq<Item>, header: BlockHeader, hap: HeaderAndProof,
                   res: BlockRes)
    requires |tree.indexTable| >= 1 && forall i :: 0 <= i < |tree.indexTable| ==> tree.indexTable[i] < |anns|
    requires ShareOf(tree, lib, anns, header, hap, res)
    ensures var n := |tree.indexTable|;
            var seed, pick := HeaderHash32(lib, hap.header), BlockPick(n, tree.indexTable, anns);
            && hap.header == header.(nonce := FAKE_HIGH_NONCE) && hap.header.workBits == header.workBits
            && |tree.Leaves()| >= 1
            && Reports(lib.ann.cc, res, seed, hap.nonce2, pick, n, tree.indexTable, NUM_ANNS)
            && Fetched(lib.ann.cc, hap.announcements, seed, hap.nonce2, pick)
            && hap.proof == ProofBytes(lib.H, tree.Leaves(), PastZero(res.llocs))
            && Hit(lib.ann.cc, seed, hap.nonce2, pick)
    ensures MadeFrom(lib, hap, tree.Leaves(), tree.indexTable, anns, res)
  {
    hide Reports, Fetched, ProofBytes, Hit, HeaderHash32, BlockPick, PastZero;
  }

  lemma Magics()
    ensures COMMIT_MAGIC == COINBASE_MAGIC && NUM_ANNS == 4 && TWO64 == 0x1_0000_0000_0000_0000 && MAX64 == TWO64 - 1
    ensures STATE_SZ == 2048 && Pow2(63) >= 0x1_0000_0000
  {
    Pow2Of32();
    Pow2Monotone(32, 63);
  }

  lemma ReadyParts(tree: ProofTree, lib: BlockLibrary, anns: seq<Item>, best: seq<HeightWork>)
    requires TreeReady(tree, lib, anns, best)
    ensures tree.Valid() && tree.locked.Some? && tree.H == lib.H && 1 <= |tree.indexTable| < 0x1_0000_0000
    ensures tree.size == |tree.indexTable| && tree.locked.value == RootHash(lib.H, tree.Leaves())
    ensures |tree.Leaves()| >= 2 && ValidLeaves(tree.Leaves()) && NoAllOnes(lib.H, tree.Leaves())
    ensures MemoryMatches(lib, tree.Leaves(), tree.indexTable, anns)
    ensures forall i :: 0 <= i < |tree.indexTable| ==>
              tree.indexTable[i] < |anns| && Classified(lib, anns[tree.indexTable[i]], best)
  {
    hide Classified, AnnHash32, NoAllOnes, RootHash, ValidLeaves, TreeTable.HoldsTree;
    var hashes := HashesOf(tree.db, tree.indexTable);
    forall i | 0 <= i < |tree.indexTable|
      ensures LeafRow(hashes)[i + 1].hash == AnnHash32(lib, anns[tree.indexTable[i]])
    {
      assert LeafRow(hashes)[i + 1] == Leaf(hashes, i);
    }
  }

  lemma ReportedAre(l: Library, res: BlockRes, seed: seq<byte>, nonce: u32, annCount: nat, annIndexes: seq<nat>,
                    anns: seq<Item>)
    requires 0 < annCount <= |annIndexes| && forall i :: 0 <= i < annCount ==> annIndexes[i] < |anns|
    requires Reports(l, res, seed, nonce, BlockPick(annCount, annIndexes, anns), annCount, annIndexes, 4)
    ensures |res.llocs| == |res.mlocs| == 4
    ensures forall j :: 0 <= j < 4 ==> res.llocs[j] < annCount && res.mlocs[j] == annIndexes[res.llocs[j]] < |anns|
  {
    hide AttemptItem;
  }

  lemma FetchedAre(l: Library, res: BlockRes, items: Items, seed: seq<byte>, nonce: u32, annCount: nat,
                   annIndexes: seq<nat>,
                   anns: seq<Item>)
    requires 0 < annCount <= |annIndexes| && forall i :: 0 <= i < annCount ==> annIndexes[i] < |anns|
    requires Reports(l, res, seed, nonce, BlockPick(annCount, annIndexes, anns), annCount, annIndexes, 4)
    requires |res.mlocs| == 4 && forall j :: 0 <= j < 4 ==> res.mlocs[j] < |anns|
    requires items == [anns[res.mlocs[0]], anns[res.mlocs[1]], anns[res.mlocs[2]], anns[res.mlocs[3]]]
    ensures Fetched(l, items, seed, nonce, BlockPick(annCount, annIndexes, anns))
  {
    hide AttemptItem;
  }

  lemma PowCodes(hash: Digest32, cb: Coinbase, workBits: u32, shareTarget: u32)
    requires CoinbaseOk(cb)
    ensures var v := PowVerdict(hash, cb, workBits, shareTarget); v == Crashed || v.code in {OK, SHARE_OK, INSUF_POW}
  {
    hide EnoughWork, CoinbaseOk;
  }

  lemma BadTarget(lib: BlockLibrary, hap: HeaderAndProof, height: u32, shareTarget: u32, cb: Coinbase, stale: seq<Item>)
    requires |stale| == NUM_ANNS && !IsMinAnnDiffOk(cb.annLeastWorkTarget)
    ensures OwnVerdict(lib, hap, height, shareTarget, cb, stale) == Returned(BAD_COINBASE)
  {
    hide IsMinAnnDiffOk;
  }

  // ---------- what an accepted share vouches for ----------

  /**
   * If a share passes every check but perhaps that of its work, and the commitment is to the root of a
   * tree, then its announcements are the tree's exactly when announcements with the same index are the
   * same, unless a collision was hashed on the way.
   */
  lemma AcceptedShareBinds(lib: BlockLibrary, hap: HeaderAndProof, height: u32, shareTarget: u32, cb: Coinbase,
                           parents: Parents,
                           stale: seq<Item>, leaves: seq<Entry>)
    requires |stale| == NUM_ANNS
    requires var v := BlockVerdict(lib, Some(hap), height, shareTarget, cb, parents, stale);
             v.Returned? && v.code in {OK, SHARE_OK, INSUF_POW}
    requires |leaves| == cb.numAnns + 1 && |leaves| >= 2 && cb.merkleRoot == RootHash(lib.H, leaves)
    requires var filled := FilledTable(AnnHashes(lib, hap.announcements), cb.numAnns,
                                       Indexes(lib.ann.cc, StartOf(lib, hap), hap.announcements, NUM_ANNS), hap.proof);
             filled.Some? ==> NoCollision(lib.H, leaves, filled.value)
    ensures var hashes := AnnHashes(lib, hap.announcements);
            var indexes := Indexes(lib.ann.cc, StartOf(lib, hap), hap.announcements, NUM_ANNS);
            TrueHashes(leaves, hashes, indexes) <==> ConsistentHashes(hashes, indexes, cb.numAnns)
  {
    hide *;
    Four(hap);
    var hashes := AnnHashes(lib, hap.announcements);
    var indexes := Indexes(lib.ann.cc, StartOf(lib, hap), hap.announcements, NUM_ANNS);
    PassedProof(lib, hap, height, shareTarget, cb, parents, stale);
    CheckedIsFilled(lib.H, hashes, cb.numAnns, indexes, hap.proof);
    SoundIff(lib.H, leaves, hashes, indexes, hap.proof);
  }

  lemma PassedProof(lib: BlockLibrary, hap: HeaderAndProof, height: u32, shareTarget: u32, cb: Coinbase,
                    parents: Parents, stale: seq<Item>)
    requires |stale| == NUM_ANNS
    requires var v := BlockVerdict(lib, Some(hap), height, shareTarget, cb, parents, stale);
             v.Returned? && v.code in {OK, SHARE_OK, INSUF_POW}
    ensures cb.numAnns >= 1 &&
            Check(lib.H, AnnHashes(lib, hap.announcements), cb.numAnns,
                  Indexes(lib.ann.cc, StartOf(lib, hap), hap.announcements, NUM_ANNS), hap.proof) == Some(cb.merkleRoot)
  {
    hide *;
    FaultCodes(lib, hap.announcements, 0, height, cb, parents, stale);
    Stages(lib, hap, height, shareTarget, cb, parents, stale);
  }

  /** A verdict on the work comes from the last stage. */
  lemma Stages(lib: BlockLibrary, hap: HeaderAndProof, height: u32, shareTarget: u32, cb: Coinbase, parents: Parents,
               stale: seq<Item>)
    requires |stale| == NUM_ANNS
    requires var f := FirstFault(lib, hap.announcements, 0, height, cb, parents, stale);
             f.Some? && f.value.Returned? ==> ANN_INVALID <= f.value.code < PCP_INVAL
    requires var v := BlockVerdict(lib, Some(hap), height, shareTarget, cb, parents, stale);
             v.Returned? && v.code in {OK, SHARE_OK, INSUF_POW}
    ensures cb.numAnns >= 1 &&
            Check(lib.H, AnnHashes(lib, hap.announcements), cb.numAnns,
                  Indexes(lib.ann.cc, StartOf(lib, hap), hap.announcements, NUM_ANNS), hap.proof) == Some(cb.merkleRoot)
  {
    hide Check, AnnHashes, Indexes, StartOf, PowHash, PowVerdict, IsMinAnnDiffOk, FirstFault, Pow2;
  }

  lemma {:induction false} FaultCodes(lib: BlockLibrary, items: Items, i: nat, height: u32, cb: Coinbase,
                                      parents: Parents, stale: seq<Item>)
    requires i <= NUM_ANNS == |stale|
    ensures var f := FirstFault(lib, items, i, height, cb, parents, stale);
            f.Some? && f.value.Returned? ==> ANN_INVALID <= f.value.code < PCP_INVAL
    decreases NUM_ANNS - i
  {
    hide Degraded, Announce.CheckAnn;
    if i < NUM_ANNS {
      FaultCodes(lib, items, i + 1, height, cb, parents, stale);
    }
  }
}
