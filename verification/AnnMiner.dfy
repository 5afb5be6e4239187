/**
 * The announcement miner's worker (AnnMiner.c): preparing a job and searching its soft nonces.  What
 * it hands to the callback are exactly the announcements that meet the target, and they validate.
 */
module AnnMiner {
  import opened Words
  import opened CycleState
  import opened CryptoCycle
  import opened CycleMining
  import opened LaneMining
  import opened AnnMerkle
  import opened Difficulty
  import opened Work
  import opened Announce

  const HASHES_PER_CYCLE: nat := 16

  /** A round of sixteen nonces from `nonce` stays within `max`. */
  predicate RoundFits(nonce: u32, max: u32) { nonce + HASHES_PER_CYCLE <= max }

  /** The announcements the miner hands out for the nonces it tried, in order. */
  function HitsOf(lib: AnnLibrary, h: Hdr, table0: seq<Item>, table1: seq<Item>, nonces: seq<u32>): seq<Ann>
    requires |table0| == |table1| == TABLE_SZ
  {
    if |nonces| == 0 then []
    else
      var n := nonces[|nonces| - 1];
      HitsOf(lib, h, table0, table1, nonces[..|nonces| - 1])
        + (if WorkOk(MinedState(lib, h, TableRoot(lib, table0), table1, n), h.workBits) then
             [MinedAnn(lib, h, table0, table1, n)]
           else [])
  }

  /** Validators accept the announcement for this parent hash; `stale` is what their item buffer held before. */
  predicate Accepted(lib: AnnLibrary, a: Ann, parent: seq<byte>, stale: Item) {
    CheckAnn(lib, a, parent, stale) == Some(OK)
  }

  predicate AllAccepted(lib: AnnLibrary, hits: seq<Ann>, parent: seq<byte>, stale: Item) {
    || |hits| == 0
    || (AllAccepted(lib, hits[..|hits| - 1], parent, stale) && Accepted(lib, hits[|hits| - 1], parent, stale))
  }

  /** The nonces from `start` on, in order, none left out. */
  ghost predicate Consecutive(nonces: seq<u32>, start: u32) {
    forall k :: 0 <= k < |nonces| ==> nonces[k] == start + k
  }

  predicate AllInRange(nonces: seq<u32>, target: u32)
    requires TargetUsable(target)
  {
    |nonces| == 0 || (AllInRange(nonces[..|nonces| - 1], target) && InRange(nonces[|nonces| - 1], target))
  }

  lemma AcceptOneMore(lib: AnnLibrary, hits: seq<Ann>, a: Ann, parent: seq<byte>, stale: Item)
    requires AllAccepted(lib, hits, parent, stale) && Accepted(lib, a, parent, stale)
    ensures AllAccepted(lib, hits + [a], parent, stale)
  {
    hide Accepted;
    assert (hits + [a])[..|hits|] == hits;
  }

  /** Everything handed out for nonces in range is accepted. */
  lemma {:induction false} HitsAreAccepted(lib: AnnLibrary, h: Hdr, parent: seq<byte>, table0: seq<Item>,
                                           table1: seq<Item>,
                                           nonces: seq<u32>, stale: Item)
    requires JobOk(lib, h, parent, table0, table1) && TargetUsable(h.workBits) && AllInRange(nonces, h.workBits)
    requires |table0| == |table1| == TABLE_SZ
    ensures AllAccepted(lib, HitsOf(lib, h, table0, table1, nonces), parent, stale)
  {
    hide InRange, JobOk, MinedState, MinedAnn, CheckAnn, WorkOk, TableRoot, TargetUsable;
    if |nonces| > 0 {
      var n, front := nonces[|nonces| - 1], nonces[..|nonces| - 1];
      HitsAreAccepted(lib, h, parent, table0, table1, front, stale);
      if WorkOk(MinedState(lib, h, TableRoot(lib, table0), table1, n), h.workBits) {
        UsableTarget(h.workBits, MinedState(lib, h, TableRoot(lib, table0), table1, n)[..32]);
        MinedAnnouncementsValidate(lib, h, parent, table0, table1, n, stale);
        AcceptOneMore(lib, HitsOf(lib, h, table0, table1, front), MinedAnn(lib, h, table0, table1, n), parent, stale);
      } else {
        assert HitsOf(lib, h, table0, table1, front) + [] == HitsOf(lib, h, table0, table1, front);
      }
    }
  }

  // ---------- the worker ----------

  predicate MaxOk(max: u32, target: u32)
    requires TargetUsable(target)
  {
    max <= AnnSoftNonceMax(target)
  }

  /** What AnnMiner_start sets up: no soft nonce, a version-1 header, the parent hash padded with zeros. */
  predicate ContextOk(h: Hdr, hash: Block) {
    ZeroSoft(h) == h && h.version > 0 && TargetUsable(h.workBits) && hash[32..] == Zeros(32)
  }

  /** The highest soft nonce a target allows. */
  function NonceLimit(h: Hdr): u32
    requires TargetUsable(h.workBits)
  {
    AnnSoftNonceMax(h.workBits)
  }

  /** Each announcement is accepted for the parent hash noted for it. */
  ghost predicate Vouched(lib: AnnLibrary, found: seq<Ann>, parents: seq<seq<byte>>) {
    && |found| == |parents|
    && forall i: nat, stale: Item :: i < |found| ==> Accepted(lib, found[i], parents[i], stale)
  }

  lemma {:induction false} AcceptedAt(lib: AnnLibrary, hits: seq<Ann>, parent: seq<byte>, stale: Item, i: nat)
    requires AllAccepted(lib, hits, parent, stale) && i < |hits|
    ensures Accepted(lib, hits[i], parent, stale)
  {
    hide Accepted;
    if i < |hits| - 1 {
      AcceptedAt(lib, hits[..|hits| - 1], parent, stale, i);
    }
  }

  lemma VouchedGrows(lib: AnnLibrary, found: seq<Ann>, parents: seq<seq<byte>>, hits: seq<Ann>, parent: seq<byte>)
    requires Vouched(lib, found, parents) && forall stale: Item :: AllAccepted(lib, hits, parent, stale)
    ensures Vouched(lib, found + hits, parents + Copies(parent, |hits|))
  {
    hide Accepted, AllAccepted;
    forall i: nat, stale: Item | i < |found + hits|
      ensures Accepted(lib, (found + hits)[i], (parents + Copies(parent, |hits|))[i], stale)
    {
      if i < |found| {
        assert Accepted(lib, found[i], parents[i], stale);
      } else {
        assert AllAccepted(lib, hits, parent, stale);
        AcceptedAt(lib, hits, parent, stale, i - |found|);
      }
    }
  }

  function Copies(parent: seq<byte>, n: nat): (s: seq<seq<byte>>)
    ensures |s| == n && forall i :: 0 <= i < n ==> s[i] == parent
  {
    seq(n, _ => parent)
  }

  ghost predicate AllAsked(parents: seq<seq<byte>>, asked: set<seq<byte>>) {
    forall p :: p in parents ==> p in asked
  }

  lemma AskedMore(parents: seq<seq<byte>>, asked: set<seq<byte>>, more: set<seq<byte>>)
    requires AllAsked(parents, asked)
    ensures AllAsked(parents, asked + more)
  {
  }

  /** A worker's first hard nonce for a request is its own number further on; from job to job it skips the others'. */
  function HardNonce(last: Hdr, ctxHdr: Hdr, workerNum: u32, numWorkers: u32): u32 {
    if last.(hardNonce := ctxHdr.hardNonce) == ctxHdr then (last.hardNonce + numWorkers) % 0x1_0000_0000
    else (ctxHdr.hardNonce + workerNum) % 0x1_0000_0000
  }

  /** Job `j` of a worker under one request, whose header differs from the one before. */
  function NthHeader(before: Hdr, ctxHdr: Hdr, workerNum: u32, numWorkers: u32, j: nat): Hdr {
    var last := if j == 0 then before else NthHeader(before, ctxHdr, workerNum, numWorkers, j - 1);
    ctxHdr.(hardNonce := HardNonce(last, ctxHdr, workerNum, numWorkers))
  }

  /** Its hard nonce: the request's, the worker's number further on, and a stride for each job. */
  function NthNonce(first: u32, workerNum: nat, numWorkers: nat, j: nat): u32 {
    (first + (workerNum + j * numWorkers)) % 0x1_0000_0000
  }

  lemma {:induction false} NthHardNonce(before: Hdr, ctxHdr: Hdr, workerNum: u32, numWorkers: u32, j: nat)
    requires before.(hardNonce := ctxHdr.hardNonce) != ctxHdr
    ensures NthHeader(before, ctxHdr, workerNum, numWorkers, j)
            == ctxHdr.(hardNonce := NthNonce(ctxHdr.hardNonce, workerNum, numWorkers, j))
  {
    hide NthNonce;
    NextNonce(ctxHdr.hardNonce, workerNum, numWorkers, j);
    if j > 0 {
      NthHardNonce(before, ctxHdr, workerNum, numWorkers, j - 1);
    }
  }

  lemma NextNonce(first: u32, w: nat, n: nat, j: nat)
    ensures j == 0 ==> NthNonce(first, w, n, j) == (first + w) % 0x1_0000_0000
    ensures j > 0 ==> NthNonce(first, w, n, j) == (NthNonce(first, w, n, j - 1) + n) % 0x1_0000_0000
  {
    if j > 0 {
      var x := first + (w + (j - 1) * n);
      assert first + (w + j * n) == x + n;
      AddAfter(x, n);
    }
  }

  lemma AddAfter(x: nat, n: nat)
    ensures (x % 0x1_0000_0000 + n) % 0x1_0000_0000 == (x + n) % 0x1_0000_0000
  {
  }

  /**
   * No two jobs under one request have the same header, of one worker or of two, until a worker's
   * hard nonces have gone round all 2^32.
   */
  lemma JobsDiffer(b1: Hdr, b2: Hdr, ctxHdr: Hdr, w1: u32, w2: u32, numWorkers: u32, j1: nat, j2: nat)
    requires b1.(hardNonce := ctxHdr.hardNonce) != ctxHdr && b2.(hardNonce := ctxHdr.hardNonce) != ctxHdr
    requires w1 < numWorkers && w2 < numWorkers && (w1 != w2 || j1 != j2)
    requires w1 + j1 * numWorkers < 0x1_0000_0000 && w2 + j2 * numWorkers < 0x1_0000_0000
    ensures NthHeader(b1, ctxHdr, w1, numWorkers, j1) != NthHeader(b2, ctxHdr, w2, numWorkers, j2)
  {
    hide *;
    NoncesDiffer(ctxHdr.hardNonce, w1, w2, numWorkers, j1, j2);
    NthHardNonce(b1, ctxHdr, w1, numWorkers, j1);
    NthHardNonce(b2, ctxHdr, w2, numWorkers, j2);
  }

  lemma NoncesDiffer(first: u32, w1: nat, w2: nat, n: nat, j1: nat, j2: nat)
    requires w1 < n && w2 < n && (w1 != w2 || j1 != j2)
    requires w1 + j1 * n < 0x1_0000_0000 && w2 + j2 * n < 0x1_0000_0000
    ensures NthNonce(first, w1, n, j1) != NthNonce(first, w2, n, j2)
  {
    hide *;
    MixedRadix(w1, j1, w2, j2, n);
    var x, y := w1 + j1 * n, w2 + j2 * n;
    NonceIs(first, w1, n, j1, x);
    NonceIs(first, w2, n, j2, y);
    SameRemainder(first, x, y);
  }

  lemma NonceIs(first: u32, w: nat, n: nat, j: nat, x: nat)
    requires x == w + j * n
    ensures NthNonce(first, w, n, j) == (first + x) % 0x1_0000_0000
  {
  }

  lemma MixedRadix(w1: nat, j1: nat, w2: nat, j2: nat, n: nat)
    requires w1 < n && w2 < n && (w1 != w2 || j1 != j2)
    ensures w1 + j1 * n != w2 + j2 * n
  {
    if j1 < j2 { MulMonotone(j1 + 1, j2, n); }
    if j2 < j1 { MulMonotone(j2 + 1, j1, n); }
    assert (j1 + 1) * n == j1 * n + n && (j2 + 1) * n == j2 * n + n;
  }

  lemma SameRemainder(h: nat, x: nat, y: nat)
    requires x < 0x1_0000_0000 && y < 0x1_0000_0000 && x != y
    ensures (h + x) % 0x1_0000_0000 != (h + y) % 0x1_0000_0000
  {
    var q, r := (h + x) / 0x1_0000_0000, (h + y) / 0x1_0000_0000;
    assert h + x == q * 0x1_0000_0000 + (h + x) % 0x1_0000_0000;
    assert h + y == r * 0x1_0000_0000 + (h + y) % 0x1_0000_0000;
  }

  /** Where the thread stands: at the top of its loop, getting a job, or about to search a new one. */
  datatype Phase = Top | Retrying | Searching

  /** What can happen to a worker: it runs on to its next stop, or a request is started while it is stopped. */
  datatype Event = Turn(running: nat -> bool) | Start(hdr: Hdr, hash: Block)

  class Worker {
    const lib: AnnLibrary
    const workerNum: u32
    const numWorkers: u32
    const states: seq<array<byte>>
    const proof: array<byte>
    const pfx: array<byte>
    const merkle: array<Block>
    var hdr: Hdr
    var hash: Block
    var parentBlockHash: seq<byte>
    var annHash0: Block
    var annHash1: Block
    var table: seq<Item>
    var softNonce: u32
    var softNonceMax: u32
    var found: seq<Ann>
    /** The request in force, if there has been one. */
    var started: bool
    var reqHdr: Hdr
    var reqHash: Block
    var phase: Phase
    /** The parent hash each announcement found was mined for, and all those ever asked for. */
    ghost var parents: seq<seq<byte>>
    ghost var asked: set<seq<byte>>
    /** The table that the Merkle tree was built over. */
    ghost var table0: seq<Item>

    ghost predicate Valid()
      reads this
    {
      && Lanes(states) && proof.Length == PROOF_SZ && pfx.Length == PFX_SZ && proof != pfx
      && merkle.Length == 2 * Pow2(MERKLE_DEPTH) - 1 && |table| == |table0| == TABLE_SZ
      && proof !in states && pfx !in states
    }

    /** A complete job is in place. */
    ghost predicate Ready()
      reads this, merkle
    {
      && Valid() && JobOk(lib, hdr, parentBlockHash, table0, table)
      && TableTree(merkle[..], lib, table0)
      && annHash1 == HeaderHash(lib, hdr, TableRoot(lib, table0))
      && TargetUsable(hdr.workBits) && MaxOk(softNonceMax, hdr.workBits)
    }

    /** A worker as AnnMiner_create makes it, stopped and without a request. */
    constructor (lib: AnnLibrary, workerNum: u32, numWorkers: u32, blank: Hdr)
      ensures Inv() && !started && found == []
      ensures this.lib == lib && this.workerNum == workerNum && this.numWorkers == numWorkers
    {
      hide JobOk, TableTree, ContextOk, TargetUsable, MaxOk, Accepted, HeaderHash, TableRoot, Zeros;
      this.lib, this.workerNum, this.numWorkers := lib, workerNum, numWorkers;
      var a, b, c, d := new byte[STATE_SZ], new byte[STATE_SZ], new byte[STATE_SZ], new byte[STATE_SZ];
      states := [a, b, c, d];
      proof, pfx := new byte[PROOF_SZ], new byte[PFX_SZ];
      merkle := new Block[2 * Pow2(MERKLE_DEPTH) - 1](_ => Zeros(64));
      hdr, hash, parentBlockHash, annHash0, annHash1 := blank, Zeros(64), [], Zeros(64), Zeros(64);
      table := seq(TABLE_SZ, _ => Zeros(ITEM_SZ));
      table0 := seq(TABLE_SZ, _ => Zeros(ITEM_SZ));
      softNonce, softNonceMax, found, phase := 0, 0, [], Top;
      started, reqHdr, reqHash, parents, asked := false, blank, Zeros(64), [], {};
    }

    /** Assemble, encrypt and hand out the announcement for a soft nonce. */
    method HandOut(n: u32, itemNo: nat, state: array<byte>)
      requires Ready() && state in states && itemNo < TABLE_SZ
      requires state[..] == MinedState(lib, hdr, TableRoot(lib, table0), table, n)
      requires itemNo == MinedItem(lib, hdr, TableRoot(lib, table0), table, n)
      modifies `found, proof, pfx
      ensures found == old(found) + [MinedAnn(lib, hdr, table0, table, n)]
    {
      hide MinedState, MinedItem, TableRoot, JobOk, TargetUsable, MaxOk, HeaderHash, TableTree, TableBranch, Join,
           XorBytes;
      var branch := TakeBranch(lib, itemNo, merkle, table0);
      Put(proof, 0, Join(branch));
      Put(pfx, 0, Zeros(PFX_SZ));
      assert proof[..] == Join(branch) && pfx[..] == Zeros(PFX_SZ);
      hide Overwrite;
      AnnCrypt(proof, pfx, state[..]);
      found := found + [Ann(WithSoft(hdr, n), proof[..], pfx[..])];
    }

    /** One lane: check its work, and hand out what meets the target. */
    method TryLane(k: nat, n: u32, itemNo: nat, ghost tried: seq<u32>, ghost before: seq<Ann>)
      requires Ready() && k < PAR_STATES && itemNo < TABLE_SZ
      requires states[k][..] == MinedState(lib, hdr, TableRoot(lib, table0), table, n)
      requires itemNo == MinedItem(lib, hdr, TableRoot(lib, table0), table, n)
      requires found == before + HitsOf(lib, hdr, table0, table, tried)
      modifies `found, proof, pfx
      ensures found == before + HitsOf(lib, hdr, table0, table, tried + [n])
    {
      hide MinedState, MinedItem, TableRoot, JobOk, MaxOk, HeaderHash, TableTree, IsWork, Size, Negative, Word, HitsOf;
      var state := states[k];
      assert state[..][..32] == state[..32];
      UsableTarget(hdr.workBits, state[..32]);
      hide WorkDefined;
      var enough := WorkCheck(state[..32], hdr.workBits);
      HitsStep(lib, hdr, table0, table, tried, n);
      ghost var hits := HitsOf(lib, hdr, table0, table, tried);
      if !enough {
        assert hits + [] == hits;
        return;
      }
      HandOut(n, itemNo, state);
      ghost var a := MinedAnn(lib, hdr, table0, table, n);
      assert before + hits + [a] == before + (hits + [a]);
    }

    /** Four soft nonces at once. */
    method SearchFour(nonce: u32, ghost tried: seq<u32>, ghost before: seq<Ann>)
      requires Ready() && found == before + HitsOf(lib, hdr, table0, table, tried)
      modifies `found, proof, pfx, set s | s in states
      ensures Ready() && found == before + HitsOf(lib, hdr, table0, table, tried + LaneNonces(nonce, PAR_STATES))
    {
      hide MinedState, MinedItem, TableRoot, JobOk, MaxOk, TableTree, HitsOf, LaneNonce, AnnHash, AttemptItem,
           TargetUsable, TablePick,
           HeaderHash;
      ghost var root := TableRoot(lib, table0);
      var itemNos := AnnMineMulti(lib.cc, states, annHash1[..32], nonce, table);
      forall k | 0 <= k < PAR_STATES
        ensures states[k][..] == MinedState(lib, hdr, root, table, LaneNonce(nonce, k))
             && itemNos[k] == MinedItem(lib, hdr, root, table, LaneNonce(nonce, k))
      {
        MinedIs(lib, hdr, root, table, LaneNonce(nonce, k));
      }
      assert tried + LaneNonces(nonce, 0) == tried;
      for k := 0 to PAR_STATES
        invariant Ready() && found == before + HitsOf(lib, hdr, table0, table, tried + LaneNonces(nonce, k))
        invariant forall i :: 0 <= i < PAR_STATES ==>
                    && states[i][..] == MinedState(lib, hdr, root, table, LaneNonce(nonce, i))
                    && itemNos[i] == MinedItem(lib, hdr, root, table, LaneNonce(nonce, i))
      {
        assert tried + LaneNonces(nonce, k + 1) == tried + LaneNonces(nonce, k) + [LaneNonce(nonce, k)];
        TryLane(k, LaneNonce(nonce, k), itemNos[k], tried + LaneNonces(nonce, k), before);
      }
    }

    /** searchOpt: sixteen soft nonces, four at a time. */
    method SearchOpt() returns (ghost tried: seq<u32>)
      requires Ready() && RoundFits(softNonce, NonceLimit(hdr))
      modifies `softNonce, `found, proof, pfx, set s | s in states
      ensures Ready() && softNonce == old(softNonce) + 16
      ensures |tried| == HASHES_PER_CYCLE && AllInRange(tried, hdr.workBits) && Consecutive(tried, old(softNonce))
      ensures found == old(found) + HitsOf(lib, hdr, table0, table, tried)
    {
      hide JobOk, TargetUsable, MaxOk, HeaderHash, TableTree, TableRoot, HitsOf, AllInRange, NonceLimit;
      var nonce;
      nonce, tried := SearchRound(softNonce, NonceLimit(hdr));
      softNonce := nonce;
    }

    method SearchRound(start: u32, ghost limit: u32) returns (nonce: u32, ghost tried: seq<u32>)
      requires Ready() && start + 16 <= limit == NonceLimit(hdr)
      modifies `found, proof, pfx, set s | s in states
      ensures Ready() && nonce == start + 16
      ensures |tried| == 16 && AllInRange(tried, hdr.workBits) && Consecutive(tried, start)
      ensures found == old(found) + HitsOf(lib, hdr, table0, table, tried)
    {
      hide *;
      ReadyTarget();
      LimitIsOk(hdr);
      HitsOfNone(lib, hdr, table0, table);
      NoneInRange(hdr.workBits);
      nonce, tried := start, [];
      NoneYet(start);
      Nothing(old(found));
      var i := 0;
      while i < 16
        invariant i in {0, 4, 8, 12, 16} && |tried| == i && nonce == start + i && Consecutive(tried, start)
        invariant Ready() && AllInRange(tried, hdr.workBits)
        invariant found == old(found) + HitsOf(lib, hdr, table0, table, tried)
      {
        nonce, tried := SearchNext(nonce, limit, tried, old(found), start);
        i := i + 4;
      }
    }

    /** One turn of its loop. */
    method SearchNext(nonce: u32, ghost limit: u32, ghost tried: seq<u32>, ghost before: seq<Ann>, ghost start: u32)
      returns (nonce': u32, ghost tried': seq<u32>)
      requires Ready() && nonce + 4 <= limit && MaxOk(limit, hdr.workBits) && AllInRange(tried, hdr.workBits)
      requires found == before + HitsOf(lib, hdr, table0, table, tried)
      requires Consecutive(tried, start) && nonce == start + |tried|
      modifies `found, proof, pfx, set s | s in states
      ensures Ready() && nonce' == nonce + 4 && |tried'| == |tried| + 4 && AllInRange(tried', hdr.workBits)
      ensures Consecutive(tried', start)
      ensures found == before + HitsOf(lib, hdr, table0, table, tried')
    {
      assert PAR_STATES == 4;
      hide *;
      SearchFour(nonce, tried, before);
      FourInRange(nonce, limit, tried, hdr.workBits);
      FourMore(nonce, tried, start);
      tried' := tried + LaneNonces(nonce, PAR_STATES);
      nonce' := nonce + 4;
    }

    lemma ReadyTarget()
      requires Ready()
      ensures TargetUsable(hdr.workBits) && |table0| == |table| == TABLE_SZ
    {
    }

    /** populateTable2: -1 if it is interrupted, or if an item cannot be made. */
    method PopulateTable2(seed: Block, running: nat -> bool) returns (ret: int)
      requires Valid()
      modifies `table
      ensures Valid() && (ret == 0 || ret == -1) && (ret == 0 ==> TableOf(lib, seed, table))
    {
      for i := 0 to TABLE_SZ
        invariant |table| == TABLE_SZ
        invariant forall k :: 0 <= k < i ==> lib.makeItem(seed[..32], seed[32..], k) == Some(table[k])
      {
        if !running(i) { return -1; }
        var made := lib.makeItem(seed[..32], seed[32..], i);
        if made.None? { return -1; }
        table := table[i := made.value];
      }
      ret := 0;
    }

    /** The next header: a new request with this worker's own hard nonce, or the same one with the next. */
    method NextHeader(ctxHdr: Hdr, ctxHash: Block)
      requires Valid() && ContextOk(ctxHdr, ctxHash)
      modifies `hdr, `hash
      ensures hdr == ctxHdr.(hardNonce := HardNonce(old(hdr), ctxHdr, workerNum, numWorkers)) && hash == ctxHash
    {
      var hn := hdr.hardNonce;
      hdr := hdr.(hardNonce := ctxHdr.hardNonce);
      if hdr != ctxHdr {
        hdr, hash := ctxHdr, ctxHash;
        hdr := hdr.(hardNonce := (hdr.hardNonce + workerNum) % 0x1_0000_0000);
      } else {
        hash := ctxHash;
        hdr := hdr.(hardNonce := (hn + numWorkers) % 0x1_0000_0000);
      }
    }

    /** Announce_Merkle_build over the current table; its root. */
    method BuildTree() returns (root: Block)
      requires Valid()
      modifies `table0, merkle
      ensures Valid() && table0 == table && TableTree(merkle[..], lib, table0) && root == TableRoot(lib, table0)
    {
      hide HoldsTree, Subtree;
      TableSize();
      table0 := table;
      Build(lib.h64, MERKLE_DEPTH, merkle, table);
      RootAtEnd(merkle[..], lib, table0);
      root := merkle[merkle.Length - 1];
    }

    /** getNextJob: on 0 a complete job is in place; otherwise it has to be tried again. */
    method GetNextJob(ctxHdr: Hdr, ctxHash: Block, running: nat -> bool) returns (ret: int)
      requires Valid() && ContextOk(ctxHdr, ctxHash)
      modifies `hdr, `hash, `annHash0, `annHash1, `parentBlockHash, `table, `table0, `softNonce, `softNonceMax, merkle
      ensures Valid() && (ret == 0 || ret == -1)
      ensures ret == 0 ==> Ready() && RoundFits(softNonce, softNonceMax)
      ensures ret == 0 ==> parentBlockHash == ctxHash[..32] && softNonce == 0 && softNonceMax == NonceLimit(ctxHdr)
      ensures hdr == ctxHdr.(hardNonce := HardNonce(old(hdr), ctxHdr, workerNum, numWorkers))
    {
      hide HeaderHash, TableOf, Word, Size, AnnSoftNonceMax, TableTree, TableRoot, SecondSeed, HardNonce, Zeros;
      NextHeader(ctxHdr, ctxHash);
      annHash0 := lib.h64(lib.layout(hdr) + hash);
      FirstHashIs(lib, hdr, hash);
      ret := PopulateTable2(annHash0, running);
      if ret != 0 { return; }
      var root := BuildTree();
      parentBlockHash := hash[..32];
      hash := root;
      annHash1 := lib.h64(lib.layout(hdr) + hash);
      HeaderHashIs(lib, hdr, root);
      hide FirstHash;
      softNonceMax := AnnSoftNonceMax(hdr.workBits);
      softNonce := 0;
      FirstRound(hdr.workBits);
      hide TargetUsable, MaxOk, RoundFits;
      ret := PopulateTable2(SecondSeed(lib, root, annHash0), running);
    }

    // ---------- the thread ----------

    /** What every event keeps. */
    ghost predicate Inv()
      reads this, merkle
    {
      && Valid()
      && (started ==> ContextOk(reqHdr, reqHash) && reqHash[..32] in asked)
      && (phase == Top && RoundFits(softNonce, softNonceMax) ==> Ready() && parentBlockHash in asked)
      && (phase == Searching ==> Ready() && RoundFits(softNonce, NonceLimit(hdr)) && parentBlockHash in asked)
      && Vouched(lib, found, parents) && AllAsked(parents, asked)
    }

    /** searchOpt, with a note of which parent hash its announcements are for. */
    method Search()
      requires Inv() && phase != Retrying && Ready() && RoundFits(softNonce, NonceLimit(hdr))
      requires parentBlockHash in asked
      modifies `softNonce, `found, `parents, `phase, proof, pfx, set s | s in states
      ensures Inv() && old(found) <= found && phase == Top && softNonce == old(softNonce) + 16
    {
      hide HitsOf, AllAccepted, JobOk, TargetUsable, MaxOk, HeaderHash, TableTree, TableRoot, ContextOk, RoundFits,
           AllInRange,
           Vouched, NonceLimit;
      ghost var tried := SearchOpt();
      ghost var hits := HitsOf(lib, hdr, table0, table, tried);
      forall stale: Item ensures AllAccepted(lib, hits, parentBlockHash, stale) {
        HitsAreAccepted(lib, hdr, parentBlockHash, table0, table, tried, stale);
      }
      VouchedGrows(lib, old(found), parents, hits, parentBlockHash);
      parents := parents + Copies(parentBlockHash, |hits|);
      phase := Top;
    }

    /** The thread up to its next look at whether it should stop: it tries again until it has a job. */
    method Continue(running: nat -> bool)
      requires Inv()
      modifies this, merkle, proof, pfx, set s | s in states
      ensures Inv() && old(found) <= found
      ensures started && old(phase) == Top ==>
                if old(softNonce) + 16 <= old(softNonceMax) then phase == Top && softNonce == old(softNonce) + 16
                else phase == Retrying && found == old(found)
      ensures old(phase) == Searching && started ==> phase == Top && softNonce == old(softNonce) + 16
    {
      FitsIff(softNonce, softNonceMax);
      hide JobOk, TargetUsable, MaxOk, HeaderHash, TableTree, TableRoot, ContextOk, RoundFits, Vouched, NonceLimit;
      if !started { return; }
      match phase {
        case Top =>
          if RoundFits(softNonce, softNonceMax) {
            FitsLimit(softNonce, softNonceMax, hdr);
            Search();
          } else {
            phase := Retrying;
          }
        case Retrying =>
          var x := GetNextJob(reqHdr, reqHash, running);
          if x == 0 {
            FitsLimit(softNonce, softNonceMax, hdr);
            phase := Searching;
          }
        case Searching =>
          Search();
      }
    }

    /** AnnMiner_start for this worker, which is stopped: a new request makes it get a new job. */
    method StartRequest(ctxHdr: Hdr, ctxHash: Block)
      requires Inv() && ContextOk(ctxHdr, ctxHash)
      modifies `started, `reqHdr, `reqHash, `softNonceMax, `asked
      ensures Inv() && started && reqHdr == ctxHdr && reqHash == ctxHash
    {
      hide JobOk, TargetUsable, HeaderHash, TableTree, TableRoot, ContextOk, Vouched, NonceLimit, MaxOk, RoundFits,
           Lanes, AllAsked;
      NoRoundLeft(softNonce, hdr);
      AskedMore(parents, asked, {ctxHash[..32]});
      asked := asked + {ctxHash[..32]};
      if !started || reqHdr != ctxHdr || reqHash != ctxHash {
        started, reqHdr, reqHash := true, ctxHdr, ctxHash;
        softNonceMax := 0;
      }
    }

    /**
     * Over any course of events, every announcement found so far is accepted for the parent hash it
     * was mined for, which is one that was asked for.
     */
    method Run(events: seq<Event>)
      requires Inv()
      requires forall i :: 0 <= i < |events| && events[i].Start? ==> ContextOk(events[i].hdr, events[i].hash)
      modifies this, merkle, proof, pfx, set s | s in states
      ensures Inv() && old(found) <= found && |parents| == |found|
      ensures forall i: nat, stale: Item :: i < |found| ==>
                Accepted(lib, found[i], parents[i], stale) && parents[i] in asked
    {
      hide ContextOk, Accepted, RoundFits, NonceLimit, JobOk;
      for k := 0 to |events|
        invariant Inv() && old(found) <= found
      {
        match events[k] {
          case Turn(running) => Continue(running);
          case Start(ctxHdr, ctxHash) => StartRequest(ctxHdr, ctxHash);
        }
      }
      assert forall i :: 0 <= i < |parents| ==> parents[i] in parents;
    }
  }

  lemma FitsIff(nonce: u32, max: u32)
    ensures RoundFits(nonce, max) <==> nonce + 16 <= max
  {
  }

  lemma FitsLimit(nonce: u32, max: u32, h: Hdr)
    requires RoundFits(nonce, max) && TargetUsable(h.workBits) && MaxOk(max, h.workBits)
    ensures RoundFits(nonce, NonceLimit(h))
  {
    hide AnnSoftNonceMax, TargetUsable;
  }

  lemma NoRoundLeft(nonce: u32, h: Hdr)
    ensures !RoundFits(nonce, 0) && (TargetUsable(h.workBits) ==> MaxOk(0, h.workBits))
  {
    hide AnnSoftNonceMax, TargetUsable;
  }

  lemma LimitIsOk(h: Hdr)
    requires TargetUsable(h.workBits)
    ensures MaxOk(NonceLimit(h), h.workBits)
  {
    hide AnnSoftNonceMax, TargetUsable;
  }

  lemma Nothing(s: seq<Ann>)
    ensures s + [] == s
  {
  }

  lemma HitsOfNone(lib: AnnLibrary, h: Hdr, table0: seq<Item>, table1: seq<Item>)
    requires |table0| == |table1| == TABLE_SZ
    ensures HitsOf(lib, h, table0, table1, []) == []
  {
  }

  lemma NoneYet(start: u32)
    ensures Consecutive([], start)
  {
  }

  lemma FourMore(nonce: u32, tried: seq<u32>, start: u32)
    requires Consecutive(tried, start) && nonce == start + |tried| && nonce + 4 <= 0xffff_ffff
    ensures Consecutive(tried + LaneNonces(nonce, PAR_STATES), start)
  {
  }

  lemma NoneInRange(target: u32)
    requires TargetUsable(target)
    ensures AllInRange([], target)
  {
  }

  lemma FourInRange(nonce: u32, max: u32, tried: seq<u32>, target: u32)
    requires nonce + PAR_STATES <= max && TargetUsable(target) && MaxOk(max, target) && AllInRange(tried, target)
    ensures AllInRange(tried + LaneNonces(nonce, PAR_STATES), target)
  {
    hide TargetUsable, AnnSoftNonceMax, AllInRange, InRange, MaxOk, LaneNonce;
    assert tried + LaneNonces(nonce, 0) == tried;
    for k := 0 to PAR_STATES
      invariant AllInRange(tried + LaneNonces(nonce, k), target)
    {
      assert tried + LaneNonces(nonce, k + 1) == tried + LaneNonces(nonce, k) + [LaneNonce(nonce, k)];
      LaneInRange(nonce, k, max, target);
      OneMoreInRange(tried + LaneNonces(nonce, k), LaneNonce(nonce, k), target);
    }
  }

  lemma LaneInRange(nonce: u32, k: nat, max: u32, target: u32)
    requires nonce + PAR_STATES <= max && k < PAR_STATES && TargetUsable(target) && MaxOk(max, target)
    ensures InRange(LaneNonce(nonce, k), target)
  {
    hide AnnSoftNonceMax, Word, Size;
  }

  lemma OneMoreInRange(s: seq<u32>, n: u32, target: u32)
    requires TargetUsable(target) && AllInRange(s, target) && InRange(n, target)
    ensures AllInRange(s + [n], target)
  {
    hide InRange, TargetUsable;
    assert (s + [n])[..|s|] == s;
  }

  /** A fresh job has room for a round. */
  lemma FirstRound(target: u32)
    requires TargetUsable(target)
    ensures RoundFits(0, AnnSoftNonceMax(target)) && MaxOk(AnnSoftNonceMax(target), target)
  {
    hide AnnSoftNonceMax;
  }

  lemma FirstHashIs(lib: AnnLibrary, h: Hdr, hash: Block)
    requires ZeroSoft(h) == h && hash[32..] == Zeros(32)
    ensures FirstHash(lib, h, hash[..32]) == lib.h64(lib.layout(h) + hash)
  {
    assert hash == hash[..32] + Zeros(32);
  }

  lemma HeaderHashIs(lib: AnnLibrary, h: Hdr, b: Block)
    requires ZeroSoft(h) == h
    ensures HeaderHash(lib, h, b) == lib.h64(lib.layout(h) + b)
  {
  }

  lemma RootAtEnd(out: seq<Block>, lib: AnnLibrary, table0: seq<Item>)
    requires TableTree(out, lib, table0) && |out| > 0
    ensures out[|out| - 1] == TableRoot(lib, table0)
  {
    RootCell(out, lib.h64, table0, MERKLE_DEPTH);
    LevelStarts(MERKLE_DEPTH, MERKLE_DEPTH);
    LevelStarts(MERKLE_DEPTH, MERKLE_DEPTH + 1);
  }

  /** The nonces of the first `n` lanes. */
  function LaneNonces(nonce: u32, n: nat): (s: seq<u32>)
    requires n <= PAR_STATES
    ensures |s| == n
  {
    seq(n, k requires 0 <= k < n => LaneNonce(nonce, k))
  }

  lemma MinedIs(lib: AnnLibrary, h: Hdr, root: Block, table1: seq<Item>, n: u32)
    requires |table1| == TABLE_SZ
    ensures MinedState(lib, h, root, table1, n) == AnnHash(lib.cc, HeaderHash(lib, h, root)[..32], n, TablePick(table1))
    ensures MinedItem(lib, h, root, table1, n)
         == AttemptItem(lib.cc, HeaderHash(lib, h, root)[..32], n, TablePick(table1), 3) % TABLE_SZ
  {
    hide AnnHash, AttemptItem, HeaderHash, TablePick;
  }

  lemma HitsStep(lib: AnnLibrary, h: Hdr, table0: seq<Item>, table1: seq<Item>, nonces: seq<u32>, n: u32)
    requires |table0| == |table1| == TABLE_SZ
    ensures HitsOf(lib, h, table0, table1, nonces + [n]) == HitsOf(lib, h, table0, table1, nonces)
      + (if WorkOk(MinedState(lib, h, TableRoot(lib, table0), table1, n), h.workBits) then
           [MinedAnn(lib, h, table0, table1, n)]
         else [])
  {
    hide WorkOk, MinedState, MinedAnn, TableRoot;
    assert (nonces + [n])[..|nonces|] == nonces;
  }

  /** The buffer holds the Merkle tree over a table. */
  ghost predicate TableTree(out: seq<Block>, lib: AnnLibrary, table0: seq<Item>) {
    |table0| == TABLE_SZ && TABLE_SZ == Pow2(MERKLE_DEPTH) && HoldsTree(out, lib.h64, table0, MERKLE_DEPTH)
  }

  method TakeBranch(lib: AnnLibrary, itemNo: nat, merkle: array<Block>, ghost table0: seq<Item>)
    returns (branch: seq<Block>)
    requires TableTree(merkle[..], lib, table0) && itemNo < TABLE_SZ
    ensures branch == TableBranch(lib, table0, itemNo)
  {
    hide HoldsTree, Branch, Pow2;
    branch := GetBranch(lib.h64, MERKLE_DEPTH, itemNo, merkle, table0);
  }
}
