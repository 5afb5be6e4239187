/**
 * Validate_checkBlock code by code: what a share's work comes to, and for each answer exactly which
 * shares get it.
 */
module ShareVerdicts {
  import opened Words
  import opened CryptoCycle
  import opened LaneMining
  import opened Difficulty
  import opened Work
  import opened RangeTree
  import opened ProofCheck
  import opened Share
  import opened ShareCrash

  // ---------- what is worked out ----------

  /**
   * The four item numbers are those the state names before each update with an announcement, and the
   * hash is that of the state after all four and the multiplication.
   */
  lemma RunSpelledOut(lib: BlockLibrary, hap: HeaderAndProof)
    ensures var l, anns := lib.ann.cc, hap.announcements;
            var s0 := Init0(l, l.compress32(lib.headerBytes(hap.header)), NonceWord(hap.nonce2));
            var s1 := Update(l, s0, anns[0], true);
            var s2 := Update(l, s1, anns[1], true);
            var s3 := Update(l, s2, anns[2], true);
            var s4 := Update(l, s3, anns[3], true);
            && WorkHash(lib, hap) == Final(l, Smul(l, s4))[..32]
            && Indexes(l, StartOf(lib, hap), anns, NUM_ANNS) == [ItemNo(s0), ItemNo(s1), ItemNo(s2), ItemNo(s3)]
  {
    hide Update, Smul, Final, ItemNo, Init0;
    var l, anns, s0 := lib.ann.cc, hap.announcements, StartOf(lib, hap);
    var one, two, three := 1, 2, 3;
    assert ReplayOn(l, s0, anns, one) == Update(l, s0, anns[0], true);
    assert ReplayOn(l, s0, anns, two) == Update(l, ReplayOn(l, s0, anns, one), anns[1], true);
    assert ReplayOn(l, s0, anns, three) == Update(l, ReplayOn(l, s0, anns, two), anns[2], true);
  }

  /** A commitment in order: its magic, and a target with a value, not above the largest. */
  lemma CoinbaseOkIff(cb: Coinbase)
    ensures CoinbaseOk(cb) <==>
              && cb.magic == 0x0211_f909 && cb.annLeastWorkTarget <= 0x207f_ffff
              && !Negative(cb.annLeastWorkTarget) && BnForCompact(cb.annLeastWorkTarget) > 0
  {
    MinAnnDiffOkIff(cb.annLeastWorkTarget);
    hide IsMinAnnDiffOk, Negative, BnForCompact;
  }

  /** The age of an announcement, on 32 bits. */
  lemma AgeWraps(height: u32, parent: u32)
    ensures Sub32(height, parent) == (height - parent) % 0x1_0000_0000
  {
  }

  // ---------- the work ----------

  /** Read as an integer, the hash is below what the target comes to with the announcements that were used. */
  predicate Reaches(hash: Digest32, cb: Coinbase, target: u32)
    requires !Negative(target) && !Negative(cb.annLeastWorkTarget)
  {
    EffectiveIsCompact(target, cb.annLeastWorkTarget, cb.numAnns);
    HashValue(hash) < BnForCompact(GetEffectiveTarget(target, cb.annLeastWorkTarget, cb.numAnns))
  }

  /** The hash is good enough for a block. */
  predicate IsBlock(hash: Digest32, cb: Coinbase, workBits: u32)
    requires CoinbaseOk(cb)
  {
    LeastIsPositive(cb);
    !Negative(workBits) && Reaches(hash, cb, workBits)
  }

  /** It is good enough for a share and not for a block; without a share target nothing is. */
  predicate IsShare(hash: Digest32, cb: Coinbase, workBits: u32, shareTarget: u32)
    requires CoinbaseOk(cb)
  {
    !IsBlock(hash, cb, workBits) && shareTarget != 0 && IsBlock(hash, cb, shareTarget)
  }

  lemma MeetsIffReaches(hash: Digest32, cb: Coinbase, target: u32)
    requires CoinbaseOk(cb) && !Negative(target)
    ensures Meets(hash, GetEffectiveTarget(target, cb.annLeastWorkTarget, cb.numAnns)) <==> IsBlock(hash, cb, target)
  {
    LeastIsPositive(cb);
    EffectiveIsCompact(target, cb.annLeastWorkTarget, cb.numAnns);
    hide CoinbaseOk, Negative, GetEffectiveTarget, HashValue, BnForCompact;
  }

  /** checkPcHash's three answers, and when it gives none. */
  lemma CodesOfWork(hash: Digest32, cb: Coinbase, workBits: u32, shareTarget: u32)
    requires CoinbaseOk(cb)
    ensures var v, judged := PowVerdict(hash, cb, workBits, shareTarget), !PowCrashes(hash, cb, workBits, shareTarget);
            && (v == Returned(OK) <==> judged && IsBlock(hash, cb, workBits))
            && (v == Returned(SHARE_OK) <==> judged && IsShare(hash, cb, workBits, shareTarget))
            && (v == Returned(INSUF_POW) <==>
                  judged && !IsBlock(hash, cb, workBits) && !IsShare(hash, cb, workBits, shareTarget))
            && (v == Crashed <==> !judged)
  {
    hide *;
    PowCrashesIff(hash, cb, workBits, shareTarget);
    PowSteps(hash, cb, workBits, shareTarget);
    EnoughIs(hash, cb, workBits);
    EnoughIs(hash, cb, shareTarget);
    IsShareIs(hash, cb, workBits, shareTarget);
  }

  lemma PowSteps(hash: Digest32, cb: Coinbase, workBits: u32, shareTarget: u32)
    requires CoinbaseOk(cb)
    ensures var e, f := EnoughWork(hash, cb, workBits), EnoughWork(hash, cb, shareTarget);
            && PowVerdict(hash, cb, workBits, shareTarget)
               == (if e.None? then Crashed else if e.value then Returned(OK)
                   else if shareTarget == 0 then Returned(INSUF_POW)
                   else if f.None? then Crashed else if f.value then Returned(SHARE_OK) else Returned(INSUF_POW))
            && OK != SHARE_OK && OK != INSUF_POW && SHARE_OK != INSUF_POW
  {
    hide EnoughWork, CoinbaseOk;
  }

  lemma EnoughIs(hash: Digest32, cb: Coinbase, target: u32)
    requires CoinbaseOk(cb)
    ensures var e := EnoughWork(hash, cb, target);
            e.Some? ==> e.value == IsBlock(hash, cb, target)
  {
    hide *;
    EnoughWorkIs(hash, cb, target);
    if EnoughWork(hash, cb, target).Some? { MeetsIffReaches(hash, cb, target); }
  }

  lemma IsShareIs(hash: Digest32, cb: Coinbase, workBits: u32, shareTarget: u32)
    requires CoinbaseOk(cb)
    ensures IsShare(hash, cb, workBits, shareTarget)
            <==> !IsBlock(hash, cb, workBits) && shareTarget != 0 && IsBlock(hash, cb, shareTarget)
  {
    hide IsBlock, CoinbaseOk;
  }

  // ---------- the announcements ----------

  /** Announcement `i` is invalid for its parent, if the caller gives parents to validate against. */
  predicate IsInvalid(lib: BlockLibrary, items: Items, i: nat, parents: Parents, stale: seq<Item>)
    requires i < NUM_ANNS == |stale|
  {
    && parents.Some?
    && var ret := A.CheckAnn(lib.ann, lib.parse(items[i]), parents.value[i], stale[i]);
       ret.Some? && ret != Some(A.OK)
  }

  /** It is valid for its parent, or need not be. */
  predicate IsValid(lib: BlockLibrary, items: Items, i: nat, parents: Parents, stale: seq<Item>)
    requires i < NUM_ANNS == |stale|
  {
    parents.Some? ==> A.CheckAnn(lib.ann, lib.parse(items[i]), parents.value[i], stale[i]) == Some(A.OK)
  }

  /** Its target, degraded by its age unless the chain is new, is above the commitment's. */
  predicate IsTooEasy(lib: BlockLibrary, items: Items, i: nat, height: u32, cb: Coinbase)
    requires i < NUM_ANNS
  {
    var hdr := lib.parse(items[i]).hdr;
    var degraded := Degraded(hdr.workBits, Sub32(height, hdr.parentBlockHeight));
    degraded.Some? && cb.annLeastWorkTarget < (if height < 3 then hdr.workBits else degraded.value)
  }

  lemma CodesOfOne(lib: BlockLibrary, items: Items, i: nat, height: u32, cb: Coinbase, parents: Parents,
                   stale: seq<Item>)
    requires i < NUM_ANNS == |stale|
    ensures var fault := AnnFault(lib, items, i, height, cb, parents, stale);
            && (fault == Some(Returned(0x200 + i)) <==> IsInvalid(lib, items, i, parents, stale))
            && (fault == Some(Returned(0x300 + i)) <==>
                  IsValid(lib, items, i, parents, stale) && IsTooEasy(lib, items, i, height, cb))
            && (fault == None || fault == Some(Crashed) || fault == Some(Returned(0x200 + i))
                || fault == Some(Returned(0x300 + i)))
            && (fault == None <==> AnnPasses(lib, items, i, height, cb, parents, stale))
  {
    AnnFaultIff(lib, items, i, height, cb, parents, stale);
    hide Degraded, A.CheckAnn, Sub32, AnnPasses, AnnCrashes;
  }

  /** Announcements `k` up to `i` pass. */
  ghost predicate PassBetween(lib: BlockLibrary, items: Items, k: nat, i: nat, height: u32, cb: Coinbase,
                              parents: Parents, stale: seq<Item>)
    requires i <= NUM_ANNS == |stale|
  {
    forall j :: k <= j < i ==> AnnPasses(lib, items, j, height, cb, parents, stale)
  }

  /** A code naming announcement `i` is given exactly when those before it pass and `i` is at fault. */
  lemma {:induction false} FirstFaultAt(lib: BlockLibrary, items: Items, k: nat, i: nat, code: int, height: u32,
                                        cb: Coinbase, parents: Parents, stale: seq<Item>)
    requires k <= i < NUM_ANNS == |stale| && (code == 0x200 + i || code == 0x300 + i)
    ensures FirstFault(lib, items, k, height, cb, parents, stale) == Some(Returned(code)) <==>
              && PassBetween(lib, items, k, i, height, cb, parents, stale)
              && AnnFault(lib, items, i, height, cb, parents, stale) == Some(Returned(code))
    decreases i - k
  {
    hide *;
    if k < i {
      FirstFaultAt(lib, items, k + 1, i, code, height, cb, parents, stale);
      PassNext(lib, items, k, i, height, cb, parents, stale);
      FaultBefore(lib, items, k, i, code, height, cb, parents, stale);
    } else {
      NothingBetween(lib, items, i, height, cb, parents, stale);
      FaultHere(lib, items, i, code, height, cb, parents, stale);
    }
  }

  /** An announcement before it that does not pass takes its own code. */
  lemma FaultBefore(lib: BlockLibrary, items: Items, k: nat, i: nat, code: int, height: u32, cb: Coinbase,
                    parents: Parents, stale: seq<Item>)
    requires k < i < NUM_ANNS == |stale| && (code == 0x200 + i || code == 0x300 + i)
    ensures FirstFault(lib, items, k, height, cb, parents, stale) == Some(Returned(code)) <==>
              && AnnPasses(lib, items, k, height, cb, parents, stale)
              && FirstFault(lib, items, k + 1, height, cb, parents, stale) == Some(Returned(code))
  {
    assert NUM_ANNS == 4;
    hide *;
    CodesOfOne(lib, items, k, height, cb, parents, stale);
    FirstFaultNext(lib, items, k, height, cb, parents, stale);
  }

  lemma FaultHere(lib: BlockLibrary, items: Items, i: nat, code: int, height: u32, cb: Coinbase, parents: Parents,
                  stale: seq<Item>)
    requires i < NUM_ANNS == |stale| && (code == 0x200 + i || code == 0x300 + i)
    ensures FirstFault(lib, items, i, height, cb, parents, stale) == Some(Returned(code)) <==>
              AnnFault(lib, items, i, height, cb, parents, stale) == Some(Returned(code))
  {
    assert NUM_ANNS == 4;
    hide *;
    FirstFaultNext(lib, items, i, height, cb, parents, stale);
    NoLaterFault(lib, items, i + 1, code, height, cb, parents, stale);
  }

  lemma NothingBetween(lib: BlockLibrary, items: Items, i: nat, height: u32, cb: Coinbase, parents: Parents,
                       stale: seq<Item>)
    requires i <= NUM_ANNS == |stale|
    ensures PassBetween(lib, items, i, i, height, cb, parents, stale)
  {
  }

  lemma PassNext(lib: BlockLibrary, items: Items, k: nat, i: nat, height: u32, cb: Coinbase, parents: Parents,
                 stale: seq<Item>)
    requires k < i < NUM_ANNS == |stale|
    ensures PassBetween(lib, items, k, i, height, cb, parents, stale) <==>
              AnnPasses(lib, items, k, height, cb, parents, stale)
              && PassBetween(lib, items, k + 1, i, height, cb, parents, stale)
  {
    hide AnnPasses;
  }

  lemma FirstFaultNext(lib: BlockLibrary, items: Items, k: nat, height: u32, cb: Coinbase, parents: Parents,
                       stale: seq<Item>)
    requires k < NUM_ANNS == |stale|
    ensures var f := AnnFault(lib, items, k, height, cb, parents, stale);
            FirstFault(lib, items, k, height, cb, parents, stale)
            == if f.Some? then f else FirstFault(lib, items, k + 1, height, cb, parents, stale)
  {
    hide AnnFault;
  }

  lemma {:induction false} NoLaterFault(lib: BlockLibrary, items: Items, k: nat, code: int, height: u32, cb: Coinbase,
                                        parents: Parents, stale: seq<Item>)
    requires k <= NUM_ANNS == |stale| && (code < 0x200 + k || 0x204 <= code < 0x300 + k || 0x304 <= code)
    ensures FirstFault(lib, items, k, height, cb, parents, stale) != Some(Returned(code))
    decreases NUM_ANNS - k
  {
    assert NUM_ANNS == 4 && (k == NUM_ANNS ==> FirstFault(lib, items, k, height, cb, parents, stale) == None);
    hide *;
    if k < NUM_ANNS {
      CodesOfOne(lib, items, k, height, cb, parents, stale);
      FirstFaultNext(lib, items, k, height, cb, parents, stale);
      NoLaterFault(lib, items, k + 1, code, height, cb, parents, stale);
    }
  }

  /** The other codes are not those of a fault among the announcements. */
  lemma NotAnnCodes(lib: BlockLibrary, items: Items, height: u32, cb: Coinbase, parents: Parents, stale: seq<Item>)
    requires |stale| == NUM_ANNS
    ensures var fault := FirstFault(lib, items, 0, height, cb, parents, stale);
            && fault != Some(Returned(OK)) && fault != Some(Returned(SHARE_OK)) && fault != Some(Returned(INSUF_POW))
            && fault != Some(Returned(PCP_INVAL)) && fault != Some(Returned(PCP_MISMATCH))
            && fault != Some(Returned(BAD_COINBASE))
  {
    hide FirstFault;
    NoLaterFault(lib, items, 0, OK, height, cb, parents, stale);
    NoLaterFault(lib, items, 0, SHARE_OK, height, cb, parents, stale);
    NoLaterFault(lib, items, 0, INSUF_POW, height, cb, parents, stale);
    NoLaterFault(lib, items, 0, PCP_INVAL, height, cb, parents, stale);
    NoLaterFault(lib, items, 0, PCP_MISMATCH, height, cb, parents, stale);
    NoLaterFault(lib, items, 0, BAD_COINBASE, height, cb, parents, stale);
  }

  // ---------- the proof ----------

  /** The root hashProof works out from the announcements and the proof, if it accepts. */
  function ProvenRoot(lib: BlockLibrary, hap: HeaderAndProof, cb: Coinbase): Option<Hash>
    requires 1 <= cb.numAnns < Pow2(63)
  {
    Check(lib.H, AnnHashes(lib, hap.announcements), cb.numAnns,
          Indexes(lib.ann.cc, StartOf(lib, hap), hap.announcements, NUM_ANNS), hap.proof)
  }

  /** The proof leads to the root that was committed to. */
  predicate ProofMatches(lib: BlockLibrary, hap: HeaderAndProof, cb: Coinbase) {
    1 <= cb.numAnns < Pow2(63) && ProvenRoot(lib, hap, cb) == Some(cb.merkleRoot)
  }

  /** It leads to another. */
  predicate ProofDiffers(lib: BlockLibrary, hap: HeaderAndProof, cb: Coinbase) {
    && 1 <= cb.numAnns < Pow2(63)
    && ProvenRoot(lib, hap, cb).Some? && ProvenRoot(lib, hap, cb) != Some(cb.merkleRoot)
  }

  /** It is no proof, or the count is the one that leaves no room for the zero entry. */
  predicate ProofFails(lib: BlockLibrary, hap: HeaderAndProof, cb: Coinbase) {
    cb.numAnns == MAX64 || (1 <= cb.numAnns < Pow2(63) && ProvenRoot(lib, hap, cb).None?)
  }

  lemma CodesOfProof(lib: BlockLibrary, hap: HeaderAndProof, cb: Coinbase, chk: Verdict)
    ensures var v := ProofVerdict(lib, AnnHashes(lib, hap.announcements),
                                  Indexes(lib.ann.cc, StartOf(lib, hap), hap.announcements, NUM_ANNS), hap.proof, cb,
                                  chk);
            v == if ProofMatches(lib, hap, cb) then chk else if ProofDiffers(lib, hap, cb) then Returned(PCP_MISMATCH)
                 else if ProofFails(lib, hap, cb) then Returned(PCP_INVAL) else Crashed
  {
    SmallCount();
    hide Check, AnnHashes, Indexes, StartOf, Pow2;
  }

  lemma SmallCount()
    ensures Pow2(63) <= MAX64
  {
    assert Pow2(7) == 128;
    SmallPowers();
    hide Pow2;
    Pow2Adds(24, 8);
    Pow2Adds(32, 24);
    Pow2Adds(56, 7);
  }

  // ---------- the whole check ----------

  /** What comes first is looked at first. */
  lemma HeadersFirst(lib: BlockLibrary, hap: Option<HeaderAndProof>, height: u32, shareTarget: u32, cb: Coinbase,
                     parents: Parents, stale: seq<Item>)
    requires |stale| == NUM_ANNS
    ensures var v := BlockVerdict(lib, hap, height, shareTarget, cb, parents, stale);
            && (hap.None? ==> v == Returned(PCP_INVAL))
            && (hap.Some? && !CoinbaseOk(cb) ==> v == Returned(BAD_COINBASE))
            && (hap.Some? && CoinbaseOk(cb) ==> v == Stages(lib, hap.value, height, shareTarget, cb, parents, stale))
  {
    hide CoinbaseOk, FirstFault, AnnHashes, Indexes, StartOf, PowHash, PowVerdict, ProofVerdict, ProofMatches,
         ProofDiffers, ProofFails;
    if hap.Some? && CoinbaseOk(cb) {
      var hash := WorkHash(lib, hap.value);
      CodesOfProof(lib, hap.value, cb, PowVerdict(hash, cb, hap.value.header.workBits, shareTarget));
    }
  }

  /** Work, announcements, proof. */
  function Stages(lib: BlockLibrary, hap: HeaderAndProof, height: u32, shareTarget: u32, cb: Coinbase,
                  parents: Parents, stale: seq<Item>): Verdict
    requires |stale| == NUM_ANNS && CoinbaseOk(cb)
  {
    var chk := PowVerdict(WorkHash(lib, hap), cb, hap.header.workBits, shareTarget);
    var fault := FirstFault(lib, hap.announcements, 0, height, cb, parents, stale);
    if chk == Crashed then Crashed
    else if fault.Some? then fault.value
    else if ProofMatches(lib, hap, cb) then chk
    else if ProofDiffers(lib, hap, cb) then Returned(PCP_MISMATCH)
    else if ProofFails(lib, hap, cb) then Returned(PCP_INVAL)
    else Crashed
  }

  /** Everything but the work is in order. */
  ghost predicate AllButWork(lib: BlockLibrary, hap: HeaderAndProof, height: u32, cb: Coinbase, parents: Parents,
                             stale: seq<Item>)
    requires |stale| == NUM_ANNS
  {
    AllPass(lib, hap.announcements, 0, height, cb, parents, stale) && ProofMatches(lib, hap, cb)
  }

  /**
   * Validate_checkBlock for any share under a commitment that is in order: the three answers about
   * work when all else is in order, and the two about the proof when work and announcements return.
   */
  lemma CodesOfShare(lib: BlockLibrary, hap: HeaderAndProof, height: u32, shareTarget: u32, cb: Coinbase,
                     parents: Parents, stale: seq<Item>)
    requires |stale| == NUM_ANNS && CoinbaseOk(cb)
    ensures var v := BlockVerdict(lib, Some(hap), height, shareTarget, cb, parents, stale);
            var hash, bits := WorkHash(lib, hap), hap.header.workBits;
            var judged := !PowCrashes(hash, cb, bits, shareTarget);
            var pass := AllPass(lib, hap.announcements, 0, height, cb, parents, stale);
            var fine := judged && AllButWork(lib, hap, height, cb, parents, stale);
            && (v == Returned(OK) <==> fine && IsBlock(hash, cb, bits))
            && (v == Returned(SHARE_OK) <==> fine && IsShare(hash, cb, bits, shareTarget))
            && (v == Returned(INSUF_POW) <==> fine && !IsBlock(hash, cb, bits) && !IsShare(hash, cb, bits, shareTarget))
            && (v == Returned(PCP_MISMATCH) <==> judged && pass && ProofDiffers(lib, hap, cb))
            && (v == Returned(PCP_INVAL) <==> judged && pass && ProofFails(lib, hap, cb))
            && v != Returned(BAD_COINBASE)
  {
    assert OK == 0 && SHARE_OK == 0x100 && INSUF_POW == 0x800;
    hide *;
    CodesOfWork(WorkHash(lib, hap), cb, hap.header.workBits, shareTarget);
    FirstFaultIff(lib, hap.announcements, 0, height, cb, parents, stale);
    StagesAre(lib, hap, height, shareTarget, cb, parents, stale);
    WorkDecides(lib, hap, height, shareTarget, cb, parents, stale, OK);
    WorkDecides(lib, hap, height, shareTarget, cb, parents, stale, SHARE_OK);
    WorkDecides(lib, hap, height, shareTarget, cb, parents, stale, INSUF_POW);
    ProofDecides(lib, hap, height, shareTarget, cb, parents, stale);
  }

  /** The codes about work are given when everything else passes and the work is worth that. */
  lemma WorkDecides(lib: BlockLibrary, hap: HeaderAndProof, height: u32, shareTarget: u32, cb: Coinbase,
                    parents: Parents, stale: seq<Item>, code: int)
    requires |stale| == NUM_ANNS && CoinbaseOk(cb) && code in {0, 0x100, 0x800}
    ensures BlockVerdict(lib, Some(hap), height, shareTarget, cb, parents, stale) == Returned(code) <==>
              && PowVerdict(WorkHash(lib, hap), cb, hap.header.workBits, shareTarget) == Returned(code)
              && FirstFault(lib, hap.announcements, 0, height, cb, parents, stale) == None
              && ProofMatches(lib, hap, cb)
  {
    assert PCP_INVAL == 0x600 && PCP_MISMATCH == 0x700 && NUM_ANNS == 4;
    hide *;
    HeadersFirst(lib, Some(hap), height, shareTarget, cb, parents, stale);
    NoLaterFault(lib, hap.announcements, 0, code, height, cb, parents, stale);
    StagesAre(lib, hap, height, shareTarget, cb, parents, stale);
  }

  /** Those about the proof when announcements pass and it leads elsewhere or nowhere. */
  lemma ProofDecides(lib: BlockLibrary, hap: HeaderAndProof, height: u32, shareTarget: u32, cb: Coinbase,
                     parents: Parents, stale: seq<Item>)
    requires |stale| == NUM_ANNS && CoinbaseOk(cb)
    ensures var v := BlockVerdict(lib, Some(hap), height, shareTarget, cb, parents, stale);
            var reached := !PowCrashes(WorkHash(lib, hap), cb, hap.header.workBits, shareTarget)
                           && FirstFault(lib, hap.announcements, 0, height, cb, parents, stale) == None;
            && (v == Returned(PCP_MISMATCH) <==> reached && ProofDiffers(lib, hap, cb))
            && (v == Returned(PCP_INVAL) <==> reached && ProofFails(lib, hap, cb))
            && v != Returned(BAD_COINBASE)
  {
    hide *;
    HeadersFirst(lib, Some(hap), height, shareTarget, cb, parents, stale);
    PowCrashesIff(WorkHash(lib, hap), cb, hap.header.workBits, shareTarget);
    NotAnnCodes(lib, hap.announcements, height, cb, parents, stale);
    NotWorkCodes(WorkHash(lib, hap), cb, hap.header.workBits, shareTarget);
    StagesAre(lib, hap, height, shareTarget, cb, parents, stale);
    OneProof(lib, hap, cb);
  }

  lemma NotWorkCodes(hash: Digest32, cb: Coinbase, workBits: u32, shareTarget: u32)
    requires CoinbaseOk(cb)
    ensures var v := PowVerdict(hash, cb, workBits, shareTarget);
            v != Returned(PCP_MISMATCH) && v != Returned(PCP_INVAL) && v != Returned(BAD_COINBASE)
    ensures PCP_MISMATCH != PCP_INVAL && PCP_INVAL != BAD_COINBASE && PCP_MISMATCH != BAD_COINBASE
  {
    hide EnoughWork, CoinbaseOk;
  }

  /** And each code that names an announcement: work and the announcements before it pass, and it is at fault. */
  lemma CodesOfAnns(lib: BlockLibrary, hap: HeaderAndProof, height: u32, shareTarget: u32, cb: Coinbase,
                    parents: Parents, stale: seq<Item>, i: nat)
    requires i < NUM_ANNS == |stale| && CoinbaseOk(cb)
    ensures var v := BlockVerdict(lib, Some(hap), height, shareTarget, cb, parents, stale);
            var reached := !PowCrashes(WorkHash(lib, hap), cb, hap.header.workBits, shareTarget)
                           && PassBetween(lib, hap.announcements, 0, i, height, cb, parents, stale);
            && (v == Returned(ANN_INVALID + i) <==> reached && IsInvalid(lib, hap.announcements, i, parents, stale))
            && (v == Returned(ANN_INSUF_POW + i) <==>
                  && reached && IsValid(lib, hap.announcements, i, parents, stale)
                  && IsTooEasy(lib, hap.announcements, i, height, cb))
  {
    assert ANN_INVALID == 0x200 && ANN_INSUF_POW == 0x300 && NUM_ANNS == 4;
    hide *;
    FaultDecides(lib, hap, height, shareTarget, cb, parents, stale, 0x200 + i);
    FaultDecides(lib, hap, height, shareTarget, cb, parents, stale, 0x300 + i);
    FirstFaultAt(lib, hap.announcements, 0, i, 0x200 + i, height, cb, parents, stale);
    FirstFaultAt(lib, hap.announcements, 0, i, 0x300 + i, height, cb, parents, stale);
    CodesOfOne(lib, hap.announcements, i, height, cb, parents, stale);
  }

  /** A code from this range is that of the first fault among the announcements. */
  lemma FaultDecides(lib: BlockLibrary, hap: HeaderAndProof, height: u32, shareTarget: u32, cb: Coinbase,
                     parents: Parents, stale: seq<Item>, code: int)
    requires |stale| == NUM_ANNS && CoinbaseOk(cb) && 0x200 <= code < 0x304
    ensures BlockVerdict(lib, Some(hap), height, shareTarget, cb, parents, stale) == Returned(code) <==>
              && !PowCrashes(WorkHash(lib, hap), cb, hap.header.workBits, shareTarget)
              && FirstFault(lib, hap.announcements, 0, height, cb, parents, stale) == Some(Returned(code))
  {
    hide *;
    HeadersFirst(lib, Some(hap), height, shareTarget, cb, parents, stale);
    PowCrashesIff(WorkHash(lib, hap), cb, hap.header.workBits, shareTarget);
    WorkCodes(WorkHash(lib, hap), cb, hap.header.workBits, shareTarget, code);
    StagesAre(lib, hap, height, shareTarget, cb, parents, stale);
    OtherCodes(code);
  }

  lemma WorkCodes(hash: Digest32, cb: Coinbase, workBits: u32, shareTarget: u32, code: int)
    requires CoinbaseOk(cb) && 0x200 <= code < 0x304
    ensures PowVerdict(hash, cb, workBits, shareTarget) != Returned(code)
  {
    hide EnoughWork, CoinbaseOk;
  }

  lemma OtherCodes(code: int)
    requires 0x200 <= code < 0x304
    ensures code != PCP_INVAL && code != PCP_MISMATCH
  {
  }

  lemma StagesAre(lib: BlockLibrary, hap: HeaderAndProof, height: u32, shareTarget: u32, cb: Coinbase,
                  parents: Parents, stale: seq<Item>)
    requires |stale| == NUM_ANNS && CoinbaseOk(cb)
    ensures var chk := PowVerdict(WorkHash(lib, hap), cb, hap.header.workBits, shareTarget);
            var fault := FirstFault(lib, hap.announcements, 0, height, cb, parents, stale);
            && Stages(lib, hap, height, shareTarget, cb, parents, stale)
               == (if chk == Crashed then Crashed else if fault.Some? then fault.value
                   else if ProofMatches(lib, hap, cb) then chk
                   else if ProofDiffers(lib, hap, cb) then Returned(PCP_MISMATCH)
                   else if ProofFails(lib, hap, cb) then Returned(PCP_INVAL)
                   else Crashed)
            && (AllButWork(lib, hap, height, cb, parents, stale)
                <==> AllPass(lib, hap.announcements, 0, height, cb, parents, stale) && ProofMatches(lib, hap, cb))
  {
    hide CoinbaseOk, FirstFault, PowVerdict, WorkHash, ProofMatches, ProofDiffers, ProofFails, AllPass;
  }

  lemma OneProof(lib: BlockLibrary, hap: HeaderAndProof, cb: Coinbase)
    ensures ProofMatches(lib, hap, cb) ==> !ProofDiffers(lib, hap, cb) && !ProofFails(lib, hap, cb)
    ensures ProofDiffers(lib, hap, cb) ==> !ProofFails(lib, hap, cb)
  {
    SmallCount();
    hide ProvenRoot, Pow2;
  }
}
