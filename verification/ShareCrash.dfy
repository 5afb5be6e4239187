/**
 * Which inputs Validate_checkBlock does not return from: it aborts, panics on its way out of Rust,
 * divides by zero, or reads or shifts out of bounds.  The condition is exact for all inputs.
 */
module ShareCrash {
  import opened Words
  import opened CycleState
  import opened CryptoCycle
  import opened LaneMining
  import opened Difficulty
  import opened Work
  import opened RangeTree
  import opened ProofCheck
  import opened Share
  import AnnMerkle

  // ---------- degrading a target ----------

  /** The age is one at which the target is expanded, and its sign bit is set. */
  predicate DegradePanics(target: u32, age: u32) { Negative(target) && 3 < age <= 259 }

  lemma DegradedIff(target: u32, age: u32)
    ensures Degraded(target, age).None? <==> DegradePanics(target, age)
  {
    hide Negative, DegradeAnnouncementTarget;
  }

  // ---------- checking work ----------

  /** Read as an integer, the hash has nothing in the bytes from `k` on. */
  lemma ZeroAbove(hash: Digest32, k: nat)
    requires k <= 32
    ensures (forall i :: k <= i < 32 ==> hash[i] == 0) <==> HashValue(hash) < Pow2(8 * k)
  {
    var low, top := hash[..k], hash[k..];
    assert hash == low + top;
    HashValueSplits(low, top);
    HashValueBound(low);
    ZeroValue(top);
    assert forall i :: k <= i < 32 ==> hash[i] == top[i - k];
    assert (forall i :: k <= i < 32 ==> hash[i] == 0) <==> (forall i :: 0 <= i < |top| ==> top[i] == 0) by {
      hide HashValue, Pow2;
      if forall i :: k <= i < 32 ==> hash[i] == 0 {
        assert forall i :: 0 <= i < |top| ==> top[i] == hash[k + i];
      }
    }
    hide HashValue, Pow2;
    if HashValue(top) > 0 { MulMonotone(1, HashValue(top), Pow2(8 * k)); }
  }

  /** The exponent is too small for three bytes of the hash to face the mantissa, and the hash does not end the loop. */
  predicate ReadsOutside(hash: Digest32, e: u32) { Size(e) < 3 && HashValue(hash) < Pow2(8 * Size(e)) }

  lemma WorkDefinedIff(hash: Digest32, e: u32)
    requires Size(e) < 0x80
    ensures !WorkDefined(hash, e) <==> !Negative(e) && ReadsOutside(hash, e)
  {
    if Size(e) < 3 { ZeroAbove(hash, Size(e)); }
    hide HashValue, Pow2, Negative;
  }

  lemma EffectiveIsCompact(blockTar: u32, annTar: u32, annCount: nat)
    requires !Negative(blockTar) && !Negative(annTar)
    ensures GetEffectiveTarget(blockTar, annTar, annCount) <= MAX_COMPACT
    ensures !Negative(GetEffectiveTarget(blockTar, annTar, annCount))
  {
    assert !Negative(MAX_COMPACT);
    hide EffectiveWork, TarForWork, WorkForTar, BnForCompact, CompactForBn, Negative, ByteLength;
    var work := EffectiveWork(WorkForTar(BnForCompact(blockTar)), WorkForTar(BnForCompact(annTar)), annCount);
    TarBounded(work);
    CompactRoundsDown(TarForWork(work));
  }

  lemma LeastIsPositive(cb: Coinbase)
    requires CoinbaseOk(cb)
    ensures !Negative(cb.annLeastWorkTarget)
  {
    hide Negative, BnForCompact, WorkForTar;
  }

  /** isWorkOk does not return for this target. */
  predicate WorkCrashes(hash: Digest32, cb: Coinbase, target: u32)
    requires CoinbaseOk(cb)
  {
    Negative(target) || ReadsOutside(hash, GetEffectiveTarget(target, cb.annLeastWorkTarget, cb.numAnns))
  }

  lemma CompactIsSmall(e: u32)
    requires e <= MAX_COMPACT
    ensures Size(e) < 0x80
  {
  }

  lemma EnoughWorkIff(hash: Digest32, cb: Coinbase, target: u32)
    requires CoinbaseOk(cb)
    ensures EnoughWork(hash, cb, target).None? <==> WorkCrashes(hash, cb, target)
  {
    hide GetEffectiveTarget, WorkDefined, ReadsOutside, Negative, Meets, CoinbaseOk, Size;
    LeastIsPositive(cb);
    if !Negative(target) {
      EffectiveIsCompact(target, cb.annLeastWorkTarget, cb.numAnns);
      CompactIsSmall(GetEffectiveTarget(target, cb.annLeastWorkTarget, cb.numAnns));
      WorkDefinedIff(hash, GetEffectiveTarget(target, cb.annLeastWorkTarget, cb.numAnns));
    }
  }

  /** The share's target is looked at only when there is one and the block's target is not met. */
  predicate PowCrashes(hash: Digest32, cb: Coinbase, workBits: u32, shareTarget: u32)
    requires CoinbaseOk(cb)
  {
    || WorkCrashes(hash, cb, workBits)
    || (shareTarget != 0 && WorkCrashes(hash, cb, shareTarget)
        && !Meets(hash, GetEffectiveTarget(workBits, cb.annLeastWorkTarget, cb.numAnns)))
  }

  lemma PowCrashesIff(hash: Digest32, cb: Coinbase, workBits: u32, shareTarget: u32)
    requires CoinbaseOk(cb)
    ensures PowVerdict(hash, cb, workBits, shareTarget) == Crashed <==> PowCrashes(hash, cb, workBits, shareTarget)
  {
    EnoughWorkIff(hash, cb, workBits);
    EnoughWorkIff(hash, cb, shareTarget);
    EnoughWorkIs(hash, cb, workBits);
    hide EnoughWork, Meets, WorkCrashes, GetEffectiveTarget, CoinbaseOk;
  }

  lemma EnoughWorkIs(hash: Digest32, cb: Coinbase, target: u32)
    requires CoinbaseOk(cb)
    ensures var enough := EnoughWork(hash, cb, target);
            && (enough.Some? ==> !Negative(target))
            && (enough.Some? ==>
                  enough.value == Meets(hash, GetEffectiveTarget(target, cb.annLeastWorkTarget, cb.numAnns)))
  {
    hide GetEffectiveTarget, WorkDefined, Meets, CoinbaseOk;
  }

  // ---------- validating an announcement ----------

  /** The prefix and the Merkle branch that Validate_checkAnn finds stand, once the replay has ended in state `s`. */
  predicate ProofStands(lib: A.AnnLibrary, a: A.Ann, annHash0: Block, item: Item, itemNo: nat, s: Full) {
    if a.hdr.version > 0 then
      var b := A.CryptAnn(a, s);
      && b.pfx == Zeros(A.PFX_SZ)
      && BranchStands(lib, b, A.MadeItem(lib, annHash0, itemNo, item), itemNo)
    else item[..A.PFX_SZ] == a.pfx && BranchStands(lib, a, item, itemNo)
  }

  predicate BranchStands(lib: A.AnnLibrary, a: A.Ann, item: Item, itemNo: nat) {
    AnnMerkle.Valid(lib.h64, A.MERKLE_DEPTH, A.ProofBlocks(a), lib.h64(item), itemNo)
  }

  /** The replay of Validate_checkAnn, and the state it ends in. */
  function Replayed(lib: A.AnnLibrary, a: A.Ann, parent: seq<byte>, stale: Item): (Full, Item, nat) {
    var root := A.ProofBlock(a, A.MERKLE_DEPTH);
    var start := Init0(lib.cc, A.HeaderHash(lib, a.hdr, root)[..32], NonceWord(a.hdr.softNonce));
    var (t, item, itemNo) :=
      A.Replay(lib, start, stale, A.SecondSeed(lib, root, A.FirstHash(lib, a.hdr, parent)), UPDATES);
    (Final(lib.cc, t), item, itemNo)
  }

  /**
   * Validate_checkAnn does not return exactly when the bound on the soft nonce is undefined, or when
   * everything else is in order and checking the work reads in front of the hash.
   */
  lemma ValidationCrashesIff(lib: A.AnnLibrary, a: A.Ann, parent: seq<byte>, stale: Item)
    ensures var (s, item, itemNo) := Replayed(lib, a, parent, stale);
            A.CheckAnn(lib, a, parent, stale) == None <==>
              || !NonceMaxDefined(a.hdr.workBits)
              || (&& !A.NonceTooHigh(a.hdr)
                  && ProofStands(lib, a, A.FirstHash(lib, a.hdr, parent), item, itemNo, s)
                  && !Negative(a.hdr.workBits) && ReadsOutside(s[..32], a.hdr.workBits))
  {
    assert STATE_SZ == 2048;
    hide *;
    var (s, item, itemNo) := Replayed(lib, a, parent, stale);
    CheckAnnIs(lib, a, parent, stale);
    if NonceMaxDefined(a.hdr.workBits) {
      SmallExponent(a.hdr.workBits);
      WorkDefinedIff(s[..32], a.hdr.workBits);
      FinishedIff(lib, a, A.FirstHash(lib, a.hdr, parent), item, itemNo, s);
    }
  }

  lemma CheckAnnIs(lib: A.AnnLibrary, a: A.Ann, parent: seq<byte>, stale: Item)
    ensures var (s, item, itemNo) := Replayed(lib, a, parent, stale);
            A.CheckAnn(lib, a, parent, stale) ==
              if !NonceMaxDefined(a.hdr.workBits) then None
              else if A.NonceTooHigh(a.hdr) then Some(A.SOFT_NONCE_HIGH)
              else A.Finished(lib, a, A.FirstHash(lib, a.hdr, parent), item, itemNo, s)
  {
    hide NonceMaxDefined, A.NonceTooHigh, A.Finished, A.Replay, Init0, Final, A.FirstHash, A.SecondSeed, A.HeaderHash;
  }

  lemma SmallExponent(target: u32)
    requires NonceMaxDefined(target)
    ensures Size(target) < 0x80
  {
    NonceMaxDefinedFor(target);
  }

  lemma FinishedIff(lib: A.AnnLibrary, a: A.Ann, annHash0: Block, item: Item, itemNo: nat, s: Full)
    ensures A.Finished(lib, a, annHash0, item, itemNo, s) == None <==>
              ProofStands(lib, a, annHash0, item, itemNo, s) && !WorkDefined(s[..32], a.hdr.workBits)
  {
    A.CryptKeeps(a, s);
    hide A.CryptAnn, A.MadeItem, A.ProofBlocks, A.ProofBlock, AnnMerkle.Valid, WorkDefined, A.WorkOk;
  }

  /** So a target with a mantissa, and an exponent from 3 to 0x22 or a sign, is always safe to validate. */
  lemma SafeToValidate(lib: A.AnnLibrary, a: A.Ann, parent: seq<byte>, stale: Item)
    requires var t := a.hdr.workBits; Word(t) > 0 && Size(t) <= 0x22 && (Negative(t) || Size(t) >= 3)
    ensures A.CheckAnn(lib, a, parent, stale).Some?
  {
    ValidationCrashesIff(lib, a, parent, stale);
    NonceMaxDefinedFor(a.hdr.workBits);
    hide A.CheckAnn, Replayed, ProofStands, NonceMaxDefined, A.NonceTooHigh, HashValue, Pow2;
  }

  // ---------- the announcements ----------

  /** Announcement `i` makes the check not return: its validation, or else degrading its target. */
  predicate AnnCrashes(lib: BlockLibrary, items: Items, i: nat, height: u32, parents: Parents, stale: seq<Item>)
    requires i < NUM_ANNS == |stale|
  {
    var ann := lib.parse(items[i]);
    var valid := Validation(lib, ann, i, parents, stale);
    || valid.None?
    || (valid == Some(A.OK) && DegradePanics(ann.hdr.workBits, Sub32(height, ann.hdr.parentBlockHeight)))
  }

  /** Announcement `i` is valid, and its target, degraded unless the chain is new, is not above the commitment's. */
  predicate AnnPasses(lib: BlockLibrary, items: Items, i: nat, height: u32, cb: Coinbase, parents: Parents,
                      stale: seq<Item>)
    requires i < NUM_ANNS == |stale|
  {
    var ann := lib.parse(items[i]);
    var age := Sub32(height, ann.hdr.parentBlockHeight);
    && Validation(lib, ann, i, parents, stale) == Some(A.OK) && !DegradePanics(ann.hdr.workBits, age)
    && (if height < 3 then ann.hdr.workBits <= cb.annLeastWorkTarget
        else Degraded(ann.hdr.workBits, age).Some? && Degraded(ann.hdr.workBits, age).value <= cb.annLeastWorkTarget)
  }

  lemma AnnFaultIff(lib: BlockLibrary, items: Items, i: nat, height: u32, cb: Coinbase, parents: Parents,
                    stale: seq<Item>)
    requires i < NUM_ANNS == |stale|
    ensures var fault := AnnFault(lib, items, i, height, cb, parents, stale);
            && (fault == Some(Crashed) <==> AnnCrashes(lib, items, i, height, parents, stale))
            && (fault == None <==> AnnPasses(lib, items, i, height, cb, parents, stale))
  {
    var hdr := lib.parse(items[i]).hdr;
    DegradedIff(hdr.workBits, Sub32(height, hdr.parentBlockHeight));
    hide Degraded, DegradePanics, Validation, Sub32;
  }

  /** From announcement `i` on, the first that does not pass makes the check not return. */
  ghost predicate CrashesFrom(lib: BlockLibrary, items: Items, i: nat, height: u32, cb: Coinbase, parents: Parents,
                              stale: seq<Item>)
    requires |stale| == NUM_ANNS
  {
    exists k :: i <= k < NUM_ANNS && AnnCrashes(lib, items, k, height, parents, stale) &&
                forall j :: i <= j < k ==> AnnPasses(lib, items, j, height, cb, parents, stale)
  }

  ghost predicate AllPass(lib: BlockLibrary, items: Items, i: nat, height: u32, cb: Coinbase, parents: Parents,
                          stale: seq<Item>)
    requires |stale| == NUM_ANNS
  {
    forall k :: i <= k < NUM_ANNS ==> AnnPasses(lib, items, k, height, cb, parents, stale)
  }

  lemma {:induction false} FirstFaultIff(lib: BlockLibrary, items: Items, i: nat, height: u32, cb: Coinbase,
                                         parents: Parents, stale: seq<Item>)
    requires i <= NUM_ANNS == |stale|
    ensures var fault := FirstFault(lib, items, i, height, cb, parents, stale);
            && (fault == Some(Crashed) <==> CrashesFrom(lib, items, i, height, cb, parents, stale))
            && (fault == None <==> AllPass(lib, items, i, height, cb, parents, stale))
    decreases NUM_ANNS - i
  {
    hide AnnFault, AnnCrashes, AnnPasses;
    if i < NUM_ANNS {
      AnnFaultIff(lib, items, i, height, cb, parents, stale);
      FirstFaultIff(lib, items, i + 1, height, cb, parents, stale);
      CrashOrPass(lib, items, i, height, cb, parents, stale);
      CrashesNext(lib, items, i, height, cb, parents, stale);
    }
  }

  lemma CrashOrPass(lib: BlockLibrary, items: Items, i: nat, height: u32, cb: Coinbase, parents: Parents,
                    stale: seq<Item>)
    requires i < NUM_ANNS == |stale|
    ensures AnnCrashes(lib, items, i, height, parents, stale) ==>
              !AnnPasses(lib, items, i, height, cb, parents, stale)
  {
    hide Validation, Degraded, DegradePanics, Sub32;
  }

  lemma CrashesNext(lib: BlockLibrary, items: Items, i: nat, height: u32, cb: Coinbase, parents: Parents,
                    stale: seq<Item>)
    requires i < NUM_ANNS == |stale|
    ensures CrashesFrom(lib, items, i, height, cb, parents, stale) <==>
              || AnnCrashes(lib, items, i, height, parents, stale)
              || (AnnPasses(lib, items, i, height, cb, parents, stale)
                  && CrashesFrom(lib, items, i + 1, height, cb, parents, stale))
  {
    hide AnnCrashes, AnnPasses;
    if CrashesFrom(lib, items, i, height, cb, parents, stale) {
      var k :| i <= k < NUM_ANNS && AnnCrashes(lib, items, k, height, parents, stale) &&
               forall j :: i <= j < k ==> AnnPasses(lib, items, j, height, cb, parents, stale);
      assert k > i ==> AnnPasses(lib, items, i, height, cb, parents, stale);
    }
  }

  // ---------- the whole check ----------

  /** hashProof divides by the count, and shifts by the height of the tree over one leaf more. */
  predicate CountCrashes(numAnns: u64) { numAnns == 0 || Pow2(63) <= numAnns < MAX64 }

  /**
   * The check does not return exactly when the commitment is in order and its work crashes, or else
   * the first announcement that does not pass crashes, or else all pass and the count crashes.
   */
  lemma CrashesIff(lib: BlockLibrary, hap: Option<HeaderAndProof>, height: u32, shareTarget: u32, cb: Coinbase,
                   parents: Parents, stale: seq<Item>)
    requires |stale| == NUM_ANNS
    ensures BlockVerdict(lib, hap, height, shareTarget, cb, parents, stale) == Crashed <==>
              && hap.Some? && CoinbaseOk(cb)
              && var items := hap.value.announcements;
                 || PowCrashes(WorkHash(lib, hap.value), cb, hap.value.header.workBits, shareTarget)
                 || CrashesFrom(lib, items, 0, height, cb, parents, stale)
                 || (AllPass(lib, items, 0, height, cb, parents, stale) && CountCrashes(cb.numAnns))
  {
    hide *;
    if hap.Some? && CoinbaseOk(cb) {
      var items := hap.value.announcements;
      PowCrashesIff(WorkHash(lib, hap.value), cb, hap.value.header.workBits, shareTarget);
      FirstFaultIff(lib, items, 0, height, cb, parents, stale);
      ByStages(lib, hap.value, height, shareTarget, cb, parents, stale);
    } else {
      Refused(lib, hap, height, shareTarget, cb, parents, stale);
    }
  }

  lemma Refused(lib: BlockLibrary, hap: Option<HeaderAndProof>, height: u32, shareTarget: u32, cb: Coinbase,
                parents: Parents, stale: seq<Item>)
    requires |stale| == NUM_ANNS && (hap.None? || !CoinbaseOk(cb))
    ensures BlockVerdict(lib, hap, height, shareTarget, cb, parents, stale) != Crashed
  {
    hide CoinbaseOk;
  }

  lemma ByStages(lib: BlockLibrary, hap: HeaderAndProof, height: u32, shareTarget: u32, cb: Coinbase,
                 parents: Parents, stale: seq<Item>)
    requires |stale| == NUM_ANNS && CoinbaseOk(cb)
    ensures var fault := FirstFault(lib, hap.announcements, 0, height, cb, parents, stale);
            BlockVerdict(lib, Some(hap), height, shareTarget, cb, parents, stale) == Crashed <==>
              || PowVerdict(WorkHash(lib, hap), cb, hap.header.workBits, shareTarget) == Crashed
              || fault == Some(Crashed)
              || (fault == None && CountCrashes(cb.numAnns))
  {
    hide CoinbaseOk, FirstFault, AnnHashes, Indexes, StartOf, PowHash, PowVerdict, Check, Pow2;
  }

  /** Guards on the input alone that rule all of this out: no signs, no tiny targets, and a count in range. */
  lemma SafeToCheck(lib: BlockLibrary, hap: HeaderAndProof, height: u32, shareTarget: u32, cb: Coinbase,
                    parents: Parents, stale: seq<Item>)
    requires |stale| == NUM_ANNS && 1 <= cb.numAnns < Pow2(63)
    requires SafeWork(cb, hap.header.workBits) && (shareTarget == 0 || SafeWork(cb, shareTarget))
    requires forall i :: 0 <= i < NUM_ANNS ==> SafeTarget(lib.parse(hap.announcements[i]).hdr.workBits)
    ensures BlockVerdict(lib, Some(hap), height, shareTarget, cb, parents, stale) != Crashed
  {
    hide BlockVerdict, CoinbaseOk, AnnPasses, SafeWork, WorkCrashes, GetEffectiveTarget, Pow2, SafeTarget, Meets,
         AnnCrashes;
    CrashesIff(lib, Some(hap), height, shareTarget, cb, parents, stale);
    if CoinbaseOk(cb) {
      SafeWorkReturns(WorkHash(lib, hap), cb, hap.header.workBits);
      if shareTarget != 0 { SafeWorkReturns(WorkHash(lib, hap), cb, shareTarget); }
      forall i | 0 <= i < NUM_ANNS ensures !AnnCrashes(lib, hap.announcements, i, height, parents, stale) {
        SafeAnnouncement(lib, hap.announcements, i, height, parents, stale);
      }
    }
  }

  predicate SafeWork(cb: Coinbase, target: u32) {
    && !Negative(target) && !Negative(cb.annLeastWorkTarget)
    && Size(GetEffectiveTarget(target, cb.annLeastWorkTarget, cb.numAnns)) >= 3
  }

  lemma SafeWorkReturns(hash: Digest32, cb: Coinbase, target: u32)
    requires CoinbaseOk(cb) && SafeWork(cb, target)
    ensures !WorkCrashes(hash, cb, target)
  {
    hide CoinbaseOk, Negative, Size, GetEffectiveTarget, HashValue, Pow2;
  }

  predicate SafeTarget(target: u32) { !Negative(target) && Word(target) > 0 && 3 <= Size(target) <= 0x22 }

  lemma SafeAnnouncement(lib: BlockLibrary, items: Items, i: nat, height: u32, parents: Parents, stale: seq<Item>)
    requires i < NUM_ANNS == |stale| && SafeTarget(lib.parse(items[i]).hdr.workBits)
    ensures !AnnCrashes(lib, items, i, height, parents, stale)
  {
    hide A.CheckAnn, Word, Size, Negative;
    if parents.Some? { SafeToValidate(lib.ann, lib.parse(items[i]), parents.value[i], stale[i]); }
  }

  /**
   * Inputs that do not return: whatever the header, the proof and the share's target, four
   * announcements with plain targets under a commitment to a bad count, such as none at all, while the
   * chain is new.
   */
  lemma BadCountCrashes(lib: BlockLibrary, hap: HeaderAndProof, shareTarget: u32, root: Hash, count: u64,
                        stale: seq<Item>)
    requires |stale| == NUM_ANNS && CountCrashes(count)
    requires forall i :: 0 <= i < NUM_ANNS ==> PlainTarget(lib.parse(hap.announcements[i]).hdr.workBits)
    ensures var cb := Coinbase(COINBASE_MAGIC, MAX_COMPACT, root, count);
            BlockVerdict(lib, Some(hap), 0, shareTarget, cb, None, stale) == Crashed
  {
    hide BlockVerdict, AnnPasses, PowCrashes, CountCrashes, CrashesFrom, PlainTarget, IsMinAnnDiffOk, Negative;
    var cb := Coinbase(COINBASE_MAGIC, MAX_COMPACT, root, count);
    MinAnnDiffOkIff(MAX_COMPACT);
    MaxIsPositive();
    CrashesIff(lib, Some(hap), 0, shareTarget, cb, None, stale);
    forall i | 0 <= i < NUM_ANNS ensures AnnPasses(lib, hap.announcements, i, 0, cb, None, stale) {
      PlainPasses(lib, hap.announcements, i, cb, stale);
    }
  }

  predicate PlainTarget(target: u32) { target <= MAX_COMPACT && !Negative(target) }

  lemma MaxIsPositive()
    ensures !Negative(MAX_COMPACT) && BnForCompact(MAX_COMPACT) > 0
  {
    assert Size(MAX_COMPACT) == 0x20 && Word(MAX_COMPACT) == 0x7f_ffff;
    hide Pow2;
  }

  lemma PlainPasses(lib: BlockLibrary, items: Items, i: nat, cb: Coinbase, stale: seq<Item>)
    requires i < NUM_ANNS == |stale| && PlainTarget(lib.parse(items[i]).hdr.workBits)
    requires cb.annLeastWorkTarget == MAX_COMPACT
    ensures AnnPasses(lib, items, i, 0, cb, None, stale)
  {
    hide Negative, Degraded;
  }
}
