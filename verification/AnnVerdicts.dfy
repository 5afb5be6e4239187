/**
 * Validate_checkAnn code by code: for each answer, exactly which announcements get it, in terms of
 * hashes, byte ranges and integers.
 */
module AnnVerdicts {
  import opened Words
  import opened CycleState
  import opened CryptoCycle
  import opened LaneMining
  import opened Difficulty
  import opened Work
  import opened ShareCrash
  import opened Announce

  // ---------- what the validator works out ----------

  /** The root of the announcement's own Merkle tree, at the end of the proof. */
  function OwnRoot(a: Ann): Block { a.proof[832..896] }

  lemma RootIsLast(a: Ann)
    ensures ProofBlock(a, MERKLE_DEPTH) == OwnRoot(a)
  {
  }

  /** The two hashes of the header: its soft nonce is left out of both. */
  lemma HashesSpelledOut(lib: AnnLibrary, a: Ann, parent: seq<byte>)
    ensures var bare := lib.layout(a.hdr.(softNonce := 0));
            && FirstHash(lib, a.hdr, parent) == lib.h64(bare + (parent + Zeros(32)))
            && HeaderHash(lib, a.hdr, OwnRoot(a)) == lib.h64(bare + OwnRoot(a))
  {
  }

  /** The item that item number `no` stands for, or what the buffer held if its program does not make one. */
  lemma MadeSpelledOut(lib: AnnLibrary, seed: Block, no: nat, before: Item)
    ensures MadeItem(lib, seed, no, before)
            == if lib.makeItem(seed[..32], seed[32..], no).Some? then lib.makeItem(seed[..32], seed[32..], no).value
               else before
  {
  }

  /**
   * The replay is four full updates from the start that the second header hash and the soft nonce
   * give.  The items are those of the program seeded by the root and the first header hash, each for
   * the number that the state names at the time.
   */
  lemma ReplaySpelledOut(lib: AnnLibrary, a: Ann, parent: seq<byte>, stale: Item)
    ensures var bare := lib.layout(a.hdr.(softNonce := 0));
            var seed := lib.h64(OwnRoot(a) + lib.h64(bare + (parent + Zeros(32))));
            var s0 := Init0(lib.cc, lib.h64(bare + OwnRoot(a))[..32], NonceWord(a.hdr.softNonce));
            var i1 := MadeItem(lib, seed, ItemNo(s0) % 8192, stale);
            var s1 := Update(lib.cc, s0, i1, true);
            var i2 := MadeItem(lib, seed, ItemNo(s1) % 8192, i1);
            var s2 := Update(lib.cc, s1, i2, true);
            var i3 := MadeItem(lib, seed, ItemNo(s2) % 8192, i2);
            var s3 := Update(lib.cc, s2, i3, true);
            var i4 := MadeItem(lib, seed, ItemNo(s3) % 8192, i3);
            Replayed(lib, a, parent, stale)
            == (Final(lib.cc, Update(lib.cc, s3, i4, true)), i4, ItemNo(s3) % 8192)
  {
    var bare := lib.layout(a.hdr.(softNonce := 0));
    HashesSpelledOut(lib, a, parent);
    RootIsLast(a);
    hide ZeroSoft, ProofBlock, OwnRoot, MadeItem, Update, ItemNo, Init0, Final, FirstHash, HeaderHash;
    var seed := SecondSeed(lib, OwnRoot(a), FirstHash(lib, a.hdr, parent));
    var start := Init0(lib.cc, HeaderHash(lib, a.hdr, OwnRoot(a))[..32], NonceWord(a.hdr.softNonce));
    FourTurns(lib, start, stale, seed);
    hide Replay;
  }

  lemma FourTurns(lib: AnnLibrary, s0: Full, stale: Item, seed: Block)
    ensures var i1 := MadeItem(lib, seed, ItemNo(s0) % 8192, stale);
            var s1 := Update(lib.cc, s0, i1, true);
            var i2 := MadeItem(lib, seed, ItemNo(s1) % 8192, i1);
            var s2 := Update(lib.cc, s1, i2, true);
            var i3 := MadeItem(lib, seed, ItemNo(s2) % 8192, i2);
            var s3 := Update(lib.cc, s2, i3, true);
            var i4 := MadeItem(lib, seed, ItemNo(s3) % 8192, i3);
            Replay(lib, s0, stale, seed, UPDATES) == (Update(lib.cc, s3, i4, true), i4, ItemNo(s3) % 8192)
  {
    hide MadeItem, Update, ItemNo;
    var one, two, three := 1, 2, 3;
    assert Replay(lib, s0, stale, seed, 0) == (s0, stale, 0);
    assert Replay(lib, s0, stale, seed, one).2 == ItemNo(s0) % 8192;
    assert Replay(lib, s0, stale, seed, two).2 == ItemNo(Replay(lib, s0, stale, seed, one).0) % 8192;
    assert Replay(lib, s0, stale, seed, three).2 == ItemNo(Replay(lib, s0, stale, seed, two).0) % 8192;
  }

  // ---------- what has to stand ----------

  /** The prefix: encrypted, it is the state's bytes behind the proof; else it is the start of the last item. */
  predicate PrefixStands(a: Ann, item: Item, s: Full) {
    if a.hdr.version > 0 then a.pfx == s[832..872] else a.pfx == item[..40]
  }

  /** The proof with the state's bytes taken off again, all but its root. */
  function PlainProof(a: Ann, s: Full): ProofBytes {
    if a.hdr.version > 0 then
      seq(PROOF_SZ, k requires 0 <= k < PROOF_SZ => if k < 832 then a.proof[k] ^ s[k] else a.proof[k])
    else a.proof
  }

  /** The item the Merkle proof is about: encrypted, that of the first header hash; else the last one used. */
  function ProvenItem(lib: AnnLibrary, a: Ann, parent: seq<byte>, item: Item, no: nat): Item {
    if a.hdr.version > 0 then MadeItem(lib, FirstHash(lib, a.hdr, parent), no, item) else item
  }

  predicate TreeStands(lib: AnnLibrary, a: Ann, parent: seq<byte>, item: Item, no: nat, s: Full) {
    var plain := PlainProof(a, s);
    AnnMerkle.Valid(lib.h64, 13, seq(14, i requires 0 <= i < 14 => plain[64 * i..64 * i + 64]),
                    lib.h64(ProvenItem(lib, a, parent, item, no)), no)
  }

  lemma XorIsZero(x: byte, y: byte)
    ensures x ^ y == 0 <==> x == y
  {
  }

  lemma PrefixVanishes(a: Ann, s: Full)
    ensures CryptAnn(a, s).pfx == Zeros(40) <==> a.pfx == s[832..872]
  {
    var t := CryptAnn(a, s).pfx;
    forall k | 0 <= k < 40 ensures t[k] == 0 <==> a.pfx[k] == s[832..872][k] {
      assert t[k] == a.pfx[k] ^ s[832 + k];
      XorIsZero(a.pfx[k], s[832 + k]);
    }
    assert t == Zeros(40) <==> forall k :: 0 <= k < 40 ==> t[k] == 0;
  }

  lemma PlainBlocks(a: Ann, s: Full)
    ensures var b, plain := if a.hdr.version > 0 then CryptAnn(a, s) else a, PlainProof(a, s);
            b.proof == plain && ProofBlocks(b) == seq(14, i requires 0 <= i < 14 => plain[64 * i..64 * i + 64])
  {
    var b, plain := if a.hdr.version > 0 then CryptAnn(a, s) else a, PlainProof(a, s);
    assert b.proof == plain;
    hide XorBytes, PlainProof;
  }

  /** The proof stands when prefix and tree do. */
  lemma StandsIff(lib: AnnLibrary, a: Ann, parent: seq<byte>, item: Item, no: nat, s: Full)
    ensures ProofStands(lib, a, FirstHash(lib, a.hdr, parent), item, no, s)
            <==> PrefixStands(a, item, s) && TreeStands(lib, a, parent, item, no, s)
  {
    PrefixVanishes(a, s);
    PlainBlocks(a, s);
    hide CryptAnn, MadeItem, ProofBlocks, PlainProof, FirstHash, AnnMerkle.Valid;
  }

  // ---------- the codes ----------

  /** The soft nonce is one that the target allows. */
  predicate NonceInRange(a: Ann) {
    NonceMaxDefined(a.hdr.workBits) && a.hdr.softNonce <= AnnSoftNonceMax(a.hdr.workBits)
  }

  /** Read as an integer, the hash is below the target, which is a proper one. */
  predicate MeetsTarget(hash: Digest32, target: u32) {
    target <= 0x207f_ffff && !Negative(target) && HashValue(hash) < BnForCompact(target)
  }

  /** Checking the work against this target stays inside the hash. */
  predicate WorkReturns(hash: Digest32, target: u32) { Negative(target) || !ReadsOutside(hash, target) }

  /** Everything but the work. */
  predicate AllButWork(lib: AnnLibrary, a: Ann, parent: seq<byte>, stale: Item) {
    var (s, item, no) := Replayed(lib, a, parent, stale);
    && NonceInRange(a) && PrefixStands(a, item, s) && TreeStands(lib, a, parent, item, no, s)
  }

  /**
   * Validate_checkAnn, for any announcement at all: OK when nonce, prefix, tree and work are in
   * order; each of the other codes when its own check is the first that is not.
   */
  lemma CodesOfAnn(lib: AnnLibrary, a: Ann, parent: seq<byte>, stale: Item)
    ensures var (s, item, no) := Replayed(lib, a, parent, stale);
            var t, ret := a.hdr.workBits, CheckAnn(lib, a, parent, stale);
            && (ret == Some(OK) <==>
                  AllButWork(lib, a, parent, stale) && WorkReturns(s[..32], t) && MeetsTarget(s[..32], t))
            && (ret == Some(INSUF_POW) <==>
                  AllButWork(lib, a, parent, stale) && WorkReturns(s[..32], t) && !MeetsTarget(s[..32], t))
            && (ret == Some(INVAL) <==>
                  NonceInRange(a) && PrefixStands(a, item, s) && !TreeStands(lib, a, parent, item, no, s))
            && (ret == Some(INVAL_ITEM4) <==> NonceInRange(a) && !PrefixStands(a, item, s))
            && (ret == Some(SOFT_NONCE_HIGH) <==> NonceMaxDefined(t) && a.hdr.softNonce > AnnSoftNonceMax(t))
  {
    assert STATE_SZ == 2048;
    assert OK == 0 && INVAL == 1 && INVAL_ITEM4 == 2 && INSUF_POW == 3 && SOFT_NONCE_HIGH == 4;
    hide *;
    var (s, item, no) := Replayed(lib, a, parent, stale);
    CheckAnnIs(lib, a, parent, stale);
    NonceInRangeIs(a);
    if NonceInRange(a) {
      SmallExponent(a.hdr.workBits);
      WorkDefinedIff(s[..32], a.hdr.workBits);
      CodesOfFinished(lib, a, parent, item, no, s);
      AllButWorkIs(lib, a, parent, stale);
      WorkReturnsIs(s[..32], a.hdr.workBits);
    } else {
      NotInRange(lib, a, parent, stale);
    }
  }

  lemma NonceInRangeIs(a: Ann)
    ensures NonceInRange(a) <==> NonceMaxDefined(a.hdr.workBits) && !NonceTooHigh(a.hdr)
    ensures NonceMaxDefined(a.hdr.workBits) ==>
              (NonceTooHigh(a.hdr) <==> a.hdr.softNonce > AnnSoftNonceMax(a.hdr.workBits))
    ensures NonceMaxDefined(a.hdr.workBits) ==> (NonceInRange(a) <==> InRange(a.hdr.softNonce, a.hdr.workBits))
  {
    hide NonceMaxDefined, AnnSoftNonceMax;
  }

  lemma AllButWorkIs(lib: AnnLibrary, a: Ann, parent: seq<byte>, stale: Item)
    ensures var (s, item, no) := Replayed(lib, a, parent, stale);
            AllButWork(lib, a, parent, stale)
            <==> NonceInRange(a) && PrefixStands(a, item, s) && TreeStands(lib, a, parent, item, no, s)
  {
    hide Replayed, NonceInRange, PrefixStands, TreeStands;
  }

  lemma NotInRange(lib: AnnLibrary, a: Ann, parent: seq<byte>, stale: Item)
    requires !NonceInRange(a)
    ensures !AllButWork(lib, a, parent, stale)
  {
    hide Replayed, NonceInRange, PrefixStands, TreeStands;
  }

  lemma WorkReturnsIs(hash: Digest32, target: u32)
    ensures WorkReturns(hash, target) <==> Negative(target) || !ReadsOutside(hash, target)
  {
    hide Negative, ReadsOutside;
  }

  /** What is left once the replay is done. */
  lemma CodesOfFinished(lib: AnnLibrary, a: Ann, parent: seq<byte>, item: Item, no: nat, s: Full)
    ensures var ret := Finished(lib, a, FirstHash(lib, a.hdr, parent), item, no, s);
            var prefix, tree := PrefixStands(a, item, s), TreeStands(lib, a, parent, item, no, s);
            var defined, meets := WorkDefined(s[..32], a.hdr.workBits), MeetsTarget(s[..32], a.hdr.workBits);
            ret == if !prefix then Some(INVAL_ITEM4) else if !tree then Some(INVAL) else if !defined then None
                   else if meets then Some(OK) else Some(INSUF_POW)
  {
    PrefixVanishes(a, s);
    PlainBlocks(a, s);
    CryptKeeps(a, s);
    hide CryptAnn, MadeItem, ProofBlocks, ProofBlock, PlainProof, FirstHash, AnnMerkle.Valid, WorkDefined,
         HashValue, BnForCompact, Negative;
  }
}
