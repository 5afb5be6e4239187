/** Validate_checkAnn itself, in place on its buffers, proved to return what `Announce.CheckAnn` says. */
module CheckAnnMethod {
  import opened Words
  import opened CycleState
  import opened CryptoCycle
  import opened CycleMining
  import opened LaneMining
  import opened AnnMerkle
  import opened Difficulty
  import opened Work
  import opened Announce

  /** Four updates, each with an item made for the number the state names. */
  method ReplayItems(lib: AnnLibrary, state: array<byte>, stale: Item, seed: Block) returns (item: Item, itemNo: nat)
    requires state.Length == STATE_SZ
    modifies state
    ensures Replay(lib, old(state[..]), stale, seed, UPDATES) == (state[..], item, itemNo)
  {
    hide Update, ItemNo, MadeItem;
    ghost var start: Full := state[..];
    item, itemNo := stale, 0;
    for i := 0 to UPDATES
      invariant Replay(lib, start, stale, seed, i) == (state[..], item, itemNo)
    {
      ReplayStep(lib, start, stale, seed, i);
      hide Replay;
      var n := GetItemNo(state);
      itemNo := n % TABLE_SZ;
      item := MkItem2(lib, seed, itemNo, item);
      UpdateInPlace(lib.cc, state, item, true);
    }
  }

  lemma ReplayStep(lib: AnnLibrary, start: Full, stale: Item, seed: Block, n: nat)
    ensures var (s, item, _) := Replay(lib, start, stale, seed, n);
            var no := ItemNo(s) % TABLE_SZ;
            var made := MadeItem(lib, seed, no, item);
            Replay(lib, start, stale, seed, n + 1) == (Update(lib.cc, s, made, true), made, no)
  {
    hide Update, ItemNo, MadeItem;
  }

  method MkItem2(lib: AnnLibrary, seed: Block, n: nat, before: Item) returns (item: Item)
    ensures item == MadeItem(lib, seed, n, before)
  {
    item := before;
    var made := lib.makeItem(seed[..32], seed[32..], n);
    if made.Some? { item := made.value; }
  }

  method IsZero(s: seq<byte>) returns (zero: bool)
    ensures zero <==> s == Zeros(|s|)
  {
    zero := true;
    for i := 0 to |s|
      invariant zero <==> forall k :: 0 <= k < i ==> s[k] == 0
    {
      zero := zero && s[i] == 0;
    }
    assert zero ==> forall k :: 0 <= k < |s| ==> s[k] == Zeros(|s|)[k];
    assert !zero ==> exists k :: 0 <= k < |s| && s[k] != Zeros(|s|)[k];
  }

  /** The checks after decryption. */
  method Judge(lib: AnnLibrary, a: Ann, item: Item, itemNo: nat, state: array<byte>) returns (ret: Option<int>)
    requires state.Length == STATE_SZ
    ensures ret == Verdict(lib, a, item, itemNo, state[..])
  {
    hide AnnMerkle.Valid, ProofBlocks, Size, IsWork, Negative, WorkDefined;
    var itemHash := lib.h64(item);
    var valid := IsItemValid(lib.h64, MERKLE_DEPTH, ProofBlocks(a), itemHash, itemNo);
    if !valid { return Some(INVAL); }
    assert state[..][..32] == state[..32];
    if !WorkDefined(state[..32], a.hdr.workBits) { return None; }
    var enough := WorkCheck(state[..32], a.hdr.workBits);
    if !enough { return Some(INSUF_POW); }
    ret := Some(OK);
  }

  /** Undo the encryption on a copy, and see whether the prefix comes out empty. */
  method Undo(pcAnn: Ann, state: array<byte>) returns (b: Ann, zero: bool)
    requires state.Length == STATE_SZ
    ensures b == CryptAnn(pcAnn, state[..]) && (zero <==> b.pfx == Zeros(PFX_SZ))
  {
    var proof, pfx := new byte[PROOF_SZ], new byte[PFX_SZ];
    Put(proof, 0, pcAnn.proof);
    Put(pfx, 0, pcAnn.pfx);
    assert proof[..] == pcAnn.proof && pfx[..] == pcAnn.pfx;
    hide XorBytes;
    AnnCrypt(proof, pfx, state[..]);
    b := pcAnn.(proof := proof[..], pfx := pfx[..]);
    zero := IsZero(b.pfx);
  }

  /** Everything that follows the four updates. */
  method Finish(lib: AnnLibrary, pcAnn: Ann, annHash0: Block, item: Item, itemNo: nat, state: array<byte>)
    returns (ret: Option<int>)
    requires state.Length == STATE_SZ
    ensures ret == Finished(lib, pcAnn, annHash0, item, itemNo, state[..])
  {
    hide Verdict, MadeItem, CryptAnn;
    if pcAnn.hdr.version > 0 {
      var ann, zero := Undo(pcAnn, state);
      if !zero { return Some(INVAL_ITEM4); }
      CryptKeeps(pcAnn, state[..]);
      var item4 := MkItem2(lib, annHash0, itemNo, item);
      ret := Judge(lib, ann, item4, itemNo, state);
    } else {
      if item[..PFX_SZ] != pcAnn.pfx { return Some(INVAL_ITEM4); }
      ret := Judge(lib, pcAnn, item, itemNo, state);
    }
  }

  method ValidateAnn(lib: AnnLibrary, pcAnn: Ann, parentBlockHash: seq<byte>, stale: Item) returns (ret: Option<int>)
    ensures ret == CheckAnn(lib, pcAnn, parentBlockHash, stale)
  {
    hide NonceMaxDefined, Replay, Init0, Final, NonceTooHigh, ProofBlock, HeaderHash, SecondSeed, Finished;
    var hdr, root := pcAnn.hdr, ProofBlock(pcAnn, MERKLE_DEPTH);
    var annHash0 := FirstHash(lib, hdr, parentBlockHash);
    var annHash1 := HeaderHash(lib, hdr, root);
    if !NonceMaxDefined(hdr.workBits) { return None; }
    if NonceTooHigh(hdr) { return Some(SOFT_NONCE_HIGH); }
    var seed := SecondSeed(lib, root, annHash0);
    var state := new byte[STATE_SZ];
    Init0InPlace(lib.cc, state, annHash1[..32], NonceWord(hdr.softNonce));
    var item, itemNo := ReplayItems(lib, state, stale, seed);
    FinalInPlace(lib.cc, state);
    ret := Finish(lib, pcAnn, annHash0, item, itemNo, state);
  }
}
