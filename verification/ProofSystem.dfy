/** Both ends of the compressed proof together: what mkProof writes and what hashProof makes of it. */
module ProofSystem {
  import opened Words
  import opened RangeTree
  import opened ProofCheck
  import opened ProofSoundness
  import opened ProofRoundTrip
  import opened TreeTable
  import opened Compress
  import opened WriteProof
  import opened ClimbLoop

  /** The hashes of the announcements a block refers to. */
  ghost predicate TrueHashes(leaves: seq<Entry>, annHashes: seq<Hash>, annIndexes: seq<nat>)
    requires |leaves| >= 2 && |annHashes| == |annIndexes|
  {
    var anns := AnnIdxs(annIndexes, |leaves| - 1);
    forall i :: 0 <= i < |anns| ==> annHashes[i] == leaves[anns[i]].hash
  }

  /** The same hash wherever the same announcement is referred to. */
  ghost predicate ConsistentHashes(annHashes: seq<Hash>, annIndexes: seq<nat>, totalAnns: nat)
    requires totalAnns >= 1 && |annHashes| == |annIndexes|
  {
    var anns := AnnIdxs(annIndexes, totalAnns);
    forall i, j :: 0 <= i < j < |anns| && anns[i] == anns[j] ==> annHashes[i] == annHashes[j]
  }

  lemma NumberOf(index: nat, totalAnns: nat)
    requires totalAnns >= 1
    ensures index % totalAnns < totalAnns && Reduced(index, totalAnns) == index % totalAnns + 1
  {
  }

  /**
   * Over the table of any tree, the proof that mkProof writes for any four indexes, together with the
   * hashes of those announcements, makes hashProof return 0 and the root of the tree.
   */
  method ProveAndCheck(H: Hasher, entryTable: seq<Entry>, totalAnns: nat, root: Hash, annIndexes: seq<nat>,
                       ghost leaves: seq<Entry>) returns (ret: int, hashOut: Hash)
    requires ValidLeaves(leaves) && NoAllOnes(H, leaves) && |leaves| == totalAnns + 1 <= Pow2(63)
    requires HoldsTree(H, leaves, entryTable) && root == RootHash(H, leaves)
    requires |annIndexes| == 4
    ensures ret == 0 && hashOut == root
  {
    hide *;
    LeafCount(leaves);
    var annNumbers: seq<nat>, annHashes := [], [];
    ghost var anns := AnnIdxs(annIndexes, totalAnns);
    for i := 0 to 4
      invariant |annNumbers| == |annHashes| == i
      invariant forall j :: 0 <= j < i ==> annNumbers[j] + 1 == anns[j] && annHashes[j] == leaves[anns[j]].hash
    {
      NumberOf(annIndexes[i], totalAnns);
      LeafStands(H, leaves, entryTable, anns[i]);
      annNumbers := annNumbers + [annIndexes[i] % totalAnns];
      annHashes := annHashes + [entryTable[annIndexes[i] % totalAnns + 1].hash];
    }
    var proof := MkProof(H, entryTable, totalAnns + 1, root, annNumbers, leaves);
    assert PastZero(annNumbers) == anns;
    ProofChecks(H, leaves, annHashes, annIndexes);
    ret, hashOut := HashProof(H, annHashes, totalAnns, annIndexes, proof);
  }

  /**
   * If hashProof returns 0 and the root of a tree, then it was given the tree's own hashes exactly when
   * it was given one hash for each announcement, unless a collision was hashed on the way.
   */
  method CheckAgainst(H: Hasher, annHashes: seq<Hash>, totalAnns: nat, annIndexes: seq<nat>, cpcp: seq<u8>,
                      ghost leaves: seq<Entry>) returns (ret: int, hashOut: Hash)
    requires |annHashes| == 4 && |annIndexes| == 4 && |leaves| == totalAnns + 1 && 1 <= totalAnns < Pow2(63)
    ensures ret == 0 ==> FilledTable(annHashes, totalAnns, annIndexes, cpcp).Some?
    ensures ret == 0 && hashOut == RootHash(H, leaves) &&
            NoCollision(H, leaves, FilledTable(annHashes, totalAnns, annIndexes, cpcp).value) ==>
              (TrueHashes(leaves, annHashes, annIndexes) <==> ConsistentHashes(annHashes, annIndexes, totalAnns))
  {
    hide *;
    ret, hashOut := HashProof(H, annHashes, totalAnns, annIndexes, cpcp);
    CheckedIsFilled(H, annHashes, totalAnns, annIndexes, cpcp);
    if ret == 0 && hashOut == RootHash(H, leaves) &&
       NoCollision(H, leaves, FilledTable(annHashes, totalAnns, annIndexes, cpcp).value)
    {
      SoundIff(H, leaves, annHashes, annIndexes, cpcp);
    }
  }

  lemma CheckedIsFilled(H: Hasher, annHashes: seq<Hash>, totalAnns: nat, annIndexes: seq<nat>, proof: seq<u8>)
    requires |annHashes| == 4 && |annIndexes| == 4 && totalAnns >= 1
    ensures Check(H, annHashes, totalAnns, annIndexes, proof).Some? ==>
              FilledTable(annHashes, totalAnns, annIndexes, proof).Some?
  {
    hide FilledTable, RightsNonEmpty, RootOf;
  }

  lemma SoundIff(H: Hasher, leaves: seq<Entry>, annHashes: seq<Hash>, annIndexes: seq<nat>, proof: seq<u8>)
    requires |annHashes| == 4 && |annIndexes| == 4 && |leaves| >= 2
    requires Check(H, annHashes, |leaves| - 1, annIndexes, proof) == Some(RootHash(H, leaves))
    requires FilledTable(annHashes, |leaves| - 1, annIndexes, proof).Some?
    requires NoCollision(H, leaves, FilledTable(annHashes, |leaves| - 1, annIndexes, proof).value)
    ensures TrueHashes(leaves, annHashes, annIndexes) <==> ConsistentHashes(annHashes, annIndexes, |leaves| - 1)
  {
    hide Check, RootHash, FilledTable, NoCollision;
    AcceptedProofIsSoundIff(H, leaves, annHashes, annIndexes, proof);
  }
}
