/**
 * The range-Merkle tree and its proofs in plain terms: the roots of the smallest trees, the bytes of
 * a hash, how long a proof is, and what every accepted proof has to satisfy.
 */
module ProofMeaning {
  import opened Words
  import opened RangeTree
  import opened ProofTable
  import opened ProofCheck
  import opened TableWalk
  import opened ProofRoundTrip

  // ---------- roots ----------

  /** Two leaves are hashed together, and their parent once more on its own. */
  lemma RootOfTwo(H: Hasher, a: Entry, b: Entry)
    ensures RootHash(H, [a, b]) == H([Entry(H([a, b]), a.start, b.end)])
  {
    var leaves, one := [a, b], 1;
    assert Log2Ceil(2) == one;
    NodeUnfolds(H, leaves, 0, 0);
    LeafRowNode(H, leaves, 0);
    LeafRowNode(H, leaves, 1);
    hide Node;
  }

  /** A third leaf is hashed together with 48 bytes of 0xff. */
  lemma RootOfThree(H: Hasher, a: Entry, b: Entry, c: Entry)
    ensures var ones: u64 := 0xffff_ffff_ffff_ffff;
            var pad := Entry(Hash(ones, ones, ones, ones), ones, ones);
            var left := Entry(H([a, b]), a.start, b.end);
            var right := Entry(H([c, pad]), c.start, ones);
            RootHash(H, [a, b, c]) == H([Entry(H([left, right]), a.start, ones)])
  {
    var leaves, one, two := [a, b, c], 1, 2;
    assert Log2Ceil(3) == two;
    NodeUnfolds(H, leaves, one, 0);
    NodeUnfolds(H, leaves, 0, 0);
    NodeUnfolds(H, leaves, 0, 1);
    PadNode(H, leaves, 0, 3);
    LeafRowNode(H, leaves, 0);
    LeafRowNode(H, leaves, 1);
    LeafRowNode(H, leaves, 2);
    hide Node;
  }

  // ---------- bytes ----------

  /** Byte `k` of a number is worth 256 to the power of `k`. */
  lemma {:induction false} ByteOfNumber(x: nat, n: nat, k: nat)
    requires k < n
    ensures LittleEndian(x, n)[k] == Shr(x, 8 * k) % 256
  {
    if k > 0 {
      ByteOfNumber(x / 256, n - 1, k - 1);
      Shr8(x);
      ShrAdds(x, 8, 8 * (k - 1));
    }
  }

  lemma Shr8(x: nat)
    ensures Shr(x, 8) == x / 256
  {
    assert Pow2(8) == 256;
    ShrBounds(x, 8);
    BracketIsUnique(x, 256, Shr(x, 8), x / 256);
  }

  /** A hash is its four words in order. */
  lemma HashLayout(h: Hash, i: nat, k: nat)
    requires i < 4 && k < 8
    ensures WriteHash(h)[8 * i + k] == Shr([h.l0, h.l1, h.l2, h.l3][i], 8 * k) % 256
  {
    ByteOfNumber([h.l0, h.l1, h.l2, h.l3][i], 8, k);
    hide LittleEndian, Shr;
  }

  /** What an entry takes from a proof: eight bytes of range, then 32 of hash. */
  lemma EntryFormat(c: Cell, s: seq<u8>)
    ensures var range := if HasExplicitRange(c.flags) then 8 else 0;
            var hash := if c.flags.hasHash || c.flags.computable then 0 else 32;
            var r := ReadCell(c, s);
            && (r.Some? <==> |s| >= range + hash)
            && (r.Some? ==>
                  && r.value.1 == s[range + hash..]
                  && r.value.0.e.start == c.e.start
                  && r.value.0.e.end == (if range == 8 then ReadU64(s[..8]) else c.e.end)
                  && r.value.0.e.hash == (if hash == 32 then ReadHash(s[range..range + 32]) else c.e.hash))
  {
    hide HasExplicitRange, ReadU64, ReadHash;
    if |s| >= 8 { assert forall n | 0 <= n <= |s| - 8 :: s[8..][..n] == s[8..8 + n] && s[8..][n..] == s[8 + n..]; }
  }

  /** An explicit range is that of a right leaf, or of an inner node to be supplied whose sibling is no padding. */
  lemma ExplicitRangeIff(f: Flags)
    ensures HasExplicitRange(f) <==>
              !f.padEntry && (if f.leaf then f.right else !f.computable && !f.padSibling)
  {
  }

  // ---------- the length of a proof ----------

  /** The bytes that the entries from `i` on take. */
  function BytesFrom(t: seq<Cell>, i: nat): nat
    requires i <= |t|
    decreases |t| - i
  {
    if i == |t| then 0
    else
      var range := if HasExplicitRange(t[i].flags) then 8 else 0;
      var hash := if t[i].flags.hasHash || t[i].flags.computable then 0 else 32;
      range + hash + BytesFrom(t, i + 1)
  }

  /** A proof is read exactly when it has as many bytes as the entries take, and not one more. */
  lemma {:induction false} LengthIff(t: seq<Cell>, i: nat, s: seq<u8>)
    requires i <= |t|
    ensures ReadFrom(t, i, s).Some? <==> |s| == BytesFrom(t, i)
    decreases |t| - i
  {
    if i < |t| {
      EntryFormat(t[i], s);
      hide HasExplicitRange;
      if ReadCell(t[i], s).Some? { LengthIff(t, i + 1, ReadCell(t[i], s).value.1); }
      hide ReadCell;
    }
  }

  // ---------- what every accepted proof satisfies ----------

  /** Padding is 48 bytes of 0xff. */
  predicate PadIsPad(c: Cell) { c.flags.padEntry ==> c.flags.hasHash && c.e == PAD }

  ghost predicate PadsArePads(t: seq<Cell>) { forall x :: 0 <= x < |t| ==> PadIsPad(t[x]) }

  lemma {:induction false} ReadingKeepsPads(t: seq<Cell>, i: nat, s: seq<u8>)
    requires i <= |t| && PadsArePads(t) && ReadFrom(t, i, s).Some?
    ensures PadsArePads(ReadFrom(t, i, s).value)
    decreases |t| - i
  {
    if i < |t| {
      hide ReadCell;
      ReadKeepsPad(t[i], s);
      var (c, rest) := ReadCell(t[i], s).value;
      ReadingKeepsPads(t, i + 1, rest);
      assert ReadFrom(t, i, s).value == [c] + ReadFrom(t, i + 1, rest).value;
      hide PadIsPad;
    }
  }

  lemma ReadKeepsPad(c: Cell, s: seq<u8>)
    requires PadIsPad(c) && ReadCell(c, s).Some?
    ensures PadIsPad(ReadCell(c, s).value.0)
  {
    hide ReadU64, ReadHash;
  }

  lemma FilledPads(annHashes: seq<Hash>, totalAnns: nat, annIndexes: seq<nat>, proof: seq<u8>)
    requires |annHashes| == 4 && |annIndexes| == 4 && totalAnns >= 1
    requires FilledTable(annHashes, totalAnns, annIndexes, proof).Some?
    ensures PadsArePads(FilledTable(annHashes, totalAnns, annIndexes, proof).value)
  {
    var anns, count := AnnIdxs(annIndexes, totalAnns), totalAnns + 1;
    hide *;
    var h, s, t := Log2Ceil(count), Slots(anns, count), Table(anns, count);
    assert forall i :: 0 <= i < |anns| ==> anns[i] == Reduced(annIndexes[i], totalAnns);
    FreshTableIsOk(anns, count);
    TableParts(anns, count, h, s, t);
    FilledIs(annHashes, totalAnns, annIndexes, proof);
    var u := WithHashes(t, h, anns, annHashes, 4);
    forall x | 0 <= x < |u| ensures PadIsPad(u[x]) {
      WithHashesKeeps(anns, count, h, s, t, annHashes, 4, x);
      FreshPad(anns, count, x);
      PlacedPad(u[x], t[x], anns, s[x]);
    }
    PadsAre(u);
    ReadingKeepsPads(u, 0, proof);
  }

  lemma FreshPad(anns: seq<nat>, count: nat, x: nat)
    requires count >= 1 && x < |Table(anns, count)|
    ensures var c := Table(anns, count)[x];
            PadIsPad(c) && (c.flags.padEntry ==> !Has(anns, Slots(anns, count)[x].d, Slots(anns, count)[x].k))
  {
    hide Has, IsPad, Slots;
  }

  lemma PlacedPad(c: Cell, o: Cell, anns: seq<nat>, s: Slot)
    requires SameButHash(c, o) && (!(s.d == 0 && Has(anns, 0, s.k)) ==> c == o)
    requires PadIsPad(o) && (o.flags.padEntry ==> !Has(anns, s.d, s.k))
    ensures PadIsPad(c)
  {
    hide Has;
  }

  lemma PadsAre(t: seq<Cell>)
    requires forall x :: 0 <= x < |t| ==> PadIsPad(t[x])
    ensures PadsArePads(t)
  {
    hide PadIsPad;
  }

  /** A pair of neighbours: the left covers some range, and the right goes on from there or is padding. */
  predicate AreNeighbours(a: Entry, b: Entry) {
    a.start < a.end == b.start && (b.start < b.end || b == PAD)
  }

  /** What is hashed together are neighbours, all the way up. */
  lemma {:induction false} HashedAreNeighbours(H: Hasher, t: seq<Cell>, x: nat)
    requires PadsArePads(t) && Children(H, t, x).Some?
    ensures AreNeighbours(Children(H, t, x).value.0, Children(H, t, x).value.1)
    ensures Eval(H, t, x).Some? && Eval(H, t, x).value.start < Eval(H, t, x).value.end
    decreases |t| - x, 0
  {
    hide Eval, LeafPair, InnerPair, PadsArePads, AreNeighbours;
    var l, r := t[x].childLeft, t[x].childRight;
    EvalOfChildren(H, t, x);
    if t[l].flags.leaf {
      LeavesAreNeighbours(t[l], t[r]);
    } else {
      EvalOrdered(H, t, l);
      EvalOrdered(H, t, r);
      PadAt(t, r);
      InnersAreNeighbours(t[l], t[r], Eval(H, t, l), Eval(H, t, r));
    }
    NeighboursSpan(Children(H, t, x).value.0, Children(H, t, x).value.1);
  }

  lemma {:induction false} EvalOrdered(H: Hasher, t: seq<Cell>, x: nat)
    requires PadsArePads(t)
    ensures Eval(H, t, x).Some? ==> Eval(H, t, x).value.start < Eval(H, t, x).value.end
    decreases |t| - x, 1
  {
    EvalOfChildren(H, t, x);
    hide Eval, Children, PadsArePads;
    if Eval(H, t, x).Some? { HashedAreNeighbours(H, t, x); }
  }

  lemma PadAt(t: seq<Cell>, x: nat)
    requires PadsArePads(t) && x < |t|
    ensures t[x].flags.padEntry ==> t[x].e == PAD
  {
  }

  lemma LeavesAreNeighbours(l: Cell, r: Cell)
    requires LeafPair(l, r).Some?
    ensures AreNeighbours(LeafPair(l, r).value.0, LeafPair(l, r).value.1)
  {
  }

  lemma InnersAreNeighbours(l: Cell, r: Cell, a: Option<Entry>, b: Option<Entry>)
    requires InnerPair(l, r, a, b).Some? && (r.flags.padEntry ==> r.e == PAD)
    requires (a.Some? ==> a.value.start < a.value.end) && (b.Some? ==> b.value.start < b.value.end)
    ensures AreNeighbours(InnerPair(l, r, a, b).value.0, InnerPair(l, r, a, b).value.1)
  {
  }

  lemma NeighboursSpan(a: Entry, b: Entry)
    requires AreNeighbours(a, b)
    ensures a.start < b.end
  {
  }

  /** What the children of entry `x` come to are neighbours. */
  predicate PairFits(H: Hasher, t: seq<Cell>, x: nat) {
    match Children(H, t, x)
    case None => true
    case Some((a, b)) => AreNeighbours(a, b)
  }

  lemma EveryPairFits(H: Hasher, t: seq<Cell>, x: nat)
    requires PadsArePads(t)
    ensures PairFits(H, t, x)
  {
    hide Children, PadsArePads, AreNeighbours;
    if Children(H, t, x).Some? { HashedAreNeighbours(H, t, x); }
  }

  /** The announcement's leaf is on the right, met first, and comes with a range that is not empty and does not wrap. */
  predicate RightRangeFits(t: seq<Cell>, h: nat, anns: seq<nat>, i: nat)
    requires i < |anns|
  {
    var x := Walk(t, h, anns[i], 0);
    anns[i] % 2 == 1 && (forall j :: 0 <= j < i ==> anns[j] + 1 != anns[i]) && x < |t| && !t[x].flags.padEntry ==>
      0 < t[x].e.end && t[x].e.hash.l0 + t[x].e.end <= MAX64
  }

  ghost predicate RightRangesFit(t: seq<Cell>, h: nat, anns: seq<nat>) {
    forall i :: 0 <= i < |anns| ==> RightRangeFits(t, h, anns, i)
  }

  lemma RightRanges(t: seq<Cell>, h: nat, anns: seq<nat>)
    requires RightsNonEmpty(t, h, anns)
    ensures RightRangesFit(t, h, anns)
  {
    hide Walk;
    forall i | 0 <= i < |anns| ensures RightRangeFits(t, h, anns, i) {
      assert RightFirst(anns, i) ==> RightNonEmpty(t, h, anns[i]);
    }
  }

  /**
   * An accepted proof has exactly the bytes its entries take, its ranges follow one another without
   * gap or overlap in every pair that is hashed together, none is empty but padding, and together
   * they span everything.
   */
  lemma AcceptedProofIsOrdered(H: Hasher, annHashes: seq<Hash>, totalAnns: nat, annIndexes: seq<nat>, proof: seq<u8>)
    returns (t: seq<Cell>, e: Entry)
    requires |annHashes| == 4 && |annIndexes| == 4 && totalAnns >= 1
    requires Check(H, annHashes, totalAnns, annIndexes, proof).Some?
    ensures FilledTable(annHashes, totalAnns, annIndexes, proof) == Some(t) && Eval(H, t, 0) == Some(e)
    ensures Check(H, annHashes, totalAnns, annIndexes, proof) == Some(H([e]))
    ensures e.start == 0 && e.end == 0xffff_ffff_ffff_ffff
    ensures forall x: nat :: PairFits(H, t, x)
    ensures RightRangesFit(t, Log2Ceil(totalAnns + 1), AnnIdxs(annIndexes, totalAnns))
    ensures var anns := AnnIdxs(annIndexes, totalAnns);
            |proof| == BytesFrom(WithHashes(Table(anns, totalAnns + 1), Log2Ceil(totalAnns + 1), anns, annHashes, 4), 0)
  {
    assert MAX64 == 0xffff_ffff_ffff_ffff;
    hide *;
    t, e := CheckParts(H, annHashes, totalAnns, annIndexes, proof);
    FilledPads(annHashes, totalAnns, annIndexes, proof);
    FilledIs(annHashes, totalAnns, annIndexes, proof);
    var anns := AnnIdxs(annIndexes, totalAnns);
    LengthIff(WithHashes(Table(anns, totalAnns + 1), Log2Ceil(totalAnns + 1), anns, annHashes, 4), 0, proof);
    forall x: nat ensures PairFits(H, t, x) {
      EveryPairFits(H, t, x);
    }
    RightRanges(t, Log2Ceil(totalAnns + 1), anns);
  }

  lemma CheckParts(H: Hasher, annHashes: seq<Hash>, totalAnns: nat, annIndexes: seq<nat>, proof: seq<u8>)
    returns (t: seq<Cell>, e: Entry)
    requires |annHashes| == 4 && |annIndexes| == 4 && totalAnns >= 1
    requires Check(H, annHashes, totalAnns, annIndexes, proof).Some?
    ensures FilledTable(annHashes, totalAnns, annIndexes, proof) == Some(t) && Eval(H, t, 0) == Some(e)
    ensures RightsNonEmpty(t, Log2Ceil(totalAnns + 1), AnnIdxs(annIndexes, totalAnns))
    ensures e.start == 0 && e.end == MAX64 && Check(H, annHashes, totalAnns, annIndexes, proof) == Some(H([e]))
  {
    hide FilledTable, Eval, RightsNonEmpty, Log2Ceil, AnnIdxs;
    t := FilledTable(annHashes, totalAnns, annIndexes, proof).value;
    e := Eval(H, t, 0).value;
  }
}
