/**
 * A right leaf of all ones looks like padding.  hashProof accepts it in that role only if it comes to it
 * from its left neighbour, so whether a proof is accepted can depend on the order of the announcements.
 */
module OrderMatters {
  import opened Words
  import opened RangeTree
  import opened ProofTable
  import opened ProofCheck

  /** Announcements 2 and 3 of three, which share a parent, in any order. */
  ghost predicate TwoAndThree(anns: seq<nat>) {
    |anns| == 4 && (forall i :: 0 <= i < 4 ==> anns[i] == 2 || anns[i] == 3) && 2 in anns && 3 in anns
  }

  // ---------- the table ----------

  lemma PathsOfTwoAndThree()
    ensures Shr(2, 0) == 2 && Shr(3, 0) == 3 && Shr(2, 1) == 1 && Shr(3, 1) == 1 && Shr(2, 2) == 0 && Shr(3, 2) == 0
    ensures Pow2(0) == 1 && Pow2(1) == 2 && Pow2(2) == 4 && Log2Ceil(4) == 2
  {
  }

  lemma HasTwoAndThree(anns: seq<nat>, k: nat)
    requires TwoAndThree(anns)
    ensures Has(anns, 2, k) <==> k == 0
    ensures Has(anns, 1, k) <==> k == 1
    ensures Has(anns, 0, k) <==> k == 2 || k == 3
  {
    PathsOfTwoAndThree();
    hide Shr;
    var i :| 0 <= i < |anns| && anns[i] == 2;
    var j :| 0 <= j < |anns| && anns[j] == 3;
    assert Shr(anns[i], 2) == 0 && Shr(anns[i], 1) == 1 && Shr(anns[i], 0) == 2 && Shr(anns[j], 0) == 3;
  }

  function Kind(computable: bool, leaf: bool, right: bool, first: bool): Flags {
    Flags(computable, false, leaf, right, false, first, false, false, false)
  }

  /** The root, its left child, which is supplied, its right child, and the two announcements below that. */
  function Shape(): (t: seq<Cell>)
    ensures |t| == 5
  {
    [Cell(1, 2, MAX16, Kind(true, false, false, true), ZERO_ENTRY),
     Cell(MAX16, MAX16, 0, Kind(false, false, false, true), ZERO_ENTRY),
     Cell(3, 4, 0, Kind(true, false, true, false), ZERO_ENTRY),
     Cell(MAX16, MAX16, 2, Kind(true, true, false, false), ZERO_ENTRY),
     Cell(MAX16, MAX16, 2, Kind(true, true, true, false), ZERO_ENTRY)]
  }

  lemma NoPads(d: nat, k: nat)
    requires d <= 2 && k < Pow2(2 - d)
    ensures !IsPad(4, d, k)
  {
    PathsOfTwoAndThree();
    Pow2Adds(d, 2 - d);
    MulMonotone(k + 1, Pow2(2 - d), Pow2(d));
    assert (k + 1) * Pow2(d) == k * Pow2(d) + Pow2(d);
  }

  lemma SlotsAre(anns: seq<nat>)
    requires TwoAndThree(anns)
    ensures Slots(anns, 4) == [Slot(2, 0, MAX16, 1, 2, false), Slot(1, 0, 0, MAX16, MAX16, false),
                               Slot(1, 1, 0, 3, 4, false), Slot(0, 2, 2, MAX16, MAX16, false),
                               Slot(0, 3, 2, MAX16, MAX16, false)]
  {
    PathsOfTwoAndThree();
    HasTwoAndThree(anns, 0);
    HasTwoAndThree(anns, 1);
    HasTwoAndThree(anns, 2);
    HasTwoAndThree(anns, 3);
    hide Has, Log2Ceil, IsPad, Pow2, TwoAndThree;
    var l, r := Layout(anns, 4, 0, 2, 3, 2, false), Layout(anns, 4, 0, 3, 4, 2, false);
    assert l == [Slot(0, 2, 2, MAX16, MAX16, false)] && r == [Slot(0, 3, 2, MAX16, MAX16, false)];
    assert Layout(anns, 4, 1, 1, 2, 0, false) == [Slot(1, 1, 0, 3, 4, false)] + l + r;
    assert Layout(anns, 4, 1, 0, 1, 0, false) == [Slot(1, 0, 0, MAX16, MAX16, false)];
  }

  lemma TableIs(anns: seq<nat>)
    requires TwoAndThree(anns)
    ensures Table(anns, 4) == Shape()
  {
    PathsOfTwoAndThree();
    SlotsAre(anns);
    HasTwoAndThree(anns, 0);
    HasTwoAndThree(anns, 1);
    HasTwoAndThree(anns, 2);
    HasTwoAndThree(anns, 3);
    NoPads(1, 0);
    hide Slots, Has, IsPad, TwoAndThree, Log2Ceil, Pow2;
  }

  // ---------- the announcement hashes and the proof ----------

  lemma WalksTo(a: nat)
    requires a == 2 || a == 3
    ensures Walk(Shape(), 2, a, 0) == a + 1
  {
    PathsOfTwoAndThree();
    hide Shr;
    assert Walk(Shape(), 2, a, 2) == 0;
    assert Walk(Shape(), 2, a, 1) == 2;
  }

  /** The hashes go to the two leaves. */
  function Placed(left: Option<Hash>, right: Option<Hash>): (t: seq<Cell>)
    ensures |t| == 5
  {
    var s := Shape();
    [s[0], s[1], s[2], if left.Some? then PutHash(s[3], left.value) else s[3],
     if right.Some? then PutHash(s[4], right.value) else s[4]]
  }

  lemma {:induction false} HashesPlaced(anns: seq<nat>, hashes: seq<Hash>, left: Hash, right: Hash, n: nat)
    requires TwoAndThree(anns) && |hashes| == 4 && n <= 4
    requires forall i :: 0 <= i < 4 ==> hashes[i] == if anns[i] == 2 then left else right
    ensures WithHashes(Shape(), 2, anns, hashes, n)
         == Placed(if 2 in anns[..n] then Some(left) else None, if 3 in anns[..n] then Some(right) else None)
  {
    if n > 0 {
      HashesPlaced(anns, hashes, left, right, n - 1);
      WalksTo(anns[n - 1]);
      hide Walk;
      assert anns[..n] == anns[..n - 1] + [anns[n - 1]];
    }
  }

  /** The range of the left child, its hash, and an empty range for the right leaf. */
  function Proof(left: Hash, side: seq<u8>): seq<u8> { WriteU64(left.l0) + side + WriteU64(0) }

  /** The filled table. */
  function Full(left: Hash, side: seq<u8>): (t: seq<Cell>)
    requires |side| == 32
    ensures |t| == 5
  {
    var p := Placed(Some(left), Some(ALL_ONES));
    var range, hash := p[1].flags.(hasRange := true), ReadHash(side);
    [p[0], p[1].(e := Entry(hash, 0, left.l0), flags := range.(hasHash := true)), p[2], p[3],
     p[4].(e := p[4].e.(end := 0), flags := p[4].flags.(hasRange := true))]
  }

  lemma ProofParts(left: Hash, side: seq<u8>)
    requires |side| == 32
    ensures var s := Proof(left, side);
            && |s| == 48 && ReadU64(s[..8]) == left.l0 && s[8..][..32] == side && s[8..][32..] == WriteU64(0)
            && |WriteU64(0)| == 8 && ReadU64(WriteU64(0)[..8]) == 0 && WriteU64(0)[8..] == []
  {
    ReadWriteU64(left.l0);
    ReadWriteU64(0);
    hide WriteU64, ReadU64;
    var s := Proof(left, side);
    assert s[..8] == WriteU64(left.l0) && s[8..] == side + WriteU64(0);
    assert s[8..][..32] == side && s[8..][32..] == WriteU64(0);
    assert WriteU64(0)[..8] == WriteU64(0);
  }

  /** What each cell takes off the front of the proof. */
  lemma CellsRead(left: Hash, side: seq<u8>)
    requires |side| == 32
    ensures var t, f, s, last := Placed(Some(left), Some(ALL_ONES)), Full(left, side), Proof(left, side), WriteU64(0);
            && ReadCell(t[0], s) == Some((f[0], s)) && ReadCell(t[1], s) == Some((f[1], last))
            && ReadCell(t[2], last) == Some((f[2], last)) && ReadCell(t[3], last) == Some((f[3], last))
            && ReadCell(t[4], last) == Some((f[4], []))
  {
    ProofParts(left, side);
    hide WriteU64, ReadU64, ReadHash, Proof;
    var s, last := Proof(left, side), WriteU64(0);
    assert last[0..] == last && s[0..] == s;
  }

  /** Reading the proof fills the table and uses it up. */
  lemma ProofFills(left: Hash, side: seq<u8>)
    requires |side| == 32
    ensures ReadFrom(Placed(Some(left), Some(ALL_ONES)), 0, Proof(left, side)) == Some(Full(left, side))
  {
    hide *;
    CellsRead(left, side);
    var t, f, s, last := Placed(Some(left), Some(ALL_ONES)), Full(left, side), Proof(left, side), WriteU64(0);
    assert [f[4]] + [] == [f[4]] && [f[3]] + [f[4]] == [f[3], f[4]];
    assert [f[2]] + [f[3], f[4]] == [f[2], f[3], f[4]];
    assert [f[1]] + [f[2], f[3], f[4]] == [f[1], f[2], f[3], f[4]];
    ReadsOne(t, 4, last, f[4], [], []);
    ReadsOne(t, 3, last, f[3], last, [f[4]]);
    ReadsOne(t, 2, last, f[2], last, [f[3], f[4]]);
    ReadsOne(t, 1, s, f[1], last, [f[2], f[3], f[4]]);
    ReadsOne(t, 0, s, f[0], s, [f[1], f[2], f[3], f[4]]);
    assert f == [f[0]] + [f[1], f[2], f[3], f[4]];
  }

  lemma ReadsOne(t: seq<Cell>, i: nat, s: seq<u8>, c: Cell, rest: seq<u8>, more: seq<Cell>)
    requires i < |t| && ReadCell(t[i], s) == Some((c, rest))
    requires if i + 1 == |t| then rest == [] && more == [] else ReadFrom(t, i + 1, rest) == Some(more)
    ensures ReadFrom(t, i, s) == Some([c] + more)
  {
    hide ReadCell;
  }

  // ---------- the outcome ----------

  /** The table is well-formed: the right leaf passes for padding, and the root spans everything. */
  lemma RootStands(H: Hasher, left: Hash, side: seq<u8>)
    requires |side| == 32 && 0 < left.l0 < MAX64
    ensures RootOf(H, Full(left, side)).Some?
  {
    hide ReadHash;
    var t := Full(left, side);
    EvalOfChildren(H, t, 2);
    EvalOfChildren(H, t, 0);
    assert Children(H, t, 2) == Some((Entry(left, left.l0, MAX64), PAD));
  }

  /** Its own range is empty. */
  lemma RightIsEmpty(left: Hash, side: seq<u8>)
    requires |side| == 32
    ensures RightLeaf(Full(left, side)[4]) == PAD
    ensures !RightNonEmpty(Full(left, side), 2, 3)
  {
    PathsOfTwoAndThree();
    hide Shr, ReadHash;
    var t := Full(left, side);
    assert Walk(t, 2, 3, 2) == 0;
    assert Walk(t, 2, 3, 1) == 2;
  }

  lemma FilledUnfolds(indexes: seq<nat>, hashes: seq<Hash>, proof: seq<u8>)
    requires |indexes| == |hashes| == 4
    ensures var anns := AnnIdxs(indexes, 3);
            FilledTable(hashes, 3, indexes, proof) == ReadFrom(WithHashes(Table(anns, 4), 2, anns, hashes, 4), 0, proof)
  {
    PathsOfTwoAndThree();
    hide WithHashes, ReadFrom, Table, AnnIdxs, Log2Ceil;
  }

  lemma BothAreThere(anns: seq<nat>)
    requires TwoAndThree(anns)
    ensures |anns| == 4 && 2 in anns[..4] && 3 in anns[..4]
  {
    assert anns[..4] == anns;
  }

  lemma FilledIs(anns: seq<nat>, indexes: seq<nat>, hashes: seq<Hash>, left: Hash, side: seq<u8>)
    requires |indexes| == |hashes| == 4 && AnnIdxs(indexes, 3) == anns && TwoAndThree(anns) && |side| == 32
    requires |anns| == 4 && forall i :: 0 <= i < 4 ==> hashes[i] == if anns[i] == 2 then left else ALL_ONES
    ensures FilledTable(hashes, 3, indexes, Proof(left, side)) == Some(Full(left, side))
  {
    hide *;
    FilledUnfolds(indexes, hashes, Proof(left, side));
    TableIs(anns);
    BothAreThere(anns);
    HashesPlaced(anns, hashes, left, ALL_ONES, 4);
    ProofFills(left, side);
  }

  lemma Orders()
    ensures AnnIdxs([2, 1, 1, 2], 3) == [3, 2, 2, 3] && TwoAndThree([3, 2, 2, 3])
    ensures AnnIdxs([1, 1, 2, 2], 3) == [2, 2, 3, 3] && TwoAndThree([2, 2, 3, 3])
  {
    hide *;
    NumbersAre([2, 1, 1, 2], [3, 2, 2, 3]);
    NumbersAre([1, 1, 2, 2], [2, 2, 3, 3]);
    BothGiven([3, 2, 2, 3], 1, 0);
    BothGiven([2, 2, 3, 3], 0, 2);
  }

  lemma ReducedIs(index: nat)
    requires index < 3
    ensures Reduced(index, 3) == index + 1
  {
  }

  lemma NumbersAre(indexes: seq<nat>, anns: seq<nat>)
    requires |indexes| == |anns| == 4 && forall k :: 0 <= k < 4 ==> indexes[k] < 3 && anns[k] == indexes[k] + 1
    ensures AnnIdxs(indexes, 3) == anns
  {
    hide Reduced, AnnIdxs;
    var r := AnnIdxs(indexes, 3);
    forall k | 0 <= k < 4 ensures r[k] == anns[k] {
      ReducedIs(indexes[k]);
    }
  }

  lemma BothGiven(anns: seq<nat>, i: nat, j: nat)
    requires |anns| == 4 && forall k :: 0 <= k < 4 ==> anns[k] == 2 || anns[k] == 3
    requires i < 4 && j < 4 && anns[i] == 2 && anns[j] == 3
    ensures TwoAndThree(anns)
  {
  }

  /** Only in the first order does a right leaf come before its left neighbour. */
  lemma RightsInOrder(t: seq<Cell>)
    ensures RightsNonEmpty(t, 2, [3, 2, 2, 3]) ==> RightNonEmpty(t, 2, 3)
    ensures RightsNonEmpty(t, 2, [2, 2, 3, 3])
  {
    hide RightNonEmpty;
    var refused, accepted := [3, 2, 2, 3], [2, 2, 3, 3];
    assert RightFirst(refused, 0) && refused[0] == 3;
    assert accepted[0] + 1 == 3;
    forall i | 0 <= i < |accepted| ensures !RightFirst(accepted, i) {
    }
  }

  lemma CheckIs(H: Hasher, hashes: seq<Hash>, indexes: seq<nat>, proof: seq<u8>, t: seq<Cell>)
    requires |hashes| == |indexes| == 4 && FilledTable(hashes, 3, indexes, proof) == Some(t)
    ensures Check(H, hashes, 3, indexes, proof)
         == if RightsNonEmpty(t, 2, AnnIdxs(indexes, 3)) then RootOf(H, t) else None
  {
    PathsOfTwoAndThree();
    hide FilledTable, RightsNonEmpty, AnnIdxs, RootOf, Log2Ceil;
  }

  /**
   * The same four announcements, two of them a right leaf of all ones, with the same proof: refused if
   * such a right leaf comes first, accepted if its left neighbour does.
   */
  lemma OrderDecides(H: Hasher, left: Hash, side: seq<u8>)
    requires |side| == 32 && 0 < left.l0 < MAX64
    ensures Check(H, [ALL_ONES, left, left, ALL_ONES], 3, [2, 1, 1, 2], Proof(left, side)) == None
    ensures Check(H, [left, left, ALL_ONES, ALL_ONES], 3, [1, 1, 2, 2], Proof(left, side)).Some?
  {
    hide *;
    var t, proof := Full(left, side), Proof(left, side);
    Orders();
    FilledIs([3, 2, 2, 3], [2, 1, 1, 2], [ALL_ONES, left, left, ALL_ONES], left, side);
    FilledIs([2, 2, 3, 3], [1, 1, 2, 2], [left, left, ALL_ONES, ALL_ONES], left, side);
    CheckIs(H, [ALL_ONES, left, left, ALL_ONES], [2, 1, 1, 2], proof, t);
    CheckIs(H, [left, left, ALL_ONES, ALL_ONES], [1, 1, 2, 2], proof, t);
    RightsInOrder(t);
    RightIsEmpty(left, side);
    RootStands(H, left, side);
  }
}
