/** packetcrypt-blkmine's ProofTree object: compute, commit and prove. */
module MinerTree {
  import opened Words
  import opened RangeTree
  import opened ProofTable
  import opened ProofCheck
  import opened ProofRoundTrip
  import opened TreeTable
  import opened TreeBuild
  import opened Compress
  import opened WriteProof

  datatype Outcome = Done | Err | Panic

  const COMMIT_MAGIC: u32 := 0x0211f909

  class ProofTree {
    const db: nat -> Hash
    const H: Hasher
    const tbl: array<Entry>
    var size: nat
    var locked: Option<Hash>
    var indexTable: seq<nat>

    /** The leaf row for the current index table. */
    ghost function Leaves(): seq<Entry>
      requires |indexTable| >= 1
      reads this
    {
      LeafRow(HashesOf(db, indexTable))
    }

    /** A computed tree's table, size and root all belong to its index table. */
    ghost predicate Valid()
      reads this, tbl
    {
      locked.Some? ==>
        && size == |indexTable| >= 1 && |indexTable| + 1 < tbl.Length
        && ValidLeaves(Leaves()) && HoldsTree(H, Leaves(), tbl[..])
        && locked.value == RootHash(H, Leaves())
    }

    constructor (db: nat -> Hash, H: Hasher, maxAnns: nat)
      ensures Valid() && fresh(tbl) && locked.None? && size == 0 && indexTable == []
      ensures this.db == db && this.H == H && tbl.Length == EntryCountOf(maxAnns)
    {
      this.db, this.H := db, H;
      var tblSz := EntryCount(maxAnns);
      tbl := new Entry[tblSz](_ => ZERO_ENTRY);
      size, locked, indexTable := 0, None, [];
    }

    method Reset()
      modifies `size, `locked
      ensures Valid() && locked.None? && size == 0
    {
      size, locked := 0, None;
    }

    /** The table has room for the tree and its zero entry. */
    ghost predicate Fits()
      reads this
    {
      EntryCountOf(|indexTable| + 1) <= tbl.Length
    }

    /**
     * compute: the whole tree over the indexed announcements, whatever was in the table before.
     * It panics exactly when their prefixes do not strictly increase inside the 64-bit space or the
     * table is too short for their tree and the zero entry.
     */
    method Compute() returns (r: Outcome)
      requires Valid() && tbl.Length >= 1
      modifies `size, `locked, tbl
      ensures r == if old(locked.Some?) || |indexTable| == 0 then Err
                   else if Increasing(HashesOf(db, indexTable)) && Fits() then Done
                   else Panic
      ensures r == Err ==> size == old(size) && locked == old(locked) && tbl[..] == old(tbl[..])
      ensures r == Done ==> Valid() && locked == Some(RootHash(H, Leaves())) && size == |indexTable|
    {
      if locked.Some? { return Err; }
      if |indexTable| == 0 { return Err; }
      hide HoldsTree, ValidLeaves, Log2Ceil, Base, LeafRow, Increasing, RootHash, EntryCountOf, RowsDone;
      var n := |indexTable| + 1;
      LongerThanLeaves(n);
      var ok := PlaceLeaves(H, db, indexTable, tbl);
      if !ok { return Panic; }
      LeafRowIsValid(HashesOf(db, indexTable));
      var root, odx;
      ok, root, odx := BuildTree(H, tbl, n, Leaves());
      if !ok { return Panic; }
      locked := Some(root);
      size := |indexTable|;
      return Done;
    }

    /** get_commit: the 48 bytes a block commits to. */
    method GetCommit(annMinWork: u32) returns (r: Option<seq<u8>>)
      requires Valid()
      ensures r.None? <==> locked.None?
      ensures r.Some? ==> |r.value| == 48
      ensures r.Some? ==> FromLittleEndian(r.value[..4]) == COMMIT_MAGIC
      ensures r.Some? ==> FromLittleEndian(r.value[4..8]) == annMinWork
      ensures r.Some? ==> ReadHash(r.value[8..40]) == RootHash(H, Leaves())
      ensures r.Some? && size < TWO64 ==> FromLittleEndian(r.value[40..]) == |indexTable|
    {
      if locked.None? { return None; }
      hide Valid, HoldsTree, ValidLeaves, WriteU64, ReadU64;
      LockedFacts();
      var out := [0x09, 0xf9, 0x11, 0x02];
      out := out + LittleEndian(annMinWork, 4);
      out := out + WriteHash(locked.value);
      out := out + LittleEndian(size, 8);
      CommitFields(annMinWork, locked.value, size);
      assert out == Commit(annMinWork, locked.value, size);
      return Some(out);
    }

    lemma ValidParts()
      requires Valid()
      ensures locked.Some? ==>
                && size == |indexTable| >= 1 && |Leaves()| == |indexTable| + 1
                && ValidLeaves(Leaves()) && HoldsTree(H, Leaves(), tbl[..]) && locked.value == RootHash(H, Leaves())
    {
      hide ValidLeaves, HoldsTree;
    }

    lemma LockedFacts()
      requires Valid() && locked.Some?
      ensures size == |indexTable| >= 1 && locked.value == RootHash(H, Leaves())
    {
    }

    /** mk_proof: the compressed proof of four of the tree's announcements. */
    method MkProof(annNums: seq<nat>) returns (r: Option<seq<u8>>)
      requires Valid() && |annNums| == 4
      requires locked.Some? ==> size < Pow2(63) && NoAllOnes(H, Leaves())
      ensures r.None? <==> locked.None? || exists i :: 0 <= i < 4 && annNums[i] >= size
      ensures r.Some? ==> r.value == ProofBytes(H, Leaves(), PastZero(annNums))
    {
      hide *;
      ValidParts();
      if locked.None? { return None; }
      for i := 0 to 4
        invariant forall j :: 0 <= j < i ==> annNums[j] < size
      {
        if annNums[i] >= size { return None; }
      }
      var proof := WriteProof.MkProof(H, tbl[..], |indexTable| + 1, locked.value, annNums, Leaves());
      return Some(proof);
    }
  }

  /**
   * The leaf row, with the zero entry in front; false stands for a panic.  The layer loop begins by
   * looking at the last leaf, which panics if the table ends before it.
   */
  method PlaceLeaves(H: Hasher, db: nat -> Hash, indexTable: seq<nat>, tbl: array<Entry>) returns (ok: bool)
    requires 1 <= |indexTable| && 1 <= tbl.Length
    modifies tbl
    ensures ok <==> Increasing(HashesOf(db, indexTable)) && |indexTable| < tbl.Length
    ensures ok ==> RowsDone(H, LeafRow(HashesOf(db, indexTable)), tbl[..], 0)
  {
    hide Increasing;
    ghost var hashes := HashesOf(db, indexTable);
    ok := FillLeaves(db, indexTable, tbl);
    if !ok { return; }
    if tbl.Length == 1 { return false; }
    FirstLeaf(tbl[..], hashes, Reach(|indexTable|, tbl.Length));
    tbl[0] := ZERO_ENTRY;
    tbl[0] := tbl[0].(end := tbl[1].start);
    if tbl[0].end <= tbl[0].start { return false; }
    if |indexTable| >= tbl.Length { return false; }
    IncreasingIff(tbl[..], hashes);
    LeafRowStands(H, tbl[..], hashes);
  }

  lemma FirstLeaf(tbl: seq<Entry>, hashes: seq<Hash>, n: nat)
    requires 1 <= n <= |hashes| && LeavesIn(tbl, hashes, 0, n)
    ensures tbl[1] == Leaf(hashes, 0) && (Increasing(hashes) ==> tbl[1].start > 0)
  {
    assert tbl[0 + 1] == Leaf(hashes, 0);
  }

  /** The rows above the leaves, and the hash of the root. */
  method BuildTree(H: Hasher, tbl: array<Entry>, n: nat, ghost leaves: seq<Entry>)
    returns (ok: bool, root: Hash, odx: nat)
    requires ValidLeaves(leaves) && |leaves| == n >= 2
    requires RowsDone(H, leaves, tbl[..], 0)
    modifies tbl
    ensures ok <==> EntryCountOf(n) <= tbl.Length
    ensures ok ==> HoldsTree(H, leaves, tbl[..]) && root == RootHash(H, leaves)
  {
    hide HoldsTree, ValidLeaves, RowsDone, Log2Ceil, Base, RootHash, EntryCountOf;
    root := ZERO_HASH;
    ok, odx := BuildRows(H, tbl, n, leaves);
    if !ok { return; }
    var count := EntryCount(n);
    assert odx == count;
    EntryCountIs(n, Log2Ceil(n));
    RootStands(H, leaves, tbl[..]);
    root := H([tbl[odx - 1]]);
  }

  lemma LongerThanLeaves(n: nat)
    requires n >= 2
    ensures EntryCountOf(n) > n
  {
  }

  /**
   * The table ProofTree::new makes room for: any number of announcements up to maxAnns - 1, all of
   * maxAnns only if that is odd, and none at all if it is at most 1.
   */
  lemma NewTreeFitsIff(maxAnns: nat, len: nat)
    requires len >= 1
    ensures EntryCountOf(len + 1) <= EntryCountOf(maxAnns) <==> maxAnns > 1 && len + 1 <= maxAnns + maxAnns % 2
  {
    TableHoldsIff(maxAnns, len + 1);
  }

  lemma IncreasingIff(tbl: seq<Entry>, hashes: seq<Hash>)
    requires |hashes| >= 1 && LeavesIn(tbl, hashes, 0, |hashes|)
    ensures Increasing(hashes) <==> tbl[1].start > 0
  {
    assert tbl[0 + 1] == Leaf(hashes, 0);
  }

  lemma LeafRowStands(H: Hasher, tbl: seq<Entry>, hashes: seq<Hash>)
    requires |hashes| >= 1 && LeavesIn(tbl, hashes, 0, |hashes|)
    requires tbl[0] == ZERO_ENTRY.(end := tbl[1].start)
    ensures RowsDone(H, LeafRow(hashes), tbl, 0)
  {
    hide *;
    var leaves := LeafRow(hashes);
    LeavesFit(tbl, hashes);
    forall x | 0 <= x < |leaves|
      ensures tbl[x] == Node(H, leaves, 0, x)
    {
      LeafRowNode(H, leaves, x);
      LeafStandsAt(tbl, hashes, x);
    }
    RowZero(H, leaves, tbl);
  }

  lemma RowZero(H: Hasher, leaves: seq<Entry>, tbl: seq<Entry>)
    requires |leaves| <= |tbl| && forall x :: 0 <= x < |leaves| ==> tbl[x] == Node(H, leaves, 0, x)
    ensures RowsDone(H, leaves, tbl, 0)
  {
    hide Node, HoldsRow, Base, Row;
    RowStep(|leaves|, 0);
  }

  lemma LeavesFit(tbl: seq<Entry>, hashes: seq<Hash>)
    requires LeavesIn(tbl, hashes, 0, |hashes|)
    ensures |hashes| < |tbl|
  {
  }

  lemma LeafStandsAt(tbl: seq<Entry>, hashes: seq<Hash>, x: nat)
    requires |hashes| >= 1 && LeavesIn(tbl, hashes, 0, |hashes|) && x <= |hashes|
    requires tbl[0] == ZERO_ENTRY.(end := tbl[1].start)
    ensures tbl[x] == LeafRow(hashes)[x]
  {
    assert tbl[0 + 1] == Leaf(hashes, 0);
    if x > 0 {
      assert tbl[(x - 1) + 1] == Leaf(hashes, x - 1);
    }
  }

  lemma RootStands(H: Hasher, leaves: seq<Entry>, tbl: seq<Entry>)
    requires |leaves| >= 1 && HoldsTree(H, leaves, tbl)
    ensures Base(|leaves|, Log2Ceil(|leaves|)) < |tbl|
    ensures H([tbl[Base(|leaves|, Log2Ceil(|leaves|))]]) == RootHash(H, leaves)
  {
  }

  /** The commit's layout. */
  function Commit(annMinWork: u32, root: Hash, size: nat): seq<u8> {
    [0x09, 0xf9, 0x11, 0x02] + LittleEndian(annMinWork, 4) + WriteHash(root) + LittleEndian(size, 8)
  }

  /** Every field of a commit reads back. */
  lemma CommitFields(annMinWork: u32, root: Hash, size: nat)
    ensures var c := Commit(annMinWork, root, size);
            && |c| == 48
            && FromLittleEndian(c[..4]) == COMMIT_MAGIC
            && FromLittleEndian(c[4..8]) == annMinWork
            && ReadHash(c[8..40]) == root
            && (size < TWO64 ==> FromLittleEndian(c[40..]) == size)
  {
    var c := Commit(annMinWork, root, size);
    var magic: seq<u8> := [0x09, 0xf9, 0x11, 0x02];
    assert c[..4] == magic && c[4..8] == LittleEndian(annMinWork, 4);
    assert c[8..40] == WriteHash(root) && c[40..] == LittleEndian(size, 8);
    MagicReads(magic);
    Pow2Of32();
    LittleEndianRoundTrip(annMinWork, 4);
    HashRoundTrip(root);
    if size < TWO64 {
      Pow2Of64();
      LittleEndianRoundTrip(size, 8);
    }
  }

  lemma MagicReads(magic: seq<u8>)
    requires magic == [0x09, 0xf9, 0x11, 0x02]
    ensures FromLittleEndian(magic) == COMMIT_MAGIC
  {
    assert magic[1..] == [0xf9, 0x11, 0x02] && magic[1..][1..] == [0x11, 0x02] && magic[1..][1..][1..] == [0x02];
    assert magic[1..][1..][1..][1..] == [];
    assert FromLittleEndian(magic[1..][1..][1..]) == 0x02;
    assert FromLittleEndian(magic[1..][1..]) == 0x0211;
    assert FromLittleEndian(magic[1..]) == 0x0211f9;
  }

  lemma Pow2Of32()
    ensures Pow2(32) == 0x1_0000_0000
  {
    assert Pow2(8) == 256;
    Pow2Adds(8, 8);
    Pow2Adds(16, 16);
  }
}
