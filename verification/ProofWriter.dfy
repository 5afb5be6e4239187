/** PacketCryptProof_mkProof: extracting four branches, checking them, and writing the compressed proof. */
module ProofWriter {
  import opened Words
  import opened RangeTree
  import opened ProofRoundTrip
  import opened TreeTable

  // ---------- extracting branches ----------

  /** `x ^ 1`. */
  function Flip(x: nat): nat {
    if x % 2 == 0 then x + 1 else x - 1
  }

  /** The siblings along the path from leaf `a` to the root. */
  ghost predicate IsBranch(H: Hasher, leaves: seq<Entry>, a: nat, br: seq<Entry>) {
    forall j :: 0 <= j < |br| ==> br[j] == Node(H, leaves, j, Flip(Shr(a, j)))
  }

  lemma ShrInRow(n: nat, a: nat, j: nat)
    requires a < n
    ensures Shr(a, j) < Row(n, j)
  {
    PadBeyondRow(n, j, Shr(a, j));
    ShrBounds(a, j);
  }

  /** A node's sibling stands beside it in its row, which is completed to an even length. */
  lemma SiblingInRow(H: Hasher, leaves: seq<Entry>, tbl: seq<Entry>, a: nat, j: nat)
    requires a < |leaves| && HoldsRow(H, leaves, tbl, j)
    ensures Flip(Base(|leaves|, j) + Shr(a, j)) == Base(|leaves|, j) + Flip(Shr(a, j)) < |tbl|
    ensures tbl[Flip(Base(|leaves|, j) + Shr(a, j))] == Node(H, leaves, j, Flip(Shr(a, j)))
  {
    ShrInRow(|leaves|, a, j);
    FlipInRow(Base(|leaves|, j), Shr(a, j), Row(|leaves|, j));
    hide Shr, Row, Node, Flip, Base;
  }

  /** Rows start at even indexes, so flipping the low bit stays within a row. */
  lemma FlipInRow(base: nat, x: nat, row: nat)
    requires base % 2 == 0 && x < row
    ensures Flip(base + x) == base + Flip(x) && Flip(x) < row + row % 2
  {
  }

  /** mkProofBig's loop over one branch. */
  method MkBranch(H: Hasher, entries: seq<Entry>, entryCountZeroIncl: nat, annNumber: nat, ghost leaves: seq<Entry>)
    returns (br: seq<Entry>)
    requires |leaves| == entryCountZeroIncl >= 2 && HoldsTree(H, leaves, entries) && annNumber < |leaves|
    ensures |br| == Log2Ceil(|leaves|) && IsBranch(H, leaves, annNumber, br)
  {
    hide *;
    var offset, base, count := annNumber, 0, entryCountZeroIncl;
    var bh := Log2Ceil(entryCountZeroIncl);
    br := [];
    RowStep(|leaves|, 0);
    NoBranch(H, leaves, annNumber);
    for j := 0 to bh
      invariant |br| == j && IsBranch(H, leaves, annNumber, br)
      invariant offset == Shr(annNumber, j) && base == Base(|leaves|, j) && count == Row(|leaves|, j)
    {
      RowOfTree(H, leaves, entries, j);
      SiblingInRow(H, leaves, entries, annNumber, j);
      var num := base + offset;
      BranchGrows(H, leaves, annNumber, br, entries[Flip(num)]);
      br := br + [entries[Flip(num)]];
      ShrStep(annNumber, j);
      RowStep(|leaves|, j);
      offset := offset / 2;
      count := count + count % 2;
      base := base + count;
      count := count / 2;
    }
  }

  lemma NoBranch(H: Hasher, leaves: seq<Entry>, a: nat)
    ensures IsBranch(H, leaves, a, []) && Shr(a, 0) == a
  {
  }

  lemma BranchGrows(H: Hasher, leaves: seq<Entry>, a: nat, br: seq<Entry>, e: Entry)
    requires IsBranch(H, leaves, a, br) && e == Node(H, leaves, |br|, Flip(Shr(a, |br|)))
    ensures IsBranch(H, leaves, a, br + [e])
  {
    hide Node, Flip, Shr;
  }

  lemma RowOfTree(H: Hasher, leaves: seq<Entry>, tbl: seq<Entry>, j: nat)
    requires |leaves| >= 1 && HoldsTree(H, leaves, tbl) && j < Log2Ceil(|leaves|)
    ensures HoldsRow(H, leaves, tbl, j)
  {
    hide HoldsRow, Log2Ceil;
  }

  // ---------- the self-check of a branch ----------

  /** The node one step up: the entry and its sibling, in order, hashed together. */
  lemma StepUp(H: Hasher, leaves: seq<Entry>, a: nat, j: nat)
    requires a < |leaves|
    ensures var k := Shr(a, j);
            Node(H, leaves, j + 1, Shr(a, j + 1))
            == if k % 2 == 0 then Combine(H, Node(H, leaves, j, k), Node(H, leaves, j, Flip(k)))
               else Combine(H, Node(H, leaves, j, Flip(k)), Node(H, leaves, j, k))
  {
    ShrInRow(|leaves|, a, j + 1);
    PadBeyondRow(|leaves|, j + 1, Shr(a, j + 1));
  }

  /** A leaf ends where the first node to its right starts, or at the end of the space. */
  lemma {:induction false} LeafEnd(H: Hasher, leaves: seq<Entry>, a: nat, j: nat)
    requires ValidLeaves(leaves) && a < |leaves|
    requires forall i :: 0 <= i < j ==> Shr(a, i) % 2 == 1
    ensures leaves[a].end == Node(H, leaves, j, Shr(a, j)).end
  {
    if j > 0 {
      LeafEnd(H, leaves, a, j - 1);
      StepUp(H, leaves, a, j - 1);
      assert Shr(a, j - 1) % 2 == 1;
    } else {
      assert Shr(a, 0) == a && !IsPad(|leaves|, 0, a);
    }
  }

  lemma PairIsOrdered(H: Hasher, leaves: seq<Entry>, a: nat, j: nat)
    requires ValidLeaves(leaves) && a < |leaves|
    ensures var k := Shr(a, j);
            var e, o := Node(H, leaves, j, k), Node(H, leaves, j, Flip(k));
            if k % 2 == 0 then Ordered(e, o) else Ordered(o, e)
  {
    hide Row, Shr, IsPad, Node, ValidLeaves;
    var k := Shr(a, j);
    ShrInRow(|leaves|, a, j);
    if k % 2 == 0 {
      NeighboursAreOrdered(H, leaves, j, k);
    } else {
      NeighboursAreOrdered(H, leaves, j, k - 1);
    }
  }

  lemma NeighboursAreOrdered(H: Hasher, leaves: seq<Entry>, j: nat, k: nat)
    requires ValidLeaves(leaves) && |leaves| >= 1 && k < Row(|leaves|, j)
    ensures Ordered(Node(H, leaves, j, k), Node(H, leaves, j, k + 1))
  {
    hide Row, IsPad, Node, ValidLeaves;
    PadBeyondRow(|leaves|, j, k);
    NodeBounds(H, leaves, j, k);
  }

  /** Two neighbouring nodes: the left one is real, the right one real or padding. */
  predicate Ordered(e0: Entry, e1: Entry) {
    e0.start < e0.end == e1.start && (e1.start < e1.end || e1 == PAD)
  }

  /** hashBranchBig: recompute the root from a branch; its assertions never fail. */
  method HashBranchBig(H: Hasher, annHash: Hash, annNumber: nat, branch: seq<Entry>, ghost leaves: seq<Entry>)
    returns (root: Hash)
    requires ValidLeaves(leaves) && annNumber < |leaves| && annHash == leaves[annNumber].hash
    requires |branch| == Log2Ceil(|leaves|) > 0 && IsBranch(H, leaves, annNumber, branch)
    ensures root == RootHash(H, leaves)
  {
    var e := BranchLeaf(H, annHash, annNumber, branch, leaves);
    var annNum := annNumber;
    for i := 0 to |branch|
      invariant annNum == Shr(annNumber, i) && e == Node(H, leaves, i, annNum)
    {
      hide Node, ValidLeaves, Log2Ceil, Flip, Shr;
      StepUp(H, leaves, annNumber, i);
      PairIsOrdered(H, leaves, annNumber, i);
      var e0 := if annNum % 2 == 0 then e else branch[i];
      var e1 := if annNum % 2 == 0 then branch[i] else e;
      assert e0.end > e0.start || (e0.end == MAX64 && e0.start == MAX64);
      assert e1.end > e1.start || (e1.end == MAX64 && e1.start == MAX64);
      assert e1.start == e0.end;
      e := Entry(H([e0, e1]), e0.start, e1.end);
      assert e.end >= e.start;
      ShrStep(annNumber, i);
      annNum := annNum / 2;
    }
    TopIsZero(annNumber, |leaves|);
    root := H([e]);
    RootSpansEverything(H, leaves, |branch|);
    assert e.end > e.start;
  }

  lemma ShrStep(a: nat, i: nat)
    ensures Shr(a, i + 1) == Shr(a, i) / 2
  {
  }

  lemma TopIsZero(a: nat, n: nat)
    requires a < n
    ensures Shr(a, Log2Ceil(n)) == 0
  {
    ShrZero(a, Log2Ceil(n));
  }

  /** The announcement's entry: its range ends where the branch's first right neighbour starts. */
  method BranchLeaf(H: Hasher, annHash: Hash, annNum: nat, branch: seq<Entry>, ghost leaves: seq<Entry>)
    returns (e: Entry)
    requires ValidLeaves(leaves) && annNum < |leaves| && annHash == leaves[annNum].hash
    requires |branch| == Log2Ceil(|leaves|) && IsBranch(H, leaves, annNum, branch)
    ensures e == Node(H, leaves, 0, annNum)
  {
    e := Entry(annHash, annHash.l0, MAX64);
    for i := 0 to |branch|
      invariant e == Entry(annHash, annHash.l0, MAX64)
      invariant forall j :: 0 <= j < i ==> Shr(annNum, j) % 2 == 1
    {
      if Shr(annNum, i) % 2 == 1 { continue; }
      LeafEnd(H, leaves, annNum, i);
      PairIsOrdered(H, leaves, annNum, i);
      e := e.(end := branch[i].start);
      assert branch[i].start > e.start;
      return;
    }
    LeafEnd(H, leaves, annNum, |branch|);
    TopIsZero(annNum, |leaves|);
    RootSpansEverything(H, leaves, |branch|);
  }
}
