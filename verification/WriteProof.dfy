/** The second half of compress, and PacketCryptProof_mkProof as a whole. */
module WriteProof {
  import opened Words
  import opened RangeTree
  import opened ProofTable
  import opened ProofCheck
  import opened TableWalk
  import opened EntryTable
  import opened ProofSoundness
  import opened ProofRoundTrip
  import opened TableFill
  import opened TreeTable
  import opened ProofWriter
  import opened Compress

  /** Everything the proof must spell out has been filled in. */
  ghost predicate Complete(c: seq<Cell>) {
    forall x :: 0 <= x < |c| && (HasExplicitRange(c[x].flags) || EmitsHash(c[x].flags)) ==> c[x].flags.hasHash
  }

  /** Filling the four paths fills every entry that is written. */
  lemma PathsComplete(H: Hasher, leaves: seq<Entry>, anns: seq<nat>, h: nat, s: seq<Slot>, t: seq<Cell>, c: seq<Cell>)
    requires WriterState(H, leaves, anns, h, s, t, c)
    requires forall i :: 0 <= i < |anns| ==> PathCovered(s, t, c, h, anns[i])
    ensures Complete(c)
  {
    WriterParts(H, leaves, anns, h, s, t, c);
    hide WriterState, PathCovered;
    forall x | 0 <= x < |c| && (HasExplicitRange(c[x].flags) || EmitsHash(c[x].flags))
      ensures c[x].flags.hasHash
    {
      EntryFilled(H, leaves, anns, h, s, t, c, x);
    }
  }

  lemma EntryFilled(H: Hasher, leaves: seq<Entry>, anns: seq<nat>, h: nat, s: seq<Slot>, t: seq<Cell>, c: seq<Cell>,
                    x: nat)
    requires WriterState(H, leaves, anns, h, s, t, c) && x < |c|
    requires forall i :: 0 <= i < |anns| ==> PathCovered(s, t, c, h, anns[i])
    requires HasExplicitRange(c[x].flags) || EmitsHash(c[x].flags)
    ensures c[x].flags.hasHash
  {
    WriterParts(H, leaves, anns, h, s, t, c);
    hide PathCovered, WriterState, IsPad;
    assert ShapedAt(anns, |leaves|, s[x], c[x]);
    if Has(anns, s[x].d, s[x].k) {
      assert s[x].d == 0;
      AnnFilled(anns, |leaves|, h, s, t, c, x);
    } else {
      if x == 0 {
        RootSlot(anns, |leaves|, h, s, t);
        RootHas(anns, |leaves|, h);
      }
      SuppliedFilled(anns, |leaves|, h, s, t, c, x);
    }
  }

  lemma AnnFilled(anns: seq<nat>, count: nat, h: nat, s: seq<Slot>, t: seq<Cell>, c: seq<Cell>, x: nat)
    requires TableOk(anns, count, h, s, t) && x < |s| == |c| && s[x].d == 0 && Has(anns, 0, s[x].k)
    requires forall i :: 0 <= i < |anns| ==> PathCovered(s, t, c, h, anns[i])
    ensures c[x].flags.hasHash
  {
    var i :| 0 <= i < |anns| && Shr(anns[i], 0) == s[x].k;
    hide Walk, Covered;
    assert PathCovered(s, t, c, h, anns[i]);
    WalkReaches(anns, count, h, s, t, i, x);
  }

  lemma SuppliedFilled(anns: seq<nat>, count: nat, h: nat, s: seq<Slot>, t: seq<Cell>, c: seq<Cell>, x: nat)
    requires TableOk(anns, count, h, s, t) && 0 < x < |s| == |c| && !Has(anns, s[x].d, s[x].k)
    requires forall i :: 0 <= i < |anns| ==> PathCovered(s, t, c, h, anns[i])
    ensures c[x].flags.hasHash
  {
    var i := PathThrough(anns, count, h, s, t, x);
    var d := s[x].d;
    hide TableOk, Walk, Has, SiblingOf;
    assert PathCovered(s, t, c, h, anns[i]);
    assert Covered(s, t, c, h, anns[i], d);
  }

  /** A supplied entry is the neighbour of some announcement's path. */
  lemma PathThrough(anns: seq<nat>, count: nat, h: nat, s: seq<Slot>, t: seq<Cell>, x: nat) returns (i: nat)
    requires TableOk(anns, count, h, s, t) && 0 < x < |s| && !Has(anns, s[x].d, s[x].k)
    ensures i < |anns| && s[x].d < h
    ensures var y := Walk(t, h, anns[i], s[x].d); y < |s| && s[y].parent < |s| && SiblingOf(s, y) == x
  {
    hide *;
    ParentOf(anns, count, h, s, t, x);
    var p, d := s[x].parent, s[x].d;
    i := AnnBelow(anns, s[p]);
    WalkReaches(anns, count, h, s, t, i, p);
    PathSibling(anns, count, h, s, t, i, d);
    HasAbove(anns, i, d);
    WalkArrives(anns, count, h, s, t, i, d);
    WalkStep(anns, count, h, s, t, i, d);
    SiblingIs(s, x, Walk(t, h, anns[i], d));
  }

  lemma ParentOf(anns: seq<nat>, count: nat, h: nat, s: seq<Slot>, t: seq<Cell>, x: nat)
    requires TableOk(anns, count, h, s, t) && 0 < x < |s|
    ensures var p := s[x].parent;
            && p < x && Inner(anns, s[p]) && s[p].d == s[x].d + 1
            && s[p].left < |s| && s[p].right < |s| && s[p].left != s[p].right && (s[p].left == x || s[p].right == x)
            && s[s[p].left].parent == p && s[s[p].right].parent == p
  {
    hide Has, IsPad, Shaped;
    assert ParentLinked(anns, s, x) && ChildrenLinked(anns, count, s, s[x].parent);
  }

  lemma AnnBelow(anns: seq<nat>, s: Slot) returns (i: nat)
    requires Inner(anns, s)
    ensures i < |anns| && Shr(anns[i], s.d) == s.k
  {
    i :| 0 <= i < |anns| && Shr(anns[i], s.d) == s.k;
  }

  lemma SiblingIs(s: seq<Slot>, x: nat, y: nat)
    requires x < |s| && y < |s| && s[x].parent < |s| && s[y].parent == s[x].parent && x != y
    requires var p := s[x].parent;
             s[p].left != s[p].right && (s[p].left == x || s[p].right == x) && (s[p].left == y || s[p].right == y)
    ensures SiblingOf(s, y) == x
  {
  }

  // ---------- writing ----------

  /** How many bytes an entry takes. */
  function Width(f: Flags): nat {
    (if HasExplicitRange(f) then 8 else 0) + (if EmitsHash(f) then 32 else 0)
  }

  function TotalWidth(c: seq<Cell>, i: nat): nat
    requires i <= |c|
    decreases |c| - i
  {
    if i == |c| then 0 else Width(c[i].flags) + TotalWidth(c, i + 1)
  }

  /** The size computed before anything is written. */
  method ProofSize(tbl: Tbl) returns (size: nat)
    requires tbl.count <= tbl.entries.Length
    ensures size == TotalWidth(Cells(tbl), 0)
  {
    var hashes, ranges := 0, 0;
    for i := 0 to tbl.count
      invariant hashes * 32 + ranges * 8 + TotalWidth(Cells(tbl), i) == TotalWidth(Cells(tbl), 0)
    {
      if HasExplicitRange(tbl.entries[i].flags) {
        ranges := ranges + 1;
      }
      if !(tbl.entries[i].flags.computable || tbl.entries[i].flags.padEntry) {
        hashes := hashes + 1;
      }
    }
    size := hashes * 32 + ranges * 8;
  }

  ghost predicate Nodes(c: seq<Cell>, nodes: seq<Entry>) {
    && |c| == |nodes|
    && forall x :: 0 <= x < |c| && c[x].flags.hasHash ==>
         c[x].e == nodes[x] && c[x].flags.hasStart && c[x].flags.hasRange
  }

  /** Ranges that are written are not empty. */
  ghost predicate NonEmptyRanges(c: seq<Cell>, nodes: seq<Entry>)
    requires |c| == |nodes|
  {
    forall x :: 0 <= x < |c| && HasExplicitRange(c[x].flags) ==> nodes[x].start < nodes[x].end
  }

  /** Write out the main hashes and ranges needed to make the proof; none of the assertions fails. */
  method WriteOut(tbl: Tbl, ghost nodes: seq<Entry>) returns (out: seq<u8>)
    requires tbl.count <= tbl.entries.Length
    requires Complete(Cells(tbl)) && Nodes(Cells(tbl), nodes) && NonEmptyRanges(Cells(tbl), nodes)
    ensures out == EmitFrom(Cells(tbl), nodes, 0)
  {
    hide *;
    CellsAre(tbl);
    ghost var c := Cells(tbl);
    NodesParts(c, nodes);
    EmitEnds(c, nodes);
    var size := ProofSize(tbl);
    out := [];
    assert out + EmitFrom(c, nodes, 0) == EmitFrom(c, nodes, 0);
    for i := 0 to tbl.count
      invariant out + EmitFrom(c, nodes, i) == EmitFrom(c, nodes, 0)
      invariant |out| + TotalWidth(c, i) == size
    {
      EmitStep(c, nodes, i);
      var part := WriteEntry(tbl, i, nodes);
      Regroup(out, part, EmitFrom(c, nodes, i + 1));
      out := out + part;
      assert |out| <= size;
    }
    assert out + [] == out;
    assert |out| == size;
  }

  lemma Regroup(a: seq<u8>, b: seq<u8>, c: seq<u8>)
    ensures a + (b + c) == (a + b) + c
  {
  }

  lemma NodesParts(c: seq<Cell>, nodes: seq<Entry>)
    requires Nodes(c, nodes)
    ensures |c| == |nodes|
  {
  }

  lemma EmitEnds(c: seq<Cell>, nodes: seq<Entry>)
    requires |c| == |nodes|
    ensures EmitFrom(c, nodes, |c|) == [] && TotalWidth(c, |c|) == 0
  {
  }

  lemma EmitStep(c: seq<Cell>, nodes: seq<Entry>, i: nat)
    requires i < |c| == |nodes|
    ensures EmitFrom(c, nodes, i) == Emit(c[i].flags, nodes[i]) + EmitFrom(c, nodes, i + 1)
    ensures TotalWidth(c, i) == Width(c[i].flags) + TotalWidth(c, i + 1)
  {
    hide Emit, Width;
  }

  method WriteEntry(tbl: Tbl, i: nat, ghost nodes: seq<Entry>) returns (part: seq<u8>)
    requires tbl.count <= tbl.entries.Length && i < tbl.count
    requires Complete(Cells(tbl)) && Nodes(Cells(tbl), nodes) && NonEmptyRanges(Cells(tbl), nodes)
    ensures part == Emit(tbl.entries[i].flags, nodes[i]) && |part| == Width(tbl.entries[i].flags)
  {
    part := [];
    var c := tbl.entries[i];
    assert c == Cells(tbl)[i];
    if HasExplicitRange(c.flags) {
      assert c.flags.hasStart && c.flags.hasRange;
      var range := Sub64(c.e.end, c.e.start);
      assert range > 0;
      part := part + WriteU64(range);
    }
    if !(c.flags.computable || c.flags.padEntry) {
      assert c.flags.hasHash;
      part := part + WriteHash(c.e.hash);
    }
  }

  // ---------- the whole of it ----------

  lemma {:induction false} EmitSame(t: seq<Cell>, c: seq<Cell>, nodes: seq<Entry>, i: nat)
    requires i <= |t| == |c| == |nodes|
    requires forall x :: i <= x < |t| ==>
               && HasExplicitRange(t[x].flags) == HasExplicitRange(c[x].flags)
               && EmitsHash(t[x].flags) == EmitsHash(c[x].flags)
    ensures EmitFrom(t, nodes, i) == EmitFrom(c, nodes, i)
    decreases |t| - i
  {
    hide WriteU64, WriteHash, HasExplicitRange, EmitsHash;
    if i < |t| {
      EmitSame(t, c, nodes, i + 1);
    }
  }

  lemma SameEmission(anns: seq<nat>, count: nat, s: Slot, t: Cell, c: Cell)
    requires ShapedAt(anns, count, s, t) && ShapedAt(anns, count, s, c)
    ensures HasExplicitRange(t.flags) == HasExplicitRange(c.flags) && EmitsHash(t.flags) == EmitsHash(c.flags)
  {
    hide CellOf;
  }

  /** The finished table yields the specified bytes. */
  lemma FinishedTable(H: Hasher, leaves: seq<Entry>, anns: seq<nat>, h: nat, s: seq<Slot>, t: seq<Cell>, c: seq<Cell>,
                      nodes: seq<Entry>)
    requires ValidLeaves(leaves) && WriterState(H, leaves, anns, h, s, t, c)
    requires nodes == NodesOf(H, leaves, s)
    ensures Nodes(c, nodes) && NonEmptyRanges(c, nodes)
    ensures EmitFrom(t, nodes, 0) == EmitFrom(c, nodes, 0)
  {
    hide Linked, CellOf, Node, ValidLeaves;
    forall x | 0 <= x < |s|
      ensures HasExplicitRange(t[x].flags) == HasExplicitRange(c[x].flags)
      ensures EmitsHash(t[x].flags) == EmitsHash(c[x].flags)
      ensures HasExplicitRange(c[x].flags) ==> nodes[x].start < nodes[x].end
    {
      assert ShapedAt(anns, |leaves|, s[x], t[x]) && ShapedAt(anns, |leaves|, s[x], c[x]);
      SameEmission(anns, |leaves|, s[x], t[x], c[x]);
      RangeNonEmpty(H, leaves, anns, s[x], c[x]);
    }
    EmitSame(t, c, nodes, 0);
  }

  lemma RangeNonEmpty(H: Hasher, leaves: seq<Entry>, anns: seq<nat>, s: Slot, c: Cell)
    requires ValidLeaves(leaves) && ShapedAt(anns, |leaves|, s, c)
    requires forall i :: 0 <= i < |anns| ==> anns[i] < |leaves|
    ensures HasExplicitRange(c.flags) ==> Node(H, leaves, s.d, s.k).start < Node(H, leaves, s.d, s.k).end
  {
    if HasExplicitRange(c.flags) {
      if Has(anns, s.d, s.k) {
        HasIsNotPad(anns, |leaves|, s.d, s.k);
      }
      assert !IsPad(|leaves|, s.d, s.k);
      NodesAreNonEmpty(H, leaves, s.d, s.k);
    }
  }

  lemma StartState(H: Hasher, leaves: seq<Entry>, anns: seq<nat>, s: seq<Slot>, t: seq<Cell>)
    requires |anns| == 4 && |leaves| >= 2 && forall i :: 0 <= i < 4 ==> anns[i] < |leaves|
    requires s == Slots(anns, |leaves|) && t == Table(anns, |leaves|)
    ensures WriterState(H, leaves, anns, Log2Ceil(|leaves|), s, t, t)
  {
    FreshTableIsOk(anns, |leaves|);
    hide TableOk, Slots;
    forall x | 0 <= x < |s|
      ensures t[x].flags.hasHash ==>
                t[x].e == Node(H, leaves, s[x].d, s[x].k) && t[x].flags.hasStart && t[x].flags.hasRange
      ensures t[x].flags.padEntry ==> t[x].flags.hasHash
    {
      assert t[x] == CellOf(anns, |leaves|, s[x]);
    }
  }

  /** compress. */
  method CompressProof(H: Hasher, totalAnns: nat, annNumbers: seq<nat>, branches: seq<seq<Entry>>,
                       announcements: seq<Entry>,
                       ghost leaves: seq<Entry>) returns (out: seq<u8>)
    requires ValidLeaves(leaves) && NoAllOnes(H, leaves) && |leaves| == totalAnns <= Pow2(63)
    requires |annNumbers| == |branches| == |announcements| == 4
    requires forall i :: 0 <= i < 4 ==> 1 <= annNumbers[i] < totalAnns && announcements[i] == leaves[annNumbers[i]]
    requires forall i :: 0 <= i < 4 ==>
               |branches[i]| == Log2Ceil(totalAnns) && IsBranch(H, leaves, annNumbers[i], branches[i])
    ensures out == ProofBytes(H, leaves, annNumbers)
  {
    assert MAX16 == 0xffff;
    hide *;
    SizeAtLeastTwo(leaves);
    HeightBound(totalAnns);
    TableFits(annNumbers, totalAnns);
    var tbl := MkEntryTable(totalAnns, annNumbers);
    assert tbl != null;
    CellsAre(tbl);
    ghost var t, s, h := Cells(tbl), Slots(annNumbers, totalAnns), tbl.branchHeight;
    StartState(H, leaves, annNumbers, s, t);
    EveryPath(s, t, t, h, annNumbers);
    for i := 0 to 4
      modifies tbl.entries
      invariant WriterState(H, leaves, annNumbers, h, s, t, Cells(tbl))
      invariant PathsCovered(s, t, Cells(tbl), h, annNumbers, i)
    {
      ghost var c := Cells(tbl);
      FillPath(H, tbl, annNumbers[i], announcements[i], branches[i], leaves, annNumbers, s, t, i);
      PathsGrow(s, t, c, Cells(tbl), h, annNumbers, i);
    }
    EveryPath(s, t, Cells(tbl), h, annNumbers);
    PathsComplete(H, leaves, annNumbers, h, s, t, Cells(tbl));
    ghost var nodes := NodesOf(H, leaves, s);
    FinishedTable(H, leaves, annNumbers, h, s, t, Cells(tbl), nodes);
    EmittedIs(H, leaves, annNumbers);
    out := WriteOut(tbl, nodes);
  }

  /** The first `n` paths are filled in. */
  ghost predicate PathsCovered(s: seq<Slot>, t: seq<Cell>, c: seq<Cell>, h: nat, anns: seq<nat>, n: nat) {
    forall j :: 0 <= j < n && j < |anns| ==> PathCovered(s, t, c, h, anns[j])
  }

  lemma PathsGrow(s: seq<Slot>, t: seq<Cell>, c: seq<Cell>, c': seq<Cell>, h: nat, anns: seq<nat>, i: nat)
    requires i < |anns| && PathsCovered(s, t, c, h, anns, i) && Grows(c, c') && PathCovered(s, t, c', h, anns[i])
    ensures PathsCovered(s, t, c', h, anns, i + 1)
  {
    hide PathCovered, Grows;
    forall j | 0 <= j < i
      ensures PathCovered(s, t, c', h, anns[j])
    {
      PathGrows(s, t, c, c', h, anns[j]);
    }
  }

  lemma EveryPath(s: seq<Slot>, t: seq<Cell>, c: seq<Cell>, h: nat, anns: seq<nat>)
    ensures PathsCovered(s, t, c, h, anns, 0)
    ensures PathsCovered(s, t, c, h, anns, |anns|) ==> forall i :: 0 <= i < |anns| ==> PathCovered(s, t, c, h, anns[i])
  {
    hide PathCovered;
  }

  lemma SizeAtLeastTwo(leaves: seq<Entry>)
    requires ValidLeaves(leaves)
    ensures |leaves| >= 2
  {
  }

  lemma PathGrows(s: seq<Slot>, t: seq<Cell>, c: seq<Cell>, c': seq<Cell>, h: nat, a: nat)
    requires PathCovered(s, t, c, h, a) && Grows(c, c')
    ensures PathCovered(s, t, c', h, a)
  {
    hide Walk;
    forall d | 0 <= d < h
      ensures Covered(s, t, c', h, a, d)
    {
      assert Covered(s, t, c, h, a, d);
    }
  }

  /** Announcement numbers count from zero; entries count from the zero entry. */
  function PastZero(annNumbers: seq<nat>): (r: seq<nat>)
    ensures |r| == |annNumbers| && forall i :: 0 <= i < |r| ==> r[i] == annNumbers[i] + 1
  {
    seq(|annNumbers|, i requires 0 <= i < |annNumbers| => annNumbers[i] + 1)
  }

  /** A branch and its announcement, extracted and checked. */
  ghost predicate Extracted(H: Hasher, leaves: seq<Entry>, a: nat, announcement: Entry, branch: seq<Entry>) {
    && 1 <= a < |leaves| && announcement == leaves[a]
    && |branch| == Log2Ceil(|leaves|) && IsBranch(H, leaves, a, branch)
  }

  lemma ExtractedParts(H: Hasher, leaves: seq<Entry>, a: nat, announcement: Entry, branch: seq<Entry>)
    ensures Extracted(H, leaves, a, announcement, branch) <==>
              && 1 <= a < |leaves| && announcement == leaves[a]
              && |branch| == Log2Ceil(|leaves|) && IsBranch(H, leaves, a, branch)
  {
    hide Log2Ceil, IsBranch;
  }

  /** One turn of mkProof's first loop: mkProofBig's branch, with its self-check. */
  method Extract(H: Hasher, entryTable: seq<Entry>, count: nat, root: Hash, a: nat, ghost leaves: seq<Entry>)
    returns (announcement: Entry, branch: seq<Entry>)
    requires ValidLeaves(leaves) && |leaves| == count <= Pow2(63) && 1 <= a < count
    requires HoldsTree(H, leaves, entryTable) && root == RootHash(H, leaves)
    ensures Extracted(H, leaves, a, announcement, branch)
  {
    hide *;
    SizeAtLeastTwo(leaves);
    HeightBound(count);
    LeafStands(H, leaves, entryTable, a);
    branch := MkBranch(H, entryTable, count, a, leaves);
    var testRoot := HashBranchBig(H, entryTable[a].hash, a, branch, leaves);
    assert testRoot == root;
    announcement := entryTable[a];
    ExtractedParts(H, leaves, a, announcement, branch);
  }

  /** PacketCryptProof_mkProof: the compressed proof of four announcements, self-check included. */
  method MkProof(H: Hasher, entryTable: seq<Entry>, entryCountZeroIncl: nat, root: Hash, annNumbers: seq<nat>,
                 ghost leaves: seq<Entry>)
    returns (proof: seq<u8>)
    requires ValidLeaves(leaves) && NoAllOnes(H, leaves) && |leaves| == entryCountZeroIncl <= Pow2(63)
    requires HoldsTree(H, leaves, entryTable) && root == RootHash(H, leaves)
    requires |annNumbers| == 4 && forall i :: 0 <= i < 4 ==> annNumbers[i] + 1 < entryCountZeroIncl
    ensures proof == ProofBytes(H, leaves, PastZero(annNumbers))
  {
    hide *;
    SizeAtLeastTwo(leaves);
    var annNumbers2, announces, branches := [], [], [];
    for i := 0 to 4
      invariant |annNumbers2| == |announces| == |branches| == i
      invariant forall j :: 0 <= j < i ==>
                  && annNumbers2[j] == annNumbers[j] + 1
                  && Extracted(H, leaves, annNumbers2[j], announces[j], branches[j])
    {
      var announcement, branch := Extract(H, entryTable, entryCountZeroIncl, root, annNumbers[i] + 1, leaves);
      annNumbers2 := annNumbers2 + [annNumbers[i] + 1];
      announces, branches := announces + [announcement], branches + [branch];
    }
    forall i | 0 <= i < 4
      ensures 1 <= annNumbers2[i] < |leaves| && announces[i] == leaves[annNumbers2[i]]
      ensures |branches[i]| == Log2Ceil(|leaves|) && IsBranch(H, leaves, annNumbers2[i], branches[i])
    {
      ExtractedParts(H, leaves, annNumbers2[i], announces[i], branches[i]);
    }
    proof := CompressProof(H, entryCountZeroIncl, annNumbers2, branches, announces, leaves);
    assert annNumbers2 == PastZero(annNumbers);
  }

  /** The first row of the table is the leaf row. */
  lemma LeafStands(H: Hasher, leaves: seq<Entry>, tbl: seq<Entry>, a: nat)
    requires |leaves| >= 2 && HoldsTree(H, leaves, tbl) && a < |leaves|
    ensures a < |tbl| && tbl[a] == leaves[a]
  {
    assert HoldsRow(H, leaves, tbl, 0);
    assert Node(H, leaves, 0, a) == leaves[a];
  }
}
