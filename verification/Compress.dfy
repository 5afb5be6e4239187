/** compress: the entry table filled from four branches, and the bytes written from it. */
module Compress {
  import opened Words
  import opened RangeTree
  import opened ProofTable
  import opened ProofCheck
  import opened TableWalk
  import opened EntryTable
  import opened ProofSoundness
  import opened ProofRoundTrip
  import opened TableFill
  import opened ProofWriter

  /** Whatever has been filled in is the tree's node. */
  ghost predicate Written(H: Hasher, leaves: seq<Entry>, s: seq<Slot>, c: seq<Cell>) {
    && |s| == |c|
    && (forall x :: 0 <= x < |s| && c[x].flags.hasHash ==>
          c[x].e == Node(H, leaves, s[x].d, s[x].k) && c[x].flags.hasStart && c[x].flags.hasRange)
    && forall x :: 0 <= x < |s| && c[x].flags.padEntry ==> c[x].flags.hasHash
  }

  /** The other child of `x`'s parent. */
  ghost function SiblingOf(s: seq<Slot>, x: nat): nat
    requires x < |s| && s[x].parent < |s|
  {
    if x == s[s[x].parent].left then s[s[x].parent].right else s[s[x].parent].left
  }

  ghost predicate HasHash(c: seq<Cell>, x: nat) {
    x < |c| && c[x].flags.hasHash
  }

  /** The neighbour of announcement `a`'s ancestor in row `d` has been filled in. */
  ghost predicate Covered(s: seq<Slot>, t: seq<Cell>, c: seq<Cell>, h: nat, a: nat, d: nat) {
    var x := Walk(t, h, a, d);
    x < |s| && s[x].parent < |s| && HasHash(c, SiblingOf(s, x))
  }

  /** Everything needed for announcement `a` has been filled in. */
  ghost predicate PathCovered(s: seq<Slot>, t: seq<Cell>, c: seq<Cell>, h: nat, a: nat) {
    && HasHash(c, Walk(t, h, a, 0))
    && forall d :: 0 <= d < h ==> Covered(s, t, c, h, a, d)
  }

  ghost predicate Grows(c: seq<Cell>, c': seq<Cell>) {
    |c| == |c'| && forall x :: 0 <= x < |c| && c[x].flags.hasHash ==> c'[x].flags.hasHash
  }

  function Fill(c: Cell, e: Entry): Cell {
    c.(e := e, flags := c.flags.(hasHash := true, hasStart := true, hasRange := true))
  }

  /** Filling one entry with its node keeps everything. */
  lemma FillKeeps(H: Hasher, leaves: seq<Entry>, anns: seq<nat>, h: nat, s: seq<Slot>, c: seq<Cell>, c': seq<Cell>,
                  x: nat)
    requires TableOk(anns, |leaves|, h, s, c) && Written(H, leaves, s, c) && x < |s| && |c'| == |c|
    requires c'[x] == Fill(c[x], Node(H, leaves, s[x].d, s[x].k))
    requires forall y :: 0 <= y < |c| && y != x ==> c'[y] == c[y]
    ensures TableOk(anns, |leaves|, h, s, c') && Written(H, leaves, s, c') && Grows(c, c')
  {
    hide Linked, Node, CellOf;
    forall y | 0 <= y < |c'|
      ensures ShapedAt(anns, |leaves|, s[y], c'[y])
    {
      assert ShapedAt(anns, |leaves|, s[y], c[y]);
    }
  }

  /** Where a path stands in row `d`, and what its neighbour is. */
  lemma PathSibling(anns: seq<nat>, count: nat, h: nat, s: seq<Slot>, t: seq<Cell>, i: nat, d: nat)
    requires TableOk(anns, count, h, s, t) && i < |anns| && d < h
    ensures var x := Walk(t, h, anns[i], d);
            && 0 < x < |s| && s[x].parent == Walk(t, h, anns[i], d + 1) < |s|
            && t[x].flags.computable
            && SiblingOf(s, x) < |s| && SiblingOf(s, x) > 0 && s[SiblingOf(s, x)].parent == s[x].parent
            && s[SiblingOf(s, x)].d == d && s[SiblingOf(s, x)].k == Flip(Shr(anns[i], d))
            && t[SiblingOf(s, x)].flags.padEntry == IsPad(count, d, Flip(Shr(anns[i], d)))
  {
    var x, p := Walk(t, h, anns[i], d), Walk(t, h, anns[i], d + 1);
    WalkArrives(anns, count, h, s, t, i, d);
    WalkStep(anns, count, h, s, t, i, d);
    HasAbove(anns, i, d);
    hide Has, IsPad, Walk, Shr;
    assert ChildrenLinked(anns, count, s, p) && ShapedAt(anns, count, s[x], t[x]);
    ChildShape(anns, count, h, s, t, p);
    PadnessOfSibling(anns, count, h, s, t, p);
  }

  lemma PadnessOfSibling(anns: seq<nat>, count: nat, h: nat, s: seq<Slot>, t: seq<Cell>, p: nat)
    requires TableOk(anns, count, h, s, t) && p < |s| && Inner(anns, s[p])
    ensures s[p].left < |s| && s[p].right < |s|
    ensures t[s[p].left].flags.padEntry == IsPad(count, s[p].d - 1, 2 * s[p].k)
    ensures t[s[p].right].flags.padEntry == IsPad(count, s[p].d - 1, 2 * s[p].k + 1)
  {
    ChildShape(anns, count, h, s, t, p);
  }

  /** No hash in the tree is all ones. */
  ghost predicate NoAllOnes(H: Hasher, leaves: seq<Entry>) {
    NeverAllOnes(H) && forall i :: 0 <= i < |leaves| ==> leaves[i].hash != ALL_ONES
  }

  ghost predicate WriterState(H: Hasher, leaves: seq<Entry>, anns: seq<nat>, h: nat, s: seq<Slot>, t: seq<Cell>,
                              c: seq<Cell>) {
    TableOk(anns, |leaves|, h, s, t) && TableOk(anns, |leaves|, h, s, c) && Written(H, leaves, s, c)
  }

  lemma WriterParts(H: Hasher, leaves: seq<Entry>, anns: seq<nat>, h: nat, s: seq<Slot>, t: seq<Cell>, c: seq<Cell>)
    requires WriterState(H, leaves, anns, h, s, t, c)
    ensures |s| == |t| == |c| && TableOk(anns, |leaves|, h, s, t) && TableOk(anns, |leaves|, h, s, c)
    ensures forall x :: 0 <= x < |s| ==>
              t[x].flags.padEntry == c[x].flags.padEntry && t[x].flags.computable == c[x].flags.computable
  {
    hide Linked, CellOf;
    forall x | 0 <= x < |s|
      ensures t[x].flags.padEntry == c[x].flags.padEntry && t[x].flags.computable == c[x].flags.computable
    {
      assert ShapedAt(anns, |leaves|, s[x], t[x]) && ShapedAt(anns, |leaves|, s[x], c[x]);
    }
  }

  /** Fill one entry of the table. */
  method FillEntry(H: Hasher, tbl: Tbl, x: nat, e: Entry, ghost leaves: seq<Entry>, ghost anns: seq<nat>,
                   ghost s: seq<Slot>, ghost t: seq<Cell>)
    requires tbl.count <= tbl.entries.Length && x < tbl.count && x < |s|
    requires WriterState(H, leaves, anns, tbl.branchHeight, s, t, Cells(tbl))
    requires e == Node(H, leaves, s[x].d, s[x].k)
    modifies tbl.entries
    ensures WriterState(H, leaves, anns, tbl.branchHeight, s, t, Cells(tbl))
    ensures Grows(old(Cells(tbl)), Cells(tbl)) && HasHash(Cells(tbl), x)
  {
    ghost var c := Cells(tbl);
    WriterParts(H, leaves, anns, tbl.branchHeight, s, t, c);
    hide TableOk;
    tbl.entries[x] := tbl.entries[x].(e := tbl.entries[x].e.(hash := e.hash));
    tbl.entries[x] := tbl.entries[x].(e := tbl.entries[x].e.(start := e.start, end := e.end));
    tbl.entries[x] := tbl.entries[x].(
      flags := tbl.entries[x].flags.(hasHash := true, hasStart := true, hasRange := true));
    FillKeeps(H, leaves, anns, tbl.branchHeight, s, c, Cells(tbl), x);
  }

  /** One step of the filling loop: the neighbour of `e` gets its node, and the walk goes up. */
  method FillSibling(H: Hasher, tbl: Tbl, e: nat, br: Entry, ghost leaves: seq<Entry>, ghost anns: seq<nat>,
                     ghost s: seq<Slot>, ghost t: seq<Cell>, ghost i: nat, ghost d: nat) returns (up: nat)
    requires tbl.count <= tbl.entries.Length && tbl.count <= MAX16 && NoAllOnes(H, leaves)
    requires WriterState(H, leaves, anns, tbl.branchHeight, s, t, Cells(tbl))
    requires i < |anns| && d < tbl.branchHeight && e == Walk(t, tbl.branchHeight, anns[i], d)
    requires br == Node(H, leaves, d, Flip(Shr(anns[i], d)))
    modifies tbl.entries
    ensures WriterState(H, leaves, anns, tbl.branchHeight, s, t, Cells(tbl))
    ensures Grows(old(Cells(tbl)), Cells(tbl))
    ensures up == Walk(t, tbl.branchHeight, anns[i], d + 1)
    ensures Covered(s, t, Cells(tbl), tbl.branchHeight, anns[i], d)
  {
    ghost var h, c := tbl.branchHeight, Cells(tbl);
    WriterParts(H, leaves, anns, h, s, t, c);
    PathSibling(anns, |leaves|, h, s, t, i, d);
    assert tbl.entries[e].flags.computable;
    var sib := GetSibling(tbl, e, anns, |leaves|, s);
    assert sib == SiblingOf(s, e);
    SiblingHolds(H, leaves, s, c, sib);
    hide WriterState, TableOk, Walk, Shr, Flip, Node;
    if !(tbl.entries[sib].flags.padEntry || tbl.entries[sib].flags.hasHash) {
      NotAllOnes(H, leaves, s[sib].d, s[sib].k);
      assert br.hash != ALL_ONES;
      FillEntry(H, tbl, sib, br, leaves, anns, s, t);
    } else if tbl.entries[sib].flags.padEntry {
      PadNode(H, leaves, s[sib].d, s[sib].k);
      assert br == PAD;
    } else {
      assert tbl.entries[sib].e.hash == br.hash;
    }
    WriterParts(H, leaves, anns, h, s, t, Cells(tbl));
    var parent := GetParent(tbl, sib, anns, |leaves|, s);
    up := parent.value;
  }

  lemma SiblingHolds(H: Hasher, leaves: seq<Entry>, s: seq<Slot>, c: seq<Cell>, x: nat)
    requires Written(H, leaves, s, c) && x < |s|
    ensures c[x].flags.hasHash ==> c[x].e == Node(H, leaves, s[x].d, s[x].k)
    ensures c[x].flags.padEntry ==> c[x].flags.hasHash
  {
    hide Node;
  }

  lemma NotAllOnes(H: Hasher, leaves: seq<Entry>, d: nat, k: nat)
    requires NoAllOnes(H, leaves)
    ensures !IsPad(|leaves|, d, k) ==> Node(H, leaves, d, k).hash != ALL_ONES
  {
    if !IsPad(|leaves|, d, k) {
      NodeHashNotAllOnes(H, leaves, d, k);
    }
  }

  /** The filling loop for one announcement. */
  method FillPath(H: Hasher, tbl: Tbl, ann: nat, announcement: Entry, branch: seq<Entry>, ghost leaves: seq<Entry>,
                  ghost anns: seq<nat>, ghost s: seq<Slot>, ghost t: seq<Cell>, ghost i: nat)
    requires tbl.count <= tbl.entries.Length && tbl.count <= MAX16 && NoAllOnes(H, leaves)
    requires WriterState(H, leaves, anns, tbl.branchHeight, s, t, Cells(tbl))
    requires i < |anns| && anns[i] == ann < |leaves| && announcement == leaves[ann]
    requires |branch| == tbl.branchHeight && IsBranch(H, leaves, ann, branch)
    modifies tbl.entries
    ensures WriterState(H, leaves, anns, tbl.branchHeight, s, t, Cells(tbl))
    ensures Grows(old(Cells(tbl)), Cells(tbl))
    ensures PathCovered(s, t, Cells(tbl), tbl.branchHeight, ann)
  {
    hide WriterState, TableOk, Walk, Node, Covered, Grows, HasHash, IsBranch, NoAllOnes, Linked;
    ghost var h, c := tbl.branchHeight, Cells(tbl);
    var e := FillAnn(H, tbl, ann, announcement, leaves, anns, s, t, i);
    for j := 0 to tbl.branchHeight
      invariant WriterState(H, leaves, anns, h, s, t, Cells(tbl)) && Grows(c, Cells(tbl))
      invariant e == Walk(t, h, ann, j) && HasHash(Cells(tbl), Walk(t, h, ann, 0))
      invariant forall d :: 0 <= d < j ==> Covered(s, t, Cells(tbl), h, ann, d)
    {
      ghost var before := Cells(tbl);
      BranchAt(H, leaves, ann, branch, j);
      e := FillSibling(H, tbl, e, branch[j], leaves, anns, s, t, i, j);
      CoveredGrows(s, t, c, before, Cells(tbl), h, ann, j);
    }
    WalkTop(t, h, ann);
    assert e == 0;
    AllCovered(s, t, Cells(tbl), h, ann);
  }

  lemma BranchAt(H: Hasher, leaves: seq<Entry>, a: nat, br: seq<Entry>, j: nat)
    requires IsBranch(H, leaves, a, br) && j < |br|
    ensures br[j] == Node(H, leaves, j, Flip(Shr(a, j)))
  {
  }

  lemma AllCovered(s: seq<Slot>, t: seq<Cell>, c: seq<Cell>, h: nat, a: nat)
    requires HasHash(c, Walk(t, h, a, 0)) && forall d :: 0 <= d < h ==> Covered(s, t, c, h, a, d)
    ensures PathCovered(s, t, c, h, a)
  {
  }

  /** The announcement's own entry is copied into the table. */
  method FillAnn(H: Hasher, tbl: Tbl, ann: nat, announcement: Entry, ghost leaves: seq<Entry>,
                 ghost anns: seq<nat>, ghost s: seq<Slot>, ghost t: seq<Cell>, ghost i: nat) returns (e: nat)
    requires tbl.count <= tbl.entries.Length
    requires WriterState(H, leaves, anns, tbl.branchHeight, s, t, Cells(tbl))
    requires i < |anns| && anns[i] == ann < |leaves| && announcement == leaves[ann]
    modifies tbl.entries
    ensures WriterState(H, leaves, anns, tbl.branchHeight, s, t, Cells(tbl))
    ensures Grows(old(Cells(tbl)), Cells(tbl))
    ensures e == Walk(t, tbl.branchHeight, ann, 0) && HasHash(Cells(tbl), e)
  {
    ghost var h, c := tbl.branchHeight, Cells(tbl);
    LeafNode(H, leaves, ann);
    hide WriterState, Walk, Node, Linked, ShapedAt;
    WriterParts(H, leaves, anns, h, s, t, c);
    e := GetAnn(tbl, ann, anns, |leaves|, s, i);
    WalkSame(anns, |leaves|, h, s, t, c, ann, 0);
    FillEntry(H, tbl, e, announcement, leaves, anns, s, t);
  }

  lemma WalkTop(t: seq<Cell>, h: nat, a: nat)
    ensures Walk(t, h, a, h) == 0
  {
  }

  lemma CoveredGrows(s: seq<Slot>, t: seq<Cell>, first: seq<Cell>, c: seq<Cell>, c': seq<Cell>, h: nat, a: nat, j: nat)
    requires Grows(first, c) && Grows(c, c')
    requires HasHash(c, Walk(t, h, a, 0)) && forall d :: 0 <= d < j ==> Covered(s, t, c, h, a, d)
    ensures Grows(first, c') && HasHash(c', Walk(t, h, a, 0))
    ensures forall d :: 0 <= d < j ==> Covered(s, t, c', h, a, d)
  {
    hide Walk;
    forall d | 0 <= d < j
      ensures Covered(s, t, c', h, a, d)
    {
      assert Covered(s, t, c, h, a, d);
    }
  }
}
