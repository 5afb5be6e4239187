/** The climb from each announcement in turn, and why the last one always reaches the root. */
module ClimbLoop {
  import opened Words
  import opened RangeTree
  import opened ProofTable
  import opened ProofCheck
  import opened TableWalk
  import opened EntryTable
  import opened ProofSoundness
  import opened ProofRoundTrip
  import opened TableFill
  import opened Climb

  /**
   * Inner entry `p` is computed if both its children are, unless it is the one being worked on or
   * the parent of an announcement that has not been climbed from yet.
   */
  ghost predicate SaturatedAt(anns: seq<nat>, s: seq<Slot>, c: seq<Cell>, i: nat, exempt: int, p: nat)
    requires p < |s|
  {
    s[p].left < |c| && s[p].right < |c| && c[s[p].left].flags.hasHash && c[s[p].right].flags.hasHash ==>
      || (p < |c| && c[p].flags.hasHash)
      || p == exempt
      || (s[p].d == 1 && exists j :: i <= j < |anns| && Shr(anns[j], 1) == s[p].k)
  }

  ghost predicate Saturated(anns: seq<nat>, s: seq<Slot>, c: seq<Cell>, i: nat, exempt: int) {
    forall p :: 0 <= p < |s| && Inner(anns, s[p]) ==> SaturatedAt(anns, s, c, i, exempt, p)
  }

  /** The parent's index, or -1 for the root. */
  ghost function Above(s: seq<Slot>, e: nat): int
    requires e < |s|
  {
    if e == 0 then -1 else s[e].parent
  }

  lemma SaturatedStart(anns: seq<nat>, count: nat, h: nat, s: seq<Slot>, t: seq<Cell>, c: seq<Cell>, i: nat)
    requires TableOk(anns, count, h, s, t) && i < |anns| && h > 0
    requires Saturated(anns, s, c, i, -1)
    ensures var e := Walk(t, h, anns[i], 0); e < |s| && Saturated(anns, s, c, i + 1, Above(s, e))
  {
    LeafSlot(anns, count, h, s, t, i);
    WalkStep(anns, count, h, s, t, i, 0);
    WalkArrives(anns, count, h, s, t, i, 1);
    var e, q := Walk(t, h, anns[i], 0), Walk(t, h, anns[i], 1);
    assert ChildrenLinked(anns, count, s, q);
    hide Has, IsPad, ShapedAt, Linked, Walk;
    forall p | 0 <= p < |s| && Inner(anns, s[p])
      ensures SaturatedAt(anns, s, c, i + 1, Above(s, e), p)
    {
      assert SaturatedAt(anns, s, c, i, -1, p);
      if s[p].d == 1 && Shr(anns[i], 1) == s[p].k {
        WalkReaches(anns, count, h, s, t, i, p);
      }
    }
  }

  lemma SaturatedBreak(anns: seq<nat>, s: seq<Slot>, c: seq<Cell>, i: nat, p: nat)
    requires p < |s| == |c| && s[p].left < |s| && s[p].right < |s| && Saturated(anns, s, c, i, p)
    requires c[p].flags.hasHash || !c[s[p].left].flags.hasHash || !c[s[p].right].flags.hasHash
    ensures Saturated(anns, s, c, i, -1)
  {
    hide Inner, Shr;
    forall q | 0 <= q < |s| && Inner(anns, s[q])
      ensures SaturatedAt(anns, s, c, i, -1, q)
    {
      assert SaturatedAt(anns, s, c, i, p, q);
    }
  }

  lemma SaturatedStep(anns: seq<nat>, count: nat, h: nat, s: seq<Slot>, t: seq<Cell>, c: seq<Cell>, c': seq<Cell>,
                      i: nat, p: nat)
    requires TableOk(anns, count, h, s, t) && |c| == |c'| == |s| && p < |s|
    requires Saturated(anns, s, c, i, p)
    requires c'[p].flags.hasHash && forall x :: 0 <= x < |c| && x != p ==> c'[x].flags.hasHash == c[x].flags.hasHash
    ensures Saturated(anns, s, c', i, Above(s, p))
  {
    hide Has, IsPad, Shr, ShapedAt;
    forall q | 0 <= q < |s| && Inner(anns, s[q])
      ensures SaturatedAt(anns, s, c', i, Above(s, p), q)
    {
      assert SaturatedAt(anns, s, c, i, p, q) && ChildrenLinked(anns, count, s, q);
    }
  }

  /** An inner entry that cannot be evaluated spoils everything above it. */
  lemma {:induction false} NoneReachesRoot(H: Hasher, anns: seq<nat>, count: nat, h: nat, s: seq<Slot>, t: seq<Cell>,
                                           p: nat)
    requires TableOk(anns, count, h, s, t) && p < |s| && Inner(anns, s[p])
    requires Eval(H, t, p).None?
    ensures Eval(H, t, 0).None?
    decreases p
  {
    if p > 0 {
      var q := s[p].parent;
      assert ParentLinked(anns, s, p) && ChildrenLinked(anns, count, s, q);
      ChildShape(anns, count, h, s, t, q);
      InnerIsComputable(anns, count, h, s, t, p);
      hide Has, IsPad, Linked, Shaped;
      assert Eval(H, t, q).None? by {
        ChildValues'(H, t, q, p);
      }
      NoneReachesRoot(H, anns, count, h, s, t, q);
    }
  }

  lemma ChildValues'(H: Hasher, t: seq<Cell>, x: nat, y: nat)
    requires ChildrenInRange(t, x) && (y == t[x].childLeft || y == t[x].childRight)
    requires !t[t[x].childLeft].flags.leaf && t[y].flags.computable && Eval(H, t, y).None?
    ensures Eval(H, t, x).None?
  {
    if Children(H, t, x).Some? {
      ChildValues(H, t, x);
    }
  }

  /** Climb from announcement `i` as far as possible. */
  method ClimbFrom(H: Hasher, tbl: Tbl, annIdxs: seq<nat>, i: nat, ghost count: nat, ghost s: seq<Slot>,
                   ghost t: seq<Cell>)
    returns (ret: int)
    requires tbl.count <= tbl.entries.Length && tbl.count <= MAX16 && tbl.branchHeight > 0 && i < |annIdxs|
    requires ClimbOk(H, annIdxs, count, tbl.branchHeight, s, t, Cells(tbl))
    requires Saturated(annIdxs, s, Cells(tbl), i, -1)
    modifies tbl.entries
    ensures ret in {0, -1, -2}
    ensures ret == 0 ==> ClimbOk(H, annIdxs, count, tbl.branchHeight, s, t, Cells(tbl))
    ensures ret == 0 ==> Saturated(annIdxs, s, Cells(tbl), i + 1, -1)
    ensures ret != 0 ==> Eval(H, t, 0).None?
  {
    ghost var h := tbl.branchHeight;
    var e: nat := StartAt(H, tbl, annIdxs, i, count, s, t);
    while true
      invariant ClimbOk(H, annIdxs, count, h, s, t, Cells(tbl))
      invariant |s| == |t| == tbl.count
      invariant e < |s| && t[e].flags.computable && tbl.entries[e].flags.hasHash
      invariant Saturated(annIdxs, s, Cells(tbl), i + 1, Above(s, e))
      decreases e
    {
      hide ClimbOk, Saturated, Above;
      var more;
      ret, more, e := ClimbOne(H, tbl, e, annIdxs, i, count, s, t);
      if ret != 0 || !more { return; }
    }
  }

  /** The announcement's own entry, where the climb begins. */
  method StartAt(H: Hasher, tbl: Tbl, annIdxs: seq<nat>, i: nat, ghost count: nat, ghost s: seq<Slot>,
                 ghost t: seq<Cell>)
    returns (e: nat)
    requires tbl.count <= tbl.entries.Length && tbl.branchHeight > 0 && i < |annIdxs|
    requires ClimbOk(H, annIdxs, count, tbl.branchHeight, s, t, Cells(tbl))
    requires Saturated(annIdxs, s, Cells(tbl), i, -1)
    ensures e < |s| == |t| == tbl.count && t[e].flags.computable && tbl.entries[e].flags.hasHash
    ensures Saturated(annIdxs, s, Cells(tbl), i + 1, Above(s, e))
  {
    hide NodeOk, Ready, Eval;
    ghost var h, c := tbl.branchHeight, Cells(tbl);
    e := GetAnn(tbl, annIdxs[i], annIdxs, count, s, i);
    WalkSame(annIdxs, count, h, s, t, c, annIdxs[i], 0);
    SaturatedStart(annIdxs, count, h, s, t, c, i);
    AnnIsSet(H, annIdxs, count, h, s, t, c, i);
    assert tbl.entries[e].flags.hasHash && tbl.entries[e].flags.hasRange && tbl.entries[e].flags.hasStart;
  }

  lemma AnnIsSet(H: Hasher, anns: seq<nat>, count: nat, h: nat, s: seq<Slot>, t: seq<Cell>, c: seq<Cell>, i: nat)
    requires ClimbOk(H, anns, count, h, s, t, c) && h > 0 && i < |anns|
    ensures var e := Walk(t, h, anns[i], 0);
            e < |s| == |c| && t[e].flags.computable && c[e].flags.hasHash && c[e].flags.hasRange && c[e].flags.hasStart
  {
    var e, q := Walk(t, h, anns[i], 0), Walk(t, h, anns[i], 1);
    LeafSlot(anns, count, h, s, t, i);
    HasAbove(anns, i, 0);
    WalkStep(anns, count, h, s, t, i, 0);
    WalkArrives(anns, count, h, s, t, i, 1);
    hide Has, IsPad, Eval, Walk;
    assert NodeOk(H, t, c, s, q) && ShapedAt(anns, count, s[e], t[e]);
  }

  /** One round of the climbing loop: an error, the end of this climb, or one entry further up. */
  method ClimbOne(H: Hasher, tbl: Tbl, e: nat, annIdxs: seq<nat>, ghost i: nat, ghost count: nat, ghost s: seq<Slot>,
                  ghost t: seq<Cell>)
    returns (ret: int, more: bool, up: nat)
    requires tbl.count <= tbl.entries.Length && tbl.count <= MAX16
    requires ClimbOk(H, annIdxs, count, tbl.branchHeight, s, t, Cells(tbl))
    requires e < |s| == |t| == tbl.count && t[e].flags.computable && tbl.entries[e].flags.hasHash
    requires Saturated(annIdxs, s, Cells(tbl), i + 1, Above(s, e))
    modifies tbl.entries
    ensures ret in {0, -1, -2}
    ensures ret != 0 ==> Eval(H, t, 0).None?
    ensures ret == 0 ==> ClimbOk(H, annIdxs, count, tbl.branchHeight, s, t, Cells(tbl))
    ensures ret == 0 && !more ==> Saturated(annIdxs, s, Cells(tbl), i + 1, -1)
    ensures ret == 0 && more ==> up < e && t[up].flags.computable && tbl.entries[up].flags.hasHash
    ensures ret == 0 && more ==> Saturated(annIdxs, s, Cells(tbl), i + 1, Above(s, up))
  {
    hide NodeOk, Ready, Eval, Saturated, Has, IsPad, Linked, Shaped, ChildrenLinked, ParentLinked;
    ghost var h, c := tbl.branchHeight, Cells(tbl);
    ret, more, up := 0, false, e;
    var q := GetParent(tbl, e, annIdxs, count, s);
    if q.None? { return; }
    var parent := q.value;
    ParentFacts(H, annIdxs, count, h, s, t, c, e);
    if tbl.entries[parent].flags.hasHash {
      SaturatedBreak(annIdxs, s, c, i + 1, parent);
      return;
    }
    var sib := GetSibling(tbl, e, annIdxs, count, s);
    if !tbl.entries[sib].flags.hasHash {
      SaturatedBreak(annIdxs, s, c, i + 1, parent);
      return;
    }
    assert tbl.entries[parent].flags.computable;
    assert !tbl.entries[parent].flags.hasRange && !tbl.entries[parent].flags.hasStart;
    assert StepReady(H, annIdxs, count, h, s, t, c, parent, e, sib);
    hide ClimbOk;
    ret := ClimbStep(H, tbl, parent, e, sib, annIdxs, count, s, t);
    if ret != 0 {
      NoneReachesRoot(H, annIdxs, count, h, s, t, parent);
      return;
    }
    SaturatedStep(annIdxs, count, h, s, t, c, Cells(tbl), i + 1, parent);
    more, up := true, parent;
  }

  lemma ParentFacts(H: Hasher, anns: seq<nat>, count: nat, h: nat, s: seq<Slot>, t: seq<Cell>, c: seq<Cell>, e: nat)
    requires ClimbOk(H, anns, count, h, s, t, c) && 0 < e < |s|
    ensures var p := s[e].parent;
            && p < e && Inner(anns, s[p]) && t[p].flags.computable && c[p].flags.computable
            && s[p].left < |s| && s[p].right < |s| && (e == s[p].left || e == s[p].right)
            && (!c[p].flags.hasHash ==> !c[p].flags.hasRange && !c[p].flags.hasStart)
            && TableOk(anns, count, h, s, t)
  {
    var p := s[e].parent;
    assert ParentLinked(anns, s, e) && ChildrenLinked(anns, count, s, p) && NodeOk(H, t, c, s, p);
    assert ShapedAt(anns, count, s[p], t[p]) && ShapedAt(anns, count, s[p], c[p]);
    hide Has, IsPad, Eval;
  }

  /** When every announcement has been climbed from, every inner entry is computed. */
  lemma {:induction false} EverythingComputed(H: Hasher, anns: seq<nat>, count: nat, h: nat, s: seq<Slot>,
                                              t: seq<Cell>, c: seq<Cell>, p: nat)
    requires ClimbOk(H, anns, count, h, s, t, c) && p < |s| && Inner(anns, s[p])
    requires Saturated(anns, s, c, |anns|, -1)
    ensures c[p].flags.hasHash
    decreases |s| - p
  {
    var l, r := s[p].left, s[p].right;
    assert ChildrenLinked(anns, count, s, p) && SaturatedAt(anns, s, c, |anns|, -1, p) && NodeOk(H, t, c, s, p);
    ChildShape(anns, count, h, s, t, p);
    InnerIsComputable(anns, count, h, s, t, l);
    InnerIsComputable(anns, count, h, s, t, r);
    if s[p].d > 1 && !c[p].flags.hasHash {
      assert Ready(t[l]) && Ready(t[r]);
      if t[l].flags.computable {
        EverythingComputed(H, anns, count, h, s, t, c, l);
      }
      if t[r].flags.computable {
        EverythingComputed(H, anns, count, h, s, t, c, r);
      }
    }
  }

  // ---------- the whole check ----------

  /** The filled table is what the leaf pass needs. */
  lemma FilledIsReady(anns: seq<nat>, count: nat, h: nat, s: seq<Slot>, t0: seq<Cell>, t: seq<Cell>,
                      hashes: seq<Hash>, proof: seq<u8>)
    requires TableOk(anns, count, h, s, t0) && |anns| == |hashes| && count >= 1
    requires s == Slots(anns, count) && t0 == Table(anns, count)
    requires ReadFrom(WithHashes(t0, h, anns, hashes, |anns|), 0, proof) == Some(t)
    ensures LeafOk(anns, count, h, s, t, t)
    ensures InnersOpen(anns, s, t)
  {
    hide Table, Slots;
    FillKeepsShape(anns, count, h, s, t0, hashes, proof);
    forall x | 0 <= x < |s|
      ensures Ready(t[x]) && (Inner(anns, s[x]) ==> !t[x].flags.hasHash)
    {
      TableCell(anns, count, x);
      CellIsReady(anns, count, h, s, t0, t, hashes, proof, x);
    }
    hide Has, IsPad, Ready, ReadFrom, WithHashes;
    forall p | 0 <= p < |s| && Inner(anns, s[p]) && s[p].d == 1
      ensures s[p].left < |s| && s[p].right < |s| && PairState(t, t, s[p].left, s[p].right)
    {
      assert ChildrenLinked(anns, count, s, p);
    }
  }

  lemma CellIsReady(anns: seq<nat>, count: nat, h: nat, s: seq<Slot>, t0: seq<Cell>, t: seq<Cell>, hashes: seq<Hash>,
                    proof: seq<u8>, x: nat)
    requires TableOk(anns, count, h, s, t0) && |anns| == |hashes| && x < |s|
    requires t0[x] == CellOf(anns, count, s[x])
    requires ReadFrom(WithHashes(t0, h, anns, hashes, |anns|), 0, proof) == Some(t)
    ensures Ready(t[x]) && (Inner(anns, s[x]) ==> !t[x].flags.hasHash)
  {
    hide *;
    TableParts(anns, count, h, s, t0);
    var u := WithHashes(t0, h, anns, hashes, |anns|);
    WithHashesKeeps(anns, count, h, s, t0, hashes, |anns|, x);
    var rest := ReadAt(u, 0, proof, x);
    if s[x].d == 0 && Has(anns, 0, s[x].k) {
      AnnHasHash(anns, count, h, s, t0, hashes, x);
    }
    NotSuppliedWithoutRange(anns, count, h, s, t0, x);
    CellGetsReady(anns, count, s[x], t0[x], u[x], rest);
  }

  /** The left neighbour of padding is on a path. */
  lemma NotSuppliedWithoutRange(anns: seq<nat>, count: nat, h: nat, s: seq<Slot>, t: seq<Cell>, x: nat)
    requires TableOk(anns, count, h, s, t) && x < |s|
    ensures s[x].d == 0 || !s[x].padSibling || Has(anns, s[x].d, s[x].k)
  {
    hide Has, IsPad, Shaped;
    if x > 0 {
      var p := s[x].parent;
      assert ParentLinked(anns, s, x) && ChildrenLinked(anns, count, s, p);
      HasBelow(anns, count, s[x].d, s[p].k);
    }
  }

  lemma CellGetsReady(anns: seq<nat>, count: nat, slot: Slot, o: Cell, u: Cell, rest: seq<u8>)
    requires o == CellOf(anns, count, slot) && SameButHash(u, o) && ReadCell(u, rest).Some?
    requires if slot.d == 0 && Has(anns, 0, slot.k) then u.flags.hasHash else u == o
    requires slot.d == 0 || !slot.padSibling || Has(anns, slot.d, slot.k)
    ensures var c := ReadCell(u, rest).value.0;
            Ready(c) && (Inner(anns, slot) ==> !c.flags.hasHash)
  {
    hide Has, IsPad, ReadHash, ReadU64;
  }

  lemma AnnHasHash(anns: seq<nat>, count: nat, h: nat, s: seq<Slot>, t: seq<Cell>, hashes: seq<Hash>, x: nat)
    requires TableOk(anns, count, h, s, t) && |anns| == |hashes| && x < |s|
    requires s[x].d == 0 && Has(anns, 0, s[x].k)
    ensures WithHashes(t, h, anns, hashes, |anns|)[x].flags.hasHash
    ensures exists j :: 0 <= j < |anns| && WithHashes(t, h, anns, hashes, |anns|)[x].e.hash == hashes[j]
  {
    var i :| 0 <= i < |anns| && Shr(anns[i], 0) == s[x].k;
    WalkReaches(anns, count, h, s, t, i, x);
    LeafSlot(anns, count, h, s, t, i);
    HashAtLeaf(anns, count, h, s, t, hashes, i, |anns|);
  }

  /** Each cell is read on its own. */
  lemma {:induction false} ReadAt(t: seq<Cell>, i: nat, s: seq<u8>, x: nat) returns (rest: seq<u8>)
    requires i <= x < |t| && ReadFrom(t, i, s).Some?
    ensures ReadCell(t[x], rest).Some? && ReadFrom(t, i, s).value[x - i] == ReadCell(t[x], rest).value.0
    decreases x - i
  {
    hide ReadCell;
    rest := s;
    if i < x {
      rest := ReadAt(t, i + 1, ReadCell(t[i], s).value.1, x);
    }
  }

  /** Climb from all four announcements; -1 or -2 if the ranges do not fit together. */
  method ClimbAll(H: Hasher, tbl: Tbl, annIdxs: seq<nat>, ghost count: nat, ghost s: seq<Slot>, ghost t: seq<Cell>)
    returns (ret: int)
    requires |annIdxs| == 4 && tbl.count <= tbl.entries.Length && tbl.count <= MAX16 && tbl.branchHeight > 0
    requires ClimbOk(H, annIdxs, count, tbl.branchHeight, s, t, Cells(tbl))
    requires Saturated(annIdxs, s, Cells(tbl), 0, -1)
    modifies tbl.entries
    ensures ret in {0, -1, -2}
    ensures ret == 0 ==> ClimbOk(H, annIdxs, count, tbl.branchHeight, s, t, Cells(tbl))
    ensures ret == 0 ==> |s| > 0 && |s| == |Cells(tbl)| && tbl.entries[0].flags.hasHash
    ensures ret != 0 ==> Eval(H, t, 0).None?
  {
    hide ClimbOk, Saturated;
    ghost var h := tbl.branchHeight;
    for i := 0 to 4
      invariant ClimbOk(H, annIdxs, count, h, s, t, Cells(tbl))
      invariant Saturated(annIdxs, s, Cells(tbl), i, -1)
    {
      ret := ClimbFrom(H, tbl, annIdxs, i, count, s, t);
      if ret != 0 { return; }
    }
    RootComputed(H, annIdxs, count, h, s, t, Cells(tbl));
    return 0;
  }

  lemma RootComputed(H: Hasher, anns: seq<nat>, count: nat, h: nat, s: seq<Slot>, t: seq<Cell>, c: seq<Cell>)
    requires ClimbOk(H, anns, count, h, s, t, c) && h > 0
    requires Saturated(anns, s, c, |anns|, -1)
    ensures |s| > 0 && |s| == |c| && c[0].flags.hasHash
  {
    RootSlot(anns, count, h, s, t);
    RootHas(anns, count, h);
    EverythingComputed(H, anns, count, h, s, t, c, 0);
  }

  /** Before any climb, only parents of announcements have both children filled in. */
  lemma SaturatedAtFirst(anns: seq<nat>, count: nat, h: nat, s: seq<Slot>, t: seq<Cell>, c: seq<Cell>)
    requires TableOk(anns, count, h, s, t)
    requires InnersKept(s, t, c) && InnersOpen(anns, s, t)
    ensures Saturated(anns, s, c, 0, -1)
  {
    forall p | 0 <= p < |s| && Inner(anns, s[p])
      ensures SaturatedAt(anns, s, c, 0, -1, p)
    {
      var l, r := s[p].left, s[p].right;
      assert ChildrenLinked(anns, count, s, p);
      if s[p].d == 1 {
        var j :| 0 <= j < |anns| && Shr(anns[j], 1) == s[p].k;
      } else {
        ChildShape(anns, count, h, s, t, p);
        assert Inner(anns, s[l]) || Inner(anns, s[r]);
      }
    }
  }

  /** The root's flags and value when the climb is over. */
  lemma RootValue(H: Hasher, anns: seq<nat>, count: nat, h: nat, s: seq<Slot>, t: seq<Cell>, c: seq<Cell>)
    requires ClimbOk(H, anns, count, h, s, t, c) && h > 0 && |s| > 0 && |s| == |c| && c[0].flags.hasHash
    ensures c[0].flags
            == NO_FLAGS.(hasStart := true, hasHash := true, hasRange := true, computable := true, firstEntry := true)
    ensures Eval(H, t, 0) == Some(c[0].e)
  {
    RootSlot(anns, count, h, s, t);
    RootHas(anns, count, h);
    assert ShapedAt(anns, count, s[0], c[0]) && NodeOk(H, t, c, s, 0);
  }

  /** If the leaf pass fails, the root cannot be evaluated or a right leaf has an empty range. */
  lemma LeafFailureIsFatal(H: Hasher, anns: seq<nat>, count: nat, h: nat, s: seq<Slot>, t: seq<Cell>)
    requires TableOk(anns, count, h, s, t) && h > 0 && SomeLeafFails(anns, h, s, t)
    ensures Eval(H, t, 0).None? || !RightsNonEmpty(t, h, anns)
  {
    hide TableOk, Eval, RightNonEmpty, RightFirst, LeafFails;
    var i :| 0 <= i < |anns| && LeafFails(anns, h, s, t, i) && (IsRight(anns[i]) ==> RightFirst(anns, i));
    FailedPair(anns, h, s, t, i);
    if !IsRight(anns[i]) {
      PairFailureIsFatal(H, anns, count, h, s, t, i);
    }
  }

  lemma FailedPair(anns: seq<nat>, h: nat, s: seq<Slot>, t: seq<Cell>, i: nat)
    requires i < |anns| && LeafFails(anns, h, s, t, i)
    ensures IsRight(anns[i]) ==> !RightNonEmpty(t, h, anns[i])
  {
    hide LeafPair, RightNonEmpty, Walk;
  }

  /** A leaf pair that cannot be evaluated spoils the root. */
  lemma PairFailureIsFatal(H: Hasher, anns: seq<nat>, count: nat, h: nat, s: seq<Slot>, t: seq<Cell>, i: nat)
    requires TableOk(anns, count, h, s, t) && h > 0 && i < |anns| && LeafFails(anns, h, s, t, i) && !IsRight(anns[i])
    ensures Eval(H, t, 0).None?
  {
    var e, p := Walk(t, h, anns[i], 0), Walk(t, h, anns[i], 1);
    LeafSlot(anns, count, h, s, t, i);
    WalkStep(anns, count, h, s, t, i, 0);
    WalkArrives(anns, count, h, s, t, i, 1);
    assert ChildrenLinked(anns, count, s, p);
    ChildShape(anns, count, h, s, t, p);
    hide Has, IsPad, Walk, LeafPair, Linked, Shaped, Eval, RightNonEmpty;
    EvalUnfolds(H, t, p);
    assert Eval(H, t, p).None?;
    NoneReachesRoot(H, anns, count, h, s, t, p);
  }

  /** The check on a freshly built table. */
  method CheckTable(H: Hasher, tbl: Tbl, annHashes: seq<Hash>, annIdxs: seq<nat>, ghost count: nat, cpcp: seq<u8>)
    returns (ret: int, hashOut: Hash)
    requires |annHashes| == 4 && |annIdxs| == 4 && count >= 2 && forall i :: 0 <= i < 4 ==> annIdxs[i] < count
    requires tbl.count <= tbl.entries.Length && tbl.count <= MAX16 && tbl.branchHeight == Log2Ceil(count) > 0
    requires Cells(tbl) == Table(annIdxs, count)
    modifies tbl.entries
    ensures ret in {0, -1, -2}
    ensures var filled := ReadFrom(WithHashes(Table(annIdxs, count), tbl.branchHeight, annIdxs, annHashes, 4), 0, cpcp);
            var accepted := filled.Some? && RightsNonEmpty(filled.value, tbl.branchHeight, annIdxs);
            && (ret == 0 ==> accepted && RootOf(H, filled.value) == Some(hashOut))
            && (ret != 0 ==> !accepted || RootOf(H, filled.value).None?)
  {
    hide *;
    hashOut := ZERO_HASH;
    ghost var t0, h, s := Cells(tbl), tbl.branchHeight, Slots(annIdxs, count);
    FreshTableIsOk(annIdxs, count);
    PutHashes(tbl, annIdxs, annHashes, count, s);
    ret := ReadProof(tbl, cpcp);
    if ret != 0 { return; }
    ghost var t := Cells(tbl);
    FilledIsReady(annIdxs, count, h, s, t0, t, annHashes, cpcp);
    LeafOkParts(annIdxs, count, h, s, t, t);
    RootUnfolds(H, t);
    ret := LeafPass(tbl, annIdxs, count, s, t, H);
    if ret != 0 {
      LeafFailureIsFatal(H, annIdxs, count, h, s, t);
      return;
    }
    SaturatedAtFirst(annIdxs, count, h, s, t, Cells(tbl));
    ret := ClimbAll(H, tbl, annIdxs, count, s, t);
    if ret != 0 { return; }
    CellsAre(tbl);
    RootValue(H, annIdxs, count, h, s, t, Cells(tbl));
    var root := tbl.entries[0];
    assert root.flags == NO_FLAGS.(hasStart := true, hasHash := true, hasRange := true, computable := true,
                                   firstEntry := true);
    if root.e.start != 0 || root.e.end != MAX64 { return -2, hashOut; }
    return 0, H([root.e]);
  }

  lemma RootUnfolds(H: Hasher, t: seq<Cell>)
    ensures RootOf(H, t) == match Eval(H, t, 0)
                            case None => None
                            case Some(e) => if e.start == 0 && e.end == MAX64 then Some(H([e])) else None
  {
    hide Eval;
  }

  lemma CheckIs(H: Hasher, annHashes: seq<Hash>, totalAnns: nat, annIndexes: seq<nat>, proof: seq<u8>)
    requires |annHashes| == 4 && |annIndexes| == 4 && totalAnns >= 1
    ensures var anns, h := AnnIdxs(annIndexes, totalAnns), Log2Ceil(totalAnns + 1);
            var filled := ReadFrom(WithHashes(Table(anns, totalAnns + 1), h, anns, annHashes, 4), 0, proof);
            Check(H, annHashes, totalAnns, annIndexes, proof)
            == if filled.Some? && RightsNonEmpty(filled.value, h, anns) then RootOf(H, filled.value) else None
  {
    hide ReadFrom, WithHashes, Table, Log2Ceil, AnnIdxs, RootOf, RightsNonEmpty;
  }

  /**
   * PacketCryptProof_hashProof: 0 and the proved root hash, or an error code.  It accepts exactly
   * what ProofCheck.Check accepts.
   */
  method HashProof(H: Hasher, annHashes: seq<Hash>, totalAnns: nat, annIndexes: seq<nat>, cpcp: seq<u8>)
    returns (ret: int, hashOut: Hash)
    requires |annHashes| == 4 && |annIndexes| == 4 && 1 <= totalAnns < Pow2(63)
    ensures ret in {0, -1, -2}
    ensures ret == 0 ==> Check(H, annHashes, totalAnns, annIndexes, cpcp) == Some(hashOut)
    ensures ret != 0 ==> Check(H, annHashes, totalAnns, annIndexes, cpcp).None?
  {
    assert MAX16 == 0xffff;
    hide *;
    var annIdxs := AnnIdxs(annIndexes, totalAnns);
    var count := totalAnns + 1;
    HeightBound(count);
    TableFits(annIdxs, count);
    CheckIs(H, annHashes, totalAnns, annIndexes, cpcp);
    var tbl := MkEntryTable(count, annIdxs);
    assert tbl != null;
    CellsAre(tbl);
    ret, hashOut := CheckTable(H, tbl, annHashes, annIdxs, count, cpcp);
  }
}
