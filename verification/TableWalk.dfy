/** Tables that keep the shape of the layout while hashes are filled in, and paths through them. */
module TableWalk {
  import opened Words
  import opened RangeTree
  import opened ProofTable
  import opened ProofCheck

  /** The links and the constant flags of a cell are those its slot calls for. */
  ghost predicate ShapedAt(anns: seq<nat>, count: nat, s: Slot, c: Cell) {
    var o := CellOf(anns, count, s);
    && c.childLeft == o.childLeft && c.childRight == o.childRight && c.parent == o.parent
    && c.flags.(hasHash := false, hasRange := false, hasStart := false)
       == o.flags.(hasHash := false, hasRange := false, hasStart := false)
  }

  ghost predicate Shaped(anns: seq<nat>, count: nat, s: seq<Slot>, t: seq<Cell>) {
    && |t| == |s|
    && forall x :: 0 <= x < |t| ==> ShapedAt(anns, count, s[x], t[x])
  }

  /** A well-formed table for a set of announcement numbers. */
  ghost predicate TableOk(anns: seq<nat>, count: nat, h: nat, s: seq<Slot>, t: seq<Cell>) {
    && |anns| > 0
    && (forall i :: 0 <= i < |anns| ==> anns[i] < count)
    && count <= Pow2(h)
    && Linked(anns, count, h, s)
    && Shaped(anns, count, s, t)
  }

  lemma TableParts(anns: seq<nat>, count: nat, h: nat, s: seq<Slot>, t: seq<Cell>)
    requires TableOk(anns, count, h, s, t)
    ensures |s| == |t| && forall i :: 0 <= i < |anns| ==> anns[i] < count
  {
  }

  lemma ShapeOf(anns: seq<nat>, count: nat, h: nat, s: seq<Slot>, t: seq<Cell>, x: nat)
    requires TableOk(anns, count, h, s, t) && x < |s|
    ensures x < |t| && ShapedAt(anns, count, s[x], t[x])
  {
  }

  /** The flags of a well-shaped cell, spelt out. */
  lemma CellFlags(anns: seq<nat>, count: nat, s: Slot, c: Cell)
    requires ShapedAt(anns, count, s, c)
    ensures var f, has, pad := c.flags, Has(anns, s.d, s.k), IsPad(count, s.d, s.k);
            f.computable == has && f.padEntry == (!has && pad) && f.leaf == (s.d == 0) && f.right == (s.k % 2 == 1)
            && f.padSibling == s.padSibling
    ensures Inner(anns, s) ==> c.childLeft == s.left && c.childRight == s.right
  {
    hide Has, IsPad;
  }

  lemma InnerIs(anns: seq<nat>, s: Slot)
    ensures Inner(anns, s) <==> s.d > 0 && Has(anns, s.d, s.k)
  {
    hide Has;
  }

  lemma LinkOf(anns: seq<nat>, count: nat, h: nat, s: seq<Slot>, t: seq<Cell>, x: nat)
    requires TableOk(anns, count, h, s, t) && x < |s| && s[x].d > 0 && Has(anns, s[x].d, s[x].k)
    ensures var l, r := s[x].left, s[x].right;
            && x < l < r < |s|
            && s[l].d == s[x].d - 1 && s[l].k == 2 * s[x].k && s[r].d == s[x].d - 1 && s[r].k == 2 * s[x].k + 1
            && s[l].padSibling == (!Has(anns, s[r].d, s[r].k) && IsPad(count, s[r].d, s[r].k)) && !s[r].padSibling
  {
    hide Has, IsPad, Shaped;
    assert ChildrenLinked(anns, count, s, x);
  }

  lemma FreshTableIsOk(anns: seq<nat>, count: nat)
    requires |anns| > 0 && count >= 1 && forall i :: 0 <= i < |anns| ==> anns[i] < count
    ensures TableOk(anns, count, Log2Ceil(count), Slots(anns, count), Table(anns, count))
  {
    SlotsAreLinked(anns, count);
  }

  lemma HasAbove(anns: seq<nat>, i: nat, d: nat)
    requires i < |anns|
    ensures Has(anns, d, Shr(anns[i], d))
  {
  }

  /** Following child links reaches the ancestor of each announcement in every row. */
  lemma {:induction false} WalkArrives(anns: seq<nat>, count: nat, h: nat, s: seq<Slot>, t: seq<Cell>, i: nat, d: nat)
    requires TableOk(anns, count, h, s, t) && i < |anns| && d <= h
    ensures var x := Walk(t, h, anns[i], d); x < |t| && s[x].d == d && s[x].k == Shr(anns[i], d)
    decreases h - d
  {
    if d == h {
      ShrZero(anns[i], h);
    } else {
      WalkArrives(anns, count, h, s, t, i, d + 1);
      HasAbove(anns, i, d + 1);
      var p := Walk(t, h, anns[i], d + 1);
      hide Has, IsPad;
      assert ChildrenLinked(anns, count, s, p) && ShapedAt(anns, count, s[p], t[p]);
    }
  }

  /** And it is the only entry there: an entry above announcement `i` is on its path. */
  lemma {:induction false} WalkReaches(anns: seq<nat>, count: nat, h: nat, s: seq<Slot>, t: seq<Cell>, i: nat, x: nat)
    requires TableOk(anns, count, h, s, t) && i < |anns| && x < |s|
    requires Shr(anns[i], s[x].d) == s[x].k
    ensures s[x].d <= h && Walk(t, h, anns[i], s[x].d) == x
    decreases x
  {
    if x > 0 {
      var p := s[x].parent;
      hide Has, IsPad;
      assert ParentLinked(anns, s, x) && ChildrenLinked(anns, count, s, p) && ShapedAt(anns, count, s[p], t[p]);
      WalkReaches(anns, count, h, s, t, i, p);
    }
  }

  /** Paths depend only on the links. */
  lemma {:induction false} WalkSame(anns: seq<nat>, count: nat, h: nat, s: seq<Slot>, t: seq<Cell>, u: seq<Cell>,
                                    a: nat, d: nat)
    requires Shaped(anns, count, s, t) && Shaped(anns, count, s, u)
    ensures Walk(t, h, a, d) == Walk(u, h, a, d)
    decreases h - d
  {
    if d < h {
      WalkSame(anns, count, h, s, t, u, a, d + 1);
      var p := Walk(t, h, a, d + 1);
      assert p < |t| ==> ShapedAt(anns, count, s[p], t[p]) && ShapedAt(anns, count, s[p], u[p]);
    }
  }

  lemma {:induction false} WithHashesShaped(anns: seq<nat>, count: nat, s: seq<Slot>, t: seq<Cell>, h: nat,
                                            hashes: seq<Hash>, n: nat)
    requires Shaped(anns, count, s, t) && n <= |anns| && n <= |hashes|
    ensures Shaped(anns, count, s, WithHashes(t, h, anns, hashes, n))
  {
    if n > 0 {
      WithHashesShaped(anns, count, s, t, h, hashes, n - 1);
      hide Has, IsPad, Walk;
    }
  }

  lemma ReadCellShaped(anns: seq<nat>, count: nat, slot: Slot, c: Cell, s: seq<u8>)
    requires ShapedAt(anns, count, slot, c) && ReadCell(c, s).Some?
    ensures ShapedAt(anns, count, slot, ReadCell(c, s).value.0)
    ensures c.flags.hasHash ==> ReadCell(c, s).value.0.e.hash == c.e.hash
  {
    hide Has, IsPad;
  }

  lemma {:induction false} ReadFromShaped(anns: seq<nat>, count: nat, s: seq<Slot>, t: seq<Cell>, i: nat,
                                          bytes: seq<u8>)
    requires Shaped(anns, count, s, t) && i <= |t| && ReadFrom(t, i, bytes).Some?
    ensures var r := ReadFrom(t, i, bytes).value;
            forall j :: 0 <= j < |r| ==>
              ShapedAt(anns, count, s[i + j], r[j]) && (t[i + j].flags.hasHash ==> r[j].e.hash == t[i + j].e.hash)
    decreases |t| - i
  {
    if i < |t| {
      assert ShapedAt(anns, count, s[i], t[i]);
      ReadCellShaped(anns, count, s[i], t[i], bytes);
      var (c, rest) := ReadCell(t[i], bytes).value;
      ReadFromShaped(anns, count, s, t, i + 1, rest);
      hide ShapedAt, ReadCell;
      var cs := ReadFrom(t, i + 1, rest).value;
      assert ReadFrom(t, i, bytes).value == [c] + cs;
    }
  }
}
