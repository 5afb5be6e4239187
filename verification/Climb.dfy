/**
 * The climbing passes of PacketCryptProof_hashProof: leaf bounds first, then from each announcement
 * towards the root as far as the neighbours allow.
 */
module Climb {
  import opened Words
  import opened RangeTree
  import opened ProofTable
  import opened ProofCheck
  import opened TableWalk
  import opened EntryTable
  import opened ProofSoundness
  import opened ProofRoundTrip
  import opened TableFill

  // ---------- what the passes keep ----------

  /** A cell as the reading pass leaves it. */
  ghost predicate Ready(c: Cell) {
    var f := c.flags;
    && (f.padEntry ==> f.hasHash && f.hasRange && f.hasStart && c.e == PAD)
    && (!f.padEntry ==> !f.hasStart)
    && (f.leaf || !f.computable ==> f.hasHash)
    && (!f.leaf && f.computable ==> !f.hasHash && !f.hasRange)
    && (!f.leaf && !f.computable ==> f.hasRange)
  }

  /** Both leaves of a pair have their bounds, and one of them was seen to be non-empty. */
  ghost predicate LeavesSet(tl: Cell, tr: Cell, cl: Cell, cr: Cell) {
    && cl.e == LeftLeaf(tl, tr) && cr.e == RightLeaf(tr)
    && cl.flags.hasHash && cl.flags.hasRange && cl.flags.hasStart
    && cr.flags.hasHash && cr.flags.hasRange && cr.flags.hasStart
    && (cl.e.start < cl.e.end || cr.e.start < cr.e.end)
  }

  /** An inner entry and its children, in the course of the leaf pass and the climb. */
  ghost predicate NodeOk(H: Hasher, t: seq<Cell>, c: seq<Cell>, s: seq<Slot>, p: nat)
    requires p < |s| == |t| == |c| && s[p].left < |s| && s[p].right < |s|
  {
    var l, r := s[p].left, s[p].right;
    var f := c[p].flags;
    && (f.hasHash ==> f.hasRange && f.hasStart && Eval(H, t, p) == Some(c[p].e))
    && (!f.hasHash ==> c[p] == t[p] && !f.hasRange && !f.hasStart)
    && (s[p].d == 1 ==> LeavesSet(t[l], t[r], c[l], c[r]))
    && (s[p].d > 1 && !f.hasHash && !t[l].flags.computable ==> c[l] == t[l])
    && (s[p].d > 1 && !f.hasHash && !t[r].flags.computable ==> c[r] == t[r])
  }

  ghost predicate ClimbOk(H: Hasher, anns: seq<nat>, count: nat, h: nat, s: seq<Slot>, t: seq<Cell>, c: seq<Cell>) {
    && TableOk(anns, count, h, s, t) && Shaped(anns, count, s, c)
    && (forall x :: 0 <= x < |s| ==> Ready(t[x]))
    && (forall p :: 0 <= p < |s| && Inner(anns, s[p]) ==> s[p].left < |s| && s[p].right < |s| && NodeOk(H, t, c, s, p))
  }

  // ---------- one step ----------

  /** A neighbour without bounds gets them from the entry next to it. */
  function Bounded(e: Entry, sib: Entry, eIsRight: bool): Entry {
    if eIsRight then sib.(start := Sub64(e.start, sib.end), end := e.start)
    else sib.(start := e.end, end := Add64(sib.end, e.end))
  }

  /** Evaluated entries are never empty. */
  lemma {:induction false} EvalNonEmpty(H: Hasher, t: seq<Cell>, x: nat)
    requires Eval(H, t, x).Some?
    requires forall y :: 0 <= y < |t| ==> Ready(t[y])
    ensures Eval(H, t, x).value.start < Eval(H, t, x).value.end
    decreases |t| - x
  {
    var l, r := t[x].childLeft, t[x].childRight;
    if !t[l].flags.leaf {
      if Eval(H, t, l).Some? {
        EvalNonEmpty(H, t, l);
      }
      if Eval(H, t, r).Some? {
        EvalNonEmpty(H, t, r);
      }
      hide Eval;
      InnerPairNonEmpty(t[l], t[r], Eval(H, t, l), Eval(H, t, r));
    }
  }

  lemma InnerPairNonEmpty(l: Cell, r: Cell, a: Option<Entry>, b: Option<Entry>)
    requires InnerPair(l, r, a, b).Some?
    requires a.Some? ==> a.value.start < a.value.end
    requires b.Some? ==> b.value.start < b.value.end
    requires r.flags.padEntry ==> r.e == PAD
    ensures var (x, y) := InnerPair(l, r, a, b).value; x.start < x.end == y.start && (y.start < y.end || y == PAD)
  {
  }

  /** The checks made on a pair before it is hashed. */
  predicate PairOk(a: Entry, b: Entry) {
    && b.start == a.end
    && (b.end > b.start || b == PAD)
    && (a.end > a.start || a == PAD)
  }

  /** On set leaves the checks are LeafPair's. */
  lemma LeafStep(tl: Cell, tr: Cell, cl: Cell, cr: Cell)
    requires LeavesSet(tl, tr, cl, cr)
    ensures LeafPair(tl, tr) == if PairOk(cl.e, cr.e) then Some((cl.e, cr.e)) else None
  {
  }

  /** From the left: the right neighbour is computed, padding or supplied. */
  lemma RightStep(l: Cell, tr: Cell, r: Cell, a: Entry, er: Option<Entry>)
    requires l.flags.computable && a.start < a.end
    requires tr.flags.computable ==> er == Some(r.e) && r.flags.hasStart && !tr.flags.padEntry && r.e.start < r.e.end
    requires !tr.flags.computable ==> r == tr && Ready(tr)
    ensures var b := if r.flags.hasStart then r.e else Bounded(a, r.e, false);
            InnerPair(l, tr, Some(a), er)
            == if (r.flags.hasStart || b.start < b.end) && PairOk(a, b) then Some((a, b)) else None
  {
  }

  /** From the right: the left neighbour is computed or supplied. */
  lemma LeftStep(tl: Cell, l: Cell, r: Cell, b: Entry, el: Option<Entry>)
    requires r.flags.computable && !r.flags.padEntry && b.start < b.end && !tl.flags.padEntry
    requires tl.flags.computable ==> el == Some(l.e) && l.flags.hasStart && l.e.start < l.e.end
    requires !tl.flags.computable ==> l == tl && Ready(tl)
    ensures var a := if l.flags.hasStart then l.e else Bounded(b, l.e, true);
            InnerPair(tl, r, el, Some(b))
            == if (l.flags.hasStart || a.start < a.end) && PairOk(a, b) then Some((a, b)) else None
  {
  }

  /** The bounds a neighbour has or gets. */
  function Neighbour(e: Entry, sib: Cell, eIsRight: bool): Entry {
    if sib.flags.hasStart then sib.e else Bounded(e, sib.e, eIsRight)
  }

  /** The pair the step hashes, if the checks let it. */
  function StepPair(e: Entry, sib: Cell, eIsRight: bool): Option<(Entry, Entry)> {
    var n := Neighbour(e, sib, eIsRight);
    var (a, b) := if eIsRight then (n, e) else (e, n);
    if (sib.flags.hasStart || n.start < n.end) && PairOk(a, b) then Some((a, b)) else None
  }

  /** Both children `e` and `sib` of the open entry `p` have their hashes, and `e` is on a path. */
  ghost predicate StepReady(H: Hasher, anns: seq<nat>, count: nat, h: nat, s: seq<Slot>, t: seq<Cell>, c: seq<Cell>,
                            p: nat, e: nat, sib: nat) {
    && ClimbOk(H, anns, count, h, s, t, c) && p < |s| && Inner(anns, s[p]) && !c[p].flags.hasHash
    && ((e == s[p].left && sib == s[p].right) || (e == s[p].right && sib == s[p].left))
    && e < |s| && sib < |s| && c[e].flags.hasHash && c[sib].flags.hasHash && t[e].flags.computable
  }

  /** One step computes exactly the children that the specification gives the parent. */
  lemma StepMeaning(H: Hasher, anns: seq<nat>, count: nat, h: nat, s: seq<Slot>, t: seq<Cell>, c: seq<Cell>, p: nat,
                    e: nat, sib: nat)
    requires StepReady(H, anns, count, h, s, t, c, p, e, sib)
    ensures Children(H, t, p) == StepPair(c[e].e, c[sib], e == s[p].right)
    ensures c[sib].flags.hasRange && c[e].flags.hasStart && c[e].flags.hasRange
  {
    var l, r := s[p].left, s[p].right;
    ChildShape(anns, count, h, s, t, p);
    assert NodeOk(H, t, c, s, p) && Ready(t[l]) && Ready(t[r]);
    if s[p].d == 1 {
      hide ClimbOk, TableOk, Inner, Eval;
      LeafStep(t[l], t[r], c[l], c[r]);
    } else {
      if t[l].flags.computable {
        ComputedChild(H, anns, count, h, s, t, c, l);
      }
      if t[r].flags.computable {
        ComputedChild(H, anns, count, h, s, t, c, r);
      }
      hide ClimbOk, TableOk, Inner, Eval, Ready, NodeOk;
      if e == l {
        RightStep(t[l], t[r], c[r], c[l].e, Eval(H, t, r));
      } else {
        LeftStep(t[l], c[l], t[r], c[r].e, Eval(H, t, l));
      }
    }
  }

  /** A computable inner entry that has its hash has its value. */
  lemma ComputedChild(H: Hasher, anns: seq<nat>, count: nat, h: nat, s: seq<Slot>, t: seq<Cell>, c: seq<Cell>, x: nat)
    requires ClimbOk(H, anns, count, h, s, t, c) && x < |s| && s[x].d > 0 && t[x].flags.computable
    requires c[x].flags.hasHash
    ensures c[x].flags.hasRange && c[x].flags.hasStart && Eval(H, t, x) == Some(c[x].e) && c[x].e.start < c[x].e.end
  {
    assert ShapedAt(anns, count, s[x], t[x]);
    assert Inner(anns, s[x]);
    assert NodeOk(H, t, c, s, x);
    EvalNonEmpty(H, t, x);
  }

  /** What a step leaves in the neighbour. */
  function SetNeighbour(e: Entry, sib: Cell, eIsRight: bool): Cell {
    if sib.flags.hasStart then sib else sib.(e := Bounded(e, sib.e, eIsRight), flags := sib.flags.(hasStart := true))
  }

  /** The cell once its whole entry is known. */
  function WithEntry(c: Cell, e: Entry): Cell {
    c.(e := e, flags := c.flags.(hasHash := true, hasRange := true, hasStart := true))
  }

  /** The state after a successful step at `p`. */
  ghost predicate Stepped(H: Hasher, anns: seq<nat>, count: nat, h: nat, s: seq<Slot>, t: seq<Cell>, c: seq<Cell>,
                          c': seq<Cell>, p: nat) {
    && ClimbOk(H, anns, count, h, s, t, c')
    && |c'| == |c| && p < |c| && c'[p].flags.hasHash
    && forall x :: 0 <= x < |c| && x != p ==> c'[x].flags.hasHash == c[x].flags.hasHash
  }

  lemma StepKeeps(H: Hasher, anns: seq<nat>, count: nat, h: nat, s: seq<Slot>, t: seq<Cell>, c: seq<Cell>,
                  c': seq<Cell>,
                  p: nat, e: nat, sib: nat)
    requires StepReady(H, anns, count, h, s, t, c, p, e, sib)
    requires |c'| == |c| && Eval(H, t, p).Some? && c'[p] == WithEntry(c[p], Eval(H, t, p).value)
    requires c'[sib] == SetNeighbour(c[e].e, c[sib], e == s[p].right)
    requires forall x :: 0 <= x < |s| && x != p && x != sib ==> c'[x] == c[x]
    ensures Stepped(H, anns, count, h, s, t, c, c', p)
  {
    hide Has, IsPad, Eval, ShapedAt;
    SibIsData(H, anns, count, h, s, t, c, p, sib);
    assert ChildrenLinked(anns, count, s, p);
    forall x | 0 <= x < |s|
      ensures ShapedAt(anns, count, s[x], c'[x])
    {
      assert ShapedAt(anns, count, s[x], c[x]);
      ShapeKept(anns, count, s[x], c[x], c'[x]);
    }
    forall q | 0 <= q < |s| && Inner(anns, s[q])
      ensures s[q].left < |s| && s[q].right < |s| && NodeOk(H, t, c', s, q)
    {
      assert ChildrenLinked(anns, count, s, q) && NodeOk(H, t, c, s, q);
      InnerIsComputable(anns, count, h, s, t, p);
    }
  }

  lemma ShapeKept(anns: seq<nat>, count: nat, slot: Slot, c: Cell, c': Cell)
    requires ShapedAt(anns, count, slot, c)
    requires c' == c || (exists e :: c' == WithEntry(c, e)) || (exists e, right :: c' == SetNeighbour(e, c, right))
    ensures ShapedAt(anns, count, slot, c')
  {
    hide CellOf;
  }

  lemma InnerIsComputable(anns: seq<nat>, count: nat, h: nat, s: seq<Slot>, t: seq<Cell>, x: nat)
    requires TableOk(anns, count, h, s, t) && x < |s|
    ensures Inner(anns, s[x]) <==> t[x].flags.computable && s[x].d > 0
    ensures t[x].flags.leaf <==> s[x].d == 0
  {
    assert ShapedAt(anns, count, s[x], t[x]);
  }

  /** A neighbour that still lacks bounds is a supplied inner node. */
  lemma SibIsData(H: Hasher, anns: seq<nat>, count: nat, h: nat, s: seq<Slot>, t: seq<Cell>, c: seq<Cell>, p: nat,
                  sib: nat)
    requires ClimbOk(H, anns, count, h, s, t, c) && p < |s| && Inner(anns, s[p]) && !c[p].flags.hasHash
    requires sib < |s| && (sib == s[p].left || sib == s[p].right) && c[sib].flags.hasHash
    ensures !c[sib].flags.hasStart ==> s[p].d > 1 && s[sib].d > 0 && !t[sib].flags.computable && !Inner(anns, s[sib])
  {
    InnerIsComputable(anns, count, h, s, t, sib);
    ChildShape(anns, count, h, s, t, p);
    assert NodeOk(H, t, c, s, p);
    hide Has, IsPad, Eval, Linked;
    if Inner(anns, s[sib]) {
      assert NodeOk(H, t, c, s, sib);
    }
  }

  /** A neighbour that has only a range gets its start and end from `e`; false if that wraps around. */
  method BoundSibling(tbl: Tbl, e: nat, sib: nat, eIsRight: bool) returns (ok: bool)
    requires e < tbl.entries.Length && sib < tbl.entries.Length && e != sib
    modifies tbl.entries
    ensures tbl.entries[sib] == SetNeighbour(old(tbl.entries[e].e), old(tbl.entries[sib]), eIsRight)
    ensures ok == (old(tbl.entries[sib].flags.hasStart) || tbl.entries[sib].e.start < tbl.entries[sib].e.end)
    ensures forall x :: 0 <= x < tbl.entries.Length && x != sib ==> tbl.entries[x] == old(tbl.entries[x])
  {
    if !tbl.entries[sib].flags.hasStart {
      if eIsRight {
        var start := Sub64(tbl.entries[e].e.start, tbl.entries[sib].e.end);
        tbl.entries[sib] := tbl.entries[sib].(e := tbl.entries[sib].e.(start := start, end := tbl.entries[e].e.start));
      } else {
        var start := tbl.entries[e].e.end;
        var end := Add64(tbl.entries[sib].e.end, start);
        tbl.entries[sib] := tbl.entries[sib].(e := tbl.entries[sib].e.(start := start, end := end));
      }
      tbl.entries[sib] := tbl.entries[sib].(flags := tbl.entries[sib].flags.(hasStart := true));
      if tbl.entries[sib].e.end <= tbl.entries[sib].e.start { return false; }
    }
    return true;
  }

  /** What the step finds out, spelt out in the order of its checks. */
  lemma StepChecks(e: Entry, sib: Cell, eIsRight: bool)
    ensures var n := SetNeighbour(e, sib, eIsRight).e;
            var a, b := if eIsRight then n else e, if eIsRight then e else n;
            StepPair(e, sib, eIsRight) ==
            if (sib.flags.hasStart || n.start < n.end) && b.start == a.end && (b.end > b.start || b == PAD)
               && (a.end > a.start || a == PAD) then Some((a, b)) else None
  {
    hide Bounded;
  }

  /** The body of the climbing loop, once both children have their hashes. */
  method ClimbStep(H: Hasher, tbl: Tbl, parent: nat, e: nat, sib: nat,
                   ghost anns: seq<nat>, ghost count: nat, ghost s: seq<Slot>, ghost t: seq<Cell>) returns (ret: int)
    requires tbl.count <= tbl.entries.Length
    requires StepReady(H, anns, count, tbl.branchHeight, s, t, Cells(tbl), parent, e, sib)
    modifies tbl.entries
    ensures ret in {0, -1, -2}
    ensures ret == 0 ==> Stepped(H, anns, count, tbl.branchHeight, s, t, old(Cells(tbl)), Cells(tbl), parent)
    ensures ret != 0 ==> Eval(H, t, parent).None?
  {
    hide *;
    CellsAre(tbl);
    ghost var c := Cells(tbl);
    StepMeaning(H, anns, count, tbl.branchHeight, s, t, c, parent, e, sib);
    StepIndexes(H, anns, count, tbl.branchHeight, s, t, c, parent, e, sib);
    EvalOfChildren(H, t, parent);
    var eIsRight := tbl.entries[e].flags.right;
    assert tbl.entries[sib].flags.hasRange;
    StepChecks(tbl.entries[e].e, tbl.entries[sib], eIsRight);
    var ok := BoundSibling(tbl, e, sib, eIsRight);
    if !ok { return -1; }
    var buf0 := if eIsRight then tbl.entries[sib].e else tbl.entries[e].e;
    var buf1 := if eIsRight then tbl.entries[e].e else tbl.entries[sib].e;
    if buf1.start != buf0.end { return -1; }
    if buf1.end <= buf1.start && buf1 != PAD { return -2; }
    if buf0.end <= buf0.start && buf0 != PAD { return -2; }
    var both := Entry(H([buf0, buf1]), buf0.start, buf1.end);
    SetEntry(tbl, parent, both);
    CellsAre(tbl);
    StepKeeps(H, anns, count, tbl.branchHeight, s, t, c, Cells(tbl), parent, e, sib);
    return 0;
  }

  /** A computed entry. */
  method SetEntry(tbl: Tbl, x: nat, e: Entry)
    requires x < tbl.entries.Length
    modifies tbl.entries
    ensures tbl.entries[x] == WithEntry(old(tbl.entries[x]), e)
    ensures forall y :: 0 <= y < tbl.entries.Length && y != x ==> tbl.entries[y] == old(tbl.entries[y])
  {
    tbl.entries[x] := tbl.entries[x].(
      e := e, flags := tbl.entries[x].flags.(hasHash := true, hasRange := true, hasStart := true));
  }

  lemma StepIndexes(H: Hasher, anns: seq<nat>, count: nat, h: nat, s: seq<Slot>, t: seq<Cell>, c: seq<Cell>, p: nat,
                    e: nat, sib: nat)
    requires StepReady(H, anns, count, h, s, t, c, p, e, sib)
    ensures |s| == |c| && p < e < |s| && p < sib < |s| && e != sib
    ensures c[e].flags.right == (e == s[p].right)
  {
    hide Has, IsPad, NodeOk, Ready;
    assert ChildrenLinked(anns, count, s, p) && ShapedAt(anns, count, s[e], c[e]);
  }

  // ---------- the leaf pass ----------

  /** A pair of leaves is as it was read, or set. */
  ghost predicate PairState(t: seq<Cell>, c: seq<Cell>, l: nat, r: nat)
    requires l < |t| == |c| && r < |t|
  {
    (c[l] == t[l] && c[r] == t[r]) || LeavesSet(t[l], t[r], c[l], c[r])
  }

  ghost predicate LeafOk(anns: seq<nat>, count: nat, h: nat, s: seq<Slot>, t: seq<Cell>, c: seq<Cell>) {
    && TableOk(anns, count, h, s, t) && Shaped(anns, count, s, c)
    && (forall x :: 0 <= x < |s| ==> Ready(t[x]))
    && (forall x :: 0 <= x < |s| && s[x].d > 0 ==> c[x] == t[x])
    && (forall p :: 0 <= p < |s| && Inner(anns, s[p]) && s[p].d == 1 ==>
          s[p].left < |s| && s[p].right < |s| && PairState(t, c, s[p].left, s[p].right))
  }

  lemma LeafOkParts(anns: seq<nat>, count: nat, h: nat, s: seq<Slot>, t: seq<Cell>, c: seq<Cell>)
    requires LeafOk(anns, count, h, s, t, c)
    ensures TableOk(anns, count, h, s, t) && |s| == |t| == |c|
  {
  }

  /** The bounds of one announcement and its neighbour; false if the announcement's range is empty. */
  method SetLeaves(tbl: Tbl, e: nat, sib: nat, ghost l: Cell, ghost r: Cell) returns (ok: bool)
    requires e < tbl.entries.Length && sib < tbl.entries.Length && e != sib
    requires l.flags.leaf && r.flags.leaf && r.flags.right && !l.flags.right && !l.flags.padEntry && Ready(l)
    requires Ready(r)
    requires (tbl.entries[e] == l && tbl.entries[sib] == r) || (tbl.entries[e] == r && tbl.entries[sib] == l)
    requires !tbl.entries[e].flags.padEntry
    modifies tbl.entries
    ensures ok ==> if old(tbl.entries[e].flags.right) then LeavesSet(l, r, tbl.entries[sib], tbl.entries[e])
                   else LeavesSet(l, r, tbl.entries[e], tbl.entries[sib])
    ensures ok ==> tbl.entries[e] == WithEntry(old(tbl.entries[e]), tbl.entries[e].e)
    ensures ok ==> tbl.entries[sib] == WithEntry(old(tbl.entries[sib]), tbl.entries[sib].e)
    ensures !ok && !old(tbl.entries[e].flags.right) ==> LeafPair(l, r).None?
    ensures old(tbl.entries[e].flags.right) ==> ok == (RightLeaf(r).start < RightLeaf(r).end)
    ensures forall x :: 0 <= x < tbl.entries.Length && x != e && x != sib ==> tbl.entries[x] == old(tbl.entries[x])
  {
    if tbl.entries[sib].flags.padEntry && tbl.entries[sib].flags.hasStart {
      tbl.entries[sib] := tbl.entries[sib].(e := tbl.entries[sib].e.(end := 0),
                                            flags := tbl.entries[sib].flags.(hasStart := false));
    }
    assert tbl.entries[sib].flags.hasHash && tbl.entries[sib].flags.leaf && !tbl.entries[sib].flags.hasStart;
    var ee, se := tbl.entries[e].e, tbl.entries[sib].e;
    ee := ee.(start := ee.hash.l0);
    se := se.(start := se.hash.l0);
    if tbl.entries[e].flags.right {
      ee := ee.(end := Add64(ee.end, ee.start));
      se := se.(end := ee.start);
    } else {
      ee := ee.(end := se.start);
      se := se.(end := Add64(se.end, se.start));
    }
    if ee.end <= ee.start { return false; }
    tbl.entries[e] := tbl.entries[e].(e := ee, flags := tbl.entries[e].flags.(hasStart := true, hasRange := true));
    tbl.entries[sib] := tbl.entries[sib].(e := se,
                                          flags := tbl.entries[sib].flags.(hasStart := true, hasRange := true));
    return true;
  }

  /** Setting the pair below `p` keeps the state of the pass. */
  lemma SetLeavesKeeps(anns: seq<nat>, count: nat, h: nat, s: seq<Slot>, t: seq<Cell>, c: seq<Cell>, c': seq<Cell>,
                       p: nat)
    requires LeafOk(anns, count, h, s, t, c) && p < |s| && Inner(anns, s[p]) && s[p].d == 1
    requires |c'| == |c| && s[p].left < |s| && s[p].right < |s|
    requires var l, r := s[p].left, s[p].right;
             && LeavesSet(t[l], t[r], c'[l], c'[r])
             && (exists e :: c'[l] == WithEntry(c[l], e)) && (exists e :: c'[r] == WithEntry(c[r], e))
    requires forall x :: 0 <= x < |s| && x != s[p].left && x != s[p].right ==> c'[x] == c[x]
    ensures LeafOk(anns, count, h, s, t, c')
  {
    hide Has, IsPad, Ready, ShapedAt, LeavesSet;
    assert ChildrenLinked(anns, count, s, p);
    forall x | 0 <= x < |s|
      ensures ShapedAt(anns, count, s[x], c'[x])
    {
      assert ShapedAt(anns, count, s[x], c[x]);
      ShapeKept(anns, count, s[x], c[x], c'[x]);
    }
    forall q | 0 <= q < |s| && Inner(anns, s[q]) && s[q].d == 1
      ensures s[q].left < |s| && s[q].right < |s| && PairState(t, c', s[q].left, s[q].right)
    {
      assert ChildrenLinked(anns, count, s, q) && PairState(t, c, s[q].left, s[q].right);
    }
  }

  /** The pair an announcement belongs to. */
  lemma LeafPairOf(anns: seq<nat>, count: nat, h: nat, s: seq<Slot>, t: seq<Cell>, c: seq<Cell>, e: nat)
    returns (p: nat)
    requires LeafOk(anns, count, h, s, t, c) && e < |s| && s[e].d == 0 && Has(anns, 0, s[e].k) && h > 0
    ensures 0 < e && p == s[e].parent && p < e && Inner(anns, s[p]) && s[p].d == 1
    ensures s[p].left < |s| && s[p].right < |s| && s[p].left != s[p].right && (e == s[p].left || e == s[p].right)
    ensures var l, r := s[p].left, s[p].right;
            && PairState(t, c, l, r) && Ready(t[l]) && Ready(t[r])
            && t[l].flags.leaf && t[r].flags.leaf && t[r].flags.right && !t[l].flags.right && !t[l].flags.padEntry
            && t[e].flags.computable && !t[e].flags.padEntry && !t[e].flags.hasStart && t[e].flags.hasHash
            && c[e].flags.right == (e == r)
  {
    hide Has, IsPad, LeavesSet;
    p := s[e].parent;
    assert ParentLinked(anns, s, e) && ChildrenLinked(anns, count, s, p);
    ChildShape(anns, count, h, s, t, p);
    assert ShapedAt(anns, count, s[e], t[e]) && ShapedAt(anns, count, s[e], c[e]);
    assert ShapedAt(anns, count, s[s[p].left], t[s[p].left]);
    assert PairState(t, c, s[p].left, s[p].right);
  }

  /** No entry loses its start. */
  ghost predicate StartsKept(c: seq<Cell>, c': seq<Cell>) {
    |c| <= |c'| && forall x :: 0 <= x < |c| && c[x].flags.hasStart ==> c'[x].flags.hasStart
  }

  /** Only the pair of announcement number `a` is touched. */
  ghost predicate OnlyPair(s: seq<Slot>, c: seq<Cell>, c': seq<Cell>, a: nat) {
    && |c| == |c'| == |s|
    && forall x :: 0 <= x < |s| && (s[x].d > 0 || s[x].k / 2 != a / 2) ==> c'[x] == c[x]
  }

  lemma OnlyPairTouched(anns: seq<nat>, count: nat, h: nat, s: seq<Slot>, t: seq<Cell>, c: seq<Cell>, c': seq<Cell>,
                        p: nat, e: nat)
    requires TableOk(anns, count, h, s, t) && |c| == |c'| == |s| && p < |s| && Inner(anns, s[p]) && s[p].d == 1
    requires e < |s| && (e == s[p].left || e == s[p].right)
    requires forall x :: 0 <= x < |s| && x != s[p].left && x != s[p].right ==> c'[x] == c[x]
    ensures OnlyPair(s, c, c', s[e].k)
  {
    hide Has, IsPad, Shaped;
    assert ChildrenLinked(anns, count, s, p);
  }

  /** What a round of the leaf pass needs to know about announcement `i` and its neighbour. */
  ghost predicate RoundAt(anns: seq<nat>, count: nat, h: nat, s: seq<Slot>, t: seq<Cell>, c: seq<Cell>, i: nat,
                          p: nat, e: nat, sib: nat) {
    && LeafOk(anns, count, h, s, t, c) && |s| == |t| == |c|
    && i < |anns| && e == Walk(t, h, anns[i], 0) && 0 < e < |s| && s[e].k == anns[i] && sib < |s| && e != sib
    && p == s[e].parent < |s| && Inner(anns, s[p]) && s[p].d == 1
    && ((e == s[p].left && sib == s[p].right) || (e == s[p].right && sib == s[p].left))
    && (e == s[p].right <==> IsRight(anns[i])) && c[e].flags.right == (e == s[p].right)
  }

  lemma RoundParts(anns: seq<nat>, count: nat, h: nat, s: seq<Slot>, t: seq<Cell>, c: seq<Cell>, i: nat,
                   p: nat, e: nat, sib: nat)
    requires RoundAt(anns, count, h, s, t, c, i, p, e, sib) && h > 0
    ensures e < |s| == |t| == |c| && sib < |s| && e != sib && p < |s|
    ensures var l, r := s[p].left, s[p].right;
            && l < |t| && r < |t| && ((e == l && sib == r) || (e == r && sib == l))
            && c[e].flags.right == (e == r) && s[e].k == anns[i]
            && t[l].flags.leaf && t[r].flags.leaf && t[r].flags.right && !t[l].flags.right && !t[l].flags.padEntry
            && Ready(t[l]) && Ready(t[r]) && !t[e].flags.padEntry && PairState(t, c, l, r)
            && (c[e].flags.hasStart <==> LeafDone(anns, h, s, t, c, i))
            && (!c[e].flags.hasStart ==> c[l] == t[l] && c[r] == t[r])
  {
    LeafSlot(anns, count, h, s, t, i);
    HasAbove(anns, i, 0);
    hide Has, IsPad, Linked, Shaped, Walk;
    var q := LeafPairOf(anns, count, h, s, t, c, e);
    hide LeafOk, Ready, LeftLeaf, RightLeaf;
  }

  /** Find the announcement and its neighbour. */
  method FindPair(tbl: Tbl, annIdxs: seq<nat>, i: nat, ghost count: nat, ghost s: seq<Slot>, ghost t: seq<Cell>)
    returns (e: nat, sib: nat, ghost p: nat)
    requires tbl.count <= tbl.entries.Length && tbl.count <= MAX16 && tbl.branchHeight > 0 && i < |annIdxs|
    requires LeafOk(annIdxs, count, tbl.branchHeight, s, t, Cells(tbl))
    ensures RoundAt(annIdxs, count, tbl.branchHeight, s, t, Cells(tbl), i, p, e, sib)
  {
    ghost var c, h := Cells(tbl), tbl.branchHeight;
    LeafOkParts(annIdxs, count, h, s, t, c);
    e := GetAnn(tbl, annIdxs[i], annIdxs, count, s, i);
    HasAbove(annIdxs, i, 0);
    WalkSame(annIdxs, count, h, s, t, c, annIdxs[i], 0);
    p := LeafPairOf(annIdxs, count, h, s, t, c, e);
    ChildParity(annIdxs, count, h, s, t, p);
    sib := GetSibling(tbl, e, annIdxs, count, s);
    hide LeafOk, TableOk, Has, Inner, Ready, Walk, LeavesSet;
  }

  lemma ChildParity(anns: seq<nat>, count: nat, h: nat, s: seq<Slot>, t: seq<Cell>, p: nat)
    requires TableOk(anns, count, h, s, t) && p < |s| && Inner(anns, s[p])
    ensures s[p].left < |s| && s[p].right < |s| && s[s[p].left].k % 2 == 0 && s[s[p].right].k % 2 == 1
  {
    hide Has, IsPad, Shaped;
    assert ChildrenLinked(anns, count, s, p);
  }

  /** One round of the leaf pass. */
  method LeafRound(tbl: Tbl, annIdxs: seq<nat>, i: nat, ghost count: nat, ghost s: seq<Slot>, ghost t: seq<Cell>)
    returns (ret: int)
    requires tbl.count <= tbl.entries.Length && tbl.count <= MAX16 && tbl.branchHeight > 0 && i < |annIdxs|
    requires LeafOk(annIdxs, count, tbl.branchHeight, s, t, Cells(tbl))
    modifies tbl.entries
    ensures ret in {0, -1}
    ensures ret == 0 ==> LeafOk(annIdxs, count, tbl.branchHeight, s, t, Cells(tbl))
    ensures ret == 0 ==> LeafDone(annIdxs, tbl.branchHeight, s, t, Cells(tbl), i)
    ensures ret == 0 ==> StartsKept(old(Cells(tbl)), Cells(tbl))
    ensures ret == 0 ==> OnlyPair(s, old(Cells(tbl)), Cells(tbl), annIdxs[i])
    ensures !LeafDone(annIdxs, tbl.branchHeight, s, t, old(Cells(tbl)), i) && ret == 0 && IsRight(annIdxs[i]) ==>
              RightNonEmpty(t, tbl.branchHeight, annIdxs[i])
    ensures ret != 0 ==> LeafFails(annIdxs, tbl.branchHeight, s, t, i)
    ensures ret != 0 ==> !LeafDone(annIdxs, tbl.branchHeight, s, t, old(Cells(tbl)), i)
  {
    hide LeafOk, TableOk, Inner, LeavesSet, RoundAt, LeafDone, LeafFails, RightNonEmpty, OnlyPair, StartsKept, IsRight;
    hide Ready, LeafPair, RightLeaf, PairState, WithEntry;
    ghost var c, h := Cells(tbl), tbl.branchHeight;
    LeafOkParts(annIdxs, count, h, s, t, c);
    ghost var p;
    var e, sib;
    e, sib, p := FindPair(tbl, annIdxs, i, count, s, t);
    RoundParts(annIdxs, count, h, s, t, c, i, p, e, sib);
    if tbl.entries[e].flags.hasStart {
      NothingChanged(s, c, annIdxs[i]);
      return 0;
    }
    ghost var l, r := s[p].left, s[p].right;
    var ok := SetLeaves(tbl, e, sib, t[l], t[r]);
    if !ok {
      RoundFails(annIdxs, count, h, s, t, c, i, p, e, sib);
      return -1;
    }
    RoundKeeps(annIdxs, count, h, s, t, c, Cells(tbl), i, p, e, sib);
    return 0;
  }

  lemma NothingChanged(s: seq<Slot>, c: seq<Cell>, a: nat)
    requires |c| == |s|
    ensures OnlyPair(s, c, c, a) && StartsKept(c, c)
  {
  }

  /** The two cells of a pair, set. */
  ghost predicate PairSet(t: seq<Cell>, c: seq<Cell>, c': seq<Cell>, l: nat, r: nat)
    requires |t| == |c| == |c'| && l < |c| && r < |c|
  {
    && LeavesSet(t[l], t[r], c'[l], c'[r])
    && c'[l] == WithEntry(c[l], c'[l].e) && c'[r] == WithEntry(c[r], c'[r].e)
  }

  lemma RoundFails(anns: seq<nat>, count: nat, h: nat, s: seq<Slot>, t: seq<Cell>, c: seq<Cell>, i: nat,
                   p: nat, e: nat, sib: nat)
    requires RoundAt(anns, count, h, s, t, c, i, p, e, sib) && h > 0 && !c[e].flags.hasStart
    requires s[p].left < |t| && s[p].right < |t|
    requires !c[e].flags.right ==> LeafPair(t[s[p].left], t[s[p].right]).None?
    requires c[e].flags.right ==> RightLeaf(t[s[p].right]).start >= RightLeaf(t[s[p].right]).end
    ensures LeafFails(anns, h, s, t, i)
  {
    hide LeafOk, Walk, LeafPair, RightLeaf, Inner, IsRight;
  }

  lemma RoundKeeps(anns: seq<nat>, count: nat, h: nat, s: seq<Slot>, t: seq<Cell>, c: seq<Cell>, c': seq<Cell>, i: nat,
                   p: nat, e: nat, sib: nat)
    requires RoundAt(anns, count, h, s, t, c, i, p, e, sib) && h > 0 && |c'| == |c|
    requires s[p].left < |t| && s[p].right < |t| && PairSet(t, c, c', s[p].left, s[p].right)
    requires forall x :: 0 <= x < |c| && x != e && x != sib ==> c'[x] == c[x]
    requires c[e].flags.right ==> RightLeaf(t[s[p].right]).start < RightLeaf(t[s[p].right]).end
    ensures LeafOk(anns, count, h, s, t, c') && LeafDone(anns, h, s, t, c', i)
    ensures StartsKept(c, c') && OnlyPair(s, c, c', anns[i])
    ensures IsRight(anns[i]) ==> RightNonEmpty(t, h, anns[i])
  {
    LeafOkParts(anns, count, h, s, t, c);
    hide LeafOk, TableOk, Walk, Inner, LeavesSet, RightLeaf, OnlyPair, IsRight;
    SetLeavesKeeps(anns, count, h, s, t, c, c', p);
    OnlyPairTouched(anns, count, h, s, t, c, c', p, e);
  }

  /** Announcement `i` has its bounds. */
  ghost predicate LeafDone(anns: seq<nat>, h: nat, s: seq<Slot>, t: seq<Cell>, c: seq<Cell>, i: nat)
    requires i < |anns|
  {
    var e := Walk(t, h, anns[i], 0);
    e < |s| && e < |c| && c[e].flags.hasStart
  }

  /** The pair of announcement `i` cannot be evaluated, or it is a right leaf with an empty range. */
  ghost predicate LeafFails(anns: seq<nat>, h: nat, s: seq<Slot>, t: seq<Cell>, i: nat)
    requires i < |anns|
  {
    var e := Walk(t, h, anns[i], 0);
    && 0 < e < |s| == |t| && s[e].parent < |s| && s[s[e].parent].left < |s| && s[s[e].parent].right < |s|
    && if IsRight(anns[i]) then !RightNonEmpty(t, h, anns[i])
       else LeafPair(t[s[s[e].parent].left], t[s[s[e].parent].right]).None?
  }

  ghost predicate SomeLeafFails(anns: seq<nat>, h: nat, s: seq<Slot>, t: seq<Cell>) {
    exists i :: 0 <= i < |anns| && LeafFails(anns, h, s, t, i) && (IsRight(anns[i]) ==> RightFirst(anns, i))
  }

  /** Only announcements whose pair has been visited have bounds. */
  ghost predicate StartedBy(anns: seq<nat>, h: nat, s: seq<Slot>, t: seq<Cell>, c: seq<Cell>, n: nat)
    requires n <= |anns|
  {
    forall m :: 0 <= m < |anns| && LeafDone(anns, h, s, t, c, m) ==>
                  exists j :: 0 <= j < n && anns[j] / 2 == anns[m] / 2
  }

  /** The right leaves the first `n` rounds met before their left neighbours have a range. */
  ghost predicate RightsChecked(anns: seq<nat>, h: nat, t: seq<Cell>, n: nat)
    requires n <= |anns|
  {
    forall i :: 0 <= i < n && RightFirst(anns, i) ==> RightNonEmpty(t, h, anns[i])
  }

  lemma NothingStarted(anns: seq<nat>, count: nat, h: nat, s: seq<Slot>, t: seq<Cell>)
    requires LeafOk(anns, count, h, s, t, t) && h > 0
    ensures StartedBy(anns, h, s, t, t, 0)
  {
    forall m | 0 <= m < |anns| ensures !LeafDone(anns, h, s, t, t, m) {
      LeafSlot(anns, count, h, s, t, m);
      HasAbove(anns, m, 0);
      hide Has, IsPad, Linked, Shaped, Walk;
      var p := LeafPairOf(anns, count, h, s, t, t, Walk(t, h, anns[m], 0));
    }
  }

  lemma StartedStep(anns: seq<nat>, count: nat, h: nat, s: seq<Slot>, t: seq<Cell>, c: seq<Cell>, c': seq<Cell>, i: nat)
    requires TableOk(anns, count, h, s, t) && i < |anns|
    requires StartedBy(anns, h, s, t, c, i) && OnlyPair(s, c, c', anns[i])
    ensures StartedBy(anns, h, s, t, c', i + 1)
  {
    forall m | 0 <= m < |anns| && LeafDone(anns, h, s, t, c', m)
      ensures exists j :: 0 <= j < i + 1 && anns[j] / 2 == anns[m] / 2
    {
      LeafSlot(anns, count, h, s, t, m);
      hide TableOk, Walk;
      if anns[m] / 2 != anns[i] / 2 {
        assert LeafDone(anns, h, s, t, c, m);
      }
    }
  }

  lemma VisitedBefore(anns: seq<nat>, h: nat, s: seq<Slot>, t: seq<Cell>, c: seq<Cell>, i: nat) returns (j: nat)
    requires i < |anns| && StartedBy(anns, h, s, t, c, i) && LeafDone(anns, h, s, t, c, i) && RightFirst(anns, i)
    ensures j < i && anns[j] == anns[i] && RightFirst(anns, j)
  {
    hide LeafDone;
    j :| 0 <= j < i && anns[j] / 2 == anns[i] / 2;
  }

  /** A right leaf that already has its bounds was checked before, or its left neighbour came first. */
  lemma RightsStep(anns: seq<nat>, h: nat, s: seq<Slot>, t: seq<Cell>, c: seq<Cell>, i: nat)
    requires i < |anns| && StartedBy(anns, h, s, t, c, i) && RightsChecked(anns, h, t, i)
    requires !LeafDone(anns, h, s, t, c, i) && IsRight(anns[i]) ==> RightNonEmpty(t, h, anns[i])
    ensures RightsChecked(anns, h, t, i + 1)
  {
    hide LeafDone, RightNonEmpty, StartedBy, RightFirst, IsRight;
    if RightFirst(anns, i) {
      FirstIsRight(anns, i);
      if LeafDone(anns, h, s, t, c, i) {
        var j := VisitedBefore(anns, h, s, t, c, i);
      }
    }
  }

  ghost predicate AllDone(anns: seq<nat>, h: nat, s: seq<Slot>, t: seq<Cell>, c: seq<Cell>, n: nat)
    requires n <= |anns|
  {
    forall j :: 0 <= j < n ==> LeafDone(anns, h, s, t, c, j)
  }

  /** The state of the leaf pass after `n` rounds. */
  ghost predicate PassAt(anns: seq<nat>, count: nat, h: nat, s: seq<Slot>, t: seq<Cell>, c: seq<Cell>, n: nat)
    requires n <= |anns|
  {
    && LeafOk(anns, count, h, s, t, c)
    && AllDone(anns, h, s, t, c, n)
    && StartedBy(anns, h, s, t, c, n) && RightsChecked(anns, h, t, n)
  }

  /** If the round fails, the check does. */
  lemma FailedRound(anns: seq<nat>, count: nat, h: nat, s: seq<Slot>, t: seq<Cell>, c: seq<Cell>, i: nat)
    requires i < |anns| && PassAt(anns, count, h, s, t, c, i) && h > 0 && !LeafDone(anns, h, s, t, c, i)
    requires LeafFails(anns, h, s, t, i)
    ensures SomeLeafFails(anns, h, s, t)
  {
    hide LeafFails;
    if j :| 0 <= j < i && anns[j] + 1 == anns[i] && IsRight(anns[i]) {
      PairStartsTogether(anns, count, h, s, t, c, j, i);
    }
  }

  lemma PairStartsTogether(anns: seq<nat>, count: nat, h: nat, s: seq<Slot>, t: seq<Cell>, c: seq<Cell>, j: nat, i: nat)
    requires LeafOk(anns, count, h, s, t, c) && h > 0 && i < |anns| && j < |anns|
    requires anns[j] + 1 == anns[i] && IsRight(anns[i]) && LeafDone(anns, h, s, t, c, j)
    ensures LeafDone(anns, h, s, t, c, i)
  {
    LeafOkParts(anns, count, h, s, t, c);
    LeafSlot(anns, count, h, s, t, j);
    LeafSlot(anns, count, h, s, t, i);
    WalkStep(anns, count, h, s, t, j, 0);
    WalkStep(anns, count, h, s, t, i, 0);
    SameParent(anns, count, h, s, t, j, i);
    HasAbove(anns, j, 0);
    var e, o := Walk(t, h, anns[j], 0), Walk(t, h, anns[i], 0);
    var q := LeafPairOf(anns, count, h, s, t, c, e);
    ChildParity(anns, count, h, s, t, q);
    ChildParity(anns, count, h, s, t, Walk(t, h, anns[j], 1));
    assert ChildrenLinked(anns, count, s, Walk(t, h, anns[j], 1));
    hide LeafOk, TableOk, Has, Walk, IsPad, Ready, LeftLeaf, RightLeaf;
  }

  lemma SameParent(anns: seq<nat>, count: nat, h: nat, s: seq<Slot>, t: seq<Cell>, j: nat, i: nat)
    requires TableOk(anns, count, h, s, t) && h > 0 && i < |anns| && j < |anns| && anns[j] / 2 == anns[i] / 2
    ensures Walk(t, h, anns[j], 1) == Walk(t, h, anns[i], 1)
  {
    WalkArrives(anns, count, h, s, t, i, 1);
    var x := Walk(t, h, anns[i], 1);
    assert Shr(anns[j], 1) == Shr(anns[i], 1);
    WalkReaches(anns, count, h, s, t, j, x);
  }

  /** One round keeps it. */
  method PassRound(tbl: Tbl, annIdxs: seq<nat>, i: nat, ghost count: nat, ghost s: seq<Slot>, ghost t: seq<Cell>)
    returns (ret: int)
    requires tbl.count <= tbl.entries.Length && tbl.count <= MAX16 && tbl.branchHeight > 0 && i < |annIdxs|
    requires PassAt(annIdxs, count, tbl.branchHeight, s, t, Cells(tbl), i)
    modifies tbl.entries
    ensures ret in {0, -1}
    ensures ret == 0 ==> PassAt(annIdxs, count, tbl.branchHeight, s, t, Cells(tbl), i + 1)
    ensures ret != 0 ==> SomeLeafFails(annIdxs, tbl.branchHeight, s, t)
  {
    hide *;
    ghost var c, h := Cells(tbl), tbl.branchHeight;
    PassParts(annIdxs, count, h, s, t, c, i);
    ret := LeafRound(tbl, annIdxs, i, count, s, t);
    if ret != 0 {
      FailedRound(annIdxs, count, h, s, t, c, i);
    } else {
      PassStep(annIdxs, count, h, s, t, c, Cells(tbl), i);
    }
  }

  lemma PassParts(anns: seq<nat>, count: nat, h: nat, s: seq<Slot>, t: seq<Cell>, c: seq<Cell>, n: nat)
    requires n <= |anns| && PassAt(anns, count, h, s, t, c, n)
    ensures LeafOk(anns, count, h, s, t, c) && AllDone(anns, h, s, t, c, n)
    ensures StartedBy(anns, h, s, t, c, n) && RightsChecked(anns, h, t, n)
  {
    hide LeafOk, StartedBy, RightsChecked, AllDone;
  }

  lemma PassStep(anns: seq<nat>, count: nat, h: nat, s: seq<Slot>, t: seq<Cell>, c: seq<Cell>, c': seq<Cell>, i: nat)
    requires i < |anns| && PassAt(anns, count, h, s, t, c, i) && LeafOk(anns, count, h, s, t, c')
    requires LeafDone(anns, h, s, t, c', i) && StartsKept(c, c') && OnlyPair(s, c, c', anns[i])
    requires !LeafDone(anns, h, s, t, c, i) && IsRight(anns[i]) ==> RightNonEmpty(t, h, anns[i])
    ensures PassAt(anns, count, h, s, t, c', i + 1)
  {
    hide *;
    PassParts(anns, count, h, s, t, c, i);
    LeafOkParts(anns, count, h, s, t, c);
    DoneKept(anns, h, s, t, c, c', i);
    StartedStep(anns, count, h, s, t, c, c', i);
    RightsStep(anns, h, s, t, c, i);
    PassJoins(anns, count, h, s, t, c', i + 1);
  }

  lemma PassJoins(anns: seq<nat>, count: nat, h: nat, s: seq<Slot>, t: seq<Cell>, c: seq<Cell>, n: nat)
    requires n <= |anns| && LeafOk(anns, count, h, s, t, c) && AllDone(anns, h, s, t, c, n)
    requires StartedBy(anns, h, s, t, c, n) && RightsChecked(anns, h, t, n)
    ensures PassAt(anns, count, h, s, t, c, n)
  {
    hide LeafOk, StartedBy, RightsChecked, AllDone;
  }

  /** Inner entries are as they were read. */
  ghost predicate InnersKept(s: seq<Slot>, t: seq<Cell>, c: seq<Cell>) {
    |s| == |t| == |c| && forall x :: 0 <= x < |s| && s[x].d > 0 ==> c[x] == t[x]
  }

  ghost predicate InnersOpen(anns: seq<nat>, s: seq<Slot>, t: seq<Cell>) {
    |s| == |t| && forall p :: 0 <= p < |s| && Inner(anns, s[p]) ==> !t[p].flags.hasHash
  }

  /** The leaf pass: -1 if an announcement's range is empty. */
  method LeafPass(tbl: Tbl, annIdxs: seq<nat>, ghost count: nat, ghost s: seq<Slot>, ghost t: seq<Cell>, H: Hasher)
    returns (ret: int)
    requires |annIdxs| == 4 && tbl.count <= tbl.entries.Length && tbl.count <= MAX16 && tbl.branchHeight > 0
    requires Cells(tbl) == t && LeafOk(annIdxs, count, tbl.branchHeight, s, t, t)
    requires InnersOpen(annIdxs, s, t)
    modifies tbl.entries
    ensures ret in {0, -1}
    ensures ret == 0 ==> ClimbOk(H, annIdxs, count, tbl.branchHeight, s, t, Cells(tbl))
    ensures ret == 0 ==> InnersKept(s, t, Cells(tbl))
    ensures ret == 0 ==> RightsNonEmpty(t, tbl.branchHeight, annIdxs)
    ensures ret != 0 ==> SomeLeafFails(annIdxs, tbl.branchHeight, s, t)
  {
    ghost var h := tbl.branchHeight;
    PassStarts(annIdxs, count, h, s, t);
    hide ClimbOk, LeafOk, InnersOpen, InnersKept, RightsNonEmpty, SomeLeafFails, PassAt;
    for i := 0 to 4
      invariant PassAt(annIdxs, count, h, s, t, Cells(tbl), i)
    {
      ret := PassRound(tbl, annIdxs, i, count, s, t);
      if ret != 0 { return; }
    }
    PassEnds(H, annIdxs, count, h, s, t, Cells(tbl));
    return 0;
  }

  lemma PassStarts(anns: seq<nat>, count: nat, h: nat, s: seq<Slot>, t: seq<Cell>)
    requires LeafOk(anns, count, h, s, t, t) && h > 0
    ensures PassAt(anns, count, h, s, t, t, 0)
  {
    NothingStarted(anns, count, h, s, t);
  }

  lemma PassEnds(H: Hasher, anns: seq<nat>, count: nat, h: nat, s: seq<Slot>, t: seq<Cell>, c: seq<Cell>)
    requires PassAt(anns, count, h, s, t, c, |anns|) && InnersOpen(anns, s, t) && h > 0
    ensures ClimbOk(H, anns, count, h, s, t, c) && InnersKept(s, t, c) && RightsNonEmpty(t, h, anns)
  {
    LeafOkParts(anns, count, h, s, t, c);
    hide LeafOk, LeafDone, ClimbOk, RightFirst, RightNonEmpty;
    LeafPassDone(H, anns, count, h, s, t, c);
  }

  lemma DoneKept(anns: seq<nat>, h: nat, s: seq<Slot>, t: seq<Cell>, c: seq<Cell>, c': seq<Cell>, i: nat)
    requires i < |anns| && StartsKept(c, c') && AllDone(anns, h, s, t, c, i) && LeafDone(anns, h, s, t, c', i)
    ensures AllDone(anns, h, s, t, c', i + 1)
  {
    hide Walk;
    forall j | 0 <= j < i
      ensures LeafDone(anns, h, s, t, c', j)
    {
      assert LeafDone(anns, h, s, t, c, j);
    }
  }

  /** Once every announcement has its bounds, so has every pair of leaves in the table. */
  lemma LeafPassDone(H: Hasher, anns: seq<nat>, count: nat, h: nat, s: seq<Slot>, t: seq<Cell>, c: seq<Cell>)
    requires LeafOk(anns, count, h, s, t, c) && h > 0
    requires forall p :: 0 <= p < |s| && Inner(anns, s[p]) ==> !t[p].flags.hasHash
    requires forall j :: 0 <= j < |anns| ==> LeafDone(anns, h, s, t, c, j)
    ensures ClimbOk(H, anns, count, h, s, t, c)
    ensures forall x :: 0 <= x < |s| && s[x].d > 0 ==> c[x] == t[x]
  {
    hide Eval, IsPad;
    forall p | 0 <= p < |s| && Inner(anns, s[p])
      ensures s[p].left < |s| && s[p].right < |s| && NodeOk(H, t, c, s, p)
    {
      assert ChildrenLinked(anns, count, s, p);
      ChildShape(anns, count, h, s, t, p);
      assert Ready(t[p]) && c[p] == t[p];
      if s[p].d == 1 {
        PairIsSet(anns, count, h, s, t, c, p);
      }
    }
  }

  lemma PairIsSet(anns: seq<nat>, count: nat, h: nat, s: seq<Slot>, t: seq<Cell>, c: seq<Cell>, p: nat)
    requires LeafOk(anns, count, h, s, t, c) && h > 0
    requires forall j :: 0 <= j < |anns| ==> LeafDone(anns, h, s, t, c, j)
    requires p < |s| && Inner(anns, s[p]) && s[p].d == 1 && s[p].left < |s| && s[p].right < |s|
    ensures LeavesSet(t[s[p].left], t[s[p].right], c[s[p].left], c[s[p].right])
  {
    var j :| 0 <= j < |anns| && Shr(anns[j], 1) == s[p].k;
    assert LeafDone(anns, h, s, t, c, j);
    WalkReaches(anns, count, h, s, t, j, p);
    LeafSlot(anns, count, h, s, t, j);
    HasAbove(anns, j, 0);
    hide Has, IsPad, LeavesSet;
    var e := Walk(t, h, anns[j], 0);
    assert ChildrenLinked(anns, count, s, p) && ShapedAt(anns, count, s[p], t[p]);
    var q := LeafPairOf(anns, count, h, s, t, c, e);
    assert q == p && PairState(t, c, s[p].left, s[p].right);
  }
}
