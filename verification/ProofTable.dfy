/**
 * The shape of the entry table that both sides of the compressed four-leaf proof rebuild from the
 * announcement numbers alone: the tree nodes on or beside a path from an announcement to the root,
 * in pre-order.
 */
module ProofTable {
  import opened Words
  import opened RangeTree

  /** The PcCompress_F_* bits of an entry. */
  datatype Flags = Flags(computable: bool, padEntry: bool, leaf: bool, right: bool, padSibling: bool,
                         firstEntry: bool, hasHash: bool, hasRange: bool, hasStart: bool)

  const NO_FLAGS: Flags := Flags(false, false, false, false, false, false, false, false, false)

  /** PcCompress_Entry_t. */
  datatype Cell = Cell(childLeft: nat, childRight: nat, parent: nat, flags: Flags, e: Entry)

  const ZERO_ENTRY: Entry := Entry(ZERO_HASH, 0, 0)
  const ZERO_CELL: Cell := Cell(0, 0, 0, NO_FLAGS, ZERO_ENTRY)

  /** Where a table entry sits in the tree (row `d`, node `k`) and how it is linked. */
  datatype Slot = Slot(d: nat, k: nat, parent: nat, left: nat, right: nat, padSibling: bool)

  /** Whether node `k` of row `d` is, or is above, one of the announcements. */
  predicate Has(anns: seq<nat>, d: nat, k: nat) {
    exists i :: 0 <= i < |anns| && Shr(anns[i], d) == k
  }

  predicate Inner(anns: seq<nat>, s: Slot) {
    s.d > 0 && Has(anns, s.d, s.k)
  }

  /** The table entry, as it is before any hash has been filled in. */
  function CellOf(anns: seq<nat>, count: nat, s: Slot): Cell {
    var has := Has(anns, s.d, s.k);
    var pad := !has && IsPad(count, s.d, s.k);
    var inner := has && s.d > 0;
    Cell(if inner then s.left else MAX16, if inner then s.right else MAX16, s.parent,
         Flags(has, pad, s.d == 0, s.k % 2 == 1, s.padSibling, s.k == 0, pad, pad, pad),
         if pad then PAD else ZERO_ENTRY)
  }

  /** The sub-table for node `k` of row `d`, placed at index `base`. */
  function Layout(anns: seq<nat>, count: nat, d: nat, k: nat, base: nat, parent: nat, padSibling: bool): (s: seq<Slot>)
    ensures |s| >= 1
    decreases d
  {
    if d == 0 || !Has(anns, d, k) then [Slot(d, k, parent, MAX16, MAX16, padSibling)]
    else
      var padRight := !Has(anns, d - 1, 2 * k + 1) && IsPad(count, d - 1, 2 * k + 1);
      var l := Layout(anns, count, d - 1, 2 * k, base + 1, base, padRight);
      var r := Layout(anns, count, d - 1, 2 * k + 1, base + 1 + |l|, base, false);
      [Slot(d, k, parent, base + 1, base + 1 + |l|, padSibling)] + l + r
  }

  function Slots(anns: seq<nat>, count: nat): (s: seq<Slot>)
    requires count >= 1
    ensures |s| >= 1
  {
    Layout(anns, count, Log2Ceil(count), 0, 0, MAX16, false)
  }

  /** The table PcCompress_mkEntryTable returns. */
  function Table(anns: seq<nat>, count: nat): (t: seq<Cell>)
    requires count >= 1
    ensures |t| == |Slots(anns, count)|
  {
    var s := Slots(anns, count);
    seq(|s|, x requires 0 <= x < |s| => CellOf(anns, count, s[x]))
  }

  // ---------- where announcements are ----------

  /** A node with an announcement below it is not padding. */
  lemma HasIsNotPad(anns: seq<nat>, count: nat, d: nat, k: nat)
    requires forall i :: 0 <= i < |anns| ==> anns[i] < count
    requires Has(anns, d, k)
    ensures !IsPad(count, d, k)
  {
    var i :| 0 <= i < |anns| && Shr(anns[i], d) == k;
    ShrBounds(anns[i], d);
  }

  /** Every announcement lies below the root. */
  lemma RootHas(anns: seq<nat>, count: nat, h: nat)
    requires |anns| > 0 && count <= Pow2(h)
    requires forall i :: 0 <= i < |anns| ==> anns[i] < count
    ensures Has(anns, h, 0)
  {
    ShrZero(anns[0], h);
  }

  // ---------- links ----------

  /** The children of an inner slot are where it says, and point back. */
  ghost predicate ChildrenLinked(anns: seq<nat>, count: nat, s: seq<Slot>, x: nat)
    requires x < |s|
  {
    Inner(anns, s[x]) ==>
      var l, r := s[x].left, s[x].right;
      && x < l < r < |s|
      && s[l].parent == x && s[r].parent == x
      && s[l].d == s[x].d - 1 && s[l].k == 2 * s[x].k
      && s[r].d == s[x].d - 1 && s[r].k == 2 * s[x].k + 1
      && s[l].padSibling == (!Has(anns, s[r].d, s[r].k) && IsPad(count, s[r].d, s[r].k))
      && !s[r].padSibling
  }

  /** A slot is one of the two children of its parent, which comes before it. */
  ghost predicate ParentLinked(anns: seq<nat>, s: seq<Slot>, x: nat)
    requires x < |s|
  {
    && s[x].parent < x
    && Inner(anns, s[s[x].parent])
    && (s[s[x].parent].left == x || s[s[x].parent].right == x)
  }

  ghost predicate Linked(anns: seq<nat>, count: nat, h: nat, s: seq<Slot>) {
    && |s| >= 1
    && s[0].d == h && s[0].k == 0 && s[0].parent == MAX16 && !s[0].padSibling
    && (forall x :: 0 <= x < |s| ==> ChildrenLinked(anns, count, s, x))
    && (forall x :: 0 < x < |s| ==> ParentLinked(anns, s, x))
  }

  /** `sub` stands in `s` at index `base`. */
  ghost predicate Sits(s: seq<Slot>, base: nat, sub: seq<Slot>) {
    && base + |sub| <= |s|
    && forall x :: base <= x < base + |sub| ==> s[x] == sub[x - base]
  }

  lemma SitsSplits(s: seq<Slot>, base: nat, x: Slot, l: seq<Slot>, r: seq<Slot>)
    requires Sits(s, base, [x] + l + r)
    ensures s[base] == x && Sits(s, base + 1, l) && Sits(s, base + 1 + |l|, r)
  {
  }

  /** The slots from `lo` to `hi` are linked among themselves below the one at `lo`. */
  ghost predicate BlockLinked(anns: seq<nat>, count: nat, s: seq<Slot>, lo: nat, hi: nat)
    requires hi <= |s|
  {
    && (forall x :: lo <= x < hi ==> ChildrenLinked(anns, count, s, x))
    && (forall x :: lo < x < hi ==> ParentLinked(anns, s, x))
  }

  lemma LayoutSplits(anns: seq<nat>, count: nat, d: nat, k: nat, base: nat, parent: nat, padSibling: bool, s: seq<Slot>)
    returns (padRight: bool, mid: nat, end: nat)
    requires d > 0 && Has(anns, d, k)
    requires Sits(s, base, Layout(anns, count, d, k, base, parent, padSibling))
    ensures padRight == (!Has(anns, d - 1, 2 * k + 1) && IsPad(count, d - 1, 2 * k + 1))
    ensures var l := Layout(anns, count, d - 1, 2 * k, base + 1, base, padRight);
            mid == base + 1 + |l| && Sits(s, base + 1, l)
    ensures var r := Layout(anns, count, d - 1, 2 * k + 1, mid, base, false);
            end == mid + |r| && Sits(s, mid, r)
    ensures end == base + |Layout(anns, count, d, k, base, parent, padSibling)| <= |s|
    ensures s[base] == Slot(d, k, parent, base + 1, mid, padSibling)
  {
    hide Has, IsPad, Sits;
    padRight := !Has(anns, d - 1, 2 * k + 1) && IsPad(count, d - 1, 2 * k + 1);
    var l := Layout(anns, count, d - 1, 2 * k, base + 1, base, padRight);
    mid := base + 1 + |l|;
    var r := Layout(anns, count, d - 1, 2 * k + 1, mid, base, false);
    end := mid + |r|;
    SitsSplits(s, base, Slot(d, k, parent, base + 1, mid, padSibling), l, r);
    SitsBound(s, base, Layout(anns, count, d, k, base, parent, padSibling));
  }

  lemma SitsBound(s: seq<Slot>, base: nat, sub: seq<Slot>)
    requires Sits(s, base, sub)
    ensures base + |sub| <= |s|
    ensures |sub| > 0 ==> s[base] == sub[0]
  {
  }

  lemma JoinBlocks(anns: seq<nat>, count: nat, s: seq<Slot>, lo: nat, mid: nat, hi: nat, padRight: bool)
    requires lo + 1 < mid < hi <= |s|
    requires BlockLinked(anns, count, s, lo + 1, mid) && BlockLinked(anns, count, s, mid, hi)
    requires s[lo].d > 0 && Has(anns, s[lo].d, s[lo].k) && s[lo].left == lo + 1 && s[lo].right == mid
    requires s[lo + 1].d == s[lo].d - 1 && s[lo + 1].k == 2 * s[lo].k
    requires s[lo + 1].parent == lo && s[lo + 1].padSibling == padRight
    requires s[mid].d == s[lo].d - 1 && s[mid].k == 2 * s[lo].k + 1 && s[mid].parent == lo && !s[mid].padSibling
    requires padRight == (!Has(anns, s[mid].d, s[mid].k) && IsPad(count, s[mid].d, s[mid].k))
    ensures BlockLinked(anns, count, s, lo, hi)
  {
    hide Has, IsPad;
    assert ChildrenLinked(anns, count, s, lo);
    assert ParentLinked(anns, s, lo + 1);
    assert ParentLinked(anns, s, mid);
  }

  lemma {:induction false} LayoutLinks(anns: seq<nat>, count: nat, d: nat, k: nat, base: nat, parent: nat,
                                       padSibling: bool, s: seq<Slot>)
    requires Sits(s, base, Layout(anns, count, d, k, base, parent, padSibling))
    ensures var end := base + |Layout(anns, count, d, k, base, parent, padSibling)|;
            end <= |s| && BlockLinked(anns, count, s, base, end)
    ensures s[base].d == d && s[base].k == k && s[base].parent == parent && s[base].padSibling == padSibling
    decreases d
  {
    hide *;
    if d == 0 || !Has(anns, d, k) {
      LeafLinks(anns, count, d, k, base, parent, padSibling, s);
    } else {
      var padRight, mid, end := LayoutSplits(anns, count, d, k, base, parent, padSibling, s);
      LayoutLinks(anns, count, d - 1, 2 * k, base + 1, base, padRight, s);
      LayoutLinks(anns, count, d - 1, 2 * k + 1, mid, base, false, s);
      JoinBlocks(anns, count, s, base, mid, end, padRight);
    }
  }

  lemma LeafLinks(anns: seq<nat>, count: nat, d: nat, k: nat, base: nat, parent: nat, padSibling: bool, s: seq<Slot>)
    requires d == 0 || !Has(anns, d, k)
    requires Sits(s, base, Layout(anns, count, d, k, base, parent, padSibling))
    ensures |Layout(anns, count, d, k, base, parent, padSibling)| == 1 && base < |s|
    ensures BlockLinked(anns, count, s, base, base + 1)
    ensures s[base].d == d && s[base].k == k && s[base].parent == parent && s[base].padSibling == padSibling
  {
    hide Has, IsPad;
  }

  /** The layout of the whole tree is a well-linked binary tree rooted at index 0. */
  lemma SlotsAreLinked(anns: seq<nat>, count: nat)
    requires count >= 1
    ensures Linked(anns, count, Log2Ceil(count), Slots(anns, count))
  {
    LayoutLinks(anns, count, Log2Ceil(count), 0, 0, MAX16, false, Slots(anns, count));
  }

  // ---------- size ----------

  function CountUnder(anns: seq<nat>, d: nat, k: nat): (n: nat)
    ensures n <= |anns|
    ensures n > 0 <==> Has(anns, d, k)
  {
    if |anns| == 0 then 0
    else
      assert Has(anns, d, k) <==> Shr(anns[0], d) == k || Has(anns[1..], d, k) by {
        if j :| 0 < j < |anns| && Shr(anns[j], d) == k {
          assert anns[1..][j - 1] == anns[j];
        }
      }
      (if Shr(anns[0], d) == k then 1 else 0) + CountUnder(anns[1..], d, k)
  }

  lemma {:induction false} CountSplits(anns: seq<nat>, d: nat, k: nat)
    requires d > 0
    ensures CountUnder(anns, d, k) == CountUnder(anns, d - 1, 2 * k) + CountUnder(anns, d - 1, 2 * k + 1)
  {
    if |anns| > 0 {
      CountSplits(anns[1..], d, k);
    }
  }

  /** The most nodes a sub-table of height `d` with `m` announcements below it can have. */
  function SizeBound(m: nat, d: nat): nat {
    1 + 2 * (m * d)
  }

  lemma SizeBoundSplits(m0: nat, m1: nat, d: nat)
    requires d > 0 && m0 + m1 > 0
    ensures 1 + SizeBound(m0, d - 1) + SizeBound(m1, d - 1) <= SizeBound(m0 + m1, d)
  {
    assert (m0 + m1) * d == m0 * (d - 1) + m1 * (d - 1) + m0 + m1;
  }

  lemma {:induction false} LayoutSize(anns: seq<nat>, count: nat, d: nat, k: nat, base: nat, parent: nat,
                                      padSibling: bool)
    ensures |Layout(anns, count, d, k, base, parent, padSibling)| <= SizeBound(CountUnder(anns, d, k), d)
    decreases d
  {
    hide Has, IsPad, Pow2, CountUnder;
    if d > 0 && Has(anns, d, k) {
      var padRight := !Has(anns, d - 1, 2 * k + 1) && IsPad(count, d - 1, 2 * k + 1);
      var l := Layout(anns, count, d - 1, 2 * k, base + 1, base, padRight);
      LayoutSize(anns, count, d - 1, 2 * k, base + 1, base, padRight);
      LayoutSize(anns, count, d - 1, 2 * k + 1, base + 1 + |l|, base, false);
      CountSplits(anns, d, k);
      SizeBoundSplits(CountUnder(anns, d - 1, 2 * k), CountUnder(anns, d - 1, 2 * k + 1), d);
    }
  }

  /** The table always fits the `branchHeight * 12` entries that are allocated for it. */
  lemma TableFits(anns: seq<nat>, count: nat)
    requires |anns| == 4 && count >= 2
    ensures |Table(anns, count)| <= Log2Ceil(count) * 12
  {
    var h := Log2Ceil(count);
    LayoutSize(anns, count, h, 0, 0, MAX16, false);
    MulMonotone(CountUnder(anns, h, 0), 4, h);
  }
}
