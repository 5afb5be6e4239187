/**
 * The two builders of the entry table: PcCompress_mkEntryTable's bit-reversed recursion and
 * PcCompress_mkEntryTable2's direct one, which the program compares only at run time.
 */
module EntryTable {
  import opened Words
  import opened RangeTree
  import opened ProofTable
  import opened BitReversal

  /** PcCompress_t. */
  class Tbl {
    const branchHeight: nat
    const entries: array<Cell>
    var count: nat

    constructor (branchHeight: nat, capacity: nat)
      ensures this.branchHeight == branchHeight && count == capacity
      ensures fresh(entries) && entries.Length == capacity
      ensures forall x :: 0 <= x < capacity ==> entries[x] == ZERO_CELL
    {
      this.branchHeight := branchHeight;
      count := capacity;
      entries := new Cell[capacity](_ => ZERO_CELL);
    }
  }

  /**
   * The cell each builder makes of a slot.  The bit-reversed one (`rev`) leaves the first-entry flag
   * off an announcement's own entry.
   */
  function CellBy(rev: bool, anns: seq<nat>, count: nat, s: Slot): Cell {
    var c := CellOf(anns, count, s);
    if rev && c.flags.computable && c.flags.leaf then c.(flags := c.flags.(firstEntry := false)) else c
  }

  /** The cells from `lo` on are the ones the slots `sub` call for. */
  ghost predicate Filled(rev: bool, anns: seq<nat>, count: nat, cells: seq<Cell>, lo: nat, sub: seq<Slot>) {
    && lo + |sub| <= |cells|
    && forall x :: lo <= x < lo + |sub| ==> cells[x] == CellBy(rev, anns, count, sub[x - lo])
  }

  lemma ShrOfMultiple(k: nat, d: nat)
    ensures Shr(k * Pow2(d), d) == k
  {
    ShrBounds(k * Pow2(d), d);
    assert (k + 1) * Pow2(d) == k * Pow2(d) + Pow2(d);
    BracketIsUnique(k * Pow2(d), Pow2(d), Shr(k * Pow2(d), d), k);
  }

  lemma ChildBits(k: nat, d: nat)
    requires d > 0
    ensures (2 * k) * Pow2(d - 1) == k * Pow2(d)
    ensures (2 * k + 1) * Pow2(d - 1) == k * Pow2(d) + Pow2(d - 1)
  {
    DoubleFactor(k, Pow2(d - 1));
  }

  /** A pad entry is always a right child. */
  lemma PadIsRight(anns: seq<nat>, count: nat, d: nat, k: nat)
    requires forall i :: 0 <= i < |anns| ==> anns[i] < count
    requires d > 0 && Has(anns, d, k)
    ensures !IsPad(count, d - 1, 2 * k)
  {
    HasIsNotPad(anns, count, d, k);
    PadChildren(count, d, k);
  }

  lemma PadSiblingIsHead(anns: seq<nat>, count: nat, d: nat, k: nat, base: nat, parent: nat)
    ensures var l := Layout(anns, count, d, k, base, parent, false);
            Layout(anns, count, d, k, base, parent, true) == l[0 := l[0].(padSibling := true)]
  {
  }

  lemma FilledFrame(rev: bool, anns: seq<nat>, count: nat, before: seq<Cell>, after: seq<Cell>, lo: nat, sub: seq<Slot>)
    requires Filled(rev, anns, count, before, lo, sub)
    requires lo + |sub| <= |after| && forall x :: lo <= x < lo + |sub| ==> after[x] == before[x]
    ensures Filled(rev, anns, count, after, lo, sub)
  {
    hide CellOf, CellBy;
  }

  function Mark(c: Cell): Cell {
    c.(flags := c.flags.(padSibling := true))
  }

  lemma FilledMark(rev: bool, anns: seq<nat>, count: nat, before: seq<Cell>, after: seq<Cell>, lo: nat, sub: seq<Slot>)
    requires |sub| > 0 && Filled(rev, anns, count, before, lo, sub)
    requires |after| == |before| && after[lo] == Mark(before[lo])
    requires forall x :: lo < x < lo + |sub| ==> after[x] == before[x]
    ensures Filled(rev, anns, count, after, lo, sub[0 := sub[0].(padSibling := true)])
  {
    hide Has, IsPad;
  }

  lemma LayoutUnfolds(anns: seq<nat>, count: nat, d: nat, k: nat, base: nat, parent: nat)
    returns (padRight: bool, l: seq<Slot>, r: seq<Slot>)
    requires d > 0 && Has(anns, d, k)
    ensures padRight == (!Has(anns, d - 1, 2 * k + 1) && IsPad(count, d - 1, 2 * k + 1))
    ensures l == Layout(anns, count, d - 1, 2 * k, base + 1, base, false)
    ensures r == Layout(anns, count, d - 1, 2 * k + 1, base + 1 + |l|, base, false)
    ensures |l| > 0 && |r| > 0 && r[0].d == d - 1 && r[0].k == 2 * k + 1
    ensures Layout(anns, count, d, k, base, parent, false)
         == [Slot(d, k, parent, base + 1, base + 1 + |l|, false)]
          + (if padRight then l[0 := l[0].(padSibling := true)] else l) + r
  {
    hide Has, IsPad;
    padRight := !Has(anns, d - 1, 2 * k + 1) && IsPad(count, d - 1, 2 * k + 1);
    l := Layout(anns, count, d - 1, 2 * k, base + 1, base, false);
    r := Layout(anns, count, d - 1, 2 * k + 1, base + 1 + |l|, base, false);
    PadSiblingIsHead(anns, count, d - 1, 2 * k, base + 1, base);
  }

  /** The last step of both builders: with the children in place, the left one is marked if the right is padding. */
  method MarkPadSibling(tbl: Tbl, childLeft: nat, childRight: nat, ghost rev: bool, ghost anns: seq<nat>,
                        ghost annCount: nat,
                        ghost l: seq<Slot>, ghost r: seq<Slot>)
    requires |l| > 0 && |r| > 0 && childRight == childLeft + |l| && childRight + |r| <= tbl.entries.Length
    requires Filled(rev, anns, annCount, tbl.entries[..], childLeft, l)
    requires Filled(rev, anns, annCount, tbl.entries[..], childRight, r)
    modifies tbl.entries
    ensures var padRight := !Has(anns, r[0].d, r[0].k) && IsPad(annCount, r[0].d, r[0].k);
            Filled(rev, anns, annCount, tbl.entries[..], childLeft,
                   (if padRight then l[0 := l[0].(padSibling := true)] else l) + r)
    ensures forall x :: 0 <= x < childLeft || childRight + |r| <= x < tbl.entries.Length ==>
              tbl.entries[x] == old(tbl.entries[x])
  {
    hide Has, IsPad;
    ghost var before := tbl.entries[..];
    if tbl.entries[childRight].flags.padEntry {
      tbl.entries[childLeft] := Mark(tbl.entries[childLeft]);
      FilledMark(rev, anns, annCount, before, tbl.entries[..], childLeft, l);
      FilledFrame(rev, anns, annCount, before, tbl.entries[..], childRight, r);
    }
  }

  lemma FilledCons(rev: bool, anns: seq<nat>, count: nat, cells: seq<Cell>, lo: nat, head: Slot, tail: seq<Slot>,
                   sub: seq<Slot>)
    requires sub == [head] + tail
    requires lo < |cells| && cells[lo] == CellBy(rev, anns, count, head)
    requires Filled(rev, anns, count, cells, lo + 1, tail)
    ensures Filled(rev, anns, count, cells, lo, sub)
  {
    hide CellOf, CellBy;
  }

  lemma HeadIsLinked(rev: bool, anns: seq<nat>, count: nat, s: Slot, left: nat, right: nat)
    requires Inner(anns, s)
    ensures CellBy(rev, anns, count, s.(left := left, right := right))
         == CellBy(rev, anns, count, s).(childLeft := left, childRight := right)
  {
  }

  /** mkEntries2; its error checks are the assertions, which never fail. */
  method MkEntries2(tbl: Tbl, anns: seq<nat>, bits: nat, iDepth: nat, parentNum: nat, nextFree: nat, annCount: nat,
                    ghost k: nat) returns (next: nat)
    requires bits == k * Pow2(iDepth)
    requires forall i :: 0 <= i < |anns| ==> anns[i] < annCount
    requires !Has(anns, iDepth, k) && IsPad(annCount, iDepth, k) ==> k % 2 == 1
    requires tbl.count == tbl.entries.Length
    requires nextFree + |Layout(anns, annCount, iDepth, k, nextFree, parentNum, false)| <= tbl.count
    requires forall x :: nextFree <= x < tbl.count ==> tbl.entries[x] == ZERO_CELL
    modifies tbl.entries
    ensures next == nextFree + |Layout(anns, annCount, iDepth, k, nextFree, parentNum, false)|
    ensures Filled(false, anns, annCount, tbl.entries[..], nextFree,
                   Layout(anns, annCount, iDepth, k, nextFree, parentNum, false))
    ensures forall x :: 0 <= x < nextFree || next <= x < tbl.count ==> tbl.entries[x] == old(tbl.entries[x])
    decreases iDepth
  {
    var eNum := nextFree;
    assert eNum < tbl.count;
    next := eNum + 1;
    tbl.entries[eNum] := tbl.entries[eNum].(parent := parentNum);

    ShrOfMultiple(k, iDepth);
    var flags := NO_FLAGS.(right := Shr(bits, iDepth) % 2 == 1, leaf := iDepth == 0,
                           firstEntry := Shr(bits, iDepth) == 0);

    for i := 0 to |anns|
      invariant forall j :: 0 <= j < i ==> Shr(anns[j], iDepth) != k
      invariant tbl.entries[eNum] == ZERO_CELL.(parent := parentNum)
      invariant forall x :: 0 <= x < tbl.count && x != eNum ==> tbl.entries[x] == old(tbl.entries[x])
    {
      if Shr(anns[i], iDepth) != Shr(bits, iDepth) { continue; }
      assert Has(anns, iDepth, k);
      tbl.entries[eNum] := tbl.entries[eNum].(flags := flags.(computable := true));
      if flags.leaf {
        assert bits == anns[i];
        tbl.entries[eNum] := tbl.entries[eNum].(childLeft := MAX16, childRight := MAX16);
        return;
      }
      next := MkChildren2(tbl, anns, bits, iDepth, eNum, annCount, k);
      return;
    }

    assert !Has(anns, iDepth, k);
    tbl.entries[eNum] := tbl.entries[eNum].(childLeft := MAX16, childRight := MAX16);
    if bits >= annCount {
      assert flags.right;
      tbl.entries[eNum] := tbl.entries[eNum].(
        flags := flags.(padEntry := true, hasHash := true, hasRange := true, hasStart := true), e := PAD);
      return;
    }
    tbl.entries[eNum] := tbl.entries[eNum].(flags := flags);
  }

  /** The two recursive calls of mkEntries2 and the marking of a padding node's sibling. */
  method MkChildren2(tbl: Tbl, anns: seq<nat>, bits: nat, iDepth: nat, eNum: nat, annCount: nat, ghost k: nat)
    returns (next: nat)
    requires iDepth > 0 && Has(anns, iDepth, k)
    requires bits == k * Pow2(iDepth)
    requires forall i :: 0 <= i < |anns| ==> anns[i] < annCount
    requires tbl.count == tbl.entries.Length && eNum < tbl.count
    requires eNum + |Layout(anns, annCount, iDepth, k, eNum, tbl.entries[eNum].parent, false)| <= tbl.count
    requires forall x :: eNum < x < tbl.count ==> tbl.entries[x] == ZERO_CELL
    requires tbl.entries[eNum] == CellBy(false, anns, annCount, Slot(iDepth, k, tbl.entries[eNum].parent, 0, 0, false))
    modifies tbl.entries
    ensures next == eNum + |Layout(anns, annCount, iDepth, k, eNum, old(tbl.entries[eNum].parent), false)|
    ensures Filled(false, anns, annCount, tbl.entries[..], eNum,
                   Layout(anns, annCount, iDepth, k, eNum, old(tbl.entries[eNum].parent), false))
    ensures forall x :: 0 <= x < eNum || next <= x < tbl.count ==> tbl.entries[x] == old(tbl.entries[x])
    decreases iDepth, 0
  {
    hide *;
    ghost var parent := tbl.entries[eNum].parent;
    ghost var padRight, l, r := LayoutUnfolds(anns, annCount, iDepth, k, eNum, parent);
    ChildBits(k, iDepth);
    PadIsRight(anns, annCount, iDepth, k);

    var childLeft := eNum + 1;
    tbl.entries[eNum] := tbl.entries[eNum].(childLeft := childLeft);
    next := MkEntries2(tbl, anns, bits, iDepth - 1, eNum, childLeft, annCount, 2 * k);
    ghost var afterLeft := tbl.entries[..];

    var childRight := next;
    tbl.entries[eNum] := tbl.entries[eNum].(childRight := childRight);
    next := MkEntries2(tbl, anns, bits + Pow2(iDepth - 1), iDepth - 1, eNum, childRight, annCount, 2 * k + 1);
    FilledFrame(false, anns, annCount, afterLeft, tbl.entries[..], childLeft, l);

    MarkPadSibling(tbl, childLeft, childRight, false, anns, annCount, l, r);
    HeadIsLinked(false, anns, annCount, Slot(iDepth, k, parent, 0, 0, false), childLeft, childRight);
    FilledCons(false, anns, annCount, tbl.entries[..], eNum, Slot(iDepth, k, parent, childLeft, childRight, false),
               (if padRight then l[0 := l[0].(padSibling := true)] else l) + r,
               Layout(anns, annCount, iDepth, k, eNum, parent, false));
  }

  /** A path agrees with `bits` on its low `depth` bits exactly when the announcement is below that node. */
  lemma PathMatches(a: nat, k: nat, depth: nat, h: nat)
    requires depth <= h && a < Pow2(h) && k < Pow2(depth)
    ensures Rev(a, h) % Pow2(depth) == Rev(k, depth) % Pow2(depth) <==> Shr(a, h - depth) == k
  {
    hide Rev;
    RevPrefix(a, depth, h);
    ModSmall(Rev(k, depth), Pow2(depth));
    ShrBound(a, depth, h);
    if Rev(Shr(a, h - depth), depth) == Rev(k, depth) {
      RevInjective(Shr(a, h - depth), k, depth);
    }
  }

  lemma ShrBound(a: nat, depth: nat, h: nat)
    requires depth <= h && a < Pow2(h)
    ensures Shr(a, h - depth) < Pow2(depth)
  {
    ShrBounds(a, h - depth);
    Pow2Adds(depth, h - depth);
    if Shr(a, h - depth) >= Pow2(depth) {
      MulMonotone(Pow2(depth), Shr(a, h - depth), Pow2(h - depth));
    }
  }

  lemma FirstPath(k: nat, depth: nat)
    requires k < Pow2(depth)
    ensures Rev(k, depth) % Pow2(depth) == 0 <==> k == 0
  {
    ModSmall(Rev(k, depth), Pow2(depth));
    RevZero(depth);
    if Rev(k, depth) == 0 {
      RevInjective(k, 0, depth);
    }
  }

  /** mkEntries: the same recursion on bit-reversed numbers. */
  method MkEntries(tbl: Tbl, annPaths: seq<nat>, bits: nat, depth: nat, nextFree: nat, parentNum: nat, annCount: nat,
                   right: bool, ghost anns: seq<nat>, ghost k: nat) returns (next: nat)
    requires depth <= tbl.branchHeight && k < Pow2(depth) && bits == Rev(k, depth) && right == (k % 2 == 1)
    requires |annPaths| == |anns|
    requires forall i :: 0 <= i < |anns| ==> anns[i] < annCount && annPaths[i] == Rev(anns[i], tbl.branchHeight)
    requires annCount <= Pow2(tbl.branchHeight)
    requires !Has(anns, tbl.branchHeight - depth, k) && IsPad(annCount, tbl.branchHeight - depth, k) ==> k % 2 == 1
    requires tbl.count == tbl.entries.Length
    requires nextFree + |Layout(anns, annCount, tbl.branchHeight - depth, k, nextFree, parentNum, false)| <= tbl.count
    requires forall x :: nextFree <= x < tbl.count ==> tbl.entries[x] == ZERO_CELL
    modifies tbl.entries
    ensures next == nextFree + |Layout(anns, annCount, tbl.branchHeight - depth, k, nextFree, parentNum, false)|
    ensures Filled(true, anns, annCount, tbl.entries[..], nextFree,
                   Layout(anns, annCount, tbl.branchHeight - depth, k, nextFree, parentNum, false))
    ensures forall x :: 0 <= x < nextFree || next <= x < tbl.count ==> tbl.entries[x] == old(tbl.entries[x])
    decreases tbl.branchHeight - depth
  {
    hide Rev, Shr;
    ghost var d := tbl.branchHeight - depth;
    var eNum := nextFree;
    assert eNum < tbl.count;
    next := eNum + 1;
    tbl.entries[eNum] := tbl.entries[eNum].(parent := parentNum);
    var first := bits % Pow2(depth) == 0;
    FirstPath(k, depth);

    for i := 0 to |annPaths|
      invariant forall j :: 0 <= j < i ==> Shr(anns[j], d) != k
      invariant tbl.entries[eNum] == ZERO_CELL.(parent := parentNum)
      invariant forall x :: 0 <= x < tbl.count && x != eNum ==> tbl.entries[x] == old(tbl.entries[x])
    {
      PathMatches(anns[i], k, depth, tbl.branchHeight);
      if annPaths[i] % Pow2(depth) != bits % Pow2(depth) { continue; }
      assert Has(anns, d, k);
      if depth == tbl.branchHeight {
        tbl.entries[eNum] := Cell(MAX16, MAX16, parentNum, NO_FLAGS.(right := right, leaf := true, computable := true),
                                  ZERO_ENTRY);
        return;
      }
      next := MkChildren(tbl, annPaths, bits, depth, eNum, annCount, right, first, anns, k);
      return;
    }

    assert !Has(anns, d, k);
    tbl.entries[eNum] := tbl.entries[eNum].(childLeft := MAX16, childRight := MAX16);
    var flags := NO_FLAGS.(right := right, leaf := depth == tbl.branchHeight);
    RevOfPath(k, depth, tbl.branchHeight);
    if Rev(bits, tbl.branchHeight) >= annCount {
      assert right;
      tbl.entries[eNum] := tbl.entries[eNum].(
        flags := flags.(padEntry := true, hasHash := true, hasRange := true, hasStart := true), e := PAD);
      return;
    }
    tbl.entries[eNum] := tbl.entries[eNum].(flags := flags.(firstEntry := first));
  }

  method MkChildren(tbl: Tbl, annPaths: seq<nat>, bits: nat, depth: nat, eNum: nat, annCount: nat, right: bool,
                    first: bool,
                    ghost anns: seq<nat>, ghost k: nat) returns (next: nat)
    requires depth < tbl.branchHeight && k < Pow2(depth) && bits == Rev(k, depth)
    requires right == (k % 2 == 1) && first == (k == 0)
    requires Has(anns, tbl.branchHeight - depth, k)
    requires |annPaths| == |anns|
    requires forall i :: 0 <= i < |anns| ==> anns[i] < annCount && annPaths[i] == Rev(anns[i], tbl.branchHeight)
    requires annCount <= Pow2(tbl.branchHeight)
    requires tbl.count == tbl.entries.Length && eNum < tbl.count
    requires eNum + |Layout(anns, annCount, tbl.branchHeight - depth, k, eNum, tbl.entries[eNum].parent,
                            false)| <= tbl.count
    requires forall x :: eNum < x < tbl.count ==> tbl.entries[x] == ZERO_CELL
    requires tbl.entries[eNum] == ZERO_CELL.(parent := tbl.entries[eNum].parent)
    modifies tbl.entries
    ensures next
            == eNum + |Layout(anns, annCount, tbl.branchHeight - depth, k, eNum, old(tbl.entries[eNum].parent), false)|
    ensures Filled(true, anns, annCount, tbl.entries[..], eNum,
                   Layout(anns, annCount, tbl.branchHeight - depth, k, eNum, old(tbl.entries[eNum].parent), false))
    ensures forall x :: 0 <= x < eNum || next <= x < tbl.count ==> tbl.entries[x] == old(tbl.entries[x])
    decreases tbl.branchHeight - depth, 0
  {
    hide *;
    ghost var d := tbl.branchHeight - depth;
    ghost var parent := tbl.entries[eNum].parent;
    ghost var padRight, l, r := LayoutUnfolds(anns, annCount, d, k, eNum, parent);
    PathSteps(k, depth);
    PadIsRight(anns, annCount, d, k);

    var childLeft := eNum + 1;
    tbl.entries[eNum] := tbl.entries[eNum].(childLeft := childLeft);
    next := MkEntries(tbl, annPaths, bits, depth + 1, childLeft, eNum, annCount, false, anns, 2 * k);
    ghost var afterLeft := tbl.entries[..];

    var childRight := next;
    tbl.entries[eNum] := tbl.entries[eNum].(childRight := childRight);
    next := MkEntries(tbl, annPaths, bits + Pow2(depth), depth + 1, childRight, eNum, annCount, true, anns, 2 * k + 1);
    FilledFrame(true, anns, annCount, afterLeft, tbl.entries[..], childLeft, l);

    FinishInner(tbl, eNum, childLeft, childRight, right, first, anns, annCount, d, k, parent, l, r);
    FilledCons(true, anns, annCount, tbl.entries[..], eNum, Slot(d, k, parent, childLeft, childRight, false),
               (if padRight then l[0 := l[0].(padSibling := true)] else l) + r,
               Layout(anns, annCount, d, k, eNum, parent, false));
  }

  /** With both children in place: the entry's own flags, and the mark on a padding node's sibling. */
  method FinishInner(tbl: Tbl, eNum: nat, childLeft: nat, childRight: nat, right: bool, first: bool,
                     ghost anns: seq<nat>,
                     ghost annCount: nat, ghost d: nat, ghost k: nat, ghost parent: nat, ghost l: seq<Slot>,
                     ghost r: seq<Slot>)
    requires eNum < childLeft && |l| > 0 && |r| > 0 && childRight == childLeft + |l|
    requires childRight + |r| <= tbl.entries.Length
    requires d > 0 && Has(anns, d, k) && right == (k % 2 == 1) && first == (k == 0)
    requires tbl.entries[eNum] == ZERO_CELL.(parent := parent, childLeft := childLeft, childRight := childRight)
    requires Filled(true, anns, annCount, tbl.entries[..], childLeft, l)
    requires Filled(true, anns, annCount, tbl.entries[..], childRight, r)
    modifies tbl.entries
    ensures var padRight := !Has(anns, r[0].d, r[0].k) && IsPad(annCount, r[0].d, r[0].k);
            Filled(true, anns, annCount, tbl.entries[..], childLeft,
                   (if padRight then l[0 := l[0].(padSibling := true)] else l) + r)
    ensures tbl.entries[eNum] == CellBy(true, anns, annCount, Slot(d, k, parent, childLeft, childRight, false))
    ensures forall x :: (0 <= x < childLeft && x != eNum) || childRight + |r| <= x < tbl.entries.Length ==>
              tbl.entries[x] == old(tbl.entries[x])
  {
    hide *;
    ghost var before := tbl.entries[..];
    tbl.entries[eNum] := tbl.entries[eNum].(
      flags := NO_FLAGS.(right := right, computable := true, firstEntry := first));
    FilledFrame(true, anns, annCount, before, tbl.entries[..], childLeft, l);
    FilledFrame(true, anns, annCount, before, tbl.entries[..], childRight, r);
    MarkPadSibling(tbl, childLeft, childRight, true, anns, annCount, l, r);
    InnerCell(anns, annCount, Slot(d, k, parent, childLeft, childRight, false));
  }

  lemma PathSteps(k: nat, depth: nat)
    requires k < Pow2(depth)
    ensures 2 * k + 1 < Pow2(depth + 1)
    ensures Rev(2 * k, depth + 1) == Rev(k, depth) && Rev(2 * k + 1, depth + 1) == Rev(k, depth) + Pow2(depth)
    ensures (2 * k) % 2 == 0 && (2 * k + 1) % 2 == 1
  {
    NextPower(depth);
    hide Pow2;
    LowBit(2 * k, depth, 0, k);
    LowBit(2 * k + 1, depth, 1, k);
  }

  lemma NextPower(depth: nat)
    ensures Pow2(depth + 1) == 2 * Pow2(depth)
  {
  }

  lemma LowBit(n: nat, depth: nat, bit: nat, k: nat)
    requires n == 2 * k + bit && bit < 2
    ensures Rev(n, depth + 1) == bit * Pow2(depth) + Rev(k, depth)
  {
    hide Pow2;
    assert n % 2 == bit && n / 2 == k;
  }

  lemma InnerCell(anns: seq<nat>, count: nat, s: Slot)
    requires s.d > 0 && Has(anns, s.d, s.k) && !s.padSibling
    ensures CellBy(true, anns, count, s)
         == ZERO_CELL.(childLeft := s.left, childRight := s.right, parent := s.parent,
                       flags := NO_FLAGS.(right := s.k % 2 == 1, computable := true, firstEntry := s.k == 0))
  {
  }

  // ---------- the two entry points ----------

  /** PcCompress_mkEntryTable2. */
  method MkEntryTable2(annCount: nat, annNumbers: seq<nat>) returns (tbl: Tbl?)
    requires |annNumbers| == 4 && annCount >= 2
    ensures tbl == null <==> exists i :: 0 <= i < 4 && annNumbers[i] >= annCount
    ensures tbl != null ==> fresh(tbl) && fresh(tbl.entries) && tbl.branchHeight == Log2Ceil(annCount)
    ensures tbl != null ==> tbl.count <= tbl.entries.Length && tbl.entries[..tbl.count] == Table(annNumbers, annCount)
  {
    for i := 0 to 4
      invariant forall j :: 0 <= j < i ==> annNumbers[j] < annCount
    {
      if annNumbers[i] >= annCount { return null; }
    }
    var branchHeight := Log2Ceil(annCount);
    TableFits(annNumbers, annCount);
    RootHas(annNumbers, annCount, branchHeight);
    tbl := new Tbl(branchHeight, branchHeight * 4 * 3);
    var nextFree := MkEntries2(tbl, annNumbers, 0, branchHeight, MAX16, 0, annCount, 0);
    tbl.count := nextFree;
  }

  /** What the bit-reversed builder makes of the same slots. */
  function ReversedTable(anns: seq<nat>, count: nat): (t: seq<Cell>)
    requires count >= 1
    ensures |t| == |Slots(anns, count)|
  {
    var s := Slots(anns, count);
    seq(|s|, x requires 0 <= x < |s| => CellBy(true, anns, count, s[x]))
  }

  /**
   * PcCompress_mkEntryTable: builds the table both ways and insists that they are equal, which they
   * are because no announcement number is zero.
   */
  method MkEntryTable(annCount: nat, annNumbers: seq<nat>) returns (tbl: Tbl?)
    requires |annNumbers| == 4 && annCount >= 2
    requires forall i :: 0 <= i < 4 ==> annNumbers[i] >= 1
    ensures tbl == null <==> exists i :: 0 <= i < 4 && annNumbers[i] >= annCount
    ensures tbl != null ==> fresh(tbl) && fresh(tbl.entries) && tbl.branchHeight == Log2Ceil(annCount)
    ensures tbl != null ==> tbl.count <= tbl.entries.Length && tbl.entries[..tbl.count] == Table(annNumbers, annCount)
  {
    for i := 0 to 4
      invariant forall j :: 0 <= j < i ==> annNumbers[j] < annCount
    {
      if annNumbers[i] >= annCount { return null; }
    }
    var branchHeight := Log2Ceil(annCount);
    var annPaths := [Rev(annNumbers[0], branchHeight), Rev(annNumbers[1], branchHeight),
                     Rev(annNumbers[2], branchHeight), Rev(annNumbers[3], branchHeight)];
    TableFits(annNumbers, annCount);
    RootHas(annNumbers, annCount, branchHeight);
    var out := new Tbl(branchHeight, branchHeight * 4 * 3);
    var nextFree := MkEntries(out, annPaths, 0, 0, 0, MAX16, annCount, false, annNumbers, 0);
    out.count := nextFree;
    assert out.entries[..out.count] == ReversedTable(annNumbers, annCount);

    tbl := MkEntryTable2(annCount, annNumbers);
    assert out.count == tbl.count;
    BuildersAgree(annNumbers, annCount);
    assert out.entries[..out.count] == tbl.entries[..tbl.count];
  }

  /** The two builders produce the same table exactly when the zero entry is not asked for. */
  lemma BuildersAgree(anns: seq<nat>, count: nat)
    requires |anns| == 4 && count >= 2 && forall i :: 0 <= i < 4 ==> anns[i] < count
    ensures ReversedTable(anns, count) == Table(anns, count) <==> forall i :: 0 <= i < 4 ==> anns[i] != 0
  {
    var s := Slots(anns, count);
    if i :| 0 <= i < 4 && anns[i] == 0 {
      var h := Log2Ceil(count);
      LeftSpine(anns, count, h, 0, MAX16, false, i);
      assert ReversedTable(anns, count)[h] != Table(anns, count)[h];
    } else {
      forall x | 0 <= x < |s|
        ensures CellBy(true, anns, count, s[x]) == CellOf(anns, count, s[x])
      {
      }
    }
  }

  /** With the zero entry among the announcements, the `d`-th slot of the leftmost sub-table is its leaf. */
  lemma {:induction false} LeftSpine(anns: seq<nat>, count: nat, d: nat, base: nat, parent: nat, padSibling: bool,
                                     i: nat)
    requires i < |anns| && anns[i] == 0
    ensures var l := Layout(anns, count, d, 0, base, parent, padSibling);
            |l| > d && l[d].d == 0 && l[d].k == 0 && Has(anns, 0, 0)
    decreases d
  {
    ShrOfZero(d);
    assert Has(anns, d, 0);
    if d > 0 {
      LeftSpine(anns, count, d - 1, base + 1, base, !Has(anns, d - 1, 1) && IsPad(count, d - 1, 1), i);
    }
  }

  lemma {:induction false} ShrOfZero(d: nat)
    ensures Shr(0, d) == 0
  {
    if d > 0 {
      ShrOfZero(d - 1);
    }
  }
}
