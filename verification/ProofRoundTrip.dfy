/** The proof written for a tree checks, and proves the root of that tree. */
module ProofRoundTrip {
  import opened Words
  import opened RangeTree
  import opened ProofTable
  import opened ProofCheck
  import opened TableWalk
  import opened ProofSoundness

  // ---------- writing ----------

  predicate EmitsHash(f: Flags) {
    !f.computable && !f.padEntry
  }

  /** What the prover writes for one entry whose tree node is `n`. */
  function Emit(f: Flags, n: Entry): seq<u8> {
    (if HasExplicitRange(f) then WriteU64(Sub64(n.end, n.start)) else [])
    + (if EmitsHash(f) then WriteHash(n.hash) else [])
  }

  function EmitFrom(t: seq<Cell>, nodes: seq<Entry>, i: nat): seq<u8>
    requires i <= |t| == |nodes|
    decreases |t| - i
  {
    if i == |t| then [] else Emit(t[i].flags, nodes[i]) + EmitFrom(t, nodes, i + 1)
  }

  function NodesOf(H: Hasher, leaves: seq<Entry>, s: seq<Slot>): (r: seq<Entry>)
    ensures |r| == |s|
    ensures forall x :: 0 <= x < |s| ==> r[x] == Node(H, leaves, s[x].d, s[x].k)
  {
    seq(|s|, x requires 0 <= x < |s| => Node(H, leaves, s[x].d, s[x].k))
  }

  /** The compressed proof of four leaves. */
  function ProofBytes(H: Hasher, leaves: seq<Entry>, anns: seq<nat>): seq<u8>
    requires |leaves| >= 1
  {
    EmitFrom(Table(anns, |leaves|), NodesOf(H, leaves, Slots(anns, |leaves|)), 0)
  }

  // ---------- reading back ----------

  /** A cell once its part of the proof of node `n` has been read. */
  function Loaded(c: Cell, n: Entry): Cell {
    var c1 := if HasExplicitRange(c.flags)
              then c.(e := c.e.(end := Sub64(n.end, n.start)), flags := c.flags.(hasRange := true)) else c;
    if NeedsHash(c1.flags) then c1.(e := c1.e.(hash := n.hash), flags := c1.flags.(hasHash := true)) else c1
  }

  lemma HashRoundTrip(h: Hash)
    ensures ReadHash(WriteHash(h)) == h
  {
    var s := WriteHash(h);
    assert s[..8] == WriteU64(h.l0) && s[8..16] == WriteU64(h.l1);
    assert s[16..24] == WriteU64(h.l2) && s[24..] == WriteU64(h.l3);
    ReadWriteU64(h.l0);
    ReadWriteU64(h.l1);
    ReadWriteU64(h.l2);
    ReadWriteU64(h.l3);
  }

  lemma RangeBytes(n: Entry, rest: seq<u8>)
    ensures var w := WriteU64(Sub64(n.end, n.start));
            (w + rest)[..8] == w && (w + rest)[8..] == rest && ReadU64(w) == Sub64(n.end, n.start)
  {
    ReadWriteU64(Sub64(n.end, n.start));
  }

  lemma HashBytes(n: Entry, rest: seq<u8>)
    ensures var w := WriteHash(n.hash);
            (w + rest)[..32] == w && (w + rest)[32..] == rest && ReadHash(w) == n.hash
  {
    HashRoundTrip(n.hash);
  }

  lemma ReadEmitted(c: Cell, n: Entry, rest: seq<u8>)
    requires NeedsHash(c.flags) == EmitsHash(c.flags)
    ensures ReadCell(c, Emit(c.flags, n) + rest) == Some((Loaded(c, n), rest))
  {
    hide WriteU64, WriteHash, ReadU64, ReadHash, HasExplicitRange, Sub64;
    var range := if HasExplicitRange(c.flags) then WriteU64(Sub64(n.end, n.start)) else [];
    var hash := if EmitsHash(c.flags) then WriteHash(n.hash) else [];
    RangeBytes(n, hash + rest);
    HashBytes(n, rest);
    assert Emit(c.flags, n) + rest == range + (hash + rest);
    assert [] + (hash + rest) == hash + rest && [] + rest == rest;
    assert (hash + rest)[0..] == hash + rest;
  }

  lemma {:induction false} ReadBack(t: seq<Cell>, u: seq<Cell>, nodes: seq<Entry>, i: nat)
    requires i <= |t| == |u| == |nodes|
    requires forall x :: i <= x < |t| ==>
               && NeedsHash(t[x].flags) == EmitsHash(t[x].flags)
               && Emit(t[x].flags, nodes[x]) == Emit(u[x].flags, nodes[x])
    ensures var r := ReadFrom(t, i, EmitFrom(u, nodes, i));
            r.Some? && forall j :: 0 <= j < |r.value| ==> r.value[j] == Loaded(t[i + j], nodes[i + j])
    decreases |t| - i
  {
    hide Emit, ReadCell, Loaded, NeedsHash, EmitsHash;
    if i < |t| {
      var rest := EmitFrom(u, nodes, i + 1);
      ReadBack(t, u, nodes, i + 1);
      ReadEmitted(t[i], nodes[i], rest);
      var cs := ReadFrom(t, i + 1, rest).value;
      assert ReadFrom(t, i, EmitFrom(u, nodes, i)).value == [Loaded(t[i], nodes[i])] + cs;
    }
  }

  // ---------- evaluating what was read ----------

  /** The parts of node `n` that a filled cell must hold for the check to recompute the rest. */
  ghost predicate Holds(c: Cell, n: Entry) {
    && (c.flags.leaf || EmitsHash(c.flags) ==> c.e.hash == n.hash)
    && (HasExplicitRange(c.flags) ==> c.e.end == Sub64(n.end, n.start))
    && (c.flags.padEntry ==> c.e == PAD == n)
  }

  lemma NodeBounds(H: Hasher, leaves: seq<Entry>, d: nat, k: nat)
    requires ValidLeaves(leaves) && !IsPad(|leaves|, d, k)
    ensures var a, b := Node(H, leaves, d, k), Node(H, leaves, d, k + 1);
            a.start < a.end == b.start && (if IsPad(|leaves|, d, k + 1) then b == PAD else b.start < b.end)
  {
    NodesAreAdjacent(H, leaves, d, k);
    NodesAreNonEmpty(H, leaves, d, k);
    if !IsPad(|leaves|, d, k + 1) {
      NodesAreNonEmpty(H, leaves, d, k + 1);
    }
  }

  lemma LeavesEvaluate(l: Cell, r: Cell, a: Entry, b: Entry)
    requires l.flags.leaf && r.flags.leaf && r.flags.right && !l.flags.padEntry
    requires Holds(l, a) && Holds(r, b)
    requires a.hash.l0 == a.start < a.end == b.start && b.hash.l0 == b.start
    requires b == PAD || b.start < b.end
    requires r.flags.padEntry ==> b == PAD
    ensures LeafPair(l, r) == Some((a, b))
  {
  }

  lemma InnersEvaluate(l: Cell, r: Cell, a: Entry, b: Entry, el: Option<Entry>, er: Option<Entry>)
    requires !l.flags.leaf && !r.flags.leaf && !l.flags.padEntry && (l.flags.computable || r.flags.computable)
    requires !l.flags.padSibling || r.flags.padEntry
    requires !r.flags.padSibling && !(r.flags.computable && r.flags.padEntry)
    requires Holds(l, a) && Holds(r, b)
    requires l.flags.computable ==> el == Some(a)
    requires r.flags.computable ==> er == Some(b)
    requires a.start < a.end == b.start
    requires if r.flags.padEntry then b == PAD else b.start < b.end
    ensures InnerPair(l, r, el, er) == Some((a, b))
  {
  }

  /** What the layout says of the two children of an inner entry. */
  lemma ChildShape(anns: seq<nat>, count: nat, h: nat, s: seq<Slot>, t: seq<Cell>, x: nat)
    requires TableOk(anns, count, h, s, t) && x < |s| && Inner(anns, s[x])
    ensures ChildrenInRange(t, x) && t[x].childLeft == s[x].left && t[x].childRight == s[x].right
    ensures var d, k := s[x].d - 1, s[x].k;
            var l, r := s[x].left, s[x].right;
            var f, g := t[l].flags, t[r].flags;
            && s[l].d == d && s[l].k == 2 * k && s[r].d == d && s[r].k == 2 * k + 1
            && f.leaf == (d == 0) && g.leaf == (d == 0) && g.right
            && !f.padEntry && (f.computable || g.computable) && !(g.computable && g.padEntry)
            && (f.padSibling ==> g.padEntry) && !g.padSibling
            && (f.computable ==> Has(anns, d, 2 * k)) && (g.computable ==> Has(anns, d, 2 * k + 1))
            && !IsPad(count, d, 2 * k) && g.padEntry == IsPad(count, d, 2 * k + 1)
  {
    hide *;
    InnerIs(anns, s[x]);
    LinkOf(anns, count, h, s, t, x);
    var d, k := s[x].d - 1, s[x].k;
    var l, r := s[x].left, s[x].right;
    ShapeOf(anns, count, h, s, t, x);
    ShapeOf(anns, count, h, s, t, l);
    ShapeOf(anns, count, h, s, t, r);
    CellFlags(anns, count, s[x], t[x]);
    CellFlags(anns, count, s[l], t[l]);
    CellFlags(anns, count, s[r], t[r]);
    TableParts(anns, count, h, s, t);
    HasIsNotPad(anns, count, d + 1, k);
    PadChildren(count, d + 1, k);
    HasBelow(anns, count, d, k);
    InRange(t, x);
  }

  lemma EvalUnfolds(H: Hasher, t: seq<Cell>, x: nat)
    requires ChildrenInRange(t, x)
    ensures var l, r := t[x].childLeft, t[x].childRight;
            var pair := if t[l].flags.leaf then LeafPair(t[l], t[r])
                        else InnerPair(t[l], t[r], Eval(H, t, l), Eval(H, t, r));
            Eval(H, t, x) == match pair case None => None case Some((a, b)) => Some(Combine(H, a, b))
  {
    hide LeafPair, InnerPair, Combine;
  }

  ghost predicate AllHold(H: Hasher, leaves: seq<Entry>, s: seq<Slot>, t: seq<Cell>) {
    forall y :: 0 <= y < |t| && y < |s| ==> Holds(t[y], Node(H, leaves, s[y].d, s[y].k))
  }

  lemma HoldAt(H: Hasher, leaves: seq<Entry>, s: seq<Slot>, t: seq<Cell>, y: nat)
    requires AllHold(H, leaves, s, t) && y < |t| && y < |s|
    ensures Holds(t[y], Node(H, leaves, s[y].d, s[y].k))
  {
    hide Holds, Node;
  }

  /** Where every cell holds its node's parts, every inner node on a path evaluates to its tree node. */
  lemma {:induction false} EvalIsNode(H: Hasher, leaves: seq<Entry>, anns: seq<nat>, h: nat, s: seq<Slot>,
                                      t: seq<Cell>, x: nat)
    requires ValidLeaves(leaves)
    requires TableOk(anns, |leaves|, h, s, t) && x < |s| && Inner(anns, s[x])
    requires AllHold(H, leaves, s, t)
    ensures Eval(H, t, x) == Some(Node(H, leaves, s[x].d, s[x].k))
    decreases |s| - x
  {
    hide *;
    InnerIs(anns, s[x]);
    var d, k := s[x].d - 1, s[x].k;
    var l, r := s[x].left, s[x].right;
    TableParts(anns, |leaves|, h, s, t);
    ChildShape(anns, |leaves|, h, s, t, x);
    InRange(t, x);
    HasIsNotPad(anns, |leaves|, d + 1, k);
    NodeUnfolds(H, leaves, d, k);
    var a, b := Node(H, leaves, d, 2 * k), Node(H, leaves, d, 2 * k + 1);
    NodeBounds(H, leaves, d, 2 * k);
    HoldAt(H, leaves, s, t, l);
    HoldAt(H, leaves, s, t, r);
    EvalUnfolds(H, t, x);
    if d == 0 {
      LeafStarts(H, leaves, 2 * k);
      LeavesEvaluate(t[l], t[r], a, b);
    } else {
      if t[l].flags.computable {
        InnerIs(anns, s[l]);
        EvalIsNode(H, leaves, anns, h, s, t, l);
      }
      if t[r].flags.computable {
        InnerIs(anns, s[r]);
        EvalIsNode(H, leaves, anns, h, s, t, r);
      }
      InnersEvaluate(t[l], t[r], a, b, Eval(H, t, l), Eval(H, t, r));
    }
  }

  lemma LeafStarts(H: Hasher, leaves: seq<Entry>, k: nat)
    requires ValidLeaves(leaves)
    ensures Node(H, leaves, 0, k).hash.l0 == Node(H, leaves, 0, k).start
    ensures Node(H, leaves, 0, k + 1).hash.l0 == Node(H, leaves, 0, k + 1).start
  {
  }

  lemma HasBelow(anns: seq<nat>, count: nat, d: nat, k: nat)
    requires forall i :: 0 <= i < |anns| ==> anns[i] < count
    requires Has(anns, d + 1, k)
    ensures Has(anns, d, 2 * k) || Has(anns, d, 2 * k + 1)
    ensures Has(anns, d, 2 * k + 1) ==> !IsPad(count, d, 2 * k + 1)
  {
    var i :| 0 <= i < |anns| && Shr(anns[i], d + 1) == k;
    assert Shr(anns[i], d) == 2 * k || Shr(anns[i], d) == 2 * k + 1;
    if Has(anns, d, 2 * k + 1) {
      HasIsNotPad(anns, count, d, 2 * k + 1);
    }
  }

  // ---------- the whole round trip ----------

  lemma FilledFlags(anns: seq<nat>, count: nat, s: Slot, c: Cell)
    requires c == CellOf(anns, count, s)
    ensures NeedsHash(c.flags) == EmitsHash(c.flags)
    ensures c.flags.padEntry ==> c.e == PAD && IsPad(count, s.d, s.k)
  {
    hide Has, IsPad;
  }

  /** Equal but for the hash and its flag. */
  ghost predicate SameButHash(c: Cell, o: Cell) {
    c.flags.(hasHash := o.flags.hasHash) == o.flags && c.e.(hash := o.e.hash) == o.e
  }

  lemma PutHashKeeps(c: Cell, o: Cell, hash: Hash)
    requires SameButHash(c, o)
    ensures SameButHash(PutHash(c, hash), o)
  {
  }

  lemma WithHashesStep(t: seq<Cell>, h: nat, anns: seq<nat>, hashes: seq<Hash>, n: nat, x: nat)
    requires n <= |anns| && n <= |hashes| && x < |t|
    ensures n == 0 ==> WithHashes(t, h, anns, hashes, n)[x] == t[x]
    ensures n > 0 ==> var c := WithHashes(t, h, anns, hashes, n - 1)[x];
                      WithHashes(t, h, anns, hashes, n)[x]
                      == if x == Walk(t, h, anns[n - 1], 0) then PutHash(c, hashes[n - 1]) else c
  {
    hide Walk, PutHash;
  }

  /** Placing the announcement hashes touches only the announcements' leaves. */
  lemma {:induction false} WithHashesKeeps(anns: seq<nat>, count: nat, h: nat, s: seq<Slot>, t: seq<Cell>,
                                           hashes: seq<Hash>, n: nat, x: nat)
    requires TableOk(anns, count, h, s, t) && n <= |anns| && n <= |hashes| && x < |s| && x < |t|
    ensures var c := WithHashes(t, h, anns, hashes, n)[x];
            SameButHash(c, t[x]) && (!(s[x].d == 0 && Has(anns, 0, s[x].k)) ==> c == t[x])
  {
    hide *;
    WithHashesStep(t, h, anns, hashes, n, x);
    if n > 0 {
      LeafSlot(anns, count, h, s, t, n - 1);
      LeafIsThere(anns, n - 1);
      WithHashesKeeps(anns, count, h, s, t, hashes, n - 1, x);
      PutHashKeeps(WithHashes(t, h, anns, hashes, n - 1)[x], t[x], hashes[n - 1]);
    } else {
      SameAsItself(t[x]);
    }
  }

  lemma LeafIsThere(anns: seq<nat>, i: nat)
    requires i < |anns|
    ensures Has(anns, 0, anns[i])
  {
    assert Shr(anns[i], 0) == anns[i];
  }

  lemma SameAsItself(c: Cell)
    ensures SameButHash(c, c)
  {
  }

  /** A leaf that is an announcement holds that announcement's hash. */
  lemma LeafHash(anns: seq<nat>, count: nat, h: nat, s: seq<Slot>, t: seq<Cell>, hashes: seq<Hash>,
                 leaves: seq<Entry>, x: nat)
    requires TableOk(anns, count, h, s, t) && |anns| == |hashes| && x < |s|
    requires |leaves| == count && forall i :: 0 <= i < |anns| ==> hashes[i] == leaves[anns[i]].hash
    requires s[x].d == 0 && Has(anns, 0, s[x].k)
    ensures var c := WithHashes(t, h, anns, hashes, |anns|)[x];
            s[x].k < count && c.flags.hasHash && c.e.hash == leaves[s[x].k].hash
  {
    var i :| 0 <= i < |anns| && Shr(anns[i], 0) == s[x].k;
    WalkReaches(anns, count, h, s, t, i, x);
    LeafSlot(anns, count, h, s, t, i);
    HashAtLeaf(anns, count, h, s, t, hashes, i, |anns|);
  }

  /** After reading its part of the proof, every cell holds its node. */
  lemma LoadedHolds(H: Hasher, leaves: seq<Entry>, anns: seq<nat>, h: nat, s: seq<Slot>, t: seq<Cell>,
                    hashes: seq<Hash>, x: nat)
    requires TableOk(anns, |leaves|, h, s, t) && |anns| == |hashes| && x < |s|
    requires t[x] == CellOf(anns, |leaves|, s[x])
    requires forall i :: 0 <= i < |anns| ==> hashes[i] == leaves[anns[i]].hash
    ensures var c := WithHashes(t, h, anns, hashes, |anns|)[x];
            && NeedsHash(c.flags) == EmitsHash(c.flags)
            && (forall n: Entry :: Emit(c.flags, n) == Emit(t[x].flags, n))
            && Holds(Loaded(c, Node(H, leaves, s[x].d, s[x].k)), Node(H, leaves, s[x].d, s[x].k))
  {
    WithHashesKeeps(anns, |leaves|, h, s, t, hashes, |anns|, x);
    FilledFlags(anns, |leaves|, s[x], t[x]);
    assert t[x].flags.computable == Has(anns, s[x].d, s[x].k) && t[x].flags.leaf == (s[x].d == 0);
    if s[x].d == 0 && Has(anns, 0, s[x].k) {
      LeafHash(anns, |leaves|, h, s, t, hashes, leaves, x);
      HasIsNotPad(anns, |leaves|, 0, s[x].k);
    }
    hide Has, TableOk, WriteU64, WriteHash, CellOf;
  }

  /** The written proof reads back into a table that holds the tree's nodes. */
  lemma ProofFills(H: Hasher, leaves: seq<Entry>, anns: seq<nat>, annHashes: seq<Hash>)
    returns (h: nat, s: seq<Slot>, filled: seq<Cell>)
    requires |leaves| >= 2 && |annHashes| == 4 && |anns| == 4 && forall i :: 0 <= i < 4 ==> anns[i] < |leaves|
    requires forall i :: 0 <= i < 4 ==> annHashes[i] == leaves[anns[i]].hash
    ensures h == Log2Ceil(|leaves|) && TableOk(anns, |leaves|, h, s, filled)
    ensures ReadFrom(WithHashes(Table(anns, |leaves|), h, anns, annHashes, 4), 0, ProofBytes(H, leaves, anns))
            == Some(filled)
    ensures AllHold(H, leaves, s, filled)
  {
    hide *;
    var n := |leaves|;
    h, s := Log2Ceil(n), Slots(anns, n);
    var t := Table(anns, n);
    FreshTableIsOk(anns, n);
    var u, nodes := WithHashes(t, h, anns, annHashes, 4), NodesOf(H, leaves, s);
    TableParts(anns, n, h, s, t);
    CellsLoad(H, leaves, anns, annHashes, h, s, t, u, nodes);
    ReadBack(u, t, nodes, 0);
    EmittedIs(H, leaves, anns);
    filled := ReadFrom(u, 0, ProofBytes(H, leaves, anns)).value;
    FillKeepsShape(anns, n, h, s, t, annHashes, ProofBytes(H, leaves, anns));
    LoadedAllHold(H, leaves, s, u, nodes, filled);
  }

  lemma CellsLoad(H: Hasher, leaves: seq<Entry>, anns: seq<nat>, annHashes: seq<Hash>, h: nat, s: seq<Slot>,
                  t: seq<Cell>,
                  u: seq<Cell>, nodes: seq<Entry>)
    requires |leaves| >= 1 && s == Slots(anns, |leaves|) && t == Table(anns, |leaves|)
    requires TableOk(anns, |leaves|, h, s, t)
    requires |annHashes| == |anns| && u == WithHashes(t, h, anns, annHashes, |anns|) && nodes == NodesOf(H, leaves, s)
    requires forall i :: 0 <= i < |anns| ==> anns[i] < |leaves| && annHashes[i] == leaves[anns[i]].hash
    ensures |u| == |t| == |s| == |nodes|
    ensures forall x :: 0 <= x < |u| ==>
              && NeedsHash(u[x].flags) == EmitsHash(u[x].flags)
              && Emit(u[x].flags, nodes[x]) == Emit(t[x].flags, nodes[x])
              && Holds(Loaded(u[x], nodes[x]), nodes[x])
  {
    hide *;
    TableParts(anns, |leaves|, h, s, t);
    forall x | 0 <= x < |s|
      ensures NeedsHash(u[x].flags) == EmitsHash(u[x].flags) && Emit(u[x].flags, nodes[x]) == Emit(t[x].flags, nodes[x])
      ensures Holds(Loaded(u[x], nodes[x]), nodes[x])
    {
      TableCell(anns, |leaves|, x);
      LoadedHolds(H, leaves, anns, h, s, t, annHashes, x);
    }
  }

  lemma LoadedAllHold(H: Hasher, leaves: seq<Entry>, s: seq<Slot>, u: seq<Cell>, nodes: seq<Entry>, filled: seq<Cell>)
    requires |u| == |s| == |nodes| == |filled| && nodes == NodesOf(H, leaves, s)
    requires forall x :: 0 <= x < |u| ==> Holds(Loaded(u[x], nodes[x]), nodes[x])
    requires forall x :: 0 <= x < |u| ==> filled[x] == Loaded(u[x], nodes[x])
    ensures AllHold(H, leaves, s, filled)
  {
    hide Loaded, Holds, Node, NodesOf;
  }

  lemma TableCell(anns: seq<nat>, count: nat, x: nat)
    requires count >= 1 && x < |Slots(anns, count)|
    ensures Table(anns, count)[x] == CellOf(anns, count, Slots(anns, count)[x])
  {
    hide Slots, CellOf;
  }

  lemma EmittedIs(H: Hasher, leaves: seq<Entry>, anns: seq<nat>)
    requires |leaves| >= 1
    ensures ProofBytes(H, leaves, anns) == EmitFrom(Table(anns, |leaves|), NodesOf(H, leaves, Slots(anns, |leaves|)), 0)
  {
    hide EmitFrom, Table, NodesOf, Slots;
  }

  /** An honest right leaf has its own range. */
  lemma HonestRights(H: Hasher, leaves: seq<Entry>, anns: seq<nat>, h: nat, s: seq<Slot>, t: seq<Cell>)
    requires ValidLeaves(leaves) && TableOk(anns, |leaves|, h, s, t)
    requires AllHold(H, leaves, s, t)
    ensures RightsNonEmpty(t, h, anns)
  {
    TableParts(anns, |leaves|, h, s, t);
    hide RightFirst, RightNonEmpty, Holds, ValidLeaves, TableOk;
    forall i | 0 <= i < |anns| && RightFirst(anns, i)
      ensures RightNonEmpty(t, h, anns[i])
    {
      FirstIsRight(anns, i);
      LeafSlot(anns, |leaves|, h, s, t, i);
      var x := Walk(t, h, anns[i], 0);
      HoldAt(H, leaves, s, t, x);
      HonestRight(H, leaves, anns, h, s, t, i, x);
    }
  }

  lemma FirstIsRight(anns: seq<nat>, i: nat)
    requires i < |anns| && RightFirst(anns, i)
    ensures IsRight(anns[i]) && anns[i] % 2 == 1
  {
  }

  lemma HonestRight(H: Hasher, leaves: seq<Entry>, anns: seq<nat>, h: nat, s: seq<Slot>, t: seq<Cell>, i: nat, x: nat)
    requires ValidLeaves(leaves) && TableOk(anns, |leaves|, h, s, t) && i < |anns|
    requires x == Walk(t, h, anns[i], 0) < |s| == |t| && s[x].d == 0 && s[x].k == anns[i] && anns[i] % 2 == 1
    requires Holds(t[x], Node(H, leaves, 0, s[x].k))
    ensures RightNonEmpty(t, h, anns[i])
  {
    HasAbove(anns, i, 0);
    ShapeOf(anns, |leaves|, h, s, t, x);
    CellFlags(anns, |leaves|, s[x], t[x]);
    LeafNode(H, leaves, anns[i]);
    assert t[x].e.hash.l0 == leaves[anns[i]].start < leaves[anns[i]].end;
  }

  lemma RootSlotIsInner(anns: seq<nat>, count: nat, h: nat, s: seq<Slot>, t: seq<Cell>)
    requires TableOk(anns, count, h, s, t) && h > 0
    ensures 0 < |s| == |t| && s[0].d == h && s[0].k == 0 && Inner(anns, s[0])
  {
    RootHas(anns, count, h);
  }

  /** A filled table with honest right leaves whose root spans everything is accepted. */
  lemma Accepted(H: Hasher, annHashes: seq<Hash>, totalAnns: nat, annIndexes: seq<nat>, proof: seq<u8>, t: seq<Cell>,
                 e: Entry)
    requires |annHashes| == 4 && |annIndexes| == 4 && totalAnns >= 1
    requires FilledTable(annHashes, totalAnns, annIndexes, proof) == Some(t)
    requires RightsNonEmpty(t, Log2Ceil(totalAnns + 1), AnnIdxs(annIndexes, totalAnns))
    requires Eval(H, t, 0) == Some(e) && e.start == 0 && e.end == MAX64
    ensures Check(H, annHashes, totalAnns, annIndexes, proof) == Some(H([e]))
  {
    hide FilledTable, RightsNonEmpty, Eval, Log2Ceil, AnnIdxs;
  }

  lemma FilledIs(annHashes: seq<Hash>, totalAnns: nat, annIndexes: seq<nat>, proof: seq<u8>)
    requires |annHashes| == 4 && |annIndexes| == 4 && totalAnns >= 1
    ensures var anns := AnnIdxs(annIndexes, totalAnns);
            FilledTable(annHashes, totalAnns, annIndexes, proof)
            == ReadFrom(WithHashes(Table(anns, totalAnns + 1), Log2Ceil(totalAnns + 1), anns, annHashes, 4), 0, proof)
  {
    hide ReadFrom, WithHashes, Table, Log2Ceil;
  }

  lemma LeafCount(leaves: seq<Entry>)
    requires ValidLeaves(leaves)
    ensures |leaves| >= 2 && Log2Ceil(|leaves|) > 0 && |leaves| <= Pow2(Log2Ceil(|leaves|))
  {
  }

  /**
   * Proof round trip: for every valid tree and any four leaf numbers, repeats and neighbours
   * allowed, the written proof together with those leaves' hashes checks and proves the tree's root.
   */
  lemma ProofChecks(H: Hasher, leaves: seq<Entry>, annHashes: seq<Hash>, annIndexes: seq<nat>)
    requires ValidLeaves(leaves) && |annHashes| == 4 && |annIndexes| == 4
    requires var anns := AnnIdxs(annIndexes, |leaves| - 1);
             forall i :: 0 <= i < 4 ==> annHashes[i] == leaves[anns[i]].hash
    ensures Check(H, annHashes, |leaves| - 1, annIndexes, ProofBytes(H, leaves, AnnIdxs(annIndexes, |leaves| - 1)))
         == Some(RootHash(H, leaves))
  {
    hide *;
    LeafCount(leaves);
    var anns := AnnIdxs(annIndexes, |leaves| - 1);
    var h, s, t := ProofFills(H, leaves, anns, annHashes);
    RootSlotIsInner(anns, |leaves|, h, s, t);
    HonestRights(H, leaves, anns, h, s, t);
    EvalIsNode(H, leaves, anns, h, s, t, 0);
    RootSpansEverything(H, leaves, h);
    FilledIs(annHashes, |leaves| - 1, annIndexes, ProofBytes(H, leaves, anns));
    Accepted(H, annHashes, |leaves| - 1, annIndexes, ProofBytes(H, leaves, anns), t, Node(H, leaves, h, 0));
    RootHashIs(H, leaves);
  }

  lemma RootHashIs(H: Hasher, leaves: seq<Entry>)
    requires |leaves| >= 1
    ensures RootHash(H, leaves) == H([Node(H, leaves, Log2Ceil(|leaves|), 0)])
  {
  }

  /**
   * A wrong hash can be accepted: for every valid tree, where two of the announcement indexes are the
   * same, the honest proof is accepted with any hash at all in place of the earlier one.
   */
  lemma WrongHashAccepted(H: Hasher, leaves: seq<Entry>, annHashes: seq<Hash>, annIndexes: seq<nat>, i: nat, j: nat,
                          other: Hash)
    requires ValidLeaves(leaves) && |annHashes| == 4 && |annIndexes| == 4
    requires var anns := AnnIdxs(annIndexes, |leaves| - 1);
             forall m :: 0 <= m < 4 ==> annHashes[m] == leaves[anns[m]].hash
    requires i < j < 4 && annIndexes[i] == annIndexes[j] && other != annHashes[i]
    ensures var anns := AnnIdxs(annIndexes, |leaves| - 1);
            && annHashes[i := other][i] != leaves[anns[i]].hash
            && Check(H, annHashes[i := other], |leaves| - 1, annIndexes, ProofBytes(H, leaves, anns))
               == Some(RootHash(H, leaves))
  {
    hide *;
    LeafCount(leaves);
    ProofChecks(H, leaves, annHashes, annIndexes);
    EarlierHashIsIgnored(H, annHashes, |leaves| - 1, annIndexes,
                         ProofBytes(H, leaves, AnnIdxs(annIndexes, |leaves| - 1)), i, j, other);
  }
}
