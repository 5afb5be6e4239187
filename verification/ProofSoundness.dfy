/** An accepted proof binds the announcement hashes to the leaves of the tree with that root. */
module ProofSoundness {
  import opened Words
  import opened RangeTree
  import opened ProofTable
  import opened ProofCheck
  import opened TableWalk

  /** The last of the first `n` announcements with number `a`. */
  function LastSame(anns: seq<nat>, a: nat, n: nat): (j: nat)
    requires n <= |anns| && exists i :: 0 <= i < n && anns[i] == a
    ensures j < n && anns[j] == a
    ensures forall i :: j < i < n ==> anns[i] != a
  {
    if anns[n - 1] == a then n - 1 else LastSame(anns, a, n - 1)
  }

  lemma LeafSlot(anns: seq<nat>, count: nat, h: nat, s: seq<Slot>, t: seq<Cell>, i: nat)
    requires TableOk(anns, count, h, s, t) && i < |anns|
    ensures var x := Walk(t, h, anns[i], 0); x < |t| && |s| == |t| && s[x].d == 0 && s[x].k == anns[i]
  {
    WalkArrives(anns, count, h, s, t, i, 0);
  }

  /** The hash that ends up on an announcement's leaf is the last one supplied for it. */
  lemma {:induction false} HashAtLeaf(anns: seq<nat>, count: nat, h: nat, s: seq<Slot>, t: seq<Cell>,
                                      hashes: seq<Hash>, i: nat, n: nat)
    requires TableOk(anns, count, h, s, t) && i < n <= |anns| && n <= |hashes|
    ensures var x := Walk(t, h, anns[i], 0);
            x < |t| && PutHash(WithHashes(t, h, anns, hashes, n)[x], hashes[LastSame(anns, anns[i], n)])
                    == WithHashes(t, h, anns, hashes, n)[x]
  {
    hide TableOk, Walk, Shr;
    LeafSlot(anns, count, h, s, t, i);
    LeafSlot(anns, count, h, s, t, n - 1);
    if anns[n - 1] != anns[i] {
      HashAtLeaf(anns, count, h, s, t, hashes, i, n - 1);
    }
  }

  /** The two entries hashed together for node `k` of row `d + 1`. */
  function TreePair(H: Hasher, leaves: seq<Entry>, d: nat, k: nat): (Entry, Entry) {
    (Node(H, leaves, d, 2 * k), Node(H, leaves, d, 2 * k + 1))
  }

  /** No input hashed while checking the proof collides with a different one hashed in the tree. */
  ghost predicate NoCollision(H: Hasher, leaves: seq<Entry>, t: seq<Cell>) {
    && (forall x: nat, d: nat, k: nat :: Children(H, t, x).Some? ==>
          var (a, b) := Children(H, t, x).value;
          var (c, e) := TreePair(H, leaves, d, k);
          H([a, b]) == H([c, e]) ==> a == c && b == e)
    && (Eval(H, t, 0).Some? ==>
          var root := Node(H, leaves, Log2Ceil(if |leaves| == 0 then 1 else |leaves|), 0);
          H([Eval(H, t, 0).value]) == H([root]) ==> Eval(H, t, 0).value == root)
  }

  /** Which parts of a pair are the table's own values. */
  lemma ChildValues(H: Hasher, t: seq<Cell>, x: nat)
    requires Children(H, t, x).Some?
    ensures ChildrenInRange(t, x)
    ensures var l, r := t[x].childLeft, t[x].childRight;
            var (a, b) := Children(H, t, x).value;
            if t[l].flags.leaf then a.hash == t[l].e.hash && b.hash == t[r].e.hash
            else && (t[l].flags.computable ==> Eval(H, t, l) == Some(a))
                 && (t[r].flags.computable ==> Eval(H, t, r) == Some(b))
  {
    hide Eval;
  }

  /** What the check found for an entry is what the tree holds there. */
  ghost predicate Agrees(H: Hasher, leaves: seq<Entry>, s: seq<Slot>, t: seq<Cell>, y: nat)
    requires y < |s| == |t|
  {
    if s[y].d == 0 then t[y].e.hash == Node(H, leaves, 0, s[y].k).hash
    else Eval(H, t, y) == Some(Node(H, leaves, s[y].d, s[y].k))
  }

  /** If an inner entry agrees with the tree, so do those of its children that lead to announcements. */
  lemma AgreesBelow(H: Hasher, leaves: seq<Entry>, anns: seq<nat>, h: nat, s: seq<Slot>, t: seq<Cell>, x: nat, y: nat)
    requires NoCollision(H, leaves, t)
    requires TableOk(anns, |leaves|, h, s, t) && x < |s| && Inner(anns, s[x])
    requires Agrees(H, leaves, s, t, x)
    requires y == s[x].left || y == s[x].right
    ensures y < |s| && (Has(anns, s[y].d, s[y].k) ==> Agrees(H, leaves, s, t, y))
  {
    hide *;
    InnerIs(anns, s[x]);
    LinkOf(anns, |leaves|, h, s, t, x);
    TableParts(anns, |leaves|, h, s, t);
    var d, k := s[x].d - 1, s[x].k;
    var l, r := s[x].left, s[x].right;
    HasIsNotPad(anns, |leaves|, d + 1, k);
    ShapeOf(anns, |leaves|, h, s, t, x);
    ShapeOf(anns, |leaves|, h, s, t, l);
    ShapeOf(anns, |leaves|, h, s, t, r);
    CellFlags(anns, |leaves|, s[x], t[x]);
    CellFlags(anns, |leaves|, s[l], t[l]);
    CellFlags(anns, |leaves|, s[r], t[r]);
    AgreesMeans(H, leaves, s, t, x);
    AgreesMeans(H, leaves, s, t, y);
    HashedTogether(H, leaves, t, x, d, k);
    ChildValues(H, t, x);
  }

  lemma AgreesMeans(H: Hasher, leaves: seq<Entry>, s: seq<Slot>, t: seq<Cell>, y: nat)
    requires y < |s| == |t|
    ensures Agrees(H, leaves, s, t, y) <==>
              if s[y].d == 0 then t[y].e.hash == Node(H, leaves, 0, s[y].k).hash
              else Eval(H, t, y) == Some(Node(H, leaves, s[y].d, s[y].k))
  {
    hide Eval, Node;
  }

  /** An entry with the value of a tree node was hashed from that node's children. */
  lemma HashedTogether(H: Hasher, leaves: seq<Entry>, t: seq<Cell>, x: nat, d: nat, k: nat)
    requires NoCollision(H, leaves, t) && !IsPad(|leaves|, d + 1, k)
    requires Eval(H, t, x) == Some(Node(H, leaves, d + 1, k))
    ensures Children(H, t, x) == Some(TreePair(H, leaves, d, k))
    ensures TreePair(H, leaves, d, k) == (Node(H, leaves, d, 2 * k), Node(H, leaves, d, 2 * k + 1))
  {
    hide Eval, Children, Node, IsPad;
    NodeUnfolds(H, leaves, d, k);
    EvalOfChildren(H, t, x);
    assert TreePair(H, leaves, d, k) == (Node(H, leaves, d, 2 * k), Node(H, leaves, d, 2 * k + 1));
  }

  lemma WalkStep(anns: seq<nat>, count: nat, h: nat, s: seq<Slot>, t: seq<Cell>, i: nat, d: nat)
    requires TableOk(anns, count, h, s, t) && i < |anns| && d < h
    ensures var x, y := Walk(t, h, anns[i], d + 1), Walk(t, h, anns[i], d);
            && x < |s| && Inner(anns, s[x]) && (y == s[x].left || y == s[x].right)
            && y < |s| && Has(anns, s[y].d, s[y].k)
  {
    WalkArrives(anns, count, h, s, t, i, d);
    WalkArrives(anns, count, h, s, t, i, d + 1);
    HasAbove(anns, i, d + 1);
    HasAbove(anns, i, d);
    hide Has, IsPad;
    var p := Walk(t, h, anns[i], d + 1);
    assert ShapedAt(anns, count, s[p], t[p]);
  }

  /** Agreement at the root carries down to every announcement's leaf. */
  lemma {:induction false} AgreesAlongPath(H: Hasher, leaves: seq<Entry>, anns: seq<nat>, h: nat, s: seq<Slot>,
                                           t: seq<Cell>,
                                           i: nat, d: nat)
    requires NoCollision(H, leaves, t)
    requires TableOk(anns, |leaves|, h, s, t) && i < |anns| && d <= h
    requires Agrees(H, leaves, s, t, 0)
    ensures var x := Walk(t, h, anns[i], d); x < |s| && Agrees(H, leaves, s, t, x)
    decreases h - d
  {
    hide Has, IsPad, Agrees, NoCollision;
    if d < h {
      AgreesAlongPath(H, leaves, anns, h, s, t, i, d + 1);
      WalkStep(anns, |leaves|, h, s, t, i, d);
      hide TableOk, Inner, Walk;
      AgreesBelow(H, leaves, anns, h, s, t, Walk(t, h, anns[i], d + 1), Walk(t, h, anns[i], d));
    }
  }

  /** The table a proof is checked on. */
  lemma FilledTableOk(annHashes: seq<Hash>, totalAnns: nat, annIndexes: seq<nat>, proof: seq<u8>)
    returns (h: nat, s: seq<Slot>, t: seq<Cell>)
    requires |annHashes| == 4 && |annIndexes| == 4 && totalAnns >= 1
    requires FilledTable(annHashes, totalAnns, annIndexes, proof).Some?
    ensures h == Log2Ceil(totalAnns + 1) && t == FilledTable(annHashes, totalAnns, annIndexes, proof).value
    ensures TableOk(AnnIdxs(annIndexes, totalAnns), totalAnns + 1, h, s, t)
    ensures var anns := AnnIdxs(annIndexes, totalAnns);
            forall i :: 0 <= i < 4 ==>
              var x := Walk(t, h, anns[i], 0); x < |t| && t[x].e.hash == annHashes[LastSame(anns, anns[i], 4)]
  {
    var anns, count := AnnIdxs(annIndexes, totalAnns), totalAnns + 1;
    h, s := Log2Ceil(count), Slots(anns, count);
    var t0 := Table(anns, count);
    FreshTableIsOk(anns, count);
    hide Table, ReadFrom, Walk, WithHashes, Slots, LastSame;
    t := FilledTable(annHashes, totalAnns, annIndexes, proof).value;
    FillKeepsShape(anns, count, h, s, t0, annHashes, proof);
    hide TableOk;
    forall i | 0 <= i < 4
      ensures var x := Walk(t, h, anns[i], 0); x < |t| && t[x].e.hash == annHashes[LastSame(anns, anns[i], 4)]
    {
      FilledLeaf(anns, count, h, s, t0, annHashes, proof, i);
    }
  }

  /** Filling a table leaves its shape and the hashes it already has. */
  lemma FillKeepsShape(anns: seq<nat>, count: nat, h: nat, s: seq<Slot>, t: seq<Cell>, hashes: seq<Hash>,
                       proof: seq<u8>)
    requires TableOk(anns, count, h, s, t) && |anns| == |hashes|
    requires ReadFrom(WithHashes(t, h, anns, hashes, |anns|), 0, proof).Some?
    ensures var u := WithHashes(t, h, anns, hashes, |anns|);
            var r := ReadFrom(u, 0, proof).value;
            && TableOk(anns, count, h, s, r)
            && forall x :: 0 <= x < |u| && u[x].flags.hasHash ==> r[x].e.hash == u[x].e.hash
  {
    hide Linked, ShapedAt, WithHashes, ReadFrom;
    var u := WithHashes(t, h, anns, hashes, |anns|);
    WithHashesShaped(anns, count, s, t, h, hashes, |anns|);
    ReadFromShaped(anns, count, s, u, 0, proof);
  }

  lemma FilledLeaf(anns: seq<nat>, count: nat, h: nat, s: seq<Slot>, t: seq<Cell>, hashes: seq<Hash>, proof: seq<u8>,
                   i: nat)
    requires TableOk(anns, count, h, s, t) && |anns| == |hashes| && i < |anns|
    requires ReadFrom(WithHashes(t, h, anns, hashes, |anns|), 0, proof).Some?
    ensures var r := ReadFrom(WithHashes(t, h, anns, hashes, |anns|), 0, proof).value;
            var x := Walk(r, h, anns[i], 0);
            x < |r| && r[x].e.hash == hashes[LastSame(anns, anns[i], |anns|)]
  {
    FillKeepsShape(anns, count, h, s, t, hashes, proof);
    LeafSlot(anns, count, h, s, t, i);
    HashAtLeaf(anns, count, h, s, t, hashes, i, |anns|);
    var r := ReadFrom(WithHashes(t, h, anns, hashes, |anns|), 0, proof).value;
    hide Linked, ShapedAt, WithHashes, ReadFrom, Walk, LastSame;
    WalkSame(anns, count, h, s, t, r, anns[i], 0);
  }

  /**
   * Whatever the proof bytes are, an accepted proof with the tree's root hash forces the hash that
   * ends up on each announcement's leaf to be the tree's.
   */
  lemma AcceptedProofBindsLeaves(H: Hasher, leaves: seq<Entry>, annHashes: seq<Hash>, annIndexes: seq<nat>,
                                 proof: seq<u8>)
    requires |annHashes| == 4 && |annIndexes| == 4 && |leaves| >= 2
    requires Check(H, annHashes, |leaves| - 1, annIndexes, proof) == Some(RootHash(H, leaves))
    requires NoCollision(H, leaves, FilledTable(annHashes, |leaves| - 1, annIndexes, proof).value)
    ensures var anns := AnnIdxs(annIndexes, |leaves| - 1);
            forall i :: 0 <= i < 4 ==> annHashes[LastSame(anns, anns[i], 4)] == leaves[anns[i]].hash
  {
    hide TableOk, Walk, FilledTable, LastSame;
    var anns := AnnIdxs(annIndexes, |leaves| - 1);
    RootAgrees(H, leaves, annHashes, annIndexes, proof);
    var h, s, t := FilledTableOk(annHashes, |leaves| - 1, annIndexes, proof);
    hide NoCollision, Check;
    forall i | 0 <= i < 4
      ensures annHashes[LastSame(anns, anns[i], 4)] == leaves[anns[i]].hash
    {
      RootSlot(anns, |leaves|, h, s, t);
      assert Agrees(H, leaves, s, t, 0);
      AgreesAlongPath(H, leaves, anns, h, s, t, i, 0);
      WalkArrives(anns, |leaves|, h, s, t, i, 0);
      LeafNode(H, leaves, anns[i]);
    }
  }

  lemma LeafNode(H: Hasher, leaves: seq<Entry>, a: nat)
    requires a < |leaves|
    ensures Shr(a, 0) == a && Node(H, leaves, 0, a) == leaves[a]
  {
  }

  lemma RootSlot(anns: seq<nat>, count: nat, h: nat, s: seq<Slot>, t: seq<Cell>)
    requires TableOk(anns, count, h, s, t)
    ensures |s| == |t| && |s| > 0 && s[0].d == h && s[0].k == 0
  {
  }

  lemma RootAgrees(H: Hasher, leaves: seq<Entry>, annHashes: seq<Hash>, annIndexes: seq<nat>, proof: seq<u8>)
    requires |annHashes| == 4 && |annIndexes| == 4 && |leaves| >= 2
    requires Check(H, annHashes, |leaves| - 1, annIndexes, proof) == Some(RootHash(H, leaves))
    requires NoCollision(H, leaves, FilledTable(annHashes, |leaves| - 1, annIndexes, proof).value)
    ensures FilledTable(annHashes, |leaves| - 1, annIndexes, proof).Some?
    ensures Log2Ceil(|leaves|) > 0
    ensures Eval(H, FilledTable(annHashes, |leaves| - 1, annIndexes, proof).value, 0)
         == Some(Node(H, leaves, Log2Ceil(|leaves|), 0))
  {
    hide FilledTable, Eval, Node, Children;
  }

  /**
   * So an accepted proof vouches for all four hashes exactly when announcements with the same number
   * were given the same hash.
   */
  lemma AcceptedProofIsSoundIff(H: Hasher, leaves: seq<Entry>, annHashes: seq<Hash>, annIndexes: seq<nat>,
                                proof: seq<u8>)
    requires |annHashes| == 4 && |annIndexes| == 4 && |leaves| >= 2
    requires Check(H, annHashes, |leaves| - 1, annIndexes, proof) == Some(RootHash(H, leaves))
    requires NoCollision(H, leaves, FilledTable(annHashes, |leaves| - 1, annIndexes, proof).value)
    ensures var anns := AnnIdxs(annIndexes, |leaves| - 1);
            (forall i :: 0 <= i < 4 ==> annHashes[i] == leaves[anns[i]].hash)
            <==> (forall i, j :: 0 <= i < j < 4 && anns[i] == anns[j] ==> annHashes[i] == annHashes[j])
  {
    AcceptedProofBindsLeaves(H, leaves, annHashes, annIndexes, proof);
  }

  /**
   * Without that condition it need not: of two hashes supplied for the same announcement number the
   * earlier one plays no part in the check at all.
   */
  lemma EarlierHashIsIgnored(H: Hasher, annHashes: seq<Hash>, totalAnns: nat, annIndexes: seq<nat>, proof: seq<u8>,
                             i: nat, j: nat, other: Hash)
    requires |annHashes| == 4 && |annIndexes| == 4 && totalAnns >= 1
    requires i < j < 4 && Reduced(annIndexes[i], totalAnns) == Reduced(annIndexes[j], totalAnns)
    ensures Check(H, annHashes[i := other], totalAnns, annIndexes, proof)
            == Check(H, annHashes, totalAnns, annIndexes, proof)
  {
    var anns := AnnIdxs(annIndexes, totalAnns);
    Overwritten(Table(anns, totalAnns + 1), Log2Ceil(totalAnns + 1), anns, annHashes, i, j, other, 4);
  }

  lemma {:induction false} Overwritten(t: seq<Cell>, h: nat, anns: seq<nat>, hashes: seq<Hash>, i: nat, j: nat,
                                       other: Hash, n: nat)
    requires n <= |anns| == |hashes| && i < j < |anns| && anns[i] == anns[j]
    ensures var u, v := WithHashes(t, h, anns, hashes, n), WithHashes(t, h, anns, hashes[i := other], n);
            var x := Walk(t, h, anns[i], 0);
            && (n <= i || n > j ==> u == v)
            && (x < |t| ==> v == u[x := u[x].(e := u[x].e.(hash := v[x].e.hash))])
            && (x >= |t| ==> u == v)
  {
    if n > 0 {
      Overwritten(t, h, anns, hashes, i, j, other, n - 1);
      hide Walk;
      var x, y := Walk(t, h, anns[i], 0), Walk(t, h, anns[n - 1], 0);
    }
  }
}
