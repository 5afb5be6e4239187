/**
 * The announcement Merkle tree (AnnMerkle.c): building it level after level in one buffer, taking an
 * item's branch out of it, and checking a branch against its root.
 */
module AnnMerkle {
  import opened Words
  import opened CycleState
  import opened CryptoCycle

  type Hash64 = seq<byte> -> Block

  // ---------- the tree ----------

  function Pair(h: Hash64, a: seq<byte>, b: seq<byte>): Block { h(a + b) }

  /** The root of a tree over the given items, half of them on each side. */
  function Subtree(h: Hash64, items: seq<seq<byte>>): Block
    requires |items| > 0
    decreases |items|
  {
    var half := |items| / 2;
    if half == 0 then h(items[0]) else Pair(h, Subtree(h, items[..half]), Subtree(h, items[half..]))
  }

  /** Node `i` of level `d`; level 0 holds the hashes of the items. */
  function Node(h: Hash64, items: seq<seq<byte>>, d: nat, i: nat): Block
    requires (i + 1) * Pow2(d) <= |items|
  {
    Span(i, Pow2(d));
    Subtree(h, items[i * Pow2(d)..(i + 1) * Pow2(d)])
  }

  lemma Span(i: nat, p: nat)
    ensures 0 <= i * p && (i + 1) * p == i * p + p
  {
  }

  /** A node is the hash of the two nodes below it. */
  lemma NodeSplits(h: Hash64, items: seq<seq<byte>>, d: nat, i: nat)
    requires d > 0 && (i + 1) * Pow2(d) <= |items|
    ensures (2 * i + 1) * Pow2(d - 1) <= |items| && (2 * i + 2) * Pow2(d - 1) <= |items|
    ensures Node(h, items, d, i) == Pair(h, Node(h, items, d - 1, 2 * i), Node(h, items, d - 1, 2 * i + 1))
  {
    ChildrenFit(i, d, |items|);
    var p := Pow2(d - 1);
    assert Pow2(d) == 2 * p;
    DoubleFactor(i, p);
    DoubleFactor(i + 1, p);
    Span(i, 2 * p);
    Span(2 * i, p);
    Span(2 * i + 1, p);
    HalvesOf(items, i * (2 * p), p);
  }

  lemma HalvesOf(items: seq<seq<byte>>, at: nat, p: nat)
    requires at + 2 * p <= |items|
    ensures var s := items[at..at + 2 * p];
            |s| / 2 == p && s[..p] == items[at..at + p] && s[p..] == items[at + p..at + 2 * p]
  {
  }

  lemma ChildrenFit(i: nat, d: nat, n: nat)
    requires d > 0 && (i + 1) * Pow2(d) <= n
    ensures (2 * i + 1) * Pow2(d - 1) <= n && (2 * i + 2) * Pow2(d - 1) <= n
  {
    DoubleFactor(i + 1, Pow2(d - 1));
    MulMonotone(2 * i + 1, 2 * i + 2, Pow2(d - 1));
  }

  /** Where level `d` starts in the buffer of a tree of the given depth. */
  function LevelAt(depth: nat, d: nat): nat
    requires d <= depth + 1
  {
    if d == 0 then 0 else LevelAt(depth, d - 1) + Pow2(depth - (d - 1))
  }

  lemma {:induction false} LevelStarts(depth: nat, d: nat)
    requires d <= depth + 1
    ensures d <= depth ==> LevelAt(depth, d) == 2 * Pow2(depth) - 2 * Pow2(depth - d)
    ensures d == depth + 1 ==> LevelAt(depth, d) == 2 * Pow2(depth) - 1
  {
    if d > 0 {
      LevelStarts(depth, d - 1);
    }
  }

  lemma NodesFit(depth: nat, d: nat, i: nat)
    requires d <= depth && i < Pow2(depth - d)
    ensures (i + 1) * Pow2(d) <= Pow2(depth)
  {
    Pow2Adds(depth - d, d);
    MulMonotone(i + 1, Pow2(depth - d), Pow2(d));
  }

  /** The buffer holds the whole tree. */
  ghost predicate HoldsTree(out: seq<Block>, h: Hash64, items: seq<seq<byte>>, depth: nat) {
    && |items| == Pow2(depth) && |out| == 2 * Pow2(depth) - 1
    && HoldsBelow(out, h, items, depth, depth + 1)
  }

  ghost predicate FullLevel(out: seq<Block>, h: Hash64, items: seq<seq<byte>>, depth: nat, d: nat)
    requires |items| == Pow2(depth)
  {
    d <= depth && HoldsLevel(out, h, items, depth, d, Pow2(depth - d))
  }

  /** The levels below `m` are in place. */
  ghost predicate HoldsBelow(out: seq<Block>, h: Hash64, items: seq<seq<byte>>, depth: nat, m: nat)
    requires |items| == Pow2(depth)
  {
    forall d :: 0 <= d < m ==> FullLevel(out, h, items, depth, d)
  }

  /** The first `n` nodes of level `d` are in place. */
  ghost predicate HoldsLevel(out: seq<Block>, h: Hash64, items: seq<seq<byte>>, depth: nat, d: nat, n: nat)
    requires |items| == Pow2(depth)
  {
    && d <= depth && n <= Pow2(depth - d) && LevelAt(depth, d) + n <= |out|
    && forall i :: 0 <= i < n ==> NodeInPlace(out, h, items, depth, d, i)
  }

  ghost predicate NodeInPlace(out: seq<Block>, h: Hash64, items: seq<seq<byte>>, depth: nat, d: nat, i: nat)
    requires |items| == Pow2(depth) && d <= depth && i < Pow2(depth - d) && LevelAt(depth, d) + i < |out|
  {
    NodesFit(depth, d, i);
    out[LevelAt(depth, d) + i] == Node(h, items, d, i)
  }

  /** AnnMerkle__build. */
  method Build(h: Hash64, depth: nat, out: array<Block>, table: seq<seq<byte>>)
    requires |table| == Pow2(depth) && out.Length == 2 * Pow2(depth) - 1
    modifies out
    ensures HoldsTree(out[..], h, table, depth)
  {
    var odx := 0;
    LevelStarts(depth, 0);
    for i := 0 to Pow2(depth)
      invariant odx == i && HoldsLevel(out[..], h, table, depth, 0, i)
    {
      ghost var before := out[..];
      out[odx] := h(table[odx]);
      LeafNode(h, table, i);
      OneMore(before, out[..], h, table, depth, 0, i);
      odx := odx + 1;
    }
    var idx := 0;
    ghost var level := 0;
    var d: int := depth - 1;
    while d >= 0
      invariant -1 <= d < depth && level == depth - 1 - d
      invariant idx == LevelAt(depth, level) && odx == LevelAt(depth, level + 1)
      invariant HoldsBelow(out[..], h, table, depth, level + 1)
    {
      idx, odx := BuildLevel(h, depth, out, table, d, idx, odx);
      d := d - 1;
      level := level + 1;
    }
    LevelStarts(depth, depth);
    LevelStarts(depth, depth + 1);
    assert odx == 2 * Pow2(depth) - 1;
    assert idx == odx - 1;
  }

  /** One level above another: each node is the hash of the two below it. */
  method BuildLevel(h: Hash64, depth: nat, out: array<Block>, table: seq<seq<byte>>, d: nat, idx0: nat, odx0: nat)
    returns (idx: nat, odx: nat)
    requires |table| == Pow2(depth) && out.Length == 2 * Pow2(depth) - 1 && d < depth
    requires var level := depth - 1 - d;
             && idx0 == LevelAt(depth, level) && odx0 == LevelAt(depth, level + 1)
             && HoldsBelow(out[..], h, table, depth, level + 1)
    modifies out
    ensures var level := depth - d;
            && idx == LevelAt(depth, level) && odx == LevelAt(depth, level + 1)
            && HoldsBelow(out[..], h, table, depth, level + 1)
  {
    ghost var level := depth - d;
    LevelStarts(depth, level);
    LevelStarts(depth, level - 1);
    hide Node, LevelAt, FullLevel, HoldsBelow, Pow2;
    idx, odx := idx0, odx0;
    for i := 0 to Pow2(d)
      invariant idx == idx0 + 2 * i && odx == odx0 + i
      invariant HoldsBelow(out[..], h, table, depth, level)
      invariant HoldsLevel(out[..], h, table, depth, level, i)
    {
      ghost var before := out[..];
      Children(before, h, table, depth, level, i);
      hide Pair;
      out[odx] := Pair(h, out[idx], out[idx + 1]);
      OneMore(before, out[..], h, table, depth, level, i);
      LevelsBelow(before, out[..], h, table, depth, level, i);
      odx := odx + 1;
      idx := idx + 2;
    }
  }

  lemma OneMore(before: seq<Block>, out: seq<Block>, h: Hash64, items: seq<seq<byte>>, depth: nat, d: nat, n: nat)
    requires |items| == Pow2(depth) && d <= depth && n < Pow2(depth - d) && LevelAt(depth, d) + n < |out| == |before|
    requires HoldsLevel(before, h, items, depth, d, n)
    requires NodeInPlace(out, h, items, depth, d, n)
    requires out == before[LevelAt(depth, d) + n := out[LevelAt(depth, d) + n]]
    ensures HoldsLevel(out, h, items, depth, d, n + 1)
  {
    hide Node, LevelAt;
    forall i | 0 <= i < n ensures NodeInPlace(out, h, items, depth, d, i) {
      assert NodeInPlace(before, h, items, depth, d, i);
    }
  }

  /** Writing node `n` of level `d` leaves the levels below it as they are. */
  lemma LevelsBelow(before: seq<Block>, out: seq<Block>, h: Hash64, items: seq<seq<byte>>, depth: nat, d: nat, n: nat)
    requires |items| == Pow2(depth) && d <= depth && LevelAt(depth, d) + n < |out| == |before|
    requires HoldsBelow(before, h, items, depth, d)
    requires out == before[LevelAt(depth, d) + n := out[LevelAt(depth, d) + n]]
    ensures HoldsBelow(out, h, items, depth, d)
  {
    hide Node, LevelAt, HoldsLevel;
    forall k | 0 <= k < d ensures FullLevel(out, h, items, depth, k) {
      LevelKept(before, out, h, items, depth, k, d, n);
    }
  }

  lemma LevelKept(before: seq<Block>, out: seq<Block>, h: Hash64, items: seq<seq<byte>>, depth: nat, k: nat, d: nat,
                  n: nat)
    requires |items| == Pow2(depth) && k < d <= depth && LevelAt(depth, d) + n < |out| == |before|
    requires FullLevel(before, h, items, depth, k)
    requires out == before[LevelAt(depth, d) + n := out[LevelAt(depth, d) + n]]
    ensures FullLevel(out, h, items, depth, k)
  {
    LevelsOrdered(depth, k, d);
    hide Node, LevelAt;
    forall i | 0 <= i < Pow2(depth - k) ensures NodeInPlace(out, h, items, depth, k, i) {
      assert NodeInPlace(before, h, items, depth, k, i);
    }
  }

  lemma {:induction false} LevelsOrdered(depth: nat, k: nat, d: nat)
    requires k < d <= depth + 1
    ensures LevelAt(depth, k) + Pow2(depth - k) <= LevelAt(depth, d)
  {
    if k + 1 < d {
      LevelsOrdered(depth, k, d - 1);
    }
  }

  /** The two nodes below node `i` of level `d` are in place, and their hash is that node. */
  lemma Children(out: seq<Block>, h: Hash64, items: seq<seq<byte>>, depth: nat, d: nat, i: nat)
    requires |items| == Pow2(depth) && 0 < d <= depth && i < Pow2(depth - d) && |out| == 2 * Pow2(depth) - 1
    requires FullLevel(out, h, items, depth, d - 1)
    ensures var at := LevelAt(depth, d - 1) + 2 * i;
            && at + 1 < |out| && LevelAt(depth, d) + i < |out| && (i + 1) * Pow2(d) <= |items|
            && Pair(h, out[at], out[at + 1]) == Node(h, items, d, i)
  {
    NodesFit(depth, d, i);
    NodeSplits(h, items, d, i);
    LevelStarts(depth, d);
    LevelStarts(depth, d + 1);
    hide Node;
    assert Pow2(depth - (d - 1)) == 2 * Pow2(depth - d);
    assert NodeInPlace(out, h, items, depth, d - 1, 2 * i);
    assert NodeInPlace(out, h, items, depth, d - 1, 2 * i + 1);
  }

  // ---------- branches ----------

  function Sibling(i: nat): nat { if i % 2 == 0 then i + 1 else i - 1 }

  lemma PathFits(depth: nat, itemNo: nat, d: nat)
    requires itemNo < Pow2(depth) && d <= depth
    ensures Shr(itemNo, d) < Pow2(depth - d)
    ensures d < depth ==> Sibling(Shr(itemNo, d)) < Pow2(depth - d)
  {
    ShrBounds(itemNo, d);
    Pow2Adds(depth - d, d);
    if Shr(itemNo, d) >= Pow2(depth - d) {
      MulMonotone(Pow2(depth - d), Shr(itemNo, d), Pow2(d));
    }
    if d < depth {
      assert Pow2(depth - d) == 2 * Pow2(depth - d - 1);
    }
  }

  /** The node at level `d` above the item, and the one beside it. */
  function OnPath(h: Hash64, items: seq<seq<byte>>, depth: nat, itemNo: nat, d: nat): Block
    requires |items| == Pow2(depth) && itemNo < Pow2(depth) && d <= depth
  {
    PathFits(depth, itemNo, d);
    NodesFit(depth, d, Shr(itemNo, d));
    Node(h, items, d, Shr(itemNo, d))
  }

  function Beside(h: Hash64, items: seq<seq<byte>>, depth: nat, itemNo: nat, d: nat): Block
    requires |items| == Pow2(depth) && itemNo < Pow2(depth) && d < depth
  {
    PathFits(depth, itemNo, d);
    NodesFit(depth, d, Sibling(Shr(itemNo, d)));
    Node(h, items, d, Sibling(Shr(itemNo, d)))
  }

  function Root(h: Hash64, items: seq<seq<byte>>, depth: nat): Block
    requires |items| == Pow2(depth)
  {
    Subtree(h, items)
  }

  lemma RootIsNode(h: Hash64, items: seq<seq<byte>>, depth: nat)
    requires |items| == Pow2(depth)
    ensures (0 + 1) * Pow2(depth) <= |items| && Node(h, items, depth, 0) == Root(h, items, depth)
  {
    assert items[0..|items|] == items;
  }

  /** An item's branch: the siblings on the way up, then the root. */
  function Branch(h: Hash64, items: seq<seq<byte>>, depth: nat, itemNo: nat): (b: seq<Block>)
    requires |items| == Pow2(depth) && itemNo < Pow2(depth)
    ensures |b| == depth + 1
  {
    seq(depth, d requires 0 <= d < depth => Beside(h, items, depth, itemNo, d)) + [Root(h, items, depth)]
  }

  /** The pair of hashes put together at level `d`: the one below it on the path goes left or right. */
  function Joined(itemNo: nat, d: nat, below: Block, side: Block): seq<byte> {
    if Shr(itemNo, d) % 2 == 0 then below + side else side + below
  }

  /** Climbing from an item hash with the siblings on its way. */
  function Climb(h: Hash64, sides: seq<Block>, itemHash: Block, itemNo: nat): Block {
    if |sides| == 0 then itemHash
    else
      var d := |sides| - 1;
      h(Joined(itemNo, d, Climb(h, sides[..d], itemHash, itemNo), sides[d]))
  }

  predicate Valid(h: Hash64, depth: nat, branch: seq<Block>, itemHash: Block, itemNo: nat)
    requires |branch| == depth + 1
  {
    Climb(h, branch[..depth], itemHash, itemNo) == branch[depth]
  }

  lemma ClimbStep(h: Hash64, branch: seq<Block>, itemHash: Block, itemNo: nat, d: nat)
    requires d < |branch|
    ensures Climb(h, branch[..d + 1], itemHash, itemNo)
            == h(Joined(itemNo, d, Climb(h, branch[..d], itemHash, itemNo), branch[d]))
  {
    assert branch[..d + 1][..d] == branch[..d];
  }

  /** A node on the path is the hash of the node below it on the path and that one's sibling. */
  lemma PathStep(h: Hash64, items: seq<seq<byte>>, depth: nat, itemNo: nat, d: nat)
    requires |items| == Pow2(depth) && itemNo < Pow2(depth) && d < depth
    ensures OnPath(h, items, depth, itemNo, d + 1)
         == h(Joined(itemNo, d, OnPath(h, items, depth, itemNo, d), Beside(h, items, depth, itemNo, d)))
  {
    hide Node, Pow2, Pair;
    PathFits(depth, itemNo, d);
    PathFits(depth, itemNo, d + 1);
    NodesFit(depth, d + 1, Shr(itemNo, d + 1));
    NodeSplits(h, items, d + 1, Shr(itemNo, d + 1));
    ParentOf(Shr(itemNo, d));
    var a, b := Node(h, items, d, 2 * Shr(itemNo, d + 1)), Node(h, items, d, 2 * Shr(itemNo, d + 1) + 1);
    PairIs(h, a, b);
  }

  lemma ParentOf(i: nat)
    ensures if i % 2 == 0 then i == 2 * (i / 2) && Sibling(i) == 2 * (i / 2) + 1
            else i == 2 * (i / 2) + 1 && Sibling(i) == 2 * (i / 2)
  {
  }

  lemma PairIs(h: Hash64, a: seq<byte>, b: seq<byte>)
    ensures Pair(h, a, b) == h(a + b)
  {
  }

  /** Climbing from the true item hash with the true siblings stays on the path. */
  lemma {:induction false} ClimbIsPath(h: Hash64, items: seq<seq<byte>>, depth: nat, itemNo: nat, d: nat)
    requires |items| == Pow2(depth) && itemNo < Pow2(depth) && d <= depth
    ensures Climb(h, Branch(h, items, depth, itemNo)[..d], h(items[itemNo]), itemNo)
            == OnPath(h, items, depth, itemNo, d)
  {
    if d > 0 {
      ClimbIsPath(h, items, depth, itemNo, d - 1);
      PathStep(h, items, depth, itemNo, d - 1);
      ClimbStep(h, Branch(h, items, depth, itemNo), h(items[itemNo]), itemNo, d - 1);
      hide OnPath, Beside, Climb;
      assert Branch(h, items, depth, itemNo)[d - 1] == Beside(h, items, depth, itemNo, d - 1);
    } else {
      LeafIsHash(h, items, depth, itemNo);
    }
  }

  lemma LeafIsHash(h: Hash64, items: seq<seq<byte>>, depth: nat, itemNo: nat)
    requires |items| == Pow2(depth) && itemNo < Pow2(depth)
    ensures OnPath(h, items, depth, itemNo, 0) == h(items[itemNo])
  {
    LeafNode(h, items, itemNo);
  }

  lemma LeafNode(h: Hash64, items: seq<seq<byte>>, i: nat)
    requires i < |items|
    ensures (i + 1) * Pow2(0) <= |items| && Node(h, items, 0, i) == h(items[i])
  {
    assert i * 1 == i && (i + 1) * 1 == i + 1;
    assert items[i..i + 1] == [items[i]];
  }

  lemma TopIsRoot(h: Hash64, items: seq<seq<byte>>, depth: nat, itemNo: nat)
    requires |items| == Pow2(depth) && itemNo < Pow2(depth)
    ensures OnPath(h, items, depth, itemNo, depth) == Root(h, items, depth)
  {
    ShrZero(itemNo, depth);
    RootIsNode(h, items, depth);
  }

  /** Every item's own branch is valid. */
  lemma OwnBranchIsValid(h: Hash64, items: seq<seq<byte>>, depth: nat, itemNo: nat)
    requires |items| == Pow2(depth) && itemNo < Pow2(depth)
    ensures Valid(h, depth, Branch(h, items, depth, itemNo), h(items[itemNo]), itemNo)
  {
    ClimbIsPath(h, items, depth, itemNo, depth);
    TopIsRoot(h, items, depth, itemNo);
    hide OnPath, Climb, Root;
  }

  /** What is hashed for level `d + 1` when a branch is checked. */
  function Checked(h: Hash64, branch: seq<Block>, itemHash: Block, itemNo: nat, d: nat): seq<byte>
    requires d + 1 < |branch|
  {
    Joined(itemNo, d, Climb(h, branch[..d], itemHash, itemNo), branch[d])
  }

  /** No input hashed in checking the branch collides with the one hashed there in building the tree. */
  ghost predicate NoCollision(h: Hash64, items: seq<seq<byte>>, depth: nat, branch: seq<Block>, itemHash: Block,
                              itemNo: nat)
    requires |items| == Pow2(depth) && itemNo < Pow2(depth) && |branch| == depth + 1
  {
    forall d :: 0 <= d < depth ==>
      var x := Checked(h, branch, itemHash, itemNo, d);
      var y := Checked(h, Branch(h, items, depth, itemNo), h(items[itemNo]), itemNo, d);
      h(x) == h(y) ==> x == y
  }

  lemma {:induction false} Unwind(h: Hash64, items: seq<seq<byte>>, depth: nat, itemNo: nat, branch: seq<Block>,
                                  itemHash: Block, d: nat)
    requires |items| == Pow2(depth) && itemNo < Pow2(depth) && |branch| == depth + 1 && d <= depth
    requires NoCollision(h, items, depth, branch, itemHash, itemNo)
    requires Climb(h, branch[..d], itemHash, itemNo)
             == Climb(h, Branch(h, items, depth, itemNo)[..d], h(items[itemNo]), itemNo)
    ensures itemHash == h(items[itemNo]) && forall k :: 0 <= k < d ==> branch[k] == Branch(h, items, depth, itemNo)[k]
  {
    hide Branch;
    if d > 0 {
      var own := Branch(h, items, depth, itemNo);
      var a, b := Climb(h, branch[..d - 1], itemHash, itemNo), Climb(h, own[..d - 1], h(items[itemNo]), itemNo);
      ClimbStep(h, branch, itemHash, itemNo, d - 1);
      ClimbStep(h, own, h(items[itemNo]), itemNo, d - 1);
      assert Checked(h, branch, itemHash, itemNo, d - 1) == Checked(h, own, h(items[itemNo]), itemNo, d - 1);
      HalvesEqual(itemNo, d - 1, a, branch[d - 1], b, own[d - 1]);
      Unwind(h, items, depth, itemNo, branch, itemHash, d - 1);
    }
  }

  lemma HalvesEqual(itemNo: nat, d: nat, a: Block, x: Block, b: Block, y: Block)
    requires Joined(itemNo, d, a, x) == Joined(itemNo, d, b, y)
    ensures a == b && x == y
  {
    var s, t := Joined(itemNo, d, a, x), Joined(itemNo, d, b, y);
    assert s[..64] == t[..64] && s[64..] == t[64..];
    if Shr(itemNo, d) % 2 == 0 {
      assert (a + x)[..64] == a && (a + x)[64..] == x && (b + y)[..64] == b && (b + y)[64..] == y;
    } else {
      assert (x + a)[..64] == x && (x + a)[64..] == a && (y + b)[..64] == y && (y + b)[64..] == b;
    }
  }

  /**
   * Against the root of a tree, and short of a hash collision, the only branch and item hash that
   * pass at a position are the true ones.
   */
  lemma OnlyTheTrueLeafPasses(h: Hash64, items: seq<seq<byte>>, depth: nat, itemNo: nat, branch: seq<Block>,
                              itemHash: Block)
    requires |items| == Pow2(depth) && itemNo < Pow2(depth) && |branch| == depth + 1
    requires branch[depth] == Root(h, items, depth) && NoCollision(h, items, depth, branch, itemHash, itemNo)
    ensures Valid(h, depth, branch, itemHash, itemNo)
        <==> itemHash == h(items[itemNo]) && branch == Branch(h, items, depth, itemNo)
  {
    var own := Branch(h, items, depth, itemNo);
    OwnBranchIsValid(h, items, depth, itemNo);
    assert own[depth] == Root(h, items, depth);
    hide Branch, Root, NoCollision;
    if Valid(h, depth, branch, itemHash, itemNo) {
      Unwind(h, items, depth, itemNo, branch, itemHash, depth);
      assert branch == own;
    }
  }

  /** AnnMerkle__isItemValid: two cells, the path hash in the one its parity names. */
  method IsItemValid(h: Hash64, depth: nat, merkleBranch: seq<Block>, itemHash: Block, itemNo: nat) returns (ok: bool)
    requires |merkleBranch| == depth + 1
    ensures ok <==> Valid(h, depth, merkleBranch, itemHash, itemNo)
  {
    var no := itemNo;
    var b: seq<Block> := [itemHash, itemHash];
    for i := 0 to depth
      invariant |b| == 2 && no == Shr(itemNo, i) && b[no % 2] == Climb(h, merkleBranch[..i], itemHash, itemNo)
    {
      b := b[1 - no % 2 := merkleBranch[i]];
      var left: seq<byte>, right: seq<byte> := b[0], b[1];
      var joined := left + right;
      assert joined == Joined(itemNo, i, Climb(h, merkleBranch[..i], itemHash, itemNo), merkleBranch[i]);
      ClimbStep(h, merkleBranch, itemHash, itemNo, i);
      no := no / 2;
      b := b[no % 2 := h(joined)];
    }
    ok := b[no % 2] == merkleBranch[depth];
  }

  /** AnnMerkle__getBranch, ending with its own check. */
  method GetBranch(h: Hash64, depth: nat, itemNo: nat, merkle: array<Block>, ghost items: seq<seq<byte>>)
    returns (out: seq<Block>)
    requires |items| == Pow2(depth) && itemNo < Pow2(depth) && HoldsTree(merkle[..], h, items, depth)
    ensures out == Branch(h, items, depth, itemNo)
  {
    hide Node, HoldsBelow;
    var ino, idx, o := itemNo, 0, depth;
    out := [];
    ghost var all := Branch(h, items, depth, itemNo);
    while o > 0
      invariant 0 <= o <= depth && ino == Shr(itemNo, depth - o) && idx == LevelAt(depth, depth - o)
      invariant |out| == depth - o && forall d :: 0 <= d < |out| ==> out[d] == all[d]
    {
      TreeCell(merkle[..], h, items, depth, itemNo, depth - o);
      out := out + [merkle[idx + Sibling(ino)]];
      idx := idx + Pow2(o);
      ino := ino / 2;
      o := o - 1;
    }
    LevelStarts(depth, depth);
    RootCell(merkle[..], h, items, depth);
    assert idx == 2 * Pow2(depth) - 2;
    out := out + [merkle[idx]];
    assert out == all;
    RootCell(merkle[..], h, items, depth);
    LeafCell(merkle[..], h, items, depth, itemNo);
    OwnBranchIsValid(h, items, depth, itemNo);
    var ok := IsItemValid(h, depth, out, merkle[itemNo], itemNo);
    assert ok;
  }

  lemma TreeCell(out: seq<Block>, h: Hash64, items: seq<seq<byte>>, depth: nat, itemNo: nat, d: nat)
    requires |items| == Pow2(depth) && itemNo < Pow2(depth) && HoldsTree(out, h, items, depth) && d < depth
    ensures LevelAt(depth, d) + Sibling(Shr(itemNo, d)) < |out|
    ensures out[LevelAt(depth, d) + Sibling(Shr(itemNo, d))] == Beside(h, items, depth, itemNo, d)
  {
    hide Node, Shr;
    PathFits(depth, itemNo, d);
    assert FullLevel(out, h, items, depth, d);
    assert NodeInPlace(out, h, items, depth, d, Sibling(Shr(itemNo, d)));
  }

  lemma RootCell(out: seq<Block>, h: Hash64, items: seq<seq<byte>>, depth: nat)
    requires |items| == Pow2(depth) && HoldsTree(out, h, items, depth)
    ensures LevelAt(depth, depth) < |out| && out[LevelAt(depth, depth)] == Root(h, items, depth)
  {
    RootIsNode(h, items, depth);
    hide Node, Root;
    assert FullLevel(out, h, items, depth, depth);
    assert NodeInPlace(out, h, items, depth, depth, 0);
  }

  lemma LeafCell(out: seq<Block>, h: Hash64, items: seq<seq<byte>>, depth: nat, itemNo: nat)
    requires |items| == Pow2(depth) && itemNo < Pow2(depth) && HoldsTree(out, h, items, depth)
    ensures itemNo < |out| && out[itemNo] == h(items[itemNo])
  {
    LeafNode(h, items, itemNo);
    hide Node;
    assert FullLevel(out, h, items, depth, 0);
    assert NodeInPlace(out, h, items, depth, 0, itemNo);
  }

  // ---------- the smallest trees ----------

  lemma RootOfFour(h: Hash64, a: seq<byte>, b: seq<byte>, c: seq<byte>, d: seq<byte>)
    ensures Pow2(2) == 4 && Root(h, [a, b, c, d], 2) == h(h(h(a) + h(b)) + h(h(c) + h(d)))
  {
    assert Pow2(2) == 4;
    PairOf(h, a, b);
    PairOf(h, c, d);
    var s := [a, b, c, d];
    assert s[..2] == [a, b] && s[2..] == [c, d];
    assert Subtree(h, s) == Pair(h, Subtree(h, s[..2]), Subtree(h, s[2..]));
  }

  lemma PairOf(h: Hash64, a: seq<byte>, b: seq<byte>)
    ensures Subtree(h, [a, b]) == h(h(a) + h(b))
  {
    var s := [a, b];
    assert s[..1] == [a] && s[1..] == [b];
    assert Subtree(h, s) == Pair(h, Subtree(h, s[..1]), Subtree(h, s[1..]));
  }

  /** In a branch of one step the low bit of the item's number says on which side its hash goes. */
  lemma BranchOfOne(h: Hash64, side: Block, root: Block, itemHash: Block, itemNo: nat)
    ensures Valid(h, 1, [side, root], itemHash, itemNo) <==>
              root == h(if itemNo % 2 == 0 then itemHash + side else side + itemHash)
  {
    var branch := [side, root];
    assert branch[..0] == [] && branch[..1] == [side];
    ClimbStep(h, branch, itemHash, itemNo, 0);
    hide Climb;
    assert Climb(h, [], itemHash, itemNo) == itemHash by { NoSteps(h, itemHash, itemNo); }
    assert Shr(itemNo, 0) == itemNo;
  }

  lemma NoSteps(h: Hash64, itemHash: Block, itemNo: nat)
    ensures Climb(h, [], itemHash, itemNo) == itemHash
  {
  }
}
