/** packetcrypt-blkmine's ProofTree: building the table of a tree from the sorted announcements. */
module TreeBuild {
  import opened Words
  import opened RangeTree
  import opened TreeTable

  /** The leaf row for announcements with the given hashes, simply stated. */
  function LeafRow(hashes: seq<Hash>): (r: seq<Entry>)
    requires |hashes| >= 1
    ensures |r| == |hashes| + 1
  {
    [Entry(ZERO_HASH, 0, hashes[0].l0)] + seq(|hashes|, i requires 0 <= i < |hashes| => Leaf(hashes, i))
  }

  function Leaf(hashes: seq<Hash>, i: nat): Entry
    requires i < |hashes|
  {
    Entry(hashes[i], hashes[i].l0, if i + 1 < |hashes| then hashes[i + 1].l0 else MAX64)
  }

  /** Prefixes strictly increase and stay strictly between the two ends of the 64-bit space. */
  ghost predicate Increasing(hashes: seq<Hash>) {
    && |hashes| >= 1 && hashes[0].l0 > 0
    && forall i :: 0 <= i < |hashes| ==> Leaf(hashes, i).start < Leaf(hashes, i).end
  }

  lemma LeafRowIsValid(hashes: seq<Hash>)
    requires |hashes| >= 1
    ensures ValidLeaves(LeafRow(hashes)) <==> Increasing(hashes)
  {
    var r := LeafRow(hashes);
    assert forall i :: 0 <= i < |hashes| ==> r[i + 1] == Leaf(hashes, i);
    if ValidLeaves(r) {
      assert r[0].start < r[0].end;
      forall i | 0 <= i < |hashes|
        ensures Leaf(hashes, i).start < Leaf(hashes, i).end
      {
        assert r[i + 1].start < r[i + 1].end;
      }
    }
  }

  // ---------- the leaf row, filled in chunks ----------

  /** The hashes of the indexed announcements. */
  function HashesOf(db: nat -> Hash, indexTable: seq<nat>): (r: seq<Hash>)
    ensures |r| == |indexTable|
    ensures forall i :: 0 <= i < |r| ==> r[i] == db(indexTable[i])
  {
    seq(|indexTable|, i requires 0 <= i < |indexTable| => db(indexTable[i]))
  }

  const CHUNK_SZ: nat := 256

  /** The leaves from `lo` to `hi` are in place, one past their index. */
  ghost predicate LeavesIn(tbl: seq<Entry>, hashes: seq<Hash>, lo: nat, hi: nat) {
    && hi <= |hashes| && hi < |tbl|
    && forall x :: lo <= x < hi ==> tbl[x + 1] == Leaf(hashes, x) && Leaf(hashes, x).start < Leaf(hashes, x).end
  }

  /** One full chunk: hashes are fetched two announcements ahead.  False stands for a panic. */
  method FillChunk(db: nat -> Hash, indexTable: seq<nat>, tbl: array<Entry>, i: nat) returns (ok: bool)
    requires i + CHUNK_SZ + 2 <= |indexTable| && i + CHUNK_SZ < tbl.Length
    modifies tbl
    ensures ok ==> LeavesIn(tbl[..], HashesOf(db, indexTable), i, i + CHUNK_SZ)
    ensures !ok ==> !Increasing(HashesOf(db, indexTable))
    ensures forall x :: 0 <= x < tbl.Length && !(i < x <= i + CHUNK_SZ) ==> tbl[x] == old(tbl[x])
  {
    ghost var hashes := HashesOf(db, indexTable);
    var hash := db(indexTable[i]);
    var hashPlus1 := db(indexTable[i + 1]);
    for c := 0 to CHUNK_SZ
      invariant hash == hashes[i + c] && hashPlus1 == hashes[i + c + 1]
      invariant LeavesIn(tbl[..], hashes, i, i + c)
      invariant forall x :: 0 <= x < tbl.Length && !(i < x <= i + CHUNK_SZ) ==> tbl[x] == old(tbl[x])
    {
      var mlocPlus2 := indexTable[i + 2 + c];
      var ent := Entry(hash, hash.l0, hashPlus1.l0);
      assert ent == Leaf(hashes, i + c);
      tbl[1 + i + c] := ent;
      if ent.end <= ent.start { return false; }
      hash := hashPlus1;
      hashPlus1 := db(mlocPlus2);
    }
    return true;
  }

  /** The last chunk takes whatever is left, as far as the table reaches. */
  method FillLast(db: nat -> Hash, indexTable: seq<nat>, tbl: array<Entry>, i: nat) returns (ok: bool)
    requires i <= |indexTable| && i < tbl.Length
    modifies tbl
    ensures ok ==> LeavesIn(tbl[..], HashesOf(db, indexTable), i, Reach(|indexTable|, tbl.Length))
    ensures !ok ==> !Increasing(HashesOf(db, indexTable))
    ensures forall x :: 0 <= x <= i ==> tbl[x] == old(tbl[x])
  {
    ghost var hashes := HashesOf(db, indexTable);
    var n := Reach(|indexTable|, tbl.Length);
    for x := i to n
      invariant LeavesIn(tbl[..], hashes, i, x)
      invariant forall y :: 0 <= y <= i ==> tbl[y] == old(tbl[y])
    {
      var hash := db(indexTable[x]);
      var end := if x + 1 < |indexTable| then db(indexTable[x + 1]).l0 else MAX64;
      assert Leaf(hashes, x) == Entry(hash, hash.l0, end);
      tbl[1 + x] := Entry(hash, hash.l0, end);
      if end <= hash.l0 { return false; }
    }
    return true;
  }

  /** How many leaves a table of length `len` has room for after the zero entry, out of `n`. */
  function Reach(n: nat, len: nat): nat
    requires len >= 1
  {
    if n < len then n else len - 1
  }

  /**
   * The chunks cover the table; they are disjoint, so their order does not matter.  Splitting off a
   * chunk panics if the table is too short, while the last chunk merely stops early.
   */
  method FillLeaves(db: nat -> Hash, indexTable: seq<nat>, tbl: array<Entry>) returns (ok: bool)
    requires 1 <= |indexTable| && 1 <= tbl.Length
    modifies tbl
    ensures ok ==> LeavesIn(tbl[..], HashesOf(db, indexTable), 0, Reach(|indexTable|, tbl.Length))
    ensures !ok ==> !Increasing(HashesOf(db, indexTable)) || tbl.Length <= |indexTable|
  {
    ghost var hashes := HashesOf(db, indexTable);
    var i := 0;
    while |indexTable| + 1 > i + CHUNK_SZ + 3
      invariant i <= |indexTable| && i < tbl.Length && LeavesIn(tbl[..], hashes, 0, i)
    {
      if tbl.Length < 1 + i + CHUNK_SZ { return false; }
      ghost var before := tbl[..];
      ok := FillChunk(db, indexTable, tbl, i);
      if !ok { return; }
      LeavesJoin(before, tbl[..], hashes, i, i + CHUNK_SZ);
      i := i + CHUNK_SZ;
    }
    ghost var before := tbl[..];
    ok := FillLast(db, indexTable, tbl, i);
    if ok {
      LeavesJoin(before, tbl[..], hashes, i, Reach(|indexTable|, tbl.Length));
    }
  }

  lemma LeavesJoin(before: seq<Entry>, after: seq<Entry>, hashes: seq<Hash>, mid: nat, hi: nat)
    requires LeavesIn(before, hashes, 0, mid) && LeavesIn(after, hashes, mid, hi) && mid <= hi
    requires |before| == |after| && forall x :: 0 <= x <= mid ==> after[x] == before[x]
    ensures LeavesIn(after, hashes, 0, hi)
  {
  }

  // ---------- the rows above ----------

  const THREAD_STEP_SZ: nat := 8192

  /** The hash of the `c`-th pair of the row at `idx`. */
  function PairHash(H: Hasher, tbl: seq<Entry>, idx: nat, c: nat): Entry
    requires idx + 2 * c + 1 < |tbl|
  {
    Combine(H, tbl[idx + 2 * c], tbl[idx + 2 * c + 1])
  }

  /** Hash the `count` entries at `idx` pairwise into the ones from `odx` on, a block at a time. */
  method HashRow(H: Hasher, tbl: array<Entry>, idx: nat, odx: nat, count: nat)
    requires count % 2 == 0 && idx + count == odx && odx + count / 2 <= tbl.Length
    modifies tbl
    ensures forall x :: odx <= x < odx + count / 2 ==> tbl[x] == PairHash(H, old(tbl[..]), idx, x - odx)
    ensures forall x :: 0 <= x < tbl.Length && !(odx <= x < odx + count / 2) ==> tbl[x] == old(tbl[x])
  {
    var done := 0;
    while done < count / 2
      invariant done <= count / 2
      invariant forall x :: odx <= x < odx + done ==> tbl[x] == PairHash(H, old(tbl[..]), idx, x - odx)
      invariant forall x :: 0 <= x < tbl.Length && !(odx <= x < odx + done) ==> tbl[x] == old(tbl[x])
    {
      var next := if done + THREAD_STEP_SZ < count / 2 then done + THREAD_STEP_SZ else count / 2;
      for c := done to next
        invariant forall x :: odx <= x < odx + c ==> tbl[x] == PairHash(H, old(tbl[..]), idx, x - odx)
        invariant forall x :: 0 <= x < tbl.Length && !(odx <= x < odx + c) ==> tbl[x] == old(tbl[x])
      {
        tbl[odx + c] := Combine(H, tbl[idx + 2 * c], tbl[idx + 2 * c + 1]);
      }
      done := next;
    }
  }

  /** Rows below `j` stand complete in the table, and row `j` up to its padding. */
  ghost predicate RowsDone(H: Hasher, leaves: seq<Entry>, tbl: seq<Entry>, j: nat) {
    && (forall i :: 0 <= i < j ==> HoldsRow(H, leaves, tbl, i))
    && Base(|leaves|, j) + Row(|leaves|, j) <= |tbl|
    && forall x :: Base(|leaves|, j) <= x < Base(|leaves|, j) + Row(|leaves|, j) ==>
         tbl[x] == Node(H, leaves, j, x - Base(|leaves|, j))
  }

  lemma {:induction false} BaseMonotone(n: nat, i: nat, j: nat)
    requires i < j
    ensures Base(n, i) + Padded(n, i) <= Base(n, j)
  {
    if i < j - 1 {
      BaseMonotone(n, i, j - 1);
    }
  }

  /** The row above row `j` of `padded` has been hashed into `after`, and nothing else has changed. */
  ghost predicate RowHashed(H: Hasher, n: nat, padded: seq<Entry>, after: seq<Entry>, j: nat) {
    var idx, count := Base(n, j), Padded(n, j);
    && |padded| == |after|
    && idx + count + count / 2 <= |padded|
    && (forall x :: idx + count <= x < idx + count + count / 2 ==>
          after[x] == PairHash(H, padded, idx, x - (idx + count)))
    && (forall x :: 0 <= x < |padded| && !(idx + count <= x < idx + count + count / 2) ==> after[x] == padded[x])
  }

  lemma RowsKept(H: Hasher, leaves: seq<Entry>, padded: seq<Entry>, after: seq<Entry>, j: nat, i: nat)
    requires i <= j && HoldsRow(H, leaves, padded, i)
    requires RowHashed(H, |leaves|, padded, after, j)
    ensures HoldsRow(H, leaves, after, i)
  {
    hide Base, Padded, HoldsRow, PairHash, Node;
    if i < j {
      BaseMonotone(|leaves|, i, j);
    }
    RowKept(H, leaves, padded, after, i);
  }

  /** Hashing a completed row yields the next one. */
  lemma NextRow(H: Hasher, leaves: seq<Entry>, padded: seq<Entry>, after: seq<Entry>, j: nat)
    requires |leaves| >= 1 && RowHashed(H, |leaves|, padded, after, j)
    requires forall i :: 0 <= i <= j ==> HoldsRow(H, leaves, padded, i)
    ensures RowsDone(H, leaves, after, j + 1)
  {
    hide HoldsRow, RowHashed;
    forall i | 0 <= i < j + 1
      ensures HoldsRow(H, leaves, after, i)
    {
      RowsKept(H, leaves, padded, after, j, i);
    }
    hide Base, Row, Padded, Node;
    RowSpan(H, |leaves|, padded, after, j);
    forall x | Base(|leaves|, j + 1) <= x < Base(|leaves|, j + 1) + Row(|leaves|, j + 1)
      ensures after[x] == Node(H, leaves, j + 1, x - Base(|leaves|, j + 1))
    {
      RowEntry(H, leaves, padded, after, j, x);
    }
  }

  lemma RowSpan(H: Hasher, n: nat, padded: seq<Entry>, after: seq<Entry>, j: nat)
    requires RowHashed(H, n, padded, after, j)
    ensures Base(n, j + 1) + Row(n, j + 1) <= |after|
  {
    RowFacts(n, j);
  }

  lemma RowEntry(H: Hasher, leaves: seq<Entry>, padded: seq<Entry>, after: seq<Entry>, j: nat, x: nat)
    requires |leaves| >= 1 && RowHashed(H, |leaves|, padded, after, j) && HoldsRow(H, leaves, padded, j)
    requires Base(|leaves|, j + 1) <= x < Base(|leaves|, j + 1) + Row(|leaves|, j + 1) <= |after|
    ensures after[x] == Node(H, leaves, j + 1, x - Base(|leaves|, j + 1))
  {
    RowFacts(|leaves|, j);
    hide Base, Row, Padded, HoldsRow, PairHash, Node;
    PairIsNode(H, leaves, padded, j, x - Base(|leaves|, j + 1));
  }

  lemma RowKept(H: Hasher, leaves: seq<Entry>, before: seq<Entry>, after: seq<Entry>, i: nat)
    requires HoldsRow(H, leaves, before, i) && |before| == |after|
    requires forall x :: 0 <= x < Base(|leaves|, i) + Padded(|leaves|, i) && x < |before| ==> after[x] == before[x]
    ensures HoldsRow(H, leaves, after, i)
  {
    hide Base, Padded, Node;
  }

  /** The hash of the `c`-th pair of a complete row is the `c`-th node of the next row. */
  lemma PairIsNode(H: Hasher, leaves: seq<Entry>, tbl: seq<Entry>, j: nat, c: nat)
    requires |leaves| >= 1 && HoldsRow(H, leaves, tbl, j) && c < Row(|leaves|, j + 1)
    ensures Base(|leaves|, j) + 2 * c + 1 < |tbl|
    ensures PairHash(H, tbl, Base(|leaves|, j), c) == Node(H, leaves, j + 1, c)
  {
    RowFacts(|leaves|, j);
    NodeOfPair(H, leaves, j, c);
    hide Base, Row, Padded, Node;
  }

  lemma NodeOfPair(H: Hasher, leaves: seq<Entry>, j: nat, k: nat)
    requires |leaves| >= 1 && k < Row(|leaves|, j + 1)
    ensures Node(H, leaves, j + 1, k) == Combine(H, Node(H, leaves, j, 2 * k), Node(H, leaves, j, 2 * k + 1))
  {
    PadBeyondRow(|leaves|, j + 1, k);
  }

  lemma RowFacts(n: nat, j: nat)
    ensures Base(n, j + 1) == Base(n, j) + Padded(n, j) && Row(n, j + 1) == Padded(n, j) / 2
    ensures Row(n, j) <= Padded(n, j) <= Row(n, j) + 1 && Padded(n, j) % 2 == 0
  {
  }

  /** Completing an odd row with a padding entry. */
  lemma PadRow(H: Hasher, leaves: seq<Entry>, before: seq<Entry>, padded: seq<Entry>, j: nat)
    requires |leaves| >= 1 && RowsDone(H, leaves, before, j) && |before| == |padded|
    requires Base(|leaves|, j) + Padded(|leaves|, j) <= |before|
    requires var odx := Base(|leaves|, j) + Row(|leaves|, j);
             && (forall x :: 0 <= x < |before| && x != odx ==> padded[x] == before[x])
             && (Row(|leaves|, j) % 2 == 1 ==> odx < |padded| && padded[odx] == PAD)
             && (Row(|leaves|, j) % 2 == 0 ==> padded == before)
    ensures forall i :: 0 <= i <= j ==> HoldsRow(H, leaves, padded, i)
  {
    hide *;
    var n := |leaves|;
    RowFacts(n, j);
    OwnRowPadded(H, leaves, before, padded, j);
    forall i | 0 <= i < j
      ensures HoldsRow(H, leaves, padded, i)
    {
      EarlierRowKept(H, leaves, before, padded, j, i, Base(n, j) + Row(n, j));
    }
  }

  lemma EarlierRowKept(H: Hasher, leaves: seq<Entry>, before: seq<Entry>, padded: seq<Entry>, j: nat, i: nat, odx: nat)
    requires RowsDone(H, leaves, before, j) && |before| == |padded| && i < j && odx >= Base(|leaves|, j)
    requires forall x :: 0 <= x < |before| && x != odx ==> padded[x] == before[x]
    ensures HoldsRow(H, leaves, padded, i)
  {
    hide Base, Row, Padded, Node;
    assert HoldsRow(H, leaves, before, i);
    BaseMonotone(|leaves|, i, j);
  }

  lemma OwnRowPadded(H: Hasher, leaves: seq<Entry>, before: seq<Entry>, padded: seq<Entry>, j: nat)
    requires |leaves| >= 1 && RowsDone(H, leaves, before, j) && |before| == |padded|
    requires Base(|leaves|, j) + Padded(|leaves|, j) <= |before|
    requires var odx := Base(|leaves|, j) + Row(|leaves|, j);
             && (forall x :: 0 <= x < |before| && x != odx ==> padded[x] == before[x])
             && (Row(|leaves|, j) % 2 == 1 ==> odx < |padded| && padded[odx] == PAD)
             && (Row(|leaves|, j) % 2 == 0 ==> padded == before)
    ensures HoldsRow(H, leaves, padded, j)
  {
    hide *;
    var n := |leaves|;
    RowFacts(n, j);
    PadBeyondRow(n, j, Row(n, j));
    PadNode(H, leaves, j, Row(n, j));
    RowSoFar(H, leaves, before, j);
    RowIsHeld(H, leaves, padded, j);
  }

  lemma RowSoFar(H: Hasher, leaves: seq<Entry>, tbl: seq<Entry>, j: nat)
    requires RowsDone(H, leaves, tbl, j)
    ensures Base(|leaves|, j) + Row(|leaves|, j) <= |tbl|
    ensures forall x :: Base(|leaves|, j) <= x < Base(|leaves|, j) + Row(|leaves|, j) ==>
              tbl[x] == Node(H, leaves, j, x - Base(|leaves|, j))
  {
    hide Base, Row, Node;
  }

  lemma RowIsHeld(H: Hasher, leaves: seq<Entry>, tbl: seq<Entry>, j: nat)
    requires Base(|leaves|, j) + Padded(|leaves|, j) <= |tbl|
    requires forall x :: Base(|leaves|, j) <= x < Base(|leaves|, j) + Padded(|leaves|, j) ==>
               tbl[x] == Node(H, leaves, j, x - Base(|leaves|, j))
    ensures HoldsRow(H, leaves, tbl, j)
  {
    hide Base, Padded, Node;
  }

  /** The layer loop: from the leaf row to the root; false for a panic, which is a table that is too short. */
  method BuildRows(H: Hasher, tbl: array<Entry>, totalAnnsZeroIncluded: nat, ghost leaves: seq<Entry>)
    returns (ok: bool, odx: nat)
    requires ValidLeaves(leaves) && |leaves| == totalAnnsZeroIncluded
    requires RowsDone(H, leaves, tbl[..], 0)
    modifies tbl
    ensures ok <==> EntryCountOf(|leaves|) <= tbl.Length
    ensures ok ==> HoldsTree(H, leaves, tbl[..]) && odx == EntryCountOf(|leaves|)
  {
    var countThisLayer := totalAnnsZeroIncluded;
    odx := countThisLayer;
    var idx := 0;
    ghost var n, h, j := |leaves|, Log2Ceil(|leaves|), 0;
    EntryCountIs(n, h);
    while countThisLayer > 1
      invariant j <= h && countThisLayer == Row(n, j) && idx == Base(n, j) && odx == idx + countThisLayer
      invariant RowsDone(H, leaves, tbl[..], j)
      decreases h - j
    {
      hide RowsDone, HoldsRow, Node, ValidLeaves, Log2Ceil, Base, Row, EntryCountOf;
      RowsAbove(n, j);
      ok, odx, idx, countThisLayer := BuildRow(H, tbl, odx, idx, countThisLayer, leaves, j);
      if !ok { return; }
      j := j + 1;
    }
    hide HoldsRow, Node, ValidLeaves, Log2Ceil, Base, Row, EntryCountOf;
    RowsAbove(n, j);
    RowIsCeiling(n, j);
    assert idx + 1 == odx;
    RootSpansEverything(H, leaves, h);
    RootRow(H, leaves, tbl[..], j);
    assert tbl[idx].start == 0 && tbl[idx].end == MAX64;
    ok := true;
  }

  lemma RootRow(H: Hasher, leaves: seq<Entry>, tbl: seq<Entry>, j: nat)
    requires RowsDone(H, leaves, tbl, j) && |leaves| >= 1 && j == Log2Ceil(|leaves|) && Row(|leaves|, j) == 1
    ensures HoldsTree(H, leaves, tbl) && Base(|leaves|, j) < |tbl| && tbl[Base(|leaves|, j)] == Node(H, leaves, j, 0)
  {
    hide HoldsRow, Node, Log2Ceil, Base, Row;
  }

  /** An odd row gets a padding entry, if the table reaches that far. */
  method CompleteRow(tbl: array<Entry>, odx0: nat, count0: nat) returns (ok: bool, odx: nat, countThisLayer: nat)
    modifies tbl
    ensures ok <==> count0 % 2 == 0 || odx0 < tbl.Length
    ensures ok ==> odx == odx0 + count0 % 2 && countThisLayer == count0 + count0 % 2
    ensures ok && count0 % 2 == 1 ==> tbl[odx0] == PAD
    ensures ok ==> forall x :: 0 <= x < tbl.Length && (x != odx0 || count0 % 2 == 0) ==> tbl[x] == old(tbl[x])
  {
    ok, odx, countThisLayer := true, odx0, count0;
    if countThisLayer % 2 != 0 {
      if odx >= tbl.Length { return false, odx, countThisLayer; }
      tbl[odx] := PAD;
      countThisLayer := countThisLayer + 1;
      odx := odx + 1;
    }
  }

  /** One turn of the layer loop. */
  method BuildRow(H: Hasher, tbl: array<Entry>, odx0: nat, idx0: nat, count0: nat, ghost leaves: seq<Entry>,
                  ghost j: nat)
    returns (ok: bool, odx: nat, idx: nat, countThisLayer: nat)
    requires ValidLeaves(leaves) && |leaves| >= 1 && j < Log2Ceil(|leaves|)
    requires count0 == Row(|leaves|, j) && idx0 == Base(|leaves|, j) && odx0 == idx0 + count0 && count0 > 1
    requires RowsDone(H, leaves, tbl[..], j)
    modifies tbl
    ensures !ok ==> EntryCountOf(|leaves|) > tbl.Length
    ensures ok ==> countThisLayer == Row(|leaves|, j + 1) && idx == Base(|leaves|, j + 1) && odx == idx + countThisLayer
    ensures ok ==> RowsDone(H, leaves, tbl[..], j + 1)
  {
    ghost var n, before := |leaves|, tbl[..];
    hide *;
    RowFits(n, j);
    RowFacts(n, j);
    LastEndsAtMax(H, leaves, before, j);
    idx := idx0;
    assert tbl[odx0 - 1].end == before[odx0 - 1].end;
    ok, odx, countThisLayer := CompleteRow(tbl, odx0, count0);
    if !ok { return; }
    if odx + countThisLayer / 2 > tbl.Length { return false, odx, idx, countThisLayer; }
    PadRow(H, leaves, before, tbl[..], j);
    HashNext(H, tbl, idx, odx, countThisLayer, leaves, j);
    idx := idx + countThisLayer;
    countThisLayer := countThisLayer / 2;
    odx := odx + countThisLayer;
  }

  /** The next row, hashed from a completed one. */
  method HashNext(H: Hasher, tbl: array<Entry>, idx: nat, odx: nat, count: nat, ghost leaves: seq<Entry>, ghost j: nat)
    requires |leaves| >= 1 && idx == Base(|leaves|, j) && count == Padded(|leaves|, j) && odx == idx + count
    requires count % 2 == 0 && odx + count / 2 <= tbl.Length
    requires forall i :: 0 <= i <= j ==> HoldsRow(H, leaves, tbl[..], i)
    modifies tbl
    ensures RowsDone(H, leaves, tbl[..], j + 1)
  {
    hide *;
    ghost var padded := tbl[..];
    HashRow(H, tbl, idx, odx, count);
    RowHashedIs(H, |leaves|, padded, tbl[..], j);
    NextRow(H, leaves, padded, tbl[..], j);
  }

  lemma RowHashedIs(H: Hasher, n: nat, padded: seq<Entry>, after: seq<Entry>, j: nat)
    requires |padded| == |after| && Base(n, j) + Padded(n, j) + Padded(n, j) / 2 <= |padded| && Padded(n, j) % 2 == 0
    requires var idx, count := Base(n, j), Padded(n, j);
             && (forall x :: idx + count <= x < idx + count + count / 2 ==>
                   after[x] == PairHash(H, padded, idx, x - (idx + count)))
             && (forall x :: 0 <= x < |padded| && !(idx + count <= x < idx + count + count / 2) ==>
                   after[x] == padded[x])
    ensures RowHashed(H, n, padded, after, j)
  {
    hide Base, Padded, PairHash;
  }

  /** A table of full length is long enough for the next row. */
  lemma {:induction false} RowFits(n: nat, j: nat)
    requires n >= 1 && j < Log2Ceil(n)
    ensures Base(n, j) + Padded(n, j) + Padded(n, j) / 2 <= EntryCountOf(n)
  {
    var h := Log2Ceil(n);
    EntryCountIs(n, h);
    RowFacts(n, j);
    RowsAbove(n, j + 1);
    RowIsCeiling(n, j + 1);
    hide Base, Padded, Row, EntryCountOf, Log2Ceil;
    if j + 1 < h {
      BaseMonotone(n, j + 1, h);
      RowFacts(n, j + 1);
    }
  }

  /** The last real entry of a row ends at the end of the 64-bit space. */
  lemma LastEndsAtMax(H: Hasher, leaves: seq<Entry>, tbl: seq<Entry>, j: nat)
    requires ValidLeaves(leaves) && RowsDone(H, leaves, tbl, j)
    ensures Row(|leaves|, j) >= 1 && tbl[Base(|leaves|, j) + Row(|leaves|, j) - 1].end == MAX64
  {
    hide ValidLeaves, Base, Row, Node;
    RowPartitions(H, leaves, j);
  }
}
