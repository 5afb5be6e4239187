/** The flat table of a tree: its rows one after the other, odd ones completed by a padding entry. */
module TreeTable {
  import opened Words
  import opened RangeTree

  /** The number of real entries in row `j` above `n` leaves. */
  function Row(n: nat, j: nat): nat {
    if j == 0 then n else (Row(n, j - 1) + 1) / 2
  }

  /** That number completed to an even one. */
  function Padded(n: nat, j: nat): nat {
    Row(n, j) + Row(n, j) % 2
  }

  /** Where row `j` starts in the table. */
  function Base(n: nat, j: nat): (b: nat)
    ensures b % 2 == 0
  {
    if j == 0 then 0 else Base(n, j - 1) + Padded(n, j - 1)
  }

  lemma CeilBracket(n: nat, q: nat, p: nat)
    requires q >= 1 && (q - 1) * p < n <= q * p
    ensures ((q + 1) / 2 - 1) * (2 * p) < n <= ((q + 1) / 2) * (2 * p)
  {
    var k := (q + 1) / 2;
    DoubleFactor(k, p);
    DoubleFactor(k - 1, p);
    MulMonotone(q, 2 * k, p);
    MulMonotone(2 * k - 2, q - 1, p);
  }

  /** Row `j` holds `n / 2^j` entries, rounded up. */
  lemma {:induction false} RowIsCeiling(n: nat, j: nat)
    requires n >= 1
    ensures Row(n, j) >= 1 && (Row(n, j) - 1) * Pow2(j) < n <= Row(n, j) * Pow2(j)
  {
    if j > 0 {
      RowIsCeiling(n, j - 1);
      CeilBracket(n, Row(n, j - 1), Pow2(j - 1));
    }
  }

  /** An entry is padding exactly when it lies beyond its row. */
  lemma PadBeyondRow(n: nat, j: nat, k: nat)
    requires n >= 1
    ensures IsPad(n, j, k) <==> k >= Row(n, j)
  {
    RowIsCeiling(n, j);
    if k >= Row(n, j) {
      MulMonotone(Row(n, j), k, Pow2(j));
    } else {
      MulMonotone(k, Row(n, j) - 1, Pow2(j));
    }
  }

  /** The rows shrink to a single entry at the height of the tree and no earlier. */
  lemma RowsAbove(n: nat, j: nat)
    requires n >= 1 && j <= Log2Ceil(n)
    ensures Row(n, j) == 1 <==> j == Log2Ceil(n)
  {
    var h := Log2Ceil(n);
    PadBeyondRow(n, j, 1);
    RowIsCeiling(n, j);
    if j < h {
      Pow2Monotone(j, h - 1);
    }
  }

  /** How many entries the table of a tree over `n` leaves takes. */
  function EntryCountOf(n: nat): (c: nat)
    ensures c >= 1 && (n > 1 ==> c > n)
  {
    if n <= 1 then 1 else n + n % 2 + EntryCountOf((n + n % 2) / 2)
  }

  /** PacketCryptProof_entryCount. */
  method EntryCount(totalAnns: nat) returns (out: nat)
    ensures out == EntryCountOf(totalAnns)
  {
    out := 0;
    var total := totalAnns;
    while total > 1
      invariant out + EntryCountOf(total) == EntryCountOf(totalAnns)
    {
      total := total + total % 2;
      out := out + total;
      total := total / 2;
    }
    out := out + 1;
  }

  lemma EntryCountStep(n: nat)
    ensures n > 1 ==> EntryCountOf(n) == n + n % 2 + EntryCountOf((n + n % 2) / 2)
    ensures EntryCountOf(1) == 1
  {
  }

  lemma RowStep(n: nat, j: nat)
    ensures Row(n, 0) == n && Base(n, 0) == 0
    ensures Base(n, j + 1) == Base(n, j) + Row(n, j) + Row(n, j) % 2 && Row(n, j + 1) == (Row(n, j) + Row(n, j) % 2) / 2
  {
  }

  /** The count is where the root's row starts, and one more for the root. */
  lemma {:induction false} EntryCountIs(n: nat, j: nat)
    requires n >= 1 && j <= Log2Ceil(n)
    ensures Base(n, j) + EntryCountOf(Row(n, j)) == EntryCountOf(n)
    ensures j == Log2Ceil(n) ==> EntryCountOf(n) == Base(n, j) + 1
  {
    hide *;
    RowsAbove(n, j);
    EntryCountStep(Row(n, j));
    RowStep(n, 0);
    if j > 0 {
      EntryCountIs(n, j - 1);
      RowsAbove(n, j - 1);
      RowIsCeiling(n, j - 1);
      RowStep(n, j - 1);
      EntryCountStep(Row(n, j - 1));
    }
  }

  /** Counts grow with the number of leaves, and strictly from one even number to the next. */
  lemma {:induction false} EntryCountGrows(m: nat, n: nat)
    requires m <= n
    ensures EntryCountOf(m) <= EntryCountOf(n)
    ensures 1 < m && m + m % 2 < n ==> EntryCountOf(m) < EntryCountOf(n)
    ensures m <= 1 < n ==> EntryCountOf(m) < EntryCountOf(n)
    decreases n
  {
    if 1 < m {
      EntryCountGrows((m + m % 2) / 2, (n + n % 2) / 2);
    }
  }

  lemma SameEvenCount(m: nat)
    requires m > 1
    ensures EntryCountOf(m + m % 2) == EntryCountOf(m)
  {
    hide *;
    MadeEven(m);
    EntryCountStep(m);
    EntryCountStep(m + m % 2);
  }

  lemma MadeEven(m: nat)
    ensures (m + m % 2) % 2 == 0
  {
  }

  /** A table made for `m` leaves holds the tree over `n` exactly when `n` is at most `m` made even. */
  lemma TableHoldsIff(m: nat, n: nat)
    requires n > 1
    ensures EntryCountOf(n) <= EntryCountOf(m) <==> m > 1 && n <= m + m % 2
  {
    hide EntryCountOf;
    if m > 1 && n <= m + m % 2 {
      SameEvenCount(m);
      EntryCountGrows(n, m + m % 2);
    } else {
      EntryCountGrows(m, n);
    }
  }

  /** Row `j` of the tree, padding included, stands in the table. */
  ghost predicate HoldsRow(H: Hasher, leaves: seq<Entry>, tbl: seq<Entry>, j: nat) {
    && Base(|leaves|, j) + Padded(|leaves|, j) <= |tbl|
    && forall x :: Base(|leaves|, j) <= x < Base(|leaves|, j) + Padded(|leaves|, j) ==>
         tbl[x] == Node(H, leaves, j, x - Base(|leaves|, j))
  }

  /** The table holds the whole tree, up to and including the root. */
  ghost predicate HoldsTree(H: Hasher, leaves: seq<Entry>, tbl: seq<Entry>) {
    var h := Log2Ceil(if |leaves| == 0 then 1 else |leaves|);
    && (forall j :: 0 <= j < h ==> HoldsRow(H, leaves, tbl, j))
    && Base(|leaves|, h) < |tbl| && tbl[Base(|leaves|, h)] == Node(H, leaves, h, 0)
  }

  /** The real entries of every row partition the 64-bit space in order. */
  lemma RowPartitions(H: Hasher, leaves: seq<Entry>, j: nat)
    requires ValidLeaves(leaves)
    ensures Node(H, leaves, j, 0).start == 0
    ensures Row(|leaves|, j) >= 1 && Node(H, leaves, j, Row(|leaves|, j) - 1).end == MAX64
    ensures forall k :: 0 <= k < Row(|leaves|, j) ==> Node(H, leaves, j, k).start < Node(H, leaves, j, k).end
    ensures forall k :: 0 <= k < Row(|leaves|, j) - 1 ==> Node(H, leaves, j, k).end == Node(H, leaves, j, k + 1).start
  {
    var n, r := |leaves|, Row(|leaves|, j);
    hide Row, Node, IsPad;
    RowIsCeiling(n, j);
    FirstNodeStartsAtZero(H, leaves, j);
    forall k | 0 <= k < r
      ensures Node(H, leaves, j, k).start < Node(H, leaves, j, k).end
      ensures Node(H, leaves, j, k).end == Node(H, leaves, j, k + 1).start
    {
      PadBeyondRow(n, j, k);
      NodesAreNonEmpty(H, leaves, j, k);
      NodesAreAdjacent(H, leaves, j, k);
    }
    PadBeyondRow(n, j, r);
    PadNode(H, leaves, j, r);
  }
}
