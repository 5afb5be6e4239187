/**
 * The range-Merkle tree.  Every entry carries a hash and the half-open range of hash prefixes
 * below it; a row with an odd number of entries is completed by an entry made of 0xff bytes.
 */
module RangeTree {
  import opened Words

  /** A 32-byte hash as its four 64-bit words. */
  datatype Hash = Hash(l0: u64, l1: u64, l2: u64, l3: u64)

  datatype Entry = Entry(hash: Hash, start: u64, end: u64)

  const ALL_ONES: Hash := Hash(MAX64, MAX64, MAX64, MAX64)

  /** The padding entry: 48 bytes of 0xff. */
  const PAD: Entry := Entry(ALL_ONES, MAX64, MAX64)

  const ZERO_HASH: Hash := Hash(0, 0, 0, 0)

  /** Hash_COMPRESS32_OBJ over one entry (the root) or over two adjacent entries. */
  type Hasher = seq<Entry> -> Hash

  ghost predicate NeverAllOnes(H: Hasher) {
    forall a :: H(a) != ALL_ONES
  }

  function Combine(H: Hasher, a: Entry, b: Entry): Entry {
    Entry(H([a, b]), a.start, b.end)
  }

  /** Whether node `k` of row `d` lies wholly beyond the `count` leaves. */
  predicate IsPad(count: nat, d: nat, k: nat) {
    k * Pow2(d) >= count
  }

  /** Node `k` of row `d` of the tree over `leaves`; row 0 is the leaves. */
  function Node(H: Hasher, leaves: seq<Entry>, d: nat, k: nat): Entry {
    if IsPad(|leaves|, d, k) then PAD
    else if d == 0 then leaves[k]
    else Combine(H, Node(H, leaves, d - 1, 2 * k), Node(H, leaves, d - 1, 2 * k + 1))
  }

  lemma PadNode(H: Hasher, leaves: seq<Entry>, d: nat, k: nat)
    ensures IsPad(|leaves|, d, k) ==> Node(H, leaves, d, k) == PAD
  {
  }

  lemma LeafRowNode(H: Hasher, leaves: seq<Entry>, k: nat)
    requires k < |leaves|
    ensures Node(H, leaves, 0, k) == leaves[k]
  {
  }

  lemma NodeUnfolds(H: Hasher, leaves: seq<Entry>, d: nat, k: nat)
    requires !IsPad(|leaves|, d + 1, k)
    ensures Node(H, leaves, d + 1, k) == Combine(H, Node(H, leaves, d, 2 * k), Node(H, leaves, d, 2 * k + 1))
  {
    hide IsPad, Combine;
  }

  function RootHash(H: Hasher, leaves: seq<Entry>): Hash
    requires |leaves| >= 1
  {
    H([Node(H, leaves, Log2Ceil(|leaves|), 0)])
  }

  /** The leaf row: the zero entry first, ranges adjacent, prefixes strictly increasing. */
  ghost predicate ValidLeaves(leaves: seq<Entry>) {
    && |leaves| >= 2
    && leaves[0].start == 0
    && leaves[|leaves| - 1].end == MAX64
    && (forall i :: 0 <= i < |leaves| ==> leaves[i].hash.l0 == leaves[i].start < leaves[i].end)
    && (forall i :: 0 <= i < |leaves| - 1 ==> leaves[i].end == leaves[i + 1].start)
  }

  lemma PadChildren(count: nat, d: nat, k: nat)
    requires d > 0
    ensures IsPad(count, d, k) <==> IsPad(count, d - 1, 2 * k)
    ensures IsPad(count, d - 1, 2 * k) ==> IsPad(count, d - 1, 2 * k + 1)
  {
    DoubleFactor(k, Pow2(d - 1));
    MulMonotone(2 * k, 2 * k + 1, Pow2(d - 1));
  }

  lemma PadNext(count: nat, d: nat, k: nat)
    requires IsPad(count, d, k)
    ensures IsPad(count, d, k + 1)
  {
    MulMonotone(k, k + 1, Pow2(d));
  }

  /** A node ends where its right neighbour starts, padding included. */
  lemma {:induction false} NodesAreAdjacent(H: Hasher, leaves: seq<Entry>, d: nat, k: nat)
    requires ValidLeaves(leaves)
    requires !IsPad(|leaves|, d, k)
    ensures Node(H, leaves, d, k).end == Node(H, leaves, d, k + 1).start
  {
    var n := |leaves|;
    if d > 0 {
      PadChildren(n, d, k);
      PadChildren(n, d, k + 1);
      if IsPad(n, d - 1, 2 * k + 1) {
        PadNext(n, d - 1, 2 * k + 1);
      } else {
        NodesAreAdjacent(H, leaves, d - 1, 2 * k + 1);
      }
    }
  }

  /** Every real node covers a non-empty range. */
  lemma {:induction false} NodesAreNonEmpty(H: Hasher, leaves: seq<Entry>, d: nat, k: nat)
    requires ValidLeaves(leaves)
    requires !IsPad(|leaves|, d, k)
    ensures Node(H, leaves, d, k).start < Node(H, leaves, d, k).end
  {
    if d > 0 {
      PadChildren(|leaves|, d, k);
      NodesAreNonEmpty(H, leaves, d - 1, 2 * k);
      NodesAreAdjacent(H, leaves, d - 1, 2 * k);
      if !IsPad(|leaves|, d - 1, 2 * k + 1) {
        NodesAreNonEmpty(H, leaves, d - 1, 2 * k + 1);
      }
    }
  }

  lemma {:induction false} FirstNodeStartsAtZero(H: Hasher, leaves: seq<Entry>, d: nat)
    requires ValidLeaves(leaves)
    ensures !IsPad(|leaves|, d, 0) && Node(H, leaves, d, 0).start == 0
  {
    if d > 0 {
      FirstNodeStartsAtZero(H, leaves, d - 1);
    }
  }

  /** The single node of a row that covers every leaf spans the whole 64-bit space. */
  lemma RootSpansEverything(H: Hasher, leaves: seq<Entry>, d: nat)
    requires ValidLeaves(leaves)
    requires |leaves| <= Pow2(d)
    ensures Node(H, leaves, d, 0).start == 0 && Node(H, leaves, d, 0).end == MAX64
  {
    FirstNodeStartsAtZero(H, leaves, d);
    NodesAreAdjacent(H, leaves, d, 0);
    assert IsPad(|leaves|, d, 1);
  }

  lemma NodeHashNotAllOnes(H: Hasher, leaves: seq<Entry>, d: nat, k: nat)
    requires NeverAllOnes(H)
    requires forall i :: 0 <= i < |leaves| ==> leaves[i].hash != ALL_ONES
    requires !IsPad(|leaves|, d, k)
    ensures Node(H, leaves, d, k).hash != ALL_ONES
  {
  }
}
