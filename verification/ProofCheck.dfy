/**
 * What a compressed proof means: the bytes fill the rebuilt table, the table evaluates bottom-up to
 * a root entry, and the root must span the whole 64-bit space.
 */
module ProofCheck {
  import opened Words
  import opened RangeTree
  import opened ProofTable

  // ---------- reading ----------

  /** PcCompress_hasExplicitRange. */
  predicate HasExplicitRange(f: Flags) {
    || (f.leaf && f.right && !f.padEntry)
    || (!f.leaf && !f.computable && !f.padEntry && !f.padSibling)
  }

  predicate NeedsHash(f: Flags) {
    !f.hasHash && !f.computable
  }

  function ReadHash(s: seq<u8>): Hash
    requires |s| == 32
  {
    Hash(ReadU64(s[..8]), ReadU64(s[8..16]), ReadU64(s[16..24]), ReadU64(s[24..]))
  }

  function WriteHash(h: Hash): (s: seq<u8>)
    ensures |s| == 32
  {
    WriteU64(h.l0) + WriteU64(h.l1) + WriteU64(h.l2) + WriteU64(h.l3)
  }

  function TakeRange(c: Cell, s: seq<u8>): Cell
    requires |s| >= 8
  {
    c.(e := c.e.(end := ReadU64(s[..8])), flags := c.flags.(hasRange := true))
  }

  function TakeHash(c: Cell, s: seq<u8>): Cell
    requires |s| >= 32
  {
    c.(e := c.e.(hash := ReadHash(s[..32])), flags := c.flags.(hasHash := true))
  }

  /** One entry takes its range and its hash, if it has them coming, off the front of the proof. */
  function ReadCell(c: Cell, s: seq<u8>): Option<(Cell, seq<u8>)> {
    var range := if HasExplicitRange(c.flags) then 8 else 0;
    if |s| < range then None
    else
      var c1 := if HasExplicitRange(c.flags) then TakeRange(c, s) else c;
      var s1 := s[range..];
      if !NeedsHash(c1.flags) then Some((c1, s1))
      else if |s1| < 32 then None
      else Some((TakeHash(c1, s1), s1[32..]))
  }

  /** The cells from index `i` on, filled from a proof that must be used up exactly. */
  function ReadFrom(t: seq<Cell>, i: nat, s: seq<u8>): (r: Option<seq<Cell>>)
    requires i <= |t|
    ensures r.Some? ==> |r.value| == |t| - i
    decreases |t| - i
  {
    if i == |t| then (if s == [] then Some([]) else None)
    else match ReadCell(t[i], s)
      case None => None
      case Some((c, rest)) =>
        match ReadFrom(t, i + 1, rest)
        case None => None
        case Some(cs) => Some([c] + cs)
  }

  // ---------- placing the announcement hashes ----------

  /** The index of the row-`d` ancestor of leaf `a`, found by following child links from the root. */
  function Walk(t: seq<Cell>, h: nat, a: nat, d: nat): nat
    decreases h - d
  {
    if d >= h then 0
    else
      var p := Walk(t, h, a, d + 1);
      if p >= |t| then 0
      else if Shr(a, d) % 2 == 1 then t[p].childRight else t[p].childLeft
  }

  function PutHash(c: Cell, hash: Hash): Cell {
    c.(e := c.e.(hash := hash), flags := c.flags.(hasHash := true))
  }

  /** The table with the first `n` announcement hashes filled in, later ones overwriting earlier ones. */
  function WithHashes(t: seq<Cell>, h: nat, anns: seq<nat>, hashes: seq<Hash>, n: nat): (r: seq<Cell>)
    requires n <= |anns| && n <= |hashes|
    ensures |r| == |t|
  {
    if n == 0 then t
    else
      var u := WithHashes(t, h, anns, hashes, n - 1);
      var x := Walk(t, h, anns[n - 1], 0);
      if x < |u| then u[x := PutHash(u[x], hashes[n - 1])] else u
  }

  // ---------- evaluating ----------

  /** The left one of two neighbouring leaves: its range ends at the right one's prefix. */
  function LeftLeaf(l: Cell, r: Cell): Entry {
    Entry(l.e.hash, l.e.hash.l0, r.e.hash.l0)
  }

  /** The right one: it comes with an explicit range, unless it is padding. */
  function RightLeaf(r: Cell): Entry {
    Entry(r.e.hash, r.e.hash.l0, Add64(if r.flags.padEntry then 0 else r.e.end, r.e.hash.l0))
  }

  /** The entries of two neighbouring leaves, at least one of them an announcement. */
  function LeafPair(l: Cell, r: Cell): Option<(Entry, Entry)> {
    var a, b := LeftLeaf(l, r), RightLeaf(r);
    if a.start < a.end && (b.start < b.end || b == PAD) then Some((a, b)) else None
  }

  /**
   * The entries of two neighbouring inner nodes, given the values of the computable ones: a supplied
   * node gets its bounds from its neighbour and its range.
   */
  function InnerPair(l: Cell, r: Cell, a: Option<Entry>, b: Option<Entry>): Option<(Entry, Entry)> {
    if l.flags.computable && r.flags.computable then
      if a.Some? && b.Some? && a.value.end == b.value.start then Some((a.value, b.value)) else None
    else if l.flags.computable && r.flags.padEntry then
      if a.Some? && a.value.end == r.e.start then Some((a.value, r.e)) else None
    else if l.flags.computable then
      if a.None? then None
      else
        var b := Entry(r.e.hash, a.value.end, Add64(r.e.end, a.value.end));
        if b.start < b.end then Some((a.value, b)) else None
    else
      if b.None? then None
      else
        var a := Entry(l.e.hash, Sub64(b.value.start, l.e.end), b.value.start);
        if a.start < a.end then Some((a, b.value)) else None
  }

  predicate ChildrenInRange(t: seq<Cell>, x: nat) {
    x < |t| && x < t[x].childLeft < |t| && x < t[x].childRight < |t|
  }

  /** The entries of the two children of `x`. */
  function Children(H: Hasher, t: seq<Cell>, x: nat): (r: Option<(Entry, Entry)>)
    decreases |t| - x, 0
  {
    if !ChildrenInRange(t, x) then None
    else
      var l, r := t[x].childLeft, t[x].childRight;
      if t[l].flags.leaf then LeafPair(t[l], t[r])
      else InnerPair(t[l], t[r], Eval(H, t, l), Eval(H, t, r))
  }

  /** The entry a computable inner node hashes up to. */
  function Eval(H: Hasher, t: seq<Cell>, x: nat): Option<Entry>
    decreases |t| - x, 1
  {
    match Children(H, t, x)
    case None => None
    case Some((a, b)) => Some(Combine(H, a, b))
  }

  lemma InRange(t: seq<Cell>, x: nat)
    ensures ChildrenInRange(t, x) <==> x < |t| && x < t[x].childLeft < |t| && x < t[x].childRight < |t|
  {
  }

  lemma EvalOfChildren(H: Hasher, t: seq<Cell>, x: nat)
    ensures Eval(H, t, x) == match Children(H, t, x)
                             case None => None
                             case Some((a, b)) => Some(Entry(H([a, b]), a.start, b.end))
  {
  }

  // ---------- the whole check ----------

  /** An announcement index is reduced modulo the announcement count and shifted past the zero entry. */
  function Reduced(index: nat, totalAnns: nat): (r: nat)
    requires totalAnns >= 1
    ensures 1 <= r <= totalAnns
  {
    index % totalAnns + 1
  }

  function AnnIdxs(annIndexes: seq<nat>, totalAnns: nat): (r: seq<nat>)
    requires totalAnns >= 1
    ensures |r| == |annIndexes|
    ensures forall i :: 0 <= i < |r| ==> r[i] == Reduced(annIndexes[i], totalAnns)
  {
    seq(|annIndexes|, i requires 0 <= i < |annIndexes| => Reduced(annIndexes[i], totalAnns))
  }

  function FilledTable(annHashes: seq<Hash>, totalAnns: nat, annIndexes: seq<nat>, proof: seq<u8>): Option<seq<Cell>>
    requires |annHashes| == 4 && |annIndexes| == 4 && totalAnns >= 1
  {
    var anns := AnnIdxs(annIndexes, totalAnns);
    var t := Table(anns, totalAnns + 1);
    ReadFrom(WithHashes(t, Log2Ceil(totalAnns + 1), anns, annHashes, 4), 0, proof)
  }

  predicate IsRight(a: nat) {
    a % 2 == 1
  }

  /** Announcement `i` is a right leaf, and its left neighbour is not an announcement before it. */
  predicate RightFirst(anns: seq<nat>, i: nat)
    requires i < |anns|
  {
    IsRight(anns[i]) && forall j :: 0 <= j < i ==> anns[j] + 1 != anns[i]
  }

  /** A right leaf's own range, which comes with the proof, is not empty. */
  predicate RightNonEmpty(t: seq<Cell>, h: nat, a: nat) {
    var x := Walk(t, h, a, 0);
    x < |t| ==> RightLeaf(t[x]).start < RightLeaf(t[x]).end
  }

  /**
   * The leaf pass looks at the announcements in turn.  A right leaf it meets before the left one must
   * have a range; one it meets afterwards may also look like padding.
   */
  predicate RightsNonEmpty(t: seq<Cell>, h: nat, anns: seq<nat>) {
    forall i :: 0 <= i < |anns| && RightFirst(anns, i) ==> RightNonEmpty(t, h, anns[i])
  }

  function RootOf(H: Hasher, t: seq<Cell>): Option<Hash> {
    match Eval(H, t, 0)
    case None => None
    case Some(e) => if e.start == 0 && e.end == MAX64 then Some(H([e])) else None
  }

  /** The root hash a proof proves, if it is well-formed. */
  function Check(H: Hasher, annHashes: seq<Hash>, totalAnns: nat, annIndexes: seq<nat>, proof: seq<u8>): Option<Hash>
    requires |annHashes| == 4 && |annIndexes| == 4 && totalAnns >= 1
  {
    match FilledTable(annHashes, totalAnns, annIndexes, proof)
    case None => None
    case Some(t) =>
      if RightsNonEmpty(t, Log2Ceil(totalAnns + 1), AnnIdxs(annIndexes, totalAnns)) then RootOf(H, t) else None
  }
}
