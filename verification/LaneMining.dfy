/**
 * The four-lane mining loops (CryptoCycle_blockMineMulti, CryptoCycle_annMineMulti): whatever stale
 * bytes the lanes start from, each ends with the reference hash and item numbers of its own nonce.
 */
module LaneMining {
  import opened Words
  import opened CycleState
  import opened CryptoCycle
  import opened CycleMining

  const UPDATES: nat := 4

  /** Memory and logical locations of the announcements one lane used. */
  datatype BlockRes = BlockRes(mlocs: seq<nat>, llocs: seq<nat>)

  ghost predicate Lanes(st: seq<array<byte>>) {
    && |st| == PAR_STATES && (forall k :: 0 <= k < PAR_STATES ==> st[k].Length == STATE_SZ)
    && (forall j, k :: 0 <= j < k < PAR_STATES ==> st[j] != st[k])
  }

  /** Which announcement an item number picks from an indexed set. */
  function BlockPick(annCount: nat, annIndexes: seq<nat>, anns: seq<Item>): nat -> Item
    requires 0 < annCount <= |annIndexes| && forall i :: 0 <= i < annCount ==> annIndexes[i] < |anns|
  {
    (n: nat) => anns[annIndexes[n % annCount]]
  }

  function TablePick(table: seq<Item>): nat -> Item
    requires |table| == TABLE_SZ
  {
    (n: nat) => table[n % TABLE_SZ]
  }

  /** The nonce of lane `k`, wrapping as uint32_t does. */
  function LaneNonce(nonceBase: u32, k: nat): u32
    requires k < PAR_STATES
  {
    (nonceBase + k) % 0x1_0000_0000
  }

  function Nonce32(n: u32): bv32 { n as bv32 }
  function NonceWord(n: u32): bv64 { Nonce32(n) as bv64 }

  /** The reference result of one announcement attempt: four full updates, then the final hash. */
  function AnnHash(l: Library, seed: seq<byte>, nonce: u32, pick: nat -> Item): Full {
    Final(l, Reference(l, Init0(l, seed, NonceWord(nonce)), pick, UPDATES))
  }

  /** The reference result of one block attempt. */
  function BlockHash(l: Library, seed: seq<byte>, nonce: u32, pick: nat -> Item): Full {
    Final(l, Smul(l, Reference(l, Init0(l, seed, NonceWord(nonce)), pick, UPDATES)))
  }

  /** Item number `j` of an attempt. */
  function AttemptItem(l: Library, seed: seq<byte>, nonce: u32, pick: nat -> Item, j: nat): nat {
    NthItem(l, Init0(l, seed, NonceWord(nonce)), pick, j)
  }

  /** Lane `k` has done `n` updates. */
  ghost predicate LaneAt(l: Library, st: array<byte>, start: Full, pick: nat -> Item, n: nat)
    reads st
  {
    st.Length == STATE_SZ && st[..] == Fast(l, start, pick, n)
  }

  method InitLanes(l: Library, st: seq<array<byte>>, seed: seq<byte>, nonceBase: u32, ghost pick: nat -> Item)
    returns (ghost starts: seq<Full>)
    requires Lanes(st)
    modifies set k | 0 <= k < |st| :: st[k]
    ensures |starts| == PAR_STATES && forall k :: 0 <= k < PAR_STATES ==> LaneAt(l, st[k], starts[k], pick, 0)
    ensures forall k :: 0 <= k < PAR_STATES ==> Starts(l, starts[k], seed, LaneNonce(nonceBase, k))
  {
    hide Fast, Init, Starts;
    starts := [];
    for k := 0 to PAR_STATES
      invariant |starts| == k
      invariant forall i :: 0 <= i < k ==> st[i][..] == starts[i] && Starts(l, starts[i], seed, LaneNonce(nonceBase, i))
    {
      StartsFromInit(l, st[k][..], seed, LaneNonce(nonceBase, k));
      InitInPlace(l, st[k], seed, Nonce32(LaneNonce(nonceBase, k)));
      starts := starts + [st[k][..]];
    }
    forall k | 0 <= k < PAR_STATES ensures LaneAt(l, st[k], starts[k], pick, 0) {
      FastStart(l, starts[k], pick);
    }
  }

  lemma FastStart(l: Library, s: Full, pick: nat -> Item)
    ensures Fast(l, s, pick, 0) == s
  {
  }

  /** A state as good as the reference start for the seed and nonce. */
  ghost predicate Starts(l: Library, s: Full, seed: seq<byte>, nonce: u32) {
    AgreeOutside(s, Init0(l, seed, NonceWord(nonce)), ITEM_AT, ANN_END)
  }

  lemma StartsFromInit(l: Library, stale: Full, seed: seq<byte>, nonce: u32)
    ensures Starts(l, Init(l, stale, seed, Nonce32(nonce)), seed, nonce)
  {
    hide Init, Init0, Nonce32;
    InitAgrees(l, stale, seed, Nonce32(nonce));
  }

  /** One update in every lane, each with the item picked for it before. */
  method UpdateLanes(l: Library, st: seq<array<byte>>, items: seq<Item>, n: nat, ghost starts: seq<Full>,
                     ghost pick: nat -> Item)
    requires Lanes(st) && |items| == |starts| == PAR_STATES && n < 4
    requires forall k :: 0 <= k < PAR_STATES ==> LaneAt(l, st[k], starts[k], pick, n)
    requires forall k :: 0 <= k < PAR_STATES ==> items[k] == pick(ItemNo(Fast(l, starts[k], pick, n)))
    modifies set k | 0 <= k < |st| :: st[k]
    ensures forall k :: 0 <= k < PAR_STATES ==> LaneAt(l, st[k], starts[k], pick, n + 1)
  {
    hide Fast, Update;
    for k := 0 to PAR_STATES
      invariant forall i :: 0 <= i < PAR_STATES ==> LaneAt(l, st[i], starts[i], pick, if i < k then n + 1 else n)
    {
      FastStep(l, starts[k], pick, n);
      UpdateInPlace(l, st[k], items[k], n == 3);
    }
  }

  lemma FastStep(l: Library, s: Full, pick: nat -> Item, n: nat)
    ensures var t := Fast(l, s, pick, n);
            Fast(l, s, pick, n + 1) == Update(l, t, pick(ItemNo(t)), n == 3)
  {
  }

  /** What every lane has become after four updates, and the item numbers on the way. */
  lemma LaneIsReference(l: Library, s: Full, seed: seq<byte>, nonce: u32, pick: nat -> Item, n: nat)
    requires Starts(l, s, seed, nonce) && n <= 4
    ensures n == 4 ==> Fast(l, s, pick, 4) == Reference(l, Init0(l, seed, NonceWord(nonce)), pick, 4)
    ensures ItemNo(Fast(l, s, pick, n)) == AttemptItem(l, seed, nonce, pick, n)
  {
    hide Fast, Reference, Init0, AgreeOutside;
    FastFollowsReference(l, s, Init0(l, seed, NonceWord(nonce)), pick, n);
  }

  method GetItemNo(st: array<byte>) returns (n: nat)
    requires st.Length == STATE_SZ
    ensures n == ItemNo(st[..])
  {
    assert st[..][16..24] == st[16..24];
    n := Word64(st[16..24]) as nat;
  }

  /** The item number each lane names, reduced to the size of the set. */
  method PickAll(l: Library, st: seq<array<byte>>, size: nat, n: nat, ghost starts: seq<Full>, ghost pick: nat -> Item)
    returns (picks: seq<nat>)
    requires Lanes(st) && |starts| == PAR_STATES && size > 0
    requires forall k :: 0 <= k < PAR_STATES ==> LaneAt(l, st[k], starts[k], pick, n)
    ensures |picks| == PAR_STATES
    ensures forall k :: 0 <= k < PAR_STATES ==> picks[k] == ItemNo(Fast(l, starts[k], pick, n)) % size
  {
    hide Fast, ItemNo;
    picks := [];
    for k := 0 to PAR_STATES
      invariant |picks| == k
      invariant forall i :: 0 <= i < k ==> picks[i] == ItemNo(Fast(l, starts[i], pick, n)) % size
    {
      assert LaneAt(l, st[k], starts[k], pick, n);
      var itemNo := GetItemNo(st[k]);
      picks := picks + [itemNo % size];
    }
  }

  method FinalLanes(l: Library, st: seq<array<byte>>, ghost done: seq<Full>)
    requires Lanes(st) && |done| == PAR_STATES && forall k :: 0 <= k < PAR_STATES ==> st[k][..] == done[k]
    modifies set k | 0 <= k < |st| :: st[k]
    ensures forall k :: 0 <= k < PAR_STATES ==> st[k].Length == STATE_SZ && st[k][..] == Final(l, done[k])
  {
    hide Final;
    for k := 0 to PAR_STATES
      invariant forall i :: 0 <= i < PAR_STATES ==> st[i][..] == if i < k then Final(l, done[i]) else done[i]
    {
      FinalInPlace(l, st[k]);
    }
  }

  method SmulLanes(l: Library, st: seq<array<byte>>, ghost done: seq<Full>)
    requires Lanes(st) && |done| == PAR_STATES && forall k :: 0 <= k < PAR_STATES ==> st[k][..] == done[k]
    modifies set k | 0 <= k < |st| :: st[k]
    ensures forall k :: 0 <= k < PAR_STATES ==> st[k].Length == STATE_SZ && st[k][..] == Smul(l, done[k])
  {
    hide Smul;
    for k := 0 to PAR_STATES
      invariant forall i :: 0 <= i < PAR_STATES ==> st[i][..] == if i < k then Smul(l, done[i]) else done[i]
    {
      SmulInPlace(l, st[k]);
    }
  }

  /** The first `n` item numbers of the attempt with this nonce, in both forms the miner reports. */
  ghost predicate Reports(l: Library, r: BlockRes, seed: seq<byte>, nonce: u32, pick: nat -> Item,
                          annCount: nat, annIndexes: seq<nat>, n: nat)
    requires 0 < annCount <= |annIndexes|
  {
    && |r.llocs| == |r.mlocs| == n
    && (forall j :: 0 <= j < n ==> r.llocs[j] == AttemptItem(l, seed, nonce, pick, j) % annCount)
    && (forall j :: 0 <= j < n ==> r.mlocs[j] == annIndexes[AttemptItem(l, seed, nonce, pick, j) % annCount])
  }

  /** Add the locations of the next announcement to each lane's report. */
  method ReportAll(l: Library, res: seq<BlockRes>, picks: seq<nat>, seed: seq<byte>, nonceBase: u32, annCount: nat,
                   annIndexes: seq<nat>, anns: seq<Item>, n: nat, ghost starts: seq<Full>, ghost pick: nat -> Item)
    returns (res': seq<BlockRes>, items: seq<Item>)
    requires 0 < annCount <= |annIndexes| && forall i :: 0 <= i < annCount ==> annIndexes[i] < |anns|
    requires pick == BlockPick(annCount, annIndexes, anns)
    requires |res| == |picks| == |starts| == PAR_STATES && n < 4
    requires forall k :: 0 <= k < PAR_STATES ==> Starts(l, starts[k], seed, LaneNonce(nonceBase, k))
    requires forall k :: 0 <= k < PAR_STATES ==> picks[k] == ItemNo(Fast(l, starts[k], pick, n)) % annCount
    requires forall k :: 0 <= k < PAR_STATES ==>
               Reports(l, res[k], seed, LaneNonce(nonceBase, k), pick, annCount, annIndexes, n)
    ensures |res'| == |items| == PAR_STATES
    ensures forall k :: 0 <= k < PAR_STATES ==>
              Reports(l, res'[k], seed, LaneNonce(nonceBase, k), pick, annCount, annIndexes, n + 1)
    ensures forall k :: 0 <= k < PAR_STATES ==> items[k] == pick(ItemNo(Fast(l, starts[k], pick, n)))
  {
    hide Fast, ItemNo, AttemptItem, Starts, LaneNonce, Reports;
    res', items := [], [];
    for k := 0 to PAR_STATES
      invariant |res'| == |items| == k
      invariant forall i :: 0 <= i < k ==>
                  Reports(l, res'[i], seed, LaneNonce(nonceBase, i), pick, annCount, annIndexes, n + 1)
      invariant forall i :: 0 <= i < k ==> items[i] == pick(ItemNo(Fast(l, starts[i], pick, n)))
    {
      LaneIsReference(l, starts[k], seed, LaneNonce(nonceBase, k), pick, n);
      var x := annIndexes[picks[k]];
      var r := BlockRes(res[k].mlocs + [x], res[k].llocs + [picks[k]]);
      ReportsMore(l, res[k], seed, LaneNonce(nonceBase, k), pick, annCount, annIndexes, n, picks[k]);
      res' := res' + [r];
      items := items + [anns[x]];
    }
  }

  lemma ReportsMore(l: Library, r: BlockRes, seed: seq<byte>, nonce: u32, pick: nat -> Item,
                    annCount: nat, annIndexes: seq<nat>, n: nat, loc: nat)
    requires 0 < annCount <= |annIndexes| && Reports(l, r, seed, nonce, pick, annCount, annIndexes, n)
    requires loc == AttemptItem(l, seed, nonce, pick, n) % annCount
    ensures Reports(l, BlockRes(r.mlocs + [annIndexes[loc]], r.llocs + [loc]), seed, nonce, pick, annCount, annIndexes,
                    n + 1)
  {
    hide AttemptItem;
  }

  /**
   * CryptoCycle_blockMineMulti: every lane reports the locations that the reference attempt with its
   * nonce uses, and ends in the reference state.
   */
  method BlockMineMulti(l: Library, st: seq<array<byte>>, hdrHash: seq<byte>, nonceBase: u32, annCount: nat,
                        annIndexes: seq<nat>, anns: seq<Item>)
    returns (res: seq<BlockRes>)
    requires Lanes(st)
    requires 0 < annCount <= |annIndexes| && forall i :: 0 <= i < annCount ==> annIndexes[i] < |anns|
    modifies set k | 0 <= k < |st| :: st[k]
    ensures |res| == PAR_STATES
    ensures var pick := BlockPick(annCount, annIndexes, anns);
            forall k :: 0 <= k < PAR_STATES ==>
              && st[k][..] == BlockHash(l, hdrHash, LaneNonce(nonceBase, k), pick)
              && Reports(l, res[k], hdrHash, LaneNonce(nonceBase, k), pick, annCount, annIndexes, 4)
  {
    hide Fast, Reference, Smul, Final, Starts, LaneNonce, AttemptItem;
    ghost var pick := BlockPick(annCount, annIndexes, anns);
    ghost var starts := InitLanes(l, st, hdrHash, nonceBase, pick);
    res := seq(PAR_STATES, _ => BlockRes([], []));
    for j := 0 to 4
      invariant |res| == PAR_STATES
      invariant forall k :: 0 <= k < PAR_STATES ==> LaneAt(l, st[k], starts[k], pick, j)
      invariant forall k :: 0 <= k < PAR_STATES ==>
                  Reports(l, res[k], hdrHash, LaneNonce(nonceBase, k), pick, annCount, annIndexes, j)
    {
      hide Reports;
      var picks := PickAll(l, st, annCount, j, starts, pick);
      var items;
      res, items := ReportAll(l, res, picks, hdrHash, nonceBase, annCount, annIndexes, anns, j, starts, pick);
      UpdateLanes(l, st, items, j, starts, pick);
    }
    hide Reports;
    ghost var done: seq<Full> := seq(PAR_STATES, k requires 0 <= k < PAR_STATES => Fast(l, starts[k], pick, 4));
    SmulLanes(l, st, done);
    ghost var multiplied: seq<Full> := seq(PAR_STATES, k requires 0 <= k < PAR_STATES => Smul(l, done[k]));
    FinalLanes(l, st, multiplied);
    forall k | 0 <= k < PAR_STATES ensures st[k][..] == BlockHash(l, hdrHash, LaneNonce(nonceBase, k), pick) {
      LaneIsReference(l, starts[k], hdrHash, LaneNonce(nonceBase, k), pick, 4);
    }
  }

  /** CryptoCycle_annMineMulti: the same over a fixed table, reporting the fourth item's number. */
  method AnnMineMulti(l: Library, st: seq<array<byte>>, hdrHash: seq<byte>, nonceBase: u32, table: seq<Item>)
    returns (itemNos: seq<nat>)
    requires Lanes(st) && |table| == TABLE_SZ
    modifies set k | 0 <= k < |st| :: st[k]
    ensures |itemNos| == PAR_STATES
    ensures forall k :: 0 <= k < PAR_STATES ==>
              && st[k][..] == AnnHash(l, hdrHash, LaneNonce(nonceBase, k), TablePick(table))
              && itemNos[k] == AttemptItem(l, hdrHash, LaneNonce(nonceBase, k), TablePick(table), 3) % TABLE_SZ
  {
    hide Fast, Reference, Final, Starts, LaneNonce, AttemptItem, ItemNo;
    ghost var pick := TablePick(table);
    ghost var starts := InitLanes(l, st, hdrHash, nonceBase, pick);
    itemNos := seq(PAR_STATES, _ => 0);
    for i := 0 to 4
      invariant |itemNos| == PAR_STATES
      invariant forall k :: 0 <= k < PAR_STATES ==> LaneAt(l, st[k], starts[k], pick, i)
      invariant i == 4 ==> forall k :: 0 <= k < PAR_STATES ==>
                  itemNos[k] == ItemNo(Fast(l, starts[k], pick, 3)) % TABLE_SZ
    {
      var picks := PickAll(l, st, TABLE_SZ, i, starts, pick);
      var items: seq<Item> := seq(PAR_STATES, k requires 0 <= k < PAR_STATES => table[picks[k]]);
      if i == 3 { itemNos := picks; }
      UpdateLanes(l, st, items, i, starts, pick);
    }
    ghost var done: seq<Full> := seq(PAR_STATES, k requires 0 <= k < PAR_STATES => Fast(l, starts[k], pick, 4));
    FinalLanes(l, st, done);
    forall k | 0 <= k < PAR_STATES
      ensures st[k][..] == AnnHash(l, hdrHash, LaneNonce(nonceBase, k), pick)
           && itemNos[k] == AttemptItem(l, hdrHash, LaneNonce(nonceBase, k), pick, 3) % TABLE_SZ
    {
      LaneIsReference(l, starts[k], hdrHash, LaneNonce(nonceBase, k), pick, 4);
      LaneIsReference(l, starts[k], hdrHash, LaneNonce(nonceBase, k), pick, 3);
    }
  }
}
