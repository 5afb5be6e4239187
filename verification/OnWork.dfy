/**
 * From the classes of the store to a share (BlkMine::on_work2): the tree is computed over the buffers
 * of the chosen classes, committed to, and tried out.
 */
module OnWork {
  import opened Words
  import opened CryptoCycle
  import opened RangeTree
  import opened TreeTable
  import opened TreeBuild
  import opened Compress
  import opened MinerTree
  import opened Difficulty
  import opened Share
  import opened SelfTest
  import M = IndexMerge
  import T = IndexTable
  import C = ComputeTree
  import I = Intake

  /** A class of the store, with the locked buffers that are there to be taken. */
  datatype StoreClass = StoreClass(hw: HeightWork, bufs: seq<M.Locked>)

  /** Only the buffers of the chosen classes are taken. */
  function TakenBufs(classes: seq<StoreClass>, best: seq<HeightWork>): seq<M.Locked> {
    if |classes| == 0 then []
    else
      var n := |classes| - 1;
      TakenBufs(classes[..n], best) + if classes[n].hw in best then classes[n].bufs else []
  }

  /** The buffers of each class are locked, and their entries are true of announcements of that class. */
  ghost predicate ClassesOk(lib: BlockLibrary, anns: seq<Item>, classes: seq<StoreClass>) {
    forall c, b :: 0 <= c < |classes| && 0 <= b < |classes[c].bufs| ==>
      M.LockedOk(classes[c].bufs[b]) && I.AllFiled(lib, anns, classes[c].hw, classes[c].bufs[b].data)
  }

  /** An entry for an announcement of one of the chosen classes. */
  predicate FromBest(lib: BlockLibrary, anns: seq<Item>, best: seq<HeightWork>, d: M.AnnData) {
    d.mloc < |anns| && HeightWorkOf(lib, anns[d.mloc]) in best && AnnHash32(lib, anns[d.mloc]).l0 == d.pfx
  }

  ghost predicate BufsFromBest(lib: BlockLibrary, anns: seq<Item>, best: seq<HeightWork>, bufs: seq<M.Locked>) {
    forall b, d :: 0 <= b < |bufs| && d in bufs[b].data ==> FromBest(lib, anns, best, d)
  }

  lemma {:induction false} TakenAreOk(lib: BlockLibrary, anns: seq<Item>, classes: seq<StoreClass>,
                                      best: seq<HeightWork>)
    requires ClassesOk(lib, anns, classes)
    ensures M.AllLocked(TakenBufs(classes, best)) && BufsFromBest(lib, anns, best, TakenBufs(classes, best))
  {
    hide M.LockedOk, I.AllFiled, FromBest;
    if |classes| > 0 {
      var n := |classes| - 1;
      TakenAreOk(lib, anns, classes[..n], best);
      if classes[n].hw in best {
        forall b | 0 <= b < |classes[n].bufs| {
          FiledIsFromBest(lib, anns, classes[n].hw, best, classes[n].bufs[b].data);
        }
      }
    }
  }

  lemma FiledIsFromBest(lib: BlockLibrary, anns: seq<Item>, hw: HeightWork, best: seq<HeightWork>, s: seq<M.AnnData>)
    requires I.AllFiled(lib, anns, hw, s) && hw in best
    ensures forall d :: d in s ==> FromBest(lib, anns, best, d)
  {
    hide HeightWorkOf, AnnHash32;
  }

  /** So are all the entries put together. */
  lemma {:induction false} AllFromBest(lib: BlockLibrary, anns: seq<Item>, best: seq<HeightWork>, bufs: seq<M.Locked>)
    requires BufsFromBest(lib, anns, best, bufs)
    ensures forall d :: d in M.Flat(M.Datas(bufs)) ==> FromBest(lib, anns, best, d)
  {
    hide FromBest;
    if |bufs| > 0 {
      var n := |bufs| - 1;
      AllFromBest(lib, anns, best, bufs[..n]);
      assert M.Datas(bufs)[..n] == M.Datas(bufs[..n]) && M.Datas(bufs)[n] == bufs[n].data;
    }
  }

  /** The tree's hashes are those of the announcements in memory, which 32-bit locations reach. */
  ghost predicate SameMemory(lib: BlockLibrary, db: nat -> Hash, anns: seq<Item>) {
    |anns| <= 0x1_0000_0000 && forall m :: 0 <= m < |anns| ==> db(m) == AnnHash32(lib, anns[m])
  }

  lemma EntriesInMemory(lib: BlockLibrary, db: nat -> Hash, anns: seq<Item>, best: seq<HeightWork>,
                        s: seq<M.AnnData>)
    requires SameMemory(lib, db, anns) && forall d :: d in s ==> FromBest(lib, anns, best, d)
    ensures C.InMemory(db, s)
  {
    hide HeightWorkOf, AnnHash32;
    forall d | d in s ensures d.mloc < 0x1_0000_0000 && db(d.mloc).l0 == d.pfx {
      assert FromBest(lib, anns, best, d);
    }
  }

  /** What is listed is an announcement of a chosen class. */
  lemma ListedIsClassified(lib: BlockLibrary, db: nat -> Hash, anns: seq<Item>, best: seq<HeightWork>,
                           s: seq<M.AnnData>, table: seq<nat>)
    requires SameMemory(lib, db, anns) && forall d :: d in s ==> FromBest(lib, anns, best, d)
    requires C.Listed(db, table, s)
    ensures forall i :: 0 <= i < |table| ==>
              && table[i] < |anns| && db(table[i]) == AnnHash32(lib, anns[table[i]])
              && Classified(lib, anns[table[i]], best)
  {
    hide HeightWorkOf, AnnHash32;
    forall i | 0 <= i < |table|
      ensures table[i] < |anns| && db(table[i]) == AnnHash32(lib, anns[table[i]])
      ensures Classified(lib, anns[table[i]], best)
    {
      assert C.IsListed(db, table[i], s);
      var d :| d in s && d.mloc == table[i] && d.pfx == db(table[i]).l0 > 0;
      assert FromBest(lib, anns, best, d);
    }
  }

  /** A valid tree has no leaf of all ones: such a leaf would have no range. */
  lemma NoLeafAllOnes(H: Hasher, leaves: seq<Entry>)
    requires NeverAllOnes(H) && ValidLeaves(leaves)
    ensures NoAllOnes(H, leaves)
  {
    hide NeverAllOnes;
  }

  /** A table made for fewer than 2^32 announcements holds a tree of fewer than 2^32. */
  lemma FewEnough(maxAnns: u32, n: nat)
    requires EntryCountOf(n + 1) <= EntryCountOf(maxAnns)
    ensures n < 0x1_0000_0000
  {
    hide EntryCountOf;
    if n > 0 { TableHoldsIff(maxAnns, n + 1); }
  }

  /**
   * The tree of on_work2: reset and computed over the chosen classes.  When it is done, the tree is
   * over announcements in memory that are all of those classes.
   */
  method BuildTree(lib: BlockLibrary, anns: seq<Item>, classes: seq<StoreClass>, best: seq<HeightWork>,
                   order: seq<M.Arrival>, sort: seq<M.AnnData> -> seq<M.AnnData>, tree: ProofTree, maxAnns: u32)
    returns (r: Outcome)
    requires ClassesOk(lib, anns, classes) && SameMemory(lib, tree.db, anns) && tree.H == lib.H && NeverAllOnes(lib.H)
    requires M.Interleaving(order, |TakenBufs(classes, best)|, M.BUF_RANGES) && M.IsSort(sort)
    requires tree.tbl.Length == EntryCountOf(maxAnns)
    modifies tree`indexTable, tree`size, tree`locked, tree.tbl
    ensures var s := M.Flat(M.Datas(TakenBufs(classes, best)));
            r == if !T.InOrder(M.Datas(TakenBufs(classes, best))) then Panic
                 else if C.Prefixes(s) == {} then Err
                 else if C.Computable(s, tree.tbl.Length) then Done
                 else Panic
    ensures r == Done ==> TreeReady(tree, lib, anns, best)
  {
    hide *;
    var bufs := TakenBufs(classes, best);
    ghost var s := M.Flat(M.Datas(bufs));
    TakenAreOk(lib, anns, classes, best);
    AllFromBest(lib, anns, best, bufs);
    EntriesInMemory(lib, tree.db, anns, best, s);
    tree.Reset();
    r := C.ComputeTree(bufs, order, sort, tree);
    if r == Done {
      ListedIsClassified(lib, tree.db, anns, best, s, tree.indexTable);
      ReadyNow(tree, lib, anns, best, s, maxAnns);
    }
  }

  lemma ReadyNow(tree: ProofTree, lib: BlockLibrary, anns: seq<Item>, best: seq<HeightWork>, s: seq<M.AnnData>,
                 maxAnns: u32)
    requires tree.Valid() && tree.locked.Some? && tree.H == lib.H && NeverAllOnes(lib.H) && |tree.indexTable| >= 1
    requires C.Listed(tree.db, tree.indexTable, s) && C.Computable(s, tree.tbl.Length)
    requires tree.tbl.Length == EntryCountOf(maxAnns)
    requires forall i :: 0 <= i < |tree.indexTable| ==>
               && tree.indexTable[i] < |anns|
               && tree.db(tree.indexTable[i]) == AnnHash32(lib, anns[tree.indexTable[i]])
               && Classified(lib, anns[tree.indexTable[i]], best)
    ensures TreeReady(tree, lib, anns, best)
  {
    hide HeightWorkOf, AnnHash32, Classified, EntryCountOf, NeverAllOnes, ValidLeaves, HoldsTree, RootHash, LeafRow,
         C.IsListed, NoAllOnes;
    FewEnough(maxAnns, |tree.indexTable|);
    NoLeafAllOnes(lib.H, tree.Leaves());
  }

  /**
   * The self-test from the store's classes on: once the tree is done, with a usable largest effective
   * target the verdict on the share is the verdict on its work, and otherwise the commitment is
   * refused, which is what becomes of a set with a class that is too young.
   */
  method BuildAndTest(lib: BlockLibrary, anns: seq<Item>, classes: seq<StoreClass>, best: seq<HeightWork>,
                      order: seq<M.Arrival>, sort: seq<M.AnnData> -> seq<M.AnnData>, tree: ProofTree, maxAnns: u32,
                      header: BlockHeader, height: u32, shareTarget: u32, stale: seq<Item>, tries: nat)
    returns (r: Outcome, hap: Option<HeaderAndProof>, v: Option<Verdict>)
    requires ClassesOk(lib, anns, classes) && SameMemory(lib, tree.db, anns) && tree.H == lib.H && NeverAllOnes(lib.H)
    requires M.Interleaving(order, |TakenBufs(classes, best)|, M.BUF_RANGES) && M.IsSort(sort)
    requires tree.tbl.Length == EntryCountOf(maxAnns) && |stale| == NUM_ANNS
    modifies tree`indexTable, tree`size, tree`locked, tree.tbl
    ensures v.Some? ==> r == Done && hap.Some? && TreeReady(tree, lib, anns, best)
    ensures v.Some? ==> exists mew :: IsMaxOf(mew, best, height) &&
                          if IsMinAnnDiffOk(mew) then
                            WorkDecides(v.value, WorkHash(lib, hap.value), header.workBits, shareTarget,
                                        CommitOf(tree, lib, anns, best, mew))
                          else v.value == Returned(BAD_COINBASE)
    ensures v.Some? && (exists hw :: hw in best && height < hw.blockHeight + ANN_WAIT_PERIOD) ==>
              v.value == Returned(BAD_COINBASE)
  {
    hide *;
    hap, v := None, None;
    r := BuildTree(lib, anns, classes, best, order, sort, tree, maxAnns);
    if r != Done { return; }
    var mew;
    mew, hap, v := RunSelfTest(tree, lib, header, anns, best, height, shareTarget, stale, tries);
    if v.Some? {
      if hw :| hw in best && height < hw.blockHeight + ANN_WAIT_PERIOD {
        TooYoungIsUnusable(best, height, mew.value, hw);
      }
    }
  }
}
