/**
 * AnnStore::compute_tree from end to end: the locked buffers are merged into the index table, and the
 * tree is computed over it.
 */
module ComputeTree {
  import opened Words
  import opened RangeTree
  import opened TreeTable
  import opened TreeBuild
  import opened MinerTree
  import M = IndexMerge
  import T = IndexTable

  /** Every entry carries the prefix of the hash that is stored at its location, as push_anns puts it there. */
  ghost predicate InMemory(db: nat -> Hash, s: seq<M.AnnData>) {
    forall d :: d in s ==> d.mloc < 0x1_0000_0000 && db(d.mloc).l0 == d.pfx
  }

  /** The prefixes but zero of all entries. */
  ghost function Prefixes(s: seq<M.AnnData>): set<nat> {
    set d | d in s && d.pfx > 0 :: d.pfx
  }

  ghost function PrefixesOf(p: seq<M.AnnData>): set<nat> {
    set i | 0 <= i < |p| :: p[i].pfx
  }

  lemma {:induction false} RisingCount(p: seq<M.AnnData>)
    requires T.Rising(p)
    ensures |PrefixesOf(p)| == |p|
  {
    if |p| > 0 {
      var n := |p| - 1;
      RisingCount(p[..n]);
      assert PrefixesOf(p) == PrefixesOf(p[..n]) + {p[n].pfx} by {
        assert forall i :: 0 <= i < n ==> p[..n][i] == p[i];
      }
      assert p[n].pfx !in PrefixesOf(p[..n]);
    }
  }

  /** One entry for each prefix: as many entries as prefixes. */
  lemma OneEachCount(p: seq<M.AnnData>, s: seq<M.AnnData>)
    requires T.OneEach(p, s)
    ensures |p| == |Prefixes(s)| && PrefixesOf(p) == Prefixes(s)
  {
    RisingCount(p);
    forall x | x in Prefixes(s) ensures x in PrefixesOf(p) {
      var d :| d in s && d.pfx > 0 && d.pfx == x;
      assert T.HasPrefix(p, d.pfx);
    }
    forall x | x in PrefixesOf(p) ensures x in Prefixes(s) {
      var i :| 0 <= i < |p| && p[i].pfx == x;
      assert p[i] in s;
    }
    assert PrefixesOf(p) == Prefixes(s);
  }

  /** The hashes of the listed entries increase, unless the last prefix is the largest there is. */
  lemma ListedIncrease(db: nat -> Hash, p: seq<M.AnnData>, s: seq<M.AnnData>)
    requires T.OneEach(p, s) && InMemory(db, s)
    ensures Increasing(HashesOf(db, T.Mlocs(p))) <==> |p| > 0 && MAX64 !in Prefixes(s)
    ensures forall i :: 0 <= i < |p| ==> T.Mlocs(p)[i] == p[i].mloc && db(p[i].mloc).l0 == p[i].pfx
  {
    OneEachCount(p, s);
    var hashes := HashesOf(db, T.Mlocs(p));
    forall i | 0 <= i < |p|
      ensures T.Mlocs(p)[i] == p[i].mloc && db(p[i].mloc).l0 == p[i].pfx && hashes[i].l0 == p[i].pfx
    {
      assert p[i] in s;
    }
    LastDecides(hashes, p);
    if |p| > 0 {
      var n := |p| - 1;
      assert p[n].pfx in PrefixesOf(p);
      if p[n].pfx < MAX64 {
        forall x | x in PrefixesOf(p) ensures x < MAX64 {
          var i :| 0 <= i < |p| && p[i].pfx == x;
          assert i < n ==> p[i].pfx < p[n].pfx;
        }
      }
    }
  }

  lemma LastDecides(hashes: seq<Hash>, p: seq<M.AnnData>)
    requires |hashes| == |p| && T.Rising(p) && forall i :: 0 <= i < |p| ==> hashes[i].l0 == p[i].pfx
    requires |p| > 0 ==> p[0].pfx > 0
    ensures Increasing(hashes) <==> |p| > 0 && p[|p| - 1].pfx < MAX64
  {
    if |p| > 0 {
      forall i | 0 <= i < |p| - 1 ensures Leaf(hashes, i).start < Leaf(hashes, i).end {
        assert p[i].pfx < p[i + 1].pfx;
      }
      var n := |p| - 1;
      assert Leaf(hashes, n).start == p[n].pfx && Leaf(hashes, n).end == MAX64;
    }
  }

  /** What the whole comes to, for buffers with the entries of `s`. */
  ghost predicate Computable(s: seq<M.AnnData>, tblLength: nat) {
    MAX64 !in Prefixes(s) && EntryCountOf(|Prefixes(s)| + 1) <= tblLength
  }

  /** The tree's index table lists the location of one entry for each prefix but zero, in order. */
  ghost predicate Listed(db: nat -> Hash, table: seq<nat>, s: seq<M.AnnData>) {
    && |table| == |Prefixes(s)|
    && (forall i :: 0 <= i < |table| ==> IsListed(db, table[i], s))
    && (forall i, j :: 0 <= i < j < |table| ==> db(table[i]).l0 < db(table[j]).l0)
  }

  ghost predicate IsListed(db: nat -> Hash, mloc: nat, s: seq<M.AnnData>) {
    exists d :: d in s && d.mloc == mloc && d.pfx == db(mloc).l0 > 0
  }

  lemma TableIsListed(db: nat -> Hash, p: seq<M.AnnData>, s: seq<M.AnnData>)
    requires T.OneEach(p, s) && InMemory(db, s)
    ensures Listed(db, T.Mlocs(p), s)
  {
    OneEachCount(p, s);
    ListedIncrease(db, p, s);
    var table := T.Mlocs(p);
    forall i | 0 <= i < |table| ensures IsListed(db, table[i], s) {
      assert p[i] in s && p[i].mloc == table[i];
    }
    forall i, j | 0 <= i < j < |table| ensures db(table[i]).l0 < db(table[j]).l0 {
      assert p[i].pfx < p[j].pfx;
    }
  }

  /** The same entries in another order. */
  lemma SameEntries(db: nat -> Hash, s: seq<M.AnnData>, t: seq<M.AnnData>)
    requires multiset(s) == multiset(t)
    ensures Prefixes(s) == Prefixes(t) && (InMemory(db, s) <==> InMemory(db, t))
    ensures forall table: seq<nat> :: Listed(db, table, s) <==> Listed(db, table, t)
  {
    assert forall d :: d in s <==> d in multiset(s);
    assert forall d :: d in t <==> d in multiset(t);
    assert forall d :: d in s <==> d in t;
    forall mloc: nat ensures IsListed(db, mloc, s) <==> IsListed(db, mloc, t) {
    }
  }

  /**
   * compute_tree.  It panics when an entry of an earlier bucket exceeds one of a later bucket; it
   * reports an error when the tree is already computed or there is no prefix but zero; and otherwise
   * it finishes exactly when no prefix is 2^64 - 1 and the table has room for one leaf for each
   * distinct prefix and the zero entry.
   */
  method ComputeTree(bufs: seq<M.Locked>, order: seq<M.Arrival>, sort: seq<M.AnnData> -> seq<M.AnnData>,
                     tree: ProofTree)
    returns (r: Outcome)
    requires M.AllLocked(bufs) && M.Interleaving(order, |bufs|, M.BUF_RANGES) && M.IsSort(sort)
    requires tree.tbl.Length >= 1 && InMemory(tree.db, M.Flat(M.Datas(bufs)))
    modifies tree`indexTable, tree`size, tree`locked, tree.tbl
    ensures var s := M.Flat(M.Datas(bufs));
            && r == (if !T.InOrder(M.Datas(bufs)) then Panic
                     else if old(tree.locked.Some?) || Prefixes(s) == {} then Err
                     else if Computable(s, tree.tbl.Length) then Done
                     else Panic)
            && (T.InOrder(M.Datas(bufs)) ==> Listed(tree.db, tree.indexTable, s))
    ensures r == Done ==> tree.Valid() && |tree.indexTable| >= 1
                          && tree.locked == Some(RootHash(tree.H, tree.Leaves()))
  {
    hide *;
    ghost var s := M.Flat(M.Datas(bufs));
    var merged, table := T.MakeTable(bufs, order, sort);
    if table.None? { return Panic; }
    SameEntries(tree.db, merged, s);
    ghost var p := T.Picked(merged).value;
    OneEachCount(p, merged);
    ListedIncrease(tree.db, p, merged);
    TableIsListed(tree.db, p, merged);
    tree.indexTable := table.value;
    if tree.locked.Some? { return Err; }
    NotComputed(tree);
    r := tree.Compute();
    WillCompute(tree, s);
  }

  lemma NotComputed(tree: ProofTree)
    requires tree.locked.None?
    ensures tree.Valid()
  {
  }

  /** compute's conditions on the index table, in terms of the entries. */
  lemma WillCompute(tree: ProofTree, s: seq<M.AnnData>)
    requires Listed(tree.db, tree.indexTable, s)
    requires Increasing(HashesOf(tree.db, tree.indexTable)) <==> |tree.indexTable| > 0 && MAX64 !in Prefixes(s)
    ensures |tree.indexTable| == 0 <==> Prefixes(s) == {}
    ensures |tree.indexTable| > 0 ==>
              (Increasing(HashesOf(tree.db, tree.indexTable)) && tree.Fits() <==> Computable(s, tree.tbl.Length))
  {
    hide Increasing, IsListed, EntryCountOf;
  }
}
