/**
 * The index table (AnnStore::compute_tree): the scattered buckets are sorted one by one and then read
 * from front to back, which panics where a prefix is smaller than the one before it.
 */
module IndexTable {
  import opened Words
  import opened IndexMerge

  // ---------- reading the sorted entries ----------

  /** The entries whose prefix is above every earlier one and above zero; None is the panic. */
  function Picked(s: seq<AnnData>): Option<seq<AnnData>> {
    if |s| == 0 then Some([])
    else
      var d := s[|s| - 1];
      match Picked(s[..|s| - 1])
      case None => None
      case Some(p) =>
        if d.pfx > LastPrefix(p) then Some(p + [d]) else if d.pfx < LastPrefix(p) then None else Some(p)
  }

  function LastPrefix(p: seq<AnnData>): nat {
    if |p| == 0 then 0 else p[|p| - 1].pfx
  }

  function Mlocs(p: seq<AnnData>): (t: seq<nat>)
    ensures |t| == |p|
  {
    seq(|p|, k requires 0 <= k < |p| => p[k].mloc % 0x1_0000_0000)
  }

  /** The loop over infos; None is "hash prefix went backwards!". */
  method ReadTable(infos: array<AnnData>) returns (table: Option<seq<nat>>)
    ensures table.None? <==> Picked(infos[..]).None?
    ensures table.Some? ==> table.value == Mlocs(Picked(infos[..]).value)
  {
    var last, t := 0, [];
    for k := 0 to infos.Length
      invariant Picked(infos[..k]).Some?
      invariant t == Mlocs(Picked(infos[..k]).value) && last == LastPrefix(Picked(infos[..k]).value)
    {
      assert infos[..k + 1][..k] == infos[..k];
      if infos[k].pfx > last {
        t := t + [infos[k].mloc % 0x1_0000_0000];
        last := infos[k].pfx;
      } else if infos[k].pfx < last {
        PanicLasts(infos[..], k + 1);
        return None;
      }
    }
    assert infos[..infos.Length] == infos[..];
    table := Some(t);
  }

  lemma {:induction false} PanicLasts(s: seq<AnnData>, k: nat)
    requires k <= |s| && Picked(s[..k]).None?
    ensures Picked(s).None?
    decreases |s|
  {
    if k < |s| {
      assert s[..|s| - 1][..k] == s[..k];
      PanicLasts(s[..|s| - 1], k);
    } else {
      assert s[..k] == s;
    }
  }

  /** What a table over the entries of `s` should list: one entry for each prefix but zero, in order. */
  ghost predicate OneEach(p: seq<AnnData>, s: seq<AnnData>) {
    Rising(p) && FromEntries(p, s) && Covers(p, s)
  }

  ghost predicate Rising(p: seq<AnnData>) {
    forall i, j :: 0 <= i < j < |p| ==> p[i].pfx < p[j].pfx
  }

  ghost predicate FromEntries(p: seq<AnnData>, s: seq<AnnData>) {
    forall i :: 0 <= i < |p| ==> p[i].pfx > 0 && p[i] in s
  }

  ghost predicate Covers(p: seq<AnnData>, s: seq<AnnData>) {
    forall d :: d in s && d.pfx > 0 ==> HasPrefix(p, d.pfx)
  }

  ghost predicate HasPrefix(p: seq<AnnData>, pfx: nat) {
    exists i :: 0 <= i < |p| && p[i].pfx == pfx
  }

  /** Reading panics exactly when the entries are not sorted; otherwise every prefix but zero is listed once. */
  lemma {:induction false} ReadsSorted(s: seq<AnnData>)
    ensures Picked(s).Some? <==> Sorted(s)
    ensures Picked(s).Some? ==>
              && OneEach(Picked(s).value, s)
              && LastPrefix(Picked(s).value) == if |s| == 0 then 0 else s[|s| - 1].pfx
  {
    if |s| == 0 {
      NothingPicked(s);
    } else {
      var n := |s| - 1;
      ReadsSorted(s[..n]);
      PickedUnfolds(s);
      SortedPrefix(s);
      hide Picked, Sorted, OneEach;
      if Picked(s[..n]).Some? {
        SortedExtends(s);
        if Sorted(s) { PicksOneMore(s, Picked(s[..n]).value, Picked(s).value); }
      }
    }
  }

  lemma NothingPicked(s: seq<AnnData>)
    requires |s| == 0
    ensures Picked(s) == Some([]) && Sorted(s) && OneEach([], s)
  {
  }

  lemma PickedUnfolds(s: seq<AnnData>)
    requires |s| > 0
    ensures var d := s[|s| - 1];
            Picked(s) == match Picked(s[..|s| - 1])
                         case None => None
                         case Some(p) =>
                           if d.pfx > LastPrefix(p) then Some(p + [d])
                           else if d.pfx < LastPrefix(p) then None else Some(p)
  {
  }

  lemma SortedPrefix(s: seq<AnnData>)
    requires |s| > 0
    ensures Sorted(s) ==> Sorted(s[..|s| - 1])
  {
  }

  lemma SortedExtends(s: seq<AnnData>)
    requires |s| > 0 && Sorted(s[..|s| - 1])
    ensures Sorted(s) <==> (|s| > 1 ==> s[|s| - 2].pfx <= s[|s| - 1].pfx)
  {
    var n := |s| - 1;
    if |s| > 1 && s[n - 1].pfx <= s[n].pfx {
      forall i, j | 0 <= i < j < |s| ensures s[i].pfx <= s[j].pfx {
        assert i < n - 1 ==> s[..n][i].pfx <= s[..n][n - 1].pfx;
        assert j < n ==> s[..n][i].pfx <= s[..n][j].pfx;
      }
    }
  }

  lemma PicksOneMore(s: seq<AnnData>, p: seq<AnnData>, q: seq<AnnData>)
    requires |s| > 0 && OneEach(p, s[..|s| - 1]) && s[|s| - 1].pfx >= LastPrefix(p)
    requires q == if s[|s| - 1].pfx > LastPrefix(p) then p + [s[|s| - 1]] else p
    ensures OneEach(q, s)
  {
    hide Covers, FromEntries, Rising;
    CoversOneMore(s, p, q);
    FromOneMore(s, p, q);
    RisesOneMore(p, q, s[|s| - 1]);
  }

  lemma RisesOneMore(p: seq<AnnData>, q: seq<AnnData>, d: AnnData)
    requires Rising(p) && d.pfx >= LastPrefix(p) && q == if d.pfx > LastPrefix(p) then p + [d] else p
    ensures Rising(q)
  {
  }

  lemma FromOneMore(s: seq<AnnData>, p: seq<AnnData>, q: seq<AnnData>)
    requires |s| > 0 && FromEntries(p, s[..|s| - 1])
    requires q == if s[|s| - 1].pfx > LastPrefix(p) then p + [s[|s| - 1]] else p
    ensures FromEntries(q, s)
  {
    forall i | 0 <= i < |q| ensures q[i].pfx > 0 && q[i] in s {
      if i < |p| { assert p[i] in s[..|s| - 1]; }
    }
  }

  lemma CoversOneMore(s: seq<AnnData>, p: seq<AnnData>, q: seq<AnnData>)
    requires |s| > 0 && Covers(p, s[..|s| - 1]) && s[|s| - 1].pfx >= LastPrefix(p)
    requires q == if s[|s| - 1].pfx > LastPrefix(p) then p + [s[|s| - 1]] else p
    ensures Covers(q, s)
  {
    var n := |s| - 1;
    forall d | d in s && d.pfx > 0 ensures HasPrefix(q, d.pfx) {
      if d == s[n] {
        assert q[|q| - 1].pfx == d.pfx;
      } else {
        InFront(s, d);
        assert HasPrefix(p, d.pfx);
        KeepsPrefix(p, q, d.pfx);
      }
    }
  }

  lemma InFront(s: seq<AnnData>, d: AnnData)
    requires d in s && d != s[|s| - 1]
    ensures d in s[..|s| - 1]
  {
  }

  lemma KeepsPrefix(p: seq<AnnData>, q: seq<AnnData>, pfx: nat)
    requires HasPrefix(p, pfx) && p <= q
    ensures HasPrefix(q, pfx)
  {
    var i :| 0 <= i < |p| && p[i].pfx == pfx;
    assert q[i].pfx == pfx;
  }

  // ---------- the regions ----------

  /** Region `i` of the entries. */
  function Region(infos: seq<AnnData>, sizes: seq<nat>, i: nat): seq<AnnData>
    requires i < |sizes| && |infos| == Offset(sizes, |sizes|)
  {
    RegionsApart(sizes, i, |sizes| - 1);
    infos[Offset(sizes, i)..Offset(sizes, i + 1)]
  }

  function Regions(infos: seq<AnnData>, sizes: seq<nat>): (r: seq<seq<AnnData>>)
    requires |infos| == Offset(sizes, |sizes|)
    ensures |r| == |sizes|
  {
    seq(|sizes|, i requires 0 <= i < |sizes| => Region(infos, sizes, i))
  }

  /** The regions put together are all of the entries. */
  lemma {:induction false} RegionsFlat(infos: seq<AnnData>, sizes: seq<nat>, k: nat)
    requires |infos| == Offset(sizes, |sizes|) && k <= |sizes|
    ensures Offset(sizes, k) <= |infos| && Flat(Regions(infos, sizes)[..k]) == infos[..Offset(sizes, k)]
  {
    hide Offset;
    var r := Regions(infos, sizes);
    if k == 0 {
      NoSizes(sizes);
    } else {
      RegionsFlat(infos, sizes, k - 1);
      RegionsApart(sizes, k - 1, |sizes| - 1);
      assert r[..k][..k - 1] == r[..k - 1];
    }
  }

  lemma NoSizes(sizes: seq<nat>)
    ensures Offset(sizes, 0) == 0
  {
  }

  ghost predicate SortedUpTo(infos: seq<AnnData>, was: seq<AnnData>, sizes: seq<nat>,
                             sort: seq<AnnData> -> seq<AnnData>, k: nat)
    requires |infos| == |was| == Offset(sizes, |sizes|)
  {
    forall i :: 0 <= i < |sizes| ==>
                  Region(infos, sizes, i) == if i < k then sort(Region(was, sizes, i)) else Region(was, sizes, i)
  }

  /** The buckets are sorted one by one, each in its own region. */
  method SortRegions(infos: array<AnnData>, sizes: seq<nat>, sort: seq<AnnData> -> seq<AnnData>)
    requires IsSort(sort) && infos.Length == Offset(sizes, |sizes|)
    modifies infos
    ensures SortedUpTo(infos[..], old(infos[..]), sizes, sort, |sizes|)
  {
    hide Offset;
    NoSizes(sizes);
    var off := 0;
    for k := 0 to |sizes|
      invariant off == Offset(sizes, k)
      invariant SortedUpTo(infos[..], old(infos[..]), sizes, sort, k)
    {
      RegionsApart(sizes, k, |sizes| - 1);
      var part := sort(infos[off..off + sizes[k]]);
      assert infos[off..off + sizes[k]] == Region(infos[..], sizes, k);
      assert SortsIt(sort, infos[off..off + sizes[k]]);
      SameLength(part, infos[off..off + sizes[k]]);
      ghost var before := infos[..];
      ghost var _ := CopyPart(infos, off, part, seq(infos.Length, _ => 0));
      OneMoreSorted(before, infos[..], old(infos[..]), sizes, sort, k, part);
      off := off + sizes[k];
    }
  }

  lemma SameLength(s: seq<AnnData>, t: seq<AnnData>)
    requires multiset(s) == multiset(t)
    ensures |s| == |t|
  {
    assert |multiset(s)| == |multiset(t)|;
  }

  lemma OneMoreSorted(before: seq<AnnData>, after: seq<AnnData>, was: seq<AnnData>, sizes: seq<nat>,
                      sort: seq<AnnData> -> seq<AnnData>, k: nat, part: seq<AnnData>)
    requires k < |sizes| && |before| == |after| == |was| == Offset(sizes, |sizes|)
    requires SortedUpTo(before, was, sizes, sort, k)
    requires |part| == sizes[k] && part == sort(Region(before, sizes, k))
    requires forall x :: 0 <= x < |after| ==>
               after[x] == if Offset(sizes, k) <= x < Offset(sizes, k) + |part| then part[x - Offset(sizes, k)]
                           else before[x]
    ensures SortedUpTo(after, was, sizes, sort, k + 1)
  {
    hide Offset;
    RegionsApart(sizes, k, |sizes| - 1);
    forall i | 0 <= i < |sizes|
      ensures Region(after, sizes, i) == if i < k + 1 then sort(Region(was, sizes, i)) else Region(was, sizes, i)
    {
      RegionsApart(sizes, i, k);
      RegionsApart(sizes, i, |sizes| - 1);
      if i == k {
        assert Region(after, sizes, i) == part;
      } else {
        assert Region(after, sizes, i) == Region(before, sizes, i);
      }
    }
  }

  /** After the scatter each region holds what arrived in its bucket. */
  lemma RegionArrived(infos: seq<AnnData>, writes: seq<nat>, bufs: seq<seq<AnnData>>, sizes: seq<nat>,
                      order: seq<Arrival>, i: nat)
    requires Interleaving(order, |bufs|, |sizes|) && i < |sizes| && |infos| == |writes| == Offset(sizes, |sizes|)
    requires forall j :: 0 <= j < |sizes| ==> sizes[j] == |Column(bufs, j)|
    requires RegionsAt(infos, writes, bufs, sizes, order)
    ensures multiset(Region(infos, sizes, i)) == multiset(Column(bufs, i))
  {
    hide Offset, Interleaving, Column;
    BucketReceives(bufs, order, |sizes|, i);
    RegionsApart(sizes, i, |sizes| - 1);
    assert RegionAt(infos, writes, Offset(sizes, i), Arrived(bufs, order, i), Offset(sizes, i + 1));
    hide Arrived;
    assert Region(infos, sizes, i) == Arrived(bufs, order, i);
  }

  // ---------- when the whole is sorted ----------

  /** No entry of an earlier bucket exceeds an entry of a later bucket, over all buffers. */
  ghost predicate InOrder(bufs: seq<seq<AnnData>>) {
    forall i, j, x, y :: 0 <= i < j < BUF_RANGES && x in Column(bufs, i) && y in Column(bufs, j) ==> x.pfx <= y.pfx
  }

  ghost predicate Ordered(r: seq<seq<AnnData>>) {
    forall i, j, x, y :: 0 <= i < j < |r| && x in r[i] && y in r[j] ==> x.pfx <= y.pfx
  }

  ghost predicate AllBelow(a: seq<AnnData>, b: seq<AnnData>) {
    forall x, y :: x in a && y in b ==> x.pfx <= y.pfx
  }

  lemma SortedConcat(a: seq<AnnData>, b: seq<AnnData>)
    ensures Sorted(a + b) <==> Sorted(a) && Sorted(b) && AllBelow(a, b)
  {
    var s := a + b;
    if Sorted(s) {
      forall i, j | 0 <= i < j < |a| ensures a[i].pfx <= a[j].pfx { assert s[i].pfx <= s[j].pfx; }
      forall i, j | 0 <= i < j < |b| ensures b[i].pfx <= b[j].pfx { assert s[|a| + i].pfx <= s[|a| + j].pfx; }
      forall x, y | x in a && y in b ensures x.pfx <= y.pfx {
        var i, j :| 0 <= i < |a| && a[i] == x && 0 <= j < |b| && b[j] == y;
        assert s[i].pfx <= s[|a| + j].pfx;
      }
    }
  }

  lemma {:induction false} InFlat(r: seq<seq<AnnData>>, x: AnnData)
    ensures x in Flat(r) <==> exists i :: 0 <= i < |r| && x in r[i]
  {
    if |r| > 0 {
      var n := |r| - 1;
      InFlat(r[..n], x);
      if x in Flat(r[..n]) {
        var i :| 0 <= i < n && x in r[..n][i];
        assert x in r[i];
      } else if i :| 0 <= i < |r| && x in r[i] {
        assert i < n ==> x in r[..n][i];
      }
    }
  }

  lemma OrderedSplits(r: seq<seq<AnnData>>)
    requires |r| > 0
    ensures Ordered(r) <==> Ordered(r[..|r| - 1]) && AllBelow(Flat(r[..|r| - 1]), r[|r| - 1])
  {
    hide Flat;
    var n := |r| - 1;
    if Ordered(r) {
      forall x, y | x in Flat(r[..n]) && y in r[n] ensures x.pfx <= y.pfx {
        InFlat(r[..n], x);
        var i :| 0 <= i < n && x in r[..n][i];
        assert x in r[i];
      }
    }
    if Ordered(r[..n]) && AllBelow(Flat(r[..n]), r[n]) {
      forall i, j, x, y | 0 <= i < j < |r| && x in r[i] && y in r[j] ensures x.pfx <= y.pfx {
        assert x in r[..n][i];
        if j < n { assert y in r[..n][j]; } else { InFlat(r[..n], x); }
      }
    }
  }

  /** Sorted buckets put together are sorted exactly when the buckets are in order. */
  lemma {:induction false} FlatSorted(r: seq<seq<AnnData>>)
    requires forall i :: 0 <= i < |r| ==> Sorted(r[i])
    ensures Sorted(Flat(r)) <==> Ordered(r)
  {
    hide Sorted, Ordered;
    if |r| > 0 {
      var n := |r| - 1;
      FlatSorted(r[..n]);
      SortedConcat(Flat(r[..n]), r[n]);
      OrderedSplits(r);
    } else {
      NothingOrdered(r);
    }
  }

  lemma NothingOrdered(r: seq<seq<AnnData>>)
    requires |r| == 0
    ensures Ordered(r) && Sorted(Flat(r))
  {
  }

  /** Buckets that hold the entries of the columns are ordered exactly when the columns are. */
  lemma OrderedColumns(r: seq<seq<AnnData>>, bufs: seq<seq<AnnData>>)
    requires |r| == BUF_RANGES && forall i :: 0 <= i < |r| ==> multiset(r[i]) == multiset(Column(bufs, i))
    ensures Ordered(r) <==> InOrder(bufs)
  {
    hide Column;
    forall i, x | 0 <= i < |r| ensures x in r[i] <==> x in Column(bufs, i) {
      assert x in multiset(r[i]) <==> x in multiset(Column(bufs, i));
    }
  }

  // ---------- nothing is lost ----------

  function Columns(bufs: seq<seq<AnnData>>, k: nat): (r: seq<seq<AnnData>>)
    ensures |r| == k
  {
    seq(k, i requires 0 <= i < k => Column(bufs, i))
  }

  function Buckets(s: seq<AnnData>, k: nat): (r: seq<seq<AnnData>>)
    ensures |r| == k
  {
    seq(k, i requires 0 <= i < k => Bucket(s, i))
  }

  lemma {:induction false} FlatPermuted(r: seq<seq<AnnData>>, t: seq<seq<AnnData>>)
    requires |r| == |t| && forall i :: 0 <= i < |r| ==> multiset(r[i]) == multiset(t[i])
    ensures multiset(Flat(r)) == multiset(Flat(t))
  {
    if |r| > 0 {
      FlatPermuted(r[..|r| - 1], t[..|r| - 1]);
    }
  }

  lemma {:induction false} FlatAdds(r: seq<seq<AnnData>>, s: seq<seq<AnnData>>, t: seq<seq<AnnData>>)
    requires |r| == |s| == |t| && forall i :: 0 <= i < |t| ==> t[i] == r[i] + s[i]
    ensures multiset(Flat(t)) == multiset(Flat(r)) + multiset(Flat(s))
  {
    if |t| > 0 {
      var n := |t| - 1;
      FlatAdds(r[..n], s[..n], t[..n]);
      assert t[n] == r[n] + s[n];
      Shuffled(multiset(Flat(r[..n])), multiset(Flat(s[..n])), multiset(r[n]), multiset(s[n]));
    }
  }

  lemma Shuffled(a: multiset<AnnData>, b: multiset<AnnData>, c: multiset<AnnData>, d: multiset<AnnData>)
    ensures a + b + (c + d) == (a + c) + (b + d)
  {
  }

  lemma {:induction false} BucketsFlat(s: seq<AnnData>, k: nat)
    ensures Flat(Buckets(s, k)) == Flat(Runs(s)[..if k < |Runs(s)| then k else |Runs(s)|])
  {
    hide Runs;
    if k > 0 {
      BucketsFlat(s, k - 1);
      assert Buckets(s, k)[..k - 1] == Buckets(s, k - 1);
      if k <= |Runs(s)| {
        assert Runs(s)[..k][..k - 1] == Runs(s)[..k - 1];
      }
    }
  }

  /** The buckets of all buffers together hold every entry of every buffer. */
  lemma {:induction false} ColumnsHoldAll(bufs: seq<seq<AnnData>>, k: nat)
    requires forall b :: 0 <= b < |bufs| ==> |Runs(bufs[b])| <= k
    ensures multiset(Flat(Columns(bufs, k))) == multiset(Flat(bufs))
  {
    if |bufs| == 0 {
      NothingFlat(bufs, k);
    } else {
      var n := |bufs| - 1;
      ColumnsHoldAll(bufs[..n], k);
      BucketsFlat(bufs[n], k);
      RunsFlat(bufs[n]);
      assert Runs(bufs[n])[..|Runs(bufs[n])|] == Runs(bufs[n]);
      FlatAdds(Columns(bufs[..n], k), Buckets(bufs[n], k), Columns(bufs, k));
    }
  }

  lemma {:induction false} NothingFlat(bufs: seq<seq<AnnData>>, k: nat)
    requires |bufs| == 0
    ensures Flat(Columns(bufs, k)) == []
  {
    if k > 0 {
      NothingFlat(bufs, k - 1);
      assert Columns(bufs, k)[..k - 1] == Columns(bufs, k - 1);
    }
  }

  // ---------- compute_tree up to the index table ----------

  /** What the merge has made of the buffers: sorted buckets with the buckets' entries. */
  lemma MergeIs(infos: seq<AnnData>, sizes: seq<nat>, bufs: seq<seq<AnnData>>)
    requires |sizes| == BUF_RANGES && |infos| == Offset(sizes, |sizes|)
    requires forall b :: 0 <= b < |bufs| ==> |Runs(bufs[b])| <= BUF_RANGES
    requires forall i :: 0 <= i < |sizes| ==>
               && Sorted(Region(infos, sizes, i))
               && multiset(Region(infos, sizes, i)) == multiset(Column(bufs, i))
    ensures multiset(infos) == multiset(Flat(bufs))
    ensures Sorted(infos) <==> InOrder(bufs)
  {
    hide Offset, Column, Region, Sorted, InOrder, Flat, Runs;
    var r := Regions(infos, sizes);
    RegionsFlat(infos, sizes, |sizes|);
    assert r[..|sizes|] == r && infos[..Offset(sizes, |sizes|)] == infos;
    FlatPermuted(r, Columns(bufs, BUF_RANGES));
    ColumnsHoldAll(bufs, BUF_RANGES);
    FlatSorted(r);
    OrderedColumns(r, bufs);
  }

  /**
   * The index table of the locked buffers, whatever the interleaving of the copies: every entry is
   * merged exactly once, the table is made exactly when no entry of an earlier bucket exceeds one of
   * a later bucket, and then it lists each prefix but zero once, in order.
   */
  method MakeTable(bufs: seq<Locked>, order: seq<Arrival>, sort: seq<AnnData> -> seq<AnnData>)
    returns (merged: seq<AnnData>, table: Option<seq<nat>>)
    requires AllLocked(bufs) && Interleaving(order, |bufs|, BUF_RANGES) && IsSort(sort)
    ensures multiset(merged) == multiset(Flat(Datas(bufs)))
    ensures table.Some? <==> InOrder(Datas(bufs))
    ensures table.Some? ==>
              && Picked(merged).Some? && OneEach(Picked(merged).value, merged)
              && table.value == Mlocs(Picked(merged).value)
  {
    hide Interleaving, RegionsAt, IsSort, Offset, InOrder, Picked, Column, OneEach, Flat;
    ghost var d := Datas(bufs);
    var totals := RangeTotals(bufs);
    var _, total := Markers(totals);
    var infos := new AnnData[total];
    ghost var writes := Scatter(bufs, order, totals, infos);
    ghost var scattered := infos[..];
    SortRegions(infos, totals, sort);
    merged := infos[..];
    EachRegion(scattered, merged, writes, d, totals, order, sort);
    LockedRuns(bufs);
    MergeIs(merged, totals, d);
    ReadsSorted(merged);
    table := ReadTable(infos);
  }

  lemma LockedRuns(bufs: seq<Locked>)
    requires AllLocked(bufs)
    ensures forall b :: 0 <= b < |Datas(bufs)| ==> |Runs(Datas(bufs)[b])| <= BUF_RANGES
  {
    hide Runs;
    forall b | 0 <= b < |bufs| ensures |Runs(Datas(bufs)[b])| <= BUF_RANGES {
      assert LockedOk(bufs[b]);
    }
  }

  lemma EachRegion(scattered: seq<AnnData>, merged: seq<AnnData>, writes: seq<nat>, bufs: seq<seq<AnnData>>,
                   sizes: seq<nat>, order: seq<Arrival>, sort: seq<AnnData> -> seq<AnnData>)
    requires IsSort(sort) && |scattered| == |merged| == |writes| == Offset(sizes, |sizes|)
    requires Interleaving(order, |bufs|, |sizes|) && RegionsAt(scattered, writes, bufs, sizes, order)
    requires forall j :: 0 <= j < |sizes| ==> sizes[j] == |Column(bufs, j)|
    requires SortedUpTo(merged, scattered, sizes, sort, |sizes|)
    ensures forall i :: 0 <= i < |sizes| ==>
              && Sorted(Region(merged, sizes, i))
              && multiset(Region(merged, sizes, i)) == multiset(Column(bufs, i))
  {
    hide Offset, Region, RegionsAt, Column, Interleaving, Sorted;
    forall i | 0 <= i < |sizes|
      ensures Sorted(Region(merged, sizes, i))
      ensures multiset(Region(merged, sizes, i)) == multiset(Column(bufs, i))
    {
      assert SortsIt(sort, Region(scattered, sizes, i));
      RegionArrived(scattered, writes, bufs, sizes, order, i);
    }
  }

  // ---------- when no buffer skips a quotient ----------

  /** The buffer shows the quotients 0, 1, 2, ... without a gap, so bucket `i` holds quotient `i`. */
  ghost predicate NoGap(s: seq<AnnData>) {
    forall i :: 0 <= i < |Runs(s)| ==> Quotient(Runs(s)[i][0]) == i
  }

  lemma {:induction false} InColumn(bufs: seq<seq<AnnData>>, i: nat, x: AnnData)
    requires x in Column(bufs, i)
    ensures exists b :: 0 <= b < |bufs| && x in Bucket(bufs[b], i)
  {
    var n := |bufs| - 1;
    if x in Column(bufs[..n], i) {
      InColumn(bufs[..n], i, x);
      var b :| 0 <= b < n && x in Bucket(bufs[..n][b], i);
      assert x in Bucket(bufs[b], i);
    } else {
      assert x in Bucket(bufs[n], i);
    }
  }

  lemma BucketQuotient(s: seq<AnnData>, i: nat, x: AnnData)
    requires NoGap(s) && x in Bucket(s, i)
    ensures Quotient(x) == i
  {
    hide Quotient;
    var j :| 0 <= j < |Runs(s)[i]| && Runs(s)[i][j] == x;
    RunQuotient(s, i, j);
  }

  lemma ColumnQuotient(bufs: seq<seq<AnnData>>, i: nat, x: AnnData)
    requires (forall b :: 0 <= b < |bufs| ==> NoGap(bufs[b])) && x in Column(bufs, i)
    ensures Quotient(x) == i
  {
    hide NoGap, Bucket, Quotient;
    InColumn(bufs, i, x);
    var b :| 0 <= b < |bufs| && x in Bucket(bufs[b], i);
    BucketQuotient(bufs[b], i, x);
  }

  /** If no buffer skips a quotient, the merge never panics. */
  lemma NoGapsInOrder(bufs: seq<seq<AnnData>>)
    requires forall b :: 0 <= b < |bufs| ==> NoGap(bufs[b])
    ensures InOrder(bufs)
  {
    hide NoGap, Column, Quotient;
    forall i, j, x, y | 0 <= i < j < BUF_RANGES && x in Column(bufs, i) && y in Column(bufs, j)
      ensures x.pfx <= y.pfx
    {
      ColumnQuotient(bufs, i, x);
      ColumnQuotient(bufs, j, y);
      SmallerQuotient(x, y);
    }
  }

  lemma SmallerQuotient(x: AnnData, y: AnnData)
    requires Quotient(x) < Quotient(y)
    ensures x.pfx <= y.pfx
  {
    if y.pfx < x.pfx { QuotientOrder(y, x); }
  }

  /** A buffer with entries in all of the quotients 0 to 511, and none in 512, skips none. */
  lemma FullSpread(s: seq<AnnData>)
    requires Sorted(s) && |Runs(s)| == BUF_RANGES && forall d :: d in s ==> Quotient(d) < BUF_RANGES
    ensures NoGap(s)
  {
    hide Quotient, Sorted, Runs;
    var r := Runs(s);
    forall i | 0 <= i < |r| ensures Quotient(r[i][0]) == i {
      AtLeast(s, i);
      var last := |r| - 1;
      RunsFlat(s);
      InFlat(r, r[last][0]);
      assert r[last][0] in s;
      Spaced(s, i, last);
    }
  }

  lemma {:induction false} AtLeast(s: seq<AnnData>, i: nat)
    requires Sorted(s) && i < |Runs(s)|
    ensures Quotient(Runs(s)[i][0]) >= i
  {
    if i > 0 {
      AtLeast(s, i - 1);
      RunsIncrease(s, i - 1);
    }
  }

  lemma {:induction false} Spaced(s: seq<AnnData>, i: nat, j: nat)
    requires Sorted(s) && i <= j < |Runs(s)|
    ensures Quotient(Runs(s)[i][0]) + (j - i) <= Quotient(Runs(s)[j][0])
  {
    if i < j {
      Spaced(s, i, j - 1);
      RunsIncrease(s, j - 1);
    }
  }

  // ---------- an input that panics ----------

  function Copies(d: AnnData, n: nat): (s: seq<AnnData>)
    ensures |s| == n
  {
    seq(n, _ => d)
  }

  lemma {:induction false} OneRun(d: AnnData, n: nat)
    requires n > 0
    ensures Runs(Copies(d, n)) == [Copies(d, n)]
  {
    var s := Copies(d, n);
    if n == 1 {
      assert s[..0] == [] && s == [s[0]];
    } else {
      OneRun(d, n - 1);
      assert s[..n - 1] == Copies(d, n - 1);
      assert Copies(d, n - 1) + [d] == s;
    }
  }

  lemma {:induction false} TwoRuns(c: AnnData, m: nat, d: AnnData, n: nat)
    requires m > 0 && n > 0 && Quotient(c) != Quotient(d)
    ensures Runs(Copies(c, m) + Copies(d, n)) == [Copies(c, m), Copies(d, n)]
  {
    hide Quotient;
    var s := Copies(c, m) + Copies(d, n);
    if n == 1 {
      OneRun(c, m);
      assert s[..m] == Copies(c, m) && Copies(d, 1) == [d] && |s| == m + 1;
    } else {
      TwoRuns(c, m, d, n - 1);
      assert s[..|s| - 1] == Copies(c, m) + Copies(d, n - 1);
      assert Copies(d, n - 1) + [d] == Copies(d, n);
    }
  }

  /**
   * Two buffers that panic the merge, of any size n > 1: one holds only quotient 2, which it numbers
   * bucket 0, and the other holds quotient 0 and quotient 1, which it numbers bucket 1.
   */
  lemma SkippedQuotientPanics(n: nat)
    requires n > 1
    ensures var two, zero, one := AnnData(2 * DIVISOR, 0), AnnData(1, n), AnnData(DIVISOR, n + 1);
            var a, b := Copies(two, n), Copies(zero, 1) + Copies(one, n - 1);
            && Sorted(a) && Sorted(b) && |Runs(a)| <= BUF_RANGES && |Runs(b)| <= BUF_RANGES
            && !InOrder([a, b])
  {
    var two, zero, one := AnnData(2 * DIVISOR, 0), AnnData(1, n), AnnData(DIVISOR, n + 1);
    var a, b := Copies(two, n), Copies(zero, 1) + Copies(one, n - 1);
    SortedCopies(two, n, two, 0);
    SortedCopies(zero, 1, one, n - 1);
    hide Sorted, InOrder, Quotient, Runs;
    assert a + Copies(two, 0) == a;
    OneRun(two, n);
    DifferentQuotients();
    TwoRuns(zero, 1, one, n - 1);
    assert a[0] == two && Copies(one, n - 1)[0] == one;
    OutOfOrder(a, b, 0, 1, two, one);
  }

  lemma DifferentQuotients()
    ensures Quotient(AnnData(1, 0)) == 0 && Quotient(AnnData(DIVISOR, 0)) == 1 && Quotient(AnnData(2 * DIVISOR, 0)) == 2
  {
  }

  lemma SortedCopies(c: AnnData, m: nat, d: AnnData, n: nat)
    requires c.pfx <= d.pfx
    ensures Sorted(Copies(c, m) + Copies(d, n))
  {
  }

  lemma OutOfOrder(a: seq<AnnData>, b: seq<AnnData>, i: nat, j: nat, x: AnnData, y: AnnData)
    requires i < j < BUF_RANGES && x in Bucket(a, i) && y in Bucket(b, j) && x.pfx > y.pfx
    ensures !InOrder([a, b])
  {
    hide Bucket;
    var none: seq<seq<AnnData>>, both := [], [a, b];
    assert both[..1] == [a] && both[1] == b && [a][..0] == none && [a][0] == a;
    assert Column([a], i) == Column(none, i) + Bucket(a, i) && Column([a], j) == Column(none, j) + Bucket(a, j);
    assert Column(both, i) == Column([a], i) + Bucket(b, i) && Column(both, j) == Column([a], j) + Bucket(b, j);
    assert x in Column([a], i);
    assert x in Column(both, i) && y in Column(both, j);
  }

  /** Prefixes from 2^64 - 512 on have quotient 512, one more than there are buckets for. */
  lemma TopQuotient(d: AnnData)
    ensures Quotient(d) <= BUF_RANGES
    ensures Quotient(d) == BUF_RANGES <==> d.pfx >= 0x1_0000_0000_0000_0000 - 512
  {
  }
}
