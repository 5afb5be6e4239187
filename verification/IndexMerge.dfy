/**
 * Locking buffers and merging them into the index table (AnnBuf::lock, AnnStore::compute_tree): a
 * bucketed merge whose scatter runs in parallel.  Buckets are numbered by the count of distinct
 * quotients a buffer has shown so far, not by the quotient itself.
 */
module IndexMerge {
  import opened Words

  const ANNBUF_SZ: nat := 32768
  const BUF_RANGES: nat := 512
  const DIVISOR: nat := 0x7f_ffff_ffff_ffff   // u64::MAX / 512

  datatype AnnData = AnnData(pfx: u64, mloc: nat)

  function Quotient(d: AnnData): nat { d.pfx / DIVISOR }

  ghost predicate Sorted(s: seq<AnnData>) {
    forall i, j :: 0 <= i < j < |s| ==> s[i].pfx <= s[j].pfx
  }

  /** A library sort by prefix; entries with equal prefixes may end up in any order. */
  ghost predicate IsSort(sort: seq<AnnData> -> seq<AnnData>) {
    forall s :: SortsIt(sort, s)
  }

  ghost predicate SortsIt(sort: seq<AnnData> -> seq<AnnData>, s: seq<AnnData>) {
    Sorted(sort(s)) && multiset(sort(s)) == multiset(s)
  }

  // ---------- runs of equal quotients ----------

  /** The buckets of a buffer: maximal runs of entries with one quotient, in order. */
  function Runs(s: seq<AnnData>): (r: seq<seq<AnnData>>)
    ensures |s| > 0 ==> |r| > 0
    ensures forall k :: 0 <= k < |r| ==> |r[k]| > 0
  {
    if |s| == 0 then []
    else
      var n := |s| - 1;
      var r := Runs(s[..n]);
      if n > 0 && Quotient(s[n - 1]) == Quotient(s[n]) then r[|r| - 1 := r[|r| - 1] + [s[n]]] else r + [[s[n]]]
  }

  function Bucket(s: seq<AnnData>, i: nat): seq<AnnData> {
    if i < |Runs(s)| then Runs(s)[i] else []
  }

  function Flat(r: seq<seq<AnnData>>): seq<AnnData> {
    if |r| == 0 then [] else Flat(r[..|r| - 1]) + r[|r| - 1]
  }

  /** The buckets put together are the buffer. */
  lemma {:induction false} RunsFlat(s: seq<AnnData>)
    ensures Flat(Runs(s)) == s
  {
    if |s| > 0 {
      var n := |s| - 1;
      RunsFlat(s[..n]);
      var r, t := Runs(s[..n]), Runs(s);
      assert s == s[..n] + [s[n]];
      if n > 0 && Quotient(s[n - 1]) == Quotient(s[n]) {
        assert t[..|t| - 1] == r[..|r| - 1];
      } else {
        assert t[..|t| - 1] == r;
      }
    }
  }

  /** Every run has one quotient, and the last run that of the last entry. */
  lemma {:induction false} RunQuotient(s: seq<AnnData>, k: nat, j: nat)
    requires k < |Runs(s)| && j < |Runs(s)[k]|
    ensures Quotient(Runs(s)[k][j]) == Quotient(Runs(s)[k][0])
    ensures k == |Runs(s)| - 1 ==> Quotient(Runs(s)[k][0]) == Quotient(s[|s| - 1])
    decreases s, 1
  {
    var n := |s| - 1;
    var r := Runs(s[..n]);
    if n > 0 && Quotient(s[n - 1]) == Quotient(s[n]) {
      if k == |r| - 1 {
        RunQuotient(s[..n], k, 0);
        if j < |r[k]| { RunQuotient(s[..n], k, j); }
      } else {
        RunQuotient(s[..n], k, j);
      }
    } else if k < |r| {
      RunQuotient(s[..n], k, j);
    }
  }

  /** In a sorted buffer the quotients of the runs strictly increase. */
  lemma {:induction false} RunsIncrease(s: seq<AnnData>, k: nat)
    requires Sorted(s) && k + 1 < |Runs(s)|
    ensures Quotient(Runs(s)[k][0]) < Quotient(Runs(s)[k + 1][0])
  {
    var n := |s| - 1;
    var r := Runs(s[..n]);
    if n > 0 && Quotient(s[n - 1]) == Quotient(s[n]) {
      RunsIncrease(s[..n], k);
    } else if k + 1 < |r| {
      RunsIncrease(s[..n], k);
    } else {
      RunQuotient(s[..n], k, 0);
      QuotientOrder(s[n - 1], s[n]);
    }
  }

  lemma QuotientOrder(a: AnnData, b: AnnData)
    requires a.pfx <= b.pfx
    ensures Quotient(a) <= Quotient(b)
  {
  }

  // ---------- lock ----------

  /** A locked buffer: sorted entries and the size of each of its buckets. */
  datatype Locked = Locked(data: seq<AnnData>, counts: seq<nat>)

  ghost predicate CountsAre(counts: seq<nat>, s: seq<AnnData>) {
    |counts| == BUF_RANGES && forall i :: 0 <= i < BUF_RANGES ==> counts[i] == |Bucket(s, i)|
  }

  ghost predicate LockedOk(b: Locked) {
    Sorted(b.data) && |Runs(b.data)| <= BUF_RANGES && CountsAre(b.counts, b.data)
  }

  /** Entry `k` starts a run if its quotient is new, and belongs to the last bucket so far. */
  lemma OneMoreEntry(s: seq<AnnData>, k: nat)
    requires k < |s|
    ensures |Runs(s[..k])| <= |Runs(s[..k + 1])|
    ensures |Runs(s[..k + 1])| == if k == 0 then 1
                                  else |Runs(s[..k])| + if Quotient(s[k]) != Quotient(s[k - 1]) then 1 else 0
  {
    hide Quotient;
    assert s[..k + 1][..k] == s[..k];
  }

  /** It is counted in that bucket. */
  lemma CountsOneMore(counts: seq<nat>, s: seq<AnnData>, k: nat, r: nat)
    requires k < |s| && CountsAre(counts, s[..k]) && r + 1 == |Runs(s[..k + 1])| && r < BUF_RANGES
    ensures CountsAre(counts[r := counts[r] + 1], s[..k + 1])
  {
    hide Quotient;
    assert s[..k + 1][..k] == s[..k];
  }

  /** AnnBuf::lock; None is the panic of a bucket number past the last bucket. */
  method Lock(annData: seq<AnnData>, sort: seq<AnnData> -> seq<AnnData>) returns (locked: Option<Locked>)
    requires IsSort(sort)
    ensures locked.Some? <==> |Runs(sort(annData))| <= BUF_RANGES
    ensures locked.Some? ==> LockedOk(locked.value) && locked.value.data == sort(annData)
  {
    var data := sort(annData);
    var counts: seq<nat> := seq(BUF_RANGES, _ => 0);
    NoRuns(data, counts);
    assert data[..|data|] == data;
    hide *;
    var r, pfx := 0, if |data| > 0 then Quotient(data[0]) else 0;
    for k := 0 to |data|
      invariant |counts| == BUF_RANGES && CountsAre(counts, data[..k]) && r < BUF_RANGES
      invariant if k == 0 then r == 0 && (|data| > 0 ==> pfx == Quotient(data[0]))
                else r + 1 == |Runs(data[..k])| && pfx == Quotient(data[k - 1])
    {
      OneMoreEntry(data, k);
      var thisPfx := Quotient(data[k]);
      if thisPfx != pfx {
        pfx := thisPfx;
        r := r + 1;
      }
      if r >= BUF_RANGES {
        MoreRuns(data, k + 1, |data|);
        return None;
      }
      CountsOneMore(counts, data, k, r);
      counts := counts[r := counts[r] + 1];
    }
    LockedNow(annData, sort, counts);
    locked := Some(Locked(data, counts));
  }

  lemma LockedNow(annData: seq<AnnData>, sort: seq<AnnData> -> seq<AnnData>, counts: seq<nat>)
    requires IsSort(sort) && CountsAre(counts, sort(annData)) && |Runs(sort(annData))| <= BUF_RANGES
    ensures LockedOk(Locked(sort(annData), counts))
  {
    hide CountsAre, Runs, Sorted;
    assert SortsIt(sort, annData);
  }

  lemma NoRuns(s: seq<AnnData>, counts: seq<nat>)
    requires |counts| == BUF_RANGES && forall i :: 0 <= i < BUF_RANGES ==> counts[i] == 0
    ensures Runs(s[..0]) == [] && CountsAre(counts, s[..0]) && 0 < BUF_RANGES
  {
  }

  lemma {:induction false} MoreRuns(s: seq<AnnData>, j: nat, k: nat)
    requires j <= k <= |s|
    ensures |Runs(s[..j])| <= |Runs(s[..k])|
  {
    if j < k {
      MoreRuns(s, j, k - 1);
      assert s[..k][..k - 1] == s[..k - 1];
    }
  }

  // ---------- what arrives in a bucket ----------

  type Arrival = (nat, nat)

  /** The entries of bucket `i`, in the order in which the buffers' parts arrived there. */
  function Arrived(bufs: seq<seq<AnnData>>, order: seq<Arrival>, i: nat): seq<AnnData> {
    if |order| == 0 then []
    else
      var n := |order| - 1;
      Arrived(bufs, order[..n], i) + Part(bufs, order[n], i)
  }

  /** What one step of one buffer's loop contributes to bucket `i`. */
  function Part(bufs: seq<seq<AnnData>>, a: Arrival, i: nat): seq<AnnData> {
    if a.1 == i && a.0 < |bufs| then Bucket(bufs[a.0], i) else []
  }

  /** Every buffer in turn, each bucket in turn. */
  function Row(b: nat, r: nat): seq<Arrival> {
    if r == 0 then [] else Row(b, r - 1) + [(b, r - 1)]
  }

  function AllPairs(b: nat, r: nat): seq<Arrival> {
    if b == 0 then [] else AllPairs(b - 1, r) + Row(b - 1, r)
  }

  /** The parallel loops do each buffer's steps once, in any interleaving. */
  ghost predicate Interleaving(order: seq<Arrival>, b: nat, r: nat) {
    multiset(order) == multiset(AllPairs(b, r))
  }

  lemma {:induction false} ArrivedConcat(bufs: seq<seq<AnnData>>, p: seq<Arrival>, q: seq<Arrival>, i: nat)
    ensures Arrived(bufs, p + q, i) == Arrived(bufs, p, i) + Arrived(bufs, q, i)
  {
    hide Part;
    if |q| == 0 {
      assert p + q == p;
    } else {
      var n := |q| - 1;
      assert (p + q)[..|p + q| - 1] == p + q[..n] && (p + q)[|p + q| - 1] == q[n];
      ArrivedConcat(bufs, p, q[..n], i);
      Reassociate(Arrived(bufs, p, i), Arrived(bufs, q[..n], i), Part(bufs, q[n], i));
    }
  }

  lemma Reassociate<T>(a: seq<T>, b: seq<T>, c: seq<T>)
    ensures a + b + c == a + (b + c)
  {
  }

  lemma ArrivedOne(bufs: seq<seq<AnnData>>, a: Arrival, i: nat)
    ensures Arrived(bufs, [a], i) == Part(bufs, a, i)
  {
    assert [a][..0] == [];
  }

  /** Taking one step out of an order takes its part out of the multiset. */
  lemma ArrivedWithout(bufs: seq<seq<AnnData>>, q: seq<Arrival>, j: nat, i: nat)
    requires j < |q|
    ensures multiset(Arrived(bufs, q, i))
            == multiset(Arrived(bufs, q[..j] + q[j + 1..], i)) + multiset(Part(bufs, q[j], i))
  {
    assert q == q[..j] + ([q[j]] + q[j + 1..]);
    ArrivedConcat(bufs, q[..j], [q[j]] + q[j + 1..], i);
    ArrivedConcat(bufs, [q[j]], q[j + 1..], i);
    ArrivedConcat(bufs, q[..j], q[j + 1..], i);
    ArrivedOne(bufs, q[j], i);
    hide Arrived, Part;
  }

  /** What arrives in a bucket does not depend on the interleaving. */
  lemma {:induction false} ArrivedPermuted(bufs: seq<seq<AnnData>>, p: seq<Arrival>, q: seq<Arrival>, i: nat)
    requires multiset(p) == multiset(q)
    ensures multiset(Arrived(bufs, p, i)) == multiset(Arrived(bufs, q, i))
  {
    hide Part, Arrived;
    if |p| == 0 {
      assert |multiset(q)| == 0;
    } else {
      var n := |p| - 1;
      var x := p[n];
      assert x in multiset(q);
      var j :| 0 <= j < |q| && q[j] == x;
      SameRest(p, q, j);
      ArrivedPermuted(bufs, p[..n], q[..j] + q[j + 1..], i);
      ArrivedWithout(bufs, q, j, i);
      ArrivedWithout(bufs, p, n, i);
      assert p[..n] + p[n + 1..] == p[..n];
    }
  }

  lemma SameRest(p: seq<Arrival>, q: seq<Arrival>, j: nat)
    requires |p| > 0 && multiset(p) == multiset(q) && j < |q| && q[j] == p[|p| - 1]
    ensures multiset(p[..|p| - 1]) == multiset(q[..j] + q[j + 1..])
  {
    var n := |p| - 1;
    var a, b := q[..j], q[j + 1..];
    assert p == p[..n] + [p[n]] && q == a + [q[j]] + b;
    assert multiset(p) == multiset(p[..n]) + multiset{p[n]};
    assert multiset(q) == multiset(a) + multiset{q[j]} + multiset(b);
    assert multiset(a + b) == multiset(a) + multiset(b);
    forall x ensures multiset(p[..n])[x] == multiset(a + b)[x] {
      assert multiset(p)[x] == multiset(q)[x];
    }
  }

  /** All of bucket `i`, buffer after buffer. */
  function Column(bufs: seq<seq<AnnData>>, i: nat): seq<AnnData> {
    if |bufs| == 0 then [] else Column(bufs[..|bufs| - 1], i) + Bucket(bufs[|bufs| - 1], i)
  }

  lemma {:induction false} RowArrives(bufs: seq<seq<AnnData>>, b: nat, r: nat, i: nat)
    requires b < |bufs|
    ensures Arrived(bufs, Row(b, r), i) == if i < r then Bucket(bufs[b], i) else []
  {
    hide *;
    RowUnfolds(bufs, b, r, i);
    if r > 0 {
      RowArrives(bufs, b, r - 1, i);
      ArrivedConcat(bufs, Row(b, r - 1), [(b, r - 1)], i);
      ArrivedOne(bufs, (b, r - 1), i);
      NoChange(Bucket(bufs[b], i));
    }
  }

  lemma RowUnfolds(bufs: seq<seq<AnnData>>, b: nat, r: nat, i: nat)
    requires b < |bufs|
    ensures r == 0 ==> Arrived(bufs, Row(b, r), i) == []
    ensures r > 0 ==> Row(b, r) == Row(b, r - 1) + [(b, r - 1)]
    ensures r > 0 ==> Part(bufs, (b, r - 1), i) == if i == r - 1 then Bucket(bufs[b], i) else []
  {
    hide Bucket;
  }

  lemma NoChange<T>(s: seq<T>)
    ensures [] + s == s && s + [] == s
  {
  }

  lemma {:induction false} PairsArrive(bufs: seq<seq<AnnData>>, b: nat, r: nat, i: nat)
    requires b <= |bufs| && i < r
    ensures Arrived(bufs, AllPairs(b, r), i) == Column(bufs[..b], i)
  {
    hide *;
    PairsUnfold(bufs, b, r, i);
    if b > 0 {
      PairsArrive(bufs, b - 1, r, i);
      RowArrives(bufs, b - 1, r, i);
      ArrivedConcat(bufs, AllPairs(b - 1, r), Row(b - 1, r), i);
    }
  }

  lemma PairsUnfold(bufs: seq<seq<AnnData>>, b: nat, r: nat, i: nat)
    requires b <= |bufs|
    ensures b == 0 ==> Arrived(bufs, AllPairs(b, r), i) == [] == Column(bufs[..b], i)
    ensures b > 0 ==> AllPairs(b, r) == AllPairs(b - 1, r) + Row(b - 1, r)
    ensures b > 0 ==> Column(bufs[..b], i) == Column(bufs[..b - 1], i) + Bucket(bufs[b - 1], i)
  {
    hide Bucket, Row;
    assert b > 0 ==> bufs[..b][..b - 1] == bufs[..b - 1];
  }

  /** Whatever the interleaving, a bucket receives all its entries and nothing else. */
  lemma BucketReceives(bufs: seq<seq<AnnData>>, order: seq<Arrival>, r: nat, i: nat)
    requires Interleaving(order, |bufs|, r) && i < r
    ensures multiset(Arrived(bufs, order, i)) == multiset(Column(bufs, i))
    ensures |Arrived(bufs, order, i)| == |Column(bufs, i)|
  {
    ArrivedPermuted(bufs, order, AllPairs(|bufs|, r), i);
    PairsArrive(bufs, |bufs|, r, i);
    assert bufs[..|bufs|] == bufs;
    assert |multiset(Arrived(bufs, order, i))| == |multiset(Column(bufs, i))|;
  }

  // ---------- the totals and the markers ----------

  function Sum(sizes: seq<nat>): nat {
    if |sizes| == 0 then 0 else Sum(sizes[..|sizes| - 1]) + sizes[|sizes| - 1]
  }

  /** Entries in the buckets before `i`. */
  function Offset(sizes: seq<nat>, i: nat): nat
    requires i <= |sizes|
  {
    Sum(sizes[..i])
  }

  lemma OffsetStep(sizes: seq<nat>, i: nat)
    requires i < |sizes|
    ensures Offset(sizes, 0) == 0 && Offset(sizes, i + 1) == Offset(sizes, i) + sizes[i]
  {
    assert sizes[..i + 1][..i] == sizes[..i];
  }

  lemma {:induction false} OffsetsIncrease(sizes: seq<nat>, i: nat, j: nat)
    requires i < j <= |sizes|
    ensures Offset(sizes, i) + sizes[i] <= Offset(sizes, j)
    decreases j
  {
    OffsetStep(sizes, j - 1);
    if i < j - 1 {
      OffsetsIncrease(sizes, i, j - 1);
    }
  }

  function Datas(bufs: seq<Locked>): (d: seq<seq<AnnData>>)
    ensures |d| == |bufs|
  {
    seq(|bufs|, b requires 0 <= b < |bufs| => bufs[b].data)
  }

  ghost predicate AllLocked(bufs: seq<Locked>) {
    forall b :: 0 <= b < |bufs| ==> LockedOk(bufs[b])
  }

  /** range_total: the bucket sizes of all buffers added up. */
  method RangeTotals(bufs: seq<Locked>) returns (totals: seq<nat>)
    requires AllLocked(bufs)
    ensures |totals| == BUF_RANGES && forall i :: 0 <= i < BUF_RANGES ==> totals[i] == |Column(Datas(bufs), i)|
  {
    ghost var d := Datas(bufs);
    totals := seq(BUF_RANGES, _ => 0);
    hide Bucket;
    for b := 0 to |bufs|
      invariant |totals| == BUF_RANGES && forall i :: 0 <= i < BUF_RANGES ==> totals[i] == |Column(d[..b], i)|
    {
      assert d[..b + 1][..b] == d[..b] && d[..b + 1][b] == bufs[b].data && LockedOk(bufs[b]);
      totals := seq(BUF_RANGES, i requires 0 <= i < BUF_RANGES => totals[i] + bufs[b].counts[i]);
    }
    assert d[..|bufs|] == d;
  }

  /** The markers start where each bucket starts. */
  method Markers(totals: seq<nat>) returns (markers: seq<nat>, total: nat)
    ensures |markers| == |totals| && total == Offset(totals, |totals|)
    ensures forall i :: 0 <= i < |totals| ==> markers[i] == Offset(totals, i)
  {
    markers, total := [], 0;
    for i := 0 to |totals|
      invariant |markers| == i && total == Offset(totals, i)
      invariant forall k :: 0 <= k < i ==> markers[k] == Offset(totals, k)
    {
      OffsetStep(totals, i);
      markers := markers + [total];
      total := total + totals[i];
    }
  }

  // ---------- the scatter ----------

  /** Bucket `i`'s region holds what has arrived so far, each slot written once; the rest is not yet written. */
  ghost predicate RegionAt(infos: seq<AnnData>, writes: seq<nat>, from: nat, arrived: seq<AnnData>, end: nat) {
    && from + |arrived| <= end <= |infos| == |writes|
    && (forall x :: from <= x < from + |arrived| ==> infos[x] == arrived[x - from] && writes[x] == 1)
    && (forall x :: from + |arrived| <= x < end ==> writes[x] == 0)
  }

  /** Every region after the steps in `done`. */
  ghost predicate RegionsAt(infos: seq<AnnData>, writes: seq<nat>, bufs: seq<seq<AnnData>>, sizes: seq<nat>,
                            done: seq<Arrival>) {
    forall i :: 0 <= i < |sizes| ==> RegionAt(infos, writes, Offset(sizes, i), Arrived(bufs, done, i),
                                              Offset(sizes, i + 1))
  }

  ghost predicate MarkersAt(markers: seq<nat>, bufs: seq<seq<AnnData>>, sizes: seq<nat>, done: seq<Arrival>) {
    |markers| == |sizes| && forall i :: 0 <= i < |sizes| ==> markers[i] == Offset(sizes, i) + |Arrived(bufs, done, i)|
  }

  /** The bucket sizes add up to the buffer, and a bucket is a slice of it. */
  lemma {:induction false} BucketIsSlice(r: seq<seq<AnnData>>, i: nat)
    requires i < |r|
    ensures var at := |Flat(r[..i])|;
            at + |r[i]| <= |Flat(r)| && Flat(r)[at..at + |r[i]|] == r[i]
  {
    if i == |r| - 1 {
    } else {
      BucketIsSlice(r[..|r| - 1], i);
      assert r[..|r| - 1][..i] == r[..i];
      var f, g := Flat(r[..|r| - 1]), Flat(r);
      assert g == f + r[|r| - 1];
    }
  }

  /** boff: where bucket `i` starts in its buffer. */
  lemma {:induction false} BoffIs(b: Locked, i: nat)
    requires LockedOk(b) && i <= BUF_RANGES
    ensures Sum(b.counts[..i]) == |Flat(Runs(b.data)[..if i < |Runs(b.data)| then i else |Runs(b.data)|])|
  {
    var r := Runs(b.data);
    if i > 0 {
      BoffIs(b, i - 1);
      assert b.counts[..i][..i - 1] == b.counts[..i - 1];
      if i <= |r| {
        assert r[..i][..i - 1] == r[..i - 1];
      }
    }
  }

  /** AnnBuf::slice of one bucket. */
  method SliceBucket(b: Locked, i: nat) returns (part: seq<AnnData>)
    requires LockedOk(b) && i < BUF_RANGES
    ensures part == Bucket(b.data, i)
  {
    var boff := 0;
    for k := 0 to i
      invariant boff == Sum(b.counts[..k])
    {
      assert b.counts[..k + 1][..k] == b.counts[..k];
      boff := boff + b.counts[k];
    }
    BoffIs(b, i);
    RunsFlat(b.data);
    var r := Runs(b.data);
    if i < |r| {
      BucketIsSlice(r, i);
    } else {
      assert r[..|r|] == r;
    }
    part := b.data[boff..boff + b.counts[i]];
  }

  lemma {:induction false} ArrivedGrows(bufs: seq<seq<AnnData>>, order: seq<Arrival>, k: nat, i: nat)
    requires k <= |order|
    ensures |Arrived(bufs, order[..k], i)| <= |Arrived(bufs, order, i)|
  {
    assert order == order[..k] + order[k..];
    ArrivedConcat(bufs, order[..k], order[k..], i);
  }

  /** Copy a part to where its bucket's marker stands. */
  method CopyPart(infos: array<AnnData>, at: nat, part: seq<AnnData>, ghost writes: seq<nat>)
    returns (ghost writes': seq<nat>)
    requires at + |part| <= infos.Length == |writes|
    modifies infos
    ensures |writes'| == |writes|
    ensures forall x :: 0 <= x < infos.Length ==>
              if at <= x < at + |part| then infos[x] == part[x - at] && writes'[x] == writes[x] + 1
              else infos[x] == old(infos[x]) && writes'[x] == writes[x]
  {
    writes' := writes;
    for k := 0 to |part|
      invariant |writes'| == |writes|
      invariant forall x :: 0 <= x < infos.Length ==>
                  if at <= x < at + k then infos[x] == part[x - at] && writes'[x] == writes[x] + 1
                  else infos[x] == old(infos[x]) && writes'[x] == writes[x]
    {
      infos[at + k] := part[k];
      writes' := writes'[at + k := writes'[at + k] + 1];
    }
  }

  /** Copying a part behind what has arrived in its bucket extends that region and touches no other. */
  lemma RegionsGrow(before: seq<AnnData>, w: seq<nat>, after: seq<AnnData>, w': seq<nat>, bufs: seq<seq<AnnData>>,
                    sizes: seq<nat>,
                    done: seq<Arrival>, a: Arrival)
    requires |before| == |w| == |after| == |w'| && a.1 < |sizes| && a.0 < |bufs|
    requires RegionsAt(before, w, bufs, sizes, done)
    requires var at := Offset(sizes, a.1) + |Arrived(bufs, done, a.1)|;
             var part := Bucket(bufs[a.0], a.1);
             && at + |part| <= Offset(sizes, a.1 + 1)
             && forall x :: 0 <= x < |after| ==>
                  if at <= x < at + |part| then after[x] == part[x - at] && w'[x] == w[x] + 1
                  else after[x] == before[x] && w'[x] == w[x]
    ensures RegionsAt(after, w', bufs, sizes, done + [a])
  {
    hide Bucket, Offset, Arrived, RegionAt;
    forall i | 0 <= i < |sizes|
      ensures RegionAt(after, w', Offset(sizes, i), Arrived(bufs, done + [a], i), Offset(sizes, i + 1))
    {
      var at, part := Offset(sizes, a.1) + |Arrived(bufs, done, a.1)|, Bucket(bufs[a.0], a.1);
      assert RegionAt(before, w, Offset(sizes, i), Arrived(bufs, done, i), Offset(sizes, i + 1));
      ArrivedConcat(bufs, done, [a], i);
      ArrivedOne(bufs, a, i);
      if i == a.1 {
        OwnRegion(before, w, after, w', Offset(sizes, i), Arrived(bufs, done, i), Offset(sizes, i + 1), part);
      } else {
        assert Arrived(bufs, done, i) + [] == Arrived(bufs, done, i);
        RegionsApart(sizes, i, a.1);
        OtherRegion(before, w, after, w', Offset(sizes, i), Arrived(bufs, done, i), Offset(sizes, i + 1), at, part);
      }
    }
  }

  lemma OwnRegion(before: seq<AnnData>, w: seq<nat>, after: seq<AnnData>, w': seq<nat>, from: nat,
                  arrived: seq<AnnData>, end: nat,
                  part: seq<AnnData>)
    requires |before| == |w| == |after| == |w'| && RegionAt(before, w, from, arrived, end)
    requires from + |arrived| + |part| <= end
    requires forall x :: 0 <= x < |after| ==>
               if from + |arrived| <= x < from + |arrived| + |part| then
                 after[x] == part[x - (from + |arrived|)] && w'[x] == w[x] + 1
               else after[x] == before[x] && w'[x] == w[x]
    ensures RegionAt(after, w', from, arrived + part, end)
  {
  }

  lemma OtherRegion(before: seq<AnnData>, w: seq<nat>, after: seq<AnnData>, w': seq<nat>, from: nat,
                    arrived: seq<AnnData>, end: nat,
                    at: nat, part: seq<AnnData>)
    requires |before| == |w| == |after| == |w'| && RegionAt(before, w, from, arrived, end)
    requires at + |part| <= from || end <= at
    requires forall x :: 0 <= x < |after| ==>
               if at <= x < at + |part| then after[x] == part[x - at] && w'[x] == w[x] + 1
               else after[x] == before[x] && w'[x] == w[x]
    ensures RegionAt(after, w', from, arrived, end)
  {
  }

  lemma RegionsApart(sizes: seq<nat>, i: nat, j: nat)
    requires i < |sizes| && j < |sizes|
    ensures Offset(sizes, i) + sizes[i] == Offset(sizes, i + 1) && Offset(sizes, j) + sizes[j] == Offset(sizes, j + 1)
    ensures i < j ==> Offset(sizes, i + 1) <= Offset(sizes, j)
    ensures j < i ==> Offset(sizes, j + 1) <= Offset(sizes, i)
  {
    OffsetStep(sizes, i);
    OffsetStep(sizes, j);
    if i < j { OffsetsIncrease(sizes, i, j); }
    if j < i { OffsetsIncrease(sizes, j, i); }
  }

  /** What the markers and regions are after the first `k` steps of an interleaving. */
  ghost predicate ScatteredTo(infos: seq<AnnData>, writes: seq<nat>, markers: seq<nat>, bufs: seq<seq<AnnData>>,
                              totals: seq<nat>,
                              done: seq<Arrival>)
  {
    && |writes| == |infos| == Offset(totals, |totals|)
    && MarkersAt(markers, bufs, totals, done) && RegionsAt(infos, writes, bufs, totals, done)
  }

  ghost predicate TotalsOf(totals: seq<nat>, bufs: seq<seq<AnnData>>) {
    |totals| == BUF_RANGES && forall i :: 0 <= i < |totals| ==> totals[i] == |Column(bufs, i)|
  }

  /** One buffer's turn at one bucket: fetch_add on the marker, then the copy. */
  method ScatterStep(bufs: seq<Locked>, ghost order: seq<Arrival>, a: Arrival, ghost totals: seq<nat>,
                     infos: array<AnnData>,
                     markers: seq<nat>, ghost k: nat, ghost writes: seq<nat>)
    returns (markers': seq<nat>, ghost writes': seq<nat>)
    requires AllLocked(bufs) && TotalsOf(totals, Datas(bufs)) && Interleaving(order, |bufs|, BUF_RANGES)
    requires k < |order| && a == order[k]
    requires ScatteredTo(infos[..], writes, markers, Datas(bufs), totals, order[..k])
    modifies infos
    ensures ScatteredTo(infos[..], writes', markers', Datas(bufs), totals, order[..k + 1])
  {
    hide RegionsAt, Column, Offset, Bucket, Arrived, Sum, Interleaving, LockedOk;
    ghost var d := Datas(bufs);
    StepInRange(order, |bufs|, BUF_RANGES, k);
    StepFits(d, order, totals, k);
    RegionsApart(totals, a.1, |totals| - 1);
    assert LockedOk(bufs[a.0]) && d[a.0] == bufs[a.0].data;
    var part := SliceBucket(bufs[a.0], a.1);
    var idx := markers[a.1];
    MarkerMoves(markers, d, totals, order[..k], a);
    markers' := markers[a.1 := idx + |part|];
    ghost var before := infos[..];
    writes' := CopyPart(infos, idx, part, writes);
    RegionsGrow(before, writes, infos[..], writes', d, totals, order[..k], a);
    assert order[..k + 1] == order[..k] + [a];
  }

  /**
   * The parallel copy: each step adds to its bucket's marker and copies to where the marker stood.
   * In every interleaving each slot is written exactly once, and a bucket's region ends up with
   * exactly the bucket's entries.
   */
  method Scatter(bufs: seq<Locked>, order: seq<Arrival>, totals: seq<nat>, infos: array<AnnData>)
    returns (ghost writes: seq<nat>)
    requires AllLocked(bufs) && TotalsOf(totals, Datas(bufs)) && Interleaving(order, |bufs|, BUF_RANGES)
    requires infos.Length == Offset(totals, |totals|)
    modifies infos
    ensures |writes| == infos.Length && RegionsAt(infos[..], writes, Datas(bufs), totals, order)
  {
    var markers: seq<nat>, total := Markers(totals);
    writes := seq(infos.Length, _ => 0);
    StartsEmpty(infos[..], writes, Datas(bufs), totals, markers);
    hide RegionsAt, MarkersAt, TotalsOf, Offset, Interleaving;
    assert order[..0] == [];
    for k := 0 to |order|
      invariant ScatteredTo(infos[..], writes, markers, Datas(bufs), totals, order[..k])
    {
      markers, writes := ScatterStep(bufs, order, order[k], totals, infos, markers, k, writes);
    }
    assert order[..|order|] == order;
  }

  lemma MarkerMoves(markers: seq<nat>, bufs: seq<seq<AnnData>>, sizes: seq<nat>, done: seq<Arrival>, a: Arrival)
    requires MarkersAt(markers, bufs, sizes, done) && a.1 < |sizes| && a.0 < |bufs|
    ensures MarkersAt(markers[a.1 := markers[a.1] + |Bucket(bufs[a.0], a.1)|], bufs, sizes, done + [a])
  {
    hide Bucket, Offset, Arrived;
    forall i | 0 <= i < |sizes|
      ensures |Arrived(bufs, done + [a], i)| == |Arrived(bufs, done, i)| + |Part(bufs, a, i)|
    {
      ArrivedConcat(bufs, done, [a], i);
      ArrivedOne(bufs, a, i);
    }
  }

  lemma StartsEmpty(infos: seq<AnnData>, writes: seq<nat>, bufs: seq<seq<AnnData>>, sizes: seq<nat>, markers: seq<nat>)
    requires |markers| == |sizes| && forall i :: 0 <= i < |sizes| ==> markers[i] == Offset(sizes, i)
    requires |infos| == |writes| == Offset(sizes, |sizes|) && forall x :: 0 <= x < |writes| ==> writes[x] == 0
    ensures RegionsAt(infos, writes, bufs, sizes, [])
    ensures MarkersAt(markers, bufs, sizes, [])
  {
    forall i | 0 <= i < |sizes| ensures RegionAt(infos, writes, Offset(sizes, i), Arrived(bufs, [], i),
                                                 Offset(sizes, i + 1)) {
      RegionsApart(sizes, i, |sizes| - 1);
    }
  }

  lemma {:induction false} InRow(b: nat, r: nat, a: Arrival)
    requires a in Row(b, r)
    ensures a.0 == b && a.1 < r
  {
    if a in Row(b, r - 1) { InRow(b, r - 1, a); }
  }

  lemma {:induction false} InPairs(b: nat, r: nat, a: Arrival)
    requires a in AllPairs(b, r)
    ensures a.0 < b && a.1 < r
  {
    hide Row;
    if a in AllPairs(b - 1, r) { InPairs(b - 1, r, a); } else { InRow(b - 1, r, a); }
  }

  lemma StepInRange(order: seq<Arrival>, b: nat, r: nat, k: nat)
    requires Interleaving(order, b, r) && k < |order|
    ensures order[k].0 < b && order[k].1 < r
  {
    assert order[k] in multiset(order);
    assert order[k] in AllPairs(b, r);
    InPairs(b, r, order[k]);
  }

  /** There is room for the next part: its bucket has not received everything yet. */
  lemma StepFits(bufs: seq<seq<AnnData>>, order: seq<Arrival>, sizes: seq<nat>, k: nat)
    requires k < |order| && Interleaving(order, |bufs|, |sizes|) && order[k].0 < |bufs| && order[k].1 < |sizes|
    requires forall i :: 0 <= i < |sizes| ==> sizes[i] == |Column(bufs, i)|
    ensures var i := order[k].1;
            Offset(sizes, i) + |Arrived(bufs, order[..k], i)| + |Bucket(bufs[order[k].0], i)| <= Offset(sizes, i + 1)
  {
    hide Arrived, Column, Bucket, Offset, Interleaving;
    var i := order[k].1;
    BucketReceives(bufs, order, |sizes|, i);
    ArrivedGrows(bufs, order, k + 1, i);
    assert order[..k + 1] == order[..k] + [order[k]];
    ArrivedConcat(bufs, order[..k], [order[k]], i);
    ArrivedOne(bufs, order[k], i);
    OffsetStep(sizes, i);
  }
}
