/**
 * How announcements come into the store (BlkMine::on_anns, AnnBuf::push_anns): they are sorted into
 * classes by parent block height and target, and each is put into memory under an entry of one of its
 * own class's buffers.
 */
module Intake {
  import opened Words
  import opened CryptoCycle
  import opened Share
  import opened SelfTest
  import opened IndexMerge

  // ---------- batches ----------

  datatype Ai = Ai(hw: HeightWork, index: nat)

  datatype Batch = Batch(hw: HeightWork, indexes: seq<nat>)

  predicate Before(a: HeightWork, b: HeightWork) {
    a.blockHeight < b.blockHeight || (a.blockHeight == b.blockHeight && a.work < b.work)
  }

  /** A library sort by class. */
  ghost predicate SortsByClass(sort: seq<Ai> -> seq<Ai>) {
    forall s :: multiset(sort(s)) == multiset(s) && InClassOrder(sort(s))
  }

  ghost predicate InClassOrder(s: seq<Ai>) {
    forall i, j :: 0 <= i < j < |s| ==> !Before(s[j].hw, s[i].hw)
  }

  function Marked(lib: BlockLibrary, anns: seq<Item>): (v: seq<Ai>)
    ensures |v| == |anns|
  {
    seq(|anns|, i requires 0 <= i < |anns| => Ai(HeightWorkOf(lib, anns[i]), i))
  }

  function AllIndexes(batches: seq<Batch>): seq<nat> {
    if |batches| == 0 then [] else AllIndexes(batches[..|batches| - 1]) + batches[|batches| - 1].indexes
  }

  function IndexesOf(v: seq<Ai>): (r: seq<nat>)
    ensures |r| == |v|
  {
    seq(|v|, i requires 0 <= i < |v| => v[i].index)
  }

  /** A batch is not empty, and its announcements are all of its class. */
  ghost predicate BatchOk(lib: BlockLibrary, anns: seq<Item>, b: Batch) {
    |b.indexes| > 0 && forall i :: i in b.indexes ==> i < |anns| && HeightWorkOf(lib, anns[i]) == b.hw
  }

  ghost predicate BatchesOk(lib: BlockLibrary, anns: seq<Item>, batches: seq<Batch>) {
    && (forall k :: 0 <= k < |batches| ==> BatchOk(lib, anns, batches[k]))
    && (forall j, k :: 0 <= j < k < |batches| ==> Before(batches[j].hw, batches[k].hw))
  }

  /** The sorted marks still say what class each announcement is of. */
  ghost predicate MarksOk(lib: BlockLibrary, anns: seq<Item>, v: seq<Ai>) {
    forall k :: 0 <= k < |v| ==> v[k].index < |anns| && HeightWorkOf(lib, anns[v[k].index]) == v[k].hw
  }

  lemma MarksStayOk(lib: BlockLibrary, anns: seq<Item>, v: seq<Ai>)
    requires multiset(v) == multiset(Marked(lib, anns))
    ensures MarksOk(lib, anns, v)
  {
    hide HeightWorkOf;
    forall k | 0 <= k < |v| ensures v[k].index < |anns| && HeightWorkOf(lib, anns[v[k].index]) == v[k].hw {
      assert v[k] in multiset(v);
      assert v[k] in Marked(lib, anns);
    }
  }

  /** After `k` announcements: the batches handed on, and the one being collected. */
  ghost predicate Collected(lib: BlockLibrary, anns: seq<Item>, v: seq<Ai>, k: nat, batches: seq<Batch>,
                            open: Option<Batch>)
    requires k <= |v|
  {
    && BatchesOk(lib, anns, batches)
    && match open
       case None => k == 0 && batches == []
       case Some(b) =>
         && k > 0 && b.hw == v[k - 1].hw && BatchOk(lib, anns, b)
         && (|batches| > 0 ==> Before(batches[|batches| - 1].hw, b.hw))
         && AllIndexes(batches) + b.indexes == IndexesOf(v[..k])
  }

  /**
   * on_anns: every announcement goes into exactly one batch, which is that of its class, and no two
   * batches are of the same class.
   */
  method OnAnns(lib: BlockLibrary, anns: seq<Item>, sort: seq<Ai> -> seq<Ai>) returns (batches: seq<Batch>)
    requires SortsByClass(sort)
    ensures BatchesOk(lib, anns, batches)
    ensures multiset(AllIndexes(batches)) == multiset(seq(|anns|, i => i))
  {
    var v := sort(Marked(lib, anns));
    MarksStayOk(lib, anns, v);
    SortedIndexes(lib, anns, v);
    assert InClassOrder(v);
    hide *;
    NothingCollected(lib, anns, v);
    var collecting: Option<Batch> := None;
    batches := [];
    for k := 0 to |v|
      invariant Collected(lib, anns, v, k, batches, collecting)
    {
      if collecting.None? || collecting.value.hw == v[k].hw {
        ghost var before := collecting;
        collecting := Some(Batch(v[k].hw, (if collecting.None? then [] else collecting.value.indexes) + [v[k].index]));
        CollectsSame(lib, anns, v, k, batches, before);
      } else {
        CollectsNext(lib, anns, v, k, batches, collecting.value);
        batches := batches + [collecting.value];
        collecting := Some(Batch(v[k].hw, [v[k].index]));
      }
    }
    AllCollected(lib, anns, v, batches, collecting);
    if collecting.Some? { batches := batches + [collecting.value]; }
  }

  lemma NothingCollected(lib: BlockLibrary, anns: seq<Item>, v: seq<Ai>)
    ensures Collected(lib, anns, v, 0, [], None)
  {
  }

  lemma CollectsSame(lib: BlockLibrary, anns: seq<Item>, v: seq<Ai>, k: nat, batches: seq<Batch>, open: Option<Batch>)
    requires k < |v| && MarksOk(lib, anns, v) && Collected(lib, anns, v, k, batches, open)
    requires open.None? || open.value.hw == v[k].hw
    ensures var indexes := (if open.None? then [] else open.value.indexes) + [v[k].index];
            Collected(lib, anns, v, k + 1, batches, Some(Batch(v[k].hw, indexes)))
  {
    IndexesOneMore(v, k);
    var was: seq<nat> := if open.None? then [] else open.value.indexes;
    hide HeightWorkOf, MarksOk;
    OneIsOk(lib, anns, v, k);
    assert AllIndexes(batches) + was == IndexesOf(v[..k]);
    Associate(AllIndexes(batches), was, [v[k].index]);
    hide AllIndexes, IndexesOf, BatchesOk, Before;
  }

  lemma CollectsNext(lib: BlockLibrary, anns: seq<Item>, v: seq<Ai>, k: nat, batches: seq<Batch>, b: Batch)
    requires k < |v| && MarksOk(lib, anns, v) && InClassOrder(v) && Collected(lib, anns, v, k, batches, Some(b))
    requires b.hw != v[k].hw
    ensures Collected(lib, anns, v, k + 1, batches + [b], Some(Batch(v[k].hw, [v[k].index])))
  {
    assert Before(b.hw, v[k].hw) by { assert !Before(v[k].hw, v[k - 1].hw); }
    hide HeightWorkOf, Before, InClassOrder, MarksOk, IndexesOf;
    OneIsOk(lib, anns, v, k);
    CloseBatch(lib, anns, batches, b);
    IndexesOneMore(v, k);
    hide BatchesOk, AllIndexes;
    assert (batches + [b])[|batches|] == b;
  }

  lemma AllCollected(lib: BlockLibrary, anns: seq<Item>, v: seq<Ai>, batches: seq<Batch>, open: Option<Batch>)
    requires Collected(lib, anns, v, |v|, batches, open)
    ensures var all := if open.Some? then batches + [open.value] else batches;
            BatchesOk(lib, anns, all) && AllIndexes(all) == IndexesOf(v)
  {
    assert v[..|v|] == v;
    hide HeightWorkOf, Before;
    if open.Some? { CloseBatch(lib, anns, batches, open.value); }
  }

  lemma OneIsOk(lib: BlockLibrary, anns: seq<Item>, v: seq<Ai>, k: nat)
    requires k < |v| && MarksOk(lib, anns, v)
    ensures v[k].index < |anns| && HeightWorkOf(lib, anns[v[k].index]) == v[k].hw
    ensures BatchOk(lib, anns, Batch(v[k].hw, [v[k].index]))
  {
    hide HeightWorkOf;
  }

  lemma IndexesOneMore(v: seq<Ai>, k: nat)
    requires k < |v|
    ensures IndexesOf(v[..k + 1]) == IndexesOf(v[..k]) + [v[k].index]
    ensures k == 0 ==> IndexesOf(v[..k]) == []
  {
  }

  lemma Associate(a: seq<nat>, b: seq<nat>, c: seq<nat>)
    ensures a + b + c == a + (b + c)
  {
  }

  /** A batch that is complete joins the others. */
  lemma CloseBatch(lib: BlockLibrary, anns: seq<Item>, batches: seq<Batch>, b: Batch)
    requires BatchesOk(lib, anns, batches) && BatchOk(lib, anns, b)
    requires |batches| > 0 ==> Before(batches[|batches| - 1].hw, b.hw)
    ensures BatchesOk(lib, anns, batches + [b]) && AllIndexes(batches + [b]) == AllIndexes(batches) + b.indexes
  {
    hide BatchOk, Before;
    var n, more := |batches|, batches + [b];
    assert more[..n] == batches && more[n] == b;
    hide AllIndexes;
    forall j, k | 0 <= j < k < |more| ensures Before(more[j].hw, more[k].hw) {
      if k == n && j < n - 1 { BeforeIsTransitive(batches[j].hw, batches[n - 1].hw, b.hw); }
    }
  }

  lemma BeforeIsTransitive(a: HeightWork, b: HeightWork, c: HeightWork)
    requires Before(a, b) && Before(b, c)
    ensures Before(a, c)
  {
  }

  lemma SortedIndexes(lib: BlockLibrary, anns: seq<Item>, v: seq<Ai>)
    requires multiset(v) == multiset(Marked(lib, anns))
    ensures multiset(IndexesOf(v)) == multiset(seq(|anns|, i => i))
  {
    IndexesPermuted(v, Marked(lib, anns));
    assert IndexesOf(Marked(lib, anns)) == seq(|anns|, i => i);
  }

  lemma {:induction false} IndexesPermuted(v: seq<Ai>, w: seq<Ai>)
    requires multiset(v) == multiset(w)
    ensures multiset(IndexesOf(v)) == multiset(IndexesOf(w))
  {
    hide IndexesOf;
    if |v| == 0 {
      assert |multiset(w)| == 0;
    } else {
      var x := v[0];
      assert x in multiset(w);
      var j :| 0 <= j < |w| && w[j] == x;
      SameRest(v, w, j);
      IndexesPermuted(v[1..], w[..j] + w[j + 1..]);
      assert v[..0] + v[1..] == v[1..];
      IndexTakenOut(v, 0);
      IndexTakenOut(w, j);
    }
  }

  lemma IndexTakenOut(v: seq<Ai>, j: nat)
    requires j < |v|
    ensures multiset(IndexesOf(v)) == multiset{v[j].index} + multiset(IndexesOf(v[..j] + v[j + 1..]))
  {
    assert IndexesOf(v) == IndexesOf(v[..j]) + [v[j].index] + IndexesOf(v[j + 1..]);
    assert IndexesOf(v[..j] + v[j + 1..]) == IndexesOf(v[..j]) + IndexesOf(v[j + 1..]);
  }

  lemma SameRest(v: seq<Ai>, w: seq<Ai>, j: nat)
    requires |v| > 0 && multiset(v) == multiset(w) && j < |w| && w[j] == v[0]
    ensures multiset(v[1..]) == multiset(w[..j] + w[j + 1..])
  {
    assert v == [v[0]] + v[1..] && w == w[..j] + [w[j]] + w[j + 1..];
    assert multiset(v) == multiset{v[0]} + multiset(v[1..]);
    assert multiset(w) == multiset(w[..j]) + multiset{w[j]} + multiset(w[j + 1..]);
    assert multiset(w[..j] + w[j + 1..]) == multiset(w[..j]) + multiset(w[j + 1..]);
    forall x ensures multiset(v[1..])[x] == multiset(w[..j] + w[j + 1..])[x] {
      assert multiset(v)[x] == multiset(w)[x];
    }
  }

  // ---------- memory ----------

  /** A buffer of a class: its slots of the announcement memory start at `base`, and entry `i` is for slot `i`. */
  datatype Buf = Buf(hw: HeightWork, base: nat, entries: seq<AnnData>)

  datatype Memory = Memory(anns: seq<Item>, bufs: seq<Buf>)

  /** Putting one announcement of a batch into a buffer of its class, or handing a buffer to another class. */
  datatype Step = Put(b: nat, item: Item) | Recycle(b: nat, hw: HeightWork)

  function Next(lib: BlockLibrary, m: Memory, step: Step): Option<Memory> {
    if step.b >= |m.bufs| then None
    else
      var buf := m.bufs[step.b];
      match step
      case Put(b, item) =>
        var mloc := buf.base + |buf.entries|;
        if |buf.entries| >= ANNBUF_SZ || mloc >= |m.anns| || HeightWorkOf(lib, item) != buf.hw then None
        else
          var entry := AnnData(AnnHash32(lib, item).l0, mloc);
          Some(Memory(m.anns[mloc := item], m.bufs[b := buf.(entries := buf.entries + [entry])]))
      case Recycle(b, hw) => Some(m.(bufs := m.bufs[b := Buf(hw, buf.base, [])]))
  }

  function Run(lib: BlockLibrary, m: Memory, steps: seq<Step>): Memory {
    if |steps| == 0 then m
    else
      var r := Run(lib, m, steps[..|steps| - 1]);
      match Next(lib, r, steps[|steps| - 1]) case Some(n) => n case None => r
  }

  /** What an entry of class `hw` says about its announcement in memory is true. */
  predicate Filed(lib: BlockLibrary, anns: seq<Item>, hw: HeightWork, d: AnnData) {
    d.mloc < |anns| && HeightWorkOf(lib, anns[d.mloc]) == hw && AnnHash32(lib, anns[d.mloc]).l0 == d.pfx
  }

  ghost predicate AllFiled(lib: BlockLibrary, anns: seq<Item>, hw: HeightWork, s: seq<AnnData>) {
    forall d :: d in s ==> Filed(lib, anns, hw, d)
  }

  ghost predicate BufOk(lib: BlockLibrary, m: Memory, b: nat)
    requires b < |m.bufs|
  {
    var buf := m.bufs[b];
    && buf.base + ANNBUF_SZ <= |m.anns| && |buf.entries| <= ANNBUF_SZ
    && (forall i :: 0 <= i < |buf.entries| ==> buf.entries[i].mloc == buf.base + i)
    && AllFiled(lib, m.anns, buf.hw, buf.entries)
  }

  ghost predicate Apart(m: Memory) {
    forall b, c :: 0 <= b < |m.bufs| && 0 <= c < |m.bufs| && b != c ==>
      m.bufs[b].base + ANNBUF_SZ <= m.bufs[c].base || m.bufs[c].base + ANNBUF_SZ <= m.bufs[b].base
  }

  ghost predicate Inv(lib: BlockLibrary, m: Memory) {
    Apart(m) && forall b :: 0 <= b < |m.bufs| ==> BufOk(lib, m, b)
  }

  /** All buffers are empty, and each has slots of its own. */
  ghost predicate Initial(m: Memory) {
    Apart(m) && forall b :: 0 <= b < |m.bufs| ==> m.bufs[b].entries == [] && m.bufs[b].base + ANNBUF_SZ <= |m.anns|
  }

  lemma OwnEntryFiled(lib: BlockLibrary, m: Memory, b: nat, item: Item)
    requires b < |m.bufs| && BufOk(lib, m, b) && Next(lib, m, Put(b, item)).Some?
    ensures BufOk(lib, Next(lib, m, Put(b, item)).value, b)
  {
    hide HeightWorkOf, AnnHash32;
    var n, buf := Next(lib, m, Put(b, item)).value, m.bufs[b];
    forall d | d in n.bufs[b].entries ensures Filed(lib, n.anns, buf.hw, d) {
      if d in buf.entries {
        assert Filed(lib, m.anns, buf.hw, d);
      }
    }
  }

  lemma OtherEntriesFiled(lib: BlockLibrary, m: Memory, b: nat, item: Item, c: nat)
    requires Apart(m) && b < |m.bufs| && c < |m.bufs| && b != c && BufOk(lib, m, c)
    requires Next(lib, m, Put(b, item)).Some? && BufOk(lib, m, b)
    ensures BufOk(lib, Next(lib, m, Put(b, item)).value, c)
  {
    hide HeightWorkOf, AnnHash32;
    var n, buf := Next(lib, m, Put(b, item)).value, m.bufs[c];
    forall d | d in buf.entries ensures Filed(lib, n.anns, buf.hw, d) {
      assert Filed(lib, m.anns, buf.hw, d);
    }
  }

  lemma StepKeeps(lib: BlockLibrary, m: Memory, step: Step)
    requires Inv(lib, m) && Next(lib, m, step).Some?
    ensures Inv(lib, Next(lib, m, step).value)
  {
    var n := Next(lib, m, step).value;
    hide HeightWorkOf, AnnHash32, AllFiled;
    match step
    case Put(b, item) =>
      forall c | 0 <= c < |n.bufs| ensures BufOk(lib, n, c) {
        if c == b { OwnEntryFiled(lib, m, b, item); } else { OtherEntriesFiled(lib, m, b, item, c); }
      }
    case Recycle(b, hw) =>
      NothingFiled(lib, n.anns, hw);
      forall c | 0 <= c < |n.bufs| ensures BufOk(lib, n, c) {
        assert BufOk(lib, m, c);
      }
  }

  lemma NothingFiled(lib: BlockLibrary, anns: seq<Item>, hw: HeightWork)
    ensures AllFiled(lib, anns, hw, [])
  {
  }

  lemma {:induction false} RunKeepsInvariant(lib: BlockLibrary, m: Memory, steps: seq<Step>)
    requires Initial(m)
    ensures Inv(lib, Run(lib, m, steps))
  {
    hide HeightWorkOf, AnnHash32, Next;
    if |steps| > 0 {
      RunKeepsInvariant(lib, m, steps[..|steps| - 1]);
      var r, s := Run(lib, m, steps[..|steps| - 1]), steps[|steps| - 1];
      hide Inv, Initial;
      if Next(lib, r, s).Some? { StepKeeps(lib, r, s); }
    }
  }

  /**
   * In every run of puts and recyclings, every entry of every buffer is for an announcement of the
   * buffer's class that is still in memory, and carries the prefix of its hash.
   */
  lemma EntriesStayTrue(lib: BlockLibrary, m: Memory, steps: seq<Step>, b: nat)
    requires Initial(m) && b < |Run(lib, m, steps).bufs|
    ensures var r := Run(lib, m, steps); AllFiled(lib, r.anns, r.bufs[b].hw, r.bufs[b].entries)
  {
    RunKeepsInvariant(lib, m, steps);
    hide Run, AllFiled, Initial;
    assert BufOk(lib, Run(lib, m, steps), b);
  }
}
