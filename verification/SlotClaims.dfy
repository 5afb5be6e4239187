/**
 * Concurrent pushes into one announcement buffer (AnnBuf::push_anns): every atomic operation is a
 * step, and any thread may take the next one.
 */
module SlotClaims {
  import opened Words

  const ANNBUF_SZ: nat := 32768

  /** A claim made by one fetch_add: `len` slots from `start` on, out of `wanted`. */
  datatype Claim = Claim(thread: nat, start: nat, len: nat, wanted: nat)

  /** Where a pushing thread stands; `id` is the number of its claim. */
  datatype Pc =
    | Ready
    | Full(wanted: nat)              // found the buffer full, has to store the size
    | Clip(id: nat)                  // claimed past the end, has to store the size
    | Writing(id: nat)               // copies announcements into its slots
    | Returned(count: nat, wanted: nat)

  /** `slots` says which claim filled a slot and `progress` how much of each claim has been written. */
  datatype Buffer = Buffer(next: nat, slots: seq<Option<nat>>, threads: seq<Pc>, claims: seq<Claim>, progress: seq<nat>)

  datatype Step = Push(t: nat, wanted: nat) | Store(t: nat) | Write(t: nat) | Return(t: nat)

  function Fresh(threads: nat): Buffer {
    Buffer(0, seq(ANNBUF_SZ, _ => None), seq(threads, _ => Ready), [], [])
  }

  /** What one step does; None when it is not this thread's next operation. */
  function Next(b: Buffer, s: Step): Option<Buffer> {
    if s.t >= |b.threads| then None
    else
      var pc := b.threads[s.t];
      match s
      case Push(t, wanted) =>
        if !pc.Ready? && !pc.Returned? then None
        else if b.next >= ANNBUF_SZ then
          Some(b.(next := b.next + wanted, threads := b.threads[t := Full(wanted)]))
        else
          var clipped := b.next + wanted > ANNBUF_SZ;
          var c := Claim(t, b.next, if clipped then ANNBUF_SZ - b.next else wanted, wanted);
          var pc' := if clipped then Clip(|b.claims|) else Writing(|b.claims|);
          Some(Buffer(b.next + wanted, b.slots, b.threads[t := pc'], b.claims + [c], b.progress + [0]))
      case Store(t) =>
        if pc.Full? then Some(b.(next := ANNBUF_SZ, threads := b.threads[t := Returned(0, pc.wanted)]))
        else if pc.Clip? then Some(b.(next := ANNBUF_SZ, threads := b.threads[t := Writing(pc.id)]))
        else None
      case Write(t) =>
        if !pc.Writing? || pc.id >= |b.claims| || pc.id >= |b.progress| then None
        else
          var c, i := b.claims[pc.id], b.progress[pc.id];
          if i >= c.len || c.start + i >= |b.slots| then None
          else Some(b.(slots := b.slots[c.start + i := Some(pc.id)], progress := b.progress[pc.id := i + 1]))
      case Return(t) =>
        if !pc.Writing? || pc.id >= |b.claims| || pc.id >= |b.progress| then None
        else if b.progress[pc.id] < b.claims[pc.id].len then None
        else Some(b.(threads := b.threads[t := Returned(b.claims[pc.id].len, b.claims[pc.id].wanted)]))
  }

  /** A run: steps that are not enabled leave the buffer as it is. */
  function Run(b: Buffer, steps: seq<Step>): Buffer {
    if |steps| == 0 then b
    else
      var r := Run(b, steps[..|steps| - 1]);
      match Next(r, steps[|steps| - 1]) case Some(n) => n case None => r
  }

  // ---------- the invariant ----------

  /** The end of the claimed slots. */
  function Claimed(claims: seq<Claim>): nat {
    if |claims| == 0 then 0 else claims[|claims| - 1].start + claims[|claims| - 1].len
  }

  /** Claims follow one another without a gap. */
  ghost predicate Tiled(claims: seq<Claim>) {
    forall k :: 0 <= k < |claims| ==> claims[k].start == Claimed(claims[..k])
  }

  /** The slots of claim `id` that are written are exactly its first `progress` ones. */
  ghost predicate Filled(b: Buffer, id: nat)
    requires id < |b.claims| == |b.progress|
  {
    && b.progress[id] <= b.claims[id].len && b.claims[id].start + b.claims[id].len <= |b.slots|
    && forall k :: b.claims[id].start <= k < b.claims[id].start + b.claims[id].len ==>
         b.slots[k] == if k < b.claims[id].start + b.progress[id] then Some(id) else None
  }

  predicate Storing(pc: Pc) { pc.Full? || pc.Clip? }
  predicate Owns(pc: Pc, id: nat) { (pc.Clip? || pc.Writing?) && pc.id == id }

  ghost predicate ThreadOk(b: Buffer, t: nat)
    requires t < |b.threads| && |b.claims| == |b.progress|
  {
    match b.threads[t]
    case Clip(id) =>
      && id < |b.claims| && b.claims[id].thread == t && b.progress[id] == 0
      && Claimed(b.claims) == ANNBUF_SZ && b.next >= ANNBUF_SZ
    case Writing(id) => id < |b.claims| && b.claims[id].thread == t
    case Full(_) => b.next >= ANNBUF_SZ
    case Returned(count, wanted) => count <= wanted && (count < wanted ==> b.next >= ANNBUF_SZ)
    case Ready => true
  }

  predicate CutOnlyWhenFull(b: Buffer, c: Claim) {
    c.len <= c.wanted && (c.len < c.wanted ==> b.next >= ANNBUF_SZ)
  }

  /** What is claimed is what has been handed out, and ends with the buffer. */
  ghost predicate ClaimedOk(b: Buffer) {
    && |b.slots| == ANNBUF_SZ && |b.claims| == |b.progress| && Tiled(b.claims)
    && Claimed(b.claims) == (if b.next < ANNBUF_SZ then b.next else ANNBUF_SZ)
  }

  ghost predicate ClaimsOk(b: Buffer)
    requires |b.claims| == |b.progress|
  {
    forall id :: 0 <= id < |b.claims| ==> Filled(b, id) && CutOnlyWhenFull(b, b.claims[id])
  }

  /** Nothing is written past the claims. */
  ghost predicate RestIsEmpty(b: Buffer)
    requires |b.slots| == ANNBUF_SZ
  {
    forall k :: Claimed(b.claims) <= k < ANNBUF_SZ ==> b.slots[k] == None
  }

  ghost predicate ThreadsOk(b: Buffer)
    requires |b.claims| == |b.progress|
  {
    forall t :: 0 <= t < |b.threads| ==> ThreadOk(b, t)
  }

  /** A claim that is not yet written is somebody's. */
  ghost predicate OwnersOk(b: Buffer)
    requires |b.claims| == |b.progress|
  {
    forall id :: 0 <= id < |b.claims| && b.progress[id] < b.claims[id].len ==>
      b.claims[id].thread < |b.threads| && Owns(b.threads[b.claims[id].thread], id)
  }

  ghost predicate SomeoneStores(b: Buffer) {
    exists t :: 0 <= t < |b.threads| && Storing(b.threads[t])
  }

  ghost predicate Inv(b: Buffer) {
    && ClaimedOk(b) && ClaimsOk(b) && RestIsEmpty(b) && ThreadsOk(b) && OwnersOk(b)
    && (b.next > ANNBUF_SZ ==> SomeoneStores(b))
  }

  // ---------- claims tile a prefix of the buffer ----------

  lemma {:induction false} EndsBefore(claims: seq<Claim>, j: nat, k: nat)
    requires Tiled(claims) && j < k <= |claims|
    ensures claims[j].start + claims[j].len <= Claimed(claims[..k])
    decreases k
  {
    assert claims[..k][k - 1] == claims[k - 1];
    if j < k - 1 {
      EndsBefore(claims, j, k - 1);
    }
  }

  /** Claimed ranges are pairwise disjoint. */
  lemma ClaimsDisjoint(b: Buffer, j: nat, k: nat)
    requires Inv(b) && j < k < |b.claims|
    ensures b.claims[j].start + b.claims[j].len <= b.claims[k].start
  {
    EndsBefore(b.claims, j, k);
  }

  /** Every slot below the end of the claims lies in one of them. */
  lemma {:induction false} InSomeClaim(claims: seq<Claim>, n: nat, slot: nat) returns (id: nat)
    requires Tiled(claims) && n <= |claims| && slot < Claimed(claims[..n])
    ensures id < n && claims[id].start <= slot < claims[id].start + claims[id].len
  {
    assert claims[..n][n - 1] == claims[n - 1];
    if slot >= claims[n - 1].start {
      id := n - 1;
    } else {
      id := InSomeClaim(claims, n - 1, slot);
    }
  }

  // ---------- every step keeps the invariant ----------

  lemma FreshIsFine(threads: nat)
    ensures Inv(Fresh(threads))
  {
  }

  lemma TiledMore(claims: seq<Claim>, c: Claim)
    requires Tiled(claims) && c.start == Claimed(claims)
    ensures Tiled(claims + [c]) && Claimed(claims + [c]) == c.start + c.len
  {
    var d := claims + [c];
    forall k | 0 <= k < |d| ensures d[k].start == Claimed(d[..k]) {
      assert k < |claims| ==> d[..k] == claims[..k];
      assert k == |claims| ==> d[..k] == claims;
    }
  }

  lemma PushKeeps(b: Buffer, t: nat, wanted: nat)
    requires Inv(b) && Next(b, Push(t, wanted)).Some?
    ensures Inv(Next(b, Push(t, wanted)).value)
  {
    var n := Next(b, Push(t, wanted)).value;
    if b.next >= ANNBUF_SZ {
      PushFull(b, n, t, wanted);
    } else {
      PushClaim(b, n, t, wanted);
    }
  }

  lemma PushFull(b: Buffer, n: Buffer, t: nat, wanted: nat)
    requires Inv(b) && t < |b.threads| && (b.threads[t].Ready? || b.threads[t].Returned?) && b.next >= ANNBUF_SZ
    requires n == b.(next := b.next + wanted, threads := b.threads[t := Full(wanted)])
    ensures Inv(n)
  {
    assert Storing(n.threads[t]);
    forall u | 0 <= u < |n.threads| ensures ThreadOk(n, u) {
      assert ThreadOk(b, u);
    }
    forall id | 0 <= id < |n.claims| ensures Filled(n, id) {
      assert Filled(b, id);
    }
  }

  lemma PushClaim(b: Buffer, n: Buffer, t: nat, wanted: nat)
    requires Inv(b) && t < |b.threads| && (b.threads[t].Ready? || b.threads[t].Returned?) && b.next < ANNBUF_SZ
    requires Next(b, Push(t, wanted)) == Some(n)
    ensures Inv(n)
  {
    PushClaimed(b, n, t, wanted);
    PushThreads(b, n, t, wanted);
    hide Tiled, Claimed, Filled, ThreadOk, CutOnlyWhenFull, Owns, RestIsEmpty;
    forall id | 0 <= id < |n.claims| ensures Filled(n, id) && CutOnlyWhenFull(n, n.claims[id]) {
      PushFills(b, n, t, wanted, id);
    }
    if n.next > ANNBUF_SZ {
      assert Storing(n.threads[t]);
    }
  }

  lemma PushClaimed(b: Buffer, n: Buffer, t: nat, wanted: nat)
    requires ClaimedOk(b) && RestIsEmpty(b) && b.next < ANNBUF_SZ && Next(b, Push(t, wanted)) == Some(n)
    ensures ClaimedOk(n) && RestIsEmpty(n)
  {
    TiledMore(b.claims, n.claims[|b.claims|]);
    hide Tiled;
  }

  lemma PushThreads(b: Buffer, n: Buffer, t: nat, wanted: nat)
    requires Inv(b) && b.next < ANNBUF_SZ && Next(b, Push(t, wanted)) == Some(n) && ClaimedOk(n)
    ensures ThreadsOk(n) && OwnersOk(n)
  {
    hide Tiled, Claimed, Filled, CutOnlyWhenFull, RestIsEmpty;
    forall u | 0 <= u < |n.threads| ensures ThreadOk(n, u) {
      assert ThreadOk(b, u);
    }
    forall id | 0 <= id < |n.claims| && n.progress[id] < n.claims[id].len
      ensures n.claims[id].thread < |n.threads| && Owns(n.threads[n.claims[id].thread], id)
    {
      assert id < |b.claims| ==> b.claims[id].thread < |b.threads| && Owns(b.threads[b.claims[id].thread], id);
    }
  }

  lemma PushFills(b: Buffer, n: Buffer, t: nat, wanted: nat, id: nat)
    requires Inv(b) && b.next < ANNBUF_SZ && Next(b, Push(t, wanted)) == Some(n) && id < |n.claims|
    ensures Filled(n, id) && CutOnlyWhenFull(n, n.claims[id])
  {
    hide Tiled;
    if id < |b.claims| {
      assert Filled(b, id) && CutOnlyWhenFull(b, b.claims[id]);
    }
  }

  lemma StoreKeeps(b: Buffer, t: nat)
    requires Inv(b) && Next(b, Store(t)).Some?
    ensures Inv(Next(b, Store(t)).value)
  {
    var n := Next(b, Store(t)).value;
    assert ThreadOk(b, t);
    assert ClaimedOk(n) && RestIsEmpty(n) by { hide Tiled, Claimed; }
    StoreThreads(b, n, t);
    hide Tiled, Claimed, ThreadOk, Owns, ClaimedOk, RestIsEmpty;
    forall id | 0 <= id < |n.claims| ensures Filled(n, id) && CutOnlyWhenFull(n, n.claims[id]) {
      assert Filled(b, id);
    }
  }

  lemma StoreThreads(b: Buffer, n: Buffer, t: nat)
    requires Inv(b) && Next(b, Store(t)) == Some(n)
    ensures ThreadsOk(n) && OwnersOk(n)
  {
    hide Tiled, Filled, RestIsEmpty;
    assert ThreadOk(b, t);
    forall u | 0 <= u < |n.threads| ensures ThreadOk(n, u) {
      assert ThreadOk(b, u);
    }
    hide ThreadOk, Claimed, CutOnlyWhenFull;
    forall id | 0 <= id < |n.claims| && n.progress[id] < n.claims[id].len
      ensures n.claims[id].thread < |n.threads| && Owns(n.threads[n.claims[id].thread], id)
    {
      assert b.claims[id].thread < |b.threads| && Owns(b.threads[b.claims[id].thread], id);
    }
  }

  /** A thread that has a store to do still has it after another thread's step. */
  lemma KeepsStoring(b: Buffer, n: Buffer, t: nat)
    requires Inv(b) && t < |b.threads| == |n.threads| && !Storing(b.threads[t]) && n.next == b.next
    requires forall u :: 0 <= u < |b.threads| && u != t ==> n.threads[u] == b.threads[u]
    ensures n.next > ANNBUF_SZ ==> exists u :: 0 <= u < |n.threads| && Storing(n.threads[u])
  {
    if n.next > ANNBUF_SZ {
      var u :| 0 <= u < |b.threads| && Storing(b.threads[u]);
      assert Storing(n.threads[u]);
    }
  }

  lemma WriteKeeps(b: Buffer, t: nat)
    requires Inv(b) && Next(b, Write(t)).Some?
    ensures Inv(Next(b, Write(t)).value)
  {
    var n := Next(b, Write(t)).value;
    WriteRest(b, n, t);
    WriteThreads(b, n, t);
    hide Tiled, Claimed, Filled, ThreadOk, Owns, ClaimedOk, RestIsEmpty;
    KeepsStoring(b, n, t);
    forall id | 0 <= id < |n.claims| ensures Filled(n, id) && CutOnlyWhenFull(n, n.claims[id]) {
      WriteFills(b, n, t, id);
    }
  }

  lemma WriteRest(b: Buffer, n: Buffer, t: nat)
    requires Inv(b) && Next(b, Write(t)) == Some(n)
    ensures ClaimedOk(n) && RestIsEmpty(n)
  {
    var me := b.threads[t].id;
    assert Filled(b, me);
    EndsBefore(b.claims, me, |b.claims|);
    assert b.claims[..|b.claims|] == b.claims;
    hide Tiled, Claimed, ThreadOk, Owns;
  }

  lemma WriteThreads(b: Buffer, n: Buffer, t: nat)
    requires Inv(b) && Next(b, Write(t)) == Some(n)
    ensures ThreadsOk(n) && OwnersOk(n)
  {
    hide Tiled, Claimed, Filled, RestIsEmpty;
    assert ThreadOk(b, t);
    forall u | 0 <= u < |n.threads| ensures ThreadOk(n, u) {
      assert ThreadOk(b, u);
    }
  }

  /** Writing one more slot of a claim keeps the account of every claim. */
  lemma WriteFills(b: Buffer, n: Buffer, t: nat, id: nat)
    requires Inv(b) && Next(b, Write(t)) == Some(n) && id < |b.claims|
    ensures Filled(n, id)
  {
    var me := b.threads[t].id;
    assert Filled(b, id) && Filled(b, me);
    if id < me { ClaimsDisjoint(b, id, me); }
    if me < id { ClaimsDisjoint(b, me, id); }
  }

  lemma ReturnKeeps(b: Buffer, t: nat)
    requires Inv(b) && Next(b, Return(t)).Some?
    ensures Inv(Next(b, Return(t)).value)
  {
    var n := Next(b, Return(t)).value;
    var me := b.threads[t].id;
    assert Filled(b, me) && CutOnlyWhenFull(b, b.claims[me]);
    KeepsStoring(b, n, t);
    hide Tiled, Claimed;
    forall u | 0 <= u < |n.threads| ensures ThreadOk(n, u) {
      assert ThreadOk(b, u);
    }
    forall id | 0 <= id < |n.claims| ensures Filled(n, id) {
      assert Filled(b, id);
    }
  }

  // ---------- every run ----------

  lemma {:induction false} RunKeepsInvariant(threads: nat, steps: seq<Step>)
    ensures Inv(Run(Fresh(threads), steps)) && |Run(Fresh(threads), steps).threads| == threads
  {
    hide Inv, Next;
    if |steps| == 0 {
      FreshIsFine(threads);
    } else {
      var r, s := Run(Fresh(threads), steps[..|steps| - 1]), steps[|steps| - 1];
      RunKeepsInvariant(threads, steps[..|steps| - 1]);
      if Next(r, s).Some? {
        StepKeeps(r, s);
      }
    }
  }

  lemma StepKeeps(b: Buffer, s: Step)
    requires Inv(b) && Next(b, s).Some?
    ensures Inv(Next(b, s).value) && |Next(b, s).value.threads| == |b.threads|
  {
    hide Inv;
    match s
    case Push(t, wanted) => PushKeeps(b, t, wanted);
    case Store(t) => StoreKeeps(b, t);
    case Write(t) => WriteKeeps(b, t);
    case Return(t) => ReturnKeeps(b, t);
  }

  /**
   * In every interleaving the claims are pairwise disjoint, lie inside the buffer and cover exactly a
   * prefix of it, and each slot is written at most by the claim it belongs to.
   */
  lemma ClaimsCoverAPrefix(threads: nat, steps: seq<Step>)
    ensures var b := Run(Fresh(threads), steps);
            && (forall j, k :: 0 <= j < k < |b.claims| ==> b.claims[j].start + b.claims[j].len <= b.claims[k].start)
            && (forall id :: 0 <= id < |b.claims| ==> b.claims[id].start + b.claims[id].len <= ANNBUF_SZ)
            && (forall slot :: 0 <= slot < ANNBUF_SZ ==> (slot < Claimed(b.claims) <==> Covered(b, slot)))
            && (forall slot :: 0 <= slot < |b.slots| && b.slots[slot].Some? ==> InClaim(b, b.slots[slot].value, slot))
  {
    var b := Run(Fresh(threads), steps);
    RunKeepsInvariant(threads, steps);
    hide Run;
    forall j, k | 0 <= j < k < |b.claims| ensures b.claims[j].start + b.claims[j].len <= b.claims[k].start {
      ClaimsDisjoint(b, j, k);
    }
    forall id | 0 <= id < |b.claims| ensures b.claims[id].start + b.claims[id].len <= Claimed(b.claims) {
      EndsBefore(b.claims, id, |b.claims|);
      assert b.claims[..|b.claims|] == b.claims;
    }
    forall slot | 0 <= slot < Claimed(b.claims)
      ensures Covered(b, slot) && (b.slots[slot].Some? ==> InClaim(b, b.slots[slot].value, slot))
    {
      assert b.claims[..|b.claims|] == b.claims;
      var id := InSomeClaim(b.claims, |b.claims|, slot);
      assert InClaim(b, id, slot) && Filled(b, id);
    }
  }

  ghost predicate Covered(b: Buffer, slot: nat) {
    exists id :: InClaim(b, id, slot)
  }

  predicate InClaim(b: Buffer, id: nat, slot: nat) {
    id < |b.claims| && b.claims[id].start <= slot < b.claims[id].start + b.claims[id].len
  }

  /** A push returns the number of slots it has written, and those are all its own. */
  lemma ReturnedCountIsWritten(threads: nat, steps: seq<Step>, t: nat)
    requires Next(Run(Fresh(threads), steps), Return(t)).Some?
    ensures var b := Run(Fresh(threads), steps);
            var n := Next(b, Return(t)).value;
            var c := b.claims[b.threads[t].id];
            && n.threads[t] == Returned(c.len, c.wanted) && c.thread == t && c.start + c.len <= |n.slots|
            && (forall slot :: 0 <= slot < |n.slots| ==>
                  (n.slots[slot] == Some(b.threads[t].id) <==> c.start <= slot < c.start + c.len))
  {
    var b := Run(Fresh(threads), steps);
    RunKeepsInvariant(threads, steps);
    ClaimsCoverAPrefix(threads, steps);
    hide Run;
    assert Filled(b, b.threads[t].id) && ThreadOk(b, t);
  }

  predicate Quiet(pc: Pc) { pc.Ready? || pc.Returned? }

  /** The index is exactly the size, and every slot has been written. */
  ghost predicate IsFull(b: Buffer) {
    b.next == ANNBUF_SZ && |b.slots| == ANNBUF_SZ && forall slot :: 0 <= slot < ANNBUF_SZ ==> b.slots[slot].Some?
  }

  /** When a push has come back short and no other push is under way, the buffer is completely full. */
  lemma FullWhenQuiet(b: Buffer, t: nat)
    requires Inv(b) && t < |b.threads| && b.threads[t].Returned? && b.threads[t].count < b.threads[t].wanted
    requires forall u :: 0 <= u < |b.threads| ==> Quiet(b.threads[u])
    ensures IsFull(b)
  {
    assert ThreadOk(b, t);
    forall slot | 0 <= slot < |b.slots| ensures b.slots[slot].Some? {
      assert b.claims[..|b.claims|] == b.claims;
      var id := InSomeClaim(b.claims, |b.claims|, slot);
      assert Filled(b, id);
    }
  }

  /** In every interleaving of pushes into a buffer. */
  lemma RetiredBufferIsFull(threads: nat, steps: seq<Step>, t: nat)
    requires var b := Run(Fresh(threads), steps);
             && t < |b.threads| && b.threads[t].Returned? && b.threads[t].count < b.threads[t].wanted
             && forall u :: 0 <= u < |b.threads| ==> Quiet(b.threads[u])
    ensures IsFull(Run(Fresh(threads), steps))
  {
    RunKeepsInvariant(threads, steps);
    hide Run, Inv, Quiet, IsFull;
    FullWhenQuiet(Run(Fresh(threads), steps), t);
  }
}
