/**
 * Threads pushing into one class (AnnClass::push_anns): its lock, the top buffer they share under the
 * read lock, and the double check under the write lock before the top buffer is replaced and locked.
 * Every critical operation is a step, and any thread may take the next one.
 */
module ClassPush {
  import opened Words
  import S = SlotClaims

  /**
   * Where a thread stands, with how many announcements it has `rest`; `spare` says that it still has a
   * new buffer, and `pushed` that it has called push_anns of the top buffer under the lock it holds.
   */
  datatype Pc =
    | Out
    | Reading(rest: nat, spare: bool, pushed: bool)
    | Waiting(rest: nat)
    | Writing(rest: nat, pushed: bool)
    | Again(rest: nat)

  /** `retired` are the buffers that have been taken off the top to be locked. */
  datatype Class = Class(top: Option<S.Buffer>, threads: seq<Pc>, retired: seq<S.Buffer>)

  datatype Step =
    | Begin(t: nat, wanted: nat)
    | OnTop(s: S.Step)
    | LeaveRead(t: nat)
    | TakeWrite(t: nat)
    | LeaveWrite(t: nat)
    | ReadAgain(t: nat)
    | Steal

  predicate Holds(pc: Pc) { pc.Reading? || pc.Writing? }

  ghost predicate NoWriter(c: Class) { forall t :: 0 <= t < |c.threads| ==> !c.threads[t].Writing? }
  ghost predicate NoHolder(c: Class) { forall t :: 0 <= t < |c.threads| ==> !Holds(c.threads[t]) }

  /** A new class, without a buffer or with a new one on top, that nobody is pushing into. */
  ghost predicate Initial(c: Class) {
    && (c.top.Some? ==> c.top.value == S.Fresh(|c.threads|)) && c.retired == []
    && forall t :: 0 <= t < |c.threads| ==> c.threads[t].Out?
  }

  function Move(c: Class, t: nat, pc: Pc): Class
    requires t < |c.threads|
  {
    c.(threads := c.threads[t := pc])
  }

  /** The thread's push has come back: how many announcements it has put into the top buffer. */
  function Consumed(c: Class, t: nat): Option<nat> {
    if c.top.Some? && t < |c.top.value.threads| && c.top.value.threads[t].Returned?
    then Some(c.top.value.threads[t].count) else None
  }

  /** An operation of push_anns on the top buffer, by a thread that holds the lock. */
  function OnTopStep(c: Class, s: S.Step): Option<Class>
    requires s.t < |c.threads|
  {
    var pc := c.threads[s.t];
    if c.top.None? || !Holds(pc) || pc.pushed == s.Push? || (s.Push? && s.wanted != pc.rest) then None
    else match S.Next(c.top.value, s)
      case None => None
      case Some(b) => Some(Move(c, s.t, pc.(pushed := true)).(top := Some(b)))
  }

  /** Done with the read lock: all pushed, or on to the write lock with a new buffer, or out of room. */
  function LeaveReadStep(c: Class, t: nat): Option<Class>
    requires t < |c.threads|
  {
    var pc := c.threads[t];
    if !pc.Reading? then None
    else if c.top.None? then Some(Move(c, t, if pc.spare then Waiting(pc.rest) else Out))
    else if !pc.pushed || Consumed(c, t).None? || Consumed(c, t).value > pc.rest then None
    else
      var left := pc.rest - Consumed(c, t).value;
      Some(Move(c, t, if left > 0 && pc.spare then Waiting(left) else Out))
  }

  /** Done with the write lock: all pushed after all, or the new buffer replaces the top one, which retires. */
  function LeaveWriteStep(c: Class, t: nat): Option<Class>
    requires t < |c.threads|
  {
    var pc := c.threads[t];
    if !pc.Writing? then None
    else if c.top.None? then Some(Move(c, t, Again(pc.rest)).(top := Some(S.Fresh(|c.threads|))))
    else if !pc.pushed || Consumed(c, t).None? || Consumed(c, t).value > pc.rest then None
    else
      var consumed := Consumed(c, t).value;
      if consumed > 0 && consumed == pc.rest then Some(Move(c, t, Out))
      else Some(Class(Some(S.Fresh(|c.threads|)), c.threads[t := Again(pc.rest - consumed)],
                      c.retired + [c.top.value]))
  }

  /** What one step does; None when it cannot be taken.  A push starts with something to push. */
  ghost function Next(c: Class, step: Step): Option<Class> {
    match step
    case Begin(t, wanted) =>
      if t < |c.threads| && c.threads[t].Out? && NoWriter(c) && wanted > 0
      then Some(Move(c, t, Reading(wanted, true, false))) else None
    case OnTop(s) => if s.t < |c.threads| then OnTopStep(c, s) else None
    case LeaveRead(t) => if t < |c.threads| then LeaveReadStep(c, t) else None
    case TakeWrite(t) =>
      if t < |c.threads| && c.threads[t].Waiting? && NoHolder(c)
      then Some(Move(c, t, Writing(c.threads[t].rest, false))) else None
    case LeaveWrite(t) => if t < |c.threads| then LeaveWriteStep(c, t) else None
    case ReadAgain(t) =>
      if t < |c.threads| && c.threads[t].Again? && NoWriter(c)
      then Some(Move(c, t, Reading(c.threads[t].rest, false, false))) else None
    case Steal => if NoHolder(c) then Some(c.(top := None)) else None
  }

  /** A run: steps that cannot be taken leave the class as it is. */
  ghost function Run(c: Class, steps: seq<Step>): Class {
    if |steps| == 0 then c
    else
      var r := Run(c, steps[..|steps| - 1]);
      match Next(r, steps[|steps| - 1]) case Some(n) => n case None => r
  }

  // ---------- the invariant ----------

  /** In buffer `b`, thread `t` is on its way through a push of `rest` announcements. */
  predicate Pushing(b: S.Buffer, t: nat, rest: nat) {
    t < |b.threads| &&
    match b.threads[t]
    case Ready => false
    case Full(wanted) => wanted == rest
    case Clip(id) => id < |b.claims| && b.claims[id].wanted == rest
    case Writing(id) => id < |b.claims| && b.claims[id].wanted == rest
    case Returned(_, wanted) => wanted == rest
  }

  predicate Settled(c: Class, t: nat) {
    c.top.Some? ==> t < |c.top.value.threads| && S.Quiet(c.top.value.threads[t])
  }

  predicate PcOk(c: Class, t: nat)
    requires t < |c.threads|
  {
    var pc := c.threads[t];
    if Holds(pc) then
      && pc.rest > 0
      && if pc.pushed then c.top.Some? && Pushing(c.top.value, t, pc.rest) else Settled(c, t)
    else (pc.Waiting? || pc.Again? ==> pc.rest > 0) && Settled(c, t)
  }

  ghost predicate TopOk(c: Class) { c.top.Some? ==> S.Inv(c.top.value) && |c.top.value.threads| == |c.threads| }
  ghost predicate PcsOk(c: Class) { forall t :: 0 <= t < |c.threads| ==> PcOk(c, t) }

  /** The writer is alone. */
  ghost predicate Exclusive(c: Class) {
    forall t, u :: 0 <= t < |c.threads| && 0 <= u < |c.threads| && t != u && c.threads[t].Writing? ==>
      !Holds(c.threads[u])
  }

  ghost predicate AllFull(bufs: seq<S.Buffer>) { forall k :: 0 <= k < |bufs| ==> S.IsFull(bufs[k]) }

  ghost predicate Inv(c: Class) { TopOk(c) && PcsOk(c) && Exclusive(c) && AllFull(c.retired) }

  // ---------- every step keeps it ----------

  /** A step that moves only one thread, which holds nothing or has not yet pushed. */
  lemma MoveKeeps(c: Class, t: nat, pc: Pc)
    requires Inv(c) && t < |c.threads| && Settled(c, t)
    requires (pc.Out? || pc.rest > 0) && (Holds(pc) ==> !pc.pushed)
    requires pc.Reading? ==> NoWriter(c) || c.threads[t].Reading?
    requires pc.Writing? ==> NoHolder(c)
    ensures Inv(Move(c, t, pc))
  {
    var n := Move(c, t, pc);
    hide AllFull, S.Inv;
    forall u | 0 <= u < |n.threads| ensures PcOk(n, u) {
      assert PcOk(c, u);
    }
  }

  /** An operation on the top buffer keeps the other threads where they are. */
  lemma OthersKeep(b: S.Buffer, s: S.Step, u: nat)
    requires S.Next(b, s).Some? && u != s.t && u < |b.threads|
    ensures var n := S.Next(b, s).value;
            && |n.threads| == |b.threads| && n.threads[u] == b.threads[u]
            && |b.claims| <= |n.claims| && forall id :: 0 <= id < |b.claims| ==> n.claims[id] == b.claims[id]
  {
  }

  /** A push goes on as a push of the same announcements. */
  lemma PushGoesOn(b: S.Buffer, s: S.Step, rest: nat)
    requires S.Inv(b) && S.Next(b, s).Some? && (if s.Push? then s.wanted == rest else Pushing(b, s.t, rest))
    ensures Pushing(S.Next(b, s).value, s.t, rest)
  {
    hide S.Tiled, S.Claimed, S.Filled, S.OwnersOk, S.RestIsEmpty;
  }

  lemma OnTopKeeps(c: Class, s: S.Step)
    requires Inv(c) && s.t < |c.threads| && OnTopStep(c, s).Some?
    ensures Inv(OnTopStep(c, s).value)
  {
    var n := OnTopStep(c, s).value;
    S.StepKeeps(c.top.value, s);
    hide S.Next, S.Inv, AllFull, PcOk;
    forall u | 0 <= u < |n.threads| ensures PcOk(n, u) {
      if u == s.t { PusherGoesOn(c, s); } else { OtherIsKept(c, s, u); }
    }
  }

  lemma PusherGoesOn(c: Class, s: S.Step)
    requires TopOk(c) && s.t < |c.threads| && PcOk(c, s.t) && OnTopStep(c, s).Some?
    ensures PcOk(OnTopStep(c, s).value, s.t)
  {
    hide S.Next, S.Inv, Pushing;
    PushGoesOn(c.top.value, s, c.threads[s.t].rest);
  }

  lemma OtherIsKept(c: Class, s: S.Step, u: nat)
    requires TopOk(c) && s.t < |c.threads| && u < |c.threads| && u != s.t && PcOk(c, u) && OnTopStep(c, s).Some?
    ensures PcOk(OnTopStep(c, s).value, u)
  {
    hide S.Next, S.Inv;
    OthersKeep(c.top.value, s, u);
  }

  /** A thread whose push has come back is settled. */
  lemma ReturnedIsSettled(c: Class, t: nat)
    requires TopOk(c) && Consumed(c, t).Some?
    ensures Settled(c, t)
  {
  }

  lemma LeaveReadKeeps(c: Class, t: nat)
    requires Inv(c) && t < |c.threads| && LeaveReadStep(c, t).Some?
    ensures Inv(LeaveReadStep(c, t).value)
  {
    assert PcOk(c, t);
    var n := LeaveReadStep(c, t).value;
    if c.top.Some? { ReturnedIsSettled(c, t); }
    hide Inv, Consumed, Settled;
    MoveKeeps(c, t, n.threads[t]);
  }

  /** A fresh top buffer finds no thread inside. */
  lemma FreshTopKeeps(c: Class, t: nat, pc: Pc, retired: seq<S.Buffer>)
    requires Inv(c) && t < |c.threads| && c.threads[t].Writing? && pc.Again? && pc.rest > 0 && AllFull(retired)
    ensures Inv(Class(Some(S.Fresh(|c.threads|)), c.threads[t := pc], retired))
  {
    var n := Class(Some(S.Fresh(|c.threads|)), c.threads[t := pc], retired);
    S.FreshIsFine(|c.threads|);
    hide S.Inv, AllFull;
    forall u | 0 <= u < |n.threads| ensures PcOk(n, u) {
      assert PcOk(c, u);
    }
  }

  /** Under the write lock no other push is under way, so a short one finds the top buffer full. */
  lemma ShortIsFull(c: Class, t: nat)
    requires Inv(c) && t < |c.threads| && c.threads[t].Writing? && c.threads[t].pushed && Consumed(c, t).Some?
    requires Consumed(c, t).value < c.threads[t].rest
    ensures S.IsFull(c.top.value)
  {
    var b := c.top.value;
    assert PcOk(c, t);
    hide S.Inv, S.IsFull;
    forall u | 0 <= u < |b.threads| ensures S.Quiet(b.threads[u]) {
      assert PcOk(c, u);
    }
    S.FullWhenQuiet(b, t);
  }

  lemma LeaveWriteKeeps(c: Class, t: nat)
    requires Inv(c) && t < |c.threads| && LeaveWriteStep(c, t).Some?
    ensures Inv(LeaveWriteStep(c, t).value)
  {
    assert PcOk(c, t);
    assert AllFull(c.retired);
    var pc := c.threads[t];
    if c.top.None? {
      hide Inv, AllFull;
      FreshTopKeeps(c, t, Again(pc.rest), c.retired);
    } else {
      ReturnedIsSettled(c, t);
      var consumed := Consumed(c, t).value;
      hide Inv, Consumed, Settled;
      if consumed > 0 && consumed == pc.rest {
        MoveKeeps(c, t, Out);
      } else {
        ShortIsFull(c, t);
        hide S.IsFull;
        FreshTopKeeps(c, t, Again(pc.rest - consumed), c.retired + [c.top.value]);
      }
    }
  }

  lemma StepKeeps(c: Class, step: Step)
    requires Inv(c) && Next(c, step).Some?
    ensures Inv(Next(c, step).value)
  {
    match step
    case Begin(t, wanted) => assert PcOk(c, t); MoveKeeps(c, t, Reading(wanted, true, false));
    case OnTop(s) => OnTopKeeps(c, s);
    case LeaveRead(t) => LeaveReadKeeps(c, t);
    case TakeWrite(t) => assert PcOk(c, t); MoveKeeps(c, t, Writing(c.threads[t].rest, false));
    case LeaveWrite(t) => LeaveWriteKeeps(c, t);
    case ReadAgain(t) => assert PcOk(c, t); MoveKeeps(c, t, Reading(c.threads[t].rest, false, false));
    case Steal =>
      var n := c.(top := None);
      forall u | 0 <= u < |n.threads| ensures PcOk(n, u) {
        assert PcOk(c, u);
      }
  }

  // ---------- every run ----------

  lemma InitialIsFine(c: Class)
    requires Initial(c)
    ensures Inv(c)
  {
    S.FreshIsFine(|c.threads|);
    hide S.Inv;
  }

  lemma {:induction false} RunKeepsInvariant(c: Class, steps: seq<Step>)
    requires Initial(c)
    ensures Inv(Run(c, steps))
  {
    if |steps| == 0 {
      InitialIsFine(c);
    } else {
      RunKeepsInvariant(c, steps[..|steps| - 1]);
      var r, s := Run(c, steps[..|steps| - 1]), steps[|steps| - 1];
      hide Inv, Next, Initial;
      if Next(r, s).Some? { StepKeeps(r, s); }
    }
  }

  /**
   * In every interleaving of pushes and steals, every buffer that is taken off the top to be locked is
   * completely full, and its index is exactly its size.
   */
  lemma LockedBuffersAreFull(c: Class, steps: seq<Step>, k: nat)
    requires Initial(c) && k < |Run(c, steps).retired|
    ensures S.IsFull(Run(c, steps).retired[k])
  {
    RunKeepsInvariant(c, steps);
    hide Run, Initial, S.IsFull;
  }
}
