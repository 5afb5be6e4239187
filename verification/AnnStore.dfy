/**
 * The announcement store (ann_store.rs, ann_class.rs): classes of buffers, pushing threads and the
 * tree builder, each of whose critical sections is one step that any of them may take next.
 */
module AnnStore {
  import opened Words

  type Buf = nat

  /** A class of announcements; `live` says whether the store's map still has it. */
  datatype Class = Class(live: bool, bufs: seq<Buf>, topbuf: Option<Buf>, mining: bool)

  /** A pushing thread; inside a class and while locking an old top buffer it holds the store's read lock. */
  datatype Thread =
    | Idle(spare: Option<Buf>)
    | Holding(buf: Buf)
    | InClass(c: nat, maybe: Option<Buf>)
    | Locking(c: nat, top: Buf)

  /** The tree builder: classes it has still to visit, what it took so far, and a class it has begun but not taken. */
  datatype Builder =
    | Resting
    | Visiting(left: seq<nat>, best: set<nat>, taken: seq<(nat, seq<Buf>)>, begun: bool)
    | Returning(taken: seq<(nat, seq<Buf>)>)

  /** `captured` remembers, for each class, the buffers the builder took since the class began mining. */
  datatype Store = Store(classes: seq<Class>, threads: seq<Thread>, builder: Builder, captured: seq<set<Buf>>)

  datatype Step =
    | UseSpare(t: nat)
    | Steal(t: nat, c: nat)
    | Enter(t: nat, c: nat)
    | MakeClass(t: nat, c: nat)
    | AllConsumed(t: nat)
    | GiveUp(t: nat)
    | SwapTop(t: nat)
    | Shelve(t: nat)
    | StartBuild(order: seq<nat>, best: set<nat>)
    | BeginMining
    | TakeBufs
    | StopMining
    | FinishVisits
    | ReturnBufs

  predicate IsDead(c: Class) { |c.bufs| == 0 && c.topbuf.None? }

  /** A thread that holds the store's read lock. */
  predicate Reading(t: Thread) { t.InClass? || t.Locking? }

  ghost predicate CanWrite(s: Store) {
    s.builder.Resting? && forall t :: 0 <= t < |s.threads| ==> !Reading(s.threads[t])
  }

  /** retain: the classes that are dead are dropped from the map. */
  function Retained(classes: seq<Class>): (r: seq<Class>)
    ensures |r| == |classes|
    ensures forall c :: 0 <= c < |r| ==> r[c] == if IsDead(classes[c]) then classes[c].(live := false) else classes[c]
  {
    seq(|classes|, c requires 0 <= c < |classes| =>
      if IsDead(classes[c]) then classes[c].(live := false) else classes[c])
  }

  /** What steal_buf leaves of a class and hands out. */
  function Stolen(c: Class): Option<(Class, Buf)> {
    if c.mining then None
    else if |c.bufs| == 0 then (if c.topbuf.None? then None else Some((c.(topbuf := None), c.topbuf.value)))
    else Some((c.(bufs := c.bufs[..|c.bufs| - 1]), c.bufs[|c.bufs| - 1]))
  }

  predicate IsThread(s: Store, t: nat) { t < |s.threads| }

  /** A thread inside a class that the store knows. */
  predicate Inside(s: Store, t: nat) { t < |s.threads| && s.threads[t].InClass? && s.threads[t].c < |s.classes| }

  function WithThread(s: Store, t: nat, x: Thread): Store
    requires IsThread(s, t)
  {
    s.(threads := s.threads[t := x])
  }

  function WithClass(s: Store, c: nat, x: Class): Store
    requires c < |s.classes|
  {
    s.(classes := s.classes[c := x])
  }

  /** push_anns takes the buffer its thread has to spare. */
  function UseSpareStep(s: Store, t: nat): Option<Store> {
    if IsThread(s, t) && s.threads[t].Idle? && s.threads[t].spare.Some? then
      Some(WithThread(s, t, Holding(s.threads[t].spare.value)))
    else None
  }

  /** Without a spare it steals one from a class that is not being mined. */
  function StealStep(s: Store, t: nat, c: nat): Option<Store> {
    if IsThread(s, t) && s.threads[t] == Idle(None) && c < |s.classes| && s.classes[c].live
       && Stolen(s.classes[c]).Some? then
      var (rest, b) := Stolen(s.classes[c]).value;
      Some(WithThread(WithClass(s, c, rest), t, Holding(b)))
    else None
  }

  /** push_anns1 finds the class, and keeps the read lock while it pushes. */
  function EnterStep(s: Store, t: nat, c: nat): Option<Store> {
    if IsThread(s, t) && s.threads[t].Holding? && c < |s.classes| && s.classes[c].live then
      Some(WithThread(s, t, InClass(c, Some(s.threads[t].buf))))
    else None
  }

  /** It does not find it: under the write lock dead classes go, and the class is made. */
  ghost function MakeClassStep(s: Store, t: nat, c: nat): Option<Store> {
    if IsThread(s, t) && s.threads[t].Holding? && c < |s.classes| && CanWrite(s) then
      var r := Retained(s.classes);
      Some(if r[c].live then s.(classes := r)
           else s.(classes := r[c := Class(true, [], None, false)], captured := Cleared(s.captured, c)))
    else None
  }

  /** Everything went into the top buffer: the thread keeps its new one as a spare. */
  function AllConsumedStep(s: Store, t: nat): Option<Store> {
    if Inside(s, t) && s.classes[s.threads[t].c].topbuf.Some? then
      Some(WithThread(s, t, Idle(s.threads[t].maybe)))
    else None
  }

  /** The top buffer is full again and the thread has no other. */
  function GiveUpStep(s: Store, t: nat): Option<Store> {
    if Inside(s, t) && s.threads[t].maybe.None? then Some(WithThread(s, t, Idle(None))) else None
  }

  /** Under the class's write lock the new buffer takes the place of the full one. */
  function SwapTopStep(s: Store, t: nat): Option<Store> {
    if Inside(s, t) && s.threads[t].maybe.Some? then
      var c, top := s.threads[t].c, s.classes[s.threads[t].c].topbuf;
      Some(WithThread(WithClass(s, c, s.classes[c].(topbuf := s.threads[t].maybe)), t,
                      if top.Some? then Locking(c, top.value) else InClass(c, None)))
    else None
  }

  /** The full buffer, sorted and locked, joins the class's list. */
  function ShelveStep(s: Store, t: nat): Option<Store> {
    if IsThread(s, t) && s.threads[t].Locking? && s.threads[t].c < |s.classes| then
      var c := s.threads[t].c;
      Some(WithThread(WithClass(s, c, s.classes[c].(bufs := s.classes[c].bufs + [s.threads[t].top])), t,
                      InClass(c, None)))
    else None
  }

  function StartBuildStep(s: Store, order: seq<nat>, best: set<nat>): Option<Store> {
    if s.builder.Resting? && (forall i :: 0 <= i < |order| ==> LiveClass(s, order[i])) then
      Some(s.(builder := Visiting(order, best, [], false)))
    else None
  }

  /** The builder looks at its next class. */
  predicate AtClass(s: Store) { s.builder.Visiting? && |s.builder.left| > 0 && s.builder.left[0] < |s.classes| }

  function BeginMiningStep(s: Store): Option<Store> {
    if AtClass(s) && !s.builder.begun && s.builder.left[0] in s.builder.best then
      var c := s.builder.left[0];
      Some(WithClass(s, c, s.classes[c].(mining := true)).(builder := s.builder.(begun := true)))
    else None
  }

  function TakeBufsStep(s: Store): Option<Store> {
    if AtClass(s) && s.builder.begun then
      var c := s.builder.left[0];
      var b := Visiting(s.builder.left[1..], s.builder.best, s.builder.taken + [(c, s.classes[c].bufs)], false);
      Some(WithClass(s, c, s.classes[c].(bufs := []))
             .(builder := b, captured := Captured(s.captured, c, s.classes[c].bufs)))
    else None
  }

  function StopMiningStep(s: Store): Option<Store> {
    if AtClass(s) && !s.builder.begun && s.builder.left[0] !in s.builder.best then
      var c := s.builder.left[0];
      Some(WithClass(s, c, s.classes[c].(mining := false))
             .(builder := s.builder.(left := s.builder.left[1..]), captured := Cleared(s.captured, c)))
    else None
  }

  function FinishVisitsStep(s: Store): Option<Store> {
    if s.builder.Visiting? && |s.builder.left| == 0 then Some(s.(builder := Returning(s.builder.taken))) else None
  }

  function ReturnBufsStep(s: Store): Option<Store> {
    if !s.builder.Returning? then None
    else if |s.builder.taken| == 0 then Some(s.(builder := Resting))
    else if s.builder.taken[0].0 >= |s.classes| then None
    else
      var (c, bufs) := s.builder.taken[0];
      Some(WithClass(s, c, s.classes[c].(bufs := s.classes[c].bufs + bufs))
             .(builder := Returning(s.builder.taken[1..])))
  }

  ghost function Next(s: Store, step: Step): Option<Store> {
    match step
    case UseSpare(t) => UseSpareStep(s, t)
    case Steal(t, c) => StealStep(s, t, c)
    case Enter(t, c) => EnterStep(s, t, c)
    case MakeClass(t, c) => MakeClassStep(s, t, c)
    case AllConsumed(t) => AllConsumedStep(s, t)
    case GiveUp(t) => GiveUpStep(s, t)
    case SwapTop(t) => SwapTopStep(s, t)
    case Shelve(t) => ShelveStep(s, t)
    case StartBuild(order, best) => StartBuildStep(s, order, best)
    case BeginMining => BeginMiningStep(s)
    case TakeBufs => TakeBufsStep(s)
    case StopMining => StopMiningStep(s)
    case FinishVisits => FinishVisitsStep(s)
    case ReturnBufs => ReturnBufsStep(s)
  }

  function Cleared(captured: seq<set<Buf>>, c: nat): seq<set<Buf>> {
    if c < |captured| then captured[c := {}] else captured
  }

  function Captured(captured: seq<set<Buf>>, c: nat, bufs: seq<Buf>): seq<set<Buf>> {
    if c < |captured| then captured[c := captured[c] + (set b | b in bufs)] else captured
  }

  /** A run: steps that are not enabled leave the store as it is. */
  ghost function Run(s: Store, steps: seq<Step>): Store {
    if |steps| == 0 then s
    else
      var r := Run(s, steps[..|steps| - 1]);
      match Next(r, steps[|steps| - 1]) case Some(n) => n case None => r
  }

  /** What is handed out is the newest full buffer of a class, or its top buffer if there is no other. */
  lemma StealTakesTheNewest(s: Store, t: nat, c: nat)
    requires StealStep(s, t, c).Some?
    ensures c < |s.classes| && t < |s.threads| && s.classes[c].live && !s.classes[c].mining
    ensures var n := StealStep(s, t, c).value;
            && |n.threads| == |s.threads| && |n.classes| == |s.classes| && n.threads[t].Holding?
            && var was, rest, b := s.classes[c], n.classes[c], n.threads[t].buf;
               if was.bufs == [] then was.topbuf == Some(b) && rest == was.(topbuf := None)
               else was == rest.(bufs := rest.bufs + [b])
  {
  }

  // ---------- where the buffers are ----------

  function Maybe(b: Option<Buf>): multiset<Buf> { if b.Some? then multiset{b.value} else multiset{} }

  function InOneClass(c: Class): multiset<Buf> { multiset(c.bufs) + Maybe(c.topbuf) }

  function InClasses(classes: seq<Class>): multiset<Buf> {
    if |classes| == 0 then multiset{} else InClasses(classes[..|classes| - 1]) + InOneClass(classes[|classes| - 1])
  }

  function InOneThread(t: Thread): multiset<Buf> {
    match t
    case Idle(spare) => Maybe(spare)
    case Holding(b) => multiset{b}
    case InClass(_, maybe) => Maybe(maybe)
    case Locking(_, top) => multiset{top}
  }

  function InThreads(threads: seq<Thread>): multiset<Buf> {
    if |threads| == 0 then multiset{} else InThreads(threads[..|threads| - 1]) + InOneThread(threads[|threads| - 1])
  }

  function InTaken(taken: seq<(nat, seq<Buf>)>): multiset<Buf> {
    if |taken| == 0 then multiset{} else InTaken(taken[..|taken| - 1]) + multiset(taken[|taken| - 1].1)
  }

  function InBuilder(b: Builder): multiset<Buf> {
    if b.Resting? then multiset{} else InTaken(b.taken)
  }

  /** Every place a buffer can be: top buffers and lists of the classes, the builder's hands, the threads' hands. */
  function Everywhere(s: Store): multiset<Buf> { InClasses(s.classes) + InThreads(s.threads) + InBuilder(s.builder) }

  lemma AddBoth(x: multiset<Buf>, a: multiset<Buf>, y: multiset<Buf>, b: multiset<Buf>, z: multiset<Buf>)
    requires x + a == y + b
    ensures (x + z) + a == (y + z) + b
  {
    assert (x + z) + a == (x + a) + z;
    assert (y + z) + b == (y + b) + z;
  }

  lemma SwapLast(x: multiset<Buf>, a: multiset<Buf>, b: multiset<Buf>)
    ensures (x + a) + b == (x + b) + a
  {
  }

  lemma {:induction false} ClassReplaced(classes: seq<Class>, c: nat, x: Class)
    requires c < |classes|
    ensures InClasses(classes[c := x]) + InOneClass(classes[c]) == InClasses(classes) + InOneClass(x)
  {
    hide InOneClass;
    var n := |classes| - 1;
    if c < n {
      ClassReplaced(classes[..n], c, x);
      assert classes[c := x][..n] == classes[..n][c := x];
      AddBoth(InClasses(classes[..n][c := x]), InOneClass(classes[c]), InClasses(classes[..n]), InOneClass(x),
              InOneClass(classes[n]));
    } else {
      assert classes[c := x][..n] == classes[..n];
      SwapLast(InClasses(classes[..n]), InOneClass(x), InOneClass(classes[n]));
    }
  }

  lemma {:induction false} ThreadReplaced(threads: seq<Thread>, t: nat, x: Thread)
    requires t < |threads|
    ensures InThreads(threads[t := x]) + InOneThread(threads[t]) == InThreads(threads) + InOneThread(x)
  {
    hide InOneThread;
    var n := |threads| - 1;
    if t < n {
      ThreadReplaced(threads[..n], t, x);
      assert threads[t := x][..n] == threads[..n][t := x];
      AddBoth(InThreads(threads[..n][t := x]), InOneThread(threads[t]), InThreads(threads[..n]), InOneThread(x),
              InOneThread(threads[n]));
    } else {
      assert threads[t := x][..n] == threads[..n];
      SwapLast(InThreads(threads[..n]), InOneThread(x), InOneThread(threads[n]));
    }
  }

  lemma {:induction false} TakenFront(taken: seq<(nat, seq<Buf>)>)
    requires |taken| > 0
    ensures InTaken(taken) == multiset(taken[0].1) + InTaken(taken[1..])
  {
    var n := |taken| - 1;
    if n > 0 {
      TakenFront(taken[..n]);
      assert taken[..n][1..] == taken[1..][..n - 1];
      assert taken[..n][0] == taken[0] && taken[1..][n - 1] == taken[n];
      assert InTaken(taken) == (multiset(taken[0].1) + InTaken(taken[1..][..n - 1])) + multiset(taken[n].1);
    }
  }

  lemma RetainedOne(c: Class)
    ensures InOneClass(if IsDead(c) then c.(live := false) else c) == InOneClass(c)
  {
  }

  lemma {:induction false} RetainedSame(classes: seq<Class>)
    ensures InClasses(Retained(classes)) == InClasses(classes)
  {
    if |classes| > 0 {
      hide *;
      var n, kept := |classes| - 1, Retained(classes);
      RetainedSame(classes[..n]);
      RetainedOne(classes[n]);
      RetainedFront(classes);
      LastClass(classes);
      LastClass(kept);
    }
  }

  lemma RetainedFront(classes: seq<Class>)
    requires |classes| > 0
    ensures Retained(classes)[..|classes| - 1] == Retained(classes[..|classes| - 1])
  {
    hide IsDead;
  }

  lemma LastClass(classes: seq<Class>)
    requires |classes| > 0
    ensures InClasses(classes) == InClasses(classes[..|classes| - 1]) + InOneClass(classes[|classes| - 1])
  {
    hide InOneClass;
  }

  // ---------- conservation ----------

  lemma MoveAround(cs: multiset<Buf>, cs': multiset<Buf>, ts: multiset<Buf>, ts': multiset<Buf>, bs: multiset<Buf>,
                   bs': multiset<Buf>,
                   c: multiset<Buf>, c': multiset<Buf>, t: multiset<Buf>, t': multiset<Buf>,
                   b: multiset<Buf>, b': multiset<Buf>)
    requires cs' + c == cs + c' && ts' + t == ts + t' && bs' + b == bs + b' && c + t + b == c' + t' + b'
    ensures cs' + ts' + bs' == cs + ts + bs
  {
    forall x ensures (cs' + ts' + bs')[x] == (cs + ts + bs)[x] {
      assert (cs' + c)[x] == (cs + c')[x];
      assert (ts' + t)[x] == (ts + t')[x];
      assert (bs' + b)[x] == (bs + b')[x];
      assert (c + t + b)[x] == (c' + t' + b')[x];
    }
  }

  lemma ThreadMoves(s: Store, n: Store, t: nat, x: Thread)
    requires t < |s.threads| && n.classes == s.classes && n.builder == s.builder && n.threads == s.threads[t := x]
    requires InOneThread(x) == InOneThread(s.threads[t])
    ensures Everywhere(n) == Everywhere(s)
  {
    ThreadReplaced(s.threads, t, x);
    hide InClasses, InThreads, InBuilder, InOneThread;
    MoveAround(InClasses(s.classes), InClasses(n.classes), InThreads(s.threads), InThreads(n.threads),
               InBuilder(s.builder), InBuilder(n.builder),
               multiset{}, multiset{}, InOneThread(s.threads[t]), InOneThread(x), multiset{}, multiset{});
  }

  lemma ClassAndThreadMove(s: Store, n: Store, c: nat, y: Class, t: nat, x: Thread)
    requires c < |s.classes| && t < |s.threads| && n.builder == s.builder
    requires n.classes == s.classes[c := y] && n.threads == s.threads[t := x]
    requires InOneClass(y) + InOneThread(x) == InOneClass(s.classes[c]) + InOneThread(s.threads[t])
    ensures Everywhere(n) == Everywhere(s)
  {
    ClassReplaced(s.classes, c, y);
    ThreadReplaced(s.threads, t, x);
    hide InClasses, InThreads, InBuilder, InOneThread, InOneClass;
    MoveAround(InClasses(s.classes), InClasses(n.classes), InThreads(s.threads), InThreads(n.threads),
               InBuilder(s.builder), InBuilder(n.builder),
               InOneClass(s.classes[c]), InOneClass(y), InOneThread(s.threads[t]), InOneThread(x),
               multiset{}, multiset{});
  }

  lemma ClassAndBuilderMove(s: Store, n: Store, c: nat, y: Class, from: multiset<Buf>, to: multiset<Buf>)
    requires c < |s.classes| && n.threads == s.threads && n.classes == s.classes[c := y]
    requires InBuilder(n.builder) + from == InBuilder(s.builder) + to
    requires InOneClass(y) + to == InOneClass(s.classes[c]) + from
    ensures Everywhere(n) == Everywhere(s)
  {
    ClassReplaced(s.classes, c, y);
    hide InClasses, InThreads, InBuilder, InOneClass;
    forall x ensures Everywhere(n)[x] == Everywhere(s)[x] {
      assert (InBuilder(n.builder) + from)[x] == (InBuilder(s.builder) + to)[x];
      assert (InOneClass(y) + to)[x] == (InOneClass(s.classes[c]) + from)[x];
      assert (InClasses(n.classes) + InOneClass(s.classes[c]))[x] == (InClasses(s.classes) + InOneClass(y))[x];
    }
  }

  lemma ClassMoves(s: Store, n: Store, c: nat, y: Class)
    requires c < |s.classes| && n.threads == s.threads && n.classes == s.classes[c := y]
    requires InBuilder(n.builder) == InBuilder(s.builder) && InOneClass(y) == InOneClass(s.classes[c])
    ensures Everywhere(n) == Everywhere(s)
  {
    hide InOneClass, InBuilder, Everywhere;
    ClassAndBuilderMove(s, n, c, y, multiset{}, multiset{});
  }

  // ---------- the invariant ----------

  predicate LiveClass(s: Store, c: nat) { c < |s.classes| && s.classes[c].live }

  predicate Has(s: Store, c: nat, b: Buf)
    requires c < |s.classes|
  {
    b in s.classes[c].bufs || (!s.builder.Resting? && InTakenOf(s.builder.taken, c, b))
  }

  predicate InTakenOf(taken: seq<(nat, seq<Buf>)>, c: nat, b: Buf) {
    exists i :: 0 <= i < |taken| && taken[i].0 == c && b in taken[i].1
  }

  /** A dropped class is empty; what was captured from a class is still its own, and the class is mining. */
  ghost predicate ClassOk(s: Store, c: nat)
    requires c < |s.classes| == |s.captured|
  {
    && (!s.classes[c].live ==> IsDead(s.classes[c]) && s.captured[c] == {})
    && (s.captured[c] != {} ==> s.classes[c].mining)
    && (forall b :: b in s.captured[c] ==> Has(s, c, b))
  }

  /** Threads in a class and the builder only hold classes that the store still has. */
  ghost predicate Inv(s: Store) {
    ClassesOk(s) && ThreadsOk(s) && BuilderOk(s)
  }

  ghost predicate ClassesOk(s: Store) {
    |s.captured| == |s.classes| && forall c :: 0 <= c < |s.classes| ==> ClassOk(s, c)
  }

  ghost predicate ThreadsOk(s: Store) {
    forall t :: 0 <= t < |s.threads| && Reading(s.threads[t]) ==> LiveClass(s, s.threads[t].c)
  }

  /** Between two states class `d` keeps, or forgets, what was captured from it. */
  ghost predicate Carried(s: Store, n: Store, d: nat)
    requires d < |s.classes| == |s.captured| && d < |n.classes| == |n.captured|
  {
    && (!n.classes[d].live ==> IsDead(n.classes[d]) && n.captured[d] == {})
    && (n.captured[d] == {} ||
        (n.captured[d] == s.captured[d] && n.classes[d].mining == s.classes[d].mining && Keeps(s, n, d)))
  }

  ghost predicate Keeps(s: Store, n: Store, d: nat)
    requires d < |s.classes| && d < |n.classes|
  {
    forall b :: Has(s, d, b) ==> Has(n, d, b)
  }

  lemma ClassesKept(s: Store, n: Store)
    requires ClassesOk(s) && |n.captured| == |n.classes| == |s.classes|
    requires forall d :: 0 <= d < |n.classes| ==> Carried(s, n, d)
    ensures ClassesOk(n)
  {
    hide Has, IsDead;
    forall d | 0 <= d < |n.classes| ensures ClassOk(n, d) {
      assert Carried(s, n, d) && ClassOk(s, d);
    }
  }

  ghost predicate BuilderOk(s: Store) {
    && (s.builder.Visiting? ==> forall i :: 0 <= i < |s.builder.left| ==> LiveClass(s, s.builder.left[i]))
    && (s.builder.Visiting? && s.builder.begun ==> |s.builder.left| > 0 && s.classes[s.builder.left[0]].mining)
    && (!s.builder.Resting? ==> forall i :: 0 <= i < |s.builder.taken| ==> LiveClass(s, s.builder.taken[i].0))
  }

  // ---------- steps of the threads ----------

  /** A step that changes one thread only, to a class the store has. */
  lemma ThreadStepKeeps(s: Store, n: Store, t: nat, x: Thread)
    requires Inv(s) && IsThread(s, t) && n == WithThread(s, t, x)
    requires InOneThread(x) == InOneThread(s.threads[t]) && (Reading(x) ==> LiveClass(s, x.c))
    ensures Inv(n) && Everywhere(n) == Everywhere(s)
  {
    hide Everywhere, InOneThread, Has, IsDead;
    ThreadMoves(s, n, t, x);
    forall d | 0 <= d < |n.classes| ensures Carried(s, n, d) {
      assert ClassOk(s, d);
      SameHas(s, n, d);
    }
    ClassesKept(s, n);
  }

  lemma SameHas(s: Store, n: Store, d: nat)
    requires d < |s.classes| && d < |n.classes| && n.classes[d].bufs == s.classes[d].bufs && n.builder == s.builder
    ensures Keeps(s, n, d)
  {
  }

  /** A step that moves buffers between a thread and a class, never taking from one that is mining. */
  lemma ClassStepKeeps(s: Store, n: Store, c: nat, y: Class, t: nat, x: Thread)
    requires Inv(s) && IsThread(s, t) && LiveClass(s, c) && n == WithThread(WithClass(s, c, y), t, x)
    requires InOneClass(y) + InOneThread(x) == InOneClass(s.classes[c]) + InOneThread(s.threads[t])
    requires y.live && y.mining == s.classes[c].mining
    requires (y.mining ==> forall b :: b in s.classes[c].bufs ==> b in y.bufs)
    requires Reading(x) ==> x.c == c
    ensures Inv(n) && Everywhere(n) == Everywhere(s)
  {
    hide Everywhere, InOneThread, InOneClass, IsDead, Has;
    ClassAndThreadMove(s, n, c, y, t, x);
    forall d | 0 <= d < |n.classes| ensures Carried(s, n, d) {
      assert ClassOk(s, d);
      if d != c { SameHas(s, n, d); } else if y.mining { MoreHas(s, n, d); }
    }
    ClassesKept(s, n);
  }

  lemma MoreHas(s: Store, n: Store, d: nat)
    requires d < |s.classes| && d < |n.classes| && n.builder == s.builder
    requires forall b :: b in s.classes[d].bufs ==> b in n.classes[d].bufs
    ensures Keeps(s, n, d)
  {
  }

  lemma StealKeeps(s: Store, t: nat, c: nat)
    requires Inv(s) && StealStep(s, t, c).Some?
    ensures var n := StealStep(s, t, c).value; Inv(n) && Everywhere(n) == Everywhere(s)
  {
    var n := StealStep(s, t, c).value;
    var y := n.classes[c];
    if |s.classes[c].bufs| > 0 {
      assert s.classes[c].bufs == y.bufs + [s.classes[c].bufs[|y.bufs|]];
    }
    assert InOneClass(y) + InOneThread(n.threads[t]) == InOneClass(s.classes[c]) + InOneThread(s.threads[t]);
    ClassStepKeeps(s, n, c, y, t, n.threads[t]);
  }

  lemma SwapTopKeeps(s: Store, t: nat)
    requires Inv(s) && SwapTopStep(s, t).Some?
    ensures var n := SwapTopStep(s, t).value; Inv(n) && Everywhere(n) == Everywhere(s)
  {
    var n, c := SwapTopStep(s, t).value, s.threads[t].c;
    assert Reading(s.threads[t]);
    assert InOneClass(n.classes[c]) + InOneThread(n.threads[t]) == InOneClass(s.classes[c]) + InOneThread(s.threads[t]);
    ClassStepKeeps(s, n, c, n.classes[c], t, n.threads[t]);
  }

  lemma ShelveKeeps(s: Store, t: nat)
    requires Inv(s) && ShelveStep(s, t).Some?
    ensures var n := ShelveStep(s, t).value; Inv(n) && Everywhere(n) == Everywhere(s)
  {
    var n, c := ShelveStep(s, t).value, s.threads[t].c;
    assert Reading(s.threads[t]);
    assert InOneClass(n.classes[c]) + InOneThread(n.threads[t]) == InOneClass(s.classes[c]) + InOneThread(s.threads[t]);
    ClassStepKeeps(s, n, c, n.classes[c], t, n.threads[t]);
  }

  lemma MakeClassKeeps(s: Store, t: nat, c: nat)
    requires Inv(s) && MakeClassStep(s, t, c).Some?
    ensures var n := MakeClassStep(s, t, c).value; Inv(n) && Everywhere(n) == Everywhere(s)
  {
    var n := MakeClassStep(s, t, c).value;
    var m := s.(classes := Retained(s.classes));
    hide Inv, Everywhere, IsDead;
    RetainKeeps(s);
    if !m.classes[c].live {
      FreshClassKeeps(m, n, c);
    }
  }

  /** Dropping the dead classes while nobody is inside one loses nothing. */
  lemma RetainKeeps(s: Store)
    requires Inv(s) && CanWrite(s)
    ensures var m := s.(classes := Retained(s.classes)); Inv(m) && Everywhere(m) == Everywhere(s)
  {
    var m := s.(classes := Retained(s.classes));
    RetainedSame(s.classes);
    hide InClasses, InThreads;
    forall d | 0 <= d < |m.classes| ensures Carried(s, m, d) {
      DeadIsForgotten(s, d);
      SameHas(s, m, d);
    }
    ClassesKept(s, m);
  }

  /** Nothing is captured from a dead class when the builder rests. */
  lemma DeadIsForgotten(s: Store, d: nat)
    requires Inv(s) && s.builder.Resting? && d < |s.classes|
    ensures IsDead(s.classes[d]) ==> s.captured[d] == {}
    ensures !s.classes[d].live ==> IsDead(s.classes[d]) && s.captured[d] == {}
  {
    assert ClassOk(s, d);
  }

  lemma FreshClassKeeps(m: Store, n: Store, c: nat)
    requires Inv(m) && CanWrite(m) && c < |m.classes| && !m.classes[c].live
    requires n == m.(classes := m.classes[c := Class(true, [], None, false)], captured := Cleared(m.captured, c))
    ensures Inv(n) && Everywhere(n) == Everywhere(m)
  {
    assert ClassOk(m, c);
    FreshMoves(m, n, c);
    hide Everywhere, Has, BuilderOk, Reading, IsDead;
    forall d | 0 <= d < |n.classes| ensures Carried(m, n, d) {
      assert ClassOk(m, d);
      if d != c { SameHas(m, n, d); }
    }
    ClassesKept(m, n);
    ThreadsKept(m, n);
    BuilderKept(m, n);
  }

  lemma FreshMoves(m: Store, n: Store, c: nat)
    requires c < |m.classes| && IsDead(m.classes[c])
    requires n == m.(classes := m.classes[c := Class(true, [], None, false)], captured := n.captured)
    ensures Everywhere(n) == Everywhere(m)
  {
    assert InOneClass(m.classes[c]) == multiset{} == InOneClass(n.classes[c]);
    ClassMoves(m, n, c, n.classes[c]);
  }

  /** No class is dropped, so threads and builder still stand where they may. */
  lemma ThreadsKept(s: Store, n: Store)
    requires ThreadsOk(s) && n.threads == s.threads && |n.classes| == |s.classes|
    requires forall c :: 0 <= c < |s.classes| && s.classes[c].live ==> n.classes[c].live
    ensures ThreadsOk(n)
  {
    forall t | 0 <= t < |n.threads| && Reading(n.threads[t]) ensures LiveClass(n, n.threads[t].c) {
      assert LiveClass(s, s.threads[t].c);
    }
  }

  lemma BuilderKept(s: Store, n: Store)
    requires BuilderOk(s) && s.builder.Resting? && n.builder == s.builder
    ensures BuilderOk(n)
  {
  }

  // ---------- steps of the builder ----------

  /** Setting a class's mining flag; clearing it forgets what was captured. */
  lemma FlagKeeps(s: Store, n: Store, c: nat, mining: bool)
    requires Inv(s) && LiveClass(s, c) && n.threads == s.threads
    requires n.classes == s.classes[c := s.classes[c].(mining := mining)]
    requires n.captured == if mining then s.captured else Cleared(s.captured, c)
    requires BuilderOk(n) && !n.builder.Resting? && !s.builder.Resting? && n.builder.taken == s.builder.taken
    ensures Inv(n) && Everywhere(n) == Everywhere(s)
  {
    FlagMoves(s, n, c, mining);
    hide Everywhere, InTaken, IsDead, BuilderOk, Has, Reading;
    assert ClassOk(s, c);
    forall d | 0 <= d < |n.classes| ensures Carried(s, n, d) {
      assert ClassOk(s, d);
      SameTaken(s, n, d);
      FlagCarries(s, n, c, mining, d);
    }
    ClassesKept(s, n);
    ThreadsKept(s, n);
  }

  lemma FlagMoves(s: Store, n: Store, c: nat, mining: bool)
    requires c < |s.classes| && n.threads == s.threads && n.classes == s.classes[c := s.classes[c].(mining := mining)]
    requires !n.builder.Resting? && !s.builder.Resting? && n.builder.taken == s.builder.taken
    ensures Everywhere(n) == Everywhere(s)
  {
    assert InOneClass(n.classes[c]) == InOneClass(s.classes[c]);
    ClassMoves(s, n, c, n.classes[c]);
  }

  lemma FlagCarries(s: Store, n: Store, c: nat, mining: bool, d: nat)
    requires d < |s.classes| == |s.captured| && LiveClass(s, c) && ClassOk(s, d)
    requires n.classes == s.classes[c := s.classes[c].(mining := mining)] && Keeps(s, n, d)
    requires n.captured == if mining then s.captured else Cleared(s.captured, c)
    ensures Carried(s, n, d)
  {
    hide Has, IsDead;
  }

  lemma SameTaken(s: Store, n: Store, d: nat)
    requires d < |s.classes| && d < |n.classes| && n.classes[d].bufs == s.classes[d].bufs
    requires !n.builder.Resting? && !s.builder.Resting? && n.builder.taken == s.builder.taken
    ensures Keeps(s, n, d)
  {
  }

  lemma BeginKeeps(s: Store)
    requires Inv(s) && BeginMiningStep(s).Some?
    ensures var n := BeginMiningStep(s).value; Inv(n) && Everywhere(n) == Everywhere(s)
  {
    hide ClassesOk, Everywhere;
    FlagKeeps(s, BeginMiningStep(s).value, s.builder.left[0], true);
  }

  lemma StopKeeps(s: Store)
    requires Inv(s) && StopMiningStep(s).Some?
    ensures var n := StopMiningStep(s).value; Inv(n) && Everywhere(n) == Everywhere(s)
  {
    hide ClassesOk, Everywhere;
    FlagKeeps(s, StopMiningStep(s).value, s.builder.left[0], false);
  }

  /** A step that changes only where the builder stands. */
  lemma BuilderKeeps(s: Store, n: Store)
    requires Inv(s) && n == s.(builder := n.builder) && BuilderOk(n)
    requires (if s.builder.Resting? then [] else s.builder.taken)
             == (if n.builder.Resting? then [] else n.builder.taken)
    ensures Inv(n) && Everywhere(n) == Everywhere(s)
  {
    forall d | 0 <= d < |n.classes| ensures Carried(s, n, d) {
      assert ClassOk(s, d);
      assert Keeps(s, n, d);
    }
    ClassesKept(s, n);
  }

  lemma TakeKeeps(s: Store)
    requires Inv(s) && TakeBufsStep(s).Some?
    ensures var n := TakeBufsStep(s).value; Inv(n) && Everywhere(n) == Everywhere(s)
  {
    var n := TakeBufsStep(s).value;
    TakeMoves(s);
    TakeBuilder(s);
    hide Everywhere, ClassOk, BuilderOk, Reading;
    forall d | 0 <= d < |n.classes| ensures ClassOk(n, d) {
      TakeClass(s, d);
    }
    ThreadsKept(s, n);
  }

  lemma TakeBuilder(s: Store)
    requires BuilderOk(s) && TakeBufsStep(s).Some?
    ensures BuilderOk(TakeBufsStep(s).value)
  {
    var n, last := TakeBufsStep(s).value, |s.builder.taken|;
    forall i | 0 <= i < |n.builder.taken| ensures LiveClass(n, n.builder.taken[i].0) {
      if i < last {
        assert n.builder.taken[i] == s.builder.taken[i];
      } else {
        assert LiveClass(s, s.builder.left[0]);
      }
    }
    forall i | 0 <= i < |n.builder.left| ensures LiveClass(n, n.builder.left[i]) {
      assert LiveClass(s, s.builder.left[i + 1]);
    }
  }

  lemma TakeClass(s: Store, d: nat)
    requires ClassesOk(s) && BuilderOk(s) && TakeBufsStep(s).Some? && d < |s.classes|
    ensures ClassOk(TakeBufsStep(s).value, d)
  {
    var n := TakeBufsStep(s).value;
    hide InTakenOf, Has;
    assert ClassOk(s, d);
    assert LiveClass(s, s.builder.left[0]);
    forall b | b in n.captured[d] ensures Has(n, d, b) {
      TakenStays(s, n, d, b);
    }
  }

  lemma TakeMoves(s: Store)
    requires TakeBufsStep(s).Some?
    ensures Everywhere(TakeBufsStep(s).value) == Everywhere(s)
  {
    var n := TakeBufsStep(s).value;
    var c, last := s.builder.left[0], |s.builder.taken|;
    assert n.builder.taken[..last] == s.builder.taken && n.builder.taken[last] == (c, s.classes[c].bufs);
    ClassAndBuilderMove(s, n, c, n.classes[c], multiset{}, multiset(s.classes[c].bufs));
  }

  lemma TakenStays(s: Store, n: Store, d: nat, b: Buf)
    requires ClassesOk(s) && BuilderOk(s) && TakeBufsStep(s) == Some(n) && d < |n.classes| && b in n.captured[d]
    ensures Has(n, d, b)
  {
    var c, last := s.builder.left[0], |s.builder.taken|;
    assert n.builder.taken[last] == (c, s.classes[c].bufs);
    if d == c && b in s.classes[c].bufs {
      assert n.builder.taken[last].0 == d && b in n.builder.taken[last].1;
    } else {
      assert ClassOk(s, d) && Has(s, d, b);
      if InTakenOf(s.builder.taken, d, b) {
        var i :| 0 <= i < |s.builder.taken| && s.builder.taken[i].0 == d && b in s.builder.taken[i].1;
        assert n.builder.taken[i] == s.builder.taken[i];
      }
    }
  }

  lemma ReturnKeeps(s: Store)
    requires Inv(s) && ReturnBufsStep(s).Some?
    ensures var n := ReturnBufsStep(s).value; Inv(n) && Everywhere(n) == Everywhere(s)
  {
    var n := ReturnBufsStep(s).value;
    ReturnMoves(s);
    hide Everywhere, Has, IsDead, Reading;
    forall d | 0 <= d < |n.classes| ensures Carried(s, n, d) {
      assert ClassOk(s, d);
      ReturnCarries(s, n, d);
    }
    ReturnBuilder(s);
    hide BuilderOk;
    ClassesKept(s, n);
    ThreadsKept(s, n);
  }

  lemma ReturnCarries(s: Store, n: Store, d: nat)
    requires d < |s.classes| == |s.captured| && ClassOk(s, d) && ReturnBufsStep(s) == Some(n)
    requires |s.builder.taken| > 0 ==> LiveClass(s, s.builder.taken[0].0)
    ensures Carried(s, n, d)
  {
    hide Has, IsDead;
    forall b | Has(s, d, b) ensures Has(n, d, b) {
      ReturnedStays(s, n, d, b);
    }
  }

  lemma ReturnBuilder(s: Store)
    requires BuilderOk(s) && ReturnBufsStep(s).Some?
    ensures BuilderOk(ReturnBufsStep(s).value)
  {
  }

  lemma ReturnMoves(s: Store)
    requires Inv(s) && ReturnBufsStep(s).Some?
    ensures Everywhere(ReturnBufsStep(s).value) == Everywhere(s)
    ensures |s.builder.taken| > 0 ==> LiveClass(s, s.builder.taken[0].0)
  {
    hide ClassesOk, ThreadsOk;
    var n := ReturnBufsStep(s).value;
    if |s.builder.taken| > 0 {
      var (c, bufs) := s.builder.taken[0];
      assert LiveClass(s, c);
      TakenFront(s.builder.taken);
      ClassAndBuilderMove(s, n, c, n.classes[c], multiset(bufs), multiset{});
    }
  }

  lemma ReturnedStays(s: Store, n: Store, d: nat, b: Buf)
    requires ReturnBufsStep(s) == Some(n) && d < |n.classes| && Has(s, d, b)
    ensures Has(n, d, b)
  {
    if b !in s.classes[d].bufs {
      var i :| 0 <= i < |s.builder.taken| && s.builder.taken[i].0 == d && b in s.builder.taken[i].1;
      if i > 0 {
        assert n.builder.taken[i - 1] == s.builder.taken[i];
      }
    }
  }

  // ---------- every run ----------

  lemma StepKeeps(s: Store, step: Step)
    requires Inv(s) && Next(s, step).Some?
    ensures Inv(Next(s, step).value) && Everywhere(Next(s, step).value) == Everywhere(s)
  {
    if step.UseSpare? || step.Enter? || step.AllConsumed? || step.GiveUp? {
      SimpleStepKeeps(s, step);
    } else if step.StartBuild? || step.FinishVisits? {
      BuilderKeeps(s, Next(s, step).value);
    } else {
      hide Inv, Everywhere;
      match step
      case Steal(t, c) => StealKeeps(s, t, c);
      case MakeClass(t, c) => MakeClassKeeps(s, t, c);
      case SwapTop(t) => SwapTopKeeps(s, t);
      case Shelve(t) => ShelveKeeps(s, t);
      case BeginMining => BeginKeeps(s);
      case TakeBufs => TakeKeeps(s);
      case StopMining => StopKeeps(s);
      case ReturnBufs => ReturnKeeps(s);
    }
  }

  lemma SimpleStepKeeps(s: Store, step: Step)
    requires Inv(s) && Next(s, step).Some? && (step.UseSpare? || step.Enter? || step.AllConsumed? || step.GiveUp?)
    ensures Inv(Next(s, step).value) && Everywhere(Next(s, step).value) == Everywhere(s)
  {
    var n := Next(s, step).value;
    hide Everywhere, ClassesOk, BuilderOk;
    ThreadStepKeeps(s, n, step.t, n.threads[step.t]);
  }

  /** The store as it starts: nothing captured, nothing mining, no thread inside a class. */
  predicate Initial(s: Store) {
    && |s.captured| == |s.classes| && s.builder.Resting?
    && (forall c :: 0 <= c < |s.classes| ==> s.captured[c] == {} && (!s.classes[c].live ==> IsDead(s.classes[c])))
    && (forall t :: 0 <= t < |s.threads| ==> s.threads[t].Idle?)
  }

  lemma InitialIsFine(s: Store)
    requires Initial(s)
    ensures Inv(s)
  {
    hide IsDead;
    forall c | 0 <= c < |s.classes| ensures ClassOk(s, c) {
    }
    assert ClassesOk(s);
  }

  /** No run loses, duplicates or invents a buffer: dropping dead classes loses none. */
  lemma {:induction false} BuffersAreConserved(s: Store, steps: seq<Step>)
    requires Initial(s)
    ensures Everywhere(Run(s, steps)) == Everywhere(s) && Inv(Run(s, steps))
  {
    if |steps| == 0 {
      InitialIsFine(s);
    } else {
      hide Inv, Everywhere, Next, Initial;
      BuffersAreConserved(s, steps[..|steps| - 1]);
      var r := Run(s, steps[..|steps| - 1]);
      if Next(r, steps[|steps| - 1]).Some? {
        StepKeeps(r, steps[|steps| - 1]);
      }
    }
  }

  lemma {:induction false} CountInClass(classes: seq<Class>, c: nat, b: Buf)
    requires c < |classes|
    ensures InClasses(classes)[b] >= InOneClass(classes[c])[b]
  {
    if c < |classes| - 1 {
      CountInClass(classes[..|classes| - 1], c, b);
    }
  }

  lemma {:induction false} CountInTwo(classes: seq<Class>, c: nat, d: nat, b: Buf)
    requires c < d < |classes|
    ensures InClasses(classes)[b] >= InOneClass(classes[c])[b] + InOneClass(classes[d])[b]
  {
    hide InOneClass;
    if d < |classes| - 1 {
      CountInTwo(classes[..|classes| - 1], c, d, b);
    } else {
      CountInClass(classes[..|classes| - 1], c, b);
    }
  }

  lemma {:induction false} CountInTaken(taken: seq<(nat, seq<Buf>)>, i: nat, b: Buf)
    requires i < |taken| && b in taken[i].1
    ensures InTaken(taken)[b] >= 1
  {
    if i < |taken| - 1 {
      CountInTaken(taken[..|taken| - 1], i, b);
    }
  }

  /**
   * Stealing never hands out a buffer that the tree builder captured from a class which is still
   * mining, whoever has it at the moment.
   */
  lemma CapturedBuffersAreNotStolen(s: Store, steps: seq<Step>, t: nat, c: nat, d: nat)
    requires Initial(s) && forall b: Buf :: Everywhere(s)[b] <= 1
    requires Next(Run(s, steps), Steal(t, c)).Some? && d < |Run(s, steps).captured|
    ensures var r := Run(s, steps);
            Stolen(r.classes[c]).value.1 !in r.captured[d]
  {
    var r := Run(s, steps);
    BuffersAreConserved(s, steps);
    hide Run, Has, InBuilder, InThreads;
    var b := Stolen(r.classes[c]).value.1;
    assert ClassOk(r, c) && ClassOk(r, d);
    if b in r.captured[d] {
      TwoPlaces(r, c, d, b);
    }
  }

  lemma TwoPlaces(r: Store, c: nat, d: nat, b: Buf)
    requires c < |r.classes| && d < |r.classes| && c != d && InOneClass(r.classes[c])[b] >= 1 && Has(r, d, b)
    ensures Everywhere(r)[b] >= 2
  {
    CountInClass(r.classes, c, b);
    if b in r.classes[d].bufs {
      CountInTwo(r.classes, if c < d then c else d, if c < d then d else c, b);
    } else {
      var i :| 0 <= i < |r.builder.taken| && r.builder.taken[i].0 == d && b in r.builder.taken[i].1;
      CountInTaken(r.builder.taken, i, b);
    }
  }
}
