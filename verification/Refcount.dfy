/**
 The saturating reference count of crypto/refcount.cc as a transition system: any number of
 threads run the two weak compare-and-swap loops against one shared 32-bit word, one atomic
 access per step. A weak compare-and-swap may fail although the word equals `expected`, and
 every failure reloads `expected`.

 `Next` lets clients call in any order and any number of times. `DisciplinedRun` adds what the
 callers of the library promise: a thread increments, drops or hands over only references it
 holds.
 */
module Refcount {

  /** CRYPTO_REFCOUNT_MAX, at which the count saturates. */
  const MAX: nat := 0xffff_ffff

  /** Where a thread is inside CRYPTO_refcount_inc or CRYPTO_refcount_dec_and_test_zero. */
  datatype Pc =
    | Idle
    | IncLoad
    | IncTest(expected: nat)
    | IncCas(expected: nat)
    | DecLoad
    | DecTest(expected: nat)
    | DecCas(expected: nat)
    | Aborted

  /** `held` is the number of references the client code running on the thread owns. */
  datatype Thread = Thread(pc: Pc, held: int)

  datatype State = State(count: nat, threads: seq<Thread>)

  /** What a step shows to the clients: calls, returns, hand-overs, or nothing. */
  datatype Event =
    | Internal
    | HandOver(to: nat)
    | CallInc
    | CallDec
    | ReturnInc
    | ReturnDec(isZero: bool)
    | Abort

  datatype Label = Label(thread: nat, event: Event)

  ghost function Wrap32(x: int): nat {
    x % 0x1_0000_0000
  }

  ghost function Goto(s: State, i: nat, pc: Pc): State
    requires i < |s.threads|
  {
    s.(threads := s.threads[i := s.threads[i].(pc := pc)])
  }

  /** Thread i returns to its client, leaving `count` behind and owning `delta` more references. */
  ghost function Finish(s: State, i: nat, count: nat, delta: int): State
    requires i < |s.threads|
  {
    State(count, s.threads[i := Thread(Idle, s.threads[i].held + delta)])
  }

  /** One atomic step of the thread named by the label. */
  ghost predicate Next(s: State, l: Label, s': State) {
    var i := l.thread;
    && i < |s.threads|
    && match s.threads[i].pc
       case Idle =>
         (match l.event
          case CallInc => s' == Goto(s, i, IncLoad)
          case CallDec => s' == Goto(s, i, DecLoad)
          case HandOver(j) => j < |s.threads| && s' == Moved(s, i, j)
          case _ => false)
       case IncLoad =>
         l.event == Internal && s' == Goto(s, i, IncTest(s.count))
       case IncTest(expected) =>
         if expected != MAX then
           l.event == Internal && s' == Goto(s, i, IncCas(expected))
         else
           l.event == ReturnInc && s' == Finish(s, i, s.count, 1)
       case IncCas(expected) =>
         || (s.count == expected && l.event == ReturnInc
             && s' == Finish(s, i, Wrap32(expected + 1), 1))
         || (l.event == Internal && s' == Goto(s, i, IncTest(s.count)))
       case DecLoad =>
         l.event == Internal && s' == Goto(s, i, DecTest(s.count))
       case DecTest(expected) =>
         if expected == 0 then
           l.event == Abort && s' == Goto(s, i, Aborted)
         else if expected == MAX then
           l.event == ReturnDec(false) && s' == Finish(s, i, s.count, -1)
         else
           l.event == Internal && s' == Goto(s, i, DecCas(expected))
       case DecCas(expected) =>
         || (s.count == expected && l.event == ReturnDec(Wrap32(expected - 1) == 0)
             && s' == Finish(s, i, Wrap32(expected - 1), -1))
         || (l.event == Internal && s' == Goto(s, i, DecTest(s.count)))
       case Aborted => false
  }

  /** The state after thread i gives one of its references to thread j. */
  ghost function Moved(s: State, i: nat, j: nat): State
    requires i < |s.threads| && j < |s.threads|
  {
    var given := s.threads[i := s.threads[i].(held := s.threads[i].held - 1)];
    s.(threads := given[j := given[j].(held := given[j].held + 1)])
  }

  ghost predicate Init(s: State) {
    && s.count <= MAX
    && forall t <- s.threads :: t.pc == Idle
  }

  /** A finite run: a state before and after every label. Its clients obey no discipline. */
  ghost predicate IsRun(states: seq<State>, labels: seq<Label>) {
    && |states| == |labels| + 1
    && Init(states[0])
    && forall k :: 0 <= k < |labels| ==> Next(states[k], labels[k], states[k + 1])
  }

  // ---- Every client: the two loops are atomic, and saturation is permanent ----

  /** The documented meaning of a completed call, as one step of a sequential counter. */
  ghost predicate Atomic(c: nat, event: Event, c': nat) {
    match event
    case ReturnInc => c' == if c == MAX then MAX else c + 1
    case ReturnDec(isZero) =>
      if c == MAX then c' == MAX && !isZero
      else c > 0 && c' == c - 1 && isZero == (c' == 0)
    case _ => c' == c
  }

  /** What a thread's local `expected` says about the shared word. */
  ghost predicate LocalsMatch(pc: Pc, count: nat) {
    match pc
    case IncTest(e) => e <= MAX && (e == MAX ==> count == MAX)
    case DecTest(e) => e <= MAX && (e == MAX ==> count == MAX)
    case IncCas(e) => e < MAX
    case DecCas(e) => 0 < e < MAX
    case _ => true
  }

  ghost predicate Inv(s: State) {
    && s.count <= MAX
    && forall t <- s.threads :: LocalsMatch(t.pc, s.count)
  }

  lemma StepIsAtomic(s: State, l: Label, s': State)
    requires Inv(s) && Next(s, l, s')
    ensures Inv(s') && Atomic(s.count, l.event, s'.count)
  {
    assert LocalsMatch(s.threads[l.thread].pc, s.count);
    forall t | t in s'.threads
      ensures LocalsMatch(t.pc, s'.count)
    {
      var j :| 0 <= j < |s'.threads| && s'.threads[j] == t;
      assert LocalsMatch(s.threads[j].pc, s.count);
    }
  }

  lemma {:induction false} RunKeepsInv(states: seq<State>, labels: seq<Label>, k: nat)
    requires IsRun(states, labels) && k < |states|
    ensures Inv(states[k])
  {
    if k > 0 {
      RunKeepsInv(states, labels, k - 1);
      StepIsAtomic(states[k - 1], labels[k - 1], states[k]);
    }
  }

  /**
   Linearizability: in every run of any clients, each return is one atomic step of the sequential
   counter taken between that call and its return, and no other step changes the count.
   */
  lemma Linearizable(states: seq<State>, labels: seq<Label>, k: nat)
    requires IsRun(states, labels) && k < |labels|
    ensures Atomic(states[k].count, labels[k].event, states[k + 1].count)
  {
    RunKeepsInv(states, labels, k);
    StepIsAtomic(states[k], labels[k], states[k + 1]);
  }

  /** Once saturated, the count stays saturated and no decrement reports zero again. */
  lemma {:induction false} SaturationIsPermanent(states: seq<State>, labels: seq<Label>, i: nat, j: nat)
    requires IsRun(states, labels) && i <= j < |states|
    requires states[i].count == MAX
    ensures states[j].count == MAX
    ensures forall k :: i <= k < j ==> labels[k].event != ReturnDec(true)
  {
    if i < j {
      SaturationIsPermanent(states, labels, i, j - 1);
      Linearizable(states, labels, j - 1);
    }
  }

  // ---- Disciplined clients: the count is the number of live references ----

  /** A thread only increments, drops or hands over references it holds. */
  ghost predicate Disciplined(s: State, l: Label) {
    l.event.CallInc? || l.event.CallDec? || l.event.HandOver? ==>
      l.thread < |s.threads| && s.threads[l.thread].held >= 1
  }

  /** All references the threads hold together. */
  ghost function Live(threads: seq<Thread>): int {
    if threads == [] then 0 else threads[0].held + Live(threads[1..])
  }

  ghost predicate DisciplinedRun(states: seq<State>, labels: seq<Label>) {
    && IsRun(states, labels)
    && states[0].count == Live(states[0].threads)
    && (forall t <- states[0].threads :: t.held >= 0)
    && forall k :: 0 <= k < |labels| ==> Disciplined(states[k], labels[k])
  }

  lemma {:induction false} LiveUpdate(threads: seq<Thread>, i: nat, t: Thread)
    requires i < |threads|
    ensures Live(threads[i := t]) == Live(threads) - threads[i].held + t.held
  {
    if i > 0 {
      assert threads[i := t][1..] == threads[1..][i - 1 := t];
      LiveUpdate(threads[1..], i - 1, t);
    } else {
      assert threads[i := t][1..] == threads[1..];
    }
  }

  lemma {:induction false} LiveCoversEach(threads: seq<Thread>, i: nat)
    requires i < |threads| && forall t <- threads :: t.held >= 0
    ensures threads[i].held <= Live(threads)
  {
    if |threads| > 1 {
      LiveCoversEach(threads[1..], if i > 0 then i - 1 else 0);
    }
    assert threads[0] in threads;
  }

  /** A thread inside a call still holds the reference the call is about. */
  ghost predicate HoldsWhatItUses(t: Thread) {
    && t.held >= 0
    && (!t.pc.Idle? ==> t.held >= 1)
    && (t.pc.DecTest? ==> t.pc.expected >= 1)
    && !t.pc.Aborted?
  }

  ghost predicate LiveInv(s: State) {
    && Inv(s)
    && (forall t <- s.threads :: HoldsWhatItUses(t))
    && (s.count != MAX ==> s.count == Live(s.threads))
  }

  lemma StepKeepsLive(s: State, l: Label, s': State)
    requires LiveInv(s) && Next(s, l, s') && Disciplined(s, l)
    ensures |s'.threads| == |s.threads|
    ensures Live(s'.threads) == Live(s.threads) +
            (match l.event case ReturnInc => 1 case ReturnDec(_) => -1 case _ => 0)
  {
    var i := l.thread;
    if l.event.HandOver? {
      var j := l.event.to;
      var given := s.threads[i := s.threads[i].(held := s.threads[i].held - 1)];
      LiveUpdate(s.threads, i, given[i]);
      LiveUpdate(given, j, given[j].(held := given[j].held + 1));
    } else {
      LiveUpdate(s.threads, i, s'.threads[i]);
    }
  }

  lemma StepKeepsLiveInv(s: State, l: Label, s': State)
    requires LiveInv(s) && Next(s, l, s') && Disciplined(s, l)
    ensures LiveInv(s')
  {
    var i := l.thread;
    StepIsAtomic(s, l, s');
    StepKeepsLive(s, l, s');
    assert HoldsWhatItUses(s.threads[i]);
    LiveCoversEach(s.threads, i);
    forall t | t in s'.threads
      ensures HoldsWhatItUses(t)
    {
      var j :| 0 <= j < |s'.threads| && s'.threads[j] == t;
      assert HoldsWhatItUses(s.threads[j]);
    }
  }

  lemma {:induction false} DisciplineKeepsLiveInv(states: seq<State>, labels: seq<Label>, k: nat)
    requires DisciplinedRun(states, labels) && k < |states|
    ensures LiveInv(states[k])
  {
    if k > 0 {
      DisciplineKeepsLiveInv(states, labels, k - 1);
      StepKeepsLiveInv(states[k - 1], labels[k - 1], states[k]);
    }
  }

  /** No interleaving of disciplined clients aborts, and the count is exact until it saturates. */
  lemma CountIsExact(states: seq<State>, labels: seq<Label>, k: nat)
    requires DisciplinedRun(states, labels) && k < |states|
    ensures states[k].count == Live(states[k].threads) || states[k].count == MAX
    ensures forall t <- states[k].threads :: !t.pc.Aborted? && t.held >= 0
    ensures k < |labels| ==> labels[k].event != Abort
  {
    DisciplineKeepsLiveInv(states, labels, k);
    if k < |labels| {
      assert Next(states[k], labels[k], states[k + 1]);
      assert HoldsWhatItUses(states[k].threads[labels[k].thread]);
    }
  }

  /** A decrement reports zero exactly when it drops the last reference of an unsaturated count. */
  lemma ZeroMeansLast(states: seq<State>, labels: seq<Label>, k: nat)
    requires DisciplinedRun(states, labels) && k < |labels| && labels[k].event.ReturnDec?
    ensures labels[k].event.isZero <==> states[k].count != MAX && Live(states[k + 1].threads) == 0
  {
    DisciplineKeepsLiveInv(states, labels, k);
    StepKeepsLive(states[k], labels[k], states[k + 1]);
    StepIsAtomic(states[k], labels[k], states[k + 1]);
  }

  /** Nothing can follow a decrement that reports zero, so at most one ever does. */
  lemma ZeroIsReportedOnce(states: seq<State>, labels: seq<Label>, k: nat)
    requires DisciplinedRun(states, labels) && k < |labels| && labels[k].event == ReturnDec(true)
    ensures k == |labels| - 1
  {
    if k + 1 < |labels| {
      var s, i := states[k + 1], labels[k + 1].thread;
      assert Next(s, labels[k + 1], states[k + 2]) && Disciplined(s, labels[k + 1]);
      DisciplineKeepsLiveInv(states, labels, k + 1);
      assert HoldsWhatItUses(s.threads[i]);
      LiveCoversEach(s.threads, i);
      ZeroMeansLast(states, labels, k);
    }
  }

  // ---- Progress ----

  /** Saturation happens at the last value before the word would wrap to zero. */
  lemma SaturatesBeforeWrapping()
    ensures Wrap32(MAX) == MAX && Wrap32(MAX + 1) == 0
  {
  }

  /** A compare-and-swap that finds the expected value succeeds. */
  ghost predicate NotSpurious(s: State, l: Label) {
    l.thread < |s.threads| ==>
      match s.threads[l.thread].pc
      case IncCas(expected) => s.count == expected ==> l.event == ReturnInc
      case DecCas(expected) => s.count == expected ==> l.event.ReturnDec?
      case _ => true
  }

  ghost predicate Finishes(event: Event) {
    event == ReturnInc || event.ReturnDec? || event == Abort
  }

  /** Consecutive steps of thread i alone, none of them failing spuriously. */
  ghost predicate RunsAlone(states: seq<State>, labels: seq<Label>, i: nat) {
    && |states| == |labels| + 1
    && forall k :: 0 <= k < |labels| ==>
         Next(states[k], labels[k], states[k + 1]) && labels[k].thread == i && NotSpurious(states[k], labels[k])
  }

  /** A call that runs alone finishes within four steps, whatever stale value it starts from. */
  lemma FinishesAlone(states: seq<State>, labels: seq<Label>, i: nat)
    requires RunsAlone(states, labels, i) && |labels| == 4
    requires i < |states[0].threads| && !states[0].threads[i].pc.Idle?
    ensures Finishes(labels[0].event) || Finishes(labels[1].event) || Finishes(labels[2].event) || Finishes(labels[3].event)
  {
    assert Next(states[0], labels[0], states[1]) && Next(states[1], labels[1], states[2]);
    assert Next(states[2], labels[2], states[3]) && Next(states[3], labels[3], states[4]);
    assert NotSpurious(states[0], labels[0]) && NotSpurious(states[1], labels[1]);
    assert NotSpurious(states[2], labels[2]) && NotSpurious(states[3], labels[3]);
  }

  /** A call in progress can always take a step that is not a spurious failure. */
  lemma NeverStuck(s: State, i: nat) returns (l: Label, s': State)
    requires Inv(s) && i < |s.threads| && !s.threads[i].pc.Idle? && !s.threads[i].pc.Aborted?
    ensures l.thread == i && Next(s, l, s') && NotSpurious(s, l)
  {
    match s.threads[i].pc
    case IncLoad =>
      l, s' := Label(i, Internal), Goto(s, i, IncTest(s.count));
    case IncTest(e) =>
      if e != MAX {
        l, s' := Label(i, Internal), Goto(s, i, IncCas(e));
      } else {
        l, s' := Label(i, ReturnInc), Finish(s, i, s.count, 1);
      }
    case IncCas(e) =>
      if s.count == e {
        l, s' := Label(i, ReturnInc), Finish(s, i, Wrap32(e + 1), 1);
      } else {
        l, s' := Label(i, Internal), Goto(s, i, IncTest(s.count));
      }
    case DecLoad =>
      l, s' := Label(i, Internal), Goto(s, i, DecTest(s.count));
    case DecTest(e) =>
      if e == 0 {
        l, s' := Label(i, Abort), Goto(s, i, Aborted);
      } else if e == MAX {
        l, s' := Label(i, ReturnDec(false)), Finish(s, i, s.count, -1);
      } else {
        l, s' := Label(i, Internal), Goto(s, i, DecCas(e));
      }
    case DecCas(e) =>
      if s.count == e {
        l, s' := Label(i, ReturnDec(Wrap32(e - 1) == 0)), Finish(s, i, Wrap32(e - 1), -1);
      } else {
        l, s' := Label(i, Internal), Goto(s, i, DecTest(s.count));
      }
  }

  /** Lock freedom: the count differs between two states only if some call returned in between. */
  lemma {:induction false} ChangeMeansReturn(states: seq<State>, labels: seq<Label>, i: nat, j: nat)
    requires IsRun(states, labels) && i <= j < |states| && states[i].count != states[j].count
    ensures exists k :: i <= k < j && (labels[k].event == ReturnInc || labels[k].event.ReturnDec?)
  {
    Linearizable(states, labels, j - 1);
    if states[i].count != states[j - 1].count {
      ChangeMeansReturn(states, labels, i, j - 1);
    }
  }
}
