/**
 The ex_data index registry of crypto/ex_data.cc as a transition system. Registrations
 (CRYPTO_get_ex_new_index_ex) append a node to a linked list under a lock and then publish it by
 storing `num_funcs`. Readers (CRYPTO_free_ex_data) never take the lock: they load `num_funcs` once
 and follow that many pointers. Every step is one access to shared memory by one of any number
 of threads.

 `chain`, `log` and `returned` record the history. No step reads them.
 */
module ExDataRegistry {
  import opened Wrappers

  const INT_MAX: int := 0x7fff_ffff

  /** What a registration stores: the `argl`, `argp` and `free_func` of its node. */
  datatype Callback = Callback(argl: int, argp: int, freeFunc: Option<int>)

  datatype Node = Node(callback: Callback, next: Option<nat>)

  /** A memory cell holding a pointer to a node: `ex_data_class->funcs` or some `node->next`. */
  datatype Location = Head | NextOf(node: nat)

  /** A call of a registered free function with the index it was registered under. */
  datatype Invocation = Invocation(index: int, callback: Callback)

  /** The registering thread keeps its node and the loaded count; a reader keeps its loop locals. */
  datatype Pc =
    | Idle
    | Locking(node: nat)
    | Loading(node: nat)
    | Checking(node: nat, n: nat)
    | Linking(node: nat, n: nat)
    | MovingLast(node: nat, n: nat)
    | Publishing(node: nat, n: nat)
    | Unlocking(node: nat, n: nat)
    | UnlockingFull(node: nat)
    | Returning(node: nat, n: nat)
    | ReaderStart
    | ReaderVisit(n: nat, i: nat, at: Location, calls: seq<Invocation>)
    | ReaderAdvance(n: nat, i: nat, at: Location, calls: seq<Invocation>)
    | ReaderDone(n: nat, calls: seq<Invocation>)
    | BadPointer

  /** The shared memory: the heap of nodes and the CRYPTO_EX_DATA_CLASS fields other than the lock. */
  datatype Mem = Mem(
    nodes: seq<Node>, funcs: Option<nat>, last: Option<nat>, numFuncs: nat, reserved: nat,
    chain: seq<nat>, log: seq<Callback>)

  datatype State = State(mem: Mem, lock: Option<nat>, threads: seq<Pc>, returned: map<nat, int>)

  /**
   What an idle thread starts: a registration, whose node may fail to be allocated, or the freeing of an
   object, which reads nothing if the object never got a stack. Any other thread continues.
   */
  datatype Op = Register(callback: Callback) | RegisterOutOfMemory | FreeObject | FreeEmptyObject | Continue

  datatype Label = Label(thread: nat, op: Op)

  /** The pointer stored in a cell; None for NULL and for an address outside the heap. */
  ghost function Deref(m: Mem, at: Location): Option<nat> {
    var p := match at
      case Head => m.funcs
      case NextOf(a) => if a < |m.nodes| then m.nodes[a].next else None;
    if p.Some? && p.value < |m.nodes| then p else None
  }

  /** The cell the append writes. */
  ghost function LinkTarget(m: Mem): Location {
    if m.last.None? then Head else NextOf(m.last.value)
  }

  ghost predicate CanLink(m: Mem, node: nat) {
    node < |m.nodes| && (m.last.Some? ==> m.last.value < |m.nodes|)
  }

  ghost function Link(m: Mem, node: nat): Mem
    requires CanLink(m, node)
  {
    var m' := m.(chain := m.chain + [node], log := m.log + [m.nodes[node].callback]);
    if m.last.None? then m'.(funcs := Some(node))
    else m'.(nodes := m.nodes[m.last.value := m.nodes[m.last.value].(next := Some(node))])
  }

  /** The calls made for one node: its free function, unless that is NULL. */
  ghost function CallsFor(callback: Callback, index: int): seq<Invocation> {
    if callback.freeFunc.Some? then [Invocation(index, callback)] else []
  }

  ghost function MemAfter(m: Mem, pc: Pc, op: Op): Mem {
    match pc
    case Idle => if op.Register? then m.(nodes := m.nodes + [Node(op.callback, None)]) else m
    case Linking(a, n) => if CanLink(m, a) then Link(m, a) else m
    case MovingLast(a, n) => m.(last := Some(a))
    case Publishing(a, n) => m.(numFuncs := (n + 1) % 0x1_0000_0000)
    case _ => m
  }

  ghost function PcAfter(m: Mem, pc: Pc, op: Op): Pc {
    match pc
    case Idle =>
      (match op
       case Register(_) => Locking(|m.nodes|)
       case FreeObject => ReaderStart
       case _ => Idle)
    case Locking(a) => Loading(a)
    case Loading(a) => Checking(a, m.numFuncs)
    case Checking(a, n) => if n > INT_MAX - m.reserved then UnlockingFull(a) else Linking(a, n)
    case Linking(a, n) => if CanLink(m, a) then MovingLast(a, n) else BadPointer
    case MovingLast(a, n) => Publishing(a, n)
    case Publishing(a, n) => Unlocking(a, n)
    case Unlocking(a, n) => Returning(a, n)
    case UnlockingFull(a) => Idle
    case Returning(a, n) => Idle
    case ReaderStart => ReaderVisit(m.numFuncs, 0, Head, [])
    case ReaderVisit(n, i, at, calls) =>
      if i >= n then ReaderDone(n, calls)
      else if Deref(m, at).None? then BadPointer
      else ReaderAdvance(n, i, at, calls + CallsFor(m.nodes[Deref(m, at).value].callback, i + m.reserved))
    case ReaderAdvance(n, i, at, calls) =>
      if Deref(m, at).None? then BadPointer
      else ReaderVisit(n, i + 1, NextOf(Deref(m, at).value), calls)
    case ReaderDone(n, calls) => Idle
    case BadPointer => BadPointer
  }

  /** One step of the labelled thread. Taking the lock waits until it is free. */
  ghost predicate Next(s: State, l: Label, s': State) {
    && l.thread < |s.threads|
    && var t, pc := l.thread, s.threads[l.thread];
    && (pc.Idle? <==> !l.op.Continue?)
    && (pc.Locking? ==> s.lock.None?)
    && s'.mem == MemAfter(s.mem, pc, l.op)
    && s'.threads == s.threads[t := PcAfter(s.mem, pc, l.op)]
    && s'.lock == (if pc.Locking? then Some(t) else if pc.Unlocking? || pc.UnlockingFull? then None else s.lock)
    && s'.returned == if pc.Returning? then s.returned[pc.node := pc.n + s.mem.reserved] else s.returned
  }

  /** A zero-initialised CRYPTO_EX_DATA_CLASS; `reserved` is the uint8_t num_reserved. */
  ghost predicate Init(s: State) {
    && s.mem == Mem([], None, None, 0, s.mem.reserved, [], [])
    && s.mem.reserved <= 255
    && s.lock == None
    && (forall pc <- s.threads :: pc == Idle)
    && s.returned == map[]
  }

  ghost predicate IsRun(states: seq<State>, labels: seq<Label>) {
    && |states| == |labels| + 1
    && Init(states[0])
    && forall k :: 0 <= k < |labels| ==> Next(states[k], labels[k], states[k + 1])
  }

  // ---- The invariant ----

  /** The cell a reader must dereference to reach the i-th node. */
  ghost function Cursor(chain: seq<nat>, i: nat): Location
    requires i <= |chain|
  {
    if i == 0 then Head else NextOf(chain[i - 1])
  }

  /** The free functions of the first n registrations, in order, each with its index. */
  ghost function Calls(log: seq<Callback>, reserved: nat, n: nat): seq<Invocation>
    requires n <= |log|
  {
    if n == 0 then [] else Calls(log, reserved, n - 1) + CallsFor(log[n - 1], n - 1 + reserved)
  }

  lemma {:induction false} CallsOfPrefix(log: seq<Callback>, log': seq<Callback>, reserved: nat, n: nat)
    requires n <= |log| && log <= log'
    ensures Calls(log, reserved, n) == Calls(log', reserved, n)
  {
    if n > 0 {
      CallsOfPrefix(log, log', reserved, n - 1);
    }
  }

  ghost predicate Distinct(chain: seq<nat>) {
    forall i, j :: 0 <= i < j < |chain| ==> chain[i] != chain[j]
  }

  ghost predicate LinkAt(m: Mem, k: nat) {
    k < |m.chain| && Deref(m, Cursor(m.chain, k)) == Some(m.chain[k])
  }

  /** The list in memory is `chain`, from `funcs` to a node whose `next` is NULL. */
  ghost predicate MemOk(m: Mem) {
    && Distinct(m.chain)
    && |m.log| == |m.chain|
    && (forall k :: 0 <= k < |m.chain| ==> m.chain[k] < |m.nodes| && m.log[k] == m.nodes[m.chain[k]].callback)
    && (forall k :: 0 <= k < |m.chain| ==> LinkAt(m, k))
    && m.numFuncs <= |m.chain|
    && m.numFuncs <= INT_MAX - m.reserved + 1
    && m.reserved <= 255
  }

  /** No append is under way: everything linked is published and `last` is the tail. */
  ghost predicate Settled(m: Mem) {
    && m.numFuncs == |m.chain|
    && LinkTarget(m) == Cursor(m.chain, |m.chain|)
  }

  ghost predicate InCritical(pc: Pc) {
    pc.Loading? || pc.Checking? || pc.Linking? || pc.MovingLast? || pc.Publishing?
    || pc.Unlocking? || pc.UnlockingFull?
  }

  ghost predicate Writer(pc: Pc) {
    pc.Locking? || InCritical(pc) || pc.Returning?
  }

  ghost predicate Unlinked(m: Mem, node: nat) {
    node < |m.nodes| && node !in m.chain
  }

  /** What holds of a thread's locals at each program point. */
  ghost predicate PcOk(m: Mem, pc: Pc)
    requires MemOk(m)
  {
    match pc
    case Locking(a) => Unlinked(m, a)
    case Loading(a) => Unlinked(m, a) && Settled(m)
    case Checking(a, n) => Unlinked(m, a) && Settled(m) && n == m.numFuncs
    case Linking(a, n) => Unlinked(m, a) && Settled(m) && n == m.numFuncs <= INT_MAX - m.reserved
    case MovingLast(a, n) => n == m.numFuncs <= INT_MAX - m.reserved && |m.chain| == n + 1 && m.chain[n] == a
    case Publishing(a, n) =>
      n == m.numFuncs <= INT_MAX - m.reserved && |m.chain| == n + 1 && m.chain[n] == a && m.last == Some(a)
    case Unlocking(a, n) => Settled(m) && n < m.numFuncs && m.chain[n] == a
    case UnlockingFull(a) => Unlinked(m, a) && Settled(m) && m.numFuncs == INT_MAX - m.reserved + 1
    case Returning(a, n) => n < m.numFuncs && m.chain[n] == a
    case ReaderVisit(n, i, at, calls) =>
      i <= n <= m.numFuncs && at == Cursor(m.chain, i) && calls == Calls(m.log, m.reserved, i)
    case ReaderAdvance(n, i, at, calls) =>
      i < n <= m.numFuncs && at == Cursor(m.chain, i) && calls == Calls(m.log, m.reserved, i + 1)
    case ReaderDone(n, calls) => n <= m.numFuncs && calls == Calls(m.log, m.reserved, n)
    case BadPointer => false
    case _ => true
  }

  /** No two registrations in progress share a node, nor one in progress and one returned. */
  ghost predicate OwnershipOk(threads: seq<Pc>, returned: map<nat, int>) {
    && (forall t, u :: 0 <= t < u < |threads| && Writer(threads[t]) && Writer(threads[u]) ==>
          threads[t].node != threads[u].node)
    && (forall t :: 0 <= t < |threads| && Writer(threads[t]) ==> threads[t].node !in returned)
  }

  ghost predicate Registering(threads: seq<Pc>, node: nat) {
    exists t :: 0 <= t < |threads| && Writer(threads[t]) && threads[t].node == node
  }

  /** The k-th registration returns index k past the reserved ones, and stays in progress until then. */
  ghost predicate ReturnedOk(m: Mem, threads: seq<Pc>, returned: map<nat, int>) {
    && (forall a <- returned :: a in m.chain)
    && (forall k :: 0 <= k < |m.chain| ==>
          if m.chain[k] in returned then k < m.numFuncs && returned[m.chain[k]] == m.reserved + k
          else Registering(threads, m.chain[k]))
  }

  ghost predicate ThreadOk(s: State, t: nat)
    requires MemOk(s.mem) && t < |s.threads|
  {
    PcOk(s.mem, s.threads[t]) && (InCritical(s.threads[t]) <==> s.lock == Some(t))
  }

  ghost predicate Inv(s: State) {
    && MemOk(s.mem)
    && (s.lock.None? ==> Settled(s.mem))
    && (s.lock.Some? ==> s.lock.value < |s.threads|)
    && (forall t :: 0 <= t < |s.threads| ==> ThreadOk(s, t))
    && OwnershipOk(s.threads, s.returned)
    && ReturnedOk(s.mem, s.threads, s.returned)
  }

  // ---- Every step keeps the invariant ----

  lemma LinkKeepsMem(m: Mem, a: nat)
    requires MemOk(m) && Unlinked(m, a) && Settled(m)
    ensures CanLink(m, a) && MemOk(Link(m, a))
  {
    var m' := Link(m, a);
    forall k | 0 <= k < |m'.chain|
      ensures m'.chain[k] < |m'.nodes| && m'.log[k] == m'.nodes[m'.chain[k]].callback
    {
      assert k < |m.chain| ==> m.chain[k] < |m.nodes|;
    }
    forall k | 0 <= k < |m'.chain|
      ensures LinkAt(m', k)
    {
      if k < |m.chain| {
        assert LinkAt(m, k);
        assert Cursor(m'.chain, k) == Cursor(m.chain, k);
      }
    }
  }

  lemma StepKeepsMem(m: Mem, pc: Pc, op: Op)
    requires MemOk(m) && PcOk(m, pc)
    ensures MemOk(MemAfter(m, pc, op))
  {
    if pc.Linking? {
      LinkKeepsMem(m, pc.node);
    }
    var m' := MemAfter(m, pc, op);
    if !pc.Linking? {
      forall k | 0 <= k < |m'.chain|
        ensures LinkAt(m', k)
      {
        assert LinkAt(m, k);
      }
    }
  }

  /** The stepping thread's own facts. */
  lemma StepKeepsOwnPc(m: Mem, pc: Pc, op: Op)
    requires MemOk(m) && PcOk(m, pc) && (pc.Locking? ==> Settled(m))
    requires MemOk(MemAfter(m, pc, op))
    ensures PcOk(MemAfter(m, pc, op), PcAfter(m, pc, op))
  {
    if pc.ReaderVisit? {
      VisitKeepsOwnPc(m, pc, op);
    } else if pc.ReaderAdvance? {
      assert LinkAt(m, pc.i);
    } else if pc.Linking? {
      LinkKeepsOwnPc(m, pc, op);
    }
  }

  lemma VisitKeepsOwnPc(m: Mem, pc: Pc, op: Op)
    requires MemOk(m) && PcOk(m, pc) && pc.ReaderVisit?
    ensures PcOk(m, PcAfter(m, pc, op))
  {
    var i := pc.i;
    if i < pc.n {
      assert LinkAt(m, i);
      assert m.nodes[m.chain[i]].callback == m.log[i];
      assert Calls(m.log, m.reserved, i + 1) == pc.calls + CallsFor(m.log[i], i + m.reserved);
    }
  }

  lemma LinkKeepsOwnPc(m: Mem, pc: Pc, op: Op)
    requires MemOk(m) && PcOk(m, pc) && pc.Linking?
    requires MemOk(MemAfter(m, pc, op))
    ensures PcOk(MemAfter(m, pc, op), PcAfter(m, pc, op))
  {
    LinkKeepsMem(m, pc.node);
  }

  /** What a step of another thread, working on node `a`, may do to the memory. */
  ghost predicate Rely(m: Mem, m': Mem, a: nat) {
    && m.chain <= m'.chain && m.log <= m'.log
    && m.numFuncs <= m'.numFuncs
    && m.reserved == m'.reserved
    && |m.nodes| <= |m'.nodes|
    && (forall x <- m'.chain :: x in m.chain || x == a)
  }

  lemma StepMeetsRely(m: Mem, pc: Pc, op: Op)
    requires MemOk(m) && PcOk(m, pc)
    ensures Rely(m, MemAfter(m, pc, op), if Writer(pc) then pc.node else |m.nodes|)
  {
  }

  /** A thread outside the lock keeps its facts whatever the others do. */
  lemma OutsideIsStable(m: Mem, m': Mem, a: nat, pc: Pc)
    requires MemOk(m) && MemOk(m') && PcOk(m, pc) && !InCritical(pc)
    requires Rely(m, m', a) && (pc.Locking? ==> pc.node != a)
    ensures PcOk(m', pc)
  {
    match pc
    case ReaderVisit(_, i, _, _) => CallsOfPrefix(m.log, m'.log, m.reserved, i);
    case ReaderAdvance(_, i, _, _) => CallsOfPrefix(m.log, m'.log, m.reserved, i + 1);
    case ReaderDone(n, _) => CallsOfPrefix(m.log, m'.log, m.reserved, n);
    case _ =>
  }

  /** The lock holder keeps its facts, because the others only allocate. */
  lemma InsideIsStable(m: Mem, pc: Pc, op: Op, other: Pc)
    requires MemOk(m) && MemOk(MemAfter(m, pc, op)) && PcOk(m, other)
    requires !InCritical(pc) && InCritical(other)
    ensures PcOk(MemAfter(m, pc, op), other)
  {
  }

  lemma StepKeepsPc(m: Mem, pc: Pc, op: Op, other: Pc)
    requires MemOk(m) && MemOk(MemAfter(m, pc, op)) && PcOk(m, pc) && PcOk(m, other)
    requires !InCritical(pc) || !InCritical(other)
    requires Writer(pc) && Writer(other) ==> pc.node != other.node
    ensures PcOk(MemAfter(m, pc, op), other)
  {
    if InCritical(other) {
      InsideIsStable(m, pc, op, other);
    } else {
      StepMeetsRely(m, pc, op);
      OutsideIsStable(m, MemAfter(m, pc, op), if Writer(pc) then pc.node else |m.nodes|, other);
    }
  }

  /** At most one thread is in the critical section, the one that holds the lock. */
  lemma StepKeepsLocks(s: State, l: Label, s': State, u: nat)
    requires MemOk(s.mem) && Next(s, l, s') && u < |s.threads| && ThreadOk(s, l.thread) && ThreadOk(s, u)
    ensures InCritical(s'.threads[u]) <==> s'.lock == Some(u)
  {
    var m, pc := s.mem, s.threads[l.thread];
    assert pc.Linking? ==> CanLink(m, pc.node) by {
      if pc.Linking? {
        LinkKeepsMem(m, pc.node);
      }
    }
  }

  lemma StepKeepsThreads(s: State, l: Label, s': State, u: nat)
    requires Inv(s) && Next(s, l, s') && MemOk(s'.mem) && u < |s.threads|
    ensures ThreadOk(s', u)
  {
    var t := l.thread;
    assert ThreadOk(s, t) && ThreadOk(s, u);
    StepKeepsLocks(s, l, s', u);
    if t == u {
      StepKeepsOwnPc(s.mem, s.threads[t], l.op);
    } else {
      StepKeepsPc(s.mem, s.threads[t], l.op, s.threads[u]);
    }
  }

  lemma NodesAreAllocated(s: State, u: nat)
    requires Inv(s) && u < |s.threads| && Writer(s.threads[u])
    ensures s.threads[u].node < |s.mem.nodes|
  {
    assert ThreadOk(s, u);
  }

  lemma StepKeepsOwnership(s: State, l: Label, s': State)
    requires Inv(s) && Next(s, l, s')
    ensures OwnershipOk(s'.threads, s'.returned)
  {
    forall u | 0 <= u < |s.threads| && Writer(s.threads[u])
      ensures s.threads[u].node < |s.mem.nodes|
    {
      NodesAreAllocated(s, u);
    }
    forall a | a in s.returned
      ensures a < |s.mem.nodes|
    {
    }
    assert ThreadOk(s, l.thread);
    StepKeepsNode(s.mem, s.threads[l.thread], l.op);
  }

  /** A registration works on one node from its allocation to its return. */
  lemma StepKeepsNode(m: Mem, pc: Pc, op: Op)
    requires MemOk(m) && PcOk(m, pc)
    ensures var pc' := PcAfter(m, pc, op);
            Writer(pc') ==> pc'.node == (if Writer(pc) then pc.node else |m.nodes|) && (Writer(pc) ==> !pc.Returning?)
  {
    if pc.Linking? {
      LinkKeepsMem(m, pc.node);
    }
  }

  lemma StepKeepsRegistering(s: State, l: Label, s': State, node: nat)
    requires Next(s, l, s') && Registering(s.threads, node) && node !in s'.returned
    requires MemOk(s.mem) && PcOk(s.mem, s.threads[l.thread]) && node in s.mem.chain
    ensures Registering(s'.threads, node)
  {
    var u :| 0 <= u < |s.threads| && Writer(s.threads[u]) && s.threads[u].node == node;
    assert Writer(s'.threads[u]) && s'.threads[u].node == node;
  }

  lemma StepKeepsReturned(s: State, l: Label, s': State)
    requires Inv(s) && Next(s, l, s')
    ensures ReturnedOk(s'.mem, s'.threads, s'.returned)
  {
    var t, m, m' := l.thread, s.mem, s'.mem;
    assert ThreadOk(s, t);
    StepMeetsRely(m, s.threads[t], l.op);
    forall k | 0 <= k < |m'.chain|
      ensures if m'.chain[k] in s'.returned then k < m'.numFuncs && s'.returned[m'.chain[k]] == m'.reserved + k
              else Registering(s'.threads, m'.chain[k])
    {
      if k == |m.chain| {
        assert Writer(s'.threads[t]) && s'.threads[t].node == m'.chain[k];
      } else if m'.chain[k] !in s'.returned {
        StepKeepsRegistering(s, l, s', m.chain[k]);
      }
    }
  }

  lemma StepKeepsInv(s: State, l: Label, s': State)
    requires Inv(s) && Next(s, l, s')
    ensures Inv(s')
  {
    assert ThreadOk(s, l.thread);
    StepKeepsMem(s.mem, s.threads[l.thread], l.op);
    forall u | 0 <= u < |s'.threads|
      ensures ThreadOk(s', u)
    {
      StepKeepsThreads(s, l, s', u);
    }
    StepKeepsOwnership(s, l, s');
    StepKeepsReturned(s, l, s');
  }

  lemma {:induction false} RunKeepsInv(states: seq<State>, labels: seq<Label>, k: nat)
    requires IsRun(states, labels) && k < |states|
    ensures Inv(states[k])
  {
    if k == 0 {
      assert forall t :: 0 <= t < |states[0].threads| ==> states[0].threads[t] in states[0].threads;
    } else {
      RunKeepsInv(states, labels, k - 1);
      StepKeepsInv(states[k - 1], labels[k - 1], states[k]);
    }
  }

  // ---- What every run guarantees ----

  lemma StepOnlyAppends(s: State, l: Label, s': State)
    requires Inv(s) && Next(s, l, s')
    ensures s.mem.log <= s'.mem.log && s.mem.numFuncs <= s'.mem.numFuncs && s.mem.reserved == s'.mem.reserved
  {
    assert ThreadOk(s, l.thread);
    StepMeetsRely(s.mem, s.threads[l.thread], l.op);
  }

  lemma RunOnlyAppends(states: seq<State>, labels: seq<Label>, k: nat)
    requires IsRun(states, labels) && k < |labels|
    ensures states[k].mem.log <= states[k + 1].mem.log && states[k].mem.numFuncs <= states[k + 1].mem.numFuncs
    ensures states[k].mem.reserved == states[k + 1].mem.reserved
  {
    RunKeepsInv(states, labels, k);
    StepOnlyAppends(states[k], labels[k], states[k + 1]);
  }

  /** Registrations are only ever appended: what was registered stays, at the same index. */
  lemma {:induction false} LogGrows(states: seq<State>, labels: seq<Label>, j: nat, k: nat)
    requires IsRun(states, labels) && j <= k < |states|
    ensures states[j].mem.log <= states[k].mem.log && states[j].mem.numFuncs <= states[k].mem.numFuncs
    ensures states[j].mem.reserved == states[k].mem.reserved
  {
    if j < k {
      LogGrows(states, labels, j, k - 1);
      RunOnlyAppends(states, labels, k - 1);
    }
  }

  /**
   A lock-free reader that loaded n follows n good pointers and runs exactly the free functions of
   the first n registrations, in order and with their indices; all n were registered by then.
   */
  lemma ReaderSeesExactPrefix(states: seq<State>, labels: seq<Label>, k: nat, t: nat)
    requires IsRun(states, labels) && k < |states| && t < |states[k].threads|
    ensures !states[k].threads[t].BadPointer?
    ensures var m, pc := states[k].mem, states[k].threads[t];
            pc.ReaderDone? ==> pc.n <= m.numFuncs <= |m.log| && pc.calls == Calls(m.log, m.reserved, pc.n)
  {
    RunKeepsInv(states, labels, k);
    assert ThreadOk(states[k], t);
  }

  // ---- What a registration that has returned can rely on ----

  ghost predicate IsReading(pc: Pc) {
    pc.ReaderVisit? || pc.ReaderAdvance? || pc.ReaderDone?
  }

  /** Step j is the load of `num_funcs` by thread t, and up to state k it is still in the same call. */
  ghost predicate ReadsFrom(states: seq<State>, labels: seq<Label>, t: nat, j: nat, k: nat) {
    && j < |labels| && j < k < |states| && labels[j].thread == t < |states[j].threads|
    && states[j].threads[t].ReaderStart?
    && forall i :: j < i <= k ==> t < |states[i].threads| && IsReading(states[i].threads[t])
  }

  /** A reader keeps the count it loaded. */
  lemma {:induction false} ReaderKeepsCount(states: seq<State>, labels: seq<Label>, t: nat, j: nat, k: nat)
    requires IsRun(states, labels) && ReadsFrom(states, labels, t, j, k)
    ensures states[k].threads[t].n == states[j].mem.numFuncs
  {
    assert Next(states[k - 1], labels[k - 1], states[k]);
    if j < k - 1 {
      ReaderKeepsCount(states, labels, t, j, k - 1);
    }
  }

  lemma {:induction false} CallsInclude(log: seq<Callback>, reserved: nat, n: nat, p: nat)
    requires p < n <= |log| && log[p].freeFunc.Some?
    ensures Invocation(p + reserved, log[p]) in Calls(log, reserved, n)
  {
    if p < n - 1 {
      CallsInclude(log, reserved, n - 1, p);
    }
  }

  ghost predicate InOrder(calls: seq<Invocation>) {
    forall i, j :: 0 <= i < j < |calls| ==> calls[i].index < calls[j].index
  }

  lemma {:induction false} CallsAreExact(log: seq<Callback>, reserved: nat, n: nat)
    requires n <= |log|
    ensures InOrder(Calls(log, reserved, n))
    ensures forall c <- Calls(log, reserved, n) ::
              reserved <= c.index < reserved + n && c.callback == log[c.index - reserved] && c.callback.freeFunc.Some?
  {
    if n > 0 {
      CallsAreExact(log, reserved, n - 1);
      var earlier := Calls(log, reserved, n - 1);
      assert forall i :: 0 <= i < |earlier| ==> earlier[i] in earlier;
    }
  }

  /**
   A reader that loaded n runs each free function of the first n registrations once, in order: its calls
   have increasing indices, and are exactly those of registrations with a free function.
   */
  lemma ReaderRunsEachOnce(states: seq<State>, labels: seq<Label>, k: nat, t: nat, index: int, callback: Callback)
    requires IsRun(states, labels) && k < |states| && t < |states[k].threads| && states[k].threads[t].ReaderDone?
    ensures states[k].threads[t].n <= |states[k].mem.log|
    ensures var m, n, calls := states[k].mem, states[k].threads[t].n, states[k].threads[t].calls;
            && (forall i, j :: 0 <= i < j < |calls| ==> calls[i].index < calls[j].index)
            && (Invocation(index, callback) in calls <==>
                  && m.reserved <= index < m.reserved + n
                  && callback == m.log[index - m.reserved] && callback.freeFunc.Some?)
  {
    var m, n := states[k].mem, states[k].threads[t].n;
    ReaderSeesExactPrefix(states, labels, k, t);
    CallsAreExact(m.log, m.reserved, n);
    if m.reserved <= index < m.reserved + n && m.log[index - m.reserved].freeFunc.Some? {
      CallsInclude(m.log, m.reserved, n, index - m.reserved);
    }
  }

  lemma StepKeepsCallbacks(m: Mem, pc: Pc, op: Op, a: nat)
    requires a < |m.nodes|
    ensures a < |MemAfter(m, pc, op).nodes| && MemAfter(m, pc, op).nodes[a].callback == m.nodes[a].callback
  {
  }

  /** The node a registration allocates holds what its caller passed, from then on. */
  lemma {:induction false} CallbackStays(states: seq<State>, labels: seq<Label>, j: nat, k: nat)
    requires IsRun(states, labels) && j < k < |states| && labels[j].op.Register?
    ensures var a := |states[j].mem.nodes|;
            a < |states[k].mem.nodes| && states[k].mem.nodes[a].callback == labels[j].op.callback
    ensures states[j + 1].threads[labels[j].thread] == Locking(|states[j].mem.nodes|)
  {
    assert Next(states[j], labels[j], states[j + 1]);
    if j + 1 < k {
      CallbackStays(states, labels, j, k - 1);
      var s, l := states[k - 1], labels[k - 1];
      assert Next(s, l, states[k]);
      StepKeepsCallbacks(s.mem, s.threads[l.thread], l.op, |states[j].mem.nodes|);
    }
  }

  /**
   Real-time visibility: a registration that has returned its index before a reader loads `num_funcs`
   has its free function run by that reader, under that index.
   */
  lemma ReturnedIsVisited(states: seq<State>, labels: seq<Label>, t: nat, j: nat, k: nat, a: nat)
    requires IsRun(states, labels) && ReadsFrom(states, labels, t, j, k) && states[k].threads[t].ReaderDone?
    requires a in states[j].returned
    ensures a < |states[j].mem.nodes|
    ensures var index, callback := states[j].returned[a], states[j].mem.nodes[a].callback;
            callback.freeFunc.Some? ==> Invocation(index, callback) in states[k].threads[t].calls
  {
    var m, m' := states[j].mem, states[k].mem;
    RunKeepsInv(states, labels, j);
    IndicesArePositions(states, labels, j, a);
    var p := states[j].returned[a] - m.reserved;
    assert m.log[p] == m.nodes[m.chain[p]].callback;
    ReaderKeepsCount(states, labels, t, j, k);
    ReaderSeesExactPrefix(states, labels, k, t);
    LogGrows(states, labels, j, k);
    if m.log[p].freeFunc.Some? {
      CallsInclude(m'.log, m'.reserved, states[k].threads[t].n, p);
    }
  }

  /** The cell a thread's next step writes, among those readers follow. */
  ghost function Writes(m: Mem, pc: Pc): Option<Location> {
    if pc.Linking? then Some(LinkTarget(m)) else None
  }

  ghost function Reads(pc: Pc): Option<Location> {
    if (pc.ReaderVisit? && pc.i < pc.n) || pc.ReaderAdvance? then Some(pc.at) else None
  }

  /** The unsynchronised pointer reads never race with an append. */
  lemma NoDataRace(states: seq<State>, labels: seq<Label>, k: nat, writer: nat, reader: nat)
    requires IsRun(states, labels) && k < |states|
    requires writer < |states[k].threads| && reader < |states[k].threads|
    requires Writes(states[k].mem, states[k].threads[writer]).Some?
    ensures Writes(states[k].mem, states[k].threads[writer]) != Reads(states[k].threads[reader])
  {
    RunKeepsInv(states, labels, k);
    assert ThreadOk(states[k], writer) && ThreadOk(states[k], reader);
  }

  /** Every returned index is the registration's position past the reserved ones and fits an int. */
  lemma IndicesArePositions(states: seq<State>, labels: seq<Label>, k: nat, a: nat)
    requires IsRun(states, labels) && k < |states| && a in states[k].returned
    ensures var m, index := states[k].mem, states[k].returned[a];
            m.reserved <= index <= INT_MAX && index - m.reserved < m.numFuncs <= |m.chain|
            && m.chain[index - m.reserved] == a
  {
    RunKeepsInv(states, labels, k);
  }

  lemma IndicesAreDistinct(states: seq<State>, labels: seq<Label>, k: nat, a: nat, b: nat)
    requires IsRun(states, labels) && k < |states|
    requires a in states[k].returned && b in states[k].returned && a != b
    ensures states[k].returned[a] != states[k].returned[b]
  {
    IndicesArePositions(states, labels, k, a);
    IndicesArePositions(states, labels, k, b);
  }

  /** With no call in progress, the indices handed out are consecutive from num_reserved. */
  lemma IndicesAreConsecutive(states: seq<State>, labels: seq<Label>, k: nat, index: int)
    requires IsRun(states, labels) && k < |states|
    requires forall pc <- states[k].threads :: pc.Idle?
    ensures var s := states[k];
            (exists a :: a in s.returned && s.returned[a] == index)
            <==> s.mem.reserved <= index < s.mem.reserved + s.mem.numFuncs
  {
    var s := states[k];
    RunKeepsInv(states, labels, k);
    if a :| a in s.returned && s.returned[a] == index {
      IndicesArePositions(states, labels, k, a);
    }
    if s.mem.reserved <= index < s.mem.reserved + s.mem.numFuncs {
      var a := s.mem.chain[index - s.mem.reserved];
      assert forall t :: 0 <= t < |s.threads| ==> s.threads[t] in s.threads;
      assert !Registering(s.threads, a);
      assert a in s.returned && s.returned[a] == index;
    }
  }

  // ---- The debug assertion of CRYPTO_free_ex_data ----

  /** The assertion a reader makes on the count it loaded. */
  ghost predicate ReaderAssertion(m: Mem, n: nat) {
    n <= INT_MAX - m.reserved
  }

  /** Step i publishes the registration that gets the index. */
  ghost predicate Publishes(states: seq<State>, labels: seq<Label>, i: nat, index: int) {
    && i < |labels| && i < |states| && labels[i].thread < |states[i].threads|
    && var pc := states[i].threads[labels[i].thread];
    && pc.Publishing? && pc.n + states[i].mem.reserved == index
  }

  ghost predicate PublishedBefore(states: seq<State>, labels: seq<Label>, j: nat, index: int) {
    exists i: nat :: i < j && Publishes(states, labels, i, index)
  }

  /** One step moves the counter only if it publishes, and then by one. */
  lemma StepPublishes(states: seq<State>, labels: seq<Label>, i: nat)
    requires IsRun(states, labels) && i < |labels|
    ensures var m, m' := states[i].mem, states[i + 1].mem;
            if Publishes(states, labels, i, m.numFuncs + m.reserved) then m'.numFuncs == m.numFuncs + 1
            else m'.numFuncs == m.numFuncs
    ensures forall index :: Publishes(states, labels, i, index) ==>
              index == states[i].mem.numFuncs + states[i].mem.reserved
  {
    RunKeepsInv(states, labels, i);
    assert Next(states[i], labels[i], states[i + 1]);
    assert ThreadOk(states[i], labels[i].thread);
  }

  /** The counter covers an index exactly when the registration that gets it has been published. */
  lemma {:induction false} CountedIffPublished(states: seq<State>, labels: seq<Label>, j: nat, index: int)
    requires IsRun(states, labels) && j < |states| && states[0].mem.reserved <= index
    ensures states[j].mem.reserved == states[0].mem.reserved
    ensures index < states[j].mem.reserved + states[j].mem.numFuncs <==> PublishedBefore(states, labels, j, index)
  {
    LogGrows(states, labels, 0, j);
    if j > 0 {
      CountedIffPublished(states, labels, j - 1, index);
      LogGrows(states, labels, 0, j - 1);
      StepPublishes(states, labels, j - 1);
      assert PublishedBefore(states, labels, j, index) <==>
        PublishedBefore(states, labels, j - 1, index) || Publishes(states, labels, j - 1, index);
    }
  }

  /**
   The assertion holds exactly if the registration that owns index INT_MAX had not been published when
   the reader loaded the count.
   */
  lemma ReaderAssertionIff(states: seq<State>, labels: seq<Label>, t: nat, j: nat, k: nat)
    requires IsRun(states, labels) && ReadsFrom(states, labels, t, j, k)
    ensures ReaderAssertion(states[k].mem, states[k].threads[t].n) <==> !PublishedBefore(states, labels, j, INT_MAX)
  {
    ReaderKeepsCount(states, labels, t, j, k);
    LogGrows(states, labels, 0, j);
    LogGrows(states, labels, 0, k);
    CountedIffPublished(states, labels, j, INT_MAX);
  }

  ghost predicate SoloRun(states: seq<State>, labels: seq<Label>) {
    IsRun(states, labels) && |states[|states| - 1].threads| == 1
  }

  /** Extends a run of a single thread by one step, which is possible unless it waits for the lock. */
  lemma Advance(states: seq<State>, labels: seq<Label>, op: Op)
    returns (states': seq<State>, labels': seq<Label>)
    requires SoloRun(states, labels)
    requires var s := states[|states| - 1];
             (s.threads[0].Idle? <==> !op.Continue?) && (s.threads[0].Locking? ==> s.lock.None?)
    ensures SoloRun(states', labels') && |states'| == |states| + 1
    ensures Next(states[|states| - 1], Label(0, op), states'[|states|])
  {
    var s := states[|states| - 1];
    var pc := s.threads[0];
    var s' := State(
      MemAfter(s.mem, pc, op),
      if pc.Locking? then Some(0) else if pc.Unlocking? || pc.UnlockingFull? then None else s.lock,
      s.threads[0 := PcAfter(s.mem, pc, op)],
      if pc.Returning? then s.returned[pc.node := pc.n + s.mem.reserved] else s.returned);
    states', labels' := states + [s'], labels + [Label(0, op)];
    forall k | 0 <= k < |labels'|
      ensures Next(states'[k], labels'[k], states'[k + 1])
    {
      if k < |labels| {
        assert Next(states[k], labels[k], states[k + 1]);
      }
    }
  }

  /** A single thread can fill the registry up to index INT_MAX. */
  lemma {:induction false} Fill(reserved: nat, n: nat) returns (states: seq<State>, labels: seq<Label>)
    requires reserved <= 255 && n <= INT_MAX - reserved + 1
    ensures SoloRun(states, labels)
    ensures var s := states[|states| - 1];
            s.threads == [Idle] && s.lock.None? && s.mem.numFuncs == n && s.mem.reserved == reserved
    decreases n
  {
    if n == 0 {
      states, labels := [State(Mem([], None, None, 0, reserved, [], []), None, [Idle], map[])], [];
    } else {
      states, labels := Fill(reserved, n - 1);
      states, labels := Advance(states, labels, Register(Callback(0, 0, None)));
      states, labels := Advance(states, labels, Continue);
      states, labels := Advance(states, labels, Continue);
      states, labels := Advance(states, labels, Continue);
      RunKeepsInv(states, labels, |states| - 1);
      assert ThreadOk(states[|states| - 1], 0);
      states, labels := FinishRegistration(states, labels);
    }
  }

  lemma FinishRegistration(states: seq<State>, labels: seq<Label>)
    returns (states': seq<State>, labels': seq<Label>)
    requires SoloRun(states, labels)
    requires var s := states[|states| - 1];
             s.threads[0].Linking? && CanLink(s.mem, s.threads[0].node) && s.threads[0].n < INT_MAX + 1
    ensures SoloRun(states', labels')
    ensures var s, s' := states[|states| - 1], states'[|states'| - 1];
            s'.threads == [Idle] && s'.lock.None? && s'.mem.numFuncs == s.threads[0].n + 1
            && s'.mem.reserved == s.mem.reserved
  {
    states', labels' := Advance(states, labels, Continue);
    states', labels' := Advance(states', labels', Continue);
    states', labels' := Advance(states', labels', Continue);
    states', labels' := Advance(states', labels', Continue);
    states', labels' := Advance(states', labels', Continue);
  }

  /** So the assertion is not an invariant: some run reaches a reader that violates it. */
  lemma ReaderAssertionCanFail(reserved: nat) returns (states: seq<State>, labels: seq<Label>)
    requires reserved <= 255
    ensures SoloRun(states, labels) && states[|states| - 1].threads[0].ReaderVisit?
    ensures !ReaderAssertion(states[|states| - 1].mem, states[|states| - 1].threads[0].n)
  {
    states, labels := Fill(reserved, INT_MAX - reserved + 1);
    states, labels := Advance(states, labels, FreeObject);
    states, labels := Advance(states, labels, Continue);
  }
}
