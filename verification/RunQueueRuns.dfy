// Whole runs of the scheduler on values: the queue invariant over every run, and
// bounded waiting.

module RunQueueRuns {
  import opened Words
  import opened RunQueue

  datatype Op<T> =
    | Create(t: T, entry: u64, stackBase: u64, stackSize: u64)
    | Admit(t: T)
    | Wake(t: T)
    | Tick
    | Relinquish
    | Sleep

  /** What each call returns. */
  function Code<T(==)>(s: Sched<T>, op: Op<T>): int {
    match op
    case Create(_, entry, stackBase, stackSize) => PrepareCode(entry, stackBase, stackSize)
    case Admit(t) => if t !in s.state then EINVAL else if AcceptsState(s.state[t]) then OK else ESTATE
    case Wake(t) => if t !in s.state then EINVAL else if s.state[t] == Blocked then OK else ESTATE
    case Tick => OK
    case Relinquish => OK
    case Sleep => if s.current == s.idle then ESTATE else OK
  }

  function Step<T(==)>(s: Sched<T>, op: Op<T>): Sched<T> {
    if Code(s, op) != OK || s.current !in s.state then s
    else match op
      case Create(t, _, _, _) => Prepare(s, t)
      case Admit(t) => Enqueue(s, t)
      case Wake(t) => Enqueue(s, t)
      case Tick => s
      case Relinquish => Yield(s)
      case Sleep => Block(s)
  }

  /** Callers do not enqueue a thread that is waiting already, nor prepare again one that waits or runs. */
  predicate Legal<T(==)>(s: Sched<T>, op: Op<T>) {
    && (op.Admit? && op.t in s.state ==> s.state[op.t] != Ready)
    && (op.Create? && op.t in s.state && Code(s, op) == OK ==> CanPrepare(s.state[op.t]))
  }

  function Run<T(==)>(s: Sched<T>, ops: seq<Op<T>>, n: nat): Sched<T>
    requires n <= |ops|
  {
    if n == 0 then s else Step(Run(s, ops, n - 1), ops[n-1])
  }

  predicate LegalAt<T(==)>(s: Sched<T>, ops: seq<Op<T>>, i: nat)
    requires i < |ops|
  {
    Legal(Run(s, ops, i), ops[i])
  }

  predicate LegalRun<T(==)>(s: Sched<T>, ops: seq<Op<T>>) {
    forall i :: 0 <= i < |ops| ==> LegalAt(s, ops, i)
  }

  lemma StepKeepsInv<T>(s: Sched<T>, op: Op<T>)
    requires Inv(s) && Legal(s, op)
    ensures Inv(Step(s, op))
  {
    if Code(s, op) == OK {
      match op
      case Create(t, _, _, _) => PrepareKeepsInvIff(s, t);
      case Admit(t) => EnqueueKeepsInv(s, t);
      case Wake(t) => EnqueueKeepsInv(s, t);
      case Tick =>
      case Relinquish => YieldKeepsInv(s);
      case Sleep => BlockKeepsInv(s);
    }
  }

  /** Every run keeps the queue invariant. */
  lemma {:induction false} RunKeepsInv<T>(s: Sched<T>, ops: seq<Op<T>>, n: nat)
    requires Inv(s) && LegalRun(s, ops) && n <= |ops|
    ensures Inv(Run(s, ops, n))
  {
    if n > 0 {
      RunKeepsInv(s, ops, n - 1);
      assert LegalAt(s, ops, n - 1);
      StepKeepsInv(Run(s, ops, n - 1), ops[n-1]);
    }
  }

  /** So every run from initialisation has it. */
  lemma InitRunKeepsInv<T>(boot: T, ops: seq<Op<T>>, n: nat)
    requires LegalRun(InitSched(boot), ops) && n <= |ops|
    ensures Inv(Run(InitSched(boot), ops, n))
  {
    RunKeepsInv(InitSched(boot), ops, n);
  }

  // ---------------------------------------------------------------- bounded waiting

  /** The call hands on the processor. */
  predicate Switches<T(==)>(s: Sched<T>, op: Op<T>) { op.Relinquish? || (op.Sleep? && s.current != s.idle) }

  /** How many of the calls [from, to) of the run do. */
  function SwitchCount<T(==)>(s: Sched<T>, ops: seq<Op<T>>, from: nat, to: nat): nat
    requires from <= to <= |ops|
  {
    if from == to then 0
    else SwitchCount(s, ops, from, to - 1) + if Switches(Run(s, ops, to - 1), ops[to-1]) then 1 else 0
  }

  /** What one call does to a waiting thread: a switch moves it one place up, or runs it if it was first; any other
      call leaves it where it is. */
  lemma StepMovesUp<T>(s: Sched<T>, op: Op<T>, i: nat)
    requires Inv(s) && Legal(s, op) && i < |s.queue|
    ensures var s' := Step(s, op);
            if !Switches(s, op) then i < |s'.queue| && s'.queue[i] == s.queue[i] && s'.current == s.current
            else if i == 0 then s'.current == s.queue[0]
            else i - 1 < |s'.queue| && s'.queue[i-1] == s.queue[i]
  {
  }

  /** Until the i-th switch has happened, a thread that was at position i is still waiting, that many places
      further up. */
  lemma {:induction false} StillWaiting<T>(s: Sched<T>, ops: seq<Op<T>>, from: nat, to: nat, i: nat)
    requires Inv(s) && LegalRun(s, ops) && from <= to <= |ops|
    requires i < |Run(s, ops, from).queue| && SwitchCount(s, ops, from, to) <= i
    ensures var place := i - SwitchCount(s, ops, from, to);
            place < |Run(s, ops, to).queue| && Run(s, ops, to).queue[place] == Run(s, ops, from).queue[i]
  {
    if from < to {
      StillWaiting(s, ops, from, to - 1, i);
      WaitOneCall(s, ops, to - 1, i - SwitchCount(s, ops, from, to - 1));
    }
  }

  lemma WaitOneCall<T>(s: Sched<T>, ops: seq<Op<T>>, n: nat, place: nat)
    requires Inv(s) && LegalRun(s, ops) && n < |ops| && place < |Run(s, ops, n).queue|
    ensures var t, s' := Run(s, ops, n).queue[place], Run(s, ops, n + 1);
            if !Switches(Run(s, ops, n), ops[n]) then place < |s'.queue| && s'.queue[place] == t
            else place > 0 ==> place - 1 < |s'.queue| && s'.queue[place-1] == t
  {
    RunKeepsInv(s, ops, n);
    assert LegalAt(s, ops, n);
    StepMovesUp(Run(s, ops, n), ops[n], place);
  }

  /** Bounded waiting: a thread at position i becomes current at exactly the (i+1)-th switch, whatever enqueues,
      wake-ups, creations and ticks come between. */
  lemma RunsAtItsTurn<T>(s: Sched<T>, ops: seq<Op<T>>, from: nat, turn: nat, i: nat)
    requires Inv(s) && LegalRun(s, ops) && from <= turn < |ops|
    requires i < |Run(s, ops, from).queue|
    requires SwitchCount(s, ops, from, turn) == i && Switches(Run(s, ops, turn), ops[turn])
    ensures Run(s, ops, turn + 1).current == Run(s, ops, from).queue[i]
    ensures forall m :: from <= m <= turn ==> Run(s, ops, m).current != Run(s, ops, from).queue[i]
  {
    var t := Run(s, ops, from).queue[i];
    forall m | from <= m <= turn ensures Run(s, ops, m).current != t {
      CountGrows(s, ops, from, m, turn);
      StillWaiting(s, ops, from, m, i);
      RunKeepsInv(s, ops, m);
      assert t in Run(s, ops, m).queue;
    }
    StillWaiting(s, ops, from, turn, i);
    RunKeepsInv(s, ops, turn);
    assert LegalAt(s, ops, turn);
    StepMovesUp(Run(s, ops, turn), ops[turn], 0);
  }

  lemma {:induction false} CountGrows<T>(s: Sched<T>, ops: seq<Op<T>>, from: nat, m: nat, to: nat)
    requires from <= m <= to <= |ops|
    ensures SwitchCount(s, ops, from, m) <= SwitchCount(s, ops, from, to)
  {
    if m < to { CountGrows(s, ops, from, m, to - 1); }
  }

  // ---------------------------------------------------------------- yielding and blocking

  /** A thread that yields while n others wait runs again at exactly the n-th switch after its own, or at the first if
      nobody waits, and not before. */
  lemma YieldsAndReturns<T>(s: Sched<T>, ops: seq<Op<T>>, n: nat, turn: nat)
    requires Inv(s) && LegalRun(s, ops) && n < turn < |ops| && ops[n] == Relinquish
    requires Run(s, ops, n).current != Run(s, ops, n).idle
    requires var others := |Run(s, ops, n).queue|;
             SwitchCount(s, ops, n + 1, turn) == if others == 0 then 0 else others - 1
    requires Switches(Run(s, ops, turn), ops[turn])
    ensures Run(s, ops, turn + 1).current == Run(s, ops, n).current
    ensures forall m :: n + 1 <= m <= turn ==> Run(s, ops, m).current != Run(s, ops, n).current
  {
    var a := Run(s, ops, n);
    RunKeepsInv(s, ops, n);
    YieldHandsOn(a);
    var b := Run(s, ops, n + 1);
    assert b == Yield(a);
    assert b.queue[|b.queue|-1] == a.current;
    RunsAtItsTurn(s, ops, n + 1, turn, |b.queue| - 1);
  }

  /** The call names thread t in a way that could bring it back. */
  predicate Revives<T(==)>(op: Op<T>, t: T) { (op.Create? || op.Admit? || op.Wake?) && op.t == t }

  lemma StepKeepsBlocked<T>(s: Sched<T>, op: Op<T>, t: T)
    requires Inv(s) && Legal(s, op) && t in s.state && s.state[t] == Blocked && !Revives(op, t)
    ensures t in Step(s, op).state && Step(s, op).state[t] == Blocked
  {
    assert t !in s.queue;
    if op.Relinquish? { YieldHandsOn(s); }
    if op.Sleep? && s.current != s.idle { BlockHandsOn(s); }
  }

  /** A blocked thread stays blocked, neither in line nor current, until a call prepares, enqueues or wakes it. */
  lemma {:induction false} StaysBlocked<T>(s: Sched<T>, ops: seq<Op<T>>, from: nat, to: nat, t: T)
    requires Inv(s) && LegalRun(s, ops) && from <= to <= |ops|
    requires t in Run(s, ops, from).state && Run(s, ops, from).state[t] == Blocked
    requires forall i :: from <= i < to ==> !Revives(ops[i], t)
    ensures var r := Run(s, ops, to); t in r.state && r.state[t] == Blocked && t !in r.queue && t != r.current
  {
    RunKeepsInv(s, ops, to);
    if from < to {
      StaysBlocked(s, ops, from, to - 1, t);
      RunKeepsInv(s, ops, to - 1);
      assert LegalAt(s, ops, to - 1);
      StepKeepsBlocked(Run(s, ops, to - 1), ops[to-1], t);
    }
  }

  /** So a thread that puts itself to sleep is out of the way until then, and waking it is accepted. */
  lemma SleepsUntilWoken<T>(s: Sched<T>, ops: seq<Op<T>>, n: nat, to: nat)
    requires Inv(s) && LegalRun(s, ops) && n < to <= |ops| && ops[n] == Sleep
    requires Run(s, ops, n).current != Run(s, ops, n).idle
    requires forall i :: n < i < to ==> !Revives(ops[i], Run(s, ops, n).current)
    ensures var t, r := Run(s, ops, n).current, Run(s, ops, to);
            && t in r.state && r.state[t] == Blocked && t !in r.queue && t != r.current
            && Code(r, Wake(t)) == OK && Step(r, Wake(t)).queue == r.queue + [t]
  {
    var a := Run(s, ops, n);
    RunKeepsInv(s, ops, n);
    BlockHandsOn(a);
    assert Run(s, ops, n + 1) == Block(a);
    StaysBlocked(s, ops, n + 1, to, a.current);
  }
}
