// The cooperative scheduler on values: who runs, who waits in which order, and the
// state of every thread.

module RunQueue {
  import opened Words

  datatype ThreadState = New | Ready | Running | Blocked | Zombie

  const OK: int := 0
  const EINVAL: int := -1
  const ESTATE: int := -2
  const ESTACK: int := -3
  const ECORRUPT: int := -4

  datatype Sched<T> = Sched(current: T, idle: T, queue: seq<T>, state: map<T, ThreadState>)

  predicate Distinct<T(==)>(q: seq<T>) { forall i, j :: 0 <= i < j < |q| ==> q[i] != q[j] }

  /** Ready threads wait in the queue, each once; neither the current nor the idle thread does; and apart from
      the idle thread, which stays marked running while it is switched away from, only the current one runs. */
  ghost predicate Inv<T>(s: Sched<T>) {
    && s.current in s.state && s.idle in s.state
    && s.state[s.current] == Running && s.state[s.idle] == Running
    && Distinct(s.queue)
    && (forall t :: t in s.state ==> (t in s.queue <==> s.state[t] == Ready))
    && (forall t :: t in s.queue ==> t in s.state)
    && (forall t :: t in s.state && s.state[t] == Running ==> t == s.current || t == s.idle)
  }

  // ---------------------------------------------------------------- operations

  function InitSched<T>(boot: T): Sched<T> { Sched(boot, boot, [], map[boot := Running]) }

  const MIN_STACK: int := 4096    // MCSOS_MIN_KERNEL_STACK

  /** What mcsos_thread_prepare returns for an entry point and a stack. */
  function PrepareCode(entry: u64, stackBase: u64, stackSize: u64): int {
    if entry == 0 || stackBase == 0 then EINVAL
    else if stackSize < MIN_STACK || stackBase + stackSize >= TWO_64 then ESTACK
    else OK
  }

  /** mcsos_thread_prepare, when it is not refused. It does not look at the scheduler: whatever the thread was
      doing, it is new afterwards. */
  function Prepare<T>(s: Sched<T>, t: T): Sched<T> { s.(state := s.state[t := New]) }

  /** The states in which a thread can be prepared again without harm. */
  predicate CanPrepare(st: ThreadState) { st != Ready && st != Running }

  /** The states from which a thread that is not waiting can be enqueued. */
  predicate CanEnqueue(st: ThreadState) { st == New || st == Blocked }

  /** The states from which mcsos_sched_enqueue accepts a thread. */
  predicate AcceptsState(st: ThreadState) { CanEnqueue(st) || st == Ready }

  function Enqueue<T>(s: Sched<T>, t: T): Sched<T>
    requires t in s.state
  {
    s.(queue := s.queue + [t], state := s.state[t := Ready])
  }

  /** Give the processor to `next`: the old thread goes back to the queue if it was running and is not idle. */
  function SwitchTo<T(==)>(s: Sched<T>, next: T, rest: seq<T>): Sched<T>
    requires s.current in s.state
  {
    var back := s.state[s.current] == Running && s.current != s.idle;
    Sched(next, s.idle,
          if back then rest + [s.current] else rest,
          (if back then s.state[s.current := Ready] else s.state)[next := Running])
  }

  /** mcsos_sched_yield: the next thread is picked before the old one is queued again. */
  function Yield<T(==)>(s: Sched<T>): Sched<T>
    requires s.current in s.state
  {
    if |s.queue| == 0 then
      if s.current == s.idle then s.(state := s.state[s.current := Running]) else SwitchTo(s, s.idle, [])
    else SwitchTo(s, s.queue[0], s.queue[1..])
  }

  /** mcsos_thread_block_current, when it is not refused. */
  function Block<T(==)>(s: Sched<T>): Sched<T>
    requires s.current in s.state
  {
    Yield(s.(state := s.state[s.current := Blocked]))
  }

  // ---------------------------------------------------------------- preservation

  /** Preparing a thread keeps the invariant if and only if it is unknown, or neither waits nor runs. */
  lemma PrepareKeepsInvIff<T>(s: Sched<T>, t: T)
    requires Inv(s)
    ensures Inv(Prepare(s, t)) <==> t !in s.state || CanPrepare(s.state[t])
  {
    var p := Prepare(s, t);
    if t in s.state && !CanPrepare(s.state[t]) {
      assert p.state[t] == New;
      assert t in s.queue || t == s.current || t == s.idle;
    }
  }

  /** With two threads waiting, preparing the first again leaves a new thread in line. */
  lemma PrepareWaiting<T>(idle: T, a: T, b: T)
    requires a != b && idle !in {a, b}
    ensures var s := Enqueue(Enqueue(Prepare(Prepare(InitSched(idle), a), b), a), b);
            Inv(s) && s.queue == [a, b] && !Inv(Prepare(s, a))
  {
    var s := Enqueue(Enqueue(Prepare(Prepare(InitSched(idle), a), b), a), b);
    assert s.queue == [a, b] && s.queue[0] == a && s.queue[1] == b;
    PrepareKeepsInvIff(s, a);
  }

  lemma EnqueueKeepsInv<T>(s: Sched<T>, t: T)
    requires Inv(s) && t in s.state && CanEnqueue(s.state[t])
    ensures Inv(Enqueue(s, t))
  {
  }

  lemma SwitchKeepsInv<T>(s: Sched<T>, next: T, rest: seq<T>)
    requires s.current in s.state && s.idle in s.state && s.state[s.idle] == Running && next in s.state
    requires s.state[s.current] == Running || (s.state[s.current] == Blocked && s.current != s.idle)
    requires next != s.current && (next == s.idle || s.state[next] == Ready)
    requires Distinct(rest) && next !in rest && s.current !in rest
    requires forall t :: t in s.state && t != next ==> (t in rest <==> s.state[t] == Ready)
    requires forall t :: t in rest ==> t in s.state
    requires forall t :: t in s.state && s.state[t] == Running ==> t == s.current || t == s.idle
    ensures Inv(SwitchTo(s, next, rest))
  {
  }

  /** s is as Inv says, except that the current thread may just have been marked blocked. */
  ghost predicate Leaving<T>(s: Sched<T>, state: ThreadState) {
    && s.current in s.state && s.state[s.current] == state && Inv(s.(state := s.state[s.current := Running]))
    && (state == Running || (state == Blocked && s.current != s.idle))
  }

  lemma YieldFrom<T>(s: Sched<T>, state: ThreadState)
    requires Leaving(s, state)
    ensures Inv(Yield(s))
  {
    var r := s.(state := s.state[s.current := Running]);
    assert Inv(r);
    assert forall t :: t in r.state <==> t in s.state;
    assert forall t :: t in s.state && t != s.current ==> r.state[t] == s.state[t];
    if |s.queue| == 0 {
      if s.current != s.idle { SwitchKeepsInv(s, s.idle, []); }
    } else {
      var rest := s.queue[1..];
      assert s.queue == [s.queue[0]] + rest;
      assert s.queue[0] in r.state && r.state[s.queue[0]] == Ready;
      forall t | t in s.state && t != s.queue[0] ensures t in rest <==> s.state[t] == Ready {
        assert t in s.queue <==> r.state[t] == Ready;
      }
      SwitchKeepsInv(s, s.queue[0], rest);
    }
  }

  lemma YieldKeepsInv<T>(s: Sched<T>)
    requires Inv(s)
    ensures Inv(Yield(s))
  {
    assert s.state[s.current := Running] == s.state;
    YieldFrom(s, Running);
  }

  lemma BlockKeepsInv<T>(s: Sched<T>)
    requires Inv(s) && s.current != s.idle
    ensures Inv(Block(s))
  {
    var b := s.(state := s.state[s.current := Blocked]);
    assert b.state[s.current := Running] == s.state;
    YieldFrom(b, Blocked);
  }

  // ---------------------------------------------------------------- where the threads go

  /** The thread that runs after a switch: the first in line, or the idle thread. */
  function NextUp<T>(s: Sched<T>): T { if |s.queue| == 0 then s.idle else s.queue[0] }

  /** Those who still wait behind it. */
  function Behind<T>(s: Sched<T>): seq<T> { if |s.queue| == 0 then [] else s.queue[1..] }

  /** Between s and r the processor went from s.current to the next in line: that one runs, everybody behind it moved
      up, the old thread is in the given state, and nobody else's state changed. */
  ghost predicate HandedOn<T>(s: Sched<T>, r: Sched<T>, left: ThreadState) {
    && s.current in s.state && r.state.Keys == s.state.Keys && r.idle == s.idle
    && r.current == NextUp(s) && r.current in r.state && r.state[r.current] == Running
    && r.queue == Behind(s) + (if left == Ready then [s.current] else [])
    && (s.current != r.current ==> r.state[s.current] == left)
    && forall t :: t in s.state && t != s.current && t != r.current ==> r.state[t] == s.state[t]
  }

  /** Who yields goes to the end of the line and is ready; only the idle thread, which never waits, stays marked
      running. */
  lemma YieldHandsOn<T>(s: Sched<T>)
    requires Inv(s)
    ensures HandedOn(s, Yield(s), if s.current == s.idle then Running else Ready)
  {
    if |s.queue| > 0 { assert s.queue[0] in s.state && s.state[s.queue[0]] == Ready; }
  }

  /** Who blocks is blocked and leaves the line. */
  lemma BlockHandsOn<T>(s: Sched<T>)
    requires Inv(s) && s.current != s.idle
    ensures HandedOn(s, Block(s), Blocked) && s.current !in Block(s).queue && s.current != Block(s).current
  {
    if |s.queue| > 0 { assert s.queue[0] in s.state && s.state[s.queue[0]] == Ready; }
    assert s.current !in s.queue;
  }
}
