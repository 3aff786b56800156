// The cooperative scheduler: mcsos_thread.c as a class over linked thread objects.

module Scheduling {
  import opened Words
  import opened RunQueue
  import opened Threads

  /** Distinct members of a set are no more than it has. */
  lemma {:induction false} DistinctSize<T>(q: seq<T>, s: set<T>)
    requires Distinct(q) && forall t :: t in q ==> t in s
    ensures |q| <= |s|
  {
    if |q| > 0 {
      var p, t := q[..|q|-1], q[|q|-1];
      forall u | u in p ensures u in s - {t} {}
      DistinctSize(p, s - {t});
    }
  }

  /** The first waiting thread is neither the current thread nor waiting twice; idle does not wait. */
  lemma NextIsOther(s: Sched<Thread>, state: ThreadState)
    requires RunQueue.Leaving(s, state)
    ensures s.idle in s.state && Distinct(s.queue) && s.current !in s.queue && s.idle !in s.queue
    ensures |s.queue| > 0 ==> s.queue[0] in s.state && s.queue[0] !in s.queue[1..]
  {
    var r := s.(state := s.state[s.current := Running]);
    assert Inv(r);
    assert s.idle in r.state && s.current in r.state && forall t :: t in r.state <==> t in s.state;
    if |s.queue| > 0 { assert s.queue[0] in r.state; }
  }

  class Scheduler {
    var current: Thread?
    var idle: Thread?
    var readyHead: Thread?
    var readyTail: Thread?
    var runnableCount: u64
    var contextSwitches: u64
    var ticks: u64
    var initialized: bool
    ghost var model: Sched<Thread>      // what the fields and the thread objects represent
    ghost var threads: set<Thread>      // the threads that have been prepared

    /** The run queue is exactly q: head, tail, links and counter agree. */
    ghost predicate QueueIs(q: seq<Thread>)
      reads this, q
    {
      readyHead == First(q) && readyTail == Last(q) && runnableCount == |q| && Linked(q, null)
    }

    /** The thread objects carry the states of the model. */
    ghost predicate StatesAgree()
      reads this, threads
    {
      && model.state.Keys == threads && |threads| < TWO_64
      && forall t :: t in threads ==> t.magic == THREAD_MAGIC && t.state == model.state[t]
    }

    ghost predicate Valid()
      reads this, threads
    {
      && initialized && current == model.current && idle == model.idle
      && StatesAgree() && Inv(model)
      && QueueIs(model.queue)
    }

    /** mcsos_scheduler_init */
    constructor (boot: Thread)
      modifies boot
      ensures Valid() && model == InitSched(boot) && threads == {boot}
      ensures contextSwitches == 0 && ticks == 0
    {
      current, idle, readyHead, readyTail := boot, boot, null, null;
      runnableCount, contextSwitches, ticks, initialized := 0, 0, 0, true;
      model, threads := InitSched(boot), {boot};
      new;
      boot.magic, boot.state, boot.next := THREAD_MAGIC, Running, null;
      boot.switches, boot.ticks, boot.rsp := 0, 0, 0;
    }

    // -------------------------------------------------------------- validation

    /** The list that mcsos_sched_validate accepts. */
    ghost predicate Accepts(q: seq<Thread>)
      reads this, q
    {
      QueueIs(q) && forall t :: t in q ==> t.magic == THREAD_MAGIC && t.state == Ready && t != current
    }

    ghost predicate Walked(xs: seq<Thread>, cursor: Thread?)
      reads this, xs
    {
      && Linked(xs, cursor) && (if |xs| > 0 then First(xs) == readyHead else cursor == readyHead)
      && forall t :: t in xs ==> t.magic == THREAD_MAGIC && t.state == Ready && t != current
    }

    /** mcsos_sched_validate, on any heap: it terminates, on cyclic lists too, and says OK exactly when the list is
        finite, ends at the tail, has as many threads as counted, and holds only valid ready threads other than the
        current one. (At the largest possible count the limit wraps and nothing is accepted.) */
    method Validate() returns (code: int)
      ensures code == OK <==>
                initialized && ValidThread(current) && runnableCount < MAX_64 && exists q :: Accepts(q)
      ensures code == OK ==> exists q: seq<Thread> :: QueueIs(q) && forall t :: t in q ==>
                t.magic == THREAD_MAGIC && t.state == ThreadState.Ready && t != current
      ensures code in {OK, EINVAL, ECORRUPT}
    {
      if !initialized || !ValidThread(current) {
        return EINVAL;
      }
      var count, cursor, last: Thread? := 0, readyHead, null;
      ghost var xs: seq<Thread> := [];
      while cursor != null
        invariant count == |xs| && last == Last(xs) && Walked(xs, cursor)
        invariant count > 0 ==> count <= Bump(runnableCount)
        decreases runnableCount + 2 - count
      {
        if !ValidThread(cursor) || cursor.state != Ready || cursor == current {
          forall q ensures !Accepts(q) { RejectNode(xs, cursor, q); }
          return ECORRUPT;
        }
        ExtendWalk(xs, cursor);
        xs := xs + [cursor];
        last := cursor;
        cursor := cursor.next;
        count := count + 1;
        if count > Bump(runnableCount) {
          forall q | runnableCount < MAX_64 ensures !Accepts(q) { LongerThan(xs, cursor, q); }
          return ECORRUPT;
        }
      }
      forall q ensures Accepts(q) ==> q == xs { WholeList(xs, q); }
      if last != readyTail {
        return ECORRUPT;
      }
      if count != runnableCount {
        return ECORRUPT;
      }
      assert Accepts(xs);
      return OK;
    }

    lemma RejectNode(xs: seq<Thread>, cursor: Thread, q: seq<Thread>)
      requires Walked(xs, cursor)
      requires !ValidThread(cursor) || cursor.state != Ready || cursor == current
      ensures !Accepts(q)
    {
      if Accepts(q) {
        NextInList(xs, cursor, q);
      }
    }

    lemma LongerThan(xs: seq<Thread>, cursor: Thread?, q: seq<Thread>)
      requires Walked(xs, cursor) && |xs| > runnableCount
      ensures !Accepts(q)
    {
      if Accepts(q) { NextInList(xs, cursor, q); }
    }

    lemma WholeList(xs: seq<Thread>, q: seq<Thread>)
      requires Walked(xs, null)
      ensures Accepts(q) ==> q == xs
    {
      if Accepts(q) { NextInList(xs, null, q); }
    }

    lemma ExtendWalk(xs: seq<Thread>, cursor: Thread)
      requires Walked(xs, cursor) && ValidThread(cursor) && cursor.state == Ready && cursor != current
      ensures Walked(xs + [cursor], cursor.next)
    {
      var ys := xs + [cursor];
      forall i | 0 <= i < |ys| ensures Follows(ys, i, cursor.next) {
        if i < |xs| { assert Follows(xs, i, cursor); }
      }
    }

    // -------------------------------------------------------------- the queue

    /** Append t, which is not in the queue q, to the list. */
    method Append(t: Thread, ghost q: seq<Thread>)
      requires QueueIs(q) && t !in q && Distinct(q) && |q| < MAX_64
      modifies this`readyHead, this`readyTail, this`runnableCount, t`next, q`next
      ensures QueueIs(q + [t])
    {
      t.next := null;
      if readyTail == null {
        readyHead := t;
        readyTail := t;
      } else {
        readyTail.next := t;
        readyTail := t;
      }
      runnableCount := Bump(runnableCount);
      ghost var q' := q + [t];
      forall i | 0 <= i < |q'| ensures Follows(q', i, null) {
        if i < |q| { assert old(Follows(q, i, null)); }
      }
    }

    /** Take the first thread off the list. */
    method PopFirst(ghost q: seq<Thread>) returns (t: Thread)
      requires QueueIs(q) && |q| > 0 && Distinct(q)
      modifies this`readyHead, this`readyTail, this`runnableCount, q`next
      ensures t == q[0] && QueueIs(q[1..])
    {
      t := readyHead;
      assert Follows(q, 0, null);
      readyHead := t.next;
      if readyHead == null {
        readyTail := null;
      }
      t.next := null;
      if runnableCount > 0 {
        runnableCount := runnableCount - 1;
      }
      ghost var q' := q[1..];
      forall i | 0 <= i < |q'| ensures Follows(q', i, null) {
        assert old(Follows(q, i + 1, null));
      }
    }

    /** What mcsos_sched_enqueue returns: it accepts new and blocked threads, and ready ones too. */
    ghost function EnqueueCode(t: Thread?): int
      reads t
    {
      if !ValidThread(t) then EINVAL else if AcceptsState(t.state) then OK else ESTATE
    }

    /** mcsos_sched_enqueue. A ready thread is accepted although it is waiting already; the list is well formed
        afterwards if and only if the thread was not ready. */
    method Enqueue(t: Thread?) returns (code: int)
      requires Valid() && (ValidThread(t) ==> t in threads)
      modifies this, threads
      ensures threads == old(threads) && code == old(EnqueueCode(t))
      ensures code == EINVAL <==> !old(ValidThread(t))
      ensures code == OK <==> old(ValidThread(t)) && old(t.state) in {New, ThreadState.Ready, ThreadState.Blocked}
      ensures code == OK && old(t.state) != Ready ==> t.state == Ready && readyTail == t
      ensures forall u :: u in threads && u != t ==> u.state == old(u.state)
      ensures code != OK ==> Valid() && model == old(model)
      ensures code == OK && old(t.state) != Ready ==> Valid() && model == RunQueue.Enqueue(old(model), t)
      ensures code == OK && old(t.state) == Ready ==>
                (forall q :: !QueueIs(q)) && exists k :: AppendedTwice(old(model).queue, k)
    {
      if !initialized || !ValidThread(t) {
        return EINVAL;
      }
      if t.state != New && t.state != Ready && t.state != Blocked {
        return ESTATE;
      }
      if t.state == Ready {
        AppendAgain(t);
      } else {
        AppendNew(t);
      }
      return OK;
    }

    /** The stores of mcsos_sched_enqueue on a thread that is not waiting. */
    method AppendNew(t: Thread)
      requires Valid() && t in threads && CanEnqueue(t.state)
      modifies this`readyHead, this`readyTail, this`runnableCount, this`model, threads
      ensures Valid() && model == RunQueue.Enqueue(old(model), t)
      ensures forall u :: u in threads && u != t ==> u.state == old(u.state)
    {
      EnqueueKeepsInv(model, t);
      Requeue(t, model.queue);
      model := model.(queue := model.queue + [t]);
    }

    /** The same stores on a thread that is waiting. (The tail is then not null.) */
    method AppendAgain(t: Thread)
      requires Valid() && t in threads && t.state == Ready
      modifies this`readyTail, this`runnableCount, threads`next
      ensures forall q :: !QueueIs(q)
      ensures exists k :: AppendedTwice(old(model).queue, k)
    {
      ValidIsAccepted();
      ghost var q0 := model.queue;
      ghost var k :| 0 <= k < |q0| && q0[k] == t;
      assert forall i :: 0 <= i < |q0| ==> Follows(q0, i, null);
      t.next := null;
      readyTail.next := t;
      readyTail := t;
      runnableCount := Bump(runnableCount);
      assert AppendedTwice(q0, k) by {
        forall i | 0 <= i < |q0| - 1 && i != k ensures q0[i].next == q0[i+1] { assert old(Follows(q0, i, null)); }
      }
      forall q ensures !QueueIs(q) { AppendedTwiceIsBroken(q0, k, q); }
    }

    // -------------------------------------------------------------- switching

    /** As Valid(), except that the current thread may just have been marked blocked. */
    ghost predicate Leaving(state: ThreadState)
      reads this, threads
    {
      && initialized && current == model.current && idle == model.idle
      && StatesAgree() && RunQueue.Leaving(model, state)
      && (forall t :: t in model.queue ==> t in threads) && QueueIs(model.queue)
    }

    /** mcsos_sched_pick_next: the first waiting thread, or the idle thread. */
    method PickNext(ghost q: seq<Thread>) returns (t: Thread?)
      requires QueueIs(q) && Distinct(q) && initialized
      modifies this`readyHead, this`readyTail, this`runnableCount, q`next
      ensures |q| == 0 ==> t == idle && QueueIs([])
      ensures |q| > 0 ==> t == q[0] && QueueIs(q[1..])
    {
      if readyHead == null {
        return idle;
      }
      t := PopFirst(q);
    }

    /** The effect of mcsos_sched_enqueue on a thread that is not queued: mark it ready and append it. */
    method Requeue(t: Thread, ghost q: seq<Thread>)
      requires StatesAgree() && t in threads && (forall u :: u in q ==> u in threads)
      requires QueueIs(q) && Distinct(q) && t !in q
      modifies this`readyHead, this`readyTail, this`runnableCount, this`model, t`state, t`next, q`next
      ensures QueueIs(q + [t]) && StatesAgree()
      ensures model == old(model).(state := old(model).state[t := Ready])
    {
      DistinctSize(q + [t], threads);
      t.state := Ready;
      Append(t, q);
      model := model.(state := model.state[t := Ready]);
    }

    /** Links survive any change that leaves the `next` fields alone. */
    twostate lemma LinksKept(q: seq<Thread>)
      requires old(QueueIs(q)) && readyHead == old(readyHead) && readyTail == old(readyTail)
      requires runnableCount == old(runnableCount) && forall t :: t in q ==> t.next == old(t.next)
      ensures QueueIs(q)
    {
      forall i | 0 <= i < |q| ensures Follows(q, i, null) {
        assert old(Follows(q, i, null));
        assert q[i] in q;
      }
    }

    /** Both threads of a switch have counted it. */
    twostate predicate Counted(a: Thread, b: Thread)
      reads a, b
    {
      a.switches == Bump(old(a.switches)) && b.switches == Bump(old(b.switches))
    }

    /** Make `next` the current thread and count the switch. */
    method Activate(oldThread: Thread, next: Thread, ghost q: seq<Thread>)
      requires StatesAgree() && oldThread in threads && next in threads && oldThread != next && QueueIs(q)
      modifies this`current, this`contextSwitches, this`model, next`state, next`switches, oldThread`switches
      ensures StatesAgree() && QueueIs(q) && current == next
      ensures model == Sched(next, old(model).idle, q, old(model).state[next := Running])
      ensures contextSwitches == Bump(old(contextSwitches))
      ensures Counted(oldThread, next)
    {
      next.state := Running;
      current := next;
      oldThread.switches := Bump(oldThread.switches);
      next.switches := Bump(next.switches);
      contextSwitches := Bump(contextSwitches);
      model := Sched(next, model.idle, q, model.state[next := Running]);
      LinksKept(q);
    }

    /** The switch when the old thread is running and not idle: it goes back to the queue first. */
    method SwitchBack(oldThread: Thread, next: Thread, ghost rest: seq<Thread>)
      requires StatesAgree() && oldThread in threads && next in threads && oldThread != next && oldThread !in rest
      requires (forall t :: t in rest ==> t in threads) && QueueIs(rest) && Distinct(rest)
      modifies this`readyHead, this`readyTail, this`runnableCount, this`current, this`contextSwitches, this`model
      modifies threads
      ensures StatesAgree() && current == next && contextSwitches == Bump(old(contextSwitches))
      ensures model == old(model).(current := next, queue := rest + [oldThread],
                                   state := old(model).state[oldThread := Ready][next := Running])
      ensures QueueIs(rest + [oldThread]) && Counted(oldThread, next)
    {
      Requeue(oldThread, rest);
      Activate(oldThread, next, rest + [oldThread]);
    }

    /** The switch itself: the old thread goes back to the queue if it was running and is not idle. */
    method SwitchThreads(next: Thread, ghost rest: seq<Thread>)
      requires current == model.current && idle == model.idle && StatesAgree()
      requires current in threads && next in threads && next != current && current !in rest
      requires (forall t :: t in rest ==> t in threads) && QueueIs(rest) && Distinct(rest)
      modifies this`readyHead, this`readyTail, this`runnableCount, this`current, this`contextSwitches, this`model
      modifies threads
      ensures current == next && StatesAgree() && model == SwitchTo(old(model), next, rest)
      ensures QueueIs(model.queue) && contextSwitches == Bump(old(contextSwitches)) && Counted(old(current), next)
    {
      if current.state == Running && current != idle {
        SwitchBack(current, next, rest);
      } else {
        Activate(current, next, rest);
      }
    }

    /** Nobody waits and the idle thread yields to itself. */
    method StayIdle()
      requires Leaving(Running) && current == idle && |model.queue| == 0
      modifies this`model, current`state
      ensures Valid() && model == RunQueue.Yield(old(model))
    {
      current.state := Running;
      model := model.(state := model.state[current := Running]);
      LinksKept(model.queue);
    }

    /** Somebody else is next: the first waiting thread, or idle when nobody waits. */
    method HandOver(next: Thread, ghost q: seq<Thread>, ghost state: ThreadState)
      requires initialized && current == model.current && idle == model.idle && StatesAgree()
      requires RunQueue.Leaving(model, state) && q == model.queue && (forall t :: t in q ==> t in threads)
      requires if |q| == 0 then next == idle && current != idle && QueueIs([]) else next == q[0] && QueueIs(q[1..])
      modifies this`readyHead, this`readyTail, this`runnableCount, this`current, this`contextSwitches, this`model
      modifies threads
      ensures Valid() && model == RunQueue.Yield(old(model)) && current == next != old(current)
      ensures contextSwitches == Bump(old(contextSwitches)) && Counted(old(current), next)
    {
      assert Inv(RunQueue.Yield(model)) by { RunQueue.YieldFrom(model, state); }
      NextIsOther(model, state);
      SwitchThreads(next, if |q| == 0 then [] else q[1..]);
    }

    /** mcsos_sched_yield, also as the tail of mcsos_thread_block_current. */
    method YieldFrom(ghost state: ThreadState) returns (code: int)
      requires Leaving(state)
      modifies this, threads
      ensures Valid() && threads == old(threads) && code == OK
      ensures model == RunQueue.Yield(old(model))
      ensures contextSwitches == if current == old(current) then old(contextSwitches) else Bump(old(contextSwitches))
      ensures current != old(current) ==> Counted(old(current), current)
    {
      if !initialized || !ValidThread(current) {
        return EINVAL;
      }
      ghost var q := model.queue;
      NextIsOther(model, state);
      var next := PickNext(q);
      if !ValidThread(next) {
        return ECORRUPT;
      }
      if next == current {
        StayIdle();
      } else {
        HandOver(next, q, state);
      }
      return OK;
    }

    /** mcsos_sched_yield */
    method Yield() returns (code: int)
      requires Valid()
      modifies this, threads
      ensures Valid() && threads == old(threads) && code == OK
      ensures model == RunQueue.Yield(old(model))
      ensures contextSwitches == if current == old(current) then old(contextSwitches) else Bump(old(contextSwitches))
      ensures current != old(current) ==> Counted(old(current), current)
      ensures current == old(if readyHead == null then idle else readyHead) && current.state == ThreadState.Running
      ensures old(current) != idle ==> old(current).state == ThreadState.Ready && readyTail == old(current)
      ensures forall t :: t in threads && t != old(current) && t != current ==> t.state == old(t.state)
    {
      assert model.state[model.current := Running] == model.state;
      YieldHandsOn(model);
      code := YieldFrom(Running);
      Shows(old(model), if old(current == idle) then Running else Ready);
    }

    /** What the thread objects show once the processor was handed on. */
    lemma Shows(s: Sched<Thread>, left: ThreadState)
      requires Valid() && HandedOn(s, model, left)
      ensures idle == s.idle && current == NextUp(s) && current.state == ThreadState.Running
      ensures current != s.current ==> s.current in threads && s.current.state == left
      ensures left == Ready ==> readyTail == s.current
      ensures forall t :: t in threads && t != s.current && t != current ==> t in s.state && t.state == s.state[t]
    {
    }

    /** mcsos_thread_block_current: refused to the idle thread. */
    method BlockCurrent() returns (code: int)
      requires Valid()
      modifies this, threads
      ensures Valid() && threads == old(threads)
      ensures code == if old(model.current == model.idle) then ESTATE else OK
      ensures code == OK ==> contextSwitches == Bump(old(contextSwitches)) && Counted(old(current), current)
      ensures code == OK ==> current == old(if readyHead == null then idle else readyHead)
      ensures code == OK ==> current.state == ThreadState.Running && old(current).state == ThreadState.Blocked
      ensures code == OK ==> old(current) !in model.queue
      ensures code == OK ==> runnableCount == old(if readyHead == null then 0 else runnableCount - 1)
      ensures forall t :: t in threads && t != old(current) && t != current ==> t.state == old(t.state)
      ensures model == if code == OK then Block(old(model)) else old(model)
    {
      if !initialized || !ValidThread(current) {
        return EINVAL;
      }
      if current == idle {
        return ESTATE;
      }
      BlockHandsOn(model);
      MarkBlocked();
      code := YieldFrom(Blocked);
      Shows(old(model), Blocked);
    }

    method MarkBlocked()
      requires Valid() && current != idle
      modifies this`model, current`state
      ensures Leaving(Blocked)
      ensures model == old(model).(state := old(model).state[model.current := Blocked])
    {
      current.state := Blocked;
      model := model.(state := model.state[current := Blocked]);
      assert model.state[model.current := Running] == old(model).state;
      LinksKept(model.queue);
    }

    /** mcsos_thread_mark_ready wakes blocked threads only. */
    method MarkReady(t: Thread?) returns (code: int)
      requires Valid() && (ValidThread(t) ==> t in threads)
      modifies this, threads
      ensures Valid() && threads == old(threads)
      ensures code == if !old(ValidThread(t)) then EINVAL else if old(t.state) == Blocked then OK else ESTATE
      ensures model == if code == OK then RunQueue.Enqueue(old(model), t) else old(model)
    {
      if !ValidThread(t) {
        return EINVAL;
      }
      if t.state != Blocked {
        return ESTATE;
      }
      code := Enqueue(t);
    }

    /** mcsos_sched_tick counts, and changes nothing else. */
    method Tick() returns (code: int)
      requires Valid()
      modifies this`ticks, current`ticks
      ensures Valid() && code == OK && ticks == Bump(old(ticks)) && current.ticks == Bump(old(current.ticks))
    {
      if !initialized || !ValidThread(current) {
        return EINVAL;
      }
      ticks := Bump(ticks);
      current.ticks := Bump(current.ticks);
      LinksKept(model.queue);
      return OK;
    }

    /** mcsos_sched_ready_count agrees with the counter and with the number of ready threads in line. */
    method ReadyCount() returns (n: int)
      requires Valid()
      ensures n == |model.queue| == runnableCount
    {
      if !initialized {
        return 0;
      }
      n := 0;
      var cursor := readyHead;
      while cursor != null
        invariant 0 <= n <= |model.queue|
        invariant cursor == if n < |model.queue| then model.queue[n] else null
        decreases |model.queue| - n
      {
        assert Follows(model.queue, n, null);
        n := n + 1;
        cursor := cursor.next;
      }
    }

    // -------------------------------------------------------------- preparing threads

    /** mcsos_thread_prepare on any thread. The scheduler is in order afterwards if and only if the thread was unknown
        to it, or neither waited nor ran; mcsos_sched_validate notices only if it waited. */
    method Create(t: Thread, entry: u64, stackBase: u64, stackSize: u64) returns (code: int)
      requires Valid() && |threads + {t}| < TWO_64
      modifies this`threads, this`model, t
      ensures code == PrepareCode(entry, stackBase, stackSize)
      ensures code != OK ==> Valid() && model == old(model) && threads == old(threads) && unchanged(t)
      ensures code == OK ==> model == Prepare(old(model), t) && threads == old(threads) + {t}
      ensures code == OK ==> (Valid() <==> t !in old(threads) || CanPrepare(old(t.state)))
      ensures code == OK && !(t in old(threads) && old(t.state) == Ready) ==> Accepts(model.queue)
      ensures code == OK && t in old(threads) && old(t.state) == Ready ==> exists k :: CutShort(model.queue, k)
    {
      code := t.Prepare(entry, stackBase, stackSize);
      if code != OK {
        return;
      }
      forall i | 0 <= i < |model.queue| && model.queue[i] != t ensures Follows(model.queue, i, null) {
        assert old(Follows(model.queue, i, null));
      }
      NotePrepared(t);
    }

    /** The scheduler's view follows a thread that was just prepared. */
    ghost method NotePrepared(t: Thread)
      requires Inv(model) && InOrderBut(t) && |threads + {t}| < TWO_64
      requires t.magic == THREAD_MAGIC && t.state == New && t.next == null
      modifies this`threads, this`model
      ensures model == Prepare(old(model), t) && threads == old(threads) + {t}
      ensures Valid() <==> t !in old(threads) || CanPrepare(old(model).state[t])
      ensures if t in old(threads) && old(model).state[t] == Ready then exists k :: CutShort(model.queue, k)
              else Accepts(model.queue)
    {
      threads := threads + {t};
      model := Prepare(model, t);
      AfterPrepare(old(model), t);
    }

    /** The queue is q, except that t may have lost its link. */
    ghost predicate QueueIsBut(q: seq<Thread>, t: Thread)
      reads this, q
    {
      && readyHead == First(q) && readyTail == Last(q) && runnableCount == |q|
      && forall i :: 0 <= i < |q| && q[i] != t ==> Follows(q, i, null)
    }

    /** Everything is in order except for t, which was just prepared. */
    ghost predicate InOrderBut(t: Thread)
      reads this, threads, model.queue
    {
      && initialized && current == model.current && idle == model.idle && model.state.Keys == threads
      && (forall u :: u in threads && u != t ==> u.magic == THREAD_MAGIC && u.state == model.state[u])
      && QueueIsBut(model.queue, t)
    }

    /** What is left in order once the scheduler's view follows. */
    lemma AfterPrepare(before: Sched<Thread>, t: Thread)
      requires Inv(before) && model == Prepare(before, t) && InOrderBut(t) && |threads| < TWO_64
      requires t.magic == THREAD_MAGIC && t.state == New && t.next == null
      ensures Valid() <==> t !in before.state || CanPrepare(before.state[t])
      ensures if t in before.state && before.state[t] == Ready then exists k :: CutShort(model.queue, k)
              else Accepts(model.queue)
    {
      PrepareKeepsInvIff(before, t);
      assert t in before.queue <==> t in before.state && before.state[t] == Ready;
      if t in before.queue {
        CutBehind(model.queue, t);
      } else {
        Spared(before, t);
      }
    }

    lemma Spared(before: Sched<Thread>, t: Thread)
      requires Inv(before) && model == Prepare(before, t) && InOrderBut(t) && t !in before.queue
      ensures Accepts(model.queue)
    {
      forall u | u in before.queue ensures u.magic == THREAD_MAGIC && u.state == Ready && u != current {
        assert u in before.state && before.state[u] == Ready;
      }
    }

    /** The list of q ends early, at the thread in place k, which is not ready. */
    ghost predicate CutShort(q: seq<Thread>, k: nat)
      reads this, q
    {
      k < |q| && readyHead == q[0] && Linked(q[..k+1], null) && q[k].state != Ready
    }

    lemma CutBehind(q: seq<Thread>, t: Thread)
      requires QueueIsBut(q, t) && Distinct(q) && t in q && t.next == null && t.state != Ready
      ensures exists k :: CutShort(q, k)
    {
      var k :| 0 <= k < |q| && q[k] == t;
      var xs := q[..k+1];
      forall i | 0 <= i < |xs| ensures Follows(xs, i, null) {
        if i < k { assert Follows(q, i, null); }
      }
      assert CutShort(q, k);
    }

    /** Then there is no list that mcsos_sched_validate accepts. */
    lemma CutShortIsRefused(q: seq<Thread>, k: nat, q': seq<Thread>)
      requires CutShort(q, k)
      ensures !Accepts(q')
    {
      if Accepts(q') {
        NextInList(q[..k+1], null, q');
      }
    }

    /** A valid state is one that the validator accepts. */
    lemma ValidIsAccepted()
      requires Valid()
      ensures ValidThread(current) && Accepts(model.queue) && runnableCount < MAX_64
    {
      DistinctSize(model.queue + [current], threads);
    }

    // -------------------------------------------------------------- enqueueing twice

    /** The list after a thread at place k of q0 was appended again: cut short behind it, or looped at its end. */
    ghost predicate AppendedTwice(q0: seq<Thread>, k: nat)
      reads this, q0
    {
      && k < |q0| && readyHead == q0[0] && readyTail == q0[k] && runnableCount == |q0| + 1
      && (forall i :: 0 <= i < |q0| - 1 && i != k ==> q0[i].next == q0[i+1])
      && q0[|q0|-1].next == q0[k]
      && (k < |q0| - 1 ==> q0[k].next == null)
    }

    lemma AppendedTwiceIsBroken(q0: seq<Thread>, k: nat, q: seq<Thread>)
      requires AppendedTwice(q0, k)
      ensures !QueueIs(q)
    {
      var xs, end := q0[..k+1], if k < |q0| - 1 then null else q0[k];
      if QueueIs(q) {
        forall i | 0 <= i < |xs| ensures Follows(xs, i, end) {}
        assert Follows(q, |q| - 1, null);
        NextInList(xs, end, q);
      }
    }
  }

  /** A scheduler with one new thread. */
  method OneNew(boot: Thread, t: Thread, stackBase: u64, stackSize: u64) returns (sched: Scheduler)
    requires boot != t && PrepareCode(1, stackBase, stackSize) == OK
    modifies boot, t
    ensures sched.Valid() && fresh(sched) && sched.threads == {boot, t} && t.state == New
  {
    sched := new Scheduler(boot);
    var code := sched.Create(t, 1, stackBase, stackSize);
  }

  /** A scheduler with one thread waiting. */
  method OneWaiting(boot: Thread, t: Thread, stackBase: u64, stackSize: u64) returns (sched: Scheduler)
    requires boot != t && PrepareCode(1, stackBase, stackSize) == OK
    modifies boot, t
    ensures sched.Valid() && fresh(sched) && sched.threads == {boot, t} && t.state == Ready
  {
    sched := OneNew(boot, t, stackBase, stackSize);
    var code := sched.Enqueue(t);
  }

  /** A thread enqueued twice in a row: the call is accepted, and the validator refuses the list. */
  method EnqueueTwice(boot: Thread, t: Thread, stackBase: u64, stackSize: u64) returns (code: int, verdict: int)
    requires boot != t && PrepareCode(1, stackBase, stackSize) == OK
    modifies boot, t
    ensures code == OK && verdict != OK
  {
    var sched := OneWaiting(boot, t, stackBase, stackSize);
    ghost var q := sched.model.queue;
    code := sched.Enqueue(t);
    ghost var k :| sched.AppendedTwice(q, k);
    verdict := sched.Validate();
    forall q' ensures !sched.QueueIs(q') { sched.AppendedTwiceIsBroken(q, k, q'); }
  }

  /** A thread prepared again while it waits. */
  method PrepareTwice(boot: Thread, t: Thread, stackBase: u64, stackSize: u64) returns (code: int, verdict: int)
    requires boot != t && PrepareCode(1, stackBase, stackSize) == OK
    modifies boot, t
    ensures code == OK && verdict != OK
  {
    var sched := OneWaiting(boot, t, stackBase, stackSize);
    code := sched.Create(t, 1, stackBase, stackSize);
    ghost var q := sched.model.queue;
    ghost var k :| sched.CutShort(q, k);
    verdict := sched.Validate();
    forall q' ensures !sched.Accepts(q') { sched.CutShortIsRefused(q, k, q'); }
  }
}
