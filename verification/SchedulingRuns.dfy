// Whole runs of the scheduler on linked thread objects follow the runs on values.

module SchedulingRuns {
  import opened Words
  import opened RunQueue
  import opened RunQueueRuns
  import opened Threads
  import Scheduling

  /** All threads lie in the given storage, and storage that was never prepared does not carry the magic number. */
  ghost predicate Stored(sched: Scheduling.Scheduler, storage: set<Thread>)
    reads sched, storage
  {
    && sched.threads <= storage && |storage| < TWO_64
    && forall t :: t in storage && t !in sched.threads ==> t.magic != THREAD_MAGIC
  }

  /** The call concerns a thread in the given storage, if any. */
  predicate Concerns(storage: set<Thread>, op: Op<Thread>) {
    op.Create? || op.Admit? || op.Wake? ==> op.t in storage
  }

  /** One call. */
  method PerformOne(sched: Scheduling.Scheduler, op: Op<Thread>, ghost storage: set<Thread>) returns (code: int)
    requires sched.Valid() && Stored(sched, storage) && Concerns(storage, op) && Legal(sched.model, op)
    modifies sched, storage
    ensures sched.Valid() && Stored(sched, storage)
    ensures code == Code(old(sched.model), op) && sched.model == Step(old(sched.model), op)
  {
    match op
    case Create(t, entry, stackBase, stackSize) => code := CreateOne(sched, t, entry, stackBase, stackSize, storage);
    case Admit(t) => code := sched.Enqueue(t);
    case Wake(t) => code := sched.MarkReady(t);
    case Tick => code := sched.Tick();
    case Relinquish => code := sched.Yield();
    case Sleep => code := sched.BlockCurrent();
  }

  method CreateOne(sched: Scheduling.Scheduler, t: Thread, entry: u64, stackBase: u64, stackSize: u64,
                   ghost storage: set<Thread>)
    returns (code: int)
    requires sched.Valid() && Stored(sched, storage) && t in storage
    requires Legal(sched.model, Create(t, entry, stackBase, stackSize))
    modifies sched, t
    ensures sched.Valid() && Stored(sched, storage)
    ensures var op := Create(t, entry, stackBase, stackSize);
            code == Code(old(sched.model), op) && sched.model == Step(old(sched.model), op)
  {
    SubsetSize(sched.threads + {t}, storage);
    code := sched.Create(t, entry, stackBase, stackSize);
  }

  lemma LegalNow(s: Sched<Thread>, ops: seq<Op<Thread>>, i: nat)
    requires LegalRun(s, ops) && i < |ops|
    ensures Legal(Run(s, ops, i), ops[i])
  {
    assert LegalAt(s, ops, i);
  }

  method Check(sched: Scheduling.Scheduler) returns (verdict: int)
    requires sched.Valid()
    ensures verdict == OK
  {
    verdict := sched.Validate();
    sched.ValidIsAccepted();
  }

  ghost predicate CodeAt(s: Sched<Thread>, ops: seq<Op<Thread>>, codes: seq<int>, i: nat)
    requires i < |ops| && i < |codes|
  {
    codes[i] == Code(Run(s, ops, i), ops[i])
  }

  /** The return codes so far are those of the run on values. */
  ghost predicate CodesAgree(s: Sched<Thread>, ops: seq<Op<Thread>>, codes: seq<int>) {
    |codes| <= |ops| && forall i :: 0 <= i < |codes| ==> CodeAt(s, ops, codes, i)
  }

  lemma CodesAgreeMore(s: Sched<Thread>, ops: seq<Op<Thread>>, codes: seq<int>, code: int)
    requires CodesAgree(s, ops, codes) && |codes| < |ops| && code == Code(Run(s, ops, |codes|), ops[|codes|])
    ensures CodesAgree(s, ops, codes + [code])
  {
    forall i | 0 <= i < |codes| + 1 ensures CodeAt(s, ops, codes + [code], i) {
      if i < |codes| { assert CodeAt(s, ops, codes, i); }
    }
  }

  /** Every legal run on the linked list, with threads prepared on the way, ends in the state and returns the codes
      of the run on values; and the validator accepts the outcome. */
  method Perform(sched: Scheduling.Scheduler, ops: seq<Op<Thread>>, ghost storage: set<Thread>)
    returns (codes: seq<int>, verdict: int)
    requires sched.Valid() && Stored(sched, storage) && LegalRun(sched.model, ops)
    requires forall i :: 0 <= i < |ops| ==> Concerns(storage, ops[i])
    modifies sched, storage
    ensures sched.Valid() && Stored(sched, storage) && sched.model == Run(old(sched.model), ops, |ops|)
    ensures |codes| == |ops| && CodesAgree(old(sched.model), ops, codes)
    ensures verdict == OK
  {
    codes := [];
    ghost var s := sched.model;
    while |codes| < |ops|
      invariant sched.Valid() && Stored(sched, storage)
      invariant CodesAgree(s, ops, codes) && sched.model == Run(s, ops, |codes|)
    {
      LegalNow(s, ops, |codes|);
      var code := PerformOne(sched, ops[|codes|], storage);
      CodesAgreeMore(s, ops, codes, code);
      codes := codes + [code];
    }
    verdict := Check(sched);
  }

  /** The same from initialisation, over storage in which nothing has been prepared. */
  method InitAndPerform(boot: Thread, ops: seq<Op<Thread>>, ghost storage: set<Thread>)
    returns (sched: Scheduling.Scheduler, codes: seq<int>, verdict: int)
    requires boot in storage && |storage| < TWO_64 && LegalRun(InitSched(boot), ops)
    requires forall t :: t in storage && t != boot ==> t.magic != THREAD_MAGIC
    requires forall i :: 0 <= i < |ops| ==> Concerns(storage, ops[i])
    modifies storage
    ensures sched.Valid() && sched.model == Run(InitSched(boot), ops, |ops|)
    ensures |codes| == |ops| && CodesAgree(InitSched(boot), ops, codes) && verdict == OK
  {
    sched := new Scheduling.Scheduler(boot);
    codes, verdict := Perform(sched, ops, storage);
  }
}
