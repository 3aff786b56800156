// Thread control blocks and the singly linked lists they form through `next`.

module Threads {
  import opened Words
  import opened RunQueue

  const THREAD_MAGIC: u64 := 0x4d43_534f_5354_4852    // MCSOS_THREAD_MAGIC

  const STACK_ALIGN: int := 16    // MCSOS_STACK_ALIGN

  /** Storage for a thread; what it holds before it is prepared is arbitrary. */
  class Thread {
    var magic: u64
    var state: ThreadState
    var next: Thread?
    var switches: u64
    var ticks: u64
    var rsp: u64          // context.rsp

    /** mcsos_thread_prepare: refused exactly for a missing entry or stack, a stack that is too small and one that
        wraps. The first stack pointer is the highest one inside the stack that leaves room for a return address
        and is 8 above a multiple of 16. */
    method Prepare(entry: u64, stackBase: u64, stackSize: u64) returns (code: int)
      modifies this
      ensures code == PrepareCode(entry, stackBase, stackSize)
      ensures code == EINVAL <==> entry == 0 || stackBase == 0
      ensures code == ESTACK <==> entry != 0 && stackBase != 0 && (stackSize < 4096 || stackBase + stackSize >= TWO_64)
      ensures code != OK ==> unchanged(this)
      ensures code == OK ==>
                && magic == THREAD_MAGIC && state == New && next == null && switches == 0 && ticks == 0
                && rsp % STACK_ALIGN == 8
                && stackBase <= rsp && rsp + 8 <= stackBase + stackSize < rsp + 8 + STACK_ALIGN
    {
      if entry == 0 || stackBase == 0 {
        return EINVAL;
      }
      if stackSize < MIN_STACK {
        return ESTACK;
      }
      var low, high := stackBase, Wrap(stackBase + stackSize);
      if high <= low {
        return ESTACK;
      }
      var top: u64 := high - high % STACK_ALIGN;
      if top <= Wrap(low + 128) {
        return ESTACK;
      }
      magic, state, next, switches, ticks := THREAD_MAGIC, New, null, 0, 0;
      rsp := top - 8;
      return OK;
    }
  }

  /** valid_thread_object */
  predicate ValidThread(t: Thread?)
    reads t
  {
    t != null && t.magic == THREAD_MAGIC
  }

  function First(q: seq<Thread>): Thread? { if |q| == 0 then null else q[0] }

  function Last(q: seq<Thread>): Thread? { if |q| == 0 then null else q[|q|-1] }

  /** The threads of q follow one another through `next`, and the last is followed by `end`. */
  ghost predicate Linked(q: seq<Thread>, end: Thread?)
    reads q
  {
    forall i :: 0 <= i < |q| ==> Follows(q, i, end)
  }

  ghost predicate Follows(q: seq<Thread>, i: nat, end: Thread?)
    requires i < |q|
    reads q
  {
    q[i].next == if i + 1 < |q| then q[i+1] else end
  }

  /** Two walks from the same thread, one of them complete: the other is a prefix of it. */
  lemma {:induction false} WalkIsPrefix(xs: seq<Thread>, end: Thread?, q: seq<Thread>, n: nat)
    requires Linked(xs, end) && Linked(q, null) && n <= |xs|
    requires |xs| > 0 ==> First(xs) == First(q)
    ensures n <= |q| && xs[..n] == q[..n]
    decreases n
  {
    if n > 0 {
      WalkIsPrefix(xs, end, q, n - 1);
      if n > 1 {
        assert xs[n-2] == xs[..n-1][n-2] == q[n-2];
        assert Follows(xs, n - 2, end) && Follows(q, n - 2, null);
      }
    }
  }

  /** Where a walk in progress stands in the complete list: at the end, or at the thread that comes next. */
  lemma NextInList(xs: seq<Thread>, end: Thread?, q: seq<Thread>)
    requires Linked(xs, end) && Linked(q, null)
    requires if |xs| > 0 then First(xs) == First(q) else end == First(q)
    ensures xs <= q && end == if |xs| < |q| then q[|xs|] else null
  {
    WalkIsPrefix(xs, end, q, |xs|);
    assert xs[..|xs|] == xs;
    if |xs| > 0 {
      assert xs[|xs|-1] == q[|xs|-1];
      assert Follows(xs, |xs| - 1, end) && Follows(q, |xs| - 1, null);
    }
  }
}
