// The frames an address space obtains through its callbacks, and what becomes of them.

module FrameSupply {
  import opened PageEntries
  import opened PageTables

  const ERR_INVAL: int := -1
  const ERR_NOMEM: int := -2

  const NO_FRAME: Frame := Frame(INVALID_PHYS)

  /** The callbacks of an address space. `answers` is what alloc_frame answers, call by call, and no frame after
      that; phys_to_virt reaches `frames`. */
  datatype Supply = Supply(canAlloc: bool, canFree: bool, answers: seq<Frame>, frames: set<Frame>)

  /** What becomes of an answer of alloc_frame. */
  datatype Fate = NoFrame | BecomesTable | GivenBack | Leaks

  /** A reachable frame becomes a table. A misaligned address leaks; so does an unreachable frame when there is
      no free_frame, and otherwise it is given back. */
  ghost function FateOf(s: Supply, f: Frame): Fate {
    if f == NO_FRAME then NoFrame
    else if f in s.frames then BecomesTable
    else if IsAligned(f.paddr) && s.canFree then GivenBack
    else Leaks
  }

  /** What the callback promises: a reachable answer is not one of the tables there were to begin with, and is
      answered only once. */
  ghost predicate Fresh(s: Supply, inherited: set<Frame>) {
    forall i :: 0 <= i < |s.answers| && s.answers[i] in s.frames ==>
      s.answers[i] !in inherited && forall j :: 0 <= j < i ==> s.answers[j] != s.answers[i]
  }

  /** The first n answers that meet the given fate, in order. */
  ghost function Drawn(s: Supply, n: nat, fate: Fate): seq<Frame>
    requires n <= |s.answers|
  {
    if n == 0 then []
    else Drawn(s, n - 1, fate) + if FateOf(s, s.answers[n-1]) == fate then [s.answers[n-1]] else []
  }

  /** The tables after n answers: those inherited, and every reachable answer. */
  ghost function TablesAfter(s: Supply, inherited: set<Frame>, n: nat): set<Frame>
    requires n <= |s.answers|
  {
    if n == 0 then inherited
    else TablesAfter(s, inherited, n - 1) + if s.answers[n-1] in s.frames then {s.answers[n-1]} else {}
  }

  lemma {:induction false} DrawnHas(s: Supply, n: nat, fate: Fate, f: Frame)
    requires n <= |s.answers|
    ensures f in Drawn(s, n, fate) <==> f in s.answers[..n] && FateOf(s, f) == fate
  {
    if n > 0 {
      DrawnHas(s, n - 1, fate, f);
      assert s.answers[..n] == s.answers[..n-1] + [s.answers[n-1]];
    }
  }

  lemma {:induction false} TablesHas(s: Supply, inherited: set<Frame>, n: nat, f: Frame)
    requires n <= |s.answers|
    ensures f in TablesAfter(s, inherited, n) <==> f in inherited || (f in s.answers[..n] && f in s.frames)
  {
    if n > 0 {
      TablesHas(s, inherited, n - 1, f);
      assert s.answers[..n] == s.answers[..n-1] + [s.answers[n-1]];
    }
  }

  /** The next answer, if it can be reached, is not a table yet. */
  lemma NextIsFresh(s: Supply, inherited: set<Frame>, n: nat)
    requires Fresh(s, inherited) && n < |s.answers| && s.answers[n] in s.frames
    ensures s.answers[n] !in TablesAfter(s, inherited, n)
  {
    TablesHas(s, inherited, n, s.answers[n]);
  }

  lemma DrawnMore(s: Supply, n: nat, fate: Fate)
    requires 0 < n <= |s.answers|
    ensures |Drawn(s, n, fate)| == |Drawn(s, n - 1, fate)| + if FateOf(s, s.answers[n-1]) == fate then 1 else 0
  {
  }

  lemma TablesMore(s: Supply, inherited: set<Frame>, n: nat)
    requires Fresh(s, inherited) && 0 < n <= |s.answers|
    ensures |TablesAfter(s, inherited, n)|
         == |TablesAfter(s, inherited, n - 1)| + if s.answers[n-1] in s.frames then 1 else 0
  {
    if s.answers[n-1] in s.frames { NextIsFresh(s, inherited, n - 1); }
  }

  /** Every answer is counted once: as no frame, one more table, a frame given back or a leak. */
  lemma {:induction false} EveryAnswerCounts(s: Supply, inherited: set<Frame>, n: nat)
    requires Fresh(s, inherited) && NO_FRAME !in s.frames && n <= |s.answers|
    ensures n == |Drawn(s, n, NoFrame)| + (|TablesAfter(s, inherited, n)| - |inherited|)
                 + |Drawn(s, n, GivenBack)| + |Drawn(s, n, Leaks)|
  {
    if n > 0 {
      EveryAnswerCounts(s, inherited, n - 1);
      DrawnMore(s, n, NoFrame);
      DrawnMore(s, n, GivenBack);
      DrawnMore(s, n, Leaks);
      TablesMore(s, inherited, n);
    }
  }

  // ---------------------------------------------------------------- what is to come

  /** The n answers from `taken` on can all be reached. */
  ghost predicate Supplied(s: Supply, taken: nat, n: nat) {
    || n == 0
    || (s.canAlloc && taken + n <= |s.answers| && forall i :: taken <= i < taken + n ==> s.answers[i] in s.frames)
  }

  /** The first answer from n on that cannot be reached. */
  ghost function FirstBad(s: Supply, n: nat): (k: nat)
    ensures n <= |s.answers| ==> n <= k <= |s.answers|
    decreases |s.answers| - n
  {
    if n < |s.answers| && s.answers[n] in s.frames then FirstBad(s, n + 1) else n
  }

  /** Answer i is an aligned address that cannot be reached. */
  ghost predicate BadAnswer(s: Supply, i: nat) {
    i < |s.answers| && s.answers[i] !in s.frames && s.answers[i].paddr % 0x1000 == 0
  }

  /** What vmm_map_page returns when, from `taken` on, the supply of reachable frames ends too early, and how many
      answers it has taken by then. An aligned address that cannot be reached is an invalid argument; anything else
      is want of memory. */
  ghost function Refusal(s: Supply, taken: nat): (int, nat) {
    var k := FirstBad(s, taken);
    if !s.canAlloc then (ERR_NOMEM, taken)
    else if k >= |s.answers| then (ERR_NOMEM, k)
    else (if IsAligned(s.answers[k].paddr) then ERR_INVAL else ERR_NOMEM, k + 1)
  }

  /** Without an alloc_frame, or when every answer that is left can be reached, or when the first that cannot is no
      address of a frame, memory is wanting; an invalid argument it is only when that answer is an aligned address. */
  lemma RefusalMeans(s: Supply, taken: nat, k: nat)
    requires taken <= k <= |s.answers| && forall i :: taken <= i < k ==> s.answers[i] in s.frames
    requires k < |s.answers| ==> s.answers[k] !in s.frames
    ensures !s.canAlloc ==> Refusal(s, taken) == (ERR_NOMEM, taken)
    ensures s.canAlloc && k == |s.answers| ==> Refusal(s, taken) == (ERR_NOMEM, k)
    ensures s.canAlloc && k < |s.answers| ==>
              Refusal(s, taken) == (if s.answers[k].paddr % 0x1000 == 0 then ERR_INVAL else ERR_NOMEM, k + 1)
  {
    FirstBadIs(s, taken, k);
    if k < |s.answers| { AlignedMeans(s.answers[k].paddr); }
  }

  lemma {:induction false} FirstBadIs(s: Supply, n: nat, k: nat)
    requires n <= k <= |s.answers| && forall i :: n <= i < k ==> s.answers[i] in s.frames
    requires k < |s.answers| ==> s.answers[k] !in s.frames
    ensures FirstBad(s, n) == k
    decreases k - n
  {
    if n < k { FirstBadIs(s, n + 1, k); }
  }

  /** The first answer from n on that cannot be reached, as the lemma above wants it. */
  lemma {:induction false} FirstBadStops(s: Supply, n: nat)
    requires n <= |s.answers|
    ensures var k := FirstBad(s, n);
            && n <= k <= |s.answers| && (forall i :: n <= i < k ==> s.answers[i] in s.frames)
            && (k < |s.answers| ==> s.answers[k] !in s.frames)
    decreases |s.answers| - n
  {
    if n < |s.answers| && s.answers[n] in s.frames { FirstBadStops(s, n + 1); }
  }

  /** In terms of the last answer taken. */
  lemma RefusalByLast(s: Supply, taken: nat)
    requires taken <= |s.answers|
    ensures var r := Refusal(s, taken);
            && r.0 in {ERR_INVAL, ERR_NOMEM} && taken <= r.1 <= |s.answers|
            && (r.0 == ERR_INVAL <==> taken < r.1 && BadAnswer(s, r.1 - 1))
  {
    FirstBadStops(s, taken);
    RefusalMeans(s, taken, FirstBad(s, taken));
  }
}
