// Whole runs of the kernel heap on the block list: any sequence of requests and
// releases, with the requests that are still outstanding.

module HeapRuns {
  import opened Words
  import opened HeapBlocks

  /** A call of the heap, or a caller storing a byte in memory it was given. */
  datatype Op =
    | Alloc(bytes: u64)
    | Calloc(count: u64, bytes: u64)
    | Free(ptr: int)
    | Write(ptr: int, offset: u64, value: byte)

  /** The block list, and for each pointer handed out and not yet released the bytes that were asked for. */
  datatype State = State(blocks: seq<Block>, owned: map<int, int>)

  function InitBlocks(base: int, end: int): seq<Block> { [Block(base, end - base - HEADER, true)] }

  function InitState(base: int, end: int): State { State(InitBlocks(base, end), map[]) }

  /** The index of the used block whose payload is ptr, or |bs|. */
  function IndexOf(bs: seq<Block>, ptr: int, from: nat := 0): (k: nat)
    requires from <= |bs|
    ensures from <= k <= |bs|
    ensures k < |bs| ==> !bs[k].free && bs[k].Payload() == ptr
    ensures forall j :: from <= j < k ==> bs[j].free || bs[j].Payload() != ptr
    decreases |bs| - from
  {
    if from == |bs| || (!bs[from].free && bs[from].Payload() == ptr) then from else IndexOf(bs, ptr, from + 1)
  }

  function Granted(s: State, r: (seq<Block>, int), bytes: int): State {
    State(r.0, if r.1 == 0 then s.owned else s.owned[r.1 := bytes])
  }

  /** One call. A pointer that is not outstanding is refused and changes nothing. (The code tells by the header in front
      of it; when payload bytes forge one, there is no step: KernelHeapRuns.Safe.) */
  function Step(s: State, op: Op): State {
    match op
    case Alloc(bytes) => Granted(s, AllocBlocks(s.blocks, bytes), bytes)
    case Calloc(count, bytes) => Granted(s, CallocBlocks(s.blocks, count, bytes), count * bytes)
    case Free(ptr) =>
      var k := IndexOf(s.blocks, ptr);
      if k == |s.blocks| then s else State(Release(s.blocks, k), s.owned - {ptr})
    case Write(_, _, _) => s
  }

  function Run(s: State, ops: seq<Op>): State {
    if |ops| == 0 then s else Step(Run(s, ops[..|ops|-1]), ops[|ops|-1])
  }

  // ---------------------------------------------------------------- invariant

  /** The outstanding pointers are exactly the payloads of the live blocks, each at least as long as asked. */
  ghost predicate Matches(owned: map<int, int>, live: set<Block>) {
    && (forall b :: b in live ==> b.Payload() in owned && 0 < owned[b.Payload()] <= b.size)
    && (forall p :: p in owned ==> exists b :: b in live && b.Payload() == p)
  }

  ghost predicate Inv(s: State, base: int, end: int) {
    && HeapInv(s.blocks, base, end)
    && Matches(s.owned, Live(s.blocks))
  }

  lemma MatchesAdd(owned: map<int, int>, live: set<Block>, b: Block, bytes: int)
    requires Matches(owned, live) && 0 < bytes <= b.size
    requires forall c :: c in live ==> c.Payload() != b.Payload()
    ensures b.Payload() !in owned && Matches(owned[b.Payload() := bytes], live + {b})
  {
    var o := owned[b.Payload() := bytes];
    forall p | p in o ensures exists c :: c in live + {b} && c.Payload() == p {
      if p == b.Payload() {
        assert b in live + {b};
      } else {
        var c :| c in live && c.Payload() == p;
        assert c in live + {b};
      }
    }
  }

  lemma MatchesRemove(owned: map<int, int>, live: set<Block>, b: Block)
    requires Matches(owned, live) && b in live
    requires forall c :: c in live && c != b ==> c.Payload() != b.Payload()
    ensures Matches(owned - {b.Payload()}, live - {b})
  {
    forall p | p in owned - {b.Payload()} ensures exists c :: c in live - {b} && c.Payload() == p {
      var c :| c in live && c.Payload() == p;
      assert c in live - {b};
    }
  }

  /** Different blocks have different payload addresses. */
  lemma PayloadsDiffer(bs: seq<Block>, base: int, end: int, k: nat, b: Block)
    requires Tiled(bs, base, end) && k < |bs| && b in Live(bs) && b != bs[k]
    ensures b.Payload() != bs[k].Payload()
  {
    var j :| 0 <= j < |bs| && bs[j] == b;
    if j < k { TiledOrdered(bs, base, end, j, k); }
    if k < j { TiledOrdered(bs, base, end, k, j); }
  }

  /** Taking block k adds one outstanding pointer, which was not handed out before. */
  lemma TakeMatches(bs: seq<Block>, base: int, end: int, k: nat, wanted: int, owned: map<int, int>, bytes: int)
    requires HeapInv(bs, base, end) && Matches(owned, Live(bs)) && k < |bs|
    requires Fits(bs[k], wanted) && wanted % GRAIN == 0 && 0 < bytes <= wanted
    ensures var p := bs[k].Payload();
            p !in owned && Matches(owned[p := bytes], Live(Take(bs, k, wanted)))
  {
    var b := Take(bs, k, wanted)[k];
    assert b.at == bs[k].at && wanted <= b.size by { TakeKeepsInv(bs, base, end, k, wanted); }
    assert Live(Take(bs, k, wanted)) == Live(bs) + {b} by { TakeLive(bs, k, wanted); }
    AddMatches(bs, base, end, k, b, owned, bytes);
  }

  /** A block that starts where block k does can be added to the live ones. */
  lemma AddMatches(bs: seq<Block>, base: int, end: int, k: nat, b: Block, owned: map<int, int>, bytes: int)
    requires Tiled(bs, base, end) && k < |bs| && bs[k].free && Matches(owned, Live(bs))
    requires b.at == bs[k].at && 0 < bytes <= b.size
    ensures var p := bs[k].Payload(); p !in owned && Matches(owned[p := bytes], Live(bs) + {b})
  {
    forall c | c in Live(bs) ensures c.Payload() != b.Payload() {
      PayloadsDiffer(bs, base, end, k, c);
    }
    MatchesAdd(owned, Live(bs), b, bytes);
  }

  /** Releasing block k removes its pointer and no other. */
  lemma ReleaseMatches(bs: seq<Block>, base: int, end: int, k: nat, owned: map<int, int>)
    requires HeapInv(bs, base, end) && Matches(owned, Live(bs)) && k < |bs| && !bs[k].free
    ensures Matches(owned - {bs[k].Payload()}, Live(Release(bs, k)))
  {
    ReleaseLive(bs, base, end, k);
    forall b | b in Live(bs) && b != bs[k] ensures b.Payload() != bs[k].Payload() {
      PayloadsDiffer(bs, base, end, k, b);
    }
    assert bs[k] in Live(bs);
    MatchesRemove(owned, Live(bs), bs[k]);
  }

  /** A request either fails and changes nothing, or hands out a new pointer. */
  lemma AllocStep(s: State, base: int, end: int, bytes: u64)
    requires Inv(s, base, end) && 0 < base
    ensures var r := AllocBlocks(s.blocks, bytes);
            && Inv(Granted(s, r, bytes), base, end)
            && (r.1 == 0 ==> r.0 == s.blocks)
            && (r.1 != 0 ==> r.1 !in s.owned && r.1 > base)
  {
    var wanted := RoundUp(bytes);
    var k := FirstFit(s.blocks, wanted);
    if wanted != 0 && k < |s.blocks| {
      TiledInside(s.blocks, base, end, k);
      TakeKeepsInv(s.blocks, base, end, k, wanted);
      TakeMatches(s.blocks, base, end, k, wanted, s.owned, bytes);
    }
  }

  /** What a successful request may write afterwards is what it asked for; everything else stays outstanding as it
      was. */
  lemma OwnsWhatItAsked(s: State, base: int, end: int, count: u64, bytes: u64)
    requires Inv(s, base, end) && 0 < base
    ensures var p := AllocBlocks(s.blocks, bytes).1;
            Step(s, Alloc(bytes)).owned == if p == 0 then s.owned else s.owned[p := bytes]
    ensures var p := CallocBlocks(s.blocks, count, bytes).1;
            Step(s, Calloc(count, bytes)).owned == if p == 0 then s.owned else s.owned[p := count * bytes]
  {
  }

  lemma FreeStep(s: State, base: int, end: int, ptr: int)
    requires Inv(s, base, end)
    ensures Inv(Step(s, Free(ptr)), base, end)
    ensures Step(s, Free(ptr)).owned == s.owned - {ptr}
  {
    var k := IndexOf(s.blocks, ptr);
    if k < |s.blocks| {
      ReleaseKeepsInv(s.blocks, base, end, k);
      ReleaseMatches(s.blocks, base, end, k, s.owned);
    } else {
      NotLive(s, ptr);
    }
  }

  lemma NotLive(s: State, ptr: int)
    requires Matches(s.owned, Live(s.blocks)) && IndexOf(s.blocks, ptr) == |s.blocks|
    ensures ptr !in s.owned && s.owned - {ptr} == s.owned
  {
    forall b | b in Live(s.blocks) ensures b.Payload() != ptr {
      var j :| 0 <= j < |s.blocks| && !s.blocks[j].free && s.blocks[j] == b;
    }
  }

  /** A pointer that is found in the block list is outstanding. */
  lemma FoundIsOwned(s: State, ptr: int)
    requires Matches(s.owned, Live(s.blocks))
    ensures IndexOf(s.blocks, ptr) < |s.blocks| ==> ptr in s.owned
  {
    var k := IndexOf(s.blocks, ptr);
    if k < |s.blocks| { assert s.blocks[k] in Live(s.blocks); }
  }

  lemma StepKeepsInv(s: State, base: int, end: int, op: Op)
    requires Inv(s, base, end) && 0 < base
    ensures Inv(Step(s, op), base, end)
  {
    match op
    case Alloc(bytes) => AllocStep(s, base, end, bytes);
    case Calloc(count, bytes) =>
      if count * bytes <= MAX_64 {
        assert 0 <= count * bytes;
        AllocStep(s, base, end, count * bytes);
      }
    case Free(ptr) => FreeStep(s, base, end, ptr);
    case Write(_, _, _) =>
  }

  // ---------------------------------------------------------------- theorems

  /** Every run from initialisation keeps the heap tiled and coalesced, with its books in order. */
  lemma {:induction false} RunKeepsInv(base: int, end: int, ops: seq<Op>)
    requires 0 < base && base % GRAIN == 0 && end % GRAIN == 0 && end - base > HEADER
    ensures Inv(Run(InitState(base, end), ops), base, end)
  {
    if |ops| > 0 {
      RunKeepsInv(base, end, ops[..|ops|-1]);
      StepKeepsInv(Run(InitState(base, end), ops[..|ops|-1]), base, end, ops[|ops|-1]);
    }
  }

  /** Outstanding requests are 16-aligned, inside the arena, and overlap neither each other nor any header. */
  lemma OwnedDisjoint(s: State, base: int, end: int, p: int, q: int)
    requires Inv(s, base, end) && p in s.owned && q in s.owned
    ensures p % GRAIN == 0 && base + HEADER <= p && p + s.owned[p] <= end
    ensures p == q || p + s.owned[p] <= q - HEADER || q + s.owned[q] <= p - HEADER
  {
    var b :| b in Live(s.blocks) && b.Payload() == p;
    var c :| c in Live(s.blocks) && c.Payload() == q;
    LiveDisjoint(s.blocks, base, end, b, c);
  }

  /** Whatever the run, once nothing is outstanding the heap is the single block it started as. */
  lemma BalancedRunRestores(base: int, end: int, ops: seq<Op>)
    requires 0 < base && base % GRAIN == 0 && end % GRAIN == 0 && end - base > HEADER
    ensures var s := Run(InitState(base, end), ops);
            s.owned == map[] ==> s == InitState(base, end)
  {
    RunKeepsInv(base, end, ops);
    var s := Run(InitState(base, end), ops);
    if s.owned == map[] { NothingOwned(s, base, end); }
  }

  lemma NothingOwned(s: State, base: int, end: int)
    requires Inv(s, base, end) && s.owned == map[]
    ensures s == InitState(base, end)
  {
    assert forall b :: b in Live(s.blocks) ==> b.Payload() in s.owned;
    NothingLive(s.blocks, base, end);
  }

  function Frees(ps: seq<int>): seq<Op> { seq(|ps|, i requires 0 <= i < |ps| => Free(ps[i])) }

  /** The last of several releases. */
  lemma LastFree(s: State, base: int, end: int, ps: seq<int>)
    requires |ps| > 0 && Inv(Run(s, Frees(ps[..|ps|-1])), base, end)
    ensures Run(s, Frees(ps)) == Step(Run(s, Frees(ps[..|ps|-1])), Free(ps[|ps|-1]))
    ensures Inv(Run(s, Frees(ps)), base, end)
    ensures Run(s, Frees(ps)).owned == Run(s, Frees(ps[..|ps|-1])).owned - {ps[|ps|-1]}
  {
    assert Frees(ps)[..|ps|-1] == Frees(ps[..|ps|-1]);
    FreeStep(Run(s, Frees(ps[..|ps|-1])), base, end, ps[|ps|-1]);
  }

  /** Releases keep the heap in order, and leave outstanding what they do not name. */
  lemma {:induction false} FreesRun(s: State, base: int, end: int, ps: seq<int>, x: int)
    requires Inv(s, base, end)
    ensures Inv(Run(s, Frees(ps)), base, end)
    ensures x in Run(s, Frees(ps)).owned <==> x in s.owned && x !in ps
  {
    if |ps| > 0 {
      FreesRun(s, base, end, ps[..|ps|-1], x);
      LastFree(s, base, end, ps);
      LastOrBefore(ps, x);
    }
  }

  lemma LastOrBefore(ps: seq<int>, x: int)
    requires |ps| > 0
    ensures x in ps <==> x in ps[..|ps|-1] || x == ps[|ps|-1]
  {
    assert ps == ps[..|ps|-1] + [ps[|ps|-1]];
  }

  /** Releasing everything that is outstanding, in any order, leaves the single initial block. */
  lemma FreeAllRestores(s: State, base: int, end: int, ps: seq<int>)
    requires Inv(s, base, end) && forall p :: p in s.owned ==> p in ps
    ensures Run(s, Frees(ps)) == InitState(base, end)
  {
    FreesRun(s, base, end, ps, 0);
    var o := Run(s, Frees(ps)).owned;
    forall p ensures p !in o { FreesRun(s, base, end, ps, p); }
    assert o == map[];
    NothingOwned(Run(s, Frees(ps)), base, end);
  }

  /** Releasing what a request just returned restores the state exactly. */
  lemma FreeUndoesAlloc(s: State, base: int, end: int, bytes: u64)
    requires Inv(s, base, end) && 0 < base
    ensures var p := AllocBlocks(s.blocks, bytes).1;
            p != 0 ==> Step(Step(s, Alloc(bytes)), Free(p)) == s
  {
    var (t, p) := AllocBlocks(s.blocks, bytes);
    if p != 0 {
      assert p !in s.owned by { AllocStep(s, base, end, bytes); }
      ReleaseUndoesAlloc(s.blocks, base, end, bytes);
      UndoStep(s, t, p, bytes);
    }
  }

  lemma UndoStep(s: State, t: seq<Block>, p: int, bytes: int)
    requires p !in s.owned
    requires var k := IndexOf(t, p); k < |t| && Release(t, k) == s.blocks
    ensures Step(State(t, s.owned[p := bytes]), Free(p)) == s
  {
    assert s.owned[p := bytes] - {p} == s.owned;
  }

  lemma ReleaseUndoesAlloc(bs: seq<Block>, base: int, end: int, bytes: u64)
    requires HeapInv(bs, base, end) && AllocBlocks(bs, bytes).1 != 0
    ensures var (t, p) := AllocBlocks(bs, bytes);
            var k := IndexOf(t, p);
            k < |t| && Release(t, k) == bs
  {
    TakenBlock(bs, base, end, bytes);
    var k := FirstFit(bs, RoundUp(bytes));
    IndexOfTaken(AllocBlocks(bs, bytes).0, base, end, k);
    ReleaseUndoesTake(bs, base, end, k, RoundUp(bytes));
  }

  lemma IndexOfTaken(bs: seq<Block>, base: int, end: int, k: nat)
    requires Tiled(bs, base, end) && k < |bs| && !bs[k].free
    ensures IndexOf(bs, bs[k].Payload()) == k
  {
    var j := IndexOf(bs, bs[k].Payload());
    if j < k { TiledOrdered(bs, base, end, j, k); }
  }

  /** An outstanding pointer is found in the block list. */
  lemma OwnedIsFound(s: State, ptr: int)
    requires Matches(s.owned, Live(s.blocks)) && ptr in s.owned
    ensures IndexOf(s.blocks, ptr) < |s.blocks|
  {
    if IndexOf(s.blocks, ptr) == |s.blocks| { NotLive(s, ptr); }
  }
}
