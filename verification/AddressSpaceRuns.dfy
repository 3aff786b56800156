// Whole runs of an address space: every sequence of calls refines a partial map
// from virtual pages to leaf entries.

module AddressSpaceRuns {
  import opened Words
  import opened PageEntries
  import opened VirtualAddresses
  import opened PageTables
  import opened FrameSupply
  import opened AddressSpaces

  type Pages = map<u64, bv64>

  /** A call, or the processor caching the translation of a page. */
  datatype Op = Map(v: u64, paddr: bv64, flags: bv64) | Unmap(v: u64) | Query(v: u64) | Cache(v: u64)

  datatype Reply = Reply(rc: int, mapping: Option<Mapping>)

  predicate Acceptable(op: Op) { IsPage(op.v) && (op.Map? ==> IsAligned(op.paddr)) }

  /** What a call that got this return code does to the map. */
  function Apply(pages: Pages, op: Op, rc: int): Pages {
    if rc != OK then pages
    else match op
      case Map(v, paddr, flags) => pages[v := LeafEntry(paddr, flags)]
      case Unmap(v) => pages - {v}
      case Query(_) => pages
      case Cache(_) => pages
  }

  /** The replies a partial map allows. Mapping an unmapped page may also fail for want of frames. */
  ghost predicate Allowed(pages: Pages, op: Op, r: Reply) {
    match op
    case Map(v, paddr, flags) =>
      if !Acceptable(op) then r.rc == ERR_INVAL
      else if v in pages then r.rc == ERR_EXISTS
      else r.rc in {OK, ERR_NOMEM, ERR_INVAL}
    case Unmap(v) =>
      r.rc == if !Acceptable(op) then ERR_INVAL else if v in pages then OK else ERR_NOT_FOUND
    case Query(v) =>
      if !Acceptable(op) then r.rc == ERR_INVAL
      else if v in pages then r == Reply(OK, Some(Mapping(v, Addr(pages[v]), Flags(pages[v]))))
      else r.rc == ERR_NOT_FOUND
    case Cache(_) => true
  }

  /** The map after the first n calls. */
  ghost function After(pages: Pages, ops: seq<Op>, rs: seq<Reply>, n: nat): Pages
    requires n <= |ops| && n <= |rs|
  {
    if n == 0 then pages else Apply(After(pages, ops, rs, n - 1), ops[n-1], rs[n-1].rc)
  }

  ghost predicate AllowedAt(pages: Pages, ops: seq<Op>, rs: seq<Reply>, i: nat)
    requires i < |ops| && i < |rs|
  {
    Allowed(After(pages, ops, rs, i), ops[i], rs[i])
  }

  /** Every reply so far is one that the map at that point allows. */
  ghost predicate RefinesSoFar(pages: Pages, ops: seq<Op>, rs: seq<Reply>) {
    |rs| <= |ops| && forall i :: 0 <= i < |rs| ==> AllowedAt(pages, ops, rs, i)
  }

  ghost predicate Refines(pages: Pages, ops: seq<Op>, rs: seq<Reply>) {
    RefinesSoFar(pages, ops, rs) && |rs| == |ops|
  }

  /** An allowed reply extends a refining run. */
  lemma RefinesMore(pages: Pages, ops: seq<Op>, rs: seq<Reply>, r: Reply)
    requires RefinesSoFar(pages, ops, rs) && |rs| < |ops|
    requires Allowed(After(pages, ops, rs, |rs|), ops[|rs|], r)
    ensures RefinesSoFar(pages, ops, rs + [r])
    ensures After(pages, ops, rs + [r], |rs| + 1) == Apply(After(pages, ops, rs, |rs|), ops[|rs|], r.rc)
  {
    forall i | 0 <= i < |rs + [r]| ensures AllowedAt(pages, ops, rs + [r], i) {
      AfterPrefix(pages, ops, rs, r, i);
      if i < |rs| { assert AllowedAt(pages, ops, rs, i); }
    }
    AfterPrefix(pages, ops, rs, r, |rs|);
  }

  lemma {:induction false} AfterPrefix(pages: Pages, ops: seq<Op>, rs: seq<Reply>, r: Reply, n: nat)
    requires n <= |rs| <= |ops|
    ensures After(pages, ops, rs + [r], n) == After(pages, ops, rs, n)
  {
    if n > 0 { AfterPrefix(pages, ops, rs, r, n - 1); }
  }

  method PerformOne(space: AddressSpace, op: Op) returns (r: Reply)
    requires space.Valid()
    modifies space
    ensures space.Valid() && Allowed(old(space.pages), op, r)
    ensures space.pages == Apply(old(space.pages), op, r.rc)
  {
    match op
    case Map(v, paddr, flags) =>
      var rc := space.MapPage(v, paddr, flags);
      r := Reply(rc, None);
    case Unmap(v) =>
      var rc := space.UnmapPage(v);
      r := Reply(rc, None);
    case Query(v) =>
      var rc, m := space.QueryPage(v);
      r := Reply(rc, if rc == OK then Some(m) else None);
    case Cache(v) =>
      ghost var cached := v in space.pages;
      if cached { space.CacheTranslation(v); }
      r := Reply(OK, None);
  }

  /** Every run refines the partial map. At every point the tables are a tree, no translation the processor holds
      disagrees with them, and every frame drawn is a table, given back or leaked: Valid() says so. */
  method Perform(space: AddressSpace, ops: seq<Op>) returns (rs: seq<Reply>)
    requires space.Valid()
    modifies space
    ensures space.Valid() && Refines(old(space.pages), ops, rs)
    ensures space.pages == After(old(space.pages), ops, rs, |ops|)
  {
    rs := [];
    ghost var pages0 := space.pages;
    while |rs| < |ops|
      invariant space.Valid() && RefinesSoFar(pages0, ops, rs)
      invariant space.pages == After(pages0, ops, rs, |rs|)
    {
      var r := PerformOne(space, ops[|rs|]);
      RefinesMore(pages0, ops, rs, r);
      rs := rs + [r];
    }
  }

  /** The same from a zeroed root page, which maps nothing. */
  method PerformFromZeroRoot(root: Frame, mem: PhysMem, answers: seq<Frame>, canAlloc: bool, canFree: bool,
                             ops: seq<Op>)
    returns (space: AddressSpace, rs: seq<Reply>)
    requires MemOk(mem) && root in mem && forall i :: 0 <= i < ENTRIES ==> mem[root][i] == 0
    requires Fresh(Supply(canAlloc, canFree, answers, mem.Keys), {root})
    ensures space.Valid() && Refines(map[], ops, rs) && space.pages == After(map[], ops, rs, |ops|)
    ensures space.supply == Supply(canAlloc, canFree, answers, mem.Keys) && space.inherited == {root}
  {
    ZeroRootIsTree(mem, root);
    space := new AddressSpace(root, mem, answers, canAlloc, canFree, OnlyRoot(root), map[]);
    rs := Perform(space, ops);
  }

  /** A misaligned answer is lost even though there is a free_frame: mapping a page into a zeroed root with a callback
      that answers 1 fails for want of memory, and the frame is neither a table nor given back. */
  method MisalignedIsLost(root: Frame, mem: PhysMem) returns (space: AddressSpace, rc: int)
    requires MemOk(mem) && root in mem && forall i :: 0 <= i < ENTRIES ==> mem[root][i] == 0
    ensures rc == ERR_NOMEM && space.Valid() && space.supply.canFree && space.Lost(0)
  {
    assert Frame(1) in mem ==> Addressable(Frame(1));
    space, rc := MapWithOneAnswer(root, mem, Frame(1), true);
    InvalidIsUnaligned();
    space.LostIff(0);
  }

  /** An aligned answer that cannot be reached is lost when there is no free_frame. */
  method UnreachableIsLost(root: Frame, mem: PhysMem, f: Frame) returns (space: AddressSpace, rc: int)
    requires MemOk(mem) && root in mem && forall i :: 0 <= i < ENTRIES ==> mem[root][i] == 0
    requires f !in mem && IsAligned(f.paddr)
    ensures rc == ERR_INVAL && space.Valid() && space.Lost(0)
  {
    space, rc := MapWithOneAnswer(root, mem, f, false);
    InvalidIsUnaligned();
    space.LostIff(0);
  }

  /** Map page 0 from a zeroed root with a callback that answers once, with a frame that cannot be reached. */
  method MapWithOneAnswer(root: Frame, mem: PhysMem, f: Frame, canFree: bool) returns (space: AddressSpace, rc: int)
    requires MemOk(mem) && root in mem && forall i :: 0 <= i < ENTRIES ==> mem[root][i] == 0
    requires f !in mem
    ensures space.Valid() && space.supply == Supply(true, canFree, [f], mem.Keys) && space.taken == 1
    ensures rc == if IsAligned(f.paddr) then ERR_INVAL else ERR_NOMEM
  {
    ZeroRootIsTree(mem, root);
    space := new AddressSpace(root, mem, [f], true, canFree, OnlyRoot(root), map[]);
    ZeroNotPresent();
    assert IsPage(0) && IsAligned(0);
    MissingBelowNew(mem, root, OnlyRoot(root), IndicesOf(0), root, 0);
    rc := space.MapPage(0, 0, 0);
  }

  // ---------------------------------------------------------------- what a run leaves

  /** Call i changed the mapping of v. */
  predicate Changes(ops: seq<Op>, rs: seq<Reply>, v: u64, i: int)
    requires 0 <= i < |ops| && i < |rs|
  {
    rs[i].rc == OK && ops[i].v == v && (ops[i].Map? || ops[i].Unmap?)
  }

  /** The last of the first n calls that changed the mapping of v, or -1. */
  function LastChange(ops: seq<Op>, rs: seq<Reply>, v: u64, n: nat): (k: int)
    requires n <= |ops| && n <= |rs|
    ensures -1 <= k < n
    ensures k >= 0 ==> Changes(ops, rs, v, k)
    ensures forall j :: k < j < n ==> !Changes(ops, rs, v, j)
  {
    if n == 0 then -1 else if Changes(ops, rs, v, n - 1) then n - 1 else LastChange(ops, rs, v, n - 1)
  }

  lemma ApplyElsewhere(pages: Pages, op: Op, rc: int, v: u64)
    requires !(rc == OK && op.v == v && (op.Map? || op.Unmap?))
    ensures v in Apply(pages, op, rc) <==> v in pages
    ensures v in pages ==> Apply(pages, op, rc)[v] == pages[v]
  {
  }

  /** A page translates to what the last successful call on it said, and to nothing if that was an unmapping. */
  lemma {:induction false} LastChangeWins(pages: Pages, ops: seq<Op>, rs: seq<Reply>, v: u64, n: nat)
    requires Refines(pages, ops, rs) && n <= |ops|
    ensures var k := LastChange(ops, rs, v, n);
            var now := After(pages, ops, rs, n);
            if k == -1 then (v in now <==> v in pages) && (v in now ==> now[v] == pages[v])
            else if ops[k].Map? then v in now && now[v] == LeafEntry(ops[k].paddr, ops[k].flags)
            else v !in now
  {
    if n > 0 {
      if !Changes(ops, rs, v, n - 1) {
        LastChangeWins(pages, ops, rs, v, n - 1);
        ApplyElsewhere(After(pages, ops, rs, n - 1), ops[n-1], rs[n-1].rc, v);
      }
    }
  }

  /** A query answers with the masked address and the permitted flags of the last successful mapping, if the page
      has not been unmapped since; in a run from empty tables, otherwise with "not found". */
  lemma QueryAnswersLastMap(ops: seq<Op>, rs: seq<Reply>, n: nat)
    requires Refines(map[], ops, rs) && n < |ops| && ops[n].Query? && IsPage(ops[n].v)
    ensures var v := ops[n].v;
            var k := LastChange(ops, rs, v, n);
            if k >= 0 && ops[k].Map?
            then rs[n] == Reply(OK, Some(Mapping(v, ops[k].paddr & ADDR_MASK, PRESENT | (ops[k].flags & ALLOWED))))
            else rs[n].rc == ERR_NOT_FOUND
  {
    LastChangeWins(map[], ops, rs, ops[n].v, n);
    assert AllowedAt(map[], ops, rs, n);
  }

  /** Between two successful mappings of a page there is a successful unmapping of it. */
  lemma MapsAlternate(pages: Pages, ops: seq<Op>, rs: seq<Reply>, i: nat, j: nat)
    requires Refines(pages, ops, rs) && i < j < |ops|
    requires ops[i].Map? && ops[j].Map? && ops[i].v == ops[j].v && rs[i].rc == OK && rs[j].rc == OK
    ensures exists k :: i < k < j && ops[k] == Unmap(ops[i].v) && rs[k].rc == OK
  {
    var v := ops[i].v;
    LastChangeWins(pages, ops, rs, v, j);
    var k := LastChange(ops, rs, v, j);
    assert Changes(ops, rs, v, i);
    assert AllowedAt(pages, ops, rs, j);
  }
}
