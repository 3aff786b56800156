// vmm.c: an address space as a class. The page tables live in physical memory,
// frames come from a callback, and the abstract value is a partial map from
// virtual pages to leaf entries.

module AddressSpaces {
  import opened Words
  import opened PageEntries
  import opened VirtualAddresses
  import opened PageTables
  import opened PageTableUpdates
  import opened FrameSupply

  const OK: int := 0
  const ERR_EXISTS: int := -3
  const ERR_NOT_FOUND: int := -4

  /** The entry that page v translates to; nothing for an address that is not a canonical page. */
  function PageEntry(mem: PhysMem, root: Frame, v: u64): Option<bv64> {
    if IsPage(v) then Leaf(mem, root, IndicesOf(v)) else None
  }

  /** The tables represent the partial map `pages` from canonical page addresses to present leaf entries. */
  ghost predicate Represents(mem: PhysMem, root: Frame, pages: map<u64, bv64>) {
    forall v: u64 {:trigger PageEntry(mem, root, v)} ::
      PageEntry(mem, root, v) == if v in pages then Some(pages[v]) else None
  }

  lemma SamePathSamePage(v: u64, w: u64)
    requires IsPage(v) && IsPage(w)
    ensures TablePath(IndicesOf(v)) == TablePath(IndicesOf(w)) && IndicesOf(v).pt == IndicesOf(w).pt <==> v == w
  {
    var x, y := IndicesOf(v), IndicesOf(w);
    if TablePath(x) == TablePath(y) && x.pt == y.pt {
      assert x.pml4 == TablePath(x)[0] == y.pml4 && x.pdpt == TablePath(x)[1] == y.pdpt
             && x.pd == TablePath(x)[2] == y.pd;
      IndicesInjective(v, w);
    }
  }

  lemma PageLeafStore(mem: PhysMem, root: Frame, pos: map<Frame, Path>, t: Frame, v: u64, e: bv64, w: u64)
    requires Tree(mem, root, pos) && IsPage(v) && t in pos && pos[t] == TablePath(IndicesOf(v))
    ensures PageEntry(SetEntry(mem, t, IndicesOf(v).pt, e), root, w)
         == if w == v then (if Present(e) then Some(e) else None) else PageEntry(mem, root, w)
  {
    if IsPage(w) {
      LeafStoreLeaf(mem, root, pos, t, IndicesOf(v).pt, e, IndicesOf(w));
      SamePathSamePage(v, w);
    }
  }

  /** Storing a leaf entry adds or removes exactly one page. */
  lemma LeafStoreRepresents(mem: PhysMem, root: Frame, pos: map<Frame, Path>, t: Frame, v: u64, e: bv64,
                            pages: map<u64, bv64>)
    requires Tree(mem, root, pos) && IsPage(v) && t in pos && pos[t] == TablePath(IndicesOf(v))
    requires Represents(mem, root, pages)
    ensures Represents(SetEntry(mem, t, IndicesOf(v).pt, e), root, if Present(e) then pages[v := e] else pages - {v})
  {
    var mem' := SetEntry(mem, t, IndicesOf(v).pt, e);
    var pages' := if Present(e) then pages[v := e] else pages - {v};
    forall w: u64 ensures PageEntry(mem', root, w) == if w in pages' then Some(pages'[w]) else None {
      PageLeafStore(mem, root, pos, t, v, e, w);
    }
  }

  /** Linking an empty table changes no page. */
  lemma LinkRepresents(mem: PhysMem, root: Frame, pos: map<Frame, Path>, t: Frame, i: Index, f: Frame,
                       pages: map<u64, bv64>)
    requires CanLink(mem, root, pos, t, i, f) && Represents(mem, root, pages)
    ensures Represents(LinkTable(mem, t, i, f), root, pages)
  {
    var mem' := LinkTable(mem, t, i, f);
    forall w: u64 ensures PageEntry(mem', root, w) == PageEntry(mem, root, w) {
      if IsPage(w) { LinkLeaf(mem, root, pos, t, i, f, IndicesOf(w)); }
    }
  }

  function FullPath(x: Indices): Path { [x.pml4, x.pdpt, x.pd, x.pt] }

  /** The entries on the way to a mapped page are all present, and the last one is its entry. */
  lemma EntryOfMapped(mem: PhysMem, root: Frame, pos: map<Frame, Path>, pages: map<u64, bv64>, v: u64, t: Frame)
    requires Tree(mem, root, pos) && Represents(mem, root, pages) && v in pages && IsPage(v)
    requires t in pos && pos[t] <= TablePath(IndicesOf(v))
    ensures var e := Entry(mem, t, FullPath(IndicesOf(v))[|pos[t]|]);
            Present(e) && (|pos[t]| == 3 ==> e == pages[v])
  {
    var p, n := TablePath(IndicesOf(v)), |pos[t]|;
    assert PageEntry(mem, root, v) == Some(pages[v]);
    assert Reached(mem, root, pos, t);
    assert pos[t] == p[..n];
    if n < 3 { DescendPrefix(mem, root, p, n); } else { assert pos[t] == p; }
  }

  /** At the leaf table of page v, the entry is present exactly when v is mapped, and is then its entry. */
  lemma PresentIffMapped(mem: PhysMem, root: Frame, pos: map<Frame, Path>, pages: map<u64, bv64>, v: u64, t: Frame)
    requires Tree(mem, root, pos) && Represents(mem, root, pages) && IsPage(v)
    requires t in pos && pos[t] == TablePath(IndicesOf(v))
    ensures Present(Entry(mem, t, IndicesOf(v).pt)) <==> v in pages
    ensures v in pages ==> Entry(mem, t, IndicesOf(v).pt) == pages[v]
  {
    assert Reached(mem, root, pos, t);
    assert PageEntry(mem, root, v) == if v in pages then Some(pages[v]) else None;
  }

  // ---------------------------------------------------------------- the processor's walk

  /** The table behind entry i of table t, if the processor goes on there: not behind an absent entry or one that maps a
      large page. */
  function Onward(mem: PhysMem, t: Option<Frame>, i: int): Option<Frame> {
    if t.None? then None
    else
      var e := Entry(mem, t.value, i);
      if Present(e) && !Huge(e) then Some(Frame(Addr(e))) else None
  }

  /** What a 4-level walk from the root finds for address v: bits 39 to 47 select in the root, 30 to 38 in the next
      table, 21 to 29 in the next, and 12 to 20 in the last. */
  function Walk(mem: PhysMem, root: Frame, v: u64): Option<bv64> {
    var t3 := Onward(mem, Some(root), v / 0x80_0000_0000 % 512);
    var t2 := Onward(mem, t3, v / 0x4000_0000 % 512);
    var t1 := Onward(mem, t2, v / 0x20_0000 % 512);
    if t1.None? then None
    else
      var e := Entry(mem, t1.value, v / 0x1000 % 512);
      if Present(e) then Some(e) else None
  }

  lemma DescendOn(mem: PhysMem, root: Frame, path: Path, i: int)
    ensures Descend(mem, root, path + [i]) == Onward(mem, Descend(mem, root, path), i)
  {
    assert (path + [i])[..|path|] == path;
  }

  /** The tables mean to the processor what they mean here. */
  lemma WalkAgrees(mem: PhysMem, root: Frame, v: u64)
    requires IsPage(v)
    ensures Walk(mem, root, v) == PageEntry(mem, root, v)
  {
    var x := IndicesOf(v);
    DescendOn(mem, root, [], x.pml4);
    DescendOn(mem, root, [x.pml4], x.pdpt);
    DescendOn(mem, root, [x.pml4, x.pdpt], x.pd);
    assert [] + [x.pml4] == [x.pml4] && [x.pml4] + [x.pdpt] == [x.pml4, x.pdpt];
    assert [x.pml4, x.pdpt] + [x.pd] == TablePath(x);
  }

  // ---------------------------------------------------------------- tables

  /** Tables stay where they are as more are added. */
  ghost predicate Grown(pos: map<Frame, Path>, pos': map<Frame, Path>) {
    forall t :: t in pos ==> t in pos' && pos'[t] == pos[t]
  }

  /** vmm_zero_page on the frame f. */
  method ClearPage(mem: PhysMem, f: Frame) returns (mem': PhysMem)
    requires f in mem && |mem[f]| == ENTRIES
    ensures mem' == mem[f := ZeroPage()]
  {
    var page := mem[f];
    var i := 0;
    while i < ENTRIES
      invariant 0 <= i <= ENTRIES == |page|
      invariant forall j :: 0 <= j < i ==> page[j] == 0
    {
      page := page[i := 0];
      i := i + 1;
    }
    assert page == ZeroPage();
    mem' := mem[f := page];
  }

  datatype Mapping = Mapping(vaddr: u64, paddr: bv64, flags: bv64)

  // ---------------------------------------------------------------- missing tables

  /** How many tables the walk to a leaf has to add. */
  ghost function Missing(mem: PhysMem, root: Frame, x: Indices): (n: nat)
    ensures n <= 3
  {
    if Descend(mem, root, TablePath(x)[..1]).None? then 3
    else if Descend(mem, root, TablePath(x)[..2]).None? then 2
    else if Descend(mem, root, TablePath(x)).None? then 1
    else 0
  }

  /** One step of the walk, from a table on the way at depth n. */
  lemma StepOnTheWay(mem: PhysMem, root: Frame, pos: map<Frame, Path>, x: Indices, t: Frame, n: nat)
    requires Tree(mem, root, pos) && t in pos && n < 3 && pos[t] == TablePath(x)[..n]
    ensures Descend(mem, root, TablePath(x)[..n]) == Some(t)
    ensures Descend(mem, root, TablePath(x)[..n+1]).Some? <==> Present(Entry(mem, t, TablePath(x)[n]))
  {
    assert Reached(mem, root, pos, t) && Down(mem, pos, t, TablePath(x)[n]);
    assert TablePath(x)[..n+1][..n] == TablePath(x)[..n];
  }

  lemma PrefixesOnTheWay(mem: PhysMem, root: Frame, x: Indices)
    ensures Descend(mem, root, TablePath(x)).Some? ==> Descend(mem, root, TablePath(x)[..2]).Some?
    ensures Descend(mem, root, TablePath(x)[..2]).Some? ==> Descend(mem, root, TablePath(x)[..1]).Some?
  {
    assert TablePath(x)[..2][..1] == TablePath(x)[..1];
  }

  /** From a table at depth n, an absent entry means that all deeper tables are missing. */
  lemma MissingBelow(mem: PhysMem, root: Frame, pos: map<Frame, Path>, x: Indices, t: Frame, n: nat)
    requires Tree(mem, root, pos) && t in pos && n < 3 && pos[t] == TablePath(x)[..n]
    ensures if Present(Entry(mem, t, TablePath(x)[n])) then Missing(mem, root, x) <= 2 - n
            else Missing(mem, root, x) == 3 - n
  {
    StepOnTheWay(mem, root, pos, x, t, n);
    PrefixesOnTheWay(mem, root, x);
    assert TablePath(x)[..3] == TablePath(x);
  }

  /** At the leaf table nothing is missing. */
  lemma NothingMissing(mem: PhysMem, root: Frame, pos: map<Frame, Path>, x: Indices, t: Frame)
    requires Tree(mem, root, pos) && t in pos && pos[t] == TablePath(x)
    ensures Missing(mem, root, x) == 0
  {
    assert Reached(mem, root, pos, t);
    PrefixesOnTheWay(mem, root, x);
  }

  /** A table without entries. */
  ghost predicate Blank(mem: PhysMem, t: Frame) { t in mem && mem[t] == ZeroPage() }

  /** Below a new table everything is still missing. */
  lemma MissingBelowNew(mem: PhysMem, root: Frame, pos: map<Frame, Path>, x: Indices, t: Frame, n: nat)
    requires Tree(mem, root, pos) && t in pos && n <= 3 && pos[t] == TablePath(x)[..n] && Blank(mem, t)
    ensures Missing(mem, root, x) == 3 - n
  {
    ZeroNotPresent();
    if n < 3 {
      MissingBelow(mem, root, pos, x, t, n);
    } else {
      assert TablePath(x)[..3] == TablePath(x);
      NothingMissing(mem, root, pos, x, t);
    }
  }

  class AddressSpace {
    const root: Frame
    const supply: Supply             // alloc_frame, free_frame and phys_to_virt
    var mem: PhysMem
    var taken: nat                   // how many answers of alloc_frame have been taken
    var returned: seq<Frame>         // what was passed to free_frame
    ghost const inherited: set<Frame>    // the tables there were to begin with
    ghost var pos: map<Frame, Path>
    ghost var pages: map<u64, bv64>
    ghost var tlb: map<u64, bv64>    // the translations the processor holds

    /** The tables are a tree that represents `pages`. */
    ghost predicate Tables()
      reads this
    {
      Tree(mem, root, pos) && Represents(mem, root, pages) && mem.Keys == supply.frames
    }

    /** The frames given back are those that should be, and so are the tables. */
    ghost predicate Books()
      reads this
    {
      && taken <= |supply.answers|
      && returned == Drawn(supply, taken, GivenBack)
      && pos.Keys == TablesAfter(supply, inherited, taken)
    }

    /** No translation the processor holds disagrees with the tables. */
    ghost predicate Coherent()
      reads this
    {
      forall v :: v in tlb ==> v in pages && tlb[v] == pages[v]
    }

    ghost predicate Valid()
      reads this
    {
      Tables() && Fresh(supply, inherited) && Books() && Coherent()
    }

    /** The tables that mapping page v has to add. */
    ghost function Needed(v: u64): (n: nat)
      reads this
      ensures n <= 3
    {
      Missing(mem, root, IndicesOf(v))
    }

    /** The stores of vmm_space_init. */
    constructor (root: Frame, mem: PhysMem, answers: seq<Frame>, canAlloc: bool, canFree: bool,
                 ghost pos: map<Frame, Path>, ghost pages: map<u64, bv64>)
      ensures this.root == root && supply == Supply(canAlloc, canFree, answers, mem.Keys) && inherited == pos.Keys
      ensures this.mem == mem && taken == 0 && returned == [] && tlb == map[] && this.pages == pages && this.pos == pos
      ensures Valid() <==> Tree(mem, root, pos) && Represents(mem, root, pages) && Fresh(supply, inherited)
    {
      this.root, this.mem := root, mem;
      supply, inherited := Supply(canAlloc, canFree, answers, mem.Keys), pos.Keys;
      taken, returned := 0, [];
      this.pos, this.pages := pos, pages;
      tlb := map[];
    }

    /** The part of get_or_alloc_next_table that obtains a frame: misaligned answers are dropped, unreachable
        ones given back. */
    method DrawFrame() returns (rc: int, f: Frame)
      requires mem.Keys == supply.frames && MemOk(mem)
      requires taken <= |supply.answers| && returned == Drawn(supply, taken, GivenBack)
      modifies this`taken, this`returned
      ensures taken <= |supply.answers| && returned == Drawn(supply, taken, GivenBack)
      ensures rc == OK <==> old(Supplied(supply, taken, 1))
      ensures rc != OK ==> (rc, taken) == Refusal(supply, old(taken))
      ensures rc == OK ==> f == supply.answers[old(taken)] && taken == old(taken) + 1
      ensures old(taken) <= taken <= old(taken) + 1
      ensures rc != OK && taken > old(taken) ==> supply.answers[old(taken)] !in supply.frames
    {
      f := NO_FRAME;
      if !supply.canAlloc {
        return ERR_NOMEM, f;
      }
      if taken == |supply.answers| {
        return ERR_NOMEM, f;
      }
      f := supply.answers[taken];
      taken := taken + 1;
      if f in mem { assert Addressable(f); }
      InvalidIsUnaligned();
      if f == NO_FRAME || !IsAligned(f.paddr) {
        return ERR_NOMEM, f;
      }
      if f !in mem {
        if supply.canFree {
          returned := returned + [f];
        }
        return ERR_INVAL, f;
      }
      return OK, f;
    }

    /** A frame for a new table: not a table yet, and the one that the books expect. */
    method DrawNew() returns (rc: int, f: Frame)
      requires Tables() && Fresh(supply, inherited) && Books()
      modifies this`taken, this`returned
      ensures taken <= |supply.answers| && returned == Drawn(supply, taken, GivenBack)
      ensures rc == OK <==> old(Supplied(supply, taken, 1))
      ensures rc == OK ==> f in mem && f !in pos && taken == old(taken) + 1
      ensures rc == OK ==> Refusal(supply, taken) == Refusal(supply, old(taken))
      ensures rc != OK ==> (rc, taken) == Refusal(supply, old(taken))
      ensures TablesAfter(supply, inherited, taken) == pos.Keys + if rc == OK then {f} else {}
      ensures old(taken) <= taken <= old(taken) + 1
    {
      rc, f := DrawFrame();
      if rc == OK { NextIsFresh(supply, inherited, old(taken)); }
    }

    /** Zero frame f and link it at entry `index` of `table`. */
    method LinkFrame(table: Frame, index: Index, f: Frame)
      requires Tables() && CanLink(mem, root, pos, table, index, f)
      modifies this`mem, this`pos
      ensures Tables() && pos == old(pos)[f := old(pos)[table] + [index]] && Blank(mem, f)
      ensures pos.Keys == old(pos.Keys) + {f}
    {
      LinkTree(mem, root, pos, table, index, f);
      LinkRepresents(mem, root, pos, table, index, f, pages);
      mem := ClearPage(mem, f);
      mem := SetEntry(mem, table, index, TableEntry(f.paddr));
      pos := pos[f := pos[table] + [index]];
    }

    /** The table behind a present entry. */
    method FollowEntry(table: Frame, index: Index) returns (rc: int, next: Frame)
      requires Tables() && table in pos && |pos[table]| < 3 && Present(Entry(mem, table, index))
      ensures rc == OK && next in pos && pos[next] == pos[table] + [index]
    {
      var entry := mem[table][index];
      assert Down(mem, pos, table, index);
      if Huge(entry) {
        return ERR_EXISTS, table;
      }
      next := Frame(Addr(entry));
      if next !in mem {
        return ERR_INVAL, table;
      }
      return OK, next;
    }

    /** A new table behind an absent entry. */
    method AddTable(table: Frame, index: Index) returns (rc: int, next: Frame)
      requires Valid() && table in pos && |pos[table]| < 3 && !Present(Entry(mem, table, index))
      modifies this`mem, this`taken, this`returned, this`pos
      ensures Valid() && Grown(old(pos), pos)
      ensures rc == OK ==> Refusal(supply, taken) == Refusal(supply, old(taken))
      ensures rc != OK ==> (rc, taken) == Refusal(supply, old(taken))
      ensures rc == OK <==> old(Supplied(supply, taken, 1))
      ensures rc == OK ==> next in pos && pos[next] == pos[table] + [index]
      ensures rc == OK ==> taken == old(taken) + 1 && Blank(mem, next)
      ensures old(taken) <= taken <= old(taken) + 1
    {
      rc, next := DrawNew();
      if rc != OK {
        return;
      }
      LinkFrame(table, index, next);
    }

    /** get_or_alloc_next_table at a table above the leaves. No translation changes, whatever the outcome. */
    method NextTable(table: Frame, index: Index) returns (rc: int, next: Frame)
      requires Valid() && table in pos && |pos[table]| < 3
      modifies this`mem, this`taken, this`returned, this`pos
      ensures Valid() && Grown(old(pos), pos)
      ensures rc == OK ==> Refusal(supply, taken) == Refusal(supply, old(taken))
      ensures rc != OK ==> (rc, taken) == Refusal(supply, old(taken))
      ensures rc == OK ==> next in pos && pos[next] == pos[table] + [index]
      ensures old(taken) <= taken <= old(taken) + 1
      ensures if old(Present(Entry(mem, table, index)))
              then rc == OK && mem == old(mem) && pos == old(pos) && taken == old(taken)
              else && (rc == OK <==> old(Supplied(supply, taken, 1)))
                   && (rc == OK ==> taken == old(taken) + 1 && Blank(mem, next))
    {
      if Present(mem[table][index]) {
        rc, next := FollowEntry(table, index);
      } else {
        rc, next := AddTable(table, index);
      }
    }

    /** One step of vmm_map_page towards page v, from the table at depth n of its path: it takes a frame exactly when
        a table is missing. */
    method CountedStep(v: u64, table: Frame, index: Index, ghost n: nat) returns (rc: int, next: Frame)
      requires Valid() && n < 3 && table in pos
      requires pos[table] == TablePath(IndicesOf(v))[..n] && index == TablePath(IndicesOf(v))[n]
      modifies this`mem, this`taken, this`returned, this`pos
      ensures Valid() && Grown(old(pos), pos)
      ensures rc == OK ==> Refusal(supply, taken) == Refusal(supply, old(taken))
      ensures rc != OK ==> (rc, taken) == Refusal(supply, old(taken))
      ensures rc == OK ==> next in pos && pos[next] == TablePath(IndicesOf(v))[..n+1]
      ensures old(Supplied(supply, taken, Needed(v))) <==> rc == OK && Supplied(supply, taken, Needed(v))
      ensures rc == OK ==> taken + Needed(v) == old(taken + Needed(v))
      ensures old(Present(Entry(mem, table, index))) ==> rc == OK && mem == old(mem) && taken == old(taken)
    {
      MissingBelow(mem, root, pos, IndicesOf(v), table, n);
      rc, next := NextTable(table, index);
      if rc == OK && taken > old(taken) { MissingBelowNew(mem, root, pos, IndicesOf(v), next, n + 1); }
    }

    /** The same step, which leaves the tables alone if page v is mapped. */
    method StepDown(v: u64, table: Frame, index: Index, ghost n: nat) returns (rc: int, next: Frame)
      requires Valid() && IsPage(v) && n < 3 && table in pos
      requires pos[table] == TablePath(IndicesOf(v))[..n] && index == TablePath(IndicesOf(v))[n]
      modifies this`mem, this`taken, this`returned, this`pos
      ensures Valid() && Grown(old(pos), pos)
      ensures rc == OK ==> Refusal(supply, taken) == Refusal(supply, old(taken))
      ensures rc != OK ==> (rc, taken) == Refusal(supply, old(taken))
      ensures rc == OK ==> next in pos && pos[next] == TablePath(IndicesOf(v))[..n+1]
      ensures old(Supplied(supply, taken, Needed(v))) <==> rc == OK && Supplied(supply, taken, Needed(v))
      ensures rc == OK ==> taken + Needed(v) == old(taken + Needed(v))
      ensures v in pages ==> rc == OK && mem == old(mem) && taken == old(taken)
    {
      if v in pages { EntryOfMapped(mem, root, pos, pages, v, table); }
      rc, next := CountedStep(v, table, index, n);
    }

    /** The way down of vmm_map_page: to the leaf table of page v, with tables allocated on the way. */
    method LeafTable(v: u64) returns (rc: int, pt: Frame)
      requires Valid() && IsPage(v)
      modifies this`mem, this`taken, this`returned, this`pos
      ensures Valid() && Grown(old(pos), pos)
      ensures rc == OK || (rc, taken) == Refusal(supply, old(taken))
      ensures rc == OK ==> pt in pos && pos[pt] == TablePath(IndicesOf(v))
      ensures rc == OK <==> old(Supplied(supply, taken, Needed(v)))
      ensures rc == OK ==> taken == old(taken + Needed(v))
      ensures v in pages ==> rc == OK && mem == old(mem) && taken == old(taken)
    {
      var x := IndicesOf(v);
      rc, pt := StepDown(v, root, x.pml4, 0);
      if rc != OK {
        return;
      }
      rc, pt := LowerTables(v, pt);
    }

    /** The last two steps, from a table one step below the root. */
    method LowerTables(v: u64, table: Frame) returns (rc: int, pt: Frame)
      requires Valid() && IsPage(v) && table in pos && pos[table] == TablePath(IndicesOf(v))[..1]
      modifies this`mem, this`taken, this`returned, this`pos
      ensures Valid() && Grown(old(pos), pos)
      ensures rc == OK || (rc, taken) == Refusal(supply, old(taken))
      ensures rc == OK ==> pt in pos && pos[pt] == TablePath(IndicesOf(v))
      ensures rc == OK <==> old(Supplied(supply, taken, Needed(v)))
      ensures rc == OK ==> taken == old(taken + Needed(v))
      ensures v in pages ==> rc == OK && mem == old(mem) && taken == old(taken)
    {
      var x := IndicesOf(v);
      rc, pt := StepDown(v, table, x.pdpt, 1);
      if rc != OK {
        return;
      }
      rc, pt := StepDown(v, pt, x.pd, 2);
      if rc == OK { NothingMissing(mem, root, pos, x, pt); }
    }

    // -------------------------------------------------------------- mapping

    /** The last step of vmm_map_page and vmm_unmap_page: store a leaf entry for page v. */
    method StoreLeaf(v: u64, pt: Frame, e: bv64)
      requires Tables() && IsPage(v) && pt in pos && pos[pt] == TablePath(IndicesOf(v))
      requires Present(e) ==> !Huge(e)
      modifies this`mem, this`pages
      ensures Tables() && pages == if Present(e) then old(pages)[v := e] else old(pages) - {v}
    {
      LeafStoreTree(mem, root, pos, pt, IndicesOf(v).pt, e);
      LeafStoreRepresents(mem, root, pos, pt, v, e, pages);
      mem := SetEntry(mem, pt, IndicesOf(v).pt, e);
      pages := if Present(e) then pages[v := e] else pages - {v};
    }

    /** vmm_map_page: on success exactly page v is added; on any error no translation changes, even if empty
        tables were linked on the way. */
    method MapPage(v: u64, paddr: bv64, flags: bv64) returns (rc: int)
      requires Valid()
      modifies this`mem, this`taken, this`returned, this`pos, this`pages
      ensures Valid() && Grown(old(pos), pos)
      ensures !(IsPage(v) && IsAligned(paddr)) ==>
                rc == ERR_INVAL && mem == old(mem) && taken == old(taken) && returned == old(returned)
      ensures IsPage(v) && IsAligned(paddr) ==> (rc == ERR_EXISTS <==> v in old(pages))
      ensures rc == OK ==> v !in old(pages) && pages == old(pages)[v := LeafEntry(paddr, flags)]
      ensures rc != OK ==> pages == old(pages)
      ensures IsPage(v) && IsAligned(paddr) && v !in old(pages) ==>
                (rc == OK <==> old(Supplied(supply, taken, Needed(v))))
      ensures rc == OK ==> taken == old(taken + Needed(v))
      ensures IsPage(v) && IsAligned(paddr) && v !in old(pages) && rc != OK ==>
                (rc, taken) == Refusal(supply, old(taken))
      ensures rc == ERR_EXISTS ==> mem == old(mem)
      ensures rc in {OK, ERR_INVAL, ERR_NOMEM, ERR_EXISTS}
      ensures IsPage(v) && IsAligned(paddr) ==>
                (rc == ERR_INVAL <==> rc != OK && v !in old(pages) && old(taken) < taken <= |supply.answers|
                                      && BadAnswer(supply, taken - 1))
    {
      if !IsCanonical(v) || !IsPageAligned(v) || !IsAligned(paddr) {
        return ERR_INVAL;
      }
      var pt;
      rc, pt := LeafTable(v);
      if rc != OK {
        RefusalByLast(supply, old(taken));
        return;
      }
      PresentIffMapped(mem, root, pos, pages, v, pt);
      if Present(mem[pt][IndicesOf(v).pt]) {
        return ERR_EXISTS;
      }
      StoreLeaf(v, pt, LeafEntry(paddr, flags));
    }

    // -------------------------------------------------------------- reading and unmapping

    /** The walk that vmm_query_page and vmm_unmap_page share: the leaf table of page v, if its entries lead there. */
    method FindLeafTable(v: u64) returns (rc: int, pt: Frame)
      requires Tables() && IsPage(v)
      ensures rc == OK || rc == ERR_NOT_FOUND
      ensures rc == OK ==> pt in pos && pos[pt] == TablePath(IndicesOf(v))
      ensures rc == ERR_NOT_FOUND ==> v !in pages
    {
      var x := IndicesOf(v);
      rc, pt := Through(v, root, x.pml4, 0);
      if rc != OK {
        return;
      }
      rc, pt := Through(v, pt, x.pdpt, 1);
      if rc != OK {
        return;
      }
      rc, pt := Through(v, pt, x.pd, 2);
    }

    method Through(v: u64, table: Frame, index: Index, ghost n: nat) returns (rc: int, next: Frame)
      requires Tables() && IsPage(v) && n < 3 && table in pos
      requires pos[table] == TablePath(IndicesOf(v))[..n] && index == TablePath(IndicesOf(v))[n]
      ensures rc == OK || rc == ERR_NOT_FOUND
      ensures rc == OK ==> next in pos && pos[next] == TablePath(IndicesOf(v))[..n+1]
      ensures rc == ERR_NOT_FOUND ==> v !in pages
    {
      var e := mem[table][index];
      if v in pages { EntryOfMapped(mem, root, pos, pages, v, table); }
      assert Down(mem, pos, table, index);
      if !Present(e) || Huge(e) {
        return ERR_NOT_FOUND, table;
      }
      next := Frame(Addr(e));
      if next !in mem {
        return ERR_INVAL, table;
      }
      return OK, next;
    }

    /** vmm_query_page reports exactly the partial map. */
    method QueryPage(v: u64) returns (rc: int, m: Mapping)
      requires Valid()
      ensures !IsPage(v) <==> rc == ERR_INVAL
      ensures IsPage(v) ==> (rc == OK <==> v in pages) && (rc == ERR_NOT_FOUND <==> v !in pages)
      ensures rc == OK ==> m == Mapping(v, Addr(pages[v]), Flags(pages[v]))
    {
      m := Mapping(0, 0, 0);
      if !IsCanonical(v) || !IsPageAligned(v) {
        return ERR_INVAL, m;
      }
      var pt;
      rc, pt := FindLeafTable(v);
      if rc != OK {
        return;
      }
      PresentIffMapped(mem, root, pos, pages, v, pt);
      var e := mem[pt][IndicesOf(v).pt];
      if !Present(e) {
        return ERR_NOT_FOUND, m;
      }
      return OK, Mapping(v, Addr(e), Flags(e));
    }

    /** vmm_unmap_page removes exactly page v, and no stale translation of it survives the call. */
    method UnmapPage(v: u64) returns (rc: int)
      requires Valid()
      modifies this`mem, this`pages, this`tlb
      ensures Valid()
      ensures !IsPage(v) <==> rc == ERR_INVAL
      ensures IsPage(v) ==> (rc == OK <==> v in old(pages)) && (rc == ERR_NOT_FOUND <==> v !in old(pages))
      ensures rc == OK ==> pages == old(pages) - {v} && tlb == old(tlb) - {v}
      ensures rc != OK ==> mem == old(mem) && pages == old(pages) && tlb == old(tlb)
    {
      if !IsCanonical(v) || !IsPageAligned(v) {
        return ERR_INVAL;
      }
      var pt;
      rc, pt := FindLeafTable(v);
      if rc != OK {
        return;
      }
      PresentIffMapped(mem, root, pos, pages, v, pt);
      if !Present(mem[pt][IndicesOf(v).pt]) {
        return ERR_NOT_FOUND;
      }
      ZeroNotPresent();
      StoreLeaf(v, pt, 0);
      tlb := tlb - {v};    // vmm_invalidate_page
    }

    /** The processor may at any time keep the translation of a mapped page. */
    ghost method CacheTranslation(v: u64)
      requires Valid() && v in pages
      modifies this`tlb
      ensures Valid() && tlb == old(tlb)[v := pages[v]]
    {
      tlb := tlb[v := pages[v]];
    }

    /** What the processor finds by walking the tables is what is mapped, for every canonical page. */
    lemma ProcessorSees(v: u64)
      requires Valid() && IsPage(v)
      ensures Walk(mem, root, v) == if v in pages then Some(pages[v]) else None
    {
      WalkAgrees(mem, root, v);
    }

    // -------------------------------------------------------------- what becomes of drawn frames

    /** A drawn answer is a table exactly when it can be reached, and was given back exactly when it is aligned, cannot
        be reached, and there is a free_frame. */
    lemma FateOfAnswer(i: nat)
      requires Valid() && i < taken
      ensures supply.answers[i] in pos <==> supply.answers[i] in supply.frames
      ensures supply.answers[i] in returned <==>
                && supply.answers[i] != NO_FRAME && supply.answers[i] !in supply.frames
                && IsAligned(supply.answers[i].paddr) && supply.canFree
    {
      var f := supply.answers[i];
      assert f in supply.answers[..taken] by { assert supply.answers[..taken][i] == f; }
      TablesHas(supply, inherited, taken, f);
      DrawnHas(supply, taken, GivenBack, f);
    }

    /** A frame was drawn and is neither a table nor given back. */
    ghost predicate Lost(i: nat)
      reads this
    {
      && i < taken <= |supply.answers| && supply.answers[i] != NO_FRAME
      && supply.answers[i] !in pos && supply.answers[i] !in returned
    }

    /** Which drawn answers are lost. */
    lemma LostIff(i: nat)
      requires Valid() && i < taken
      ensures Lost(i) <==>
                && supply.answers[i] != NO_FRAME && supply.answers[i] !in supply.frames
                && !(IsAligned(supply.answers[i].paddr) && supply.canFree)
    {
      FateOfAnswer(i);
    }

    /** With a free_frame, and a callback that answers with aligned addresses, nothing is lost. */
    lemma NothingLost()
      requires Valid() && supply.canFree
      requires forall i :: 0 <= i < taken ==> supply.answers[i] == NO_FRAME || IsAligned(supply.answers[i].paddr)
      ensures forall i :: !Lost(i)
    {
      forall i: nat ensures !Lost(i) {
        if i < taken { LostIff(i); }
      }
    }

    /** Conservation: every answer taken was no frame, became one more table, was given back or is lost; and the tables
        are those inherited and the reachable answers taken. */
    lemma Conservation()
      requires Valid()
      ensures taken == |Drawn(supply, taken, NoFrame)| + (|pos.Keys| - |inherited|)
                       + |returned| + |Drawn(supply, taken, Leaks)|
      ensures forall t :: t in pos <==>
                t in inherited || (t in supply.answers[..taken] && t in supply.frames)
      ensures Drawn(supply, taken, Leaks) == [] <==> forall i :: !Lost(i)
    {
      NoFrameUnreachable();
      EveryAnswerCounts(supply, inherited, taken);
      forall t ensures t in pos <==> t in inherited || (t in supply.answers[..taken] && t in supply.frames) {
        TablesHas(supply, inherited, taken, t);
      }
      LeaksAreLost();
    }

    lemma NoFrameUnreachable()
      requires Valid()
      ensures NO_FRAME !in supply.frames
    {
      assert NO_FRAME in mem ==> Addressable(NO_FRAME);
      InvalidIsUnaligned();
    }

    lemma LeaksAreLost()
      requires Valid()
      ensures Drawn(supply, taken, Leaks) == [] <==> forall i :: !Lost(i)
    {
      forall i: nat | i < taken ensures Lost(i) ==> supply.answers[i] in Drawn(supply, taken, Leaks) {
        LostIff(i);
        assert supply.answers[..taken][i] == supply.answers[i];
        DrawnHas(supply, taken, Leaks, supply.answers[i]);
      }
      if Drawn(supply, taken, Leaks) != [] {
        var f := Drawn(supply, taken, Leaks)[0];
        DrawnHas(supply, taken, Leaks, f);
        var i: nat :| i < taken && supply.answers[i] == f;
        LostIff(i);
        assert Lost(i);
      }
    }
  }

  /** vmm_space_init: a misaligned root is refused; otherwise the arguments are stored and the root page is not looked
      at. The space is in order exactly when that page already heads a tree, a zeroed page for example. */
  method SpaceInit(root: Frame, mem: PhysMem, answers: seq<Frame>, canAlloc: bool, canFree: bool,
                   ghost pos: map<Frame, Path>, ghost pages: map<u64, bv64>)
    returns (rc: int, space: AddressSpace?)
    ensures rc == if IsAligned(root.paddr) then OK else ERR_INVAL
    ensures space != null <==> rc == OK
    ensures space != null ==>
              && fresh(space) && space.root == root && space.supply == Supply(canAlloc, canFree, answers, mem.Keys)
              && space.mem == mem && space.taken == 0 && space.returned == [] && space.tlb == map[]
              && space.pages == pages && space.pos == pos && space.inherited == pos.Keys
              && (space.Valid() <==>
                    Tree(mem, root, pos) && Represents(mem, root, pages) && Fresh(space.supply, pos.Keys))
  {
    if !IsAligned(root.paddr) {
      return ERR_INVAL, null;
    }
    space := new AddressSpace(root, mem, answers, canAlloc, canFree, pos, pages);
    return OK, space;
  }
}
