// Tables in physical memory, the walk through them, and the tree they form.

module PageTables {
  import opened Words
  import opened PageEntries
  import opened VirtualAddresses

  /** A page of physical memory, named by its physical address. */
  datatype Frame = Frame(paddr: bv64)

  /** Physical memory that phys_to_virt can reach: each frame, as a page of 512 entries. */
  type PhysMem = map<Frame, seq<bv64>>

  /** Frames are aligned pages below 2^52, so an entry can hold their address. */
  ghost predicate MemOk(mem: PhysMem) {
    && (forall f {:trigger mem[f]} :: f in mem ==> |mem[f]| == ENTRIES)
    && (forall f {:trigger Addressable(f)} :: f in mem ==> Addressable(f))
  }

  predicate Addressable(f: Frame) { IsAligned(f.paddr) && f.paddr & ADDR_MASK == f.paddr }

  /** The entry at index i of the table in frame t; nothing is present elsewhere. */
  function Entry(mem: PhysMem, t: Frame, i: int): bv64 {
    if t in mem && 0 <= i < |mem[t]| then mem[t][i] else 0
  }

  /** The frame an entry points to. */
  function Below(mem: PhysMem, t: Frame, i: int): Frame { Frame(Addr(Entry(mem, t, i))) }

  /** Whether a walk may go down through this entry. */
  predicate Link(e: bv64) { Present(e) && !Huge(e) }

  type Path = seq<int>

  /** The table reached from the root by following the entries at these indices. */
  function Descend(mem: PhysMem, root: Frame, path: Path): Option<Frame> {
    if |path| == 0 then Some(root)
    else
      var t := Descend(mem, root, path[..|path|-1]);
      if t.None? then None
      else
        var e := Entry(mem, t.value, path[|path|-1]);
        if Link(e) then Some(Below(mem, t.value, path[|path|-1])) else None
  }

  function TablePath(x: Indices): Path { [x.pml4, x.pdpt, x.pd] }

  /** The present leaf entry that four indices select. */
  function Leaf(mem: PhysMem, root: Frame, x: Indices): Option<bv64> {
    var t := Descend(mem, root, TablePath(x));
    if t.None? then None
    else
      var e := Entry(mem, t.value, x.pt);
      if Present(e) then Some(e) else None
  }

  // ---------------------------------------------------------------- the tree

  /** pos gives every table its path from the root. Each present entry above the leaves leads to the table
      one step further, and every table is reached by its path. No reachable entry has the HUGE bit. */
  ghost predicate Down(mem: PhysMem, pos: map<Frame, Path>, t: Frame, i: int)
    requires t in pos
  {
    Present(Entry(mem, t, i)) ==>
      && !Huge(Entry(mem, t, i))
      && (|pos[t]| < 3 ==> var c := Below(mem, t, i); c in pos && pos[c] == pos[t] + [i])
  }

  ghost predicate Reached(mem: PhysMem, root: Frame, pos: map<Frame, Path>, t: Frame)
    requires t in pos
  {
    Descend(mem, root, pos[t]) == Some(t)
  }

  ghost predicate Tree(mem: PhysMem, root: Frame, pos: map<Frame, Path>) {
    && MemOk(mem)
    && root in pos && pos[root] == []
    && (forall t :: t in pos ==> t in mem && |pos[t]| <= 3)
    && (forall t, i :: t in pos ==> Down(mem, pos, t, i))
    && (forall t {:trigger Reached(mem, root, pos, t)} :: t in pos ==> Reached(mem, root, pos, t))
  }

  /** A walk that gets through passes a link at every step. */
  lemma {:induction false} DescendPrefix(mem: PhysMem, root: Frame, path: Path, n: nat)
    requires n < |path| && Descend(mem, root, path).Some?
    ensures Descend(mem, root, path[..n]).Some? && Link(Entry(mem, Descend(mem, root, path[..n]).value, path[n]))
    decreases |path|
  {
    var up := path[..|path|-1];
    if n < |up| {
      DescendPrefix(mem, root, up, n);
      assert up[..n] == path[..n];
    }
  }

  /** In a tree, a walk of at most three steps can only reach a table, at its own path. */
  lemma {:induction false} DescendInTree(mem: PhysMem, root: Frame, pos: map<Frame, Path>, path: Path)
    requires Tree(mem, root, pos) && |path| <= 3
    ensures var t := Descend(mem, root, path); t.Some? ==> t.value in pos && pos[t.value] == path
    decreases |path|
  {
    if |path| > 0 {
      var up := path[..|path|-1];
      DescendInTree(mem, root, pos, up);
      var t := Descend(mem, root, up);
      if t.Some? {
        assert Down(mem, pos, t.value, path[|path|-1]);
        assert up + [path[|path|-1]] == path;
      }
    }
  }

  /** The tables form a tree: distinct entries above the leaves lead to distinct tables, none leads back to the
      root, and a table one step down has one more index in its path. */
  lemma TablesFormTree(mem: PhysMem, root: Frame, pos: map<Frame, Path>, t: Frame, i: int, u: Frame, j: int)
    requires Tree(mem, root, pos) && t in pos && u in pos && |pos[t]| < 3 && |pos[u]| < 3
    requires Present(Entry(mem, t, i)) && Present(Entry(mem, u, j))
    ensures Below(mem, t, i) != root
    ensures Below(mem, t, i) in pos && |pos[Below(mem, t, i)]| == |pos[t]| + 1
    ensures Below(mem, t, i) == Below(mem, u, j) ==> t == u && i == j
  {
    assert Down(mem, pos, t, i) && Down(mem, pos, u, j);
    assert Reached(mem, root, pos, t) && Reached(mem, root, pos, u);
    var c, d := Below(mem, t, i), Below(mem, u, j);
    if c == d {
      assert pos[t] == pos[c][..|pos[c]|-1] == pos[u];
      assert i == pos[c][|pos[c]|-1] == j;
    }
  }

  function OnlyRoot(root: Frame): map<Frame, Path> { map[root := []] }

  /** A zeroed root page is a tree of one table that maps nothing. */
  lemma ZeroRootIsTree(mem: PhysMem, root: Frame)
    requires MemOk(mem) && root in mem && forall i :: 0 <= i < ENTRIES ==> mem[root][i] == 0
    ensures Tree(mem, root, OnlyRoot(root))
    ensures forall x :: Leaf(mem, root, x) == None
  {
    var pos := OnlyRoot(root);
    assert pos[root] == [];
    ZeroNotPresent();
    forall x ensures Leaf(mem, root, x) == None {
      assert TablePath(x)[..2][..1] == [x.pml4];
      assert Descend(mem, root, [x.pml4]) == None by { assert [x.pml4][..0] == []; }
      assert Descend(mem, root, TablePath(x)[..2]) == None;
    }
  }
}
