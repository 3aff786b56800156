// What the two kinds of store in vmm.c do to the tree and to the translations:
// storing a leaf entry, and linking a freshly zeroed table.

module PageTableUpdates {
  import opened Words
  import opened PageEntries
  import opened VirtualAddresses
  import opened PageTables

  /** mem after the store table[i] = e. */
  function SetEntry(mem: PhysMem, t: Frame, i: int, e: bv64): PhysMem
    requires t in mem && 0 <= i < |mem[t]|
  {
    mem[t := mem[t][i := e]]
  }

  // ---------------------------------------------------------------- leaf entries

  lemma {:induction false} LeafStoreDescend(mem: PhysMem, root: Frame, pos: map<Frame, Path>, t: Frame, i: Index,
                                           e: bv64, path: Path)
    requires Tree(mem, root, pos) && t in pos && |pos[t]| == 3 && |path| <= 3
    ensures Descend(SetEntry(mem, t, i, e), root, path) == Descend(mem, root, path)
    decreases |path|
  {
    if |path| > 0 {
      var up := path[..|path|-1];
      LeafStoreDescend(mem, root, pos, t, i, e, up);
      DescendInTree(mem, root, pos, up);
      var u := Descend(mem, root, up);
      assert u.Some? ==> u.value != t;
    }
  }

  /** Storing an entry in a leaf table changes the translation of that one page. */
  lemma LeafStoreLeaf(mem: PhysMem, root: Frame, pos: map<Frame, Path>, t: Frame, i: Index, e: bv64, x: Indices)
    requires Tree(mem, root, pos) && t in pos && |pos[t]| == 3
    ensures Leaf(SetEntry(mem, t, i, e), root, x)
         == if TablePath(x) == pos[t] && x.pt == i then (if Present(e) then Some(e) else None)
            else Leaf(mem, root, x)
  {
    LeafStoreDescend(mem, root, pos, t, i, e, TablePath(x));
    DescendInTree(mem, root, pos, TablePath(x));
    assert Reached(mem, root, pos, t);
  }

  lemma LeafStoreDown(mem: PhysMem, root: Frame, pos: map<Frame, Path>, t: Frame, i: Index, e: bv64, u: Frame, j: int)
    requires Tree(mem, root, pos) && t in pos && |pos[t]| == 3 && (Present(e) ==> !Huge(e)) && u in pos
    ensures Down(SetEntry(mem, t, i, e), pos, u, j)
  {
    assert Down(mem, pos, u, j);
  }

  lemma LeafStoreTree(mem: PhysMem, root: Frame, pos: map<Frame, Path>, t: Frame, i: Index, e: bv64)
    requires Tree(mem, root, pos) && t in pos && |pos[t]| == 3 && (Present(e) ==> !Huge(e))
    ensures Tree(SetEntry(mem, t, i, e), root, pos)
  {
    var mem' := SetEntry(mem, t, i, e);
    forall u, j | u in pos ensures Down(mem', pos, u, j) {
      LeafStoreDown(mem, root, pos, t, i, e, u, j);
    }
    forall u | u in pos ensures Reached(mem', root, pos, u) {
      assert Reached(mem, root, pos, u);
      LeafStoreDescend(mem, root, pos, t, i, e, pos[u]);
    }
  }

  // ---------------------------------------------------------------- new tables

  function ZeroPage(): (page: seq<bv64>)
    ensures |page| == ENTRIES && forall i :: 0 <= i < |page| ==> page[i] == 0
  {
    seq(ENTRIES, _ => 0)
  }

  /** mem after frame f was zeroed and linked at entry i of table t. */
  function LinkTable(mem: PhysMem, t: Frame, i: int, f: Frame): PhysMem
    requires t in mem && f in mem && t != f && 0 <= i < |mem[t]|
  {
    SetEntry(mem[f := ZeroPage()], t, i, TableEntry(f.paddr))
  }

  /** f is a frame that is not a table, and entry i of table t, above the leaves, is free. */
  ghost predicate CanLink(mem: PhysMem, root: Frame, pos: map<Frame, Path>, t: Frame, i: Index, f: Frame) {
    && Tree(mem, root, pos) && t in pos && |pos[t]| < 3 && !Present(Entry(mem, t, i))
    && f in mem && f !in pos
  }

  lemma PageAndEntry(mem: PhysMem, t: Frame, i: Index, f: Frame, e: bv64, u: Frame, j: int)
    requires t in mem && f in mem && t != f && |mem[t]| == ENTRIES
    ensures Entry(SetEntry(mem[f := ZeroPage()], t, i, e), u, j)
         == if u == t && j == i then e else if u == f then 0 else Entry(mem, u, j)
  {
  }

  /** What each entry holds once f is linked. */
  lemma LinkEntry(mem: PhysMem, root: Frame, pos: map<Frame, Path>, t: Frame, i: Index, f: Frame, u: Frame, j: int)
    requires CanLink(mem, root, pos, t, i, f)
    ensures var e := Entry(LinkTable(mem, t, i, f), u, j);
            if u == t && j == i then e == TableEntry(f.paddr) && Frame(Addr(e)) == f
            else if u == f then e == 0
            else e == Entry(mem, u, j)
  {
    PageAndEntry(mem, t, i, f, TableEntry(f.paddr), u, j);
    assert Addressable(f);
  }

  lemma PrefixStep(head: Path, i: int, up: Path, j: int)
    ensures up + [j] == head + [i] <==> up == head && j == i
    ensures head + [i] <= up + [j] ==> up + [j] == head + [i] || head + [i] <= up
  {
    var key, path := head + [i], up + [j];
    if path == key {
      assert up == path[..|path|-1] && head == key[..|key|-1];
      assert j == path[|path|-1] && i == key[|key|-1];
    }
    if key <= path && |key| == |path| { assert key == path; }
    if key <= path && |key| < |path| { assert key == path[..|key|] == up[..|key|]; }
  }

  /** Where one path leads before and after f is linked at `key`: to f by key itself, and otherwise where it led. */
  ghost predicate Rerouted(mem: PhysMem, mem': PhysMem, root: Frame, key: Path, f: Frame, path: Path) {
    && (key <= path ==> Descend(mem, root, path) == None)
    && Descend(mem', root, path) == if path == key then Some(f) else Descend(mem, root, path)
  }

  /** One more step beyond a path that does not end at f. */
  lemma LinkStepOld(mem: PhysMem, root: Frame, pos: map<Frame, Path>, t: Frame, i: Index, f: Frame, up: Path, j: int)
    requires CanLink(mem, root, pos, t, i, f) && |up| < 3 && up != pos[t] + [i]
    requires Rerouted(mem, LinkTable(mem, t, i, f), root, pos[t] + [i], f, up)
    ensures Rerouted(mem, LinkTable(mem, t, i, f), root, pos[t] + [i], f, up + [j])
  {
    assert (up + [j])[..|up|] == up;
    PrefixStep(pos[t], i, up, j);
    DescendInTree(mem, root, pos, up);
    assert Reached(mem, root, pos, t);
    var u := Descend(mem, root, up);
    if u.Some? { LinkEntry(mem, root, pos, t, i, f, u.value, j); }
  }

  /** One more step beyond f, whose entries are all absent. */
  lemma LinkStepNew(mem: PhysMem, root: Frame, pos: map<Frame, Path>, t: Frame, i: Index, f: Frame, j: int)
    requires CanLink(mem, root, pos, t, i, f)
    requires Rerouted(mem, LinkTable(mem, t, i, f), root, pos[t] + [i], f, pos[t] + [i])
    ensures Rerouted(mem, LinkTable(mem, t, i, f), root, pos[t] + [i], f, pos[t] + [i] + [j])
  {
    var key := pos[t] + [i];
    assert (key + [j])[..|key|] == key;
    LinkEntry(mem, root, pos, t, i, f, f, j);
    ZeroNotPresent();
  }

  /** Where every walk of at most three steps leads once f is linked. */
  lemma {:induction false} LinkDescend(mem: PhysMem, root: Frame, pos: map<Frame, Path>, t: Frame, i: Index,
                                      f: Frame, path: Path)
    requires CanLink(mem, root, pos, t, i, f) && |path| <= 3
    ensures Rerouted(mem, LinkTable(mem, t, i, f), root, pos[t] + [i], f, path)
    decreases |path|
  {
    if |path| > 0 {
      var up, j := path[..|path|-1], path[|path|-1];
      assert path == up + [j];
      LinkDescend(mem, root, pos, t, i, f, up);
      if up == pos[t] + [i] {
        LinkStepNew(mem, root, pos, t, i, f, j);
      } else {
        LinkStepOld(mem, root, pos, t, i, f, up, j);
      }
    }
  }

  /** Linking an empty table changes no translation. */
  lemma LinkLeaf(mem: PhysMem, root: Frame, pos: map<Frame, Path>, t: Frame, i: Index, f: Frame, x: Indices)
    requires CanLink(mem, root, pos, t, i, f)
    ensures Leaf(LinkTable(mem, t, i, f), root, x) == Leaf(mem, root, x)
  {
    LinkDescend(mem, root, pos, t, i, f, TablePath(x));
    DescendInTree(mem, root, pos, TablePath(x));
    ZeroNotPresent();
    var u := Descend(LinkTable(mem, t, i, f), root, TablePath(x));
    if u.Some? { LinkEntry(mem, root, pos, t, i, f, u.value, x.pt); }
  }

  /** Linking a frame that was not a table keeps the tables a tree. */
  lemma LinkTree(mem: PhysMem, root: Frame, pos: map<Frame, Path>, t: Frame, i: Index, f: Frame)
    requires CanLink(mem, root, pos, t, i, f)
    ensures Tree(LinkTable(mem, t, i, f), root, pos[f := pos[t] + [i]])
  {
    var mem' := LinkTable(mem, t, i, f);
    var pos' := pos[f := pos[t] + [i]];
    LinkMemOk(mem, root, pos, t, i, f);
    forall u, j | u in pos' ensures Down(mem', pos', u, j) {
      LinkDown(mem, root, pos, t, i, f, u, j);
    }
    forall u | u in pos' ensures Reached(mem', root, pos', u) {
      LinkReaches(mem, root, pos, t, i, f, u);
    }
  }

  lemma LinkMemOk(mem: PhysMem, root: Frame, pos: map<Frame, Path>, t: Frame, i: Index, f: Frame)
    requires CanLink(mem, root, pos, t, i, f)
    ensures MemOk(LinkTable(mem, t, i, f)) && LinkTable(mem, t, i, f).Keys == mem.Keys
  {
  }

  lemma LinkDown(mem: PhysMem, root: Frame, pos: map<Frame, Path>, t: Frame, i: Index, f: Frame, u: Frame, j: int)
    requires CanLink(mem, root, pos, t, i, f) && (u in pos || u == f)
    ensures Down(LinkTable(mem, t, i, f), pos[f := pos[t] + [i]], u, j)
  {
    LinkEntry(mem, root, pos, t, i, f, u, j);
    ZeroNotPresent();
    if u in pos { assert Down(mem, pos, u, j); }
  }

  lemma LinkReaches(mem: PhysMem, root: Frame, pos: map<Frame, Path>, t: Frame, i: Index, f: Frame, u: Frame)
    requires CanLink(mem, root, pos, t, i, f) && (u in pos || u == f)
    ensures Reached(LinkTable(mem, t, i, f), root, pos[f := pos[t] + [i]], u)
  {
    if u in pos { assert Reached(mem, root, pos, u); }
    LinkDescend(mem, root, pos, t, i, f, pos[f := pos[t] + [i]][u]);
  }
}
