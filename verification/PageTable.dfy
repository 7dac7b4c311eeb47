/** The three-level page table of vm.c, stored in the frames of physical memory. */
module PageTable {
  import opened Bytes
  import opened Sv39

  type Frame = s: seq<byte> | |s| == PGSIZE witness Zeros(4096)

  const ZERO_FRAME: Frame := Zeros(PGSIZE)

  /** Physical memory, page frame by page frame. */
  type Memory = seq<Frame>

  /** The i-th entry of a frame read as a table. */
  function EntryIn(f: Frame, i: nat): nat
    requires i < ENTRIES
  {
    FromLe(f[8 * i..8 * i + 8])
  }

  function StoreEntry(f: Frame, i: nat, pte: nat): Frame
    requires i < ENTRIES
  {
    Overlay(f, 8 * i, ToLe(pte, 8))
  }

  lemma EntryOfStore(f: Frame, i: nat, pte: nat, j: nat)
    requires i < ENTRIES && j < ENTRIES && pte < TWO_64
    ensures EntryIn(StoreEntry(f, i, pte), j) == if j == i then pte else EntryIn(f, j)
  {
    var g := StoreEntry(f, i, pte);
    if j == i {
      assert g[8 * i..8 * i + 8] == ToLe(pte, 8);
      Pow256Of8();
      FromToLe(pte, 8);
    } else {
      assert g[8 * j..8 * j + 8] == f[8 * j..8 * j + 8];
    }
  }

  lemma EntryOfZero(j: nat)
    requires j < ENTRIES
    ensures EntryIn(ZERO_FRAME, j) == 0
  {
    assert ZERO_FRAME[8 * j..8 * j + 8] == Zeros(8);
    FromLeZeros(8);
  }

  /** The i-th entry of table frame f; 0 (not valid) outside memory. */
  function Entry(mem: Memory, f: nat, i: nat): nat {
    if f < |mem| && i < ENTRIES then EntryIn(mem[f], i) else 0
  }

  // ---- the tree ----

  /** The number of nodes at depth d of a full tree: depth 0 is the root table, depths 1
      and 2 are tables, depth 3 is the data pages. */
  function Width(d: nat): (w: nat)
    ensures w > 0
  {
    if d == 0 then 1 else if d == 1 then 512 else if d == 2 then 0x4_0000 else VPNS
  }

  predicate InTree(d: nat, p: nat) {
    d <= 3 && p < Width(d)
  }

  /** The frame at position p of depth d: the one the walk from the root comes to when it
      follows the base-512 digits of p. */
  function Node(mem: Memory, root: nat, d: nat, p: nat): Option<nat>
    decreases d
  {
    if d == 0 then Some(root)
    else
      match Node(mem, root, d - 1, p / 512)
      case None => None
      case Some(f) =>
        var pte := Entry(mem, f, p % 512);
        if PteValid(pte) then Some(PteFrame(pte)) else None
  }

  /** Each frame of the tree is inside memory and reached by one path only. */
  ghost predicate Tree(mem: Memory, root: nat) {
    && (forall d: nat, p: nat :: InTree(d, p) && Node(mem, root, d, p).Some? ==>
          0 < Node(mem, root, d, p).value < |mem|)
    && (forall d: nat, p: nat, e: nat, q: nat ::
          InTree(d, p) && InTree(e, q) && Node(mem, root, d, p).Some? && Node(mem, root, d, p) == Node(mem, root, e, q)
          ==> d == e && p == q)
  }

  ghost predicate InnerTable(mem: Memory, f: nat) {
    forall i: nat :: i < ENTRIES && PteValid(Entry(mem, f, i)) ==> PteTable(Entry(mem, f, i))
  }

  /** Every valid entry above the lowest level refers to a table. */
  ghost predicate InnerTables(mem: Memory, root: nat) {
    forall d: nat, p: nat :: d < 2 && InTree(d, p) && Node(mem, root, d, p).Some? ==>
      InnerTable(mem, Node(mem, root, d, p).value)
  }

  ghost predicate InUse(mem: Memory, root: nat, f: nat) {
    exists d: nat, p: nat :: InTree(d, p) && Node(mem, root, d, p) == Some(f)
  }

  lemma ParentInTree(d: nat, p: nat)
    requires 0 < d && InTree(d, p)
    ensures InTree(d - 1, p / 512)
  {}

  lemma ChildInTree(d: nat, p: nat, i: nat)
    requires d < 3 && InTree(d, p) && i < 512
    ensures InTree(d + 1, 512 * p + i) && (512 * p + i) / 512 == p && (512 * p + i) % 512 == i
  {}

  /** mem' is mem after frame g was zeroed and entry i of frame f set to refer to it. */
  ghost predicate Linked(mem: Memory, mem': Memory, f: nat, i: nat, g: nat) {
    && f != g && |mem'| == |mem| && i < ENTRIES
    && (forall h: nat, j: nat :: h != g && !(h == f && j == i) ==> Entry(mem', h, j) == Entry(mem, h, j))
    && (forall j: nat :: Entry(mem', g, j) == 0)
    && PteValid(Entry(mem', f, i)) && PteFrame(Entry(mem', f, i)) == g
  }

  /** Linking a fresh zeroed frame under a table adds exactly one node to the tree. */
  lemma {:induction false} LinkAddsNode(mem: Memory, mem': Memory, root: nat, d: nat, p: nat, f: nat, i: nat, g: nat,
                                        e: nat, q: nat)
    requires Tree(mem, root) && d < 3 && InTree(d, p) && Node(mem, root, d, p) == Some(f)
    requires Linked(mem, mem', f, i, g) && !PteValid(Entry(mem, f, i)) && !InUse(mem, root, g)
    requires InTree(e, q)
    ensures Node(mem', root, e, q) == if e == d + 1 && q == 512 * p + i then Some(g) else Node(mem, root, e, q)
    decreases e
  {
    if e > 0 {
      ParentInTree(e, q);
      ChildInTree(d, p, i);
      LinkAddsNode(mem, mem', root, d, p, f, i, g, e - 1, q / 512);
      if e - 1 == d + 1 && q / 512 == 512 * p + i {
        assert Node(mem, root, e - 1, q / 512).None?;
      } else if Node(mem, root, e - 1, q / 512).Some? {
        var h := Node(mem, root, e - 1, q / 512).value;
        assert h != g;
        if h == f {
          assert e - 1 == d && q / 512 == p;
        }
      }
    }
  }

  /** A change that leaves alone the entries of the tree's tables, up to flag bits. */
  ghost predicate SameLinks(mem: Memory, mem': Memory, root: nat) {
    |mem'| == |mem| &&
    forall d: nat, p: nat, i: nat :: d < 3 && InTree(d, p) && Node(mem, root, d, p).Some? && i < ENTRIES ==>
      var f := Node(mem, root, d, p).value;
      && PteValid(Entry(mem', f, i)) == PteValid(Entry(mem, f, i))
      && PteFrame(Entry(mem', f, i)) == PteFrame(Entry(mem, f, i))
  }

  lemma {:induction false} SameLinksSameNodes(mem: Memory, mem': Memory, root: nat, d: nat, p: nat)
    requires SameLinks(mem, mem', root) && InTree(d, p)
    ensures Node(mem', root, d, p) == Node(mem, root, d, p)
    decreases d
  {
    if d > 0 {
      ParentInTree(d, p);
      SameLinksSameNodes(mem, mem', root, d - 1, p / 512);
    }
  }
}
