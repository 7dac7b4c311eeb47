/** vm.c on values: page tables built from the allocator, and what user code sees through them. */
module AddressSpace {
  import opened Bytes
  import opened Sv39
  import opened PageTable
  import PageAllocator

  /** Physical memory and the allocator. */
  datatype State = State(mem: Memory, mm: PageAllocator.Bitmap)

  const MAX_FRAMES: nat := 0x100_0000_0000 // 44-bit physical page numbers

  /** The table at root is a tree over allocated frames. */
  ghost predicate Inv(s: State, root: nat) {
    && PageAllocator.Valid(s.mm) && |s.mem| == s.mm.size <= MAX_FRAMES
    && Tree(s.mem, root) && InnerTables(s.mem, root)
    && forall d: nat, p: nat :: InTree(d, p) && Node(s.mem, root, d, p).Some? ==>
         Node(s.mem, root, d, p).value < s.mm.size && s.mm.bits[Node(s.mem, root, d, p).value]
  }

  lemma InvMemory(s: State, root: nat)
    requires Inv(s, root)
    ensures PageAllocator.Valid(s.mm) && |s.mem| == s.mm.size == |s.mm.bits| <= MAX_FRAMES
  {}

  // ---- what user code sees ----

  datatype Page = Page(flags: Flags, bytes: Frame)

  /** The leaf entry for a page whose two upper levels are present. */
  function LeafPte(mem: Memory, root: nat, vpn: nat): nat {
    match Node(mem, root, 2, vpn / 512)
    case None => 0
    case Some(t) => Entry(mem, t, vpn % 512)
  }

  function PageAt(mem: Memory, root: nat, vpn: nat): Option<Page> {
    match Node(mem, root, 3, vpn)
    case None => None
    case Some(f) => if f < |mem| then Some(Page(PteFlags(LeafPte(mem, root, vpn)), mem[f])) else None
  }

  /** The user's address space: every mapped page with its flags and contents. */
  type View = map<nat, Page>

  ghost function ViewOf(mem: Memory, root: nat): View {
    map vpn: nat | vpn < VPNS && PageAt(mem, root, vpn).Some? :: PageAt(mem, root, vpn).value
  }

  lemma ViewIs(mem: Memory, root: nat, v: View)
    requires forall vpn: nat :: vpn < VPNS ==> PageAt(mem, root, vpn) == if vpn in v then Some(v[vpn]) else None
    requires forall vpn :: vpn in v ==> vpn < VPNS
    ensures ViewOf(mem, root) == v
  {}

  // ---- the operations ----

  /** Zero frame g and make entry i of table frame f refer to it. */
  function Link(mem: Memory, f: nat, i: nat, g: nat, pte: nat): (r: Memory)
    requires f < |mem| && g < |mem| && i < ENTRIES
    ensures |r| == |mem|
  {
    var m := mem[g := ZERO_FRAME];
    m[f := StoreEntry(m[f], i, pte)]
  }

  /** get_pt_level: the table that entry i of table f refers to, created if absent; 0 is NULL. */
  function GetPtLevel(s: State, level: nat, f: nat, i: nat): (State, nat)
    requires PageAllocator.Valid(s.mm) && |s.mem| == s.mm.size && f < |s.mem| && i < ENTRIES
  {
    var pte := Entry(s.mem, f, i);
    if PteValid(pte) then (s, PteFrame(pte))
    else
      var (mm, g) := PageAllocator.GetFreePage(s.mm);
      PageAllocator.GetFreePageSpec(s.mm);
      if g == 0 then (s.(mm := mm), 0)
      else (State(Link(s.mem, f, i, g, MakePte(level, g, NO_FLAGS)), mm), g)
  }

  // ---- linking one frame ----

  ghost predicate Fresh(s: State, mm: PageAllocator.Bitmap, g: nat) {
    && PageAllocator.Valid(mm) && mm.size == s.mm.size
    && 0 < g < s.mm.size && s.mm.size == |s.mm.bits|
    && !s.mm.bits[g] && mm.bits == s.mm.bits[g := true]
  }

  ghost predicate AnyFree(s: State) {
    exists p: nat :: PageAllocator.FreePage(s.mm, p)
  }

  lemma AllocateFresh(s: State)
    requires PageAllocator.Valid(s.mm)
    ensures var (mm, g) := PageAllocator.GetFreePage(s.mm);
            if g == 0 then mm == s.mm && !AnyFree(s) else Fresh(s, mm, g)
  {
    PageAllocator.GetFreePageSpec(s.mm);
  }

  /** An entry that refers to frame g and fits in memory. */
  ghost predicate Refers(pte: nat, g: nat) {
    PteValid(pte) && PteFrame(pte) == g && pte < TWO_64
  }

  lemma LinkIsLinked(mem: Memory, f: nat, i: nat, g: nat, pte: nat)
    requires f < |mem| && g < |mem| && f != g && i < ENTRIES && Refers(pte, g)
    ensures Linked(mem, Link(mem, f, i, g, pte), f, i, g)
    ensures Entry(Link(mem, f, i, g, pte), f, i) == pte
  {
    var mem' := Link(mem, f, i, g, pte);
    forall h: nat, j: nat
      ensures Entry(mem', h, j) == if h == g then 0 else if h == f && j == i then pte else Entry(mem, h, j)
    {
      if h == g && j < ENTRIES {
        EntryOfZero(j);
      } else if h == f && j < ENTRIES {
        EntryOfStore(mem[f], i, pte, j);
      }
    }
  }

  /** The situation before linking fresh frame g at entry i of the table f at (d, p). */
  ghost predicate Ready(s: State, root: nat, d: nat, p: nat, f: nat, i: nat, g: nat) {
    && Inv(s, root) && d < 3 && InTree(d, p) && Node(s.mem, root, d, p) == Some(f)
    && i < ENTRIES && !PteValid(Entry(s.mem, f, i))
    && 0 < g < |s.mem| && !s.mm.bits[g]
  }

  lemma ReadyFresh(s: State, root: nat, d: nat, p: nat, f: nat, i: nat, g: nat)
    requires Ready(s, root, d, p, f, i, g)
    ensures !InUse(s.mem, root, g) && f != g && f < |s.mem|
  {}

  lemma LinkNode(s: State, root: nat, d: nat, p: nat, f: nat, i: nat, g: nat, pte: nat, e: nat, q: nat)
    requires Ready(s, root, d, p, f, i, g) && Refers(pte, g) && InTree(e, q) && f < |s.mem|
    ensures Node(Link(s.mem, f, i, g, pte), root, e, q)
            == if e == d + 1 && q == 512 * p + i then Some(g) else Node(s.mem, root, e, q)
  {
    ReadyFresh(s, root, d, p, f, i, g);
    LinkIsLinked(s.mem, f, i, g, pte);
    LinkAddsNode(s.mem, Link(s.mem, f, i, g, pte), root, d, p, f, i, g, e, q);
  }

  lemma LinkNodes(s: State, root: nat, d: nat, p: nat, f: nat, i: nat, g: nat, pte: nat)
    requires Ready(s, root, d, p, f, i, g) && Refers(pte, g) && f < |s.mem|
    ensures forall e: nat, q: nat :: InTree(e, q) ==>
              Node(Link(s.mem, f, i, g, pte), root, e, q)
              == if e == d + 1 && q == 512 * p + i then Some(g) else Node(s.mem, root, e, q)
    ensures InTree(d + 1, 512 * p + i) && Node(s.mem, root, d + 1, 512 * p + i).None?
    ensures InUse(s.mem, root, f) && f != g
  {
    ReadyFresh(s, root, d, p, f, i, g);
    ChildInTree(d, p, i);
    forall e: nat, q: nat | InTree(e, q)
      ensures Node(Link(s.mem, f, i, g, pte), root, e, q)
              == if e == d + 1 && q == 512 * p + i then Some(g) else Node(s.mem, root, e, q)
    {
      LinkNode(s, root, d, p, f, i, g, pte, e, q);
    }
  }

  lemma LinkTree(s: State, root: nat, d: nat, p: nat, f: nat, i: nat, g: nat, pte: nat)
    requires Ready(s, root, d, p, f, i, g) && Refers(pte, g) && f < |s.mem|
    ensures Tree(Link(s.mem, f, i, g, pte), root)
  {
    LinkNodes(s, root, d, p, f, i, g, pte);
    ReadyFresh(s, root, d, p, f, i, g);
  }

  lemma LinkInnerTable(mem: Memory, f: nat, i: nat, g: nat, pte: nat, h: nat)
    requires f < |mem| && g < |mem| && f != g && i < ENTRIES && Refers(pte, g)
    requires h == g || (InnerTable(mem, h) && (h == f ==> PteTable(pte)))
    ensures InnerTable(Link(mem, f, i, g, pte), h)
  {
    LinkIsLinked(mem, f, i, g, pte);
  }

  lemma LinkInnerTables(s: State, root: nat, d: nat, p: nat, f: nat, i: nat, g: nat, pte: nat)
    requires Ready(s, root, d, p, f, i, g) && Refers(pte, g) && f < |s.mem|
    requires d < 2 ==> PteTable(pte)
    ensures InnerTables(Link(s.mem, f, i, g, pte), root)
  {
    hide InnerTable;
    var mem' := Link(s.mem, f, i, g, pte);
    ReadyFresh(s, root, d, p, f, i, g);
    forall e: nat, q: nat | e < 2 && InTree(e, q) && Node(mem', root, e, q).Some?
      ensures InnerTable(mem', Node(mem', root, e, q).value)
    {
      LinkNode(s, root, d, p, f, i, g, pte, e, q);
      LinkInnerTable(s.mem, f, i, g, pte, Node(mem', root, e, q).value);
    }
  }

  lemma LinkInv(s: State, root: nat, d: nat, p: nat, f: nat, i: nat, g: nat, pte: nat, mm: PageAllocator.Bitmap)
    requires Ready(s, root, d, p, f, i, g) && Refers(pte, g) && Fresh(s, mm, g) && f < |s.mem|
    requires d < 2 ==> PteTable(pte)
    ensures Inv(State(Link(s.mem, f, i, g, pte), mm), root)
  {
    LinkInnerTables(s, root, d, p, f, i, g, pte);
    LinkTree(s, root, d, p, f, i, g, pte);
    LinkNodes(s, root, d, p, f, i, g, pte);
  }

  lemma LinkPageAt(s: State, root: nat, d: nat, p: nat, f: nat, i: nat, g: nat, pte: nat, vpn: nat)
    requires Ready(s, root, d, p, f, i, g) && Refers(pte, g) && vpn < VPNS && f < |s.mem|
    ensures PageAt(Link(s.mem, f, i, g, pte), root, vpn)
            == if d == 2 && vpn == 512 * p + i then Some(Page(PteFlags(pte), ZERO_FRAME))
               else PageAt(s.mem, root, vpn)
  {
    ReadyFresh(s, root, d, p, f, i, g);
    LinkIsLinked(s.mem, f, i, g, pte);
    ParentInTree(3, vpn);
    LinkNode(s, root, d, p, f, i, g, pte, 3, vpn);
    LinkNode(s, root, d, p, f, i, g, pte, 2, vpn / 512);
    ChildInTree(d, p, i);
  }

  /** A frame somebody else owns: the kernel's memory, or another table's. */
  ghost predicate Foreign(s: State, root: nat, f: nat) {
    f < |s.mem| && f < |s.mm.bits| && s.mm.bits[f] && !InUse(s.mem, root, f)
  }

  /** What every operation keeps: existing nodes stay where they are, taken frames stay
      taken, and foreign frames are neither written nor adopted. */
  ghost predicate Grows(s: State, s': State, root: nat) {
    && |s'.mem| == |s.mem| && |s'.mm.bits| == |s.mm.bits|
    && (forall d: nat, p: nat :: InTree(d, p) && Node(s.mem, root, d, p).Some? ==>
          Node(s'.mem, root, d, p) == Node(s.mem, root, d, p))
    && (forall f: nat :: f < |s.mm.bits| && s.mm.bits[f] ==> s'.mm.bits[f])
    && (forall f: nat :: Foreign(s, root, f) ==> Foreign(s', root, f) && s'.mem[f] == s.mem[f])
  }

  lemma GrowsTransitive(s: State, s': State, s'': State, root: nat)
    requires Grows(s, s', root) && Grows(s', s'', root)
    ensures Grows(s, s'', root)
  {}

  lemma LinkForeign(s: State, root: nat, d: nat, p: nat, f: nat, i: nat, g: nat, pte: nat, mm: PageAllocator.Bitmap,
                    h: nat)
    requires Ready(s, root, d, p, f, i, g) && Refers(pte, g) && Fresh(s, mm, g) && f < |s.mem|
    requires Foreign(s, root, h)
    ensures Foreign(State(Link(s.mem, f, i, g, pte), mm), root, h)
    ensures Link(s.mem, f, i, g, pte)[h] == s.mem[h]
  {
    LinkNodes(s, root, d, p, f, i, g, pte);
    assert h != g && h != f;
  }

  lemma LinkKeepsNode(s: State, root: nat, d: nat, p: nat, f: nat, i: nat, g: nat, pte: nat, e: nat, q: nat)
    requires Ready(s, root, d, p, f, i, g) && Refers(pte, g) && f < |s.mem|
    requires InTree(e, q) && Node(s.mem, root, e, q).Some?
    ensures Node(Link(s.mem, f, i, g, pte), root, e, q) == Node(s.mem, root, e, q)
  {
    LinkNode(s, root, d, p, f, i, g, pte, e, q);
    ChildInTree(d, p, i);
  }

  lemma LinkGrows(s: State, root: nat, d: nat, p: nat, f: nat, i: nat, g: nat, pte: nat, mm: PageAllocator.Bitmap)
    requires Ready(s, root, d, p, f, i, g) && Refers(pte, g) && Fresh(s, mm, g) && f < |s.mem|
    ensures Grows(s, State(Link(s.mem, f, i, g, pte), mm), root)
  {
    var mem' := Link(s.mem, f, i, g, pte);
    forall e: nat, q: nat | InTree(e, q) && Node(s.mem, root, e, q).Some?
      ensures Node(mem', root, e, q) == Node(s.mem, root, e, q)
    {
      LinkKeepsNode(s, root, d, p, f, i, g, pte, e, q);
    }
    forall h: nat | Foreign(s, root, h)
      ensures Foreign(State(mem', mm), root, h) && mem'[h] == s.mem[h]
    {
      LinkForeign(s, root, d, p, f, i, g, pte, mm, h);
    }
  }

  /** Linking a table leaves the view alone; linking a data page adds that page, zeroed. */
  lemma LinkView(s: State, root: nat, d: nat, p: nat, f: nat, i: nat, g: nat, pte: nat)
    requires Ready(s, root, d, p, f, i, g) && Refers(pte, g) && f < |s.mem|
    ensures ViewOf(Link(s.mem, f, i, g, pte), root)
            == if d == 2 then ViewOf(s.mem, root)[512 * p + i := Page(PteFlags(pte), ZERO_FRAME)]
               else ViewOf(s.mem, root)
  {
    var mem' := Link(s.mem, f, i, g, pte);
    var v := if d == 2 then ViewOf(s.mem, root)[512 * p + i := Page(PteFlags(pte), ZERO_FRAME)]
      else ViewOf(s.mem, root);
    ChildInTree(d, p, i);
    forall vpn: nat | vpn < VPNS
      ensures PageAt(mem', root, vpn) == if vpn in v then Some(v[vpn]) else None
    {
      LinkPageAt(s, root, d, p, f, i, g, pte, vpn);
    }
    ViewIs(mem', root, v);
  }

  lemma ShlTen(n: nat)
    ensures Shl(n, 10) == 1024 * n
  {
    assert Shl(n, 1) == 2 * n && Shl(n, 2) == 2 * Shl(n, 1) && Shl(n, 3) == 2 * Shl(n, 2);
    assert Shl(n, 4) == 2 * Shl(n, 3) && Shl(n, 5) == 2 * Shl(n, 4) && Shl(n, 6) == 2 * Shl(n, 5);
    assert Shl(n, 7) == 2 * Shl(n, 6) && Shl(n, 8) == 2 * Shl(n, 7) && Shl(n, 9) == 2 * Shl(n, 8);
  }

  lemma PteFits(level: nat, frame: nat, f: Flags)
    requires frame < MAX_FRAMES
    ensures Refers(MakePte(level, frame, f), frame)
  {
    MakePteSpec(level, frame, f);
    var g := if level == 0 then f else Flags(false, false, false, f.u, true, true);
    FromBitsBound(PteBits(g), frame);
    ShlTen(frame + 1);
  }

  // ---- get_pte ----

  /** A step that changes no page's translation or contents. */
  ghost predicate Quiet(s: State, s': State, root: nat) {
    Inv(s', root) && Grows(s, s', root) && ViewOf(s'.mem, root) == ViewOf(s.mem, root)
  }

  lemma QuietTransitive(s: State, s': State, s'': State, root: nat)
    requires Quiet(s, s', root) && Quiet(s', s'', root)
    ensures Quiet(s, s'', root)
  {
    GrowsTransitive(s, s', s'', root);
  }

  /** Table t is at (d, p), or is NULL because memory ran out. */
  ghost predicate Found(s: State, root: nat, d: nat, p: nat, t: nat) {
    if t == 0 then !AnyFree(s) else Node(s.mem, root, d, p) == Some(t) && t < |s.mem|
  }

  lemma LinkTable(s: State, root: nat, level: nat, d: nat, p: nat, f: nat, i: nat, g: nat, mm: PageAllocator.Bitmap)
    requires level > 0 && Ready(s, root, d, p, f, i, g) && Fresh(s, mm, g) && d < 2 && f < |s.mem|
    ensures var s' := State(Link(s.mem, f, i, g, MakePte(level, g, NO_FLAGS)), mm);
            Quiet(s, s', root) && Node(s'.mem, root, d + 1, 512 * p + i) == Some(g)
  {
    var pte := MakePte(level, g, NO_FLAGS);
    PteFits(level, g, NO_FLAGS);
    MakePteSpec(level, g, NO_FLAGS);
    LinkInv(s, root, d, p, f, i, g, pte, mm);
    LinkGrows(s, root, d, p, f, i, g, pte, mm);
    LinkView(s, root, d, p, f, i, g, pte);
    ChildInTree(d, p, i);
    LinkNode(s, root, d, p, f, i, g, pte, d + 1, 512 * p + i);
  }

  lemma QuietReflexive(s: State, root: nat)
    requires Inv(s, root)
    ensures Quiet(s, s, root)
  {}

  lemma GetPtLevelSpec(s: State, root: nat, level: nat, d: nat, p: nat, f: nat, i: nat)
    requires Inv(s, root) && level > 0 && d < 2 && InTree(d, p) && Node(s.mem, root, d, p) == Some(f)
    requires f < |s.mem| && i < ENTRIES
    ensures var (s', t) := GetPtLevel(s, level, f, i);
            Quiet(s, s', root) && Found(s', root, d + 1, 512 * p + i, t)
  {
    ChildInTree(d, p, i);
    QuietReflexive(s, root);
    if PteValid(Entry(s.mem, f, i)) {
      assert Node(s.mem, root, d + 1, 512 * p + i) == Some(PteFrame(Entry(s.mem, f, i)));
    } else {
      var (mm, g) := PageAllocator.GetFreePage(s.mm);
      AllocateFresh(s);
      if g != 0 {
        LinkTable(s, root, level, d, p, f, i, g, mm);
      }
    }
  }

  lemma RootInMemory(s: State, root: nat)
    requires Inv(s, root)
    ensures InTree(0, 0) && Node(s.mem, root, 0, 0) == Some(root) && 0 < root < |s.mem|
  {}

  /** get_pte: the lowest-level table for va, created if absent; 0 is NULL. The entry is
      number PtIdx(0, va) of it. */
  function GetPte(s: State, root: nat, va: nat): (State, nat)
    requires root != 0 ==> Inv(s, root)
  {
    if root == 0 then (s, 0)
    else
      RootInMemory(s, root);
      var (s1, t1) := GetPtLevel(s, 2, root, PtIdx(2, va));
      GetPtLevelSpec(s, root, 2, 0, 0, root, PtIdx(2, va));
      if t1 == 0 then (s1, 0) else GetPtLevel(s1, 1, t1, PtIdx(1, va))
  }

  lemma GetPteAt(s: State, root: nat, va: nat, i: nat, j: nat)
    requires root != 0 && Inv(s, root) && i == PtIdx(2, va) && j == PtIdx(1, va)
    ensures var (s', t) := GetPte(s, root, va);
            Quiet(s, s', root) && Found(s', root, 2, 512 * i + j, t)
  {
    RootInMemory(s, root);
    var (s1, t1) := GetPtLevel(s, 2, root, i);
    GetPtLevelSpec(s, root, 2, 0, 0, root, i);
    if t1 != 0 {
      ChildInTree(0, 0, i);
      LowerLevel(s, s1, root, i, t1, j);
    }
  }

  lemma GetPteSpec(s: State, root: nat, va: nat)
    requires root != 0 && Inv(s, root)
    ensures var (s', t) := GetPte(s, root, va);
            Quiet(s, s', root) && Found(s', root, 2, Vpn(va) / 512, t)
  {
    hide Inv, Quiet, Found, GetPte;
    VpnDigits(va);
    assert Vpn(va) / 512 == 512 * PtIdx(2, va) + PtIdx(1, va);
    GetPteAt(s, root, va, PtIdx(2, va), PtIdx(1, va));
  }

  lemma LowerLevel(s: State, s1: State, root: nat, i: nat, t1: nat, j: nat)
    requires Quiet(s, s1, root) && InTree(1, i) && t1 != 0 && Found(s1, root, 1, i, t1) && j < ENTRIES
    ensures var (s', t) := GetPtLevel(s1, 1, t1, j);
            Quiet(s, s', root) && Found(s', root, 2, 512 * i + j, t)
  {
    GetPtLevelSpec(s1, root, 1, 1, i, t1, j);
    QuietTransitive(s, s1, GetPtLevel(s1, 1, t1, j).0, root);
  }

  /** Where the lowest-level table exists, get_pte only finds it. */
  lemma GetPteExisting(s: State, root: nat, va: nat)
    requires root != 0 && Inv(s, root) && Node(s.mem, root, 2, Vpn(va) / 512).Some?
    ensures GetPte(s, root, va) == (s, Node(s.mem, root, 2, Vpn(va) / 512).value)
  {
    VpnDigits(va);
    var i := PtIdx(2, va);
    RootInMemory(s, root);
    assert Node(s.mem, root, 1, i).Some?;
    assert Node(s.mem, root, 0, i / 512) == Some(root);
    assert InTree(1, i) && InTree(2, Vpn(va) / 512);
  }

  // ---- map_page ----

  /** The frame entry i of table t maps, a fresh zeroed one if it maps none. */
  function MapLeaf(s: State, t: nat, i: nat, flags: Flags): (State, nat)
    requires PageAllocator.Valid(s.mm) && |s.mem| == s.mm.size && t < |s.mem| && i < ENTRIES
  {
    var pte := Entry(s.mem, t, i);
    if PteValid(pte) then (s, PteFrame(pte))
    else
      var (mm, g) := PageAllocator.GetFreePage(s.mm);
      PageAllocator.GetFreePageSpec(s.mm);
      if g == 0 then (s.(mm := mm), 0)
      else (State(Link(s.mem, t, i, g, MakePte(0, g, flags)), mm), g)
  }

  /** map_page: the frame mapped at va, mapped zeroed with the given flags if there was none;
      0 is NULL. */
  function MapPage(s: State, root: nat, va: nat, flags: Flags): (State, nat)
    requires root != 0 ==> Inv(s, root)
  {
    var (s1, t) := GetPte(s, root, va);
    if t == 0 then (s1, 0)
    else
      GetPteSpec(s, root, va);
      MapLeaf(s1, t, PtIdx(0, va), flags)
  }

  /** The view after a page is mapped: a page already there stays as it is. */
  function Mapped(v: View, vpn: nat, flags: Flags): View {
    if vpn in v then v else v[vpn := Page(flags, ZERO_FRAME)]
  }

  /** The outcome of map_page for page vpn: success maps that page and changes no other;
      failure means memory is exhausted, and changes no page. */
  ghost predicate MapsPage(s: State, s': State, root: nat, vpn: nat, flags: Flags, f: nat) {
    && Inv(s', root) && Grows(s, s', root)
    && if f == 0 then !AnyFree(s') && ViewOf(s'.mem, root) == ViewOf(s.mem, root)
       else Node(s'.mem, root, 3, vpn) == Some(f) && ViewOf(s'.mem, root) == Mapped(ViewOf(s.mem, root), vpn, flags)
  }

  lemma LinkPage(s: State, root: nat, p: nat, t: nat, i: nat, g: nat, mm: PageAllocator.Bitmap, flags: Flags)
    requires Ready(s, root, 2, p, t, i, g) && Fresh(s, mm, g) && t < |s.mem|
    ensures var s' := State(Link(s.mem, t, i, g, MakePte(0, g, flags)), mm);
            MapsPage(s, s', root, 512 * p + i, flags, g)
  {
    var pte := MakePte(0, g, flags);
    PteFits(0, g, flags);
    MakePteSpec(0, g, flags);
    LinkInv(s, root, 2, p, t, i, g, pte, mm);
    LinkGrows(s, root, 2, p, t, i, g, pte, mm);
    LinkView(s, root, 2, p, t, i, g, pte);
    ChildInTree(2, p, i);
    LinkNode(s, root, 2, p, t, i, g, pte, 3, 512 * p + i);
    LinkNodes(s, root, 2, p, t, i, g, pte);
  }

  lemma MappedHere(s: State, root: nat, p: nat, t: nat, i: nat, flags: Flags)
    requires Inv(s, root) && InTree(2, p) && Node(s.mem, root, 2, p) == Some(t) && i < ENTRIES
    requires PteValid(Entry(s.mem, t, i))
    ensures MapsPage(s, s, root, 512 * p + i, flags, PteFrame(Entry(s.mem, t, i)))
  {
    ChildInTree(2, p, i);
    QuietReflexive(s, root);
  }

  lemma MapLeafSpec(s: State, root: nat, p: nat, t: nat, i: nat, flags: Flags)
    requires Inv(s, root) && InTree(2, p) && Node(s.mem, root, 2, p) == Some(t) && t < |s.mem| && i < ENTRIES
    ensures var (s', f) := MapLeaf(s, t, i, flags);
            MapsPage(s, s', root, 512 * p + i, flags, f)
  {
    if PteValid(Entry(s.mem, t, i)) {
      MappedHere(s, root, p, t, i, flags);
    } else {
      var (mm, g) := PageAllocator.GetFreePage(s.mm);
      AllocateFresh(s);
      QuietReflexive(s, root);
      if g != 0 {
        LinkPage(s, root, p, t, i, g, mm, flags);
      }
    }
  }

  lemma QuietThenMaps(s: State, s1: State, s2: State, root: nat, vpn: nat, flags: Flags, f: nat)
    requires Quiet(s, s1, root) && MapsPage(s1, s2, root, vpn, flags, f)
    ensures MapsPage(s, s2, root, vpn, flags, f)
  {
    GrowsTransitive(s, s1, s2, root);
  }

  lemma QuietMapsNothing(s: State, s1: State, root: nat, vpn: nat, flags: Flags)
    requires Quiet(s, s1, root) && !AnyFree(s1)
    ensures MapsPage(s, s1, root, vpn, flags, 0)
  {
    hide Inv, Grows, ViewOf, AnyFree;
  }

  lemma MapPageAt(s: State, root: nat, va: nat, p: nat, i: nat, flags: Flags)
    requires root != 0 && Inv(s, root)
    requires p == 512 * PtIdx(2, va) + PtIdx(1, va) && i == PtIdx(0, va)
    ensures var (s', f) := MapPage(s, root, va, flags);
            MapsPage(s, s', root, 512 * p + i, flags, f)
  {
    hide Inv, Grows, ViewOf, MapLeaf, MapsPage, Node, GetPte, AnyFree;
    GetPteAt(s, root, va, PtIdx(2, va), PtIdx(1, va));
    var (s1, t) := GetPte(s, root, va);
    if t == 0 {
      QuietMapsNothing(s, s1, root, 512 * p + i, flags);
    } else {
      InvMemory(s1, root);
      MapLeafSpec(s1, root, p, t, i, flags);
      var (s2, f) := MapLeaf(s1, t, i, flags);
      QuietThenMaps(s, s1, s2, root, 512 * p + i, flags, f);
    }
  }

  /** map_page, whether or not it succeeds. */
  lemma MapPageSpec(s: State, root: nat, va: nat, flags: Flags)
    requires root != 0 && Inv(s, root)
    ensures var (s', f) := MapPage(s, root, va, flags);
            MapsPage(s, s', root, Vpn(va), flags, f)
  {
    hide Inv, MapsPage, MapPage;
    var p, i := 512 * PtIdx(2, va) + PtIdx(1, va), PtIdx(0, va);
    assert Vpn(va) == 512 * p + i;
    MapPageAt(s, root, va, p, i, flags);
  }

  /** Mapping a page that is already mapped changes nothing and returns its frame. */
  lemma MapPageAgain(s: State, root: nat, va: nat, flags: Flags)
    requires root != 0 && Inv(s, root) && Node(s.mem, root, 3, Vpn(va)).Some?
    ensures MapPage(s, root, va, flags) == (s, Node(s.mem, root, 3, Vpn(va)).value)
  {
    VpnDigits(va);
    GetPteExisting(s, root, va);
  }

  /** Distinct virtual pages have distinct frames, all of them taken, none of them a table. */
  lemma DistinctFrames(s: State, root: nat, vpn: nat, d: nat, p: nat)
    requires Inv(s, root) && vpn < VPNS && Node(s.mem, root, 3, vpn).Some?
    requires InTree(d, p) && Node(s.mem, root, d, p) == Node(s.mem, root, 3, vpn)
    ensures d == 3 && p == vpn && s.mm.bits[Node(s.mem, root, 3, vpn).value]
  {
    assert InTree(3, vpn);
  }

  // ---- create_pt ----

  /** create_pt, with kernel_pt NULL as it is throughout; 0 is NULL. */
  function CreatePt(s: State): (State, nat)
    requires PageAllocator.Valid(s.mm) && |s.mem| == s.mm.size
  {
    var (mm, g) := PageAllocator.GetFreePage(s.mm);
    PageAllocator.GetFreePageSpec(s.mm);
    if g == 0 then (s.(mm := mm), 0) else (State(s.mem[g := ZERO_FRAME], mm), g)
  }

  lemma EmptyRoot(mem: Memory, root: nat, d: nat, p: nat)
    requires root < |mem| && mem[root] == ZERO_FRAME && InTree(d, p) && d > 0
    ensures Node(mem, root, d, p).None?
  {
    ParentInTree(d, p);
    if d == 1 {
      EntryOfZero(p % 512);
    } else {
      EmptyRoot(mem, root, d - 1, p / 512);
    }
  }

  /** create_pt makes an empty address space on a frame of its own. */
  lemma CreatePtSpec(s: State)
    requires PageAllocator.Valid(s.mm) && |s.mem| == s.mm.size <= MAX_FRAMES
    ensures var (s', root) := CreatePt(s);
            if root == 0 then s' == s && !AnyFree(s)
            else Inv(s', root) && ViewOf(s'.mem, root) == map[] && root < |s.mem|
                 && s'.mem == s.mem[root := ZERO_FRAME] && !s.mm.bits[root] && s'.mm.bits == s.mm.bits[root := true]
  {
    AllocateFresh(s);
    var (s', root) := CreatePt(s);
    if root != 0 {
      forall d: nat, p: nat | InTree(d, p)
        ensures Node(s'.mem, root, d, p) == if d == 0 then Some(root) else None
      {
        if d > 0 {
          EmptyRoot(s'.mem, root, d, p);
        }
      }
      forall i: nat | i < ENTRIES
        ensures Entry(s'.mem, root, i) == 0
      {
        EntryOfZero(i);
      }
      forall vpn: nat | vpn < VPNS
        ensures PageAt(s'.mem, root, vpn).None?
      {
        assert InTree(3, vpn);
      }
      ViewIs(s'.mem, root, map[]);
    }
  }

  /** Nothing that was taken before has been written, given back, or made part of the table
      at root (0 if there is none). */
  ghost predicate Untouched(s: State, s': State, root: nat) {
    && |s'.mem| == |s.mem| == |s.mm.bits| == |s'.mm.bits|
    && forall f: nat :: f < |s.mem| && s.mm.bits[f] ==>
         s'.mm.bits[f] && s'.mem[f] == s.mem[f] && (root != 0 ==> Foreign(s', root, f))
  }

  lemma UntouchedThenGrows(s: State, s1: State, s2: State, root: nat)
    requires Untouched(s, s1, root) && root != 0 && Grows(s1, s2, root)
    ensures Untouched(s, s2, root)
  {
    forall f: nat | f < |s.mem| && s.mm.bits[f]
      ensures s2.mm.bits[f] && s2.mem[f] == s.mem[f] && Foreign(s2, root, f)
    {
      assert Foreign(s1, root, f);
    }
  }

  lemma OnlyRootInUse(mem: Memory, root: nat, f: nat)
    requires root < |mem| && mem[root] == ZERO_FRAME && f != root
    ensures !InUse(mem, root, f)
  {
    if d: nat, p: nat :| InTree(d, p) && Node(mem, root, d, p) == Some(f) {
      if d > 0 {
        EmptyRoot(mem, root, d, p);
      }
    }
  }

  /** Whatever is done with a new address space, the frames taken before stay untouched. */
  lemma CreateThenGrow(s: State, s1: State, s2: State, root: nat)
    requires PageAllocator.Valid(s.mm) && |s.mem| == s.mm.size <= MAX_FRAMES
    requires CreatePt(s) == (s1, root) && root != 0 && Grows(s1, s2, root)
    ensures Untouched(s, s2, root)
  {
    hide CreatePt;
    CreatePtSpec(s);
    forall f: nat | f < |s.mem| && s.mm.bits[f]
      ensures s2.mm.bits[f] && s2.mem[f] == s.mem[f] && Foreign(s2, root, f)
    {
      OnlyRootInUse(s1.mem, root, f);
      assert Foreign(s1, root, f);
    }
  }
}
