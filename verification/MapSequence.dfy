/** Any sequence of create_pt, map_page and map_and_copy, on any number of tables, each call
    succeeding or running out of memory. */
module MapSequence {
  import opened Bytes
  import opened Sv39
  import opened PageTable
  import opened AddressSpace
  import opened CopyIn
  import PageAllocator

  /** Memory, allocator, and the tables made so far. */
  datatype Machine = Machine(s: State, tables: seq<nat>)

  /** Calls name their table by the order of creation. */
  datatype Call =
    | CreatePtCall
    | MapPageCall(table: nat, va: nat, flags: Flags)
    | MapAndCopyCall(table: nat, va: nat, flags: Flags, src: seq<byte>)

  predicate Possible(m: Machine, c: Call) {
    match c
    case CreatePtCall => true
    case MapPageCall(k, _, _) => k < |m.tables|
    case MapAndCopyCall(k, va, _, src) => k < |m.tables| && va + |src| <= VA_LIMIT
  }

  // ---- tables side by side ----

  /** No frame belongs to both tables. */
  ghost predicate Apart(mem: Memory, r: nat, q: nat) {
    forall f: nat :: InUse(mem, r, f) ==> !InUse(mem, q, f)
  }

  ghost predicate AllApart(mem: Memory, tables: seq<nat>) {
    forall j: nat, k: nat :: j < k < |tables| ==> Apart(mem, tables[j], tables[k])
  }

  /** Every table is a tree over taken frames, and no two tables share a frame. */
  ghost predicate Good(m: Machine) {
    && PageAllocator.Valid(m.s.mm) && |m.s.mem| == m.s.mm.size <= MAX_FRAMES
    && (forall k: nat :: k < |m.tables| ==> m.tables[k] != 0 && Inv(m.s, m.tables[k]))
    && AllApart(m.s.mem, m.tables)
  }

  /** The effect of a call; one that is not possible has none. */
  ghost function Do(m: Machine, c: Call): Machine
    requires Good(m)
  {
    if !Possible(m, c) then m
    else match c
      case CreatePtCall =>
        var (s', root) := CreatePt(m.s);
        if root == 0 then m.(s := s') else Machine(s', m.tables + [root])
      case MapPageCall(k, va, flags) => m.(s := MapPage(m.s, m.tables[k], va, flags).0)
      case MapAndCopyCall(k, va, flags, src) => m.(s := MapAndCopy(m.s, m.tables[k], va, flags, src).0)
  }

  /** A table that an operation on another one cannot have touched. */
  ghost predicate Same(s: State, s': State, q: nat) {
    && Inv(s', q) && ViewOf(s'.mem, q) == ViewOf(s.mem, q)
    && forall d: nat, p: nat :: InTree(d, p) ==> Node(s'.mem, q, d, p) == Node(s.mem, q, d, p)
  }

  /** Memory in which the frames of q are as before, and still taken. */
  lemma SameFrames(s: State, s': State, q: nat)
    requires Inv(s, q) && PageAllocator.Valid(s'.mm) && |s'.mem| == |s.mem| == s'.mm.size <= MAX_FRAMES
    requires forall f: nat :: f < |s.mem| && InUse(s.mem, q, f) ==> s'.mem[f] == s.mem[f] && s'.mm.bits[f]
    ensures Same(s, s', q)
  {
    FramesLink(s, s', q);
    forall d: nat, p: nat | InTree(d, p)
      ensures Node(s'.mem, q, d, p) == Node(s.mem, q, d, p)
    {
      SameLinksSameNodes(s.mem, s'.mem, q, d, p);
    }
    SameTree(s, s', q);
    SameView(s, s', q);
  }

  lemma FramesLink(s: State, s': State, q: nat)
    requires Inv(s, q) && |s'.mem| == |s.mem|
    requires forall f: nat :: f < |s.mem| && InUse(s.mem, q, f) ==> s'.mem[f] == s.mem[f]
    ensures SameLinks(s.mem, s'.mem, q)
  {
    forall d: nat, p: nat | d < 3 && InTree(d, p) && Node(s.mem, q, d, p).Some?
      ensures s'.mem[Node(s.mem, q, d, p).value] == s.mem[Node(s.mem, q, d, p).value]
    {
      assert InUse(s.mem, q, Node(s.mem, q, d, p).value);
    }
  }

  lemma SameTree(s: State, s': State, q: nat)
    requires Inv(s, q) && PageAllocator.Valid(s'.mm) && |s'.mem| == |s.mem| == s'.mm.size <= MAX_FRAMES
    requires forall f: nat :: f < |s.mem| && InUse(s.mem, q, f) ==> s'.mem[f] == s.mem[f] && s'.mm.bits[f]
    requires forall d: nat, p: nat :: InTree(d, p) ==> Node(s'.mem, q, d, p) == Node(s.mem, q, d, p)
    ensures Inv(s', q)
  {
    forall d: nat, p: nat | InTree(d, p) && Node(s.mem, q, d, p).Some?
      ensures InUse(s.mem, q, Node(s.mem, q, d, p).value)
    {}
    forall d: nat, p: nat | d < 2 && InTree(d, p) && Node(s'.mem, q, d, p).Some?
      ensures InnerTable(s'.mem, Node(s'.mem, q, d, p).value)
    {
      var f := Node(s.mem, q, d, p).value;
      assert InUse(s.mem, q, f);
      SameTable(s.mem, s'.mem, f);
    }
  }

  lemma SameView(s: State, s': State, q: nat)
    requires Inv(s, q) && |s'.mem| == |s.mem|
    requires forall f: nat :: f < |s.mem| && InUse(s.mem, q, f) ==> s'.mem[f] == s.mem[f]
    requires forall d: nat, p: nat :: InTree(d, p) ==> Node(s'.mem, q, d, p) == Node(s.mem, q, d, p)
    ensures ViewOf(s'.mem, q) == ViewOf(s.mem, q)
  {
    forall vpn: nat | vpn < VPNS
      ensures PageAt(s'.mem, q, vpn) == PageAt(s.mem, q, vpn)
    {
      SamePage(s, s', q, vpn);
    }
  }

  lemma SamePage(s: State, s': State, q: nat, vpn: nat)
    requires Inv(s, q) && |s'.mem| == |s.mem| && vpn < VPNS
    requires forall f: nat :: f < |s.mem| && InUse(s.mem, q, f) ==> s'.mem[f] == s.mem[f]
    requires forall d: nat, p: nat :: InTree(d, p) ==> Node(s'.mem, q, d, p) == Node(s.mem, q, d, p)
    ensures PageAt(s'.mem, q, vpn) == PageAt(s.mem, q, vpn)
  {
    hide Node;
    ParentInTree(3, vpn);
    assert InTree(3, vpn) && InTree(2, vpn / 512);
    if Node(s.mem, q, 3, vpn).Some? {
      assert InUse(s.mem, q, Node(s.mem, q, 3, vpn).value);
    }
    if Node(s.mem, q, 2, vpn / 512).Some? {
      assert InUse(s.mem, q, Node(s.mem, q, 2, vpn / 512).value);
    }
  }

  /** An operation on table r leaves table q alone, and they stay apart. */
  lemma OtherTable(s: State, s': State, r: nat, q: nat)
    requires Inv(s, r) && Inv(s, q) && Apart(s.mem, q, r) && Inv(s', r) && Grows(s, s', r)
    ensures Same(s, s', q) && Apart(s'.mem, q, r)
  {
    forall f: nat | f < |s.mem| && InUse(s.mem, q, f)
      ensures s'.mem[f] == s.mem[f] && s'.mm.bits[f] && !InUse(s'.mem, r, f)
    {
      UsedIsTaken(s, q, f);
      assert Foreign(s, r, f);
    }
    SameFrames(s, s', q);
    hide Inv, Grows, ViewOf;
    forall f: nat | InUse(s'.mem, q, f)
      ensures !InUse(s'.mem, r, f)
    {
      SameUse(s, s', q, f);
      UsedIsTaken(s, q, f);
    }
  }

  lemma UsedIsTaken(s: State, q: nat, f: nat)
    requires Inv(s, q) && InUse(s.mem, q, f)
    ensures f < |s.mem| && f < |s.mm.bits| && s.mm.bits[f]
  {}

  lemma SameUse(s: State, s': State, q: nat, f: nat)
    requires Same(s, s', q)
    ensures InUse(s'.mem, q, f) <==> InUse(s.mem, q, f)
  {
    hide Inv, ViewOf, Node;
    if InUse(s'.mem, q, f) {
      var d: nat, p: nat :| InTree(d, p) && Node(s'.mem, q, d, p) == Some(f);
      assert Node(s.mem, q, d, p) == Some(f);
    }
    if InUse(s.mem, q, f) {
      var d: nat, p: nat :| InTree(d, p) && Node(s.mem, q, d, p) == Some(f);
      assert Node(s'.mem, q, d, p) == Some(f);
    }
  }

  lemma ApartSwap(mem: Memory, r: nat, q: nat)
    requires Apart(mem, r, q)
    ensures Apart(mem, q, r)
  {}

  lemma SameApart(s: State, s': State, r: nat, q: nat)
    requires Apart(s.mem, r, q) && Same(s, s', r) && Same(s, s', q)
    ensures Apart(s'.mem, r, q)
  {
    hide Same, InUse;
    forall f: nat | InUse(s'.mem, r, f)
      ensures !InUse(s'.mem, q, f)
    {
      SameUse(s, s', r, f);
      SameUse(s, s', q, f);
    }
  }

  // ---- one call ----

  /** An operation on the k-th table that keeps its tree keeps everything. */
  lemma OneTableGood(m: Machine, k: nat, s': State)
    requires Good(m) && k < |m.tables| && Inv(s', m.tables[k]) && Grows(m.s, s', m.tables[k])
    ensures Good(m.(s := s'))
    ensures forall j: nat :: j < |m.tables| && j != k ==> Same(m.s, s', m.tables[j])
  {
    hide Inv, Grows, Apart, Same;
    var r := m.tables[k];
    forall j: nat | j < |m.tables| && j != k
      ensures Same(m.s, s', m.tables[j]) && Apart(s'.mem, m.tables[j], r) && Apart(s'.mem, r, m.tables[j])
    {
      if k < j {
        ApartSwap(m.s.mem, r, m.tables[j]);
      }
      OtherTable(m.s, s', r, m.tables[j]);
      ApartSwap(s'.mem, m.tables[j], r);
    }
    forall i: nat, j: nat | i < j < |m.tables|
      ensures Apart(s'.mem, m.tables[i], m.tables[j])
    {
      if i != k && j != k {
        SameApart(m.s, s', m.tables[i], m.tables[j]);
      }
    }
    forall j: nat | j < |m.tables|
      ensures Inv(s', m.tables[j])
    {
      if j != k {
        SameInv(m.s, s', m.tables[j]);
      }
    }
    GoodSizes(s', r);
  }

  lemma SameInv(s: State, s': State, q: nat)
    requires Same(s, s', q)
    ensures Inv(s', q)
  {}

  lemma GoodSizes(s: State, r: nat)
    requires Inv(s, r)
    ensures PageAllocator.Valid(s.mm) && |s.mem| == s.mm.size <= MAX_FRAMES
  {}

  /** A new table has a frame of its own and nothing else. */
  lemma NewTableGood(m: Machine)
    requires Good(m) && CreatePt(m.s).1 != 0
    ensures var (s', root) := CreatePt(m.s);
            && Good(Machine(s', m.tables + [root])) && ViewOf(s'.mem, root) == map[]
            && forall j: nat :: j < |m.tables| ==> Same(m.s, s', m.tables[j])
  {
    hide Inv, CreatePt, Apart, Same, ViewOf;
    CreatePtSpec(m.s);
    var (s', root) := CreatePt(m.s);
    GoodSizes(s', root);
    forall j: nat | j < |m.tables|
      ensures Same(m.s, s', m.tables[j]) && Apart(s'.mem, m.tables[j], root) && Inv(s', m.tables[j])
    {
      OldTable(m.s, s', root, m.tables[j]);
    }
    var tables := m.tables + [root];
    forall i: nat, j: nat | i < j < |tables|
      ensures Apart(s'.mem, tables[i], tables[j])
    {
      if j < |m.tables| {
        SameApart(m.s, s', m.tables[i], m.tables[j]);
      }
    }
  }

  lemma OldTable(s: State, s': State, root: nat, q: nat)
    requires Inv(s, q) && CreatePt(s) == (s', root) && root != 0
    ensures Same(s, s', q) && Apart(s'.mem, q, root) && Inv(s', q)
  {
    hide CreatePt;
    CreatePtSpec(s);
    forall f: nat | f < |s.mem| && InUse(s.mem, q, f)
      ensures s'.mem[f] == s.mem[f] && s'.mm.bits[f] && f != root
    {
      UsedIsTaken(s, q, f);
    }
    SameFrames(s, s', q);
    forall f: nat | InUse(s'.mem, q, f)
      ensures !InUse(s'.mem, root, f)
    {
      SameUse(s, s', q, f);
      UsedIsTaken(s, q, f);
      OnlyRoot(s, s', root, f);
    }
  }

  lemma OnlyRoot(s: State, s': State, root: nat, f: nat)
    requires PageAllocator.Valid(s.mm) && |s.mem| == s.mm.size <= MAX_FRAMES
    requires CreatePt(s) == (s', root) && root != 0
    ensures InUse(s'.mem, root, f) ==> f == root
  {
    hide CreatePt;
    CreatePtSpec(s);
    if InUse(s'.mem, root, f) {
      if f != root {
        OnlyRootInUse(s'.mem, root, f);
      }
    }
  }

  ghost function Space(m: Machine, k: nat): View
    requires k < |m.tables|
  {
    ViewOf(m.s.mem, m.tables[k])
  }

  ghost predicate OthersSame(m: Machine, m': Machine, k: nat) {
    m'.tables == m.tables && forall j: nat :: j < |m.tables| && j != k ==> Same(m.s, m'.s, m.tables[j])
  }

  /** What a call changes: its own table as map_page or map_and_copy should, no other one. */
  ghost predicate Effect(m: Machine, m': Machine, c: Call) {
    if !Possible(m, c) then m' == m
    else match c
      case CreatePtCall =>
        if |m'.tables| == |m.tables| then m' == m && !AnyFree(m.s)
        else
          && |m'.tables| == |m.tables| + 1 && m'.tables[..|m.tables|] == m.tables && Space(m', |m.tables|) == map[]
          && forall j: nat :: j < |m.tables| ==> Same(m.s, m'.s, m.tables[j])
      case MapPageCall(k, va, flags) =>
        OthersSame(m, m', k) && exists f: nat :: MapsPage(m.s, m'.s, m.tables[k], Vpn(va), flags, f)
      case MapAndCopyCall(k, va, flags, src) =>
        OthersSame(m, m', k) && exists done: nat :: PartCopied(m, m', k, va, flags, src, done)
  }

  /** The first `done` bytes are in place; all of them unless no page is free. */
  ghost predicate PartCopied(m: Machine, m': Machine, k: nat, va: nat, flags: Flags, src: seq<byte>, done: nat) {
    && k < |m.tables| && m'.tables == m.tables && done <= |src| && (done < |src| ==> !AnyFree(m'.s))
    && CopyOf(Space(m, k), Space(m', k), va, flags, src[..done])
  }

  /** Every call, whether it succeeds or runs out of memory, keeps all tables trees with frames
      of their own, and has its effect on one table only. */
  lemma CallSpec(m: Machine, c: Call)
    requires Good(m)
    ensures Good(Do(m, c)) && Effect(m, Do(m, c), c)
  {
    hide Inv, AllApart, Same, CreatePt, MapPage, MapAndCopy, ViewOf, AnyFree, CopyOf, Grows, Vpn;
    if Possible(m, c) {
      match c
      case CreatePtCall =>
        CreatePtSpec(m.s);
        if CreatePt(m.s).1 != 0 {
          NewTableGood(m);
        }
      case MapPageCall(k, va, flags) =>
        MapPageSpec(m.s, m.tables[k], va, flags);
        var (s', f) := MapPage(m.s, m.tables[k], va, flags);
        OneTableGood(m, k, s');
      case MapAndCopyCall(k, va, flags, src) =>
        MapAndCopySpec(m.s, m.tables[k], va, flags, src);
        var (s', done) := MapAndCopy(m.s, m.tables[k], va, flags, src);
        OneTableGood(m, k, s');
        assert PartCopied(m, m.(s := s'), k, va, flags, src, done);
    }
  }

  // ---- sequences ----

  ghost function DoAll(m: Machine, cs: seq<Call>): (r: Machine)
    requires Good(m)
    ensures Good(r)
  {
    if cs == [] then m
    else
      var before := DoAll(m, cs[..|cs| - 1]);
      CallSpec(before, cs[|cs| - 1]);
      Do(before, cs[|cs| - 1])
  }

  /** Table k is still there, and its pages are mapped where they were, with the same flags. */
  ghost predicate PagesStay(m: Machine, m': Machine, k: nat) {
    && k < |m.tables| && k < |m'.tables| && m'.tables[k] == m.tables[k]
    && forall vpn :: vpn in Space(m, k) ==> PageStays(m, m', m.tables[k], vpn)
  }

  ghost predicate PageStays(m: Machine, m': Machine, root: nat, vpn: nat) {
    var v, v' := ViewOf(m.s.mem, root), ViewOf(m'.s.mem, root);
    && vpn in v && vpn in v' && v'[vpn].flags == v[vpn].flags
    && Node(m'.s.mem, root, 3, vpn) == Node(m.s.mem, root, 3, vpn)
  }

  lemma SamePageStays(m: Machine, m': Machine, root: nat, vpn: nat)
    requires Same(m.s, m'.s, root) && vpn in ViewOf(m.s.mem, root)
    ensures PageStays(m, m', root, vpn)
  {
    hide Inv, ViewOf, Node;
    MappedNode(m.s, root, vpn);
  }

  lemma GrownPageStays(m: Machine, m': Machine, root: nat, vpn: nat)
    requires Grows(m.s, m'.s, root) && vpn in ViewOf(m.s.mem, root) && vpn in ViewOf(m'.s.mem, root)
    requires ViewOf(m'.s.mem, root)[vpn].flags == ViewOf(m.s.mem, root)[vpn].flags
    ensures PageStays(m, m', root, vpn)
  {
    MappedNode(m.s, root, vpn);
  }

  lemma MappedNode(s: State, root: nat, vpn: nat)
    requires vpn in ViewOf(s.mem, root)
    ensures InTree(3, vpn) && Node(s.mem, root, 3, vpn).Some?
  {}

  lemma OtherPagesStay(m: Machine, m': Machine, k: nat)
    requires k < |m.tables| && k < |m'.tables| && m'.tables[k] == m.tables[k] && Same(m.s, m'.s, m.tables[k])
    ensures PagesStay(m, m', k)
  {
    hide Same, ViewOf, PageStays;
    forall vpn | vpn in Space(m, k)
      ensures PageStays(m, m', m.tables[k], vpn)
    {
      SamePageStays(m, m', m.tables[k], vpn);
    }
  }

  lemma OwnPagesStay(m: Machine, m': Machine, k: nat)
    requires k < |m.tables| && m'.tables == m.tables && Grows(m.s, m'.s, m.tables[k])
    requires forall vpn :: vpn in Space(m, k) ==>
               vpn in Space(m', k) && Space(m', k)[vpn].flags == Space(m, k)[vpn].flags
    ensures PagesStay(m, m', k)
  {
    hide Grows, ViewOf, PageStays;
    forall vpn | vpn in Space(m, k)
      ensures PageStays(m, m', m.tables[k], vpn)
    {
      GrownPageStays(m, m', m.tables[k], vpn);
    }
  }

  /** One call leaves every page of every table where it was. */
  lemma CallKeepsPages(m: Machine, c: Call, k: nat)
    requires Good(m) && k < |m.tables|
    ensures PagesStay(m, Do(m, c), k)
  {
    hide Inv, AllApart, Same, CreatePt, MapPage, MapAndCopy, ViewOf, AnyFree, CopyOf, Grows, Vpn, PagesStay;
    CallSpec(m, c);
    var m' := Do(m, c);
    if !Possible(m, c) {
      Unchanged(m, k);
    } else {
      match c
      case CreatePtCall =>
        if |m'.tables| == |m.tables| {
          Unchanged(m, k);
        } else {
          assert m'.tables[k] == m'.tables[..|m.tables|][k];
          OtherPagesStay(m, m', k);
        }
      case MapPageCall(i, va, flags) =>
        if i == k {
          MapPageSpec(m.s, m.tables[k], va, flags);
          OwnPagesStay(m, m', k);
        } else {
          OtherPagesStay(m, m', k);
        }
      case MapAndCopyCall(i, va, flags, src) =>
        if i == k {
          MapAndCopySpec(m.s, m.tables[k], va, flags, src);
          CopyKeepsFlags(m, m', k, va, flags, src[..MapAndCopy(m.s, m.tables[k], va, flags, src).1]);
          OwnPagesStay(m, m', k);
        } else {
          OtherPagesStay(m, m', k);
        }
    }
  }

  lemma CopyKeepsFlags(m: Machine, m': Machine, k: nat, va: nat, flags: Flags, bs: seq<byte>)
    requires k < |m.tables| && m'.tables == m.tables && CopyOf(Space(m, k), Space(m', k), va, flags, bs)
    ensures forall vpn :: vpn in Space(m, k) ==>
              vpn in Space(m', k) && Space(m', k)[vpn].flags == Space(m, k)[vpn].flags
  {
    hide ViewOf;
  }

  lemma Unchanged(m: Machine, k: nat)
    requires k < |m.tables|
    ensures PagesStay(m, m, k)
  {
    hide ViewOf, Node;
  }

  /** Over any sequence, succeeding or not: all tables stay trees of taken frames of their own,
      and whatever page was mapped stays mapped at its frame with its flags. */
  lemma {:induction false} SequenceKeeps(m: Machine, cs: seq<Call>, k: nat)
    requires Good(m) && k < |m.tables|
    ensures Good(DoAll(m, cs)) && PagesStay(m, DoAll(m, cs), k)
  {
    hide Good, PagesStay, Do;
    if cs == [] {
      Unchanged(m, k);
    } else {
      var before, c := cs[..|cs| - 1], cs[|cs| - 1];
      SequenceKeeps(m, before, k);
      StayHasTable(m, DoAll(m, before), k);
      CallKeepsPages(DoAll(m, before), c, k);
      PagesStayTransitive(m, DoAll(m, before), DoAll(m, cs), k);
    }
  }

  lemma StayHasTable(m: Machine, m': Machine, k: nat)
    requires PagesStay(m, m', k)
    ensures k < |m.tables| && k < |m'.tables|
  {
    hide PageStays;
  }

  lemma PagesStayTransitive(m: Machine, m1: Machine, m2: Machine, k: nat)
    requires PagesStay(m, m1, k) && PagesStay(m1, m2, k)
    ensures PagesStay(m, m2, k)
  {
    hide ViewOf, Node;
    forall vpn | vpn in Space(m, k)
      ensures PageStays(m, m2, m.tables[k], vpn)
    {
      assert PageStays(m, m1, m.tables[k], vpn);
      assert PageStays(m1, m2, m.tables[k], vpn);
    }
  }

  /** At every point the pages of all tables have taken frames of their own: a frame found at a
      page of one table is found nowhere else, neither in that table nor in another. */
  lemma SequenceSeparates(m: Machine, cs: seq<Call>, j: nat, vpn: nat, k: nat, d: nat, p: nat)
    requires Good(m)
    requires var m' := DoAll(m, cs);
             && j < |m'.tables| && k < |m'.tables| && vpn < VPNS && InTree(d, p)
             && Node(m'.s.mem, m'.tables[j], 3, vpn).Some?
             && Node(m'.s.mem, m'.tables[k], d, p) == Node(m'.s.mem, m'.tables[j], 3, vpn)
    ensures j == k && d == 3 && p == vpn
    ensures var m' := DoAll(m, cs);
            var f := Node(m'.s.mem, m'.tables[j], 3, vpn).value;
            f < |m'.s.mm.bits| && m'.s.mm.bits[f]
  {
    hide Node, ViewOf, DoAll;
    var m' := DoAll(m, cs);
    var f := Node(m'.s.mem, m'.tables[j], 3, vpn).value;
    assert InTree(3, vpn);
    assert InUse(m'.s.mem, m'.tables[j], f) && InUse(m'.s.mem, m'.tables[k], f);
    if j != k {
      NotShared(m', j, k, f);
    }
    UsedIsTaken(m'.s, m'.tables[j], f);
    DistinctFrames(m'.s, m'.tables[j], vpn, d, p);
  }

  lemma NotShared(m: Machine, j: nat, k: nat, f: nat)
    requires Good(m) && j < |m.tables| && k < |m.tables| && j != k && InUse(m.s.mem, m.tables[j], f)
    ensures !InUse(m.s.mem, m.tables[k], f)
  {
    hide Inv, InUse;
    if j < k {
      assert Apart(m.s.mem, m.tables[j], m.tables[k]);
    } else {
      assert Apart(m.s.mem, m.tables[k], m.tables[j]);
    }
  }
}
