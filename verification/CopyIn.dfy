/** map_and_copy of vm.c on values: copying bytes into an address space page by page. */
module CopyIn {
  import opened Bytes
  import opened Sv39
  import opened PageTable
  import opened AddressSpace

  // ---- writing to a mapped page ----

  /** memcpy(page f + o, bs, |bs|) */
  function Write(s: State, f: nat, o: nat, bs: seq<byte>): State
    requires f < |s.mem| && o + |bs| <= PGSIZE
  {
    s.(mem := s.mem[f := Overlay(s.mem[f], o, bs)])
  }

  function Written(v: View, vpn: nat, o: nat, bs: seq<byte>): View
    requires vpn in v && o + |bs| <= PGSIZE
  {
    v[vpn := v[vpn].(bytes := Overlay(v[vpn].bytes, o, bs))]
  }

  /** Frame f is the data page mapped at vpn. */
  ghost predicate DataPage(s: State, root: nat, vpn: nat, f: nat) {
    Inv(s, root) && vpn < VPNS && InTree(3, vpn) && Node(s.mem, root, 3, vpn) == Some(f) && f < |s.mem|
  }

  lemma NotATable(s: State, root: nat, vpn: nat, f: nat, d: nat, p: nat)
    requires DataPage(s, root, vpn, f) && InTree(d, p) && Node(s.mem, root, d, p) == Some(f)
    ensures d == 3 && p == vpn
  {}

  lemma WriteSameLinks(s: State, root: nat, vpn: nat, f: nat, o: nat, bs: seq<byte>)
    requires DataPage(s, root, vpn, f) && o + |bs| <= PGSIZE
    ensures SameLinks(s.mem, Write(s, f, o, bs).mem, root)
  {
    forall d: nat, p: nat | d < 3 && InTree(d, p) && Node(s.mem, root, d, p).Some?
      ensures Node(s.mem, root, d, p).value != f
    {
      if Node(s.mem, root, d, p).value == f {
        NotATable(s, root, vpn, f, d, p);
      }
    }
  }

  lemma WriteNode(s: State, root: nat, vpn: nat, f: nat, o: nat, bs: seq<byte>, d: nat, p: nat)
    requires DataPage(s, root, vpn, f) && o + |bs| <= PGSIZE && InTree(d, p)
    ensures Node(Write(s, f, o, bs).mem, root, d, p) == Node(s.mem, root, d, p)
  {
    WriteSameLinks(s, root, vpn, f, o, bs);
    SameLinksSameNodes(s.mem, Write(s, f, o, bs).mem, root, d, p);
  }

  lemma WriteInnerTables(s: State, root: nat, vpn: nat, f: nat, o: nat, bs: seq<byte>)
    requires DataPage(s, root, vpn, f) && o + |bs| <= PGSIZE
    ensures InnerTables(Write(s, f, o, bs).mem, root)
  {
    forall d: nat, p: nat | d < 2 && InTree(d, p) && Node(Write(s, f, o, bs).mem, root, d, p).Some?
      ensures InnerTable(Write(s, f, o, bs).mem, Node(Write(s, f, o, bs).mem, root, d, p).value)
    {
      WriteInnerTable(s, root, vpn, f, o, bs, d, p);
    }
  }

  lemma SameTable(mem: Memory, mem': Memory, h: nat)
    requires InnerTable(mem, h) && h < |mem| == |mem'| && mem'[h] == mem[h]
    ensures InnerTable(mem', h)
  {
    forall i: nat
      ensures Entry(mem', h, i) == Entry(mem, h, i)
    {}
  }

  lemma WriteInnerTable(s: State, root: nat, vpn: nat, f: nat, o: nat, bs: seq<byte>, d: nat, p: nat)
    requires DataPage(s, root, vpn, f) && o + |bs| <= PGSIZE
    requires d < 2 && InTree(d, p) && Node(Write(s, f, o, bs).mem, root, d, p).Some?
    ensures InnerTable(Write(s, f, o, bs).mem, Node(Write(s, f, o, bs).mem, root, d, p).value)
  {
    WriteNode(s, root, vpn, f, o, bs, d, p);
    var h := Node(s.mem, root, d, p).value;
    if h == f {
      NotATable(s, root, vpn, f, d, p);
    }
    SameTable(s.mem, Write(s, f, o, bs).mem, h);
  }

  lemma WriteInv(s: State, root: nat, vpn: nat, f: nat, o: nat, bs: seq<byte>)
    requires DataPage(s, root, vpn, f) && o + |bs| <= PGSIZE
    ensures Inv(Write(s, f, o, bs), root) && Grows(s, Write(s, f, o, bs), root)
  {
    forall d: nat, p: nat | InTree(d, p)
      ensures Node(Write(s, f, o, bs).mem, root, d, p) == Node(s.mem, root, d, p)
    {
      WriteNode(s, root, vpn, f, o, bs, d, p);
    }
    assert InUse(s.mem, root, f);
    WriteInnerTables(s, root, vpn, f, o, bs);
  }

  lemma WriteLeaf(s: State, root: nat, vpn: nat, f: nat, o: nat, bs: seq<byte>, u: nat)
    requires DataPage(s, root, vpn, f) && o + |bs| <= PGSIZE && u < VPNS
    ensures LeafPte(Write(s, f, o, bs).mem, root, u) == LeafPte(s.mem, root, u)
  {
    ParentInTree(3, u);
    WriteNode(s, root, vpn, f, o, bs, 2, u / 512);
    if Node(s.mem, root, 2, u / 512) == Some(f) {
      NotATable(s, root, vpn, f, 2, u / 512);
    }
  }

  lemma WritePageAt(s: State, root: nat, vpn: nat, f: nat, o: nat, bs: seq<byte>, u: nat)
    requires DataPage(s, root, vpn, f) && o + |bs| <= PGSIZE && u < VPNS
    ensures PageAt(Write(s, f, o, bs).mem, root, u)
            == if u == vpn then Some(Page(PteFlags(LeafPte(s.mem, root, vpn)), Overlay(s.mem[f], o, bs)))
               else PageAt(s.mem, root, u)
  {
    WriteLeaf(s, root, vpn, f, o, bs, u);
    WriteNode(s, root, vpn, f, o, bs, 3, u);
    if Node(s.mem, root, 3, u) == Some(f) {
      NotATable(s, root, vpn, f, 3, u);
    }
  }

  lemma WriteView(s: State, root: nat, vpn: nat, f: nat, o: nat, bs: seq<byte>)
    requires DataPage(s, root, vpn, f) && o + |bs| <= PGSIZE
    ensures vpn in ViewOf(s.mem, root)
    ensures ViewOf(Write(s, f, o, bs).mem, root) == Written(ViewOf(s.mem, root), vpn, o, bs)
  {
    var v := Written(ViewOf(s.mem, root), vpn, o, bs);
    assert PageAt(s.mem, root, vpn) == Some(Page(PteFlags(LeafPte(s.mem, root, vpn)), s.mem[f]));
    hide Write, Overlay, LeafPte, Node, PageAt, Inv;
    forall u: nat | u < VPNS
      ensures PageAt(Write(s, f, o, bs).mem, root, u) == if u in v then Some(v[u]) else None
    {
      WritePageAt(s, root, vpn, f, o, bs, u);
    }
    ViewIs(Write(s, f, o, bs).mem, root, v);
  }

  lemma MappedIsDataPage(s: State, root: nat, vpn: nat, f: nat)
    requires Inv(s, root) && vpn < VPNS && Node(s.mem, root, 3, vpn) == Some(f)
    ensures DataPage(s, root, vpn, f)
  {
    assert InTree(3, vpn);
  }

  lemma FrameOfPage(s: State, root: nat, vpn: nat, f: nat)
    requires Inv(s, root) && vpn < VPNS && Node(s.mem, root, 3, vpn) == Some(f)
    ensures f < |s.mem| && vpn in ViewOf(s.mem, root) && ViewOf(s.mem, root)[vpn].bytes == s.mem[f]
  {
    assert InTree(3, vpn);
  }

  // ---- map_and_copy ----

  /** The bytes of a range starting at va that lie in va's own page. */
  function Chunk(va: nat, len: nat): (n: nat)
    ensures n <= len && va % PGSIZE + n <= PGSIZE
    ensures len > 0 ==> n > 0
  {
    var room := PGSIZE - va % PGSIZE;
    if len < room then len else room
  }

  const VA_LIMIT: nat := 0x80_0000_0000 // 2^39, the reach of a three-level table

  // ---- the meaning of a copy ----

  /** Page vpn meets the range of len bytes at va. */
  predicate Touches(va: nat, len: nat, vpn: nat) {
    len > 0 && va / PGSIZE <= vpn && PGSIZE * vpn < va + len
  }

  /** What the user reads at offset o of a page; 0 where nothing is mapped. */
  function ByteAt(v: View, vpn: nat, o: nat): byte {
    if vpn in v && o < PGSIZE then v[vpn].bytes[o] else 0
  }

  /** v' is v with src copied to va: exactly the pages that meet the range are added, with
      the given flags and zeroed; address va + i reads src[i]; every other byte of a page
      reads as before. */
  ghost predicate CopyOf(v: View, v': View, va: nat, flags: Flags, src: seq<byte>) {
    && (forall vpn: nat :: vpn in v' <==> vpn in v || Touches(va, |src|, vpn))
    && (forall vpn: nat :: vpn in v' ==> v'[vpn].flags == if vpn in v then v[vpn].flags else flags)
    && (forall vpn: nat, o: nat :: o < PGSIZE && vpn in v' ==>
          ByteAt(v', vpn, o) == if va <= PGSIZE * vpn + o < va + |src| then src[PGSIZE * vpn + o - va]
                                else ByteAt(v, vpn, o))
  }

  lemma CopyNothing(v: View, va: nat, flags: Flags)
    ensures CopyOf(v, v, va, flags, [])
  {}

  /** Copying two adjacent pieces is copying their concatenation. */
  lemma CopyCompose(v: View, v1: View, v2: View, va: nat, flags: Flags, a: seq<byte>, b: seq<byte>)
    requires CopyOf(v, v1, va, flags, a) && CopyOf(v1, v2, va + |a|, flags, b)
    ensures CopyOf(v, v2, va, flags, a + b)
  {
    forall vpn: nat
      ensures Touches(va, |a + b|, vpn) <==> Touches(va, |a|, vpn) || Touches(va + |a|, |b|, vpn)
    {}
  }

  lemma TouchesOwnPage(va: nat, len: nat)
    requires 0 < len && va % PGSIZE + len <= PGSIZE
    ensures forall vpn: nat :: Touches(va, len, vpn) <==> vpn == va / PGSIZE
    ensures va == PGSIZE * (va / PGSIZE) + va % PGSIZE
  {}

  lemma WrittenIsCopy(v: View, va: nat, flags: Flags, bs: seq<byte>)
    requires 0 < |bs| && va % PGSIZE + |bs| <= PGSIZE
    ensures CopyOf(v, Written(Mapped(v, va / PGSIZE, flags), va / PGSIZE, va % PGSIZE, bs), va, flags, bs)
  {
    TouchesOwnPage(va, |bs|);
  }

  /** Mapping the page of va and filling in bytes of that page is a copy of those bytes. */
  lemma CopyStep(s: State, s1: State, root: nat, va: nat, flags: Flags, f: nat, bs: seq<byte>)
    requires va / PGSIZE < VPNS && 0 < |bs| && va % PGSIZE + |bs| <= PGSIZE
    requires f != 0 && MapsPage(s, s1, root, va / PGSIZE, flags, f)
    ensures f < |s1.mem|
    ensures var s2 := Write(s1, f, va % PGSIZE, bs);
            && Inv(s2, root) && Grows(s, s2, root)
            && CopyOf(ViewOf(s.mem, root), ViewOf(s2.mem, root), va, flags, bs)
  {
    var vpn := va / PGSIZE;
    MappedIsDataPage(s1, root, vpn, f);
    WriteInv(s1, root, vpn, f, va % PGSIZE, bs);
    WriteView(s1, root, vpn, f, va % PGSIZE, bs);
    GrowsTransitive(s, s1, Write(s1, f, va % PGSIZE, bs), root);
    WrittenIsCopy(ViewOf(s.mem, root), va, flags, bs);
  }

  /** A copy of the first n bytes, continued by the next k. */
  lemma CopyMore(v: View, v1: View, v2: View, va: nat, flags: Flags, src: seq<byte>, n: nat, k: nat)
    requires n + k <= |src|
    requires CopyOf(v, v1, va, flags, src[..n]) && CopyOf(v1, v2, va + n, flags, src[n..n + k])
    ensures CopyOf(v, v2, va, flags, src[..n + k])
  {
    assert src[..n] + src[n..n + k] == src[..n + k];
    CopyCompose(v, v1, v2, va, flags, src[..n], src[n..n + k]);
  }

  /** The relation fixes the outcome: there is one view that is v with src copied to va. */
  lemma CopyUnique(v: View, v1: View, v2: View, va: nat, flags: Flags, src: seq<byte>)
    requires CopyOf(v, v1, va, flags, src) && CopyOf(v, v2, va, flags, src)
    ensures v1 == v2
  {
    forall vpn | vpn in v1
      ensures v1[vpn] == v2[vpn]
    {
      forall o: nat | o < PGSIZE
        ensures v1[vpn].bytes[o] == v2[vpn].bytes[o]
      {
        assert ByteAt(v1, vpn, o) == ByteAt(v2, vpn, o);
      }
    }
  }

  // ---- map_and_copy as a function ----

  /** Map the page of va and fill in bytes of that page; false when memory is exhausted. */
  function CopyPage(s: State, root: nat, va: nat, flags: Flags, bs: seq<byte>): (State, bool)
    requires root != 0 ==> Inv(s, root)
    requires va / PGSIZE < VPNS && va % PGSIZE + |bs| <= PGSIZE
  {
    var (s1, f) := MapPage(s, root, PgAlignFloor(va), flags);
    if f == 0 then (s1, false)
    else
      MappedFrame(s, root, PgAlignFloor(va), flags);
      (Write(s1, f, va % PGSIZE, bs), true)
  }

  lemma MappedFrame(s: State, root: nat, va: nat, flags: Flags)
    requires root != 0 ==> Inv(s, root)
    requires MapPage(s, root, va, flags).1 != 0
    ensures root != 0
    ensures var (s1, f) := MapPage(s, root, va, flags);
            f < |s1.mem| && MapsPage(s, s1, root, Vpn(va), flags, f)
  {
    hide MapPage, Inv, Grows, ViewOf, Node;
    NullMapsNothing(s, va, flags);
    MapPageSpec(s, root, va, flags);
    var (s1, f) := MapPage(s, root, va, flags);
    MappedIsDataPage(s1, root, Vpn(va), f);
  }

  lemma NullMapsNothing(s: State, va: nat, flags: Flags)
    ensures MapPage(s, 0, va, flags) == (s, 0)
  {}

  /** What a step leaves of the state it started from: with a page table the tree, which only
      grows; with none (a NULL root) everything. */
  ghost predicate Kept(s: State, s': State, root: nat) {
    if root == 0 then s' == s else Inv(s', root) && Grows(s, s', root)
  }

  ghost predicate Proper(s: State, root: nat) {
    root != 0 ==> Inv(s, root)
  }

  lemma KeptReflexive(s: State, root: nat)
    requires Proper(s, root)
    ensures Kept(s, s, root)
  {
    if root != 0 {
      QuietReflexive(s, root);
    }
  }

  lemma KeptTransitive(s: State, s1: State, s2: State, root: nat)
    requires Kept(s, s1, root) && Kept(s1, s2, root)
    ensures Kept(s, s2, root)
  {
    if root != 0 {
      GrowsTransitive(s, s1, s2, root);
    }
  }

  lemma CopyPageSpec(s: State, root: nat, va: nat, flags: Flags, bs: seq<byte>)
    requires Proper(s, root)
    requires va / PGSIZE < VPNS && 0 < |bs| && va % PGSIZE + |bs| <= PGSIZE
    ensures var (s', ok) := CopyPage(s, root, va, flags, bs);
            && Kept(s, s', root) && (root == 0 ==> !ok)
            && (root != 0 ==> if ok then CopyOf(ViewOf(s.mem, root), ViewOf(s'.mem, root), va, flags, bs)
                              else !AnyFree(s') && ViewOf(s'.mem, root) == ViewOf(s.mem, root))
  {
    hide Inv, Grows, CopyOf, AnyFree, ViewOf, MapPage;
    NullMapsNothing(s, PgAlignFloor(va), flags);
    var (s1, f) := MapPage(s, root, PgAlignFloor(va), flags);
    if root != 0 {
      AlignedVpn(va);
      MapPageSpec(s, root, PgAlignFloor(va), flags);
      if f != 0 {
        CopyStep(s, s1, root, va, flags, f, bs);
      }
    }
  }

  lemma AlignedVpn(va: nat)
    requires va / PGSIZE < VPNS
    ensures Vpn(PgAlignFloor(va)) == va / PGSIZE && va - PgAlignFloor(va) == va % PGSIZE
  {
    VpnIsPage(PgAlignFloor(va));
  }

  /** map_and_copy: the state afterwards, and how many bytes were copied before memory ran out,
      which are all of them on success. */
  function MapAndCopy(s: State, root: nat, va: nat, flags: Flags, src: seq<byte>): (State, nat)
    requires root != 0 ==> Inv(s, root)
    requires va + |src| <= VA_LIMIT
    decreases |src|
  {
    if src == [] then (s, 0)
    else
      var n := Chunk(va, |src|);
      ChunkInReach(va, |src|);
      var (s1, ok) := CopyPage(s, root, va, flags, src[..n]);
      if !ok then (s1, 0)
      else
        CopyPageSpec(s, root, va, flags, src[..n]);
        var (s2, done) := MapAndCopy(s1, root, va + n, flags, src[n..]);
        (s2, n + done)
  }

  lemma ChunkInReach(va: nat, len: nat)
    requires 0 < len && va + len <= VA_LIMIT
    ensures va / PGSIZE < VPNS && va + Chunk(va, len) + (len - Chunk(va, len)) <= VA_LIMIT
  {}

  /** In every outcome the tree is kept; the bytes copied are in place and nothing else has
      changed; and they are all of them unless no page is free. */
  lemma {:induction false} MapAndCopySpec(s: State, root: nat, va: nat, flags: Flags, src: seq<byte>)
    requires Proper(s, root) && va + |src| <= VA_LIMIT
    ensures var (s', done) := MapAndCopy(s, root, va, flags, src);
            && Kept(s, s', root) && done <= |src| && (root == 0 ==> done == 0)
            && (root != 0 ==> CopyOf(ViewOf(s.mem, root), ViewOf(s'.mem, root), va, flags, src[..done]))
            && (root != 0 && done < |src| ==> !AnyFree(s'))
    decreases |src|
  {
    hide Inv, Grows, CopyOf, AnyFree, ViewOf, CopyPage;
    if src == [] {
      KeptReflexive(s, root);
      CopyNothing(ViewOf(s.mem, root), va, flags);
    } else {
      var n := Chunk(va, |src|);
      ChunkInReach(va, |src|);
      CopyPageSpec(s, root, va, flags, src[..n]);
      var (s1, ok) := CopyPage(s, root, va, flags, src[..n]);
      if ok {
        MapAndCopySpec(s1, root, va + n, flags, src[n..]);
        var (s2, done) := MapAndCopy(s1, root, va + n, flags, src[n..]);
        KeptTransitive(s, s1, s2, root);
        assert src[n..][..done] == src[n..n + done];
        CopyMore(ViewOf(s.mem, root), ViewOf(s1.mem, root), ViewOf(s2.mem, root), va, flags, src, n, done);
      } else {
        assert src[..0] == [];
        CopyNothing(ViewOf(s.mem, root), va, flags);
      }
    }
  }

  // ---- mapping whole ranges of pages ----

  /** v' is v with the pages lo <= vpn < hi mapped: new ones zeroed with the given flags,
      old ones as they were. */
  ghost predicate RangeMapped(v: View, v': View, lo: nat, hi: nat, flags: Flags) {
    && (forall vpn: nat :: vpn in v' <==> vpn in v || lo <= vpn < hi)
    && (forall vpn: nat :: vpn in v' ==> v'[vpn] == if vpn in v then v[vpn] else Page(flags, ZERO_FRAME))
  }

  lemma RangeNothing(v: View, lo: nat, flags: Flags)
    ensures RangeMapped(v, v, lo, lo, flags)
  {}

  lemma RangeEmpty(v: View, v': View, lo: nat, hi: nat, flags: Flags)
    requires hi <= lo && RangeMapped(v, v', lo, lo, flags)
    ensures RangeMapped(v, v', lo, hi, flags)
  {}

  /** The loops that call map_page for every page from number lo up to hi; false when memory is
      exhausted. */
  function MapRange(s: State, root: nat, lo: nat, hi: nat, flags: Flags): (State, bool)
    requires root != 0 ==> Inv(s, root)
    requires hi <= VPNS
    decreases hi - lo
  {
    if lo >= hi then (s, true)
    else
      var (s1, f) := MapPage(s, root, PGSIZE * lo, flags);
      if f == 0 then (s1, false)
      else
        MappedFrame(s, root, PGSIZE * lo, flags);
        MapRange(s1, root, lo + 1, hi, flags)
  }

  lemma NumberedVpn(k: nat)
    requires k < VPNS
    ensures Vpn(PGSIZE * k) == k
  {
    VpnIsPage(PGSIZE * k);
  }

  /** Success maps exactly the pages of the range. */
  lemma {:induction false} MapRangeSpec(s: State, root: nat, lo: nat, hi: nat, flags: Flags)
    requires Proper(s, root) && hi <= VPNS
    ensures var (s', ok) := MapRange(s, root, lo, hi, flags);
            && Kept(s, s', root) && (root == 0 ==> ok == (lo >= hi))
            && (root != 0 && ok ==> RangeMapped(ViewOf(s.mem, root), ViewOf(s'.mem, root), lo, hi, flags))
            && (root != 0 && !ok ==> !AnyFree(s'))
    decreases hi - lo
  {
    hide Inv, Grows, RangeMapped, AnyFree, ViewOf, MapPage, Mapped;
    KeptReflexive(s, root);
    if lo >= hi {
      RangeNothing(ViewOf(s.mem, root), lo, flags);
      RangeEmpty(ViewOf(s.mem, root), ViewOf(s.mem, root), lo, hi, flags);
    } else {
      NumberedVpn(lo);
      NullMapsNothing(s, PGSIZE * lo, flags);
      var (s1, f) := MapPage(s, root, PGSIZE * lo, flags);
      if root != 0 {
        MapPageSpec(s, root, PGSIZE * lo, flags);
        if f != 0 {
          MapRangeSpec(s1, root, lo + 1, hi, flags);
          var (s2, ok) := MapRange(s1, root, lo + 1, hi, flags);
          KeptTransitive(s, s1, s2, root);
          if ok {
            RangeFirst(ViewOf(s.mem, root), ViewOf(s2.mem, root), lo, hi, flags);
          }
        }
      }
    }
  }

  lemma RangeFirst(v: View, v': View, lo: nat, hi: nat, flags: Flags)
    requires lo < hi && RangeMapped(Mapped(v, lo, flags), v', lo + 1, hi, flags)
    ensures RangeMapped(v, v', lo, hi, flags)
  {}
}
