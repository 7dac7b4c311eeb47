/** What lies in free frames does not matter: two machines that agree on the allocator and on the
    frames that are taken go through the same operations with the same results. */
module Isolation {
  import opened Bytes
  import opened Sv39
  import opened PageTable
  import opened AddressSpace
  import opened CopyIn
  import opened ElfImage
  import opened ElfLoad
  import MapSequence
  import PageAllocator

  /** The same frames are taken, with the same contents. */
  ghost predicate Agree(s: State, t: State) {
    && t.mm == s.mm && |t.mem| == |s.mem| == |s.mm.bits|
    && forall f: nat :: f < |s.mem| && s.mm.bits[f] ==> t.mem[f] == s.mem[f]
  }

  ghost predicate Sized(s: State) {
    PageAllocator.Valid(s.mm) && |s.mem| == s.mm.size
  }

  lemma InvSized(s: State, root: nat)
    requires Inv(s, root)
    ensures Sized(s) && |s.mem| == |s.mm.bits| && root < |s.mem|
  {
    hide Inv;
    InvMemory(s, root);
    RootInMemory(s, root);
  }

  lemma TakenNode(s: State, root: nat, d: nat, p: nat)
    requires Inv(s, root) && InTree(d, p) && Node(s.mem, root, d, p).Some?
    ensures var f := Node(s.mem, root, d, p).value; f < |s.mem| == |s.mm.bits| && s.mm.bits[f]
  {}

  /** The tables of one are the tables of the other. */
  lemma AgreeTree(s: State, t: State, root: nat)
    requires Inv(s, root) && Agree(s, t)
    ensures MapSequence.Same(s, t, root)
  {
    hide Inv, Node, InTree;
    InvSized(s, root);
    forall f: nat | f < |s.mem| && InUse(s.mem, root, f)
      ensures t.mem[f] == s.mem[f] && t.mm.bits[f]
    {
      var d: nat, p: nat :| InTree(d, p) && Node(s.mem, root, d, p) == Some(f);
      TakenNode(s, root, d, p);
    }
    InvMemory(s, root);
    MapSequence.SameFrames(s, t, root);
  }

  lemma AgreeInv(s: State, t: State, root: nat)
    requires Proper(s, root) && Agree(s, t)
    ensures Proper(t, root)
    ensures root != 0 ==> ViewOf(t.mem, root) == ViewOf(s.mem, root)
  {
    hide Inv, Agree, Node, ViewOf;
    if root != 0 {
      AgreeTree(s, t, root);
    }
  }

  // ---- one frame more ----

  /** A fresh frame is zeroed before it is used, so what was in it is lost. */
  lemma AgreeLink(s: State, t: State, mm: PageAllocator.Bitmap, f: nat, i: nat, g: nat, pte: nat)
    requires Agree(s, t) && f < |s.mem| && s.mm.bits[f] && i < ENTRIES && Fresh(s, mm, g)
    ensures Agree(State(Link(s.mem, f, i, g, pte), mm), State(Link(t.mem, f, i, g, pte), mm))
  {
    hide StoreEntry;
  }

  lemma AgreeEntry(s: State, t: State, f: nat, i: nat)
    requires Agree(s, t) && f < |s.mem| && s.mm.bits[f]
    ensures Entry(t.mem, f, i) == Entry(s.mem, f, i)
  {}

  lemma AgreeLevel(s: State, t: State, level: nat, f: nat, i: nat)
    requires Agree(s, t) && Sized(s) && f < |s.mem| && s.mm.bits[f] && i < ENTRIES
    ensures GetPtLevel(t, level, f, i).1 == GetPtLevel(s, level, f, i).1
    ensures Agree(GetPtLevel(s, level, f, i).0, GetPtLevel(t, level, f, i).0)
  {
    hide Link, MakePte, PteFrame, PageAllocator.GetFreePage;
    AgreeEntry(s, t, f, i);
    if !PteValid(Entry(s.mem, f, i)) {
      AllocateFresh(s);
      var (mm, g) := PageAllocator.GetFreePage(s.mm);
      if g != 0 {
        AgreeLink(s, t, mm, f, i, g, MakePte(level, g, NO_FLAGS));
      }
    }
  }

  lemma AgreeLeaf(s: State, t: State, f: nat, i: nat, flags: Flags)
    requires Agree(s, t) && Sized(s) && f < |s.mem| && s.mm.bits[f] && i < ENTRIES
    ensures MapLeaf(t, f, i, flags).1 == MapLeaf(s, f, i, flags).1
    ensures Agree(MapLeaf(s, f, i, flags).0, MapLeaf(t, f, i, flags).0)
  {
    hide Link, MakePte, PteFrame, PageAllocator.GetFreePage;
    AgreeEntry(s, t, f, i);
    if !PteValid(Entry(s.mem, f, i)) {
      AllocateFresh(s);
      var (mm, g) := PageAllocator.GetFreePage(s.mm);
      if g != 0 {
        AgreeLink(s, t, mm, f, i, g, MakePte(0, g, flags));
      }
    }
  }

  lemma FoundTaken(s: State, root: nat, d: nat, p: nat, f: nat)
    requires Inv(s, root) && InTree(d, p) && f != 0 && Found(s, root, d, p, f)
    ensures f < |s.mem| == |s.mm.bits| && s.mm.bits[f]
  {
    hide Inv;
    TakenNode(s, root, d, p);
  }

  lemma FirstLevel(s: State, root: nat, i: nat)
    requires Inv(s, root) && i < ENTRIES && root < |s.mem|
    ensures var (s1, t1) := GetPtLevel(s, 2, root, i);
            Inv(s1, root) && (t1 != 0 ==> t1 < |s1.mem| == |s1.mm.bits| && s1.mm.bits[t1])
    ensures |s.mem| == |s.mm.bits| && s.mm.bits[root]
  {
    hide GetPtLevel;
    RootInMemory(s, root);
    TakenNode(s, root, 0, 0);
    ChildInTree(0, 0, i);
    GetPtLevelSpec(s, root, 2, 0, 0, root, i);
    var (s1, t1) := GetPtLevel(s, 2, root, i);
    if t1 != 0 {
      FoundTaken(s1, root, 1, i, t1);
    }
  }

  lemma AgreeGetPte(s: State, t: State, root: nat, va: nat)
    requires root != 0 && Inv(s, root) && Agree(s, t)
    ensures Inv(t, root)
    ensures GetPte(t, root, va).1 == GetPte(s, root, va).1 && Agree(GetPte(s, root, va).0, GetPte(t, root, va).0)
  {
    hide Inv, GetPtLevel, Agree, PtIdx, ViewOf, PageAllocator.Valid;
    AgreeInv(s, t, root);
    InvSized(s, root);
    InvSized(t, root);
    var i := PtIdx(2, va);
    FirstLevel(s, root, i);
    FirstLevel(t, root, i);
    AgreeLevel(s, t, 2, root, i);
    var (s1, t1) := GetPtLevel(s, 2, root, i);
    if t1 != 0 {
      InvSized(s1, root);
      AgreeLevel(s1, GetPtLevel(t, 2, root, i).0, 1, t1, PtIdx(1, va));
    }
  }

  lemma PteTaken(s: State, root: nat, va: nat)
    requires root != 0 && Inv(s, root)
    ensures var (s1, t1) := GetPte(s, root, va);
            Inv(s1, root) && Sized(s1) && (t1 != 0 ==> t1 < |s1.mem| == |s1.mm.bits| && s1.mm.bits[t1])
  {
    hide Inv, GetPte, Grows, ViewOf, Vpn, PtIdx, Found, Sized;
    GetPteSpec(s, root, va);
    var (s1, t1) := GetPte(s, root, va);
    InvSized(s1, root);
    if t1 != 0 {
      VpnDigits(va);
      assert InTree(2, Vpn(va) / 512);
      FoundTaken(s1, root, 2, Vpn(va) / 512, t1);
    }
  }

  lemma AgreeMapPage(s: State, t: State, root: nat, va: nat, flags: Flags)
    requires Proper(s, root) && Agree(s, t)
    ensures Proper(t, root)
    ensures MapPage(t, root, va, flags).1 == MapPage(s, root, va, flags).1
    ensures Agree(MapPage(s, root, va, flags).0, MapPage(t, root, va, flags).0)
  {
    hide Inv, Agree, Sized, PtIdx, ViewOf, MapLeaf;
    AgreeInv(s, t, root);
    if root == 0 {
      NullMapsNothing(s, va, flags);
      NullMapsNothing(t, va, flags);
    } else {
      MapPageThroughPte(s, t, root, va, flags);
    }
  }

  lemma MapPageThroughPte(s: State, t: State, root: nat, va: nat, flags: Flags)
    requires root != 0 && Inv(s, root) && Inv(t, root) && Agree(s, t)
    ensures MapPage(t, root, va, flags).1 == MapPage(s, root, va, flags).1
    ensures Agree(MapPage(s, root, va, flags).0, MapPage(t, root, va, flags).0)
  {
    hide Inv, Agree, PtIdx, ViewOf, MapLeaf, GetPte;
    AgreeGetPte(s, t, root, va);
    PteTaken(s, root, va);
    PteTaken(t, root, va);
    var (s1, t1) := GetPte(s, root, va);
    if t1 != 0 {
      AgreeLeaf(s1, GetPte(t, root, va).0, t1, PtIdx(0, va), flags);
    }
  }

  lemma AgreeWrite(s: State, t: State, f: nat, o: nat, bs: seq<byte>)
    requires Agree(s, t) && f < |s.mem| && o + |bs| <= PGSIZE
    ensures Agree(Write(s, f, o, bs), Write(t, f, o, bs))
  {}

  lemma AgreeCreatePt(s: State, t: State)
    requires Agree(s, t) && Sized(s)
    ensures CreatePt(t).1 == CreatePt(s).1 && Agree(CreatePt(s).0, CreatePt(t).0)
  {
    hide PageAllocator.GetFreePage;
    AllocateFresh(s);
  }

  // ---- copying and mapping ----

  lemma AgreeCopyPage(s: State, t: State, root: nat, va: nat, flags: Flags, bs: seq<byte>)
    requires Proper(s, root) && Agree(s, t) && va / PGSIZE < VPNS && va % PGSIZE + |bs| <= PGSIZE
    ensures Proper(t, root)
    ensures CopyPage(t, root, va, flags, bs).1 == CopyPage(s, root, va, flags, bs).1
    ensures Agree(CopyPage(s, root, va, flags, bs).0, CopyPage(t, root, va, flags, bs).0)
  {
    hide Inv, Agree, MapPage, Write, ViewOf, Grows;
    AgreeMapPage(s, t, root, PgAlignFloor(va), flags);
    var (s1, f) := MapPage(s, root, PgAlignFloor(va), flags);
    if f != 0 {
      MappedFrame(s, root, PgAlignFloor(va), flags);
      MappedFrame(t, root, PgAlignFloor(va), flags);
      AgreeWrite(s1, MapPage(t, root, PgAlignFloor(va), flags).0, f, va % PGSIZE, bs);
    }
  }

  lemma {:induction false} AgreeMapAndCopy(s: State, t: State, root: nat, va: nat, flags: Flags, src: seq<byte>)
    requires Proper(s, root) && Agree(s, t) && va + |src| <= VA_LIMIT
    ensures Proper(t, root)
    ensures MapAndCopy(t, root, va, flags, src).1 == MapAndCopy(s, root, va, flags, src).1
    ensures Agree(MapAndCopy(s, root, va, flags, src).0, MapAndCopy(t, root, va, flags, src).0)
    decreases |src|
  {
    hide Inv, Agree, CopyPage, ViewOf, Grows, CopyOf, AnyFree;
    AgreeInv(s, t, root);
    if src != [] {
      var n := Chunk(va, |src|);
      ChunkInReach(va, |src|);
      AgreeCopyPage(s, t, root, va, flags, src[..n]);
      CopyPageSpec(s, root, va, flags, src[..n]);
      CopyPageSpec(t, root, va, flags, src[..n]);
      var (s1, ok) := CopyPage(s, root, va, flags, src[..n]);
      if ok {
        AgreeMapAndCopy(s1, CopyPage(t, root, va, flags, src[..n]).0, root, va + n, flags, src[n..]);
      }
    }
  }

  lemma {:induction false} AgreeMapRange(s: State, t: State, root: nat, lo: nat, hi: nat, flags: Flags)
    requires Proper(s, root) && Agree(s, t) && hi <= VPNS
    ensures Proper(t, root)
    ensures MapRange(t, root, lo, hi, flags).1 == MapRange(s, root, lo, hi, flags).1
    ensures Agree(MapRange(s, root, lo, hi, flags).0, MapRange(t, root, lo, hi, flags).0)
    decreases hi - lo
  {
    hide Inv, Agree, MapPage, ViewOf, Grows, Node, Mapped;
    AgreeInv(s, t, root);
    if lo < hi {
      AgreeMapPage(s, t, root, PGSIZE * lo, flags);
      var (s1, f) := MapPage(s, root, PGSIZE * lo, flags);
      if f != 0 {
        MappedFrame(s, root, PGSIZE * lo, flags);
        MappedFrame(t, root, PGSIZE * lo, flags);
        AgreeMapRange(s1, MapPage(t, root, PGSIZE * lo, flags).0, root, lo + 1, hi, flags);
      }
    }
  }

  // ---- load_elf ----

  lemma AgreeSegment(s: State, t: State, root: nat, elf: seq<byte>, ph: Phdr)
    requires Proper(s, root) && Agree(s, t) && GoodSegment(ph, |elf|)
    ensures Proper(t, root)
    ensures LoadSegment(t, root, elf, ph).1 == LoadSegment(s, root, elf, ph).1
    ensures Agree(LoadSegment(s, root, elf, ph).0, LoadSegment(t, root, elf, ph).0)
  {
    hide Inv, Agree, MapAndCopy, MapRange, ViewOf, Grows, CopyOf, AnyFree, FileBytes;
    FileBytesLength(elf, ph);
    AgreeMapAndCopy(s, t, root, ph.vaddr, SegmentFlags(ph), FileBytes(elf, ph));
    MapAndCopySpec(s, root, ph.vaddr, SegmentFlags(ph), FileBytes(elf, ph));
    MapAndCopySpec(t, root, ph.vaddr, SegmentFlags(ph), FileBytes(elf, ph));
    var (s1, done) := MapAndCopy(s, root, ph.vaddr, SegmentFlags(ph), FileBytes(elf, ph));
    if done == ph.filesz && ph.filesz != ph.memsz {
      EndsAligned(ph);
      AgreeMapRange(s1, MapAndCopy(t, root, ph.vaddr, SegmentFlags(ph), FileBytes(elf, ph)).0, root,
                    (ph.vaddr + ph.filesz) / PGSIZE, PgAlign(ph.vaddr + ph.memsz) / PGSIZE, SegmentFlags(ph));
    }
  }

  lemma {:induction false} AgreeSegments(s: State, t: State, root: nat, elf: seq<byte>, phs: seq<Phdr>)
    requires Proper(s, root) && Agree(s, t) && AllBounded(phs) && |elf| < TWO_64
    ensures Proper(t, root)
    ensures LoadSegments(t, root, elf, phs).1 == LoadSegments(s, root, elf, phs).1
    ensures Agree(LoadSegments(s, root, elf, phs).0, LoadSegments(t, root, elf, phs).0)
    decreases |phs|
  {
    hide Inv, Agree, ViewOf, Grows, AnyFree, LoadSegment, SegmentCheck, GoodSegment, Bounded, SegmentLoaded;
    AgreeInv(s, t, root);
    if phs != [] {
      var ph := phs[0];
      if ph.ptype != PT_LOAD {
        AgreeSegments(s, t, root, elf, phs[1..]);
      } else if SegmentCheck(ph, |elf|) == 0 {
        SegmentCheckSpec(ph, |elf|);
        AgreeSegment(s, t, root, elf, ph);
        LoadSegmentSpec(s, root, elf, ph);
        LoadSegmentSpec(t, root, elf, ph);
        var (s1, ret) := LoadSegment(s, root, elf, ph);
        if ret == 0 {
          AgreeSegments(s1, LoadSegment(t, root, elf, ph).0, root, elf, phs[1..]);
        }
      }
    }
  }

  lemma AgreeLoadElf(s: State, t: State, root: nat, elf: seq<byte>)
    requires Proper(s, root) && Agree(s, t) && |elf| < TWO_64
    ensures Proper(t, root)
    ensures LoadElf(t, root, elf).1 == LoadElf(s, root, elf).1
    ensures Agree(LoadElf(s, root, elf).0, LoadElf(t, root, elf).0)
  {
    hide Inv, Agree, ViewOf, LoadSegments, HeaderCheck, Phdrs;
    AgreeInv(s, t, root);
    if HeaderCheck(elf) == 0 {
      HeadersBounded(elf);
      AgreeSegments(s, t, root, elf, Phdrs(elf));
    }
  }
}
