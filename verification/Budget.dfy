/** How many frames the operations of vm.c and the loader take, and that they succeed when there are
    as many. */
module Budget {
  import opened Bytes
  import opened Sv39
  import opened PageTable
  import opened AddressSpace
  import opened CopyIn
  import opened ElfImage
  import opened ElfLoad
  import PageAllocator

  /** s' has taken at most k frames more. */
  ghost predicate Takes(s: State, s': State, k: nat) {
    s'.mm.size == s.mm.size && s'.mm.used <= s.mm.used + k
  }

  ghost predicate Room(s: State, k: nat) {
    s.mm.used + k <= s.mm.size
  }

  lemma TakesMore(s: State, s1: State, s2: State, j: nat, k: nat)
    requires Takes(s, s1, j) && Takes(s1, s2, k)
    ensures Takes(s, s2, j + k)
  {}

  lemma RoomLeft(s: State, s1: State, j: nat, k: nat)
    requires Room(s, j + k) && Takes(s, s1, j)
    ensures Room(s, j) && Room(s1, k)
  {}

  // ---- one frame ----

  lemma {:induction false} ScanTakes(m: PageAllocator.Bitmap, index: nat, rounds: nat)
    requires |m.bits| % 64 == 0 && 64 * index < |m.bits|
    ensures var r := PageAllocator.Scan(m, index, rounds).0; r.size == m.size && r.used <= m.used + 1
    decreases rounds
  {
    if rounds > 0 {
      PageAllocator.ScanRound(m, index, rounds);
      ScanTakes(m, PageAllocator.NextWord(m, index), rounds - 1);
    }
  }

  lemma PageTakes(m: PageAllocator.Bitmap)
    requires PageAllocator.Valid(m)
    ensures var (r, p) := PageAllocator.GetFreePage(m);
            && r.size == m.size && r.used <= m.used + 1
            && (p == 0 ==> r == m && m.used == m.size)
  {
    hide PageAllocator.Scan;
    PageAllocator.GetFreePageSpec(m);
    ScanTakes(m, m.next, |m.bits| / 64);
    if PageAllocator.GetFreePage(m).1 == 0 {
      PageAllocator.FullIffAllTaken(m);
      forall q: nat | q < m.size
        ensures m.bits[q]
      {
        assert !PageAllocator.FreePage(m, q);
      }
    }
  }

  lemma LevelTakes(s: State, level: nat, f: nat, i: nat)
    requires PageAllocator.Valid(s.mm) && |s.mem| == s.mm.size && f < |s.mem| && i < ENTRIES
    ensures Takes(s, GetPtLevel(s, level, f, i).0, 1)
  {
    hide PageAllocator.GetFreePage, PageAllocator.Valid, Link, MakePte, Entry;
    PageTakes(s.mm);
  }

  lemma LeafTakes(s: State, t: nat, i: nat, flags: Flags)
    requires PageAllocator.Valid(s.mm) && |s.mem| == s.mm.size && t < |s.mem| && i < ENTRIES
    ensures Takes(s, MapLeaf(s, t, i, flags).0, 1)
  {
    hide PageAllocator.GetFreePage, PageAllocator.Valid, Link, MakePte, Entry;
    PageTakes(s.mm);
  }

  // ---- one page ----

  lemma PteTakes(s: State, root: nat, va: nat)
    requires root != 0 && Inv(s, root)
    ensures Takes(s, GetPte(s, root, va).0, 2)
  {
    hide Inv, Grows, ViewOf, GetPtLevel, Node, AnyFree, PageAllocator.Valid;
    InvMemory(s, root);
    RootInMemory(s, root);
    LevelTakes(s, 2, root, PtIdx(2, va));
    GetPtLevelSpec(s, root, 2, 0, 0, root, PtIdx(2, va));
    var (s1, t1) := GetPtLevel(s, 2, root, PtIdx(2, va));
    if t1 != 0 {
      InvMemory(s1, root);
      LevelTakes(s1, 1, t1, PtIdx(1, va));
    }
  }

  lemma FullWhenNoneFree(s: State, root: nat)
    requires Inv(s, root) && !AnyFree(s)
    ensures s.mm.used == s.mm.size
  {
    hide Inv;
    InvMemory(s, root);
    PageAllocator.FullIffAllTaken(s.mm);
    forall q: nat | q < s.mm.size
      ensures s.mm.bits[q]
    {
      assert !PageAllocator.FreePage(s.mm, q);
    }
  }

  /** map_page takes at most three frames, two of them for tables, and only fails without them. */
  lemma MapPageTakes(s: State, root: nat, va: nat, flags: Flags)
    requires root != 0 && Inv(s, root)
    ensures var (s', f) := MapPage(s, root, va, flags);
            Takes(s, s', 3) && (Room(s, 3) ==> f != 0)
  {
    hide Inv, Grows, ViewOf, GetPte, MapLeaf, Node, AnyFree, PageAllocator.Valid;
    PteTakes(s, root, va);
    GetPteSpec(s, root, va);
    MapPageSpec(s, root, va, flags);
    var (s1, t) := GetPte(s, root, va);
    var (s', f) := MapPage(s, root, va, flags);
    if t != 0 {
      InvMemory(s1, root);
      LeafTakes(s1, t, PtIdx(0, va), flags);
      if f == 0 {
        LeafFails(s1, t, PtIdx(0, va), flags, root);
      }
    }
    if f == 0 {
      FullWhenNoneFree(s', root);
    }
  }

  lemma LeafFails(s: State, t: nat, i: nat, flags: Flags, root: nat)
    requires Inv(s, root) && t < |s.mem| && i < ENTRIES
    requires PageAllocator.Valid(s.mm) && |s.mem| == s.mm.size && MapLeaf(s, t, i, flags).1 == 0
    ensures MapLeaf(s, t, i, flags).0.mm == s.mm
  {
    hide Inv, Link, MakePte, Entry, PageAllocator.GetFreePage;
    PageTakes(s.mm);
  }

  lemma CopyPageTakes(s: State, root: nat, va: nat, flags: Flags, bs: seq<byte>)
    requires root != 0 && Inv(s, root) && va / PGSIZE < VPNS && va % PGSIZE + |bs| <= PGSIZE
    ensures var (s', ok) := CopyPage(s, root, va, flags, bs);
            Takes(s, s', 3) && (Room(s, 3) ==> ok)
  {
    hide Inv, Grows, ViewOf, MapPage, Node, Overlay;
    MapPageTakes(s, root, PgAlignFloor(va), flags);
  }

  // ---- ranges ----

  /** The pages that a range of len bytes at va meets. */
  function Span(va: nat, len: nat): nat {
    if len == 0 then 0 else (va % PGSIZE + len + PGSIZE - 1) / PGSIZE
  }

  lemma SpanStep(va: nat, len: nat)
    requires 0 < len
    ensures Span(va, len) == 1 + Span(va + Chunk(va, len), len - Chunk(va, len))
  {}

  lemma {:induction false} MapAndCopyTakes(s: State, root: nat, va: nat, flags: Flags, src: seq<byte>)
    requires root != 0 && Inv(s, root) && va + |src| <= VA_LIMIT && Room(s, 3 * Span(va, |src|))
    ensures var (s', done) := MapAndCopy(s, root, va, flags, src);
            done == |src| && Takes(s, s', 3 * Span(va, |src|))
    decreases |src|
  {
    hide Inv, Grows, CopyOf, AnyFree, ViewOf, CopyPage, Span;
    if src != [] {
      var n := Chunk(va, |src|);
      ChunkInReach(va, |src|);
      SpanStep(va, |src|);
      CopyPageSpec(s, root, va, flags, src[..n]);
      CopyPageTakes(s, root, va, flags, src[..n]);
      var s1 := CopyPage(s, root, va, flags, src[..n]).0;
      RoomLeft(s, s1, 3, 3 * Span(va + n, |src| - n));
      MapAndCopyTakes(s1, root, va + n, flags, src[n..]);
      TakesMore(s, s1, MapAndCopy(s1, root, va + n, flags, src[n..]).0, 3, 3 * Span(va + n, |src| - n));
    }
  }

  function Pages(lo: nat, hi: nat): nat {
    if lo < hi then hi - lo else 0
  }

  lemma {:induction false} MapRangeTakes(s: State, root: nat, lo: nat, hi: nat, flags: Flags)
    requires root != 0 && Inv(s, root) && hi <= VPNS && Room(s, 3 * Pages(lo, hi))
    ensures var (s', ok) := MapRange(s, root, lo, hi, flags);
            ok && Takes(s, s', 3 * Pages(lo, hi))
    decreases hi - lo
  {
    hide Inv, Grows, AnyFree, ViewOf, MapPage, Node, Mapped;
    if lo < hi {
      MapPageTakes(s, root, PGSIZE * lo, flags);
      MappedFrame(s, root, PGSIZE * lo, flags);
      var s1 := MapPage(s, root, PGSIZE * lo, flags).0;
      RoomLeft(s, s1, 3, 3 * Pages(lo + 1, hi));
      MapRangeTakes(s1, root, lo + 1, hi, flags);
    }
  }

  // ---- the loader ----

  /** The pages of a segment: its file bytes, and from the last file page to the end if there is more. */
  function SegmentPages(ph: Phdr): nat {
    Span(ph.vaddr, ph.filesz)
    + if ph.filesz == ph.memsz then 0
      else Pages((ph.vaddr + ph.filesz) / PGSIZE, PgAlign(ph.vaddr + ph.memsz) / PGSIZE)
  }

  function ImagePages(phs: seq<Phdr>): nat {
    if phs == [] then 0
    else (if phs[0].ptype == PT_LOAD then SegmentPages(phs[0]) else 0) + ImagePages(phs[1..])
  }

  lemma SegmentTakes(s: State, root: nat, elf: seq<byte>, ph: Phdr)
    requires root != 0 && Inv(s, root) && GoodSegment(ph, |elf|) && Room(s, 3 * SegmentPages(ph))
    ensures var (s', ret) := LoadSegment(s, root, elf, ph);
            ret == 0 && Takes(s, s', 3 * SegmentPages(ph))
  {
    hide Inv, Grows, CopyOf, AnyFree, ViewOf, RangeMapped, MapRange, MapAndCopy, FileBytes, Span, Pages;
    FileBytesLength(elf, ph);
    var bytes, flags := FileBytes(elf, ph), SegmentFlags(ph);
    var n := Span(ph.vaddr, ph.filesz);
    MapAndCopySpec(s, root, ph.vaddr, flags, bytes);
    MapAndCopyTakes(s, root, ph.vaddr, flags, bytes);
    if ph.filesz != ph.memsz {
      EndsAligned(ph);
      var lo, hi := (ph.vaddr + ph.filesz) / PGSIZE, PgAlign(ph.vaddr + ph.memsz) / PGSIZE;
      var s1 := MapAndCopy(s, root, ph.vaddr, flags, bytes).0;
      RoomLeft(s, s1, 3 * n, 3 * Pages(lo, hi));
      MapRangeTakes(s1, root, lo, hi, flags);
      TakesMore(s, s1, MapRange(s1, root, lo, hi, flags).0, 3 * n, 3 * Pages(lo, hi));
    }
  }

  lemma {:induction false} SegmentsTake(s: State, root: nat, elf: seq<byte>, phs: seq<Phdr>)
    requires root != 0 && Inv(s, root) && AllBounded(phs) && |elf| < TWO_64
    requires SegmentsCheck(phs, |elf|) == 0 && Room(s, 3 * ImagePages(phs))
    ensures var (s', ret) := LoadSegments(s, root, elf, phs);
            ret == 0 && Takes(s, s', 3 * ImagePages(phs))
    decreases |phs|
  {
    hide Inv, Grows, AnyFree, ViewOf, LoadSegment, SegmentCheck, GoodSegment, Bounded, SegmentLoaded, SegmentPages;
    if phs != [] {
      var ph := phs[0];
      if ph.ptype != PT_LOAD {
        SegmentsTake(s, root, elf, phs[1..]);
      } else {
        SegmentCheckSpec(ph, |elf|);
        LoadSegmentSpec(s, root, elf, ph);
        var s1 := LoadSegment(s, root, elf, ph).0;
        RoomLeftFirst(s, phs);
        SegmentTakes(s, root, elf, ph);
        RoomLeft(s, s1, 3 * SegmentPages(ph), 3 * ImagePages(phs[1..]));
        SegmentsTake(s1, root, elf, phs[1..]);
        TakesMore(s, s1, LoadSegments(s1, root, elf, phs[1..]).0, 3 * SegmentPages(ph), 3 * ImagePages(phs[1..]));
      }
    }
  }

  lemma RoomLeftFirst(s: State, phs: seq<Phdr>)
    requires phs != [] && phs[0].ptype == PT_LOAD && Room(s, 3 * ImagePages(phs))
    ensures Room(s, 3 * SegmentPages(phs[0]))
  {
    hide SegmentPages;
  }

  /** load_elf succeeds on a file that passes its checks when three frames are free for each page of
      the image. */
  lemma LoadElfTakes(s: State, root: nat, elf: seq<byte>)
    requires root != 0 && Inv(s, root) && |elf| < TWO_64 && HeaderCheck(elf) == 0
    requires SegmentsCheck(Phdrs(elf), |elf|) == 0 && Room(s, 3 * ImagePages(Phdrs(elf)))
    ensures var (s', ret) := LoadElf(s, root, elf);
            ret == 0 && Takes(s, s', 3 * ImagePages(Phdrs(elf)))
  {
    hide Inv, LoadSegments, HeaderCheck, Phdrs, SegmentsCheck, ImagePages;
    HeadersBounded(elf);
    SegmentsTake(s, root, elf, Phdrs(elf));
  }
}
