/** load_elf of elf.c on values: what it does to memory and page table. */
module ElfLoad {
  import opened Bytes
  import opened Sv39
  import opened AddressSpace
  import opened CopyIn
  import opened ElfImage
  import opened Errors

  /** The body of the PT_LOAD branch once the header is accepted. */
  function LoadSegment(s: State, root: nat, elf: seq<byte>, ph: Phdr): (State, int)
    requires root != 0 ==> Inv(s, root)
    requires GoodSegment(ph, |elf|)
  {
    FileBytesLength(elf, ph);
    var (s1, done) := MapAndCopy(s, root, ph.vaddr, SegmentFlags(ph), FileBytes(elf, ph));
    if done < ph.filesz then (s1, -EOOM)
    else if ph.filesz == ph.memsz then (s1, 0)
    else
      MapAndCopySpec(s, root, ph.vaddr, SegmentFlags(ph), FileBytes(elf, ph));
      EndsAligned(ph);
      var lo, hi := (ph.vaddr + ph.filesz) / PGSIZE, PgAlign(ph.vaddr + ph.memsz) / PGSIZE;
      var (s2, ok) := MapRange(s1, root, lo, hi, SegmentFlags(ph));
      (s2, if ok then 0 else -EOOM)
  }

  lemma EndsAligned(ph: Phdr)
    requires ph.vaddr + ph.memsz <= USER_TOP
    ensures PgAlignFloor(ph.vaddr + ph.filesz) % PGSIZE == 0
    ensures PgAlignFloor(ph.vaddr + ph.filesz) / PGSIZE == (ph.vaddr + ph.filesz) / PGSIZE
    ensures PgAlign(ph.vaddr + ph.memsz) % PGSIZE == 0 && PgAlign(ph.vaddr + ph.memsz) <= VA_LIMIT
    ensures PgAlign(ph.vaddr + ph.memsz) / PGSIZE <= VPNS
  {}

  predicate AllBounded(phs: seq<Phdr>) {
    forall i :: 0 <= i < |phs| ==> Bounded(phs[i])
  }

  /** The loop over the program headers. */
  function LoadSegments(s: State, root: nat, elf: seq<byte>, phs: seq<Phdr>): (State, int)
    requires root != 0 ==> Inv(s, root)
    requires AllBounded(phs) && |elf| < TWO_64
    decreases |phs|
  {
    if phs == [] then (s, 0)
    else if phs[0].ptype != PT_LOAD then LoadSegments(s, root, elf, phs[1..])
    else if SegmentCheck(phs[0], |elf|) != 0 then (s, SegmentCheck(phs[0], |elf|))
    else
      SegmentCheckSpec(phs[0], |elf|);
      var (s1, ret) := LoadSegment(s, root, elf, phs[0]);
      if ret != 0 then (s1, ret)
      else
        LoadSegmentSpec(s, root, elf, phs[0]);
        LoadSegments(s1, root, elf, phs[1..])
  }

  /** load_elf: the state afterwards and the return value. */
  function LoadElf(s: State, root: nat, elf: seq<byte>): (State, int)
    requires root != 0 ==> Inv(s, root)
    requires |elf| < TWO_64
  {
    if HeaderCheck(elf) != 0 then (s, HeaderCheck(elf))
    else
      HeadersBounded(elf);
      LoadSegments(s, root, elf, Phdrs(elf))
  }

  lemma HeadersBounded(elf: seq<byte>)
    requires HeaderCheck(elf) == 0 && |elf| < TWO_64
    ensures AllBounded(Phdrs(elf))
  {
    hide Phdrs, Bounded, HeaderCheck;
    forall i | 0 <= i < |Phdrs(elf)|
      ensures Bounded(Phdrs(elf)[i])
    {
      PhdrsBounded(elf, i);
    }
  }

  /** A step stopped for want of a page; with no page table at all there never was one. */
  ghost predicate Exhausted(s: State, root: nat) {
    root == 0 || !AnyFree(s)
  }

  /** One segment is loaded, or memory is exhausted; the tree is kept. */
  lemma LoadSegmentSpec(s: State, root: nat, elf: seq<byte>, ph: Phdr)
    requires Proper(s, root) && GoodSegment(ph, |elf|)
    ensures var (s', ret) := LoadSegment(s, root, elf, ph);
            && Kept(s, s', root)
            && (ret == 0 && root != 0 ==> SegmentLoaded(ViewOf(s.mem, root), ViewOf(s'.mem, root), elf, ph))
            && (ret != 0 ==> ret == -EOOM && Exhausted(s', root))
  {
    hide Inv, Grows, CopyOf, AnyFree, ViewOf, RangeMapped, SegmentLoaded, MapRange, MapAndCopy, FileBytes;
    FileBytesLength(elf, ph);
    var bytes := FileBytes(elf, ph);
    MapAndCopySpec(s, root, ph.vaddr, SegmentFlags(ph), bytes);
    var (s1, done) := MapAndCopy(s, root, ph.vaddr, SegmentFlags(ph), bytes);
    if done == ph.filesz {
      assert bytes[..done] == bytes;
      if ph.filesz < ph.memsz {
        EndsAligned(ph);
        var lo, hi := (ph.vaddr + ph.filesz) / PGSIZE, PgAlign(ph.vaddr + ph.memsz) / PGSIZE;
        MapRangeSpec(s1, root, lo, hi, SegmentFlags(ph));
        KeptTransitive(s, s1, MapRange(s1, root, lo, hi, SegmentFlags(ph)).0, root);
      }
      var (s', ret) := LoadSegment(s, root, elf, ph);
      if ret == 0 && root != 0 {
        CopyThenBss(ViewOf(s.mem, root), ViewOf(s1.mem, root), ViewOf(s'.mem, root), elf, ph);
      }
    }
  }

  lemma AllGoodMore(phs: seq<Phdr>, ph: Phdr, len: nat)
    requires AllGood(phs, len) && (ph.ptype == PT_LOAD ==> GoodSegment(ph, len))
    ensures AllGood(phs + [ph], len)
  {}

  /** The headers phs are loaded on top of those done already, from view v on. */
  lemma {:induction false} LoadSegmentsSpec(s: State, root: nat, elf: seq<byte>, v: View, done: seq<Phdr>,
                                            phs: seq<Phdr>)
    requires Proper(s, root) && AllBounded(phs) && |elf| < TWO_64
    requires AllGood(done, |elf|) && (root != 0 ==> Loaded(v, ViewOf(s.mem, root), elf, done))
    ensures var (s', ret) := LoadSegments(s, root, elf, phs);
            && Kept(s, s', root)
            && (ret == SegmentsCheck(phs, |elf|) || (ret == -EOOM && Exhausted(s', root)))
            && (ret == 0 ==> AllGood(done + phs, |elf|))
            && (ret == 0 && root != 0 ==> Loaded(v, ViewOf(s'.mem, root), elf, done + phs))
    decreases |phs|
  {
    hide Inv, Grows, AnyFree, ViewOf, Loaded, SegmentLoaded, GoodSegment, AllGood, SegmentCheck, LoadSegment, Bounded;
    if phs == [] {
      KeptReflexive(s, root);
      assert done + phs == done;
    } else {
      var ph := phs[0];
      assert done + [ph] + phs[1..] == done + phs;
      if ph.ptype != PT_LOAD {
        if root != 0 {
          LoadedSkip(v, ViewOf(s.mem, root), elf, done, ph);
        }
        AllGoodMore(done, ph, |elf|);
        LoadSegmentsSpec(s, root, elf, v, done + [ph], phs[1..]);
      } else if SegmentCheck(ph, |elf|) != 0 {
        KeptReflexive(s, root);
        SegmentCheckValues(ph, |elf|);
      } else {
        LoadOne(s, root, elf, v, done, ph);
        var (s1, ret) := LoadSegment(s, root, elf, ph);
        if ret == 0 {
          LoadSegmentsSpec(s1, root, elf, v, done + [ph], phs[1..]);
          KeptTransitive(s, s1, LoadSegments(s1, root, elf, phs[1..]).0, root);
        }
      }
    }
  }

  lemma LoadOne(s: State, root: nat, elf: seq<byte>, v: View, done: seq<Phdr>, ph: Phdr)
    requires Proper(s, root) && Bounded(ph) && |elf| < TWO_64 && ph.ptype == PT_LOAD && SegmentCheck(ph, |elf|) == 0
    requires AllGood(done, |elf|) && (root != 0 ==> Loaded(v, ViewOf(s.mem, root), elf, done))
    ensures GoodSegment(ph, |elf|)
    ensures var (s1, ret) := LoadSegment(s, root, elf, ph);
            && Kept(s, s1, root) && (ret != 0 ==> ret == -EOOM && Exhausted(s1, root))
            && (ret == 0 ==> AllGood(done + [ph], |elf|))
            && (ret == 0 && root != 0 ==> Loaded(v, ViewOf(s1.mem, root), elf, done + [ph]))
  {
    hide Inv, Grows, AnyFree, ViewOf, Loaded, SegmentLoaded, GoodSegment, AllGood, SegmentCheck, LoadSegment, Bounded;
    SegmentCheckSpec(ph, |elf|);
    LoadSegmentSpec(s, root, elf, ph);
    var (s1, ret) := LoadSegment(s, root, elf, ph);
    if ret == 0 {
      AllGoodMore(done, ph, |elf|);
      if root != 0 {
        LoadedNext(v, ViewOf(s.mem, root), ViewOf(s1.mem, root), elf, done, ph);
      }
    }
  }

  lemma SegmentCheckValues(ph: Phdr, len: nat)
    ensures SegmentCheck(ph, len) in {0, -EOOB, -EBADPKT}
  {}

  /** load_elf returns the error of the first check that fails, or -EOOM with no page free, or 0:
      then every check has passed and the image is in place. The tree is kept in every case. */
  lemma LoadElfSpec(s: State, root: nat, elf: seq<byte>)
    requires Proper(s, root) && |elf| < TWO_64
    ensures var (s', ret) := LoadElf(s, root, elf);
            && Kept(s, s', root)
            && (if HeaderCheck(elf) != 0 then ret == HeaderCheck(elf)
                else ret == SegmentsCheck(Phdrs(elf), |elf|) || (ret == -EOOM && Exhausted(s', root)))
            && (ret == 0 ==> HeaderCheck(elf) == 0 && AllGood(Phdrs(elf), |elf|)
                             && (root != 0 ==> Loaded(ViewOf(s.mem, root), ViewOf(s'.mem, root), elf, Phdrs(elf))))
  {
    hide Inv, Grows, AnyFree, ViewOf, Loaded, HeaderCheck, Phdrs, AllBounded, SegmentsCheck, LoadSegments;
    KeptReflexive(s, root);
    if HeaderCheck(elf) == 0 {
      HeadersBounded(elf);
      LoadedNothing(ViewOf(s.mem, root), elf);
      LoadSegmentsSpec(s, root, elf, ViewOf(s.mem, root), [], Phdrs(elf));
      assert [] + Phdrs(elf) == Phdrs(elf);
    }
  }
}
