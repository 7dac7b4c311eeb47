/** What an ELF file asks for: elf.c's checks, and the memory image its PT_LOAD headers describe. */
module ElfImage {
  import opened Bytes
  import opened Sv39
  import opened AddressSpace
  import opened CopyIn
  import opened Errors

  const EHDR_SIZE: nat := 64
  const PHDR_SIZE: nat := 56
  const ET_EXEC: nat := 2
  const PT_LOAD: nat := 1

  /** The n-byte field at offset off. */
  function Field(elf: seq<byte>, off: nat, n: nat): nat
    requires off + n <= |elf|
  {
    FromLe(elf[off..off + n])
  }

  // Elf64_Ehdr fields
  function EntryPoint(elf: seq<byte>): nat requires EHDR_SIZE <= |elf| { Field(elf, 24, 8) }
  function PhOff(elf: seq<byte>): nat requires EHDR_SIZE <= |elf| { Field(elf, 32, 8) }
  function PhEntSize(elf: seq<byte>): nat requires EHDR_SIZE <= |elf| { Field(elf, 54, 2) }
  function PhNum(elf: seq<byte>): nat requires EHDR_SIZE <= |elf| { Field(elf, 56, 2) }

  /** The Elf64_Phdr fields the loader reads. */
  datatype Phdr = Phdr(ptype: nat, flags: nat, offset: nat, vaddr: nat, filesz: nat, memsz: nat)

  function PhdrAt(elf: seq<byte>, at: nat): Phdr
    requires at + PHDR_SIZE <= |elf|
  {
    Phdr(Field(elf, at, 4), Field(elf, at + 4, 4), Field(elf, at + 8, 8),
         Field(elf, at + 16, 8), Field(elf, at + 32, 8), Field(elf, at + 40, 8))
  }

  /** uint64_t addition */
  function Add64(a: nat, b: nat): nat {
    (a + b) % TWO_64
  }

  /** a <= a + b && a + b <= limit, in uint64_t arithmetic: b bytes from a fit below limit. */
  predicate Fits(a: nat, b: nat, limit: nat) {
    a <= Add64(a, b) && Add64(a, b) <= limit
  }

  lemma FitsSpec(a: nat, b: nat, limit: nat)
    requires a < TWO_64 && b < TWO_64 && limit < TWO_64
    ensures Fits(a, b, limit) <==> a + b <= limit
  {}

  const ELFMAG: seq<byte> := [0x7f, 0x45, 0x4c, 0x46]

  /** The header checks of load_elf, in order. */
  function HeaderCheck(elf: seq<byte>): int {
    if |elf| < EHDR_SIZE then -EOOB
    else if elf[..4] != ELFMAG then -EBADPKT
    else if Field(elf, 16, 2) != ET_EXEC then -EBADPKT
    else if PhNum(elf) == 0 then -EBADPKT
    else if PhEntSize(elf) != PHDR_SIZE then -ENOIMPL
    else if !Fits(PhOff(elf), PhNum(elf) * PHDR_SIZE, |elf|) then -EOOB
    else 0
  }

  lemma FieldBound(elf: seq<byte>, off: nat, n: nat)
    requires off + n <= |elf| && n <= 8
    ensures Field(elf, off, n) < TWO_64
  {
    FromLeBound(elf[off..off + n]);
    Pow256Of8();
    Pow256Grows(n);
  }

  lemma {:induction false} Pow256Grows(n: nat)
    requires n <= 8
    ensures Pow256(n) <= Pow256(8)
    decreases 8 - n
  {
    if n < 8 {
      Pow256Grows(n + 1);
    }
  }

  lemma PhNumBound(elf: seq<byte>)
    requires EHDR_SIZE <= |elf|
    ensures PhNum(elf) < 0x1_0000
  {
    FromLeBound(elf[56..58]);
    assert Pow256(2) == 256 * Pow256(1) && Pow256(1) == 256 * Pow256(0);
  }

  /** The whole program header table lies inside a file that passes the checks. */
  lemma HeaderCheckSpec(elf: seq<byte>)
    requires HeaderCheck(elf) == 0 && |elf| < TWO_64
    ensures 0 < PhNum(elf) < 0x1_0000 && PhOff(elf) + PHDR_SIZE * PhNum(elf) <= |elf|
  {
    PhNumBound(elf);
    FieldBound(elf, 32, 8);
    FitsSpec(PhOff(elf), PhNum(elf) * PHDR_SIZE, |elf|);
  }

  /** The program headers of an accepted file. */
  function Phdrs(elf: seq<byte>): (s: seq<Phdr>)
    requires HeaderCheck(elf) == 0 && |elf| < TWO_64
    ensures |s| == PhNum(elf)
  {
    HeaderCheckSpec(elf);
    seq(PhNum(elf), i requires 0 <= i < PhNum(elf) => PhdrAt(elf, PhOff(elf) + PHDR_SIZE * i))
  }

  /** The checks load_elf makes on one PT_LOAD header, in order. */
  function SegmentCheck(ph: Phdr, len: nat): int {
    if ph.filesz != 0 && !Fits(ph.offset, ph.filesz, len) then -EOOB
    else if !(USER_BOTTOM <= ph.vaddr && Fits(ph.vaddr, ph.memsz, USER_TOP)) then -EOOB
    else if ph.filesz > ph.memsz then -EBADPKT
    else 0
  }

  /** A header the loader can act on: its bytes are in the file, its range in user space. */
  predicate GoodSegment(ph: Phdr, len: nat) {
    && (ph.filesz != 0 ==> ph.offset + ph.filesz <= len)
    && USER_BOTTOM <= ph.vaddr && ph.vaddr + ph.memsz <= USER_TOP
    && ph.filesz <= ph.memsz
  }

  predicate AllGood(phs: seq<Phdr>, len: nat) {
    forall i :: 0 <= i < |phs| && phs[i].ptype == PT_LOAD ==> GoodSegment(phs[i], len)
  }

  /** The first error among the segments, 0 if there is none. */
  function SegmentsCheck(phs: seq<Phdr>, len: nat): int {
    if phs == [] then 0
    else if phs[0].ptype == PT_LOAD && SegmentCheck(phs[0], len) != 0 then SegmentCheck(phs[0], len)
    else SegmentsCheck(phs[1..], len)
  }

  predicate Bounded(ph: Phdr) {
    ph.offset < TWO_64 && ph.vaddr < TWO_64 && ph.filesz < TWO_64 && ph.memsz < TWO_64
  }

  /** The wrap-around tests of the source accept exactly the headers that are in range. */
  lemma SegmentCheckSpec(ph: Phdr, len: nat)
    requires Bounded(ph) && len < TWO_64
    ensures SegmentCheck(ph, len) == 0 <==> GoodSegment(ph, len)
  {
    FitsSpec(ph.offset, ph.filesz, len);
    FitsSpec(ph.vaddr, ph.memsz, USER_TOP);
  }

  lemma PhdrsBounded(elf: seq<byte>, i: nat)
    requires HeaderCheck(elf) == 0 && |elf| < TWO_64 && i < PhNum(elf)
    ensures Bounded(Phdrs(elf)[i])
  {
    HeaderCheckSpec(elf);
    var at := PhOff(elf) + PHDR_SIZE * i;
    FieldBound(elf, at + 8, 8);
    FieldBound(elf, at + 16, 8);
    FieldBound(elf, at + 32, 8);
    FieldBound(elf, at + 40, 8);
  }

  /** VM flags of a segment: readable, writable (then dirty from the start) and executable as
      the header says, always user and accessed. */
  function SegmentFlags(ph: Phdr): Flags {
    var w := Digit(ph.flags, 1);
    Flags(Digit(ph.flags, 2), w, Digit(ph.flags, 0), true, true, w)
  }

  // ---- the image ----

  /** The bytes a segment takes from the file. */
  function FileBytes(elf: seq<byte>, ph: Phdr): seq<byte> {
    if ph.offset + ph.filesz <= |elf| then elf[ph.offset..ph.offset + ph.filesz] else []
  }

  predicate Covers(ph: Phdr, va: nat) {
    ph.ptype == PT_LOAD && ph.vaddr <= va < ph.vaddr + ph.filesz
  }

  predicate Maps(ph: Phdr, vpn: nat) {
    ph.ptype == PT_LOAD && Touches(ph.vaddr, ph.memsz, vpn)
  }

  /** The byte the headers put at va: that of the last one whose file range covers it. */
  function ImageByte(elf: seq<byte>, phs: seq<Phdr>, va: nat, otherwise: byte): byte {
    if phs == [] then otherwise
    else
      var ph := phs[|phs| - 1];
      if Covers(ph, va) && ph.offset + ph.filesz <= |elf| then elf[ph.offset + va - ph.vaddr]
      else ImageByte(elf, phs[..|phs| - 1], va, otherwise)
  }

  predicate ImageMaps(phs: seq<Phdr>, vpn: nat) {
    exists i :: 0 <= i < |phs| && Maps(phs[i], vpn)
  }

  /** The flags of a page: those of the first header that maps it. */
  function ImageFlags(phs: seq<Phdr>, vpn: nat): Flags {
    if phs == [] then NO_FLAGS
    else if ImageMaps(phs[..|phs| - 1], vpn) then ImageFlags(phs[..|phs| - 1], vpn)
    else SegmentFlags(phs[|phs| - 1])
  }

  /** v' is v with the segments phs loaded on top. */
  ghost predicate Loaded(v: View, v': View, elf: seq<byte>, phs: seq<Phdr>) {
    && (forall vpn: nat :: vpn in v' <==> vpn in v || ImageMaps(phs, vpn))
    && (forall vpn: nat :: vpn in v' ==> v'[vpn].flags == if vpn in v then v[vpn].flags else ImageFlags(phs, vpn))
    && (forall vpn: nat, o: nat :: o < PGSIZE && vpn in v' ==>
          ByteAt(v', vpn, o) == ImageByte(elf, phs, PGSIZE * vpn + o, ByteAt(v, vpn, o)))
  }

  /** One segment: its file bytes copied, the rest of its pages mapped. */
  ghost predicate SegmentLoaded(v: View, v': View, elf: seq<byte>, ph: Phdr) {
    && (forall vpn: nat :: vpn in v' <==> vpn in v || Touches(ph.vaddr, ph.memsz, vpn))
    && (forall vpn: nat :: vpn in v' ==> v'[vpn].flags == if vpn in v then v[vpn].flags else SegmentFlags(ph))
    && (forall vpn: nat, o: nat :: o < PGSIZE && vpn in v' ==>
          ByteAt(v', vpn, o) == if ph.vaddr <= PGSIZE * vpn + o < ph.vaddr + |FileBytes(elf, ph)|
                                then FileBytes(elf, ph)[PGSIZE * vpn + o - ph.vaddr] else ByteAt(v, vpn, o))
  }

  lemma FileBytesLength(elf: seq<byte>, ph: Phdr)
    requires GoodSegment(ph, |elf|)
    ensures |FileBytes(elf, ph)| == ph.filesz
  {}

  lemma BssPages(ph: Phdr, vpn: nat)
    requires ph.filesz < ph.memsz
    ensures Touches(ph.vaddr, ph.memsz, vpn) <==>
            Touches(ph.vaddr, ph.filesz, vpn)
            || (ph.vaddr + ph.filesz) / PGSIZE <= vpn < PgAlign(ph.vaddr + ph.memsz) / PGSIZE
  {}

  /** Copying the file bytes and mapping the pages of .bss loads a segment. */
  lemma CopyThenBss(v: View, v1: View, v2: View, elf: seq<byte>, ph: Phdr)
    requires GoodSegment(ph, |elf|) && CopyOf(v, v1, ph.vaddr, SegmentFlags(ph), FileBytes(elf, ph))
    requires if ph.filesz < ph.memsz
             then RangeMapped(v1, v2, (ph.vaddr + ph.filesz) / PGSIZE, PgAlign(ph.vaddr + ph.memsz) / PGSIZE,
               SegmentFlags(ph))
             else v2 == v1
    ensures SegmentLoaded(v, v2, elf, ph)
  {
    FileBytesLength(elf, ph);
    if ph.filesz < ph.memsz {
      forall vpn: nat
        ensures vpn in v2 <==> vpn in v || Touches(ph.vaddr, ph.memsz, vpn)
      {
        BssPages(ph, vpn);
      }
      BssKeepsBytes(v, v1, v2, elf, ph);
    }
  }

  lemma BssKeepsBytes(v: View, v1: View, v2: View, elf: seq<byte>, ph: Phdr)
    requires GoodSegment(ph, |elf|) && CopyOf(v, v1, ph.vaddr, SegmentFlags(ph), FileBytes(elf, ph))
    requires RangeMapped(v1, v2, (ph.vaddr + ph.filesz) / PGSIZE, PgAlign(ph.vaddr + ph.memsz) / PGSIZE,
             SegmentFlags(ph))
    ensures forall vpn: nat, o: nat :: o < PGSIZE && vpn in v2 ==>
          ByteAt(v2, vpn, o) == if ph.vaddr <= PGSIZE * vpn + o < ph.vaddr + |FileBytes(elf, ph)|
                                then FileBytes(elf, ph)[PGSIZE * vpn + o - ph.vaddr] else ByteAt(v, vpn, o)
  {
    forall vpn: nat, o: nat | o < PGSIZE && vpn in v2
      ensures ByteAt(v2, vpn, o) == if ph.vaddr <= PGSIZE * vpn + o < ph.vaddr + |FileBytes(elf, ph)|
                                    then FileBytes(elf, ph)[PGSIZE * vpn + o - ph.vaddr] else ByteAt(v, vpn, o)
    {
      if vpn !in v1 {
        assert !Touches(ph.vaddr, |FileBytes(elf, ph)|, vpn) && vpn !in v;
        OutsidePage(ph.vaddr, |FileBytes(elf, ph)|, vpn, o);
      }
    }
  }

  lemma OutsidePage(va: nat, len: nat, vpn: nat, o: nat)
    requires !Touches(va, len, vpn) && o < PGSIZE
    ensures !(va <= PGSIZE * vpn + o < va + len)
  {}

  lemma ImageMapsMore(phs: seq<Phdr>, ph: Phdr, vpn: nat)
    ensures ImageMaps(phs + [ph], vpn) <==> ImageMaps(phs, vpn) || Maps(ph, vpn)
  {
    if ImageMaps(phs, vpn) {
      var i :| 0 <= i < |phs| && Maps(phs[i], vpn);
      assert Maps((phs + [ph])[i], vpn);
    }
    if Maps(ph, vpn) {
      assert Maps((phs + [ph])[|phs|], vpn);
    }
  }

  lemma LoadedNothing(v: View, elf: seq<byte>)
    ensures Loaded(v, v, elf, [])
  {}

  /** Loading the headers one after the other, a PT_LOAD one ... */
  lemma LoadedNext(v: View, v1: View, v2: View, elf: seq<byte>, phs: seq<Phdr>, ph: Phdr)
    requires ph.ptype == PT_LOAD && GoodSegment(ph, |elf|) && AllGood(phs, |elf|)
    requires Loaded(v, v1, elf, phs) && SegmentLoaded(v1, v2, elf, ph)
    ensures Loaded(v, v2, elf, phs + [ph])
  {
    assert (phs + [ph])[..|phs|] == phs;
    FileBytesLength(elf, ph);
    forall vpn: nat
      ensures ImageMaps(phs + [ph], vpn) <==> ImageMaps(phs, vpn) || Touches(ph.vaddr, ph.memsz, vpn)
    {
      ImageMapsMore(phs, ph, vpn);
    }
    forall vpn: nat, o: nat | o < PGSIZE && vpn in v2
      ensures ByteAt(v2, vpn, o) == ImageByte(elf, phs + [ph], PGSIZE * vpn + o, ByteAt(v, vpn, o))
    {
      NextByte(v, v1, v2, elf, phs, ph, vpn, o);
    }
  }

  lemma NextByte(v: View, v1: View, v2: View, elf: seq<byte>, phs: seq<Phdr>, ph: Phdr, vpn: nat, o: nat)
    requires ph.ptype == PT_LOAD && GoodSegment(ph, |elf|) && AllGood(phs, |elf|) && o < PGSIZE && vpn in v2
    requires Loaded(v, v1, elf, phs) && SegmentLoaded(v1, v2, elf, ph)
    ensures ByteAt(v2, vpn, o) == ImageByte(elf, phs + [ph], PGSIZE * vpn + o, ByteAt(v, vpn, o))
  {
    hide GoodSegment, AllGood, ImageFlags, Maps;
    var va := PGSIZE * vpn + o;
    assert (phs + [ph])[..|phs|] == phs;
    FileBytesLength(elf, ph);
    if Covers(ph, va) {
      assert FileBytes(elf, ph)[va - ph.vaddr] == elf[ph.offset + va - ph.vaddr];
    } else if vpn !in v1 {
      assert !ImageMaps(phs, vpn) && vpn !in v;
      UnmappedByte(elf, phs, vpn, o, 0);
    }
  }

  /** Where no header maps a page, no header has bytes for it. */
  lemma {:induction false} UnmappedByte(elf: seq<byte>, phs: seq<Phdr>, vpn: nat, o: nat, d: byte)
    requires AllGood(phs, |elf|) && !ImageMaps(phs, vpn) && o < PGSIZE
    ensures ImageByte(elf, phs, PGSIZE * vpn + o, d) == d
  {
    if phs != [] {
      var ph := phs[|phs| - 1];
      assert !Maps(ph, vpn);
      assert phs == phs[..|phs| - 1] + [ph];
      ImageMapsMore(phs[..|phs| - 1], ph, vpn);
      UnmappedByte(elf, phs[..|phs| - 1], vpn, o, d);
      if ph.ptype == PT_LOAD {
        OutsidePage(ph.vaddr, ph.memsz, vpn, o);
      }
    }
  }

  /** ... or any other, which the loader passes over. */
  lemma LoadedSkip(v: View, v1: View, elf: seq<byte>, phs: seq<Phdr>, ph: Phdr)
    requires ph.ptype != PT_LOAD && Loaded(v, v1, elf, phs)
    ensures Loaded(v, v1, elf, phs + [ph])
  {
    assert (phs + [ph])[..|phs|] == phs;
    forall vpn: nat
      ensures ImageMaps(phs + [ph], vpn) <==> ImageMaps(phs, vpn)
    {
      ImageMapsMore(phs, ph, vpn);
    }
  }

  // ---- what the image means for well-separated segments ----

  /** Where at most one segment has file bytes, that segment's byte or the default is seen. */
  lemma {:induction false} SoleSegmentByte(elf: seq<byte>, phs: seq<Phdr>, i: nat, va: nat, d: byte)
    requires i < |phs| && AllGood(phs, |elf|)
    requires forall j :: 0 <= j < |phs| && j != i ==> !Covers(phs[j], va)
    ensures ImageByte(elf, phs, va, d)
            == if Covers(phs[i], va) then elf[phs[i].offset + va - phs[i].vaddr] else d
  {
    var n := |phs| - 1;
    if i == n {
      NoSegmentByte(elf, phs[..n], va, d);
    } else {
      assert !Covers(phs[n], va);
      SoleSegmentByte(elf, phs[..n], i, va, d);
    }
  }

  lemma {:induction false} NoSegmentByte(elf: seq<byte>, phs: seq<Phdr>, va: nat, d: byte)
    requires forall j :: 0 <= j < |phs| ==> !Covers(phs[j], va)
    ensures ImageByte(elf, phs, va, d) == d
  {
    if phs != [] {
      assert !Covers(phs[|phs| - 1], va);
      NoSegmentByte(elf, phs[..|phs| - 1], va, d);
    }
  }

  /** A page that only one segment maps carries that segment's flags. */
  lemma {:induction false} SoleSegmentFlags(phs: seq<Phdr>, i: nat, vpn: nat)
    requires i < |phs| && Maps(phs[i], vpn)
    requires forall j :: 0 <= j < |phs| && j != i ==> !Maps(phs[j], vpn)
    ensures ImageFlags(phs, vpn) == SegmentFlags(phs[i])
  {
    var n := |phs| - 1;
    if i != n {
      assert Maps(phs[..n][i], vpn);
      SoleSegmentFlags(phs[..n], i, vpn);
    }
  }

  /** Ranges of two segments do not meet. */
  predicate Apart(p: Phdr, q: Phdr) {
    p.vaddr + p.memsz <= q.vaddr || q.vaddr + q.memsz <= p.vaddr
  }

  /** On a fresh page table, for segments that do not overlap: each holds its file bytes,
      then zeros. */
  lemma DisjointSegments(v: View, elf: seq<byte>, phs: seq<Phdr>, i: nat, va: nat)
    requires Loaded(map[], v, elf, phs) && AllGood(phs, |elf|)
    requires i < |phs| && phs[i].ptype == PT_LOAD && phs[i].vaddr <= va < phs[i].vaddr + phs[i].memsz
    requires forall j :: 0 <= j < |phs| && j != i && phs[j].ptype == PT_LOAD ==> Apart(phs[i], phs[j])
    ensures va / PGSIZE in v
    ensures ByteAt(v, va / PGSIZE, va % PGSIZE)
            == if va < phs[i].vaddr + phs[i].filesz then elf[phs[i].offset + va - phs[i].vaddr] else 0
  {
    assert va == PGSIZE * (va / PGSIZE) + va % PGSIZE;
    assert Maps(phs[i], va / PGSIZE);
    forall j | 0 <= j < |phs| && j != i
      ensures !Covers(phs[j], va)
    {
      assert phs[j].ptype == PT_LOAD ==> Apart(phs[i], phs[j]);
    }
    SoleSegmentByte(elf, phs, i, va, 0);
  }
}
