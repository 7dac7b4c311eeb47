/** load_elf on a file as it is laid out: the structures of include/elf.h field by field, and where
    the bytes of the segments end up. */
module ElfFile {
  import opened Bytes
  import opened Sv39
  import opened AddressSpace
  import opened CopyIn
  import opened ElfImage
  import opened ElfLoad
  import ElfCount

  // ---- Elf64_Ehdr and Elf64_Phdr ----

  datatype Ehdr = Ehdr(ident: seq<byte>, etype: nat, machine: nat, version: nat, entry: nat, phoff: nat, shoff: nat,
                       flags: nat, ehsize: nat, phentsize: nat, phnum: nat, shentsize: nat, shnum: nat, shstrndx: nat)

  datatype Segment = Segment(ptype: nat, flags: nat, offset: nat, vaddr: nat, paddr: nat, filesz: nat, memsz: nat,
                             align: nat)

  predicate EhdrFits(h: Ehdr) {
    && |h.ident| == 16 && h.etype < 0x1_0000 && h.entry < TWO_64 && h.phoff < TWO_64
    && h.phentsize < 0x1_0000 && h.phnum < 0x1_0000
  }

  function EhdrBytes(h: Ehdr): seq<byte> {
    h.ident + ToLe(h.etype, 2) + ToLe(h.machine, 2) + ToLe(h.version, 4) + ToLe(h.entry, 8) + ToLe(h.phoff, 8)
    + ToLe(h.shoff, 8) + ToLe(h.flags, 4) + ToLe(h.ehsize, 2) + ToLe(h.phentsize, 2) + ToLe(h.phnum, 2)
    + ToLe(h.shentsize, 2) + ToLe(h.shnum, 2) + ToLe(h.shstrndx, 2)
  }

  predicate SegmentFits(g: Segment) {
    && g.ptype < TWO_32 && g.flags < TWO_32
    && g.offset < TWO_64 && g.vaddr < TWO_64 && g.filesz < TWO_64 && g.memsz < TWO_64
  }

  function SegmentBytes(g: Segment): seq<byte> {
    ToLe(g.ptype, 4) + ToLe(g.flags, 4) + ToLe(g.offset, 8) + ToLe(g.vaddr, 8) + ToLe(g.paddr, 8)
    + ToLe(g.filesz, 8) + ToLe(g.memsz, 8) + ToLe(g.align, 8)
  }

  /** The file starts with header h. */
  predicate HeaderIs(elf: seq<byte>, h: Ehdr) {
    && EhdrFits(h) && 64 <= |elf| < TWO_64 && elf[..64] == EhdrBytes(h)
  }

  /** At e_phoff follow the program headers gs. */
  predicate TableIs(elf: seq<byte>, h: Ehdr, gs: seq<Segment>) {
    && |gs| == h.phnum && h.phoff + 56 * |gs| <= |elf|
    && forall i :: 0 <= i < |gs| ==> SegmentAt(elf, h.phoff + 56 * i, gs[i])
  }

  predicate SegmentAt(elf: seq<byte>, at: nat, g: Segment) {
    SegmentFits(g) && at + 56 <= |elf| && elf[at..at + 56] == SegmentBytes(g)
  }

  // ---- reading them ----

  lemma EhdrSlices(h: Ehdr)
    requires |h.ident| == 16
    ensures var bs := EhdrBytes(h);
            && |bs| == 64 && bs[..16] == h.ident && bs[16..18] == ToLe(h.etype, 2) && bs[24..32] == ToLe(h.entry, 8)
            && bs[32..40] == ToLe(h.phoff, 8) && bs[54..56] == ToLe(h.phentsize, 2) && bs[56..58] == ToLe(h.phnum, 2)
  {
    hide ToLe;
  }

  lemma SegmentSlices(g: Segment)
    ensures var bs := SegmentBytes(g);
            && |bs| == 56 && bs[0..4] == ToLe(g.ptype, 4) && bs[4..8] == ToLe(g.flags, 4)
            && bs[8..16] == ToLe(g.offset, 8) && bs[16..24] == ToLe(g.vaddr, 8)
            && bs[32..40] == ToLe(g.filesz, 8) && bs[40..48] == ToLe(g.memsz, 8)
  {
    hide ToLe;
  }

  lemma Powers()
    ensures Pow256(2) == 0x1_0000 && Pow256(4) == TWO_32 && Pow256(8) == TWO_64
  {
    Pow256Of8();
    assert Pow256(2) == 256 * Pow256(1) && Pow256(1) == 256 * Pow256(0);
    assert Pow256(4) == 256 * Pow256(3) && Pow256(3) == 256 * Pow256(2);
  }

  /** A number stored at offset o of a part of the file is the field there. */
  lemma FieldIs(elf: seq<byte>, at: nat, bs: seq<byte>, o: nat, n: nat, v: nat)
    requires at + |bs| <= |elf| && elf[at..at + |bs|] == bs
    requires o + n <= |bs| && bs[o..o + n] == ToLe(v, n) && v < Pow256(n)
    ensures Field(elf, at + o, n) == v
  {
    hide ToLe, FromLe, Pow256;
    FromToLe(v, n);
    SliceOfSlice(elf, at, |bs|, o, n);
  }

  lemma ReadHeader(elf: seq<byte>, h: Ehdr)
    requires HeaderIs(elf, h)
    ensures EntryPoint(elf) == h.entry
    ensures PhOff(elf) == h.phoff && PhEntSize(elf) == h.phentsize && PhNum(elf) == h.phnum
    ensures elf[..4] == h.ident[..4] && Field(elf, 16, 2) == h.etype
  {
    hide EhdrBytes, Field, ToLe, Pow256;
    EhdrSlices(h);
    Powers();
    var bs := EhdrBytes(h);
    assert elf[0..64] == elf[..64];
    FieldIs(elf, 0, bs, 16, 2, h.etype);
    FieldIs(elf, 0, bs, 24, 8, h.entry);
    FieldIs(elf, 0, bs, 32, 8, h.phoff);
    FieldIs(elf, 0, bs, 54, 2, h.phentsize);
    FieldIs(elf, 0, bs, 56, 2, h.phnum);
    assert elf[..4] == elf[..64][..16][..4];
  }

  lemma ReadSegment(elf: seq<byte>, at: nat, g: Segment)
    requires SegmentAt(elf, at, g)
    ensures PhdrAt(elf, at) == Phdr(g.ptype, g.flags, g.offset, g.vaddr, g.filesz, g.memsz)
  {
    hide SegmentBytes, Field, ToLe, Pow256;
    SegmentSlices(g);
    Powers();
    var bs := SegmentBytes(g);
    FieldIs(elf, at, bs, 0, 4, g.ptype);
    FieldIs(elf, at, bs, 4, 4, g.flags);
    FieldIs(elf, at, bs, 8, 8, g.offset);
    FieldIs(elf, at, bs, 16, 8, g.vaddr);
    FieldIs(elf, at, bs, 32, 8, g.filesz);
    FieldIs(elf, at, bs, 40, 8, g.memsz);
  }

  function Read(g: Segment): Phdr {
    Phdr(g.ptype, g.flags, g.offset, g.vaddr, g.filesz, g.memsz)
  }

  lemma ReadTable(elf: seq<byte>, h: Ehdr, gs: seq<Segment>)
    requires HeaderIs(elf, h) && TableIs(elf, h, gs) && HeaderCheck(elf) == 0
    ensures |Phdrs(elf)| == |gs| && forall i :: 0 <= i < |gs| ==> Phdrs(elf)[i] == Read(gs[i])
  {
    hide SegmentAt, EhdrBytes, Field, PhdrAt, HeaderCheck;
    ReadHeader(elf, h);
    HeaderCheckSpec(elf);
    forall i | 0 <= i < |gs|
      ensures Phdrs(elf)[i] == Read(gs[i])
    {
      assert SegmentAt(elf, h.phoff + 56 * i, gs[i]);
      ReadSegment(elf, h.phoff + 56 * i, gs[i]);
    }
  }

  // ---- which files are refused ----

  /** What load_elf has against the header of a file of len bytes, 0 if nothing. */
  function HeaderRefusal(len: nat, h: Ehdr): int
    requires |h.ident| == 16
  {
    if h.ident[..4] != [0x7f, 0x45, 0x4c, 0x46] then -4
    else if h.etype != 2 || h.phnum == 0 then -4
    else if h.phentsize != 56 then -1
    else if h.phoff + 56 * h.phnum > len then -2
    else 0
  }

  lemma HeaderIsChecked(elf: seq<byte>, h: Ehdr)
    requires HeaderIs(elf, h)
    ensures HeaderCheck(elf) == HeaderRefusal(|elf|, h)
  {
    hide EhdrBytes, Field;
    ReadHeader(elf, h);
    FitsSpec(PhOff(elf), PhNum(elf) * PHDR_SIZE, |elf|);
  }

  function SegmentRefusal(g: Segment, len: nat): int {
    if g.ptype != 1 then 0
    else if g.filesz > 0 && g.offset + g.filesz > len then -2
    else if g.vaddr < 0x1000 || g.vaddr + g.memsz > 0x40_0000_0000 then -2
    else if g.filesz > g.memsz then -4
    else 0
  }

  lemma SegmentIsChecked(g: Segment, len: nat)
    requires SegmentFits(g) && len < TWO_64
    ensures SegmentRefusal(g, len) == if g.ptype == PT_LOAD then SegmentCheck(Read(g), len) else 0
  {
    FitsSpec(g.offset, g.filesz, len);
    FitsSpec(g.vaddr, g.memsz, USER_TOP);
  }

  /** The refusal of the first header there is something against. */
  function FirstRefusal(gs: seq<Segment>, len: nat): int {
    if gs == [] then 0
    else if SegmentRefusal(gs[0], len) != 0 then SegmentRefusal(gs[0], len)
    else FirstRefusal(gs[1..], len)
  }

  lemma {:induction false} SegmentsAreChecked(phs: seq<Phdr>, gs: seq<Segment>, len: nat)
    requires |phs| == |gs| && len < TWO_64
    requires forall i :: 0 <= i < |gs| ==> phs[i] == Read(gs[i]) && SegmentFits(gs[i])
    ensures SegmentsCheck(phs, len) == FirstRefusal(gs, len)
    decreases |gs|
  {
    hide SegmentRefusal, SegmentCheck, SegmentFits;
    if gs != [] {
      SegmentIsChecked(gs[0], len);
      SegmentsAreChecked(phs[1..], gs[1..], len);
    }
  }

  lemma AllFit(elf: seq<byte>, h: Ehdr, gs: seq<Segment>)
    requires TableIs(elf, h, gs)
    ensures forall i :: 0 <= i < |gs| ==> SegmentFits(gs[i])
  {
    hide SegmentBytes, SegmentFits;
    forall i | 0 <= i < |gs|
      ensures SegmentFits(gs[i])
    {
      assert SegmentAt(elf, h.phoff + 56 * i, gs[i]);
    }
  }

  /** load_elf refuses a file for its header, or for the first program header there is something
      against; otherwise it loads it, or runs out of memory. */
  lemma FileIsChecked(s: State, root: nat, elf: seq<byte>, h: Ehdr, gs: seq<Segment>)
    requires root != 0 && Inv(s, root) && HeaderIs(elf, h)
    ensures var (s', ret) := LoadElf(s, root, elf);
            && (HeaderRefusal(|elf|, h) != 0 ==> ret == HeaderRefusal(|elf|, h) && s' == s)
            && (HeaderRefusal(|elf|, h) == 0 && TableIs(elf, h, gs) ==>
                  ret == FirstRefusal(gs, |elf|) || (ret == -10 && !AnyFree(s')))
  {
    hide Inv, Grows, AnyFree, ViewOf, Loaded, HeaderCheck, Phdrs, SegmentsCheck, LoadSegments, AllGood, EhdrBytes,
         TableIs, FirstRefusal;
    HeaderIsChecked(elf, h);
    LoadElfSpec(s, root, elf);
    if HeaderRefusal(|elf|, h) == 0 && TableIs(elf, h, gs) {
      ReadTable(elf, h, gs);
      AllFit(elf, h, gs);
      SegmentsAreChecked(Phdrs(elf), gs, |elf|);
    }
  }

  /** So is a file too short for a header. */
  lemma ShortFile(s: State, root: nat, elf: seq<byte>)
    requires root != 0 && Inv(s, root) && |elf| < 64
    ensures LoadElf(s, root, elf) == (s, -2)
  {
    hide Inv;
  }

  // ---- what is loaded ----

  /** The file has a byte of segment g for address va. */
  predicate HasByte(g: Segment, va: nat) {
    g.ptype == 1 && g.vaddr <= va < g.vaddr + g.filesz
  }

  /** Page vpn has an address of the segment's memory. */
  predicate HasPage(g: Segment, vpn: nat) {
    g.ptype == 1 && 0 < g.memsz && g.vaddr < 4096 * vpn + 4096 && 4096 * vpn < g.vaddr + g.memsz
  }

  lemma ReadsSame(g: Segment, vpn: nat, va: nat)
    ensures Maps(Read(g), vpn) <==> HasPage(g, vpn)
    ensures Covers(Read(g), va) <==> HasByte(g, va)
  {}

  lemma {:induction false} LastSegmentByte(elf: seq<byte>, phs: seq<Phdr>, i: nat, va: nat, d: byte)
    requires i < |phs| && AllGood(phs, |elf|) && Covers(phs[i], va)
    requires forall j :: i < j < |phs| ==> !Covers(phs[j], va)
    ensures phs[i].offset + va - phs[i].vaddr < |elf|
    ensures ImageByte(elf, phs, va, d) == elf[phs[i].offset + va - phs[i].vaddr]
    decreases |phs|
  {
    var n := |phs| - 1;
    if i < n {
      assert !Covers(phs[n], va);
      LastSegmentByte(elf, phs[..n], i, va, d);
    }
  }

  /** The file has been loaded into an empty table. */
  ghost predicate IsLoaded(s: State, s': State, root: nat, elf: seq<byte>, h: Ehdr, gs: seq<Segment>) {
    && root != 0 && Inv(s, root) && ViewOf(s.mem, root) == map[] && HeaderIs(elf, h) && TableIs(elf, h, gs)
    && LoadElf(s, root, elf) == (s', 0)
  }

  lemma LoadedFile(s: State, s': State, root: nat, elf: seq<byte>, h: Ehdr, gs: seq<Segment>)
    requires IsLoaded(s, s', root, elf, h, gs)
    ensures |elf| < TWO_64 && HeaderCheck(elf) == 0 && |Phdrs(elf)| == |gs| && AllGood(Phdrs(elf), |elf|)
    ensures forall i :: 0 <= i < |gs| ==> Phdrs(elf)[i] == Read(gs[i])
    ensures Loaded(map[], ViewOf(s'.mem, root), elf, Phdrs(elf))
  {
    hide Inv, Grows, AnyFree, ViewOf, Loaded, HeaderCheck, Phdrs, SegmentsCheck, LoadElf, AllGood, EhdrBytes, TableIs;
    LoadElfSpec(s, root, elf);
    ReadTable(elf, h, gs);
  }

  lemma MapsSame(elf: seq<byte>, h: Ehdr, gs: seq<Segment>, vpn: nat)
    requires HeaderIs(elf, h) && TableIs(elf, h, gs) && HeaderCheck(elf) == 0
    ensures ImageMaps(Phdrs(elf), vpn) <==> exists i :: 0 <= i < |gs| && HasPage(gs[i], vpn)
  {
    hide EhdrBytes, TableIs, HeaderCheck, Phdrs, HasPage, Maps;
    ReadTable(elf, h, gs);
    forall i | 0 <= i < |gs|
      ensures Maps(Phdrs(elf)[i], vpn) <==> HasPage(gs[i], vpn)
    {
      ReadsSame(gs[i], vpn, 0);
    }
    if ImageMaps(Phdrs(elf), vpn) {
      var i :| 0 <= i < |Phdrs(elf)| && Maps(Phdrs(elf)[i], vpn);
      assert HasPage(gs[i], vpn);
    }
    if i :| 0 <= i < |gs| && HasPage(gs[i], vpn) {
      assert Maps(Phdrs(elf)[i], vpn);
    }
  }

  /** Exactly the pages of the segments are mapped. */
  lemma FilePages(s: State, s': State, root: nat, elf: seq<byte>, h: Ehdr, gs: seq<Segment>, vpn: nat)
    requires IsLoaded(s, s', root, elf, h, gs)
    ensures vpn in ViewOf(s'.mem, root) <==> exists i :: 0 <= i < |gs| && HasPage(gs[i], vpn)
  {
    hide Inv, ViewOf, HeaderIs, TableIs, HeaderCheck, Phdrs, AllGood, ImageMaps, ImageByte, ImageFlags, HasPage,
         LoadElf;
    LoadedFile(s, s', root, elf, h, gs);
    MapsSame(elf, h, gs, vpn);
  }

  /** The user reads b at va. */
  predicate ReadsAs(v: View, va: nat, b: byte) {
    va / 4096 in v && v[va / 4096].bytes[va % 4096] == b
  }

  lemma ReadsByte(v: View, va: nat, b: byte)
    requires va / 4096 in v && ByteAt(v, va / 4096, va % 4096) == b
    ensures ReadsAs(v, va, b)
  {}

  /** Byte k of a segment is byte p_offset + k of the file, at address p_vaddr + k, unless a later
      segment has a byte there as well. */
  lemma FileByte(s: State, s': State, root: nat, elf: seq<byte>, h: Ehdr, gs: seq<Segment>, i: nat, k: nat)
    requires IsLoaded(s, s', root, elf, h, gs)
    requires i < |gs| && gs[i].ptype == 1 && k < gs[i].filesz
    requires forall j :: i < j < |gs| ==> !HasByte(gs[j], gs[i].vaddr + k)
    ensures gs[i].offset + k < |elf| && ReadsAs(ViewOf(s'.mem, root), gs[i].vaddr + k, elf[gs[i].offset + k])
  {
    hide IsLoaded, ViewOf, HeaderCheck, Phdrs, AllGood, ImageByte, ImageFlags, Maps, Covers, ImageMaps, ReadsAs;
    LoadedFile(s, s', root, elf, h, gs);
    var va := gs[i].vaddr + k;
    var vpn, phs := va / 4096, Phdrs(elf);
    forall j | 0 <= j < |gs|
      ensures Covers(phs[j], va) <==> HasByte(gs[j], va)
    {
      ReadsSame(gs[j], vpn, va);
    }
    LastSegmentByte(elf, phs, i, va, 0);
    GoodSizes(phs, |elf|, i);
    assert va == PGSIZE * vpn + va % PGSIZE;
    ReadsSame(gs[i], vpn, va);
    assert Maps(phs[i], vpn);
    SomeMaps(phs, i, vpn);
    assert ByteAt(ViewOf(s'.mem, root), vpn, va % PGSIZE) == ImageByte(elf, phs, PGSIZE * vpn + va % PGSIZE, 0);
    ReadsByte(ViewOf(s'.mem, root), va, elf[gs[i].offset + k]);
  }

  lemma GoodSizes(phs: seq<Phdr>, len: nat, i: nat)
    requires AllGood(phs, len) && i < |phs| && phs[i].ptype == PT_LOAD
    ensures phs[i].filesz <= phs[i].memsz
  {}

  lemma SomeMaps(phs: seq<Phdr>, i: nat, vpn: nat)
    requires i < |phs| && Maps(phs[i], vpn)
    ensures ImageMaps(phs, vpn)
  {}

  /** Everything else in those pages is zero. */
  lemma FileZero(s: State, s': State, root: nat, elf: seq<byte>, h: Ehdr, gs: seq<Segment>, va: nat)
    requires IsLoaded(s, s', root, elf, h, gs) && va / 4096 in ViewOf(s'.mem, root)
    requires forall j :: 0 <= j < |gs| ==> !HasByte(gs[j], va)
    ensures ReadsAs(ViewOf(s'.mem, root), va, 0)
  {
    hide IsLoaded, ViewOf, HeaderCheck, Phdrs, AllGood, ImageByte, ImageFlags, Maps, Covers, ImageMaps, ReadsAs;
    LoadedFile(s, s', root, elf, h, gs);
    var vpn, phs := va / 4096, Phdrs(elf);
    forall j | 0 <= j < |phs|
      ensures !Covers(phs[j], va)
    {
      ReadsSame(gs[j], vpn, va);
    }
    NoSegmentByte(elf, phs, va, 0);
    assert va == PGSIZE * vpn + va % PGSIZE;
    assert ByteAt(ViewOf(s'.mem, root), vpn, va % PGSIZE) == ImageByte(elf, phs, PGSIZE * vpn + va % PGSIZE, 0);
    ReadsByte(ViewOf(s'.mem, root), va, 0);
  }

  /** A page has the permissions of the first segment that has it, PF_X, PF_W and PF_R being bits 0, 1
      and 2; it is the user's and accessed, and dirty if writable. */
  lemma FileFlags(s: State, s': State, root: nat, elf: seq<byte>, h: Ehdr, gs: seq<Segment>, i: nat, vpn: nat)
    requires IsLoaded(s, s', root, elf, h, gs)
    requires i < |gs| && HasPage(gs[i], vpn) && forall j :: 0 <= j < i ==> !HasPage(gs[j], vpn)
    ensures var v, f := ViewOf(s'.mem, root), gs[i].flags;
            && vpn in v
            && v[vpn].flags == Flags(f / 4 % 2 == 1, f / 2 % 2 == 1, f % 2 == 1, true, true, f / 2 % 2 == 1)
  {
    hide IsLoaded, ViewOf, HeaderCheck, Phdrs, AllGood, ImageByte, ImageFlags, Maps, ImageMaps, Digit, HasPage;
    LoadedFile(s, s', root, elf, h, gs);
    var phs := Phdrs(elf);
    forall j | 0 <= j <= i
      ensures Maps(phs[j], vpn) <==> HasPage(gs[j], vpn)
    {
      ReadsSame(gs[j], vpn, 0);
    }
    NoneMaps(phs[..i], vpn);
    ElfCount.FirstGivesFlags(phs, i, vpn);
    FlagBits(gs[i].flags);
  }

  lemma NoneMaps(phs: seq<Phdr>, vpn: nat)
    requires forall j :: 0 <= j < |phs| ==> !Maps(phs[j], vpn)
    ensures !ImageMaps(phs, vpn)
  {}

  lemma FlagBits(f: nat)
    ensures Digit(f, 0) <==> f % 2 == 1
    ensures Digit(f, 1) <==> f / 2 % 2 == 1
    ensures Digit(f, 2) <==> f / 4 % 2 == 1
  {
    assert Shr(f, 1) == Shr(f / 2, 0) && Shr(f, 2) == Shr(f / 2, 1) && Shr(f / 2, 1) == Shr(f / 2 / 2, 0);
    assert f / 2 / 2 == f / 4;
  }
}
