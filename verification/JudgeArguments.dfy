/** What a user program finds from its stack pointer up, in the words of judge.c and of the program:
    each argument is the address or the length of what it stands for. */
module JudgeArguments {
  import opened Bytes
  import opened Sv39
  import opened PageTable
  import opened AddressSpace
  import opened CopyIn
  import opened ElfFile
  import opened ElfImage
  import opened JudgeBuild
  import opened JudgeLayout
  import opened JudgeOutput
  import opened JudgeRequest
  import Judge

  // ---- what every program can find ----

  /** The user reads bs at address at. */
  ghost predicate Reads(v: View, at: nat, bs: seq<byte>) {
    forall i :: 0 <= i < |bs| ==> ReadsAs(v, at + i, bs[i])
  }

  /** argc, argv and envp are empty; auxv has the address of the program headers, the size of one,
      their number and the page size. */
  ghost predicate FindsAuxv(v: View, sp: nat, h: Ehdr) {
    && UserWord(v, sp) == Some(0) && UserWord(v, sp + 8) == Some(0) && UserWord(v, sp + 16) == Some(0)
    && UserWord(v, sp + 24) == Some(3) && UserWord(v, sp + 32) == Some(0x3f_ffff_f000 + h.phoff)
    && UserWord(v, sp + 40) == Some(4) && UserWord(v, sp + 48) == Some(56)
    && UserWord(v, sp + 56) == Some(5) && UserWord(v, sp + 64) == Some(h.phnum)
    && UserWord(v, sp + 72) == Some(6) && UserWord(v, sp + 80) == Some(4096)
    && UserWord(v, sp + 88) == Some(0) && UserWord(v, sp + 96) == Some(0)
  }

  /** aux: standard input, at the end of the output buffer, and its length; the output buffer, at the end
      of the stack, its size and the length of what is in it; the heap. */
  ghost predicate FindsAux(v: View, sp: nat, n: nat) {
    && UserWord(v, sp + 104) == Some(sp + 176 + 0x1_0000) && UserWord(v, sp + 112) == Some(n)
    && UserWord(v, sp + 120) == Some(sp + 176) && UserWord(v, sp + 128) == Some(0x1_0000)
    && UserWord(v, sp + 136) == Some(0)
    && UserWord(v, sp + 144) == Some(0x1000_0000) && UserWord(v, sp + 152) == Some(0x1040_0000)
  }

  /** The words, with standard input at its address, and the first page of the file as the last page of
      user space, where auxv has the program headers. */
  ghost predicate Finds(v: View, sp: nat, elf: seq<byte>, h: Ehdr, stdin: seq<byte>) {
    && sp % 16 == 0 && FindsAuxv(v, sp, h) && FindsAux(v, sp, |stdin|)
    && Reads(v, sp + 176 + 0x1_0000, stdin) && Reads(v, 0x3f_ffff_f000, if |elf| < 4096 then elf else elf[..4096])
  }

  // ---- what a program clear of the regions can find ----

  const READABLE := Flags(true, false, false, true, true, false)
  const WRITABLE := Flags(true, true, false, true, false, false)

  predicate HoldsByte(v: View, va: nat, b: byte, flags: Flags) {
    ReadsAs(v, va, b) && v[va / 4096].flags == flags
  }

  /** The user has bs at address at, in pages with these flags. */
  ghost predicate Holds(v: View, at: nat, bs: seq<byte>, flags: Flags) {
    forall i :: 0 <= i < |bs| ==> HoldsByte(v, at + i, bs[i], flags)
  }

  /** Standard input and header page are readable; 64 KiB of output buffer, 4 MiB of stack, its 160
      bytes of arguments left out, and 4 MiB of heap are zeros, and writable. */
  ghost predicate HasRegions(v: View, sp: nat, elf: seq<byte>, stdin: seq<byte>) {
    && sp > 0x40_0000
    && Holds(v, sp + 176 + 0x1_0000, stdin, READABLE)
    && Holds(v, 0x3f_ffff_f000, if |elf| < 4096 then elf else elf[..4096], READABLE)
    && Holds(v, sp + 176, Zeros(0x1_0000), WRITABLE)
    && Holds(v, sp + 176 - 0x40_0000, Zeros(0x40_0000 - 176), WRITABLE) && Holds(v, sp + 160, Zeros(16), WRITABLE)
    && Holds(v, 0x1000_0000, Zeros(0x40_0000), WRITABLE)
  }

  // ---- every program: the words ----

  lemma FileHeader(elf: seq<byte>)
    requires HeaderCheck(elf) == 0
    ensures EHDR_SIZE <= |elf|
  {}

  function Arg(elf: seq<byte>, n: nat, i: nat): nat
    requires n <= BUFFER_SIZE && EHDR_SIZE <= |elf| && i < 20
  {
    (StackWords(ELF_VA + PhOff(elf), PHDR_SIZE, PhNum(elf)) + AuxWords(n))[i]
  }

  lemma WordIs(b: Steps, elf: seq<byte>, stdin: seq<byte>, i: nat)
    requires Started(b, elf, stdin) && i < 20
    ensures EHDR_SIZE <= |elf| && |stdin| <= BUFFER_SIZE
    ensures UserWord(b.words, StackPointer(|stdin|) + 8 * i) == Some(Arg(elf, |stdin|, i))
  {
    hide Loaded, Chain, Phdrs, UserWord, StackPointer;
    HeaderCheckSpec(elf);
    Judge.Arguments(b, elf, stdin, i);
  }

  lemma AuxIsFound(b: Steps, elf: seq<byte>, stdin: seq<byte>)
    requires Started(b, elf, stdin)
    ensures |stdin| <= BUFFER_SIZE && FindsAux(b.words, StackPointer(|stdin|), |stdin|)
  {
    hide Started, UserWord;
    WordIs(b, elf, stdin, 13);
    WordIs(b, elf, stdin, 14);
    WordIs(b, elf, stdin, 15);
    WordIs(b, elf, stdin, 16);
    WordIs(b, elf, stdin, 17);
    WordIs(b, elf, stdin, 18);
    WordIs(b, elf, stdin, 19);
  }

  lemma AuxvIsFound(b: Steps, elf: seq<byte>, stdin: seq<byte>, h: Ehdr)
    requires Started(b, elf, stdin) && HeaderIs(elf, h)
    ensures |stdin| <= BUFFER_SIZE && FindsAuxv(b.words, StackPointer(|stdin|), h)
  {
    hide Started, UserWord, StackPointer, HeaderIs;
    ReadHeader(elf, h);
    WordIs(b, elf, stdin, 0);
    WordIs(b, elf, stdin, 1);
    WordIs(b, elf, stdin, 2);
    WordIs(b, elf, stdin, 3);
    WordIs(b, elf, stdin, 4);
    WordIs(b, elf, stdin, 5);
    WordIs(b, elf, stdin, 6);
    WordIs(b, elf, stdin, 7);
    WordIs(b, elf, stdin, 8);
    WordIs(b, elf, stdin, 9);
    WordIs(b, elf, stdin, 10);
    WordIs(b, elf, stdin, 11);
    WordIs(b, elf, stdin, 12);
  }

  // ---- every program: the two files ----

  lemma CopyReads(v: View, v': View, va: nat, flags: Flags, src: seq<byte>, i: nat)
    requires CopyOf(v, v', va, flags, src) && i < |src|
    ensures ReadsAs(v', va + i, src[i])
  {
    var vpn, o := (va + i) / PGSIZE, (va + i) % PGSIZE;
    assert Touches(va, |src|, vpn);
    assert ByteAt(v', vpn, o) == src[i];
  }

  lemma SamePage(v: View, v': View, va: nat, c: byte)
    requires ReadsAs(v, va, c) && PageOf(v', va / 4096) == PageOf(v, va / 4096)
    ensures ReadsAs(v', va, c)
  {}

  lemma InputByte(b: Steps, elf: seq<byte>, stdin: seq<byte>, i: nat)
    requires Started(b, elf, stdin) && i < |stdin|
    ensures |stdin| <= BUFFER_SIZE && ReadsAs(b.words, StackPointer(|stdin|) + 176 + 0x1_0000 + i, stdin[i])
  {
    hide CopyOf, RangeMapped, HeaderCheck, Loaded, ReadsAs, StackBytes, WordBytes, AuxWords, HeaderPage, PageOf;
    FileHeader(elf);
    var n := |stdin|;
    RegionPages(n);
    var va := StdinVa(n) + i;
    CopyReads(b.header, b.stdin, StdinVa(n), READ_ONLY, stdin, i);
    assert RegionOf(n, va / 4096).Stdin?;
    LaterSteps(b, HeaderPage(elf), stdin, StackBytes(elf), WordBytes(AuxWords(n)), va / 4096);
    SamePage(b.stdin, b.words, va, stdin[i]);
  }

  lemma HeaderByte(b: Steps, elf: seq<byte>, stdin: seq<byte>, i: nat)
    requires Started(b, elf, stdin) && i < |HeaderPage(elf)|
    ensures ReadsAs(b.words, 0x3f_ffff_f000 + i, HeaderPage(elf)[i])
  {
    hide CopyOf, RangeMapped, HeaderCheck, Loaded, ReadsAs, StackBytes, WordBytes, AuxWords, Touches, PageOf;
    FileHeader(elf);
    var n := |stdin|;
    CopyReads(b.elf, b.header, ELF_VA, READ_ONLY, HeaderPage(elf), i);
    assert (ELF_VA + i) / 4096 == HEADER_PAGE && RegionOf(n, HEADER_PAGE).Header?;
    TouchedBy(HeaderPage(elf), n, HEADER_PAGE);
    CopyApart(b.header, b.stdin, StdinVa(n), READ_ONLY, stdin, HEADER_PAGE);
    LaterSteps(b, HeaderPage(elf), stdin, StackBytes(elf), WordBytes(AuxWords(n)), HEADER_PAGE);
    SamePage(b.header, b.words, ELF_VA + i, HeaderPage(elf)[i]);
  }

  /** Every program, wherever its own segments lie, finds its arguments and the files they name. */
  lemma ArgumentsAreFound(b: Steps, elf: seq<byte>, stdin: seq<byte>, h: Ehdr)
    requires Started(b, elf, stdin) && HeaderIs(elf, h)
    ensures |stdin| <= BUFFER_SIZE && Finds(b.words, StackPointer(|stdin|), elf, h, stdin)
  {
    hide Started, HeaderIs, StackPointer, ReadsAs, FindsAuxv, FindsAux;
    AuxIsFound(b, elf, stdin);
    AuxvIsFound(b, elf, stdin, h);
    StackPointerAligned(|stdin|);
    assert HeaderPage(elf) == if |elf| < 4096 then elf else elf[..4096];
    forall i | 0 <= i < |stdin|
      ensures ReadsAs(b.words, StackPointer(|stdin|) + 176 + 0x1_0000 + i, stdin[i])
    {
      InputByte(b, elf, stdin, i);
    }
    forall i | 0 <= i < |HeaderPage(elf)|
      ensures ReadsAs(b.words, 0x3f_ffff_f000 + i, HeaderPage(elf)[i])
    {
      HeaderByte(b, elf, stdin, i);
    }
  }

  // ---- the program headers ----

  lemma {:induction false} CheckedSegment(phs: seq<Phdr>, len: nat, i: nat)
    requires SegmentsCheck(phs, len) == 0 && i < |phs| && phs[i].ptype == PT_LOAD
    ensures SegmentCheck(phs[i], len) == 0
  {
    if i > 0 {
      CheckedSegment(phs[1..], len, i - 1);
    }
  }

  /** No program has a page above user space. */
  lemma BelowTop(v: View, elf: seq<byte>, vpn: nat)
    requires |elf| <= BUFFER_SIZE && ElfCheck(elf) == 0 && Loaded(map[], v, elf, Phdrs(elf)) && vpn >= 0x400_0000
    ensures vpn !in v
  {
    hide Phdrs, SegmentsCheck, HeaderCheck, SegmentCheck, ImageByte, ImageFlags, ByteAt, PhNum;
    if vpn in v {
      var i :| 0 <= i < |Phdrs(elf)| && Maps(Phdrs(elf)[i], vpn);
      CheckedSegment(Phdrs(elf), |elf|, i);
      CheckedPage(elf, i, vpn);
    }
  }

  lemma CheckedPage(elf: seq<byte>, i: nat, vpn: nat)
    requires |elf| <= BUFFER_SIZE && HeaderCheck(elf) == 0 && i < |Phdrs(elf)|
    requires SegmentCheck(Phdrs(elf)[i], |elf|) == 0 && Maps(Phdrs(elf)[i], vpn)
    ensures vpn < 0x400_0000
  {
    hide HeaderCheck, SegmentCheck, PhdrAt;
    PhdrsBounded(elf, i);
    SegmentCheckSpec(Phdrs(elf)[i], |elf|);
  }

  lemma TopUnmapped(b: Steps, elf: seq<byte>, stdin: seq<byte>, vpn: nat)
    requires Started(b, elf, stdin) && ElfCheck(elf) == 0 && vpn >= 0x400_0000
    ensures vpn !in b.words
  {
    hide Loaded, CopyOf, RangeMapped, SegmentsCheck, HeaderCheck, Phdrs, StackBytes, WordBytes, AuxWords, HeaderPage;
    FileHeader(elf);
    assert RegionOf(|stdin|, vpn).Elsewhere?;
    ElsewhereAt(b, HeaderPage(elf), stdin, StackBytes(elf), WordBytes(AuxWords(|stdin|)), vpn);
    BelowTop(b.elf, elf, vpn);
  }

  /** The program reads byte i of its program header table behind AT_PHDR. */
  predicate HeaderByteRead(v: View, elf: seq<byte>, h: Ehdr, i: nat) {
    h.phoff + i < |elf| && ReadsAs(v, 0x3f_ffff_f000 + h.phoff + i, elf[h.phoff + i])
  }

  lemma HeaderByteCut(b: Steps, elf: seq<byte>, stdin: seq<byte>, h: Ehdr, i: nat)
    requires Started(b, elf, stdin) && ElfCheck(elf) == 0 && h.phoff + i >= 4096
    ensures !HeaderByteRead(b.words, elf, h, i)
  {
    hide Started, ElfCheck;
    var va := 0x3f_ffff_f000 + h.phoff + i;
    TopUnmapped(b, elf, stdin, va / 4096);
    if h.phoff + i < |elf| {
      NotRead(b.words, va, elf[h.phoff + i]);
    }
  }

  lemma NotRead(v: View, va: nat, c: byte)
    requires va / 4096 !in v
    ensures !ReadsAs(v, va, c)
  {}

  lemma TableInFile(b: Steps, elf: seq<byte>, stdin: seq<byte>, h: Ehdr)
    requires Started(b, elf, stdin) && ElfCheck(elf) == 0 && HeaderIs(elf, h)
    ensures h.phnum > 0 && h.phoff + 56 * h.phnum <= |elf|
  {
    hide SegmentsCheck, Phdrs, EhdrBytes, Loaded, Chain;
    ElfCheckValues(elf);
    HeaderIsChecked(elf, h);
  }

  /** The program finds its whole program header table at the address behind AT_PHDR exactly when the
      table lies in the first 4096 bytes of the file; what is behind them is not mapped. */
  lemma TableIsRead(b: Steps, elf: seq<byte>, stdin: seq<byte>, h: Ehdr)
    requires Started(b, elf, stdin) && ElfCheck(elf) == 0 && HeaderIs(elf, h)
    ensures (forall i: nat :: i < 56 * h.phnum ==> HeaderByteRead(b.words, elf, h, i))
            <==> h.phoff + 56 * h.phnum <= 4096
  {
    hide Started, HeaderIs, ReadsAs, ElfCheck;
    TableInFile(b, elf, stdin, h);
    if h.phoff + 56 * h.phnum <= 4096 {
      forall i: nat | i < 56 * h.phnum
        ensures HeaderByteRead(b.words, elf, h, i)
      {
        HeaderByte(b, elf, stdin, h.phoff + i);
      }
    } else {
      HeaderByteCut(b, elf, stdin, h, 56 * h.phnum - 1);
    }
  }

  // ---- programs clear of the regions ----

  ghost predicate Around(b: Steps, elf: seq<byte>, stdin: seq<byte>) {
    && |elf| <= BUFFER_SIZE && |stdin| <= BUFFER_SIZE && EHDR_SIZE <= |elf|
    && UserView(b.elf, b.words, HeaderPage(elf), stdin, StackBytes(elf) + WordBytes(AuxWords(|stdin|)))
  }

  lemma IsAround(b: Steps, elf: seq<byte>, stdin: seq<byte>)
    requires Started(b, elf, stdin)
    ensures |stdin| <= BUFFER_SIZE && (ClearOfRegions(b.elf, |stdin|) ==> Around(b, elf, stdin))
  {
    hide Loaded, Chain, ClearOfRegions, UserView, Phdrs, StackWords, WordBytes;
    if ClearOfRegions(b.elf, |stdin|) {
      BuiltIsUserView(b, HeaderPage(elf), stdin, StackBytes(elf), WordBytes(AuxWords(|stdin|)));
    }
  }

  /** One byte of page vpn, as the layout has it. */
  lemma ByteIs(b: Steps, elf: seq<byte>, stdin: seq<byte>, vpn: nat, o: nat)
    requires Around(b, elf, stdin) && o < 4096 && !RegionOf(|stdin|, vpn).Elsewhere?
    ensures HoldsByte(b.words, 4096 * vpn + o,
                      Content(HeaderPage(elf), stdin, StackBytes(elf) + WordBytes(AuxWords(|stdin|)), vpn, o),
                      RegionFlags(RegionOf(|stdin|, vpn)))
  {
    hide RegionOf, Content, RegionFlags, StackBytes, WordBytes, AuxWords;
    var args := StackBytes(elf) + WordBytes(AuxWords(|stdin|));
    assert PageOf(b.words, vpn) == UserPage(b.elf, HeaderPage(elf), stdin, args, vpn);
    InPage(vpn, o);
  }

  lemma InputHeld(b: Steps, elf: seq<byte>, stdin: seq<byte>, i: nat)
    requires Around(b, elf, stdin) && i < |stdin|
    ensures HoldsByte(b.words, StackPointer(|stdin|) + 176 + 0x1_0000 + i, stdin[i], READABLE)
  {
    hide UserView, HoldsByte, StackBytes, WordBytes, AuxWords, HeaderPage;
    var n := |stdin|;
    RegionPages(n);
    var vpn, o := StdinPage(n) + i / 4096, i % 4096;
    assert RegionOf(n, vpn).Stdin?;
    ByteIs(b, elf, stdin, vpn, o);
    assert 4096 * vpn + o == StdinVa(n) + i;
  }

  lemma HeaderHeld(b: Steps, elf: seq<byte>, stdin: seq<byte>, i: nat)
    requires Around(b, elf, stdin) && i < |HeaderPage(elf)|
    ensures HoldsByte(b.words, 0x3f_ffff_f000 + i, HeaderPage(elf)[i], READABLE)
  {
    hide UserView, HoldsByte, StackBytes, WordBytes, AuxWords;
    assert RegionOf(|stdin|, HEADER_PAGE).Header?;
    ByteIs(b, elf, stdin, HEADER_PAGE, i);
  }

  /** The bytes of standard output, stack and heap that are not arguments. */
  lemma ZeroByte(b: Steps, elf: seq<byte>, stdin: seq<byte>, vpn: nat, o: nat)
    requires Around(b, elf, stdin) && o < 4096
    requires var r := RegionOf(|stdin|, vpn); r.Stdout? || r.Stack? || r.Heap?
    requires vpn == StdoutPage(|stdin|) - 1 ==> !(SP_OFFSET <= o < SP_OFFSET + 160)
    ensures HoldsByte(b.words, 4096 * vpn + o, 0, WRITABLE)
  {
    hide UserView, HoldsByte, WordBytes, HeaderPage, StdoutPage, Field;
    ByteIs(b, elf, stdin, vpn, o);
  }

  lemma OutputZero(b: Steps, elf: seq<byte>, stdin: seq<byte>, i: nat)
    requires Around(b, elf, stdin) && i < 0x1_0000
    ensures HoldsByte(b.words, StackPointer(|stdin|) + 176 + i, 0, WRITABLE)
  {
    hide UserView, HoldsByte, StackBytes, WordBytes, AuxWords, HeaderPage;
    var n := |stdin|;
    RegionPages(n);
    var vpn, o := StdoutPage(n) + i / 4096, i % 4096;
    assert RegionOf(n, vpn).Stdout?;
    ZeroByte(b, elf, stdin, vpn, o);
    assert 4096 * vpn + o == StackPointer(n) + 176 + i;
  }

  lemma HeapZero(b: Steps, elf: seq<byte>, stdin: seq<byte>, i: nat)
    requires Around(b, elf, stdin) && i < 0x40_0000
    ensures HoldsByte(b.words, 0x1000_0000 + i, 0, WRITABLE)
  {
    hide UserView, HoldsByte, StackBytes, WordBytes, AuxWords, HeaderPage;
    var vpn, o := 0x1_0000 + i / 4096, i % 4096;
    assert RegionOf(|stdin|, vpn).Heap?;
    ZeroByte(b, elf, stdin, vpn, o);
    assert 4096 * vpn + o == 0x1000_0000 + i;
  }

  /** Byte i of the stack region, arguments left out. */
  lemma StackZero(b: Steps, elf: seq<byte>, stdin: seq<byte>, i: nat)
    requires Around(b, elf, stdin) && i < 0x40_0000 && !(0x40_0000 - 176 <= i < 0x40_0000 - 16)
    ensures StackPointer(|stdin|) > 0x40_0000
    ensures HoldsByte(b.words, StackPointer(|stdin|) + 176 - 0x40_0000 + i, 0, WRITABLE)
  {
    hide UserView, HoldsByte, StackBytes, WordBytes, AuxWords, HeaderPage;
    var n := |stdin|;
    RegionPages(n);
    var vpn, o := StackPage(n) + i / 4096, i % 4096;
    assert RegionOf(n, vpn).Stack?;
    ZeroByte(b, elf, stdin, vpn, o);
    assert 4096 * vpn + o == StackPointer(n) + 176 - 0x40_0000 + i;
  }

  lemma InputIsHeld(b: Steps, elf: seq<byte>, stdin: seq<byte>)
    requires Around(b, elf, stdin)
    ensures Holds(b.words, StackPointer(|stdin|) + 176 + 0x1_0000, stdin, READABLE)
    ensures Holds(b.words, 0x3f_ffff_f000, HeaderPage(elf), READABLE)
  {
    hide UserView, HoldsByte, StackPointer, StackBytes, WordBytes, AuxWords, HeaderPage;
    forall i | 0 <= i < |stdin|
      ensures HoldsByte(b.words, StackPointer(|stdin|) + 176 + 0x1_0000 + i, stdin[i], READABLE)
    {
      InputHeld(b, elf, stdin, i);
    }
    forall i | 0 <= i < |HeaderPage(elf)|
      ensures HoldsByte(b.words, 0x3f_ffff_f000 + i, HeaderPage(elf)[i], READABLE)
    {
      HeaderHeld(b, elf, stdin, i);
    }
  }

  lemma OutputIsZero(b: Steps, elf: seq<byte>, stdin: seq<byte>)
    requires Around(b, elf, stdin)
    ensures Holds(b.words, StackPointer(|stdin|) + 176, Zeros(0x1_0000), WRITABLE)
    ensures Holds(b.words, 0x1000_0000, Zeros(0x40_0000), WRITABLE)
  {
    hide UserView, HoldsByte, StackPointer, StackBytes, WordBytes, AuxWords, HeaderPage;
    var output, heap := Zeros(0x1_0000), Zeros(0x40_0000);
    forall i | 0 <= i < |output|
      ensures HoldsByte(b.words, StackPointer(|stdin|) + 176 + i, output[i], WRITABLE)
    {
      OutputZero(b, elf, stdin, i);
    }
    forall i | 0 <= i < |heap|
      ensures HoldsByte(b.words, 0x1000_0000 + i, heap[i], WRITABLE)
    {
      HeapZero(b, elf, stdin, i);
    }
  }

  lemma StackIsZero(b: Steps, elf: seq<byte>, stdin: seq<byte>)
    requires Around(b, elf, stdin)
    ensures var sp := StackPointer(|stdin|);
            && sp > 0x40_0000 && Holds(b.words, sp + 176 - 0x40_0000, Zeros(0x40_0000 - 176), WRITABLE)
            && Holds(b.words, sp + 160, Zeros(16), WRITABLE)
  {
    hide UserView, HoldsByte, StackPointer, StackBytes, WordBytes, AuxWords, HeaderPage;
    StackZero(b, elf, stdin, 0);
    var sp := StackPointer(|stdin|);
    var below, above := Zeros(0x40_0000 - 176), Zeros(16);
    forall i | 0 <= i < |below|
      ensures HoldsByte(b.words, sp + 176 - 0x40_0000 + i, below[i], WRITABLE)
    {
      StackZero(b, elf, stdin, i);
    }
    forall i | 0 <= i < |above|
      ensures HoldsByte(b.words, sp + 160 + i, above[i], WRITABLE)
    {
      StackZero(b, elf, stdin, 0x40_0000 - 16 + i);
    }
  }

  /** A program clear of the regions finds them as they should be. */
  lemma RegionsAreFound(b: Steps, elf: seq<byte>, stdin: seq<byte>)
    requires Started(b, elf, stdin)
    ensures |stdin| <= BUFFER_SIZE
    ensures ClearOfRegions(b.elf, |stdin|) ==> HasRegions(b.words, StackPointer(|stdin|), elf, stdin)
  {
    hide Started, Around, Holds, ClearOfRegions;
    IsAround(b, elf, stdin);
    if ClearOfRegions(b.elf, |stdin|) {
      InputIsHeld(b, elf, stdin);
      OutputIsZero(b, elf, stdin);
      StackIsZero(b, elf, stdin);
    }
  }

  /** Outside the regions it has its own pages and no others; inside, none of its own. */
  lemma RegionsOnly(b: Steps, elf: seq<byte>, stdin: seq<byte>, vpn: nat)
    requires Started(b, elf, stdin) && ClearOfRegions(b.elf, |stdin|)
    ensures var sp := StackPointer(|stdin|);
            if 0x1000_0000 <= 4096 * vpn < 0x1040_0000 || sp + 176 - 0x40_0000 <= 4096 * vpn < 0x40_0000_0000
            then vpn in b.words && vpn !in b.elf
            else PageOf(b.words, vpn) == PageOf(b.elf, vpn)
  {
    hide Loaded, Chain, StackBytes, WordBytes, AuxWords, HeaderPage, ContentFrame, HeaderCheck, Phdrs;
    IsAround(b, elf, stdin);
    RegionPages(|stdin|);
    var args := StackBytes(elf) + WordBytes(AuxWords(|stdin|));
    assert PageOf(b.words, vpn) == UserPage(b.elf, HeaderPage(elf), stdin, args, vpn);
  }

  // ---- from the machine that built it ----

  /** Whenever do_judge calls arch_call_user, the program finds its arguments at its stack pointer; and
      if it is clear of the regions, the regions as well. */
  lemma ProgramFinds(s: State, elf: Download, stdin: Download, h: Ehdr)
    requires Idle(s) && Sound(elf) && Sound(stdin) && Build(s, elf, stdin).1 == 0
    requires elf.Received? && stdin.Received? && HeaderIs(elf.data, h)
    ensures var (s', ret, root) := Build(s, elf, stdin);
            var v, sp := ViewOf(s'.mem, root), StackPointer(|stdin.data|);
            && Finds(v, sp, elf.data, h, stdin.data)
            && (ClearFile(elf.data, |stdin.data|) ==> HasRegions(v, sp, elf.data, stdin.data))
  {
    hide Inv, Grows, ViewOf, Build, Started, StackPointer, HeaderIs, ClearFile, ClearOfRegions, Finds, HasRegions;
    var b := AddressSpaceBuilt(s, elf, stdin);
    ArgumentsAreFound(b, elf.data, stdin.data, h);
    RegionsAreFound(b, elf.data, stdin.data);
    IsClear(b, elf.data, stdin.data);
  }

  lemma IsClear(b: Steps, elf: seq<byte>, stdin: seq<byte>)
    requires |stdin| <= BUFFER_SIZE && |elf| <= BUFFER_SIZE && Started(b, elf, stdin)
    ensures ClearFile(elf, |stdin|) ==> ClearOfRegions(b.elf, |stdin|)
  {
    hide Chain, Loaded, ImageMaps, RegionOf, HeaderCheck, Phdrs;
    if ClearFile(elf, |stdin|) {
      Judge.ClearProgram(b.elf, elf, Phdrs(elf), |stdin|);
    }
  }

  /** What is uploaded: what the user has at the address of the output buffer, of the length it has
      left in stdout_len, at most 64 KiB. */
  ghost predicate ReadsAux(v: View, sp: nat, q: Request, r: Reply) {
    var len := UserWord(v, sp + 136);
    len.Some? && UploadOf(UserBytes(v, sp + 176, if len.value > 0x1_0000 then 0x1_0000 else len.value), q, r)
  }

  lemma UploadReadsAux(s: State, root: nat, n: nat, q: Request, r: Reply)
    requires Inv(s, root) && n <= BUFFER_SIZE && Uploaded(s, root, n, q, r)
    ensures ReadsAux(ViewOf(s.mem, root), StackPointer(n), q, r)
  {
    hide Inv, ViewOf, Node, UploadOf, StdoutPage, UserBytes, FromLe;
    var page := Node(s.mem, root, 3, StdoutPage(n) - 1).value;
    RegionPages(n);
    FrameOfPage(s, root, StdoutPage(n) - 1, page);
    LengthWord(ViewOf(s.mem, root), n);
  }

  lemma LengthWord(v: View, n: nat)
    requires n <= BUFFER_SIZE && StdoutPage(n) - 1 in v
    ensures StackPointer(n) + 176 == StdoutVa(n)
    ensures UserWord(v, StackPointer(n) + 136) == Some(FromLe(v[StdoutPage(n) - 1].bytes[LEN_OFFSET..LEN_OFFSET + 8]))
  {
    hide StdoutPage, FromLe, StackPointer;
    StackPointerAligned(n);
    RegionPages(n);
    InPage(StdoutPage(n) - 1, LEN_OFFSET);
    assert StackPointer(n) + 136 == PGSIZE * (StdoutPage(n) - 1) + LEN_OFFSET;
  }
}
