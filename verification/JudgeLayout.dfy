/** The address space do_judge (judge.c) builds around a program, and its initial stack. */
module JudgeLayout {
  import opened Bytes
  import opened Sv39
  import opened PageTable
  import opened AddressSpace
  import opened CopyIn
  import opened ElfImage

  const BUFFER_SIZE: nat := 0x40_0000 // judge_tftp_buff
  const STDOUT_LIMIT: nat := 0x1_0000
  const STACK_SIZE: nat := 0x40_0000
  const HEAP_VA: nat := 0x1000_0000
  const HEAP_SIZE: nat := 0x40_0000

  // mapping flags
  const READ_ONLY := Flags(true, false, false, true, true, false)  // VM_U | VM_R | VM_A
  const READ_WRITE := Flags(true, true, false, true, false, false) // VM_U | VM_R | VM_W

  // ---- where the regions are, for n bytes of standard input ----

  const ELF_VA: nat := USER_TOP - PGSIZE

  function StdinVa(n: nat): (va: nat)
    requires n <= BUFFER_SIZE
  {
    ELF_VA - PgAlign(n)
  }

  function StdoutVa(n: nat): (va: nat)
    requires n <= BUFFER_SIZE
  {
    StdinVa(n) - STDOUT_LIMIT
  }

  function StackLimit(n: nat): (va: nat)
    requires n <= BUFFER_SIZE
  {
    StdoutVa(n) - STACK_SIZE
  }

  // The same in page numbers.
  const HEADER_PAGE: nat := 0x3ff_ffff
  const STDOUT_PAGES: nat := 16
  const STACK_PAGES: nat := 1024
  const HEAP_PAGE: nat := 0x1_0000
  const HEAP_PAGES: nat := 1024

  function StdinPages(n: nat): nat {
    (n + PGSIZE - 1) / PGSIZE
  }

  function StdinPage(n: nat): (p: nat)
    requires n <= BUFFER_SIZE
    ensures p >= 0x3ff_fbff
  {
    HEADER_PAGE - StdinPages(n)
  }

  function StdoutPage(n: nat): (p: nat)
    requires n <= BUFFER_SIZE
    ensures p >= 0x3ff_fbef
  {
    StdinPage(n) - STDOUT_PAGES
  }

  function StackPage(n: nat): (p: nat)
    requires n <= BUFFER_SIZE
    ensures p >= 0x3ff_f7ef
  {
    StdoutPage(n) - STACK_PAGES
  }

  /** Every region starts and ends on a page boundary. */
  lemma RegionPages(n: nat)
    requires n <= BUFFER_SIZE
    ensures ELF_VA == PGSIZE * HEADER_PAGE
    ensures StdinVa(n) == PGSIZE * StdinPage(n)
    ensures StdoutVa(n) == PGSIZE * StdoutPage(n)
    ensures StackLimit(n) == PGSIZE * StackPage(n)
    ensures HEAP_VA == PGSIZE * HEAP_PAGE && HEAP_SIZE == PGSIZE * HEAP_PAGES
    ensures PGSIZE * (StdinPages(n) - 1) < n <= PGSIZE * StdinPages(n)
  {}

  datatype Region = Header | Stdin | Stdout | Stack | Heap | Elsewhere

  predicate InRegion(n: nat, r: Region, vpn: nat)
    requires n <= BUFFER_SIZE
  {
    match r
    case Header => vpn == HEADER_PAGE
    case Stdin => StdinPage(n) <= vpn < HEADER_PAGE
    case Stdout => StdoutPage(n) <= vpn < StdinPage(n)
    case Stack => StackPage(n) <= vpn < StdoutPage(n)
    case Heap => HEAP_PAGE <= vpn < HEAP_PAGE + HEAP_PAGES
    case Elsewhere => true
  }

  /** The header page, standard input, standard output, stack and heap never overlap. */
  lemma RegionsDisjoint(n: nat, r: Region, q: Region, vpn: nat)
    requires n <= BUFFER_SIZE && r != q && !r.Elsewhere? && !q.Elsewhere?
    ensures !(InRegion(n, r, vpn) && InRegion(n, q, vpn))
  {}

  function RegionOf(n: nat, vpn: nat): (r: Region)
    requires n <= BUFFER_SIZE
    ensures InRegion(n, r, vpn)
    ensures r.Elsewhere? ==> forall q: Region :: !q.Elsewhere? ==> !InRegion(n, q, vpn)
  {
    if InRegion(n, Header, vpn) then Header
    else if InRegion(n, Stdin, vpn) then Stdin
    else if InRegion(n, Stdout, vpn) then Stdout
    else if InRegion(n, Stack, vpn) then Stack
    else if InRegion(n, Heap, vpn) then Heap
    else Elsewhere
  }

  // ---- the initial stack ----

  // auxv tags
  const AT_PHDR: nat := 3
  const AT_PHENT: nat := 4
  const AT_PHNUM: nat := 5
  const AT_PAGESZ: nat := 6

  /** aux_t: standard input, standard output (nothing written yet), and the heap. */
  function AuxWords(n: nat): seq<nat>
    requires n <= BUFFER_SIZE
  {
    [StdinVa(n), n, StdoutVa(n), STDOUT_LIMIT, 0, HEAP_VA, HEAP_VA + HEAP_SIZE]
  }

  /** argc, argv, envp and auxv, from the stack pointer up. */
  function StackWords(phdrVa: nat, phent: nat, phnum: nat): seq<nat> {
    [0, 0, 0, AT_PHDR, phdrVa, AT_PHENT, phent, AT_PHNUM, phnum, AT_PAGESZ, PGSIZE, 0, 0]
  }

  /** 64-bit words as they lie in memory. */
  function WordBytes(ws: seq<nat>): (bs: seq<byte>)
    ensures |bs| == 8 * |ws|
  {
    if ws == [] then [] else ToLe(ws[0], 8) + WordBytes(ws[1..])
  }

  lemma {:induction false} WordBack(ws: seq<nat>, i: nat)
    requires i < |ws| && ws[i] < TWO_64
    ensures FromLe(WordBytes(ws)[8 * i..8 * i + 8]) == ws[i]
  {
    if i == 0 {
      assert WordBytes(ws)[0..8] == ToLe(ws[0], 8);
      Pow256Of8();
      FromToLe(ws[0], 8);
    } else {
      WordBack(ws[1..], i - 1);
      assert WordBytes(ws)[8 * i..8 * i + 8] == WordBytes(ws[1..])[8 * (i - 1)..8 * (i - 1) + 8];
    }
  }

  /** The bytes below the 16 that are kept free at the top of the stack. */
  const AUX_OFFSET: nat := 0x1000 - 16 - 56
  const SP_OFFSET: nat := AUX_OFFSET - 104

  function StackPointer(n: nat): (sp: nat)
    requires n <= BUFFER_SIZE
  {
    StdoutVa(n) - PGSIZE + SP_OFFSET
  }

  // ---- the address space at the call to arch_call_user ----

  function PageOf(v: View, vpn: nat): Option<Page> {
    if vpn in v then Some(v[vpn]) else None
  }

  function RegionFlags(r: Region): Flags {
    if r.Header? || r.Stdin? then READ_ONLY else READ_WRITE
  }

  /** The byte at offset o of page vpn of a region. */
  function Content(header: seq<byte>, stdin: seq<byte>, args: seq<byte>, vpn: nat, o: nat): byte
    requires |stdin| <= BUFFER_SIZE
  {
    match RegionOf(|stdin|, vpn)
    case Header => if o < |header| then header[o] else 0
    case Stdin =>
      var i := PGSIZE * (vpn - StdinPage(|stdin|)) + o;
      if i < |stdin| then stdin[i] else 0
    case Stack =>
      if vpn == StdoutPage(|stdin|) - 1 && SP_OFFSET <= o < SP_OFFSET + |args| then args[o - SP_OFFSET] else 0
    case _ => 0
  }

  function ContentFrame(header: seq<byte>, stdin: seq<byte>, args: seq<byte>, vpn: nat): Frame
    requires |stdin| <= BUFFER_SIZE
  {
    seq(PGSIZE, o requires 0 <= o < PGSIZE => Content(header, stdin, args, vpn, o))
  }

  /** Page vpn of the user's address space: as in v outside the regions, and with the
      region's flags and content inside. */
  function UserPage(v: View, header: seq<byte>, stdin: seq<byte>, args: seq<byte>, vpn: nat): Option<Page>
    requires |stdin| <= BUFFER_SIZE
  {
    var r := RegionOf(|stdin|, vpn);
    if r.Elsewhere? then PageOf(v, vpn) else Some(Page(RegionFlags(r), ContentFrame(header, stdin, args, vpn)))
  }

  /** v' is the program's view v with the regions around it. */
  ghost predicate UserView(v: View, v': View, header: seq<byte>, stdin: seq<byte>, args: seq<byte>)
    requires |stdin| <= BUFFER_SIZE
  {
    forall vpn: nat :: PageOf(v', vpn) == UserPage(v, header, stdin, args, vpn)
  }

  /** No segment of the program touches a region. */
  ghost predicate ClearOfRegions(v: View, n: nat)
    requires n <= BUFFER_SIZE
  {
    forall vpn :: vpn in v ==> RegionOf(n, vpn).Elsewhere?
  }

  /** The views do_judge goes through: program, header page, standard input, standard output,
      stack, heap, aux, and the words below it. */
  datatype Steps = Steps(elf: View, header: View, stdin: View, stdout: View, stack: View, heap: View, aux: View,
                         words: View)

  ghost predicate Built(b: Steps, header: seq<byte>, stdin: seq<byte>, words: seq<byte>, aux: seq<byte>) {
    |stdin| <= BUFFER_SIZE && ClearOfRegions(b.elf, |stdin|) && Chain(b, header, stdin, words, aux)
  }

  ghost predicate Chain(b: Steps, header: seq<byte>, stdin: seq<byte>, words: seq<byte>, aux: seq<byte>) {
    var n := |stdin|;
    && n <= BUFFER_SIZE && 0 < |header| <= PGSIZE && |words| == 104 && |aux| == 56
    && CopyOf(b.elf, b.header, ELF_VA, READ_ONLY, header)
    && CopyOf(b.header, b.stdin, StdinVa(n), READ_ONLY, stdin)
    && RangeMapped(b.stdin, b.stdout, StdoutPage(n), StdinPage(n), READ_WRITE)
    && RangeMapped(b.stdout, b.stack, StackPage(n), StdoutPage(n), READ_WRITE)
    && RangeMapped(b.stack, b.heap, HEAP_PAGE, HEAP_PAGE + HEAP_PAGES, READ_WRITE)
    && CopyOf(b.heap, b.aux, StdoutVa(n) - PGSIZE + AUX_OFFSET, READ_WRITE, aux)
    && CopyOf(b.aux, b.words, StackPointer(n), READ_WRITE, words)
  }

  lemma CopyApart(v: View, v': View, va: nat, flags: Flags, src: seq<byte>, vpn: nat)
    requires CopyOf(v, v', va, flags, src) && !Touches(va, |src|, vpn)
    ensures PageOf(v', vpn) == PageOf(v, vpn)
  {
    assert vpn in v' <==> vpn in v;
    if vpn in v {
      forall o: nat | o < PGSIZE
        ensures v'[vpn].bytes[o] == v[vpn].bytes[o]
      {
        OutsidePage(va, |src|, vpn, o);
        assert ByteAt(v', vpn, o) == ByteAt(v, vpn, o);
      }
      assert v'[vpn].bytes == v[vpn].bytes;
    }
  }

  lemma RangeApart(v: View, v': View, lo: nat, hi: nat, flags: Flags, vpn: nat)
    requires RangeMapped(v, v', lo, hi, flags) && !(lo <= vpn < hi)
    ensures PageOf(v', vpn) == PageOf(v, vpn)
  {
    assert vpn in v' <==> vpn in v;
  }

  lemma RangeNew(v: View, v': View, lo: nat, hi: nat, flags: Flags, vpn: nat)
    requires RangeMapped(v, v', lo, hi, flags) && lo <= vpn < hi && vpn !in v
    ensures PageOf(v', vpn) == Some(Page(flags, ZERO_FRAME))
  {
    assert vpn in v';
    assert v'[vpn] == Page(flags, ZERO_FRAME);
  }

  /** A page as a copy leaves it: src where the range covers it, the old bytes elsewhere. */
  function CopiedFrame(before: Frame, va: nat, src: seq<byte>, vpn: nat): Frame {
    seq(PGSIZE, o requires 0 <= o < PGSIZE =>
      if va <= PGSIZE * vpn + o < va + |src| then src[PGSIZE * vpn + o - va] else before[o])
  }

  lemma CopyTouched(v: View, v': View, va: nat, flags: Flags, src: seq<byte>, vpn: nat)
    requires CopyOf(v, v', va, flags, src) && Touches(va, |src|, vpn)
    ensures PageOf(v', vpn) == if vpn in v then Some(v[vpn].(bytes := CopiedFrame(v[vpn].bytes, va, src, vpn)))
                               else Some(Page(flags, CopiedFrame(ZERO_FRAME, va, src, vpn)))
  {
    assert vpn in v';
    var expected := CopiedFrame(if vpn in v then v[vpn].bytes else ZERO_FRAME, va, src, vpn);
    forall o: nat | o < PGSIZE
      ensures v'[vpn].bytes[o] == expected[o]
    {
      assert ByteAt(v', vpn, o) == v'[vpn].bytes[o];
    }
    assert v'[vpn].bytes == expected;
  }

  lemma TouchesOnePage(p: nat, o: nat, len: nat, vpn: nat)
    requires 0 < len && o + len <= PGSIZE
    ensures Touches(PGSIZE * p + o, len, vpn) <==> vpn == p
  {}

  lemma TouchesStdin(n: nat, vpn: nat)
    requires n <= BUFFER_SIZE
    ensures Touches(StdinVa(n), n, vpn) <==> StdinPage(n) <= vpn < HEADER_PAGE
  {
    RegionPages(n);
  }

  /** Which steps touch a page, by its region. */
  lemma TouchedBy(header: seq<byte>, n: nat, vpn: nat)
    requires n <= BUFFER_SIZE && 0 < |header| <= PGSIZE
    ensures Touches(ELF_VA, |header|, vpn) <==> RegionOf(n, vpn).Header?
    ensures Touches(StdinVa(n), n, vpn) <==> RegionOf(n, vpn).Stdin?
    ensures StdoutPage(n) <= vpn < StdinPage(n) <==> RegionOf(n, vpn).Stdout?
    ensures StackPage(n) <= vpn < StdoutPage(n) <==> RegionOf(n, vpn).Stack?
    ensures HEAP_PAGE <= vpn < HEAP_PAGE + HEAP_PAGES <==> RegionOf(n, vpn).Heap?
    ensures Touches(StdoutVa(n) - PGSIZE + AUX_OFFSET, 56, vpn) <==> vpn == StdoutPage(n) - 1
    ensures Touches(StackPointer(n), 104, vpn) <==> vpn == StdoutPage(n) - 1
  {
    RegionPages(n);
    TouchesOnePage(HEADER_PAGE, 0, |header|, vpn);
    TouchesStdin(n, vpn);
    TouchesOnePage(StdoutPage(n) - 1, AUX_OFFSET, 56, vpn);
    TouchesOnePage(StdoutPage(n) - 1, SP_OFFSET, 104, vpn);
  }

  /** The steps after standard input leave pages outside their regions alone. */
  lemma LaterSteps(b: Steps, header: seq<byte>, stdin: seq<byte>, words: seq<byte>, aux: seq<byte>, vpn: nat)
    requires Chain(b, header, stdin, words, aux)
    requires var r := RegionOf(|stdin|, vpn); !r.Stdout? && !r.Stack? && !r.Heap?
    ensures PageOf(b.words, vpn) == PageOf(b.stdin, vpn)
  {
    hide CopyOf, RangeMapped, Touches, RegionOf, InRegion, ClearOfRegions, PageOf;
    var n := |stdin|;
    TouchedBy(header, n, vpn);
    OutsideStack(n, vpn);
    RangeApart(b.stdin, b.stdout, StdoutPage(n), StdinPage(n), READ_WRITE, vpn);
    RangeApart(b.stdout, b.stack, StackPage(n), StdoutPage(n), READ_WRITE, vpn);
    RangeApart(b.stack, b.heap, HEAP_PAGE, HEAP_PAGE + HEAP_PAGES, READ_WRITE, vpn);
    CopyApart(b.heap, b.aux, StdoutVa(n) - PGSIZE + AUX_OFFSET, READ_WRITE, aux, vpn);
    CopyApart(b.aux, b.words, StackPointer(n), READ_WRITE, words, vpn);
  }

  lemma OutsideStack(n: nat, vpn: nat)
    requires n <= BUFFER_SIZE && !RegionOf(n, vpn).Stack?
    ensures vpn != StdoutPage(n) - 1
  {}

  lemma ElsewhereAt(b: Steps, header: seq<byte>, stdin: seq<byte>, words: seq<byte>, aux: seq<byte>, vpn: nat)
    requires Chain(b, header, stdin, words, aux) && RegionOf(|stdin|, vpn).Elsewhere?
    ensures PageOf(b.words, vpn) == PageOf(b.elf, vpn)
  {
    hide CopyOf, RangeMapped, Touches, RegionOf, InRegion, ClearOfRegions, PageOf;
    LaterSteps(b, header, stdin, words, aux, vpn);
    TouchedBy(header, |stdin|, vpn);
    CopyApart(b.elf, b.header, ELF_VA, READ_ONLY, header, vpn);
    CopyApart(b.header, b.stdin, StdinVa(|stdin|), READ_ONLY, stdin, vpn);
  }

  lemma NotInProgram(b: Steps, header: seq<byte>, stdin: seq<byte>, words: seq<byte>, aux: seq<byte>, vpn: nat)
    requires Built(b, header, stdin, words, aux) && !RegionOf(|stdin|, vpn).Elsewhere?
    ensures vpn !in b.elf
  {}

  lemma HeaderAt(b: Steps, header: seq<byte>, stdin: seq<byte>, words: seq<byte>, aux: seq<byte>, vpn: nat)
    requires Built(b, header, stdin, words, aux) && RegionOf(|stdin|, vpn).Header?
    ensures PageOf(b.words, vpn) == Some(Page(READ_ONLY, ContentFrame(header, stdin, words + aux, vpn)))
  {
    hide CopyOf, RangeMapped, Touches, InRegion, ClearOfRegions, CopiedFrame, ContentFrame, RegionOf;
    LaterSteps(b, header, stdin, words, aux, vpn);
    NotInProgram(b, header, stdin, words, aux, vpn);
    TouchedBy(header, |stdin|, vpn);
    CopyTouched(b.elf, b.header, ELF_VA, READ_ONLY, header, vpn);
    CopyApart(b.header, b.stdin, StdinVa(|stdin|), READ_ONLY, stdin, vpn);
    HeaderFrame(header, stdin, words + aux, vpn);
  }

  lemma HeaderFrame(header: seq<byte>, stdin: seq<byte>, args: seq<byte>, vpn: nat)
    requires |stdin| <= BUFFER_SIZE && RegionOf(|stdin|, vpn).Header?
    ensures CopiedFrame(ZERO_FRAME, ELF_VA, header, vpn) == ContentFrame(header, stdin, args, vpn)
  {
    RegionPages(|stdin|);
    assert vpn == HEADER_PAGE;
  }

  lemma StdinAt(b: Steps, header: seq<byte>, stdin: seq<byte>, words: seq<byte>, aux: seq<byte>, vpn: nat)
    requires Built(b, header, stdin, words, aux) && RegionOf(|stdin|, vpn).Stdin?
    ensures PageOf(b.words, vpn) == Some(Page(READ_ONLY, ContentFrame(header, stdin, words + aux, vpn)))
  {
    hide CopyOf, RangeMapped, Touches, InRegion, ClearOfRegions, CopiedFrame, ContentFrame, RegionOf;
    LaterSteps(b, header, stdin, words, aux, vpn);
    NotInProgram(b, header, stdin, words, aux, vpn);
    TouchedBy(header, |stdin|, vpn);
    CopyApart(b.elf, b.header, ELF_VA, READ_ONLY, header, vpn);
    CopyTouched(b.header, b.stdin, StdinVa(|stdin|), READ_ONLY, stdin, vpn);
    StdinFrame(header, stdin, words + aux, vpn);
  }

  lemma StdinFrame(header: seq<byte>, stdin: seq<byte>, args: seq<byte>, vpn: nat)
    requires |stdin| <= BUFFER_SIZE && RegionOf(|stdin|, vpn).Stdin?
    ensures CopiedFrame(ZERO_FRAME, StdinVa(|stdin|), stdin, vpn) == ContentFrame(header, stdin, args, vpn)
  {
    RegionPages(|stdin|);
    assert StdinPage(|stdin|) <= vpn;
  }

  /** The steps before the ranges are mapped leave pages of the other regions unmapped. */
  lemma EarlierSteps(b: Steps, header: seq<byte>, stdin: seq<byte>, words: seq<byte>, aux: seq<byte>, vpn: nat)
    requires Built(b, header, stdin, words, aux)
    requires var r := RegionOf(|stdin|, vpn); r.Stdout? || r.Stack? || r.Heap?
    ensures PageOf(b.stdin, vpn).None?
  {
    hide CopyOf, RangeMapped, Touches, InRegion, ClearOfRegions, RegionOf;
    NotInProgram(b, header, stdin, words, aux, vpn);
    TouchedBy(header, |stdin|, vpn);
    CopyApart(b.elf, b.header, ELF_VA, READ_ONLY, header, vpn);
    CopyApart(b.header, b.stdin, StdinVa(|stdin|), READ_ONLY, stdin, vpn);
  }

  /** The three mapped ranges are zeroed pages. */
  lemma RangesAt(b: Steps, header: seq<byte>, stdin: seq<byte>, words: seq<byte>, aux: seq<byte>, vpn: nat)
    requires Built(b, header, stdin, words, aux)
    requires var r := RegionOf(|stdin|, vpn); r.Stdout? || r.Stack? || r.Heap?
    ensures PageOf(b.heap, vpn) == Some(Page(READ_WRITE, ZERO_FRAME))
  {
    hide CopyOf, RangeMapped, Touches, InRegion, ClearOfRegions, RegionOf;
    var n := |stdin|;
    EarlierSteps(b, header, stdin, words, aux, vpn);
    TouchedBy(header, n, vpn);
    if RegionOf(n, vpn).Stdout? {
      RangeNew(b.stdin, b.stdout, StdoutPage(n), StdinPage(n), READ_WRITE, vpn);
      RangeApart(b.stdout, b.stack, StackPage(n), StdoutPage(n), READ_WRITE, vpn);
      RangeApart(b.stack, b.heap, HEAP_PAGE, HEAP_PAGE + HEAP_PAGES, READ_WRITE, vpn);
    } else {
      RangeApart(b.stdin, b.stdout, StdoutPage(n), StdinPage(n), READ_WRITE, vpn);
      if RegionOf(n, vpn).Stack? {
        RangeNew(b.stdout, b.stack, StackPage(n), StdoutPage(n), READ_WRITE, vpn);
        RangeApart(b.stack, b.heap, HEAP_PAGE, HEAP_PAGE + HEAP_PAGES, READ_WRITE, vpn);
      } else {
        RangeApart(b.stdout, b.stack, StackPage(n), StdoutPage(n), READ_WRITE, vpn);
        RangeNew(b.stack, b.heap, HEAP_PAGE, HEAP_PAGE + HEAP_PAGES, READ_WRITE, vpn);
      }
    }
  }

  lemma ZeroPages(b: Steps, header: seq<byte>, stdin: seq<byte>, words: seq<byte>, aux: seq<byte>, vpn: nat)
    requires Built(b, header, stdin, words, aux)
    requires var r := RegionOf(|stdin|, vpn); r.Stdout? || r.Stack? || r.Heap?
    requires vpn != StdoutPage(|stdin|) - 1
    ensures PageOf(b.words, vpn) == Some(Page(READ_WRITE, ContentFrame(header, stdin, words + aux, vpn)))
  {
    hide CopyOf, RangeMapped, Touches, InRegion, ClearOfRegions, RegionOf, PageOf, ContentFrame;
    var n := |stdin|;
    RangesAt(b, header, stdin, words, aux, vpn);
    TouchedBy(header, n, vpn);
    CopyApart(b.heap, b.aux, StdoutVa(n) - PGSIZE + AUX_OFFSET, READ_WRITE, aux, vpn);
    CopyApart(b.aux, b.words, StackPointer(n), READ_WRITE, words, vpn);
    ZeroContent(header, stdin, words + aux, vpn);
  }

  lemma ZeroContent(header: seq<byte>, stdin: seq<byte>, args: seq<byte>, vpn: nat)
    requires |stdin| <= BUFFER_SIZE && vpn != StdoutPage(|stdin|) - 1
    requires var r := RegionOf(|stdin|, vpn); r.Stdout? || r.Stack? || r.Heap?
    ensures ContentFrame(header, stdin, args, vpn) == ZERO_FRAME
  {}

  /** The top page of the stack carries the words and aux. */
  lemma TopOfStack(b: Steps, header: seq<byte>, stdin: seq<byte>, words: seq<byte>, aux: seq<byte>)
    requires Built(b, header, stdin, words, aux)
    ensures var vpn := StdoutPage(|stdin|) - 1;
            PageOf(b.words, vpn) == Some(Page(READ_WRITE, ContentFrame(header, stdin, words + aux, vpn)))
  {
    hide CopyOf, RangeMapped, Touches, ClearOfRegions, CopiedFrame, ContentFrame;
    var n, vpn := |stdin|, StdoutPage(|stdin|) - 1;
    assert RegionOf(n, vpn).Stack?;
    RangesAt(b, header, stdin, words, aux, vpn);
    TouchedBy(header, n, vpn);
    CopyTouched(b.heap, b.aux, StdoutVa(n) - PGSIZE + AUX_OFFSET, READ_WRITE, aux, vpn);
    CopyTouched(b.aux, b.words, StackPointer(n), READ_WRITE, words, vpn);
    TopFrame(header, stdin, words, aux);
  }

  lemma TopFrame(header: seq<byte>, stdin: seq<byte>, words: seq<byte>, aux: seq<byte>)
    requires |stdin| <= BUFFER_SIZE && |words| == 104 && |aux| == 56
    ensures var n, vpn := |stdin|, StdoutPage(|stdin|) - 1;
            CopiedFrame(CopiedFrame(ZERO_FRAME, StdoutVa(n) - PGSIZE + AUX_OFFSET, aux, vpn), StackPointer(n), words,
              vpn)
            == ContentFrame(header, stdin, words + aux, vpn)
  {
    var n, vpn := |stdin|, StdoutPage(|stdin|) - 1;
    RegionPages(n);
    assert RegionOf(n, vpn).Stack?;
    assert StackPointer(n) == PGSIZE * vpn + SP_OFFSET && StdoutVa(n) - PGSIZE == PGSIZE * vpn;
  }

  /** At the call to arch_call_user, for every length of standard input the buffer can hold
      and every program clear of the regions: the program is where it was loaded, and every
      region holds exactly its content. */
  lemma BuiltIsUserView(b: Steps, header: seq<byte>, stdin: seq<byte>, words: seq<byte>, aux: seq<byte>)
    requires |stdin| <= BUFFER_SIZE && Built(b, header, stdin, words, aux)
    ensures UserView(b.elf, b.words, header, stdin, words + aux)
  {
    hide Chain, ClearOfRegions, ContentFrame, PageOf, StdoutPage;
    forall vpn: nat
      ensures PageOf(b.words, vpn) == UserPage(b.elf, header, stdin, words + aux, vpn)
    {
      match RegionOf(|stdin|, vpn)
      case Elsewhere => ElsewhereAt(b, header, stdin, words, aux, vpn);
      case Header => HeaderAt(b, header, stdin, words, aux, vpn);
      case Stdin => StdinAt(b, header, stdin, words, aux, vpn);
      case _ =>
        if vpn == StdoutPage(|stdin|) - 1 {
          TopOfStack(b, header, stdin, words, aux);
        } else {
          ZeroPages(b, header, stdin, words, aux, vpn);
        }
    }
  }

  // ---- what the program finds at its stack pointer ----

  /** The 64-bit word the user reads at va, which lies inside one page. */
  function UserWord(v: View, va: nat): Option<nat> {
    match PageOf(v, va / PGSIZE)
    case None => None
    case Some(p) => if va % PGSIZE + 8 <= PGSIZE then Some(FromLe(p.bytes[va % PGSIZE..va % PGSIZE + 8])) else None
  }

  lemma StackPointerAligned(n: nat)
    requires n <= BUFFER_SIZE
    ensures StackPointer(n) % 16 == 0
    ensures StackPointer(n) == PGSIZE * (StdoutPage(n) - 1) + SP_OFFSET
  {
    RegionPages(n);
  }

  /** The word i of the arguments, whatever program was loaded. */
  lemma ArgumentWord(b: Steps, header: seq<byte>, stdin: seq<byte>, words: seq<byte>, aux: seq<byte>, ws: seq<nat>,
                     i: nat)
    requires Chain(b, header, stdin, words, aux) && words + aux == WordBytes(ws)
    requires |ws| == 20 && i < 20 && ws[i] < TWO_64
    ensures |stdin| <= BUFFER_SIZE && UserWord(b.words, StackPointer(|stdin|) + 8 * i) == Some(ws[i])
  {
    hide CopyOf, RangeMapped, WordBytes, StackPointer, StdoutPage, ToLe, FromLe;
    var n := |stdin|;
    var vpn, o := StdoutPage(n) - 1, SP_OFFSET + 8 * i;
    StackPointerAligned(n);
    InPage(vpn, o);
    TopBytes(b, header, stdin, words, aux);
    SliceOfSlice(b.words[vpn].bytes, SP_OFFSET, 160, 8 * i, 8);
    WordBack(ws, i);
  }

  lemma InPage(p: nat, o: nat)
    requires o < PGSIZE
    ensures (PGSIZE * p + o) / PGSIZE == p && (PGSIZE * p + o) % PGSIZE == o
  {}

  lemma TopBytes(b: Steps, header: seq<byte>, stdin: seq<byte>, words: seq<byte>, aux: seq<byte>)
    requires Chain(b, header, stdin, words, aux)
    ensures var vpn := StdoutPage(|stdin|) - 1;
            vpn in b.words && b.words[vpn].bytes[SP_OFFSET..SP_OFFSET + 160] == words + aux
  {
    hide CopyOf, RangeMapped, Touches, CopiedFrame, StdoutPage, StdoutVa, StackPointer;
    var n, vpn := |stdin|, StdoutPage(|stdin|) - 1;
    TouchedBy(header, n, vpn);
    TopVa(n);
    CopyTouched(b.heap, b.aux, StdoutVa(n) - PGSIZE + AUX_OFFSET, READ_WRITE, aux, vpn);
    CopyTouched(b.aux, b.words, StackPointer(n), READ_WRITE, words, vpn);
    CopiedTwice(if vpn in b.heap then b.heap[vpn].bytes else ZERO_FRAME, n, words, aux);
  }

  lemma TopVa(n: nat)
    requires n <= BUFFER_SIZE
    ensures StdoutVa(n) >= PGSIZE && StdoutVa(n) - PGSIZE == PGSIZE * (StdoutPage(n) - 1)
    ensures StackPointer(n) == PGSIZE * (StdoutPage(n) - 1) + SP_OFFSET
  {
    RegionPages(n);
  }

  lemma CopiedTwice(f: Frame, n: nat, words: seq<byte>, aux: seq<byte>)
    requires n <= BUFFER_SIZE && |words| == 104 && |aux| == 56 && StdoutVa(n) >= PGSIZE
    ensures var vpn := StdoutPage(n) - 1;
            CopiedFrame(CopiedFrame(f, StdoutVa(n) - PGSIZE + AUX_OFFSET, aux, vpn), StackPointer(n), words, vpn)
              [SP_OFFSET..SP_OFFSET + 160] == words + aux
  {
    TopVa(n);
  }

  lemma {:induction false} WordBytesConcat(ws: seq<nat>, us: seq<nat>)
    ensures WordBytes(ws + us) == WordBytes(ws) + WordBytes(us)
  {
    if ws == [] {
      assert ws + us == us;
    } else {
      assert (ws + us)[1..] == ws[1..] + us;
      WordBytesConcat(ws[1..], us);
    }
  }
}
