/** How much memory do_judge needs before the user program: when it is free, the program is run. */
module JudgeBudget {
  import opened Bytes
  import opened AddressSpace
  import opened Budget
  import opened CopyIn
  import opened ElfImage
  import opened ElfLoad
  import opened JudgeBuild
  import opened JudgeLayout
  import opened JudgeRequest
  import PageAllocator

  lemma CreateTakes(s: State)
    requires Idle(s) && Room(s, 1)
    ensures var (s', root) := CreatePt(s);
            root != 0 && Inv(s', root) && Takes(s, s', 1)
  {
    hide PageAllocator.GetFreePage, PageAllocator.Valid, Inv, ViewOf;
    CreatePtSpec(s);
    PageTakes(s.mm);
  }

  /** Create_pt, the image, and the header page. */
  lemma ProgramTakes(s: State, elf: seq<byte>)
    requires Idle(s) && |elf| < TWO_64 && HeaderCheck(elf) == 0 && SegmentsCheck(Phdrs(elf), |elf|) == 0
    requires Room(s, 1 + (3 * ImagePages(Phdrs(elf)) + 3))
    ensures var (s', ret, root) := BuildProgram(s, elf);
            ret == 0 && Takes(s, s', 1 + (3 * ImagePages(Phdrs(elf)) + 3))
  {
    hide Inv, Grows, AnyFree, ViewOf, HeaderCheck, LoadElf, MapAndCopy, CreatePt, CopyOf, Loaded, Phdrs, SegmentsCheck,
         ImagePages, ElfCheck, Span, PageAllocator.Valid;
    var k := 3 * ImagePages(Phdrs(elf));
    CreateTakes(s);
    var (s1, root) := CreatePt(s);
    RoomLeft(s, s1, 1, k + 3);
    LoadElfResult(s1, root, elf);
    LoadElfTakes(s1, root, elf);
    var s2 := LoadElf(s1, root, elf).0;
    RoomLeft(s1, s2, k, 3);
    var h := HeaderPage(elf);
    HeaderSpan(elf);
    MapAndCopyTakes(s2, root, ELF_VA, READ_ONLY, h);
    var s3 := MapAndCopy(s2, root, ELF_VA, READ_ONLY, h).0;
    TakesMore(s1, s2, s3, k, 3);
    TakesMore(s, s1, s3, 1, k + 3);
  }

  lemma HeaderSpan(elf: seq<byte>)
    requires |elf| < TWO_64 && HeaderCheck(elf) == 0
    ensures Span(ELF_VA, |HeaderPage(elf)|) == 1
  {
    ErrorsDiffer(elf);
  }

  lemma ZeroedTakes(s: State, root: nat, n: nat)
    requires root != 0 && Inv(s, root) && n <= BUFFER_SIZE
    requires Room(s, 3 * STDOUT_PAGES + (3 * STACK_PAGES + 3 * HEAP_PAGES))
    ensures var (s', ok) := BuildZeroed(s, root, n);
            ok && Takes(s, s', 3 * STDOUT_PAGES + (3 * STACK_PAGES + 3 * HEAP_PAGES))
  {
    hide Inv, Grows, AnyFree, ViewOf, MapRange, RangeMapped;
    RegionPages(n);
    MapRangeSpec(s, root, StdoutPage(n), StdinPage(n), READ_WRITE);
    MapRangeTakes(s, root, StdoutPage(n), StdinPage(n), READ_WRITE);
    var s1 := MapRange(s, root, StdoutPage(n), StdinPage(n), READ_WRITE).0;
    RoomLeft(s, s1, 3 * STDOUT_PAGES, 3 * STACK_PAGES + 3 * HEAP_PAGES);
    MapRangeSpec(s1, root, StackPage(n), StdoutPage(n), READ_WRITE);
    MapRangeTakes(s1, root, StackPage(n), StdoutPage(n), READ_WRITE);
    var s2 := MapRange(s1, root, StackPage(n), StdoutPage(n), READ_WRITE).0;
    RoomLeft(s1, s2, 3 * STACK_PAGES, 3 * HEAP_PAGES);
    MapRangeTakes(s2, root, HEAP_PAGE, HEAP_PAGE + HEAP_PAGES, READ_WRITE);
    var s3 := MapRange(s2, root, HEAP_PAGE, HEAP_PAGE + HEAP_PAGES, READ_WRITE).0;
    TakesMore(s1, s2, s3, 3 * STACK_PAGES, 3 * HEAP_PAGES);
    TakesMore(s, s1, s3, 3 * STDOUT_PAGES, 3 * STACK_PAGES + 3 * HEAP_PAGES);
  }

  const ZEROED: nat := 3 * STDOUT_PAGES + (3 * STACK_PAGES + 3 * HEAP_PAGES)

  lemma StdinSpan(n: nat)
    requires n <= BUFFER_SIZE
    ensures Span(StdinVa(n), n) == StdinPages(n) && StdinVa(n) >= 0 && StdinVa(n) + n <= VA_LIMIT
  {
    RegionPages(n);
  }

  lemma RegionsTake(s: State, root: nat, stdin: seq<byte>)
    requires root != 0 && Inv(s, root) && |stdin| <= BUFFER_SIZE && Room(s, 3 * StdinPages(|stdin|) + ZEROED)
    ensures BuildRegions(s, root, stdin).1 == 0
  {
    hide Inv, Grows, AnyFree, ViewOf, MapAndCopy, CopyOf, BuildZeroed, Span, StdinVa, StdinPages;
    StdinSpan(|stdin|);
    MapAndCopySpec(s, root, StdinVa(|stdin|), READ_ONLY, stdin);
    RoomForFirst(s, 3 * StdinPages(|stdin|), ZEROED);
    MapAndCopyTakes(s, root, StdinVa(|stdin|), READ_ONLY, stdin);
    var s1 := MapAndCopy(s, root, StdinVa(|stdin|), READ_ONLY, stdin).0;
    RoomLeft(s, s1, 3 * StdinPages(|stdin|), ZEROED);
    ZeroedTakes(s1, root, |stdin|);
  }

  lemma RoomForFirst(s: State, j: nat, k: nat)
    requires Room(s, j + k)
    ensures Room(s, j)
  {}

  /** One frame for the root table and three for every page of the image, of standard input and of the
      regions of fixed size. */
  function Need(elf: seq<byte>, stdin: seq<byte>): nat
    requires |elf| < TWO_64 && HeaderCheck(elf) == 0
  {
    1 + (3 * ImagePages(Phdrs(elf)) + 3) + (3 * StdinPages(|stdin|) + ZEROED)
  }

  /** When both files have arrived without an error, and that many frames are free, do_judge gets to
      the user program. */
  lemma EnoughMemory(s: State, elf: seq<byte>, stdin: seq<byte>)
    requires Idle(s) && |elf| <= BUFFER_SIZE && |stdin| <= BUFFER_SIZE
    requires HeaderCheck(elf) == 0 && SegmentsCheck(Phdrs(elf), |elf|) == 0 && Room(s, Need(elf, stdin))
    ensures Build(s, Received(elf), Received(stdin)).1 == 0
  {
    hide Inv, Grows, AnyFree, ViewOf, HeaderCheck, BuildProgram, BuildRegions, BuildStack, Phdrs, SegmentsCheck,
         ImagePages, Idle, ElfCheck, StdinPages, StdoutPage;
    var j, k := 1 + (3 * ImagePages(Phdrs(elf)) + 3), 3 * StdinPages(|stdin|) + ZEROED;
    RoomForFirst(s, j, k);
    ProgramTakes(s, elf);
    BuildProgramSpec(s, elf);
    var (s1, ret, root) := BuildProgram(s, elf);
    RoomLeft(s, s1, j, k);
    RegionsTake(s1, root, stdin);
  }

  /** So a request with such files is answered with the report of its run. */
  lemma EnoughMemoryRuns(s: State, q: Request, r: Reply)
    requires Idle(s) && Sound(q.elf) && Sound(q.stdin) && Judged(s, q, r)
    requires q.elf.Received? && q.stdin.Received? && |q.elf.data| < TWO_64 && FirstError(q.elf, q.stdin) == 0
    requires HeaderCheck(q.elf.data) == 0 ==> Room(s, Need(q.elf.data, q.stdin.data))
    ensures r.ran
  {
    hide Idle, HeaderCheck, SegmentsCheck, Phdrs, Need, Build, Reported, Inv;
    EnoughMemory(s, q.elf.data, q.stdin.data);
  }
}
