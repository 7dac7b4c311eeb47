/** do_judge (judge.c) up to the call of arch_call_user, on values. */
module JudgeBuild {
  import opened Bytes
  import opened Sv39
  import opened PageTable
  import opened AddressSpace
  import opened CopyIn
  import opened ElfImage
  import opened ElfLoad
  import opened Errors
  import opened JudgeLayout
  import PageAllocator

  /** What tftp_get_file comes back with: an error, or a file in the receive buffer. */
  datatype Download = Failed(code: int) | Received(data: seq<byte>)

  /** What a download delivers: an error, or a file that fits the buffer. */
  ghost predicate Sound(d: Download) {
    match d case Failed(code) => code < 0 case Received(data) => |data| <= BUFFER_SIZE
  }

  /** The machine at the start of a request: no page table yet. */
  ghost predicate Idle(s: State) {
    PageAllocator.Valid(s.mm) && |s.mem| == s.mm.size <= MAX_FRAMES
  }

  /** The part of the file copied to the header page. */
  function HeaderPage(elf: seq<byte>): (h: seq<byte>)
    ensures |h| <= PGSIZE && (elf != [] ==> h != [])
  {
    if |elf| < PGSIZE then elf else elf[..PGSIZE]
  }

  /** argc, argv, envp and auxv for a program. */
  function StackBytes(elf: seq<byte>): seq<byte>
    requires EHDR_SIZE <= |elf|
  {
    WordBytes(StackWords(Add64(PhOff(elf), ELF_VA), PhEntSize(elf), PhNum(elf)))
  }

  // ---- the steps ----

  /** The program and its header page: create_pt, load_elf, and the first page of the file at
      the top of user space. The state, the return value so far, and the table. */
  function BuildProgram(s: State, elf: seq<byte>): (State, int, nat)
    requires Idle(s) && |elf| < TWO_64
  {
    CreatePtSpec(s);
    var (s1, root) := CreatePt(s);
    LoadElfSpec(s1, root, elf);
    var (s2, ret) := LoadElf(s1, root, elf);
    if ret < 0 then (s2, ret, root)
    else
      var (s3, done) := MapAndCopy(s2, root, ELF_VA, READ_ONLY, HeaderPage(elf));
      (s3, if done == |HeaderPage(elf)| then 0 else -EOOM, root)
  }

  /** Standard output, stack and heap around a program with n bytes of standard input. */
  function BuildZeroed(s: State, root: nat, n: nat): (State, bool)
    requires root != 0 && Inv(s, root) && n <= BUFFER_SIZE
  {
    MapRangeSpec(s, root, StdoutPage(n), StdinPage(n), READ_WRITE);
    var (s1, ok1) := MapRange(s, root, StdoutPage(n), StdinPage(n), READ_WRITE);
    if !ok1 then (s1, false)
    else
      MapRangeSpec(s1, root, StackPage(n), StdoutPage(n), READ_WRITE);
      var (s2, ok2) := MapRange(s1, root, StackPage(n), StdoutPage(n), READ_WRITE);
      if !ok2 then (s2, false) else MapRange(s2, root, HEAP_PAGE, HEAP_PAGE + HEAP_PAGES, READ_WRITE)
  }

  /** Standard input, standard output, stack and heap. */
  function BuildRegions(s: State, root: nat, stdin: seq<byte>): (State, int)
    requires root != 0 && Inv(s, root) && |stdin| <= BUFFER_SIZE
  {
    MapAndCopySpec(s, root, StdinVa(|stdin|), READ_ONLY, stdin);
    var (s1, done) := MapAndCopy(s, root, StdinVa(|stdin|), READ_ONLY, stdin);
    if done < |stdin| then (s1, -EOOM)
    else
      var (s2, ok) := BuildZeroed(s1, root, |stdin|);
      (s2, if ok then 0 else -EOOM)
  }

  /** The initial stack in its page, which is mapped already: aux, and below it the words. */
  function BuildStack(s: State, root: nat, n: nat, elf: seq<byte>): State
    requires root != 0 && Inv(s, root) && n <= BUFFER_SIZE && EHDR_SIZE <= |elf|
    requires StdoutPage(n) - 1 in ViewOf(s.mem, root)
  {
    var (s1, page) := MapPage(s, root, StdoutVa(n) - 0x10, READ_WRITE);
    StackPageFound(s, root, n);
    var s2 := Write(s1, page, AUX_OFFSET, WordBytes(AuxWords(n)));
    Write(s2, page, SP_OFFSET, StackBytes(elf))
  }

  /** do_judge up to arch_call_user: the state, the return value so far (0 when the program is
      to be run), and the table (0 if there is none). */
  function Build(s: State, elf: Download, stdin: Download): (State, int, nat)
    requires Idle(s) && Sound(elf) && Sound(stdin)
  {
    if elf.Failed? then (s, elf.code, 0)
    else
      var (s1, ret1, root) := BuildProgram(s, elf.data);
      if ret1 < 0 then (s1, ret1, root)
      else if stdin.Failed? then (s1, stdin.code, root)
      else
        BuildProgramSpec(s, elf.data);
        var (s2, ret2) := BuildRest(s1, root, elf.data, stdin.data);
        (s2, ret2, root)
  }

  /** The regions and the stack around the program. */
  function BuildRest(s: State, root: nat, elf: seq<byte>, stdin: seq<byte>): (State, int)
    requires root != 0 && Inv(s, root) && EHDR_SIZE <= |elf| && |stdin| <= BUFFER_SIZE
  {
    hide BuildRegions, Inv, ViewOf, StdoutPage;
    var (s1, ret) := BuildRegions(s, root, stdin);
    if ret < 0 then (s1, ret)
    else
      StackIsMapped(s, root, stdin);
      (BuildStack(s1, root, |stdin|, elf), 0)
  }

  // ---- the stack page ----

  lemma TopOfStackPage(n: nat)
    requires n <= BUFFER_SIZE
    ensures StdoutVa(n) == PGSIZE * StdoutPage(n) && StdoutVa(n) >= PGSIZE
    ensures Vpn(StdoutVa(n) - 0x10) == StdoutPage(n) - 1
  {
    RegionPages(n);
    VpnIsPage(StdoutVa(n) - 0x10);
  }

  lemma MappedHasFrame(s: State, root: nat, vpn: nat)
    requires vpn in ViewOf(s.mem, root)
    ensures vpn < VPNS && Node(s.mem, root, 3, vpn).Some?
  {}

  /** map_page of the stack page finds its frame, and nothing changes. */
  lemma StackPageFound(s: State, root: nat, n: nat)
    requires root != 0 && Inv(s, root) && n <= BUFFER_SIZE && StdoutPage(n) - 1 in ViewOf(s.mem, root)
    ensures Node(s.mem, root, 3, StdoutPage(n) - 1).Some? && Node(s.mem, root, 3, StdoutPage(n) - 1).value < |s.mem|
    ensures StdoutVa(n) >= 0x10
    ensures MapPage(s, root, StdoutVa(n) - 0x10, READ_WRITE) == (s, Node(s.mem, root, 3, StdoutPage(n) - 1).value)
  {
    hide Inv, MapPage, StdoutPage, StdoutVa, ViewOf, Node;
    TopOfStackPage(n);
    MappedHasFrame(s, root, StdoutPage(n) - 1);
    MapPageAgain(s, root, StdoutVa(n) - 0x10, READ_WRITE);
    MappedIsDataPage(s, root, StdoutPage(n) - 1, Node(s.mem, root, 3, StdoutPage(n) - 1).value);
  }

  // ---- what the steps come to ----

  ghost predicate OutOfMemory(ret: int, s: State) {
    ret == -EOOM && !AnyFree(s)
  }

  lemma {:induction false} SegmentsCheckValues(phs: seq<Phdr>, len: nat)
    ensures SegmentsCheck(phs, len) in {0, -EOOB, -EBADPKT}
  {
    if phs != [] {
      SegmentsCheckValues(phs[1..], len);
    }
  }

  /** The loader's own errors are negative and none of them is -EOOM. */
  lemma ErrorsDiffer(elf: seq<byte>)
    requires |elf| < TWO_64
    ensures HeaderCheck(elf) in {0, -EOOB, -EBADPKT, -ENOIMPL}
    ensures HeaderCheck(elf) == 0 ==> SegmentsCheck(Phdrs(elf), |elf|) in {0, -EOOB, -EBADPKT}
    ensures HeaderCheck(elf) == 0 ==> elf != []
  {
    if HeaderCheck(elf) == 0 {
      SegmentsCheckValues(Phdrs(elf), |elf|);
    }
  }

  /** The program's part of the checks, as one error code. */
  function ElfCheck(elf: seq<byte>): int
    requires |elf| < TWO_64
  {
    if HeaderCheck(elf) != 0 then HeaderCheck(elf) else SegmentsCheck(Phdrs(elf), |elf|)
  }

  lemma ElfCheckValues(elf: seq<byte>)
    requires |elf| < TWO_64
    ensures ElfCheck(elf) <= 0 && ElfCheck(elf) != -EOOM
    ensures ElfCheck(elf) == 0 ==> HeaderCheck(elf) == 0 && elf != [] && EHDR_SIZE <= |elf|
  {
    hide SegmentsCheck, Phdrs;
    ErrorsDiffer(elf);
  }

  lemma LoadElfResult(s: State, root: nat, elf: seq<byte>)
    requires Proper(s, root) && |elf| < TWO_64
    ensures var (s', ret) := LoadElf(s, root, elf);
            && Kept(s, s', root) && ret <= 0
            && (ret == ElfCheck(elf) || (ret == -EOOM && HeaderCheck(elf) == 0 && Exhausted(s', root)))
            && (ret == 0 && root != 0 ==>
                  && HeaderCheck(elf) == 0
                  && Loaded(ViewOf(s.mem, root), ViewOf(s'.mem, root), elf, Phdrs(elf)))
  {
    hide Inv, Grows, AnyFree, ViewOf, Loaded, HeaderCheck, Phdrs, SegmentsCheck, LoadElf, AllGood;
    LoadElfSpec(s, root, elf);
    ErrorsDiffer(elf);
  }

  /** The error of the first step that fails, with -EOOM only when no page is free. */
  lemma BuildProgramSpec(s: State, elf: seq<byte>)
    requires Idle(s) && |elf| < TWO_64
    ensures var (s', ret, root) := BuildProgram(s, elf);
            && (ret == ElfCheck(elf) || OutOfMemory(ret, s')) && ret <= 0
            && (root == 0 ==> s' == s && ret != 0)
            && (root != 0 ==> Inv(s', root) && Grows(CreatePt(s).0, s', root) && CreatePt(s).1 == root)
            && (ret == 0 ==> ElfCheck(elf) == 0 && EHDR_SIZE <= |elf|)
  {
    hide Inv, Grows, AnyFree, ViewOf, HeaderCheck, LoadElf, MapAndCopy, CreatePt, CopyOf, ElfCheck, Loaded;
    CreatePtSpec(s);
    var (s1, root) := CreatePt(s);
    LoadElfResult(s1, root, elf);
    ElfCheckValues(elf);
    var (s2, ret) := LoadElf(s1, root, elf);
    if ret == 0 {
      MapAndCopySpec(s2, root, ELF_VA, READ_ONLY, HeaderPage(elf));
      KeptTransitive(s1, s2, MapAndCopy(s2, root, ELF_VA, READ_ONLY, HeaderPage(elf)).0, root);
    }
  }

  /** With no error the program is loaded, and its header page is on top of it. */
  lemma ProgramBuilt(s: State, elf: seq<byte>) returns (program: View)
    requires Idle(s) && |elf| < TWO_64 && BuildProgram(s, elf).1 == 0
    ensures var (s', ret, root) := BuildProgram(s, elf);
            && HeaderCheck(elf) == 0 && Loaded(map[], program, elf, Phdrs(elf))
            && CopyOf(program, ViewOf(s'.mem, root), ELF_VA, READ_ONLY, HeaderPage(elf))
  {
    hide Inv, Grows, AnyFree, ViewOf, HeaderCheck, LoadElf, MapAndCopy, CreatePt, CopyOf, ElfCheck, Loaded, Phdrs;
    CreatePtSpec(s);
    var (s1, root) := CreatePt(s);
    LoadElfResult(s1, root, elf);
    var (s2, ret) := LoadElf(s1, root, elf);
    program := ViewOf(s2.mem, root);
    ElfCheckValues(elf);
    var h := HeaderPage(elf);
    MapAndCopySpec(s2, root, ELF_VA, READ_ONLY, h);
    assert h[..|h|] == h;
  }

  /** The part of the chain BuildRegions adds. */
  ghost predicate RegionsMapped(b: Steps, v: View, v': View, stdin: seq<byte>)
  {
    var n := |stdin|;
    && n <= BUFFER_SIZE && b.heap == v'
    && CopyOf(v, b.stdin, StdinVa(n), READ_ONLY, stdin)
    && RangeMapped(b.stdin, b.stdout, StdoutPage(n), StdinPage(n), READ_WRITE)
    && RangeMapped(b.stdout, b.stack, StackPage(n), StdoutPage(n), READ_WRITE)
    && RangeMapped(b.stack, b.heap, HEAP_PAGE, HEAP_PAGE + HEAP_PAGES, READ_WRITE)
  }

  lemma BuildZeroedSpec(s: State, root: nat, n: nat) returns (stdout: View, stack: View)
    requires root != 0 && Inv(s, root) && n <= BUFFER_SIZE
    ensures var (s', ok) := BuildZeroed(s, root, n);
            && Inv(s', root) && Grows(s, s', root)
            && if ok then
                 && RangeMapped(ViewOf(s.mem, root), stdout, StdoutPage(n), StdinPage(n), READ_WRITE)
                 && RangeMapped(stdout, stack, StackPage(n), StdoutPage(n), READ_WRITE)
                 && RangeMapped(stack, ViewOf(s'.mem, root), HEAP_PAGE, HEAP_PAGE + HEAP_PAGES, READ_WRITE)
               else !AnyFree(s')
  {
    hide Inv, Grows, AnyFree, ViewOf, MapRange, RangeMapped, StdoutPage, StdinPage, StackPage;
    stdout, stack := map[], map[];
    RegionPages(n);
    MapRangeSpec(s, root, StdoutPage(n), StdinPage(n), READ_WRITE);
    var (s1, ok1) := MapRange(s, root, StdoutPage(n), StdinPage(n), READ_WRITE);
    if ok1 {
      stdout := ViewOf(s1.mem, root);
      MapRangeSpec(s1, root, StackPage(n), StdoutPage(n), READ_WRITE);
      var (s2, ok2) := MapRange(s1, root, StackPage(n), StdoutPage(n), READ_WRITE);
      GrowsTransitive(s, s1, s2, root);
      if ok2 {
        stack := ViewOf(s2.mem, root);
        MapRangeSpec(s2, root, HEAP_PAGE, HEAP_PAGE + HEAP_PAGES, READ_WRITE);
        GrowsTransitive(s, s2, MapRange(s2, root, HEAP_PAGE, HEAP_PAGE + HEAP_PAGES, READ_WRITE).0, root);
      }
    }
  }

  lemma BuildRegionsSpec(s: State, root: nat, stdin: seq<byte>) returns (b: Steps)
    requires root != 0 && Inv(s, root) && |stdin| <= BUFFER_SIZE
    ensures var (s', ret) := BuildRegions(s, root, stdin);
            && Inv(s', root) && Grows(s, s', root) && ret <= 0
            && (ret == 0 ==> RegionsMapped(b, ViewOf(s.mem, root), ViewOf(s'.mem, root), stdin))
            && (ret != 0 ==> OutOfMemory(ret, s'))
  {
    hide Inv, Grows, AnyFree, ViewOf, MapAndCopy, CopyOf, RangeMapped, BuildZeroed, StdoutPage, StdinPage, StackPage,
         StdinVa;
    var v := ViewOf(s.mem, root);
    b := Steps(v, v, v, v, v, v, v, v);
    StdinInReach(|stdin|);
    MapAndCopySpec(s, root, StdinVa(|stdin|), READ_ONLY, stdin);
    var (s1, done) := MapAndCopy(s, root, StdinVa(|stdin|), READ_ONLY, stdin);
    if done == |stdin| {
      assert stdin[..done] == stdin;
      var stdout, stack := BuildZeroedSpec(s1, root, |stdin|);
      var (s2, ok) := BuildZeroed(s1, root, |stdin|);
      GrowsTransitive(s, s1, s2, root);
      b := b.(stdin := ViewOf(s1.mem, root), stdout := stdout, stack := stack, heap := ViewOf(s2.mem, root));
    }
  }

  lemma StdinInReach(n: nat)
    requires n <= BUFFER_SIZE
    ensures StdinVa(n) + n <= VA_LIMIT && StdinVa(n) >= 0
  {}

  lemma StackIsMapped(s: State, root: nat, stdin: seq<byte>)
    requires root != 0 && Inv(s, root) && |stdin| <= BUFFER_SIZE && BuildRegions(s, root, stdin).1 >= 0
    ensures var s' := BuildRegions(s, root, stdin).0;
            Inv(s', root) && StdoutPage(|stdin|) - 1 in ViewOf(s'.mem, root)
  {
    hide Inv, ViewOf, BuildRegions, CopyOf, StdoutPage, StackPage, StdinPage;
    var b := BuildRegionsSpec(s, root, stdin);
    BelowStdout(|stdin|);
    assert StdoutPage(|stdin|) - 1 in b.stack;
  }

  lemma BelowStdout(n: nat)
    requires n <= BUFFER_SIZE
    ensures StackPage(n) <= StdoutPage(n) - 1 < StdoutPage(n)
  {}

  lemma PokeIsCopy(s: State, root: nat, vpn: nat, page: nat, o: nat, bs: seq<byte>)
    requires Inv(s, root) && vpn < VPNS && vpn in ViewOf(s.mem, root) && page < |s.mem|
    requires Node(s.mem, root, 3, vpn) == Some(page) && 0 < |bs| && o + |bs| <= PGSIZE
    ensures var s' := Write(s, page, o, bs);
            && Inv(s', root) && Grows(s, s', root) && Node(s'.mem, root, 3, vpn) == Some(page)
            && vpn in ViewOf(s'.mem, root)
            && CopyOf(ViewOf(s.mem, root), ViewOf(s'.mem, root), PGSIZE * vpn + o, READ_WRITE, bs)
  {
    hide Inv, Grows, CopyOf, ViewOf, Node;
    MappedIsDataPage(s, root, vpn, page);
    WriteInv(s, root, vpn, page, o, bs);
    WriteView(s, root, vpn, page, o, bs);
    WriteNode(s, root, vpn, page, o, bs, 3, vpn);
    InPage(vpn, o);
    WrittenIsCopy(ViewOf(s.mem, root), PGSIZE * vpn + o, READ_WRITE, bs);
  }

  /** What is written through the physical cursor is read at the virtual one. */
  lemma BuildStackSpec(s: State, root: nat, n: nat, elf: seq<byte>) returns (aux: View)
    requires root != 0 && Inv(s, root) && n <= BUFFER_SIZE && EHDR_SIZE <= |elf|
    requires StdoutPage(n) - 1 in ViewOf(s.mem, root)
    ensures var s' := BuildStack(s, root, n, elf);
            && Inv(s', root) && Grows(s, s', root)
            && Node(s'.mem, root, 3, StdoutPage(n) - 1) == Node(s.mem, root, 3, StdoutPage(n) - 1)
            && CopyOf(ViewOf(s.mem, root), aux, StdoutVa(n) - PGSIZE + AUX_OFFSET, READ_WRITE, WordBytes(AuxWords(n)))
            && CopyOf(aux, ViewOf(s'.mem, root), StackPointer(n), READ_WRITE, StackBytes(elf))
  {
    hide Inv, Grows, CopyOf, ViewOf, StdoutPage, StdoutVa, WordBytes, Node, MapPage, Write;
    TopOfStackPage(n);
    StackPointerAligned(n);
    StackPageFound(s, root, n);
    var vpn, page := StdoutPage(n) - 1, Node(s.mem, root, 3, StdoutPage(n) - 1).value;
    var s1 := Write(s, page, AUX_OFFSET, WordBytes(AuxWords(n)));
    PokeIsCopy(s, root, vpn, page, AUX_OFFSET, WordBytes(AuxWords(n)));
    aux := ViewOf(s1.mem, root);
    SameMemorySize(s, page, AUX_OFFSET, WordBytes(AuxWords(n)));
    PokeIsCopy(s1, root, vpn, page, SP_OFFSET, StackBytes(elf));
    GrowsTransitive(s, s1, Write(s1, page, SP_OFFSET, StackBytes(elf)), root);
  }

  lemma SameMemorySize(s: State, page: nat, o: nat, bs: seq<byte>)
    requires page < |s.mem| && o + |bs| <= PGSIZE
    ensures |Write(s, page, o, bs).mem| == |s.mem|
  {}

  // ---- the whole ----

  /** The first error there is, memory aside. */
  function FirstError(elf: Download, stdin: Download): int
    requires elf.Received? ==> |elf.data| < TWO_64
  {
    if elf.Failed? then elf.code
    else if ElfCheck(elf.data) != 0 then ElfCheck(elf.data)
    else if stdin.Failed? then stdin.code
    else 0
  }

  lemma SoundSize(d: Download)
    requires Sound(d)
    ensures d.Received? ==> |d.data| <= BUFFER_SIZE < TWO_64
    ensures d.Failed? ==> d.code < 0
  {}

  /** The program is run exactly when both files have arrived, every check has passed and memory
      suffices. Otherwise the result is the first error, or -EOOM with no page free; a header
      that is refused is reported as such even then. Frames taken before stay untouched. */
  lemma BuildSpec(s: State, elf: Download, stdin: Download)
    requires Idle(s) && Sound(elf) && Sound(stdin)
    ensures elf.Received? ==> |elf.data| < TWO_64
    ensures var (s', ret, root) := Build(s, elf, stdin);
            && ret <= 0 && Untouched(s, s', root)
            && (ret == FirstError(elf, stdin) || OutOfMemory(ret, s'))
            && (elf.Failed? ==> ret == elf.code)
            && (elf.Received? && HeaderCheck(elf.data) != 0 ==> ret == HeaderCheck(elf.data))
            && (ret == 0 ==> FirstError(elf, stdin) == 0 && root != 0 && Inv(s', root))
  {
    hide Inv, Grows, AnyFree, ViewOf, HeaderCheck, BuildProgram, BuildRest, CreatePt, Untouched, SegmentsCheck, Phdrs,
         Sound;
    SoundSize(elf);
    SoundSize(stdin);
    if elf.Failed? {
      NothingTouched(s);
    } else {
      CreatePtSpec(s);
      BuildProgramSpec(s, elf.data);
      if HeaderCheck(elf.data) != 0 {
        HeaderFirst(s, elf.data);
      }
      var (s1, ret1, root) := BuildProgram(s, elf.data);
      if root == 0 {
        NothingTouched(s);
      } else {
        CreateThenGrow(s, CreatePt(s).0, s1, root);
        if ret1 == 0 && stdin.Received? {
          RestSpec(s1, root, elf.data, stdin.data);
          UntouchedThenGrows(s, s1, BuildRest(s1, root, elf.data, stdin.data).0, root);
        }
      }
    }
  }

  lemma NothingTouched(s: State)
    requires Idle(s)
    ensures Untouched(s, s, 0)
  {}

  lemma HeaderFirst(s: State, elf: seq<byte>)
    requires Idle(s) && |elf| < TWO_64 && HeaderCheck(elf) != 0
    ensures BuildProgram(s, elf).1 == HeaderCheck(elf)
  {
    hide Inv, Grows, AnyFree, ViewOf, HeaderCheck, MapAndCopy, CreatePt, Phdrs, SegmentsCheck;
    CreatePtSpec(s);
    ErrorsDiffer(elf);
  }

  lemma RestSpec(s: State, root: nat, elf: seq<byte>, stdin: seq<byte>)
    requires root != 0 && Inv(s, root) && EHDR_SIZE <= |elf| && |stdin| <= BUFFER_SIZE
    ensures var (s', ret) := BuildRest(s, root, elf, stdin);
            && Inv(s', root) && Grows(s, s', root) && ret <= 0 && (ret != 0 ==> OutOfMemory(ret, s'))
  {
    hide Inv, Grows, AnyFree, ViewOf, BuildRegions, BuildStack, StdoutPage;
    var b := BuildRegionsSpec(s, root, stdin);
    var (s1, ret) := BuildRegions(s, root, stdin);
    if ret == 0 {
      StackIsMapped(s, root, stdin);
      var aux := BuildStackSpec(s1, root, |stdin|, elf);
      GrowsTransitive(s, s1, BuildStack(s1, root, |stdin|, elf), root);
    }
  }

  /** Then the address space is the chain of views that BuiltIsUserView is about, and the stack
      page, which holds aux, is mapped. */
  lemma AddressSpaceBuilt(s: State, elf: Download, stdin: Download) returns (b: Steps)
    requires Idle(s) && Sound(elf) && Sound(stdin) && Build(s, elf, stdin).1 == 0
    ensures var (s', ret, root) := Build(s, elf, stdin);
            && elf.Received? && stdin.Received? && Started(b, elf.data, stdin.data)
            && ViewOf(s'.mem, root) == b.words
            && StdoutPage(|stdin.data|) - 1 in ViewOf(s'.mem, root)
  {
    hide Inv, Grows, AnyFree, ViewOf, HeaderCheck, BuildProgram, BuildRest, StdoutPage, Loaded, Phdrs, CopyOf, Sound,
         Started, ElfCheck;
    SoundSize(elf);
    SoundSize(stdin);
    BuildProgramSpec(s, elf.data);
    var (s1, ret1, root) := BuildProgram(s, elf.data);
    var program := ProgramBuilt(s, elf.data);
    b := RestBuilt(s1, root, elf.data, stdin.data, program);
  }

  lemma RestBuilt(s: State, root: nat, elf: seq<byte>, stdin: seq<byte>, program: View) returns (b: Steps)
    requires root != 0 && Inv(s, root) && EHDR_SIZE <= |elf| <= BUFFER_SIZE && |stdin| <= BUFFER_SIZE
    requires HeaderCheck(elf) == 0
    requires Loaded(map[], program, elf, Phdrs(elf))
    requires CopyOf(program, ViewOf(s.mem, root), ELF_VA, READ_ONLY, HeaderPage(elf))
    requires BuildRest(s, root, elf, stdin).1 == 0
    ensures var s' := BuildRest(s, root, elf, stdin).0;
            && Started(b, elf, stdin) && ViewOf(s'.mem, root) == b.words && StdoutPage(|stdin|) - 1 in b.words
  {
    hide Inv, Grows, AnyFree, ViewOf, HeaderCheck, BuildRegions, BuildStack, Node, StdoutPage, Loaded, Phdrs, CopyOf,
         RegionsMapped, Started, HeaderPage, WordBytes, Field;
    b := BuildRegionsSpec(s, root, stdin);
    var s2 := BuildRegions(s, root, stdin).0;
    StackIsMapped(s, root, stdin);
    var aux := BuildStackSpec(s2, root, |stdin|, elf);
    var s3 := BuildStack(s2, root, |stdin|, elf);
    HeapIsLast(b, ViewOf(s.mem, root), ViewOf(s2.mem, root), stdin);
    b := b.(elf := program, header := ViewOf(s.mem, root), aux := aux, words := ViewOf(s3.mem, root));
    IsStarted(b, elf, stdin);
    StackStays(s2, s3, root, StdoutPage(|stdin|) - 1);
  }

  lemma HeapIsLast(b: Steps, v: View, v': View, stdin: seq<byte>)
    requires RegionsMapped(b, v, v', stdin)
    ensures b.heap == v'
    ensures forall elf, header, aux, words ::
              RegionsMapped(b.(elf := elf, header := header, aux := aux, words := words), v, v', stdin)
  {
    hide CopyOf, RangeMapped, StdoutPage, StdinPage, StackPage, StdinVa;
  }

  lemma StackStays(s: State, s': State, root: nat, vpn: nat)
    requires Inv(s', root) && vpn in ViewOf(s.mem, root) && Node(s'.mem, root, 3, vpn) == Node(s.mem, root, 3, vpn)
    ensures vpn in ViewOf(s'.mem, root)
  {
    hide Inv, ViewOf, Node;
    MappedHasFrame(s, root, vpn);
    FrameOfPage(s', root, vpn, Node(s.mem, root, 3, vpn).value);
  }

  /** b are the views of an address space built from the two files. */
  ghost predicate Started(b: Steps, elf: seq<byte>, stdin: seq<byte>) {
    && |elf| <= BUFFER_SIZE && |stdin| <= BUFFER_SIZE && HeaderCheck(elf) == 0
    && Loaded(map[], b.elf, elf, Phdrs(elf))
    && Chain(b, HeaderPage(elf), stdin, StackBytes(elf), WordBytes(AuxWords(|stdin|)))
  }

  lemma IsStarted(b: Steps, elf: seq<byte>, stdin: seq<byte>)
    requires |elf| <= BUFFER_SIZE && |stdin| <= BUFFER_SIZE && HeaderCheck(elf) == 0 && EHDR_SIZE <= |elf|
    requires Loaded(map[], b.elf, elf, Phdrs(elf)) && CopyOf(b.elf, b.header, ELF_VA, READ_ONLY, HeaderPage(elf))
    requires RegionsMapped(b, b.header, b.heap, stdin)
    requires CopyOf(b.heap, b.aux, StdoutVa(|stdin|) - PGSIZE + AUX_OFFSET, READ_WRITE, WordBytes(AuxWords(|stdin|)))
    requires CopyOf(b.aux, b.words, StackPointer(|stdin|), READ_WRITE, StackBytes(elf))
    ensures Started(b, elf, stdin)
  {
    hide Loaded, CopyOf, RangeMapped, Phdrs, StdoutPage, StdinPage, StackPage, StdoutVa, StdinVa, StackPointer;
    assert |StackBytes(elf)| == 104;
    assert elf != [];
  }
}
