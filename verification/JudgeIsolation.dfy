/** No request can tell what another one has left in memory: do_judge gives the same reply on two
    machines that agree on the frames taken before it. */
module JudgeIsolation {
  import opened Bytes
  import opened Sv39
  import opened PageTable
  import opened AddressSpace
  import opened CopyIn
  import opened ElfImage
  import opened ElfLoad
  import opened Isolation
  import opened JudgeBuild
  import opened JudgeLayout
  import opened JudgeRequest
  import opened Trap
  import CountPt
  import TftpWrite
  import UserProgram
  import UserRun

  // ---- building the address space ----

  lemma AgreeIdle(s: State, t: State)
    requires Idle(s) && Agree(s, t)
    ensures Idle(t) && Sized(s)
  {}

  lemma AgreeProgram(s: State, t: State, elf: seq<byte>)
    requires Idle(s) && Agree(s, t) && |elf| < TWO_64
    ensures Idle(t)
    ensures BuildProgram(t, elf).1 == BuildProgram(s, elf).1 && BuildProgram(t, elf).2 == BuildProgram(s, elf).2
    ensures Agree(BuildProgram(s, elf).0, BuildProgram(t, elf).0)
  {
    hide Inv, Agree, ViewOf, Grows, AnyFree, LoadElf, MapAndCopy, CreatePt, HeaderCheck, CopyOf, Idle, Sized, Loaded,
         Phdrs, SegmentsCheck, ElfCheck;
    AgreeIdle(s, t);
    AgreeCreatePt(s, t);
    CreatedProper(s);
    CreatedProper(t);
    var (s1, root) := CreatePt(s);
    var t1 := CreatePt(t).0;
    AgreeLoadElf(s1, t1, root, elf);
    LoadElfResult(s1, root, elf);
    LoadElfResult(t1, root, elf);
    var (s2, ret) := LoadElf(s1, root, elf);
    if ret >= 0 {
      AgreeMapAndCopy(s2, LoadElf(t1, root, elf).0, root, ELF_VA, READ_ONLY, HeaderPage(elf));
    }
  }

  lemma CreatedProper(s: State)
    requires Idle(s)
    ensures Sized(s) && Proper(CreatePt(s).0, CreatePt(s).1)
  {
    hide Inv, CreatePt;
    CreatePtSpec(s);
  }

  lemma AgreeZeroed(s: State, t: State, root: nat, n: nat)
    requires root != 0 && Inv(s, root) && Agree(s, t) && n <= BUFFER_SIZE
    ensures Inv(t, root)
    ensures BuildZeroed(t, root, n).1 == BuildZeroed(s, root, n).1
    ensures Agree(BuildZeroed(s, root, n).0, BuildZeroed(t, root, n).0)
  {
    hide Inv, Agree, ViewOf, Grows, AnyFree, MapRange, RangeMapped, StdoutPage, StdinPage, StackPage;
    RegionPages(n);
    AgreeMapRange(s, t, root, StdoutPage(n), StdinPage(n), READ_WRITE);
    MapRangeSpec(s, root, StdoutPage(n), StdinPage(n), READ_WRITE);
    MapRangeSpec(t, root, StdoutPage(n), StdinPage(n), READ_WRITE);
    var (s1, ok1) := MapRange(s, root, StdoutPage(n), StdinPage(n), READ_WRITE);
    var t1 := MapRange(t, root, StdoutPage(n), StdinPage(n), READ_WRITE).0;
    if ok1 {
      AgreeMapRange(s1, t1, root, StackPage(n), StdoutPage(n), READ_WRITE);
      MapRangeSpec(s1, root, StackPage(n), StdoutPage(n), READ_WRITE);
      MapRangeSpec(t1, root, StackPage(n), StdoutPage(n), READ_WRITE);
      var (s2, ok2) := MapRange(s1, root, StackPage(n), StdoutPage(n), READ_WRITE);
      if ok2 {
        AgreeMapRange(s2, MapRange(t1, root, StackPage(n), StdoutPage(n), READ_WRITE).0, root,
                      HEAP_PAGE, HEAP_PAGE + HEAP_PAGES, READ_WRITE);
      }
    }
  }

  lemma AgreeRegions(s: State, t: State, root: nat, stdin: seq<byte>)
    requires root != 0 && Inv(s, root) && Agree(s, t) && |stdin| <= BUFFER_SIZE
    ensures Inv(t, root)
    ensures BuildRegions(t, root, stdin).1 == BuildRegions(s, root, stdin).1
    ensures Agree(BuildRegions(s, root, stdin).0, BuildRegions(t, root, stdin).0)
  {
    hide Inv, Agree, ViewOf, Grows, AnyFree, MapAndCopy, BuildZeroed, CopyOf, StdinVa;
    StdinInReach(|stdin|);
    AgreeMapAndCopy(s, t, root, StdinVa(|stdin|), READ_ONLY, stdin);
    MapAndCopySpec(s, root, StdinVa(|stdin|), READ_ONLY, stdin);
    MapAndCopySpec(t, root, StdinVa(|stdin|), READ_ONLY, stdin);
    var (s1, done) := MapAndCopy(s, root, StdinVa(|stdin|), READ_ONLY, stdin);
    if done == |stdin| {
      AgreeZeroed(s1, MapAndCopy(t, root, StdinVa(|stdin|), READ_ONLY, stdin).0, root, |stdin|);
    }
  }

  lemma AgreeStack(s: State, t: State, root: nat, n: nat, elf: seq<byte>)
    requires root != 0 && Inv(s, root) && Agree(s, t) && n <= BUFFER_SIZE && EHDR_SIZE <= |elf|
    requires StdoutPage(n) - 1 in ViewOf(s.mem, root)
    ensures Inv(t, root) && StdoutPage(n) - 1 in ViewOf(t.mem, root)
    ensures Agree(BuildStack(s, root, n, elf), BuildStack(t, root, n, elf))
  {
    hide Inv, Agree, ViewOf, MapPage, Write, Node, StdoutPage, StdoutVa, WordBytes;
    TopOfStackPage(n);
    AgreeInv(s, t, root);
    AgreeMapPage(s, t, root, StdoutVa(n) - 0x10, READ_WRITE);
    StackPageFound(s, root, n);
    StackPageFound(t, root, n);
    var page := Node(s.mem, root, 3, StdoutPage(n) - 1).value;
    AgreeWrite(s, t, page, AUX_OFFSET, WordBytes(AuxWords(n)));
    SameMemorySize(s, page, AUX_OFFSET, WordBytes(AuxWords(n)));
    AgreeWrite(Write(s, page, AUX_OFFSET, WordBytes(AuxWords(n))), Write(t, page, AUX_OFFSET, WordBytes(AuxWords(n))),
               page, SP_OFFSET, StackBytes(elf));
  }

  lemma AgreeRest(s: State, t: State, root: nat, elf: seq<byte>, stdin: seq<byte>)
    requires root != 0 && Inv(s, root) && Agree(s, t) && EHDR_SIZE <= |elf| && |stdin| <= BUFFER_SIZE
    ensures Inv(t, root)
    ensures BuildRest(t, root, elf, stdin).1 == BuildRest(s, root, elf, stdin).1
    ensures Agree(BuildRest(s, root, elf, stdin).0, BuildRest(t, root, elf, stdin).0)
  {
    hide Inv, Agree, ViewOf, BuildRegions, BuildStack, StdoutPage;
    AgreeRegions(s, t, root, stdin);
    var (s1, ret) := BuildRegions(s, root, stdin);
    if ret >= 0 {
      StackIsMapped(s, root, stdin);
      AgreeStack(s1, BuildRegions(t, root, stdin).0, root, |stdin|, elf);
    }
  }

  /** The address space is built with the same return value in the same frames. */
  lemma AgreeBuild(s: State, t: State, elf: Download, stdin: Download)
    requires Idle(s) && Agree(s, t) && Sound(elf) && Sound(stdin)
    ensures Idle(t)
    ensures Build(t, elf, stdin).1 == Build(s, elf, stdin).1 && Build(t, elf, stdin).2 == Build(s, elf, stdin).2
    ensures Agree(Build(s, elf, stdin).0, Build(t, elf, stdin).0)
  {
    hide Inv, Agree, ViewOf, Grows, AnyFree, BuildProgram, BuildRest, Idle, Sound, ElfCheck;
    AgreeIdle(s, t);
    SoundSize(elf);
    SoundSize(stdin);
    if elf.Received? {
      AgreeProgram(s, t, elf.data);
      var (s1, ret, root) := BuildProgram(s, elf.data);
      if ret >= 0 && stdin.Received? {
        BuildProgramSpec(s, elf.data);
        AgreeRest(s1, BuildProgram(t, elf.data).0, root, elf.data, stdin.data);
      }
    }
  }

  // ---- the run ----

  lemma AgreePage(s: State, t: State, root: nat, vpn: nat)
    requires Inv(s, root) && Agree(s, t) && vpn < VPNS
    ensures PageAt(t.mem, root, vpn) == PageAt(s.mem, root, vpn)
    ensures Node(t.mem, root, 3, vpn) == Node(s.mem, root, 3, vpn)
  {
    hide Inv, Agree, Node, ViewOf;
    AgreeTree(s, t, root);
    assert InTree(3, vpn);
    PageInView(s.mem, root, vpn);
    PageInView(t.mem, root, vpn);
  }

  lemma AgreeFault(s: State, t: State, root: nat, va: nat, kind: Kind)
    requires root != 0 && Inv(s, root) && Agree(s, t)
    ensures Inv(t, root)
    ensures PageFault(t, root, va, kind).1 == PageFault(s, root, va, kind).1
    ensures Agree(PageFault(s, root, va, kind).0, PageFault(t, root, va, kind).0)
  {
    hide Inv, Agree, PtIdx, ViewOf, Decide, GetPte;
    AgreeGetPte(s, t, root, va);
    PteTaken(s, root, va);
    PteTaken(t, root, va);
    var (s1, t1) := GetPte(s, root, va);
    if t1 != 0 {
      AgreeDecide(s1, GetPte(t, root, va).0, t1, PtIdx(0, va), kind);
    }
  }

  lemma AgreeDecide(s: State, t: State, f: nat, i: nat, kind: Kind)
    requires Agree(s, t) && f < |s.mem| && s.mm.bits[f] && i < ENTRIES
    ensures Decide(t, f, i, kind).1 == Decide(s, f, i, kind).1
    ensures Agree(Decide(s, f, i, kind).0, Decide(t, f, i, kind).0)
  {
    hide StoreEntry, Touch, HandlerGrants, PteFlags;
    AgreeEntry(s, t, f, i);
  }

  lemma AgreeAttempt(s: State, t: State, root: nat, va: nat, kind: Kind)
    requires root != 0 && Inv(s, root) && Agree(s, t)
    ensures Inv(t, root)
    ensures Attempt(t, root, va, kind).1 == Attempt(s, root, va, kind).1
    ensures Attempt(t, root, va, kind).2 == Attempt(s, root, va, kind).2
    ensures Agree(Attempt(s, root, va, kind).0, Attempt(t, root, va, kind).0)
  {
    hide Inv, Agree, ViewOf, PageFault, PageAt, Completes, Vpn, Canonical, Handles;
    AgreeFault(s, t, root, va, kind);
    AgreePage(s, t, root, Vpn(va));
    FaultKeeps(s, root, va, kind);
    AgreePage(PageFault(s, root, va, kind).0, PageFault(t, root, va, kind).0, root, Vpn(va));
  }

  lemma FaultKeeps(s: State, root: nat, va: nat, kind: Kind)
    requires root != 0 && Inv(s, root)
    ensures Inv(PageFault(s, root, va, kind).0, root)
  {
    hide Inv, Grows, ViewOf, PageFault, Vpn;
    PageFaultSpec(s, root, va, kind);
  }

  lemma AgreePerform(s: State, t: State, root: nat, a: Access)
    requires root != 0 && Inv(s, root) && Agree(s, t)
    ensures Inv(t, root)
    ensures Perform(t, root, a).1 == Perform(s, root, a).1 && Perform(t, root, a).2 == Perform(s, root, a).2
    ensures Agree(Perform(s, root, a).0, Perform(t, root, a).0)
  {
    hide Inv, Agree, ViewOf, Attempt, PageAt, Vpn, StoreAt;
    AgreeAttempt(s, t, root, a.va, a.kind);
    var (s1, traps, ending) := Attempt(s, root, a.va, a.kind);
    if ending.Done? && a.kind.Store? {
      StoreTarget(s, root, a);
      StoreTarget(t, root, a);
      AgreeStore(s1, Attempt(t, root, a.va, a.kind).0, root, a);
    }
  }

  lemma AgreeStore(s: State, t: State, root: nat, a: Access)
    requires Inv(s, root) && Inv(t, root) && Agree(s, t) && a.kind.Store?
    requires PageAt(s.mem, root, Vpn(a.va)).Some? && PageAt(t.mem, root, Vpn(a.va)).Some?
    ensures Agree(StoreAt(s, root, a), StoreAt(t, root, a))
  {
    hide Inv, Agree, Vpn, Write, Node;
    AgreePage(s, t, root, Vpn(a.va));
    MappedIsDataPage(s, root, Vpn(a.va), Node(s.mem, root, 3, Vpn(a.va)).value);
    AgreeWrite(s, t, Node(s.mem, root, 3, Vpn(a.va)).value, a.va % PGSIZE, a.bytes);
  }

  /** The same accesses have the same effect. */
  lemma {:induction false} AgreeRun(s: State, t: State, root: nat, accesses: seq<Access>)
    requires root != 0 && Inv(s, root) && Agree(s, t)
    ensures Inv(t, root)
    ensures UserRun.Run(t, root, accesses).1 == UserRun.Run(s, root, accesses).1
    ensures UserRun.Run(t, root, accesses).2 == UserRun.Run(s, root, accesses).2
    ensures UserRun.Run(t, root, accesses).3 == UserRun.Run(s, root, accesses).3
    ensures Agree(UserRun.Run(s, root, accesses).0, UserRun.Run(t, root, accesses).0)
    decreases |accesses|
  {
    hide Inv, Agree, ViewOf, Grows, Perform, Granted, Allowed, AfterAccess;
    AgreeInv(s, t, root);
    if accesses != [] {
      AgreePerform(s, t, root, accesses[0]);
      PerformSpec(s, root, accesses[0]);
      PerformSpec(t, root, accesses[0]);
      var (s1, traps, ending) := Perform(s, root, accesses[0]);
      if ending.Done? {
        AgreeRun(s1, Perform(t, root, accesses[0]).0, root, accesses[1..]);
      }
    }
  }

  lemma AgreeRead(s: State, t: State, root: nat, a: Access)
    requires root != 0 && Inv(s, root) && Agree(s, t)
    ensures UserProgram.ReadBy(t.mem, root, a) == UserProgram.ReadBy(s.mem, root, a)
  {
    hide Inv, Agree, Vpn, ReadFrom;
    AgreePage(s, t, root, Vpn(a.va));
  }

  /** Every load reads the same bytes, so the program goes on in the same way. */
  lemma {:induction false} AgreeAccesses(s: State, t: State, root: nat, program: UserProgram.Program,
                                         read: seq<seq<byte>>, steps: nat)
    requires root != 0 && Inv(s, root) && Agree(s, t)
    ensures Inv(t, root)
    ensures UserProgram.Accesses(t, root, program, read, steps) == UserProgram.Accesses(s, root, program, read, steps)
    decreases steps
  {
    hide Inv, Agree, ViewOf, Grows, Perform, Granted, Allowed, AfterAccess, UserProgram.ReadBy;
    AgreeInv(s, t, root);
    if steps > 0 && program(read).Some? {
      var a := program(read).value;
      AgreePerform(s, t, root, a);
      PerformSpec(s, root, a);
      PerformSpec(t, root, a);
      var (s1, traps, ending) := Perform(s, root, a);
      if ending.Done? {
        var t1 := Perform(t, root, a).0;
        AgreeRead(s1, t1, root, a);
        AgreeAccesses(s1, t1, root, program, read + [UserProgram.ReadBy(s1.mem, root, a)], steps - 1);
      }
    }
  }

  // ---- the reply ----

  lemma AgreeUpload(s: State, t: State, root: nat, n: nat, q: Request, r: Reply)
    requires Inv(s, root) && Agree(s, t) && n <= BUFFER_SIZE && Uploaded(s, root, n, q, r)
    ensures Uploaded(t, root, n, q, r)
  {
    hide Inv, ViewOf, Node, OutputFile, TftpWrite.RunClient, TftpWrite.Sent, StdoutPage;
    var vpn := StdoutPage(n) - 1;
    BelowTop(n);
    AgreeTree(s, t, root);
    assert InTree(3, vpn);
    TakenNode(s, root, 3, vpn);
  }

  lemma BelowTop(n: nat)
    requires n <= BUFFER_SIZE
    ensures 0 <= StdoutPage(n) - 1 < VPNS
  {
    RegionPages(n);
  }

  lemma AgreeReport(s: State, t: State, root: nat, n: nat, q: Request, r: Reply)
    requires root != 0 && Inv(s, root) && Inv(t, root) && Agree(s, t) && n <= BUFFER_SIZE && Reported(s, root, n, q, r)
    ensures Reported(t, root, n, q, r)
  {
    hide Inv, Agree, ViewOf, Grows, UserRun.Run, Uploaded, UserRun.RanTo, UserRun.UsedPages, CountPt.PagesWith,
         UserProgram.Accesses;
    AgreeInv(s, t, root);
    var accesses := AccessesOf(s, root, q);
    AgreeAccesses(s, t, root, q.program, [], q.steps);
    AgreeRun(s, t, root, accesses);
    UserRun.RunSpec(s, root, accesses);
    AgreeUpload(UserRun.Run(s, root, accesses).0, UserRun.Run(t, root, accesses).0, root, n, q, r);
  }

  /** A reply depends on the request and on the frames that were taken before, and on nothing an
      earlier request may have left in the others. */
  lemma AgreeJudged(s: State, t: State, q: Request, r: Reply)
    requires Idle(s) && Agree(s, t) && Sound(q.elf) && Sound(q.stdin) && Judged(s, q, r)
    ensures Idle(t) && Judged(t, q, r)
  {
    hide Inv, Agree, ViewOf, Idle, Sound, Build, Reported;
    AgreeBuild(s, t, q.elf, q.stdin);
    var (s1, ret, root) := Build(s, q.elf, q.stdin);
    if ret == 0 {
      var t1 := Build(t, q.elf, q.stdin).0;
      AgreeInv(s1, t1, root);
      AgreeReport(s1, t1, root, |q.stdin.data|, q, r);
    }
  }
}
