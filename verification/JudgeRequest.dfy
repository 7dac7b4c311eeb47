/** One request from beginning to end: do_judge, and the bracket of mm_take_snapshot and
    mm_restore_snapshot that judge_entry puts around it. */
module JudgeRequest {
  import opened Bytes
  import opened Sv39
  import opened PageTable
  import opened AddressSpace
  import opened CopyIn
  import opened JudgeBuild
  import opened JudgeLayout
  import opened JudgeOutput
  import opened JudgeUpload
  import opened TftpBlocks
  import opened Tftp
  import opened TftpWrite
  import CountPt
  import ElfImage
  import Judge
  import TftpWriteNet
  import Trap
  import TrapHandler
  import UserProgram
  import UserRun

  // ---- the output region ----

  /** Standard output and the page above it, where its end may lie. */
  predicate OutputPage(n: nat, vpn: nat)
    requires n <= BUFFER_SIZE
  {
    StdoutPage(n) <= vpn <= StdinPage(n)
  }

  ghost predicate OutputMapped(v: View, n: nat)
    requires n <= BUFFER_SIZE
  {
    forall vpn: nat :: OutputPage(n, vpn) ==> vpn in v
  }

  lemma BuiltOutput(b: Steps, header: seq<byte>, stdin: seq<byte>, words: seq<byte>, aux: seq<byte>)
    requires Chain(b, header, stdin, words, aux)
    ensures OutputMapped(b.words, |stdin|)
  {
    var n := |stdin|;
    RegionPages(n);
    forall vpn: nat | OutputPage(n, vpn)
      ensures vpn in b.words
    {
      OutputPageMapped(b, header, stdin, words, aux, vpn);
    }
  }

  lemma OutputPageMapped(b: Steps, header: seq<byte>, stdin: seq<byte>, words: seq<byte>, aux: seq<byte>, vpn: nat)
    requires Chain(b, header, stdin, words, aux) && OutputPage(|stdin|, vpn)
    ensures vpn in b.words
  {
    hide OutputPage, Touches, StdoutPage, StdinPage, StackPage, ByteAt;
    var n := |stdin|;
    EndOfOutput(header, n, vpn);
    assert vpn in b.header || vpn in b.stdin || vpn in b.stdout;
    assert vpn in b.stdout ==> vpn in b.stack;
    assert vpn in b.stack ==> vpn in b.heap;
    assert vpn in b.heap ==> vpn in b.aux;
  }

  lemma EndOfOutput(header: seq<byte>, n: nat, vpn: nat)
    requires 0 < |header| && n <= BUFFER_SIZE && OutputPage(n, vpn)
    ensures Touches(ELF_VA, |header|, vpn) || Touches(StdinVa(n), n, vpn) || StdoutPage(n) <= vpn < StdinPage(n)
  {
    RegionPages(n);
  }

  lemma BlockInOutput(n: nat, len: nat, k: nat)
    requires n <= BUFFER_SIZE && len <= STDOUT_LIMIT && CHUNK * k <= len
    ensures StdoutVa(n) % CHUNK == 0
    ensures BlockPage(StdoutVa(n), k) < VPNS && OutputPage(n, BlockPage(StdoutVa(n), k))
  {
    RegionPages(n);
    PageDistance(StdoutPage(n), CHUNK * k);
  }

  lemma PageDistance(p: nat, o: nat)
    requires o <= STDOUT_LIMIT
    ensures p <= (PGSIZE * p + o) / PGSIZE <= p + STDOUT_PAGES && (PGSIZE * p) % CHUNK == 0
  {}

  lemma OutputReadable(v: View, n: nat, len: nat)
    requires n <= BUFFER_SIZE && len <= STDOUT_LIMIT && OutputMapped(v, n)
    ensures Readable(v, StdoutVa(n), len)
  {
    hide StdoutVa, OutputPage, BlockPage;
    BlockInOutput(n, len, 0);
    forall k: nat | k <= len / CHUNK
      ensures BlockPage(StdoutVa(n), k) < VPNS && BlockPage(StdoutVa(n), k) in v
    {
      BlockInOutput(n, len, k);
    }
  }

  /** Operations never unmap the output region. */
  lemma GrowsKeepsOutput(s: State, s': State, root: nat, n: nat)
    requires Inv(s, root) && Inv(s', root) && Grows(s, s', root) && n <= BUFFER_SIZE
    requires OutputMapped(ViewOf(s.mem, root), n)
    ensures OutputMapped(ViewOf(s'.mem, root), n)
  {
    hide Inv, Grows, ViewOf, OutputPage;
    forall vpn: nat | OutputPage(n, vpn)
      ensures vpn in ViewOf(s'.mem, root)
    {
      assert vpn in ViewOf(s.mem, root);
      GrowsKeepsPage(s, s', root, vpn);
    }
  }

  lemma GrowsKeepsPage(s: State, s': State, root: nat, vpn: nat)
    requires Inv(s, root) && Inv(s', root) && Grows(s, s', root) && vpn in ViewOf(s.mem, root)
    ensures vpn in ViewOf(s'.mem, root) && Node(s'.mem, root, 3, vpn) == Node(s.mem, root, 3, vpn)
  {
    hide Inv, Grows, ViewOf, Node;
    MappedHasFrame(s, root, vpn);
    GrowsKeepsNode(s, s', root, vpn);
    FrameOfPage(s', root, vpn, Node(s.mem, root, 3, vpn).value);
  }

  lemma GrowsKeepsNode(s: State, s': State, root: nat, vpn: nat)
    requires Grows(s, s', root) && vpn < VPNS && Node(s.mem, root, 3, vpn).Some?
    ensures Node(s'.mem, root, 3, vpn) == Node(s.mem, root, 3, vpn)
  {
    hide Node;
    assert InTree(3, vpn);
  }

  // ---- the upload ----

  /** aux->stdout_len in the page that holds aux, clipped to the buffer. */
  function OutputLen(aux: Frame): nat {
    Min(FromLe(aux[LEN_OFFSET..LEN_OFFSET + 8]), STDOUT_LIMIT)
  }

  /** The file a user leaves behind: the output buffer up to the length it has stored. */
  function OutputFile(v: View, n: nat, aux: Frame): seq<byte>
    requires n <= BUFFER_SIZE
  {
    UserBytes(v, StdoutVa(n), OutputLen(aux))
  }

  lemma SameOutput(v: View, v': View, n: nat, len: nat)
    requires n <= BUFFER_SIZE && len <= STDOUT_LIMIT
    requires forall vpn: nat :: OutputPage(n, vpn) ==> vpn in v && vpn in v' && v'[vpn] == v[vpn]
    ensures UserBytes(v', StdoutVa(n), len) == UserBytes(v, StdoutVa(n), len)
  {
    hide StdoutVa, OutputPage;
    var va := StdoutVa(n);
    forall i: nat | i < len
      ensures UserBytes(v', va, len)[i] == UserBytes(v, va, len)[i]
    {
      ByteInOutput(n, i);
      var vpn := (va + i) / PGSIZE;
      assert v'[vpn] == v[vpn];
      assert UserBytes(v', va, len)[i] == ByteAt(v', vpn, (va + i) % PGSIZE);
    }
  }

  lemma ByteInOutput(n: nat, i: nat)
    requires n <= BUFFER_SIZE && i < STDOUT_LIMIT
    ensures OutputPage(n, (StdoutVa(n) + i) / PGSIZE)
  {
    RegionPages(n);
    PageDistance(StdoutPage(n), i);
  }

  /** Clipping aux->stdout_len keeps the address space and the output. */
  lemma ClipKeeps(s: State, root: nat, n: nat, page: nat, bs: seq<byte>, len: nat)
    requires Inv(s, root) && n <= BUFFER_SIZE && OutputMapped(ViewOf(s.mem, root), n) && page < |s.mem|
    requires Node(s.mem, root, 3, StdoutPage(n) - 1) == Some(page) && LEN_OFFSET + |bs| <= PGSIZE && len <= STDOUT_LIMIT
    ensures var s' := Write(s, page, LEN_OFFSET, bs);
            && Inv(s', root) && Grows(s, s', root) && OutputMapped(ViewOf(s'.mem, root), n)
            && UserBytes(ViewOf(s'.mem, root), StdoutVa(n), len) == UserBytes(ViewOf(s.mem, root), StdoutVa(n), len)
  {
    hide Inv, Grows, ViewOf, Node, StdoutVa, UserBytes, Overlay;
    var vpn := StdoutPage(n) - 1;
    MappedIsDataPage(s, root, vpn, page);
    WriteInv(s, root, vpn, page, LEN_OFFSET, bs);
    WriteView(s, root, vpn, page, LEN_OFFSET, bs);
    SameOutput(ViewOf(s.mem, root), ViewOf(Write(s, page, LEN_OFFSET, bs).mem, root), n, len);
  }

  /** The last part of do_judge: the user's output goes to the server. */
  method Upload(d: Judge.Daemon, root: nat, page: nat, n: nat, packet: array<byte>, req: Datagram, events: seq<Event>)
    returns (out: bool, ret: int, sent: seq<(nat, Datagram)>)
    requires root != 0 && d.vm.Holds(root) && n <= BUFFER_SIZE && OutputMapped(d.vm.View(root), n)
    requires page < d.vm.mem.Length && AuxAt(d.vm.State(), root, n, page)
    requires packet.Length >= CHUNK
    modifies d.vm.alloc`next, d.vm.alloc`used, d.vm.alloc`bits, d.vm.mem, packet
    ensures d.vm.Holds(root) && Grows(old(d.vm.State()), d.vm.State(), root)
    ensures var file := OutputFile(old(d.vm.View(root)), n, old(d.vm.mem[page]));
            var c := RunClient(file, events, |events|);
            && out == c.Done? && (out ==> ret == c.ret) && sent == Sent(file, events, |events|, req)
  {
    hide Inv, Grows, ViewOf, Node, StdoutVa, UserBytes, RunClient, Sent, Readable, OutputMapped, Write;
    ghost var s := d.vm.State();
    QuietReflexive(s, root);
    var len := OutputLength(d, page);
    ClipKeeps(s, root, n, page, ToLe(STDOUT_LIMIT, 8), len);
    var ctx := new ReadContext(root, StdoutVa(n), len);
    OutputReadable(d.vm.View(root), n, len);
    out, ret, sent := PutOutput(d, ctx, packet, req, events);
  }

  /** Frame page holds the page of aux. */
  ghost predicate AuxAt(s: State, root: nat, n: nat, page: nat)
    requires n <= BUFFER_SIZE
  {
    Node(s.mem, root, 3, StdoutPage(n) - 1) == Some(page) && page < |s.mem|
  }

  lemma AuxIsMapped(s: State, root: nat, n: nat, page: nat)
    requires Inv(s, root) && n <= BUFFER_SIZE && Node(s.mem, root, 3, StdoutPage(n) - 1) == Some(page)
    ensures page < |s.mem| && StdoutPage(n) - 1 in ViewOf(s.mem, root) && AuxAt(s, root, n, page)
  {
    hide Inv, ViewOf, Node;
    FrameOfPage(s, root, StdoutPage(n) - 1, page);
  }

  // ---- the request ----

  /** What a request meets: the two downloads, what the user program does and how many accesses the
      timer leaves it, and what arrives while its output is uploaded under the request packet put. */
  datatype Request = Request(elf: Download, stdin: Download, program: UserProgram.Program, steps: nat,
                             put: Datagram, events: seq<Event>)

  /** What becomes of it: whether the program was run, how it was ended by a page fault, the
      memory use, whether do_judge has returned, with what, and the packets it has sent. */
  datatype Reply = Reply(ran: bool, fault: Option<TrapHandler.Report>, memUsage: nat,
                         out: bool, ret: int, sent: seq<(nat, Datagram)>)

  /** The upload of a file as the reply tells it. */
  predicate UploadOf(file: seq<byte>, q: Request, r: Reply) {
    var c := RunClient(file, q.events, |q.events|);
    r.out == c.Done? && (r.out ==> r.ret == c.ret) && r.sent == Sent(file, q.events, |q.events|, q.put)
  }

  /** The upload from the state the program has left. */
  ghost predicate Uploaded(s: State, root: nat, n: nat, q: Request, r: Reply)
    requires n <= BUFFER_SIZE
  {
    var page := Node(s.mem, root, 3, StdoutPage(n) - 1);
    && page.Some? && page.value < |s.mem|
    && UploadOf(OutputFile(ViewOf(s.mem, root), n, s.mem[page.value]), q, r)
  }

  /** What the program does from the state it is started in. */
  function AccessesOf(s: State, root: nat, q: Request): seq<Trap.Access>
    requires root != 0 && Inv(s, root)
  {
    UserProgram.Accesses(s, root, q.program, [], q.steps)
  }

  /** The program's run and what do_judge reports of it: memory use is 4 KiB for each page that
      was mapped as accessed or that the program has accessed. */
  ghost predicate Reported(s: State, root: nat, n: nat, q: Request, r: Reply)
    requires root != 0 && Inv(s, root) && n <= BUFFER_SIZE
  {
    var accesses := AccessesOf(s, root, q);
    var (s', traps, k, ending) := UserRun.Run(s, root, accesses);
    && k <= |accesses| && (!ending.Done? ==> k < |accesses|)
    && r.fault == (if ending.Ended? then Some(TrapHandler.PageFaultAt(accesses[k].pc, accesses[k].va)) else None)
    && r.memUsage
       == 4 * |CountPt.PagesWith(ViewOf(s.mem, root), CountPt.USER_ACCESSED) + UserRun.UsedPages(accesses, k, ending)|
    && Uploaded(s', root, n, q, r)
  }

  /** do_judge from state s: the program is run exactly when the address space was built;
      otherwise the reply is the error of the step that failed. */
  ghost predicate Judged(s: State, q: Request, r: Reply)
    requires Idle(s) && Sound(q.elf) && Sound(q.stdin)
  {
    var (s', ret, root) := Build(s, q.elf, q.stdin);
    if ret != 0 then r == Reply(false, None, 0, true, ret, [])
    else
      && r.ran && root != 0 && Inv(s', root) && q.stdin.Received? && |q.stdin.data| <= BUFFER_SIZE
      && Reported(s', root, |q.stdin.data|, q, r)
  }

  /** The program is run exactly when there is no error, unless memory ran out; and a reply without
      a run names the first error, or -EOOM with no page free. */
  lemma JudgedErrors(s: State, q: Request, r: Reply)
    requires Idle(s) && Sound(q.elf) && Sound(q.stdin) && Judged(s, q, r)
    ensures q.elf.Received? ==> |q.elf.data| < TWO_64
    ensures r.ran ==> FirstError(q.elf, q.stdin) == 0
    ensures !r.ran ==>
              && r.ret < 0
              && (r.ret == FirstError(q.elf, q.stdin) || OutOfMemory(r.ret, Build(s, q.elf, q.stdin).0))
  {
    hide Inv, Build, Reported, Untouched, Sound, Idle, FirstError;
    BuildSpec(s, q.elf, q.stdin);
  }

  /** What is stored at the server when the upload has returned 0, whatever the network did, is
      the user's output. */
  lemma OutputIsStored(v: View, n: nat, aux: Frame, req: Datagram, acts: seq<TftpWriteNet.Action>)
    requires n <= BUFFER_SIZE && exists name :: ParseReq(req) == Some((OP_WRQ, name, MODE))
    ensures var w := TftpWriteNet.Run(TftpWriteNet.Setup(OutputFile(v, n, aux), req), acts);
            w.c.Done? && w.c.ret == 0 ==>
              && w.c.server in w.sessions
              && TftpWriteNet.Join(w.sessions[w.c.server].stored) == OutputFile(v, n, aux)
  {
    hide UserBytes, TftpWriteNet.Run, ParseReq;
    var x := TftpWriteNet.Setup(OutputFile(v, n, aux), req);
    assert |x.file| <= STDOUT_LIMIT && TftpWriteNet.Proper(x);
    TftpWriteNet.WriteIsExact(x, acts);
  }

  // ---- what the output consists of ----

  /** No segment of the file maps a page of a region. */
  ghost predicate ClearFile(elf: seq<byte>, n: nat)
    requires n <= BUFFER_SIZE && |elf| < TWO_64
  {
    ElfImage.HeaderCheck(elf) == 0 &&
    forall vpn: nat :: ElfImage.ImageMaps(ElfImage.Phdrs(elf), vpn) ==> RegionOf(n, vpn).Elsewhere?
  }

  lemma StdoutStartsZero(b: Steps, elf: seq<byte>, stdin: seq<byte>, vpn: nat)
    requires Started(b, elf, stdin) && |stdin| <= BUFFER_SIZE && |elf| < TWO_64 && ClearFile(elf, |stdin|)
    requires StdoutPage(|stdin|) <= vpn < StdinPage(|stdin|)
    ensures vpn in b.words && b.words[vpn].bytes == ZERO_FRAME
  {
    hide ElfImage.Loaded, Chain, StdoutPage, StdinPage, ClearOfRegions, UserView, ElfImage.Phdrs;
    var n := |stdin|;
    Judge.ClearProgram(b.elf, elf, ElfImage.Phdrs(elf), n);
    BuiltIsUserView(b, HeaderPage(elf), stdin, StackBytes(elf), WordBytes(AuxWords(n)));
    ZeroContent(b.elf, b.words, HeaderPage(elf), stdin, StackBytes(elf) + WordBytes(AuxWords(n)), vpn);
  }

  lemma ZeroContent(v: View, v': View, header: seq<byte>, stdin: seq<byte>, args: seq<byte>, vpn: nat)
    requires |stdin| <= BUFFER_SIZE && UserView(v, v', header, stdin, args)
    requires StdoutPage(|stdin|) <= vpn < StdinPage(|stdin|)
    ensures vpn in v' && v'[vpn].bytes == ZERO_FRAME
  {
    assert RegionOf(|stdin|, vpn).Stdout?;
    assert PageOf(v', vpn) == UserPage(v, header, stdin, args, vpn);
    var frame := ContentFrame(header, stdin, args, vpn);
    forall o: nat | o < PGSIZE
      ensures frame[o] == ZERO_FRAME[o]
    {}
    assert frame == ZERO_FRAME;
  }

  /** Byte i of standard output is what the last store of the program to it has put there, 0 if it
      has stored nothing: for a program that keeps clear of the regions, nothing else ends up in
      the file. */
  lemma OutputByte(s: State, q: Request, i: nat)
    requires Idle(s) && Sound(q.elf) && Sound(q.stdin) && Build(s, q.elf, q.stdin).1 == 0 && i < STDOUT_LIMIT
    ensures q.elf.Received? && q.stdin.Received? && |q.elf.data| < TWO_64 && |q.stdin.data| <= BUFFER_SIZE
    ensures var (s1, ret, root) := Build(s, q.elf, q.stdin);
            && root != 0 && Inv(s1, root)
            && var accesses := AccessesOf(s1, root, q);
               var (s2, traps, k, ending) := UserRun.Run(s1, root, accesses);
               var n := |q.stdin.data|;
               && k <= |accesses|
               && (ClearFile(q.elf.data, n) ==>
                     UserBytes(ViewOf(s2.mem, root), StdoutVa(n), STDOUT_LIMIT)[i]
                     == UserRun.AfterStores(ZERO_FRAME, StdoutPage(n) + i / PGSIZE, accesses[..k])[i % PGSIZE])
  {
    hide Inv, Grows, ViewOf, Build, Started, Untouched, Sound, Idle, UserRun.Run, UserRun.AllGranted, UserRun.Clear,
         ClearFile, UserRun.AfterStores, FirstError, StdoutPage, StdoutVa, UserBytes, ElfImage.HeaderCheck,
         UserRun.Accessed, UserRun.Dirtied, Trap.Granted, Trap.Allowed, OutOfMemory, AccessesOf;
    BuildSpec(s, q.elf, q.stdin);
    SoundSize(q.elf);
    SoundSize(q.stdin);
    var b := AddressSpaceBuilt(s, q.elf, q.stdin);
    var (s1, ret, root) := Build(s, q.elf, q.stdin);
    var accesses := AccessesOf(s1, root, q);
    UserRun.RunSpec(s1, root, accesses);
    var (s2, traps, k, ending) := UserRun.Run(s1, root, accesses);
    var n := |q.stdin.data|;
    if ClearFile(q.elf.data, n) {
      var vpn := StdoutPage(n) + i / PGSIZE;
      StdoutByte(ViewOf(s2.mem, root), n, i);
      StdoutStartsZero(b, q.elf.data, q.stdin.data, vpn);
    }
  }

  lemma StdoutByte(v: View, n: nat, i: nat)
    requires n <= BUFFER_SIZE && i < STDOUT_LIMIT
    ensures var vpn := StdoutPage(n) + i / PGSIZE;
            && StdoutPage(n) <= vpn < StdinPage(n)
            && UserBytes(v, StdoutVa(n), STDOUT_LIMIT)[i] == ByteAt(v, vpn, i % PGSIZE)
  {
    RegionPages(n);
    InPage(StdoutPage(n) + i / PGSIZE, i % PGSIZE);
  }

  lemma RunKeeps(s1: State, s2: State, root: nat, n: nat, page: nat)
    requires Inv(s1, root) && Inv(s2, root) && Grows(s1, s2, root) && n <= BUFFER_SIZE
    requires OutputMapped(ViewOf(s1.mem, root), n) && AuxAt(s1, root, n, page)
    ensures OutputMapped(ViewOf(s2.mem, root), n) && AuxAt(s2, root, n, page) && page < |s2.mem|
  {
    hide Inv, Grows, ViewOf, Node, OutputMapped;
    AuxIsMapped(s1, root, n, page);
    GrowsKeepsOutput(s1, s2, root, n);
    GrowsKeepsPage(s1, s2, root, StdoutPage(n) - 1);
    AuxIsMapped(s2, root, n, page);
  }

  lemma IsUploaded(s: State, root: nat, n: nat, page: nat, q: Request, r: Reply)
    requires n <= BUFFER_SIZE && AuxAt(s, root, n, page) && page < |s.mem|
    requires UploadOf(OutputFile(ViewOf(s.mem, root), n, s.mem[page]), q, r)
    ensures Uploaded(s, root, n, q, r)
  {
    hide ViewOf, Node, OutputFile, UploadOf, StdoutPage;
  }

  /** do_judge from arch_call_user on. */
  method RunAndReport(d: Judge.Daemon, user: TrapHandler.UserTask, root: nat, page: nat, n: nat, q: Request,
                      packet: array<byte>)
    returns (r: Reply)
    requires root != 0 && d.vm.Holds(root) && n <= BUFFER_SIZE && OutputMapped(d.vm.View(root), n)
    requires page < d.vm.mem.Length && AuxAt(d.vm.State(), root, n, page) && packet.Length >= CHUNK
    modifies d.vm.alloc`next, d.vm.alloc`used, d.vm.alloc`bits, d.vm.mem, user, packet
    ensures d.vm.Holds(root) && Grows(old(d.vm.State()), d.vm.State(), root)
    ensures r.ran && Reported(old(d.vm.State()), root, n, q, r)
  {
    hide Inv, Grows, ViewOf, OutputMapped, RunClient, Sent, CountPt.CountTable, AuxAt, UserRun.Run, UserRun.RanTo,
         OutputFile, CountPt.PagesWith, UserRun.UsedPages, Uploaded, UserProgram.Accesses;
    ghost var s := d.vm.State();
    UserRun.RunSpec(s, root, AccessesOf(s, root, q));
    UserRun.RunMemoryUse(s, root, AccessesOf(s, root, q));
    var traps, k, ending;
    ghost var accesses;
    traps, k, ending, accesses := TrapHandler.Run(d.vm, user, root, q.program, q.steps);
    ghost var s' := d.vm.State();
    RunKeeps(s, s', root, n, page);
    var fault := if ending.Ended? then Some(user.Fields()) else None;
    var count := CountPt.CountPt(d.vm.mem, root, CountPt.USER_ACCESSED);
    var memUsage := count * PGSIZE / 1024;
    var out, ret, sent := Upload(d, root, page, n, packet, q.put, q.events);
    r := Reply(true, fault, memUsage, out, ret, sent);
    IsUploaded(s', root, n, page, q, r);
    GrowsTransitive(s, s', d.vm.State(), root);
    RunEnds(s, root, accesses);
  }

  lemma RunEnds(s: State, root: nat, accesses: seq<Trap.Access>)
    requires root != 0 && Inv(s, root)
    ensures var (s', traps, k, ending) := UserRun.Run(s, root, accesses);
            k <= |accesses| && (!ending.Done? ==> k < |accesses|)
  {
    hide Inv, Grows, ViewOf, UserRun.Run, UserRun.LeftAs, UserRun.AllGranted, UserRun.Clear;
    UserRun.RunSpec(s, root, accesses);
  }

  /** do_judge */
  method DoJudge(d: Judge.Daemon, user: TrapHandler.UserTask, q: Request, packet: array<byte>)
    returns (r: Reply, ghost root: nat)
    requires Idle(d.vm.State()) && d.buff.Length == BUFFER_SIZE && Sound(q.elf) && Sound(q.stdin)
    requires packet.Length >= CHUNK && packet != d.buff
    modifies d.vm.alloc`next, d.vm.alloc`used, d.vm.alloc`bits, d.vm.mem, d.buff, user, packet
    ensures Untouched(old(d.vm.State()), d.vm.State(), root)
    ensures Judged(old(d.vm.State()), q, r)
  {
    hide Inv, Grows, ViewOf, Untouched, OutputMapped, Sound, Reported, Build, Started, AuxAt, Idle, AnyFree, Node,
         StackPointer, StdoutPage, ElfImage.EntryPoint, FirstError, ElfImage.HeaderCheck;
    ghost var s := d.vm.State();
    BuildSpec(s, q.elf, q.stdin);
    var ret, table, entry, sp, page := d.BuildUser(q.elf, q.stdin);
    root := table;
    if ret != 0 {
      return Reply(false, None, 0, true, ret, []), root;
    }
    ghost var b := AddressSpaceBuilt(s, q.elf, q.stdin);
    StartedOutput(b, q.elf.data, q.stdin.data);
    ghost var s' := d.vm.State();
    AuxIsMapped(s', table, |q.stdin.data|, page);
    r := RunAndReport(d, user, table, page, |q.stdin.data|, q, packet);
    UntouchedThenGrows(s, s', d.vm.State(), table);
  }

  lemma StartedOutput(b: Steps, elf: seq<byte>, stdin: seq<byte>)
    requires Started(b, elf, stdin)
    ensures |stdin| <= BUFFER_SIZE && OutputMapped(b.words, |stdin|)
  {
    hide ElfImage.Loaded, Chain, OutputMapped;
    BuiltOutput(b, HeaderPage(elf), stdin, StackBytes(elf), WordBytes(AuxWords(|stdin|)));
  }

  /** One round of judge_entry: whatever the downloads, the program, its faults and the upload
      were, no frame taken before is written, and once do_judge has returned the allocator is
      exactly as before. */
  method ServeRequest(d: Judge.Daemon, user: TrapHandler.UserTask, q: Request, packet: array<byte>) returns (r: Reply)
    requires Idle(d.vm.State()) && d.buff.Length == BUFFER_SIZE && Sound(q.elf) && Sound(q.stdin)
    requires packet.Length >= CHUNK && packet != d.buff
    modifies d.vm.alloc, d.vm.mem, d.buff, user, packet
    ensures Judged(old(d.vm.State()), q, r)
    ensures r.out ==> d.vm.alloc.State() == old(d.vm.alloc.State()) && Idle(d.vm.State())
    ensures forall f :: 0 <= f < d.vm.mem.Length && old(d.vm.alloc.bits)[f] ==> d.vm.mem[f] == old(d.vm.mem[f])
  {
    hide Inv, Judged, Sound;
    d.vm.alloc.TakeSnapshot();
    ghost var root;
    r, root := DoJudge(d, user, q, packet);
    if r.out {
      d.vm.alloc.RestoreSnapshot();
    }
  }
}
