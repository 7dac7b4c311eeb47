/** do_judge (judge.c) up to the call of arch_call_user, as it runs. */
module Judge {
  import opened Bytes
  import opened Sv39
  import opened PageTable
  import opened AddressSpace
  import opened CopyIn
  import opened ElfImage
  import opened Elf
  import opened Errors
  import opened JudgeBuild
  import opened JudgeLayout
  import Vm

  class Daemon {
    const vm: Vm.Kernel
    const buff: array<byte> // judge_tftp_buff

    constructor (vm: Vm.Kernel, buff: array<byte>)
      ensures this.vm == vm && this.buff == buff
    {
      this.vm, this.buff := vm, buff;
    }

    /** A received file lies at the start of the buffer. */
    method Receive(data: seq<byte>)
      requires |data| <= buff.Length
      modifies buff
      ensures buff[..|data|] == data
    {
      for i := 0 to |data|
        invariant buff[..i] == data[..i]
      {
        buff[i] := data[i];
      }
    }

    /** The program and its header page. */
    method LoadProgram(elf: seq<byte>) returns (ret: int, root: nat, entry: nat)
      requires Idle(vm.State()) && |elf| <= buff.Length < TWO_64
      modifies vm.alloc`next, vm.alloc`used, vm.alloc`bits, vm.mem, buff
      ensures (vm.State(), ret, root) == BuildProgram(old(vm.State()), elf)
      ensures ret == 0 ==> |elf| >= EHDR_SIZE && elf[24..32] == ToLe(entry, 8)
    {
      hide Inv, Grows, AnyFree, ViewOf, AddressSpace.CreatePt, ElfLoad.LoadElf, CopyIn.MapAndCopy, HeaderCheck,
           EntryPoint, Loaded, SegmentsCheck, Phdrs, AllGood;
      Receive(elf);
      CreatePtSpec(vm.State());
      root := vm.CreatePt();
      LoadElfResult(vm.State(), root, elf);
      ret, entry := LoadElf(vm, root, buff, |elf|);
      if ret < 0 {
        return;
      }
      EntryIs(elf);
      var copylen := if |elf| < PGSIZE then |elf| else PGSIZE;
      assert buff[0..0 + copylen] == HeaderPage(elf);
      ghost var done;
      ret, done := vm.MapAndCopy(root, ELF_VA, READ_ONLY, buff, 0, copylen);
    }

    /** The loops over the pages of standard output, stack and heap. */
    method MapZeroed(root: nat, n: nat) returns (ok: bool)
      requires root != 0 && Inv(vm.State(), root) && n <= BUFFER_SIZE
      modifies vm.alloc`next, vm.alloc`used, vm.alloc`bits, vm.mem
      ensures (vm.State(), ok) == BuildZeroed(old(vm.State()), root, n)
    {
      hide Inv, Grows, AnyFree, ViewOf, RangeMapped, CopyIn.MapRange;
      RegionPages(n);
      MapRangeSpec(vm.State(), root, StdoutPage(n), StdinPage(n), READ_WRITE);
      ok := vm.MapRange(root, StdoutVa(n), StdoutVa(n) + STDOUT_LIMIT, READ_WRITE);
      if !ok {
        return;
      }
      MapRangeSpec(vm.State(), root, StackPage(n), StdoutPage(n), READ_WRITE);
      ok := vm.MapRange(root, StackLimit(n), StackLimit(n) + STACK_SIZE, READ_WRITE);
      if !ok {
        return;
      }
      ok := vm.MapRange(root, HEAP_VA, HEAP_VA + HEAP_SIZE, READ_WRITE);
    }

    /** Standard input, standard output, stack and heap around a loaded program. */
    method MapRegions(root: nat, stdin: seq<byte>) returns (ret: int)
      requires root != 0 && Inv(vm.State(), root) && |stdin| <= BUFFER_SIZE <= buff.Length
      modifies vm.alloc`next, vm.alloc`used, vm.alloc`bits, vm.mem, buff
      ensures (vm.State(), ret) == BuildRegions(old(vm.State()), root, stdin)
    {
      hide Inv, Grows, AnyFree, ViewOf, CopyOf, CopyIn.MapAndCopy, BuildZeroed, StdinVa;
      Receive(stdin);
      assert buff[0..0 + |stdin|] == stdin;
      StdinInReach(|stdin|);
      MapAndCopySpec(vm.State(), root, StdinVa(|stdin|), READ_ONLY, stdin);
      ghost var done;
      ret, done := vm.MapAndCopy(root, StdinVa(|stdin|), READ_ONLY, buff, 0, |stdin|);
      if ret < 0 {
        return;
      }
      var ok := MapZeroed(root, |stdin|);
      ret := if ok then 0 else -EOOM;
    }

    /** map_page of a page that is mapped: its frame, and nothing changes. */
    method MapAgain(root: nat, va: nat, vpn: nat) returns (page: nat)
      requires root != 0 && vm.Holds(root) && vpn == Vpn(va) && vpn in vm.View(root)
      modifies vm.alloc`next, vm.alloc`used, vm.alloc`bits, vm.mem
      ensures vm.State() == old(vm.State()) && page < vm.mem.Length
      ensures Node(vm.mem[..], root, 3, vpn) == Some(page)
    {
      hide Inv, Vpn, MapPage;
      MapPageAgain(vm.State(), root, va, READ_WRITE);
      page := vm.MapPage(root, va, READ_WRITE);
      FrameInMemory(vm.State(), root, vpn);
    }

    /** The initial stack. `stack` walks down in physical memory as stackVa does in the
        user's; both stay in the top page of the stack region, mapped before. */
    method BuildStack(root: nat, n: nat, ghost elf: seq<byte>, phdrVa: nat, phent: nat, phnum: nat)
      returns (stackVa: nat, page: nat)
      requires root != 0 && Inv(vm.State(), root) && n <= BUFFER_SIZE && StdoutPage(n) - 1 in vm.View(root)
      requires EHDR_SIZE <= |elf| && WordBytes(StackWords(phdrVa, phent, phnum)) == StackBytes(elf)
      modifies vm.alloc`next, vm.alloc`used, vm.alloc`bits, vm.mem
      ensures vm.State() == JudgeBuild.BuildStack(old(vm.State()), root, n, elf)
      ensures stackVa == StackPointer(n) && page < vm.mem.Length
      ensures Node(old(vm.mem[..]), root, 3, StdoutPage(n) - 1) == Some(page)
    {
      hide Inv, ViewOf, StdoutPage, StdoutVa, WordBytes, Node, AddressSpace.MapPage, StackBytes;
      StackPageFound(vm.State(), root, n);
      StackPointerAligned(n);
      TopOfStackPage(n);
      stackVa := StdoutVa(n) - 0x10;
      page := vm.MapPage(root, stackVa, READ_WRITE);
      var stack := PGSIZE - 0x10;
      stackVa, stack := stackVa - 56, stack - 56;
      vm.Poke(page, stack, WordBytes(AuxWords(n)));
      stackVa, stack := stackVa - 104, stack - 104;
      vm.Poke(page, stack, WordBytes(StackWords(phdrVa, phent, phnum)));
    }

    /** do_judge up to arch_call_user, for the two downloads it asks for: the table, the entry
        point and stack pointer to start at, and the page aux lies in. */
    method BuildUser(elf: Download, stdin: Download) returns (ret: int, root: nat, entry: nat, sp: nat, page: nat)
      requires Idle(vm.State()) && buff.Length == BUFFER_SIZE && Sound(elf) && Sound(stdin)
      modifies vm.alloc`next, vm.alloc`used, vm.alloc`bits, vm.mem, buff
      ensures (vm.State(), ret, root) == Build(old(vm.State()), elf, stdin)
      ensures ret == 0 ==>
                && elf.Received? && stdin.Received? && |elf.data| >= EHDR_SIZE && |stdin.data| <= BUFFER_SIZE
                && elf.data[24..32] == ToLe(entry, 8) && sp == StackPointer(|stdin.data|)
                && page < vm.mem.Length && Node(vm.mem[..], root, 3, StdoutPage(|stdin.data|) - 1) == Some(page)
    {
      hide Inv, Grows, ViewOf, AnyFree, BuildProgram, BuildRegions, JudgeBuild.BuildStack, Node, Field, StdoutPage,
           WordBytes, ElfCheck, CopyOf, EntryPoint, HeaderCheck;
      root, entry, sp, page := 0, 0, 0, 0;
      if elf.Failed? {
        return elf.code, 0, 0, 0, 0;
      }
      BuildProgramSpec(vm.State(), elf.data);
      ret, root, entry := LoadProgram(elf.data);
      if ret < 0 {
        return;
      }
      var phdrVa := Add64(PhOff(elf.data), ELF_VA);
      var phent, phnum := PhEntSize(elf.data), PhNum(elf.data);
      if stdin.Failed? {
        ret := stdin.code;
        return;
      }
      ghost var s1 := vm.State();
      ghost var b := BuildRegionsSpec(s1, root, stdin.data);
      ret := MapRegions(root, stdin.data);
      if ret < 0 {
        return;
      }
      StackIsMapped(s1, root, stdin.data);
      ghost var aux := BuildStackSpec(vm.State(), root, |stdin.data|, elf.data);
      sp, page := BuildStack(root, |stdin.data|, elf.data, phdrVa, phent, phnum);
    }
  }

  /** A program is clear of the regions exactly when none of its segments maps a page there. */
  lemma ClearProgram(v: View, elf: seq<byte>, phs: seq<Phdr>, n: nat)
    requires n <= BUFFER_SIZE && Loaded(map[], v, elf, phs)
    ensures ClearOfRegions(v, n) <==> forall vpn: nat :: ImageMaps(phs, vpn) ==> RegionOf(n, vpn).Elsewhere?
  {
    forall vpn: nat
      ensures vpn in v <==> ImageMaps(phs, vpn)
    {}
  }

  /** The arguments as the user reads them through the page table, from the stack pointer up:
      argc, argv, envp, auxv, then aux; for every program, clear of the regions or not. */
  lemma Arguments(b: Steps, elf: seq<byte>, stdin: seq<byte>, i: nat)
    requires HeaderCheck(elf) == 0 && |elf| <= BUFFER_SIZE && |stdin| <= BUFFER_SIZE && i < 20
    requires Chain(b, HeaderPage(elf), stdin, StackBytes(elf), WordBytes(AuxWords(|stdin|)))
    ensures StackPointer(|stdin|) % 16 == 0
    ensures UserWord(b.words, StackPointer(|stdin|) + 8 * i)
            == Some((StackWords(ELF_VA + PhOff(elf), PHDR_SIZE, PhNum(elf)) + AuxWords(|stdin|))[i])
  {
    hide Chain, WordBytes, UserWord;
    HeaderCheckSpec(elf);
    var n := |stdin|;
    var ws := StackWords(ELF_VA + PhOff(elf), PHDR_SIZE, PhNum(elf)) + AuxWords(n);
    WordBytesConcat(StackWords(ELF_VA + PhOff(elf), PHDR_SIZE, PhNum(elf)), AuxWords(n));
    assert Add64(PhOff(elf), ELF_VA) == ELF_VA + PhOff(elf);
    StackPointerAligned(n);
    ArgumentWord(b, HeaderPage(elf), stdin, StackBytes(elf), WordBytes(AuxWords(n)), ws, i);
  }

  lemma FrameInMemory(s: State, root: nat, vpn: nat)
    requires Inv(s, root) && vpn < VPNS && Node(s.mem, root, 3, vpn).Some?
    ensures Node(s.mem, root, 3, vpn).value < |s.mem|
  {
    assert InTree(3, vpn);
  }
}
