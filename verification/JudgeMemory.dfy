/** The memory use that do_judge reports, against the pages the hardware translates. */
module JudgeMemory {
  import opened Bytes
  import opened Sv39
  import opened AddressSpace
  import opened CopyIn
  import opened CountPt
  import opened ElfCount
  import opened ElfFile
  import opened ElfImage
  import opened JudgeArguments
  import opened JudgeBuild
  import opened JudgeLayout
  import opened JudgeRequest
  import Trap
  import UserRun

  /** v' has the pages of v with their flags, and others that the hardware translates. */
  ghost predicate Adds(v: View, v': View) {
    && (forall vpn :: vpn in v ==> vpn in v' && v'[vpn].flags == v[vpn].flags)
    && (forall vpn :: vpn in v' && vpn !in v ==> Translatable(v'[vpn].flags))
  }

  lemma CopyAdds(v: View, v': View, va: nat, flags: Flags, src: seq<byte>)
    requires CopyOf(v, v', va, flags, src) && Translatable(flags)
    ensures Adds(v, v')
  {
    hide Touches, ByteAt, Translatable;
    forall vpn | vpn in v
      ensures vpn in v'
    {
      MappedIsNat(v, v', va, flags, src, vpn);
    }
  }

  lemma MappedIsNat(v: View, v': View, va: nat, flags: Flags, src: seq<byte>, vpn: nat)
    requires CopyOf(v, v', va, flags, src) && vpn in v
    ensures vpn in v'
  {}

  lemma RangeAdds(v: View, v': View, lo: nat, hi: nat, flags: Flags)
    requires RangeMapped(v, v', lo, hi, flags) && Translatable(flags)
    ensures Adds(v, v')
  {}

  lemma AddsTransitive(v: View, v1: View, v2: View)
    requires Adds(v, v1) && Adds(v1, v2)
    ensures Adds(v, v2)
  {
    hide Translatable;
  }

  lemma ChainAdds(b: Steps, header: seq<byte>, stdin: seq<byte>, words: seq<byte>, aux: seq<byte>)
    requires Chain(b, header, stdin, words, aux)
    ensures Adds(b.elf, b.words)
  {
    hide CopyOf, RangeMapped, Adds, StdoutPage, StdinPage, StackPage, StdinVa, StdoutVa;
    var n := |stdin|;
    TopOfStackPage(n);
    CopyAdds(b.elf, b.header, ELF_VA, READ_ONLY, header);
    CopyAdds(b.header, b.stdin, StdinVa(n), READ_ONLY, stdin);
    AddsTransitive(b.elf, b.header, b.stdin);
    RangeAdds(b.stdin, b.stdout, StdoutPage(n), StdinPage(n), READ_WRITE);
    AddsTransitive(b.elf, b.stdin, b.stdout);
    RangeAdds(b.stdout, b.stack, StackPage(n), StdoutPage(n), READ_WRITE);
    AddsTransitive(b.elf, b.stdout, b.stack);
    RangeAdds(b.stack, b.heap, HEAP_PAGE, HEAP_PAGE + HEAP_PAGES, READ_WRITE);
    AddsTransitive(b.elf, b.stack, b.heap);
    AuxAdds(b, n, words, aux);
    AddsTransitive(b.elf, b.heap, b.words);
  }

  lemma AuxAdds(b: Steps, n: nat, words: seq<byte>, aux: seq<byte>)
    requires n <= BUFFER_SIZE && StdoutVa(n) - PGSIZE + AUX_OFFSET >= 0 && StackPointer(n) >= 0
    requires CopyOf(b.heap, b.aux, StdoutVa(n) - PGSIZE + AUX_OFFSET, READ_WRITE, aux)
    requires CopyOf(b.aux, b.words, StackPointer(n), READ_WRITE, words)
    ensures Adds(b.heap, b.words)
  {
    hide CopyOf, Adds, StdoutVa, StackPointer;
    CopyAdds(b.heap, b.aux, StdoutVa(n) - PGSIZE + AUX_OFFSET, READ_WRITE, aux);
    CopyAdds(b.aux, b.words, StackPointer(n), READ_WRITE, words);
    AddsTransitive(b.heap, b.aux, b.words);
  }

  /** A run changes no flags but A and D, and clears neither. */
  ghost predicate Used(v: View, v': View) {
    && v'.Keys == v.Keys
    && forall vpn :: vpn in v ==>
         && v'[vpn].flags == v[vpn].flags.(a := v'[vpn].flags.a, d := v'[vpn].flags.d)
         && (v[vpn].flags.a ==> v'[vpn].flags.a)
  }

  lemma LeftIsUsed(v: View, v': View, touching: seq<Trap.Access>, done: seq<Trap.Access>)
    requires UserRun.LeftAs(v, v', touching, done)
    ensures Used(v, v')
  {
    hide UserRun.Accessed, UserRun.Dirtied, UserRun.AfterStores;
  }

  /** The pages in use are all translated exactly when the image's are. */
  lemma UsedTranslatable(program: View, v: View, v': View, elf: seq<byte>, phs: seq<Phdr>)
    requires Loaded(map[], program, elf, phs) && Adds(program, v) && Used(v, v')
    ensures (forall vpn :: vpn in PagesWith(v', USER_ACCESSED) ==> Translatable(v'[vpn].flags))
            <==> forall i: nat, vpn: nat :: FirstMaps(phs, i, vpn) ==> GoodPermissions(phs[i])
  {
    hide ImageMaps, ImageFlags, FirstMaps, ImageByte, GoodPermissions, Translatable, Loaded;
    LoadedPages(program, elf, phs);
    forall i: nat, vpn: nat | FirstMaps(phs, i, vpn)
      ensures i < |phs| && vpn in PagesWith(v', USER_ACCESSED)
      ensures Translatable(v'[vpn].flags) <==> GoodPermissions(phs[i])
    {
      FirstIsPage(program, elf, phs, i, vpn);
      SameTranslatable(v[vpn].flags, v'[vpn].flags);
    }
    forall vpn | vpn in PagesWith(v', USER_ACCESSED)
      ensures Translatable(v'[vpn].flags) || exists i: nat :: FirstMaps(phs, i, vpn)
    {
      SameTranslatable(v[vpn].flags, v'[vpn].flags);
      if vpn in program {
        var i := SomeIsFirst(phs, vpn);
      }
    }
  }

  lemma SameTranslatable(f: Flags, g: Flags)
    requires g == f.(a := g.a, d := g.d)
    ensures Translatable(g) == Translatable(f)
  {}

  /** For every program that was run, whatever it did: the memory use reported is 4 KiB for each page
      that the hardware translates with A set at the end, exactly when every program header that is
      the first to map some page has PF_R, or PF_X without PF_W. */
  lemma MemoryUseIsTranslated(s: State, q: Request, r: Reply)
    requires Idle(s) && Sound(q.elf) && Sound(q.stdin) && Judged(s, q, r) && r.ran
    ensures q.elf.Received? && |q.elf.data| < TWO_64 && HeaderCheck(q.elf.data) == 0
    ensures var (s1, ret, root) := Build(s, q.elf, q.stdin);
            && root != 0 && Inv(s1, root)
            && var s2 := UserRun.Run(s1, root, AccessesOf(s1, root, q)).0;
               r.memUsage == 4 * |set vpn: nat | vpn < VPNS && Translates(s2.mem, root, vpn, USER_ACCESSED)|
               <==> forall i: nat, vpn: nat :: FirstMaps(Phdrs(q.elf.data), i, vpn) ==>
                      GoodPermissions(Phdrs(q.elf.data)[i])
  {
    hide Inv, Grows, ViewOf, Build, Started, Untouched, Sound, Idle, UserRun.Run, UserRun.AllGranted, UserRun.Clear,
         HeaderCheck, Phdrs, FirstError, OutOfMemory, AccessesOf, UserRun.LeftAs, UserRun.UsedPages, CountTable,
         Translates, FirstMaps, GoodPermissions, PagesWith, Translatable, Uploaded, Loaded, Chain, Adds, Used;
    BuildSpec(s, q.elf, q.stdin);
    SoundSize(q.elf);
    var b := AddressSpaceBuilt(s, q.elf, q.stdin);
    var (s1, ret, root) := Build(s, q.elf, q.stdin);
    var accesses := AccessesOf(s1, root, q);
    StartedProgram(b, q.elf.data, q.stdin.data);
    UserRun.RunSpec(s1, root, accesses);
    UserRun.RunMemoryUse(s1, root, accesses);
    var (s2, traps, k, ending) := UserRun.Run(s1, root, accesses);
    var v, v' := ViewOf(s1.mem, root), ViewOf(s2.mem, root);
    LeftIsUsed(v, v', UserRun.Touching(accesses, k, ending), accesses[..k]);
    UsedTranslatable(b.elf, v, v', q.elf.data, Phdrs(q.elf.data));
    CountIsTranslated(s2, root, USER_ACCESSED);
  }

  lemma StartedProgram(b: Steps, elf: seq<byte>, stdin: seq<byte>)
    requires Started(b, elf, stdin)
    ensures |elf| < TWO_64 && HeaderCheck(elf) == 0 && Loaded(map[], b.elf, elf, Phdrs(elf)) && Adds(b.elf, b.words)
  {
    hide HeaderCheck, Phdrs, Loaded, Chain, Adds;
    FileHeader(elf);
    ChainAdds(b, HeaderPage(elf), stdin, StackBytes(elf), WordBytes(AuxWords(|stdin|)));
  }

  // ---- what is counted before the program has accessed anything ----

  /** A page of a region is counted exactly when it is the header page or one of standard input. */
  lemma RegionCounted(b: Steps, elf: seq<byte>, stdin: seq<byte>, vpn: nat)
    requires Around(b, elf, stdin) && !RegionOf(|stdin|, vpn).Elsewhere?
    ensures vpn in b.words
    ensures b.words[vpn].flags.u && (b.words[vpn].flags.a <==> StdinPage(|stdin|) <= vpn < 0x400_0000)
  {
    hide StackBytes, WordBytes, AuxWords, HeaderPage, ContentFrame;
    var args := StackBytes(elf) + WordBytes(AuxWords(|stdin|));
    assert PageOf(b.words, vpn) == UserPage(b.elf, HeaderPage(elf), stdin, args, vpn);
    var r := RegionOf(|stdin|, vpn);
    assert StdinPage(|stdin|) <= vpn < 0x400_0000 <==> r.Header? || r.Stdin?;
  }

  lemma ImageCounted(v: View, elf: seq<byte>, phs: seq<Phdr>, vpn: nat)
    requires Loaded(map[], v, elf, phs) && vpn in v
    ensures v[vpn].flags.u && v[vpn].flags.a
  {
    hide ImageMaps, ImageFlags, FirstMaps, ImageByte, Loaded;
    LoadedPages(v, elf, phs);
    var i := SomeIsFirst(phs, vpn);
    FirstIsPage(v, elf, phs, i, vpn);
  }

  lemma ElsewherePage(b: Steps, elf: seq<byte>, stdin: seq<byte>, vpn: nat)
    requires Around(b, elf, stdin) && RegionOf(|stdin|, vpn).Elsewhere?
    ensures PageOf(b.words, vpn) == PageOf(b.elf, vpn) && !(StdinPage(|stdin|) <= vpn < 0x400_0000)
  {
    hide StackBytes, WordBytes, AuxWords, HeaderPage, ContentFrame, PageOf;
    var args := StackBytes(elf) + WordBytes(AuxWords(|stdin|));
    assert PageOf(b.words, vpn) == UserPage(b.elf, HeaderPage(elf), stdin, args, vpn);
    assert !InRegion(|stdin|, Header, vpn) && !InRegion(|stdin|, Stdin, vpn);
  }

  lemma CountedPage(b: Steps, elf: seq<byte>, stdin: seq<byte>, vpn: nat)
    requires Started(b, elf, stdin) && ClearOfRegions(b.elf, |stdin|)
    ensures vpn in PagesWith(b.words, USER_ACCESSED) <==> vpn in b.elf || StdinPage(|stdin|) <= vpn < 0x400_0000
  {
    hide Chain, UserView, HeaderCheck, Phdrs, ElfCheck, Loaded, RegionOf, StdinPage;
    IsAround(b, elf, stdin);
    if RegionOf(|stdin|, vpn).Elsewhere? {
      ElsewherePage(b, elf, stdin, vpn);
      if vpn in b.elf {
        ImageCounted(b.elf, elf, Phdrs(elf), vpn);
      }
    } else {
      RegionCounted(b, elf, stdin, vpn);
    }
  }

  /** The pages counted for a program that has accessed none: those of its segments, the first page of
      the file and standard input, not its output, stack and heap. */
  lemma CountedAtStart(b: Steps, elf: seq<byte>, stdin: seq<byte>, h: Ehdr, gs: seq<Segment>, vpn: nat)
    requires Started(b, elf, stdin) && ClearOfRegions(b.elf, |stdin|) && HeaderIs(elf, h) && TableIs(elf, h, gs)
    ensures vpn in PagesWith(b.words, USER_ACCESSED) <==>
              || (exists i :: 0 <= i < |gs| && HasPage(gs[i], vpn))
              || StackPointer(|stdin|) + 176 + 0x1_0000 <= 4096 * vpn < 0x40_0000_0000
  {
    hide Chain, HeaderIs, TableIs, HasPage, HeaderCheck, Phdrs, ElfCheck, ImageMaps, ImageFlags, ImageByte, PagesWith,
         ClearOfRegions;
    CountedPage(b, elf, stdin, vpn);
    RegionPages(|stdin|);
    LoadedPages(b.elf, elf, Phdrs(elf));
    MapsSame(elf, h, gs, vpn);
  }
}
