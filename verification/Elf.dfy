/** load_elf of elf.c as it runs. */
module Elf {
  import opened Bytes
  import opened Sv39
  import opened AddressSpace
  import opened CopyIn
  import opened ElfImage
  import opened ElfLoad
  import opened Errors
  import Vm

  /** The body of the PT_LOAD branch once the header is accepted. */
  method LoadSegment(vm: Vm.Kernel, root: nat, elf: array<byte>, len: nat, ph: Phdr) returns (ret: int)
    requires root != 0 ==> Inv(vm.State(), root)
    requires len <= elf.Length && GoodSegment(ph, len)
    modifies vm.alloc`next, vm.alloc`used, vm.alloc`bits, vm.mem
    ensures (vm.State(), ret) == ElfLoad.LoadSegment(old(vm.State()), root, old(elf[..len]), ph)
  {
    hide Inv, Grows, AnyFree, ViewOf, CopyOf, MapRange, MapAndCopy;
    ghost var s, file := vm.State(), elf[..len];
    var flags := SegmentFlags(ph);
    var from := if ph.filesz == 0 then 0 else ph.offset;
    FileBytesLength(file, ph);
    if ph.filesz == 0 {
      assert elf[from..from + ph.filesz] == FileBytes(file, ph);
    } else {
      assert elf[from..from + ph.filesz] == file[ph.offset..ph.offset + ph.filesz];
    }
    MapAndCopySpec(s, root, ph.vaddr, flags, FileBytes(file, ph));
    ghost var done;
    ret, done := vm.MapAndCopy(root, ph.vaddr, flags, elf, from, ph.filesz);
    if ret < 0 {
      return;
    }
    if ph.filesz < ph.memsz {
      var fileEnd, memEnd := PgAlignFloor(ph.vaddr + ph.filesz), PgAlign(ph.vaddr + ph.memsz);
      EndsAligned(ph);
      var ok := vm.MapRange(root, fileEnd, memEnd, flags);
      if !ok {
        return -EOOM;
      }
    }
  }

  /** One round of the loop over the program headers. */
  method LoadHeader(vm: Vm.Kernel, root: nat, elf: array<byte>, len: nat, phs: seq<Phdr>, i: nat) returns (ret: int)
    requires root != 0 ==> Inv(vm.State(), root)
    requires len <= elf.Length && len < TWO_64 && AllBounded(phs) && i < |phs|
    modifies vm.alloc`next, vm.alloc`used, vm.alloc`bits, vm.mem
    ensures ret == 0 ==> Proper(vm.State(), root) && AllBounded(phs[i + 1..])
                         && LoadSegments(old(vm.State()), root, old(elf[..len]), phs[i..])
                            == LoadSegments(vm.State(), root, old(elf[..len]), phs[i + 1..])
    ensures ret != 0 ==> (vm.State(), ret) == LoadSegments(old(vm.State()), root, old(elf[..len]), phs[i..])
  {
    hide Inv, Grows, AnyFree, ViewOf, SegmentLoaded, GoodSegment, SegmentCheck, Bounded, ElfLoad.LoadSegment;
    var ph := phs[i];
    assert phs[i..][1..] == phs[i + 1..];
    ret := 0;
    if ph.ptype == PT_LOAD {
      SegmentCheckSpec(ph, len);
      ret := SegmentCheck(ph, len);
      if ret == 0 {
        LoadSegmentSpec(vm.State(), root, elf[..len], ph);
        ret := LoadSegment(vm, root, elf, len, ph);
      }
    }
  }

  /** load_elf, with the entry point it hands out. */
  method LoadElf(vm: Vm.Kernel, root: nat, elf: array<byte>, len: nat) returns (ret: int, entry: nat)
    requires root != 0 ==> Inv(vm.State(), root)
    requires len <= elf.Length && len < TWO_64
    modifies vm.alloc`next, vm.alloc`used, vm.alloc`bits, vm.mem
    ensures (vm.State(), ret) == ElfLoad.LoadElf(old(vm.State()), root, old(elf[..len]))
    ensures ret == 0 ==> len >= EHDR_SIZE && entry == EntryPoint(old(elf[..len]))
    ensures ret == 0 ==> old(elf[24..32]) == ToLe(entry, 8)
  {
    hide Inv, LoadSegments, AllBounded, Phdrs, EntryPoint, PhdrAt;
    var file := elf[..len];
    if HeaderCheck(file) != 0 {
      return HeaderCheck(file), 0;
    }
    HeaderCheckSpec(file);
    entry := EntryPoint(file);
    EntryIs(file);
    assert file[24..32] == elf[24..32];
    var phs := Phdrs(file);
    HeadersBounded(file);
    assert phs[0..] == phs;
    ghost var s := vm.State();
    ret := 0;
    for i := 0 to |phs|
      invariant ret == 0 && Proper(vm.State(), root) && elf[..len] == file && AllBounded(phs[i..])
      invariant LoadSegments(s, root, file, phs) == LoadSegments(vm.State(), root, file, phs[i..])
    {
      ret := LoadHeader(vm, root, elf, len, phs, i);
      if ret != 0 {
        return;
      }
    }
    NothingToLoad(vm.State(), root, file, phs[|phs|..]);
  }

  lemma EntryIs(elf: seq<byte>)
    requires EHDR_SIZE <= |elf|
    ensures elf[24..32] == ToLe(EntryPoint(elf), 8)
  {
    ToFromLe(elf[24..32]);
  }

  lemma NothingToLoad(s: State, root: nat, elf: seq<byte>, phs: seq<Phdr>)
    requires Proper(s, root) && |elf| < TWO_64 && phs == []
    ensures AllBounded(phs) && LoadSegments(s, root, elf, phs) == (s, 0)
  {}
}
