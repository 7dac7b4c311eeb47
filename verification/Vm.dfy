/** vm.c as it runs: page tables in the frames of physical memory, updated in place. */
module Vm {
  import opened Bytes
  import opened Sv39
  import opened PageTable
  import opened AddressSpace
  import opened CopyIn
  import opened Errors
  import PageAllocator
  import Mm

  class Kernel {
    const alloc: Mm.Allocator
    const mem: array<Frame>

    constructor (alloc: Mm.Allocator, mem: array<Frame>)
      ensures this.alloc == alloc && this.mem == mem
    {
      this.alloc, this.mem := alloc, mem;
    }

    function State(): State
      reads this, alloc, mem
    {
      AddressSpace.State(mem[..], alloc.State())
    }

    /** zero_page clears eight words at a time. */
    method ZeroPage(f: nat)
      requires f < mem.Length
      modifies mem
      ensures mem[..] == old(mem[..])[f := ZERO_FRAME]
    {
      var u64: nat := 0;
      while u64 != ENTRIES
        invariant u64 <= ENTRIES && u64 % 8 == 0
        invariant forall g :: 0 <= g < mem.Length && g != f ==> mem[g] == old(mem[g])
        invariant forall o :: 0 <= o < 8 * u64 ==> mem[f][o] == 0
        decreases ENTRIES - u64
      {
        mem[f] := Overlay(mem[f], 8 * u64, Zeros(64));
        u64 := u64 + 8;
      }
      assert mem[f] == ZERO_FRAME;
    }

    /** memcpy into page f. */
    method MemCpy(f: nat, o: nat, src: array<byte>, from: nat, len: nat)
      requires f < mem.Length && o + len <= PGSIZE && from + len <= src.Length
      modifies mem
      ensures State() == Write(old(State()), f, o, old(src[from..from + len]))
    {
      for i := 0 to len
        invariant forall g :: 0 <= g < mem.Length && g != f ==> mem[g] == old(mem[g])
        invariant mem[f] == Overlay(old(mem[f]), o, old(src[from..from + i]))
      {
        mem[f] := mem[f][o + i := src[from + i]];
        assert mem[f] == Overlay(old(mem[f]), o, old(src[from..from + i + 1]));
      }
      assert mem[..] == old(mem[..])[f := Overlay(old(mem[f]), o, old(src[from..from + len]))];
    }

    /** Stores through a pointer to offset o of page f. */
    method Poke(f: nat, o: nat, bs: seq<byte>)
      requires f < mem.Length && o + |bs| <= PGSIZE
      modifies mem
      ensures State() == Write(old(State()), f, o, bs)
    {
      mem[f] := Overlay(mem[f], o, bs);
      assert mem[..] == old(mem[..])[f := Overlay(old(mem[f]), o, bs)];
    }

    /** create_pt: the root of an empty table, or 0. */
    method CreatePt() returns (root: nat)
      requires PageAllocator.Valid(alloc.State()) && mem.Length == alloc.size <= MAX_FRAMES
      modifies alloc`next, alloc`used, alloc`bits, mem
      ensures (State(), root) == AddressSpace.CreatePt(old(State()))
    {
      PageAllocator.GetFreePageSpec(alloc.State());
      root := alloc.GetFreePage();
      if root != 0 {
        ZeroPage(root);
      }
    }

    method StorePte(t: nat, i: nat, pte: nat)
      requires t < mem.Length && i < ENTRIES
      modifies mem
      ensures mem[..] == old(mem[..])[t := StoreEntry(old(mem[t]), i, pte)]
    {
      mem[t] := StoreEntry(mem[t], i, pte);
    }

    method GetPtLevel(level: nat, t: nat, i: nat) returns (next: nat)
      requires PageAllocator.Valid(alloc.State()) && mem.Length == alloc.size && t < mem.Length && i < ENTRIES
      modifies alloc`next, alloc`used, alloc`bits, mem
      ensures (State(), next) == AddressSpace.GetPtLevel(old(State()), level, t, i)
    {
      var pte := Entry(mem[..], t, i);
      if !PteValid(pte) {
        PageAllocator.GetFreePageSpec(alloc.State());
        next := alloc.GetFreePage();
        if next != 0 {
          ZeroPage(next);
          StorePte(t, i, MakePte(level, next, NO_FLAGS));
        }
      } else {
        next := PteFrame(pte);
      }
    }

    /** get_pte: the table holding the entry for va, which is number PtIdx(0, va) of it. */
    method GetPte(root: nat, va: nat) returns (t: nat)
      requires root != 0 ==> Inv(State(), root)
      modifies alloc`next, alloc`used, alloc`bits, mem
      ensures (State(), t) == AddressSpace.GetPte(old(State()), root, va)
    {
      if root == 0 {
        return 0;
      }
      RootInMemory(State(), root);
      GetPtLevelSpec(State(), root, 2, 0, 0, root, PtIdx(2, va));
      t := GetPtLevel(2, root, PtIdx(2, va));
      if t == 0 {
        return;
      }
      t := GetPtLevel(1, t, PtIdx(1, va));
    }

    /** map_page on a table: the frame now mapped at va, or 0. */
    method MapPage(root: nat, va: nat, flags: Flags) returns (f: nat)
      requires root != 0 ==> Inv(State(), root)
      modifies alloc`next, alloc`used, alloc`bits, mem
      ensures (State(), f) == AddressSpace.MapPage(old(State()), root, va, flags)
    {
      ghost var s := State();
      var t := GetPte(root, va);
      if t == 0 {
        return 0;
      }
      GetPteSpec(s, root, va);
      f := MapLeaf(t, PtIdx(0, va), flags);
    }

    method MapLeaf(t: nat, i: nat, flags: Flags) returns (f: nat)
      requires PageAllocator.Valid(alloc.State()) && mem.Length == alloc.size && t < mem.Length && i < ENTRIES
      modifies alloc`next, alloc`used, alloc`bits, mem
      ensures (State(), f) == AddressSpace.MapLeaf(old(State()), t, i, flags)
    {
      var pte := Entry(mem[..], t, i);
      if !PteValid(pte) {
        PageAllocator.GetFreePageSpec(alloc.State());
        f := alloc.GetFreePage();
        if f != 0 {
          ZeroPage(f);
          StorePte(t, i, MakePte(0, f, flags));
        }
      } else {
        f := PteFrame(pte);
      }
    }

    /** Everything a caller may rely on while it builds an address space. */
    ghost predicate Holds(root: nat)
      reads this, alloc, mem
    {
      root != 0 && Inv(State(), root)
    }

    ghost function View(root: nat): View
      reads this, alloc, mem
    {
      ViewOf(mem[..], root)
    }

    /** Map the page of va and copy n bytes of src to its offset. */
    method CopyChunk(root: nat, va: nat, flags: Flags, src: array<byte>, u8: nat, n: nat) returns (ok: bool)
      requires Holds(root) && u8 + n <= src.Length
      requires 0 < n && va % PGSIZE + n <= PGSIZE && va / PGSIZE < VPNS
      modifies alloc`next, alloc`used, alloc`bits, mem
      ensures (State(), ok) == CopyPage(old(State()), root, va, flags, old(src[u8..u8 + n]))
      ensures Holds(root)
    {
      hide Inv, Grows, CopyOf, AnyFree, ViewOf, AddressSpace.MapPage, Write;
      ghost var s, bs := State(), src[u8..u8 + n];
      CopyPageSpec(s, root, va, flags, bs);
      var pg := MapPage(root, PgAlignFloor(va), flags);
      if pg == 0 {
        return false;
      }
      MappedFrame(s, root, PgAlignFloor(va), flags);
      assert src[u8..u8 + n] == bs;
      MemCpy(pg, va % PGSIZE, src, u8, n);
      return true;
    }

    ghost predicate Source(src: array<byte>, from: nat, data: seq<byte>)
      reads src
    {
      from + |data| <= src.Length && forall i :: 0 <= i < |data| ==> src[from + i] == data[i]
    }

    /** The next chunk of a copy of data that began in state s. */
    method CopyNext(root: nat, ghost s: State, va: nat, flags: Flags, src: array<byte>, from: nat,
                    ghost data: seq<byte>, done: nat, n: nat)
      returns (ok: bool)
      requires Underway(s, State(), root, va, flags, data, done) && Source(src, from, data) && done < |data|
      requires n == Chunk(va + done, |data| - done)
      modifies alloc`next, alloc`used, alloc`bits, mem
      ensures Source(src, from, data)
      ensures ok ==> done + n <= |data| && Underway(s, State(), root, va, flags, data, done + n)
      ensures !ok ==> (State(), done) == CopyIn.MapAndCopy(s, root, va, flags, data)
    {
      hide Inv, Grows, CopyOf, AnyFree, ViewOf, Underway, CopyIn.MapAndCopy, CopyPage, Chunk;
      ghost var s1 := State();
      UnderwayHolds(s, s1, root, va, flags, data, done);
      UnderwayStep(s, s1, root, va, flags, data, done);
      assert src[from + done..from + done + n] == data[done..done + n];
      ok := CopyChunk(root, va + done, flags, src, from + done, n);
    }

    /** The loops of load_elf and do_judge that call map_page for every page from `from` to `to`. */
    method MapRange(root: nat, from: nat, to: nat, flags: Flags) returns (ok: bool)
      requires root != 0 ==> Inv(State(), root)
      requires from % PGSIZE == 0 && to % PGSIZE == 0 && to <= VA_LIMIT
      modifies alloc`next, alloc`used, alloc`bits, mem
      ensures (State(), ok) == CopyIn.MapRange(old(State()), root, from / PGSIZE, to / PGSIZE, flags)
    {
      hide Inv, CopyIn.MapRange, AddressSpace.MapPage;
      ghost var s, lo, hi := State(), from / PGSIZE, to / PGSIZE;
      var pg := from;
      ghost var k := lo;
      while pg < to
        invariant pg == PGSIZE * k && to == PGSIZE * hi && lo <= k && Proper(State(), root)
        invariant CopyIn.MapRange(s, root, lo, hi, flags) == CopyIn.MapRange(State(), root, k, hi, flags)
      {
        RangeUnfolds(State(), root, k, hi, flags);
        var f := MapPage(root, pg, flags);
        if f == 0 {
          return false;
        }
        pg, k := pg + PGSIZE, k + 1;
      }
      RangeEnds(State(), root, k, hi, flags);
      return true;
    }

    // map_and_copy covers [page][page][page] in three parts: the rest of the first page,
    // whole pages, and the beginning of the last one.

    /** Part 1, when va is not on a page boundary. */
    method CopyHead(root: nat, ghost s: State, va: nat, flags: Flags, src: array<byte>, from: nat,
                    ghost data: seq<byte>, len: nat)
      returns (ok: bool, done: nat)
      requires Underway(s, State(), root, va, flags, data, 0) && Source(src, from, data)
      requires |data| == len > 0 && va + len <= VA_LIMIT
      modifies alloc`next, alloc`used, alloc`bits, mem
      ensures Source(src, from, data)
      ensures ok ==> done == HeadLength(va, len) && Underway(s, State(), root, va, flags, data, done)
      ensures !ok ==> done < len && (State(), done) == CopyIn.MapAndCopy(s, root, va, flags, data)
    {
      hide Underway, CopyIn.MapAndCopy;
      done := 0;
      var beginAligned := PgAlignFloor(va);
      if va != beginAligned {
        var chunk: nat := PGSIZE - (va - beginAligned);
        if len < chunk {
          chunk := len;
        }
        ok := CopyNext(root, s, va, flags, src, from, data, 0, chunk);
        if !ok {
          return;
        }
        done := chunk;
      }
      ok := true;
    }

    /** Part 2, the whole pages from the first boundary at or after va. */
    method CopyMiddle(root: nat, ghost s: State, va: nat, flags: Flags, src: array<byte>, from: nat,
                      ghost data: seq<byte>, len: nat, head: nat)
      returns (ok: bool, done: nat)
      requires Underway(s, State(), root, va, flags, data, head) && Source(src, from, data)
      requires |data| == len > 0 && va + len <= VA_LIMIT && head == HeadLength(va, len)
      modifies alloc`next, alloc`used, alloc`bits, mem
      ensures Source(src, from, data)
      ensures ok ==> TailStart(va, len, done) && Underway(s, State(), root, va, flags, data, done)
      ensures !ok ==> done < len && (State(), done) == CopyIn.MapAndCopy(s, root, va, flags, data)
    {
      hide Underway, CopyIn.MapAndCopy;
      HeadEnds(va, len);
      done := head;
      ok := true;
      var pg, midEnd := PgAlign(va), PgAlignFloor(va + len);
      while pg < midEnd
        invariant done <= len && Middle(va, len, done, pg) && ok
        invariant Source(src, from, data) && Underway(s, State(), root, va, flags, data, done)
      {
        MiddlePage(va, len, done, pg);
        ok := CopyNext(root, s, va, flags, src, from, data, done, PGSIZE);
        if !ok {
          return;
        }
        done, pg := done + PGSIZE, pg + PGSIZE;
      }
      MiddleEnds(va, len, done, pg);
    }

    /** map_and_copy of len bytes of src, from index `from` on. Success copies them all;
        -EOOM means memory is exhausted, after some first part was copied. */
    method MapAndCopy(root: nat, va: nat, flags: Flags, src: array<byte>, from: nat, len: nat)
      returns (ret: int, ghost done: nat)
      requires root != 0 ==> Inv(State(), root)
      requires from + len <= src.Length && va + len <= VA_LIMIT
      modifies alloc`next, alloc`used, alloc`bits, mem
      ensures (State(), done) == CopyIn.MapAndCopy(old(State()), root, va, flags, old(src[from..from + len]))
      ensures ret == if done == len then 0 else -EOOM
    {
      hide Inv, Underway, CopyIn.MapAndCopy, HeadLength;
      ghost var s, data := State(), src[from..from + len];
      CopyBegins(s, root, va, flags, data);
      if len == 0 || root == 0 {
        return if len == 0 then 0 else -EOOM, 0;
      }
      var ok, copied := CopyHead(root, s, va, flags, src, from, data, len);
      if !ok {
        return -EOOM, copied;
      }
      ok, copied := CopyMiddle(root, s, va, flags, src, from, data, len, copied);
      if !ok {
        return -EOOM, copied;
      }
      var left := len - copied;
      if left > 0 {
        TailIsChunk(va, len, copied);
        ok := CopyNext(root, s, va, flags, src, from, data, copied, left);
        if !ok {
          return -EOOM, copied;
        }
      }
      CopyEnds(s, State(), root, va, flags, data);
      return 0, len;
    }
  }

  // ---- a copy on its way ----

  /** A copy of data that began in state s has come to state s1 with the first `done` bytes in
      place: what is left to do is a copy of the rest. */
  ghost predicate Underway(s: State, s1: State, root: nat, va: nat, flags: Flags, data: seq<byte>, done: nat) {
    && root != 0 && Inv(s, root) && Inv(s1, root) && done <= |data| && va + |data| <= VA_LIMIT
    && var (s2, rest) := CopyIn.MapAndCopy(s1, root, va + done, flags, data[done..]);
       CopyIn.MapAndCopy(s, root, va, flags, data) == (s2, done + rest)
  }

  lemma UnderwayHolds(s: State, s1: State, root: nat, va: nat, flags: Flags, data: seq<byte>, done: nat)
    requires Underway(s, s1, root, va, flags, data, done) && done < |data|
    ensures root != 0 && Inv(s, root) && Inv(s1, root) && va + |data| <= VA_LIMIT
    ensures var n := Chunk(va + done, |data| - done);
            0 < n <= |data| - done && (va + done) % PGSIZE + n <= PGSIZE && (va + done) / PGSIZE < VPNS
  {
    hide Inv, CopyIn.MapAndCopy;
  }

  lemma UnderwayStep(s: State, s1: State, root: nat, va: nat, flags: Flags, data: seq<byte>, done: nat)
    requires Underway(s, s1, root, va, flags, data, done) && done < |data|
    requires root != 0 && Inv(s, root) && Inv(s1, root) && (va + done) / PGSIZE < VPNS && va + |data| <= VA_LIMIT
    ensures var n := Chunk(va + done, |data| - done);
            var (s2, ok) := CopyPage(s1, root, va + done, flags, data[done..done + n]);
            if ok then Underway(s, s2, root, va, flags, data, done + n)
            else CopyIn.MapAndCopy(s, root, va, flags, data) == (s2, done)
  {
    hide Inv, CopyPage, Chunk;
    var rest := data[done..];
    var n := Chunk(va + done, |rest|);
    assert rest[..n] == data[done..done + n] && rest[n..] == data[done + n..];
    CopyPageSpec(s1, root, va + done, flags, rest[..n]);
  }

  lemma RangeUnfolds(s: State, root: nat, k: nat, hi: nat, flags: Flags)
    requires Proper(s, root) && k < hi <= VPNS
    ensures var (s1, f) := AddressSpace.MapPage(s, root, PGSIZE * k, flags);
            if f == 0 then CopyIn.MapRange(s, root, k, hi, flags) == (s1, false)
            else
              && Proper(s1, root)
              && CopyIn.MapRange(s, root, k, hi, flags) == CopyIn.MapRange(s1, root, k + 1, hi, flags)
  {
    hide Inv, AddressSpace.MapPage;
    if AddressSpace.MapPage(s, root, PGSIZE * k, flags).1 != 0 {
      MappedFrame(s, root, PGSIZE * k, flags);
    }
  }

  lemma RangeEnds(s: State, root: nat, k: nat, hi: nat, flags: Flags)
    requires Proper(s, root) && hi <= VPNS && k >= hi
    ensures CopyIn.MapRange(s, root, k, hi, flags) == (s, true)
  {}

  lemma CopyBegins(s: State, root: nat, va: nat, flags: Flags, data: seq<byte>)
    requires Proper(s, root) && va + |data| <= VA_LIMIT
    ensures root != 0 ==> Underway(s, s, root, va, flags, data, 0)
    ensures data == [] || root == 0 ==> CopyIn.MapAndCopy(s, root, va, flags, data) == (s, 0)
  {
    hide Inv;
    assert data[0..] == data;
    if root == 0 && data != [] {
      ChunkInReach(va, |data|);
      NullMapsNothing(s, PgAlignFloor(va), flags);
    }
  }

  lemma CopyEnds(s: State, s1: State, root: nat, va: nat, flags: Flags, data: seq<byte>)
    requires Underway(s, s1, root, va, flags, data, |data|)
    ensures Proper(s, root) && va + |data| <= VA_LIMIT
    ensures CopyIn.MapAndCopy(s, root, va, flags, data) == (s1, |data|)
  {
    hide Inv;
    assert data[|data|..] == [];
  }

  // ---- the three parts of a range ----

  /** The bytes before the first page boundary at or after va. */
  function HeadLength(va: nat, len: nat): (n: nat)
    ensures n <= len
  {
    if va % PGSIZE == 0 then 0 else if len < PGSIZE - va % PGSIZE then len else PGSIZE - va % PGSIZE
  }

  /** The loop over whole pages is at page pg, and `done` bytes are behind it. */
  predicate Middle(va: nat, len: nat, done: nat, pg: nat) {
    pg % PGSIZE == 0 && if done < len then pg == va + done else va + len <= pg
  }

  /** What is left fits in the page that starts at va + done. */
  predicate TailStart(va: nat, len: nat, done: nat) {
    done <= len && (done < len ==> (va + done) % PGSIZE == 0 && len - done < PGSIZE)
  }

  lemma HeadEnds(va: nat, len: nat)
    ensures Middle(va, len, HeadLength(va, len), PgAlign(va))
  {}

  lemma MiddlePage(va: nat, len: nat, done: nat, pg: nat)
    requires done <= len && Middle(va, len, done, pg) && pg < PgAlignFloor(va + len) && va + len <= VA_LIMIT
    ensures done + PGSIZE <= len && Chunk(va + done, len - done) == PGSIZE
    ensures Middle(va, len, done + PGSIZE, pg + PGSIZE)
  {}

  lemma TailIsChunk(va: nat, len: nat, done: nat)
    requires TailStart(va, len, done) && done < len
    ensures Chunk(va + done, len - done) == len - done
  {}

  lemma MiddleEnds(va: nat, len: nat, done: nat, pg: nat)
    requires done <= len && Middle(va, len, done, pg) && pg >= PgAlignFloor(va + len)
    ensures TailStart(va, len, done)
  {}
}
