/** mm.c as it runs: the allocator updated in place, against the functions of PageAllocator. */
module Mm {
  import opened Bits
  import PageAllocator

  /** Page p has a byte of the addresses from lo up to hi. */
  predicate PageMeets(p: nat, lo: nat, hi: nat) {
    lo < 4096 * p + 4096 && 4096 * p < hi
  }

  lemma MetadataFits(size: nat)
    requires size % 64 == 0
    ensures (size / 8 + 7) / 8 * 8 == size / 8 && (24 + size / 8) % 8 == 0
  {
    var k := size / 64;
    assert size == 64 * k && size / 8 == 8 * k;
  }

  /** After finish_add_pages no page that is handed out, however many are asked for, has a byte of
      the bitmap at `base` or of the snapshot behind it. */
  lemma MetadataNeverHandedOut(m: PageAllocator.Bitmap, base: nat, snapshotAt: nat, n: nat, i: nat)
    requires PageAllocator.Valid(m) && snapshotAt == base + 24 + m.size / 8
    requires PageAllocator.TakenBelow(m, snapshotAt + 24 + m.size / 8)
    requires i < |PageAllocator.Allocate(m, n).1| && PageAllocator.Allocate(m, n).1[i] != 0
    ensures var p := PageAllocator.Allocate(m, n).1[i];
            && !PageMeets(p, base, base + 24 + m.size / 8)
            && !PageMeets(p, snapshotAt, snapshotAt + 24 + m.size / 8)
  {
    hide PageAllocator.Allocate, PageAllocator.Valid, PageAllocator.TakenBelow;
    PageAllocator.AllocateAbove(m, n, snapshotAt + 24 + m.size / 8);
  }

  /** The allocator state in kernel memory: *mmbm at physical address `base`, followed by
      its snapshot. */
  class Allocator {
    const base: nat
    var size: nat
    var next: nat
    var used: nat
    var bits: seq<bool>
    var snapshotAt: nat
    var snapshot: PageAllocator.Bitmap

    function State(): PageAllocator.Bitmap
      reads this
    {
      PageAllocator.Bitmap(size, next, used, bits)
    }

    /** init_mm: the bitmap starts empty at the first 16-byte boundary after .bss. */
    constructor (bssEnd: nat)
      ensures State() == PageAllocator.Bitmap(0, 0, 0, [])
      ensures base % 16 == 0 && bssEnd <= base < bssEnd + 16
    {
      base := (bssEnd + 15) / 16 * 16;
      size, next, used, bits := 0, 0, 0, [];
      snapshotAt, snapshot := 0, PageAllocator.Bitmap(0, 0, 0, []);
    }

    /** mmbm_size: three words, then one bit a page in whole words. */
    function MetadataSize(): nat
      reads this
    {
      24 + (size / 8 + 7) / 8 * 8
    }

    method TakePages(start: nat, n: nat)
      requires start + n <= size == |bits|
      modifies this
      ensures State() == PageAllocator.TakePages(old(State()), start, n)
      ensures snapshot == old(snapshot) && snapshotAt == old(snapshotAt)
    {
      for i := 0 to n
        invariant size == |bits| == old(|bits|)
        invariant State() == PageAllocator.TakePages(old(State()), start, i)
        invariant snapshot == old(snapshot) && snapshotAt == old(snapshotAt)
      {
        var pg := i + start;
        if !bits[pg] {
          bits := bits[pg := true];
          used := used + 1;
        }
      }
    }

    /** add_pages. It returns false where the source reports an error and stops for good. */
    method AddPages(start: nat, n: nat) returns (ok: bool)
      requires size == |bits|
      modifies this
      ensures (State(), ok) == PageAllocator.AddPages(old(State()), start, n)
    {
      var lastAdded := size;
      if start < lastAdded {
        return false;
      }
      size := start + n;
      bits := bits + seq(size - |bits|, _ => false);
      TakePages(lastAdded, start - lastAdded);
      return true;
    }

    /** finish_add_pages: the snapshot goes behind the bitmap, which has 24 bytes and one bit for
        each page, and exactly the pages up to the end of the snapshot's last page are taken. */
    method FinishAddPages()
      requires PageAllocator.Counted(State()) && base + 2 * (24 + size / 8) <= 4096 * size
      requires base > 0
      modifies this
      ensures PageAllocator.Counted(State()) && size == old(size) && next == old(next)
      ensures snapshotAt == base + 24 + size / 8 && (snapshotAt - base) % 8 == 0
      ensures forall p :: 0 <= p < size ==>
                bits[p] == (old(bits)[p] || 4096 * p < snapshotAt + 24 + size / 8)
      ensures bits[0] && PageAllocator.TakenBelow(State(), snapshotAt + 24 + size / 8)
      ensures forall p :: 0 <= p < size && PageMeets(p, base, base + 24 + size / 8) ==> bits[p]
      ensures forall p :: 0 <= p < size && PageMeets(p, snapshotAt, snapshotAt + 24 + size / 8) ==> bits[p]
    {
      MetadataFits(size);
      snapshotAt := base + MetadataSize();
      var availableStart := (snapshotAt + MetadataSize() + 4095) / 4096 * 4096;
      PageAllocator.TakePagesSpec(State(), 0, availableStart / 4096);
      TakePages(0, availableStart / 4096);
    }

    /** get_free_page: the page taken, or 0. */
    method GetFreePage() returns (p: nat)
      requires PageAllocator.Valid(State())
      modifies this`next, this`used, this`bits
      ensures (State(), p) == PageAllocator.GetFreePage(old(State()))
    {
      if used == size {
        return 0;
      }
      var nblocks: nat, index: nat := size / 64, next;
      ghost var m := State();
      var i: nat := 0;
      while i < nblocks
        invariant i <= nblocks && State() == m && 64 * index < size
        invariant PageAllocator.Scan(m, m.next, nblocks) == PageAllocator.Scan(m, index, nblocks - i)
      {
        PageAllocator.ScanRound(m, index, nblocks - i);
        if Pack(PageAllocator.WordAt(bits, index)) != ALL_ONES {
          p := TakeFirstClear(index);
          return;
        }
        index := if index == nblocks - 1 then 0 else index + 1;
        i := i + 1;
      }
      return 0;
    }

    /** Take the page of the first clear bit of word `index`. */
    method TakeFirstClear(index: nat) returns (p: nat)
      requires size == |bits| && size % 64 == 0 && 64 * index < size
      requires Pack(PageAllocator.WordAt(bits, index)) != ALL_ONES
      modifies this`next, this`used, this`bits
      ensures (State(), p) == PageAllocator.TakeIn(old(State()), index)
    {
      hide Pack, FindZero;
      FindZeroPack(PageAllocator.WordAt(bits, index));
      var offset := BitsFindZero(Pack(PageAllocator.WordAt(bits, index)));
      p := 64 * index + offset;
      bits := bits[p := true];
      next := index;
      used := used + 1;
    }

    method TakeSnapshot()
      modifies this`snapshot
      ensures snapshot == State()
    {
      snapshot := State();
    }

    /** mm_restore_snapshot copies the snapshot back, whatever has happened since. */
    method RestoreSnapshot()
      modifies this`size, this`next, this`used, this`bits
      ensures State() == snapshot
    {
      size, next, used, bits := snapshot.size, snapshot.next, snapshot.used, snapshot.bits;
    }
  }
}
