/** The physical page allocator of mm.c. Pages are named by their number: page p is the
    physical address `p << PGSHIFT`, and page 0 doubles as the NULL the source returns.
    The bitmap is the sequence of its bits: the source's `bits[p >> 6]`, bit `p & 63`, is
    `bits[p]`, and module Bits relates the two forms. */
module PageAllocator {
  import opened Bits

  /** mm_bitmap_t */
  datatype Bitmap = Bitmap(size: nat, next: nat, used: nat, bits: seq<bool>)

  ghost function Taken(bits: seq<bool>): set<nat> {
    set p: nat | p < |bits| && bits[p]
  }

  ghost predicate Counted(m: Bitmap) {
    m.size == |m.bits| && m.size % 64 == 0 && m.used == |Taken(m.bits)|
  }

  /** What holds whenever the kernel may ask for a page: the counter is right, the scan
      position is in range, and page 0 (NULL) is never handed out. */
  ghost predicate Valid(m: Bitmap) {
    Counted(m) && 64 * m.next < m.size && m.bits[0]
  }

  function WordAt(bits: seq<bool>, index: nat): Word
    requires 64 * index + 64 <= |bits|
  {
    bits[64 * index..64 * index + 64]
  }

  // ---- the operations ----

  /** One round of the loop in take_pages. */
  function TakePage(m: Bitmap, p: nat): (r: Bitmap)
    requires p < |m.bits|
    ensures |r.bits| == |m.bits| && r.size == m.size && r.next == m.next
  {
    if m.bits[p] then m else m.(bits := m.bits[p := true], used := m.used + 1)
  }

  function TakePages(m: Bitmap, start: nat, n: nat): (r: Bitmap)
    requires start + n <= |m.bits|
    ensures |r.bits| == |m.bits| && r.size == m.size && r.next == m.next
  {
    if n == 0 then m else TakePage(TakePages(m, start, n - 1), start + n - 1)
  }

  function Grow(m: Bitmap, size: nat): Bitmap
    requires |m.bits| <= size
  {
    m.(size := size, bits := m.bits + seq(size - |m.bits|, _ => false))
  }

  /** add_pages; false is the endless loop entered when the pages were added before. */
  function AddPages(m: Bitmap, start: nat, n: nat): (Bitmap, bool)
    requires m.size == |m.bits|
  {
    if start < m.size then (m, false)
    else (TakePages(Grow(m, start + n), m.size, start - m.size), true)
  }

  function NextWord(m: Bitmap, index: nat): (r: nat)
    requires |m.bits| % 64 == 0 && 64 * index < |m.bits|
    ensures 64 * r < |m.bits|
  {
    if index == |m.bits| / 64 - 1 then 0 else index + 1
  }

  /** Take the page of the first clear bit of word `index`. */
  function TakeIn(m: Bitmap, index: nat): (r: (Bitmap, nat))
    requires 64 * index + 64 <= |m.bits| && Pack(WordAt(m.bits, index)) != ALL_ONES
    ensures |r.0.bits| == |m.bits| && r.0.size == m.size
  {
    FindZeroPack(WordAt(m.bits, index));
    var page := 64 * index + FindZero(Pack(WordAt(m.bits, index)));
    (m.(bits := m.bits[page := true], next := index, used := m.used + 1), page)
  }

  /** The rounds of the loop in get_free_page that are still to come. */
  function Scan(m: Bitmap, index: nat, rounds: nat): (r: (Bitmap, nat))
    requires |m.bits| % 64 == 0 && 64 * index < |m.bits|
    ensures |r.0.bits| == |m.bits| && r.0.size == m.size
    decreases rounds
  {
    if rounds == 0 then (m, 0)
    else if Pack(WordAt(m.bits, index)) != ALL_ONES then TakeIn(m, index)
    else Scan(m, NextWord(m, index), rounds - 1)
  }

  lemma ScanRound(m: Bitmap, index: nat, rounds: nat)
    requires |m.bits| % 64 == 0 && 64 * index < |m.bits| && rounds > 0
    ensures Scan(m, index, rounds) == if Pack(WordAt(m.bits, index)) != ALL_ONES then TakeIn(m, index)
                                      else Scan(m, NextWord(m, index), rounds - 1)
  {}

  function GetFreePage(m: Bitmap): (r: (Bitmap, nat))
    requires |m.bits| % 64 == 0 && 64 * m.next < |m.bits|
    ensures |r.0.bits| == |m.bits| && r.0.size == m.size
  {
    if m.used == m.size then (m, 0) else Scan(m, m.next, |m.bits| / 64)
  }

  // ---- sets of pages ----

  ghost function Pages(lo: nat, hi: nat): (ps: set<nat>)
    ensures forall p :: p in ps <==> lo <= p < hi
  {
    if hi <= lo then {} else Pages(lo, hi - 1) + {hi - 1}
  }

  lemma PagesStep(lo: nat, hi: nat)
    requires lo < hi
    ensures hi - 1 !in Pages(lo, hi - 1) && Pages(lo, hi) == Pages(lo, hi - 1) + {hi - 1}
  {}

  lemma {:induction false} PagesCount(lo: nat, hi: nat)
    requires lo <= hi
    ensures |Pages(lo, hi)| == hi - lo
  {
    hide Pages;
    if lo < hi {
      PagesCount(lo, hi - 1);
      PagesStep(lo, hi);
    } else {
      assert Pages(lo, hi) == {};
    }
  }

  lemma {:induction false} SubsetCount<T>(a: set<T>, b: set<T>)
    requires a <= b
    ensures |a| <= |b|
  {
    if a != {} {
      var x :| x in a;
      SubsetCount(a - {x}, b - {x});
    }
  }

  /** The allocator is full exactly when every page is taken. */
  lemma FullIffAllTaken(m: Bitmap)
    requires Counted(m)
    ensures m.used <= m.size
    ensures m.used == m.size <==> forall p :: 0 <= p < m.size ==> m.bits[p]
  {
    PagesCount(0, m.size);
    if p :| 0 <= p < m.size && !m.bits[p] {
      SubsetCount(Taken(m.bits), Pages(0, m.size) - {p});
    } else {
      assert Taken(m.bits) == Pages(0, m.size);
    }
  }

  lemma SetOneBit(bits: seq<bool>, p: nat)
    requires p < |bits|
    ensures Taken(bits[p := true]) == Taken(bits) + {p}
    ensures !bits[p] ==> |Taken(bits[p := true])| == |Taken(bits)| + 1
  {
    assert Taken(bits[p := true]) == Taken(bits) + {p};
  }

  lemma TakePageCounted(m: Bitmap, p: nat)
    requires Counted(m) && p < m.size
    ensures Counted(TakePage(m, p)) && TakePage(m, p).bits == m.bits[p := true]
  {
    SetOneBit(m.bits, p);
  }

  /** take_pages takes exactly the given range, and counts each page once. */
  lemma {:induction false} TakePagesSpec(m: Bitmap, start: nat, n: nat)
    requires Counted(m) && start + n <= m.size
    ensures Counted(TakePages(m, start, n))
    ensures forall p :: 0 <= p < m.size ==> TakePages(m, start, n).bits[p] == (m.bits[p] || start <= p < start + n)
  {
    if n > 0 {
      TakePagesSpec(m, start, n - 1);
      TakePageCounted(TakePages(m, start, n - 1), start + n - 1);
    }
  }

  lemma GrowCounted(m: Bitmap, size: nat)
    requires Counted(m) && m.size <= size && size % 64 == 0
    ensures Counted(Grow(m, size))
  {
    assert Taken(Grow(m, size).bits) == Taken(m.bits);
  }

  /** add_pages takes the gap below the new range, leaves the range itself free, and keeps
      what was there. */
  lemma AddPagesSpec(m: Bitmap, start: nat, n: nat)
    requires Counted(m) && (start + n) % 64 == 0 && m.size <= start
    ensures var (r, ok) := AddPages(m, start, n);
            && ok && Counted(r) && r.size == start + n
            && forall p :: 0 <= p < r.size ==> r.bits[p] == if p < m.size then m.bits[p] else p < start
  {
    GrowCounted(m, start + n);
    TakePagesSpec(Grow(m, start + n), m.size, start - m.size);
  }

  // ---- get_free_page ----

  ghost predicate FreePage(m: Bitmap, p: nat) {
    p < |m.bits| && !m.bits[p]
  }

  /** How far page p lies ahead of word `index`, wrapping round at the end. */
  function Ahead(m: Bitmap, index: nat, p: nat): int {
    if 64 * index <= p then p - 64 * index else p + |m.bits| - 64 * index
  }

  /** Page p is the first free one at or after word `index`, in circular order. */
  ghost predicate FirstFree(m: Bitmap, index: nat, p: nat) {
    FreePage(m, p) && forall q: nat :: FreePage(m, q) ==> Ahead(m, index, p) <= Ahead(m, index, q)
  }

  lemma {:induction false} SomeFirstFree(m: Bitmap, index: nat, q: nat) returns (p: nat)
    requires 64 * index < |m.bits| && FreePage(m, q)
    ensures FirstFree(m, index, p)
    decreases Ahead(m, index, q)
  {
    if r: nat :| FreePage(m, r) && Ahead(m, index, r) < Ahead(m, index, q) {
      p := SomeFirstFree(m, index, r);
    } else {
      p := q;
    }
  }

  lemma OpenWord(m: Bitmap, index: nat, p: nat)
    requires |m.bits| % 64 == 0 && 64 * index < |m.bits| && FirstFree(m, index, p)
    ensures Pack(WordAt(m.bits, index)) != ALL_ONES <==> Ahead(m, index, p) < 64
    ensures Ahead(m, index, p) < 64 ==> 64 * index + FindZero(Pack(WordAt(m.bits, index))) == p
  {
    var word := WordAt(m.bits, index);
    FindZeroPack(word);
    forall k | 0 <= k < 64
      ensures !word[k] ==> FreePage(m, 64 * index + k) && Ahead(m, index, 64 * index + k) == k
    {}
    if Ahead(m, index, p) < 64 {
      assert !word[p - 64 * index];
    }
  }

  lemma PassFullWord(m: Bitmap, index: nat, p: nat)
    requires |m.bits| % 64 == 0 && 64 * index < |m.bits|
    requires FirstFree(m, index, p) && Ahead(m, index, p) >= 64
    ensures FirstFree(m, NextWord(m, index), p)
    ensures Ahead(m, NextWord(m, index), p) == Ahead(m, index, p) - 64
  {
    forall q: nat | FreePage(m, q)
      ensures Ahead(m, NextWord(m, index), q) == Ahead(m, index, q) - 64
    {
      assert Ahead(m, index, p) <= Ahead(m, index, q);
    }
  }

  lemma ScanHere(m: Bitmap, index: nat, rounds: nat, p: nat)
    requires |m.bits| % 64 == 0 && 64 * index < |m.bits| && rounds > 0
    requires FirstFree(m, index, p) && Ahead(m, index, p) < 64
    ensures Scan(m, index, rounds) == (m.(bits := m.bits[p := true], next := p / 64, used := m.used + 1), p)
  {
    OpenWord(m, index, p);
    assert p / 64 == index;
  }

  /** Wherever it starts, the scan ends at the first free page in circular order. */
  lemma {:induction false} ScanSpec(m: Bitmap, index: nat, rounds: nat, p: nat)
    requires |m.bits| % 64 == 0 && 64 * index < |m.bits|
    requires FirstFree(m, index, p) && Ahead(m, index, p) < 64 * rounds
    ensures Scan(m, index, rounds) == (m.(bits := m.bits[p := true], next := p / 64, used := m.used + 1), p)
    decreases rounds
  {
    if Ahead(m, index, p) < 64 {
      ScanHere(m, index, rounds, p);
    } else {
      OpenWord(m, index, p);
      PassFullWord(m, index, p);
      ScanSpec(m, NextWord(m, index), rounds - 1, p);
    }
  }

  /** get_free_page returns 0 exactly when no page is free, and then changes nothing.
      Otherwise it takes the first free page in circular order from the scan position; it
      never leaves the loop without having found one, and it keeps the allocator valid. */
  lemma GetFreePageSpec(m: Bitmap)
    requires Valid(m)
    ensures var (r, p) := GetFreePage(m);
            && Valid(r) && r.size == m.size
            && (p == 0 <==> forall q: nat :: !FreePage(m, q))
            && (p == 0 ==> r == m)
            && (p != 0 ==> FirstFree(m, m.next, p) && r.bits == m.bits[p := true])
  {
    FullIffAllTaken(m);
    if m.used < m.size {
      var q :| 0 <= q < m.size && !m.bits[q];
      var p := SomeFirstFree(m, m.next, q);
      ScanSpec(m, m.next, |m.bits| / 64, p);
      SetOneBit(m.bits, p);
    }
  }

  // ---- any number of allocations, and the snapshot bracket of judge_entry ----

  /** The state after n calls of get_free_page, and what they returned. */
  function Allocate(m: Bitmap, n: nat): (r: (Bitmap, seq<nat>))
    requires Valid(m)
    ensures Valid(r.0) && |r.1| == n
  {
    if n == 0 then (m, [])
    else
      var (m1, pages) := Allocate(m, n - 1);
      GetFreePageSpec(m1);
      var (m2, p) := GetFreePage(m1);
      (m2, pages + [p])
  }

  /** r is m with the pages handed out, 0 standing for none left. */
  ghost predicate HandedOut(m: Bitmap, r: Bitmap, pages: seq<nat>) {
    && r.size == m.size && |r.bits| == |m.bits| == r.size
    && (forall q: nat :: FreePage(r, q) ==> FreePage(m, q))
    && (forall i :: 0 <= i < |pages| && pages[i] != 0 ==> FreePage(m, pages[i]) && !FreePage(r, pages[i]))
    && (forall i, j :: 0 <= i < j < |pages| && pages[i] != 0 ==> pages[i] != pages[j])
    && (forall i :: 0 <= i < |pages| && pages[i] == 0 ==> NoneFree(r))
  }

  ghost predicate NoneFree(m: Bitmap) {
    forall q: nat :: !FreePage(m, q)
  }

  lemma HandOutOne(m: Bitmap, m1: Bitmap, pages: seq<nat>, r: Bitmap, p: nat)
    requires HandedOut(m, m1, pages) && r.size == m1.size
    requires p == 0 ==> NoneFree(m1) && r == m1
    requires p != 0 ==> FreePage(m1, p) && p < |m1.bits| && r.bits == m1.bits[p := true]
    ensures HandedOut(m, r, pages + [p])
  {
    assert forall q: nat :: FreePage(r, q) ==> FreePage(m1, q);
  }

  /** Allocations return pages that were free at the start, no page twice, and 0 only when
      every page is taken; so a page taken at the start is never handed out. */
  lemma {:induction false} AllocateSpec(m: Bitmap, n: nat)
    requires Valid(m)
    ensures HandedOut(m, Allocate(m, n).0, Allocate(m, n).1)
  {
    hide HandedOut, Ahead, GetFreePage;
    if n > 0 {
      var (m1, pages) := Allocate(m, n - 1);
      AllocateSpec(m, n - 1);
      GetFreePageSpec(m1);
      var (r, p) := GetFreePage(m1);
      HandOutOne(m, m1, pages, r, p);
    } else {
      NoneHandedOut(m);
    }
  }

  /** Every page that starts below address `end` is taken. */
  ghost predicate TakenBelow(m: Bitmap, end: nat) {
    forall p: nat :: p < |m.bits| && 4096 * p < end ==> m.bits[p]
  }

  /** Once finish_add_pages has taken everything below available_start, no page handed out lies
      below it: not the kernel image, the bitmap, nor the snapshot. */
  lemma AllocateAbove(m: Bitmap, n: nat, end: nat)
    requires Valid(m) && TakenBelow(m, end)
    ensures TakenBelow(Allocate(m, n).0, end)
    ensures forall i :: 0 <= i < |Allocate(m, n).1| && Allocate(m, n).1[i] != 0 ==> 4096 * Allocate(m, n).1[i] >= end
  {
    hide Allocate, Valid;
    AllocateSpec(m, n);
    var (r, pages) := Allocate(m, n);
    forall p: nat | p < |r.bits| && 4096 * p < end
      ensures r.bits[p]
    {
      assert FreePage(r, p) ==> FreePage(m, p);
    }
  }

  lemma NoneHandedOut(m: Bitmap)
    requires Valid(m)
    ensures HandedOut(m, m, [])
  {}

  /** The bitmap and its snapshot. */
  datatype Pair = Pair(live: Bitmap, saved: Bitmap)

  /** judge_entry serving one request that allocates n pages: snapshot, run, restore. */
  function Serve(s: Pair, n: nat): (r: (Pair, seq<nat>))
    requires Valid(s.live)
    ensures Valid(r.0.live)
  {
    var saved := s.(saved := s.live);
    var (live, pages) := Allocate(saved.live, n);
    var after := saved.(live := live);
    (after.(live := after.saved), pages)
  }

  function ServeAll(s: Pair, ns: seq<nat>): (r: (Pair, seq<seq<nat>>))
    requires Valid(s.live)
    ensures Valid(r.0.live) && |r.1| == |ns|
    decreases |ns|
  {
    if ns == [] then (s, [])
    else
      var (s1, pages) := ServeAll(s, ns[..|ns| - 1]);
      var (s2, more) := Serve(s1, ns[|ns| - 1]);
      (s2, pages + [more])
  }

  /** Over any number of requests nothing leaks, and every request gets the pages it would
      have got from the first state. */
  lemma {:induction false} ServeAllSpec(s: Pair, ns: seq<nat>)
    requires Valid(s.live)
    ensures var (r, pages) := ServeAll(s, ns);
            r.live == s.live && forall i :: 0 <= i < |ns| ==> pages[i] == Allocate(s.live, ns[i]).1
    decreases |ns|
  {
    if ns != [] {
      ServeAllSpec(s, ns[..|ns| - 1]);
    }
  }
}
