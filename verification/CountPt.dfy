/** count_pt of vm.c: the recursive page count is the size of a set of virtual pages. */
module CountPt {
  import opened Bytes
  import opened Sv39
  import opened PageTable
  import opened PageAllocator
  import opened AddressSpace

  // ---- the count, as the source computes it ----

  /** What one entry of a level-`level` table contributes. */
  function EntryCount(mem: Memory, level: nat, pte: nat, flags: Flags): nat
    decreases level, 0
  {
    if !PteValid(pte) then 0
    else if level > 0 && PteTable(pte) then CountEntries(mem, level - 1, PteFrame(pte), flags, ENTRIES)
    else if HoldsAll(PteFlags(pte), flags) then Width(level)
    else 0
  }

  /** The sum over the first n entries of table f. */
  function CountEntries(mem: Memory, level: nat, f: nat, flags: Flags, n: nat): nat
    decreases level, n + 1
  {
    if n == 0 then 0
    else CountEntries(mem, level, f, flags, n - 1) + EntryCount(mem, level, Entry(mem, f, n - 1), flags)
  }

  function CountTable(mem: Memory, root: nat, flags: Flags): nat {
    CountEntries(mem, 2, root, flags, ENTRIES)
  }

  lemma CountOneMore(mem: Memory, level: nat, f: nat, flags: Flags, i: nat)
    ensures CountEntries(mem, level, f, flags, i + 1)
            == CountEntries(mem, level, f, flags, i) + EntryCount(mem, level, Entry(mem, f, i), flags)
  {
    hide EntryCount, Entry;
  }

  lemma NoEntries(mem: Memory, level: nat, f: nat, flags: Flags)
    ensures CountEntries(mem, level, f, flags, 0) == 0
  {}

  /** count_pt_level: the loop over the entries, recursive for tables. */
  method CountPtLevel(mem: array<Frame>, level: nat, pt: nat, flags: Flags) returns (count: nat)
    requires level <= 2
    ensures count == CountEntries(mem[..], level, pt, flags, ENTRIES)
    decreases level
  {
    hide CountEntries, Entry, PteTable, PteFlags, HoldsAll, Width, PteFrame;
    count := 0;
    NoEntries(mem[..], level, pt, flags);
    for i := 0 to ENTRIES
      invariant count == CountEntries(mem[..], level, pt, flags, i)
    {
      CountOneMore(mem[..], level, pt, flags, i);
      var pte := Entry(mem[..], pt, i);
      if PteValid(pte) {
        if level > 0 && PteTable(pte) {
          var below := CountPtLevel(mem, level - 1, PteFrame(pte), flags);
          count := count + below;
        } else if HoldsAll(PteFlags(pte), flags) {
          count := count + Width(level);
        }
      }
    }
  }

  method CountPt(mem: array<Frame>, pt: nat, flags: Flags) returns (count: nat)
    ensures count == CountTable(mem[..], pt, flags)
  {
    count := CountPtLevel(mem, 2, pt, flags);
  }

  // ---- the walk ----

  /** The top digit of page number p below a level-`level` table, and the rest. */
  function Top(level: nat, p: nat): nat {
    if level == 0 then p else if level == 1 then p / 512 else p / 0x4_0000
  }

  function Rest(level: nat, p: nat): nat {
    if level == 0 then 0 else if level == 1 then p % 512 else p % 0x4_0000
  }

  /** The entry at which the walk for page p below table f ends, and its level; None if it
      meets an invalid entry. */
  function Walk(mem: Memory, level: nat, f: nat, p: nat): Option<(nat, nat)> {
    var pte := Entry(mem, f, Top(level, p));
    if !PteValid(pte) then None
    else if level > 0 && PteTable(pte) then Walk(mem, level - 1, PteFrame(pte), Rest(level, p))
    else Some((pte, level))
  }

  predicate Reaches(mem: Memory, level: nat, f: nat, p: nat, flags: Flags) {
    var w := Walk(mem, level, f, p);
    w.Some? && HoldsAll(PteFlags(w.value.0), flags)
  }

  ghost function Reached(mem: Memory, level: nat, f: nat, flags: Flags, lo: nat, hi: nat): set<nat> {
    set p: nat | lo <= p < hi && Reaches(mem, level, f, p, flags)
  }

  // ---- the count is the size of the set ----

  lemma {:induction false} ShiftCount(s: set<nat>, t: set<nat>, c: nat)
    requires forall q :: q in s ==> c + q in t
    requires forall p :: p in t ==> p >= c && p - c in s
    ensures |t| == |s|
  {
    if s == {} {
      assert t == {};
    } else {
      var q :| q in s;
      ShiftCount(s - {q}, t - {c + q}, c);
    }
  }

  lemma Digits(level: nat, i: nat, q: nat)
    requires level <= 2 && q < Width(level)
    ensures Top(level, Width(level) * i + q) == i && Rest(level, Width(level) * i + q) == q
  {}

  /** Whether a walk that enters at entry i reaches a leaf is decided by that entry. */
  predicate ReachesVia(mem: Memory, level: nat, pte: nat, q: nat, flags: Flags) {
    && PteValid(pte)
    && if level > 0 && PteTable(pte) then Reaches(mem, level - 1, PteFrame(pte), q, flags)
       else HoldsAll(PteFlags(pte), flags)
  }

  lemma WalkEnters(mem: Memory, level: nat, f: nat, flags: Flags, i: nat, q: nat)
    requires level <= 2 && q < Width(level)
    ensures Reaches(mem, level, f, Width(level) * i + q, flags) <==> ReachesVia(mem, level, Entry(mem, f, i), q, flags)
  {
    Digits(level, i, q);
  }

  ghost function Slot(mem: Memory, level: nat, f: nat, flags: Flags, i: nat): set<nat> {
    Reached(mem, level, f, flags, Width(level) * i, Width(level) * i + Width(level))
  }

  lemma SlotShift(mem: Memory, level: nat, f: nat, flags: Flags, i: nat, below: set<nat>)
    requires level <= 2
    requires forall q: nat :: q in below <==> q < Width(level) && ReachesVia(mem, level, Entry(mem, f, i), q, flags)
    ensures |Slot(mem, level, f, flags, i)| == |below|
  {
    hide Reaches, ReachesVia, Width;
    var c := Width(level) * i;
    forall q: nat | q < Width(level)
      ensures c + q in Slot(mem, level, f, flags, i) <==> q in below
    {
      WalkEnters(mem, level, f, flags, i, q);
    }
    forall p | p in Slot(mem, level, f, flags, i)
      ensures p >= c && p - c in below
    {
      assert c + (p - c) in Slot(mem, level, f, flags, i);
    }
    ShiftCount(below, Slot(mem, level, f, flags, i), c);
  }

  /** The pages below one entry. */
  lemma SlotCount(mem: Memory, level: nat, f: nat, flags: Flags, i: nat)
    requires level <= 2 && i < ENTRIES
    requires level > 0 && PteTable(Entry(mem, f, i)) ==>
               |Reached(mem, level - 1, PteFrame(Entry(mem, f, i)), flags, 0, Width(level))|
               == CountEntries(mem, level - 1, PteFrame(Entry(mem, f, i)), flags, ENTRIES)
    ensures |Slot(mem, level, f, flags, i)| == EntryCount(mem, level, Entry(mem, f, i), flags)
  {
    var pte := Entry(mem, f, i);
    if PteValid(pte) && level > 0 && PteTable(pte) {
      SlotShift(mem, level, f, flags, i, Reached(mem, level - 1, PteFrame(pte), flags, 0, Width(level)));
    } else if PteValid(pte) && HoldsAll(PteFlags(pte), flags) {
      PagesCount(0, Width(level));
      SlotShift(mem, level, f, flags, i, Pages(0, Width(level)));
    } else {
      SlotShift(mem, level, f, flags, i, {});
    }
  }

  lemma SlotsBelow(mem: Memory, level: nat, f: nat, flags: Flags, n: nat)
    requires level <= 2 && 0 < n
    ensures |Reached(mem, level, f, flags, 0, Width(level) * n)|
            == |Reached(mem, level, f, flags, 0, Width(level) * (n - 1))| + |Slot(mem, level, f, flags, n - 1)|
  {
    var mid := Width(level) * (n - 1);
    assert Width(level) * n == mid + Width(level);
    SplitReached(mem, level, f, flags, mid, mid + Width(level));
  }

  lemma WidthStep(level: nat)
    requires 0 < level <= 2
    ensures Width(level - 1) * ENTRIES == Width(level)
  {}

  lemma NoneReached(mem: Memory, level: nat, f: nat, flags: Flags)
    ensures |Reached(mem, level, f, flags, 0, Width(level) * 0)| == 0
  {
    assert Reached(mem, level, f, flags, 0, Width(level) * 0) == {};
  }

  lemma {:induction false} CountReached(mem: Memory, level: nat, f: nat, flags: Flags, n: nat)
    requires level <= 2 && n <= ENTRIES
    ensures |Reached(mem, level, f, flags, 0, Width(level) * n)| == CountEntries(mem, level, f, flags, n)
    decreases level, n
  {
    hide Width, Slot, Reached, EntryCount;
    if n == 0 {
      NoneReached(mem, level, f, flags);
    } else {
      CountReached(mem, level, f, flags, n - 1);
      if level > 0 {
        CountReached(mem, level - 1, PteFrame(Entry(mem, f, n - 1)), flags, ENTRIES);
        WidthStep(level);
      }
      SlotCount(mem, level, f, flags, n - 1);
      SlotsBelow(mem, level, f, flags, n);
    }
  }

  lemma SplitReached(mem: Memory, level: nat, f: nat, flags: Flags, mid: nat, hi: nat)
    requires mid <= hi
    ensures |Reached(mem, level, f, flags, 0, hi)|
            == |Reached(mem, level, f, flags, 0, mid)| + |Reached(mem, level, f, flags, mid, hi)|
  {
    assert Reached(mem, level, f, flags, 0, hi)
           == Reached(mem, level, f, flags, 0, mid) + Reached(mem, level, f, flags, mid, hi);
  }

  /** count_pt, for any three-level table whatsoever: the number of page numbers below 2^27
      whose walk ends in an entry holding all the flags. A leaf at level l ends the walks of
      512^l of them. */
  lemma CountTableIsCardinality(mem: Memory, root: nat, flags: Flags)
    ensures CountTable(mem, root, flags) == |set vpn: nat | vpn < VPNS && Reaches(mem, 2, root, vpn, flags)|
  {
    CountReached(mem, 2, root, flags, ENTRIES);
    assert Reached(mem, 2, root, flags, 0, VPNS) == set vpn: nat | vpn < VPNS && Reaches(mem, 2, root, vpn, flags);
  }

  // ---- the count against the hardware's walk ----

  /** What the RISC-V privileged architecture, version 1.11 (section 4.4.1 with 4.3.2, steps 3 to
      6), accepts as a leaf: readable or executable, not writable without readable, and an aligned
      superpage. Version 1.12 also rejects entries with reserved bits set, and A, D and U are
      reserved in the inner entries, where make_pte sets A and D. */
  predicate Sv39Leaf(pte: nat, level: nat) {
    && PteValid(pte) && (Digit(pte, R) || Digit(pte, X)) && (Digit(pte, W) ==> Digit(pte, R))
    && PteFrame(pte) % Width(level) == 0
  }

  /** The walk of the hardware for page vpn ends in a leaf holding all the flags. */
  predicate Translates(mem: Memory, root: nat, vpn: nat, flags: Flags) {
    var w := Walk(mem, 2, root, vpn);
    w.Some? && Sv39Leaf(w.value.0, w.value.1) && HoldsAll(PteFlags(w.value.0), flags)
  }

  /** count_pt also counts entries the hardware faults on (at the lowest level it does not
      look at R, W and X at all), so it is the number of translated pages exactly when no
      walk ends in such an entry with the flags set. */
  lemma CountIsSv39(mem: Memory, root: nat, flags: Flags)
    ensures CountTable(mem, root, flags) == |set vpn: nat | vpn < VPNS && Translates(mem, root, vpn, flags)|
            <==> forall vpn: nat :: vpn < VPNS && Reaches(mem, 2, root, vpn, flags) ==>
                   Sv39Leaf(Walk(mem, 2, root, vpn).value.0, Walk(mem, 2, root, vpn).value.1)
  {
    hide Walk, Sv39Leaf, HoldsAll, CountEntries;
    CountTableIsCardinality(mem, root, flags);
    var counted := set vpn: nat | vpn < VPNS && Reaches(mem, 2, root, vpn, flags);
    var translated := set vpn: nat | vpn < VPNS && Translates(mem, root, vpn, flags);
    assert translated <= counted;
    if vpn: nat :| vpn < VPNS && Reaches(mem, 2, root, vpn, flags) && !Translates(mem, root, vpn, flags) {
      SubsetCount(translated, counted - {vpn});
    } else {
      assert translated == counted;
    }
  }

  // ---- the count of a table built by the kernel ----

  lemma VpnLevels(vpn: nat)
    requires vpn < VPNS
    ensures Top(2, vpn) == vpn / 512 / 512 < 512
    ensures Top(1, Rest(2, vpn)) == vpn / 512 % 512 && Rest(1, Rest(2, vpn)) == vpn % 512
  {
    var a, i0 := vpn / 512, vpn % 512;
    var i2, i1 := a / 512, a % 512;
    assert vpn == 0x4_0000 * i2 + (512 * i1 + i0);
  }

  lemma WalkLowest(mem: Memory, t: nat, i: nat)
    ensures Walk(mem, 0, t, i) == if PteValid(Entry(mem, t, i)) then Some((Entry(mem, t, i), 0)) else None
  {}

  lemma NodeMiddle(mem: Memory, root: nat, vpn: nat)
    requires vpn < VPNS
    ensures Node(mem, root, 1, vpn / 512 / 512)
            == if PteValid(Entry(mem, root, vpn / 512 / 512)) then Some(PteFrame(Entry(mem, root, vpn / 512 / 512)))
              else None
  {
    assert Node(mem, root, 0, vpn / 512 / 512 / 512) == Some(root);
    assert vpn / 512 / 512 % 512 == vpn / 512 / 512;
  }

  /** The walk of count_pt finds the leaf entries of the tree. */
  lemma WalkIsNode(s: State, root: nat, vpn: nat)
    requires Inv(s, root) && vpn < VPNS
    ensures Walk(s.mem, 2, root, vpn)
            == if Node(s.mem, root, 3, vpn).Some? then Some((LeafPte(s.mem, root, vpn), 0)) else None
  {
    VpnLevels(vpn);
    var mid := vpn / 512 / 512;
    assert InTree(0, 0) && InTree(1, mid) && InTree(2, vpn / 512);
    NodeMiddle(s.mem, root, vpn);
    var e2 := Entry(s.mem, root, mid);
    assert Node(s.mem, root, 0, 0) == Some(root) && InnerTable(s.mem, root);
    if PteValid(e2) {
      var t1 := PteFrame(e2);
      assert InnerTable(s.mem, Node(s.mem, root, 1, mid).value);
      var e1 := Entry(s.mem, t1, vpn / 512 % 512);
      if PteValid(e1) {
        WalkLowest(s.mem, PteFrame(e1), vpn % 512);
      }
    }
  }

  lemma ReachesIffInView(s: State, root: nat, flags: Flags, vpn: nat)
    requires Inv(s, root) && vpn < VPNS
    ensures Reaches(s.mem, 2, root, vpn, flags)
            <==> vpn in ViewOf(s.mem, root) && HoldsAll(ViewOf(s.mem, root)[vpn].flags, flags)
  {
    WalkIsNode(s, root, vpn);
    assert InTree(3, vpn);
  }

  /** The pages of an address space that have all the given flags. */
  ghost function PagesWith(v: View, flags: Flags): set<nat> {
    set vpn | vpn in v && HoldsAll(v[vpn].flags, flags)
  }

  /** For a table the kernel built, count_pt is the number of pages the user's address space
      has with all the flags. */
  lemma CountIsView(s: State, root: nat, flags: Flags)
    requires Inv(s, root)
    ensures CountTable(s.mem, root, flags) == |PagesWith(ViewOf(s.mem, root), flags)|
  {
    hide Inv, Reaches, HoldsAll, CountTable, PageAt;
    CountTableIsCardinality(s.mem, root, flags);
    forall vpn: nat | vpn < VPNS
      ensures Reaches(s.mem, 2, root, vpn, flags)
              <==> vpn in ViewOf(s.mem, root) && HoldsAll(ViewOf(s.mem, root)[vpn].flags, flags)
    {
      ReachesIffInView(s, root, flags, vpn);
    }
    assert (set vpn: nat | vpn < VPNS && Reaches(s.mem, 2, root, vpn, flags)) == PagesWith(ViewOf(s.mem, root), flags);
  }

  /** The flags of a page the hardware translates. */
  predicate Translatable(f: Flags) {
    (f.r || f.x) && (f.w ==> f.r)
  }

  lemma TranslatesInView(s: State, root: nat, vpn: nat, flags: Flags)
    requires Inv(s, root) && vpn < VPNS
    ensures Reaches(s.mem, 2, root, vpn, flags)
            <==> vpn in ViewOf(s.mem, root) && HoldsAll(ViewOf(s.mem, root)[vpn].flags, flags)
    ensures Reaches(s.mem, 2, root, vpn, flags) ==>
              (Sv39Leaf(Walk(s.mem, 2, root, vpn).value.0, Walk(s.mem, 2, root, vpn).value.1)
               <==> Translatable(ViewOf(s.mem, root)[vpn].flags))
  {
    hide Inv, ViewOf, Walk, Node, HoldsAll, LeafPte;
    WalkIsNode(s, root, vpn);
    ReachesIffInView(s, root, flags, vpn);
    if Node(s.mem, root, 3, vpn).Some? {
      FlagsInView(s, root, vpn);
      LeafIsValid(s.mem, root, vpn);
    }
  }

  lemma LeafIsValid(mem: Memory, root: nat, vpn: nat)
    requires Node(mem, root, 3, vpn).Some?
    ensures PteValid(LeafPte(mem, root, vpn))
  {}

  /** For a table the kernel built: count_pt is the number of pages the hardware translates with
      all the flags exactly when each page that has them is readable or executable, and readable
      if it is writable. */
  lemma CountIsTranslated(s: State, root: nat, flags: Flags)
    requires Inv(s, root)
    ensures CountTable(s.mem, root, flags) == |set vpn: nat | vpn < VPNS && Translates(s.mem, root, vpn, flags)|
            <==> forall vpn :: vpn in PagesWith(ViewOf(s.mem, root), flags) ==>
                   Translatable(ViewOf(s.mem, root)[vpn].flags)
  {
    hide Inv, ViewOf, Walk, HoldsAll, CountTable, Translates, Sv39Leaf;
    CountIsSv39(s.mem, root, flags);
    MappedBelow(s.mem, root);
    forall vpn: nat | vpn < VPNS
      ensures Reaches(s.mem, 2, root, vpn, flags)
              <==> vpn in ViewOf(s.mem, root) && HoldsAll(ViewOf(s.mem, root)[vpn].flags, flags)
      ensures Reaches(s.mem, 2, root, vpn, flags) ==>
                (Sv39Leaf(Walk(s.mem, 2, root, vpn).value.0, Walk(s.mem, 2, root, vpn).value.1)
                 <==> Translatable(ViewOf(s.mem, root)[vpn].flags))
    {
      TranslatesInView(s, root, vpn, flags);
    }
  }

  lemma MappedBelow(mem: Memory, root: nat)
    ensures forall vpn :: vpn in ViewOf(mem, root) ==> vpn < VPNS
  {}

  // VM_U | VM_A
  const USER_ACCESSED := Flags(false, false, false, true, true, false)

  /** The count exceeds the translated pages as soon as one page is mapped without R, W and X, as
      load_elf does for a segment whose header has no permission flags. */
  lemma PermissionlessPage(s: State, root: nat, va: nat)
    requires root != 0 && Inv(s, root) && ViewOf(s.mem, root) == map[]
    requires MapPage(s, root, va, USER_ACCESSED).1 != 0
    ensures var s' := MapPage(s, root, va, USER_ACCESSED).0;
            && CountTable(s'.mem, root, USER_ACCESSED) == 1
            && forall vpn: nat :: vpn < VPNS ==> !Translates(s'.mem, root, vpn, USER_ACCESSED)
  {
    hide Inv, CountTable, MapPage, Translates, ViewOf, Grows, Node, AnyFree;
    MapPageSpec(s, root, va, USER_ACCESSED);
    var s' := MapPage(s, root, va, USER_ACCESSED).0;
    CountIsView(s', root, USER_ACCESSED);
    assert PagesWith(ViewOf(s'.mem, root), USER_ACCESSED) == {Vpn(va)};
    forall vpn: nat | vpn < VPNS
      ensures !Translates(s'.mem, root, vpn, USER_ACCESSED)
    {
      NotTranslated(s', root, vpn);
    }
  }

  lemma NotTranslated(s: State, root: nat, vpn: nat)
    requires Inv(s, root) && vpn < VPNS
    requires vpn in ViewOf(s.mem, root) ==> ViewOf(s.mem, root)[vpn].flags == USER_ACCESSED
    ensures !Translates(s.mem, root, vpn, USER_ACCESSED)
  {
    hide Inv, ViewOf, Walk, Node;
    WalkIsNode(s, root, vpn);
    if Node(s.mem, root, 3, vpn).Some? {
      FlagsInView(s, root, vpn);
    }
  }

  lemma FlagsInView(s: State, root: nat, vpn: nat)
    requires Inv(s, root) && vpn < VPNS && Node(s.mem, root, 3, vpn).Some?
    ensures vpn in ViewOf(s.mem, root) && ViewOf(s.mem, root)[vpn].flags == PteFlags(LeafPte(s.mem, root, vpn))
  {
    assert InTree(3, vpn);
  }
}
