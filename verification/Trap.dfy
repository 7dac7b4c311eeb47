/** The page-fault branch of trap_handler (arch/riscv/trap_handler.c): accessed and dirty bits
    are set by software, on the traps the hardware takes when it finds them clear. */
module Trap {
  import opened Bytes
  import opened Sv39
  import opened PageTable
  import opened AddressSpace
  import CopyIn

  datatype Kind = Fetch | Load | Store

  // ---- who grants what ----

  /** The permissions the hardware asks of a leaf for a user access; writable without
      readable is a reserved encoding, and faults. */
  predicate HardwareGrants(f: Flags, kind: Kind) {
    && f.u && (f.w ==> f.r)
    && match kind case Fetch => f.x case Load => f.r case Store => f.w
  }

  /** The hardware completes a granted access when A, and D for a store, are set. */
  predicate Completes(f: Flags, kind: Kind) {
    HardwareGrants(f, kind) && f.a && (kind.Store? ==> f.d)
  }

  /** `(*pte & flags) == flags` in trap_handler. */
  predicate HandlerGrants(f: Flags, kind: Kind) {
    f.u && match kind case Fetch => f.x case Load => f.r case Store => f.r && f.w
  }

  /** The handler grants whatever the hardware grants; it grants more exactly for a fetch
      from a page mapped executable and writable but not readable, which the hardware
      never completes. */
  lemma GrantsAgree(f: Flags, kind: Kind)
    ensures HardwareGrants(f, kind) ==> HandlerGrants(f, kind)
    ensures HandlerGrants(f, kind) && !HardwareGrants(f, kind)
            <==> kind.Fetch? && f.u && f.x && f.w && !f.r
  {}

  // ---- setting the bits ----

  function Set(mem: Memory, t: nat, i: nat, store: bool): (r: Memory)
    requires t < |mem| && i < ENTRIES
    ensures |r| == |mem|
  {
    mem[t := StoreEntry(mem[t], i, Touch(Entry(mem, t, i), store))]
  }

  function TouchedPage(p: Page, store: bool): Page {
    p.(flags := p.flags.(a := true, d := store || p.flags.d))
  }

  function Touched(v: View, vpn: nat, store: bool): View
    requires vpn in v
  {
    v[vpn := TouchedPage(v[vpn], store)]
  }

  /** The page-fault branch: true if the handler returns to the user, false if it ends the
      program. Looking for the entry may create tables on the way. */
  function PageFault(s: State, root: nat, va: nat, kind: Kind): (State, bool)
    requires root != 0 && Inv(s, root)
  {
    var (s1, t) := GetPte(s, root, va);
    if t == 0 then (s1, false)
    else
      GetPteSpec(s, root, va);
      Decide(s1, t, PtIdx(0, va), kind)
  }

  // ---- what setting the bits does to the tree ----

  ghost predicate LeafEntry(s: State, root: nat, p: nat, t: nat, i: nat) {
    && Inv(s, root) && InTree(2, p) && Node(s.mem, root, 2, p) == Some(t) && t < |s.mem| && i < ENTRIES
    && PteValid(Entry(s.mem, t, i))
  }

  lemma EntryFits(mem: Memory, t: nat, i: nat, store: bool)
    requires t < |mem| && i < ENTRIES
    ensures Touch(Entry(mem, t, i), store) < TWO_64
  {
    FromLeBound(mem[t][8 * i..8 * i + 8]);
    Pow256Of8();
    Shl64();
    var pte := Entry(mem, t, i);
    SetDigitBound(pte, A, 64);
    SetDigitBound(SetDigit(pte, A), D, 64);
  }

  lemma ShlEight(k: nat)
    ensures Shl(1, k + 8) == 256 * Shl(1, k)
  {
    assert Shl(1, k + 1) == 2 * Shl(1, k) && Shl(1, k + 2) == 2 * Shl(1, k + 1);
    assert Shl(1, k + 3) == 2 * Shl(1, k + 2) && Shl(1, k + 4) == 2 * Shl(1, k + 3);
    assert Shl(1, k + 5) == 2 * Shl(1, k + 4) && Shl(1, k + 6) == 2 * Shl(1, k + 5);
    assert Shl(1, k + 7) == 2 * Shl(1, k + 6);
  }

  lemma Shl64()
    ensures Shl(1, 64) == TWO_64
  {
    hide Shl;
    ShlZero();
    ShlEight(0);
    ShlEight(8);
    ShlEight(16);
    ShlEight(24);
    ShlEight(32);
    ShlEight(40);
    ShlEight(48);
    ShlEight(56);
  }

  lemma ShlZero()
    ensures Shl(1, 0) == 1
  {}

  lemma SetEntries(s: State, root: nat, p: nat, t: nat, i: nat, store: bool, h: nat, j: nat)
    requires LeafEntry(s, root, p, t, i)
    ensures Entry(Set(s.mem, t, i, store), h, j)
            == if h == t && j == i then Touch(Entry(s.mem, t, i), store) else Entry(s.mem, h, j)
  {
    EntryFits(s.mem, t, i, store);
    if h == t && j < ENTRIES {
      EntryOfStore(s.mem[t], i, Touch(Entry(s.mem, t, i), store), j);
    }
  }

  lemma SetSameLinks(s: State, root: nat, p: nat, t: nat, i: nat, store: bool)
    requires LeafEntry(s, root, p, t, i)
    ensures SameLinks(s.mem, Set(s.mem, t, i, store), root)
  {
    TouchSpec(Entry(s.mem, t, i), store);
    forall h: nat, j: nat
      ensures Entry(Set(s.mem, t, i, store), h, j)
              == if h == t && j == i then Touch(Entry(s.mem, t, i), store) else Entry(s.mem, h, j)
    {
      SetEntries(s, root, p, t, i, store, h, j);
    }
  }

  lemma SetNode(s: State, root: nat, p: nat, t: nat, i: nat, store: bool, d: nat, q: nat)
    requires LeafEntry(s, root, p, t, i) && InTree(d, q)
    ensures Node(Set(s.mem, t, i, store), root, d, q) == Node(s.mem, root, d, q)
  {
    SetSameLinks(s, root, p, t, i, store);
    SameLinksSameNodes(s.mem, Set(s.mem, t, i, store), root, d, q);
  }

  lemma SetInnerTables(s: State, root: nat, p: nat, t: nat, i: nat, store: bool)
    requires LeafEntry(s, root, p, t, i)
    ensures InnerTables(Set(s.mem, t, i, store), root)
  {
    var mem' := Set(s.mem, t, i, store);
    forall d: nat, q: nat | d < 2 && InTree(d, q) && Node(mem', root, d, q).Some?
      ensures InnerTable(mem', Node(mem', root, d, q).value)
    {
      SetNode(s, root, p, t, i, store, d, q);
      LowestOnly(s, root, p, t, i, d, q);
      CopyIn.SameTable(s.mem, mem', Node(s.mem, root, d, q).value);
    }
  }

  lemma LowestOnly(s: State, root: nat, p: nat, t: nat, i: nat, d: nat, q: nat)
    requires LeafEntry(s, root, p, t, i) && d < 2 && InTree(d, q) && Node(s.mem, root, d, q).Some?
    ensures Node(s.mem, root, d, q).value != t && Node(s.mem, root, d, q).value < |s.mem|
    ensures InnerTable(s.mem, Node(s.mem, root, d, q).value)
  {}

  lemma SetInv(s: State, root: nat, p: nat, t: nat, i: nat, store: bool)
    requires LeafEntry(s, root, p, t, i)
    ensures var s' := s.(mem := Set(s.mem, t, i, store));
            Inv(s', root) && Grows(s, s', root)
  {
    forall d: nat, q: nat | InTree(d, q)
      ensures Node(Set(s.mem, t, i, store), root, d, q) == Node(s.mem, root, d, q)
    {
      SetNode(s, root, p, t, i, store, d, q);
    }
    assert InUse(s.mem, root, t);
    SetInnerTables(s, root, p, t, i, store);
  }

  lemma SetPageAt(s: State, root: nat, p: nat, t: nat, i: nat, store: bool, vpn: nat)
    requires LeafEntry(s, root, p, t, i) && vpn < VPNS
    ensures PageAt(s.mem, root, 512 * p + i).Some?
    ensures PageAt(Set(s.mem, t, i, store), root, vpn)
            == if vpn == 512 * p + i then Some(TouchedPage(PageAt(s.mem, root, vpn).value, store))
               else PageAt(s.mem, root, vpn)
  {
    ChildInTree(2, p, i);
    ParentInTree(3, vpn);
    SetNode(s, root, p, t, i, store, 3, vpn);
    SetNode(s, root, p, t, i, store, 2, vpn / 512);
    TouchSpec(Entry(s.mem, t, i), store);
    DataApart(s, root, p, t, i, vpn);
    if Node(s.mem, root, 2, vpn / 512).Some? {
      SetEntries(s, root, p, t, i, store, Node(s.mem, root, 2, vpn / 512).value, vpn % 512);
    }
  }

  /** Data pages are not table t, and only page 512 * p + i has its entry there at i. */
  lemma DataApart(s: State, root: nat, p: nat, t: nat, i: nat, vpn: nat)
    requires LeafEntry(s, root, p, t, i) && vpn < VPNS
    ensures Node(s.mem, root, 3, vpn).Some? ==> Node(s.mem, root, 3, vpn).value != t
    ensures Node(s.mem, root, 2, vpn / 512) == Some(t) ==> vpn / 512 == p
    ensures Node(s.mem, root, 3, 512 * p + i).Some? && Node(s.mem, root, 3, 512 * p + i).value < |s.mem|
  {
    ChildInTree(2, p, i);
    ParentInTree(3, vpn);
    assert InTree(3, vpn) && InTree(3, 512 * p + i);
  }

  lemma LeafMapped(s: State, root: nat, p: nat, t: nat, i: nat)
    requires LeafEntry(s, root, p, t, i)
    ensures 512 * p + i < VPNS && 512 * p + i in ViewOf(s.mem, root)
    ensures ViewOf(s.mem, root)[512 * p + i].flags == PteFlags(Entry(s.mem, t, i))
  {
    ChildInTree(2, p, i);
    DataApart(s, root, p, t, i, 512 * p + i);
  }

  lemma SetViewAt(s: State, root: nat, p: nat, t: nat, i: nat, store: bool, u: nat, vpn: nat)
    requires LeafEntry(s, root, p, t, i) && u == 512 * p + i && u in ViewOf(s.mem, root) && vpn < VPNS
    ensures var v := Touched(ViewOf(s.mem, root), u, store);
            PageAt(Set(s.mem, t, i, store), root, vpn) == if vpn in v then Some(v[vpn]) else None
  {
    hide Set, TouchedPage, Node, InTree;
    SetPageAt(s, root, p, t, i, store, vpn);
  }

  lemma SetView(s: State, root: nat, p: nat, t: nat, i: nat, store: bool, u: nat)
    requires t < |s.mem| && i < ENTRIES
    requires LeafEntry(s, root, p, t, i) && u == 512 * p + i && u in ViewOf(s.mem, root)
    ensures ViewOf(Set(s.mem, t, i, store), root) == Touched(ViewOf(s.mem, root), u, store)
  {
    hide LeafEntry, Set, PageAt, TouchedPage, Node, InTree;
    var v := Touched(ViewOf(s.mem, root), u, store);
    forall vpn: nat | vpn < VPNS
      ensures PageAt(Set(s.mem, t, i, store), root, vpn) == if vpn in v then Some(v[vpn]) else None
    {
      SetViewAt(s, root, p, t, i, store, u, vpn);
    }
    ViewIs(Set(s.mem, t, i, store), root, v);
  }

  /** The outcome of a page fault for page vpn, through the user's view. */
  ghost predicate Handles(s: State, s': State, root: nat, vpn: nat, kind: Kind, resolved: bool) {
    var v := ViewOf(s.mem, root);
    && Inv(s', root) && Grows(s, s', root)
    && (resolved <==> vpn in v && HandlerGrants(v[vpn].flags, kind))
    && ViewOf(s'.mem, root) == if resolved then Touched(v, vpn, kind.Store?) else v
  }

  /** The handler's decision on entry i of the table it found. */
  function Decide(s: State, t: nat, i: nat, kind: Kind): (State, bool)
    requires t < |s.mem| && i < ENTRIES
  {
    var pte := Entry(s.mem, t, i);
    if PteValid(pte) && HandlerGrants(PteFlags(pte), kind)
    then (s.(mem := Set(s.mem, t, i, kind.Store?)), true)
    else (s, false)
  }

  lemma DecideSpec(s: State, root: nat, p: nat, t: nat, i: nat, kind: Kind)
    requires Inv(s, root) && InTree(2, p) && Node(s.mem, root, 2, p) == Some(t) && t < |s.mem| && i < ENTRIES
    ensures var (s', resolved) := Decide(s, t, i, kind);
            Handles(s, s', root, 512 * p + i, kind, resolved)
  {
    hide HandlerGrants, Grows, Set, Inv, Touched, ViewOf, PteFlags, Entry;
    QuietReflexive(s, root);
    if PteValid(Entry(s.mem, t, i)) {
      LeafMapped(s, root, p, t, i);
      SetInv(s, root, p, t, i, kind.Store?);
      SetView(s, root, p, t, i, kind.Store?, 512 * p + i);
    } else {
      Unmapped(s, root, p, t, i);
    }
  }

  lemma Unmapped(s: State, root: nat, p: nat, t: nat, i: nat)
    requires InTree(2, p) && Node(s.mem, root, 2, p) == Some(t) && i < ENTRIES && !PteValid(Entry(s.mem, t, i))
    ensures 512 * p + i !in ViewOf(s.mem, root)
  {
    hide ViewOf, Node, Entry, InTree;
    var u := 512 * p + i;
    assert u / 512 == p && u % 512 == i;
    NoLeaf(s, root, u, t);
  }

  lemma NoLeaf(s: State, root: nat, u: nat, t: nat)
    requires Node(s.mem, root, 2, u / 512) == Some(t) && !PteValid(Entry(s.mem, t, u % 512))
    ensures u !in ViewOf(s.mem, root)
  {
    hide Entry, PteValid;
    assert Node(s.mem, root, 3, u).None?;
  }

  lemma QuietThenHandles(s: State, s1: State, s2: State, root: nat, vpn: nat, kind: Kind, resolved: bool)
    requires Quiet(s, s1, root) && Handles(s1, s2, root, vpn, kind, resolved)
    ensures Handles(s, s2, root, vpn, kind, resolved)
  {
    hide Inv, Grows, ViewOf, HandlerGrants, Touched;
    GrowsTransitive(s, s1, s2, root);
  }

  lemma NoTable(s: State, root: nat, va: nat)
    requires root != 0 && Inv(s, root) && GetPte(s, root, va).1 == 0
    ensures Vpn(va) !in ViewOf(s.mem, root)
  {
    hide GetPte;
    if Vpn(va) in ViewOf(s.mem, root) {
      assert Node(s.mem, root, 2, Vpn(va) / 512).Some?;
      GetPteExisting(s, root, va);
    }
  }

  lemma QuietKills(s: State, s1: State, root: nat, vpn: nat, kind: Kind)
    requires Quiet(s, s1, root) && vpn !in ViewOf(s.mem, root)
    ensures Handles(s, s1, root, vpn, kind, false)
  {
    hide Inv, Grows, ViewOf;
  }

  /** A page fault is resolved exactly when the page is mapped and the handler grants the
      access; then that page's A, and D for a store, are set, and nothing else changes. A
      fault that is not resolved changes no page. */
  lemma PageFaultSpec(s: State, root: nat, va: nat, kind: Kind)
    requires root != 0 && Inv(s, root)
    ensures var (s', resolved) := PageFault(s, root, va, kind);
            Handles(s, s', root, Vpn(va), kind, resolved)
  {
    hide Inv, Handles, GetPte, Vpn, PtIdx, Decide, Node, InTree;
    GetPteSpec(s, root, va);
    var (s1, t) := GetPte(s, root, va);
    if t == 0 {
      NoTable(s, root, va);
      QuietKills(s, s1, root, Vpn(va), kind);
    } else {
      PageFaultFound(s, s1, root, va, t, kind);
    }
  }

  lemma PageFaultFound(s: State, s1: State, root: nat, va: nat, t: nat, kind: Kind)
    requires Quiet(s, s1, root) && t != 0 && Found(s1, root, 2, Vpn(va) / 512, t)
    ensures t < |s1.mem|
    ensures var (s', resolved) := Decide(s1, t, PtIdx(0, va), kind);
            Handles(s, s', root, Vpn(va), kind, resolved)
  {
    hide Inv, Handles, Decide;
    VpnDigits(va);
    assert InTree(2, Vpn(va) / 512);
    DecideSpec(s1, root, Vpn(va) / 512, t, PtIdx(0, va), kind);
    var (s', resolved) := Decide(s1, t, PtIdx(0, va), kind);
    QuietThenHandles(s, s1, s', root, Vpn(va), kind, resolved);
  }

  // ---- one attempt ----

  /** How an attempt ends: the access is done, the program is ended, or the handler has
      returned and the hardware faults again on the same access. */
  datatype Ending = Done | Ended | Faults

  /** The upper bits of an address must all equal bit 38, or the hardware faults. */
  predicate Canonical(va: nat) {
    va < USER_TOP || TWO_64 - USER_TOP <= va < TWO_64
  }

  /** The hardware's walk finds the page, and completes the access. */
  predicate CompletesAt(mem: Memory, root: nat, va: nat, kind: Kind) {
    var p := PageAt(mem, root, Vpn(va));
    Canonical(va) && p.Some? && Completes(p.value.flags, kind)
  }

  /** The hardware attempts an access; on a fault the handler runs and, if it returns, the
      hardware attempts the access again. The result counts the traps. */
  function Attempt(s: State, root: nat, va: nat, kind: Kind): (State, nat, Ending)
    requires root != 0 && Inv(s, root)
  {
    if CompletesAt(s.mem, root, va, kind) then (s, 0, Done)
    else
      var (s1, resolved) := PageFault(s, root, va, kind);
      (s1, 1, if !resolved then Ended else if CompletesAt(s1.mem, root, va, kind) then Done else Faults)
  }

  lemma PageInView(mem: Memory, root: nat, vpn: nat)
    requires vpn < VPNS
    ensures vpn in ViewOf(mem, root) <==> PageAt(mem, root, vpn).Some?
    ensures vpn in ViewOf(mem, root) ==> ViewOf(mem, root)[vpn] == PageAt(mem, root, vpn).value
  {}

  /** The permissions of the address space let the hardware complete the access. */
  ghost predicate Granted(v: View, va: nat, kind: Kind) {
    Canonical(va) && Vpn(va) in v && HardwareGrants(v[Vpn(va)].flags, kind)
  }

  /** They let the handler return, which does not look at the upper bits of the address. */
  ghost predicate Allowed(v: View, va: nat, kind: Kind) {
    Vpn(va) in v && HandlerGrants(v[Vpn(va)].flags, kind)
  }

  /** An access the hardware grants is done after at most one trap: none if the bits were
      set, one that sets them otherwise. One that the handler does not allow ends the program.
      In between lie the fetch of GrantsAgree and the addresses that only alias a page: the
      handler sets the bits of that page, and the hardware faults again. */
  lemma AttemptSpec(s: State, root: nat, va: nat, kind: Kind)
    requires root != 0 && Inv(s, root)
    ensures var (s', traps, ending) := Attempt(s, root, va, kind);
            var v, vpn := ViewOf(s.mem, root), Vpn(va);
            && Inv(s', root) && Grows(s, s', root)
            && (ending.Done? <==> Granted(v, va, kind)) && (ending.Ended? <==> !Allowed(v, va, kind))
            && ViewOf(s'.mem, root) == (if ending.Ended? then v else Touched(v, vpn, kind.Store?))
            && traps == if ending.Done? && Completes(v[vpn].flags, kind) then 0 else 1
  {
    hide Inv, Grows, ViewOf, PageFault, Vpn, PageAt, Canonical, Completes, HandlerGrants, HardwareGrants, TouchedPage;
    var v, vpn := ViewOf(s.mem, root), Vpn(va);
    PageInView(s.mem, root, vpn);
    PageFaultSpec(s, root, va, kind);
    QuietReflexive(s, root);
    var (s1, resolved) := PageFault(s, root, va, kind);
    PageInView(s1.mem, root, vpn);
    if vpn in v {
      GrantsAgree(v[vpn].flags, kind);
      CompletesWhenTouched(v[vpn], kind);
      if Completes(v[vpn].flags, kind) {
        TouchedAgain(v, vpn, kind);
      }
    }
  }

  /** Completing needs the permissions, and the bits that a trap sets. */
  lemma CompletesWhenTouched(p: Page, kind: Kind)
    ensures Completes(p.flags, kind) ==> HardwareGrants(p.flags, kind)
    ensures Completes(TouchedPage(p, kind.Store?).flags, kind) <==> HardwareGrants(p.flags, kind)
  {}

  lemma TouchedAgain(v: View, vpn: nat, kind: Kind)
    requires vpn in v && Completes(v[vpn].flags, kind)
    ensures Touched(v, vpn, kind.Store?) == v
  {}

  lemma TouchedTwice(v: View, vpn: nat, store: bool)
    requires vpn in v
    ensures Touched(Touched(v, vpn, store), vpn, store) == Touched(v, vpn, store)
  {}

  lemma TouchedKeeps(v: View, va: nat, kind: Kind, store: bool)
    requires Vpn(va) in v
    ensures Granted(Touched(v, Vpn(va), store), va, kind) == Granted(v, va, kind)
    ensures Allowed(Touched(v, Vpn(va), store), va, kind) == Allowed(v, va, kind)
  {}

  /** When the hardware faults again after the handler has returned it does so for ever: the
      next attempt ends in the same way, and changes no page. */
  lemma FaultsForEver(s: State, root: nat, va: nat, kind: Kind)
    requires root != 0 && Inv(s, root) && Attempt(s, root, va, kind).2.Faults?
    ensures var s1 := Attempt(s, root, va, kind).0;
            && Inv(s1, root) && Attempt(s1, root, va, kind).2.Faults?
            && ViewOf(Attempt(s1, root, va, kind).0.mem, root) == ViewOf(s1.mem, root)
  {
    hide Inv, Grows, ViewOf, Attempt, Vpn, Granted, Allowed, Touched;
    AttemptSpec(s, root, va, kind);
    var v, s1 := ViewOf(s.mem, root), Attempt(s, root, va, kind).0;
    assert Vpn(va) in v by { AllowedIsMapped(v, va, kind); }
    TouchedKeeps(v, va, kind, kind.Store?);
    TouchedTwice(v, Vpn(va), kind.Store?);
    AttemptSpec(s1, root, va, kind);
    var again := Attempt(s1, root, va, kind).2;
    assert again.Done? || again.Ended? || again.Faults?;
  }

  lemma AllowedIsMapped(v: View, va: nat, kind: Kind)
    requires Allowed(v, va, kind)
    ensures Vpn(va) in v
  {}

  /** The fetch from a page mapped executable and writable but not readable is such an access,
      whatever its A and D bits are. */
  lemma FetchNeverCompletes(s: State, root: nat, va: nat, a: bool, d: bool)
    requires root != 0 && Inv(s, root) && Vpn(va) in ViewOf(s.mem, root)
    requires ViewOf(s.mem, root)[Vpn(va)].flags == Flags(false, true, true, true, a, d)
    ensures Attempt(s, root, va, Fetch).2.Faults?
  {
    hide Inv, Grows, ViewOf, Attempt, Vpn, Canonical;
    AttemptSpec(s, root, va, Fetch);
    var ending := Attempt(s, root, va, Fetch).2;
    assert ending.Done? || ending.Ended? || ending.Faults?;
  }

  /** So is any access at an address that is not canonical, if the handler allows it on the
      page that the lower bits of the address name. */
  lemma AliasNeverCompletes(s: State, root: nat, va: nat, kind: Kind)
    requires root != 0 && Inv(s, root) && Vpn(va) in ViewOf(s.mem, root)
    requires 0x40_0000_0000 <= va < 0xffff_ffc0_0000_0000
    ensures Attempt(s, root, va, kind).2.Faults? <==> HandlerGrants(ViewOf(s.mem, root)[Vpn(va)].flags, kind)
  {
    hide Inv, Grows, ViewOf, Attempt, Vpn, HandlerGrants;
    AttemptSpec(s, root, va, kind);
    var ending := Attempt(s, root, va, kind).2;
    assert ending.Done? || ending.Ended? || ending.Faults?;
  }

  // ---- one access ----

  datatype AnyAccess = Access(pc: nat, va: nat, kind: Kind, size: nat, bytes: seq<byte>)

  /** An access is to a number of bytes in one page; a store has the bytes it stores. */
  predicate InOnePage(a: AnyAccess) {
    && a.va < TWO_64 && 0 < a.size && a.va % PGSIZE + a.size <= PGSIZE
    && |a.bytes| == if a.kind.Store? then a.size else 0
  }

  type Access = a: AnyAccess | InOnePage(a) witness Access(0, 0, Load, 1, [])

  /** What a fetch or a load brings from a page. */
  function ReadFrom(f: Frame, a: Access): seq<byte> {
    if a.kind.Store? then [] else f[a.va % PGSIZE..a.va % PGSIZE + a.size]
  }

  /** The hardware stores into the page it has found. */
  function StoreAt(s: State, root: nat, a: Access): State
    requires Inv(s, root) && PageAt(s.mem, root, Vpn(a.va)).Some? && a.kind.Store?
  {
    var vpn := Vpn(a.va);
    CopyIn.MappedIsDataPage(s, root, vpn, Node(s.mem, root, 3, vpn).value);
    CopyIn.Write(s, Node(s.mem, root, 3, vpn).value, a.va % PGSIZE, a.bytes)
  }

  /** An access attempted and, when done, carried out. */
  function Perform(s: State, root: nat, a: Access): (State, nat, Ending)
    requires root != 0 && Inv(s, root)
  {
    var (s1, traps, ending) := Attempt(s, root, a.va, a.kind);
    if ending.Done? && a.kind.Store? then
      StoreTarget(s, root, a);
      (StoreAt(s1, root, a), traps, Done)
    else (s1, traps, ending)
  }

  lemma StoreTarget(s: State, root: nat, a: Access)
    requires root != 0 && Inv(s, root) && Attempt(s, root, a.va, a.kind).2.Done?
    ensures var s1 := Attempt(s, root, a.va, a.kind).0;
            Inv(s1, root) && PageAt(s1.mem, root, Vpn(a.va)).Some?
  {
    hide Inv, Grows, ViewOf, Attempt, Vpn, PageAt;
    AttemptSpec(s, root, a.va, a.kind);
    PageInView(Attempt(s, root, a.va, a.kind).0.mem, root, Vpn(a.va));
  }

  /** What an access makes of the address space. */
  ghost function AfterAccess(v: View, a: Access, ending: Ending): View
    requires !ending.Ended? ==> Vpn(a.va) in v
  {
    if ending.Ended? then v
    else
      var v1 := Touched(v, Vpn(a.va), a.kind.Store?);
      if ending.Done? && a.kind.Store? then CopyIn.Written(v1, Vpn(a.va), a.va % PGSIZE, a.bytes) else v1
  }

  /** The outcome of an access, through the user's view. */
  ghost predicate Performed(s: State, s': State, root: nat, a: Access, traps: nat, ending: Ending) {
    var v := ViewOf(s.mem, root);
    && Inv(s', root) && Grows(s, s', root)
    && (ending.Done? <==> Granted(v, a.va, a.kind)) && (ending.Ended? <==> !Allowed(v, a.va, a.kind))
    && (!ending.Ended? ==> Vpn(a.va) in v) && ViewOf(s'.mem, root) == AfterAccess(v, a, ending)
    && traps == if ending.Done? && Completes(v[Vpn(a.va)].flags, a.kind) then 0 else 1
  }

  /** A store changes the bytes it names, in no page but its own; the tables are out of reach. */
  lemma PerformSpec(s: State, root: nat, a: Access)
    requires root != 0 && Inv(s, root)
    ensures var (s', traps, ending) := Perform(s, root, a);
            Performed(s, s', root, a, traps, ending)
  {
    hide Inv, Grows, ViewOf, Attempt, Vpn, PageAt, StoreAt, Touched, Completes, HandlerGrants, HardwareGrants,
         Canonical;
    AttemptSpec(s, root, a.va, a.kind);
    var (s1, traps, ending) := Attempt(s, root, a.va, a.kind);
    assert ending.Done? || ending.Ended? || ending.Faults?;
    if ending.Done? && a.kind.Store? {
      StoreTarget(s, root, a);
      StoreSpec(s1, root, a);
      GrowsTransitive(s, s1, StoreAt(s1, root, a), root);
    }
  }

  lemma StoreSpec(s: State, root: nat, a: Access)
    requires Inv(s, root) && PageAt(s.mem, root, Vpn(a.va)).Some? && a.kind.Store?
    ensures var s' := StoreAt(s, root, a);
            && Inv(s', root) && Grows(s, s', root) && Vpn(a.va) in ViewOf(s.mem, root)
            && ViewOf(s'.mem, root) == CopyIn.Written(ViewOf(s.mem, root), Vpn(a.va), a.va % PGSIZE, a.bytes)
  {
    hide Inv, Grows, ViewOf, Vpn, CopyIn.Write, CopyIn.Written;
    var vpn := Vpn(a.va);
    var f := Node(s.mem, root, 3, vpn).value;
    CopyIn.MappedIsDataPage(s, root, vpn, f);
    CopyIn.WriteInv(s, root, vpn, f, a.va % PGSIZE, a.bytes);
    CopyIn.WriteView(s, root, vpn, f, a.va % PGSIZE, a.bytes);
  }
}
