/** Runs of the user program: any sequence of fetches, loads and stores, with the traps they take
    in trap_handler, up to the access that ends the program or faults for ever. */
module UserRun {
  import opened Bytes
  import opened Sv39
  import opened PageTable
  import opened AddressSpace
  import opened CountPt
  import opened Trap
  import PageAllocator

  /** The state after the accesses, the traps taken, how many accesses were done, and how the
      run ended: Done when all of them were done. */
  function Run(s: State, root: nat, accesses: seq<Access>): (State, nat, nat, Ending)
    requires root != 0 && Inv(s, root)
    decreases |accesses|
  {
    if accesses == [] then (s, 0, 0, Done)
    else
      var (s1, traps, ending) := Perform(s, root, accesses[0]);
      if !ending.Done? then (s1, traps, 0, ending)
      else
        PerformSpec(s, root, accesses[0]);
        var (s2, more, n, last) := Run(s1, root, accesses[1..]);
        (s2, traps + more, n + 1, last)
  }

  // ---- what a run leaves ----

  /** The pages of the accesses. */
  function Accessed(accesses: seq<Access>): set<nat> {
    if accesses == [] then {} else {Vpn(accesses[0].va)} + Accessed(accesses[1..])
  }

  /** The pages of the stores. */
  function Dirtied(accesses: seq<Access>): set<nat> {
    if accesses == [] then {}
    else (if accesses[0].kind.Store? then {Vpn(accesses[0].va)} else {}) + Dirtied(accesses[1..])
  }

  /** The bytes of page vpn after all the stores into it. */
  function AfterStores(f: Frame, vpn: nat, accesses: seq<Access>): Frame
    decreases |accesses|
  {
    if accesses == [] then f
    else AfterStores(StoredInto(f, vpn, accesses[0]), vpn, accesses[1..])
  }

  function StoredInto(f: Frame, vpn: nat, a: Access): Frame {
    if a.kind.Store? && Vpn(a.va) == vpn then Overlay(f, a.va % PGSIZE, a.bytes) else f
  }

  /** Page vpn after the accesses in touching have set its bits and those in done are carried out. */
  function PageAfter(p: Page, vpn: nat, touching: seq<Access>, done: seq<Access>): Page {
    Page(p.flags.(a := p.flags.a || vpn in Accessed(touching), d := p.flags.d || vpn in Dirtied(touching)),
         AfterStores(p.bytes, vpn, done))
  }

  /** The accesses that were done, and the one that faults for ever, if any, set bits. */
  function Touching(accesses: seq<Access>, n: nat, ending: Ending): seq<Access>
    requires n <= |accesses| && (ending.Faults? ==> n < |accesses|)
  {
    if ending.Faults? then accesses[..n + 1] else accesses[..n]
  }

  ghost predicate LeftAs(v: View, v': View, touching: seq<Access>, done: seq<Access>) {
    && v'.Keys == v.Keys
    && forall vpn :: vpn in v ==> v'[vpn] == PageAfter(v[vpn], vpn, touching, done)
  }

  // ---- the bits that are clear ----

  ghost function ClearA(v: View): set<nat> {
    set vpn | vpn in v && !v[vpn].flags.a
  }

  ghost function ClearD(v: View): set<nat> {
    set vpn | vpn in v && !v[vpn].flags.d
  }

  ghost function Clear(v: View): nat {
    |ClearA(v)| + |ClearD(v)|
  }

  lemma SameFlagsClear(v: View, v': View)
    requires v'.Keys == v.Keys && forall vpn :: vpn in v ==> v'[vpn].flags == v[vpn].flags
    ensures Clear(v') == Clear(v)
  {
    assert ClearA(v') == ClearA(v) && ClearD(v') == ClearD(v);
  }

  /** A trap from which the access completes has set a bit that was clear. */
  lemma TrapsSpendBits(v: View, vpn: nat, kind: Kind)
    requires vpn in v && HardwareGrants(v[vpn].flags, kind)
    ensures Clear(Touched(v, vpn, kind.Store?)) + (if Completes(v[vpn].flags, kind) then 0 else 1) <= Clear(v)
  {
    var v' := Touched(v, vpn, kind.Store?);
    assert ClearA(v') == ClearA(v) - {vpn};
    if kind.Store? {
      assert ClearD(v') == ClearD(v) - {vpn};
    } else {
      assert ClearD(v') == ClearD(v);
    }
  }

  lemma TouchingClears(v: View, vpn: nat, store: bool)
    requires vpn in v
    ensures Clear(Touched(v, vpn, store)) <= Clear(v)
  {
    var v' := Touched(v, vpn, store);
    assert ClearA(v') <= ClearA(v) && ClearD(v') <= ClearD(v);
    PageAllocator.SubsetCount(ClearA(v'), ClearA(v));
    PageAllocator.SubsetCount(ClearD(v'), ClearD(v));
  }

  lemma AccessSpendsBits(v: View, a: Access, ending: Ending)
    requires !ending.Ended? ==> Vpn(a.va) in v
    requires ending.Done? ==> HardwareGrants(v[Vpn(a.va)].flags, a.kind)
    ensures var v' := AfterAccess(v, a, ending);
            && (ending.Done? ==> Clear(v') + (if Completes(v[Vpn(a.va)].flags, a.kind) then 0 else 1) <= Clear(v))
            && Clear(v') <= Clear(v)
  {
    hide Clear, Completes, HardwareGrants, Touched, Vpn;
    if !ending.Ended? {
      var v1 := Touched(v, Vpn(a.va), a.kind.Store?);
      TouchingClears(v, Vpn(a.va), a.kind.Store?);
      if ending.Done? {
        TrapsSpendBits(v, Vpn(a.va), a.kind);
        TouchedKeys(v, Vpn(a.va), a.kind.Store?);
        SameFlagsClear(v1, AfterAccess(v, a, ending));
      }
    }
  }

  lemma TouchedKeys(v: View, vpn: nat, store: bool)
    requires vpn in v
    ensures Touched(v, vpn, store).Keys == v.Keys
  {}

  // ---- steps of a run ----

  /** Accesses keep the permissions, so what is granted is settled before the run. */
  lemma AfterAccessGrants(v: View, a: Access, ending: Ending, va: nat, kind: Kind)
    requires !ending.Ended? ==> Vpn(a.va) in v
    ensures Granted(AfterAccess(v, a, ending), va, kind) == Granted(v, va, kind)
    ensures Allowed(AfterAccess(v, a, ending), va, kind) == Allowed(v, va, kind)
  {
    hide Vpn, Canonical, HardwareGrants, HandlerGrants;
    AfterAccessFlags(v, a, ending);
    SamePermissions(v, AfterAccess(v, a, ending), va, kind);
  }

  ghost predicate SameBut(v: View, v': View) {
    && v'.Keys == v.Keys
    && forall vpn :: vpn in v ==> v'[vpn].flags == v[vpn].flags.(a := v'[vpn].flags.a, d := v'[vpn].flags.d)
  }

  lemma AfterAccessFlags(v: View, a: Access, ending: Ending)
    requires !ending.Ended? ==> Vpn(a.va) in v
    ensures SameBut(v, AfterAccess(v, a, ending))
  {
    hide Vpn;
  }

  lemma SamePermissions(v: View, v': View, va: nat, kind: Kind)
    requires SameBut(v, v')
    ensures Granted(v', va, kind) == Granted(v, va, kind) && Allowed(v', va, kind) == Allowed(v, va, kind)
  {
    hide Vpn, Canonical;
  }

  /** One access is a run of one access. */
  lemma AfterAccessIs(v: View, a: Access, ending: Ending)
    requires Vpn(a.va) in v && !ending.Ended?
    ensures LeftAs(v, AfterAccess(v, a, ending), [a], if ending.Done? then [a] else [])
  {
    hide Vpn;
    var v', done := AfterAccess(v, a, ending), if ending.Done? then [a] else [];
    forall vpn | vpn in v
      ensures v'[vpn] == PageAfter(v[vpn], vpn, [a], done)
    {
      OneAccess(v[vpn], vpn, a);
      OneStore(v[vpn].bytes, vpn, a);
    }
  }

  lemma OneAccess(p: Page, vpn: nat, a: Access)
    ensures vpn in Accessed([a]) <==> vpn == Vpn(a.va)
    ensures vpn in Dirtied([a]) <==> a.kind.Store? && vpn == Vpn(a.va)
  {
    hide Vpn;
    assert [a][1..] == [];
  }

  lemma OneStore(f: Frame, vpn: nat, a: Access)
    ensures AfterStores(f, vpn, [a]) == StoredInto(f, vpn, a) && AfterStores(f, vpn, []) == f
  {
    hide Vpn, StoredInto;
    assert [a][1..] == [];
  }

  /** A run after an access. */
  lemma LeftAsFirst(v: View, v1: View, v2: View, a: Access, touching: seq<Access>, done: seq<Access>)
    requires LeftAs(v, v1, [a], [a]) && LeftAs(v1, v2, touching, done)
    ensures LeftAs(v, v2, [a] + touching, [a] + done)
  {
    hide Accessed, Dirtied, AfterStores, Vpn;
    forall vpn | vpn in v
      ensures v2[vpn] == PageAfter(v[vpn], vpn, [a] + touching, [a] + done)
    {
      PageAfterFirst(v[vpn], vpn, a, touching, done);
    }
  }

  lemma PageAfterFirst(p: Page, vpn: nat, a: Access, touching: seq<Access>, done: seq<Access>)
    ensures PageAfter(PageAfter(p, vpn, [a], [a]), vpn, touching, done) == PageAfter(p, vpn, [a] + touching, [a] + done)
  {
    hide Vpn, StoredInto;
    OneAccess(p, vpn, a);
    OneStore(p.bytes, vpn, a);
    assert ([a] + touching)[1..] == touching && ([a] + done)[1..] == done;
  }

  lemma NothingLeft(v: View)
    ensures LeftAs(v, v, [], [])
  {}

  /** Access number i, and everything before it, was granted by the address space at the start. */
  ghost predicate AllGranted(v: View, accesses: seq<Access>, n: nat)
    requires n <= |accesses|
  {
    forall i :: 0 <= i < n ==> Granted(v, accesses[i].va, accesses[i].kind)
  }

  /** What a run comes to: it goes on to the first access that the address space, as it was at
      the start, does not grant; A and D are set exactly where they were or something was
      accessed or stored; the bytes are those of the stores; the traps are paid for by bits
      that were clear, the last one aside. */
  ghost predicate RanTo(v: View, v': View, accesses: seq<Access>, traps: nat, n: nat, ending: Ending) {
    && n <= |accesses| && (n == |accesses| <==> ending.Done?)
    && AllGranted(v, accesses, n)
    && (n < |accesses| ==>
          && !Granted(v, accesses[n].va, accesses[n].kind)
          && (ending.Faults? <==> Allowed(v, accesses[n].va, accesses[n].kind)))
    && LeftAs(v, v', Touching(accesses, n, ending), accesses[..n])
    && traps + Clear(v') <= Clear(v) + (if ending.Done? then 0 else 1)
  }

  lemma RunStopped(v: View, accesses: seq<Access>, ending: Ending)
    requires accesses != [] && !ending.Done?
    requires (!ending.Ended? ==> Vpn(accesses[0].va) in v)
    requires (ending.Ended? <==> !Allowed(v, accesses[0].va, accesses[0].kind))
    requires !Granted(v, accesses[0].va, accesses[0].kind)
    ensures RanTo(v, AfterAccess(v, accesses[0], ending), accesses, 1, 0, ending)
  {
    hide Vpn, Allowed, Granted, Clear, LeftAs, AfterAccess;
    var a := accesses[0];
    AccessSpendsBits(v, a, ending);
    assert accesses[..0] == [] && accesses[..1] == [a];
    if ending.Faults? {
      AfterAccessIs(v, a, ending);
    } else {
      NothingLeft(v);
      AfterEnded(v, a);
    }
  }

  lemma AfterEnded(v: View, a: Access)
    ensures AfterAccess(v, a, Ended) == v
  {}

  lemma RunGoesOn(v: View, v1: View, v2: View, accesses: seq<Access>, t: nat, traps: nat, n: nat, ending: Ending)
    requires accesses != [] && Vpn(accesses[0].va) in v && Granted(v, accesses[0].va, accesses[0].kind)
    requires v1 == AfterAccess(v, accesses[0], Done) && RanTo(v1, v2, accesses[1..], traps, n, ending)
    requires t == if Completes(v[Vpn(accesses[0].va)].flags, accesses[0].kind) then 0 else 1
    ensures RanTo(v, v2, accesses, t + traps, n + 1, ending)
  {
    hide Vpn, Allowed, Clear, LeftAs, AfterAccess, Completes, HardwareGrants, Canonical;
    var a, rest := accesses[0], accesses[1..];
    AccessSpendsBits(v, a, Done);
    AfterAccessIs(v, a, Done);
    LeftAsFirst(v, v1, v2, a, Touching(rest, n, ending), rest[..n]);
    assert [a] + rest[..n] == accesses[..n + 1];
    assert [a] + Touching(rest, n, ending) == Touching(accesses, n + 1, ending);
    GrantedOnward(v, accesses, n);
    if n < |rest| {
      AfterAccessGrants(v, a, Done, rest[n].va, rest[n].kind);
    }
  }

  lemma GrantedOnward(v: View, accesses: seq<Access>, n: nat)
    requires accesses != [] && n < |accesses| && Vpn(accesses[0].va) in v
    requires Granted(v, accesses[0].va, accesses[0].kind)
    requires AllGranted(AfterAccess(v, accesses[0], Done), accesses[1..], n)
    ensures AllGranted(v, accesses, n + 1)
  {
    hide Vpn, Granted, AfterAccess;
    var a, rest := accesses[0], accesses[1..];
    forall i | 0 <= i < n + 1
      ensures Granted(v, accesses[i].va, accesses[i].kind)
    {
      if i > 0 {
        assert Granted(AfterAccess(v, a, Done), rest[i - 1].va, rest[i - 1].kind);
        AfterAccessGrants(v, a, Done, rest[i - 1].va, rest[i - 1].kind);
      }
    }
  }

  /** Over every run the tree stays a tree, other tables and free frames stay as they are, and
      the user's pages are left as RanTo says. */
  lemma {:induction false} RunSpec(s: State, root: nat, accesses: seq<Access>)
    requires root != 0 && Inv(s, root)
    ensures var (s', traps, n, ending) := Run(s, root, accesses);
            && Inv(s', root) && Grows(s, s', root)
            && RanTo(ViewOf(s.mem, root), ViewOf(s'.mem, root), accesses, traps, n, ending)
    decreases |accesses|
  {
    hide Inv, Grows, ViewOf, Perform, Vpn, Granted, Allowed, AfterAccess, RanTo, Completes;
    var v := ViewOf(s.mem, root);
    if accesses == [] {
      QuietReflexive(s, root);
      RunOfNothing(v);
    } else {
      var a := accesses[0];
      PerformSpec(s, root, a);
      var (s1, t, ending) := Perform(s, root, a);
      if ending.Done? {
        RunSpec(s1, root, accesses[1..]);
        var (s2, traps, n, last) := Run(s1, root, accesses[1..]);
        GrowsTransitive(s, s1, s2, root);
        RunGoesOn(v, ViewOf(s1.mem, root), ViewOf(s2.mem, root), accesses, t, traps, n, last);
      } else {
        RunStopped(v, accesses, ending);
      }
    }
  }

  lemma RunOfNothing(v: View)
    ensures RanTo(v, v, [], 0, 0, Done)
  {
    hide LeftAs, Clear;
    NothingLeft(v);
  }

  // ---- what follows for whole runs ----

  /** Traps that come back to the program number at most two for each mapped page, however
      long the run. */
  lemma RunTraps(s: State, root: nat, accesses: seq<Access>)
    requires root != 0 && Inv(s, root)
    ensures var (s', traps, n, ending) := Run(s, root, accesses);
            traps <= 2 * |ViewOf(s.mem, root)| + (if ending.Done? then 0 else 1)
  {
    hide Inv, ViewOf, Run, LeftAs, AllGranted, Granted, Allowed;
    RunSpec(s, root, accesses);
    var v := ViewOf(s.mem, root);
    PageAllocator.SubsetCount(ClearA(v), v.Keys);
    PageAllocator.SubsetCount(ClearD(v), v.Keys);
    assert |v.Keys| == |v|;
  }

  /** The pages a run has accessed: with the last access if the program still stands at it. */
  function UsedPages(accesses: seq<Access>, n: nat, ending: Ending): set<nat>
    requires n <= |accesses| && (ending.Faults? ==> n < |accesses|)
  {
    Accessed(Touching(accesses, n, ending))
  }

  /** What the judge reports as memory use, `count_pt(pt, VM_U | VM_A)`, is after any run the
      number of user pages that were mapped as accessed or have been accessed. */
  lemma RunMemoryUse(s: State, root: nat, accesses: seq<Access>)
    requires root != 0 && Inv(s, root)
    ensures var (s', traps, n, ending) := Run(s, root, accesses);
            && n <= |accesses| && (ending.Faults? ==> n < |accesses|)
            && UsedPages(accesses, n, ending) <= ViewOf(s.mem, root).Keys
            && PagesWith(ViewOf(s'.mem, root), USER_ACCESSED)
              == PagesWith(ViewOf(s.mem, root), USER_ACCESSED) + UsedPages(accesses, n, ending)
            && CountTable(s'.mem, root, USER_ACCESSED)
               == |PagesWith(ViewOf(s.mem, root), USER_ACCESSED) + UsedPages(accesses, n, ending)|
  {
    hide Inv, ViewOf, Run, CountTable, HoldsAll, LeftAs, Granted, Allowed, Clear, Accessed;
    RunSpec(s, root, accesses);
    var (s', traps, n, ending) := Run(s, root, accesses);
    CountIsView(s', root, USER_ACCESSED);
    var v, touching := ViewOf(s.mem, root), Touching(accesses, n, ending);
    forall vpn | vpn in Accessed(touching)
      ensures vpn in v && v[vpn].flags.u
    {
      var i := AccessOf(touching, vpn);
      GrantedIsUser(v, accesses[i].va, accesses[i].kind);
    }
    UsedAfter(v, ViewOf(s'.mem, root), touching, accesses[..n]);
  }

  lemma {:induction false} AccessOf(accesses: seq<Access>, vpn: nat) returns (i: nat)
    requires vpn in Accessed(accesses)
    ensures i < |accesses| && Vpn(accesses[i].va) == vpn
    decreases |accesses|
  {
    hide Vpn;
    if Vpn(accesses[0].va) == vpn {
      i := 0;
    } else {
      i := AccessOf(accesses[1..], vpn);
      i := i + 1;
    }
  }

  lemma GrantedIsUser(v: View, va: nat, kind: Kind)
    requires Granted(v, va, kind) || Allowed(v, va, kind)
    ensures Vpn(va) in v && v[Vpn(va)].flags.u
  {
    hide Vpn;
  }

  lemma UsedAfter(v: View, v': View, touching: seq<Access>, done: seq<Access>)
    requires LeftAs(v, v', touching, done) && Accessed(touching) <= v.Keys
    requires forall vpn :: vpn in Accessed(touching) ==> v[vpn].flags.u
    ensures PagesWith(v', USER_ACCESSED) == PagesWith(v, USER_ACCESSED) + Accessed(touching)
  {
    hide Accessed, AfterStores, Dirtied;
    forall vpn | vpn in v
      ensures vpn in PagesWith(v', USER_ACCESSED) <==> vpn in PagesWith(v, USER_ACCESSED) || vpn in Accessed(touching)
    {}
  }

  // ---- the bytes ----

  /** Access a stores into byte o of page vpn. */
  predicate Covers(a: Access, vpn: nat, o: nat) {
    a.kind.Store? && Vpn(a.va) == vpn && a.va % PGSIZE <= o < a.va % PGSIZE + |a.bytes|
  }

  ghost predicate NoneCovers(accesses: seq<Access>, vpn: nat, o: nat) {
    forall i :: 0 <= i < |accesses| ==> !Covers(accesses[i], vpn, o)
  }

  lemma {:induction false} NotStored(f: Frame, vpn: nat, accesses: seq<Access>, o: nat)
    requires o < PGSIZE && NoneCovers(accesses, vpn, o)
    ensures AfterStores(f, vpn, accesses)[o] == f[o]
    decreases |accesses|
  {
    hide Vpn;
    if accesses != [] {
      assert !Covers(accesses[0], vpn, o);
      NotStored(StoredInto(f, vpn, accesses[0]), vpn, accesses[1..], o);
    }
  }

  /** A byte of the address space after the stores is what the last store to it has put there;
      without one it is as before (NotStored). */
  lemma {:induction false} LastStore(f: Frame, vpn: nat, accesses: seq<Access>, o: nat, i: nat)
    requires o < PGSIZE && i < |accesses| && Covers(accesses[i], vpn, o) && NoneCovers(accesses[i + 1..], vpn, o)
    ensures AfterStores(f, vpn, accesses)[o] == accesses[i].bytes[o - accesses[i].va % PGSIZE]
    decreases |accesses|
  {
    hide Vpn, NoneCovers;
    if i > 0 {
      assert accesses[1..][i..] == accesses[i + 1..];
      LastStore(StoredInto(f, vpn, accesses[0]), vpn, accesses[1..], o, i - 1);
    } else {
      NotStored(StoredInto(f, vpn, accesses[0]), vpn, accesses[1..], o);
    }
  }
}
