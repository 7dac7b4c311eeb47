/** The user program as a function of what it has read: which accesses it makes. */
module UserProgram {
  import opened Bytes
  import opened Sv39
  import opened PageTable
  import opened AddressSpace
  import opened Trap
  import opened UserRun

  /** The next access, from what the earlier ones have read; None when the program leaves by itself. */
  type Program = seq<seq<byte>> -> Option<Access>

  /** What a completed access reads through the page table. */
  function ReadBy(mem: Memory, root: nat, a: Access): seq<byte> {
    match PageAt(mem, root, Vpn(a.va))
    case None => []
    case Some(p) => ReadFrom(p.bytes, a)
  }

  /** The accesses the program makes from state s, at most `steps` of them, when it has read `read`
      already: up to the first one that is not done. */
  function Accesses(s: State, root: nat, program: Program, read: seq<seq<byte>>, steps: nat): seq<Access>
    requires root != 0 && Inv(s, root)
    decreases steps
  {
    if steps == 0 then []
    else
      match program(read)
      case None => []
      case Some(a) =>
        PerformSpec(s, root, a);
        var (s1, traps, ending) := Perform(s, root, a);
        if !ending.Done? then [a]
        else [a] + Accesses(s1, root, program, read + [ReadBy(s1.mem, root, a)], steps - 1)
  }

  // ---- what is read is what was stored ----

  /** What access number j of a run reads, in terms of the address space at the start: the page as
      the stores before it have left it. */
  ghost function Reading(v: View, accesses: seq<Access>, j: nat): seq<byte>
    requires j < |accesses|
  {
    var vpn := Vpn(accesses[j].va);
    if vpn in v then ReadFrom(AfterStores(v[vpn].bytes, vpn, accesses[..j]), accesses[j]) else []
  }

  ghost function Readings(v: View, accesses: seq<Access>, n: nat): (r: seq<seq<byte>>)
    requires n <= |accesses|
    ensures |r| == n
  {
    seq(n, j requires 0 <= j < n => Reading(v, accesses, j))
  }

  lemma ReadInView(s: State, root: nat, a: Access)
    requires root != 0 && Inv(s, root) && Perform(s, root, a).2.Done?
    ensures Vpn(a.va) in ViewOf(s.mem, root)
    ensures ReadBy(Perform(s, root, a).0.mem, root, a) == ReadFrom(ViewOf(s.mem, root)[Vpn(a.va)].bytes, a)
  {
    hide Inv, Grows, ViewOf, Perform, Vpn, PageAt, Granted, Allowed;
    PerformSpec(s, root, a);
    PageInView(Perform(s, root, a).0.mem, root, Vpn(a.va));
  }

  lemma ReadingOnward(v: View, a: Access, rest: seq<Access>, j: nat)
    requires Vpn(a.va) in v && j < |rest|
    ensures Reading(AfterAccess(v, a, Done), rest, j) == Reading(v, [a] + rest, j + 1)
  {
    hide Vpn, AfterAccess, ReadFrom;
    var v1, all := AfterAccess(v, a, Done), [a] + rest;
    AfterAccessIs(v, a, Done);
    var vpn := Vpn(rest[j].va);
    assert all[j + 1] == rest[j] && all[..j + 1][0] == a && all[..j + 1][1..] == rest[..j];
    if vpn in v {
      StoresOnward(v[vpn], v1[vpn], vpn, a, all[..j + 1]);
    }
  }

  lemma StoresOnward(p: Page, p1: Page, vpn: nat, a: Access, accesses: seq<Access>)
    requires p1 == PageAfter(p, vpn, [a], [a]) && accesses != [] && accesses[0] == a
    ensures AfterStores(p.bytes, vpn, accesses) == AfterStores(p1.bytes, vpn, accesses[1..])
  {
    hide Vpn, StoredInto, Accessed, Dirtied;
    OneStore(p.bytes, vpn, a);
  }

  lemma ReadingsOnward(v: View, a: Access, rest: seq<Access>, n: nat)
    requires Vpn(a.va) in v && n <= |rest|
    ensures Readings(v, [a] + rest, n + 1)
            == [ReadFrom(v[Vpn(a.va)].bytes, a)] + Readings(AfterAccess(v, a, Done), rest, n)
  {
    hide Vpn, AfterAccess, ReadFrom, Reading;
    var all := [a] + rest;
    var left := Readings(v, all, n + 1);
    var right := [ReadFrom(v[Vpn(a.va)].bytes, a)] + Readings(AfterAccess(v, a, Done), rest, n);
    FirstReading(v, a, rest);
    forall j: nat | j < n + 1
      ensures left[j] == right[j]
    {
      if j > 0 {
        ReadingOnward(v, a, rest, j - 1);
      }
    }
  }

  lemma FirstReading(v: View, a: Access, rest: seq<Access>)
    requires Vpn(a.va) in v
    ensures Reading(v, [a] + rest, 0) == ReadFrom(v[Vpn(a.va)].bytes, a)
  {
    hide Vpn, ReadFrom;
    assert ([a] + rest)[..0] == [];
  }

  /** Each access is the one the program makes when every load before it has read what the last
      store to each byte has put there, or what the byte was at the start. */
  lemma {:induction false} ProgramFollows(s: State, root: nat, program: Program, read: seq<seq<byte>>,
                                          steps: nat, k: nat)
    requires root != 0 && Inv(s, root) && k < |Accesses(s, root, program, read, steps)|
    ensures var accesses := Accesses(s, root, program, read, steps);
            program(read + Readings(ViewOf(s.mem, root), accesses, k)) == Some(accesses[k])
    decreases steps
  {
    hide Inv, Grows, ViewOf, Perform, Vpn, Granted, Allowed, Readings, ReadBy, ReadFrom, AfterAccess;
    var a := program(read).value;
    var v := ViewOf(s.mem, root);
    if k == 0 {
      NoReadings(v, Accesses(s, root, program, read, steps));
      assert read + [] == read;
    } else {
      PerformSpec(s, root, a);
      ReadInView(s, root, a);
      var s1 := Perform(s, root, a).0;
      var r := ReadBy(s1.mem, root, a);
      var rest := Accesses(s1, root, program, read + [r], steps - 1);
      ProgramFollows(s1, root, program, read + [r], steps - 1, k - 1);
      ReadingsOnward(v, a, rest, k - 1);
      assert read + [r] + Readings(ViewOf(s1.mem, root), rest, k - 1)
             == read + ([r] + Readings(ViewOf(s1.mem, root), rest, k - 1));
    }
  }

  /** A run in which all accesses were done ends because the program has left, or its time is up. */
  lemma {:induction false} ProgramEnds(s: State, root: nat, program: Program, read: seq<seq<byte>>, steps: nat)
    requires root != 0 && Inv(s, root)
    ensures var accesses := Accesses(s, root, program, read, steps);
            && |accesses| <= steps
            && (Run(s, root, accesses).3.Done? && |accesses| < steps ==>
                  program(read + Readings(ViewOf(s.mem, root), accesses, |accesses|)) == None)
            && Run(s, root, accesses).2 + 1 >= |accesses|
    decreases steps
  {
    hide Inv, Grows, ViewOf, Perform, Vpn, Granted, Allowed, Readings, ReadBy, ReadFrom, AfterAccess;
    var v := ViewOf(s.mem, root);
    var accesses := Accesses(s, root, program, read, steps);
    NoReadings(v, accesses);
    assert read + [] == read;
    if accesses != [] {
      var a := program(read).value;
      PerformSpec(s, root, a);
      var s1 := Perform(s, root, a).0;
      if Perform(s, root, a).2.Done? {
        ReadInView(s, root, a);
        var r := ReadBy(s1.mem, root, a);
        var rest := Accesses(s1, root, program, read + [r], steps - 1);
        ProgramEnds(s1, root, program, read + [r], steps - 1);
        ReadingsOnward(v, a, rest, |rest|);
        assert read + [r] + Readings(ViewOf(s1.mem, root), rest, |rest|)
               == read + ([r] + Readings(ViewOf(s1.mem, root), rest, |rest|));
        assert accesses[1..] == rest;
      }
    }
  }

  lemma NoReadings(v: View, accesses: seq<Access>)
    ensures Readings(v, accesses, 0) == []
  {}
}
