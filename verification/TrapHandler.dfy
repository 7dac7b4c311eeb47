/** The page-fault branch of trap_handler as it runs, in a run of the user program: the entry is
    updated in place, or the user program is marked as ended. */
module TrapHandler {
  import opened Bytes
  import opened Sv39
  import opened PageTable
  import opened AddressSpace
  import opened Errors
  import CopyIn
  import Trap
  import UserProgram
  import UserRun
  import Vm

  datatype Report = Report(exitcode: int, error: int, epc: nat, eval: nat)

  /** user_task_t */
  class UserTask {
    var exitcode: int
    var error: int
    var epc: nat
    var eval: nat

    constructor ()
      ensures Fields() == Report(0, 0, 0, 0)
    {
      exitcode, error, epc, eval := 0, 0, 0, 0;
    }

    function Fields(): Report
      reads this
    {
      Report(exitcode, error, epc, eval)
    }
  }

  /** What the handler reports when an access from epc to va ends the program. */
  function PageFaultAt(epc: nat, va: nat): Report {
    Report(-11, -EPAGEFAULT, epc, va)
  }

  /** True when the handler returns to the faulting access, false when it ends the program. */
  method PageFault(vm: Vm.Kernel, user: UserTask, root: nat, va: nat, epc: nat, kind: Trap.Kind)
    returns (resolved: bool)
    requires root != 0 && Inv(vm.State(), root)
    modifies vm.alloc`next, vm.alloc`used, vm.alloc`bits, vm.mem, user
    ensures (vm.State(), resolved) == Trap.PageFault(old(vm.State()), root, va, kind)
    ensures Trap.Handles(old(vm.State()), vm.State(), root, Vpn(va), kind, resolved)
    ensures user.Fields() == if resolved then old(user.Fields()) else PageFaultAt(epc, va)
    ensures !resolved ==> user.exitcode == -11 && user.error == -8 && user.epc == epc && user.eval == va
  {
    hide Inv, Trap.Handles, GetPte, PtIdx;
    ghost var s := vm.State();
    Trap.PageFaultSpec(s, root, va, kind);
    var t := vm.GetPte(root, va);
    if t != 0 {
      GetPteSpec(s, root, va);
      assert t < vm.mem.Length;
      var i := PtIdx(0, va);
      var pte := Entry(vm.mem[..], t, i);
      if PteValid(pte) && Trap.HandlerGrants(PteFlags(pte), kind) {
        vm.StorePte(t, i, Touch(pte, kind.Store?));
        return true;
      }
    }
    user.exitcode, user.error, user.epc, user.eval := -11, -EPAGEFAULT, epc, va;
    return false;
  }

  /** The hardware tries an access, traps to the handler if it has to, and tries again. */
  method Attempt(vm: Vm.Kernel, user: UserTask, root: nat, a: Trap.Access) returns (traps: nat, ending: Trap.Ending)
    requires root != 0 && Inv(vm.State(), root)
    modifies vm.alloc`next, vm.alloc`used, vm.alloc`bits, vm.mem, user
    ensures (vm.State(), traps, ending) == Trap.Attempt(old(vm.State()), root, a.va, a.kind)
    ensures user.Fields() == if ending.Ended? then PageFaultAt(a.pc, a.va) else old(user.Fields())
  {
    hide Inv, Trap.Handles, Trap.CompletesAt, Trap.PageFault, Vpn;
    if Trap.CompletesAt(vm.mem[..], root, a.va, a.kind) {
      return 0, Trap.Done;
    }
    var resolved := PageFault(vm, user, root, a.va, a.pc, a.kind);
    traps := 1;
    ending := if !resolved then Trap.Ended
              else if Trap.CompletesAt(vm.mem[..], root, a.va, a.kind) then Trap.Done else Trap.Faults;
  }

  /** One access of the user program; a store that the hardware completes goes to the page it
      has found. */
  method Perform(vm: Vm.Kernel, user: UserTask, root: nat, a: Trap.Access) returns (traps: nat, ending: Trap.Ending)
    requires root != 0 && Inv(vm.State(), root)
    modifies vm.alloc`next, vm.alloc`used, vm.alloc`bits, vm.mem, user
    ensures (vm.State(), traps, ending) == Trap.Perform(old(vm.State()), root, a)
    ensures user.Fields() == if ending.Ended? then PageFaultAt(a.pc, a.va) else old(user.Fields())
  {
    hide Inv, Trap.Attempt, Node, Vpn, CopyIn.Write;
    ghost var s := vm.State();
    traps, ending := Attempt(vm, user, root, a);
    if ending.Done? && a.kind.Store? {
      Trap.StoreTarget(s, root, a);
      var page := Node(vm.mem[..], root, 3, Vpn(a.va)).value;
      CopyIn.MappedIsDataPage(vm.State(), root, Vpn(a.va), page);
      vm.Poke(page, a.va % PGSIZE, a.bytes);
    }
  }

  /** The bytes a completed access reads from the page the hardware has found. */
  method Read(vm: Vm.Kernel, root: nat, a: Trap.Access) returns (bytes: seq<byte>)
    requires PageAt(vm.mem[..], root, Vpn(a.va)).Some?
    ensures bytes == UserProgram.ReadBy(vm.mem[..], root, a)
  {
    hide Vpn, LeafPte;
    bytes := [];
    if !a.kind.Store? {
      var page := Node(vm.mem[..], root, 3, Vpn(a.va)).value;
      var o := a.va % PGSIZE;
      bytes := vm.mem[page][o..o + a.size];
    }
  }

  /** The user program from arch_call_user on, for so many steps: up to the access that ends it or
      at which it stands still, or until it leaves by itself. */
  method Run(vm: Vm.Kernel, user: UserTask, root: nat, program: UserProgram.Program, steps: nat)
    returns (traps: nat, n: nat, ending: Trap.Ending, ghost accesses: seq<Trap.Access>)
    requires root != 0 && Inv(vm.State(), root)
    modifies vm.alloc`next, vm.alloc`used, vm.alloc`bits, vm.mem, user
    ensures accesses == UserProgram.Accesses(old(vm.State()), root, program, [], steps)
    ensures (vm.State(), traps, n, ending) == UserRun.Run(old(vm.State()), root, accesses)
    ensures n <= |accesses| && (ending.Ended? ==> n < |accesses|)
    ensures user.Fields() == if ending.Ended? then PageFaultAt(accesses[n].pc, accesses[n].va) else old(user.Fields())
    ensures ending.Ended? ==>
              && user.exitcode == -11 && user.error == -8
              && user.epc == accesses[n].pc && user.eval == accesses[n].va
  {
    hide Inv, Trap.Perform, UserRun.Run, Trap.Performed, UserProgram.Accesses, UserProgram.ReadBy;
    ghost var s := vm.State();
    traps, n, ending := 0, 0, Trap.Done;
    accesses := UserProgram.Accesses(s, root, program, [], steps);
    assert accesses[0..] == accesses;
    var read := [];
    while n < steps
      invariant n <= |accesses| && n <= steps && Inv(vm.State(), root)
      invariant accesses[n..] == UserProgram.Accesses(vm.State(), root, program, read, steps - n)
      invariant UserRun.Run(s, root, accesses) == Onward(traps, n, UserRun.Run(vm.State(), root, accesses[n..]))
      invariant ending.Done? && user.Fields() == old(user.Fields())
    {
      NextAccess(vm.State(), root, program, read, steps - n);
      var next := program(read);
      if next == None {
        break;
      }
      var a := next.value;
      assert accesses[n] == accesses[n..][0] && accesses[n + 1..] == accesses[n..][1..];
      RunNext(vm.State(), root, accesses, n);
      var more;
      more, ending := Perform(vm, user, root, a);
      traps := traps + more;
      if !ending.Done? {
        return;
      }
      var bytes := Read(vm, root, a);
      read := read + [bytes];
      n := n + 1;
    }
    NoMore(vm.State(), root, program, read, steps - n);
    RunOver(vm.State(), root, accesses[n..]);
  }

  lemma NextAccess(s: State, root: nat, program: UserProgram.Program, read: seq<seq<byte>>, steps: nat)
    requires root != 0 && Inv(s, root) && steps > 0
    ensures var rest := UserProgram.Accesses(s, root, program, read, steps);
            match program(read)
            case None => rest == []
            case Some(a) =>
              && rest != [] && rest[0] == a
              && var (s1, traps, ending) := Trap.Perform(s, root, a);
                 && Inv(s1, root)
                 && (ending.Done? ==>
                       && PageAt(s1.mem, root, Vpn(a.va)).Some?
                       && rest[1..] == UserProgram.Accesses(s1, root, program,
                                         read + [UserProgram.ReadBy(s1.mem, root, a)], steps - 1))
  {
    hide Inv, Grows, ViewOf, Trap.Perform, Trap.Granted, Trap.Allowed, Trap.AfterAccess, Vpn, PageAt,
         UserProgram.ReadBy;
    match program(read)
    case None =>
    case Some(a) =>
      Trap.PerformSpec(s, root, a);
      if Trap.Perform(s, root, a).2.Done? {
        UserProgram.ReadInView(s, root, a);
        StillMapped(s, root, a);
      }
  }

  lemma StillMapped(s: State, root: nat, a: Trap.Access)
    requires root != 0 && Inv(s, root) && Trap.Perform(s, root, a).2.Done?
    ensures PageAt(Trap.Perform(s, root, a).0.mem, root, Vpn(a.va)).Some?
  {
    hide Inv, Grows, ViewOf, Trap.Perform, Trap.Granted, Trap.Allowed, Vpn, PageAt;
    Trap.PerformSpec(s, root, a);
    Trap.PageInView(Trap.Perform(s, root, a).0.mem, root, Vpn(a.va));
  }

  lemma NoMore(s: State, root: nat, program: UserProgram.Program, read: seq<seq<byte>>, steps: nat)
    requires root != 0 && Inv(s, root) && (steps == 0 || program(read) == None)
    ensures UserProgram.Accesses(s, root, program, read, steps) == []
  {
    hide Inv;
  }

  /** A run that follows n accesses with their traps. */
  function Onward(traps: nat, n: nat, r: (State, nat, nat, Trap.Ending)): (State, nat, nat, Trap.Ending) {
    (r.0, traps + r.1, n + r.2, r.3)
  }

  lemma RunNext(s: State, root: nat, accesses: seq<Trap.Access>, n: nat)
    requires root != 0 && Inv(s, root) && n < |accesses|
    ensures var (s1, traps, ending) := Trap.Perform(s, root, accesses[n]);
            && Inv(s1, root)
            && UserRun.Run(s, root, accesses[n..])
               == if ending.Done? then Onward(traps, 1, UserRun.Run(s1, root, accesses[n + 1..]))
                  else (s1, traps, 0, ending)
  {
    hide Inv, Trap.Perform, Grows, ViewOf, Trap.Granted, Trap.Allowed, Trap.AfterAccess;
    Trap.PerformSpec(s, root, accesses[n]);
    assert accesses[n..][0] == accesses[n] && accesses[n..][1..] == accesses[n + 1..];
  }

  lemma RunOver(s: State, root: nat, accesses: seq<Trap.Access>)
    requires root != 0 && Inv(s, root) && accesses == []
    ensures UserRun.Run(s, root, accesses) == (s, 0, 0, Trap.Done)
  {}
}
