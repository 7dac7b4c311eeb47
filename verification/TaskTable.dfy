/** The functions of task.c over the global task table, each up to the point where it switches
    to another task. */
module TaskTable {
  import opened Bytes
  import opened Tasks
  import opened Scheduler
  import opened SchedulerSafety

  class Kernel {
    var tasks: seq<Task>
    var numWaiting: nat
    var current: nat
    var rr: nat
    var idle: Idle
    var now: nat // the cycle counter
    var frames: map<nat, Frame>
    var next: nat
    var log: seq<Return>
    var fault: bool

    function State(): State
      reads this
    {
      Scheduler.State(tasks, numWaiting, current, rr, idle, now, frames, next, log, fault)
    }

    /** init_task and create_task for all tasks. */
    constructor (n: nat)
      requires 0 < n <= NUM_TASKS
      ensures State() == Boot(n)
    {
      tasks := [];
      numWaiting, current, rr, idle, now := 0, IDLE, 0, PollStep(0), 0;
      frames, next, log, fault := map[], 0, [], false;
      new;
      while |tasks| < n
        invariant |tasks| <= n && forall i :: 0 <= i < |tasks| ==> tasks[i] == NEW_TASK
        invariant State() == Boot(n).(tasks := tasks)
      {
        AddTask(NEW_TASK);
      }
    }

    method AddTask(task: Task)
      modifies this`tasks
      ensures tasks == old(tasks) + [task]
    {
      tasks := tasks + [task];
    }

    /** find_task_waiting_for: the first task created that has the wait. */
    method FindTaskWaitingFor(w: Wait) returns (t: Option<nat>)
      ensures t == FindWaiting(tasks, w, 0)
      ensures t.Some? ==> t.value < |tasks| && w in tasks[t.value].wait
      ensures forall j :: 0 <= j < (if t.Some? then t.value else |tasks|) ==> w !in tasks[j].wait
    {
      FindWaitingFirst(tasks, w, 0);
      for i := 0 to |tasks|
        invariant FindWaiting(tasks, w, 0) == FindWaiting(tasks, w, i)
      {
        if w in tasks[i].wait {
          return Some(i);
        }
      }
      t := None;
    }

    /** task_find_udp: the first task created that waits for such a datagram. */
    method FindUdp(d: Arrived) returns (t: Option<nat>)
      ensures t == Tasks.FindUdp(tasks, d, 0)
      ensures t.Some? ==> t.value < |tasks| && Accepts(tasks[t.value], d)
      ensures forall j :: 0 <= j < (if t.Some? then t.value else |tasks|) ==> !Accepts(tasks[j], d)
    {
      FindUdpFirst(tasks, d, 0);
      for i := 0 to |tasks|
        invariant Tasks.FindUdp(tasks, d, 0) == Tasks.FindUdp(tasks, d, i)
      {
        if Accepts(tasks[i], d) {
          return Some(i);
        }
      }
      t := None;
    }

    // ---- the running task ----

    method SchedYield()
      requires current < |tasks|
      modifies this`tasks, this`current
      ensures State() == Leave(old(State()), old(tasks[current]), Yielded)
    {
      tasks := tasks[current := tasks[current].(at := Yielded)];
      current := IDLE;
    }

    /** wait, up to its call of sched_yield. */
    method WaitFor(w: Wait)
      requires Inv(State()) && current != IDLE
      modifies this
      ensures State() == Apply(old(State()), Action.WaitFor(w)) && Inv(State())
    {
      hide Inv;
      StepIsSafe(State(), Action.WaitFor(w));
      InRange();
      var t := tasks[current];
      tasks := tasks[current := t.(wait := t.wait + {w}, at := InWait(w))];
      numWaiting := numWaiting + 1;
      current := IDLE;
    }

    method Sleep(delta: nat)
      requires Inv(State()) && current != IDLE
      modifies this
      ensures State() == Apply(old(State()), Action.Sleep(delta)) && Inv(State())
    {
      hide Inv;
      StepIsSafe(State(), Action.Sleep(delta));
      InRange();
      var t := tasks[current];
      tasks := tasks[current := t.(timer := Timer(now, delta, false))];
      SchedYield();
    }

    /** recv_udp, up to its call of sched_yield. */
    method RecvUdp(dport: nat, saddr: nat, sport: nat, buff: seq<byte>, timeout: nat)
      requires Inv(State()) && current != IDLE
      modifies this
      ensures State() == Apply(old(State()), Recv(dport, saddr, sport, buff, timeout)) && Inv(State())
    {
      hide Inv;
      StepIsSafe(State(), Recv(dport, saddr, sport, buff, timeout));
      InRange();
      var t := tasks[current];
      frames := frames[next := Frame(0, 0, 0, buff, None)];
      var packet := WaitPacket(true, dport, saddr, sport, next, |buff|, now, timeout);
      tasks := tasks[current := t.(packet := packet, at := InRecv(next))];
      next := next + 1;
      current := IDLE;
    }

    /** The part of task_dispatch_udp that has a receiver. */
    method Fill(u: nat, d: Arrived)
      requires u < |tasks| && tasks[u].packet.frame in frames
      modifies this`tasks, this`frames
      ensures State() == Deliver(old(State()), d, u)
    {
      var p := tasks[u].packet;
      tasks := tasks[u := tasks[u].(packet := p.(isWaiting := false))];
      frames := frames[p.frame := Scheduler.Fill(frames[p.frame], p.len, d)];
    }

    /** task_dispatch_udp, up to its call of sched_yield if it finds no receiver. */
    method DispatchUdp(d: Arrived)
      requires Inv(State()) && current != IDLE
      modifies this
      ensures State() == Apply(old(State()), Dispatch(d)) && Inv(State())
    {
      hide Inv;
      StepIsSafe(State(), Dispatch(d));
      DispatchSpec(State(), d);
      InRange();
      var u := FindUdp(d);
      if u.Some? {
        ReceiverHasFrame(u.value, d);
        Fill(u.value, d);
      } else {
        tasks := tasks[current := tasks[current].(at := InDispatch(d))];
        current := IDLE;
      }
    }

    // ---- the idle task ----

    /** switch_to and what the task does when it goes on: the rest of sched_yield, wait,
        recv_udp or task_dispatch_udp. */
    method SwitchTo(t: nat)
      requires Inv(State()) && current == IDLE && 0 < t < |tasks| && !tasks[t].packet.isWaiting
      modifies this
      ensures State() == Scheduler.SwitchTo(old(State()), t) && Inv(State())
    {
      hide Inv;
      SwitchToIsSafe(State(), t);
      Suspended(t);
      ghost var s := State();
      var at := tasks[t].at;
      tasks, current := tasks[t := tasks[t].(at := Active)], t;
      match at
      case InWait(w) =>
        numWaiting := numWaiting - 1;
        tasks := tasks[t := tasks[t].(wait := tasks[t].wait - {w})];
      case InRecv(f) =>
        log := log + [Return(tasks[t].packet, frames[f], now)];
        frames := frames - {f};
      case InDispatch(d) =>
        WakeUpIsSafe(s, t);
        var u := FindUdp(d);
        if u.Some? {
          ReceiverHasFrame(u.value, d);
          Fill(u.value, d);
        }
      case _ =>
    }

    lemma Suspended(t: nat)
      requires Inv(State()) && current == IDLE && 0 < t < |tasks|
      ensures tasks[t].at.InRecv? ==> tasks[t].at.frame in frames
      ensures tasks[t].at.InWait? ==> numWaiting > 0
    {
      assert TaskOk(tasks[t], t, current, frames, now);
      CountChange(tasks, t, NEW_TASK, |tasks|);
    }

    /** One of the four device polls at the head of idle_entry's loop. */
    method PollDevice(k: nat, answer: bool)
      requires Inv(State()) && current == IDLE && idle == PollStep(k)
      modifies this
      ensures State() == Apply(old(State()), IdlePoll(answer)) && Inv(State())
    {
      hide Inv;
      InRange();
      StepIsSafe(State(), IdlePoll(answer));
      idle := if k < 3 then PollStep(k + 1) else ScanStep(0);
      IdleMoves(old(State()), idle);
      if answer {
        var t := FindTaskWaitingFor(PollWait(k));
        if t.Some? {
          WaiterIsSuspended(t.value);
          SwitchTo(t.value);
        }
      }
    }

    lemma WaiterIsSuspended(t: nat)
      requires Inv(State()) && t < |tasks| && tasks[t].wait != {}
      ensures t != IDLE && !tasks[t].packet.isWaiting
    {
      assert TaskOk(tasks[t], t, current, frames, now);
    }

    lemma IdleMoves(s: State, next: Idle)
      requires Inv(s)
      ensures Inv(s.(idle := next))
    {}

    /** poll_timer for task t. */
    method PollTimer(t: nat) returns (b: bool)
      requires t < |tasks|
      modifies this`tasks
      ensures var (ready, timer) := Tasks.PollTimer(old(tasks[t].timer), now);
              b == ready && tasks == old(tasks)[t := old(tasks[t]).(timer := timer)]
    {
      var timer := tasks[t].timer;
      if timer.timeout {
        return true;
      }
      if now - timer.start >= timer.delta {
        tasks := tasks[t := tasks[t].(timer := timer.(timeout := true))];
        return true;
      }
      return false;
    }

    /** task_poll_udp for task t. */
    method PollUdp(t: nat) returns (b: bool)
      requires t < |tasks|
      modifies this`tasks
      ensures var (ready, p) := Tasks.PollUdp(old(tasks[t].packet), now);
              b == ready && tasks == old(tasks)[t := old(tasks[t]).(packet := p)]
    {
      var p := tasks[t].packet;
      if !p.isWaiting {
        return true;
      }
      if now - p.start >= p.delta {
        tasks := tasks[t := tasks[t].(packet := p.(isWaiting := false))];
        return true;
      }
      return false;
    }

    /** The condition of the round-robin loop for task t. */
    method PollTask(t: nat) returns (b: bool)
      requires t < |tasks|
      modifies this`tasks
      ensures var (ready, task) := Poll(old(tasks[t]), now);
              b == ready && tasks == old(tasks)[t := task]
    {
      b := tasks[t].wait == {};
      if b {
        b := PollTimer(t);
        if b {
          b := PollUdp(t);
        }
      }
    }

    /** One round of the round-robin loop; true when it has switched to a task. */
    method LookAtNext(i: nat) returns (found: bool)
      requires Inv(State()) && current == IDLE && idle == ScanStep(i) && i < |tasks|
      modifies this
      ensures State() == Apply(old(State()), IdleScan) && Inv(State()) && |tasks| == old(|tasks|)
      ensures found <==> current != IDLE
      ensures !found ==> idle == ScanStep(i + 1)
    {
      hide Inv, Poll, Scheduler.SwitchTo;
      InRange();
      ghost var s := State();
      StepIsSafe(s, IdleScan);
      RoundRobinRuns();
      var t := rr;
      rr := rr + 1;
      if rr == |tasks| {
        rr := 0;
      }
      idle := ScanStep(i + 1);
      found := false;
      if t != current {
        PolledIsSafe(s, i);
        found := PollTask(t);
        if found {
          SwitchToStays(State(), t);
          SwitchTo(t);
          idle := PollStep(0);
        }
      }
    }

    lemma SwitchToStays(s: State, t: nat)
      requires t < |s.tasks|
      ensures Scheduler.SwitchTo(s, t).current == t && |Scheduler.SwitchTo(s, t).tasks| == |s.tasks|
    {}

    /** The round-robin loop, with the cycles that pass before each of its rounds. */
    method RoundRobin(clock: seq<nat>)
      requires Inv(State()) && current == IDLE && idle == ScanStep(0) && |clock| == |tasks|
      modifies this
      ensures State() == RoundRobinFrom(old(State()), clock, 0) && Inv(State())
    {
      hide Inv, Apply;
      InRange();
      for i := 0 to |tasks|
        invariant Inv(State()) && current == IDLE && idle == ScanStep(i) && |tasks| == |clock| == old(|tasks|)
        invariant RoundRobinFrom(old(State()), clock, 0) == RoundRobinFrom(State(), clock, i)
      {
        InRange();
        RoundRobinUnfolds(State(), clock, i);
        Tick(clock[i]);
        InRange();
        var found := LookAtNext(i);
        if found {
          return;
        }
      }
      InRange();
      EndOfLoop();
      StepIsSafe(State(), IdleScan);
      idle := PollStep(0);
    }

    lemma EndOfLoop()
      requires idle == ScanStep(|tasks|) && current == IDLE && IDLE < |tasks| && rr < |tasks|
      ensures Apply(State(), IdleScan) == State().(idle := PollStep(0))
    {}

    method Tick(cycles: nat)
      requires Inv(State())
      modifies this`now
      ensures State() == Apply(old(State()), Action.Tick(cycles)) && Inv(State())
    {
      StepIsSafe(State(), Action.Tick(cycles));
      now := now + cycles;
    }

    lemma RoundRobinRuns()
      requires Inv(State()) && current == IDLE
      ensures numWaiting < |tasks|
    {
      assert TaskOk(tasks[IDLE], IDLE, current, frames, now);
      CountBelow(tasks, IDLE, |tasks|);
    }

    lemma InRange()
      requires Inv(State())
      ensures current < |tasks| && rr < |tasks|
    {}

    lemma ReceiverHasFrame(u: nat, d: Arrived)
      requires Inv(State()) && u < |tasks| && Accepts(tasks[u], d)
      ensures tasks[u].packet.frame in frames
    {
      assert TaskOk(tasks[u], u, current, frames, now);
    }
  }

  /** The round-robin loop as steps of the state machine, from its i-th round on. */
  function RoundRobinFrom(s: State, clock: seq<nat>, i: nat): State
    decreases |clock| - i
  {
    if s.current >= |s.tasks| || s.rr >= |s.tasks| then s
    else if i >= |clock| then Apply(s, IdleScan)
    else
      var s1 := Apply(s, Action.Tick(clock[i]));
      var s2 := Apply(s1, IdleScan);
      if s2.current != IDLE then s2 else RoundRobinFrom(s2, clock, i + 1)
  }

  lemma RoundRobinUnfolds(s: State, clock: seq<nat>, i: nat)
    requires s.current < |s.tasks| && s.rr < |s.tasks| && i < |clock|
    ensures var s1 := Apply(s, Action.Tick(clock[i]));
            && s1.current < |s1.tasks| && s1.rr < |s1.tasks|
            && var s2 := Apply(s1, IdleScan);
               RoundRobinFrom(s, clock, i) == if s2.current != IDLE then s2 else RoundRobinFrom(s2, clock, i + 1)
  {}
}
