/** What recv_udp returns, in terms of the calls that were made: which datagram answers which call,
    and how long a task sleeps. */
module SchedulerHistory {
  import opened Bytes
  import opened Tasks
  import opened Scheduler
  import opened SchedulerSafety

  ghost function After(n: nat, acts: seq<Action>): (s: State)
    requires 0 < n <= NUM_TASKS
    ensures Inv(s)
  {
    BootIsSafe(n);
    Run(Boot(n), acts)
  }

  lemma AfterOneMore(n: nat, acts: seq<Action>, a: Action)
    requires 0 < n <= NUM_TASKS
    ensures After(n, acts + [a]) == Apply(After(n, acts), a)
  {
    hide Inv, Apply;
    assert (acts + [a])[..|acts|] == acts;
  }

  // ---- requests and the calls behind them ----

  /** Two states of the same wait. */
  predicate Same(p: WaitPacket, q: WaitPacket) {
    q == p.(isWaiting := q.isWaiting)
  }

  /** p is the wait of the call of recv_udp that acts[k] was, when it was made. */
  ghost predicate AskedBy(n: nat, acts: seq<Action>, k: nat, p: WaitPacket)
    requires 0 < n <= NUM_TASKS
  {
    && k < |acts| && acts[k].Recv?
    && var s := After(n, acts[..k]);
       s.current != IDLE && NewRequest(s, acts[k], p)
  }

  predicate NewRequest(s: State, a: Action, p: WaitPacket)
    requires a.Recv?
  {
    && p.frame == s.next && p.start == s.now && p.delta == a.timeout && p.len == |a.buff|
    && p.dport == a.dport && p.expectedSaddr == a.saddr && p.expectedSport == a.sport
  }

  ghost predicate Asked(n: nat, acts: seq<Action>, p: WaitPacket)
    requires 0 < n <= NUM_TASKS
  {
    exists k: nat :: AskedBy(n, acts, k, p)
  }

  lemma AskedStays(n: nat, acts: seq<Action>, a: Action, p: WaitPacket, q: WaitPacket)
    requires 0 < n <= NUM_TASKS && Asked(n, acts, p) && Same(p, q)
    ensures Asked(n, acts + [a], q)
  {
    hide After;
    var k: nat :| AskedBy(n, acts, k, p);
    assert (acts + [a])[..k] == acts[..k];
    assert AskedBy(n, acts + [a], k, q);
  }

  // ---- what a step does to waits ----

  /** No new wait, and only returns of calls that were waiting. */
  ghost predicate Keeps(s: State, s': State) {
    && |s'.tasks| == |s.tasks| && |s.log| <= |s'.log|
    && (forall i: nat :: i < |s.tasks| && s'.tasks[i].at.InRecv? ==>
          s.tasks[i].at.InRecv? && Same(s.tasks[i].packet, s'.tasks[i].packet))
    && (forall j: nat :: j < |s.log| ==> s'.log[j] == s.log[j])
    && (forall j: nat :: |s.log| <= j < |s'.log| ==> Returned(s, s'.log[j].request))
  }

  ghost predicate Returned(s: State, p: WaitPacket) {
    exists i: nat :: i < |s.tasks| && s.tasks[i].at.InRecv? && Same(s.tasks[i].packet, p)
  }

  lemma KeepsTransitive(s: State, s1: State, s2: State)
    requires Keeps(s, s1) && Keeps(s1, s2)
    ensures Keeps(s, s2)
  {
    forall j: nat | |s1.log| <= j < |s2.log|
      ensures Returned(s, s2.log[j].request)
    {
      assert Returned(s1, s2.log[j].request);
      var i: nat :| i < |s1.tasks| && s1.tasks[i].at.InRecv? && Same(s1.tasks[i].packet, s2.log[j].request);
      assert s.tasks[i].at.InRecv? && Same(s.tasks[i].packet, s2.log[j].request);
    }
  }

  lemma DeliverKeeps(s: State, d: Arrived, u: nat)
    requires u < |s.tasks|
    ensures Keeps(s, Deliver(s, d, u))
  {}

  lemma SwitchKeeps(s: State, t: nat)
    requires t < |s.tasks| && (s.tasks[t].at.InRecv? ==> s.tasks[t].at.frame in s.frames)
    ensures Keeps(s, SwitchTo(s, t))
  {
    hide Deliver, Keeps;
    var s1 := WakeUp(s, t);
    match s.tasks[t].at
    case InWait(w) => WaitEndKeeps(s, t);
    case InRecv(f) => RecvEndKeeps(s, t, f);
    case InDispatch(d) =>
      WakeUpKeeps(s, t);
      FindUdpFirst(s1.tasks, d, 0);
      if FindUdp(s1.tasks, d, 0).Some? {
        DeliverKeeps(s1, d, FindUdp(s1.tasks, d, 0).value);
        KeepsTransitive(s, s1, SwitchTo(s, t));
      }
    case _ => WakeUpKeeps(s, t);
  }

  lemma WakeUpKeeps(s: State, t: nat)
    requires t < |s.tasks|
    ensures Keeps(s, WakeUp(s, t))
  {}

  lemma WaitEndKeeps(s: State, t: nat)
    requires t < |s.tasks| && s.tasks[t].at.InWait?
    ensures Keeps(s, SwitchTo(s, t))
  {}

  lemma RecvEndKeeps(s: State, t: nat, f: nat)
    requires t < |s.tasks| && s.tasks[t].at == InRecv(f) && f in s.frames
    ensures Keeps(s, SwitchTo(s, t))
  {
    var s' := SwitchTo(s, t);
    assert s'.log[|s.log|].request == s.tasks[t].packet;
    assert Returned(s, s'.log[|s.log|].request);
  }

  lemma LeaveKeeps(s: State, t: Task, p: Point)
    requires s.current < |s.tasks| && !p.InRecv?
    ensures Keeps(s, Leave(s, t, p))
  {}

  lemma SameTasks(s: State, s1: State, s2: State)
    requires Keeps(s1, s2) && s1.tasks == s.tasks && s1.log == s.log
    ensures Keeps(s, s2)
  {}

  lemma PolledKeeps(s: State, t: nat, now: nat, i: nat)
    requires t < |s.tasks|
    ensures Keeps(s, s.(rr := NextTask(s), idle := ScanStep(i), tasks := s.tasks[t := Poll(s.tasks[t], now).1]))
    ensures Poll(s.tasks[t], now).1.at == s.tasks[t].at
  {}

  lemma ScanKeeps(s: State, i: nat)
    requires Inv(s) && s.current == IDLE
    ensures Keeps(s, DoScan(s, i))
  {
    hide SwitchTo, Poll, Filled, OwnFrames, LogOk, Keeps;
    Still(s);
    if s.waiting < |s.tasks| && i < |s.tasks| && s.rr != IDLE {
      var t := s.rr;
      PolledKeeps(s, t, s.now, i + 1);
      var (ready, task) := Poll(s.tasks[t], s.now);
      var s2 := s.(rr := NextTask(s), idle := ScanStep(i + 1), tasks := s.tasks[t := task]);
      if ready {
        assert TaskOk(s.tasks[t], t, s.current, s.frames, s.now);
        SwitchKeeps(s2, t);
        KeepsTransitive(s, s2, SwitchTo(s2, t));
        OnlyIdle(s, SwitchTo(s2, t), DoScan(s, i));
      }
    } else {
      OnlyIdle(s, s, DoScan(s, i));
    }
  }

  lemma OnlyIdle(s: State, s1: State, s2: State)
    requires Keeps(s, s1) && s2.tasks == s1.tasks && s2.log == s1.log
    ensures Keeps(s, s2)
  {}

  lemma Still(s: State)
    ensures Keeps(s, s)
  {}

  lemma PollKeeps(s: State, k: nat, answer: bool)
    requires Inv(s) && s.current == IDLE
    ensures Keeps(s, DoPoll(s, k, answer))
  {
    hide SwitchTo, Filled, OwnFrames, LogOk, Keeps;
    var s1 := s.(idle := if k < 3 then PollStep(k + 1) else ScanStep(0));
    Still(s);
    OnlyIdle(s, s, s1);
    FindWaitingFirst(s.tasks, PollWait(k), 0);
    match FindWaiting(s.tasks, PollWait(k), 0)
    case None =>
    case Some(t) =>
      assert TaskOk(s.tasks[t], t, s.current, s.frames, s.now);
      SwitchKeeps(s1, t);
      SameTasks(s, s1, SwitchTo(s1, t));
  }

  /** Only a call of recv_udp makes a new wait, with its own arguments. */
  lemma StepKeeps(s: State, a: Action)
    requires Inv(s) && !(a.Recv? && s.current != IDLE)
    ensures Keeps(s, Apply(s, a))
  {
    hide DoPoll, DoScan, Deliver, Leave, Filled, OwnFrames, LogOk, Keeps;
    Still(s);
    if a.Tick? {
      OnlyIdle(s, s, Apply(s, a));
    } else if s.current == IDLE {
      match (a, s.idle)
      case (IdlePoll(answer), PollStep(k)) => PollKeeps(s, k, answer);
      case (IdleScan, ScanStep(i)) => ScanKeeps(s, i);
      case _ =>
    } else {
      TaskKeeps(s, s.tasks[s.current], a);
    }
  }

  lemma TaskKeeps(s: State, t: Task, a: Action)
    requires s.current < |s.tasks| && !a.Recv? && t == s.tasks[s.current]
    ensures Keeps(s, TaskStep(s, t, a))
  {
    hide Deliver, Leave, Keeps;
    Still(s);
    match a
    case Yield => LeaveKeeps(s, t, Yielded);
    case Sleep(delta) => LeaveKeeps(s, t.(timer := Timer(s.now, delta, false)), Yielded);
    case WaitFor(w) =>
      LeaveKeeps(s, t.(wait := t.wait + {w}), InWait(w));
      OnlyIdle(s, Leave(s, t.(wait := t.wait + {w}), InWait(w)), TaskStep(s, t, a));
    case Dispatch(d) =>
      LeaveKeeps(s, t, InDispatch(d));
      FindUdpFirst(s.tasks, d, 0);
      if FindUdp(s.tasks, d, 0).Some? {
        DeliverKeeps(s, d, FindUdp(s.tasks, d, 0).value);
      }
    case _ =>
  }

  lemma RecvAsks(s: State, a: Action)
    requires Inv(s) && a.Recv? && s.current != IDLE
    ensures var s' := Apply(s, a);
            && |s'.tasks| == |s.tasks| && s'.log == s.log
            && NewRequest(s, a, s'.tasks[s.current].packet)
            && forall i: nat :: i < |s.tasks| && i != s.current ==> s'.tasks[i] == s.tasks[i]
  {
    hide TasksOk, OwnFrames, LogOk;
  }

  // ---- over whole runs ----

  ghost predicate AllAsked(n: nat, acts: seq<Action>)
    requires 0 < n <= NUM_TASKS
  {
    var s := After(n, acts);
    && (forall i: nat :: i < |s.tasks| && s.tasks[i].at.InRecv? ==> Asked(n, acts, s.tasks[i].packet))
    && (forall j: nat :: j < |s.log| ==> Asked(n, acts, s.log[j].request))
  }

  /** Every wait, and every return, is of a call that was made. */
  lemma {:induction false} RunAsked(n: nat, acts: seq<Action>)
    requires 0 < n <= NUM_TASKS
    ensures AllAsked(n, acts)
    decreases |acts|
  {
    hide Inv, Apply, After, Asked;
    if acts == [] {
      NothingAsked(n);
    } else {
      var before, a := acts[..|acts| - 1], acts[|acts| - 1];
      RunAsked(n, before);
      assert before + [a] == acts;
      AfterOneMore(n, before, a);
      if a.Recv? && After(n, before).current != IDLE {
        AskedNow(n, before, a);
      } else {
        AskedBefore(n, before, a);
      }
    }
  }

  lemma NothingAsked(n: nat)
    requires 0 < n <= NUM_TASKS
    ensures AllAsked(n, [])
  {
    hide Asked;
  }

  lemma AskedBefore(n: nat, before: seq<Action>, a: Action)
    requires 0 < n <= NUM_TASKS && AllAsked(n, before) && !(a.Recv? && After(n, before).current != IDLE)
    requires After(n, before + [a]) == Apply(After(n, before), a)
    ensures AllAsked(n, before + [a])
  {
    hide Inv, Apply, After, Asked;
    var s, s' := After(n, before), After(n, before + [a]);
    StepKeeps(s, a);
    forall i: nat | i < |s'.tasks| && s'.tasks[i].at.InRecv?
      ensures Asked(n, before + [a], s'.tasks[i].packet)
    {
      AskedStays(n, before, a, s.tasks[i].packet, s'.tasks[i].packet);
    }
    forall j: nat | j < |s'.log|
      ensures Asked(n, before + [a], s'.log[j].request)
    {
      if j < |s.log| {
        AskedStays(n, before, a, s.log[j].request, s'.log[j].request);
      } else {
        assert Returned(s, s'.log[j].request);
        var i: nat :| i < |s.tasks| && s.tasks[i].at.InRecv? && Same(s.tasks[i].packet, s'.log[j].request);
        AskedStays(n, before, a, s.tasks[i].packet, s'.log[j].request);
      }
    }
  }

  lemma AskedNow(n: nat, before: seq<Action>, a: Action)
    requires 0 < n <= NUM_TASKS && AllAsked(n, before) && a.Recv? && After(n, before).current != IDLE
    requires After(n, before + [a]) == Apply(After(n, before), a)
    ensures AllAsked(n, before + [a])
  {
    hide Inv, Apply, After;
    var s, s' := After(n, before), After(n, before + [a]);
    CurrentInside(s);
    RecvAsks(s, a);
    assert (before + [a])[..|before|] == before;
    assert AskedBy(n, before + [a], |before|, s'.tasks[s.current].packet);
    hide Asked;
    forall i: nat | i < |s'.tasks| && s'.tasks[i].at.InRecv?
      ensures Asked(n, before + [a], s'.tasks[i].packet)
    {
      if i != s.current {
        AskedStays(n, before, a, s.tasks[i].packet, s'.tasks[i].packet);
      }
    }
    forall j: nat | j < |s'.log|
      ensures Asked(n, before + [a], s'.log[j].request)
    {
      AskedStays(n, before, a, s.log[j].request, s'.log[j].request);
    }
  }

  /** The call asks for port, address and source port of the datagram, each or for any. */
  predicate AsksFor(call: Action, d: Arrived)
    requires call.Recv?
  {
    && (call.dport == 0 || call.dport == d.dport)
    && (call.saddr == 0 || call.saddr == d.saddr)
    && (call.sport == 0 || call.sport == d.sport)
  }

  /** Every return of recv_udp is of a call that was made: either with the first bytes, as many as
      fit, of one datagram that the call asked for, and its sender; or with 0, no earlier than the
      timeout after the call. */
  lemma ReturnAnswersCall(n: nat, acts: seq<Action>, j: nat) returns (k: nat)
    requires 0 < n <= NUM_TASKS && j < |After(n, acts).log|
    ensures k < |acts| && acts[k].Recv? && After(n, acts[..k]).current != IDLE
    ensures var call, r := acts[k], After(n, acts).log[j];
            && |r.frame.buff| == |call.buff|
            && match r.frame.got
               case None => r.frame.outLen == 0 && r.when >= After(n, acts[..k]).now + call.timeout
               case Some(d) =>
                 && AsksFor(call, d)
                 && r.frame.outLen == (if |d.payload| < |call.buff| then |d.payload| else |call.buff|)
                 && r.frame.buff[..r.frame.outLen] == d.payload[..r.frame.outLen]
                 && r.frame.saddr == d.saddr && r.frame.sport == d.sport
  {
    hide After, TasksOk, OwnFrames;
    RunAsked(n, acts);
    var r := After(n, acts).log[j];
    assert Asked(n, acts, r.request);
    k :| AskedBy(n, acts, k, r.request);
    assert Filled(r.request, r.frame) && TimedOut(r.request, r.frame, r.when);
  }

  // ---- dispatching ----

  /** Task i waits in the call that acts[k] was, and that call asks for d. */
  ghost predicate WaitsFor(n: nat, acts: seq<Action>, i: nat, k: nat, d: Arrived)
    requires 0 < n <= NUM_TASKS
  {
    var s := After(n, acts);
    && i < |s.tasks| && s.tasks[i].packet.isWaiting && AskedBy(n, acts, k, s.tasks[i].packet)
    && AsksFor(acts[k], d)
  }

  ghost predicate Waits(n: nat, acts: seq<Action>, i: nat, d: Arrived)
    requires 0 < n <= NUM_TASKS
  {
    exists k: nat :: WaitsFor(n, acts, i, k, d)
  }

  lemma WaitsIffAccepts(n: nat, acts: seq<Action>, i: nat, d: Arrived)
    requires 0 < n <= NUM_TASKS && i < |After(n, acts).tasks|
    ensures Accepts(After(n, acts).tasks[i], d) <==> Waits(n, acts, i, d)
  {
    hide After, OwnFrames, LogOk, Filled;
    var s := After(n, acts);
    RunAsked(n, acts);
    assert TaskOk(s.tasks[i], i, s.current, s.frames, s.now);
    if Accepts(s.tasks[i], d) {
      assert Asked(n, acts, s.tasks[i].packet);
      var k: nat :| AskedBy(n, acts, k, s.tasks[i].packet);
      assert WaitsFor(n, acts, i, k, d);
    }
  }

  /** A datagram goes to the first task that waits in a call asking for it, and to no other; with
      none the dispatcher yields. */
  lemma DispatchGoesToFirst(n: nat, acts: seq<Action>, d: Arrived)
    requires 0 < n <= NUM_TASKS && After(n, acts).current != IDLE
    ensures var s, s' := After(n, acts), After(n, acts + [Dispatch(d)]);
            && |s'.tasks| == |s.tasks| && s.current < |s.tasks|
            && (forall i: nat ::
                  i < |s.tasks| && Waits(n, acts, i, d) && (forall j: nat :: j < i ==> !Waits(n, acts, j, d)) ==>
                    && !s'.tasks[i].packet.isWaiting
                    && s.tasks[i].packet.frame in s'.frames && s'.frames[s.tasks[i].packet.frame].got == Some(d)
                    && forall j: nat :: j < |s.tasks| && j != i ==> s'.tasks[j] == s.tasks[j])
            && ((forall i: nat :: i < |s.tasks| ==> !Waits(n, acts, i, d)) ==>
                  s'.current == IDLE && s'.frames == s.frames && s'.tasks[s.current].at == InDispatch(d))
  {
    hide After, Inv, Apply, Waits, Kept;
    var s := After(n, acts);
    CurrentInside(s);
    AfterOneMore(n, acts, Dispatch(d));
    DispatchSpec(s, d);
    SameNumber(s, d);
    forall i: nat | i < |s.tasks|
      ensures Accepts(s.tasks[i], d) <==> Waits(n, acts, i, d)
    {
      WaitsIffAccepts(n, acts, i, d);
    }
    FindUdpFirst(s.tasks, d, 0);
  }

  lemma SameNumber(s: State, d: Arrived)
    requires Inv(s) && s.current != IDLE
    ensures |Apply(s, Dispatch(d)).tasks| == |s.tasks|
  {
    hide Inv, Deliver, Leave;
    CurrentInside(s);
    TaskKeeps(s, s.tasks[s.current], Dispatch(d));
  }

  lemma CurrentInside(s: State)
    requires Inv(s)
    ensures s.current < |s.tasks| && s.rr < |s.tasks|
  {}

  /** The packet that a task which has yielded in task_dispatch_udp comes back with: it goes to the first
      task that waits by then, and is dropped if there is none. */
  ghost predicate Retried(s: State, s': State, d: Arrived) {
    && |s'.tasks| == |s.tasks|
    && match FindUdp(s.tasks, d, 0)
       case None => s'.frames == s.frames
       case Some(u) =>
         && u < |s.tasks| && !s'.tasks[u].packet.isWaiting && s.tasks[u].packet.frame in s'.frames
         && s'.frames[s.tasks[u].packet.frame].got == Some(d)
  }

  lemma SameAccepts(tasks: seq<Task>, tasks': seq<Task>, t: nat, d: Arrived)
    requires |tasks'| == |tasks| && t < |tasks| && !tasks[t].packet.isWaiting && !tasks'[t].packet.isWaiting
    requires forall i: nat :: i < |tasks| && i != t ==> tasks'[i] == tasks[i]
    ensures FindUdp(tasks', d, 0) == FindUdp(tasks, d, 0)
  {
    FindUdpFirst(tasks, d, 0);
    FindUdpFirst(tasks', d, 0);
    forall i: nat | i < |tasks|
      ensures Accepts(tasks'[i], d) <==> Accepts(tasks[i], d)
    {}
  }

  /** Switching to task t, which has been polled and yielded as dispatcher. */
  lemma SwitchRetries(s: State, task: Task, t: nat, d: Arrived)
    requires t < |s.tasks| && s.tasks[t].at == task.at == InDispatch(d)
    requires !s.tasks[t].packet.isWaiting && !task.packet.isWaiting
    requires forall i: nat :: i < |s.tasks| && s.tasks[i].packet.isWaiting ==> s.tasks[i].packet.frame in s.frames
    ensures Retried(s, SwitchTo(s.(tasks := s.tasks[t := task]), t), d)
  {
    hide Fill;
    var s1 := WakeUp(s.(tasks := s.tasks[t := task]), t);
    SameAccepts(s.tasks, s1.tasks, t, d);
    FindUdpFirst(s.tasks, d, 0);
    match FindUdp(s.tasks, d, 0)
    case None =>
    case Some(u) =>
      assert Accepts(s.tasks[u], d) && u != t && s1.tasks[u] == s.tasks[u];
      FilledBy(s.frames[s.tasks[u].packet.frame], s.tasks[u].packet.len, d);
  }

  lemma FilledBy(f: Frame, len: nat, d: Arrived)
    ensures Fill(f, len, d).got == Some(d)
  {}

  lemma ScanRetries(s: State, i: nat, t: nat, d: Arrived)
    requires Inv(s) && t < |s.tasks| && s.tasks[t].at == InDispatch(d) && s.current == IDLE && t != IDLE
    requires DoScan(s, i).current == t
    ensures Retried(s, DoScan(s, i), d)
  {
    hide SwitchTo, Expired, OwnFrames, LogOk, Filled, TimedOut, FindUdp;
    assert TaskOk(s.tasks[t], t, s.current, s.frames, s.now);
    forall j: nat | j < |s.tasks| && s.tasks[j].packet.isWaiting
      ensures s.tasks[j].packet.frame in s.frames
    {
      assert TaskOk(s.tasks[j], j, s.current, s.frames, s.now);
    }
    var (ready, task) := Poll(s.tasks[s.rr], s.now);
    var s1 := s.(rr := NextTask(s), idle := ScanStep(i + 1));
    var s2 := s1.(tasks := s.tasks[s.rr := task]);
    SwitchTarget(s2, s.rr);
    SwitchRetries(s1, task, t, d);
  }

  lemma SwitchTarget(s: State, t: nat)
    requires t < |s.tasks|
    ensures SwitchTo(s, t).current == t
  {}

  lemma OnlyScanResumes(s: State, a: Action, t: nat)
    requires Inv(s) && s.current == IDLE && t < |s.tasks| && t != IDLE && s.tasks[t].wait == {}
    requires Apply(s, a).current == t
    ensures a.IdleScan? && s.idle.ScanStep?
  {
    hide SwitchTo, DoScan, OwnFrames, LogOk, TasksOk, CountWaiting;
    if a.IdlePoll? && s.idle.PollStep? {
      FindWaitingFirst(s.tasks, PollWait(s.idle.k), 0);
      var found := FindWaiting(s.tasks, PollWait(s.idle.k), 0);
      if found.Some? {
        SwitchTarget(s.(idle := if s.idle.k < 3 then PollStep(s.idle.k + 1) else ScanStep(0)), found.value);
      }
    }
  }

  /** A dispatcher that has yielded is taken up again by the loop over the tasks; the datagram then goes
      to the first task that waits in a call asking for it, or to none. */
  lemma RetryGoesToFirst(n: nat, acts: seq<Action>, a: Action, t: nat, d: Arrived)
    requires 0 < n <= NUM_TASKS && t < |After(n, acts).tasks| && After(n, acts).tasks[t].at == InDispatch(d)
    requires After(n, acts).current == IDLE && After(n, acts + [a]).current == t
    ensures var s, s' := After(n, acts), After(n, acts + [a]);
            && a.IdleScan? && |s'.tasks| == |s.tasks|
            && (forall i: nat ::
                  i < |s.tasks| && Waits(n, acts, i, d) && (forall j: nat :: j < i ==> !Waits(n, acts, j, d)) ==>
                    && !s'.tasks[i].packet.isWaiting
                    && s.tasks[i].packet.frame in s'.frames && s'.frames[s.tasks[i].packet.frame].got == Some(d))
            && ((forall i: nat :: i < |s.tasks| ==> !Waits(n, acts, i, d)) ==> s'.frames == s.frames)
  {
    hide After, Inv, Apply, Waits, DoScan;
    var s := After(n, acts);
    CurrentInside(s);
    AfterOneMore(n, acts, a);
    NotIdle(s, t, d);
    OnlyScanResumes(s, a, t);
    ScanIs(s);
    ScanRetries(s, s.idle.i, t, d);
    forall i: nat | i < |s.tasks|
      ensures Accepts(s.tasks[i], d) <==> Waits(n, acts, i, d)
    {
      WaitsIffAccepts(n, acts, i, d);
    }
    FindUdpFirst(s.tasks, d, 0);
  }

  lemma NotIdle(s: State, t: nat, d: Arrived)
    requires Inv(s) && t < |s.tasks| && s.tasks[t].at == InDispatch(d)
    ensures t != IDLE && s.tasks[t].wait == {}
  {
    assert TaskOk(s.tasks[t], t, s.current, s.frames, s.now);
  }

  lemma ScanIs(s: State)
    requires Inv(s) && s.current == IDLE && s.idle.ScanStep?
    ensures s.rr < |s.tasks| && s.current < |s.tasks| && Apply(s, IdleScan) == DoScan(s, s.idle.i)
  {}

  // ---- sleeping ----

  /** Task t has gone to sleep at start for delta cycles. */
  ghost predicate Asleep(s: State, t: nat, start: nat, delta: nat) {
    && t < |s.tasks| && s.tasks[t].at == Yielded && s.tasks[t].wait == {} && !s.tasks[t].packet.isWaiting
    && s.tasks[t].timer == Timer(start, delta, false)
  }

  lemma SwitchLeavesAsleep(s: State, u: nat, t: nat, start: nat, delta: nat)
    requires u < |s.tasks| && u != t && Asleep(s, t, start, delta)
    ensures Asleep(SwitchTo(s, u), t, start, delta)
  {
    if s.tasks[u].at.InDispatch? {
      FindUdpFirst(WakeUp(s, u).tasks, s.tasks[u].at.d, 0);
    }
  }

  lemma ScanLeavesAsleep(s: State, i: nat, t: nat, start: nat, delta: nat)
    requires s.rr < |s.tasks| && Asleep(s, t, start, delta) && s.now < start + delta
    ensures Asleep(DoScan(s, i), t, start, delta)
  {
    hide SwitchTo;
    if s.waiting < |s.tasks| && i < |s.tasks| && s.rr != IDLE {
      var (ready, task) := Poll(s.tasks[s.rr], s.now);
      var s2 := s.(rr := NextTask(s), idle := ScanStep(i + 1), tasks := s.tasks[s.rr := task]);
      if s.rr == t {
        assert !ready && task == s.tasks[t];
      } else if ready {
        SwitchLeavesAsleep(s2, s.rr, t, start, delta);
      }
    }
  }

  lemma StepLeavesAsleep(s: State, a: Action, t: nat, start: nat, delta: nat)
    requires Inv(s) && Asleep(s, t, start, delta) && Apply(s, a).now < start + delta
    ensures Asleep(Apply(s, a), t, start, delta) && s.now <= Apply(s, a).now
  {
    hide SwitchTo, DoScan, TasksOk, OwnFrames, LogOk;
    if a.Tick? {
    } else if s.current == IDLE {
      match (a, s.idle)
      case (IdlePoll(answer), PollStep(k)) =>
        FindWaitingFirst(s.tasks, PollWait(k), 0);
        if answer && FindWaiting(s.tasks, PollWait(k), 0).Some? {
          var s1 := s.(idle := if k < 3 then PollStep(k + 1) else ScanStep(0));
          SwitchLeavesAsleep(s1, FindWaiting(s.tasks, PollWait(k), 0).value, t, start, delta);
          SwitchTime(s1, FindWaiting(s.tasks, PollWait(k), 0).value);
        }
      case (IdleScan, ScanStep(i)) =>
        ScanTime(s, i);
        ScanLeavesAsleep(s, i, t, start, delta);
      case _ =>
    } else {
      Running(s);
      if a.Dispatch? {
        FindUdpFirst(s.tasks, a.d, 0);
      }
    }
  }

  lemma Running(s: State)
    requires Inv(s) && s.current != IDLE
    ensures s.tasks[s.current].at.Active? && !s.tasks[s.current].packet.isWaiting && s.tasks[s.current].wait == {}
  {
    hide Filled, OwnFrames, LogOk;
    assert TaskOk(s.tasks[s.current], s.current, s.current, s.frames, s.now);
  }

  lemma SwitchTime(s: State, t: nat)
    requires t < |s.tasks|
    ensures SwitchTo(s, t).now == s.now && SwitchTo(s, t).idle == s.idle
  {}

  lemma ScanTime(s: State, i: nat)
    requires s.rr < |s.tasks|
    ensures DoScan(s, i).now == s.now
  {
    hide SwitchTo;
    if s.waiting < |s.tasks| && i < |s.tasks| && s.rr != IDLE {
      var (ready, task) := Poll(s.tasks[s.rr], s.now);
      SwitchTime(s.(rr := NextTask(s), idle := ScanStep(i + 1), tasks := s.tasks[s.rr := task]), s.rr);
    }
  }

  /** A task that sleeps for delta cycles does not run before they are over, whatever else happens. */
  lemma {:induction false} SleepsLongEnough(n: nat, acts: seq<Action>, delta: nat, more: seq<Action>)
    requires 0 < n <= NUM_TASKS && After(n, acts).current != IDLE
    ensures var s, t := After(n, acts), After(n, acts).current;
            var s' := After(n, acts + [Sleep(delta)] + more);
            && s.now <= s'.now
            && (s'.now < s.now + delta ==> s'.current != t && Asleep(s', t, s.now, delta))
    decreases |more|
  {
    hide Inv, Apply, After, Asleep;
    var s, t := After(n, acts), After(n, acts).current;
    var first := acts + [Sleep(delta)];
    if more == [] {
      assert first + more == first;
      AfterOneMore(n, acts, Sleep(delta));
      FallsAsleep(s, delta);
    } else {
      var before, a := more[..|more| - 1], more[|more| - 1];
      assert first + more == first + before + [a];
      SleepsLongEnough(n, acts, delta, before);
      AfterOneMore(n, first + before, a);
      var s1 := After(n, first + before);
      CurrentInside(s1);
      TimeGoesOn(s1, a);
      if Apply(s1, a).now < s.now + delta {
        StepLeavesAsleep(s1, a, t, s.now, delta);
        NotRunning(Apply(s1, a), t, s.now, delta);
      }
    }
  }

  lemma TimeGoesOn(s: State, a: Action)
    requires Inv(s)
    ensures s.now <= Apply(s, a).now
  {
    hide SwitchTo, DoScan, TasksOk, OwnFrames, LogOk;
    if s.current == IDLE {
      match (a, s.idle)
      case (IdlePoll(answer), PollStep(k)) =>
        FindWaitingFirst(s.tasks, PollWait(k), 0);
        var found := FindWaiting(s.tasks, PollWait(k), 0);
        if answer && found.Some? {
          SwitchTime(s.(idle := if k < 3 then PollStep(k + 1) else ScanStep(0)), found.value);
        }
      case (IdleScan, ScanStep(i)) => ScanTime(s, i);
      case _ =>
    }
  }

  lemma FallsAsleep(s: State, delta: nat)
    requires Inv(s) && s.current != IDLE
    ensures var s' := Apply(s, Sleep(delta));
            s'.now == s.now && s'.current != s.current && Asleep(s', s.current, s.now, delta)
  {
    hide TasksOk, OwnFrames, LogOk;
    Running(s);
  }

  lemma NotRunning(s: State, t: nat, start: nat, delta: nat)
    requires Inv(s) && Asleep(s, t, start, delta)
    ensures s.current != t || t == IDLE
  {
    hide Filled, OwnFrames, LogOk;
    assert TaskOk(s.tasks[t], t, s.current, s.frames, s.now);
  }

  // ---- being ready ----

  /** Only a task that has gone to sleep has a timer that is still running. */
  ghost predicate TimersDone(s: State) {
    forall i: nat :: i < |s.tasks| && !s.tasks[i].timer.timeout ==> s.tasks[i].at == Yielded
  }

  lemma SwitchTimers(s: State, t: nat)
    requires t < |s.tasks| && TimersDone(s) && s.tasks[t].timer.timeout
    ensures TimersDone(SwitchTo(s, t))
  {
    if s.tasks[t].at.InDispatch? {
      FindUdpFirst(WakeUp(s, t).tasks, s.tasks[t].at.d, 0);
    }
  }

  lemma ScanTimers(s: State, i: nat)
    requires s.rr < |s.tasks| && TimersDone(s)
    ensures TimersDone(DoScan(s, i))
  {
    hide SwitchTo, Expired;
    if s.waiting < |s.tasks| && i < |s.tasks| && s.rr != IDLE {
      var (ready, task) := Poll(s.tasks[s.rr], s.now);
      var s2 := s.(rr := NextTask(s), idle := ScanStep(i + 1), tasks := s.tasks[s.rr := task]);
      if ready {
        SwitchTimers(s2, s.rr);
      }
    }
  }

  lemma StepTimers(s: State, a: Action)
    requires Inv(s) && TimersDone(s)
    ensures s.current < |s.tasks| && s.rr < |s.tasks| && TimersDone(Apply(s, a))
  {
    hide SwitchTo, DoScan, OwnFrames, LogOk, CountWaiting, Filled, TimedOut;
    if a.Tick? {
    } else if s.current != IDLE {
      Running(s);
      if a.Dispatch? {
        FindUdpFirst(s.tasks, a.d, 0);
      }
    } else {
      match (a, s.idle)
      case (IdlePoll(answer), PollStep(k)) =>
        FindWaitingFirst(s.tasks, PollWait(k), 0);
        var found := FindWaiting(s.tasks, PollWait(k), 0);
        if answer && found.Some? {
          assert TaskOk(s.tasks[found.value], found.value, s.current, s.frames, s.now);
          SwitchTimers(s.(idle := if k < 3 then PollStep(k + 1) else ScanStep(0)), found.value);
        }
      case (IdleScan, ScanStep(i)) => ScanTimers(s, i);
      case _ =>
    }
  }

  lemma {:induction false} RunTimers(n: nat, acts: seq<Action>)
    requires 0 < n <= NUM_TASKS
    ensures TimersDone(After(n, acts))
  {
    hide Inv, Apply;
    if acts != [] {
      var before, a := acts[..|acts| - 1], acts[|acts| - 1];
      RunTimers(n, before);
      assert before + [a] == acts;
      AfterOneMore(n, before, a);
      StepTimers(After(n, before), a);
    }
  }

  /** A task that sleeps is ready for the loop over the tasks from the end of its time on. */
  lemma SleeperIsReady(s: State, t: nat, start: nat, delta: nat)
    requires Asleep(s, t, start, delta)
    ensures Ready(s.tasks[t], s.now) <==> s.now >= start + delta
  {}

  /** So is one that waits in recv_udp, from its timeout on. */
  lemma CallerIsReady(n: nat, acts: seq<Action>, i: nat, k: nat)
    requires 0 < n <= NUM_TASKS && i < |After(n, acts).tasks| && After(n, acts).tasks[i].packet.isWaiting
    requires AskedBy(n, acts, k, After(n, acts).tasks[i].packet)
    ensures Ready(After(n, acts).tasks[i], After(n, acts).now)
            <==> After(n, acts).now >= After(n, acts[..k]).now + acts[k].timeout
  {
    hide After, OwnFrames, LogOk, Filled, TimedOut;
    var s := After(n, acts);
    RunTimers(n, acts);
    assert TaskOk(s.tasks[i], i, s.current, s.frames, s.now);
  }

  // ---- devices ----

  predicate FirstWaiting(tasks: seq<Task>, w: Wait, t: nat) {
    t < |tasks| && w in tasks[t].wait && forall i: nat :: i < t ==> w !in tasks[i].wait
  }

  /** The four polls of idle_entry, in their order, are for terminal input and output and for
      Ethernet input and output; each wakes the first task that waits for that device. */
  lemma PollWakesWaiting(s: State, k: nat, w: Wait)
    requires Inv(s) && s.current == IDLE && s.idle == PollStep(k)
    requires (k, w) in {(0, TtyRecv), (1, TtySend), (2, EthRecv), (3, EthSend)}
    ensures Apply(s, IdlePoll(false)).tasks == s.tasks && Apply(s, IdlePoll(false)).current == IDLE
    ensures var s' := Apply(s, IdlePoll(true));
            && ((forall i: nat :: i < |s.tasks| ==> w !in s.tasks[i].wait) ==>
                  s'.tasks == s.tasks && s'.current == IDLE)
            && forall t: nat :: FirstWaiting(s.tasks, w, t) ==>
                 s'.current == t && |s'.tasks| == |s.tasks| && s'.tasks[t].wait == {} && s'.tasks[t].at.Active?
  {
    hide OwnFrames, LogOk, Filled;
    assert PollWait(k) == w;
    FindWaitingFirst(s.tasks, w, 0);
    if FindWaiting(s.tasks, w, 0).Some? {
      var t := FindWaiting(s.tasks, w, 0).value;
      assert TaskOk(s.tasks[t], t, s.current, s.frames, s.now);
      assert s.tasks[t].at.InWait? && s.tasks[t].wait == {s.tasks[t].at.w};
      assert s.tasks[t].at.w == w;
      assert s.tasks[t].wait - {w} == {};
    }
  }

  /** What a switch to another task leaves of a task that waits for a device. */
  lemma SwitchLeavesWaiting(s: State, u: nat, t: nat)
    requires u < |s.tasks| && t < |s.tasks| && u != t && s.tasks[t].at.InWait?
    ensures |SwitchTo(s, u).tasks| == |s.tasks| && SwitchTo(s, u).tasks[t].at == s.tasks[t].at
  {
    if s.tasks[u].at.InDispatch? {
      FindUdpFirst(WakeUp(s, u).tasks, s.tasks[u].at.d, 0);
    }
  }

  lemma ScanLeavesWaiting(s: State, i: nat, t: nat)
    requires s.rr < |s.tasks| && t < |s.tasks| && s.tasks[t].at.InWait? && s.tasks[t].wait != {}
    ensures |DoScan(s, i).tasks| == |s.tasks| && DoScan(s, i).tasks[t].at == s.tasks[t].at
  {
    hide SwitchTo, Expired;
    if s.waiting < |s.tasks| && i < |s.tasks| && s.rr != IDLE {
      var (ready, task) := Poll(s.tasks[s.rr], s.now);
      var s2 := s.(rr := NextTask(s), idle := ScanStep(i + 1), tasks := s.tasks[s.rr := task]);
      if s.rr == t {
        assert !ready && task == s.tasks[t];
      } else if ready {
        SwitchLeavesWaiting(s2, s.rr, t);
      }
    }
  }

  lemma IdleKeepsOrder(s: State, a: Action)
    requires Inv(s) && (s.idle.PollStep? ==> s.idle.k < 4)
    ensures s.current < |s.tasks| && s.rr < |s.tasks| && (Apply(s, a).idle.PollStep? ==> Apply(s, a).idle.k < 4)
  {
    hide SwitchTo, Poll, TasksOk, OwnFrames, LogOk, CountWaiting;
    if s.current == IDLE {
      match (a, s.idle)
      case (IdlePoll(answer), PollStep(k)) =>
        FindWaitingFirst(s.tasks, PollWait(k), 0);
        var found := FindWaiting(s.tasks, PollWait(k), 0);
        if answer && found.Some? {
          SwitchTime(s.(idle := if k < 3 then PollStep(k + 1) else ScanStep(0)), found.value);
        }
      case _ =>
    } else if a.Dispatch? {
      FindUdpFirst(s.tasks, a.d, 0);
    }
  }

  /** There are four polls. */
  lemma {:induction false} FourPolls(n: nat, acts: seq<Action>)
    requires 0 < n <= NUM_TASKS
    ensures After(n, acts).idle.PollStep? ==> After(n, acts).idle.k < 4
  {
    hide Inv, Apply;
    if acts != [] {
      var before, a := acts[..|acts| - 1], acts[|acts| - 1];
      FourPolls(n, before);
      assert before + [a] == acts;
      AfterOneMore(n, before, a);
      IdleKeepsOrder(After(n, before), a);
    }
  }

  /** A call of wait returns only when the poll of its own device has answered, and no earlier task
      waits for that device; a task that has called exit never goes on. */
  lemma WaitsForDevice(n: nat, acts: seq<Action>, a: Action, t: nat, w: Wait)
    requires 0 < n <= NUM_TASKS && t < |After(n, acts).tasks| && After(n, acts).tasks[t].at == InWait(w)
    ensures var s, s' := After(n, acts), After(n, acts + [a]);
            && |s'.tasks| == |s.tasks|
            && (s'.tasks[t].at != InWait(w) ==>
                  && s.current == IDLE && a == IdlePoll(true) && FirstWaiting(s.tasks, w, t)
                  && s.idle.PollStep? && s.idle.k < 4 && w == [TtyRecv, TtySend, EthRecv, EthSend][s.idle.k])
  {
    hide After, Apply, Inv, FirstWaiting;
    AfterOneMore(n, acts, a);
    FourPolls(n, acts);
    StepLeavesWaiting(After(n, acts), a, t, w);
  }

  lemma StepLeavesWaiting(s: State, a: Action, t: nat, w: Wait)
    requires Inv(s) && t < |s.tasks| && s.tasks[t].at == InWait(w)
    ensures s.current < |s.tasks| && s.rr < |s.tasks| && |Apply(s, a).tasks| == |s.tasks|
    ensures Apply(s, a).tasks[t].at != InWait(w) ==>
              && s.current == IDLE && a == IdlePoll(true) && FirstWaiting(s.tasks, w, t)
              && s.idle.PollStep? && w == PollWait(s.idle.k)
  {
    hide OwnFrames, LogOk, Filled, Deliver, DoScan, SwitchTo;
    assert TaskOk(s.tasks[t], t, s.current, s.frames, s.now);
    if a.Tick? {
    } else if s.current != IDLE {
      Running(s);
      TaskKeepsWaiting(s, a, t);
    } else {
      match (a, s.idle)
      case (IdlePoll(answer), PollStep(k)) => PollLeavesWaiting(s, k, answer, t, w);
      case (IdleScan, ScanStep(i)) => ScanLeavesWaiting(s, i, t);
      case _ =>
    }
  }

  lemma TaskKeepsWaiting(s: State, a: Action, t: nat)
    requires s.current < |s.tasks| && t < |s.tasks| && t != s.current
    ensures var s' := TaskStep(s, s.tasks[s.current], a);
            |s'.tasks| == |s.tasks| && s'.tasks[t].at == s.tasks[t].at
  {
    if a.Dispatch? {
      FindUdpFirst(s.tasks, a.d, 0);
    }
  }

  lemma PollLeavesWaiting(s: State, k: nat, answer: bool, t: nat, w: Wait)
    requires t < |s.tasks| && s.tasks[t].at == InWait(w) && s.tasks[t].wait == {w}
    ensures |DoPoll(s, k, answer).tasks| == |s.tasks|
    ensures DoPoll(s, k, answer).tasks[t].at != InWait(w) ==>
              answer && FirstWaiting(s.tasks, w, t) && w == PollWait(k)
  {
    hide SwitchTo;
    FindWaitingFirst(s.tasks, PollWait(k), 0);
    var s1 := s.(idle := if k < 3 then PollStep(k + 1) else ScanStep(0));
    var found := FindWaiting(s.tasks, PollWait(k), 0);
    if answer && found.Some? {
      if found.value != t {
        SwitchLeavesWaiting(s1, found.value, t);
      } else {
        SwitchSize(s1, t);
      }
    }
  }

  lemma SwitchSize(s: State, t: nat)
    requires t < |s.tasks|
    ensures |SwitchTo(s, t).tasks| == |s.tasks|
  {
    if s.tasks[t].at.InDispatch? {
      FindUdpFirst(WakeUp(s, t).tasks, s.tasks[t].at.d, 0);
    }
  }
}
