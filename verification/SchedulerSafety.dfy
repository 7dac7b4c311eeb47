/** What holds in every state the scheduler can reach. */
module SchedulerSafety {
  import opened Bytes
  import opened Tasks
  import opened Scheduler

  /** A call of recv_udp has nothing, or the clipped payload of one datagram that passes its
      filter, with the sender's address. */
  predicate Filled(p: WaitPacket, f: Frame) {
    && |f.buff| == p.len
    && match f.got
       case None => f.outLen == 0
       case Some(d) =>
         && Matches(p, d) && f.outLen == Min(|d.payload|, p.len) && f.buff[..f.outLen] == d.payload[..f.outLen]
         && f.saddr == d.saddr && f.sport == d.sport
  }

  /** Nothing has come, and the time is over; or something has come. */
  predicate TimedOut(p: WaitPacket, f: Frame, now: nat) {
    f.got == None ==> Expired(p.start, p.delta, now)
  }

  predicate Runs(i: nat, current: nat) {
    i == current && i != IDLE
  }

  /** A task that waits for a packet is suspended in its own call of recv_udp, and the pointers
      lead to the variables of that call. */
  ghost predicate TaskOk(t: Task, i: nat, current: nat, frames: map<nat, Frame>, now: nat) {
    && (t.at.Active? <==> Runs(i, current))
    && (i == IDLE ==> t.at == Yielded)
    && t.wait == (if t.at.InWait? then {t.at.w} else {})
    && (t.packet.isWaiting ==> t.at.InRecv?)
    && (t.at.InRecv? ==>
          && t.packet.frame == t.at.frame && t.at.frame in frames && Filled(t.packet, frames[t.at.frame])
          && (t.packet.isWaiting ==> frames[t.at.frame].got == None)
          && (t.packet.isWaiting || TimedOut(t.packet, frames[t.at.frame], now)))
  }

  ghost predicate OwnFrames(tasks: seq<Task>) {
    forall i: nat, j: nat :: i < j < |tasks| && tasks[i].at.InRecv? && tasks[j].at.InRecv? ==>
      tasks[i].at.frame != tasks[j].at.frame
  }

  ghost predicate TasksOk(tasks: seq<Task>, current: nat, frames: map<nat, Frame>, now: nat) {
    forall i: nat :: i < |tasks| ==> TaskOk(tasks[i], i, current, frames, now)
  }

  ghost predicate LogOk(log: seq<Return>) {
    forall i :: 0 <= i < |log| ==>
      Filled(log[i].request, log[i].frame) && TimedOut(log[i].request, log[i].frame, log[i].when)
  }

  ghost predicate Inv(s: State) {
    && 0 < |s.tasks| <= NUM_TASKS && s.current < |s.tasks| && s.rr < |s.tasks| && !s.fault
    && TasksOk(s.tasks, s.current, s.frames, s.now) && OwnFrames(s.tasks) && LogOk(s.log)
    && (forall f :: f in s.frames ==> f < s.next)
    && s.waiting == CountWaiting(s.tasks, |s.tasks|)
  }

  lemma {:induction false} NoneWaiting(tasks: seq<Task>, n: nat)
    requires n <= |tasks| && forall i :: 0 <= i < n ==> tasks[i].wait == {}
    ensures CountWaiting(tasks, n) == 0
  {
    if n > 0 {
      NoneWaiting(tasks, n - 1);
    }
  }

  lemma BootIsSafe(n: nat)
    requires 0 < n <= NUM_TASKS
    ensures Inv(Boot(n))
  {
    NoneWaiting(Boot(n).tasks, n);
  }

  /** A step that replaces one task and perhaps its frame. */
  lemma OneTask(s: State, i: nat, t: Task, current: nat, frames: map<nat, Frame>)
    requires Inv(s) && i < |s.tasks| && TaskOk(t, i, current, frames, s.now)
    requires forall j: nat :: j < |s.tasks| && j != i ==> (Runs(j, current) <==> Runs(j, s.current))
    requires forall j: nat :: j < |s.tasks| && j != i && s.tasks[j].at.InRecv? ==>
               s.tasks[j].at.frame in frames && frames[s.tasks[j].at.frame] == s.frames[s.tasks[j].at.frame]
    requires t.at.InRecv? ==> forall j: nat :: j < |s.tasks| && j != i && s.tasks[j].at.InRecv? ==>
               s.tasks[j].at.frame != t.at.frame
    ensures TasksOk(s.tasks[i := t], current, frames, s.now) && OwnFrames(s.tasks[i := t])
  {
    hide Filled, Runs;
    var tasks := s.tasks[i := t];
    forall j: nat | j < |tasks|
      ensures TaskOk(tasks[j], j, current, frames, s.now)
    {
      if j != i {
        assert TaskOk(s.tasks[j], j, s.current, s.frames, s.now);
        assert Runs(j, current) <==> Runs(j, s.current);
      }
    }
  }

  // ---- delivery ----

  lemma FillIsFilled(p: WaitPacket, f: Frame, d: Arrived)
    requires Matches(p, d) && |f.buff| == p.len
    ensures Filled(p.(isWaiting := false), Fill(f, p.len, d)) && Fill(f, p.len, d).got == Some(d)
  {}

  lemma DeliverIsSafe(s: State, d: Arrived, u: nat)
    requires Inv(s) && u < |s.tasks| && Accepts(s.tasks[u], d)
    ensures Inv(Deliver(s, d, u))
  {
    hide Fill, Filled;
    var t := s.tasks[u];
    assert TaskOk(t, u, s.current, s.frames, s.now);
    assert |s.frames[t.packet.frame].buff| == t.packet.len by {
      assert Filled(t.packet, s.frames[t.packet.frame]);
      FilledSize(t.packet, s.frames[t.packet.frame]);
    }
    FillIsFilled(t.packet, s.frames[t.packet.frame], d);
    var t' := t.(packet := t.packet.(isWaiting := false));
    var s' := Deliver(s, d, u);
    OneTask(s, u, t', s.current, s'.frames);
    CountChange(s.tasks, u, t', |s.tasks|);
  }

  lemma FilledSize(p: WaitPacket, f: Frame)
    requires Filled(p, f)
    ensures |f.buff| == p.len
  {}

  lemma MaybeDeliver(s: State, d: Arrived)
    requires Inv(s)
    ensures match FindUdp(s.tasks, d, 0)
            case Some(u) => u < |s.tasks| && Inv(Deliver(s, d, u))
            case None => true
  {
    hide Inv, Deliver;
    FindUdpFirst(s.tasks, d, 0);
    if FindUdp(s.tasks, d, 0).Some? {
      DeliverIsSafe(s, d, FindUdp(s.tasks, d, 0).value);
    }
  }

  /** The buffer beyond the delivered bytes. */
  predicate Kept(f: Frame, f': Frame) {
    |f'.buff| == |f.buff| && f'.outLen <= |f.buff| && f'.buff[f'.outLen..] == f.buff[f'.outLen..]
  }

  /** A datagram goes to the first task, in the order of creation, that waits for it, and
      changes nothing else; if there is none the dispatching task yields once. */
  lemma DispatchSpec(s: State, d: Arrived)
    requires Inv(s) && s.current != IDLE
    ensures var s' := Apply(s, Dispatch(d));
            match FindUdp(s.tasks, d, 0)
            case None =>
              && (forall i: nat :: i < |s.tasks| ==> !Accepts(s.tasks[i], d))
              && s'.current == IDLE && s'.tasks[s.current].at == InDispatch(d) && s'.frames == s.frames
            case Some(u) =>
              && u < |s.tasks| && Accepts(s.tasks[u], d) && (forall i: nat :: i < u ==> !Accepts(s.tasks[i], d))
              && s'.current == s.current && !s'.tasks[u].packet.isWaiting
              && s.tasks[u].packet.frame in s'.frames && s'.frames[s.tasks[u].packet.frame].got == Some(d)
              && s.tasks[u].packet.frame in s.frames
              && Kept(s.frames[s.tasks[u].packet.frame], s'.frames[s.tasks[u].packet.frame])
              && (forall i: nat :: i < |s.tasks| && i != u ==> s'.tasks[i] == s.tasks[i])
              && (forall f :: f in s.frames && f != s.tasks[u].packet.frame ==>
                    f in s'.frames && s'.frames[f] == s.frames[f])
  {
    hide Filled, Fill, Kept;
    FindUdpFirst(s.tasks, d, 0);
    match FindUdp(s.tasks, d, 0)
    case None =>
    case Some(u) =>
      assert TaskOk(s.tasks[u], u, s.current, s.frames, s.now);
      var p := s.tasks[u].packet;
      FilledSize(p, s.frames[p.frame]);
      FillKeeps(s.frames[p.frame], p.len, d);
      FillIsFilled(p, s.frames[p.frame], d);
  }

  lemma FillKeeps(f: Frame, len: nat, d: Arrived)
    requires |f.buff| == len
    ensures Kept(f, Fill(f, len, d))
  {}

  // ---- switching ----

  lemma WakeUpIsSafe(s: State, t: nat)
    requires Inv(s) && s.current == IDLE && 0 < t < |s.tasks| && !s.tasks[t].at.InRecv? && !s.tasks[t].at.InWait?
    ensures Inv(WakeUp(s, t))
  {
    var t' := s.tasks[t].(at := Active);
    assert TaskOk(s.tasks[t], t, s.current, s.frames, s.now);
    OneTask(s, t, t', t, s.frames);
    CountChange(s.tasks, t, t', |s.tasks|);
  }

  lemma EndWaitIsSafe(s: State, t: nat)
    requires Inv(s) && s.current == IDLE && 0 < t < |s.tasks| && s.tasks[t].at.InWait?
    ensures Inv(SwitchTo(s, t))
  {
    var t' := s.tasks[t].(at := Active, wait := {});
    assert TaskOk(s.tasks[t], t, s.current, s.frames, s.now);
    OneTask(s, t, t', t, s.frames);
    CountChange(s.tasks, t, t', |s.tasks|);
    assert s.tasks[t].wait - {s.tasks[t].at.w} == {};
    var s' := SwitchTo(s, t);
    assert s'.tasks == s.tasks[t := t'];
  }

  lemma EndRecvIsSafe(s: State, t: nat)
    requires Inv(s) && s.current == IDLE && 0 < t < |s.tasks| && s.tasks[t].at.InRecv? && !s.tasks[t].packet.isWaiting
    ensures Inv(SwitchTo(s, t))
  {
    hide Filled;
    var f := s.tasks[t].at.frame;
    var t' := s.tasks[t].(at := Active);
    assert TaskOk(s.tasks[t], t, s.current, s.frames, s.now);
    forall j: nat | j < |s.tasks| && j != t && s.tasks[j].at.InRecv?
      ensures s.tasks[j].at.frame in s.frames - {f}
    {
      assert TaskOk(s.tasks[j], j, s.current, s.frames, s.now);
    }
    OneTask(s, t, t', t, s.frames - {f});
    CountChange(s.tasks, t, t', |s.tasks|);
    var s' := SwitchTo(s, t);
    assert s' == EndRecv(WakeUp(s, t), t, f);
    assert s'.log == s.log + [Return(s.tasks[t].packet, s.frames[f], s.now)];
  }

  lemma SwitchToIsSafe(s: State, t: nat)
    requires Inv(s) && s.current == IDLE && 0 < t < |s.tasks| && !s.tasks[t].packet.isWaiting
    ensures Inv(SwitchTo(s, t))
  {
    hide Inv, Deliver, EndRecv;
    match s.tasks[t].at
    case InWait(w) => EndWaitIsSafe(s, t);
    case InRecv(f) => EndRecvIsSafe(s, t);
    case InDispatch(d) =>
      WakeUpIsSafe(s, t);
      MaybeDeliver(WakeUp(s, t), d);
    case _ =>
      WakeUpIsSafe(s, t);
  }

  // ---- the steps ----

  lemma LeaveIsSafe(s: State, t: Task, p: Point, frames: map<nat, Frame>)
    requires Inv(s) && s.current != IDLE
    requires TaskOk(t.(at := p), s.current, IDLE, frames, s.now) && frames.Keys >= s.frames.Keys
    requires forall f :: f in s.frames ==> frames[f] == s.frames[f]
    requires p.InRecv? ==> p.frame !in s.frames
    ensures TasksOk(Leave(s, t, p).tasks, IDLE, frames, s.now) && OwnFrames(Leave(s, t, p).tasks)
    ensures CountWaiting(Leave(s, t, p).tasks, |s.tasks|) == s.waiting + if t.wait != {} then 1 else 0
  {
    hide Filled;
    assert TaskOk(s.tasks[s.current], s.current, s.current, s.frames, s.now);
    forall j: nat | j < |s.tasks| && j != s.current && s.tasks[j].at.InRecv?
      ensures s.tasks[j].at.frame in s.frames
    {
      assert TaskOk(s.tasks[j], j, s.current, s.frames, s.now);
    }
    OneTask(s, s.current, t.(at := p), IDLE, frames);
    CountChange(s.tasks, s.current, t.(at := p), |s.tasks|);
  }

  lemma TaskStepIsSafe(s: State, a: Action)
    requires Inv(s) && s.current != IDLE
    ensures Inv(TaskStep(s, s.tasks[s.current], a))
  {
    var t := s.tasks[s.current];
    assert TaskOk(t, s.current, s.current, s.frames, s.now);
    match a
    case Yield => LeaveIsSafe(s, t, Yielded, s.frames);
    case Sleep(delta) => LeaveIsSafe(s, t.(timer := Timer(s.now, delta, false)), Yielded, s.frames);
    case WaitFor(w) => LeaveIsSafe(s, t.(wait := t.wait + {w}), InWait(w), s.frames);
    case Recv(dport, saddr, sport, buff, timeout) =>
      var frames := s.frames[s.next := Frame(0, 0, 0, buff, None)];
      LeaveIsSafe(s, t.(packet := WaitPacket(true, dport, saddr, sport, s.next, |buff|, s.now, timeout)),
        InRecv(s.next), frames);
    case Dispatch(d) =>
      MaybeDeliver(s, d);
      LeaveIsSafe(s, t, InDispatch(d), s.frames);
    case _ =>
  }

  lemma PollIsSafe(s: State, k: nat, answer: bool)
    requires Inv(s) && s.current == IDLE
    ensures Inv(DoPoll(s, k, answer))
  {
    hide SwitchTo, OwnFrames, LogOk, Filled;
    var s1 := s.(idle := if k < 3 then PollStep(k + 1) else ScanStep(0));
    FindWaitingFirst(s.tasks, PollWait(k), 0);
    match FindWaiting(s.tasks, PollWait(k), 0)
    case None =>
    case Some(t) =>
      assert TaskOk(s.tasks[t], t, s.current, s.frames, s.now);
      SwitchToIsSafe(s1, t);
  }

  /** What polling may change in a task. */
  lemma PolledTask(t: Task, i: nat, frames: map<nat, Frame>, now: nat)
    requires TaskOk(t, i, IDLE, frames, now) && i != IDLE
    ensures var (ready, t') := Poll(t, now);
            && TaskOk(t', i, IDLE, frames, now) && t'.wait == t.wait && t'.at == t.at
            && (ready ==> !t'.packet.isWaiting)
  {}

  lemma PolledIsSafe(s: State, i: nat)
    requires Inv(s) && s.current == IDLE && s.rr != IDLE
    ensures var (ready, task) := Poll(s.tasks[s.rr], s.now);
            && Inv(s.(rr := NextTask(s), idle := ScanStep(i + 1), tasks := s.tasks[s.rr := task]))
            && (ready ==> !task.packet.isWaiting)
  {
    hide LogOk, Filled, Poll;
    var (ready, task) := Poll(s.tasks[s.rr], s.now);
    assert TaskOk(s.tasks[s.rr], s.rr, s.current, s.frames, s.now);
    PolledTask(s.tasks[s.rr], s.rr, s.frames, s.now);
    OneTaskPolled(s, s.rr, task);
  }

  lemma ScanIsSafe(s: State, i: nat)
    requires Inv(s) && s.current == IDLE
    ensures Inv(DoScan(s, i))
  {
    hide SwitchTo, LogOk, Filled, Poll, TasksOk, OwnFrames;
    var t := s.rr;
    if t != IDLE && s.waiting < |s.tasks| && i < |s.tasks| {
      PolledIsSafe(s, i);
      var (ready, task) := Poll(s.tasks[t], s.now);
      if ready {
        SwitchToIsSafe(s.(rr := NextTask(s), idle := ScanStep(i + 1), tasks := s.tasks[t := task]), t);
      }
    }
  }

  lemma OneTaskPolled(s: State, t: nat, task: Task)
    requires Inv(s) && s.current == IDLE && t < |s.tasks| && TaskOk(task, t, IDLE, s.frames, s.now)
    requires task.wait == s.tasks[t].wait && task.at == s.tasks[t].at
    ensures TasksOk(s.tasks[t := task], IDLE, s.frames, s.now) && OwnFrames(s.tasks[t := task])
    ensures CountWaiting(s.tasks[t := task], |s.tasks|) == s.waiting
  {
    hide Filled, Runs;
    forall j: nat | j < |s.tasks| && j != t && s.tasks[j].at.InRecv?
      ensures s.tasks[j].at.frame in s.frames
    {
      assert TaskOk(s.tasks[j], j, s.current, s.frames, s.now);
    }
    OneTask(s, t, task, IDLE, s.frames);
    CountChange(s.tasks, t, task, |s.tasks|);
  }

  lemma StepIsSafe(s: State, a: Action)
    requires Inv(s)
    ensures Inv(Apply(s, a))
  {
    if a.Tick? {
      forall i: nat | i < |s.tasks|
        ensures TaskOk(s.tasks[i], i, s.current, s.frames, s.now + a.cycles)
      {
        assert TaskOk(s.tasks[i], i, s.current, s.frames, s.now);
      }
    } else if s.current != IDLE {
      hide TaskStep, TasksOk, OwnFrames, LogOk;
      TaskStepIsSafe(s, a);
    } else {
      match (a, s.idle)
      case (IdlePoll(answer), PollStep(k)) => PollIsSafe(s, k, answer);
      case (IdleScan, ScanStep(i)) => ScanIsSafe(s, i);
      case _ =>
    }
  }

  // ---- runs ----

  ghost function Run(s: State, acts: seq<Action>): (r: State)
    requires Inv(s)
    ensures Inv(r)
  {
    if acts == [] then s
    else
      var before := Run(s, acts[..|acts| - 1]);
      StepIsSafe(before, acts[|acts| - 1]);
      Apply(before, acts[|acts| - 1])
  }

  /** In every reachable state a task that waits for a packet is suspended in its own recv_udp,
      nothing was ever written through a dead pointer, and recv_udp has returned only the clipped
      length of one datagram that passes its filter, with payload and sender, or 0 when its time
      was over. Whenever idle runs, num_waiting_task is the number of tasks with a wait and below
      num_task. */
  lemma ReachableIsSafe(n: nat, acts: seq<Action>)
    requires 0 < n <= NUM_TASKS
    ensures Inv(Boot(n))
    ensures var s := Run(Boot(n), acts);
            && !s.fault
            && (forall i: nat :: i < |s.tasks| && s.tasks[i].packet.isWaiting ==>
                  i != s.current && s.tasks[i].at == InRecv(s.tasks[i].packet.frame)
                    && s.tasks[i].packet.frame in s.frames)
            && (forall i :: 0 <= i < |s.log| ==>
                  Filled(s.log[i].request, s.log[i].frame) && TimedOut(s.log[i].request, s.log[i].frame, s.log[i].when))
            && s.waiting == CountWaiting(s.tasks, |s.tasks|)
            && (s.current == IDLE ==> s.waiting < |s.tasks|)
  {
    hide Filled;
    BootIsSafe(n);
    var s := Run(Boot(n), acts);
    forall i: nat | i < |s.tasks| && s.tasks[i].packet.isWaiting
      ensures i != s.current && s.tasks[i].at == InRecv(s.tasks[i].packet.frame) && s.tasks[i].packet.frame in s.frames
    {
      assert TaskOk(s.tasks[i], i, s.current, s.frames, s.now);
    }
    assert TaskOk(s.tasks[IDLE], IDLE, s.current, s.frames, s.now);
    CountBelow(s.tasks, IDLE, |s.tasks|);
  }
}
