/** The cooperative scheduler (task.c) as a state machine: tasks run until they give up the
    processor, and the idle task picks the next one. */
module Scheduler {
  import opened Bytes
  import opened Tasks

  /** The variables of one call of recv_udp that other tasks write through pointers; got is the
      datagram that was delivered there. */
  datatype Frame = Frame(outLen: nat, saddr: nat, sport: nat, buff: seq<byte>, got: Option<Arrived>)

  /** Where idle_entry stands: before one of its four polls, or in its round-robin loop with
      i tasks looked at. */
  datatype Idle = PollStep(k: nat) | ScanStep(i: nat)

  /** What a call of recv_udp asked for and came back with, and when. */
  datatype Return = Return(request: WaitPacket, frame: Frame, when: nat)

  /** fault: something was written through a pointer to a call that had returned. */
  datatype State = State(tasks: seq<Task>, waiting: nat, current: nat, rr: nat, idle: Idle, now: nat,
                         frames: map<nat, Frame>, next: nat, log: seq<Return>, fault: bool)

  function Boot(n: nat): State
    requires 0 < n <= NUM_TASKS
  {
    State(seq(n, _ => NEW_TASK), 0, 0, 0, PollStep(0), 0, map[], 0, [], false)
  }

  datatype Action =
    | Tick(cycles: nat)
    | Yield
    | Sleep(delta: nat)
    | WaitFor(w: Wait)
    | Recv(dport: nat, saddr: nat, sport: nat, buff: seq<byte>, timeout: nat)
    | Dispatch(d: Arrived)
    | IdlePoll(answer: bool)
    | IdleScan

  const IDLE: nat := 0 // the idle task is the first

  // ---- delivery ----

  /** What task_dispatch_udp writes for a receiver. */
  function Fill(f: Frame, len: nat, d: Arrived): Frame {
    var n := Min(|d.payload|, len);
    Frame(n, d.saddr, d.sport, d.payload[..n] + (if n <= |f.buff| then f.buff[n..] else []), Some(d))
  }

  function Deliver(s: State, d: Arrived, t: nat): State
    requires t < |s.tasks|
  {
    var p := s.tasks[t].packet;
    var s1 := s.(tasks := s.tasks[t := s.tasks[t].(packet := p.(isWaiting := false))]);
    if p.frame in s.frames then s1.(frames := s.frames[p.frame := Fill(s.frames[p.frame], p.len, d)])
    else s1.(fault := true)
  }

  // ---- switching ----

  /** The running task goes to sleep at point p; idle_entry goes on. */
  function Leave(s: State, t: Task, p: Point): State
    requires s.current < |s.tasks|
  {
    s.(tasks := s.tasks[s.current := t.(at := p)], current := IDLE)
  }

  /** A call of recv_udp returns, and its variables are gone. */
  function EndRecv(s: State, t: nat, f: nat): State
    requires t < |s.tasks|
  {
    if f in s.frames then
      s.(frames := s.frames - {f}, log := s.log + [Return(s.tasks[t].packet, s.frames[f], s.now)])
    else s.(fault := true)
  }

  function WakeUp(s: State, t: nat): State
    requires t < |s.tasks|
  {
    s.(tasks := s.tasks[t := s.tasks[t].(at := Active)], current := t)
  }

  /** switch_to(current, task) by idle, up to the next point where that task decides what to
      do: the rest of sched_yield, wait, recv_udp or task_dispatch_udp. */
  function SwitchTo(s: State, t: nat): State
    requires t < |s.tasks|
  {
    var s1 := WakeUp(s, t);
    match s.tasks[t].at
    case InWait(w) =>
      s1.(waiting := if s.waiting > 0 then s.waiting - 1 else 0,
          tasks := s1.tasks[t := s1.tasks[t].(wait := s1.tasks[t].wait - {w})])
    case InRecv(f) => EndRecv(s1, t, f)
    case InDispatch(d) =>
      (match FindUdp(s1.tasks, d, 0)
       case Some(u) => if u < |s1.tasks| then Deliver(s1, d, u) else s1
       case None => s1)
    case _ => s1
  }

  function PollWait(k: nat): Wait {
    if k == 0 then TtyRecv else if k == 1 then TtySend else if k == 2 then EthRecv else EthSend
  }

  function NextTask(s: State): nat {
    if s.rr + 1 == |s.tasks| then 0 else s.rr + 1
  }

  /** One step; an action that is not possible changes nothing. */
  function Apply(s: State, a: Action): State
    requires s.current < |s.tasks| && s.rr < |s.tasks|
  {
    if a.Tick? then s.(now := s.now + a.cycles)
    else if s.current != IDLE then TaskStep(s, s.tasks[s.current], a)
    else match (a, s.idle)
      case (IdlePoll(answer), PollStep(k)) => DoPoll(s, k, answer)
      case (IdleScan, ScanStep(i)) => DoScan(s, i)
      case _ => s
  }

  function TaskStep(s: State, t: Task, a: Action): State
    requires s.current < |s.tasks|
  {
    match a
    case Yield => Leave(s, t, Yielded)
    case Sleep(delta) => Leave(s, t.(timer := Timer(s.now, delta, false)), Yielded)
    case WaitFor(w) => Leave(s, t.(wait := t.wait + {w}), InWait(w)).(waiting := s.waiting + 1)
    case Recv(dport, saddr, sport, buff, timeout) =>
      Leave(s, t.(packet := WaitPacket(true, dport, saddr, sport, s.next, |buff|, s.now, timeout)), InRecv(s.next))
        .(frames := s.frames[s.next := Frame(0, 0, 0, buff, None)], next := s.next + 1)
    case Dispatch(d) =>
      (match FindUdp(s.tasks, d, 0)
       case Some(u) => if u < |s.tasks| then Deliver(s, d, u) else s
       case None => Leave(s, t, InDispatch(d)))
    case _ => s
  }

  /** One `if (poll) switch_to_task_waiting_for(...)` of idle_entry. */
  function DoPoll(s: State, k: nat, answer: bool): State {
    var s1 := s.(idle := if k < 3 then PollStep(k + 1) else ScanStep(0));
    if !answer then s1
    else match FindWaiting(s.tasks, PollWait(k), 0)
      case None => s1
      case Some(t) => if t < |s.tasks| then SwitchTo(s1, t) else s1
  }

  /** One round of the round-robin loop of idle_entry. */
  function DoScan(s: State, i: nat): State
    requires s.rr < |s.tasks|
  {
    if s.waiting >= |s.tasks| || i >= |s.tasks| then s.(idle := PollStep(0))
    else
      var t := s.rr;
      var s1 := s.(rr := NextTask(s), idle := ScanStep(i + 1));
      if t == IDLE then s1
      else
        var (ready, task) := Poll(s.tasks[t], s.now);
        var s2 := s1.(tasks := s.tasks[t := task]);
        if ready then SwitchTo(s2, t).(idle := PollStep(0)) else s2
  }
}
