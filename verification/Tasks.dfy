/** Tasks and their waits (task.h, timer.h, task.c): polling, matching and delivery. */
module Tasks {
  import opened Bytes

  const NUM_TASKS: nat := 10

  datatype Wait = TtyRecv | TtySend | EthRecv | EthSend | Exit

  /** timer_t; times are readings of the cycle counter. */
  datatype Timer = Timer(start: nat, delta: nat, timeout: bool)

  /** A UDP datagram on its way to a task. */
  datatype Arrived = Arrived(dport: nat, saddr: nat, sport: nat, payload: seq<byte>)

  /** wait_packet_t. The four pointers into the waiting call of recv_udp are one frame number;
      0 stands for the wildcard port, and for the unspecified address. */
  datatype WaitPacket = WaitPacket(isWaiting: bool, dport: nat, expectedSaddr: nat, expectedSport: nat,
                                   frame: nat, len: nat, start: nat, delta: nat)

  /** Where a suspended task will go on; Active is the running task. */
  datatype Point =
    | Active
    | Yielded
    | InWait(w: Wait)
    | InRecv(frame: nat)
    | InDispatch(d: Arrived)

  datatype Task = Task(wait: set<Wait>, timer: Timer, packet: WaitPacket, at: Point)

  const NO_PACKET := WaitPacket(false, 0, 0, 0, 0, 0, 0, 0)

  /** create_task */
  const NEW_TASK := Task({}, Timer(0, 0, true), NO_PACKET, Yielded)

  // ---- polling ----

  predicate Expired(start: nat, delta: nat, now: nat) {
    now - start >= delta
  }

  /** poll_timer: the answer, and the timer after asking. */
  function PollTimer(t: Timer, now: nat): (bool, Timer) {
    if t.timeout then (true, t)
    else if Expired(t.start, t.delta, now) then (true, t.(timeout := true))
    else (false, t)
  }

  /** task_poll_udp */
  function PollUdp(p: WaitPacket, now: nat): (bool, WaitPacket) {
    if !p.isWaiting then (true, p)
    else if Expired(p.start, p.delta, now) then (true, p.(isWaiting := false))
    else (false, p)
  }

  /** The test of the round-robin loop, with its short cuts, and the task after it. */
  function Poll(t: Task, now: nat): (bool, Task) {
    if t.wait != {} then (false, t)
    else
      var (timer, t1) := PollTimer(t.timer, now);
      if !timer then (false, t.(timer := t1))
      else
        var (udp, p1) := PollUdp(t.packet, now);
        (udp, t.(timer := t1, packet := p1))
  }

  /** The round-robin loop would take the task. */
  predicate Ready(t: Task, now: nat) {
    && t.wait == {} && !t.at.Active?
    && (t.timer.timeout || Expired(t.timer.start, t.timer.delta, now))
    && (!t.packet.isWaiting || Expired(t.packet.start, t.packet.delta, now))
  }

  // ---- searching ----

  /** The first task from i on that satisfies a wait. */
  function FindWaiting(tasks: seq<Task>, w: Wait, i: nat): Option<nat>
    decreases |tasks| - i
  {
    if i >= |tasks| then None else if w in tasks[i].wait then Some(i) else FindWaiting(tasks, w, i + 1)
  }

  /** task_match_udp */
  predicate Matches(p: WaitPacket, d: Arrived) {
    && (p.dport == 0 || p.dport == d.dport)
    && (p.expectedSaddr == 0 || p.expectedSaddr == d.saddr)
    && (p.expectedSport == 0 || p.expectedSport == d.sport)
  }

  predicate Accepts(t: Task, d: Arrived) {
    t.packet.isWaiting && Matches(t.packet, d)
  }

  /** task_find_udp from task i on. */
  function FindUdp(tasks: seq<Task>, d: Arrived, i: nat): Option<nat>
    decreases |tasks| - i
  {
    if i >= |tasks| then None else if Accepts(tasks[i], d) then Some(i) else FindUdp(tasks, d, i + 1)
  }

  /** Tasks are found in the order of their creation. */
  lemma {:induction false} FindWaitingFirst(tasks: seq<Task>, w: Wait, i: nat)
    ensures match FindWaiting(tasks, w, i)
            case None => forall j :: i <= j < |tasks| ==> w !in tasks[j].wait
            case Some(t) => i <= t < |tasks| && w in tasks[t].wait && forall j :: i <= j < t ==> w !in tasks[j].wait
    decreases |tasks| - i
  {
    if i < |tasks| && w !in tasks[i].wait {
      FindWaitingFirst(tasks, w, i + 1);
    }
  }

  lemma {:induction false} FindUdpFirst(tasks: seq<Task>, d: Arrived, i: nat)
    ensures match FindUdp(tasks, d, i)
            case None => forall j :: i <= j < |tasks| ==> !Accepts(tasks[j], d)
            case Some(t) => i <= t < |tasks| && Accepts(tasks[t], d) && forall j :: i <= j < t ==> !Accepts(tasks[j], d)
    decreases |tasks| - i
  {
    if i < |tasks| && !Accepts(tasks[i], d) {
      FindUdpFirst(tasks, d, i + 1);
    }
  }

  // ---- num_waiting_task ----

  /** How many of the first n tasks have a wait. */
  function CountWaiting(tasks: seq<Task>, n: nat): (c: nat)
    requires n <= |tasks|
    ensures c <= n
  {
    if n == 0 then 0 else CountWaiting(tasks, n - 1) + if tasks[n - 1].wait != {} then 1 else 0
  }

  lemma {:induction false} CountChange(tasks: seq<Task>, i: nat, t: Task, n: nat)
    requires i < |tasks| && n <= |tasks|
    ensures CountWaiting(tasks[i := t], n) + (if i < n && tasks[i].wait != {} then 1 else 0)
            == CountWaiting(tasks, n) + if i < n && t.wait != {} then 1 else 0
  {
    if n > 0 {
      CountChange(tasks, i, t, n - 1);
    }
  }

  lemma {:induction false} CountBelow(tasks: seq<Task>, i: nat, n: nat)
    requires i < n <= |tasks| && tasks[i].wait == {}
    ensures CountWaiting(tasks, n) < n
  {
    if i < n - 1 {
      CountBelow(tasks, i, n - 1);
    }
  }
}
