/** The fairness of the round-robin loop in idle_entry. */
module RoundRobin {
  import opened Bytes
  import opened Tasks
  import opened Scheduler
  import opened SchedulerSafety

  /** The round-robin loop hands the processor to task u. */
  predicate Dispatched(s: State, a: Action, u: nat)
    requires s.current < |s.tasks| && s.rr < |s.tasks|
  {
    a.IdleScan? && s.current == IDLE && s.idle.ScanStep? && Apply(s, a).current == u && u != IDLE
  }

  /** How often that happens in a run. */
  ghost function Dispatches(s: State, acts: seq<Action>, u: nat): nat
    requires Inv(s)
  {
    if acts == [] then 0
    else
      var before := acts[..|acts| - 1];
      Dispatches(s, before, u) + if Dispatched(Run(s, before), acts[|acts| - 1], u) then 1 else 0
  }

  /** From position rr the loop looks at u before it looks at r. */
  predicate Before(rr: nat, u: nat, r: nat) {
    if rr <= r then rr <= u < r else rr <= u || u < r
  }

  /** At most, a waiting packet has come. */
  predicate Keeps(t: Task, t': Task) {
    t' == t || t' == t.(packet := t.packet.(isWaiting := false))
  }

  lemma KeepsReady(t: Task, t': Task, now: nat, now': nat)
    requires Ready(t, now) && Keeps(t, t') && now <= now'
    ensures Ready(t', now')
  {}

  lemma SwitchToKeeps(s: State, t: nat, r: nat)
    requires t < |s.tasks| && r < |s.tasks| && r != t
    ensures var s' := SwitchTo(s, t);
            && |s'.tasks| == |s.tasks| && s'.current == t && s'.rr == s.rr && s'.now == s.now
              && Keeps(s.tasks[r], s'.tasks[r])
  {
    hide FindUdp, Fill;
  }

  lemma TaskStepKeeps(s: State, a: Action, r: nat)
    requires s.current < |s.tasks| && r < |s.tasks| && r != s.current
    ensures var s' := TaskStep(s, s.tasks[s.current], a);
            && |s'.tasks| == |s.tasks| && (s'.current == s.current || s'.current == IDLE)
            && s'.rr == s.rr && s'.now == s.now && Keeps(s.tasks[r], s'.tasks[r])
  {
    hide FindUdp, Fill;
  }

  lemma PollKeeps(s: State, k: nat, answer: bool, r: nat)
    requires s.current == IDLE && r < |s.tasks| && s.tasks[r].wait == {} && r != IDLE
    ensures var s' := DoPoll(s, k, answer);
            && |s'.tasks| == |s.tasks| && s'.current != r && s'.rr == s.rr && s'.now == s.now
              && Keeps(s.tasks[r], s'.tasks[r])
  {
    hide SwitchTo;
    FindWaitingFirst(s.tasks, PollWait(k), 0);
    match FindWaiting(s.tasks, PollWait(k), 0)
    case None =>
    case Some(t) => SwitchToKeeps(s.(idle := if k < 3 then PollStep(k + 1) else ScanStep(0)), t, r);
  }

  /** The loop looks at task rr: if it is ready it gets the processor; nobody else does. */
  lemma ScanKeeps(s: State, i: nat, r: nat)
    requires s.current == IDLE && s.rr < |s.tasks| && r < |s.tasks| && r != IDLE
    requires Ready(s.tasks[r], s.now) && s.waiting < |s.tasks| && i < |s.tasks|
    ensures var s' := DoScan(s, i);
            && |s'.tasks| == |s.tasks| && s'.rr == NextTask(s) && s'.now == s.now
            && (s'.current == IDLE || s'.current == s.rr)
            && if r == s.rr then s'.current == r else Keeps(s.tasks[r], s'.tasks[r])
  {
    hide SwitchTo;
    var t := s.rr;
    if t != IDLE {
      var (ready, task) := Poll(s.tasks[t], s.now);
      var s2 := s.(rr := NextTask(s), idle := ScanStep(i + 1), tasks := s.tasks[t := task]);
      if r != t {
        SwitchToKeeps(s2, t, r);
      } else {
        assert ready;
        SwitchToKeeps(s2, t, IDLE);
      }
    }
  }

  lemma RunningIsNotReady(s: State, r: nat)
    requires Inv(s) && 0 < r < |s.tasks| && Ready(s.tasks[r], s.now)
    ensures r != s.current
  {
    assert TaskOk(s.tasks[r], r, s.current, s.frames, s.now);
  }

  lemma LoopRuns(s: State)
    requires Inv(s) && s.current == IDLE
    ensures s.waiting < |s.tasks|
  {
    assert TaskOk(s.tasks[IDLE], IDLE, s.current, s.frames, s.now);
    CountBelow(s.tasks, IDLE, |s.tasks|);
  }

  /** The loop looks at a task. */
  predicate Looks(s: State, a: Action) {
    a.IdleScan? && s.current == IDLE && s.idle.ScanStep? && s.idle.i < |s.tasks|
  }

  /** One step as long as r, which is ready, does not get the processor: it stays ready, and
      the loop moves on only when it looks at some other task. */
  lemma ReadyStep(s: State, a: Action, r: nat)
    requires Inv(s) && 0 < r < |s.tasks| && Ready(s.tasks[r], s.now) && !Dispatched(s, a, r)
    ensures var s' := Apply(s, a);
            && |s'.tasks| == |s.tasks| && Ready(s'.tasks[r], s'.now) && s'.current != r
            && s'.rr == (if Looks(s, a) then NextTask(s) else s.rr)
            && (Looks(s, a) ==> s.rr != r)
            && forall u :: Dispatched(s, a, u) ==> Looks(s, a) && u == s.rr
  {
    hide Inv, Ready, TaskStep, DoPoll, DoScan, Keeps;
    RunningIsNotReady(s, r);
    InRange(s);
    var s' := Apply(s, a);
    if a.Tick? {
      SameTask(s.tasks[r]);
      KeepsReady(s.tasks[r], s.tasks[r], s.now, s'.now);
    } else if s.current != IDLE {
      TaskStepKeeps(s, a, r);
      KeepsReady(s.tasks[r], s'.tasks[r], s.now, s'.now);
    } else {
      match (a, s.idle)
      case (IdlePoll(answer), PollStep(k)) =>
        ReadyHasNoWait(s.tasks[r], s.now);
        PollKeeps(s, k, answer, r);
        KeepsReady(s.tasks[r], s'.tasks[r], s.now, s'.now);
      case (IdleScan, ScanStep(i)) =>
        LoopRuns(s);
        ScanReady(s, i, r);
      case _ =>
    }
  }

  lemma InRange(s: State)
    requires Inv(s)
    ensures 0 < |s.tasks| && s.current < |s.tasks| && s.rr < |s.tasks|
  {}

  lemma SameTask(t: Task)
    ensures Keeps(t, t)
  {}

  lemma ReadyHasNoWait(t: Task, now: nat)
    requires Ready(t, now)
    ensures t.wait == {}
  {}

  lemma ScanReady(s: State, i: nat, r: nat)
    requires s.current == IDLE && s.rr < |s.tasks| && 0 < r < |s.tasks|
    requires Ready(s.tasks[r], s.now) && s.waiting < |s.tasks| && DoScan(s, i).current != r
    ensures var s' := DoScan(s, i);
            && |s'.tasks| == |s.tasks| && Ready(s'.tasks[r], s'.now)
            && s'.rr == (if i < |s.tasks| then NextTask(s) else s.rr)
            && (i < |s.tasks| ==> s.rr != r)
            && (s'.current == IDLE || (s'.current == s.rr && i < |s.tasks|))
  {
    hide Ready;
    if i < |s.tasks| {
      hide DoScan;
      ScanKeeps(s, i, r);
      var s' := DoScan(s, i);
      KeepsReady(s.tasks[r], s'.tasks[r], s.now, s'.now);
    }
  }

  /** How many tasks the loop looks at before r. */
  function Distance(rr: nat, r: nat, n: nat): (d: nat)
    requires rr < n && r < n
    ensures d < n
  {
    if rr <= r then r - rr else r + n - rr
  }

  function Chance(rr: nat, u: nat, r: nat): nat {
    if Before(rr, u, r) then 1 else 0
  }

  ghost function LookCount(s: State, acts: seq<Action>): nat
    requires Inv(s)
  {
    if acts == [] then 0
    else
      var before := acts[..|acts| - 1];
      LookCount(s, before) + if Looks(Run(s, before), acts[|acts| - 1]) then 1 else 0
  }

  /** Once a task is ready, the round-robin loop hands the processor to any other task at most
      once before it, and looks at fewer than num_task tasks, wherever it stands and whatever
      happens in between. */
  lemma {:induction false} RoundRobinBound(s: State, acts: seq<Action>, r: nat, u: nat)
    requires Inv(s) && 0 < r < |s.tasks| && u < |s.tasks| && u != r && Ready(s.tasks[r], s.now)
    requires Dispatches(s, acts, r) == 0
    ensures var s' := Run(s, acts);
            && |s'.tasks| == |s.tasks| && Ready(s'.tasks[r], s'.now) && s'.rr < |s.tasks|
            && Dispatches(s, acts, u) + Chance(s'.rr, u, r) <= Chance(s.rr, u, r) <= 1
            && LookCount(s, acts) + Distance(s'.rr, r, |s.tasks|) <= Distance(s.rr, r, |s.tasks|) < |s.tasks|
  {
    hide Inv, Ready, Apply, Looks, Dispatched;
    InRange(s);
    if acts != [] {
      var before, a := acts[..|acts| - 1], acts[|acts| - 1];
      var s1 := Run(s, before);
      RoundRobinBound(s, before, r, u);
      InRange(s1);
      ReadyStep(s1, a, r);
      InRange(Run(s, acts));
    }
  }
}
