/** tftp_put_file over a network that also loses packets for good: what is lost is sent again. */
module TftpWriteLoss {
  import opened TftpBlocks
  import opened Tftp
  import opened TftpWrite
  import opened TftpWriteNet
  import opened TftpWriteProgress

  /** A packet that is lost is never delivered again, unless it is sent again. */
  datatype Step = Do(a: Action) | Lose(p: Packet)

  function ApplyStep(x: Setup, w: World, s: Step): (w': World)
    requires WellFormed(w.c)
    ensures WellFormed(w'.c)
  {
    match s
    case Do(a) => Apply(x, w, a)
    case Lose(p) => w.(net := w.net - {p})
  }

  function LossyRun(x: Setup, steps: seq<Step>): (w: World)
    ensures WellFormed(w.c)
  {
    if steps == [] then Start(x) else ApplyStep(x, LossyRun(x, steps[..|steps| - 1]), steps[|steps| - 1])
  }

  /** What follows from w without further loss. */
  function RunFrom(x: Setup, w: World, acts: seq<Action>): (w': World)
    requires WellFormed(w.c)
    ensures WellFormed(w'.c)
    decreases |acts|
  {
    if acts == [] then w else RunFrom(x, Apply(x, w, acts[0]), acts[1..])
  }

  lemma {:induction false} RunFromMore(x: Setup, w: World, a: seq<Action>, b: seq<Action>)
    requires WellFormed(w.c)
    ensures RunFrom(x, w, a + b) == RunFrom(x, RunFrom(x, w, a), b)
    decreases |a|
  {
    hide Apply;
    if a == [] {
      assert a + b == b;
    } else {
      assert (a + b)[1..] == a[1..] + b;
      RunFromMore(x, Apply(x, w, a[0]), a[1..], b);
    }
  }

  // ---- the invariants do not need the packets ----

  lemma LossIsSafe(x: Setup, w: World, net: set<Packet>)
    requires Safe(x, w) && net <= w.net
    ensures Safe(x, w.(net := net))
  {
    hide InStep, FromServer, FromClient, FirstBlocks;
  }

  ghost predicate Going(w: World) {
    !w.trouble ==> forall t :: t in w.sessions ==> w.sessions[t].open
  }

  lemma StepGoes(x: Setup, w: World, a: Action)
    requires WellFormed(w.c) && Going(w)
    ensures Going(Apply(x, w, a))
  {
    hide Data, Ack, Block, ParseReq, CheckResp, Clip;
  }

  lemma {:induction false} LossyRunGoes(x: Setup, steps: seq<Step>)
    requires Proper(x)
    ensures Safe(x, LossyRun(x, steps)) && Going(LossyRun(x, steps))
    decreases |steps|
  {
    hide Safe, Apply;
    if steps == [] {
      RunIsSafe(x, []);
    } else {
      var w, s := LossyRun(x, steps[..|steps| - 1]), steps[|steps| - 1];
      LossyRunGoes(x, steps[..|steps| - 1]);
      match s
      case Do(a) =>
        StepIsSafe(x, w, a);
        StepGoes(x, w, a);
      case Lose(p) =>
        LossIsSafe(x, w, w.net - {p});
    }
  }

  lemma {:induction false} RunFromGoes(x: Setup, w: World, acts: seq<Action>)
    requires Proper(x) && Safe(x, w) && Going(w) && WellFormed(w.c)
    ensures Safe(x, RunFrom(x, w, acts)) && Going(RunFrom(x, w, acts))
    decreases |acts|
  {
    hide Safe, Going, Apply;
    if acts != [] {
      StepIsSafe(x, w, acts[0]);
      StepGoes(x, w, acts[0]);
      RunFromGoes(x, Apply(x, w, acts[0]), acts[1..]);
    }
  }

  // ---- progress from an empty network ----

  /** A session the client listens to has stored the wanted blocks. */
  ghost predicate HasWanted(w: World, c: Writer, t: nat) {
    w.c == c && !w.trouble && t in w.sessions && w.sessions[t].open && |w.sessions[t].stored| == Wanted(c)
    && Listens(c, t)
  }

  lemma Two(x: Setup, w: World, a: Action, b: Action)
    requires WellFormed(w.c)
    ensures RunFrom(x, w, [a, b]) == Apply(x, Apply(x, w, a), b)
  {
    hide Apply;
    assert [a, b][1..] == [b] && [b][1..] == [];
    assert RunFrom(x, Apply(x, w, a), [b]) == RunFrom(x, Apply(x, Apply(x, w, a), b), []);
  }

  /** A request that was lost is sent again when its time is over, and opens a session. */
  lemma AskAgain(x: Setup, w: World)
    requires Proper(x) && Safe(x, w) && !w.trouble && w.c.Opening? && w.sessions == map[]
    ensures var w' := RunFrom(x, w, [Timeout, Request(ToServer(SERVER_PORT, x.req), 1)]);
            HasWanted(w', w.c, 1)
  {
    hide Block, Prefix, FromClient, FromServer, CheckResp, ParseReq, RunFrom, Header;
    Two(x, w, Timeout, Request(ToServer(SERVER_PORT, x.req), 1));
    var w1 := Apply(x, w, Timeout);
    assert (SERVER_PORT, x.req) in Sends(x.file, w.c, Silence, x.req);
    assert ToServer(SERVER_PORT, x.req) in w1.net;
  }

  /** A packet that was lost, or whose acknowledgement was, is sent again, and is stored by now. */
  lemma SendAgain(x: Setup, w: World)
    requires Proper(x) && Safe(x, w) && Going(w) && !w.trouble && w.c.Sending? && WellFormed(w.c)
    ensures var d := Data(w.c.window, Current(x.file, w.c));
            var w' := RunFrom(x, w, [Timeout, Store(ToServer(w.c.server, d))]);
            HasWanted(w', w.c, w.c.server)
  {
    hide Block, Prefix, FromServer, ParseReq, CheckResp, NumBlocks, Header, RunFrom;
    var server := w.c.server;
    var d := Data(w.c.window, Current(x.file, w.c));
    Two(x, w, Timeout, Store(ToServer(server, d)));
    var w1 := Apply(x, w, Timeout);
    assert w1.c == w.c;
    assert (server, d) in Sends(x.file, w.c, Silence, x.req);
    assert ToServer(server, d) in w1.net;
    CurrentIsSafe(x, w);
    DataIsRead(w.c.calls, Current(x.file, w.c));
    NotComplete(x, w.sessions[server].stored, w.c.calls);
  }

  lemma Ready(x: Setup, w: World) returns (acts: seq<Action>, t: nat)
    requires Proper(x) && Safe(x, w) && Going(w) && !w.trouble && !w.c.Done? && WellFormed(w.c)
    ensures HasWanted(RunFrom(x, w, acts), w.c, t)
  {
    hide Block, FromClient, FromServer, FirstBlocks, Counts, Apply, Data;
    acts := [];
    if w.c.Sending? {
      t := w.c.server;
      acts := [Timeout, Store(ToServer(t, Data(w.c.window, Current(x.file, w.c))))];
      SendAgain(x, w);
    } else if w.sessions == map[] {
      acts, t := [Timeout, Request(ToServer(SERVER_PORT, x.req), 1)], 1;
      AskAgain(x, w);
    } else {
      t :| t in w.sessions;
    }
  }

  ghost predicate Stored(x: Setup, w: World) {
    && w.c.Done? && w.c.ret == 0 && w.c.server in w.sessions
    && Join(w.sessions[w.c.server].stored) == x.file
  }

  /** The transfer completes from every untroubled state, whichever packets are left. */
  lemma {:induction false} FinishFrom(x: Setup, w: World) returns (more: seq<Action>)
    requires Proper(x) && Safe(x, w) && Going(w) && WellFormed(w.c) && !w.trouble
    ensures Stored(x, RunFrom(x, w, more))
    decreases if w.c.Done? then 0 else WRAP - Wanted(w.c)
  {
    hide Apply, Safe, Going, Stored;
    if w.c.Done? {
      more := [];
      DoneIsWhole(x, w);
    } else {
      var acts, t := Ready(x, w);
      var w1 := RunFrom(x, w, acts);
      RunFromGoes(x, w, acts);
      var n := Wanted(w.c);
      AckArrives(x, w1, t);
      var two := [Acknowledge(t), Deliver(AckPacket(t, n))];
      Two(x, w1, two[0], two[1]);
      RunFromGoes(x, w1, two);
      var w2 := RunFrom(x, w1, two);
      Bounded(x, w1);
      var rest := FinishFrom(x, w2);
      RunFromMore(x, w1, two, rest);
      RunFromMore(x, w, acts, two + rest);
      more := acts + (two + rest);
    }
  }

  lemma DoneIsWhole(x: Setup, w: World)
    requires Proper(x) && Safe(x, w) && !w.trouble && w.c.Done?
    ensures Stored(x, w)
  {
    hide FromServer, FromClient, NumBlocks, FirstBlocks, Counts, Stored;
    WholeWhenZero(x, w);
  }

  /** Whatever was lost so far, and if every packet still under way is lost too: as long as the server
      has not given up, timeouts, packets sent again and their deliveries store the whole file. */
  lemma CanFinishAfterLoss(x: Setup, steps: seq<Step>) returns (more: seq<Action>)
    requires Proper(x) && !LossyRun(x, steps).trouble
    ensures Stored(x, RunFrom(x, LossyRun(x, steps).(net := {}), more))
  {
    hide Safe, LossyRun, Stored;
    var w := LossyRun(x, steps);
    LossyRunGoes(x, steps);
    LossIsSafe(x, w, {});
    more := FinishFrom(x, w.(net := {}));
  }

  /** Loss changes nothing about what a return value of 0 means. */
  lemma LossyWriteIsExact(x: Setup, steps: seq<Step>)
    requires Proper(x)
    ensures var w := LossyRun(x, steps);
            && (w.c.Done? && w.c.ret != 0 ==> w.trouble)
            && (w.c.Done? && w.c.ret == 0 ==> Stored(x, w))
  {
    hide LossyRun, Stored;
    LossyRunGoes(x, steps);
    var w := LossyRun(x, steps);
    if w.c.Done? && w.c.ret == 0 {
      WholeWhenZero(x, w);
    }
  }

  lemma WholeWhenZero(x: Setup, w: World)
    requires Proper(x) && Safe(x, w) && w.c.Done? && w.c.ret == 0
    ensures Stored(x, w)
  {
    hide FromServer, FromClient, NumBlocks, Block;
    var stored := w.sessions[w.c.server].stored;
    SomeBlock(x.file);
    JoinBlocks(x, stored);
    PrefixAll(x.file, |stored|);
  }
}
