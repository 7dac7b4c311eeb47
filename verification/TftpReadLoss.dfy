/** tftp_get_file over a network that also loses packets for good: what is lost is sent again. */
module TftpReadLoss {
  import opened TftpBlocks
  import opened Tftp
  import opened TftpRead
  import opened TftpReadNet
  import opened TftpReadProgress

  /** A packet that is lost is never delivered again, unless it is sent again. */
  datatype Step = Do(a: Action) | Lose(p: Packet)

  function ApplyStep(x: Setup, w: World, s: Step): World {
    match s
    case Do(a) => Apply(x, w, a)
    case Lose(p) => w.(net := w.net - {p})
  }

  function LossyRun(x: Setup, steps: seq<Step>): World {
    if steps == [] then Start(x) else ApplyStep(x, LossyRun(x, steps[..|steps| - 1]), steps[|steps| - 1])
  }

  /** What follows from w without further loss. */
  function RunFrom(x: Setup, w: World, acts: seq<Action>): World
    decreases |acts|
  {
    if acts == [] then w else RunFrom(x, Apply(x, w, acts[0]), acts[1..])
  }

  lemma {:induction false} RunFromMore(x: Setup, w: World, a: seq<Action>, b: seq<Action>)
    ensures RunFrom(x, w, a + b) == RunFrom(x, RunFrom(x, w, a), b)
    decreases |a|
  {
    hide Apply;
    if a == [] {
      assert a + b == b;
    } else {
      assert (a + b)[1..] == a[1..] + b;
      RunFromMore(x, Apply(x, w, a[0]), a[1..], b);
    }
  }

  // ---- the invariants do not need the packets ----

  lemma LossIsSafe(x: Setup, w: World, net: set<Packet>)
    requires Safe(x, w) && net <= w.net
    ensures Safe(x, w.(net := net))
  {
    hide InStep, FromServer, FromClient, NumBlocks;
  }

  /** An untroubled transfer has a session that goes on with it. */
  ghost predicate Going(x: Setup, w: World) {
    !w.trouble ==>
      match w.c
      case Opening => forall t :: t in w.sessions ==> w.sessions[t].open
      case Transfer(server, window, _) => window > 0 && server in w.sessions && w.sessions[server].open
      case Done(_, _) => true
  }

  lemma DeliverGoes(x: Setup, w: World, p: Packet)
    requires Proper(x) && Safe(x, w) && Going(x, w)
    ensures Going(x, Apply(x, w, Deliver(p)))
  {
    hide Data, Block, Prefix, NumBlocks, FromClient, OnEvent, Sends, Ack;
    var w' := Apply(x, w, Deliver(p));
    if !w'.trouble && w' != w && !w.c.Done? {
      var b := Seq(p.d);
      BlockSize(x.file, b - 1);
      DataIsRead(b, Block(x.file, b - 1));
      DataIsTaken(x, w, p.port, b);
    }
  }

  lemma AcknowledgeGoes(x: Setup, w: World, p: Packet)
    requires Proper(x) && Safe(x, w) && Going(x, w)
    ensures Going(x, Apply(x, w, Acknowledge(p)))
  {
    hide Data, Block, Prefix, FromClient, FromServer, CheckResp, Ack, DataPacket;
    var w' := Apply(x, w, Acknowledge(p));
    if w' != w {
      AckIsExpected(x, w, p);
      BlockSize(x.file, w.sessions[p.port].cur - 1);
    }
  }

  lemma StepGoes(x: Setup, w: World, a: Action)
    requires Proper(x) && Safe(x, w) && Going(x, w)
    ensures Going(x, Apply(x, w, a))
  {
    if a.Deliver? {
      DeliverGoes(x, w, a.p);
    } else if a.Acknowledge? {
      AcknowledgeGoes(x, w, a.p);
    } else {
      hide Data, Ack, Block, Safe, DataPacket, ParseReq;
    }
  }

  lemma {:induction false} LossyRunGoes(x: Setup, steps: seq<Step>)
    requires Proper(x)
    ensures Safe(x, LossyRun(x, steps)) && Going(x, LossyRun(x, steps))
    decreases |steps|
  {
    hide Safe, Apply;
    if steps == [] {
      RunIsSafe(x, []);
    } else {
      var w, s := LossyRun(x, steps[..|steps| - 1]), steps[|steps| - 1];
      LossyRunGoes(x, steps[..|steps| - 1]);
      match s
      case Do(a) =>
        StepIsSafe(x, w, a);
        StepGoes(x, w, a);
      case Lose(p) =>
        LossIsSafe(x, w, w.net - {p});
    }
  }

  lemma {:induction false} RunFromGoes(x: Setup, w: World, acts: seq<Action>)
    requires Proper(x) && Safe(x, w) && Going(x, w)
    ensures Safe(x, RunFrom(x, w, acts)) && Going(x, RunFrom(x, w, acts))
    decreases |acts|
  {
    hide Safe, Going, Apply;
    if acts != [] {
      StepIsSafe(x, w, acts[0]);
      StepGoes(x, w, acts[0]);
      RunFromGoes(x, Apply(x, w, acts[0]), acts[1..]);
    }
  }

  // ---- progress from an empty network ----

  /** A session sends the block the client waits for. */
  ghost predicate SendsWanted(x: Setup, w: World, c: Reader, t: nat) {
    w.c == c && !w.trouble && t in w.sessions && w.sessions[t] == Session(Wanted(c), true)
    && (c.Transfer? ==> t == c.server)
  }

  lemma One(x: Setup, w: World, a: Action)
    ensures RunFrom(x, w, [a]) == Apply(x, w, a)
  {
    hide Apply;
    assert [a][1..] == [];
    assert RunFrom(x, Apply(x, w, a), []) == Apply(x, w, a);
  }

  lemma Two(x: Setup, w: World, a: Action, b: Action)
    ensures RunFrom(x, w, [a, b]) == Apply(x, Apply(x, w, a), b)
  {
    hide Apply;
    assert [a, b][1..] == [b];
    One(x, Apply(x, w, a), b);
  }

  lemma Three(x: Setup, w: World, a: Action, b: Action, c: Action)
    ensures RunFrom(x, w, [a, b, c]) == Apply(x, Apply(x, Apply(x, w, a), b), c)
  {
    hide Apply;
    assert [a, b, c][1..] == [b, c];
    Two(x, Apply(x, w, a), b, c);
  }

  /** A request that was lost is sent again when its time is over, and opens a session. */
  lemma AskAgain(x: Setup, w: World)
    requires Proper(x) && Safe(x, w) && Going(x, w) && !w.trouble && w.c.Opening? && w.sessions == map[]
    ensures var w' := RunFrom(x, w, [Timeout, Request(ToServer(SERVER_PORT, x.req), 1)]);
            SendsWanted(x, w', w.c, 1)
  {
    hide Data, Block, Prefix, FromClient, FromServer, CheckResp, DataPacket, ParseReq, RunFrom;
    Two(x, w, Timeout, Request(ToServer(SERVER_PORT, x.req), 1));
    var w1 := Apply(x, w, Timeout);
    assert (SERVER_PORT, x.req) in Sends(w.c, Silence, x.req);
    assert ToServer(SERVER_PORT, x.req) in w1.net;
  }

  /** A block whose acknowledgement was lost is sent again, acknowledged again, and the next one
      follows. */
  lemma AckAgain(x: Setup, w: World)
    requires Proper(x) && Safe(x, w) && Going(x, w) && !w.trouble && w.c.Transfer?
    requires w.sessions[w.c.server].cur + 1 == w.c.window
    ensures w.c.window > 1
    ensures var t, b := w.c.server, w.c.window - 1;
            var w' := RunFrom(x, w, [Retransmit(t), Deliver(DataPacket(x, t, b)), Acknowledge(ToServer(t, Ack(b)))]);
            SendsWanted(x, w', w.c, t)
  {
    hide Data, Block, Prefix, FromClient, FromServer, OnEvent, Sends, CheckResp, RunFrom, Ack;
    var t, b := w.c.server, w.c.window - 1;
    Three(x, w, Retransmit(t), Deliver(DataPacket(x, t, b)), Acknowledge(ToServer(t, Ack(b))));
    var w1 := Apply(x, w, Retransmit(t));
    RetransmitIsSafe(x, w, t);
    BlockSize(x.file, b - 1);
    DataIsRead(b, Block(x.file, b - 1));
    DataIsTaken(x, w1, t, b);
    var w2 := Apply(x, w1, Deliver(DataPacket(x, t, b)));
    AckIsSent(x, w1, t, b, w2);
    AckIsRead(b);
  }

  lemma AckIsSent(x: Setup, w: World, t: nat, b: nat, w2: World)
    requires w2.net == w.net + Posted([(t, Ack(b))])
    ensures ToServer(t, Ack(b)) in w2.net
  {
    hide Ack;
    assert (t, Ack(b)) in [(t, Ack(b))];
  }

  lemma Ready(x: Setup, w: World) returns (acts: seq<Action>, t: nat)
    requires Proper(x) && Safe(x, w) && Going(x, w) && !w.trouble && !w.c.Done?
    ensures SendsWanted(x, RunFrom(x, w, acts), w.c, t)
  {
    hide Data, Block, Prefix, FromClient, FromServer, CheckResp, DataPacket, ParseReq, Apply;
    acts := [];
    match w.c
    case Opening =>
      if w.sessions == map[] {
        acts, t := [Timeout, Request(ToServer(SERVER_PORT, x.req), 1)], 1;
        AskAgain(x, w);
      } else {
        t :| t in w.sessions;
      }
    case Transfer(server, window, _) =>
      t := server;
      if w.sessions[t].cur + 1 == window {
        AckAgain(x, w);
        acts := [Retransmit(t), Deliver(DataPacket(x, t, window - 1)), Acknowledge(ToServer(t, Ack(window - 1)))];
      }
  }

  /** The transfer completes from every untroubled state, whichever packets are left. */
  lemma {:induction false} FinishFrom(x: Setup, w: World) returns (more: seq<Action>)
    requires Proper(x) && Safe(x, w) && Going(x, w) && !w.trouble
    ensures RunFrom(x, w, more).c == Done(0, x.file)
    decreases if w.c.Done? then 0 else WRAP - Wanted(w.c)
  {
    hide Apply, Safe, Going;
    if w.c.Done? {
      more := [];
      DoneIsWhole(x, w);
    } else {
      var acts, t := Ready(x, w);
      var w1 := RunFrom(x, w, acts);
      RunFromGoes(x, w, acts);
      var b := Wanted(w.c);
      SendsIt(x, w1, w.c, t);
      BlockArrives(x, w1, t, b);
      var two := [Retransmit(t), Deliver(DataPacket(x, t, b))];
      Two(x, w1, two[0], two[1]);
      RunFromGoes(x, w1, two);
      var w2 := RunFrom(x, w1, two);
      Bounded(x, w1);
      var rest := FinishFrom(x, w2);
      RunFromMore(x, w1, two, rest);
      RunFromMore(x, w, acts, two + rest);
      more := acts + (two + rest);
    }
  }

  lemma DoneIsWhole(x: Setup, w: World)
    requires Safe(x, w) && !w.trouble && w.c.Done?
    ensures w.c == Done(0, x.file)
  {
    hide FromServer, FromClient, NumBlocks;
  }

  lemma SendsIt(x: Setup, w: World, c: Reader, t: nat)
    requires SendsWanted(x, w, c, t) && Safe(x, w) && !c.Done?
    ensures t in w.sessions && w.sessions[t].open && w.sessions[t].cur == Wanted(c) > 0
  {
    hide FromServer, FromClient, NumBlocks, InStep;
  }

  /** Whatever was lost so far, and if every packet still under way is lost too: as long as the server
      has not given up and the client not timed out in mid-transfer, timeouts, packets sent again and
      their deliveries complete the file. */
  lemma CanFinishAfterLoss(x: Setup, steps: seq<Step>) returns (more: seq<Action>)
    requires Proper(x) && !LossyRun(x, steps).trouble
    ensures RunFrom(x, LossyRun(x, steps).(net := {}), more).c == Done(0, x.file)
  {
    hide Safe, LossyRun;
    var w := LossyRun(x, steps);
    LossyRunGoes(x, steps);
    LossIsSafe(x, w, {});
    more := FinishFrom(x, w.(net := {}));
  }

  /** Loss changes nothing about what is received: a prefix of the file always, and with 0 the whole. */
  lemma LossyReadIsExact(x: Setup, steps: seq<Step>)
    requires Proper(x)
    ensures var w := LossyRun(x, steps);
            && DataOf(w.c) <= x.file
            && (w.c.Done? ==> if w.c.ret == 0 then w.c.data == x.file else w.trouble)
  {
    hide LossyRun;
    LossyRunGoes(x, steps);
    var w := LossyRun(x, steps);
    if w.c.Transfer? {
      PrefixIsPrefix(x.file, w.c.window - 1);
    }
  }
}
