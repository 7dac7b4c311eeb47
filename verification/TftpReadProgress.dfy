/** tftp_get_file never gets stuck: as long as the server has not given up and the client has not
    timed out, some deliveries complete the transfer. */
module TftpReadProgress {
  import opened TftpBlocks
  import opened Tftp
  import opened TftpRead
  import opened TftpReadNet

  /** What keeps an untroubled transfer going: the chosen session waits for an acknowledgement
      that the client has sent. */
  ghost predicate Live(x: Setup, w: World) {
    !w.trouble ==>
      match w.c
      case Opening => ToServer(SERVER_PORT, x.req) in w.net && forall t :: t in w.sessions ==> w.sessions[t].open
      case Transfer(server, window, _) =>
        window > 0 && server in w.sessions && w.sessions[server].open && ToServer(server, Ack(window - 1)) in w.net
      case Done(_, _) => true
  }

  lemma DeliverIsLive(x: Setup, w: World, p: Packet)
    requires Proper(x) && Safe(x, w) && Live(x, w)
    ensures Live(x, Apply(x, w, Deliver(p)))
  {
    hide Data, Block, Prefix, NumBlocks, FromClient, OnEvent, Sends, Ack;
    var w' := Apply(x, w, Deliver(p));
    if !w'.trouble && w' != w && !w.c.Done? {
      var b := Seq(p.d);
      BlockSize(x.file, b - 1);
      DataIsRead(b, Block(x.file, b - 1));
      DataIsTaken(x, w, p.port, b);
    }
  }

  lemma AcknowledgeIsLive(x: Setup, w: World, p: Packet)
    requires Proper(x) && Safe(x, w) && Live(x, w)
    ensures Live(x, Apply(x, w, Acknowledge(p)))
  {
    hide Data, Block, Prefix, FromClient, FromServer, CheckResp, Ack, DataPacket;
    var w' := Apply(x, w, Acknowledge(p));
    if w' != w {
      AckIsExpected(x, w, p);
      BlockSize(x.file, w.sessions[p.port].cur - 1);
    }
  }

  lemma StepIsLive(x: Setup, w: World, a: Action)
    requires Proper(x) && Safe(x, w) && Live(x, w)
    ensures Live(x, Apply(x, w, a))
  {
    if a.Deliver? {
      DeliverIsLive(x, w, a.p);
    } else if a.Acknowledge? {
      AcknowledgeIsLive(x, w, a.p);
    } else {
      hide Data, Ack, Block, Safe, DataPacket, ParseReq;
    }
  }

  lemma {:induction false} RunIsLive(x: Setup, acts: seq<Action>)
    requires Proper(x)
    ensures Safe(x, Run(x, acts)) && Live(x, Run(x, acts))
  {
    RunIsSafe(x, acts);
    if acts != [] {
      hide Safe, Live, Apply;
      var before := acts[..|acts| - 1];
      RunIsLive(x, before);
      StepIsLive(x, Run(x, before), acts[|acts| - 1]);
    }
  }

  lemma RunStep(x: Setup, acts: seq<Action>, a: Action)
    ensures Run(x, acts + [a]) == Apply(x, Run(x, acts), a)
  {
    assert (acts + [a])[..|acts|] == acts;
  }

  /** The next block, once it has been sent again, takes the client one step further. */
  lemma BlockArrives(x: Setup, w: World, t: nat, b: nat)
    requires Proper(x) && Safe(x, w) && !w.trouble && t in w.sessions && w.sessions[t].open && b == w.sessions[t].cur
    requires match w.c
             case Opening => true
             case Transfer(server, window, _) => t == server && b == window
             case Done(_, _) => false
    ensures b > 0
    ensures var w' := Apply(x, Apply(x, w, Retransmit(t)), Deliver(DataPacket(x, t, b)));
            !w'.trouble && if b == NumBlocks(x.file) then w'.c.Done? && w'.c.ret == 0
                           else w'.c.Transfer? && w'.c.window == b + 1
  {
    hide Data, Block, Prefix, FromClient, FromServer, OnEvent, Sends, CheckResp;
    var w1 := Apply(x, w, Retransmit(t));
    RetransmitIsSafe(x, w, t);
    BlockSize(x.file, b - 1);
    DataIsRead(b, Block(x.file, b - 1));
    DataIsTaken(x, w1, t, b);
  }

  /** The number of the block the client waits for. */
  function Wanted(c: Reader): nat {
    match c
    case Opening => 1
    case Transfer(_, window, _) => window
    case Done(_, _) => 0
  }

  /** At most one more step makes a session send the block the client waits for. */
  lemma SessionIsReady(x: Setup, w: World) returns (a: Action, t: nat)
    requires Proper(x) && Safe(x, w) && Live(x, w) && !w.trouble && !w.c.Done?
    ensures var w' := Apply(x, w, a);
            && w'.c == w.c && !w'.trouble && t in w'.sessions && w'.sessions[t] == Session(Wanted(w.c), true)
            && (w.c.Transfer? ==> t == w.c.server)
  {
    hide Data, Block, Prefix, FromClient, FromServer, CheckResp, DataPacket, ParseReq;
    match w.c
    case Opening =>
      if w.sessions == map[] {
        a, t := Request(ToServer(SERVER_PORT, x.req), 1), 1;
      } else {
        t :| t in w.sessions;
        a := Retransmit(t);
      }
    case Transfer(server, window, _) =>
      t := server;
      if w.sessions[t].cur == window {
        a := Retransmit(t);
      } else {
        a := Acknowledge(ToServer(server, Ack(window - 1)));
        AckIsRead(window - 1);
        BlockSize(x.file, window - 2);
      }
  }

  /** From any point of an untroubled run the transfer can still complete. */
  lemma {:induction false} CanFinish(x: Setup, acts: seq<Action>) returns (more: seq<Action>)
    requires Proper(x) && !Run(x, acts).trouble
    ensures Run(x, acts + more).c == Done(0, x.file)
    decreases if Run(x, acts).c.Done? then 0 else WRAP - Wanted(Run(x, acts).c)
  {
    hide Safe, Live, Apply, Run;
    var w := Run(x, acts);
    RunIsLive(x, acts);
    ReadIsExact(x, acts);
    if w.c.Done? {
      more := [];
      assert acts + more == acts;
    } else {
      var a, t := SessionIsReady(x, w);
      var b := Wanted(w.c);
      var acts1 := acts + [a];
      RunStep(x, acts, a);
      RunIsLive(x, acts1);
      var acts2 := acts1 + [Retransmit(t)];
      RunStep(x, acts1, Retransmit(t));
      BlockArrives(x, Run(x, acts1), t, b);
      var last := Deliver(DataPacket(x, t, b));
      var acts3 := acts2 + [last];
      RunStep(x, acts2, last);
      RunIsLive(x, acts3);
      Bounded(x, Run(x, acts1));
      var rest := CanFinish(x, acts3);
      more := [a, Retransmit(t), last] + rest;
      assert acts + more == acts3 + rest;
    }
  }

  lemma Bounded(x: Setup, w: World)
    requires Proper(x) && Safe(x, w)
    ensures Wanted(w.c) < WRAP && NumBlocks(x.file) < WRAP
  {}

  // ---- the buffer ----

  /** tftp_get_file stays inside a buffer of len bytes, whatever the network does, exactly when the
      server's file fits it. */
  lemma StaysInside(x: Setup, len: nat)
    requires Proper(x)
    ensures (forall acts: seq<Action> :: |DataOf(Run(x, acts).c)| <= len) <==> |x.file| <= len
  {
    hide Run, Proper;
    if |x.file| <= len {
      forall acts: seq<Action>
        ensures |DataOf(Run(x, acts).c)| <= len
      {
        ReadIsExact(x, acts);
      }
    } else {
      StartIsQuiet(x);
      var acts := CanFinish(x, []);
      assert [] + acts == acts;
      assert |DataOf(Run(x, acts).c)| > len;
    }
  }

  lemma StartIsQuiet(x: Setup)
    ensures !Run(x, []).trouble
  {}

  /** For every longer file there are results of recv_udp, those of an untroubled transfer, on which
      GetFile with such a buffer reports an overrun. */
  lemma OverrunIsReached(x: Setup, len: nat) returns (acts: seq<Action>, events: seq<Event>)
    requires Proper(x) && len < |x.file|
    ensures Run(x, acts).c == RunClient(events, |events|) == Done(0, x.file)
    ensures |DataOf(RunClient(events, |events|))| > len
  {
    hide Run, Proper, RunClient;
    StartIsQuiet(x);
    acts := CanFinish(x, []);
    assert [] + acts == acts;
    events := ClientOfRun(x, acts);
  }
}
