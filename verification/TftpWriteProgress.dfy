/** tftp_put_file never gets stuck: as long as the server has not given up, some deliveries
    complete the transfer. */
module TftpWriteProgress {
  import opened Bytes
  import opened TftpBlocks
  import opened Tftp
  import opened TftpWrite
  import opened TftpWriteNet

  ghost predicate Live(x: Setup, w: World) {
    && (w.c.Opening? ==> ToServer(SERVER_PORT, x.req) in w.net)
    && (!w.trouble ==> forall t :: t in w.sessions ==> w.sessions[t].open)
  }

  lemma StepIsLive(x: Setup, w: World, a: Action)
    requires WellFormed(w.c) && Live(x, w)
    ensures Live(x, Apply(x, w, a))
  {
    hide Data, Ack, Block, ParseReq, CheckResp, Clip;
  }

  lemma {:induction false} RunIsLive(x: Setup, acts: seq<Action>)
    requires Proper(x)
    ensures Safe(x, Run(x, acts)) && Live(x, Run(x, acts))
  {
    RunIsSafe(x, acts);
    if acts != [] {
      hide Safe, Live, Apply;
      var before := acts[..|acts| - 1];
      RunIsLive(x, before);
      StepIsLive(x, Run(x, before), acts[|acts| - 1]);
    }
  }

  lemma RunStep(x: Setup, acts: seq<Action>, a: Action)
    ensures Run(x, acts + [a]) == Apply(x, Run(x, acts), a)
  {
    assert (acts + [a])[..|acts|] == acts;
  }

  /** The number of blocks whose acknowledgement the client waits for. */
  function Wanted(c: Writer): nat {
    match c
    case Opening => 0
    case Sending(_, _, calls) => calls
    case Done(_, _, _) => 0
  }

  /** In two steps some session the client listens to has stored the wanted blocks. */
  lemma SessionCatchesUp(x: Setup, w: World) returns (a: Action, b: Action, t: nat)
    requires Proper(x) && Safe(x, w) && Live(x, w) && WellFormed(w.c) && !w.trouble && !w.c.Done?
    ensures var w' := Apply(x, Apply(x, w, a), b);
            && w'.c == w.c && !w'.trouble && t in w'.sessions && w'.sessions[t].open
            && |w'.sessions[t].stored| == Wanted(w.c) && Listens(w.c, t)
  {
    hide Block, Prefix, FromServer, ParseReq, CheckResp, NumBlocks, Header;
    match w.c
    case Opening =>
      if w.sessions == map[] {
        a, b, t := Request(ToServer(SERVER_PORT, x.req), 1), Acknowledge(1), 1;
      } else {
        t :| t in w.sessions;
        a, b := Acknowledge(t), Acknowledge(t);
      }
    case Sending(server, window, calls) =>
      t := server;
      var d := Data(window, Current(x.file, w.c));
      a, b := Timeout, Store(ToServer(server, d));
      var w1 := Apply(x, w, a);
      assert w1.c == w.c;
      assert (server, d) in Sends(x.file, w.c, Silence, x.req);
      assert ToServer(server, d) in w1.net;
      CurrentIsSafe(x, w);
      DataIsRead(calls, Current(x.file, w.c));
      NotComplete(x, w.sessions[server].stored, calls);
  }

  lemma NotComplete(x: Setup, stored: seq<seq<byte>>, calls: nat)
    requires FirstBlocks(x, stored) && calls <= NumBlocks(x.file)
    ensures |stored| < calls ==> !Complete(stored)
  {
    if stored != [] {
      BlockSize(x.file, |stored| - 1);
    }
  }

  /** Its acknowledgement takes the client one step further. */
  lemma AckArrives(x: Setup, w: World, t: nat)
    requires Proper(x) && Safe(x, w) && WellFormed(w.c) && !w.trouble && !w.c.Done?
    requires t in w.sessions && w.sessions[t].open && |w.sessions[t].stored| == Wanted(w.c) && Listens(w.c, t)
    ensures var w' := Apply(x, Apply(x, w, Acknowledge(t)), Deliver(AckPacket(t, Wanted(w.c))));
            !w'.trouble && if Wanted(w.c) == NumBlocks(x.file) then w'.c.Done? && w'.c.ret == 0
                           else w'.c.Sending? && w'.c.calls == Wanted(w.c) + 1
  {
    hide Block, Prefix, FromServer, FromClient, CheckResp, NumBlocks, Header, OnEvent, Sends;
    var w1 := Apply(x, w, Acknowledge(t));
    AcknowledgeIsSafe(x, w, t);
    AckIsTaken(x, w1, t, Wanted(w.c));
    AckIsRead(Wanted(w.c));
    SomeBlock(x.file);
  }

  /** From any point of an untroubled run the transfer can still complete. */
  lemma {:induction false} CanFinish(x: Setup, acts: seq<Action>) returns (more: seq<Action>)
    requires Proper(x) && !Run(x, acts).trouble
    ensures var w := Run(x, acts + more);
            && w.c.Done? && w.c.ret == 0 && w.c.server in w.sessions
            && Join(w.sessions[w.c.server].stored) == x.file
    decreases if Run(x, acts).c.Done? then 0 else WRAP - Wanted(Run(x, acts).c)
  {
    hide Safe, Live, Apply, Run;
    var w := Run(x, acts);
    RunIsLive(x, acts);
    WriteIsExact(x, acts);
    if w.c.Done? {
      more := [];
      assert acts + more == acts;
    } else {
      var a, b, t := SessionCatchesUp(x, w);
      var n := Wanted(w.c);
      var last := Deliver(AckPacket(t, n));
      var acts4 := acts + [a] + [b] + [Acknowledge(t)] + [last];
      RunStep(x, acts, a);
      RunStep(x, acts + [a], b);
      RunStep(x, acts + [a] + [b], Acknowledge(t));
      RunStep(x, acts + [a] + [b] + [Acknowledge(t)], last);
      RunIsLive(x, acts + [a] + [b]);
      AckArrives(x, Run(x, acts + [a] + [b]), t);
      RunIsLive(x, acts4);
      Bounded(x, w);
      var rest := CanFinish(x, acts4);
      more := [a, b, Acknowledge(t), last] + rest;
      assert acts + more == acts4 + rest;
    }
  }

  lemma Bounded(x: Setup, w: World)
    requires Proper(x) && Safe(x, w)
    ensures Wanted(w.c) < WRAP && NumBlocks(x.file) < WRAP
  {}
}
