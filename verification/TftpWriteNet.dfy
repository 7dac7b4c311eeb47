/** tftp_put_file against an RFC 1350 server: every run over a network that may lose, repeat and
    reorder datagrams. */
module TftpWriteNet {
  import opened Bytes
  import opened Errors
  import opened TftpBlocks
  import opened Tftp
  import opened TftpWrite

  /** What the server has stored under one transfer identifier, one entry for each block. */
  datatype Session = Session(stored: seq<seq<byte>>, open: bool)

  /** trouble: the server reported an error. */
  datatype World = World(c: Writer, sessions: map<nat, Session>, net: set<Packet>, trouble: bool)

  datatype Setup = Setup(file: seq<byte>, req: Datagram)

  ghost predicate Proper(x: Setup) {
    NumBlocks(x.file) < 0x1_0000 && exists name :: ParseReq(x.req) == Some((OP_WRQ, name, MODE))
  }

  function Start(x: Setup): World {
    World(Opening, map[], {ToServer(SERVER_PORT, x.req)}, false)
  }

  datatype Action =
    | Timeout
    | Deliver(p: Packet)
    | Request(p: Packet, t: nat)
    | Store(p: Packet)
    | Acknowledge(t: nat)
    | Abort(t: nat, d: Datagram)

  predicate Listens(c: Writer, port: nat) {
    match c
    case Opening => true
    case Sending(server, _, _) => server == 0 || server == port
    case Done(_, _, _) => false
  }

  function ClientMoves(x: Setup, w: World, e: Event): World
    requires WellFormed(w.c)
  {
    w.(c := OnEvent(x.file, w.c, e), net := w.net + Posted(Sends(x.file, w.c, e, x.req)))
  }

  function AckPacket(t: nat, n: nat): Packet {
    ToClient(t, Ack(n))
  }

  predicate Complete(stored: seq<seq<byte>>) {
    stored != [] && |stored[|stored| - 1]| < CHUNK
  }

  /** A data packet with the next number is stored, unless the file is complete; one with an
      earlier number is only acknowledged again. */
  function Receive(s: Session, d: Datagram): Session
    requires |d| >= 4
  {
    if Seq(d) == |s.stored| + 1 && !Complete(s.stored) then s.(stored := s.stored + [d[4..]]) else s
  }

  function StoreAt(w: World, t: nat, d: Datagram): World
    requires t in w.sessions && |d| >= 4
  {
    var s := Receive(w.sessions[t], d);
    w.(sessions := w.sessions[t := s],
       net := w.net + if Seq(d) <= |s.stored| then {AckPacket(t, Seq(d))} else {})
  }

  function Closed(sessions: map<nat, Session>, t: nat): map<nat, Session> {
    if t in sessions then sessions[t := sessions[t].(open := false)] else sessions
  }

  /** One step; an action that is not possible changes nothing. */
  function Apply(x: Setup, w: World, a: Action): (w': World)
    requires WellFormed(w.c)
    ensures WellFormed(w'.c)
  {
    match a
    case Timeout => ClientMoves(x, w, Silence)
    case Deliver(p) =>
      if p in w.net && p.ToClient? && Listens(w.c, p.port) then ClientMoves(x, w, Arrival(p.port, Clip(p.d))) else w
    case Request(p, t) =>
      if p in w.net && p.ToServer? && p.port == SERVER_PORT && t != 0 && t !in w.sessions
         && ParseReq(p.d).Some? && ParseReq(p.d).value.0 == OP_WRQ
      then w.(sessions := w.sessions[t := Session([], true)], net := w.net + {AckPacket(t, 0)}) else w
    case Store(p) =>
      if p in w.net && p.ToServer? && p.port in w.sessions && w.sessions[p.port].open && CheckResp(p.d, OP_DATA) == 0
      then StoreAt(w, p.port, p.d) else w
    case Acknowledge(t) =>
      if t in w.sessions && w.sessions[t].open
      then w.(net := w.net + {AckPacket(t, |w.sessions[t].stored|)}) else w
    case Abort(t, d) =>
      if IsError(d) then w.(sessions := Closed(w.sessions, t), net := w.net + {ToClient(t, d)}, trouble := true)
      else w
  }

  function Run(x: Setup, acts: seq<Action>): (w: World)
    ensures WellFormed(w.c)
  {
    if acts == [] then Start(x) else Apply(x, Run(x, acts[..|acts| - 1]), acts[|acts| - 1])
  }

  // ---- the invariant ----

  predicate FromServer(sessions: map<nat, Session>, trouble: bool, t: nat, d: Datagram) {
    || (IsError(d) && trouble)
    || (t in sessions && |d| >= 4 && d == Ack(Seq(d)) && Seq(d) <= |sessions[t].stored|)
  }

  /** Copies of the request, and blocks sent so far to the chosen session. */
  predicate FromClient(x: Setup, c: Writer, t: nat, d: Datagram) {
    || (t == SERVER_PORT && d == x.req)
    || (!c.Opening? && t == c.server && |d| >= 4 && 1 <= Seq(d) <= c.calls
      && d == Data(Seq(d), Block(x.file, Seq(d) - 1)))
  }

  /** The chosen session has stored all blocks before the current one, or that one too; all
      others nothing. */
  ghost predicate InStep(x: Setup, c: Writer, sessions: map<nat, Session>, trouble: bool) {
    && Counts(x.file, c)
    && (forall t :: t in sessions && (c.Opening? || t != c.server) ==> sessions[t].stored == [])
    && (!c.Opening? && c.server in sessions ==> |sessions[c.server].stored| <= c.calls)
    && match c
       case Opening => true
       case Sending(server, window, calls) => server in sessions && calls <= |sessions[server].stored| + 1
       case Done(ret, server, calls) =>
         if ret == 0 then server in sessions && |sessions[server].stored| == calls else trouble
  }

  /** The first blocks of the file, in order. */
  ghost predicate FirstBlocks(x: Setup, stored: seq<seq<byte>>) {
    |stored| <= NumBlocks(x.file) && forall i :: 0 <= i < |stored| ==> stored[i] == Block(x.file, i)
  }

  ghost predicate Safe(x: Setup, w: World) {
    && InStep(x, w.c, w.sessions, w.trouble)
    && (forall t :: t in w.sessions ==> t != 0 && FirstBlocks(x, w.sessions[t].stored))
    && forall p :: p in w.net ==>
         if p.ToClient? then FromServer(w.sessions, w.trouble, p.port, p.d) else FromClient(x, w.c, p.port, p.d)
  }

  // ---- the client's steps ----

  lemma FailureIsSafe(x: Setup, w: World, e: Event)
    requires Safe(x, w) && w.trouble && !w.c.Done? && WellFormed(w.c)
    requires e.Arrival? && |e.d| >= 4 && CheckResp(e.d, OP_ACK) == -EBADPKT
    ensures Safe(x, ClientMoves(x, w, e))
  {
    hide NumBlocks, FromServer, Block, FirstBlocks, Data;
    assert Sends(x.file, w.c, e, x.req) == [];
    assert ClientMoves(x, w, e).net == w.net;
  }

  lemma TimeoutIsSafe(x: Setup, w: World)
    requires Proper(x) && Safe(x, w) && WellFormed(w.c)
    ensures Safe(x, Apply(x, w, Timeout))
  {
    hide NumBlocks, InStep, FromServer, Block, FirstBlocks, Counts;
    var w' := Apply(x, w, Timeout);
    match w.c
    case Opening =>
      assert Posted([(SERVER_PORT, x.req)]) == {ToServer(SERVER_PORT, x.req)};
      assert w'.net == w.net + {ToServer(SERVER_PORT, x.req)};
    case Sending(server, window, calls) =>
      CurrentIsSafe(x, w);
      var d := Data(window, Current(x.file, w.c));
      assert Posted([(server, d)]) == {ToServer(server, d)};
      assert w'.net == w.net + {ToServer(server, d)};
    case Done(_, _, _) =>
      assert w'.net == w.net;
  }

  /** Block numbers have not wrapped around, so the current packet carries its block's number. */
  lemma CurrentIsSafe(x: Setup, w: World)
    requires Proper(x) && InStep(x, w.c, w.sessions, w.trouble) && w.c.Sending?
    ensures w.c.window == w.c.calls < WRAP
    ensures FromClient(x, w.c, w.c.server, Data(w.c.window, Current(x.file, w.c)))
  {
    DataIsRead(w.c.calls, Block(x.file, w.c.calls - 1));
  }

  /** The effect of an acknowledgement on the client. */
  lemma AckIsTaken(x: Setup, w: World, t: nat, n: nat)
    requires Proper(x) && Safe(x, w) && !w.c.Done? && WellFormed(w.c) && Listens(w.c, t)
    requires t in w.sessions && n <= |w.sessions[t].stored|
    ensures n < WRAP
    ensures OnEvent(x.file, w.c, Arrival(t, Ack(n))) ==
            match w.c
            case Opening => Sending(t, 1, 1)
            case Sending(server, window, calls) =>
              if n != calls then w.c
              else if calls == NumBlocks(x.file) then Done(0, server, calls)
              else Sending(server, calls + 1, calls + 1)
  {
    hide Block, CheckResp, FromServer, FromClient, Ack, NumBlocks;
    assert FirstBlocks(x, w.sessions[t].stored);
    AckIsRead(n);
    if w.c.Sending? {
      CurrentIsSafe(x, w);
      BlockSize(x.file, w.c.calls - 1);
    }
  }

  lemma AckIsInStep(x: Setup, w: World, t: nat, n: nat)
    requires Proper(x) && Safe(x, w) && !w.c.Done? && WellFormed(w.c) && Listens(w.c, t)
    requires t in w.sessions && n <= |w.sessions[t].stored|
    ensures InStep(x, OnEvent(x.file, w.c, Arrival(t, Ack(n))), w.sessions, w.trouble)
  {
    hide Block, FromServer, FromClient, Ack, FirstBlocks, OnEvent;
    AckIsTaken(x, w, t, n);
    CountsStep(x.file, w.c, Arrival(t, Ack(n)));
  }

  lemma AckIsSafe(x: Setup, w: World, t: nat, n: nat)
    requires Proper(x) && Safe(x, w) && !w.c.Done? && WellFormed(w.c) && Listens(w.c, t)
    requires t in w.sessions && n <= |w.sessions[t].stored|
    ensures Safe(x, ClientMoves(x, w, Arrival(t, Ack(n))))
  {
    hide Block, FromServer, Ack, FirstBlocks, OnEvent, InStep, Counts, Data, Header;
    var e := Arrival(t, Ack(n));
    AckIsTaken(x, w, t, n);
    AckIsRead(n);
    AckIsInStep(x, w, t, n);
    var w' := ClientMoves(x, w, e);
    if w'.c.Sending? && w'.c != w.c {
      CurrentIsSafe(x, w');
      var d := Data(w'.c.window, Current(x.file, w'.c));
      assert w'.net == w.net + {ToServer(w'.c.server, d)};
    } else {
      assert w'.net == w.net;
    }
  }

  lemma DeliverIsSafe(x: Setup, w: World, p: Packet)
    requires Proper(x) && Safe(x, w) && WellFormed(w.c)
    ensures Safe(x, Apply(x, w, Deliver(p)))
  {
    hide Block, ClientMoves, InStep, FromClient, CheckResp;
    if p in w.net && p.ToClient? && Listens(w.c, p.port) && !w.c.Done? {
      if IsError(p.d) && w.trouble {
        ErrorIsRefused(p.d, OP_ACK);
        FailureIsSafe(x, w, Arrival(p.port, Clip(p.d)));
      } else {
        AckIsSafe(x, w, p.port, Seq(p.d));
        AckIsTaken(x, w, p.port, Seq(p.d));
        AckIsRead(Seq(p.d));
      }
    }
  }

  // ---- the server's steps ----

  lemma RequestIsSafe(x: Setup, w: World, p: Packet, t: nat)
    requires Proper(x) && Safe(x, w) && WellFormed(w.c)
    ensures Safe(x, Apply(x, w, Request(p, t)))
  {
    hide FromClient, Block, Data, ParseReq, Counts;
    var w' := Apply(x, w, Request(p, t));
    if w' != w {
      AckIsRead(0);
      assert FromServer(w'.sessions, w'.trouble, t, Ack(0));
      assert w.c.Opening? || t != w.c.server || w.c.Done?;
      forall q | q in w.net && q.ToClient?
        ensures FromServer(w'.sessions, w'.trouble, q.port, q.d)
      {
        assert FromServer(w.sessions, w.trouble, q.port, q.d);
      }
    }
  }

  /** Only the chosen session is sent data, and it stores the next block of the file. */
  lemma StoreIsFaithful(x: Setup, w: World, p: Packet)
    requires Proper(x) && Safe(x, w) && WellFormed(w.c) && p in w.net && p.ToServer? && p.port in w.sessions
    requires CheckResp(p.d, OP_DATA) == 0
    ensures !w.c.Opening? && p.port == w.c.server
    ensures var s := Receive(w.sessions[p.port], p.d).stored;
            FirstBlocks(x, s) && |w.sessions[p.port].stored| <= |s| <= w.c.calls
  {
    hide CString, FromServer, Block;
    assert FromClient(x, w.c, p.port, p.d);
    assert x.req[1] == OP_WRQ;
    DataIsRead(Seq(p.d), Block(x.file, Seq(p.d) - 1));
  }

  lemma StoreIsSafe(x: Setup, w: World, p: Packet)
    requires Proper(x) && Safe(x, w) && WellFormed(w.c)
    ensures Safe(x, Apply(x, w, Store(p)))
  {
    hide FromClient, FromServer, Block, ParseReq, CheckResp, FirstBlocks, Receive, Counts, Ack;
    var w' := Apply(x, w, Store(p));
    if w' != w {
      StoreIsFaithful(x, w, p);
      var t := p.port;
      forall q | q in w'.net && q.ToClient?
        ensures FromServer(w'.sessions, w'.trouble, q.port, q.d)
      {
        if q in w.net {
          SessionGrows(w.sessions, w'.sessions, w.trouble, q.port, q.d);
        } else {
          NewAck(w'.sessions, w'.trouble, t, Seq(p.d));
        }
      }
    }
  }

  lemma NewAck(sessions: map<nat, Session>, trouble: bool, t: nat, n: nat)
    requires t in sessions && n <= |sessions[t].stored| && n < WRAP
    ensures FromServer(sessions, trouble, t, Ack(n))
  {
    AckIsRead(n);
  }

  lemma SessionGrows(before: map<nat, Session>, after: map<nat, Session>, trouble: bool, t: nat, d: Datagram)
    requires FromServer(before, trouble, t, d)
    requires t in before ==> t in after && |before[t].stored| <= |after[t].stored|
    ensures FromServer(after, trouble, t, d)
  {}

  lemma AcknowledgeIsSafe(x: Setup, w: World, t: nat)
    requires Proper(x) && Safe(x, w) && WellFormed(w.c)
    ensures Safe(x, Apply(x, w, Acknowledge(t)))
  {
    hide FromClient, FromServer, InStep, Ack;
    if t in w.sessions {
      assert FirstBlocks(x, w.sessions[t].stored);
      NewAck(w.sessions, w.trouble, t, |w.sessions[t].stored|);
    }
  }

  lemma AbortIsSafe(x: Setup, w: World, t: nat, d: Datagram)
    requires Safe(x, w) && WellFormed(w.c)
    ensures Safe(x, Apply(x, w, Abort(t, d)))
  {
    hide FromClient, FirstBlocks, Ack, IsError, Counts;
    var w' := Apply(x, w, Abort(t, d));
    if IsError(d) {
      assert FromServer(w'.sessions, true, t, d);
      forall q | q in w.net && q.ToClient?
        ensures FromServer(w'.sessions, true, q.port, q.d)
      {
        assert FromServer(w.sessions, w.trouble, q.port, q.d);
      }
    }
  }

  lemma StepIsSafe(x: Setup, w: World, a: Action)
    requires Proper(x) && Safe(x, w) && WellFormed(w.c)
    ensures Safe(x, Apply(x, w, a))
  {
    hide Safe, Apply;
    match a
    case Timeout => TimeoutIsSafe(x, w);
    case Deliver(p) => DeliverIsSafe(x, w, p);
    case Request(p, t) => RequestIsSafe(x, w, p, t);
    case Store(p) => StoreIsSafe(x, w, p);
    case Acknowledge(t) => AcknowledgeIsSafe(x, w, t);
    case Abort(t, d) => AbortIsSafe(x, w, t, d);
  }

  /** Every run is safe. */
  lemma {:induction false} RunIsSafe(x: Setup, acts: seq<Action>)
    requires Proper(x)
    ensures Safe(x, Run(x, acts))
  {
    if acts != [] {
      hide Safe, Apply;
      RunIsSafe(x, acts[..|acts| - 1]);
      StepIsSafe(x, Run(x, acts[..|acts| - 1]), acts[|acts| - 1]);
    }
  }

  // ---- what a run means ----

  function Join(blocks: seq<seq<byte>>): seq<byte> {
    if blocks == [] then [] else Join(blocks[..|blocks| - 1]) + blocks[|blocks| - 1]
  }

  lemma {:induction false} JoinBlocks(x: Setup, stored: seq<seq<byte>>)
    requires FirstBlocks(x, stored)
    ensures Join(stored) == Prefix(x.file, |stored|)
  {
    if stored == [] {
      PrefixAll(x.file, 0);
    } else {
      hide Block, Prefix;
      JoinBlocks(x, stored[..|stored| - 1]);
      PrefixStep(x.file, |stored| - 1);
    }
  }

  /** What any session has stored is a prefix of the file, within one block of the client's
      window at the chosen one and empty at the others. A return value of 0 means that every
      block was stored there once and in order, the last one short; any other that the server
      gave up. */
  lemma WriteIsExact(x: Setup, acts: seq<Action>)
    requires Proper(x)
    ensures var w := Run(x, acts);
            && (forall t :: t in w.sessions ==> FirstBlocks(x, w.sessions[t].stored))
            && (forall t :: t in w.sessions && (w.c.Opening? || t != w.c.server) ==> w.sessions[t].stored == [])
            && (w.c.Sending? ==> w.c.server in w.sessions
                                 && w.c.window - 1 <= |w.sessions[w.c.server].stored| <= w.c.window)
            && (w.c.Done? && w.c.ret != 0 ==> w.trouble)
            && (w.c.Done? && w.c.ret == 0 ==>
                  && w.c.server in w.sessions && |w.sessions[w.c.server].stored| == NumBlocks(x.file)
                  && Complete(w.sessions[w.c.server].stored)
                  && Join(w.sessions[w.c.server].stored) == x.file)
  {
    hide Block, Prefix, NumBlocks, FromServer, FromClient, Run;
    RunIsSafe(x, acts);
    var w := Run(x, acts);
    if w.c.Sending? {
      CurrentIsSafe(x, w);
    }
    if w.c.Done? && w.c.ret == 0 {
      var stored := w.sessions[w.c.server].stored;
      SomeBlock(x.file);
      JoinBlocks(x, stored);
      PrefixAll(x.file, |stored|);
      BlockSize(x.file, |stored| - 1);
    }
  }

  // ---- the client of a run is the client of tftp_put_file ----

  lemma {:induction false} SameEvents(file: seq<byte>, events: seq<Event>, e: Event, n: nat, req: Datagram)
    requires n <= |events|
    ensures RunClient(file, events + [e], n) == RunClient(file, events, n)
    ensures Sent(file, events + [e], n, req) == Sent(file, events, n, req)
  {
    hide OnEvent, Sends;
    if n > 0 {
      SameEvents(file, events, e, n - 1, req);
    }
  }

  lemma OneMoreEvent(file: seq<byte>, events: seq<Event>, e: Event, req: Datagram)
    ensures var c := RunClient(file, events, |events|);
            && RunClient(file, events + [e], |events| + 1) == OnEvent(file, c, e)
            && Sent(file, events + [e], |events| + 1, req) == Sent(file, events, |events|, req) + Sends(file, c, e, req)
  {
    hide OnEvent, Sends;
    SameEvents(file, events, e, |events|, req);
  }

  /** In every run the client is in the state to which some results of recv_udp have brought it,
      and the packets to the server that the network has carried are those it has sent by then: so
      what is proved about runs is proved about the methods that send. */
  lemma {:induction false} ClientOfRun(x: Setup, acts: seq<Action>) returns (events: seq<Event>)
    ensures Run(x, acts).c == RunClient(x.file, events, |events|)
    ensures PutThere(Run(x, acts).net, Sent(x.file, events, |events|, x.req))
  {
    hide OnEvent, Sends, ParseReq, RunClient, Sent, PutThere, Posted;
    events := [];
    if acts == [] {
      OnlyRequest(x);
    } else {
      var w, a := Run(x, acts[..|acts| - 1]), acts[|acts| - 1];
      events := ClientOfRun(x, acts[..|acts| - 1]);
      var w' := Run(x, acts);
      match a
      case Timeout =>
        OneMoreEvent(x.file, events, Silence, x.req);
        MorePutThere(w.net, Sent(x.file, events, |events|, x.req), Sends(x.file, w.c, Silence, x.req));
        events := events + [Silence];
      case Deliver(p) =>
        if p in w.net && p.ToClient? && Listens(w.c, p.port) {
          var e := Arrival(p.port, Clip(p.d));
          OneMoreEvent(x.file, events, e, x.req);
          MorePutThere(w.net, Sent(x.file, events, |events|, x.req), Sends(x.file, w.c, e, x.req));
          events := events + [e];
        }
      case _ =>
        ServerStep(x, w, a);
        ServerPutsNothing(w.net, w'.net, Sent(x.file, events, |events|, x.req));
    }
  }

  lemma OnlyRequest(x: Setup)
    ensures RunClient(x.file, [], 0) == Opening && PutThere(Start(x).net, Sent(x.file, [], 0, x.req))
  {}

  /** The server's actions leave the client alone and put only packets to it into the network. */
  lemma ServerStep(x: Setup, w: World, a: Action)
    requires !a.Timeout? && !a.Deliver? && WellFormed(w.c)
    ensures var w' := Apply(x, w, a);
            w'.c == w.c && forall p: Packet :: p.ToServer? ==> (p in w'.net <==> p in w.net)
  {
    hide ParseReq, CheckResp, Block;
  }
}
