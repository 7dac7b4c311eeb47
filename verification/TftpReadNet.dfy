/** tftp_get_file against an RFC 1350 server holding a constant file: every run over a network
    that may lose, repeat and reorder datagrams. */
module TftpReadNet {
  import opened Bytes
  import opened Errors
  import opened TftpBlocks
  import opened Tftp
  import opened TftpRead

  /** One transfer identifier of the server (RFC 1350, section 4) and the block it is sending. */
  datatype Session = Session(cur: nat, open: bool)

  /** trouble: the server reported an error, or recv_udp timed out in mid-transfer. */
  datatype World = World(c: Reader, sessions: map<nat, Session>, net: set<Packet>, trouble: bool)

  datatype Setup = Setup(file: seq<byte>, req: Datagram)

  ghost predicate Proper(x: Setup) {
    NumBlocks(x.file) < 0x1_0000 && exists name :: ParseReq(x.req) == Some((OP_RRQ, name, MODE))
  }

  function Start(x: Setup): World {
    World(Opening, map[], {ToServer(SERVER_PORT, x.req)}, false)
  }

  datatype Action =
    | Timeout
    | Deliver(p: Packet)
    | Request(p: Packet, t: nat)
    | Acknowledge(p: Packet)
    | Retransmit(t: nat)
    | Abort(t: nat, d: Datagram)

  function DataPacket(x: Setup, t: nat, b: nat): Packet
    requires b > 0
  {
    ToClient(t, Data(b, Block(x.file, b - 1)))
  }

  /** task_match_udp for the transfer: only the chosen port, once there is one. */
  predicate Listens(c: Reader, port: nat) {
    match c
    case Opening => true
    case Transfer(server, _, _) => server == 0 || server == port
    case Done(_, _) => false
  }

  function ClientMoves(x: Setup, w: World, e: Event): World {
    w.(c := OnEvent(w.c, e), net := w.net + Posted(Sends(w.c, e, x.req)))
  }

  /** A copy of the request opens one more session, on a port not used before. */
  function Accept(x: Setup, w: World, t: nat): World {
    w.(sessions := w.sessions[t := Session(1, true)], net := w.net + {DataPacket(x, t, 1)})
  }

  /** The acknowledgement of the current block lets the next one go, or ends the session. */
  function Advance(x: Setup, w: World, t: nat): World
    requires t in w.sessions && w.sessions[t].cur > 0
  {
    var b := w.sessions[t].cur;
    if |Block(x.file, b - 1)| < CHUNK then w.(sessions := w.sessions[t := Session(b, false)])
    else w.(sessions := w.sessions[t := Session(b + 1, true)], net := w.net + {DataPacket(x, t, b + 1)})
  }

  function Closed(sessions: map<nat, Session>, t: nat): map<nat, Session> {
    if t in sessions then sessions[t := sessions[t].(open := false)] else sessions
  }

  /** One step; an action that is not possible changes nothing. */
  function Apply(x: Setup, w: World, a: Action): World {
    match a
    case Timeout => ClientMoves(x, w, Silence).(trouble := w.trouble || w.c.Transfer?)
    case Deliver(p) =>
      if p in w.net && p.ToClient? && Listens(w.c, p.port) then ClientMoves(x, w, Arrival(p.port, Clip(p.d))) else w
    case Request(p, t) =>
      if p in w.net && p.ToServer? && p.port == SERVER_PORT && t != 0 && t !in w.sessions
         && ParseReq(p.d).Some? && ParseReq(p.d).value.0 == OP_RRQ
      then Accept(x, w, t) else w
    case Acknowledge(p) =>
      if p in w.net && p.ToServer? && p.port in w.sessions && w.sessions[p.port].open && w.sessions[p.port].cur > 0
         && CheckResp(p.d, OP_ACK) == 0 && Seq(p.d) == w.sessions[p.port].cur
      then Advance(x, w, p.port) else w
    case Retransmit(t) =>
      if t in w.sessions && w.sessions[t].open && w.sessions[t].cur > 0
      then w.(net := w.net + {DataPacket(x, t, w.sessions[t].cur)}) else w
    case Abort(t, d) =>
      if IsError(d) then w.(sessions := Closed(w.sessions, t), net := w.net + {ToClient(t, d)}, trouble := true)
      else w
  }

  function Run(x: Setup, acts: seq<Action>): World {
    if acts == [] then Start(x) else Apply(x, Run(x, acts[..|acts| - 1]), acts[|acts| - 1])
  }

  // ---- the invariant ----

  /** What the server has sent from port t when it has got to block cur. */
  predicate FromServer(x: Setup, sessions: map<nat, Session>, trouble: bool, t: nat, d: Datagram) {
    || (IsError(d) && trouble)
    || (t in sessions && |d| >= 4 && 1 <= Seq(d) <= sessions[t].cur && d == Data(Seq(d), Block(x.file, Seq(d) - 1)))
  }

  /** What the client has sent: copies of the request, and acknowledgements to the chosen
      session of blocks it has accepted. */
  predicate FromClient(x: Setup, c: Reader, t: nat, d: Datagram) {
    match c
    case Opening => t == SERVER_PORT && d == x.req
    case Transfer(server, window, _) =>
      || (t == SERVER_PORT && d == x.req)
      || (t == server && |d| >= 4 && d == Ack(Seq(d)) && 1 <= Seq(d) < window)
    case Done(_, _) => true
  }

  /** The buffer is a prefix of the file; the chosen session is at the last accepted block or
      the next one, all others still at the first. */
  ghost predicate InStep(x: Setup, c: Reader, sessions: map<nat, Session>, trouble: bool) {
    match c
    case Opening => forall t :: t in sessions ==> sessions[t].cur == 1
    case Transfer(server, window, data) =>
      && server in sessions && 2 <= window <= NumBlocks(x.file)
      && data == Prefix(x.file, window - 1)
      && window - 1 <= sessions[server].cur <= window
      && forall t :: t in sessions && t != server ==> sessions[t].cur == 1
    case Done(ret, data) => data <= x.file && (ret == 0 ==> data == x.file) && (ret != 0 ==> trouble)
  }

  ghost predicate Safe(x: Setup, w: World) {
    && InStep(x, w.c, w.sessions, w.trouble)
    && (forall t :: t in w.sessions ==> t != 0 && 1 <= w.sessions[t].cur <= NumBlocks(x.file))
    && forall p :: p in w.net ==>
         if p.ToClient? then FromServer(x, w.sessions, w.trouble, p.port, p.d) else FromClient(x, w.c, p.port, p.d)
  }

  lemma PrefixIsPrefix(file: seq<byte>, k: nat)
    ensures Prefix(file, k) <= file
  {}

  lemma NewPacket(x: Setup, sessions: map<nat, Session>, trouble: bool, t: nat, b: nat)
    requires t in sessions && 1 <= b <= sessions[t].cur && b < WRAP
    ensures DataPacket(x, t, b).ToClient? && DataPacket(x, t, b).port == t
    ensures FromServer(x, sessions, trouble, t, DataPacket(x, t, b).d)
  {
    DataIsRead(b, Block(x.file, b - 1));
  }

  /** An error packet or a timeout ends the transfer with the buffer as it is. */
  lemma FailureIsSafe(x: Setup, w: World, e: Event)
    requires Safe(x, w) && w.trouble && !w.c.Done?
    requires e.Arrival? ==> |e.d| >= 4 && CheckResp(e.d, OP_DATA) == -EBADPKT
    requires e.Arrival? || w.c.Transfer?
    ensures Safe(x, ClientMoves(x, w, e))
  {
    hide NumBlocks, FromServer;
    if w.c.Transfer? {
      PrefixIsPrefix(x.file, w.c.window - 1);
    }
    assert Sends(w.c, e, x.req) == [];
    assert ClientMoves(x, w, e).net == w.net;
  }

  lemma DataIsTaken(x: Setup, w: World, t: nat, b: nat)
    requires Proper(x) && Safe(x, w) && !w.c.Done? && Listens(w.c, t)
    requires t in w.sessions && 1 <= b <= w.sessions[t].cur
    ensures var payload := Block(x.file, b - 1);
            var e := Arrival(t, Data(b, payload));
            && Sends(w.c, e, x.req) == [(t, Ack(b))]
            && OnEvent(w.c, e) ==
               if w.c.Transfer? && b != w.c.window then w.c
               else if |payload| < CHUNK then Done(0, DataOf(w.c) + payload)
               else Transfer(t, b + 1, DataOf(w.c) + payload)
  {
    hide Block, Prefix, CheckResp, FromServer, FromClient;
    DataIsRead(b, Block(x.file, b - 1));
    BlockSize(x.file, b - 1);
  }

  /** A data packet of the server reaches the client. */
  lemma DataIsSafe(x: Setup, w: World, t: nat, b: nat)
    requires Proper(x) && Safe(x, w) && !w.c.Done? && Listens(w.c, t)
    requires t in w.sessions && 1 <= b <= w.sessions[t].cur
    ensures Safe(x, ClientMoves(x, w, Arrival(t, Data(b, Block(x.file, b - 1)))))
  {
    hide Block, Prefix, OnEvent, Sends, FromServer;
    DataIsTaken(x, w, t, b);
    BlockSize(x.file, b - 1);
    PrefixStep(x.file, b - 1);
    PrefixAll(x.file, b);
    PrefixIsPrefix(x.file, b);
    PrefixIsPrefix(x.file, if w.c.Transfer? then w.c.window - 1 else 0);
    AckIsRead(b);
    var w' := ClientMoves(x, w, Arrival(t, Data(b, Block(x.file, b - 1))));
    assert w'.net == w.net + {ToServer(t, Ack(b))};
    assert InStep(x, w'.c, w'.sessions, w'.trouble);
  }

  lemma DeliverIsSafe(x: Setup, w: World, p: Packet)
    requires Proper(x) && Safe(x, w)
    ensures Safe(x, Apply(x, w, Deliver(p)))
  {
    hide Data, Block, ClientMoves, InStep, FromClient, CheckResp;
    if p in w.net && p.ToClient? && Listens(w.c, p.port) && !w.c.Done? {
      if IsError(p.d) && w.trouble {
        ErrorIsRefused(p.d, OP_DATA);
        FailureIsSafe(x, w, Arrival(p.port, Clip(p.d)));
      } else {
        var b := Seq(p.d);
        DataIsRead(b, Block(x.file, b - 1));
        BlockSize(x.file, b - 1);
        DataIsSafe(x, w, p.port, b);
      }
    }
  }

  lemma TroubleIsSafe(x: Setup, w: World)
    requires Safe(x, w)
    ensures Safe(x, w.(trouble := true))
  {
    hide NumBlocks, FromClient;
  }

  lemma TimeoutIsSafe(x: Setup, w: World)
    requires Safe(x, w)
    ensures Safe(x, Apply(x, w, Timeout))
  {
    hide NumBlocks, InStep, FromServer;
    var w' := Apply(x, w, Timeout);
    match w.c
    case Opening =>
      assert Posted([(SERVER_PORT, x.req)]) == {ToServer(SERVER_PORT, x.req)};
      assert w'.c == w.c && w'.net == w.net + {ToServer(SERVER_PORT, x.req)};
    case Transfer(_, _, _) =>
      TroubleIsSafe(x, w);
      FailureIsSafe(x, w.(trouble := true), Silence);
      assert w' == ClientMoves(x, w.(trouble := true), Silence);
    case Done(_, _) =>
      assert w'.c == w.c && w'.net == w.net;
  }

  lemma RequestIsSafe(x: Setup, w: World, p: Packet, t: nat)
    requires Safe(x, w)
    ensures Safe(x, Apply(x, w, Request(p, t)))
  {
    hide FromClient, Block, Data, ParseReq;
    var w' := Apply(x, w, Request(p, t));
    if w' != w {
      assert w' == Accept(x, w, t);
      NewPacket(x, w'.sessions, w'.trouble, t, 1);
      forall q | q in w.net && q.ToClient?
        ensures FromServer(x, w'.sessions, w'.trouble, q.port, q.d)
      {
        assert FromServer(x, w.sessions, w.trouble, q.port, q.d);
      }
    }
  }

  /** An acknowledgement that fits a session's block comes from the chosen session. */
  lemma AckIsExpected(x: Setup, w: World, p: Packet)
    requires Proper(x) && Safe(x, w) && p in w.net && p.ToServer? && p.port in w.sessions
    requires CheckResp(p.d, OP_ACK) == 0 && Seq(p.d) == w.sessions[p.port].cur
    ensures !w.c.Opening?
    ensures w.c.Transfer? ==> p.port == w.c.server && w.sessions[p.port].cur == w.c.window - 1
  {
    hide CString;
    assert FromClient(x, w.c, p.port, p.d);
    assert x.req[1] == OP_RRQ;
  }

  lemma AcknowledgeIsSafe(x: Setup, w: World, p: Packet)
    requires Proper(x) && Safe(x, w)
    ensures Safe(x, Apply(x, w, Acknowledge(p)))
  {
    hide FromClient, FromServer, Block, Prefix, ParseReq, CheckResp, DataPacket;
    var w' := Apply(x, w, Acknowledge(p));
    if w' != w {
      AckIsExpected(x, w, p);
      var t, b := p.port, w.sessions[p.port].cur;
      assert w' == Advance(x, w, t);
      BlockSize(x.file, b - 1);
      forall q | q in w.net && q.ToClient?
        ensures FromServer(x, w'.sessions, w'.trouble, q.port, q.d)
      {
        SessionGrows(x, w.sessions, w'.sessions, w.trouble, q.port, q.d);
      }
      if w'.sessions[t].cur > b {
        NewPacket(x, w'.sessions, w'.trouble, t, b + 1);
      }
    }
  }

  lemma SessionGrows(x: Setup, before: map<nat, Session>, after: map<nat, Session>, trouble: bool, t: nat, d: Datagram)
    requires FromServer(x, before, trouble, t, d)
    requires t in before ==> t in after && before[t].cur <= after[t].cur
    ensures FromServer(x, after, trouble, t, d)
  {}

  lemma RetransmitIsSafe(x: Setup, w: World, t: nat)
    requires Proper(x) && Safe(x, w)
    ensures Safe(x, Apply(x, w, Retransmit(t)))
  {
    hide FromClient, FromServer, InStep, DataPacket;
    if t in w.sessions {
      NewPacket(x, w.sessions, w.trouble, t, w.sessions[t].cur);
    }
  }

  lemma AbortIsSafe(x: Setup, w: World, t: nat, d: Datagram)
    requires Safe(x, w)
    ensures Safe(x, Apply(x, w, Abort(t, d)))
  {
    hide FromClient, Block, NumBlocks, Data, IsError;
    var w' := Apply(x, w, Abort(t, d));
    if IsError(d) {
      assert FromServer(x, w'.sessions, true, t, d);
      forall q | q in w.net && q.ToClient?
        ensures FromServer(x, w'.sessions, true, q.port, q.d)
      {
        assert FromServer(x, w.sessions, w.trouble, q.port, q.d);
      }
    }
  }

  lemma StepIsSafe(x: Setup, w: World, a: Action)
    requires Proper(x) && Safe(x, w)
    ensures Safe(x, Apply(x, w, a))
  {
    hide Safe, Apply;
    match a
    case Timeout => TimeoutIsSafe(x, w);
    case Deliver(p) => DeliverIsSafe(x, w, p);
    case Request(p, t) => RequestIsSafe(x, w, p, t);
    case Acknowledge(p) => AcknowledgeIsSafe(x, w, p);
    case Retransmit(t) => RetransmitIsSafe(x, w, t);
    case Abort(t, d) => AbortIsSafe(x, w, t, d);
  }

  /** Every run is safe. */
  lemma {:induction false} RunIsSafe(x: Setup, acts: seq<Action>)
    requires Proper(x)
    ensures Safe(x, Run(x, acts))
  {
    if acts != [] {
      RunIsSafe(x, acts[..|acts| - 1]);
      StepIsSafe(x, Run(x, acts[..|acts| - 1]), acts[|acts| - 1]);
    }
  }

  /** A return value of 0 means that the buffer holds exactly the file; any other that the
      server gave up or fell silent. The buffer is at all times a prefix of the file. */
  lemma ReadIsExact(x: Setup, acts: seq<Action>)
    requires Proper(x)
    ensures var w := Run(x, acts);
            && DataOf(w.c) <= x.file
            && (w.c.Done? ==> if w.c.ret == 0 then w.c.data == x.file else w.trouble)
            && (w.c.Transfer? ==> w.c.server in w.sessions && w.c.window > 1
                                  && w.c.data == Prefix(x.file, w.c.window - 1)
                                  && w.c.window - 1 <= w.sessions[w.c.server].cur <= w.c.window)
  {
    hide Run;
    RunIsSafe(x, acts);
    var w := Run(x, acts);
    if w.c.Transfer? {
      PrefixIsPrefix(x.file, w.c.window - 1);
    }
  }

  // ---- the client of a run is the client of GetFile ----

  lemma {:induction false} SameEvents(events: seq<Event>, e: Event, n: nat, req: Datagram)
    requires n <= |events|
    ensures RunClient(events + [e], n) == RunClient(events, n)
    ensures Sent(events + [e], n, req) == Sent(events, n, req)
  {
    hide OnEvent, Sends;
    if n > 0 {
      SameEvents(events, e, n - 1, req);
    }
  }

  lemma OneMoreEvent(events: seq<Event>, e: Event, req: Datagram)
    ensures var c := RunClient(events, |events|);
            && RunClient(events + [e], |events| + 1) == OnEvent(c, e)
            && Sent(events + [e], |events| + 1, req) == Sent(events, |events|, req) + Sends(c, e, req)
  {
    hide OnEvent, Sends;
    SameEvents(events, e, |events|, req);
  }

  /** In every run the client is in the state to which some results of recv_udp have brought it,
      and the packets to the server that the network has carried are those it has sent by then: so
      what is proved about runs is proved about the methods that send. */
  lemma {:induction false} ClientOfRun(x: Setup, acts: seq<Action>) returns (events: seq<Event>)
    ensures Run(x, acts).c == RunClient(events, |events|)
    ensures PutThere(Run(x, acts).net, Sent(events, |events|, x.req))
  {
    hide OnEvent, Sends, ParseReq, RunClient, Sent, PutThere, Posted;
    events := [];
    if acts == [] {
      OnlyRequest(x);
    } else {
      var w, a := Run(x, acts[..|acts| - 1]), acts[|acts| - 1];
      events := ClientOfRun(x, acts[..|acts| - 1]);
      var w' := Run(x, acts);
      match a
      case Timeout =>
        OneMoreEvent(events, Silence, x.req);
        MorePutThere(w.net, Sent(events, |events|, x.req), Sends(w.c, Silence, x.req));
        events := events + [Silence];
      case Deliver(p) =>
        if p in w.net && p.ToClient? && Listens(w.c, p.port) {
          var e := Arrival(p.port, Clip(p.d));
          OneMoreEvent(events, e, x.req);
          MorePutThere(w.net, Sent(events, |events|, x.req), Sends(w.c, e, x.req));
          events := events + [e];
        }
      case _ =>
        ServerStep(x, w, a);
        ServerPutsNothing(w.net, w'.net, Sent(events, |events|, x.req));
    }
  }

  lemma OnlyRequest(x: Setup)
    ensures RunClient([], 0) == Opening && PutThere(Start(x).net, Sent([], 0, x.req))
  {}

  /** The server's actions leave the client alone and put only packets to it into the network. */
  lemma ServerStep(x: Setup, w: World, a: Action)
    requires !a.Timeout? && !a.Deliver?
    ensures var w' := Apply(x, w, a);
            w'.c == w.c && forall p: Packet :: p.ToServer? ==> (p in w'.net <==> p in w.net)
  {
    hide ParseReq, CheckResp, Block;
  }
}
