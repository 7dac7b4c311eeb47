/** tftp_put_file, one return of recv_udp at a time. read_block hands out the blocks of file. */
module TftpWrite {
  import opened Bytes
  import opened Errors
  import opened TftpBlocks
  import opened Tftp

  /** The loops of tftp_put_file. calls counts the calls of read_block: the packet being sent
      carries block calls - 1 under the number window. */
  datatype Writer =
    | Opening
    | Sending(server: nat, window: nat, calls: nat)
    | Done(ret: int, server: nat, calls: nat)

  function Current(file: seq<byte>, c: Writer): seq<byte>
    requires !c.Opening? && c.calls > 0
  {
    Block(file, c.calls - 1)
  }

  predicate WellFormed(c: Writer) {
    c.Sending? ==> c.calls > 0
  }

  function OnEvent(file: seq<byte>, c: Writer, e: Event): (r: Writer)
    requires WellFormed(c)
    ensures WellFormed(r)
  {
    match c
    case Opening =>
      if !Received(e) then Opening
      else if CheckResp(e.d, OP_ACK) < 0 then Done(CheckResp(e.d, OP_ACK), e.sport, 0)
      else if Seq(e.d) != 0 then Done(-EBADPKT, e.sport, 0)
      else Sending(e.sport, 1, 1)
    case Sending(server, window, calls) =>
      if !Received(e) then c
      else if CheckResp(e.d, OP_ACK) < 0 then Done(CheckResp(e.d, OP_ACK), server, calls)
      else if Seq(e.d) != window then c
      else if |Current(file, c)| < CHUNK then Done(0, server, calls)
      else Sending(server, (window + 1) % WRAP, calls + 1)
    case Done(_, _, _) => c
  }

  /** A packet goes out when an exchange begins and whenever recv_udp times out. */
  function Sends(file: seq<byte>, c: Writer, e: Event, req: Datagram): seq<(nat, Datagram)>
    requires WellFormed(c)
  {
    var c' := OnEvent(file, c, e);
    if c.Opening? && c'.Opening? then [(SERVER_PORT, req)]
    else if c'.Sending? && (!Received(e) || c' != c) then [(c'.server, Data(c'.window, Current(file, c')))]
    else []
  }

  /** The client after the first n events. */
  function RunClient(file: seq<byte>, events: seq<Event>, n: nat): (c: Writer)
    requires n <= |events|
    ensures WellFormed(c)
  {
    if n == 0 then Opening else OnEvent(file, RunClient(file, events, n - 1), events[n - 1])
  }

  function Sent(file: seq<byte>, events: seq<Event>, n: nat, req: Datagram): seq<(nat, Datagram)>
    requires n <= |events|
  {
    if n == 0 then [(SERVER_PORT, req)]
    else Sent(file, events, n - 1, req) + Sends(file, RunClient(file, events, n - 1), events[n - 1], req)
  }

  /** read_block has been called once for every packet that was new. */
  predicate Counts(file: seq<byte>, c: Writer) {
    match c
    case Opening => true
    case Sending(_, window, calls) => 0 < calls <= NumBlocks(file) && window == calls % WRAP
    case Done(ret, _, calls) => calls <= NumBlocks(file) && (ret == 0 ==> calls == NumBlocks(file))
  }

  lemma CountsStep(file: seq<byte>, c: Writer, e: Event)
    requires Counts(file, c)
    ensures Counts(file, OnEvent(file, c, e))
  {
    hide Block, CheckResp, NumBlocks;
    if c.Sending? {
      BlockSize(file, c.calls - 1);
      NextNumber(c.calls);
    }
    SomeBlock(file);
  }

  /** read_block is called at most once for every block of the file, also when the block numbers
      have wrapped around. */
  lemma {:induction false} CallsBounded(file: seq<byte>, events: seq<Event>, n: nat)
    requires n <= |events|
    ensures Counts(file, RunClient(file, events, n))
  {
    if n > 0 {
      hide Counts, OnEvent;
      CallsBounded(file, events, n - 1);
      CountsStep(file, RunClient(file, events, n - 1), events[n - 1]);
    } else {
      assert RunClient(file, events, 0) == Opening;
    }
  }

  lemma SomeBlock(file: seq<byte>)
    ensures NumBlocks(file) > 0
  {}

  lemma NextNumber(k: nat)
    ensures (k % WRAP + 1) % WRAP == (k + 1) % WRAP
  {}

  /** Once at the start, and once more for every timeout, the request is sent. */
  lemma {:induction false} OpeningRepeats(file: seq<byte>, events: seq<Event>, i: nat, req: Datagram)
    requires i <= |events| && RunClient(file, events, i).Opening?
    ensures Sent(file, events, i, req) == seq(i + 1, _ => (SERVER_PORT, req))
    ensures forall j :: 0 <= j < i ==> !Received(events[j])
  {
    hide CheckResp, Data, Block;
    if i > 0 {
      OpeningRepeats(file, events, i - 1, req);
    }
  }

  /** While an acknowledgement is awaited, every timeout sends the current packet once more. */
  lemma {:induction false} PacketRepeats(file: seq<byte>, events: seq<Event>, i: nat, m: nat, req: Datagram)
    requires i + m <= |events| && RunClient(file, events, i).Sending?
    requires forall j :: i <= j < i + m ==> !Received(events[j])
    ensures var c := RunClient(file, events, i);
            && RunClient(file, events, i + m) == c
            && Sent(file, events, i + m, req)
               == Sent(file, events, i, req) + seq(m, _ => (c.server, Data(c.window, Block(file, c.calls - 1))))
  {
    hide CheckResp, Data, Block;
    if m > 0 {
      PacketRepeats(file, events, i, m - 1, req);
      assert i + m - 1 == i + (m - 1) && !Received(events[i + m - 1]);
    }
  }

  /** A finished client stays as it is. */
  lemma {:induction false} DoneStays(file: seq<byte>, events: seq<Event>, i: nat, n: nat, req: Datagram)
    requires i <= n <= |events| && RunClient(file, events, i).Done?
    ensures RunClient(file, events, n) == RunClient(file, events, i)
    ensures Sent(file, events, n, req) == Sent(file, events, i, req)
  {
    if i < n {
      DoneStays(file, events, i, n - 1, req);
    }
  }
}
