/** tftp_get_file, one return of recv_udp at a time. */
module TftpRead {
  import opened Bytes
  import opened Errors
  import opened TftpBlocks
  import opened Tftp

  // ---- the client, one return of recv_udp at a time ----

  /** The loops of tftp_get_file. Transfer: blocks up to window - 1 are in the buffer. */
  datatype Reader =
    | Opening
    | Transfer(server: nat, window: nat, data: seq<byte>)
    | Done(ret: int, data: seq<byte>)

  function DataOf(c: Reader): seq<byte> {
    if c.Opening? then [] else c.data
  }

  function OnFirst(sport: nat, d: Datagram): Reader {
    var r := CheckResp(d, OP_DATA);
    if r < 0 then Done(r, [])
    else if Seq(d) != 1 then Done(-EBADPKT, [])
    else if |d[4..]| < CHUNK then Done(0, d[4..])
    else Transfer(sport, 2, d[4..])
  }

  function OnNext(c: Reader, d: Datagram): Reader
    requires c.Transfer?
  {
    var r := CheckResp(d, OP_DATA);
    if r < 0 then Done(r, c.data)
    else if Seq(d) != c.window then c
    else if |d[4..]| < CHUNK then Done(0, c.data + d[4..])
    else Transfer(c.server, (c.window + 1) % WRAP, c.data + d[4..])
  }

  function OnEvent(c: Reader, e: Event): Reader {
    match c
    case Opening => if Received(e) then OnFirst(e.sport, e.d) else Opening
    case Transfer(_, _, data) => if Received(e) then OnNext(c, e.d) else Done(-EBADPKT, data)
    case Done(_, _) => c
  }

  /** What the client sends in answer to e: destination port and datagram. */
  function Sends(c: Reader, e: Event, req: Datagram): seq<(nat, Datagram)> {
    match c
    case Opening =>
      if !Received(e) then [(SERVER_PORT, req)]
      else if CheckResp(e.d, OP_DATA) < 0 || Seq(e.d) != 1 then []
      else [(e.sport, AckOf(e.d))]
    case Transfer(server, _, _) =>
      if !Received(e) || CheckResp(e.d, OP_DATA) < 0 then [] else [(server, AckOf(e.d))]
    case Done(_, _) => []
  }

  /** The client after the first n events. */
  function RunClient(events: seq<Event>, n: nat): Reader
    requires n <= |events|
  {
    if n == 0 then Opening else OnEvent(RunClient(events, n - 1), events[n - 1])
  }

  function Sent(events: seq<Event>, n: nat, req: Datagram): seq<(nat, Datagram)>
    requires n <= |events|
  {
    if n == 0 then [(SERVER_PORT, req)]
    else Sent(events, n - 1, req) + Sends(RunClient(events, n - 1), events[n - 1], req)
  }

  /** The buffer only grows, and a finished client stays as it is. */
  lemma {:induction false} ClientGrows(events: seq<Event>, i: nat, n: nat, req: Datagram)
    requires i <= n <= |events|
    ensures DataOf(RunClient(events, i)) <= DataOf(RunClient(events, n))
    ensures RunClient(events, i).Done? ==>
              RunClient(events, n) == RunClient(events, i) && Sent(events, n, req) == Sent(events, i, req)
  {
    if i < n {
      ClientGrows(events, i, n - 1, req);
    }
  }

  lemma OpeningStep(events: seq<Event>, i: nat, req: Datagram)
    requires i < |events| && RunClient(events, i) == Opening
    ensures RunClient(events, i + 1) == if Received(events[i]) then OnFirst(events[i].sport, events[i].d) else Opening
    ensures Sent(events, i + 1, req) == Sent(events, i, req) + Sends(Opening, events[i], req)
  {}

  lemma TransferStep(events: seq<Event>, i: nat, req: Datagram, c: Reader)
    requires i < |events| && RunClient(events, i) == c && c.Transfer?
    ensures RunClient(events, i + 1) == if Received(events[i]) then OnNext(c, events[i].d) else Done(-EBADPKT, c.data)
    ensures Sent(events, i + 1, req) == Sent(events, i, req) +
                                        if !Received(events[i]) || CheckResp(events[i].d, OP_DATA) < 0 then []
                                        else [(c.server, AckOf(events[i].d))]
  {}

  /** Once at the start, and once more for every timeout, the request is sent. */
  lemma {:induction false} OpeningRepeats(events: seq<Event>, i: nat, req: Datagram)
    requires i <= |events| && RunClient(events, i).Opening?
    ensures Sent(events, i, req) == seq(i + 1, _ => (SERVER_PORT, req))
    ensures forall j :: 0 <= j < i ==> !Received(events[j])
  {
    hide CheckResp, AckOf;
    if i > 0 {
      OpeningRepeats(events, i - 1, req);
    }
  }

  /** The first loop of tftp_get_file: ask until something comes. */
  method Open(req: Datagram, events: seq<Event>) returns (i: nat, sent: seq<(nat, Datagram)>)
    ensures i <= |events| && RunClient(events, i) == Opening && sent == Sent(events, i, req)
    ensures i < |events| ==> Received(events[i])
    ensures forall j :: 0 <= j < i ==> !Received(events[j])
    ensures sent == seq(i + 1, _ => (SERVER_PORT, req))
  {
    i, sent := 0, [(SERVER_PORT, req)];
    while i < |events| && !Received(events[i])
      invariant i <= |events| && RunClient(events, i) == Opening && sent == Sent(events, i, req)
      invariant forall j :: 0 <= j < i ==> !Received(events[j])
      invariant sent == seq(i + 1, _ => (SERVER_PORT, req))
    {
      sent := sent + [(SERVER_PORT, req)];
      i := i + 1;
    }
  }

  /** tftp_get_file over what recv_udp returns; out is false while it is still running when the
      events end. The source does not look at the size of the buffer: overrun stands for the first
      memcpy that would leave it. That happens exactly when the client's data does not fit. */
  method GetFile(req: Datagram, events: seq<Event>, buff: array<byte>)
    returns (overrun: bool, out: bool, ret: int, len: nat, sent: seq<(nat, Datagram)>)
    modifies buff
    ensures overrun <==> |DataOf(RunClient(events, |events|))| > buff.Length
    ensures !overrun ==>
              var c := RunClient(events, |events|);
              && out == c.Done? && (out ==> ret == c.ret)
              && len == |DataOf(c)| && buff[..len] == DataOf(c)
              && sent == Sent(events, |events|, req)
    ensures len <= buff.Length && buff[..len] <= DataOf(RunClient(events, |events|))
    ensures forall k :: len <= k < buff.Length ==> buff[k] == old(buff[k])
  {
    hide RunClient, Sent, CheckResp, AckOf, OnFirst;
    var i;
    i, sent := Open(req, events);
    if i == |events| {
      return false, false, 0, 0, sent;
    }
    OpeningStep(events, i, req);
    ClientGrows(events, i + 1, |events|, req);
    var server := events[i].sport;
    overrun, out, ret, len := TakeFirst(server, events[i].d, buff);
    if !overrun {
      if !out || ret == 0 {
        sent := sent + [(server, AckOf(events[i].d))];
      }
      if !out {
        overrun, out, ret, len, sent := GetRest(req, events, i + 1, buff, server, len, sent);
      }
    }
  }

  /** The first packet that came: an error, the whole file, or its first block. */
  method TakeFirst(server: nat, d: Datagram, buff: array<byte>) returns (overrun: bool, out: bool, ret: int, len: nat)
    modifies buff
    ensures overrun <==> |DataOf(OnFirst(server, d))| > buff.Length
    ensures overrun ==> len == 0
    ensures !overrun ==>
              var c := OnFirst(server, d);
              && len == |DataOf(c)| <= buff.Length && buff[..len] == DataOf(c)
              && if out then c == Done(ret, buff[..len]) else c == Transfer(server, 2, buff[..len])
    ensures !overrun && (!out || ret == 0) ==> CheckResp(d, OP_DATA) == 0 && Seq(d) == 1
    ensures !overrun && out && ret != 0 ==> CheckResp(d, OP_DATA) < 0 || Seq(d) != 1
    ensures forall k :: len <= k < buff.Length ==> buff[k] == old(buff[k])
  {
    hide CheckResp;
    overrun, out, ret, len := false, true, CheckResp(d, OP_DATA), 0;
    if ret < 0 {
      return;
    }
    if Seq(d) != 1 {
      ret := -EBADPKT;
      return;
    }
    var payload := d[4..];
    if |payload| > buff.Length {
      overrun := true;
      return;
    }
    len := Append(buff, 0, payload);
    assert buff[..len] == payload;
    out := len < CHUNK;
  }

  /** The second loop of tftp_get_file. */
  method GetRest(req: Datagram, events: seq<Event>, at: nat, buff: array<byte>, server: nat, had: nat,
                 before: seq<(nat, Datagram)>)
    returns (overrun: bool, out: bool, ret: int, len: nat, sent: seq<(nat, Datagram)>)
    requires at <= |events| && had <= buff.Length && before == Sent(events, at, req)
    requires RunClient(events, at) == Transfer(server, 2, buff[..had])
    modifies buff
    ensures overrun <==> |DataOf(RunClient(events, |events|))| > buff.Length
    ensures !overrun ==>
              var c := RunClient(events, |events|);
              && out == c.Done? && (out ==> ret == c.ret)
              && len == |DataOf(c)| && buff[..len] == DataOf(c)
              && sent == Sent(events, |events|, req)
    ensures had <= len <= buff.Length && buff[..len] <= DataOf(RunClient(events, |events|))
    ensures forall k :: len <= k < buff.Length ==> buff[k] == old(buff[k])
  {
    hide RunClient, Sent, CheckResp;
    overrun, out, ret, len, sent := false, true, 0, had, before;
    var window: nat, i := 2, at;
    while i < |events|
      invariant at <= i <= |events| && sent == Sent(events, i, req) && !overrun && out
      invariant had <= len <= buff.Length && RunClient(events, i) == Transfer(server, window, buff[..len])
      invariant forall k :: len <= k < buff.Length ==> buff[k] == old(buff[k])
    {
      TransferStep(events, i, req, Transfer(server, window, buff[..len]));
      ClientGrows(events, i + 1, |events|, req);
      if !Received(events[i]) {
        ret := -EBADPKT;
        return;
      }
      var d := events[i].d;
      ret := CheckResp(d, OP_DATA);
      if ret < 0 {
        return;
      }
      sent := sent + [(server, AckOf(d))];
      i := i + 1;
      if Seq(d) == window {
        var payload := d[4..];
        if len + |payload| > buff.Length {
          overrun := true;
          return;
        }
        len := Append(buff, len, payload);
        if |payload| < CHUNK {
          return;
        }
        window := (window + 1) % WRAP;
      }
    }
    out := false;
  }

  /** memcpy to the cursor u8buff, and advancing it. */
  method Append(buff: array<byte>, len: nat, bs: seq<byte>) returns (n: nat)
    requires len + |bs| <= buff.Length
    modifies buff
    ensures n == len + |bs| && buff[..n] == old(buff[..len]) + bs
    ensures forall k :: n <= k < buff.Length ==> buff[k] == old(buff[k])
  {
    for k := 0 to |bs|
      invariant buff[..len + k] == old(buff[..len]) + bs[..k]
      invariant forall j :: len + k <= j < buff.Length ==> buff[j] == old(buff[j])
    {
      buff[len + k] := bs[k];
    }
    n := len + |bs|;
  }
}
