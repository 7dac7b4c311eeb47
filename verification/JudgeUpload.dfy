/** tftp_put_file with judge_read_block: the user's standard output on its way to the server. */
module JudgeUpload {
  import opened Bytes
  import opened Sv39
  import opened AddressSpace
  import opened Errors
  import opened JudgeOutput
  import opened TftpBlocks
  import opened Tftp
  import opened TftpWrite
  import Judge

  /** All blocks of the output lie in mapped pages, also the empty one that may end it. */
  ghost predicate Readable(v: View, buff: nat, len: nat) {
    && buff % CHUNK == 0
    && forall k: nat :: k <= len / CHUNK ==> BlockPage(buff, k) < VPNS && BlockPage(buff, k) in v
  }

  function BlockPage(buff: nat, k: nat): nat {
    (buff + CHUNK * k) / PGSIZE
  }

  lemma OpeningStep(file: seq<byte>, events: seq<Event>, i: nat, req: Datagram)
    requires i < |events| && RunClient(file, events, i) == Opening
    ensures var e := events[i];
            var r := RunClient(file, events, i + 1);
            && (!Received(e) ==>
                  && r == Opening
                  && Sent(file, events, i + 1, req) == Sent(file, events, i, req) + [(SERVER_PORT, req)])
            && (Received(e) && CheckResp(e.d, OP_ACK) < 0 ==> r == Done(CheckResp(e.d, OP_ACK), e.sport, 0))
            && (Received(e) && CheckResp(e.d, OP_ACK) == 0 ==>
                  r == if Seq(e.d) != 0 then Done(-EBADPKT, e.sport, 0) else Sending(e.sport, 1, 1))
            && (r.Done? ==> Sent(file, events, i + 1, req) == Sent(file, events, i, req))
            && (r.Sending? ==> Sent(file, events, i + 1, req)
                               == Sent(file, events, i, req) + [(e.sport, Data(1, Block(file, 0)))])
  {}

  lemma SendingStep(file: seq<byte>, events: seq<Event>, i: nat, req: Datagram, c: Writer)
    requires i < |events| && RunClient(file, events, i) == c && c.Sending?
    ensures var e := events[i];
            var r := RunClient(file, events, i + 1);
            var before, after := Sent(file, events, i, req), Sent(file, events, i + 1, req);
            if !Received(e) then r == c && after == before + [(c.server, Data(c.window, Current(file, c)))]
            else if CheckResp(e.d, OP_ACK) < 0
            then r == Done(CheckResp(e.d, OP_ACK), c.server, c.calls) && after == before
            else if Seq(e.d) != c.window then r == c && after == before
            else Acked(file, c, r, before, after)
  {
    hide Data, Block, CheckResp;
    NewWindow(c.window);
  }

  lemma NewWindow(w: nat)
    ensures (w + 1) % WRAP != w
  {}

  /** The packet with the current number has been acknowledged: the end, or the next packet. */
  ghost predicate Acked(file: seq<byte>, c: Writer, r: Writer, before: seq<(nat, Datagram)>,
                        after: seq<(nat, Datagram)>)
    requires c.Sending? && c.calls > 0
  {
    if |Current(file, c)| < CHUNK then r == Done(0, c.server, c.calls) && after == before
    else
      && r == Sending(c.server, (c.window + 1) % WRAP, c.calls + 1)
      && after == before + [(c.server, Data(r.window, Current(file, r)))]
  }

  /** The first loop of tftp_put_file. */
  method Open(ghost file: seq<byte>, req: Datagram, events: seq<Event>) returns (i: nat, sent: seq<(nat, Datagram)>)
    ensures i <= |events| && RunClient(file, events, i) == Opening && sent == Sent(file, events, i, req)
    ensures i < |events| ==> Received(events[i])
    ensures sent == seq(i + 1, _ => (SERVER_PORT, req))
  {
    i, sent := 0, [(SERVER_PORT, req)];
    while i < |events| && !Received(events[i])
      invariant i <= |events| && RunClient(file, events, i) == Opening && sent == Sent(file, events, i, req)
      invariant sent == seq(i + 1, _ => (SERVER_PORT, req))
    {
      OpeningStep(file, events, i, req);
      sent := sent + [(SERVER_PORT, req)];
      i := i + 1;
    }
  }

  /** The inner loop of tftp_put_file: send the packet again on every timeout until it is
      acknowledged; ret is 0 unless an error came. */
  method AwaitAck(ghost file: seq<byte>, req: Datagram, events: seq<Event>, at: nat, ghost c: Writer,
                  server: nat, window: nat, packet: Datagram, before: seq<(nat, Datagram)>)
    returns (acked: bool, ret: int, i: nat, sent: seq<(nat, Datagram)>)
    requires at <= |events| && RunClient(file, events, at) == c && c.Sending? && server == c.server
    requires window == c.window
    requires before == Sent(file, events, at, req) && packet == Data(window, Current(file, c))
    ensures at <= i <= |events|
    ensures acked ==> at < i && ret == 0 && Acked(file, c, RunClient(file, events, i), sent, Sent(file, events, i, req))
    ensures !acked ==> sent == Sent(file, events, i, req)
    ensures !acked && ret != 0 ==> RunClient(file, events, i) == Done(ret, c.server, c.calls)
    ensures !acked && ret == 0 ==> i == |events| && RunClient(file, events, i) == c
  {
    hide RunClient, Sent, CheckResp, Data, Block, Acked;
    acked, ret, i, sent := false, 0, at, before;
    while i < |events|
      invariant at <= i <= |events| && RunClient(file, events, i) == c && sent == Sent(file, events, i, req) && ret == 0
    {
      var e := events[i];
      SendingStep(file, events, i, req, c);
      i := i + 1;
      if !Received(e) {
        sent := sent + [(server, packet)];
      } else {
        ret := CheckResp(e.d, OP_ACK);
        if ret < 0 {
          return;
        }
        if Seq(e.d) == window {
          acked := true;
          return;
        }
      }
    }
  }

  /** What the context of judge_read_block is before call k + 1. */
  lemma NextBlock(v: View, buff: nat, len: nat, k: nat)
    requires Readable(v, buff, len) && k < NumBlocks(UserBytes(v, buff, len))
    ensures CHUNK * k <= len && (buff + CHUNK * k) % CHUNK == 0
    ensures BlockPage(buff, k) < VPNS && BlockPage(buff, k) in v
    ensures var n := Min(len - CHUNK * k, CHUNK);
            && UserBytes(v, buff + CHUNK * k, n) == Block(UserBytes(v, buff, len), k)
            && (n == CHUNK ==> k + 1 < NumBlocks(UserBytes(v, buff, len)))
  {
    hide UserBytes;
    assert |UserBytes(v, buff, len)| == len;
    BlockOfOutput(v, buff, len, k);
    Multiple(buff, k);
    BlockSize(UserBytes(v, buff, len), k);
  }

  lemma Multiple(buff: nat, k: nat)
    requires buff % CHUNK == 0
    ensures (buff + CHUNK * k) % CHUNK == 0
  {}

  /** tftp_put_file over what recv_udp returns; out is false while it is still running when the
      events end. What it sends is what the client of TftpWrite sends for the file that the
      user left in its output buffer. */
  method PutOutput(d: Judge.Daemon, ctx: ReadContext, packet: array<byte>, req: Datagram, events: seq<Event>)
    returns (out: bool, ret: int, sent: seq<(nat, Datagram)>)
    requires ctx.pt != 0 && d.vm.Holds(ctx.pt) && packet.Length >= CHUNK
    requires Readable(d.vm.View(ctx.pt), ctx.buff, ctx.len)
    modifies d.vm.alloc`next, d.vm.alloc`used, d.vm.alloc`bits, d.vm.mem, ctx, packet
    ensures d.vm.State() == old(d.vm.State())
    ensures var file := UserBytes(old(d.vm.View(ctx.pt)), old(ctx.buff), old(ctx.len));
            var c := RunClient(file, events, |events|);
            && out == c.Done? && (out ==> ret == c.ret) && sent == Sent(file, events, |events|, req)
  {
    hide RunClient, Sent, CheckResp, Data, Block, UserBytes, Readable, NumBlocks, Inv, ViewOf;
    ghost var s, v, va, all := d.vm.State(), d.vm.View(ctx.pt), ctx.buff, ctx.len;
    ghost var file := UserBytes(v, va, all);
    var i;
    i, sent := Open(file, req, events);
    out, ret := true, 0;
    if i == |events| {
      return false, 0, sent;
    }
    OpeningStep(file, events, i, req);
    var server, d0 := events[i].sport, events[i].d;
    i := i + 1;
    ret := CheckResp(d0, OP_ACK);
    if ret == 0 && Seq(d0) != 0 {
      ret := -EBADPKT;
    }
    if ret < 0 {
      DoneStays(file, events, i, |events|, req);
      return;
    }
    var window: nat := 1;
    ghost var k: nat := 0;
    SomeBlock(file);
    while true
      invariant i <= |events| && ret == 0 && out && d.vm.State() == s
      invariant k < NumBlocks(file) && ctx.pt == old(ctx.pt) && ctx.buff == va + CHUNK * k && ctx.len == all - CHUNK * k
      invariant RunClient(file, events, i) == Sending(server, window, k + 1)
      invariant Sent(file, events, i, req) == sent + [(server, Data(window, Block(file, k)))]
      decreases |events| - i
    {
      NextBlock(v, va, all, k);
      var n := ReadBlock(d, ctx, packet);
      var block := packet[..n];
      var data := Data(window, block);
      sent := sent + [(server, data)];
      var acked;
      ghost var c := Sending(server, window, k + 1);
      acked, ret, i, sent := AwaitAck(file, req, events, i, c, server, window, data, sent);
      if !acked {
        if ret != 0 {
          DoneStays(file, events, i, |events|, req);
        } else {
          out := false;
        }
        return;
      }
      if n < CHUNK {
        DoneStays(file, events, i, |events|, req);
        return;
      }
      window := (window + 1) % WRAP;
      k := k + 1;
    }
  }
}
