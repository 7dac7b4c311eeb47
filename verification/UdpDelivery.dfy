/** From send_udp on one machine to the return of recv_udp on another. */
module UdpDelivery {
  import opened Bytes
  import opened Checksum
  import opened Tasks
  import opened Scheduler
  import opened SchedulerSafety
  import opened Udp

  /** Task u, which waited for it, has datagram d in its call of recv_udp. */
  ghost predicate Delivered(s: State, s': State, u: nat, d: Arrived) {
    && u < |s.tasks| && u < |s'.tasks| && !s'.tasks[u].packet.isWaiting
    && s.tasks[u].packet.frame in s'.frames
    && Holds(s'.frames[s.tasks[u].packet.frame], d, s.tasks[u].packet.len)
  }

  /** The clipped payload, and the sender. */
  predicate Holds(f: Frame, d: Arrived, len: nat) {
    && f.outLen == Min(|d.payload|, len) <= |f.buff| && f.buff[..f.outLen] == d.payload[..f.outLen]
    && f.sport == d.sport && f.saddr == d.saddr
  }

  lemma DispatchDelivers(s: State, d: Arrived, u: nat)
    requires Inv(s) && s.current != IDLE && FindUdp(s.tasks, d, 0) == Some(u)
    ensures Inv(Apply(s, Dispatch(d))) && Delivered(s, Apply(s, Dispatch(d)), u, d)
  {
    DispatchSpec(s, d);
    StepIsSafe(s, Dispatch(d));
    var s' := Apply(s, Dispatch(d));
    assert TaskOk(s.tasks[u], u, s.current, s.frames, s.now);
    assert TaskOk(s'.tasks[u], u, s'.current, s'.frames, s'.now);
  }

  /** A datagram that is sent ends up, clipped to the buffer and with its sender, in the call of
      recv_udp of the first task that waits for it. */
  lemma SentIsDelivered(s: State, f: seq<byte>, len: nat, me: Ipv4, ready: bool,
                        src: Ipv4, dst: Ipv4, sport: nat, dport: nat, payload: seq<byte>, u: nat)
    requires Inv(s) && s.current != IDLE
    requires sport <= ONES && dport <= ONES && IP + UDP + |payload| <= ONES
    requires ETH + IP + UDP + |payload| <= len <= |f|
    requires f[ETH..ETH + IP + UDP + |payload|] == Packet(src, dst, sport, dport, payload)
    requires me == dst || me == [0, 0, 0, 0]
    requires FindUdp(s.tasks, Arrived(dport, FromLe(Compatible(src)), sport, payload), 0) == Some(u)
    ensures var d := Arrived(dport, FromLe(Compatible(src)), sport, payload);
            && HandleIpv4(f, len, me, ready) == ToTask(d)
            && Inv(Apply(s, Dispatch(d))) && Delivered(s, Apply(s, Dispatch(d)), u, d)
  {
    hide HandleIpv4, Packet, Compatible, FromLe, Apply, Inv, Delivered;
    InRange(s);
    SentIsReceived(f, len, me, ready, src, dst, sport, dport, payload);
    DispatchDelivers(s, Arrived(dport, FromLe(Compatible(src)), sport, payload), u);
  }

  lemma InRange(s: State)
    requires Inv(s)
    ensures s.current < |s.tasks| && s.rr < |s.tasks|
  {}
}
