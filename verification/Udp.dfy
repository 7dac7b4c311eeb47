/** UDP over IPv4 in ip.c: building a datagram in a frame, and taking a received frame apart. */
module Udp {
  import opened Bytes
  import opened Checksum
  import opened ChecksumFields
  import opened Icmp
  import opened Tasks
  import opened Errors

  // sizes of frame_t, eth_header_t, ipv4_header_t, udp_header_t
  const META: nat := 2
  const ETH: nat := 14
  const IP: nat := 20
  const UDP: nat := 8
  const CAPACITY: nat := 4096 // udp_buff

  const HOP_LIMIT: byte := 255
  const NEXT_HEADER_ICMP: byte := 1

  type Ipv4 = a: seq<byte> | |a| == 4 witness [0, 0, 0, 0]
  type Ipv6 = a: seq<byte> | |a| == 16 witness seq(16, _ => 0)

  /** ipv4_compatible */
  function Compatible(a: Ipv4): Ipv6 {
    Zeros(12) + a
  }

  /** extract_ipv4 */
  function Extract(a: Ipv6): Ipv4 {
    a[12..]
  }

  /** is_ipv4 */
  predicate IsIpv4(a: Ipv6) {
    a[..12] == Zeros(12)
  }

  lemma EmbeddedAddress(a: Ipv4, b: Ipv6)
    ensures Extract(Compatible(a)) == a && IsIpv4(Compatible(a))
    ensures IsIpv4(b) ==> Compatible(Extract(b)) == b
  {
    assert IsIpv4(b) ==> b == b[..12] + b[12..];
  }

  // ---- packets as values ----

  function Be16(x: nat): (bs: seq<byte>)
    ensures |bs| == 2
  {
    [(x / 256 % 256) as byte, (x % 256) as byte]
  }

  function FromBe(bs: seq<byte>, o: nat): nat
    requires o + 2 <= |bs|
  {
    256 * bs[o] as nat + bs[o + 1] as nat
  }

  lemma Be16Back(x: nat)
    requires x <= ONES
    ensures 256 * Be16(x)[0] as nat + Be16(x)[1] as nat == x
  {}

  /** An IPv4 header as send_udp fills it, with the checksum field still zero. */
  function IpHeader(total: nat, next: byte, src: Ipv4, dst: Ipv4): (h: seq<byte>)
    ensures |h| == IP
  {
    [0x45, 0] + Be16(total) + [0, 0, 0, 0, HOP_LIMIT, next, 0, 0] + src + dst
  }

  function UdpHeader(sport: nat, dport: nat, len: nat): (h: seq<byte>)
    ensures |h| == UDP
  {
    Be16(sport) + Be16(dport) + Be16(len) + [0, 0]
  }

  function Segment(src: Ipv4, dst: Ipv4, sport: nat, dport: nat, payload: seq<byte>): (s: seq<byte>)
    requires UDP + |payload| <= ONES
    ensures |s| == UDP + |payload|
  {
    var s := UdpHeader(sport, dport, UDP + |payload|) + payload;
    SetField(s, 6, L4Checksum(src, dst, NEXT_HEADER_UDP, s))
  }

  /** The IP packet of one datagram. */
  function Packet(src: Ipv4, dst: Ipv4, sport: nat, dport: nat, payload: seq<byte>): (p: seq<byte>)
    requires UDP + |payload| <= ONES
    ensures |p| == IP + UDP + |payload|
  {
    var h := IpHeader(IP + UDP + |payload|, NEXT_HEADER_UDP as byte, src, dst);
    SetField(h, 10, Computed(h, 10)) + Segment(src, dst, sport, dport, payload)
  }

  // ---- the receiver ----

  /** What handle_ipv4 comes to: an error code, a datagram for task_dispatch_udp, or a message
      for do_icmpv4_echo. */
  datatype Outcome = Ret(code: int) | ToTask(d: Arrived) | ToEcho(m: seq<byte>)

  /** handle_udp for len bytes of UDP. */
  function HandleUdp(saddr: Ipv4, s: seq<byte>): Outcome {
    if |s| < UDP then Ret(-EOOB)
    else if |s| < FromBe(s, 4) then Ret(-EOOB)
    else if FromBe(s, 4) < UDP then Ret(-EBADPKT)
    else ToTask(Arrived(FromBe(s, 2), FromLe(Compatible(saddr)), FromBe(s, 0), s[UDP..FromBe(s, 4)]))
  }

  /** handle_icmpv4 for the message of the packet. */
  function HandleIcmp(m: seq<byte>): Outcome
    requires |m| <= ONES
  {
    if |m| < 8 then Ret(-EOOB)
    else if !Verifies(m) then Ret(-EBADPKT)
    else if m[0] != ECHO_REQUEST then Ret(-ENOIMPL)
    else if m[1] != 0 then Ret(-EBADPKT)
    else ToEcho(m)
  }

  /** handle_ipv4 for a frame of len bytes in the receive buffer f, at an interface with
      address me. */
  function HandleIpv4(f: seq<byte>, len: nat, me: Ipv4, ready: bool): Outcome
    requires len <= |f|
  {
    if len < ETH + IP then Ret(-EOOB)
    else
      var h := f[ETH..ETH + IP];
      var total := FromBe(h, 2);
      if h[0] / 16 != 4 then Ret(-EBADPKT)
      else if h[0] % 16 != 5 then Ret(-ENOIMPL)
      else if !Verifies(h) then Ret(-EBADPKT)
      else if len < ETH + total then Ret(-EOOB)
      else if total < IP then Ret(-EBADPKT)
      else if h[16..20] != me && me != [0, 0, 0, 0] then Ret(0)
      else if !ready && h[9] != NEXT_HEADER_UDP as byte then Ret(0)
      else
        var s := f[ETH + IP..ETH + total];
        if h[9] == NEXT_HEADER_ICMP then HandleIcmp(s)
        else if h[9] == NEXT_HEADER_UDP as byte then
          if |s| < UDP then Ret(-EOOB)
          else if Field(s, 6) != 0 && L4Checksum(h[12..16], h[16..20], NEXT_HEADER_UDP, s) != 0 then Ret(-EBADPKT)
          else HandleUdp(h[12..16], s)
        else Ret(-ENOIMPL)
  }

  // ---- the round trip ----

  lemma HeaderFields(total: nat, next: byte, src: Ipv4, dst: Ipv4, c: nat)
    requires total <= ONES && c <= ONES
    ensures var h := SetField(IpHeader(total, next, src, dst), 10, c);
            && h[0] == 0x45 && FromBe(h, 2) == total && h[9] == next && h[12..16] == src && h[16..20] == dst
  {
    Be16Back(total);
  }

  lemma SegmentFields(sport: nat, dport: nat, payload: seq<byte>, c: nat)
    requires sport <= ONES && dport <= ONES && UDP + |payload| <= ONES && c <= ONES
    ensures var s := SetField(UdpHeader(sport, dport, UDP + |payload|) + payload, 6, c);
            && FromBe(s, 0) == sport && FromBe(s, 2) == dport && FromBe(s, 4) == UDP + |payload| == |s|
            && s[UDP..] == payload
  {
    Be16Back(sport);
    Be16Back(dport);
    Be16Back(UDP + |payload|);
  }

  /** The UDP checksum the sender stores is accepted by the receiver. */
  lemma SegmentVerifies(src: Ipv4, dst: Ipv4, sport: nat, dport: nat, payload: seq<byte>)
    requires UDP + |payload| <= ONES
    ensures L4Checksum(src, dst, NEXT_HEADER_UDP, Segment(src, dst, sport, dport, payload)) == 0
  {
    hide SumAll, SetField, Final, Swap;
    var s := UdpHeader(sport, dport, UDP + |payload|) + payload;
    var c := L4Checksum(src, dst, NEXT_HEADER_UDP, s);
    assert Field(s, 6) == 0;
    SumOfField(s, 6, c);
    L4SumBound(src, dst, NEXT_HEADER_UDP, s);
    L4SumBound(src, dst, NEXT_HEADER_UDP, SetField(s, 6, c));
    Accepted(L4Sum(src, dst, NEXT_HEADER_UDP, s), c);
  }

  /** A datagram that is sent arrives: whatever padding follows it in the frame, a receiver with
      the destination address (or none yet) passes source, ports and payload on unchanged. */
  lemma SentIsReceived(f: seq<byte>, len: nat, me: Ipv4, ready: bool,
                       src: Ipv4, dst: Ipv4, sport: nat, dport: nat, payload: seq<byte>)
    requires sport <= ONES && dport <= ONES && IP + UDP + |payload| <= ONES
    requires ETH + IP + UDP + |payload| <= len <= |f|
    requires f[ETH..ETH + IP + UDP + |payload|] == Packet(src, dst, sport, dport, payload)
    requires me == dst || me == [0, 0, 0, 0]
    ensures HandleIpv4(f, len, me, ready) == ToTask(Arrived(dport, FromLe(Compatible(src)), sport, payload))
  {
    hide IpHeader, Segment, SetField, Verifies, L4Checksum, UdpHeader, Compatible, Computed;
    var total := IP + UDP + |payload|;
    var p := Packet(src, dst, sport, dport, payload);
    var h := IpHeader(total, NEXT_HEADER_UDP as byte, src, dst);
    var c := Computed(h, 10);
    HeaderFields(total, NEXT_HEADER_UDP as byte, src, dst, c);
    StoredVerifies(h, 10);
    var s := Segment(src, dst, sport, dport, payload);
    assert f[ETH..ETH + IP] == p[..IP] == SetField(h, 10, c);
    assert f[ETH + IP..ETH + total] == p[IP..] == s;
    SegmentVerifies(src, dst, sport, dport, payload);
    SegmentIs(src, dst, sport, dport, payload);
  }

  lemma SegmentIs(src: Ipv4, dst: Ipv4, sport: nat, dport: nat, payload: seq<byte>)
    requires sport <= ONES && dport <= ONES && UDP + |payload| <= ONES
    ensures var s := Segment(src, dst, sport, dport, payload);
            && FromBe(s, 0) == sport && FromBe(s, 2) == dport && FromBe(s, 4) == |s| && s[UDP..] == payload
  {
    SegmentFields(sport, dport, payload,
                  L4Checksum(src, dst, NEXT_HEADER_UDP, UdpHeader(sport, dport, UDP + |payload|) + payload));
  }

  // ---- byte by byte ----

  /** A frame of len bytes carries a whole IPv4 packet without options for an interface with address me,
      or with none yet, and the header checksum is right. */
  predicate GoodPacket(f: seq<byte>, len: nat, me: Ipv4) {
    && 34 <= len <= |f| && f[14] == 0x45 && Verifies(f[14..34])
    && (f[30..34] == me || me == [0, 0, 0, 0])
    && 20 <= 256 * f[16] as nat + f[17] as nat <= len - 14
  }

  /** Behind its header is a UDP datagram whose length is in range, without a checksum or with a right one. */
  predicate GoodDatagram(f: seq<byte>)
    requires |f| >= 34 && 20 <= 256 * f[16] as nat + f[17] as nat <= |f| - 14
  {
    var end := 14 + 256 * f[16] as nat + f[17] as nat;
    && f[23] == 17 && 42 <= end && 8 <= 256 * f[38] as nat + f[39] as nat <= end - 34
    && ((f[40] == 0 && f[41] == 0) || L4Checksum(f[26..30], f[30..34], 17, f[34..end]) == 0)
  }

  /** The same for an echo request. */
  predicate GoodEcho(f: seq<byte>)
    requires |f| >= 34 && 20 <= 256 * f[16] as nat + f[17] as nat <= |f| - 14
  {
    var end := 14 + 256 * f[16] as nat + f[17] as nat;
    f[23] == 1 && 42 <= end && Verifies(f[34..end]) && f[34] == 8 && f[35] == 0
  }

  /** Exactly the good datagrams go to a task, with the ports, source address and payload they carry,
      and exactly the good echo requests are answered, once there is an address. */
  lemma GoodIsReceived(f: seq<byte>, len: nat, me: Ipv4, ready: bool)
    requires len <= |f|
    ensures var o := HandleIpv4(f, len, me, ready);
            && (o.ToTask? <==> GoodPacket(f, len, me) && GoodDatagram(f))
            && (o.ToTask? ==>
                  && o.d.dport == 256 * f[36] as nat + f[37] as nat && o.d.sport == 256 * f[34] as nat + f[35] as nat
                  && o.d.saddr == FromLe(Zeros(12) + f[26..30])
                  && o.d.payload == f[42..34 + 256 * f[38] as nat + f[39] as nat])
            && (o.ToEcho? <==> GoodPacket(f, len, me) && GoodEcho(f) && ready)
            && (o.ToEcho? ==> o.m == f[34..14 + 256 * f[16] as nat + f[17] as nat])
  {
    hide Verifies, L4Checksum, FromLe;
    if len >= 34 {
      var h := f[14..34];
      assert h[12..16] == f[26..30] && h[16..20] == f[30..34];
      var end := 14 + 256 * f[16] as nat + f[17] as nat;
      if 34 <= end <= len {
        var s := f[34..end];
        if GoodDatagram(f) {
          var n := 256 * f[38] as nat + f[39] as nat;
          SliceOfSlice(f, 34, end - 34, 8, n - 8);
        }
      }
    }
  }

  lemma HeaderBytes(total: nat, src: Ipv4, dst: Ipv4, c: nat)
    requires total <= ONES && c <= ONES
    ensures var h := SetField(IpHeader(total, NEXT_HEADER_UDP as byte, src, dst), 10, c);
            && h[..10] == [0x45, 0, (total / 256) as byte, (total % 256) as byte, 0, 0, 0, 0, 255, 17]
            && h[12..16] == src && h[16..20] == dst
  {}

  lemma SegmentBytes(src: Ipv4, dst: Ipv4, sport: nat, dport: nat, payload: seq<byte>)
    requires sport <= ONES && dport <= ONES && UDP + |payload| <= ONES
    ensures var s, len := Segment(src, dst, sport, dport, payload), 8 + |payload|;
            && s[..6] == [(sport / 256) as byte, (sport % 256) as byte, (dport / 256) as byte, (dport % 256) as byte,
                          (len / 256) as byte, (len % 256) as byte]
            && s[8..] == payload
  {
    hide L4Checksum;
  }

  /** The bytes of a packet that is sent: version 4, no options, identification and flags zero, hop
      limit 255, next header 17, addresses, ports and lengths in network byte order. */
  lemma PacketBytes(src: Ipv4, dst: Ipv4, sport: nat, dport: nat, payload: seq<byte>)
    requires sport <= ONES && dport <= ONES && IP + UDP + |payload| <= ONES
    ensures var p, total, len := Packet(src, dst, sport, dport, payload), 28 + |payload|, 8 + |payload|;
            && p[..10] == [0x45, 0, (total / 256) as byte, (total % 256) as byte, 0, 0, 0, 0, 255, 17]
            && p[12..16] == src && p[16..20] == dst && Verifies(p[..20])
            && p[20..26] == [(sport / 256) as byte, (sport % 256) as byte, (dport / 256) as byte,
                             (dport % 256) as byte, (len / 256) as byte, (len % 256) as byte]
            && p[28..] == payload && L4Checksum(src, dst, 17, p[20..]) == 0
  {
    hide L4Checksum, Computed, Verifies, IpHeader, Segment, SetField;
    var total := IP + UDP + |payload|;
    var h := IpHeader(total, NEXT_HEADER_UDP as byte, src, dst);
    var p := Packet(src, dst, sport, dport, payload);
    StoredVerifies(h, 10);
    SegmentVerifies(src, dst, sport, dport, payload);
    HeaderBytes(total, src, dst, Computed(h, 10));
    SegmentBytes(src, dst, sport, dport, payload);
    PacketParts(p, SetField(h, 10, Computed(h, 10)), Segment(src, dst, sport, dport, payload));
  }

  lemma PacketParts(p: seq<byte>, h: seq<byte>, s: seq<byte>)
    requires p == h + s && |h| == 20 && |s| >= 8
    ensures p[..20] == h && p[20..] == s && p[..10] == h[..10] && p[12..16] == h[12..16] && p[16..20] == h[16..20]
    ensures p[20..26] == s[..6] && p[28..] == s[8..]
  {}
}
