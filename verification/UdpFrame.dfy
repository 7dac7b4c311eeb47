/** send_udp, handle_ipv4 and the echo replies of ip.c as they work on a frame buffer. */
module UdpFrame {
  import opened Bytes
  import opened Checksum
  import opened ChecksumFields
  import opened Errors
  import opened Icmp
  import opened Udp

  /** frame_t: the length, and the Ethernet frame from its destination address on. */
  class Frame {
    var len: nat
    const data: array<byte>

    constructor (data: array<byte>)
      ensures this.data == data
    {
      this.data, len := data, 0;
    }
  }

  // ---- parts of a buffer ----

  /** Bytes that are kept keep every slice of them. */
  lemma SliceKept(was: seq<byte>, now: seq<byte>, lo: nat, hi: nat)
    requires |was| == |now| && lo <= hi <= |was| && forall i :: lo <= i < hi ==> now[i] == was[i]
    ensures now[lo..hi] == was[lo..hi]
  {}

  lemma TwoParts(s: seq<byte>, lo: nat, mid: nat, hi: nat)
    requires lo <= mid <= hi <= |s|
    ensures s[lo..hi] == s[lo..mid] + s[mid..hi]
  {}

  /** A new field at offset o of a part of the buffer changes the two bytes at at + o. */
  lemma FieldKeeps(was: seq<byte>, now: seq<byte>, at: nat, n: nat, o: nat, c: nat)
    requires |was| == |now| && at + n <= |was| && o + 2 <= n && c <= ONES
    requires now[at..at + n] == SetField(was[at..at + n], o, c)
    requires forall i :: 0 <= i < |was| && !(at <= i < at + n) ==> now[i] == was[i]
    ensures forall i :: 0 <= i < |was| && i != at + o && i != at + o + 1 ==> now[i] == was[i]
  {
    forall i | 0 <= i < |was| && i != at + o && i != at + o + 1
      ensures now[i] == was[i]
    {
      if at <= i < at + n {
        assert now[i] == now[at..at + n][i - at] && was[i] == was[at..at + n][i - at];
      }
    }
  }

  /** Stores of consecutive fields from offset o. */
  method Put(data: array<byte>, o: nat, bs: seq<byte>)
    requires o + |bs| <= data.Length
    modifies data
    ensures data[o..o + |bs|] == bs
    ensures forall i :: 0 <= i < data.Length && !(o <= i < o + |bs|) ==> data[i] == old(data[i])
  {
    for k := 0 to |bs|
      invariant data[o..o + k] == bs[..k]
      invariant forall i :: 0 <= i < data.Length && !(o <= i < o + k) ==> data[i] == old(data[i])
    {
      data[o + k] := bs[k];
    }
  }

  /** Storing a 16-bit field of a part of the buffer. */
  method PutField(data: array<byte>, at: nat, n: nat, o: nat, c: nat)
    requires at + n <= data.Length && o + 2 <= n && c <= ONES
    modifies data
    ensures data[at..at + n] == SetField(old(data[at..at + n]), o, c)
    ensures forall i :: 0 <= i < data.Length && !(at <= i < at + n) ==> data[i] == old(data[i])
  {
    data[at + o] := (c % 256) as byte;
    data[at + o + 1] := (c / 256) as byte;
  }

  /** ipv4_l4_checksum for the packet at offset 14 with len bytes behind its header. */
  method Ipv4L4Checksum(data: array<byte>, len: nat) returns (c: nat)
    requires ETH + IP + len <= data.Length && len <= ONES
    ensures c == L4Checksum(data[ETH + 12..ETH + 16], data[ETH + 16..ETH + 20], data[ETH + 9] as nat,
            data[ETH + IP..ETH + IP + len])
  {
    hide SumAll, Wrap, Swap;
    ghost var src, dst, m := data[ETH + 12..ETH + 16], data[ETH + 16..ETH + 20], data[ETH + IP..ETH + IP + len];
    L4SumBound(src, dst, data[ETH + 9] as nat, m);
    var a := Partial(data, ETH + 12, 4);
    var b := Partial(data, ETH + 16, 4);
    var d := Partial(data, ETH + IP, len);
    c := Final(Wrap(a + b + Swap(len) + 256 * data[ETH + 9] as nat + d));
  }

  /** send_udp with the addresses ip_send_with_mac fills in: -EOOB when the datagram does not fit
      the frame, and otherwise exactly its packet in the frame. */
  method SendUdp(f: Frame, macs: seq<byte>, me: Ipv4, sport: nat, daddr: Ipv6, dport: nat, buff: seq<byte>)
    returns (ret: int)
    requires f.data.Length == CAPACITY - META && |macs| == 12 && sport <= ONES && dport <= ONES
    modifies f, f.data
    ensures ret == if |buff| <= 4052 then 0 else -EOOB
    ensures ret == 0 ==> f.len == ETH + IP + UDP + |buff| && f.data[..12] == macs && f.data[12..ETH] == [0x08, 0x00]
    ensures ret == 0 ==> f.data[ETH..f.len] == Packet(me, Extract(daddr), sport, dport, buff)
    ensures ret != 0 ==> f.data[..] == old(f.data[..])
  {
    hide IpHeader, UdpHeader, SetField, Computed, L4Checksum, Verifies;
    var n := |buff|;
    if CAPACITY < META + ETH + IP + UDP + n {
      return -EOOB;
    }
    var dst := Extract(daddr);
    f.len := ETH + IP + UDP + n;
    Put(f.data, 12, [0x08, 0x00]);
    ghost var typed := f.data[..];
    PutHeader(f.data, IP + UDP + n, me, dst);
    ghost var headed := f.data[..];
    SliceKept(typed, headed, 12, ETH);
    PutSegment(f.data, me, dst, sport, dport, buff);
    ghost var filled := f.data[..];
    SliceKept(headed, filled, 12, ETH);
    SliceKept(headed, filled, ETH, ETH + IP);
    TwoParts(filled, ETH, ETH + IP, f.len);
    Put(f.data, 0, macs);
    SliceKept(filled, f.data[..], 12, ETH);
    SliceKept(filled, f.data[..], ETH, f.len);
    ret := 0;
  }

  /** The IP header, with its checksum computed over the zeroed field. */
  method PutHeader(data: array<byte>, total: nat, src: Ipv4, dst: Ipv4)
    requires data.Length >= ETH + IP && total <= ONES
    modifies data
    ensures var h := IpHeader(total, NEXT_HEADER_UDP as byte, src, dst);
            data[ETH..ETH + IP] == SetField(h, 10, Computed(h, 10))
    ensures data[ETH + 12..ETH + 16] == src && data[ETH + 16..ETH + 20] == dst
    ensures data[ETH + 9] == NEXT_HEADER_UDP as byte
    ensures forall i :: 0 <= i < data.Length && !(ETH <= i < ETH + IP) ==> data[i] == old(data[i])
  {
    hide SetField, SumAll, Wrap, RfcChecksum, Final;
    var h := IpHeader(total, NEXT_HEADER_UDP as byte, src, dst);
    Put(data, ETH, h);
    SetFieldTwice(h, 10, 0, 0);
    assert Field(h, 10) == 0;
    NoOverflow(h);
    var c := IpChecksum(data, ETH, IP);
    PutField(data, ETH, IP, 10, c);
    HeaderFields(total, NEXT_HEADER_UDP as byte, src, dst, c);
    HeaderSlices(data);
  }

  lemma HeaderSlices(data: array<byte>)
    requires data.Length >= ETH + IP
    ensures var h := data[ETH..ETH + IP];
            h[9] == data[ETH + 9] && h[12..16] == data[ETH + 12..ETH + 16] && h[16..20] == data[ETH + 16..ETH + 20]
  {}

  /** UDP header and payload behind a finished IP header. */
  method PutSegment(data: array<byte>, src: Ipv4, dst: Ipv4, sport: nat, dport: nat, buff: seq<byte>)
    requires data.Length >= ETH + IP + UDP + |buff| && UDP + |buff| <= ONES
    requires data[ETH + 12..ETH + 16] == src && data[ETH + 16..ETH + 20] == dst
    requires data[ETH + 9] == NEXT_HEADER_UDP as byte
    modifies data
    ensures data[ETH + IP..ETH + IP + UDP + |buff|] == Segment(src, dst, sport, dport, buff)
    ensures forall i :: 0 <= i < ETH + IP ==> data[i] == old(data[i])
  {
    hide SetField, L4Checksum, UdpHeader;
    var n := UDP + |buff|;
    Put(data, ETH + IP, UdpHeader(sport, dport, n));
    ghost var headed := data[..];
    SliceKept(old(data[..]), headed, ETH + 12, ETH + 16);
    SliceKept(old(data[..]), headed, ETH + 16, ETH + 20);
    Put(data, ETH + IP + UDP, buff);
    SliceKept(headed, data[..], ETH + 12, ETH + 16);
    SliceKept(headed, data[..], ETH + 16, ETH + 20);
    SliceKept(headed, data[..], ETH + IP, ETH + IP + UDP);
    TwoParts(data[..], ETH + IP, ETH + IP + UDP, ETH + IP + n);
    var c := Ipv4L4Checksum(data, n);
    PutField(data, ETH + IP, n, 6, c);
  }

  // ---- receiving ----

  /** ip_checksum as a check: 0 exactly when the bytes verify. */
  method Check(data: array<byte>, at: nat, len: nat) returns (ok: bool)
    requires at + len <= data.Length && len <= ONES
    ensures ok == Verifies(data[at..at + len])
  {
    hide SumAll, RfcChecksum, Swap;
    NoOverflow(data[at..at + len]);
    var c := IpChecksum(data, at, len);
    ok := c == 0;
  }

  /** The 16-bit number at position p, in network byte order. */
  method Ntohs(data: array<byte>, p: nat) returns (x: nat)
    requires p + 2 <= data.Length
    ensures x == 256 * data[p] as nat + data[p + 1] as nat
  {
    hide Swap;
    var w := Load(data, p);
    SwapBytes(data[p] as nat, data[p + 1] as nat);
    x := Swap(w);
  }

  /** handle_ipv4: what becomes of the frame, whose length is cut to the packet. */
  method Receive(f: Frame, me: Ipv4, ready: bool) returns (o: Outcome)
    requires f.len <= f.data.Length
    modifies f`len
    ensures o == HandleIpv4(f.data[..], old(f.len), me, ready)
    ensures f.len <= old(f.len) && (o.ToTask? || o.ToEcho? ==> f.len == ETH + FromBe(f.data[ETH..ETH + IP], 2))
  {
    hide Verifies, L4Checksum, HandleUdp, HandleIcmp, Swap;
    if f.len < ETH + IP {
      return Ret(-EOOB);
    }
    ghost var h := f.data[..][ETH..ETH + IP];
    assert h == f.data[ETH..ETH + IP];
    HeaderSlices(f.data);
    if f.data[ETH] / 16 != 4 {
      return Ret(-EBADPKT);
    }
    if f.data[ETH] % 16 != 5 {
      return Ret(-ENOIMPL);
    }
    var ok := Check(f.data, ETH, IP);
    if !ok {
      return Ret(-EBADPKT);
    }
    var total := Ntohs(f.data, ETH + 2);
    assert total == FromBe(h, 2);
    if f.len < ETH + total {
      return Ret(-EOOB);
    }
    if total < IP {
      return Ret(-EBADPKT);
    }
    f.len := ETH + total;
    if f.data[ETH + 16..ETH + 20] != me && me != [0, 0, 0, 0] {
      return Ret(0);
    }
    if !ready && f.data[ETH + 9] != NEXT_HEADER_UDP as byte {
      return Ret(0);
    }
    assert f.data[..][ETH + IP..ETH + total] == f.data[ETH + IP..ETH + total];
    o := Payload(f, total - IP);
  }

  /** The part of handle_ipv4 that looks behind the header. */
  method Payload(f: Frame, len: nat) returns (o: Outcome)
    requires ETH + IP + len <= f.data.Length && len <= ONES
    ensures var s := f.data[ETH + IP..ETH + IP + len];
            var src, dst, next := f.data[ETH + 12..ETH + 16], f.data[ETH + 16..ETH + 20], f.data[ETH + 9];
            o == if next == NEXT_HEADER_ICMP then HandleIcmp(s)
                 else if next != NEXT_HEADER_UDP as byte then Ret(-ENOIMPL)
                 else if len < UDP then Ret(-EOOB)
                 else if Field(s, 6) != 0 && L4Checksum(src, dst, NEXT_HEADER_UDP, s) != 0 then Ret(-EBADPKT)
                 else HandleUdp(src, s)
  {
    hide L4Checksum, HandleUdp, HandleIcmp;
    if f.data[ETH + 9] == NEXT_HEADER_ICMP {
      return HandleIcmp(f.data[ETH + IP..ETH + IP + len]);
    }
    if f.data[ETH + 9] != NEXT_HEADER_UDP as byte {
      return Ret(-ENOIMPL);
    }
    if len < UDP {
      return Ret(-EOOB);
    }
    var field := Load(f.data, ETH + IP + 6);
    if field != 0 {
      var c := Ipv4L4Checksum(f.data, len);
      if c != 0 {
        return Ret(-EBADPKT);
      }
    }
    o := HandleUdp(f.data[ETH + 12..ETH + 16], f.data[ETH + IP..ETH + IP + len]);
  }

  // ---- echo replies ----

  const IP6: nat := 40

  predicate Multicast4(a: Ipv4) {
    a[0] / 16 == 14
  }

  /** memcpy inside the frame. */
  method Copy(data: array<byte>, to: nat, from: nat, n: nat)
    requires to + n <= data.Length && from + n <= data.Length && (to + n <= from || from + n <= to)
    modifies data
    ensures data[to..to + n] == old(data[from..from + n])
    ensures forall i :: 0 <= i < data.Length && !(to <= i < to + n) ==> data[i] == old(data[i])
  {
    Put(data, to, data[from..from + n]);
  }

  /** The Ethernet addresses of a reply. */
  method TurnRound(f: Frame, mac: seq<byte>)
    requires f.data.Length >= ETH && |mac| == 6
    modifies f.data
    ensures f.data[..6] == old(f.data[6..12]) && f.data[6..12] == mac
    ensures forall i :: 12 <= i < f.data.Length ==> f.data[i] == old(f.data[i])
  {
    Copy(f.data, 0, 6, 6);
    Put(f.data, 6, mac);
  }

  /** Type and checksum of the message of len bytes at position `at`, which `extra` words
      further changed by `more`. */
  method ReplyMessage(data: array<byte>, at: nat, len: nat, request: byte, reply: byte, more: nat)
    requires at + len <= data.Length && 8 <= len && data[at] == request && more <= 16 * ONES
    modifies data
    ensures var m := old(data[at..at + len]);
            data[at..at + len]
            == SetField(m[0 := reply], 2, Final((ONES - Field(m, 2)) + more + (ONES - request as nat) + reply as nat))
    ensures forall i :: 0 <= i < data.Length && !(at <= i < at + len) ==> data[i] == old(data[i])
  {
    hide SetField, Final;
    ghost var m := data[at..at + len];
    data[at] := reply;
    assert data[at..at + len] == m[0 := reply];
    var field := Load(data, at + 2);
    var c := Final((ONES - field) + more + (ONES - request as nat) + reply as nat);
    PutField(data, at, len, 2, c);
  }

  /** The IP header of a reply: addresses swapped, a multicast destination replaced. */
  method TurnHeader(data: array<byte>, me: Ipv4)
    requires data.Length >= ETH + IP
    modifies data
    ensures data[ETH + 16..ETH + 20] == old(data[ETH + 12..ETH + 16])
    ensures data[ETH + 12..ETH + 16] == if Multicast4(old(data[ETH + 16..ETH + 20])) then me
            else old(data[ETH + 16..ETH + 20])
    ensures data[ETH + 8] == HOP_LIMIT && Verifies(data[ETH..ETH + IP])
    ensures forall i :: 0 <= i < ETH + 8 || i == ETH + 9 || ETH + IP <= i < data.Length ==> data[i] == old(data[i])
  {
    hide Verifies;
    data[ETH + 8] := HOP_LIMIT;
    var dst := data[ETH + 16..ETH + 20];
    assert dst == old(data[ETH + 16..ETH + 20]);
    Copy(data, ETH + 16, ETH + 12, 4);
    Put(data, ETH + 12, if Multicast4(dst) then me else dst);
    HeaderChecksum(data);
  }

  /** do_icmpv4_echo */
  method EchoV4(f: Frame, me: Ipv4, mac: seq<byte>, len: nat)
    requires ETH + IP + len <= f.data.Length && IP + len <= ONES && |mac| == 6
    requires IP + len == FromBe(f.data[ETH..ETH + IP], 2) && IsEchoRequest(f.data[ETH + IP..ETH + IP + len])
    modifies f, f.data
    ensures f.len == ETH + IP + len && f.data[..6] == old(f.data[6..12]) && f.data[6..12] == mac
    ensures f.data[ETH + 16..ETH + 20] == old(f.data[ETH + 12..ETH + 16])
    ensures f.data[ETH + 12..ETH + 16] == if 224 <= old(f.data[ETH + 16]) < 240 then me
            else old(f.data[ETH + 16..ETH + 20])
    ensures f.data[ETH + 8] == HOP_LIMIT && Verifies(f.data[ETH..ETH + IP])
    ensures forall i :: 12 <= i < ETH + 8 || i == ETH + 9 ==> f.data[i] == old(f.data[i])
    ensures f.data[ETH + IP..ETH + IP + len] == EchoReply(old(f.data[ETH + IP..ETH + IP + len]))
  {
    hide Verifies, SetField, Final, FromBe;
    ghost var was := f.data[..];
    f.len := ETH + IP + len;
    TurnRound(f, mac);
    ghost var turned := f.data[..];
    SliceKept(was, turned, ETH + 12, ETH + 16);
    SliceKept(was, turned, ETH + 16, ETH + 20);
    SliceKept(was, turned, ETH + IP, ETH + IP + len);
    TurnHeader(f.data, me);
    ghost var headed := f.data[..];
    SliceKept(turned, headed, ETH + IP, ETH + IP + len);
    assert headed[ETH + IP] == ECHO_REQUEST by { assert headed[ETH + IP..ETH + IP + len][0] == ECHO_REQUEST; }
    ReplyMessage(f.data, ETH + IP, len, ECHO_REQUEST, ECHO_REPLY, 0);
    SliceKept(turned, f.data[..], 0, 6);
    SliceKept(turned, f.data[..], 6, 12);
    SliceKept(headed, f.data[..], ETH, ETH + IP);
    SliceKept(headed, f.data[..], ETH + 12, ETH + 16);
    SliceKept(headed, f.data[..], ETH + 16, ETH + 20);
  }

  /** The checksum of the IP header, computed anew. */
  method HeaderChecksum(data: array<byte>)
    requires data.Length >= ETH + IP
    modifies data
    ensures Verifies(data[ETH..ETH + IP])
    ensures forall i :: 0 <= i < data.Length && i != ETH + 10 && i != ETH + 11 ==> data[i] == old(data[i])
  {
    hide SetField, SumAll, RfcChecksum, Swap, Final, Wrap, Verifies;
    ghost var was := data[..];
    ghost var h := data[ETH..ETH + IP];
    StoredVerifies(h, 10);
    PutField(data, ETH, IP, 10, 0);
    NoOverflow(data[ETH..ETH + IP]);
    var c := IpChecksum(data, ETH, IP);
    SetFieldTwice(h, 10, 0, c);
    PutField(data, ETH, IP, 10, c);
    FieldKeeps(was, data[..], ETH, IP, 10, c);
  }

  lemma ReplyIs(src: Ipv6, dst: Ipv6, me: Ipv6, m: seq<byte>, more: nat)
    requires IsEchoRequest6(src, dst, m)
    requires more == (if Multicast(dst) then NegSum(dst, 8) + SumAll(me) else 0) <= 16 * ONES
    ensures EchoReply6(src, dst, me, m)
            == (if Multicast(dst) then me else dst, src,
                SetField(m[0 := ECHO_REPLY_6], 2,
                         Final((ONES - Field(m, 2)) + more + (ONES - ECHO_REQUEST_6 as nat) + ECHO_REPLY_6 as nat)))
  {}

  /** do_icmpv6_echo on the addresses, message and hop limit of the packet at offset 14. */
  method EchoV6(f: Frame, me: Ipv6, mac: seq<byte>, len: nat)
    requires ETH + IP6 + len <= f.data.Length && |mac| == 6
    requires len == FromBe(f.data[ETH..ETH + IP6], 4) <= ONES
    requires IsEchoRequest6(f.data[ETH + 8..ETH + 24], f.data[ETH + 24..ETH + 40], f.data[ETH + IP6..ETH + IP6 + len])
    modifies f, f.data
    ensures f.len == ETH + IP6 + len && f.data[..6] == old(f.data[6..12]) && f.data[6..12] == mac
    ensures f.data[ETH + 7] == HOP_LIMIT && forall i :: 12 <= i < ETH + 7 ==> f.data[i] == old(f.data[i])
    ensures (f.data[ETH + 8..ETH + 24], f.data[ETH + 24..ETH + 40], f.data[ETH + IP6..ETH + IP6 + len])
            == EchoReply6(old(f.data[ETH + 8..ETH + 24]), old(f.data[ETH + 24..ETH + 40]), me,
              old(f.data[ETH + IP6..ETH + IP6 + len]))
  {
    hide SetField, Final, FromBe, L4Checksum, Wrap, SumAll, NegSum, EchoReply6, Field;
    ghost var was := f.data[..];
    ghost var src, dst, m := was[ETH + 8..ETH + 24], was[ETH + 24..ETH + 40], was[ETH + IP6..ETH + IP6 + len];
    f.len := ETH + IP6 + len;
    TurnRound(f, mac);
    f.data[ETH + 7] := HOP_LIMIT;
    ghost var turned := f.data[..];
    SliceKept(was, turned, ETH + 8, ETH + 24);
    SliceKept(was, turned, ETH + 24, ETH + 40);
    SliceKept(was, turned, ETH + IP6, ETH + IP6 + len);
    var more := TurnAddresses(f.data, me);
    ghost var headed := f.data[..];
    SliceKept(turned, headed, ETH + IP6, ETH + IP6 + len);
    ReplyIs(src, dst, me, m, more);
    assert headed[ETH + IP6] == ECHO_REQUEST_6 by { assert headed[ETH + IP6..ETH + IP6 + len][0] == ECHO_REQUEST_6; }
    ReplyMessage(f.data, ETH + IP6, len, ECHO_REQUEST_6, ECHO_REPLY_6, more);
    SliceKept(headed, f.data[..], ETH + 8, ETH + 24);
    SliceKept(headed, f.data[..], ETH + 24, ETH + 40);
    SliceKept(turned, f.data[..], 0, 6);
    SliceKept(turned, f.data[..], 6, 12);
  }

  /** The addresses of an ICMPv6 reply, and what a replaced multicast address adds to the
      checksum. */
  method TurnAddresses(data: array<byte>, me: Ipv6) returns (more: nat)
    requires data.Length >= ETH + IP6
    modifies data
    ensures var src, dst := old(data[ETH + 8..ETH + 24]), old(data[ETH + 24..ETH + 40]);
            && data[ETH + 24..ETH + 40] == src && data[ETH + 8..ETH + 24] == (if Multicast(dst) then me else dst)
            && more == (if Multicast(dst) then NegSum(dst, 8) + SumAll(me) else 0) <= 16 * ONES
    ensures forall i :: 0 <= i < ETH + 8 || ETH + IP6 <= i < data.Length ==> data[i] == old(data[i])
  {
    hide Wrap, SumAll, NegSum;
    var dst := data[ETH + 24..ETH + 40];
    more := 0;
    EchoSumBound(dst, me);
    if data[ETH + 24] == 0xff {
      more := NegPartial(data, ETH + 24, 16);
      Copy(data, ETH + 24, ETH + 8, 16);
      Put(data, ETH + 8, me);
      var sum := Partial(data, ETH + 8, 16);
      more := Wrap(more + sum);
    } else {
      Copy(data, ETH + 24, ETH + 8, 16);
      Put(data, ETH + 8, dst);
    }
  }
}
