/** The datagrams of tftp.c (RFC 1350, section 5): building and taking apart. */
module Tftp {
  import opened Bytes
  import opened TftpBlocks
  import opened Errors

  type Datagram = seq<byte>

  const SERVER_PORT: nat := 6969
  const BUFF_SIZE: nat := 1024 // tftp_buff, tftp_resp_buff
  const REQ_SIZE: nat := 128   // tftp_req_buff

  const OP_RRQ: byte := 1
  const OP_WRQ: byte := 2
  const OP_DATA: byte := 3
  const OP_ACK: byte := 4
  const OP_ERROR: byte := 5

  const MODE: seq<byte> := [111, 99, 116, 101, 116] // "octet"

  const WRAP: nat := 0x1_0000 // sequence numbers are uint16_t

  /** tftp_packet_t: opcode and number, both big-endian. */
  function Header(op: byte, n: nat): Datagram {
    [0, op, (n / 256 % 256) as byte, (n % 256) as byte]
  }

  function Data(n: nat, payload: seq<byte>): Datagram {
    Header(OP_DATA, n) + payload
  }

  function Ack(n: nat): Datagram {
    Header(OP_ACK, n)
  }

  /** Changing only the opcode of a received packet makes the acknowledgement of its number. */
  function AckOf(d: Datagram): Datagram
    requires |d| >= 4
  {
    [0, OP_ACK] + d[2..4]
  }

  function Seq(d: Datagram): nat
    requires |d| >= 4
  {
    256 * d[2] as nat + d[3] as nat
  }

  /** tftp_check_resp: 0, or -EBADPKT. */
  function CheckResp(d: Datagram, op: byte): (r: int)
    ensures r == 0 || r == -EBADPKT
    ensures r == 0 <==> |d| >= 4 && d[0] == 0 && d[1] == op && op != OP_ERROR
  {
    if |d| < 4 then -EBADPKT
    else if d[..2] == [0, OP_ERROR] then -EBADPKT
    else if d[..2] != [0, op] then -EBADPKT
    else 0
  }

  predicate IsError(d: Datagram) {
    |d| >= 4 && d[..2] == [0, OP_ERROR]
  }

  /** What recv_udp stores of a datagram in a buffer of 1024 bytes. */
  function Clip(d: Datagram): Datagram {
    if |d| > BUFF_SIZE then d[..BUFF_SIZE] else d
  }

  lemma SplitNumber(n: nat)
    requires n < WRAP
    ensures n / 256 % 256 == n / 256 && 256 * (n / 256) + n % 256 == n
  {}

  /** A built packet reads back as what it was built from. */
  lemma DataIsRead(n: nat, payload: seq<byte>)
    requires n < WRAP
    ensures var d := Data(n, payload);
            && CheckResp(d, OP_DATA) == 0 && CheckResp(d, OP_ACK) == -EBADPKT
            && Seq(d) == n && d[4..] == payload && AckOf(d) == Ack(n)
            && (|payload| <= CHUNK ==> Clip(d) == d)
  {
    SplitNumber(n);
    var d := Data(n, payload);
    assert d[..2] == [0, OP_DATA];
    assert d[2..4] == [(n / 256 % 256) as byte, (n % 256) as byte];
  }

  lemma AckIsRead(n: nat)
    requires n < WRAP
    ensures var d := Ack(n);
            CheckResp(d, OP_ACK) == 0 && CheckResp(d, OP_DATA) == -EBADPKT && Seq(d) == n && Clip(d) == d
  {
    SplitNumber(n);
    assert Ack(n)[..2] == [0, OP_ACK];
  }

  lemma ErrorIsRefused(d: Datagram, op: byte)
    requires IsError(d)
    ensures |Clip(d)| >= 4 && CheckResp(Clip(d), op) == -EBADPKT
  {
    assert Clip(d)[..2] == d[..2];
  }

  // ---- requests ----

  /** tftp_build_req; a C string ends with a zero byte. */
  function BuildReq(op: byte, name: seq<byte>): Option<Datagram> {
    if REQ_SIZE < 2 + (|name| + 1) + (|MODE| + 1) then None
    else Some([0, op] + name + [0] + MODE + [0])
  }

  /** The packets byte by byte (RFC 1350, section 5): opcodes 1 to 5 and block numbers in network byte
      order, the server's port 6969. */
  lemma WireFormat(name: seq<byte>, n: nat, payload: seq<byte>)
    requires n < 0x1_0000
    ensures SERVER_PORT == 6969
    ensures |name| <= 119 ==>
              && BuildReq(OP_RRQ, name) == Some([0, 1] + name + [0] + [111, 99, 116, 101, 116] + [0])
              && BuildReq(OP_WRQ, name) == Some([0, 2] + name + [0] + [111, 99, 116, 101, 116] + [0])
    ensures |name| > 119 ==> BuildReq(OP_RRQ, name).None? && BuildReq(OP_WRQ, name).None?
    ensures Data(n, payload) == [0, 3, (n / 256) as byte, (n % 256) as byte] + payload
    ensures Ack(n) == [0, 4, (n / 256) as byte, (n % 256) as byte]
  {}

  lemma WireErrors(d: Datagram)
    ensures CheckResp(d, OP_DATA) == 0 <==> |d| >= 4 && d[0] == 0 && d[1] == 3
    ensures CheckResp(d, OP_ACK) == 0 <==> |d| >= 4 && d[0] == 0 && d[1] == 4
    ensures IsError(d) <==> |d| >= 4 && d[0] == 0 && d[1] == 5
    ensures |d| >= 4 ==> Seq(d) == 256 * d[2] as nat + d[3] as nat && AckOf(d) == [0, 4, d[2], d[3]]
  {
    if |d| >= 4 {
      assert d[2..4] == [d[2], d[3]] && d[..2] == [d[0], d[1]];
    }
  }

  /** The part of s before its first zero byte, and the part after. */
  function CString(s: seq<byte>): Option<(seq<byte>, seq<byte>)> {
    if s == [] then None
    else if s[0] == 0 then Some(([], s[1..]))
    else match CString(s[1..])
      case None => None
      case Some((a, b)) => Some(([s[0]] + a, b))
  }

  /** A request as RFC 1350 reads it: opcode, file name, mode, nothing behind. */
  function ParseReq(d: Datagram): Option<(byte, seq<byte>, seq<byte>)> {
    if |d| < 2 || d[0] != 0 then None
    else match CString(d[2..])
      case None => None
      case Some((name, rest)) =>
        match CString(rest)
        case None => None
        case Some((mode, end)) => if end == [] then Some((d[1], name, mode)) else None
  }

  lemma {:induction false} CStringIs(a: seq<byte>, b: seq<byte>)
    requires 0 !in a
    ensures CString(a + [0] + b) == Some((a, b))
  {
    var s := a + [0] + b;
    if a == [] {
      assert s[0] == 0 && s[1..] == b;
    } else {
      CStringIs(a[1..], b);
      assert s[1..] == a[1..] + [0] + b;
      assert [s[0]] + a[1..] == a;
    }
  }

  lemma RequestIsRead(op: byte, name: seq<byte>)
    requires 0 !in name
    ensures match BuildReq(op, name)
            case None => |name| > 119
            case Some(d) => |name| <= 119 && |d| <= REQ_SIZE && ParseReq(d) == Some((op, name, MODE))
  {
    match BuildReq(op, name)
    case None =>
    case Some(d) =>
      var end: seq<byte> := [];
      CStringIs(name, MODE + [0]);
      CStringIs(MODE, end);
      assert d[2..] == name + [0] + (MODE + [0]);
      assert MODE + [0] == MODE + [0] + end;
  }

  // ---- the network ----

  /** What recv_udp returned: nothing (or an empty datagram), or a datagram and its source port. */
  datatype Event = Silence | Arrival(sport: nat, d: Datagram)

  predicate Received(e: Event) {
    e.Arrival? && e.d != []
  }

  /** Packets between the client's port and a port of the server. The network keeps every packet
      ever sent: it may deliver one never, late, or many times. */
  datatype Packet = ToServer(port: nat, d: Datagram) | ToClient(port: nat, d: Datagram)

  function Posted(out: seq<(nat, Datagram)>): set<Packet> {
    set m | m in out :: ToServer(m.0, m.1)
  }

  lemma PostedMore(a: seq<(nat, Datagram)>, b: seq<(nat, Datagram)>)
    ensures Posted(a + b) == Posted(a) + Posted(b)
  {
    forall p | p in Posted(a) + Posted(b)
      ensures p in Posted(a + b)
    {
      var m :| m in a + b && p == ToServer(m.0, m.1);
    }
  }

  /** The packets to the server among those that were ever in the network are those in out. */
  ghost predicate PutThere(net: set<Packet>, out: seq<(nat, Datagram)>) {
    forall p: Packet :: p in Posted(out) <==> p in net && p.ToServer?
  }

  lemma MorePutThere(net: set<Packet>, out: seq<(nat, Datagram)>, more: seq<(nat, Datagram)>)
    requires PutThere(net, out)
    ensures PutThere(net + Posted(more), out + more)
  {
    PostedMore(out, more);
  }

  lemma ServerPutsNothing(net: set<Packet>, net': set<Packet>, out: seq<(nat, Datagram)>)
    requires PutThere(net, out) && forall p: Packet :: p.ToServer? ==> (p in net' <==> p in net)
    ensures PutThere(net', out)
  {}
}
