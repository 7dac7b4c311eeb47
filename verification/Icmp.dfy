/** Pseudo-headers, and the echo replies of ip.c, whose checksum is updated rather than
    computed anew. */
module Icmp {
  import opened Bytes
  import opened Checksum
  import opened ChecksumFields

  const ECHO_REQUEST: byte := 8
  const ECHO_REPLY: byte := 0
  const ECHO_REQUEST_6: byte := 128
  const ECHO_REPLY_6: byte := 129
  const NEXT_HEADER_ICMPV6: nat := 58
  const NEXT_HEADER_UDP: nat := 17

  // ---- sums over several buffers ----

  lemma {:induction false} SumOfParts(a: seq<byte>, b: seq<byte>, n: nat)
    requires |a| % 2 == 0
    ensures Sum(a + b, |a| / 2 + n) == SumAll(a) + Sum(b, n)
  {
    if n == 0 {
      SumOfPrefix(a, b, |a| / 2);
    } else {
      SumOfParts(a, b, n - 1);
      WordOfSecond(a, b, n - 1);
    }
  }

  lemma WordOfSecond(a: seq<byte>, b: seq<byte>, i: nat)
    requires |a| % 2 == 0
    ensures LeWord(a + b, |a| / 2 + i) == LeWord(b, i)
  {
    var k := |a| / 2 + i;
    assert 2 * k == |a| + 2 * i;
    assert ByteOr0(a + b, 2 * k) == ByteOr0(b, 2 * i);
    assert ByteOr0(a + b, 2 * k + 1) == ByteOr0(b, 2 * i + 1);
  }

  lemma {:induction false} SumOfPrefix(a: seq<byte>, b: seq<byte>, n: nat)
    requires 2 * n <= |a|
    ensures Sum(a + b, n) == Sum(a, n)
  {
    if n > 0 {
      SumOfPrefix(a, b, n - 1);
    }
  }

  lemma SumConcat(a: seq<byte>, b: seq<byte>)
    requires |a| % 2 == 0
    ensures SumAll(a + b) == SumAll(a) + SumAll(b)
  {
    SumOfParts(a, b, Words(b));
    assert Words(a + b) == |a| / 2 + Words(b);
  }

  /** A sum is zero exactly when every byte is. */
  lemma {:induction false} SumZero(bs: seq<byte>, n: nat)
    ensures Sum(bs, n) == 0 <==> forall i: nat :: i < 2 * n ==> ByteOr0(bs, i) == 0
  {
    if n > 0 {
      SumZero(bs, n - 1);
      var a, b := ByteOr0(bs, 2 * n - 2), ByteOr0(bs, 2 * n - 1);
      assert LeWord(bs, n - 1) == a + 256 * b;
      if Sum(bs, n) == 0 {
        forall i: nat | i < 2 * n
          ensures ByteOr0(bs, i) == 0
        {
          if i >= 2 * n - 2 {
            assert i == 2 * n - 2 || i == 2 * n - 1;
          }
        }
      }
    }
  }

  // ---- ICMP for IPv4 ----

  /** handle_icmpv4 accepts the message as an echo request. */
  predicate IsEchoRequest(m: seq<byte>) {
    8 <= |m| <= ONES && Verifies(m) && m[0] == ECHO_REQUEST && m[1] == 0
  }

  /** do_icmpv4_echo on the message: the type changes, and the checksum is updated. */
  function EchoReply(m: seq<byte>): (r: seq<byte>)
    requires IsEchoRequest(m)
    ensures |r| == |m|
  {
    var sum := (ONES - Field(m, 2)) + (ONES - ECHO_REQUEST as nat) + ECHO_REPLY as nat;
    SetField(m[0 := ECHO_REPLY], 2, Final(sum))
  }

  predicate AllZero(bs: seq<byte>) {
    forall i :: 0 <= i < |bs| ==> bs[i] == 0
  }

  /** The words of the reply other than type, code and checksum sum to zero only if they are. */
  lemma RestOfReply(m: seq<byte>)
    requires 8 <= |m|
    ensures SumAll(SetField(SetField(m, 0, 0), 2, 0)) == 0 <==> AllZero(m[4..])
  {
    var z := SetField(SetField(m, 0, 0), 2, 0);
    SumZero(z, Words(z));
    if AllZero(m[4..]) {
      forall i: nat | i < 2 * Words(z)
        ensures ByteOr0(z, i) == 0
      {
        if 4 <= i < |m| {
          assert m[4..][i - 4] == 0;
        }
      }
    }
    if SumAll(z) == 0 {
      forall i | 0 <= i < |m| - 4
        ensures m[4..][i] == 0
      {
        assert ByteOr0(z, i + 4) == 0;
      }
    }
  }

  /** The updated checksum is the one computed anew, and the receiver accepts the reply,
      exactly when the rest of the message is not all zero: then the update leaves 0 where
      0xffff is due. */
  lemma EchoReplyChecksum(m: seq<byte>)
    requires IsEchoRequest(m)
    ensures Field(EchoReply(m), 2) == Computed(EchoReply(m), 2) <==> !AllZero(m[4..])
    ensures Verifies(EchoReply(m)) <==> !AllZero(m[4..])
  {
    hide Final, SetField, Field, AllZero, SumAll;
    var f := Field(m, 2);
    var t := SetField(m, 0, 0);
    var rest := SumAll(SetField(t, 2, 0));
    TypeField(m);
    SumOfField(m, 0, 0);
    SumOfField(t, 2, 0);
    NoOverflow(m);
    NoOverflow(t);
    NoOverflow(SetField(t, 2, 0));
    Update(rest, ECHO_REQUEST as nat, 0, 1, f);
    RestOfReply(m);
    var sum := (ONES - f) + (ONES - ECHO_REQUEST as nat);
    SetFieldTwice(t, 2, Final(sum), 0);
    VerifiesIff(EchoReply(m), 2);
    FinalZero(sum);
    FinalZero(rest);
  }

  /** Type 8 becomes type 0, and everything behind the checksum is sent back as it came. */
  lemma EchoReplyBytes(m: seq<byte>)
    requires 8 <= |m| <= ONES && Verifies(m) && m[0] == 8 && m[1] == 0
    ensures IsEchoRequest(m) && EchoReply(m)[..2] == [0, 0] && EchoReply(m)[4..] == m[4..]
  {
    hide Verifies, Final;
  }

  lemma SumOfFour(m: seq<byte>)
    requires |m| == 8
    ensures SumAll(m) == LeWord(m, 0) + LeWord(m, 1) + LeWord(m, 2) + LeWord(m, 3)
  {
    assert Sum(m, 2) == Sum(m, 1) + LeWord(m, 1);
    assert Sum(m, 3) == Sum(m, 2) + LeWord(m, 2);
  }

  /** An example: identifier, sequence number and data all zero. */
  lemma ZeroRequest()
    ensures var m: seq<byte> := [ECHO_REQUEST, 0, 0xf7, 0xff, 0, 0, 0, 0];
            && IsEchoRequest(m)
            && Field(EchoReply(m), 2) == 0 && Computed(EchoReply(m), 2) == ONES && !Verifies(EchoReply(m))
  {
    var m: seq<byte> := [ECHO_REQUEST, 0, 0xf7, 0xff, 0, 0, 0, 0];
    SumOfFour(m);
    assert LeWord(m, 0) == 8 && LeWord(m, 1) == ONES - 8;
    EchoReplyChecksum(m);
    SumOfFour(SetField(EchoReply(m), 2, 0));
  }

  lemma FinalZero(x: nat)
    requires x < TWO_32
    ensures Final(x) == ONES <==> x == 0
  {
    FoldTwice(x);
  }

  lemma TypeField(m: seq<byte>)
    requires IsEchoRequest(m)
    ensures Field(m, 0) == ECHO_REQUEST as nat && m[0 := ECHO_REPLY] == SetField(m, 0, 0)
    ensures Field(SetField(m, 0, 0), 2) == Field(m, 2)
  {}

  // ---- pseudo-headers ----

  type Address = a: seq<byte> | |a| % 2 == 0 && |a| <= 16 witness []

  /** The sum of ipv4_l4_checksum and ipv6_l4_checksum before it is folded. */
  function L4Sum(src: Address, dst: Address, next: nat, m: seq<byte>): nat
    requires |m| <= ONES
  {
    SumAll(src) + SumAll(dst) + Swap(|m|) + 256 * next + SumAll(m)
  }

  lemma L4SumBound(src: Address, dst: Address, next: nat, m: seq<byte>)
    requires |m| <= ONES && next < 256
    ensures L4Sum(src, dst, next, m) <= ONES * 0x8012 < TWO_32
  {
    SumBound(src, Words(src));
    SumBound(dst, Words(dst));
    SumBound(m, Words(m));
  }

  function L4Checksum(src: Address, dst: Address, next: nat, m: seq<byte>): (c: nat)
    requires |m| <= ONES && next < 256
    ensures c <= ONES
  {
    L4SumBound(src, dst, next, m);
    Final(L4Sum(src, dst, next, m))
  }

  /** Addresses, length and next header as RFC 768 (4-byte addresses) and section 8.1 of
      RFC 8200 (16-byte addresses) lay them out. */
  function Pseudo(src: Address, dst: Address, next: nat, len: nat): (p: seq<byte>)
    requires len <= ONES && next < 256
    ensures |p| % 2 == 0 && |p| <= 40
  {
    var n := [(len / 256) as byte, (len % 256) as byte];
    if |src| == 4 then src + dst + [0, next as byte] + n else src + dst + ([0, 0] + n + [0, 0] + [0, next as byte])
  }

  lemma SumOfWord(a: byte, b: byte)
    ensures SumAll([a, b]) == a as nat + 256 * b as nat
  {
    assert Sum([a, b], 1) == Sum([a, b], 0) + LeWord([a, b], 0);
  }

  lemma SumOfLength(len: nat)
    requires len <= ONES
    ensures SumAll([(len / 256) as byte, (len % 256) as byte]) == Swap(len)
  {
    SumOfWord((len / 256) as byte, (len % 256) as byte);
  }

  lemma SumOfPseudo(src: Address, dst: Address, next: nat, len: nat)
    requires len <= ONES && next < 256
    ensures SumAll(Pseudo(src, dst, next, len)) == SumAll(src) + SumAll(dst) + Swap(len) + 256 * next
  {
    hide SumAll, Swap;
    var n := [(len / 256) as byte, (len % 256) as byte];
    var x: seq<byte> := [0, next as byte];
    var z: seq<byte> := [0, 0];
    SumOfLength(len);
    SumOfWord(0, next as byte);
    SumOfWord(0, 0);
    SumConcat(src, dst);
    if |src| == 4 {
      SumConcat(src + dst, x);
      SumConcat(src + dst + x, n);
    } else {
      SumConcat(z, n);
      SumConcat(z + n, z);
      SumConcat(z + n + z, x);
      SumConcat(src + dst, z + n + z + x);
    }
  }

  /** What the source computes over the parts is what RFC 1071 computes over the
      pseudo-header followed by the message. */
  lemma L4ChecksumIsRfc(src: Address, dst: Address, next: nat, m: seq<byte>)
    requires |m| <= ONES && next < 256
    ensures Swap(L4Checksum(src, dst, next, m)) == RfcChecksum(Pseudo(src, dst, next, |m|) + m)
  {
    hide SumAll, Swap, RfcChecksum;
    var p := Pseudo(src, dst, next, |m|);
    SumOfPseudo(src, dst, next, |m|);
    SumConcat(p, m);
    ChecksumIsRfc1071(p + m);
  }

  // ---- ICMPv6 ----

  /** handle_icmpv6 accepts the message as an echo request. */
  predicate IsEchoRequest6(src: Address, dst: Address, m: seq<byte>) {
    && |src| == 16 && |dst| == 16 && 8 <= |m| <= ONES
    && L4Checksum(src, dst, NEXT_HEADER_ICMPV6, m) == 0 && m[0] == ECHO_REQUEST_6 && m[1] == 0
  }

  predicate Multicast(a: Address) {
    |a| > 0 && a[0] == 0xff
  }

  /** do_icmpv6_echo on addresses and message: a multicast destination is replaced by the own
      address, and the checksum is updated for that and for the type. */
  function EchoReply6(src: Address, dst: Address, me: Address, m: seq<byte>): (r: (Address, Address, seq<byte>))
    requires IsEchoRequest6(src, dst, m) && |me| == 16
  {
    EchoSumBound(dst, me);
    var sum := (ONES - Field(m, 2)) + (if Multicast(dst) then NegSum(dst, 8) + SumAll(me) else 0)
               + (ONES - ECHO_REQUEST_6 as nat) + ECHO_REPLY_6 as nat;
    (if Multicast(dst) then me else dst, src, SetField(m[0 := ECHO_REPLY_6], 2, Final(sum)))
  }

  lemma EchoSumBound(dst: Address, me: Address)
    requires |dst| == 16 && |me| == 16
    ensures NegSum(dst, 8) + SumAll(dst) == ONES * 8 && SumAll(dst) <= ONES * 8 && SumAll(me) <= ONES * 8
  {
    NegSumIs(dst, 8);
    SumBound(dst, 8);
    SumBound(me, 8);
  }

  /** The message with its checksum field taken as zero. */
  function Computed6(src: Address, dst: Address, m: seq<byte>): nat
    requires 4 <= |m| <= ONES
  {
    L4Checksum(src, dst, NEXT_HEADER_ICMPV6, SetField(m, 2, 0))
  }

  lemma TypeField6(m: seq<byte>)
    requires |m| >= 8 && m[0] == ECHO_REQUEST_6 && m[1] == 0
    ensures Field(m, 0) == ECHO_REQUEST_6 as nat && m[0 := ECHO_REPLY_6] == SetField(m, 0, ECHO_REPLY_6 as nat)
    ensures Field(SetField(m, 0, ECHO_REPLY_6 as nat), 2) == Field(m, 2)
  {}

  /** The updated checksum of an ICMPv6 echo reply is always the one computed anew over the
      reply's own addresses, and the receiver accepts it. */
  lemma EchoReply6Checksum(src: Address, dst: Address, me: Address, m: seq<byte>)
    requires IsEchoRequest6(src, dst, m) && |me| == 16
    ensures var (src', dst', r) := EchoReply6(src, dst, me, m);
            && |r| == |m| && Field(r, 2) == Computed6(src', dst', r)
            && L4Checksum(src', dst', NEXT_HEADER_ICMPV6, r) == 0
  {
    hide Final, SetField, Field, SumAll, NegSum, Swap;
    var t := SetField(m, 0, ECHO_REPLY_6 as nat);
    var (src', dst', r) := EchoReply6(src, dst, me, m);
    var f, c := Field(m, 2), Field(r, 2);
    TypeField6(m);
    SumOfField(m, 0, ECHO_REPLY_6 as nat);
    SumOfField(t, 2, 0);
    SumOfField(t, 2, c);
    EchoSumBound(dst, me);
    var zero := SetField(t, 2, 0);
    SetFieldTwice(t, 2, c, 0);
    assert r == SetField(t, 2, c) && SetField(r, 2, 0) == zero;
    L4SumBound(src', dst', NEXT_HEADER_ICMPV6, zero);
    L4SumBound(src', dst', NEXT_HEADER_ICMPV6, r);
    L4SumBound(src, dst, NEXT_HEADER_ICMPV6, m);
    var k := if Multicast(dst) then 9 else 1;
    var before := ECHO_REQUEST_6 as nat + if Multicast(dst) then SumAll(dst) else 0;
    var after := ECHO_REPLY_6 as nat + if Multicast(dst) then SumAll(me) else 0;
    var rest := L4Sum(src, dst, NEXT_HEADER_ICMPV6, m) - before - f;
    Update(rest, before, after, k, f);
    assert L4Sum(src', dst', NEXT_HEADER_ICMPV6, zero) == rest + after;
    Accepted(rest + after, c);
  }

  /** Type 128 becomes type 129, with next header 58; the reply goes to the sender, from the address the
      request was sent to, or from the own one if that starts with 0xff. */
  lemma EchoReply6Bytes(src: Address, dst: Address, me: Address, m: seq<byte>)
    requires |src| == 16 && |dst| == 16 && |me| == 16 && 8 <= |m| <= ONES
    requires L4Checksum(src, dst, 58, m) == 0 && m[0] == 128 && m[1] == 0
    ensures IsEchoRequest6(src, dst, m)
    ensures var (src', dst', r) := EchoReply6(src, dst, me, m);
            && r[..2] == [129, 0] && r[4..] == m[4..]
            && dst' == src && src' == if dst[0] == 0xff then me else dst
  {
    hide L4Checksum, Final, SumAll, NegSum;
  }
}
