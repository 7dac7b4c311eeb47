/** The Internet checksum of ip.h: little-endian sums in 32 bits, against the big-endian
    one's-complement arithmetic of RFC 1071. */
module Checksum {
  import opened Bytes

  const TWO_16: nat := 0x1_0000
  const ONES: nat := 0xffff

  // ---- words of a buffer; an odd last byte counts as if a zero byte followed ----

  function ByteOr0(bs: seq<byte>, i: nat): nat {
    if i < |bs| then bs[i] as nat else 0
  }

  function LeWord(bs: seq<byte>, i: nat): (w: nat)
    ensures w <= ONES
  {
    ByteOr0(bs, 2 * i) + 256 * ByteOr0(bs, 2 * i + 1)
  }

  function BeWord(bs: seq<byte>, i: nat): (w: nat)
    ensures w <= ONES
  {
    256 * ByteOr0(bs, 2 * i) + ByteOr0(bs, 2 * i + 1)
  }

  function Words(bs: seq<byte>): nat {
    (|bs| + 1) / 2
  }

  // ---- as RFC 1071 has it ----

  /** One's-complement addition: the carry goes round. */
  function OnesAdd(a: nat, b: nat): nat {
    if a + b > ONES then a + b - ONES else a + b
  }

  function RfcSum(bs: seq<byte>, n: nat): (s: nat)
    ensures s <= ONES
  {
    if n == 0 then 0 else OnesAdd(RfcSum(bs, n - 1), BeWord(bs, n - 1))
  }

  /** The checksum of section 1 of RFC 1071. */
  function RfcChecksum(bs: seq<byte>): nat {
    ONES - RfcSum(bs, Words(bs))
  }

  // ---- as the source has it ----

  /** The sum of the first n words. */
  function Sum(bs: seq<byte>, n: nat): nat {
    if n == 0 then 0 else Sum(bs, n - 1) + LeWord(bs, n - 1)
  }

  function SumAll(bs: seq<byte>): nat {
    Sum(bs, Words(bs))
  }

  function Fold(x: nat): nat {
    x % TWO_16 + x / TWO_16
  }

  /** ip_checksum_final */
  function Final(x: nat): (c: nat)
    requires x < TWO_32
    ensures c <= ONES
  {
    FoldTwice(x);
    ONES - Fold(Fold(x))
  }

  // ---- arithmetic modulo 65535 ----

  predicate Cong(a: int, b: int) {
    (a - b) % ONES == 0
  }

  lemma CongTrans(a: int, b: int, c: int)
    requires Cong(a, b) && Cong(b, c)
    ensures Cong(a, c)
  {}

  lemma CongAdd(a: int, b: int, c: int, d: int)
    requires Cong(a, b) && Cong(c, d)
    ensures Cong(a + c, b + d) && Cong(b, a)
  {}

  lemma CongScale(a: int, b: int)
    requires Cong(a, b)
    ensures Cong(256 * a, 256 * b)
  {
    var k := (a - b) / ONES;
    assert a - b == ONES * k;
    assert 256 * a - 256 * b == ONES * (256 * k);
  }

  /** Sums are 0 only when nothing was added, so among 0..65535 they are determined modulo 65535. */
  lemma CongUnique(a: nat, b: nat)
    requires Cong(a, b) && a <= ONES && b <= ONES && (a == 0 <==> b == 0)
    ensures a == b
  {}

  lemma FoldCong(x: nat)
    ensures Cong(Fold(x), x) && (Fold(x) == 0 <==> x == 0)
  {
    var q, r := x / TWO_16, x % TWO_16;
    assert x == TWO_16 * q + r;
    assert Fold(x) - x == ONES * -q;
  }

  /** Two folds bring any 32-bit sum down to 16 bits without changing it modulo 65535. */
  lemma FoldTwice(x: nat)
    requires x < TWO_32
    ensures Fold(Fold(x)) <= ONES && Cong(Fold(Fold(x)), x) && (Fold(Fold(x)) == 0 <==> x == 0)
  {
    FoldCong(x);
    FoldCong(Fold(x));
    CongTrans(Fold(Fold(x)), Fold(x), x);
  }

  lemma OnesAddCong(a: nat, b: nat)
    requires a <= ONES && b <= ONES
    ensures Cong(OnesAdd(a, b), a + b) && OnesAdd(a, b) <= ONES && (OnesAdd(a, b) == 0 <==> a == 0 && b == 0)
  {}

  // ---- byte order ----

  /** ntohs, htons */
  function Swap(x: nat): (y: nat)
    requires x <= ONES
    ensures y <= ONES
  {
    x % 256 * 256 + x / 256
  }

  /** Swapping the bytes of a word multiplies it by 256 modulo 65535. */
  lemma SwapCong(x: nat)
    requires x <= ONES
    ensures Cong(Swap(x), 256 * x) && (Swap(x) == 0 <==> x == 0) && Swap(ONES - x) == ONES - Swap(x)
    ensures Swap(Swap(x)) == x
  {
    var q, r := x / 256, x % 256;
    assert x == 256 * q + r;
    assert Swap(x) - 256 * x == ONES * -q;
    assert Swap(x) / 256 == r && Swap(x) % 256 == q;
    assert ONES - x == 256 * (255 - q) + (255 - r);
    assert (ONES - x) / 256 == 255 - q && (ONES - x) % 256 == 255 - r;
  }

  lemma SwapBytes(a: nat, b: nat)
    requires a < 256 && b < 256
    ensures Swap(a + 256 * b) == 256 * a + b
  {
    assert (a + 256 * b) % 256 == a && (a + 256 * b) / 256 == b;
  }

  lemma SwapWord(bs: seq<byte>, i: nat)
    ensures Swap(LeWord(bs, i)) == BeWord(bs, i)
  {
    hide Swap;
    SwapBytes(ByteOr0(bs, 2 * i), ByteOr0(bs, 2 * i + 1));
  }

  /** The big-endian one's-complement sum is the little-endian sum times 256. */
  lemma {:induction false} RfcSumCong(bs: seq<byte>, n: nat)
    ensures Cong(RfcSum(bs, n), 256 * Sum(bs, n)) && (RfcSum(bs, n) == 0 <==> Sum(bs, n) == 0)
  {
    hide OnesAdd, LeWord, BeWord, Swap;
    if n > 0 {
      RfcSumCong(bs, n - 1);
      hide Cong;
      var s, w := RfcSum(bs, n - 1), LeWord(bs, n - 1);
      SwapWord(bs, n - 1);
      SwapCong(w);
      OnesAddCong(s, BeWord(bs, n - 1));
      CongAdd(s, 256 * Sum(bs, n - 1), BeWord(bs, n - 1), 256 * w);
      CongTrans(RfcSum(bs, n), s + BeWord(bs, n - 1), 256 * Sum(bs, n - 1) + 256 * w);
    }
  }

  lemma {:induction false} SumBound(bs: seq<byte>, n: nat)
    ensures Sum(bs, n) <= ONES * n
  {
    if n > 0 {
      SumBound(bs, n - 1);
    }
  }

  /** Up to 65535 words, and so any buffer of up to 65535 bytes, do not overflow 32 bits. */
  lemma NoOverflow(bs: seq<byte>)
    requires |bs| <= 2 * ONES
    ensures SumAll(bs) <= ONES * ONES < TWO_32
  {
    SumBound(bs, Words(bs));
  }

  /** What is stored little-endian is the checksum of RFC 1071 in network byte order. */
  lemma ChecksumIsRfc1071(bs: seq<byte>)
    requires |bs| <= 2 * ONES
    ensures SumAll(bs) < TWO_32 && Swap(Final(SumAll(bs))) == RfcChecksum(bs)
  {
    NoOverflow(bs);
    var n := Words(bs);
    var f := Fold(Fold(SumAll(bs)));
    FoldTwice(SumAll(bs));
    RfcSumCong(bs, n);
    SwapCong(f);
    CongScale(f, SumAll(bs));
    CongTrans(Swap(f), 256 * f, 256 * SumAll(bs));
    CongAdd(RfcSum(bs, n), 256 * SumAll(bs), 0, 0);
    CongTrans(Swap(f), 256 * SumAll(bs), RfcSum(bs, n));
    CongUnique(Swap(f), RfcSum(bs, n));
  }
}
