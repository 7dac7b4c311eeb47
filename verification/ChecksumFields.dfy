/** Checksum fields in packets: computing, storing, checking, and updating them (RFC 1624). */
module ChecksumFields {
  import opened Bytes
  import opened Checksum

  // ---- the loops of ip.h, in 32-bit arithmetic ----

  /** uint32_t arithmetic */
  function Wrap(x: nat): (r: nat)
    ensures r < TWO_32 && (x < TWO_32 ==> r == x)
  {
    x % TWO_32
  }

  lemma AddWraps(a: nat, b: nat)
    ensures Wrap(Wrap(a) + b) == Wrap(a + b)
  {}

  /** The word at position p of a buffer, as a little-endian machine loads it. */
  method Load(buff: array<byte>, p: nat) returns (w: nat)
    requires p + 2 <= buff.Length
    ensures w == buff[p] as nat + 256 * buff[p + 1] as nat <= ONES
  {
    w := buff[p] as nat + 256 * buff[p + 1] as nat;
  }

  lemma WordAt(buff: array<byte>, at: nat, len: nat, i: nat)
    requires at + len <= buff.Length && 2 * i + 2 <= len
    ensures LeWord(buff[at..at + len], i) == buff[at + 2 * i] as nat + 256 * buff[at + 2 * i + 1] as nat
  {}

  lemma LastByte(buff: array<byte>, at: nat, len: nat)
    requires at + len <= buff.Length && len % 2 == 1
    ensures LeWord(buff[at..at + len], len / 2) == buff[at + len - 1] as nat
  {}

  /** ip_checksum_partial over len bytes from `at`. */
  method Partial(buff: array<byte>, at: nat, len: nat) returns (c: nat)
    requires at + len <= buff.Length
    ensures c == Wrap(SumAll(buff[at..at + len]))
  {
    hide Wrap, LeWord;
    ghost var bs := buff[at..at + len];
    c := 0;
    for i := 0 to len / 2
      invariant c == Wrap(Sum(bs, i))
    {
      var w := Load(buff, at + 2 * i);
      WordAt(buff, at, len, i);
      AddWraps(Sum(bs, i), w);
      c := Wrap(c + w);
    }
    if len % 2 == 1 {
      LastByte(buff, at, len);
      AddWraps(Sum(bs, len / 2), buff[at + len - 1] as nat);
      c := Wrap(c + buff[at + len - 1] as nat);
    }
  }

  /** The sum of the complements of the first n words. */
  function NegSum(bs: seq<byte>, n: nat): nat {
    if n == 0 then 0 else NegSum(bs, n - 1) + (ONES - LeWord(bs, n - 1))
  }

  lemma {:induction false} NegSumIs(bs: seq<byte>, n: nat)
    ensures NegSum(bs, n) + Sum(bs, n) == ONES * n
  {
    if n > 0 {
      NegSumIs(bs, n - 1);
    }
  }

  /** ip_checksum_neg_partial */
  method NegPartial(buff: array<byte>, at: nat, len: nat) returns (c: nat)
    requires at + len <= buff.Length
    ensures c == Wrap(NegSum(buff[at..at + len], (len + 1) / 2))
  {
    hide Wrap, LeWord;
    ghost var bs := buff[at..at + len];
    c := 0;
    for i := 0 to len / 2
      invariant c == Wrap(NegSum(bs, i))
    {
      var w := Load(buff, at + 2 * i);
      WordAt(buff, at, len, i);
      AddWraps(NegSum(bs, i), ONES - w);
      c := Wrap(c + (ONES - w));
    }
    if len % 2 == 1 {
      LastByte(buff, at, len);
      AddWraps(NegSum(bs, len / 2), ONES - buff[at + len - 1] as nat);
      c := Wrap(c + (ONES - buff[at + len - 1] as nat));
    }
  }

  /** ip_checksum: for buffers of up to 65535 bytes it is, byte by byte, what RFC 1071 says. */
  method IpChecksum(buff: array<byte>, at: nat, len: nat) returns (c: nat)
    requires at + len <= buff.Length
    ensures c == Final(Wrap(SumAll(buff[at..at + len])))
    ensures len <= ONES ==> Swap(c) == RfcChecksum(buff[at..at + len])
  {
    hide Wrap, SumAll, RfcChecksum, Final, Swap;
    c := Partial(buff, at, len);
    if len <= ONES {
      ChecksumIsRfc1071(buff[at..at + len]);
    }
    c := Final(c);
  }

  // ---- one field in a packet ----

  /** A checksum field f is accepted beside words that sum to `rest` exactly when it is the
      checksum of those words, 0xffff passing for 0. */
  lemma Accepted(rest: nat, f: nat)
    requires rest + f < TWO_32 && f <= ONES
    ensures Final(rest + f) == 0 <==> f == Final(rest) || (Final(rest) == 0 && f == ONES)
  {
    FoldTwice(rest);
    FoldTwice(rest + f);
    var n, m := Fold(Fold(rest)), Fold(Fold(rest + f));
    CongAdd(n, rest, f, f);
    CongAdd(m, rest + f, 0, 0);
    CongTrans(n + f, rest + f, m);
    SumToOnes(n, f, m);
  }

  lemma SumToOnes(n: nat, f: nat, m: nat)
    requires n <= ONES && f <= ONES && m <= ONES && Cong(n + f, m) && (m == 0 <==> n == 0 && f == 0)
    ensures m == ONES <==> n + f == ONES || n + f == 2 * ONES
  {}

  /** The 16-bit field at offset o, little-endian as the source stores it. */
  function Field(bs: seq<byte>, o: nat): (f: nat)
    requires o + 2 <= |bs|
    ensures f <= ONES
  {
    bs[o] as nat + 256 * bs[o + 1] as nat
  }

  function SetField(bs: seq<byte>, o: nat, f: nat): (r: seq<byte>)
    requires o + 2 <= |bs| && f <= ONES
    ensures |r| == |bs| && Field(r, o) == f
    ensures forall i :: 0 <= i < |bs| && i != o && i != o + 1 ==> r[i] == bs[i]
  {
    bs[o := (f % 256) as byte][o + 1 := (f / 256) as byte]
  }

  lemma SetFieldTwice(bs: seq<byte>, o: nat, f: nat, g: nat)
    requires o + 2 <= |bs| && f <= ONES && g <= ONES
    ensures SetField(SetField(bs, o, f), o, g) == SetField(bs, o, g)
    ensures SetField(bs, o, Field(bs, o)) == bs
  {
    var a, b := bs[o] as nat, bs[o + 1] as nat;
    assert (a + 256 * b) % 256 == a && (a + 256 * b) / 256 == b;
  }

  lemma {:induction false} SumChange(bs: seq<byte>, bs': seq<byte>, k: nat, n: nat)
    requires forall i: nat :: i != k ==> LeWord(bs, i) == LeWord(bs', i)
    ensures Sum(bs', n) + (if k < n then LeWord(bs, k) else 0) == Sum(bs, n) + if k < n then LeWord(bs', k) else 0
  {
    if n > 0 {
      SumChange(bs, bs', k, n - 1);
    }
  }

  /** Changing an aligned field changes the sum by the difference. */
  lemma SumOfField(bs: seq<byte>, o: nat, f: nat)
    requires o % 2 == 0 && o + 2 <= |bs| && f <= ONES
    ensures SumAll(SetField(bs, o, f)) + Field(bs, o) == SumAll(bs) + f
  {
    var bs' := SetField(bs, o, f);
    var k := o / 2;
    assert LeWord(bs, k) == Field(bs, o) && LeWord(bs', k) == Field(bs', o);
    SumChange(bs, bs', k, Words(bs));
  }

  /** The checksum of a buffer with its own field taken as zero. */
  function Computed(bs: seq<byte>, o: nat): nat
    requires o % 2 == 0 && o + 2 <= |bs| <= ONES
  {
    NoOverflow(SetField(bs, o, 0));
    Final(SumAll(SetField(bs, o, 0)))
  }

  predicate Verifies(bs: seq<byte>)
    requires |bs| <= ONES
  {
    NoOverflow(bs);
    Final(SumAll(bs)) == 0
  }

  /** Checking a packet again succeeds exactly when the field holds its checksum, with 0xffff
      passing for 0. */
  lemma VerifiesIff(bs: seq<byte>, o: nat)
    requires o % 2 == 0 && o + 2 <= |bs| <= ONES
    ensures Verifies(bs) <==> Field(bs, o) == Computed(bs, o) || (Computed(bs, o) == 0 && Field(bs, o) == ONES)
  {
    SumOfField(bs, o, 0);
    NoOverflow(bs);
    Accepted(SumAll(SetField(bs, o, 0)), Field(bs, o));
  }

  /** So writing the checksum into the zeroed field makes ip_checksum return 0. */
  lemma StoredVerifies(bs: seq<byte>, o: nat)
    requires o % 2 == 0 && o + 2 <= |bs| <= ONES
    ensures Verifies(SetField(bs, o, Computed(bs, o)))
  {
    var bs' := SetField(bs, o, Computed(bs, o));
    SetFieldTwice(bs, o, Computed(bs, o), 0);
    VerifiesIff(bs', o);
  }

  // ---- incremental update ----

  /** Equation 3 of RFC 1624: taking words that sum to `before` out of a packet with checksum f and
      putting words that sum to `after` in; k is the number of words taken out. */
  lemma Update(rest: nat, before: nat, after: nat, k: nat, f: nat)
    requires f <= ONES && before <= ONES * k && (ONES - f) + (ONES * k - before) + after < TWO_32
    requires rest + before + f < TWO_32 && rest + after < TWO_32
    requires Final(rest + before + f) == 0
    ensures var sum := (ONES - f) + (ONES * k - before) + after;
            Final(sum) == Final(rest + after) <==> (sum == 0 <==> rest + after == 0)
  {
    var sum := (ONES - f) + (ONES * k - before) + after;
    hide Fold;
    FoldTwice(rest + before + f);
    FoldTwice(sum);
    FoldTwice(rest + after);
    assert Cong(rest + before + f, 0);
    UpdateCong(rest, before, after, k, f);
    var m, n := Fold(Fold(sum)), Fold(Fold(rest + after));
    CongTrans(m, sum, rest + after);
    CongAdd(n, rest + after, 0, 0);
    CongTrans(m, rest + after, n);
    if (sum == 0) == (rest + after == 0) {
      CongUnique(m, n);
    }
  }

  lemma UpdateCong(rest: int, before: int, after: int, k: int, f: int)
    requires Cong(rest + before + f, 0)
    ensures Cong((ONES - f) + (ONES * k - before) + after, rest + after)
  {
    var q := (rest + before + f) / ONES;
    assert rest + before + f == ONES * q;
    assert (ONES - f) + (ONES * k - before) + after - (rest + after) == ONES * (1 + k - q);
  }
}
