/** Bytes and little-endian numbers, as the C structures of the source lay them out. */
module Bytes {
  newtype byte = x: int | 0 <= x < 256

  datatype Option<+T> = None | Some(value: T)

  function Pow256(n: nat): (r: nat)
    ensures r > 0
  {
    if n == 0 then 1 else 256 * Pow256(n - 1)
  }

  /** The number stored little-endian in s. */
  function FromLe(s: seq<byte>): nat {
    if s == [] then 0 else s[0] as nat + 256 * FromLe(s[1..])
  }

  /** The n low-order bytes of v, least significant first. */
  function ToLe(v: nat, n: nat): (s: seq<byte>)
    ensures |s| == n
  {
    if n == 0 then [] else [(v % 256) as byte] + ToLe(v / 256, n - 1)
  }

  lemma {:induction false} FromToLe(v: nat, n: nat)
    requires v < Pow256(n)
    ensures FromLe(ToLe(v, n)) == v
  {
    if n > 0 {
      FromToLe(v / 256, n - 1);
      assert ToLe(v, n)[1..] == ToLe(v / 256, n - 1);
    }
  }

  lemma {:induction false} FromLeBound(s: seq<byte>)
    ensures FromLe(s) < Pow256(|s|)
  {
    if s != [] {
      FromLeBound(s[1..]);
    }
  }

  lemma {:induction false} ToFromLe(s: seq<byte>)
    ensures ToLe(FromLe(s), |s|) == s
  {
    if s != [] {
      ToFromLe(s[1..]);
      assert FromLe(s) % 256 == s[0] as nat && FromLe(s) / 256 == FromLe(s[1..]);
    }
  }

  const TWO_32: nat := 0x1_0000_0000
  const TWO_64: nat := 0x1_0000_0000_0000_0000

  function Min(a: nat, b: nat): nat {
    if a < b then a else b
  }

  lemma Pow256Of8()
    ensures Pow256(8) == TWO_64
  {
    assert Pow256(4) == 0x1_0000_0000;
    assert Pow256(8) == 256 * (256 * (256 * (256 * Pow256(4))));
  }

  /** Writing bs over s at offset o: memcpy(s + o, bs, |bs|). */
  function Overlay(s: seq<byte>, o: nat, bs: seq<byte>): (r: seq<byte>)
    requires o + |bs| <= |s|
    ensures |r| == |s|
    ensures forall i :: 0 <= i < |s| ==> r[i] == if o <= i < o + |bs| then bs[i - o] else s[i]
  {
    s[..o] + bs + s[o + |bs|..]
  }

  function Zeros(n: nat): (s: seq<byte>)
    ensures |s| == n && forall i :: 0 <= i < n ==> s[i] == 0
  {
    seq(n, _ => 0)
  }

  lemma {:induction false} FromLeZeros(n: nat)
    ensures FromLe(Zeros(n)) == 0
  {
    if n > 0 {
      FromLeZeros(n - 1);
      assert Zeros(n)[1..] == Zeros(n - 1);
    }
  }

  lemma SliceOfSlice(s: seq<byte>, at: nat, len: nat, o: nat, n: nat)
    requires at + len <= |s| && o + n <= len
    ensures s[at + o..at + o + n] == s[at..at + len][o..o + n]
  {
    var whole, part := s[at + o..at + o + n], s[at..at + len];
    forall k: nat | k < n
      ensures whole[k] == part[o + k]
    {
      assert part[o + k] == s[at + (o + k)];
    }
  }

  /** The last byte is the most significant one. */
  lemma {:induction false} HighByteLast(s: seq<byte>, b: byte)
    ensures FromLe(s + [b]) == FromLe(s) + Pow256(|s|) * b as nat
  {
    if s == [] {
      assert [b][1..] == [];
    } else {
      assert (s + [b])[1..] == s[1..] + [b];
      HighByteLast(s[1..], b);
    }
  }
}
