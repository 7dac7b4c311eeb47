/** 64-bit machine words, their bits, and the lowest-clear-bit search of include/utils.h.
    The machine operators are named, so that proofs rewrite with their laws and only the
    laws themselves are bit-level facts. Outside this module a word is the sequence of its
    bits, least significant first; `Pack` gives the machine word, and the last section shows
    that the source's mask operations on it are the sequence operations. */
module Bits {
  const ALL_ONES: bv64 := 0xffff_ffff_ffff_ffff

  function Or(w: bv64, h: bv64): bv64 { w | h }
  function Double(h: bv64): bv64 { h << 1 }
  function Half(w: bv64): bv64 { w >> 1 }
  predicate Odd(w: bv64) { w & 1 != 0 }
  predicate Meets(w: bv64, h: bv64) { w & h != 0 }
  predicate Less(g: bv64, h: bv64) { g < h }
  predicate Covers(w: bv64, h: bv64) { w & h == h }
  predicate IsOneHot(h: bv64) { h != 0 && h & (h - 1) == 0 }
  function Below(h: bv64): bv64 { h - 1 }
  function LowestClearMask(w: bv64): bv64 { !w & -!w }

  /** `1ul << k` */
  function OneHot(k: nat): bv64
    requires k < 64
  {
    if k == 0 then 1 else Double(OneHot(k - 1))
  }

  /** Bit k of w, by shifting it down to position 0; `MaskTest` shows it is `w & (1ul << k)`. */
  predicate Bit(w: bv64, k: nat) {
    if k == 0 then Odd(w) else Bit(Half(w), k - 1)
  }

  /** The position of the only set bit of a one-hot word: the six tests of `bits_find_zero`. */
  function Decode(h: bv64): nat {
    (if h & 0xffffffff00000000 != 0 then 32 else 0)
    + (if h & 0xffff0000ffff0000 != 0 then 16 else 0)
    + (if h & 0xff00ff00ff00ff00 != 0 then 8 else 0)
    + (if h & 0xf0f0f0f0f0f0f0f0 != 0 then 4 else 0)
    + (if h & 0xcccccccccccccccc != 0 then 2 else 0)
    + (if h & 0xaaaaaaaaaaaaaaaa != 0 then 1 else 0)
  }

  function FindZero(word: bv64): nat {
    Decode(LowestClearMask(word))
  }

  /** bits_find_zero: isolate the lowest clear bit, then test it against six masks. */
  method BitsFindZero(word: bv64) returns (i: nat)
    ensures i == FindZero(word)
  {
    var b := !word;
    b := b & -b;
    i := DecodeByTests(b);
  }

  method DecodeByTests(b: bv64) returns (i: nat)
    ensures i == Decode(b)
  {
    i := 0;
    if b & 0xffffffff00000000 != 0 { i := i + 32; }
    if b & 0xffff0000ffff0000 != 0 { i := i + 16; }
    if b & 0xff00ff00ff00ff00 != 0 { i := i + 8; }
    if b & 0xf0f0f0f0f0f0f0f0 != 0 { i := i + 4; }
    if b & 0xcccccccccccccccc != 0 { i := i + 2; }
    if b & 0xaaaaaaaaaaaaaaaa != 0 { i := i + 1; }
  }

  // ---- bit-level laws ----

  lemma DoubleOneHot(h: bv64)
    requires IsOneHot(h) && h != 0x8000_0000_0000_0000
    ensures IsOneHot(Double(h)) && Less(h, Double(h))
    ensures Decode(Double(h)) == Decode(h) + 1
  {}

  lemma HalfOneHot(h: bv64)
    requires IsOneHot(h) && h != 1
    ensures IsOneHot(Half(h)) && Half(h) != 0x8000_0000_0000_0000 && Double(Half(h)) == h
  {}

  lemma SmallerOneHot(g: bv64, h: bv64)
    requires IsOneHot(g) && IsOneHot(h) && Less(g, h)
    ensures Covers(Below(h), g)
  {}

  lemma MeetsDouble(w: bv64, h: bv64)
    requires Less(h, 0x8000_0000_0000_0000)
    ensures Meets(w, Double(h)) <==> Meets(Half(w), h)
  {}

  lemma OrDouble(w: bv64, h: bv64)
    requires Less(h, 0x8000_0000_0000_0000)
    ensures Half(Or(w, Double(h))) == Or(Half(w), h)
  {
    assert (w | (h << 1)) >> 1 == (w >> 1) | h;
  }

  lemma OrDoubleOdd(w: bv64, h: bv64)
    ensures Odd(Or(w, Double(h))) <==> Odd(w)
  {}

  lemma OrOne(w: bv64)
    ensures Odd(Or(w, 1)) && Half(Or(w, 1)) == Half(w)
  {}

  lemma CoversMeets(w: bv64, low: bv64, g: bv64)
    requires Covers(w, low) && Covers(low, g) && IsOneHot(g)
    ensures Meets(w, g)
  {}

  lemma LowestClearMaskLaw(w: bv64)
    requires w != ALL_ONES
    ensures IsOneHot(LowestClearMask(w)) && !Meets(w, LowestClearMask(w))
    ensures Covers(w, Below(LowestClearMask(w)))
  {}

  lemma LessTransitive(f: bv64, g: bv64, h: bv64)
    requires Less(f, g) && Less(g, h)
    ensures Less(f, h)
  {}

  lemma AllOnesCovers(g: bv64)
    requires IsOneHot(g)
    ensures Meets(ALL_ONES, g)
  {}

  // ---- one-hot words are exactly the shifts of 1 ----

  lemma {:induction false} DecodeOneHot(k: nat)
    requires k < 64
    ensures IsOneHot(OneHot(k)) && Decode(OneHot(k)) == k
  {
    if k > 0 {
      DecodeOneHot(k - 1);
      DoubleOneHot(OneHot(k - 1));
    }
  }

  lemma {:induction false} OneHotDecode(h: bv64)
    requires IsOneHot(h)
    ensures Decode(h) < 64 && OneHot(Decode(h)) == h
    decreases Decode(h)
  {
    if h != 1 {
      HalfOneHot(h);
      DoubleOneHot(Half(h));
      OneHotDecode(Half(h));
    }
  }

  lemma {:induction false} OneHotStep(k: nat)
    requires k < 63
    ensures Less(OneHot(k), OneHot(k + 1))
  {
    DecodeOneHot(k);
    DoubleOneHot(OneHot(k));
  }

  lemma {:induction false} OneHotGrows(j: nat, k: nat)
    requires j < k < 64
    ensures Less(OneHot(j), OneHot(k))
  {
    OneHotStep(k - 1);
    if j < k - 1 {
      OneHotGrows(j, k - 1);
      LessTransitive(OneHot(j), OneHot(k - 1), OneHot(k));
    }
  }

  lemma {:induction false} TopBitClear(k: nat)
    requires k < 63
    ensures Less(OneHot(k), 0x8000_0000_0000_0000)
  {
    OneHotDecode(0x8000_0000_0000_0000);
    OneHotGrows(k, 63);
  }

  // ---- masks and bits ----

  /** The source tests bit k as `w & (1ul << k)`. */
  lemma {:induction false} MaskTest(w: bv64, k: nat)
    requires k < 64
    ensures Bit(w, k) <==> Meets(w, OneHot(k))
  {
    if k > 0 {
      TopBitClear(k - 1);
      MeetsDouble(w, OneHot(k - 1));
      MaskTest(Half(w), k - 1);
    }
  }

  lemma {:induction false} OrOneHot(w: bv64, k: nat)
    requires 0 < k < 64
    ensures Half(Or(w, OneHot(k))) == Or(Half(w), OneHot(k - 1))
    ensures Odd(Or(w, OneHot(k))) <==> Odd(w)
  {
    TopBitClear(k - 1);
    OrDouble(w, OneHot(k - 1));
    OrDoubleOdd(w, OneHot(k - 1));
  }

  /** `w |= 1ul << k` sets bit k and no other. */
  lemma {:induction false} SetBit(w: bv64, k: nat, j: nat)
    requires k < 64
    ensures Bit(Or(w, OneHot(k)), j) <==> j == k || Bit(w, j)
  {
    if k == 0 {
      OrOne(w);
    } else {
      OrOneHot(w, k);
      if j > 0 {
        SetBit(Half(w), k - 1, j - 1);
      }
    }
  }

  lemma {:induction false} CoveredBelow(w: bv64, j: nat, k: nat)
    requires j < k < 64
    requires Covers(w, Below(OneHot(k)))
    ensures Bit(w, j)
  {
    DecodeOneHot(j);
    DecodeOneHot(k);
    OneHotGrows(j, k);
    SmallerOneHot(OneHot(j), OneHot(k));
    CoversMeets(w, Below(OneHot(k)), OneHot(j));
    MaskTest(w, j);
  }

  /** For every word but all-ones, bits_find_zero gives the lowest clear bit. */
  lemma {:induction false} FindZeroIsLowestClear(word: bv64)
    requires word != ALL_ONES
    ensures FindZero(word) < 64 && !Bit(word, FindZero(word))
    ensures forall j :: 0 <= j < FindZero(word) ==> Bit(word, j)
  {
    LowestClearMaskLaw(word);
    OneHotDecode(LowestClearMask(word));
    MaskTest(word, FindZero(word));
    forall j | 0 <= j < FindZero(word)
      ensures Bit(word, j)
    {
      CoveredBelow(word, j, FindZero(word));
    }
  }

  lemma {:induction false} AllOnesHasEveryBit(k: nat)
    requires k < 64
    ensures Bit(ALL_ONES, k)
  {
    DecodeOneHot(k);
    AllOnesCovers(OneHot(k));
    MaskTest(ALL_ONES, k);
  }

  // ---- words as bit sequences ----

  type Word = s: seq<bool> | |s| == 64 witness seq(64, _ => false)

  /** The number whose binary digits, least significant first, are s. */
  function Pack(s: seq<bool>): bv64 {
    if s == [] then 0 else if s[0] then Or(Double(Pack(s[1..])), 1) else Double(Pack(s[1..]))
  }

  lemma {:induction false} ZeroHasNoBit(k: nat)
    ensures !Bit(0, k)
  {
    if k > 0 {
      ZeroHasNoBit(k - 1);
    }
  }

  lemma TopBitTest(w: bv64)
    requires !Meets(w, 0x8000_0000_0000_0000)
    ensures Less(w, 0x8000_0000_0000_0000)
  {}

  lemma HalfOfDouble(w: bv64)
    requires Less(w, 0x8000_0000_0000_0000)
    ensures Half(Double(w)) == w && Half(Or(Double(w), 1)) == w
    ensures !Odd(Double(w)) && Odd(Or(Double(w), 1))
  {}

  lemma OrAgain(a: bv64)
    ensures Or(Or(a, 1), 1) == Or(a, 1)
  {
    assert (a | 1) | 1 == a | 1;
  }

  lemma DoubleOr(a: bv64, b: bv64)
    ensures Double(Or(a, b)) == Or(Double(a), Double(b))
  {
    assert (a | b) << 1 == (a << 1) | (b << 1);
  }

  lemma OrSwap(a: bv64, b: bv64)
    ensures Or(Or(a, b), 1) == Or(Or(a, 1), b)
  {
    assert (a | b) | 1 == (a | 1) | b;
  }

  lemma {:induction false} BitPack(s: seq<bool>, k: nat)
    requires |s| <= 64 && k < 64
    ensures Bit(Pack(s), k) <==> k < |s| && s[k]
  {
    if s == [] {
      ZeroHasNoBit(k);
    } else {
      var w := Pack(s[1..]);
      BitPack(s[1..], 63);
      MaskTest(w, 63);
      OneHotDecode(0x8000_0000_0000_0000);
      TopBitTest(w);
      HalfOfDouble(w);
      if k > 0 {
        BitPack(s[1..], k - 1);
      }
    }
  }

  /** `word |= 1ul << k` is setting element k. */
  lemma {:induction false} PackSet(s: seq<bool>, k: nat)
    requires k < |s| <= 64
    ensures Pack(s[k := true]) == Or(Pack(s), OneHot(k))
  {
    if k == 0 {
      assert s[0 := true][1..] == s[1..];
      OrAgain(Double(Pack(s[1..])));
    } else {
      assert s[k := true][1..] == s[1..][k - 1 := true];
      PackSet(s[1..], k - 1);
      DoubleOr(Pack(s[1..]), OneHot(k - 1));
      OrSwap(Double(Pack(s[1..])), OneHot(k));
    }
  }

  /** `word & (1ul << k)` is element k. */
  lemma {:induction false} PackTest(s: Word, k: nat)
    requires k < 64
    ensures Meets(Pack(s), OneHot(k)) <==> s[k]
  {
    BitPack(s, k);
    MaskTest(Pack(s), k);
  }

  /** A word differs from -1ul exactly when it has a clear bit; bits_find_zero then gives
      the lowest one. */
  lemma {:induction false} FindZeroPack(s: Word)
    ensures Pack(s) != ALL_ONES <==> exists k :: 0 <= k < 64 && !s[k]
    ensures Pack(s) != ALL_ONES ==>
              var i := FindZero(Pack(s));
              i < 64 && !s[i] && forall j :: 0 <= j < i ==> s[j]
  {
    if Pack(s) == ALL_ONES {
      forall k | 0 <= k < 64
        ensures s[k]
      {
        AllOnesHasEveryBit(k);
        BitPack(s, k);
      }
    } else {
      var i := FindZero(Pack(s));
      FindZeroIsLowestClear(Pack(s));
      BitPack(s, i);
      forall j | 0 <= j < i
        ensures s[j]
      {
        BitPack(s, j);
      }
    }
  }
}
