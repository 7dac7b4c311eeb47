/** Page-table entries and virtual addresses of arch/riscv/include/mmu.h. An entry is the
    64-bit number stored in memory; a page frame is named by its number. */
module Sv39 {
  const PGSIZE: nat := 4096
  const ENTRIES: nat := 512
  const VPNS: nat := 0x800_0000
  const USER_TOP: nat := 0x40_0000_0000
  const USER_BOTTOM: nat := 0x1000

  /** The VM_* flags of a mapping. */
  datatype Flags = Flags(r: bool, w: bool, x: bool, u: bool, a: bool, d: bool)

  const NO_FLAGS := Flags(false, false, false, false, false, false)

  // ---- shifts and single bits of a number ----

  /** n >> k */
  function Shr(n: nat, k: nat): nat {
    if k == 0 then n else Shr(n / 2, k - 1)
  }

  /** n & (1 << k) */
  predicate Digit(n: nat, k: nat) {
    Shr(n, k) % 2 == 1
  }

  /** n | (1 << k) */
  function SetDigit(n: nat, k: nat): nat {
    if k == 0 then (if n % 2 == 1 then n else n + 1) else n % 2 + 2 * SetDigit(n / 2, k - 1)
  }

  /** The number with low-order bits bs below the bits of high: the bitwise or of shifted parts. */
  function FromBits(bs: seq<bool>, high: nat): nat {
    if bs == [] then high else (if bs[0] then 1 else 0) + 2 * FromBits(bs[1..], high)
  }

  lemma {:induction false} ShrFromBits(bs: seq<bool>, high: nat, k: nat)
    requires k <= |bs|
    ensures Shr(FromBits(bs, high), k) == FromBits(bs[k..], high)
  {
    if k > 0 {
      ShrFromBits(bs[1..], high, k - 1);
      assert bs[1..][k - 1..] == bs[k..];
      assert FromBits(bs, high) / 2 == FromBits(bs[1..], high);
    } else {
      assert bs[0..] == bs;
    }
  }

  lemma DigitFromBits(bs: seq<bool>, high: nat, k: nat)
    requires k < |bs|
    ensures Digit(FromBits(bs, high), k) == bs[k]
  {
    ShrFromBits(bs, high, k);
  }

  lemma {:induction false} DigitOfSet(n: nat, k: nat, j: nat)
    ensures Digit(SetDigit(n, k), j) <==> j == k || Digit(n, j)
  {
    if k > 0 && j > 0 {
      DigitOfSet(n / 2, k - 1, j - 1);
    }
  }

  lemma {:induction false} ShrOfSet(n: nat, k: nat, m: nat)
    requires k < m
    ensures Shr(SetDigit(n, k), m) == Shr(n, m)
  {
    if k > 0 {
      ShrOfSet(n / 2, k - 1, m - 1);
    }
  }

  // ---- sizes ----

  /** n << k */
  function Shl(n: nat, k: nat): nat {
    if k == 0 then n else 2 * Shl(n, k - 1)
  }

  lemma {:induction false} FromBitsBound(bs: seq<bool>, high: nat)
    ensures FromBits(bs, high) < Shl(high + 1, |bs|)
  {
    if bs != [] {
      FromBitsBound(bs[1..], high);
    }
  }

  lemma ShlStep(m: nat)
    requires m > 0
    ensures Shl(1, m) == 2 * Shl(1, m - 1)
  {}

  lemma Halved(n: nat, s: nat)
    requires n < 2 * s
    ensures n / 2 < s && (n % 2 == 1 || n + 1 < 2 * s)
  {}

  lemma SetDigitStep(n: nat, k: nat)
    ensures SetDigit(n, 0) == (if n % 2 == 1 then n else n + 1)
    ensures k > 0 ==> SetDigit(n, k) <= 1 + 2 * SetDigit(n / 2, k - 1)
  {}

  lemma {:induction false} SetDigitBound(n: nat, k: nat, m: nat)
    requires n < Shl(1, m) && k < m
    ensures SetDigit(n, k) < Shl(1, m)
  {
    hide Shl, SetDigit;
    ShlStep(m);
    Halved(n, Shl(1, m - 1));
    SetDigitStep(n, k);
    if k > 0 {
      SetDigitBound(n / 2, k - 1, m - 1);
    }
  }

  // ---- page-table entries ----

  // positions of the PTE_* bits, and of the page number
  const V: nat := 0
  const R: nat := 1
  const W: nat := 2
  const X: nat := 3
  const U: nat := 4
  const A: nat := 6
  const D: nat := 7
  const PPN: nat := 10

  predicate PteValid(pte: nat) {
    pte % 2 == 1
  }

  /** PTE_TABLE: valid, and neither readable nor writable nor executable. */
  predicate PteTable(pte: nat) {
    PteValid(pte) && !Digit(pte, R) && !Digit(pte, W) && !Digit(pte, X)
  }

  /** PTE_PPN, as a frame number. */
  function PteFrame(pte: nat): nat {
    Shr(pte, PPN)
  }

  /** The mapping flags held by an entry. */
  function PteFlags(pte: nat): Flags {
    Flags(Digit(pte, R), Digit(pte, W), Digit(pte, X), Digit(pte, U), Digit(pte, A), Digit(pte, D))
  }

  /** `(pte & pte_flags(f)) == pte_flags(f)` */
  predicate HoldsAll(have: Flags, want: Flags) {
    && (want.r ==> have.r) && (want.w ==> have.w) && (want.x ==> have.x)
    && (want.u ==> have.u) && (want.a ==> have.a) && (want.d ==> have.d)
  }

  /** make_pte: a leaf takes the given flags; an inner entry has A and D set, and only U
      is taken from the flags. */
  function MakePte(level: nat, frame: nat, f: Flags): nat {
    FromBits(PteBits(if level == 0 then f else Flags(false, false, false, f.u, true, true)), frame)
  }

  function PteBits(f: Flags): seq<bool> {
    [true, f.r, f.w, f.x, f.u, false, f.a, f.d, false, false]
  }

  /** `pte |= ad`: PTE_A, and PTE_D as well for a store. */
  function Touch(pte: nat, store: bool): nat {
    var a := SetDigit(pte, A);
    if store then SetDigit(a, D) else a
  }

  lemma FromBitsOfPte(f: Flags, frame: nat)
    ensures var pte := FromBits(PteBits(f), frame);
            PteValid(pte) && PteFrame(pte) == frame && PteFlags(pte) == f
  {
    var bs := PteBits(f);
    DigitFromBits(bs, frame, V);
    DigitFromBits(bs, frame, R);
    DigitFromBits(bs, frame, W);
    DigitFromBits(bs, frame, X);
    DigitFromBits(bs, frame, U);
    DigitFromBits(bs, frame, A);
    DigitFromBits(bs, frame, D);
    ShrFromBits(bs, frame, PPN);
  }

  lemma MakePteSpec(level: nat, frame: nat, f: Flags)
    ensures var pte := MakePte(level, frame, f);
            && PteValid(pte) && PteFrame(pte) == frame
            && (level == 0 ==> PteFlags(pte) == f)
            && (level > 0 ==> PteTable(pte) && PteFlags(pte) == Flags(false, false, false, f.u, true, true))
  {
    FromBitsOfPte(if level == 0 then f else Flags(false, false, false, f.u, true, true), frame);
  }

  function Bit(b: bool): nat {
    if b then 1 else 0
  }

  lemma FromBitsStep(bs: seq<bool>, high: nat)
    requires bs != []
    ensures FromBits(bs, high) == Bit(bs[0]) + 2 * FromBits(bs[1..], high)
  {}

  /** The number that make_pte stores: V, R, W, X, U, A and D at bits 0, 1, 2, 3, 4, 6 and 7, the
      frame from bit 10 on, nothing at bits 5, 8 and 9; A and D always set in an inner entry. */
  lemma PteNumber(level: nat, frame: nat, f: Flags)
    ensures level == 0 ==>
              MakePte(level, frame, f)
              == 1024 * frame + 1 + 2 * Bit(f.r) + 4 * Bit(f.w) + 8 * Bit(f.x) + 16 * Bit(f.u) + 64 * Bit(f.a)
                 + 128 * Bit(f.d)
    ensures level > 0 ==> MakePte(level, frame, f) == 1024 * frame + 1 + 16 * Bit(f.u) + 64 + 128
  {
    var g := if level == 0 then f else Flags(false, false, false, f.u, true, true);
    hide FromBits;
    FiveBits(PteBits(g), frame);
    HighBits(PteBits(g)[5..], frame);
  }

  lemma FiveBits(bs: seq<bool>, frame: nat)
    requires |bs| >= 5
    ensures FromBits(bs, frame)
            == Bit(bs[0]) + 2 * Bit(bs[1]) + 4 * Bit(bs[2]) + 8 * Bit(bs[3]) + 16 * Bit(bs[4])
               + 32 * FromBits(bs[5..], frame)
  {
    hide FromBits, Bit;
    FromBitsStep(bs, frame);
    FromBitsStep(bs[1..], frame);
    FromBitsStep(bs[2..], frame);
    FromBitsStep(bs[3..], frame);
    FromBitsStep(bs[4..], frame);
    assert bs[1..][1..] == bs[2..] && bs[2..][1..] == bs[3..] && bs[3..][1..] == bs[4..] && bs[4..][1..] == bs[5..];
  }

  /** Bits 5 to 9 and the frame. */
  lemma HighBits(bs: seq<bool>, frame: nat)
    requires |bs| == 5 && !bs[0] && !bs[3] && !bs[4]
    ensures FromBits(bs, frame) == 2 * Bit(bs[1]) + 4 * Bit(bs[2]) + 32 * frame
  {
    FromBitsStep(bs, frame);
    FromBitsStep(bs[1..], frame);
    FromBitsStep(bs[1..][1..], frame);
    FromBitsStep(bs[1..][1..][1..], frame);
    FromBitsStep(bs[1..][1..][1..][1..], frame);
    assert bs[1..][1..][1..][1..][1..] == [];
  }

  lemma Halves(n: nat)
    ensures n / 2 / 2 == n / 4 && n / 4 / 2 == n / 8 && n / 8 / 2 == n / 16 && n / 16 / 2 == n / 32
    ensures n / 32 / 2 == n / 64 && n / 64 / 2 == n / 128
  {}

  lemma ShrStep(n: nat, k: nat)
    ensures Shr(n, k + 1) == Shr(n, k) / 2
  {
    if k > 0 {
      ShrStep(n / 2, k - 1);
    }
  }

  /** An entry as a number: the bits that are read are those of PteNumber, an entry with bit 0 but none
      of bits 1 to 3 refers to a table, and the frame starts at bit 10. */
  lemma PteFields(pte: nat)
    ensures PteFlags(pte) == Flags(pte / 2 % 2 == 1, pte / 4 % 2 == 1, pte / 8 % 2 == 1, pte / 16 % 2 == 1,
                                   pte / 64 % 2 == 1, pte / 128 % 2 == 1)
    ensures PteTable(pte) <==> pte % 16 == 1
    ensures 1024 * PteFrame(pte) <= pte < 1024 * PteFrame(pte) + 1024
  {
    hide Shr;
    Shifts(pte);
    Halves(pte);
    ShrStep(pte, 7);
    ShrStep(pte, 8);
    ShrStep(pte, 9);
    LowBits(pte);
  }

  lemma Shifts(n: nat)
    ensures Shr(n, 0) == n && Shr(n, 1) == n / 2 && Shr(n, 2) == n / 4 && Shr(n, 3) == n / 8 && Shr(n, 4) == n / 16
    ensures Shr(n, 5) == n / 32 && Shr(n, 6) == n / 64 && Shr(n, 7) == n / 128
  {
    assert Shr(n, 0) == n;
    hide Shr;
    Halves(n);
    ShrStep(n, 0);
    ShrStep(n, 1);
    ShrStep(n, 2);
    ShrStep(n, 3);
    ShrStep(n, 4);
    ShrStep(n, 5);
    ShrStep(n, 6);
  }

  lemma LowBits(n: nat)
    ensures n % 16 == n % 2 + 2 * (n / 2 % 2) + 4 * (n / 4 % 2) + 8 * (n / 8 % 2)
  {
    Halves(n);
    LowBit(n);
    LowBit(n / 2);
    LowBit(n / 4);
    LowBit(n / 8);
    RemainderOf16(n, n / 16, n % 2 + 2 * (n / 2 % 2) + 4 * (n / 4 % 2) + 8 * (n / 8 % 2));
  }

  lemma LowBit(n: nat)
    ensures n == n % 2 + 2 * (n / 2) && n % 2 <= 1
  {}

  lemma RemainderOf16(n: nat, q: nat, r: nat)
    requires n == 16 * q + r && r < 16
    ensures n % 16 == r
  {}

  lemma SetDigitAdds(n: nat, k: nat)
    ensures SetDigit(n, k) == if Digit(n, k) then n else n + Shl(1, k)
  {
    if k > 0 {
      SetDigitAdds(n / 2, k - 1);
    }
  }

  /** Touching an entry adds bit 6, and for a store bit 7, where they are clear, and nothing else. */
  lemma TouchNumber(pte: nat, store: bool)
    ensures Touch(pte, store)
            == pte + (if pte / 64 % 2 == 1 then 0 else 64) + (if !store || pte / 128 % 2 == 1 then 0 else 128)
  {
    hide SetDigit, Shr, Shl;
    Shifts(pte);
    SetDigitAdds(pte, A);
    SetDigitAdds(SetDigit(pte, A), D);
    Shifts(SetDigit(pte, A));
    PowersOfTwo();
    TopBitStays(pte);
  }

  lemma PowersOfTwo()
    ensures Shl(1, 6) == 64 && Shl(1, 7) == 128
  {
    assert Shl(1, 4) == 2 * Shl(1, 3) && Shl(1, 5) == 2 * Shl(1, 4) && Shl(1, 6) == 2 * Shl(1, 5);
  }

  lemma TopBitStays(n: nat)
    ensures n / 64 % 2 == 0 ==> (n + 64) / 128 == n / 128
  {}

  /** Asking for flags is an order: everything has no flags, and two that hold each other are equal. */
  lemma HoldsAllIsOrder(f: Flags, g: Flags, h: Flags)
    ensures HoldsAll(f, f) && HoldsAll(f, NO_FLAGS)
    ensures HoldsAll(f, g) && HoldsAll(g, h) ==> HoldsAll(f, h)
    ensures HoldsAll(f, g) && HoldsAll(g, f) ==> f == g
  {}

  lemma SetDigitInPte(pte: nat, k: nat)
    requires 0 < k < PPN
    ensures var t := SetDigit(pte, k);
            && PteValid(t) == PteValid(pte) && PteFrame(t) == PteFrame(pte)
            && PteFlags(t) == Flags(k == R || Digit(pte, R), k == W || Digit(pte, W), k == X || Digit(pte, X),
                                    k == U || Digit(pte, U), k == A || Digit(pte, A), k == D || Digit(pte, D))
  {
    DigitOfSet(pte, k, V);
    DigitOfSet(pte, k, R);
    DigitOfSet(pte, k, W);
    DigitOfSet(pte, k, X);
    DigitOfSet(pte, k, U);
    DigitOfSet(pte, k, A);
    DigitOfSet(pte, k, D);
    ShrOfSet(pte, k, PPN);
  }

  lemma TouchSpec(pte: nat, store: bool)
    ensures var t := Touch(pte, store);
            && PteValid(t) == PteValid(pte) && PteFrame(t) == PteFrame(pte)
            && PteFlags(t) == PteFlags(pte).(a := true, d := store || PteFlags(pte).d)
  {
    SetDigitInPte(pte, A);
    SetDigitInPte(SetDigit(pte, A), D);
  }

  // ---- virtual addresses ----

  /** PT_IDX: the level-th 9-bit digit of the page number. */
  function PtIdx(level: nat, va: nat): (i: nat)
    ensures i < ENTRIES
  {
    var page := va / PGSIZE;
    (if level == 0 then page else if level == 1 then page / 512 else page / 512 / 512) % 512
  }

  /** The virtual page number an address is translated by: its three indices, 27 bits in all. */
  function Vpn(va: nat): (v: nat)
    ensures v < VPNS
  {
    512 * (512 * PtIdx(2, va) + PtIdx(1, va)) + PtIdx(0, va)
  }

  lemma VpnDigits(va: nat)
    ensures Vpn(va) / 512 == 512 * PtIdx(2, va) + PtIdx(1, va) && Vpn(va) % 512 == PtIdx(0, va)
    ensures Vpn(va) / 512 / 512 == PtIdx(2, va) && Vpn(va) / 512 % 512 == PtIdx(1, va)
  {}

  /** Below 2^39 the page number is the whole of `va >> PGSHIFT`. */
  lemma VpnIsPage(va: nat)
    requires va / PGSIZE < VPNS
    ensures Vpn(va) == va / PGSIZE
  {
    var p0 := va / PGSIZE;
    var p1 := p0 / 512;
    var p2 := p1 / 512;
    assert p2 < 512;
  }

  /** PGALIGN_FLOOR and PGALIGN */
  function PgAlignFloor(x: nat): nat {
    x / PGSIZE * PGSIZE
  }

  function PgAlign(x: nat): nat {
    (x + PGSIZE - 1) / PGSIZE * PGSIZE
  }
}
