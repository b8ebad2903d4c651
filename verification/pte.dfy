/** Page table entries: a frame address between flag bits. */
module Pte {
  import opened Words
  import opened Machine
  import opened PhysMem
  import opened Pmm

  const PRESENT := 0x1
  const WRITABLE := 0x2
  const USER := 0x4
  const PS := 0x80
  const LOCKED := 0x200
  const NX := 0x8000_0000_0000_0000
  const MASK := 0x000f_ffff_ffff_f000

  predicate Present(e: nat) {
    And(e, PRESENT) != 0
  }

  predicate Large(e: nat) {
    And(e, PS) != 0
  }

  function AddrOf(e: nat): nat {
    And(e, MASK)
  }

  /** Entries of a table, of one set up for all address spaces, and of a page. */
  function TableEntry(phys: nat): nat {
    Or(And(phys, MASK), Or(Or(PRESENT, WRITABLE), USER))
  }

  function LockedEntry(phys: nat): nat {
    Or(phys, Or(Or(PRESENT, WRITABLE), LOCKED))
  }

  function PageEntry(phys: nat, flags: nat): nat {
    Or(And(phys, MASK), Or(PRESENT, flags))
  }

  // --- what the processor reads off an entry, by bit positions ---

  /** What a page or a table lets through. */
  datatype Rights = Rights(user: bool, write: bool, noExec: bool)

  /** Bits 2, 1 and 63. */
  function RightsOf(e: nat): Rights {
    Rights(e / 4 % 2 == 1, e / 2 % 2 == 1, e / 0x8000_0000_0000_0000 % 2 == 1)
  }

  /** What is left of the rights below an entry. */
  function Narrow(r: Rights, below: Rights): Rights {
    Rights(r.user && below.user, r.write && below.write, r.noExec || below.noExec)
  }

  /** Bits 12 to 51, as an address. */
  function FrameOf(e: nat): nat {
    e / PAGE % 0x100_0000_0000 * PAGE
  }

  /** An entry with every bit accounted for: bit 0 is set, the address bits are those of
      `phys`, and all others those of the flags. */
  ghost predicate EntryBits(e: nat, phys: nat, flags: nat) {
    && e < WORD
    && forall i: nat | i < 64 ::
         WordBit(e, i) == 1 <==> i == 0 || WordBit(flags, i) == 1 || (12 <= i < 52 && WordBit(phys, i) == 1)
  }

  /** Flags that stay out of the address bits. */
  ghost predicate FlagsOk(flags: nat) {
    flags < WORD && And(flags, MASK) == 0
  }

  lemma {:induction false} AndOr(x: nat, y: nat, m: nat)
    ensures And(Or(x, y), m) == Or(And(x, m), And(y, m))
    decreases x + y, m
  {
    if x == 0 && y == 0 {
    } else {
      AndOr(x / 2, y / 2, m / 2);
      AndDigit(x, m);
      AndDigit(y, m);
      OrDigit(And(x, m), And(y, m));
      AndDigit(Or(x, y), m);
      OrDigit(x, y);
    }
  }

  lemma AndDigit(x: nat, m: nat)
    ensures And(x, m) % 2 == (if x % 2 == 1 && m % 2 == 1 then 1 else 0) && And(x, m) / 2 == And(x / 2, m / 2)
  {
  }

  lemma OrDigit(x: nat, y: nat)
    ensures Or(x, y) % 2 == (if x % 2 == 1 || y % 2 == 1 then 1 else 0) && Or(x, y) / 2 == Or(x / 2, y / 2)
  {
  }

  lemma {:induction false} AndTwice(x: nat, m: nat)
    ensures And(And(x, m), m) == And(x, m)
    decreases x, m
  {
    if x > 0 {
      AndTwice(x / 2, m / 2);
      AndDigit(x, m);
      AndDigit(And(x, m), m);
    }
  }

  lemma {:induction false} OrIsZero(x: nat)
    ensures Or(x, 0) == x
  {
    if x > 0 { OrIsZero(x / 2); }
  }

  lemma {:induction false} OrBound(x: nat, y: nat, n: nat)
    requires x < Pow2(n) && y < Pow2(n)
    ensures Or(x, y) < Pow2(n)
    decreases n
  {
    if n > 0 { OrBound(x / 2, y / 2, n - 1); OrDigit(x, y); }
  }

  lemma {:induction false} AndBound(x: nat, m: nat)
    ensures And(x, m) <= x && And(x, m) <= m
    decreases x, m
  {
    if x > 0 { AndBound(x / 2, m / 2); AndDigit(x, m); }
  }

  lemma {:induction false} AndShl(x: nat, m: nat, k: nat)
    ensures And(Shl(x, k), Shl(m, k)) == Shl(And(x, m), k)
    decreases k
  {
    if k > 0 {
      AndShl(x, m, k - 1);
      AndDigit(Shl(x, k), Shl(m, k));
    }
  }

  lemma {:induction false} Pow2Add(m: nat, n: nat)
    ensures Pow2(m + n) == Pow2(m) * Pow2(n)
    decreases m
  {
    if m > 0 { Pow2Add(m - 1, n); }
  }

  lemma WidePowers()
    ensures Pow2(12) == PAGE && Pow2(40) == 0x100_0000_0000 && Pow2(64) == WORD
  {
    Pow2Values();
    Pow2Add(10, 10);
    Pow2Add(20, 20);
    Pow2Add(12, 12);
    Pow2Add(40, 24);
  }

  lemma MaskIs()
    ensures MASK == Shl(Pow2(40) - 1, 12)
  {
    WidePowers();
    ShlIs(Pow2(40) - 1, 12);
  }

  /** The mask keeps a frame address whole. */
  lemma MaskFrame(f: nat)
    requires f % PAGE == 0 && f < PHYS_END
    ensures And(f, MASK) == f
  {
    var q := f / PAGE;
    WidePowers();
    ShlIs(q, 12);
    MaskIs();
    MaskShifted(q, 40, 12);
  }

  lemma MaskShifted(q: nat, n: nat, k: nat)
    requires q < Pow2(n)
    ensures And(Shl(q, k), Shl(Pow2(n) - 1, k)) == Shl(q, k)
  {
    AndShl(q, Pow2(n) - 1, k);
    AndMask(q, n);
    LowSmall(q, n);
  }

  /** Its low bits are clear. */
  lemma FrameLow(f: nat)
    requires f % PAGE == 0
    ensures And(f, PS) == 0
  {
    BitSevenClear(16 * (f / PAGE));
  }

  lemma BitSevenClear(q: nat)
    ensures And(256 * q, PS) == 0
  {
    Pow2Values();
    ShlIs(2 * q, 7);
    ShlIs(1, 7);
    EvenClear(q);
    AndShl(2 * q, 1, 7);
    ShlIs(0, 7);
  }

  lemma EvenClear(q: nat)
    ensures And(2 * q, 1) == 0
  {
    AndDigit(2 * q, 1);
    AndZero(q);
  }

  lemma OddPresent(e: nat)
    ensures Present(e) <==> e % 2 == 1
  {
    AndDigit(e, 1);
    AndZero(e / 2);
  }

  /** A frame address under small odd flags: present, not large, and the address comes back. */
  lemma FlaggedFrame(f: nat, flags: nat)
    requires f % PAGE == 0 && f < PHYS_END && flags < PAGE && flags % 2 == 1 && And(flags, PS) == 0
    ensures Present(Or(f, flags)) && AddrOf(Or(f, flags)) == f && !Large(Or(f, flags)) && Or(f, flags) < WORD
  {
    MaskFrame(f);
    OddPresent(Or(f, flags));
    OrDigit(f, flags);
    AndOr(f, flags, MASK);
    MaskSmall(flags);
    OrIsZero(f);
    AndOr(f, flags, PS);
    FrameLow(f);
    OrIsZero(0);
    EntryBound(f, flags);
  }

  /** A frame address carries no rights. */
  lemma FrameRights(f: nat, flags: nat)
    requires f % PAGE == 0 && f < PHYS_END
    ensures RightsOf(Or(f, flags)) == RightsOf(flags)
  {
    PlainFrame(f / PAGE);
    OrRights(f, flags);
  }

  lemma PlainFrame(q: nat)
    requires q * PAGE < PHYS_END
    ensures RightsOf(q * PAGE) == Rights(false, false, false)
  {
    assert q * PAGE / 4 == q * 1024 && q * PAGE / 2 == q * 2048;
  }

  /** A table's entry lets everything through. */
  lemma TableEntryOk(f: nat)
    requires f % PAGE == 0 && f < PHYS_END
    ensures Present(TableEntry(f)) && AddrOf(TableEntry(f)) == f && !Large(TableEntry(f)) && TableEntry(f) < WORD
    ensures RightsOf(TableEntry(f)) == Rights(true, true, false) && EntryBits(TableEntry(f), f, 6)
  {
    MaskFrame(f);
    SmallFlags();
    MaskSmall(6);
    OrDigit(PRESENT, 6);
    assert Or(0, 3) == 3 by { OrZero(3); }
    PageEntryBits(f, 6);
    FlaggedFrame(f, 7);
    FrameRights(f, 7);
  }

  /** An entry set up for all address spaces keeps users out. */
  lemma LockedEntryOk(f: nat)
    requires f % PAGE == 0 && f < PHYS_END
    ensures Present(LockedEntry(f)) && AddrOf(LockedEntry(f)) == f && !Large(LockedEntry(f)) && LockedEntry(f) < WORD
    ensures RightsOf(LockedEntry(f)) == Rights(false, true, false) && EntryBits(LockedEntry(f), f, 0x202)
  {
    SmallFlags();
    MaskFrame(f);
    MaskSmall(0x202);
    OrDigit(PRESENT, 0x202);
    assert Or(0, 0x101) == 0x101 by { OrZero(0x101); }
    PageEntryBits(f, 0x202);
    FlaggedFrame(f, 0x203);
    FrameRights(f, 0x203);
  }

  lemma SmallFlags()
    ensures Or(Or(PRESENT, WRITABLE), USER) == 7 && And(7, PS) == 0
    ensures Or(Or(PRESENT, WRITABLE), LOCKED) == 0x203 && And(0x203, PS) == 0
  {
    assert Or(1, 2) == 3 && Or(3, 4) == 7;
    assert Or(0, 0x80) == 0x80 by { OrZero(0x80); }
    OrDigit(3, 0x200);
    OrDigit(1, 0x100);
    AndDigit(7, 0x80);
    AndDigit(3, 0x40);
    AndDigit(1, 0x20);
    AndShl(4, 1, 7);
    SmallMasks();
  }

  lemma SmallMasks()
    ensures And(7, 128) == 0 && And(0x203, 128) == 0
  {
    assert And(3, 64) == 0;
    AndDigit(0x203, 128);
    AndDigit(0x101, 64);
    assert And(0x80, 32) == 0 by {
      AndDigit(0x80, 32);
      AndDigit(0x40, 16);
      AndDigit(0x20, 8);
      AndDigit(0x10, 4);
      AndDigit(8, 2);
      AndDigit(4, 1);
      AndZero(2);
    }
  }

  lemma MaskSmall(x: nat)
    requires x < PAGE
    ensures And(x, MASK) == 0
  {
    MaskIs();
    WidePowers();
    LowOnly(x, Pow2(40) - 1, 12);
  }

  lemma {:induction false} LowOnly(x: nat, m: nat, k: nat)
    requires x < Pow2(k)
    ensures And(x, Shl(m, k)) == 0
    decreases k
  {
    if k > 0 {
      LowOnly(x / 2, m, k - 1);
      AndDigit(x, Shl(m, k));
    }
  }

  lemma {:induction false} AndHigh(x: nat, m: nat, k: nat)
    ensures And(x, Shl(m, k)) == Shl(And(Shr(x, k), m), k)
    decreases k
  {
    if k > 0 {
      AndHigh(x / 2, m, k - 1);
      AndDigit(x, Shl(m, k));
    }
  }

  /** The address in an entry is a frame address. */
  lemma AddrAligned(e: nat)
    ensures AddrOf(e) % PAGE == 0
  {
    MaskIs();
    WidePowers();
    var q := MaskedMultiple(e, Pow2(40) - 1, 12);
    PageMultiple(q);
  }

  lemma MaskedMultiple(e: nat, m: nat, k: nat) returns (q: nat)
    ensures And(e, Shl(m, k)) == q * Pow2(k)
  {
    AndHigh(e, m, k);
    q := And(Shr(e, k), m);
    ShlIs(q, k);
  }

  lemma PageMultiple(q: nat)
    ensures q * PAGE % PAGE == 0
  {
  }

  lemma EntryBound(x: nat, y: nat)
    requires x < WORD && y < WORD
    ensures Or(x, y) < WORD
  {
    WidePowers();
    OrBound(x, y, 64);
  }

  lemma PageEntryOk(phys: nat, flags: nat)
    requires FlagsOk(flags)
    ensures Present(PageEntry(phys, flags)) && AddrOf(PageEntry(phys, flags)) == And(phys, MASK)
    ensures PageEntry(phys, flags) < WORD
  {
    var a, fl := And(phys, MASK), Or(PRESENT, flags);
    OrDigit(PRESENT, flags);
    OrDigit(a, fl);
    OddPresent(PageEntry(phys, flags));
    AndOr(a, fl, MASK);
    AndOr(PRESENT, flags, MASK);
    MaskSmall(PRESENT);
    OrIsZero(0);
    OrIsZero(a);
    AndTwice(phys, MASK);
    AndBound(phys, MASK);
    EntryBound(PRESENT, flags);
    EntryBound(a, fl);
  }

  // --- bit by bit ---

  lemma {:induction false} AndBit(x: nat, m: nat, i: nat)
    ensures WordBit(And(x, m), i) == 1 <==> WordBit(x, i) == 1 && WordBit(m, i) == 1
    decreases i
  {
    AndDigit(x, m);
    if i > 0 { AndBit(x / 2, m / 2, i - 1); }
  }

  lemma {:induction false} OrBit(x: nat, y: nat, i: nat)
    ensures WordBit(Or(x, y), i) == 1 <==> WordBit(x, i) == 1 || WordBit(y, i) == 1
    decreases i
  {
    OrDigit(x, y);
    if i > 0 { OrBit(x / 2, y / 2, i - 1); }
  }

  lemma {:induction false} ShlBit(x: nat, k: nat, i: nat)
    ensures WordBit(Shl(x, k), i) == if i < k then 0 else WordBit(x, i - k)
    decreases k
  {
    if k > 0 && i > 0 {
      ShlBit(x, k - 1, i - 1);
      assert Shl(x, k) / 2 == Shl(x, k - 1);
    }
  }

  lemma {:induction false} FullBit(n: nat, i: nat)
    ensures WordBit(Pow2(n) - 1, i) == if i < n then 1 else 0
    decreases i
  {
    if n == 0 {
      ShrZero(i);
    } else if i > 0 {
      assert (Pow2(n) - 1) / 2 == Pow2(n - 1) - 1;
      FullBit(n - 1, i - 1);
    }
  }

  lemma {:induction false} ShrZero(i: nat)
    ensures Shr(0, i) == 0
  {
    if i > 0 { ShrZero(i - 1); }
  }

  /** The mask keeps bits 12 to 51. */
  lemma MaskBit(i: nat)
    ensures WordBit(MASK, i) == 1 <==> 12 <= i < 52
  {
    MaskIs();
    MaskBitOf(40, 12, i);
  }

  lemma MaskBitOf(n: nat, k: nat, i: nat)
    ensures WordBit(Shl(Pow2(n) - 1, k), i) == 1 <==> k <= i < n + k
  {
    ShlBit(Pow2(n) - 1, k, i);
    if i >= k { FullBit(n, i - k); }
  }

  lemma OneBit(i: nat)
    ensures WordBit(PRESENT, i) == 1 <==> i == 0
  {
    if i > 0 { ShrZero(i - 1); }
  }

  /** Every bit of a page's entry. */
  lemma PageEntryBits(phys: nat, flags: nat)
    requires FlagsOk(flags)
    ensures EntryBits(PageEntry(phys, flags), phys, flags)
  {
    PageEntryOk(phys, flags);
    forall i: nat | i < 64
      ensures WordBit(PageEntry(phys, flags), i) == 1
         <==> i == 0 || WordBit(flags, i) == 1 || (12 <= i < 52 && WordBit(phys, i) == 1)
    {
      OrBit(And(phys, MASK), Or(PRESENT, flags), i);
      AndBit(phys, MASK, i);
      MaskBit(i);
      OrBit(PRESENT, flags, i);
      OneBit(i);
    }
  }

  lemma {:induction false} BitIs(e: nat, i: nat)
    ensures WordBit(e, i) == e / Pow2(i) % 2
    decreases i
  {
    if i > 0 {
      BitIs(e / 2, i - 1);
      HalfThenDivide(e, Pow2(i - 1));
    }
  }

  lemma HalfThenDivide(e: nat, p: nat)
    requires p > 0
    ensures e / 2 / p == e / (2 * p)
  {
    var u := e / 2;
    var q, r := u / p, u % p;
    assert u == p * q + r;
    TwiceProduct(p, q);
    QuotientIs(e, 2 * p, q, 2 * r + e % 2);
  }

  lemma TwiceProduct(p: nat, q: nat)
    ensures (2 * p) * q == 2 * (p * q)
  {
  }

  /** Rights and flags by bit number. */
  lemma RightsBits(e: nat)
    ensures RightsOf(e) == Rights(WordBit(e, 2) == 1, WordBit(e, 1) == 1, WordBit(e, 63) == 1)
  {
    Pow2Values();
    WidePowers();
    TopPower();
    BitIs(e, 1);
    BitIs(e, 2);
    BitIs(e, 63);
  }

  lemma TopPower()
    ensures Pow2(63) == 0x8000_0000_0000_0000
  {
    WidePowers();
    Pow2Add(1, 63);
  }

  /** The rights of an entry are those of its flags. */
  lemma EntryRights(e: nat, phys: nat, flags: nat)
    requires EntryBits(e, phys, flags)
    ensures RightsOf(e) == RightsOf(flags)
  {
    RightsBits(e);
    RightsBits(flags);
  }

  lemma OrRights(x: nat, y: nat)
    ensures RightsOf(Or(x, y)) == Rights(RightsOf(x).user || RightsOf(y).user, RightsOf(x).write || RightsOf(y).write,
                                         RightsOf(x).noExec || RightsOf(y).noExec)
  {
    RightsBits(x);
    RightsBits(y);
    RightsBits(Or(x, y));
    OrBit(x, y, 1);
    OrBit(x, y, 2);
    OrBit(x, y, 63);
  }

  /** Masking keeps just the frame. */
  lemma FrameIs(e: nat)
    ensures AddrOf(e) == FrameOf(e)
  {
    MaskIs();
    WidePowers();
    AndHigh(e, Pow2(40) - 1, 12);
    AndMask(Shr(e, 12), 40);
    ShlIs(Low(Shr(e, 12), 40), 12);
    ShrIs(e, 12);
    LowIs(e / PAGE, 40);
  }

  lemma {:induction false} ShrIs(e: nat, k: nat)
    ensures Shr(e, k) == e / Pow2(k)
    decreases k
  {
    if k > 0 {
      ShrIs(e / 2, k - 1);
      HalfThenDivide(e, Pow2(k - 1));
    }
  }

  lemma {:induction false} LowIs(e: nat, k: nat)
    ensures Low(e, k) == e % Pow2(k)
    decreases k
  {
    if k > 0 {
      LowIs(e / 2, k - 1);
      HalfRemainder(e, Pow2(k - 1));
    }
  }

  lemma HalfRemainder(e: nat, p: nat)
    requires p > 0
    ensures e % (2 * p) == e % 2 + 2 * (e / 2 % p)
  {
    var u := e / 2;
    var q, r := u / p, u % p;
    assert u == p * q + r;
    TwiceProduct(p, q);
    RemainderIs(e, 2 * p, q, 2 * r + e % 2);
  }

  /** Bit 7 marks a large page. */
  lemma LargeIs(e: nat)
    ensures Large(e) <==> e / 128 % 2 == 1
  {
    Pow2Values();
    BitIs(e, 7);
    AndOne(e, 7);
  }

  lemma AndOne(e: nat, k: nat)
    ensures And(e, Pow2(k)) != 0 <==> WordBit(e, k) == 1
  {
    ShlIs(1, k);
    AndHigh(e, 1, k);
    var b := And(Shr(e, k), 1);
    AndDigit(Shr(e, k), 1);
    AndZero(Shr(e, k) / 2);
    ShlIs(b, k);
  }

  lemma {:induction false} HighOnly(a: nat, m: nat, k: nat)
    requires m < Pow2(k)
    ensures And(Shl(a, k), m) == 0
    decreases k
  {
    if k > 0 {
      HighOnly(a, m / 2, k - 1);
      AndDigit(Shl(a, k), m);
    } else {
      AndZero(Shl(a, k));
    }
  }

  lemma NxMasked()
    ensures And(NX, MASK) == 0
  {
    WidePowers();
    Pow2Add(52, 11);
    Pow2Add(40, 12);
    assert NX == Shl(1, 63) by { ShlIs(1, 63); Pow2Add(1, 63); }
    Pow2Mono(52, 63);
    HighOnly(1, MASK, 63);
  }

  lemma SingleRights()
    ensures RightsOf(PRESENT) == Rights(false, false, false) && RightsOf(WRITABLE) == Rights(false, true, false)
    ensures RightsOf(USER) == Rights(true, false, false) && RightsOf(NX) == Rights(false, false, true)
  {
  }

  /** Kernel data: writable, not executable, not for users. */
  lemma DataFlags()
    ensures FlagsOk(Or(WRITABLE, NX)) && RightsOf(Or(WRITABLE, NX)) == Rights(false, true, true)
  {
    SingleRights();
    OrRights(WRITABLE, NX);
    NxMasked();
    MaskSmall(WRITABLE);
    AndOr(WRITABLE, NX, MASK);
    OrIsZero(0);
    EntryBound(WRITABLE, NX);
  }
}
