/** Reading from one or two QSPI flash chips.  A chip is addressed with 24 bits inside the
    16 MB bank its bank register selects, or with 32 bits.  Two chips are stacked (one after
    the other) or parallel (even bytes on one, odd bytes on the other). */
module Qspi {
  import opened Bits
  import opened Common

  const BANK: nat := 0x1000000        // BANKSIZE, 16 MB
  const DMA_MAX: nat := 0x20000000    // DMA_DATA_TRAN_SIZE, 512 MB

  datatype Mode = Single | Stacked | Parallel
  datatype Make = Micron | Spansion | Winbond | Macronix | Issi
  datatype Select = Lower | Upper | Both
  datatype Status = Success | LengthError | ReadError

  /** SendBankSelect knows the bank command of these makes only. */
  predicate Switchable(make: Make) {
    make in {Micron, Macronix, Spansion}
  }

  /** The sizes FlashReadID can deduce for one chip, 64 Mbit to 2 Gbit. */
  predicate ChipSize(n: nat) {
    n in {0x800000, 0x1000000, 0x2000000, 0x4000000, 0x8000000, 0x10000000}
  }

  datatype Flash = Flash(mode: Mode, lower: seq<Byte>, upper: seq<Byte>) {
    predicate Valid() {
      ChipSize(|lower|) && |upper| == if mode == Single then 0 else |lower|
    }

    function Size(): nat {
      |lower| + |upper|
    }

    /** The mask of the bank test; doubling it drops its top bit. */
    function BankMask(): nat {
      if mode == Parallel then 0xFE000000 else 0xFF000000
    }

    /** Bank size seen from logical addresses. */
    function BankSize(): nat {
      if mode == Parallel then 2 * BANK else BANK
    }

    predicate NeedsBanks() {
      Size() > BankSize()
    }

    /** The chip that is home to logical address `a`: is it the upper one, and at which offset? */
    function Home(a: nat): (bool, nat)
    {
      match mode
      case Single => (false, a)
      case Stacked => if a >= Size() / 2 then (true, a - Size() / 2) else (false, a)
      case Parallel => (a % 2 == 1, a / 2)
    }

    function Chip(upperChip: bool): seq<Byte> {
      if upperChip then upper else lower
    }

    /** The flat contents a reader expects. */
    function Flat(a: nat): Byte
      requires Valid() && a < Size()
    {
      var (u, off) := Home(a);
      Chip(u)[off]
    }
  }

  datatype Banks = Banks(lower: nat, upper: nat) {
    function Of(upperChip: bool): nat {
      if upperChip then upper else lower
    }

    /** A chip without banks has no register to leave elsewhere. */
    predicate Valid(f: Flash) {
      f.Valid() && lower * BANK < |f.lower| && (f.mode != Single ==> upper * BANK < |f.upper|)
    }
  }

  /** Where a chip finds the byte at 24-bit offset `off` of its bank; the offset wraps. */
  function InBank(bank: nat, off: nat, size: nat): (at: nat)
    requires size > 0
    ensures at < size
  {
    (bank * BANK + off % BANK) % size
  }

  /** The address the copy really reads from: a striped read starts on the lower chip. */
  function Base(f: Flash, src: nat): nat {
    if f.mode == Parallel then src / 2 * 2 else src
  }

  /** The bank in force when logical address `a` is read. */
  function BankInForce(f: Flash, make: Make, banks: Banks, a: nat): nat {
    var (u, off) := f.Home(a);
    if f.NeedsBanks() && Switchable(make) then off / BANK else banks.Of(u)
  }

  /** The byte a 24-bit copy delivers for logical address `a`. */
  function Served24(f: Flash, make: Make, banks: Banks, a: nat): Byte
    requires f.Valid() && a < f.Size()
  {
    var (u, off) := f.Home(a);
    f.Chip(u)[InBank(BankInForce(f, make, banks, a), off, |f.lower|)]
  }

  /** A 24-bit copy reads every address at home exactly when the flash needs no bank switch, or
      its make is known to SendBankSelect, or the register happens to be right. */
  lemma ReadsAtHome(f: Flash, make: Make, banks: Banks, a: nat)
    requires f.Valid() && banks.Valid(f) && a < f.Size()
    ensures var (u, off) := f.Home(a);
            InBank(BankInForce(f, make, banks, a), off, |f.lower|) == off <==>
              !f.NeedsBanks() || Switchable(make) || banks.Of(u) == off / BANK
  {
    var (u, off) := f.Home(a);
    var b := BankInForce(f, make, banks, a);
    assert b * BANK < |f.lower| by {
      assert off / BANK * BANK <= off;
    }
    OwnBank(b, off, |f.lower|);
    if !f.NeedsBanks() {
      assert b == 0 && off / BANK == 0;
    }
  }

  /** Offset `off` is found in its own bank and in no other. */
  lemma OwnBank(bank: nat, off: nat, size: nat)
    requires ChipSize(size) && off < size && bank * BANK < size
    ensures InBank(bank, off, size) == off <==> bank == off / BANK
  {
    assert off == off / BANK * BANK + off % BANK;
    if size >= BANK {
      var n := size / BANK;
      assert size == n * BANK && bank < n;
    }
  }

  /** One transfer on the wire: the chips selected, their banks, the offset sent, the length. */
  datatype Transfer = Transfer(cs: Select, banks: Banks, off: nat, n: nat)

  /** A transfer moves something and stays inside one bank (of each chip, when striped). */
  predicate InOneBank(t: Transfer) {
    t.n > 0 && t.off % BANK + (if t.cs == Both then (t.n + 1) / 2 else t.n) <= BANK
  }

  ghost predicate AllInOneBank(log: seq<Transfer>) {
    forall t <- log :: InOneBank(t)
  }

  function ReadByte(f: Flash, t: Transfer, i: nat): Byte
    requires f.Valid() && (t.cs != Lower ==> f.mode != Single)
  {
    var u := t.cs == Upper || (t.cs == Both && i % 2 == 1);
    f.Chip(u)[InBank(t.banks.Of(u), t.off % BANK + (if t.cs == Both then i / 2 else i), |f.lower|)]
  }

  /** Where the bank of address `a` begins. */
  function BankStart(a: nat, bankSize: nat): nat
    requires bankSize > 0
  {
    a / bankSize * bankSize
  }

  /** Chips are selected so that this transfer, put at `src`, is what a copy should read there. */
  ghost predicate Serves(f: Flash, make: Make, banks: Banks, t: Transfer, src: nat) {
    && f.Valid() && (t.cs != Lower ==> f.mode != Single)
    && Base(f, src) + t.n <= f.Size()
    && forall i :: 0 <= i < t.n ==> ReadByte(f, t, i) == Served24(f, make, banks, Base(f, src) + i)
  }

  /** XFsbl_GetQspiAddr: the selected chips and the address on them. */
  function Translate(f: Flash, address: nat): (Select, nat) {
    match f.mode
    case Single => (Lower, address)
    case Stacked => if address >= f.Size() / 2 then (Upper, address - f.Size() / 2) else (Lower, address)
    case Parallel => (Both, address / 2)
  }

  /** A stacked pair of chips smaller than a bank is never split by the bank test. */
  predicate NoChipCrossing(f: Flash, src: nat, n: nat) {
    f.mode == Stacked ==> src + n <= f.Size() / 2 || src >= f.Size() / 2
  }

  lemma SameBank(off: nat, i: nat, bank: nat, size: nat)
    requires off % BANK + i < BANK && size > 0
    ensures (off + i) / BANK == off / BANK && (off + i) % BANK == off % BANK + i
    ensures InBank(bank, off % BANK + i, size) == InBank(bank, off + i, size)
  {
  }

  /** The bank test leaves `n` bytes that end inside the bank. */
  lemma CutFits(off: nat, n: nat)
    ensures BankStart(off, BANK) + BANK >= off + n <==> off % BANK + n <= BANK
    ensures BankStart(2 * off, 2 * BANK) + 2 * BANK >= 2 * off + n <==> off % BANK + (n + 1) / 2 <= BANK
  {
    assert (2 * off) / (2 * BANK) == off / BANK;
  }

  /** The home of byte i of a transfer lies on the chip the transfer selects, i bytes further. */
  lemma HomeOfByte(f: Flash, src: nat, n: nat, i: nat)
    requires f.Valid() && i < n && Base(f, src) + n <= f.Size()
    requires var (cs, off) := Translate(f, src); off % BANK + (if cs == Both then (n + 1) / 2 else n) <= BANK
    requires f.mode == Stacked && |f.lower| < BANK ==> NoChipCrossing(f, src, n)
    ensures var (cs, off) := Translate(f, src);
            f.Home(Base(f, src) + i) ==
                (cs == Upper || (cs == Both && i % 2 == 1), off + if cs == Both then i / 2 else i)
  {
  }

  /** A transfer cut at its bank boundary serves exactly its part of the copy. */
  lemma CutTransferServes(f: Flash, make: Make, banks: Banks, t: Transfer, src: nat)
    requires f.Valid() && t.n > 0 && Base(f, src) + t.n <= f.Size()
    requires (t.cs, t.off) == Translate(f, src) && InOneBank(t)
    requires f.mode == Stacked && |f.lower| < BANK ==> NoChipCrossing(f, src, t.n)
    requires if f.NeedsBanks() && Switchable(make)
             then (t.cs != Upper ==> t.banks.lower == t.off / BANK) && (t.cs != Lower ==> t.banks.upper == t.off / BANK)
             else t.banks == banks
    ensures Serves(f, make, banks, t, src)
  {
    forall i | 0 <= i < t.n
      ensures ReadByte(f, t, i) == Served24(f, make, banks, Base(f, src) + i)
    {
      HomeOfByte(f, src, t.n, i);
      SameByte(f, make, banks, t, Base(f, src) + i, i);
    }
  }

  lemma SameByte(f: Flash, make: Make, banks: Banks, t: Transfer, a: nat, i: nat)
    requires f.Valid() && a < f.Size() && (t.cs != Lower ==> f.mode != Single)
    requires var k := if t.cs == Both then i / 2 else i;
             t.off % BANK + k < BANK && f.Home(a) == (t.cs == Upper || (t.cs == Both && i % 2 == 1), t.off + k)
    requires if f.NeedsBanks() && Switchable(make)
             then (t.cs != Upper ==> t.banks.lower == t.off / BANK) && (t.cs != Lower ==> t.banks.upper == t.off / BANK)
             else t.banks == banks
    ensures ReadByte(f, t, i) == Served24(f, make, banks, a)
  {
    hide InBank;
    var k := if t.cs == Both then i / 2 else i;
    var (u, off) := f.Home(a);
    var bank := t.banks.Of(u);
    SameBank(t.off, k, bank, |f.lower|);
    assert BankInForce(f, make, banks, a) == bank;
    assert ReadByte(f, t, i) == f.Chip(u)[InBank(bank, t.off % BANK + k, |f.lower|)];
    assert Served24(f, make, banks, a) == f.Chip(u)[InBank(bank, off, |f.lower|)];
  }

  // ---------------------------------------------------------------- what a copy delivers

  /** The bytes a copy from `src` delivers, given the banks it found. */
  ghost function Delivered24(f: Flash, make: Make, banks: Banks, src: nat, n: nat): (s: seq<Byte>)
    requires f.Valid() && Base(f, src) + n <= f.Size()
    ensures |s| == n
  {
    seq(n, i requires 0 <= i < n => Served24(f, make, banks, Base(f, src) + i))
  }

  ghost function FlatSlice(f: Flash, a: nat, n: nat): (s: seq<Byte>)
    requires f.Valid() && a + n <= f.Size()
    ensures |s| == n
  {
    seq(n, i requires 0 <= i < n => f.Flat(a + i))
  }

  /** The bank of every byte is right before it is read. */
  ghost predicate BanksRight(f: Flash, make: Make, banks: Banks) {
    !f.NeedsBanks() || Switchable(make) || forall a: nat :: a < f.Size() ==> RightBank(f, banks, a)
  }

  ghost predicate RightBank(f: Flash, banks: Banks, a: nat) {
    var (u, off) := f.Home(a);
    banks.Of(u) == off / BANK
  }

  /** The 24-bit copy is a flat copy from its base: whatever bank the chips were left in, if
      the make can switch banks. */
  lemma CopyIsFlat(f: Flash, make: Make, banks: Banks, src: nat, n: nat)
    requires f.Valid() && banks.Valid(f) && src + n <= f.Size() && BanksRight(f, make, banks)
    ensures Delivered24(f, make, banks, src, n) == FlatSlice(f, Base(f, src), n)
  {
    var x, y := Delivered24(f, make, banks, src, n), FlatSlice(f, Base(f, src), n);
    forall i: nat | i < n
      ensures x[i] == y[i]
    {
      FlatByte(f, make, banks, Base(f, src) + i);
      assert x[i] == Served24(f, make, banks, Base(f, src) + i);
    }
  }

  lemma FlatByte(f: Flash, make: Make, banks: Banks, a: nat)
    requires f.Valid() && banks.Valid(f) && a < f.Size() && BanksRight(f, make, banks)
    ensures Served24(f, make, banks, a) == f.Flat(a)
  {
    var (u, off) := f.Home(a);
    assert f.NeedsBanks() && !Switchable(make) ==> RightBank(f, banks, a);
    ReadsAtHome(f, make, banks, a);
    assert f.Flat(a) == f.Chip(u)[off];
  }

  /** No banks are needed, or every register in use happens to be right for the request. */
  ghost predicate RegistersRight(f: Flash, banks: Banks, src: nat, n: nat) {
    !f.NeedsBanks() || forall a: nat :: Base(f, src) <= a < Base(f, src) + n ==> RightBank(f, banks, a)
  }

  /** For the makes without a bank command, a copy can be relied on exactly then. */
  lemma RegistersDecide(f: Flash, make: Make, banks: Banks, src: nat, n: nat)
    requires f.Valid() && banks.Valid(f) && src + n <= f.Size() && make in {Winbond, Issi}
    ensures RegistersRight(f, banks, src, n) <==>
              forall g: Flash :: g.Valid() && g.mode == f.mode && |g.lower| == |f.lower| ==>
                Delivered24(g, make, banks, src, n) == FlatSlice(g, Base(g, src), n)
  {
    if RegistersRight(f, banks, src, n) {
      forall g: Flash | g.Valid() && g.mode == f.mode && |g.lower| == |f.lower|
        ensures Delivered24(g, make, banks, src, n) == FlatSlice(g, Base(g, src), n)
      {
        RightRegisters(f, g, make, banks, src, n);
      }
    } else {
      var a: nat :| Base(f, src) <= a < Base(f, src) + n && !RightBank(f, banks, a);
      WrongRegister(f, make, banks, src, n, a);
    }
  }

  lemma RightRegisters(f: Flash, g: Flash, make: Make, banks: Banks, src: nat, n: nat)
    requires f.Valid() && banks.Valid(f) && src + n <= f.Size() && make in {Winbond, Issi}
    requires g.Valid() && g.mode == f.mode && |g.lower| == |f.lower| && RegistersRight(f, banks, src, n)
    ensures Delivered24(g, make, banks, src, n) == FlatSlice(g, Base(g, src), n)
  {
    var x, y := Delivered24(g, make, banks, src, n), FlatSlice(g, Base(g, src), n);
    SameBanks(f, g, make, banks);
    forall i: nat | i < n
      ensures x[i] == y[i]
    {
      var a := Base(f, src) + i;
      assert f.NeedsBanks() ==> RightBank(f, banks, a);
      ReadsAtHome(g, make, banks, a);
      assert g.Home(a) == f.Home(a);
      assert x[i] == Served24(g, make, banks, a) && y[i] == g.Flat(a);
    }
  }

  /** Chips that hold a one at address `a` and zeros elsewhere. */
  lemma MarkedByte(f: Flash, make: Make, banks: Banks, a: nat) returns (g: Flash)
    requires f.Valid() && banks.Valid(f) && make in {Winbond, Issi} && f.NeedsBanks()
    requires a < f.Size() && !RightBank(f, banks, a)
    ensures g.Valid() && g.mode == f.mode && |g.lower| == |f.lower|
    ensures Served24(g, make, banks, a) == 0 && g.Flat(a) == 1
  {
    var (u, off) := f.Home(a);
    var marked := seq(|f.lower|, j => if j == off then 1 else 0);
    g := Flash(f.mode, marked, if f.mode == Single then [] else marked);
    SameBanks(f, g, make, banks);
    ReadsAtHome(g, make, banks, a);
    assert g.Home(a) == (u, off);
  }

  /** One wrong register is enough to deliver a wrong byte. */
  lemma WrongRegister(f: Flash, make: Make, banks: Banks, src: nat, n: nat, a: nat)
    requires f.Valid() && banks.Valid(f) && src + n <= f.Size() && make in {Winbond, Issi} && f.NeedsBanks()
    requires Base(f, src) <= a < Base(f, src) + n && !RightBank(f, banks, a)
    ensures exists g: Flash :: g.Valid() && g.mode == f.mode && |g.lower| == |f.lower|
                               && Delivered24(g, make, banks, src, n) != FlatSlice(g, Base(g, src), n)
  {
    hide Served24;
    hide Flash.Flat;
    hide RightBank;
    var g := MarkedByte(f, make, banks, a);
    var i := a - Base(f, src);
    assert Delivered24(g, make, banks, src, n)[i] == Served24(g, make, banks, a);
    assert FlatSlice(g, Base(g, src), n)[i] == g.Flat(a);
  }

  /** What the flat contents are: the chips one after the other, or byte by byte in turn. */
  lemma FlatLayout(f: Flash, a: nat)
    requires f.Valid() && a < f.Size()
    ensures f.mode == Single ==> f.Flat(a) == f.lower[a]
    ensures f.mode == Stacked ==> f.Flat(a) == (f.lower + f.upper)[a]
    ensures f.mode == Parallel ==> f.Flat(a) == if a % 2 == 0 then f.lower[a / 2] else f.upper[a / 2]
  {
  }

  /** A copy from `src` is right whatever two chips of this size hold. */
  ghost predicate AlwaysRight(mode: Mode, size: nat, make: Make, banks: Banks, src: nat, n: nat) {
    forall f: Flash :: f.Valid() && f.mode == mode && |f.lower| == size && src + n <= f.Size() ==>
      Delivered24(f, make, banks, src, n) == FlatSlice(f, src, n)
  }

  /** Striped chips halve the address, so a copy from an odd address starts one byte early: it
      can be relied on exactly when the chips are not striped, the source is even, or nothing is
      asked for. */
  lemma OddStripeShifts(f: Flash, make: Make, banks: Banks, src: nat, n: nat)
    requires f.Valid() && banks.Valid(f) && src + n <= f.Size() && BanksRight(f, make, banks)
    ensures AlwaysRight(f.mode, |f.lower|, make, banks, src, n) <==> f.mode != Parallel || src % 2 == 0 || n == 0
  {
    forall g: Flash | g.Valid() && g.mode == f.mode && |g.lower| == |f.lower| && src + n <= g.Size()
      ensures f.mode != Parallel || src % 2 == 0 || n == 0 ==>
              Delivered24(g, make, banks, src, n) == FlatSlice(g, src, n)
    {
      SameBanks(f, g, make, banks);
      CopyIsFlat(g, make, banks, src, n);
    }
    if f.mode == Parallel && src % 2 == 1 && n > 0 {
      var g := Flash(Parallel, seq(|f.lower|, _ => 0), seq(|f.lower|, _ => 1));
      SameBanks(f, g, make, banks);
      StripesDiffer(g, make, banks, src, n);
    }
  }

  /** Whether the banks are right does not depend on what the chips hold. */
  lemma SameBanks(f: Flash, g: Flash, make: Make, banks: Banks)
    requires f.Valid() && g.Valid() && g.mode == f.mode && |g.lower| == |f.lower|
    ensures banks.Valid(f) ==> banks.Valid(g)
    ensures BanksRight(f, make, banks) ==> BanksRight(g, make, banks)
  {
    forall a: nat | a < g.Size() && RightBank(f, banks, a)
      ensures RightBank(g, banks, a)
    {
      assert f.Home(a) == g.Home(a);
    }
  }

  lemma FirstOfSlice(f: Flash, a: nat, n: nat)
    requires f.Valid() && a + n <= f.Size() && n > 0
    ensures FlatSlice(f, a, n)[0] == f.Flat(a)
  {
    assert FlatSlice(f, a, n)[0] == f.Flat(a + 0);
  }

  /** Where the two chips differ everywhere, an odd copy is wrong from its first byte on. */
  lemma StripesDiffer(f: Flash, make: Make, banks: Banks, src: nat, n: nat)
    requires f.Valid() && f.mode == Parallel && banks.Valid(f) && BanksRight(f, make, banks)
    requires src % 2 == 1 && 0 < n && src + n <= f.Size() && f.lower[src / 2] != f.upper[src / 2]
    ensures Delivered24(f, make, banks, src, n) != FlatSlice(f, src, n)
  {
    CopyIsFlat(f, make, banks, src, n);
    assert f.Home(src - 1) == (false, src / 2) && f.Home(src) == (true, src / 2);
    assert f.Flat(src - 1) == f.lower[src / 2] && f.Flat(src) == f.upper[src / 2];
    FirstOfSlice(f, src - 1, n);
    FirstOfSlice(f, src, n);
  }

  /** The length test of both copies, in 32-bit arithmetic. */
  predicate PassesLengthTest(f: Flash, src: nat, length: nat) {
    (src + length) % U32 <= f.Size()
  }

  /** It lets through the requests on the flash, and those that end on the flash after the end of
      the address space; these leave the flash on their way, at the last address at the latest. */
  lemma LengthTestWraps(f: Flash, src: nat, length: nat)
    requires f.Valid() && src < U32 && length < U32
    ensures PassesLengthTest(f, src, length) <==> src + length <= f.Size() || U32 <= src + length <= U32 + f.Size()
    ensures src + length >= U32 ==> src <= U32 - 1 < src + length && f.Size() <= U32 - 1
  {
  }

  /** The byte a 32-bit copy delivers: one transfer for the whole request, on the chip of its
      first byte; an offset past the end of a chip rolls over. */
  function Served32(f: Flash, src: nat, i: nat): Byte
    requires f.Valid()
  {
    var (cs, off) := Translate(f, src);
    ReadWide(f, cs, off, i)
  }

  /** Byte i of a read command with 32 address bits. */
  function ReadWide(f: Flash, cs: Select, off: nat, i: nat): Byte
    requires f.Valid() && (cs != Lower ==> f.mode != Single)
  {
    var u := cs == Upper || (cs == Both && i % 2 == 1);
    f.Chip(u)[(off + if cs == Both then i / 2 else i) % |f.lower|]
  }

  ghost function Delivered32(f: Flash, src: nat, n: nat): (s: seq<Byte>)
    requires f.Valid()
    ensures |s| == n
  {
    seq(n, i requires 0 <= i < n => Served32(f, src, i))
  }

  /** The 32-bit copy reads byte i at home exactly when the request has not crossed from the
      lower to the upper stacked chip by then. */
  lemma WideReadsAtHome(f: Flash, src: nat, i: nat)
    requires f.Valid() && Base(f, src) + i < f.Size()
    ensures var (cs, off) := Translate(f, src);
            f.Home(Base(f, src) + i) ==
                (cs == Upper || (cs == Both && i % 2 == 1), (off + if cs == Both then i / 2 else i) % |f.lower|)
            <==> NoChipCrossing(f, src, i + 1)
  {
    var k := if f.mode == Parallel then i / 2 else i;
    var (_, off) := Translate(f, src);
    if off + k < |f.lower| {
      OffsetStays(off + k, |f.lower|);
    } else {
      OffsetRolls(off + k, |f.lower|);
    }
  }

  lemma OffsetStays(off: nat, size: nat)
    requires off < size
    ensures off % size == off
  {
  }

  lemma OffsetRolls(off: nat, size: nat)
    requires off >= size > 0
    ensures off % size != off
  {
  }

  lemma WideCopyIsFlat(f: Flash, src: nat, n: nat)
    requires f.Valid() && src + n <= f.Size() && NoChipCrossing(f, src, n)
    ensures Delivered32(f, src, n) == FlatSlice(f, Base(f, src), n)
  {
    var x, y := Delivered32(f, src, n), FlatSlice(f, Base(f, src), n);
    forall i: nat | i < n
      ensures x[i] == y[i]
    {
      WideFlatByte(f, src, i);
      assert x[i] == Served32(f, src, i);
    }
  }

  lemma WideFlatByte(f: Flash, src: nat, i: nat)
    requires f.Valid() && Base(f, src) + i < f.Size() && NoChipCrossing(f, src, i + 1)
    ensures Served32(f, src, i) == f.Flat(Base(f, src) + i)
  {
    WideReadsAtHome(f, src, i);
  }

  /** Past the chip boundary a 32-bit copy starts the lower chip again. */
  lemma WideCopyRollsOver(f: Flash, src: nat, i: nat)
    requires f.Valid() && f.mode == Stacked && src < |f.lower| <= src + i < f.Size()
    ensures Served32(f, src, i) == f.lower[src + i - |f.lower|]
    ensures f.Flat(src + i) == f.upper[src + i - |f.lower|]
  {
  }

  /** Both copies deliver the same for every request the 24-bit copy gets right and that does
      not cross stacked chips. */
  lemma CopiesAgree(f: Flash, make: Make, banks: Banks, src: nat, n: nat)
    requires f.Valid() && banks.Valid(f) && src + n <= f.Size() && BanksRight(f, make, banks)
             && NoChipCrossing(f, src, n)
    ensures Delivered24(f, make, banks, src, n) == Delivered32(f, src, n)
  {
    CopyIsFlat(f, make, banks, src, n);
    WideCopyIsFlat(f, src, n);
  }

  /** In stacked mode the translation pairs every address with one offset on one chip. */
  lemma StackedBijection(f: Flash, upperChip: bool, off: nat, a: nat, b: nat)
    requires f.Valid() && f.mode == Stacked && off < |f.lower| && a < f.Size() && b < f.Size()
    ensures var there := if upperChip then |f.lower| + off else off;
            there < f.Size() && Translate(f, there) == (if upperChip then Upper else Lower, off)
    ensures Translate(f, a).1 < |f.lower| && (Translate(f, a) == Translate(f, b) ==> a == b)
  {
  }

  // ---------------------------------------------------------------- the driver, in place

  /** The data of a transfer. */
  function Wire(f: Flash, t: Transfer): (s: seq<Byte>)
    requires f.Valid() && (t.cs != Lower ==> f.mode != Single)
    ensures |s| == t.n
  {
    seq(t.n, i requires 0 <= i < t.n => ReadByte(f, t, i))
  }

  lemma WireServes(f: Flash, make: Make, banks: Banks, t: Transfer, src: nat)
    requires Serves(f, make, banks, t, src)
    ensures Wire(f, t) == Delivered24(f, make, banks, src, t.n)
  {
  }

  /** What one turn of the loop reads: its part of the copy, from inside one bank. */
  lemma ChunkServes(f: Flash, make: Make, banks: Banks, t: Transfer, src: nat, want: nat)
    requires f.Valid() && want > 0 && src + want <= f.Size()
    requires (t.cs, t.off) == Translate(f, src) && t.n == Cut(f, src, want)
    requires f.mode == Stacked && |f.lower| < BANK ==> NoChipCrossing(f, src, want)
    requires if f.NeedsBanks() && Switchable(make)
             then (t.cs != Upper ==> t.banks.lower == t.off / BANK) && (t.cs != Lower ==> t.banks.upper == t.off / BANK)
             else t.banks == banks
    ensures Stride(f, src, t.n, want) && InOneBank(t)
    ensures Wire(f, t) == Delivered24(f, make, banks, src, t.n)
  {
    CutInBank(f, src, want);
    CutTransferServes(f, make, banks, t, src);
    WireServes(f, make, banks, t, src);
  }

  /** `mem` with `s` written at `at`. */
  ghost function Written(mem: seq<Byte>, at: nat, s: seq<Byte>): seq<Byte>
    requires at + |s| <= |mem|
  {
    mem[..at] + s + mem[at + |s|..]
  }

  lemma DeliveredJoin(f: Flash, make: Make, banks: Banks, src: nat, k: nat, n: nat)
    requires f.Valid() && Base(f, src) + k + n <= f.Size() && Base(f, src + k) == Base(f, src) + k
    ensures Delivered24(f, make, banks, src, k) + Delivered24(f, make, banks, src + k, n) ==
            Delivered24(f, make, banks, src, k + n)
  {
  }

  lemma WrittenJoin(mem: seq<Byte>, at: nat, s: seq<Byte>, t: seq<Byte>)
    requires at + |s| + |t| <= |mem|
    ensures Written(Written(mem, at, s), at + |s|, t) == Written(mem, at, s + t)
  {
  }

  /** `mem` is `before` with the first `k` bytes of the copy in place. */
  ghost predicate Copied(f: Flash, make: Make, found: Banks, src: nat, k: nat, before: seq<Byte>, dst: nat,
                         mem: seq<Byte>) {
    && f.Valid() && Base(f, src) + k <= f.Size() && dst + k <= |before|
    && mem == Written(before, dst, Delivered24(f, make, found, src, k))
  }

  lemma NothingCopied(f: Flash, make: Make, found: Banks, src: nat, before: seq<Byte>, dst: nat)
    requires f.Valid() && Base(f, src) <= f.Size() && dst <= |before|
    ensures Copied(f, make, found, src, 0, before, dst, before)
  {
  }

  lemma CopiedMore(f: Flash, make: Make, found: Banks, src: nat, k: nat, n: nat,
                   before: seq<Byte>, dst: nat, mid: seq<Byte>, mem: seq<Byte>)
    requires Copied(f, make, found, src, k, before, dst, mid)
    requires Base(f, src + k) == Base(f, src) + k && Base(f, src) + k + n <= f.Size() && dst + k + n <= |before|
    requires mem == Written(mid, dst + k, Delivered24(f, make, found, src + k, n))
    ensures Copied(f, make, found, src, k + n, before, dst, mem)
  {
    DeliveredJoin(f, make, found, src, k, n);
    WrittenJoin(before, dst, Delivered24(f, make, found, src, k), Delivered24(f, make, found, src + k, n));
  }

  /** What the bank test makes of a transfer of `n` bytes from `src`. */
  function Cut(f: Flash, src: nat, n: nat): nat
    requires f.Valid()
  {
    var off := Translate(f, src).1;
    var o := if f.mode == Parallel then 2 * off else off;
    if BankStart(o, f.BankSize()) != BankStart(o + n, f.BankSize())
    then BankStart(o, f.BankSize()) + f.BankSize() - o else n
  }

  /** The bit mask finds the beginning of the bank. */
  lemma MaskFindsBank(f: Flash, a: nat)
    requires a < U32
    ensures And(a, f.BankMask()) == BankStart(a, f.BankSize())
  {
    Powers();
    AlignMask(a, if f.mode == Parallel then 25 else 24, f.BankSize());
  }

  lemma BankTest(f: Flash, src: nat, want: nat, o: nat)
    requires f.Valid() && src + want <= f.Size()
    requires o == if f.mode == Parallel then Translate(f, src).1 * 2 else Translate(f, src).1
    ensures o + want < U32
    ensures And(o, f.BankMask()) == BankStart(o, f.BankSize())
    ensures And(o + want, f.BankMask()) == BankStart(o + want, f.BankSize())
  {
    MaskFindsBank(f, o);
    MaskFindsBank(f, o + want);
  }

  lemma EvenStep(src: nat, k: nat)
    ensures (src + 2 * k) / 2 * 2 == src / 2 * 2 + 2 * k
  {
  }

  /** A transfer of `n` bytes out of `want` leaves the copy where it can go on. */
  predicate Stride(f: Flash, src: nat, n: nat, want: nat) {
    0 < n <= want && (n < want ==> Base(f, src + n) == Base(f, src) + n)
  }

  lemma CutInBank(f: Flash, src: nat, n: nat)
    requires f.Valid() && n > 0 && src < f.Size()
    ensures Stride(f, src, Cut(f, src, n), n)
    ensures InOneBank(Transfer(Translate(f, src).0, Banks(0, 0), Translate(f, src).1, Cut(f, src, n)))
  {
    var off, k := Translate(f, src).1, Cut(f, src, n);
    CutFits(off, k);
    if f.mode == Parallel {
      CutCases(2 * off, n, 2 * BANK);
      EvenRoom(off);
      EvenStep(src, BANK - off % BANK);
    } else {
      CutCases(off, n, BANK);
    }
  }

  /** Striped copies keep their parity: the 512 MB cut is even. */
  lemma KeepsParity(f: Flash, src: nat, done: nat, source: nat, n: nat, want: nat, remaining: nat)
    requires source == src + done && Base(f, source) == Base(f, src) + done && Stride(f, source, n, want)
    requires want <= remaining && (want < remaining ==> want == DMA_MAX)
    ensures n < remaining ==> Base(f, src + (done + n)) == Base(f, src) + (done + n)
  {
    EvenStep(source, DMA_MAX / 2);
  }

  lemma EvenRoom(off: nat)
    ensures BankStart(2 * off, 2 * BANK) + 2 * BANK - 2 * off == 2 * (BANK - off % BANK)
  {
    assert (2 * off) / (2 * BANK) == off / BANK;
  }

  lemma CutCases(o: nat, n: nat, bankSize: nat)
    requires bankSize in {BANK, 2 * BANK} && n > 0
    ensures var room := BankStart(o, bankSize) + bankSize - o;
            && 0 < room <= bankSize
            && (BankStart(o, bankSize) != BankStart(o + n, bankSize) <==> room <= n)
  {
    if bankSize == BANK {
      CutOneBank(o, n);
    } else {
      CutTwoBanks(o, n);
    }
  }

  lemma CutOneBank(o: nat, n: nat)
    requires n > 0
    ensures var room := o / BANK * BANK + BANK - o;
            0 < room <= BANK && (o / BANK * BANK != (o + n) / BANK * BANK <==> room <= n)
  {
  }

  lemma CutTwoBanks(o: nat, n: nat)
    requires n > 0
    ensures var room := o / (2 * BANK) * (2 * BANK) + 2 * BANK - o;
            && 0 < room <= 2 * BANK
            && (o / (2 * BANK) * (2 * BANK) != (o + n) / (2 * BANK) * (2 * BANK) <==> room <= n)
  {
  }

  /** The commands that set and read the bank register of a chip. */
  datatype BankCommand =
    | EnableWrite | ExtendedWrite(bank: nat) | ExtendedRead | BankWrite(bank: nat) | BankRead

  class Controller {
    const flash: Flash
    const make: Make
    const bus: nat -> bool // does transfer number t go through?
    var time: nat
    var cs: Select
    var banks: Banks
    ghost var log: seq<Transfer>
    ghost var commands: seq<BankCommand>

    constructor (flash: Flash, make: Make, bus: nat -> bool, banks: Banks)
      requires banks.Valid(flash)
      ensures this.flash == flash && this.make == make && this.bus == bus && this.banks == banks
      ensures Valid() && log == [] && commands == []
    {
      this.flash, this.make, this.bus, this.banks := flash, make, bus, banks;
      time, cs, log, commands := 0, Lower, [], [];
    }

    /** Every transfer so far moved something and stayed inside one bank. */
    ghost predicate Valid()
      reads this
    {
      banks.Valid(flash) && AllInOneBank(log)
    }

    /** Some transfer does not go through. */
    ghost predicate BusFails() {
      exists t: nat :: !bus(t)
    }

    method Bus() returns (ok: bool)
      modifies this`time
      ensures time == old(time) + 1 && ok == bus(old(time))
    {
      ok := bus(time);
      time := time + 1;
    }

    method GetQspiAddr(address: nat) returns (chipAddr: nat)
      requires flash.Valid() && address < flash.Size()
      modifies this`cs
      ensures (cs, chipAddr) == Translate(flash, address)
    {
      match flash.mode {
        case Single =>
          cs := Lower;
          chipAddr := address;
        case Stacked =>
          if address >= flash.Size() / 2 {
            cs := Upper;
            chipAddr := address - flash.Size() / 2;
          } else {
            cs := Lower;
            chipAddr := address;
          }
        case Parallel =>
          cs := Both;
          chipAddr := address / 2;
      }
    }

    /** The bank command reaches the selected chips only, and only if the make has one. */
    method SendBankSelect(bankSel: nat) returns (status: Status)
      requires Valid() && bankSel < 0x100
      requires (cs != Upper ==> bankSel * BANK < |flash.lower|) && (cs != Lower ==> bankSel * BANK < |flash.upper|)
      modifies this`time, this`banks, this`commands
      ensures Valid() && status in {Success, ReadError} && (status == ReadError ==> BusFails() && Switchable(make))
      ensures make in {Winbond, Issi} ==> banks == old(banks) && status == Success
      ensures status == Success && make in {Micron, Macronix, Spansion} ==>
                banks == Banks(if cs != Upper then bankSel else old(banks.lower),
                               if cs != Lower then bankSel else old(banks.upper))
      ensures status == Success ==>
                commands == old(commands) + match make
                                            case Micron => [EnableWrite, ExtendedWrite(bankSel), ExtendedRead]
                                            case Macronix => [EnableWrite, ExtendedWrite(bankSel), ExtendedRead]
                                            case Spansion => [BankWrite(bankSel), BankRead]
                                            case _ => []
    {
      var ok;
      if make == Micron || make == Macronix {
        ok := Command(EnableWrite);
        if !ok {
          return ReadError;
        }
        ok := Command(ExtendedWrite(bankSel));
        if !ok {
          return ReadError;
        }
        SetBank(bankSel);
      }
      if make == Spansion {
        ok := Command(BankWrite(bankSel));
        if !ok {
          return ReadError;
        }
        SetBank(bankSel);
      }
      if make == Micron || make == Macronix {
        ok := Command(ExtendedRead);
        if !ok {
          return ReadError;
        }
      }
      if make == Spansion {
        ok := Command(BankRead);
        if !ok {
          return ReadError;
        }
        var readBack := if cs == Upper then banks.upper else banks.lower;
        if readBack != bankSel {
          return ReadError;
        }
      }
      status := Success;
    }

    method Command(command: BankCommand) returns (ok: bool)
      modifies this`time, this`commands
      ensures ok <==> bus(old(time))
      ensures commands == if ok then old(commands) + [command] else old(commands)
    {
      ok := Bus();
      if ok {
        commands := commands + [command];
      }
    }

    /** The selected chips take the bank. */
    method SetBank(bankSel: nat)
      modifies this`banks
      ensures banks == Banks(if cs != Upper then bankSel else old(banks.lower),
                             if cs != Lower then bankSel else old(banks.upper))
    {
      banks := Banks(if cs != Upper then bankSel else banks.lower, if cs != Lower then bankSel else banks.upper);
    }

    method Store(mem: array<Byte>, at: nat, data: seq<Byte>)
      requires at + |data| <= mem.Length
      modifies mem
      ensures mem[..] == Written(old(mem[..]), at, data)
    {
      forall i | 0 <= i < |data| {
        mem[at + i] := data[i];
      }
    }

    /** One read command: 24 address bits, then the data. */
    method Read24(chipAddr: nat, n: nat, mem: array<Byte>, at: nat) returns (ok: bool)
      requires at + n <= mem.Length && flash.Valid() && (cs != Lower ==> flash.mode != Single)
      modifies this`time, this`log, mem
      ensures ok ==> log == old(log) + [Transfer(cs, banks, chipAddr, n)]
      ensures ok ==> mem[..] == Written(old(mem[..]), at, Wire(flash, Transfer(cs, banks, chipAddr, n)))
      ensures !ok ==> log == old(log) && mem[..] == old(mem[..]) && BusFails()
    {
      ok := Bus();
      if ok {
        var t := Transfer(cs, banks, chipAddr, n);
        Store(mem, at, Wire(flash, t));
        log := log + [t];
      }
    }

    /** The bank test: shorten a transfer that spans beyond the current bank. */
    method CutAtBank(ghost source: nat, chipAddr: nat, want: nat) returns (n: nat)
      requires flash.Valid() && source + want <= flash.Size() && chipAddr == Translate(flash, source).1
      ensures n == Cut(flash, source, want)
    {
      var origAddr := if flash.mode == Parallel then chipAddr * 2 else chipAddr;
      hide And;
      BankTest(flash, source, want, origAddr);
      assert (origAddr + want) % U32 == origAddr + want;
      n := want;
      if And(origAddr, flash.BankMask()) != And((origAddr + want) % U32, flash.BankMask()) {
        n := And(origAddr, flash.BankMask()) + flash.BankSize() - origAddr;
      }
    }

    /** The banks are as found, unless SendBankSelect sets them for every transfer. */
    ghost predicate BanksFrom(found: Banks)
      reads this
    {
      Valid() && found.Valid(flash) && ((flash.NeedsBanks() && Switchable(make)) || banks == found)
    }

    /** One turn of the copy loop: translate, select the bank, cut the transfer, read. */
    method CopyChunk(source: nat, want: nat, mem: array<Byte>, dest: nat, ghost found: Banks)
      returns (status: Status, n: nat)
      requires BanksFrom(found) && 0 < want && source + want <= flash.Size()
      requires dest + want <= mem.Length
      requires flash.mode == Stacked && |flash.lower| < BANK ==> NoChipCrossing(flash, source, want)
      modifies this, mem
      ensures BanksFrom(found) && status in {Success, ReadError}
      ensures status == Success ==> Stride(flash, source, n, want)
      ensures status == Success ==> mem[..] == Written(old(mem[..]), dest, Delivered24(flash, make, found, source, n))
      ensures status == ReadError ==> mem[..] == old(mem[..]) && BusFails()
    {
      hide Delivered24;
      hide Written;
      n := want;
      var chipAddr := GetQspiAddr(source);
      if flash.Size() > flash.BankSize() {
        status := SendBankSelect(chipAddr / BANK);
        if status != Success {
          return ReadError, n;
        }
      }
      n := CutAtBank(source, chipAddr, want);
      ChunkServes(flash, make, found, Transfer(cs, banks, chipAddr, n), source, want);
      var ok := Read24(chipAddr, n, mem, dest);
      status := if ok then Success else ReadError;
    }

    /** The copy from `src` has delivered `k` bytes and will go on from there. */
    ghost predicate Underway(found: Banks, src: nat, k: nat, length: nat, before: seq<Byte>, dst: nat, mem: seq<Byte>)
      reads this
    {
      && BanksFrom(found) && k <= length && src + length <= flash.Size()
      && Copied(flash, make, found, src, k, before, dst, mem)
      && (k < length ==> Base(flash, src + k) == Base(flash, src) + k)
    }

    /** The copy loop before a turn. */
    ghost predicate Turning(mem: array<Byte>, source: nat, remaining: nat, dest: nat, k: nat,
                            found: Banks, src: nat, length: nat, before: seq<Byte>, dst: nat)
      reads this, mem
    {
      && remaining + k == length && source == src + k && dest == dst + k && dest + remaining <= mem.Length == |before|
      && (flash.mode == Stacked && |flash.lower| < BANK ==> NoChipCrossing(flash, src, length))
      && Underway(found, src, k, length, before, dst, mem[..])
    }

    /** A part of a request crosses the chips only if all of it does. */
    lemma NoSmallerCrossing(source: nat, remaining: nat, src: nat, length: nat)
      requires src <= source && source + remaining == src + length && NoChipCrossing(flash, src, length)
      ensures forall n: nat :: n <= remaining ==> NoChipCrossing(flash, source, n)
    {
    }

    /** One turn of the copy loop, with what it adds to the copy. */
    method CopyTurn(source: nat, remaining: nat, mem: array<Byte>, dest: nat,
                    ghost found: Banks, ghost src: nat, ghost k: nat, ghost length: nat, ghost before: seq<Byte>,
                    ghost dst: nat)
      returns (status: Status, n: nat)
      requires remaining > 0 && Turning(mem, source, remaining, dest, k, found, src, length, before, dst)
      modifies this, mem
      ensures status in {Success, ReadError} && (status == Success ==> 0 < n <= remaining)
      ensures status == ReadError ==> BusFails()
      ensures status == Success ==>
              Turning(mem, source + n, remaining - n, dest + n, k + n, found, src, length, before, dst)
      ensures status != Success ==> k <= length && Underway(found, src, k, length, before, dst, mem[..])
    {
      hide Flash.Valid;
      hide Flash.Size;
      hide NoChipCrossing;
      hide Written;
      hide Delivered24;
      hide Copied;
      if flash.mode == Stacked && |flash.lower| < BANK {
        NoSmallerCrossing(source, remaining, src, length);
      }
      var want := if remaining > DMA_MAX then DMA_MAX else remaining;
      status, n := CopyChunk(source, want, mem, dest, found);
      if status == Success {
        KeepsParity(flash, src, k, source, n, want, remaining);
        CopiedMore(flash, make, found, src, k, n, before, dst, old(mem[..]), mem[..]);
      }
    }

    /** XFsbl_Qspi24Copy. */
    method Copy24(src: nat, mem: array<Byte>, dst: nat, length: nat) returns (status: Status, ghost done: nat)
      requires Valid() && flash.Valid() && dst + length <= mem.Length && src + length < U32
      requires flash.mode == Stacked && |flash.lower| < BANK ==> NoChipCrossing(flash, src, length)
      modifies this, mem
      ensures status == LengthError <==> src + length > flash.Size()
      ensures done <= length && (status == Success ==> done == length) && (status == LengthError ==> done == 0)
      ensures src + length <= flash.Size() ==> Copied(flash, make, old(banks), src, done, old(mem[..]), dst, mem[..])
      ensures status == ReadError ==> BusFails()
      ensures status == Success && make in {Micron, Spansion, Macronix} ==>
                mem[..] == Written(old(mem[..]), dst, FlatSlice(flash, Base(flash, src), length))
      ensures status == Success && make in {Winbond, Issi} && RegistersRight(flash, old(banks), src, length) ==>
                mem[..] == Written(old(mem[..]), dst, FlatSlice(flash, Base(flash, src), length))
      ensures src + length > flash.Size() ==> mem[..] == old(mem[..])
      ensures Valid()
    {
      done := 0;
      if !PassesLengthTest(flash, src, length) {
        return LengthError, done;
      }
      ghost var found := banks;
      status, done := CopyBanks(src, mem, dst, length);
      if make in {Micron, Spansion, Macronix} {
        CopyIsFlat(flash, make, found, src, length);
      } else if make in {Winbond, Issi} && RegistersRight(flash, found, src, length) {
        RegistersDecide(flash, make, found, src, length);
      }
    }

    /** One read command with 32 address bits. */
    method ReadWideCmd(chipAddr: nat, n: nat, mem: array<Byte>, at: nat, ghost source: nat) returns (ok: bool)
      requires flash.Valid() && at + n <= mem.Length && (cs, chipAddr) == Translate(flash, source)
      modifies this`time, mem
      ensures mem[..] == if ok then Written(old(mem[..]), at, Delivered32(flash, source, n)) else old(mem[..])
      ensures !ok ==> BusFails()
    {
      ok := Bus();
      if ok {
        var select := cs;
        Store(mem, at, seq(n, i requires 0 <= i < n => ReadWide(flash, select, chipAddr, i)));
      }
    }

    /** The wide copy loop before a turn; a request on the flash takes one turn at most. */
    ghost predicate WideTurning(mem: array<Byte>, source: nat, remaining: nat, dest: nat,
                                src: nat, length: nat, before: seq<Byte>, dst: nat)
      reads this, mem
    {
      && flash.Valid() && src + length <= flash.Size() && dst + length <= mem.Length == |before| && remaining <= length
      && (remaining > 0 ==> remaining == length && source == src && dest == dst)
      && mem[..] == Written(before, dst, Delivered32(flash, src, length - remaining))
    }

    /** One turn of the wide copy loop. */
    method WideTurn(source: nat, remaining: nat, mem: array<Byte>, dest: nat,
                    ghost src: nat, ghost length: nat, ghost before: seq<Byte>, ghost dst: nat)
      returns (ok: bool, n: nat)
      requires remaining > 0 && WideTurning(mem, source, remaining, dest, src, length, before, dst)
      modifies this, mem
      ensures 0 < n <= remaining
      ensures ok ==> WideTurning(mem, source + n, remaining - n, dest + n, src, length, before, dst)
      ensures !ok ==> mem[..] == before && BusFails()
    {
      NothingDelivered(before, dst, src);
      var want := if remaining > DMA_MAX then DMA_MAX else remaining;
      n := want;
      var chipAddr := GetQspiAddr(source);
      ok := ReadWideCmd(chipAddr, n, mem, dest, source);
    }

    lemma NothingDelivered(before: seq<Byte>, dst: nat, src: nat)
      requires flash.Valid() && dst <= |before|
      ensures Written(before, dst, Delivered32(flash, src, 0)) == before
    {
    }

    /** XFsbl_Qspi32Copy: no banks, and no cut but the DMA's. */
    method Copy32(src: nat, mem: array<Byte>, dst: nat, length: nat) returns (status: Status)
      requires flash.Valid() && dst + length <= mem.Length && src + length < U32
      modifies this, mem
      ensures status == LengthError <==> src + length > flash.Size()
      ensures status == ReadError ==> BusFails()
      ensures mem[..] == if status == Success then Written(old(mem[..]), dst, Delivered32(flash, src, length))
              else old(mem[..])
      ensures status == Success && NoChipCrossing(flash, src, length) ==>
                mem[..] == Written(old(mem[..]), dst, FlatSlice(flash, Base(flash, src), length))
    {
      if !PassesLengthTest(flash, src, length) {
        return LengthError;
      }
      status := CopyWide(src, mem, dst, length);
      if NoChipCrossing(flash, src, length) {
        WideCopyIsFlat(flash, src, length);
      }
    }

    /** Its loop. */
    method CopyWide(src: nat, mem: array<Byte>, dst: nat, length: nat) returns (status: Status)
      requires flash.Valid() && dst + length <= mem.Length && src + length <= flash.Size()
      modifies this, mem
      ensures status in {Success, ReadError} && (status == ReadError ==> BusFails())
      ensures mem[..] == if status == Success then Written(old(mem[..]), dst, Delivered32(flash, src, length))
              else old(mem[..])
    {
      hide Written;
      hide Delivered32;
      hide Flash.Valid;
      var remaining: nat, source: nat, dest: nat := length, src, dst;
      ghost var before := mem[..];
      NothingDelivered(before, dst, src);
      while remaining > 0
        invariant WideTurning(mem, source, remaining, dest, src, length, before, dst)
      {
        var ok, n := WideTurn(source, remaining, mem, dest, src, length, before, dst);
        if !ok {
          return ReadError;
        }
        remaining, dest, source := remaining - n, dest + n, source + n;
      }
      status := Success;
    }

    lemma Setout(mem: array<Byte>, src: nat, length: nat, dst: nat)
      requires Valid() && flash.Valid() && src + length <= flash.Size() && dst + length <= mem.Length
      requires flash.mode == Stacked && |flash.lower| < BANK ==> NoChipCrossing(flash, src, length)
      ensures Turning(mem, src, length, dst, 0, banks, src, length, mem[..], dst)
    {
      NothingCopied(flash, make, banks, src, mem[..], dst);
    }

    lemma Underneath(mem: array<Byte>, source: nat, remaining: nat, dest: nat, k: nat,
                     found: Banks, src: nat, length: nat, before: seq<Byte>, dst: nat)
      requires Turning(mem, source, remaining, dest, k, found, src, length, before, dst)
      ensures remaining + k == length && Underway(found, src, k, length, before, dst, mem[..])
    {
    }

    /** The copy loop. */
    method CopyBanks(src: nat, mem: array<Byte>, dst: nat, length: nat) returns (status: Status, ghost done: nat)
      requires Valid() && dst + length <= mem.Length && flash.Valid() && src + length <= flash.Size()
      requires flash.mode == Stacked && |flash.lower| < BANK ==> NoChipCrossing(flash, src, length)
      modifies this, mem
      ensures status in {Success, ReadError} && done <= length && (status == Success ==> done == length)
      ensures status == ReadError ==> BusFails()
      ensures Underway(old(banks), src, done, length, old(mem[..]), dst, mem[..])
    {
      hide Turning;
      hide Underway;
      done := 0;
      var remaining: nat, source: nat, dest: nat := length, src, dst;
      ghost var found, before := banks, mem[..];
      Setout(mem, src, length, dst);
      while remaining > 0
        invariant Turning(mem, source, remaining, dest, done, found, src, length, before, dst)
      {
        Underneath(mem, source, remaining, dest, done, found, src, length, before, dst);
        var n;
        status, n := CopyTurn(source, remaining, mem, dest, found, src, done, length, before, dst);
        if status != Success {
          return;
        }
        remaining, dest, source := remaining - n, dest + n, source + n;
        done := done + n;
      }
      Underneath(mem, source, remaining, dest, done, found, src, length, before, dst);
      status := Success;
    }
  }
}
