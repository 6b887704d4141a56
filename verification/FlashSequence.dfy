/** The flash test in place.  Every chip has an address mode and a write-enable latch, and a
    command reaches the selected chips only: entering four-byte addresses can miss a chip that
    the test then writes to. */
module FlashSequence {
  import opened Bits
  import opened Common
  import opened Qspi
  import opened FlashTest

  const DUMMY_BYTES: nat := 4 // a quad read waits eight clocks: four bytes

  datatype Outcome = Pass | Failure

  // ---------------------------------------------------------------- chips and commands

  datatype Latches = Latches(wide: bool, writable: bool)

  /** The chips and the chip select. A chip of at most 16 MB knows three address bytes only. */
  datatype ChipSet = ChipSet(flash: Flash, lower: Latches, upper: Latches, cs: Select) {
    predicate Valid() {
      && flash.Valid() && (cs == Lower || flash.mode != Single)
      && (|flash.lower| <= BANK ==> !lower.wide && !upper.wide)
    }

    predicate Hears(u: bool) {
      cs == Both || (cs == Upper) == u
    }

    function Of(u: bool): Latches {
      if u then upper else lower
    }

    /** The chip expects as many address bytes as are sent to chips of its size. */
    predicate Decodes(u: bool) {
      |flash.lower| <= BANK || Of(u).wide
    }

    /** The selected chips get `f` done to their latches. */
    function Latched(f: Latches -> Latches): ChipSet {
      this.(lower := if Hears(false) then f(lower) else lower, upper := if Hears(true) then f(upper) else upper)
    }
  }

  function WriteEnable(d: ChipSet, on: bool): (e: ChipSet)
    ensures d.Valid() ==> e.Valid()
    ensures e.flash == d.flash && SameKind(d, e)
  {
    d.Latched((l: Latches) => l.(writable := on))
  }

  /** Some makes change their address mode only while write-enabled. */
  predicate NeedsLatch(make: Make) {
    make == Micron || make == Issi
  }

  function AddressMode(d: ChipSet, make: Make, wide: bool): (e: ChipSet)
    requires d.Valid() && |d.flash.lower| > BANK
    ensures e.Valid() && e.flash == d.flash && e.cs == d.cs
  {
    d.Latched((l: Latches) => if NeedsLatch(make) && !l.writable then l else l.(wide := wide))
  }

  function BankRegister(d: ChipSet, wide: bool): (e: ChipSet)
    requires d.Valid() && |d.flash.lower| > BANK
    ensures e.Valid() && e.flash == d.flash && e.cs == d.cs
  {
    d.Latched((l: Latches) => l.(wide := wide))
  }

  /** A sector erase is carried out by a write-enabled chip when its last address byte is the
      last byte of the command. */
  function EraseCommand(d: ChipSet, off: nat, sectSize: nat): (e: ChipSet)
    requires d.Valid() && sectSize > 1
    ensures e.Valid() && SameKind(d, e)
  {
    var s := if d.cs == Both then sectSize / 2 else sectSize;
    var l := if Acts(d, false) && d.Decodes(false) then EraseChip(d.flash.lower, off, s) else d.flash.lower;
    var u := if Acts(d, true) && d.Decodes(true) then EraseChip(d.flash.upper, off, s) else d.flash.upper;
    ChipSet(d.flash.(lower := l, upper := u),
           if Acts(d, false) && d.Decodes(false) then d.lower.(writable := false) else d.lower,
           if Acts(d, true) && d.Decodes(true) then d.upper.(writable := false) else d.upper, d.cs)
  }

  predicate Acts(d: ChipSet, u: bool) {
    d.Hears(u) && d.Of(u).writable
  }

  function LowByte(a: nat): Byte {
    (a % 0x100) as Byte
  }

  /** A chip that expects three address bytes takes the fourth for data. */
  function ReceivePage(chip: seq<Byte>, decodes: bool, off: nat, data: seq<Byte>, page: nat): (c: seq<Byte>)
    requires chip != [] && |data| <= page && page > 0
    ensures |c| == |chip|
  {
    if decodes then ProgramChip(chip, off, data, page) else ProgramLong(chip, off / 0x100, [LowByte(off)] + data, page)
  }

  /** Of more data than a page holds, the last bytes stay, in the places they wrap to. */
  function ProgramLong(chip: seq<Byte>, off: nat, data: seq<Byte>, page: nat): (c: seq<Byte>)
    requires chip != [] && page > 0
    ensures |c| == |chip|
  {
    if |data| <= page then ProgramChip(chip, off, data, page)
    else
      var o, extra := off % |chip|, |data| - page;
      ProgramChip(chip, o / page * page + (o + extra) % page, data[extra..], page)
  }

  function ProgramCommand(d: ChipSet, off: nat, data: seq<Byte>, pageSize: nat): (e: ChipSet)
    requires d.Valid() && |data| <= pageSize && pageSize % 2 == 0 && pageSize > 0
    ensures e.Valid() && SameKind(d, e)
  {
    var page := if d.cs == Both then pageSize / 2 else pageSize;
    var toLower := if d.cs == Both then Stripe(data, false) else data;
    var toUpper := if d.cs == Both then Stripe(data, true) else data;
    var l := if Acts(d, false) then ReceivePage(d.flash.lower, d.Decodes(false), off, toLower, page) else d.flash.lower;
    var u := if Acts(d, true) then ReceivePage(d.flash.upper, d.Decodes(true), off, toUpper, page) else d.flash.upper;
    WriteEnable(d.(flash := d.flash.(lower := l, upper := u)), false)
  }

  /** Byte i of a read. A chip that expects three address bytes begins to send while the others
      still wait. */
  function ReadCommand(d: ChipSet, off: nat, i: nat): Byte
    requires d.Valid()
  {
    var u := d.cs == Upper || (d.cs == Both && i % 2 == 1);
    var from := if d.Decodes(u) then off else off / 0x100 + DUMMY_BYTES;
    d.flash.Chip(u)[(from + if d.cs == Both then i / 2 else i) % |d.flash.lower|]
  }

  /** Same connection, same sizes, same address modes. */
  predicate SameKind(d: ChipSet, e: ChipSet) {
    && e.flash.mode == d.flash.mode && |e.flash.lower| == |d.flash.lower| && e.cs == d.cs
    && e.lower.wide == d.lower.wide && e.upper.wide == d.upper.wide
  }

  // ---------------------------------------------------------------- the steps of the test

  /** The row describes the chips. */
  predicate Suits(row: Row, d: ChipSet) {
    d.Valid() && Describes(row, d.flash)
  }

  /** GetRealAddr also selects chips. */
  function Selected(d: ChipSet, row: Row, address: nat): (e: ChipSet)
    requires Suits(row, d)
    ensures Suits(row, e) && e.flash == d.flash
  {
    d.(cs := RealAddr(d.flash.mode, row.deviceSize, address).0)
  }

  function Offset(d: ChipSet, row: Row, address: nat): nat
    requires Suits(row, d)
  {
    RealAddr(d.flash.mode, row.deviceSize, address).1
  }

  /** All chips this address selects decode it. */
  predicate DecodesAt(d: ChipSet, row: Row, address: nat)
    requires Suits(row, d)
  {
    var e := Selected(d, row, address);
    (e.Hears(false) ==> e.Decodes(false)) && (e.Hears(true) ==> e.Decodes(true))
  }

  /** One turn of the sector loop: select, write enable, erase. */
  function EraseStep(d: ChipSet, row: Row, address: nat): (e: ChipSet)
    requires Suits(row, d)
    ensures Suits(row, e) && SameKind(Selected(d, row, address), e)
  {
    EraseCommand(WriteEnable(Selected(d, row, address), true), Offset(d, row, address), row.sectSize)
  }

  function EraseRun(d: ChipSet, row: Row, address: nat, n: nat): (e: ChipSet)
    requires Suits(row, d)
    ensures Suits(row, e) && SameKind(d.(cs := e.cs), e)
  {
    if n == 0 then d else EraseStep(EraseRun(d, row, address, n - 1), row, SectorAddr(address, row.sectSize, n - 1))
  }

  lemma EraseRunNext(d: ChipSet, row: Row, address: nat, n: nat)
    requires Suits(row, d)
    ensures EraseRun(d, row, address, 0) == d && SectorAddr(address, row.sectSize, 0) == address
    ensures EraseRun(d, row, address, n + 1) ==
            EraseStep(EraseRun(d, row, address, n), row, SectorAddr(address, row.sectSize, n))
    ensures SectorAddr(address, row.sectSize, n + 1) == SectorAddr(address, row.sectSize, n) + row.sectSize
  {
  }

  /** FlashWrite: select, write enable, program. */
  function PageStep(d: ChipSet, row: Row, address: nat, data: seq<Byte>): (e: ChipSet)
    requires Suits(row, d) && |data| <= row.pageSize
    ensures Suits(row, e) && SameKind(Selected(d, row, address), e)
  {
    ProgramCommand(WriteEnable(Selected(d, row, address), true), Offset(d, row, address), data, row.pageSize)
  }

  /** Where all selected chips decode, a step does to the flash what it is meant to do. */
  lemma EraseStepDecoded(d: ChipSet, row: Row, address: nat)
    requires Suits(row, d) && DecodesAt(d, row, address)
    ensures EraseStep(d, row, address).flash == EraseSector(d.flash, row, address)
  {
  }

  lemma PageStepDecoded(d: ChipSet, row: Row, address: nat, data: seq<Byte>)
    requires Suits(row, d) && DecodesAt(d, row, address) && address < d.flash.Size() && |data| <= row.pageSize
    ensures PageStep(d, row, address, data).flash == WritePage(d.flash, row, address, data)
  {
    hide And;
    hide ProgramChip;
    hide Stripe;
  }

  lemma {:induction false} EraseRunDecoded(d: ChipSet, row: Row, address: nat, n: nat)
    requires Suits(row, d) && forall i :: 0 <= i < n ==> DecodesAt(d, row, SectorAddr(address, row.sectSize, i))
    ensures EraseRun(d, row, address, n).flash == EraseSectors(d.flash, row, address, n)
    decreases n
  {
    if n > 0 {
      EraseRunDecoded(d, row, address, n - 1);
      var e, last := EraseRun(d, row, address, n - 1), SectorAddr(address, row.sectSize, n - 1);
      assert DecodesAt(d, row, last);
      assert DecodesAt(e, row, last);
      EraseStepDecoded(e, row, last);
    }
  }

  // ---------------------------------------------------------------- entering four-byte addresses

  /** FlashEnterExit4BAddMode. */
  function Switched(d: ChipSet, row: Row, make: Make, wide: bool): (e: ChipSet)
    requires Suits(row, d) && row.deviceSize > BANK
    ensures Suits(row, e) && e.flash == d.flash
  {
    if make == Spansion then BankRegister(d, wide)
    else
      var prepared := if NeedsLatch(make) then WriteEnable(d, true) else d;
      var e := AddressMode(Selected(prepared, row, TEST_ADDRESS), make, wide);
      if NeedsLatch(make) then WriteEnable(e, false) else e
  }

  /** The upper chip is part of the test. */
  predicate UsesUpper(row: Row, mode: Mode) {
    mode == Parallel || (mode == Stacked && row.deviceSize <= TEST_ADDRESS)
  }

  /** When the test address can be used: the upper chip is not needed, or takes four address
      bytes already, or its make switches without a latch, or its latch happens to be set. */
  predicate Reachable(d: ChipSet, row: Row, make: Make) {
    || !UsesUpper(row, d.flash.mode) || d.upper.wide || make in {Winbond, Macronix}
    || (make in {Micron, Issi} && d.upper.writable)
  }

  /** The test region lies on the chips of the test address. */
  lemma SameChips(d: ChipSet, row: Row, address: nat)
    requires Suits(row, d) && Reaches(row, d.flash) && TEST_ADDRESS <= address < TEST_ADDRESS + row.sectSize
    ensures row.deviceSize > BANK
    ensures var cs := Selected(d, row, address).cs;
            && cs == (if d.flash.mode == Parallel then Both else if UsesUpper(row, d.flash.mode) then Upper else Lower)
            && Offset(d, row, address) ==
               if d.flash.mode == Parallel then address / 2
               else if UsesUpper(row, d.flash.mode) then address - TEST_ADDRESS
               else address
  {
    hide And;
    TranslationsAgree(d.flash, address);
  }

  /** The lower chip, as far as it is part of the test, takes four address bytes. */
  predicate LowerReady(d: ChipSet, row: Row) {
    (d.flash.mode == Stacked && UsesUpper(row, d.flash.mode)) || d.lower.wide
  }

  /** The test goes on with an upper chip that expects three address bytes. */
  predicate Missed(d: ChipSet, row: Row) {
    UsesUpper(row, d.flash.mode) && !d.upper.wide
  }

  lemma MissedOrDecoded(d: ChipSet, row: Row, address: nat)
    requires Suits(row, d) && Reaches(row, d.flash) && LowerReady(d, row)
    requires TEST_ADDRESS <= address < TEST_ADDRESS + row.sectSize
    ensures DecodesAt(d, row, address) <==> !Missed(d, row)
  {
    SameChips(d, row, address);
    hide RealAddr;
    hide Describes;
  }

  /** Before the chip ID is read, the lower chip is selected. */
  function Opened(d: ChipSet): (e: ChipSet)
    ensures d.Valid() ==> e.Valid()
    ensures e.flash == d.flash
  {
    d.(cs := Lower)
  }

  /** From there, entering four-byte addresses serves the chips of the test address exactly
      under that condition. */
  lemma EntryServes(d: ChipSet, row: Row, make: Make)
    requires Suits(row, d) && Reaches(row, d.flash)
    ensures Suits(row, Opened(d)) && row.deviceSize > BANK
    ensures var e := Switched(Opened(d), row, make, true);
            && LowerReady(e, row) && (Missed(e, row) <==> !Reachable(d, row, make))
            && (DecodesAt(e, row, TEST_ADDRESS) <==> Reachable(d, row, make))
  {
    hide RealAddr;
    hide RowTotals;
    SameChips(d, row, TEST_ADDRESS);
    MissedOrDecoded(Switched(Opened(d), row, make, true), row, TEST_ADDRESS);
  }

  /** Leaving four-byte addresses right after the read serves the chips of the test. */
  lemma ExitServes(d: ChipSet, row: Row, make: Make)
    requires Suits(row, d) && Reaches(row, d.flash) && d.cs == Selected(d, row, TEST_ADDRESS).cs
    ensures row.deviceSize > BANK
    ensures Restored(Switched(d, row, make, false), row)
  {
    hide RealAddr;
    hide RowTotals;
    SameChips(d, row, TEST_ADDRESS);
    SameChips(Switched(d, row, make, false), row, TEST_ADDRESS);
  }

  lemma ReadKeepsReach(d: ChipSet, before: Flash, row: Row)
    requires Progress(d, before, row, PAGE_COUNT)
    ensures Suits(row, d) && Reaches(row, d.flash)
    ensures var e := Selected(d, row, TEST_ADDRESS);
            Suits(row, e) && Reaches(row, e.flash) && e.cs == Selected(e, row, TEST_ADDRESS).cs
  {
    hide RealAddr;
    hide Reaches;
    hide Clashed;
    hide Holds;
  }

  /** The chips of the test expect three address bytes. */
  predicate Restored(d: ChipSet, row: Row) {
    && (d.flash.mode != Stacked || !UsesUpper(row, d.flash.mode) ==> !d.lower.wide)
    && (UsesUpper(row, d.flash.mode) ==> !d.upper.wide)
  }

  function RowMake(i: nat): Make {
    if i < 9 then Spansion else if i < 21 then Micron else if i < 24 then Winbond else if i < 27 then Macronix else Issi
  }

  const AWAKE := Latches(false, false)

  /** Straight after power-up the test cannot reach its address in these seven rows. */
  lemma SevenRowsFail(i: nat, f: Flash)
    requires i < |TABLE| && f.Valid() && f.mode == RowMode(i) && |f.lower| == TABLE[i].deviceSize
    requires Reaches(TABLE[i], f)
    ensures Reachable(ChipSet(f, AWAKE, AWAKE, Lower), TABLE[i], RowMake(i)) <==> i !in {4, 5, 8, 13, 14, 17, 20}
  {
  }

  /** One of them: two stacked Spansion chips of 256 Mbit, where the test address is the first
      of the upper chip. */
  lemma StackedSpansionFails(f: Flash)
    requires f.Valid() && f.mode == Stacked && |f.lower| == 0x2000000
    ensures Reaches(TABLE[4], f) && RealAddr(f.mode, |f.lower|, TEST_ADDRESS) == (Upper, 0)
    ensures !Reachable(ChipSet(f, AWAKE, AWAKE, Lower), TABLE[4], Spansion)
  {
    TableSound(4, f);
    TranslationsAgree(f, TEST_ADDRESS);
  }

  // ---------------------------------------------------------------- a chip that was missed

  /** Some bit of `want` is lost. */
  predicate Spoiled(b: Byte, want: Byte) {
    b & want != want
  }

  lemma SpoiledStays(b: Byte, data: Byte, want: Byte)
    requires Spoiled(b, want)
    ensures Spoiled(Burn(b, data), want) && Spoiled(Burn(data, b), want) && b != want
  {
  }

  /** The upper chip sends the first byte it reads for this byte of the pattern. */
  function FirstByte(mode: Mode): nat {
    if mode == Parallel then 1 else 0
  }

  /** Where the first byte read from a missed chip comes from. */
  function FirstCell(mode: Mode): nat {
    (if mode == Parallel then 0x10000 else 0) + DUMMY_BYTES
  }

  /** The page whose data, shifted, clears a bit the first byte read should have. */
  function ClashPage(row: Row, mode: Mode): (k: nat)
    ensures k < PAGE_COUNT
  {
    var page := ChipPage(row, mode);
    if mode == Parallel then (if page == 256 then 7 else 3) else if page == 256 then 10 else 5
  }

  /** A missed upper chip, after `k` pages. */
  predicate Clashed(d: ChipSet, row: Row, k: nat)
    requires Suits(row, d) && Reaches(row, d.flash) && Missed(d, row)
  {
    k > ClashPage(row, d.flash.mode) ==>
        Spoiled(d.flash.upper[FirstCell(d.flash.mode)], Pattern(FirstByte(d.flash.mode)))
  }

  /** The offset of that page on the chip, and which of its bytes meets the first cell. */
  function ClashOffset(mode: Mode, page: nat): nat {
    if mode != Parallel then 2560 else if page == 256 then 0x1000700 else 0x1000600
  }

  function ClashByte(mode: Mode, page: nat): (i: nat) {
    if mode == Parallel then (if page == 256 then 252 else 509) else if page == 256 then 249 else 505
  }

  /** A missed chip puts the data one byte further, at a 256th of the offset. */
  lemma ShiftedByte(chip: seq<Byte>, off: nat, mine: seq<Byte>, page: nat, start: nat, cell: nat, i: nat)
    requires |mine| == page > 0 && off / 0x100 < |chip| && start < |chip| && cell < |chip| && i < page
    requires start == off / 0x100 / page * page + (off / 0x100 + 1) % page
    requires cell / page == start / page && i == (cell + page - start % page) % page
    ensures ReceivePage(chip, false, off, mine, page)[cell] == Burn(chip[cell], mine[i])
  {
    hide Burn;
    hide LowByte;
    ShiftedPage(chip, off, mine, page, start);
    ProgrammedByte(chip, start, mine, page, cell, i);
  }

  lemma ShiftedPage(chip: seq<Byte>, off: nat, mine: seq<Byte>, page: nat, start: nat)
    requires |mine| == page > 0 && off / 0x100 < |chip|
    requires start == off / 0x100 / page * page + (off / 0x100 + 1) % page
    ensures ReceivePage(chip, false, off, mine, page) == ProgramChip(chip, start, mine, page)
  {
    hide LowByte;
    hide ProgramChip;
    assert ([LowByte(off)] + mine)[1..] == mine;
    DivUnique(off / 0x100, |chip|, 0, off / 0x100);
  }

  lemma ProgrammedByte(chip: seq<Byte>, start: nat, data: seq<Byte>, page: nat, cell: nat, i: nat)
    requires |data| <= page && page > 0 && start < |chip| && cell < |chip| && i < |data|
    requires cell / page == start / page && i == (cell + page - start % page) % page
    ensures ProgramChip(chip, start, data, page)[cell] == Burn(chip[cell], data[i])
  {
    hide Burn;
    DivUnique(start, |chip|, 0, start);
  }

  lemma ClashStart(mode: Mode, page: nat)
    requires page in {256, 512} && mode != Single
    ensures var off, cell := ClashOffset(mode, page), FirstCell(mode);
            var start := off / 0x100 / page * page + (off / 0x100 + 1) % page;
            && off / 0x100 < 0x2000000 && start < 0x2000000 && cell < 0x2000000 && ClashByte(mode, page) < page
            && cell / page == start / page && ClashByte(mode, page) == (cell + page - start % page) % page
  {
    if page == 256 {
      ClashSmall(mode);
    } else {
      ClashLarge(mode);
    }
  }

  lemma ClashSmall(mode: Mode)
    requires mode != Single
    ensures var off, cell := ClashOffset(mode, 256), FirstCell(mode);
            var start := off / 0x100 / 256 * 256 + (off / 0x100 + 1) % 256;
            && off / 0x100 < 0x2000000 && start < 0x2000000 && cell < 0x2000000 && ClashByte(mode, 256) < 256
            && cell / 256 == start / 256 && ClashByte(mode, 256) == (cell + 256 - start % 256) % 256
  {
  }

  lemma ClashLarge(mode: Mode)
    requires mode != Single
    ensures var off, cell := ClashOffset(mode, 512), FirstCell(mode);
            var start := off / 0x100 / 512 * 512 + (off / 0x100 + 1) % 512;
            && off / 0x100 < 0x2000000 && start < 0x2000000 && cell < 0x2000000 && ClashByte(mode, 512) < 512
            && cell / 512 == start / 512 && ClashByte(mode, 512) == (cell + 512 - start % 512) % 512
  {
  }

  lemma ClashValue(mode: Mode, page: nat, mine: seq<Byte>, chip: seq<Byte>)
    requires page in {256, 512} && mode != Single && |chip| >= 0x2000000
    requires |mine| == page && forall j :: 0 <= j < |mine| ==>
             mine[j] == Pattern(if mode == Parallel then 2 * j + 1 else j)
    ensures FirstCell(mode) < |chip|
    ensures Spoiled(ReceivePage(chip, false, ClashOffset(mode, page), mine, page)[FirstCell(mode)],
            Pattern(FirstByte(mode)))
  {
    hide Spoiled;
    hide Burn;
    hide Pattern;
    hide ReceivePage;
    var off, cell, i := ClashOffset(mode, page), FirstCell(mode), ClashByte(mode, page);
    var start := off / 0x100 / page * page + (off / 0x100 + 1) % page;
    ClashStart(mode, page);
    ShiftedByte(chip, off, mine, page, start, cell, i);
    ClashBits();
    SpoiledBurn(chip[cell], mine[i], Pattern(FirstByte(mode)));
  }

  lemma SpoiledBurn(cell: Byte, data: Byte, want: Byte)
    requires Spoiled(data, want)
    ensures Spoiled(Burn(cell, data), want)
  {
  }

  lemma ClashBits()
    ensures Spoiled(Pattern(249), Pattern(0)) && Spoiled(Pattern(505), Pattern(0))
    ensures Spoiled(Pattern(505), Pattern(1)) && Spoiled(Pattern(1019), Pattern(1))
  {
    PatternAt(0, 7);
    PatternAt(1, 8);
    PatternAt(249, 0);
    PatternAt(505, 0);
    PatternAt(1019, 2);
    hide Pattern;
    LostBits();
  }

  lemma PatternAt(c: nat, v: nat)
    requires v == (UNIQUE_VALUE + c + TEST) % 0x100
    ensures Pattern(c) == v as Byte
  {
  }

  lemma LostBits()
    ensures Spoiled(0, 7) && Spoiled(0, 8) && Spoiled(2, 8)
  {
  }

  lemma OnlyClears(chip: seq<Byte>, off: nat, data: seq<Byte>, page: nat, cell: nat, want: Byte)
    requires chip != [] && |data| <= page && page > 0 && cell < |chip| && Spoiled(chip[cell], want)
    ensures Spoiled(ReceivePage(chip, false, off, data, page)[cell], want)
  {
    hide ProgramChip;
    hide Burn;
    hide Spoiled;
    hide LowByte;
    var sent := [LowByte(off)] + data;
    if |sent| <= page {
      ProgramClears(chip, off / 0x100, sent, page, cell, want);
    } else {
      var o := off / 0x100 % |chip|;
      Parts(o, page);
      ProgramClears(chip, o / page * page + (o + 1) % page, sent[1..], page, cell, want);
    }
  }

  lemma ProgramClears(chip: seq<Byte>, off: nat, data: seq<Byte>, page: nat, cell: nat, want: Byte)
    requires chip != [] && |data| <= page && page > 0 && cell < |chip| && Spoiled(chip[cell], want)
    ensures Spoiled(ProgramChip(chip, off, data, page)[cell], want)
  {
    hide Burn;
    hide Spoiled;
    var i := (cell + page - off % |chip| % page) % page;
    if i < |data| {
      SpoiledStays(chip[cell], data[i], want);
    }
  }

  /** What the upper chip gets of a page of the pattern. */
  function UpperShare(row: Row, mode: Mode): (s: seq<Byte>)
    requires ChipPage(row, mode) in {256, 512}
    ensures |s| == ChipPage(row, mode)
    ensures forall j :: 0 <= j < |s| ==> s[j] == Pattern(if mode == Parallel then 2 * j + 1 else j)
  {
    hide Pattern;
    if mode == Parallel then Stripe(PatternPage(row.pageSize), true) else PatternPage(row.pageSize)
  }

  lemma MissedPage(d: ChipSet, row: Row, k: nat)
    requires Suits(row, d) && Reaches(row, d.flash) && Missed(d, row) && k < PAGE_COUNT
    ensures var e := PageStep(d, row, PageAddress(row, k), PatternPage(row.pageSize));
            var mode := d.flash.mode;
            && Reaches(row, e.flash) && Missed(e, row) && e.flash.mode == mode
            && e.flash.upper == ReceivePage(d.flash.upper, false, Offset(d, row, PageAddress(row, k)),
                                            UpperShare(row, mode), ChipPage(row, mode))
  {
    hide Pattern;
    hide ReceivePage;
    hide RealAddr;
    PageInSector(row, k);
    SameChips(d, row, PageAddress(row, k));
  }

  lemma PageInSector(row: Row, k: nat)
    requires RowSound(row) && k < PAGE_COUNT
    ensures TEST_ADDRESS <= PageAddress(row, k) < TEST_ADDRESS + row.sectSize
  {
    OneSector(row);
    PageAligned(row.pageSize, k);
  }

  lemma ClashStep(d: ChipSet, row: Row, k: nat)
    requires Suits(row, d) && Reaches(row, d.flash) && Missed(d, row) && k < PAGE_COUNT && Clashed(d, row, k)
    ensures var e := PageStep(d, row, PageAddress(row, k), PatternPage(row.pageSize));
            Reaches(row, e.flash) && Missed(e, row) && e.flash.mode == d.flash.mode && Clashed(e, row, k + 1)
  {
    hide Spoiled;
    hide Pattern;
    hide PageStep;
    hide ReceivePage;
    hide Offset;
    var mode, page, at := d.flash.mode, ChipPage(row, d.flash.mode), Offset(d, row, PageAddress(row, k));
    MissedPage(d, row, k);
    if k == ClashPage(row, mode) {
      ClashAt(d, row, k);
      ClashValue(mode, page, UpperShare(row, mode), d.flash.upper);
    } else if k > ClashPage(row, mode) {
      OnlyClears(d.flash.upper, at, UpperShare(row, mode), page, FirstCell(mode), Pattern(FirstByte(mode)));
    }
  }

  lemma ClashAt(d: ChipSet, row: Row, k: nat)
    requires Suits(row, d) && Reaches(row, d.flash) && Missed(d, row) && k == ClashPage(row, d.flash.mode)
    ensures Offset(d, row, PageAddress(row, k)) == ClashOffset(d.flash.mode, ChipPage(row, d.flash.mode))
  {
    PageInSector(row, k);
    SameChips(d, row, PageAddress(row, k));
    hide Offset;
    if row.pageSize == 256 {
      assert PageAddress(row, k) == k * 256 + TEST_ADDRESS;
    } else if row.pageSize == 512 {
      assert PageAddress(row, k) == k * 512 + TEST_ADDRESS;
    } else {
      assert PageAddress(row, k) == k * 1024 + TEST_ADDRESS;
    }
  }

  /** Whatever the flash held, the first byte read from a missed chip is wrong. */
  lemma ClashRead(d: ChipSet, row: Row)
    requires Suits(row, d) && Reaches(row, d.flash) && Missed(d, row) && Clashed(d, row, PAGE_COUNT)
    ensures FirstByte(d.flash.mode) < MaxData(row)
    ensures var c := FirstByte(d.flash.mode);
            ReadCommand(Selected(d, row, TEST_ADDRESS), Offset(d, row, TEST_ADDRESS), c) != Pattern(c)
  {
    hide Pattern;
    hide Spoiled;
    hide RealAddr;
    SameChips(d, row, TEST_ADDRESS);
    var mode := d.flash.mode;
    SpoiledStays(d.flash.upper[FirstCell(mode)], 0, Pattern(FirstByte(mode)));
    DivUnique(FirstCell(mode), |d.flash.lower|, 0, FirstCell(mode));
  }

  // ---------------------------------------------------------------- the run

  /** After `k` pages: as it should be, or spoiled for good. */
  ghost predicate Progress(d: ChipSet, before: Flash, row: Row, k: nat) {
    && Suits(row, d) && Reaches(row, before) && Reaches(row, d.flash) && LowerReady(d, row)
    && if Missed(d, row) then Clashed(d, row, k) else Holds(d.flash, before, row, k)
  }

  lemma ErasedProgress(d: ChipSet, row: Row)
    requires Suits(row, d) && Reaches(row, d.flash) && LowerReady(d, row)
    ensures SectorCount(row, TEST_ADDRESS, MaxData(row)) == 1 && TEST_ADDRESS + MaxData(row) <= d.flash.Size()
    ensures MaxData(row) != row.numSect * row.sectSize
    ensures var e := EraseRun(d, row, TEST_ADDRESS, 1);
            Progress(e, d.flash, row, 0) && (Missed(e, row) <==> Missed(d, row))
  {
    TestErase(d.flash, row);
    hide SectorCount;
    hide Holds;
    hide RowSound;
    hide RowTotals;
    assert TEST_ADDRESS + MaxData(row) <= d.flash.Size() && MaxData(row) != row.numSect * row.sectSize;
    var e := EraseRun(d, row, TEST_ADDRESS, 1);
    FirstErased(d, row);
    SameReach(d, e, row);
    assert Missed(d, row) ==> Clashed(e, row, 0);
  }

  lemma SameReach(d: ChipSet, e: ChipSet, row: Row)
    requires Suits(row, d) && Suits(row, e) && SameKind(d.(cs := e.cs), e)
    ensures (Missed(e, row) <==> Missed(d, row)) && (LowerReady(e, row) <==> LowerReady(d, row))
    ensures Reaches(row, e.flash) <==> Reaches(row, d.flash)
  {
  }

  lemma FirstErased(d: ChipSet, row: Row)
    requires Suits(row, d) && Reaches(row, d.flash) && LowerReady(d, row)
    ensures !Missed(d, row) ==> EraseRun(d, row, TEST_ADDRESS, 1).flash == EraseSectors(d.flash, row, TEST_ADDRESS, 1)
  {
    hide EraseRun;
    hide EraseSectors;
    hide DecodesAt;
    hide Reaches;
    hide Missed;
    if !Missed(d, row) {
      assert SectorAddr(TEST_ADDRESS, row.sectSize, 0) == TEST_ADDRESS;
      assert row.sectSize > 0;
      MissedOrDecoded(d, row, TEST_ADDRESS);
      EraseRunDecoded(d, row, TEST_ADDRESS, 1);
    }
  }

  lemma PageProgress(d: ChipSet, before: Flash, row: Row, k: nat)
    requires Progress(d, before, row, k) && k < PAGE_COUNT
    ensures var e := PageStep(d, row, PageAddress(row, k), PatternPage(row.pageSize));
            Progress(e, before, row, k + 1) && (Missed(e, row) <==> Missed(d, row))
  {
    hide Pattern;
    var e := PageStep(d, row, PageAddress(row, k), PatternPage(row.pageSize));
    SameReach(d, e, row);
    if Missed(d, row) {
      ClashStep(d, row, k);
    } else {
      PageInSector(row, k);
      MissedOrDecoded(d, row, PageAddress(row, k));
      PageHolds(d.flash, before, row, k);
      PageStepDecoded(d, row, PageAddress(row, k), PatternPage(row.pageSize));
    }
  }

  /** What a read of the whole test returns: the pattern, exactly when no chip was missed. */
  lemma ReadProgress(d: ChipSet, before: Flash, row: Row)
    requires Progress(d, before, row, PAGE_COUNT)
    ensures (forall c: nat :: c < MaxData(row) ==>
               ReadCommand(Selected(d, row, TEST_ADDRESS), Offset(d, row, TEST_ADDRESS), c) == Pattern(c)) <==>
                   !Missed(d, row)
  {
    hide Pattern;
    hide ReadCommand;
    hide Holds;
    if Missed(d, row) {
      ClashRead(d, row);
    } else {
      OneSector(row);
      forall c: nat | c < MaxData(row)
        ensures ReadCommand(Selected(d, row, TEST_ADDRESS), Offset(d, row, TEST_ADDRESS), c) == Pattern(c)
      {
        ReadsBack(d.flash, before, row, c);
        ReadDecoded(d, row, c);
      }
    }
  }

  lemma ReadDecoded(d: ChipSet, row: Row, c: nat)
    requires Suits(row, d) && Reaches(row, d.flash) && LowerReady(d, row) && !Missed(d, row) && c < MaxData(row)
    ensures ReadCommand(Selected(d, row, TEST_ADDRESS), Offset(d, row, TEST_ADDRESS), c) ==
            Delivered32(d.flash, TEST_ADDRESS, MaxData(row))[c]
  {
    MissedOrDecoded(d, row, TEST_ADDRESS);
    TranslationsAgree(d.flash, TEST_ADDRESS);
    var e, off := Selected(d, row, TEST_ADDRESS), Offset(d, row, TEST_ADDRESS);
    assert (e.cs, off) == Translate(d.flash, TEST_ADDRESS);
    assert Delivered32(d.flash, TEST_ADDRESS, MaxData(row))[c] == ReadWide(d.flash, e.cs, off, c);
    WideRead(e, off, c);
  }

  lemma WideRead(d: ChipSet, off: nat, i: nat)
    requires d.Valid() && (d.Hears(false) ==> d.Decodes(false)) && (d.Hears(true) ==> d.Decodes(true))
    ensures ReadCommand(d, off, i) == ReadWide(d.flash, d.cs, off, i)
  {
  }

  // ---------------------------------------------------------------- the code, in place

  class Tester {
    var dev: ChipSet
    const row: Row
    const make: Make
    const bus: nat -> bool // does transfer number t go through?
    var time: nat
    ghost var failures: nat // transfers that did not go through

    constructor (dev: ChipSet, row: Row, make: Make, bus: nat -> bool)
      requires Suits(row, dev)
      ensures this.dev == dev && this.row == row && this.make == make && this.bus == bus && time == 0 && failures == 0
    {
      this.dev, this.row, this.make, this.bus, time, failures := dev, row, make, bus, 0, 0;
    }

    method Bus() returns (ok: bool)
      modifies this`time, this`failures
      ensures time == old(time) + 1 && ok == bus(old(time))
      ensures failures == old(failures) + if ok then 0 else 1
    {
      ok := bus(time);
      time := time + 1;
      if !ok {
        failures := failures + 1;
      }
    }

    /** No transfer failed since there were `n` failures. */
    ghost predicate Quiet(n: nat)
      reads this
    {
      failures == n
    }

    method GetRealAddr(address: nat) returns (realAddr: nat)
      requires Suits(row, dev)
      modifies this`dev
      ensures dev == Selected(old(dev), row, address) && realAddr == Offset(old(dev), row, address)
    {
      var (cs, off) := RealAddr(dev.flash.mode, row.deviceSize, address);
      dev := dev.(cs := cs);
      realAddr := off;
    }

    /** FlashEnterExit4BAddMode. */
    method EnterExit4BAddMode(enable: bool) returns (ok: bool)
      requires Suits(row, dev) && row.deviceSize > BANK
      modifies this`dev, this`time, this`failures
      ensures Suits(row, dev) && dev.flash == old(dev.flash) && failures >= old(failures) && ok == Quiet(old(failures))
      ensures ok ==> dev == Switched(old(dev), row, make, enable)
    {
      hide WriteEnable;
      hide AddressMode;
      hide BankRegister;
      hide RowSound;
      hide And;
      assert |dev.flash.lower| > BANK;
      hide Flash.Valid;
      if make == Micron || make == Issi {
        ok := Bus();
        if !ok {
          return;
        }
        dev := WriteEnable(dev, true);
      } else if make == Spansion {
        ok := Bus();
        if ok {
          dev := BankRegister(dev, enable);
        }
        return;
      }
      var _ := GetRealAddr(TEST_ADDRESS);
      ok := Bus();
      if !ok {
        return;
      }
      dev := AddressMode(dev, make, enable);
      ok := Bus();
      if !ok {
        return;
      }
      if make == Micron || make == Issi {
        ok := Bus();
        if ok {
          dev := WriteEnable(dev, false);
        }
      }
    }

    /** One turn of the sector loop: write enable, sector erase, wait. */
    method EraseOne(address: nat) returns (ok: bool)
      requires Suits(row, dev)
      modifies this`dev, this`time, this`failures
      ensures Suits(row, dev) && failures >= old(failures) && ok == Quiet(old(failures))
      ensures ok ==> dev == EraseStep(old(dev), row, address)
    {
      hide And;
      hide EraseChip;
      var realAddr := GetRealAddr(address);
      ok := Bus();
      if !ok {
        return;
      }
      dev := WriteEnable(dev, true);
      ok := Bus();
      if !ok {
        return;
      }
      dev := EraseCommand(dev, realAddr, row.sectSize);
      ok := Bus();
    }

    method SectorsToErase(address: nat, byteCount: nat) returns (numSect: nat)
      requires row.sectSize > 0
      ensures numSect == SectorCount(row, address, byteCount)
    {
      numSect := byteCount / row.sectSize + 1;
      if And((address + byteCount) % U32, row.sectMask) == And((address + numSect * row.sectSize) % U32, row.sectMask) {
        numSect := numSect + 1;
      }
    }

    /** FlashErase, for less than the whole flash. */
    method FlashErase(address: nat, byteCount: nat) returns (ok: bool)
      requires Suits(row, dev) && byteCount != row.numSect * row.sectSize && address + byteCount <= dev.flash.Size()
      modifies this`dev, this`time, this`failures
      ensures Suits(row, dev) && failures >= old(failures) && ok == Quiet(old(failures))
      ensures ok ==> dev == EraseRun(old(dev), row, address, SectorCount(row, address, byteCount))
    {
      hide EraseStep;
      hide SectorCount;
      hide EraseRun;
      assert row.sectSize > 0;
      hide Suits;
      EraseRunNext(dev, row, address, 0);
      var numSect := SectorsToErase(address, byteCount);
      ok := true;
      var at: nat := address;
      for sector := 0 to numSect
        invariant at == SectorAddr(address, row.sectSize, sector)
        invariant ok && Quiet(old(failures)) && dev == EraseRun(old(dev), row, address, sector)
      {
        EraseRunNext(old(dev), row, address, sector);
        ok := EraseOne(at);
        if !ok {
          return;
        }
        at := at + row.sectSize;
      }
    }

    /** FlashWrite: write enable, page program, wait. */
    method FlashWrite(address: nat, data: seq<Byte>) returns (ok: bool)
      requires Suits(row, dev) && |data| <= row.pageSize
      modifies this`dev, this`time, this`failures
      ensures Suits(row, dev) && failures >= old(failures) && ok == Quiet(old(failures))
      ensures ok ==> dev == PageStep(old(dev), row, address, data)
    {
      hide And;
      hide ReceivePage;
      var realAddr := GetRealAddr(address);
      ok := Bus();
      if !ok {
        return;
      }
      dev := WriteEnable(dev, true);
      ok := Bus();
      if !ok {
        return;
      }
      dev := ProgramCommand(dev, realAddr, data, row.pageSize);
      ok := Bus();
    }

    /** FlashRead: one read command for everything. */
    method FlashRead(address: nat, n: nat, buffer: array<Byte>) returns (ok: bool)
      requires Suits(row, dev) && n <= buffer.Length
      modifies this`dev, this`time, this`failures, buffer
      ensures dev == Selected(old(dev), row, address) && failures >= old(failures) && ok == Quiet(old(failures))
      ensures ok ==> forall i :: 0 <= i < n ==> buffer[i] == ReadCommand(dev, Offset(old(dev), row, address), i)
    {
      hide And;
      hide ReadCommand;
      var realAddr := GetRealAddr(address);
      ok := Bus();
      if ok {
        forall i | 0 <= i < n {
          buffer[i] := ReadCommand(dev, realAddr, i);
        }
      }
    }

    /** The page loop. */
    method WritePages(ghost before: Flash) returns (ok: bool)
      requires Progress(dev, before, row, 0)
      modifies this`dev, this`time, this`failures
      ensures Suits(row, dev) && failures >= old(failures) && ok == Quiet(old(failures))
      ensures ok ==> Progress(dev, before, row, PAGE_COUNT) && (Missed(dev, row) <==> Missed(old(dev), row))
    {
      hide Pattern;
      hide PageStep;
      var data := PatternPage(row.pageSize);
      ok := true;
      for page := 0 to PAGE_COUNT
        invariant ok && Quiet(old(failures)) && Progress(dev, before, row, page)
                  && (Missed(dev, row) <==> Missed(old(dev), row))
      {
        PageProgress(dev, before, row, page);
        hide Progress;
        hide Missed;
        ok := FlashWrite(PageAddress(row, page), data);
        if !ok {
          return;
        }
      }
    }

    /** The final comparison, byte by byte. */
    method Verify(buffer: array<Byte>) returns (ok: bool)
      requires MaxData(row) <= buffer.Length
      ensures ok <==> forall c :: 0 <= c < MaxData(row) ==> buffer[c] == Pattern(c)
    {
      for count := 0 to MaxData(row)
        invariant forall c :: 0 <= c < count ==> buffer[c] == Pattern(c)
      {
        if buffer[count] != Pattern(count) {
          return false;
        }
      }
      ok := true;
    }

    method EraseAndWrite() returns (ok: bool)
      requires Suits(row, dev) && Reaches(row, dev.flash) && LowerReady(dev, row)
      modifies this`dev, this`time, this`failures
      ensures Suits(row, dev) && failures >= old(failures) && ok == Quiet(old(failures))
      ensures ok ==> Progress(dev, old(dev.flash), row, PAGE_COUNT) && (Missed(dev, row) <==> Missed(old(dev), row))
    {
      hide Progress;
      hide Missed;
      hide EraseRun;
      ErasedProgress(dev, row);
      ghost var before := dev.flash;
      ok := FlashErase(TEST_ADDRESS, MaxData(row));
      if ok {
        ok := WritePages(before);
      }
    }

    method ReadAndVerify(readBuffer: array<Byte>, ghost before: Flash) returns (ok: bool)
      requires Progress(dev, before, row, PAGE_COUNT) && MaxData(row) <= readBuffer.Length
      modifies this`dev, this`time, this`failures, readBuffer
      ensures dev == Selected(old(dev), row, TEST_ADDRESS)
      ensures ok <==> Quiet(old(failures)) && !Missed(old(dev), row)
      ensures ok ==> Holds(dev.flash, before, row, PAGE_COUNT)
      ensures Suits(row, dev)
    {
      hide Missed;
      hide Pattern;
      hide ReadCommand;
      hide Selected;
      ReadProgress(dev, before, row);
      ok := FlashRead(TEST_ADDRESS, MaxData(row), readBuffer);
      if ok {
        ok := Verify(readBuffer);
      }
    }

    /** The chip ID is read from the lower chip, then four-byte addresses are entered. */
    method Prepare() returns (ok: bool)
      requires Suits(row, dev) && Reaches(row, dev.flash)
      modifies this`dev, this`time, this`failures
      ensures dev.flash == old(dev.flash) && failures >= old(failures) && ok == Quiet(old(failures))
      ensures ok ==> Suits(row, dev) && LowerReady(dev, row) && (Missed(dev, row) <==> !Reachable(old(dev), row, make))
    {
      EntryServes(dev, row, make);
      hide Switched;
      hide Missed;
      hide Suits;
      hide Reaches;
      hide LowerReady;
      hide Reachable;
      hide DecodesAt;
      dev := Opened(dev);
      ok := Bus();
      if ok && row.deviceSize > BANK {
        ok := EnterExit4BAddMode(true);
      }
    }

    /** QspiPsuPolledFlashExample: on every NOR device with room at the test address, whatever
        it held, the test passes exactly when no transfer fails and four-byte addresses reach
        every chip of the test. */
    method PolledFlashExample(readBuffer: array<Byte>) returns (status: Outcome)
      requires Suits(row, dev) && Reaches(row, dev.flash) && MaxData(row) <= readBuffer.Length
      modifies this`dev, this`time, this`failures, readBuffer
      ensures status == Pass <==> Quiet(old(failures)) && Reachable(old(dev), row, make)
      ensures status == Pass ==> Holds(dev.flash, old(dev.flash), row, PAGE_COUNT) && Restored(dev, row)
    {
      ghost var before := dev.flash;
      hide Suits;
      hide Reaches;
      hide Missed;
      hide LowerReady;
      hide Reachable;
      hide Progress;
      hide Holds;
      hide Restored;
      hide Switched;
      hide Selected;
      var ok := Prepare();
      if !ok {
        return Failure;
      }
      ok := EraseAndWrite();
      if !ok {
        return Failure;
      }
      ReadKeepsReach(dev, before, row);
      ok := ReadAndVerify(readBuffer, before);
      if !ok {
        return Failure;
      }
      ExitServes(dev, row, make);
      if row.deviceSize > BANK {
        ok := EnterExit4BAddMode(false);
      }
      status := if ok then Pass else Failure;
    }
  }
}
