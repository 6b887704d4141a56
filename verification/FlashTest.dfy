/** The flash test of the factory application: erase a range, write a pattern page by page,
    read it back.  The flash is a NOR device, where an erase sets whole sectors to ones and
    a page program can only clear bits. */
module FlashTest {
  import opened Bits
  import opened Common
  import opened Qspi

  const ERASED: Byte := 0xFF
  const PAGE_COUNT: nat := 32
  const TEST_ADDRESS: nat := 0x2000000
  const UNIQUE_VALUE: nat := 6
  const TEST: nat := 1

  /** A row of Flash_Config_Table; sector and page sizes of both chips together when striped. */
  datatype Row = Row(sectSize: nat, numSect: nat, pageSize: nat, numPage: nat, deviceSize: nat, sectMask: nat,
                     numDie: nat)

  /** The row describes flash `f`. */
  predicate Describes(row: Row, f: Flash) {
    f.Valid() && |f.lower| == row.deviceSize && RowSound(row)
  }

  predicate RowSound(row: Row) {
    && row.deviceSize in {0x1000000, 0x2000000, 0x4000000, 0x8000000}
    && row.sectSize in {0x10000, 0x20000, 0x40000, 0x80000}
    && row.pageSize in {256, 512, 1024}
    && row.sectMask == U32 - row.sectSize
  }

  predicate RowTotals(row: Row, mode: Mode) {
    && row.sectSize * row.numSect == (if mode == Single then row.deviceSize else 2 * row.deviceSize)
    && row.pageSize * row.numPage == row.sectSize * row.numSect
    && ChipPage(row, mode) in {256, 512}
  }

  /** The page size of one chip. */
  function ChipPage(row: Row, mode: Mode): nat {
    if mode == Parallel then row.pageSize / 2 else row.pageSize
  }

  // ---------------------------------------------------------------- the device

  /** The sector of the chip that holds `off` becomes all ones. */
  function EraseChip(chip: seq<Byte>, off: nat, sector: nat): (c: seq<Byte>)
    requires chip != [] && sector > 0
    ensures |c| == |chip|
  {
    seq(|chip|, j requires 0 <= j < |chip| => if j / sector == off % |chip| / sector then ERASED else chip[j])
  }

  /** Programming can only clear bits. */
  function Burn(cell: Byte, data: Byte): Byte {
    cell & data
  }

  /** Data goes to the page of the chip that holds `off`, wrapping around inside the
      page. */
  function ProgramChip(chip: seq<Byte>, off: nat, data: seq<Byte>, page: nat): (c: seq<Byte>)
    requires chip != [] && |data| <= page && page > 0
    ensures |c| == |chip|
  {
    var o := off % |chip|;
    seq(|chip|, j requires 0 <= j < |chip| =>
      var i := (j + page - o % page) % page;
      if j / page == o / page && i < |data| then Burn(chip[j], data[i]) else chip[j])
  }

  /** Every second byte, for one of two striped chips. */
  function Stripe(data: seq<Byte>, upperChip: bool): (s: seq<Byte>)
    ensures |s| == (if upperChip then |data| / 2 else (|data| + 1) / 2)
  {
    var k := if upperChip then 1 else 0;
    seq((|data| + 1 - k) / 2, i requires 0 <= i < (|data| + 1 - k) / 2 => data[2 * i + k])
  }

  function Erase(f: Flash, cs: Select, off: nat, sectSize: nat): (g: Flash)
    requires f.Valid() && (cs == Lower || f.mode != Single) && sectSize > 1
    ensures g.Valid() && g.mode == f.mode && |g.lower| == |f.lower|
  {
    var s := if cs == Both then sectSize / 2 else sectSize;
    f.(lower := if cs == Upper then f.lower else EraseChip(f.lower, off, s),
       upper := if cs == Lower then f.upper else EraseChip(f.upper, off, s))
  }

  function Program(f: Flash, cs: Select, off: nat, data: seq<Byte>, pageSize: nat): (g: Flash)
    requires f.Valid() && (cs == Lower || f.mode != Single) && |data| <= pageSize && pageSize % 2 == 0 && pageSize > 0
    ensures g.Valid() && g.mode == f.mode && |g.lower| == |f.lower|
  {
    match cs
    case Lower => f.(lower := ProgramChip(f.lower, off, data, pageSize))
    case Upper => f.(upper := ProgramChip(f.upper, off, data, pageSize))
    case Both => f.(lower := ProgramChip(f.lower, off, Stripe(data, false), pageSize / 2),
                    upper := ProgramChip(f.upper, off, Stripe(data, true), pageSize / 2))
  }

  // ---------------------------------------------------------------- addresses

  /** GetRealAddr: like XFsbl_GetQspiAddr, but stacked chips are told apart by a bit. */
  function RealAddr(mode: Mode, deviceSize: nat, address: nat): (Select, nat)
    requires deviceSize < U32
  {
    match mode
    case Single => (Lower, address)
    case Stacked =>
      if And(address, deviceSize) != 0 then (Upper, And(address, Not(deviceSize))) else (Lower, address)
    case Parallel => (Both, address / 2)
  }

  /** The two translations agree on every address of the flash. */
  lemma TranslationsAgree(f: Flash, address: nat)
    requires f.Valid() && address < f.Size()
    ensures RealAddr(f.mode, |f.lower|, address) == Translate(f, address)
  {
    hide And;
    if f.mode == Stacked {
      Powers();
      var k :| 23 <= k <= 28 && |f.lower| == Pow2(k);
      hide Pow2;
      HalfBit(address, k);
    }
  }

  /** An address past the end leads back to the beginning, once the chip has wrapped its
      offset. */
  lemma AddressWraps(f: Flash, address: nat)
    requires f.Valid() && f.Size() <= address < 2 * f.Size()
    ensures var (cs, off) := RealAddr(f.mode, |f.lower|, address);
            (cs, off % |f.lower|) == Translate(f, address - f.Size())
  {
    hide And;
    hide Pow2;
    var d := |f.lower|;
    if f.mode == Stacked {
      StackedWraps(f, address);
    } else if f.mode == Single {
      DivUnique(address, d, 1, address - d);
    } else {
      DivUnique(address / 2, d, 1, address / 2 - d);
    }
  }

  lemma StackedWraps(f: Flash, address: nat)
    requires f.Valid() && f.mode == Stacked && f.Size() <= address < 2 * f.Size()
    ensures var (cs, off) := RealAddr(f.mode, |f.lower|, address);
            (cs, off % |f.lower|) == Translate(f, address - f.Size())
  {
    hide And;
    hide Pow2;
    var d := |f.lower|;
    var k := SizeBit(d);
    ThirdQuarter(address, k, d);
    WrappedOffset(address, d);
  }

  lemma SizeBit(d: nat) returns (k: nat)
    requires ChipSize(d)
    ensures k <= 28 && d == Pow2(k)
  {
    Powers();
    k :| 23 <= k <= 28 && d == Pow2(k);
  }

  lemma WrappedOffset(a: nat, d: nat)
    requires d > 0 && 2 * d <= a < 4 * d
    ensures a >= 3 * d ==> (a - d) % d == a - 3 * d
    ensures a < 3 * d ==> a % d == a - 2 * d
  {
    if a >= 3 * d {
      DivUnique(a - d, d, 2, a - 3 * d);
    } else {
      DivUnique(a, d, 2, a - 2 * d);
    }
  }

  /** Between twice and four times a power of two its bit tells the upper half. */
  lemma ThirdQuarter(a: nat, k: nat, d: nat)
    requires k <= 28 && d == Pow2(k) && 2 * d <= a < 4 * d
    ensures d < U32 && And(a, d) == (if a >= 3 * d then d else 0)
    ensures And(a, Not(d)) == if a >= 3 * d then a - d else a
  {
    hide And;
    hide Shr;
    hide Low;
    hide Pow2;
    WordSize();
    Pow2Monotone(k + 2, 32);
    Pow2Step(k + 2);
    Pow2Step(k + 1);
    AndBit(a, k);
    ShiftDivides(a, k);
    DivUnique(a, d, if a >= 3 * d then 3 else 2, if a >= 3 * d then a - 3 * d else a - 2 * d);
    AndComplement(a, d, 32);
  }

  // ---------------------------------------------------------------- erasing

  function EraseSector(f: Flash, row: Row, address: nat): (g: Flash)
    requires Describes(row, f)
    ensures Describes(row, g) && g.mode == f.mode
  {
    var (cs, off) := RealAddr(f.mode, row.deviceSize, address);
    Erase(f, cs, off, row.sectSize)
  }

  /** Byte `off` of one chip after an erase. */
  lemma ChipErased(f: Flash, cs: Select, o: nat, sectSize: nat, u: bool, off: nat)
    requires f.Valid() && (cs == Lower || f.mode != Single) && sectSize > 1 && off < |f.Chip(u)|
    ensures var s := if cs == Both then sectSize / 2 else sectSize;
            Erase(f, cs, o, sectSize).Chip(u)[off] ==
            if (cs == Both || (cs == Upper) == u) && off / s == o % |f.lower| / s then ERASED else f.Chip(u)[off]
  {
  }

  /** Erasing at any address sets exactly the sector of the whole flash that holds it; just
      past the end that is the first sector. */
  lemma SectorErased(f: Flash, row: Row, address: nat, x: nat)
    requires Describes(row, f) && address < 2 * f.Size() && x < f.Size()
    ensures var a := if address < f.Size() then address else address - f.Size();
            EraseSector(f, row, address).Flat(x) == if x / row.sectSize == a / row.sectSize then ERASED else f.Flat(x)
  {
    hide And;
    hide EraseChip;
    var a := if address < f.Size() then address else address - f.Size();
    if address < f.Size() {
      TranslationsAgree(f, address);
    } else {
      AddressWraps(f, address);
    }
    var (cs, o) := RealAddr(f.mode, row.deviceSize, address);
    var (u, off) := f.Home(x);
    ChipErased(f, cs, o, row.sectSize, u, off);
    SameSector(f, row, a, x);
    assert o % |f.lower| == Translate(f, a).1 by {
      if address < f.Size() {
        DivUnique(o, |f.lower|, 0, o);
      }
    }
  }

  /** Two addresses share a sector of the flash exactly when their homes share one of a chip. */
  lemma SameSector(f: Flash, row: Row, a: nat, x: nat)
    requires Describes(row, f) && a < f.Size() && x < f.Size()
    ensures var (cs, o) := Translate(f, a);
            var (u, off) := f.Home(x);
            var s := if cs == Both then row.sectSize / 2 else row.sectSize;
            o < |f.lower| && (x / row.sectSize == a / row.sectSize <==>
                (cs == Both || (cs == Upper) == u) && off / s == o / s)
  {
    if f.mode == Stacked {
      assert row.deviceSize / row.sectSize * row.sectSize == row.deviceSize;
      SectorOnChip(row.sectSize, row.deviceSize, a, x);
    } else if f.mode == Parallel {
      SectorHalves(row.sectSize, a);
      SectorHalves(row.sectSize, x);
    }
  }

  lemma SectorHalves(sect: nat, a: nat)
    requires sect > 0 && sect % 2 == 0
    ensures a / 2 / (sect / 2) == a / sect
  {
    DivHalf(a, sect / 2);
  }

  lemma SectorOnChip(sect: nat, size: nat, a: nat, x: nat)
    requires sect > 0 && size / sect * sect == size
    ensures a >= size && x >= size ==> ((a - size) / sect == (x - size) / sect <==> a / sect == x / sect)
    ensures a >= size > x ==> a / sect > x / sect
    ensures x >= size > a ==> x / sect > a / sect
  {
    DivShift(a, size / sect, sect);
    DivShift(x, size / sect, sect);
  }

  lemma DivShift(a: nat, c: nat, m: nat)
    requires m > 0
    ensures a >= c * m ==> (a - c * m) / m == a / m - c && a / m >= c
    ensures a < c * m ==> a / m < c
  {
    var q := a / m;
    assert a == q * m + a % m;
    assert (q - c) * m == q * m - c * m;
    SignedMultiple(q - c, m);
    if a >= c * m {
      DivUnique(a - c * m, m, q - c, a % m);
    }
  }

  /** Sector number i of an erase that starts at `address`. */
  function SectorAddr(address: nat, sect: nat, i: nat): nat {
    address + sect * i
  }

  function EraseSectors(f: Flash, row: Row, address: nat, n: nat): (g: Flash)
    requires Describes(row, f)
    ensures Describes(row, g) && g.mode == f.mode
  {
    if n == 0 then f
    else EraseSector(EraseSectors(f, row, address, n - 1), row, SectorAddr(address, row.sectSize, n - 1))
  }

  /** How many sectors the flash has. */
  function Sectors(f: Flash, row: Row): nat
    requires row.sectSize > 0
  {
    f.Size() / row.sectSize
  }

  lemma WholeSectors(f: Flash, row: Row)
    requires Describes(row, f)
    ensures row.sectSize > 0 && f.Size() == Sectors(f, row) * row.sectSize && Sectors(f, row) > 1
  {
    SectorPower(row.deviceSize, row.sectSize);
    if f.mode != Single {
      Double(row.deviceSize / row.sectSize, row.sectSize);
      DivUnique(f.Size(), row.sectSize, 2 * (row.deviceSize / row.sectSize), 0);
    }
  }

  lemma SectorPower(size: nat, sect: nat)
    requires size in {0x1000000, 0x2000000, 0x4000000, 0x8000000} && sect in {0x10000, 0x20000, 0x40000, 0x80000}
    ensures size == size / sect * sect && size / sect > 1
  {
    if sect == 0x10000 {
      assert size / 0x10000 > 1 && size % 0x10000 == 0;
    } else if sect == 0x20000 {
      assert size / 0x20000 > 1 && size % 0x20000 == 0;
    } else if sect == 0x40000 {
      assert size / 0x40000 > 1 && size % 0x40000 == 0;
    } else {
      assert size / 0x80000 > 1 && size % 0x80000 == 0;
    }
  }

  lemma SectorNumber(address: nat, sect: nat, n: nat)
    requires sect > 0
    ensures SectorAddr(address, sect, n) / sect == address / sect + n
  {
    assert address == address / sect * sect + address % sect;
    assert (address / sect + n) * sect == address / sect * sect + sect * n;
    DivUnique(SectorAddr(address, sect, n), sect, address / sect + n, address % sect);
  }

  /** The visited sectors run from that of the first byte on; a last one beyond the end of
      the flash is its first. */
  predicate Visited(f: Flash, row: Row, address: nat, n: nat, x: nat)
    requires row.sectSize > 0
  {
    || address / row.sectSize <= x / row.sectSize < address / row.sectSize + n
    || (address / row.sectSize + n == Sectors(f, row) + 1 && n > 0 && x / row.sectSize == 0)
  }

  lemma {:induction false} SectorsErased(f: Flash, row: Row, address: nat, n: nat, x: nat)
    requires Describes(row, f) && x < f.Size() && address / row.sectSize + n <= Sectors(f, row) + 1
    ensures EraseSectors(f, row, address, n).Flat(x) == if Visited(f, row, address, n, x) then ERASED else f.Flat(x)
    decreases n
  {
    if n > 0 {
      hide EraseSector;
      hide Flash.Flat;
      hide Flash.Home;
      hide Visited;
      SectorsErased(f, row, address, n - 1, x);
      VisitedMore(f, row, address, n, x);
      SectorErased(EraseSectors(f, row, address, n - 1), row, SectorAddr(address, row.sectSize, n - 1), x);
    } else {
      assert !Visited(f, row, address, 0, x);
    }
  }

  lemma VisitedMore(f: Flash, row: Row, address: nat, n: nat, x: nat)
    requires Describes(row, f) && x < f.Size() && n > 0 && address / row.sectSize + n <= Sectors(f, row) + 1
    ensures var last := SectorAddr(address, row.sectSize, n - 1);
            var a := if last < f.Size() then last else last - f.Size();
            && last < 2 * f.Size()
            && (Visited(f, row, address, n, x) <==>
                Visited(f, row, address, n - 1, x) || x / row.sectSize == a / row.sectSize)
  {
    LastSector(f, row, address, n);
    SectorInside(f, row, x);
    hide Describes;
    hide Flash.Size;
    hide Sectors;
    hide SectorAddr;
  }

  lemma SectorInside(f: Flash, row: Row, x: nat)
    requires Describes(row, f) && x < f.Size()
    ensures x / row.sectSize < Sectors(f, row)
  {
    WholeSectors(f, row);
    DivMonotone(x, f.Size() - 1, row.sectSize);
    DivPrevious(f.Size(), row.sectSize);
    DivUnique(f.Size(), row.sectSize, Sectors(f, row), 0);
  }

  /** Where the last of n sectors lies. */
  lemma LastSector(f: Flash, row: Row, address: nat, n: nat)
    requires Describes(row, f) && n > 0 && address / row.sectSize + n <= Sectors(f, row) + 1
    ensures var last, number := SectorAddr(address, row.sectSize, n - 1), address / row.sectSize + n - 1;
            && last < 2 * f.Size()
            && (last < f.Size() <==> number < Sectors(f, row))
            && (if last < f.Size() then last / row.sectSize == number else (last - f.Size()) / row.sectSize == 0)
  {
    hide SectorAddr;
    hide Sectors;
    hide Describes;
    WholeSectors(f, row);
    SectorNumber(address, row.sectSize, n - 1);
    NumberedSector(SectorAddr(address, row.sectSize, n - 1), Sectors(f, row), row.sectSize);
  }

  /** Where an address lies, by the number of its sector, in a flash of `n` sectors. */
  lemma NumberedSector(a: nat, n: nat, sect: nat)
    requires sect > 0 && a / sect <= n && n > 1
    ensures a < 2 * (n * sect) && (a < n * sect <==> a / sect < n)
    ensures a >= n * sect ==> (a - n * sect) / sect == 0
  {
    Parts(a, sect);
    PageOffset(a / sect, n, sect);
    OneLessTimes(n, sect);
    SignedMultiple(n - 1, sect);
    if a >= n * sect {
      DivUnique(a - n * sect, sect, 0, a - n * sect);
    }
  }

  /** A whole FlashErase of a range on the flash: the sectors it touches, the one behind it if
      it ends on a sector boundary, and the first sector if it ends with the flash. */
  lemma FlashErased(f: Flash, row: Row, address: nat, byteCount: nat, x: nat)
    requires Describes(row, f) && address + byteCount <= f.Size() && x < f.Size()
    ensures EraseSectors(f, row, address, SectorCount(row, address, byteCount)).Flat(x) ==
            if || address / row.sectSize <= x / row.sectSize <= (address + byteCount) / row.sectSize
               || (address + byteCount == f.Size() && x / row.sectSize == 0)
            then ERASED else f.Flat(x)
  {
    hide SectorCount;
    hide EraseSectors;
    hide Visited;
    hide Flash.Flat;
    EraseCount(f, row, address, byteCount);
    SectorsErased(f, row, address, SectorCount(row, address, byteCount), x);
    VisitedByErase(f, row, address, byteCount, x);
  }

  /** The count runs to the sector of the byte after the range, or one past the end. */
  lemma EraseCount(f: Flash, row: Row, address: nat, byteCount: nat)
    requires Describes(row, f) && address + byteCount <= f.Size()
    ensures var n, after := SectorCount(row, address, byteCount), (address + byteCount) / row.sectSize;
            && n > 0 && address / row.sectSize + n == after + 1 && after <= Sectors(f, row)
            && (after == Sectors(f, row) <==> address + byteCount == f.Size())
  {
    hide SectorCount;
    hide And;
    Powers();
    var k :| 16 <= k <= 19 && row.sectSize == Pow2(k);
    hide Pow2;
    SectorCountExact(row, k, address, byteCount);
    DivMonotone(address, address + byteCount, row.sectSize);
    WholeSectors(f, row);
    LastSectorNumber(address + byteCount, Sectors(f, row), row.sectSize);
  }

  lemma LastSectorNumber(end: nat, n: nat, sect: nat)
    requires sect > 0 && end <= n * sect
    ensures end / sect <= n && (end / sect == n <==> end == n * sect)
  {
    DivMonotone(end, n * sect, sect);
    DivUnique(n * sect, sect, n, 0);
    Parts(end, sect);
  }

  lemma VisitedByErase(f: Flash, row: Row, address: nat, byteCount: nat, x: nat)
    requires Describes(row, f) && address + byteCount <= f.Size() && x < f.Size()
    ensures Visited(f, row, address, SectorCount(row, address, byteCount), x) <==>
              || address / row.sectSize <= x / row.sectSize <= (address + byteCount) / row.sectSize
              || (address + byteCount == f.Size() && x / row.sectSize == 0)
  {
    hide SectorCount;
    hide Describes;
    hide Sectors;
    EraseCount(f, row, address, byteCount);
  }

  /** How many sectors FlashErase visits, in 32-bit arithmetic. */
  function SectorCount(row: Row, address: nat, byteCount: nat): nat
    requires row.sectSize > 0
  {
    var n := byteCount / row.sectSize + 1;
    var sectors: nat := Times(n, row.sectSize);
    if And((address + byteCount) % U32, row.sectMask) == And((address + sectors) % U32, row.sectMask)
    then n + 1 else n
  }

  function Times(a: nat, b: nat): (c: nat)
    ensures c == a * b
  {
    a * b
  }

  /** Sectors of 2^k bytes, and their mask. */
  predicate PowerSectors(row: Row, k: nat) {
    k < 32 && row.sectSize == Pow2(k) && row.sectMask == U32 - row.sectSize
  }

  /** The sectors visited run from that of the first byte to that of the byte after the last. */
  lemma SectorCountExact(row: Row, k: nat, address: nat, byteCount: nat)
    requires PowerSectors(row, k) && address + byteCount < U32
    ensures address / row.sectSize + SectorCount(row, address, byteCount) == (address + byteCount) / row.sectSize + 1
  {
    hide And;
    hide Pow2;
    hide SectorCount;
    var sect := row.sectSize;
    var p: nat, r: nat, q: nat, t: nat := address / sect, address % sect, byteCount / sect, byteCount % sect;
    AddressParts(address, byteCount, sect);
    CountTest(k, sect, p, r, q, t, address + byteCount, address + (q + 1) * sect);
    CountOf(row, address, byteCount, q, address + byteCount, address + (q + 1) * sect);
  }

  lemma AddressParts(address: nat, byteCount: nat, sect: nat)
    requires sect > 0
    ensures var p, r, q, t := address / sect, address % sect, byteCount / sect, byteCount % sect;
            && p >= 0 && q >= 0 && r < sect && t < sect
            && address + byteCount == p * sect + r + (q * sect + t)
            && address + (q + 1) * sect == p * sect + r + (q + 1) * sect
  {
    Parts(address, sect);
    Parts(byteCount, sect);
  }

  /** The count, by the two addresses it compares. */
  lemma CountOf(row: Row, address: nat, byteCount: nat, q: nat, end: nat, next: nat)
    requires row.sectSize > 0 && q == byteCount / row.sectSize
    requires end == address + byteCount && next == address + (q + 1) * row.sectSize
    ensures SectorCount(row, address, byteCount) ==
            if And(end % U32, row.sectMask) == And(next % U32, row.sectMask) then q + 2 else q + 1
  {
    hide And;
  }

  lemma Parts(a: nat, m: nat)
    requires m > 0
    ensures a / m >= 0 && a == a / m * m + a % m && a % m < m
  {
  }

  /** The sector of the byte after the range, by the carry of the two remainders. */
  function EndSector(sect: nat, p: nat, r: nat, q: nat, t: nat): nat {
    p + q + if r + t >= sect then 1 else 0
  }

  /** The test of FlashErase, when the range starts at byte r of sector p and is q sectors and
      t bytes long. */
  lemma CountTest(k: nat, sect: nat, p: nat, r: nat, q: nat, t: nat, end: nat, next: nat)
    requires k < 32 && sect == Pow2(k) && r < sect && t < sect
    requires end == p * sect + r + (q * sect + t) < U32 && next == p * sect + r + (q + 1) * sect
    ensures sect < U32
    ensures var e := EndSector(sect, p, r, q, t);
            && end / sect == e
            && (And(end % U32, U32 - sect) == And(next % U32, U32 - sect) <==> e == p + q + 1)
  {
    hide And;
    hide Pow2;
    Ends(sect, p, r, q, t);
    var rest: nat := if r + t >= sect then r + t - sect else r + t;
    CountByParts(k, sect, end, next, EndSector(sect, p, r, q, t), p + q + 1, rest, r);
  }

  /** The test, when the range ends in sector e and the next sector to visit is m. */
  lemma CountByParts(k: nat, sect: nat, end: nat, next: nat, e: nat, m: nat, rest: nat, r: nat)
    requires k < 32 && sect == Pow2(k) && rest < sect && r < sect
    requires end == e * sect + rest < U32 && next == m * sect + r && m > 0 && (e == m || e == m - 1)
    ensures sect < U32 && end / sect == e
    ensures And(end % U32, U32 - sect) == And(next % U32, U32 - sect) <==> e == m
  {
    hide And;
    hide Pow2;
    WordMultiple(k, sect);
    DivUnique(end, sect, e, rest);
    AlignParts(end, k, sect, e, rest);
    OneLessTimes(m, sect);
    assert end % U32 == end;
    if next < U32 {
      assert next % U32 == next;
      AlignParts(next, k, sect, m, r);
    } else {
      NextWraps(k, sect, next, m, r);
    }
  }

  /** The products behind the test. */
  lemma Ends(sect: nat, p: nat, r: nat, q: nat, t: nat)
    requires r < sect && t < sect
    ensures var end, e, m := p * sect + r + (q * sect + t), EndSector(sect, p, r, q, t), p + q + 1;
            && end == e * sect + (if r + t >= sect then r + t - sect else r + t)
            && m * sect + r == p * sect + r + (q + 1) * sect
  {
    Distribute(p, q, sect);
    Distribute(q, 0, sect);
  }

  /** Past the end of the address space the next sector is the first. */
  lemma NextWraps(k: nat, sect: nat, next: nat, m: nat, r: nat)
    requires k < 32 && sect == Pow2(k) && r < sect && m > 0 && (m - 1) * sect < U32 <= next == m * sect + r
    ensures m * sect == U32 && sect < U32 && And(next % U32, U32 - sect) == 0
  {
    hide And;
    hide Pow2;
    WordMultiple(k, sect);
    OnlyMultiple(m, Pow2(32 - k), sect, r);
    assert next % U32 == r;
    AlignParts(r, k, sect, 0, r);
  }

  lemma OnlyMultiple(m: nat, t: nat, sect: nat, r: nat)
    requires r < sect && m > 0 && (m - 1) * sect < t * sect <= m * sect + r
    ensures m == t
  {
    assert (m - t) * sect == m * sect - t * sect && (m - 1 - t) * sect == (m - 1) * sect - t * sect;
    SignedMultiple(m - t, sect);
    SignedMultiple(m - 1 - t, sect);
  }

  lemma Distribute(p: nat, q: nat, m: nat)
    ensures (p + q) * m == p * m + q * m && (p + q + 1) * m == p * m + q * m + m
  {
  }

  /** FlashErase covers every byte it is asked to erase, and visits one sector too many exactly
      when the range ends on a sector boundary. */
  lemma EraseCovers(row: Row, k: nat, address: nat, byteCount: nat, x: nat)
    requires PowerSectors(row, k) && address <= x < address + byteCount < U32
    ensures var n, first := SectorCount(row, address, byteCount), address / row.sectSize;
            var needed := (address + byteCount - 1) / row.sectSize - first + 1;
            && first <= x / row.sectSize < first + n
            && n == needed + (if (address + byteCount) % row.sectSize == 0 then 1 else 0)
  {
    hide SectorCount;
    hide Pow2;
    SectorCountExact(row, k, address, byteCount);
    DivMonotone(address, x, row.sectSize);
    DivMonotone(x, address + byteCount, row.sectSize);
    DivPrevious(address + byteCount, row.sectSize);
  }

  // ---------------------------------------------------------------- writing

  function WritePage(f: Flash, row: Row, address: nat, data: seq<Byte>): (g: Flash)
    requires Describes(row, f) && address < f.Size() && |data| <= row.pageSize
    ensures Describes(row, g) && g.mode == f.mode
  {
    TranslationsAgree(f, address);
    var (cs, off) := RealAddr(f.mode, row.deviceSize, address);
    Program(f, cs, off, data, row.pageSize)
  }

  lemma PageIndex(o: nat, j: nat, page: nat)
    requires page > 0 && o % page == 0
    ensures j / page == o / page <==> o <= j < o + page
    ensures o <= j < o + page ==> (j + page) % page == j - o
  {
    var p, q := o / page, j / page;
    Parts(o, page);
    Parts(j, page);
    PageOffset(p, q, page);
    Distribute(q, 0, page);
    DivUnique(j + page, page, q + 1, j % page);
  }

  lemma PageOffset(p: nat, q: nat, page: nat)
    ensures p < q ==> p * page + page <= q * page
    ensures q < p ==> q * page + page <= p * page
  {
    SignedMultiple(q - p, page);
    assert (q - p) * page == q * page - p * page;
  }

  /** An aligned page: the data goes to consecutive bytes. */
  lemma PageByte(chip: seq<Byte>, o: nat, data: seq<Byte>, page: nat, j: nat)
    requires |data| <= page && page > 0 && o % page == 0 && o < |chip| && j < |chip|
    ensures ProgramChip(chip, o, data, page)[j] == if o <= j < o + |data| then Burn(chip[j], data[j - o]) else chip[j]
  {
    PageIndex(o, j, page);
    DivUnique(o, |chip|, 0, o);
  }

  /** Byte `off` of one chip after a page program. */
  lemma ChipProgrammed(f: Flash, cs: Select, o: nat, data: seq<Byte>, pageSize: nat, u: bool, off: nat)
    requires f.Valid() && (cs == Lower || f.mode != Single) && |data| <= pageSize && pageSize % 2 == 0 && pageSize > 0
    requires off < |f.Chip(u)| && o < |f.lower| && o % (if cs == Both then pageSize / 2 else pageSize) == 0
    ensures var d := if cs == Both then Stripe(data, u) else data;
            Program(f, cs, o, data, pageSize).Chip(u)[off] ==
            if (cs == Both || (cs == Upper) == u) && o <= off < o + |d| then Burn(f.Chip(u)[off], d[off - o])
            else f.Chip(u)[off]
  {
    var d, page := if cs == Both then Stripe(data, u) else data, if cs == Both then pageSize / 2 else pageSize;
    if cs == Both || (cs == Upper) == u {
      PageByte(f.Chip(u), o, d, page, off);
    }
  }

  lemma AlignedRoom(a: nat, size: nat, page: nat)
    requires page > 0 && a % page == 0 && size % page == 0
    ensures a < size ==> a + page <= size
    ensures a >= size ==> (a - size) % page == 0
  {
    Parts(a, page);
    Parts(size, page);
    WholePagesApart(a, size, a / page, size / page, page);
  }

  lemma WholePagesApart(a: nat, size: nat, p: nat, q: nat, page: nat)
    requires page > 0 && a == p * page && size == q * page
    ensures a < size ==> a + page <= size
    ensures a >= size ==> (a - size) % page == 0
  {
    PageOffset(p, q, page);
    if a >= size {
      PageDifference(p, q, page);
      DivUnique(a - size, page, p - q, 0);
    }
  }

  lemma PageDifference(p: nat, q: nat, page: nat)
    requires page > 0 && p * page >= q * page
    ensures p >= q && (p - q) * page == p * page - q * page
  {
    SignedMultiple(p - q, page);
    assert (p - q) * page == p * page - q * page;
  }

  lemma AlignedHalf(a: nat, page: nat)
    requires page > 0 && page % 2 == 0 && a % page == 0
    ensures a / 2 % (page / 2) == 0
  {
    var h := page / 2;
    Parts(a, page);
    Double(a / page, h);
    DivUnique(a / 2, h, a / page, 0);
  }

  /** A page of the flash is a page on its chip, or half a page on each of two. */
  lemma PageHome(f: Flash, row: Row, address: nat)
    requires Describes(row, f) && address < f.Size() && address % row.pageSize == 0
    ensures var (cs, o) := Translate(f, address);
            && o % (if cs == Both then row.pageSize / 2 else row.pageSize) == 0
            && o + (if cs == Both then row.pageSize / 2 else row.pageSize) <= |f.lower|
  {
    WholePages(row.deviceSize, row.pageSize);
    AlignedRoom(address, row.deviceSize, row.pageSize);
    if f.mode == Stacked {
      if address >= row.deviceSize {
        AlignedRoom(address - row.deviceSize, row.deviceSize, row.pageSize);
      }
    } else if f.mode == Parallel {
      AlignedHalf(address, row.pageSize);
      AlignedRoom(address / 2, row.deviceSize, row.pageSize / 2);
    }
  }

  lemma WholePages(size: nat, page: nat)
    requires size in {0x1000000, 0x2000000, 0x4000000, 0x8000000} && page in {256, 512, 1024}
    ensures size % page == 0 && size % (page / 2) == 0
  {
    if page == 256 {
      assert size % 256 == 0 && size % 128 == 0;
    } else if page == 512 {
      assert size % 512 == 0 && size % 256 == 0;
    } else {
      assert size % 1024 == 0 && size % 512 == 0;
    }
  }

  lemma EvenPage(a: nat, page: nat)
    requires page > 0 && page % 2 == 0 && a % page == 0
    ensures a % 2 == 0
  {
    Parts(a, page);
    Double(a / page, page / 2);
  }

  /** Striped data lands where the flat address says. */
  lemma StripeIndex(data: seq<Byte>, a: nat, x: nat)
    requires a % 2 == 0
    ensures var s := Stripe(data, x % 2 == 1);
            && (a / 2 <= x / 2 < a / 2 + |s| <==> a <= x < a + |data|)
            && (a <= x < a + |data| ==> s[x / 2 - a / 2] == data[x - a])
  {
  }

  /** Which byte of the data, if any, meets address x on its chip. */
  lemma ByteHome(f: Flash, page: nat, a: nat, data: seq<Byte>, x: nat)
    requires f.Valid() && a < f.Size() && x < f.Size() && |data| <= page && (f.mode == Parallel ==> a % 2 == 0)
    requires var (cs, o) := Translate(f, a); o + (if cs == Both then page / 2 else page) <= |f.lower|
    ensures var (cs, o) := Translate(f, a);
            var (u, off) := f.Home(x);
            var d := if cs == Both then Stripe(data, u) else data;
            && ((cs == Both || (cs == Upper) == u) && o <= off < o + |d| <==> a <= x < a + |data|)
            && (a <= x < a + |data| ==> d[off - o] == data[x - a])
  {
    if f.mode == Parallel {
      StripeIndex(data, a, x);
    }
  }

  /** A page-aligned write clears exactly the bits it is meant to, and nowhere else. */
  lemma PageWritten(f: Flash, row: Row, address: nat, data: seq<Byte>, x: nat)
    requires Describes(row, f) && address < f.Size() && x < f.Size()
    requires address % row.pageSize == 0 && |data| <= row.pageSize
    ensures WritePage(f, row, address, data).Flat(x) ==
            if address <= x < address + |data| then Burn(f.Flat(x), data[x - address]) else f.Flat(x)
  {
    hide Burn;
    hide Program;
    hide Stripe;
    hide And;
    TranslationsAgree(f, address);
    PageHome(f, row, address);
    EvenPage(address, row.pageSize);
    ByteHome(f, row.pageSize, address, data, x);
    var (cs, o) := Translate(f, address);
    var (u, off) := f.Home(x);
    ChipProgrammed(f, cs, o, data, row.pageSize, u, off);
    var g := Program(f, cs, o, data, row.pageSize);
    assert WritePage(f, row, address, data) == g;
    assert g.Home(x) == (u, off);
    assert g.Flat(x) == g.Chip(u)[off] && f.Flat(x) == f.Chip(u)[off];
  }

  // ---------------------------------------------------------------- the test, in place

  /** The pattern byte at offset `c`, counted in one byte. */
  function Pattern(c: nat): Byte {
    PatternValue(c) as Byte
  }

  function PatternValue(c: nat): (v: nat)
    ensures v < 0x100 && (7 + c - v) % 0x100 == 0
  {
    (UNIQUE_VALUE + c + TEST) % 0x100
  }

  function PatternPage(n: nat): (s: seq<Byte>)
    ensures |s| == n && forall c :: 0 <= c < n ==> s[c] == Pattern(c)
  {
    seq(n, c requires 0 <= c < n => Pattern(c))
  }

  /** The flash is described by the row and has room for the sector at the test address. */
  predicate Reaches(row: Row, f: Flash) {
    Describes(row, f) && RowTotals(row, f.mode) && TEST_ADDRESS + row.sectSize <= f.Size()
  }

  function MaxData(row: Row): nat {
    PAGE_COUNT * row.pageSize
  }

  /** What the flash holds at x after the erase and `k` pages. */
  function Expected(before: Flash, row: Row, k: nat, x: nat): Byte
    requires Describes(row, before) && x < before.Size()
  {
    if TEST_ADDRESS <= x < TEST_ADDRESS + k * row.pageSize then Pattern((x - TEST_ADDRESS) % row.pageSize)
    else if TEST_ADDRESS <= x < TEST_ADDRESS + row.sectSize then ERASED
    else before.Flat(x)
  }

  ghost predicate Holds(f: Flash, before: Flash, row: Row, k: nat) {
    && Describes(row, before) && Describes(row, f) && f.mode == before.mode
    && forall x: nat :: x < f.Size() ==> f.Flat(x) == Expected(before, row, k, x)
  }

  /** The test erases one sector, which has room for all of its pages. */
  lemma TestErase(f: Flash, row: Row)
    requires Reaches(row, f)
    ensures SectorCount(row, TEST_ADDRESS, MaxData(row)) == 1
    ensures MaxData(row) != row.numSect * row.sectSize && MaxData(row) <= row.sectSize
    ensures Holds(EraseSectors(f, row, TEST_ADDRESS, 1), f, row, 0)
  {
    hide And;
    hide EraseSector;
    hide SectorCount;
    OneSector(row);
    var g := EraseSectors(f, row, TEST_ADDRESS, 1);
    assert EraseSectors(f, row, TEST_ADDRESS, 0) == f && SectorAddr(TEST_ADDRESS, row.sectSize, 0) == TEST_ADDRESS;
    forall x: nat | x < g.Size()
      ensures g.Flat(x) == Expected(f, row, 0, x)
    {
      SectorErased(f, row, TEST_ADDRESS, x);
      SectorOfTest(row.sectSize, x);
    }
  }

  lemma OneSector(row: Row)
    requires RowSound(row)
    ensures SectorCount(row, TEST_ADDRESS, MaxData(row)) == 1 && MaxData(row) < row.sectSize
  {
    Powers();
    var k :| 16 <= k <= 19 && row.sectSize == Pow2(k);
    SectorCountExact(row, k, TEST_ADDRESS, MaxData(row));
    SectorOfTest(row.sectSize, TEST_ADDRESS + MaxData(row));
  }

  lemma SectorOfTest(sect: nat, x: nat)
    requires sect in {0x10000, 0x20000, 0x40000, 0x80000}
    ensures x / sect == TEST_ADDRESS / sect <==> TEST_ADDRESS <= x < TEST_ADDRESS + sect
  {
    if sect == 0x10000 {
      assert x / 0x10000 == 0x200 <==> TEST_ADDRESS <= x < TEST_ADDRESS + 0x10000;
    } else if sect == 0x20000 {
      assert x / 0x20000 == 0x100 <==> TEST_ADDRESS <= x < TEST_ADDRESS + 0x20000;
    } else if sect == 0x40000 {
      assert x / 0x40000 == 0x80 <==> TEST_ADDRESS <= x < TEST_ADDRESS + 0x40000;
    } else {
      assert x / 0x80000 == 0x40 <==> TEST_ADDRESS <= x < TEST_ADDRESS + 0x80000;
    }
  }

  function PageAddress(row: Row, k: nat): nat {
    k * row.pageSize + TEST_ADDRESS
  }

  /** One more page. */
  lemma PageHolds(f: Flash, before: Flash, row: Row, k: nat)
    requires Holds(f, before, row, k) && Reaches(row, before) && k < PAGE_COUNT
    ensures PageAddress(row, k) % row.pageSize == 0 && PageAddress(row, k) + row.pageSize <= f.Size()
    ensures Holds(WritePage(f, row, PageAddress(row, k), PatternPage(row.pageSize)), before, row, k + 1)
  {
    hide Burn;
    hide Pattern;
    hide WritePage;
    hide Expected;
    hide Flash.Flat;
    hide RowSound;
    hide PageAddress;
    PageFits(before, row, k);
    var at := PageAddress(row, k);
    var g := WritePage(f, row, at, PatternPage(row.pageSize));
    forall x: nat | x < g.Size()
      ensures g.Flat(x) == Expected(before, row, k + 1, x)
    {
      PageWritten(f, row, at, PatternPage(row.pageSize), x);
      NextPage(f, before, row, k, x);
    }
  }

  lemma PageFits(f: Flash, row: Row, k: nat)
    requires Reaches(row, f) && k < PAGE_COUNT
    ensures PageAddress(row, k) % row.pageSize == 0 && PageAddress(row, k) + row.pageSize <= f.Size()
  {
    hide SectorCount;
    OneSector(row);
    PageAligned(row.pageSize, k);
  }

  lemma NextPage(f: Flash, before: Flash, row: Row, k: nat, x: nat)
    requires Holds(f, before, row, k) && x < f.Size() && k < PAGE_COUNT
    ensures var at := PageAddress(row, k);
            Expected(before, row, k + 1, x) ==
            if at <= x < at + row.pageSize then Burn(f.Flat(x), Pattern(x - at)) else f.Flat(x)
  {
    hide Burn;
    hide Pattern;
    var at := PageAddress(row, k);
    OneSector(row);
    PageAligned(row.pageSize, k);
    PagePlace(row.pageSize, k, x);
    assert f.Flat(x) == Expected(before, row, k, x);
    if at <= x < at + row.pageSize {
      OnesBurn(Pattern(x - at));
    }
  }

  lemma OnesBurn(b: Byte)
    ensures Burn(ERASED, b) == b
  {
  }

  lemma PageAligned(page: nat, k: nat)
    requires page in {256, 512, 1024} && k < PAGE_COUNT
    ensures (k * page + TEST_ADDRESS) % page == 0 && k * page + page <= PAGE_COUNT * page < 0x10000
  {
    DivUnique(k * page + TEST_ADDRESS, page, k + TEST_ADDRESS / page, 0);
  }

  lemma PagePlace(page: nat, k: nat, x: nat)
    requires page > 0
    ensures (k + 1) * page == k * page + page
    ensures TEST_ADDRESS + k * page <= x < TEST_ADDRESS + k * page + page ==>
              (x - TEST_ADDRESS) % page == x - (k * page + TEST_ADDRESS)
  {
    if TEST_ADDRESS + k * page <= x < TEST_ADDRESS + k * page + page {
      DivUnique(x - TEST_ADDRESS, page, k, x - (k * page + TEST_ADDRESS));
    }
  }

  /** Read back, the pages are one unbroken pattern. */
  lemma ReadsBack(f: Flash, before: Flash, row: Row, c: nat)
    requires Holds(f, before, row, PAGE_COUNT) && Reaches(row, before) && c < MaxData(row)
    ensures Delivered32(f, TEST_ADDRESS, MaxData(row))[c] == Pattern(c)
  {
    OneSector(row);
    WideCopyIsFlat(f, TEST_ADDRESS, MaxData(row));
    WholePattern(before, row, c);
    assert f.Flat(TEST_ADDRESS + c) == Expected(before, row, PAGE_COUNT, TEST_ADDRESS + c);
  }

  lemma WholePattern(before: Flash, row: Row, c: nat)
    requires Describes(row, before) && c < MaxData(row) && TEST_ADDRESS + c < before.Size()
    ensures Expected(before, row, PAGE_COUNT, TEST_ADDRESS + c) == Pattern(c)
  {
    PatternRepeats(c, row.pageSize);
  }

  lemma PatternRepeats(c: nat, page: nat)
    requires page > 0 && page % 0x100 == 0
    ensures PatternValue(c % page) == PatternValue(c)
  {
    Parts(c, page);
    PatternOfParts(c / page, page / 0x100, c % page);
  }

  lemma PatternOfParts(q: nat, j: nat, r: nat)
    ensures PatternValue(q * (0x100 * j) + r) == PatternValue(r)
  {
    PageMultiple(q, j);
    PatternShift(r, q * j);
  }

  lemma PatternShift(r: nat, z: nat)
    ensures PatternValue(r + 0x100 * z) == PatternValue(r)
  {
  }

  lemma PageMultiple(q: nat, j: nat)
    ensures q * (0x100 * j) == 0x100 * (q * j)
  {
  }

  /** Flash_Config_Table: three connection modes for each make and size, one for ISSI. */
  const TABLE: seq<Row> := [
    Row(0x10000, 0x100, 256, 0x10000, 0x1000000, 0xFFFF0000, 1),
    Row(0x10000, 0x200, 256, 0x20000, 0x1000000, 0xFFFF0000, 1),
    Row(0x20000, 0x100, 512, 0x10000, 0x1000000, 0xFFFE0000, 1),
    Row(0x10000, 0x200, 256, 0x20000, 0x2000000, 0xFFFF0000, 1),
    Row(0x10000, 0x400, 256, 0x40000, 0x2000000, 0xFFFF0000, 1),
    Row(0x20000, 0x200, 512, 0x20000, 0x2000000, 0xFFFE0000, 1),
    Row(0x40000, 0x100, 512, 0x20000, 0x4000000, 0xFFFC0000, 1),
    Row(0x40000, 0x200, 512, 0x40000, 0x4000000, 0xFFFC0000, 1),
    Row(0x80000, 0x100, 1024, 0x20000, 0x4000000, 0xFFF80000, 1),
    Row(0x10000, 0x100, 256, 0x10000, 0x1000000, 0xFFFF0000, 1),
    Row(0x10000, 0x200, 256, 0x20000, 0x1000000, 0xFFFF0000, 1),
    Row(0x20000, 0x100, 512, 0x10000, 0x1000000, 0xFFFE0000, 1),
    Row(0x10000, 0x200, 256, 0x20000, 0x2000000, 0xFFFF0000, 1),
    Row(0x10000, 0x400, 256, 0x40000, 0x2000000, 0xFFFF0000, 1),
    Row(0x20000, 0x200, 512, 0x20000, 0x2000000, 0xFFFE0000, 1),
    Row(0x10000, 0x400, 256, 0x40000, 0x4000000, 0xFFFF0000, 2),
    Row(0x10000, 0x800, 256, 0x80000, 0x4000000, 0xFFFF0000, 2),
    Row(0x20000, 0x400, 512, 0x40000, 0x4000000, 0xFFFE0000, 2),
    Row(0x10000, 0x800, 256, 0x80000, 0x8000000, 0xFFFF0000, 4),
    Row(0x10000, 0x1000, 256, 0x100000, 0x8000000, 0xFFFF0000, 4),
    Row(0x20000, 0x800, 512, 0x80000, 0x8000000, 0xFFFE0000, 4),
    Row(0x10000, 0x100, 256, 0x10000, 0x1000000, 0xFFFF0000, 1),
    Row(0x10000, 0x200, 256, 0x20000, 0x1000000, 0xFFFF0000, 1),
    Row(0x20000, 0x100, 512, 0x10000, 0x1000000, 0xFFFE0000, 1),
    Row(0x10000, 0x800, 256, 0x80000, 0x8000000, 0xFFFF0000, 4),
    Row(0x10000, 0x1000, 256, 0x100000, 0x8000000, 0xFFFF0000, 4),
    Row(0x20000, 0x800, 512, 0x80000, 0x8000000, 0xFFFE0000, 4),
    Row(0x10000, 0x200, 256, 0x20000, 0x2000000, 0xFFFF0000, 1)
  ]

  function RowMode(i: nat): Mode {
    if i == 27 || i % 3 == 0 then Single else if i % 3 == 1 then Stacked else Parallel
  }

  /** Every row describes its flash consistently, and has room at the test address exactly when
      the flash is larger than 32 MB. */
  lemma TableSound(i: nat, f: Flash)
    requires i < |TABLE| == 28 && f.Valid() && f.mode == RowMode(i) && |f.lower| == TABLE[i].deviceSize
    ensures Describes(TABLE[i], f) && RowTotals(TABLE[i], f.mode)
    ensures Reaches(TABLE[i], f) <==> f.Size() > TEST_ADDRESS
  {
    RowIsSound(i);
    TotalsAreSound(i);
    hide RowTotals;
    if f.Size() > TEST_ADDRESS {
      assert f.Size() >= 0x4000000;
    }
  }

  lemma RowIsSound(i: nat)
    requires i < |TABLE|
    ensures RowSound(TABLE[i])
  {
  }

  lemma TotalsAreSound(i: nat)
    requires i < |TABLE|
    ensures RowTotals(TABLE[i], RowMode(i))
  {
  }
}
