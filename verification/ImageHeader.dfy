/** Reading the image header: a table, then a chain of partition headers that is followed
    either in flash or in a copy of it in on-chip memory (OCM); and the table of partitions
    handed to the ARM Trusted Firmware (ATF) on the way. */
module ImageHeader {
  import opened Bits
  import opened Common
  import opened Headers

  const HEADER_SIZE: nat := 64
  const WORDS: nat := 16
  const WORD: nat := 4
  const MAX_PARTITIONS: nat := 32
  const MIN_PARTITIONS: nat := 1
  const PPD_SAME: nat := 0
  const PPD_SATA: nat := 0xB
  const ATF_MAX: nat := 8

  datatype Status = Success | SecondaryBoot | DeviceCopyFailed | IhtChecksum | PpdError | NoOfPartitionsError

  // ---------------------------------------------------------------- words and checksums

  /** Word i of a header, least significant byte first. */
  function Word(bytes: seq<Byte>, i: nat): (w: nat)
    requires |bytes| == HEADER_SIZE && i < WORDS
    ensures w < U32
  {
    bytes[4 * i] as nat + 0x100 * bytes[4 * i + 1] as nat + 0x10000 * bytes[4 * i + 2] as nat
        + 0x1000000 * bytes[4 * i + 3] as nat
  }

  function WordsOf(bytes: seq<Byte>): (ws: seq<nat>)
    requires |bytes| == HEADER_SIZE
    ensures |ws| == WORDS && forall i :: 0 <= i < WORDS ==> ws[i] == Word(bytes, i)
  {
    seq(WORDS, i requires 0 <= i < WORDS => Word(bytes, i))
  }

  function Sum(ws: seq<nat>): nat {
    if ws == [] then 0 else Sum(ws[..|ws| - 1]) + ws[|ws| - 1]
  }

  /** The last word is the complement of the 32-bit sum of the others. */
  predicate ChecksumOk(ws: seq<nat>) {
    |ws| >= 2 && ws[|ws| - 1] == U32 - 1 - Sum(ws[..|ws| - 1]) % U32
  }

  /** XFsbl_ValidateChecksum. */
  method ValidateChecksum(ws: seq<nat>) returns (ok: bool)
    requires forall i :: 0 <= i < |ws| ==> ws[i] < U32
    ensures ok <==> ChecksumOk(ws)
  {
    if |ws| < 2 {
      return false;
    }
    var checksum: nat := 0;
    for count := 0 to |ws| - 1
      invariant checksum == Sum(ws[..count]) % U32
    {
      assert ws[..count + 1][..count] == ws[..count];
      checksum := (checksum + ws[count]) % U32;
    }
    checksum := Not(checksum);
    ok := ws[|ws| - 1] == checksum;
  }

  lemma {:induction false} SumChange(a: seq<nat>, b: seq<nat>, k: nat)
    requires |a| == |b| && k < |a| && forall i :: 0 <= i < |a| && i != k ==> a[i] == b[i]
    ensures Sum(b) == Sum(a) - a[k] + b[k] && Sum(a) >= a[k]
    decreases |a|
  {
    var n := |a| - 1;
    if k == n {
      assert a[..n] == b[..n];
    } else {
      SumChange(a[..n], b[..n], k);
    }
  }

  /** The checksum notices every change of a single word, its own included. */
  lemma OneWordIsNoticed(a: seq<nat>, b: seq<nat>, k: nat)
    requires |a| == |b| && k < |a| && a[k] != b[k] && forall i :: 0 <= i < |a| && i != k ==> a[i] == b[i]
    requires forall i :: 0 <= i < |a| ==> a[i] < U32 && b[i] < U32
    ensures !(ChecksumOk(a) && ChecksumOk(b))
  {
    if |a| >= 2 {
      var n := |a| - 1;
      if k < n {
        SumChange(a[..n], b[..n], k);
        SumVisible(Sum(a[..n]), a[k], b[k]);
      } else {
        assert a[..n] == b[..n];
      }
    }
  }

  lemma SumVisible(s: nat, x: nat, y: nat)
    requires x < U32 && y < U32 && x != y && s >= x
    ensures s % U32 != (s - x + y) % U32
  {
  }

  // ---------------------------------------------------------------- the table

  datatype ImageTable = ImageTable(noOfPartitions: nat, firstHeader: nat, acOffset: nat, presentDevice: nat,
                                   checksumOk: bool)

  function ParseTable(bytes: seq<Byte>): ImageTable
    requires |bytes| == HEADER_SIZE
  {
    ImageTable(Word(bytes, 1), Word(bytes, 2), Word(bytes, 4), Word(bytes, 5), ChecksumOk(WordsOf(bytes)))
  }

  function ParseHeader(bytes: seq<Byte>): Header
    requires |bytes| == HEADER_SIZE
  {
    Header(Word(bytes, 0), Word(bytes, 1), Word(bytes, 2), Word(bytes, 3), Word(bytes, 4) + U32 * Word(bytes, 5),
           Word(bytes, 6) + U32 * Word(bytes, 7), Word(bytes, 9) as bv32, ChecksumOk(WordsOf(bytes)))
  }

  /** XFsbl_ValidateImageHeaderTable. */
  function ValidateTable(t: ImageTable): Status {
    if !t.checksumOk then IhtChecksum
    else if t.presentDevice < PPD_SAME && t.presentDevice > PPD_SATA then PpdError
    else if t.presentDevice != PPD_SAME then SecondaryBoot
    else if t.noOfPartitions <= MIN_PARTITIONS || t.noOfPartitions > MAX_PARTITIONS then NoOfPartitionsError
    else Success
  }

  /** The range test on the device can never fail; what it lets pass is a secondary boot. */
  lemma DeviceRangeNeverFails(t: ImageTable)
    ensures ValidateTable(t) != PpdError
    ensures t.checksumOk && t.presentDevice > PPD_SATA ==> ValidateTable(t) == SecondaryBoot
    ensures ValidateTable(t) == Success ==> 1 < t.noOfPartitions <= MAX_PARTITIONS && t.presentDevice == PPD_SAME
  {
  }

  /** Each outcome of the table's validation, and when it comes. */
  lemma TableExactly(t: ImageTable)
    ensures ValidateTable(t) == IhtChecksum <==> !t.checksumOk
    ensures ValidateTable(t) == SecondaryBoot <==> t.checksumOk && t.presentDevice != 0
    ensures ValidateTable(t) == NoOfPartitionsError <==>
              t.checksumOk && t.presentDevice == 0 && !(2 <= t.noOfPartitions <= 32)
    ensures ValidateTable(t) == Success <==>
              t.checksumOk && t.presentDevice == 0 && 2 <= t.noOfPartitions <= 32
  {
  }

  // ---------------------------------------------------------------- the layout in memory

  /** Byte k of a word, the least significant one first. */
  function Digit(w: nat, k: nat): (d: nat)
    ensures d < 0x100
  {
    if k == 0 then w % 0x100 else Digit(w / 0x100, k - 1)
  }

  predicate Spells(bytes: seq<Byte>, i: nat, w: nat)
    requires |bytes| == HEADER_SIZE && i < WORDS
  {
    && bytes[4 * i] as nat == Digit(w, 0) && bytes[4 * i + 1] as nat == Digit(w, 1)
    && bytes[4 * i + 2] as nat == Digit(w, 2) && bytes[4 * i + 3] as nat == Digit(w, 3)
  }

  /** These sixteen words stand in memory. */
  predicate Encodes(bytes: seq<Byte>, ws: seq<nat>) {
    && |bytes| == HEADER_SIZE && |ws| == WORDS
    && forall i :: 0 <= i < WORDS ==> ws[i] < U32 && Spells(bytes, i, ws[i])
  }

  lemma FourDigits(a: nat, b: nat, c: nat, d: nat, w: nat)
    requires a < 0x100 && b < 0x100 && c < 0x100 && d < 0x100 && w < U32
    ensures a == Digit(w, 0) && b == Digit(w, 1) && c == Digit(w, 2) && d == Digit(w, 3) <==>
            a + 0x100 * (b + 0x100 * (c + 0x100 * d)) == w
  {
    var w1 := w / 0x100;
    var w2 := w1 / 0x100;
    DigitNext(w, 0);
    DigitNext(w, 1);
    DigitNext(w1, 0);
    DigitNext(w, 2);
    DigitNext(w1, 1);
    DigitNext(w2, 0);
    LowDigit(a, b + 0x100 * (c + 0x100 * d), w);
    LowDigit(b, c + 0x100 * d, w1);
    LowDigit(c, d, w2);
    assert w2 / 0x100 < 0x100;
    LowDigit(d, 0, w2 / 0x100);
    hide Digit;
  }

  lemma DigitNext(w: nat, k: nat)
    ensures Digit(w, 0) == w % 0x100 && Digit(w, k + 1) == Digit(w / 0x100, k)
  {
  }

  lemma LowDigit(a: nat, q: nat, w: nat)
    requires a < 0x100
    ensures w == a + 0x100 * q <==> a == w % 0x100 && q == w / 0x100
  {
  }

  lemma WordIsSpelled(bytes: seq<Byte>, i: nat, w: nat)
    requires |bytes| == HEADER_SIZE && i < WORDS && w < U32
    ensures Spells(bytes, i, w) <==> Word(bytes, i) == w
  {
    hide Digit;
    FourDigits(bytes[4 * i] as nat, bytes[4 * i + 1] as nat, bytes[4 * i + 2] as nat, bytes[4 * i + 3] as nat, w);
  }

  /** The words read are those that stand in memory. */
  lemma WordsReadBack(bytes: seq<Byte>, ws: seq<nat>)
    requires |bytes| == HEADER_SIZE && |ws| == WORDS && forall i :: 0 <= i < WORDS ==> ws[i] < U32
    ensures Encodes(bytes, ws) <==> WordsOf(bytes) == ws
    ensures Encodes(bytes, ws) ==> forall i :: 0 <= i < WORDS ==> Word(bytes, i) == ws[i]
  {
    hide Word;
    hide Spells;
    forall i: nat | i < WORDS
      ensures Spells(bytes, i, ws[i]) <==> Word(bytes, i) == ws[i]
    {
      WordIsSpelled(bytes, i, ws[i]);
    }
  }

  /** Which word of a partition header is which of its fields. */
  lemma HeaderLayout(bytes: seq<Byte>, ws: seq<nat>)
    requires Encodes(bytes, ws)
    ensures var h := ParseHeader(bytes);
            && h.encWords == ws[0] && h.unencWords == ws[1] && h.totalWords == ws[2] && h.next == ws[3]
            && h.execAddr == ws[4] + 0x1_0000_0000 * ws[5] && h.loadAddr == ws[6] + 0x1_0000_0000 * ws[7]
            && h.attr == ws[9] as bv32 && (h.checksumOk <==> ChecksumOk(ws))
  {
    hide Word;
    hide Spells;
    hide ChecksumOk;
    WordsReadBack(bytes, ws);
  }

  /** And of the image header table. */
  lemma TableLayout(bytes: seq<Byte>, ws: seq<nat>)
    requires Encodes(bytes, ws)
    ensures var t := ParseTable(bytes);
            && t.noOfPartitions == ws[1] && t.firstHeader == ws[2] && t.acOffset == ws[4]
            && t.presentDevice == ws[5] && (t.checksumOk <==> ChecksumOk(ws))
  {
    hide Word;
    hide Spells;
    hide ChecksumOk;
    WordsReadBack(bytes, ws);
  }

  // ---------------------------------------------------------------- the chain

  /** 64 bytes at a header's address, if they can be read. */
  type Fetch = nat -> Option<seq<Byte>>

  function Get(fetch: Fetch, a: nat): (r: Option<seq<Byte>>)
    ensures r.Some? ==> |r.value| == HEADER_SIZE
  {
    var r := fetch(a);
    if r.Some? && |r.value| == HEADER_SIZE then r else None
  }

  function NextAddress(h: Header): nat {
    (h.next * WORD) % U32
  }

  /** The headers of `n` partitions from address `a` on, up to the first that cannot be read. */
  function Chain(fetch: Fetch, a: nat, n: nat): (hs: seq<Header>)
    ensures |hs| <= n
    decreases n
  {
    if n == 0 || Get(fetch, a).None? then []
    else
      var h := ParseHeader(Get(fetch, a).value);
      [h] + Chain(fetch, NextAddress(h), n - 1)
  }

  /** All of the chain lies between `lo` and `hi`. */
  predicate ChainWithin(fetch: Fetch, a: nat, n: nat, lo: nat, hi: nat)
    decreases n
  {
    n > 0 ==>
      && lo <= a && a + HEADER_SIZE <= hi
      && (Get(fetch, a).Some? ==> ChainWithin(fetch, NextAddress(ParseHeader(Get(fetch, a).value)), n - 1, lo, hi))
  }

  function Bytes(mem: Memory, a: nat): (s: seq<Byte>)
    ensures |s| == HEADER_SIZE
  {
    seq(HEADER_SIZE, i requires 0 <= i < HEADER_SIZE => mem(a + i))
  }

  /** Reading each header from flash, the image starting at `base`. */
  function FromFlash(flash: Memory, base: nat): Fetch {
    (a: nat) => Some(Bytes(flash, (base + a) % U32))
  }

  /** Reading from the OCM copy, which starts with the table at `tableOffset` of the image. */
  function FromOcm(ocm: Memory, tableOffset: nat): Fetch {
    (a: nat) => Some(Bytes(ocm, (a - tableOffset) % U32))
  }

  /** The copy the authentication works on: `size` bytes from the table on. */
  ghost predicate CopiedFrom(ocm: Memory, flash: Memory, base: nat, tableOffset: nat, size: nat) {
    && base + tableOffset + size < U32
    && forall k: nat :: k < size ==> ocm(k) == flash(base + tableOffset + k)
  }

  lemma CopiedBytes(ocm: Memory, flash: Memory, base: nat, tableOffset: nat, size: nat, a: nat)
    requires CopiedFrom(ocm, flash, base, tableOffset, size) && tableOffset <= a
             && a + HEADER_SIZE <= tableOffset + size
    ensures Get(FromOcm(ocm, tableOffset), a) == Get(FromFlash(flash, base), a) == Some(Bytes(flash, base + a))
  {
    var x, y := Bytes(ocm, a - tableOffset), Bytes(flash, base + a);
    forall i | 0 <= i < HEADER_SIZE
      ensures x[i] == y[i]
    {
      var k: nat := a - tableOffset + i;
      assert k < size && ocm(k) == flash(base + tableOffset + k);
    }
    assert x == y;
  }

  /** As long as the chain stays inside the copied range, the walk through the copy finds the
      headers that flash holds. */
  lemma {:induction false} OcmWalkIsFlashWalk(ocm: Memory, flash: Memory, base: nat, tableOffset: nat, size: nat,
                                              a: nat, n: nat)
    requires CopiedFrom(ocm, flash, base, tableOffset, size)
    requires ChainWithin(FromFlash(flash, base), a, n, tableOffset, tableOffset + size)
    ensures Chain(FromOcm(ocm, tableOffset), a, n) == Chain(FromFlash(flash, base), a, n)
    ensures |Chain(FromFlash(flash, base), a, n)| == n
    decreases n
  {
    hide ParseHeader;
    hide Bytes;
    if n > 0 {
      CopiedBytes(ocm, flash, base, tableOffset, size, a);
      OcmWalkIsFlashWalk(ocm, flash, base, tableOffset, size, NextAddress(ParseHeader(Bytes(flash, base + a))), n - 1);
    }
  }

  /** What a complete read finds: the table, then the chain. */
  datatype Image = Image(table: ImageTable, headers: seq<Header>)

  function ReadImage(fetch: Fetch, tableOffset: nat): Option<Image> {
    if Get(fetch, tableOffset).None? then None
    else
      var t := ParseTable(Get(fetch, tableOffset).value);
      Some(Image(t, Chain(fetch, (t.firstHeader * WORD) % U32, t.noOfPartitions)))
  }

  /** Header k stands at address at[k]; the next one at the word offset in it. */
  predicate Linked(fetch: Fetch, headers: seq<Header>, at: seq<nat>) {
    && |at| == |headers|
    && (forall k :: 0 <= k < |at| ==> Get(fetch, at[k]).Some? && headers[k] == ParseHeader(Get(fetch, at[k]).value))
    && (forall k, m :: 0 <= k && m == k + 1 < |at| ==> at[m] == 4 * headers[k].next % 0x1_0000_0000)
  }

  /** Where the headers of an image stand: the first at the word offset in the table. */
  lemma HeadersAreLinked(fetch: Fetch, tableOffset: nat) returns (at: seq<nat>)
    requires ReadImage(fetch, tableOffset).Some?
    ensures var image := ReadImage(fetch, tableOffset).value;
            && Linked(fetch, image.headers, at) && |at| <= image.table.noOfPartitions
            && (at != [] ==> at[0] == 4 * image.table.firstHeader % 0x1_0000_0000)
  {
    hide ParseTable;
    hide Linked;
    var t := ParseTable(Get(fetch, tableOffset).value);
    at := ChainLinks(fetch, (t.firstHeader * WORD) % U32, t.noOfPartitions);
  }

  lemma {:induction false} ChainLinks(fetch: Fetch, a: nat, n: nat) returns (at: seq<nat>)
    ensures Linked(fetch, Chain(fetch, a, n), at) && |at| == |Chain(fetch, a, n)| <= n && (at != [] ==> at[0] == a)
    decreases n
  {
    hide Linked;
    hide ParseHeader;
    hide Get;
    at := [];
    if n > 0 && Get(fetch, a).Some? {
      var h := ParseHeader(Get(fetch, a).value);
      var rest := ChainLinks(fetch, NextAddress(h), n - 1);
      LinkMore(fetch, h, Chain(fetch, NextAddress(h), n - 1), a, rest);
      at := [a] + rest;
    } else {
      NoLinks(fetch);
    }
  }

  lemma NoLinks(fetch: Fetch)
    ensures Linked(fetch, [], [])
  {
  }

  lemma LinkMore(fetch: Fetch, h: Header, headers: seq<Header>, a: nat, at: seq<nat>)
    requires Linked(fetch, headers, at) && Get(fetch, a).Some? && h == ParseHeader(Get(fetch, a).value)
    requires at != [] ==> at[0] == NextAddress(h)
    ensures Linked(fetch, [h] + headers, [a] + at)
  {
    hide Get;
    hide ParseHeader;
  }

  /** The table and all of its headers lie in the copied range. */
  predicate ImageWithin(fetch: Fetch, tableOffset: nat, size: nat) {
    && size >= HEADER_SIZE
    && (Get(fetch, tableOffset).Some? ==>
          var t := ParseTable(Get(fetch, tableOffset).value);
          ChainWithin(fetch, (t.firstHeader * WORD) % U32, t.noOfPartitions, tableOffset, tableOffset + size))
  }

  /** Reading the copy or reading flash gives the same table and the same headers. */
  lemma OcmReadIsFlashRead(ocm: Memory, flash: Memory, base: nat, tableOffset: nat, size: nat)
    requires CopiedFrom(ocm, flash, base, tableOffset, size) && ImageWithin(FromFlash(flash, base), tableOffset, size)
    ensures ReadImage(FromOcm(ocm, tableOffset), tableOffset) == ReadImage(FromFlash(flash, base), tableOffset)
  {
    hide ParseTable;
    hide Bytes;
    hide Chain;
    CopiedBytes(ocm, flash, base, tableOffset, size, tableOffset);
    var t := ParseTable(Bytes(flash, base + tableOffset));
    OcmWalkIsFlashWalk(ocm, flash, base, tableOffset, size, (t.firstHeader * WORD) % U32, t.noOfPartitions);
  }

  // ---------------------------------------------------------------- the ATF table

  /** An entry of the table: entry point and flags. */
  datatype AtfEntry = AtfEntry(entryPoint: nat, flags: bv32)

  /** Execution state, endianness, security and exception level, shifted into place, and the
      number of the CPU; everything that is not an explicit A53-0, -1 or -2 counts as 3. */
  function Flags(attr: bv32): bv32 {
    ((attr & 0x8) >> 3) | ((attr & 0x40000) >> 17) | ((attr & 0x1) << 2) | ((attr & 0x6) << 2)
    | (if attr & 0xF00 == A53_0 then 0x00
       else if attr & 0xF00 == A53_1 then 0x20
       else if attr & 0xF00 == A53_2 then 0x40
       else 0x60)
  }

  /** The fields of the flags as ATF reads them. */
  function FlagCpu(flags: bv32): bv32 { (flags >> 5) & 0x3 }
  function FlagExecState(flags: bv32): bv32 { flags & 0x1 }
  function FlagEndian(flags: bv32): bv32 { (flags >> 1) & 0x1 }
  function FlagSecure(flags: bv32): bv32 { (flags >> 2) & 0x1 }
  function FlagLevel(flags: bv32): bv32 { (flags >> 3) & 0x3 }

  /** No field disturbs another: each decodes to the attribute it came from. */
  lemma FlagsDecode(attr: bv32)
    ensures FlagExecState(Flags(attr)) == (attr >> 3) & 0x1
    ensures FlagEndian(Flags(attr)) == (attr >> 18) & 0x1
    ensures FlagSecure(Flags(attr)) == attr & 0x1
    ensures FlagLevel(Flags(attr)) == (attr >> 1) & 0x3
  {
  }

  /** The CPU decodes to the partition's target exactly when the header names it: a partition
      for the running A53-0 without a destination is announced as A53-3. */
  lemma FlagsNameTarget(h: Header, running: bv32)
    requires Running(running) && IsA53(h.Target(running))
    ensures FlagCpu(Flags(h.attr)) == (h.Target(running) >> 8) - 1 <==> h.Cpu() != CPU_NONE
    ensures h.Cpu() == CPU_NONE ==> FlagCpu(Flags(h.attr)) == 3
  {
    CpuField(h);
  }

  predicate ForAtf(h: Header, i: nat, running: bv32) {
    i > 1 && h.execAddr != 0 && IsA53(h.Target(running))
  }

  /** All the partitions that qualify, in order. */
  function Qualifying(headers: seq<Header>, running: bv32): seq<AtfEntry> {
    if headers == [] then []
    else
      var n := |headers| - 1;
      Qualifying(headers[..n], running)
      + if ForAtf(headers[n], n, running) then [AtfEntry(headers[n].execAddr, Flags(headers[n].attr))] else []
  }

  /** The partitions ATF is told of, by their headers alone. */
  predicate Wanted(headers: seq<Header>, i: nat, running: bv32) {
    && 2 <= i < |headers| && headers[i].execAddr != 0
    && (headers[i].attr & 0xF00 in {0x100, 0x200, 0x300, 0x400} || (headers[i].attr & 0xF00 == 0 && running == 0x100))
  }

  /** Exactly the wanted partitions are listed, in order, each with its entry point and flags. */
  lemma {:induction false} QualifyingIndices(headers: seq<Header>, running: bv32) returns (at: seq<nat>)
    requires Running(running)
    ensures |at| == |Qualifying(headers, running)|
    ensures forall j, k :: 0 <= j < k < |at| ==> at[j] < at[k]
    ensures forall i :: i in at <==> Wanted(headers, i, running)
    ensures forall j :: 0 <= j < |at| ==>
              && at[j] < |headers|
              && var e := Qualifying(headers, running)[j];
                 e.entryPoint == headers[at[j]].execAddr && e.flags == Flags(headers[at[j]].attr)
    decreases |headers|
  {
    at := [];
    if headers != [] {
      hide Flags;
      var n := |headers| - 1;
      var front := headers[..n];
      var before := QualifyingIndices(front, running);
      WantedIsForAtf(headers, running);
      at := before + if ForAtf(headers[n], n, running) then [n] else [];
      forall i: nat
        ensures i < n ==> (Wanted(headers, i, running) <==> Wanted(front, i, running))
      {
      }
    }
  }

  lemma WantedIsForAtf(headers: seq<Header>, running: bv32)
    requires Running(running) && headers != []
    ensures var n := |headers| - 1; Wanted(headers, n, running) <==> ForAtf(headers[n], n, running)
  {
    var c := headers[|headers| - 1].attr & 0xF00;
    assert 0x100 <= c <= 0x400 <==> c in {0x100, 0x200, 0x300, 0x400};
  }

  function FirstEight(s: seq<AtfEntry>): (r: seq<AtfEntry>)
    ensures r <= s && |r| == if |s| < 8 then |s| else 8
  {
    if |s| <= ATF_MAX then s else s[..ATF_MAX]
  }

  /** One more header extends the first eight as long as there is room. */
  lemma EightStep(headers: seq<Header>, h: Header, running: bv32)
    ensures var before := FirstEight(Qualifying(headers, running));
            FirstEight(Qualifying(headers + [h], running)) ==
            if ForAtf(h, |headers|, running) && |before| < ATF_MAX then before + [AtfEntry(h.execAddr, Flags(h.attr))]
            else before
  {
    assert (headers + [h])[..|headers|] == headers;
  }

  // ---------------------------------------------------------------- the code, in place

  /** Where the header is read from: a device (the image starts at `base`), or the OCM copy. */
  datatype Source = Device(copy: Fetch, base: nat) | Ocm(mem: Memory)

  function FetchOf(source: Source, tableOffset: nat): Fetch {
    match source
    case Device(copy, base) => (a: nat) => copy((base + a) % U32)
    case Ocm(mem) => FromOcm(mem, tableOffset)
  }

  lemma {:induction false} ChainStep(fetch: Fetch, a: nat, k: nat, hs: seq<Header>)
    requires hs == Chain(fetch, a, k) && |hs| == k
    ensures var b := if k == 0 then a else NextAddress(hs[k - 1]);
            Chain(fetch, a, k + 1) == if Get(fetch, b).None? then hs else hs + [ParseHeader(Get(fetch, b).value)]
    decreases k
  {
    hide ParseHeader;
    if k > 0 {
      var h := ParseHeader(Get(fetch, a).value);
      ChainStep(fetch, NextAddress(h), k - 1, hs[1..]);
      assert k > 1 ==> hs[1..][k - 2] == hs[k - 1];
    }
  }

  /** A header that cannot be read ends the chain for good. */
  lemma {:induction false} ChainCut(fetch: Fetch, a: nat, k: nat, n: nat)
    requires k < n && |Chain(fetch, a, k + 1)| <= k
    ensures Chain(fetch, a, n) == Chain(fetch, a, k + 1)
    decreases k
  {
    hide ParseHeader;
    if Get(fetch, a).Some? && k > 0 {
      ChainCut(fetch, NextAddress(ParseHeader(Get(fetch, a).value)), k - 1, n - 1);
    }
  }

  class Reader {
    var table: ImageTable
    const headers: array<Header>
    const atf: array<AtfEntry>
    var numEntries: nat
    var published: bool // the address of the ATF table is stored for ATF

    constructor ()
      ensures Sized() && numEntries == 0 && !published && fresh(headers) && fresh(atf)
    {
      table := ImageTable(0, 0, 0, 0, false);
      headers := new Header[MAX_PARTITIONS](_ => Header(0, 0, 0, 0, 0, 0, 0, false));
      atf := new AtfEntry[ATF_MAX](_ => AtfEntry(0, 0));
      numEntries, published := 0, false;
    }

    predicate Sized() {
      headers.Length == MAX_PARTITIONS && atf.Length == ATF_MAX
    }

    method FetchHeader(source: Source, tableOffset: nat, address: nat) returns (r: Option<seq<Byte>>)
      ensures r == Get(FetchOf(source, tableOffset), address)
    {
      match source {
        case Device(copy, base) => r := copy((base + address) % U32);
        case Ocm(mem) => r := Some(Bytes(mem, (address - tableOffset) % U32));
      }
      if r.Some? && |r.value| != HEADER_SIZE {
        r := None;
      }
    }

    /** The partitions read so far, and the ATF table they make. */
    ghost predicate ReadSoFar(fetch: Fetch, first: nat, k: nat, running: bv32, entryCount: nat, before: nat)
      reads this, headers, atf
    {
      && Sized() && k <= MAX_PARTITIONS
      && headers[..k] == Chain(fetch, first, k)
      && entryCount <= ATF_MAX && atf[..entryCount] == FirstEight(Qualifying(headers[..k], running))
      && numEntries == (if entryCount == 0 then before else entryCount)
    }

    /** XFsbl_SetATFHandoffParameters. */
    method SetAtfEntry(h: Header, entryCount: nat)
      requires Sized() && entryCount < ATF_MAX
      modifies this`numEntries, atf
      ensures atf[..entryCount + 1] == old(atf[..entryCount]) + [AtfEntry(h.execAddr, Flags(h.attr))]
      ensures numEntries == entryCount + 1
    {
      var attr := h.attr;
      var flags := ((attr & 0x8) >> 3) | ((attr & 0x40000) >> 17) | ((attr & 0x1) << 2) | ((attr & 0x6) << 2);
      if attr & 0xF00 == A53_0 {
        flags := flags | 0x00;
      } else if attr & 0xF00 == A53_1 {
        flags := flags | 0x20;
      } else if attr & 0xF00 == A53_2 {
        flags := flags | 0x40;
      } else {
        flags := flags | 0x60;
      }
      numEntries := entryCount + 1;
      atf[entryCount] := AtfEntry(h.execAddr, flags);
    }

    /** One turn of the loop: fetch a header, and note it for ATF if it qualifies. */
    method ReadTurn(source: Source, tableOffset: nat, address: nat, k: nat, running: bv32, entryCount: nat,
                    ghost first: nat, ghost before: nat) returns (ok: bool, entries: nat)
      requires k < MAX_PARTITIONS && ReadSoFar(FetchOf(source, tableOffset), first, k, running, entryCount, before)
      requires address == if k == 0 then first else NextAddress(headers[k - 1])
      modifies this`numEntries, headers, atf
      ensures ok ==> ReadSoFar(FetchOf(source, tableOffset), first, k + 1, running, entries, before)
      ensures !ok ==> |Chain(FetchOf(source, tableOffset), first, k + 1)| == k && headers[..k] == old(headers[..k])
    {
      hide ParseHeader;
      hide FirstEight;
      hide Qualifying;
      hide Flags;
      hide Chain;
      ghost var read := headers[..k];
      ChainStep(FetchOf(source, tableOffset), first, k, read);
      var r := FetchHeader(source, tableOffset, address);
      entries := entryCount;
      ok := r.Some?;
      if ok {
        var h := ParseHeader(r.value);
        headers[k] := h;
        assert headers[..k + 1] == read + [h];
        EightStep(read, h, running);
        var cpu := if h.Cpu() == CPU_NONE then running else h.Cpu();
        if k > 1 && entries < ATF_MAX && h.execAddr != 0 && IsA53(cpu) {
          SetAtfEntry(h, entries);
          entries := entries + 1;
        }
      }
    }

    /** The headers of all partitions, one after another. */
    method ReadChain(source: Source, tableOffset: nat, running: bv32) returns (ok: bool, ghost entryCount: nat)
      requires Sized() && table.noOfPartitions <= MAX_PARTITIONS
      modifies this`numEntries, headers, atf
      ensures Sized()
      ensures var fetch, n := FetchOf(source, tableOffset), table.noOfPartitions;
              var first := (table.firstHeader * WORD) % U32;
              && (ok <==> |Chain(fetch, first, n)| >= n)
              && (ok ==> ReadSoFar(fetch, first, n, running, entryCount, old(numEntries)))
    {
      hide FirstEight;
      hide Qualifying;
      hide Chain;
      ghost var fetch, first, before := FetchOf(source, tableOffset), (table.firstHeader * WORD) % U32, numEntries;
      var address := (table.firstHeader * WORD) % U32;
      var count := 0;
      entryCount := 0;
      NothingRead(fetch, first, running);
      for index := 0 to table.noOfPartitions
        invariant ReadSoFar(fetch, first, index, running, count, before)
        invariant address == if index == 0 then first else NextAddress(headers[index - 1])
      {
        ok, count := ReadTurn(source, tableOffset, address, index, running, count, first, before);
        if !ok {
          ChainCut(fetch, first, index, table.noOfPartitions);
          return;
        }
        address := NextAddress(headers[index]);
      }
      ok, entryCount := true, count;
    }

    lemma NothingRead(fetch: Fetch, first: nat, running: bv32)
      requires Sized()
      ensures ReadSoFar(fetch, first, 0, running, 0, numEntries)
    {
    }

    /** XFsbl_ReadImageHeader. */
    method ReadImageHeader(source: Source, tableOffset: nat, running: bv32) returns (status: Status)
      requires Sized()
      modifies this, headers, atf
      ensures Sized()
      ensures status == Success && table.presentDevice == PPD_SAME ==>
                var image := ReadImage(FetchOf(source, tableOffset), tableOffset);
                && table.noOfPartitions <= MAX_PARTITIONS
                && image == Some(Image(table, headers[..table.noOfPartitions])) && published
                && var entries := FirstEight(Qualifying(image.value.headers, running));
                && atf[..|entries|] == entries && (entries != [] ==> numEntries == |entries|)
      ensures status == Success && table.presentDevice != PPD_SAME ==>
                headers[..] == old(headers[..]) && atf[..] == old(atf[..]) && published == old(published)
      ensures var image := ReadImage(FetchOf(source, tableOffset), tableOffset);
              && (status == Success <==>
                    && image.Some?
                    && (ValidateTable(image.value.table) == SecondaryBoot
                        || (ValidateTable(image.value.table) == Success
                            && |image.value.headers| == image.value.table.noOfPartitions)))
              && (status !in {Success, DeviceCopyFailed} ==>
                    image.Some? && status == ValidateTable(image.value.table))
      ensures status == DeviceCopyFailed <==>
                var image := ReadImage(FetchOf(source, tableOffset), tableOffset);
                image.None? || (ValidateTable(image.value.table) == Success
                                && |image.value.headers| < image.value.table.noOfPartitions)
    {
      hide ParseTable;
      hide FirstEight;
      hide Qualifying;
      hide Chain;
      var r := FetchHeader(source, tableOffset, tableOffset);
      if r.None? {
        return DeviceCopyFailed;
      }
      table := ParseTable(r.value);
      status := ValidateTable(table);
      if status == SecondaryBoot {
        return Success;
      }
      if status != Success {
        return;
      }
      ghost var entryCount;
      var ok;
      ok, entryCount := ReadChain(source, tableOffset, running);
      if !ok {
        return DeviceCopyFailed;
      }
      published := true;
    }
  }
}
