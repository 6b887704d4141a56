/** Loading partitions: the hand-off table, and the state of the TCMs a load leaves behind. */
module PartitionLoad {
  import opened Common
  import opened Headers
  import opened Tcm

  const WORD: nat := 4
  const DDR_TEMP: nat := 0x100000
  const HANDOFF_SLOTS: nat := 10

  datatype Result =
    | Success | HeaderError(check: Check) | CopyError | LoadAddressError | PowerUpError | EccError | SecureError

  /** A slot of the hand-off table: CPU and execution state in one word, and the address. */
  datatype Entry = Entry(settings: bv32, address: nat) {
    function Cpu(): bv32 {
      settings & 0xF00
    }
  }

  // ---------------------------------------------------------------- one partition, on values

  /** The partition leaves an entry in the hand-off table, if it is the first for its CPU. */
  predicate Contributes(h: Header, running: bv32, reset: Reset) {
    && ValidatePartition(h, running, reset) == Valid
    && (h.Xip() || (h.Device() != DEV_PL && h.Target(running) != PMU))
  }

  /** Bytes of the partition are copied somewhere. */
  predicate Copies(h: Header, running: bv32, reset: Reset) {
    && ValidatePartition(h, running, reset) == Valid
    && !h.Xip() && !(h.Device() == DEV_PL && reset == PsOnlyReset)
  }

  function EntryFor(h: Header, running: bv32): Entry {
    Entry(h.Target(running) | h.ExecState(), h.execAddr)
  }

  lemma EntryKeepsCpu(h: Header, running: bv32, reset: Reset)
    requires Running(running) && ValidatePartition(h, running, reset) == Valid
    ensures EntryFor(h, running).Cpu() == h.Target(running) && h.Target(running) in CPU_IDS
    ensures EntryFor(h, running).settings & 0x8 == h.ExecState()
  {
    CpuField(h);
    TargetIsCpu(h, running, reset);
    PackedFields(h.Target(running), h.ExecState());
  }

  lemma PackedFields(cpu: bv32, state: bv32)
    requires cpu in CPU_IDS && state & 0x8 == state
    ensures (cpu | state) & 0xF00 == cpu && (cpu | state) & 0x8 == state
  {
  }

  /** A slot holds CPU, execution state and entry point of a partition. */
  predicate Records(e: Entry, h: Header, running: bv32) {
    e.Cpu() == h.Target(running) && e.settings & 0x8 == h.ExecState() && e.address == h.execAddr
  }

  lemma EntryRecords(h: Header, running: bv32, reset: Reset)
    requires Running(running) && ValidatePartition(h, running, reset) == Valid
    ensures Records(EntryFor(h, running), h, running)
  {
    EntryKeepsCpu(h, running, reset);
  }

  predicate Knows(table: seq<Entry>, cpu: bv32) {
    exists i :: 0 <= i < |table| && table[i].Cpu() == cpu
  }

  function WithEntry(table: seq<Entry>, h: Header, running: bv32): seq<Entry> {
    if Knows(table, h.Target(running)) then table else table + [EntryFor(h, running)]
  }

  /** The table after a successful load. */
  function TableAfter(table: seq<Entry>, h: Header, running: bv32, reset: Reset): seq<Entry> {
    if Contributes(h, running, reset) then WithEntry(table, h, running) else table
  }

  function LengthOf(h: Header): nat {
    var n := (h.totalWords * WORD) % U32;
    if h.Authenticated() && h.Device() != DEV_PL then (n - AUTH_CERT_SIZE) % U32 else n
  }

  function JobOf(h: Header, running: bv32): Job {
    var address := if h.Device() == DEV_PL && h.loadAddr == DUMMY_PL_ADDR then DDR_TEMP else h.loadAddr;
    Job(h.Target(running), address, LengthOf(h))
  }

  /** What is copied: all words of the partition but an authentication certificate, to the load
      address; a bitstream without one goes to DDR first. */
  lemma JobExactly(h: Header, running: bv32)
    requires h.totalWords < U32 / 4 && (h.Authenticated() ==> 4 * h.totalWords >= 3776)
    ensures var job := JobOf(h, running);
            && job.cpu == h.Target(running)
            && job.n == 4 * h.totalWords - (if h.Authenticated() && h.Device() != 0x20 then 3776 else 0)
            && job.address == if h.Device() == 0x20 && h.loadAddr == 0xFFFF_FFFF then 0x10_0000 else h.loadAddr
  {
    hide Header.Target;
    hide Header.Device;
    hide Header.Authenticated;
  }

  /** Who gets an entry, and what is copied at all. */
  lemma LoadedExactly(h: Header, running: bv32, reset: Reset)
    requires ValidatePartition(h, running, reset) == Valid
    ensures Contributes(h, running, reset) <==>
              h.unencWords == 0 || (h.Device() != 0x20 && h.Target(running) != 0x800)
    ensures Copies(h, running, reset) <==> h.unencWords != 0 && !(h.Device() == 0x20 && reset == PsOnlyReset)
  {
  }

  /** The length check is repeated for secure partitions, with the certificate this time. */
  predicate FitsWithCertificate(h: Header, running: bv32) {
    h.Secured() ==> !TooLong(h.Target(running), h.loadAddr, (h.totalWords * WORD) % U32)
  }

  /** The bytes are copied, and then the second check refuses the partition. */
  predicate RefusedAfterCopy(h: Header, running: bv32, reset: Reset) {
    && Copies(h, running, reset) && !FitsWithCertificate(h, running)
    && var job := JobOf(h, running); !TooLong(job.cpu, job.address, job.n)
  }

  /** That happens exactly to authenticated partitions that fill a TCM bank up to less than their
      certificate. */
  lemma RefusedRange(h: Header, running: bv32, reset: Reset)
    requires h.totalWords < U32
    ensures RefusedAfterCopy(h, running, reset) <==>
              && Copies(h, running, reset) && h.Authenticated() && h.Device() != DEV_PL
              && InLowTcm(h.Target(running), h.loadAddr)
              && var room := if h.Target(running) == R5_L then 4 * TCM_BANK else TCM_BANK;
                 room < (h.totalWords * WORD) % U32 <= room + AUTH_CERT_SIZE
  {
    hide ValidatePartition;
    hide Header.Device;
    hide Header.Target;
    hide Header.Authenticated;
    hide Header.Encrypted;
    hide Header.ChecksumType;
  }

  /** One word more than a bank, certificate included: copied to the bank of R5-0, then refused.
      One word less is fine. */
  lemma OneWordTooMany()
    ensures var h := Header(0x4001 - 944, 0x4001 - 944, 0x4001, 0, 0, 0, 0x8510, true);
            var fits := Header(0x4000 - 944, 0x4000 - 944, 0x4000, 0, 0, 0, 0x8510, true);
            && RefusedAfterCopy(h, A53_0, SystemReset)
            && Copies(fits, A53_0, SystemReset) && !RefusedAfterCopy(fits, A53_0, SystemReset)
  {
  }

  /** What a load reports when nothing around it fails. */
  function LoadResult(h: Header, running: bv32, reset: Reset): Result {
    var check, job := ValidatePartition(h, running, reset), JobOf(h, running);
    if check == NotOwner then Success
    else if check != Valid then HeaderError(check)
    else if Copies(h, running, reset) && TooLong(job.cpu, job.address, job.n) then LoadAddressError
    else if !(h.Device() == DEV_PL && reset == PsOnlyReset) && !FitsWithCertificate(h, running) then LoadAddressError
    else Success
  }

  function TcmAfter(s: State, h: Header, running: bv32, reset: Reset): State {
    if Copies(h, running, reset) then LoadJob(s, running, JobOf(h, running)) else s
  }

  // ---------------------------------------------------------------- whole images

  function Table(image: seq<Header>, running: bv32, reset: Reset): seq<Entry> {
    if image == [] then []
    else TableAfter(Table(image[..|image| - 1], running, reset), image[|image| - 1], running, reset)
  }

  ghost predicate Distinct(table: seq<Entry>) {
    forall i, j :: 0 <= i < j < |table| ==> table[i].Cpu() != table[j].Cpu()
  }

  ghost predicate OneSlotPerCpu(table: seq<Entry>) {
    Distinct(table) && forall i :: 0 <= i < |table| ==> table[i].Cpu() in CPU_IDS
  }

  /** Eight CPUs, so at most eight entries. */
  lemma {:induction false} AtMostEight(table: seq<Entry>)
    requires OneSlotPerCpu(table)
    ensures |table| <= 8 < HANDOFF_SLOTS
    ensures forall c :: c in CPU_IDS && !Knows(table, c) ==> |table| < 8
  {
    var used := CpuSet(table);
    CpuSetSize(table);
    SubsetSize(used, CPU_IDS);
    assert |CPU_IDS| == 8;
    forall c | c in CPU_IDS && !Knows(table, c)
      ensures |table| < 8
    {
      SubsetSize(used + {c}, CPU_IDS);
    }
  }

  function CpuSet(table: seq<Entry>): set<bv32> {
    set i | 0 <= i < |table| :: table[i].Cpu()
  }

  lemma {:induction false} CpuSetSize(table: seq<Entry>)
    requires Distinct(table)
    ensures |CpuSet(table)| == |table|
    decreases |table|
  {
    if table != [] {
      hide Entry.Cpu;
      var front, last := table[..|table| - 1], table[|table| - 1];
      CpuSetSize(front);
      assert last.Cpu() !in CpuSet(front);
      CpuSetStep(table);
    } else {
      assert CpuSet(table) == {};
    }
  }

  lemma CpuSetStep(table: seq<Entry>)
    requires table != []
    ensures CpuSet(table) == CpuSet(table[..|table| - 1]) + {table[|table| - 1].Cpu()}
  {
    hide Entry.Cpu;
    var front := table[..|table| - 1];
    forall c | c in CpuSet(front)
      ensures c in CpuSet(table)
    {
      var i :| 0 <= i < |front| && front[i].Cpu() == c;
      assert table[i] == front[i];
    }
    forall c | c in CpuSet(table) && c != table[|table| - 1].Cpu()
      ensures c in CpuSet(front)
    {
      var i :| 0 <= i < |table| && table[i].Cpu() == c;
      assert table[i] == front[i];
    }
  }

  lemma {:induction false} SubsetSize<T>(a: set<T>, b: set<T>)
    requires a <= b
    ensures |a| <= |b|
    decreases |a|
  {
    if a != {} {
      var x :| x in a;
      SubsetSize(a - {x}, b - {x});
    }
  }

  /** Partition i is the first of the image to be loaded for its CPU. */
  ghost predicate FirstForCpu(image: seq<Header>, i: nat, running: bv32, reset: Reset)
    requires i < |image|
  {
    && Contributes(image[i], running, reset)
    && forall j :: 0 <= j < i && Contributes(image[j], running, reset) ==>
        image[j].Target(running) != image[i].Target(running)
  }

  ghost predicate OfFirst(e: Entry, image: seq<Header>, running: bv32, reset: Reset) {
    exists i :: 0 <= i < |image| && FirstForCpu(image, i, running, reset) && Records(e, image[i], running)
  }

  ghost predicate AllKnown(table: seq<Entry>, image: seq<Header>, running: bv32, reset: Reset) {
    forall i :: 0 <= i < |image| && Contributes(image[i], running, reset) ==> Knows(table, image[i].Target(running))
  }

  /** The hand-off table of an image: one entry per CPU that some loaded partition targets,
      execution state and address of the first such partition. */
  ghost predicate TableExact(table: seq<Entry>, image: seq<Header>, running: bv32, reset: Reset) {
    && OneSlotPerCpu(table)
    && (forall k :: 0 <= k < |table| ==> OfFirst(table[k], image, running, reset))
    && AllKnown(table, image, running, reset)
  }

  lemma {:induction false} TableIsExact(image: seq<Header>, running: bv32, reset: Reset)
    requires Running(running)
    ensures TableExact(Table(image, running, reset), image, running, reset)
    ensures |Table(image, running, reset)| <= 8
  {
    if image != [] {
      var n := |image| - 1;
      var front := image[..n];
      TableIsExact(front, running, reset);
      TableGrows(Table(front, running, reset), image, running, reset);
    }
    AtMostEight(Table(image, running, reset));
  }

  ghost predicate Targets(image: seq<Header>, i: nat, cpu: bv32, running: bv32, reset: Reset)
    requires i < |image|
  {
    Contributes(image[i], running, reset) && image[i].Target(running) == cpu
  }

  /** The table knows exactly the CPUs that some partition was loaded for. */
  lemma TableKnows(image: seq<Header>, cpu: bv32, running: bv32, reset: Reset)
    requires Running(running)
    ensures Knows(Table(image, running, reset), cpu) <==>
              exists i :: 0 <= i < |image| && Targets(image, i, cpu, running, reset)
  {
    hide Contributes;
    hide Header.Target;
    hide OneSlotPerCpu;
    hide Knows;
    hide OfFirst;
    hide Table;
    var table := Table(image, running, reset);
    TableIsExact(image, running, reset);
    if Knows(table, cpu) {
      KnownIsTarget(table, image, cpu, running, reset);
    }
  }

  lemma KnownIsTarget(table: seq<Entry>, image: seq<Header>, cpu: bv32, running: bv32, reset: Reset)
    requires Running(running) && Knows(table, cpu)
    requires forall k :: 0 <= k < |table| ==> OfFirst(table[k], image, running, reset)
    ensures exists i :: 0 <= i < |image| && Targets(image, i, cpu, running, reset)
  {
    hide Contributes;
    hide Header.Target;
    hide Entry.Cpu;
    var k :| 0 <= k < |table| && table[k].Cpu() == cpu;
    assert OfFirst(table[k], image, running, reset);
    var i :| 0 <= i < |image| && FirstForCpu(image, i, running, reset) && Records(table[k], image[i], running);
    assert Targets(image, i, cpu, running, reset);
  }

  lemma ContributorEntry(h: Header, running: bv32, reset: Reset)
    requires Running(running) && Contributes(h, running, reset)
    ensures EntryFor(h, running).Cpu() == h.Target(running)
  {
    EntryKeepsCpu(h, running, reset);
  }

  lemma FirstStays(e: Entry, image: seq<Header>, running: bv32, reset: Reset)
    requires image != [] && OfFirst(e, image[..|image| - 1], running, reset)
    ensures OfFirst(e, image, running, reset)
  {
    var front := image[..|image| - 1];
    var i :| 0 <= i < |front| && FirstForCpu(front, i, running, reset) && Records(e, front[i], running);
    assert image[i] == front[i];
    forall j | 0 <= j < i && Contributes(image[j], running, reset)
      ensures image[j].Target(running) != image[i].Target(running)
    {
      assert front[j] == image[j];
    }
  }

  lemma LastIsFirst(table: seq<Entry>, image: seq<Header>, running: bv32, reset: Reset)
    requires Running(running)
    requires image != [] && AllKnown(table, image[..|image| - 1], running, reset)
    requires var h := image[|image| - 1]; Contributes(h, running, reset) && !Knows(table, h.Target(running))
    ensures OfFirst(EntryFor(image[|image| - 1], running), image, running, reset)
  {
    var n := |image| - 1;
    forall j | 0 <= j < n && Contributes(image[j], running, reset)
      ensures image[j].Target(running) != image[n].Target(running)
    {
      assert image[..n][j] == image[j];
    }
    EntryRecords(image[n], running, reset);
    assert FirstForCpu(image, n, running, reset);
  }

  lemma KnownGrows(table: seq<Entry>, image: seq<Header>, running: bv32, reset: Reset)
    requires Running(running) && image != [] && AllKnown(table, image[..|image| - 1], running, reset)
    ensures AllKnown(TableAfter(table, image[|image| - 1], running, reset), image, running, reset)
  {
    var n := |image| - 1;
    var after := TableAfter(table, image[n], running, reset);
    forall i | 0 <= i < |image| && Contributes(image[i], running, reset)
      ensures Knows(after, image[i].Target(running))
    {
      if i < n {
        assert image[..n][i] == image[i];
        var k :| 0 <= k < |table| && table[k].Cpu() == image[i].Target(running);
        assert after[k] == table[k];
      } else if !Knows(table, image[n].Target(running)) {
        EntryKeepsCpu(image[n], running, reset);
        assert after[|table|].Cpu() == image[n].Target(running);
      }
    }
  }

  lemma SlotsGrow(table: seq<Entry>, h: Header, running: bv32, reset: Reset)
    requires Running(running) && OneSlotPerCpu(table)
    ensures OneSlotPerCpu(TableAfter(table, h, running, reset))
  {
    if Contributes(h, running, reset) {
      EntryIsNew(table, h, running, reset);
    }
  }

  lemma EntryIsNew(table: seq<Entry>, h: Header, running: bv32, reset: Reset)
    requires Running(running) && OneSlotPerCpu(table) && ValidatePartition(h, running, reset) == Valid
    ensures OneSlotPerCpu(WithEntry(table, h, running))
  {
    hide ValidatePartition;
    hide Header.Target;
    hide Entry.Cpu;
    EntryKeepsCpu(h, running, reset);
  }

  lemma TableGrows(table: seq<Entry>, image: seq<Header>, running: bv32, reset: Reset)
    requires Running(running) && image != []
    requires TableExact(table, image[..|image| - 1], running, reset)
    ensures TableExact(TableAfter(table, image[|image| - 1], running, reset), image, running, reset)
  {
    var h := image[|image| - 1];
    var after := TableAfter(table, h, running, reset);
    SlotsGrow(table, h, running, reset);
    KnownGrows(table, image, running, reset);
    forall k | 0 <= k < |after|
      ensures OfFirst(after[k], image, running, reset)
    {
      if k < |table| {
        FirstStays(table[k], image, running, reset);
      } else {
        LastIsFirst(table, image, running, reset);
      }
    }
  }

  // ---------------------------------------------------------------- TCM over a whole image

  function TcmState(image: seq<Header>, running: bv32, reset: Reset): State {
    if image == [] then COLD
    else TcmAfter(TcmState(image[..|image| - 1], running, reset), image[|image| - 1], running, reset)
  }

  /** The partitions of an image that are copied, in order. */
  function Jobs(image: seq<Header>, reset: Reset): seq<Job> {
    if image == [] then []
    else
      var h := image[|image| - 1];
      Jobs(image[..|image| - 1], reset) + if Copies(h, A53_0, reset) then [JobOf(h, A53_0)] else []
  }

  lemma {:induction false} TcmFollowsJobs(image: seq<Header>, reset: Reset)
    ensures TcmState(image, A53_0, reset) == Run(Jobs(image, reset))
  {
    if image != [] {
      TcmFollowsJobs(image[..|image| - 1], reset);
      var h, front := image[|image| - 1], Jobs(image[..|image| - 1], reset);
      if Copies(h, A53_0, reset) {
        var jobs := front + [JobOf(h, A53_0)];
        assert jobs[..|jobs| - 1] == front && Jobs(image, reset) == jobs;
      } else {
        assert Jobs(image, reset) == front;
      }
    }
  }

  /** For every image whose partitions fit where they go: no ECC fill overwrites bytes loaded
      before it, exactly when a lockstep partition comes first or each R5 is loaded in one
      piece; and every validated TCM partition is recognised and meets filled memory, as far
      as it stays in its bank. */
  lemma ImageKeepsTcm(image: seq<Header>, reset: Reset, h: Header)
    requires AllProper(Jobs(image, reset))
    ensures Safe(TcmState(image, A53_0, reset).log) <==> Kept(TcmCpus(Jobs(image, reset)))
    ensures Copies(h, A53_0, reset) && JobOf(h, A53_0).Proper() && JobOf(h, A53_0).InTcm() ==>
              var job := JobOf(h, A53_0);
              var a := Remap(job.cpu, job.address);
              Recognised(job.cpu, a)
                  && (Ready(Configure(TcmState(image, A53_0, reset), A53_0, job.cpu, a), a, job.n) <==> Fits(job))
  {
    TcmFollowsJobs(image, reset);
    KeptIsSafe(Jobs(image, reset));
    if Copies(h, A53_0, reset) && JobOf(h, A53_0).Proper() && JobOf(h, A53_0).InTcm() {
      RemappedIsRecognised(JobOf(h, A53_0).cpu, JobOf(h, A53_0).address, DEV_PS);
      ArrivesReady(Jobs(image, reset), JobOf(h, A53_0));
    }
  }

  // ---------------------------------------------------------------- the code, in place

  /** What the hardware and the secure checks answer, by time. */
  datatype World = World(powerUp: nat -> bool, dmaOk: nat -> bool, copyOk: nat -> bool, secureOk: nat -> bool) {
    /** Nothing fails. */
    ghost predicate Obliging() {
      !PowerFails() && !DmaFails() && !CopyFails() && !SecureFails()
    }

    ghost predicate PowerFails() {
      exists t: nat :: !powerUp(t)
    }

    ghost predicate DmaFails() {
      exists t: nat :: !dmaOk(t)
    }

    ghost predicate CopyFails() {
      exists t: nat :: !copyOk(t)
    }

    ghost predicate SecureFails() {
      exists t: nat :: !secureOk(t)
    }
  }

  class Loader {
    const running: bv32
    const reset: Reset
    const world: World
    const handoffValues: array<Entry>
    var handoffCpuNo: nat
    var tcmEccInitStatus: EccStatus
    var mode: RpuMode
    var time: nat
    ghost var log: seq<Event>

    constructor (running: bv32, reset: Reset, world: World)
      requires Running(running)
      ensures this.running == running && this.reset == reset && this.world == world
      ensures Valid() && Slots() == [] && Tcm() == COLD && fresh(handoffValues)
    {
      this.running, this.reset, this.world := running, reset, world;
      handoffValues := new Entry[HANDOFF_SLOTS](_ => Entry(0, 0));
      handoffCpuNo, tcmEccInitStatus, mode, time, log := 0, COLD.status, Split, 0, [];
    }

    function Slots(): seq<Entry>
      requires handoffCpuNo <= handoffValues.Length
      reads this, handoffValues
    {
      handoffValues[..handoffCpuNo]
    }

    ghost function Tcm(): State
      reads this
    {
      State(tcmEccInitStatus, mode, log)
    }

    /** The slots in use never name a CPU twice, so the table never overflows. */
    ghost predicate Valid()
      reads this, handoffValues
    {
      Running(running) && handoffValues.Length == HANDOFF_SLOTS && handoffCpuNo <= 8 && OneSlotPerCpu(Slots())
    }

    /** XFsbl_CheckHandoffCpu: does the CPU still lack an entry? */
    method CheckHandoffCpu(cpu: bv32) returns (missing: bool)
      requires Valid()
      ensures missing <==> !Knows(Slots(), cpu)
    {
      for index := 0 to handoffCpuNo
        invariant forall i :: 0 <= i < index ==> Slots()[i].Cpu() != cpu
      {
        var id := handoffValues[index].settings & 0xF00;
        if id == cpu {
          assert Slots()[index].Cpu() == cpu;
          return false;
        }
      }
      missing := true;
    }

    lemma RoomForOne(h: Header)
      requires Valid() && ValidatePartition(h, running, reset) == Headers.Valid && !Knows(Slots(), h.Target(running))
      ensures |Slots()| < 8
    {
      hide ValidatePartition;
      EntryKeepsCpu(h, running, reset);
      AtMostEight(Slots());
    }

    /** The update that ends XFsbl_PartitionValidation, and that the XIP branch repeats. */
    method UpdateHandoff(h: Header)
      requires Valid() && ValidatePartition(h, running, reset) == Headers.Valid
      modifies this`handoffCpuNo, handoffValues
      ensures Valid() && Slots() == WithEntry(old(Slots()), h, running)
      ensures Knows(old(Slots()), h.Target(running)) ==> Slots() == old(Slots())
      ensures !Knows(old(Slots()), h.Target(running)) ==>
                && |Slots()| == |old(Slots())| + 1 && Slots()[..|old(Slots())|] == old(Slots())
                && Records(Slots()[|old(Slots())|], h, running)
    {
      hide ValidatePartition;
      hide Header.Target;
      hide Header.ExecState;
      hide OneSlotPerCpu;
      hide Knows;
      var cpu := h.Target(running);
      EntryIsNew(Slots(), h, running, reset);
      EntryRecords(h, running, reset);
      hide Records;
      var missing := CheckHandoffCpu(cpu);
      if missing {
        RoomForOne(h);
        AtMostEight(WithEntry(Slots(), h, running));
        handoffValues[handoffCpuNo] := Entry(cpu | h.ExecState(), h.execAddr);
        handoffCpuNo := handoffCpuNo + 1;
        assert Slots() == old(Slots()) + [EntryFor(h, running)];
      }
    }

    /** XFsbl_EccInit. */
    method EccInit(start: nat, length: nat) returns (ok: bool)
      modifies this`time, this`log
      ensures ok ==> log == old(log) + Transfers(mode, start, length)
      ensures ok ==> Tiles(log[|old(log)|..], mode, start, length)
      ensures !ok ==> world.DmaFails()
    {
      TransfersTile(mode, start, length);
      hide Tiles;
      var startAddr: nat, numBytes: nat := start, length;
      assert old(log) + Transfers(mode, start, length) == log + Transfers(mode, startAddr, numBytes);
      while numBytes > 0
        invariant log + Transfers(mode, startAddr, numBytes) == old(log) + Transfers(mode, start, length)
      {
        var n: nat := if numBytes > ZDMA_MAX then ZDMA_MAX else numBytes;
        ok := world.dmaOk(time);
        time := time + 1;
        if !ok {
          return;
        }
        assert log + ([Ecc(mode, startAddr, n)] + Transfers(mode, startAddr + n, numBytes - n))
               == log + [Ecc(mode, startAddr, n)] + Transfers(mode, startAddr + n, numBytes - n);
        log := log + [Ecc(mode, startAddr, n)];
        numBytes, startAddr := numBytes - n, startAddr + n;
      }
      ok := true;
    }

    /** XFsbl_TcmEccInit for an R5; the status word is overwritten. */
    method TcmEccInit(cpu: bv32) returns (ok: bool)
      requires IsR5(cpu)
      modifies this`time, this`log, this`tcmEccInitStatus
      ensures ok ==> log == old(log) + Fills(mode, running, cpu) && tcmEccInitStatus == FillStatus(cpu)
      ensures !ok ==> tcmEccInitStatus == old(tcmEccInitStatus) && world.DmaFails()
    {
      hide World.DmaFails;
      var skip: nat := if running != A53_0 && cpu != R5_1 then VECTORS else 0;
      if cpu == R5_L {
        ok := EccInit(R50_ATCM + skip, TCM_BANK * 4 - skip);
      } else {
        var atcm, btcm := if cpu == R5_0 then R50_ATCM + skip else R51_ATCM, if cpu == R5_0 then R50_BTCM else R51_BTCM;
        ok := EccInit(atcm, TCM_BANK - skip);
        if ok {
          ok := EccInit(btcm, TCM_BANK);
        }
      }
      if ok {
        tcmEccInitStatus := FillStatus(cpu);
      }
    }

    /** XFsbl_ConfigureMemory. */
    method ConfigureMemory(cpu: bv32, address: nat) returns (result: Result)
      modifies this`time, this`log, this`tcmEccInitStatus, this`mode
      ensures result == Success ==> Tcm() == Configure(old(Tcm()), running, cpu, address)
      ensures result in {Success, PowerUpError, EccError}
      ensures (result == PowerUpError ==> world.PowerFails()) && (result == EccError ==> world.DmaFails())
    {
      if Recognised(cpu, address) {
        if running != cpu {
          var ok := world.powerUp(time);
          time := time + 1;
          if !ok {
            return PowerUpError;
          }
          mode := ModeFor(cpu);
        }
        if NeedsFill(tcmEccInitStatus, cpu) {
          var ok := TcmEccInit(cpu);
          if !ok {
            return EccError;
          }
        }
      }
      result := Success;
    }

    /** An error of the hardware or the secure services has its cause there. */
    ghost predicate Explained(result: Result) {
      && (result == PowerUpError ==> world.PowerFails())
      && (result == EccError ==> world.DmaFails())
      && (result == CopyError ==> world.CopyFails())
      && (result == SecureError ==> world.SecureFails())
    }

    /** The end of XFsbl_PartitionCopy: remap, prepare the memory, copy. */
    method CopyTo(cpu: bv32, loadAddress: nat, length: nat) returns (result: Result)
      modifies this`time, this`log, this`tcmEccInitStatus, this`mode
      ensures result == Success ==> Tcm() == LoadJob(old(Tcm()), running, Job(cpu, loadAddress, length))
      ensures result == LoadAddressError <==> TooLong(cpu, loadAddress, length)
      ensures result == LoadAddressError ==> Tcm() == old(Tcm())
      ensures result in {Success, LoadAddressError, PowerUpError, EccError, CopyError} && Explained(result)
    {
      if TooLong(cpu, loadAddress, length) {
        return LoadAddressError;
      }
      var address := Remap(cpu, loadAddress);
      result := ConfigureMemory(cpu, address);
      if result != Success {
        return;
      }
      var ok := world.copyOk(time);
      time := time + 1;
      if !ok {
        return CopyError;
      }
      log := log + [Load(mode, cpu, address, length)];
    }

    /** XFsbl_PartitionCopy. */
    method PartitionCopy(h: Header) returns (result: Result)
      requires Valid() && ValidatePartition(h, running, reset) == Headers.Valid
      modifies this, handoffValues
      ensures Valid()
      ensures Slots() == if h.Xip() then WithEntry(old(Slots()), h, running) else old(Slots())
      ensures result == Success ==> Tcm() == TcmAfter(old(Tcm()), h, running, reset)
      ensures Copies(h, running, reset) ==>
                var job := JobOf(h, running);
                && (result == Success ==> !TooLong(job.cpu, job.address, job.n))
                && (result == LoadAddressError ==> TooLong(job.cpu, job.address, job.n) && Tcm() == old(Tcm()))
                && (world.Obliging() ==>
                    result == if TooLong(job.cpu, job.address, job.n) then LoadAddressError else Success)
      ensures !Copies(h, running, reset) ==> result in {Success, CopyError}
      ensures result in {Success, LoadAddressError, PowerUpError, EccError, CopyError} && Explained(result)
    {
      hide ValidatePartition;
      hide OneSlotPerCpu;
      hide LoadJob;
      hide TooLong;
      hide Header.Target;
      hide Header.Device;
      hide Header.Authenticated;
      if h.unencWords == 0 {
        UpdateHandoff(h);
        return Success;
      }
      var length := (h.totalWords * WORD) % U32;
      if h.Authenticated() && h.Device() != DEV_PL {
        length := (length - AUTH_CERT_SIZE) % U32;
        var ok := world.copyOk(time);
        time := time + 1;
        if !ok {
          return CopyError;
        }
      }
      var address := h.loadAddr;
      if h.Device() == DEV_PL {
        if reset == PsOnlyReset {
          return Success;
        }
        if address == DUMMY_PL_ADDR {
          address := DDR_TEMP;
        }
      }
      assert Job(h.Target(running), address, length) == JobOf(h, running);
      result := CopyTo(h.Target(running), address, length);
    }

    /** XFsbl_PartitionValidation, as far as the table goes. */
    method PartitionValidation(h: Header) returns (result: Result)
      requires Valid() && ValidatePartition(h, running, reset) == Headers.Valid
      modifies this`time, this`handoffCpuNo, handoffValues
      ensures Valid()
      ensures result == Success && Copies(h, running, reset) ==> FitsWithCertificate(h, running)
      ensures result in {Success, LoadAddressError, CopyError, SecureError} && Explained(result)
      ensures result == LoadAddressError ==>
                !FitsWithCertificate(h, running) && !(h.Device() == DEV_PL && reset == PsOnlyReset)
      ensures result == Success ==>
                FitsWithCertificate(h, running) || (h.Device() == DEV_PL && reset == PsOnlyReset)
      ensures world.Obliging() && Copies(h, running, reset) ==>
                result == if FitsWithCertificate(h, running) then Success else LoadAddressError
      ensures Slots() == if result == Success && h.Device() != DEV_PL && h.Target(running) != PMU
                         then WithEntry(old(Slots()), h, running) else old(Slots())
    {
      var ok := true;
      if h.Encrypted() {
        ok := world.copyOk(time); // the initial vector
        time := time + 1;
        if !ok {
          return CopyError;
        }
      }
      if h.Device() == DEV_PL && reset == PsOnlyReset {
        return Success;
      }
      if h.Secured() && TooLong(h.Target(running), h.loadAddr, (h.totalWords * WORD) % U32) {
        return LoadAddressError;
      }
      ok := world.secureOk(time);
      time := time + 1;
      if !ok {
        return SecureError;
      }
      if h.Device() != DEV_PL && h.Target(running) != PMU {
        UpdateHandoff(h);
      }
      result := Success;
    }

    /** XFsbl_PartitionLoad. */
    method PartitionLoad(h: Header) returns (result: Result)
      requires Valid()
      modifies this, handoffValues
      ensures Valid() && Explained(result)
      ensures var check := ValidatePartition(h, running, reset);
              && (check == NotOwner ==> result == Success)
              && (result.HeaderError? <==> check != NotOwner && check != Headers.Valid)
              && (result.HeaderError? ==> result.check == check)
      ensures result == Success ==> LoadResult(h, running, reset) == Success
      ensures world.Obliging() ==> result == LoadResult(h, running, reset)
      ensures result == Success && Contributes(h, running, reset) && !Knows(old(Slots()), h.Target(running)) ==>
                && |Slots()| == |old(Slots())| + 1 && Slots()[..|old(Slots())|] == old(Slots())
                && Records(Slots()[|old(Slots())|], h, running)
      ensures result == Success ==> Slots() == TableAfter(old(Slots()), h, running, reset)
      ensures result == Success ==> Tcm() == TcmAfter(old(Tcm()), h, running, reset)
      ensures result == Success && Copies(h, running, reset) ==>
                var job := JobOf(h, running); !TooLong(job.cpu, job.address, job.n) && FitsWithCertificate(h, running)
      ensures result != Success ==> Slots() == old(Slots()) || Slots() == WithEntry(old(Slots()), h, running)
      ensures result == LoadAddressError && Copies(h, running, reset) ==>
                && Slots() == old(Slots())
                && Tcm() == (if RefusedAfterCopy(h, running, reset) then TcmAfter(old(Tcm()), h, running, reset)
                    else old(Tcm()))
      ensures world.Obliging() && RefusedAfterCopy(h, running, reset) ==> result == LoadAddressError
      ensures world.Obliging() && Copies(h, running, reset) ==>
                var job := JobOf(h, running);
                result == Success <==> FitsWithCertificate(h, running) && !TooLong(job.cpu, job.address, job.n)
    {
      hide ValidateHeader;
      hide OneSlotPerCpu;
      hide LoadJob;
      hide Records;
      if ValidatePartition(h, running, reset) == Headers.Valid {
        EntryRecords(h, running, reset);
      }
      var check := ValidatePartition(h, running, reset);
      if check == NotOwner {
        return Success;
      }
      if check != Headers.Valid {
        return HeaderError(check);
      }
      result := PartitionCopy(h);
      if result != Success {
        return;
      }
      ghost var copied := Slots();
      result := PartitionValidation(h);
      SecondUpdate(old(Slots()), h, running, reset);
    }
  }

  /** An XIP partition finds its own entry when it comes to the second update. */
  lemma SecondUpdate(table: seq<Entry>, h: Header, running: bv32, reset: Reset)
    requires Running(running) && ValidatePartition(h, running, reset) == Valid
    ensures var once := WithEntry(table, h, running); WithEntry(once, h, running) == once
  {
    EntryKeepsCpu(h, running, reset);
    var once := WithEntry(table, h, running);
    if !Knows(table, h.Target(running)) {
      assert once[|table|].Cpu() == h.Target(running);
    }
  }
}
