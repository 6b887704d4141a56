/** Loading into the tightly coupled memories (TCM) of the R5 cores.  The four TCM banks carry
    ECC and are filled once before use, lazily, as partitions arrive.  The boot loader keeps
    one status word for that, and overwrites it with every fill. */
module Tcm {
  import opened Headers

  const R50_ATCM: nat := 0xFFE00000
  const R50_BTCM: nat := 0xFFE20000
  const R51_ATCM: nat := 0xFFE90000
  const R51_BTCM: nat := 0xFFEB0000
  const VECTORS: nat := 32 // bytes a loader running on an R5 keeps for itself
  const ZDMA_MAX: nat := 0x3FFFFFFF - 7

  // ---------------------------------------------------------------- addresses

  datatype RpuMode = Split | Lockstep
  datatype Bank = A0 | A1 | B0 | B1

  /** Where an address leads: a byte of a TCM bank, or somewhere else. */
  datatype Place = InTcm(bank: Bank, off: nat) | Elsewhere(address: nat)

  function PlaceOf(mode: RpuMode, a: nat): Place {
    match mode
    case Split =>
      if R50_ATCM <= a < R50_ATCM + TCM_BANK then InTcm(A0, a - R50_ATCM)
      else if R50_BTCM <= a < R50_BTCM + TCM_BANK then InTcm(B0, a - R50_BTCM)
      else if R51_ATCM <= a < R51_ATCM + TCM_BANK then InTcm(A1, a - R51_ATCM)
      else if R51_BTCM <= a < R51_BTCM + TCM_BANK then InTcm(B1, a - R51_BTCM)
      else Elsewhere(a)
    case Lockstep =>
      if R50_ATCM <= a < R50_ATCM + 4 * TCM_BANK then
        var o := a - R50_ATCM;
        var bank := if o < TCM_BANK then A0 else if o < 2 * TCM_BANK then A1 else if o < 3 * TCM_BANK then B0 else B1;
        InTcm(bank, o % TCM_BANK)
      else Elsewhere(a)
  }

  /** XFsbl_GetLoadAddress: low TCM addresses of an R5 move to where every CPU sees them. */
  function Remap(cpu: bv32, address: nat): nat {
    if !InLowTcm(cpu, address) then address
    else if cpu == R5_1 then R51_ATCM + address
    else R50_ATCM + address
  }

  /** The length check that goes with it. */
  predicate TooLong(cpu: bv32, address: nat, n: nat) {
    InLowTcm(cpu, address) && n > (if cpu == R5_L then 4 * TCM_BANK else TCM_BANK)
  }

  /** The address test of XFsbl_ConfigureMemory. */
  predicate Recognised(cpu: bv32, a: nat) {
    || (cpu == R5_0 && (R50_ATCM <= a < R50_ATCM + TCM_BANK || R50_BTCM <= a < R50_BTCM + TCM_BANK))
    || (cpu == R5_1 && (R51_ATCM <= a < R51_ATCM + TCM_BANK || R51_BTCM <= a < R51_BTCM + TCM_BANK))
    || (cpu == R5_L && R50_ATCM <= a < R50_ATCM + 4 * TCM_BANK)
  }

  /** A valid load address is remapped exactly when the memory set-up recognises it. */
  lemma RemappedIsRecognised(cpu: bv32, address: nat, device: bv32)
    requires ValidAddress(address, cpu, device)
    ensures Recognised(cpu, Remap(cpu, address)) <==> InLowTcm(cpu, address)
  {
  }

  /** Where the low addresses lead: for a single R5 its bank A at 0 and its bank B at 0x20000, for
      the lockstep pair the four banks A0, A1, B0, B1 one after another. */
  lemma RemapPlace(cpu: bv32, address: nat)
    requires InLowTcm(cpu, address)
    ensures var bank, off := address / 0x1_0000, address % 0x1_0000;
            PlaceOf(ModeFor(cpu), Remap(cpu, address)) ==
            if cpu == 0x500 then InTcm(if bank == 0 then A0 else B0, off)
            else if cpu == 0x600 then InTcm(if bank == 0 then A1 else B1, off)
            else InTcm(if bank == 0 then A0 else if bank == 1 then A1 else if bank == 2 then B0 else B1, off)
  {
  }

  /** Any other address stays what it is. */
  lemma OtherwiseKept(cpu: bv32, address: nat)
    requires !InLowTcm(cpu, address)
    ensures Remap(cpu, address) == address
  {
  }

  // ---------------------------------------------------------------- what happens to memory

  datatype Event = Ecc(mode: RpuMode, start: nat, n: nat) | Load(mode: RpuMode, cpu: bv32, start: nat, n: nat)

  ghost predicate Overlap(e: Event, f: Event) {
    exists a: nat, b: nat :: e.start <= a < e.start + e.n && f.start <= b < f.start + f.n
                             && PlaceOf(e.mode, a) == PlaceOf(f.mode, b)
  }

  /** No ECC fill hits bytes that were loaded before it. */
  ghost predicate Safe(log: seq<Event>) {
    forall i, j :: 0 <= i < j < |log| && log[i].Load? && log[j].Ecc? ==> !Overlap(log[i], log[j])
  }

  ghost predicate Filled(log: seq<Event>, p: Place) {
    exists e: Event, a: nat :: e in log && e.Ecc? && e.start <= a < e.start + e.n && PlaceOf(e.mode, a) == p
  }

  /** Bits 0 and 1 of TcmEccInitStatus. */
  datatype EccStatus = EccStatus(r50: bool, r51: bool)

  datatype State = State(status: EccStatus, mode: RpuMode, log: seq<Event>)

  const COLD := State(EccStatus(false, false), Split, [])

  function ModeFor(cpu: bv32): RpuMode {
    if cpu == R5_L then Lockstep else Split
  }

  function FillStatus(cpu: bv32): EccStatus {
    if cpu == R5_0 then EccStatus(true, false)
    else if cpu == R5_1 then EccStatus(false, true)
    else EccStatus(true, true)
  }

  predicate NeedsFill(status: EccStatus, cpu: bv32) {
    if cpu == R5_0 then !status.r50 else if cpu == R5_1 then !status.r51 else status != EccStatus(true, true)
  }

  /** XFsbl_EccInit, one DMA transfer after another. */
  function Transfers(mode: RpuMode, start: nat, n: nat): (s: seq<Event>)
    decreases n
  {
    if n == 0 then []
    else
      var k := if n > ZDMA_MAX then ZDMA_MAX else n;
      [Ecc(mode, start, k)] + Transfers(mode, start + k, n - k)
  }

  /** No transfer is empty or longer than the limit, each begins where the one before it ended,
      and together they fill `n` bytes from `start`. */
  ghost predicate Tiles(t: seq<Event>, mode: RpuMode, start: nat, n: nat) {
    && (forall i :: 0 <= i < |t| ==> t[i].Ecc? && t[i].mode == mode && 0 < t[i].n <= ZDMA_MAX)
    && (forall i, j :: 0 <= i && j == i + 1 < |t| ==> t[j].start == t[i].start + t[i].n)
    && (if t == [] then n == 0 else t[0].start == start && t[|t| - 1].start + t[|t| - 1].n == start + n)
  }

  lemma {:induction false} TransfersTile(mode: RpuMode, start: nat, n: nat)
    ensures Tiles(Transfers(mode, start, n), mode, start, n)
    decreases n
  {
    hide Tiles;
    hide Transfers;
    TransfersStep(mode, start, n);
    if n == 0 {
      NoTile(mode, start);
    } else {
      var k := if n > ZDMA_MAX then ZDMA_MAX else n;
      TransfersTile(mode, start + k, n - k);
      OneMoreTile(Ecc(mode, start, k), Transfers(mode, start + k, n - k), n - k);
    }
  }

  /** The first transfer, and the rest. */
  lemma TransfersStep(mode: RpuMode, start: nat, n: nat)
    ensures var k := if n > ZDMA_MAX then ZDMA_MAX else n;
            Transfers(mode, start, n) ==
            if n == 0 then [] else [Ecc(mode, start, k)] + Transfers(mode, start + k, n - k)
  {
  }

  lemma NoTile(mode: RpuMode, start: nat)
    ensures Tiles([], mode, start, 0)
  {
  }

  lemma OneMoreTile(e: Event, rest: seq<Event>, n: nat)
    requires e.Ecc? && 0 < e.n <= ZDMA_MAX && Tiles(rest, e.mode, e.start + e.n, n)
    ensures Tiles([e] + rest, e.mode, e.start, e.n + n)
  {
  }

  /** XFsbl_TcmEccInit for one R5 or the lockstep pair. */
  function Fills(mode: RpuMode, running: bv32, cpu: bv32): seq<Event>
    requires IsR5(cpu)
  {
    var skip := if running != A53_0 && cpu != R5_1 then VECTORS else 0;
    if cpu == R5_L then Transfers(mode, R50_ATCM + skip, 4 * TCM_BANK - skip)
    else if cpu == R5_0 then Transfers(mode, R50_ATCM + skip, TCM_BANK - skip) + Transfers(mode, R50_BTCM, TCM_BANK)
    else Transfers(mode, R51_ATCM, TCM_BANK) + Transfers(mode, R51_BTCM, TCM_BANK)
  }

  /** Which bytes get a valid ECC: both banks of a single R5, the four of the lockstep pair, but
      not the first 32 bytes of R5-0 while the loader is not on A53-0. */
  lemma FillsExactly(mode: RpuMode, running: bv32, cpu: bv32, a: nat)
    requires IsR5(cpu)
    ensures (exists e :: e in Fills(mode, running, cpu) && e.start <= a < e.start + e.n) <==>
              if cpu == 0x600 then 0xFFE9_0000 <= a < 0xFFEA_0000 || 0xFFEB_0000 <= a < 0xFFEC_0000
              else
                && 0xFFE0_0000 + (if running == 0x100 then 0 else 32) <= a
                && (if cpu == 0x500 then a < 0xFFE1_0000 || 0xFFE2_0000 <= a < 0xFFE3_0000 else a < 0xFFE4_0000)
  {
    var skip := if running == 0x100 then 0 else 32;
    OneTransfer(mode, R50_ATCM + skip, 4 * TCM_BANK - skip);
    OneTransfer(mode, R50_ATCM + skip, TCM_BANK - skip);
    OneTransfer(mode, R50_BTCM, TCM_BANK);
    OneTransfer(mode, R51_ATCM, TCM_BANK);
    OneTransfer(mode, R51_BTCM, TCM_BANK);
    hide Transfers;
    var fills := Fills(mode, running, cpu);
    assert fills[0] in fills && fills[|fills| - 1] in fills;
  }

  /** The length check by numbers. */
  lemma TooLongExactly(cpu: bv32, address: nat, n: nat)
    ensures TooLong(cpu, address, n) <==>
              || (cpu in {0x500, 0x600} && (address < 0x1_0000 || 0x2_0000 <= address < 0x3_0000) && n > 0x1_0000)
              || (cpu == 0x700 && address < 0x4_0000 && n > 0x4_0000)
  {
  }

  /** The mode of the R5s follows the CPU of the last partition that came to its TCM, and never
      changes for a loader's own. */
  lemma ModeFollows(s: State, running: bv32, cpu: bv32, a: nat)
    ensures Configure(s, running, cpu, a).mode ==
            if running == cpu || !Recognised(cpu, a) then s.mode else if cpu == 0x700 then Lockstep else Split
  {
  }

  /** XFsbl_ConfigureMemory; the loader never switches the mode of the R5 it runs on. */
  function Configure(s: State, running: bv32, cpu: bv32, a: nat): State {
    if !Recognised(cpu, a) then s
    else
      var mode := if running != cpu then ModeFor(cpu) else s.mode;
      if NeedsFill(s.status, cpu) then State(FillStatus(cpu), mode, s.log + Fills(mode, running, cpu))
      else s.(mode := mode)
  }

  /** A partition to be copied: its CPU, the load address of its header and its length. */
  datatype Job = Job(cpu: bv32, address: nat, n: nat) {
    predicate InTcm() {
      InLowTcm(cpu, address)
    }

    /** It passed the checks, and a partition bound elsewhere stays clear of TCM. */
    predicate Proper() {
      && n > 0 && !TooLong(cpu, address, n)
      && (!InTcm() ==> address + n <= R50_ATCM || address >= R51_BTCM + TCM_BANK)
    }
  }

  function LoadJob(s: State, running: bv32, job: Job): State {
    var a := Remap(job.cpu, job.address);
    var s1 := Configure(s, running, job.cpu, a);
    s1.(log := s1.log + [Load(s1.mode, job.cpu, a, job.n)])
  }

  function Run(jobs: seq<Job>): State {
    if jobs == [] then COLD else LoadJob(Run(jobs[..|jobs| - 1]), A53_0, jobs[|jobs| - 1])
  }

  ghost predicate AllProper(jobs: seq<Job>) {
    forall i :: 0 <= i < |jobs| ==> jobs[i].Proper()
  }

  // ---------------------------------------------------------------- when nothing is overwritten

  /** The CPUs of the partitions loaded into TCM, in order. */
  function TcmCpus(jobs: seq<Job>): (cs: seq<bv32>)
    ensures forall i :: 0 <= i < |cs| ==> IsR5(cs[i])
  {
    if jobs == [] then []
    else
      var last := jobs[|jobs| - 1];
      TcmCpus(jobs[..|jobs| - 1]) + if last.InTcm() then [last.cpu] else []
  }

  /** Some CPU's partitions are interrupted by another CPU's. */
  ghost predicate Returns(cs: seq<bv32>) {
    exists i, j, k :: 0 <= i < j < k < |cs| && cs[i] == cs[k] && cs[i] != cs[j]
  }

  /** What an image must keep: a lockstep partition first, or no lockstep partition and the
      partitions of each R5 in one piece. */
  ghost predicate Kept(cs: seq<bv32>) {
    cs == [] || cs[0] == R5_L || (R5_L !in cs && !Returns(cs))
  }

  /** The status word after a kept run: it remembers the last fill only. */
  ghost predicate Remembers(s: State, cs: seq<bv32>) {
    s.status == (if cs == [] then COLD.status else if cs[0] == R5_L then FillStatus(R5_L) else FillStatus(cs[|cs| - 1]))
  }

  /** A load into the TCM of its CPU, as it can appear in the log. */
  predicate TcmLoad(e: Event) {
    && e.Load? && e.n > 0 && Recognised(e.cpu, e.start) && e.mode == ModeFor(e.cpu)
    && e.n <= (if e.cpu == R5_L then 4 * TCM_BANK else TCM_BANK)
  }

  predicate OutsideTcm(e: Event) {
    e.start + e.n <= R50_ATCM || e.start >= R51_BTCM + TCM_BANK
  }

  ghost predicate LogShows(log: seq<Event>, cs: seq<bv32>) {
    && (forall e <- log :: e.Load? ==> OutsideTcm(e) || (TcmLoad(e) && e.cpu in cs))
    && (forall c <- cs :: exists e <- log :: TcmLoad(e) && e.cpu == c)
  }

  /** The single fills a loader on the A53 does. */
  lemma FillsOf(cpu: bv32)
    requires IsR5(cpu)
    ensures Fills(ModeFor(cpu), A53_0, cpu) ==
            if cpu == R5_L then [Ecc(Lockstep, R50_ATCM, 4 * TCM_BANK)]
            else if cpu == R5_0 then [Ecc(Split, R50_ATCM, TCM_BANK), Ecc(Split, R50_BTCM, TCM_BANK)]
            else [Ecc(Split, R51_ATCM, TCM_BANK), Ecc(Split, R51_BTCM, TCM_BANK)]
  {
    OneTransfer(Lockstep, R50_ATCM, 4 * TCM_BANK);
    OneTransfer(Split, R50_ATCM, TCM_BANK);
    OneTransfer(Split, R50_BTCM, TCM_BANK);
    OneTransfer(Split, R51_ATCM, TCM_BANK);
    OneTransfer(Split, R51_BTCM, TCM_BANK);
  }

  lemma OneTransfer(mode: RpuMode, start: nat, n: nat)
    requires 0 < n <= ZDMA_MAX
    ensures Transfers(mode, start, n) == [Ecc(mode, start, n)]
  {
    assert Transfers(mode, start + n, 0) == [];
  }

  /** A load for the lockstep pair reaches a bank of this single R5: the banks alternate. */
  predicate Reaches(e: Event, cpu: bv32)
    requires e.start >= R50_ATCM
  {
    var from, to := e.start - R50_ATCM, e.start - R50_ATCM + e.n;
    if cpu == R5_0 then from < TCM_BANK || (from < 3 * TCM_BANK && to > 2 * TCM_BANK)
    else (from < 2 * TCM_BANK && to > TCM_BANK) || to > 3 * TCM_BANK
  }

  /** Which loads a fill hits: all of them for the lockstep pair; for a single R5 its own, and
      those of the lockstep pair that reach its banks. */
  lemma FillHits(e: Event, cpu: bv32)
    requires IsR5(cpu) && e.Load? && (OutsideTcm(e) || TcmLoad(e))
    ensures (exists f <- Fills(ModeFor(cpu), A53_0, cpu) :: Overlap(e, f)) <==>
              !OutsideTcm(e) && (cpu == R5_L || cpu == e.cpu || (e.cpu == R5_L && Reaches(e, cpu)))
  {
    FillsOf(cpu);
    if !OutsideTcm(e) && (cpu == R5_L || cpu == e.cpu) {
      var fills := Fills(ModeFor(cpu), A53_0, cpu);
      var b := if cpu == R5_L then LockstepAddress(PlaceOf(e.mode, e.start)) else e.start;
      var f := if cpu == R5_L || b < fills[0].start + TCM_BANK then fills[0] else fills[1];
      assert PlaceOf(f.mode, b) == PlaceOf(e.mode, e.start);
      assert f in fills && Overlap(e, f);
    } else if !OutsideTcm(e) && e.cpu == R5_L {
      LockstepHits(e, cpu);
    }
  }

  lemma LockstepHits(e: Event, cpu: bv32)
    requires (cpu == R5_0 || cpu == R5_1) && TcmLoad(e) && e.cpu == R5_L
    ensures (exists f <- Fills(ModeFor(cpu), A53_0, cpu) :: Overlap(e, f)) <==> Reaches(e, cpu)
  {
    FillsOf(cpu);
    var fills := Fills(ModeFor(cpu), A53_0, cpu);
    if Reaches(e, cpu) {
      var first := if cpu == R5_0 then 0 else TCM_BANK;
      var from := e.start - R50_ATCM;
      var low := from < first + TCM_BANK && from + e.n > first;
      var o := if low then (if from > first then from else first)
               else if from > first + 2 * TCM_BANK then from else first + 2 * TCM_BANK;
      var f := if low then fills[0] else fills[1];
      assert PlaceOf(e.mode, R50_ATCM + o) == PlaceOf(f.mode, f.start + o % TCM_BANK);
      assert f in fills && Overlap(e, f);
    }
  }

  /** The lockstep address of a TCM byte. */
  function LockstepAddress(p: Place): (a: nat)
    requires p.InTcm? && p.off < TCM_BANK
    ensures PlaceOf(Lockstep, a) == p && R50_ATCM <= a < R50_ATCM + 4 * TCM_BANK
  {
    R50_ATCM + p.off + TCM_BANK * match p.bank case A0 => 0 case A1 => 1 case B0 => 2 case B1 => 3
  }

  lemma SafeWithLoad(log: seq<Event>, e: Event)
    requires e.Load?
    ensures Safe(log + [e]) <==> Safe(log)
  {
    var after := log + [e];
    if Safe(after) {
      forall i, j | 0 <= i < j < |log| && log[i].Load? && log[j].Ecc?
        ensures !Overlap(log[i], log[j])
      {
        assert after[i] == log[i] && after[j] == log[j];
      }
    }
  }

  ghost predicate Hits(log: seq<Event>, fills: seq<Event>) {
    exists e <- log, f <- fills :: e.Load? && Overlap(e, f)
  }

  lemma SafeWithFills(log: seq<Event>, fills: seq<Event>)
    requires forall f <- fills :: f.Ecc?
    ensures Safe(log + fills) <==> Safe(log) && !Hits(log, fills)
  {
    var after := log + fills;
    if Safe(after) {
      forall i, j | 0 <= i < j < |log| && log[i].Load? && log[j].Ecc?
        ensures !Overlap(log[i], log[j])
      {
        assert after[i] == log[i] && after[j] == log[j];
      }
      forall e, f | e in log && f in fills && e.Load?
        ensures !Overlap(e, f)
      {
        var i :| 0 <= i < |log| && log[i] == e;
        var j :| 0 <= j < |fills| && fills[j] == f;
        assert after[i] == e && after[|log| + j] == f;
      }
    }
    if Safe(log) && !Hits(log, fills) {
      forall i, j | 0 <= i < |log| <= j < |after| && after[i].Load?
        ensures !Overlap(after[i], after[j])
      {
        assert after[i] in log && after[j] == fills[j - |log|];
      }
      forall i | |log| <= i < |after|
        ensures after[i].Ecc?
      {
        assert after[i] == fills[i - |log|];
      }
    }
  }

  /** One more TCM partition keeps the order exactly when it continues, or is the first of its
      CPU, unless a lockstep partition came first. */
  lemma KeptStep(cs: seq<bv32>, c: bv32)
    ensures Kept(cs + [c]) <==>
              Kept(cs) && (cs == [] || cs[0] == R5_L || (c != R5_L && (c == cs[|cs| - 1] || c !in cs)))
  {
    var after := cs + [c];
    if cs != [] && cs[0] != R5_L {
      assert after[0] == cs[0] && after[|cs|] == c;
      assert R5_L in after <==> R5_L in cs || c == R5_L;
      ReturnsStep(cs, c);
    } else if cs != [] {
      assert after[0] == cs[0];
    } else {
      assert |after| == 1;
    }
  }

  lemma ReturnsStep(cs: seq<bv32>, c: bv32)
    requires cs != []
    ensures Returns(cs + [c]) <==> Returns(cs) || (c != cs[|cs| - 1] && c in cs)
  {
    var after := cs + [c];
    if Returns(cs) {
      var i, j, k :| 0 <= i < j < k < |cs| && cs[i] == cs[k] && cs[i] != cs[j];
      assert after[i] == after[k] && after[i] != after[j];
    } else if c != cs[|cs| - 1] && c in cs {
      var i :| 0 <= i < |cs| && cs[i] == c;
      assert after[i] == after[|cs|] && after[i] != after[|cs| - 1];
    }
    forall i, j, k | 0 <= i < j < k < |after| && after[i] == after[k] && after[i] != after[j]
      ensures Returns(cs) || (c != cs[|cs| - 1] && c in cs)
    {
      if k < |cs| {
        assert cs[i] == cs[k] && cs[i] != cs[j];
      } else if c == cs[|cs| - 1] {
        assert cs[i] == cs[|cs| - 1] && cs[i] != cs[j];
      } else {
        assert cs[i] == c;
      }
    }
  }

  /** In a kept run, the fill for CPU `c` hits earlier bytes exactly when it breaks the order. */
  lemma FillBreaksOrder(s: State, cs: seq<bv32>, c: bv32)
    requires IsR5(c) && LogShows(s.log, cs) && Kept(cs) && Remembers(s, cs)
    requires forall i :: 0 <= i < |cs| ==> IsR5(cs[i])
    ensures NeedsFill(s.status, c) && Hits(s.log, Fills(ModeFor(c), A53_0, c)) <==> !Kept(cs + [c])
    ensures Kept(cs + [c]) ==> (if NeedsFill(s.status, c) then FillStatus(c) else s.status) ==
                               FillStatus(if cs != [] && cs[0] == R5_L then R5_L else c)
  {
    KeptStep(cs, c);
    var fills := Fills(ModeFor(c), A53_0, c);
    if cs == [] {
      forall e, f | e in s.log && f in fills && e.Load?
        ensures !Overlap(e, f)
      {
        FillHits(e, c);
      }
    } else if cs[0] != R5_L {
      assert R5_L !in cs;
      if c == R5_L || c in cs {
        var d := if c == R5_L then cs[0] else c;
        assert d in cs;
        var e :| e in s.log && TcmLoad(e) && e.cpu == d;
        FillHits(e, c);
        assert Hits(s.log, fills);
      } else {
        forall e, f | e in s.log && f in fills && e.Load?
          ensures !Overlap(e, f)
        {
          FillHits(e, c);
        }
      }
    }
  }

  lemma LogGrows(log: seq<Event>, cs: seq<bv32>, fills: seq<Event>, e: Event, cs': seq<bv32>)
    requires LogShows(log, cs) && (forall f <- fills :: f.Ecc?) && e.Load?
    requires if TcmLoad(e) then cs' == cs + [e.cpu] else OutsideTcm(e) && cs' == cs
    ensures LogShows(log + fills + [e], cs')
  {
    var after := log + fills + [e];
    forall c <- cs'
      ensures exists x <- after :: TcmLoad(x) && x.cpu == c
    {
      if c in cs {
        var x :| x in log && TcmLoad(x) && x.cpu == c;
        assert x in after;
      } else {
        assert e in after;
      }
    }
  }

  /** What one job adds for a loader on the A53. */
  lemma JobAdds(s: State, job: Job)
    requires job.Proper()
    ensures var mode := if job.InTcm() then ModeFor(job.cpu) else s.mode;
            var e := Load(mode, job.cpu, Remap(job.cpu, job.address), job.n);
            var needed := job.InTcm() && NeedsFill(s.status, job.cpu);
            var fills := if needed then Fills(ModeFor(job.cpu), A53_0, job.cpu) else [];
            && LoadJob(s, A53_0, job).log == s.log + fills + [e]
            && LoadJob(s, A53_0, job).status == (if fills != [] then FillStatus(job.cpu) else s.status)
            && (if job.InTcm() then TcmLoad(e) else OutsideTcm(e))
            && forall f <- fills :: f.Ecc?
  {
    if job.InTcm() {
      FillsOf(job.cpu);
    }
  }

  /** No fill overwrites loaded bytes exactly when the image keeps the order. */
  lemma {:induction false} KeptIsSafe(jobs: seq<Job>)
    requires AllProper(jobs)
    ensures Safe(Run(jobs).log) <==> Kept(TcmCpus(jobs))
    ensures Kept(TcmCpus(jobs)) ==> Remembers(Run(jobs), TcmCpus(jobs))
    ensures LogShows(Run(jobs).log, TcmCpus(jobs))
  {
    hide Safe;
    hide Kept;
    hide LogShows;
    if jobs != [] {
      KeptIsSafe(jobs[..|jobs| - 1]);
      JobKeepsOrder(Run(jobs[..|jobs| - 1]), TcmCpus(jobs[..|jobs| - 1]), jobs[|jobs| - 1]);
    } else {
      NoJobs();
    }
  }

  lemma NoJobs()
    ensures Safe(COLD.log) && Kept([]) && LogShows(COLD.log, [])
  {
  }

  /** One more job. */
  lemma JobKeepsOrder(s: State, cs: seq<bv32>, job: Job)
    requires job.Proper() && LogShows(s.log, cs) && forall i :: 0 <= i < |cs| ==> IsR5(cs[i])
    requires (Safe(s.log) <==> Kept(cs)) && (Kept(cs) ==> Remembers(s, cs))
    ensures var t, after := LoadJob(s, A53_0, job), cs + if job.InTcm() then [job.cpu] else [];
            (Safe(t.log) <==> Kept(after)) && (Kept(after) ==> Remembers(t, after)) && LogShows(t.log, after)
  {
    hide Safe;
    hide LogShows;
    hide LoadJob;
    var after := cs + if job.InTcm() then [job.cpu] else [];
    var e := Load(if job.InTcm() then ModeFor(job.cpu) else s.mode, job.cpu, Remap(job.cpu, job.address), job.n);
    var fills := if job.InTcm() && NeedsFill(s.status, job.cpu) then Fills(ModeFor(job.cpu), A53_0, job.cpu) else [];
    JobAdds(s, job);
    LogGrows(s.log, cs, fills, e, after);
    SafeWithFills(s.log, fills);
    SafeWithLoad(s.log + fills, e);
    if job.InTcm() {
      KeptStep(cs, job.cpu);
      if Kept(cs) {
        FillBreaksOrder(s, cs, job.cpu);
      }
    }
  }

  /** Coming back to R5-0 after R5-1 is enough: the second fill of R5-0 wipes its first bytes. */
  lemma ComingBackDestroys(n: nat)
    requires 0 < n <= TCM_BANK
    ensures var jobs := [Job(R5_0, 0, n), Job(R5_1, 0, n), Job(R5_0, BTCM_LOW, n)];
            AllProper(jobs) && TcmCpus(jobs) == [R5_0, R5_1, R5_0] && !Safe(Run(jobs).log)
  {
    var a, b, c := Job(R5_0, 0, n), Job(R5_1, 0, n), Job(R5_0, BTCM_LOW, n);
    TcmCpusStep([], a);
    TcmCpusStep([a], b);
    TcmCpusStep([a, b], c);
    assert [] + [a] == [a] && [a] + [b] == [a, b] && [a, b] + [c] == [a, b, c];
    var cs := TcmCpus([a, b, c]);
    assert cs == [R5_0, R5_1, R5_0] && cs[0] == cs[2] && cs[0] != cs[1];
    KeptIsSafe([a, b, c]);
  }

  lemma TcmCpusStep(jobs: seq<Job>, job: Job)
    ensures TcmCpus(jobs + [job]) == TcmCpus(jobs) + if job.InTcm() then [job.cpu] else []
  {
    assert (jobs + [job])[..|jobs|] == jobs;
  }

  /** The layout the loader was written for: each R5 in one piece, split and lockstep not
      mixed. */
  ghost predicate Contiguous(cs: seq<bv32>) {
    !Returns(cs) && (R5_L !in cs || forall c <- cs :: c == R5_L)
  }

  lemma ContiguousIsSafe(jobs: seq<Job>)
    requires AllProper(jobs) && Contiguous(TcmCpus(jobs))
    ensures Safe(Run(jobs).log)
  {
    var cs := TcmCpus(jobs);
    assert cs == [] || cs[0] in cs;
    KeptIsSafe(jobs);
  }

  /** The build that fills all banks before anything is loaded (XFsbl_TcmInit on the A53). */
  function EagerRun(jobs: seq<Job>): State {
    if jobs == [] then State(FillStatus(R5_L), Lockstep, Transfers(Lockstep, R50_ATCM, 4 * TCM_BANK))
    else LoadJob(EagerRun(jobs[..|jobs| - 1]), A53_0, jobs[|jobs| - 1])
  }

  /** There no order matters: nothing is ever filled again. */
  lemma {:induction false} EagerIsSafe(jobs: seq<Job>)
    requires AllProper(jobs)
    ensures Safe(EagerRun(jobs).log) && EagerRun(jobs).status == FillStatus(R5_L)
  {
    if jobs == [] {
      OneTransfer(Lockstep, R50_ATCM, 4 * TCM_BANK);
    } else {
      var s, job := EagerRun(jobs[..|jobs| - 1]), jobs[|jobs| - 1];
      EagerIsSafe(jobs[..|jobs| - 1]);
      JobAdds(s, job);
      var e := Load(if job.InTcm() then ModeFor(job.cpu) else s.mode, job.cpu, Remap(job.cpu, job.address), job.n);
      assert s.log + [] + [e] == s.log + [e];
      SafeWithLoad(s.log, e);
    }
  }

  // ---------------------------------------------------------------- filled before use

  /** The partition ends inside the bank (or the four combined banks) it starts in. */
  predicate Fits(job: Job) {
    job.address + job.n <= (if job.cpu == R5_L then 4 * TCM_BANK
                            else if job.address < TCM_BANK then TCM_BANK
                            else BTCM_LOW + TCM_BANK)
  }

  ghost predicate BankFilled(log: seq<Event>, bank: Bank) {
    forall off: nat :: off < TCM_BANK ==> Filled(log, InTcm(bank, off))
  }

  /** A set status bit means what it says, and fills stay inside the banks. */
  ghost predicate Truthful(s: State) {
    && (s.status.r50 ==> BankFilled(s.log, A0) && BankFilled(s.log, B0))
    && (s.status.r51 ==> BankFilled(s.log, A1) && BankFilled(s.log, B1))
    && forall e <- s.log :: e.Ecc? ==> OnlyTcm(e)
  }

  ghost predicate OnlyTcm(e: Event) {
    forall a: nat :: e.start <= a < e.start + e.n ==> PlaceOf(e.mode, a).InTcm?
  }

  lemma FilledStays(log: seq<Event>, more: seq<Event>, bank: Bank)
    requires BankFilled(log, bank)
    ensures BankFilled(log + more, bank)
  {
    forall off: nat | off < TCM_BANK
      ensures Filled(log + more, InTcm(bank, off))
    {
      assert Filled(log, InTcm(bank, off));
      var e: Event, a: nat :| e in log && e.Ecc? && e.start <= a < e.start + e.n
          && PlaceOf(e.mode, a) == InTcm(bank, off);
      assert e in log + more;
    }
  }

  /** One fill of a CPU fills its banks and nothing else. */
  lemma FillFills(log: seq<Event>, cpu: bv32, bank: Bank)
    requires IsR5(cpu)
    ensures cpu == R5_L || (cpu == R5_0 && bank in {A0, B0}) || (cpu == R5_1 && bank in {A1, B1}) ==>
              BankFilled(log + Fills(ModeFor(cpu), A53_0, cpu), bank)
    ensures forall e <- Fills(ModeFor(cpu), A53_0, cpu) :: e.Ecc? && OnlyTcm(e)
  {
    FillsOf(cpu);
    var fills := Fills(ModeFor(cpu), A53_0, cpu);
    if cpu == R5_L || (cpu == R5_0 && bank in {A0, B0}) || (cpu == R5_1 && bank in {A1, B1}) {
      forall off: nat | off < TCM_BANK
        ensures Filled(log + fills, InTcm(bank, off))
      {
        var e := if cpu == R5_L || bank in {A0, A1} then fills[0] else fills[1];
        var a := if cpu == R5_L then LockstepAddress(InTcm(bank, off)) else e.start + off;
        assert e in log + fills && PlaceOf(e.mode, a) == InTcm(bank, off);
      }
    }
  }

  lemma ConfigureTruthful(s: State, cpu: bv32, a: nat)
    requires Truthful(s)
    ensures Truthful(Configure(s, A53_0, cpu, a))
  {
    if Recognised(cpu, a) && NeedsFill(s.status, cpu) {
      FillFills(s.log, cpu, A0);
      FillFills(s.log, cpu, A1);
      FillFills(s.log, cpu, B0);
      FillFills(s.log, cpu, B1);
    }
  }

  lemma {:induction false} RunTruthful(jobs: seq<Job>)
    requires AllProper(jobs)
    ensures Truthful(Run(jobs))
  {
    if jobs != [] {
      var s, job := Run(jobs[..|jobs| - 1]), jobs[|jobs| - 1];
      RunTruthful(jobs[..|jobs| - 1]);
      var a := Remap(job.cpu, job.address);
      ConfigureTruthful(s, job.cpu, a);
      var s1 := Configure(s, A53_0, job.cpu, a);
      var e := Load(s1.mode, job.cpu, a, job.n);
      if s1.status.r50 {
        FilledStays(s1.log, [e], A0);
        FilledStays(s1.log, [e], B0);
      }
      if s1.status.r51 {
        FilledStays(s1.log, [e], A1);
        FilledStays(s1.log, [e], B1);
      }
    }
  }

  /** Every byte from `a` on goes to a place that was filled before. */
  ghost predicate Ready(s: State, a: nat, n: nat) {
    forall x: nat :: a <= x < a + n ==> Filled(s.log, PlaceOf(s.mode, x))
  }

  /** Whatever was loaded before, the bytes of a TCM partition arrive in filled memory exactly
      when the partition ends inside the bank it starts in; the length check alone does not
      see to that. */
  lemma ArrivesReady(jobs: seq<Job>, job: Job)
    requires AllProper(jobs) && job.Proper() && job.InTcm()
    ensures var a := Remap(job.cpu, job.address);
            Ready(Configure(Run(jobs), A53_0, job.cpu, a), a, job.n) <==> Fits(job)
  {
    var a := Remap(job.cpu, job.address);
    RunTruthful(jobs);
    ConfigureTruthful(Run(jobs), job.cpu, a);
    var s := Configure(Run(jobs), A53_0, job.cpu, a);
    Landing(job);
    if Fits(job) {
      forall x: nat | a <= x < a + job.n
        ensures Filled(s.log, PlaceOf(s.mode, x))
      {
        var p := PlaceOf(s.mode, x);
        assert InBankOf(p, job.cpu) && BankFilled(s.log, p.bank);
      }
    } else {
      var x: nat :| a <= x < a + job.n && PlaceOf(ModeFor(job.cpu), x).Elsewhere?;
      NeverFilled(s, x);
    }
  }

  predicate InBankOf(p: Place, cpu: bv32) {
    p.InTcm? && p.off < TCM_BANK && (cpu == R5_0 ==> p.bank in {A0, B0}) && (cpu == R5_1 ==> p.bank in {A1, B1})
  }

  /** Where the bytes of a TCM partition land. */
  lemma Landing(job: Job)
    requires job.Proper() && job.InTcm()
    ensures var a, mode := Remap(job.cpu, job.address), ModeFor(job.cpu);
            if Fits(job) then forall x: nat :: a <= x < a + job.n ==> InBankOf(PlaceOf(mode, x), job.cpu)
            else exists x: nat :: a <= x < a + job.n && PlaceOf(mode, x).Elsewhere?
  {
    if !Fits(job) {
      var a := Remap(job.cpu, job.address);
      var beyond := if job.cpu == R5_L then R50_ATCM + 4 * TCM_BANK else a - job.address % TCM_BANK + TCM_BANK;
      assert a <= beyond < a + job.n && PlaceOf(ModeFor(job.cpu), beyond).Elsewhere?;
    }
  }

  lemma NeverFilled(s: State, a: nat)
    requires Truthful(s) && PlaceOf(s.mode, a).Elsewhere?
    ensures !Filled(s.log, PlaceOf(s.mode, a))
  {
  }
}
