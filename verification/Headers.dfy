/** Partition headers: attribute fields, and the checks made before a partition is loaded. */
module Headers {
  // destination CPU field
  const CPU_NONE: bv32 := 0x000
  const A53_0: bv32 := 0x100
  const A53_1: bv32 := 0x200
  const A53_2: bv32 := 0x300
  const A53_3: bv32 := 0x400
  const R5_0: bv32 := 0x500
  const R5_1: bv32 := 0x600
  const R5_L: bv32 := 0x700
  const PMU: bv32 := 0x800

  // destination device field
  const DEV_PS: bv32 := 0x10
  const DEV_PL: bv32 := 0x20
  const DEV_PMU: bv32 := 0x30

  const OWNER_FSBL: bv32 := 0
  const TCM_BANK: nat := 0x10000
  const BTCM_LOW: nat := 0x20000
  const PS_DDR_END: nat := 0x7FFFFFFF
  const OCM_START: nat := 0xFFFEA000
  const OCM_END: nat := 0xFFFFFFFF
  const PMU_RAM_START: nat := 0xFFDC0000
  const PMU_RAM_END: nat := 0xFFDDFFFF
  const QSPI_LINEAR_START: nat := 0xC0000000
  const QSPI_LINEAR_END: nat := 0xDFFFFFFF
  const DUMMY_PL_ADDR: nat := 0xFFFFFFFF

  datatype Reset = SystemReset | PsOnlyReset | ApuOnlyReset

  datatype Check =
    | Valid | NotOwner | PhChecksumFailed | XipAuthEncPresent | XipExecAddress | PartitionLength
    | AddressError | InvalidChecksumType | InvalidCpuType | LockstepCpuType | InvalidDestDevice

  datatype Header = Header(
    encWords: nat, unencWords: nat, totalWords: nat, next: nat, execAddr: nat, loadAddr: nat,
    attr: bv32, checksumOk: bool)
  {
    function Owner(): bv32 { attr & 0x30000 }
    function Cpu(): bv32 { attr & 0xF00 }
    function Device(): bv32 { attr & 0x70 }
    function ExecState(): bv32 { attr & 0x8 }
    function ChecksumType(): bv32 { attr & 0x7000 }
    predicate Encrypted() { attr & 0x80 == 0x80 }
    predicate Authenticated() { attr & 0x8000 == 0x8000 }

    /** Something about the partition is checked after it is copied. */
    predicate Secured() {
      Authenticated() || Encrypted() || ChecksumType() != 0
    }

    /** No destination CPU means the one that runs the boot loader. */
    function Target(running: bv32): bv32 {
      if Cpu() == CPU_NONE then running else Cpu()
    }

    predicate Xip() {
      unencWords == 0
    }
  }

  predicate IsA53(cpu: bv32) {
    A53_0 <= cpu <= A53_3
  }

  predicate IsR5(cpu: bv32) {
    cpu == R5_0 || cpu == R5_1 || cpu == R5_L
  }

  /** The processors the boot loader runs on. */
  predicate Running(cpu: bv32) {
    cpu in {A53_0, R5_0, R5_L}
  }

  predicate InLowTcm(cpu: bv32, address: nat) {
    if cpu == R5_0 || cpu == R5_1 then address < TCM_BANK || BTCM_LOW <= address < BTCM_LOW + TCM_BANK
    else cpu == R5_L && address < 4 * TCM_BANK
  }

  /** XFsbl_CheckValidMemoryAddress. */
  predicate ValidAddress(address: nat, cpu: bv32, device: bv32) {
    || (cpu == PMU && PMU_RAM_START <= address < PMU_RAM_END)
    || InLowTcm(cpu, address)
    || address <= PS_DDR_END
    || OCM_START <= address < OCM_END
    || (device == DEV_PL && address == DUMMY_PL_ADDR)
  }

  /** How the three lengths of a header must compare. */
  predicate LengthsAgree(h: Header) {
    && (if h.Encrypted() then h.unencWords < h.encWords else h.unencWords == h.encWords)
    && (if h.Authenticated() then h.encWords < h.totalWords else h.encWords == h.totalWords)
  }

  /** XFsbl_ValidatePartitionHeader. */
  function ValidateHeader(h: Header, running: bv32, reset: Reset): Check {
    var cpu := h.Target(running);
    if reset == ApuOnlyReset && !IsA53(h.Cpu()) then NotOwner
    else if h.Xip() && (h.Authenticated() || h.Encrypted()) then XipAuthEncPresent
    else if h.Xip() && !(QSPI_LINEAR_START <= h.execAddr <= QSPI_LINEAR_END) then XipExecAddress
    else if !LengthsAgree(h) then PartitionLength
    else if !ValidAddress(h.loadAddr, cpu, h.Device()) then AddressError
    else if running in {R5_0, R5_L} && cpu in {A53_0, A53_1, A53_2, A53_3} && h.loadAddr < 0x80000 then AddressError
    else if h.ChecksumType() !in {0x0000, 0x1000, 0x3000} then InvalidChecksumType
    else if cpu > PMU then InvalidCpuType
    else if (cpu in {R5_0, R5_1} && running == R5_L) || (cpu == R5_L && running == R5_0) then LockstepCpuType
    else if h.Device() > DEV_PMU then InvalidDestDevice
    else Valid
  }

  /** XFsbl_PartitionHeaderValidation. */
  function ValidatePartition(h: Header, running: bv32, reset: Reset): Check {
    if !h.checksumOk then PhChecksumFailed
    else if h.Owner() != OWNER_FSBL then NotOwner
    else ValidateHeader(h, running, reset)
  }

  const CPU_IDS: set<bv32> := {A53_0, A53_1, A53_2, A53_3, R5_0, R5_1, R5_L, PMU}

  lemma CpuField(h: Header)
    ensures h.Cpu() <= PMU ==> h.Cpu() == CPU_NONE || h.Cpu() in CPU_IDS
    ensures h.Cpu() & 0xF00 == h.Cpu() && h.ExecState() & 0x8 == h.ExecState()
  {
    var c := h.attr & 0xF00;
    assert c <= 0x800 ==> c in {0x000, 0x100, 0x200, 0x300, 0x400, 0x500, 0x600, 0x700, 0x800};
  }

  /** A partition that passes targets one of eight CPUs. */
  lemma TargetIsCpu(h: Header, running: bv32, reset: Reset)
    requires Running(running) && ValidatePartition(h, running, reset) == Valid
    ensures h.Target(running) in CPU_IDS && |CPU_IDS| == 8
  {
    CpuField(h);
  }

  /** The attribute word from its fields, least significant bit first: execution state at 3,
      device at 4, encryption at 7, CPU at 8, checksum type at 12, authentication at 15, owner
      at 16. */
  function Attributes(exec: bv32, device: bv32, enc: bv32, cpu: bv32, checksum: bv32, auth: bv32, owner: bv32): bv32 {
    (exec << 3) | (device << 4) | (enc << 7) | (cpu << 8) | (checksum << 12) | (auth << 15) | (owner << 16)
  }

  /** Each field can be read back from the attribute word, where the constants name its values. */
  lemma FieldsReadBack(h: Header, exec: bv32, device: bv32, enc: bv32, cpu: bv32, checksum: bv32, auth: bv32,
                       owner: bv32)
    requires exec < 2 && device < 8 && enc < 2 && cpu < 16 && checksum < 8 && auth < 2 && owner < 4
    requires h.attr == Attributes(exec, device, enc, cpu, checksum, auth, owner)
    ensures h.ExecState() == exec << 3 && h.Device() == device << 4 && (h.Encrypted() <==> enc == 1)
    ensures h.Cpu() == cpu << 8 && h.ChecksumType() == checksum << 12 && (h.Authenticated() <==> auth == 1)
    ensures h.Owner() == owner << 16
    ensures forall running :: h.Target(running) == if cpu == 0 then running else cpu << 8
  {
    ReadExec(exec, device, enc, cpu, checksum, auth, owner);
    ReadCpu(exec, device, enc, cpu, checksum, auth, owner);
    ReadOwner(exec, device, enc, cpu, checksum, auth, owner);
    assert cpu << 8 == 0 <==> cpu == 0;
  }

  lemma ReadExec(exec: bv32, device: bv32, enc: bv32, cpu: bv32, checksum: bv32, auth: bv32, owner: bv32)
    requires exec < 2 && device < 8 && enc < 2 && cpu < 16 && checksum < 8 && auth < 2 && owner < 4
    ensures var a := Attributes(exec, device, enc, cpu, checksum, auth, owner);
            a & 0x8 == exec << 3 && a & 0x70 == device << 4 && (a & 0x80 == 0x80 <==> enc == 1)
  {
  }

  lemma ReadCpu(exec: bv32, device: bv32, enc: bv32, cpu: bv32, checksum: bv32, auth: bv32, owner: bv32)
    requires exec < 2 && device < 8 && enc < 2 && cpu < 16 && checksum < 8 && auth < 2 && owner < 4
    ensures var a := Attributes(exec, device, enc, cpu, checksum, auth, owner);
            a & 0xF00 == cpu << 8 && a & 0x7000 == checksum << 12
  {
  }

  lemma ReadOwner(exec: bv32, device: bv32, enc: bv32, cpu: bv32, checksum: bv32, auth: bv32, owner: bv32)
    requires exec < 2 && device < 8 && enc < 2 && cpu < 16 && checksum < 8 && auth < 2 && owner < 4
    ensures var a := Attributes(exec, device, enc, cpu, checksum, auth, owner);
            (a & 0x8000 == 0x8000 <==> auth == 1) && a & 0x30000 == owner << 16
  {
  }

  /** The addresses a partition may be loaded to. */
  lemma ValidAddressExactly(address: nat, cpu: bv32, device: bv32)
    ensures ValidAddress(address, cpu, device) <==>
              || address < 0x8000_0000
              || 0xFFFE_A000 <= address < 0xFFFF_FFFF
              || (cpu == 0x800 && 0xFFDC_0000 <= address < 0xFFDD_FFFF)
              || (device == 0x20 && address == 0xFFFF_FFFF)
  {
  }

  /** The low addresses of the R5 memories. */
  lemma LowTcmExactly(cpu: bv32, address: nat)
    ensures InLowTcm(cpu, address) <==>
              || (cpu in {0x500, 0x600} && (address < 0x1_0000 || 0x2_0000 <= address < 0x3_0000))
              || (cpu == 0x700 && address < 0x4_0000)
  {
  }

  /** A partition is somebody else's, or passes all checks, exactly under these conditions. */
  lemma AcceptedExactly(h: Header, running: bv32, reset: Reset)
    ensures ValidatePartition(h, running, reset) == NotOwner <==>
              h.checksumOk && (h.Owner() != 0 || (reset == ApuOnlyReset && h.Cpu() !in {0x100, 0x200, 0x300, 0x400}))
    ensures ValidatePartition(h, running, reset) == Valid <==>
              && h.checksumOk && h.Owner() == 0
              && (reset == ApuOnlyReset ==> h.Cpu() in {0x100, 0x200, 0x300, 0x400})
              && (h.unencWords == 0 ==>
                    !h.Authenticated() && !h.Encrypted() && 0xC000_0000 <= h.execAddr <= 0xDFFF_FFFF)
              && (if h.Encrypted() then h.unencWords < h.encWords else h.unencWords == h.encWords)
              && (if h.Authenticated() then h.encWords < h.totalWords else h.encWords == h.totalWords)
              && ValidAddress(h.loadAddr, h.Target(running), h.Device())
              && (running in {0x500, 0x700} && h.Target(running) in {0x100, 0x200, 0x300, 0x400} ==>
                    h.loadAddr >= 0x8_0000)
              && h.ChecksumType() in {0x0000, 0x1000, 0x3000}
              && h.Target(running) <= 0x800 && h.Device() <= 0x30
              && !(h.Target(running) in {0x500, 0x600} && running == 0x700)
              && !(h.Target(running) == 0x700 && running == 0x500)
  {
    hide ValidAddress;
    CpuMultiple(h.attr);
  }

  lemma CpuMultiple(attr: bv32)
    ensures var c := attr & 0xF00; 0x100 <= c <= 0x400 <==> c in {0x100, 0x200, 0x300, 0x400}
  {
  }
}
