/** The boot loader's main loop and the hand-off of the loaded applications to their CPUs.
    With early hand-off compiled in, an R5 is started as soon as its last partition is
    loaded; a static index remembers how far the hand-off table has been handled. */
module StageMachine {
  import opened Common
  import opened Headers
  import opened PartitionLoad
  import Tcm

  /** What a run does that others can see. */
  datatype Action =
    | InitFailed               // before the first partition
    | Loaded(partition: nat)   // a partition load that succeeded
    | LoadFailed(partition: nat)
    | Released(cpu: bv32)      // a CPU taken out of reset
    | Regular                  // the hand-off that precedes the exit begins
    | HandoffFailed
    | Exited(to: Option<Entry>) // the loader gives up its CPU, to the application of this entry
    | LockedDown

  type History = seq<Action>

  datatype Stage = Stage1 | Stage2 | Stage3 | Stage4 | StageErr | StageDefault
  datatype BootDevice = Flash | Jtag | BadDevice
  datatype Handed = ContinueLoad | ContinueOthers | Failed | Gone

  /** XFsbl_CheckEarlyHandoffCpu; `early` is the build option. */
  predicate NeedsEarly(early: bool, cpu: bv32) {
    early && IsR5(cpu)
  }

  /** Build and boot parameters; the hardware's answers are functions of time. */
  datatype Setup = Setup(
    running: bv32, reset: Reset, early: bool, execState: bv32, device: BootDevice,
    initOk: bool, platformOk: nat -> bool, cpuOk: nat -> bool, world: World)

  // ---------------------------------------------------------------- actions of a history

  function Loads(log: History): seq<nat> {
    if log == [] then []
    else
      var last := log[|log| - 1];
      Loads(log[..|log| - 1]) + if last.Loaded? || last.LoadFailed? then [last.partition] else []
  }

  function CountUp(n: nat): (s: seq<nat>)
    ensures |s| == n
  {
    seq(n, i => i + 1)
  }

  lemma LoadsStep(log: History, a: Action)
    ensures Loads(log + [a]) == Loads(log) + if a.Loaded? || a.LoadFailed? then [a.partition] else []
  {
    assert (log + [a])[..|log|] == log;
  }

  /** Partitions 1, 2, ... were loaded in this order, once each; only the last one may have
      failed; the regular hand-off starts only after the last partition of the image, unless
      the boot is over JTAG. */
  ghost predicate InOrder(log: History, n: nat, jtag: bool) {
    && (exists m :: 0 <= m < n && Loads(log) == CountUp(m))
    && (forall i :: 0 <= i < |log| && log[i].LoadFailed? ==> NoMoreLoads(log, i))
    && (forall i :: 0 <= i < |log| && log[i].Regular? ==> jtag || Loads(log[..i]) == CountUp(n - 1))
  }

  ghost predicate NoMoreLoads(log: History, i: nat) {
    forall j :: i < j < |log| ==> log[j] == LockedDown
  }

  // ---------------------------------------------------------------- the table during a run

  /** The hand-off table after partitions 1 .. p - 1. */
  function TableTo(image: seq<Header>, p: nat, u: Setup): seq<Entry>
    requires 1 <= p <= |image|
  {
    Table(image[1..p], u.running, u.reset)
  }

  lemma TableStep(image: seq<Header>, p: nat, u: Setup)
    requires 1 <= p < |image|
    ensures TableTo(image, p + 1, u) == TableAfter(TableTo(image, p, u), image[p], u.running, u.reset)
  {
    var part := image[1..p + 1];
    assert part[..|part| - 1] == image[1..p] && part[|part| - 1] == image[p];
  }

  lemma MemoryStep(image: seq<Header>, p: nat, u: Setup)
    requires 1 <= p < |image|
    ensures TcmState(image[1..p + 1], u.running, u.reset) ==
            TcmAfter(TcmState(image[1..p], u.running, u.reset), image[p], u.running, u.reset)
  {
    var part := image[1..p + 1];
    assert part[..|part| - 1] == image[1..p] && part[|part| - 1] == image[p];
  }

  /** XFsbl_CheckEarlyHandoff. */
  predicate EarlyDue(image: seq<Header>, p: nat, u: Setup)
    requires p < |image|
  {
    && u.early
    && NeedsEarly(u.early, Effective(image[p], u))
    && Effective(image[p], u) != u.running
    && (p + 1 >= |image| || Effective(image[p + 1], u) != Effective(image[p], u))
  }

  /** The destination CPU for that check; only PS partitions default to the running CPU. */
  function Effective(h: Header, u: Setup): bv32 {
    if h.Cpu() == CPU_NONE && (h.Device() == DEV_PS || h.Device() == 0) then u.running else h.Cpu()
  }

  /** When an early hand-off is due: in the build that has it, after a partition for an R5 other
      than the loader's, unless the next partition is for the same one. The default CPU plays no
      part. */
  lemma EarlyDueExactly(image: seq<Header>, p: nat, u: Setup)
    requires p < |image|
    ensures EarlyDue(image, p, u) <==>
              && u.early && image[p].Cpu() in {0x500, 0x600, 0x700} && image[p].Cpu() != u.running
              && (p + 1 < |image| ==> image[p + 1].Cpu() != image[p].Cpu())
  {
    hide Header.Device;
  }

  /** The first entry from `e` on that wants an early hand-off. */
  function FirstEarly(table: seq<Entry>, e: nat, u: Setup): (k: nat)
    ensures e <= |table| ==> e <= k <= |table|
    ensures forall i :: e <= i < k && i < |table| ==> !NeedsEarly(u.early, table[i].Cpu())
    ensures k < |table| ==> NeedsEarly(u.early, table[k].Cpu())
    decreases |table| - e
  {
    if e >= |table| || NeedsEarly(u.early, table[e].Cpu()) then e else FirstEarly(table, e + 1, u)
  }

  /** What the regular hand-off releases: everybody but early CPUs and the running one. */
  function Others(table: seq<Entry>, n: nat, u: Setup): History
    requires n <= |table|
  {
    if n == 0 then []
    else
      var c := table[n - 1].Cpu();
      Others(table, n - 1, u) + if c != u.running && !NeedsEarly(u.early, c) then [Released(c)] else []
  }

  lemma OthersNext(log: History, table: seq<Entry>, n: nat, u: Setup)
    requires n < |table|
    ensures var c := table[n].Cpu();
            log + Others(table, n + 1, u) ==
            log + Others(table, n, u) + if c != u.running && !NeedsEarly(u.early, c) then [Released(c)] else []
  {
  }

  // ---------------------------------------------------------------- when the loader leaves early

  /** How many partitions before p end an R5 and call for an early hand-off. */
  function Dues(image: seq<Header>, p: nat, u: Setup): nat
    requires p <= |image|
  {
    if p <= 1 then 0 else Dues(image, p - 1, u) + if EarlyDue(image, p - 1, u) then 1 else 0
  }

  /** Partition p is the first to be loaded for an R5. */
  ghost predicate OpensR5(image: seq<Header>, p: nat, u: Setup)
    requires 1 <= p < |image|
  {
    && Contributes(image[p], u.running, u.reset) && NeedsEarly(u.early, image[p].Target(u.running))
    && !ServedBefore(image, p, image[p].Target(u.running), u)
  }

  ghost predicate ServedBefore(image: seq<Header>, p: nat, cpu: bv32, u: Setup) {
    exists j :: 1 <= j < p && j < |image| && Contributes(image[j], u.running, u.reset)
        && image[j].Target(u.running) == cpu
  }

  /** How many R5s partitions before p are loaded for. */
  ghost function R5s(image: seq<Header>, p: nat, u: Setup): nat
    requires p <= |image|
  {
    if p <= 1 then 0 else R5s(image, p - 1, u) + if OpensR5(image, p - 1, u) then 1 else 0
  }

  /** Partition p calls for an early hand-off, and with it there were more such calls than R5s
      to hand over to. */
  ghost predicate Overdue(image: seq<Header>, p: nat, u: Setup)
    requires 1 <= p < |image|
  {
    EarlyDue(image, p, u) && Dues(image, p + 1, u) > R5s(image, p + 1, u)
  }

  ghost predicate NoneOverdue(image: seq<Header>, p: nat, u: Setup)
    requires p <= |image|
  {
    forall j :: 1 <= j < p ==> !Overdue(image, j, u)
  }

  /** The last partition a run can come to: the first one from p on that is overdue, or the last
      of the image. */
  ghost function LastLoad(image: seq<Header>, p: nat, u: Setup): (last: nat)
    requires 1 <= p < |image|
    ensures p <= last < |image| && (forall j :: p <= j < last ==> !Overdue(image, j, u))
    ensures last < |image| - 1 ==> Overdue(image, last, u)
    decreases |image| - p
  {
    if p == |image| - 1 || Overdue(image, p, u) then p else LastLoad(image, p + 1, u)
  }

  lemma LastLoadIs(image: seq<Header>, p: nat, u: Setup)
    requires 1 <= p < |image| && NoneOverdue(image, p, u) && (p == |image| - 1 || Overdue(image, p, u))
    ensures LastLoad(image, 1, u) == p
  {
    var last := LastLoad(image, 1, u);
  }

  lemma LastLoadBeyond(image: seq<Header>, p: nat, u: Setup)
    requires 1 <= p < |image| && NoneOverdue(image, p, u)
    ensures p <= LastLoad(image, 1, u)
  {
    var last := LastLoad(image, 1, u);
  }

  /** The entries among the first n that want an early hand-off. */
  function EarlyEntries(table: seq<Entry>, n: nat, u: Setup): nat
    requires n <= |table|
  {
    if n == 0 then 0 else EarlyEntries(table, n - 1, u) + if NeedsEarly(u.early, table[n - 1].Cpu()) then 1 else 0
  }

  lemma {:induction false} EarlyEntriesPrefix(small: seq<Entry>, large: seq<Entry>, n: nat, u: Setup)
    requires small <= large && n <= |small|
    ensures EarlyEntries(small, n, u) == EarlyEntries(large, n, u)
  {
    if n > 0 {
      EarlyEntriesPrefix(small, large, n - 1, u);
    }
  }

  lemma {:induction false} EarlyEntriesGrow(table: seq<Entry>, m: nat, n: nat, u: Setup)
    requires m <= n <= |table|
    ensures EarlyEntries(table, m, u) <= EarlyEntries(table, n, u)
    ensures (forall i :: m <= i < n ==> !NeedsEarly(u.early, table[i].Cpu())) ==>
            EarlyEntries(table, m, u) == EarlyEntries(table, n, u)
    decreases n
  {
    if m < n {
      EarlyEntriesGrow(table, m, n - 1, u);
    }
  }

  /** The search for the next early entry succeeds exactly when one is left. */
  lemma FirstEarlyExists(table: seq<Entry>, e: nat, u: Setup)
    requires e <= |table|
    ensures var k := FirstEarly(table, e, u);
            && (k < |table| <==> EarlyEntries(table, e, u) < EarlyEntries(table, |table|, u))
            && (k < |table| ==> EarlyEntries(table, k + 1, u) == EarlyEntries(table, e, u) + 1)
  {
    var k := FirstEarly(table, e, u);
    EarlyEntriesGrow(table, e, k, u);
    if k < |table| {
      EarlyEntriesGrow(table, k + 1, |table|, u);
    }
  }

  /** The table has an entry for every R5 that partitions were loaded for. */
  lemma {:induction false} EntriesAreR5s(image: seq<Header>, p: nat, u: Setup)
    requires 1 <= p <= |image| && Running(u.running)
    ensures var table := TableTo(image, p, u); EarlyEntries(table, |table|, u) == R5s(image, p, u)
    decreases p
  {
    hide TableTo;
    hide OpensR5;
    if p > 1 {
      EntriesAreR5s(image, p - 1, u);
      NextEntry(image, p - 1, u);
    } else {
      FirstTable(image, u);
    }
  }

  lemma FirstTable(image: seq<Header>, u: Setup)
    requires 1 <= |image|
    ensures TableTo(image, 1, u) == []
  {
    assert image[1..1] == [];
  }

  /** Partition p adds an early entry exactly when it is the first for an R5. */
  lemma NextEntry(image: seq<Header>, p: nat, u: Setup)
    requires 1 <= p < |image| && Running(u.running)
    ensures var before, after := TableTo(image, p, u), TableTo(image, p + 1, u);
            EarlyEntries(after, |after|, u) ==
            EarlyEntries(before, |before|, u) + if OpensR5(image, p, u) then 1 else 0
  {
    hide TableTo;
    hide Contributes;
    hide ServedBefore;
    hide Header.Target;
    hide Entry.Cpu;
    var before, after, h := TableTo(image, p, u), TableTo(image, p + 1, u), image[p];
    TableStep(image, p, u);
    EarlyEntriesPrefix(before, after, |before|, u);
    if Contributes(h, u.running, u.reset) {
      KnownIsServed(image, p, h.Target(u.running), u);
      ContributorEntry(h, u.running, u.reset);
    }
  }

  lemma KnownIsServed(image: seq<Header>, p: nat, c: bv32, u: Setup)
    requires 1 <= p <= |image| && Running(u.running)
    ensures Knows(TableTo(image, p, u), c) <==> ServedBefore(image, p, c, u)
  {
    hide Contributes;
    hide Header.Target;
    hide Knows;
    var part := image[1..p];
    TableKnows(part, c, u.running, u.reset);
    if ServedBefore(image, p, c, u) {
      var j :| 1 <= j < p && j < |image| && Contributes(image[j], u.running, u.reset)
          && image[j].Target(u.running) == c;
      assert part[j - 1] == image[j] && Targets(part, j - 1, c, u.running, u.reset);
    }
    if i :| 0 <= i < |part| && Targets(part, i, c, u.running, u.reset) {
      assert image[i + 1] == part[i];
    }
  }

  /** How far the index has come before partition p. */
  ghost predicate Counted(image: seq<Header>, p: nat, e: nat, u: Setup)
    requires 1 <= p <= |image|
  {
    && NoneOverdue(image, p, u)
    && e <= |TableTo(image, p, u)| && EarlyEntries(TableTo(image, p, u), e, u) == Dues(image, p, u)
  }

  /** A load without an early hand-off keeps the count. */
  lemma CountedQuiet(image: seq<Header>, p: nat, e: nat, u: Setup)
    requires 1 <= p < |image| && Counted(image, p, e, u) && !EarlyDue(image, p, u)
    ensures Counted(image, p + 1, e, u)
  {
    TablePrefix(image, p, u);
    EarlyEntriesPrefix(TableTo(image, p, u), TableTo(image, p + 1, u), e, u);
  }

  /** An early hand-off finds an entry exactly when the partition is not overdue, and then keeps
      the count. */
  lemma CountedEarly(image: seq<Header>, p: nat, e: nat, u: Setup)
    requires 1 <= p < |image| && Running(u.running) && Counted(image, p, e, u) && EarlyDue(image, p, u)
    ensures var table := TableTo(image, p + 1, u);
            var k := FirstEarly(table, e, u);
            e <= |table| && (k < |table| <==> !Overdue(image, p, u))
                && (k < |table| ==> Counted(image, p + 1, k + 1, u))
  {
    hide EarlyDue;
    hide TableTo;
    hide OpensR5;
    hide FirstEarly;
    TablePrefix(image, p, u);
    EarlyEntriesPrefix(TableTo(image, p, u), TableTo(image, p + 1, u), e, u);
    FirstEarlyExists(TableTo(image, p + 1, u), e, u);
    EntriesAreR5s(image, p + 1, u);
  }

  // ---------------------------------------------------------------- the intended images

  /** FSBL on A53-0 with early hand-off; every R5 partition is loaded by it and the partitions
      of an R5 are contiguous. */
  ghost predicate Intended(image: seq<Header>, u: Setup) {
    && u.running == A53_0 && u.early
    && (forall i :: 1 <= i < |image| && IsR5(image[i].Cpu()) ==> Contributes(image[i], u.running, u.reset))
    && (forall i, j, k :: 1 <= i < j < k < |image| && IsR5(image[i].Cpu()) && image[i].Cpu() == image[k].Cpu()
          ==> image[j].Cpu() == image[i].Cpu())
  }

  /** All partitions for `cpu` lie before p, and there is one. */
  ghost predicate Done(image: seq<Header>, p: nat, cpu: bv32) {
    && (exists i :: 1 <= i < p && i < |image| && image[i].Cpu() == cpu)
    && forall i :: p <= i < |image| && 1 <= i ==> image[i].Cpu() != cpu
  }

  /** Every R5 was started right after its last partition, any other CPU after all of them. */
  ghost predicate Timely(log: History, image: seq<Header>, u: Setup) {
    forall i :: 0 <= i < |log| && log[i].Released? ==> AtRightTime(log, i, image, u)
  }

  ghost predicate AtRightTime(log: History, i: nat, image: seq<Header>, u: Setup)
    requires i < |log| && log[i].Released?
  {
    var cpu := log[i].cpu;
    if NeedsEarly(u.early, cpu) then
      i > 0 && log[i - 1].Loaded? && 1 <= log[i - 1].partition < |image|
      && image[log[i - 1].partition].Cpu() == cpu && Done(image, log[i - 1].partition + 1, cpu)
    else |image| > 0 && Loaded(|image| - 1) in log[..i]
  }

  ghost predicate Once(log: History) {
    forall i, j :: 0 <= i < j < |log| && log[i].Released? ==> log[i] != log[j]
  }

  /** Between two loads, the index separates the early CPUs that are started from the one, if
      any, that is still being loaded. */
  ghost predicate OnSchedule(image: seq<Header>, p: nat, table: seq<Entry>, e: nat, log: History, u: Setup) {
    && e <= |table|
    && (forall k :: 0 <= k < |table| && NeedsEarly(u.early, table[k].Cpu()) ==>
        (k < e <==> Done(image, p, table[k].Cpu())))
    && (forall c :: Released(c) in log <==> NeedsEarly(u.early, c) && Done(image, p, c))
    && Once(log) && Timely(log, image, u)
  }

  /** The images the two properties of the hand-off are meant for. */
  ghost predicate Planned(image: seq<Header>, u: Setup) {
    !u.early || Intended(image, u)
  }

  /** While an R5 of an intended image is being loaded there is one more R5 than calls for
      early hand-offs; otherwise there are as many. */
  lemma {:induction false} IntendedCounts(image: seq<Header>, p: nat, u: Setup)
    requires Intended(image, u) && 1 <= p < |image|
    ensures R5s(image, p + 1, u) ==
            Dues(image, p + 1, u) + if IsR5(image[p].Cpu()) && !EarlyDue(image, p, u) then 1 else 0
    decreases p
  {
    hide EarlyDue;
    hide Contributes;
    hide Header.Cpu;
    hide Header.Target;
    EarlyIsLast(image, p, u);
    OpensIntended(image, p, u);
    if p > 1 {
      IntendedCounts(image, p - 1, u);
      EarlyIsLast(image, p - 1, u);
      if IsR5(image[p].Cpu()) {
        SeenIsPrevious(image, p, u);
      }
    } else {
      assert R5s(image, 1, u) == 0 && Dues(image, 1, u) == 0;
    }
  }

  /** In an intended image an R5 has been seen before partition p exactly when it is that of the
      partition before p. */
  lemma SeenIsPrevious(image: seq<Header>, p: nat, u: Setup)
    requires Intended(image, u) && 1 < p < |image| && IsR5(image[p].Cpu())
    ensures SeenBefore(image, p, image[p].Cpu()) <==> image[p - 1].Cpu() == image[p].Cpu()
  {
    hide Contributes;
    hide Header.Cpu;
  }

  lemma OpensIntended(image: seq<Header>, p: nat, u: Setup)
    requires Intended(image, u) && 1 <= p < |image|
    ensures OpensR5(image, p, u) <==> IsR5(image[p].Cpu()) && !SeenBefore(image, p, image[p].Cpu())
  {
    hide Contributes;
    hide Header.Cpu;
    hide Header.Target;
    hide ServedBefore;
    TargetR5(image[p], u);
    if IsR5(image[p].Cpu()) {
      ServedIsSeen(image, p, image[p].Cpu(), u);
    }
  }

  lemma TargetR5(h: Header, u: Setup)
    requires u.running == A53_0
    ensures IsR5(h.Target(u.running)) <==> IsR5(h.Cpu())
    ensures IsR5(h.Target(u.running)) ==> h.Target(u.running) == h.Cpu()
  {
  }

  /** No partition of a planned image is overdue. */
  lemma PlannedNeverOverdue(image: seq<Header>, u: Setup)
    requires Planned(image, u) && 1 < |image|
    ensures NoneOverdue(image, |image|, u) && LastLoad(image, 1, u) == |image| - 1
  {
    forall p | 1 <= p < |image|
      ensures !Overdue(image, p, u)
    {
      if u.early {
        IntendedCounts(image, p, u);
      }
    }
  }

  lemma TimelyGrows(log: History, a: Action, image: seq<Header>, u: Setup)
    requires Timely(log, image, u)
    requires a.Released? ==> AtRightTime(log + [a], |log|, image, u)
    ensures Timely(log + [a], image, u)
  {
    var after := log + [a];
    forall i | 0 <= i < |after| && after[i].Released?
      ensures AtRightTime(after, i, image, u)
    {
      if i < |log| {
        assert after[i] == log[i] && after[..i] == log[..i];
        assert AtRightTime(log, i, image, u);
      }
    }
  }

  /** A missing destination never counts as an R5. */
  lemma EffectiveR5(h: Header, u: Setup, c: bv32)
    requires u.running == A53_0 && IsR5(c)
    ensures Effective(h, u) == c <==> h.Cpu() == c
  {
  }

  lemma EarlyIsLast(image: seq<Header>, p: nat, u: Setup)
    requires Intended(image, u) && 1 <= p < |image|
    ensures EarlyDue(image, p, u) <==>
              IsR5(image[p].Cpu()) && forall i :: p < i < |image| ==> image[i].Cpu() != image[p].Cpu()
  {
    hide Header.Cpu;
    hide Contributes;
    hide Effective;
    var c := image[p].Cpu();
    if IsR5(Effective(image[p], u)) {
      EffectiveR5(image[p], u, Effective(image[p], u));
    }
    if IsR5(c) {
      EffectiveR5(image[p], u, c);
      if p + 1 < |image| {
        EffectiveR5(image[p + 1], u, c);
      }
    }
  }

  /** In an intended image no R5 is done at one of its own partitions, and it is done after it
      exactly when the code's check says so. */
  lemma DoneStep(image: seq<Header>, p: nat, c: bv32, u: Setup)
    requires Intended(image, u) && 1 <= p < |image| && IsR5(c)
    ensures Done(image, p + 1, c) <==> if c == image[p].Cpu() then EarlyDue(image, p, u) else Done(image, p, c)
    ensures c == image[p].Cpu() ==> !Done(image, p, c)
  {
    hide Header.Cpu;
    hide Contributes;
    hide EarlyDue;
    if c == image[p].Cpu() {
      EarlyIsLast(image, p, u);
    } else {
      DoneElsewhere(image, p, c);
    }
  }

  /** A partition for another CPU changes nothing. */
  lemma DoneElsewhere(image: seq<Header>, p: nat, c: bv32)
    requires 1 <= p < |image| && image[p].Cpu() != c
    ensures Done(image, p + 1, c) <==> Done(image, p, c)
  {
    hide Header.Cpu;
    if Done(image, p, c) {
      var i :| 1 <= i < p && i < |image| && image[i].Cpu() == c;
      assert i < p + 1;
    }
  }

  /** The R5 entries of a table are those of the partitions loaded so far. */
  ghost predicate Matching(table: seq<Entry>, image: seq<Header>, p: nat) {
    && Distinct(table)
    && (forall k :: 0 <= k < |table| && IsR5(table[k].Cpu()) ==> SeenBefore(image, p, table[k].Cpu()))
    && (forall c :: IsR5(c) && SeenBefore(image, p, c) ==> Knows(table, c))
  }

  ghost predicate SeenBefore(image: seq<Header>, p: nat, c: bv32) {
    exists i :: 1 <= i < p && i < |image| && image[i].Cpu() == c
  }

  lemma TableMatches(image: seq<Header>, p: nat, u: Setup)
    requires Intended(image, u) && 1 <= p <= |image|
    ensures Matching(TableTo(image, p, u), image, p)
  {
    hide Intended;
    hide TableTo;
    hide ServedBefore;
    hide SeenBefore;
    hide Entry.Cpu;
    var table := TableTo(image, p, u);
    OnA53(image, u);
    DistinctTable(image, p, u);
    forall k | 0 <= k < |table| && IsR5(table[k].Cpu())
      ensures SeenBefore(image, p, table[k].Cpu())
    {
      assert Knows(table, table[k].Cpu());
      KnownIsServed(image, p, table[k].Cpu(), u);
      ServedIsSeen(image, p, table[k].Cpu(), u);
    }
    forall c | IsR5(c) && SeenBefore(image, p, c)
      ensures Knows(table, c)
    {
      KnownIsServed(image, p, c, u);
      ServedIsSeen(image, p, c, u);
    }
  }

  lemma OnA53(image: seq<Header>, u: Setup)
    requires Intended(image, u)
    ensures Running(u.running)
  {
  }

  /** In an intended image every R5 partition is loaded for its R5. */
  lemma ServedIsSeen(image: seq<Header>, p: nat, c: bv32, u: Setup)
    requires Intended(image, u) && IsR5(c)
    ensures ServedBefore(image, p, c, u) <==> SeenBefore(image, p, c)
  {
    hide Contributes;
    hide Header.Cpu;
    hide Header.Target;
    if SeenBefore(image, p, c) {
      var i :| 1 <= i < p && i < |image| && image[i].Cpu() == c;
      TargetR5(image[i], u);
    }
    if ServedBefore(image, p, c, u) {
      var i :| 1 <= i < p && i < |image| && Contributes(image[i], u.running, u.reset)
          && image[i].Target(u.running) == c;
      TargetR5(image[i], u);
    }
  }

  /** The table only grows at its end. */
  lemma TablePrefix(image: seq<Header>, p: nat, u: Setup)
    requires 1 <= p < |image|
    ensures TableTo(image, p, u) <= TableTo(image, p + 1, u)
  {
    TableStep(image, p, u);
  }

  /** A load that calls for no hand-off keeps the schedule. */
  lemma QuietLoad(image: seq<Header>, p: nat, e: nat, log: History, u: Setup)
    requires Intended(image, u) && 1 <= p < |image| && !EarlyDue(image, p, u)
    requires OnSchedule(image, p, TableTo(image, p, u), e, log, u)
    ensures OnSchedule(image, p + 1, TableTo(image, p + 1, u), e, log + [Loaded(p)], u)
  {
    hide Header.Cpu;
    hide Contributes;
    hide EarlyDue;
    hide TableTo;
    hide Done;
    var before, after := TableTo(image, p, u), TableTo(image, p + 1, u);
    TablePrefix(image, p, u);
    TableMatches(image, p, u);
    TableMatches(image, p + 1, u);
    SameDone(image, p, u);
    forall k | 0 <= k < |after| && IsR5(after[k].Cpu())
      ensures k < e <==> Done(image, p + 1, after[k].Cpu())
    {
      if k < |before| {
        assert before[k] == after[k];
      } else {
        NewEntryNotDone(image, p, after[k].Cpu(), before, after, k);
      }
    }
    TimelyGrows(log, Loaded(p), image, u);
  }

  lemma SameDone(image: seq<Header>, p: nat, u: Setup)
    requires Intended(image, u) && 1 <= p < |image| && !EarlyDue(image, p, u)
    ensures forall c :: IsR5(c) ==> (Done(image, p + 1, c) <==> Done(image, p, c))
  {
    forall c | IsR5(c)
      ensures Done(image, p + 1, c) <==> Done(image, p, c)
    {
      DoneStep(image, p, c, u);
    }
  }

  /** A CPU whose entry appears with partition p was not done before it. */
  lemma NewEntryNotDone(image: seq<Header>, p: nat, c: bv32, before: seq<Entry>, after: seq<Entry>, k: nat)
    requires Matching(before, image, p) && Matching(after, image, p + 1) && before <= after
    requires |before| <= k < |after| && after[k].Cpu() == c && IsR5(c)
    ensures !Done(image, p, c)
  {
    forall j | 0 <= j < |before|
      ensures before[j].Cpu() != c
    {
      assert after[j] == before[j];
    }
    assert !Knows(before, c) && !SeenBefore(image, p, c);
  }

  /** After the last partition of an R5, the first early entry from the index on is its own. */
  lemma NextEarlyIsOurs(image: seq<Header>, p: nat, e: nat, log: History, u: Setup)
    requires Intended(image, u) && 1 <= p < |image| && EarlyDue(image, p, u)
    requires OnSchedule(image, p, TableTo(image, p, u), e, log, u)
    ensures var table := TableTo(image, p + 1, u);
            var k := FirstEarly(table, e, u);
            e <= k < |table| && table[k].Cpu() == image[p].Cpu()
            && forall i :: k < i < |table| ==> !IsR5(table[i].Cpu())
  {
    hide Timely;
    hide Once;
    hide Header.Cpu;
    hide Contributes;
    hide EarlyDue;
    hide TableTo;
    var c := image[p].Cpu();
    var before, after := TableTo(image, p, u), TableTo(image, p + 1, u);
    EarlyIsLast(image, p, u);
    TablePrefix(image, p, u);
    TableMatches(image, p, u);
    TableMatches(image, p + 1, u);
    DoneStep(image, p, c, u);
    assert SeenBefore(image, p + 1, c);
    var j :| 0 <= j < |after| && after[j].Cpu() == c;
    assert j >= e by {
      if j < |before| {
        assert before[j] == after[j];
      }
    }
    forall i | e <= i < |after| && IsR5(after[i].Cpu())
      ensures after[i].Cpu() == c
    {
      if i < |before| {
        assert before[i] == after[i];
        NotDoneIsCurrent(image, p, after[i].Cpu(), u);
      } else {
        NewEntryIsCurrent(image, p, after[i].Cpu(), before, after, i);
      }
    }
  }

  /** An R5 that has been seen but is not done is the one being loaded. */
  lemma NotDoneIsCurrent(image: seq<Header>, p: nat, c: bv32, u: Setup)
    requires Intended(image, u) && 1 <= p < |image| && IsR5(c) && SeenBefore(image, p, c) && !Done(image, p, c)
    ensures image[p].Cpu() == c
  {
    hide Header.Cpu;
    hide Contributes;
    var i :| 1 <= i < p && i < |image| && image[i].Cpu() == c;
    var k :| p <= k < |image| && 1 <= k && image[k].Cpu() == c;
  }

  lemma NewEntryIsCurrent(image: seq<Header>, p: nat, c: bv32, before: seq<Entry>, after: seq<Entry>, k: nat)
    requires Matching(before, image, p) && Matching(after, image, p + 1) && before <= after && p < |image|
    requires |before| <= k < |after| && after[k].Cpu() == c && IsR5(c)
    ensures image[p].Cpu() == c
  {
    forall j | 0 <= j < |before|
      ensures before[j].Cpu() != c
    {
      assert after[j] == before[j];
    }
    assert !Knows(before, c) && !SeenBefore(image, p, c) && SeenBefore(image, p + 1, c);
    var i :| 1 <= i < p + 1 && i < |image| && image[i].Cpu() == c;
    assert i >= p;
  }

  /** A load that ends an R5's partitions, and the early hand-off that follows it. */
  lemma EarlyLoad(image: seq<Header>, p: nat, e: nat, log: History, u: Setup)
    requires Intended(image, u) && 1 <= p < |image| && EarlyDue(image, p, u)
    requires OnSchedule(image, p, TableTo(image, p, u), e, log, u)
    ensures var table := TableTo(image, p + 1, u);
            var k := FirstEarly(table, e, u);
            k < |table| && table[k].Cpu() != u.running
            && OnSchedule(image, p + 1, table, k + 1, log + [Loaded(p)] + [Released(table[k].Cpu())], u)
  {
    hide FirstEarly;
    hide SeenBefore;
    hide Done;
    hide Timely;
    hide Once;
    hide Header.Cpu;
    hide Contributes;
    hide EarlyDue;
    hide TableTo;
    var c := image[p].Cpu();
    var before, after := TableTo(image, p, u), TableTo(image, p + 1, u);
    NextEarlyIsOurs(image, p, e, log, u);
    EarlyIsLast(image, p, u);
    TablePrefix(image, p, u);
    TableMatches(image, p, u);
    TableMatches(image, p + 1, u);
    DoneAfterEarly(image, p, u);
    var k := FirstEarly(after, e, u);
    forall i | 0 <= i < |after| && IsR5(after[i].Cpu())
      ensures i < k + 1 <==> Done(image, p + 1, after[i].Cpu())
    {
      if i < e {
        assert before[i] == after[i];
      }
    }
    ReleaseOnTime(image, p, c, log, u);
  }

  lemma DoneAfterEarly(image: seq<Header>, p: nat, u: Setup)
    requires Intended(image, u) && 1 <= p < |image| && EarlyDue(image, p, u)
    ensures var cpu := image[p].Cpu();
            IsR5(cpu) && !Done(image, p, cpu)
            && forall c :: IsR5(c) ==> (Done(image, p + 1, c) <==> c == cpu || Done(image, p, c))
  {
    EarlyIsLast(image, p, u);
    forall c | IsR5(c)
      ensures Done(image, p + 1, c) <==> c == image[p].Cpu() || Done(image, p, c)
    {
      DoneStep(image, p, c, u);
    }
    DoneStep(image, p, image[p].Cpu(), u);
  }

  lemma ReleaseOnTime(image: seq<Header>, p: nat, c: bv32, log: History, u: Setup)
    requires 1 <= p < |image| && image[p].Cpu() == c && Done(image, p + 1, c) && NeedsEarly(u.early, c)
    requires Timely(log, image, u) && Once(log) && Released(c) !in log
    ensures var after := log + [Loaded(p)] + [Released(c)]; Timely(after, image, u) && Once(after)
  {
    var mid := log + [Loaded(p)];
    TimelyGrows(log, Loaded(p), image, u);
    assert mid[|mid| - 1] == Loaded(p);
    TimelyGrows(mid, Released(c), image, u);
  }

  /** Any load in a planned image that calls for no hand-off. */
  lemma PlainLoad(image: seq<Header>, p: nat, e: nat, log: History, u: Setup)
    requires Planned(image, u) && 1 <= p < |image| && !EarlyDue(image, p, u)
    requires OnSchedule(image, p, TableTo(image, p, u), e, log, u)
    ensures OnSchedule(image, p + 1, TableTo(image, p + 1, u), e, log + [Loaded(p)], u)
  {
    if u.early {
      QuietLoad(image, p, e, log, u);
    } else {
      TablePrefix(image, p, u);
      TimelyGrows(log, Loaded(p), image, u);
    }
  }

  // ---------------------------------------------------------------- the regular hand-off

  /** All partitions are loaded and all early CPUs are started. */
  ghost predicate EarlyComplete(image: seq<Header>, table: seq<Entry>, log: History, u: Setup) {
    && Distinct(table) && |image| > 0 && Loaded(|image| - 1) in log
    && (forall c :: Released(c) in log <==> NeedsEarly(u.early, c) && Knows(table, c))
    && Once(log) && Timely(log, image, u)
  }

  /** Every CPU of the table but the running one is out of reset, each released once. */
  ghost predicate AllReleased(table: seq<Entry>, log: History, u: Setup) {
    Once(log) && forall c :: Released(c) in log <==> c != u.running && Knows(table, c)
  }

  lemma ScheduleCompletes(image: seq<Header>, e: nat, log: History, u: Setup)
    requires Planned(image, u) && Running(u.running) && 1 < |image| && Loaded(|image| - 1) in log
    requires OnSchedule(image, |image|, TableTo(image, |image|, u), e, log, u)
    ensures EarlyComplete(image, TableTo(image, |image|, u), log, u)
  {
    hide Header.Cpu;
    hide Contributes;
    var table := TableTo(image, |image|, u);
    TableIsExact(image[1..], u.running, u.reset);
    assert image[1..] == image[1..|image|];
    if u.early {
      TableMatches(image, |image|, u);
      forall c | IsR5(c)
        ensures Done(image, |image|, c) <==> Knows(table, c)
      {
        assert Done(image, |image|, c) <==> SeenBefore(image, |image|, c);
      }
    }
  }

  lemma {:induction false} OthersReleased(table: seq<Entry>, n: nat, u: Setup)
    requires Distinct(table) && n <= |table|
    ensures Once(Others(table, n, u)) && forall a <- Others(table, n, u) :: a.Released?
    ensures forall c :: Released(c) in Others(table, n, u) <==>
              c != u.running && !NeedsEarly(u.early, c) && exists k :: 0 <= k < n && table[k].Cpu() == c
    decreases n
  {
    if n > 0 {
      OthersReleased(table, n - 1, u);
    }
  }

  lemma {:induction false} RegularKeeps(image: seq<Header>, table: seq<Entry>, log: History, n: nat, u: Setup)
    requires EarlyComplete(image, table, log, u) && n <= |table|
    ensures var after := log + [Regular] + Others(table, n, u);
            Timely(after, image, u) && Once(after) && Loaded(|image| - 1) in after
            && forall c :: Released(c) in after <==> Released(c) in log || Released(c) in Others(table, n, u)
    decreases n
  {
    hide Timely;
    hide Once;
    hide Others;
    if n == 0 {
      TimelyGrows(log, Regular, image, u);
      OnceGrows(log, Regular);
      NoOthers(table, u);
      assert log + [Regular] + [] == log + [Regular];
    } else {
      RegularKeeps(image, table, log, n - 1, u);
      var prior, c := log + [Regular] + Others(table, n - 1, u), table[n - 1].Cpu();
      OthersStep(table, n, u);
      if c != u.running && !NeedsEarly(u.early, c) {
        NotYetReleased(image, table, log, n, u);
        OneRelease(image, prior, c, u);
        assert log + [Regular] + (Others(table, n - 1, u) + [Released(c)]) == prior + [Released(c)];
      } else {
        assert Others(table, n, u) == Others(table, n - 1, u);
      }
    }
  }

  lemma NoOthers(table: seq<Entry>, u: Setup)
    ensures Others(table, 0, u) == []
  {
  }

  lemma OthersStep(table: seq<Entry>, n: nat, u: Setup)
    requires 0 < n <= |table|
    ensures var c := table[n - 1].Cpu();
            Others(table, n, u) ==
            Others(table, n - 1, u) + if c != u.running && !NeedsEarly(u.early, c) then [Released(c)] else []
  {
  }

  /** One release after all loads. */
  lemma OneRelease(image: seq<Header>, prior: History, c: bv32, u: Setup)
    requires Timely(prior, image, u) && Once(prior) && Released(c) !in prior && !NeedsEarly(u.early, c)
    requires |image| > 0 && Loaded(|image| - 1) in prior
    ensures var after := prior + [Released(c)];
            Timely(after, image, u) && Once(after) && Loaded(|image| - 1) in after
  {
    hide Timely;
    OnceGrows(prior, Released(c));
    assert (prior + [Released(c)])[..|prior|] == prior;
    TimelyGrows(prior, Released(c), image, u);
  }

  lemma NotYetReleased(image: seq<Header>, table: seq<Entry>, log: History, n: nat, u: Setup)
    requires EarlyComplete(image, table, log, u) && 0 < n <= |table| && !NeedsEarly(u.early, table[n - 1].Cpu())
    ensures Released(table[n - 1].Cpu()) !in log + [Regular] + Others(table, n - 1, u)
  {
    var a := Released(table[n - 1].Cpu());
    OthersReleased(table, n - 1, u);
    assert a !in log && a !in [Regular];
    assert a !in Others(table, n - 1, u);
  }

  lemma OnceGrows(log: History, a: Action)
    requires Once(log) && (a.Released? ==> a !in log)
    ensures Once(log + [a])
  {
  }

  /** The regular hand-off releases every remaining CPU, each once and in time. */
  lemma RegularFinishes(image: seq<Header>, table: seq<Entry>, log: History, to: Option<Entry>, u: Setup)
    requires EarlyComplete(image, table, log, u) && (u.early ==> !IsR5(u.running))
    ensures var after := log + [Regular] + Others(table, |table|, u) + [Exited(to)];
            AllReleased(table, after, u) && Timely(after, image, u)
  {
    RegularKeeps(image, table, log, |table|, u);
    OthersReleased(table, |table|, u);
    TimelyGrows(log + [Regular] + Others(table, |table|, u), Exited(to), image, u);
  }

  // ---------------------------------------------------------------- order of the loads

  lemma {:induction false} LoadsSkip(log: History, more: History)
    requires forall a <- more :: !a.Loaded? && !a.LoadFailed?
    ensures Loads(log + more) == Loads(log)
    decreases |more|
  {
    if more == [] {
      assert log + more == log;
    } else {
      var n := |more| - 1;
      LoadsSkip(log, more[..n]);
      LoadsStep(log + more[..n], more[n]);
      assert log + more == log + more[..n] + [more[n]];
    }
  }

  lemma CountUpStep(n: nat)
    ensures CountUp(n + 1) == CountUp(n) + [n + 1]
  {
  }

  /** Nothing failed and no regular hand-off began. */
  ghost predicate StillLoading(log: History) {
    forall a <- log :: !a.LoadFailed? && !a.Regular?
  }

  /** A history of successful loads and early releases is in order with one last failure or
      exit. */
  lemma EndInOrder(log: History, a: Action, m: nat, n: nat, jtag: bool)
    requires StillLoading(log) && Loads(log) == CountUp(m) && m < n
    requires a.Exited? || a.InitFailed? || a.HandoffFailed? || (a == LoadFailed(m + 1) && m + 1 < n)
    ensures InOrder(log + [a], n, jtag)
  {
    var after := log + [a];
    LoadsStep(log, a);
    CountUpStep(m);
    assert Loads(after) == CountUp(if a.LoadFailed? then m + 1 else m);
    forall i | 0 <= i < |log|
      ensures !after[i].LoadFailed? && !after[i].Regular?
    {
      assert after[i] == log[i] && log[i] in log;
    }
    assert after[|log|] == a && NoMoreLoads(after, |log|);
  }

  lemma RegularInOrder(log: History, more: History, n: nat, jtag: bool)
    requires StillLoading(log) && 0 < n && Loads(log) == CountUp(n - 1)
    requires forall a <- more :: a.Released? || a.Exited? || a.HandoffFailed?
    ensures InOrder(log + [Regular] + more, n, jtag)
  {
    hide StillLoading;
    hide NoMoreLoads;
    hide Loads;
    hide CountUp;
    var after := log + [Regular] + more;
    LoadsSkip(log, [Regular] + more);
    assert after == log + ([Regular] + more);
    OnlyRegular(log, more);
    assert after[..|log|] == log;
  }

  lemma OnlyRegular(log: History, more: History)
    requires StillLoading(log) && forall a <- more :: a.Released? || a.Exited? || a.HandoffFailed?
    ensures var after := log + [Regular] + more;
            forall i :: 0 <= i < |after| ==> !after[i].LoadFailed? && (after[i].Regular? ==> i == |log|)
  {
    var after := log + [Regular] + more;
    forall i | 0 <= i < |after|
      ensures !after[i].LoadFailed? && (after[i].Regular? ==> i == |log|)
    {
      if i < |log| {
        assert after[i] == log[i] && log[i] in log;
      } else if i > |log| {
        assert after[i] == more[i - |log| - 1] && more[i - |log| - 1] in more;
      }
    }
  }

  lemma LockdownInOrder(log: History, n: nat, jtag: bool)
    requires InOrder(log, n, jtag)
    ensures InOrder(log + [LockedDown], n, jtag)
  {
    var after := log + [LockedDown];
    LoadsStep(log, LockedDown);
    forall i | 0 <= i < |after| && after[i].LoadFailed?
      ensures NoMoreLoads(after, i)
    {
      assert after[i] == log[i] && NoMoreLoads(log, i);
    }
    forall i | 0 <= i < |after| && after[i].Regular?
      ensures jtag || Loads(after[..i]) == CountUp(n - 1)
    {
      assert after[i] == log[i] && after[..i] == log[..i];
    }
  }

  // ---------------------------------------------------------------- the loader's own CPU, and failures

  /** The entry of the CPU the loader runs on, among the first n. */
  function RunningEntry(table: seq<Entry>, n: nat, running: bv32): Option<Entry>
    requires n <= |table|
  {
    if n == 0 then None
    else if table[n - 1].Cpu() == running then Some(table[n - 1])
    else RunningEntry(table, n - 1, running)
  }

  lemma {:induction false} RunningEntryFound(table: seq<Entry>, n: nat, running: bv32)
    requires n <= |table|
    ensures match RunningEntry(table, n, running)
            case None => forall k :: 0 <= k < n ==> table[k].Cpu() != running
            case Some(e) => exists k :: 0 <= k < n && table[k] == e && e.Cpu() == running
  {
    if n > 0 {
      RunningEntryFound(table, n - 1, running);
    }
  }

  /** An application in 32-bit state for a loader in 64-bit state, or the other way round. */
  predicate Differs(loader: bv32, application: bv32) {
    (loader == 0 && application == 0x8) || (loader == 0x8 && application == 0)
  }

  /** Partition i is the first to be loaded for this CPU. */
  ghost predicate FirstLoadFor(image: seq<Header>, i: nat, cpu: bv32, u: Setup)
    requires i < |image|
  {
    Contributes(image[i], u.running, u.reset) && image[i].Target(u.running) == cpu && !ServedBefore(image, i, cpu, u)
  }

  /** The loader's own application is built for the other execution state. */
  ghost predicate StateClash(image: seq<Header>, u: Setup) {
    exists i :: 1 <= i < |image| && FirstLoadFor(image, i, u.running, u) && Differs(u.execState, image[i].ExecState())
  }

  /** Where the loader goes: to the first application loaded for its own CPU, if there is one. */
  ghost predicate Jumps(to: Option<Entry>, image: seq<Header>, u: Setup) {
    match to
    case None => !ServedBefore(image, |image|, u.running, u)
    case Some(e) => exists i :: 1 <= i < |image| && FirstLoadFor(image, i, u.running, u)
                                && Records(e, image[i], u.running)
  }

  ghost predicate PlatformFails(u: Setup) {
    exists t: nat :: !u.platformOk(t)
  }

  ghost predicate CpuFails(u: Setup) {
    exists t: nat :: !u.cpuOk(t)
  }

  /** Why a hand-off can fail. */
  ghost predicate Hindered(image: seq<Header>, u: Setup) {
    PlatformFails(u) || CpuFails(u) || StateClash(image, u)
  }

  ghost predicate LoadedWell(image: seq<Header>, p: nat, u: Setup)
    requires p <= |image|
  {
    forall i :: 1 <= i < p ==> LoadResult(image[i], u.running, u.reset) == PartitionLoad.Success
  }

  /** Every failure has its cause, and so has the way a run ends. */
  ghost predicate Caused(image: seq<Header>, a: Action, u: Setup)
    requires 1 < |image|
  {
    match a
    case InitFailed => !u.initOk || u.device == BadDevice
    case LoadFailed(m) =>
      1 <= m < |image|
      && (LoadResult(image[m], u.running, u.reset) != PartitionLoad.Success || !u.world.Obliging())
    case HandoffFailed => Hindered(image, u)
    case Exited(to) =>
      && u.initOk && u.device != BadDevice
      && if u.device == Jtag then to == None
         else
           && LoadedWell(image, LastLoad(image, 1, u) + 1, u)
           && if NoneOverdue(image, |image|, u) then Jumps(to, image, u) && !StateClash(image, u) else to == None
    case _ => true
  }

  /** Nothing stands in the way of a boot. */
  ghost predicate AllWell(image: seq<Header>, u: Setup) {
    && u.initOk && u.device != BadDevice && u.world.Obliging() && LoadedWell(image, |image|, u)
    && !Hindered(image, u)
  }

  /** An entry for the loader's CPU comes from the first partition loaded for it. */
  lemma RunningOrigin(image: seq<Header>, p: nat, k: nat, u: Setup)
    requires 1 <= p <= |image| && Running(u.running) && k < |TableTo(image, p, u)|
    requires TableTo(image, p, u)[k].Cpu() == u.running
    ensures exists i :: 1 <= i < p && FirstLoadFor(image, i, u.running, u)
                        && Records(TableTo(image, p, u)[k], image[i], u.running)
  {
    hide Contributes;
    hide Header.Target;
    hide Entry.Cpu;
    hide OneSlotPerCpu;
    hide Table;
    var part, table := image[1..p], TableTo(image, p, u);
    TableIsExact(part, u.running, u.reset);
    assert OfFirst(table[k], part, u.running, u.reset);
    var i :| 0 <= i < |part| && FirstForCpu(part, i, u.running, u.reset) && Records(table[k], part[i], u.running);
    assert image[i + 1] == part[i];
    FirstInImage(image, p, i, u);
  }

  lemma FirstInImage(image: seq<Header>, p: nat, i: nat, u: Setup)
    requires 1 <= p <= |image| && i < p - 1 && FirstForCpu(image[1..p], i, u.running, u.reset)
    requires image[i + 1].Target(u.running) == u.running
    ensures FirstLoadFor(image, i + 1, u.running, u)
  {
    hide Contributes;
    hide Header.Target;
    var part := image[1..p];
    assert part[i] == image[i + 1];
    forall j | 1 <= j < i + 1 && Contributes(image[j], u.running, u.reset)
      ensures image[j].Target(u.running) != u.running
    {
      assert part[j - 1] == image[j];
    }
  }

  /** A refused entry means a clash. */
  lemma RunningClash(image: seq<Header>, p: nat, k: nat, u: Setup)
    requires 1 <= p <= |image| && Running(u.running) && k < |TableTo(image, p, u)|
    requires var e := TableTo(image, p, u)[k]; e.Cpu() == u.running && Differs(u.execState, e.settings & 0x8)
    ensures StateClash(image, u)
  {
    hide TableTo;
    hide FirstLoadFor;
    RunningOrigin(image, p, k, u);
  }

  /** No refused entry means no clash. */
  lemma NoClash(image: seq<Header>, u: Setup)
    requires 1 <= |image| && Running(u.running)
    requires var table := TableTo(image, |image|, u);
             forall k :: 0 <= k < |table| && table[k].Cpu() == u.running ==>
               !Differs(u.execState, table[k].settings & 0x8)
    ensures !StateClash(image, u)
  {
    hide TableTo;
    hide Contributes;
    hide Header.Target;
    hide Entry.Cpu;
    var table := TableTo(image, |image|, u);
    forall i | 1 <= i < |image| && FirstLoadFor(image, i, u.running, u)
      ensures !Differs(u.execState, image[i].ExecState())
    {
      KnownIsServed(image, |image|, u.running, u);
      assert ServedBefore(image, |image|, u.running, u);
      var k :| 0 <= k < |table| && table[k].Cpu() == u.running;
      RunningOrigin(image, |image|, k, u);
      var j :| 1 <= j < |image| && FirstLoadFor(image, j, u.running, u) && Records(table[k], image[j], u.running);
      assert i == j;
    }
  }

  lemma JumpIsRight(image: seq<Header>, u: Setup)
    requires 1 <= |image| && Running(u.running)
    ensures var table := TableTo(image, |image|, u); Jumps(RunningEntry(table, |table|, u.running), image, u)
  {
    hide TableTo;
    hide Contributes;
    hide Header.Target;
    hide Entry.Cpu;
    hide FirstLoadFor;
    hide ServedBefore;
    var table := TableTo(image, |image|, u);
    RunningEntryFound(table, |table|, u.running);
    KnownIsServed(image, |image|, u.running, u);
    if RunningEntry(table, |table|, u.running).Some? {
      var k :| 0 <= k < |table| && table[k] == RunningEntry(table, |table|, u.running).value
               && table[k].Cpu() == u.running;
      RunningOrigin(image, |image|, k, u);
    }
  }

  // ---------------------------------------------------------------- between two stages

  /** Partition p is next. */
  ghost predicate Loading(image: seq<Header>, p: nat, e: nat, log: History, u: Setup) {
    && 1 <= p < |image| && u.device == Flash && Running(u.running)
    && Loads(log) == CountUp(p - 1) && StillLoading(log) && Counted(image, p, e, u)
    && (Planned(image, u) ==> OnSchedule(image, p, TableTo(image, p, u), e, log, u))
  }

  /** Partition p was the last to be loaded; `early` says that it was the last one of an R5. */
  ghost predicate Handing(image: seq<Header>, p: nat, e: nat, early: bool, log: History, u: Setup) {
    && 1 <= p < |image| && u.device == Flash && Running(u.running)
    && Loads(log) == CountUp(p) && StillLoading(log) && e <= |TableTo(image, p + 1, u)|
    && (if early then EarlyDue(image, p, u) && Counted(image, p, e, u)
        else p == |image| - 1 && NoneOverdue(image, p + 1, u))
    && (Planned(image, u) ==>
          if early then JustEnded(image, p, e, log, u) else EarlyComplete(image, TableTo(image, p + 1, u), log, u))
  }

  ghost predicate JustEnded(image: seq<Header>, p: nat, e: nat, log: History, u: Setup)
    requires 1 <= p < |image|
  {
    && |log| > 0 && log[|log| - 1] == Loaded(p)
    && OnSchedule(image, p, TableTo(image, p, u), e, log[..|log| - 1], u)
  }

  lemma LoadSucceeds(image: seq<Header>, p: nat, e: nat, log: History, u: Setup)
    requires Loading(image, p, e, log, u)
    ensures var after, due := log + [Loaded(p)], EarlyDue(image, p, u);
            if due then Handing(image, p, e, true, after, u)
            else if p < |image| - 1 then Loading(image, p + 1, e, after, u)
            else Handing(image, p, e, false, after, u)
  {
    var after := log + [Loaded(p)];
    LoadsStep(log, Loaded(p));
    CountUpStep(p - 1);
    TablePrefix(image, p, u);
    if EarlyDue(image, p, u) {
      assert after[..|after| - 1] == log;
    } else {
      CountedQuiet(image, p, e, u);
      if Planned(image, u) {
        PlainLoad(image, p, e, log, u);
        if p == |image| - 1 {
          ScheduleCompletes(image, e, after, u);
        }
      }
    }
  }

  /** What holds of every history. */
  ghost predicate Sound(image: seq<Header>, log: History, u: Setup) {
    && InOrder(log, |image|, u.device == Jtag)
    && (Planned(image, u) && u.device == Flash ==> Once(log) && Timely(log, image, u))
  }

  /** The loads are a beginning of those a run can come to. */
  ghost predicate UpTo(image: seq<Header>, log: History, u: Setup)
    requires 1 < |image|
  {
    exists m: nat :: m <= LastLoad(image, 1, u) && Loads(log) == CountUp(m)
  }

  /** The run ends in a failure, which it names. */
  ghost predicate Broken(image: seq<Header>, log: History, u: Setup)
    requires 1 < |image|
  {
    && |log| > 0 && UpTo(image, log, u)
    && var a := log[|log| - 1]; a.InitFailed? || a.LoadFailed? || a.HandoffFailed?
  }

  /** How a run ends: over JTAG without a load; locked down after a failure; or, after a flash
      boot, with all loads up to the first overdue partition, and with the regular hand-off
      exactly when there is no such partition. */
  ghost predicate Finished(image: seq<Header>, log: History, u: Setup)
    requires 1 < |image|
  {
    && |log| > 0
    && match log[|log| - 1]
       case Exited(_) =>
         if u.device == Jtag then Loads(log) == []
         else Loads(log) == CountUp(LastLoad(image, 1, u)) && (Regular in log <==> NoneOverdue(image, |image|, u))
       case LockedDown => Broken(image, log[..|log| - 1], u)
       case _ => false
  }

  /** A flash boot that is not stopped by a failure loads all partitions exactly when none but
      the last is overdue. */
  lemma LeavesEarly(image: seq<Header>, log: History, u: Setup)
    requires 1 < |image| && Finished(image, log, u) && u.device == Flash && log[|log| - 1].Exited?
    ensures Loads(log) == CountUp(|image| - 1) <==> NoneOverdue(image, |image| - 1, u)
  {
    var last := LastLoad(image, 1, u);
    assert |Loads(log)| == last;
  }

  /** An R5 partition that somebody else loads is enough: the loader leaves after it. */
  lemma ForeignR5Leaves(fsbl: Header, foreign: Header, app: Header, u: Setup)
    requires u.early && u.running == A53_0 && app.Cpu() == A53_0
    requires foreign.Cpu() == R5_0 && foreign.Owner() != OWNER_FSBL && foreign.checksumOk
    ensures var image := [fsbl, foreign, app];
            && ValidatePartition(foreign, u.running, u.reset) == NotOwner // which passes for a successful load
            && Overdue(image, 1, u) && LastLoad(image, 1, u) == 1 && !NoneOverdue(image, |image| - 1, u)
  {
    hide Header.Cpu;
    hide Header.Owner;
    var image := [fsbl, foreign, app];
    EffectiveR5(foreign, u, R5_0);
    EffectiveR5(app, u, R5_0);
    assert Dues(image, 1, u) == 0 && R5s(image, 1, u) == 0;
    assert !OpensR5(image, 1, u);
    assert Dues(image, 2, u) == 1 && R5s(image, 2, u) == 0;
  }

  /** When the loader leaves after a flash boot, everybody is out of reset. */
  ghost predicate WellEnded(image: seq<Header>, log: History, u: Setup)
    requires 1 < |image|
  {
    && Sound(image, log, u) && Finished(image, log, u)
    && (Planned(image, u) && u.device == Flash && log[|log| - 1].Exited? ==>
          AllReleased(TableTo(image, |image|, u), log, u))
  }

  lemma LoadFails(image: seq<Header>, p: nat, e: nat, log: History, u: Setup)
    requires Loading(image, p, e, log, u)
    ensures Sound(image, log + [LoadFailed(p)], u) && Broken(image, log + [LoadFailed(p)], u)
  {
    hide Loading;
    hide Timely;
    hide Once;
    hide InOrder;
    hide Broken;
    FailureInOrder(image, p, e, log, u);
    if Planned(image, u) {
      FailureInTime(image, p, e, log, u);
    }
  }

  lemma FailureInOrder(image: seq<Header>, p: nat, e: nat, log: History, u: Setup)
    requires Loading(image, p, e, log, u)
    ensures 1 < |image| && u.device == Flash && InOrder(log + [LoadFailed(p)], |image|, false)
    ensures Broken(image, log + [LoadFailed(p)], u)
  {
    hide InOrder;
    hide Planned;
    hide OnSchedule;
    EndInOrder(log, LoadFailed(p), p - 1, |image|, false);
    LoadsStep(log, LoadFailed(p));
    CountUpStep(p - 1);
    LastLoadBeyond(image, p, u);
  }

  lemma FailureInTime(image: seq<Header>, p: nat, e: nat, log: History, u: Setup)
    requires Loading(image, p, e, log, u) && Planned(image, u)
    ensures Once(log + [LoadFailed(p)]) && Timely(log + [LoadFailed(p)], image, u)
  {
    hide Planned;
    TimelyGrows(log, LoadFailed(p), image, u);
    OnceGrows(log, LoadFailed(p));
  }

  function ReleaseOf(e: Entry, u: Setup): History {
    if e.Cpu() != u.running then [Released(e.Cpu())] else []
  }

  lemma EarlyReleaseKeepsLoads(log: History, e: Entry, u: Setup)
    requires StillLoading(log)
    ensures Loads(log + ReleaseOf(e, u)) == Loads(log) && StillLoading(log + ReleaseOf(e, u))
  {
    LoadsSkip(log, ReleaseOf(e, u));
  }

  /** After an early hand-off the next partition is loaded, or the rest of the CPUs follow;
      unless the partition is overdue. */
  lemma EarlySucceeds(image: seq<Header>, p: nat, e: nat, log: History, u: Setup)
    requires Handing(image, p, e, true, log, u)
    ensures var table := TableTo(image, p + 1, u);
            var k := FirstEarly(table, e, u);
            && (k < |table| <==> !Overdue(image, p, u))
            && (k < |table| ==>
                  if p < |image| - 1 then Loading(image, p + 1, k + 1, log + ReleaseOf(table[k], u), u)
                  else Handing(image, p, k, false, log + ReleaseOf(table[k], u), u))
  {
    hide Header.Cpu;
    hide Contributes;
    hide EarlyDue;
    hide Overdue;
    var table := TableTo(image, p + 1, u);
    var k := FirstEarly(table, e, u);
    CountedEarly(image, p, e, u);
    if k < |table| {
      EarlyReleaseKeepsLoads(log, table[k], u);
      if Planned(image, u) {
        EarlyPlanned(image, p, e, log, u);
      }
    }
  }

  lemma EarlyPlanned(image: seq<Header>, p: nat, e: nat, log: History, u: Setup)
    requires Handing(image, p, e, true, log, u) && Planned(image, u)
    ensures var table := TableTo(image, p + 1, u);
            var k := FirstEarly(table, e, u);
            k < |table|
            && var after := log + ReleaseOf(table[k], u);
            && OnSchedule(image, p + 1, table, k + 1, after, u)
            && (p == |image| - 1 ==> EarlyComplete(image, table, after, u))
  {
    hide Header.Cpu;
    hide Contributes;
    hide OnSchedule;
    hide EarlyComplete;
    hide Planned;
    hide TableTo;
    var table := TableTo(image, p + 1, u);
    var k := FirstEarly(table, e, u);
    var before := log[..|log| - 1];
    PlannedEarly(image, p, u);
    EarlyLoad(image, p, e, before, u);
    assert log == before + [Loaded(p)];
    if p == |image| - 1 {
      assert Loaded(p) in log + ReleaseOf(table[k], u);
      ScheduleCompletes(image, k + 1, log + ReleaseOf(table[k], u), u);
    }
  }

  lemma PlannedEarly(image: seq<Header>, p: nat, u: Setup)
    requires p < |image| && Planned(image, u) && EarlyDue(image, p, u)
    ensures Intended(image, u)
  {
  }

  /** An early hand-off that finds nobody leaves at once; that never happens to a planned image. */
  lemma EarlyLeaves(image: seq<Header>, p: nat, e: nat, log: History, u: Setup)
    requires Handing(image, p, e, true, log, u)
             && FirstEarly(TableTo(image, p + 1, u), e, u) >= |TableTo(image, p + 1, u)|
    ensures WellEnded(image, log + [Exited(None)], u) && !Planned(image, u) && LastLoad(image, 1, u) == p
  {
    EarlySucceeds(image, p, e, log, u);
    EndInOrder(log, Exited(None), p, |image|, false);
    LoadsStep(log, Exited(None));
    LastLoadIs(image, p, u);
    if Planned(image, u) {
      PlannedNeverOverdue(image, u);
    }
  }

  /** A hand-off can fail before it does anything. */
  lemma HandoffStops(image: seq<Header>, p: nat, e: nat, early: bool, log: History, u: Setup)
    requires Handing(image, p, e, early, log, u)
    ensures Sound(image, log + [HandoffFailed], u) && Broken(image, log + [HandoffFailed], u)
  {
    hide Handing;
    hide Timely;
    hide Once;
    hide InOrder;
    hide Broken;
    StopInOrder(image, p, e, early, log, u);
    if Planned(image, u) {
      StopInTime(image, p, e, early, log, u);
    }
  }

  lemma StopInOrder(image: seq<Header>, p: nat, e: nat, early: bool, log: History, u: Setup)
    requires Handing(image, p, e, early, log, u)
    ensures 1 < |image| && u.device == Flash && InOrder(log + [HandoffFailed], |image|, false)
    ensures Broken(image, log + [HandoffFailed], u)
  {
    hide InOrder;
    hide Planned;
    EndInOrder(log, HandoffFailed, p, |image|, false);
    LoadsStep(log, HandoffFailed);
    LastLoadBeyond(image, p, u);
  }

  lemma StopInTime(image: seq<Header>, p: nat, e: nat, early: bool, log: History, u: Setup)
    requires Handing(image, p, e, early, log, u) && Planned(image, u)
    ensures Once(log + [HandoffFailed]) && Timely(log + [HandoffFailed], image, u)
  {
    hide Planned;
    hide EarlyDue;
    hide Timely;
    if early {
      var before := log[..|log| - 1];
      assert log == before + [Loaded(p)];
      TimelyGrows(before, Loaded(p), image, u);
      OnceGrows(before, Loaded(p));
    }
    TimelyGrows(log, HandoffFailed, image, u);
    OnceGrows(log, HandoffFailed);
  }

  /** The order of the loads around a regular hand-off that releases n entries. */
  lemma RegularOrdered(image: seq<Header>, p: nat, e: nat, log: History, n: nat, a: Action, u: Setup)
    requires Handing(image, p, e, false, log, u) && n <= |TableTo(image, p + 1, u)| && (a.Exited? || a.HandoffFailed?)
    ensures var after := log + [Regular] + Others(TableTo(image, p + 1, u), n, u) + [a];
            && InOrder(after, |image|, false) && Loads(after) == CountUp(p) && Regular in after
            && LastLoad(image, 1, u) == p && NoneOverdue(image, |image|, u)
  {
    hide Others;
    hide EarlyDue;
    hide InOrder;
    hide Planned;
    hide TableTo;
    var others := Others(TableTo(image, p + 1, u), n, u);
    DistinctTable(image, p + 1, u);
    OthersReleased(TableTo(image, p + 1, u), n, u);
    RegularInOrder(log, others + [a], |image|, false);
    LoadsSkip(log, [Regular] + (others + [a]));
    assert log + [Regular] + (others + [a]) == log + [Regular] + others + [a];
    assert log + ([Regular] + (others + [a])) == log + [Regular] + others + [a];
    assert (log + [Regular] + others + [a])[|log|] == Regular;
    LastLoadIs(image, p, u);
  }

  lemma DistinctTable(image: seq<Header>, p: nat, u: Setup)
    requires 1 <= p <= |image| && Running(u.running)
    ensures Distinct(TableTo(image, p, u))
  {
    TableIsExact(image[1..p], u.running, u.reset);
  }

  lemma RegularStops(image: seq<Header>, p: nat, e: nat, log: History, n: nat, u: Setup)
    requires Handing(image, p, e, false, log, u) && n <= |TableTo(image, p + 1, u)|
    ensures var after := log + [Regular] + Others(TableTo(image, p + 1, u), n, u) + [HandoffFailed];
            Sound(image, after, u) && Broken(image, after, u)
  {
    RegularOrdered(image, p, e, log, n, HandoffFailed, u);
    hide Others;
    hide EarlyDue;
    hide InOrder;
    hide NoneOverdue;
    hide TableTo;
    var table := TableTo(image, p + 1, u);
    var mid := log + [Regular] + Others(table, n, u);
    if Planned(image, u) {
      RegularKeeps(image, table, log, n, u);
      TimelyGrows(mid, HandoffFailed, image, u);
      OnceGrows(mid, HandoffFailed);
    }
  }

  lemma RegularSucceeds(image: seq<Header>, p: nat, e: nat, log: History, to: Option<Entry>, u: Setup)
    requires Handing(image, p, e, false, log, u)
    ensures var table := TableTo(image, p + 1, u);
            && WellEnded(image, log + [Regular] + Others(table, |table|, u) + [Exited(to)], u)
            && LastLoad(image, 1, u) == p == |image| - 1 && NoneOverdue(image, |image|, u)
  {
    hide EarlyDue;
    hide InOrder;
    hide TableTo;
    hide NoneOverdue;
    hide Timely;
    hide AllReleased;
    hide WellEnded;
    var table := TableTo(image, p + 1, u);
    RegularOrdered(image, p, e, log, |table|, Exited(to), u);
    if Planned(image, u) {
      RegularFinishes(image, table, log, to, u);
    }
    EndsWell(image, log + [Regular] + Others(table, |table|, u) + [Exited(to)], u);
  }

  lemma EndsWell(image: seq<Header>, log: History, u: Setup)
    requires 1 < |image| && u.device == Flash && |log| > 0 && log[|log| - 1].Exited? && InOrder(log, |image|, false)
    requires Loads(log) == CountUp(|image| - 1) && LastLoad(image, 1, u) == |image| - 1
    requires Regular in log && NoneOverdue(image, |image|, u)
    requires Planned(image, u) ==> AllReleased(TableTo(image, |image|, u), log, u) && Timely(log, image, u)
    ensures WellEnded(image, log, u)
  {
    hide InOrder;
    hide Timely;
    hide TableTo;
    hide NoneOverdue;
  }

  /** Why a hand-off stops at entry k, or before it comes to any. */
  ghost predicate Stopped(table: seq<Entry>, k: nat, u: Setup) {
    PlatformFails(u) || (k < |table| && Refuses(table[k], u))
  }

  ghost predicate Refuses(e: Entry, u: Setup) {
    if e.Cpu() == u.running then Differs(u.execState, e.settings & 0x8) else CpuFails(u)
  }

  lemma StoppedIsHindered(image: seq<Header>, p: nat, k: nat, u: Setup)
    requires 1 <= p <= |image| && Running(u.running) && Stopped(TableTo(image, p, u), k, u)
    ensures Hindered(image, u)
  {
    hide TableTo;
    hide StateClash;
    hide Entry.Cpu;
    var table := TableTo(image, p, u);
    if k < |table| && Refuses(table[k], u) && table[k].Cpu() == u.running {
      RunningClash(image, p, k, u);
    }
  }

  /** The static index never passes the end of the table. */
  lemma IndexInside(image: seq<Header>, p: nat, e: nat, log: History, u: Setup)
    requires 1 <= p < |image|
    ensures p + 1 < |image| && Loading(image, p + 1, e, log, u) ==> e <= |TableTo(image, p + 1, u)|
    ensures Handing(image, p, e, false, log, u) ==> e <= |TableTo(image, p + 1, u)|
  {
  }

  lemma FailureCaused(image: seq<Header>, p: nat, k: nat, u: Setup)
    requires 1 < |image| && 1 <= p <= |image| && Running(u.running)
    requires var table := TableTo(image, p, u); PlatformFails(u) || (k < |table| && Refuses(table[k], u))
    ensures Caused(image, HandoffFailed, u)
  {
    hide Hindered;
    StoppedIsHindered(image, p, k, u);
  }

  /** The exit that ends a regular hand-off. */
  lemma ExitCaused(image: seq<Header>, to: Option<Entry>, u: Setup)
    requires 1 < |image| && Running(u.running) && u.initOk && u.device == Flash
    requires LastLoad(image, 1, u) == |image| - 1 && LoadedWell(image, |image|, u) && NoneOverdue(image, |image|, u)
    requires var table := TableTo(image, |image|, u);
             && to == RunningEntry(table, |table|, u.running)
             && forall k :: 0 <= k < |table| && table[k].Cpu() == u.running ==>
                  !Differs(u.execState, table[k].settings & 0x8)
    ensures Caused(image, Exited(to), u)
  {
    hide TableTo;
    hide Jumps;
    hide StateClash;
    hide RunningEntry;
    hide LoadedWell;
    JumpIsRight(image, u);
    NoClash(image, u);
  }

  /** What an early call of the hand-off leaves. */
  ghost predicate EarlyResult(image: seq<Header>, p: nat, table: seq<Entry>, e: nat, before: History,
                              status: Handed, e': nat, after: History, u: Setup)
  {
    var k := FirstEarly(table, e, u);
    if status == Failed then after == before && Stopped(table, k, u)
    else if k >= |table| then status == Gone && after == before + [Exited(None)]
    else
      && after == before + ReleaseOf(table[k], u)
      && if p < |image| - 1 then status == ContinueLoad && e' == k + 1 else status == ContinueOthers && e' == k
  }

  lemma EarlyOutcome(image: seq<Header>, p: nat, e: nat, before: History, status: Handed, e': nat, after: History,
                     u: Setup)
    requires Handing(image, p, e, true, before, u)
    requires EarlyResult(image, p, TableTo(image, p + 1, u), e, before, status, e', after, u)
    ensures match status
            case ContinueLoad => p + 1 < |image| && Loading(image, p + 1, e', after, u)
            case ContinueOthers => Handing(image, p, e', false, after, u)
            case Failed =>
              && Sound(image, after + [HandoffFailed], u) && Broken(image, after + [HandoffFailed], u)
              && Hindered(image, u)
            case Gone =>
              && WellEnded(image, after, u) && LastLoad(image, 1, u) == p && !NoneOverdue(image, |image|, u)
              && after == before + [Exited(None)]
  {
    hide Hindered;
    hide Stopped;
    hide WellEnded;
    hide Sound;
    hide Broken;
    hide Overdue;
    EarlySucceeds(image, p, e, before, u);
    HandoffStops(image, p, e, true, before, u);
    if status == Failed {
      StoppedIsHindered(image, p + 1, FirstEarly(TableTo(image, p + 1, u), e, u), u);
    }
    if FirstEarly(TableTo(image, p + 1, u), e, u) >= |TableTo(image, p + 1, u)| {
      EarlyLeaves(image, p, e, before, u);
    }
  }

  // ---------------------------------------------------------------- the code, in place

  class Machine {
    const image: seq<Header>
    const u: Setup
    const loader: Loader
    var stage: Stage
    var partitionNum: nat
    var earlyHandoff: bool
    var cpuIndexEarlyHandoff: nat
    var time: nat
    ghost var log: History

    constructor (image: seq<Header>, u: Setup)
      requires 1 < |image| <= 32 && Running(u.running)
      ensures this.image == image && this.u == u
      ensures Wired() && Begun() && fresh(loader) && fresh(loader.handoffValues)
    {
      this.image, this.u := image, u;
      loader := new Loader(u.running, u.reset, u.world);
      stage, partitionNum, earlyHandoff, cpuIndexEarlyHandoff, time := Stage1, 0, false, 0, 0;
      log := [];
    }

    ghost predicate Wired()
      reads this, loader, loader.handoffValues
    {
      && 1 < |image| <= 32 && Running(u.running) && u.running == loader.running && u.reset == loader.reset
      && u.world == loader.world
      && loader.Valid()
    }

    ghost predicate Begun()
      reads this, loader, loader.handoffValues
    {
      && Wired() && (stage == Stage1 || (stage == Stage2 && u.initOk)) && partitionNum == 0 && !earlyHandoff
      && cpuIndexEarlyHandoff == 0 && loader.Slots() == [] && log == [] && loader.Tcm() == Tcm.COLD
    }

    /** The memories hold what the partitions 1 .. p - 1 put there. */
    ghost predicate MemoryTo(p: nat)
      requires 1 <= p <= |image|
      reads this, loader
    {
      loader.Tcm() == TcmState(image[1..p], u.running, u.reset)
    }

    ghost predicate AtLoad()
      reads this, loader, loader.handoffValues
    {
      && Wired() && stage == Stage3 && 1 <= partitionNum < |image| && u.device == Flash
          && cpuIndexEarlyHandoff <= loader.handoffCpuNo
      && Loading(image, partitionNum, cpuIndexEarlyHandoff, log, u)
      && loader.Slots() == TableTo(image, partitionNum, u) && MemoryTo(partitionNum)
      && u.initOk && LoadedWell(image, partitionNum, u)
    }

    ghost predicate AtHandoff()
      reads this, loader, loader.handoffValues
    {
      && Wired() && stage == Stage4 && 1 <= partitionNum < |image| && u.device == Flash
          && cpuIndexEarlyHandoff <= loader.handoffCpuNo
      && Handing(image, partitionNum, cpuIndexEarlyHandoff, earlyHandoff, log, u)
      && loader.Slots() == TableTo(image, partitionNum + 1, u) && MemoryTo(partitionNum + 1)
      && u.initOk && LoadedWell(image, partitionNum + 1, u)
    }

    ghost predicate AtJtag()
      reads this, loader, loader.handoffValues
    {
      Wired() && stage == Stage4 && u.device == Jtag && partitionNum == 0 && !earlyHandoff
      && cpuIndexEarlyHandoff == 0 && log == [] && u.initOk
    }

    method Ask(answers: nat -> bool) returns (ok: bool)
      modifies this`time
      ensures time == old(time) + 1 && ok == answers(old(time))
    {
      ok := answers(time);
      time := time + 1;
    }

    /** One entry of the hand-off loop: release another CPU, or remember the running one. */
    method HandoffEntry(entry: Entry) returns (ok: bool, present: bool)
      modifies this`time, this`log
      ensures ok ==> log == old(log) + ReleaseOf(entry, u)
      ensures !ok ==> log == old(log) && Refuses(entry, u)
      ensures present <==> entry.Cpu() == u.running
      ensures ok && present ==> !Differs(u.execState, entry.settings & 0x8)
    {
      present := false;
      var cpu := entry.settings & 0xF00;
      var execState := entry.settings & 0x8;
      ok := true;
      if cpu != u.running {
        ok := Ask(u.cpuOk); // supported, powered up, taken out of reset
        if ok {
          log := log + [Released(cpu)];
        }
      } else {
        present := true;
        if u.execState == 0 && execState == 8 {
          ok := false;
        } else if u.execState == 8 && execState == 0 {
          ok := false;
        }
      }
    }

    /** The hand-off loop when it is called early: up to the first entry that wants it. */
    method EarlyLoop() returns (status: Handed)
      requires Wired() && cpuIndexEarlyHandoff <= loader.handoffCpuNo
      modifies this`time, this`log, this`cpuIndexEarlyHandoff
      ensures var table := loader.Slots();
              var k := FirstEarly(table, old(cpuIndexEarlyHandoff), u);
              if k >= |table| then status == Gone && log == old(log) + [Exited(None)]
              else
                && status in {Failed, ContinueLoad, ContinueOthers}
                && (status == Failed ==> log == old(log) && Refuses(table[k], u))
                && (status == ContinueLoad ==> partitionNum < |image| - 1 && cpuIndexEarlyHandoff == k + 1)
                && (status == ContinueOthers ==> partitionNum >= |image| - 1 && cpuIndexEarlyHandoff == k)
                && (status != Failed ==> log == old(log) + ReleaseOf(table[k], u))
    {
      hide OneSlotPerCpu;
      var cpuIndex := cpuIndexEarlyHandoff;
      while cpuIndex < loader.handoffCpuNo
        invariant cpuIndex == cpuIndexEarlyHandoff <= loader.handoffCpuNo && log == old(log)
        invariant FirstEarly(loader.Slots(), cpuIndex, u) == FirstEarly(loader.Slots(), old(cpuIndexEarlyHandoff), u)
      {
        var entry := loader.handoffValues[cpuIndex];
        assert entry == loader.Slots()[cpuIndex];
        if NeedsEarly(u.early, entry.settings & 0xF00) {
          var ok, present := HandoffEntry(entry);
          if !ok {
            return Failed;
          }
          if partitionNum < |image| - 1 {
            cpuIndexEarlyHandoff := cpuIndexEarlyHandoff + 1;
            return ContinueLoad;
          }
          return ContinueOthers;
        }
        cpuIndex := cpuIndex + 1;
        cpuIndexEarlyHandoff := cpuIndexEarlyHandoff + 1;
      }
      log := log + [Exited(None)];
      status := Gone;
    }

    /** The hand-off loop over the whole table, and the exit. */
    method RegularLoop() returns (ok: bool)
      requires Wired()
      modifies this`time, this`log, this`cpuIndexEarlyHandoff
      ensures var table, n := loader.Slots(), loader.handoffCpuNo;
              if ok then
                && log == old(log) + Others(table, n, u) + [Exited(RunningEntry(table, n, u.running))]
                && NoneRefused(table, n)
              else exists k :: 0 <= k < n && HaltedAt(table, k, old(log))
    {
      hide OneSlotPerCpu;
      hide Refuses;
      hide Differs;
      var cpuIndex: nat := 0;
      var address: Option<Entry> := None;
      ghost var slots := loader.Slots();
      assert log == old(log) + Others(slots, 0, u);
      hide Others;
      hide RunningEntry;
      hide NoneRefused;
      hide HaltedAt;
      EntryNext(slots, 0);
      while cpuIndex < loader.handoffCpuNo
        invariant 0 <= cpuIndex <= loader.handoffCpuNo && loader.Slots() == slots
        invariant log == old(log) + Others(slots, cpuIndex, u)
        invariant address == RunningEntry(slots, cpuIndex, u.running) && NoneRefused(slots, cpuIndex)
      {
        var entry := loader.handoffValues[cpuIndex];
        assert entry == slots[cpuIndex];
        OthersNext(old(log), slots, cpuIndex, u);
        EntryNext(slots, cpuIndex);
        var cpu := entry.settings & 0xF00;
        if !NeedsEarly(u.early, cpu) || cpu == u.running {
          var here;
          ok, here := HandoffEntry(entry);
          if !ok {
            HaltsAt(old(log), slots, cpuIndex);
            assert HaltedAt(loader.Slots(), cpuIndex, old(log));
            return;
          }
          if here {
            address := Some(entry);
          }
        }
        cpuIndex := cpuIndex + 1;
        cpuIndexEarlyHandoff := cpuIndexEarlyHandoff + 1;
      }
      log := log + [Exited(address)];
      ok := true;
    }

    /** None of the first n entries is for the loader's CPU in the other execution state. */
    ghost predicate NoneRefused(table: seq<Entry>, n: nat)
      requires n <= |table|
    {
      forall k :: 0 <= k < n && table[k].Cpu() == u.running ==> !Differs(u.execState, table[k].settings & 0x8)
    }

    /** What the next entry means for the exit. */
    lemma EntryNext(table: seq<Entry>, k: nat)
      requires k <= |table|
      ensures RunningEntry(table, 0, u.running) == None && NoneRefused(table, 0)
      ensures k < |table| ==>
                && RunningEntry(table, k + 1, u.running) ==
                   (if table[k].Cpu() == u.running then Some(table[k]) else RunningEntry(table, k, u.running))
                && (NoneRefused(table, k + 1) <==>
                    NoneRefused(table, k)
                    && (table[k].Cpu() == u.running ==> !Differs(u.execState, table[k].settings & 0x8)))
    {
      hide Differs;
    }

    lemma HaltsAt(before: History, table: seq<Entry>, k: nat)
      requires k < |table| && log == before + Others(table, k, u) && Refuses(table[k], u)
      ensures HaltedAt(table, k, before)
    {
    }

    /** XFsbl_Handoff. */
    method HandOff() returns (status: Handed)
      requires Wired() && cpuIndexEarlyHandoff <= loader.handoffCpuNo && u.device != BadDevice
      modifies this`time, this`log, this`cpuIndexEarlyHandoff
      ensures u.device == Jtag ==>
              && status in {Gone, Failed} && log == old(log) + (if status == Gone then [Exited(None)] else [])
              && (status == Failed ==> PlatformFails(u) && u.reset != ApuOnlyReset)
      ensures u.device == Flash && earlyHandoff ==>
                EarlyResult(image, partitionNum, loader.Slots(), old(cpuIndexEarlyHandoff), old(log), status,
                    cpuIndexEarlyHandoff, log, u)
      ensures u.device == Flash && !earlyHandoff ==> AfterRegular(status, old(log))
    {
      hide Refuses;
      hide Others;
      hide OneSlotPerCpu;
      hide FirstEarly;
      hide RunningEntry;
      var ok := true;
      if u.reset != ApuOnlyReset {
        ok := Ask(u.platformOk); // power management and protection
        if !ok {
          return Failed;
        }
      }
      if u.device == Jtag {
        log := log + [Exited(None)];
        return Gone;
      }
      ok := Ask(u.platformOk); // the hook before a hand-off
      if !ok {
        return Failed;
      }
      if earlyHandoff {
        status := EarlyLoop();
      } else {
        log := log + [Regular];
        ok := RegularLoop();
        status := if ok then Gone else Failed;
        if !ok {
          ghost var table := loader.Slots();
          ghost var k :| 0 <= k < loader.handoffCpuNo && HaltedAt(table, k, old(log) + [Regular]);
          assert StoppedAt(table, k, old(log));
        }
      }
    }

    /** What the regular call leaves. */
    ghost predicate AfterRegular(status: Handed, before: History)
      requires loader.handoffCpuNo <= loader.handoffValues.Length
      reads this, loader, loader.handoffValues
    {
      var table, n := loader.Slots(), loader.handoffCpuNo;
      if status == Gone then
        && log == before + [Regular] + Others(table, n, u) + [Exited(RunningEntry(table, n, u.running))]
        && NoneRefused(table, n)
      else
        status == Failed
        && ((log == before && PlatformFails(u)) || exists k :: 0 <= k < n && StoppedAt(table, k, before))
    }

    ghost predicate StoppedAt(table: seq<Entry>, k: nat, before: History)
      requires k < |table|
      reads this
    {
      HaltedAt(table, k, before + [Regular])
    }

    /** The loop over the table has come to entry k, and that one refuses. */
    ghost predicate HaltedAt(table: seq<Entry>, k: nat, before: History)
      requires k < |table|
      reads this
    {
      log == before + Others(table, k, u) && Refuses(table[k], u)
    }

    /** A stage failed. */
    ghost predicate AtErr()
      reads this, loader, loader.handoffValues
    {
      && Wired() && stage == StageErr && Sound(image, log, u) && Broken(image, log, u)
      && Caused(image, log[|log| - 1], u)
    }

    /** Stage 3. */
    method LoadTurn()
      requires AtLoad()
      modifies this, loader, loader.handoffValues
      ensures AtErr() || (AtLoad() && partitionNum == old(partitionNum) + 1)
              || (AtHandoff() && partitionNum == old(partitionNum))
    {
      hide Sound;
      hide Broken;
      hide Loading;
      hide Handing;
      hide Contributes;
      hide Copies;
      hide RefusedAfterCopy;
      hide FitsWithCertificate;
      hide LoadResult;
      hide TableTo;
      hide TableAfter;
      hide TcmAfter;
      hide TcmState;
      hide OneSlotPerCpu;
      TableStep(image, partitionNum, u);
      TablePrefix(image, partitionNum, u);
      MemoryStep(image, partitionNum, u);
      var result := loader.PartitionLoad(image[partitionNum]);
      if result != Success {
        LoadFails(image, partitionNum, cpuIndexEarlyHandoff, log, u);
        log := log + [LoadFailed(partitionNum)];
        stage := StageErr;
      } else {
        NextStage();
      }
    }

    /** The partition is loaded: on to the next one, or to a hand-off. */
    method NextStage()
      requires Wired() && stage == Stage3 && 1 <= partitionNum < |image| && u.device == Flash
      requires cpuIndexEarlyHandoff <= loader.handoffCpuNo
      requires Loading(image, partitionNum, cpuIndexEarlyHandoff, log, u)
      requires loader.Slots() == TableTo(image, partitionNum + 1, u) && MemoryTo(partitionNum + 1)
      requires u.initOk && LoadedWell(image, partitionNum + 1, u)
      modifies this
      ensures (AtLoad() && partitionNum == old(partitionNum) + 1) || (AtHandoff() && partitionNum == old(partitionNum))
    {
      hide Loading;
      hide Handing;
      hide TableTo;
      hide EarlyDue;
      hide TcmState;
      hide OneSlotPerCpu;
      LoadSucceeds(image, partitionNum, cpuIndexEarlyHandoff, log, u);
      log := log + [Loaded(partitionNum)];
      var due := EarlyDue(image, partitionNum, u);
      if partitionNum < |image| - 1 {
        if due {
          earlyHandoff := true;
          stage := Stage4;
        } else {
          partitionNum := partitionNum + 1;
        }
      } else {
        stage := Stage4;
        earlyHandoff := due;
      }
    }

    /** The loader left after a flash boot. */
    ghost predicate Complete()
      requires 1 < |image|
      reads this
    {
      u.device == Flash && |log| > 0 && log[|log| - 1].Exited?
    }

    /** The run is over; a complete one has put all partitions it came to in place. */
    ghost predicate Ended()
      reads this, loader, loader.handoffValues
    {
      Wired() && WellEnded(image, log, u) && (Complete() ==> MemoryTo(LastLoad(image, 1, u) + 1)) && EndCaused()
    }

    /** The end of the run has its cause; a lock-down that of the failure before it. */
    ghost predicate EndCaused()
      requires 1 < |image|
      reads this
    {
      && |log| > 0
      && (log[|log| - 1].Exited? ==> Caused(image, log[|log| - 1], u))
      && (log[|log| - 1] == LockedDown ==> |log| > 1 && Caused(image, log[|log| - 2], u))
    }

    /** If nothing stands in its way, the loader leaves. */
    lemma RunsThrough()
      requires Ended() && AllWell(image, u)
      ensures log[|log| - 1].Exited?
    {
      hide Sound;
      hide Hindered;
    }

    /** After a complete run on the A53 no TCM partition was overwritten by an ECC fill exactly
        when the partitions up to the last load keep the order. */
    lemma BootKeepsTcm()
      requires Ended() && Complete() && u.running == A53_0
      requires Tcm.AllProper(Jobs(image[1..LastLoad(image, 1, u) + 1], u.reset))
      ensures Tcm.Safe(loader.log) <==> Tcm.Kept(Tcm.TcmCpus(Jobs(image[1..LastLoad(image, 1, u) + 1], u.reset)))
    {
      hide WellEnded;
      hide LastLoad;
      hide Jobs;
      hide TcmState;
      hide Tcm.Kept;
      hide Tcm.Safe;
      hide OneSlotPerCpu;
      ImageKeepsTcm(image[1..LastLoad(image, 1, u) + 1], u.reset, image[0]);
    }

    /** Stage 4. */
    method HandoffTurn() returns (gone: bool)
      requires AtHandoff() || AtJtag()
      modifies this
      ensures gone ==> Ended()
      ensures !gone ==>
                || (AtLoad() && partitionNum == old(partitionNum) + 1)
                || (AtHandoff() && partitionNum == old(partitionNum) && old(earlyHandoff) && !earlyHandoff)
                || AtErr()
    {
      if u.device == Jtag {
        gone := JtagTurn();
      } else if earlyHandoff {
        gone := EarlyTurn();
      } else {
        gone := RegularTurn();
      }
    }

    method JtagTurn() returns (gone: bool)
      requires AtJtag()
      modifies this
      ensures if gone then Ended() else AtErr()
    {
      hide InOrder;
      hide Planned;
      hide Once;
      hide Timely;
      var status := HandOff();
      gone := status == Gone;
      ghost var a := if gone then Exited(None) else HandoffFailed;
      EndInOrder([], a, 0, |image|, true);
      LoadsStep([], a);
      assert [] + [a] == [a] && CountUp(0) == [];
      if !gone {
        log := log + [HandoffFailed];
        stage := StageErr;
      }
    }

    method EarlyTurn() returns (gone: bool)
      requires AtHandoff() && earlyHandoff
      modifies this
      ensures gone ==> Ended()
      ensures !gone ==>
                || (AtLoad() && partitionNum == old(partitionNum) + 1)
                || (AtHandoff() && partitionNum == old(partitionNum) && !earlyHandoff)
                || AtErr()
    {
      hide Handing;
      hide Loading;
      hide Sound;
      hide Broken;
      hide WellEnded;
      hide TableTo;
      hide EarlyResult;
      hide TcmState;
      hide OneSlotPerCpu;
      hide Hindered;
      hide LoadedWell;
      hide NoneOverdue;
      ghost var before, e := log, cpuIndexEarlyHandoff;
      var status := HandOff();
      gone := status == Gone;
      EarlyOutcome(image, partitionNum, e, before, status, cpuIndexEarlyHandoff, log, u);
      IndexInside(image, partitionNum, cpuIndexEarlyHandoff, log, u);
      if status == ContinueLoad {
        partitionNum := partitionNum + 1;
        stage := Stage3;
      } else if status == ContinueOthers {
        earlyHandoff := false;
      } else if status == Failed {
        assert Caused(image, HandoffFailed, u);
        log := log + [HandoffFailed];
        stage := StageErr;
      }
    }

    method RegularTurn() returns (gone: bool)
      requires AtHandoff() && !earlyHandoff
      modifies this
      ensures if gone then Ended() else AtErr()
    {
      hide Sound;
      hide Broken;
      hide WellEnded;
      hide Handing;
      hide TableTo;
      hide Others;
      hide RunningEntry;
      hide Caused;
      hide Hindered;
      hide Refuses;
      hide Differs;
      hide TcmState;
      hide OneSlotPerCpu;
      ghost var before, e, p := log, cpuIndexEarlyHandoff, partitionNum;
      ghost var table := loader.Slots();
      HandoffStops(image, p, e, false, before, u);
      var status := HandOff();
      gone := status == Gone;
      if gone {
        ghost var to := RunningEntry(table, |table|, u.running);
        RegularSucceeds(image, p, e, before, to, u);
        ExitCaused(image, to, u);
      } else {
        if log == before {
          FailureCaused(image, p + 1, 0, u);
        } else {
          ghost var k: nat :| k < loader.handoffCpuNo && StoppedAt(table, k, before);
          RegularStops(image, p, e, before, k, u);
          FailureCaused(image, p + 1, k, u);
        }
        log := log + [HandoffFailed];
        stage := StageErr;
      }
    }

    /** Where the main loop can be. */
    ghost predicate InLoop()
      reads this, loader, loader.handoffValues
    {
      || Begun() || AtLoad() || AtHandoff() || AtJtag() || AtErr()
      || (stage == StageDefault && Ended())
    }

    method InitTurn()
      requires Begun()
      modifies this
      ensures Begun() || AtLoad() || AtJtag() || AtErr()
      ensures Rank(stage) < Rank(old(stage))
    {
      hide Loading;
      hide Sound;
      hide Broken;
      hide TableTo;
      hide TcmState;
      hide OneSlotPerCpu;
      NothingYet(image, u);
      if stage == Stage1 && u.initOk {
        stage := Stage2;
      } else if stage == Stage1 {
        log := log + [InitFailed];
        stage := StageErr;
      } else {
        match u.device {
          case BadDevice =>
            log := log + [InitFailed];
            stage := StageErr;
          case Jtag => stage := Stage4;
          case Flash =>
            partitionNum := 1;
            stage := Stage3;
        }
      }
    }

    /** ErrorLockDown. */
    method LockDown()
      requires AtErr()
      modifies this
      ensures Ended() && stage == StageDefault
    {
      LockdownInOrder(log, |image|, u.device == Jtag);
      if Planned(image, u) && u.device == Flash {
        TimelyGrows(log, LockedDown, image, u);
        OnceGrows(log, LockedDown);
      }
      assert (log + [LockedDown])[..|log|] == log;
      log := log + [LockedDown];
      stage := StageDefault;
    }

    /** main: it ends, over JTAG, in a lock-down after a named failure, or with all loads up to
        the first overdue partition; the loads are in order and, for the images it is meant for,
        so are the releases. */
    method Boot()
      requires Begun() && stage == Stage1
      modifies this, loader, loader.handoffValues
      ensures Ended()
    {
      hide Loading;
      hide Handing;
      hide Sound;
      hide Broken;
      hide WellEnded;
      hide TableTo;
      hide TcmState;
      hide OneSlotPerCpu;
      while stage != StageDefault
        invariant InLoop()
        decreases Rank(stage), |image| - partitionNum, if stage == Stage3 then 1 else 0, earlyHandoff
      {
        match stage {
          case Stage1 => InitTurn();
          case Stage2 => InitTurn();
          case Stage3 => LoadTurn();
          case Stage4 =>
            var gone := HandoffTurn();
            if gone {
              return;
            }
          case StageErr => LockDown();
        }
      }
    }
  }

  /** Stages 3 and 4 alternate; otherwise the stages only go on. */
  function Rank(stage: Stage): nat {
    match stage
    case Stage1 => 4
    case Stage2 => 3
    case Stage3 => 2
    case Stage4 => 2
    case StageErr => 1
    case StageDefault => 0
  }

  lemma NothingYet(image: seq<Header>, u: Setup)
    requires 1 < |image| && Running(u.running)
    ensures Sound(image, [InitFailed], u) && Broken(image, [InitFailed], u) && [] + [InitFailed] == [InitFailed]
    ensures (u.device == Flash ==> Loading(image, 1, 0, [], u)) && TableTo(image, 1, u) == []
    ensures TcmState(image[1..1], u.running, u.reset) == Tcm.COLD
  {
    hide Loading;
    FirstFails(image, u);
    FirstLoad(image, u);
  }

  lemma FirstFails(image: seq<Header>, u: Setup)
    requires 1 < |image|
    ensures Sound(image, [InitFailed], u) && Broken(image, [InitFailed], u)
  {
    hide InOrder;
    hide Planned;
    EndInOrder([], InitFailed, 0, |image|, u.device == Jtag);
    LoadsStep([], InitFailed);
    assert [] + [InitFailed] == [InitFailed];
    assert Loads([InitFailed]) == CountUp(0);
  }

  lemma FirstLoad(image: seq<Header>, u: Setup)
    requires 1 < |image| && Running(u.running)
    ensures (u.device == Flash ==> Loading(image, 1, 0, [], u)) && TableTo(image, 1, u) == []
    ensures TcmState(image[1..1], u.running, u.reset) == Tcm.COLD
  {
    assert image[1..1] == [] && CountUp(0) == [];
    hide Intended;
  }
}
