/** The USB DFU class requests of the boot loader (Device Class Specification for Device
    Firmware Upgrade 1.1): downloads are gathered in a memory buffer, and the boot goes on when
    enough of them are counted as complete. */
module Dfu {
  import opened Common

  const ALT_SETTING: nat := 1

  datatype DfuState = AppIdle | AppDetach | DfuIdle | DownloadSync | DownloadBusy | DownloadIdle | DfuError

  /** A request of the host, with the data of its data stage. */
  datatype Request =
    | Detach
    | Dnload(block: nat, data: seq<Byte>)
    | GetStatus
    | Unsupported
    | SetInterface(alt: nat)

  // ---------------------------------------------------------------- the state machine, on values

  /** The part of the DFU object that steers it. */
  datatype Control = Control(curr: DfuState, next: DfuState, runtimeToDfu: bool, downloadDone: nat)

  const RESET := Control(AppIdle, AppIdle, false, 0)

  function EnterAppIdle(c: Control): Control {
    c.(curr := AppIdle, next := AppDetach, runtimeToDfu := false)
  }

  function EnterDfuIdle(c: Control): Control {
    c.(curr := DfuIdle, next := DownloadSync)
  }

  function Step(c: Control, r: Request): Control {
    match r
    case Detach =>
      if c.curr == AppIdle then EnterDfuIdle(c.(runtimeToDfu := true))
      else if c.curr == DfuIdle then c.(curr := AppIdle, next := AppDetach)
      else c.(curr := DfuError)
    case Dnload(_, data) => c.(curr := if data != [] then DownloadIdle else DfuIdle)
    case GetStatus =>
      if c.curr == DfuIdle then c.(curr := DownloadSync, downloadDone := c.downloadDone + 1)
      else if c.curr == DownloadSync then c.(curr := DownloadBusy)
      else c
    case Unsupported => c.(curr := DfuError)
    case SetInterface(alt) =>
      if alt >= ALT_SETTING || c.runtimeToDfu then EnterDfuIdle(c.(runtimeToDfu := false)) else EnterAppIdle(c)
  }

  function After(reqs: seq<Request>): Control {
    if reqs == [] then RESET else Step(After(reqs[..|reqs| - 1]), reqs[|reqs| - 1])
  }

  /** The payloads since the last download request with block number 0. */
  function Downloaded(reqs: seq<Request>): seq<Byte> {
    if reqs == [] then []
    else
      var before := Downloaded(reqs[..|reqs| - 1]);
      match reqs[|reqs| - 1]
      case Dnload(block, data) => (if block == 0 then [] else before) + data
      case _ => before
  }

  /** Request i counts a download as done. */
  predicate Counts(reqs: seq<Request>, i: nat)
    requires i < |reqs|
  {
    reqs[i] == GetStatus && After(reqs[..i]).curr == DfuIdle
  }

  /** Request k brings the device into DFU_IDLE from another state. */
  predicate EntersIdle(reqs: seq<Request>, k: nat)
    requires k < |reqs|
  {
    After(reqs[..k]).curr != DfuIdle && After(reqs[..k + 1]).curr == DfuIdle
  }

  lemma AfterStep(reqs: seq<Request>, k: nat)
    requires k < |reqs|
    ensures After(reqs[..k + 1]) == Step(After(reqs[..k]), reqs[k])
  {
    assert reqs[..k + 1][..k] == reqs[..k];
  }

  /** Between a moment out of DFU_IDLE and a later moment in it lies a fresh entry. */
  lemma {:induction false} EntryBetween(reqs: seq<Request>, i: nat, j: nat) returns (k: nat)
    requires i <= j <= |reqs|
    requires After(reqs[..i]).curr != DfuIdle && After(reqs[..j]).curr == DfuIdle
    ensures i <= k < j && EntersIdle(reqs, k)
    decreases j - i
  {
    if After(reqs[..i + 1]).curr == DfuIdle {
      k := i;
    } else {
      k := EntryBetween(reqs, i + 1, j);
    }
  }

  /** Over every sequence of requests, a fresh entry to DFU_IDLE separates any two counted
      downloads: an empty download request, a detach at run time, or an interface setting. */
  lemma CountsAreSeparated(reqs: seq<Request>, i: nat, j: nat)
    requires i < j < |reqs| && Counts(reqs, i) && Counts(reqs, j)
    ensures exists k :: i < k < j && EntersIdle(reqs, k)
                        && (reqs[k].SetInterface?
                            || (reqs[k].Dnload? && reqs[k].data == [])
                            || (reqs[k].Detach? && After(reqs[..k]).curr == AppIdle))
  {
    AfterStep(reqs, i);
    var k := EntryBetween(reqs, i + 1, j);
    AfterStep(reqs, k);
  }

  function Counted(reqs: seq<Request>): set<nat> {
    set i: nat | i < |reqs| && Counts(reqs, i)
  }

  lemma CountedStep(reqs: seq<Request>)
    requires reqs != []
    ensures var n := |reqs| - 1;
            n !in Counted(reqs[..n]) && Counted(reqs) == Counted(reqs[..n]) + if Counts(reqs, n) then {n} else {}
  {
    var n := |reqs| - 1;
    forall i: nat | i < n
      ensures Counts(reqs[..n], i) <==> Counts(reqs, i)
    {
      assert reqs[..n][..i] == reqs[..i];
    }
  }

  /** The counter is the number of requests that count. */
  lemma {:induction false} DoneIsCounted(reqs: seq<Request>)
    ensures After(reqs).downloadDone == |Counted(reqs)|
    decreases |reqs|
  {
    if reqs != [] {
      DoneIsCounted(reqs[..|reqs| - 1]);
      CountedStep(reqs);
    }
  }

  // ---------------------------------------------------------------- counts that bring no data

  /** Data came in before request j, and no request has counted since. */
  ghost predicate Brought(reqs: seq<Request>, j: nat)
    requires j <= |reqs|
  {
    exists k :: 0 <= k < j && Brings(reqs[k]) && forall i :: k < i < j ==> !Counts(reqs, i)
  }

  predicate Brings(r: Request) {
    r.Dnload? && r.data != []
  }

  datatype Place = AtRest | Ready | Away

  /** An observer of the requests: is the device in run-time mode, ready to count or neither;
      does the next interface setting lead back to ready; and has data come in? */
  datatype Watch = Watch(place: Place, reopen: bool, data: bool)

  function Observe(w: Watch, r: Request): Watch {
    match r
    case Detach =>
      (match w.place
       case AtRest => w.(place := Ready, reopen := true)
       case Ready => w.(place := AtRest)
       case Away => w)
    case Dnload(_, data) => if data != [] then w.(place := Away, data := true) else w.(place := Ready)
    case GetStatus => if w.place == Ready then w.(place := Away, data := false) else w
    case Unsupported => w.(place := Away)
    case SetInterface(alt) => w.(place := if alt >= ALT_SETTING || w.reopen then Ready else AtRest, reopen := false)
  }

  function Watched(reqs: seq<Request>): Watch {
    if reqs == [] then Watch(AtRest, false, false) else Observe(Watched(reqs[..|reqs| - 1]), reqs[|reqs| - 1])
  }

  /** The observer sees a status request while the device is ready but no data has come in. */
  predicate Objects(w: Watch, r: Request) {
    r == GetStatus && w.place == Ready && !w.data
  }

  predicate Accepted(reqs: seq<Request>) {
    reqs == [] || (Accepted(reqs[..|reqs| - 1]) && !Objects(Watched(reqs[..|reqs| - 1]), reqs[|reqs| - 1]))
  }

  /** Every count has brought data exactly for the request sequences the observer accepts. */
  lemma {:induction false} CountsWithData(reqs: seq<Request>)
    ensures (forall j :: 0 <= j < |reqs| && Counts(reqs, j) ==> Brought(reqs, j)) <==> Accepted(reqs)
    decreases |reqs|
  {
    if reqs != [] {
      var n := |reqs| - 1;
      var front := reqs[..n];
      CountsWithData(front);
      ObserverSees(front);
      forall j | 0 <= j <= n
        ensures j < n ==> (Counts(reqs, j) <==> Counts(front, j))
        ensures Brought(reqs, j) <==> Brought(front, j)
      {
        SameSoFar(reqs, j);
      }
    }
  }

  lemma SameSoFar(reqs: seq<Request>, j: nat)
    requires j < |reqs|
    ensures var front := reqs[..|reqs| - 1];
            (j < |front| ==> (Counts(reqs, j) <==> Counts(front, j))) && (Brought(reqs, j) <==> Brought(front, j))
  {
    var front := reqs[..|reqs| - 1];
    forall i: nat | i < |front|
      ensures Counts(reqs, i) <==> Counts(front, i)
    {
      assert reqs[..i] == front[..i];
    }
    if Brought(reqs, j) {
      var k :| 0 <= k < j && Brings(reqs[k]) && forall i :: k < i < j ==> !Counts(reqs, i);
      assert Brings(front[k]);
    }
    if Brought(front, j) {
      var k :| 0 <= k < j && Brings(front[k]) && forall i :: k < i < j ==> !Counts(front, i);
      assert Brings(reqs[k]);
    }
  }

  /** What the observer knows is true of the device. */
  lemma {:induction false} ObserverSees(reqs: seq<Request>)
    ensures var w, c := Watched(reqs), After(reqs);
            && (w.place == Ready <==> c.curr == DfuIdle) && (w.place == AtRest <==> c.curr == AppIdle)
            && w.reopen == c.runtimeToDfu && (w.data <==> Brought(reqs, |reqs|))
    decreases |reqs|
  {
    if reqs != [] {
      var n := |reqs| - 1;
      ObserverSees(reqs[..n]);
      SameSoFar(reqs, n);
      LastBrings(reqs);
    }
  }

  lemma LastBrings(reqs: seq<Request>)
    requires reqs != []
    ensures var n := |reqs| - 1;
            Brought(reqs, n + 1) <==> Brings(reqs[n]) || (Brought(reqs, n) && !Counts(reqs, n))
  {
    var n := |reqs| - 1;
    if Brought(reqs, n) && !Counts(reqs, n) {
      var k :| 0 <= k < n && Brings(reqs[k]) && forall i :: k < i < n ==> !Counts(reqs, i);
      assert forall i :: k < i < n + 1 ==> !Counts(reqs, i);
    }
    if Brought(reqs, n + 1) && !Brings(reqs[n]) {
      var k :| 0 <= k < n + 1 && Brings(reqs[k]) && forall i :: k < i < n + 1 ==> !Counts(reqs, i);
      assert k < n && !Counts(reqs, n);
    }
  }

  /** Selecting the interface and asking for the status is enough for a count. */
  lemma CountsWithoutData(alt: nat)
    requires alt >= ALT_SETTING
    ensures var reqs := [SetInterface(alt), GetStatus];
            Counts(reqs, 1) && After(reqs).downloadDone == 1 && Downloaded(reqs) == [] && !Accepted(reqs)
  {
    var reqs := [SetInterface(alt), GetStatus];
    assert reqs[..1] == [SetInterface(alt)] && reqs[..1][..0] == [];
    assert After(reqs[..1]) == Step(RESET, SetInterface(alt));
    assert Downloaded(reqs[..1]) == [];
    assert Watched(reqs[..1]) == Watch(Ready, false, false);
  }

  /** A count follows at once on the request that made the device ready. */
  lemma CountsAtOnce(reqs: seq<Request>, j: nat)
    requires j < |reqs| && Counts(reqs, j)
    ensures j > 0 && EntersOrStays(reqs[j - 1])
  {
    if j > 0 {
      AfterStep(reqs, j - 1);
    }
  }

  predicate EntersOrStays(r: Request) {
    r.Detach? || r.SetInterface? || (r.Dnload? && r.data == [])
  }

  /** Without a detach, a count is a pair of neighbours: an empty download or the selection of the
      interface, and a status request. */
  predicate CountingPair(reqs: seq<Request>, j: nat)
    requires j < |reqs|
  {
    j > 0 && reqs[j] == GetStatus && MakesReady(reqs[j - 1])
  }

  predicate MakesReady(r: Request) {
    (r.Dnload? && r.data == []) || (r.SetInterface? && r.alt >= ALT_SETTING)
  }

  predicate DetachFree(reqs: seq<Request>) {
    forall i :: 0 <= i < |reqs| ==> !reqs[i].Detach?
  }

  lemma {:induction false} ReadyWithoutDetach(reqs: seq<Request>, m: nat)
    requires DetachFree(reqs) && m <= |reqs|
    ensures !After(reqs[..m]).runtimeToDfu
    ensures After(reqs[..m]).curr == DfuIdle <==> m > 0 && MakesReady(reqs[m - 1])
    decreases m
  {
    if m > 0 {
      ReadyWithoutDetach(reqs, m - 1);
      AfterStep(reqs, m - 1);
    }
  }

  lemma CountsArePairs(reqs: seq<Request>, j: nat)
    requires DetachFree(reqs) && j < |reqs|
    ensures Counts(reqs, j) <==> CountingPair(reqs, j)
  {
    ReadyWithoutDetach(reqs, j);
  }

  /** So every count has brought data exactly when data comes in between any two such pairs, and
      before the first. */
  lemma PairsWithData(reqs: seq<Request>)
    requires DetachFree(reqs)
    ensures Accepted(reqs) <==>
            forall j :: 0 <= j < |reqs| && CountingPair(reqs, j) ==>
              exists k :: 0 <= k < j && Brings(reqs[k]) && forall i :: k < i < j ==> !CountingPair(reqs, i)
  {
    CountsWithData(reqs);
    forall j: nat | j < |reqs|
      ensures Counts(reqs, j) <==> CountingPair(reqs, j)
    {
      CountsArePairs(reqs, j);
    }
    forall j: nat | j < |reqs|
      ensures Brought(reqs, j) <==>
              exists k :: 0 <= k < j && Brings(reqs[k]) && forall i :: k < i < j ==> !CountingPair(reqs, i)
    {
      BroughtBetweenPairs(reqs, j);
    }
  }

  lemma BroughtBetweenPairs(reqs: seq<Request>, j: nat)
    requires j <= |reqs| && forall i: nat :: i < |reqs| ==> (Counts(reqs, i) <==> CountingPair(reqs, i))
    ensures Brought(reqs, j) <==>
            exists k :: 0 <= k < j && Brings(reqs[k]) && forall i :: k < i < j ==> !CountingPair(reqs, i)
  {
    hide Counts;
    hide CountingPair;
    if Brought(reqs, j) {
      var k :| 0 <= k < j && Brings(reqs[k]) && forall i :: k < i < j ==> !Counts(reqs, i);
      assert forall i :: k < i < j ==> !CountingPair(reqs, i);
    }
  }

  // ---------------------------------------------------------------- room in the buffer

  /** How many bytes have come in since the last block 0, by lengths and block numbers alone. */
  function Received(reqs: seq<Request>): nat {
    if reqs == [] then 0
    else
      var before := Received(reqs[..|reqs| - 1]);
      match reqs[|reqs| - 1]
      case Dnload(block, data) => (if block == 0 then 0 else before) + |data|
      case _ => before
  }

  lemma {:induction false} ReceivedIsLength(reqs: seq<Request>)
    ensures Received(reqs) == |Downloaded(reqs)|
    decreases |reqs|
  {
    if reqs != [] {
      ReceivedIsLength(reqs[..|reqs| - 1]);
    }
  }

  /** The downloads never went past a buffer of this size. */
  predicate Inside(reqs: seq<Request>, size: nat) {
    reqs == [] || (Inside(reqs[..|reqs| - 1], size) && Received(reqs) <= size)
  }

  // ---------------------------------------------------------------- the code, in place

  class Device {
    const virtFlash: array<Byte>
    var currState: DfuState
    var nextState: DfuState
    var runtimeToDfu: bool
    var waitForInterrupt: bool
    var currentInf: nat
    var totalBytesDnloaded: nat
    var downloadDone: nat
    var stalls: nat
    ghost var requests: seq<Request>
    ghost var overrun: bool // a byte was written past the buffer

    constructor (size: nat)
      ensures Valid() && requests == [] && !overrun && virtFlash.Length == size && fresh(virtFlash)
    {
      virtFlash := new Byte[size];
      currState, nextState, runtimeToDfu, waitForInterrupt := AppIdle, AppIdle, false, false;
      currentInf, totalBytesDnloaded, downloadDone, stalls := 0, 0, 0, 0;
      requests, overrun := [], false;
    }

    function ControlState(): Control
      reads this
    {
      Control(currState, nextState, runtimeToDfu, downloadDone)
    }

    predicate Now(curr: DfuState, next: DfuState, runtime: bool)
      reads this
    {
      currState == curr && nextState == next && runtimeToDfu == runtime
    }

    /** The object agrees with the requests so far; the buffer was overrun exactly if their
        lengths say so, and otherwise begins with what they downloaded. */
    ghost predicate Valid()
      reads this, virtFlash
    {
      && ControlState() == After(requests) && totalBytesDnloaded == Received(requests)
      && (overrun <==> !Inside(requests, virtFlash.Length))
      && (!overrun ==>
            totalBytesDnloaded <= virtFlash.Length && virtFlash[..totalBytesDnloaded] == Downloaded(requests))
    }

    /** XFsbl_DfuSetState, for the three states it is called with. */
    method SetState(target: DfuState)
      requires target in {AppIdle, AppDetach, DfuIdle}
      modifies this`currState, this`nextState, this`runtimeToDfu, this`waitForInterrupt, this`stalls
      ensures target == AppIdle ==> Now(AppIdle, AppDetach, false)
      ensures target == DfuIdle || (target == AppDetach && old(currState) == AppIdle) ==>
                Now(DfuIdle, DownloadSync, runtimeToDfu)
      ensures target == DfuIdle ==> runtimeToDfu == old(runtimeToDfu)
      ensures target == AppDetach && old(currState) == AppIdle ==> runtimeToDfu
      ensures target == AppDetach && old(currState) == DfuIdle ==> Now(AppIdle, AppDetach, old(runtimeToDfu))
      ensures target == AppDetach && old(currState) !in {AppIdle, DfuIdle} ==>
                Now(DfuError, old(nextState), old(runtimeToDfu))
      ensures waitForInterrupt ==
              (old(waitForInterrupt) || (target == AppDetach && old(currState) in {AppIdle, DfuIdle}))
      ensures stalls == old(stalls) + if target == AppDetach && old(currState) !in {AppIdle, DfuIdle} then 1 else 0
    {
      if target == AppIdle {
        currState, nextState, runtimeToDfu := AppIdle, AppDetach, false;
        return;
      }
      if target == AppDetach {
        if currState == AppIdle {
          currState, nextState := AppDetach, DfuIdle;
          waitForInterrupt := true;
          runtimeToDfu := true;
        } else if currState == DfuIdle {
          waitForInterrupt := true;
          currState, nextState := AppIdle, AppDetach;
          return;
        } else {
          currState, stalls := DfuError, stalls + 1;
          return;
        }
      }
      currState, nextState := DfuIdle, DownloadSync;
    }

    /** XFsbl_DfuSetIntf. */
    method SetIntf(value: nat)
      requires Valid()
      modifies this
      ensures Valid() && requests == old(requests) + [SetInterface(value)] && currentInf == value
      ensures if value >= 1 || old(runtimeToDfu) then Now(DfuIdle, DownloadSync, false)
              else Now(AppIdle, AppDetach, false)
      ensures downloadDone == old(downloadDone) && stalls == old(stalls)
    {
      hide After;
      hide Downloaded;
      hide Received;
      hide Inside;
      currentInf := value;
      if currentInf >= ALT_SETTING || runtimeToDfu {
        if runtimeToDfu {
          runtimeToDfu := false;
        }
        SetState(DfuIdle);
      } else {
        SetState(AppIdle);
      }
      Append(SetInterface(value));
    }

    ghost method Append(r: Request)
      modifies this`requests
      ensures requests == old(requests) + [r]
      ensures After(requests) == Step(After(old(requests)), r)
      ensures !r.Dnload? ==>
                Downloaded(requests) == Downloaded(old(requests)) && Received(requests) == Received(old(requests))
      ensures forall size: nat :: Inside(requests, size) <==> Inside(old(requests), size) && Received(requests) <= size
      ensures forall size: nat :: Inside(old(requests), size) ==> Received(old(requests)) <= size
      ensures r.Dnload? ==>
                && Downloaded(requests) == (if r.block == 0 then [] else Downloaded(old(requests))) + r.data
                && Received(requests) == (if r.block == 0 then 0 else Received(old(requests))) + |r.data|
    {
      requests := requests + [r];
      assert requests[..|requests| - 1] == old(requests);
    }

    /** XFsbl_DfuClassReq; nothing keeps a download inside the buffer. */
    method ClassReq(r: Request)
      requires Valid() && !r.SetInterface?
      modifies this, virtFlash
      ensures Valid() && requests == old(requests) + [r]
      ensures overrun <==> !Inside(requests, virtFlash.Length)
      ensures !overrun ==>
                totalBytesDnloaded == |Downloaded(requests)| && virtFlash[..totalBytesDnloaded] == Downloaded(requests)
      ensures r.Dnload? ==> currState == if r.data == [] then DfuIdle else DownloadIdle
      ensures r.GetStatus? ==>
                currState == match old(currState)
                             case DfuIdle => DownloadSync
                             case DownloadSync => DownloadBusy
                             case s => s
      ensures r.Unsupported? || (r.Detach? && old(currState) !in {AppIdle, DfuIdle}) ==>
                currState == DfuError && stalls == old(stalls) + 1
      ensures r.Detach? && old(currState) == AppIdle ==> Now(DfuIdle, DownloadSync, true)
      ensures r.Detach? && old(currState) == DfuIdle ==> Now(AppIdle, AppDetach, old(runtimeToDfu))
      ensures downloadDone == old(downloadDone) + if r.GetStatus? && old(currState) == DfuIdle then 1 else 0
    {
      hide After;
      hide Downloaded;
      hide Received;
      hide Inside;
      match r {
        case Detach =>
          SetState(AppDetach);
        case Dnload(block, data) =>
          Download(block, data);
        case GetStatus =>
          if currState == DfuIdle {
            currState := DownloadSync;
            downloadDone := downloadDone + 1;
          } else if currState == DownloadSync {
            currState := DownloadBusy;
          }
        case Unsupported =>
          currState, stalls := DfuError, stalls + 1;
      }
      Append(r);
    }

    /** The part of the data that goes past the buffer is lost to the model. */
    method Download(block: nat, data: seq<Byte>)
      modifies this`totalBytesDnloaded, this`currState, this`overrun, virtFlash
      ensures totalBytesDnloaded == (if block == 0 then 0 else old(totalBytesDnloaded)) + |data|
      ensures overrun == (old(overrun) || (data != [] && totalBytesDnloaded > virtFlash.Length))
      ensures totalBytesDnloaded <= virtFlash.Length && (block != 0 ==> old(totalBytesDnloaded) <= virtFlash.Length) ==>
                virtFlash[..totalBytesDnloaded] == (if block == 0 then [] else old(virtFlash[..totalBytesDnloaded]))
                    + data
      ensures currState == if data != [] then DownloadIdle else DfuIdle
    {
      if block == 0 {
        totalBytesDnloaded := 0;
      }
      if |data| > 0 {
        forall i | 0 <= i < |data| && totalBytesDnloaded + i < virtFlash.Length {
          virtFlash[totalBytesDnloaded + i] := data[i];
        }
        totalBytesDnloaded := totalBytesDnloaded + |data|;
        overrun := overrun || totalBytesDnloaded > virtFlash.Length;
        currState := DownloadIdle;
      } else {
        currState := DfuIdle;
      }
    }
  }
}
