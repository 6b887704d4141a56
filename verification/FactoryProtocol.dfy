/** The factory test: a host sends test requests to a board and reads its replies.  Frames can
    be lost in both directions and every wait can time out; the board shows the verdict it was
    told on its LEDs. */
module FactoryProtocol {
  datatype Cmd = Connect | Sd | Flash | Dram | Net | Ecc | Result | Finish | Unknown

  datatype Request = Request(cmd: Cmd, pid: nat, data: nat)
  datatype Reply = Reply(pid: nat, success: bool)

  /** The main sequence of the host. */
  const PLAN: seq<Cmd> := [Connect, Dram, Flash, Ecc]

  /** In the main sequence, at the report of a failure, at the final request, or done. */
  datatype Phase = Testing(step: nat) | Reporting | Closing | Over

  /** `waiting`: the request of this phase is sent, its answer is awaited; `sent` is its pid. */
  datatype Host = Host(phase: Phase, waiting: bool, gpid: nat, sent: nat, ret: int, result: nat)

  datatype Board = Board(looping: bool, result: nat, done: seq<(Cmd, bool)>)

  datatype State = State(host: Host, board: Board, requests: seq<Request>, replies: seq<Reply>)

  /** What can happen next. A failed write is a lost request for which nobody waits. */
  datatype Step =
    | Send(lost: bool)
    | WriteFails
    | Receive
    | ReadFails
    | Timeout
    | Serve(passes: bool, lost: bool)
    | LoseRequest(i: nat)
    | LoseReply(i: nat)
    | Duplicate(i: nat)

  const START := State(Host(Testing(0), false, 0, 0, 0, 0), Board(true, 0, []), [], [])

  // ---------------------------------------------------------------- the host

  function RequestOf(h: Host): Request
    requires h.phase != Over && (h.phase.Testing? ==> h.phase.step < |PLAN|)
  {
    match h.phase
    case Testing(k) => Request(PLAN[k], h.gpid, 0)
    case Reporting => Request(Result, h.gpid, h.result)
    case Closing => Request(Finish, h.gpid, 0)
  }

  /** What `_do` returns for a reply: an answer to another request passes for a success. */
  function Verdict(sent: nat, r: Reply): int {
    if r.pid == sent then (if r.success then 0 else 1) else 0
  }

  /** `_do` has returned `v`. */
  function Returned(h: Host, v: int): Host {
    match h.phase
    case Testing(k) =>
      if v != 0 then h.(phase := Reporting, waiting := false, ret := v, result := 1)
      else h.(phase := if k + 1 < |PLAN| then Testing(k + 1) else Closing, waiting := false, ret := v)
    case Reporting => h.(phase := Closing, waiting := false)
    case Closing => h.(phase := Over, waiting := false)
    case Over => h
  }

  // ---------------------------------------------------------------- the board

  /** Only the tests can fail. */
  predicate IsTest(c: Cmd) {
    c in {Sd, Flash, Dram, Net, Ecc}
  }

  /** One turn of mainloop with a request at hand. */
  function Served(b: Board, r: Request, passes: bool): (Board, Reply) {
    var ok := IsTest(r.cmd) ==> passes;
    (Board(r.cmd != Finish, if r.cmd == Result then r.data else b.result, b.done + [(r.cmd, ok)]), Reply(r.pid, ok))
  }

  // ---------------------------------------------------------------- steps

  predicate Critical(c: Cmd) {
    c == Result || c == Finish
  }

  /** Any frame may be lost at any time, and any wait may end without an answer. */
  predicate Conceivable(s: State, step: Step) {
    var h := s.host;
    && (h.phase.Testing? ==> h.phase.step < |PLAN|)
    && match step
       case Send(_) => h.phase != Over && !h.waiting
       case WriteFails => h.phase != Over && !h.waiting
       case Receive => h.waiting && s.replies != []
       case ReadFails => h.waiting
       case Timeout => h.waiting
       case Serve(_, _) => s.board.looping && s.requests != []
       case LoseRequest(i) => i < |s.requests|
       case LoseReply(i) => i < |s.replies|
       case Duplicate(i) => i < |s.replies|
  }

  /** The verdict and the final request are never lost, and replies are not duplicated. */
  predicate Enabled(s: State, step: Step) {
    && Conceivable(s, step)
    && match step
       case Send(lost) => lost ==> s.host.phase.Testing?
       case WriteFails => s.host.phase.Testing?
       case LoseRequest(i) => !Critical(s.requests[i].cmd)
       case Duplicate(_) => false
       case _ => true
  }

  function Without<T>(s: seq<T>, i: nat): seq<T>
    requires i < |s|
  {
    s[..i] + s[i + 1..]
  }

  function Apply(s: State, step: Step): State
    requires Conceivable(s, step)
  {
    var h := s.host;
    match step
    case Send(lost) =>
      s.(host := h.(waiting := true, sent := h.gpid, gpid := h.gpid + 1),
         requests := if lost then s.requests else s.requests + [RequestOf(h)])
    case WriteFails => s.(host := Returned(h.(sent := h.gpid, gpid := h.gpid + 1), -1))
    case Receive => s.(host := Returned(h, Verdict(h.sent, s.replies[0])), replies := s.replies[1..])
    case ReadFails => s.(host := Returned(h, -1))
    case Timeout => s.(host := Returned(h, -1))
    case Serve(passes, lost) =>
      var (b, r) := Served(s.board, s.requests[0], passes);
      s.(board := b, requests := s.requests[1..], replies := if lost then s.replies else s.replies + [r])
    case LoseRequest(i) => s.(requests := Without(s.requests, i))
    case LoseReply(i) => s.(replies := Without(s.replies, i))
    case Duplicate(i) => s.(replies := s.replies[..i] + [s.replies[i]] + s.replies[i..])
  }

  /** A run: the steps taken from the start, each enabled when it is taken. */
  predicate Possible(s: State, steps: seq<Step>)
    decreases |steps|
  {
    steps == [] || (Enabled(s, steps[0]) && Possible(Apply(s, steps[0]), steps[1..]))
  }

  function After(s: State, steps: seq<Step>): State
    requires Possible(s, steps)
    decreases |steps|
  {
    if steps == [] then s else After(Apply(s, steps[0]), steps[1..])
  }

  // ---------------------------------------------------------------- the invariant

  predicate Has(requests: seq<Request>, c: Cmd) {
    exists i :: 0 <= i < |requests| && requests[i].cmd == c
  }

  /** Step k of the plan was done by the board, with success. */
  predicate Passed(b: Board, k: nat)
    requires k <= |PLAN|
  {
    forall j :: 0 <= j < k ==> (PLAN[j], true) in b.done
  }

  /** In the main sequence at most one frame is on its way, and it belongs to the request that
      is being waited for. */
  predicate Quiet(s: State) {
    s.requests == [] && s.replies == []
  }

  predicate OneInFlight(s: State, k: nat)
    requires k < |PLAN|
  {
    || Quiet(s)
    || (s.requests == [Request(PLAN[k], s.host.sent, 0)] && s.replies == [])
    || (s.requests == [] && |s.replies| == 1 && s.replies[0].pid == s.host.sent
        && (s.replies[0].success ==> (PLAN[k], true) in s.board.done))
  }

  /** The board will know the failure before it stops. */
  predicate VerdictOnItsWay(s: State) {
    && (s.board.result == 1 || (s.board.looping && Has(s.requests, Result)))
    && (forall i :: 0 <= i < |s.requests| && s.requests[i].cmd == Result ==> s.requests[i].data == 1)
    && (forall i :: 0 <= i < |s.requests| && s.requests[i].cmd == Finish ==>
        s.board.result == 1 || Has(s.requests[..i], Result))
  }

  predicate Inv(s: State) {
    var h, b := s.host, s.board;
    match h.phase
    case Testing(k) =>
      && k < |PLAN| && h.ret == 0 && h.result == 0 && b.looping && b.result == 0 && Passed(b, k)
      && (if h.waiting then OneInFlight(s, k) else Quiet(s))
    case Reporting =>
      && h.ret != 0 && h.result == 1 && b.looping && !Has(s.requests, Finish)
      && (if h.waiting then VerdictOnItsWay(s) else b.result == 0 && !Has(s.requests, Result))
    case _ =>
      && (h.ret == 0 <==> h.result == 0)
      && (if h.result == 0 then b.result == 0 && !Has(s.requests, Result) && Passed(b, |PLAN|)
          else h.result == 1 && VerdictOnItsWay(s))
      && (if h.phase == Over || h.waiting then !b.looping || Has(s.requests, Finish)
          else b.looping && !Has(s.requests, Finish))
  }

  lemma HostStepKeeps(s: State, step: Step)
    requires Inv(s) && Enabled(s, step)
             && (step.Send? || step.WriteFails? || step.Receive? || step.ReadFails? || step.Timeout?)
    ensures Inv(Apply(s, step))
  {
    var t := Apply(s, step);
    if step.Send? && !step.lost {
      var r := RequestOf(s.host);
      assert t.requests == s.requests + [r] && t.requests[|s.requests|] == r;
      HasMore(s.requests, r, Result);
      HasMore(s.requests, r, Finish);
    }
  }

  lemma HasMore(requests: seq<Request>, r: Request, c: Cmd)
    ensures Has(requests + [r], c) <==> Has(requests, c) || r.cmd == c
  {
    var after := requests + [r];
    assert after[|requests|] == r;
    if Has(requests, c) {
      var i :| 0 <= i < |requests| && requests[i].cmd == c;
      assert after[i] == requests[i];
    }
  }

  lemma HasLess(requests: seq<Request>, i: nat, c: Cmd)
    requires i < |requests|
    ensures Has(requests, c) <==> Has(Without(requests, i), c) || requests[i].cmd == c
  {
    var after := Without(requests, i);
    if Has(requests, c) && requests[i].cmd != c {
      var j :| 0 <= j < |requests| && requests[j].cmd == c;
      assert after[if j < i then j else j - 1] == requests[j];
    }
    if Has(after, c) {
      var j :| 0 <= j < |after| && after[j].cmd == c;
      assert requests[if j < i then j else j + 1] == after[j];
    }
  }

  /** A request that is not the verdict leaves the queue. */
  lemma WayStaysClear(s: State, t: State, i: nat)
    requires VerdictOnItsWay(s) && i < |s.requests| && t.requests == Without(s.requests, i)
    requires t.board.result == s.board.result && t.board.looping == s.board.looping && !Critical(s.requests[i].cmd)
    ensures VerdictOnItsWay(t)
  {
    HasLess(s.requests, i, Result);
    forall j | 0 <= j < |t.requests|
      ensures t.requests[j].cmd == Result ==> t.requests[j].data == 1
      ensures t.requests[j].cmd == Finish ==> t.board.result == 1 || Has(t.requests[..j], Result)
    {
      var j0 := if j < i then j else j + 1;
      assert t.requests[j] == s.requests[j0];
      if t.requests[j].cmd == Finish && t.board.result != 1 {
        assert Has(s.requests[..j0], Result);
        if j < i {
          assert t.requests[..j] == s.requests[..j0];
        } else {
          HasLess(s.requests[..j0], i, Result);
          assert t.requests[..j] == Without(s.requests[..j0], i);
        }
      }
    }
  }

  /** The board takes the head of the queue. */
  lemma WayIsTravelled(s: State, t: State)
    requires VerdictOnItsWay(s) && s.requests != [] && t.requests == s.requests[1..] && s.board.looping
    requires var r := s.requests[0];
             && t.board.result == (if r.cmd == Result then r.data else s.board.result)
             && t.board.looping == (r.cmd != Finish)
    ensures VerdictOnItsWay(t)
  {
    var r := s.requests[0];
    assert t.requests == Without(s.requests, 0);
    HasLess(s.requests, 0, Result);
    if r.cmd == Finish {
      assert s.board.result == 1 || Has(s.requests[..0], Result);
    }
    forall j | 0 <= j < |t.requests|
      ensures t.requests[j].cmd == Result ==> t.requests[j].data == 1
      ensures t.requests[j].cmd == Finish ==> t.board.result == 1 || Has(t.requests[..j], Result)
    {
      assert t.requests[j] == s.requests[j + 1];
      if t.requests[j].cmd == Finish && t.board.result != 1 {
        HasLess(s.requests[..j + 1], 0, Result);
        assert t.requests[..j] == Without(s.requests[..j + 1], 0);
      }
    }
  }

  lemma ServeKeeps(s: State, step: Step)
    requires Inv(s) && Enabled(s, step) && step.Serve?
    ensures Inv(Apply(s, step))
  {
    var t := Apply(s, step);
    assert t.requests == Without(s.requests, 0);
    HasLess(s.requests, 0, Finish);
    HasLess(s.requests, 0, Result);
    match s.host.phase {
      case Testing(k) =>
        assert s.requests[0] == Request(PLAN[k], s.host.sent, 0);
        assert t.board.done[|s.board.done|] == (PLAN[k], t.board.done[|s.board.done|].1);
      case _ =>
        if s.host.result == 1 && VerdictOnItsWay(s) {
          WayIsTravelled(s, t);
        }
    }
  }

  lemma LossKeeps(s: State, step: Step)
    requires Inv(s) && Enabled(s, step) && (step.LoseRequest? || step.LoseReply?)
    ensures Inv(Apply(s, step))
  {
    var t := Apply(s, step);
    if step.LoseRequest? {
      HasLess(s.requests, step.i, Finish);
      HasLess(s.requests, step.i, Result);
      if VerdictOnItsWay(s) {
        WayStaysClear(s, t, step.i);
      }
    }
  }

  lemma StepKeeps(s: State, step: Step)
    requires Inv(s) && Enabled(s, step)
    ensures Inv(Apply(s, step))
  {
    match step {
      case Serve(_, _) => ServeKeeps(s, step);
      case LoseRequest(_) => LossKeeps(s, step);
      case LoseReply(_) => LossKeeps(s, step);
      case _ => HostStepKeeps(s, step);
    }
  }

  lemma {:induction false} RunKeeps(s: State, steps: seq<Step>)
    requires Inv(s) && Possible(s, steps)
    ensures Inv(After(s, steps))
    decreases |steps|
  {
    if steps != [] {
      StepKeeps(s, steps[0]);
      RunKeeps(Apply(s, steps[0]), steps[1..]);
    }
  }

  // ---------------------------------------------------------------- what every run guarantees

  /** For every interleaving, loss and timeout: when the board stops it shows success exactly
      when the host returns 0, and then it has passed every test; and it stops once the host
      is done and its requests have arrived. */
  lemma VerdictsAgree(steps: seq<Step>)
    requires Possible(START, steps)
    ensures var s := After(START, steps);
            && (!s.board.looping ==> (s.board.result == 0 <==> s.host.ret == 0))
            && (!s.board.looping && s.board.result == 0 ==>
                  {(Connect, true), (Dram, true), (Flash, true), (Ecc, true)} <= set d <- s.board.done)
            && (s.host.phase == Over && s.requests == [] ==> !s.board.looping)
  {
    RunKeeps(START, steps);
    var s := After(START, steps);
    if !s.board.looping && s.board.result == 0 {
      assert Passed(s.board, |PLAN|);
      assert (PLAN[0], true) in s.board.done && (PLAN[1], true) in s.board.done;
      assert (PLAN[2], true) in s.board.done && (PLAN[3], true) in s.board.done;
    }
  }

  /** A run in which every frame may get lost, and replies may come twice. */
  predicate PossibleAnyhow(s: State, steps: seq<Step>)
    decreases |steps|
  {
    steps == [] || (Conceivable(s, steps[0]) && PossibleAnyhow(Apply(s, steps[0]), steps[1..]))
  }

  function AfterAnyhow(s: State, steps: seq<Step>): State
    requires PossibleAnyhow(s, steps)
    decreases |steps|
  {
    if steps == [] then s else AfterAnyhow(Apply(s, steps[0]), steps[1..])
  }

  /** The verdict of a failed run has reached the board. */
  predicate Told(b: Board) {
    exists i :: 0 <= i < |b.done| && b.done[i].0 == Result
  }

  /** No verdict follows the final request. */
  predicate VerdictFirst(requests: seq<Request>) {
    forall i, j :: 0 <= i < j < |requests| && requests[i].cmd == Finish ==> requests[j].cmd != Result
  }

  predicate InvAnyhow(s: State) {
    var h, b := s.host, s.board;
    && b.result == (if Told(b) then 1 else 0)
    && (forall i :: 0 <= i < |s.requests| && s.requests[i].cmd == Result ==> s.requests[i].data == 1)
    && VerdictFirst(s.requests)
    && (Told(b) || Has(s.requests, Result) ==> h.ret != 0)
    && (h.phase.Testing? ==> h.phase.step < |PLAN| && h.ret == 0)
    && (h.phase.Reporting? ==> h.result == 1 && h.ret != 0)
    && (h.phase.Testing? || h.phase.Reporting? ==> b.looping && !Has(s.requests, Finish))
    && (!b.looping ==> !Has(s.requests, Result))
  }

  lemma SendAnyhow(s: State)
    requires InvAnyhow(s) && Conceivable(s, Send(false))
    ensures InvAnyhow(Apply(s, Send(false)))
  {
    var r := RequestOf(s.host);
    HasMore(s.requests, r, Result);
    HasMore(s.requests, r, Finish);
  }

  lemma LoseAnyhow(s: State, t: State, i: nat)
    requires InvAnyhow(s) && i < |s.requests| && t.requests == Without(s.requests, i)
    requires t.host == s.host && t.board == s.board
    ensures InvAnyhow(t)
  {
    HasLess(s.requests, i, Result);
    HasLess(s.requests, i, Finish);
  }

  lemma ServeAnyhow(s: State, step: Step)
    requires InvAnyhow(s) && Conceivable(s, step) && step.Serve?
    ensures InvAnyhow(Apply(s, step))
  {
    var t := Apply(s, step);
    assert t.requests == Without(s.requests, 0);
    HasLess(s.requests, 0, Result);
    HasLess(s.requests, 0, Finish);
    ToldStep(s, step);
  }

  lemma ToldStep(s: State, step: Step)
    requires Conceivable(s, step) && step.Serve?
    ensures Told(Apply(s, step).board) <==> Told(s.board) || s.requests[0].cmd == Result
  {
    var before, after := s.board.done, Apply(s, step).board.done;
    assert after[..|before|] == before && after[|before|].0 == s.requests[0].cmd;
    if Told(s.board) {
      var i :| 0 <= i < |before| && before[i].0 == Result;
      assert after[i].0 == Result;
    }
  }

  lemma StepAnyhow(s: State, step: Step)
    requires InvAnyhow(s) && Conceivable(s, step)
    ensures InvAnyhow(Apply(s, step))
  {
    match step {
      case Send(lost) =>
        if !lost {
          SendAnyhow(s);
        }
      case Serve(_, _) => ServeAnyhow(s, step);
      case LoseRequest(i) => LoseAnyhow(s, Apply(s, step), i);
      case _ =>
    }
  }

  lemma {:induction false} RunAnyhow(s: State, steps: seq<Step>)
    requires InvAnyhow(s) && PossibleAnyhow(s, steps)
    ensures InvAnyhow(AfterAnyhow(s, steps))
    decreases |steps|
  {
    if steps != [] {
      StepAnyhow(s, steps[0]);
      RunAnyhow(Apply(s, steps[0]), steps[1..]);
    }
  }

  /** This step loses the verdict: it is not sent, or lost on its way. */
  predicate LosesVerdict(s: State, step: Step)
    requires Conceivable(s, step)
  {
    || (s.host.phase.Reporting? && (step == Send(true) || step.WriteFails?))
    || (step.LoseRequest? && s.requests[step.i].cmd == Result)
  }

  predicate VerdictLost(s: State, steps: seq<Step>)
    requires PossibleAnyhow(s, steps)
    decreases |steps|
  {
    steps != [] && (LosesVerdict(s, steps[0]) || VerdictLost(Apply(s, steps[0]), steps[1..]))
  }

  /** The host has come past its report of a failure. */
  predicate Reported(h: Host) {
    h.ret != 0 && (h.phase == Closing || h.phase == Over || (h.phase == Reporting && h.waiting))
  }

  /** One verdict at most is on its way. */
  predicate OneVerdict(requests: seq<Request>) {
    forall i, j :: 0 <= i < j < |requests| ==> requests[i].cmd != Result || requests[j].cmd != Result
  }

  /** Where the verdict is, once it is reported: lost, on its way, or with the board. */
  predicate Tracked(s: State, lost: bool) {
    && OneVerdict(s.requests)
    && (Told(s.board) ==> !Has(s.requests, Result))
    && (Reported(s.host) ==> (lost <==> !Told(s.board) && !Has(s.requests, Result)))
    && (!Reported(s.host) ==> !lost && !Told(s.board) && !Has(s.requests, Result))
  }

  lemma TrackedStep(s: State, step: Step, lost: bool)
    requires InvAnyhow(s) && Tracked(s, lost) && Conceivable(s, step)
    ensures Tracked(Apply(s, step), lost || LosesVerdict(s, step))
  {
    var t := Apply(s, step);
    match step {
      case Send(none) =>
        if !none {
          HasMore(s.requests, RequestOf(s.host), Result);
          assert forall i :: 0 <= i < |s.requests| ==> t.requests[i] == s.requests[i];
        }
      case Serve(_, _) =>
        assert t.requests == Without(s.requests, 0);
        OneLess(s.requests, 0);
        ToldStep(s, step);
      case LoseRequest(i) => OneLess(s.requests, i);
      case _ =>
    }
  }

  /** A frame leaves the queue; if it is the verdict, none is left. */
  lemma OneLess(requests: seq<Request>, i: nat)
    requires i < |requests| && OneVerdict(requests)
    ensures var rest := Without(requests, i);
            OneVerdict(rest) && (Has(rest, Result) <==> Has(requests, Result) && requests[i].cmd != Result)
  {
    var rest := Without(requests, i);
    HasLess(requests, i, Result);
    assert forall j :: 0 <= j < |rest| ==> rest[j] == requests[if j < i then j else j + 1];
  }

  lemma {:induction false} RunTracked(s: State, steps: seq<Step>, lost: bool)
    requires InvAnyhow(s) && Tracked(s, lost) && PossibleAnyhow(s, steps)
    ensures Tracked(AfterAnyhow(s, steps), lost || VerdictLost(s, steps))
    decreases |steps|
  {
    if steps != [] {
      StepAnyhow(s, steps[0]);
      TrackedStep(s, steps[0], lost);
      RunTracked(Apply(s, steps[0]), steps[1..], lost || LosesVerdict(s, steps[0]));
    }
  }

  /** Whatever is lost or comes twice: a board that stops shows success exactly when the host
      returns 0, or the run lost the verdict. */
  lemma LostVerdictShowsGreen(steps: seq<Step>)
    requires PossibleAnyhow(START, steps)
    ensures var s := AfterAnyhow(START, steps);
            !s.board.looping ==>
              && (s.board.result == 0 <==> s.host.ret == 0 || VerdictLost(START, steps))
              && (s.host.phase == Closing || s.host.phase == Over)
  {
    RunAnyhow(START, steps);
    RunTracked(START, steps, false);
  }

  /** What an observer of the steps counts: frames on their way, and those of them that belong
      to a request before the last one. */
  datatype Backlog = Backlog(requests: nat, older: nat, replies: nat, stale: nat)

  function Less(n: nat): nat {
    if n > 0 then n - 1 else 0
  }

  function Follow(c: Backlog, step: Step): Backlog {
    match step
    case Send(lost) => Backlog(if lost then c.requests else c.requests + 1, c.requests, c.replies, c.replies)
    case WriteFails => Backlog(c.requests, c.requests, c.replies, c.replies)
    case Receive => c.(replies := Less(c.replies), stale := Less(c.stale))
    case Serve(_, lost) =>
      Backlog(Less(c.requests), Less(c.older), if lost then c.replies else c.replies + 1,
              if !lost && c.older > 0 then c.stale + 1 else c.stale)
    case LoseRequest(i) => c.(requests := Less(c.requests), older := if i < c.older then c.older - 1 else c.older)
    case LoseReply(i) => c.(replies := Less(c.replies), stale := if i < c.stale then c.stale - 1 else c.stale)
    case Duplicate(i) => c.(replies := c.replies + 1, stale := if i < c.stale then c.stale + 1 else c.stale)
    case _ => c
  }

  function FollowAll(c: Backlog, steps: seq<Step>): Backlog
    decreases |steps|
  {
    if steps == [] then c else FollowAll(Follow(c, steps[0]), steps[1..])
  }

  /** Older frames come first, in both queues, and no current reply comes before an older
      request is served. */
  predicate Queued(s: State, c: Backlog) {
    var h := s.host;
    && |s.requests| == c.requests && c.older <= c.requests && |s.replies| == c.replies && c.stale <= c.replies
    && (c.older > 0 ==> c.stale == c.replies)
    && (if h.gpid == 0 then c.requests == 0 && c.replies == 0 else h.gpid == h.sent + 1)
    && (forall i :: 0 <= i < |s.requests| ==>
        if i < c.older then s.requests[i].pid < h.sent else s.requests[i].pid == h.sent)
    && (forall i :: 0 <= i < |s.replies| ==>
        if i < c.stale then s.replies[i].pid < h.sent else s.replies[i].pid == h.sent)
  }

  lemma QueuedStep(s: State, step: Step, c: Backlog)
    requires Queued(s, c) && Conceivable(s, step)
    ensures Queued(Apply(s, step), Follow(c, step))
  {
    match step {
      case Serve(_, _) => QueuedServe(s, step, c);
      case LoseRequest(_) => QueuedLoss(s, step, c);
      case LoseReply(_) => QueuedLoss(s, step, c);
      case Duplicate(_) => QueuedDuplicate(s, step, c);
      case Receive => QueuedReceive(s, c);
      case _ => QueuedHost(s, step, c);
    }
  }

  lemma QueuedServe(s: State, step: Step, c: Backlog)
    requires Queued(s, c) && Conceivable(s, step) && step.Serve?
    ensures Queued(Apply(s, step), Follow(c, step))
  {
  }

  lemma QueuedLoss(s: State, step: Step, c: Backlog)
    requires Queued(s, c) && Conceivable(s, step) && (step.LoseRequest? || step.LoseReply?)
    ensures Queued(Apply(s, step), Follow(c, step))
  {
  }

  lemma QueuedDuplicate(s: State, step: Step, c: Backlog)
    requires Queued(s, c) && Conceivable(s, step) && step.Duplicate?
    ensures Queued(Apply(s, step), Follow(c, step))
  {
  }

  lemma QueuedReceive(s: State, c: Backlog)
    requires Queued(s, c) && Conceivable(s, Receive)
    ensures Queued(Apply(s, Receive), Follow(c, Receive))
  {
  }

  lemma QueuedHost(s: State, step: Step, c: Backlog)
    requires Queued(s, c) && Conceivable(s, step)
    requires step.Send? || step.WriteFails? || step.ReadFails? || step.Timeout?
    ensures Queued(Apply(s, step), Follow(c, step))
  {
  }

  lemma {:induction false} RunQueued(s: State, steps: seq<Step>, c: Backlog)
    requires Queued(s, c) && PossibleAnyhow(s, steps)
    ensures Queued(AfterAnyhow(s, steps), FollowAll(c, steps))
    decreases |steps|
  {
    if steps != [] {
      QueuedStep(s, steps[0], c);
      RunQueued(Apply(s, steps[0]), steps[1..], Follow(c, steps[0]));
    }
  }

  /** In every run, with losses and duplicates, the host is about to read a reply to another
      request exactly when some of the replies to earlier requests are left. */
  lemma ForeignReplies(steps: seq<Step>)
    requires PossibleAnyhow(START, steps)
    ensures var s := AfterAnyhow(START, steps);
            s.replies != [] ==> (s.replies[0].pid != s.host.sent <==> FollowAll(Backlog(0, 0, 0, 0), steps).stale > 0)
  {
    RunQueued(START, steps, Backlog(0, 0, 0, 0));
  }

  /** In the main sequence the host never reads a reply to another request. */
  lemma RepliesMatch(steps: seq<Step>)
    requires Possible(START, steps)
    ensures var s := After(START, steps);
            s.host.phase.Testing? && s.host.waiting && s.replies != [] ==> s.replies[0].pid == s.host.sent
  {
    RunKeeps(START, steps);
  }

  lemma {:induction false} Extend(s: State, steps: seq<Step>, next: Step)
    requires Possible(s, steps) && Enabled(After(s, steps), next)
    ensures Possible(s, steps + [next]) && After(s, steps + [next]) == Apply(After(s, steps), next)
    decreases |steps|
  {
    if steps == [] {
      assert [next][1..] == [];
    } else {
      Extend(Apply(s, steps[0]), steps[1..], next);
      assert (steps + [next])[1..] == steps[1..] + [next];
    }
  }

  /** After `s`, one more frame of the host at phase `phase` is sent and the oldest reply, to
      another request, is read: the host takes it for a success. */
  lemma StaleReplyPasses(s: State, k: nat)
    requires s.host.phase == Testing(k) && k < |PLAN| && !s.host.waiting && s.host.ret == 0
    requires |s.replies| == 1 && s.replies[0].pid != s.host.gpid
    ensures var t := Apply(s, Send(false));
            Enabled(s, Send(false)) && Enabled(t, Receive)
            && var u := Apply(t, Receive);
            && u == State(s.host.(phase := if k + 1 < |PLAN| then Testing(k + 1) else Closing, gpid := s.host.gpid + 1,
                                       sent := s.host.gpid),
                          s.board, s.requests + [Request(PLAN[k], s.host.gpid, 0)], [])
  {
  }

  /** About to send test k, with the reply to the request before it still unread. */
  function Shifted(k: nat, done: seq<(Cmd, bool)>, success: bool): State
    requires k > 0
  {
    State(Host(Testing(k), false, k, k - 1, 0, 0), Board(true, 0, done), [], [Reply(k - 1, success)])
  }

  /** A single duplicated reply shifts all the verdicts that follow: every test of the board
      fails, and both sides report success. */
  lemma DuplicateDecides()
    ensures exists before: seq<Step>, after: seq<Step> ::
              && Possible(START, before) && Conceivable(After(START, before), Duplicate(0))
              && var s := Apply(After(START, before), Duplicate(0));
              && Possible(s, after)
              && var t := After(s, after);
              && t.host.ret == 0 && !t.board.looping && t.board.result == 0
              && forall c :: IsTest(c) ==> (c, true) !in t.board.done
  {
    var s1 := Apply(START, Send(false));
    var s2 := Apply(s1, Serve(true, false));
    Extend(START, [], Send(false));
    Extend(START, [Send(false)], Serve(true, false));
    var before := [Send(false)] + [Serve(true, false)];
    assert [] + [Send(false)] == [Send(false)];
    assert After(START, before) == s2 && s2.replies == [Reply(0, true)];
    var s := Apply(s2, Duplicate(0));
    var after := ShiftedRun(s);
  }

  /** The twelve steps that follow. */
  lemma ShiftedRun(s: State) returns (steps: seq<Step>)
    requires s == State(Host(Testing(0), true, 1, 0, 0, 0), Board(true, 0, [(Connect, true)]), [],
             [Reply(0, true), Reply(0, true)])
    ensures Possible(s, steps)
    ensures var t := After(s, steps);
            && t.host.ret == 0 && !t.board.looping && t.board.result == 0
            && forall c :: IsTest(c) ==> (c, true) !in t.board.done
  {
    var done := [(Connect, true)];
    ShiftBegin(s);
    hide After;
    hide Possible;
    hide Shifted;
    hide Enabled;
    steps := ShiftOne(s, [Receive], 1, done, true);
    steps := ShiftOne(s, steps, 2, done + [(Dram, false)], false);
    steps := ShiftEnd(s, steps, done + [(Dram, false)] + [(Flash, false)], false);
  }

  lemma ShiftBegin(s: State)
    requires s == State(Host(Testing(0), true, 1, 0, 0, 0), Board(true, 0, [(Connect, true)]), [],
             [Reply(0, true), Reply(0, true)])
    ensures Possible(s, [Receive]) && After(s, [Receive]) == Shifted(1, [(Connect, true)], true)
  {
    assert Apply(s, Receive) == Shifted(1, [(Connect, true)], true);
    Extend(s, [], Receive);
    assert [] + [Receive] == [Receive];
  }

  /** Test k fails on the board, and the host moves on with the next test. */
  lemma ShiftOne(s: State, steps: seq<Step>, k: nat, done: seq<(Cmd, bool)>, b: bool) returns (more: seq<Step>)
    requires Possible(s, steps) && 1 <= k <= 2 && After(s, steps) == Shifted(k, done, b)
    ensures Possible(s, more) && After(s, more) == Shifted(k + 1, done + [(PLAN[k], false)], false)
  {
    hide After;
    hide Possible;
    var x := Shifted(k, done, b);
    StaleReplyPasses(x, k);
    var y := Apply(Apply(x, Send(false)), Receive);
    more := Stale(s, steps, x, y);
    assert y.requests == [Request(PLAN[k], k, 0)];
    assert Apply(y, Serve(false, false)) == Shifted(k + 1, done + [(PLAN[k], false)], false);
    more := Then(s, more, Serve(false, false), Shifted(k + 1, done + [(PLAN[k], false)], false));
  }

  /** The last test fails unseen, and the board stops with the verdict it started with. */
  lemma ShiftEnd(s: State, steps: seq<Step>, done: seq<(Cmd, bool)>, b: bool) returns (more: seq<Step>)
    requires Possible(s, steps) && After(s, steps) == Shifted(3, done, b)
    ensures Possible(s, more)
    ensures var t := After(s, more);
            t.host.ret == 0 && t.board == Board(false, 0, done + [(Ecc, false)] + [(Finish, true)])
  {
    hide After;
    hide Possible;
    var x := Shifted(3, done, b);
    StaleReplyPasses(x, 3);
    var y := Apply(Apply(x, Send(false)), Receive);
    more := Stale(s, steps, x, y);
    assert y.requests == [Request(Ecc, 3, 0)];
    var z := Apply(y, Send(false));
    more := Then(s, more, Send(false), z);
    assert z.requests == [Request(Ecc, 3, 0), Request(Finish, 4, 0)];
    var u := Apply(z, Serve(false, false));
    more := Then(s, more, Serve(false, false), u);
    assert u.requests == [Request(Finish, 4, 0)];
    more := Then(s, more, Serve(true, false), Apply(u, Serve(true, false)));
  }

  lemma Then(s: State, steps: seq<Step>, next: Step, t: State) returns (more: seq<Step>)
    requires Possible(s, steps) && Enabled(After(s, steps), next) && Apply(After(s, steps), next) == t
    ensures Possible(s, more) && After(s, more) == t
  {
    Extend(s, steps, next);
    more := steps + [next];
  }

  lemma Stale(s: State, steps: seq<Step>, x: State, y: State) returns (more: seq<Step>)
    requires Possible(s, steps) && After(s, steps) == x && Enabled(x, Send(false))
    requires Enabled(Apply(x, Send(false)), Receive) && Apply(Apply(x, Send(false)), Receive) == y
    ensures Possible(s, more) && After(s, more) == y
  {
    more := Then(s, steps, Send(false), Apply(x, Send(false)));
    more := Then(s, more, Receive, y);
  }

  // ---------------------------------------------------------------- the two programs, in place

  /** How a call of `_do` can end. */
  datatype Answer = WriteFailed | ReadFailed | TimedOut | Got(reply: Reply)

  function Outcome(sent: nat, a: Answer): int {
    if a.Got? then Verdict(sent, a.reply) else -1
  }

  /** A phase of the host, from its request to what `_do` returned. */
  function Phased(h: Host, answers: nat -> Answer): Host {
    Returned(h.(waiting := true, sent := h.gpid, gpid := h.gpid + 1), Outcome(h.gpid, answers(h.gpid)))
  }

  function Remaining(p: Phase): nat {
    match p
    case Testing(k) => if k < |PLAN| then 6 - k else 3
    case Reporting => 2
    case Closing => 1
    case Over => 0
  }

  /** The host run to its end, and the requests it makes. */
  function HostRun(h: Host, answers: nat -> Answer): (Host, seq<Request>)
    requires h.phase.Testing? ==> h.phase.step < |PLAN|
    decreases Remaining(h.phase)
  {
    if h.phase == Over then (h, [])
    else
      var (end, requests) := HostRun(Phased(h, answers), answers);
      (end, [RequestOf(h)] + requests)
  }

  lemma RunOver(h: Host, answers: nat -> Answer)
    ensures h.phase == Over ==> HostRun(h, answers) == (h, [])
  {
  }

  class HostProgram {
    const answers: nat -> Answer // by the pid of the request
    var gpid: nat
    var result: nat
    ghost var requests: seq<Request>

    constructor (answers: nat -> Answer)
      ensures this.answers == answers && gpid == 0 && result == 0 && requests == []
    {
      this.answers := answers;
      gpid, result, requests := 0, 0, [];
    }

    /** `_do`. */
    method Do(cmd: Cmd) returns (ret: int)
      modifies this`gpid, this`requests
      ensures gpid == old(gpid) + 1 && ret == Outcome(old(gpid), answers(old(gpid)))
      ensures requests == old(requests) + [Request(cmd, old(gpid), if cmd == Result then result else 0)]
    {
      var pid := gpid;
      gpid := gpid + 1;
      requests := requests + [Request(cmd, pid, if cmd == Result then result else 0)];
      var answer := answers(pid);
      match answer {
        case WriteFailed => ret := -1;
        case ReadFailed => ret := -1;
        case TimedOut => ret := -1;
        case Got(reply) =>
          if reply.pid == pid {
            ret := if reply.success then 0 else 1;
          } else {
            ret := 0;
          }
      }
    }

    /** The program stands where the host of the protocol stands at `h`. */
    ghost predicate At(h: Host)
      reads this
    {
      && (h.phase.Testing? ==> h.phase.step < |PLAN|)
      && h.gpid == gpid && h.result == result
      && HostRun(START.host, answers) == (HostRun(h, answers).0, requests + HostRun(h, answers).1)
    }

    /** One call of `_do` is one phase. */
    method Phase(cmd: Cmd, ghost h: Host) returns (ret: int, ghost next: Host)
      requires At(h) && h.phase != Over && RequestOf(h) == Request(cmd, gpid, if cmd == Result then result else 0)
      modifies this`gpid, this`requests
      ensures next == Phased(h, answers) && ret == Outcome(h.gpid, answers(h.gpid)) && gpid == h.gpid + 1
      ensures next.result == result ==> At(next)
      ensures HostRun(START.host, answers) == (HostRun(next, answers).0, requests + HostRun(next, answers).1)
    {
      next := Phased(h, answers);
      ghost var rest := HostRun(next, answers).1;
      assert requests + ([RequestOf(h)] + rest) == requests + [RequestOf(h)] + rest;
      ret := Do(cmd);
    }

    /** The main sequence, up to its first failure. */
    method MainSequence() returns (ret: int, ghost h: Host)
      requires gpid == 0 && result == 0 && requests == []
      modifies this`gpid, this`requests
      ensures gpid > 0 && h ==
              Host(if ret == 0 then Closing else Reporting, false, gpid, gpid - 1, ret, if ret == 0 then 0 else 1)
      ensures HostRun(START.host, answers) == (HostRun(h, answers).0, requests + HostRun(h, answers).1)
    {
      hide HostRun;
      h := START.host;
      assert requests + HostRun(h, answers).1 == HostRun(h, answers).1;
      ret, h := Phase(Connect, h);
      if ret == 0 {
        ret, h := Phase(Dram, h);
      }
      if ret == 0 {
        ret, h := Phase(Flash, h);
      }
      if ret == 0 {
        ret, h := Phase(Ecc, h);
      }
    }

    /** main, from the first request on: it behaves like the host of the protocol. */
    method RunTests() returns (ret: int)
      requires gpid == 0 && result == 0 && requests == []
      modifies this
      ensures gpid > 0 && HostRun(START.host, answers) == (Host(Over, false, gpid, gpid - 1, ret, result), requests)
    {
      hide HostRun;
      ghost var h;
      ret, h := MainSequence();
      var ignored;
      if ret != 0 {
        result := 1;
        ignored, h := Phase(Result, h);
      }
      ignored, h := Phase(Finish, h);
      RunOver(h, answers);
      assert requests + [] == requests;
    }
  }

  /** What the message pool hands out; a frame that fails package_check is dropped. */
  datatype Message = Message(intact: bool, request: Request)

  /** The board over the messages it fetches, until it is told to finish. */
  function ServeAll(b: Board, inbox: seq<Message>, passes: nat -> bool): (Board, seq<Reply>) {
    if inbox == [] then (b, [])
    else
      var n := |inbox| - 1;
      var (b1, replies) := ServeAll(b, inbox[..n], passes);
      if !b1.looping || !inbox[n].intact then (b1, replies)
      else
        var (b2, r) := Served(b1, inbox[n].request, passes(n));
        (b2, replies + [r])
  }

  /** Message i is served: it is intact, and no intact final request came before it. */
  predicate Taken(inbox: seq<Message>, i: nat)
    requires i < |inbox|
  {
    inbox[i].intact && forall j :: 0 <= j < i ==> !(inbox[j].intact && inbox[j].request.cmd == Finish)
  }

  /** The board answers exactly these messages, in order, with their pids; it stops exactly if a
      final request is among them. */
  lemma {:induction false} ServedExactly(b: Board, inbox: seq<Message>, passes: nat -> bool) returns (at: seq<nat>)
    requires b.looping
    ensures forall j, k :: 0 <= j < k < |at| ==> at[j] < at[k]
    ensures forall i: nat :: i in at <==> i < |inbox| && Taken(inbox, i)
    ensures var (e, replies) := ServeAll(b, inbox, passes);
            && |replies| == |at| && |e.done| == |b.done| + |at| && e.done[..|b.done|] == b.done
            && (e.looping <==> forall i :: 0 <= i < |inbox| ==> !(inbox[i].intact && inbox[i].request.cmd == Finish))
            && forall j :: 0 <= j < |at| ==>
                 && at[j] < |inbox| && replies[j].pid == inbox[at[j]].request.pid
                 && e.done[|b.done| + j] == (inbox[at[j]].request.cmd, replies[j].success)
                 && replies[j].success == (inbox[at[j]].request.cmd in {Sd, Flash, Dram, Net, Ecc} ==> passes(at[j]))
    decreases |inbox|
  {
    at := [];
    if inbox != [] {
      var n := |inbox| - 1;
      var front := inbox[..n];
      var before := ServedExactly(b, front, passes);
      forall i: nat | i < n
        ensures Taken(inbox, i) <==> Taken(front, i)
      {
      }
      assert ServeAll(b, front, passes).0.looping && inbox[n].intact <==> Taken(inbox, n);
      at := before + if Taken(inbox, n) then [n] else [];
    }
  }

  class BoardProgram {
    var bLoop: bool
    var result: nat
    ghost var done: seq<(Cmd, bool)>

    constructor ()
      ensures View() == START.board
    {
      bLoop, result, done := true, 0, [];
    }

    ghost function View(): Board
      reads this
    {
      Board(bLoop, result, done)
    }

    /** One turn of mainloop with a message. */
    method Handle(rcv: Request, testPasses: bool) returns (reply: Reply)
      requires bLoop
      modifies this
      ensures (View(), reply) == Served(old(View()), rcv, testPasses)
    {
      var ret := 0;
      match rcv.cmd {
        case Connect => ret := 0;
        case Sd => ret := if testPasses then 0 else 1;
        case Flash => ret := if testPasses then 0 else 1;
        case Dram => ret := if testPasses then 0 else 1;
        case Net => ret := if testPasses then 0 else 1;
        case Ecc => ret := if testPasses then 0 else 1;
        case Result =>
          result := rcv.data;
          ret := 0;
        case Finish =>
          ret := 0;
          bLoop := false;
        case Unknown => // no branch of the code: a success
      }
      done := done + [(rcv.cmd, ret == 0)];
      reply := Reply(rcv.pid, ret == 0);
    }

    /** mainloop over a finite inbox; `green` is the colour it stops with. */
    method MainLoop(inbox: seq<Message>, passes: nat -> bool) returns (replies: seq<Reply>, green: bool)
      requires bLoop
      modifies this
      ensures (View(), replies) == ServeAll(old(View()), inbox, passes)
      ensures green <==> !bLoop && result == 0
    {
      replies := [];
      var next := 0;
      while bLoop && next < |inbox|
        invariant 0 <= next <= |inbox|
        invariant (View(), replies) == ServeAll(old(View()), inbox[..next], passes)
      {
        assert inbox[..next + 1][..next] == inbox[..next];
        if inbox[next].intact {
          var reply := Handle(inbox[next].request, passes(next));
          replies := replies + [reply];
        }
        next := next + 1;
      }
      if !bLoop {
        StoppedStays(old(View()), inbox, next, passes);
      }
      assert inbox[..|inbox|] == inbox;
      green := !bLoop && result == 0;
    }
  }

  lemma {:induction false} StoppedStays(b: Board, inbox: seq<Message>, k: nat, passes: nat -> bool)
    requires k <= |inbox| && !ServeAll(b, inbox[..k], passes).0.looping
    ensures ServeAll(b, inbox, passes) == ServeAll(b, inbox[..k], passes)
    decreases |inbox|
  {
    if k == |inbox| {
      assert inbox[..k] == inbox;
    } else {
      var front := inbox[..|inbox| - 1];
      assert front[..k] == inbox[..k];
      StoppedStays(b, front, k, passes);
    }
  }
}
