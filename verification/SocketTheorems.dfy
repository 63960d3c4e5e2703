/** What the socket promises its callers, for every run. */
module SocketTheorems {
  import opened GateWord
  import opened SocketMachine
  import opened SocketRuns
  import opened ThreadSums
  import opened SocketInvariant

  /** `t` can be reached from some fresh socket with fewer than 2^31 threads. */
  ghost predicate Reachable(c: Config, t: State) {
    exists s, labels :: Init(c, s) && |s.threads| < GATE_CLOSED && Run(c, s, labels, t)
  }

  lemma ReachableInv(c: Config, t: State)
    requires Reachable(c, t)
    ensures Inv(c, t)
  {
    var s, labels :| Init(c, s) && |s.threads| < GATE_CLOSED && Run(c, s, labels, t);
    InitInv(c, s);
    RunInv(c, s, labels, t);
  }

  lemma ReachableNext(c: Config, t: State, l: Label)
    requires Reachable(c, t) && Enabled(c, t, l)
    ensures Reachable(c, Next(c, t, l))
  {
    var s, labels :| Init(c, s) && |s.threads| < GATE_CLOSED && Run(c, s, labels, t);
    RunOne(c, t, l);
    RunConcat(c, s, labels, t, [l], Next(c, t, l));
  }

  /** The descriptor a thread obtained from enterFD and has not given back by leaving the gate; -1 if none. */
  function HeldFd(pc: Pc): int {
    match pc
    case Calling(_, _, fd) => fd
    case WaitLoad(_, _, fd) => fd
    case Polling(_, _, fd, _) => fd
    case LeaveLoad(_, fd, _) => fd
    case LeaveCas(_, fd, _, _) => fd
    case _ => -1
  }

  /** The descriptors that the system call a thread is about to finish is made on. */
  function Targets(c: Config, pc: Pc): set<int> {
    match pc
    case Calling(_, _, fd) => {fd}
    case Polling(_, _, _, polled) => {polled, c.efd}
    case Shutdown(_, fd) => {fd}
    case Signal(_, _) => {c.efd}
    case CloseEvent(_, _) => {c.efd}
    case Dispose(_, fd) => {fd}
    case _ => {}
  }

  predicate Owned(c: Config, s: State, fd: int) {
    fd in s.sh.table && s.sh.table[fd] == if fd == c.efd then Event else Sock
  }

  /**
    A thread that holds a descriptor is inside the gate, and both that descriptor and the eventfd are
    open and this socket's.
   */
  lemma BorrowedStaysOwned(c: Config, t: State, i: int)
    requires Reachable(c, t) && 0 <= i < |t.threads| && HeldFd(t.threads[i]) != -1
    ensures HeldFd(t.threads[i]) == c.fd && Owned(c, t, c.fd) && Owned(c, t, c.efd)
    ensures Inside(t.threads[i]) && Users(t.sh.word) > 0
    ensures t.sh.hist.sockCloses == t.sh.hist.sockReturns == t.sh.hist.evCloses == 0
  {
    ReachableInv(c, t);
    assert ThreadOk(c, t.sh, i, t.threads[i]);
    var others := InsideOthers(t, i);
  }

  /** No system call of any thread, closers included, is ever made on a descriptor the socket no longer owns. */
  lemma CallsHitOwnDescriptors(c: Config, t: State, i: int, fd: int)
    requires Reachable(c, t) && 0 <= i < |t.threads| && fd in Targets(c, t.threads[i])
    ensures Owned(c, t, fd)
  {
    ReachableInv(c, t);
    assert ThreadOk(c, t.sh, i, t.threads[i]);
    if HeldFd(t.threads[i]) != -1 {
      BorrowedStaysOwned(c, t, i);
    }
  }

  /**
    Over all interleavings of Close and Release there is one winner: the eventfd is written at most
    once and closed at most once, the gate is closed at most once, and the socket descriptor is closed
    or returned at most once, never both. When the shutdown fails before its end it is neither. A Close
    that wins shuts the connection down once, before the eventfd is written, and a Release never does; the
    socket is closed only for a Close and returned only for a Release.
   */
  lemma OneWinner(c: Config, t: State)
    requires Reachable(c, t)
    ensures var h := t.sh.hist;
            && h.wins <= 1 && h.sockCloses + h.sockReturns <= h.evCloses <= h.gateCloses <= h.evWrites <= h.wins
            && (h.wins == 1 <==> t.sh.cell == -1)
            && h.shutdowns <= h.closeWins <= h.wins && (t.sh.phase != Shutting ==> h.shutdowns == h.closeWins)
            && (h.evWrites == 1 ==> h.shutdowns == h.closeWins)
            && h.sockCloses <= h.closeWins && h.sockReturns + h.closeWins <= h.wins
            && (t.sh.phase in {Over(NotSignalled), Over(EventNotClosed)} ==> h.sockCloses + h.sockReturns == 0)
            && (t.sh.phase in {Over(SockClosed), Over(CloseFailed), Over(SockReleased)} ==> h.sockCloses + h.sockReturns == 1)
  {
    ReachableInv(c, t);
  }

  /**
    The step in which the winning call returns: it reports success exactly when neither descriptor is
    the socket's any more because the socket was closed or handed out. When the eventfd could not be
    written or closed, the call fails and the socket descriptor stays open, neither closed nor returned.
   */
  lemma WinnerReports(c: Config, s: State, l: Label)
    requires Reachable(c, s) && Enabled(c, s, l) && !s.sh.phase.Over? && Next(c, s, l).sh.phase.Over?
    ensures var t := Next(c, s, l);
            && l.Step? && l.i == s.sh.winner && t.threads[l.i].Idle?
            && (t.threads[l.i].res == Done <==> t.sh.phase in {Over(SockClosed), Over(SockReleased)})
            && (t.threads[l.i].res == Done ==> !Owned(c, t, c.fd) && !Owned(c, t, c.efd))
            && (t.sh.phase in {Over(NotSignalled), Over(EventNotClosed)} ==> Owned(c, t, c.fd))
            && (t.sh.phase == Over(SockReleased) ==> c.fd in t.sh.table && t.sh.table[c.fd] == Foreign)
  {
    ReachableInv(c, s);
    NextInv(c, s, l);
    assert l.Step? && ThreadOk(c, s.sh, l.i, s.threads[l.i]);
    LastLocal(c, l.i, s.sh, s.threads[l.i], l.ch);
  }

  lemma LastLocal(c: Config, i: int, sh: Shared, pc: Pc, ch: Choice)
    requires c.Valid() && ThreadOk(c, sh, i, pc) && Local(c, i, sh, pc, ch).Effect?
    requires !sh.phase.Over? && Local(c, i, sh, pc, ch).sh.phase.Over?
    ensures var e := Local(c, i, sh, pc, ch);
            && sh.winner == i && e.pc.Idle?
            && (e.pc.res == Done <==> e.sh.phase in {Over(SockClosed), Over(SockReleased)})
            && (e.sh.phase == Over(SockReleased) ==> e.sh.table == sh.table[c.fd := Foreign])
  {
  }

  /** Once there is a winner, every other Close or Release fails with EBADF and changes nothing. */
  lemma LosersGetEBADF(c: Config, t: State, i: int)
    requires Reachable(c, t) && 0 <= i < |t.threads| && t.threads[i].Swap? && t.sh.hist.wins > 0
    ensures Enabled(c, t, Step(i, Go)) && Next(c, t, Step(i, Go)) == t.(threads := t.threads[i := Idle(EBADF, false)])
  {
    ReachableInv(c, t);
  }

  /** The gate counts exactly the threads inside, and none of its panics can happen. */
  lemma GateCountsInside(c: Config, t: State)
    requires Reachable(c, t)
    ensures Users(t.sh.word) == InsideCount(t) == |set i | 0 <= i < |t.threads| && Inside(t.threads[i])|
    ensures Closed(t.sh.word) <==> t.sh.hist.gateCloses == 1
    ensures Panicked !in t.threads
  {
    ReachableInv(c, t);
    InsideCardinality(t.threads);
    forall i | 0 <= i < |t.threads| ensures t.threads[i] != Panicked {
      assert ThreadOk(c, t.sh, i, t.threads[i]);
    }
  }

  lemma {:induction false} InsideCardinality(threads: seq<Pc>)
    ensures Sum(InsideOne, threads) == |set i | 0 <= i < |threads| && Inside(threads[i])|
    decreases |threads|
  {
    var inside := set i | 0 <= i < |threads| && Inside(threads[i]);
    if threads == [] {
      assert inside == {};
    } else {
      var last := |threads| - 1;
      InsideCardinality(threads[..last]);
      SumSnoc(InsideOne, threads);
      var before := set i | 0 <= i < last && Inside(threads[..last][i]);
      assert inside == if Inside(threads[last]) then before + {last} else before;
    }
  }

  lemma {:induction false} SumSnoc(weight: Pc -> nat, threads: seq<Pc>)
    requires threads != []
    ensures Sum(weight, threads) == Sum(weight, threads[..|threads| - 1]) + weight(threads[|threads| - 1])
  {
    if |threads| > 1 {
      SumSnoc(weight, threads[1..]);
      assert threads[..|threads| - 1][1..] == threads[1..][..|threads| - 2];
    } else {
      assert threads[1..] == [] && threads[..0] == [];
    }
  }

  /** A thread in the middle of, or just back from, an operation that started after the swap to -1. */
  predicate LateOperation(pc: Pc) {
    match pc
    case Idle(_, late) => late
    case EnterLoad(_, late) => late
    case EnterCas(_, late, _) => late
    case LoadCell(_, late) => late
    case Calling(_, late, _) => late
    case WaitLoad(_, late, _) => late
    case Polling(_, late, _, _) => late
    case LeaveLoad(late, _, _) => late
    case LeaveCas(late, _, _, _) => late
    case Notify(late, _) => late
    case _ => false
  }

  /**
    An operation that started after the swap holds no descriptor at any time, and if it has returned,
    it returned EBADF.
   */
  lemma LateOperationsGetEBADF(c: Config, t: State, i: int)
    requires Reachable(c, t) && 0 <= i < |t.threads| && LateOperation(t.threads[i])
    ensures HeldFd(t.threads[i]) == -1 && Targets(c, t.threads[i]) == {}
    ensures t.threads[i].Idle? ==> t.threads[i].res == EBADF
  {
    ReachableInv(c, t);
    assert ThreadOk(c, t.sh, i, t.threads[i]);
  }

  /** The result that a thread at, or on its way to, the end of an operation has. */
  predicate HasResult(pc: Pc, res: Res) {
    match pc
    case Idle(r, _) => r == res
    case LeaveLoad(_, _, r) => r == res
    case LeaveCas(_, _, r, _) => r == res
    case Notify(_, r) => r == res
    case _ => false
  }

  /** No operation, and no Close or Release, fails with EBADF while the socket is open. */
  lemma EBADFMeansClosing(c: Config, t: State, i: int)
    requires Reachable(c, t) && 0 <= i < |t.threads| && HasResult(t.threads[i], EBADF)
    ensures t.sh.cell == -1 && t.sh.hist.wins == 1
  {
    ReachableInv(c, t);
    assert ThreadOk(c, t.sh, i, t.threads[i]);
  }

  /** A thread in the middle of an operation that was not marked as started after the swap. */
  predicate EarlyOperation(pc: Pc) {
    match pc
    case EnterLoad(_, late) => !late
    case EnterCas(_, late, _) => !late
    case LoadCell(_, late) => !late
    case Calling(_, late, _) => !late
    case WaitLoad(_, late, _) => !late
    case Polling(_, late, _, _) => !late
    case LeaveLoad(late, _, _) => !late
    case LeaveCas(late, _, _, _) => !late
    case Notify(late, _) => !late
    case _ => false
  }

  /** A thread between operations once the cell holds -1 never runs an unmarked operation again. */
  lemma {:induction false} MarksAreComplete(c: Config, s: State, labels: seq<Label>, t: State, i: int)
    requires Inv(c, s) && s.sh.cell == -1 && Run(c, s, labels, t)
    requires 0 <= i < |s.threads| && !EarlyOperation(s.threads[i])
    ensures t.sh.cell == -1 && i < |t.threads| && !EarlyOperation(t.threads[i])
    decreases |labels|
  {
    if labels != [] {
      NextInv(c, s, labels[0]);
      MarksAreCompleteStep(c, s, labels[0], i);
      MarksAreComplete(c, Next(c, s, labels[0]), labels[1..], t, i);
    }
  }

  lemma MarksAreCompleteStep(c: Config, s: State, l: Label, i: int)
    requires Inv(c, s) && s.sh.cell == -1 && Enabled(c, s, l)
    requires 0 <= i < |s.threads| && !EarlyOperation(s.threads[i])
    ensures Next(c, s, l).sh.cell == -1 && !EarlyOperation(Next(c, s, l).threads[i])
  {
    if l.Step? {
      MarkedLocal(c, l.i, s.sh, s.threads[l.i], l.ch);
    }
  }

  lemma MarkedLocal(c: Config, i: int, sh: Shared, pc: Pc, ch: Choice)
    requires sh.cell == -1 && Local(c, i, sh, pc, ch).Effect?
    ensures var e := Local(c, i, sh, pc, ch);
            e.sh.cell == -1 && (!EarlyOperation(pc) ==> !EarlyOperation(e.pc))
  {
  }

  // Balance of Enter and Leave along a run, for one thread.

  function Enters(c: Config, s: State, labels: seq<Label>, i: int): nat
    requires Possible(c, s, labels)
    decreases |labels|
  {
    if labels == [] then 0
    else
      var t := Next(c, s, labels[0]);
      Bit(labels[0].Step? && labels[0].i == i && s.threads[i].EnterCas? && t.threads[i].LoadCell?)
      + Enters(c, t, labels[1..], i)
  }

  function Leaves(c: Config, s: State, labels: seq<Label>, i: int): nat
    requires Possible(c, s, labels)
    decreases |labels|
  {
    if labels == [] then 0
    else
      var t := Next(c, s, labels[0]);
      Bit(labels[0].Step? && labels[0].i == i && s.threads[i].LeaveCas? && !t.threads[i].LeaveLoad?)
      + Leaves(c, t, labels[1..], i)
  }

  predicate Possible(c: Config, s: State, labels: seq<Label>)
    decreases |labels|
  {
    labels == [] || (Enabled(c, s, labels[0]) && Possible(c, Next(c, s, labels[0]), labels[1..]))
  }

  /**
    Whatever retries happen in between, each successful Enter of a thread is followed by exactly one
    Leave: from idle to idle the two are equally many.
   */
  lemma {:induction false} EnterLeaveBalance(c: Config, s: State, labels: seq<Label>, t: State, i: int)
    requires Inv(c, s) && Run(c, s, labels, t) && 0 <= i < |s.threads|
    ensures Possible(c, s, labels) && i < |t.threads|
    ensures InsideOne(s.threads[i]) + Enters(c, s, labels, i) == Leaves(c, s, labels, i) + InsideOne(t.threads[i])
    decreases |labels|
  {
    if labels != [] {
      NextInv(c, s, labels[0]);
      EnterLeaveStep(c, s, labels[0], i);
      EnterLeaveBalance(c, Next(c, s, labels[0]), labels[1..], t, i);
    }
  }

  lemma EnterLeaveStep(c: Config, s: State, l: Label, i: int)
    requires Inv(c, s) && Enabled(c, s, l) && 0 <= i < |s.threads|
    ensures var t := Next(c, s, l);
            var mine := l.Step? && l.i == i;
            InsideOne(s.threads[i]) + Bit(mine && s.threads[i].EnterCas? && t.threads[i].LoadCell?)
            == Bit(mine && s.threads[i].LeaveCas? && !t.threads[i].LeaveLoad?) + InsideOne(t.threads[i])
  {
    if l.Step? && l.i == i {
      assert ThreadOk(c, s.sh, i, s.threads[i]);
      var others := InsideOthers(s, i);
      EnterLeaveLocal(c, i, s.sh, s.threads[i], l.ch);
    }
  }

  lemma EnterLeaveLocal(c: Config, i: int, sh: Shared, pc: Pc, ch: Choice)
    requires Local(c, i, sh, pc, ch).Effect? && (pc.LeaveLoad? ==> Users(sh.word) > 0)
    ensures var pc' := Local(c, i, sh, pc, ch).pc;
            InsideOne(pc) + Bit(pc.EnterCas? && pc'.LoadCell?) == Bit(pc.LeaveCas? && !pc'.LeaveLoad?) + InsideOne(pc')
  {
  }
}

/** The same, counted along runs: how often each action of a shutdown is performed. */
module ShutdownActions {
  import opened GateWord
  import opened SocketMachine
  import opened SocketInvariant
  import opened SocketTheorems

  datatype Action = WinSwap | WinByClose | ShutDownSocket | WriteEvent | CloseGate | CloseEventFd | CloseSocket | ReturnSocket

  /** The action that one step of a thread at `pc` performs, if any. */
  predicate Performs(sh: Shared, pc: Pc, ch: Choice, action: Action) {
    match action
    case WinSwap => pc.Swap? && sh.cell >= 0
    case WinByClose => pc.Swap? && sh.cell >= 0 && pc.kind == CloseOp
    case ShutDownSocket => pc.Shutdown?
    case WriteEvent => pc.Signal? && ch.Go?
    case CloseGate => pc.GateCas? && pc.seen == sh.word
    case CloseEventFd => pc.CloseEvent?
    case CloseSocket => pc.Dispose? && pc.kind == CloseOp
    case ReturnSocket => pc.Dispose? && pc.kind == ReleaseOp
  }

  predicate PerformedBy(s: State, l: Label, action: Action) {
    l.Step? && 0 <= l.i < |s.threads| && Performs(s.sh, s.threads[l.i], l.ch, action)
  }

  function Times(c: Config, s: State, labels: seq<Label>, action: Action): nat
    requires Possible(c, s, labels)
    decreases |labels|
  {
    if labels == [] then 0
    else Bit(PerformedBy(s, labels[0], action)) + Times(c, Next(c, s, labels[0]), labels[1..], action)
  }

  function Recorded(h: History, action: Action): nat {
    match action
    case WinSwap => h.wins
    case WinByClose => h.closeWins
    case ShutDownSocket => h.shutdowns
    case WriteEvent => h.evWrites
    case CloseGate => h.gateCloses
    case CloseEventFd => h.evCloses
    case CloseSocket => h.sockCloses
    case ReturnSocket => h.sockReturns
  }

  lemma LocalRecorded(c: Config, i: int, sh: Shared, pc: Pc, ch: Choice, action: Action)
    requires Local(c, i, sh, pc, ch).Effect?
    ensures Recorded(Local(c, i, sh, pc, ch).sh.hist, action) == Recorded(sh.hist, action) + Bit(Performs(sh, pc, ch, action))
  {
  }

  /** The history in the state counts what was done. */
  lemma {:induction false} TimesRecorded(c: Config, s: State, labels: seq<Label>, t: State, action: Action)
    requires Run(c, s, labels, t)
    ensures Possible(c, s, labels)
    ensures Recorded(s.sh.hist, action) + Times(c, s, labels, action) == Recorded(t.sh.hist, action)
    decreases |labels|
  {
    if labels != [] {
      var l := labels[0];
      if l.Step? {
        LocalRecorded(c, l.i, s.sh, s.threads[l.i], l.ch, action);
      }
      TimesRecorded(c, Next(c, s, l), labels[1..], t, action);
    }
  }

  /**
    Along every run of a fresh socket, with any number of racing calls of Close and Release, each action
    of the shutdown is performed at most once and never before the ones it must follow, and the socket
    is not both closed and returned. The connection is shut down exactly once for a winning Close, before
    the eventfd is written, and never for a Release.
   */
  lemma AtMostOnce(c: Config, s: State, labels: seq<Label>, t: State)
    requires Init(c, s) && |s.threads| < GATE_CLOSED && Run(c, s, labels, t)
    ensures Possible(c, s, labels)
    ensures Times(c, s, labels, CloseSocket) + Times(c, s, labels, ReturnSocket)
            <= Times(c, s, labels, CloseEventFd) <= Times(c, s, labels, CloseGate)
            <= Times(c, s, labels, WriteEvent) <= Times(c, s, labels, WinSwap) <= 1
    ensures Times(c, s, labels, ShutDownSocket) <= Times(c, s, labels, WinByClose) <= Times(c, s, labels, WinSwap)
    ensures Times(c, s, labels, WriteEvent) == 1 || t.sh.phase.Over? ==>
              Times(c, s, labels, ShutDownSocket) == Times(c, s, labels, WinByClose)
    ensures Times(c, s, labels, CloseSocket) <= Times(c, s, labels, WinByClose)
    ensures Times(c, s, labels, ReturnSocket) + Times(c, s, labels, WinByClose) <= Times(c, s, labels, WinSwap)
  {
    assert Reachable(c, t);
    OneWinner(c, t);
    TimesRecorded(c, s, labels, t, WinSwap);
    TimesRecorded(c, s, labels, t, WinByClose);
    TimesRecorded(c, s, labels, t, ShutDownSocket);
    TimesRecorded(c, s, labels, t, WriteEvent);
    TimesRecorded(c, s, labels, t, CloseGate);
    TimesRecorded(c, s, labels, t, CloseEventFd);
    TimesRecorded(c, s, labels, t, CloseSocket);
    TimesRecorded(c, s, labels, t, ReturnSocket);
  }
}

/**
  The user count has 31 bits. With 2^31 threads or more the count can run into the closed flag, and then
  Leave panics; with fewer it cannot.
 */
module GateCapacity {
  import opened GateWord
  import opened Syscalls
  import opened SocketMachine
  import opened SocketRuns
  import opened SocketTheorems

  /** The first `k` threads are inside, the others as they were. */
  function Entered(s: State, k: nat): State
    requires k <= |s.threads| && k < WORD_SIZE
  {
    State(s.sh.(word := k),
          seq(|s.threads|, i requires 0 <= i < |s.threads| => if i < k then LoadCell(Single, false) else s.threads[i]))
  }

  lemma EnterOne(c: Config, s: State, k: nat) returns (labels: seq<Label>)
    requires Init(c, s) && k < |s.threads| && k < GATE_CLOSED
    ensures Run(c, Entered(s, k), labels, Entered(s, k + 1))
  {
    var s0 := Entered(s, k);
    var s1 := Next(c, s0, Step(k, StartOp(Single)));
    var s2 := Next(c, s1, Step(k, Go));
    var s3 := Next(c, s2, Step(k, Go));
    RunOne(c, s0, Step(k, StartOp(Single)));
    RunOne(c, s1, Step(k, Go));
    RunOne(c, s2, Step(k, Go));
    RunConcat(c, s0, [Step(k, StartOp(Single))], s1, [Step(k, Go)], s2);
    RunConcat(c, s0, [Step(k, StartOp(Single))] + [Step(k, Go)], s2, [Step(k, Go)], s3);
    assert s3 == Entered(s, k + 1);
    labels := [Step(k, StartOp(Single))] + [Step(k, Go)] + [Step(k, Go)];
  }

  lemma {:induction false} EnterMany(c: Config, s: State, k: nat) returns (labels: seq<Label>)
    requires Init(c, s) && k <= |s.threads| && k <= GATE_CLOSED
    ensures Run(c, s, labels, Entered(s, k))
  {
    if k == 0 {
      assert Entered(s, 0) == s;
      labels := [];
    } else {
      var before := EnterMany(c, s, k - 1);
      var last := EnterOne(c, s, k - 1);
      RunConcat(c, s, before, Entered(s, k - 1), last, Entered(s, k));
      labels := before + last;
    }
  }

  /** With the count run into the flag, thread 0 panics when it leaves. */
  lemma OverflowPanics(c: Config, s: State) returns (labels: seq<Label>, t: State)
    requires Init(c, s) && |s.threads| >= GATE_CLOSED
    ensures Run(c, s, labels, t) && Panicked in t.threads
  {
    var full := Entered(s, GATE_CLOSED);
    labels := EnterMany(c, s, GATE_CLOSED);
    var s1 := Next(c, full, Step(0, Go));
    var s2 := Next(c, s1, Step(0, Returns(Ok)));
    t := Next(c, s2, Step(0, Go));
    RunOne(c, full, Step(0, Go));
    RunOne(c, s1, Step(0, Returns(Ok)));
    RunOne(c, s2, Step(0, Go));
    RunConcat(c, s, labels, full, [Step(0, Go)], s1);
    RunConcat(c, s, labels + [Step(0, Go)], s1, [Step(0, Returns(Ok))], s2);
    RunConcat(c, s, labels + [Step(0, Go)] + [Step(0, Returns(Ok))], s2, [Step(0, Go)], t);
    assert t.threads[0] == Panicked;
    labels := labels + [Step(0, Go)] + [Step(0, Returns(Ok))] + [Step(0, Go)];
  }

  ghost predicate PanicRun(c: Config, s: State, labels: seq<Label>, t: State) {
    Run(c, s, labels, t) && Panicked in t.threads
  }

  /** A fresh socket can panic in some run if and only if it has 2^31 threads or more. */
  lemma PanicsIffTooManyThreads(c: Config, s: State)
    requires Init(c, s)
    ensures (exists labels, t :: PanicRun(c, s, labels, t)) <==> |s.threads| >= GATE_CLOSED
  {
    if |s.threads| >= GATE_CLOSED {
      var labels, t := OverflowPanics(c, s);
      assert PanicRun(c, s, labels, t);
    } else {
      forall labels, t | Run(c, s, labels, t) ensures !PanicRun(c, s, labels, t) {
        assert Reachable(c, t);
        GateCountsInside(c, t);
      }
    }
  }
}
