/**
  What the operations that are under way when Close or Release makes its swap can still return. Only
  some of them are bound to fail with EBADF.
 */
module SocketResults {
  import opened GateWord
  import opened Syscalls
  import opened SocketMachine
  import opened SocketRuns
  import opened SocketInvariant
  import opened SocketTheorems
  import opened SocketCompletion

  /** In the middle of an operation, or of a Close or Release that has yet to make its swap. */
  predicate InOperation(pc: Pc) {
    pc.EnterLoad? || pc.EnterCas? || Inside(pc) || pc.Notify? || pc.Swap?
  }

  predicate Leaving(pc: Pc) {
    pc.LeaveLoad? || pc.LeaveCas? || pc.Notify?
  }

  /** The results that the operation of a thread at `pc` can still have once the cell holds -1. */
  predicate MayReturn(sh: Shared, pc: Pc, res: Res) {
    match pc
    case Idle(r, _) => res == r
    case Calling(op, _, _) => res != EBADF || AfterSyscall(op, Again) == Block
    case Polling(_, _, _, _) => res != Done || sh.ev == 0
    case LeaveLoad(_, _, r) => res == r
    case LeaveCas(_, _, r, _) => res == r
    case Notify(_, r) => res == r
    case _ => res == EBADF
  }

  /** Thread `i` begins nothing new in these steps. */
  predicate NothingNew(labels: seq<Label>, i: int) {
    forall k :: 0 <= k < |labels| && labels[k].Step? && labels[k].i == i ==> !labels[k].ch.StartOp? && !labels[k].ch.StartEnd?
  }

  /** A run in which the operation that thread `i` is in the middle of returns `res`. */
  ghost predicate ReturnRun(c: Config, s: State, labels: seq<Label>, t: State, i: int, res: Res) {
    && Run(c, s, labels, t) && NothingNew(labels, i)
    && 0 <= i < |t.threads| && t.threads[i].Idle? && t.threads[i].res == res
  }

  // No other result is possible.

  predicate Settled(pc: Pc) {
    pc.Idle? || InOperation(pc)
  }

  lemma {:induction false} MineNarrows(c: Config, i: int, sh: Shared, pc: Pc, ch: Choice, res: Res)
    requires sh.cell == -1 && Settled(pc) && Local(c, i, sh, pc, ch).Effect? && !ch.StartOp? && !ch.StartEnd?
    requires pc.LeaveLoad? ==> Users(sh.word) > 0
    requires pc.Notify? ==> sh.done == OpenChan
    ensures var e := Local(c, i, sh, pc, ch); Settled(e.pc) && (MayReturn(e.sh, e.pc, res) ==> MayReturn(sh, pc, res))
  {
  }

  lemma EventCounts(c: Config, i: int, sh: Shared, pc: Pc, ch: Choice)
    requires Local(c, i, sh, pc, ch).Effect?
    ensures Local(c, i, sh, pc, ch).sh.ev >= sh.ev
  {
  }

  lemma {:induction false} StepNarrows(c: Config, s: State, l: Label, i: int, res: Res)
    requires Inv(c, s) && s.sh.cell == -1 && Enabled(c, s, l) && 0 <= i < |s.threads| && Settled(s.threads[i])
    requires l.Step? && l.i == i ==> !l.ch.StartOp? && !l.ch.StartEnd?
    ensures var t := Next(c, s, l);
            && t.sh.cell == -1 && Settled(t.threads[i])
            && (MayReturn(t.sh, t.threads[i], res) ==> MayReturn(s.sh, s.threads[i], res))
  {
    if l.Step? {
      assert ThreadOk(c, s.sh, l.i, s.threads[l.i]);
      var others := InsideOthers(s, l.i);
      MarkedLocal(c, l.i, s.sh, s.threads[l.i], l.ch);
      EventCounts(c, l.i, s.sh, s.threads[l.i], l.ch);
      if l.i == i {
        MineNarrows(c, i, s.sh, s.threads[i], l.ch, res);
      }
    }
  }

  lemma {:induction false} RunNarrows(c: Config, s: State, labels: seq<Label>, t: State, i: int, res: Res)
    requires Inv(c, s) && s.sh.cell == -1 && 0 <= i < |s.threads| && Settled(s.threads[i])
    requires ReturnRun(c, s, labels, t, i, res)
    ensures MayReturn(s.sh, s.threads[i], res)
    decreases |labels|
  {
    if labels != [] {
      var m := Next(c, s, labels[0]);
      NextInv(c, s, labels[0]);
      StepNarrows(c, s, labels[0], i, res);
      assert NothingNew(labels[1..], i);
      RunNarrows(c, m, labels[1..], t, i, res);
    }
  }

  // Each of them has a run.

  /** A result that is settled already, or follows from the cell. */
  predicate Bound(pc: Pc) {
    InOperation(pc) && !pc.Calling? && !pc.Polling?
  }

  function BoundTo(pc: Pc): Res {
    if Leaving(pc) then pc.res else EBADF
  }

  /** Steps to the end if nobody interferes; a stale compare-and-swap costs another round. */
  function StepsLeft(word: Word, pc: Pc): nat {
    match pc
    case EnterCas(_, _, seen) => if seen == word then 5 else 7
    case EnterLoad(_, _) => 6
    case LoadCell(_, _) => 4
    case WaitLoad(_, _, _) => 4
    case LeaveLoad(_, _, _) => 2
    case LeaveCas(_, _, _, seen) => if seen == word then 1 else 3
    case _ => 0
  }

  /** Nothing but thread `i` has moved, and the shutdown stands where it stood. */
  predicate OnlyMine(s: State, t: State, i: int)
    requires 0 <= i < |s.threads|
  {
    |t.threads| == |s.threads| && t.threads == s.threads[i := t.threads[i]]
    && t.sh.phase == s.sh.phase && t.sh.winner == s.sh.winner
  }

  lemma {:induction false} BoundMoves(c: Config, s: State, i: int)
    requires Inv(c, s) && s.sh.cell == -1 && 0 <= i < |s.threads| && Bound(s.threads[i])
    ensures Enabled(c, s, Step(i, Go))
    ensures var t := Next(c, s, Step(i, Go));
            var pc, pc' := s.threads[i], t.threads[i];
            && t.sh.cell == -1 && OnlyMine(s, t, i)
            && if pc'.Idle? then pc'.res == BoundTo(pc)
               else Bound(pc') && BoundTo(pc') == BoundTo(pc) && StepsLeft(t.sh.word, pc') < StepsLeft(s.sh.word, pc)
  {
    assert ThreadOk(c, s.sh, i, s.threads[i]);
    var others := InsideOthers(s, i);
  }

  /** Thread `i` alone brings its operation to its end. */
  lemma {:induction false} BoundReturns(c: Config, s: State, i: int) returns (labels: seq<Label>, t: State)
    requires Inv(c, s) && s.sh.cell == -1 && 0 <= i < |s.threads| && Bound(s.threads[i])
    ensures ReturnRun(c, s, labels, t, i, BoundTo(s.threads[i])) && OnlyMine(s, t, i)
    decreases StepsLeft(s.sh.word, s.threads[i])
  {
    var l := Step(i, Go);
    BoundMoves(c, s, i);
    NextInv(c, s, l);
    var ks: seq<Label> := [];
    t := Next(c, s, l);
    if !t.threads[i].Idle? {
      ks, t := BoundReturns(c, t, i);
    }
    labels := [l] + ks;
    RunCons(c, s, l, ks, t);
  }

  /** A step of thread `i` put before the rest of its operation. */
  lemma {:induction false} StepFirst(c: Config, s: State, i: int, ch: Choice, ks: seq<Label>, t: State, res: Res)
    requires 0 <= i < |s.threads| && Enabled(c, s, Step(i, ch)) && !ch.StartOp? && !ch.StartEnd?
    requires var m := Next(c, s, Step(i, ch)); OnlyMine(s, m, i) && OnlyMine(m, t, i) && ReturnRun(c, m, ks, t, i, res)
    ensures ReturnRun(c, s, [Step(i, ch)] + ks, t, i, res) && OnlyMine(s, t, i)
  {
    RunCons(c, s, Step(i, ch), ks, t);
  }

  /** One step of thread `i`, then on to a result that is possible from there. */
  lemma {:induction false} Via(c: Config, s: State, i: int, answer: Answer, res: Res) returns (labels: seq<Label>, t: State)
    requires Inv(c, s) && s.sh.cell == -1 && 0 <= i < |s.threads| && Enabled(c, s, Step(i, Returns(answer)))
    requires var pc := Next(c, s, Step(i, Returns(answer))).threads[i]; Bound(pc) && BoundTo(pc) == res
    ensures ReturnRun(c, s, labels, t, i, res) && OnlyMine(s, t, i)
  {
    var l := Step(i, Returns(answer));
    NextInv(c, s, l);
    MarkedLocal(c, i, s.sh, s.threads[i], l.ch);
    var ks, u := BoundReturns(c, Next(c, s, l), i);
    t := u;
    labels := [l] + ks;
    StepFirst(c, s, i, l.ch, ks, t, res);
  }

  lemma {:induction false} CallReturns(c: Config, s: State, i: int, res: Res) returns (labels: seq<Label>, t: State)
    requires Inv(c, s) && s.sh.cell == -1 && 0 <= i < |s.threads| && s.threads[i].Calling?
    requires MayReturn(s.sh, s.threads[i], res)
    ensures ReturnRun(c, s, labels, t, i, res) && OnlyMine(s, t, i)
  {
    labels, t := Via(c, s, i, if res == Done then Ok else if res == EBADF then Again else Fail, res);
  }

  lemma {:induction false} PollReturns(c: Config, s: State, i: int, res: Res) returns (labels: seq<Label>, t: State)
    requires Inv(c, s) && s.sh.cell == -1 && 0 <= i < |s.threads| && s.threads[i].Polling?
    requires MayReturn(s.sh, s.threads[i], res)
    ensures ReturnRun(c, s, labels, t, i, res) && OnlyMine(s, t, i)
  {
    if res == Done {
      var l := Step(i, Returns(Ok));
      NextInv(c, s, l);
      var ks, u := CallReturns(c, Next(c, s, l), i, Done);
      t := u;
      labels := [l] + ks;
      StepFirst(c, s, i, l.ch, ks, t, res);
    } else {
      labels, t := Via(c, s, i, if res == EBADF then Intr else Fail, res);
    }
  }

  /**
    Exactly what each operation under way at the swap, or at any time after it, can return. A thread that
    has not made its call yet, or is back in wait, or comes too late with a swap of its own, can only fail
    with EBADF; one in its system call can have any result that the call allows; a poll can end the
    operation with EBADF or its own error, and with success only while the eventfd has not been written;
    one on its way out keeps its result.
   */
  lemma {:induction false} ResultScope(c: Config, s: State, i: int, res: Res)
    requires Reachable(c, s) && s.sh.cell == -1 && 0 <= i < |s.threads| && InOperation(s.threads[i])
    ensures (exists labels, t :: ReturnRun(c, s, labels, t, i, res)) <==> MayReturn(s.sh, s.threads[i], res)
  {
    ReachableInv(c, s);
    if MayReturn(s.sh, s.threads[i], res) {
      var labels, t;
      if s.threads[i].Calling? {
        labels, t := CallReturns(c, s, i, res);
      } else if s.threads[i].Polling? {
        labels, t := PollReturns(c, s, i, res);
      } else {
        labels, t := BoundReturns(c, s, i);
      }
      assert ReturnRun(c, s, labels, t, i, res);
    }
    forall labels, t | ReturnRun(c, s, labels, t, i, res) ensures MayReturn(s.sh, s.threads[i], res) {
      RunNarrows(c, s, labels, t, i, res);
    }
  }

  /** The operations that the promise of Close and Release, "any concurrent caller receives EBADF", does not reach. */
  predicate MayEscape(pc: Pc) {
    pc.Calling? || pc.Polling? || (Leaving(pc) && pc.res != EBADF)
  }

  ghost predicate AlwaysEBADF(c: Config, s: State, i: int) {
    forall labels, t, res | ReturnRun(c, s, labels, t, i, res) :: res == EBADF
  }

  /** An operation under way at the swap must fail with EBADF if and only if it is not one of those. */
  lemma {:induction false} EBADFScope(c: Config, s: State, i: int)
    requires Reachable(c, s) && s.sh.cell == -1 && 0 <= i < |s.threads| && InOperation(s.threads[i])
    ensures AlwaysEBADF(c, s, i) <==> !MayEscape(s.threads[i])
  {
    ReachableInv(c, s);
    var pc := s.threads[i];
    if MayEscape(pc) {
      var res := if Leaving(pc) then pc.res else OtherError;
      ResultScope(c, s, i, res);
    } else {
      forall labels, t, res | ReturnRun(c, s, labels, t, i, res) ensures res == EBADF {
        ResultScope(c, s, i, res);
      }
    }
  }

  // A caller that escapes.

  /** Thread 0 is in its system call when thread 1 makes the swap of a Release. */
  lemma {:induction false} ReleaseDuringCall(c: Config, s: State) returns (labels: seq<Label>, t: State)
    requires Init(c, s) && 2 <= |s.threads|
    ensures Run(c, s, labels, t) && |t.threads| == |s.threads| && t.sh.cell == -1
    ensures t.threads[0] == Calling(Transfer(true), false, c.fd) && t.threads[1] == Signal(ReleaseOp, c.fd)
    ensures t.sh.phase == Signalling && t.sh.winner == 1
  {
    var s1 := Next(c, s, Step(0, StartOp(Transfer(true))));
    var s2 := Next(c, s1, Step(0, Go));
    var s3 := Next(c, s2, Step(0, Go));
    var s4 := Next(c, s3, Step(0, Go));
    var s5 := Next(c, s4, Step(1, StartEnd(ReleaseOp)));
    t := Next(c, s5, Step(1, Go));
    RunOne(c, s5, Step(1, Go));
    RunCons(c, s4, Step(1, StartEnd(ReleaseOp)), [Step(1, Go)], t);
    var ks := [Step(1, StartEnd(ReleaseOp))] + [Step(1, Go)];
    RunCons(c, s3, Step(0, Go), ks, t);
    RunCons(c, s2, Step(0, Go), [Step(0, Go)] + ks, t);
    RunCons(c, s1, Step(0, Go), [Step(0, Go)] + ([Step(0, Go)] + ks), t);
    RunCons(c, s, Step(0, StartOp(Transfer(true))), [Step(0, Go)] + ([Step(0, Go)] + ([Step(0, Go)] + ks)), t);
    labels := [Step(0, StartOp(Transfer(true)))] + ([Step(0, Go)] + ([Step(0, Go)] + ([Step(0, Go)] + ks)));
  }

  /**
    On every socket with two threads or more there is a run in which a transfer that is under way when a
    Release makes its swap returns success, and the Release succeeds as well.
   */
  lemma {:induction false} ReleaseWithoutEBADF(c: Config, s: State)
      returns (before: seq<Label>, t: State, after: seq<Label>, u: State)
    requires Init(c, s) && 2 <= |s.threads| < GATE_CLOSED
    ensures Run(c, s, before, t) && t.sh.cell == -1 && |t.threads| == |s.threads|
    ensures t.threads[0].Calling? && t.threads[1] == Signal(ReleaseOp, c.fd)
    ensures Run(c, t, after, u) && u.sh.phase == Over(SockReleased) && |u.threads| == |s.threads|
    ensures u.threads[0] == Idle(Done, false) && u.threads[1] == Idle(Done, false)
  {
    before, t := ReleaseDuringCall(c, s);
    InitInv(c, s);
    RunInv(c, s, before, t);
    var ls, m := CallReturns(c, t, 0, Done);
    RunInv(c, t, ls, m);
    assert ThreadOk(c, m.sh, 0, m.threads[0]);
    RunConcat(c, s, before, t, ls, m);
    var ks, v := ShutdownCompletes(c, m);
    u := v;
    RunConcat(c, t, ls, m, ks, u);
    after := ls + ks;
  }
}
