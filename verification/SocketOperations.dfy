/**
  What an operation does, told in terms of what it met on the way: the gate or the cell that turned it
  away, the answers of its system calls and its polls. Nothing here refers to the steps of the machine.
 */
module SocketOperations {
  import opened GateWord
  import opened Syscalls
  import opened SocketMachine
  import opened SocketRuns
  import opened SocketInvariant
  import opened SocketTheorems
  import opened SocketCompletion
  import opened SocketResults

  /** The last thing that decided an operation's course. `signalled` says that the poll found the eventfd written. */
  datatype Event = Nothing | Refused | Called(answer: Answer) | Polled(answer: Answer, signalled: bool)

  /** What a step of its own makes a thread learn; most steps teach it nothing new. */
  function Lesson(sh: Shared, pc: Pc, ch: Choice, before: Event): Event {
    match pc
    case EnterLoad(_, _) => if Closed(sh.word) then Refused else before
    case LoadCell(_, _) => if sh.cell < 0 then Refused else before
    case WaitLoad(_, _, _) => if sh.cell < 0 then Refused else before
    case Calling(_, _, _) => if ch.Returns? then Called(ch.answer) else before
    case Polling(_, _, _, _) => if ch.Returns? then Polled(ch.answer, sh.ev > 0) else before
    case _ => before
  }

  function Learnt(s: State, l: Label, i: int, before: Event): Event
    requires 0 <= i < |s.threads|
  {
    if l.Step? && l.i == i then Lesson(s.sh, s.threads[i], l.ch, before) else before
  }

  function LearntAll(c: Config, s: State, labels: seq<Label>, i: int, before: Event): Event
    requires Possible(c, s, labels) && 0 <= i < |s.threads|
    decreases |labels|
  {
    if labels == [] then before
    else LearntAll(c, Next(c, s, labels[0]), labels[1..], i, Learnt(s, labels[0], i, before))
  }

  predicate Waiting(pc: Pc, op: Op) {
    (pc.WaitLoad? || pc.Polling?) && pc.op == op
  }

  predicate Entering(pc: Pc, op: Op) {
    (pc.EnterLoad? || pc.EnterCas? || pc.LoadCell?) && pc.op == op
  }

  predicate AtCall(pc: Pc, op: Op) {
    pc.Calling? && pc.op == op
  }

  /** Where an operation stands after an event: still at it, or done with a result. */
  predicate Stands(op: Op, event: Event, pc: Pc) {
    match event
    case Nothing => Entering(pc, op) || AtCall(pc, op)
    case Refused => HasResult(pc, EBADF)
    case Called(Ok) => HasResult(pc, Done)
    case Called(Fail) => HasResult(pc, OtherError)
    case Called(Intr) => if op.Transfer? then AtCall(pc, op) else HasResult(pc, OtherError)
    case Called(Again) =>
      if op == Accept || op == Transfer(true) then Waiting(pc, op) else HasResult(pc, OtherError)
    case Polled(Ok, signalled) => if signalled then HasResult(pc, EBADF) else AtCall(pc, op)
    case Polled(Intr, _) => Waiting(pc, op)
    case Polled(Fail, _) => HasResult(pc, OtherError)
    case Polled(Again, _) => false
  }

  /** A step of a thread still at its operation. */
  lemma {:induction false} AtItStands(c: Config, i: int, sh: Shared, pc: Pc, ch: Choice, op: Op, event: Event)
    requires Local(c, i, sh, pc, ch).Effect? && Stands(op, event, pc)
    requires Entering(pc, op) || AtCall(pc, op) || Waiting(pc, op)
    ensures Stands(op, Lesson(sh, pc, ch, event), Local(c, i, sh, pc, ch).pc)
  {
  }

  /** A step of a thread that has its result. */
  lemma {:induction false} ResultStands(c: Config, i: int, sh: Shared, pc: Pc, ch: Choice, res: Res)
    requires Local(c, i, sh, pc, ch).Effect? && HasResult(pc, res) && !ch.StartOp? && !ch.StartEnd?
    requires (pc.LeaveLoad? ==> Users(sh.word) > 0) && (pc.Notify? ==> sh.done == OpenChan)
    ensures HasResult(Local(c, i, sh, pc, ch).pc, res)
  {
  }

  lemma {:induction false} LocalStands(c: Config, s: State, i: int, ch: Choice, op: Op, event: Event)
    requires Inv(c, s) && Enabled(c, s, Step(i, ch)) && Stands(op, event, s.threads[i]) && !ch.StartOp? && !ch.StartEnd?
    ensures Stands(op, Learnt(s, Step(i, ch), i, event), Next(c, s, Step(i, ch)).threads[i])
  {
    var pc := s.threads[i];
    if Entering(pc, op) || AtCall(pc, op) || Waiting(pc, op) {
      AtItStands(c, i, s.sh, pc, ch, op, event);
    } else {
      assert ThreadOk(c, s.sh, i, pc);
      var others := InsideOthers(s, i);
      ResultStands(c, i, s.sh, pc, ch, pc.res);
    }
  }

  lemma {:induction false} RunStands(c: Config, s: State, labels: seq<Label>, t: State, i: int, op: Op, event: Event)
    requires Inv(c, s) && Run(c, s, labels, t) && NothingNew(labels, i)
    requires 0 <= i < |s.threads| && Stands(op, event, s.threads[i])
    ensures Possible(c, s, labels) && i < |t.threads|
    ensures Stands(op, LearntAll(c, s, labels, i, event), t.threads[i])
    decreases |labels|
  {
    if labels != [] {
      var l := labels[0];
      NextInv(c, s, l);
      if l.Step? && l.i == i {
        LocalStands(c, s, i, l.ch, op, event);
      }
      assert NothingNew(labels[1..], i);
      RunStands(c, Next(c, s, l), labels[1..], t, i, op, Learnt(s, l, i, event));
    }
  }

  /**
    From its start on, in every interleaving, an operation stands where the last thing it met puts it. A
    transfer goes on after EINTR, an Accept or a blocking transfer waits on EAGAIN and makes its call again
    when a poll returns, and it returns success exactly when its last call succeeded, EBADF exactly when the
    gate, the cell or the eventfd told it that the socket is closing, and any other error as it came.
   */
  lemma {:induction false} OperationFollowsAnswers(c: Config, s: State, op: Op, labels: seq<Label>, t: State, i: int)
    requires Reachable(c, s) && 0 <= i < |s.threads| && s.threads[i].EnterLoad? && s.threads[i].op == op
    requires Run(c, s, labels, t) && NothingNew(labels, i)
    ensures Possible(c, s, labels) && i < |t.threads|
    ensures var event, pc := LearntAll(c, s, labels, i, Nothing), t.threads[i];
            && (HasResult(pc, Done) <==> event == Called(Ok))
            && (HasResult(pc, EBADF) <==> event == Refused || event == Polled(Ok, true))
            && (HasResult(pc, OtherError) <==>
                  || event == Called(Fail) || event == Polled(Fail, true) || event == Polled(Fail, false)
                  || (event == Called(Intr) && !op.Transfer?)
                  || (event == Called(Again) && (op == Single || op == Transfer(false))))
            && (Waiting(pc, op) <==>
                  || event == Polled(Intr, true) || event == Polled(Intr, false)
                  || (event == Called(Again) && (op == Accept || op == Transfer(true))))
            && (event == Polled(Ok, false) || (event == Called(Intr) && op.Transfer?) ==> AtCall(pc, op))
            && (event == Nothing ==> Entering(pc, op) || AtCall(pc, op))
  {
    ReachableInv(c, s);
    RunStands(c, s, labels, t, i, op, Nothing);
  }

  /** An operation starts at the gate, as what it was called as. */
  lemma OperationStarts(c: Config, s: State, op: Op, i: int)
    requires 0 <= i < |s.threads| && s.threads[i].Idle?
    ensures Enabled(c, s, Step(i, StartOp(op)))
    ensures Next(c, s, Step(i, StartOp(op))) == s.(threads := s.threads[i := EnterLoad(op, s.sh.cell < 0)])
  {
  }

  // Close and Release.

  /** A call of Close or Release of this kind, or its end. */
  predicate Ending(pc: Pc, kind: Kind) {
    match pc
    case Swap(k) => k == kind
    case Idle(_, _) => true
    case _ => AtEnd(pc) && KindOf(pc) == kind
  }

  predicate AtEnd(pc: Pc) {
    pc.Shutdown? || pc.Signal? || pc.GateLoad? || pc.GateMake? || pc.GateCas? || pc.GateWait? || pc.CloseEvent? || pc.Dispose?
  }

  /** A Close stays a Close and a Release a Release until it returns. */
  lemma {:induction false} KindKept(c: Config, s: State, kind: Kind, labels: seq<Label>, t: State, i: int)
    requires 0 <= i < |s.threads| && Ending(s.threads[i], kind) && Run(c, s, labels, t) && NothingNew(labels, i)
    ensures i < |t.threads| && Ending(t.threads[i], kind)
    decreases |labels|
  {
    if labels != [] {
      assert NothingNew(labels[1..], i);
      KindKept(c, Next(c, s, labels[0]), kind, labels[1..], t, i);
    }
  }

  /** A call started as one kind wins, and ends, as that kind. */
  lemma {:induction false} StartedKind(c: Config, s: State, kind: Kind, labels: seq<Label>, t: State, i: int)
    requires Enabled(c, s, Step(i, StartEnd(kind)))
    requires Run(c, Next(c, s, Step(i, StartEnd(kind))), labels, t) && NothingNew(labels, i)
    ensures i < |t.threads| && Ending(t.threads[i], kind)
  {
    KindKept(c, Next(c, s, Step(i, StartEnd(kind))), kind, labels, t, i);
  }

  /** The error of the shutdown call is ignored: whatever it answers, the eventfd is written next. */
  lemma {:induction false} ShutdownAnswerIgnored(c: Config, t: State, i: int, answer: Answer)
    requires Reachable(c, t) && 0 <= i < |t.threads| && t.threads[i].Shutdown?
    ensures Enabled(c, t, Step(i, Returns(answer)))
    ensures Next(c, t, Step(i, Returns(answer))).threads[i] == Signal(CloseOp, c.fd)
  {
    ReachableInv(c, t);
    assert ThreadOk(c, t.sh, i, t.threads[i]);
  }

  /** The state after a step of thread `i`, or the same state when it has no such step. */
  function After(c: Config, s: State, i: int, ch: Choice): State {
    if Enabled(c, s, Step(i, ch)) then Next(c, s, Step(i, ch)) else s
  }

  /** The closers' calls to close: what the kernel frees leaves the table, and an error ends the call. */
  lemma {:induction false} ClosesDescriptors(c: Config, t: State, i: int, freed: bool)
    requires Reachable(c, t) && 0 <= i < |t.threads|
    requires t.threads[i].CloseEvent? || (t.threads[i].Dispose? && t.threads[i].kind == CloseOp)
    ensures var fd := if t.threads[i].CloseEvent? then c.efd else c.fd;
            && After(c, t, i, Go).sh.table == t.sh.table - {fd}
            && After(c, t, i, Fails(freed)).sh.table == (if freed then t.sh.table - {fd} else t.sh.table)
            && After(c, t, i, Fails(freed)).threads[i] == Idle(OtherError, false)
  {
    ReachableInv(c, t);
    assert ThreadOk(c, t.sh, i, t.threads[i]);
  }

  /** Gate.Close makes a channel to wait on only if it saw somebody inside. */
  lemma {:induction false} ChannelMade(c: Config, t: State, i: int)
    requires Reachable(c, t) && 0 <= i < |t.threads| && t.threads[i].GateMake?
    ensures After(c, t, i, Go).sh.done == if Users(t.threads[i].seen) == 0 then t.sh.done else OpenChan
  {
    ReachableInv(c, t);
    assert ThreadOk(c, t.sh, i, t.threads[i]);
  }

  // Progress of an operation on an open socket.

  lemma {:induction false} EnterMoves(c: Config, s: State, i: int, op: Op)
    requires Inv(c, s) && s.sh.phase == Live && 0 <= i < |s.threads|
    requires Entering(s.threads[i], op)
    ensures Enabled(c, s, Step(i, Go))
    ensures var t := Next(c, s, Step(i, Go));
            var pc, pc' := s.threads[i], t.threads[i];
            && OnlyMine(s, t, i)
            && if pc.LoadCell? then pc' == Calling(op, pc.late, c.fd)
               else Entering(pc', op) && pc'.late == pc.late && StepsLeft(t.sh.word, pc') < StepsLeft(s.sh.word, pc)
  {
    assert ThreadOk(c, s.sh, i, s.threads[i]);
    var others := InsideOthers(s, i);
  }

  /**
    enterFD succeeds on an open socket: wherever a thread is in it, four or fewer steps of its own bring it
    to its system call on the socket's descriptor, however many compare-and-swaps it has lost before.
   */
  lemma {:induction false} EnterSucceeds(c: Config, s: State, i: int, op: Op) returns (labels: seq<Label>, t: State)
    requires Inv(c, s) && s.sh.cell == c.fd && 0 <= i < |s.threads| && Entering(s.threads[i], op)
    ensures Run(c, s, labels, t) && NothingNew(labels, i) && OnlyMine(s, t, i)
    ensures t.threads[i] == Calling(op, s.threads[i].late, c.fd)
    ensures |labels| + 3 <= StepsLeft(s.sh.word, s.threads[i]) <= 7
    decreases StepsLeft(s.sh.word, s.threads[i])
  {
    var l := Step(i, Go);
    EnterMoves(c, s, i, op);
    NextInv(c, s, l);
    var ks: seq<Label> := [];
    t := Next(c, s, l);
    if !s.threads[i].LoadCell? {
      ks, t := EnterSucceeds(c, t, i, op);
    }
    labels := [l] + ks;
    RunCons(c, s, l, ks, t);
  }

  lemma {:induction false} LeaveMoves(c: Config, s: State, i: int)
    requires Inv(c, s) && 0 <= i < |s.threads| && Leaving(s.threads[i])
    ensures Enabled(c, s, Step(i, Go))
    ensures var t := Next(c, s, Step(i, Go));
            var pc, pc' := s.threads[i], t.threads[i];
            && HasResult(pc', pc.res)
            && (pc'.Idle? || (Leaving(pc') && StepsLeft(t.sh.word, pc') < StepsLeft(s.sh.word, pc)))
  {
    assert ThreadOk(c, s.sh, i, s.threads[i]);
    var others := InsideOthers(s, i);
  }

  /** A thread on its way out gets out by itself, in four steps or fewer, with the result it had. */
  lemma {:induction false} LeaveSucceeds(c: Config, s: State, i: int) returns (labels: seq<Label>, t: State)
    requires Inv(c, s) && 0 <= i < |s.threads| && Leaving(s.threads[i])
    ensures ReturnRun(c, s, labels, t, i, s.threads[i].res)
    ensures |labels| <= StepsLeft(s.sh.word, s.threads[i]) + 1 <= 4
    decreases StepsLeft(s.sh.word, s.threads[i])
  {
    var l := Step(i, Go);
    LeaveMoves(c, s, i);
    NextInv(c, s, l);
    var ks: seq<Label> := [];
    t := Next(c, s, l);
    if !t.threads[i].Idle? {
      ks, t := LeaveSucceeds(c, t, i);
    }
    labels := [l] + ks;
    RunCons(c, s, l, ks, t);
  }

  /** What the scheduler or the kernel may do next with a thread at `pc`. */
  predicate Offered(sh: Shared, pc: Pc, ch: Choice) {
    match pc
    case Idle(_, _) => ch.StartOp? || ch.StartEnd?
    case Calling(_, _, _) => ch.Returns?
    case Shutdown(_, _) => ch.Returns?
    case Polling(_, _, _, _) => ch.Returns? && ch.answer != Again
    case Signal(_, _) => ch.Go? || ch.Fails?
    case CloseEvent(_, _) => ch.Go? || ch.Fails?
    case Dispose(kind, _) => ch.Go? || (ch.Fails? && kind == CloseOp)
    case GateWait(_, _) => ch.Go? && sh.done == ClosedChan
    case _ => ch.Go?
  }

  /** No thread can be denied its next step, and nothing that the kernel can answer is left out. */
  lemma {:induction false} EveryAnswerPossible(c: Config, t: State, i: int, ch: Choice)
    requires Reachable(c, t) && 0 <= i < |t.threads|
    ensures Enabled(c, t, Step(i, ch)) <==> Offered(t.sh, t.threads[i], ch)
  {
    ReachableInv(c, t);
    assert ThreadOk(c, t.sh, i, t.threads[i]);
  }

  /** A thread that waits on an open socket polls the socket's descriptor next. */
  lemma {:induction false} WaitPolls(c: Config, t: State, i: int)
    requires Reachable(c, t) && t.sh.cell == c.fd && 0 <= i < |t.threads| && t.threads[i].WaitLoad?
    ensures Enabled(c, t, Step(i, Go))
    ensures Next(c, t, Step(i, Go)).threads[i] == Polling(t.threads[i].op, t.threads[i].late, c.fd, c.fd)
  {
    ReachableInv(c, t);
    assert ThreadOk(c, t.sh, i, t.threads[i]);
  }
}
