/** Sums over the threads of a state. */
module ThreadSums {
  import opened SocketMachine

  function Sum(weight: Pc -> nat, threads: seq<Pc>): nat {
    if threads == [] then 0 else weight(threads[0]) + Sum(weight, threads[1..])
  }

  lemma {:induction false} SumUpdate(weight: Pc -> nat, threads: seq<Pc>, i: nat, pc: Pc)
    requires i < |threads|
    ensures Sum(weight, threads[i := pc]) == Sum(weight, threads) - weight(threads[i]) + weight(pc)
  {
    if i == 0 {
      assert threads[i := pc][1..] == threads[1..];
    } else {
      assert threads[i := pc][1..] == threads[1..][i - 1 := pc];
      SumUpdate(weight, threads[1..], i - 1, pc);
    }
  }

  lemma {:induction false} SumBounds(weight: Pc -> nat, threads: seq<Pc>, bound: nat)
    requires forall i :: 0 <= i < |threads| ==> weight(threads[i]) <= bound
    ensures Sum(weight, threads) <= bound * |threads|
  {
    if threads != [] {
      SumBounds(weight, threads[1..], bound);
      assert bound * |threads| == bound + bound * |threads[1..]|;
    }
  }

  /** A positive sum has a positive term. */
  lemma {:induction false} SumPositive(weight: Pc -> nat, threads: seq<Pc>) returns (i: nat)
    requires Sum(weight, threads) > 0
    ensures i < |threads| && weight(threads[i]) > 0
  {
    if weight(threads[0]) > 0 {
      i := 0;
    } else {
      i := SumPositive(weight, threads[1..]);
      i := i + 1;
    }
  }

  lemma {:induction false} SumZero(weight: Pc -> nat, threads: seq<Pc>)
    requires forall i :: 0 <= i < |threads| ==> weight(threads[i]) == 0
    ensures Sum(weight, threads) == 0
  {
    SumBounds(weight, threads, 0);
  }
}

/** The inductive invariant of the socket machine. */
module SocketInvariant {
  import opened GateWord
  import opened Syscalls
  import opened SocketMachine
  import opened ThreadSums

  /** Between a successful Enter and the successful compare-and-swap of its Leave. */
  predicate Inside(pc: Pc) {
    pc.LoadCell? || pc.Calling? || pc.WaitLoad? || pc.Polling? || pc.LeaveLoad? || pc.LeaveCas?
  }

  function InsideOne(pc: Pc): nat {
    if Inside(pc) then 1 else 0
  }

  function InsideCount(s: State): nat {
    Sum(InsideOne, s.threads)
  }

  predicate Signalled(p: Phase) {
    p !in {Live, Shutting, Signalling, Over(NotSignalled)}
  }

  predicate GateShut(p: Phase) {
    Signalled(p) && p != Closing
  }

  predicate Drained(p: Phase) {
    GateShut(p) && p != Draining
  }

  /** The eventfd has not been passed to close yet. */
  predicate EventHeld(p: Phase) {
    !Drained(p) || p == EventClosing
  }

  /** The socket descriptor has neither been passed to close nor handed out. */
  predicate SockHeld(p: Phase) {
    p !in {Over(SockClosed), Over(CloseFailed), Over(SockReleased)}
  }

  function Bit(b: bool): nat {
    if b then 1 else 0
  }

  /** What was done so far; `byClose` says that the winner is a Close, which alone shuts the connection down. */
  function ExpectedHistory(p: Phase, byClose: bool): History {
    History(Bit(p != Live), Bit(byClose), Bit(byClose && p != Shutting), Bit(Signalled(p)), Bit(GateShut(p)),
            Bit(!EventHeld(p)), Bit(p in {Over(SockClosed), Over(CloseFailed)}), Bit(p == Over(SockReleased)))
  }

  predicate ByClose(sh: Shared) {
    sh.hist.closeWins > 0
  }

  predicate HistoryOk(sh: Shared) {
    && sh.hist == ExpectedHistory(sh.phase, ByClose(sh))
    && (sh.phase in {Live, Over(SockReleased)} ==> !ByClose(sh))
    && (sh.phase in {Shutting, Over(SockClosed), Over(CloseFailed)} ==> ByClose(sh))
  }

  /** The channel of the gate: who will close it, or that it is closed. */
  predicate ChannelOk(sh: Shared, inside: nat) {
    if sh.phase == Draining then
      if inside > 0 then sh.done == OpenChan && sh.notifier == -1
      else if sh.notifier == -1 then sh.done == ClosedChan
      else sh.done == OpenChan
    else
      sh.notifier == -1 && (!GateShut(sh.phase) ==> sh.done != ClosedChan)
  }

  predicate TableOk(c: Config, sh: Shared) {
    && (EventHeld(sh.phase) ==> c.efd in sh.table && sh.table[c.efd] == Event)
    && (SockHeld(sh.phase) ==> c.fd in sh.table && sh.table[c.fd] == Sock)
    && (sh.phase == Over(SockClosed) || sh.phase == Over(SockReleased) ==>
          !(c.fd in sh.table && sh.table[c.fd] == Sock) && !(c.efd in sh.table && sh.table[c.efd] == Event))
    && (sh.phase == Disposing ==> !(c.efd in sh.table && sh.table[c.efd] == Event))
  }

  predicate SharedOk(c: Config, sh: Shared, inside: nat) {
    && inside < GATE_CLOSED
    && sh.word == inside + (if GateShut(sh.phase) then GATE_CLOSED else 0)
    && sh.cell == (if sh.phase == Live then c.fd else -1)
    && sh.ev == Bit(Signalled(sh.phase))
    && (Drained(sh.phase) ==> inside == 0)
    && TableOk(c, sh)
    && ChannelOk(sh, inside)
    && HistoryOk(sh)
  }

  predicate LateOk(sh: Shared, late: bool, res: Res) {
    late ==> sh.phase != Live && res == EBADF
  }

  /** EBADF is never the result of an operation while the socket is open. */
  predicate ResOk(sh: Shared, res: Res) {
    res == EBADF ==> sh.phase != Live
  }

  predicate WinnerAt(c: Config, sh: Shared, i: int, kind: Kind, fd: int, p: Phase) {
    sh.winner == i && sh.phase == p && fd == c.fd && (kind == CloseOp <==> ByClose(sh))
  }

  predicate ThreadOk(c: Config, sh: Shared, i: int, pc: Pc) {
    match pc
    case Idle(res, late) => LateOk(sh, late, res) && ResOk(sh, res)
    case EnterLoad(_, late) => LateOk(sh, late, EBADF)
    case EnterCas(_, late, seen) => LateOk(sh, late, EBADF) && !Closed(seen)
    case LoadCell(_, late) => LateOk(sh, late, EBADF)
    case Calling(_, late, fd) => !late && fd == c.fd
    case WaitLoad(_, late, fd) => !late && fd == c.fd
    case Polling(_, late, fd, polled) => !late && fd == c.fd && polled == c.fd
    case LeaveLoad(late, fd, res) =>
      LateOk(sh, late, res) && ResOk(sh, res) && (fd == -1 || (fd == c.fd && !late))
    case LeaveCas(late, fd, res, seen) =>
      LateOk(sh, late, res) && ResOk(sh, res) && (fd == -1 || (fd == c.fd && !late)) && Users(seen) != 0
    case Notify(late, res) => LateOk(sh, late, res) && ResOk(sh, res) && sh.notifier == i
    case Swap(_) => true
    case Shutdown(kind, fd) => WinnerAt(c, sh, i, kind, fd, Shutting)
    case Signal(kind, fd) => WinnerAt(c, sh, i, kind, fd, Signalling)
    case GateLoad(kind, fd) => WinnerAt(c, sh, i, kind, fd, Closing)
    case GateMake(kind, fd, seen) => WinnerAt(c, sh, i, kind, fd, Closing) && !Closed(seen)
    case GateCas(kind, fd, seen) =>
      WinnerAt(c, sh, i, kind, fd, Closing) && !Closed(seen) && (Users(seen) != 0 ==> sh.done == OpenChan)
    case GateWait(kind, fd) => WinnerAt(c, sh, i, kind, fd, Draining)
    case CloseEvent(kind, fd) => WinnerAt(c, sh, i, kind, fd, EventClosing)
    case Dispose(kind, fd) => WinnerAt(c, sh, i, kind, fd, Disposing)
    case Panicked => false
  }

  ghost predicate Inv(c: Config, s: State) {
    && c.Valid()
    && |s.threads| < GATE_CLOSED
    && SharedOk(c, s.sh, InsideCount(s))
    && forall i :: 0 <= i < |s.threads| ==> ThreadOk(c, s.sh, i, s.threads[i])
  }

  // What a thread may rely on while another thread, `i`, makes a step.

  predicate Undisturbed(i: int, sh: Shared, sh': Shared) {
    && (sh.phase != Live ==> sh'.phase != Live)
    && (sh'.notifier == sh.notifier || sh.notifier == i || sh.notifier == -1)
    && (sh.phase != Live && sh.winner != i ==>
          sh'.phase == sh.phase && sh'.winner == sh.winner && ByClose(sh') == ByClose(sh) &&
          (sh.phase == Closing && sh.done == OpenChan ==> sh'.done == OpenChan))
  }

  lemma UndisturbedKeeps(c: Config, i: int, sh: Shared, sh': Shared, j: int, pc: Pc)
    requires ThreadOk(c, sh, j, pc) && Undisturbed(i, sh, sh') && i != j && j >= 0
    ensures ThreadOk(c, sh', j, pc)
  {
  }

  /** What one step of thread `i` keeps; `inside` counts the other threads inside the gate. */
  predicate StepKeeps(c: Config, i: int, sh: Shared, pc: Pc, others: nat, e: Effect) {
    e.Effect? ==>
      && SharedOk(c, e.sh, others + InsideOne(e.pc))
      && ThreadOk(c, e.sh, i, e.pc)
      && Undisturbed(i, sh, e.sh)
  }

  lemma EnterKeeps(c: Config, i: int, sh: Shared, pc: Pc, others: nat, ch: Choice)
    requires c.Valid() && i >= 0 && others + 1 < GATE_CLOSED
    requires SharedOk(c, sh, others + InsideOne(pc)) && ThreadOk(c, sh, i, pc)
    ensures StepKeeps(c, i, sh, pc, others, EnterStep(sh, pc, ch))
  {
  }

  lemma UseKeeps(c: Config, i: int, sh: Shared, pc: Pc, others: nat, ch: Choice)
    requires c.Valid() && i >= 0 && others + 1 < GATE_CLOSED
    requires SharedOk(c, sh, others + InsideOne(pc)) && ThreadOk(c, sh, i, pc)
    ensures StepKeeps(c, i, sh, pc, others, UseStep(sh, pc, ch))
  {
  }

  lemma LeaveSwapKeeps(c: Config, i: int, sh: Shared, pc: Pc, others: nat, ch: Choice)
    requires c.Valid() && i >= 0 && others + 1 < GATE_CLOSED && pc.LeaveCas?
    requires SharedOk(c, sh, others + InsideOne(pc)) && ThreadOk(c, sh, i, pc)
    ensures StepKeeps(c, i, sh, pc, others, LeaveStep(i, sh, pc, ch))
  {
  }

  lemma LeaveKeeps(c: Config, i: int, sh: Shared, pc: Pc, others: nat, ch: Choice)
    requires c.Valid() && i >= 0 && others + 1 < GATE_CLOSED
    requires SharedOk(c, sh, others + InsideOne(pc)) && ThreadOk(c, sh, i, pc)
    ensures StepKeeps(c, i, sh, pc, others, LeaveStep(i, sh, pc, ch))
  {
    if pc.LeaveCas? {
      LeaveSwapKeeps(c, i, sh, pc, others, ch);
    }
  }

  lemma GateLoopKeeps(c: Config, i: int, sh: Shared, pc: Pc, others: nat, ch: Choice)
    requires c.Valid() && i >= 0 && others + 1 < GATE_CLOSED
    requires SharedOk(c, sh, others + InsideOne(pc)) && ThreadOk(c, sh, i, pc)
    requires pc.GateLoad? || pc.GateMake? || pc.GateCas? || pc.GateWait?
    ensures StepKeeps(c, i, sh, pc, others, GateStep(i, sh, pc, ch))
  {
  }

  lemma GateKeeps(c: Config, i: int, sh: Shared, pc: Pc, others: nat, ch: Choice)
    requires c.Valid() && i >= 0 && others + 1 < GATE_CLOSED
    requires SharedOk(c, sh, others + InsideOne(pc)) && ThreadOk(c, sh, i, pc)
    ensures StepKeeps(c, i, sh, pc, others, GateStep(i, sh, pc, ch))
  {
    if pc.GateLoad? || pc.GateMake? || pc.GateCas? || pc.GateWait? {
      GateLoopKeeps(c, i, sh, pc, others, ch);
    }
  }

  lemma DisposeKeeps(c: Config, i: int, sh: Shared, pc: Pc, others: nat, ch: Choice)
    requires c.Valid() && i >= 0 && others + 1 < GATE_CLOSED
    requires SharedOk(c, sh, others + InsideOne(pc)) && ThreadOk(c, sh, i, pc)
    ensures StepKeeps(c, i, sh, pc, others, DisposeStep(c, sh, pc, ch))
  {
  }

  lemma {:induction false} LocalKeeps(c: Config, i: int, sh: Shared, pc: Pc, others: nat, ch: Choice)
    requires c.Valid() && i >= 0 && others + 1 < GATE_CLOSED
    requires SharedOk(c, sh, others + InsideOne(pc)) && ThreadOk(c, sh, i, pc)
    ensures StepKeeps(c, i, sh, pc, others, Local(c, i, sh, pc, ch))
  {
    EnterKeeps(c, i, sh, pc, others, ch);
    UseKeeps(c, i, sh, pc, others, ch);
    LeaveKeeps(c, i, sh, pc, others, ch);
    GateKeeps(c, i, sh, pc, others, ch);
    DisposeKeeps(c, i, sh, pc, others, ch);
  }

  lemma InitInv(c: Config, s: State)
    requires Init(c, s) && |s.threads| < GATE_CLOSED
    ensures Inv(c, s)
  {
    SumZero(InsideOne, s.threads);
  }

  lemma InsideOthers(s: State, i: int) returns (others: nat)
    requires 0 <= i < |s.threads|
    ensures InsideCount(s) == others + InsideOne(s.threads[i]) && others < |s.threads|
    ensures forall pc :: Sum(InsideOne, s.threads[i := pc]) == others + InsideOne(pc)
  {
    var idle := s.threads[i := Swap(CloseOp)];
    SumUpdate(InsideOne, s.threads, i, Swap(CloseOp));
    others := Sum(InsideOne, idle);
    forall pc ensures Sum(InsideOne, s.threads[i := pc]) == others + InsideOne(pc) {
      SumUpdate(InsideOne, s.threads, i, pc);
    }
    SumUpdate(InsideOne, s.threads, i, LoadCell(Single, false));
    SumBounds(InsideOne, s.threads[i := LoadCell(Single, false)], 1);
  }

  lemma NextInv(c: Config, s: State, l: Label)
    requires Inv(c, s) && Enabled(c, s, l)
    ensures Inv(c, Next(c, s, l))
  {
    if l.Step? {
      var pc := s.threads[l.i];
      var e := Local(c, l.i, s.sh, pc, l.ch);
      var others := InsideOthers(s, l.i);
      LocalKeeps(c, l.i, s.sh, pc, others, l.ch);
      var t := Next(c, s, l);
      forall j | 0 <= j < |t.threads| ensures ThreadOk(c, t.sh, j, t.threads[j]) {
        if j != l.i {
          UndisturbedKeeps(c, l.i, s.sh, e.sh, j, s.threads[j]);
        }
      }
    } else {
      ForeignInv(c, s, l);
    }
  }

  lemma ForeignInv(c: Config, s: State, l: Label)
    requires Inv(c, s) && Enabled(c, s, l) && !l.Step?
    ensures Inv(c, Next(c, s, l))
  {
    var t := Next(c, s, l);
    assert TableOk(c, t.sh);
    forall j | 0 <= j < |t.threads| ensures ThreadOk(c, t.sh, j, t.threads[j]) {
      assert ThreadOk(c, s.sh, j, s.threads[j]);
    }
  }

  /** The invariant holds in every reachable state. */
  lemma {:induction false} RunInv(c: Config, s: State, labels: seq<Label>, t: State)
    requires Inv(c, s) && Run(c, s, labels, t)
    ensures Inv(c, t)
    decreases |labels|
  {
    if labels != [] {
      NextInv(c, s, labels[0]);
      RunInv(c, Next(c, s, labels[0]), labels[1..], t);
    }
  }
}
