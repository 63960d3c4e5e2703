/**
  The 32-bit word of the gate: its most significant bit says that the gate is closed, the other 31
  bits count the users. Every operation is the one the gate performs on `userCount`.
 */
module GateWord {
  const GATE_CLOSED: int := 0x8000_0000
  const WORD_SIZE: int := 0x1_0000_0000

  type Word = w: int | 0 <= w < 0x1_0000_0000

  predicate Closed(w: Word) {
    w >= GATE_CLOSED
  }

  function Users(w: Word): nat {
    if Closed(w) then w - GATE_CLOSED else w
  }

  function Incr(w: Word): Word {
    (w + 1) % WORD_SIZE
  }

  function Decr(w: Word): Word {
    (w - 1) % WORD_SIZE
  }

  function SetClosed(w: Word): Word {
    if Closed(w) then w else w + GATE_CLOSED
  }
}

/** What an operation does after each answer of its system call. */
module Syscalls {
  /** `Transfer` is ReadVec or WriteVec, `Single` an operation that makes one system call. */
  datatype Op = Transfer(blocking: bool) | Accept | Single

  datatype Answer = Ok | Intr | Again | Fail

  datatype Move = Retry | Block | Quit

  /** Only the transfer loops retry on EINTR; Accept always waits on EAGAIN, transfers only when blocking. */
  function AfterSyscall(op: Op, answer: Answer): Move {
    match answer
    case Ok => Quit
    case Intr => if op.Transfer? then Retry else Quit
    case Again => if op.Accept? || (op.Transfer? && op.blocking) then Block else Quit
    case Fail => Quit
  }
}

/**
  `unet.Socket` and its gate as a step machine. Any number of threads run operations; each step is
  one atomic action of one thread (an atomic load, a compare-and-swap, a system call, a channel
  operation), so a run is any interleaving of them.
 */
module SocketMachine {
  import opened GateWord
  import opened Syscalls

  /** `fd` and `efd` are the descriptor numbers the socket was made with. */
  datatype Config = Config(fd: int, efd: int) {
    predicate Valid() {
      0 <= fd && 0 <= efd && fd != efd
    }
  }

  /** Who owns an open descriptor number: this socket, its eventfd, or some other part of the program. */
  datatype Entry = Sock | Event | Foreign

  datatype Chan = NoChan | OpenChan | ClosedChan

  datatype Res = Done | EBADF | OtherError

  datatype Kind = CloseOp | ReleaseOp

  /**
    How the winning call ended: it gave up because the eventfd could not be written or closed, it closed
    the descriptor, its close failed, or it handed the descriptor out.
   */
  datatype Fate = NotSignalled | EventNotClosed | SockClosed | CloseFailed | SockReleased

  /** How far the call that won the swap has come. */
  datatype Phase = Live | Shutting | Signalling | Closing | Draining | EventClosing | Disposing | Over(fate: Fate)

  /** How often each action of the shutdown has happened; `closeWins` counts the swaps won by Close. */
  datatype History = History(wins: nat, closeWins: nat, shutdowns: nat, evWrites: nat, gateCloses: nat, evCloses: nat,
                             sockCloses: nat, sockReturns: nat)

  /**
    `cell` is Socket.fd, `word` and `done` are the gate, `ev` is the eventfd's counter and `table` the
    kernel's descriptor table. The last four fields only record history; no step reads them.
   */
  datatype Shared = Shared(cell: int, word: Word, done: Chan, ev: nat, table: map<int, Entry>,
                           phase: Phase, winner: int, notifier: int, hist: History)

  /**
    Where a thread is. `late` records that the operation started after the swap to -1, `seen` is the
    word a compare-and-swap loop last loaded, `fd` the descriptor obtained from the cell (-1 if none).
   */
  datatype Pc =
    | Idle(res: Res, late: bool)
    | EnterLoad(op: Op, late: bool)
    | EnterCas(op: Op, late: bool, seen: Word)
    | LoadCell(op: Op, late: bool)
    | Calling(op: Op, late: bool, fd: int)
    | WaitLoad(op: Op, late: bool, fd: int)
    | Polling(op: Op, late: bool, fd: int, polled: int)
    | LeaveLoad(late: bool, fd: int, res: Res)
    | LeaveCas(late: bool, fd: int, res: Res, seen: Word)
    | Notify(late: bool, res: Res)
    | Swap(kind: Kind)
    | Shutdown(kind: Kind, fd: int)
    | Signal(kind: Kind, fd: int)
    | GateLoad(kind: Kind, fd: int)
    | GateMake(kind: Kind, fd: int, seen: Word)
    | GateCas(kind: Kind, fd: int, seen: Word)
    | GateWait(kind: Kind, fd: int)
    | CloseEvent(kind: Kind, fd: int)
    | Dispose(kind: Kind, fd: int)
    | Panicked

  /** What the scheduler and the kernel decide in a step. */
  datatype Choice = Go | StartOp(op: Op) | StartEnd(kind: Kind) | Returns(answer: Answer) | Fails(freed: bool)

  datatype Effect = Blocked | Effect(sh: Shared, pc: Pc)

  /** Gate.Enter and the load of the cell: enterFD. */
  function EnterStep(sh: Shared, pc: Pc, ch: Choice): Effect {
    match (pc, ch)
    case (Idle(_, _), StartOp(op)) =>
      Effect(sh, EnterLoad(op, sh.cell < 0))
    case (Idle(_, _), StartEnd(kind)) =>
      Effect(sh, Swap(kind))
    case (EnterLoad(op, late), Go) =>
      Effect(sh, if Closed(sh.word) then Idle(EBADF, late) else EnterCas(op, late, sh.word))
    case (EnterCas(op, late, seen), Go) =>
      if sh.word == seen then Effect(sh.(word := Incr(seen)), LoadCell(op, late))
      else Effect(sh, EnterLoad(op, late))
    case (LoadCell(op, late), Go) =>
      Effect(sh, if sh.cell < 0 then LeaveLoad(late, -1, EBADF) else Calling(op, late, sh.cell))
    case _ => Blocked
  }

  /** The system call on the borrowed descriptor, and Socket.wait. */
  function UseStep(sh: Shared, pc: Pc, ch: Choice): Effect {
    match (pc, ch)
    case (Calling(op, late, fd), Returns(answer)) =>
      Effect(sh, match AfterSyscall(op, answer)
                 case Retry => pc
                 case Block => WaitLoad(op, late, fd)
                 case Quit => LeaveLoad(late, fd, if answer == Ok then Done else OtherError))
    case (WaitLoad(op, late, fd), Go) =>
      Effect(sh, if sh.cell < 0 then LeaveLoad(late, fd, EBADF) else Polling(op, late, fd, sh.cell))
    case (Polling(op, late, fd, polled), Returns(Intr)) =>
      Effect(sh, WaitLoad(op, late, fd))
    case (Polling(op, late, fd, polled), Returns(Fail)) =>
      Effect(sh, LeaveLoad(late, fd, OtherError))
    case (Polling(op, late, fd, polled), Returns(Ok)) =>
      // A poll that returns reports the eventfd whenever it is signalled; otherwise the socket was ready.
      Effect(sh, if sh.ev > 0 then LeaveLoad(late, fd, EBADF) else Calling(op, late, fd))
    case _ => Blocked
  }

  /** Gate.Leave. */
  function LeaveStep(i: int, sh: Shared, pc: Pc, ch: Choice): Effect {
    match (pc, ch)
    case (LeaveLoad(late, fd, res), Go) =>
      Effect(sh, if Users(sh.word) == 0 then Panicked else LeaveCas(late, fd, res, sh.word))
    case (LeaveCas(late, fd, res, seen), Go) =>
      if sh.word != seen then Effect(sh, LeaveLoad(late, fd, res))
      else if seen == GATE_CLOSED + 1 then Effect(sh.(word := Decr(seen), notifier := i), Notify(late, res))
      else Effect(sh.(word := Decr(seen)), Idle(res, late))
    case (Notify(late, res), Go) =>
      if sh.done == OpenChan then Effect(sh.(done := ClosedChan, notifier := -1), Idle(res, late))
      else Effect(sh, Panicked)
    case _ => Blocked
  }

  /** Close and Release up to the end of Gate.Close. */
  function GateStep(i: int, sh: Shared, pc: Pc, ch: Choice): Effect {
    match (pc, ch)
    case (Swap(kind), Go) =>
      if sh.cell < 0 then Effect(sh.(cell := -1), Idle(EBADF, false))
      else
        var won := sh.(cell := -1, winner := i, hist := sh.hist.(wins := sh.hist.wins + 1));
        if kind == CloseOp then
          Effect(won.(phase := Shutting, hist := won.hist.(closeWins := won.hist.closeWins + 1)), Shutdown(kind, sh.cell))
        else Effect(won.(phase := Signalling), Signal(kind, sh.cell))
    case (Shutdown(kind, fd), Returns(_)) =>
      Effect(sh.(phase := Signalling, hist := sh.hist.(shutdowns := sh.hist.shutdowns + 1)), Signal(kind, fd))
    case (Signal(kind, fd), Go) =>
      Effect(sh.(ev := sh.ev + 1, phase := Closing, hist := sh.hist.(evWrites := sh.hist.evWrites + 1)), GateLoad(kind, fd))
    case (Signal(kind, fd), Fails(_)) =>
      Effect(sh.(phase := Over(NotSignalled)), Idle(OtherError, false))
    case (GateLoad(kind, fd), Go) =>
      Effect(sh, GateMake(kind, fd, sh.word))
    case (GateMake(kind, fd, seen), Go) =>
      Effect(if Users(seen) != 0 && sh.done == NoChan then sh.(done := OpenChan) else sh, GateCas(kind, fd, seen))
    case (GateCas(kind, fd, seen), Go) =>
      if sh.word != seen then Effect(sh, GateLoad(kind, fd))
      else
        var shut := sh.(word := SetClosed(seen), hist := sh.hist.(gateCloses := sh.hist.gateCloses + 1));
        if Users(seen) != 0 then Effect(shut.(phase := Draining), GateWait(kind, fd))
        else Effect(shut.(phase := EventClosing), CloseEvent(kind, fd))
    case (GateWait(kind, fd), Go) =>
      if sh.done == ClosedChan then Effect(sh.(phase := EventClosing), CloseEvent(kind, fd)) else Blocked
    case _ => Blocked
  }

  /** The end of Close and Release: the eventfd and the socket are disposed of. */
  function DisposeStep(c: Config, sh: Shared, pc: Pc, ch: Choice): Effect {
    match (pc, ch)
    case (CloseEvent(kind, fd), Go) =>
      Effect(sh.(table := sh.table - {c.efd}, phase := Disposing, hist := sh.hist.(evCloses := sh.hist.evCloses + 1)),
             Dispose(kind, fd))
    case (CloseEvent(kind, fd), Fails(freed)) =>
      Effect(sh.(table := if freed then sh.table - {c.efd} else sh.table, phase := Over(EventNotClosed),
                 hist := sh.hist.(evCloses := sh.hist.evCloses + 1)),
             Idle(OtherError, false))
    case (Dispose(CloseOp, fd), Go) =>
      Effect(sh.(table := sh.table - {fd}, phase := Over(SockClosed), hist := sh.hist.(sockCloses := sh.hist.sockCloses + 1)),
             Idle(Done, false))
    case (Dispose(CloseOp, fd), Fails(freed)) =>
      Effect(sh.(table := if freed then sh.table - {fd} else sh.table, phase := Over(CloseFailed),
                 hist := sh.hist.(sockCloses := sh.hist.sockCloses + 1)),
             Idle(OtherError, false))
    case (Dispose(ReleaseOp, fd), Go) =>
      Effect(sh.(table := sh.table[fd := Foreign], phase := Over(SockReleased),
                 hist := sh.hist.(sockReturns := sh.hist.sockReturns + 1)),
             Idle(Done, false))
    case _ => Blocked
  }

  /** One atomic action of thread `i`; `Blocked` when that action is not possible. */
  function Local(c: Config, i: int, sh: Shared, pc: Pc, ch: Choice): Effect {
    match pc
    case Idle(_, _) => EnterStep(sh, pc, ch)
    case EnterLoad(_, _) => EnterStep(sh, pc, ch)
    case EnterCas(_, _, _) => EnterStep(sh, pc, ch)
    case LoadCell(_, _) => EnterStep(sh, pc, ch)
    case Calling(_, _, _) => UseStep(sh, pc, ch)
    case WaitLoad(_, _, _) => UseStep(sh, pc, ch)
    case Polling(_, _, _, _) => UseStep(sh, pc, ch)
    case LeaveLoad(_, _, _) => LeaveStep(i, sh, pc, ch)
    case LeaveCas(_, _, _, _) => LeaveStep(i, sh, pc, ch)
    case Notify(_, _) => LeaveStep(i, sh, pc, ch)
    case CloseEvent(_, _) => DisposeStep(c, sh, pc, ch)
    case Dispose(_, _) => DisposeStep(c, sh, pc, ch)
    case Panicked => Blocked
    case _ => GateStep(i, sh, pc, ch)
  }

  datatype State = State(sh: Shared, threads: seq<Pc>)

  /** A step of one thread, or the rest of the program opening or closing a descriptor of its own. */
  datatype Label = Step(i: int, ch: Choice) | ForeignOpen(fd: int) | ForeignClose(fd: int)

  predicate Enabled(c: Config, s: State, l: Label) {
    match l
    case Step(i, ch) => 0 <= i < |s.threads| && Local(c, i, s.sh, s.threads[i], ch).Effect?
    case ForeignOpen(fd) => fd !in s.sh.table
    case ForeignClose(fd) => fd in s.sh.table && s.sh.table[fd] == Foreign
  }

  function Next(c: Config, s: State, l: Label): State
    requires Enabled(c, s, l)
  {
    match l
    case Step(i, ch) =>
      var e := Local(c, i, s.sh, s.threads[i], ch);
      State(e.sh, s.threads[i := e.pc])
    case ForeignOpen(fd) => s.(sh := s.sh.(table := s.sh.table[fd := Foreign]))
    case ForeignClose(fd) => s.(sh := s.sh.(table := s.sh.table - {fd}))
  }

  /** A socket just made, with any number of threads, all idle, and any descriptors open elsewhere in the program. */
  predicate Init(c: Config, s: State) {
    && c.Valid()
    && (forall i :: 0 <= i < |s.threads| ==> s.threads[i] == Idle(Done, false))
    && s.sh.cell == c.fd && s.sh.word == 0 && s.sh.done == NoChan && s.sh.ev == 0
    && c.fd in s.sh.table && s.sh.table[c.fd] == Sock
    && c.efd in s.sh.table && s.sh.table[c.efd] == Event
    && s.sh.phase == Live && s.sh.winner == -1 && s.sh.notifier == -1
    && s.sh.hist == History(0, 0, 0, 0, 0, 0, 0, 0)
  }

  /** The labels are possible one after the other, and lead from `s` to `t`. */
  ghost predicate Run(c: Config, s: State, labels: seq<Label>, t: State)
    decreases |labels|
  {
    if labels == [] then s == t
    else Enabled(c, s, labels[0]) && Run(c, Next(c, s, labels[0]), labels[1..], t)
  }
}

/** Putting runs together. */
module SocketRuns {
  import opened SocketMachine

  lemma {:induction false} RunConcat(c: Config, s: State, ls: seq<Label>, m: State, ks: seq<Label>, t: State)
    requires Run(c, s, ls, m) && Run(c, m, ks, t)
    ensures Run(c, s, ls + ks, t)
    decreases |ls|
  {
    if ls == [] {
      assert ls + ks == ks;
    } else {
      assert (ls + ks)[1..] == ls[1..] + ks;
      RunConcat(c, Next(c, s, ls[0]), ls[1..], m, ks, t);
    }
  }

  lemma RunOne(c: Config, s: State, l: Label)
    requires Enabled(c, s, l)
    ensures Run(c, s, [l], Next(c, s, l))
  {
    assert [l][1..] == [];
    assert Run(c, Next(c, s, l), [], Next(c, s, l));
  }

  lemma RunCons(c: Config, s: State, l: Label, ks: seq<Label>, t: State)
    requires Enabled(c, s, l) && Run(c, Next(c, s, l), ks, t)
    ensures Run(c, s, [l] + ks, t)
  {
    assert ([l] + ks)[1..] == ks;
  }
}
