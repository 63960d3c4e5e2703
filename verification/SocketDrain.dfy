/** Close and Release get out of the gate: nobody inside can block them, and the threads inside soon leave. */
module SocketDrain {
  import opened GateWord
  import opened Syscalls
  import opened SocketMachine
  import opened ThreadSums
  import opened SocketInvariant
  import opened SocketTheorems

  // Who moves the shutdown on.

  predicate AtPhase(pc: Pc, p: Phase) {
    match p
    case Shutting => pc.Shutdown?
    case Signalling => pc.Signal?
    case Closing => pc.GateLoad? || pc.GateMake? || pc.GateCas?
    case Draining => pc.GateWait?
    case EventClosing => pc.CloseEvent?
    case Disposing => pc.Dispose?
    case _ => true
  }

  predicate Ongoing(p: Phase) {
    p != Live && !p.Over?
  }

  /** The winner and the thread that has to close the gate's channel are where the shared state says. */
  predicate Actors(s: State) {
    && (Ongoing(s.sh.phase) ==> 0 <= s.sh.winner < |s.threads| && AtPhase(s.threads[s.sh.winner], s.sh.phase))
    && (s.sh.notifier != -1 ==> 0 <= s.sh.notifier < |s.threads| && s.threads[s.sh.notifier].Notify?)
  }

  predicate ActorLocal(i: int, sh: Shared, pc: Pc) {
    && (Ongoing(sh.phase) && sh.winner == i ==> AtPhase(pc, sh.phase))
    && (sh.notifier == i ==> pc.Notify?)
  }

  lemma ActorStep(c: Config, i: int, sh: Shared, pc: Pc, ch: Choice)
    requires i >= 0 && ThreadOk(c, sh, i, pc) && ActorLocal(i, sh, pc) && Local(c, i, sh, pc, ch).Effect?
    requires sh.cell == (if sh.phase == Live then c.fd else -1) && (pc.Notify? ==> sh.done == OpenChan)
    ensures var e := Local(c, i, sh, pc, ch);
            && ActorLocal(i, e.sh, e.pc)
            && (e.sh.notifier == sh.notifier || e.sh.notifier == i || e.sh.notifier == -1)
            && (sh.winner == e.sh.winner || e.sh.winner == i)
            && (sh.winner == i || sh.phase == e.sh.phase || e.sh.winner == i)
  {
  }

  lemma {:induction false} ActorsNext(c: Config, s: State, l: Label)
    requires Inv(c, s) && Actors(s) && Enabled(c, s, l)
    ensures Actors(Next(c, s, l))
  {
    if l.Step? {
      assert ThreadOk(c, s.sh, l.i, s.threads[l.i]);
      ActorStep(c, l.i, s.sh, s.threads[l.i], l.ch);
      var others := InsideOthers(s, l.i);
      LocalKeeps(c, l.i, s.sh, s.threads[l.i], others, l.ch);
    }
  }

  lemma {:induction false} ActorsRun(c: Config, s: State, labels: seq<Label>, t: State)
    requires Inv(c, s) && Actors(s) && Run(c, s, labels, t)
    ensures Actors(t)
    decreases |labels|
  {
    if labels != [] {
      ActorsNext(c, s, labels[0]);
      NextInv(c, s, labels[0]);
      ActorsRun(c, Next(c, s, labels[0]), labels[1..], t);
    }
  }

  lemma ReachableActors(c: Config, t: State)
    requires Reachable(c, t)
    ensures Inv(c, t) && Actors(t)
  {
    var s, labels :| Init(c, s) && |s.threads| < GATE_CLOSED && Run(c, s, labels, t);
    InitInv(c, s);
    RunInv(c, s, labels, t);
    ActorsRun(c, s, labels, t);
  }

  /**
    A step that needs nothing from the peer. System calls on the socket are non-blocking and always
    return; only a poll that nothing has signalled waits for the peer.
   */
  predicate Unaided(s: State, l: Label) {
    l.Step? && 0 <= l.i < |s.threads| && (s.threads[l.i].Polling? ==> s.sh.ev > 0)
  }

  predicate Interrupt(s: State, l: Label) {
    l.Step? && 0 <= l.i < |s.threads| && l.ch == Returns(Intr) && (s.threads[l.i].Calling? || s.threads[l.i].Polling?)
  }

  predicate InsideMove(s: State, l: Label) {
    l.Step? && 0 <= l.i < |s.threads| && Inside(s.threads[l.i]) && !Interrupt(s, l)
  }

  /** The move a thread inside the gate can make on its own once the eventfd is signalled. */
  function OwnMove(i: int, pc: Pc): Label {
    Step(i, if pc.Calling? || pc.Polling? then Returns(Ok) else Go)
  }

  predicate OnItsWayOut(pc: Pc) {
    pc.LeaveLoad? || pc.LeaveCas? || pc.Notify? || pc.Idle?
  }

  /**
    After the eventfd is written, every thread inside the gate can move without the peer, and that move
    takes it out of whatever it was doing; a thread that was waiting returns EBADF.
   */
  lemma InsideNeverStuck(c: Config, t: State, i: int)
    requires Reachable(c, t) && Signalled(t.sh.phase) && 0 <= i < |t.threads| && Inside(t.threads[i])
    ensures var l := OwnMove(i, t.threads[i]);
            && Enabled(c, t, l) && Unaided(t, l) && InsideMove(t, l)
            && OnItsWayOut(Next(c, t, l).threads[i])
            && (t.threads[i].WaitLoad? || t.threads[i].Polling? ==> Next(c, t, l).threads[i].res == EBADF)
  {
    ReachableInv(c, t);
    assert ThreadOk(c, t.sh, i, t.threads[i]);
    var others := InsideOthers(t, i);
  }

  /** A thread waiting for the peer, in wait or in its poll. */
  predicate Waits(pc: Pc) {
    pc.WaitLoad? || pc.Polling?
  }

  /**
    The same for every move, not only a chosen one: whatever a waiting thread does next, unless its poll
    is interrupted, it leaves with EBADF, except that a poll that fails makes wait return that error.
   */
  lemma {:induction false} WaitersLeave(c: Config, t: State, l: Label)
    requires Reachable(c, t) && Signalled(t.sh.phase) && Enabled(c, t, l)
    requires l.Step? && Waits(t.threads[l.i]) && !Interrupt(t, l)
    ensures Next(c, t, l).threads[l.i]
            == LeaveLoad(false, c.fd, if t.threads[l.i].Polling? && l.ch == Returns(Fail) then OtherError else EBADF)
  {
    ReachableInv(c, t);
    assert ThreadOk(c, t.sh, l.i, t.threads[l.i]);
  }

  /** The next step of the thread that won the swap, all its calls succeeding. */
  function WinnerMove(s: State): Label {
    Step(s.sh.winner, if s.sh.phase == Shutting then Returns(Ok) else Go)
  }

  /**
    No reachable state has the shutdown stuck: while it is under way some thread can move without the
    peer. In Gate.Close it is the closer itself, except when it waits for the channel; then it is any
    thread inside, or the last one to leave that has yet to close the channel.
   */
  lemma ShutdownNeverStuck(c: Config, t: State) returns (l: Label)
    requires Reachable(c, t) && Ongoing(t.sh.phase)
    ensures Enabled(c, t, l) && Unaided(t, l) && !Interrupt(t, l)
    ensures t.sh.phase != Draining ==> l == WinnerMove(t)
    ensures t.sh.phase == Draining && Users(t.sh.word) > 0 ==> InsideMove(t, l)
    ensures t.sh.phase == Draining && Users(t.sh.word) == 0 ==>
              if t.sh.notifier != -1 then l == Step(t.sh.notifier, Go) && t.threads[l.i].Notify?
              else l == WinnerMove(t) && t.sh.done == ClosedChan
  {
    ReachableActors(c, t);
    if t.sh.phase == Draining && InsideCount(t) > 0 {
      var i := SumPositive(InsideOne, t.threads);
      InsideNeverStuck(c, t, i);
      l := OwnMove(i, t.threads[i]);
    } else if t.sh.phase == Draining && t.sh.notifier != -1 {
      l := Step(t.sh.notifier, Go);
    } else {
      l := WinnerMove(t);
    }
  }

  // A bound on what the threads inside can still do.

  /** Moves a thread inside has left, given the gate's word, if nobody else leaves. */
  function Weight(word: Word, pc: Pc): nat {
    match pc
    case LoadCell(_, _) => 4
    case Calling(_, _, _) => 5
    case WaitLoad(_, _, _) => 4
    case Polling(_, _, _, _) => 4
    case LeaveLoad(_, _, _) => 2
    case LeaveCas(_, _, _, seen) => if seen == word then 1 else 3
    case _ => 0
  }

  function Weights(word: Word): Pc -> nat {
    pc => Weight(word, pc)
  }

  function Potential(s: State): nat {
    Users(s.sh.word) * Users(s.sh.word) + Sum(Weights(s.sh.word), s.threads)
  }

  /** When the word changes, a thread inside may have to repeat its compare-and-swap. */
  lemma {:induction false} Restale(w: Word, w': Word, threads: seq<Pc>)
    ensures Sum(Weights(w'), threads) <= Sum(Weights(w), threads) + 2 * Sum(InsideOne, threads)
  {
    if threads != [] {
      Restale(w, w', threads[1..]);
    }
  }

  /** A step that leaves the word alone: the weight of its thread never grows, and shrinks on an inside move. */
  lemma LocalWeight(c: Config, i: int, sh: Shared, pc: Pc, ch: Choice)
    requires ThreadOk(c, sh, i, pc) && GateShut(sh.phase) && Closed(sh.word) && sh.cell == -1 && sh.ev > 0
    requires Local(c, i, sh, pc, ch).Effect?
    ensures var e := Local(c, i, sh, pc, ch);
            if pc.LeaveCas? && pc.seen == sh.word then e.sh.word == Decr(sh.word) && !Inside(e.pc)
            else
              && e.sh.word == sh.word
              && Weight(sh.word, e.pc) + Bit(Inside(pc) && ch != Returns(Intr)) <= Weight(sh.word, pc)
  {
  }

  lemma DrainStep(c: Config, s: State, l: Label)
    requires Inv(c, s) && GateShut(s.sh.phase) && Enabled(c, s, l)
    ensures GateShut(Next(c, s, l).sh.phase)
    ensures Potential(Next(c, s, l)) + Bit(InsideMove(s, l)) <= Potential(s)
  {
    NextInv(c, s, l);
    if l.Step? {
      var pc := s.threads[l.i];
      var t := Next(c, s, l);
      assert ThreadOk(c, s.sh, l.i, pc);
      LocalWeight(c, l.i, s.sh, pc, l.ch);
      SumUpdate(Weights(s.sh.word), s.threads, l.i, t.threads[l.i]);
      if pc.LeaveCas? && pc.seen == s.sh.word {
        LeaveLowersPotential(c, s, l);
      }
    }
  }

  lemma LeaveLowersPotential(c: Config, s: State, l: Label)
    requires Inv(c, s) && GateShut(s.sh.phase) && Enabled(c, s, l) && l.Step?
    requires s.threads[l.i].LeaveCas? && s.threads[l.i].seen == s.sh.word
    ensures Potential(Next(c, s, l)) + 1 <= Potential(s)
  {
    var w, pc := s.sh.word, s.threads[l.i];
    var e := Local(c, l.i, s.sh, pc, l.ch);
    assert e.sh.word == Decr(w) && Weight(w, pc) == 1 && !Inside(e.pc) && Weight(w, e.pc) == 0;
    var others := InsideOthers(s, l.i);
    SumUpdate(InsideOne, s.threads, l.i, e.pc);
    LeaveArithmetic(w, s.threads, l.i, e.pc, others);
  }

  lemma LeaveArithmetic(w: Word, threads: seq<Pc>, i: int, pc: Pc, others: nat)
    requires 0 <= i < |threads| && Users(w) == others + 1 && Closed(w)
    requires Weight(w, threads[i]) == 1 && Weight(w, pc) == 0 && Sum(InsideOne, threads[i := pc]) == others
    ensures Users(Decr(w)) == others
    ensures others * others + Sum(Weights(Decr(w)), threads[i := pc]) + 1
            <= (others + 1) * (others + 1) + Sum(Weights(w), threads)
  {
    SumUpdate(Weights(w), threads, i, pc);
    Restale(w, Decr(w), threads[i := pc]);
    Square(others);
  }

  lemma Square(n: int)
    ensures (n + 1) * (n + 1) == n * n + 2 * n + 1
  {
  }

  /** The moves of threads inside the gate along a run, retries after EINTR not counted. */
  function InsideMoves(c: Config, s: State, labels: seq<Label>): nat
    requires Possible(c, s, labels)
    decreases |labels|
  {
    if labels == [] then 0
    else Bit(InsideMove(s, labels[0])) + InsideMoves(c, Next(c, s, labels[0]), labels[1..])
  }

  lemma {:induction false} DrainRun(c: Config, s: State, labels: seq<Label>, t: State)
    requires Inv(c, s) && GateShut(s.sh.phase) && Run(c, s, labels, t)
    ensures Possible(c, s, labels) && Potential(t) + InsideMoves(c, s, labels) <= Potential(s)
    decreases |labels|
  {
    if labels != [] {
      DrainStep(c, s, labels[0]);
      NextInv(c, s, labels[0]);
      DrainRun(c, Next(c, s, labels[0]), labels[1..], t);
    }
  }

  lemma {:induction false} WeightBound(w: Word, threads: seq<Pc>)
    ensures Sum(Weights(w), threads) <= 5 * Sum(InsideOne, threads)
  {
    if threads != [] {
      WeightBound(w, threads[1..]);
    }
  }

  /**
    From the moment the gate is shut with `n` threads inside, the threads inside make at most n*n + 5n
    moves in every continuation, however the scheduler interleaves them with any other threads and
    however many EINTRs the kernel returns. With InsideNeverStuck, they leave as long as they are
    scheduled and not interrupted forever.
   */
  lemma DrainIsBounded(c: Config, s: State, labels: seq<Label>, t: State)
    requires Reachable(c, s) && GateShut(s.sh.phase) && Run(c, s, labels, t)
    ensures Possible(c, s, labels)
    ensures var n := InsideCount(s); InsideMoves(c, s, labels) <= n * n + 5 * n
  {
    ReachableInv(c, s);
    DrainRun(c, s, labels, t);
    WeightBound(s.sh.word, s.threads);
  }
}
