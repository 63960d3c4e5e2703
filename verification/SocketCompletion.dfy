/** A shutdown that has begun can be brought to its end, whatever the other threads were doing. */
module SocketCompletion {
  import opened GateWord
  import opened Syscalls
  import opened SocketMachine
  import opened SocketRuns
  import opened SocketInvariant
  import opened SocketTheorems
  import opened SocketDrain

  /** Every step is one that needs nothing from the peer and is not an interruption; threads that are idle stay out of it. */
  predicate Own(s: State, l: Label) {
    Unaided(s, l) && !Interrupt(s, l) && !s.threads[l.i].Idle?
  }

  predicate AllOwn(c: Config, s: State, labels: seq<Label>)
    requires Possible(c, s, labels)
    decreases |labels|
  {
    labels == [] || (Own(s, labels[0]) && AllOwn(c, Next(c, s, labels[0]), labels[1..]))
  }

  /** Which call the thread that shuts the socket down is making. */
  function KindOf(pc: Pc): Kind {
    match pc
    case Shutdown(kind, _) => kind
    case Signal(kind, _) => kind
    case GateLoad(kind, _) => kind
    case GateMake(kind, _, _) => kind
    case GateCas(kind, _, _) => kind
    case GateWait(kind, _) => kind
    case CloseEvent(kind, _) => kind
    case Dispose(kind, _) => kind
    case _ => CloseOp
  }

  function Goal(kind: Kind): Phase {
    Over(if kind == CloseOp then SockClosed else SockReleased)
  }

  // The measure: how many phases are left, and what is left of this one.

  function Stage(p: Phase): nat {
    match p
    case Shutting => 6
    case Signalling => 5
    case Closing => 4
    case Draining => 3
    case EventClosing => 2
    case Disposing => 1
    case _ => 0
  }

  /** Steps to the end of Gate.Close's loop if nobody interferes; a stale load costs another round. */
  function ClosingSteps(word: Word, pc: Pc): nat {
    match pc
    case GateCas(_, _, seen) => if seen == word then 1 else 4
    case GateMake(_, _, seen) => if seen == word then 2 else 5
    case GateLoad(_, _) => 3
    case _ => 0
  }

  function Remaining(s: State): nat {
    if s.sh.phase == Closing && 0 <= s.sh.winner < |s.threads| then ClosingSteps(s.sh.word, s.threads[s.sh.winner])
    else if s.sh.phase == Draining then 2 * Potential(s) + Bit(s.sh.notifier != -1)
    else 0
  }

  predicate Closer(s: State, t: State) {
    Stage(t.sh.phase) < Stage(s.sh.phase) || (Stage(t.sh.phase) == Stage(s.sh.phase) && Remaining(t) < Remaining(s))
  }

  /** Where one step leaves the shutdown: over, as the call intended, or nearer to that. */
  predicate Advanced(s: State, t: State) {
    && |s.threads| == |t.threads| && 0 <= s.sh.winner < |s.threads| && t.sh.winner == s.sh.winner
    && var kind := KindOf(s.threads[s.sh.winner]);
       if Ongoing(t.sh.phase) then Closer(s, t) && KindOf(t.threads[t.sh.winner]) == kind
       else t.sh.phase == Goal(kind) && t.threads[t.sh.winner] == Idle(Done, false)
  }

  /** The winner's own step inside Gate.Close's loop. */
  lemma {:induction false} ClosingAdvances(c: Config, s: State)
    requires Inv(c, s) && Actors(s) && s.sh.phase == Closing
    ensures Enabled(c, s, WinnerMove(s)) && Own(s, WinnerMove(s)) && Advanced(s, Next(c, s, WinnerMove(s)))
  {
    assert ThreadOk(c, s.sh, s.sh.winner, s.threads[s.sh.winner]);
  }

  /** The winner's own step, when it is not waiting for the threads inside. */
  lemma {:induction false} WinnerAdvances(c: Config, s: State)
    requires Inv(c, s) && Actors(s) && Ongoing(s.sh.phase)
    requires s.sh.phase == Draining ==> s.sh.done == ClosedChan
    ensures Enabled(c, s, WinnerMove(s)) && Own(s, WinnerMove(s)) && Advanced(s, Next(c, s, WinnerMove(s)))
  {
    if s.sh.phase == Closing {
      ClosingAdvances(c, s);
    } else {
      assert ThreadOk(c, s.sh, s.sh.winner, s.threads[s.sh.winner]);
    }
  }

  /** While the winner waits, a step of a thread inside, or of the one that has to close the channel. */
  lemma {:induction false} DrainAdvances(c: Config, s: State, l: Label)
    requires Inv(c, s) && Actors(s) && s.sh.phase == Draining && Enabled(c, s, l) && l.Step? && l.ch != Returns(Intr)
    requires Inside(s.threads[l.i]) || (s.sh.notifier == l.i && l == Step(l.i, Go))
    ensures Advanced(s, Next(c, s, l))
  {
    assert ThreadOk(c, s.sh, l.i, s.threads[l.i]);
    DrainStep(c, s, l);
    NextInv(c, s, l);
  }

  /** One step towards the end. */
  lemma {:induction false} ShutdownStep(c: Config, s: State) returns (l: Label)
    requires Reachable(c, s) && Ongoing(s.sh.phase)
    ensures Enabled(c, s, l) && Own(s, l) && Advanced(s, Next(c, s, l))
  {
    ReachableActors(c, s);
    l := ShutdownNeverStuck(c, s);
    if s.sh.phase == Draining && (Users(s.sh.word) > 0 || s.sh.notifier != -1) {
      DrainAdvances(c, s, l);
    } else {
      WinnerAdvances(c, s);
    }
  }

  lemma {:induction false} AllOwnCons(c: Config, s: State, l: Label, ks: seq<Label>)
    requires Enabled(c, s, l) && Own(s, l) && Possible(c, Next(c, s, l), ks) && AllOwn(c, Next(c, s, l), ks)
    ensures Possible(c, s, [l] + ks) && AllOwn(c, s, [l] + ks)
  {
    assert ([l] + ks)[1..] == ks;
  }

  /**
    From every reachable state in which a shutdown is under way there is a run to its success that needs
    nothing from the peer: Close ends with the socket closed, Release with the descriptor handed out, and
    the call returns success. Threads that were idle take no part in it.
   */
  lemma {:induction false} ShutdownCompletes(c: Config, s: State) returns (labels: seq<Label>, t: State)
    requires Reachable(c, s) && Ongoing(s.sh.phase)
    ensures Run(c, s, labels, t) && Possible(c, s, labels) && AllOwn(c, s, labels)
    ensures |t.threads| == |s.threads| && 0 <= s.sh.winner < |s.threads| && t.sh.winner == s.sh.winner
    ensures t.sh.phase == Goal(KindOf(s.threads[s.sh.winner])) && t.threads[t.sh.winner] == Idle(Done, false)
    ensures forall j :: 0 <= j < |s.threads| && s.threads[j].Idle? ==> t.threads[j] == s.threads[j]
    decreases Stage(s.sh.phase), Remaining(s)
  {
    var l := ShutdownStep(c, s);
    var m := Next(c, s, l);
    var ks: seq<Label> := [];
    t := m;
    if Ongoing(m.sh.phase) {
      ReachableNext(c, s, l);
      ks, t := ShutdownCompletes(c, m);
    }
    labels := [l] + ks;
    RunCons(c, s, l, ks, t);
    AllOwnCons(c, s, l, ks);
  }
}
