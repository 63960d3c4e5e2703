/** What a ReadVec or WriteVec comes to, told by the answers it met and not by the steps it made. */
module CallAnswers {
  import opened Vectors
  import opened TransferCalls

  /**
    Where a call stands after these answers: the last one that is not an interruption decides. `total` is
    the length of its buffers.
   */
  function Standing(blocking: bool, total: nat, met: seq<Turn>): Phase {
    if met == [] then Entering
    else
      match met[|met| - 1]
      case Interrupted => Standing(blocking, total, met[..|met| - 1])
      case GateOpen => Trying
      case GateClosed => Finished(0, EBADF)
      case Got(_, n, _, _) =>
        if n == 0 then Finished(0, EOF) else if n <= total then Finished(n, Nil) else Finished(total, Truncated)
      case Took(n) => Finished(n, Nil)
      case WouldBlock => if blocking then Waiting else Finished(0, EAGAIN)
      case Failed(e) => Finished(0, Errno(e))
      case Ready => Trying
      case Closing => Finished(0, EBADF)
  }

  /** The answers that end a call. */
  predicate Decides(blocking: bool, turn: Turn) {
    match turn
    case GateClosed => true
    case Got(_, _, _, _) => true
    case Took(_) => true
    case Failed(_) => true
    case Closing => true
    case WouldBlock => !blocking
    case _ => false
  }

  /** The answers that a call met out of those it could have met. */
  function Met(call: Call, turns: seq<Turn>): seq<Turn>
    requires AllFit(call, turns)
  {
    var rest := |Play(call, turns).rest|;
    if rest <= |turns| then turns[..|turns| - rest] else turns
  }

  lemma {:induction false} OneAnswer(call: Call, turn: Turn, met: seq<Turn>)
    requires Fits(call, turn) && call.phase == Standing(call.blocking, call.Total(), met)
    ensures After(call, turn).phase == Standing(call.blocking, call.Total(), met + [turn])
    ensures After(call, turn).phase.Finished? <==> Decides(call.blocking, turn)
    ensures After(call, turn).Total() == call.Total() && After(call, turn).blocking == call.blocking
  {
    assert (met + [turn])[..|met|] == met;
    if turn.Got? {
      ScatterFlattens(call.bufs, turn.data);
    }
  }

  lemma {:induction false} PlayStands(call: Call, turns: seq<Turn>, before: seq<Turn>) returns (used: seq<Turn>)
    requires AllFit(call, turns) && !call.phase.Finished? && call.phase == Standing(call.blocking, call.Total(), before)
    ensures turns == used + Play(call, turns).rest
    ensures Play(call, turns).done.phase == Standing(call.blocking, call.Total(), before + used)
    ensures forall k :: 0 <= k < |used| - 1 ==> !Decides(call.blocking, used[k])
    ensures Play(call, turns).done.phase.Finished? <==> used != [] && Decides(call.blocking, used[|used| - 1])
    ensures !Play(call, turns).done.phase.Finished? ==> Play(call, turns).rest == []
    decreases |turns|
  {
    if turns == [] {
      used := [];
      assert before + used == before;
    } else {
      var next := After(call, turns[0]);
      OneAnswer(call, turns[0], before);
      assert turns == [turns[0]] + turns[1..];
      if next.phase.Finished? {
        used := [turns[0]];
      } else {
        var more := PlayStands(next, turns[1..], before + [turns[0]]);
        used := [turns[0]] + more;
        assert before + [turns[0]] + more == before + used;
      }
    }
  }

  /**
    A call goes on through interruptions, would-blocks that it waits out and waits that end ready, until
    an answer decides it. Where it stands is where the last answer other than an interruption puts it.
   */
  lemma {:induction false} CallFollowsAnswers(call: Call, turns: seq<Turn>)
    requires AllFit(call, turns) && call.phase.Entering?
    ensures turns == Met(call, turns) + Play(call, turns).rest
    ensures Play(call, turns).done.phase == Standing(call.blocking, call.Total(), Met(call, turns))
    ensures forall k :: 0 <= k < |Met(call, turns)| - 1 ==> !Decides(call.blocking, Met(call, turns)[k])
    ensures Play(call, turns).done.phase.Finished? <==>
              Met(call, turns) != [] && Decides(call.blocking, Met(call, turns)[|Met(call, turns)| - 1])
    ensures !Play(call, turns).done.phase.Finished? ==> Met(call, turns) == turns
  {
    var used := PlayStands(call, turns, []);
    assert [] + used == used;
    assert Met(call, turns) == used;
  }

  lemma {:induction false} EndsStanding(call: Call, turns: seq<Turn>)
    requires AllFit(call, turns) && call.phase.Entering?
    ensures Play(call, turns).done.phase == Standing(call.blocking, call.Total(), Met(call, turns))
  {
    CallFollowsAnswers(call, turns);
  }

  /**
    What a call returns, by the last answer it met: EBADF of its own exactly when the gate was closed to it
    or its wait was told of the closing (what the kernel returns is an Errno), EAGAIN exactly when it does
    not block and would have to, an error number exactly when a call or a poll failed with it, and
    otherwise the count of its one successful system call.
   */
  lemma {:induction false} ResultExactly(call: Call, turns: seq<Turn>)
    requires AllFit(call, turns) && call.phase.Entering? && Met(call, turns) != []
    ensures var last := Met(call, turns)[|Met(call, turns)| - 1];
            var phase, total := Play(call, turns).done.phase, |Flatten(call.bufs)|;
            && (phase == Finished(0, EBADF) <==> last == GateClosed || last == Closing)
            && (phase == Finished(0, EAGAIN) <==> last == WouldBlock && !call.blocking)
            && (forall e :: phase == Finished(0, Errno(e)) <==> last == Failed(e))
            && (last.Got? || last.Took? <==> phase.Finished? && phase.err in {Nil, EOF, Truncated})
            && (last.Took? ==> phase == Finished(last.n, Nil))
            && (last.Got? && last.n == 0 ==> phase == Finished(0, EOF))
            && (last.Got? && 0 < last.n <= total ==> phase == Finished(last.n, Nil))
            && (last.Got? && last.n > total ==> phase == Finished(total, Truncated))
  {
    CallFollowsAnswers(call, turns);
    var met := Met(call, turns);
    Undecided(call.blocking, call.Total(), met[..|met| - 1]);
  }

  lemma {:induction false} Undecided(blocking: bool, total: nat, met: seq<Turn>)
    requires forall k :: 0 <= k < |met| ==> !Decides(blocking, met[k])
    ensures !Standing(blocking, total, met).Finished?
    decreases |met|
  {
    if met != [] {
      Undecided(blocking, total, met[..|met| - 1]);
    }
  }

  /** After any number of interrupted polls, the answer to a wait does what it says. */
  lemma {:induction false} WaitAnswered(call: Call, interrupted: seq<Turn>, turn: Turn, rest: seq<Turn>)
    requires call.phase.Waiting? && (forall k :: 0 <= k < |interrupted| ==> interrupted[k] == Interrupted)
    requires AllFit(call, interrupted + ([turn] + rest)) && turn != Interrupted
    ensures turn == Ready ==> AllFit(call.(phase := Trying), rest)
                              && Play(call, interrupted + ([turn] + rest)) == Play(call.(phase := Trying), rest)
    ensures turn == Closing ==>
              Play(call, interrupted + ([turn] + rest)) == Ending(call.(phase := Finished(0, EBADF)), rest, [])
    ensures turn.Failed? ==>
              Play(call, interrupted + ([turn] + rest)) == Ending(call.(phase := Finished(0, Errno(turn.e))), rest, [])
    ensures turn.Ready? || turn.Closing? || turn.Failed?
    decreases |interrupted|
  {
    var turns := interrupted + ([turn] + rest);
    if interrupted == [] {
      assert turns == [turn] + rest && turns[0] == turn && turns[1..] == rest;
      var next := After(call, turn);
      assert next.phase.Finished? ==> Play(next, rest) == Ending(next, rest, []);
    } else {
      assert turns[0] == Interrupted && turns[1..] == interrupted[1..] + ([turn] + rest);
      WaitAnswered(call, interrupted[1..], turn, rest);
    }
  }
}
