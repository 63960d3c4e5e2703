/** The loops of ReadVec, WriteVec and wait, run against the answers that the kernel and the gate will give. */
module TransferOps {
  import opened LittleEndian
  import opened Vectors
  import opened Iovecs
  import opened FdPassing
  import opened ControlMessageOps
  import opened TransferCalls
  import opened CallAnswers

  /** Overwrites the start of one buffer, as far as the data or the buffer goes. */
  method FillOne(s: Slice, data: seq<Byte>) returns (n: nat)
    requires s.InBounds()
    modifies s.mem
    ensures n == Fitting(s, data)
    ensures s.mem[..] == Overwrite(old(s.mem[..]), s.off, data[..n])
  {
    n := if |data| < s.len then |data| else s.len;
    Put(s.mem, s.off, data[..n]);
  }

  /** Fills the buffers in order, as recvmsg does; where they overlap, the later one wins. */
  method Fill(bufs: seq<Slice>, data: seq<Byte>)
    requires AllInBounds(bufs)
    modifies Mems(bufs)
    ensures forall a | a in Mems(bufs) :: a[..] == Overlay(bufs, data, a, old(a[..]))
  {
    if bufs != [] {
      var n := FillOne(bufs[0], data);
      label Rest:
      Fill(bufs[1..], data[n..]);
      forall a | a in Mems(bufs) ensures a[..] == Overlay(bufs, data, a, old(a[..])) {
        if a !in Mems(bufs[1..]) {
          OverlayElsewhere(bufs[1..], data[n..], a, old@Rest(a[..]));
        }
      }
    }
  }

  /** `goal` is how the call ends up with the answers to come. */
  predicate Heading(call: Call, turns: seq<Turn>, goal: Ending) {
    AllFit(call, turns) && Play(call, turns) == goal
  }

  /** What an answer that is not a success means for a call that is trying. */
  predicate Fallen(call: Call, turn: Turn, turns: seq<Turn>, goal: Ending) {
    if turn.Interrupted? then Heading(call, turns, goal)
    else if turn.WouldBlock? && call.blocking then Heading(call.(phase := Waiting), turns, goal)
    else (turn.WouldBlock? || turn.Failed?) && goal == Ending(call.(phase := Finished(0, ErrOf(turn))), turns, [])
  }

  lemma TryingTurn(call: Call, turns: seq<Turn>, goal: Ending)
    requires call.phase.Trying? && turns != [] && Heading(call, turns, goal)
    ensures var turn, rest := turns[0], turns[1..];
            if turn.Got? then
              call.reading && goal == Ending(call.(bufs := Scatter(call.bufs, turn.data),
                                                   control := Trim(turn.control, turn.controlLen),
                                                   phase := ReadResult(turn.n, call.Total())), rest, turn.data)
            else if turn.Took? then !call.reading && goal == Ending(call.(phase := Finished(turn.n, Nil)), rest, [])
            else Fallen(call, turn, rest, goal)
  {
    var next, rest := After(call, turns[0]), turns[1..];
    assert next.phase.Finished? ==> Play(next, rest) == Ending(next, rest, []);
  }

  lemma EnteringTurn(call: Call, turns: seq<Turn>)
    requires call.phase.Entering? && AllFit(call, turns)
    ensures turns == [] ==> Play(call, turns) == Ending(call, turns, [])
    ensures turns != [] && turns[0].GateOpen? ==> Heading(call.(phase := Trying), turns[1..], Play(call, turns))
    ensures turns != [] && !turns[0].GateOpen? ==> Play(call, turns) == Ending(call.(phase := Finished(0, EBADF)), turns[1..], [])
  {
    if turns != [] {
      var next, rest := After(call, turns[0]), turns[1..];
      assert next.phase.Finished? ==> Play(next, rest) == Ending(next, rest, []);
    }
  }

  function Arrived(turn: Turn): seq<Byte> {
    if turn.Got? then turn.data else []
  }

  datatype Waited = SocketReady | SocketClosing | PollError(e: int) | StillWaiting

  /** The bytes in memory, piece by piece. */
  ghost predicate Holds(iovecs: seq<Slice>, pieces: seq<seq<Byte>>)
    reads Mems(iovecs)
  {
    AllInBounds(iovecs) && |pieces| == |iovecs| && forall i :: 0 <= i < |iovecs| ==> iovecs[i].Bytes() == pieces[i]
  }

  predicate AllInterrupted(turns: seq<Turn>) {
    forall k :: 0 <= k < |turns| ==> turns[k] == Interrupted
  }

  /** Of the answers that were to come a wait took interruptions and then this one. */
  predicate WaitEnded(before: seq<Turn>, after: seq<Turn>, last: Turn) {
    var k := |before| - |after| - 1;
    k >= 0 && AllInterrupted(before[..k]) && before[k] == last && after == before[k + 1..]
  }

  /** What a sendmsg that succeeded put on the wire: a control message and bytes. */
  datatype Sending = Sending(control: seq<Byte>, data: seq<Byte>)

  /**
    The gate's user count as this call sees it, the answers yet to come, oldest first, and what was sent
    so far.
   */
  class Host {
    var turns: seq<Turn>
    var users: nat
    var sent: seq<Sending>

    constructor (turns: seq<Turn>)
      ensures this.turns == turns && users == 0 && sent == []
    {
      this.turns := turns;
      users := 0;
      sent := [];
    }

    method Answer() returns (turn: Turn)
      requires turns != []
      modifies this`turns
      ensures turn == old(turns)[0] && turns == old(turns)[1..]
    {
      turn := turns[0];
      turns := turns[1..];
    }

    method EnterFD() returns (ok: bool)
      requires turns != []
      modifies this`turns, this`users
      ensures ok == old(turns)[0].GateOpen? && turns == old(turns)[1..]
      ensures users == old(users) + if ok then 1 else 0
    {
      var turn := Answer();
      ok := turn.GateOpen?;
      if ok {
        users := users + 1;
      }
    }

    /** Leaving with no user inside would panic. */
    method Leave()
      requires users > 0
      modifies this`users
      ensures users == old(users) - 1
    {
      users := users - 1;
    }

    /**
      sendmsg: on success the kernel takes the control message and the first bytes that the iovecs point
      to. The ghost parameter is those bytes, iovec by iovec.
     */
    method SendMsg(iovecs: seq<Slice>, control: seq<Byte>, ghost pieces: seq<seq<Byte>>) returns (turn: Turn)
      requires turns != [] && Holds(iovecs, pieces)
      requires turns[0].Took? ==> turns[0].n <= |Flatten(pieces)|
      modifies this`turns, this`sent
      ensures turn == old(turns)[0] && turns == old(turns)[1..]
      ensures sent == old(sent) + if turn.Took? then [Sending(control, Flatten(pieces)[..turn.n])] else []
    {
      var data := Flatten(Contents(iovecs));
      assert Contents(iovecs) == pieces;
      turn := Answer();
      if turn.Took? {
        sent := sent + [Sending(control, data[..turn.n])];
      }
    }

    /** recvmsg: on success the data is where the iovecs point to. */
    method RecvMsg(iovecs: seq<Slice>) returns (turn: Turn)
      requires turns != [] && AllInBounds(iovecs)
      modifies this`turns, Mems(iovecs)
      ensures turn == old(turns)[0] && turns == old(turns)[1..]
      ensures forall a | a in Mems(iovecs) :: a[..] == Overlay(iovecs, Arrived(turn), a, old(a[..]))
    {
      turn := Answer();
      if turn.Got? {
        Fill(iovecs, turn.data);
      } else {
        forall a | a in Mems(iovecs) ensures a[..] == Overlay(iovecs, [], a, old(a[..])) {
          OverlayNothing(iovecs, a, a[..]);
        }
      }
    }

    /** The same for the segments of the caller's buffers. */
    method RecvInto(ghost bufs: seq<Slice>, iovecs: seq<Slice>) returns (turn: Turn)
      requires turns != [] && AllInBounds(bufs) && iovecs == Segments(bufs)
      modifies this`turns, Mems(bufs)
      ensures turn == old(turns)[0] && turns == old(turns)[1..]
      ensures forall a | a in Mems(bufs) :: a[..] == Overlay(bufs, Arrived(turn), a, old(a[..]))
    {
      SegmentsGather(bufs);
      turn := RecvMsg(iovecs);
      forall a | a in Mems(bufs) ensures a[..] == Overlay(bufs, Arrived(turn), a, old(a[..])) {
        OverlaySegments(bufs, Arrived(turn), a, old(a[..]));
        if a !in Mems(iovecs) {
          OverlayElsewhere(iovecs, Arrived(turn), a, old(a[..]));
        }
      }
    }

    /** Socket.wait: EINTR polls again. The ghost parameters are the call that waits and where it is heading. */
    method Wait(ghost call: Call, ghost goal: Ending) returns (w: Waited)
      requires call.phase.Waiting? && Heading(call, turns, goal)
      modifies this`turns
      ensures |turns| <= |old(turns)| && turns == old(turns)[|old(turns)| - |turns|..]
      ensures match w
              case StillWaiting => turns == [] && AllInterrupted(old(turns))
              case SocketReady => WaitEnded(old(turns), turns, Ready)
              case SocketClosing => WaitEnded(old(turns), turns, Closing)
              case PollError(e) => WaitEnded(old(turns), turns, Failed(e))
      ensures match w
              case StillWaiting => goal == Ending(call, turns, [])
              case SocketReady => Heading(call.(phase := Trying), turns, goal)
              case SocketClosing => goal == Ending(call.(phase := Finished(0, EBADF)), turns, [])
              case PollError(e) => goal == Ending(call.(phase := Finished(0, Errno(e))), turns, [])
    {
      while turns != []
        invariant Heading(call, turns, goal) && |turns| <= |old(turns)|
        invariant turns == old(turns)[|old(turns)| - |turns|..]
        invariant AllInterrupted(old(turns)[..|old(turns)| - |turns|])
        decreases |turns|
      {
        ghost var k := |old(turns)| - |turns|;
        var turn := Answer();
        assert turn == old(turns)[k] && old(turns)[..k + 1] == old(turns)[..k] + [turn];
        if turn.Interrupted? {
          continue;
        }
        assert AllFit(After(call, turn), turns) && Play(After(call, turn), turns) == goal;
        if turn.Failed? {
          return PollError(turn.e);
        }
        if turn.Closing? {
          return SocketClosing;
        }
        return SocketReady;
      }
      assert old(turns)[..|old(turns)|] == old(turns);
      return StillWaiting;
    }

    /**
      What both loops do after a system call that did not succeed: go round again (Trying), stay blocked
      in wait (Waiting) or leave the gate and return.
     */
    method Recover(turn: Turn, blocking: bool, ghost call: Call, ghost goal: Ending) returns (next: Phase)
      requires users > 0 && call.phase.Trying? && call.blocking == blocking && Fallen(call, turn, turns, goal)
      modifies this`turns, this`users
      ensures |turns| <= |old(turns)| && !next.Entering?
      ensures next.Finished? ==> next.n == 0 && next.err != Nil
      ensures users == old(users) - if next.Finished? then 1 else 0
      ensures if next.Trying? then Heading(call, turns, goal) else goal == Ending(call.(phase := next), turns, [])
    {
      if turn.Interrupted? {
        return Trying;
      }
      if !blocking {
        Leave();
        return Finished(0, ErrOf(turn));
      }
      if !turn.WouldBlock? {
        Leave();
        return Finished(0, ErrOf(turn));
      }
      var w := Wait(call.(phase := Waiting), goal);
      if w.StillWaiting? {
        return Waiting;
      }
      if !w.SocketReady? {
        Leave();
        return Finished(0, if w.SocketClosing? then EBADF else Errno(w.e));
      }
      return Trying;
    }
  }

  lemma Untouched(bufs: seq<Slice>)
    requires AllInBounds(bufs)
    ensures forall a | a in Mems(bufs) :: a[..] == Overlay(bufs, [], a, a[..])
  {
    forall a | a in Mems(bufs) ensures a[..] == Overlay(bufs, [], a, a[..]) {
      OverlayNothing(bufs, a, a[..]);
    }
  }

  /** When no buffers overlap, what is in each of them is what the call machine says. */
  lemma {:induction false} Share(call: Call, turns: seq<Turn>, bufs: seq<Slice>, i: nat, content: seq<Byte>)
    requires AllInBounds(bufs) && Disjoint(bufs) && i < |bufs| && |content| == bufs[i].mem.Length
    requires |call.bufs| == |bufs| && forall j :: 0 <= j < |bufs| ==> |call.bufs[j]| == bufs[j].len
    requires call.bufs[i] == Part(content, bufs[i]) && AllFit(call, turns)
    ensures Part(Overlay(bufs, Play(call, turns).data, bufs[i].mem, content), bufs[i]) == Play(call, turns).done.bufs[i]
  {
    PlayFills(call, turns);
    OverlayScatters(bufs, Play(call, turns).data, i, content, call.bufs);
  }

  class SocketReader {
    var blocking: bool
    var control: seq<Byte>

    constructor (blocking: bool)
      ensures this.blocking == blocking && control == []
    {
      this.blocking := blocking;
      control := [];
    }

    /**
      ReadVec does what the call machine does with the same answers, and balances the gate: a call that
      returned has left it, a call still blocked is inside. When the answers run out before the call
      returns, the result is the phase it is blocked in. The buffers may overlap; if they do not, each
      ends up with its share of the data. The ghost parameter is the call as a value.
     */
    method ReadVec(host: Host, bufs: seq<Slice>, ghost call: Call) returns (phase: Phase)
      requires AllInBounds(bufs) && call == Call(true, blocking, Contents(bufs), control, Entering)
      requires AllFit(call, host.turns)
      modifies this, host, Mems(bufs)
      ensures blocking == old(blocking) && control == Play(call, old(host.turns)).done.control
      ensures phase == Play(call, old(host.turns)).done.phase && host.turns == Play(call, old(host.turns)).rest
      ensures phase == Standing(call.blocking, call.Total(), Met(call, old(host.turns)))
      ensures forall a | a in Mems(bufs) :: a[..] == Overlay(bufs, Play(call, old(host.turns)).data, a, old(a[..]))
      ensures Disjoint(bufs) ==>
                forall i :: 0 <= i < |bufs| ==> bufs[i].Bytes() == Play(call, old(host.turns)).done.bufs[i]
      ensures host.users == old(host.users) + if phase.Trying? || phase.Waiting? then 1 else 0
    {
      EndsStanding(call, host.turns);
      phase := Read(host, bufs, call);
      forall i | Disjoint(bufs) && 0 <= i < |bufs| ensures bufs[i].Bytes() == Play(call, old(host.turns)).done.bufs[i] {
        Share(call, old(host.turns), bufs, i, old(bufs[i].mem[..]));
      }
    }

    /** Its body, up to what each buffer ends up with. */
    method Read(host: Host, bufs: seq<Slice>, ghost call: Call) returns (phase: Phase)
      requires AllInBounds(bufs) && call == Call(true, blocking, Contents(bufs), control, Entering)
      requires AllFit(call, host.turns)
      modifies this`control, host, Mems(bufs)
      ensures control == Play(call, old(host.turns)).done.control
      ensures phase == Play(call, old(host.turns)).done.phase && host.turns == Play(call, old(host.turns)).rest
      ensures forall a | a in Mems(bufs) :: a[..] == Overlay(bufs, Play(call, old(host.turns)).data, a, old(a[..]))
      ensures host.users == old(host.users) + if phase.Trying? || phase.Waiting? then 1 else 0
    {
      var iovecs, length := BuildIovec(bufs, []);
      assert iovecs == Segments(bufs);
      ghost var goal := Play(call, host.turns);
      EnteringTurn(call, host.turns);
      if host.turns == [] {
        Untouched(bufs);
        return Entering;
      }
      var ok := host.EnterFD();
      if ok {
        phase := Receive(host, bufs, iovecs, length, call.(phase := Trying), goal);
      } else {
        Untouched(bufs);
        phase := Finished(0, EBADF);
      }
    }

    /** The loop of ReadVec, from inside the gate. */
    method Receive(host: Host, ghost bufs: seq<Slice>, iovecs: seq<Slice>, length: nat, ghost call: Call, ghost goal: Ending)
      returns (phase: Phase)
      requires AllInBounds(bufs) && iovecs == Segments(bufs) && length == call.Total() && host.users > 0
      requires call == Call(true, blocking, call.bufs, control, Trying) && Heading(call, host.turns, goal)
      modifies this`control, host, Mems(bufs)
      ensures host.turns == goal.rest && phase == goal.done.phase && control == goal.done.control
      ensures forall a | a in Mems(bufs) :: a[..] == Overlay(bufs, goal.data, a, old(a[..]))
      ensures host.users == old(host.users) - if phase.Finished? then 1 else 0
      ensures !phase.Entering?
    {
      var n: nat := 0;
      Untouched(bufs);
      while true
        invariant host.users == old(host.users) && control == old(control)
        invariant forall a | a in Mems(bufs) :: a[..] == old(a[..]) == Overlay(bufs, [], a, old(a[..]))
        invariant Heading(call, host.turns, goal)
        decreases |host.turns|
      {
        if host.turns == [] {
          return Trying;
        }
        TryingTurn(call, host.turns, goal);
        var turn := host.RecvInto(bufs, iovecs);
        if turn.Got? {
          n := turn.n;
          control := turn.control;
          if turn.controlLen < |control| {
            control := control[..turn.controlLen];
          }
          break;
        }
        var next := host.Recover(turn, blocking, call, goal);
        if !next.Trying? {
          return next;
        }
      }
      host.Leave();
      if n == 0 {
        return Finished(0, EOF);
      }
      if n > length {
        return Finished(length, Truncated);
      }
      return Finished(n, Nil);
    }
  }

  /** What the segments point to is, together, what the buffers hold. */
  lemma Pieces(bufs: seq<Slice>) returns (pieces: seq<seq<Byte>>)
    requires AllInBounds(bufs)
    ensures Holds(Segments(bufs), pieces) && Flatten(pieces) == Flatten(Contents(bufs))
  {
    SegmentsGather(bufs);
    pieces := Contents(Segments(bufs));
  }

  class SocketWriter {
    var blocking: bool
    var control: seq<Byte>

    constructor (blocking: bool)
      ensures this.blocking == blocking && control == []
    {
      this.blocking := blocking;
      control := [];
    }

    /**
      WriteVec, likewise; besides the gate's count it changes only what was sent, and that by the first
      bytes of the buffers, as many as it reports, together with the control message, and only when it succeeds.
     */
    method WriteVec(host: Host, bufs: seq<Slice>, ghost call: Call) returns (phase: Phase)
      requires AllInBounds(bufs) && call == Call(false, blocking, Contents(bufs), control, Entering)
      requires AllFit(call, host.turns)
      modifies host
      ensures Play(call, old(host.turns)) == Ending(call.(phase := phase), host.turns, [])
      ensures phase == Standing(call.blocking, call.Total(), Met(call, old(host.turns)))
      ensures phase.Finished? ==> phase.n <= call.Total()
      ensures host.sent == old(host.sent)
                + if phase.Finished? && phase.err == Nil then [Sending(control, Flatten(call.bufs)[..phase.n])] else []
      ensures host.users == old(host.users) + if phase.Trying? || phase.Waiting? then 1 else 0
    {
      EndsStanding(call, host.turns);
      ghost var pieces := Pieces(bufs);
      var iovecs, _ := BuildIovec(bufs, []);
      assert iovecs == Segments(bufs);
      phase := Write(host, iovecs, pieces, call);
    }

    /** The same from its iovecs on. */
    method Write(host: Host, iovecs: seq<Slice>, ghost pieces: seq<seq<Byte>>, ghost call: Call) returns (phase: Phase)
      requires Holds(iovecs, pieces) && Flatten(pieces) == Flatten(call.bufs)
      requires call == Call(false, blocking, call.bufs, control, Entering) && AllFit(call, host.turns)
      modifies host
      ensures Play(call, old(host.turns)) == Ending(call.(phase := phase), host.turns, [])
      ensures phase.Finished? ==> phase.n <= call.Total()
      ensures host.sent == old(host.sent)
                + if phase.Finished? && phase.err == Nil then [Sending(control, Flatten(call.bufs)[..phase.n])] else []
      ensures host.users == old(host.users) + if phase.Trying? || phase.Waiting? then 1 else 0
    {
      ghost var goal := Play(call, host.turns);
      EnteringTurn(call, host.turns);
      if host.turns == [] {
        return Entering;
      }
      var ok := host.EnterFD();
      if !ok {
        return Finished(0, EBADF);
      }
      phase := Transmit(host, iovecs, pieces, call.(phase := Trying), goal);
    }

    /** The loop of WriteVec, from inside the gate. */
    method Transmit(host: Host, iovecs: seq<Slice>, ghost pieces: seq<seq<Byte>>, ghost call: Call, ghost goal: Ending)
        returns (phase: Phase)
      requires Holds(iovecs, pieces) && Flatten(pieces) == Flatten(call.bufs) && host.users > 0
      requires call == Call(false, blocking, call.bufs, control, Trying) && Heading(call, host.turns, goal)
      modifies host
      ensures goal == Ending(call.(phase := phase), host.turns, [])
      ensures phase.Finished? ==> phase.n <= call.Total()
      ensures host.sent == old(host.sent)
                + if phase.Finished? && phase.err == Nil then [Sending(control, Flatten(call.bufs)[..phase.n])] else []
      ensures host.users == old(host.users) - if phase.Finished? then 1 else 0
      ensures !phase.Entering?
    {
      while true
        invariant host.users == old(host.users) && host.sent == old(host.sent) && Holds(iovecs, pieces)
        invariant Heading(call, host.turns, goal)
        decreases |host.turns|
      {
        if host.turns == [] {
          return Trying;
        }
        TryingTurn(call, host.turns, goal);
        var turn := host.SendMsg(iovecs, control, pieces);
        if turn.Took? {
          host.Leave();
          return Finished(turn.n, Nil);
        }
        var next := host.Recover(turn, blocking, call, goal);
        if !next.Trying? {
          return next;
        }
      }
    }
  }
}
