/** One ReadVec or WriteVec call, answer by answer. */
module TransferCalls {
  import opened LittleEndian
  import opened Syscalls
  import opened Vectors
  import opened FdPassing

  datatype Err = Nil | EOF | EBADF | EAGAIN | Truncated | Errno(e: int)

  /**
    What the kernel and the gate answer: whether the gate let the call in; then, per system call, the
    bytes received with the length the kernel reports and the control buffer it leaves, the count sent,
    an interruption, a would-block, or an error; and how a wait ended.
   */
  datatype Turn =
    | GateOpen | GateClosed
    | Got(data: seq<Byte>, n: nat, control: seq<Byte>, controlLen: nat)
    | Took(n: nat)
    | Interrupted | WouldBlock | Failed(e: int)
    | Ready | Closing

  datatype Phase = Entering | Trying | Waiting | Finished(n: nat, err: Err)

  datatype Call = Call(reading: bool, blocking: bool, bufs: seq<seq<Byte>>, control: seq<Byte>, phase: Phase) {
    function Total(): nat {
      |Flatten(bufs)|
    }
  }

  /** The answers that are possible: a receive fills no more than the buffers hold, a send takes no more. */
  predicate Fits(call: Call, turn: Turn) {
    match call.phase
    case Entering => turn.GateOpen? || turn.GateClosed?
    case Trying =>
      (match turn
       case Got(data, n, control, controlLen) =>
         && call.reading
         && |data| == (if n < call.Total() then n else call.Total())
         && |control| == |call.control| && controlLen <= |control|
       case Took(n) => !call.reading && n <= call.Total()
       case Interrupted => true
       case WouldBlock => true
       case Failed(_) => true
       case _ => false)
    case Waiting => turn.Interrupted? || turn.Failed? || turn.Ready? || turn.Closing?
    case Finished(_, _) => false
  }

  /** The result of a receive that the kernel reports as `n` bytes. */
  function ReadResult(n: nat, total: nat): Phase {
    if n == 0 then Finished(0, EOF)
    else if n > total then Finished(total, Truncated)
    else Finished(n, Nil)
  }

  function AnswerOf(turn: Turn): Answer {
    match turn
    case Interrupted => Intr
    case WouldBlock => Again
    case Failed(_) => Fail
    case _ => Ok
  }

  function ErrOf(turn: Turn): Err {
    if turn.Failed? then Errno(turn.e) else EAGAIN
  }

  function After(call: Call, turn: Turn): Call
    requires Fits(call, turn)
  {
    match call.phase
    case Entering => call.(phase := if turn.GateOpen? then Trying else Finished(0, EBADF))
    case Trying =>
      (match turn
       case Got(data, n, control, controlLen) =>
         call.(bufs := Scatter(call.bufs, data), control := Trim(control, controlLen), phase := ReadResult(n, call.Total()))
       case Took(n) => call.(phase := Finished(n, Nil))
       case _ =>
         match AfterSyscall(Transfer(call.blocking), AnswerOf(turn))
         case Retry => call
         case Block => call.(phase := Waiting)
         case Quit => call.(phase := Finished(0, ErrOf(turn))))
    case Waiting =>
      (match turn
       case Interrupted => call
       case Failed(e) => call.(phase := Finished(0, Errno(e)))
       case Ready => call.(phase := Trying)
       case _ => call.(phase := Finished(0, EBADF)))
    case Finished(_, _) => call
  }

  /** Every answer the call meets is possible. */
  predicate AllFit(call: Call, turns: seq<Turn>)
    decreases |turns|
  {
    turns == [] || call.phase.Finished? || (Fits(call, turns[0]) && AllFit(After(call, turns[0]), turns[1..]))
  }

  /** How a call ends: the call itself, the answers left over, and what it received. */
  datatype Ending = Ending(done: Call, rest: seq<Turn>, data: seq<Byte>)

  /** The call after it met the answers, up to its return. */
  function Play(call: Call, turns: seq<Turn>): (r: Ending)
    requires AllFit(call, turns)
    ensures |r.done.bufs| == |call.bufs|
    decreases |turns|
  {
    if turns == [] || call.phase.Finished? then Ending(call, turns, [])
    else
      var e := Play(After(call, turns[0]), turns[1..]);
      if turns[0].Got? then e.(data := turns[0].data) else e
  }

  predicate Transfers(turn: Turn) {
    turn.Got? || turn.Took?
  }

  /** How a call that met the answers `used` stands. */
  predicate Outcome(call: Call, used: seq<Turn>, done: Call) {
    if used != [] && Transfers(used[|used| - 1]) then
      var last := used[|used| - 1];
      && done.phase.Finished? && done.phase.err in {Nil, EOF, Truncated}
      && last.Got? == call.reading
      && done.bufs == (if last.Got? then Scatter(call.bufs, last.data) else call.bufs)
      && done.phase == (if last.Got? then ReadResult(last.n, call.Total()) else Finished(last.n, Nil))
      && done.control == (if last.Got? then Trim(last.control, last.controlLen) else call.control)
    else
      && done.bufs == call.bufs && done.control == call.control
      && (done.phase.Finished? ==> done.phase.n == 0 && done.phase.err !in {Nil, EOF, Truncated})
  }

  lemma OneTurn(call: Call, turn: Turn)
    requires Fits(call, turn)
    ensures Outcome(call, [turn], After(call, turn))
    ensures !After(call, turn).phase.Finished? ==>
              !Transfers(turn) && After(call, turn) == call.(phase := After(call, turn).phase)
  {
  }

  /**
    However often a call retries and waits, only its last answer can move data, and only a receive
    touches the caller's buffers or control message. A call that reports success or truncation, or the
    end of the stream, has made exactly one successful system call.
   */
  lemma {:induction false} OneTransfer(call: Call, turns: seq<Turn>) returns (used: seq<Turn>)
    requires AllFit(call, turns) && !call.phase.Finished?
    ensures turns == used + Play(call, turns).rest
    ensures forall k :: 0 <= k < |used| - 1 ==> !Transfers(used[k])
    ensures Outcome(call, used, Play(call, turns).done)
    decreases |turns|
  {
    if turns == [] {
      used := [];
    } else {
      var next := After(call, turns[0]);
      OneTurn(call, turns[0]);
      assert turns == [turns[0]] + turns[1..];
      if next.phase.Finished? {
        used := [turns[0]];
      } else {
        var rest := OneTransfer(next, turns[1..]);
        used := [turns[0]] + rest;
      }
    }
  }

  /** What the call received is what its buffers were filled with. */
  lemma {:induction false} PlayFills(call: Call, turns: seq<Turn>)
    requires AllFit(call, turns)
    ensures Play(call, turns).done.bufs == Scatter(call.bufs, Play(call, turns).data)
    decreases |turns|
  {
    ScatterNothing(call.bufs);
    if turns != [] && !call.phase.Finished? {
      var next := After(call, turns[0]);
      OneTurn(call, turns[0]);
      if !next.phase.Finished? {
        PlayFills(next, turns[1..]);
      }
    }
  }

  /**
    A receive that fits: the reported bytes are at the front of the flattened buffers, in order, and
    everything after them is as it was.
   */
  lemma ReadFits(call: Call, turn: Turn)
    requires call.phase.Trying? && Fits(call, turn) && turn.Got? && 0 < turn.n <= call.Total()
    ensures var done := After(call, turn);
            && done.phase == Finished(turn.n, Nil)
            && Flatten(done.bufs) == turn.data + Flatten(call.bufs)[turn.n..]
            && SameShape(done.bufs, call.bufs)
  {
    ScatterFlattens(call.bufs, turn.data);
  }

  /** ReadVec's result, as the caller sees it, for a packet of any length. */
  predicate PacketResult(total: nat, bufs: seq<seq<Byte>>, phase: Phase, packet: seq<Byte>) {
    var n := if |packet| < total then |packet| else total;
    && phase == (if |packet| == 0 then Finished(0, EOF) else Finished(n, if |packet| > total then Truncated else Nil))
    && |Flatten(bufs)| == total
    && Flatten(bufs)[..n] == packet[..n]
  }

  /**
    A receive of a packet: truncation is reported exactly when a non-empty packet is longer than all
    buffers together, the result is then their total length, and the buffers hold the packet's start.
   */
  lemma PacketRead(call: Call, packet: seq<Byte>, turn: Turn)
    requires call.phase.Trying? && Fits(call, turn) && turn.Got? && turn.n == |packet| && turn.data == packet[..|turn.data|]
    ensures PacketResult(call.Total(), After(call, turn).bufs, After(call, turn).phase, packet)
    ensures packet != [] ==>
              (After(call, turn).phase.err == Truncated <==> |packet| > call.Total())
              && Flatten(After(call, turn).bufs)[|turn.data|..] == Flatten(call.bufs)[|turn.data|..]
  {
    ScatterFlattens(call.bufs, turn.data);
  }
}
