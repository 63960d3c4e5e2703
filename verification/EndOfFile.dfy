/** What io.EOF tells a reader: whether the sender has closed its end and everything it sent has been read. */
module Ends {
  import opened LittleEndian
  import opened Vectors
  import opened TransferCalls
  import opened Calls

  /** What a program may do besides reading into, and writing from, buffers that are not all empty. */
  datatype Plan = Plan(emptyReads: bool, emptyWrites: bool, shutsDown: bool)

  predicate Allows(plan: Plan, l: Label) {
    match l
    case Begin(reading, _, bufs, _) => Flatten(bufs) == [] ==> if reading then plan.emptyReads else plan.emptyWrites
    case ShutDown => plan.shutsDown
    case _ => true
  }

  predicate Follows(plan: Plan, labels: seq<Label>) {
    forall k :: 0 <= k < |labels| ==> Allows(plan, labels[k])
  }

  /** The call returned io.EOF. */
  predicate EndReported(call: Call) {
    call.phase == Finished(0, EOF)
  }

  /** What io.EOF is meant to say: the other end is closed, and nothing it sent is left to read. */
  predicate Ended<T>(w: World<seq<T>>) {
    w.hungUp && |w.wire| == 0
  }

  predicate Honest<T>(w: World<seq<T>>) {
    forall i :: 0 <= i < |w.calls| && EndReported(w.calls[i]) ==> Ended(w)
  }

  /** No answer changes how much room a call has, and only a receive of length 0 reports the end. */
  lemma {:induction false} AnswerKeeps(call: Call, turn: Turn)
    requires Fits(call, turn)
    ensures After(call, turn).Total() == call.Total() && After(call, turn).reading == call.reading
    ensures EndReported(After(call, turn)) <==> turn.Got? && turn.n == 0
  {
    if turn.Got? {
      ScatterFlattens(call.bufs, turn.data);
    }
  }

  /** A non-blocking read that a receive of length 0 ends. */
  function ReadLabels(bufs: seq<seq<Byte>>, i: nat): seq<Label> {
    [Begin(true, false, bufs, []), Move(i, GateOpen), Move(i, Got([], 0, [], 0))]
  }

  function WriteNothing(i: nat): seq<Label> {
    [Begin(false, false, [], []), Move(i, GateOpen), Move(i, Took(0))]
  }
}

/** io.EOF on a stream. */
module StreamEnds {
  import opened LittleEndian
  import opened Vectors
  import opened TransferCalls
  import opened Calls
  import opened StreamRuns
  import opened Ends

  /** When a receive into these buffers reports the end. */
  predicate EndDue(w: World<seq<Byte>>, total: nat) {
    total == 0 || (w.wire == [] && w.Over())
  }

  predicate Reports(w: World<seq<Byte>>, i: nat, turn: Turn) {
    Possible(w, Move(i, turn)) && EndReported(Next(w, Move(i, turn)).calls[i])
  }

  /** A call that is trying to read can be told of the end exactly then, and a successful receive tells it so. */
  lemma {:induction false} EndExactly(w: World<seq<Byte>>, i: nat)
    requires i < |w.calls| && w.calls[i].reading && w.calls[i].phase.Trying?
    ensures (exists turn :: Reports(w, i, turn)) <==> EndDue(w, w.calls[i].Total())
    ensures forall turn: Turn | Possible(w, Move(i, turn)) && turn.Got? :: Reports(w, i, turn) <==> EndDue(w, w.calls[i].Total())
  {
    forall turn: Turn | Possible(w, Move(i, turn))
      ensures Reports(w, i, turn) <==> turn.Got? && EndDue(w, w.calls[i].Total())
    {
      AnswerKeeps(w.calls[i], turn);
    }
    if EndDue(w, w.calls[i].Total()) {
      assert Reports(w, i, Got([], 0, w.calls[i].control, 0));
    }
  }

  lemma EndedStays(w: World<seq<Byte>>, l: Label)
    requires Possible(w, l) && Ended(w)
    ensures Ended(Next(w, l))
  {
  }

  /** What a program without empty reads and without shutdowns keeps. */
  predicate Sound(w: World<seq<Byte>>) {
    && !w.shut && Honest(w)
    && forall i :: 0 <= i < |w.calls| && w.calls[i].reading ==> w.calls[i].Total() > 0
  }

  lemma {:induction false} NextSound(w: World<seq<Byte>>, l: Label, plan: Plan)
    requires Sound(w) && Possible(w, l) && Allows(plan, l) && !plan.emptyReads && !plan.shutsDown
    ensures Sound(Next(w, l))
  {
    var v := Next(w, l);
    if l.Move? {
      AnswerKeeps(w.calls[l.i], l.turn);
    }
    forall i | 0 <= i < |v.calls| && EndReported(v.calls[i]) ensures Ended(v) {
      if i < |w.calls| && v.calls[i] == w.calls[i] {
        EndedStays(w, l);
      }
    }
  }

  lemma {:induction false} RunSound(w: World<seq<Byte>>, labels: seq<Label>, v: World<seq<Byte>>, plan: Plan)
    requires Sound(w) && Run(w, labels, v) && Follows(plan, labels) && !plan.emptyReads && !plan.shutsDown
    ensures Sound(v)
    decreases |labels|
  {
    if labels != [] {
      NextSound(w, labels[0], plan);
      assert Follows(plan, labels[1..]);
      RunSound(Next(w, labels[0]), labels[1..], v, plan);
    }
  }

  /** Where the end is due, a new read is told so. */
  lemma {:induction false} ReadIsTold(w: World<seq<Byte>>, bufs: seq<seq<Byte>>) returns (v: World<seq<Byte>>)
    requires EndDue(w, |Flatten(bufs)|)
    ensures Run(w, ReadLabels(bufs, |w.calls|), v) && v.hungUp == w.hungUp
    ensures |v.calls| == |w.calls| + 1 && EndReported(v.calls[|w.calls|])
  {
    var labels := ReadLabels(bufs, |w.calls|);
    var w1 := Next(w, labels[0]);
    var w2 := Next(w1, labels[1]);
    assert w2.calls[|w.calls|] == Call(true, false, bufs, [], Trying);
    v := Next(w2, labels[2]);
    assert labels[1..][1..] == [labels[2]] && [labels[2]][1..] == [];
    assert Run(v, [], v);
    assert Run(w2, [labels[2]], v);
  }

  /** In every run that follows the plan io.EOF means what it should. */
  ghost predicate EOFMeansEnd(plan: Plan) {
    forall labels, v | Run(Fresh(), labels, v) && Follows(plan, labels) :: Honest(v)
  }

  lemma {:induction false} EmptyReadMisleads(plan: Plan)
    requires plan.emptyReads
    ensures !EOFMeansEnd(plan)
  {
    var v := ReadIsTold(Fresh(), []);
    assert Follows(plan, ReadLabels([], 0));
    assert !Honest(v);
  }

  lemma {:induction false} ShutdownMisleads(plan: Plan)
    requires plan.shutsDown
    ensures !EOFMeansEnd(plan)
  {
    var room := [[0]];
    var w := Next(Fresh(), ShutDown);
    var v := ReadIsTold(w, room);
    var labels := [ShutDown] + ReadLabels(room, 0);
    assert labels[1..] == ReadLabels(room, 0);
    assert Flatten(room) != [];
    assert Run(Fresh(), labels, v) && Follows(plan, labels);
    assert !Honest(v);
  }

  /**
    On a stream io.EOF means that the sender has closed and everything sent was read, in every run of a
    program, if and only if the program neither reads into empty buffers nor shuts its own end down.
   */
  lemma {:induction false} EOFScope(plan: Plan)
    ensures EOFMeansEnd(plan) <==> !plan.emptyReads && !plan.shutsDown
  {
    if plan.emptyReads {
      EmptyReadMisleads(plan);
    } else if plan.shutsDown {
      ShutdownMisleads(plan);
    } else {
      forall labels, v | Run(Fresh(), labels, v) && Follows(plan, labels) ensures Honest(v) {
        RunSound(Fresh(), labels, v, plan);
      }
    }
  }

  /** A reader in such a program that saw io.EOF has, with all other reads, every byte that was ever written. */
  lemma {:induction false} EOFMeansAllRead(plan: Plan, labels: seq<Label>, v: World<seq<Byte>>, i: nat)
    requires !plan.emptyReads && !plan.shutsDown && Run(Fresh(), labels, v) && Follows(plan, labels)
    requires i < |v.calls| && EndReported(v.calls[i])
    ensures v.hungUp && Concat(v.calls, v.received) == Concat(v.calls, v.sent)
  {
    EOFScope(plan);
    StreamConservation(labels, v);
    assert Honest(v);
  }
}

/** io.EOF on a seqpacket connection. */
module PacketEnds {
  import opened LittleEndian
  import opened Vectors
  import opened TransferCalls
  import opened Calls
  import opened PacketRuns
  import opened Ends

  /** When a receive reports the end. */
  predicate EndDue(w: World<seq<Packet>>) {
    if w.wire == [] then w.Over() else w.wire[0] == []
  }

  predicate Reports(w: World<seq<Packet>>, i: nat, turn: Turn) {
    Possible(w, Move(i, turn)) && EndReported(Next(w, Move(i, turn)).calls[i])
  }

  /**
    A call that is trying to read can be told of the end exactly then, whatever room it has, and a
    successful receive tells it so.
   */
  lemma {:induction false} EndExactly(w: World<seq<Packet>>, i: nat)
    requires i < |w.calls| && w.calls[i].reading && w.calls[i].phase.Trying?
    ensures (exists turn :: Reports(w, i, turn)) <==> EndDue(w)
    ensures forall turn: Turn | Possible(w, Move(i, turn)) && turn.Got? :: Reports(w, i, turn) <==> EndDue(w)
  {
    forall turn: Turn | Possible(w, Move(i, turn)) ensures Reports(w, i, turn) <==> turn.Got? && EndDue(w) {
      AnswerKeeps(w.calls[i], turn);
    }
    if EndDue(w) {
      assert Reports(w, i, Got([], 0, w.calls[i].control, 0));
    }
  }

  lemma EndedStays(w: World<seq<Packet>>, l: Label)
    requires Possible(w, l) && Ended(w)
    ensures Ended(Next(w, l))
  {
  }

  /** What a program without empty packets and without shutdowns keeps. */
  predicate Sound(w: World<seq<Packet>>) {
    && !w.shut && Honest(w)
    && (forall i :: 0 <= i < |w.calls| && !w.calls[i].reading ==> w.calls[i].Total() > 0)
    && (forall k :: 0 <= k < |w.wire| ==> w.wire[k] != [])
  }

  lemma {:induction false} NextSound(w: World<seq<Packet>>, l: Label, plan: Plan)
    requires Sound(w) && Possible(w, l) && Allows(plan, l) && !plan.emptyWrites && !plan.shutsDown
    ensures Sound(Next(w, l))
  {
    var v := Next(w, l);
    if l.Move? {
      AnswerKeeps(w.calls[l.i], l.turn);
    }
    forall i | 0 <= i < |v.calls| && EndReported(v.calls[i]) ensures Ended(v) {
      if i < |w.calls| && v.calls[i] == w.calls[i] {
        EndedStays(w, l);
      }
    }
  }

  lemma {:induction false} RunSound(w: World<seq<Packet>>, labels: seq<Label>, v: World<seq<Packet>>, plan: Plan)
    requires Sound(w) && Run(w, labels, v) && Follows(plan, labels) && !plan.emptyWrites && !plan.shutsDown
    ensures Sound(v)
    decreases |labels|
  {
    if labels != [] {
      NextSound(w, labels[0], plan);
      assert Follows(plan, labels[1..]);
      RunSound(Next(w, labels[0]), labels[1..], v, plan);
    }
  }

  /** Where the end is due, a new read is told so. */
  lemma {:induction false} ReadIsTold(w: World<seq<Packet>>, bufs: seq<seq<Byte>>) returns (v: World<seq<Packet>>)
    requires EndDue(w)
    ensures Run(w, ReadLabels(bufs, |w.calls|), v) && v.hungUp == w.hungUp
    ensures |v.calls| == |w.calls| + 1 && EndReported(v.calls[|w.calls|])
  {
    var labels := ReadLabels(bufs, |w.calls|);
    var w1 := Next(w, labels[0]);
    var w2 := Next(w1, labels[1]);
    assert w2.calls[|w.calls|] == Call(true, false, bufs, [], Trying);
    v := Next(w2, labels[2]);
    assert labels[1..][1..] == [labels[2]] && [labels[2]][1..] == [];
    assert Run(v, [], v);
    assert Run(w2, [labels[2]], v);
  }

  /** A write of nothing queues an empty packet. */
  lemma {:induction false} EmptyPacket() returns (v: World<seq<Packet>>)
    ensures Run(Fresh(), WriteNothing(0), v) && v.wire == [[]] && !v.hungUp && |v.calls| == 1
  {
    var labels := WriteNothing(0);
    var w1 := Next(Fresh(), labels[0]);
    var w2 := Next(w1, labels[1]);
    assert w2.calls[0] == Call(false, false, [], [], Trying);
    v := Next(w2, labels[2]);
    assert labels[1..][1..] == [labels[2]] && [labels[2]][1..] == [];
    assert Run(v, [], v);
    assert Run(w2, [labels[2]], v);
  }

  lemma {:induction false} RunConcat(w: World<seq<Packet>>, ls: seq<Label>, m: World<seq<Packet>>,
                                     ks: seq<Label>, v: World<seq<Packet>>)
    requires Run(w, ls, m) && Run(m, ks, v)
    ensures Run(w, ls + ks, v)
    decreases |ls|
  {
    if ls == [] {
      assert ls + ks == ks;
    } else {
      assert (ls + ks)[1..] == ls[1..] + ks;
      RunConcat(Next(w, ls[0]), ls[1..], m, ks, v);
    }
  }

  /** In every run that follows the plan io.EOF means what it should. */
  ghost predicate EOFMeansEnd(plan: Plan) {
    forall labels, v | Run(Fresh(), labels, v) && Follows(plan, labels) :: Honest(v)
  }

  lemma {:induction false} EmptyWriteMisleads(plan: Plan)
    requires plan.emptyWrites
    ensures !EOFMeansEnd(plan)
  {
    var room := [[0]];
    var w := EmptyPacket();
    var v := ReadIsTold(w, room);
    var labels := WriteNothing(0) + ReadLabels(room, 1);
    RunConcat(Fresh(), WriteNothing(0), w, ReadLabels(room, 1), v);
    assert Flatten(room) != [];
    assert Follows(plan, labels);
    assert !Honest(v);
  }

  lemma {:induction false} ShutdownMisleads(plan: Plan)
    requires plan.shutsDown
    ensures !EOFMeansEnd(plan)
  {
    var room := [[0]];
    var w := Next(Fresh(), ShutDown);
    var v := ReadIsTold(w, room);
    var labels := [ShutDown] + ReadLabels(room, 0);
    assert labels[1..] == ReadLabels(room, 0);
    assert Flatten(room) != [];
    assert Run(Fresh(), labels, v) && Follows(plan, labels);
    assert !Honest(v);
  }

  /**
    On a seqpacket connection io.EOF means that the sender has closed and every packet was received, in
    every run of a program, if and only if the program neither writes empty packets nor shuts its own
    end down.
   */
  lemma {:induction false} EOFScope(plan: Plan)
    ensures EOFMeansEnd(plan) <==> !plan.emptyWrites && !plan.shutsDown
  {
    if plan.emptyWrites {
      EmptyWriteMisleads(plan);
    } else if plan.shutsDown {
      ShutdownMisleads(plan);
    } else {
      forall labels, v | Run(Fresh(), labels, v) && Follows(plan, labels) ensures Honest(v) {
        RunSound(Fresh(), labels, v, plan);
      }
    }
  }

  /** A reader in such a program that saw io.EOF knows that every packet ever sent was received. */
  lemma {:induction false} EOFMeansAllRead(plan: Plan, labels: seq<Label>, v: World<seq<Packet>>, i: nat)
    requires !plan.emptyWrites && !plan.shutsDown && Run(Fresh(), labels, v) && Follows(plan, labels)
    requires i < |v.calls| && EndReported(v.calls[i])
    ensures v.hungUp && InOrder(v) && |v.received| == |v.sent|
    ensures forall k :: 0 <= k < |v.received| ==> Delivered(v.calls[v.received[k]], SentPacket(v, k))
  {
    EOFScope(plan);
    PacketConservation(labels, v);
    assert Honest(v);
  }
}
