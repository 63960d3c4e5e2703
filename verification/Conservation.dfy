/** What is common to all calls made on a connection, whatever the order in which they make progress. */
module Calls {
  import opened LittleEndian
  import opened Vectors
  import opened TransferCalls

  /**
    Every call ever made on the connection, in any stage, and the calls whose receive (or send)
    succeeded, in the order of those system calls. A `wire` is what the kernel holds in between. `hungUp`
    says that the sending end is closed, `shut` that the receiving end shut its own connection down, as
    Shutdown does and Close before anything else.
   */
  datatype World<W> = World(wire: W, calls: seq<Call>, received: seq<nat>, sent: seq<nat>, hungUp: bool, shut: bool) {
    predicate Over() {
      hungUp || shut
    }
  }

  datatype Label =
    | Begin(reading: bool, blocking: bool, bufs: seq<seq<Byte>>, control: seq<Byte>)
    | Move(i: nat, turn: Turn)
    | HangUp
    | ShutDown

  function NewCall(l: Label): Call
    requires l.Begin?
  {
    Call(l.reading, l.blocking, l.bufs, l.control, Entering)
  }

  /** The bytes that a returned call reports as transferred. */
  function Transferred(call: Call): seq<Byte> {
    if call.phase.Finished? && call.phase.n <= call.Total() then Flatten(call.bufs)[..call.phase.n] else []
  }

  /** The results of the calls in an order, one after the other. */
  function Concat(calls: seq<Call>, order: seq<nat>): seq<Byte> {
    if order == [] then []
    else
      var i := order[|order| - 1];
      Concat(calls, order[..|order| - 1]) + if i < |calls| then Transferred(calls[i]) else []
  }

  /** The order lists returned calls only. */
  predicate Returned(calls: seq<Call>, order: seq<nat>) {
    forall k :: 0 <= k < |order| ==> order[k] < |calls| && calls[order[k]].phase.Finished?
  }

  /** Calls that have returned are never touched again. */
  predicate Preserves(calls: seq<Call>, calls': seq<Call>) {
    |calls| <= |calls'| && forall i :: 0 <= i < |calls| && calls[i].phase.Finished? ==> calls'[i] == calls[i]
  }

  lemma {:induction false} ConcatPreserved(calls: seq<Call>, calls': seq<Call>, order: seq<nat>)
    requires Returned(calls, order) && Preserves(calls, calls')
    ensures Concat(calls', order) == Concat(calls, order)
    decreases |order|
  {
    if order != [] {
      ConcatPreserved(calls, calls', order[..|order| - 1]);
    }
  }

  lemma {:induction false} ConcatSnoc(calls: seq<Call>, calls': seq<Call>, order: seq<nat>, i: nat)
    requires Returned(calls, order) && Preserves(calls, calls') && i < |calls'|
    ensures Concat(calls', order + [i]) == Concat(calls, order) + Transferred(calls'[i])
  {
    ConcatPreserved(calls, calls', order);
    assert (order + [i])[..|order|] == order;
  }
}

/** The lists of successful receives and sends stay exact. */
module CallOrders {
  import opened TransferCalls
  import opened Calls

  /** The order lists returned calls of one direction, each once, and all that reported a byte. */
  predicate OrderOk(calls: seq<Call>, order: seq<nat>, reading: bool) {
    && Returned(calls, order)
    && (forall k :: 0 <= k < |order| ==> calls[order[k]].reading == reading)
    && (forall j, k :: 0 <= j < k < |order| ==> order[j] != order[k])
    && (forall i :: 0 <= i < |calls| ==> Reported(calls[i], reading) ==> i in order)
  }

  predicate Reported(call: Call, reading: bool) {
    call.reading == reading && call.phase.Finished? && call.phase.n > 0
  }

  lemma OrderBegin(calls: seq<Call>, call: Call, order: seq<nat>, reading: bool)
    requires OrderOk(calls, order, reading) && !call.phase.Finished?
    ensures OrderOk(calls + [call], order, reading)
  {
  }

  lemma OrderMove(calls: seq<Call>, i: nat, call: Call, order: seq<nat>, reading: bool)
    requires OrderOk(calls, order, reading) && i < |calls| && !calls[i].phase.Finished? && !Reported(call, reading)
    ensures OrderOk(calls[i := call], order, reading)
  {
    assert i !in order;
  }

  /** A call that returns with data joins the order of its direction only. */
  lemma OrderJoin(calls: seq<Call>, i: nat, done: Call, mine: seq<nat>, other: seq<nat>)
    requires i < |calls| && !calls[i].phase.Finished? && done.phase.Finished?
    requires OrderOk(calls, mine, done.reading) && OrderOk(calls, other, !done.reading)
    ensures OrderOk(calls[i := done], mine + [i], done.reading) && OrderOk(calls[i := done], other, !done.reading)
  {
    OrderList(calls, i, done, mine, done.reading);
    OrderMove(calls, i, done, other, !done.reading);
  }

  lemma OrderList(calls: seq<Call>, i: nat, call: Call, order: seq<nat>, reading: bool)
    requires OrderOk(calls, order, reading) && i < |calls| && !calls[i].phase.Finished?
    requires call.phase.Finished? && call.reading == reading
    ensures OrderOk(calls[i := call], order + [i], reading)
  {
    assert i !in order;
    forall j | 0 <= j < |calls| && Reported(calls[i := call][j], reading) ensures j in order + [i] {
    }
  }
}

/** A stream socket: any number of WriteVec and ReadVec calls, interleaved answer by answer. */
module StreamRuns {
  import opened LittleEndian
  import opened Vectors
  import opened TransferCalls
  import opened Calls
  import opened CallOrders

  /**
    The kernel's answers on a stream: a receive takes a prefix of the queue, empty only if it has no room
    or the queue is empty and no more can come; a send appends a prefix of its data.
   */
  predicate Possible(w: World<seq<Byte>>, l: Label) {
    match l
    case Move(i, turn) =>
      && i < |w.calls| && Fits(w.calls[i], turn)
      && (turn.Took? ==> !w.Over())
      && (turn.Got? ==> turn.n <= w.calls[i].Total() && turn.n <= |w.wire| && turn.data == w.wire[..turn.n])
      && (turn.Got? && turn.n == 0 ==> w.calls[i].Total() == 0 || (w.wire == [] && w.Over()))
    case _ => true
  }

  function Next(w: World<seq<Byte>>, l: Label): World<seq<Byte>>
    requires Possible(w, l)
  {
    match l
    case Begin(_, _, _, _) => w.(calls := w.calls + [NewCall(l)])
    case Move(i, turn) =>
      var moved := w.(calls := w.calls[i := After(w.calls[i], turn)]);
      (match turn
       case Got(_, n, _, _) => moved.(wire := w.wire[n..], received := w.received + [i])
       case Took(n) => moved.(wire := w.wire + Flatten(w.calls[i].bufs)[..n], sent := w.sent + [i])
       case _ => moved)
    case HangUp => w.(hungUp := true)
    case ShutDown => w.(shut := true)
  }

  function Fresh(): World<seq<Byte>> {
    World([], [], [], [], false, false)
  }

  ghost predicate Run(w: World<seq<Byte>>, labels: seq<Label>, v: World<seq<Byte>>)
    decreases |labels|
  {
    if labels == [] then w == v
    else Possible(w, labels[0]) && Run(Next(w, labels[0]), labels[1..], v)
  }

  predicate Conserved(w: World<seq<Byte>>) {
    && OrderOk(w.calls, w.received, true) && OrderOk(w.calls, w.sent, false)
    && Concat(w.calls, w.sent) == Concat(w.calls, w.received) + w.wire
  }

  /** The bytes a successful call reports are those that the kernel moved. */
  lemma MovedIsReported(call: Call, turn: Turn)
    requires Fits(call, turn) && Transfers(turn) && (turn.Got? ==> turn.n == |turn.data|)
    ensures var done := After(call, turn);
            && done.phase.Finished? && done.reading == call.reading == turn.Got?
            && Transferred(done) == if turn.Got? then turn.data else Flatten(call.bufs)[..turn.n]
  {
    if turn.Got? {
      ScatterFlattens(call.bufs, turn.data);
    }
  }

  /** A call that returns with data joins the order of its direction; nothing else changes. */
  lemma JoinsOrder(calls: seq<Call>, i: nat, done: Call, mine: seq<nat>, other: seq<nat>)
    requires i < |calls| && !calls[i].phase.Finished? && done.phase.Finished?
    requires OrderOk(calls, mine, done.reading) && OrderOk(calls, other, !done.reading)
    ensures var calls' := calls[i := done];
            && OrderOk(calls', mine + [i], done.reading) && OrderOk(calls', other, !done.reading)
            && Concat(calls', mine + [i]) == Concat(calls, mine) + Transferred(done)
            && Concat(calls', other) == Concat(calls, other)
  {
    OrderJoin(calls, i, done, mine, other);
    ConcatSnoc(calls, calls[i := done], mine, i);
    ConcatPreserved(calls, calls[i := done], other);
  }

  lemma QueueLaws(all: seq<Byte>, before: seq<Byte>, queue: seq<Byte>, n: nat, more: seq<Byte>)
    requires all == before + queue
    ensures n <= |queue| ==> all == before + queue[..n] + queue[n..]
    ensures all + more == before + (queue + more)
  {
  }

  /** A receive delivers to its caller what it took from the queue. */
  lemma {:induction false} GotConserved(w: World<seq<Byte>>, i: nat, turn: Turn)
    requires Possible(w, Move(i, turn)) && turn.Got? && Conserved(w)
    ensures Conserved(Next(w, Move(i, turn)))
  {
    MovedIsReported(w.calls[i], turn);
    JoinsOrder(w.calls, i, After(w.calls[i], turn), w.received, w.sent);
    QueueLaws(Concat(w.calls, w.sent), Concat(w.calls, w.received), w.wire, turn.n, []);
  }

  /** A send appends to the queue what its caller is told. */
  lemma {:induction false} TookConserved(w: World<seq<Byte>>, i: nat, turn: Turn)
    requires Possible(w, Move(i, turn)) && turn.Took? && Conserved(w)
    ensures Conserved(Next(w, Move(i, turn)))
  {
    MovedIsReported(w.calls[i], turn);
    JoinsOrder(w.calls, i, After(w.calls[i], turn), w.sent, w.received);
    QueueLaws(Concat(w.calls, w.sent), Concat(w.calls, w.received), w.wire, 0, Flatten(w.calls[i].bufs)[..turn.n]);
  }

  /** Any other answer, a new call and the end of the connection move nothing. */
  lemma QuietConserved(w: World<seq<Byte>>, l: Label)
    requires Possible(w, l) && (l.Move? ==> !Transfers(l.turn)) && Conserved(w)
    ensures Conserved(Next(w, l))
  {
    var calls := Next(w, l).calls;
    if l.Move? {
      OneTurn(w.calls[l.i], l.turn);
      OrderMove(w.calls, l.i, calls[l.i], w.received, true);
      OrderMove(w.calls, l.i, calls[l.i], w.sent, false);
    } else if l.Begin? {
      OrderBegin(w.calls, NewCall(l), w.received, true);
      OrderBegin(w.calls, NewCall(l), w.sent, false);
    }
    ConcatPreserved(w.calls, calls, w.received);
    ConcatPreserved(w.calls, calls, w.sent);
  }

  lemma NextConserved(w: World<seq<Byte>>, l: Label)
    requires Possible(w, l) && Conserved(w)
    ensures Conserved(Next(w, l))
  {
    if !l.Move? || !Transfers(l.turn) {
      QuietConserved(w, l);
    } else if l.turn.Got? {
      GotConserved(w, l.i, l.turn);
    } else {
      TookConserved(w, l.i, l.turn);
    }
  }

  lemma {:induction false} RunConserved(w: World<seq<Byte>>, labels: seq<Label>, v: World<seq<Byte>>)
    requires Conserved(w) && Run(w, labels, v)
    ensures Conserved(v)
    decreases |labels|
  {
    if labels != [] {
      NextConserved(w, labels[0]);
      RunConserved(Next(w, labels[0]), labels[1..], v);
    }
  }

  /**
    In every interleaving the bytes returned by reads, in the order of their receives, are a prefix of
    the bytes reported by writes, in the order of their sends, and what is missing is still queued. The
    two orders hold each call at most once, and every call that reported a byte.
   */
  lemma StreamConservation(labels: seq<Label>, v: World<seq<Byte>>)
    requires Run(Fresh(), labels, v)
    ensures Concat(v.calls, v.received) <= Concat(v.calls, v.sent)
    ensures Concat(v.calls, v.sent) == Concat(v.calls, v.received) + v.wire
    ensures OrderOk(v.calls, v.received, true) && OrderOk(v.calls, v.sent, false)
  {
    assert Conserved(Fresh());
    RunConserved(Fresh(), labels, v);
  }
}

/** A seqpacket socket. */
module PacketRuns {
  import opened LittleEndian
  import opened Vectors
  import opened TransferCalls
  import opened Calls
  import opened CallOrders

  type Packet = seq<Byte>

  /**
    The kernel's answers on packets: a receive consumes the first packet and reports its whole length,
    or reports the end when there is none and no more can come; a send queues all of its data as one packet.
   */
  predicate Possible(w: World<seq<Packet>>, l: Label) {
    match l
    case Move(i, turn) =>
      && i < |w.calls| && Fits(w.calls[i], turn)
      && (turn.Took? ==> turn.n == w.calls[i].Total() && !w.Over())
      && (turn.Got? ==>
            if w.wire == [] then turn.n == 0 && w.Over()
            else turn.n == |w.wire[0]| && turn.data == w.wire[0][..|turn.data|])
    case _ => true
  }

  function Next(w: World<seq<Packet>>, l: Label): World<seq<Packet>>
    requires Possible(w, l)
  {
    match l
    case Begin(_, _, _, _) => w.(calls := w.calls + [NewCall(l)])
    case Move(i, turn) =>
      var moved := w.(calls := w.calls[i := After(w.calls[i], turn)]);
      if turn.Got? && w.wire != [] then moved.(wire := w.wire[1..], received := w.received + [i])
      else if turn.Took? then moved.(wire := w.wire + [Flatten(w.calls[i].bufs)], sent := w.sent + [i])
      else moved
    case HangUp => w.(hungUp := true)
    case ShutDown => w.(shut := true)
  }

  function Fresh(): World<seq<Packet>> {
    World([], [], [], [], false, false)
  }

  ghost predicate Run(w: World<seq<Packet>>, labels: seq<Label>, v: World<seq<Packet>>)
    decreases |labels|
  {
    if labels == [] then w == v
    else Possible(w, labels[0]) && Run(Next(w, labels[0]), labels[1..], v)
  }

  /** The packet that the k-th successful send queued. */
  function SentPacket(w: World<seq<Packet>>, k: nat): Packet
    requires k < |w.sent| && Returned(w.calls, w.sent)
  {
    Flatten(w.calls[w.sent[k]].bufs)
  }

  predicate Delivered(call: Call, packet: Packet) {
    PacketResult(call.Total(), call.bufs, call.phase, packet)
  }

  /** The k-th receive returned the k-th packet sent, and the packets not yet received are queued in order. */
  predicate Aligned(w: World<seq<Packet>>) {
    && Returned(w.calls, w.received) && Returned(w.calls, w.sent)
    && |w.sent| == |w.received| + |w.wire|
    && (forall k :: 0 <= k < |w.received| ==> w.calls[w.received[k]].reading && Delivered(w.calls[w.received[k]], SentPacket(w, k)))
    && (forall k :: 0 <= k < |w.wire| ==> w.wire[k] == SentPacket(w, |w.received| + k))
  }

  predicate InOrder(w: World<seq<Packet>>) {
    OrderOk(w.calls, w.received, true) && OrderOk(w.calls, w.sent, false) && Aligned(w)
  }

  lemma NextPreserves(w: World<seq<Packet>>, l: Label)
    requires Possible(w, l) && Returned(w.calls, w.sent) && Returned(w.calls, w.received)
    ensures Preserves(w.calls, Next(w, l).calls)
    ensures Returned(Next(w, l).calls, Next(w, l).sent) && Returned(Next(w, l).calls, Next(w, l).received)
    ensures forall k :: 0 <= k < |w.sent| ==> Next(w, l).sent[k] == w.sent[k] && SentPacket(Next(w, l), k) == SentPacket(w, k)
    ensures forall k :: 0 <= k < |w.received| ==>
              Next(w, l).received[k] == w.received[k] && Next(w, l).calls[w.received[k]] == w.calls[w.received[k]]
  {
  }

  /** The two orders stay exact. */
  lemma {:induction false} NextOrders(w: World<seq<Packet>>, l: Label)
    requires Possible(w, l) && OrderOk(w.calls, w.received, true) && OrderOk(w.calls, w.sent, false)
    ensures var v := Next(w, l); OrderOk(v.calls, v.received, true) && OrderOk(v.calls, v.sent, false)
  {
    if l.Begin? {
      OrderBegin(w.calls, NewCall(l), w.received, true);
      OrderBegin(w.calls, NewCall(l), w.sent, false);
    } else if l.Move? {
      var done := After(w.calls[l.i], l.turn);
      OneTurn(w.calls[l.i], l.turn);
      if l.turn.Got? && w.wire != [] {
        OrderJoin(w.calls, l.i, done, w.received, w.sent);
      } else if l.turn.Took? {
        OrderJoin(w.calls, l.i, done, w.sent, w.received);
      } else {
        OrderMove(w.calls, l.i, done, w.received, true);
        OrderMove(w.calls, l.i, done, w.sent, false);
      }
    }
  }

  /** The packet at the head of the queue reaches the call that receives it. */
  lemma HeadDelivered(w: World<seq<Packet>>, i: nat, turn: Turn)
    requires Possible(w, Move(i, turn)) && turn.Got? && w.wire != []
    ensures var done := After(w.calls[i], turn); done.phase.Finished? && done.reading && Delivered(done, w.wire[0])
  {
    PacketRead(w.calls[i], w.wire[0], turn);
    ScatterFlattens(w.calls[i].bufs, turn.data);
  }

  lemma GotAligned(w: World<seq<Packet>>, i: nat, turn: Turn)
    requires Possible(w, Move(i, turn)) && turn.Got? && w.wire != [] && Aligned(w)
    ensures Aligned(Next(w, Move(i, turn)))
  {
    var v := Next(w, Move(i, turn));
    NextPreserves(w, Move(i, turn));
    HeadDelivered(w, i, turn);
    var r := |w.received|;
    assert v.received[r] == i && v.calls[i] == After(w.calls[i], turn);
    forall k | 0 <= k < |v.wire| ensures v.wire[k] == SentPacket(v, r + 1 + k) {
      assert v.wire[k] == w.wire[k + 1];
    }
  }

  lemma TookAligned(w: World<seq<Packet>>, i: nat, turn: Turn)
    requires Possible(w, Move(i, turn)) && turn.Took? && Aligned(w)
    ensures Aligned(Next(w, Move(i, turn)))
  {
    var v := Next(w, Move(i, turn));
    NextPreserves(w, Move(i, turn));
    assert SentPacket(v, |w.sent|) == Flatten(w.calls[i].bufs);
    forall k | 0 <= k < |v.wire| ensures v.wire[k] == SentPacket(v, |v.received| + k) {
    }
  }

  lemma QuietAligned(w: World<seq<Packet>>, l: Label)
    requires Possible(w, l) && Aligned(w)
    requires l.Move? ==> !l.turn.Took? && (l.turn.Got? ==> w.wire == [])
    ensures Aligned(Next(w, l))
  {
    NextPreserves(w, l);
  }

  lemma NextInOrder(w: World<seq<Packet>>, l: Label)
    requires Possible(w, l) && InOrder(w)
    ensures InOrder(Next(w, l))
  {
    NextOrders(w, l);
    if l.Move? && l.turn.Got? && w.wire != [] {
      GotAligned(w, l.i, l.turn);
    } else if l.Move? && l.turn.Took? {
      TookAligned(w, l.i, l.turn);
    } else {
      QuietAligned(w, l);
    }
  }

  lemma {:induction false} RunInOrder(w: World<seq<Packet>>, labels: seq<Label>, v: World<seq<Packet>>)
    requires InOrder(w) && Run(w, labels, v)
    ensures InOrder(v)
    decreases |labels|
  {
    if labels != [] {
      NextInOrder(w, labels[0]);
      RunInOrder(Next(w, labels[0]), labels[1..], v);
    }
  }

  /**
    In every interleaving the k-th receive returned the k-th packet sent: its length when it fits and
    errMessageTruncated with the full buffers when it does not, and no packet is split or skipped. The two
    orders hold each call at most once, and every call that reported a byte.
   */
  lemma PacketConservation(labels: seq<Label>, v: World<seq<Packet>>)
    requires Run(Fresh(), labels, v)
    ensures InOrder(v)
    ensures OrderOk(v.calls, v.received, true) && OrderOk(v.calls, v.sent, false)
    ensures |v.sent| == |v.received| + |v.wire|
    ensures forall k :: 0 <= k < |v.received| ==>
              Delivered(v.calls[v.received[k]], SentPacket(v, k))
  {
    RunInOrder(Fresh(), labels, v);
  }
}
