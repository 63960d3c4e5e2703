/** Descriptors through a whole ReadVec: EnableFDs, the receive with its retries and waits, ExtractFDs or CloseFDs. */
module FdTransfer {
  import opened LittleEndian
  import opened ControlMessages
  import opened ControlMessageOps
  import opened ControlWalk
  import opened FdPassing
  import opened Iovecs
  import opened TransferCalls
  import opened TransferOps

  /** If this answer is a successful recvmsg, it installed `numbers` into a control buffer that held `buffer`. */
  predicate Installs(turn: Turn, numbers: seq<int>, buffer: seq<Byte>) {
    && |numbers| <= Room(|buffer|) && |numbers| < MAX_INTS && Descriptors(numbers)
    && (turn.Got? ==> turn.control == Delivered(numbers, buffer) && turn.controlLen == ControlLen(numbers, |buffer|))
  }

  predicate AllInstall(turns: seq<Turn>, numbers: seq<int>, buffer: seq<Byte>) {
    forall k :: 0 <= k < |turns| ==> Installs(turns[k], numbers, buffer)
  }

  /** The call received something: a message, a cut message, or the end. */
  predicate Succeeded(phase: Phase) {
    phase.Finished? && phase.err in {Nil, EOF, Truncated}
  }

  /** After the answer that ends it, the call's control message holds exactly the installed descriptors. */
  lemma {:induction false} AnswerDelivers(call: Call, turn: Turn, numbers: seq<int>)
    requires call.phase.Trying? && Fits(call, turn) && turn.Got? && Installs(turn, numbers, call.control)
    ensures Extract(TransferCalls.After(call, turn).control) == Fds(numbers)
  {
    ExtractReceived(numbers, call.control);
  }

  /**
    Whatever ReadVec goes through: when it succeeds, what it leaves in the control message is extracted
    as the installed descriptors, and when it does not, the control message is as it was.
   */
  lemma {:induction false} CallDelivers(call: Call, turns: seq<Turn>, numbers: seq<int>)
    requires call.reading && !call.phase.Finished? && AllFit(call, turns) && AllInstall(turns, numbers, call.control)
    ensures var done := Play(call, turns).done;
            if Succeeded(done.phase) then Extract(done.control) == Fds(numbers) else done.control == call.control
  {
    var used := OneTransfer(call, turns);
    if used != [] && Transfers(used[|used| - 1]) {
      var last := used[|used| - 1];
      assert turns[|used| - 1] == last;
      assert Installs(last, numbers, call.control);
      ExtractReceived(numbers, call.control);
    }
  }

  function Min(a: int, b: int): int {
    if a < b then a else b
  }

  /** Once `files` are installed under `numbers`, the i-th number is the file that the sender had under `fds[i]`. */
  predicate Arrive(fds: seq<int>, sender: map<int, File>, receiver: map<int, File>, files: seq<File>, numbers: seq<int>) {
    && |numbers| <= |fds| == |files|
    && forall i :: 0 <= i < |numbers| ==>
         && ToInt32(fds[i]) in sender && numbers[i] in Install(receiver, numbers, files)
         && Install(receiver, numbers, files)[numbers[i]] == sender[ToInt32(fds[i])]
  }

  lemma {:induction false} FilesArrive(fds: seq<int>, sender: map<int, File>, receiver: map<int, File>, numbers: seq<int>)
    requires |fds| <= SCM_MAX_FD && AllOpen(Truncate(fds), sender) && |numbers| <= |fds| && Distinct(numbers)
    ensures Send(Pack(fds), sender).Files?
    ensures Arrive(fds, sender, receiver, Send(Pack(fds), sender).files, numbers)
  {
    SendPacked(fds, sender);
    var files := Send(Pack(fds), sender).files;
    forall i | 0 <= i < |numbers|
      ensures ToInt32(fds[i]) in sender && numbers[i] in Install(receiver, numbers, files)
      ensures Install(receiver, numbers, files)[numbers[i]] == sender[ToInt32(fds[i])]
    {
      InstallAt(receiver, numbers, files, i);
      assert Truncate(fds)[i] == ToInt32(fds[i]);
    }
  }

  /**
    End to end, for a control buffer of the size EnableFDs(count) makes, a sender that packed open descriptors, no
    more than the kernel carries, and a kernel that installs as many descriptors as fit: a ReadVec that succeeds, after whatever retries and
    waits, leaves a control message from which exactly min(sent, 2*ceil(count/2)) numbers are extracted,
    the i-th of which is the file the sender packed as its i-th descriptor.
   */
  lemma {:induction false} EndToEnd(fds: seq<int>, sender: map<int, File>, receiver: map<int, File>, count: nat,
                                    call: Call, turns: seq<Turn>, numbers: seq<int>)
    requires |fds| <= SCM_MAX_FD && AllOpen(Truncate(fds), sender)
    requires |call.control| == CmsgSpace(4 * count)
    requires call.reading && !call.phase.Finished? && AllFit(call, turns) && Succeeded(Play(call, turns).done.phase)
    requires |numbers| == Min(|fds|, Room(|call.control|)) && Distinct(numbers) && AllInstall(turns, numbers, call.control)
    ensures Extract(Play(call, turns).done.control) == Fds(numbers)
    ensures |numbers| == Min(|fds|, 2 * ((count + 1) / 2))
    ensures Send(Pack(fds), sender).Files?
    ensures Arrive(fds, sender, receiver, Send(Pack(fds), sender).files, numbers)
  {
    CallDelivers(call, turns, numbers);
    RoomOfEnabled(count);
    FilesArrive(fds, sender, receiver, numbers);
  }

  /** Without EnableFDs, or with the bare header that EnableFDs(0) makes, a successful ReadVec yields no descriptors. */
  lemma {:induction false} NotEnabled(call: Call, turns: seq<Turn>, numbers: seq<int>)
    requires |call.control| <= HEADER_SIZE
    requires call.reading && !call.phase.Finished? && AllFit(call, turns) && Succeeded(Play(call, turns).done.phase)
    requires AllInstall(turns, numbers, call.control)
    ensures Extract(Play(call, turns).done.control) == Fds([])
  {
    CallDelivers(call, turns, numbers);
    var used := OneTransfer(call, turns);
    assert Installs(turns[|used| - 1], numbers, call.control);
    assert numbers == [];
  }

  /**
    The receiving side in full, from a control message as EnableFDs leaves it. Whether or not ReadVec
    succeeds, CloseFDs closes exactly what the kernel installed, in order, and leaves the descriptor table
    as it was before.
   */
  method ReceiveThenClose(cm: ControlMessage, reader: SocketReader, host: Host, bufs: seq<Slice>, process: Process,
                          files: seq<File>, numbers: seq<int>, ghost call: Call)
      returns (phase: Phase)
    requires AllInBounds(bufs) && cm.bytes == Zeros(|cm.bytes|)
    requires call == Call(true, reader.blocking, Contents(bufs), cm.bytes, Entering)
    requires AllFit(call, host.turns) && AllInstall(host.turns, numbers, call.control) && |numbers| <= |files|
    requires forall i :: 0 <= i < |numbers| ==> numbers[i] !in process.files
    modifies cm, reader, host, Mems(bufs), process
    ensures phase == Play(call, old(host.turns)).done.phase
    ensures process.files == old(process.files)
    ensures process.closed == old(process.closed) + if Succeeded(phase) then numbers else []
  {
    CallDelivers(call, host.turns, numbers);
    ExtractZeros(|cm.bytes|);
    InstallUndone(process.files, numbers, files);
    assert process.files - Elements([]) == process.files;
    reader.control := cm.bytes;
    phase := reader.ReadVec(host, bufs, call);
    cm.bytes := reader.control;
    if Succeeded(phase) {
      process.files := Install(process.files, numbers, files);
    }
    var panicked := cm.CloseFDs(process);
  }
}
