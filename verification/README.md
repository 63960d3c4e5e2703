# Verified model of the honey-sandbox sockets, sandbox names and environments

The project models, in Dafny 4.11, the parts of honey-sandbox whose correctness is not visible from one
function at a time, and proves what they promise.

* **Socket lifetime** (`SocketMachine`, `SocketRuns`, `SocketInvariant`, `SocketTheorems`,
  `ShutdownActions`, `GateCapacity`, `Ownership`, `SocketRefinement`, `SocketDrain`, `SocketCompletion`,
  `SocketResults`, `SocketOperations`). `unet.Socket` together with the netstack gate it relies on, as a
  step machine. Any number of threads run operations, Close and Release; a step is one atomic action of one
  thread: an atomic load, a compare-and-swap on the gate's word, a channel operation, a system call. The
  kernel's descriptor table is part of the state, and other parts of the program open and close descriptors
  of their own in it, so a descriptor number that is used too late could hit somebody else's file. The gate
  is not assumed: its Enter, Leave and Close loops are modelled action by action, including the places where
  they panic.
* **Vectored transfer** (`Vectors`, `Iovecs`, `TransferCalls`, `CallAnswers`, `TransferOps`, `AcceptOps`,
  `Calls`, `CallOrders`, `StreamRuns`, `PacketRuns`, `Ends`, `StreamEnds`, `PacketEnds`). `buildIovec`,
  `ReadVec`, `WriteVec`, `wait` and Accept's loop as methods over slices of the caller's memory, which may
  overlap, run against an arbitrary list of answers from the kernel and the gate; and runs of any number of
  such calls, interleaved answer by answer, on a stream and on a seqpacket connection that either end may
  close. Both rest on one function that says what a call does with its next answer.
* **Control messages** (`LittleEndian`, `ControlMessages`, `ControlWalk`, `ControlMessageOps`, `FdPassing`,
  `FdTransfer`). The bytes of SCM_RIGHTS messages on 64-bit Linux, as laid out by the macros of section 20.3
  of RFC 3542, Go's wrapping 64-bit sizes, the kernel's own parse of an outgoing message, and descriptors
  carried through a whole ReadVec.
* **Sandbox names** (`PowersOfTwo`, `Counting`, `LinearCongruence`, `Hexadecimal`, `Suffix`). The 32-bit
  generator, its full period, and how often a name can repeat.
* **Environments** (`Envs`). Last-writer-wins merging of environment lists.

What the kernel decides is a parameter: the answer of each system call, how much data a transfer moves, which
numbers received descriptors get, when calls fail, and when an end of a connection is closed or shut down.
The clock and process number in `reseed` are the `seed` argument of `NextSuffix`. Go maps iterate in an
arbitrary order, which is an arbitrary choice in `Reassemble`. `close` on a descriptor may fail with or without
freeing it; both are possible in every state.

## Where the code differs from its comments, and edge cases it has

* The comment on Release says that concurrent callers receive EBADF. It holds for an operation under way at
  the swap if and only if the operation has not yet made its system call, is back in `wait` before its poll, is
  itself a Close or Release, or is on its way out with EBADF already. One that is in its system call or its
  poll, or on its way out with another result, can return another result (`EBADFScope`; `ResultScope` gives
  every result of each of them). In the run of `ReleaseWithoutEBADF` a transfer under way at the swap returns
  success and so does the Release. Operations that start after the swap always get EBADF
  (`LateOperationsGetEBADF`).
* The comment in ReadVec says that a read of length 0 means that the other end is closed. ReadVec reports
  io.EOF in three other situations: a receive of an empty packet, a read from a stream into empty buffers, and
  a read on a connection that its own end shut down, as Close does before it evicts its readers. io.EOF means
  that the sender is closed and everything it sent was read if and only if the program does none of what makes
  these possible (`StreamEnds.EOFScope`, `PacketEnds.EOFScope`).
* The comment on NewSocket says that it takes ownership of the descriptor, but when it fails it leaves the
  descriptor open, and Accept, which has the only copy of the number, drops it (`AcceptConnection`).
* Gate.Enter promises to succeed while the gate is open. With 2^31 threads inside at once the count runs into
  the closed bit and the next Leave panics; with fewer threads this cannot happen (`PanicsIffTooManyThreads`).
* ExtractFDs returns an error for a message of another kind, but a descriptor list whose length is not a
  multiple of 4 makes it panic; `PanicsExactly` says for which buffers. A control message that EnableFDs made
  and no ReadVec has used gives an error, not an empty list (`ExtractZeros`).
* EnableFDs promises room for at least `count` descriptors. For counts from 0 on it keeps the promise exactly up
  to 2^46 - 4 (`EnableGuarantee`). Counts of -6 and below and larger ones make it panic, until four times the
  count wraps around: 2^61 panics, 2^62 gives a buffer with no room (`EnablePanics`, `EnableWraps`).

## Model

`NextInv` rests on one lemma per group of steps (`EnterKeeps`, `UseKeeps`, `LeaveKeeps`, `GateKeeps`,
`DisposeKeeps`); `LosersGetEBADF` is the single step of what `ResultScope` says, over runs, of a Close or
Release that comes too late.

| member | source | states |
|---|---|---|
| SocketInvariant.NextInv | server/gvisor/unet/unet.go:109-199 | every atomic step of every thread, and every foreign open or close, keeps the invariant that ties cell, gate word, channel, eventfd, descriptor table and all program counters together |
| SocketInvariant.RunInv | server/gvisor/unet/unet.go:109-199 | the invariant holds after every run |
| SocketTheorems.BorrowedStaysOwned | server/gvisor/unet/unet.go:181-199 | a descriptor returned by enterFD stays open and this socket's until the thread has left the gate, and so does the eventfd |
| SocketTheorems.CallsHitOwnDescriptors | server/gvisor/unet/unet_unsafe.go:31-71 | no pending system call of any thread, including a poll on a stale copy and the closers' own calls, names a descriptor the socket no longer owns |
| SocketTheorems.OneWinner | server/gvisor/unet/unet.go:126-164 | over all interleavings one call wins the swap; the eventfd is written and closed, the gate closed and the socket closed or returned at most once, never both, and neither when finish failed; a winning Close has shut the connection down once by the time the eventfd is written, a Release never does, and only a Close closes and only a Release returns |
| SocketTheorems.WinnerReports | server/gvisor/unet/unet.go:109-164 | the winner reports success exactly when the descriptor was closed or handed out; otherwise the reason is recorded, and when finish failed the descriptor is still open and the socket's |
| ShutdownActions.TimesRecorded | server/gvisor/unet/unet.go:109-164 | the history kept in the state counts the actions that a run performs |
| ShutdownActions.AtMostOnce | server/gvisor/unet/unet.go:109-164 | along every run each action of the shutdown happens at most once and only after those it must follow, the socket is not both closed and returned, and the connection is shut down exactly once per winning Close and never for a Release |
| SocketTheorems.GateCountsInside | vendor/github.com/google/netstack/gate/gate.go:60-105 | the gate's count is the number of threads inside, its closed bit is set exactly when Close set it, and none of its panics happens |
| SocketTheorems.LateOperationsGetEBADF | server/gvisor/unet/unet.go:126-199 | an operation that starts after the swap never holds a descriptor, makes no system call and returns EBADF |
| SocketTheorems.EBADFMeansClosing | server/gvisor/unet/unet.go:187-199 | conversely, in every reachable state no thread has EBADF as its result unless a Close or Release has made its swap |
| SocketTheorems.MarksAreComplete | server/gvisor/unet/unet.go:126-199 | after the swap every operation that starts is one of those |
| SocketTheorems.EnterLeaveBalance | server/gvisor/unet/unet_unsafe.go:116-152 | along every run of every thread each successful Enter is matched by exactly one Leave, whatever is retried in between |
| GateCapacity.EnterMany | vendor/github.com/google/netstack/gate/gate.go:69-84 | any number of threads up to 2^31 can be inside at once |
| GateCapacity.OverflowPanics | vendor/github.com/google/netstack/gate/gate.go:91-96 | with 2^31 threads there is a run in which Leave panics |
| GateCapacity.PanicsIffTooManyThreads | vendor/github.com/google/netstack/gate/gate.go:12-17 | a fresh socket can panic in some run if and only if there are 2^31 threads or more |
| Ownership.DisposedHasNoBorrowers | server/gvisor/unet/unet.go:109-123 | in the ownership machine a disposed socket has no borrowers |
| SocketRefinement.StepRefines | server/gvisor/unet/unet.go:126-199 | every concrete step is one act of the ownership machine (borrow, return, begin closing, dispose with no borrowers, abandon) or a stutter |
| SocketRefinement.RunRefines | server/gvisor/unet/unet.go:126-199 | every run of a fresh socket is a behaviour of a fresh owner |
| SocketRefinement.DisposalIsTheOnlyLoss | server/gvisor/unet/unet.go:142-163 | the descriptor leaves the socket's hands only in the abstract disposal step, with nobody borrowing it |
| SocketDrain.ActorsRun | server/gvisor/unet/unet.go:109-164 | while a shutdown is under way its winner is where the shared state says, and so is the thread that must close the gate's channel |
| SocketDrain.InsideNeverStuck | server/gvisor/unet/unet_unsafe.go:31-71 | after the eventfd write every thread inside has a move that needs nothing from the peer and puts it on its way out; for a waiting thread that move (the next look at the cell, or a poll that succeeds) ends in EBADF |
| SocketDrain.WaitersLeave | server/gvisor/unet/unet_unsafe.go:31-71 | after the eventfd write every move of a waiting thread other than an interrupted poll takes it out of the wait with EBADF, unless its poll fails, and then with the poll's error |
| SocketDrain.ShutdownNeverStuck | server/gvisor/unet/unet.go:109-123 | no reachable state has Close or Release stuck: a named thread (the closer, a thread inside, or the last one to leave) can always move without the peer |
| SocketDrain.DrainStep | vendor/github.com/google/netstack/gate/gate.go:111-124 | once the gate is shut no step of anybody raises the potential, and each uninterrupted move inside lowers it |
| SocketDrain.DrainIsBounded | server/gvisor/unet/unet_unsafe.go:31-71 | from then on the n threads inside make at most n*n + 5n uninterrupted moves in any continuation |
| SocketCompletion.ShutdownCompletes | server/gvisor/unet/unet.go:109-164 | from every reachable state with a shutdown under way there is a run of such moves to its success: the socket closed or handed out as the call asked, the call returning no error, idle threads untouched |
| SocketResults.ResultScope | server/gvisor/unet/unet.go:150-199 | exactly which results each operation under way once the cell holds -1 can still have, losing calls of Close and Release included, for every reachable state and result |
| SocketResults.EBADFScope | server/gvisor/unet/unet.go:149-157 | such an operation must get EBADF if and only if it is not in its system call, its poll, or on its way out with another result |
| SocketResults.ReleaseWithoutEBADF | server/gvisor/unet/unet.go:149-164 | on every fresh socket there is a run in which a transfer under way at the swap of a Release returns success and the Release succeeds |
| SocketOperations.EnterSucceeds | vendor/github.com/google/netstack/gate/gate.go:69-84 | on an open socket a thread anywhere in enterFD reaches its system call on the socket's descriptor in four steps of its own or fewer, whatever compare-and-swaps it lost before |
| SocketOperations.OperationFollowsAnswers | server/gvisor/unet/unet_unsafe.go:31-71 | along every run of every interleaving an operation succeeds exactly when its last call did, has EBADF exactly when gate, cell or eventfd turned it away, another error exactly when a call or a poll ended it with one, and otherwise retries or waits as its kind and the answer say |
| SocketOperations.LeaveSucceeds | vendor/github.com/google/netstack/gate/gate.go:91-105 | in every state a thread on its way out is out, with the result it had, after four steps of its own or fewer |
| SocketOperations.StartedKind | server/gvisor/unet/unet.go:126-164 | a call of Close stays a Close and a Release a Release until it returns |
| SocketOperations.ShutdownAnswerIgnored | server/gvisor/unet/unet.go:135-140 | whatever the shutdown call answers, the eventfd is written next |
| SocketOperations.EveryAnswerPossible | server/gvisor/unet/unet_unsafe.go:31-71 | in every reachable state a thread has a step for exactly the answers the kernel can give it there, and only the wait for the channel can block |
| SocketOperations.ClosesDescriptors | server/gvisor/unet/unet.go:122-142 | closing the eventfd or the socket takes it out of the table, a failing close only if the kernel freed it, and then the call returns the error |
| SocketOperations.ChannelMade | vendor/github.com/google/netstack/gate/gate.go:111-124 | Gate.Close makes a channel only if it saw somebody inside |
| Vectors.ScatterFlattens | server/gvisor/unet/unet_unsafe.go:90-128 | data that fits ends up at the front of the flattened buffers in order, the rest and all lengths unchanged |
| Iovecs.BuildIovec | server/gvisor/unet/unet_unsafe.go:76-88 | appends one segment per non-empty buffer, in order, and returns the total length |
| Iovecs.SegmentsGather | server/gvisor/unet/unet_unsafe.go:76-88 | the segments' bytes together are the bytes of all buffers together |
| Iovecs.OverlaySegments | server/gvisor/unet/unet_unsafe.go:76-88 | filling the non-empty buffers only leaves the same memory as filling all of them, overlapping or not |
| Iovecs.OverlayScatters | server/gvisor/unet/unet_unsafe.go:76-128 | when no buffers overlap, each ends up with its share of the data and its old contents after that |
| Iovecs.OverlayBrings | server/gvisor/unet/unet_unsafe.go:76-128 | also when buffers overlap, each byte of memory is the byte of the data that the last buffer covering it brings |
| TransferOps.SocketReader.ReadVec | server/gvisor/unet/unet_unsafe.go:94-179 | for every list of answers and any buffers ReadVec ends where the call machine ends and where the last answer it met puts it, with the received data laid over memory in order, each buffer holding its share when none overlap, and it leaves the gate exactly if it returned |
| TransferOps.SocketReader.Receive | server/gvisor/unet/unet_unsafe.go:121-178 | the same for its loop, from inside the gate |
| TransferOps.SocketWriter.WriteVec | server/gvisor/unet/unet_unsafe.go:185-244 | the same for WriteVec; it sends, only when it succeeds and once, the first bytes of all buffers together, as many as it reports, with its control message |
| TransferOps.Host.Wait | server/gvisor/unet/unet_unsafe.go:31-71 | wait takes interruptions and then one answer: it ends ready exactly on Ready, closing exactly on Closing, and with the poll's error on a failure |
| TransferOps.Host.Recover | server/gvisor/unet/unet_unsafe.go:129-150 | what both loops do after a call that failed: retry, wait, or leave the gate once and return the error |
| TransferCalls.OneTransfer | server/gvisor/unet/unet_unsafe.go:94-244 | only a call's last answer moves data; retries leave buffers and control message alone, and success, truncation or EOF mean exactly one successful system call |
| CallAnswers.CallFollowsAnswers | server/gvisor/unet/unet_unsafe.go:94-244 | a call goes on until an answer decides it, and stands where the last answer other than an interruption puts it |
| CallAnswers.ResultExactly | server/gvisor/unet/unet_unsafe.go:94-244 | what a call returns by the last answer it met: EBADF exactly for a closed gate or a wait told of the closing, EAGAIN exactly for a would-block without blocking, an error number exactly for a failure with it, and counts, truncation and EOF for a success |
| CallAnswers.WaitAnswered | server/gvisor/unet/unet_unsafe.go:64-69 | after any number of interruptions a waiting call tries again on Ready with the answers left, ends with EBADF on Closing, and with the poll's error on a failure |
| TransferCalls.ReadFits | server/gvisor/unet/unet_unsafe.go:152-178 | after a read of n bytes that fits, the flattened buffers are those bytes followed by the old contents from n on |
| TransferCalls.PacketRead | server/gvisor/unet/unet_unsafe.go:162-178 | a non-empty packet is reported truncated exactly when longer than all buffers; the result is then their total length and they hold the packet's start |
| AcceptOps.AcceptConnection | server/gvisor/unet/unet.go:526-548 | after would-blocks that it waits out, an accepted connection gives a socket with that descriptor and a new eventfd, or NewSocket's error and a lost descriptor; any other answer gives its error, a wait told of the closing EBADF, a failed poll its error; it leaves the gate exactly if it returned |
| AcceptOps.NewSocket | server/gvisor/unet/unet.go:91-107 | a socket with the given descriptor and the new eventfd exactly if that was made, otherwise the error of the step that failed, with the given descriptor left open |
| AcceptOps.PolicyAgrees | server/gvisor/unet/unet.go:533-547 | Accept ends on an answer exactly as the retry policy of the socket machine says |
| StreamRuns.StreamConservation | server/gvisor/unet/unet_unsafe.go:94-244 | in every interleaving the bytes returned by reads are a prefix of those reported by writes, the difference is still queued, and each call counts once |
| StreamRuns.NextConserved | server/gvisor/unet/unet_unsafe.go:121-242 | each answer to any call keeps that |
| PacketRuns.PacketConservation | server/gvisor/unet/unet_unsafe.go:94-244 | in every interleaving the k-th receive returns the k-th packet sent, whole or truncated, the packets not received are still queued, and the two orders hold each call once and every call that reported a byte |
| StreamEnds.EndExactly | server/gvisor/unet/unet_unsafe.go:162-167 | a read that is trying on a stream can be answered with io.EOF exactly when it has no room, or the queue is empty and either end is closed, and then every successful receive gives it |
| StreamEnds.EOFScope | server/gvisor/unet/unet_unsafe.go:162-167 | io.EOF means that the sender is closed and everything was read, in every run of a program, if and only if the program makes no empty reads and does not shut its own end down |
| StreamEnds.EOFMeansAllRead | server/gvisor/unet/unet_unsafe.go:162-167 | in such a program, once a read reports io.EOF the reads together have returned every byte ever written |
| PacketEnds.EndExactly | server/gvisor/unet/unet_unsafe.go:162-167 | a read that is trying for a packet can be answered with io.EOF exactly when the packet is empty, or the queue is empty and either end is closed, and then every successful receive gives it |
| PacketEnds.EOFScope | server/gvisor/unet/unet_unsafe.go:162-167 | the same for packets, if and only if the program writes no empty packets and does not shut its own end down |
| PacketEnds.EOFMeansAllRead | server/gvisor/unet/unet_unsafe.go:162-167 | in such a program, once a read reports io.EOF every packet ever sent has been received, in order |
| LittleEndian.Encode64 | vendor/golang.org/x/sys/unix/sockcmsg_unix.go:72-80 | the header's length field decodes to what was stored |
| LittleEndian.EncodeInt32 | vendor/golang.org/x/sys/unix/sockcmsg_unix.go:82-85 | a stored descriptor decodes to its 32-bit truncation |
| ControlMessages.RoundTrip | server/gvisor/unet/unet.go:266-307 | ExtractFDs after PackFDs gives the list back if and only if all ints are non-negative 32-bit numbers |
| ControlMessages.ExtractAfterPack | server/gvisor/unet/unet.go:266-307 | for any ints it gives their 32-bit truncations without the negative ones |
| ControlMessages.RoundTripTwo | vendor/golang.org/x/sys/unix/sockcmsg_unix.go:49-62 | two packed messages in one buffer are extracted in order |
| ControlMessages.ExtractedAreDescriptors | server/gvisor/unet/unet.go:269-288 | whatever the bytes, everything extracted is a non-negative 32-bit number |
| ControlMessages.PanicsExactly | vendor/golang.org/x/sys/unix/sockcmsg_unix.go:89-104 | on arbitrary bytes ExtractFDs panics exactly when the first message that is not a well-formed list is a list of the wrong length |
| ControlMessages.PanicExample | vendor/golang.org/x/sys/unix/sockcmsg_unix.go:98-102 | a 17-byte buffer that panics |
| ControlWalk.ParseFailsExactly | vendor/golang.org/x/sys/unix/sockcmsg_unix.go:49-70 | parsing fails if and only if whole messages, each at the next multiple of 8 after the one before, lead from offset 0 to a header whose length is below 16 or beyond the buffer |
| ControlWalk.ParseFindsExactly | vendor/golang.org/x/sys/unix/sockcmsg_unix.go:49-70 | it gives these messages if and only if they are the level, type and data at the offsets of such a chain that ends where no header fits |
| ControlWalk.ExtractExactly | server/gvisor/unet/unet.go:269-288 | EINVAL if and only if the bytes are rejected or the first message that is not a whole descriptor list is of another kind; a list if and only if all messages are such lists, and then all their descriptors in order without the negative ones |
| ControlWalk.ExtractZeros | server/gvisor/unet/unet.go:262-288 | what EnableFDs leaves is EINVAL from 16 bytes on and an empty list below |
| ControlWalk.ZerosAfterPacked | vendor/golang.org/x/sys/unix/sockcmsg_unix.go:49-62 | a packed list with a zeroed header after it is rejected as a whole |
| ControlWalk.PackedBytes | vendor/golang.org/x/sys/unix/sockcmsg_unix.go:74-87 | the header and the padding of a packed list, byte by byte |
| ControlWalk.PackedInt | vendor/golang.org/x/sys/unix/sockcmsg_unix.go:82-85 | each descriptor of a packed list, byte by byte |
| ControlMessageOps.UnixRights | vendor/golang.org/x/sys/unix/sockcmsg_unix.go:74-87 | the pointer writes produce the packed bytes |
| ControlMessageOps.ParseSocketControlMessage | vendor/golang.org/x/sys/unix/sockcmsg_unix.go:49-70 | the loop over arbitrary bytes terminates, stays in bounds, fails exactly on rejected bytes and otherwise gives the messages they carry |
| ControlMessageOps.ParseUnixRights | vendor/golang.org/x/sys/unix/sockcmsg_unix.go:91-104 | the decoded list, EINVAL, or a panic when the length is not a multiple of 4 |
| ControlMessageOps.ReadInts | vendor/golang.org/x/sys/unix/sockcmsg_unix.go:98-103 | its loop decodes the whole list, or runs past the end of the result exactly when the length is not a multiple of 4 |
| ControlMessageOps.ControlMessage.EnableFDs | server/gvisor/unet/unet.go:262-264 | a zeroed buffer of the size computed in wrapping 64-bit arithmetic, or a panic exactly when that is negative or more than make allocates |
| ControlMessages.EnablePanics | server/gvisor/unet/unet.go:262-264 | it panics if and only if four times the count, wrapped, is at most -24 or above 2^48 - 16; otherwise the size is that of a message with that much data |
| ControlMessageOps.ControlMessage.PackFDs | server/gvisor/unet/unet.go:305-307 | replaces the bytes by the packed list |
| ControlMessageOps.ControlMessage.UnpackFDs | server/gvisor/unet/unet.go:310-312 | clears the bytes |
| ControlMessageOps.ControlMessage.ExtractFDs | server/gvisor/unet/unet.go:269-288 | the loops give the extracted list, error or panic of the specification |
| ControlMessageOps.ControlMessage.CloseFDs | server/gvisor/unet/unet.go:293-300 | closes exactly the extracted descriptors, in order, and nothing when extraction fails |
| FdPassing.SendPacked | server/gvisor/unet/unet.go:302-307 | sendmsg takes what PackFDs wrote if and only if there are at most 253 ints and each, cut to 32 bits, is an open descriptor, and then carries those files in order |
| FdPassing.ExtractReceived | server/gvisor/unet/unet_unsafe.go:152-156 | after ReadVec's trim exactly the installed descriptors are extracted, whatever the buffer held before |
| FdPassing.EnableGuarantee | server/gvisor/unet/unet.go:255-264 | for counts from 0 on, the buffer exists and has room for at least count descriptors if and only if count is at most 2^46 - 4; the room is then count rounded up to an even number |
| FdTransfer.CallDelivers | server/gvisor/unet/unet_unsafe.go:94-179 | whatever retries and waits a ReadVec goes through, when it succeeds ExtractFDs gives exactly the descriptors its recvmsg installed, and otherwise the control message is as it was |
| FdTransfer.EndToEnd | server/gvisor/unet/unet.go:255-307 | after a ReadVec that succeeds the receiver extracts exactly min(sent, 2*ceil(count/2)) descriptors, the i-th being the i-th file packed |
| FdTransfer.NotEnabled | server/gvisor/unet/unet.go:255-264 | with no control buffer, or a bare header, the list is empty |
| FdTransfer.ReceiveThenClose | server/gvisor/unet/unet_test.go:424-487 | ReadVec and then CloseFDs closes exactly the descriptors that were installed and restores the table, whether or not ReadVec succeeds |
| PowersOfTwo.DividesIsModulo | server/gvisor/gvisor_linux.go:483-484 | divisibility by 2^k, taken bit by bit, is a zero remainder |
| LinearCongruence.SeriesDivisibility | server/gvisor/gvisor_linux.go:483-484 | 2^k divides 1 + a + ... + a^(n-1) if and only if it divides n |
| LinearCongruence.ClosedForm | server/gvisor/gvisor_linux.go:483-484 | the n-th state in closed form up to a multiple of 2^32 |
| LinearCongruence.FullPeriod | server/gvisor/gvisor_linux.go:483-484 | from every state the generator returns to it after n steps if and only if 2^32 divides n |
| LinearCongruence.EveryStateVisited | server/gvisor/gvisor_linux.go:483-484 | every 32-bit value is reached from every other within 2^32 steps |
| Suffix.Source.NextSuffix | server/gvisor/gvisor_linux.go:477-487 | the new state is 1664525 times the old one, or times the seed if that was 0, plus 1013904223 modulo 2^32, and the result is eight digits for 1e9 plus its remainder modulo 1e9 |
| Suffix.SeedDecides | server/gvisor/gvisor_linux.go:477-487 | from a call that finds 0 until 0 is found again the states are the iterates of that call's seed |
| Suffix.SeedIgnored | server/gvisor/gvisor_linux.go:479-484 | a call that finds another state does not use its seed |
| Suffix.SeedsTellApart | server/gvisor/gvisor_linux.go:473-484 | two fresh sources come to the same first state if and only if their seeds are equal |
| Suffix.NameShape | server/gvisor/gvisor_linux.go:486-486 | a name is eight lower-case hex digits that decode to a number in [1e9, 2e9), without 32-bit overflow |
| Suffix.LinkNameFits | server/gvisor/gvisor_linux.go:340-342 | the link name has 13 characters, within Linux's 15, and determines the number |
| Suffix.SameName | server/gvisor/gvisor_linux.go:486-486 | two states share a name exactly when they agree modulo 1e9 |
| Suffix.NoRepeatWithinSeeding | server/gvisor/gvisor_linux.go:477-487 | within one seeding, however long, no state occurs twice |
| Suffix.SeedingEnds | server/gvisor/gvisor_linux.go:477-487 | any 2^32 consecutive calls produce state 0, after which the next call seeds again |
| Suffix.NamesWithinSeeding | server/gvisor/gvisor_linux.go:477-487 | within one seeding a name is issued at most five times, or four when its remainder is at least 294967296 |
| Suffix.FullSeedingIsExact | server/gvisor/gvisor_linux.go:477-487 | a seeding of 2^32 calls issues every name exactly that often |
| Suffix.FullSeedingStart | server/gvisor/gvisor_linux.go:477-487 | such a seeding starts from the seed 0 |
| Suffix.FullSeedingExists | server/gvisor/gvisor_linux.go:477-487 | and there is one |
| Envs.SplitExact | server/gvisor/gvisor_linux.go:172-176 | a string splits into a name without '=' and a value in exactly one way, at its first '=' |
| Envs.SplitInvalid | server/gvisor/gvisor_linux.go:172-175 | a string is rejected exactly when it has no '=' |
| Envs.ResolveEnvs | server/gvisor/gvisor_linux.go:166-186 | fails exactly when some string has no equals sign, naming the first one; otherwise lists the merged map in some order |
| Envs.Reassemble | server/gvisor/gvisor_linux.go:179-185 | for any iteration order the result is a listing of the map |
| Envs.LastWriterWins | server/gvisor/gvisor_linux.go:163-178 | a name has a value in the merged map exactly when that is the value of its last occurrence |
| Envs.MergeConcat | server/gvisor/gvisor_linux.go:163-178 | merging a concatenation is merging both parts, the later overriding |
| Envs.OncePerName | server/gvisor/gvisor_linux.go:179-185 | each name occurs in the output exactly once, with its value |
| Envs.ListingMergesBack | server/gvisor/gvisor_linux.go:163-186 | splitting the output again gives back the same map |
| Envs.Idempotent | server/gvisor/gvisor_linux.go:163-186 | resolving the output again changes at most its order |
| Envs.Incremental | server/gvisor/gvisor_linux.go:163-186 | resolving (A, B) fails or gives the same map as resolving (resolve(A), B), whatever order the inner call used |
| Envs.Regrouping | server/gvisor/gvisor_linux.go:166-171 | only the sequence of strings counts, not how it is cut into lists |

## Left out

- The lifetime protocol is a step machine on values, not a class: its steps belong to different threads.
- Lock-freedom of the compare-and-swap loops: Gate.Close's own loop can be delayed by threads that keep entering and leaving; the bound in `DrainIsBounded` starts when the gate is shut.
- `Socket.FD`, which the source declares unsafe beside Close and Release, and the race-detector variable.
- GetSockName and GetPeerName beyond their entering and leaving of the gate; their buffers never grow.
- Descriptors left open when NewSocket fails in Connect and Bind, as they are in Accept.
- Credentials in an outgoing control message, which the kernel would take; PackFDs never writes any.
- Descriptors the kernel fails to install for lack of table space after having installed fewer (`ExtractReceived` and `CallDelivers` cover any number installed).
- Running out of memory: below the allocation limit `make` is taken to succeed.
- Addresses in the message header: Reader and Writer never set them.
- Sizes beyond the address space elsewhere than in EnableFDs: byte counts are unbounded integers, and a list of ints is assumed to fit a Go slice.
- The mutex around the generator: NextSuffix is one step, as the mutex makes it.
- Network, container, web and start-up code: external effects and wiring.
