/** Descriptors travelling over a socket: PackFDs, sendmsg, recvmsg, the trim in ReadVec, ExtractFDs, CloseFDs. */
module FdPassing {
  import opened LittleEndian
  import opened ControlMessages
  import opened ControlMessageOps

  datatype Sent = Files(files: seq<File>) | Refused

  /** The kernel carries no more descriptors in one message. */
  const SCM_MAX_FD: nat := 253

  /** The whole four-byte words of a message's data. */
  function Words(data: seq<Byte>): seq<int> {
    DecodeInts(data[..|data| - |data| % 4])
  }

  /**
    The descriptor numbers that sendmsg finds in the messages: it passes over other levels, and refuses
    other types (credentials, which it would take, are never written here).
   */
  function KernelFds(msgs: seq<Message>): Rights {
    if msgs == [] then Fds([])
    else if msgs[0].level != SOL_SOCKET then KernelFds(msgs[1..])
    else if msgs[0].typ != SCM_RIGHTS then EINVAL
    else Prepend(Words(msgs[0].data), KernelFds(msgs[1..]))
  }

  /** Every number is an open descriptor. */
  predicate AllOpen(fds: seq<int>, table: map<int, File>) {
    forall i :: 0 <= i < |fds| ==> fds[i] >= 0 && fds[i] in table
  }

  /** sendmsg: the files it takes from the sender's table, in order. */
  function Send(control: seq<Byte>, sender: map<int, File>): Sent {
    match Parse(control)
    case Malformed => Refused
    case Messages(msgs) =>
      match KernelFds(msgs)
      case Fds(fds) =>
        if |fds| <= SCM_MAX_FD && AllOpen(fds, sender) then
          Files(seq(|fds|, i requires 0 <= i < |fds| => sender[fds[i]]))
        else Refused
      case _ => Refused
  }

  lemma {:induction false} ParsePackedAlone(fds: seq<int>)
    requires |fds| < MAX_INTS
    ensures Parse(Pack(fds)) == Messages([RightsMessage(fds)])
  {
    ParsePacked(fds, []);
    assert Pack(fds) + [] == Pack(fds) && Parse([]) == Messages([]);
  }

  lemma {:induction false} KernelFdsPacked(fds: seq<int>)
    ensures KernelFds([RightsMessage(fds)]) == Fds(Truncate(fds))
  {
    var m := RightsMessage(fds);
    DecodeOfEncode(fds);
    assert m.data[..|m.data|] == m.data;
    assert [m][1..] == [] && Truncate(fds) + [] == Truncate(fds);
    assert KernelFds([m]) == Prepend(Words(m.data), KernelFds([]));
  }

  /**
    sendmsg takes what PackFDs wrote exactly when there are at most 253 ints and each, cut to 32 bits, is
    an open descriptor; then those are the files, in order.
   */
  lemma {:induction false} SendPacked(fds: seq<int>, sender: map<int, File>)
    requires |fds| < MAX_INTS
    ensures Send(Pack(fds), sender).Files? <==> |fds| <= SCM_MAX_FD && AllOpen(Truncate(fds), sender)
    ensures Send(Pack(fds), sender).Files? ==>
              var files := Send(Pack(fds), sender).files;
              |files| == |fds| && forall i :: 0 <= i < |fds| ==> files[i] == sender[ToInt32(fds[i])]
  {
    ParsePackedAlone(fds);
    KernelFdsPacked(fds);
  }

  /** How many descriptors recvmsg has room for in a control buffer. */
  function Room(size: nat): nat {
    if size <= HEADER_SIZE then 0 else (size - HEADER_SIZE) / 4
  }

  /** The buffer after recvmsg installed `numbers`; the padding is not written. */
  function Delivered(numbers: seq<int>, buffer: seq<Byte>): (b: seq<Byte>)
    requires |numbers| <= Room(|buffer|) && |numbers| < MAX_INTS
    ensures |b| == |buffer|
  {
    if numbers == [] then buffer
    else
      var n := CmsgLen(4 * |numbers|);
      Header(n, SOL_SOCKET, SCM_RIGHTS) + (EncodeInts(numbers) + buffer[n..])
  }

  /** The Controllen that recvmsg reports for it. */
  function ControlLen(numbers: seq<int>, size: nat): (n: nat)
    ensures n <= size
  {
    if numbers == [] then 0
    else if CmsgSpace(4 * |numbers|) < size then CmsgSpace(4 * |numbers|)
    else size
  }

  /** The end of ReadVec: the message is cut to the reported length. */
  function Trim(control: seq<Byte>, controlLen: nat): seq<Byte> {
    if controlLen < |control| then control[..controlLen] else control
  }

  function Received(numbers: seq<int>, buffer: seq<Byte>): seq<Byte>
    requires |numbers| <= Room(|buffer|) && |numbers| < MAX_INTS
  {
    Trim(Delivered(numbers, buffer), ControlLen(numbers, |buffer|))
  }

  /** What was installed is what is extracted, whatever was in the buffer before. */
  lemma {:induction false} ExtractReceived(numbers: seq<int>, buffer: seq<Byte>)
    requires |numbers| <= Room(|buffer|) && |numbers| < MAX_INTS && Descriptors(numbers)
    ensures Extract(Received(numbers, buffer)) == Fds(numbers)
  {
    var got := Received(numbers, buffer);
    if numbers == [] {
      assert got == [];
    } else {
      var tail := ReceivedShape(numbers, buffer);
      ParseFirst(numbers, tail);
      AlignShift(4 * |numbers|);
      ExtractSingle(got, numbers);
    }
  }

  /** A buffer with one list of descriptors and nothing but padding after it. */
  lemma ExtractSingle(b: seq<Byte>, fds: seq<int>)
    requires |b| >= HEADER_SIZE && HEADER_SIZE <= LenField(b) <= |b| <= Align(LenField(b))
    requires MessageAt(b) == RightsMessage(fds) && Descriptors(fds)
    ensures Extract(b) == Fds(fds)
  {
    var m := RightsMessage(fds);
    assert After(b) == [] && Parse([]) == Messages([]);
    assert Parse(b) == Messages([m]);
    DecodeOfEncode(fds);
    TruncateFixes(fds);
    assert RightsOf(m) == Fds(Truncate(fds));
    assert [m][1..] == [] && fds + [] == fds;
    assert Collect([m]) == Prepend(fds, Collect([]));
  }

  lemma {:induction false} ReceivedShape(numbers: seq<int>, buffer: seq<Byte>) returns (tail: seq<Byte>)
    requires 0 < |numbers| <= Room(|buffer|) && |numbers| < MAX_INTS
    ensures Received(numbers, buffer)
            == Header(CmsgLen(4 * |numbers|), SOL_SOCKET, SCM_RIGHTS) + (EncodeInts(numbers) + tail)
    ensures |Received(numbers, buffer)| <= CmsgSpace(4 * |numbers|)
  {
    var n := CmsgLen(4 * |numbers|);
    var len := ControlLen(numbers, |buffer|);
    tail := buffer[n..len];
    CutTail(Header(n, SOL_SOCKET, SCM_RIGHTS), EncodeInts(numbers), buffer, n, len);
  }

  lemma CutTail(header: seq<Byte>, ints: seq<Byte>, buffer: seq<Byte>, n: nat, len: nat)
    requires |header| + |ints| == n <= len <= |buffer|
    ensures (header + (ints + buffer[n..]))[..len] == header + (ints + buffer[n..len])
    ensures len == |buffer| ==> header + (ints + buffer[n..]) == header + (ints + buffer[n..len])
  {
  }

  /** Room for `count` descriptors is room for `count` rounded up to an even number. */
  lemma RoomOfEnabled(count: nat)
    ensures Room(CmsgSpace(4 * count)) == 2 * ((count + 1) / 2)
  {
    AlignUnique(4 * count, (count + 1) / 2);
  }

  /**
    EnableFDs's promise of room for at least `count` descriptors holds, for the counts that ask for any,
    exactly up to 2^46 - 4; the room is then `count` rounded up to an even number.
   */
  lemma {:induction false} EnableGuarantee(count: Int64)
    requires count >= 0
    ensures Allocates(BufferSize(count)) && Room(BufferSize(count)) >= count <==> count <= 0x3FFF_FFFF_FFFC
    ensures count <= 0x3FFF_FFFF_FFFC ==>
              BufferSize(count) == CmsgSpace(4 * count) && Room(BufferSize(count)) == 2 * ((count + 1) / 2)
  {
    EnablePanics(count);
    if count < 0x2000_0000_0000_0000 {
      EnablePanicsUnwrapped(count);
      assert Wrap64(4 * count) == 4 * count;
      RoomOfEnabled(count);
    } else {
      assert Allocates(BufferSize(count)) ==> Room(BufferSize(count)) <= MAX_ALLOC;
    }
  }

  lemma AlignUnique(n: int, k: int)
    requires n <= 8 * k < n + 8
    ensures Align(n) == 8 * k
  {
    var r := Align(n) / 8;
    assert Align(n) == 8 * r;
  }

  predicate Distinct(numbers: seq<int>) {
    forall i, j :: 0 <= i < j < |numbers| ==> numbers[i] != numbers[j]
  }

  /** The receiver's table with the files installed under their new numbers. */
  function Install(receiver: map<int, File>, numbers: seq<int>, files: seq<File>): map<int, File>
    requires |numbers| <= |files|
  {
    if numbers == [] then receiver
    else
      var n := |numbers| - 1;
      Install(receiver, numbers[..n], files)[numbers[n] := files[n]]
  }

  lemma {:induction false} InstallAt(receiver: map<int, File>, numbers: seq<int>, files: seq<File>, i: nat)
    requires i < |numbers| <= |files| && Distinct(numbers)
    ensures numbers[i] in Install(receiver, numbers, files)
    ensures Install(receiver, numbers, files)[numbers[i]] == files[i]
    decreases |numbers|
  {
    var n := |numbers| - 1;
    if i < n {
      assert numbers[..n][i] == numbers[i];
      InstallAt(receiver, numbers[..n], files, i);
    }
  }

  lemma {:induction false} InstallUndone(receiver: map<int, File>, numbers: seq<int>, files: seq<File>)
    requires |numbers| <= |files|
    requires forall i :: 0 <= i < |numbers| ==> numbers[i] !in receiver
    ensures Install(receiver, numbers, files) - Elements(numbers) == receiver
    decreases |numbers|
  {
    if numbers != [] {
      var n := |numbers| - 1;
      InstallUndone(receiver, numbers[..n], files);
      assert Elements(numbers) == Elements(numbers[..n]) + {numbers[n]};
      assert Install(receiver, numbers, files) - Elements(numbers)
          == Install(receiver, numbers[..n], files) - Elements(numbers[..n]) - {numbers[n]};
      assert receiver - {numbers[n]} == receiver;
    } else {
      assert receiver - Elements([]) == receiver;
    }
  }
}
