/** The operations of ControlMessage, which overwrite the wrapped bytes in place. */
module ControlMessageOps {
  import opened LittleEndian
  import opened ControlMessages
  import opened ControlWalk

  datatype File = File(id: int)

  /** The descriptor table of the process, and the descriptors closed so far, oldest first. */
  class Process {
    var files: map<int, File>
    var closed: seq<int>

    constructor (files: map<int, File>)
      ensures this.files == files && closed == []
    {
      this.files := files;
      closed := [];
    }

    method Close(fd: int)
      modifies this
      ensures files == old(files) - {fd} && closed == old(closed) + [fd]
    {
      files := files - {fd};
      closed := closed + [fd];
    }
  }

  /** Stores four bytes at `at`, as a pointer write does. */
  method Put(b: array<Byte>, at: nat, bytes: seq<Byte>)
    requires at + |bytes| <= b.Length
    modifies b
    ensures b[..] == old(b[..at]) + bytes + old(b[at + |bytes|..])
  {
    for i := 0 to |bytes|
      invariant b[..at] == old(b[..at]) && b[at..at + i] == bytes[..i]
      invariant b[at + i..] == old(b[at + i..])
    {
      b[at + i] := bytes[i];
    }
    assert bytes[..|bytes|] == bytes;
  }

  /** A buffer that starts with the header and is zero from there on. */
  method NewBuffer(header: seq<Byte>, room: nat) returns (b: array<Byte>)
    ensures fresh(b) && b[..] == header + Zeros(room)
  {
    b := new Byte[|header| + room](_ => 0);
    assert b[..] == Zeros(|header| + room);
    Put(b, 0, header);
  }

  /** syscall.UnixRights: a zeroed buffer, its header, then one int after the other. */
  method UnixRights(fds: seq<int>) returns (b: array<Byte>)
    requires |fds| < MAX_INTS
    ensures fresh(b) && b[..] == Pack(fds)
  {
    var datalen := 4 * |fds|;
    var header := Header(CmsgLen(datalen), SOL_SOCKET, SCM_RIGHTS);
    b := NewBuffer(header, Align(datalen));
    assert EncodeInts(fds[..0]) == [] && header + [] == header;
    for j := 0 to |fds|
      invariant b[..] == header + EncodeInts(fds[..j]) + Zeros(Align(datalen) - 4 * j)
    {
      ghost var before := b[..];
      Put(b, HEADER_SIZE + 4 * j, EncodeInt32(fds[j]));
      PutNext(header, fds, j, Align(datalen) - 4 * j);
    }
    assert fds[..|fds|] == fds;
  }

  lemma PutNext(header: seq<Byte>, fds: seq<int>, j: nat, room: nat)
    requires |header| == HEADER_SIZE && j < |fds| && room >= 4
    ensures var s := header + EncodeInts(fds[..j]) + Zeros(room);
            s[..HEADER_SIZE + 4 * j] + EncodeInt32(fds[j]) + s[HEADER_SIZE + 4 * j + 4..]
            == header + EncodeInts(fds[..j + 1]) + Zeros(room - 4)
  {
    var ints, zeros := EncodeInts(fds[..j]), Zeros(room);
    assert fds[..j + 1][..j] == fds[..j];
    assert zeros[4..] == Zeros(room - 4);
    var s := header + ints + zeros;
    assert s[..HEADER_SIZE + 4 * j] == header + ints;
    assert s[HEADER_SIZE + 4 * j + 4..] == zeros[4..];
  }

  /** syscall.ParseSocketControlMessage: the loop index may step past the end, never a slice. */
  method ParseSocketControlMessage(b: seq<Byte>) returns (r: Parsed)
    ensures r == Parse(b)
    ensures if r.Malformed? then Rejected(b) else Carries(b, r.msgs) && !Rejected(b)
  {
    ParseFailsExactly(b);
    if Parse(b).Messages? {
      ParseFindsExactly(b, Parse(b).msgs);
    }
    var msgs: seq<Message> := [];
    var i := 0;
    while i + CmsgLen(0) <= |b|
      invariant 0 <= i
      invariant Parse(b) == Append(msgs, Parse(if i <= |b| then b[i..] else []))
      decreases |b| - i
    {
      var rest := b[i..];
      if LenField(rest) < HEADER_SIZE || LenField(rest) > |rest| {
        return Malformed;
      }
      var next := i + Align(LenField(rest));
      assert After(rest) == if next <= |b| then b[next..] else [];
      AppendTwice(msgs, MessageAt(rest), Parse(After(rest)));
      msgs := msgs + [MessageAt(rest)];
      i := next;
    }
    return Messages(msgs);
  }

  function Append(msgs: seq<Message>, r: Parsed): Parsed {
    if r.Malformed? then r else Messages(msgs + r.msgs)
  }

  lemma AppendTwice(msgs: seq<Message>, m: Message, r: Parsed)
    ensures Append(msgs, Append([m], r)) == Append(msgs + [m], r)
  {
    if r.Messages? {
      assert msgs + ([m] + r.msgs) == msgs + [m] + r.msgs;
    }
  }

  lemma NextInt(data: seq<Byte>, i: nat)
    requires i + 4 <= |data| && i % 4 == 0
    ensures DecodeInts(data[..i + 4]) == DecodeInts(data[..i]) + [DecodeInt32(data[i..i + 4])]
  {
    DecodeSnoc(data[..i], data[i..i + 4]);
    assert data[..i + 4] == data[..i] + data[i..i + 4];
  }

  /** syscall.ParseUnixRights. */
  method ParseUnixRights(m: Message) returns (r: Rights)
    ensures r == RightsOf(m)
  {
    if m.level != SOL_SOCKET {
      return EINVAL;
    }
    if m.typ != SCM_RIGHTS {
      return EINVAL;
    }
    r := ReadInts(m.data);
  }

  /** Its loop: `j` running past the end of the result is an index panic. */
  method ReadInts(data: seq<Byte>) returns (r: Rights)
    ensures r == if |data| % 4 == 0 then Fds(DecodeInts(data)) else Panics
  {
    var fds := new int[|data| / 4];
    assert 4 * fds.Length <= |data| < 4 * fds.Length + 4;
    var i, j := 0, 0;
    while i < |data|
      invariant i == 4 * j && j <= fds.Length && fds[..j] == DecodeInts(data[..i])
    {
      if j >= fds.Length {
        return Panics;
      }
      NextInt(data, i);
      ghost var before := fds[..j];
      fds[j] := DecodeInt32(data[i..i + 4]);
      assert fds[..j + 1] == before + [fds[j]];
      i, j := i + 4, j + 1;
    }
    assert data[..i] == data && fds[..j] == fds[..];
    r := Fds(fds[..]);
  }

  /** The inner loop of ExtractFDs. */
  method AppendNonNegative(fds: seq<int>, more: seq<int>) returns (r: seq<int>)
    ensures r == fds + NonNegative(more)
  {
    r := fds;
    for k := 0 to |more|
      invariant r == fds + NonNegative(more[..k])
    {
      if more[k] >= 0 {
        r := r + [more[k]];
      }
      assert more[..k + 1][..k] == more[..k];
    }
    assert more[..|more|] == more;
  }

  lemma PrependTwice(a: seq<int>, b: seq<int>, r: Rights)
    ensures Prepend(a, Prepend(b, r)) == Prepend(a + b, r)
  {
    if r.Fds? {
      assert a + (b + r.fds) == a + b + r.fds;
    }
  }

  function Elements(fds: seq<int>): set<int> {
    set fd | fd in fds
  }

  lemma CloseNext(files: map<int, File>, fds: seq<int>, i: nat)
    requires i < |fds|
    ensures files - Elements(fds[..i]) - {fds[i]} == files - Elements(fds[..i + 1])
  {
    assert Elements(fds[..i + 1]) == Elements(fds[..i]) + {fds[i]};
  }

  /** The loop of CloseFDs. */
  method CloseAll(process: Process, fds: seq<int>)
    requires Descriptors(fds)
    modifies process
    ensures process.closed == old(process.closed) + fds
    ensures process.files == old(process.files) - Elements(fds)
  {
    assert process.files - Elements(fds[..0]) == process.files;
    for i := 0 to |fds|
      invariant process.closed == old(process.closed) + fds[..i]
      invariant process.files == old(process.files) - Elements(fds[..i])
    {
      if fds[i] >= 0 {
        process.Close(fds[i]);
      }
      CloseNext(old(process.files), fds, i);
    }
    assert fds[..|fds|] == fds;
  }

  class ControlMessage {
    var bytes: seq<Byte>

    constructor ()
      ensures bytes == []
    {
      bytes := [];
    }

    /** make panics on a size that is negative, as a negative or wrapped count can make it, or too large. */
    method EnableFDs(count: Int64) returns (panicked: bool)
      modifies this
      ensures panicked <==> !Allocates(BufferSize(count))
      ensures bytes == if panicked then old(bytes) else Zeros(BufferSize(count))
    {
      var space := Space64(Wrap64(count * 4));
      if space < 0 || space > MAX_ALLOC {
        return true;
      }
      bytes := Zeros(space);
      return false;
    }

    method PackFDs(fds: seq<int>)
      requires |fds| < MAX_INTS
      modifies this
      ensures bytes == Pack(fds)
    {
      var b := UnixRights(fds);
      bytes := b[..];
    }

    method UnpackFDs()
      modifies this
      ensures bytes == []
    {
      bytes := [];
    }

    method ExtractFDs() returns (r: Rights)
      ensures r == Extract(bytes)
    {
      var parsed := ParseSocketControlMessage(bytes);
      if parsed.Malformed? {
        return EINVAL;
      }
      var fds: seq<int> := [];
      for i := 0 to |parsed.msgs|
        invariant Collect(parsed.msgs) == Prepend(fds, Collect(parsed.msgs[i..]))
      {
        var rights := ParseUnixRights(parsed.msgs[i]);
        assert parsed.msgs[i..][0] == parsed.msgs[i] && parsed.msgs[i..][1..] == parsed.msgs[i + 1..];
        if !rights.Fds? {
          return rights;
        }
        ghost var before := fds;
        fds := AppendNonNegative(fds, rights.fds);
        PrependTwice(before, NonNegative(rights.fds), Collect(parsed.msgs[i + 1..]));
      }
      return Fds(fds);
    }

    /** Closes exactly the extracted descriptors, in order, and nothing when extraction fails. */
    method CloseFDs(process: Process) returns (panicked: bool)
      modifies process
      ensures bytes == old(bytes)
      ensures panicked <==> Extract(bytes).Panics?
      ensures var fds := if Extract(bytes).Fds? then Extract(bytes).fds else [];
              && process.closed == old(process.closed) + fds
              && process.files == old(process.files) - Elements(fds)
    {
      var r := ExtractFDs();
      if r.Panics? {
        return true;
      }
      if r.Fds? {
        ExtractedAreDescriptors(Parse(bytes).msgs);
        CloseAll(process, r.fds);
      } else {
        assert process.files - Elements([]) == process.files;
      }
      return false;
    }
  }
}
