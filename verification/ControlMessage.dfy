/** Little-endian integers, as 64-bit Linux on x86 lays them out. */
module LittleEndian {
  type Byte = x: int | 0 <= x < 256

  const TWO_31: int := 0x8000_0000
  const TWO_32: int := 0x1_0000_0000
  const TWO_64: int := 0x1_0000_0000_0000_0000

  function Encode32(x: int): (b: seq<Byte>)
    requires 0 <= x < TWO_32
    ensures |b| == 4 && Decode32(b) == x
  {
    var q1 := x / 256;
    var q2 := q1 / 256;
    [x % 256, q1 % 256, q2 % 256, q2 / 256]
  }

  function Decode32(b: seq<Byte>): (x: int)
    requires |b| == 4
    ensures 0 <= x < TWO_32
  {
    b[0] as int + 256 * (b[1] as int + 256 * (b[2] as int + 256 * (b[3] as int)))
  }

  function Encode64(x: int): (b: seq<Byte>)
    requires 0 <= x < TWO_64
    ensures |b| == 8 && Decode64(b) == x
  {
    Encode32(x % TWO_32) + Encode32(x / TWO_32)
  }

  function Decode64(b: seq<Byte>): (x: int)
    requires |b| == 8
    ensures 0 <= x < TWO_64
  {
    Decode32(b[..4]) + TWO_32 * Decode32(b[4..])
  }

  /** The conversion int32(fd) of a 64-bit int. */
  function ToInt32(fd: int): int {
    (fd + TWO_31) % TWO_32 - TWO_31
  }

  function EncodeInt32(fd: int): (b: seq<Byte>)
    ensures |b| == 4 && DecodeInt32(b) == ToInt32(fd)
  {
    Encode32(fd % TWO_32)
  }

  function DecodeInt32(b: seq<Byte>): int
    requires |b| == 4
  {
    var x := Decode32(b);
    if x < TWO_31 then x else x - TWO_32
  }
}

/** Control messages that carry file descriptors. */
module ControlMessages {
  import opened LittleEndian

  const HEADER_SIZE: int := 16
  const SOL_SOCKET: int := 1
  const SCM_RIGHTS: int := 1

  /** No Go slice of ints is longer: its bytes must fit the address space. */
  const MAX_INTS: int := 0x1000_0000_0000_0000

  /** Rounding up to a multiple of 8, for negative numbers too. */
  function Align(n: int): (a: int)
    ensures n <= a < n + 8 && a % 8 == 0
  {
    n + 7 - (n + 7) % 8
  }

  function CmsgLen(datalen: int): int {
    HEADER_SIZE + datalen
  }

  function CmsgSpace(datalen: int): (a: int)
    ensures a % 8 == 0
  {
    HEADER_SIZE + Align(datalen)
  }

  // The same in Go's 64-bit ints, which wrap around.

  type Int64 = x: int | -0x8000_0000_0000_0000 <= x < 0x8000_0000_0000_0000

  /** The longest slice of bytes that make allocates on 64-bit Linux; a longer or negative one is a panic. */
  const MAX_ALLOC: int := 0x1_0000_0000_0000

  function Wrap64(x: int): Int64 {
    (x + 0x8000_0000_0000_0000) % TWO_64 - 0x8000_0000_0000_0000
  }

  function Align64(n: Int64): Int64 {
    var m := Wrap64(n + 7);
    m - m % 8
  }

  function Space64(datalen: Int64): Int64 {
    Wrap64(HEADER_SIZE + Align64(datalen))
  }

  /** The size that EnableFDs asks for. */
  function BufferSize(count: Int64): Int64 {
    Space64(Wrap64(4 * count))
  }

  predicate Allocates(size: int) {
    0 <= size <= MAX_ALLOC
  }

  function Zeros(n: nat): seq<Byte> {
    seq(n, _ => 0)
  }

  function EncodeInts(fds: seq<int>): (b: seq<Byte>)
    ensures |b| == 4 * |fds|
  {
    if fds == [] then [] else EncodeInts(fds[..|fds| - 1]) + EncodeInt32(fds[|fds| - 1])
  }

  function DecodeInts(data: seq<Byte>): (fds: seq<int>)
    requires |data| % 4 == 0
    ensures |fds| == |data| / 4
  {
    if data == [] then [] else DecodeInts(data[..|data| - 4]) + [DecodeInt32(data[|data| - 4..])]
  }

  function Header(len: int, level: int, typ: int): (b: seq<Byte>)
    requires 0 <= len < TWO_64 && 0 <= level < TWO_32 && 0 <= typ < TWO_32
    ensures |b| == HEADER_SIZE
    ensures Decode64(b[..8]) == len && Decode32(b[8..12]) == level && Decode32(b[12..16]) == typ
  {
    var l, v, t := Encode64(len), Encode32(level), Encode32(typ);
    var b := l + v + t;
    assert b[..8] == l && b[8..12] == v && b[12..16] == t;
    b
  }

  /** The bytes of a control message that carries `fds`. */
  function Pack(fds: seq<int>): (b: seq<Byte>)
    requires |fds| < MAX_INTS
    ensures |b| == CmsgSpace(4 * |fds|) && |b| % 8 == 0
  {
    var n := 4 * |fds|;
    Header(CmsgLen(n), SOL_SOCKET, SCM_RIGHTS) + EncodeInts(fds) + Zeros(Align(n) - n)
  }

  // Parsing.

  datatype Message = Message(level: int, typ: int, data: seq<Byte>)

  datatype Parsed = Messages(msgs: seq<Message>) | Malformed

  /** The Len, Level and Type fields of the header at the start of `b`. */
  function LenField(b: seq<Byte>): int
    requires |b| >= HEADER_SIZE
  {
    Decode64(b[..8])
  }

  function MessageAt(b: seq<Byte>): Message
    requires |b| >= HEADER_SIZE && HEADER_SIZE <= LenField(b) <= |b|
  {
    Message(Decode32(b[8..12]), Decode32(b[12..16]), b[HEADER_SIZE..LenField(b)])
  }

  function After(b: seq<Byte>): (rest: seq<Byte>)
    requires |b| >= HEADER_SIZE && HEADER_SIZE <= LenField(b) <= |b|
    ensures |rest| < |b|
  {
    if Align(LenField(b)) <= |b| then b[Align(LenField(b))..] else []
  }

  function Parse(b: seq<Byte>): Parsed
    decreases |b|
  {
    if |b| < HEADER_SIZE then Messages([])
    else if LenField(b) < HEADER_SIZE || LenField(b) > |b| then Malformed
    else
      match Parse(After(b))
      case Malformed => Malformed
      case Messages(msgs) => Messages([MessageAt(b)] + msgs)
  }

  /** The outcome of ParseUnixRights and of ExtractFDs. */
  datatype Rights = Fds(fds: seq<int>) | EINVAL | Panics

  /** Data whose length is not a multiple of 4 runs past the end of the result, a Go panic. */
  function RightsOf(m: Message): Rights {
    if m.level != SOL_SOCKET || m.typ != SCM_RIGHTS then EINVAL
    else if |m.data| % 4 != 0 then Panics
    else Fds(DecodeInts(m.data))
  }

  function NonNegative(fds: seq<int>): seq<int> {
    if fds == [] then []
    else
      var init, last := fds[..|fds| - 1], fds[|fds| - 1];
      if last >= 0 then NonNegative(init) + [last] else NonNegative(init)
  }

  function Prepend(fds: seq<int>, r: Rights): Rights {
    if r.Fds? then Fds(fds + r.fds) else r
  }

  function Collect(msgs: seq<Message>): Rights {
    if msgs == [] then Fds([])
    else
      var first := RightsOf(msgs[0]);
      if first.Fds? then Prepend(NonNegative(first.fds), Collect(msgs[1..])) else first
  }

  function Extract(b: seq<Byte>): Rights {
    var parsed := Parse(b);
    if parsed.Malformed? then EINVAL else Collect(parsed.msgs)
  }

  // Lemmas about the layout.

  /** Where no addition wraps, aligning is rounding up. */
  lemma {:induction false} Align64Is(n: Int64)
    ensures n < 0x7FFF_FFFF_FFFF_FFF9 ==> Align64(n) == Align(n)
    ensures n >= 0x7FFF_FFFF_FFFF_FFF9 ==> Align64(n) == -0x8000_0000_0000_0000
  {
    if n >= 0x7FFF_FFFF_FFFF_FFF9 {
      assert Wrap64(n + 7) == n + 7 - TWO_64;
      Floor8(n + 7 - TWO_64, -0x1000_0000_0000_0000);
    }
  }

  lemma Floor8(m: int, q: int)
    requires 8 * q <= m < 8 * q + 8
    ensures m - m % 8 == 8 * q
  {
    var d := m / 8;
    assert m == 8 * d + m % 8;
  }

  lemma {:induction false} Space64Allocates(n: Int64)
    ensures Allocates(Space64(n)) <==> -24 < n <= 0xFFFF_FFFF_FFF0
    ensures Allocates(Space64(n)) ==> Space64(n) == CmsgSpace(n)
  {
    Align64Is(n);
    AlignBounds(n);
    if -0x7FFF_FFFF_FFFF_FF00 < n < 0x7FFF_FFFF_FFFF_FF00 {
      assert Space64(n) == HEADER_SIZE + Align(n);
    } else {
      assert !Allocates(Space64(n));
    }
  }

  lemma AlignBounds(n: int)
    ensures Align(n) >= -16 <==> n > -24
    ensures Align(n) <= 0xFFFF_FFFF_FFF0 <==> n <= 0xFFFF_FFFF_FFF0
  {
    var r := Align(n) / 8;
    assert Align(n) == 8 * r;
  }

  /**
    EnableFDs panics exactly when four times its count, wrapped to 64 bits, is -24 or less, or leaves no
    room for the header below the allocation limit; otherwise the size is that of a message with that much data.
   */
  lemma {:induction false} EnablePanics(count: Int64)
    ensures var w := Wrap64(4 * count);
            && (Allocates(BufferSize(count)) <==> -24 < w <= MAX_ALLOC - HEADER_SIZE)
            && (Allocates(BufferSize(count)) ==> BufferSize(count) == CmsgSpace(w))
  {
    Space64Allocates(Wrap64(4 * count));
  }

  /** As long as four times the count does not wrap, these are the counts below -5 and those above 2^46 - 4. */
  lemma {:induction false} EnablePanicsUnwrapped(count: Int64)
    requires -0x2000_0000_0000_0000 <= count < 0x2000_0000_0000_0000
    ensures Allocates(BufferSize(count)) <==> -6 < count <= 0x3FFF_FFFF_FFFC
  {
    EnablePanics(count);
  }

  /** When it does wrap: 2^61 descriptors make EnableFDs panic, and for 2^62 it allocates a bare header. */
  lemma {:induction false} EnableWraps()
    ensures BufferSize(0x2000_0000_0000_0000) < 0
    ensures BufferSize(0x4000_0000_0000_0000) == HEADER_SIZE
  {
    assert Wrap64(4 * 0x2000_0000_0000_0000) == -0x8000_0000_0000_0000;
    assert Wrap64(4 * 0x4000_0000_0000_0000) == 0;
    EnablePanics(0x4000_0000_0000_0000);
    assert Align(0) == 0;
  }

  /** Each int as the kernel sees it. */
  function Truncate(fds: seq<int>): (t: seq<int>)
    ensures |t| == |fds| && forall i :: 0 <= i < |fds| ==> t[i] == ToInt32(fds[i])
  {
    seq(|fds|, i requires 0 <= i < |fds| => ToInt32(fds[i]))
  }

  lemma DecodeSnoc(data: seq<Byte>, last: seq<Byte>)
    requires |data| % 4 == 0 && |last| == 4
    ensures DecodeInts(data + last) == DecodeInts(data) + [DecodeInt32(last)]
  {
    var b := data + last;
    assert b[..|b| - 4] == data && b[|b| - 4..] == last;
  }

  lemma {:induction false} DecodeOfEncode(fds: seq<int>)
    ensures DecodeInts(EncodeInts(fds)) == Truncate(fds)
  {
    if fds != [] {
      var n := |fds| - 1;
      DecodeOfEncode(fds[..n]);
      DecodeSnoc(EncodeInts(fds[..n]), EncodeInt32(fds[n]));
      assert Truncate(fds) == Truncate(fds[..n]) + [ToInt32(fds[n])];
    }
  }

  function RightsMessage(fds: seq<int>): Message {
    Message(SOL_SOCKET, SCM_RIGHTS, EncodeInts(fds))
  }

  lemma Slices<T>(a: seq<T>, b: seq<T>, c: seq<T>)
    ensures var s := a + (b + c);
            s[..|a|] == a && s[|a|..|a| + |b|] == b && s[|a| + |b|..] == c
  {
  }

  /** A header, its data and anything after them. */
  lemma MessageShape(header: seq<Byte>, data: seq<Byte>, tail: seq<Byte>)
    requires |header| == HEADER_SIZE && Decode64(header[..8]) == CmsgLen(|data|)
    requires Decode32(header[8..12]) == SOL_SOCKET && Decode32(header[12..16]) == SCM_RIGHTS
    ensures var b := header + (data + tail);
            LenField(b) == CmsgLen(|data|) && MessageAt(b) == Message(SOL_SOCKET, SCM_RIGHTS, data)
  {
    var b := header + (data + tail);
    assert b[..8] == header[..8] && b[8..12] == header[8..12] && b[12..16] == header[12..16];
    Slices(header, data, tail);
  }

  /** The header and the ints of a packed list, then anything: the first message is the list. */
  lemma {:induction false} ParseFirst(fds: seq<int>, tail: seq<Byte>)
    requires |fds| < MAX_INTS
    ensures var b := Header(CmsgLen(4 * |fds|), SOL_SOCKET, SCM_RIGHTS) + (EncodeInts(fds) + tail);
            LenField(b) == CmsgLen(4 * |fds|) && MessageAt(b) == RightsMessage(fds)
  {
    MessageShape(Header(CmsgLen(4 * |fds|), SOL_SOCKET, SCM_RIGHTS), EncodeInts(fds), tail);
  }

  lemma {:induction false} ParsePacked(fds: seq<int>, rest: seq<Byte>)
    requires |fds| < MAX_INTS
    ensures var b := Pack(fds) + rest;
            |b| >= HEADER_SIZE && HEADER_SIZE <= LenField(b) <= |b|
            && MessageAt(b) == RightsMessage(fds) && After(b) == rest
  {
    var tail := PackedShape(fds, rest);
    ParseFirst(fds, tail);
    AlignShift(4 * |fds|);
    AfterPacked(Pack(fds), rest, CmsgLen(4 * |fds|));
  }

  lemma AlignShift(n: int)
    ensures Align(CmsgLen(n)) == CmsgSpace(n)
  {
  }

  lemma {:induction false} PackedShape(fds: seq<int>, rest: seq<Byte>) returns (tail: seq<Byte>)
    requires |fds| < MAX_INTS
    ensures Pack(fds) + rest == Header(CmsgLen(4 * |fds|), SOL_SOCKET, SCM_RIGHTS) + (EncodeInts(fds) + tail)
  {
    var n := 4 * |fds|;
    var padding := Zeros(Align(n) - n);
    tail := padding + rest;
    Regroup(Header(CmsgLen(n), SOL_SOCKET, SCM_RIGHTS), EncodeInts(fds), padding, rest);
  }

  lemma Regroup<T>(a: seq<T>, b: seq<T>, c: seq<T>, d: seq<T>)
    ensures (a + b + c) + d == a + (b + (c + d))
  {
  }

  lemma AfterPacked(packed: seq<Byte>, rest: seq<Byte>, len: int)
    requires HEADER_SIZE <= len <= |packed| == Align(len) && LenField(packed + rest) == len
    ensures After(packed + rest) == rest
  {
  }

  /** A packed list is parsed as one message, and the rest of the buffer after it. */
  lemma {:induction false} ExtractPackedThen(fds: seq<int>, rest: seq<Byte>)
    requires |fds| < MAX_INTS
    ensures Parse(rest).Messages? ==>
              Extract(Pack(fds) + rest)
              == Prepend(NonNegative(Truncate(fds)), Extract(rest))
    ensures Parse(rest).Malformed? ==> Extract(Pack(fds) + rest) == EINVAL
  {
    ParsePacked(fds, rest);
    DecodeOfEncode(fds);
    if Parse(rest).Messages? {
      var msgs := [RightsMessage(fds)] + Parse(rest).msgs;
      assert msgs[1..] == Parse(rest).msgs;
    }
  }

  predicate Descriptors(fds: seq<int>) {
    forall i :: 0 <= i < |fds| ==> 0 <= fds[i] < TWO_31
  }

  lemma {:induction false} NonNegativeOfDescriptors(fds: seq<int>)
    requires Descriptors(fds)
    ensures NonNegative(fds) == fds
  {
    if fds != [] {
      NonNegativeOfDescriptors(fds[..|fds| - 1]);
    }
  }

  lemma {:induction false} NonNegativeIsDescriptors(fds: seq<int>)
    requires forall i :: 0 <= i < |fds| ==> fds[i] < TWO_31
    ensures Descriptors(NonNegative(fds))
  {
    if fds != [] {
      NonNegativeIsDescriptors(fds[..|fds| - 1]);
    }
  }

  lemma TruncateFixes(fds: seq<int>)
    ensures NonNegative(Truncate(fds)) == fds <==> Descriptors(fds)
  {
    NonNegativeIsDescriptors(Truncate(fds));
    if Descriptors(fds) {
      assert Truncate(fds) == fds;
      NonNegativeOfDescriptors(fds);
    }
  }

  /** ExtractFDs after PackFDs gives each int truncated to 32 bits, without the negative ones. */
  lemma {:induction false} ExtractAfterPack(fds: seq<int>)
    requires |fds| < MAX_INTS
    ensures Extract(Pack(fds)) == Fds(NonNegative(Truncate(fds)))
  {
    ExtractPackedThen(fds, []);
    assert Pack(fds) + [] == Pack(fds);
  }

  /** The round trip gives the list back if and only if every int is a non-negative 32-bit descriptor. */
  lemma {:induction false} RoundTrip(fds: seq<int>)
    requires |fds| < MAX_INTS
    ensures Extract(Pack(fds)) == Fds(fds) <==> Descriptors(fds)
  {
    ExtractAfterPack(fds);
    TruncateFixes(fds);
  }

  /** Several messages in one buffer are extracted in order. */
  lemma {:induction false} RoundTripTwo(a: seq<int>, b: seq<int>)
    requires |a| < MAX_INTS && |b| < MAX_INTS && Descriptors(a) && Descriptors(b)
    ensures Extract(Pack(a) + Pack(b)) == Fds(a + b)
  {
    RoundTrip(b);
    ExtractPackedThen(a, Pack(b));
    TruncateFixes(a);
  }

  /** Whatever the bytes, everything extracted is a non-negative 32-bit descriptor. */
  lemma {:induction false} ExtractedAreDescriptors(msgs: seq<Message>)
    ensures Collect(msgs).Fds? ==> Descriptors(Collect(msgs).fds)
    decreases |msgs|
  {
    if msgs != [] && RightsOf(msgs[0]).Fds? {
      ExtractedAreDescriptors(msgs[1..]);
      DecodedRange(msgs[0].data);
      NonNegativeIsDescriptors(DecodeInts(msgs[0].data));
    }
  }

  lemma {:induction false} DecodedRange(data: seq<Byte>)
    requires |data| % 4 == 0
    ensures forall i :: 0 <= i < |DecodeInts(data)| ==> DecodeInts(data)[i] < TWO_31
    decreases |data|
  {
    if data != [] {
      DecodedRange(data[..|data| - 4]);
    }
  }

  /** The message at `i` is the first that is not a list of whole descriptors, and it is a truncated list. */
  predicate TruncatedRights(msgs: seq<Message>, i: int) {
    && 0 <= i < |msgs|
    && msgs[i].level == SOL_SOCKET && msgs[i].typ == SCM_RIGHTS && |msgs[i].data| % 4 != 0
    && forall j :: 0 <= j < i ==> RightsOf(msgs[j]).Fds?
  }

  /**
    On arbitrary bytes ExtractFDs panics exactly when the buffer parses and its first message that is
    not a well-formed descriptor list is a descriptor list whose length is not a multiple of 4.
   */
  lemma {:induction false} PanicsExactly(b: seq<Byte>)
    ensures Extract(b) == Panics <==> Parse(b).Messages? && exists i :: TruncatedRights(Parse(b).msgs, i)
  {
    if Parse(b).Messages? {
      CollectPanics(Parse(b).msgs);
    }
  }

  lemma {:induction false} CollectPanics(msgs: seq<Message>)
    ensures Collect(msgs) == Panics <==> exists i :: TruncatedRights(msgs, i)
    decreases |msgs|
  {
    if msgs != [] {
      var rest := msgs[1..];
      CollectPanics(rest);
      if RightsOf(msgs[0]).Fds? {
        forall i | TruncatedRights(rest, i) ensures TruncatedRights(msgs, i + 1) {
          forall j | 0 <= j < i + 1 ensures RightsOf(msgs[j]).Fds? {
            assert j > 0 ==> msgs[j] == rest[j - 1];
          }
        }
        forall i | TruncatedRights(msgs, i) ensures TruncatedRights(rest, i - 1) {
        }
      } else if RightsOf(msgs[0]).Panics? {
        assert TruncatedRights(msgs, 0);
      }
    }
  }

  /** A seventeen-byte header is the smallest buffer that panics. */
  lemma PanicExample()
    ensures Extract(Header(17, SOL_SOCKET, SCM_RIGHTS) + [0]) == Panics
  {
    var b := Header(17, SOL_SOCKET, SCM_RIGHTS) + [0];
    MessageShape(Header(17, SOL_SOCKET, SCM_RIGHTS), [0], []);
    assert b == Header(17, SOL_SOCKET, SCM_RIGHTS) + ([0] + []);
    assert Parse(After(b)) == Messages([]);
    assert Parse(b).msgs == [MessageAt(b)];
  }
}
