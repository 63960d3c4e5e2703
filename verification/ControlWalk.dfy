/** What the bytes of a control message mean, told by offsets and byte values. */
module ControlWalk {
  import opened LittleEndian
  import opened ControlMessages

  // Reading: which offsets are headers, and what is there.

  /** The length field of a header at offset `i`. */
  function LenAt(b: seq<Byte>, i: nat): int
    requires i + 16 <= |b|
  {
    Decode64(b[i..i + 8])
  }

  /** There is room for a header at `i`, and its message lies within the buffer. */
  predicate WholeAt(b: seq<Byte>, i: nat) {
    i + 16 <= |b| && 16 <= LenAt(b, i) <= |b| - i
  }

  /** There is room for a header at `i`, but the length there is too small or reaches beyond the buffer. */
  predicate BadAt(b: seq<Byte>, i: nat) {
    i + 16 <= |b| && !(16 <= LenAt(b, i) <= |b| - i)
  }

  /** Where the next header is: after this message, its length rounded up to a multiple of 8. */
  function Following(b: seq<Byte>, i: nat): (next: nat)
    requires WholeAt(b, i)
    ensures next > i
  {
    i + (LenAt(b, i) + 7) / 8 * 8
  }

  /** Offsets of messages that follow one another. */
  predicate Chain(b: seq<Byte>, offsets: seq<nat>) {
    && offsets != []
    && forall k :: 0 <= k < |offsets| - 1 ==>
         WholeAt(b, offsets[k]) && offsets[k + 1] == Following(b, offsets[k])
  }

  /** A chain from the start of the buffer to a bad header. */
  predicate Rejects(b: seq<Byte>, offsets: seq<nat>) {
    Chain(b, offsets) && offsets[0] == 0 && BadAt(b, offsets[|offsets| - 1])
  }

  /** A chain from the start of the buffer to where no header fits any more. */
  predicate Accepts(b: seq<Byte>, offsets: seq<nat>) {
    Chain(b, offsets) && offsets[0] == 0 && offsets[|offsets| - 1] + 16 > |b|
  }

  function MessageOf(b: seq<Byte>, i: nat): Message
    requires WholeAt(b, i)
  {
    Message(Decode32(b[i + 8..i + 12]), Decode32(b[i + 12..i + 16]), b[i + 16..i + LenAt(b, i)])
  }

  function MessagesOf(b: seq<Byte>, offsets: seq<nat>): seq<Message>
    requires Chain(b, offsets)
  {
    seq(|offsets| - 1, k requires 0 <= k < |offsets| - 1 => MessageOf(b, offsets[k]))
  }

  ghost predicate Rejected(b: seq<Byte>) {
    exists offsets :: Rejects(b, offsets)
  }

  ghost predicate Carries(b: seq<Byte>, msgs: seq<Message>) {
    exists offsets :: Accepts(b, offsets) && msgs == MessagesOf(b, offsets)
  }

  function Rest(b: seq<Byte>, i: nat): seq<Byte> {
    if i <= |b| then b[i..] else []
  }

  lemma RoundUp(n: int)
    ensures Align(n) == (n + 7) / 8 * 8
  {
  }

  /** The parser's view of the header at `i`. */
  lemma {:induction false} HeaderAt(b: seq<Byte>, i: nat)
    requires i + 16 <= |b|
    ensures LenField(Rest(b, i)) == LenAt(b, i)
    ensures WholeAt(b, i) ==>
              MessageAt(Rest(b, i)) == MessageOf(b, i) && After(Rest(b, i)) == Rest(b, Following(b, i))
  {
    var r := b[i..];
    assert r[..8] == b[i..i + 8] && r[8..12] == b[i + 8..i + 12] && r[12..16] == b[i + 12..i + 16];
    if WholeAt(b, i) {
      var n := LenAt(b, i);
      RoundUp(n);
      assert r[16..n] == b[i + 16..i + n];
      if Align(n) <= |r| {
        assert r[Align(n)..] == b[i + Align(n)..];
      }
    }
  }

  /** One round of the parser at offset `i`. */
  lemma {:induction false} ParseAt(b: seq<Byte>, i: nat)
    ensures i + 16 > |b| ==> Parse(Rest(b, i)) == Messages([])
    ensures BadAt(b, i) ==> Parse(Rest(b, i)) == Malformed
    ensures WholeAt(b, i) && Parse(Rest(b, Following(b, i))) == Malformed ==> Parse(Rest(b, i)) == Malformed
    ensures WholeAt(b, i) && Parse(Rest(b, Following(b, i))).Messages? ==>
              Parse(Rest(b, i)) == Messages([MessageOf(b, i)] + Parse(Rest(b, Following(b, i))).msgs)
  {
    if i + 16 <= |b| {
      HeaderAt(b, i);
    }
  }

  lemma {:induction false} ChainParses(b: seq<Byte>, offsets: seq<nat>)
    requires Chain(b, offsets)
    ensures BadAt(b, offsets[|offsets| - 1]) ==> Parse(Rest(b, offsets[0])) == Malformed
    ensures offsets[|offsets| - 1] + 16 > |b| ==> Parse(Rest(b, offsets[0])) == Messages(MessagesOf(b, offsets))
    decreases |offsets|
  {
    ParseAt(b, offsets[0]);
    if |offsets| > 1 {
      ChainTail(b, offsets);
      ChainParses(b, offsets[1..]);
    }
  }

  lemma {:induction false} ChainTail(b: seq<Byte>, offsets: seq<nat>)
    requires Chain(b, offsets) && |offsets| > 1
    ensures Chain(b, offsets[1..]) && WholeAt(b, offsets[0]) && offsets[1] == Following(b, offsets[0])
    ensures MessagesOf(b, offsets) == [MessageOf(b, offsets[0])] + MessagesOf(b, offsets[1..])
  {
    assert forall k :: 0 <= k < |offsets| - 2 ==> offsets[1..][k] == offsets[k + 1];
  }

  lemma {:induction false} ChainFrom(b: seq<Byte>, i: nat) returns (offsets: seq<nat>)
    ensures Chain(b, offsets) && offsets[0] == i
    ensures BadAt(b, offsets[|offsets| - 1]) || offsets[|offsets| - 1] + 16 > |b|
    decreases |b| - i
  {
    if WholeAt(b, i) {
      var more := ChainFrom(b, Following(b, i));
      offsets := [i] + more;
      ChainCons(b, i, more);
    } else {
      offsets := [i];
    }
  }

  lemma {:induction false} ChainCons(b: seq<Byte>, i: nat, more: seq<nat>)
    requires WholeAt(b, i) && Chain(b, more) && more[0] == Following(b, i)
    ensures Chain(b, [i] + more)
  {
    var offsets := [i] + more;
    forall k | 0 <= k < |offsets| - 1
      ensures WholeAt(b, offsets[k]) && offsets[k + 1] == Following(b, offsets[k])
    {
      if k > 0 {
        assert offsets[k] == more[k - 1] && offsets[k + 1] == more[k];
      }
    }
  }

  /** Parsing fails if and only if whole messages, one after the other, lead from the start to a bad header. */
  lemma {:induction false} ParseFailsExactly(b: seq<Byte>)
    ensures Parse(b) == Malformed <==> Rejected(b)
  {
    assert Rest(b, 0) == b;
    var found := ChainFrom(b, 0);
    ChainParses(b, found);
    forall offsets | Rejects(b, offsets) ensures Parse(b) == Malformed {
      ChainParses(b, offsets);
    }
    if Parse(b) == Malformed {
      assert Rejects(b, found);
    }
  }

  /** Otherwise the messages are those at the offsets of the chain that leads to the end, in order. */
  lemma {:induction false} ParseFindsExactly(b: seq<Byte>, msgs: seq<Message>)
    ensures Parse(b) == Messages(msgs) <==> Carries(b, msgs)
  {
    assert Rest(b, 0) == b;
    var found := ChainFrom(b, 0);
    ChainParses(b, found);
    forall offsets | Accepts(b, offsets) && msgs == MessagesOf(b, offsets) ensures Parse(b) == Messages(msgs) {
      ChainParses(b, offsets);
    }
    if Parse(b) == Messages(msgs) {
      assert Accepts(b, found);
    }
  }

  // ExtractFDs.

  /** A list of whole descriptors. */
  predicate IsList(m: Message) {
    m.level == 1 && m.typ == 1 && |m.data| % 4 == 0
  }

  /** The message at `i` is the first that is not a list of whole descriptors, and it is of another kind. */
  predicate OtherKind(msgs: seq<Message>, i: int) {
    0 <= i < |msgs| && (msgs[i].level != 1 || msgs[i].typ != 1) && forall j :: 0 <= j < i ==> IsList(msgs[j])
  }

  /** All descriptors of all lists, in order. */
  function AllInts(msgs: seq<Message>): seq<int>
    requires forall i :: 0 <= i < |msgs| ==> IsList(msgs[i])
  {
    if msgs == [] then []
    else
      assert IsList(msgs[0]);
      DecodeInts(msgs[0].data) + AllInts(msgs[1..])
  }

  lemma {:induction false} NonNegativeConcat(a: seq<int>, b: seq<int>)
    ensures NonNegative(a + b) == NonNegative(a) + NonNegative(b)
    decreases |b|
  {
    if b == [] {
      assert a + b == a;
    } else {
      var n := |b| - 1;
      NonNegativeConcat(a, b[..n]);
      assert (a + b)[..|a + b| - 1] == a + b[..n];
    }
  }

  lemma {:induction false} CollectExactly(msgs: seq<Message>)
    ensures Collect(msgs).Fds? <==> forall i :: 0 <= i < |msgs| ==> IsList(msgs[i])
    ensures Collect(msgs).Fds? ==> Collect(msgs).fds == NonNegative(AllInts(msgs))
    ensures Collect(msgs) == EINVAL <==> exists i :: OtherKind(msgs, i)
    decreases |msgs|
  {
    if msgs != [] {
      var rest := msgs[1..];
      CollectExactly(rest);
      if IsList(msgs[0]) {
        if Collect(rest).Fds? {
          NonNegativeConcat(DecodeInts(msgs[0].data), AllInts(rest));
        }
        forall i | OtherKind(rest, i) ensures OtherKind(msgs, i + 1) {
          forall j | 0 <= j < i + 1 ensures IsList(msgs[j]) {
            assert j > 0 ==> msgs[j] == rest[j - 1];
          }
        }
        forall i | OtherKind(msgs, i) ensures OtherKind(rest, i - 1) {
        }
      } else if msgs[0].level != 1 || msgs[0].typ != 1 {
        assert OtherKind(msgs, 0);
      }
    }
  }

  /**
    ExtractFDs, on arbitrary bytes: it gives EINVAL exactly when parsing reaches a bad header or the first
    message that is not a whole list of descriptors is of another kind, and a list exactly when all
    messages are such lists; the list is then all their descriptors in order, without the negative ones.
   */
  lemma {:induction false} ExtractExactly(b: seq<Byte>)
    ensures Extract(b) == EINVAL <==> Rejected(b) || exists msgs, i :: Carries(b, msgs) && OtherKind(msgs, i)
    ensures forall fds :: Extract(b) == Fds(fds) <==> exists msgs :: Carries(b, msgs) && Lists(msgs, fds)
  {
    ParseFailsExactly(b);
    if Parse(b).Messages? {
      var msgs := Parse(b).msgs;
      ParseFindsExactly(b, msgs);
      CollectExactly(msgs);
      forall other | Carries(b, other) ensures other == msgs {
        ParseFindsExactly(b, other);
      }
    } else {
      forall other | Carries(b, other) ensures false {
        ParseFindsExactly(b, other);
      }
    }
  }

  predicate Lists(msgs: seq<Message>, fds: seq<int>) {
    (forall i :: 0 <= i < |msgs| ==> IsList(msgs[i])) && fds == NonNegative(AllInts(msgs))
  }

  /** A zeroed buffer with room for a header is rejected; a smaller one holds nothing. */
  lemma {:induction false} ExtractZeros(n: nat)
    ensures Extract(Zeros(n)) == if n >= 16 then EINVAL else Fds([])
  {
    var b := Zeros(n);
    if n >= 16 {
      assert b[0..8] == Zeros(8) && LenAt(b, 0) == 0;
      assert Rejects(b, [0]);
      ParseFailsExactly(b);
    } else {
      assert Parse(b) == Messages([]);
    }
  }

  /** So is a packed list with a zeroed header after it. */
  lemma {:induction false} ZerosAfterPacked(fds: seq<int>, n: nat)
    requires |fds| < MAX_INTS && n >= 16
    ensures Extract(Pack(fds) + Zeros(n)) == EINVAL
  {
    var b := Zeros(n);
    assert b[0..8] == Zeros(8) && LenAt(b, 0) == 0;
    assert Rejects(b, [0]);
    ParseFailsExactly(b);
    ExtractPackedThen(fds, b);
  }

  // Writing: every byte of a packed list.

  function Byte0(x: int): int { x % 256 }
  function Byte1(x: int): int { x / 256 % 256 }
  function Byte2(x: int): int { x / 256 / 256 % 256 }
  function Byte3(x: int): int { x / 256 / 256 / 256 % 256 }

  /** A 32-bit word in memory, least significant byte first. */
  lemma {:induction false} WordBytes(x: int)
    requires 0 <= x < 0x1_0000_0000
    ensures Encode32(x) == [Byte0(x), Byte1(x), Byte2(x), Byte3(x)]
  {
    var q2 := x / 256 / 256;
    assert q2 / 256 < 256;
  }

  lemma {:induction false} IntAt(fds: seq<int>, i: nat)
    requires i < |fds|
    ensures EncodeInts(fds)[4 * i..4 * i + 4] == EncodeInt32(fds[i])
    decreases |fds|
  {
    var n := |fds| - 1;
    if i < n {
      IntAt(fds[..n], i);
      assert EncodeInts(fds)[4 * i..4 * i + 4] == EncodeInts(fds[..n])[4 * i..4 * i + 4];
    }
  }

  /** The header: the length of header and data as a 64-bit number, level 1 and type 1 as 32-bit numbers. */
  lemma {:induction false} HeaderBytes(n: int)
    requires 0 <= n < TWO_64
    ensures var lo, hi := n % 0x1_0000_0000, n / 0x1_0000_0000;
            Header(n, SOL_SOCKET, SCM_RIGHTS)
            == [Byte0(lo), Byte1(lo), Byte2(lo), Byte3(lo), Byte0(hi), Byte1(hi), Byte2(hi), Byte3(hi)]
               + [1, 0, 0, 0, 1, 0, 0, 0]
  {
    WordBytes(n % 0x1_0000_0000);
    WordBytes(n / 0x1_0000_0000);
    WordBytes(1);
  }

  /**
    PackFDs, byte by byte: the sixteen bytes of the header, then the descriptors (PackedInt), then zeros up
    to a multiple of 8.
   */
  lemma {:induction false} PackedBytes(fds: seq<int>)
    requires |fds| < MAX_INTS
    ensures |Pack(fds)| == 16 + (4 * |fds| + 7) / 8 * 8
    ensures var n := 16 + 4 * |fds|;
            var lo, hi := n % 0x1_0000_0000, n / 0x1_0000_0000;
            Pack(fds)[..16]
            == [Byte0(lo), Byte1(lo), Byte2(lo), Byte3(lo), Byte0(hi), Byte1(hi), Byte2(hi), Byte3(hi)]
               + [1, 0, 0, 0, 1, 0, 0, 0]
    ensures forall k :: 16 + 4 * |fds| <= k < |Pack(fds)| ==> Pack(fds)[k] == 0
  {
    HeaderBytes(16 + 4 * |fds|);
    RoundUp(4 * |fds|);
    PackedParts(Header(16 + 4 * |fds|, SOL_SOCKET, SCM_RIGHTS), EncodeInts(fds), Zeros(Align(4 * |fds|) - 4 * |fds|));
  }

  lemma PackedParts(header: seq<Byte>, ints: seq<Byte>, zeros: seq<Byte>)
    requires |header| == 16
    ensures var b := header + ints + zeros;
            b[..16] == header && b[16..16 + |ints|] == ints && b[16 + |ints|..] == zeros
  {
  }

  lemma Middle(header: seq<Byte>, ints: seq<Byte>, zeros: seq<Byte>, k: nat)
    requires |header| == 16 && k + 4 <= |ints|
    ensures (header + ints + zeros)[16 + k..20 + k] == ints[k..k + 4]
  {
  }

  /** Each descriptor as a 32-bit number. */
  lemma {:induction false} PackedInt(fds: seq<int>, i: nat)
    requires |fds| < MAX_INTS && i < |fds|
    ensures var w := fds[i] % 0x1_0000_0000;
            Pack(fds)[16 + 4 * i..20 + 4 * i] == [Byte0(w), Byte1(w), Byte2(w), Byte3(w)]
  {
    IntAt(fds, i);
    WordBytes(fds[i] % 0x1_0000_0000);
    Middle(Header(16 + 4 * |fds|, SOL_SOCKET, SCM_RIGHTS), EncodeInts(fds), Zeros(Align(4 * |fds|) - 4 * |fds|), 4 * i);
  }
}
