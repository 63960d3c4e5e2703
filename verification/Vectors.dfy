/** Lists of buffers as one run of bytes, and what a vectored system call does to them. */
module Vectors {
  import opened LittleEndian

  function Flatten(bufs: seq<seq<Byte>>): seq<Byte> {
    if bufs == [] then [] else bufs[0] + Flatten(bufs[1..])
  }

  /** The buffers after `data` was spread over them in order. */
  function Scatter(bufs: seq<seq<Byte>>, data: seq<Byte>): (r: seq<seq<Byte>>)
    ensures |r| == |bufs|
  {
    if bufs == [] then []
    else
      var n := if |data| < |bufs[0]| then |data| else |bufs[0]|;
      [data[..n] + bufs[0][n..]] + Scatter(bufs[1..], data[n..])
  }

  /** Data that fits ends up at the front of the flattened buffers; the rest of every buffer is as it was. */
  lemma {:induction false} ScatterFlattens(bufs: seq<seq<Byte>>, data: seq<Byte>)
    requires |data| <= |Flatten(bufs)|
    ensures Flatten(Scatter(bufs, data)) == data + Flatten(bufs)[|data|..]
    ensures forall i :: 0 <= i < |bufs| ==> |Scatter(bufs, data)[i]| == |bufs[i]|
  {
    if bufs != [] {
      var b, rest := bufs[0], bufs[1..];
      var n := if |data| < |b| then |data| else |b|;
      ScatterFlattens(rest, data[n..]);
      var tail := Scatter(rest, data[n..]);
      assert Scatter(bufs, data) == [data[..n] + b[n..]] + tail;
      FlattenCons(data[..n] + b[n..], tail);
      FrontOfFlat(b, Flatten(rest), data, n);
    }
  }

  lemma FlattenCons(b: seq<Byte>, rest: seq<seq<Byte>>)
    ensures Flatten([b] + rest) == b + Flatten(rest)
  {
    assert ([b] + rest)[1..] == rest;
  }

  lemma FrontOfFlat(b: seq<Byte>, rest: seq<Byte>, data: seq<Byte>, n: nat)
    requires n == (if |data| < |b| then |data| else |b|) && |data| <= |b| + |rest|
    ensures data[..n] + b[n..] + (data[n..] + rest[|data[n..]|..]) == data + (b + rest)[|data|..]
  {
    if n < |b| {
      assert data[n..] == [] && data[..n] == data;
      assert (b + rest)[n..] == b[n..] + rest;
    } else {
      assert b[n..] == [] && data[..n] + data[n..] == data;
    }
  }

  lemma {:induction false} ScatterNothing(bufs: seq<seq<Byte>>)
    ensures Scatter(bufs, []) == bufs
  {
    if bufs != [] {
      var none: seq<Byte> := [];
      ScatterNothing(bufs[1..]);
      assert none[..0] + bufs[0][0..] == bufs[0] && none[0..] == none;
    }
  }

  predicate SameShape(a: seq<seq<Byte>>, b: seq<seq<Byte>>) {
    |a| == |b| && forall i :: 0 <= i < |a| ==> |a[i]| == |b[i]|
  }
}

/** The caller's buffers in memory, and the iovecs that point to them. */
module Iovecs {
  import opened LittleEndian
  import opened Vectors

  /** A Go slice of bytes, and equally the iovec for it: `len` bytes of `mem` from `off` on. */
  datatype Slice = Slice(mem: array<Byte>, off: nat, len: nat) {
    predicate InBounds() {
      off + len <= mem.Length
    }

    function Bytes(): (b: seq<Byte>)
      requires InBounds()
      reads mem
      ensures |b| == len
    {
      mem[off..off + len]
    }
  }

  predicate AllInBounds(bufs: seq<Slice>) {
    forall i :: 0 <= i < |bufs| ==> bufs[i].InBounds()
  }

  ghost function Mems(bufs: seq<Slice>): set<array<Byte>> {
    set s | s in bufs :: s.mem
  }

  function Contents(bufs: seq<Slice>): (c: seq<seq<Byte>>)
    requires AllInBounds(bufs)
    reads Mems(bufs)
    ensures |c| == |bufs| && forall i :: 0 <= i < |bufs| ==> c[i] == bufs[i].Bytes()
  {
    if bufs == [] then [] else [bufs[0].Bytes()] + Contents(bufs[1..])
  }

  /** The non-empty buffers. */
  function Segments(bufs: seq<Slice>): (s: seq<Slice>)
    ensures forall i :: 0 <= i < |s| ==> s[i] in bufs && s[i].len > 0
  {
    if bufs == [] then []
    else if bufs[0].len > 0 then [bufs[0]] + Segments(bufs[1..])
    else Segments(bufs[1..])
  }

  function TotalLength(bufs: seq<Slice>): nat {
    if bufs == [] then 0 else bufs[0].len + TotalLength(bufs[1..])
  }

  /**
    buildIovec: the new segments are the non-empty buffers in order, and the length is that of all
    buffers together.
   */
  method BuildIovec(bufs: seq<Slice>, iovecs: seq<Slice>) returns (out: seq<Slice>, length: nat)
    requires AllInBounds(bufs)
    ensures out == iovecs + Segments(bufs)
    ensures length == |Flatten(Contents(bufs))|
  {
    out := iovecs;
    length := 0;
    for i := 0 to |bufs|
      invariant out == iovecs + Segments(bufs[..i])
      invariant length == TotalLength(bufs[..i])
    {
      var l := bufs[i].len;
      if l > 0 {
        out := out + [bufs[i]];
        length := length + l;
      }
      assert bufs[..i] + [bufs[i]] == bufs[..i + 1];
      AddBuffer(bufs[..i], bufs[i]);
    }
    assert bufs[..|bufs|] == bufs;
    LengthOfContents(bufs);
  }

  lemma {:induction false} AddBuffer(bufs: seq<Slice>, b: Slice)
    ensures Segments(bufs + [b]) == Segments(bufs) + if b.len > 0 then [b] else []
    ensures TotalLength(bufs + [b]) == TotalLength(bufs) + b.len
  {
    if bufs == [] {
      assert [b][1..] == [] && bufs + [b] == [b];
    } else {
      assert (bufs + [b])[1..] == bufs[1..] + [b];
      AddBuffer(bufs[1..], b);
    }
  }

  lemma {:induction false} LengthOfContents(bufs: seq<Slice>)
    requires AllInBounds(bufs)
    ensures |Flatten(Contents(bufs))| == TotalLength(bufs)
  {
    if bufs != [] {
      LengthOfContents(bufs[1..]);
    }
  }

  /** The segments' bytes together are the bytes of all buffers together. */
  lemma {:induction false} SegmentsGather(bufs: seq<Slice>)
    requires AllInBounds(bufs)
    ensures AllInBounds(Segments(bufs)) && Flatten(Contents(Segments(bufs))) == Flatten(Contents(bufs))
  {
    if bufs != [] {
      SegmentsGather(bufs[1..]);
      if bufs[0].len > 0 {
        assert Contents(Segments(bufs)) == [bufs[0].Bytes()] + Contents(Segments(bufs[1..]));
      }
    }
  }

  // What recvmsg leaves in memory when it fills the segments one after the other.

  /** The bytes `content` after `data` was written at `at`. */
  function Overwrite(content: seq<Byte>, at: nat, data: seq<Byte>): (r: seq<Byte>)
    requires at + |data| <= |content|
    ensures |r| == |content|
  {
    content[..at] + data + content[at + |data|..]
  }

  function Fitting(s: Slice, data: seq<Byte>): (n: nat)
    ensures n == |data| || n == s.len
    ensures n <= |data| && n <= s.len
  {
    if |data| < s.len then |data| else s.len
  }

  /** The content of `mem` after `data` was spread over the buffers in order, later ones overwriting earlier ones. */
  function Overlay(bufs: seq<Slice>, data: seq<Byte>, mem: array<Byte>, content: seq<Byte>): (r: seq<Byte>)
    requires AllInBounds(bufs) && |content| == mem.Length
    ensures |r| == |content|
  {
    if bufs == [] then content
    else
      var n := Fitting(bufs[0], data);
      Overlay(bufs[1..], data[n..], mem,
              if bufs[0].mem == mem then Overwrite(content, bufs[0].off, data[..n]) else content)
  }

  /** Empty buffers make no difference. */
  lemma {:induction false} OverlaySegments(bufs: seq<Slice>, data: seq<Byte>, mem: array<Byte>, content: seq<Byte>)
    requires AllInBounds(bufs) && |content| == mem.Length
    ensures AllInBounds(Segments(bufs))
    ensures Overlay(Segments(bufs), data, mem, content) == Overlay(bufs, data, mem, content)
  {
    if bufs != [] {
      var n := Fitting(bufs[0], data);
      if bufs[0].len == 0 {
        assert data[n..] == data && data[..n] == [];
        assert bufs[0].mem == mem ==> Overwrite(content, bufs[0].off, data[..n]) == content;
        OverlaySegments(bufs[1..], data, mem, content);
      } else {
        var next := if bufs[0].mem == mem then Overwrite(content, bufs[0].off, data[..n]) else content;
        OverlaySegments(bufs[1..], data[n..], mem, next);
        assert Segments(bufs)[1..] == Segments(bufs[1..]);
      }
    }
  }

  lemma {:induction false} OverlayNothing(bufs: seq<Slice>, mem: array<Byte>, content: seq<Byte>)
    requires AllInBounds(bufs) && |content| == mem.Length
    ensures Overlay(bufs, [], mem, content) == content
  {
    if bufs != [] {
      var none: seq<Byte> := [];
      assert Fitting(bufs[0], none) == 0 && none[0..] == none && none[..0] == none;
      assert bufs[0].mem == mem ==> Overwrite(content, bufs[0].off, none) == content;
      OverlayNothing(bufs[1..], mem, content);
    }
  }

  /** The data reaches the byte at `p` of `mem` through buffer `k`. */
  predicate Reaches(bufs: seq<Slice>, data: seq<Byte>, mem: array<Byte>, p: nat, k: nat)
    requires k < |bufs|
  {
    && bufs[k].mem == mem && bufs[k].off <= p < bufs[k].off + bufs[k].len
    && TotalLength(bufs[..k]) + (p - bufs[k].off) < |data|
  }

  lemma {:induction false} ReachesTail(bufs: seq<Slice>, data: seq<Byte>, mem: array<Byte>, p: nat, k: nat)
    requires 0 < k < |bufs|
    ensures TotalLength(bufs[..k]) == bufs[0].len + TotalLength(bufs[1..][..k - 1])
    ensures Reaches(bufs, data, mem, p, k) <==> Reaches(bufs[1..], data[Fitting(bufs[0], data)..], mem, p, k - 1)
  {
    assert bufs[..k][1..] == bufs[1..][..k - 1] && bufs[..k][0] == bufs[0];
  }

  /** A byte that the data reaches through no buffer stays as it was. */
  lemma {:induction false} OverlayKeeps(bufs: seq<Slice>, data: seq<Byte>, mem: array<Byte>, content: seq<Byte>, p: nat)
    requires AllInBounds(bufs) && |content| == mem.Length && p < |content|
    requires forall k :: 0 <= k < |bufs| ==> !Reaches(bufs, data, mem, p, k)
    ensures Overlay(bufs, data, mem, content)[p] == content[p]
  {
    if bufs != [] {
      var n := Fitting(bufs[0], data);
      var next := if bufs[0].mem == mem then Overwrite(content, bufs[0].off, data[..n]) else content;
      assert !Reaches(bufs, data, mem, p, 0);
      assert bufs[..0] == [];
      forall k | 0 <= k < |bufs| - 1 ensures !Reaches(bufs[1..], data[n..], mem, p, k) {
        ReachesTail(bufs, data, mem, p, k + 1);
      }
      OverlayKeeps(bufs[1..], data[n..], mem, next, p);
    }
  }

  /** If no later buffer brings the byte, the first one's stays. */
  lemma {:induction false} FirstBrings(bufs: seq<Slice>, data: seq<Byte>, mem: array<Byte>, content: seq<Byte>, p: nat)
    requires AllInBounds(bufs) && |content| == mem.Length && p < |content| && bufs != []
    requires Reaches(bufs, data, mem, p, 0) && forall j :: 0 < j < |bufs| ==> !Reaches(bufs, data, mem, p, j)
    ensures Overlay(bufs, data, mem, content)[p] == data[p - bufs[0].off]
  {
    assert bufs[..0] == [];
    var n := Fitting(bufs[0], data);
    var next := Overwrite(content, bufs[0].off, data[..n]);
    forall j | 0 <= j < |bufs| - 1 ensures !Reaches(bufs[1..], data[n..], mem, p, j) {
      ReachesTail(bufs, data, mem, p, j + 1);
    }
    OverlayKeeps(bufs[1..], data[n..], mem, next, p);
  }

  /** Any other byte is the one that the last buffer it is reached through brings, also where buffers overlap. */
  lemma {:induction false} OverlayBrings(bufs: seq<Slice>, data: seq<Byte>, mem: array<Byte>, content: seq<Byte>,
                                         p: nat, k: nat)
    requires AllInBounds(bufs) && |content| == mem.Length && p < |content| && k < |bufs|
    requires Reaches(bufs, data, mem, p, k) && forall j :: k < j < |bufs| ==> !Reaches(bufs, data, mem, p, j)
    ensures Overlay(bufs, data, mem, content)[p] == data[TotalLength(bufs[..k]) + (p - bufs[k].off)]
  {
    if k == 0 {
      assert bufs[..0] == [];
      FirstBrings(bufs, data, mem, content, p);
    } else {
      var n := Fitting(bufs[0], data);
      var next := if bufs[0].mem == mem then Overwrite(content, bufs[0].off, data[..n]) else content;
      ReachesTail(bufs, data, mem, p, k);
      forall j | k - 1 < j < |bufs| - 1 ensures !Reaches(bufs[1..], data[n..], mem, p, j) {
        ReachesTail(bufs, data, mem, p, j + 1);
      }
      OverlayBrings(bufs[1..], data[n..], mem, next, p, k - 1);
      var x := TotalLength(bufs[1..][..k - 1]) + (p - bufs[k].off);
      assert n == bufs[0].len && data[n..][x] == data[n + x];
    }
  }

  lemma {:induction false} OverlayElsewhere(bufs: seq<Slice>, data: seq<Byte>, mem: array<Byte>, content: seq<Byte>)
    requires AllInBounds(bufs) && |content| == mem.Length && mem !in Mems(bufs)
    ensures Overlay(bufs, data, mem, content) == content
  {
    if bufs != [] {
      OverlayElsewhere(bufs[1..], data[Fitting(bufs[0], data)..], mem, content);
    }
  }

  /** The two slices share no byte. */
  predicate Apart(s: Slice, t: Slice) {
    s.mem != t.mem || s.len == 0 || t.len == 0 || s.off + s.len <= t.off || t.off + t.len <= s.off
  }

  /** No two of the buffers share memory. */
  predicate Disjoint(bufs: seq<Slice>) {
    forall i, j :: 0 <= i < j < |bufs| ==> Apart(bufs[i], bufs[j])
  }

  function Part(content: seq<Byte>, s: Slice): seq<Byte>
    requires s.off + s.len <= |content|
  {
    content[s.off..s.off + s.len]
  }

  lemma OverwriteMisses(content: seq<Byte>, at: nat, data: seq<Byte>, s: Slice)
    requires at + |data| <= |content| && s.off + s.len <= |content|
    requires data == [] || s.len == 0 || at + |data| <= s.off || s.off + s.len <= at
    ensures Part(Overwrite(content, at, data), s) == Part(content, s)
  {
  }

  /** What is apart from all buffers stays as it was. */
  lemma {:induction false} OverlayMisses(bufs: seq<Slice>, data: seq<Byte>, s: Slice, content: seq<Byte>)
    requires AllInBounds(bufs) && |content| == s.mem.Length && s.InBounds()
    requires forall i :: 0 <= i < |bufs| ==> Apart(s, bufs[i])
    ensures Part(Overlay(bufs, data, s.mem, content), s) == Part(content, s)
  {
    if bufs != [] {
      var n := Fitting(bufs[0], data);
      assert Apart(s, bufs[0]);
      var next := if bufs[0].mem == s.mem then Overwrite(content, bufs[0].off, data[..n]) else content;
      if bufs[0].mem == s.mem {
        OverwriteMisses(content, bufs[0].off, data[..n], s);
      }
      OverlayMisses(bufs[1..], data[n..], s, next);
    }
  }

  lemma OverwriteHits(content: seq<Byte>, data: seq<Byte>, s: Slice)
    requires s.off + s.len <= |content| && |data| <= s.len
    ensures Part(Overwrite(content, s.off, data), s) == data + Part(content, s)[|data|..]
  {
  }

  /** When no buffers overlap, each ends up with its share of the data. */
  lemma {:induction false} OverlayScatters(bufs: seq<Slice>, data: seq<Byte>, i: nat, content: seq<Byte>, before: seq<seq<Byte>>)
    requires AllInBounds(bufs) && Disjoint(bufs) && i < |bufs| && |content| == bufs[i].mem.Length
    requires |before| == |bufs| && forall j :: 0 <= j < |bufs| ==> |before[j]| == bufs[j].len
    requires before[i] == Part(content, bufs[i])
    ensures Part(Overlay(bufs, data, bufs[i].mem, content), bufs[i]) == Scatter(before, data)[i]
  {
    var first, n := bufs[0], Fitting(bufs[0], data);
    var mem := bufs[i].mem;
    var next := if first.mem == mem then Overwrite(content, first.off, data[..n]) else content;
    if i == 0 {
      OverwriteHits(content, data[..n], first);
      OverlayMisses(bufs[1..], data[n..], first, next);
    } else {
      assert Apart(first, bufs[i]);
      if first.mem == mem {
        OverwriteMisses(content, first.off, data[..n], bufs[i]);
      }
      assert bufs[1..][i - 1] == bufs[i];
      OverlayScatters(bufs[1..], data[n..], i - 1, next, before[1..]);
    }
  }
}
