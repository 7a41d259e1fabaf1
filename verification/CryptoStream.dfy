/**
 Reassembly of the CRYPTO stream from the chunks the frame walker collects
 (crates/adversary/src/quic_initial.rs, `reassemble_crypto`).
 */
module CryptoStream {
  import opened Wrappers
  import opened Bytes
  import opened QuicFrames

  // ---------- chunks ----------

  type Chunks = map<nat, seq<Byte>>

  /** CRYPTO data by offset; a later frame at the same offset replaces an earlier one. */
  function ChunksOf(fs: seq<Frame>): Chunks {
    if fs == [] then map[]
    else
      var f := fs[|fs| - 1];
      var before := ChunksOf(fs[..|fs| - 1]);
      if f.Crypto? then before[f.offset.value := f.data] else before
  }

  lemma LeastExists(s: set<nat>)
    requires s != {}
    ensures exists m :: m in s && forall x :: x in s ==> m <= x
  {
    var m :| m in s;
    while exists x :: x in s && x < m
      invariant m in s
      decreases m
    {
      var x :| x in s && x < m;
      m := x;
    }
  }

  ghost function Least(s: set<nat>): (m: nat)
    requires s != {}
    ensures m in s && forall x :: x in s ==> m <= x
  {
    LeastExists(s);
    var m :| m in s && forall x :: x in s ==> m <= x;
    m
  }

  /** Chunks in offset order, joined while each starts where the previous one ended. */
  ghost function Joined(chunks: Chunks, left: set<nat>, next: nat): seq<Byte>
    requires left <= chunks.Keys
    decreases |left|
  {
    if left == {} || Least(left) != next then []
    else chunks[next] + Joined(chunks, left - {next}, next + |chunks[next]|)
  }

  ghost function Assembled(chunks: Chunks): seq<Byte> {
    Joined(chunks, chunks.Keys, 0)
  }

  ghost function Reassembled(payload: seq<Byte>): Result<seq<Byte>, QuicError> {
    match ParseFrames(payload)
    case Err(e) => Err(e)
    case Ok(fs) => Ok(Assembled(ChunksOf(fs)))
  }

  // ---------- what is reassembled ----------

  /** Every chunk is the slice of `stream` at its own offset. */
  ghost predicate SlicesOf(chunks: Chunks, stream: seq<Byte>) {
    forall off :: off in chunks ==>
      off + |chunks[off]| <= |stream| && chunks[off] == stream[off..off + |chunks[off]|]
  }

  lemma {:induction false} JoinedIsSlice(chunks: Chunks, stream: seq<Byte>, left: set<nat>, next: nat)
    requires SlicesOf(chunks, stream) && left <= chunks.Keys && next <= |stream|
    ensures Joined(chunks, left, next) <= stream[next..]
    decreases |left|
  {
    if left != {} && Least(left) == next {
      var end := next + |chunks[next]|;
      JoinedIsSlice(chunks, stream, left - {next}, end);
      assert stream[next..] == stream[next..end] + stream[end..];
    }
  }

  /** Whatever the frames, as long as each carries a slice of one stream, the result is a prefix of it. */
  lemma AssembledIsPrefix(chunks: Chunks, stream: seq<Byte>)
    requires SlicesOf(chunks, stream)
    ensures Assembled(chunks) <= stream
  {
    JoinedIsSlice(chunks, stream, chunks.Keys, 0);
    assert stream[0..] == stream;
  }

  ghost predicate Holds(chunks: Chunks, off: nat, x: nat) {
    off in chunks && off <= x < off + |chunks[off]|
  }

  /** Some chunk that starts below `bound` holds byte `x`. */
  ghost predicate HeldBelow(chunks: Chunks, bound: nat, x: nat) {
    exists off: nat :: off < bound && Holds(chunks, off, x)
  }

  /** Among the chunks that start below `bound`, exactly one holds each byte below `end`. */
  ghost predicate TilesTo(chunks: Chunks, bound: nat, end: nat) {
    && (forall x: nat :: x < end ==> HeldBelow(chunks, bound, x))
    && (forall x: nat, off: nat, off': nat ::
          (x < end && off < bound && off' < bound && Holds(chunks, off, x) && Holds(chunks, off', x)) ==> off == off')
  }

  /** No chunk that starts below `bound` is empty. */
  ghost predicate NoneEmptyBelow(chunks: Chunks, bound: nat) {
    forall off :: off in chunks && off < bound ==> chunks[off] != []
  }

  ghost predicate HeldOutside(chunks: Chunks, left: set<nat>, x: nat) {
    exists off: nat :: off !in left && Holds(chunks, off, x)
  }

  /** `left` are the chunks not yet joined; those already joined hold exactly the bytes below `next`. */
  ghost predicate Progress(chunks: Chunks, left: set<nat>, next: nat, bound: nat) {
    && left <= chunks.Keys
    && (forall off :: off in chunks && off !in left ==> off < bound && off + |chunks[off]| <= next)
    && (forall x: nat :: x < next ==> HeldOutside(chunks, left, x))
  }

  lemma TilesNextIsLeast(chunks: Chunks, stream: seq<Byte>, left: set<nat>, next: nat, bound: nat)
    requires NoneEmptyBelow(chunks, bound) && TilesTo(chunks, bound, |stream|)
    requires Progress(chunks, left, next, bound) && next < |stream|
    ensures left != {} && Least(left) == next && next < bound
  {
    assert HeldBelow(chunks, bound, next);
    var off: nat :| off < bound && Holds(chunks, off, next);
    assert off in left;
    var m := Least(left);
    if m < next {
      LeftHoldsNothingBelow(chunks, left, next, bound, |stream|, m);
      assert false;
    }
  }

  lemma LeftHoldsNothingBelow(chunks: Chunks, left: set<nat>, next: nat, bound: nat, end: nat, m: nat)
    requires TilesTo(chunks, bound, end) && Progress(chunks, left, next, bound)
    requires m < next && m < end && m < bound && Holds(chunks, m, m)
    ensures m !in left
  {
    assert HeldOutside(chunks, left, m);
    var k: nat :| k !in left && Holds(chunks, k, m);
    assert k == m;
  }

  lemma ProgressStep(chunks: Chunks, left: set<nat>, next: nat, bound: nat)
    requires Progress(chunks, left, next, bound) && next in left && next < bound
    ensures Progress(chunks, left - {next}, next + |chunks[next]|, bound)
  {
    var end, rest := next + |chunks[next]|, left - {next};
    forall x: nat | x < end ensures HeldOutside(chunks, rest, x) {
      if x < next {
        assert HeldOutside(chunks, left, x);
        var off: nat :| off !in left && Holds(chunks, off, x);
        assert off !in rest;
      } else {
        assert next !in rest && Holds(chunks, next, x);
      }
    }
  }

  lemma {:induction false} TilesJoin(chunks: Chunks, stream: seq<Byte>, left: set<nat>, next: nat, bound: nat)
    requires SlicesOf(chunks, stream) && NoneEmptyBelow(chunks, bound) && TilesTo(chunks, bound, |stream|)
    requires Progress(chunks, left, next, bound) && next <= |stream|
    ensures Joined(chunks, left, next) == stream[next..]
    decreases |left|
  {
    if next == |stream| {
      JoinedIsSlice(chunks, stream, left, next);
    } else {
      TilesNextIsLeast(chunks, stream, left, next, bound);
      ProgressStep(chunks, left, next, bound);
      TilesJoin(chunks, stream, left - {next}, next + |chunks[next]|, bound);
      JoinOne(chunks, stream, left, next);
    }
  }

  lemma JoinOne(chunks: Chunks, stream: seq<Byte>, left: set<nat>, next: nat)
    requires SlicesOf(chunks, stream) && left <= chunks.Keys && left != {} && Least(left) == next
    requires Joined(chunks, left - {next}, next + |chunks[next]|) == stream[next + |chunks[next]|..]
    ensures Joined(chunks, left, next) == stream[next..]
  {
    var end := next + |chunks[next]|;
    assert stream[next..] == stream[next..end] + stream[end..];
  }

  ghost function From(chunks: Chunks, bound: nat): set<nat> {
    set off | off in chunks && off >= bound
  }

  lemma TileOneMore(chunks: Chunks, next: nat, bound: nat)
    requires TilesTo(chunks, bound, next) && next in chunks && bound <= next
    requires forall off :: off in From(chunks, bound) ==> off >= next
    requires forall off :: off in chunks && off < bound ==> off + |chunks[off]| <= next
    ensures TilesTo(chunks, next + 1, next + |chunks[next]|)
  {
    var end, above := next + |chunks[next]|, next + 1;
    forall off: nat, x: nat | off < above && Holds(chunks, off, x)
      ensures if x < next then off < bound else off == next
    {
      if off >= bound {
        assert off in From(chunks, bound);
      }
    }
    forall x: nat | x < end ensures HeldBelow(chunks, above, x) {
      if x < next {
        assert HeldBelow(chunks, bound, x);
        var off: nat :| off < bound && Holds(chunks, off, x);
        assert off < above;
      } else {
        assert next < above && Holds(chunks, next, x);
      }
    }
  }

  /** After an empty chunk at `next` nothing more is joined: no other chunk starts there. */
  lemma EmptyChunkStops(chunks: Chunks, left: set<nat>, next: nat)
    requires left <= chunks.Keys && left != {} && Least(left) == next && chunks[next] == []
    ensures Joined(chunks, left, next) == []
  {
    assert Joined(chunks, left - {next}, next) == [];
  }

  /** If the join reaches the end of the stream, the chunks below some bound tile it. */
  lemma {:induction false} JoinTiles(chunks: Chunks, stream: seq<Byte>, next: nat, bound: nat) returns (b: nat)
    requires next <= |stream| && TilesTo(chunks, bound, next) && NoneEmptyBelow(chunks, bound)
    requires forall off :: off in chunks && off < bound ==> off + |chunks[off]| <= next
    requires |Joined(chunks, From(chunks, bound), next)| == |stream| - next
    ensures TilesTo(chunks, b, |stream|) && NoneEmptyBelow(chunks, b)
    decreases |From(chunks, bound)|
  {
    var left := From(chunks, bound);
    if next == |stream| {
      b := bound;
    } else {
      assert left != {} && Least(left) == next;
      if chunks[next] == [] {
        EmptyChunkStops(chunks, left, next);
        assert false;
      }
      TileOneMore(chunks, next, bound);
      assert left - {next} == From(chunks, next + 1);
      BelowNext(chunks, next, bound);
      b := JoinTiles(chunks, stream, next + |chunks[next]|, next + 1);
    }
  }

  lemma BelowNext(chunks: Chunks, next: nat, bound: nat)
    requires next in chunks && chunks[next] != [] && NoneEmptyBelow(chunks, bound)
    requires forall off :: off in From(chunks, bound) ==> off >= next
    requires forall off :: off in chunks && off < bound ==> off + |chunks[off]| <= next
    ensures NoneEmptyBelow(chunks, next + 1)
    ensures forall off :: off in chunks && off < next + 1 ==> off + |chunks[off]| <= next + |chunks[next]|
  {
    forall off | off in chunks && off < next + 1
      ensures chunks[off] != [] && off + |chunks[off]| <= next + |chunks[next]|
    {
      if off >= bound {
        assert off in From(chunks, bound);
      }
    }
  }

  /** Up to some offset, the chunks are not empty and tile the stream: every byte is held by one of
      them and by only one. */
  ghost predicate Tiled(chunks: Chunks, stream: seq<Byte>) {
    exists bound: nat :: TilesTo(chunks, bound, |stream|) && NoneEmptyBelow(chunks, bound)
  }

  /** Slices of a stream reassemble to the whole stream exactly when they tile it so. */
  lemma AssembledIsWholeIff(chunks: Chunks, stream: seq<Byte>)
    requires SlicesOf(chunks, stream)
    ensures Assembled(chunks) == stream <==> Tiled(chunks, stream)
  {
    assert stream[0..] == stream;
    assert From(chunks, 0) == chunks.Keys;
    if Assembled(chunks) == stream {
      var b := JoinTiles(chunks, stream, 0, 0);
    }
    if Tiled(chunks, stream) {
      var bound: nat :| TilesTo(chunks, bound, |stream|) && NoneEmptyBelow(chunks, bound);
      TilesJoin(chunks, stream, chunks.Keys, 0, bound);
    }
  }

  /** Overlapping slices that cover a stream are not enough: what follows an overlap is dropped. */
  lemma OverlapTruncates()
    ensures var stream: seq<Byte> := [7, 8, 9];
      var chunks: Chunks := map[0 := [7, 8], 1 := [8, 9]];
      && SlicesOf(chunks, stream) && NoneEmptyBelow(chunks, 2)
      && (forall x: nat :: x < 3 ==> HeldBelow(chunks, 2, x))
      && Assembled(chunks) == [7, 8]
  {
    var stream: seq<Byte> := [7, 8, 9];
    var chunks: Chunks := map[0 := [7, 8], 1 := [8, 9]];
    assert Holds(chunks, 0, 0) && Holds(chunks, 0, 1) && Holds(chunks, 1, 2);
    assert chunks.Keys == {0, 1};
    assert Least({0, 1}) == 0;
    assert {0, 1} - {0} == {1};
    assert Least({1}) == 1;
    assert Joined(chunks, {1}, 2) == [];
    assert Joined(chunks, {0, 1}, 0) == chunks[0] + Joined(chunks, {1}, 2);
  }

  /** Nor is a tiling with an empty chunk inside: what follows the empty chunk is dropped. */
  lemma EmptyChunkTruncates()
    ensures var stream: seq<Byte> := [7, 8, 9];
      var chunks: Chunks := map[0 := [7, 8], 1 := [], 2 := [9]];
      && SlicesOf(chunks, stream) && TilesTo(chunks, 3, 3)
      && Assembled(chunks) == [7, 8]
  {
    var chunks: Chunks := map[0 := [7, 8], 1 := [], 2 := [9]];
    assert Holds(chunks, 0, 0) && Holds(chunks, 0, 1) && Holds(chunks, 2, 2);
    assert chunks.Keys == {0, 1, 2} && {0, 1, 2} - {0} == {1, 2};
    assert Least({0, 1, 2}) == 0 && Least({1, 2}) == 1;
    assert Joined(chunks, {1, 2}, 2) == [];
    assert Joined(chunks, {0, 1, 2}, 0) == chunks[0] + Joined(chunks, {1, 2}, 2);
  }

  // ---------- from frames to the stream ----------

  ghost predicate FrameHolds(f: Frame, x: nat) {
    f.Crypto? && f.offset.value <= x < f.offset.value + |f.data|
  }

  ghost predicate FramesSlice(fs: seq<Frame>, stream: seq<Byte>) {
    forall i :: 0 <= i < |fs| && fs[i].Crypto? ==>
      && fs[i].offset.value + |fs[i].data| <= |stream|
      && fs[i].data == stream[fs[i].offset.value..fs[i].offset.value + |fs[i].data|]
  }

  /** The CRYPTO frames are non-empty slices and each byte of the stream is in exactly one of them
      (the same frame may be repeated). */
  ghost predicate FramesTile(fs: seq<Frame>, stream: seq<Byte>) {
    && FramesSlice(fs, stream)
    && (forall i :: 0 <= i < |fs| && fs[i].Crypto? ==> fs[i].data != [])
    && (forall x: nat :: x < |stream| ==> SomeFrameHolds(fs, x))
    && (forall i, j, x: nat :: 0 <= i < |fs| && 0 <= j < |fs| && FrameHolds(fs[i], x) && FrameHolds(fs[j], x) ==>
          fs[i].offset.value == fs[j].offset.value && fs[i].data == fs[j].data)
  }

  ghost predicate SomeFrameHolds(fs: seq<Frame>, x: nat) {
    exists i :: 0 <= i < |fs| && FrameHolds(fs[i], x)
  }

  ghost predicate CarriesChunk(f: Frame, off: nat, data: seq<Byte>) {
    f.Crypto? && f.offset.value == off && f.data == data
  }

  /** Each chunk comes from a frame. */
  lemma {:induction false} ChunkFromFrame(fs: seq<Frame>, off: nat) returns (i: nat)
    requires off in ChunksOf(fs)
    ensures i < |fs| && CarriesChunk(fs[i], off, ChunksOf(fs)[off])
  {
    var n := |fs| - 1;
    if fs[n].Crypto? && fs[n].offset.value == off {
      i := n;
    } else {
      i := ChunkFromFrame(fs[..n], off);
    }
  }

  /** Each frame's offset has a chunk. */
  lemma {:induction false} FrameHasChunk(fs: seq<Frame>, i: nat)
    requires i < |fs| && fs[i].Crypto?
    ensures fs[i].offset.value in ChunksOf(fs)
  {
    var n := |fs| - 1;
    if i < n {
      FrameHasChunk(fs[..n], i);
    }
  }

  lemma FramesSliceChunks(fs: seq<Frame>, stream: seq<Byte>)
    requires FramesSlice(fs, stream)
    ensures SlicesOf(ChunksOf(fs), stream)
  {
    var chunks := ChunksOf(fs);
    forall off | off in chunks
      ensures off + |chunks[off]| <= |stream| && chunks[off] == stream[off..off + |chunks[off]|]
    {
      var i := ChunkFromFrame(fs, off);
    }
  }

  lemma FramesTileChunks(fs: seq<Frame>, stream: seq<Byte>)
    requires FramesTile(fs, stream)
    ensures NoneEmptyBelow(ChunksOf(fs), |stream|) && TilesTo(ChunksOf(fs), |stream|, |stream|)
  {
    var chunks := ChunksOf(fs);
    forall off | off in chunks ensures chunks[off] != [] {
      var i := ChunkFromFrame(fs, off);
    }
    forall x: nat | x < |stream| ensures HeldBelow(chunks, |stream|, x) {
      assert SomeFrameHolds(fs, x);
      var i :| 0 <= i < |fs| && FrameHolds(fs[i], x);
      var off := fs[i].offset.value;
      FrameHasChunk(fs, i);
      var j := ChunkFromFrame(fs, off);
      assert FrameHolds(fs[i], off) && FrameHolds(fs[j], off);
      assert Holds(chunks, off, x);
    }
    forall x: nat, off: nat, off': nat | x < |stream| && Holds(chunks, off, x) && Holds(chunks, off', x)
      ensures off == off'
    {
      var i := ChunkFromFrame(fs, off);
      var j := ChunkFromFrame(fs, off');
      assert FrameHolds(fs[i], x) && FrameHolds(fs[j], x);
    }
  }

  /** If every CRYPTO frame of a payload carries a slice of one stream, the result is a prefix of it. */
  lemma ReassemblyIsPrefix(fs: seq<Frame>, stream: seq<Byte>)
    requires AllWellFormed(fs) && FramesSlice(fs, stream)
    ensures Reassembled(EncodeFrames(fs)).Ok? && Reassembled(EncodeFrames(fs)).value <= stream
  {
    ParseEncoded(fs);
    FramesSliceChunks(fs, stream);
    AssembledIsPrefix(ChunksOf(fs), stream);
  }

  /** If they tile the stream, the result is the stream, whatever the order of the frames and
      whatever PADDING, PING and ACK frames stand between them. */
  lemma ReassemblyRecoversStream(fs: seq<Frame>, gs: seq<Frame>, stream: seq<Byte>)
    requires FramesTile(fs, stream) && multiset(gs) == multiset(fs) && AllWellFormed(fs)
    ensures AllWellFormed(gs) && Reassembled(EncodeFrames(gs)) == Ok(stream)
  {
    SameFrames(fs, gs);
    SameFrames(gs, fs);
    ReorderedTile(fs, gs, stream);
    ParseEncoded(gs);
    FramesSliceChunks(gs, stream);
    FramesTileChunks(gs, stream);
    AssembledIsWholeIff(ChunksOf(gs), stream);
  }

  lemma SameFrames(fs: seq<Frame>, gs: seq<Frame>)
    requires multiset(gs) == multiset(fs)
    ensures forall j :: 0 <= j < |gs| ==> gs[j] in fs
  {
    forall j | 0 <= j < |gs| ensures gs[j] in fs {
      assert gs[j] in multiset(gs);
    }
  }

  lemma ReorderedTile(fs: seq<Frame>, gs: seq<Frame>, stream: seq<Byte>)
    requires FramesTile(fs, stream)
    requires (forall j :: 0 <= j < |gs| ==> gs[j] in fs) && (forall i :: 0 <= i < |fs| ==> fs[i] in gs)
    ensures FramesTile(gs, stream)
  {
    forall x: nat | x < |stream| ensures SomeFrameHolds(gs, x) {
      assert SomeFrameHolds(fs, x);
      var i :| 0 <= i < |fs| && FrameHolds(fs[i], x);
      var j :| 0 <= j < |gs| && gs[j] == fs[i];
    }
    forall i, j, x: nat | 0 <= i < |gs| && 0 <= j < |gs| && FrameHolds(gs[i], x) && FrameHolds(gs[j], x)
      ensures gs[i].offset.value == gs[j].offset.value && gs[i].data == gs[j].data
    {
      var i' :| 0 <= i' < |fs| && fs[i'] == gs[i];
      var j' :| 0 <= j' < |fs| && fs[j'] == gs[j];
    }
  }

  // ---------- the walker ----------

  /** With `items` read, the `m` reads left to do explain the `whole` run of reads. */
  ghost predicate ReadSoFar(whole: Result<Parsed<seq<VInt>>, QuicError>, items: seq<VInt>, rest: seq<Byte>, m: nat) {
    match ReadMany(rest, m)
    case Err(e) => whole == Err(e)
    case Ok(p) => whole == Ok(Parsed(items + p.item, p.rest))
  }

  /** Varints read from a payload, and the index after them. */
  datatype Reading = Reading(items: seq<VInt>, next: nat)

  /** `n` varints starting at `i`. */
  method ReadVarints(payload: seq<Byte>, i: nat, n: nat) returns (r: Result<Reading, QuicError>)
    requires i <= |payload|
    ensures r.Err? ==> ReadMany(payload[i..], n) == Err(r.error)
    ensures r.Ok? ==> |r.value.items| == n && i <= r.value.next <= |payload|
    ensures r.Ok? ==> ReadMany(payload[i..], n) == Ok(Parsed(r.value.items, payload[r.value.next..]))
  {
    ghost var whole := ReadMany(payload[i..], n);
    var items: seq<VInt> := [];
    var at, left := i, n;
    ReadStart(payload[i..], n);
    while left > 0
      invariant |items| + left == n && i <= at <= |payload|
      invariant ReadSoFar(whole, items, payload[at..], left)
    {
      var v := ReadNext(payload, at, whole, items, left);
      if v.Err? {
        return Err(v.error);
      }
      items, at, left := items + [v.value], at + v.value.width, left - 1;
    }
    ReadDone(whole, items, payload[at..]);
    r := Ok(Reading(items, at));
  }

  /** The varint at `at`, as one more item of the run being read. */
  method ReadNext(payload: seq<Byte>, at: nat, ghost whole: Result<Parsed<seq<VInt>>, QuicError>,
                  ghost items: seq<VInt>, ghost left: nat)
    returns (v: Result<VInt, QuicError>)
    requires at <= |payload| && left > 0 && ReadSoFar(whole, items, payload[at..], left)
    ensures v.Err? ==> whole == Err(v.error)
    ensures v.Ok? ==> at + v.value.width <= |payload|
    ensures v.Ok? ==> ReadSoFar(whole, items + [v.value], payload[at + v.value.width..], left - 1)
  {
    v := ReadVarint(payload[at..]);
    ReadOneMore(whole, items, payload[at..], left);
    if v.Ok? {
      SuffixOfSuffix(payload, at, v.value.width);
    }
  }

  lemma ReadDone(whole: Result<Parsed<seq<VInt>>, QuicError>, items: seq<VInt>, rest: seq<Byte>)
    requires ReadSoFar(whole, items, rest, 0)
    ensures whole == Ok(Parsed(items, rest))
  {
    assert items + [] == items;
  }

  lemma SuffixOfSuffix(s: seq<Byte>, at: nat, k: nat)
    requires at + k <= |s|
    ensures s[at..][k..] == s[at + k..] && s[at..][..k] == s[at..at + k]
  {
  }

  lemma ReadStart(buf: seq<Byte>, n: nat)
    ensures ReadSoFar(ReadMany(buf, n), [], buf, n)
  {
    if ReadMany(buf, n).Ok? {
      assert [] + ReadMany(buf, n).value.item == ReadMany(buf, n).value.item;
    }
  }

  lemma ReadOneMore(whole: Result<Parsed<seq<VInt>>, QuicError>, items: seq<VInt>, rest: seq<Byte>, m: nat)
    requires m > 0 && ReadSoFar(whole, items, rest, m)
    ensures ReadVInt(rest).Err? ==> whole == Err(ReadVInt(rest).error)
    ensures ReadVInt(rest).Ok? ==>
      ReadSoFar(whole, items + [ReadVInt(rest).value], rest[ReadVInt(rest).value.width..], m - 1)
  {
    if ReadVInt(rest).Ok? {
      var v := ReadVInt(rest).value;
      var p := ReadMany(rest[v.width..], m - 1);
      if p.Ok? {
        assert items + ([v] + p.value.item) == items + [v] + p.value.item;
      }
    }
  }

  /** The walker's view of one frame starting at `i`: where the next one starts, and the chunks so far. */
  ghost predicate FrameWalked(payload: seq<Byte>, i: nat, chunks: Chunks, r: Result<(nat, Chunks), QuicError>)
    requires i < |payload|
  {
    match ParseFrame(payload[i..])
    case Err(e) => r == Err(e)
    case Ok(p) =>
      && r.Ok? && i < r.value.0 <= |payload| && p.rest == payload[r.value.0..]
      && r.value.1 == if p.item.Crypto? then chunks[p.item.offset.value := p.item.data] else chunks
  }

  method WalkAck(payload: seq<Byte>, i: nat, ft: Byte) returns (r: Result<nat, QuicError>)
    requires i <= |payload|
    ensures match ParseAck(ft, payload[i..])
      case Err(e) => r == Err(e)
      case Ok(p) => r.Ok? && i <= r.value <= |payload| && p.rest == payload[r.value..] && p.item.Ack?
  {
    var head := ReadVarints(payload, i, 4);
    if head.Err? {
      return Err(head.error);
    }
    var ranges := ReadVarints(payload, head.value.next, 2 * head.value.items[2].value);
    if ranges.Err? {
      return Err(ranges.error);
    }
    var ecn := ReadVarints(payload, ranges.value.next, EcnCount(ft));
    r := if ecn.Ok? then Ok(ecn.value.next) else Err(ecn.error);
  }

  method WalkCrypto(payload: seq<Byte>, i: nat, chunks: Chunks) returns (r: Result<(nat, Chunks), QuicError>)
    requires i <= |payload|
    ensures match ParseCrypto(payload[i..])
      case Err(e) => r == Err(e)
      case Ok(p) =>
        && r.Ok? && i <= r.value.0 <= |payload| && p.rest == payload[r.value.0..]
        && p.item.Crypto? && r.value.1 == chunks[p.item.offset.value := p.item.data]
  {
    var head := ReadVarints(payload, i, 2);
    if head.Err? {
      return Err(head.error);
    }
    var offset, len, at := head.value.items[0].value, head.value.items[1].value, head.value.next;
    var end := at + len;
    if end > |payload| {
      return Err(CryptoFrame);
    }
    var data := payload[at..end];
    SuffixOfSuffix(payload, at, len);
    r := Ok((end, chunks[offset := data]));
  }

  method WalkFrame(payload: seq<Byte>, i: nat, chunks: Chunks) returns (r: Result<(nat, Chunks), QuicError>)
    requires i < |payload|
    ensures FrameWalked(payload, i, chunks, r)
  {
    var ft := payload[i];
    assert payload[i..][1..] == payload[i + 1..];
    if ft == 0x00 || ft == 0x01 {
      r := Ok((i + 1, chunks));
    } else if ft == 0x02 || ft == 0x03 {
      var a := WalkAck(payload, i + 1, ft);
      r := if a.Ok? then Ok((a.value, chunks)) else Err(a.error);
    } else if ft == 0x06 {
      r := WalkCrypto(payload, i + 1, chunks);
    } else {
      r := Err(UnexpectedFrame);
    }
  }

  method FindLeast(s: set<nat>) returns (m: nat)
    requires s != {}
    ensures m == Least(s)
  {
    m :| m in s;
    var left := s - {m};
    while left != {}
      invariant left <= s && m in s
      invariant forall x :: x in s - left ==> m <= x
    {
      var x :| x in left;
      if x < m {
        m := x;
      }
      assert s - (left - {x}) == (s - left) + {x};
      left := left - {x};
    }
    assert s - left == s;
  }

  /** Joins chunks in offset order until the first gap or overlap. */
  method JoinChunks(chunks: Chunks) returns (out: seq<Byte>)
    ensures out == Assembled(chunks)
  {
    out := [];
    var next: nat := 0;
    var left := chunks.Keys;
    while left != {}
      invariant left <= chunks.Keys
      invariant Assembled(chunks) == out + Joined(chunks, left, next)
      decreases |left|
    {
      var off := FindLeast(left);
      if off != next {
        return;
      }
      out := out + chunks[off];
      left := left - {off};
      next := next + |chunks[off]|;
    }
  }

  /** Parsing `buf` after the frames `done` explains parsing the whole payload. */
  ghost predicate WalkedSoFar(payload: seq<Byte>, done: seq<Frame>, buf: seq<Byte>) {
    match ParseFrames(buf)
    case Err(e) => ParseFrames(payload) == Err(e)
    case Ok(fs) => ParseFrames(payload) == Ok(done + fs)
  }

  lemma WalkOne(payload: seq<Byte>, done: seq<Frame>, buf: seq<Byte>)
    requires buf != [] && WalkedSoFar(payload, done, buf)
    ensures ParseFrame(buf).Err? ==> ParseFrames(payload) == Err(ParseFrame(buf).error)
    ensures ParseFrame(buf).Ok? ==>
      WalkedSoFar(payload, done + [ParseFrame(buf).value.item], ParseFrame(buf).value.rest)
  {
    if ParseFrame(buf).Ok? {
      var p := ParseFrame(buf).value;
      if ParseFrames(p.rest).Ok? {
        assert done + ([p.item] + ParseFrames(p.rest).value) == done + [p.item] + ParseFrames(p.rest).value;
      }
    }
  }

  /** Walks the frames of a decrypted payload and reassembles its CRYPTO stream. */
  method ReassembleCrypto(payload: seq<Byte>) returns (r: Result<seq<Byte>, QuicError>)
    ensures r == Reassembled(payload)
  {
    var chunks: Chunks := map[];
    ghost var done: seq<Frame> := [];
    var i := 0;
    assert payload[0..] == payload;
    assert ParseFrames(payload).Ok? ==> [] + ParseFrames(payload).value == ParseFrames(payload).value;
    while i < |payload|
      invariant 0 <= i <= |payload|
      invariant WalkedSoFar(payload, done, payload[i..])
      invariant chunks == ChunksOf(done)
    {
      WalkOne(payload, done, payload[i..]);
      var step := WalkFrame(payload, i, chunks);
      if step.Err? {
        return Err(step.error);
      }
      ghost var f := ParseFrame(payload[i..]).value.item;
      assert (done + [f])[..|done|] == done;
      done := done + [f];
      i, chunks := step.value.0, step.value.1;
    }
    assert done + [] == done;
    var out := JoinChunks(chunks);
    r := Ok(out);
  }
}
