/**
 The TLS record framer of the wire relay (scripts/wire-auc/relay.py, `pump`): bytes are forwarded
 as they come, and one row is written per complete record. A record is a 5-byte header whose last
 two bytes give the length of what follows (section 5.1 of RFC 8446).
 */
module RecordFramer {
  import opened Bytes
  import opened Collections

  const HEADER_LEN: nat := 5

  function Length(high: Byte, low: Byte): (n: nat)
    ensures n < 0x1_0000
  {
    256 * (high as nat) + low as nat
  }

  function RecordLen(buf: seq<Byte>): (n: nat)
    requires |buf| >= HEADER_LEN
    ensures n >= HEADER_LEN
  {
    HEADER_LEN + Length(buf[3], buf[4])
  }

  /** `buf` does not hold a complete record. */
  predicate Incomplete(buf: seq<Byte>) {
    |buf| < HEADER_LEN || |buf| < RecordLen(buf)
  }

  /** The sizes of the complete records at the front of a stream, and what is left over. */
  datatype Framing = Framing(sizes: seq<nat>, residual: seq<Byte>)

  function Frame(buf: seq<Byte>): Framing {
    if Incomplete(buf) then Framing([], buf)
    else
      var rest := Frame(buf[RecordLen(buf)..]);
      Framing([RecordLen(buf)] + rest.sizes, rest.residual)
  }

  function Sum(sizes: seq<nat>): nat {
    if sizes == [] then 0 else sizes[0] + Sum(sizes[1..])
  }

  /** Every byte is in a reported record or in the residual, which is a tail of the stream and not
      a complete record. */
  lemma {:induction false} FramingConserves(buf: seq<Byte>)
    ensures Sum(Frame(buf).sizes) + |Frame(buf).residual| == |buf|
    ensures Frame(buf).residual == buf[Sum(Frame(buf).sizes)..]
    ensures Incomplete(Frame(buf).residual)
    decreases |buf|
  {
    if !Incomplete(buf) {
      FramingConserves(buf[RecordLen(buf)..]);
      ConserveOne(buf, RecordLen(buf), Frame(buf[RecordLen(buf)..]));
    }
  }

  lemma ConserveOne(buf: seq<Byte>, n: nat, rest: Framing)
    requires n <= |buf| && Sum(rest.sizes) + |rest.residual| == |buf| - n
    requires rest.residual == buf[n..][Sum(rest.sizes)..]
    ensures Sum([n] + rest.sizes) + |rest.residual| == |buf|
    ensures rest.residual == buf[Sum([n] + rest.sizes)..]
  {
    assert ([n] + rest.sizes)[1..] == rest.sizes;
    assert buf[n..][Sum(rest.sizes)..] == buf[n + Sum(rest.sizes)..];
  }

  /** Going on from a framing with more bytes. */
  function Resume(f: Framing, more: seq<Byte>): Framing {
    var rest := Frame(f.residual + more);
    Framing(f.sizes + rest.sizes, rest.residual)
  }

  lemma CompleteExtends(x: seq<Byte>, y: seq<Byte>)
    requires !Incomplete(x)
    ensures !Incomplete(x + y) && RecordLen(x + y) == RecordLen(x)
    ensures (x + y)[RecordLen(x)..] == x[RecordLen(x)..] + y
  {
  }

  /** Framing a stream equals framing a first part and going on with the rest. */
  lemma {:induction false} FramingResumes(x: seq<Byte>, y: seq<Byte>)
    ensures Frame(x + y) == Resume(Frame(x), y)
    decreases |x|
  {
    if Incomplete(x) {
      assert [] + Frame(x + y).sizes == Frame(x + y).sizes;
    } else {
      var n := RecordLen(x);
      CompleteExtends(x, y);
      FramingResumes(x[n..], y);
      var before := Frame(x[n..]);
      var after := Frame(before.residual + y);
      assert [n] + (before.sizes + after.sizes) == [n] + before.sizes + after.sizes;
    }
  }

  // ---------- records ----------

  /** Content type, two version bytes, and a fragment shorter than 64 KiB. */
  datatype Record = Record(kind: Byte, major: Byte, minor: Byte, fragment: seq<Byte>)

  function EncodeRecord(r: Record): (s: seq<Byte>)
    requires |r.fragment| < 0x1_0000
    ensures |s| == HEADER_LEN + |r.fragment|
  {
    [r.kind, r.major, r.minor, |r.fragment| / 256, |r.fragment| % 256] + r.fragment
  }

  /** Section 5.1 of RFC 8446: type, two version bytes, the length most significant byte first. */
  lemma RecordFormat(r: Record)
    requires |r.fragment| < 0x1_0000
    ensures var s := EncodeRecord(r);
      s[..3] == [r.kind, r.major, r.minor] && 256 * (s[3] as nat) + s[4] as nat == |r.fragment| && s[5..] == r.fragment
  {
  }

  predicate AllShort(rs: seq<Record>) {
    forall i :: 0 <= i < |rs| ==> |rs[i].fragment| < 0x1_0000
  }

  function EncodeRecords(rs: seq<Record>): seq<Byte>
    requires AllShort(rs)
  {
    if rs == [] then [] else EncodeRecord(rs[0]) + EncodeRecords(rs[1..])
  }

  function Sizes(rs: seq<Record>): (sizes: seq<nat>)
    ensures |sizes| == |rs|
  {
    seq(|rs|, i requires 0 <= i < |rs| => HEADER_LEN + |rs[i].fragment|)
  }

  /** A stream of records followed by an incomplete one is framed as exactly those records. */
  lemma {:induction false} FramesRecords(rs: seq<Record>, tail: seq<Byte>)
    requires AllShort(rs) && Incomplete(tail)
    ensures Frame(EncodeRecords(rs) + tail) == Framing(Sizes(rs), tail)
  {
    if rs == [] {
      assert EncodeRecords(rs) + tail == tail;
    } else {
      var head, rest := EncodeRecord(rs[0]), EncodeRecords(rs[1..]);
      Regroup(head, rest, tail);
      FramesOne(rs[0], rest + tail);
      FramesRecords(rs[1..], tail);
      SizesCons(rs);
    }
  }

  lemma SizesCons(rs: seq<Record>)
    requires rs != []
    ensures Sizes(rs) == [HEADER_LEN + |rs[0].fragment|] + Sizes(rs[1..])
  {
  }

  lemma FramesOne(r: Record, rest: seq<Byte>)
    requires |r.fragment| < 0x1_0000
    ensures Frame(EncodeRecord(r) + rest) == Framing([|EncodeRecord(r)|] + Frame(rest).sizes, Frame(rest).residual)
  {
    var head := EncodeRecord(r);
    var buf := head + rest;
    assert buf[3] == |r.fragment| / 256 && buf[4] == |r.fragment| % 256;
    assert RecordLen(buf) == |head|;
    assert buf[|head|..] == rest;
  }

  // ---------- the pump ----------

  /** What arrives before the first empty read, which means end of stream. */
  function Stream(chunks: seq<seq<Byte>>): seq<Byte> {
    if chunks == [] || chunks[0] == [] then [] else chunks[0] + Stream(chunks[1..])
  }

  /** Splits of one stream into different non-empty reads are the same stream. */
  lemma {:induction false} StreamIsConcatenation(chunks: seq<seq<Byte>>, more: seq<seq<Byte>>)
    requires forall i :: 0 <= i < |chunks| ==> chunks[i] != []
    ensures Stream(chunks + more) == Stream(chunks) + Stream(more)
  {
    if chunks == [] {
      assert chunks + more == more;
    } else {
      assert (chunks + more)[1..] == chunks[1..] + more;
      StreamIsConcatenation(chunks[1..], more);
      assert chunks[0] + (Stream(chunks[1..]) + Stream(more)) == chunks[0] + Stream(chunks[1..]) + Stream(more);
    }
  }

  /** The sizes taken off so far and the framing of what is left make up the `whole` framing. */
  ghost predicate Drained(whole: Framing, sizes: seq<nat>, left: seq<Byte>) {
    whole == Framing(sizes + Frame(left).sizes, Frame(left).residual)
  }

  lemma DrainStart(buf: seq<Byte>)
    ensures Drained(Frame(buf), [], buf)
  {
    assert [] + Frame(buf).sizes == Frame(buf).sizes;
  }

  lemma DrainEnd(whole: Framing, sizes: seq<nat>, left: seq<Byte>)
    requires Drained(whole, sizes, left) && Incomplete(left)
    ensures whole == Framing(sizes, left)
  {
    assert sizes + [] == sizes;
  }

  lemma DrainOne(whole: Framing, sizes: seq<nat>, left: seq<Byte>)
    requires Drained(whole, sizes, left) && !Incomplete(left)
    ensures Drained(whole, sizes + [RecordLen(left)], left[RecordLen(left)..])
  {
    var n := RecordLen(left);
    assert sizes + ([n] + Frame(left[n..]).sizes) == sizes + [n] + Frame(left[n..]).sizes;
  }

  /** The inner loop: takes complete records off the front of the buffer. */
  method DrainRecords(buf: seq<Byte>) returns (sizes: seq<nat>, residual: seq<Byte>)
    ensures Framing(sizes, residual) == Frame(buf)
  {
    sizes, residual := [], buf;
    ghost var whole := Frame(buf);
    DrainStart(buf);
    while |residual| >= HEADER_LEN
      invariant Drained(whole, sizes, residual)
      decreases |residual|
    {
      var total := RecordLen(residual);
      if |residual| < total {
        break;
      }
      DrainOne(whole, sizes, residual);
      sizes, residual := sizes + [total], residual[total..];
    }
    DrainEnd(whole, sizes, residual);
  }

  lemma NextRead(forwarded: seq<Byte>, chunks: seq<seq<Byte>>, i: nat)
    requires i < |chunks| && chunks[i] != []
    ensures forwarded + Stream(chunks[i..]) == forwarded + chunks[i] + Stream(chunks[i + 1..])
  {
    assert chunks[i..][1..] == chunks[i + 1..];
    assert forwarded + (chunks[i] + Stream(chunks[i + 1..])) == forwarded + chunks[i] + Stream(chunks[i + 1..]);
  }

  /** Copies one direction and reports record sizes. What is reported depends only on the bytes
      received, not on how they were split into reads. */
  method Pump(chunks: seq<seq<Byte>>) returns (sizes: seq<nat>, residual: seq<Byte>, forwarded: seq<Byte>)
    ensures forwarded == Stream(chunks)
    ensures Framing(sizes, residual) == Frame(Stream(chunks))
    ensures Sum(sizes) + |residual| == |Stream(chunks)| && Incomplete(residual)
  {
    sizes, residual, forwarded := [], [], [];
    var i := 0;
    assert chunks[0..] == chunks;
    while i < |chunks| && chunks[i] != []
      invariant 0 <= i <= |chunks|
      invariant Stream(chunks) == forwarded + Stream(chunks[i..])
      invariant Frame(forwarded) == Framing(sizes, residual)
    {
      NextRead(forwarded, chunks, i);
      FramingResumes(forwarded, chunks[i]);
      forwarded := forwarded + chunks[i];
      var more;
      more, residual := DrainRecords(residual + chunks[i]);
      sizes := sizes + more;
      i := i + 1;
    }
    assert forwarded + [] == forwarded;
    FramingConserves(forwarded);
  }
}
