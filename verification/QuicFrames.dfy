/**
 The QUIC frame walker and CRYPTO-stream reassembly (crates/adversary/src/quic_initial.rs).

 Variable-length integers follow section 16 of RFC 9000; PADDING, PING, ACK and CRYPTO frames
 follow its sections 19.1, 19.2, 19.3 and 19.6. A sender may encode a value wider than needed,
 so a field carries its width along with its value.
 */
module QuicFrames {
  import opened Wrappers
  import opened Collections
  import opened Bytes

  datatype QuicError = VarintEof | VarintTruncated | CryptoFrame | UnexpectedFrame

  // ---------- variable-length integers ----------

  /** A value and the number of bytes it takes on the wire. */
  datatype VInt = VInt(value: nat, width: nat)

  function WidthOf(code: nat): nat
    requires code < 4
  {
    if code == 0 then 1 else if code == 1 then 2 else if code == 2 then 4 else 8
  }

  function CodeOf(width: nat): (code: nat)
    ensures code < 4
  {
    if width <= 1 then 0 else if width == 2 then 1 else if width == 4 then 2 else 3
  }

  predicate Fits(v: VInt) {
    v.width in {1, 2, 4, 8} && v.value < 64 * Pow256(v.width - 1)
  }

  /** The width code takes the top two bits of the first byte. */
  function EncodeVInt(v: VInt): (s: seq<Byte>)
    requires Fits(v)
    ensures |s| == v.width
  {
    TopBits(v);
    var b := BigEndian(v.value, v.width);
    [64 * CodeOf(v.width) + b[0]] + b[1..]
  }

  lemma TopBits(v: VInt)
    requires Fits(v)
    ensures BigEndian(v.value, v.width)[0] < 64
  {
    LeadingByte(v.value, v.width);
  }

  lemma {:induction false} LeadingByte(v: nat, n: nat)
    requires n >= 1 && v < 64 * Pow256(n - 1)
    ensures BigEndian(v, n)[0] < 64
  {
    if n > 1 {
      assert Pow256(n - 1) == 256 * Pow256(n - 2);
      LeadingByte(v / 256, n - 1);
      assert BigEndian(v, n)[0] == BigEndian(v / 256, n - 1)[0];
    }
  }

  /** The value with the width code masked off. */
  function ReadVInt(buf: seq<Byte>): (r: Result<VInt, QuicError>)
    ensures r.Ok? ==> 1 <= r.value.width <= |buf|
  {
    if buf == [] then Err(VarintEof)
    else
      var width := WidthOf(buf[0] / 64);
      if |buf| < width then Err(VarintTruncated)
      else Ok(VInt(FromBigEndian([buf[0] % 64] + buf[1..width]), width))
  }

  /** Section 16 of RFC 9000: the two top bits of the first byte give the width, the other six and
      the bytes after it the value, most significant first. */
  lemma VarintFormat(buf: seq<Byte>)
    requires buf != []
    ensures var width := if buf[0] < 64 then 1 else if buf[0] < 128 then 2 else if buf[0] < 192 then 4 else 8;
      if |buf| < width then ReadVInt(buf) == Err(VarintTruncated)
      else ReadVInt(buf) == Ok(VInt((buf[0] % 64) * Pow256(width - 1) + FromBigEndian(buf[1..width]), width))
  {
    var width := WidthOf(buf[0] / 64);
    if width <= |buf| {
      var masked: seq<Byte> := [buf[0] % 64] + buf[1..width];
      MostSignificantFirst(masked);
      assert masked[1..] == buf[1..width];
    }
  }

  lemma ReadEncoded(v: VInt, rest: seq<Byte>)
    requires Fits(v)
    ensures ReadVInt(EncodeVInt(v) + rest) == Ok(v)
  {
    TopBits(v);
    var b := BigEndian(v.value, v.width);
    var buf := EncodeVInt(v) + rest;
    assert buf[0] == 64 * CodeOf(v.width) + b[0];
    assert buf[0] / 64 == CodeOf(v.width) && buf[0] % 64 == b[0];
    assert WidthOf(CodeOf(v.width)) == v.width;
    assert [b[0]] + buf[1..v.width] == b;
    FitsWidth(v);
    FromToBigEndian(v.value, v.width);
  }

  lemma FitsWidth(v: VInt)
    requires Fits(v)
    ensures v.value < Pow256(v.width)
  {
    assert Pow256(v.width) == 256 * Pow256(v.width - 1);
  }

  lemma EncodeRead(buf: seq<Byte>)
    requires ReadVInt(buf).Ok?
    ensures Fits(ReadVInt(buf).value) && EncodeVInt(ReadVInt(buf).value) == buf[..ReadVInt(buf).value.width]
  {
    var v := ReadVInt(buf).value;
    var masked: seq<Byte> := [buf[0] % 64] + buf[1..v.width];
    MaskedFits(masked, v);
    assert CodeOf(v.width) == buf[0] / 64;
    assert [64 * (buf[0] / 64) + masked[0]] + masked[1..] == buf[..v.width];
  }

  lemma MaskedFits(masked: seq<Byte>, v: VInt)
    requires v.width in {1, 2, 4, 8} && |masked| == v.width && masked[0] < 64 && v.value == FromBigEndian(masked)
    ensures Fits(v) && EncodeVInt(v) == [64 * CodeOf(v.width) + masked[0]] + masked[1..]
  {
    ToFromBigEndian(masked);
    LeadingBound(masked);
  }

  lemma {:induction false} LeadingBound(s: seq<Byte>)
    requires s != [] && s[0] < 64
    ensures FromBigEndian(s) < 64 * Pow256(|s| - 1)
  {
    if |s| > 1 {
      LeadingBound(s[..|s| - 1]);
      assert Pow256(|s| - 1) == 256 * Pow256(|s| - 2);
    } else {
      assert FromBigEndian(s[..0]) == 0;
    }
  }

  /** The accumulating loop. */
  method ReadVarint(buf: seq<Byte>) returns (r: Result<VInt, QuicError>)
    ensures r == ReadVInt(buf)
  {
    if buf == [] {
      return Err(VarintEof);
    }
    var first := buf[0];
    var len := WidthOf(first / 64);
    if |buf| < len {
      return Err(VarintTruncated);
    }
    var v: nat := first % 64;
    ghost var masked: seq<Byte> := [first % 64] + buf[1..len];
    NextDigit(masked, 0);
    var i := 1;
    while i < len
      invariant 1 <= i <= len
      invariant v == FromBigEndian(masked[..i])
    {
      NextDigit(masked, i);
      assert masked[i] == buf[i];
      v := 256 * v + buf[i];
      i := i + 1;
    }
    assert masked[..len] == masked;
    r := Ok(VInt(v, len));
  }

  lemma NextDigit(s: seq<Byte>, i: nat)
    requires i < |s|
    ensures FromBigEndian(s[..i + 1]) == 256 * FromBigEndian(s[..i]) + s[i]
  {
    assert s[..i + 1][..i] == s[..i];
  }

  // ---------- runs of varints ----------

  /** Something read from the front of a buffer, and what follows it. */
  datatype Parsed<T> = Parsed(item: T, rest: seq<Byte>)

  predicate AllFit(vs: seq<VInt>) {
    forall i :: 0 <= i < |vs| ==> Fits(vs[i])
  }

  function EncodeMany(vs: seq<VInt>): seq<Byte>
    requires AllFit(vs)
  {
    if vs == [] then [] else EncodeVInt(vs[0]) + EncodeMany(vs[1..])
  }

  /** `n` varints from the front of `buf`. */
  function ReadMany(buf: seq<Byte>, n: nat): (r: Result<Parsed<seq<VInt>>, QuicError>)
    ensures r.Ok? ==> |r.value.item| == n && |r.value.rest| <= |buf|
  {
    if n == 0 then Ok(Parsed([], buf))
    else
      match ReadVInt(buf)
      case Err(e) => Err(e)
      case Ok(v) =>
        match ReadMany(buf[v.width..], n - 1)
        case Err(e) => Err(e)
        case Ok(p) => Ok(Parsed([v] + p.item, p.rest))
  }

  lemma {:induction false} ReadManyEncoded(vs: seq<VInt>, rest: seq<Byte>)
    requires AllFit(vs)
    ensures ReadMany(EncodeMany(vs) + rest, |vs|) == Ok(Parsed(vs, rest))
  {
    if vs == [] {
      assert EncodeMany(vs) + rest == rest;
    } else {
      var tail := EncodeMany(vs[1..]) + rest;
      assert EncodeMany(vs) + rest == EncodeVInt(vs[0]) + tail;
      ReadEncoded(vs[0], tail);
      assert (EncodeVInt(vs[0]) + tail)[vs[0].width..] == tail;
      ReadManyEncoded(vs[1..], rest);
      assert [vs[0]] + vs[1..] == vs;
    }
  }

  lemma EncodeManyCons(v: VInt, vs: seq<VInt>)
    requires Fits(v) && AllFit(vs)
    ensures AllFit([v] + vs) && EncodeMany([v] + vs) == EncodeVInt(v) + EncodeMany(vs)
  {
    assert ([v] + vs)[1..] == vs;
  }

  lemma {:induction false} EncodeReadMany(buf: seq<Byte>, n: nat)
    requires ReadMany(buf, n).Ok?
    ensures AllFit(ReadMany(buf, n).value.item)
    ensures EncodeMany(ReadMany(buf, n).value.item) + ReadMany(buf, n).value.rest == buf
  {
    if n > 0 {
      var v := ReadVInt(buf).value;
      var after := buf[v.width..];
      EncodeRead(buf);
      EncodeReadMany(after, n - 1);
      var p := ReadMany(after, n - 1).value;
      EncodeManyFront(buf, v, p);
    }
  }

  lemma EncodeManyFront(buf: seq<Byte>, v: VInt, p: Parsed<seq<VInt>>)
    requires Fits(v) && v.width <= |buf| && EncodeVInt(v) == buf[..v.width]
    requires AllFit(p.item) && EncodeMany(p.item) + p.rest == buf[v.width..]
    ensures AllFit([v] + p.item) && EncodeMany([v] + p.item) + p.rest == buf
  {
    EncodeManyCons(v, p.item);
    Regroup(EncodeVInt(v), EncodeMany(p.item), p.rest);
    assert buf == buf[..v.width] + buf[v.width..];
  }

  // ---------- frames ----------

  /** `ranges` lists gap, length, gap, length, ...; `ecn` is empty or the three ECN counts. */
  datatype Frame =
    | Padding
    | Ping
    | Ack(largest: VInt, delay: VInt, count: VInt, first: VInt, ranges: seq<VInt>, ecn: seq<VInt>)
    | Crypto(offset: VInt, length: VInt, data: seq<Byte>)

  predicate WellFormed(f: Frame) {
    match f
    case Padding => true
    case Ping => true
    case Ack(largest, delay, count, first, ranges, ecn) =>
      && AllFit([largest, delay, count, first]) && AllFit(ranges) && AllFit(ecn)
      && |ranges| == 2 * count.value && (|ecn| == 0 || |ecn| == 3)
    case Crypto(offset, length, data) => AllFit([offset, length]) && length.value == |data|
  }

  function AckBody(f: Frame): seq<Byte>
    requires f.Ack? && WellFormed(f)
  {
    EncodeMany([f.largest, f.delay, f.count, f.first]) + EncodeMany(f.ranges) + EncodeMany(f.ecn)
  }

  function CryptoBody(f: Frame): seq<Byte>
    requires f.Crypto? && WellFormed(f)
  {
    EncodeMany([f.offset, f.length]) + f.data
  }

  function EncodeFrame(f: Frame): seq<Byte>
    requires WellFormed(f)
  {
    match f
    case Padding => [0x00]
    case Ping => [0x01]
    case Ack(_, _, _, _, _, ecn) => [if ecn == [] then 0x02 else 0x03] + AckBody(f)
    case Crypto(_, _, _) => [0x06] + CryptoBody(f)
  }

  /** Sections 19.1, 19.2, 19.3 and 19.6 of RFC 9000: the type byte and the fields in order. */
  lemma AckFormat(largest: VInt, delay: VInt, count: VInt, first: VInt, ranges: seq<VInt>, ecn: seq<VInt>)
    requires Fits(largest) && Fits(delay) && Fits(count) && Fits(first) && AllFit(ranges) && AllFit(ecn)
    requires |ranges| == 2 * count.value && (|ecn| == 0 || |ecn| == 3)
    ensures var f := Ack(largest, delay, count, first, ranges, ecn);
      var head := EncodeVInt(largest) + EncodeVInt(delay) + EncodeVInt(count) + EncodeVInt(first);
      && WellFormed(f)
      && EncodeFrame(f) == [if |ecn| == 3 then 3 else 2] + (head + EncodeMany(ranges) + EncodeMany(ecn))
  {
    EncodeFour(largest, delay, count, first);
  }

  lemma CryptoFormat(offset: VInt, length: VInt, data: seq<Byte>)
    requires Fits(offset) && Fits(length) && length.value == |data|
    ensures WellFormed(Crypto(offset, length, data))
    ensures EncodeFrame(Crypto(offset, length, data)) == [6] + (EncodeVInt(offset) + EncodeVInt(length) + data)
    ensures EncodeFrame(Padding) == [0] && EncodeFrame(Ping) == [1]
  {
    EncodeTwo(offset, length);
  }

  lemma EncodeTwo(a: VInt, b: VInt)
    requires Fits(a) && Fits(b)
    ensures EncodeMany([a, b]) == EncodeVInt(a) + EncodeVInt(b)
  {
    EncodeManyCons(b, []);
    EncodeManyCons(a, [b]);
    assert [b] + [] == [b] && [a] + [b] == [a, b];
  }

  lemma EncodeFour(a: VInt, b: VInt, c: VInt, d: VInt)
    requires Fits(a) && Fits(b) && Fits(c) && Fits(d)
    ensures EncodeMany([a, b, c, d]) == EncodeVInt(a) + EncodeVInt(b) + EncodeVInt(c) + EncodeVInt(d)
  {
    EncodeTwo(c, d);
    EncodeManyCons(b, [c, d]);
    EncodeManyCons(a, [b, c, d]);
    assert [b] + [c, d] == [b, c, d] && [a] + [b, c, d] == [a, b, c, d];
    Regroup(EncodeVInt(b), EncodeVInt(c), EncodeVInt(d));
    var x, y := EncodeVInt(a), EncodeVInt(b);
    assert x + (y + EncodeVInt(c) + EncodeVInt(d)) == x + y + EncodeVInt(c) + EncodeVInt(d);
  }

  predicate AllWellFormed(fs: seq<Frame>) {
    forall i :: 0 <= i < |fs| ==> WellFormed(fs[i])
  }

  function EncodeFrames(fs: seq<Frame>): seq<Byte>
    requires AllWellFormed(fs)
  {
    if fs == [] then [] else EncodeFrame(fs[0]) + EncodeFrames(fs[1..])
  }

  function EcnCount(ft: Byte): nat { if ft == 0x03 then 3 else 0 }

  function ParseAck(ft: Byte, buf: seq<Byte>): (r: Result<Parsed<Frame>, QuicError>)
    ensures r.Ok? ==> |r.value.rest| <= |buf|
  {
    match ReadMany(buf, 4)
    case Err(e) => Err(e)
    case Ok(head) =>
      match ReadMany(head.rest, 2 * head.item[2].value)
      case Err(e) => Err(e)
      case Ok(ranges) =>
        match ReadMany(ranges.rest, EcnCount(ft))
        case Err(e) => Err(e)
        case Ok(ecn) =>
          Ok(Parsed(Ack(head.item[0], head.item[1], head.item[2], head.item[3], ranges.item, ecn.item), ecn.rest))
  }

  function ParseCrypto(buf: seq<Byte>): (r: Result<Parsed<Frame>, QuicError>)
    ensures r.Ok? ==> |r.value.rest| <= |buf|
  {
    match ReadMany(buf, 2)
    case Err(e) => Err(e)
    case Ok(head) =>
      var n := head.item[1].value;
      if n > |head.rest| then Err(CryptoFrame)
      else Ok(Parsed(Crypto(head.item[0], head.item[1], head.rest[..n]), head.rest[n..]))
  }

  /** One frame from the front of `buf`. */
  function ParseFrame(buf: seq<Byte>): (r: Result<Parsed<Frame>, QuicError>)
    requires buf != []
    ensures r.Ok? ==> |r.value.rest| < |buf|
  {
    var ft := buf[0];
    if ft == 0x00 then Ok(Parsed(Padding, buf[1..]))
    else if ft == 0x01 then Ok(Parsed(Ping, buf[1..]))
    else if ft == 0x02 || ft == 0x03 then ParseAck(ft, buf[1..])
    else if ft == 0x06 then ParseCrypto(buf[1..])
    else Err(UnexpectedFrame)
  }

  function ParseFrames(buf: seq<Byte>): Result<seq<Frame>, QuicError>
    decreases |buf|
  {
    if buf == [] then Ok([])
    else
      match ParseFrame(buf)
      case Err(e) => Err(e)
      case Ok(p) =>
        match ParseFrames(p.rest)
        case Err(e) => Err(e)
        case Ok(fs) => Ok([p.item] + fs)
  }

  lemma ParseAckEncoded(f: Frame, rest: seq<Byte>)
    requires f.Ack? && WellFormed(f)
    ensures ParseAck(if f.ecn == [] then 0x02 else 0x03, AckBody(f) + rest) == Ok(Parsed(f, rest))
  {
    var head := [f.largest, f.delay, f.count, f.first];
    var a, b, c := EncodeMany(head), EncodeMany(f.ranges), EncodeMany(f.ecn);
    assert AckBody(f) + rest == a + (b + (c + rest));
    ReadManyEncoded(head, b + (c + rest));
    ReadManyEncoded(f.ranges, c + rest);
    ReadManyEncoded(f.ecn, rest);
  }

  lemma ParseCryptoEncoded(f: Frame, rest: seq<Byte>)
    requires f.Crypto? && WellFormed(f)
    ensures ParseCrypto(CryptoBody(f) + rest) == Ok(Parsed(f, rest))
  {
    var head := [f.offset, f.length];
    var after := f.data + rest;
    Regroup(EncodeMany(head), f.data, rest);
    ReadManyEncoded(head, after);
    assert after[..|f.data|] == f.data && after[|f.data|..] == rest;
  }

  /** A frame is read by its type byte from what follows it. */
  lemma ParseByType(ft: Byte, body: seq<Byte>)
    ensures ft == 0x00 ==> ParseFrame([ft] + body) == Ok(Parsed(Padding, body))
    ensures ft == 0x01 ==> ParseFrame([ft] + body) == Ok(Parsed(Ping, body))
    ensures ft == 0x02 || ft == 0x03 ==> ParseFrame([ft] + body) == ParseAck(ft, body)
    ensures ft == 0x06 ==> ParseFrame([ft] + body) == ParseCrypto(body)
  {
    assert ([ft] + body)[1..] == body;
  }

  lemma ParseFrameEncoded(f: Frame, rest: seq<Byte>)
    requires WellFormed(f)
    ensures ParseFrame(EncodeFrame(f) + rest) == Ok(Parsed(f, rest))
  {
    match f
    case Padding => ParseByType(0x00, rest);
    case Ping => ParseByType(0x01, rest);
    case Ack(_, _, _, _, _, ecn) =>
      var ft := if ecn == [] then 0x02 else 0x03;
      Regroup([ft], AckBody(f), rest);
      ParseByType(ft, AckBody(f) + rest);
      ParseAckEncoded(f, rest);
    case Crypto(_, _, _) =>
      Regroup([0x06], CryptoBody(f), rest);
      ParseByType(0x06, CryptoBody(f) + rest);
      ParseCryptoEncoded(f, rest);
  }

  /** Every list of frames is recovered from its encoding. */
  lemma {:induction false} ParseEncoded(fs: seq<Frame>)
    requires AllWellFormed(fs)
    ensures ParseFrames(EncodeFrames(fs)) == Ok(fs)
  {
    if fs != [] {
      ParseFrameEncoded(fs[0], EncodeFrames(fs[1..]));
      ParseEncoded(fs[1..]);
      assert [fs[0]] + fs[1..] == fs;
    }
  }

  lemma EncodeParsedAck(ft: Byte, buf: seq<Byte>)
    requires (ft == 0x02 || ft == 0x03) && ParseAck(ft, buf).Ok?
    ensures WellFormed(ParseAck(ft, buf).value.item) && ParseAck(ft, buf).value.item.Ack?
    ensures AckBody(ParseAck(ft, buf).value.item) + ParseAck(ft, buf).value.rest == buf
    ensures (ParseAck(ft, buf).value.item.ecn == []) <==> ft == 0x02
  {
    EncodeReadMany(buf, 4);
    var head := ReadMany(buf, 4).value;
    EncodeReadMany(head.rest, 2 * head.item[2].value);
    var ranges := ReadMany(head.rest, 2 * head.item[2].value).value;
    EncodeReadMany(ranges.rest, EcnCount(ft));
    var ecn := ReadMany(ranges.rest, EcnCount(ft)).value;
    assert head.item == [head.item[0], head.item[1], head.item[2], head.item[3]];
    var a, b, c := EncodeMany(head.item), EncodeMany(ranges.item), EncodeMany(ecn.item);
    Regroup(a + b, c, ecn.rest);
    Regroup(a, b, c + ecn.rest);
  }

  lemma EncodeParsedCrypto(buf: seq<Byte>)
    requires ParseCrypto(buf).Ok?
    ensures WellFormed(ParseCrypto(buf).value.item) && ParseCrypto(buf).value.item.Crypto?
    ensures CryptoBody(ParseCrypto(buf).value.item) + ParseCrypto(buf).value.rest == buf
  {
    EncodeReadMany(buf, 2);
    EncodeCutCrypto(buf, ReadMany(buf, 2).value);
  }

  lemma EncodeCutCrypto(buf: seq<Byte>, head: Parsed<seq<VInt>>)
    requires |head.item| == 2 && head.item[1].value <= |head.rest| && AllFit(head.item)
    requires EncodeMany(head.item) + head.rest == buf
    ensures EncodeMany([head.item[0], head.item[1]]) + head.rest[..head.item[1].value]
            + head.rest[head.item[1].value..] == buf
  {
    var n := head.item[1].value;
    assert head.item == [head.item[0], head.item[1]];
    assert head.rest == head.rest[..n] + head.rest[n..];
    Regroup(EncodeMany(head.item), head.rest[..n], head.rest[n..]);
  }

  lemma EncodeParsedFrame(buf: seq<Byte>)
    requires buf != [] && ParseFrame(buf).Ok?
    ensures WellFormed(ParseFrame(buf).value.item)
    ensures EncodeFrame(ParseFrame(buf).value.item) + ParseFrame(buf).value.rest == buf
  {
    assert buf == [buf[0]] + buf[1..];
    var p := ParseFrame(buf).value;
    if buf[0] == 0x02 || buf[0] == 0x03 {
      EncodeParsedAck(buf[0], buf[1..]);
      Regroup([buf[0]], AckBody(p.item), p.rest);
    } else if buf[0] == 0x06 {
      EncodeParsedCrypto(buf[1..]);
      Regroup([buf[0]], CryptoBody(p.item), p.rest);
    }
  }

  /** Conversely, whatever parses is the encoding of the frames it parses to. */
  lemma {:induction false} EncodeParsed(buf: seq<Byte>)
    requires ParseFrames(buf).Ok?
    ensures AllWellFormed(ParseFrames(buf).value) && EncodeFrames(ParseFrames(buf).value) == buf
    decreases |buf|
  {
    if buf != [] {
      var p := ParseFrame(buf).value;
      EncodeParsedFrame(buf);
      EncodeParsed(p.rest);
      assert ([p.item] + ParseFrames(p.rest).value)[1..] == ParseFrames(p.rest).value;
    }
  }
}
