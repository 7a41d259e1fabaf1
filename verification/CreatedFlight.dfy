/**
 Handshake fragmentation over cells: `HandshakeBody` (crates/circuit/src/extend.rs) splits a
 handshake message into a first body with a 2-byte length and continuation bodies; the executor
 (crates/bridge/src/circuit_executor.rs) sends such a flight and reassembles the CREATED reply.

 A link delivers cells in order until it closes; it is the queue of cells still to come.
 */
module CreatedFlight {
  import opened Wrappers
  import opened Bytes
  import opened Collections
  import opened Cell

  const CMD_CREATE: Byte := 0x01
  const CMD_CREATED: Byte := 0x02
  const CMD_CREATE_CONT: Byte := 0x11
  const CMD_CREATED_CONT: Byte := 0x12
  const MAX_HANDSHAKE_BODY_LEN: nat := 2 * 1221

  datatype FlightError =
    | TooLarge | TooShort | TotalTooLarge | FirstChunkTooLong
    | ClosedBeforeCreated | NotCreated | ClosedMidway | NotContinuation | Overflow

  // ---------- fragmentation ----------

  function Concat(chunks: seq<seq<Byte>>): seq<Byte> {
    if chunks == [] then [] else chunks[0] + Concat(chunks[1..])
  }

  lemma {:induction false} ConcatSnoc(chunks: seq<seq<Byte>>, c: seq<Byte>)
    ensures Concat(chunks + [c]) == Concat(chunks) + c
  {
    if chunks == [] {
      assert chunks + [c] == [c];
    } else {
      assert (chunks + [c])[1..] == chunks[1..] + [c];
      ConcatSnoc(chunks[1..], c);
    }
  }

  /** A first body and the continuation bodies after it. */
  datatype Fragments = Fragments(first: seq<Byte>, conts: seq<seq<Byte>>)

  /** The message is cut into chunks that fit a cell: a length prefix and the start in the first
      body, and continuations, some perhaps empty, for the rest. */
  ghost predicate Fragmentation(f: Fragments, message: seq<Byte>, maxBody: nat) {
    && |message| <= MAX_HANDSHAKE_BODY_LEN
    && 2 <= |f.first| <= maxBody && f.first[..2] == BigEndian(|message|, 2)
    && f.first[2..] + Concat(f.conts) == message
    && forall i :: 0 <= i < |f.conts| ==> |f.conts[i]| <= maxBody
  }

  /** Every continuation is non-empty and fits, and all but the last are full. */
  ghost predicate FullBodies(conts: seq<seq<Byte>>, maxBody: nat) {
    && (forall i :: 0 <= i < |conts| ==> 0 < |conts[i]| <= maxBody)
    && (forall i :: 0 <= i < |conts| - 1 ==> |conts[i]| == maxBody)
  }

  /** Cuts what lies beyond `head` into continuations. */
  method CutRest(message: seq<Byte>, head: nat, maxBody: nat) returns (conts: seq<seq<Byte>>)
    requires head <= |message| && maxBody > 0
    ensures Concat(conts) == message[head..] && FullBodies(conts, maxBody)
    ensures conts == [] <==> head == |message|
  {
    conts := [];
    var cursor := head;
    while cursor < |message|
      invariant head <= cursor <= |message|
      invariant Concat(conts) == message[head..cursor]
      invariant FullBodies(conts, maxBody)
      invariant cursor < |message| && conts != [] ==> |conts[|conts| - 1]| == maxBody
      invariant conts == [] <==> cursor == head
    {
      var take := if maxBody < |message| - cursor then maxBody else |message| - cursor;
      var chunk := message[cursor..cursor + take];
      ConcatSnoc(conts, chunk);
      assert message[head..cursor] + chunk == message[head..cursor + take];
      conts := conts + [chunk];
      cursor := cursor + take;
    }
    assert message[head..cursor] == message[head..];
  }

  /** Cuts a message greedily, as full as each body allows. */
  method EncodeFragmented(message: seq<Byte>, maxBody: nat) returns (r: Result<Fragments, FlightError>)
    ensures r.Err? <==> |message| > MAX_HANDSHAKE_BODY_LEN || maxBody < 2
    ensures r.Err? ==> r.error == TooLarge
    ensures r.Ok? ==> Fragmentation(r.value, message, maxBody) && FullBodies(r.value.conts, maxBody)
    ensures r.Ok? ==> (r.value.conts == [] <==> |message| + 2 <= maxBody)
    ensures r.Ok? && r.value.conts != [] ==> |r.value.first| == maxBody
  {
    if |message| > MAX_HANDSHAKE_BODY_LEN || 2 > maxBody {
      return Err(TooLarge);
    }
    var head := if maxBody - 2 < |message| then maxBody - 2 else |message|;
    var prefix := BigEndian(|message|, 2);
    var first := prefix + message[..head];
    var conts := CutRest(message, head, maxBody);
    assert first[..2] == prefix && first[2..] == message[..head];
    assert message[..head] + message[head..] == message;
    r := Ok(Fragments(first, conts));
  }

  datatype Partial = Partial(total: nat, chunk: seq<Byte>)

  /** The declared total and the first chunk, which may not exceed it. */
  function DecodePartial(buf: seq<Byte>): (r: Result<Partial, FlightError>)
    ensures r.Ok? ==> |r.value.chunk| <= r.value.total <= MAX_HANDSHAKE_BODY_LEN
  {
    if |buf| < 2 then Err(TooShort)
    else
      var total := FromBigEndian(buf[..2]);
      if total > MAX_HANDSHAKE_BODY_LEN then Err(TotalTooLarge)
      else if |buf[2..]| > total then Err(FirstChunkTooLong)
      else Ok(Partial(total, buf[2..]))
  }

  lemma DecodeFirst(f: Fragments, message: seq<Byte>, maxBody: nat)
    requires Fragmentation(f, message, maxBody)
    ensures DecodePartial(f.first) == Ok(Partial(|message|, f.first[2..]))
  {
    FourBytes();
    FromToBigEndian(|message|, 2);
    assert |f.first[2..]| <= |f.first[2..] + Concat(f.conts)|;
  }

  // ---------- the flight ----------

  /** One cell per body, the first with its own command. */
  function FlightOf(circId: CircId, cmd: Byte, contCmd: Byte, f: Fragments): (cells: seq<Cell>)
    ensures |cells| == 1 + |f.conts|
  {
    [Cell(circId, cmd, f.first)] + seq(|f.conts|, i requires 0 <= i < |f.conts| => Cell(circId, contCmd, f.conts[i]))
  }

  /** Every cell of a flight can be built: each body fits. */
  lemma FlightIsConstructible(circId: CircId, cmd: Byte, contCmd: Byte, f: Fragments, message: seq<Byte>, maxBody: nat)
    requires circId != 0 && cmd != CMD_RESERVED && contCmd != CMD_RESERVED
    requires Fragmentation(f, message, maxBody) && maxBody <= MAX_CELL_PAYLOAD
    ensures var flight := FlightOf(circId, cmd, contCmd, f);
      forall i :: 0 <= i < |flight| ==> Constructible(flight[i])
  {
  }

  /** The message read so far and the cells not yet received. */
  datatype Received = Received(message: seq<Byte>, queue: seq<Cell>)

  /** Continuations until `total` bytes are in. */
  function ReadRest(message: seq<Byte>, total: nat, queue: seq<Cell>): (r: Result<Received, FlightError>)
    decreases |queue|
  {
    if |message| >= total then Ok(Received(message, queue))
    else if queue == [] then Err(ClosedMidway)
    else if queue[0].command != CMD_CREATED_CONT then Err(NotContinuation)
    else if |message| + |queue[0].body| > total then Err(Overflow)
    else ReadRest(message + queue[0].body, total, queue[1..])
  }

  function ReadCreatedOf(queue: seq<Cell>): Result<Received, FlightError> {
    if queue == [] then Err(ClosedBeforeCreated)
    else if queue[0].command != CMD_CREATED then Err(NotCreated)
    else
      match DecodePartial(queue[0].body)
      case Err(e) => Err(e)
      case Ok(p) => ReadRest(p.chunk, p.total, queue[1..])
  }

  function Bodies(cells: seq<Cell>): (b: seq<seq<Byte>>)
    ensures |b| == |cells|
  {
    seq(|cells|, i requires 0 <= i < |cells| => cells[i].body)
  }

  ghost predicate Continuations(cells: seq<Cell>) {
    forall i :: 0 <= i < |cells| ==> cells[i].command == CMD_CREATED_CONT
  }

  /** How many of these continuations are read: those up to the last non-empty one. */
  function Needed(conts: seq<Cell>): (n: nat)
    ensures n <= |conts|
  {
    if Concat(Bodies(conts)) == [] then 0 else 1 + Needed(conts[1..])
  }

  lemma {:induction false} NeededAll(conts: seq<Cell>)
    ensures Needed(conts) == |conts| <==> conts == [] || conts[|conts| - 1].body != []
  {
    if conts != [] {
      assert Bodies(conts)[1..] == Bodies(conts[1..]);
      NeededAll(conts[1..]);
      if conts[|conts| - 1].body != [] {
        LastCounts(conts);
      }
    }
  }

  lemma {:induction false} LastCounts(conts: seq<Cell>)
    requires conts != [] && conts[|conts| - 1].body != []
    ensures Concat(Bodies(conts)) != []
  {
    assert Bodies(conts)[1..] == Bodies(conts[1..]);
    if |conts| > 1 {
      LastCounts(conts[1..]);
    }
  }

  /** Continuations that complete the message are read up to the last non-empty one, and nothing
      beyond it is touched. */
  lemma {:induction false} ReadRestExact(message: seq<Byte>, total: nat, conts: seq<Cell>, rest: seq<Cell>)
    requires Continuations(conts) && |message| + |Concat(Bodies(conts))| == total
    ensures ReadRest(message, total, conts + rest)
         == Ok(Received(message + Concat(Bodies(conts)), conts[Needed(conts)..] + rest))
    decreases |conts|
  {
    if Concat(Bodies(conts)) == [] {
      assert message + [] == message && conts[0..] == conts;
    } else {
      var body := conts[0].body;
      assert Bodies(conts)[1..] == Bodies(conts[1..]);
      assert (conts + rest)[1..] == conts[1..] + rest;
      ReadRestExact(message + body, total, conts[1..], rest);
      Regroup(message, body, Concat(Bodies(conts[1..])));
      assert conts[1..][Needed(conts[1..])..] == conts[Needed(conts)..];
    }
  }

  /** A successful read took some continuations and returns exactly the declared number of bytes. */
  lemma {:induction false} ReadRestSound(message: seq<Byte>, total: nat, queue: seq<Cell>) returns (n: nat)
    requires |message| <= total && ReadRest(message, total, queue).Ok?
    ensures n <= |queue| && Continuations(queue[..n])
    ensures ReadRest(message, total, queue).value == Received(message + Concat(Bodies(queue[..n])), queue[n..])
    ensures |ReadRest(message, total, queue).value.message| == total
    decreases |queue|
  {
    if |message| >= total {
      n := 0;
      assert message + [] == message;
    } else {
      var k := ReadRestSound(message + queue[0].body, total, queue[1..]);
      n := k + 1;
      assert queue[..n] == [queue[0]] + queue[1..][..k];
      assert Bodies(queue[..n])[1..] == Bodies(queue[1..][..k]);
      assert queue[1..][k..] == queue[n..];
      Regroup(message, queue[0].body, Concat(Bodies(queue[1..][..k])));
    }
  }

  /** Whatever the peer sends, a message that is returned has exactly the length it declared and is
      the concatenation of the chunks received. */
  lemma ReadCreatedSound(queue: seq<Cell>) returns (n: nat)
    requires ReadCreatedOf(queue).Ok?
    ensures 1 <= n <= |queue| && queue[0].command == CMD_CREATED && Continuations(queue[1..n])
    ensures DecodePartial(queue[0].body).Ok?
    ensures |ReadCreatedOf(queue).value.message| == DecodePartial(queue[0].body).value.total
    ensures ReadCreatedOf(queue).value == Received(queue[0].body[2..] + Concat(Bodies(queue[1..n])), queue[n..])
  {
    var p := DecodePartial(queue[0].body).value;
    var k := ReadRestSound(p.chunk, p.total, queue[1..]);
    n := k + 1;
    assert queue[1..][..k] == queue[1..n] && queue[1..][k..] == queue[n..];
  }

  /** Any fragmentation of a message, sent as a CREATED flight, is reassembled exactly; the whole
      flight is consumed, and nothing more, exactly when it does not end in an empty continuation. */
  lemma FlightIsReassembled(circId: CircId, f: Fragments, message: seq<Byte>, maxBody: nat, rest: seq<Cell>)
    requires Fragmentation(f, message, maxBody)
    ensures var r := ReadCreatedOf(FlightOf(circId, CMD_CREATED, CMD_CREATED_CONT, f) + rest);
      && r.Ok? && r.value.message == message
      && (r.value.queue == rest <==> f.conts == [] || f.conts[|f.conts| - 1] != [])
  {
    var cells := FlightOf(circId, CMD_CREATED, CMD_CREATED_CONT, f);
    var conts := cells[1..];
    DecodeFirst(f, message, maxBody);
    assert Bodies(conts) == f.conts;
    assert (cells + rest)[1..] == conts + rest;
    ReadRestExact(f.first[2..], |message|, conts, rest);
    NeededAll(conts);
    var unread := conts[Needed(conts)..];
    assert unread + rest == rest <==> unread == [] by {
      assert |unread + rest| == |unread| + |rest|;
      assert unread == [] ==> unread + rest == rest;
    }
  }

  // ---------- over the wire ----------

  /** Each cell encoded with some padding. */
  ghost predicate OnWire(cells: seq<Cell>, wire: seq<seq<Byte>>) {
    && |wire| == |cells|
    && forall i :: 0 <= i < |cells| ==> IsEncoding(cells[i], wire[i])
  }

  ghost predicate IsEncoding(c: Cell, buf: seq<Byte>) {
    exists pad :: |c.body| + |pad| == MAX_CELL_PAYLOAD && buf == Encoded(c, pad)
  }

  /** Decodes every buffer, as the receiving side of a link does. */
  ghost predicate DecodesTo(wire: seq<seq<Byte>>, cells: seq<Cell>) {
    |wire| == |cells| && forall i :: 0 <= i < |wire| ==> Decode(wire[i]) == Ok(cells[i])
  }

  lemma WireCarriesFlight(cells: seq<Cell>, wire: seq<seq<Byte>>)
    requires OnWire(cells, wire) && forall i :: 0 <= i < |cells| ==> Constructible(cells[i])
    ensures DecodesTo(wire, cells)
  {
    forall i | 0 <= i < |cells| ensures Decode(wire[i]) == Ok(cells[i]) {
      assert IsEncoding(cells[i], wire[i]);
      var pad :| |cells[i].body| + |pad| == MAX_CELL_PAYLOAD && wire[i] == Encoded(cells[i], pad);
      DecodeEncoded(cells[i], pad);
    }
  }

  /** End to end: a message fragmented for cell-sized bodies, sent as a CREATED flight with any
      padding, decoded at the other end and read back, arrives unchanged. */
  lemma MessageSurvivesWire(circId: CircId, f: Fragments, message: seq<Byte>, wire: seq<seq<Byte>>, received: seq<Cell>)
    requires circId != 0 && Fragmentation(f, message, MAX_CELL_PAYLOAD)
    requires OnWire(FlightOf(circId, CMD_CREATED, CMD_CREATED_CONT, f), wire) && DecodesTo(wire, received)
    ensures ReadCreatedOf(received).Ok? && ReadCreatedOf(received).value.message == message
  {
    var cells := FlightOf(circId, CMD_CREATED, CMD_CREATED_CONT, f);
    FlightIsConstructible(circId, CMD_CREATED, CMD_CREATED_CONT, f, message, MAX_CELL_PAYLOAD);
    WireCarriesFlight(cells, wire);
    assert received == cells;
    FlightIsReassembled(circId, f, message, MAX_CELL_PAYLOAD, []);
    assert cells + [] == cells;
  }

  // ---------- the executor's side ----------

  /** An ordered link: what was sent, how many more cells it takes before it fails, and what is
      still to be received. */
  class NextHopLink {
    var sent: seq<Cell>
    var accepts: nat
    var inbound: seq<Cell>

    constructor (accepts: nat, inbound: seq<Cell>)
      ensures sent == [] && this.accepts == accepts && this.inbound == inbound
    {
      sent, this.accepts, this.inbound := [], accepts, inbound;
    }

    method Send(c: Cell) returns (ok: bool)
      modifies this`sent, this`accepts
      ensures ok <==> old(accepts) > 0
      ensures ok ==> sent == old(sent) + [c] && accepts == old(accepts) - 1
      ensures !ok ==> sent == old(sent) && accepts == old(accepts)
    {
      ok := accepts > 0;
      if ok {
        sent, accepts := sent + [c], accepts - 1;
      }
    }

    method Recv() returns (c: Option<Cell>)
      modifies this`inbound
      ensures old(inbound) == [] ==> c.None? && inbound == []
      ensures old(inbound) != [] ==> c == Some(old(inbound)[0]) && inbound == old(inbound)[1..]
    {
      if inbound == [] {
        return None;
      }
      c := Some(inbound[0]);
      inbound := inbound[1..];
    }
  }

  /** The cells sent are a CREATE flight carrying the message, all of it if the link took so many
      cells, and otherwise as many of its cells as the link took. */
  ghost predicate SentCreate(cells: seq<Cell>, circId: CircId, message: seq<Byte>, accepts: nat, ok: bool) {
    exists f :: Fragmentation(f, message, MAX_CELL_PAYLOAD) && FullBodies(f.conts, MAX_CELL_PAYLOAD)
      && FlightSent(cells, FlightOf(circId, CMD_CREATE, CMD_CREATE_CONT, f), accepts, ok)
  }

  ghost predicate FlightSent(cells: seq<Cell>, flight: seq<Cell>, accepts: nat, ok: bool) {
    (ok <==> |flight| <= accepts) && cells == if ok then flight else flight[..accepts]
  }

  /** Sends a handshake message as CREATE and CREATE_CONT cells, stopping at the first cell that
      cannot be built or sent. */
  method SendCreate(link: NextHopLink, circId: CircId, message: seq<Byte>) returns (ok: bool)
    modifies link`sent, link`accepts
    ensures |old(link.sent)| <= |link.sent| && old(link.sent) == link.sent[..|old(link.sent)|]
    ensures circId == 0 || |message| > MAX_HANDSHAKE_BODY_LEN ==> !ok && link.sent == old(link.sent)
    ensures circId != 0 && |message| <= MAX_HANDSHAKE_BODY_LEN ==>
      SentCreate(link.sent[|old(link.sent)|..], circId, message, old(link.accepts), ok)
  {
    var fragments := EncodeFragmented(message, MAX_CELL_PAYLOAD);
    if fragments.Err? {
      return false;
    }
    var f := fragments.value;
    var create := NewCell(circId, CMD_CREATE, f.first);
    if create.Err? {
      return false;
    }
    ghost var flight := FlightOf(circId, CMD_CREATE, CMD_CREATE_CONT, f);
    ok := link.Send(create.value);
    var i := 0;
    while ok && i < |f.conts|
      invariant 0 <= i <= |f.conts|
      invariant ok ==> link.sent == old(link.sent) + flight[..i + 1] && link.accepts + i + 1 == old(link.accepts)
      invariant !ok ==> old(link.accepts) <= i && link.sent == old(link.sent) + flight[..old(link.accepts)]
    {
      var cont := NewCell(circId, CMD_CREATE_CONT, f.conts[i]);
      assert flight[..i + 2] == flight[..i + 1] + [flight[i + 1]];
      ok := link.Send(cont.value);
      i := i + 1;
    }
    assert ok ==> flight[..i + 1] == flight;
    assert FlightSent(link.sent[|old(link.sent)|..], flight, old(link.accepts), ok);
  }

  /** Reads a CREATED flight off the link. */
  method ReadCreated(link: NextHopLink) returns (r: Result<seq<Byte>, FlightError>)
    modifies link`inbound
    ensures match ReadCreatedOf(old(link.inbound))
      case Err(e) => r == Err(e)
      case Ok(got) => r == Ok(got.message) && link.inbound == got.queue
  {
    var first := link.Recv();
    if first.None? {
      return Err(ClosedBeforeCreated);
    }
    if first.value.command != CMD_CREATED {
      return Err(NotCreated);
    }
    var decoded := DecodePartial(first.value.body);
    if decoded.Err? {
      return Err(decoded.error);
    }
    var total, message := decoded.value.total, decoded.value.chunk;
    while |message| < total
      invariant ReadRest(message, total, link.inbound) == ReadCreatedOf(old(link.inbound))
      decreases |link.inbound|
    {
      var cont := link.Recv();
      if cont.None? {
        return Err(ClosedMidway);
      }
      if cont.value.command != CMD_CREATED_CONT {
        return Err(NotContinuation);
      }
      if |message| + |cont.value.body| > total {
        return Err(Overflow);
      }
      message := message + cont.value.body;
    }
    r := Ok(message);
  }
}
