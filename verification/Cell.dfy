/**
 Fixed-size circuit cells (crates/circuit/src/cell.rs): a 4-byte circuit id, a command, a 2-byte
 pad length, the body, and random padding up to 1024 bytes.
 */
module Cell {
  import opened Wrappers
  import opened Bytes

  const CIRCUIT_CELL_LEN: nat := 1024
  const CELL_HEADER_LEN: nat := 7
  const MAX_CELL_PAYLOAD: nat := CIRCUIT_CELL_LEN - CELL_HEADER_LEN
  const CMD_RESERVED: Byte := 0x00

  type CircId = n: nat | n < 0x1_0000_0000

  datatype Cell = Cell(circId: CircId, command: Byte, body: seq<Byte>)

  datatype CellError = WrongLength | ReservedCommand | PadLenTooLarge | BodyTooLarge | ZeroCircuitId | Csprng

  function NewCell(circId: CircId, command: Byte, body: seq<Byte>): Result<Cell, CellError> {
    if circId == 0 then Err(ZeroCircuitId)
    else if |body| > MAX_CELL_PAYLOAD then Err(BodyTooLarge)
    else if command == CMD_RESERVED then Err(ReservedCommand)
    else Ok(Cell(circId, command, body))
  }

  /** What `NewCell` would build. */
  predicate Constructible(c: Cell) {
    NewCell(c.circId, c.command, c.body) == Ok(c)
  }

  /** The wire form of a cell with the given padding. */
  function Encoded(c: Cell, pad: seq<Byte>): (buf: seq<Byte>)
    requires |c.body| + |pad| == MAX_CELL_PAYLOAD
    ensures |buf| == CIRCUIT_CELL_LEN
  {
    BigEndian(c.circId, 4) + [c.command] + BigEndian(|pad|, 2) + c.body + pad
  }

  function PadLen(buf: seq<Byte>): nat
    requires |buf| == CIRCUIT_CELL_LEN
  {
    FromBigEndian(buf[5..7])
  }

  lemma CircIdInRange(buf: seq<Byte>)
    requires |buf| == CIRCUIT_CELL_LEN
    ensures FromBigEndian(buf[0..4]) < 0x1_0000_0000
  {
    ToFromBigEndian(buf[0..4]);
    FourBytes();
  }

  lemma FourBytes()
    ensures Pow256(4) == 0x1_0000_0000 && Pow256(2) == 0x1_0000
  {
    assert Pow256(1) == 256 * Pow256(0);
    assert Pow256(2) == 256 * Pow256(1);
    assert Pow256(3) == 256 * Pow256(2);
    assert Pow256(4) == 256 * Pow256(3);
  }

  function Decode(buf: seq<Byte>): Result<Cell, CellError> {
    if |buf| != CIRCUIT_CELL_LEN then Err(WrongLength)
    else
      CircIdInRange(buf);
      var circId: CircId := FromBigEndian(buf[0..4]);
      if circId == 0 then Err(ZeroCircuitId)
      else if buf[4] == CMD_RESERVED then Err(ReservedCommand)
      else if PadLen(buf) > MAX_CELL_PAYLOAD then Err(PadLenTooLarge)
      else Ok(Cell(circId, buf[4], buf[CELL_HEADER_LEN..CIRCUIT_CELL_LEN - PadLen(buf)]))
  }

  /** Where each field of an encoded cell lies. */
  lemma EncodedFields(c: Cell, pad: seq<Byte>)
    requires |c.body| + |pad| == MAX_CELL_PAYLOAD
    ensures var buf := Encoded(c, pad);
      && buf[0..4] == BigEndian(c.circId, 4) && buf[4] == c.command && buf[5..7] == BigEndian(|pad|, 2)
      && |buf| == 1024 && buf[7..1024 - |pad|] == c.body && buf[1024 - |pad|..] == pad
  {
    var id, cmd, len := BigEndian(c.circId, 4), [c.command], BigEndian(|pad|, 2);
    var x, y, z := id + cmd, id + cmd + len, id + cmd + len + c.body;
    Parts(z, pad, 0, 0);
    Parts(z, pad, CELL_HEADER_LEN, CELL_HEADER_LEN + |c.body|);
    Parts(y, c.body, 0, 0);
    Parts(z, pad, 5, 7);
    Parts(y, c.body, 5, 7);
    Parts(x, len, 0, 0);
    Parts(z, pad, 0, 4);
    Parts(y, c.body, 0, 4);
    Parts(x, len, 0, 4);
    Parts(id, cmd, 0, 4);
    assert z[4] == y[4] == x[4] == c.command;
  }

  /** The right part of a concatenation, and a slice inside its left part. */
  lemma Parts(x: seq<Byte>, y: seq<Byte>, i: nat, j: nat)
    requires i <= j <= |x|
    ensures (x + y)[|x|..] == y && (x + y)[i..j] == x[i..j]
  {
  }

  /** Decoding inverts encoding, whatever the padding, exactly for the cells `NewCell` builds. */
  lemma DecodeEncoded(c: Cell, pad: seq<Byte>)
    requires |c.body| + |pad| == MAX_CELL_PAYLOAD
    ensures Decode(Encoded(c, pad)) == Ok(c) <==> Constructible(c)
  {
    EncodedFields(c, pad);
    FourBytes();
    FromToBigEndian(c.circId, 4);
    FromToBigEndian(|pad|, 2);
  }

  /** A decoded cell is constructible, and with the padding it came with it encodes back to the
      same buffer. */
  lemma EncodeDecoded(buf: seq<Byte>)
    requires Decode(buf).Ok?
    ensures var c := Decode(buf).value;
      && Constructible(c)
      && |c.body| + PadLen(buf) == MAX_CELL_PAYLOAD
      && Encoded(c, buf[CELL_HEADER_LEN + |c.body|..]) == buf
  {
    var c := Decode(buf).value;
    ToFromBigEndian(buf[0..4]);
    ToFromBigEndian(buf[5..7]);
    InParts(buf, |c.body|);
  }

  lemma InParts(buf: seq<Byte>, n: nat)
    requires |buf| == CIRCUIT_CELL_LEN && n <= MAX_CELL_PAYLOAD
    ensures buf == buf[0..4] + [buf[4]] + buf[5..7] + buf[7..7 + n] + buf[7 + n..]
  {
  }

  /** Fills the buffer field by field; `random` is the CSPRNG's output, or None if it failed. */
  method Encode(c: Cell, random: Option<seq<Byte>>) returns (r: Result<seq<Byte>, CellError>)
    requires random.Some? ==> |random.value| >= MAX_CELL_PAYLOAD
    ensures |c.body| > MAX_CELL_PAYLOAD ==> r == Err(BodyTooLarge)
    ensures |c.body| < MAX_CELL_PAYLOAD && random.None? ==> r == Err(Csprng)
    ensures |c.body| == MAX_CELL_PAYLOAD ==> r == Ok(Encoded(c, []))
    ensures |c.body| <= MAX_CELL_PAYLOAD && random.Some? ==>
      r == Ok(Encoded(c, random.value[..MAX_CELL_PAYLOAD - |c.body|]))
  {
    if |c.body| > MAX_CELL_PAYLOAD {
      return Err(BodyTooLarge);
    }
    var padLen := MAX_CELL_PAYLOAD - |c.body|;
    var out := new Byte[CIRCUIT_CELL_LEN](_ => 0);
    var id, pl := BigEndian(c.circId, 4), BigEndian(padLen, 2);
    forall i | 0 <= i < 4 { out[i] := id[i]; }
    out[4] := c.command;
    forall i | 0 <= i < 2 { out[5 + i] := pl[i]; }
    forall i | 0 <= i < |c.body| { out[CELL_HEADER_LEN + i] := c.body[i]; }
    var padStart := CELL_HEADER_LEN + |c.body|;
    if padStart < CIRCUIT_CELL_LEN {
      if random.None? {
        return Err(Csprng);
      }
      forall i | 0 <= i < padLen { out[padStart + i] := random.value[i]; }
    }
    ghost var pad := if random.Some? then random.value[..padLen] else [];
    assert out[..] == Encoded(c, pad);
    r := Ok(out[..]);
  }
}
