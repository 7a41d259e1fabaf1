/**
 Crash-safe claim log (crates/bridge/src/claim_log.rs): an 8-byte header followed by 64-byte
 records, with torn-tail recovery at open and realignment after a failed append.

 A log handle is the file's bytes, the file position and the `BufWriter`'s pending bytes. Every
 I/O call may fail; how it fails is an input. A read of a regular file returns as many bytes as
 the buffer holds or the file has left.
 */
module ClaimLog {
  import opened Wrappers
  import opened Collections
  import opened Bytes

  const HEADER_LEN: nat := 8
  const RECORD_LEN: nat := 64
  const BUFFER_CAPACITY: nat := 8192

  /** "MCRL", version 1, three reserved bytes. */
  const HEADER: seq<Byte> := [0x4D, 0x43, 0x52, 0x4C, 0x01, 0, 0, 0]

  type Id = s: seq<Byte> | |s| == 32 witness seq(32, _ => 0)

  datatype ClaimRecord = ClaimRecord(claimId: Id, rootTokenId: Id)

  datatype Disk = Absent | Present(bytes: seq<Byte>)

  datatype LogError = BadHeader | Io

  function Encode(r: ClaimRecord): (s: seq<Byte>)
    ensures |s| == RECORD_LEN
  {
    r.claimId + r.rootTokenId
  }

  function Decode(s: seq<Byte>): (r: ClaimRecord)
    requires |s| == RECORD_LEN
    ensures Encode(r) == s
  {
    assert s[..32] + s[32..] == s;
    ClaimRecord(s[..32], s[32..])
  }

  lemma DecodeEncode(r: ClaimRecord)
    ensures Decode(Encode(r)) == r
  {
  }

  function Flatten(records: seq<ClaimRecord>): (s: seq<Byte>)
    ensures |s| == RECORD_LEN * |records|
  {
    if records == [] then [] else Flatten(records[..|records| - 1]) + Encode(records[|records| - 1])
  }

  predicate ValidHeader(s: seq<Byte>) {
    |s| >= HEADER_LEN && s[..4] == HEADER[..4] && s[4] == HEADER[4]
  }

  /** Whole records of a body, in order; a torn tail is ignored. */
  function Records(body: seq<Byte>): (records: seq<ClaimRecord>)
    ensures |records| == |body| / RECORD_LEN
  {
    if |body| < RECORD_LEN then [] else [Decode(body[..RECORD_LEN])] + Records(body[RECORD_LEN..])
  }

  function Loaded(d: Disk): Result<seq<ClaimRecord>, LogError> {
    match d
    case Absent => Ok([])
    case Present(bytes) => if ValidHeader(bytes) then Ok(Records(bytes[HEADER_LEN..])) else Err(BadHeader)
  }

  /** A claim id and then a root token id, 32 bytes each. */
  lemma RecordFormat(r: ClaimRecord)
    ensures |Encode(r)| == 64 && Encode(r)[..32] == r.claimId && Encode(r)[32..] == r.rootTokenId
  {
  }

  // ---------- reading back what was written ----------

  /** After `n` whole records the rest is read as if it stood alone. */
  lemma {:induction false} RecordsSplit(x: seq<Byte>, y: seq<Byte>, n: nat)
    requires |x| == RECORD_LEN * n
    ensures Records(x + y) == Records(x) + Records(y)
  {
    if n == 0 {
      assert x + y == y;
    } else {
      var head, tail := x[..RECORD_LEN], x[RECORD_LEN..];
      assert (x + y)[..RECORD_LEN] == head;
      assert (x + y)[RECORD_LEN..] == tail + y;
      RecordsSplit(tail, y, n - 1);
    }
  }

  lemma RecordsOfOne(r: ClaimRecord)
    ensures Records(Encode(r)) == [r]
  {
    DecodeEncode(r);
    assert Encode(r)[..RECORD_LEN] == Encode(r);
  }

  lemma {:induction false} RecordsOfFlatten(records: seq<ClaimRecord>)
    ensures Records(Flatten(records)) == records
  {
    if records != [] {
      var n := |records| - 1;
      RecordsOfFlatten(records[..n]);
      RecordsSplit(Flatten(records[..n]), Encode(records[n]), n);
      RecordsOfOne(records[n]);
      assert records == records[..n] + [records[n]];
    }
  }

  /** `bytes` is a valid header, these records, and fewer than 64 torn bytes. */
  ghost predicate Image(bytes: seq<Byte>, records: seq<ClaimRecord>, torn: seq<Byte>) {
    && ValidHeader(bytes) && |torn| < RECORD_LEN
    && bytes[HEADER_LEN..] == Flatten(records) + torn
  }

  /** Loading recovers exactly the records, in order, and drops the torn tail. */
  lemma LoadRecoversImage(bytes: seq<Byte>, records: seq<ClaimRecord>, torn: seq<Byte>)
    requires Image(bytes, records, torn)
    ensures Loaded(Present(bytes)) == Ok(records)
  {
    RecordsSplit(Flatten(records), torn, |records|);
    RecordsOfFlatten(records);
    assert records + [] == records;
  }

  lemma FlattenSnoc(records: seq<ClaimRecord>, r: ClaimRecord)
    ensures Flatten(records + [r]) == Flatten(records) + Encode(r)
  {
    assert (records + [r])[..|records|] == records;
  }

  lemma {:induction false} FlattenConcat(x: seq<ClaimRecord>, y: seq<ClaimRecord>)
    ensures Flatten(x + y) == Flatten(x) + Flatten(y)
  {
    if y == [] {
      assert x + y == x;
    } else {
      var n := |y| - 1;
      FlattenConcat(x, y[..n]);
      assert x + y == (x + y[..n]) + [y[n]];
      FlattenSnoc(x + y[..n], y[n]);
      Regroup(Flatten(x), Flatten(y[..n]), Encode(y[n]));
    }
  }

  lemma {:induction false} FlattenRecords(body: seq<Byte>, n: nat)
    requires |body| == RECORD_LEN * n
    ensures Flatten(Records(body)) == body
  {
    if n > 0 {
      var head, tail := body[..RECORD_LEN], body[RECORD_LEN..];
      FlattenRecords(tail, n - 1);
      FlattenConcat([Decode(head)], Records(tail));
      FlattenOne(Decode(head));
      assert body == head + tail;
    }
  }

  lemma FlattenOne(r: ClaimRecord)
    ensures Flatten([r]) == Encode(r)
  {
    FlattenSnoc([], r);
    assert [] + [r] == [r];
  }

  /** Any file that loads is such an image, of the records it loads. */
  lemma LoadedIsImage(bytes: seq<Byte>) returns (torn: seq<Byte>)
    requires Loaded(Present(bytes)).Ok?
    ensures Image(bytes, Loaded(Present(bytes)).value, torn)
  {
    var body := bytes[HEADER_LEN..];
    var n := |body| / RECORD_LEN;
    var whole := body[..RECORD_LEN * n];
    torn := body[RECORD_LEN * n..];
    assert body == whole + torn;
    RecordsSplit(whole, torn, n);
    assert Records(whole) + [] == Records(whole);
    FlattenRecords(whole, n);
  }

  // ---------- the handle ----------

  datatype Handle = Handle(bytes: seq<Byte>, pos: nat, pending: seq<Byte>)

  /** A file write at `pos`; a gap beyond the end fills with zeros. */
  function WriteAt(bytes: seq<Byte>, pos: nat, data: seq<Byte>): seq<Byte> {
    if data == [] then bytes
    else
      var padded := if pos <= |bytes| then bytes else bytes + seq(pos - |bytes|, _ => 0);
      padded[..pos] + data + (if pos + |data| <= |padded| then padded[pos + |data|..] else [])
  }

  /** A flush of which the first `landed` bytes reach the file; it fails if any is left over. */
  function Flushed(h: Handle, landed: nat): Handle {
    var k := Min(landed, |h.pending|);
    Handle(WriteAt(h.bytes, h.pos, h.pending[..k]), h.pos + k, h.pending[k..])
  }

  /** How each I/O call of one append turns out. */
  datatype IoOutcome = IoOutcome(
    makeRoom: nat, flush: nat, synced: bool, reflush: nat, sought: bool, truncated: bool, resought: bool)

  const ALL: nat := BUFFER_CAPACITY + RECORD_LEN

  /** Nothing fails. */
  const NoFault: IoOutcome := IoOutcome(ALL, ALL, true, ALL, true, true, true)

  /** A record that does not fit the buffer forces a flush first. */
  predicate NeedsFlush(h: Handle, n: nat) {
    |h.pending| + n > BUFFER_CAPACITY
  }

  function Buffered(h: Handle, rec: seq<Byte>): Handle {
    h.(pending := h.pending + rec)
  }

  function FlushAndSync(h: Handle, fsync: bool, io: IoOutcome): (Handle, bool) {
    var flushed := Flushed(h, io.flush);
    (flushed, flushed.pending == [] && (fsync ==> io.synced))
  }

  /** Buffer, flush, and optionally sync one record. */
  function WriteRecord(h: Handle, rec: seq<Byte>, fsync: bool, io: IoOutcome): (Handle, bool) {
    if NeedsFlush(h, |rec|) then
      var roomy := Flushed(h, io.makeRoom);
      if roomy.pending != [] then (roomy, false) else FlushAndSync(Buffered(roomy, rec), fsync, io)
    else FlushAndSync(Buffered(h, rec), fsync, io)
  }

  /** Bytes past the last whole record. */
  function TornLen(bytes: seq<Byte>): nat {
    if |bytes| > HEADER_LEN then (|bytes| - HEADER_LEN) % RECORD_LEN else 0
  }

  /** Go to the end, cut a torn tail and go to the end again. */
  function CutTail(h: Handle, io: IoOutcome): Handle {
    var atEnd := h.(pos := |h.bytes|);
    if TornLen(h.bytes) == 0 then atEnd
    else
      var cut := if io.truncated then atEnd.(bytes := Truncated(h.bytes)) else atEnd;
      if io.resought then cut.(pos := |cut.bytes|) else cut
  }

  /** Retry the flush, then cut a torn tail; all best effort. */
  function Realigned(h: Handle, io: IoOutcome): Handle {
    var flushed := Flushed(h, io.reflush);
    if io.sought then CutTail(flushed, io) else flushed
  }

  function Appended(h: Handle, r: ClaimRecord, fsync: bool, io: IoOutcome): (Handle, bool) {
    var (h', ok) := WriteRecord(h, Encode(r), fsync, io);
    if ok then (h', true) else (Realigned(h', io), false)
  }

  /** Positioned at the end of whole records with nothing pending. */
  ghost predicate Clean(h: Handle, records: seq<ClaimRecord>) {
    Image(h.bytes, records, []) && h.pos == |h.bytes| && h.pending == []
  }

  function Truncated(bytes: seq<Byte>): seq<Byte> {
    bytes[..|bytes| - TornLen(bytes)]
  }

  /** Opening: a missing or empty file gets a header, a bad header is refused, a torn tail is cut. */
  function Opened(d: Disk): Result<Handle, LogError> {
    if d.Absent? || d.bytes == [] then Ok(Handle(HEADER, |HEADER|, []))
    else if !ValidHeader(d.bytes) then Err(BadHeader)
    else Ok(Handle(Truncated(d.bytes), |Truncated(d.bytes)|, []))
  }

  lemma OpenCutsTornTail(bytes: seq<Byte>, records: seq<ClaimRecord>, torn: seq<Byte>)
    requires Image(bytes, records, torn)
    ensures Opened(Present(bytes)).Ok? && Clean(Opened(Present(bytes)).value, records)
  {
    var n := |Flatten(records)|;
    assert |bytes| - HEADER_LEN == n + |torn|;
    assert TornLen(bytes) == |torn|;
    var cut := Truncated(bytes);
    assert cut[HEADER_LEN..] == bytes[HEADER_LEN..][..n] == Flatten(records);
    assert cut[HEADER_LEN..] == Flatten(records) + [];
  }

  lemma OpenCreates()
    ensures Clean(Opened(Absent).value, [])
    ensures Clean(Opened(Present([])).value, [])
  {
    assert HEADER[HEADER_LEN..] == [];
  }

  /** A file that is not "MCRL", version 1, is refused, and nothing else about the header matters. */
  lemma HeaderDecides(s: seq<Byte>)
    ensures Loaded(Present(s)) == Err(BadHeader) <==> |s| < 8 || s[..5] != [0x4D, 0x43, 0x52, 0x4C, 0x01]
    ensures s != [] ==>
      (Opened(Present(s)) == Err(BadHeader) <==> |s| < 8 || s[..5] != [0x4D, 0x43, 0x52, 0x4C, 0x01])
    ensures Loaded(Present(s)).Err? ==> Loaded(Present(s)) == Err(BadHeader)
    ensures Opened(Present(s)).Err? ==> Opened(Present(s)) == Err(BadHeader)
  {
    if |s| >= 8 {
      assert s[..5] == s[..4] + [s[4]];
      assert HEADER[..5] == HEADER[..4] + [HEADER[4]] == [0x4D, 0x43, 0x52, 0x4C, 0x01];
    }
  }

  lemma NewFileFormat()
    ensures Opened(Absent).Ok? && Opened(Absent).value.bytes == [0x4D, 0x43, 0x52, 0x4C, 0x01, 0, 0, 0]
    ensures Opened(Present([])) == Opened(Absent)
  {
  }

  /** A crash while the header itself is being written is fatal unless all or none of it landed. */
  lemma TornHeaderIsRefused(k: nat)
    requires k <= |HEADER|
    ensures Opened(Present(HEADER[..k])).Ok? <==> k == 0 || k == |HEADER|
    ensures Loaded(Present(HEADER[..k])).Ok? <==> k == |HEADER|
  {
    assert HEADER[..|HEADER|] == HEADER;
  }

  // ---------- appending ----------

  lemma WriteAtEnd(bytes: seq<Byte>, data: seq<Byte>)
    ensures WriteAt(bytes, |bytes|, data) == bytes + data
  {
  }

  /** A flush at the end of the file appends what lands and keeps the rest. */
  lemma FlushAtEnd(h: Handle, landed: nat)
    requires h.pos == |h.bytes|
    ensures var k := Min(landed, |h.pending|);
      Flushed(h, landed) == Handle(h.bytes + h.pending[..k], |h.bytes| + k, h.pending[k..])
  {
    WriteAtEnd(h.bytes, h.pending[..Min(landed, |h.pending|)]);
  }

  lemma ImageGrows(bytes: seq<Byte>, records: seq<ClaimRecord>, r: ClaimRecord)
    requires Image(bytes, records, [])
    ensures Image(bytes + Encode(r), records + [r], [])
  {
    FlattenSnoc(records, r);
    AppendedBody(bytes, records, Encode(r));
    assert Flatten(records + [r]) + [] == Flatten(records + [r]);
  }

  /** The first `k` bytes of a record leave a torn tail, or complete the record when k == 64. */
  lemma PartialRecord(bytes: seq<Byte>, records: seq<ClaimRecord>, r: ClaimRecord, k: nat)
    requires Image(bytes, records, []) && k <= RECORD_LEN
    ensures k < RECORD_LEN ==> Image(bytes + Encode(r)[..k], records, Encode(r)[..k])
    ensures k == RECORD_LEN ==> Image(bytes + Encode(r)[..k], records + [r], [])
  {
    var part := Encode(r)[..k];
    AppendedBody(bytes, records, part);
    if k == RECORD_LEN {
      assert part == Encode(r);
      ImageGrows(bytes, records, r);
    }
  }

  lemma WriteOnClean(h: Handle, records: seq<ClaimRecord>, rec: seq<Byte>, fsync: bool, io: IoOutcome)
    requires Clean(h, records) && |rec| == RECORD_LEN
    ensures var k := Min(io.flush, RECORD_LEN);
      && WriteRecord(h, rec, fsync, io).0 == Handle(h.bytes + rec[..k], |h.bytes| + k, rec[k..])
      && (WriteRecord(h, rec, fsync, io).1 <==> k == RECORD_LEN && (fsync ==> io.synced))
  {
    assert [] + rec == rec;
    FlushAtEnd(h.(pending := rec), io.flush);
  }

  /** A successful append on a clean handle adds exactly its record and leaves the handle clean. */
  lemma AppendOnClean(h: Handle, records: seq<ClaimRecord>, r: ClaimRecord, fsync: bool, io: IoOutcome)
    requires Clean(h, records) && Appended(h, r, fsync, io).1
    ensures Clean(Appended(h, r, fsync, io).0, records + [r])
  {
    WriteOnClean(h, records, Encode(r), fsync, io);
    assert Encode(r)[..RECORD_LEN] == Encode(r);
    ImageGrows(h.bytes, records, r);
  }

  // ---------- crash safety ----------

  /** The file on disk, and the open handle if the process is up. */
  datatype State = State(disk: Disk, handle: Option<Handle>)

  /** `CrashInAppend(r, k)`: the process dies after `k` bytes of record `r` reached the file. */
  datatype Event =
    | Open
    | Append(r: ClaimRecord, fsync: bool, io: IoOutcome)
    | CrashInAppend(r: ClaimRecord, k: nat)
    | Crash

  ghost predicate Step(s: State, e: Event, s': State) {
    match e
    case Open =>
      && s.handle.None? && Opened(s.disk).Ok?
      && s' == State(Present(Opened(s.disk).value.bytes), Some(Opened(s.disk).value))
    case Append(r, fsync, io) =>
      && s.handle.Some? && Appended(s.handle.value, r, fsync, io).1
      && var h := Appended(s.handle.value, r, fsync, io).0;
         s' == State(Present(h.bytes), Some(h))
    case CrashInAppend(r, k) =>
      && s.handle.Some? && k <= RECORD_LEN
      && s' == State(Present(WriteAt(s.handle.value.bytes, s.handle.value.pos, Encode(r)[..k])), None)
    case Crash => s.handle.Some? && s' == State(s.disk, None)
  }

  ghost predicate Run(states: seq<State>, events: seq<Event>) {
    && |states| == |events| + 1 && states[0] == State(Absent, None)
    && forall i :: 0 <= i < |events| ==> Step(states[i], events[i], states[i + 1])
  }

  /** The record an event adds for good: every successful append, and an interrupted one exactly
      when all its bytes landed. */
  function Committed(e: Event): seq<ClaimRecord> {
    match e
    case Append(r, _, _) => [r]
    case CrashInAppend(r, k) => if k == RECORD_LEN then [r] else []
    case _ => []
  }

  ghost function CommittedBy(events: seq<Event>, n: nat): seq<ClaimRecord>
    requires n <= |events|
  {
    if n == 0 then [] else CommittedBy(events, n - 1) + Committed(events[n - 1])
  }

  /** An open log is clean; a closed one is an image with at most a torn tail. */
  ghost predicate Consistent(s: State, records: seq<ClaimRecord>) {
    match s.handle
    case Some(h) => s.disk == Present(h.bytes) && Clean(h, records)
    case None =>
      || (s.disk.Absent? && records == [])
      || (s.disk.Present? && exists torn :: Image(s.disk.bytes, records, torn))
  }

  lemma StepConsistent(s: State, e: Event, s': State, records: seq<ClaimRecord>)
    requires Step(s, e, s') && Consistent(s, records)
    ensures Consistent(s', records + Committed(e))
  {
    assert records + [] == records;
    match e
    case Open =>
      if s.disk.Absent? {
        OpenCreates();
      } else {
        var torn :| Image(s.disk.bytes, records, torn);
        OpenCutsTornTail(s.disk.bytes, records, torn);
      }
    case Append(r, fsync, io) => AppendOnClean(s.handle.value, records, r, fsync, io);
    case CrashInAppend(r, k) =>
      WriteAtEnd(s.handle.value.bytes, Encode(r)[..k]);
      PartialRecord(s.handle.value.bytes, records, r, k);
    case Crash => assert Image(s.disk.bytes, records, []);
  }

  ghost predicate ConsistentAt(states: seq<State>, events: seq<Event>, i: nat) {
    i < |states| && i <= |events| && Consistent(states[i], CommittedBy(events, i))
  }

  lemma {:induction false} ConsistentThroughout(states: seq<State>, events: seq<Event>, n: nat)
    requires ConsistentAt(states, events, 0)
    requires forall i: nat :: i < n && ConsistentAt(states, events, i) ==> ConsistentAt(states, events, i + 1)
    ensures ConsistentAt(states, events, n)
  {
    if n > 0 {
      ConsistentThroughout(states, events, n - 1);
      assert ConsistentAt(states, events, (n - 1) + 1);
    }
  }

  lemma RunConsistent(states: seq<State>, events: seq<Event>, n: nat)
    requires Run(states, events) && n < |states|
    ensures Consistent(states[n], CommittedBy(events, n))
  {
    forall i: nat | i < n && ConsistentAt(states, events, i) ensures ConsistentAt(states, events, i + 1) {
      NextConsistent(states[i], events, i, states[i + 1]);
    }
    ConsistentThroughout(states, events, n);
  }

  lemma NextConsistent(s: State, events: seq<Event>, i: nat, s': State)
    requires i < |events| && Step(s, events[i], s') && Consistent(s, CommittedBy(events, i))
    ensures Consistent(s', CommittedBy(events, i + 1))
  {
    StepConsistent(s, events[i], s', CommittedBy(events, i));
    CommittedNext(events, i);
  }

  lemma CommittedNext(events: seq<Event>, i: nat)
    requires i < |events|
    ensures CommittedBy(events, i + 1) == CommittedBy(events, i) + Committed(events[i])
  {
  }

  /** Over every run of opens, appends, crashes at any byte and reopens, the file loads exactly the
      committed records in order, and an open log is record-aligned and ready for the next append. */
  lemma CrashSafety(states: seq<State>, events: seq<Event>, n: nat)
    requires Run(states, events) && n < |states|
    ensures Loaded(states[n].disk) == Ok(CommittedBy(events, n))
    ensures states[n].handle.Some? ==> Clean(states[n].handle.value, CommittedBy(events, n))
    ensures states[n].handle.None? ==> Opened(states[n].disk).Ok?
  {
    RunConsistent(states, events, n);
    var s, records := states[n], CommittedBy(events, n);
    if s.handle.Some? {
      LoadRecoversImage(s.disk.bytes, records, []);
    } else if s.disk.Present? {
      var torn :| Image(s.disk.bytes, records, torn);
      LoadRecoversImage(s.disk.bytes, records, torn);
      OpenCutsTornTail(s.disk.bytes, records, torn);
    }
  }

  // ---------- after a failed append ----------

  /** Bytes of the record that reached the file over both flush attempts. */
  function LandedOf(io: IoOutcome): nat {
    Min(Min(io.flush, RECORD_LEN) + io.reflush, RECORD_LEN)
  }

  /** Part of the record landed, and the realignment got as far as cutting it off again. */
  predicate CutOff(io: IoOutcome) {
    0 < LandedOf(io) < RECORD_LEN && io.sought && io.truncated
  }

  /** A failed append on a clean handle, however its realignment goes: the file loads the old
      records, plus the refused one exactly when all its bytes landed. What did not land stays
      pending, and the position is past the end exactly when the seek after the cut failed. */
  lemma FailedAppend(h: Handle, records: seq<ClaimRecord>, r: ClaimRecord, fsync: bool, io: IoOutcome)
    requires Clean(h, records) && !Appended(h, r, fsync, io).1
    ensures var h' := Appended(h, r, fsync, io).0;
      var k := LandedOf(io);
      && h'.bytes == (if CutOff(io) then h.bytes else h.bytes + Encode(r)[..k])
      && h'.pos == (if CutOff(io) && io.resought then |h.bytes| else |h.bytes| + k)
      && h'.pending == Encode(r)[k..]
      && Loaded(Present(h'.bytes)) == Ok(if k == RECORD_LEN then records + [r] else records)
  {
    var k := LandedOf(io);
    RetryFlush(h, records, Encode(r), fsync, io);
    TornLenOfPartial(h.bytes, records, Encode(r), k);
    assert (h.bytes + Encode(r)[..k])[..|h.bytes|] == h.bytes;
    PartialLoads(h.bytes, records, r, k);
    LoadRecoversImage(h.bytes, records, []);
  }

  lemma PartialLoads(bytes: seq<Byte>, records: seq<ClaimRecord>, r: ClaimRecord, k: nat)
    requires Image(bytes, records, []) && k <= RECORD_LEN
    ensures Loaded(Present(bytes + Encode(r)[..k])) == Ok(if k == RECORD_LEN then records + [r] else records)
  {
    PartialRecord(bytes, records, r, k);
    if k == RECORD_LEN {
      LoadRecoversImage(bytes + Encode(r)[..k], records + [r], []);
    } else {
      LoadRecoversImage(bytes + Encode(r)[..k], records, Encode(r)[..k]);
    }
  }

  /** After both flush attempts the landed bytes are in the file and the rest is pending. */
  lemma RetryFlush(h: Handle, records: seq<ClaimRecord>, rec: seq<Byte>, fsync: bool, io: IoOutcome)
    requires Clean(h, records) && |rec| == RECORD_LEN
    ensures var k := LandedOf(io);
      Flushed(WriteRecord(h, rec, fsync, io).0, io.reflush) == Handle(h.bytes + rec[..k], |h.bytes| + k, rec[k..])
  {
    var k1 := Min(io.flush, RECORD_LEN);
    WriteOnClean(h, records, rec, fsync, io);
    var h1 := Handle(h.bytes + rec[..k1], |h.bytes| + k1, rec[k1..]);
    FlushAtEnd(h1, io.reflush);
    var k2 := Min(io.reflush, |rec[k1..]|);
    CutTwice(rec, k1, k2);
    Regroup(h.bytes, rec[..k1], rec[k1..][..k2]);
  }

  lemma CutTwice(s: seq<Byte>, i: nat, j: nat)
    requires i + j <= |s|
    ensures s[..i] + s[i..][..j] == s[..i + j] && s[i..][j..] == s[i + j..]
  {
  }

  lemma TornLenOfPartial(bytes: seq<Byte>, records: seq<ClaimRecord>, rec: seq<Byte>, k: nat)
    requires Image(bytes, records, []) && |rec| == RECORD_LEN && k <= RECORD_LEN
    ensures TornLen(bytes + rec[..k]) == if k == RECORD_LEN then 0 else k
  {
    assert |bytes| - HEADER_LEN == RECORD_LEN * |records|;
  }

  /** A failed sync is a refused append whose record is nevertheless in the file, and the log goes
      on as if it had been accepted, whether or not the realignment works. */
  lemma SyncFailureKeepsRecord(h: Handle, records: seq<ClaimRecord>, r: ClaimRecord, io: IoOutcome)
    requires Clean(h, records) && io.flush >= RECORD_LEN && !io.synced
    ensures !Appended(h, r, true, io).1
    ensures Loaded(Present(Appended(h, r, true, io).0.bytes)) == Ok(records + [r])
    ensures Clean(Appended(h, r, true, io).0, records + [r])
  {
    WriteOnClean(h, records, Encode(r), true, io);
    FailedAppend(h, records, r, true, io);
    assert Encode(r)[..RECORD_LEN] == Encode(r);
    ImageGrows(h.bytes, records, r);
  }

  function Zeros(n: nat): seq<Byte> { Repeat(0, n) }

  /** Writing at or beyond the end fills the gap, then appends. */
  lemma WriteBeyond(bytes: seq<Byte>, pos: nat, data: seq<Byte>)
    requires |bytes| <= pos && data != []
    ensures WriteAt(bytes, pos, data) == bytes + Zeros(pos - |bytes|) + data
  {
    var padded := bytes + Zeros(pos - |bytes|);
    assert (bytes + seq(pos - |bytes|, _ => 0)) == padded;
    assert padded[..pos] == padded;
    if pos == |bytes| {
      assert padded == bytes;
    }
  }

  /** What a faultless append writes through any handle at or beyond the end of its file: the gap
      fills with zeros, then come the pending bytes and the record. */
  lemma FaultlessAppend(h: Handle, r: ClaimRecord, fsync: bool)
    requires |h.bytes| <= h.pos && |h.pending| <= BUFFER_CAPACITY
    ensures Appended(h, r, fsync, NoFault) ==
      (Handle(h.bytes + Zeros(h.pos - |h.bytes|) + h.pending + Encode(r), h.pos + |h.pending| + RECORD_LEN, []), true)
  {
    if NeedsFlush(h, RECORD_LEN) {
      FlushThenAppend(h, Encode(r), fsync);
    } else {
      AppendThenFlush(h, Encode(r), fsync);
    }
  }

  lemma FlushThenAppend(h: Handle, rec: seq<Byte>, fsync: bool)
    requires |h.bytes| <= h.pos && |h.pending| <= BUFFER_CAPACITY && |rec| == RECORD_LEN && NeedsFlush(h, RECORD_LEN)
    ensures var written := h.bytes + Zeros(h.pos - |h.bytes|) + h.pending + rec;
      WriteRecord(h, rec, fsync, NoFault) == (Handle(written, h.pos + |h.pending| + RECORD_LEN, []), true)
  {
    WriteBeyond(h.bytes, h.pos, h.pending);
    assert h.pending[..|h.pending|] == h.pending;
    var roomy := Handle(h.bytes + Zeros(h.pos - |h.bytes|) + h.pending, h.pos + |h.pending|, []);
    assert Flushed(h, ALL) == roomy;
    assert [] + rec == rec && rec[..RECORD_LEN] == rec;
    FlushAtEnd(roomy.(pending := rec), ALL);
  }

  lemma AppendThenFlush(h: Handle, rec: seq<Byte>, fsync: bool)
    requires |h.bytes| <= h.pos && |rec| == RECORD_LEN && !NeedsFlush(h, RECORD_LEN)
    ensures var written := h.bytes + Zeros(h.pos - |h.bytes|) + h.pending + rec;
      WriteRecord(h, rec, fsync, NoFault) == (Handle(written, h.pos + |h.pending| + RECORD_LEN, []), true)
  {
    var all := h.pending + rec;
    WriteBeyond(h.bytes, h.pos, all);
    assert all[..|all|] == all;
    Regroup(h.bytes + Zeros(h.pos - |h.bytes|), h.pending, rec);
  }

  /** So the file is record-aligned after it exactly when the position it resumed at, plus the bytes
      left pending, is a whole number of records past the header. */
  lemma NextAppendAlignedIff(h: Handle, r: ClaimRecord, fsync: bool)
    requires HEADER_LEN <= |h.bytes| <= h.pos && |h.pending| <= BUFFER_CAPACITY
    ensures Appended(h, r, fsync, NoFault).1
    ensures TornLen(Appended(h, r, fsync, NoFault).0.bytes) == 0
      <==> (h.pos - HEADER_LEN + |h.pending|) % RECORD_LEN == 0
  {
    FaultlessAppend(h, r, fsync);
    ModShift(h.pos - HEADER_LEN + |h.pending|, 1);
  }

  lemma ModShift(p: nat, n: nat)
    ensures (RECORD_LEN * n + p) % RECORD_LEN == p % RECORD_LEN
  {
  }

  lemma AppendedBody(bytes: seq<Byte>, records: seq<ClaimRecord>, data: seq<Byte>)
    requires Image(bytes, records, [])
    ensures ValidHeader(bytes + data) && (bytes + data)[HEADER_LEN..] == Flatten(records) + data
  {
    assert (bytes + data)[..4] == bytes[..4];
    assert (bytes + data)[HEADER_LEN..] == bytes[HEADER_LEN..] + data;
    assert Flatten(records) + [] == Flatten(records);
  }

  /** After any failed append on a clean handle, the next one leaves the file aligned unless part
      of the refused record landed and the realignment succeeded completely. */
  lemma AlignedAfterFailureIff(h: Handle, records: seq<ClaimRecord>, r: ClaimRecord, fsync: bool, io: IoOutcome,
                               next: ClaimRecord)
    requires Clean(h, records) && !Appended(h, r, fsync, io).1
    ensures TornLen(Appended(Appended(h, r, fsync, io).0, next, fsync, NoFault).0.bytes) == 0
      <==> !(CutOff(io) && io.resought)
  {
    FailedAppend(h, records, r, fsync, io);
    var cut := CutOff(io) && io.resought;
    AlignedFrom(Appended(h, r, fsync, io).0, |h.bytes|, |records|, LandedOf(io), cut, next, fsync);
  }

  /** Resuming `k` of 64 bytes into a record, those bytes having been cut off again or not. */
  lemma AlignedFrom(h: Handle, len: nat, n: nat, k: nat, cut: bool, next: ClaimRecord, fsync: bool)
    requires len - HEADER_LEN == RECORD_LEN * n && k <= RECORD_LEN && (cut ==> 0 < k < RECORD_LEN)
    requires HEADER_LEN <= |h.bytes| <= h.pos == (if cut then len else len + k) && |h.pending| == RECORD_LEN - k
    ensures TornLen(Appended(h, next, fsync, NoFault).0.bytes) == 0 <==> !cut
  {
    NextAppendAlignedIff(h, next, fsync);
    ModShift(if cut then RECORD_LEN - k else RECORD_LEN, n);
  }

  /** The refused record with its first `k` bytes zeroed. */
  function Zeroed(r: ClaimRecord, k: nat): ClaimRecord
    requires k <= RECORD_LEN
  {
    Decode(Zeros(k) + Encode(r)[k..])
  }

  /** A record's worth of bytes straddling the rest of `r` and the start of `next`. */
  function Straddling(r: ClaimRecord, k: nat, next: ClaimRecord): ClaimRecord
    requires 0 < k <= RECORD_LEN
  {
    Decode(Encode(r)[k..] + Encode(next)[..k])
  }

  /** What loads after the next append. Unless the torn part was cut off, the refused record comes
      back ahead of the new one. Cut off with the position left beyond the end, it comes back with
      its first bytes zeroed. Cut off completely, the rest of it pushes the new record out of
      alignment: a mixture of the two loads, and the new record does not. */
  lemma LoadedAfterFailure(h: Handle, records: seq<ClaimRecord>, r: ClaimRecord, fsync: bool, io: IoOutcome,
                           next: ClaimRecord)
    requires Clean(h, records) && !Appended(h, r, fsync, io).1
    ensures var loaded := Loaded(Present(Appended(Appended(h, r, fsync, io).0, next, fsync, NoFault).0.bytes));
      var k := LandedOf(io);
      && (!CutOff(io) ==> loaded == Ok(records + [r, next]))
      && (CutOff(io) && !io.resought ==> loaded == Ok(records + [Zeroed(r, k), next]))
      && (CutOff(io) && io.resought ==> loaded == Ok(records + [Straddling(r, k, next)]))
  {
    var k := LandedOf(io);
    FailedAppend(h, records, r, fsync, io);
    FaultlessAppend(Appended(h, r, fsync, io).0, next, fsync);
    if !CutOff(io) {
      RefusedComesBack(h.bytes, records, r, k, next);
    } else if !io.resought {
      ZeroedComesBack(h.bytes, records, r, k, next);
    } else {
      MixtureLoads(h.bytes, records, r, k, next);
    }
  }

  lemma RefusedComesBack(bytes: seq<Byte>, records: seq<ClaimRecord>, r: ClaimRecord, k: nat, next: ClaimRecord)
    requires Image(bytes, records, []) && k <= RECORD_LEN
    ensures var rec := Encode(r);
      Loaded(Present(bytes + rec[..k] + Zeros(0) + rec[k..] + Encode(next))) == Ok(records + [r, next])
  {
    var rec := Encode(r);
    assert bytes + rec[..k] + Zeros(0) + rec[k..] == bytes + rec;
    TwoMoreLoad(bytes, records, r, next);
  }

  lemma ZeroedComesBack(bytes: seq<Byte>, records: seq<ClaimRecord>, r: ClaimRecord, k: nat, next: ClaimRecord)
    requires Image(bytes, records, []) && k <= RECORD_LEN
    ensures Loaded(Present(bytes + Zeros(k) + Encode(r)[k..] + Encode(next))) == Ok(records + [Zeroed(r, k), next])
  {
    Regroup(bytes, Zeros(k), Encode(r)[k..]);
    TwoMoreLoad(bytes, records, Zeroed(r, k), next);
  }

  lemma MixtureLoads(bytes: seq<Byte>, records: seq<ClaimRecord>, r: ClaimRecord, k: nat, next: ClaimRecord)
    requires Image(bytes, records, []) && 0 < k <= RECORD_LEN
    ensures Loaded(Present(bytes + Zeros(0) + Encode(r)[k..] + Encode(next))) == Ok(records + [Straddling(r, k, next)])
  {
    var mixed, tail := Straddling(r, k, next), Encode(next)[k..];
    assert Encode(next) == Encode(next)[..k] + tail;
    assert bytes + Zeros(0) == bytes;
    Regroup(bytes + Encode(r)[k..], Encode(next)[..k], tail);
    Regroup(bytes, Encode(r)[k..], Encode(next)[..k]);
    ImageGrows(bytes, records, mixed);
    AppendedBody(bytes + Encode(mixed), records + [mixed], tail);
    LoadRecoversImage(bytes + Encode(mixed) + tail, records + [mixed], tail);
  }

  lemma TwoMoreLoad(bytes: seq<Byte>, records: seq<ClaimRecord>, r: ClaimRecord, next: ClaimRecord)
    requires Image(bytes, records, [])
    ensures Loaded(Present(bytes + Encode(r) + Encode(next))) == Ok(records + [r, next])
  {
    ImageGrows(bytes, records, r);
    ImageGrows(bytes + Encode(r), records + [r], next);
    LoadRecoversImage(bytes + Encode(r) + Encode(next), records + [r] + [next], []);
    assert records + [r] + [next] == records + [r, next];
  }

  /** A flush that lands 10 bytes and then keeps failing: the next, successful append is lost, the
      file loads a record that was never appended in its place. */
  lemma MisalignedAfterPartialFlush()
    ensures var zeros, ones := seq(32, _ => 0), seq(32, _ => 1);
      var refused, next := ClaimRecord(zeros, zeros), ClaimRecord(ones, ones);
      var h := Opened(Absent).value;
      var io := IoOutcome(ALL, 10, true, 0, true, true, true);
      var (h1, ok1) := Appended(h, refused, false, io);
      var (h2, ok2) := Appended(h1, next, false, NoFault);
      && !ok1 && ok2
      && Loaded(Present(h2.bytes)).Ok? && |Loaded(Present(h2.bytes)).value| == 1
      && Loaded(Present(h2.bytes)).value[0] != next
  {
    var zeros, ones: Id := seq(32, _ => 0), seq(32, _ => 1);
    var refused, next := ClaimRecord(zeros, zeros), ClaimRecord(ones, ones);
    var h := Opened(Absent).value;
    var io := IoOutcome(ALL, 10, true, 0, true, true, true);
    OpenCreates();
    WriteOnClean(h, [], Encode(refused), false, io);
    FailedAppend(h, [], refused, false, io);
    FaultlessAppend(Appended(h, refused, false, io).0, next, false);
    LoadedAfterFailure(h, [], refused, false, io, next);
    assert Encode(Straddling(refused, 10, next))[0] == 0 && Encode(next)[0] == 1;
  }

  // ---------- the log ----------

  /** Reads the file record by record until a short read. */
  method Load(d: Disk) returns (r: Result<seq<ClaimRecord>, LogError>)
    ensures r == Loaded(d)
  {
    if d.Absent? {
      return Ok([]);
    }
    if !ValidHeader(d.bytes) {
      return Err(BadHeader);
    }
    var out := [];
    var at := HEADER_LEN;
    while at + RECORD_LEN <= |d.bytes|
      invariant HEADER_LEN <= at <= |d.bytes|
      invariant Records(d.bytes[HEADER_LEN..]) == out + Records(d.bytes[at..])
    {
      var rec := d.bytes[at..at + RECORD_LEN];
      NextRecord(d.bytes, at);
      out := out + [Decode(rec)];
      at := at + RECORD_LEN;
    }
    assert out + [] == out;
    r := Ok(out);
  }

  lemma NextRecord(bytes: seq<Byte>, at: nat)
    requires at + RECORD_LEN <= |bytes|
    ensures Records(bytes[at..]) == [Decode(bytes[at..at + RECORD_LEN])] + Records(bytes[at + RECORD_LEN..])
  {
    assert bytes[at..][..RECORD_LEN] == bytes[at..at + RECORD_LEN];
    assert bytes[at..][RECORD_LEN..] == bytes[at + RECORD_LEN..];
  }

  class File {
    var content: Disk

    constructor (content: Disk)
      ensures this.content == content
    {
      this.content := content;
    }
  }

  class PersistentClaimLog {
    const file: File
    const fsync: bool
    var pos: nat
    var pending: seq<Byte>

    ghost predicate Valid()
      reads this, file
    {
      file.content.Present?
    }

    ghost function Abs(): Handle
      reads this, file
      requires Valid()
    {
      Handle(file.content.bytes, pos, pending)
    }

    /** A bad header is refused and the file left alone. */
    static method OpenLog(file: File, fsync: bool) returns (log: Result<PersistentClaimLog, LogError>)
      modifies file
      ensures log.Ok? <==> Opened(old(file.content)).Ok?
      ensures log.Ok? ==> fresh(log.value) && log.value.file == file && log.value.fsync == fsync
      ensures log.Ok? ==> log.value.Valid() && log.value.Abs() == Opened(old(file.content)).value
      ensures log.Err? ==> log.error == BadHeader && unchanged(file)
    {
      if file.content.Present? && file.content.bytes != [] && !ValidHeader(file.content.bytes) {
        return Err(BadHeader);
      }
      var handle := new PersistentClaimLog.Attach(file, fsync);
      log := Ok(handle);
    }

    constructor Attach(file: File, fsync: bool)
      requires Opened(file.content).Ok?
      modifies file
      ensures this.file == file && this.fsync == fsync
      ensures Valid() && Abs() == Opened(old(file.content)).value
    {
      this.file := file;
      this.fsync := fsync;
      var bytes := if file.content.Absent? || file.content.bytes == [] then HEADER else file.content.bytes;
      if |bytes| > HEADER_LEN {
        var remainder := (|bytes| - HEADER_LEN) % RECORD_LEN;
        if remainder != 0 {
          bytes := bytes[..|bytes| - remainder];
        }
      }
      pos := |bytes|;
      pending := [];
      new;
      file.content := Present(bytes);
    }

    /** `BufWriter::flush` with the first `landed` bytes getting through. */
    method Flush(landed: nat) returns (ok: bool)
      requires Valid()
      modifies this, file
      ensures Valid() && Abs() == Flushed(old(Abs()), landed)
      ensures ok <==> pending == []
    {
      var k := Min(landed, |pending|);
      file.content := Present(WriteAt(file.content.bytes, pos, pending[..k]));
      pos := pos + k;
      pending := pending[k..];
      ok := pending == [];
    }

    method FlushSynced(io: IoOutcome) returns (ok: bool)
      requires Valid()
      modifies this, file
      ensures Valid() && (Abs(), ok) == FlushAndSync(old(Abs()), fsync, io)
    {
      ok := Flush(io.flush);
      if ok && fsync {
        ok := io.synced;
      }
    }

    method WriteRec(rec: seq<Byte>, io: IoOutcome) returns (ok: bool)
      requires Valid()
      modifies this, file
      ensures Valid() && (Abs(), ok) == WriteRecord(old(Abs()), rec, fsync, io)
    {
      if |pending| + |rec| > BUFFER_CAPACITY {
        var roomy := Flush(io.makeRoom);
        if !roomy {
          return false;
        }
      }
      pending := pending + rec;
      ok := FlushSynced(io);
    }

    method CutTornTail(io: IoOutcome)
      requires Valid()
      modifies this, file
      ensures Valid() && Abs() == CutTail(old(Abs()), io)
    {
      var end := |file.content.bytes|;
      pos := end;
      if end > HEADER_LEN {
        var remainder := (end - HEADER_LEN) % RECORD_LEN;
        if remainder != 0 {
          if io.truncated {
            file.content := Present(file.content.bytes[..end - remainder]);
          }
          if io.resought {
            pos := |file.content.bytes|;
          }
        }
      }
    }

    method Realign(io: IoOutcome)
      requires Valid()
      modifies this, file
      ensures Valid() && Abs() == Realigned(old(Abs()), io)
    {
      var _ := Flush(io.reflush);
      if io.sought {
        CutTornTail(io);
      }
    }

    method AppendRecord(r: ClaimRecord, io: IoOutcome) returns (ok: bool)
      requires Valid()
      modifies this, file
      ensures Valid() && (Abs(), ok) == Appended(old(Abs()), r, fsync, io)
    {
      ok := WriteRec(Encode(r), io);
      if !ok {
        Realign(io);
      }
    }
  }
}
