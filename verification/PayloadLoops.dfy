/** The two loops of `src/file.cpp`, on streams that can fault and sinks that can fill up. */
module PayloadLoops {
  import opened Bytes
  import opened Errors
  import opened Gcm
  import opened FileCrypto
  import opened Streams
  import opened Container
  import opened Framing

  lemma FittingPrefix(done: bytes, w: bytes, rest: bytes, room: nat)
    requires |done| + |w| > room >= |done|
    ensures Fitting(done + w + rest, room) == done + Fitting(w, room - |done|)
  {
  }

  /** The three writes that put one record out. */
  method WriteRecord(output: OutputStream, record: RecordHeader, chunk: EncryptedChunk) returns (r: Outcome)
    requires !output.bad
    modifies output
    ensures var w := record.serialized + chunk.ciphertext + chunk.tag;
            && r == (if |w| <= old(output.room) then Done else Thrown(BackendFailure))
            && output.written == old(output.written) + Fitting(w, old(output.room))
            && (r.Done? ==> !output.bad && output.room == old(output.room) - |w|)
  {
    ghost var w := record.serialized + chunk.ciphertext + chunk.tag;
    r := output.WriteAll(record.serialized);
    if r.Thrown? {
      assert w[..old(output.room)] == record.serialized[..old(output.room)];
      return;
    }
    ghost var room := output.room;
    r := output.WriteAll(chunk.ciphertext);
    if r.Thrown? {
      assert w[..old(output.room)] == record.serialized + chunk.ciphertext[..room];
      return;
    }
    room := output.room;
    r := output.WriteAll(chunk.tag);
    if r.Thrown? {
      assert w[..old(output.room)] == record.serialized + chunk.ciphertext + chunk.tag[..room];
    }
  }

  /** `src/file.cpp:39-64`: read a chunk, peek, and encrypt it. */
  method NextRecord(input: InputStream, s: Session, chunkIndex: u32, fault: CipherFault)
    returns (r: Result<EncryptedChunk>, record: RecordHeader)
    modifies input
    ensures var (data, faulty) := old(input.SealSource());
            match SealTurn(s, data, faulty, chunkIndex, fault)
            case Err(e) => r == Err(e)
            case Ok(f) =>
              && r == Ok(EncryptedChunk(f.ciphertext, f.tag))
              && record == RecordHeader(FrameHeader(f), f.index, |f.ciphertext|, f.finalFlag)
              && (f.finalFlag == NOT_FINAL ==> input.SealSource() == (data[CHUNK_SIZE..], faulty))
  {
    ghost var (data, faulty) := input.SealSource();
    record := RecordHeader([], 0, 0, NOT_FINAL);
    var buffer := input.Read(CHUNK_SIZE);
    if !input.eof && input.Fail() {
      return Err(BackendFailure), record;
    }
    var isFinal := |buffer| < CHUNK_SIZE;
    if !isFinal {
      var end := input.PeekIsEof();
      if end {
        if input.bad {
          return Err(BackendFailure), record;
        }
        isFinal := true;
      }
    }
    assert isFinal <==> |data| <= CHUNK_SIZE;
    assert buffer == if isFinal then data else data[..CHUNK_SIZE];
    record := MakeRecordHeader(chunkIndex, |buffer|, if isFinal then FINAL else NOT_FINAL);
    var nonce := MakeNonce(s.noncePrefix, chunkIndex);
    var chunkAad := s.header + record.serialized + s.aad;
    r := EncryptChunk(s.suite, buffer, s.key, nonce, chunkAad, fault);
    assert r == PlaintextEncryption(s, chunkIndex, record.finalFlag, buffer, fault);
  }

  function Prepended(done: seq<Frame>, run: SealRun): SealRun
  {
    SealRun(done + run.frames, run.outcome)
  }

  lemma NothingDone(run: SealRun)
    ensures run == Prepended([], run)
  {
  }

  /** One turn takes the run a record further or ends it. */
  lemma Advance(run: SealRun, done: seq<Frame>, s: Session, data: bytes, faulty: bool, index: u32,
                faults: nat -> CipherFault)
    requires run == Prepended(done, SealFrom(s, data, faulty, index, faults))
    ensures match SealTurn(s, data, faulty, index, faults(index))
            case Err(e) => run == SealRun(done, Thrown(e))
            case Ok(f) =>
              && SealFrom(s, data, faulty, index, faults).frames != []
              && SealFrom(s, data, faulty, index, faults).frames[0] == f
              && if f.finalFlag == FINAL then run == SealRun(done + [f], Done)
                 else if index == MAX_INDEX then run == SealRun(done + [f], Thrown(InvalidInput))
                 else run == Prepended(done + [f], SealFrom(s, data[CHUNK_SIZE..], faulty, index + 1, faults))
  {
    hide SealTurn;
  }

  /**
    `seal_stream_payload`. The sink receives the output of the run as far as it has room, and a sink
    that is too small turns the outcome into `backend_failure`.
   */
  method SealStreamPayload(input: InputStream, output: OutputStream, s: Session, faults: nat -> CipherFault)
    returns (r: Outcome)
    requires s.header != []
    modifies input, output
    ensures var (data, faulty) := old(input.SealSource());
            var run := SealFrom(s, data, faulty, 0, faults);
            && r == (if |SealOutput(s, run)| <= old(output.Room()) then run.outcome else Thrown(BackendFailure))
            && output.written == old(output.written) + Fitting(SealOutput(s, run), old(output.Room()))
  {
    hide SealTurn, SealFrom, Prepended, FrameBytes, FrameHeader, Output, Fitting;
    ghost var (data, faulty) := input.SealSource();
    ghost var run := SealFrom(s, data, faulty, 0, faults);
    ghost var room := output.Room();
    ghost var start := output.written;
    ghost var done: seq<Frame> := [];
    OutputStart(s, run, room);
    r := output.WriteAll(s.header);
    if r.Thrown? {
      return;
    }
    var chunkIndex: u32 := 0;
    var wroteFinal := false;
    NothingDone(run);
    while !wroteFinal
      invariant !output.bad && output.room == room - |Output(s, done)|
      invariant output.written == start + Output(s, done)
      invariant !wroteFinal ==>
        && (data, faulty) == input.SealSource()
        && run == Prepended(done, SealFrom(s, data, faulty, chunkIndex, faults))
      invariant wroteFinal ==> run == SealRun(done, Done)
      decreases !wroteFinal, |data|
    {
      ghost var tail := SealFrom(s, data, faulty, chunkIndex, faults);
      Advance(run, done, s, data, faulty, chunkIndex, faults);
      var encrypted, record := NextRecord(input, s, chunkIndex, faults(chunkIndex));
      if encrypted.Err? {
        return Thrown(encrypted.error);
      }
      ghost var f := SealTurn(s, data, faulty, chunkIndex, faults(chunkIndex)).value;
      EmitFrame(s, done, f, tail, room, record, encrypted.value);
      r := WriteRecord(output, record, encrypted.value);
      if r.Thrown? {
        return;
      }
      done := done + [f];
      wroteFinal := record.finalFlag == FINAL;
      if chunkIndex == MAX_INDEX && !wroteFinal {
        return Thrown(InvalidInput);
      }
      if !wroteFinal {
        data := data[CHUNK_SIZE..];
      }
      chunkIndex := (chunkIndex + 1) % U32_LIMIT;
    }
    return Done;
  }

  lemma OutputStart(s: Session, run: SealRun, room: nat)
    ensures Output(s, []) == s.header
    ensures |s.header| > room ==>
              |SealOutput(s, run)| > room && Fitting(SealOutput(s, run), room) == Fitting(s.header, room)
  {
    assert Serialize([]) == [];
  }

  lemma OutputSplit(s: Session, done: seq<Frame>, f: Frame, more: seq<Frame>)
    ensures Output(s, done + [f]) == Output(s, done) + FrameBytes(f)
    ensures Output(s, done + ([f] + more)) == Output(s, done) + FrameBytes(f) + Serialize(more)
  {
    hide Serialize, FrameBytes;
    SerializeAppend(done, f);
    Associative(s.header, Serialize(done), FrameBytes(f));
    Associative(done, [f], more);
    SerializeConcat(done + [f], more);
    Associative(s.header, Serialize(done + [f]), Serialize(more));
  }

  lemma Associative<T>(a: seq<T>, b: seq<T>, c: seq<T>)
    ensures (a + b) + c == a + (b + c)
  {
  }

  /** What has been written once the record `f` is out, and what a sink that cannot take it holds. */
  lemma EmitFrame(s: Session, done: seq<Frame>, f: Frame, tail: SealRun, room: nat, record: RecordHeader,
                  chunk: EncryptedChunk)
    requires tail.frames != [] && tail.frames[0] == f
    requires record.serialized == FrameHeader(f) && chunk == EncryptedChunk(f.ciphertext, f.tag)
    requires room >= |Output(s, done)|
    ensures var w, run := record.serialized + chunk.ciphertext + chunk.tag, Prepended(done, tail);
            && Output(s, done + [f]) == Output(s, done) + w
            && (|w| > room - |Output(s, done)| ==>
                  && |SealOutput(s, run)| > room
                  && Fitting(SealOutput(s, run), room) == Output(s, done) + Fitting(w, room - |Output(s, done)|))
  {
    hide Serialize, FrameHeader;
    var more := tail.frames[1..];
    assert tail.frames == [f] + more;
    OutputSplit(s, done, f, more);
    if |FrameBytes(f)| > room - |Output(s, done)| {
      FittingPrefix(Output(s, done), FrameBytes(f), Serialize(more), room);
    }
  }

  // ---------- Opening ----------

  /** `src/file.cpp:120-148`: read one record and check everything but its tag. */
  method NextReading(input: InputStream, expected: u32) returns (r: Reading)
    modifies input
    ensures var (data, faulty) := old(input.OpenSource());
            && r == ReadRecord(data, faulty, expected)
            && (r.Accepted? && r.frame.finalFlag == NOT_FINAL ==> input.OpenSource() == (r.rest, faulty))
  {
    ghost var (data, faulty) := input.OpenSource();
    var recordBytes := ReadExact(input, RECORD_HEADER_SIZE);
    if recordBytes.Err? {
      return Rejected(recordBytes.error);
    }
    if recordBytes.value.None? {
      return Rejected(InvalidPacket);
    }
    ghost var body := input.rest;
    var parsed := ParseRecordHeader(recordBytes.value.value);
    if parsed.Err? {
      return Rejected(parsed.error);
    }
    var record := parsed.value;
    if record.index != expected {
      return Rejected(InvalidPacket);
    }
    if record.finalFlag == NOT_FINAL && record.plaintextSize != CHUNK_SIZE {
      return Rejected(InvalidPacket);
    }
    var ciphertext := ReadExact(input, record.plaintextSize);
    if ciphertext.Err? {
      return Rejected(ciphertext.error);
    }
    if ciphertext.value.None? {
      return Rejected(InvalidPacket);
    }
    var tag := ReadExact(input, TAG_SIZE);
    if tag.Err? {
      return Rejected(tag.error);
    }
    if tag.value.None? {
      return Rejected(InvalidPacket);
    }
    assert input.rest == body[record.plaintextSize + TAG_SIZE..];
    assert tag.value.value == body[record.plaintextSize..record.plaintextSize + TAG_SIZE];
    r := Accepted(Frame(record.index, record.finalFlag, ciphertext.value.value, tag.value.value), input.rest);
    if record.finalFlag == FINAL {
      var trailing := RejectTrailingData(input);
      if trailing.Thrown? {
        r := Rejected(trailing.error);
      }
    }
  }

  /** `src/file.cpp:120-152`: read, check and decrypt one record. */
  method NextChunk(input: InputStream, s: Session, expected: u32, fault: CipherFault)
    returns (r: Result<bytes>, isFinal: bool)
    modifies input
    ensures var (data, faulty) := old(input.OpenSource());
            match ReadRecord(data, faulty, expected)
            case Rejected(e) => r == Err(e)
            case Accepted(f, rest) =>
              && r == FrameDecryption(s, f, fault)
              && isFinal == (f.finalFlag == FINAL)
              && (!isFinal ==> input.OpenSource() == (rest, faulty))
  {
    hide ReadRecord;
    var reading := NextReading(input, expected);
    if reading.Rejected? {
      return Err(reading.error), false;
    }
    var frame := reading.frame;
    var record := MakeRecordHeader(frame.index, |frame.ciphertext|, frame.finalFlag);
    var nonce := MakeNonce(s.noncePrefix, frame.index);
    var chunkAad := s.header + record.serialized + s.aad;
    r := DecryptChunk(s.suite, frame.ciphertext, frame.tag, s.key, nonce, chunkAad, fault);
    isFinal := frame.finalFlag == FINAL;
  }

  /** The sink still takes everything the chunks amount to. */
  predicate Takes(bad: bool, room: nat, chunks: seq<bytes>)
  {
    chunks == [] || (!bad && |Flatten(chunks)| <= room)
  }

  /** One chunk after the other fits if and only if there is none, or the sink is good and has room for all. */
  lemma TakesExactly(bad: bool, room: nat, chunks: seq<bytes>)
    ensures Takes(bad, room, chunks) <==> chunks == [] || (!bad && |Flatten(chunks)| <= room)
  {
  }

  /** The sink after the chunks `done` went into a sink that was `bad` or had `room`, and held `start`. */
  ghost predicate SinkAfter(output: OutputStream, bad: bool, room: nat, start: bytes, done: seq<bytes>)
    reads output
  {
    && output.bad == bad && (bad ==> done == []) && Takes(bad, room, done)
    && |Flatten(done)| <= (if bad then 0 else room)
    && output.Room() == (if bad then 0 else room) - |Flatten(done)|
    && output.written == start + Flatten(done)
  }

  /** What one more chunk does to such a sink. */
  lemma TakesNext(bad: bool, room: nat, done: seq<bytes>, last: bytes, more: seq<bytes>)
    requires (bad ==> done == []) && |Flatten(done)| <= (if bad then 0 else room)
    ensures var left := (if bad then 0 else room) - |Flatten(done)|;
            && Takes(bad, room, done)
            && Flatten(done + [last]) == Flatten(done) + last
            && (Takes(bad, room, done + [last]) <==> !bad && |last| <= left)
            && (!Takes(bad, room, done + [last]) ==>
                  && !Takes(bad, room, done + [last] + more)
                  && Fitting(Flatten(done + [last] + more), if bad then 0 else room)
                     == Flatten(done) + Fitting(last, left))
  {
    FlattenAppend(done, last);
    FlattenConcat(done + [last], more);
    if !bad && |last| > room - |Flatten(done)| {
      FittingPrefix(Flatten(done), last, Flatten(more), room);
    }
  }

  function PrependedChunks(done: seq<bytes>, run: OpenRun): OpenRun
  {
    OpenRun(done + run.chunks, run.outcome)
  }

  lemma NothingOpened(run: OpenRun, bad: bool, room: nat)
    ensures run == PrependedChunks([], run) && Flatten([]) == [] && Takes(bad, room, [])
  {
  }

  /** One turn takes the run a chunk further or ends it. */
  lemma AdvanceOpen(run: OpenRun, done: seq<bytes>, s: Session, data: bytes, faulty: bool, expected: u32,
                    faults: nat -> CipherFault)
    requires run == PrependedChunks(done, OpenFrom(s, data, faulty, expected, faults))
    ensures match ReadRecord(data, faulty, expected)
            case Rejected(e) => run == OpenRun(done, Thrown(e))
            case Accepted(f, rest) =>
              match FrameDecryption(s, f, faults(expected))
              case Err(e) => run == OpenRun(done, Thrown(e))
              case Ok(plaintext) =>
                && (exists more :: run.chunks == done + [plaintext] + more)
                && if f.finalFlag == FINAL then run == OpenRun(done + [plaintext], Done)
                   else if expected == MAX_INDEX then run == OpenRun(done + [plaintext], Thrown(InvalidPacket))
                   else run == PrependedChunks(done + [plaintext], OpenFrom(s, rest, faulty, expected + 1, faults))
  {
    hide ReadRecord, FrameDecryption;
    var reading := ReadRecord(data, faulty, expected);
    if reading.Accepted? && FrameDecryption(s, reading.frame, faults(expected)).Ok? {
      var tail := OpenFrom(s, data, faulty, expected, faults);
      assert tail.chunks == [tail.chunks[0]] + tail.chunks[1..];
      assert run.chunks == done + [tail.chunks[0]] + tail.chunks[1..];
    }
  }

  /**
    `open_file_payload`. Every chunk is written as soon as its tag has been checked; a sink that
    cannot take one ends the call with `backend_failure`.
   */
  method OpenFilePayload(input: InputStream, output: OutputStream, s: Session, faults: nat -> CipherFault)
    returns (r: Outcome)
    modifies input, output
    ensures var (data, faulty) := old(input.OpenSource());
            var run := OpenFrom(s, data, faulty, 0, faults);
            && r == (if Takes(old(output.bad), old(output.room), run.chunks) then run.outcome
                     else Thrown(BackendFailure))
            && output.written == old(output.written) + Fitting(Flatten(run.chunks), old(output.Room()))
  {
    hide ReadRecord, FrameDecryption, OpenFrom, PrependedChunks, Fitting, Takes, Flatten;
    ghost var (data, faulty) := input.OpenSource();
    ghost var run := OpenFrom(s, data, faulty, 0, faults);
    ghost var bad, room, start := output.bad, output.room, output.written;
    ghost var done: seq<bytes> := [];
    var expectedIndex: u32 := 0;
    var sawFinal := false;
    NothingOpened(run, bad, room);
    while !sawFinal
      invariant SinkAfter(output, bad, room, start, done)
      invariant !sawFinal ==>
        && (data, faulty) == input.OpenSource()
        && run == PrependedChunks(done, OpenFrom(s, data, faulty, expectedIndex, faults))
      invariant sawFinal ==> run == OpenRun(done, Done)
      decreases !sawFinal, |data|
    {
      AdvanceOpen(run, done, s, data, faulty, expectedIndex, faults);
      var plaintext, isFinal := NextChunk(input, s, expectedIndex, faults(expectedIndex));
      if plaintext.Err? {
        return Thrown(plaintext.error);
      }
      ghost var more :| run.chunks == done + [plaintext.value] + more;
      TakesNext(bad, room, done, plaintext.value, more);
      r := output.WriteAll(plaintext.value);
      if r.Thrown? {
        return;
      }
      done := done + [plaintext.value];
      sawFinal := isFinal;
      if expectedIndex == MAX_INDEX && !sawFinal {
        return Thrown(InvalidPacket);
      }
      if !sawFinal {
        data := input.OpenSource().0;
      }
      expectedIndex := (expectedIndex + 1) % U32_LIMIT;
    }
    return Done;
  }
}
