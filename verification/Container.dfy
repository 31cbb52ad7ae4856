/**
  The record stream of a sealed file: what the loops of `src/file.cpp` write and accept, as
  functions, and what a well-framed record sequence is, stated without them.
 */
module Container {
  import opened Bytes
  import opened Errors
  import opened Gcm
  import opened FileCrypto

  const MAX_INDEX := U32_LIMIT - 1

  /** 2^52 bytes: 2^32 full chunks. */
  const MAX_PLAINTEXT := U32_LIMIT * CHUNK_SIZE

  // ---------- Frames ----------

  datatype RawFrame = Frame(index: u32, finalFlag: byte, ciphertext: bytes, tag: Tag)

  /** One record of the shape the reader lets through. */
  type Frame = f: RawFrame |
      && f.finalFlag in {NOT_FINAL, FINAL}
      && |f.ciphertext| <= CHUNK_SIZE
      && (f.finalFlag == NOT_FINAL ==> |f.ciphertext| == CHUNK_SIZE)
    witness Frame(0, FINAL, [], seq(TAG_SIZE, _ => 0))

  function FrameHeader(f: Frame): (r: bytes)
    ensures |r| == RECORD_HEADER_SIZE
  {
    RecordBytes(f.index, |f.ciphertext|, f.finalFlag)
  }

  function FrameBytes(f: Frame): bytes
  {
    FrameHeader(f) + f.ciphertext + f.tag
  }

  function Serialize(fs: seq<Frame>): bytes
  {
    if fs == [] then [] else FrameBytes(fs[0]) + Serialize(fs[1..])
  }

  /** Indexes run from `start` without gaps. */
  ghost predicate Numbered(fs: seq<Frame>, start: nat)
  {
    && start + |fs| <= U32_LIMIT
    && forall i :: 0 <= i < |fs| ==> fs[i].index == start + i
  }

  ghost predicate AllNonFinal(fs: seq<Frame>)
  {
    forall i :: 0 <= i < |fs| ==> fs[i].finalFlag == NOT_FINAL
  }

  /** A complete record sequence: numbered from `start`, and exactly the last record is final. */
  ghost predicate Framed(fs: seq<Frame>, start: nat)
  {
    && fs != []
    && Numbered(fs, start)
    && forall i :: 0 <= i < |fs| ==> (fs[i].finalFlag == FINAL <==> i == |fs| - 1)
  }

  // ---------- Keyed frames ----------

  /** What is fixed while one file is sealed or opened. */
  datatype Session = Session(suite: Suite, key: Key, header: bytes, noncePrefix: NoncePrefix, aad: bytes)

  /** The size OpenSSL is asked to absorb fits its `int` argument. */
  predicate AadFits(s: Session)
  {
    |s.header| + RECORD_HEADER_SIZE + |s.aad| <= INT_MAX
  }

  function FrameNonce(s: Session, index: u32): Nonce
  {
    NonceBytes(s.noncePrefix, index)
  }

  function FrameAad(s: Session, f: Frame): bytes
  {
    ChunkAad(s.header, FrameHeader(f), s.aad)
  }

  predicate TagValid(s: Session, f: Frame)
  {
    f.tag == s.suite.mac(s.key, FrameNonce(s, f.index), FrameAad(s, f), f.ciphertext)
  }

  ghost predicate AllTagsValid(s: Session, fs: seq<Frame>)
  {
    forall i :: 0 <= i < |fs| ==> TagValid(s, fs[i])
  }

  function Plain(s: Session, f: Frame): bytes
  {
    XorStream(s.suite, s.key, FrameNonce(s, f.index), 0, f.ciphertext)
  }

  function Plains(s: Session, fs: seq<Frame>): (ps: seq<bytes>)
    ensures |ps| == |fs|
  {
    seq(|fs|, i requires 0 <= i < |fs| => Plain(s, fs[i]))
  }

  // ---------- Opening ----------

  /** The structural stage of one turn of the reading loop. */
  datatype Reading = Rejected(error: ErrorCode) | Accepted(frame: Frame, rest: bytes)

  /** An input that ran out is a fault or a malformed packet. */
  function RanOut(broken: bool): Reading
  {
    Rejected(if broken then BackendFailure else InvalidPacket)
  }

  /** `src/file.cpp:120-148`: everything one turn of the loop checks before it decrypts. */
  function ReadRecord(input: bytes, broken: bool, expected: u32): (r: Reading)
    ensures r.Accepted? ==> |r.rest| < |input|
  {
    if |input| < RECORD_HEADER_SIZE then RanOut(broken)
    else
      match ParseRecordHeader(input[..RECORD_HEADER_SIZE])
      case Err(e) => Rejected(e)
      case Ok(record) =>
        var size := record.plaintextSize;
        var body := input[RECORD_HEADER_SIZE..];
        if record.index != expected then Rejected(InvalidPacket)
        else if record.finalFlag == NOT_FINAL && size != CHUNK_SIZE then Rejected(InvalidPacket)
        else if |body| < size + TAG_SIZE then RanOut(broken)
        else
          var rest := body[size + TAG_SIZE..];
          if record.finalFlag == FINAL && rest != [] then Rejected(InvalidPacket)
          else if record.finalFlag == FINAL && broken then Rejected(BackendFailure)
          else Accepted(Frame(record.index, record.finalFlag, body[..size], body[size..size + TAG_SIZE]), rest)
  }

  /** The chunks written, and how the call ended. */
  datatype OpenRun = OpenRun(chunks: seq<bytes>, outcome: Outcome)

  function FrameDecryption(s: Session, f: Frame, fault: CipherFault): Result<bytes>
  {
    ChunkDecryption(s.suite, f.ciphertext, f.tag, s.key, FrameNonce(s, f.index), FrameAad(s, f), fault)
  }

  /**
    What `open_file_payload` writes and returns from record `expected` on; `faults` says what OpenSSL does to
    each chunk.
   */
  function OpenFrom(s: Session, input: bytes, broken: bool, expected: u32, faults: nat -> CipherFault): OpenRun
    decreases |input|
  {
    match ReadRecord(input, broken, expected)
    case Rejected(e) => OpenRun([], Thrown(e))
    case Accepted(f, rest) =>
      match FrameDecryption(s, f, faults(expected))
      case Err(e) => OpenRun([], Thrown(e))
      case Ok(plaintext) =>
        if f.finalFlag == FINAL then OpenRun([plaintext], Done)
        else if expected == MAX_INDEX then OpenRun([plaintext], Thrown(InvalidPacket))
        else
          var tail := OpenFrom(s, rest, broken, expected + 1, faults);
          OpenRun([plaintext] + tail.chunks, tail.outcome)
  }

  // ---------- Sealing ----------

  /** The records written, and how the call ended. */
  datatype SealRun = SealRun(frames: seq<Frame>, outcome: Outcome)

  function ChunkFrameHeader(index: u32, finalFlag: byte, plaintext: bytes): (r: bytes)
    requires |plaintext| <= CHUNK_SIZE
  {
    RecordBytes(index, |plaintext|, finalFlag)
  }

  function PlaintextEncryption(s: Session, index: u32, finalFlag: byte, plaintext: bytes,
                               fault: CipherFault): (r: Result<EncryptedChunk>)
    requires |plaintext| <= CHUNK_SIZE
    ensures r.Ok? ==> |r.value.ciphertext| == |plaintext|
  {
    ChunkEncryption(s.suite, plaintext, s.key, FrameNonce(s, index),
                    ChunkAad(s.header, ChunkFrameHeader(index, finalFlag, plaintext), s.aad), fault)
  }

  /**
    One turn of the writing loop up to its writes, when `data` is still to be read. A read of a full
    chunk is final exactly when the following peek meets the end.
   */
  function SealTurn(s: Session, data: bytes, broken: bool, index: u32, fault: CipherFault): (r: Result<Frame>)
    ensures r.Ok? ==> r.value.finalFlag == if |data| <= CHUNK_SIZE then FINAL else NOT_FINAL
  {
    if |data| <= CHUNK_SIZE && broken then Err(BackendFailure)
    else
      var isFinal := |data| <= CHUNK_SIZE;
      var plaintext := if isFinal then data else data[..CHUNK_SIZE];
      var finalFlag := if isFinal then FINAL else NOT_FINAL;
      match PlaintextEncryption(s, index, finalFlag, plaintext, fault)
      case Err(e) => Err(e)
      case Ok(chunk) => Ok(Frame(index, finalFlag, chunk.ciphertext, chunk.tag))
  }

  /** What `seal_stream_payload` writes after the header, from chunk `index` on, and how it ends. */
  function SealFrom(s: Session, data: bytes, broken: bool, index: u32, faults: nat -> CipherFault): SealRun
    decreases |data|
  {
    match SealTurn(s, data, broken, index, faults(index))
    case Err(e) => SealRun([], Thrown(e))
    case Ok(f) =>
      if f.finalFlag == FINAL then SealRun([f], Done)
      else if index == MAX_INDEX then SealRun([f], Thrown(InvalidInput))
      else
        var tail := SealFrom(s, data[CHUNK_SIZE..], broken, index + 1, faults);
        SealRun([f] + tail.frames, tail.outcome)
  }

  /** The bytes out after the header and some records. */
  function Output(s: Session, fs: seq<Frame>): bytes
  {
    s.header + Serialize(fs)
  }

  /** The bytes a seal run writes. */
  function SealOutput(s: Session, run: SealRun): bytes
  {
    Output(s, run.frames)
  }

  // ---------- Reference encoding ----------

  /** The record for one chunk of plaintext. */
  function SealFrame(s: Session, index: u32, finalFlag: byte, plaintext: bytes): Frame
    requires finalFlag in {NOT_FINAL, FINAL} && |plaintext| <= CHUNK_SIZE
    requires finalFlag == NOT_FINAL ==> |plaintext| == CHUNK_SIZE
  {
    var ciphertext := XorStream(s.suite, s.key, FrameNonce(s, index), 0, plaintext);
    var aad := ChunkAad(s.header, RecordBytes(index, |plaintext|, finalFlag), s.aad);
    Frame(index, finalFlag, ciphertext, s.suite.mac(s.key, FrameNonce(s, index), aad, ciphertext))
  }

  /** A division of plaintext into chunks: all full but the last, which may be short or even empty. */
  ghost predicate Layout(chunks: seq<bytes>)
  {
    && chunks != []
    && (forall i :: 0 <= i < |chunks| - 1 ==> |chunks[i]| == CHUNK_SIZE)
    && |chunks[|chunks| - 1]| <= CHUNK_SIZE
  }

  /** The records that carry the chunks of a layout. */
  ghost function SealedFrames(s: Session, chunks: seq<bytes>, start: nat): (fs: seq<Frame>)
    requires Layout(chunks) && start + |chunks| <= U32_LIMIT
    ensures |fs| == |chunks|
  {
    seq(|chunks|, i requires 0 <= i < |chunks| =>
      SealFrame(s, start + i, if i == |chunks| - 1 then FINAL else NOT_FINAL, chunks[i]))
  }

  /** The division sealing makes: no chunk is empty unless the whole plaintext is. */
  function Chunks(data: bytes): (chunks: seq<bytes>)
    decreases |data|
  {
    if |data| <= CHUNK_SIZE then [data] else [data[..CHUNK_SIZE]] + Chunks(data[CHUNK_SIZE..])
  }

  /** No chunk meets an OpenSSL failure. */
  ghost predicate NoFaults(faults: nat -> CipherFault)
  {
    forall i: nat :: faults(i).NoFault?
  }
}
