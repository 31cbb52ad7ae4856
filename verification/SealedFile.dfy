/** Whole sealed files of both formats: the stream overloads of `src/file.cpp` and what they promise together. */
module SealedFile {
  import opened Bytes
  import opened Errors
  import opened Gcm
  import opened FileCrypto
  import opened Streams
  import opened Container
  import opened Framing
  import opened Opening
  import opened Sealing
  import opened Integrity
  import opened PayloadLoops

  /** What selects the format: SKF1 takes a key, SKP1 a password. */
  datatype Secret = RawKey(key: Key) | Password(password: bytes)

  predicate Usable(secret: Secret)
  {
    secret.Password? ==> secret.password != []
  }

  function HeaderSize(secret: Secret): nat
  {
    if secret.RawKey? then HEADER_SIZE else PASSWORD_HEADER_SIZE
  }

  function HeaderOf(secret: Secret, e: Entropy): (h: bytes)
    ensures |h| == HeaderSize(secret)
  {
    if secret.RawKey? then HeaderBytes(e) else PasswordHeaderBytes(e)
  }

  function ParseFor(secret: Secret, data: bytes): Result<FileHeader>
    requires |data| == HeaderSize(secret)
  {
    if secret.RawKey? then ParseHeader(data) else ParsePasswordHeader(data)
  }

  function FileKey(suite: Suite, secret: Secret, salt: Salt): Result<Key>
  {
    match secret
    case RawKey(key) => DeriveFileKey(suite, key, salt)
    case Password(password) => DerivePasswordFileKey(suite, password, salt)
  }

  // ---------- What the calls do ----------

  datatype FileRun = FileRun(written: bytes, outcome: Outcome)

  /** The session a seal call sets up, or what it throws before it writes anything. */
  function SealSession(suite: Suite, secret: Secret, entropy: Option<Entropy>, aad: bytes): (r: Result<Session>)
    ensures r.Ok? ==> Usable(secret) && entropy.Some? && r.value.header == HeaderOf(secret, entropy.value)
  {
    if !Usable(secret) then Err(InvalidInput)
    else match entropy
         case None => Err(BackendFailure)
         case Some(e) =>
           match FileKey(suite, secret, e.salt)
           case Err(code) => Err(code)
           case Ok(key) => Ok(Session(suite, key, HeaderOf(secret, e), e.noncePrefix, aad))
  }

  function SealFileRun(suite: Suite, secret: Secret, entropy: Option<Entropy>, aad: bytes,
                       data: bytes, faulty: bool, faults: nat -> CipherFault): FileRun
  {
    match SealSession(suite, secret, entropy, aad)
    case Err(e) => FileRun([], Thrown(e))
    case Ok(s) =>
      var run := SealFrom(s, data, faulty, 0, faults);
      FileRun(SealOutput(s, run), run.outcome)
  }

  /** The session an open call sets up after reading the header, or what it throws instead. */
  function OpenSession(suite: Suite, secret: Secret, aad: bytes, input: bytes, faulty: bool): (r: Result<Session>)
    ensures r.Ok? ==> |input| >= HeaderSize(secret) && r.value.header == input[..HeaderSize(secret)]
  {
    if !Usable(secret) then Err(InvalidInput)
    else if |input| < HeaderSize(secret) then Err(if faulty then BackendFailure else InvalidPacket)
    else match ParseFor(secret, input[..HeaderSize(secret)])
         case Err(code) => Err(code)
         case Ok(h) =>
           match FileKey(suite, secret, h.salt)
           case Err(code) => Err(code)
           case Ok(key) => Ok(Session(suite, key, h.serialized, h.noncePrefix, aad))
  }

  function OpenFileRun(suite: Suite, secret: Secret, aad: bytes,
                       input: bytes, faulty: bool, faults: nat -> CipherFault): OpenRun
  {
    match OpenSession(suite, secret, aad, input, faulty)
    case Err(e) => OpenRun([], Thrown(e))
    case Ok(s) => OpenFrom(s, input[HeaderSize(secret)..], faulty, 0, faults)
  }

  // ---------- The stream overloads ----------

  /** `seal_file` and `seal_file_with_password` on streams. */
  method SealFile(input: InputStream, output: OutputStream, suite: Suite, secret: Secret,
                  entropy: Option<Entropy>, aad: bytes, faults: nat -> CipherFault) returns (r: Outcome)
    modifies input, output
    ensures var (data, faulty) := old(input.SealSource());
            var run := SealFileRun(suite, secret, entropy, aad, data, faulty, faults);
            && r == (if |run.written| <= old(output.Room()) then run.outcome else Thrown(BackendFailure))
            && output.written == old(output.written) + Fitting(run.written, old(output.Room()))
  {
    if !Usable(secret) {
      return Thrown(InvalidInput);
    }
    var header;
    if secret.RawKey? {
      header := MakeHeader(entropy);
    } else {
      header := MakePasswordHeader(entropy);
    }
    if header.Err? {
      return Thrown(header.error);
    }
    var fileKey := FileKey(suite, secret, header.value.salt);
    if fileKey.Err? {
      return Thrown(fileKey.error);
    }
    var s := Session(suite, fileKey.value, header.value.serialized, header.value.noncePrefix, aad);
    r := SealStreamPayload(input, output, s, faults);
  }

  /** `open_file` and `open_file_with_password` on streams. */
  method OpenFile(input: InputStream, output: OutputStream, suite: Suite, secret: Secret,
                  aad: bytes, faults: nat -> CipherFault) returns (r: Outcome)
    modifies input, output
    ensures var (data, faulty) := old(input.OpenSource());
            var run := OpenFileRun(suite, secret, aad, data, faulty, faults);
            && r == (if run.chunks == [] || (!old(output.bad) && |Flatten(run.chunks)| <= old(output.room)) then
                       run.outcome
                     else Thrown(BackendFailure))
            && output.written == old(output.written) + Fitting(Flatten(run.chunks), old(output.Room()))
  {
    if !Usable(secret) {
      return Thrown(InvalidInput);
    }
    var headerBytes := ReadExact(input, HeaderSize(secret));
    if headerBytes.Err? {
      return Thrown(headerBytes.error);
    }
    if headerBytes.value.None? {
      return Thrown(InvalidPacket);
    }
    var header := ParseFor(secret, headerBytes.value.value);
    if header.Err? {
      return Thrown(header.error);
    }
    var fileKey := FileKey(suite, secret, header.value.salt);
    if fileKey.Err? {
      return Thrown(fileKey.error);
    }
    var s := Session(suite, fileKey.value, header.value.serialized, header.value.noncePrefix, aad);
    TakesExactly(output.bad, output.room, OpenFrom(s, input.OpenSource().0, input.OpenSource().1, 0, faults).chunks);
    r := OpenFilePayload(input, output, s, faults);
  }

  lemma SealFileErrors(suite: Suite, secret: Secret, entropy: Option<Entropy>, aad: bytes, data: bytes, faulty: bool,
                       faults: nat -> CipherFault)
    ensures SealFileRun(suite, secret, entropy, aad, data, faulty, faults).outcome
            in {Done, Thrown(InvalidInput), Thrown(BackendFailure)}
  {
    hide SealFrom;
    if SealSession(suite, secret, entropy, aad).Ok? {
      SealErrors(SealSession(suite, secret, entropy, aad).value, data, faulty, 0, faults);
    }
  }

  lemma OpenFileErrors(suite: Suite, secret: Secret, aad: bytes, input: bytes, faulty: bool, faults: nat -> CipherFault)
    ensures OpenFileRun(suite, secret, aad, input, faulty, faults).outcome != Thrown(InvalidEncoding)
  {
    hide OpenFrom;
    var session := OpenSession(suite, secret, aad, input, faulty);
    if session.Ok? {
      OpenErrors(session.value, input[HeaderSize(secret)..], faulty, faults);
    }
  }

  // ---------- Theorems ----------

  /** Reading a made header sets up the session it was made for. */
  lemma SessionsAgree(suite: Suite, secret: Secret, entropy: Option<Entropy>, aad: bytes, payload: bytes, faulty: bool)
    requires SealSession(suite, secret, entropy, aad).Ok?
    ensures var s := SealSession(suite, secret, entropy, aad).value;
            && IsHeader(s.header)
            && OpenSession(suite, secret, aad, s.header + payload, faulty) == Ok(s)
            && (s.header + payload)[HeaderSize(secret)..] == payload
  {
    var e := entropy.value;
    var h := HeaderOf(secret, e);
    assert (h + payload)[..HeaderSize(secret)] == h;
    if secret.RawKey? {
      ParseHeaderExact(h, e);
    } else {
      ParsePasswordHeaderExact(h, e);
    }
  }

  /**
    The specification of a whole file: the header made from `e`, and behind it a complete sequence of
    authentic records.
   */
  ghost predicate AuthenticContainer(suite: Suite, secret: Secret, aad: bytes, file: bytes, e: Entropy, fs: seq<Frame>)
  {
    var session := SealSession(suite, secret, Some(e), aad);
    && session.Ok? && AadFits(session.value)
    && file == Output(session.value, fs) && Framed(fs, 0) && AllTagsValid(session.value, fs)
  }

  /** A session `OpenSession` sets up is the one of the entropy in the header. */
  lemma OpenSessionIs(suite: Suite, secret: Secret, aad: bytes, input: bytes, faulty: bool) returns (e: Entropy)
    requires OpenSession(suite, secret, aad, input, faulty).Ok?
    ensures SealSession(suite, secret, Some(e), aad) == OpenSession(suite, secret, aad, input, faulty)
  {
    var h := input[..HeaderSize(secret)];
    var parsed := ParseFor(secret, h).value;
    e := Entropy(parsed.salt, parsed.noncePrefix);
    if secret.RawKey? {
      ParseHeaderExact(h, e);
    } else {
      ParsePasswordHeaderExact(h, e);
    }
  }

  /**
    Opening a file succeeds if and only if it is a valid header with a complete sequence of authentic
    records behind it and nothing else, and then writes their plaintext.
   */
  lemma OpenFileExact(suite: Suite, secret: Secret, aad: bytes, file: bytes, faulty: bool, faults: nat -> CipherFault)
    requires NoFaults(faults)
    ensures OpenFileRun(suite, secret, aad, file, faulty, faults).outcome.Done?
       <==> !faulty && exists e, fs :: AuthenticContainer(suite, secret, aad, file, e, fs)
    ensures forall e, fs :: AuthenticContainer(suite, secret, aad, file, e, fs) && !faulty ==>
              OpenFileRun(suite, secret, aad, file, faulty, faults)
              == OpenRun(Plains(SealSession(suite, secret, Some(e), aad).value, fs), Done)
  {
    hide OpenFrom, SealSession, OpenSession;
    if OpenFileRun(suite, secret, aad, file, faulty, faults).outcome.Done? {
      var e := OpenSessionIs(suite, secret, aad, file, faulty);
      var s, n := OpenSession(suite, secret, aad, file, faulty).value, HeaderSize(secret);
      var fs := OpenSound(s, file[n..], faulty, 0, faults);
      assert file == file[..n] + file[n..];
      assert AuthenticContainer(suite, secret, aad, file, e, fs);
    }
    forall e, fs | AuthenticContainer(suite, secret, aad, file, e, fs) && !faulty
      ensures OpenFileRun(suite, secret, aad, file, faulty, faults)
              == OpenRun(Plains(SealSession(suite, secret, Some(e), aad).value, fs), Done)
    {
      SessionsAgree(suite, secret, Some(e), aad, Serialize(fs), faulty);
      OpenComplete(SealSession(suite, secret, Some(e), aad).value, fs, 0, faults);
    }
  }

  /** Opening `file` with this secret and associated data returns `data`, when OpenSSL works. */
  ghost predicate OpensFileTo(suite: Suite, secret: Secret, aad: bytes, file: bytes, data: bytes)
  {
    forall faults: nat -> CipherFault :: NoFaults(faults) ==>
      var run := OpenFileRun(suite, secret, aad, file, false, faults);
      run.outcome.Done? && Flatten(run.chunks) == data
  }

  /** Whatever a seal call that ends well has written, opening returns its input. */
  lemma SealedFileOpens(suite: Suite, secret: Secret, entropy: Option<Entropy>, aad: bytes, data: bytes, faulty: bool,
                        faults: nat -> CipherFault)
    requires SealFileRun(suite, secret, entropy, aad, data, faulty, faults).outcome == Done
    ensures var sealed := SealFileRun(suite, secret, entropy, aad, data, faulty, faults);
            OpensFileTo(suite, secret, aad, sealed.written, data)
  {
    hide SealFrom, OpenFrom, SealSession, OpenSession, Canonical;
    var s := SealSession(suite, secret, entropy, aad).value;
    var file := s.header + Serialize(SealFrom(s, data, faulty, 0, faults).frames);
    forall faults': nat -> CipherFault | NoFaults(faults')
      ensures var run := OpenFileRun(suite, secret, aad, file, false, faults');
              run.outcome.Done? && Flatten(run.chunks) == data
    {
      RoundTrip(s, data, faulty, faults, faults');
      SessionsAgree(suite, secret, entropy, aad, Canonical(s, data), false);
    }
  }

  /** Opening what sealing wrote returns the plaintext, for either format and every length up to 2^52. */
  lemma FileRoundTrip(suite: Suite, secret: Secret, e: Entropy, aad: bytes, data: bytes,
                      faults: nat -> CipherFault)
    requires Usable(secret) && FileKey(suite, secret, e.salt).Ok?
    requires HeaderSize(secret) + RECORD_HEADER_SIZE + |aad| <= INT_MAX
    requires |data| <= MAX_PLAINTEXT && NoFaults(faults)
    ensures var sealed := SealFileRun(suite, secret, Some(e), aad, data, false, faults);
            && sealed.outcome == Done && OpensFileTo(suite, secret, aad, sealed.written, data)
  {
    hide SealFrom, OpenFileRun, OpensFileTo, SealSession;
    SealSessionIs(suite, secret, e, aad);
    var s := SealSession(suite, secret, Some(e), aad).value;
    SealSucceedsExactly(s, data, false, faults);
    SealedFileOpens(suite, secret, Some(e), aad, data, false, faults);
  }

  lemma SealSessionIs(suite: Suite, secret: Secret, e: Entropy, aad: bytes)
    requires Usable(secret) && FileKey(suite, secret, e.salt).Ok?
    ensures SealSession(suite, secret, Some(e), aad)
         == Ok(Session(suite, FileKey(suite, secret, e.salt).value, HeaderOf(secret, e), e.noncePrefix, aad))
  {
  }

  /** A seal call ends well only on at most 2^52 bytes, and then has written this many. */
  lemma SealedFileSize(suite: Suite, secret: Secret, entropy: Option<Entropy>, aad: bytes, data: bytes, faulty: bool,
                       faults: nat -> CipherFault)
    requires SealFileRun(suite, secret, entropy, aad, data, faulty, faults).outcome == Done
    ensures |data| <= MAX_PLAINTEXT
    ensures |SealFileRun(suite, secret, entropy, aad, data, faulty, faults).written|
         == HeaderSize(secret) + |data| + 25 * (if data == [] then 1 else (|data| + CHUNK_SIZE - 1) / CHUNK_SIZE)
  {
    hide SealFrom, OpenFrom, SealSession;
    var s := SealSession(suite, secret, entropy, aad).value;
    RoundTrip(s, data, faulty, faults, _ => NoFault);
    FramingSizes(s, data);
  }

  /**
    The output of a seal call that threw, and output a full sink cut short, is rejected: by either
    reader, with any key or password, any associated data and any OpenSSL behaviour.
   */
  lemma PartialFileRejected(suite: Suite, secret: Secret, entropy: Option<Entropy>, aad: bytes, data: bytes,
                            faulty: bool,
                            faults: nat -> CipherFault, cut: bytes,
                            suite': Suite, secret': Secret, aad': bytes, faulty': bool, faults': nat -> CipherFault)
    requires var run := SealFileRun(suite, secret, entropy, aad, data, faulty, faults);
             cut <= run.written && (run.outcome.Thrown? || cut != run.written)
    ensures OpenFileRun(suite', secret', aad', cut, faulty', faults').outcome.Thrown?
  {
    hide SealFrom, OpenFrom, SealSession;
    var sealing, opening := SealSession(suite, secret, entropy, aad), OpenSession(suite', secret', aad', cut, faulty');
    if opening.Ok? && sealing.Ok? {
      var s, n := sealing.value, HeaderSize(secret);
      var run := SealFrom(s, data, faulty, 0, faults);
      SameFormat(secret, entropy.value, secret', cut, Output(s, run.frames));
      assert Output(s, run.frames)[n..] == Serialize(run.frames);
      hide OpenSession, Serialize;
      PayloadsCompare(cut, Output(s, run.frames), n);
      PartialOutputRejected(s, data, faulty, faults, cut[n..], opening.value, faulty', faults');
    }
  }

  /** A reader that accepts the header at the front of sealed bytes is the reader of that format. */
  lemma SameFormat(secret: Secret, e: Entropy, secret': Secret, cut: bytes, whole: bytes)
    requires HeaderOf(secret, e) <= whole && cut <= whole
    requires |cut| >= HeaderSize(secret') && ParseFor(secret', cut[..HeaderSize(secret')]).Ok?
    ensures HeaderSize(secret) == HeaderSize(secret')
    ensures cut[..HeaderSize(secret)] == HeaderOf(secret, e)
  {
    var h := cut[..HeaderSize(secret')];
    assert h[..4][2] == whole[2] && HeaderOf(secret, e)[2] == whole[2];
  }

  /** An accepted file is a header and an accepted payload; the third byte tells the format. */
  lemma AcceptedParts(suite: Suite, secret: Secret, aad: bytes, file: bytes, faults: nat -> CipherFault)
    returns (s: Session)
    requires OpenFileRun(suite, secret, aad, file, false, faults).outcome.Done?
    ensures |file| >= HeaderSize(secret) && file[2] == if secret.RawKey? then 0x46 else 0x50
    ensures OpenFrom(s, file[HeaderSize(secret)..], false, 0, faults).outcome.Done?
  {
    hide OpenFrom;
    s := OpenSession(suite, secret, aad, file, false).value;
    var h := file[..HeaderSize(secret)];
    assert h[..4][2] == file[2];
  }

  lemma PayloadsCompare(file: bytes, file': bytes, n: nat)
    requires file <= file' && n <= |file|
    ensures file[n..] <= file'[n..]
    ensures file[n..] == file'[n..] ==> file == file'
  {
    if file[n..] == file'[n..] {
      assert |file| == |file'|;
    }
  }

  /** No accepted file is a proper prefix of another one, whatever secrets and associated data they are opened with. */
  lemma FilesPrefixFree(suite: Suite, secret: Secret, aad: bytes, file: bytes, faults: nat -> CipherFault,
                        suite': Suite, secret': Secret, aad': bytes, file': bytes, faults': nat -> CipherFault)
    requires OpenFileRun(suite, secret, aad, file, false, faults).outcome.Done?
    requires OpenFileRun(suite', secret', aad', file', false, faults').outcome.Done?
    requires file <= file'
    ensures file == file'
  {
    hide OpenFrom, OpenFileRun;
    var s := AcceptedParts(suite, secret, aad, file, faults);
    var s' := AcceptedParts(suite', secret', aad', file', faults');
    var n := HeaderSize(secret);
    PayloadsCompare(file, file', n);
    AcceptedPrefixFree(s, file[n..], faults, s', file'[n..], faults');
  }

  /** Every record the accepted file consists of was produced by one of the jobs. */
  ghost predicate VerifiesOnlyProduced(s: Session, payload: bytes, jobs: seq<Job>)
  {
    forall fs :: Framed(fs, 0) && payload == Serialize(fs) ==> AllProduced(s, fs, jobs)
  }

  /**
    If every tuple of key, nonce, associated data, ciphertext and tag that opening verifies comes from
    sealing runs with pairwise different headers, the accepted file is byte for byte the complete output
    of one of them, and opening returns what that run sealed. This excludes reordering, duplication,
    truncation, extension and mixing of files.
   */
  lemma NoSplicedFile(jobs: seq<Job>, suite: Suite, secret: Secret, aad: bytes, file: bytes, faults: nat -> CipherFault)
    returns (j: nat)
    requires DistinctHeaders(jobs)
    requires OpenFileRun(suite, secret, aad, file, false, faults).outcome.Done?
    requires VerifiesOnlyProduced(OpenSession(suite, secret, aad, file, false).value, file[HeaderSize(secret)..], jobs)
    ensures j < |jobs| && RunOf(jobs[j]).outcome.Done?
    ensures file == SealOutput(jobs[j].session, RunOf(jobs[j]))
    ensures jobs[j].session.suite == suite ==>
              Flatten(OpenFileRun(suite, secret, aad, file, false, faults).chunks) == jobs[j].data
  {
    hide OpenFrom, SealFrom;
    var n := HeaderSize(secret);
    var s := OpenSession(suite, secret, aad, file, false).value;
    var payload := file[n..];
    var fs := OpenSound(s, payload, false, 0, faults);
    assert s.header == file[..n] && IsHeader(s.header);
    j := NoSplicing(jobs, s, fs);
    var job := jobs[j];
    assert file == file[..n] + payload;
    if job.session.suite == suite {
      assert s == job.session;
      SealSound(s, job.data, job.broken, 0, job.faults);
      SealedFramesAuthentic(s, Chunks(job.data), 0);
      ChunksExact(job.data);
    }
  }

  /** Conversely the complete output of each of the runs meets the conditions of `NoSplicedFile`. */
  lemma OwnFileIsProduced(jobs: seq<Job>, j: nat, suite: Suite, secret: Secret, entropy: Option<Entropy>, aad: bytes,
                          faults: nat -> CipherFault)
    requires j < |jobs| && SealSession(suite, secret, entropy, aad) == Ok(jobs[j].session)
    requires RunOf(jobs[j]).outcome.Done? && NoFaults(faults)
    ensures var file := SealOutput(jobs[j].session, RunOf(jobs[j]));
            && OpenFileRun(suite, secret, aad, file, false, faults).outcome.Done?
            && OpenSession(suite, secret, aad, file, false) == Ok(jobs[j].session)
            && VerifiesOnlyProduced(jobs[j].session, file[HeaderSize(secret)..], jobs)
  {
    hide OpenFrom, SealFrom, SealSession, OpenSession, Canonical, Framed, AllProduced;
    var Job(s, data, broken, faults') := jobs[j];
    var payload := Serialize(RunOf(jobs[j]).frames);
    SessionsAgree(suite, secret, entropy, aad, payload, false);
    RoundTrip(s, data, broken, faults', faults);
    WholeRunIsProduced(jobs, j, s);
    forall fs | Framed(fs, 0) && payload == Serialize(fs)
      ensures AllProduced(s, fs, jobs)
    {
      FramedPrefixFree(fs, [], RunOf(jobs[j]).frames, [], 0);
    }
  }
}
