/** The reading loop accepts exactly the complete, authentic record sequences. */
module Opening {
  import opened Bytes
  import opened Errors
  import opened FileCrypto
  import opened Container
  import opened Framing

  /** The specification: `payload` is the bytes of a complete sequence of authentic records. */
  ghost predicate AuthenticFile(s: Session, payload: bytes, fs: seq<Frame>)
  {
    Framed(fs, 0) && AllTagsValid(s, fs) && payload == Serialize(fs)
  }

  lemma FrameDecryptionExact(s: Session, f: Frame, fault: CipherFault)
    ensures FrameDecryption(s, f, fault).Ok? ==>
              TagValid(s, f) && AadFits(s) && FrameDecryption(s, f, fault).value == Plain(s, f)
    ensures fault.NoFault? && AadFits(s) ==>
      FrameDecryption(s, f, fault) == if TagValid(s, f) then Ok(Plain(s, f)) else Err(AuthenticationFailed)
    ensures fault.NoFault? && !AadFits(s) ==> FrameDecryption(s, f, fault) == Err(InvalidInput)
  {
  }

  /** A successful run has read a complete sequence of authentic records and written their plaintext. */
  lemma {:induction false} OpenSound(s: Session, input: bytes, broken: bool, expected: u32, faults: nat -> CipherFault)
    returns (fs: seq<Frame>)
    requires OpenFrom(s, input, broken, expected, faults).outcome.Done?
    ensures Framed(fs, expected) && AllTagsValid(s, fs) && input == Serialize(fs)
    ensures OpenFrom(s, input, broken, expected, faults).chunks == Plains(s, fs)
    ensures !broken && AadFits(s)
    decreases |input|
  {
    hide ReadRecord, FrameDecryption;
    var reading := ReadRecord(input, broken, expected);
    var f, rest := reading.frame, reading.rest;
    ReadRecordExact(input, broken, expected, f, rest);
    FrameDecryptionExact(s, f, faults(expected));
    if f.finalFlag == FINAL {
      fs := [f];
      assert fs[1..] == [];
    } else {
      var tail := OpenSound(s, rest, broken, expected + 1, faults);
      fs := [f] + tail;
      assert fs[1..] == tail;
    }
  }

  /** A complete sequence of authentic records is accepted. */
  lemma {:induction false} OpenComplete(s: Session, fs: seq<Frame>, expected: u32, faults: nat -> CipherFault)
    requires Framed(fs, expected) && AllTagsValid(s, fs)
    requires AadFits(s) && NoFaults(faults)
    ensures OpenFrom(s, Serialize(fs), false, expected, faults) == OpenRun(Plains(s, fs), Done)
  {
    hide ReadRecord, FrameDecryption;
    var f, rest := fs[0], Serialize(fs[1..]);
    assert f.finalFlag == FINAL ==> fs[1..] == [];
    ReadRecordExact(Serialize(fs), false, expected, f, rest);
    FrameDecryptionExact(s, f, faults(expected));
    if f.finalFlag == FINAL {
      assert Plains(s, fs) == [Plain(s, f)];
    } else {
      OpenComplete(s, fs[1..], expected + 1, faults);
      assert Plains(s, fs) == [Plain(s, f)] + Plains(s, fs[1..]);
    }
  }

  /** Opening succeeds if and only if the payload is an authentic file, and then yields its plaintext. */
  lemma OpenRefinesSpecification(s: Session, payload: bytes, broken: bool, faults: nat -> CipherFault)
    requires NoFaults(faults)
    ensures OpenFrom(s, payload, broken, 0, faults).outcome.Done?
       <==> !broken && AadFits(s) && exists fs :: AuthenticFile(s, payload, fs)
    ensures forall fs :: AuthenticFile(s, payload, fs) && AadFits(s) && !broken ==>
              OpenFrom(s, payload, broken, 0, faults) == OpenRun(Plains(s, fs), Done)
  {
    if OpenFrom(s, payload, broken, 0, faults).outcome.Done? {
      var fs := OpenSound(s, payload, broken, 0, faults);
      assert AuthenticFile(s, payload, fs);
    }
    forall fs | AuthenticFile(s, payload, fs) && AadFits(s) && !broken
      ensures OpenFrom(s, payload, broken, 0, faults) == OpenRun(Plains(s, fs), Done)
    {
      OpenComplete(s, fs, 0, faults);
    }
  }

  /**
    Nothing can follow an accepted payload: accepted payloads are prefix-free, whatever the keys and
    associated data.
   */
  lemma AcceptedPrefixFree(s: Session, payload: bytes, faults: nat -> CipherFault,
                           s': Session, payload': bytes, faults': nat -> CipherFault)
    requires OpenFrom(s, payload, false, 0, faults).outcome.Done?
    requires OpenFrom(s', payload', false, 0, faults').outcome.Done?
    requires payload <= payload'
    ensures payload == payload'
  {
    hide OpenFrom;
    var fs := OpenSound(s, payload, false, 0, faults);
    var gs := OpenSound(s', payload', false, 0, faults');
    FramedPrefixFree(fs, payload'[|payload|..], gs, [], 0);
  }

  // ---------- Runs that fail ----------

  /**
    Where a failing run stopped: behind authentic non-final records, at `rest`, where record number `at`
    should start.
   */
  ghost predicate StoppedAt(s: Session, input: bytes, fs: seq<Frame>, rest: bytes, expected: nat)
  {
    && Numbered(fs, expected) && AllNonFinal(fs) && AllTagsValid(s, fs)
    && input == Serialize(fs) + rest
  }

  /** Why a run stops with `e` at `rest`. */
  ghost predicate Offends(s: Session, rest: bytes, broken: bool, at: nat, faults: nat -> CipherFault, e: ErrorCode)
  {
    if at == U32_LIMIT then e == InvalidPacket
    else at < U32_LIMIT && match ReadRecord(rest, broken, at)
         case Rejected(code) => e == code
         case Accepted(f, _) => FrameDecryption(s, f, faults(at)) == Err(e)
  }

  lemma StoppedAtNil(s: Session, rest: bytes, expected: nat)
    requires expected <= U32_LIMIT
    ensures StoppedAt(s, rest, [], rest, expected) && Plains(s, []) == []
  {
    assert Serialize([]) + rest == rest;
  }

  lemma StoppedAtCons(s: Session, f: Frame, input: bytes, fs: seq<Frame>, rest: bytes, expected: u32)
    requires StoppedAt(s, input, fs, rest, expected + 1)
    requires f.index == expected && f.finalFlag == NOT_FINAL && TagValid(s, f)
    ensures StoppedAt(s, FrameBytes(f) + input, [f] + fs, rest, expected)
    ensures Plains(s, [f] + fs) == [Plain(s, f)] + Plains(s, fs)
  {
    assert ([f] + fs)[1..] == fs;
    assert FrameBytes(f) + input == Serialize([f] + fs) + rest;
  }

  /**
    A failing run has written the plaintext of authentic non-final records and nothing else, in
    particular never a final chunk; its code is that of the first record it could not take.
   */
  lemma {:induction false} OpenFailure(s: Session, input: bytes, broken: bool, expected: u32,
                                       faults: nat -> CipherFault)
    returns (fs: seq<Frame>, rest: bytes)
    requires OpenFrom(s, input, broken, expected, faults).outcome.Thrown?
    ensures StoppedAt(s, input, fs, rest, expected)
    ensures OpenFrom(s, input, broken, expected, faults).chunks == Plains(s, fs)
    ensures Offends(s, rest, broken, expected + |fs|, faults,
                    OpenFrom(s, input, broken, expected, faults).outcome.error)
    decreases |input|
  {
    hide ReadRecord, FrameDecryption, StoppedAt;
    var reading := ReadRecord(input, broken, expected);
    if reading.Rejected? || FrameDecryption(s, reading.frame, faults(expected)).Err? {
      fs, rest := [], input;
      StoppedAtNil(s, input, expected);
    } else {
      var f := reading.frame;
      ReadRecordExact(input, broken, expected, f, reading.rest);
      FrameDecryptionExact(s, f, faults(expected));
      if expected == MAX_INDEX {
        StoppedAtNil(s, reading.rest, expected + 1);
        StoppedAtCons(s, f, reading.rest, [], reading.rest, expected);
        fs, rest := [f] + [], reading.rest;
      } else {
        var tail, end := OpenFailure(s, reading.rest, broken, expected + 1, faults);
        StoppedAtCons(s, f, reading.rest, tail, end, expected);
        fs, rest := [f] + tail, end;
      }
    }
  }

  /** The codes a run can throw. */
  lemma OpenErrors(s: Session, input: bytes, broken: bool, faults: nat -> CipherFault)
    ensures OpenFrom(s, input, broken, 0, faults).outcome != Thrown(InvalidEncoding)
  {
    hide OpenFrom, ReadRecord;
    if OpenFrom(s, input, broken, 0, faults).outcome.Thrown? {
      var fs, rest := OpenFailure(s, input, broken, 0, faults);
      if |fs| < U32_LIMIT && ReadRecord(rest, broken, |fs|).Rejected? {
        RejectionCode(rest, broken, |fs|);
      }
    }
  }

  /** Conversely the first record that offends fixes the code and what has been written. */
  lemma {:induction false} OpenStops(s: Session, fs: seq<Frame>, rest: bytes, broken: bool, expected: u32,
                                     faults: nat -> CipherFault, e: ErrorCode)
    requires StoppedAt(s, Serialize(fs) + rest, fs, rest, expected)
    requires AadFits(s) && NoFaults(faults)
    requires Offends(s, rest, broken, expected + |fs|, faults, e)
    ensures OpenFrom(s, Serialize(fs) + rest, broken, expected, faults) == OpenRun(Plains(s, fs), Thrown(e))
    decreases |fs|
  {
    hide ReadRecord, FrameDecryption, StoppedAt;
    if fs == [] {
      assert Serialize(fs) + rest == rest;
    } else {
      var f, tail := fs[0], fs[1..];
      assert [f] + tail == fs;
      StoppedAtUncons(s, f, tail, rest, expected);
      var after := Serialize(tail) + rest;
      ReadRecordExact(FrameBytes(f) + after, broken, expected, f, after);
      FrameDecryptionExact(s, f, faults(expected));
      if expected < MAX_INDEX {
        OpenStops(s, tail, rest, broken, expected + 1, faults, e);
      }
    }
  }

  lemma StoppedAtUncons(s: Session, f: Frame, fs: seq<Frame>, rest: bytes, expected: u32)
    requires StoppedAt(s, Serialize([f] + fs) + rest, [f] + fs, rest, expected)
    ensures StoppedAt(s, Serialize(fs) + rest, fs, rest, expected + 1)
    ensures f.index == expected && f.finalFlag == NOT_FINAL && TagValid(s, f)
    ensures expected == MAX_INDEX ==> fs == []
    ensures Serialize([f] + fs) + rest == FrameBytes(f) + (Serialize(fs) + rest)
    ensures Plains(s, [f] + fs) == [Plain(s, f)] + Plains(s, fs)
  {
    var all := [f] + fs;
    assert all[1..] == fs && all[0] == f;
    assert forall i :: 0 <= i < |fs| ==> fs[i] == all[i + 1];
  }

  /**
    A wrong tag is reported only for a record that is structurally perfect: expected index, complete,
    full unless final, and with nothing after it when final.
   */
  lemma TagFailureExact(s: Session, input: bytes, broken: bool, faults: nat -> CipherFault)
    requires AadFits(s) && NoFaults(faults)
    ensures OpenFrom(s, input, broken, 0, faults).outcome == Thrown(AuthenticationFailed)
       <==> exists fs, f, after :: BadTagAfter(s, input, broken, fs, f, after)
  {
    hide OpenFrom, ReadRecord, FrameDecryption;
    if OpenFrom(s, input, broken, 0, faults).outcome == Thrown(AuthenticationFailed) {
      var fs, rest := OpenFailure(s, input, broken, 0, faults);
      var reading := ReadRecord(rest, broken, |fs|);
      if reading.Rejected? {
        RejectionCode(rest, broken, |fs|);
      }
      ReadRecordExact(rest, broken, |fs|, reading.frame, reading.rest);
      FrameDecryptionExact(s, reading.frame, faults(|fs|));
      assert BadTagAfter(s, input, broken, fs, reading.frame, reading.rest);
    }
    forall fs, f, after | BadTagAfter(s, input, broken, fs, f, after)
      ensures OpenFrom(s, input, broken, 0, faults).outcome == Thrown(AuthenticationFailed)
    {
      var rest := FrameBytes(f) + after;
      ReadRecordExact(rest, broken, |fs|, f, after);
      FrameDecryptionExact(s, f, faults(|fs|));
      OpenStops(s, fs, rest, broken, 0, faults, AuthenticationFailed);
    }
  }

  ghost predicate BadTagAfter(s: Session, input: bytes, broken: bool, fs: seq<Frame>, f: Frame, after: bytes)
  {
    && |fs| < U32_LIMIT
    && StoppedAt(s, input, fs, FrameBytes(f) + after, 0)
    && f.index == |fs|
    && (f.finalFlag == FINAL ==> after == [] && !broken)
    && !TagValid(s, f)
  }
}
