/** Record sequences and their bytes: parsing is exact, and complete sequences are prefix-free. */
module Framing {
  import opened Bytes
  import opened Errors
  import opened Gcm
  import opened FileCrypto
  import opened Container

  lemma ReadRecordTakes(f: Frame, rest: bytes, broken: bool)
    requires f.finalFlag == FINAL ==> rest == [] && !broken
    ensures ReadRecord(FrameBytes(f) + rest, broken, f.index) == Accepted(f, rest)
  {
    var input, size := FrameBytes(f) + rest, |f.ciphertext|;
    var body := input[RECORD_HEADER_SIZE..];
    assert input[..RECORD_HEADER_SIZE] == FrameHeader(f);
    assert body == f.ciphertext + f.tag + rest;
    ParseRecordHeaderExact(FrameHeader(f), f.index, size, f.finalFlag);
    assert body[..size] == f.ciphertext && body[size..size + TAG_SIZE] == f.tag && body[size + TAG_SIZE..] == rest;
  }

  lemma ReadRecordTook(input: bytes, broken: bool, expected: u32, f: Frame, rest: bytes)
    requires ReadRecord(input, broken, expected) == Accepted(f, rest)
    ensures f.index == expected && input == FrameBytes(f) + rest
    ensures f.finalFlag == FINAL ==> rest == [] && !broken
  {
    var size := |f.ciphertext|;
    var head, body := input[..RECORD_HEADER_SIZE], input[RECORD_HEADER_SIZE..];
    ParseRecordHeaderExact(head, f.index, size, f.finalFlag);
    assert input == head + body;
    assert body == body[..size] + body[size..size + TAG_SIZE] + body[size + TAG_SIZE..];
  }

  /**
    One turn of the reading loop accepts exactly the bytes of a record with the expected index, with
    anything behind it when it is not final, and the proper end of the input when it is.
   */
  lemma ReadRecordExact(input: bytes, broken: bool, expected: u32, f: Frame, rest: bytes)
    ensures ReadRecord(input, broken, expected) == Accepted(f, rest)
       <==> && f.index == expected
            && input == FrameBytes(f) + rest
            && (f.finalFlag == FINAL ==> rest == [] && !broken)
  {
    hide ReadRecord;
    if ReadRecord(input, broken, expected) == Accepted(f, rest) {
      ReadRecordTook(input, broken, expected, f, rest);
    }
    if f.index == expected && input == FrameBytes(f) + rest && (f.finalFlag == FINAL ==> rest == [] && !broken) {
      ReadRecordTakes(f, rest, broken);
    }
  }

  /** Without a read fault every structural rejection is `invalid_packet`. */
  lemma RejectionCode(input: bytes, broken: bool, expected: u32)
    requires ReadRecord(input, broken, expected).Rejected?
    ensures ReadRecord(input, broken, expected).error in {InvalidPacket, BackendFailure}
    ensures !broken ==> ReadRecord(input, broken, expected).error == InvalidPacket
  {
  }

  /** The input stops short of the end of the record `f`, or of telling what follows a final one. */
  predicate EndsWithin(input: bytes, f: Frame)
  {
    || |input| < |FrameBytes(f)|
    || (f.finalFlag == 1 && |input| == |FrameBytes(f)|)
  }

  /**
    Which code a rejection has: `backend_failure` if and only if the stream faults before the nine bytes of
    the record header are there, or where a record with an acceptable header would go on or has to end.
   */
  lemma RejectionExact(input: bytes, broken: bool, expected: u32)
    ensures var r := ReadRecord(input, broken, expected);
            && (r.Rejected? ==> r.error in {BackendFailure, InvalidPacket})
            && (r == Rejected(BackendFailure) <==>
                  && broken
                  && (|| |input| < 9
                      || exists f: Frame ::
                           f.index == expected && FrameHeader(f) == input[..9] && EndsWithin(input, f)))
  {
    hide FrameBytes, RecordBytes;
    var r := ReadRecord(input, broken, expected);
    if |input| >= 9 {
      var head := input[..9];
      forall f: Frame | f.index == expected && FrameHeader(f) == head && EndsWithin(input, f) && broken
        ensures r == Rejected(BackendFailure)
      {
        ParseRecordHeaderExact(head, f.index, |f.ciphertext|, f.finalFlag);
        FrameSize(f);
      }
      if r == Rejected(BackendFailure) {
        var record := ParseRecordHeader(head).value;
        var f: Frame := Frame(record.index, record.finalFlag, seq(record.plaintextSize, _ => 0), seq(16, _ => 0));
        ParseRecordHeaderExact(head, f.index, |f.ciphertext|, f.finalFlag);
        FrameSize(f);
        assert FrameHeader(f) == head && EndsWithin(input, f);
      }
    }
  }

  lemma FrameSize(f: Frame)
    ensures |FrameBytes(f)| == 25 + |f.ciphertext|
  {
  }

  lemma FrameParts(f: Frame, x: bytes)
    ensures var s, n := FrameBytes(f) + x, RECORD_HEADER_SIZE + |f.ciphertext|;
            && s[..RECORD_HEADER_SIZE] == FrameHeader(f)
            && s[RECORD_HEADER_SIZE..n] == f.ciphertext
            && s[n..n + TAG_SIZE] == f.tag
            && s[n + TAG_SIZE..] == x
  {
  }

  /** A record tells where it ends. */
  lemma FrameBytesPrefixFree(f: Frame, x: bytes, g: Frame, y: bytes)
    requires FrameBytes(f) + x == FrameBytes(g) + y
    ensures f == g && x == y
  {
    FrameParts(f, x);
    FrameParts(g, y);
    RecordBytesInjective(f.index, |f.ciphertext|, f.finalFlag, g.index, |g.ciphertext|, g.finalFlag);
  }

  lemma {:induction false} SerializeAppend(fs: seq<Frame>, f: Frame)
    ensures Serialize(fs + [f]) == Serialize(fs) + FrameBytes(f)
  {
    if fs == [] {
      assert [f][1..] == [];
    } else {
      assert (fs + [f])[1..] == fs[1..] + [f];
      SerializeAppend(fs[1..], f);
    }
  }

  lemma {:induction false} SerializeConcat(fs: seq<Frame>, gs: seq<Frame>)
    ensures Serialize(fs + gs) == Serialize(fs) + Serialize(gs)
  {
    if fs == [] {
      assert fs + gs == gs;
    } else {
      assert (fs + gs)[1..] == fs[1..] + gs;
      SerializeConcat(fs[1..], gs);
    }
  }

  /** Two record sequences whose bytes agree as far as they go are one a prefix of the other. */
  lemma {:induction false} SerializeCompare(fs: seq<Frame>, x: bytes, gs: seq<Frame>, y: bytes)
    requires Serialize(fs) + x == Serialize(gs) + y
    ensures fs <= gs || gs <= fs
    ensures fs == gs ==> x == y
  {
    if fs == gs {
      assert x == (Serialize(fs) + x)[|Serialize(fs)|..] && y == (Serialize(gs) + y)[|Serialize(gs)|..];
    } else if fs == [] || gs == [] {
    } else {
      assert Serialize(fs) + x == FrameBytes(fs[0]) + (Serialize(fs[1..]) + x);
      assert Serialize(gs) + y == FrameBytes(gs[0]) + (Serialize(gs[1..]) + y);
      FrameBytesPrefixFree(fs[0], Serialize(fs[1..]) + x, gs[0], Serialize(gs[1..]) + y);
      SerializeCompare(fs[1..], x, gs[1..], y);
      assert fs == [fs[0]] + fs[1..] && gs == [gs[0]] + gs[1..];
    }
  }

  /** No complete record sequence is continued by anything into another one. */
  lemma FramedPrefixFree(fs: seq<Frame>, x: bytes, gs: seq<Frame>, y: bytes, start: nat)
    requires Framed(fs, start) && Framed(gs, start)
    requires Serialize(fs) + x == Serialize(gs) + y
    ensures fs == gs && x == y
  {
    SerializeCompare(fs, x, gs, y);
    var last := if |fs| <= |gs| then |fs| - 1 else |gs| - 1;
    assert fs[last] == gs[last];
  }

  /** A run of non-final records, cut anywhere, contains no complete sequence. */
  lemma NonFinalHasNoFramedPrefix(fs: seq<Frame>, x: bytes, gs: seq<Frame>, y: bytes, start: nat)
    requires Framed(fs, start) && AllNonFinal(gs)
    requires Serialize(fs) + x == Serialize(gs) + y
    ensures gs < fs && |Serialize(gs)| < |Serialize(fs)|
  {
    SerializeCompare(fs, x, gs, y);
    assert fs[|fs| - 1].finalFlag == FINAL;
    if |fs| <= |gs| {
      assert false;
    }
    assert fs == gs + fs[|gs|..];
    SerializeConcat(gs, fs[|gs|..]);
  }
}
