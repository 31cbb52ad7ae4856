/** What the writing loop emits, and that reading it back is exact. */
module Sealing {
  import opened Bytes
  import opened Errors
  import opened Gcm
  import opened FileCrypto
  import opened Container

  // ---------- Chunks ----------

  lemma {:induction false} ChunksExact(data: bytes)
    ensures Layout(Chunks(data)) && Flatten(Chunks(data)) == data
    ensures |Chunks(data)| == if data == [] then 1 else (|data| + CHUNK_SIZE - 1) / CHUNK_SIZE
    decreases |data|
  {
    if |data| <= CHUNK_SIZE {
      assert Chunks(data)[1..] == [];
    } else {
      ChunksExact(data[CHUNK_SIZE..]);
      LayoutCons(data[..CHUNK_SIZE], Chunks(data[CHUNK_SIZE..]));
    }
  }

  lemma LayoutCons(first: bytes, chunks: seq<bytes>)
    requires Layout(chunks) && |first| == CHUNK_SIZE
    ensures Layout([first] + chunks) && Flatten([first] + chunks) == first + Flatten(chunks)
  {
    var all := [first] + chunks;
    assert all[1..] == chunks;
    assert forall i :: 0 < i < |all| ==> all[i] == chunks[i - 1];
  }

  lemma LayoutTail(chunks: seq<bytes>)
    requires Layout(chunks) && |chunks| > 1
    ensures Layout(chunks[1..])
  {
  }

  lemma {:induction false} LayoutSize(chunks: seq<bytes>)
    requires Layout(chunks)
    ensures |Flatten(chunks)| == (|chunks| - 1) * CHUNK_SIZE + |chunks[|chunks| - 1]|
  {
    if |chunks| == 1 {
      assert chunks[1..] == [];
    } else {
      LayoutTail(chunks);
      LayoutSize(chunks[1..]);
    }
  }

  /** Two layouts of the same length divide the same plaintext in the same way. */
  lemma {:induction false} LayoutUnique(a: seq<bytes>, b: seq<bytes>)
    requires Layout(a) && Layout(b) && |a| == |b| && Flatten(a) == Flatten(b)
    ensures a == b
  {
    if |a| == 1 {
      assert a == [a[0]] && b == [b[0]];
      assert Flatten(a) == a[0] && Flatten(b) == b[0];
    } else {
      LayoutTail(a);
      LayoutTail(b);
      assert a[0] == Flatten(a)[..CHUNK_SIZE] && b[0] == Flatten(b)[..CHUNK_SIZE];
      assert Flatten(a[1..]) == Flatten(a)[CHUNK_SIZE..] && Flatten(b[1..]) == Flatten(b)[CHUNK_SIZE..];
      LayoutUnique(a[1..], b[1..]);
      assert a == [a[0]] + a[1..] && b == [b[0]] + b[1..];
    }
  }

  // ---------- Sealed records ----------

  lemma SealFrameExact(s: Session, index: u32, finalFlag: byte, plaintext: bytes)
    requires finalFlag in {NOT_FINAL, FINAL} && |plaintext| <= CHUNK_SIZE
    requires finalFlag == NOT_FINAL ==> |plaintext| == CHUNK_SIZE
    ensures var f := SealFrame(s, index, finalFlag, plaintext);
            && f.index == index && f.finalFlag == finalFlag && |f.ciphertext| == |plaintext|
            && TagValid(s, f) && Plain(s, f) == plaintext
  {
    XorStreamCancels(s.suite, s.key, FrameNonce(s, index), 0, plaintext);
  }

  /** An authentic record is the one sealing makes for its plaintext. */
  lemma AuthenticFrameIsSealed(s: Session, f: Frame)
    requires TagValid(s, f)
    ensures f == SealFrame(s, f.index, f.finalFlag, Plain(s, f))
    ensures |Plain(s, f)| == |f.ciphertext|
  {
    XorStreamCancels(s.suite, s.key, FrameNonce(s, f.index), 0, f.ciphertext);
  }

  /** The records of a layout are a complete authentic sequence that carries it. */
  lemma SealedFramesAuthentic(s: Session, chunks: seq<bytes>, start: nat)
    requires Layout(chunks) && start + |chunks| <= U32_LIMIT
    ensures Framed(SealedFrames(s, chunks, start), start)
    ensures AllTagsValid(s, SealedFrames(s, chunks, start))
    ensures Plains(s, SealedFrames(s, chunks, start)) == chunks
  {
    hide SealFrame, TagValid, Plain;
    var fs := SealedFrames(s, chunks, start);
    forall i | 0 <= i < |fs|
      ensures fs[i].index == start + i && (fs[i].finalFlag == FINAL <==> i == |fs| - 1)
      ensures TagValid(s, fs[i]) && Plain(s, fs[i]) == chunks[i]
    {
      SealFrameExact(s, start + i, if i == |chunks| - 1 then FINAL else NOT_FINAL, chunks[i]);
    }
  }

  /** Conversely every complete authentic sequence is made of the records of a layout. */
  lemma AuthenticFramesAreSealed(s: Session, fs: seq<Frame>, start: nat)
    requires Framed(fs, start) && AllTagsValid(s, fs)
    ensures Layout(Plains(s, fs))
    ensures fs == SealedFrames(s, Plains(s, fs), start)
  {
    hide SealFrame, TagValid, Plain;
    forall i | 0 <= i < |fs|
      ensures |Plains(s, fs)[i]| == |fs[i].ciphertext|
    {
      AuthenticFrameIsSealed(s, fs[i]);
    }
    forall i | 0 <= i < |fs|
      ensures fs[i] == SealFrame(s, start + i, if i == |fs| - 1 then FINAL else NOT_FINAL, Plains(s, fs)[i])
    {
      AuthenticFrameIsSealed(s, fs[i]);
    }
  }

  // ---------- The writing loop ----------

  lemma PlaintextEncryptionExact(s: Session, index: u32, finalFlag: byte, plaintext: bytes, fault: CipherFault)
    requires finalFlag in {NOT_FINAL, FINAL} && |plaintext| <= CHUNK_SIZE
    requires finalFlag == NOT_FINAL ==> |plaintext| == CHUNK_SIZE
    ensures var r := PlaintextEncryption(s, index, finalFlag, plaintext, fault);
            && (r.Ok? ==>
                  && AadFits(s)
                  && Frame(index, finalFlag, r.value.ciphertext, r.value.tag)
                     == SealFrame(s, index, finalFlag, plaintext))
            && (fault.NoFault? ==> r.Ok? == AadFits(s) && (r.Err? ==> r.error == InvalidInput))
  {
  }

  lemma SealedFramesCons(s: Session, first: bytes, chunks: seq<bytes>, start: nat)
    requires Layout(chunks) && |first| == CHUNK_SIZE && start + 1 + |chunks| <= U32_LIMIT
    ensures Layout([first] + chunks)
    ensures SealedFrames(s, [first] + chunks, start)
         == [SealFrame(s, start, NOT_FINAL, first)] + SealedFrames(s, chunks, start + 1)
  {
    LayoutCons(first, chunks);
    var all := [first] + chunks;
    assert forall i :: 0 < i < |all| ==> all[i] == chunks[i - 1];
  }

  /** A run that ends well has written the records of exactly the chunks of its input. */
  lemma {:induction false} SealSound(s: Session, data: bytes, broken: bool, index: u32, faults: nat -> CipherFault)
    requires SealFrom(s, data, broken, index, faults).outcome.Done?
    ensures !broken && AadFits(s) && Layout(Chunks(data)) && index + |Chunks(data)| <= U32_LIMIT
    ensures SealFrom(s, data, broken, index, faults).frames == SealedFrames(s, Chunks(data), index)
    decreases |data|
  {
    hide PlaintextEncryption;
    ChunksExact(data);
    if |data| <= CHUNK_SIZE {
      PlaintextEncryptionExact(s, index, FINAL, data, faults(index));
    } else {
      var first, rest := data[..CHUNK_SIZE], data[CHUNK_SIZE..];
      PlaintextEncryptionExact(s, index, NOT_FINAL, first, faults(index));
      SealSound(s, rest, broken, index + 1, faults);
      SealedFramesCons(s, first, Chunks(rest), index);
    }
  }

  /** Nothing but a read fault, an OpenSSL failure, oversized associated data or too many chunks makes a run fail. */
  lemma {:induction false} SealComplete(s: Session, data: bytes, index: u32, faults: nat -> CipherFault)
    requires AadFits(s) && NoFaults(faults) && index + |Chunks(data)| <= U32_LIMIT
    ensures SealFrom(s, data, false, index, faults).outcome.Done?
    decreases |data|
  {
    hide PlaintextEncryption;
    if |data| <= CHUNK_SIZE {
      PlaintextEncryptionExact(s, index, FINAL, data, faults(index));
    } else {
      PlaintextEncryptionExact(s, index, NOT_FINAL, data[..CHUNK_SIZE], faults(index));
      SealComplete(s, data[CHUNK_SIZE..], index + 1, faults);
    }
  }

  /** The codes a run can throw. */
  lemma {:induction false} SealErrors(s: Session, data: bytes, broken: bool, index: u32, faults: nat -> CipherFault)
    ensures SealFrom(s, data, broken, index, faults).outcome in {Done, Thrown(InvalidInput), Thrown(BackendFailure)}
    decreases |data|
  {
    if |data| > CHUNK_SIZE && index < MAX_INDEX {
      SealErrors(s, data[CHUNK_SIZE..], broken, index + 1, faults);
    }
  }

  /** A run that throws has written non-final records only, numbered without gaps. */
  lemma {:induction false} SealFailure(s: Session, data: bytes, broken: bool, index: u32, faults: nat -> CipherFault)
    requires SealFrom(s, data, broken, index, faults).outcome.Thrown?
    ensures Numbered(SealFrom(s, data, broken, index, faults).frames, index)
    ensures AllNonFinal(SealFrom(s, data, broken, index, faults).frames)
    decreases |data|
  {
    hide PlaintextEncryption;
    if |data| > CHUNK_SIZE && index < MAX_INDEX {
      var tail := SealFrom(s, data[CHUNK_SIZE..], broken, index + 1, faults);
      if tail.outcome.Thrown? {
        SealFailure(s, data[CHUNK_SIZE..], broken, index + 1, faults);
      }
    }
  }

  /** Every run numbers its records without gaps and without wrapping, so no nonce is used twice. */
  lemma SealNumbered(s: Session, data: bytes, broken: bool, faults: nat -> CipherFault)
    ensures var fs := SealFrom(s, data, broken, 0, faults).frames;
            && Numbered(fs, 0)
            && (forall i, j :: 0 <= i < j < |fs| ==> FrameNonce(s, fs[i].index) != FrameNonce(s, fs[j].index))
  {
    hide SealFrom;
    var run := SealFrom(s, data, broken, 0, faults);
    if run.outcome.Done? {
      SealSound(s, data, broken, 0, faults);
      SealedFramesAuthentic(s, Chunks(data), 0);
    } else {
      SealFailure(s, data, broken, 0, faults);
    }
    forall i, j | 0 <= i < j < |run.frames|
      ensures FrameNonce(s, run.frames[i].index) != FrameNonce(s, run.frames[j].index)
    {
      if FrameNonce(s, i) == FrameNonce(s, j) {
        NonceInjective(s.noncePrefix, i, j);
      }
    }
  }

  /** Beyond 2^52 bytes the run stops with `invalid_input` behind the record with the last 32-bit index. */
  lemma {:induction false} SealExhausts(s: Session, data: bytes, index: u32, faults: nat -> CipherFault)
    requires AadFits(s) && NoFaults(faults)
    requires |data| > (U32_LIMIT - index) * CHUNK_SIZE
    ensures var run := SealFrom(s, data, false, index, faults);
            run.outcome == Thrown(InvalidInput) && |run.frames| == U32_LIMIT - index
    decreases |data|
  {
    hide PlaintextEncryption;
    PlaintextEncryptionExact(s, index, NOT_FINAL, data[..CHUNK_SIZE], faults(index));
    if index < MAX_INDEX {
      SealExhausts(s, data[CHUNK_SIZE..], index + 1, faults);
    }
  }

  /** A whole run succeeds exactly on at most 2^52 bytes. */
  lemma SealSucceedsExactly(s: Session, data: bytes, broken: bool, faults: nat -> CipherFault)
    requires NoFaults(faults)
    ensures SealFrom(s, data, broken, 0, faults).outcome.Done? <==> !broken && AadFits(s) && |data| <= MAX_PLAINTEXT
  {
    hide SealFrom;
    ChunksExact(data);
    if SealFrom(s, data, broken, 0, faults).outcome.Done? {
      SealSound(s, data, broken, 0, faults);
    }
    if !broken && AadFits(s) && |data| <= MAX_PLAINTEXT {
      SealComplete(s, data, 0, faults);
    }
  }

  /**
    How a run ends when OpenSSL works: a fault of the input is `backend_failure`, oversized associated data
    and more than 2^52 bytes are `invalid_input`, whichever is met first.
   */
  lemma {:induction false} SealEnds(s: Session, data: bytes, broken: bool, index: u32, faults: nat -> CipherFault)
    requires NoFaults(faults)
    ensures SealFrom(s, data, broken, index, faults).outcome
         == if !AadFits(s) then Thrown(if |data| <= CHUNK_SIZE && broken then BackendFailure else InvalidInput)
            else if |data| > (U32_LIMIT - index) * CHUNK_SIZE then Thrown(InvalidInput)
            else if broken then Thrown(BackendFailure)
            else Done
    decreases |data|
  {
    hide PlaintextEncryption;
    if |data| <= CHUNK_SIZE {
      PlaintextEncryptionExact(s, index, FINAL, data, faults(index));
    } else {
      PlaintextEncryptionExact(s, index, NOT_FINAL, data[..CHUNK_SIZE], faults(index));
      if index < MAX_INDEX {
        SealEnds(s, data[CHUNK_SIZE..], broken, index + 1, faults);
      }
    }
  }
}
