/** Whole-file theorems about the record stream: round trip, exact framing, rejection of partial output, no splicing. */
module Integrity {
  import opened Bytes
  import opened Errors
  import opened Gcm
  import opened FileCrypto
  import opened Container
  import opened Framing
  import opened Opening
  import opened Sealing

  // ---------- Round trip and framing ----------

  /** The payload sealing writes for `data`. */
  ghost function Canonical(s: Session, data: bytes): bytes
    requires |data| <= MAX_PLAINTEXT
  {
    ChunksExact(data);
    Serialize(SealedFrames(s, Chunks(data), 0))
  }

  /** The chunks of a positive multiple of the chunk size, with an empty chunk behind them. */
  ghost function PaddedChunks(data: bytes): seq<bytes>
  {
    Chunks(data) + [[]]
  }

  ghost predicate HasPaddedForm(data: bytes)
  {
    data != [] && |data| % CHUNK_SIZE == 0 && |data| < MAX_PLAINTEXT
  }

  lemma PaddedLayout(data: bytes)
    requires HasPaddedForm(data)
    ensures Layout(PaddedChunks(data)) && Flatten(PaddedChunks(data)) == data
    ensures |PaddedChunks(data)| == |data| / CHUNK_SIZE + 1 <= U32_LIMIT
  {
    var chunks := Chunks(data);
    ChunksExact(data);
    LayoutSize(chunks);
    assert |chunks[|chunks| - 1]| == CHUNK_SIZE;
    FlattenAppend(chunks, []);
  }

  /** The other payload the reader accepts for `data`: the last full record is not final and an empty one follows. */
  ghost function Padded(s: Session, data: bytes): bytes
    requires HasPaddedForm(data)
  {
    PaddedLayout(data);
    Serialize(SealedFrames(s, PaddedChunks(data), 0))
  }

  ghost predicate OpensTo(s: Session, payload: bytes, data: bytes, faults: nat -> CipherFault)
  {
    var run := OpenFrom(s, payload, false, 0, faults);
    run.outcome.Done? && Flatten(run.chunks) == data
  }

  lemma LayoutOpens(s: Session, chunks: seq<bytes>, faults: nat -> CipherFault)
    requires Layout(chunks) && |chunks| <= U32_LIMIT && AadFits(s) && NoFaults(faults)
    ensures OpenFrom(s, Serialize(SealedFrames(s, chunks, 0)), false, 0, faults) == OpenRun(chunks, Done)
  {
    SealedFramesAuthentic(s, chunks, 0);
    OpenComplete(s, SealedFrames(s, chunks, 0), 0, faults);
  }

  /** Whatever a sealing run that ends well writes, opening yields the input of that run. */
  lemma RoundTrip(s: Session, data: bytes, broken: bool, faults: nat -> CipherFault, faults': nat -> CipherFault)
    requires SealFrom(s, data, broken, 0, faults).outcome.Done? && NoFaults(faults')
    ensures |data| <= MAX_PLAINTEXT
    ensures Serialize(SealFrom(s, data, broken, 0, faults).frames) == Canonical(s, data)
    ensures OpensTo(s, Canonical(s, data), data, faults')
  {
    hide SealFrom, OpenFrom;
    SealSound(s, data, broken, 0, faults);
    ChunksExact(data);
    LayoutOpens(s, Chunks(data), faults');
  }

  /** The length of a layout whose last chunk is not superfluous, and of one whose last chunk is. */
  lemma LayoutLength(chunks: seq<bytes>, data: bytes)
    requires Layout(chunks) && |chunks| <= U32_LIMIT && Flatten(chunks) == data
    ensures chunks != [] && |data| <= MAX_PLAINTEXT
    ensures |chunks| > 1 && chunks[|chunks| - 1] == [] ==> HasPaddedForm(data) && |chunks| == |data| / CHUNK_SIZE + 1
    ensures |chunks| == 1 || chunks[|chunks| - 1] != [] ==>
              |chunks| == if data == [] then 1 else (|data| + CHUNK_SIZE - 1) / CHUNK_SIZE
  {
    LayoutSize(chunks);
  }

  /** A layout of `data` is the one sealing makes, or the padded one. */
  lemma TwoLayouts(chunks: seq<bytes>, data: bytes)
    requires Layout(chunks) && |chunks| <= U32_LIMIT && Flatten(chunks) == data
    ensures |data| <= MAX_PLAINTEXT
    ensures chunks == Chunks(data) || (HasPaddedForm(data) && chunks == PaddedChunks(data))
  {
    hide Layout;
    LayoutLength(chunks, data);
    ChunksExact(data);
    if |chunks| > 1 && chunks[|chunks| - 1] == [] {
      PaddedLayout(data);
      LayoutUnique(chunks, PaddedChunks(data));
    } else {
      LayoutUnique(chunks, Chunks(data));
    }
  }

  /** `data` has exactly the accepted payloads listed here: one, or two for a positive multiple of 1 MiB below 2^52. */
  lemma ExactFraming(s: Session, payload: bytes, data: bytes, faults: nat -> CipherFault)
    requires AadFits(s) && NoFaults(faults)
    ensures OpensTo(s, payload, data, faults)
       <==> || (|data| <= MAX_PLAINTEXT && payload == Canonical(s, data))
            || (HasPaddedForm(data) && payload == Padded(s, data))
  {
    hide OpenFrom;
    ChunksExact(data);
    if OpensTo(s, payload, data, faults) {
      var fs := OpenSound(s, payload, false, 0, faults);
      AuthenticFramesAreSealed(s, fs, 0);
      TwoLayouts(Plains(s, fs), data);
    }
    if |data| <= MAX_PLAINTEXT {
      LayoutOpens(s, Chunks(data), faults);
    }
    if HasPaddedForm(data) {
      PaddedLayout(data);
      LayoutOpens(s, PaddedChunks(data), faults);
    }
  }

  lemma {:induction false} SealedSize(s: Session, chunks: seq<bytes>, start: nat)
    requires Layout(chunks) && start + |chunks| <= U32_LIMIT
    ensures |Serialize(SealedFrames(s, chunks, start))|
         == |Flatten(chunks)| + (RECORD_HEADER_SIZE + TAG_SIZE) * |chunks|
  {
    var fs := SealedFrames(s, chunks, start);
    if |chunks| == 1 {
      assert fs[1..] == [] && chunks[1..] == [];
    } else {
      LayoutTail(chunks);
      SealedSize(s, chunks[1..], start + 1);
      assert fs[1..] == SealedFrames(s, chunks[1..], start + 1);
    }
  }

  /** Each record costs 25 bytes, so the canonical form is the shorter one by exactly one empty record. */
  lemma FramingSizes(s: Session, data: bytes)
    requires |data| <= MAX_PLAINTEXT
    ensures |Canonical(s, data)| == |data| + 25 * (if data == [] then 1 else (|data| + CHUNK_SIZE - 1) / CHUNK_SIZE)
    ensures HasPaddedForm(data) ==> |Padded(s, data)| == |Canonical(s, data)| + 25
  {
    ChunksExact(data);
    SealedSize(s, Chunks(data), 0);
    if HasPaddedForm(data) {
      PaddedLayout(data);
      SealedSize(s, PaddedChunks(data), 0);
    }
  }

  // ---------- Partial output ----------

  /**
    Output of a run that threw, or output cut short by the sink, is never accepted: not with any key,
    associated data or header, and not with any OpenSSL behaviour.
   */
  lemma PartialOutputRejected(s: Session, data: bytes, broken: bool, faults: nat -> CipherFault, cut: bytes,
                              s': Session, broken': bool, faults': nat -> CipherFault)
    requires var run := SealFrom(s, data, broken, 0, faults);
             cut <= Serialize(run.frames) && (run.outcome.Thrown? || cut != Serialize(run.frames))
    ensures OpenFrom(s', cut, broken', 0, faults').outcome.Thrown?
  {
    hide SealFrom, OpenFrom;
    var run := SealFrom(s, data, broken, 0, faults);
    var whole := Serialize(run.frames);
    if OpenFrom(s', cut, broken', 0, faults').outcome.Done? {
      var fs := OpenSound(s', cut, broken', 0, faults');
      assert Serialize(fs) + whole[|cut|..] == Serialize(run.frames) + [];
      if run.outcome.Done? {
        SealSound(s, data, broken, 0, faults);
        SealedFramesAuthentic(s, Chunks(data), 0);
        FramedPrefixFree(fs, whole[|cut|..], run.frames, [], 0);
      } else {
        SealFailure(s, data, broken, 0, faults);
        NonFinalHasNoFramedPrefix(fs, whole[|cut|..], run.frames, [], 0);
      }
    }
  }

  // ---------- Splicing ----------

  /** One call of the authenticated cipher, as the tag check sees it. */
  datatype Verified = Verified(key: Key, nonce: Nonce, aad: bytes, ciphertext: bytes, tag: Tag)

  function VerifiedBy(s: Session, f: Frame): Verified
  {
    Verified(s.key, FrameNonce(s, f.index), FrameAad(s, f), f.ciphertext, f.tag)
  }

  /** A call of the sealing loop, completed or not. */
  datatype Job = Job(session: Session, data: bytes, broken: bool, faults: nat -> CipherFault)

  function RunOf(job: Job): SealRun
  {
    SealFrom(job.session, job.data, job.broken, 0, job.faults)
  }

  ghost predicate ProducedBy(v: Verified, job: Job)
  {
    exists k :: 0 <= k < |RunOf(job).frames| && VerifiedBy(job.session, RunOf(job).frames[k]) == v
  }

  ghost predicate DistinctHeaders(jobs: seq<Job>)
  {
    && (forall j :: 0 <= j < |jobs| ==> IsHeader(jobs[j].session.header))
    && (forall i, j :: 0 <= i < j < |jobs| ==> jobs[i].session.header != jobs[j].session.header)
  }

  /** Every record of `fs` was produced by one of the jobs. */
  ghost predicate AllProduced(s: Session, fs: seq<Frame>, jobs: seq<Job>)
  {
    forall i :: 0 <= i < |fs| ==> Produced(s, fs[i], jobs)
  }

  ghost predicate Produced(s: Session, f: Frame, jobs: seq<Job>)
  {
    exists j :: 0 <= j < |jobs| && ProducedBy(VerifiedBy(s, f), jobs[j])
  }

  /** A produced record is the record with its index of the job with its header. */
  lemma ProducedIsInPlace(s: Session, f: Frame, job: Job)
    requires IsHeader(s.header) && IsHeader(job.session.header)
    requires ProducedBy(VerifiedBy(s, f), job)
    ensures s.header == job.session.header && s.key == job.session.key && s.aad == job.session.aad
    ensures s.noncePrefix == job.session.noncePrefix
    ensures f.index < |RunOf(job).frames| && RunOf(job).frames[f.index] == f
  {
    hide SealFrom, IsHeader;
    var gs, t := RunOf(job).frames, job.session;
    var k :| 0 <= k < |gs| && VerifiedBy(t, gs[k]) == VerifiedBy(s, f);
    var g := gs[k];
    ChunkAadInjective(s.header, FrameHeader(f), s.aad, t.header, FrameHeader(g), t.aad);
    RecordBytesInjective(f.index, |f.ciphertext|, f.finalFlag, g.index, |g.ciphertext|, g.finalFlag);
    SealNumbered(t, job.data, job.broken, job.faults);
    assert FrameNonce(s, f.index)[..8] == s.noncePrefix && FrameNonce(t, g.index)[..8] == t.noncePrefix;
  }

  /**
    Splicing is impossible: a complete record sequence made of records of any sealing runs with
    pairwise different headers is all of the records, in order, of one run that ended well.
   */
  lemma NoSplicing(jobs: seq<Job>, s: Session, fs: seq<Frame>) returns (j: nat)
    requires DistinctHeaders(jobs) && IsHeader(s.header)
    requires Framed(fs, 0) && AllProduced(s, fs, jobs)
    ensures j < |jobs| && RunOf(jobs[j]) == SealRun(fs, Done)
    ensures s.(suite := jobs[j].session.suite) == jobs[j].session
  {
    hide SealFrom, IsHeader, VerifiedBy;
    assert Produced(s, fs[0], jobs);
    j :| 0 <= j < |jobs| && ProducedBy(VerifiedBy(s, fs[0]), jobs[j]);
    var gs := RunOf(jobs[j]).frames;
    forall i | 0 <= i < |fs|
      ensures i < |gs| && gs[i] == fs[i]
    {
      assert Produced(s, fs[i], jobs);
      var k :| 0 <= k < |jobs| && ProducedBy(VerifiedBy(s, fs[i]), jobs[k]);
      ProducedIsInPlace(s, fs[0], jobs[j]);
      ProducedIsInPlace(s, fs[i], jobs[k]);
      assert k == j;
    }
    ProducedIsInPlace(s, fs[0], jobs[j]);
    var last := fs[|fs| - 1];
    assert gs[|fs| - 1] == last;
    FinalRecordEndsRun(jobs[j], |fs| - 1);
    assert fs == gs;
  }

  /** Conversely the records of a run that ended well are such a sequence for any reader with its session. */
  lemma WholeRunIsProduced(jobs: seq<Job>, j: nat, s: Session)
    requires j < |jobs| && RunOf(jobs[j]).outcome.Done?
    requires s.(suite := jobs[j].session.suite) == jobs[j].session
    ensures Framed(RunOf(jobs[j]).frames, 0) && AllProduced(s, RunOf(jobs[j]).frames, jobs)
  {
    hide SealFrom, Framed, AllTagsValid;
    var Job(t, data, broken, faults) := jobs[j];
    SealSound(t, data, broken, 0, faults);
    SealedFramesAuthentic(t, Chunks(data), 0);
    var fs := RunOf(jobs[j]).frames;
    forall i | 0 <= i < |fs|
      ensures Produced(s, fs[i], jobs)
    {
      assert VerifiedBy(t, fs[i]) == VerifiedBy(s, fs[i]);
      assert ProducedBy(VerifiedBy(s, fs[i]), jobs[j]);
    }
  }

  lemma FinalRecordEndsRun(job: Job, last: nat)
    requires last < |RunOf(job).frames| && RunOf(job).frames[last].finalFlag == FINAL
    ensures RunOf(job).outcome.Done? && |RunOf(job).frames| == last + 1
  {
    hide SealFrom;
    var Job(s, data, broken, faults) := job;
    if RunOf(job).outcome.Thrown? {
      SealFailure(s, data, broken, 0, faults);
      assert false;
    }
    SealSound(s, data, broken, 0, faults);
    SealedFramesAuthentic(s, Chunks(data), 0);
  }
}
