/**
  The SKF1 and SKP1 formats of `docs/FORMAT.md`, byte by byte and in numbers, as a definition of its own:
  which bytes are a sealed file of given data. The files the readers open are exactly these.
 */
module FileFormat {
  import opened Bytes
  import opened Errors
  import opened Gcm
  import opened FileCrypto
  import opened Container
  import opened Framing
  import opened Opening
  import opened Sealing
  import opened Integrity
  import opened SealedFile

  // ---------- The format ----------

  /** "SKF1", version 1, algorithm 1, chunk size 2^20. */
  const FIXED: bytes := [0x53, 0x4b, 0x46, 0x31, 0x01, 0x01, 0x00, 0x10, 0x00, 0x00]

  /** "SKP1", version 1, cipher 1, KDF 1, flags 0, chunk size 2^20. */
  const PASSWORD_FIXED: bytes := [0x53, 0x4b, 0x50, 0x31, 0x01, 0x01, 0x01, 0x00, 0x00, 0x10, 0x00, 0x00]

  /** The scrypt parameters 32768, 8 and 1. */
  const SCRYPT_FIXED: bytes := [0x00, 0x00, 0x80, 0x00, 0x00, 0x00, 0x00, 0x08, 0x00, 0x00, 0x00, 0x01]

  /** "securekit file sealing v1". */
  const INFO: bytes := [0x73, 0x65, 0x63, 0x75, 0x72, 0x65, 0x6b, 0x69, 0x74, 0x20, 0x66, 0x69, 0x6c, 0x65,
                        0x20, 0x73, 0x65, 0x61, 0x6c, 0x69, 0x6e, 0x67, 0x20, 0x76, 0x31]

  /** Four bytes, the most significant one first. */
  function U32At(s: bytes, at: nat): nat
    requires at + 4 <= |s|
  {
    var b0: int, b1: int, b2: int, b3: int := s[at], s[at + 1], s[at + 2], s[at + 3];
    ((b0 * 256 + b1) * 256 + b2) * 256 + b3
  }

  /** The header at the front of `file` is one of this format. */
  predicate HeaderIs(secret: Secret, file: bytes)
  {
    match secret
    case RawKey(_) => |file| >= 50 && file[..10] == FIXED
    case Password(_) => |file| >= 64 && file[..12] == PASSWORD_FIXED && file[52..64] == SCRYPT_FIXED
  }

  function SaltIn(secret: Secret, file: bytes): bytes
    requires HeaderIs(secret, file)
  {
    if secret.RawKey? then file[10..42] else file[12..44]
  }

  function PrefixIn(secret: Secret, file: bytes): (p: bytes)
    requires HeaderIs(secret, file)
    ensures |p| == 8
  {
    if secret.RawKey? then file[42..50] else file[44..52]
  }

  /** The key of a file, from the secret and the salt in its header. */
  predicate KeyIs(suite: Suite, secret: Secret, file: bytes, key: Key)
    requires HeaderIs(secret, file)
  {
    match secret
    case RawKey(k) => suite.hkdf(k, SaltIn(secret, file), INFO) == Some(key)
    case Password(p) => p != [] && suite.scrypt(p, SaltIn(secret, file), 32768, 8, 1) == Some(key)
  }

  /** `r` begins with the record number `index` of a file with this header. */
  ghost predicate RecordIs(s: Session, r: bytes, index: nat, isFinal: bool, plain: bytes)
  {
    var n := |plain|;
    && |r| >= 25 + n
    && U32At(r, 0) == index && U32At(r, 4) == n && r[8] == (if isFinal then 1 else 0)
    && var nonce: Nonce := s.noncePrefix + r[..4];
       && (forall i :: 0 <= i < n ==> r[9 + i] == Xor(plain[i], s.suite.keystream(s.key, nonce, i)))
       && r[9 + n..25 + n] == s.suite.mac(s.key, nonce, s.header + r[..9] + s.aad, r[9..9 + n])
  }

  /** Chunk `k` of the data: 2^20 bytes, or what is left. */
  function ChunkAt(data: bytes, k: nat): bytes
    requires k * 0x10_0000 <= |data|
  {
    if (k + 1) * 0x10_0000 <= |data| then data[k * 0x10_0000..(k + 1) * 0x10_0000] else data[k * 0x10_0000..]
  }

  /** Record `k` of `m` is where the full ones before it end: each is 2^20 + 25 bytes long. */
  ghost predicate RecordAt(s: Session, p: bytes, data: bytes, start: nat, m: nat, k: nat)
  {
    && k * 0x10_0019 <= |p| && k * 0x10_0000 <= |data|
    && RecordIs(s, p[k * 0x10_0019..], start + k, k == m - 1, ChunkAt(data, k))
  }

  /** `m` records carry the data, numbered from `start`, and nothing else is in `p`. */
  ghost predicate PayloadIs(s: Session, p: bytes, data: bytes, start: nat, m: nat)
  {
    && m >= 1 && (m - 1) * 0x10_0000 <= |data| <= m * 0x10_0000
    && |p| == |data| + 25 * m
    && forall k :: 0 <= k < m ==> RecordAt(s, p, data, start, m, k)
  }

  /** `file` is a sealed file of `data` with `m` records. */
  ghost predicate FileIs(suite: Suite, secret: Secret, aad: bytes, file: bytes, data: bytes, m: nat)
  {
    && HeaderIs(secret, file)
    && m <= 0x1_0000_0000
    && exists key ::
         && KeyIs(suite, secret, file, key)
         && var h := if secret.RawKey? then 50 else 64;
            PayloadIs(Session(suite, key, file[..h], PrefixIn(secret, file), aad), file[h..], data, 0, m)
  }

  // ---------- Headers and keys ----------

  lemma HeaderNumbers(h: bytes, e: Entropy)
    ensures h == HeaderBytes(e) <==> |h| == 50 && h[..10] == FIXED && h[10..42] == e.salt && h[42..50] == e.noncePrefix
  {
    assert MAGIC + [1, 1] + U32Bytes(CHUNK_SIZE) == FIXED;
    if |h| == 50 {
      assert h == h[..10] + h[10..42] + h[42..50];
    }
    var made := HeaderBytes(e);
    assert made[..10] == FIXED && made[10..42] == e.salt && made[42..50] == e.noncePrefix;
  }

  lemma PasswordHeaderNumbers(h: bytes, e: Entropy)
    ensures h == PasswordHeaderBytes(e)
       <==> && |h| == 64 && h[..12] == PASSWORD_FIXED && h[52..64] == SCRYPT_FIXED
            && h[12..44] == e.salt && h[44..52] == e.noncePrefix
  {
    assert PASSWORD_MAGIC + [1, 1, 1, 0] + U32Bytes(CHUNK_SIZE) == PASSWORD_FIXED;
    assert U32Bytes(SCRYPT_N) + U32Bytes(SCRYPT_R) + U32Bytes(SCRYPT_P) == SCRYPT_FIXED;
    if |h| == 64 {
      assert h == h[..12] + h[12..44] + h[44..52] + h[52..64];
    }
    var made := PasswordHeaderBytes(e);
    assert made[..12] == PASSWORD_FIXED && made[12..44] == e.salt && made[44..52] == e.noncePrefix;
    assert made[52..64] == SCRYPT_FIXED;
  }

  /** A header of the format is a made one, with the salt and nonce prefix where the format has them. */
  lemma HeadersExact(secret: Secret, file: bytes, e: Entropy)
    ensures HeaderOf(secret, e) <= file
       <==> HeaderIs(secret, file) && SaltIn(secret, file) == e.salt && PrefixIn(secret, file) == e.noncePrefix
  {
    var n := HeaderSize(secret);
    if |file| >= n {
      if secret.RawKey? {
        HeaderNumbers(file[..n], e);
      } else {
        PasswordHeaderNumbers(file[..n], e);
      }
    }
  }

  lemma InfoNumbers()
    ensures FILE_KEY_INFO == INFO
  {
    assert |FILE_KEY_INFO| == 25;
    assert forall i :: 0 <= i < 25 ==> FILE_KEY_INFO[i] == INFO[i];
  }

  /**
    The session of a seal call: its header is one of the format, and its key comes from the secret and the
    salt in that header.
   */
  lemma SealSessionKey(suite: Suite, secret: Secret, entropy: Option<Entropy>, aad: bytes)
    requires SealSession(suite, secret, entropy, aad).Ok?
    ensures var s := SealSession(suite, secret, entropy, aad).value;
            && s.suite == suite && s.aad == aad && HeaderIs(secret, s.header)
            && |s.header| == (if secret.RawKey? then 50 else 64)
            && s.noncePrefix == PrefixIn(secret, s.header) && KeyIs(suite, secret, s.header, s.key)
  {
    HeadersExact(secret, HeaderOf(secret, entropy.value), entropy.value);
    InfoNumbers();
  }

  /** The same for an open call and the bytes it has read. */
  lemma OpenSessionKey(suite: Suite, secret: Secret, aad: bytes, input: bytes, faulty: bool)
    requires OpenSession(suite, secret, aad, input, faulty).Ok?
    ensures var s := OpenSession(suite, secret, aad, input, faulty).value;
            && s.suite == suite && s.aad == aad && HeaderIs(secret, input)
            && s.header == (if secret.RawKey? then input[..50] else input[..64])
            && s.noncePrefix == PrefixIn(secret, input) && KeyIs(suite, secret, input, s.key)
  {
    var e := OpenSessionIs(suite, secret, aad, input, faulty);
    var s := OpenSession(suite, secret, aad, input, faulty).value;
    SealSessionKey(suite, secret, Some(e), aad);
    HeadersExact(secret, input, e);
  }

  /** A header of the format and a derivable key make a session. */
  lemma SessionMade(suite: Suite, secret: Secret, aad: bytes, file: bytes, key: Key) returns (e: Entropy)
    requires HeaderIs(secret, file) && KeyIs(suite, secret, file, key)
    ensures var h := if secret.RawKey? then 50 else 64;
            SealSession(suite, secret, Some(e), aad)
            == Ok(Session(suite, key, file[..h], PrefixIn(secret, file), aad))
  {
    e := Entropy(SaltIn(secret, file), PrefixIn(secret, file));
    HeadersExact(secret, file, e);
    InfoNumbers();
    assert HeaderOf(secret, e) == file[..HeaderSize(secret)];
    hide HeaderOf;
  }

  // ---------- Records ----------

  lemma U32Numbers(s: bytes, at: nat, v: u32)
    requires at + 4 <= |s|
    ensures U32At(s, at) == v <==> s[at..at + 4] == U32Bytes(v)
  {
    var t := s[at..at + 4];
    assert ReadU32(t) == U32At(s, at);
    ReadU32OfBytes(v);
    U32BytesOfRead(t);
  }

  lemma HeadNumbers(r: bytes, index: u32, n: u32, flag: byte)
    requires |r| >= 9
    ensures r[..9] == RecordBytes(index, n, flag) <==> U32At(r, 0) == index && U32At(r, 4) == n && r[8] == flag
  {
    var head := RecordBytes(index, n, flag);
    assert r[..9] == r[0..4] + r[4..8] + [r[8]];
    assert head[0..4] == U32Bytes(index) && head[4..8] == U32Bytes(n) && head[8] == flag;
    U32Numbers(r, 0, index);
    U32Numbers(r, 4, n);
    if r[..9] == head {
      assert r[0..4] == head[0..4] && r[4..8] == head[4..8] && r[8] == head[8];
    }
  }

  /** Ciphertext and tag behind the nine bytes of a record header. */
  lemma BodyNumbers(s: Session, r: bytes, index: u32, flag: byte, plain: bytes)
    requires |plain| <= 0x10_0000 && flag in {0, 1} && (flag == 0 ==> |plain| == 0x10_0000)
    requires |r| >= 25 + |plain| && r[..9] == RecordBytes(index, |plain|, flag)
    ensures var n, f, nonce: Nonce := |plain|, SealFrame(s, index, flag, plain), s.noncePrefix + r[..4];
            r[9..9 + n] == f.ciphertext && r[9 + n..25 + n] == f.tag
            <==> && (forall i :: 0 <= i < n ==> r[9 + i] == Xor(plain[i], s.suite.keystream(s.key, nonce, i)))
                 && r[9 + n..25 + n] == s.suite.mac(s.key, nonce, s.header + r[..9] + s.aad, r[9..9 + n])
  {
    var n := |plain|;
    assert r[..4] == r[..9][..4] && r[..9][..4] == U32Bytes(index);
    assert s.noncePrefix + r[..4] == FrameNonce(s, index);
    var c := r[9..9 + n];
    CiphertextNumbers(s, c, index, plain);
    assert forall i :: 0 <= i < n ==> c[i] == r[9 + i];
  }

  /** The bytes of a sealed record are those of the format. */
  lemma RecordExact(s: Session, r: bytes, index: u32, isFinal: bool, plain: bytes)
    requires |plain| <= 0x10_0000 && (!isFinal ==> |plain| == 0x10_0000) && |r| >= 25 + |plain|
    ensures RecordIs(s, r, index, isFinal, plain)
       <==> r[..25 + |plain|] == FrameBytes(SealFrame(s, index, if isFinal then 1 else 0, plain))
  {
    var n, flag: byte := |plain|, if isFinal then 1 else 0;
    var f := SealFrame(s, index, flag, plain);
    HeadNumbers(r, index, n, flag);
    if r[..9] == RecordBytes(index, n, flag) {
      BodyNumbers(s, r, index, flag, plain);
    }
    var w := r[..25 + n];
    FrameSlices(w, FrameHeader(f), f.ciphertext, f.tag);
    assert w[..9] == r[..9] && w[9..9 + n] == r[9..9 + n] && w[9 + n..] == r[9 + n..25 + n];
    assert FrameHeader(f) == RecordBytes(index, n, flag);
    hide XorStream, U32At, RecordBytes, FrameHeader;
  }

  lemma FrameSlices(w: bytes, head: bytes, ciphertext: bytes, tag: bytes)
    requires |head| == 9 && |tag| == 16
    ensures w == head + ciphertext + tag
       <==> && |w| == 25 + |ciphertext|
            && w[..9] == head && w[9..9 + |ciphertext|] == ciphertext && w[9 + |ciphertext|..] == tag
  {
    if |w| == 25 + |ciphertext| {
      assert w == w[..9] + w[9..9 + |ciphertext|] + w[9 + |ciphertext|..];
    }
  }

  lemma CiphertextNumbers(s: Session, c: bytes, index: u32, plain: bytes)
    requires |c| == |plain|
    ensures c == XorStream(s.suite, s.key, FrameNonce(s, index), 0, plain)
       <==> forall i :: 0 <= i < |c| ==> c[i] == Xor(plain[i], s.suite.keystream(s.key, FrameNonce(s, index), i))
  {
  }

  // ---------- Payloads ----------

  /** The division of the data into `m` chunks. */
  function Cut(data: bytes, m: nat): (chunks: seq<bytes>)
    requires m >= 1 && (m - 1) * 0x10_0000 <= |data| <= m * 0x10_0000
    ensures |chunks| == m
    decreases m
  {
    if m == 1 then [data] else [data[..0x10_0000]] + Cut(data[0x10_0000..], m - 1)
  }

  lemma {:induction false} CutExact(data: bytes, m: nat)
    requires m >= 1 && (m - 1) * 0x10_0000 <= |data| <= m * 0x10_0000
    ensures Layout(Cut(data, m)) && Flatten(Cut(data, m)) == data
    decreases m
  {
    if m == 1 {
      assert Cut(data, m)[1..] == [];
    } else {
      CutExact(data[0x10_0000..], m - 1);
      LayoutCons(data[..0x10_0000], Cut(data[0x10_0000..], m - 1));
    }
  }

  lemma CutOfLayout(chunks: seq<bytes>)
    requires Layout(chunks)
    ensures var data, m := Flatten(chunks), |chunks|;
            (m - 1) * 0x10_0000 <= |data| <= m * 0x10_0000 && Cut(data, m) == chunks
  {
    LayoutSize(chunks);
    CutExact(Flatten(chunks), |chunks|);
    LayoutUnique(Cut(Flatten(chunks), |chunks|), chunks);
  }

  lemma DropTwice(s: bytes, a: nat, b: nat)
    requires a + b <= |s|
    ensures s[a..][b..] == s[a + b..]
  {
  }

  /** The place of a chunk, seen from behind the first one. */
  lemma NextChunkAt(data: bytes, k: nat)
    requires (k + 1) * 0x10_0000 <= |data|
    ensures ChunkAt(data[0x10_0000..], k) == ChunkAt(data, k + 1)
  {
    DropTwice(data, 0x10_0000, k * 0x10_0000);
    if (k + 2) * 0x10_0000 <= |data| {
      var from, to := k * 0x10_0000, (k + 1) * 0x10_0000;
      assert data[0x10_0000..][from..to] == data[0x10_0000 + from..0x10_0000 + to];
    }
  }

  /** The place of a record, seen from behind the first one. */
  lemma NextRecordAt(s: Session, p: bytes, data: bytes, start: nat, m: nat, k: nat)
    requires m > 1 && |p| >= 0x10_0019 && |data| >= 0x10_0000
    ensures RecordAt(s, p[0x10_0019..], data[0x10_0000..], start + 1, m - 1, k)
       <==> RecordAt(s, p, data, start, m, k + 1)
  {
    hide RecordIs;
    if (k + 1) * 0x10_0019 <= |p| && (k + 1) * 0x10_0000 <= |data| {
      DropTwice(p, 0x10_0019, k * 0x10_0019);
      NextChunkAt(data, k);
      hide ChunkAt;
      assert start + 1 + k == start + (k + 1) && (k == m - 1 - 1 <==> k + 1 == m - 1);
    }
  }

  lemma FirstRecordAt(s: Session, p: bytes, data: bytes, start: nat, m: nat)
    ensures RecordAt(s, p, data, start, m, 0) <==> RecordIs(s, p, start, 0 == m - 1, ChunkAt(data, 0))
    ensures ChunkAt(data, 0) == if |data| >= 0x10_0000 then data[..0x10_0000] else data
  {
    hide RecordIs;
    assert p[0 * 0x10_0019..] == p;
  }

  /** One record in front. */
  lemma PayloadStep(s: Session, p: bytes, data: bytes, start: nat, m: nat)
    requires m > 1 && (m - 1) * 0x10_0000 <= |data| <= m * 0x10_0000 && |p| == |data| + 25 * m
    ensures PayloadIs(s, p, data, start, m)
       <==> && RecordIs(s, p, start, false, data[..0x10_0000])
            && PayloadIs(s, p[0x10_0000 + 25..], data[0x10_0000..], start + 1, m - 1)
  {
    hide RecordAt, RecordIs, ChunkAt;
    FirstRecordAt(s, p, data, start, m);
    var q, rest, next, left := p[0x10_0019..], data[0x10_0000..], start + 1, m - 1;
    forall k | 1 <= k < m
      ensures RecordAt(s, q, rest, next, left, k - 1) <==> RecordAt(s, p, data, start, m, k)
    {
      NextRecordAt(s, p, data, start, m, k - 1);
    }
    if PayloadIs(s, p, data, start, m) {
      forall k | 0 <= k < left
        ensures RecordAt(s, q, rest, next, left, k)
      {
        assert RecordAt(s, p, data, start, m, k + 1);
      }
      assert RecordAt(s, p, data, start, m, 0);
    }
    if RecordAt(s, p, data, start, m, 0) && PayloadIs(s, q, rest, next, left) {
      forall k | 0 <= k < m
        ensures RecordAt(s, p, data, start, m, k)
      {
        if k > 0 {
          assert RecordAt(s, q, rest, next, left, k - 1);
        }
      }
    }
  }

  lemma PayloadLast(s: Session, p: bytes, data: bytes, start: nat)
    requires |data| <= 0x10_0000 && |p| == |data| + 25
    ensures PayloadIs(s, p, data, start, 1) <==> RecordIs(s, p, start, true, data)
  {
    hide RecordAt, RecordIs;
    FirstRecordAt(s, p, data, start, 1);
    if |data| == 0x10_0000 {
      assert data[..0x10_0000] == data;
    }
    if PayloadIs(s, p, data, start, 1) {
      assert RecordAt(s, p, data, start, 1, 0);
    }
  }

  /** The bytes of the format are those of the sealed records of the data, cut into `m` chunks. */
  lemma {:induction false} PayloadExact(s: Session, p: bytes, data: bytes, start: nat, m: nat)
    requires m >= 1 && (m - 1) * 0x10_0000 <= |data| <= m * 0x10_0000 && start + m <= U32_LIMIT
    requires Layout(Cut(data, m)) && |p| == |data| + 25 * m
    ensures PayloadIs(s, p, data, start, m) <==> p == Serialize(SealedFrames(s, Cut(data, m), start))
    decreases m
  {
    hide RecordIs, PayloadIs, FrameBytes, SealFrame;
    var chunks := Cut(data, m);
    var fs := SealedFrames(s, chunks, start);
    if m == 1 {
      PayloadLast(s, p, data, start);
      RecordExact(s, p, start, true, data);
      assert fs[1..] == [] && Serialize(fs) == FrameBytes(fs[0]) + [];
      assert p[..25 + |data|] == p;
    } else {
      var first, rest := data[..0x10_0000], data[0x10_0000..];
      CutExact(rest, m - 1);
      SealedFramesCons(s, first, Cut(rest, m - 1), start);
      var f, tail := SealFrame(s, start, NOT_FINAL, first), SealedFrames(s, Cut(rest, m - 1), start + 1);
      assert fs == [f] + tail && fs[1..] == tail;
      PayloadStep(s, p, data, start, m);
      RecordExact(s, p, start, false, first);
      PayloadExact(s, p[0x10_0000 + 25..], rest, start + 1, m - 1);
      assert p == p[..0x10_0000 + 25] + p[0x10_0000 + 25..];
      FrameLength(s, start, first);
      PrefixSplit(p, FrameBytes(f), Serialize(tail), 0x10_0000 + 25);
    }
  }

  lemma FrameLength(s: Session, index: u32, plain: bytes)
    requires |plain| == 0x10_0000
    ensures |FrameBytes(SealFrame(s, index, NOT_FINAL, plain))| == 0x10_0000 + 25
  {
  }

  lemma PrefixSplit(p: bytes, a: bytes, b: bytes, n: nat)
    requires |a| == n <= |p|
    ensures p == a + b <==> p[..n] == a && p[n..] == b
  {
    assert p == p[..n] + p[n..];
  }

  // ---------- Files ----------

  /** What a successful seal call writes is a file of the format, with one record per started chunk. */
  lemma SealedFileIs(suite: Suite, secret: Secret, entropy: Option<Entropy>, aad: bytes, data: bytes, faulty: bool,
                     faults: nat -> CipherFault)
    requires SealFileRun(suite, secret, entropy, aad, data, faulty, faults).outcome == Done
    ensures FileIs(suite, secret, aad, SealFileRun(suite, secret, entropy, aad, data, faulty, faults).written, data,
                   if data == [] then 1 else (|data| + 0xf_ffff) / 0x10_0000)
  {
    hide SealFrom, OpenFrom, SealSession, PayloadIs, SealedFrames, Serialize;
    var s := SealSession(suite, secret, entropy, aad).value;
    var m := if data == [] then 1 else (|data| + 0xf_ffff) / 0x10_0000;
    SealSessionKey(suite, secret, entropy, aad);
    SealSound(s, data, faulty, 0, faults);
    ChunksExact(data);
    CutOfLayout(Chunks(data));
    SealedSize(s, Chunks(data), 0);
    var payload := Serialize(SealedFrames(s, Chunks(data), 0));
    PayloadExact(s, payload, data, 0, m);
    FileOfParts(suite, secret, aad, s, payload, data, m);
  }

  lemma FileOfParts(suite: Suite, secret: Secret, aad: bytes, s: Session, payload: bytes, data: bytes, m: nat)
    requires s.suite == suite && s.aad == aad && HeaderIs(secret, s.header)
    requires |s.header| == (if secret.RawKey? then 50 else 64)
    requires s.noncePrefix == PrefixIn(secret, s.header) && KeyIs(suite, secret, s.header, s.key)
    requires m <= 0x1_0000_0000 && PayloadIs(s, payload, data, 0, m)
    ensures FileIs(suite, secret, aad, s.header + payload, data, m)
  {
    hide PayloadIs;
    var file, h := s.header + payload, |s.header|;
    assert file[..h] == s.header && file[h..] == payload;
    if secret.RawKey? {
      assert file[..10] == s.header[..10] && file[10..42] == s.header[10..42] && file[42..50] == s.header[42..50];
    } else {
      assert file[..12] == s.header[..12] && file[52..64] == s.header[52..64];
      assert file[12..44] == s.header[12..44] && file[44..52] == s.header[44..52];
    }
    assert KeyIs(suite, secret, file, s.key);
  }

  /** A file of the format opens to its data. */
  lemma FileIsOpens(suite: Suite, secret: Secret, aad: bytes, file: bytes, data: bytes, m: nat)
    requires FileIs(suite, secret, aad, file, data, m)
    requires (if secret.RawKey? then 50 else 64) + 9 + |aad| <= 0x7fff_ffff
    ensures OpensFileTo(suite, secret, aad, file, data)
  {
    hide OpenFrom, OpenFileRun, SealSession, SealedFrames, Serialize;
    var h := if secret.RawKey? then 50 else 64;
    var key :| KeyIs(suite, secret, file, key)
               && PayloadIs(Session(suite, key, file[..h], PrefixIn(secret, file), aad), file[h..], data, 0, m);
    var e := SessionMade(suite, secret, aad, file, key);
    var s := SealSession(suite, secret, Some(e), aad).value;
    CutExact(data, m);
    PayloadExact(s, file[h..], data, 0, m);
    var fs := SealedFrames(s, Cut(data, m), 0);
    SealedFramesAuthentic(s, Cut(data, m), 0);
    assert file == file[..h] + file[h..];
    assert AuthenticContainer(suite, secret, aad, file, e, fs);
    forall faults: nat -> CipherFault | NoFaults(faults)
      ensures var run := OpenFileRun(suite, secret, aad, file, false, faults);
              run.outcome.Done? && Flatten(run.chunks) == data
    {
      OpenFileExact(suite, secret, aad, file, false, faults);
    }
  }

  /** A file that opens to some data is a file of the format. */
  lemma OpensIsFile(suite: Suite, secret: Secret, aad: bytes, file: bytes, data: bytes) returns (m: nat)
    requires OpensFileTo(suite, secret, aad, file, data)
    ensures FileIs(suite, secret, aad, file, data, m)
    ensures (if secret.RawKey? then 50 else 64) + 9 + |aad| <= 0x7fff_ffff
  {
    hide OpenFrom, OpenFileRun, SealSession, SealedFrames, Serialize, PayloadIs, FileIs, HeaderIs, KeyIs;
    hide AllTagsValid, Layout, Flatten, Cut;
    var works: nat -> CipherFault := _ => NoFault;
    OpenFileExact(suite, secret, aad, file, false, works);
    var e, fs :| AuthenticContainer(suite, secret, aad, file, e, fs);
    var s := SealSession(suite, secret, Some(e), aad).value;
    SealSessionKey(suite, secret, Some(e), aad);
    AuthenticFramesAreSealed(s, fs, 0);
    var chunks := Plains(s, fs);
    m := |chunks|;
    CutOfLayout(chunks);
    SealedSize(s, chunks, 0);
    PayloadExact(s, Serialize(fs), data, 0, m);
    FileOfParts(suite, secret, aad, s, Serialize(fs), data, m);
  }

  /** The readers open exactly the files of the format, to the data the format says. */
  lemma FormatExact(suite: Suite, secret: Secret, aad: bytes, file: bytes, data: bytes)
    ensures OpensFileTo(suite, secret, aad, file, data)
       <==> && (if secret.RawKey? then 50 else 64) + 9 + |aad| <= 0x7fff_ffff
            && exists m :: FileIs(suite, secret, aad, file, data, m)
  {
    hide OpensFileTo, FileIs;
    if OpensFileTo(suite, secret, aad, file, data) {
      var m := OpensIsFile(suite, secret, aad, file, data);
    }
    if (if secret.RawKey? then 50 else 64) + 9 + |aad| <= 0x7fff_ffff {
      forall m | FileIs(suite, secret, aad, file, data, m)
        ensures OpensFileTo(suite, secret, aad, file, data)
      {
        FileIsOpens(suite, secret, aad, file, data, m);
      }
    }
  }

  // ---------- Codes ----------

  /** The header size of the format. */
  function HeaderLength(secret: Secret): nat
  {
    if secret.RawKey? then 50 else 64
  }

  /**
    What a seal call throws before it writes anything: `invalid_input` for an empty password only, and
    `backend_failure` when randomness or the key derivation fails.
   */
  lemma SealSessionCodes(suite: Suite, secret: Secret, entropy: Option<Entropy>, aad: bytes)
    ensures var r := SealSession(suite, secret, entropy, aad);
            && (r == Err(InvalidInput) <==> secret == Password([]))
            && (r.Err? <==> || secret == Password([]) || entropy.None?
                            || forall key :: !KeyIs(suite, secret, HeaderMade(secret, entropy.value), key))
            && (r.Err? ==> r.error in {InvalidInput, BackendFailure})
  {
    if entropy.Some? {
      var file := HeaderMade(secret, entropy.value);
      HeadersExact(secret, file, entropy.value);
      InfoNumbers();
      if SealSession(suite, secret, entropy, aad).Ok? {
        SealSessionKey(suite, secret, entropy, aad);
      }
    }
  }

  /** The header a seal call makes, as one of the format. */
  function HeaderMade(secret: Secret, e: Entropy): (h: bytes)
    ensures HeaderIs(secret, h)
  {
    HeadersExact(secret, HeaderOf(secret, e), e);
    HeaderOf(secret, e)
  }

  /**
    What an open call throws before it reads a record: `invalid_input` for an empty password only,
    `invalid_packet` when the input ends within the header or the header is not one of the format,
    `backend_failure` when the stream faults within the header or the key derivation fails.
   */
  lemma OpenSessionCodes(suite: Suite, secret: Secret, aad: bytes, input: bytes, faulty: bool)
    ensures var r, whole := OpenSession(suite, secret, aad, input, faulty), |input| >= HeaderLength(secret);
            && (r == Err(InvalidInput) <==> secret == Password([]))
            && (r == Err(InvalidPacket) <==>
                  secret != Password([]) && (if whole then !HeaderIs(secret, input) else !faulty))
            && (r == Err(BackendFailure) <==>
                  && secret != Password([])
                  && if !whole then faulty
                     else HeaderIs(secret, input) && forall key :: !KeyIs(suite, secret, input, key))
            && r != Err(AuthenticationFailed) && r != Err(InvalidEncoding)
  {
    if secret != Password([]) && |input| >= HeaderLength(secret) {
      ParsedHeader(secret, input);
      if HeaderIs(secret, input) {
        KeyCodes(suite, secret, input);
      }
    }
    hide HeaderIs, KeyIs, FileKey, ParseFor;
  }

  /** Deriving the key gives the one the format says, or fails with `backend_failure`. */
  lemma KeyCodes(suite: Suite, secret: Secret, file: bytes)
    requires HeaderIs(secret, file) && secret != Password([])
    ensures var r := FileKey(suite, secret, SaltIn(secret, file));
            && (forall key :: r == Ok(key) <==> KeyIs(suite, secret, file, key))
            && (r.Err? ==> r.error == BackendFailure)
  {
    InfoNumbers();
  }

  /** The parsers accept the headers of the format, and take salt and nonce prefix from where it has them. */
  lemma ParsedHeader(secret: Secret, input: bytes)
    requires |input| >= HeaderLength(secret)
    ensures var r := ParseFor(secret, input[..HeaderSize(secret)]);
            && (r.Ok? <==> HeaderIs(secret, input))
            && (r.Ok? ==> r.value.salt == SaltIn(secret, input) && r.value.noncePrefix == PrefixIn(secret, input))
            && (r.Err? ==> r.error == InvalidPacket)
  {
    var h := input[..HeaderSize(secret)];
    if HeaderIs(secret, input) {
      var e := Entropy(SaltIn(secret, input), PrefixIn(secret, input));
      HeadersExact(secret, input, e);
      assert HeaderOf(secret, e) == h;
      if secret.RawKey? {
        ParseHeaderExact(h, e);
      } else {
        ParsePasswordHeaderExact(h, e);
      }
    } else if ParseFor(secret, h).Ok? {
      var parsed := ParseFor(secret, h).value;
      var e := Entropy(parsed.salt, parsed.noncePrefix);
      if secret.RawKey? {
        ParseHeaderExact(h, e);
      } else {
        ParsePasswordHeaderExact(h, e);
      }
      HeadersExact(secret, input, e);
      assert false;
    }
  }

  /** How a whole seal call ends when OpenSSL works, in terms of its arguments. */
  lemma SealFileEnds(suite: Suite, secret: Secret, e: Entropy, aad: bytes, data: bytes, faulty: bool,
                     faults: nat -> CipherFault)
    requires NoFaults(faults)
    ensures var outcome := SealFileRun(suite, secret, Some(e), aad, data, faulty, faults).outcome;
            if secret == Password([]) then outcome == Thrown(InvalidInput)
            else if forall key :: !KeyIs(suite, secret, HeaderMade(secret, e), key) then
              outcome == Thrown(BackendFailure)
            else if HeaderLength(secret) + 9 + |aad| > 0x7fff_ffff then
              outcome == Thrown(if |data| <= 0x10_0000 && faulty then BackendFailure else InvalidInput)
            else if |data| > 0x10_0000_0000_0000 then outcome == Thrown(InvalidInput)
            else outcome == if faulty then Thrown(BackendFailure) else Done
  {
    hide SealFrom, SealSession, HeaderMade, KeyIs;
    SealSessionCodes(suite, secret, Some(e), aad);
    var session := SealSession(suite, secret, Some(e), aad);
    if session.Ok? {
      SealSessionKey(suite, secret, Some(e), aad);
      SealEnds(session.value, data, faulty, 0, faults);
    }
  }

  /** The tag of the first record of a file, checked under a key and associated data. */
  predicate FirstTagHolds(suite: Suite, secret: Secret, key: Key, aad: bytes, file: bytes)
    requires HeaderIs(secret, file)
  {
    var h := HeaderLength(secret);
    && |file| >= h + 25
    && var n := U32At(file, h + 4);
       && |file| >= h + 25 + n
       && file[h + 9 + n..h + 25 + n]
          == suite.mac(key, PrefixIn(secret, file) + file[h..h + 4], file[..h] + file[h..h + 9] + aad,
                       file[h + 9..h + 9 + n])
  }

  /**
    Another password or key, or other associated data, under which the first tag does not hold: opening
    throws `authentication_failed` and writes nothing.
   */
  lemma OtherSecretRefused(suite: Suite, secret: Secret, aad: bytes, file: bytes, data: bytes, m: nat,
                           secret': Secret, key': Key, aad': bytes, faults: nat -> CipherFault)
    requires FileIs(suite, secret, aad, file, data, m) && secret.RawKey? == secret'.RawKey? && NoFaults(faults)
    requires KeyIs(suite, secret', file, key') && HeaderLength(secret') + 9 + |aad'| <= 0x7fff_ffff
    requires !FirstTagHolds(suite, secret', key', aad', file)
    ensures OpenFileRun(suite, secret', aad', file, false, faults) == OpenRun([], Thrown(AuthenticationFailed))
  {
    hide OpenFrom, SealSession, OpenSession, KeyIs, PayloadIs, FirstTagHolds;
    SameFirstTag(suite, secret, secret', key', aad', file);
    var h := HeaderLength(secret);
    var key :| KeyIs(suite, secret, file, key)
               && PayloadIs(Session(suite, key, file[..h], PrefixIn(secret, file), aad), file[h..], data, 0, m);
    var s := Session(suite, key, file[..h], PrefixIn(secret, file), aad);
    var s' := OtherSession(suite, secret', aad', file, key');
    var f, rest := FirstRecord(s, file[h..], data, m);
    hide FrameBytes;
    FirstTag(s', secret, file, f, rest);
    FirstRefused(s', file[h..], f, rest, faults);
  }

  /** The first tag is at the same place for every secret of the kind. */
  lemma SameFirstTag(suite: Suite, secret: Secret, secret': Secret, key: Key, aad: bytes, file: bytes)
    requires secret.RawKey? == secret'.RawKey? && HeaderIs(secret, file)
    ensures HeaderIs(secret', file) && PrefixIn(secret, file) == PrefixIn(secret', file)
    ensures FirstTagHolds(suite, secret, key, aad, file) == FirstTagHolds(suite, secret', key, aad, file)
  {
  }

  lemma OtherSession(suite: Suite, secret: Secret, aad: bytes, file: bytes, key: Key) returns (s: Session)
    requires HeaderIs(secret, file) && KeyIs(suite, secret, file, key)
    ensures s == Session(suite, key, file[..HeaderLength(secret)], PrefixIn(secret, file), aad)
    ensures OpenSession(suite, secret, aad, file, false) == Ok(s) && HeaderLength(secret) == HeaderSize(secret)
  {
    hide SealSession, OpenSession, KeyIs;
    var h := HeaderLength(secret);
    s := Session(suite, key, file[..h], PrefixIn(secret, file), aad);
    var e := SessionMade(suite, secret, aad, file, key);
    SessionsAgree(suite, secret, Some(e), aad, file[h..], false);
    assert file[..h] + file[h..] == file;
  }

  lemma FirstRefused(s: Session, p: bytes, f: Frame, rest: bytes, faults: nat -> CipherFault)
    requires p == FrameBytes(f) + rest && f.index == 0 && (f.finalFlag == FINAL ==> rest == [])
    requires !TagValid(s, f) && AadFits(s) && NoFaults(faults)
    ensures OpenFrom(s, p, false, 0, faults) == OpenRun([], Thrown(AuthenticationFailed))
  {
    hide ReadRecord, FrameDecryption;
    ReadRecordExact(p, false, 0, f, rest);
    FrameDecryptionExact(s, f, faults(0));
  }

  lemma FirstRecord(s: Session, p: bytes, data: bytes, m: nat) returns (f: Frame, rest: bytes)
    requires PayloadIs(s, p, data, 0, m) && m <= 0x1_0000_0000
    ensures p == FrameBytes(f) + rest && f.index == 0 && (f.finalFlag == FINAL ==> rest == [])
  {
    hide PayloadIs, FrameBytes, SealFrame;
    PayloadShape(s, p, data, m);
    CutExact(data, m);
    PayloadExact(s, p, data, 0, m);
    var fs := SealedFrames(s, Cut(data, m), 0);
    SealedFramesAuthentic(s, Cut(data, m), 0);
    f, rest := fs[0], Serialize(fs[1..]);
  }

  lemma PayloadShape(s: Session, p: bytes, data: bytes, m: nat)
    requires PayloadIs(s, p, data, 0, m)
    ensures m >= 1 && (m - 1) * 0x10_0000 <= |data| <= m * 0x10_0000 && |p| == |data| + 25 * m
  {
  }

  lemma FirstTag(s: Session, secret: Secret, file: bytes, f: Frame, rest: bytes)
    requires HeaderIs(secret, file) && s.header == file[..HeaderLength(secret)]
    requires s.noncePrefix == PrefixIn(secret, file) && f.index == 0
    requires file[HeaderLength(secret)..] == FrameBytes(f) + rest
    ensures FirstTagHolds(s.suite, secret, s.key, s.aad, file) <==> TagValid(s, f)
  {
    var h, n := HeaderLength(secret), |f.ciphertext|;
    var p := file[h..];
    FrameParts(f, rest);
    HeadNumbers(p, 0, n, f.finalFlag);
    hide FrameBytes;
    ShiftedSlices(file, p, h, n);
    assert p[9 + n..][..16] == p[9 + n..25 + n];
    assert p[..9][..4] == p[..4] && p[..9][..4] == U32Bytes(0);
  }

  lemma ShiftedSlices(file: bytes, p: bytes, h: nat, n: nat)
    requires h <= |file| && p == file[h..] && |p| >= 25 + n
    ensures U32At(file, h + 4) == U32At(p, 4) && file[h..h + 4] == p[..4] && file[h..h + 9] == p[..9]
    ensures file[h + 9..h + 9 + n] == p[9..9 + n] && file[h + 9 + n..h + 25 + n] == p[9 + n..25 + n]
  {
  }
}
