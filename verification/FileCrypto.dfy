/**
  Headers, record headers, nonces, associated data and the chunk ciphers of the SKF1 and SKP1
  containers (`src/file_crypto.cpp`).
 */
module FileCrypto {
  import opened Bytes
  import opened Errors
  import opened Gcm

  const CHUNK_SIZE := 0x10_0000
  const SALT_SIZE := 32
  const NONCE_PREFIX_SIZE := 8
  const HEADER_SIZE := 50
  const PASSWORD_HEADER_SIZE := 64
  const RECORD_HEADER_SIZE := 9
  const NOT_FINAL := 0
  const FINAL := 1
  const SCRYPT_N := 32768
  const SCRYPT_R := 8
  const SCRYPT_P := 1

  /** "SKF1". */
  const MAGIC: bytes := [0x53, 0x4b, 0x46, 0x31]

  /** "SKP1". */
  const PASSWORD_MAGIC: bytes := [0x53, 0x4b, 0x50, 0x31]

  /** The HKDF label, in ASCII. */
  const FILE_KEY_INFO: bytes := Ascii("securekit file sealing v1")

  type Salt = s: bytes | |s| == SALT_SIZE witness seq(SALT_SIZE, _ => 0)
  type NoncePrefix = p: bytes | |p| == NONCE_PREFIX_SIZE witness seq(NONCE_PREFIX_SIZE, _ => 0)

  /** What `random_bytes` supplies for one header. */
  datatype Entropy = Entropy(salt: Salt, noncePrefix: NoncePrefix)

  datatype FileHeader = FileHeader(serialized: bytes, salt: Salt, noncePrefix: NoncePrefix)

  datatype RecordHeader = RecordHeader(serialized: bytes, index: u32, plaintextSize: u32, finalFlag: byte)

  datatype EncryptedChunk = EncryptedChunk(ciphertext: bytes, tag: Tag)

  /**
    Which OpenSSL call of one chunk fails: one that sets the context up, one between the associated
    data and the tag, or the closing `EVP_*Final_ex`.
   */
  datatype CipherFault = NoFault | SetupFault | UpdateFault | FinalFault

  function Ascii(text: string): (s: bytes)
    ensures |s| == |text|
  {
    seq(|text|, i requires 0 <= i < |text| => if text[i] as int < 0x100 then text[i] as int else 0)
  }

  // ---------- Layouts ----------

  function HeaderBytes(e: Entropy): (h: bytes)
    ensures |h| == HEADER_SIZE
  {
    MAGIC + [1, 1] + U32Bytes(CHUNK_SIZE) + e.salt + e.noncePrefix
  }

  function PasswordHeaderBytes(e: Entropy): (h: bytes)
    ensures |h| == PASSWORD_HEADER_SIZE
  {
    PASSWORD_MAGIC + [1, 1, 1, 0] + U32Bytes(CHUNK_SIZE) + e.salt + e.noncePrefix
    + (U32Bytes(SCRYPT_N) + U32Bytes(SCRYPT_R) + U32Bytes(SCRYPT_P))
  }

  function RecordBytes(index: u32, plaintextSize: u32, finalFlag: byte): (r: bytes)
    ensures |r| == RECORD_HEADER_SIZE
  {
    U32Bytes(index) + U32Bytes(plaintextSize) + [finalFlag]
  }

  function NonceBytes(prefix: NoncePrefix, index: u32): Nonce
  {
    prefix + U32Bytes(index)
  }

  function ChunkAad(header: bytes, record: bytes, callerAad: bytes): bytes
  {
    header + record + callerAad
  }

  // ---------- Building them in place ----------

  method MakeHeader(entropy: Option<Entropy>) returns (r: Result<FileHeader>)
    ensures r == match entropy
                 case None => Err(BackendFailure)
                 case Some(e) => Ok(FileHeader(HeaderBytes(e), e.salt, e.noncePrefix))
  {
    var h := new byte[HEADER_SIZE](_ => 0);
    CopyInto(h, 0, MAGIC);
    h[4] := 1;
    h[5] := 1;
    StoreU32(h, 6, CHUNK_SIZE);
    ghost var fixed: bytes := MAGIC + [1, 1] + U32Bytes(CHUNK_SIZE);
    assert h[..10] == fixed;
    match entropy
    case None => return Err(BackendFailure);
    case Some(e) =>
      CopyInto(h, 10, e.salt);
      assert h[..42] == fixed + e.salt;
      CopyInto(h, 42, e.noncePrefix);
      assert h[..] == fixed + e.salt + e.noncePrefix;
      return Ok(FileHeader(h[..], e.salt, e.noncePrefix));
  }

  method StoreScryptParameters(h: array<byte>)
    requires h.Length == PASSWORD_HEADER_SIZE
    modifies h
    ensures h[..52] == old(h[..52])
    ensures h[52..] == U32Bytes(SCRYPT_N) + U32Bytes(SCRYPT_R) + U32Bytes(SCRYPT_P)
  {
    StoreU32(h, 52, SCRYPT_N);
    StoreU32(h, 56, SCRYPT_R);
    StoreU32(h, 60, SCRYPT_P);
    assert h[52..56] == U32Bytes(SCRYPT_N) && h[56..60] == U32Bytes(SCRYPT_R) && h[60..] == U32Bytes(SCRYPT_P);
    assert h[52..] == h[52..56] + h[56..60] + h[60..];
  }

  method MakePasswordHeader(entropy: Option<Entropy>) returns (r: Result<FileHeader>)
    ensures r == match entropy
                 case None => Err(BackendFailure)
                 case Some(e) => Ok(FileHeader(PasswordHeaderBytes(e), e.salt, e.noncePrefix))
  {
    var h := new byte[PASSWORD_HEADER_SIZE](_ => 0);
    CopyInto(h, 0, PASSWORD_MAGIC);
    h[4], h[5], h[6], h[7] := 1, 1, 1, 0;
    StoreU32(h, 8, CHUNK_SIZE);
    ghost var fixed: bytes := PASSWORD_MAGIC + [1, 1, 1, 0] + U32Bytes(CHUNK_SIZE);
    assert h[..12] == fixed;
    match entropy
    case None => return Err(BackendFailure);
    case Some(e) =>
      CopyInto(h, 12, e.salt);
      assert h[..44] == fixed + e.salt;
      CopyInto(h, 44, e.noncePrefix);
      ghost var random := fixed + e.salt + e.noncePrefix;
      assert h[..52] == random;
      StoreScryptParameters(h);
      assert h[..] == random + h[52..];
      return Ok(FileHeader(h[..], e.salt, e.noncePrefix));
  }

  method MakeRecordHeader(index: u32, plaintextSize: u32, finalFlag: byte) returns (r: RecordHeader)
    ensures r == RecordHeader(RecordBytes(index, plaintextSize, finalFlag), index, plaintextSize, finalFlag)
  {
    var s := new byte[RECORD_HEADER_SIZE](_ => 0);
    StoreU32(s, 0, index);
    StoreU32(s, 4, plaintextSize);
    s[8] := finalFlag;
    assert s[..] == s[..4] + s[4..8] + [s[8]];
    r := RecordHeader(s[..], index, plaintextSize, finalFlag);
  }

  method MakeNonce(prefix: NoncePrefix, index: u32) returns (n: Nonce)
    ensures n == NonceBytes(prefix, index)
  {
    var s := new byte[NONCE_SIZE](_ => 0);
    CopyInto(s, 0, prefix);
    StoreU32(s, NONCE_PREFIX_SIZE, index);
    assert s[..] == s[..8] + s[8..];
    n := s[..];
  }

  // ---------- Parsing ----------

  function ParseHeader(data: bytes): Result<FileHeader>
    requires |data| == HEADER_SIZE
  {
    if data[..4] != MAGIC || data[4] != 1 || data[5] != 1 then Err(InvalidPacket)
    else if ReadU32(data[6..10]) != CHUNK_SIZE then Err(InvalidPacket)
    else Ok(FileHeader(data, data[10..42], data[42..50]))
  }

  function ParsePasswordHeader(data: bytes): Result<FileHeader>
    requires |data| == PASSWORD_HEADER_SIZE
  {
    if data[..4] != PASSWORD_MAGIC || data[4] != 1 || data[5] != 1 || data[6] != 1 || data[7] != 0 then
      Err(InvalidPacket)
    else if ReadU32(data[8..12]) != CHUNK_SIZE then Err(InvalidPacket)
    else if ReadU32(data[52..56]) != SCRYPT_N || ReadU32(data[56..60]) != SCRYPT_R
            || ReadU32(data[60..64]) != SCRYPT_P then
      Err(InvalidPacket)
    else Ok(FileHeader(data, data[12..44], data[44..52]))
  }

  function ParseRecordHeader(data: bytes): Result<RecordHeader>
    requires |data| == RECORD_HEADER_SIZE
  {
    var index := ReadU32(data[..4]);
    var plaintextSize := ReadU32(data[4..8]);
    var finalFlag := data[8];
    if finalFlag != NOT_FINAL && finalFlag != FINAL then Err(InvalidPacket)
    else if plaintextSize > CHUNK_SIZE then Err(InvalidPacket)
    else Ok(RecordHeader(data, index, plaintextSize, finalFlag))
  }

  lemma HeaderParts(e: Entropy)
    ensures var h := HeaderBytes(e);
            && h[..4] == MAGIC && h[4] == 1 && h[5] == 1
            && h[6..10] == U32Bytes(CHUNK_SIZE) && h[10..42] == e.salt && h[42..50] == e.noncePrefix
  {
  }

  /** The accepted SKF1 headers are exactly the made ones, and each yields the entropy it was made from. */
  lemma ParseHeaderExact(data: bytes, e: Entropy)
    requires |data| == HEADER_SIZE
    ensures ParseHeader(data) == Ok(FileHeader(data, e.salt, e.noncePrefix)) <==> data == HeaderBytes(e)
    ensures if exists e': Entropy :: data == HeaderBytes(e') then ParseHeader(data).Ok?
            else ParseHeader(data) == Err(InvalidPacket)
  {
    if ParseHeader(data).Ok? {
      var h := ParseHeader(data).value;
      assert data == data[..4] + [data[4], data[5]] + data[6..10] + data[10..42] + data[42..50];
      U32BytesOfRead(data[6..10]);
      assert data == HeaderBytes(Entropy(h.salt, h.noncePrefix));
    }
    forall e': Entropy | data == HeaderBytes(e')
      ensures ParseHeader(data) == Ok(FileHeader(data, e'.salt, e'.noncePrefix))
    {
      HeaderParts(e');
      ReadU32OfBytes(CHUNK_SIZE);
    }
  }

  lemma PasswordHeaderParts(e: Entropy)
    ensures var h := PasswordHeaderBytes(e);
            && h[..4] == PASSWORD_MAGIC && h[4] == 1 && h[5] == 1 && h[6] == 1 && h[7] == 0
            && h[8..12] == U32Bytes(CHUNK_SIZE) && h[12..44] == e.salt && h[44..52] == e.noncePrefix
            && h[52..56] == U32Bytes(SCRYPT_N) && h[56..60] == U32Bytes(SCRYPT_R) && h[60..64] == U32Bytes(SCRYPT_P)
  {
  }

  lemma PasswordHeaderJoin(h: bytes)
    requires |h| == PASSWORD_HEADER_SIZE
    ensures h == h[..4] + [h[4], h[5], h[6], h[7]] + h[8..12] + h[12..44] + h[44..52]
                 + (h[52..56] + h[56..60] + h[60..64])
  {
  }

  /** The same for SKP1. */
  lemma ParsePasswordHeaderExact(data: bytes, e: Entropy)
    requires |data| == PASSWORD_HEADER_SIZE
    ensures ParsePasswordHeader(data) == Ok(FileHeader(data, e.salt, e.noncePrefix)) <==> data == PasswordHeaderBytes(e)
    ensures if exists e': Entropy :: data == PasswordHeaderBytes(e') then ParsePasswordHeader(data).Ok?
            else ParsePasswordHeader(data) == Err(InvalidPacket)
  {
    if ParsePasswordHeader(data).Ok? {
      var h := ParsePasswordHeader(data).value;
      PasswordHeaderJoin(data);
      U32BytesOfRead(data[8..12]);
      U32BytesOfRead(data[52..56]);
      U32BytesOfRead(data[56..60]);
      U32BytesOfRead(data[60..64]);
      assert data == PasswordHeaderBytes(Entropy(h.salt, h.noncePrefix));
    }
    forall e': Entropy | data == PasswordHeaderBytes(e')
      ensures ParsePasswordHeader(data) == Ok(FileHeader(data, e'.salt, e'.noncePrefix))
    {
      PasswordHeaderParts(e');
      ReadU32OfBytes(CHUNK_SIZE);
      ReadU32OfBytes(SCRYPT_N);
      ReadU32OfBytes(SCRYPT_R);
      ReadU32OfBytes(SCRYPT_P);
    }
  }

  /** A record header is accepted exactly when it is a made one with a known flag and a size within a chunk. */
  lemma ParseRecordHeaderExact(data: bytes, index: u32, size: u32, flag: byte)
    requires |data| == RECORD_HEADER_SIZE
    ensures ParseRecordHeader(data) == Ok(RecordHeader(data, index, size, flag))
       <==> data == RecordBytes(index, size, flag) && size <= CHUNK_SIZE && flag in {NOT_FINAL, FINAL}
  {
    assert data == data[..4] + data[4..8] + [data[8]];
    U32BytesOfRead(data[..4]);
    U32BytesOfRead(data[4..8]);
    if data == RecordBytes(index, size, flag) {
      assert data[..4] == U32Bytes(index) && data[4..8] == U32Bytes(size) && data[8] == flag;
      ReadU32OfBytes(index);
      ReadU32OfBytes(size);
    }
  }

  lemma RecordBytesInjective(i: u32, n: u32, f: byte, j: u32, m: u32, g: byte)
    requires RecordBytes(i, n, f) == RecordBytes(j, m, g)
    ensures i == j && n == m && f == g
  {
    var r, q := RecordBytes(i, n, f), RecordBytes(j, m, g);
    assert r[..4] == U32Bytes(i) && r[4..8] == U32Bytes(n) && r[8] == f;
    assert q[..4] == U32Bytes(j) && q[4..8] == U32Bytes(m) && q[8] == g;
    U32BytesInjective(i, j);
    U32BytesInjective(n, m);
  }

  /** A header one of the two readers accepts. */
  predicate IsHeader(h: bytes)
  {
    || (|h| == HEADER_SIZE && ParseHeader(h).Ok?)
    || (|h| == PASSWORD_HEADER_SIZE && ParsePasswordHeader(h).Ok?)
  }

  /**
    The authenticated string determines header, record header and caller data, although the two
    formats have headers of different lengths: the third magic byte tells which one it is.
   */
  lemma ChunkAadInjective(h: bytes, r: bytes, a: bytes, h': bytes, r': bytes, a': bytes)
    requires IsHeader(h) && IsHeader(h')
    requires |r| == |r'| == RECORD_HEADER_SIZE
    requires ChunkAad(h, r, a) == ChunkAad(h', r', a')
    ensures h == h' && r == r' && a == a'
  {
    var s := ChunkAad(h, r, a);
    assert s[2] == h[2] && s[2] == h'[2];
    assert h[2] == h[..4][2] && h'[2] == h'[..4][2];
    assert |h| == |h'|;
    assert s[..|h|] == h && s[..|h|] == h';
    assert s[|h|..|h| + RECORD_HEADER_SIZE] == r && s[|h|..|h| + RECORD_HEADER_SIZE] == r';
    assert s[|h| + RECORD_HEADER_SIZE..] == a && s[|h| + RECORD_HEADER_SIZE..] == a';
  }

  /** Nonces of one file differ whenever the chunk indexes do. */
  lemma NonceInjective(prefix: NoncePrefix, i: u32, j: u32)
    requires NonceBytes(prefix, i) == NonceBytes(prefix, j)
    ensures i == j
  {
    assert NonceBytes(prefix, i)[8..] == U32Bytes(i) && NonceBytes(prefix, j)[8..] == U32Bytes(j);
    U32BytesInjective(i, j);
  }

  // ---------- Keys ----------

  function DeriveFileKey(suite: Suite, masterKey: Key, salt: Salt): Result<Key>
  {
    match suite.hkdf(masterKey, salt, FILE_KEY_INFO)
    case None => Err(BackendFailure)
    case Some(k) => Ok(k)
  }

  function DerivePasswordFileKey(suite: Suite, password: bytes, salt: Salt): Result<Key>
  {
    if password == [] then Err(InvalidInput)
    else match suite.scrypt(password, salt, SCRYPT_N, SCRYPT_R, SCRYPT_P)
         case None => Err(BackendFailure)
         case Some(k) => Ok(k)
  }

  // ---------- Chunk ciphers ----------

  /** What `encrypt_chunk` returns or throws when `fault` is what goes wrong inside OpenSSL. */
  function ChunkEncryption(suite: Suite, plaintext: bytes, key: Key, nonce: Nonce, aad: bytes,
                           fault: CipherFault): Result<EncryptedChunk>
  {
    if |plaintext| > INT_MAX then Err(InvalidInput)
    else if fault.SetupFault? then Err(BackendFailure)
    else if |aad| > INT_MAX then Err(InvalidInput)
    else if !fault.NoFault? then Err(BackendFailure)
    else
      var ciphertext := XorStream(suite, key, nonce, 0, plaintext);
      Ok(EncryptedChunk(ciphertext, suite.mac(key, nonce, aad, ciphertext)))
  }

  /** What `decrypt_chunk` returns or throws. A failing `EVP_DecryptFinal_ex` always reads as a wrong tag. */
  function ChunkDecryption(suite: Suite, ciphertext: bytes, tag: Tag, key: Key, nonce: Nonce, aad: bytes,
                           fault: CipherFault): Result<bytes>
  {
    if |ciphertext| > INT_MAX then Err(InvalidInput)
    else if fault.SetupFault? then Err(BackendFailure)
    else if |aad| > INT_MAX then Err(InvalidInput)
    else if fault.UpdateFault? then Err(BackendFailure)
    else if fault.FinalFault? || tag != suite.mac(key, nonce, aad, ciphertext) then Err(AuthenticationFailed)
    else Ok(XorStream(suite, key, nonce, 0, ciphertext))
  }

  method EncryptChunk(suite: Suite, plaintext: bytes, key: Key, nonce: Nonce, aad: bytes, fault: CipherFault)
    returns (r: Result<EncryptedChunk>)
    ensures r == ChunkEncryption(suite, plaintext, key, nonce, aad, fault)
  {
    if |plaintext| > INT_MAX {
      return Err(InvalidInput);
    }
    if fault.SetupFault? {
      return Err(BackendFailure);
    }
    var context := new CipherContext(suite, key, nonce);
    if |aad| > INT_MAX {
      return Err(InvalidInput);
    }
    context.UpdateAad(aad);
    var ciphertext: bytes := [];
    if |plaintext| > 0 {
      ciphertext := context.EncryptUpdate(plaintext);
    }
    if !fault.NoFault? {
      return Err(BackendFailure);
    }
    assert ciphertext == XorStream(suite, key, nonce, 0, plaintext) && context.View().ciphertext == ciphertext;
    assert context.aad == aad;
    return Ok(EncryptedChunk(ciphertext, context.FinalTag()));
  }

  method DecryptChunk(suite: Suite, ciphertext: bytes, tag: Tag, key: Key, nonce: Nonce, aad: bytes, fault: CipherFault)
    returns (r: Result<bytes>)
    ensures r == ChunkDecryption(suite, ciphertext, tag, key, nonce, aad, fault)
  {
    if |ciphertext| > INT_MAX {
      return Err(InvalidInput);
    }
    if fault.SetupFault? {
      return Err(BackendFailure);
    }
    var context := new CipherContext(suite, key, nonce);
    if |aad| > INT_MAX {
      return Err(InvalidInput);
    }
    context.UpdateAad(aad);
    var plaintext: bytes := [];
    if |ciphertext| > 0 {
      plaintext := context.DecryptUpdate(ciphertext);
    }
    if fault.UpdateFault? {
      return Err(BackendFailure);
    }
    assert plaintext == XorStream(suite, key, nonce, 0, ciphertext) && context.View().ciphertext == ciphertext;
    assert context.aad == aad;
    if fault.FinalFault? || tag != context.FinalTag() {
      return Err(AuthenticationFailed);
    }
    return Ok(plaintext);
  }

  /** When `encrypt_chunk` throws what, and what it returns otherwise; 0x7fff_ffff is the size limit of OpenSSL. */
  lemma ChunkEncryptionExact(suite: Suite, plaintext: bytes, key: Key, nonce: Nonce, aad: bytes, fault: CipherFault)
    ensures var r := ChunkEncryption(suite, plaintext, key, nonce, aad, fault);
            var fits := |plaintext| <= 0x7fff_ffff;
            && (r == Err(InvalidInput) <==> !fits || (fault != SetupFault && |aad| > 0x7fff_ffff))
            && (r == Err(BackendFailure) <==>
                  fits && (fault == SetupFault || (|aad| <= 0x7fff_ffff && fault != NoFault)))
            && (r.Ok? <==> fits && |aad| <= 0x7fff_ffff && fault == NoFault)
            && (r.Ok? ==>
                  && |r.value.ciphertext| == |plaintext|
                  && (forall i :: 0 <= i < |plaintext| ==>
                        r.value.ciphertext[i] == Xor(plaintext[i], suite.keystream(key, nonce, i)))
                  && r.value.tag == suite.mac(key, nonce, aad, r.value.ciphertext))
  {
  }

  /** The same for `decrypt_chunk`; only a wrong tag or the closing call make it `authentication_failed`. */
  lemma ChunkDecryptionExact(suite: Suite, ciphertext: bytes, tag: Tag, key: Key, nonce: Nonce, aad: bytes,
                             fault: CipherFault)
    ensures var r := ChunkDecryption(suite, ciphertext, tag, key, nonce, aad, fault);
            var fits, genuine := |ciphertext| <= 0x7fff_ffff, tag == suite.mac(key, nonce, aad, ciphertext);
            && (r == Err(InvalidInput) <==> !fits || (fault != SetupFault && |aad| > 0x7fff_ffff))
            && (r == Err(BackendFailure) <==>
                  fits && (fault == SetupFault || (|aad| <= 0x7fff_ffff && fault == UpdateFault)))
            && (r == Err(AuthenticationFailed) <==>
                  fits && |aad| <= 0x7fff_ffff && (fault == FinalFault || (fault == NoFault && !genuine)))
            && (r.Ok? <==> fits && |aad| <= 0x7fff_ffff && fault == NoFault && genuine)
            && (r.Ok? ==>
                  && |r.value| == |ciphertext|
                  && forall i :: 0 <= i < |ciphertext| ==>
                       r.value[i] == Xor(ciphertext[i], suite.keystream(key, nonce, i)))
  {
  }
}
