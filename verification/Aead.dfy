/** The one-shot functions of `src/aead.cpp`, built on the packet objects. */
module Aead {
  import opened Bytes
  import opened Errors
  import opened Gcm
  import opened PacketStream
  import opened PacketTraces
  import opened PacketEmission

  /** What `encrypt` returns or throws when these OpenSSL failures occur and `nonce` is drawn. */
  function Encryption(suite: Suite, plaintext: bytes, key: Key, aad: bytes, nonce: Nonce,
                      begin: BeginFault, update: UpdateFault, finalize: FinalizeFault): Result<bytes>
  {
    if |aad| > INT_MAX then Err(InvalidInput)
    else if !begin.BeginWorks? then Err(BackendFailure)
    else if |plaintext| > INT_MAX then Err(InvalidInput)
    else if plaintext != [] && update.UpdateFails? then Err(BackendFailure)
    else if !finalize.FinalizeWorks? then Err(BackendFailure)
    else Ok(PacketBytes(suite, key, aad, nonce, plaintext))
  }

  predicate ValidPacket(packet: bytes)
  {
    |packet| >= OVERHEAD && ValidPrefix(packet[..PREFIX_SIZE])
  }

  function NonceOf(packet: bytes): Nonce
    requires |packet| >= OVERHEAD
  {
    packet[HEADER_SIZE..PREFIX_SIZE]
  }

  function CiphertextOf(packet: bytes): bytes
    requires |packet| >= OVERHEAD
  {
    packet[PREFIX_SIZE..|packet| - TAG_SIZE]
  }

  function TagOf(packet: bytes): Tag
    requires |packet| >= OVERHEAD
  {
    packet[|packet| - TAG_SIZE..]
  }

  /** What `decrypt` returns or throws. */
  function Decryption(suite: Suite, packet: bytes, key: Key, aad: bytes,
                      begin: BeginFault, update: UpdateFault, finalize: FinalizeFault): Result<bytes>
  {
    if !ValidPacket(packet) then Err(InvalidPacket)
    else if |aad| > INT_MAX then Err(InvalidInput)
    else if !begin.BeginWorks? then Err(BackendFailure)
    else
      var nonce, ciphertext, tag := NonceOf(packet), CiphertextOf(packet), TagOf(packet);
      if |ciphertext| > INT_MAX then Err(InvalidInput)
      else if ciphertext != [] && update.UpdateFails? then Err(BackendFailure)
      else if finalize.TagFails? then Err(BackendFailure)
      else if finalize.FinalFails? || tag != suite.mac(key, nonce, PacketAad(aad), ciphertext) then
        Err(AuthenticationFailed)
      else Ok(XorStream(suite, key, nonce, 0, ciphertext))
  }

  /** `encrypt`. */
  method Encrypt(suite: Suite, plaintext: bytes, key: Key, aad: bytes, nonce: Nonce,
                 begin: BeginFault, update: UpdateFault, finalize: FinalizeFault) returns (r: Result<bytes>)
    ensures r == Encryption(suite, plaintext, key, aad, nonce, begin, update, finalize)
  {
    var made := MakeEncryptor(suite, key, aad);
    if made.Err? {
      return Err(made.error);
    }
    var encryptor := made.value;
    var packet := encryptor.Begin(nonce, begin);
    if packet.Err? {
      return packet;
    }
    var ciphertext := encryptor.Update(plaintext, update);
    if ciphertext.Err? {
      return ciphertext;
    }
    assert ciphertext.value == XorStream(suite, key, nonce, 0, plaintext);
    assert [] + ciphertext.value == ciphertext.value;
    var tag := encryptor.Finalize(finalize);
    if tag.Err? {
      return tag;
    }
    return Ok(packet.value + ciphertext.value + tag.value);
  }

  /** `decrypt`. */
  method Decrypt(suite: Suite, packet: bytes, key: Key, aad: bytes,
                 begin: BeginFault, update: UpdateFault, finalize: FinalizeFault) returns (r: Result<bytes>)
    ensures r == Decryption(suite, packet, key, aad, begin, update, finalize)
  {
    if !ValidPacket(packet) {
      return Err(InvalidPacket);
    }
    var made := MakeDecryptor(suite, key, aad);
    if made.Err? {
      return Err(made.error);
    }
    var decryptor := made.value;
    assert packet[..PREFIX_SIZE][HEADER_SIZE..] == NonceOf(packet);
    var begun := decryptor.Begin(packet[..PREFIX_SIZE], begin);
    if begun.Err? {
      return begun;
    }
    var ciphertext := CiphertextOf(packet);
    assert [] + ciphertext == ciphertext;
    var plaintext := decryptor.Update(ciphertext, update);
    if plaintext.Err? {
      return plaintext;
    }
    assert plaintext.value == XorStream(suite, key, NonceOf(packet), 0, ciphertext);
    var trailing := decryptor.Finalize(TagOf(packet), finalize);
    if trailing.Err? {
      return trailing;
    }
    assert plaintext.value + [] == plaintext.value;
    return Ok(plaintext.value + trailing.value);
  }

  /** The parts of a packet are the ones it was put together from. */
  lemma PacketParts(suite: Suite, key: Key, aad: bytes, nonce: Nonce, plaintext: bytes)
    ensures var packet := PacketBytes(suite, key, aad, nonce, plaintext);
            && |packet| == OVERHEAD + |plaintext| && ValidPacket(packet) && NonceOf(packet) == nonce
            && CiphertextOf(packet) == XorStream(suite, key, nonce, 0, plaintext)
            && TagOf(packet) == suite.mac(key, nonce, PacketAad(aad), CiphertextOf(packet))
  {
    hide XorStream;
    var packet := PacketBytes(suite, key, aad, nonce, plaintext);
    assert packet[..PREFIX_SIZE] == PrefixBytes(nonce);
    assert PrefixBytes(nonce)[HEADER_SIZE..] == nonce;
    ValidPrefixExact(PrefixBytes(nonce));
    assert NonceOf(packet) == packet[..PREFIX_SIZE][HEADER_SIZE..];
  }

  lemma PacketJoin(packet: bytes)
    requires ValidPacket(packet)
    ensures packet == PrefixBytes(NonceOf(packet)) + CiphertextOf(packet) + TagOf(packet)
  {
    var prefix := packet[..PREFIX_SIZE];
    ValidPrefixExact(prefix);
    assert prefix[HEADER_SIZE..] == NonceOf(packet);
  }

  /**
    `decrypt` returns `plaintext` exactly for the packet `encrypt` builds from the packet's own nonce
    and that plaintext.
   */
  lemma DecryptExact(suite: Suite, packet: bytes, key: Key, aad: bytes, plaintext: bytes)
    requires |aad| <= INT_MAX && |packet| <= OVERHEAD + INT_MAX
    ensures Decryption(suite, packet, key, aad, BeginWorks, UpdateWorks, FinalizeWorks) == Ok(plaintext)
       <==> |packet| >= OVERHEAD && packet == PacketBytes(suite, key, aad, NonceOf(packet), plaintext)
  {
    if |packet| >= OVERHEAD {
      var nonce := NonceOf(packet);
      if packet == PacketBytes(suite, key, aad, nonce, plaintext) {
        PacketParts(suite, key, aad, nonce, plaintext);
        XorStreamCancels(suite, key, nonce, 0, plaintext);
      }
      if Decryption(suite, packet, key, aad, BeginWorks, UpdateWorks, FinalizeWorks) == Ok(plaintext) {
        PacketJoin(packet);
        XorStreamCancels(suite, key, nonce, 0, CiphertextOf(packet));
      }
    }
  }

  /** Accepted packets correspond one to one with pairs of nonce and plaintext. */
  lemma PacketsInjective(suite: Suite, key: Key, aad: bytes, nonce: Nonce, plaintext: bytes, nonce': Nonce,
                         plaintext': bytes)
    requires PacketBytes(suite, key, aad, nonce, plaintext) == PacketBytes(suite, key, aad, nonce', plaintext')
    ensures nonce == nonce' && plaintext == plaintext'
  {
    PacketParts(suite, key, aad, nonce, plaintext);
    PacketParts(suite, key, aad, nonce', plaintext');
    XorStreamInjective(suite, key, nonce, 0, plaintext, plaintext');
  }

  /**
    A packet streamed in updates that each keep the limit is opened in one shot exactly when its whole
    ciphertext keeps it too; otherwise `decrypt` throws `invalid_input`.
   */
  lemma StreamedPacketOneShot(suite: Suite, key: Key, aad: bytes, nonce: Nonce, parts: seq<bytes>)
    requires WithinUpdateLimit(parts) && |aad| <= INT_MAX
    ensures var calls := EncryptCalls(nonce, parts) + [EncryptFinalize(FinalizeWorks)];
            var packet := Emitted(EncryptorRun(suite, Fresh(key, aad), calls).1);
            Decryption(suite, packet, key, aad, BeginWorks, UpdateWorks, FinalizeWorks)
            == if |Flatten(parts)| <= INT_MAX then Ok(Flatten(parts)) else Err(InvalidInput)
  {
    hide EncryptorRun, EncryptCalls, XorStream;
    EncryptSplitIndependent(suite, key, aad, nonce, parts);
    PacketParts(suite, key, aad, nonce, Flatten(parts));
    XorStreamCancels(suite, key, nonce, 0, Flatten(parts));
  }

  /** What `encrypt` makes in one shot, the decrypting object accepts in any division. */
  lemma OneShotPacketStreams(suite: Suite, key: Key, aad: bytes, nonce: Nonce, plaintext: bytes, parts: seq<bytes>)
    requires Encryption(suite, plaintext, key, aad, nonce, BeginWorks, UpdateWorks, FinalizeWorks).Ok?
    requires var packet := Encryption(suite, plaintext, key, aad, nonce, BeginWorks, UpdateWorks, FinalizeWorks).value;
             |packet| >= OVERHEAD && Flatten(parts) == CiphertextOf(packet)
    requires WithinUpdateLimit(parts)
    ensures var packet := Encryption(suite, plaintext, key, aad, nonce, BeginWorks, UpdateWorks, FinalizeWorks).value;
            var calls := DecryptCalls(packet[..PREFIX_SIZE], parts) + [DecryptFinalize(TagOf(packet), FinalizeWorks)];
            var results := DecryptorRun(suite, Fresh(key, aad), calls).1;
            AllOk(results) && Emitted(results) == plaintext
  {
    hide DecryptorRun, DecryptCalls, XorStream;
    PacketParts(suite, key, aad, nonce, plaintext);
    var packet := PacketBytes(suite, key, aad, nonce, plaintext);
    assert packet[..PREFIX_SIZE] == PrefixBytes(nonce);
    DecryptSplitIndependent(suite, key, aad, nonce, plaintext, parts);
  }

  // ---------- The format, in bytes ----------

  /**
    The SKT1 format of `docs/FORMAT.md`: "SKT1", version 1, nonce, ciphertext, and the tag over these five
    bytes and the caller's associated data.
   */
  ghost predicate PacketIs(suite: Suite, key: Key, aad: bytes, packet: bytes, plaintext: bytes)
  {
    var n := |plaintext|;
    && |packet| == 33 + n
    && packet[..5] == [0x53, 0x4b, 0x54, 0x31, 0x01]
    && var nonce: Nonce := packet[5..17];
       && (forall i :: 0 <= i < n ==> packet[17 + i] == Xor(plaintext[i], suite.keystream(key, nonce, i)))
       && TagHolds(suite, key, aad, packet)
  }

  /** The last sixteen bytes are the tag of what is before them. */
  predicate TagHolds(suite: Suite, key: Key, aad: bytes, packet: bytes)
    requires |packet| >= 33
  {
    var n := |packet| - 16;
    packet[n..] == suite.mac(key, packet[5..17], packet[..5] + aad, packet[17..n])
  }

  /** The prefix check is about these five bytes. */
  predicate WellFormed(packet: bytes)
  {
    |packet| >= 33 && packet[..5] == [0x53, 0x4b, 0x54, 0x31, 0x01]
  }

  lemma WellFormedExact(packet: bytes)
    ensures ValidPacket(packet) <==> WellFormed(packet)
    ensures |packet| >= 33 ==>
              && NonceOf(packet) == packet[5..17] && CiphertextOf(packet) == packet[17..|packet| - 16]
              && TagOf(packet) == packet[|packet| - 16..]
  {
    if |packet| >= 33 {
      var prefix := packet[..17];
      assert prefix[..4] == packet[..4] && prefix[4] == packet[4] && packet[..5] == packet[..4] + [packet[4]];
      assert PACKET_HEADER[..4] == [0x53, 0x4b, 0x54, 0x31];
    }
  }

  lemma XorNumbers(suite: Suite, key: Key, nonce: Nonce, plaintext: bytes, c: bytes)
    requires |c| == |plaintext|
    ensures c == XorStream(suite, key, nonce, 0, plaintext)
       <==> forall i :: 0 <= i < |c| ==> c[i] == Xor(plaintext[i], suite.keystream(key, nonce, i))
  {
  }

  /** The packet of a nonce and a plaintext is the one packet of the format with this nonce in it. */
  lemma PacketBytesExact(suite: Suite, key: Key, aad: bytes, nonce: Nonce, plaintext: bytes, packet: bytes)
    ensures packet == PacketBytes(suite, key, aad, nonce, plaintext)
       <==> PacketIs(suite, key, aad, packet, plaintext) && packet[5..17] == nonce
  {
    var n := |plaintext|;
    if |packet| == 33 + n {
      var c := packet[17..17 + n];
      assert packet == packet[..5] + packet[5..17] + c + packet[17 + n..];
      assert forall i :: 0 <= i < n ==> c[i] == packet[17 + i];
      XorNumbers(suite, key, nonce, plaintext, c);
      assert PACKET_HEADER == [0x53, 0x4b, 0x54, 0x31, 0x01];
    }
    var made := PacketBytes(suite, key, aad, nonce, plaintext);
    assert made[..5] == PACKET_HEADER && made[5..17] == nonce;
    assert made[17..17 + n] == XorStream(suite, key, nonce, 0, plaintext);
    assert made[17 + n..] == suite.mac(key, nonce, PacketAad(aad), made[17..17 + n]);
  }

  /** When `encrypt` throws what, and what it returns otherwise; 0x7fff_ffff is the size limit of OpenSSL. */
  lemma EncryptionExact(suite: Suite, plaintext: bytes, key: Key, aad: bytes, nonce: Nonce,
                        begin: BeginFault, update: UpdateFault, finalize: FinalizeFault)
    ensures var r := Encryption(suite, plaintext, key, aad, nonce, begin, update, finalize);
            var large := |aad| > 0x7fff_ffff || (begin == BeginWorks && |plaintext| > 0x7fff_ffff);
            var works := && begin == BeginWorks && finalize == FinalizeWorks
                         && (plaintext == [] || update == UpdateWorks);
            && (r == Err(InvalidInput) <==> large)
            && (r == Err(BackendFailure) <==> !large && !works)
            && (r.Ok? <==> !large && works)
            && (r.Ok? ==> PacketIs(suite, key, aad, r.value, plaintext) && r.value[5..17] == nonce)
  {
    hide PacketIs, PacketBytes;
    var r := Encryption(suite, plaintext, key, aad, nonce, begin, update, finalize);
    if r.Ok? {
      PacketBytesExact(suite, key, aad, nonce, plaintext, r.value);
    }
  }

  /**
    When `decrypt` throws what, and what it returns otherwise: a packet without the five fixed bytes is
    `invalid_packet`, an oversized one `invalid_input`, a wrong tag `authentication_failed`.
   */
  lemma DecryptionExact(suite: Suite, packet: bytes, key: Key, aad: bytes,
                        begin: BeginFault, update: UpdateFault, finalize: FinalizeFault)
    ensures var r := Decryption(suite, packet, key, aad, begin, update, finalize);
            if !WellFormed(packet) then r == Err(InvalidPacket)
            else
              var n := |packet| - 33;
              var large := |aad| > 0x7fff_ffff || (begin == BeginWorks && n > 0x7fff_ffff);
              var works := begin == BeginWorks && !finalize.TagFails? && (n == 0 || update == UpdateWorks);
              && (r == Err(InvalidInput) <==> large)
              && (r == Err(BackendFailure) <==> !large && !works)
              && (r == Err(AuthenticationFailed) <==>
                    !large && works && (finalize == FinalFails || !TagHolds(suite, key, aad, packet)))
              && (r.Ok? <==> !large && works && finalize == FinalizeWorks && TagHolds(suite, key, aad, packet))
              && (r.Ok? ==> PacketIs(suite, key, aad, packet, r.value))
  {
    hide PacketIs, XorStream, PacketBytes;
    WellFormedExact(packet);
    if WellFormed(packet) {
      assert packet[..5] == PACKET_HEADER;
      var r := Decryption(suite, packet, key, aad, begin, update, finalize);
      if r.Ok? {
        PacketJoin(packet);
        XorStreamCancels(suite, key, NonceOf(packet), 0, CiphertextOf(packet));
        PacketMade(suite, packet, key, aad, r.value);
        PacketBytesExact(suite, key, aad, NonceOf(packet), r.value, packet);
      }
    }
  }

  lemma PacketMade(suite: Suite, packet: bytes, key: Key, aad: bytes, plaintext: bytes)
    requires ValidPacket(packet)
    requires XorStream(suite, key, NonceOf(packet), 0, plaintext) == CiphertextOf(packet)
    requires TagOf(packet) == suite.mac(key, NonceOf(packet), PacketAad(aad), CiphertextOf(packet))
    ensures packet == PacketBytes(suite, key, aad, NonceOf(packet), plaintext)
  {
    hide XorStream;
    PacketJoin(packet);
  }

  /** `decrypt` accepts exactly the packets of the format, and returns what they carry. */
  lemma DecryptFormat(suite: Suite, packet: bytes, key: Key, aad: bytes, plaintext: bytes)
    ensures Decryption(suite, packet, key, aad, BeginWorks, UpdateWorks, FinalizeWorks) == Ok(plaintext)
       <==> |aad| <= 0x7fff_ffff && |plaintext| <= 0x7fff_ffff && PacketIs(suite, key, aad, packet, plaintext)
  {
    hide PacketIs, PacketBytes, Decryption, TagHolds;
    DecryptionExact(suite, packet, key, aad, BeginWorks, UpdateWorks, FinalizeWorks);
    PacketIsSize(suite, key, aad, packet, plaintext);
    if |aad| <= 0x7fff_ffff && |packet| <= 33 + 0x7fff_ffff {
      DecryptExact(suite, packet, key, aad, plaintext);
      if |packet| >= 33 {
        WellFormedExact(packet);
        PacketBytesExact(suite, key, aad, NonceOf(packet), plaintext, packet);
      }
    }
    var r := Decryption(suite, packet, key, aad, BeginWorks, UpdateWorks, FinalizeWorks);
    if r.Ok? {
      PacketIsSize(suite, key, aad, packet, r.value);
    }
  }

  lemma PacketIsSize(suite: Suite, key: Key, aad: bytes, packet: bytes, plaintext: bytes)
    ensures PacketIs(suite, key, aad, packet, plaintext) ==> |packet| == 33 + |plaintext|
  {
  }

  /** Primitives whose tag is told apart by the associated data. */
  function TellingAad(aad: bytes): Suite
  {
    Suite((_, _, _) => 0, (_, _, a: bytes, _) => TagFor(a == [0x53, 0x4b, 0x54, 0x31, 0x01] + aad), (_, _, _) => None,
          (_, _, _, _, _) => None)
  }

  /**
    The tag covers the associated data: under primitives that tell associated data apart, a packet that opens
    with the data it was made with is `authentication_failed` with any other.
   */
  lemma OtherAadRefused(key: Key, aad: bytes, other: bytes, nonce: Nonce, plaintext: bytes)
    requires |aad| <= 0x7fff_ffff && |other| <= 0x7fff_ffff && |plaintext| <= 0x7fff_ffff && other != aad
    ensures var suite := TellingAad(aad);
            var made := Encryption(suite, plaintext, key, aad, nonce, BeginWorks, UpdateWorks, FinalizeWorks);
            && made.Ok?
            && Decryption(suite, made.value, key, aad, BeginWorks, UpdateWorks, FinalizeWorks) == Ok(plaintext)
            && Decryption(suite, made.value, key, other, BeginWorks, UpdateWorks, FinalizeWorks)
               == Err(AuthenticationFailed)
  {
    hide Encryption, Decryption;
    var suite := TellingAad(aad);
    EncryptionExact(suite, plaintext, key, aad, nonce, BeginWorks, UpdateWorks, FinalizeWorks);
    var packet := Encryption(suite, plaintext, key, aad, nonce, BeginWorks, UpdateWorks, FinalizeWorks).value;
    DecryptFormat(suite, packet, key, aad, plaintext);
    DecryptionExact(suite, packet, key, other, BeginWorks, UpdateWorks, FinalizeWorks);
    var header: bytes := packet[..5];
    assert (header + other)[5..] == other && (header + aad)[5..] == aad;
    assert suite.mac(key, packet[5..17], header + other, packet[17..|packet| - 16])[0] == 0;
    assert suite.mac(key, packet[5..17], header + aad, packet[17..|packet| - 16])[0] == 1;
  }
}
