# SecureKit: a verified model of its formats, commit protocol and codecs

This Dafny project models four parts of the SecureKit C++ library and proves what they promise.

1. **The SKF1 and SKP1 containers** (`src/file.cpp`, `src/file_crypto.cpp`, the stream helpers of `src/file_io.cpp`).
   Files are sealed in chunks of 1 MiB; each record carries a 32-bit index, a size, a final flag, ciphertext and a tag.
   Modules `Bytes`, `Gcm`, `FileCrypto`, `Streams`, `Container`, `Framing`, `Opening`, `Sealing`, `Integrity`,
   `PayloadLoops`, `SealedFile`, `FileFormat`.
2. **The commit protocol of the path overloads** (`src/file_io.cpp`, POSIX branch, with the `try`/`catch` structure of
   `src/file.cpp`). Modules `PathCommit`, `PathSafety`, `PathRuns`, `PathOverloads`.
3. **SKT1 packets** (`src/packet_stream.cpp`, `src/aead_internal.hpp`, `src/aead.cpp`). Modules `PacketStream`,
   `PacketTraces`, `PacketEmission`, `PacketStore`, `Aead`.
4. **Base64 and Base64URL** (`src/base64.cpp`). Module `Base64`.

`dafny verify dfyconfig.toml` checks everything.

## How it is built

- **Code and specification.** Every loop, in-place buffer and stateful object of the source is a method or a class, and
  each is proved equal to a function: `SealStreamPayload` to `Container.SealFrom`, `OpenFilePayload` to
  `Container.OpenFrom`, the packet objects to `EncryptorStep` and `DecryptorStep`, the Base64 loops to `Encoding` and
  `Decoding`, the path overloads to steps of the state machine `PathCommit.Apply`. The theorems are about these functions,
  and through the methods about the code.
- **Definitions of their own.** What the functions compute is also stated without them: the file and packet formats of
  `docs/FORMAT.md` byte by byte and in numbers (`FileFormat.FileIs`, `Aead.PacketIs`), the tables and texts of RFC 4648
  (`Base64.TextIs`, `Base64.UrlTextIs`), xor and or bit by bit, and which error code each failure has. Each is proved to
  be what the code does, in both directions.
- **Cryptography.** The AES-GCM keystream, the tag, HKDF and scrypt are arbitrary functions, packed into `Gcm.Suite`.
  There is no axiom about them: encryption xors the keystream and tags, decryption compares the tag and xors
  (sections 7.1 and 7.2 of NIST SP 800-38D), and every theorem holds for every choice of the functions.
- **Failures.** Which OpenSSL call of a chunk or of a packet call fails, whether `random_bytes` fails, where an input
  stream faults and how much a sink takes are parameters, and the theorems range over all of them. File system calls
  succeed or fail by nondeterministic choice, except that those of a `reliable` run work; which code a run reports is
  determined when its calls work.
- **Integers.** Bytes are integers from 0 to 255 and 32-bit counters wrap explicitly. Shifts are products and quotients
  by powers of two, masks of low bits are remainders, and `|` is defined bit by bit; `Bytes.BitOrDisjoint` is what turns
  it into a sum.
- **Concurrency.** `PathCommit` interleaves any number of runs, and an environment that creates files, at the
  granularity of system calls. `PathOverloads` is the code of one run, with arbitrary steps of the others between any two
  of its own calls.

## What turned out

- *Temporary files can stay behind.* `README.md:701-702` of the library says that path-based calls remove their temporary
  output after failures. When `fdopen` fails after the exclusive create (`src/file_io.cpp:226-231`), the call throws
  before it enters its `try` block (`src/file.cpp:87-89`), and the file it created is left in place.
  `PathRuns.LeftBehindExactly` proves that this and removals that all fail are exactly the cases; `PathRuns.FdopenLeaks`
  is the concrete run.
- *The temporary name may be removed twice.* After a directory sync failure the cleanup removes a name the run has given
  up already, and which another run that drew the same token may hold by then. That is harmless: the second removal
  happens only behind a link, from then on no other run can link, and until then the exclusive create protects every
  name. So the commit protocol is safe for arbitrary tokens, repeated ones included (`PathSafety.CommitSafety`). Only
  who leaves a temporary file behind depends on them (`PathRuns.SharedNameRemoved`).
- *Two framings.* A plaintext whose length is a positive multiple of 1 MiB below 2^52 has exactly two accepted files,
  because the reader also takes an empty final record behind full ones (`Integrity.ExactFraming`). Sealing always makes
  the shorter one.
- *Streamed packets may be too long for one shot.* A packet streamed in updates that each keep the OpenSSL limit is opened
  by `decrypt` exactly if its whole ciphertext keeps it too (`Aead.StreamedPacketOneShot`).
- *A failed update does not end an object.* It stays active and can be finalized. The packet a finished encryptor has
  emitted is that of the data its successful updates were given, whatever the primitives are, if and only if no update
  that returned `backend_failure` had made OpenSSL absorb anything (`PacketEmission.EmitsPacketExactly`); the same
  condition decides whether a decryptor accepts only the packet of what it has handed out
  (`PacketEmission.AcceptsPacketExactly`).
- *The second canonical check of Base64URL decoding never fires* (`Base64.SecondCheckRedundant`).

## Model

| member | source | states |
|---|---|---|
| `Bytes.ReadU32IsOr` | src/file_crypto.cpp:73-79 | the or of the four shifted bytes is the big-endian value |
| `Bytes.ReadU32OfBytes` | src/file_crypto.cpp:65-79 | reading undoes storing, for all 2^32 values |
| `Bytes.U32BytesOfRead` | src/file_crypto.cpp:65-79 | storing undoes reading, for all four bytes |
| `Bytes.StoreU32` | src/file_crypto.cpp:65-71 | the in-place store writes the four bytes and nothing else |
| `Bytes.XorBitsBit` | src/file_crypto.cpp:329-334 | every bit of the exclusive or is set if and only if the bits of the operands differ |
| `Bytes.XorExact` | src/file_crypto.cpp:329-334 | the eight bits of the exclusive or of two bytes; zero gives the other byte |
| `Bytes.XorCancels` | src/file_crypto.cpp:378-383 | exclusive or with the same byte twice gives the byte back |
| `Bytes.BitOrBit` | src/file_crypto.cpp:73-79 | every bit of the or is set if and only if a bit of the operands is |
| `Gcm.XorStreamCancels` | src/file_crypto.cpp:378-383 | decrypting with the keystream that encrypted restores any data at any stream position |
| `Gcm.XorStreamExact` | src/file_crypto.cpp:329-334 | each byte of the result is that of the data with the bits flipped that are set in the keystream; zeros give the keystream itself |
| `Gcm.XorStreamSplit` | src/packet_stream.cpp:29-55 | enciphering in two pieces at consecutive positions is enciphering the concatenation |
| `FileCrypto.MakeHeader` | src/file_crypto.cpp:129-144 | the buffer filled in place is magic, version, algorithm, chunk size, salt, nonce prefix; failing randomness is backend_failure |
| `FileCrypto.MakePasswordHeader` | src/file_crypto.cpp:165-185 | the same for SKP1 with its KDF and flag bytes and the three scrypt parameters |
| `FileCrypto.StoreScryptParameters` | src/file_crypto.cpp:181-183 | the last twelve bytes are the parameters, the first 52 stay |
| `FileCrypto.ParseHeaderExact` | src/file_crypto.cpp:129-163 | a 50-byte string is accepted if and only if it is a made header, yields the salt and prefix it was made from, and otherwise is invalid_packet: a bijection between accepted headers and salt and prefix |
| `FileCrypto.ParsePasswordHeaderExact` | src/file_crypto.cpp:165-213 | the same bijection for the 64-byte SKP1 header |
| `FileCrypto.MakeRecordHeader` | src/file_crypto.cpp:263-273 | the nine bytes filled in place are index, size and flag |
| `FileCrypto.ParseRecordHeaderExact` | src/file_crypto.cpp:263-291 | a record header is accepted with given fields if and only if it is the made one for them, the flag is known and the size is within a chunk |
| `FileCrypto.RecordBytesInjective` | src/file_crypto.cpp:263-273 | different fields give different record headers |
| `FileCrypto.MakeNonce` | src/file_crypto.cpp:255-261 | the twelve bytes are prefix and big-endian index |
| `FileCrypto.NonceInjective` | src/file_crypto.cpp:255-261 | equal nonces of one file have equal indexes |
| `FileCrypto.ChunkAadInjective` | src/file_crypto.cpp:293-304 | the authenticated string determines header, record header and caller data, across both formats with their different header lengths |
| `FileCrypto.EncryptChunk` | src/file_crypto.cpp:306-353 | result and error code for every size and every OpenSSL failure, in the order the checks are made |
| `FileCrypto.DecryptChunk` | src/file_crypto.cpp:355-406 | the same for decryption; a wrong tag and a failing closing call are authentication_failed |
| `FileCrypto.ChunkEncryptionExact` | src/file_crypto.cpp:306-353 | exactly when encrypting a chunk throws which code; otherwise the bytes and the tag |
| `FileCrypto.ChunkDecryptionExact` | src/file_crypto.cpp:355-406 | exactly when decrypting a chunk throws which code, authentication_failed only for a wrong tag or a failing closing call; otherwise the bytes |
| `Streams.InputStream.Read` | src/file.cpp:39-48 | what read delivers and how it leaves the three state bits, for a stream that ends or faults, with any part of the bytes before the fault lost |
| `Streams.InputStream.PeekIsEof` | src/file.cpp:52-59 | peek consumes nothing and meets the end exactly when no byte is left |
| `Streams.OutputStream.WriteAll` | src/file_io.cpp:130-142 | the sink gets the data as far as it has room, and a short write throws |
| `Streams.FittingExact` | src/file_io.cpp:130-142 | a sink takes all bytes, or as many of the first ones as it has room for |
| `Streams.ReadExact` | src/file_io.cpp:144-156 | exactly n bytes, or false at a proper end, or backend_failure at a fault |
| `Streams.RejectTrailingData` | src/file_io.cpp:158-170 | invalid_packet if a byte follows, backend_failure if a fault does, else success |
| `Framing.ReadRecordExact` | src/file.cpp:120-148 | one turn of the reading loop takes a record if and only if the input starts with the bytes of that record, its index is the expected one, and a final record is followed by the proper end |
| `Framing.RejectionExact` | src/file.cpp:120-148 | every other turn rejects, with backend_failure if and only if the stream faults before the record header is complete, or where a record with an acceptable header would go on or has to end, and with invalid_packet otherwise |
| `Framing.FrameBytesPrefixFree` | src/file.cpp:66-68 | a record determines where it ends |
| `Framing.SerializeCompare` | src/file.cpp:37-76 | two record streams that agree as far as they go are one a prefix of the other, record by record |
| `Framing.FramedPrefixFree` | src/file.cpp:118-162 | no complete record sequence continues into another complete one |
| `Framing.NonFinalHasNoFramedPrefix` | src/file.cpp:118-162 | a run of non-final records, cut anywhere, holds no complete sequence |
| `Opening.OpenSound` | src/file.cpp:116-163 | success means that the input is a complete sequence of authentic records and the output their plaintext, under every OpenSSL behaviour |
| `Opening.OpenComplete` | src/file.cpp:116-163 | every complete authentic sequence is accepted |
| `Opening.OpenRefinesSpecification` | src/file.cpp:107-163 | the loop accepts a payload if and only if the declarative specification does, and then writes what that says |
| `Opening.AcceptedPrefixFree` | src/file.cpp:145-148 | accepted payloads are prefix-free, across keys and associated data |
| `Opening.OpenFailure` | src/file.cpp:118-162 | a failing run has written exactly the plaintext of the authentic non-final records before the first offending one, whose check fixes the code |
| `Opening.OpenStops` | src/file.cpp:118-162 | conversely the first offending record determines code and output |
| `Opening.TagFailureExact` | src/file.cpp:120-152 | authentication_failed is reported if and only if the first bad record is structurally perfect, trailing data included, and only its tag is wrong |
| `Sealing.ChunksExact` | src/file.cpp:39-59 | the chunks read are full but for the last, concatenate to the input, and number max(1, ceil(n / 2^20)) |
| `Sealing.LayoutUnique` | src/file.cpp:50-59 | two divisions into equally many chunks are the same division |
| `Sealing.SealFrameExact` | src/file.cpp:60-68 | a sealed record has the given index, flag and length, a valid tag, and decrypts to its chunk |
| `Sealing.AuthenticFrameIsSealed` | src/file.cpp:150-152 | an authentic record is the one sealing makes for its plaintext |
| `Sealing.SealedFramesAuthentic` | src/file.cpp:37-76 | the records of any division are a complete authentic sequence that carries it |
| `Sealing.AuthenticFramesAreSealed` | src/file.cpp:116-163 | every complete authentic sequence is the sealed records of its own plaintext |
| `Sealing.SealSound` | src/file.cpp:37-76 | a run that ends well wrote the records of exactly the chunks of its input |
| `Sealing.SealFailure` | src/file.cpp:37-76 | a run that throws wrote non-final records only, numbered without gaps |
| `Sealing.SealNumbered` | src/file.cpp:35-76 | every run, failing ones included, uses pairwise distinct nonces and never wraps the index |
| `Sealing.SealExhausts` | src/file.cpp:71-75 | beyond 2^52 bytes the run throws invalid_input behind the record with index 2^32-1 |
| `Sealing.SealSucceedsExactly` | src/file.cpp:32-76 | with a working OpenSSL a run succeeds if and only if the input does not fault, the associated data fits and there are at most 2^52 bytes |
| `Sealing.SealEnds` | src/file.cpp:37-76 | with a working OpenSSL, which code a run throws: backend_failure for an input fault, invalid_input for oversized associated data or more than 2^52 bytes, whichever is met first |
| `Integrity.LayoutOpens` | src/file.cpp:116-163 | the records of any admissible division open to that division |
| `Integrity.RoundTrip` | src/file.cpp:32-163 | opening what a successful run wrote returns its input, with independent OpenSSL behaviour on both sides |
| `Integrity.TwoLayouts` | src/file.cpp:130-133 | a division of given data is the one sealing makes or the one with an empty last chunk |
| `Integrity.ExactFraming` | src/file.cpp:51-60 | under a fixed header, key and associated data a plaintext has exactly one accepted payload, or exactly two if its length is a positive multiple of 1 MiB below 2^52 |
| `Integrity.FramingSizes` | src/file.cpp:51-68 | the payload sealing writes has n + 25 * max(1, ceil(n / 2^20)) bytes and is 25 shorter than the other one |
| `Integrity.SealedSize` | src/file.cpp:66-68 | every record costs 25 bytes |
| `Integrity.PartialOutputRejected` | src/file.cpp:37-75 | records of a run that threw, and output cut short anywhere, are never accepted, with any key, header, associated data or OpenSSL behaviour |
| `Integrity.ProducedIsInPlace` | src/file_crypto.cpp:255-304 | a verified tuple some run produced is the record with that very index of that run |
| `Integrity.NoSplicing` | src/file.cpp:118-161 | a complete sequence made of records of runs with different headers is all records, in order, of one successful run |
| `Integrity.WholeRunIsProduced` | src/file.cpp:37-76 | conversely the records of one successful run are such a sequence |
| `Integrity.FinalRecordEndsRun` | src/file.cpp:70-75 | a final record is the last one of a run that ended well |
| `PayloadLoops.WriteRecord` | src/file.cpp:66-68 | the three writes put the record out as far as the sink has room |
| `PayloadLoops.NextRecord` | src/file.cpp:39-64 | reading, peeking and encrypting one chunk is one turn of the specification and leaves the rest of the input |
| `PayloadLoops.SealStreamPayload` | src/file.cpp:23-77 | for every input stream, fault and sink the loop writes and returns what the specification says |
| `PayloadLoops.NextReading` | src/file.cpp:120-148 | the structural checks, in order, on the stream |
| `PayloadLoops.NextChunk` | src/file.cpp:120-152 | one record read, checked and decrypted |
| `PayloadLoops.OpenFilePayload` | src/file.cpp:107-163 | for every input stream, fault and sink the loop has written exactly the chunks authenticated so far and returns what the specification says |
| `PayloadLoops.TakesExactly` | src/file.cpp:154 | the chunks fit if and only if there are none or the sink is good and has room for all of them |
| `SealedFile.SealFile` | src/file.cpp:181-260 | both stream sealing overloads: checks, header, key derivation and payload in order; a full sink is backend_failure |
| `SealedFile.OpenFile` | src/file.cpp:221-316 | both stream opening overloads: what arrives in the sink and how the call ends, for every stream and sink |
| `SealedFile.SessionsAgree` | src/file.cpp:221-233 | reading the header of a sealed file derives the key, nonce prefix and associated data it was sealed with |
| `SealedFile.OpenFileExact` | src/file.cpp:107-316 | a file is accepted if and only if it is a valid header followed by a complete sequence of authentic records and nothing else; the output is their plaintext |
| `SealedFile.SealedFileOpens` | src/file.cpp:181-316 | whatever a successful call wrote opens to its input |
| `SealedFile.FileRoundTrip` | src/file.cpp:181-316 | for both formats, every plaintext of at most 2^52 bytes and all associated data that fits, sealing succeeds and opening returns the plaintext |
| `SealedFile.SealedFileSize` | src/file.cpp:181-260 | a successful call had at most 2^52 bytes to seal and wrote header size + n + 25 * max(1, ceil(n / 2^20)) bytes |
| `SealedFile.PartialFileRejected` | src/file.cpp:37-75 | output of a failed call, or cut by a full sink, is rejected by both readers, whatever they are given |
| `SealedFile.SameFormat` | src/file_crypto.cpp:146-213 | a reader that accepts a header at the front of sealed bytes is the reader of that format |
| `SealedFile.FilesPrefixFree` | src/file.cpp:145-148 | no accepted file is a proper prefix of another, across formats, secrets and associated data |
| `SealedFile.NoSplicedFile` | src/file.cpp:118-161 | if opening verifies only tuples that runs with pairwise different headers produced, the file is byte for byte the complete output of one of them and opens to what that run sealed |
| `SealedFile.OwnFileIsProduced` | src/file.cpp:118-161 | conversely the complete output of each run is accepted and meets that condition |
| `FileFormat.HeadersExact` | docs/FORMAT.md:64-129 | a made header is one of the format, in numbers, with salt and nonce prefix at their offsets, and conversely |
| `FileFormat.SealSessionKey` | src/file_crypto.cpp:215-253 | the key of a seal call is HKDF of the key, or scrypt of the password with 32768, 8 and 1, with the salt that is in the header, and the label in its 25 bytes |
| `FileFormat.OpenSessionKey` | src/file_crypto.cpp:215-253 | the same for an open call and the header bytes it has read |
| `FileFormat.RecordExact` | docs/FORMAT.md:75-95 | a sealed record is that of the format: big-endian index and size, flag 0 or 1, ciphertext byte by byte, tag over header, record header and associated data in this order, nonce from prefix and index in this order |
| `FileFormat.PayloadExact` | docs/FORMAT.md:75-107 | the records of any division, in bytes, are at multiples of 2^20 + 25 and nothing else is there |
| `FileFormat.SealedFileIs` | src/file.cpp:181-260 | what a successful seal call writes is a file of the format with max(1, ceil(n / 2^20)) records |
| `FileFormat.FormatExact` | docs/FORMAT.md:58-151 | the readers open a file to given data if and only if its bytes are those the format says, for both formats |
| `FileFormat.SealSessionCodes` | src/file.cpp:181-260 | sealing throws before it writes if and only if the password is empty (invalid_input), or randomness or key derivation fails (backend_failure) |
| `FileFormat.OpenSessionCodes` | src/file.cpp:221-316 | opening throws before it reads a record exactly for an empty password (invalid_input), a short or foreign header (invalid_packet), a fault within the header or a failing key derivation (backend_failure) |
| `FileFormat.SealFileEnds` | src/file.cpp:181-260 | with a working OpenSSL, how a whole seal call ends, by its arguments alone |
| `FileFormat.OtherSecretRefused` | docs/FORMAT.md:146-151 | another key or password, or other associated data, under which the first tag does not hold gives authentication_failed and no output |
| `PathCommit.TempPathLayout` | src/file_io.cpp:237-256 | the temporary name is the output path, `.securekit.`, 32 lower-case hex digits with the high one of each byte first, `.tmp` |
| `PathCommit.HexInjective` | src/file_io.cpp:245-250 | different tokens have different hex digits |
| `PathCommit.TempPathsDistinct` | src/file_io.cpp:237-256 | different tokens give different temporary names, none of them the output path |
| `PathCommit.CreateTempKeeps` | src/file_io.cpp:192-235 | exclusive creation, in all its outcomes and with any token, keeps the invariant |
| `PathCommit.NameBeforeLink` | src/file_io.cpp:335-346 | as long as the output path is free a run that holds a temporary name really has it, whatever tokens others drew |
| `PathCommit.LinkKeeps` | src/file_io.cpp:335-346 | linking keeps the invariant |
| `PathCommit.UnlinkKeeps` | src/file_io.cpp:316-320 | so does removing a temporary name, also a second time when it has become that of another run |
| `PathCommit.StepKeepsInv` | src/file.cpp:79-105 | every step of every run, with arbitrary tokens, and of the environment keeps the invariant |
| `PathSafety.StepKeepsOrdinary` | src/file_io.cpp:283-346 | no step removes, replaces or alters a file at a path that is not a temporary name |
| `PathSafety.CommitSafety` | src/file_io.cpp:283-346 | under every interleaving and for all tokens: existing files stay as they are, at most one run links its file at the output path and none if a file was there, and whenever that path names a run's file it is the complete payload, flushed and closed |
| `PathSafety.LinkedForGood` | src/file_io.cpp:336-341 | once linked, the complete file stays at the output path whatever happens later |
| `PathSafety.RunEnds` | src/file.cpp:87-104 | all or nothing when a run ends, under every interleaving: a return means its complete file is at the output path, an exception that nothing of it is there, or that the complete file is and the code is backend_failure |
| `PathRuns.LeftBehindExactly` | src/file.cpp:87-104 | a temporary file stays behind only if fdopen failed behind its creation or every attempt to remove its name failed, and then it does unless a run that linked had drawn the same token |
| `PathRuns.FailsInPlaceExactly` | src/file_io.cpp:336-341 | a run throws with its file in place if and only if its directory sync failed |
| `PathRuns.FailsForReason` | src/file.cpp:79-105 | under every interleaving a run throws invalid_input only if the output path exists, backend_failure only if one of its system calls failed, it found 32 temporary names taken, or a run that linked removed the name they shared; any other code, or one of these for another reason, is that of its header, key derivation or payload loop |
| `PathRuns.CountsAfter` | src/file_io.cpp:299-313 | each exclusive create that meets an existing file is counted once |
| `PathRuns.RunSucceeds` | src/file.cpp:79-105 | wherever the output path is free a run whose calls all work finishes with its complete file there, no temporary name, and everything else as it was |
| `PathRuns.FdopenLeaks` | src/file_io.cpp:226-231 | a run in which only fdopen fails throws and leaves its temporary file |
| `PathRuns.SharedNameRemoved` | src/file_io.cpp:316-341 | two runs with the same token: the cleanup of one removes the file that fdopen left behind for the other |
| `PathOverloads.Kernel.Do` | src/file_io.cpp:336-339 | a system call is one step of the protocol and keeps everything the protocol keeps |
| `PathOverloads.Kernel.Others` | src/file_io.cpp:192-346 | any number of steps of others, with any tokens, leave the run, its file and a file at the output path alone |
| `PathOverloads.EnsureOutputDoesNotExist` | src/file_io.cpp:283-295 | invalid_input means that the output exists, a return that it does not; backend_failure only when the check fails |
| `PathOverloads.TryOpenOutputExclusive` | src/file_io.cpp:192-235 | opened, already there, or failed, and the stage each leads to; failed only when a call fails |
| `PathOverloads.DrawToken` | src/file_io.cpp:237-242 | any token, or backend_failure when random_bytes fails |
| `PathOverloads.OpenUniqueTempOutput` | src/file_io.cpp:297-314 | an open file of the run, or backend_failure, which without a failing call means that 32 names were taken |
| `PathOverloads.WritePayload` | src/file.cpp:91-93 | writes of any size, any of which may fail; when they all work the result is that of the payload loop, its code included |
| `PathOverloads.FlushAndClose` | src/file.cpp:95-96 | the file is flushed and closed with its payload, or the run fails with backend_failure |
| `PathOverloads.LinkTemp` | src/file_io.cpp:336-346 | linked, or invalid_input over an existing output, or backend_failure; when the call works only the existing output is a reason |
| `PathOverloads.UnlinkTempName` | src/file_io.cpp:316-320 | removing the name behind the link never throws |
| `PathOverloads.FlushParentDirectory` | src/file_io.cpp:258-279 | backend_failure only when a call fails |
| `PathOverloads.CommitTempFile` | src/file_io.cpp:335-346 | link, unlink, sync; a return means linked, invalid_input that the output exists and nothing was linked; when all calls work it throws only over an existing output |
| `PathOverloads.CleanUp` | src/file.cpp:99-104 | the catch block leaves the file closed, its name removed unless removing failed, and rethrows the same code |
| `PathOverloads.PathOverload` | src/file.cpp:79-105 | a return means the complete flushed payload at the output path; an exception that the run's file is not there, or that it is complete and the code backend_failure; what is left of the temporary file; never a return over a file that was there. When the system calls work: invalid_input over a file that was there; the code of header, key derivation or payload loop when the path is free; no temporary file left |
| `PathOverloads.SealFileAt` | src/file.cpp:172-247 | both sealing overloads on paths: a return means that the output path names the sealed file and that it opens to the input; after an exception the same all or nothing; when the system calls work and the path is free the call ends as sealing does |
| `PathOverloads.OpenFileAt` | src/file.cpp:189-297 | both opening overloads on paths: a return means the whole authenticated plaintext at the output path, an exception that none of it is there, except complete with backend_failure; when the system calls work and the path is free the call ends as opening does, with authentication_failed for a wrong tag |
| `PacketStream.ValidPrefixExact` | src/aead_internal.hpp:76-114 | a prefix passes the check if and only if it is the made one for its nonce |
| `PacketTraces.PrefixIsExact` | docs/FORMAT.md:38-44 | a prefix passes the check if and only if it is seventeen bytes that begin with SKT1 and version 1, in numbers |
| `PacketTraces.EncryptorCodes` | src/packet_stream.cpp:146-229 | exactly when a call of an encryptor is backend_failure; a call that throws leaves the phase, begin activates, finalize ends |
| `PacketTraces.DecryptorCodes` | src/packet_stream.cpp:241-334 | exactly when each call of a decryptor throws which code, and that a finalize which checks the tag or refuses its size ends the object |
| `PacketStream.Impl.Start` | src/packet_stream.cpp:158-175 | where each failing step of begin leaves the context and the phase |
| `PacketStream.MakeEncryptor` | src/packet_stream.cpp:90-98 | a fresh ready object, or invalid_input for oversized associated data |
| `PacketStream.MakeDecryptor` | src/packet_stream.cpp:113-121 | the same for decryption |
| `PacketStream.PacketEncryptor.MoveFrom` | src/packet_stream.cpp:142-144 | the state moves over and the source is left without one; moving onto itself changes nothing |
| `PacketStream.PacketEncryptor.Begin` | src/packet_stream.cpp:146-176 | new state and result, for every phase and failure |
| `PacketStream.PacketEncryptor.Update` | src/packet_stream.cpp:178-191 | new state and result, for every phase, size and failure |
| `PacketStream.PacketEncryptor.Finalize` | src/packet_stream.cpp:193-229 | new state and result; success drops the context and finishes |
| `PacketStream.PacketDecryptor.MoveFrom` | src/packet_stream.cpp:237-239 | as for the encryptor |
| `PacketStream.PacketDecryptor.Begin` | src/packet_stream.cpp:241-268 | new state and result; a bad prefix is invalid_packet and changes nothing |
| `PacketStream.PacketDecryptor.Update` | src/packet_stream.cpp:270-283 | new state and result, for every phase, size and failure |
| `PacketStream.PacketDecryptor.Finalize` | src/packet_stream.cpp:285-334 | new state and result; a tag of the wrong size and a wrong tag end the object too |
| `PacketEmission.EncryptorRunEmits` | src/packet_stream.cpp:146-229 | over every trace of calls on one state: while failing updates have absorbed nothing, what was returned is a beginning of the packet for what was given, and all of it once finalized; otherwise the tag covers exactly as many bytes more as were absorbed |
| `PacketEmission.DecryptorRunEmits` | src/packet_stream.cpp:241-334 | an active decryptor that has lost nothing has handed out exactly the unverified plaintext of the ciphertext it was given |
| `PacketEmission.DecryptorAccepts` | src/packet_stream.cpp:285-334 | a finalize that accepts, after updates none of which lost anything, has seen the prefix of a successful begin, ciphertext and tag of the packet of exactly the plaintext handed out |
| `PacketEmission.EncryptorRunsAlike` | src/packet_stream.cpp:146-229 | phases, successes, error codes and losses of a trace do not depend on the primitives |
| `PacketEmission.FailedUpdateSpoils` | src/packet_stream.cpp:39-46 | if any failing update absorbed a byte, what the finished trace emitted is, under some primitives, no packet of what was given |
| `PacketEmission.EmitsPacketExactly` | src/packet_stream.cpp:146-229 | a finished trace has emitted the packet of what was given, whatever the primitives, if and only if no update that returned backend_failure absorbed anything |
| `PacketEmission.FailedUpdateMisleads` | src/packet_stream.cpp:67-74 | if any failing update absorbed a byte, an active decryptor accepts, under some primitives, a tag for something else |
| `PacketEmission.AcceptsPacketExactly` | src/packet_stream.cpp:241-334 | an active decryptor accepts only the packet of what it has handed out, whatever the primitives and the tag, if and only if no update that returned backend_failure absorbed anything |
| `PacketEmission.SpoiledRun` | src/packet_stream.cpp:39-46 | a concrete finished trace with such a failing update |
| `PacketStore.ProgramIsExclusive` | src/packet_stream.cpp:142-144 | in every program over any number of objects, with moves into new objects and onto existing ones, no two objects hold the same state |
| `PacketStore.ProgramProjects` | src/packet_stream.cpp:136-334 | every state a program ever makes is what the calls on it alone make of a fresh one, wherever it has moved; so what holds of traces of calls holds of programs |
| `PacketStore.MakeExact` | src/packet_stream.cpp:90-98 | a new object holds a fresh state, unless its associated data is oversized and nothing is made |
| `PacketStore.InvokeExact` | src/packet_stream.cpp:146-229 | a call works on the state its object holds and on no other |
| `PacketStore.MoveAssignExact` | src/packet_stream.cpp:144 | move assignment hands over the state and leaves the source without; onto itself it changes nothing |
| `PacketStore.MoveConstructExact` | src/packet_stream.cpp:142 | move construction does the same into a new object |
| `PacketStore.EncryptorsAdvance` | src/packet_stream.cpp:136-229 | over every program: each state stays consistent (active implies a context keyed with header and associated data in order, finished implies none) under its key and associated data, its phase only advances, and a state lost to a move assignment is never reached again |
| `PacketStore.DecryptorsAdvance` | src/packet_stream.cpp:231-334 | the same for decryptors |
| `PacketStore.OneEncryptFinalize` | src/packet_stream.cpp:193-229 | over every program: once a finalize has succeeded on a state, every later one on it is invalid_input, through whatever object |
| `PacketStore.OneDecryptFinalize` | src/packet_stream.cpp:285-334 | the same for decryptors |
| `PacketStore.EncryptorsRefuseExactly` | src/packet_stream.cpp:146-205 | after every program a call throws invalid_input if and only if its object was moved from, it is out of turn or oversized, and then nothing changes |
| `PacketStore.DecryptorsRefuseExactly` | src/packet_stream.cpp:241-295 | the same for decryptors |
| `PacketStore.EncryptorsEmit` | src/packet_stream.cpp:136-229 | what the calls on one state returned in a program is what a trace of these calls emits |
| `PacketStore.DecryptorsEmit` | src/packet_stream.cpp:231-334 | the same for decryptors |
| `PacketTraces.EncryptSplitIndependent` | src/packet_stream.cpp:146-229 | every division of the plaintext into updates, empty ones included, gives the same packet |
| `PacketTraces.DecryptSplitIndependent` | src/packet_stream.cpp:241-334 | every independent division of the ciphertext gives the plaintext back |
| `Aead.Encrypt` | src/aead.cpp:16-25 | the one-shot function driven through the object, with every error code |
| `Aead.Decrypt` | src/aead.cpp:27-52 | the same for decryption |
| `Aead.PacketParts` | src/aead_internal.hpp:84-124 | a packet is valid and its parts are those it was made of |
| `Aead.DecryptExact` | src/aead.cpp:27-52 | a packet decrypts to a plaintext if and only if it is the packet of its own nonce and that plaintext |
| `Aead.PacketsInjective` | src/aead.cpp:16-25 | packets correspond one to one with pairs of nonce and plaintext |
| `Aead.PacketBytesExact` | docs/FORMAT.md:33-52 | a packet is the one of the format, in numbers: five fixed bytes, nonce, ciphertext byte by byte, tag over the five bytes and the associated data |
| `Aead.EncryptionExact` | src/aead.cpp:16-25 | exactly when encrypt throws which code; otherwise a packet of the format with the drawn nonce |
| `Aead.DecryptionExact` | src/aead.cpp:27-52 | exactly when decrypt throws which code: invalid_packet for the wrong fixed bytes or size, invalid_input for oversized input, authentication_failed for a wrong tag or a failing closing call |
| `Aead.DecryptFormat` | docs/FORMAT.md:33-56 | decrypt accepts exactly the packets of the format and returns what they carry |
| `Aead.OtherAadRefused` | docs/FORMAT.md:46-56 | the tag covers the associated data: where the primitives tell it apart, a packet is authentication_failed with any other |
| `Aead.StreamedPacketOneShot` | src/aead.cpp:27-52 | a streamed packet opens in one shot if its ciphertext is within INT_MAX, and is invalid_input otherwise |
| `Aead.OneShotPacketStreams` | src/aead.cpp:16-25 | a one-shot packet opens in a stream under every division |
| `Bytes.BitOrDisjoint` | src/base64.cpp:122-123 | the or of a shifted value and one below the shift is their sum |
| `Base64.EncodeSextetTable` | src/base64.cpp:8 | the alphabet is the table of section 4 of RFC 4648, by character codes; translated it is that of section 5 |
| `Base64.DecodeCharTable` | src/base64.cpp:10-33 | the decoder finds the place of a character in that table, or that it is not there |
| `Base64.EncodeDecodedChar` | src/base64.cpp:8-33 | the alphabet and the character decoder are inverse |
| `Base64.EncodedGroup` | src/base64.cpp:117-124 | the four sextets are the 24 bits of three bytes cut every six, as in section 4 of RFC 4648 |
| `Base64.DecodedGroup` | src/base64.cpp:188-196 | the three bytes are the 24 bits of four sextets cut every eight |
| `Base64.GroupRoundTrip` | src/base64.cpp:117-196 | decoding undoes encoding on a group |
| `Base64.SextetRoundTrip` | src/base64.cpp:117-196 | encoding undoes decoding on a group |
| `Base64.EncodingSize` | src/base64.cpp:105-111 | the size reserved is the size of the output |
| `Base64.RejectInvalidBase64` | src/base64.cpp:40-79 | the validator accepts exactly whole groups of alphabet characters with at most two trailing padding characters |
| `Base64.DecodedSize` | src/base64.cpp:162-179 | the size reserved is the true size, for every text that passes the validator |
| `Base64.CanonicalCheckExact` | src/base64.cpp:199-202 | among validated texts the re-encoding check rejects exactly those whose last sextet has an unused bit set: low four before two padding characters, low two before one (section 3.5 of RFC 4648) |
| `Base64.EncodingDecodes` | src/base64.cpp:102-205 | every encoding passes the validator and decodes to what was encoded |
| `Base64.DecodingExact` | src/base64.cpp:153-205 | decoding accepts exactly the image of encoding and inverts it there |
| `Base64.EncodingInjective` | src/base64.cpp:102-128 | different inputs have different encodings |
| `Base64.EncodingExact` | src/base64.cpp:102-128 | the encoding is the text of section 4 of RFC 4648: character i is the letter of six bits of the input by position, or padding |
| `Base64.Base64Encode` | src/base64.cpp:102-128 | the loop computes the text of RFC 4648 |
| `Base64.DecodeGroups` | src/base64.cpp:181-197 | the loop computes the decoding of all groups |
| `Base64.Base64Decode` | src/base64.cpp:153-205 | the function returns b if and only if the input is the text of RFC 4648 for b, and throws invalid_encoding otherwise |
| `Base64.UrlForm` | src/base64.cpp:130-151 | translating and stripping an encoding is undone by translating back and padding |
| `Base64.SecondCheckRedundant` | src/base64.cpp:239-242 | once base64_decode has succeeded the second canonical check cannot fail |
| `Base64.UrlDecodingExact` | src/base64.cpp:207-245 | Base64URL decoding accepts exactly the image of Base64URL encoding and inverts it there |
| `Base64.UrlEncodingInjective` | src/base64.cpp:130-151 | different inputs have different Base64URL encodings |
| `Base64.EncodingPadding` | src/base64.cpp:123-124 | the padding of an encoding depends only on the length modulo three |
| `Base64.UrlEncodingShape` | src/base64.cpp:130-151 | the output has floor((4n + 2) / 3) characters, none of them padding, plus or slash |
| `Base64.UrlEncodingExact` | src/base64.cpp:130-151 | the Base64URL encoding is the unpadded text of section 5 of RFC 4648, with minus for 62 and underline for 63 |
| `Base64.Base64UrlEncode` | src/base64.cpp:130-151 | the two loops compute the unpadded text of section 5 |
| `Base64.RejectInvalidBase64Url` | src/base64.cpp:81-95 | the validator accepts exactly URL alphabet texts of a possible length |
| `Base64.Base64UrlDecode` | src/base64.cpp:207-245 | the function returns b if and only if the input is the unpadded text of section 5 for b, and throws invalid_encoding otherwise |

## Left out

- OpenSSL itself: arbitrary functions and failure parameters stand for it. The checks of the sizes OpenSSL reports (`src/file_crypto.cpp:343-346`, `src/file_crypto.cpp:400-403`, `src/packet_stream.cpp:49-52`) cannot fail here, and GCM's closing call returns no bytes.
- The memory limit of scrypt and the output sizes of scrypt and HKDF: constants of the calls (`src/file_crypto.cpp:218`, `src/file_crypto.cpp:245-247`), part of the functions that stand for them.
- PacketStream.PacketEncryptor.Finalize: a context whose closing call or tag retrieval failed counts as not closed, so a repeated finalize can still succeed; what OpenSSL does with such a context is not modelled.
- PacketStream.PacketEncryptor.constructor, PacketStream.PacketDecryptor.constructor: they ask for associated data within INT_MAX; the throwing case is in `MakeEncryptor` and `MakeDecryptor`, because a Dafny constructor cannot fail.
- PathCommit.StepKeepsInv, PathSafety.CommitSafety, PathOverloads.PathOverload: the environment only creates files; one that deletes, renames or overwrites could of course undo everything.
- PathOverloads.SealFileAt, PathOverloads.OpenFileAt: the bytes a payload loop writes are computed before its writes begin, from the content the input file has at the start; a change of the input file during the call is not modelled.
- The Windows and generic branches of `src/file_io.cpp`: only the POSIX branch has the atomic link the protocol rests on.
- `OutputFile` as an object, with its moves, and file descriptors: a run of the protocol carries whether its file is open. Creating, appending, flushing, closing, linking, unlinking and syncing the directory are modelled; durability after a crash is not.
- Streams.InputStream.Read: a negative gcount does not occur.
- `src/wipe.hpp` and constant-time comparison: effects outside the functional result.
- Container `max_size` guards and allocation failure (`src/base64.cpp:107-110`, `src/base64.cpp:175-178`, `src/base64.cpp:212-215`): inputs are taken to fit.
- Hashing, key wrapping, hex, random tokens, version strings and the command line: they would add only easy members or plumbing.
