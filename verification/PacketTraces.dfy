/** Runs of packet objects: phases only advance, and every way of splitting the data gives the same packet. */
module PacketTraces {
  import opened Bytes
  import opened Errors
  import opened Gcm
  import opened PacketStream

  // ---------- Single calls ----------

  /** How far an object has come; one that was moved from is past everything. */
  function Rank(st: PacketState): nat
  {
    if st.Moved? then 3 else match st.phase case Ready => 0 case Active => 1 case Finished => 2
  }

  lemma EncryptorStepKeeps(suite: Suite, st: PacketState, call: EncryptorCall)
    requires Consistent(st)
    ensures var next := EncryptorStep(suite, st, call).0;
            && Consistent(next) && Rank(st) <= Rank(next)
            && (next.Live? ==> st.Live? && next.key == st.key && next.aad == st.aad)
  {
  }

  lemma DecryptorStepKeeps(suite: Suite, st: PacketState, call: DecryptorCall)
    requires Consistent(st)
    ensures var next := DecryptorStep(suite, st, call).0;
            && Consistent(next) && Rank(st) <= Rank(next)
            && (next.Live? ==> st.Live? && next.key == st.key && next.aad == st.aad)
  {
  }

  /** The calls the phase of the object does not allow. */
  ghost predicate OutOfTurnEncrypt(st: PacketState, call: EncryptorCall)
  {
    match call
    case EncryptBegin(_, _) => Rank(st) != 0
    case _ => Rank(st) != 1
  }

  ghost predicate OutOfTurnDecrypt(st: PacketState, call: DecryptorCall)
  {
    match call
    case DecryptBegin(_, _) => Rank(st) != 0
    case _ => Rank(st) != 1
  }

  /** `invalid_input` is thrown exactly for calls out of turn and oversized updates, and never changes the object. */
  lemma EncryptRefusalExact(suite: Suite, st: PacketState, call: EncryptorCall)
    requires Consistent(st)
    ensures EncryptorStep(suite, st, call).1 == Err(InvalidInput)
       <==> OutOfTurnEncrypt(st, call) || (call.EncryptUpdate? && |call.plaintext| > INT_MAX)
    ensures EncryptorStep(suite, st, call).1 == Err(InvalidInput) ==> EncryptorStep(suite, st, call).0 == st
  {
  }

  lemma DecryptRefusalExact(suite: Suite, st: PacketState, call: DecryptorCall)
    requires Consistent(st)
    ensures DecryptorStep(suite, st, call).1 == Err(InvalidInput)
       <==> OutOfTurnDecrypt(st, call) || (call.DecryptUpdate? && |call.ciphertext| > INT_MAX)
    ensures DecryptorStep(suite, st, call).1 == Err(InvalidInput) ==> DecryptorStep(suite, st, call).0 == st
  {
  }

  /** What can go wrong inside OpenSSL does, in a call the phase allows. */
  ghost predicate EncryptTrouble(st: PacketState, call: EncryptorCall)
  {
    && !OutOfTurnEncrypt(st, call)
    && match call
       case EncryptBegin(_, fault) => fault != BeginWorks
       case EncryptUpdate(plaintext, fault) => 0 < |plaintext| <= 0x7fff_ffff && fault != UpdateWorks
       case EncryptFinalize(fault) => fault != FinalizeWorks
  }

  /**
    The codes of an encryptor, and where each call leaves it: a call that throws leaves the phase, `begin`
    makes it active, and `finalize` ends it.
   */
  lemma EncryptorCodes(suite: Suite, st: PacketState, call: EncryptorCall)
    requires Consistent(st)
    ensures var (next, r) := EncryptorStep(suite, st, call);
            && (r.Err? ==> r.error in {InvalidInput, BackendFailure} && Rank(next) == Rank(st))
            && (r == Err(BackendFailure) <==> EncryptTrouble(st, call))
            && (r.Ok? ==> Rank(next) == match call
                                       case EncryptBegin(_, _) => 1
                                       case EncryptUpdate(_, _) => 1
                                       case EncryptFinalize(_) => 2)
  {
  }

  /** The prefix of a packet: seventeen bytes that begin with "SKT1" and version 1. */
  predicate PrefixIs(prefix: bytes)
  {
    |prefix| == 17 && prefix[..5] == [0x53, 0x4b, 0x54, 0x31, 0x01]
  }

  lemma PrefixIsExact(prefix: bytes)
    ensures ValidPrefix(prefix) <==> PrefixIs(prefix)
  {
    if |prefix| == 17 {
      assert prefix[..5] == prefix[..4] + [prefix[4]];
      assert PACKET_HEADER[..4] == [0x53, 0x4b, 0x54, 0x31];
    }
  }

  /**
    The codes of a decryptor, and where each call leaves it: a bad prefix and a tag of the wrong size are
    `invalid_packet`, a wrong tag is `authentication_failed`; a `finalize` that checks the tag, or refuses its
    size, ends the object whatever it finds.
   */
  lemma DecryptorCodes(suite: Suite, st: PacketState, call: DecryptorCall)
    requires Consistent(st) && !OutOfTurnDecrypt(st, call)
    ensures var (next, r) := DecryptorStep(suite, st, call);
            match call
            case DecryptBegin(prefix, fault) =>
              && (r == Err(InvalidPacket) <==> !PrefixIs(prefix))
              && (r == Err(BackendFailure) <==> PrefixIs(prefix) && fault != BeginWorks)
              && (r.Ok? <==> PrefixIs(prefix) && fault == BeginWorks)
              && Rank(next) == (if r.Ok? then 1 else 0)
              && (r.Ok? ==> r.value == [] && next.cipher.Keyed? && next.cipher.context.nonce == prefix[5..])
            case DecryptUpdate(ciphertext, fault) =>
              && (r == Err(InvalidInput) <==> |ciphertext| > 0x7fff_ffff)
              && (r == Err(BackendFailure) <==> 0 < |ciphertext| <= 0x7fff_ffff && fault != UpdateWorks)
              && (r.Err? ==> r.error in {InvalidInput, BackendFailure})
              && Rank(next) == 1
            case DecryptFinalize(tag, fault) =>
              var c := st.cipher.context;
              var right := tag == suite.mac(c.key, c.nonce, c.aad, c.ciphertext);
              && (r == Err(InvalidPacket) <==> |tag| != 16)
              && (r == Err(BackendFailure) <==> |tag| == 16 && fault == TagFails)
              && (r == Err(AuthenticationFailed) <==>
                    |tag| == 16 && (fault == FinalFails || (fault == FinalizeWorks && !right)))
              && (r.Ok? <==> |tag| == 16 && fault == FinalizeWorks && right)
              && Rank(next) == (if r == Err(BackendFailure) then 1 else 2)
  {
    if call.DecryptBegin? {
      PrefixIsExact(call.prefix);
    }
  }

  // ---------- Runs ----------

  /** What a call does to a state, and what it returns. */
  type Step<!C> = (PacketState, C) -> (PacketState, Result<bytes>)

  /** The state after some calls, and what they returned. */
  function Run<C>(step: Step<C>, st: PacketState, calls: seq<C>): (r: (PacketState, seq<Result<bytes>>))
    ensures |r.1| == |calls|
    decreases |calls|
  {
    if calls == [] then (st, [])
    else
      var last := |calls| - 1;
      var (before, results) := Run(step, st, calls[..last]);
      var (after, result) := step(before, calls[last]);
      (after, results + [result])
  }

  function EncryptorOf(suite: Suite): Step<EncryptorCall>
  {
    (st, call) => EncryptorStep(suite, st, call)
  }

  function DecryptorOf(suite: Suite): Step<DecryptorCall>
  {
    (st, call) => DecryptorStep(suite, st, call)
  }

  function EncryptorRun(suite: Suite, st: PacketState,
                        calls: seq<EncryptorCall>): (r: (PacketState, seq<Result<bytes>>))
    ensures |r.1| == |calls|
  {
    Run(EncryptorOf(suite), st, calls)
  }

  function DecryptorRun(suite: Suite, st: PacketState,
                        calls: seq<DecryptorCall>): (r: (PacketState, seq<Result<bytes>>))
    ensures |r.1| == |calls|
  {
    Run(DecryptorOf(suite), st, calls)
  }

  lemma RunSnoc<C>(step: Step<C>, st: PacketState, calls: seq<C>, call: C)
    ensures var (before, results) := Run(step, st, calls);
            var (after, result) := step(before, call);
            Run(step, st, calls + [call]) == (after, results + [result])
  {
    assert (calls + [call])[..|calls|] == calls;
  }

  lemma EncryptorRunSnoc(suite: Suite, st: PacketState, calls: seq<EncryptorCall>, call: EncryptorCall)
    ensures var (before, results) := EncryptorRun(suite, st, calls);
            var (after, result) := EncryptorStep(suite, before, call);
            EncryptorRun(suite, st, calls + [call]) == (after, results + [result])
  {
    hide EncryptorStep;
    RunSnoc(EncryptorOf(suite), st, calls, call);
  }

  lemma DecryptorRunSnoc(suite: Suite, st: PacketState, calls: seq<DecryptorCall>, call: DecryptorCall)
    ensures var (before, results) := DecryptorRun(suite, st, calls);
            var (after, result) := DecryptorStep(suite, before, call);
            DecryptorRun(suite, st, calls + [call]) == (after, results + [result])
  {
    hide DecryptorStep;
    RunSnoc(DecryptorOf(suite), st, calls, call);
  }

  /** Whatever the calls, the object stays consistent and never goes back. */
  lemma {:induction false} EncryptorRunKeeps(suite: Suite, st: PacketState, calls: seq<EncryptorCall>)
    requires Consistent(st)
    ensures Consistent(EncryptorRun(suite, st, calls).0) && Rank(st) <= Rank(EncryptorRun(suite, st, calls).0)
    decreases |calls|
  {
    if calls == [] {
    } else {
      var last := |calls| - 1;
      EncryptorRunKeeps(suite, st, calls[..last]);
      EncryptorStepKeeps(suite, EncryptorRun(suite, st, calls[..last]).0, calls[last]);
    }
  }

  lemma {:induction false} DecryptorRunKeeps(suite: Suite, st: PacketState, calls: seq<DecryptorCall>)
    requires Consistent(st)
    ensures Consistent(DecryptorRun(suite, st, calls).0) && Rank(st) <= Rank(DecryptorRun(suite, st, calls).0)
    decreases |calls|
  {
    if calls == [] {
    } else {
      var last := |calls| - 1;
      DecryptorRunKeeps(suite, st, calls[..last]);
      DecryptorStepKeeps(suite, DecryptorRun(suite, st, calls[..last]).0, calls[last]);
    }
  }

  // ---------- What a run emits ----------

  /** The bytes the successful calls returned. */
  function Emitted(results: seq<Result<bytes>>): bytes
    decreases |results|
  {
    if results == [] then []
    else
      var last := |results| - 1;
      Emitted(results[..last]) + if results[last].Ok? then results[last].value else []
  }

  lemma EmittedSnoc(results: seq<Result<bytes>>, r: Result<bytes>)
    ensures Emitted(results + [r]) == Emitted(results) + if r.Ok? then r.value else []
  {
    assert (results + [r])[..|results|] == results;
  }

  // ---------- Splitting ----------

  ghost predicate WithinUpdateLimit(parts: seq<bytes>)
  {
    forall i :: 0 <= i < |parts| ==> |parts[i]| <= INT_MAX
  }

  /** Begin and update with the parts in turn. */
  function EncryptCalls(nonce: Nonce, parts: seq<bytes>): (calls: seq<EncryptorCall>)
    decreases |parts|
  {
    if parts == [] then [EncryptBegin(nonce, BeginWorks)]
    else EncryptCalls(nonce, parts[..|parts| - 1]) + [EncryptUpdate(parts[|parts| - 1], UpdateWorks)]
  }

  function DecryptCalls(prefix: bytes, parts: seq<bytes>): (calls: seq<DecryptorCall>)
    decreases |parts|
  {
    if parts == [] then [DecryptBegin(prefix, BeginWorks)]
    else DecryptCalls(prefix, parts[..|parts| - 1]) + [DecryptUpdate(parts[|parts| - 1], UpdateWorks)]
  }

  ghost predicate AllOk(results: seq<Result<bytes>>)
  {
    forall i :: 0 <= i < |results| ==> results[i].Ok?
  }

  /** An encryptor begun with `nonce` that has been given `plaintext`, and what its calls returned. */
  ghost predicate Encrypting(suite: Suite, key: Key, aad: bytes, nonce: Nonce, run: (PacketState,
                             seq<Result<bytes>>), plaintext: bytes)
  {
    var ciphertext := XorStream(suite, key, nonce, 0, plaintext);
    && run.0 == Live(key, aad, Active, Keyed(Context(key, nonce, PacketAad(aad), ciphertext)))
    && AllOk(run.1) && Emitted(run.1) == PrefixBytes(nonce) + ciphertext
  }

  lemma EncryptingStarts(suite: Suite, key: Key, aad: bytes, nonce: Nonce)
    ensures Encrypting(suite, key, aad, nonce,
                       EncryptorRun(suite, Fresh(key, aad), [EncryptBegin(nonce, BeginWorks)]), [])
  {
    EncryptorRunSnoc(suite, Fresh(key, aad), [], EncryptBegin(nonce, BeginWorks));
    EmittedSnoc([], Ok(PrefixBytes(nonce)));
  }

  lemma EncryptingContinues(suite: Suite, key: Key, aad: bytes, nonce: Nonce,
                            run: (PacketState, seq<Result<bytes>>), plaintext: bytes, part: bytes)
    requires Encrypting(suite, key, aad, nonce, run, plaintext) && |part| <= INT_MAX
    ensures var (after, r) := EncryptorStep(suite, run.0, EncryptUpdate(part, UpdateWorks));
            Encrypting(suite, key, aad, nonce, (after, run.1 + [r]), plaintext + part)
  {
    XorStreamSplit(suite, key, nonce, 0, plaintext, part);
    var ciphertext := XorStream(suite, key, nonce, |plaintext|, part);
    assert part == [] ==> ciphertext == [];
    EmittedSnoc(run.1, Ok(ciphertext));
  }

  lemma {:induction false} EncryptPartsRun(suite: Suite, key: Key, aad: bytes, nonce: Nonce, parts: seq<bytes>)
    requires WithinUpdateLimit(parts)
    ensures Encrypting(suite, key, aad, nonce,
                       EncryptorRun(suite, Fresh(key, aad), EncryptCalls(nonce, parts)), Flatten(parts))
    decreases |parts|
  {
    hide Encrypting, EncryptorStep, EncryptorRun;
    if parts == [] {
      EncryptingStarts(suite, key, aad, nonce);
    } else {
      var front, part := parts[..|parts| - 1], parts[|parts| - 1];
      EncryptPartsRun(suite, key, aad, nonce, front);
      var run := EncryptorRun(suite, Fresh(key, aad), EncryptCalls(nonce, front));
      EncryptingContinues(suite, key, aad, nonce, run, Flatten(front), part);
      EncryptorRunSnoc(suite, Fresh(key, aad), EncryptCalls(nonce, front), EncryptUpdate(part, UpdateWorks));
      assert parts == front + [part];
      FlattenAppend(front, part);
    }
  }

  /** Any division of the plaintext into updates, empty ones included, gives the same packet. */
  lemma EncryptSplitIndependent(suite: Suite, key: Key, aad: bytes, nonce: Nonce, parts: seq<bytes>)
    requires WithinUpdateLimit(parts)
    ensures var calls := EncryptCalls(nonce, parts) + [EncryptFinalize(FinalizeWorks)];
            var (st, results) := EncryptorRun(suite, Fresh(key, aad), calls);
            && st == Live(key, aad, Finished, NoContext)
            && AllOk(results) && Emitted(results) == PacketBytes(suite, key, aad, nonce, Flatten(parts))
  {
    hide EncryptorRun, EncryptCalls, XorStream;
    var calls, st := EncryptCalls(nonce, parts), Fresh(key, aad);
    EncryptPartsRun(suite, key, aad, nonce, parts);
    EncryptorRunSnoc(suite, st, calls, EncryptFinalize(FinalizeWorks));
    var (before, results) := EncryptorRun(suite, st, calls);
    EmittedSnoc(results, EncryptorStep(suite, before, EncryptFinalize(FinalizeWorks)).1);
  }

  /** A decryptor begun with `nonce` that has been given `ciphertext`, and what its calls returned. */
  ghost predicate Decrypting(suite: Suite, key: Key, aad: bytes, nonce: Nonce, run: (PacketState,
                             seq<Result<bytes>>), ciphertext: bytes)
  {
    && run.0 == Live(key, aad, Active, Keyed(Context(key, nonce, PacketAad(aad), ciphertext)))
    && AllOk(run.1) && Emitted(run.1) == XorStream(suite, key, nonce, 0, ciphertext)
  }

  lemma DecryptingStarts(suite: Suite, key: Key, aad: bytes, nonce: Nonce)
    ensures Decrypting(suite, key, aad, nonce,
                       DecryptorRun(suite, Fresh(key, aad), [DecryptBegin(PrefixBytes(nonce), BeginWorks)]), [])
  {
    assert PrefixBytes(nonce)[HEADER_SIZE..] == nonce;
    ValidPrefixExact(PrefixBytes(nonce));
    DecryptorRunSnoc(suite, Fresh(key, aad), [], DecryptBegin(PrefixBytes(nonce), BeginWorks));
    EmittedSnoc([], Ok([]));
  }

  lemma DecryptingContinues(suite: Suite, key: Key, aad: bytes, nonce: Nonce,
                            run: (PacketState, seq<Result<bytes>>), ciphertext: bytes, part: bytes)
    requires Decrypting(suite, key, aad, nonce, run, ciphertext) && |part| <= INT_MAX
    ensures var (after, r) := DecryptorStep(suite, run.0, DecryptUpdate(part, UpdateWorks));
            Decrypting(suite, key, aad, nonce, (after, run.1 + [r]), ciphertext + part)
  {
    XorStreamSplit(suite, key, nonce, 0, ciphertext, part);
    var plaintext := XorStream(suite, key, nonce, |ciphertext|, part);
    assert part == [] ==> plaintext == [] && ciphertext + part == ciphertext;
    EmittedSnoc(run.1, Ok(plaintext));
  }

  lemma {:induction false} DecryptPartsRun(suite: Suite, key: Key, aad: bytes, nonce: Nonce, parts: seq<bytes>)
    requires WithinUpdateLimit(parts)
    ensures Decrypting(suite, key, aad, nonce,
                       DecryptorRun(suite, Fresh(key, aad), DecryptCalls(PrefixBytes(nonce), parts)), Flatten(parts))
    decreases |parts|
  {
    hide Decrypting, DecryptorStep, DecryptorRun;
    if parts == [] {
      DecryptingStarts(suite, key, aad, nonce);
    } else {
      var front, part := parts[..|parts| - 1], parts[|parts| - 1];
      DecryptPartsRun(suite, key, aad, nonce, front);
      var run := DecryptorRun(suite, Fresh(key, aad), DecryptCalls(PrefixBytes(nonce), front));
      DecryptingContinues(suite, key, aad, nonce, run, Flatten(front), part);
      DecryptorRunSnoc(suite, Fresh(key, aad), DecryptCalls(PrefixBytes(nonce), front),
                       DecryptUpdate(part, UpdateWorks));
      assert parts == front + [part];
      FlattenAppend(front, part);
    }
  }

  /** Any division of the ciphertext of a packet, whatever the division it was made with, gives the plaintext back. */
  lemma DecryptSplitIndependent(suite: Suite, key: Key, aad: bytes, nonce: Nonce, plaintext: bytes, parts: seq<bytes>)
    requires WithinUpdateLimit(parts)
    requires Flatten(parts) == XorStream(suite, key, nonce, 0, plaintext)
    ensures var tag := suite.mac(key, nonce, PacketAad(aad), Flatten(parts));
            var calls := DecryptCalls(PrefixBytes(nonce), parts) + [DecryptFinalize(tag, FinalizeWorks)];
            var (st, results) := DecryptorRun(suite, Fresh(key, aad), calls);
            && PrefixBytes(nonce) + Flatten(parts) + tag == PacketBytes(suite, key, aad, nonce, plaintext)
            && st == Live(key, aad, Finished, NoContext)
            && AllOk(results) && Emitted(results) == plaintext
  {
    hide DecryptorRun, DecryptCalls, XorStream;
    var calls, st := DecryptCalls(PrefixBytes(nonce), parts), Fresh(key, aad);
    var tag := suite.mac(key, nonce, PacketAad(aad), Flatten(parts));
    DecryptPartsRun(suite, key, aad, nonce, parts);
    DecryptorRunSnoc(suite, st, calls, DecryptFinalize(tag, FinalizeWorks));
    var (before, results) := DecryptorRun(suite, st, calls);
    EmittedSnoc(results, Ok([]));
    XorStreamCancels(suite, key, nonce, 0, plaintext);
  }
}
