/**
  What runs of packet objects emit, failing calls included, and exactly when it is a packet: if and only if
  no update that failed inside OpenSSL had absorbed anything.
 */
module PacketEmission {
  import opened Bytes
  import opened Errors
  import opened Gcm
  import opened PacketStream
  import opened PacketTraces

  // ---------- What went in ----------

  /** What the successful updates were given. */
  function PlaintextIn(calls: seq<EncryptorCall>, results: seq<Result<bytes>>): bytes
    requires |calls| == |results|
    decreases |calls|
  {
    if calls == [] then []
    else
      var last := |calls| - 1;
      PlaintextIn(calls[..last], results[..last])
      + if calls[last].EncryptUpdate? && results[last].Ok? then calls[last].plaintext else []
  }

  function CiphertextIn(calls: seq<DecryptorCall>, results: seq<Result<bytes>>): bytes
    requires |calls| == |results|
    decreases |calls|
  {
    if calls == [] then []
    else
      var last := |calls| - 1;
      CiphertextIn(calls[..last], results[..last])
      + if calls[last].DecryptUpdate? && results[last].Ok? then calls[last].ciphertext else []
  }

  /** How much OpenSSL had absorbed when it made this update fail. */
  function LostBy(fault: UpdateFault, result: Result<bytes>): nat
  {
    if fault.UpdateFails? && result == Err(BackendFailure) then |fault.absorbed| else 0
  }

  function LostByEncrypt(call: EncryptorCall, result: Result<bytes>): nat
  {
    if call.EncryptUpdate? then LostBy(call.updateFault, result) else 0
  }

  function LostByDecrypt(call: DecryptorCall, result: Result<bytes>): nat
  {
    if call.DecryptUpdate? then LostBy(call.updateFault, result) else 0
  }

  /** How much the failing updates of a run have made OpenSSL absorb. */
  function EncryptLost(calls: seq<EncryptorCall>, results: seq<Result<bytes>>): nat
    requires |calls| == |results|
    decreases |calls|
  {
    if calls == [] then 0
    else
      var last := |calls| - 1;
      EncryptLost(calls[..last], results[..last]) + LostByEncrypt(calls[last], results[last])
  }

  function DecryptLost(calls: seq<DecryptorCall>, results: seq<Result<bytes>>): nat
    requires |calls| == |results|
    decreases |calls|
  {
    if calls == [] then 0
    else
      var last := |calls| - 1;
      DecryptLost(calls[..last], results[..last]) + LostByDecrypt(calls[last], results[last])
  }

  /** No update that returned `backend_failure` had absorbed anything. */
  ghost predicate EncryptedCleanly(calls: seq<EncryptorCall>, results: seq<Result<bytes>>)
    requires |calls| == |results|
  {
    forall i :: 0 <= i < |calls| ==> LostByEncrypt(calls[i], results[i]) == 0
  }

  ghost predicate DecryptedCleanly(calls: seq<DecryptorCall>, results: seq<Result<bytes>>)
    requires |calls| == |results|
  {
    forall i :: 0 <= i < |calls| ==> LostByDecrypt(calls[i], results[i]) == 0
  }

  lemma {:induction false} NothingLostEncrypting(calls: seq<EncryptorCall>, results: seq<Result<bytes>>)
    requires |calls| == |results|
    ensures EncryptLost(calls, results) == 0 <==> EncryptedCleanly(calls, results)
    decreases |calls|
  {
    if calls == [] {
    } else {
      var last := |calls| - 1;
      NothingLostEncrypting(calls[..last], results[..last]);
      assert forall i :: 0 <= i < last ==> calls[..last][i] == calls[i] && results[..last][i] == results[i];
    }
  }

  lemma {:induction false} NothingLostDecrypting(calls: seq<DecryptorCall>, results: seq<Result<bytes>>)
    requires |calls| == |results|
    ensures DecryptLost(calls, results) == 0 <==> DecryptedCleanly(calls, results)
    decreases |calls|
  {
    if calls == [] {
    } else {
      var last := |calls| - 1;
      NothingLostDecrypting(calls[..last], results[..last]);
      assert forall i :: 0 <= i < last ==> calls[..last][i] == calls[i] && results[..last][i] == results[i];
    }
  }

  // ---------- What came out ----------

  /** `emitted` is `size` bytes and the tag of `absorbed`, which are `covered` bytes. */
  ghost predicate TagAtEnd(suite: Suite, st: PacketState, emitted: bytes, size: nat, nonce: Nonce,
                           absorbed: bytes, covered: nat)
    requires st.Live?
  {
    && |emitted| == size + TAG_SIZE && |absorbed| == covered
    && emitted[size..] == suite.mac(st.key, nonce, PacketAad(st.aad), absorbed)
  }

  ghost predicate EndsInTag(suite: Suite, st: PacketState, emitted: bytes, size: nat, covered: nat)
    requires st.Live?
  {
    exists nonce, absorbed :: TagAtEnd(suite, st, emitted, size, nonce, absorbed, covered)
  }

  /**
    What an encryptor has emitted so far, in terms of its state; `lost` is what failing updates made OpenSSL
    absorb.
   */
  ghost predicate EncryptorEmits(suite: Suite, st: PacketState, emitted: bytes, plaintext: bytes, lost: nat)
  {
    st.Live? ==>
      match st.phase
      case Ready => emitted == [] && plaintext == [] && lost == 0
      case Active =>
        && st.cipher.Keyed?
        && |st.cipher.context.ciphertext| == |plaintext| + lost
        && |emitted| == PREFIX_SIZE + |plaintext|
        && (lost == 0 ==>
              && st.cipher.context.ciphertext == XorStream(suite, st.key, st.cipher.context.nonce, 0, plaintext)
              && emitted == PrefixBytes(st.cipher.context.nonce) + st.cipher.context.ciphertext)
      case Finished =>
        && EndsInTag(suite, st, emitted, PREFIX_SIZE + |plaintext|, |plaintext| + lost)
        && (lost == 0 ==> exists nonce :: emitted == PacketBytes(suite, st.key, st.aad, nonce, plaintext))
  }

  lemma EncryptUpdateEmits(suite: Suite, st: PacketState, call: EncryptorCall, emitted: bytes, plaintext: bytes,
                           lost: nat)
    requires Consistent(st) && EncryptorEmits(suite, st, emitted, plaintext, lost) && InUse(st) && call.EncryptUpdate?
    ensures var (next, r) := EncryptorStep(suite, st, call);
            EncryptorEmits(suite, next, emitted + (if r.Ok? then r.value else []),
                           plaintext + (if r.Ok? then call.plaintext else []), lost + LostByEncrypt(call, r))
  {
    hide XorStream;
    var c := st.cipher.context;
    assert emitted + [] == emitted && plaintext + [] == plaintext && c.ciphertext + [] == c.ciphertext;
    XorStreamSplit(suite, c.key, c.nonce, 0, plaintext, call.plaintext);
  }

  lemma EncryptFinalizeEmits(suite: Suite, st: PacketState, emitted: bytes, plaintext: bytes, lost: nat)
    requires Consistent(st) && EncryptorEmits(suite, st, emitted, plaintext, lost) && InUse(st)
    ensures var (next, r) := EncryptorStep(suite, st, EncryptFinalize(FinalizeWorks));
            r.Ok? && EncryptorEmits(suite, next, emitted + r.value, plaintext, lost)
  {
    hide XorStream;
    var c := st.cipher.context;
    var all := emitted + ContextTag(suite, c);
    assert TagAtEnd(suite, Ended(st), all, PREFIX_SIZE + |plaintext|, c.nonce, c.ciphertext, |plaintext| + lost);
    if lost == 0 {
      assert all == PacketBytes(suite, st.key, st.aad, c.nonce, plaintext);
    }
  }

  lemma EncryptorStepEmits(suite: Suite, st: PacketState, call: EncryptorCall, emitted: bytes, plaintext: bytes,
                           lost: nat)
    requires Consistent(st) && EncryptorEmits(suite, st, emitted, plaintext, lost)
    ensures var (next, r) := EncryptorStep(suite, st, call);
            EncryptorEmits(suite, next, emitted + (if r.Ok? then r.value else []),
                           plaintext + (if call.EncryptUpdate? && r.Ok? then call.plaintext else []),
                           lost + LostByEncrypt(call, r))
  {
    hide XorStream;
    assert emitted + [] == emitted && plaintext + [] == plaintext;
    if InUse(st) && call.EncryptUpdate? {
      EncryptUpdateEmits(suite, st, call, emitted, plaintext, lost);
    } else if InUse(st) && call.EncryptFinalize? && call.finalizeFault.FinalizeWorks? {
      EncryptFinalizeEmits(suite, st, emitted, plaintext, lost);
    }
  }

  /**
    Over every run of calls, failing ones included: as long as failing updates have absorbed nothing, what
    the successful calls returned is a beginning of the packet for what the successful updates were given,
    and all of it once `finalize` has succeeded. Otherwise the tag covers as much more as was absorbed.
   */
  lemma {:induction false} EncryptorRunEmits(suite: Suite, key: Key, aad: bytes, calls: seq<EncryptorCall>)
    ensures var (st, results) := EncryptorRun(suite, Fresh(key, aad), calls);
            EncryptorEmits(suite, st, Emitted(results), PlaintextIn(calls, results), EncryptLost(calls, results))
    ensures var st := EncryptorRun(suite, Fresh(key, aad), calls).0; st.Live? ==> st.key == key && st.aad == aad
    decreases |calls|
  {
    hide EncryptorEmits, EncryptorStep;
    if calls == [] {
      EmitsNothing(suite, key, aad);
    } else {
      var last := |calls| - 1;
      var (before, results) := EncryptorRun(suite, Fresh(key, aad), calls[..last]);
      EncryptorRunEmits(suite, key, aad, calls[..last]);
      EncryptorRunKeeps(suite, Fresh(key, aad), calls[..last]);
      EncryptorStepKeeps(suite, before, calls[last]);
      EncryptorStepEmits(suite, before, calls[last], Emitted(results), PlaintextIn(calls[..last], results),
                         EncryptLost(calls[..last], results));
      var all := EncryptorRun(suite, Fresh(key, aad), calls).1;
      assert all[..last] == results;
    }
  }

  lemma EmitsNothing(suite: Suite, key: Key, aad: bytes)
    ensures EncryptorEmits(suite, Fresh(key, aad), [], [], 0) && DecryptorEmits(suite, Fresh(key, aad), [], [], 0)
  {
  }

  /** What a decryptor has emitted so far: the unverified plaintext of what it was given, if nothing was lost. */
  ghost predicate DecryptorEmits(suite: Suite, st: PacketState, emitted: bytes, ciphertext: bytes, lost: nat)
  {
    st.Live? ==>
      match st.phase
      case Ready => emitted == [] && ciphertext == [] && lost == 0
      case Active =>
        && st.cipher.Keyed?
        && |st.cipher.context.ciphertext| == |ciphertext| + lost
        && |emitted| == |ciphertext|
        && (lost == 0 ==>
              && st.cipher.context.ciphertext == ciphertext
              && emitted == XorStream(suite, st.key, st.cipher.context.nonce, 0, ciphertext))
      case Finished => true
  }

  lemma DecryptorStepEmits(suite: Suite, st: PacketState, call: DecryptorCall, emitted: bytes, ciphertext: bytes,
                           lost: nat)
    requires Consistent(st) && DecryptorEmits(suite, st, emitted, ciphertext, lost)
    ensures var (next, r) := DecryptorStep(suite, st, call);
            DecryptorEmits(suite, next, emitted + (if r.Ok? then r.value else []),
                           ciphertext + (if call.DecryptUpdate? && r.Ok? then call.ciphertext else []),
                           lost + LostByDecrypt(call, r))
  {
    hide XorStream;
    assert emitted + [] == emitted && ciphertext + [] == ciphertext;
    if InUse(st) && call.DecryptUpdate? {
      var c := st.cipher.context;
      assert c.ciphertext + [] == c.ciphertext;
      XorStreamSplit(suite, c.key, c.nonce, 0, ciphertext, call.ciphertext);
    }
  }

  /** The same for decryptors, which hand out plaintext before the tag has been checked. */
  lemma {:induction false} DecryptorRunEmits(suite: Suite, key: Key, aad: bytes, calls: seq<DecryptorCall>)
    ensures var (st, results) := DecryptorRun(suite, Fresh(key, aad), calls);
            DecryptorEmits(suite, st, Emitted(results), CiphertextIn(calls, results), DecryptLost(calls, results))
    ensures var st := DecryptorRun(suite, Fresh(key, aad), calls).0; st.Live? ==> st.key == key && st.aad == aad
    decreases |calls|
  {
    hide DecryptorEmits, DecryptorStep;
    if calls == [] {
      EmitsNothing(suite, key, aad);
    } else {
      var last := |calls| - 1;
      var (before, results) := DecryptorRun(suite, Fresh(key, aad), calls[..last]);
      DecryptorRunEmits(suite, key, aad, calls[..last]);
      DecryptorRunKeeps(suite, Fresh(key, aad), calls[..last]);
      DecryptorStepKeeps(suite, before, calls[last]);
      DecryptorStepEmits(suite, before, calls[last], Emitted(results), CiphertextIn(calls[..last], results),
                         DecryptLost(calls[..last], results));
      var all := DecryptorRun(suite, Fresh(key, aad), calls).1;
      assert all[..last] == results;
    }
  }

  /** An active decryptor was begun with the prefix of its nonce. */
  lemma {:induction false} DecryptorBegun(suite: Suite, key: Key, aad: bytes, calls: seq<DecryptorCall>)
    requires InUse(DecryptorRun(suite, Fresh(key, aad), calls).0)
    ensures var (st, results) := DecryptorRun(suite, Fresh(key, aad), calls);
            exists i :: 0 <= i < |calls| && calls[i].DecryptBegin? && results[i].Ok?
                        && calls[i].prefix == PrefixBytes(st.cipher.context.nonce)
    decreases |calls|
  {
    var last := |calls| - 1;
    var (before, results) := DecryptorRun(suite, Fresh(key, aad), calls[..last]);
    var (st, all) := DecryptorRun(suite, Fresh(key, aad), calls);
    assert all[..last] == results;
    DecryptorRunKeeps(suite, Fresh(key, aad), calls[..last]);
    if InUse(before) {
      DecryptorBegun(suite, key, aad, calls[..last]);
      var i :| 0 <= i < last && calls[i].DecryptBegin? && results[i].Ok?
               && calls[i].prefix == PrefixBytes(before.cipher.context.nonce);
      assert all[i] == results[i];
    } else {
      ValidPrefixExact(calls[last].prefix);
    }
  }

  /** The prefix a decryptor was begun with, the ciphertext its updates were given, and a tag. */
  function PacketIn(nonce: Nonce, calls: seq<DecryptorCall>, results: seq<Result<bytes>>, tag: bytes): bytes
    requires |calls| == |results|
  {
    PrefixBytes(nonce) + CiphertextIn(calls, results) + tag
  }

  /**
    A `finalize` that accepts a tag has seen a packet, if no failing update had absorbed anything: the prefix
    it was begun with, the ciphertext its updates were given and the tag are the packet of exactly the
    plaintext it has handed out.
   */
  lemma DecryptorAccepts(suite: Suite, key: Key, aad: bytes, calls: seq<DecryptorCall>, tag: bytes,
                         fault: FinalizeFault)
    requires var (st, results) := DecryptorRun(suite, Fresh(key, aad), calls);
             DecryptedCleanly(calls, results) && DecryptorStep(suite, st, DecryptFinalize(tag, fault)).1.Ok?
    ensures var (st, results) := DecryptorRun(suite, Fresh(key, aad), calls);
            && InUse(st)
            && var nonce := st.cipher.context.nonce;
               && (exists i :: 0 <= i < |calls| && calls[i].DecryptBegin? && results[i].Ok?
                               && calls[i].prefix == PrefixBytes(nonce))
               && PacketIn(nonce, calls, results, tag) == PacketBytes(suite, key, aad, nonce, Emitted(results))
  {
    hide DecryptorRun;
    var (st, results) := DecryptorRun(suite, Fresh(key, aad), calls);
    NothingLostDecrypting(calls, results);
    DecryptorRunEmits(suite, key, aad, calls);
    DecryptorRunKeeps(suite, Fresh(key, aad), calls);
    DecryptorBegun(suite, key, aad, calls);
    XorStreamCancels(suite, key, st.cipher.context.nonce, 0, CiphertextIn(calls, results));
  }

  // ---------- What does not depend on the primitives ----------

  ghost predicate Alike(a: PacketState, b: PacketState)
  {
    if a.Moved? || b.Moved? then a == b
    else a.phase == b.phase && a.cipher.NoContext? == b.cipher.NoContext? && a.cipher.Keyed? == b.cipher.Keyed?
  }

  lemma EncryptorStepsAlike(suite: Suite, other: Suite, st: PacketState, st': PacketState, call: EncryptorCall)
    requires Alike(st, st')
    ensures var (next, r) := EncryptorStep(suite, st, call); var (next', r') := EncryptorStep(other, st', call);
            Alike(next, next') && r.Ok? == r'.Ok? && (r.Err? ==> r == r')
  {
  }

  lemma DecryptorStepsAlike(suite: Suite, other: Suite, st: PacketState, st': PacketState, call: DecryptorCall)
    requires Alike(st, st')
    ensures var (next, r) := DecryptorStep(suite, st, call); var (next', r') := DecryptorStep(other, st', call);
            Alike(next, next') && (!call.DecryptFinalize? ==> r.Ok? == r'.Ok? && (r.Err? ==> r == r'))
  {
  }

  /** Phases, the calls that succeed and the codes of those that fail are the same whatever the primitives are. */
  lemma {:induction false} EncryptorRunsAlike(suite: Suite, other: Suite, st: PacketState, calls: seq<EncryptorCall>)
    ensures var (a, results) := EncryptorRun(suite, st, calls); var (b, results') := EncryptorRun(other, st, calls);
            && Alike(a, b)
            && PlaintextIn(calls, results) == PlaintextIn(calls, results')
            && EncryptLost(calls, results) == EncryptLost(calls, results')
    decreases |calls|
  {
    hide EncryptorStep, Alike;
    if calls == [] {
      AlikeItself(st);
    } else {
      var last := |calls| - 1;
      EncryptorRunsAlike(suite, other, st, calls[..last]);
      var (a, results) := EncryptorRun(suite, st, calls[..last]);
      var (b, results') := EncryptorRun(other, st, calls[..last]);
      EncryptorStepsAlike(suite, other, a, b, calls[last]);
      assert EncryptorRun(suite, st, calls).1[..last] == results;
      assert EncryptorRun(other, st, calls).1[..last] == results';
    }
  }

  lemma AlikeItself(st: PacketState)
    ensures Alike(st, st)
  {
  }

  /** For a decryptor all but the results of `finalize` are. */
  lemma {:induction false} DecryptorRunsAlike(suite: Suite, other: Suite, st: PacketState, calls: seq<DecryptorCall>)
    ensures var (a, results) := DecryptorRun(suite, st, calls); var (b, results') := DecryptorRun(other, st, calls);
            && Alike(a, b)
            && CiphertextIn(calls, results) == CiphertextIn(calls, results')
            && DecryptLost(calls, results) == DecryptLost(calls, results')
    decreases |calls|
  {
    hide DecryptorStep, Alike;
    if calls == [] {
      AlikeItself(st);
    } else {
      var last := |calls| - 1;
      DecryptorRunsAlike(suite, other, st, calls[..last]);
      var (a, results) := DecryptorRun(suite, st, calls[..last]);
      var (b, results') := DecryptorRun(other, st, calls[..last]);
      DecryptorStepsAlike(suite, other, a, b, calls[last]);
      assert DecryptorRun(suite, st, calls).1[..last] == results;
      assert DecryptorRun(other, st, calls).1[..last] == results';
    }
  }

  // ---------- Exactness ----------

  /** Primitives whose tag tells whether it covers this many bytes. */
  function Telling(size: nat): Suite
  {
    Suite((_, _, _) => 0, (_, _, _, c: bytes) => TagFor(|c| == size), (_, _, _) => None, (_, _, _, _, _) => None)
  }

  function TagFor(bit: bool): (t: Tag)
    ensures t[0] == if bit then 1 else 0
  {
    seq(TAG_SIZE, _ => if bit then 1 else 0)
  }

  /** Bytes that end in the tag of a longer ciphertext are not the packet of this plaintext. */
  lemma WrongSize(key: Key, aad: bytes, nonce: Nonce, plaintext: bytes, more: nat, s: bytes)
    requires more > 0 && |s| == PREFIX_SIZE + |plaintext| + TAG_SIZE && s[PREFIX_SIZE + |plaintext|] == 1
    ensures s != PacketBytes(Telling(|plaintext| + more), key, aad, nonce, plaintext)
  {
    var suite := Telling(|plaintext| + more);
    var ciphertext := XorStream(suite, key, nonce, 0, plaintext);
    assert suite.mac(key, nonce, PacketAad(aad), ciphertext)[0] == 0;
    var packet := PacketBytes(suite, key, aad, nonce, plaintext);
    assert packet[PREFIX_SIZE + |plaintext|] == 0;
  }

  /** The run has emitted the packet of what its successful updates were given. */
  ghost predicate EmitsPacket(suite: Suite, key: Key, aad: bytes, calls: seq<EncryptorCall>)
  {
    var results := EncryptorRun(suite, Fresh(key, aad), calls).1;
    exists nonce :: Emitted(results) == PacketBytes(suite, key, aad, nonce, PlaintextIn(calls, results))
  }

  ghost predicate HasFinished(st: PacketState)
  {
    st.Live? && st.phase.Finished?
  }

  /** If anything was lost, what a finished run emits is a packet of the wrong bytes under some primitives. */
  lemma FailedUpdateSpoils(suite: Suite, key: Key, aad: bytes, calls: seq<EncryptorCall>) returns (other: Suite)
    requires HasFinished(EncryptorRun(suite, Fresh(key, aad), calls).0)
    requires !EncryptedCleanly(calls, EncryptorRun(suite, Fresh(key, aad), calls).1)
    ensures !EmitsPacket(other, key, aad, calls)
  {
    hide EncryptorRun, Telling, PacketBytes;
    var (st, results) := EncryptorRun(suite, Fresh(key, aad), calls);
    NothingLostEncrypting(calls, results);
    var plaintext, lost := PlaintextIn(calls, results), EncryptLost(calls, results);
    other := Telling(|plaintext| + lost);
    EncryptorRunsAlike(suite, other, Fresh(key, aad), calls);
    EncryptorRunEmits(other, key, aad, calls);
    var (st', results') := EncryptorRun(other, Fresh(key, aad), calls);
    var emitted, size := Emitted(results'), PREFIX_SIZE + |plaintext|;
    var nonce, absorbed :| TagAtEnd(other, st', emitted, size, nonce, absorbed, |plaintext| + lost);
    TellingTag(|plaintext| + lost, key, nonce, PacketAad(aad), absorbed);
    assert emitted[size] == emitted[size..][0];
    forall n
      ensures emitted != PacketBytes(other, key, aad, n, plaintext)
    {
      WrongSize(key, aad, n, plaintext, lost, emitted);
    }
  }

  lemma TellingTag(size: nat, key: Key, nonce: Nonce, aad: bytes, c: bytes)
    requires |c| == size
    ensures Telling(size).mac(key, nonce, aad, c)[0] == 1
  {
  }

  /**
    A finished run has emitted the packet of what its successful updates were given, whatever the primitives
    are, if and only if no update that returned `backend_failure` had absorbed anything.
   */
  lemma EmitsPacketExactly(suite: Suite, key: Key, aad: bytes, calls: seq<EncryptorCall>)
    requires HasFinished(EncryptorRun(suite, Fresh(key, aad), calls).0)
    ensures (forall other: Suite :: EmitsPacket(other, key, aad, calls))
       <==> EncryptedCleanly(calls, EncryptorRun(suite, Fresh(key, aad), calls).1)
  {
    hide EncryptorRun, EmitsPacket, EncryptedCleanly;
    var results := EncryptorRun(suite, Fresh(key, aad), calls).1;
    if EncryptedCleanly(calls, results) {
      forall other: Suite
        ensures EmitsPacket(other, key, aad, calls)
      {
        EmitsWhenClean(suite, other, key, aad, calls);
      }
    } else {
      var other := FailedUpdateSpoils(suite, key, aad, calls);
    }
  }

  lemma EmitsWhenClean(suite: Suite, other: Suite, key: Key, aad: bytes, calls: seq<EncryptorCall>)
    requires HasFinished(EncryptorRun(suite, Fresh(key, aad), calls).0)
    requires EncryptedCleanly(calls, EncryptorRun(suite, Fresh(key, aad), calls).1)
    ensures EmitsPacket(other, key, aad, calls)
  {
    hide EncryptorRun, PacketBytes;
    NothingLostEncrypting(calls, EncryptorRun(suite, Fresh(key, aad), calls).1);
    EncryptorRunsAlike(suite, other, Fresh(key, aad), calls);
    EncryptorRunEmits(other, key, aad, calls);
  }

  /** If `finalize` accepts this tag, the decryptor has seen the packet of what it has handed out. */
  ghost predicate AcceptsOnlyPacket(suite: Suite, key: Key, aad: bytes, calls: seq<DecryptorCall>, tag: bytes)
  {
    var (st, results) := DecryptorRun(suite, Fresh(key, aad), calls);
    DecryptorStep(suite, st, DecryptFinalize(tag, FinalizeWorks)).1.Ok? ==>
      exists nonce :: PacketIn(nonce, calls, results, tag) == PacketBytes(suite, key, aad, nonce, Emitted(results))
  }

  /** If anything was lost, a decryptor in use accepts something else under some primitives. */
  lemma FailedUpdateMisleads(suite: Suite, key: Key, aad: bytes, calls: seq<DecryptorCall>)
    returns (other: Suite, tag: bytes)
    requires InUse(DecryptorRun(suite, Fresh(key, aad), calls).0)
    requires !DecryptedCleanly(calls, DecryptorRun(suite, Fresh(key, aad), calls).1)
    ensures !AcceptsOnlyPacket(other, key, aad, calls, tag)
  {
    hide DecryptorRun, Telling, PacketBytes;
    var results := DecryptorRun(suite, Fresh(key, aad), calls).1;
    NothingLostDecrypting(calls, results);
    var ciphertext, lost := CiphertextIn(calls, results), DecryptLost(calls, results);
    other := Telling(|ciphertext| + lost);
    DecryptorRunsAlike(suite, other, Fresh(key, aad), calls);
    DecryptorRunEmits(other, key, aad, calls);
    var (st', results') := DecryptorRun(other, Fresh(key, aad), calls);
    var c := st'.cipher.context;
    tag := ContextTag(other, c);
    TellingTag(|ciphertext| + lost, c.key, c.nonce, c.aad, c.ciphertext);
    forall n
      ensures PacketIn(n, calls, results', tag) != PacketBytes(other, key, aad, n, Emitted(results'))
    {
      WrongSize(key, aad, n, Emitted(results'), lost, PacketIn(n, calls, results', tag));
    }
  }

  /**
    A decryptor in use accepts nothing but the packet of what it has handed out, whatever the primitives are,
    if and only if no update that returned `backend_failure` had absorbed anything.
   */
  lemma AcceptsPacketExactly(suite: Suite, key: Key, aad: bytes, calls: seq<DecryptorCall>)
    requires InUse(DecryptorRun(suite, Fresh(key, aad), calls).0)
    ensures (forall other: Suite, tag: bytes :: AcceptsOnlyPacket(other, key, aad, calls, tag))
       <==> DecryptedCleanly(calls, DecryptorRun(suite, Fresh(key, aad), calls).1)
  {
    hide DecryptorRun, AcceptsOnlyPacket, DecryptedCleanly;
    var results := DecryptorRun(suite, Fresh(key, aad), calls).1;
    if DecryptedCleanly(calls, results) {
      forall other: Suite, tag: bytes
        ensures AcceptsOnlyPacket(other, key, aad, calls, tag)
      {
        AcceptsWhenClean(suite, other, key, aad, calls, tag);
      }
    } else {
      var other, tag := FailedUpdateMisleads(suite, key, aad, calls);
    }
  }

  lemma AcceptsWhenClean(suite: Suite, other: Suite, key: Key, aad: bytes, calls: seq<DecryptorCall>, tag: bytes)
    requires DecryptedCleanly(calls, DecryptorRun(suite, Fresh(key, aad), calls).1)
    ensures AcceptsOnlyPacket(other, key, aad, calls, tag)
  {
    hide DecryptorRun, PacketBytes, DecryptorStep, DecryptedCleanly;
    var (st, results) := DecryptorRun(other, Fresh(key, aad), calls);
    NothingLostDecrypting(calls, DecryptorRun(suite, Fresh(key, aad), calls).1);
    NothingLostDecrypting(calls, results);
    DecryptorRunsAlike(suite, other, Fresh(key, aad), calls);
    if DecryptorStep(other, st, DecryptFinalize(tag, FinalizeWorks)).1.Ok? {
      DecryptorAccepts(other, key, aad, calls, tag, FinalizeWorks);
    }
  }

  /** Such runs exist: an update fails after OpenSSL has absorbed `part`, and `finalize` still succeeds. */
  lemma SpoiledRun(suite: Suite, key: Key, aad: bytes, nonce: Nonce, part: bytes)
    requires 0 < |part| <= INT_MAX
    ensures var calls := [EncryptBegin(nonce, BeginWorks), EncryptUpdate(part, UpdateFails(part)),
                          EncryptFinalize(FinalizeWorks)];
            var (st, results) := EncryptorRun(suite, Fresh(key, aad), calls);
            && HasFinished(st) && results[1] == Err(BackendFailure) && results[2].Ok?
            && !EncryptedCleanly(calls, results)
  {
    var st := Fresh(key, aad);
    var a, b := EncryptBegin(nonce, BeginWorks), EncryptUpdate(part, UpdateFails(part));
    var c := EncryptFinalize(FinalizeWorks);
    assert [] + [a] == [a] && [a] + [b] == [a, b] && [a, b] + [c] == [a, b, c];
    hide EncryptorRun;
    assert EncryptorRun(suite, st, []) == (st, []) by { NoCalls(suite, st); }
    EncryptorRunSnoc(suite, st, [], a);
    EncryptorRunSnoc(suite, st, [a], b);
    EncryptorRunSnoc(suite, st, [a, b], c);
    var results := EncryptorRun(suite, st, [a, b, c]).1;
    assert results[1] == Err(BackendFailure) && [a, b, c][1] == b;
  }

  lemma NoCalls(suite: Suite, st: PacketState)
    ensures EncryptorRun(suite, st, []) == (st, [])
  {
  }
}
