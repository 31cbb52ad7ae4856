/**
  SKT1 packets: the incremental objects of `src/packet_stream.cpp` with the layout of
  `src/aead_internal.hpp`. The functions say what each call does to the state of an object, the
  classes are proved to do it.
 */
module PacketStream {
  import opened Bytes
  import opened Errors
  import opened Gcm

  /** "SKT1" and the version byte. */
  const PACKET_HEADER: bytes := [0x53, 0x4b, 0x54, 0x31, 1]

  const HEADER_SIZE := 5
  const PREFIX_SIZE := HEADER_SIZE + NONCE_SIZE
  const OVERHEAD := PREFIX_SIZE + TAG_SIZE

  datatype Phase = Ready | Active | Finished

  /** The `EVP_CIPHER_CTX` of an object: absent, created but never completely initialised, or in use. */
  datatype Cipher = NoContext | Unkeyed | Keyed(context: Context)

  /** An object that was moved from, or its `impl`. */
  datatype PacketState = Moved | Live(key: Key, aad: bytes, phase: Phase, cipher: Cipher)

  function Fresh(key: Key, aad: bytes): PacketState
  {
    Live(key, aad, Ready, NoContext)
  }

  // ---------- OpenSSL failures within one call ----------

  /** Which step of `begin` fails. */
  datatype BeginFault = BeginWorks | RandomFails | ContextFails | InitFails | HeaderFails | AadFails

  /** A failing update may still have absorbed something. */
  datatype UpdateFault = UpdateWorks | UpdateFails(absorbed: bytes)

  /** Which step of `finalize` fails: the closing call, or handing over the tag. */
  datatype FinalizeFault = FinalizeWorks | FinalFails | TagFails

  // ---------- Layout ----------

  function PrefixBytes(nonce: Nonce): (p: bytes)
    ensures |p| == PREFIX_SIZE
  {
    PACKET_HEADER + nonce
  }

  predicate ValidPrefix(prefix: bytes)
  {
    && |prefix| == PREFIX_SIZE
    && prefix[..4] == PACKET_HEADER[..4]
    && prefix[4] == PACKET_HEADER[4]
  }

  lemma ValidPrefixExact(prefix: bytes)
    requires |prefix| == PREFIX_SIZE
    ensures ValidPrefix(prefix) <==> prefix == PrefixBytes(prefix[HEADER_SIZE..])
  {
    if ValidPrefix(prefix) {
      assert prefix == prefix[..4] + [prefix[4]] + prefix[5..];
    }
    if prefix == PrefixBytes(prefix[HEADER_SIZE..]) {
      assert prefix[..4] == PACKET_HEADER[..4] && prefix[4] == PACKET_HEADER[4];
    }
  }

  /** What the tag of a packet covers. */
  function PacketAad(aad: bytes): bytes
  {
    PACKET_HEADER + aad
  }

  /** The packet that carries `plaintext` under `nonce`. */
  function PacketBytes(suite: Suite, key: Key, aad: bytes, nonce: Nonce, plaintext: bytes): bytes
  {
    var ciphertext := XorStream(suite, key, nonce, 0, plaintext);
    PrefixBytes(nonce) + ciphertext + suite.mac(key, nonce, PacketAad(aad), ciphertext)
  }

  // ---------- What the calls do ----------

  /** The context `begin` leaves behind. */
  function BegunCipher(st: PacketState, nonce: Nonce, fault: BeginFault): Cipher
    requires st.Live?
  {
    match fault
    case BeginWorks => Keyed(Context(st.key, nonce, PacketAad(st.aad), []))
    case RandomFails | ContextFails => st.cipher
    case InitFails => Unkeyed
    case HeaderFails => Keyed(Context(st.key, nonce, [], []))
    case AadFails => Keyed(Context(st.key, nonce, PACKET_HEADER, []))
  }

  function Begun(st: PacketState, nonce: Nonce, fault: BeginFault): PacketState
    requires st.Live?
  {
    st.(cipher := BegunCipher(st, nonce, fault), phase := if fault.BeginWorks? then Active else st.phase)
  }

  datatype EncryptorCall =
    | EncryptBegin(nonce: Nonce, beginFault: BeginFault)
    | EncryptUpdate(plaintext: bytes, updateFault: UpdateFault)
    | EncryptFinalize(finalizeFault: FinalizeFault)

  datatype DecryptorCall =
    | DecryptBegin(prefix: bytes, beginFault: BeginFault)
    | DecryptUpdate(ciphertext: bytes, updateFault: UpdateFault)
    | DecryptFinalize(tag: bytes, finalizeFault: FinalizeFault)

  /** The state is one the next operation needs a context for. */
  predicate InUse(st: PacketState)
  {
    st.Live? && st.phase.Active? && st.cipher.Keyed?
  }

  function Absorbed(st: PacketState, more: bytes): PacketState
    requires InUse(st)
  {
    st.(cipher := Keyed(st.cipher.context.(ciphertext := st.cipher.context.ciphertext + more)))
  }

  function Ended(st: PacketState): PacketState
    requires st.Live?
  {
    st.(cipher := NoContext, phase := Finished)
  }

  function EncryptorStep(suite: Suite, st: PacketState, call: EncryptorCall): (PacketState, Result<bytes>)
  {
    match call
    case EncryptBegin(nonce, fault) =>
      if st.Moved? || !st.phase.Ready? then (st, Err(InvalidInput))
      else (Begun(st, nonce, fault), if fault.BeginWorks? then Ok(PrefixBytes(nonce)) else Err(BackendFailure))
    case EncryptUpdate(plaintext, fault) =>
      if !InUse(st) then (st, Err(InvalidInput))
      else if |plaintext| > INT_MAX then (st, Err(InvalidInput))
      else if plaintext == [] then (st, Ok([]))
      else if fault.UpdateFails? then (Absorbed(st, fault.absorbed), Err(BackendFailure))
      else
        var c := st.cipher.context;
        var ciphertext := XorStream(suite, c.key, c.nonce, |c.ciphertext|, plaintext);
        (Absorbed(st, ciphertext), Ok(ciphertext))
    case EncryptFinalize(fault) =>
      if !InUse(st) then (st, Err(InvalidInput))
      else if !fault.FinalizeWorks? then (st, Err(BackendFailure))
      else (Ended(st), Ok(ContextTag(suite, st.cipher.context)))
  }

  function DecryptorStep(suite: Suite, st: PacketState, call: DecryptorCall): (PacketState, Result<bytes>)
  {
    match call
    case DecryptBegin(prefix, fault) =>
      if st.Moved? || !st.phase.Ready? then (st, Err(InvalidInput))
      else if !ValidPrefix(prefix) then (st, Err(InvalidPacket))
      else (Begun(st, prefix[HEADER_SIZE..], fault), if fault.BeginWorks? then Ok([]) else Err(BackendFailure))
    case DecryptUpdate(ciphertext, fault) =>
      if !InUse(st) then (st, Err(InvalidInput))
      else if |ciphertext| > INT_MAX then (st, Err(InvalidInput))
      else if ciphertext == [] then (st, Ok([]))
      else if fault.UpdateFails? then (Absorbed(st, fault.absorbed), Err(BackendFailure))
      else
        var c := st.cipher.context;
        (Absorbed(st, ciphertext), Ok(XorStream(suite, c.key, c.nonce, |c.ciphertext|, ciphertext)))
    case DecryptFinalize(tag, fault) =>
      if !InUse(st) then (st, Err(InvalidInput))
      else if |tag| != TAG_SIZE then (Ended(st), Err(InvalidPacket))
      else if fault.TagFails? then (st, Err(BackendFailure))
      else if fault.FinalFails? || tag != ContextTag(suite, st.cipher.context) then
        (Ended(st), Err(AuthenticationFailed))
      else (Ended(st), Ok([]))
  }

  /**
    What every call keeps: an active object has a keyed context with header and associated data absorbed in
    order, a finished one has none.
   */
  ghost predicate Consistent(st: PacketState)
  {
    st.Live? ==>
      && (st.phase.Active? ==>
            && st.cipher.Keyed?
            && st.cipher.context.key == st.key
            && st.cipher.context.aad == PacketAad(st.aad))
      && (st.phase.Finished? ==> st.cipher.NoContext?)
  }

  // ---------- The objects ----------

  /** `packet_encryptor::impl` and `packet_decryptor::impl`. */
  class Impl {
    const suite: Suite
    const key: Key
    const aad: bytes
    var context: CipherContext?
    var keyed: bool
    var phase: Phase

    constructor (suite: Suite, key: Key, aad: bytes)
      ensures this.suite == suite && this.key == key && this.aad == aad
      ensures context == null && phase == Ready
    {
      this.suite := suite;
      this.key := key;
      this.aad := aad;
      context := null;
      keyed := false;
      phase := Ready;
    }

    function Cipher(): Cipher
      reads this, context
    {
      if context == null then NoContext else if keyed then Keyed(context.View()) else Unkeyed
    }

    /** The context belongs to the suite of the object. */
    ghost predicate Valid()
      reads this, context
    {
      context != null ==> context.suite == suite
    }

    function View(): PacketState
      reads this, context
    {
      Live(key, aad, phase, Cipher())
    }

    /** Drawing the nonce, `make_context`, initialisation and the two `update_aad` calls, up to the failing one. */
    method Start(nonce: Nonce, fault: BeginFault) returns (ok: bool)
      requires Valid()
      modifies this
      ensures Valid() && ok == fault.BeginWorks?
      ensures View() == Begun(old(View()), nonce, fault)
      ensures fresh(context) || context == old(context)
    {
      if fault.RandomFails? || fault.ContextFails? {
        return false;
      }
      var c := new CipherContext(suite, key, nonce);
      context := c;
      keyed := !fault.InitFails?;
      if fault.InitFails? || fault.HeaderFails? {
        return false;
      }
      c.UpdateAad(PACKET_HEADER);
      assert [] + PACKET_HEADER == PACKET_HEADER;
      if fault.AadFails? {
        return false;
      }
      c.UpdateAad(aad);
      phase := Active;
      return true;
    }
  }

  /** Creating a `packet_encryptor`. */
  method MakeEncryptor(suite: Suite, key: Key, aad: bytes) returns (r: Result<PacketEncryptor>)
    ensures if |aad| > INT_MAX then r == Err(InvalidInput)
            else r.Ok? && fresh(r.value) && r.value.Valid() && r.value.State() == Fresh(key, aad)
                 && r.value.impl != null && fresh(r.value.impl)
                 && r.value.impl.suite == suite && r.value.impl.context == null
  {
    if |aad| > INT_MAX {
      return Err(InvalidInput);
    }
    var made := new PacketEncryptor(suite, key, aad);
    return Ok(made);
  }

  /** `packet_encryptor`. */
  class PacketEncryptor {
    var impl: Impl?

    function State(): PacketState
      reads this, impl, if impl == null then null else impl.context
    {
      if impl == null then Moved else impl.View()
    }

    ghost predicate Valid()
      reads this, impl, if impl == null then null else impl.context
    {
      impl != null ==> impl.Valid() && Consistent(impl.View())
    }

    constructor (suite: Suite, key: Key, aad: bytes)
      requires |aad| <= INT_MAX
      ensures Valid() && State() == Fresh(key, aad)
      ensures impl != null && fresh(impl) && impl.suite == suite && impl.context == null
    {
      impl := new Impl(suite, key, aad);
    }

    /** Move construction and move assignment; an object moved onto itself keeps its state. */
    method MoveFrom(other: PacketEncryptor)
      requires other.Valid()
      modifies this, other
      ensures Valid() && State() == old(other.State()) && impl == old(other.impl)
      ensures other != this ==> other.State() == Moved && other.impl == null
    {
      var released := other.impl;
      other.impl := null;
      impl := released;
    }

    method Begin(nonce: Nonce, fault: BeginFault) returns (r: Result<bytes>)
      requires Valid()
      modifies impl
      ensures Valid() && impl == old(impl)
      ensures impl != null ==> (State(), r) == EncryptorStep(impl.suite, old(State()), EncryptBegin(nonce, fault))
      ensures impl == null ==> r == Err(InvalidInput)
      ensures impl != null ==> fresh(impl.context) || impl.context == old(impl.context)
    {
      if impl == null {
        return Err(InvalidInput);
      }
      if impl.phase != Ready {
        return Err(InvalidInput);
      }
      var ok := impl.Start(nonce, fault);
      return if ok then Ok(PrefixBytes(nonce)) else Err(BackendFailure);
    }

    method Update(plaintext: bytes, fault: UpdateFault) returns (r: Result<bytes>)
      requires Valid()
      modifies if impl == null then null else impl.context
      ensures Valid()
      ensures impl != null ==> (State(), r) == EncryptorStep(impl.suite, old(State()), EncryptUpdate(plaintext, fault))
      ensures impl == null ==> r == Err(InvalidInput)
    {
      if impl == null {
        return Err(InvalidInput);
      }
      if impl.phase != Active {
        return Err(InvalidInput);
      }
      if |plaintext| > INT_MAX {
        return Err(InvalidInput);
      }
      if |plaintext| == 0 {
        return Ok([]);
      }
      match fault
      case UpdateFails(absorbed) =>
        impl.context.ciphertext := impl.context.ciphertext + absorbed;
        return Err(BackendFailure);
      case UpdateWorks =>
        var ciphertext := impl.context.EncryptUpdate(plaintext);
        return Ok(ciphertext);
    }

    method Finalize(fault: FinalizeFault) returns (r: Result<bytes>)
      requires Valid()
      modifies impl
      ensures Valid() && impl == old(impl)
      ensures impl != null ==> (State(), r) == EncryptorStep(impl.suite, old(State()), EncryptFinalize(fault))
      ensures impl == null ==> r == Err(InvalidInput)
    {
      if impl == null {
        return Err(InvalidInput);
      }
      if impl.phase != Active {
        return Err(InvalidInput);
      }
      if fault.FinalFails? {
        return Err(BackendFailure);
      }
      if fault.TagFails? {
        return Err(BackendFailure);
      }
      var tag := impl.context.FinalTag();
      impl.context := null;
      impl.phase := Finished;
      return Ok(tag);
    }
  }

  /** Creating a `packet_decryptor`. */
  method MakeDecryptor(suite: Suite, key: Key, aad: bytes) returns (r: Result<PacketDecryptor>)
    ensures if |aad| > INT_MAX then r == Err(InvalidInput)
            else r.Ok? && fresh(r.value) && r.value.Valid() && r.value.State() == Fresh(key, aad)
                 && r.value.impl != null && fresh(r.value.impl)
                 && r.value.impl.suite == suite && r.value.impl.context == null
  {
    if |aad| > INT_MAX {
      return Err(InvalidInput);
    }
    var made := new PacketDecryptor(suite, key, aad);
    return Ok(made);
  }

  /** `packet_decryptor`. */
  class PacketDecryptor {
    var impl: Impl?

    function State(): PacketState
      reads this, impl, if impl == null then null else impl.context
    {
      if impl == null then Moved else impl.View()
    }

    ghost predicate Valid()
      reads this, impl, if impl == null then null else impl.context
    {
      impl != null ==> impl.Valid() && Consistent(impl.View())
    }

    constructor (suite: Suite, key: Key, aad: bytes)
      requires |aad| <= INT_MAX
      ensures Valid() && State() == Fresh(key, aad)
      ensures impl != null && fresh(impl) && impl.suite == suite && impl.context == null
    {
      impl := new Impl(suite, key, aad);
    }

    method MoveFrom(other: PacketDecryptor)
      requires other.Valid()
      modifies this, other
      ensures Valid() && State() == old(other.State()) && impl == old(other.impl)
      ensures other != this ==> other.State() == Moved && other.impl == null
    {
      var released := other.impl;
      other.impl := null;
      impl := released;
    }

    method Begin(prefix: bytes, fault: BeginFault) returns (r: Result<bytes>)
      requires Valid()
      modifies impl
      ensures Valid() && impl == old(impl)
      ensures impl != null ==> (State(), r) == DecryptorStep(impl.suite, old(State()), DecryptBegin(prefix, fault))
      ensures impl == null ==> r == Err(InvalidInput)
      ensures impl != null ==> fresh(impl.context) || impl.context == old(impl.context)
    {
      if impl == null {
        return Err(InvalidInput);
      }
      if impl.phase != Ready {
        return Err(InvalidInput);
      }
      if !ValidPrefix(prefix) {
        return Err(InvalidPacket);
      }
      var ok := impl.Start(prefix[HEADER_SIZE..], fault);
      return if ok then Ok([]) else Err(BackendFailure);
    }

    method Update(ciphertext: bytes, fault: UpdateFault) returns (r: Result<bytes>)
      requires Valid()
      modifies if impl == null then null else impl.context
      ensures Valid()
      ensures impl != null ==> (State(), r) == DecryptorStep(impl.suite, old(State()), DecryptUpdate(ciphertext, fault))
      ensures impl == null ==> r == Err(InvalidInput)
    {
      if impl == null {
        return Err(InvalidInput);
      }
      if impl.phase != Active {
        return Err(InvalidInput);
      }
      if |ciphertext| > INT_MAX {
        return Err(InvalidInput);
      }
      if |ciphertext| == 0 {
        return Ok([]);
      }
      match fault
      case UpdateFails(absorbed) =>
        impl.context.ciphertext := impl.context.ciphertext + absorbed;
        return Err(BackendFailure);
      case UpdateWorks =>
        var plaintext := impl.context.DecryptUpdate(ciphertext);
        return Ok(plaintext);
    }

    method Finalize(tag: bytes, fault: FinalizeFault) returns (r: Result<bytes>)
      requires Valid()
      modifies impl
      ensures Valid() && impl == old(impl)
      ensures impl != null ==> (State(), r) == DecryptorStep(impl.suite, old(State()), DecryptFinalize(tag, fault))
      ensures impl == null ==> r == Err(InvalidInput)
    {
      if impl == null {
        return Err(InvalidInput);
      }
      if impl.phase != Active {
        return Err(InvalidInput);
      }
      if |tag| != TAG_SIZE {
        impl.context := null;
        impl.phase := Finished;
        return Err(InvalidPacket);
      }
      if fault.TagFails? {
        return Err(BackendFailure);
      }
      if fault.FinalFails? || tag != impl.context.FinalTag() {
        impl.context := null;
        impl.phase := Finished;
        return Err(AuthenticationFailed);
      }
      impl.context := null;
      impl.phase := Finished;
      return Ok([]);
    }
  }
}
