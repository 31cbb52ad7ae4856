/**
  AES-256-GCM as the repository uses it. The keystream, the tag, HKDF-SHA-256 and scrypt are
  arbitrary functions: everything proved holds for every choice of them. Encryption xors the
  keystream and tags the result, decryption compares the tag and xors
  (sections 7.1 and 7.2 of NIST SP 800-38D).
 */
module Gcm {
  import opened Bytes
  import opened Errors

  const NONCE_SIZE := 12
  const TAG_SIZE := 16
  const KEY_SIZE := 32

  type Tag = t: bytes | |t| == TAG_SIZE witness seq(TAG_SIZE, _ => 0)
  type Key = k: bytes | |k| == KEY_SIZE witness seq(KEY_SIZE, _ => 0)
  type Nonce = n: bytes | |n| == NONCE_SIZE witness seq(NONCE_SIZE, _ => 0)

  /** The foreign primitives. `None` is a failing call. */
  datatype Suite = Suite(
    keystream: (Key, Nonce, nat) -> byte,
    mac: (Key, Nonce, bytes, bytes) -> Tag,
    hkdf: (bytes, bytes, bytes) -> Option<Key>,
    scrypt: (bytes, bytes, nat, nat, nat) -> Option<Key>)

  /** `data` xored with the keystream from position `offset` on. */
  function XorStream(suite: Suite, key: Key, nonce: Nonce, offset: nat, data: bytes): (r: bytes)
    ensures |r| == |data|
  {
    seq(|data|, i requires 0 <= i < |data| => Xor(data[i], suite.keystream(key, nonce, offset + i)))
  }

  lemma XorStreamCancels(suite: Suite, key: Key, nonce: Nonce, offset: nat, data: bytes)
    ensures XorStream(suite, key, nonce, offset, XorStream(suite, key, nonce, offset, data)) == data
  {
    var once := XorStream(suite, key, nonce, offset, data);
    var twice := XorStream(suite, key, nonce, offset, once);
    forall i | 0 <= i < |data|
      ensures twice[i] == data[i]
    {
      XorCancels(data[i], suite.keystream(key, nonce, offset + i));
    }
  }

  /** Byte `i` of the result is byte `i` of the data, with those bits flipped that are set in the keystream. */
  lemma XorStreamExact(suite: Suite, key: Key, nonce: Nonce, offset: nat, data: bytes, i: nat)
    requires i < |data|
    ensures var k := suite.keystream(key, nonce, offset + i);
            var r := XorStream(suite, key, nonce, offset, data)[i];
            && (forall j :: 0 <= j < 8 ==> Bit(r, j) == if Bit(data[i], j) != Bit(k, j) then 1 else 0)
            && (data[i] == 0 ==> r == k)
  {
    XorExact(data[i], suite.keystream(key, nonce, offset + i));
  }

  lemma XorStreamInjective(suite: Suite, key: Key, nonce: Nonce, offset: nat, a: bytes, b: bytes)
    requires XorStream(suite, key, nonce, offset, a) == XorStream(suite, key, nonce, offset, b)
    ensures a == b
  {
    XorStreamCancels(suite, key, nonce, offset, a);
    XorStreamCancels(suite, key, nonce, offset, b);
  }

  lemma XorStreamSplit(suite: Suite, key: Key, nonce: Nonce, offset: nat, a: bytes, b: bytes)
    ensures XorStream(suite, key, nonce, offset, a + b)
         == XorStream(suite, key, nonce, offset, a) + XorStream(suite, key, nonce, offset + |a|, b)
  {
  }

  /** What an initialised cipher context has absorbed so far. */
  datatype Context = Context(key: Key, nonce: Nonce, aad: bytes, ciphertext: bytes)

  function ContextTag(suite: Suite, c: Context): Tag
  {
    suite.mac(c.key, c.nonce, c.aad, c.ciphertext)
  }

  /** `EVP_CIPHER_CTX` after initialisation with a key and a nonce. */
  class CipherContext {
    const suite: Suite
    var key: Key
    var nonce: Nonce
    var aad: bytes
    var ciphertext: bytes

    function View(): Context
      reads this
    {
      Context(key, nonce, aad, ciphertext)
    }

    constructor (suite: Suite, key: Key, nonce: Nonce)
      ensures this.suite == suite
      ensures View() == Context(key, nonce, [], [])
    {
      this.suite := suite;
      this.key := key;
      this.nonce := nonce;
      aad := [];
      ciphertext := [];
    }

    method UpdateAad(data: bytes)
      modifies this`aad
      ensures View() == old(View()).(aad := old(aad) + data)
    {
      aad := aad + data;
    }

    method EncryptUpdate(plaintext: bytes) returns (r: bytes)
      modifies this`ciphertext
      ensures r == XorStream(suite, key, nonce, |old(ciphertext)|, plaintext)
      ensures View() == old(View()).(ciphertext := old(ciphertext) + r)
    {
      r := XorStream(suite, key, nonce, |ciphertext|, plaintext);
      ciphertext := ciphertext + r;
    }

    method DecryptUpdate(data: bytes) returns (r: bytes)
      modifies this`ciphertext
      ensures r == XorStream(suite, key, nonce, |old(ciphertext)|, data)
      ensures View() == old(View()).(ciphertext := old(ciphertext) + data)
    {
      r := XorStream(suite, key, nonce, |ciphertext|, data);
      ciphertext := ciphertext + data;
    }

    function FinalTag(): Tag
      reads this
    {
      ContextTag(suite, View())
    }
  }
}
