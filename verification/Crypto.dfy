/**
 The ciphers and the compressor, which are library code, as records of functions with
 the laws the protocol relies on, and one toy instance of each that meets its laws.
 */
module Crypto {
  import opened Wrappers
  import opened Wire

  const NONCE_SIZE: nat := 12
  const TAG_SIZE: nat := 16
  const KEY_SIZE: nat := 32

  type Key = Bytes

  type Nonce = n: Bytes | |n| == NONCE_SIZE witness seq(NONCE_SIZE, _ => 0)

  /** What a cipher cell holds: the key's cipher and the nonce of the next packet. */
  datatype Credential = Credential(key: Key, nonce: Nonce)

  /** AES-256-GCM as section 5.2 of RFC 5116 sizes it, with empty associated data. */
  datatype Aead = Aead(
      seal: (Key, Nonce, Bytes) -> Option<Bytes>,
      open: (Key, Nonce, Bytes) -> Option<Bytes>,
      maxPlain: nat) {

    /**
     Sealing fails on too long a plaintext only and adds a tag; opening undoes it. That a
     packet never opens under another nonce of the same key is the usual idealisation.
     */
    ghost predicate Lawful() {
      && (forall k, n, p :: seal(k, n, p).Some? <==> |p| <= maxPlain)
      && (forall k, n, p :: seal(k, n, p).Some? ==> |seal(k, n, p).value| == |p| + TAG_SIZE)
      && (forall k, n, p :: seal(k, n, p).Some? ==> open(k, n, seal(k, n, p).value) == Some(p))
      && (forall k, n, p, m: Nonce :: seal(k, n, p).Some? && m != n ==> open(k, m, seal(k, n, p).value) == None)
    }
  }

  /** The laws of a cipher at one key, nonce and plaintext. */
  lemma AeadLaws(a: Aead, k: Key, n: Nonce, p: Bytes)
    requires a.Lawful()
    ensures var c := a.seal(k, n, p);
      && (c.Some? <==> |p| <= a.maxPlain)
      && (c.Some? ==>
            && |c.value| == |p| + TAG_SIZE
            && a.open(k, n, c.value) == Some(p)
            && forall m: Nonce :: m != n ==> a.open(k, m, c.value) == None)
  {
  }

  /** DEFLATE (RFC 1951) at some level. */
  datatype Codec = Codec(deflate: Bytes -> Bytes, inflate: Bytes -> Option<Bytes>) {

    ghost predicate Lawful() {
      forall b :: inflate(deflate(b)) == Some(b)
    }
  }

  /**
   RSA with OAEP padding (section 7.1 of RFC 8017). A private key is any value of which
   `generated` says that key generation can return it; `seed` is the randomness of one encryption.
   */
  datatype Rsa = Rsa(
      generated: Bytes -> bool,
      modulus: Bytes -> Bytes,
      exponent: Bytes -> Bytes,
      compose: (Bytes, Bytes) -> Option<Bytes>,
      encrypt: (Bytes, Bytes, Bytes) -> Option<Bytes>,
      decrypt: (Bytes, Bytes) -> Option<Bytes>) {

    /** The public key of a private key, as the server rebuilds it from its two numbers. */
    function Public(private: Bytes): Option<Bytes> {
      compose(modulus(private), exponent(private))
    }

    ghost predicate Lawful() {
      && (forall d :: generated(d) ==> |modulus(d)| < USIZE_LIMIT && |exponent(d)| < USIZE_LIMIT && Public(d).Some?)
      && (forall d, seed, m :: generated(d) && Public(d).Some? && |m| == KEY_SIZE ==>
            var c := encrypt(Public(d).value, seed, m);
            c.Some? && |c.value| < USIZE_LIMIT && decrypt(d, c.value) == Some(m))
    }
  }

  function ToySeal(k: Key, n: Nonce, p: Bytes): Option<Bytes> {
    if |p| <= 1000 then Some(p + n + [0, 0, 0, 0]) else None
  }

  function ToyOpen(k: Key, n: Nonce, c: Bytes): Option<Bytes> {
    if |c| >= TAG_SIZE && c[|c| - TAG_SIZE..|c| - 4] == n then Some(c[..|c| - TAG_SIZE]) else None
  }

  function ToyAead(): Aead {
    Aead(ToySeal, ToyOpen, 1000)
  }

  lemma ToyAeadLawful()
    ensures ToyAead().Lawful()
  {
    forall k, n: Nonce, p, m: Nonce | ToySeal(k, n, p).Some?
      ensures ToyOpen(k, m, ToySeal(k, n, p).value) == if m == n then Some(p) else None
    {
      var c := ToySeal(k, n, p).value;
      assert c[|c| - TAG_SIZE..|c| - 4] == n;
      assert c[..|c| - TAG_SIZE] == p;
    }
  }

  function ToyCodec(): Codec {
    Codec(b => b + [0], b => if b == [] then None else Some(b[..|b| - 1]))
  }

  lemma ToyCodecLawful()
    ensures ToyCodec().Lawful()
  {
    forall b: Bytes
      ensures ToyCodec().inflate(ToyCodec().deflate(b)) == Some(b)
    {
      assert (b + [0])[..|b|] == b;
    }
  }

  function ToyRsa(): Rsa {
    Rsa(d => |d| < USIZE_LIMIT, d => d, d => [], (n, e) => Some(n), (p, seed, m) => Some(m), (d, c) => Some(c))
  }

  lemma ToyRsaLawful()
    ensures ToyRsa().Lawful()
  {
  }
}
