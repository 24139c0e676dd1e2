/** Authenticated encryption as the framing layer sees it: a sealer and an opener that number
    their calls. */
module Aead {
  import opened Bytes
  import opened Varint
  import opened ChunkNonce

  /** `seal` and `open` take the number of the call; only the first `messages` numbers are answered.
      An `eager` counter, that of the response context, moves before the cipher is tried and starts
      over when it is refused; the other, that of section 5.2 of RFC 9180, moves on success only. */
  datatype Aead = Aead(
    tagLen: nat,
    messages: nat,
    eager: bool,
    seal: (nat, bytes, bytes) -> (bytes, bytes),
    open: (nat, bytes, bytes) -> Option<bytes>)

  const NO_AAD: bytes := []
  const FINAL: bytes := [102, 105, 110, 97, 108]

  predicate SealsAt(a: Aead, k: nat, aad: bytes, p: bytes) {
    var (ct, tag) := a.seal(k, aad, p);
    |ct| == |p| && |tag| == a.tagLen && a.open(k, aad, ct + tag) == Some(p)
  }

  /** What is assumed of the cryptography: what is sealed opens again under the same number and
      associated data, and input shorter than a tag does not open. */
  ghost predicate Lawful(a: Aead) {
    && 0 < a.tagLen < MAX_VARINT
    && (forall k: nat, aad: bytes, p: bytes :: SealsAt(a, k, aad, p))
    && (forall k: nat, aad: bytes, c: bytes :: |c| < a.tagLen ==> a.open(k, aad, c) == None)
  }

  /** Ciphertext and tag of call `k`. */
  function Sealed(a: Aead, k: nat, aad: bytes, p: bytes): bytes {
    var (ct, tag) := a.seal(k, aad, p);
    ct + tag
  }

  /** The number of the call after call `k`, which succeeded or not. */
  function NextCall(a: Aead, k: nat, ok: bool): nat {
    if k < a.messages then (if ok || a.eager then k + 1 else k) else if a.eager then 0 else k
  }

  function OpenAt(a: Aead, k: nat, aad: bytes, c: bytes): (p: Option<bytes>)
    ensures p.Some? ==> k < a.messages
  {
    if k < a.messages then a.open(k, aad, c) else None
  }

  lemma SealedOpens(a: Aead, k: nat, aad: bytes, p: bytes)
    requires Lawful(a)
    ensures |Sealed(a, k, aad, p)| == |p| + a.tagLen
    ensures k < a.messages ==> OpenAt(a, k, aad, Sealed(a, k, aad, p)) == Some(p)
  {
    assert SealsAt(a, k, aad, p);
  }

  lemma TooShort(a: Aead, k: nat, aad: bytes, c: bytes)
    requires Lawful(a) && |c| < a.tagLen
    ensures OpenAt(a, k, aad, c) == None
  {
  }

  // ---------- the response context ----------

  /** The one-shot cipher behind a response: key, nonce, associated data, text. */
  datatype Cipher = Cipher(
    tagLen: nat,
    seal: (bytes, bytes, bytes, bytes) -> (bytes, bytes),
    open: (bytes, bytes, bytes, bytes) -> Option<bytes>)

  ghost predicate LawfulCipher(c: Cipher) {
    && 0 < c.tagLen < MAX_VARINT
    && (forall key: bytes, nonce: bytes, aad: bytes, p: bytes :: CipherSealsAt(c, key, nonce, aad, p))
    && (forall key: bytes, nonce: bytes, aad: bytes, t: bytes :: |t| < c.tagLen ==> c.open(key, nonce, aad, t) == None)
  }

  predicate CipherSealsAt(c: Cipher, key: bytes, nonce: bytes, aad: bytes, p: bytes) {
    var (ct, tag) := c.seal(key, nonce, aad, p);
    |ct| == |p| && |tag| == c.tagLen && c.open(key, nonce, aad, ct + tag) == Some(p)
  }

  /** The numbered form of a cipher whose nonce is counted up from `nonce`. */
  function Numbered(c: Cipher, key: bytes, nonce: bytes): Aead {
    Aead(c.tagLen, Pow256(|nonce|) - 1, true,
         (k, aad, p) => c.seal(key, NonceAt(nonce, k), aad, p),
         (k, aad, t) => c.open(key, NonceAt(nonce, k), aad, t))
  }

  lemma NumberedLawful(c: Cipher, key: bytes, nonce: bytes)
    requires LawfulCipher(c)
    ensures Lawful(Numbered(c, key, nonce))
  {
    hide NonceAt, Pow256;
    var a := Numbered(c, key, nonce);
    forall k: nat, aad: bytes, p: bytes
      ensures SealsAt(a, k, aad, p)
    {
      assert CipherSealsAt(c, key, NonceAt(nonce, k), aad, p);
    }
    forall k: nat, aad: bytes, t: bytes | |t| < a.tagLen
      ensures a.open(k, aad, t) == None
    {
      assert c.open(key, NonceAt(nonce, k), aad, t) == None;
    }
  }

  /** The octets of the nonce counter, where there is one. */
  ghost function NonceOf(context: AeadContext?): set<object> {
    if context == null then {} else {context.chunkNonce.counter, context.chunkNonce.current}
  }

  class AeadContext {
    const cipher: Cipher
    const key: bytes
    const chunkNonce: ChunkNonce

    constructor (cipher: Cipher, key: bytes, nonce: bytes)
      ensures Valid() && fresh(chunkNonce) && fresh(chunkNonce.counter) && fresh(chunkNonce.current)
      ensures this.cipher == cipher && this.key == key && chunkNonce.initial == nonce && chunkNonce.Count() == 0
    {
      this.cipher := cipher;
      this.key := key;
      this.chunkNonce := new ChunkNonce(nonce);
    }

    ghost predicate Valid() {
      chunkNonce.Valid()
    }

    function Numbering(): Aead {
      Numbered(cipher, key, chunkNonce.initial)
    }

    /** The context is the numbered cipher `a` at call `k`. */
    ghost predicate At(a: Aead, k: nat)
      reads chunkNonce.counter
    {
      Valid() && Numbering() == a && chunkNonce.Count() == k
    }

    /** Call `k` seals as the numbered cipher does at `k`, until the counter runs out and starts over. */
    method SealInPlace(p: bytes, aad: bytes) returns (r: Option<(bytes, bytes)>)
      requires Valid()
      modifies chunkNonce.counter, chunkNonce.current
      ensures var k := old(chunkNonce.Count());
              r == if k < Numbering().messages then Some(Numbering().seal(k, aad, p)) else None
      ensures chunkNonce.Count() == NextCall(Numbering(), old(chunkNonce.Count()), r.Some?)
    {
      hide NonceAt, Pow256;
      var nonce := chunkNonce.Next();
      if nonce.None? { return None; }
      return Some(cipher.seal(key, nonce.value, aad, p));
    }

    method OpenInPlace(c: bytes, aad: bytes) returns (r: Option<bytes>)
      requires Valid()
      modifies chunkNonce.counter, chunkNonce.current
      ensures r == OpenAt(Numbering(), old(chunkNonce.Count()), aad, c)
      ensures chunkNonce.Count() == NextCall(Numbering(), old(chunkNonce.Count()), r.Some?)
    {
      hide NonceAt, Pow256;
      var nonce := chunkNonce.Next();
      if nonce.None? { return None; }
      return cipher.open(key, nonce.value, aad, c);
    }
  }
}
