/**
 * The RSA library the system calls into (`rsa.encrypt`, `rsa.decrypt`,
 * `rsa.common.byte_size`, `save_pkcs1`/`load_pkcs1`). The arithmetic and the
 * PEM text format are opaque: a `Scheme` bundles them as functions, and
 * `Scheme.Valid()` states the properties the chat protocol relies on. The
 * module `Pkcs1` gives a scheme that has them.
 */
module Rsa {
  import opened Wrappers
  import opened Octets
  import opened Utf8

  datatype PublicKey = PublicKey(n: nat, e: nat)
  datatype PrivateKey = PrivateKey(n: nat, e: nat, d: nat)

  /** A pair as `rsa.newkeys` returns it. */
  datatype KeyPair = KeyPair(pub: PublicKey, priv: PrivateKey)

  /**
   * The private key belongs to the public one. Only the modulus and the
   * public exponent are compared: whether `d` inverts `e` is the scheme's
   * business, stated by `Scheme.Valid()`.
   */
  predicate Matches(pub: PublicKey, priv: PrivateKey) {
    pub.n == priv.n && pub.e == priv.e
  }

  /** Bytes of padding a PKCS#1 v1.5 block needs (section 7.2.1 of RFC 8017). */
  const PaddingOverhead: nat := 11

  function Pow256(k: nat): (p: nat)
    ensures p >= 1
  {
    if k == 0 then 1 else 256 * Pow256(k - 1)
  }

  /** `rsa.common.byte_size`: bytes needed to hold `n`, and 1 for 0. */
  function ByteSize(n: nat): (k: nat)
    ensures k >= 1
  {
    if n < 256 then 1 else 1 + ByteSize(n / 256)
  }

  /** `byte_size(n)` is the least number of bytes whose range holds `n`. */
  lemma {:induction false} ByteSizeBounds(n: nat)
    ensures n < Pow256(ByteSize(n))
    ensures ByteSize(n) == 1 || Pow256(ByteSize(n) - 1) <= n
  {
    if n >= 256 {
      ByteSizeBounds(n / 256);
    }
  }

  /** The exceptions the key-exchange path can raise. */
  datatype Error =
    | OverflowError       // rsa.encrypt: message longer than the block allows
    | DecryptionError     // rsa.decrypt: the block does not decrypt
    | ValueError          // range() with a zero step
    | UnicodeDecodeError  // bytes.decode() on bytes that are not UTF-8

  /**
   * The opaque collaborators: block encryption for a block that fits, block
   * decryption (`None` when it fails), and the PEM text form of each key.
   */
  datatype Scheme = Scheme(
    encryptBlock: (PublicKey, Bytes) -> Bytes,
    decryptBlock: (PrivateKey, Bytes) -> Option<Bytes>,
    savePublic: PublicKey -> string,
    loadPublic: string -> Option<PublicKey>,
    savePrivate: PrivateKey -> string,
    loadPrivate: string -> Option<PrivateKey>)
  {
    /**
     * A block of at most `byte_size(n) - 11` bytes encrypts to exactly
     * `byte_size(n)` bytes and the matching private key decrypts it back;
     * PEM text is ASCII and loads back the key it was saved from.
     */
    ghost predicate Valid() {
      && (forall pub: PublicKey, m: Bytes :: |m| + PaddingOverhead <= ByteSize(pub.n) ==>
            |encryptBlock(pub, m)| == ByteSize(pub.n))
      && (forall pub: PublicKey, priv: PrivateKey, m: Bytes ::
            Matches(pub, priv) && |m| + PaddingOverhead <= ByteSize(pub.n) ==>
            decryptBlock(priv, encryptBlock(pub, m)) == Some(m))
      && (forall k: PublicKey :: loadPublic(savePublic(k)) == Some(k))
      && (forall k: PublicKey :: IsAscii(savePublic(k)))
      && (forall k: PrivateKey :: loadPrivate(savePrivate(k)) == Some(k))
      && (forall k: PrivateKey :: IsAscii(savePrivate(k)))
    }
  }

  /** `rsa.encrypt`: refuses a message longer than `byte_size(n) - 11`. */
  function Encrypt(sc: Scheme, message: Bytes, pub: PublicKey): (r: Result<Bytes, Error>)
    ensures r.Failure? <==> |message| + PaddingOverhead > ByteSize(pub.n)
    ensures r.Failure? ==> r.error == OverflowError
    ensures sc.Valid() && r.Success? ==> |r.value| == ByteSize(pub.n)
  {
    if |message| + PaddingOverhead > ByteSize(pub.n) then Failure(OverflowError)
    else Success(sc.encryptBlock(pub, message))
  }

  /** `rsa.decrypt`. */
  function Decrypt(sc: Scheme, crypto: Bytes, priv: PrivateKey): (r: Result<Bytes, Error>)
  {
    match sc.decryptBlock(priv, crypto)
    case None => Failure(DecryptionError)
    case Some(m) => Success(m)
  }

  /** A block that fits encrypts to one key-sized block that decrypts back. */
  lemma BlockRoundTrip(sc: Scheme, message: Bytes, pub: PublicKey, priv: PrivateKey)
    requires sc.Valid() && Matches(pub, priv)
    requires |message| + PaddingOverhead <= ByteSize(pub.n)
    ensures Encrypt(sc, message, pub).Success?
    ensures |Encrypt(sc, message, pub).value| == ByteSize(pub.n)
    ensures Decrypt(sc, Encrypt(sc, message, pub).value, priv) == Success(message)
  {
  }
}
