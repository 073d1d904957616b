/**
 * The chunked RSA envelope shared by the server, the console client and the
 * browser bridge (`encrypt`/`decrypt`, identical in all three). Text is cut
 * into slices of `byte_size(n) - 11` characters, each slice is UTF-8 encoded
 * and encrypted on its own, and the blocks are concatenated; decryption walks
 * the ciphertext in strides of `byte_size(n)` bytes. Room keys travel through
 * this envelope as PEM text, hex-encoded on the wire.
 */
module KeyExchange {
  import opened Wrappers
  import opened Octets
  import opened Utf8
  import opened Rsa

  function Flatten<T>(ss: seq<seq<T>>): (r: seq<T>)
  {
    if ss == [] then [] else ss[0] + Flatten(ss[1..])
  }

  /** The slices of `s`, `size` long each and the last one shorter, as the envelope cuts them. */
  function Chunks<T>(s: seq<T>, size: nat): seq<seq<T>>
    requires size > 0
    decreases |s|
  {
    if s == [] then []
    else if |s| <= size then [s]
    else [s[..size]] + Chunks(s[size..], size)
  }

  /**
   * The slices are non-empty, all but the last have exactly `size` elements,
   * and together they give back `s`.
   */
  lemma {:induction false} ChunksPartition<T>(s: seq<T>, size: nat)
    requires size > 0
    ensures Flatten(Chunks(s, size)) == s
    ensures forall i :: 0 <= i < |Chunks(s, size)| ==> 0 < |Chunks(s, size)[i]| <= size
    ensures forall i :: 0 <= i < |Chunks(s, size)| - 1 ==> |Chunks(s, size)[i]| == size
    decreases |s|
  {
    if |s| > size {
      var r := Chunks(s, size);
      ChunksPartition(s[size..], size);
      assert r[1..] == Chunks(s[size..], size);
      assert s[..size] + s[size..] == s;
      forall i | 0 < i < |r| ensures r[i] == Chunks(s[size..], size)[i - 1] {
      }
    } else if s != [] {
      assert Chunks(s, size) == [s];
      assert Flatten([s]) == s + Flatten<T>([]);
    }
  }

  /** The `i`-th start offset of `range(0, len(s), size)`. */
  function Offset(i: nat, size: nat): nat {
    if i == 0 then 0 else Offset(i - 1, size) + size
  }

  lemma {:induction false} OffsetIsProduct(i: nat, size: nat)
    ensures Offset(i, size) == i * size
  {
    if i > 0 {
      OffsetIsProduct(i - 1, size);
      assert (i - 1) * size + size == i * size;
    }
  }

  /** Chunk `i` is exactly the slice the comprehension takes at offset `i * size`. */
  lemma ChunkAt<T>(s: seq<T>, size: nat, i: nat)
    requires size > 0 && i < |Chunks(s, size)|
    ensures i * size < |s|
    ensures Chunks(s, size)[i] == s[i * size .. if (i + 1) * size <= |s| then (i + 1) * size else |s|]
  {
    OffsetIsProduct(i, size);
    OffsetIsProduct(i + 1, size);
    ChunkAtOffset(s, size, i);
  }

  /** The slice the comprehension takes at its `i`-th offset. */
  function Piece<T>(s: seq<T>, size: nat, i: nat): seq<T>
    requires Offset(i, size) <= |s|
  {
    s[Offset(i, size) .. if Offset(i + 1, size) <= |s| then Offset(i + 1, size) else |s|]
  }

  lemma PieceShift<T>(s: seq<T>, size: nat, i: nat)
    requires 0 < size < |s| && 0 < i && Offset(i - 1, size) <= |s| - size
    ensures Offset(i, size) <= |s|
    ensures Piece(s, size, i) == Piece(s[size..], size, i - 1)
  {
    var lo := Offset(i - 1, size);
    assert Offset(i, size) == lo + size;
    assert Offset(i + 1, size) == Offset(i, size) + size;
    var hi := if Offset(i, size) <= |s| - size then Offset(i, size) else |s| - size;
    SliceShift(s, size, lo, hi);
  }

  lemma {:induction false} ChunkAtOffset<T>(s: seq<T>, size: nat, i: nat)
    requires size > 0 && i < |Chunks(s, size)|
    ensures Offset(i, size) < |s|
    ensures Chunks(s, size)[i] == Piece(s, size, i)
    decreases |s|
  {
    if i > 0 {
      var t := s[size..];
      assert |s| > size;
      assert Chunks(s, size)[i] == Chunks(t, size)[i - 1];
      ChunkAtOffset(t, size, i - 1);
      PieceShift(s, size, i);
    } else {
      assert Offset(1, size) == size;
    }
  }

  lemma SliceShift<T>(s: seq<T>, k: nat, lo: nat, hi: nat)
    requires k <= |s| && lo <= hi <= |s| - k
    ensures s[k..][lo..hi] == s[lo + k .. hi + k]
  {
  }

  /** There are `ceil(|s| / size)` chunks: one per start offset of the comprehension. */
  lemma ChunkCount<T>(s: seq<T>, size: nat)
    requires size > 0
    ensures |s| <= |Chunks(s, size)| * size
    ensures |Chunks(s, size)| == 0 || (|Chunks(s, size)| - 1) * size < |s|
  {
    var k := |Chunks(s, size)|;
    ChunkCountOffset(s, size);
    OffsetIsProduct(k, size);
    if k > 0 {
      OffsetIsProduct(k - 1, size);
    }
  }

  lemma {:induction false} ChunkCountOffset<T>(s: seq<T>, size: nat)
    requires size > 0
    ensures |s| <= Offset(|Chunks(s, size)|, size)
    ensures |Chunks(s, size)| == 0 || Offset(|Chunks(s, size)| - 1, size) < |s|
    decreases |s|
  {
    if |s| > size {
      ChunkCountOffset(s[size..], size);
      assert |Chunks(s, size)| == |Chunks(s[size..], size)| + 1;
    }
  }

  /** A slice of exactly `size` elements up front is the first chunk. */
  lemma ChunksCons<T>(a: seq<T>, b: seq<T>, size: nat)
    requires size > 0 && |a| == size
    ensures Chunks(a + b, size) == [a] + Chunks(b, size)
  {
    if b != [] {
      assert (a + b)[..size] == a && (a + b)[size..] == b;
    } else {
      assert a + b == a;
    }
  }

  function EncryptChunks(sc: Scheme, chunks: seq<string>, pub: PublicKey): (r: Result<Bytes, Error>)
  {
    if chunks == [] then Success([])
    else match Rsa.Encrypt(sc, Encode(chunks[0]), pub)
      case Failure(e) => Failure(e)
      case Success(block) =>
        match EncryptChunks(sc, chunks[1..], pub)
        case Failure(e) => Failure(e)
        case Success(rest) => Success(block + rest)
  }

  /**
   * `encrypt(message, public_key)`. With `byte_size(n) - 11` equal to zero
   * `range` raises ValueError; below zero the range is empty and the
   * ciphertext is empty whatever the message.
   */
  function Encrypt(sc: Scheme, message: string, pub: PublicKey): (r: Result<Bytes, Error>)
  {
    var size := ByteSize(pub.n) - PaddingOverhead;
    if size == 0 then Failure(ValueError)
    else if size < 0 then Success([])
    else EncryptChunks(sc, Chunks(message, size), pub)
  }

  function DecryptChunks(sc: Scheme, chunks: seq<Bytes>, priv: PrivateKey): (r: Result<Bytes, Error>)
  {
    if chunks == [] then Success([])
    else match Rsa.Decrypt(sc, chunks[0], priv)
      case Failure(e) => Failure(e)
      case Success(plain) =>
        match DecryptChunks(sc, chunks[1..], priv)
        case Failure(e) => Failure(e)
        case Success(rest) => Success(plain + rest)
  }

  /** `decrypt(encrypted_message, private_key)`, ending in `.decode()`. */
  function Decrypt(sc: Scheme, crypto: Bytes, priv: PrivateKey): (r: Result<string, Error>)
  {
    match DecryptChunks(sc, Chunks(crypto, ByteSize(priv.n)), priv)
    case Failure(e) => Failure(e)
    case Success(plain) =>
      match Decode(plain)
      case None => Failure(UnicodeDecodeError)
      case Some(text) => Success(text)
  }

  /** Every slice, once encoded, fits in one RSA block. */
  predicate ChunksFit(chunks: seq<string>, pub: PublicKey) {
    forall i :: 0 <= i < |chunks| ==> |Encode(chunks[i])| + PaddingOverhead <= ByteSize(pub.n)
  }

  lemma ChunksFitCons(chunks: seq<string>, pub: PublicKey)
    requires chunks != []
    ensures ChunksFit(chunks, pub)
            <==> |Encode(chunks[0])| + PaddingOverhead <= ByteSize(pub.n) && ChunksFit(chunks[1..], pub)
  {
    if |Encode(chunks[0])| + PaddingOverhead <= ByteSize(pub.n) && ChunksFit(chunks[1..], pub) {
      forall i | 0 <= i < |chunks| ensures |Encode(chunks[i])| + PaddingOverhead <= ByteSize(pub.n) {
        if i > 0 { assert chunks[i] == chunks[1..][i - 1]; }
      }
    }
    if ChunksFit(chunks, pub) {
      forall i | 0 <= i < |chunks[1..]| ensures |Encode(chunks[1..][i])| + PaddingOverhead <= ByteSize(pub.n) {
        assert chunks[1..][i] == chunks[i + 1];
      }
    }
  }

  /** Encrypting the slices succeeds exactly when each encoded slice fits a block. */
  lemma {:induction false} EncryptChunksSucceeds(sc: Scheme, chunks: seq<string>, pub: PublicKey)
    ensures EncryptChunks(sc, chunks, pub).Success? <==> ChunksFit(chunks, pub)
  {
    if chunks != [] {
      EncryptChunksSucceeds(sc, chunks[1..], pub);
      ChunksFitCons(chunks, pub);
    }
  }

  lemma MulSucc(k: int, n: nat)
    requires n > 0
    ensures k * n == k + k * (n - 1)
  {
  }

  /** Decrypting in strides peels one key-sized block off the front. */
  lemma DecryptStride(sc: Scheme, block: Bytes, rest: Bytes, priv: PrivateKey)
    requires |block| == ByteSize(priv.n)
    ensures DecryptChunks(sc, Chunks(block + rest, ByteSize(priv.n)), priv)
            == match Rsa.Decrypt(sc, block, priv)
               case Failure(e) => Failure(e)
               case Success(plain) =>
                 match DecryptChunks(sc, Chunks(rest, ByteSize(priv.n)), priv)
                 case Failure(e) => Failure(e)
                 case Success(more) => Success(plain + more)
  {
    ChunksCons(block, rest, ByteSize(priv.n));
    var strided := Chunks(block + rest, ByteSize(priv.n));
    assert strided[0] == block && strided[1..] == Chunks(rest, ByteSize(priv.n));
  }

  /**
   * Under the block axioms the slices come back in order: the ciphertext is
   * one key-sized block per slice, and decrypting it in key-sized strides
   * yields the encoding of the whole text.
   */
  lemma {:induction false} ChunksRoundTrip(sc: Scheme, chunks: seq<string>, pub: PublicKey, priv: PrivateKey)
    requires sc.Valid() && Matches(pub, priv) && ChunksFit(chunks, pub)
    ensures EncryptChunks(sc, chunks, pub).Success?
    ensures |EncryptChunks(sc, chunks, pub).value| == ByteSize(pub.n) * |chunks|
    ensures DecryptChunks(sc, Chunks(EncryptChunks(sc, chunks, pub).value, ByteSize(priv.n)), priv)
            == Success(Encode(Flatten(chunks)))
  {
    if chunks == [] {
      assert Chunks<byte>([], ByteSize(priv.n)) == [];
    } else {
      ChunksFitCons(chunks, pub);
      ChunksRoundTrip(sc, chunks[1..], pub, priv);
      var head := Encode(chunks[0]);
      BlockRoundTrip(sc, head, pub, priv);
      var block := Rsa.Encrypt(sc, head, pub).value;
      var rest := EncryptChunks(sc, chunks[1..], pub).value;
      assert EncryptChunks(sc, chunks, pub) == Success(block + rest);
      MulSucc(ByteSize(pub.n), |chunks|);
      DecryptStride(sc, block, rest, priv);
      assert DecryptChunks(sc, Chunks(rest, ByteSize(priv.n)), priv) == Success(Encode(Flatten(chunks[1..])));
      EncodeAppend(chunks[0], Flatten(chunks[1..]));
    }
  }

  /** Slices of ASCII text are ASCII. */
  lemma {:induction false} ChunksAscii(message: string, size: nat)
    requires size > 0 && IsAscii(message)
    ensures forall i :: 0 <= i < |Chunks(message, size)| ==> IsAscii(Chunks(message, size)[i])
    decreases |message|
  {
    var chunks := Chunks(message, size);
    if |message| > size {
      var tail := message[size..];
      assert IsAscii(tail) by {
        forall j | 0 <= j < |tail| ensures tail[j] as int < 0x80 { assert tail[j] == message[size + j]; }
      }
      ChunksAscii(tail, size);
      var head := message[..size];
      assert IsAscii(head) by {
        forall j | 0 <= j < |head| ensures head[j] as int < 0x80 { assert head[j] == message[j]; }
      }
      forall i | 0 <= i < |chunks| ensures IsAscii(chunks[i]) {
        if i > 0 { assert chunks[i] == Chunks(tail, size)[i - 1]; }
      }
    }
  }

  /** An ASCII slice fits whenever it has no more characters than the block allows. */
  lemma AsciiChunksFit(message: string, pub: PublicKey)
    requires IsAscii(message) && ByteSize(pub.n) > PaddingOverhead
    ensures ChunksFit(Chunks(message, ByteSize(pub.n) - PaddingOverhead), pub)
  {
    var chunks := Chunks(message, ByteSize(pub.n) - PaddingOverhead);
    ChunksAscii(message, ByteSize(pub.n) - PaddingOverhead);
    ChunksPartition(message, ByteSize(pub.n) - PaddingOverhead);
    forall i | 0 <= i < |chunks| ensures |Encode(chunks[i])| + PaddingOverhead <= ByteSize(pub.n) {
      EncodeAscii(chunks[i]);
    }
  }

  /**
   * `decrypt(encrypt(m, pub), priv) == m` for ASCII text of any length
   * (empty, one character, one block, many blocks), and the ciphertext is
   * one key-sized block per started slice of `byte_size(n) - 11` characters.
   */
  lemma RoundTrip(sc: Scheme, message: string, pub: PublicKey, priv: PrivateKey)
    requires sc.Valid() && Matches(pub, priv)
    requires ByteSize(pub.n) > PaddingOverhead
    requires IsAscii(message)
    ensures Encrypt(sc, message, pub).Success?
    ensures |Encrypt(sc, message, pub).value|
            == ByteSize(pub.n) * |Chunks(message, ByteSize(pub.n) - PaddingOverhead)|
    ensures Decrypt(sc, Encrypt(sc, message, pub).value, priv) == Success(message)
  {
    var size := ByteSize(pub.n) - PaddingOverhead;
    var chunks := Chunks(message, size);
    assert ChunksFit(chunks, pub) by {
      AsciiChunksFit(message, pub);
    }
    assert Flatten(chunks) == message by {
      ChunksPartition(message, size);
    }
    assert Encrypt(sc, message, pub) == EncryptChunks(sc, chunks, pub);
    ChunksRoundTrip(sc, chunks, pub, priv);
    assert Decode(Encode(message)) == Some(message) by {
      DecodeEncode(message);
    }
  }

  /** An empty message has no slices: its ciphertext is empty, and that decrypts to the empty text. */
  lemma EmptyMessage(sc: Scheme, pub: PublicKey, priv: PrivateKey)
    requires ByteSize(pub.n) > PaddingOverhead
    ensures Encrypt(sc, [], pub) == Success([])
    ensures Decrypt(sc, [], priv) == Success([])
  {
  }

  /**
   * Slicing characters before encoding overflows a block once the text is not
   * ASCII: a full slice of 'é' encodes to twice the bytes the block allows,
   * and `rsa.encrypt` raises OverflowError.
   */
  lemma NonAsciiOverflows(sc: Scheme, pub: PublicKey)
    requires ByteSize(pub.n) > PaddingOverhead
    ensures var size := ByteSize(pub.n) - PaddingOverhead;
            Encrypt(sc, seq(size, _ => 'é'), pub) == Failure(OverflowError)
  {
    var size := ByteSize(pub.n) - PaddingOverhead;
    var message := seq(size, _ => 'é');
    assert Chunks(message, size) == [message];
    assert !IsAscii(message) by { assert message[0] == 'é'; }
    EncodeWide(message);
  }

  /** Encryption succeeds exactly when every encoded slice fits, so ASCII text always does. */
  lemma EncryptSucceeds(sc: Scheme, message: string, pub: PublicKey)
    requires ByteSize(pub.n) > PaddingOverhead
    ensures Encrypt(sc, message, pub).Success?
            <==> ChunksFit(Chunks(message, ByteSize(pub.n) - PaddingOverhead), pub)
    ensures IsAscii(message) ==> Encrypt(sc, message, pub).Success?
  {
    EncryptChunksSucceeds(sc, Chunks(message, ByteSize(pub.n) - PaddingOverhead), pub);
    if IsAscii(message) {
      AsciiChunksFit(message, pub);
    }
  }

  // Room keys in transit

  /** The hex field a joining member receives for one PEM key text. */
  function SealText(sc: Scheme, pem: string, peer: PublicKey): (r: Result<string, Error>)
  {
    match Encrypt(sc, pem, peer)
    case Failure(e) => Failure(e)
    case Success(crypto) => Success(Hex(crypto))
  }

  /** Read a sealed field: hex to bytes, then decrypt with the member's own key; `None` for any exception. */
  function OpenText(sc: Scheme, field: string, own: PrivateKey): (r: Option<string>)
  {
    match FromHex(field)
    case None => None
    case Some(crypto) =>
      match Decrypt(sc, crypto, own)
      case Failure(_) => None
      case Success(text) => Some(text)
  }

  /** Open a sealed field and load the PEM public key it holds. */
  function OpenPublic(sc: Scheme, field: string, own: PrivateKey): Option<PublicKey>
  {
    match OpenText(sc, field, own)
    case None => None
    case Some(pem) => sc.loadPublic(pem)
  }

  /** Open a sealed field and load the PEM private key it holds. */
  function OpenPrivate(sc: Scheme, field: string, own: PrivateKey): Option<PrivateKey>
  {
    match OpenText(sc, field, own)
    case None => None
    case Some(pem) => sc.loadPrivate(pem)
  }

  /** Sealed ASCII text opens to itself under the matching private key. */
  lemma SealOpen(sc: Scheme, text: string, peer: PublicKey, own: PrivateKey)
    requires sc.Valid() && Matches(peer, own) && ByteSize(peer.n) > PaddingOverhead
    requires IsAscii(text)
    ensures SealText(sc, text, peer).Success?
    ensures IsCanonicalHex(SealText(sc, text, peer).value)
    ensures OpenText(sc, SealText(sc, text, peer).value, own) == Some(text)
  {
    RoundTrip(sc, text, peer, own);
    var crypto := Encrypt(sc, text, peer).value;
    FromHexHex(crypto);
    HexIsCanonical(crypto);
  }

  /**
   * Hybrid key transport: both room keys, sealed for a joining member,
   * open back to the very keys of the room.
   */
  lemma KeyTransport(sc: Scheme, room: KeyPair, peer: PublicKey, own: PrivateKey)
    requires sc.Valid() && Matches(peer, own) && ByteSize(peer.n) > PaddingOverhead
    ensures SealText(sc, sc.savePublic(room.pub), peer).Success?
    ensures SealText(sc, sc.savePrivate(room.priv), peer).Success?
    ensures OpenPublic(sc, SealText(sc, sc.savePublic(room.pub), peer).value, own) == Some(room.pub)
    ensures OpenPrivate(sc, SealText(sc, sc.savePrivate(room.priv), peer).value, own) == Some(room.priv)
  {
    SealOpen(sc, sc.savePublic(room.pub), peer, own);
    SealOpen(sc, sc.savePrivate(room.priv), peer, own);
  }
}
