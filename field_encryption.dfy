/** `AesGcmFieldEncryptionService`: the text form of an encrypted column. A field is stored
    as the Base64 text of nonce (12 bytes) ‖ tag (16 bytes) ‖ ciphertext, where nonce, tag and
    ciphertext come from AES-256-GCM (NIST SP 800-38D) over the UTF-8 bytes of the plaintext.

    AES-GCM, Base64 (section 4 of RFC 4648) and UTF-8 are given as functions that satisfy
    the algebraic laws the service relies on, and the random nonce is a parameter.
 */
module FieldEncryption {
  import opened Base
  import opened Text

  type byte = bv8
  type Bytes = seq<byte>

  const NonceSize: nat := 12
  const TagSize: nat := 16
  const HeaderSize: nat := NonceSize + TagSize
  const KeySize: nat := 32

  /** The foreign primitives.
      `seal(key, nonce, plaintext)` is `AesGcm.Encrypt`, giving (ciphertext, tag);
      `open(key, nonce, ciphertext, tag)` is `AesGcm.Decrypt`, None when the tag does not verify;
      `fromBase64` is None when the text is not Base64;
      `utf8Decode` never fails (invalid sequences decode to U+FFFD). */
  datatype Primitives = Primitives(
    seal: (Bytes, Bytes, Bytes) -> (Bytes, Bytes),
    open: (Bytes, Bytes, Bytes, Bytes) -> Option<Bytes>,
    toBase64: Bytes -> string,
    fromBase64: string -> Option<Bytes>,
    utf8Encode: string -> Bytes,
    utf8Decode: Bytes -> string)

  /** The laws: the ciphertext is as long as the plaintext and the tag 16 bytes, opening what
      was sealed under the same key and nonce gives the plaintext back, and Base64 and UTF-8
      decode what they encode. */
  ghost predicate Lawful(p: Primitives) {
    && (forall k, n, m :: |p.seal(k, n, m).0| == |m| && |p.seal(k, n, m).1| == TagSize)
    && (forall k, n, m :: p.open(k, n, p.seal(k, n, m).0, p.seal(k, n, m).1) == Some(m))
    && (forall b :: p.fromBase64(p.toBase64(b)) == Some(b))
    && (forall s :: p.utf8Decode(p.utf8Encode(s)) == s)
  }

  /** A configured service: the 32-byte key and the primitives. */
  datatype FieldCipher = FieldCipher(key: Bytes, prim: Primitives)

  datatype ConfigError = KeyNotConfigured | KeyNotBase64 | KeyWrongLength

  datatype CipherError = NotBase64 | CiphertextTooShort | AuthenticationFailed

  /** The constructor: the configured key must be non-blank, Base64, and 32 bytes long. */
  function Configure(keyBase64: Option<string>, prim: Primitives): (r: Result<FieldCipher, ConfigError>)
    ensures r.Success? <==>
              && !IsNullOrWhiteSpace(keyBase64)
              && prim.fromBase64(keyBase64.value).Some?
              && |prim.fromBase64(keyBase64.value).value| == KeySize
    ensures r.Success? ==> r.value.key == prim.fromBase64(keyBase64.value).value && r.value.prim == prim
    ensures IsNullOrWhiteSpace(keyBase64) ==> r == Failure(KeyNotConfigured)
  {
    if IsNullOrWhiteSpace(keyBase64) then Failure(KeyNotConfigured)
    else
      match prim.fromBase64(keyBase64.value)
      case None => Failure(KeyNotBase64)
      case Some(key) => if |key| != KeySize then Failure(KeyWrongLength) else Success(FieldCipher(key, prim))
  }

  // ---------------------------------------------------------------------------------------
  // The payload layout

  function Frame(nonce: Bytes, tag: Bytes, ct: Bytes): Bytes {
    nonce + tag + ct
  }

  /** The split `DecryptFromBase64` makes after its length guard. */
  function Unframe(payload: Bytes): Option<(Bytes, Bytes, Bytes)> {
    if |payload| < HeaderSize then None
    else Some((payload[..NonceSize], payload[NonceSize..HeaderSize], payload[HeaderSize..]))
  }

  /** Splitting at offsets 12 and 28 undoes the layout... */
  lemma UnframeFrame(nonce: Bytes, tag: Bytes, ct: Bytes)
    requires |nonce| == NonceSize && |tag| == TagSize
    ensures Unframe(Frame(nonce, tag, ct)) == Some((nonce, tag, ct))
  {
    var p := Frame(nonce, tag, ct);
    assert p[..NonceSize] == nonce;
    assert p[NonceSize..HeaderSize] == tag;
    assert p[HeaderSize..] == ct;
  }

  /** ...and the layout undoes the split: every payload of at least 28 bytes is a frame. */
  lemma FrameUnframe(payload: Bytes)
    requires Unframe(payload).Some?
    ensures var (n, t, c) := Unframe(payload).value;
      |n| == NonceSize && |t| == TagSize && Frame(n, t, c) == payload
  {
    var (n, t, c) := Unframe(payload).value;
    assert payload == payload[..NonceSize] + payload[NonceSize..HeaderSize] + payload[HeaderSize..];
  }

  // ---------------------------------------------------------------------------------------
  // Encryption

  /** The text `EncryptToBase64(plaintext)` produces when the random nonce is `nonce`. */
  function Sealed(c: FieldCipher, plaintext: string, nonce: Bytes): string {
    var (ct, tag) := c.prim.seal(c.key, nonce, c.prim.utf8Encode(plaintext));
    c.prim.toBase64(Frame(nonce, tag, ct))
  }

  /** `Buffer.BlockCopy(src, srcOffset, dst, dstOffset, count)`. */
  method BlockCopy(src: Bytes, srcOffset: nat, dst: array<byte>, dstOffset: nat, count: nat)
    requires srcOffset + count <= |src| && dstOffset + count <= dst.Length
    modifies dst
    ensures dst[..] == old(dst[..dstOffset]) + src[srcOffset..srcOffset + count] + old(dst[dstOffset + count..])
  {
    var i := 0;
    while i < count
      invariant 0 <= i <= count
      invariant forall j :: 0 <= j < dstOffset ==> dst[j] == old(dst[j])
      invariant forall j :: dstOffset <= j < dstOffset + i ==> dst[j] == src[srcOffset + (j - dstOffset)]
      invariant forall j :: dstOffset + count <= j < dst.Length ==> dst[j] == old(dst[j])
    {
      dst[dstOffset + i] := src[srcOffset + i];
      i := i + 1;
    }
    assert dst[..] == old(dst[..dstOffset]) + src[srcOffset..srcOffset + count] + old(dst[dstOffset + count..]) by {
      var expected := old(dst[..dstOffset]) + src[srcOffset..srcOffset + count] + old(dst[dstOffset + count..]);
      assert |dst[..]| == |expected|;
      forall j | 0 <= j < dst.Length ensures dst[j] == expected[j] {
        if dstOffset <= j < dstOffset + count {
          assert expected[j] == src[srcOffset + (j - dstOffset)];
        }
      }
    }
  }

  /** `EncryptToBase64(plaintext)`: seal the UTF-8 bytes under a fresh 12-byte nonce, lay out
      nonce, tag and ciphertext in one buffer, and return its Base64 text. */
  method EncryptToBase64(c: FieldCipher, plaintext: string, nonce: Bytes) returns (s: string)
    requires |nonce| == NonceSize
    ensures s == Sealed(c, plaintext, nonce)
  {
    var pt := c.prim.utf8Encode(plaintext);
    var (ct, tag) := c.prim.seal(c.key, nonce, pt);
    var payload := new byte[|nonce| + |tag| + |ct|];
    BlockCopy(nonce, 0, payload, 0, |nonce|);
    BlockCopy(tag, 0, payload, |nonce|, |tag|);
    BlockCopy(ct, 0, payload, |nonce| + |tag|, |ct|);
    assert payload[..] == Frame(nonce, tag, ct);
    s := c.prim.toBase64(payload[..]);
  }

  /** The payload is 28 bytes longer than the UTF-8 encoding of the plaintext. */
  lemma SealedLength(c: FieldCipher, plaintext: string, nonce: Bytes)
    requires Lawful(c.prim) && |nonce| == NonceSize
    ensures var payload := c.prim.fromBase64(Sealed(c, plaintext, nonce));
      payload.Some? && |payload.value| == HeaderSize + |c.prim.utf8Encode(plaintext)|
      && payload.value[..NonceSize] == nonce
  {
    var (ct, tag) := c.prim.seal(c.key, nonce, c.prim.utf8Encode(plaintext));
    assert c.prim.fromBase64(c.prim.toBase64(Frame(nonce, tag, ct))) == Some(Frame(nonce, tag, ct));
    assert Frame(nonce, tag, ct)[..NonceSize] == nonce;
  }

  // ---------------------------------------------------------------------------------------
  // Decryption

  /** `DecryptFromBase64(text)`: a Base64 failure, a payload shorter than the header, or a tag
      that does not verify is an error (an exception in the service); it is never turned
      into a returned string. */
  function DecryptFromBase64(c: FieldCipher, text: string): Result<string, CipherError> {
    match c.prim.fromBase64(text)
    case None => Failure(NotBase64)
    case Some(payload) =>
      match Unframe(payload)
      case None => Failure(CiphertextTooShort)
      case Some((nonce, tag, ct)) =>
        match c.prim.open(c.key, nonce, ct, tag)
        case None => Failure(AuthenticationFailed)
        case Some(pt) => Success(c.prim.utf8Decode(pt))
  }

  /** A payload shorter than the header is refused before the cipher is consulted, whatever
      the cipher would have said. */
  lemma ShortPayloadRejected(c: FieldCipher, text: string)
    requires c.prim.fromBase64(text).Some? && |c.prim.fromBase64(text).value| < HeaderSize
    ensures DecryptFromBase64(c, text) == Failure(CiphertextTooShort)
  {
  }

  /** Decrypting what was encrypted under the same key gives the plaintext back, whatever
      the nonce. */
  lemma DecryptEncrypt(c: FieldCipher, plaintext: string, nonce: Bytes)
    requires Lawful(c.prim) && |nonce| == NonceSize
    ensures DecryptFromBase64(c, Sealed(c, plaintext, nonce)) == Success(plaintext)
  {
    var pt := c.prim.utf8Encode(plaintext);
    var (ct, tag) := c.prim.seal(c.key, nonce, pt);
    assert |tag| == TagSize;
    assert c.prim.fromBase64(c.prim.toBase64(Frame(nonce, tag, ct))) == Some(Frame(nonce, tag, ct));
    UnframeFrame(nonce, tag, ct);
    assert c.prim.open(c.key, nonce, ct, tag) == Some(pt);
  }
}
