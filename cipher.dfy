/** Decryption of a secret under a tenant's cipher suite (`decrypt` in src/utils/decrypt.rs).

    The block ciphers and the ChaCha20 keystream are library code and stay abstract, as fields
    of `Primitives`. What is modelled is everything around them: the key checks and key
    normalisation per method, the fixed nonce, ECB mode (each block on its own, no IV) and
    PKCS#7 padding as section 6.3 of RFC 5652 defines it. */
module Cipher {
  import opened Text
  import opened Wrappers
  import opened Models

  /** The cipher primitives: a block decryption per block cipher (key, block) and the byte of
      the ChaCha20 keystream at a position (key, nonce, position). */
  datatype Primitives = Primitives(
    aes256DecryptBlock: (Bytes, Bytes) -> Bytes,
    blowfishDecryptBlock: (Bytes, Bytes) -> Bytes,
    tdesEde3DecryptBlock: (Bytes, Bytes) -> Bytes,
    chacha20Keystream: (Bytes, Bytes, nat) -> byte)

  /** `decrypt` panics (`expect`) instead of returning an error; these are its two panics. */
  datatype Abort = KeyLengthMismatch | DecryptionFailed

  /** The nonce every ChaCha20 decryption uses: twelve zero bytes. */
  const NONCE: Bytes := seq(12, _ => 0)

  /** Block lengths in bytes: 16 for AES, 8 for Blowfish and TDES. */
  type BlockLen = x: nat | x == 8 || x == 16 witness 8

  const AES_BLOCK: BlockLen := 16
  const BLOWFISH_BLOCK: BlockLen := 8
  const TDES_BLOCK: BlockLen := 8

  /** The key length `decrypt` works with for each method. */
  function KeySize(m: EncryptionMethod): nat {
    match m
    case AES256 => 32
    case Chacha20 => 32
    case Blowfish => 32
    case DESTriphleDES => 24
  }

  function BlockSize(m: EncryptionMethod): BlockLen
    requires m != Chacha20
  {
    match m
    case AES256 => AES_BLOCK
    case Blowfish => BLOWFISH_BLOCK
    case DESTriphleDES => TDES_BLOCK
  }

  // ---- key normalisation (Blowfish, TDES) ----

  /** A key brought to length n: its first min(|key|, n) bytes, then zeros. */
  function ZeroPadded(key: Bytes, n: nat): (k: Bytes)
    ensures |k| == n
    ensures forall i :: 0 <= i < n ==> k[i] == if i < |key| then key[i] else 0
  {
    if |key| >= n then key[..n] else key + seq(n - |key|, _ => 0)
  }

  /** The Rust code's normalisation: a zeroed fixed-size array, then the key's prefix copied
      over its front (`copy_from_slice`). */
  method NormaliseKey(key: Bytes, n: nat) returns (k: Bytes)
    ensures k == ZeroPadded(key, n)
  {
    var a := new byte[n](_ => 0);
    var len := if |key| < n then |key| else n;
    forall i | 0 <= i < len {
      a[i] := key[i];
    }
    k := a[..];
  }

  /** Normalisation leaves a key of the target length alone, cuts a longer one to its prefix,
      and extends a shorter one with zeros only. */
  lemma ZeroPaddedCases(key: Bytes, n: nat)
    ensures |key| == n ==> ZeroPadded(key, n) == key
    ensures |key| > n ==> ZeroPadded(key, n) == key[..n]
    ensures |key| < n ==> ZeroPadded(key, n) == key + seq(n - |key|, _ => 0)
  {
    var k := ZeroPadded(key, n);
    if |key| == n {
      assert forall i :: 0 <= i < n ==> k[i] == key[i];
    }
  }

  // ---- PKCS#7 padding (RFC 5652, section 6.3) ----

  lemma ModStep(n: nat, bs: BlockLen)
    requires n >= bs
    ensures (n - bs) % bs == n % bs
  {
    if bs == 8 {} else {}
  }

  lemma ModFill(n: nat, bs: BlockLen)
    ensures (n + (bs - n % bs)) % bs == 0
  {
    if bs == 8 {} else {}
  }

  lemma ModLast(n: nat, bs: BlockLen, k: nat)
    requires n % bs == 0 && 1 <= k <= bs && k <= n
    ensures (n - k) % bs == bs - k
  {
    if bs == 8 {} else {}
  }

  /** Padding to a whole number of blocks: p bytes of value p, 1 <= p <= bs. */
  function Pad(data: Bytes, bs: BlockLen): (padded: Bytes)
    ensures |padded| % bs == 0 && |data| < |padded| <= |data| + bs && padded[..|data|] == data
  {
    var p := bs - |data| % bs;
    ModFill(|data|, bs);
    data + seq(p, _ => p as byte)
  }

  /** Removal of the padding as `block_padding::Pkcs7::unpad` does it: the last byte n must be
      at least 1 and at most the buffer's length, and the last n bytes must all be n. Unlike
      section 6.3 of RFC 5652, n is not bounded by the block size. */
  function Unpad(buf: Bytes): (r: Option<Bytes>)
  {
    if |buf| == 0 then None
    else
      var n := buf[|buf| - 1] as int;
      if n < 1 || n > |buf| then None
      else if exists i :: |buf| - n <= i < |buf| && buf[i] as int != n then None
      else Some(buf[..|buf| - n])
  }

  /** Removing the padding undoes adding it. */
  lemma UnpadPad(data: Bytes, bs: BlockLen)
    ensures Unpad(Pad(data, bs)) == Some(data)
  {
    var padded := Pad(data, bs);
    var p := bs - |data| % bs;
    assert padded[|padded| - 1] as int == p;
    assert padded[..|padded| - p] == data;
  }

  /** On whole blocks, valid padding whose length byte is at most the block size is exactly
      what `Pad` produces. */
  lemma PadUnpad(buf: Bytes, bs: BlockLen, data: Bytes)
    requires |buf| % bs == 0 && buf != [] && buf[|buf| - 1] as int <= bs
    requires Unpad(buf) == Some(data)
    ensures Pad(data, bs) == buf
  {
    var n := buf[|buf| - 1] as int;
    assert data == buf[..|buf| - n];
    ModLast(|buf|, bs, n);
    var tail := seq(n, _ => n as byte);
    assert forall i :: |buf| - n <= i < |buf| ==> buf[i] as int == n;
    assert buf[|buf| - n..] == tail;
    assert buf == data + tail;
  }

  // ---- ECB mode ----

  /** ECB: the block function applied to each block on its own, no IV. */
  function Ecb(f: (Bytes, Bytes) -> Bytes, key: Bytes, data: Bytes, bs: BlockLen): (r: Bytes)
    requires |data| % bs == 0
    ensures LengthPreserving(f, bs) ==> |r| == |data|
    decreases |data|
  {
    if |data| == 0 then []
    else
      ModStep(|data|, bs);
      f(key, data[..bs]) + Ecb(f, key, data[bs..], bs)
  }

  ghost predicate LengthPreserving(f: (Bytes, Bytes) -> Bytes, bs: nat) {
    forall key, block :: |block| == bs ==> |f(key, block)| == bs
  }

  /** `dec` undoes `enc` on every block of size bs under every key. */
  ghost predicate InvertsBlocks(enc: (Bytes, Bytes) -> Bytes, dec: (Bytes, Bytes) -> Bytes, bs: nat) {
    forall key, block :: |block| == bs ==> dec(key, enc(key, block)) == block
  }

  lemma {:induction false} EcbRoundTrip(enc: (Bytes, Bytes) -> Bytes, dec: (Bytes, Bytes) -> Bytes,
                                        key: Bytes, data: Bytes, bs: BlockLen)
    requires |data| % bs == 0
    requires LengthPreserving(enc, bs) && InvertsBlocks(enc, dec, bs)
    ensures Ecb(dec, key, Ecb(enc, key, data, bs), bs) == data
    decreases |data|
  {
    if |data| > 0 {
      ModStep(|data|, bs);
      var c := Ecb(enc, key, data, bs);
      var b0 := enc(key, data[..bs]);
      assert c[..bs] == b0 && c[bs..] == Ecb(enc, key, data[bs..], bs);
      EcbRoundTrip(enc, dec, key, data[bs..], bs);
      assert data == data[..bs] + data[bs..];
    }
  }

  /** `Ecb::<_, Pkcs7>::decrypt_vec`: fails unless the data is whole blocks and the decrypted
      blocks end in valid padding. */
  function DecryptVec(f: (Bytes, Bytes) -> Bytes, key: Bytes, data: Bytes, bs: BlockLen): (r: Result<Bytes, Abort>)
  {
    if |data| % bs != 0 then Err(DecryptionFailed)
    else
      match Unpad(Ecb(f, key, data, bs))
      case None => Err(DecryptionFailed)
      case Some(plain) => Ok(plain)
  }

  /** What ECB/PKCS#7 decryption accepts: only non-empty whole blocks, and then it removes
      at least one byte of padding, and possibly every byte. The result is a prefix of the
      decrypted blocks. */
  lemma DecryptVecShape(f: (Bytes, Bytes) -> Bytes, key: Bytes, data: Bytes, bs: BlockLen)
    requires LengthPreserving(f, bs)
    ensures DecryptVec(f, key, data, bs).Ok? ==>
      |data| > 0 && |data| % bs == 0 &&
      0 <= |DecryptVec(f, key, data, bs).value| < |data| &&
      DecryptVec(f, key, data, bs).value == Ecb(f, key, data, bs)[..|DecryptVec(f, key, data, bs).value|]
  {
  }

  /** The library's rule accepts padding longer than a block, which section 6.3 of RFC 5652
      forbids: two 16-byte blocks of 0x20 unpad to nothing, though `Pad` of nothing is one
      block of 0x10. */
  lemma UnpadAcceptsLongPadding()
    ensures Unpad(seq(32, _ => 32 as byte)) == Some([])
    ensures Pad([], 16) != seq(32, _ => 32 as byte)
  {
    assert Pad([], 16) == seq(16, _ => 16 as byte);
  }

  /** The construction inverts: ECB/PKCS#7 encryption with block functions that `f` undoes
      decrypts back to the plaintext, whatever its length (empty or not block-aligned). */
  lemma DecryptVecRoundTrip(enc: (Bytes, Bytes) -> Bytes, f: (Bytes, Bytes) -> Bytes,
                            key: Bytes, plain: Bytes, bs: BlockLen)
    requires LengthPreserving(enc, bs) && InvertsBlocks(enc, f, bs)
    ensures DecryptVec(f, key, Ecb(enc, key, Pad(plain, bs), bs), bs) == Ok(plain)
  {
    var padded := Pad(plain, bs);
    EcbRoundTrip(enc, f, key, padded, bs);
    UnpadPad(plain, bs);
  }

  // ---- ChaCha20 with the fixed nonce ----

  /** Bitwise exclusive or of two naturals, bit by bit from the lowest. */
  function XorBits(a: nat, b: nat): nat
    decreases a + b
  {
    if a == 0 && b == 0 then 0 else 2 * XorBits(a / 2, b / 2) + (a % 2 + b % 2) % 2
  }

  function Pow2(k: nat): nat {
    if k == 0 then 1 else 2 * Pow2(k - 1)
  }

  lemma {:induction false} XorBitsBound(a: nat, b: nat, k: nat)
    requires a < Pow2(k) && b < Pow2(k)
    ensures XorBits(a, b) < Pow2(k)
    decreases k
  {
    if k > 0 && !(a == 0 && b == 0) {
      XorBitsBound(a / 2, b / 2, k - 1);
    }
  }

  lemma XorBitsUnfold(a: nat, b: nat)
    ensures XorBits(a, b) == 2 * XorBits(a / 2, b / 2) + (a % 2 + b % 2) % 2
  {
  }

  lemma Halves(z: nat, h: nat, r: nat)
    requires z == 2 * h + r && r < 2
    ensures z / 2 == h && z % 2 == r
  {
  }

  lemma {:induction false} XorBitsTwice(a: nat, b: nat)
    ensures XorBits(XorBits(a, b), b) == a
    decreases a + b
  {
    if !(a == 0 && b == 0) {
      var z := XorBits(a, b);
      var h := XorBits(a / 2, b / 2);
      var r := (a % 2 + b % 2) % 2;
      XorBitsUnfold(a, b);
      Halves(z, h, r);
      XorBitsTwice(a / 2, b / 2);
      XorBitsUnfold(z, b);
      assert XorBits(z, b) == 2 * (a / 2) + (r + b % 2) % 2;
      assert (r + b % 2) % 2 == a % 2;
    }
  }

  /** `^` on `u8`. */
  function Xor(a: byte, b: byte): byte {
    XorBitsBound(a as nat, b as nat, 8);
    XorBits(a as nat, b as nat) as byte
  }

  lemma XorTwice(a: byte, b: byte)
    ensures Xor(Xor(a, b), b) == a
  {
    XorBitsTwice(a as nat, b as nat);
  }

  /** The data with the keystream for `key` and the zero nonce applied byte by byte. */
  function Keystreamed(ks: (Bytes, Bytes, nat) -> byte, key: Bytes, data: Bytes): (r: Bytes)
    ensures |r| == |data|
  {
    seq(|data|, i requires 0 <= i < |data| => Xor(data[i], ks(key, NONCE, i)))
  }

  /** `data.to_vec()` then `apply_keystream` on the copy, in place. */
  method ApplyKeystream(ks: (Bytes, Bytes, nat) -> byte, key: Bytes, data: Bytes) returns (out: Bytes)
    ensures out == Keystreamed(ks, key, data)
  {
    var buf := new byte[|data|](i requires 0 <= i < |data| => data[i]);
    forall i | 0 <= i < buf.Length {
      buf[i] := Xor(buf[i], ks(key, NONCE, i));
    }
    out := buf[..];
  }

  /** Applying the keystream twice gives the data back: with a fixed key and nonce,
      ChaCha20 encryption and decryption are the same operation. */
  lemma KeystreamInvolution(ks: (Bytes, Bytes, nat) -> byte, key: Bytes, data: Bytes)
    ensures Keystreamed(ks, key, Keystreamed(ks, key, data)) == data
  {
    var once := Keystreamed(ks, key, data);
    var twice := Keystreamed(ks, key, once);
    forall i | 0 <= i < |data| ensures twice[i] == data[i] {
      XorTwice(data[i], ks(key, NONCE, i));
    }
  }

  // ---- decrypt ----

  /** `decrypt(method, key, data)`, with its panics as `Err`. */
  function Decryption(p: Primitives, m: EncryptionMethod, key: Bytes, data: Bytes): (r: Result<Bytes, Abort>)
    ensures (m == AES256 || m == Chacha20) && |key| != 32 ==> r == Err(KeyLengthMismatch)
    ensures (m == Blowfish || m == DESTriphleDES) ==> r != Err(KeyLengthMismatch)
    ensures m == Chacha20 && |key| == 32 ==> r.Ok? && |r.value| == |data|
    ensures m != Chacha20 && r.Ok? ==> |data| > 0 && |data| % BlockSize(m) == 0
  {
    match m
    case AES256 =>
      if |key| != 32 then Err(KeyLengthMismatch) else DecryptVec(p.aes256DecryptBlock, key, data, AES_BLOCK)
    case Chacha20 =>
      if |key| != 32 then Err(KeyLengthMismatch) else Ok(Keystreamed(p.chacha20Keystream, key, data))
    case Blowfish =>
      DecryptVec(p.blowfishDecryptBlock, ZeroPadded(key, 32), data, BLOWFISH_BLOCK)
    case DESTriphleDES =>
      DecryptVec(p.tdesEde3DecryptBlock, ZeroPadded(key, 24), data, TDES_BLOCK)
  }

  /** The method dispatch of `decrypt`, with the in-place key normalisation and keystream. */
  method Decrypt(p: Primitives, m: EncryptionMethod, key: Bytes, data: Bytes) returns (r: Result<Bytes, Abort>)
    ensures r == Decryption(p, m, key, data)
  {
    match m {
      case AES256 =>
        if |key| != 32 {
          r := Err(KeyLengthMismatch);
        } else {
          r := DecryptVec(p.aes256DecryptBlock, key, data, AES_BLOCK);
        }
      case Chacha20 =>
        if |key| != 32 {
          r := Err(KeyLengthMismatch);
        } else {
          var out := ApplyKeystream(p.chacha20Keystream, key, data);
          r := Ok(out);
        }
      case Blowfish =>
        var k := NormaliseKey(key, 32);
        r := DecryptVec(p.blowfishDecryptBlock, k, data, BLOWFISH_BLOCK);
      case DESTriphleDES =>
        var k := NormaliseKey(key, 24);
        r := DecryptVec(p.tdesEde3DecryptBlock, k, data, TDES_BLOCK);
    }
  }

  /** Keys differing only beyond the normalised length, or in missing versus zero bytes at
      the end, decrypt Blowfish and TDES data identically. */
  lemma NormalisedKeysAgree(p: Primitives, m: EncryptionMethod, k1: Bytes, k2: Bytes, data: Bytes)
    requires m == Blowfish || m == DESTriphleDES
    requires ZeroPadded(k1, KeySize(m)) == ZeroPadded(k2, KeySize(m))
    ensures Decryption(p, m, k1, data) == Decryption(p, m, k2, data)
  {
  }

  /** ChaCha20 decryption of keystreamed data returns it: round trip of the stream variant. */
  lemma ChachaRoundTrip(p: Primitives, key: Bytes, plain: Bytes)
    requires |key| == 32
    ensures Decryption(p, Chacha20, key, Keystreamed(p.chacha20Keystream, key, plain)) == Ok(plain)
  {
    KeystreamInvolution(p.chacha20Keystream, key, plain);
  }
}
