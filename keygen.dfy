/** Key material (src/utils/generate_key.rs): a fresh random key per cipher suite, and the
    API key handed to tenants. The random source and the clock are parameters. */
module KeyGen {
  import opened Text
  import opened Wrappers
  import opened Models
  import opened Cipher

  /** The length of the key `generate_key` produces for each method. For TDES it is 21 bytes,
      fewer than the 24 that `decrypt` works with. */
  function GeneratedKeyLength(m: EncryptionMethod): nat {
    match m
    case AES256 => 32
    case Chacha20 => 32
    case Blowfish => 32
    case DESTriphleDES => 21
  }

  /** `generate_key`: a zeroed buffer of the method's length, then every byte drawn from the
      random source (`rng(i)` is the i-th byte it yields). */
  method GenerateKey(m: EncryptionMethod, rng: nat -> byte) returns (key: Bytes)
    ensures |key| == GeneratedKeyLength(m)
    ensures forall i :: 0 <= i < |key| ==> key[i] == rng(i)
  {
    var n := GeneratedKeyLength(m);
    var buf := new byte[n](_ => 0);
    for i := 0 to n
      invariant forall j :: 0 <= j < i ==> buf[j] == rng(j)
    {
      buf[i] := rng(i);
    }
    key := buf[..];
  }

  /** Whatever the random bytes, a generated key never makes `decrypt` abort on its length:
      AES256 and ChaCha20 get exactly 32 bytes, and Blowfish and TDES normalise any length. */
  lemma GeneratedKeyAccepted(p: Primitives, m: EncryptionMethod, key: Bytes, data: Bytes)
    requires |key| == GeneratedKeyLength(m)
    ensures Decryption(p, m, key, data) != Err(KeyLengthMismatch)
  {
  }

  /** A generated Blowfish key is used as it is; a generated TDES key reaches the cipher with
      three zero bytes appended. */
  lemma GeneratedKeyNormalised(m: EncryptionMethod, key: Bytes)
    requires m == Blowfish || m == DESTriphleDES
    requires |key| == GeneratedKeyLength(m)
    ensures m == Blowfish ==> ZeroPadded(key, KeySize(m)) == key
    ensures m == DESTriphleDES ==> ZeroPadded(key, KeySize(m)) == key + [0, 0, 0]
  {
    ZeroPaddedCases(key, KeySize(m));
    if m == DESTriphleDES {
      assert seq(3, _ => 0 as byte) == [0, 0, 0];
    }
  }

  /** An index into the 62-character alphabet of `rand::distributions::Alphanumeric`. */
  type AlphanumericIndex = i: nat | i < 62

  const API_KEY_SUFFIX: nat := 10

  /** The ten sampled characters. */
  function Suffix(draw: nat -> AlphanumericIndex): (s: string)
    ensures |s| == API_KEY_SUFFIX
    ensures forall i :: 0 <= i < API_KEY_SUFFIX ==> s[i] == AlphanumericChar(draw(i))
  {
    seq(API_KEY_SUFFIX, i requires 0 <= i < API_KEY_SUFFIX => AlphanumericChar(draw(i)))
  }

  /** `generate_api_key`: the milliseconds since the epoch in decimal, then ten alphanumeric
      characters; `draw(i)` is the i-th sample. */
  function ApiKey(millis: nat, draw: nat -> AlphanumericIndex): (k: string)
    ensures |k| == |Decimal(millis)| + API_KEY_SUFFIX
    ensures k[..|k| - API_KEY_SUFFIX] == Decimal(millis)
    ensures k[|k| - API_KEY_SUFFIX..] == Suffix(draw)
    ensures AllDigits(k[..|k| - API_KEY_SUFFIX])
    ensures forall i :: |k| - API_KEY_SUFFIX <= i < |k| ==> IsAsciiAlphanumeric(k[i])
  {
    var k := Decimal(millis) + Suffix(draw);
    assert k[..|k| - API_KEY_SUFFIX] == Decimal(millis);
    assert k[|k| - API_KEY_SUFFIX..] == Suffix(draw);
    k
  }

  /** Reading all but the last ten characters as a number gives back the timestamp. */
  lemma ApiKeyTimestamp(millis: nat, draw: nat -> AlphanumericIndex)
    ensures var k := ApiKey(millis, draw);
      ParseDecimal(k[..|k| - API_KEY_SUFFIX]) == millis
  {
    DecimalRoundTrip(millis);
  }

  lemma AlphanumericCharInjective(i: AlphanumericIndex, j: AlphanumericIndex)
    requires AlphanumericChar(i) == AlphanumericChar(j)
    ensures i == j
  {
  }

  /** Two API keys are equal only if they were made in the same millisecond from the same
      ten samples: keys issued at different instants always differ. */
  lemma ApiKeyInjective(m1: nat, d1: nat -> AlphanumericIndex, m2: nat, d2: nat -> AlphanumericIndex)
    requires ApiKey(m1, d1) == ApiKey(m2, d2)
    ensures m1 == m2
    ensures forall i :: 0 <= i < API_KEY_SUFFIX ==> d1(i) == d2(i)
  {
    ApiKeyTimestamp(m1, d1);
    ApiKeyTimestamp(m2, d2);
    var s1 := Suffix(d1);
    var s2 := Suffix(d2);
    assert s1 == s2;
    forall i | 0 <= i < API_KEY_SUFFIX
      ensures d1(i) == d2(i)
    {
      assert s1[i] == s2[i];
      AlphanumericCharInjective(d1(i), d2(i));
    }
  }
}
