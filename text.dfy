/** Bytes and the text forms the core prints: decimal numbers (`format!("{}", n)`)
    and the hyphenated lower-case hexadecimal form of a 128-bit UUID (`Uuid::to_string`). */
module Text {

  newtype byte = x: int | 0 <= x < 256

  /** UUIDs are 128-bit values. */
  const UUID_BOUND: nat := 0x1_0000_0000_0000_0000_0000_0000_0000_0000
  type Uuid = x: nat | x < UUID_BOUND

  predicate IsDigit(c: char) {
    '0' <= c <= '9'
  }

  predicate AllDigits(s: string) {
    forall i :: 0 <= i < |s| ==> IsDigit(s[i])
  }

  function DigitChar(d: nat): (c: char)
    requires d < 10
    ensures IsDigit(c) && c as int - '0' as int == d
  {
    ('0' as int + d) as char
  }

  /** The decimal representation of n, without leading zeros. */
  function Decimal(n: nat): (s: string)
    ensures |s| >= 1 && AllDigits(s)
    ensures s[0] == '0' ==> n == 0
    decreases n
  {
    if n < 10 then [DigitChar(n)] else Decimal(n / 10) + [DigitChar(n % 10)]
  }

  /** The value of a string of decimal digits (the empty string reads as 0). */
  function ParseDecimal(s: string): nat
    requires AllDigits(s)
  {
    if s == [] then 0 else ParseDecimal(s[..|s| - 1]) * 10 + (s[|s| - 1] as int - '0' as int)
  }

  /** Printing a number and reading it back gives the number. */
  lemma {:induction false} DecimalRoundTrip(n: nat)
    ensures ParseDecimal(Decimal(n)) == n
    decreases n
  {
    if n >= 10 {
      DecimalRoundTrip(n / 10);
      var s := Decimal(n);
      assert s[..|s| - 1] == Decimal(n / 10);
    }
  }

  /** Distinct numbers print differently. */
  lemma DecimalInjective(a: nat, b: nat)
    requires Decimal(a) == Decimal(b)
    ensures a == b
  {
    DecimalRoundTrip(a);
    DecimalRoundTrip(b);
  }

  // ---- hexadecimal, for UUIDs ----

  predicate IsHexDigit(c: char) {
    '0' <= c <= '9' || 'a' <= c <= 'f'
  }

  function HexChar(d: nat): (c: char)
    requires d < 16
    ensures IsHexDigit(c)
  {
    if d < 10 then ('0' as int + d) as char else ('a' as int + d - 10) as char
  }

  function HexValue(c: char): (d: nat)
    requires IsHexDigit(c)
    ensures d < 16
  {
    if c <= '9' then c as int - '0' as int else c as int - 'a' as int + 10
  }

  function Pow16(k: nat): (p: nat)
    ensures p >= 1
  {
    if k == 0 then 1 else 16 * Pow16(k - 1)
  }

  /** The k lowest hexadecimal digits of n, most significant first. */
  function HexDigits(n: nat, k: nat): (s: string)
    ensures |s| == k
    ensures forall i :: 0 <= i < k ==> IsHexDigit(s[i])
  {
    if k == 0 then [] else HexDigits(n / 16, k - 1) + [HexChar(n % 16)]
  }

  function ParseHex(s: string): nat
    requires forall i :: 0 <= i < |s| ==> IsHexDigit(s[i])
  {
    if s == [] then 0 else ParseHex(s[..|s| - 1]) * 16 + HexValue(s[|s| - 1])
  }

  lemma {:induction false} HexRoundTrip(n: nat, k: nat)
    requires n < Pow16(k)
    ensures ParseHex(HexDigits(n, k)) == n
    decreases k
  {
    if k > 0 {
      assert n / 16 < Pow16(k - 1);
      HexRoundTrip(n / 16, k - 1);
      var s := HexDigits(n, k);
      assert s[..|s| - 1] == HexDigits(n / 16, k - 1);
      assert HexValue(HexChar(n % 16)) == n % 16;
    }
  }

  lemma Pow16Is2To128()
    ensures Pow16(32) == UUID_BOUND
  {
    var p := Pow16(0);
    assert Pow16(8) == 0x1_0000_0000;
    assert Pow16(16) == 16 * 16 * 16 * 16 * 16 * 16 * 16 * 16 * Pow16(8) by {
      assert Pow16(16) == 16 * Pow16(15);
      assert Pow16(15) == 16 * Pow16(14);
      assert Pow16(14) == 16 * Pow16(13);
      assert Pow16(13) == 16 * Pow16(12);
      assert Pow16(12) == 16 * Pow16(11);
      assert Pow16(11) == 16 * Pow16(10);
      assert Pow16(10) == 16 * Pow16(9);
      assert Pow16(9) == 16 * Pow16(8);
    }
    assert Pow16(16) == 0x1_0000_0000_0000_0000;
    Pow16Add(16, 16);
  }

  lemma {:induction false} Pow16Add(a: nat, b: nat)
    ensures Pow16(a + b) == Pow16(a) * Pow16(b)
    decreases a
  {
    if a > 0 {
      Pow16Add(a - 1, b);
    }
  }

  /** `Uuid::to_string`: 32 hexadecimal digits in groups 8-4-4-4-12 joined by '-'. */
  function UuidString(u: Uuid): (s: string)
    ensures |s| == 36
    ensures s[8] == '-' && s[13] == '-' && s[18] == '-' && s[23] == '-'
  {
    var h := HexDigits(u, 32);
    h[..8] + "-" + h[8..12] + "-" + h[12..16] + "-" + h[16..20] + "-" + h[20..]
  }

  /** The string with its four hyphens removed gives back the 32 digits. */
  lemma UuidDigits(u: Uuid)
    ensures var s := UuidString(u);
      s[..8] + s[9..13] + s[14..18] + s[19..23] + s[24..] == HexDigits(u, 32)
  {
    var h := HexDigits(u, 32);
    var s := UuidString(u);
    assert s[..8] == h[..8];
    assert s[9..13] == h[8..12];
    assert s[14..18] == h[12..16];
    assert s[19..23] == h[16..20];
    assert s[24..] == h[20..];
    assert h == h[..8] + h[8..12] + h[12..16] + h[16..20] + h[20..];
  }

  /** Distinct UUIDs print as distinct strings. */
  lemma UuidStringInjective(a: Uuid, b: Uuid)
    requires UuidString(a) == UuidString(b)
    ensures a == b
  {
    UuidDigits(a);
    UuidDigits(b);
    Pow16Is2To128();
    HexRoundTrip(a, 32);
    HexRoundTrip(b, 32);
  }

  // ---- ASCII letters and digits ----

  predicate IsAsciiAlphanumeric(c: char) {
    'A' <= c <= 'Z' || 'a' <= c <= 'z' || '0' <= c <= '9'
  }

  /** The i-th character of the alphabet `rand::distributions::Alphanumeric` samples
      from: the 26 upper-case letters, the 26 lower-case letters, then the 10 digits. */
  function AlphanumericChar(i: nat): (c: char)
    requires i < 62
    ensures IsAsciiAlphanumeric(c)
  {
    if i < 26 then ('A' as int + i) as char
    else if i < 52 then ('a' as int + i - 26) as char
    else ('0' as int + i - 52) as char
  }
}
