/** UTF-8, as Rust's `str::as_bytes` produces it and `String::from_utf8` accepts it:
    the well-formed byte sequences of Table 3-7 of the Unicode Standard
    (no overlong forms, no surrogates, nothing above U+10FFFF).
    Dafny's `char` is a Unicode scalar value, as Rust's is. */
module Utf8 {
  import opened Text
  import opened Wrappers

  predicate IsCont(b: byte) {
    0x80 <= b <= 0xBF
  }

  /** The encoding of one scalar value. */
  function EncodeChar(c: char): (bs: seq<byte>)
    ensures 1 <= |bs| <= 4
  {
    var n := c as int;
    if n < 0x80 then [n as byte]
    else if n < 0x800 then [(0xC0 + n / 64) as byte, (0x80 + n % 64) as byte]
    else if n < 0x10000 then
      [(0xE0 + n / 4096) as byte, (0x80 + (n / 64) % 64) as byte, (0x80 + n % 64) as byte]
    else
      [(0xF0 + n / 262144) as byte, (0x80 + (n / 4096) % 64) as byte,
       (0x80 + (n / 64) % 64) as byte, (0x80 + n % 64) as byte]
  }

  /** `str::as_bytes`: the UTF-8 encoding of a string. */
  function AsBytes(s: string): seq<byte>
  {
    if s == [] then [] else EncodeChar(s[0]) + AsBytes(s[1..])
  }

  predicate SecondOf3Ok(b0: byte, b1: byte) {
    if b0 == 0xE0 then 0xA0 <= b1 <= 0xBF
    else if b0 == 0xED then 0x80 <= b1 <= 0x9F
    else IsCont(b1)
  }

  predicate SecondOf4Ok(b0: byte, b1: byte) {
    if b0 == 0xF0 then 0x90 <= b1 <= 0xBF
    else if b0 == 0xF4 then 0x80 <= b1 <= 0x8F
    else IsCont(b1)
  }

  /** The length of the well-formed sequence that starts `bs`, or 0 when `bs` does not
      start with one. */
  function SeqLen(bs: seq<byte>): (n: nat)
    ensures n <= |bs| && n <= 4
  {
    if |bs| == 0 then 0
    else if bs[0] < 0x80 then 1
    else if 0xC2 <= bs[0] <= 0xDF then
      if |bs| >= 2 && IsCont(bs[1]) then 2 else 0
    else if 0xE0 <= bs[0] <= 0xEF then
      if |bs| >= 3 && SecondOf3Ok(bs[0], bs[1]) && IsCont(bs[2]) then 3 else 0
    else if 0xF0 <= bs[0] <= 0xF4 then
      if |bs| >= 4 && SecondOf4Ok(bs[0], bs[1]) && IsCont(bs[2]) && IsCont(bs[3]) then 4 else 0
    else 0
  }

  /** The scalar value a well-formed sequence stands for. */
  function CodePoint(bs: seq<byte>): (cp: int)
    requires SeqLen(bs) > 0
    ensures 0 <= cp < 0xD800 || 0xE000 <= cp < 0x11_0000
    ensures SeqLen(bs) == 1 ==> cp < 0x80
    ensures SeqLen(bs) == 2 ==> 0x80 <= cp < 0x800
    ensures SeqLen(bs) == 3 ==> 0x800 <= cp < 0x10000
    ensures SeqLen(bs) == 4 ==> 0x10000 <= cp
  {
    var n := SeqLen(bs);
    if n == 1 then bs[0] as int
    else if n == 2 then (bs[0] as int - 0xC0) * 64 + (bs[1] as int - 0x80)
    else if n == 3 then
      (bs[0] as int - 0xE0) * 4096 + (bs[1] as int - 0x80) * 64 + (bs[2] as int - 0x80)
    else
      (bs[0] as int - 0xF0) * 262144 + (bs[1] as int - 0x80) * 4096
        + (bs[2] as int - 0x80) * 64 + (bs[3] as int - 0x80)
  }

  /** `String::from_utf8`: the string the bytes encode, or None when they are not UTF-8. */
  function FromUtf8(bs: seq<byte>): Option<string>
    decreases |bs|
  {
    if bs == [] then Some([])
    else
      var n := SeqLen(bs);
      if n == 0 then None
      else
        match FromUtf8(bs[n..])
        case None => None
        case Some(rest) => Some([CodePoint(bs) as char] + rest)
  }

  // ---- arithmetic of the bit fields, with constant divisors only ----

  lemma Div64(x: int, q: int, r: int)
    requires x == q * 64 + r && 0 <= r < 64
    ensures x / 64 == q && x % 64 == r
  {
  }

  lemma Fields3(n: int)
    requires 0x800 <= n < 0x10000
    ensures n == (n / 4096) * 4096 + ((n / 64) % 64) * 64 + n % 64
    ensures n / 4096 == 0 ==> (n / 64) % 64 >= 0x20
    ensures n / 4096 == 0xD && n < 0xD800 ==> (n / 64) % 64 < 0x20
  {
  }

  lemma Fields4(n: int)
    requires 0x10000 <= n < 0x11_0000
    ensures n == (n / 262144) * 262144 + ((n / 4096) % 64) * 4096 + ((n / 64) % 64) * 64 + n % 64
    ensures n / 262144 == 0 ==> (n / 4096) % 64 >= 0x10
    ensures n / 262144 <= 4 && (n / 262144 == 4 ==> (n / 4096) % 64 < 0x10)
  {
    var a := n / 64;
    Div64(n, a, n % 64);
    var b := a / 64;
    Div64(a, b, a % 64);
    var c := b / 64;
    Div64(b, c, b % 64);
    Div4096(n, b, (a % 64) * 64 + n % 64);
    Div262144(n, c, (b % 64) * 4096 + (a % 64) * 64 + n % 64);
  }

  lemma Div4096(x: int, q: int, r: int)
    requires x == q * 4096 + r && 0 <= r < 4096
    ensures x / 4096 == q
  {
  }

  lemma Div262144(x: int, q: int, r: int)
    requires x == q * 262144 + r && 0 <= r < 262144
    ensures x / 262144 == q
  {
  }

  lemma Join3(a: int, b: int, d: int)
    requires 0 <= a < 16 && 0 <= b < 64 && 0 <= d < 64
    ensures var cp := a * 4096 + b * 64 + d;
      cp / 4096 == a && (cp / 64) % 64 == b && cp % 64 == d
  {
    var cp := a * 4096 + b * 64 + d;
    Div64(cp, a * 64 + b, d);
    Div64(a * 64 + b, a, b);
  }

  lemma Join4(a: int, b: int, d: int, e: int)
    requires 0 <= a < 8 && 0 <= b < 64 && 0 <= d < 64 && 0 <= e < 64
    ensures var cp := a * 262144 + b * 4096 + d * 64 + e;
      cp / 262144 == a && (cp / 4096) % 64 == b && (cp / 64) % 64 == d && cp % 64 == e
  {
    var cp := a * 262144 + b * 4096 + d * 64 + e;
    Div64(cp, a * 4096 + b * 64 + d, e);
    Div64(a * 4096 + b * 64 + d, a * 64 + b, d);
    Div64(a * 64 + b, a, b);
  }

  /** The encoding of a character is a well-formed sequence that decodes to it, whatever follows. */
  lemma EncodeCharDecodes(c: char, rest: seq<byte>)
    ensures var e := EncodeChar(c);
      SeqLen(e + rest) == |e| && CodePoint(e + rest) == c as int
  {
    var n := c as int;
    var bs := EncodeChar(c) + rest;
    if n < 0x80 {
    } else if n < 0x800 {
      Div64(n, n / 64, n % 64);
    } else if n < 0x10000 {
      Fields3(n);
    } else {
      Fields4(n);
    }
  }

  lemma Reencodes2(bs: seq<byte>)
    requires SeqLen(bs) == 2
    ensures EncodeChar(CodePoint(bs) as char) == bs[..2]
  {
    Div64(CodePoint(bs), bs[0] as int - 0xC0, bs[1] as int - 0x80);
  }

  lemma Reencodes3(bs: seq<byte>)
    requires SeqLen(bs) == 3
    ensures EncodeChar(CodePoint(bs) as char) == bs[..3]
  {
    Join3(bs[0] as int - 0xE0, bs[1] as int - 0x80, bs[2] as int - 0x80);
  }

  lemma Reencodes4(bs: seq<byte>)
    requires SeqLen(bs) == 4
    ensures EncodeChar(CodePoint(bs) as char) == bs[..4]
  {
    Join4(bs[0] as int - 0xF0, bs[1] as int - 0x80, bs[2] as int - 0x80, bs[3] as int - 0x80);
  }

  /** A well-formed sequence is the encoding of the character it decodes to. */
  lemma DecodeReencodes(bs: seq<byte>)
    requires SeqLen(bs) > 0
    ensures EncodeChar(CodePoint(bs) as char) == bs[..SeqLen(bs)]
  {
    var n := SeqLen(bs);
    if n == 2 {
      Reencodes2(bs);
    } else if n == 3 {
      Reencodes3(bs);
    } else if n == 4 {
      Reencodes4(bs);
    }
  }

  /** What a successful decoding of a non-empty sequence is made of. */
  lemma DecodeStep(bs: seq<byte>, s: string)
    requires bs != [] && FromUtf8(bs) == Some(s)
    ensures SeqLen(bs) > 0 && FromUtf8(bs[SeqLen(bs)..]).Some?
    ensures s == [CodePoint(bs) as char] + FromUtf8(bs[SeqLen(bs)..]).value
  {
  }

  lemma AsBytesCons(s: string)
    requires s != []
    ensures AsBytes(s) == EncodeChar(s[0]) + AsBytes(s[1..])
  {
  }

  /** Decoding the bytes of a string gives the string back. */
  lemma {:induction false} FromUtf8AsBytes(s: string)
    ensures FromUtf8(AsBytes(s)) == Some(s)
  {
    if s != [] {
      var e := EncodeChar(s[0]);
      var tail := AsBytes(s[1..]);
      var bs := AsBytes(s);
      assert bs == e + tail;
      EncodeCharDecodes(s[0], tail);
      assert bs[|e|..] == tail;
      FromUtf8AsBytes(s[1..]);
      assert CodePoint(bs) as char == s[0];
      assert FromUtf8(bs) == Some([s[0]] + s[1..]);
      assert [s[0]] + s[1..] == s;
    }
  }

  /** The first sequence of accepted bytes encodes the first character, and the rest is
      accepted as the rest of the string. */
  lemma DecodeHead(bs: seq<byte>, s: string)
    requires bs != [] && FromUtf8(bs) == Some(s)
    ensures 0 < SeqLen(bs) && s != [] && FromUtf8(bs[SeqLen(bs)..]) == Some(s[1..])
    ensures AsBytes(s) == bs[..SeqLen(bs)] + AsBytes(s[1..])
  {
    DecodeStep(bs, s);
    DecodeReencodes(bs);
    AsBytesCons(s);
  }

  /** Whatever `String::from_utf8` accepts is exactly the encoding of the string it returns:
      UTF-8 is a bijection between strings and the byte sequences accepted. */
  lemma {:induction false} AsBytesFromUtf8(bs: seq<byte>, s: string)
    requires FromUtf8(bs) == Some(s)
    ensures AsBytes(s) == bs
    decreases |bs|
  {
    if bs != [] {
      DecodeHead(bs, s);
      AsBytesFromUtf8(bs[SeqLen(bs)..], s[1..]);
      JoinAt(bs, AsBytes(s), AsBytes(s[1..]), SeqLen(bs));
    }
  }

  lemma JoinAt(bs: seq<byte>, whole: seq<byte>, rest: seq<byte>, n: nat)
    requires n <= |bs| && whole == bs[..n] + rest && rest == bs[n..]
    ensures whole == bs
  {
    assert bs == bs[..n] + bs[n..];
  }
}
