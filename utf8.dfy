/** UTF-8, as `String.getBytes(StandardCharsets.UTF_8)` and
    `new String(bytes, StandardCharsets.UTF_8)` apply it: keys of the SimpleKV
    log are stored as their UTF-8 bytes and read back by decoding them. */
module Utf8 {
  import opened Bytes

  /** The character that replaces bytes that do not form a UTF-8 sequence. */
  const Replacement: char := '\U{FFFD}'

  predicate IsContinuation(b: Byte) {
    0x80 <= b < 0xC0
  }

  /** The one to four bytes that encode a single character. */
  function EncodeChar(c: char): (r: seq<Byte>)
    ensures 1 <= |r| <= 4
  {
    var n := c as int;
    if n < 0x80 then [n]
    else if n < 0x800 then [0xC0 + n / 64, 0x80 + n % 64]
    else if n < 0x10000 then [0xE0 + n / 4096, 0x80 + (n / 64) % 64, 0x80 + n % 64]
    else [0xF0 + n / 262144, 0x80 + (n / 4096) % 64, 0x80 + (n / 64) % 64, 0x80 + n % 64]
  }

  /** `s.getBytes(UTF_8)`. */
  function Encode(s: string): (r: seq<Byte>)
    ensures |r| >= |s|
    decreases |s|
  {
    if s == [] then [] else EncodeChar(s[0]) + Encode(s[1..])
  }

  /** The code point carried by a two-, three- or four-byte sequence. */
  function Cp2(b0: int, b1: int): int { (b0 - 0xC0) * 64 + (b1 - 0x80) }
  function Cp3(b0: int, b1: int, b2: int): int { (b0 - 0xE0) * 4096 + (b1 - 0x80) * 64 + (b2 - 0x80) }
  function Cp4(b0: int, b1: int, b2: int, b3: int): int {
    (b0 - 0xF0) * 262144 + (b1 - 0x80) * 4096 + (b2 - 0x80) * 64 + (b3 - 0x80)
  }

  /** Decodes the character that starts `b`, with the number of bytes it used;
      a byte that does not start a well-formed sequence (a stray continuation,
      a truncated or overlong sequence, a surrogate or a value past U+10FFFF)
      becomes one replacement character. */
  function DecodeFirst(b: seq<Byte>): (r: (char, nat))
    requires b != []
    ensures 1 <= r.1 <= |b|
  {
    var b0 := b[0] as int;
    if b0 < 0x80 then
      (b0 as char, 1)
    else if 0xC0 <= b0 < 0xE0 && |b| >= 2 && IsContinuation(b[1])
      && Cp2(b0, b[1]) >= 0x80 then
      (Cp2(b0, b[1]) as char, 2)
    else if 0xE0 <= b0 < 0xF0 && |b| >= 3 && IsContinuation(b[1]) && IsContinuation(b[2])
      && 0x800 <= Cp3(b0, b[1], b[2]) && !(0xD800 <= Cp3(b0, b[1], b[2]) < 0xE000) then
      (Cp3(b0, b[1], b[2]) as char, 3)
    else if 0xF0 <= b0 < 0xF8 && |b| >= 4 && IsContinuation(b[1]) && IsContinuation(b[2]) && IsContinuation(b[3])
      && 0x10000 <= Cp4(b0, b[1], b[2], b[3]) < 0x110000 then
      (Cp4(b0, b[1], b[2], b[3]) as char, 4)
    else
      (Replacement, 1)
  }

  /** `new String(b, UTF_8)`. */
  function Decode(b: seq<Byte>): (r: string)
    ensures |r| <= |b|
    decreases |b|
  {
    if b == [] then []
    else
      var (c, n) := DecodeFirst(b);
      [c] + Decode(b[n..])
  }

  /** The decoder reads back exactly the character the encoder wrote, and
      nothing after it. */
  lemma DecodeFirstEncodeChar(c: char, rest: seq<Byte>)
    ensures DecodeFirst(EncodeChar(c) + rest) == (c, |EncodeChar(c)|)
  {
    var n := c as int;
    if n < 0x80 {
      var b := EncodeChar(c) + rest;
      assert b[0] == n;
    } else if n < 0x800 {
      var q, r := n / 64, n % 64;
      assert EncodeChar(c) == [0xC0 + q, 0x80 + r];
      DecodeTwo(q, r, rest);
    } else if n < 0x10000 {
      ThreeBytes(c, rest);
    } else {
      FourBytes(c, rest);
    }
  }

  lemma ThreeBytes(c: char, rest: seq<Byte>)
    requires 0x800 <= c as int < 0x10000
    ensures DecodeFirst(EncodeChar(c) + rest) == (c, 3)
  {
    var n := c as int;
    var q, m := n / 4096, n % 4096;
    var p, r := m / 64, m % 64;
    assert n == q * 4096 + p * 64 + r;
    DivMod64(n, q * 64 + p, r);
    assert EncodeChar(c) == [0xE0 + q, 0x80 + p, 0x80 + r];
    DecodeThree(q, p, r, rest);
  }

  lemma FourBytes(c: char, rest: seq<Byte>)
    requires 0x10000 <= c as int
    ensures DecodeFirst(EncodeChar(c) + rest) == (c, 4)
  {
    var n := c as int;
    var q, m := n / 262144, n % 262144;
    var p, m2 := m / 4096, m % 4096;
    var o, r := m2 / 64, m2 % 64;
    assert n == q * 262144 + p * 4096 + o * 64 + r;
    DivMod64(n, q * 4096 + p * 64 + o, r);
    DivMod64(n / 64, q * 64 + p, o);
    assert n / 4096 == q * 64 + p;
    assert EncodeChar(c) == [0xF0 + q, 0x80 + p, 0x80 + o, 0x80 + r];
    DecodeFour(q, p, o, r, rest);
  }

  /** Division by 64, once the quotient and remainder are known. */
  lemma DivMod64(n: int, q: int, r: int)
    requires n == q * 64 + r && 0 <= r < 64
    ensures n / 64 == q && n % 64 == r
  {
  }

  lemma DecodeTwo(q: int, r: int, rest: seq<Byte>)
    requires 2 <= q < 32 && 0 <= r < 64
    ensures DecodeFirst([0xC0 + q, 0x80 + r] + rest) == ((q * 64 + r) as char, 2)
  {
    var b := [0xC0 + q, 0x80 + r] + rest;
    assert b[0] == 0xC0 + q && b[1] == 0x80 + r;
    assert Cp2(b[0], b[1]) == q * 64 + r;
  }

  lemma DecodeThree(q: int, p: int, r: int, rest: seq<Byte>)
    requires 0 <= q < 16 && 0 <= p < 64 && 0 <= r < 64
    requires var n := q * 4096 + p * 64 + r; 0x800 <= n && !(0xD800 <= n < 0xE000)
    ensures DecodeFirst([0xE0 + q, 0x80 + p, 0x80 + r] + rest) == ((q * 4096 + p * 64 + r) as char, 3)
  {
    var b := [0xE0 + q, 0x80 + p, 0x80 + r] + rest;
    assert b[0] == 0xE0 + q && b[1] == 0x80 + p && b[2] == 0x80 + r;
    assert Cp3(b[0], b[1], b[2]) == q * 4096 + p * 64 + r;
  }

  lemma DecodeFour(q: int, p: int, o: int, r: int, rest: seq<Byte>)
    requires 0 <= q < 8 && 0 <= p < 64 && 0 <= o < 64 && 0 <= r < 64
    requires 0x10000 <= q * 262144 + p * 4096 + o * 64 + r < 0x110000
    ensures DecodeFirst([0xF0 + q, 0x80 + p, 0x80 + o, 0x80 + r] + rest)
         == ((q * 262144 + p * 4096 + o * 64 + r) as char, 4)
  {
    var b := [0xF0 + q, 0x80 + p, 0x80 + o, 0x80 + r] + rest;
    assert b[0] == 0xF0 + q && b[1] == 0x80 + p && b[2] == 0x80 + o && b[3] == 0x80 + r;
    assert Cp4(b[0], b[1], b[2], b[3]) == q * 262144 + p * 4096 + o * 64 + r;
  }

  /** Encoding distributes over concatenation. */
  lemma {:induction false} EncodeAppend(a: string, b: string)
    ensures Encode(a + b) == Encode(a) + Encode(b)
    decreases |a|
  {
    if a != [] {
      assert (a + b)[0] == a[0];
      assert (a + b)[1..] == a[1..] + b;
      EncodeAppend(a[1..], b);
    } else {
      assert a + b == b;
    }
  }

  /** Round trip: decoding the UTF-8 bytes of a string gives the string back. */
  lemma {:induction false} DecodeEncode(s: string)
    ensures Decode(Encode(s)) == s
    decreases |s|
  {
    if s != [] {
      var e := EncodeChar(s[0]);
      var b := Encode(s);
      assert b == e + Encode(s[1..]);
      DecodeFirstEncodeChar(s[0], Encode(s[1..]));
      assert b[|e|..] == Encode(s[1..]);
      DecodeEncode(s[1..]);
    }
  }

  /** Distinct strings have distinct UTF-8 bytes. */
  lemma EncodeInjective(a: string, b: string)
    requires Encode(a) == Encode(b)
    ensures a == b
  {
    DecodeEncode(a);
    DecodeEncode(b);
  }
}
