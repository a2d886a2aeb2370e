/**
 * UTF-8, the charset of Kotlin's `File.readText()` and `File.writeText()`.
 * A Dafny `char` is a Unicode scalar value, so every character has an encoding.
 */
module Utf8 {
  import opened Binary

  predicate IsContinuation(b: byte) {
    0x80 <= b < 0xC0
  }

  /** The encoding of one character: one to four bytes, by the size of its code point. */
  function EncodeChar(c: char): (r: seq<byte>)
    ensures 1 <= |r| <= 4
    ensures forall k :: 1 <= k < |r| ==> IsContinuation(r[k])
  {
    var n := c as int;
    var d0, m1 := n % 64, n / 64;
    var d1, m2 := m1 % 64, m1 / 64;
    var d2, m3 := m2 % 64, m2 / 64;
    if n < 0x80 then [n as byte]
    else if n < 0x800 then [(0xC0 + m1) as byte, (0x80 + d0) as byte]
    else if n < 0x10000 then [(0xE0 + m2) as byte, (0x80 + d1) as byte, (0x80 + d0) as byte]
    else [(0xF0 + m3) as byte, (0x80 + d2) as byte, (0x80 + d1) as byte, (0x80 + d0) as byte]
  }

  /** `String.toByteArray(UTF_8)`. */
  function Encode(s: string): (r: seq<byte>)
    ensures |s| <= |r| <= 4 * |s|
  {
    if |s| == 0 then [] else EncodeChar(s[0]) + Encode(s[1..])
  }

  predicate IsScalar(v: int) {
    (0 <= v < 0xD800) || (0xE000 <= v < 0x110000)
  }

  /** The replacement character, U+FFFD, that stands for undecodable input. */
  const Replacement: char := '\U{FFFD}'

  /** Decodes the character at the front: its value and how many bytes it takes. */
  function DecodeOne(b: seq<byte>): (r: (char, nat))
    requires |b| > 0
    ensures 1 <= r.1 <= |b|
  {
    var b0 := b[0] as int;
    if b0 < 0x80 then (b0 as char, 1)
    else if 0xC0 <= b0 < 0xE0 && |b| >= 2 && IsContinuation(b[1]) then
      var v := (b0 - 0xC0) * 64 + (b[1] as int - 0x80);
      if 0x80 <= v then (v as char, 2) else (Replacement, 1)
    else if 0xE0 <= b0 < 0xF0 && |b| >= 3 && IsContinuation(b[1]) && IsContinuation(b[2]) then
      var v := ((b0 - 0xE0) * 64 + (b[1] as int - 0x80)) * 64 + (b[2] as int - 0x80);
      if 0x800 <= v && IsScalar(v) then (v as char, 3) else (Replacement, 1)
    else if 0xF0 <= b0 < 0xF8 && |b| >= 4 && IsContinuation(b[1]) && IsContinuation(b[2]) && IsContinuation(b[3]) then
      var v := (((b0 - 0xF0) * 64 + (b[1] as int - 0x80)) * 64 + (b[2] as int - 0x80)) * 64 + (b[3] as int - 0x80);
      if 0x10000 <= v && IsScalar(v) then (v as char, 4) else (Replacement, 1)
    else (Replacement, 1)
  }

  /** `String(bytes, UTF_8)`, with a replacement character for each byte that starts no valid sequence. */
  function Decode(b: seq<byte>): string
    decreases |b|
  {
    if |b| == 0 then "" else
      var (c, n) := DecodeOne(b);
      [c] + Decode(b[n..])
  }

  lemma DecodeOneOfEncoded(c: char, rest: seq<byte>)
    ensures DecodeOne(EncodeChar(c) + rest) == (c, |EncodeChar(c)|)
  {
    var e := EncodeChar(c);
    var b := e + rest;
    assert b[..|e|] == e;
    assert forall k :: 0 <= k < |e| ==> b[k] == e[k];
  }

  lemma SplitAt(e: seq<byte>, rest: seq<byte>)
    ensures (e + rest)[|e|..] == rest
  {
  }

  lemma SplitFirst(s: string)
    requires |s| > 0
    ensures s == [s[0]] + s[1..]
  {
  }

  /** Reading back written text gives the text. */
  lemma {:induction false} DecodeEncode(s: string)
    ensures Decode(Encode(s)) == s
  {
    if |s| > 0 {
      var e := EncodeChar(s[0]);
      DecodeOneOfEncoded(s[0], Encode(s[1..]));
      SplitAt(e, Encode(s[1..]));
      DecodeEncode(s[1..]);
      SplitFirst(s);
    }
  }
}
