/**
 * The standard Base64 encoding of section 4 of RFC 4648 (alphabet `A-Z a-z 0-9 + /`,
 * `=` padding, no line breaks), which `java.util.Base64.getEncoder()` produces.
 */
module Base64 {
  import opened Binary

  /** The character for a 6-bit value. */
  function Symbol(i: int): (c: char)
    requires 0 <= i < 64
  {
    if i < 26 then ('A' as int + i) as char
    else if i < 52 then ('a' as int + (i - 26)) as char
    else if i < 62 then ('0' as int + (i - 52)) as char
    else if i == 62 then '+'
    else '/'
  }

  predicate IsSymbol(c: char) {
    ('A' <= c <= 'Z') || ('a' <= c <= 'z') || ('0' <= c <= '9') || c == '+' || c == '/'
  }

  /** The 6-bit value of an alphabet character: the inverse of `Symbol`. */
  function SymbolValue(c: char): (i: int)
    requires IsSymbol(c)
    ensures 0 <= i < 64 && Symbol(i) == c
  {
    if 'A' <= c <= 'Z' then c as int - 'A' as int
    else if 'a' <= c <= 'z' then c as int - 'a' as int + 26
    else if '0' <= c <= '9' then c as int - '0' as int + 52
    else if c == '+' then 62
    else 63
  }

  lemma SymbolInverse(i: int)
    requires 0 <= i < 64
    ensures IsSymbol(Symbol(i)) && SymbolValue(Symbol(i)) == i
  {
  }

  /** Splits `x` into `x / d` and `x % d` and puts them back together. */
  lemma DivMod(x: int, d: int, hi: int)
    requires 0 < d && 0 <= x < d * hi
    ensures 0 <= x / d < hi && 0 <= x % d < d && x == x / d * d + x % d
  {
  }

  lemma Combine16(q: int, r: int)
    requires 0 <= r < 16 && 0 <= q
    ensures (q * 16 + r) / 16 == q && (q * 16 + r) % 16 == r
  {
  }

  lemma Combine4(q: int, r: int)
    requires 0 <= r < 4 && 0 <= q
    ensures (q * 4 + r) / 4 == q && (q * 4 + r) % 4 == r
  {
  }

  /** The four 6-bit values that three bytes consist of. */
  function Sextets(a: byte, b: byte, c: byte): (r: seq<int>)
    ensures |r| == 4 && forall k :: 0 <= k < 4 ==> 0 <= r[k] < 64
  {
    DivMod(a as int, 4, 64);
    DivMod(b as int, 16, 16);
    DivMod(c as int, 64, 4);
    [a as int / 4, a as int % 4 * 16 + b as int / 16, b as int % 16 * 4 + c as int / 64, c as int % 64]
  }

  /** Three bytes as four characters. */
  function EncodeGroup(a: byte, b: byte, c: byte): (r: string)
    ensures |r| == 4 && forall k :: 0 <= k < 4 ==> IsSymbol(r[k])
  {
    var v := Sextets(a, b, c);
    SymbolInverse(v[0]);
    SymbolInverse(v[1]);
    SymbolInverse(v[2]);
    SymbolInverse(v[3]);
    [Symbol(v[0]), Symbol(v[1]), Symbol(v[2]), Symbol(v[3])]
  }

  /** Encodes the bytes, three at a time; a final group of one or two bytes is padded with `=`. */
  function Encode(s: seq<byte>): (r: string)
    ensures |r| == 4 * ((|s| + 2) / 3)
    ensures forall k :: 0 <= k < |r| ==> IsSymbol(r[k]) || r[k] == '='
  {
    if |s| >= 3 then EncodeGroup(s[0], s[1], s[2]) + Encode(s[3..])
    else if |s| == 2 then EncodeGroup(s[0], s[1], 0)[..3] + "="
    else if |s| == 1 then EncodeGroup(s[0], 0, 0)[..2] + "=="
    else ""
  }

  /** Four 6-bit values as three bytes. */
  function DecodeGroup(w: char, x: char, y: char, z: char): seq<byte>
    requires IsSymbol(w) && IsSymbol(x) && IsSymbol(y) && IsSymbol(z)
  {
    var s0, s1, s2, s3 := SymbolValue(w), SymbolValue(x), SymbolValue(y), SymbolValue(z);
    DivMod(s1, 16, 4);
    DivMod(s2, 4, 16);
    [(s0 * 4 + s1 / 16) as byte, (s1 % 16 * 16 + s2 / 4) as byte, (s2 % 4 * 64 + s3) as byte]
  }

  predicate WellFormed(s: string) {
    |s| % 4 == 0 && forall k :: 0 <= k < |s| ==> IsSymbol(s[k]) || s[k] == '='
  }

  /** Decodes four characters at a time: the inverse of `Encode`. */
  function Decode(s: string): seq<byte>
    decreases |s|
  {
    if |s| < 4 || !IsSymbol(s[0]) || !IsSymbol(s[1]) then []
    else if s[2] == '=' then DecodeGroup(s[0], s[1], 'A', 'A')[..1]
    else if !IsSymbol(s[2]) then []
    else if s[3] == '=' then DecodeGroup(s[0], s[1], s[2], 'A')[..2]
    else if !IsSymbol(s[3]) then []
    else DecodeGroup(s[0], s[1], s[2], s[3]) + Decode(s[4..])
  }

  lemma FirstByteBack(a: int, b: int)
    requires 0 <= a < 256 && 0 <= b < 256
    ensures a / 4 * 4 + (a % 4 * 16 + b / 16) / 16 == a
  {
    Combine16(a % 4, b / 16);
  }

  lemma SecondByteBack(a: int, b: int, c: int)
    requires 0 <= a < 256 && 0 <= b < 256 && 0 <= c < 256
    ensures (a % 4 * 16 + b / 16) % 16 * 16 + (b % 16 * 4 + c / 64) / 4 == b
  {
    Combine16(a % 4, b / 16);
    Combine4(b % 16, c / 64);
  }

  lemma ThirdByteBack(b: int, c: int)
    requires 0 <= b < 256 && 0 <= c < 256
    ensures (b % 16 * 4 + c / 64) % 4 * 64 + c % 64 == c
  {
    Combine4(b % 16, c / 64);
  }

  lemma GroupRoundTrip(a: byte, b: byte, c: byte)
    ensures var e := EncodeGroup(a, b, c); DecodeGroup(e[0], e[1], e[2], e[3]) == [a, b, c]
  {
    var v := Sextets(a, b, c);
    SymbolInverse(v[0]);
    SymbolInverse(v[1]);
    SymbolInverse(v[2]);
    SymbolInverse(v[3]);
    FirstByteBack(a as int, b as int);
    SecondByteBack(a as int, b as int, c as int);
    ThirdByteBack(b as int, c as int);
  }

  /** A full group at the front decodes on its own. */
  lemma DecodeFullGroup(e: string, rest: string)
    requires |e| == 4 && forall k :: 0 <= k < 4 ==> IsSymbol(e[k])
    ensures Decode(e + rest) == DecodeGroup(e[0], e[1], e[2], e[3]) + Decode(rest)
  {
    var t := e + rest;
    assert t[0] == e[0] && t[1] == e[1] && t[2] == e[2] && t[3] == e[3];
    assert t[4..] == rest;
  }

  lemma DecodeEncodeTwo(a: byte, b: byte)
    ensures Decode(Encode([a, b])) == [a, b]
  {
    GroupRoundTrip(a, b, 0);
    var e := EncodeGroup(a, b, 0);
    assert Sextets(a, b, 0)[3] == 0;
    assert e[3] == 'A';
    var t := e[..3] + "=";
    assert t[0] == e[0] && t[1] == e[1] && t[2] == e[2] && t[3] == '=';
  }

  lemma DecodeEncodeOne(a: byte)
    ensures Decode(Encode([a])) == [a]
  {
    GroupRoundTrip(a, 0, 0);
    var e := EncodeGroup(a, 0, 0);
    assert Sextets(a, 0, 0)[2] == 0 && Sextets(a, 0, 0)[3] == 0;
    assert e[2] == 'A' && e[3] == 'A';
    var t := e[..2] + "==";
    assert t[0] == e[0] && t[1] == e[1] && t[2] == '=';
  }

  lemma DecodeEncodeGroup(a: byte, b: byte, c: byte, tail: seq<byte>)
    requires Decode(Encode(tail)) == tail
    ensures Decode(Encode([a, b, c] + tail)) == [a, b, c] + tail
  {
    var s := [a, b, c] + tail;
    assert s[0] == a && s[1] == b && s[2] == c && s[3..] == tail;
    var e := EncodeGroup(a, b, c);
    assert Encode(s) == e + Encode(tail);
    GroupRoundTrip(a, b, c);
    DecodeFullGroup(e, Encode(tail));
  }

  lemma SplitGroup(s: seq<byte>)
    requires |s| >= 3
    ensures s == [s[0], s[1], s[2]] + s[3..]
  {
  }

  /** Decoding gives back the encoded bytes. */
  lemma {:induction false} DecodeEncode(s: seq<byte>)
    ensures Decode(Encode(s)) == s
  {
    if |s| >= 3 {
      SplitGroup(s);
      DecodeEncode(s[3..]);
      DecodeEncodeGroup(s[0], s[1], s[2], s[3..]);
    } else if |s| == 2 {
      DecodeEncodeTwo(s[0], s[1]);
      assert s == [s[0], s[1]];
    } else if |s| == 1 {
      DecodeEncodeOne(s[0]);
      assert s == [s[0]];
    }
  }

  /** Distinct byte strings have distinct encodings. */
  lemma EncodeInjective(a: seq<byte>, b: seq<byte>)
    ensures Encode(a) == Encode(b) <==> a == b
  {
    DecodeEncode(a);
    DecodeEncode(b);
  }
}
