/** Strict UTF-8, as Python's `str.encode("utf-8")` and `bytes.decode("utf-8")`
    perform it. A Dafny `char` is a Unicode scalar value, so every string
    encodes; decoding refuses truncated sequences, stray continuation bytes,
    overlong forms, surrogates and values above U+10FFFF. */
module Utf8 {
  import opened Wrappers
  import opened Bytes

  /** Plain ASCII: every character below U+0080. */
  predicate IsAscii(s: string)
  {
    forall i :: 0 <= i < |s| ==> s[i] as int < 0x80
  }

  /** The one-to-four byte encoding of a single scalar value. */
  function EncodeChar(c: char): (r: seq<byte>)
    ensures 1 <= |r| <= 4
    ensures |r| == 1 <==> c as int < 0x80
  {
    var n := c as int;
    if n < 0x80 then [n]
    else if n < 0x800 then [0xC0 + n / 64, 0x80 + n % 64]
    else if n < 0x10000 then [0xE0 + n / 4096, 0x80 + (n / 64) % 64, 0x80 + n % 64]
    else [0xF0 + n / 262144, 0x80 + (n / 4096) % 64, 0x80 + (n / 64) % 64, 0x80 + n % 64]
  }

  function Encode(s: string): (r: seq<byte>)
    ensures |r| >= |s|
  {
    if |s| == 0 then [] else EncodeChar(s[0]) + Encode(s[1..])
  }

  predicate IsContinuation(b: byte)
  {
    0x80 <= b < 0xC0
  }

  /** Reads the first scalar value of `b`: the character and how many bytes
      it took, or None when `b` does not start with a well-formed sequence. */
  function DecodeFirst(b: seq<byte>): (r: Option<(char, nat)>)
    ensures r.Some? ==> 1 <= r.value.1 <= |b|
  {
    if |b| == 0 then None
    else if b[0] < 0x80 then Some((b[0] as char, 1))
    else if 0xC2 <= b[0] < 0xE0 then
      if |b| >= 2 && IsContinuation(b[1]) then
        Some((((b[0] as int - 0xC0) * 64 + (b[1] as int - 0x80)) as char, 2))
      else None
    else if 0xE0 <= b[0] < 0xF0 then
      if |b| >= 3 && IsContinuation(b[1]) && IsContinuation(b[2]) then
        var n := (b[0] as int - 0xE0) * 4096 + (b[1] as int - 0x80) * 64 + (b[2] as int - 0x80);
        if n < 0x800 || (0xD800 <= n < 0xE000) then None else Some((n as char, 3))
      else None
    else if 0xF0 <= b[0] < 0xF5 then
      if |b| >= 4 && IsContinuation(b[1]) && IsContinuation(b[2]) && IsContinuation(b[3]) then
        var n := (b[0] as int - 0xF0) * 262144 + (b[1] as int - 0x80) * 4096 + (b[2] as int - 0x80) * 64 + (b[3] as int - 0x80);
        if n < 0x10000 || n >= 0x110000 then None else Some((n as char, 4))
      else None
    else None
  }

  function Decode(b: seq<byte>): (r: Option<string>)
    decreases |b|
  {
    if |b| == 0 then Some([])
    else match DecodeFirst(b)
      case None => None
      case Some((c, k)) =>
        match Decode(b[k..])
        case None => None
        case Some(rest) => Some([c] + rest)
  }

  /** The decoder reads back exactly the character the encoder wrote, and
      consumes exactly its bytes, whatever follows. */
  lemma DecodeFirstOfEncodeChar(c: char, rest: seq<byte>)
    ensures DecodeFirst(EncodeChar(c) + rest) == Some((c, |EncodeChar(c)|))
  {
    var n := c as int;
    if n < 0x80 {
    } else if n < 0x800 {
      DecodeTwo(c, rest);
    } else if n < 0x10000 {
      DecodeThree(c, rest);
    } else {
      DecodeFour(c, rest);
    }
  }

  lemma DecodeTwo(c: char, rest: seq<byte>)
    requires 0x80 <= c as int < 0x800
    ensures DecodeFirst(EncodeChar(c) + rest) == Some((c, 2))
  {
    var n := c as int;
    var e := EncodeChar(c) + rest;
    assert e[0] == 0xC0 + n / 64 && e[1] == 0x80 + n % 64;
    assert (e[0] as int - 0xC0) * 64 + (e[1] as int - 0x80) == n;
  }

  lemma DecodeThree(c: char, rest: seq<byte>)
    requires 0x800 <= c as int < 0x10000
    ensures DecodeFirst(EncodeChar(c) + rest) == Some((c, 3))
  {
    var n := c as int;
    var e := EncodeChar(c) + rest;
    var q := n / 64;
    assert e[0] == 0xE0 + q / 64 by { Div64Twice(n); }
    assert e[1] == 0x80 + q % 64 && e[2] == 0x80 + n % 64;
    assert (q / 64) * 64 + q % 64 == q;
    assert q * 64 + n % 64 == n;
    assert (e[0] as int - 0xE0) * 4096 + (e[1] as int - 0x80) * 64 + (e[2] as int - 0x80) == n;
  }

  lemma DecodeFour(c: char, rest: seq<byte>)
    requires 0x10000 <= c as int
    ensures DecodeFirst(EncodeChar(c) + rest) == Some((c, 4))
  {
    var n := c as int;
    var e := EncodeChar(c) + rest;
    var q := n / 64;
    var p := q / 64;
    assert n / 4096 == p by { Div64Twice(n); }
    assert n / 262144 == p / 64 by { Div4096Then64(n); }
    assert e[0] == 0xF0 + p / 64 && e[1] == 0x80 + p % 64;
    assert e[2] == 0x80 + q % 64 && e[3] == 0x80 + n % 64;
    assert (p / 64) * 64 + p % 64 == p;
    assert p * 64 + q % 64 == q;
    assert q * 64 + n % 64 == n;
    assert (e[0] as int - 0xF0) * 262144 + (e[1] as int - 0x80) * 4096 + (e[2] as int - 0x80) * 64 + (e[3] as int - 0x80) == n;
  }

  lemma Div64Twice(n: nat)
    ensures n / 64 / 64 == n / 4096
  {
    var q := n / 64;
    assert n == 4096 * (q / 64) + (64 * (q % 64) + n % 64);
  }

  lemma Div4096Then64(n: nat)
    ensures n / 4096 / 64 == n / 262144
  {
    var q := n / 4096;
    assert n == 262144 * (q / 64) + (4096 * (q % 64) + n % 4096);
  }

  /** Decoding undoes encoding: `s.encode("utf-8").decode("utf-8") == s`. */
  lemma {:induction false} DecodeEncode(s: string)
    ensures Decode(Encode(s)) == Some(s)
  {
    if |s| > 0 {
      var e := Encode(s);
      var k := |EncodeChar(s[0])|;
      DecodeFirstOfEncodeChar(s[0], Encode(s[1..]));
      assert e[k..] == Encode(s[1..]);
      DecodeEncode(s[1..]);
      assert [s[0]] + s[1..] == s;
    }
  }

  /** Encoding is character by character: the encoding of a concatenation
      is the concatenation of the encodings. */
  lemma {:induction false} EncodeAppend(s: string, t: string)
    ensures Encode(s + t) == Encode(s) + Encode(t)
  {
    if |s| == 0 {
      assert s + t == t;
    } else {
      assert (s + t)[0] == s[0] && (s + t)[1..] == s[1..] + t;
      EncodeAppend(s[1..], t);
      var a, b, c := EncodeChar(s[0]), Encode(s[1..]), Encode(t);
      assert Encode(s + t) == a + (b + c);
      assert Encode(s) == a + b;
      assert a + (b + c) == (a + b) + c;
    }
  }

  /** On ASCII text the encoding is one byte per character, holding the
      character's code. */
  lemma {:induction false} EncodeAscii(s: string)
    requires IsAscii(s)
    ensures |Encode(s)| == |s|
    ensures forall i :: 0 <= i < |s| ==> Encode(s)[i] == s[i] as int
  {
    if |s| > 0 {
      EncodeAscii(s[1..]);
    }
  }
}
