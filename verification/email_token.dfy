/** The unsubscribe token of `encoding.py`: the address is XOR-ed with a
    cyclic key, code point by code point, then UTF-8 encoded and written in
    URL-safe base64 (RFC 4648 section 5). */
module EmailToken {
  import opened Wrappers
  import Utf8
  import Codecs

  /** A Python `str` element: any code point, lone surrogates included. */
  type CodePoint = n: int | 0 <= n < 0x110000

  /** Bitwise exclusive or of two naturals, bit by bit from the lowest. */
  function XorNat(a: nat, b: nat): nat
    decreases a + b
  {
    if a == 0 && b == 0 then 0 else 2 * XorNat(a / 2, b / 2) + (if a % 2 == b % 2 then 0 else 1)
  }

  function Pow2(k: nat): (r: nat)
    ensures r >= 1
  {
    if k == 0 then 1 else 2 * Pow2(k - 1)
  }

  lemma Pow2Of21()
    ensures Pow2(21) == 0x200000
  {
    assert Pow2(4) == 16;
    assert Pow2(8) == 256;
    assert Pow2(12) == 4096;
    assert Pow2(16) == 65536;
    assert Pow2(20) == 0x100000;
  }

  lemma {:induction false} XorNatZero(a: nat)
    ensures XorNat(a, 0) == a
    decreases a
  {
    if a > 0 {
      XorNatZero(a / 2);
    }
  }

  /** Two numbers of `k` bits have an exclusive or of `k` bits. */
  lemma {:induction false} XorNatBound(a: nat, b: nat, k: nat)
    requires a < Pow2(k) && b < Pow2(k)
    ensures XorNat(a, b) < Pow2(k)
    decreases k
  {
    if k > 0 && (a > 0 || b > 0) {
      XorNatBound(a / 2, b / 2, k - 1);
    }
  }

  /** Exclusive or with the same number undoes itself. */
  lemma {:induction false} XorNatInvolution(a: nat, b: nat)
    ensures XorNat(XorNat(a, b), b) == a
    decreases a + b
  {
    var x := XorNat(a, b);
    if a == 0 && b == 0 {
    } else {
      var q := XorNat(a / 2, b / 2);
      var bit := if a % 2 == b % 2 then 0 else 1;
      assert x == 2 * q + bit;
      HalfOfTwice(q, bit);
      XorNatInvolution(a / 2, b / 2);
      if x == 0 && b == 0 {
        XorNatZero(a / 2);
      } else {
        assert XorNat(x, b) == 2 * XorNat(q, b / 2) + (if bit == b % 2 then 0 else 1);
      }
    }
  }

  lemma HalfOfTwice(q: nat, bit: nat)
    requires bit < 2
    ensures (2 * q + bit) / 2 == q && (2 * q + bit) % 2 == bit
  {
  }

  /** `ord(a) ^ ord(b)`. Two code points fit in 21 bits, and so does their
      exclusive or, which may exceed U+10FFFF. */
  function XorCode(a: CodePoint, b: CodePoint): (r: nat)
    ensures r < 0x200000
  {
    assert Pow2(21) == 0x200000 by { Pow2Of21(); }
    XorNatBound(a, b, 21);
    XorNat(a, b)
  }

  lemma XorCodeInvolution(a: CodePoint, b: CodePoint)
    requires XorCode(a, b) < 0x110000
    ensures XorCode(XorCode(a, b) as CodePoint, b) == a
  {
    XorNatInvolution(a, b);
  }

  /** The code points of a Dafny string. */
  function Codes(s: string): (r: seq<CodePoint>)
    ensures |r| == |s|
  {
    seq(|s|, i requires 0 <= i < |s| => s[i] as int)
  }

  predicate IsSurrogate(n: CodePoint)
  {
    0xD800 <= n < 0xE000
  }

  /** The text of a code-point sequence without lone surrogates; None
      otherwise, where `str.encode` would raise `UnicodeEncodeError`. */
  function ToText(x: seq<CodePoint>): (r: Option<string>)
    ensures r.Some? <==> forall i :: 0 <= i < |x| ==> !IsSurrogate(x[i])
    ensures r.Some? ==> Codes(r.value) == x
  {
    if forall i :: 0 <= i < |x| ==> !IsSurrogate(x[i]) then
      var t := seq(|x|, i requires 0 <= i < |x| => x[i] as char);
      assert Codes(t) == x;
      Some(t)
    else None
  }

  lemma ToTextOfCodes(s: string)
    ensures ToText(Codes(s)) == Some(s)
  {
    var t := ToText(Codes(s)).value;
    assert forall i :: 0 <= i < |s| ==> t[i] as int == s[i] as int;
    assert t == s;
  }

  datatype TokenError =
    | EmptyKey          // `i % 0` raised ZeroDivisionError
    | OutOfRange        // `chr` of a value above U+10FFFF raised ValueError
    | LoneSurrogate     // `str.encode` raised UnicodeEncodeError
    | BadBase64         // `urlsafe_b64decode` raised binascii.Error
    | BadUtf8           // `bytes.decode` raised UnicodeDecodeError

  /** `xor_encrypt_decrypt(data, key)`: element `i` is XOR-ed with key
      element `i mod len(key)`, the key restarting at 0 on every call. An
      empty key fails as soon as there is data; empty data gives empty
      output. */
  function Xor(data: seq<CodePoint>, key: seq<CodePoint>): (r: Result<seq<CodePoint>, TokenError>)
    ensures |data| == 0 ==> r == Ok([])
    ensures r == Err(EmptyKey) <==> |key| == 0 && |data| > 0
    ensures r.Ok? ==> |r.value| == |data|
    ensures r.Ok? && |data| > 0 ==> forall i :: 0 <= i < |data| ==> r.value[i] == XorCode(data[i], key[i % |key|])
    ensures |key| > 0 ==> (r.Ok? <==> forall i :: 0 <= i < |data| ==> XorCode(data[i], key[i % |key|]) < 0x110000)
  {
    if |data| == 0 then Ok([])
    else if |key| == 0 then Err(EmptyKey)
    else if forall i :: 0 <= i < |data| ==> XorCode(data[i], key[i % |key|]) < 0x110000 then
      Ok(seq(|data|, i requires 0 <= i < |data| => XorCode(data[i], key[i % |key|]) as CodePoint))
    else Err(OutOfRange)
  }

  /** XOR with the same key is an involution: applying it to its own output
      gives the input back. */
  lemma XorInvolution(data: seq<CodePoint>, key: seq<CodePoint>)
    requires Xor(data, key).Ok?
    ensures Xor(Xor(data, key).value, key) == Ok(data)
  {
    var x := Xor(data, key).value;
    if |data| > 0 {
      forall i | 0 <= i < |x|
        ensures XorCode(x[i], key[i % |key|]) == data[i]
      {
        XorCodeInvolution(data[i], key[i % |key|]);
      }
      assert Xor(x, key).value == data;
    }
  }

  /** The key read from the environment file, and the base64 codec. */
  datatype TokenConfig = TokenConfig(key: string, b64: Codecs.TextCodec)

  /** `encode_email`: it yields a token exactly when the XOR succeeds and
      its output has no lone surrogate; an XOR failure is passed on, and a
      lone surrogate fails the UTF-8 encoding. */
  function EncodeEmail(cfg: TokenConfig, email: string): (r: Result<string, TokenError>)
    ensures r == Err(EmptyKey) <==> |cfg.key| == 0 && |email| > 0
    ensures var x := Xor(Codes(email), Codes(cfg.key));
      && (r.Ok? <==> x.Ok? && ToText(x.value).Some?)
      && (x.Err? ==> r == Err(x.error))
      && (x.Ok? && ToText(x.value).None? ==> r == Err(LoneSurrogate))
  {
    match Xor(Codes(email), Codes(cfg.key))
    case Err(e) => Err(e)
    case Ok(x) =>
      match ToText(x)
      case None => Err(LoneSurrogate)
      case Some(t) => Ok(cfg.b64.encode(Utf8.Encode(t)))
  }

  /** `decode_email`. The result is a Python `str`, which may hold lone
      surrogates, so it is given as code points. */
  function DecodeEmail(cfg: TokenConfig, token: string): (r: Result<seq<CodePoint>, TokenError>)
    ensures r == Err(BadBase64) <==> cfg.b64.decode(token).None?
    ensures r == Err(BadUtf8) <==> cfg.b64.decode(token).Some? && Utf8.Decode(cfg.b64.decode(token).value).None?
  {
    match cfg.b64.decode(token)
    case None => Err(BadBase64)
    case Some(b) =>
      match Utf8.Decode(b)
      case None => Err(BadUtf8)
      case Some(t) => Xor(Codes(t), Codes(cfg.key))
  }

  /** `decode_email(encode_email(e)) == e` whenever encoding succeeds. */
  lemma RoundTrip(cfg: TokenConfig, email: string)
    requires Codecs.IsBase64(cfg.b64)
    requires EncodeEmail(cfg, email).Ok?
    ensures DecodeEmail(cfg, EncodeEmail(cfg, email).value) == Ok(Codes(email))
  {
    var x := Xor(Codes(email), Codes(cfg.key)).value;
    var t := ToText(x).value;
    Utf8.DecodeEncode(t);
    assert cfg.b64.decode(cfg.b64.encode(Utf8.Encode(t))) == Some(Utf8.Encode(t));
    XorInvolution(Codes(email), Codes(cfg.key));
  }

  /** An ASCII address under a non-empty ASCII key always has a token: every
      exclusive or of two 7-bit codes is a 7-bit code, neither out of range
      nor a surrogate. */
  lemma AsciiAddressHasToken(cfg: TokenConfig, email: string)
    requires Utf8.IsAscii(email) && Utf8.IsAscii(cfg.key) && |cfg.key| > 0
    ensures EncodeEmail(cfg, email).Ok?
  {
    var data, key := Codes(email), Codes(cfg.key);
    assert Pow2(7) == 0x80;
    forall i | 0 <= i < |data|
      ensures XorCode(data[i], key[i % |key|]) < 0x80
    {
      XorNatBound(data[i], key[i % |key|], 7);
    }
    var x := Xor(data, key);
    assert x.Ok?;
    assert forall i :: 0 <= i < |x.value| ==> !IsSurrogate(x.value[i]);
  }

  /** The token is ASCII text, fit for a URL path. */
  lemma TokenIsAscii(cfg: TokenConfig, email: string)
    requires Codecs.IsBase64(cfg.b64)
    requires EncodeEmail(cfg, email).Ok?
    ensures Utf8.IsAscii(EncodeEmail(cfg, email).value)
  {
    var t := ToText(Xor(Codes(email), Codes(cfg.key)).value).value;
    assert Utf8.IsAscii(cfg.b64.encode(Utf8.Encode(t)));
  }
}
