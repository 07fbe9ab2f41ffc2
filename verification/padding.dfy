/** The trailing-count block padding of `encryption.py`: `n` copies of the
    value `n` are appended, `n` between 1 and the 16-byte AES block size
    (the scheme of section 6.3 of RFC 5652). `unpad` reads the last element
    as a count and drops that many elements without checking them. */
module Padding {
  import opened Wrappers
  import opened Bytes
  import Utf8

  const BlockSize: nat := 16

  /** How many elements `pad` appends to something of length `len`. */
  function PadCount(len: nat): (n: nat)
    ensures 1 <= n <= BlockSize
    ensures (len + n) % BlockSize == 0
  {
    BlockSize - len % BlockSize
  }

  /** `pad` applied to bytes: the padding the cipher actually needs, since
      AES works on the encoded bytes. */
  function Pad(b: seq<byte>): (r: seq<byte>)
    ensures |r| % BlockSize == 0
    ensures |b| < |r| <= |b| + BlockSize
    ensures r[..|b|] == b
    ensures forall i :: |b| <= i < |r| ==> r[i] == |r| - |b|
  {
    var n := PadCount(|b|);
    b + seq(n, _ => n)
  }

  /** `pad` as the source writes it: on the `str`, counting characters and
      appending `chr(n)`, before the text is UTF-8 encoded. */
  function PadText(s: string): (r: string)
    ensures |r| % BlockSize == 0
    ensures |s| < |r| <= |s| + BlockSize
    ensures r[..|s|] == s
    ensures forall i :: |s| <= i < |r| ==> r[i] as int == |r| - |s|
  {
    var n := PadCount(|s|);
    s + seq(n, _ => n as char)
  }

  datatype UnpadError = EmptyInput

  /** `unpad(s) = s[:-ord(s[len(s)-1:])]` on the decrypted bytes. Python's
      slicing makes a final 0 give the empty string (`s[:-0]` is `s[:0]`) and
      a count beyond the length give the empty string too; an empty input
      makes `ord(b'')` raise. */
  function Unpad(b: seq<byte>): (r: Result<seq<byte>, UnpadError>)
    ensures r.Err? <==> |b| == 0
    ensures r.Ok? ==> |r.value| < |b| && r.value == b[..|r.value|]
    ensures r.Ok? && 0 < b[|b| - 1] <= |b| ==> |r.value| == |b| - b[|b| - 1]
    ensures r.Ok? && (b[|b| - 1] == 0 || b[|b| - 1] > |b|) ==> r.value == []
  {
    if |b| == 0 then Err(EmptyInput)
    else
      var k := b[|b| - 1];
      if k == 0 || k > |b| then Ok([]) else Ok(b[..|b| - k])
  }

  /** Unpadding undoes padding for every byte string. */
  lemma UnpadPad(b: seq<byte>)
    ensures Unpad(Pad(b)) == Ok(b)
  {
    var p := Pad(b);
    assert p[|p| - 1] == |p| - |b|;
  }

  /** `unpad` never inspects the pad region: whatever the `k - 1` elements
      before a final count `k` hold, exactly `k` elements are dropped. */
  lemma UnpadIgnoresPadContents(body: seq<byte>, junk: seq<byte>)
    requires |junk| < 255
    ensures Unpad(body + junk + [|junk| + 1]) == Ok(body)
  {
    var b := body + junk + [|junk| + 1];
    assert b[..|b| - (|junk| + 1)] == body;
  }

  /** On ASCII text, padding the characters and then encoding agrees with
      encoding and then padding the bytes. */
  lemma PadTextAgreesOnAscii(s: string)
    requires Utf8.IsAscii(s)
    ensures Utf8.IsAscii(PadText(s))
    ensures Utf8.Encode(PadText(s)) == Pad(Utf8.Encode(s))
  {
    var t := PadText(s);
    Utf8.EncodeAscii(s);
    Utf8.EncodeAscii(t);
    var a := Utf8.Encode(t);
    var b := Pad(Utf8.Encode(s));
    assert |a| == |b|;
    forall i | 0 <= i < |a|
      ensures a[i] == b[i]
    {
      if i < |s| {
        assert t[i] == s[i];
      }
    }
  }

  /** The padded text of a message holding one two-byte character encodes to
      17 bytes: `pad` counted 1 character where there are 2 bytes, so the
      result is not a whole number of AES blocks. */
  lemma PadTextMisalignsNonAscii()
    ensures |Utf8.Encode(PadText("é"))| == 17
  {
    var pad := PadText("é")[1..];
    assert |pad| == 15 && PadText("é") == "é" + pad;
    assert Utf8.IsAscii(pad);
    Utf8.EncodeAppend("é", pad);
    Utf8.EncodeAscii(pad);
    assert |Utf8.Encode("é")| == 2;
  }
}
