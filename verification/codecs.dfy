/** Base64 (RFC 4648 section 4, and the URL-safe alphabet of section 5) is a
    library call in the source. The model takes a codec as a pair of
    functions and states, as a predicate, the laws the library guarantees. */
module Codecs {
  import opened Wrappers
  import opened Bytes
  import Utf8

  datatype TextCodec = TextCodec(encode: seq<byte> -> string, decode: string -> Option<seq<byte>>)

  /** The laws of `b64encode`/`b64decode` the model relies on: decoding undoes
      encoding, the non-validating decoder ignores a trailing newline, and
      the encoded text is ASCII. */
  ghost predicate IsBase64(c: TextCodec)
  {
    forall b: seq<byte> ::
      && c.decode(c.encode(b)) == Some(b)
      && c.decode(c.encode(b) + "\n") == Some(b)
      && Utf8.IsAscii(c.encode(b))
  }

  /** A lawful codec never maps two byte strings to the same text. */
  lemma EncodeInjective(c: TextCodec, a: seq<byte>, b: seq<byte>)
    requires IsBase64(c)
    ensures c.encode(a) == c.encode(b) <==> a == b
  {
    if c.encode(a) == c.encode(b) {
      assert c.decode(c.encode(a)) == Some(a);
      assert c.decode(c.encode(b)) == Some(b);
    }
  }
}
