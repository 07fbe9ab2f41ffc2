/** The `Cipher` of `encryption.py`: AES-CBC under a shared key, an envelope
    `timestamp(8, little-endian) || iv(8 random bytes) || ciphertext` carried
    as base64 text, a two-sided freshness window and a cache of seen
    `(timestamp, iv)` pairs pruned by age before every lookup.

    AES and base64 are library calls; they enter as the function pairs of a
    `Config` and are constrained only by the laws of `Valid`. The clock and
    the random source enter as a `Stamp`. */
module Cipher {
  import opened Wrappers
  import opened Bytes
  import Clock
  import Utf8
  import Codecs
  import Padding

  /** AES in CBC mode (section 6.2 of NIST SP 800-38A) as a pair of functions
      of (key bytes, 16-byte IV, data). */
  datatype BlockCipher = BlockCipher(
    encrypt: (seq<byte>, seq<byte>, seq<byte>) -> seq<byte>,
    decrypt: (seq<byte>, seq<byte>, seq<byte>) -> seq<byte>)

  /** On block-aligned data CBC keeps lengths and decryption undoes
      encryption under the same key and IV. */
  ghost predicate IsCbc(aes: BlockCipher)
  {
    && (forall key: seq<byte>, iv: seq<byte>, p: seq<byte> | |p| % Padding.BlockSize == 0 ::
          |aes.encrypt(key, iv, p)| == |p| && aes.decrypt(key, iv, aes.encrypt(key, iv, p)) == p)
    && (forall key: seq<byte>, iv: seq<byte>, c: seq<byte> | |c| % Padding.BlockSize == 0 ::
          |aes.decrypt(key, iv, c)| == |c|)
  }

  /** `nonce_expiration_seconds` when the constructor is not given one. */
  const DefaultExpiration: int := 30

  /** Length of the random part of the IV: `AES.block_size - 8`. */
  const RandomIvLength: nat := 8

  /** What a `Cipher` is built from: the key string read from the key file,
      the replay window, and the two library codecs. */
  datatype Config = Config(key: string, expiration: int, aes: BlockCipher, b64: Codecs.TextCodec)

  ghost predicate Valid(cfg: Config)
  {
    IsCbc(cfg.aes) && Codecs.IsBase64(cfg.b64)
  }

  /** AES accepts 128, 192 and 256-bit keys. */
  predicate ValidKeyLength(n: nat)
  {
    n == 16 || n == 24 || n == 32
  }

  /** A replay-cache entry: the raw timestamp bytes and random bytes of an
      envelope. */
  datatype Nonce = Nonce(stamp: seq<byte>, iv: seq<byte>)

  /** The mutable part of a `Cipher`: its `nonce_set`. */
  datatype State = State(nonces: set<Nonce>)

  /** The cache as the constructor leaves it. */
  const Fresh: State := State({})

  /** What one `encrypt_message` call reads from the outside world: the clock
      and the 8 random bytes. */
  datatype Stamp = Stamp(now: real, iv: seq<byte>)

  datatype CipherError =
    | TimestampOverflow   // int(time.time()).to_bytes(8, ...) overflows
    | BadKeyLength        // AES.new rejects the key
    | BadIvLength         // AES.new rejects an IV that is not 16 bytes
    | NotBlockAligned     // CBC input is not a whole number of blocks
    | BadBase64           // b64decode rejects the text
    | ExpiredTimestamp
    | ReplayDetected
    | EmptyPlaintext      // unpad of an empty plaintext raises
    | BadUtf8             // the unpadded plaintext is not UTF-8

  // ---------------------------------------------------------------- encrypt

  function KeyBytes(cfg: Config): seq<byte>
  {
    Utf8.Encode(cfg.key)
  }

  /** The 8-byte little-endian timestamp of an envelope made at `now`, or None
      when `int(now)` does not fit in 8 unsigned bytes. */
  function StampBytes(now: real): (r: Option<seq<byte>>)
    ensures r.Some? ==> |r.value| == 8 && FromLE(r.value) == Clock.Trunc(now)
    ensures r.None? <==> Clock.Trunc(now) < 0 || Clock.Trunc(now) >= Pow256(8)
  {
    var t := Clock.Trunc(now);
    if t < 0 || t >= Pow256(8) then None else Some(ToLE(t, 8))
  }

  /** The common tail of `encrypt_message`: build the IV `timestamp || iv`,
      run AES-CBC over already padded bytes and base64 the envelope. */
  function Seal(cfg: Config, stamp: Stamp, data: seq<byte>): (r: Result<string, CipherError>)
    requires |stamp.iv| == RandomIvLength
    ensures r.Ok? <==> StampBytes(stamp.now).Some? && ValidKeyLength(|KeyBytes(cfg)|) && |data| % Padding.BlockSize == 0
    ensures r.Ok? ==> r.value == cfg.b64.encode(Envelope(cfg, stamp, data))
  {
    match StampBytes(stamp.now)
    case None => Err(TimestampOverflow)
    case Some(ts) =>
      if !ValidKeyLength(|KeyBytes(cfg)|) then Err(BadKeyLength)
      else if |data| % Padding.BlockSize != 0 then Err(NotBlockAligned)
      else Ok(cfg.b64.encode(Envelope(cfg, stamp, data)))
  }

  /** The envelope bytes before base64: header, then ciphertext under the
      header as IV. */
  function Envelope(cfg: Config, stamp: Stamp, data: seq<byte>): (r: seq<byte>)
    requires |stamp.iv| == RandomIvLength
    requires StampBytes(stamp.now).Some?
  {
    var header := StampBytes(stamp.now).value + stamp.iv;
    header + cfg.aes.encrypt(KeyBytes(cfg), header, data)
  }

  /** `encrypt_message` with the padding applied to the UTF-8 bytes, which is
      what the block cipher needs. Only the clock and the key can make it
      fail: every message is padded to whole blocks. */
  function Encrypt(cfg: Config, stamp: Stamp, message: string): (r: Result<string, CipherError>)
    requires |stamp.iv| == RandomIvLength
    ensures r.Ok? <==> StampBytes(stamp.now).Some? && ValidKeyLength(|KeyBytes(cfg)|)
    ensures r.Err? ==> r.error == TimestampOverflow || r.error == BadKeyLength
  {
    Seal(cfg, stamp, Padding.Pad(Utf8.Encode(message)))
  }

  /** `encrypt_message` exactly as written: `pad` counts characters of the
      `str`, and only then is the text encoded. */
  function EncryptAsWritten(cfg: Config, stamp: Stamp, message: string): (r: Result<string, CipherError>)
    requires |stamp.iv| == RandomIvLength
    ensures r.Ok? ==> |Utf8.Encode(Padding.PadText(message))| % Padding.BlockSize == 0
  {
    Seal(cfg, stamp, Utf8.Encode(Padding.PadText(message)))
  }

  /** For ASCII messages the written padding and the byte padding coincide. */
  lemma EncryptAsWrittenAgreesOnAscii(cfg: Config, stamp: Stamp, message: string)
    requires |stamp.iv| == RandomIvLength
    requires Utf8.IsAscii(message)
    ensures EncryptAsWritten(cfg, stamp, message) == Encrypt(cfg, stamp, message)
  {
    Padding.PadTextAgreesOnAscii(message);
  }

  /** A message with a single two-byte character cannot be sent as written:
      the padded text encodes to 17 bytes and CBC refuses it, although
      `Encrypt` accepts the same message under the same clock and key. */
  lemma EncryptAsWrittenRejectsNonAscii(cfg: Config, stamp: Stamp)
    requires |stamp.iv| == RandomIvLength
    requires StampBytes(stamp.now).Some? && ValidKeyLength(|KeyBytes(cfg)|)
    ensures EncryptAsWritten(cfg, stamp, "é") == Err(NotBlockAligned)
    ensures Encrypt(cfg, stamp, "é").Ok?
  {
    Padding.PadTextMisalignsNonAscii();
  }

  // ---------------------------------------------------------------- decrypt

  /** The timestamp lies outside `[now - expiration, now + expiration]`. */
  predicate OutsideWindow(cfg: Config, ts: int, now: real)
  {
    (ts as real) < now - cfg.expiration as real || (ts as real) > now + cfg.expiration as real
  }

  /** An entry is stale once its timestamp is older than `now - expiration`. */
  predicate Stale(cfg: Config, n: Nonce, now: real)
  {
    (FromLE(n.stamp) as real) < now - cfg.expiration as real
  }

  /** `cleanup_expired_nonces`: drop exactly the stale entries. */
  function Prune(cfg: Config, st: State, now: real): (r: State)
    ensures r.nonces <= st.nonces
    ensures forall n :: n in st.nonces ==> (n in r.nonces <==> !Stale(cfg, n, now))
  {
    State(set n | n in st.nonces && !Stale(cfg, n, now))
  }

  /** `is_nonce_used`: prune, then look the entry up. */
  function IsNonceUsed(cfg: Config, st: State, now: real, n: Nonce): (r: (bool, State))
    ensures r.1 == Prune(cfg, st, now)
    ensures r.0 <==> n in st.nonces && !Stale(cfg, n, now)
  {
    var kept := Prune(cfg, st, now);
    (n in kept.nonces, kept)
  }

  /** The cache entry an envelope text stands for: its first 8 and next 8
      decoded bytes (Python slicing, so a short envelope gives short parts). */
  function EnvelopeNonce(cfg: Config, text: string): Option<Nonce>
  {
    match cfg.b64.decode(text)
    case None => None
    case Some(raw) => Some(Nonce(Slice(raw, 0, 8), Slice(raw, 8, 16)))
  }

  /** The result got past the freshness window and the replay check. */
  predicate PassedGuard(r: Result<string, CipherError>)
  {
    r.Ok? || (r.error != BadBase64 && r.error != ExpiredTimestamp && r.error != ReplayDetected)
  }

  /** The AES, unpad and UTF-8 steps, which run after the nonce is recorded. */
  function Open(cfg: Config, iv: seq<byte>, body: seq<byte>): (r: Result<string, CipherError>)
    ensures PassedGuard(r)
  {
    var key := KeyBytes(cfg);
    if !ValidKeyLength(|key|) then Err(BadKeyLength)
    else if |iv| != 16 then Err(BadIvLength)
    else if |body| % Padding.BlockSize != 0 then Err(NotBlockAligned)
    else
      match Padding.Unpad(cfg.aes.decrypt(key, iv, body))
      case Err(_) => Err(EmptyPlaintext)
      case Ok(p) =>
        match Utf8.Decode(p)
        case None => Err(BadUtf8)
        case Some(m) => Ok(m)
  }

  /** `decrypt_message`: base64-decode, split the header, reject a timestamp
      outside the window (cache untouched), prune and reject a seen entry,
      record the entry and only then decrypt, unpad and decode. */
  function Decrypt(cfg: Config, st: State, now: real, text: string): (r: (Result<string, CipherError>, State))
    ensures r.0 == Err(BadBase64) <==> EnvelopeNonce(cfg, text).None?
    ensures EnvelopeNonce(cfg, text).Some? && OutsideWindow(cfg, FromLE(EnvelopeNonce(cfg, text).value.stamp), now)
      ==> r == (Err(ExpiredTimestamp), st)
    ensures r.0 == Err(ExpiredTimestamp) <==>
      EnvelopeNonce(cfg, text).Some? && OutsideWindow(cfg, FromLE(EnvelopeNonce(cfg, text).value.stamp), now)
    ensures (&& EnvelopeNonce(cfg, text).Some?
             && !OutsideWindow(cfg, FromLE(EnvelopeNonce(cfg, text).value.stamp), now)
             && EnvelopeNonce(cfg, text).value in Prune(cfg, st, now).nonces)
      ==> r == (Err(ReplayDetected), Prune(cfg, st, now))
    ensures r.0 == Err(ReplayDetected) ==> EnvelopeNonce(cfg, text).value in st.nonces && r.1 == Prune(cfg, st, now)
    ensures PassedGuard(r.0) ==>
      && EnvelopeNonce(cfg, text).Some?
      && !OutsideWindow(cfg, FromLE(EnvelopeNonce(cfg, text).value.stamp), now)
      && EnvelopeNonce(cfg, text).value !in st.nonces
      && r.1.nonces == Prune(cfg, st, now).nonces + {EnvelopeNonce(cfg, text).value}
    ensures PassedGuard(r.0) ==> forall n :: n in r.1.nonces ==> !Stale(cfg, n, now)
  {
    match cfg.b64.decode(text)
    case None => (Err(BadBase64), st)
    case Some(raw) =>
      var nonce := Nonce(Slice(raw, 0, 8), Slice(raw, 8, 16));
      if OutsideWindow(cfg, FromLE(nonce.stamp), now) then (Err(ExpiredTimestamp), st)
      else
        var (used, kept) := IsNonceUsed(cfg, st, now, nonce);
        if used then (Err(ReplayDetected), kept)
        else (Open(cfg, nonce.stamp + nonce.iv, Drop(raw, 16)), State(kept.nonces + {nonce}))
  }

  // ----------------------------------------------------------- properties

  /** The envelope layout: the base64 text decodes to the 8-byte
      little-endian timestamp, the 8 random bytes and a whole number of
      cipher blocks, and the decoder's split at offsets 8 and 16 recovers
      the timestamp and the random bytes. */
  lemma EnvelopeLayout(cfg: Config, stamp: Stamp, message: string)
    requires Valid(cfg) && |stamp.iv| == RandomIvLength
    requires Encrypt(cfg, stamp, message).Ok?
    ensures var raw := cfg.b64.decode(Encrypt(cfg, stamp, message).value);
      && raw.Some?
      && |raw.value| >= 32 && |raw.value| % Padding.BlockSize == 0
      && FromLE(raw.value[..8]) == Clock.Trunc(stamp.now)
      && raw.value[8..16] == stamp.iv
      && EnvelopeNonce(cfg, Encrypt(cfg, stamp, message).value) == Some(Nonce(raw.value[..8], stamp.iv))
  {
    var data := Padding.Pad(Utf8.Encode(message));
    var env := Envelope(cfg, stamp, data);
    var header := StampBytes(stamp.now).value + stamp.iv;
    assert cfg.b64.decode(cfg.b64.encode(env)) == Some(env);
    assert env[..8] == StampBytes(stamp.now).value;
    assert env[8..16] == stamp.iv;
  }

  /** Decrypting a fresh envelope inside the window gives the message back,
      also when it arrives with the trailing newline the server leaves on. */
  lemma RoundTrip(cfg: Config, stamp: Stamp, message: string, st: State, now: real)
    requires Valid(cfg) && |stamp.iv| == RandomIvLength
    requires Encrypt(cfg, stamp, message).Ok?
    requires !OutsideWindow(cfg, Clock.Trunc(stamp.now), now)
    requires Nonce(StampBytes(stamp.now).value, stamp.iv) !in st.nonces
    ensures Decrypt(cfg, st, now, Encrypt(cfg, stamp, message).value).0 == Ok(message)
    ensures Decrypt(cfg, st, now, Encrypt(cfg, stamp, message).value + "\n").0 == Ok(message)
  {
    var data := Padding.Pad(Utf8.Encode(message));
    var env := Envelope(cfg, stamp, data);
    var header := StampBytes(stamp.now).value + stamp.iv;
    var key := KeyBytes(cfg);
    var ct := cfg.aes.encrypt(key, header, data);
    assert env == header + ct;
    assert Slice(env, 0, 8) + Slice(env, 8, 16) == header;
    assert Drop(env, 16) == ct;
    assert cfg.aes.decrypt(key, header, ct) == data;
    Padding.UnpadPad(Utf8.Encode(message));
    Utf8.DecodeEncode(message);
    assert Open(cfg, header, ct) == Ok(message);
    assert cfg.b64.decode(cfg.b64.encode(env)) == Some(env);
    assert cfg.b64.decode(cfg.b64.encode(env) + "\n") == Some(env);
  }

  /** Replaying a text whose first decryption got past the guards is
      rejected as a replay as long as its timestamp is still inside the
      window, whatever became of the first decryption. */
  lemma ReplayRejected(cfg: Config, st: State, now1: real, now2: real, text: string)
    requires PassedGuard(Decrypt(cfg, st, now1, text).0)
    requires !OutsideWindow(cfg, FromLE(EnvelopeNonce(cfg, text).value.stamp), now2)
    ensures Decrypt(cfg, Decrypt(cfg, st, now1, text).1, now2, text).0 == Err(ReplayDetected)
  {
    var n := EnvelopeNonce(cfg, text).value;
    assert n in Decrypt(cfg, st, now1, text).1.nonces;
    assert !Stale(cfg, n, now2);
  }

  /** Pruning at a later time subsumes pruning at an earlier one. */
  lemma PruneLater(cfg: Config, st: State, t1: real, t2: real)
    requires t1 <= t2
    ensures Prune(cfg, Prune(cfg, st, t1), t2) == Prune(cfg, st, t2)
  {
    assert Prune(cfg, Prune(cfg, st, t1), t2).nonces == Prune(cfg, st, t2).nonces;
  }

  /** Two encryptions that differ only in their random bytes never produce
      the same envelope. */
  lemma DistinctIvsDistinctEnvelopes(cfg: Config, s1: Stamp, s2: Stamp, message: string)
    requires Valid(cfg) && |s1.iv| == RandomIvLength && |s2.iv| == RandomIvLength
    requires s1.now == s2.now && s1.iv != s2.iv
    requires Encrypt(cfg, s1, message).Ok?
    ensures Encrypt(cfg, s2, message).Ok?
    ensures Encrypt(cfg, s1, message) != Encrypt(cfg, s2, message)
  {
    var data := Padding.Pad(Utf8.Encode(message));
    var e1 := Envelope(cfg, s1, data);
    var e2 := Envelope(cfg, s2, data);
    assert e1[8..16] == s1.iv && e2[8..16] == s2.iv;
    Codecs.EncodeInjective(cfg.b64, e1, e2);
  }
}
