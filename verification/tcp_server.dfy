/** The connection handler and broadcaster of `tcp_server.py`, one sequential
    step at a time. The shared client registry is a set of connection ids,
    the three queues are sequences, and everything a handler reads from the
    outside world (the next `recv`, the clock, random bytes, whether the
    peer still accepts data, what the control loop pushes while the handler
    polls) is an explicit argument. */
module TcpServer {
  import opened Wrappers
  import opened Bytes
  import Utf8
  import Cipher
  import Clock
  import Padding

  /** Stands for the socket object `self.request`. */
  type ConnId = nat

  /** The server attributes a handler consults. `hasCipher` is
      `hasattr(self.server, 'cipher')`. */
  datatype Config = Config(hasCipher: bool, cipher: Cipher.Config, fullEncryption: bool, runTasks: bool)

  /** State shared between handlers: `connected_clients`, the command and
      acknowledgement queues, and the server cipher's replay cache. */
  datatype Server = Server(registry: set<ConnId>, cmdQueue: seq<string>, ackQueue: seq<string>, nonces: Cipher.State)

  /** What one `recv(1024)` produces. */
  datatype Incoming = Chunk(bytes: seq<byte>) | RecvTimeout | RecvReset

  datatype Fault = Timeout | Reset | NotAscii | BrokenPipe | Crypto(error: Cipher.CipherError)

  /** What `receive()` returns: None, a decrypted text, or an exception. */
  datatype Received = Nothing | Message(text: string) | Raised(fault: Fault)

  /** What goes out on the socket: plain text, or base64 envelope text. */
  datatype Wire = Plain(text: string) | Sealed(payload: string)

  const AuthSuccessful := "[ACK] authentication successful\n"
  const InvalidToken := "[ERR] invalid token\n"
  const LoginTimeout := "[ERR] timeout for login attempt\n"
  const NotAcknowledged := "[ERR] command not acknowledged\n"

  /** Seconds a handler waits for an acknowledgement. */
  const AckTimeout: real := 10.0

  /** `str(data, 'ascii')`: fails on any byte above 127. */
  function AsciiText(b: seq<byte>): (r: Option<string>)
    ensures r.Some? <==> forall i :: 0 <= i < |b| ==> b[i] < 0x80
    ensures r.Some? ==> |r.value| == |b| && forall i :: 0 <= i < |b| ==> r.value[i] as int == b[i]
  {
    if |b| == 0 then Some("")
    else if b[0] >= 0x80 then None
    else match AsciiText(b[1..])
      case None => None
      case Some(rest) => Some([b[0] as char] + rest)
  }

  /** The text `receive` hands to the decrypter: a non-empty ASCII read, on a
      server with a cipher, whose last character is a newline. The newline
      is NOT removed (the result of `replace` is discarded). */
  function Framed(cfg: Config, incoming: Incoming): (r: Option<string>)
    ensures r.Some? <==>
      && cfg.hasCipher && incoming.Chunk? && |incoming.bytes| > 0
      && (forall i :: 0 <= i < |incoming.bytes| ==> incoming.bytes[i] < 0x80)
      && incoming.bytes[|incoming.bytes| - 1] == 10
    ensures r.Some? ==> |r.value| == |incoming.bytes| && forall i :: 0 <= i < |r.value| ==> r.value[i] as int == incoming.bytes[i]
    ensures r.Some? ==> |r.value| > 0 && r.value[|r.value| - 1] == '\n'
  {
    if !incoming.Chunk? then None
    else match AsciiText(incoming.bytes)
      case None => None
      case Some(raw) => if |raw| > 0 && cfg.hasCipher && raw[|raw| - 1] == '\n' then Some(raw) else None
  }

  /** `receive`: a value only for a framed read that decrypts; None for an
      empty, unframed read or a server without cipher; decryption errors and
      socket errors escape as exceptions. */
  function Receive(cfg: Config, nonces: Cipher.State, now: real, incoming: Incoming): (r: (Received, Cipher.State))
    ensures r.0.Message? <==> Framed(cfg, incoming).Some? && Cipher.Decrypt(cfg.cipher, nonces, now, Framed(cfg, incoming).value).0.Ok?
    ensures r.0.Message? ==> r.0.text == Cipher.Decrypt(cfg.cipher, nonces, now, Framed(cfg, incoming).value).0.value
    ensures r.0 == Nothing <==> incoming.Chunk? && AsciiText(incoming.bytes).Some? && Framed(cfg, incoming).None?
    ensures Framed(cfg, incoming).None? ==> r.1 == nonces
    ensures incoming == RecvTimeout ==> r == (Raised(Timeout), nonces)
    ensures incoming == RecvReset ==> r == (Raised(Reset), nonces)
    ensures incoming.Chunk? && AsciiText(incoming.bytes).None? ==> r == (Raised(NotAscii), nonces)
    ensures Framed(cfg, incoming).Some? ==>
      var d := Cipher.Decrypt(cfg.cipher, nonces, now, Framed(cfg, incoming).value);
      && r.1 == d.1
      && (d.0.Err? ==> r.0 == Raised(Crypto(d.0.error)))
  {
    match incoming
    case RecvTimeout => (Raised(Timeout), nonces)
    case RecvReset => (Raised(Reset), nonces)
    case Chunk(b) =>
      if AsciiText(b).None? then (Raised(NotAscii), nonces)
      else match Framed(cfg, incoming)
        case None => (Nothing, nonces)
        case Some(raw) =>
          var (res, nonces') := Cipher.Decrypt(cfg.cipher, nonces, now, raw);
          if res.Ok? then (Message(res.value), nonces') else (Raised(Crypto(res.error)), nonces')
  }

  /** `send`: encrypts and sends a non-empty text when the server has a
      cipher, and otherwise sends nothing. No newline is added. */
  function Send(cfg: Config, stamp: Cipher.Stamp, raw: string): (r: Result<seq<Wire>, Fault>)
    requires |stamp.iv| == Cipher.RandomIvLength
    ensures r.Ok? && |r.value| > 0 ==>
      |raw| > 0 && cfg.hasCipher && Cipher.Encrypt(cfg.cipher, stamp, raw).Ok?
      && r.value == [Sealed(Cipher.Encrypt(cfg.cipher, stamp, raw).value)]
    ensures r.Ok? ==> |r.value| <= 1
    ensures |raw| == 0 || !cfg.hasCipher ==> r == Ok([])
    ensures |raw| > 0 && cfg.hasCipher ==>
      && (r.Ok? <==> Cipher.Encrypt(cfg.cipher, stamp, raw).Ok?)
      && (r.Ok? ==> |r.value| == 1)
      && (r.Err? ==> r.error == Crypto(Cipher.Encrypt(cfg.cipher, stamp, raw).error))
  {
    if |raw| > 0 && cfg.hasCipher then
      match Cipher.Encrypt(cfg.cipher, stamp, raw)
      case Ok(env) => Ok([Sealed(env)])
      case Err(e) => Err(Crypto(e))
    else Ok([])
  }

  /** What `send` puts on the wire is read back by a peer holding the same
      key: the one envelope decrypts to the text inside the window. */
  lemma SentTextDecrypts(cfg: Config, stamp: Cipher.Stamp, raw: string, st: Cipher.State, now: real)
    requires Cipher.Valid(cfg.cipher) && cfg.hasCipher && |raw| > 0 && |stamp.iv| == Cipher.RandomIvLength
    requires Cipher.Encrypt(cfg.cipher, stamp, raw).Ok?
    requires !Cipher.OutsideWindow(cfg.cipher, Clock.Trunc(stamp.now), now)
    requires Cipher.Nonce(Cipher.StampBytes(stamp.now).value, stamp.iv) !in st.nonces
    ensures var r := Send(cfg, stamp, raw);
      && r.Ok? && |r.value| == 1 && r.value[0].Sealed?
      && Cipher.Decrypt(cfg.cipher, st, now, r.value[0].payload).0 == Ok(raw)
  {
    Cipher.RoundTrip(cfg.cipher, stamp, raw, st, now);
  }

  /** A reply that honours `full_encryption`: through `send`, or as plain
      UTF-8 text. */
  function Reply(cfg: Config, stamp: Cipher.Stamp, text: string): (r: Result<seq<Wire>, Fault>)
    requires |stamp.iv| == Cipher.RandomIvLength
    ensures !cfg.fullEncryption ==> r == Ok([Plain(text)])
    ensures cfg.fullEncryption ==> r == Send(cfg, stamp, text)
    ensures r.Ok? ==> |r.value| <= 1
  {
    if cfg.fullEncryption then Send(cfg, stamp, text) else Ok([Plain(text)])
  }

  /** `sendall` on a socket whose peer has gone raises BrokenPipeError. */
  function Transmit(peerOpen: bool, w: seq<Wire>): (r: Result<seq<Wire>, Fault>)
    ensures r.Err? <==> !peerOpen && |w| > 0
    ensures r.Err? ==> r.error == BrokenPipe
    ensures r.Ok? ==> r.value == w
  {
    if !peerOpen && |w| > 0 then Err(BrokenPipe) else Ok(w)
  }

  // ---------------------------------------------------------- authentication

  datatype AuthOutcome = Authenticated | Rejected | LoginTimedOut | Aborted(fault: Fault)

  /** The outcome of `setup`, what it sent, the shared state after it, and
      whether it closed the socket itself. */
  datatype Auth = Auth(outcome: AuthOutcome, sent: seq<Wire>, server: Server, closed: bool)

  /** `setup`: read one message under the login timeout and compare the
      plaintext with the peer's IP address. A match sends the success
      acknowledgement and registers the connection; a mismatch (including
      no value at all) and a timeout send a fixed UNENCRYPTED error and
      close. A `BrokenPipeError` from any of these sends is caught and
      `setup` returns unregistered; every other exception escapes `setup`
      unregistered. Either way the login envelope's nonce stays recorded. */
  function Authenticate(cfg: Config, srv: Server, conn: ConnId, peerIp: string, now: real,
                        incoming: Incoming, stamp: Cipher.Stamp, peerOpen: bool): (a: Auth)
    requires |stamp.iv| == Cipher.RandomIvLength
    ensures a.server.cmdQueue == srv.cmdQueue && a.server.ackQueue == srv.ackQueue
    ensures a.server.nonces == Receive(cfg, srv.nonces, now, incoming).1
    ensures a.outcome == Authenticated <==>
      && Receive(cfg, srv.nonces, now, incoming).0 == Message(peerIp)
      && Reply(cfg, stamp, AuthSuccessful).Ok?
      && Transmit(peerOpen, Reply(cfg, stamp, AuthSuccessful).value).Ok?
    ensures a.server.registry == if a.outcome == Authenticated then srv.registry + {conn} else srv.registry
    ensures a.outcome == Authenticated ==> a.sent == Reply(cfg, stamp, AuthSuccessful).value && !a.closed
    ensures a.outcome == Rejected ==> a.sent == [Plain(InvalidToken)] && a.closed
    ensures a.outcome == LoginTimedOut ==> a.sent == [Plain(LoginTimeout)] && a.closed
    ensures a.outcome.Aborted? ==> a.sent == []
    ensures var got := Receive(cfg, srv.nonces, now, incoming).0;
      && (peerOpen && !got.Raised? && got != Message(peerIp) ==> a.outcome == Rejected)
      && (peerOpen && got == Raised(Timeout) ==> a.outcome == LoginTimedOut)
      && (got.Raised? && got != Raised(Timeout) ==> a.outcome.Aborted?)
  {
    var (got, nonces') := Receive(cfg, srv.nonces, now, incoming);
    var srv1 := srv.(nonces := nonces');
    if got == Raised(Timeout) then
      if peerOpen then Auth(LoginTimedOut, [Plain(LoginTimeout)], srv1, true)
      else Auth(Aborted(BrokenPipe), [], srv1, false)
    else if got.Raised? then Auth(Aborted(got.fault), [], srv1, false)
    else if got == Message(peerIp) then
      match Reply(cfg, stamp, AuthSuccessful)
      case Err(f) => Auth(Aborted(f), [], srv1, false)
      case Ok(w) =>
        if Transmit(peerOpen, w).Err? then Auth(Aborted(BrokenPipe), [], srv1, false)
        else Auth(Authenticated, w, srv1.(registry := srv1.registry + {conn}), false)
    else if peerOpen then Auth(Rejected, [Plain(InvalidToken)], srv1, true)
    else Auth(Aborted(BrokenPipe), [], srv1, false)
  }

  /** The request bytes a client puts on the wire: the envelope text and a
      newline, in ASCII. */
  function LoginBytes(envelope: string): (b: seq<byte>)
    requires Utf8.IsAscii(envelope)
  {
    Utf8.Encode(envelope + "\n")
  }

  /** A client that sends its own address, freshly encrypted under the
      server's key and inside the window, is registered. */
  lemma HonestLoginAccepted(cfg: Config, srv: Server, conn: ConnId, peerIp: string, now: real,
                            client: Cipher.Stamp, stamp: Cipher.Stamp)
    requires Cipher.Valid(cfg.cipher) && cfg.hasCipher && !cfg.fullEncryption
    requires |client.iv| == Cipher.RandomIvLength && |stamp.iv| == Cipher.RandomIvLength
    requires Cipher.Encrypt(cfg.cipher, client, peerIp).Ok?
    requires !Cipher.OutsideWindow(cfg.cipher, Clock.Trunc(client.now), now)
    requires Cipher.Nonce(Cipher.StampBytes(client.now).value, client.iv) !in srv.nonces.nonces
    ensures var env := Cipher.Encrypt(cfg.cipher, client, peerIp).value;
      && Utf8.IsAscii(env)
      && var a := Authenticate(cfg, srv, conn, peerIp, now, Chunk(LoginBytes(env)), stamp, true);
      && a.outcome == Authenticated
      && a.server.registry == srv.registry + {conn}
      && a.sent == [Plain(AuthSuccessful)]
  {
    var env := Cipher.Encrypt(cfg.cipher, client, peerIp).value;
    var data := Cipher.Envelope(cfg.cipher, client, Padding.Pad(Utf8.Encode(peerIp)));
    assert env == cfg.cipher.b64.encode(data);
    FramedLogin(cfg, env);
    Cipher.RoundTrip(cfg.cipher, client, peerIp, srv.nonces, now);
  }

  /** The bytes of an ASCII envelope plus newline reach the decrypter as
      that same text, newline included. */
  lemma FramedLogin(cfg: Config, env: string)
    requires cfg.hasCipher && Utf8.IsAscii(env)
    ensures Framed(cfg, Chunk(LoginBytes(env))) == Some(env + "\n")
  {
    var line := env + "\n";
    assert Utf8.IsAscii(line);
    Utf8.EncodeAscii(line);
    var b := Utf8.Encode(line);
    var t := AsciiText(b).value;
    assert t == line by {
      forall i | 0 <= i < |line|
        ensures t[i] == line[i]
      {
        assert t[i] as int == line[i] as int;
      }
    }
  }

  /** The decrypter's nonce record outlives the login: the same login bytes
      sent again inside the window are refused as a replay, and the second
      connection is not registered. */
  lemma ReplayedLoginRefused(cfg: Config, srv: Server, conn: ConnId, conn2: ConnId, peerIp: string,
                             now: real, now2: real, client: Cipher.Stamp, stamp: Cipher.Stamp, stamp2: Cipher.Stamp)
    requires Cipher.Valid(cfg.cipher) && cfg.hasCipher && !cfg.fullEncryption
    requires |client.iv| == Cipher.RandomIvLength && |stamp.iv| == Cipher.RandomIvLength && |stamp2.iv| == Cipher.RandomIvLength
    requires Cipher.Encrypt(cfg.cipher, client, peerIp).Ok?
    requires !Cipher.OutsideWindow(cfg.cipher, Clock.Trunc(client.now), now)
    requires !Cipher.OutsideWindow(cfg.cipher, Clock.Trunc(client.now), now2)
    requires Cipher.Nonce(Cipher.StampBytes(client.now).value, client.iv) !in srv.nonces.nonces
    ensures var env := Cipher.Encrypt(cfg.cipher, client, peerIp).value;
      && Utf8.IsAscii(env)
      && var a := Authenticate(cfg, srv, conn, peerIp, now, Chunk(LoginBytes(env)), stamp, true);
      && var b := Authenticate(cfg, a.server, conn2, peerIp, now2, Chunk(LoginBytes(env)), stamp2, true);
      && b.outcome == Aborted(Crypto(Cipher.ReplayDetected))
      && b.server.registry == a.server.registry
  {
    HonestLoginAccepted(cfg, srv, conn, peerIp, now, client, stamp);
    var env := Cipher.Encrypt(cfg.cipher, client, peerIp).value;
    var line := env + "\n";
    FramedLogin(cfg, env);
    Cipher.RoundTrip(cfg.cipher, client, peerIp, srv.nonces, now);
    Cipher.EnvelopeLayout(cfg.cipher, client, peerIp);
    var data := Cipher.Envelope(cfg.cipher, client, Padding.Pad(Utf8.Encode(peerIp)));
    assert env == cfg.cipher.b64.encode(data);
    assert cfg.cipher.b64.decode(line) == cfg.cipher.b64.decode(env);
    assert Cipher.EnvelopeNonce(cfg.cipher, line) == Cipher.EnvelopeNonce(cfg.cipher, env);
    Cipher.ReplayRejected(cfg.cipher, srv.nonces, now, now2, line);
  }

  // ------------------------------------------------------ acknowledgement

  /** One pass of the polling loop: how long the handler has waited, and the
      acknowledgements the control loop pushed since the previous pass. */
  datatype Poll = Poll(elapsed: real, arrivals: seq<string>)

  function Arrivals(polls: seq<Poll>): seq<string>
  {
    if |polls| == 0 then [] else polls[0].arrivals + Arrivals(polls[1..])
  }

  lemma {:induction false} ArrivalsAppend(polls: seq<Poll>, k: nat)
    requires k < |polls|
    ensures Arrivals(polls[..k + 1]) == Arrivals(polls[..k]) + polls[k].arrivals
  {
    if k == 0 {
      assert polls[..1][1..] == [];
    } else {
      assert polls[..k + 1][1..] == polls[1..][..k];
      assert polls[..k][1..] == polls[1..][..k - 1];
      ArrivalsAppend(polls[1..], k - 1);
    }
  }

  function Taken(response: Option<string>): seq<string>
  {
    if response.Some? then [response.value] else []
  }

  /** The result of waiting: the response (if any), the acknowledgement queue
      afterwards, and how many polls ran. */
  datatype Wait = Wait(response: Option<string>, queue: seq<string>, polls: nat)

  /** The wait loop of `handle` as a recursive definition: while `run_tasks`
      holds and at most 10 s have passed, take the head of the queue if there
      is one. A schedule that runs out stands for the deadline passing. */
  function AwaitAck(running: bool, queue: seq<string>, polls: seq<Poll>): (w: Wait)
    ensures w.polls <= |polls|
    ensures queue + Arrivals(polls[..w.polls]) == Taken(w.response) + w.queue
    ensures w.response.Some? ==> running && w.polls > 0 && polls[w.polls - 1].elapsed <= AckTimeout
    ensures !running ==> w == Wait(None, queue, 0)
    ensures forall k :: 0 <= k < w.polls - 1 ==> polls[k].elapsed <= AckTimeout
    ensures running && w.response.None? ==>
      w.polls == |polls| || (w.polls > 0 && polls[w.polls - 1].elapsed > AckTimeout)
    decreases |polls|
  {
    if !running || |polls| == 0 then Wait(None, queue, 0)
    else
      var q := queue + polls[0].arrivals;
      assert polls[..1][1..] == [] && Arrivals(polls[..1]) == polls[0].arrivals;
      if polls[0].elapsed > AckTimeout then Wait(None, q, 1)
      else if |q| > 0 then Wait(Some(q[0]), q[1..], 1)
      else
        var tail := polls[1..];
        var w := AwaitAck(running, q, tail);
        assert polls[..w.polls + 1][1..] == tail[..w.polls];
        assert forall k :: 1 <= k < w.polls + 1 ==> polls[k] == tail[k - 1];
        Wait(w.response, w.queue, w.polls + 1)
  }

  /** One poll of the wait, from poll `i` on: the deadline, a queued
      acknowledgement, or the next poll. */
  lemma AwaitAckUnfold(running: bool, queue: seq<string>, polls: seq<Poll>, i: nat)
    requires running && i < |polls|
    ensures var q := queue + polls[i].arrivals;
      var w := AwaitAck(running, queue, polls[i..]);
      && (polls[i].elapsed > AckTimeout ==> w == Wait(None, q, 1))
      && (polls[i].elapsed <= AckTimeout && |q| > 0 ==> w == Wait(Some(q[0]), q[1..], 1))
      && (polls[i].elapsed <= AckTimeout && |q| == 0 ==>
            w == AwaitAck(running, q, polls[i + 1..]).(polls := AwaitAck(running, q, polls[i + 1..]).polls + 1))
  {
    assert polls[i..][0] == polls[i] && polls[i..][1..] == polls[i + 1..];
  }

  /** The same wait as the loop the source runs, one `get(block=False)` per
      pass; it agrees with `AwaitAck`. */
  method PollForAck(running: bool, queue: seq<string>, polls: seq<Poll>) returns (response: Option<string>, rest: seq<string>)
    ensures Wait(response, rest, AwaitAck(running, queue, polls).polls) == AwaitAck(running, queue, polls)
  {
    response := None;
    rest := queue;
    var i := 0;
    while running && i < |polls|
      invariant 0 <= i <= |polls|
      invariant |rest| == 0 || i == 0
      invariant !running ==> i == 0 && rest == queue
      invariant running ==> AwaitAck(running, queue, polls) == AwaitAck(running, rest, polls[i..]).(polls := AwaitAck(running, rest, polls[i..]).polls + i)
      decreases |polls| - i
    {
      AwaitAckUnfold(running, rest, polls, i);
      rest := rest + polls[i].arrivals;
      if polls[i].elapsed > AckTimeout {
        return;
      }
      if |rest| > 0 {
        response := Some(rest[0]);
        rest := rest[1..];
        return;
      }
      i := i + 1;
    }
  }

  /** No acknowledgement is missed: when the wait ends without a response,
      the queue was empty at every poll that ran before the deadline. */
  lemma {:induction false} NoAckMissed(running: bool, queue: seq<string>, polls: seq<Poll>, k: nat)
    requires running && AwaitAck(running, queue, polls).response.None?
    requires k < AwaitAck(running, queue, polls).polls && polls[k].elapsed <= AckTimeout
    ensures |queue + Arrivals(polls[..k + 1])| == 0
    decreases k
  {
    var w := AwaitAck(running, queue, polls);
    var q := queue + polls[0].arrivals;
    assert |q| == 0 by {
      assert polls[0].elapsed <= AckTimeout;
    }
    if k == 0 {
      assert polls[..1][1..] == [];
      assert Arrivals(polls[..1]) == polls[0].arrivals;
    } else {
      var tail := polls[1..];
      var v := AwaitAck(running, q, tail);
      assert w == Wait(v.response, v.queue, v.polls + 1) by {
        assert polls[0].elapsed <= AckTimeout;
      }
      assert tail[k - 1] == polls[k];
      NoAckMissed(running, q, tail, k - 1);
      assert queue + Arrivals(polls[..k + 1]) == q + Arrivals(tail[..k]) by {
        assert polls[..k + 1][1..] == tail[..k];
        assert Arrivals(polls[..k + 1]) == polls[0].arrivals + Arrivals(tail[..k]);
      }
    }
  }

  // ---------------------------------------------------------- command loop

  /** What one pass of `handle`'s loop reads from the outside world. */
  datatype Round = Round(incoming: Incoming, now: real, polls: seq<Poll>, stamp: Cipher.Stamp, peerOpen: bool)

  predicate WellFormedRound(rd: Round)
  {
    |rd.stamp.iv| == Cipher.RandomIvLength
  }

  /** One command round: push the command exactly once, wait for at most
      one acknowledgement, and answer with it when it is a non-empty text,
      or with the fixed error otherwise. */
  function CommandRound(cfg: Config, srv: Server, command: string, rd: Round): (r: (Result<seq<Wire>, Fault>, Server))
    requires WellFormedRound(rd)
    ensures r.1.cmdQueue == srv.cmdQueue + [command]
    ensures r.1.registry == srv.registry && r.1.nonces == srv.nonces
    ensures r.0.Ok? ==> |r.0.value| <= 1
    ensures var w := AwaitAck(cfg.runTasks, srv.ackQueue, rd.polls);
      && r.1.ackQueue == w.queue
      && var text := if w.response.Some? && |w.response.value| > 0 then w.response.value else NotAcknowledged;
      && r.0 == (match Reply(cfg, rd.stamp, text) case Ok(ws) => Transmit(rd.peerOpen, ws) case Err(f) => Err(f))
  {
    var w := AwaitAck(cfg.runTasks, srv.ackQueue, rd.polls);
    var srv' := srv.(cmdQueue := srv.cmdQueue + [command], ackQueue := w.queue);
    var text := if w.response.Some? && |w.response.value| > 0 then w.response.value else NotAcknowledged;
    match Reply(cfg, rd.stamp, text)
    case Err(f) => (Err(f), srv')
    case Ok(ws) => (Transmit(rd.peerOpen, ws), srv')
  }

  /** Without acknowledgement the client gets the fixed error, in plain text
      or encrypted as configured. */
  lemma UnacknowledgedCommand(cfg: Config, srv: Server, command: string, rd: Round)
    requires WellFormedRound(rd) && rd.peerOpen
    requires AwaitAck(cfg.runTasks, srv.ackQueue, rd.polls).response.None?
    ensures !cfg.fullEncryption ==> CommandRound(cfg, srv, command, rd).0 == Ok([Plain(NotAcknowledged)])
    ensures cfg.fullEncryption && cfg.hasCipher && Cipher.Encrypt(cfg.cipher, rd.stamp, NotAcknowledged).Ok? ==>
      CommandRound(cfg, srv, command, rd).0 == Ok([Sealed(Cipher.Encrypt(cfg.cipher, rd.stamp, NotAcknowledged).value)])
  {
    var reply := Reply(cfg, rd.stamp, NotAcknowledged);
    assert CommandRound(cfg, srv, command, rd).0 == (match reply case Ok(ws) => Transmit(true, ws) case Err(f) => Err(f));
  }

  /** An acknowledgement waiting at the first poll, before the deadline,
      is taken and becomes the reply. */
  lemma AckedCommandAnswered(cfg: Config, srv: Server, command: string, rd: Round)
    requires WellFormedRound(rd) && rd.peerOpen && cfg.runTasks && !cfg.fullEncryption
    requires |rd.polls| > 0 && rd.polls[0].elapsed <= AckTimeout
    requires var q := srv.ackQueue + rd.polls[0].arrivals; |q| > 0 && |q[0]| > 0
    ensures var q := srv.ackQueue + rd.polls[0].arrivals;
      && CommandRound(cfg, srv, command, rd).0 == Ok([Plain(q[0])])
      && CommandRound(cfg, srv, command, rd).1.ackQueue == q[1..]
  {
    var q := srv.ackQueue + rd.polls[0].arrivals;
    assert AwaitAck(cfg.runTasks, srv.ackQueue, rd.polls) == Wait(Some(q[0]), q[1..], 1);
  }

  datatype Exit = PeerClosed | Dropped(fault: Fault) | NotRegistered

  /** How a connection's `handle` ended, what it sent, and the shared state
      after the `finally` clause. */
  datatype Session = Session(exit: Exit, sent: seq<Wire>, server: Server)

  /** The `finally` clause: the connection leaves the registry. */
  function Close(srv: Server, conn: ConnId, exit: Exit): (s: Session)
    ensures s.server.registry == srv.registry - {conn}
  {
    Session(exit, [], srv.(registry := srv.registry - {conn}))
  }

  /** How one pass of the loop ends: the loop stops, or the command was
      answered (possibly with nothing, when sending is a no-op). */
  datatype Outcome = Stop(exit: Exit) | Answered(sent: seq<Wire>)

  /** One pass of `handle`'s loop: receive, stop on an exception or an empty
      message, otherwise run the command round. */
  function Step(cfg: Config, srv: Server, rd: Round): (r: (Outcome, Server))
    requires WellFormedRound(rd)
    ensures r.1.registry == srv.registry
    ensures r.0.Stop? ==> r.0.exit != NotRegistered
    ensures r.0.Answered? ==> |r.0.sent| <= 1
    ensures r.1.cmdQueue == srv.cmdQueue || (|r.1.cmdQueue| == |srv.cmdQueue| + 1 && srv.cmdQueue <= r.1.cmdQueue)
    ensures r.0.Answered? ==> |r.1.cmdQueue| == |srv.cmdQueue| + 1
    ensures var got := Receive(cfg, srv.nonces, rd.now, rd.incoming).0;
      && (got.Message? && |got.text| > 0 ==> r.1.cmdQueue == srv.cmdQueue + [got.text])
      && (got == Nothing || got == Message("") ==> r == (Stop(PeerClosed), srv.(nonces := Receive(cfg, srv.nonces, rd.now, rd.incoming).1)))
      && (got.Raised? ==> r.0 == Stop(Dropped(got.fault)))
  {
    var rcv := Receive(cfg, srv.nonces, rd.now, rd.incoming);
    var srv1 := srv.(nonces := rcv.1);
    if rcv.0.Raised? then (Stop(Dropped(rcv.0.fault)), srv1)
    else if rcv.0.Nothing? || |rcv.0.text| == 0 then (Stop(PeerClosed), srv1)
    else
      var cr := CommandRound(cfg, srv1, rcv.0.text, rd);
      if cr.0.Err? then (Stop(Dropped(cr.0.error)), cr.1) else (Answered(cr.0.value), cr.1)
  }

  /** The `while True` loop of `handle` over the rounds the client drives; a
      client that sends nothing more closes the connection. Every reply
      answers a command pushed to the queue. */
  function Serve(cfg: Config, srv: Server, conn: ConnId, rounds: seq<Round>): (s: Session)
    requires forall i :: 0 <= i < |rounds| ==> WellFormedRound(rounds[i])
    ensures s.server.registry == srv.registry - {conn}
    ensures s.exit != NotRegistered
    ensures srv.cmdQueue <= s.server.cmdQueue
    ensures |s.sent| <= |s.server.cmdQueue| - |srv.cmdQueue| <= |rounds|
    decreases |rounds|
  {
    if |rounds| == 0 then Close(srv, conn, PeerClosed)
    else
      var (out, srv1) := Step(cfg, srv, rounds[0]);
      match out
      case Stop(exit) => Close(srv1, conn, exit)
      case Answered(sent) =>
        assert |sent| <= 1 && |srv1.cmdQueue| == |srv.cmdQueue| + 1 && srv.cmdQueue <= srv1.cmdQueue;
        var rest := Serve(cfg, srv1, conn, rounds[1..]);
        Session(rest.exit, sent + rest.sent, rest.server)
  }

  /** `handle`: nothing happens for an unregistered request; otherwise the
      command loop runs, and on every way out the connection is removed from
      the registry. */
  function Handle(cfg: Config, srv: Server, conn: ConnId, rounds: seq<Round>): (s: Session)
    requires forall i :: 0 <= i < |rounds| ==> WellFormedRound(rounds[i])
    ensures s.server.registry == srv.registry - {conn}
    ensures conn !in srv.registry <==> s.exit == NotRegistered
    ensures conn !in srv.registry ==> s.sent == [] && s.server == srv
  {
    if conn !in srv.registry then Session(NotRegistered, [], srv) else Serve(cfg, srv, conn, rounds)
  }

  /** A command that goes unanswered does not end the connection: the
      handler replies with the error and carries on with the next round. */
  lemma UnansweredCommandKeepsConnection(cfg: Config, srv: Server, conn: ConnId, rounds: seq<Round>)
    requires forall i :: 0 <= i < |rounds| ==> WellFormedRound(rounds[i])
    requires |rounds| > 0 && !cfg.fullEncryption && rounds[0].peerOpen
    requires var got := Receive(cfg, srv.nonces, rounds[0].now, rounds[0].incoming).0; got.Message? && |got.text| > 0
    requires AwaitAck(cfg.runTasks, srv.ackQueue, rounds[0].polls).response.None?
    ensures var (got, nonces') := Receive(cfg, srv.nonces, rounds[0].now, rounds[0].incoming);
      var srv2 := CommandRound(cfg, srv.(nonces := nonces'), got.text, rounds[0]).1;
      Serve(cfg, srv, conn, rounds).sent == [Plain(NotAcknowledged)] + Serve(cfg, srv2, conn, rounds[1..]).sent
  {
  }

  // ------------------------------------------------------------ broadcaster

  /** The clients a report reached, in iteration order, and the client whose
      send raised, if one did. */
  datatype Fanout = Fanout(delivered: seq<(ConnId, Wire)>, failedAt: Option<ConnId>)

  /** The frame a report becomes for one client: an envelope plus newline
      under full encryption (None when encryption raises), the plain text
      otherwise. */
  function ReportFrame(cipher: Cipher.Config, full: bool, stamp: Cipher.Stamp, message: string): (r: Option<Wire>)
    requires |stamp.iv| == Cipher.RandomIvLength
    ensures !full ==> r == Some(Plain(message))
    ensures full ==> (r.Some? <==> Cipher.Encrypt(cipher, stamp, message).Ok?)
    ensures full && r.Some? ==>
      && r.value.Sealed? && |r.value.payload| > 0 && r.value.payload[|r.value.payload| - 1] == '\n'
      && r.value.payload[..|r.value.payload| - 1] == Cipher.Encrypt(cipher, stamp, message).value
  {
    if full then
      match Cipher.Encrypt(cipher, stamp, message)
      case Ok(env) =>
        assert (env + "\n")[..|env|] == env;
        Some(Sealed(env + "\n"))
      case Err(_) => None
    else Some(Plain(message))
  }

  /** The frame as the broadcaster builds it as written, with
      `encrypt_message`'s character padding. */
  function ReportFrameAsWritten(cipher: Cipher.Config, full: bool, stamp: Cipher.Stamp, message: string): (r: Option<Wire>)
    requires |stamp.iv| == Cipher.RandomIvLength
    ensures !full ==> r == Some(Plain(message))
    ensures full ==> (r.Some? <==> Cipher.EncryptAsWritten(cipher, stamp, message).Ok?)
    ensures full && r.Some? ==> r.value == Sealed(Cipher.EncryptAsWritten(cipher, stamp, message).value + "\n")
  {
    if full then
      match Cipher.EncryptAsWritten(cipher, stamp, message)
      case Ok(env) => Some(Sealed(env + "\n"))
      case Err(_) => None
    else Some(Plain(message))
  }

  /** On ASCII reports both frames are the same. */
  lemma ReportFrameAgreesOnAscii(cipher: Cipher.Config, full: bool, stamp: Cipher.Stamp, message: string)
    requires |stamp.iv| == Cipher.RandomIvLength && Utf8.IsAscii(message)
    ensures ReportFrameAsWritten(cipher, full, stamp, message) == ReportFrame(cipher, full, stamp, message)
  {
    Cipher.EncryptAsWrittenAgreesOnAscii(cipher, stamp, message);
  }

  /** The frames of one report, one per client in iteration order, each
      built with its own clock reading and random bytes. */
  function Frames(cipher: Cipher.Config, full: bool, message: string, stamps: seq<Cipher.Stamp>): (fs: seq<Option<Wire>>)
    requires forall i :: 0 <= i < |stamps| ==> |stamps[i].iv| == Cipher.RandomIvLength
    ensures |fs| == |stamps|
    ensures forall i :: 0 <= i < |stamps| ==> fs[i] == ReportFrame(cipher, full, stamps[i], message)
  {
    seq(|stamps|, i requires 0 <= i < |stamps| => ReportFrame(cipher, full, stamps[i], message))
  }

  /** The same with the frames built as written. */
  function FramesAsWritten(cipher: Cipher.Config, full: bool, message: string, stamps: seq<Cipher.Stamp>): (fs: seq<Option<Wire>>)
    requires forall i :: 0 <= i < |stamps| ==> |stamps[i].iv| == Cipher.RandomIvLength
    ensures |fs| == |stamps|
    ensures forall i :: 0 <= i < |stamps| ==> fs[i] == ReportFrameAsWritten(cipher, full, stamps[i], message)
  {
    seq(|stamps|, i requires 0 <= i < |stamps| => ReportFrameAsWritten(cipher, full, stamps[i], message))
  }

  /** The `for` loop inside its single `try`, over the frames: the first
      client whose frame could not be built or whose send raises ends the
      loop, and the clients after it get nothing. */
  function DeliverAborting(clients: seq<ConnId>, alive: set<ConnId>, frames: seq<Option<Wire>>): (f: Fanout)
    requires |frames| == |clients|
    ensures |f.delivered| <= |clients|
    ensures forall i :: 0 <= i < |f.delivered| ==> f.delivered[i].0 == clients[i] && f.delivered[i].0 in alive
    ensures forall i :: 0 <= i < |f.delivered| ==> frames[i] == Some(f.delivered[i].1)
    ensures f.failedAt.None? <==> |f.delivered| == |clients|
    ensures f.failedAt.Some? ==> f.failedAt.value == clients[|f.delivered|]
    ensures f.failedAt.Some? ==> clients[|f.delivered|] !in alive || frames[|f.delivered|].None?
    decreases |clients|
  {
    if |clients| == 0 then Fanout([], None)
    else
      var c := clients[0];
      if frames[0].None? || c !in alive then Fanout([], Some(c))
      else
        var rest := DeliverAborting(clients[1..], alive, frames[1..]);
        assert forall i :: 1 <= i < |clients| ==> clients[i] == clients[1..][i - 1] && frames[i] == frames[1..][i - 1];
        Fanout([(c, frames[0].value)] + rest.delivered, rest.failedAt)
  }

  /** The per-client isolation the broadcaster is meant to have, over the
      frames: a failing client is skipped and the others still receive
      their frame. */
  function DeliverIsolated(clients: seq<ConnId>, alive: set<ConnId>, frames: seq<Option<Wire>>): (d: seq<(ConnId, Wire)>)
    requires |frames| == |clients|
    ensures forall i :: 0 <= i < |d| ==> d[i].0 in alive && d[i].0 in clients
    ensures forall i :: 0 <= i < |clients| && clients[i] in alive && frames[i].Some? ==> (clients[i], frames[i].value) in d
    ensures forall i :: 0 <= i < |d| ==> exists j :: 0 <= j < |clients| && clients[j] == d[i].0 && frames[j] == Some(d[i].1)
    decreases |clients|
  {
    if |clients| == 0 then []
    else
      var rest := DeliverIsolated(clients[1..], alive, frames[1..]);
      var head := clients[0] in alive && frames[0].Some?;
      var d := if head then [(clients[0], frames[0].value)] + rest else rest;
      assert forall i :: 1 <= i < |clients| ==> clients[i] == clients[1..][i - 1] && frames[i] == frames[1..][i - 1];
      assert forall i :: 0 <= i < |d| ==> exists j :: 0 <= j < |clients| && clients[j] == d[i].0 && frames[j] == Some(d[i].1) by {
        forall i | 0 <= i < |d|
          ensures exists j :: 0 <= j < |clients| && clients[j] == d[i].0 && frames[j] == Some(d[i].1)
        {
          if head && i == 0 {
            assert clients[0] == d[0].0 && frames[0] == Some(d[0].1);
          } else {
            var i' := if head then i - 1 else i;
            assert 0 <= i' < |rest| && d[i] == rest[i'];
            var j :| 0 <= j < |clients[1..]| && clients[1..][j] == rest[i'].0 && frames[1..][j] == Some(rest[i'].1);
            assert clients[j + 1] == d[i].0 && frames[j + 1] == Some(d[i].1);
          }
        }
      }
      d
  }

  /** `connected_clients` is a set: the iteration order lists each
      connection once. */
  predicate Distinct(clients: seq<ConnId>)
  {
    forall i, j :: 0 <= i < j < |clients| ==> clients[i] != clients[j]
  }

  /** No connection appears twice among the deliveries. */
  predicate OncePerClient(d: seq<(ConnId, Wire)>)
  {
    forall i, j :: 0 <= i < j < |d| ==> d[i].0 != d[j].0
  }

  /** One unfolding of `DeliverIsolated`, stated without its quantified
      contract. */
  lemma DeliverIsolatedHead(clients: seq<ConnId>, alive: set<ConnId>, frames: seq<Option<Wire>>)
    requires |frames| == |clients| > 0
    ensures DeliverIsolated(clients, alive, frames) ==
      (if clients[0] in alive && frames[0].Some?
       then [(clients[0], frames[0].value)] + DeliverIsolated(clients[1..], alive, frames[1..])
       else DeliverIsolated(clients[1..], alive, frames[1..]))
  {
  }

  /** With each client listed once, the isolated delivery reaches each client
      at most once. */
  lemma {:induction false} DeliveredOnce(clients: seq<ConnId>, alive: set<ConnId>, frames: seq<Option<Wire>>)
    requires |frames| == |clients| && Distinct(clients)
    ensures OncePerClient(DeliverIsolated(clients, alive, frames))
    decreases |clients|
  {
    if |clients| > 0 {
      var tail := clients[1..];
      assert Distinct(tail) by {
        assert forall i :: 0 <= i < |tail| ==> tail[i] == clients[i + 1];
      }
      DeliveredOnce(tail, alive, frames[1..]);
      var rest := DeliverIsolated(tail, alive, frames[1..]);
      DeliverIsolatedHead(clients, alive, frames);
      if clients[0] in alive && frames[0].Some? {
        assert clients[0] !in tail;
        ConsOnce((clients[0], frames[0].value), rest, tail);
      }
    }
  }

  /** Putting a delivery to a client that none of the others reaches in
      front keeps the deliveries one per client. */
  lemma ConsOnce(x: (ConnId, Wire), rest: seq<(ConnId, Wire)>, others: seq<ConnId>)
    requires OncePerClient(rest) && x.0 !in others
    requires forall k :: 0 <= k < |rest| ==> rest[k].0 in others
    ensures OncePerClient([x] + rest)
  {
    var d := [x] + rest;
    forall i, j | 0 <= i < j < |d|
      ensures d[i].0 != d[j].0
    {
      assert d[j] == rest[j - 1];
      if i > 0 {
        assert d[i] == rest[i - 1];
      }
    }
  }

  /** Each client receives a report at most once. */
  lemma BroadcastReachesOnce(cipher: Cipher.Config, full: bool, message: string, clients: seq<ConnId>,
                             alive: set<ConnId>, stamps: seq<Cipher.Stamp>)
    requires |stamps| == |clients|
    requires Distinct(clients)
    requires forall i :: 0 <= i < |stamps| ==> |stamps[i].iv| == Cipher.RandomIvLength
    ensures OncePerClient(BroadcastIsolated(cipher, full, message, clients, alive, stamps))
  {
    assert BroadcastIsolated(cipher, full, message, clients, alive, stamps)
      == DeliverIsolated(clients, alive, Frames(cipher, full, message, stamps));
    DeliveredOnce(clients, alive, Frames(cipher, full, message, stamps));
  }

  /** `send_periodic_data_to_all_clients` as written, for one report: the
      frames are built with `encrypt_message` as written, and one `try`
      around the whole `for` loop means the first client whose encryption or
      send raises ends the loop, and the clients after it get nothing. */
  function Broadcast(cipher: Cipher.Config, full: bool, message: string, clients: seq<ConnId>,
                     alive: set<ConnId>, stamps: seq<Cipher.Stamp>): (f: Fanout)
    requires |stamps| == |clients|
    requires Distinct(clients)
    requires forall i :: 0 <= i < |stamps| ==> |stamps[i].iv| == Cipher.RandomIvLength
    ensures |f.delivered| <= |clients|
    ensures forall i :: 0 <= i < |f.delivered| ==> f.delivered[i].0 == clients[i] && f.delivered[i].0 in alive
    ensures f.failedAt.None? <==> |f.delivered| == |clients|
    ensures f.failedAt.Some? ==> f.failedAt.value == clients[|f.delivered|]
    ensures f.failedAt.Some? ==>
      clients[|f.delivered|] !in alive || ReportFrameAsWritten(cipher, full, stamps[|f.delivered|], message).None?
    ensures forall i :: 0 <= i < |f.delivered| ==> ReportFrameAsWritten(cipher, full, stamps[i], message) == Some(f.delivered[i].1)
    ensures !full ==> forall i :: 0 <= i < |f.delivered| ==> f.delivered[i].1 == Plain(message)
  {
    DeliverAborting(clients, alive, FramesAsWritten(cipher, full, message, stamps))
  }

  /** A dead client early in the iteration order silences every client after
      it, even live ones. */
  lemma BroadcastAbortsAfterFailure(cipher: Cipher.Config, message: string, a: ConnId, b: ConnId)
    requires a != b
    ensures Broadcast(cipher, false, message, [a, b], {b}, [Cipher.Stamp(0.0, [0, 0, 0, 0, 0, 0, 0, 0]), Cipher.Stamp(0.0, [0, 0, 0, 0, 0, 0, 0, 0])])
      == Fanout([], Some(a))
  {
  }

  /** The intended broadcast of one report: every live client whose frame
      can be built receives it, a failing client being skipped, and nothing
      else is sent. */
  function BroadcastIsolated(cipher: Cipher.Config, full: bool, message: string, clients: seq<ConnId>,
                             alive: set<ConnId>, stamps: seq<Cipher.Stamp>): (d: seq<(ConnId, Wire)>)
    requires |stamps| == |clients|
    requires Distinct(clients)
    requires forall i :: 0 <= i < |stamps| ==> |stamps[i].iv| == Cipher.RandomIvLength
    ensures forall i :: 0 <= i < |d| ==> d[i].0 in alive && d[i].0 in clients
    ensures forall i :: 0 <= i < |clients| && clients[i] in alive && ReportFrame(cipher, full, stamps[i], message).Some? ==>
      (clients[i], ReportFrame(cipher, full, stamps[i], message).value) in d
    ensures forall i :: 0 <= i < |d| ==>
      exists j :: 0 <= j < |clients| && clients[j] == d[i].0 && ReportFrame(cipher, full, stamps[j], message) == Some(d[i].1)
  {
    var frames := Frames(cipher, full, message, stamps);
    var d := DeliverIsolated(clients, alive, frames);
    assert forall i :: 0 <= i < |d| ==>
      exists j :: 0 <= j < |clients| && clients[j] == d[i].0 && ReportFrame(cipher, full, stamps[j], message) == Some(d[i].1) by {
      forall i | 0 <= i < |d|
        ensures exists j :: 0 <= j < |clients| && clients[j] == d[i].0 && ReportFrame(cipher, full, stamps[j], message) == Some(d[i].1)
      {
        var j :| 0 <= j < |clients| && clients[j] == d[i].0 && frames[j] == Some(d[i].1);
      }
    }
    d
  }

  /** One broadcaster step: take the oldest report, if any, and deliver it
      to every live client of the registry, iterated in `order`, a failing
      client being skipped. */
  function BroadcastStep(cipher: Cipher.Config, full: bool, reports: seq<string>, registry: set<ConnId>,
                         order: seq<ConnId>, alive: set<ConnId>, stamps: seq<Cipher.Stamp>): (r: (seq<(ConnId, Wire)>, seq<string>))
    requires forall c :: c in registry <==> c in order
    requires Distinct(order)
    requires |stamps| == |order|
    requires forall i :: 0 <= i < |stamps| ==> |stamps[i].iv| == Cipher.RandomIvLength
    ensures |reports| == 0 ==> r == ([], reports)
    ensures |reports| > 0 ==> r.1 == reports[1..]
    ensures OncePerClient(r.0)
    ensures forall i :: 0 <= i < |r.0| ==> r.0[i].0 in registry && r.0[i].0 in alive
    ensures |reports| > 0 ==> forall i :: 0 <= i < |order| && order[i] in alive && ReportFrame(cipher, full, stamps[i], reports[0]).Some? ==>
      (order[i], ReportFrame(cipher, full, stamps[i], reports[0]).value) in r.0
    ensures |reports| > 0 ==> forall i :: 0 <= i < |r.0| ==>
      exists j :: 0 <= j < |order| && order[j] == r.0[i].0 && ReportFrame(cipher, full, stamps[j], reports[0]) == Some(r.0[i].1)
  {
    if |reports| == 0 then ([], reports)
    else
      BroadcastReachesOnce(cipher, full, reports[0], order, alive, stamps);
      (BroadcastIsolated(cipher, full, reports[0], order, alive, stamps), reports[1..])
  }
}
