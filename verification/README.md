# Vögeli birdhouse monitor — a Dafny model of its core

The birdhouse monitor is a Raspberry Pi program. It watches a nest box with
a camera, an IR LED and a radar sensor, and logs readings to a time-series
database. A phone app controls it over an authenticated, encrypted TCP link.
Subscribers get at most one mail a day when a bird comes home.

This project models the decision logic of that program as pure Dafny
functions, and proves the promises the code makes.

- **Envelope cipher** (`encryption.py`): modules `Padding` and `Cipher`.
  - A message is padded, AES-CBC encrypted under `timestamp || random IV`, and carried as base64 text.
  - The decrypter enforces a ±30 s freshness window and a replay cache that is pruned by age.
  - AES and base64 are library calls. They enter as function pairs constrained by their laws (`Cipher.IsCbc`, `Codecs.IsBase64`).
- **Command server** (`tcp_server.py`): module `TcpServer`.
  - `receive` framing, `send`, and login by encrypted peer address.
  - The command round: push the command, poll for an acknowledgement for at most 10 s, then answer.
  - The `handle` loop with its `finally` clause.
  - The periodic report broadcaster.
- **Control loop** (`main.py`): module `ControlLoop`.
  - The first-match dispatch of `[CMD] …` strings.
  - The newsletter subscriber list.
  - The IR state report after every pass.
  - The five-minute IR auto-off timer.
- **Database records** (`write_device_data_to_db`, identical copies in `main.py` and `radar.py`): module `DeviceData`.
- **Radar logic** (`radar.py`): module `Radar`.
  - The presence test and its rising-edge detector.
  - The per-window accumulator and the writer's averages.
  - The record stored per window.
  - The rate limits of the motion callback: one image per hour, one mail round per day.
- **Unsubscribe token** (`encoding.py`): module `EmailToken`. The address is XOR-ed with a cyclic key, code point by code point, then sent through UTF-8 and URL-safe base64.
- **Motion block and LED** (`ignore_motion.py`, `camera.py`): modules `MotionBlock` and `Camera`.
- **Disk reader and rate guard** (`system_monitor.py`): module `SystemMonitor`. It reads the root line of `df -h`, and a negative transfer rate becomes None.

The Python behaviour the code relies on is modelled in these support modules; where a module is narrower than Python, the difference is listed under "## Left out":

| Module | Python behaviour |
|---|---|
| `Bytes` | little-endian `to_bytes`/`from_bytes`, clamped slicing |
| `Clock` | `int()` of a float |
| `Utf8` | strict UTF-8 |
| `PyText` | `isspace`, `strip`, `split`, `split(sep)`, `replace`, `in` |
| `Decimal` | `str(n)`, `int(s)`, `float(s)` |

Time, random bytes, socket reads and file contents are parameters.
Exceptions become `Result` errors.

## Model

| member | source | states |
|---|---|---|
| Bytes.ToLE | encryption.py:24 | `to_bytes(8, "little")` yields exactly `width` bytes that read back as the number |
| Bytes.ToLEOfFromLE | encryption.py:43 | `from_bytes` then `to_bytes` at the same width is the identity, so the timestamp header is a bijection with 8-byte strings |
| Bytes.Slice | encryption.py:41-42 | Python slicing clamps: the length is what the bounds leave inside the string, and in-range bounds give the ordinary slice |
| Bytes.Drop | encryption.py:50 | `b[16:]` is empty for a short envelope and the ordinary suffix otherwise |
| Clock.Trunc | encryption.py:24 | `int(time.time())` truncates toward zero: the result is within one second of the clock, on the side of zero |
| Codecs.EncodeInjective | encryption.py:26 | a lawful base64 codec maps distinct byte strings to distinct texts |
| Utf8.DecodeEncode | encryption.py:52 | `decode("utf-8")` undoes `encode("utf8")` on every string |
| Utf8.EncodeAppend | encryption.py:26 | UTF-8 encoding of a concatenation is the concatenation of the encodings |
| Utf8.EncodeAscii | tcp_server.py:17 | ASCII text encodes one byte per character, each byte the character's code |
| Padding.PadCount | encryption.py:9 | the pad length is between 1 and 16 and brings the length to a multiple of the block size |
| Padding.Pad | encryption.py:9 | padded bytes are block-aligned, keep the input as prefix, grow by 1..16, and every pad element holds the pad length |
| Padding.PadText | encryption.py:9 | the same laws for the character-counting `pad` the source applies to the `str` |
| Padding.Unpad | encryption.py:10 | empty input fails; otherwise the result is a proper prefix, shorter by the last element's value when that is in 1..len, and empty when it is 0 or too large |
| Padding.UnpadPad | encryption.py:9-10 | `unpad(pad(b)) == b` for every byte string |
| Padding.UnpadIgnoresPadContents | encryption.py:10 | `unpad` drops exactly `k` elements whatever the `k - 1` elements before the final count hold |
| Padding.PadTextAgreesOnAscii | encryption.py:21-26 | on ASCII text, padding characters then encoding equals encoding then padding bytes |
| Padding.PadTextMisalignsNonAscii | encryption.py:22-26 | the padded text of "é" encodes to 17 bytes, which is not a whole AES block |
| Cipher.Stale | encryption.py:30-31 | an entry is stale when its little-endian timestamp lies more than `expiration` seconds before the clock |
| Cipher.OutsideWindow | encryption.py:44-45 | a timestamp is rejected when it lies more than `expiration` seconds before or after the clock, both bounds exclusive |
| Cipher.StampBytes | encryption.py:24 | the header is 8 bytes reading back as `int(now)`, and fails exactly when that value does not fit 8 unsigned bytes |
| Cipher.Seal | encryption.py:23-26 | sealing succeeds iff the clock fits, the key length is a valid AES key length and the data is block-aligned, and then yields the base64 of the envelope |
| Cipher.Encrypt | encryption.py:21-26 | with byte padding, encryption fails only on the clock or the key, never on the message |
| Cipher.EncryptAsWritten | encryption.py:21-26 | as written, a successful encryption implies the character-padded text happened to encode block-aligned |
| Cipher.EncryptAsWrittenAgreesOnAscii | encryption.py:21-26 | on ASCII messages the written encryption and the corrected one give the same result |
| Cipher.EncryptAsWrittenRejectsNonAscii | encryption.py:21-26 | the written encryption refuses "é" as not block-aligned while the corrected one accepts it under the same clock and key |
| Cipher.Prune | encryption.py:28-32 | pruning keeps exactly the cached entries whose timestamp is not older than `now - expiration` |
| Cipher.IsNonceUsed | encryption.py:34-37 | the lookup prunes first and reports an entry iff it was cached and is not stale |
| Cipher.Open | encryption.py:50-53 | the failures after the guards are key, IV, alignment, unpad and UTF-8 errors, never base64, window or replay errors |
| Cipher.Decrypt | encryption.py:39-53 | bad base64 iff the text does not decode; outside the window it fails with the cache untouched; expired iff the envelope's stamp lies outside the window; an in-window entry already in the pruned cache is a replay; past the guards the cache is the pruned cache plus the new entry, with no stale entry left |
| Cipher.EnvelopeLayout | encryption.py:23-26 | the envelope decodes to at least 32 block-aligned bytes: the timestamp of `int(now)`, the 8 random bytes, and the ciphertext, and the decrypter's split recovers them |
| Cipher.RoundTrip | encryption.py:21-53 | a fresh envelope inside the window decrypts to the message, also with the trailing newline the server leaves on |
| Cipher.ReplayRejected | encryption.py:44-49 | a text that got past the guards once is rejected as a replay while its timestamp is still inside the window |
| Cipher.PruneLater | encryption.py:28-32 | pruning at a later time subsumes pruning at an earlier one |
| Cipher.DistinctIvsDistinctEnvelopes | encryption.py:23-26 | two encryptions at the same second with different random bytes never give the same envelope |
| TcpServer.AsciiText | tcp_server.py:17 | `str(data, 'ascii')` succeeds iff every byte is below 128, and then keeps length and codes |
| TcpServer.Framed | tcp_server.py:17-22 | a read reaches the decrypter iff the server has a cipher and the read is non-empty, all ASCII and ends in a newline byte; the text then has the read's codes, the newline kept |
| TcpServer.Receive | tcp_server.py:16-22 | a message iff the read is framed and decrypts, with the decrypted text; None exactly for an unframed ASCII read; a timed-out or reset read and a non-ASCII read raise with the cache untouched; a framed read that fails to decrypt raises the decrypter's error, and the cache is what the decrypter leaves |
| TcpServer.Send | tcp_server.py:24-27 | nothing is sent for an empty text or a server without cipher; otherwise `send` succeeds iff encryption does, sends exactly the one envelope of the text, and raises the encryption's error on failure |
| TcpServer.SentTextDecrypts | tcp_server.py:24-27 | the one envelope `send` puts on the wire decrypts, inside the window and under the same key, to the text sent |
| TcpServer.Reply | tcp_server.py:97-105 | without full encryption the reply is the plain text; with it, the reply is what `send` produces |
| TcpServer.Transmit | tcp_server.py:27 | `sendall` raises BrokenPipe iff the peer is gone and there is something to send; otherwise exactly the given frames go out |
| TcpServer.Authenticate | tcp_server.py:29-60 | registered iff the decrypted login equals the peer address and the acknowledgement goes out; a mismatch sends the unencrypted invalid-token error and closes; a timeout sends the timeout error and closes; other exceptions send nothing and leave the registry alone; with the peer open, any decrypted reply other than the peer address is rejected and a timeout ends as a login timeout, and any other raised read aborts; whatever the outcome the nonce cache is the one `receive` leaves |
| TcpServer.HonestLoginAccepted | tcp_server.py:36-46 | a client sending its own address, freshly encrypted and newline-terminated, is registered and gets the plain acknowledgement |
| TcpServer.FramedLogin | tcp_server.py:16-22 | an ASCII envelope sent with a trailing newline reaches the decrypter as that text, newline included |
| TcpServer.ReplayedLoginRefused | tcp_server.py:36-38 | the same login bytes sent again inside the window are refused as a replay, and the second connection is not registered |
| TcpServer.AwaitAck | tcp_server.py:85-95 | the wait takes at most one acknowledgement from the queue in order, only while `run_tasks` holds and within 10 s, and loses none; every poll before the last ran within 10 s, and a wait without a response either used every poll or stopped at a poll past the deadline |
| TcpServer.PollForAck | tcp_server.py:85-95 | the polling loop returns the same response and queue as the recursive wait |
| TcpServer.NoAckMissed | tcp_server.py:87-95 | a wait that ends without a response found the queue empty at every poll it ran within the deadline |
| TcpServer.CommandRound | tcp_server.py:81-105 | the command is pushed exactly once, at most one acknowledgement is taken, and the reply is the acknowledgement when non-empty and the fixed error otherwise |
| TcpServer.UnacknowledgedCommand | tcp_server.py:101-105 | without an acknowledgement the client gets "[ERR] command not acknowledged", plain or encrypted as configured |
| TcpServer.AckedCommandAnswered | tcp_server.py:90-100 | an acknowledgement queued at the first poll, before the deadline, is taken off the queue and sent as the plain reply |
| TcpServer.Close | tcp_server.py:119-122 | the `finally` clause removes the connection from the registry |
| TcpServer.Step | tcp_server.py:67-108 | a received non-empty message is pushed as the command; a missing or empty message stops the loop as closed by the peer, changing only the nonce cache; a raised read stops it with that fault; the registry is untouched and at most one frame answers |
| TcpServer.Serve | tcp_server.py:62-122 | the connection always leaves the registry; commands are only appended to the queue; there are no more replies than pushed commands, and no more pushed commands than rounds |
| TcpServer.Handle | tcp_server.py:62-122 | an unregistered request does nothing; every session ends with the connection out of the registry |
| TcpServer.UnansweredCommandKeepsConnection | tcp_server.py:66-105 | an unanswered command is answered with the error and the loop carries on with the next round |
| TcpServer.ReportFrame | tcp_server.py:159-164 | without full encryption the frame is the plain text; with it, a frame exists iff encryption succeeds, and it is the envelope followed by a newline |
| TcpServer.ReportFrameAsWritten | tcp_server.py:159-164 | the same frame built with the character-padding encryption as written: it exists iff that encryption succeeds |
| TcpServer.ReportFrameAgreesOnAscii | tcp_server.py:159-164 | on ASCII reports the frame as written and the corrected frame are equal |
| TcpServer.DeliverAborting | tcp_server.py:155-166 | over ready frames, deliveries follow the client order, each is that client's own frame, and the first client that is dead or has no frame ends the loop |
| TcpServer.DeliverIsolated | tcp_server.py:155-166 | over ready frames, every live client with a frame receives it, and every delivery is a live listed client receiving its own frame |
| TcpServer.Broadcast | tcp_server.py:155-166 | reports reach clients in iteration order, each as the frame the written encryption builds for that client; the first client that is dead or whose encryption raises ends the loop, and the clients after it get nothing |
| TcpServer.BroadcastAbortsAfterFailure | tcp_server.py:155-166 | a dead first client silences a live second one |
| TcpServer.BroadcastIsolated | tcp_server.py:155-166 | with per-client isolation, every live client whose frame can be built receives it, and every delivery is a live listed client receiving its own frame |
| TcpServer.DeliveredOnce | tcp_server.py:14 | when each client is listed once, as a set iterates, the isolated delivery reaches each client at most once |
| TcpServer.BroadcastReachesOnce | tcp_server.py:155-166 | the intended broadcast of one report reaches each client at most once |
| TcpServer.BroadcastStep | tcp_server.py:147-166 | the oldest report is taken; it reaches only registered, live clients, at most once each, each as its own frame of that report, and every live registered client whose frame can be built receives it; this is the corrected broadcast (see Findings) |
| ControlLoop.FirstPattern | main.py:305-355 | the chosen pattern occurs in the command and no earlier pattern does |
| ControlLoop.Classify | main.py:305-355 | no branch iff no pattern occurs; a branch is taken iff its pattern occurs and every earlier one does not |
| ControlLoop.EmailOf | main.py:315 | the address is the text between the first `=` and the next `=` (or the end), stripped, and holds no `=` |
| ControlLoop.AddSubscriber | main.py:316-335 | after the command the address is on the list; a listed address is acknowledged as present and nothing changes; otherwise a row is appended, creating the file |
| ControlLoop.AddSubscriberIdempotent | main.py:318-335 | adding an address twice gives the list of adding it once |
| ControlLoop.Keep | main.py:340-351 | the rewritten list never holds the address, has one column per row, and is no longer than before |
| ControlLoop.KeepContents | main.py:344-346 | every non-empty row not naming the address survives as its first cell, and every surviving row is the first cell of some non-empty row |
| ControlLoop.KeepOthers | main.py:344-346 | on a one-column list without the address, rewriting changes nothing |
| ControlLoop.RemoveSubscriber | main.py:336-354 | a missing file is reported; otherwise the list is rewritten without the address and the removal acknowledged |
| ControlLoop.AddThenRemove | main.py:314-354 | removing after adding restores a one-column list that did not hold the address |
| ControlLoop.Dispatch | main.py:300-377 | a timeout or unknown command changes nothing; each recognised command pushes exactly one acknowledgement; only IR ON/OFF touch the LED, only the newsletter commands touch the list, reports never change; add and remove newsletter leave exactly the list and acknowledgement that `AddSubscriber` and `RemoveSubscriber` give for the command's address, and save image pushes the grab's acknowledgement |
| ControlLoop.DispatchAsWritten | main.py:300-377 | as written, exactly the newsletter commands raise `TypeError`; every other command behaves as the corrected dispatch |
| ControlLoop.NewsletterCommandCrashes | main.py:314-315 | an add-newsletter command always crashes the loop as written, while the corrected dispatch subscribes its address |
| ControlLoop.RemoveCommandUnsubscribes | main.py:336-354 | a remove-newsletter command always crashes the loop as written, while the corrected dispatch leaves an existing list without its address and reports a missing list |
| ControlLoop.KeepHasRow | main.py:344-346 | a non-empty row not naming the address survives the rewrite as its first cell |
| ControlLoop.KeepSourceRow | main.py:344-346 | every row the rewrite keeps is the first cell of a non-empty row that does not name the address |
| ControlLoop.ReportIr | main.py:379-382 | a report is pushed iff the LED differs from the remembered state, it carries the current state, and the state is remembered |
| ControlLoop.ReportIrIdempotent | main.py:379-382 | a second report pass without an LED change pushes nothing |
| ControlLoop.Pass | main.py:300-382 | after a pass the remembered state is the LED state and at most one report was appended |
| ControlLoop.IrOnReported | main.py:300-382 | switching the LED on by command is reported as ON in the same pass |
| ControlLoop.AutoOffStep | main.py:277-283 | the timer arms at `now + 300` when unarmed and the LED is on; it fires only after the deadline with the LED on, reporting OFF and disarming; with the LED off nothing changes |
| ControlLoop.NoEarlyAutoOff | main.py:277-280 | once armed, the timer does not switch the LED off within five minutes |
| ControlLoop.StaleDeadlineFiresAtOnce | main.py:277-283 | a deadline survives the LED being switched off by command, so the LED, switched on again later, goes off at the next pass |
| DeviceData.Lookup | main.py:175-186 | a key is absent iff no entry has it; a found value is stored under the key |
| DeviceData.MeasurementNames | main.py:169-171 | exactly the keys without `unit` or `location` in them are measurement names |
| DeviceData.Companion | main.py:178-189 | a tag comes from a companion key iff that key exists and holds a value, and carries that value |
| DeviceData.TagsFor | main.py:178-189 | the unit, location and type tags are present iff their companion keys hold values, with those values |
| DeviceData.PointsFor | main.py:173-190 | every point carries the stored, non-None value of a listed name, the measurement and its companion tags |
| DeviceData.Points | main.py:162-191 | no field name contains `unit` or `location`; every point carries its key's stored value, the chosen measurement (default `device`) and its tags |
| DeviceData.PointsForComplete | main.py:173-190 | every listed name holding a value gets its point |
| DeviceData.PointsComplete | main.py:162-191 | every measurement key holding a value in a dict becomes a point |
| DeviceData.NoneProducesNoPoint | main.py:176 | a None reading produces no point |
| DeviceData.SubstringExcludesKey | main.py:170 | the `unit` test is a substring test: a key such as `community` is never written |
| Radar.Activity | radar.py:225 | activity is the larger of the two presence scores |
| Radar.Valid | radar.py:226-230 | a frame is valid when presence is detected, the distance lies strictly inside the configured range and the activity reaches the minimum |
| Radar.Detect | radar.py:232-236 | the remembered validity follows the frame, and the event is set iff it was set or the frame is a rising edge |
| Radar.EventIffRisingEdge | radar.py:232-236 | over a run of frames the event is set iff it was set already or some frame is a false-to-true change of validity |
| Radar.Add | radar.py:257-268 | every frame counts once with its activity and temperature; distances count and add up only for valid frames, rates only when present; `presence_any` records any valid frame |
| Radar.FoldCounts | radar.py:257-268 | after a run of frames the counts are the number of frames, of valid frames and of rate readings, the sums are the total activity, the total distance of the valid frames and the total of the reported rates, and `presence_any` says whether any frame was valid |
| Radar.SampleStep | radar.py:225-268 | a sampler pass runs the edge detector, stores the frame as latest and adds it to the accumulator |
| Radar.SampleAllFold | radar.py:255-268 | a run of sampler passes accumulates the run and leaves its last frame as latest |
| Radar.WriterStep | radar.py:441-495 | before `next_write` nothing happens; otherwise the accumulator is reset and `next_write` advances one period; averages are stored iff the window counted frames and a latest frame exists, an empty average is None, and, in exact arithmetic, each average times its count is its sum |
| Radar.WindowAverages | radar.py:462-478 | a window's stored presence says whether any of its frames was valid, and its distance exists iff one was |
| Radar.WindowMeans | radar.py:462-478 | a window's stored distance is the total distance of its valid frames divided by their number, and its breathing rate the total of the reported rates divided by their number, in exact arithmetic; each is None when there is nothing to average |
| Radar.RadarRecord | radar.py:403-428 | the record has the nine fields in the source's order; only the breathing rate and the distance may be None, exactly when those averages are missing, and `motion` carries the window's presence |
| Radar.NoDistancePointWithoutPresence | radar.py:403-432 | a window without a valid frame writes no distance point |
| Radar.MailRound | radar.py:355-378 | mails go out in row order to the first column; the round completes iff every row got its mail; a blank row stops it, and so does a failing token, with the error the next row's address produced |
| Radar.MailRoundLinks | radar.py:359-364 | every mail sent carries the unsubscribe link built from its recipient's token |
| Radar.LastMailTime | radar.py:351-352 | an empty stamp line counts as 0; otherwise the stripped line is read as an integer or the callback fails |
| Radar.ImagePart | radar.py:315-343 | within an hour of the last grab nothing happens; otherwise the LED goes on; a grabbed frame whose upload raises ends the callback with the LED still on and the time moved; otherwise the LED goes off again and only a successful grab moves the last-image time |
| Radar.MailPart | radar.py:345-391 | a missing stamp file is created with `int(now)` and no mail goes out; an unreadable stamp fails the callback and nothing else; before a day has passed nothing happens; after it the round runs over the subscriber rows (none when the list is missing), a completed round overwrites the stamp with `int(now)`, and a failed one leaves the state as it was |
| Radar.MotionDetected | radar.py:303-343 | nothing happens while motion is blocked or the LED is on; otherwise the grab part runs, and the mail part runs only when the upload did not raise |
| Radar.FailedUploadSilencesCallback | radar.py:330-340 | an upload that raises ends the callback with the LED on, and the next callback then ignores motion |
| Radar.AtMostOneImagePerHour | radar.py:316-335 | after a successful grab no callback in the next hour grabs again |
| Radar.StripRender | radar.py:383-384 | the stamp written back has no surrounding whitespace |
| Radar.AtMostOneMailRoundPerDay | radar.py:349-385 | after a completed mail round no callback earlier than a day after the stored second sends mail |
| EmailToken.XorNatBound | encoding.py:12 | the XOR of two `k`-bit numbers has `k` bits |
| EmailToken.XorNatInvolution | encoding.py:12 | XOR with the same number undoes itself |
| EmailToken.XorCode | encoding.py:12 | `ord(a) ^ ord(b)` of two code points stays below 2^21, and may exceed U+10FFFF |
| EmailToken.XorCodeInvolution | encoding.py:12 | XOR-ing the result with the same key code point gives the original code point |
| EmailToken.ToText | encoding.py:18 | `encode()` succeeds iff there is no lone surrogate, and keeps every code point |
| EmailToken.ToTextOfCodes | encoding.py:18 | a Dafny string read as code points converts back to itself |
| EmailToken.Xor | encoding.py:9-12 | empty data gives empty output; an empty key fails iff there is data; each element is XOR-ed with key element `i mod len(key)`; `chr` fails iff some result exceeds U+10FFFF |
| EmailToken.XorInvolution | encoding.py:9-12 | the XOR transform with the same key is an involution |
| EmailToken.EncodeEmail | encoding.py:15-19 | an empty key fails iff the address is non-empty; a token exists iff the XOR succeeds and its output has no lone surrogate; an XOR error is passed on and a lone surrogate fails the UTF-8 encoding |
| EmailToken.DecodeEmail | encoding.py:22-26 | bad base64 iff the token does not decode; bad UTF-8 iff the decoded bytes are not UTF-8 |
| EmailToken.RoundTrip | encoding.py:15-26 | `decode_email(encode_email(e)) == e` whenever encoding succeeds |
| EmailToken.TokenIsAscii | encoding.py:18-19 | the token is ASCII text, fit for the unsubscribe URL |
| EmailToken.AsciiAddressHasToken | encoding.py:9-19 | an ASCII address under a non-empty ASCII key always gets a token |
| Camera.Init | camera.py:12-17 | at import the LED is off and motion is blocked for exactly ten seconds |
| Camera.TurnOn | camera.py:19-22 | switching on sets the LED and leaves the motion block alone |
| Camera.TurnOff | camera.py:24-28 | switching off clears the LED and blocks motion for exactly the next ten seconds |
| Camera.TurnOnIdempotent | camera.py:19-22 | switching on twice is switching on once, and an LED already on is unchanged |
| Camera.LedState | camera.py:31-34 | the reported LED state is the one the last switch left |
| MotionBlock.IgnoreFor | ignore_motion.py:5-8 | the block covers exactly `[now, now + seconds)`, whatever the previous block was |
| MotionBlock.Blocked | ignore_motion.py:10-14 | motion is ignored strictly before the end of the block |
| MotionBlock.InitialBlocksNothing | ignore_motion.py:2 | before any call no non-negative instant is blocked |
| MotionBlock.LaterCallOverwrites | ignore_motion.py:5-8 | a later call replaces the block instead of extending it, so a shorter duration ends a block early |
| SystemMonitor.FirstRoot | system_monitor.py:36-42 | the found line is a root line (at least six fields, the sixth `/`) and no earlier line is |
| SystemMonitor.RootIndex | system_monitor.py:36-42 | the header is skipped and the first root line after it is the one read |
| SystemMonitor.ReadDf | system_monitor.py:36-42 | without a root line the disk values stay; with one, size and used are fields 2 and 3 and the percent is field 5 without `%`, failing iff `float` rejects it; on that failure size and used have already been replaced and the percent keeps its previous value |
| SystemMonitor.HeaderIgnored | system_monitor.py:36 | the header line never affects the reading |
| SystemMonitor.FirstRootStable | system_monitor.py:38-42 | lines after the first root line never change which line is found |
| SystemMonitor.OnlyFirstRootLineCounts | system_monitor.py:36-42 | whatever follows the first root line, the reading is the same |
| SystemMonitor.PercentOfDf | system_monitor.py:41 | a percentage printed as digits and `%` reads as that number |
| SystemMonitor.GuardRate | system_monitor.py:61-64 | a rate becomes None iff it is negative, and is kept otherwise |
| PyText.ContainsIff | main.py:305 | `pat in s` holds iff `pat` occurs at some position of `s` |
| PyText.Strip | radar.py:351 | `strip()` is a run of the text between its leading and trailing whitespace, and neither starts nor ends with whitespace |
| PyText.StripIdempotent | radar.py:351 | stripping twice strips nothing more |
| PyText.StripUnpadded | radar.py:351 | text without surrounding whitespace is its own `strip()` |
| PyText.SplitWhitespaceFields | system_monitor.py:37 | `split()` gives non-empty fields without whitespace whose concatenation is the text minus its whitespace |
| PyText.FirstIndex | main.py:315 | the position of the first separator: every earlier character differs from it, and the character there is the separator unless the position is the end of the text |
| PyText.SplitFirst | main.py:315 | the first piece of `split` is the text before the first separator, and the other pieces are the split of the text after it |
| PyText.SplitJoin | main.py:315 | `split(sep)` gives one more piece than separators, no piece holds the separator, and joining gives the text back |
| PyText.RemoveChar | system_monitor.py:41 | `replace(c, "")` leaves no `c` and is shorter by the number of occurrences |
| PyText.RemoveAbsentChar | system_monitor.py:41 | removing an absent character changes nothing |
| Decimal.RenderNat | radar.py:384 | `str(n)` of a natural number is a non-empty digit string without a leading zero |
| Decimal.Render | radar.py:384 | `str(n)` starts with `-` iff `n` is negative |
| Decimal.ValueOfRender | radar.py:384 | the digits `str` writes denote the number |
| Decimal.ParseInt | radar.py:352 | `int` accepts only an optional sign followed by digits, and reads digits as their value |
| Decimal.ParseRender | radar.py:352 | `int(str(n)) == n` for every integer |
| Decimal.ParseReal | system_monitor.py:41 | `float` of a digit string is its value |
| Decimal.ParseRealOfRender | system_monitor.py:41 | `float(str(n)) == n` for every natural number |

## Left out

- AES itself, base64, the random IV source and `dotenv`: library calls. The model takes them as parameters constrained by the laws the libraries guarantee.
- Sockets, threads, locks, `time.sleep` and the 0.25 s polling rhythm. A connection is driven by a sequence of rounds, and a wait by a sequence of polls. Concurrency between the threads is not modelled.
- The broadcaster's blocking wait for a report: a step takes the oldest report if there is one.
- `run_server`, `CommandServer.__init__` and the `__main__` blocks: wiring only.
- The database client, `ffmpeg`, the image upload, the mail reporter and all file I/O. Their outcomes are parameters: whether the grab succeeded, whether the upload returned normally, the subscriber rows, the stamp file's first line.
- `audio_stream.py` and `image_upload.py` are not part of this model.
- The sensor reads and `store_sensor_data` in `main.py`. These are hardware readings and another database call.
- The CPU, memory and temperature readings of `system_monitor.py`, and the rate division itself. Only the guard against negative rates is modelled.
- The `df` subprocess, `decode` and `splitlines`: the reader starts from the lines.
- The GPIO writes of `camera.py` and the 0.1 s sleep in `get_ir_led_state`: hardware side effects.
- The HTML of the mail body beyond the recipient and the unsubscribe link.
- The radar processor and the debug logging. The processor's per-frame output is the `Radar.Reading` parameter.
- Decimal.ParseInt: accepts only ASCII digits. Python's `int` also accepts underscores between digits, surrounding whitespace and other Unicode decimal digits (`int("٣") == 3`). The model's caller strips first, as the source does.
- Decimal.ParseReal: does not accept exponents, `inf`, `nan`, underscores or whitespace. `df` prints none of these.
- EmailToken.DecodeEmail: returns code points rather than a Dafny string, because a Python `str` may hold lone surrogates that a Dafny `char` cannot.
- ControlLoop.AutoOffStep: uses one clock reading per pass, where the source reads the clock twice. The two readings are microseconds apart.
- Cipher.Decrypt: uses one clock reading `now` for both window bounds and for pruning. The source reads `time.time()` separately at encryption.py:44, 45 and 31, so a stamp at a window edge could in principle be judged against slightly different times.
- Cipher.IsNonceUsed: prunes against the caller's `now`. The source's pruning reads the clock again (encryption.py:31).
- Radar.MotionDetected: uses one `now` both for the motion-block test and for the hourly image timer. The source reads the clock inside `are_we_still_blocked` and again at radar.py:313.
- DeviceData.Lookup: a Python dict is a sequence of pairs and the first entry with a key is the one read. `DeviceData.IsDict` states the dict's uniqueness where a lemma needs it.
- ControlLoop.Dispatch: assumes the upload after `[CMD] save image` returns normally. As written, an upload that raises after the acknowledgement escapes the `except` clauses and ends the control loop (main.py:369-372).
- Radar.MailPart: assumes `send_mail` returns normally; a mail that fails to send is not modelled.
- TcpServer.Send: uses the corrected encryption of Findings row 1. It differs from the code as written only on non-ASCII text, where the written `encrypt_message` raises. `TcpServer.Reply`, `TcpServer.Authenticate` and the command round inherit this.
- TcpServer.ReportFrame: uses the corrected encryption as well; `TcpServer.ReportFrameAsWritten` is the frame as written, and `TcpServer.ReportFrameAgreesOnAscii` shows the two agree on ASCII reports.
- Python floats are modelled as exact `real` numbers: `time.time()`, the radar scores, distances, temperatures and breathing rates, their sums and averages, and the disk percentage. Rounding, NaN and infinities are not modelled. In the source a NaN score makes a frame invalid, because the comparison at radar.py:229 is false; the model has no such score.
- Radar.WriterStep: "each average times its count is its sum" holds in exact arithmetic only. With Python floats, `1.0 / 49 * 49` is `0.9999999999999999`.
- Radar.WindowMeans: the division is exact. The source's float division rounds.
- Cipher.EncryptAsWritten: its own contract states only the alignment consequence. Its behaviour is pinned down by `Cipher.EncryptAsWrittenAgreesOnAscii` and `Cipher.EncryptAsWrittenRejectsNonAscii`.

## Findings

| source | as written | input that shows it | evidently intended | confidence | as-written member | corrected member |
|---|---|---|---|---|---|---|
| encryption.py:9 | `pad` counts characters of the `str` and appends `chr(n)`; the padded text is UTF-8 encoded afterwards, so a non-ASCII message yields bytes that are not a whole number of AES blocks and `encrypt` raises | message `"é"`: padded to 16 characters, which encode to 17 bytes | pad the encoded bytes, so every message can be sent | not executed | Cipher.EncryptAsWritten (shown by Cipher.EncryptAsWrittenRejectsNonAscii and Padding.PadTextMisalignsNonAscii) | Cipher.Encrypt (proved by Cipher.RoundTrip and Padding.UnpadPad) |
| main.py:315 | `cmd_string.split(b'=')` splits a `str` by a `bytes` separator, which raises `TypeError`; `except queue.Empty` does not catch it, so the control loop ends | command `"[CMD] add newsletter=a@b.ch"` (the same holds for remove at line 337) | split by `'='` and use the stripped address | not executed | ControlLoop.DispatchAsWritten (shown by ControlLoop.NewsletterCommandCrashes and ControlLoop.RemoveCommandUnsubscribes) | ControlLoop.Dispatch (proved by ControlLoop.AddSubscriber, ControlLoop.RemoveSubscriber, ControlLoop.AddThenRemove and ControlLoop.RemoveCommandUnsubscribes) |
| tcp_server.py:155-166 | one `try` wraps the whole `for` loop over the clients, so the first client whose send raises ends the loop and the later clients miss the report | clients `[a, b]` where only `b` is alive: nobody receives the report | skip a failing client and keep sending to the rest | not executed | TcpServer.Broadcast (shown by TcpServer.BroadcastAbortsAfterFailure) | TcpServer.BroadcastIsolated |

In the third finding, the intended behaviour and the code disagree. `TcpServer.Broadcast` models the code as written, both its single `try` and its frames built by the written `encrypt_message`. The broadcaster step, `TcpServer.BroadcastStep`, uses the intended `TcpServer.BroadcastIsolated` with frames built by the corrected encryption.
