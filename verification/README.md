# zpinger and testserver: protocol models and proofs

`zpinger` pings servers in the protocols they speak; `testserver` holds a small peer for each protocol.
The substance of both is a set of hand-written wire codecs and short handshakes. This project models
them in Dafny, joins each client with its peer, and proves what the pair does on every input, for every
way the bytes are cut into pieces and, for the two byte-stream protocols with a dialogue, for every
schedule.

| file | models |
|---|---|
| `Bytes.dfy`, `Streams.dfy`, `Headers.dfy` | bytes, results, the byte stream with a free scheduler, the empty line that ends a header |
| `Duplex.dfy` | two sequential processes joined by two bounded channels, and why one complete schedule settles all of them |
| `Varint.dfy`, `MqttFrame.dfy`, `MqttClient.dfy`, `MqttBroker.dfy`, `MqttSystem.dfy` | the MQTT length, packets, the client session, the broker session, and both joined |
| `RtmpFill.dfy`, `Rtmp.dfy` | the C1 block, the RTMP handshake on both sides, and both joined |
| `Dns.dfy`, `Stun.dfy`, `Turn.dfy` | the datagram codecs, each with its responder |
| `Regex.dfy`, `Uri.dfy` | a backtracking matcher with ordered choice, the URI expression, the URI object and its printer |
| `Hls.dfy`, `HlsFetch.dfy` | playlist scanners, reference resolution, the HTTP body splitter |
| `Rtsp.dfy` | the RTSP status reader and the responder's fixed-buffer reader |

## How to read the model

- **Streams.** A `Stream` has the bytes the peer will still deliver, a flag saying whether the stream then
  ends or breaks, and the number of bytes (`room`) that can still be written before a write fails. `Read`
  and `Write` move an arbitrary non-empty piece, so a contract about the whole stream holds for every
  fragmentation. A ghost trace records each byte read and written, in order; the contract of a session
  method gives that trace completely, failing runs included.
- **Systems.** A process is a deterministic step function over single bytes; the scheduler is free, and a
  burst moves any number of bytes at once. The moves of the two processes commute (`Duplex.Net.Diamond`),
  so a single complete schedule determines the length and the end of every run
  (`Duplex.Net.OneRunIsEnough`). `AlwaysEnds(x, end, n)` says: no run from `x` takes more than `n` byte
  moves, a run is stuck exactly when it has arrived at `end` and exactly when it has made `n` moves, and
  every unfinished run can be continued to `end`; `n` minus the moves made is the measure that decreases.
  `SessionIsARun`, `BrokerSessionIsARun`, `HandshakeIsARun` and `ServeIsARun` tie the step functions to
  the methods written in the form of the source: on the same stream and write limit the trace of the
  method is a maximal run of the process, and there is only one such run
  (`Duplex.MaximalRunIsUnique`).
- **Numbers.** Lemmas named `...InNumbers`, `...AsText` and `...Spells` say what the codecs mean in plain
  bytes, codes and characters, without the constants and helper functions that the operations use.
- **Integers.** Bytes and 16-bit words are bounded integers, so masks and shifts appear as `%` and `/`. The
  xorshift words are 32-bit vectors. `saturating_mul` and the `as u16` and `as u8` casts are written out.
- **Text.** URIs and HLS references are ASCII. DNS names and HTTP headers are bytes.

## What turned out not to hold everywhere

- A CONNECT body of 2^28 bytes or more is framed with a fifth length digit, which no reader accepts; from
  there on no schedule lets the session succeed (`MqttSystem.SucceedsExactlyBelowTheBound`).
- `build_connect` cuts the length of the client id to 16 bits; a server following the specification reads
  back exactly the ids below 65536 bytes (`MqttClient.ConnectRoundTrip`).
- `get_url(get_uri(u)) == u` fails without a scheme, for an empty query or fragment after its mark, and for
  a newline in the fragment, and in no other case (`Uri.PrintsBackIff`, a condition on the text of `u`;
  `Uri.LostAfterScheme` and `Uri.LostWithoutScheme` give URLs for each case).
- Resolving a reference drops the user name and password of the base. If the path of the base follows the
  port without a slash and goes on to an '@', as in `http://u:p@h:80a@b/x`, the domain then comes back as a
  user name and the rest of the path as the host (`Hls.ResolvedParses`, `Hls.HidingBase`). The host text
  may happen to be the same again, so the exact statement is about the whole record.
- The comment above `find_error_code` (zpinger/src/turn.rs:121) puts the class in the high three bits of its
  byte; the code takes the low three, as RFC 5389 section 15.6 does, and the model follows the code. The
  code does not check that the number is below 100, so 401 has three spellings (`Turn.CodeRoundTrip`).
- The RTMP client does not compare S2 with its C1; that they are equal is a property of the joined system
  only (`Rtmp.AlwaysSucceeds`).

## Model

| member | source | states |
|---|---|---|
| `Varint.EncodeVarint` | zpinger/src/mqtt.rs:262-276 | The loop produces the base-128 digits, least significant first, with a continuation bit on all but the last. |
| `Varint.DigitsLength` | zpinger/src/mqtt.rs:262-276 | An encoding has at most k digits exactly for numbers below 128^k. |
| `Varint.RoundTripIff` | zpinger/src/mqtt.rs:284-306 | Whatever follows, the four-digit reader gives back n and the length of its encoding exactly when n < 2^28, and refuses the encoding as too long exactly from 2^28 on. |
| `Varint.AcceptedForms` | zpinger/src/mqtt.rs:284-306 | A string is read as n in `used` bytes exactly when it starts with n written with that many digits, zero digits filling up; these padded forms are all that is accepted. |
| `Varint.EncoderIsShortest` | zpinger/src/mqtt.rs:262-306 | Among all strings read as n the encoder's output is the shortest and the only one of its length; a longer one is known by a zero last digit. |
| `Varint.LengthBound` | zpinger/src/mqtt.rs:284-302 | No accepted length exceeds 268435455. |
| `MqttFrame.FrameRoundTrip` | zpinger/src/mqtt.rs:278-307 | A framed packet followed by any bytes is read back, with those bytes left over, exactly when its body is under 2^28 bytes; otherwise the length is refused. |
| `MqttFrame.FramesRoundTrip` | zpinger/src/mqtt.rs:278-307 | Concatenating any list of packets with bodies under 2^28 bytes and reading repeatedly recovers that list and goes on with what follows. |
| `MqttFrame.ReadBody` | zpinger/src/mqtt.rs:293-296 | The body is exactly the announced number of bytes from the position reached, or an error with everything consumed. |
| `MqttFrame.ReaderTakes` | zpinger/src/mqtt.rs:278-307 | Fed one byte at a time a reader wants exactly the bytes of the first packet (or five of a bad length, or all of an unfinished packet) and knows the outcome right after the last of them. |
| `MqttClient.BuildConnect` | zpinger/src/mqtt.rs:231-260 | The pushes and extends build the frame of the CONNECT body, whose length prefix counts exactly what follows it. |
| `MqttClient.ConnectRoundTrip` | zpinger/src/mqtt.rs:231-260 | A parser of the CONNECT grammar (MQTT 3.1.1 and MQTT 5.0 section 3.1) recovers level, flags, keepalive and client id and consumes every byte for exactly the ids below 65536 bytes, and rejects the body for all longer ones. |
| `MqttClient.ConnectReadBack` | zpinger/src/mqtt.rs:231-260 | The same after framing and with any bytes behind the packet. |
| `MqttClient.ConnectInNumbers` | zpinger/src/mqtt.rs:231-260 | The CONNECT body byte by byte: 00 04 and the name MQTT, level 4 or 5, flags 02, the keepalive, in MQTT 5.0 an empty property list, the id behind its length; the packet type is 1. |
| `MqttClient.ReadRemaining` | zpinger/src/mqtt.rs:285-303 | The accumulator loop agrees with the length grammar on every stream and every fragmentation, takes exactly the bytes the grammar takes, and never yields more than 268435455. |
| `MqttClient.NextDigit` | zpinger/src/mqtt.rs:287-302 | One round of the loop: the accumulator stays below 128 to the number of digits, the multiplier at most 2^28, and the value still to come is unchanged. |
| `MqttClient.ReadPacket` | zpinger/src/mqtt.rs:278-307 | On every stream and every fragmentation it returns the packet the grammar finds, or the error that fits (the stream's own if it ends too early), and leaves exactly the rest unread. |
| `MqttClient.ReadRest` | zpinger/src/mqtt.rs:285-306 | The reader from the length on, with the same contract told from its position in the stream. |
| `MqttClient.RunSession` | zpinger/src/mqtt.rs:191-223 | Ok exactly when the server's bytes start with an accepted CONNACK followed by an accepted PINGRESP and CONNECT and PINGREQ could be written; otherwise the error of the first thing that goes wrong, told from the packet grammar; the trace of reads and writes is given for every run, failing ones included. |
| `MqttClient.VerdictOkIff` | zpinger/src/mqtt.rs:209-222 | The grammar's verdict is Ok exactly when both answers are there and both messages could be written. |
| `MqttClient.AnswersInNumbers` | zpinger/src/mqtt.rs:309-342 | Of two framed packets of any types and bodies, exactly those are accepted as answers whose first has type 2, two or more bytes and a second byte of zero, and whose second has type 13 and no body; stated in numbers, without the validators. |
| `MqttClient.VerdictInNumbers` | zpinger/src/mqtt.rs:209-223 | What a session returns for any two framed packets, in numbers: a refused CONNACK, a refused PINGRESP, or Ok. |
| `MqttClient.ConnectAndPing` | zpinger/src/mqtt.rs:210-222 | The session with the CONNECT packet built: result and whole trace. |
| `MqttClient.AwaitAnswer` | zpinger/src/mqtt.rs:212-222 | The session from the CONNACK on: result, errors included, and whole trace. |
| `MqttClient.PingAndDisconnect` | zpinger/src/mqtt.rs:215-222 | The session from the PINGREQ on: result, errors included, and whole trace; a failed DISCONNECT does not change the result. |
| `MqttClient.SessionOutput` | zpinger/src/mqtt.rs:191-223 | In every run what was written is the session's script, cut off where writing starts to fail. |
| `MqttClient.ScriptParts` | zpinger/src/mqtt.rs:209-222 | The script is a prefix of CONNECT, PINGREQ, DISCONNECT, with PINGREQ only after an accepted CONNACK and DISCONNECT only after an accepted PINGRESP. |
| `MqttClient.ScriptInNumbers` | zpinger/src/mqtt.rs:209-222 | What is sent after CONNECT is C0 00, and then E0 00. |
| `MqttClient.SessionIsARun` | zpinger/src/mqtt.rs:191-223 | The trace of every session is the one maximal run of the byte-at-a-time client on the same stream and write limit (at its end the client halts, waits with the input used up, or sends with no room), and that run succeeds exactly when the session does. |
| `MqttBroker.ReadRemaining` | testserver/src/lib.rs:335-349 | The broker's length loop agrees with the same grammar as the client's. |
| `MqttBroker.ReadMqttPacket` | testserver/src/lib.rs:332-354 | The broker's reader satisfies the very contract of the client's: the two agree on every byte stream. |
| `MqttBroker.ReadRest` | testserver/src/lib.rs:335-349 | The broker's reader from the length on, with the same contract told from its position. |
| `MqttBroker.ReadKind` | testserver/src/lib.rs:363-369 | The kind of the packet at the start of the stream, or none, with exactly that packet taken. |
| `MqttBroker.HandleSession` | testserver/src/lib.rs:360-397 | For every finite stream the session terminates, with its whole trace given. |
| `MqttBroker.Greet` | testserver/src/lib.rs:371-396 | Once a CONNECT is in: CONNACK and the loop, with the whole trace. |
| `MqttBroker.Loop` | testserver/src/lib.rs:375-396 | The loop terminates and adds exactly the events of the remaining packets. |
| `MqttBroker.Round` | testserver/src/lib.rs:375-396 | One round either ends the session or shortens the input and leaves the rest of the trace to the next round. |
| `MqttBroker.Pong` | testserver/src/lib.rs:381-386 | The answer to a PINGREQ either ends the session or leaves the rest of the trace to the next round. |
| `MqttBroker.SessionOutput` | testserver/src/lib.rs:360-397 | The broker writes nothing, or CONNACK and exactly as many PINGRESPs as PINGREQ packets follow the CONNECT without a break, cut off where writing fails. |
| `MqttBroker.AnswerInNumbers` | testserver/src/lib.rs:360-397 | To frames whose first has type 1, followed by n of type 12 and then none of type 12, the answer is 20 02 00 00 and n times D0 00; to any other first frame nothing. |
| `MqttSystem.BrokerSessionIsARun` | testserver/src/lib.rs:360-397 | The trace of every broker session is the one maximal run of the byte-at-a-time broker on the same stream and write limit, and the packets it has recorded at the end are exactly those in the bytes it has read. |
| `MqttSystem.OneSchedule` | zpinger/src/mqtt.rs:191-223 | A complete schedule of 2·CONNECT + 20 byte moves exists for every capacity of at least 1. |
| `MqttSystem.AlwaysSucceeds` | zpinger/src/mqtt.rs:191-223 | Client and broker, both versions, any capacity of at least 1, any interleaving and fragmentation, CONNECT body under 2^28 bytes: never stuck early, every run is exactly 2·CONNECT + 20 byte moves long and ends with the client Ok and the broker having taken in exactly CONNECT, PINGREQ, DISCONNECT. |
| `MqttSystem.FinishInNumbers` | zpinger/src/mqtt.rs:191-223 | The end state in bytes: CONNECT, C0 00, E0 00 one way and 20 02 00 00, D0 00 the other. |
| `MqttSystem.ChannelsAreBounded` | zpinger/src/mqtt.rs:191-223 | In every reachable state no channel holds more bytes than its capacity. |
| `MqttSystem.SucceedsExactlyBelowTheBound` | zpinger/src/mqtt.rs:231-276 | Some schedule lets the client succeed if and only if the CONNECT body is under 2^28 bytes. |
| `RtmpFill.BuildC1` | zpinger/src/rtmp.rs:185-211 | The in-place loop writes the time, four zero bytes and exactly 382 words, each the xorshift successor of the one before, filling the array. |
| `RtmpFill.StepInjective` | zpinger/src/rtmp.rs:202-204 | The xorshift step on 32-bit words is injective and only zero leads to zero. |
| `RtmpFill.StepIsLinear` | zpinger/src/rtmp.rs:202-204 | The step is linear over exclusive or, so its values on single bits determine it. |
| `RtmpFill.StepOfBits` | zpinger/src/rtmp.rs:202-204 | The 32 values on single bits, as literals; with linearity they fix the step on every word. |
| `RtmpFill.Be32Spells` | zpinger/src/rtmp.rs:205 | The four bytes spell the word, the most significant first. |
| `RtmpFill.C1Header` | zpinger/src/rtmp.rs:191-195 | The block starts with the time in big-endian order and four zero bytes, whatever is filled in later. |
| `RtmpFill.C1Word` | zpinger/src/rtmp.rs:199-209 | The k-th word of the fill is the k-fold successor of the clock, in big-endian order. |
| `RtmpFill.FillDiffers` | zpinger/src/rtmp.rs:185-211 | A word of the fill is zero exactly when the clock is zero; two blocks agree in any one word exactly when their clocks are equal. |
| `Rtmp.RunHandshake` | zpinger/src/rtmp.rs:138-179 | Ok exactly when the server's version is 3, at least 3073 bytes arrive and 3073 bytes can be written; each error has its exact condition: the wrong version, a failed write, or the end of the server's stream; the trace is given for every run. |
| `Rtmp.ReadAnswer` | zpinger/src/rtmp.rs:150-173 | S0, S1 and S2 are taken to the byte, or only the version byte if it is wrong, and S1 is kept; the two errors are told apart exactly. |
| `Rtmp.FinishHandshake` | zpinger/src/rtmp.rs:150-178 | The handshake from the first read on: result with exact error conditions, and whole trace. |
| `Rtmp.AnsweredInNumbers` | zpinger/src/rtmp.rs:150-173 | The answers taken are those of 3073 bytes or more that start with a 3. |
| `Rtmp.HandshakeOutput` | zpinger/src/rtmp.rs:138-179 | In every run the client writes C0, C1 and, only after a whole S0, S1, S2, the S1 it was sent. |
| `Rtmp.HelloInNumbers` | zpinger/src/rtmp.rs:142-148 | In every run the first 1537 bytes written are a 3 and C1, as far as there was room. |
| `Rtmp.HandshakeIsARun` | zpinger/src/rtmp.rs:138-179 | The trace of every handshake is the one maximal run of the byte-at-a-time client on the same stream and write limit; it succeeds exactly when the handshake does, holding the S2 that was read, and fails exactly on another version. |
| `Rtmp.Serve` | testserver/src/lib.rs:693-719 | For any S1 the connection body has exactly the given trace, and receives a C2 exactly when 3073 bytes starting with version 3 arrive and its answer can be written. |
| `Rtmp.SendReply` | testserver/src/lib.rs:706-717 | S0, S1, S2 are written before C2 is read; the C2 received is the next 1536 bytes. |
| `Rtmp.ServeIsARun` | testserver/src/lib.rs:693-719 | The trace of every connection is the one maximal run of the byte-at-a-time server, which ends holding exactly the C2 that the connection body has received, or none. |
| `Rtmp.AlwaysSucceeds` | zpinger/src/rtmp.rs:138-179 | For every C1, S1, capacity of at least 1 and interleaving the handshake is never stuck early, takes exactly 4·3073 byte moves, and ends with the client Ok, the server's C2 equal to its S1, the client's S2 equal to its C1, and 3073 bytes sent each way. |
| `Dns.EncodeName` | zpinger/src/dns.rs:131-158 | Succeeds exactly for names that, trimmed of trailing dots, have only labels of 1 to 63 bytes and at most 253 bytes; the output is two bytes longer than the trimmed name; otherwise the error is that of the first bad label, or of the length. |
| `Dns.Trim` | zpinger/src/dns.rs:132 | What is cut off is bytes 2E and nothing else, and what is left does not end in one. |
| `Dns.TrailingDots` | zpinger/src/dns.rs:131-158 | A name with any number of dots appended is good exactly when the name is, and encodes as it does. |
| `Dns.LabelsOfJoin` | zpinger/src/dns.rs:134 | Splitting at the dots recovers any list of labels from their text. |
| `Dns.NameRoundTrip` | zpinger/src/dns.rs:131-158 | A decoder of RFC 1035 section 3.1 names recovers the labels and the encoded length whatever follows, and the labels joined by dots are the trimmed name. |
| `Dns.BuildQuery` | zpinger/src/dns.rs:160-175 | Succeeds exactly on the same names; the packet is the header and the question, 18 bytes longer than the trimmed name. |
| `Dns.QueryInNumbers` | zpinger/src/dns.rs:160-175 | The query byte by byte, with the number of each record type (RFC 1035 sections 3.2.2 and 4.1.1, RFC 3596 section 2.1). |
| `Dns.PrefixFree` | zpinger/src/dns.rs:160-175 | A buffer that starts with two question encodings starts with one: same type, same name up to trailing dots. |
| `Dns.AcceptedIff` | zpinger/src/dns.rs:177-224 | Accepted are exactly the buffers with the id, the response bit, return code 0, question count 1 and the question of the request right behind the header. |
| `Dns.RefusalsInNumbers` | zpinger/src/dns.rs:177-224 | Each of the seven refusals has its exact condition on the bytes, in the order of the checks. |
| `Dns.AnswersOneQuery` | zpinger/src/dns.rs:177-224 | One buffer accepted for two queries forces equal ids, equal record types and equal names up to trailing dots. |
| `Dns.Respond` | testserver/src/lib.rs:243-249 | A datagram of at least 12 bytes is sent back with only the response bit set and the return code cleared; nothing else in the buffer changes; shorter ones get no reply. |
| `Dns.SetTopBit` | testserver/src/lib.rs:245 | The top bit is set and the other seven are kept. |
| `Dns.ClearLowNibble` | testserver/src/lib.rs:246 | The low four bits are cleared and the high four are kept. |
| `Dns.ResponderIsAccepted` | testserver/src/lib.rs:241-252 | Every query fits 271 bytes and both buffers, and the responder's reply to it is accepted. |
| `Stun.BuildHeader` | zpinger/src/stun.rs:127-138 | The four in-place copies fill the 20 bytes with type, length, magic cookie and transaction id. |
| `Stun.BuildMessage` | zpinger/src/stun.rs:114-124 | The header carries the length of the attributes that follow it. |
| `Stun.HeaderInNumbers` | zpinger/src/stun.rs:127-138 | The header byte by byte, and that of a Binding request and response. |
| `Stun.AcceptedIff` | zpinger/src/stun.rs:166-195 | Accepted are exactly the buffers that start with the header for the expected type and transaction and some length, which is not checked. |
| `Stun.RefusalsInNumbers` | zpinger/src/stun.rs:166-195 | Each of the four refusals has its exact condition on the bytes, in the order of the checks. |
| `Stun.Respond` | testserver/src/lib.rs:570-584 | A datagram of at least 20 bytes gets a success header with its own cookie and transaction id; only the first four bytes of the buffer change, and none for a shorter datagram. |
| `Stun.ReplyAcceptedIff` | testserver/src/lib.rs:564-591 | The reply to a request fits the client's buffer and is accepted by a client waiting for a transaction exactly when that is the transaction asked for. |
| `Turn.FindErrorCode` | zpinger/src/turn.rs:124-155 | The loop computes the recursive walk on arbitrary bytes, never leaves the body, and ends because the body shrinks by a positive multiple of four. |
| `Turn.WalkList` | zpinger/src/turn.rs:124-155 | On the encoding of any attribute list, with arbitrary padding bytes, the walk gives the code of the first ERROR-CODE, an error if its value is under 4 bytes, and goes on to what follows if there is none. |
| `Turn.WalkUnpaddedEnd` | zpinger/src/turn.rs:148-152 | The same when the padding of the last attribute is left out, wholly or in part. |
| `Turn.SkippedIsPrefix` | zpinger/src/turn.rs:124-155 | Any bytes are a list of padded attributes without ERROR-CODE followed by a rest that decides the outcome. |
| `Turn.FoundIff` | zpinger/src/turn.rs:124-155 | A code is found exactly in the bytes made of padded attributes of other types and then an ERROR-CODE attribute carrying that code. |
| `Turn.OverrunIff` | zpinger/src/turn.rs:131-135 | The walk reports an overrun exactly in bytes made of padded attributes of other types and then an attribute that announces more than is left. |
| `Turn.TooShortIff` | zpinger/src/turn.rs:136-141 | It reports a short ERROR-CODE exactly in bytes made of padded attributes of other types and then an ERROR-CODE of under four bytes. |
| `Turn.CodeRoundTrip` | zpinger/src/turn.rs:142-146 | The code gives back class and number exactly when the number is below 100; 401 comes from exactly three pairs. |
| `Turn.BuildRequestedTransport` | zpinger/src/turn.rs:91-98 | The array is the encoding of a REQUESTED-TRANSPORT attribute with the UDP number and three zero bytes. |
| `Turn.RequestInNumbers` | zpinger/src/turn.rs:91-98 | The Allocate request byte by byte: type 3, and attribute 0019 with protocol 17. |
| `Turn.AcceptedIff` | zpinger/src/turn.rs:107-119 | Accepted are exactly the messages with an Allocate error header for the transaction whose attributes carry 401 as first error code. |
| `Turn.RefusalsIff` | zpinger/src/turn.rs:107-119 | Each refusal has its exact condition: of the header, of the walk, no code, another code than 401. |
| `Turn.Respond` | testserver/src/lib.rs:604-630 | The in-place writes produce an Allocate error header with the request's cookie and transaction id and one well-formed ERROR-CODE attribute. |
| `Turn.ReplyAcceptedIff` | testserver/src/lib.rs:598-636 | The 28-byte reply fits the client's buffer and is accepted by a client waiting for a transaction exactly when that is the transaction asked for. |
| `Regex.StarIsGreedy` | zpinger/src/uri.rs:36 | Under ordered choice a repetition takes the whole run if what follows can match there. |
| `Regex.StarThenChar` | zpinger/src/uri.rs:36 | A captured repetition followed by a character outside its class matches only with the whole run: nothing is ever given back. |
| `Regex.ClassesInNumbers` | zpinger/src/uri.rs:36 | The classes `\w`, `\d` and `.` over ASCII, as ranges of codes. |
| `Uri.ClassesOfParts` | zpinger/src/uri.rs:36 | The bracketed classes of the expression, character by character. |
| `Uri.MatchIsOnePass` | zpinger/src/uri.rs:36-38 | The expression matches every input, and the backtracking matcher's preferred match equals one left-to-right split without backtracking into an earlier part. |
| `Uri.Uri.Default` | zpinger/src/uri.rs:17-31 | The fields of the default object: all empty, port 0, path "/". |
| `Uri.Uri.Parse` | zpinger/src/uri.rs:34-78 | Never fails, and leaves every field as the one-pass split says. |
| `Uri.Uri.Assign` | zpinger/src/uri.rs:39-74 | The nine assignments set all fields from the captures, replacing what was there. |
| `Uri.Uri.GetUrl` | zpinger/src/uri.rs:80-96 | The step-by-step construction gives the printed form of the fields. |
| `Uri.GetUri` | zpinger/src/uri.rs:162-169 | A fresh object holding the fields of the split; for a URL with a scheme, a domain and a port its port is the number that the digits spell by place value. |
| `Uri.PortOfUrl` | zpinger/src/uri.rs:58-61 | A URL with a port parses exactly when there is a digit and the number is at most 2147483647, and the port is then that number. |
| `Uri.DecimalIsPlaceValue` | zpinger/src/uri.rs:59 | The digits are read as the sum of digit times power of ten. |
| `Uri.DecimalOfAppended` | zpinger/src/uri.rs:59 | The law of decimal notation for digits followed by digits. |
| `Uri.Reassembles` | zpinger/src/uri.rs:36-74 | The captures with their separators, and what is left unmatched, spell the input: nothing is lost or reordered. |
| `Uri.PrintsBackIff` | zpinger/src/uri.rs:34-96 | Printing what was parsed gives the URL back exactly when, read as text, it begins with a scheme and `://`, its first '?' before any '#' is followed by a query, and its first '#' by a fragment without a newline. |
| `Uri.SurvivesIff` | zpinger/src/uri.rs:36-74 | That condition on the text is the condition on the split: a scheme, no empty query or fragment, nothing left over. |
| `Uri.LostAfterScheme` | zpinger/src/uri.rs:34-96 | Behind any scheme an empty query, an empty fragment and a fragment with a newline parse and are not given back. |
| `Uri.LostWithoutScheme` | zpinger/src/uri.rs:34-96 | Any path, query or fragment without a scheme, the empty text included, parses and is not given back. |
| `Uri.ParsesBack` | zpinger/src/uri.rs:34-96 | Parsing a printed well-formed record with a rooted or empty path gives back every field. |
| `Headers.FindTerminator` | zpinger/src/rtsp.rs:192-195 | The first position of CRLFCRLF, or none if there is none. |
| `Headers.TerminatorInNumbers` | zpinger/src/rtsp.rs:192-195 | The terminator is 13, 10, 13, 10. |
| `Headers.FoundInPrefix` | zpinger/src/rtsp.rs:178-181 | A terminator found in what has been read is the first one of the whole stream. |
| `Headers.PrefixDecided` | zpinger/src/rtsp.rs:178-183 | Once a terminator or enough bytes are in, the part read tells whether the whole starts with a text without CR. |
| `Hls.FirstVariantUrl` | zpinger/src/hls.rs:114-128 | The nested loops over one iterator return the first non-blank, non-'#' line with a line `#EXT-X-STREAM-INF...` somewhere before it, trimmed, or nothing if there is none. |
| `Hls.FirstSegmentUrl` | zpinger/src/hls.rs:132-145 | The same for `#EXTINF...` lines. |
| `Hls.LinesOfUnlines` | zpinger/src/hls.rs:115 | The line splitter reads back any lines closed by a newline or by CR and newline. |
| `Hls.LastLine` | zpinger/src/hls.rs:115 | A last line need not be closed, and keeps a CR. |
| `Hls.TrimIs` | zpinger/src/hls.rs:120-121 | Trimming removes white space only, at both ends, and leaves none there. |
| `Hls.TagIff` | zpinger/src/hls.rs:117 | A tag line is white space, the tag and anything. |
| `Hls.SpacesInNumbers` | zpinger/src/hls.rs:120-121 | White space is 25 characters, one by one. |
| `Hls.AbsoluteIsKept` | zpinger/src/hls.rs:154-156 | A reference that begins with http or https is taken as it is, whatever the base. |
| `Hls.AbsoluteReferences` | zpinger/src/hls.rs:154-156 | No other reference is. |
| `Hls.ResolvedText` | zpinger/src/hls.rs:153-182 | The three branches all give scheme, host and the joined path. |
| `Hls.ResolvedParses` | zpinger/src/hls.rs:153-182 | For every base with a host and every reference that is not absolute, the result parses to the same host, domain and port, the same scheme or http, no user, and the joined path up to any '?' or '#', if and only if the base hides no user: not (a reference that is not rooted, a domain of word characters, and a base directory whose leading word characters are followed by '@'). Otherwise the domain comes back as a user name. |
| `Hls.ResolvedScheme` | zpinger/src/hls.rs:157-162 | The result begins with the scheme of the base and `://`, or with `http://` if the base has no scheme. |
| `Hls.RootedIsKept` | zpinger/src/hls.rs:153-182 | With an empty or rooted base path everything is always kept. |
| `Hls.HidingBase` | zpinger/src/hls.rs:153-182 | Bases that hide a user exist for every user, password, domain and port, and every path such as `@/` behind the port. |
| `Hls.ResolvedIsAbsoluteIff` | zpinger/src/hls.rs:153-182 | Resolving a reference that is not absolute fails exactly when the base has no host; the result is absolute exactly when the base's scheme is http, https or missing, and then resolving it again against anything returns it unchanged. |
| `HlsFetch.FetchResponseBody` | zpinger/src/hls.rs:260-299 | For every fragmentation the result is the one verdict on the whole response: the body behind the first empty line if the header is UTF-8 with an HTTP 200 or 206 status line, otherwise the error of the first check that fails; a failed write and a connection that breaks are told apart. |
| `HlsFetch.ReadToEnd` | zpinger/src/hls.rs:268-276 | The loop collects exactly the stream, however it is cut up. |
| `HlsFetch.Body` | zpinger/src/hls.rs:278-298 | The checks reach the verdict on the response. |
| `HlsFetch.Splits` | zpinger/src/hls.rs:278-281 | The first separator parts a response into header and body. |
| `HlsFetch.PartedOnce` | zpinger/src/hls.rs:278-281 | There is only one way to part a response into a header that its first empty line ends, and a body. |
| `HlsFetch.JudgedOnce` | zpinger/src/hls.rs:260-299 | There is only one verdict on a response. |
| `HlsFetch.BodyComesBack` | zpinger/src/hls.rs:278-298 | A header whose first empty line is its end, that is UTF-8 and has an accepted status, in front of any body: the verdict is exactly that body. |
| `HlsFetch.ContainsIff` | zpinger/src/hls.rs:292 | A line contains a text exactly when it is something, the text, something. |
| `HlsFetch.StatusInText` | zpinger/src/hls.rs:292 | Accepted lines hold ` 200 ` or ` 206 `, as text. |
| `HlsFetch.EncodedIsValid` | zpinger/src/hls.rs:283-284 | Every UTF-8 encoding of a text passes the check. |
| `HlsFetch.ValidIsEncoded` | zpinger/src/hls.rs:283-284 | Whatever passes the check is the UTF-8 encoding of a text. |
| `Rtsp.ValidateResponse` | zpinger/src/rtsp.rs:167-190 | For every stream and every fragmentation into reads of at most 256 bytes the verdict is that the whole stream starts with the status prefix; a broken connection is an error exactly if not enough was seen before; fewer than 4096 + 256 bytes are buffered. |
| `Rtsp.Accumulate` | testserver/src/lib.rs:651-665 | The fixed buffer holds exactly what was read and zeros behind it, and the loop stops with success exactly when a terminator lies in the first 1024 bytes. |
| `Rtsp.Serve` | testserver/src/lib.rs:651-674 | What is written depends on the request alone: the response exactly when the request starts with `OPTIONS ` and its header ends within 1024 bytes. |
| `Rtsp.RequestIsAnswered` | zpinger/src/rtsp.rs:153-163 | Any request built for a host and port that fits 1024 bytes is answered, and the answer is accepted. |
| `Rtsp.RequestAsText` | zpinger/src/rtsp.rs:153-163 | The request as text, around the domain and the port. |
| `Rtsp.ShowSpells` | zpinger/src/rtsp.rs:154 | The port is written in decimal digits that spell it, without a leading zero. |
| `Rtsp.ResponseAsText` | testserver/src/lib.rs:669-674 | The answer as text, line by line. |

## Left out

- TLS, QUIC, gRPC and WebSocket pingers: their protocols live in libraries outside the repository.
- Sockets, name lookup, timeouts, threads and accept loops: replaced by streams, channels and datagrams.
- Clocks and random ids: the client id, the transaction ids, the DNS id and the C1 time are inputs.
- Command line, MCP server, output and summaries, `http.rs`, `level4.rs`, `ntp.rs`: only single-branch facts.
- The three-step flow of the HLS `ping`, `endpoint_for` and `build_get`: they compose what is proved here and would add only easy members.
- Error messages, and the kinds of I/O error beyond three: an end that comes too early, a connection that breaks, a write that fails.
- `Uri.Uri.Parse`: requires a port that is non-empty and within i32 if a ':' follows the domain, because the source panics otherwise (`http://host:`); characters are ASCII, because the expression's character classes are Unicode classes.
- `Uri.ParsesBack`: requires a user name and a password or neither, and components without the separators that would end them early, because other records are not printed unambiguously.
- `Hls.ResolvedParses`: bases for which the source panics are excluded; an IPv6 literal is split at its first colon, as in the source.
- `Stun.BuildMessage`: requires attributes under 65536 bytes, because the source panics otherwise.
- `Stun.AcceptedIff`: says nothing about the message length field, because the source does not read it.
- `Rtsp.RequestIsAnswered`: the host is any byte string, and the version in the user agent is that of the crate.
- `MqttClient.ReadPacket`: a `usize` is 64 bits wide, and the buffer for the body can always be allocated.
- Long source functions are split into helper methods (`ReadRemaining`, `ReadRest`, `ReadBody`, `ReadKind`, `ConnectAndPing`, `AwaitAnswer`, `PingAndDisconnect`, `Greet`, `Round`, `Pong`, `ReadAnswer`, `SendReply`, `Accumulate`), each with its own contract.
