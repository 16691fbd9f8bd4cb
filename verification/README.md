# Verified model of the pluggable transports

A Dafny model of the stateful core of this pluggable-transport suite, with proofs of what
that core is for. `dafny verify dfyconfig.toml` checks the whole project.

## What is modelled

- **The obfs4 data channel** (`Bytes`, `Framing`, `Sealing`, `Environment`, `Codec`, `Carrier`,
  `Stream`, `Tunnel`).
  A stream cuts writes into frames, seals each under a counter nonce behind a masked length,
  pads bursts to sampled lengths and drains them through a carrier that schedules burst
  sizes. The peer decodes incrementally and parks what does not fit the caller's buffer.
  `Framing` gives the meaning on values; `EncryptingCodec`, `IatCarrier` and `O4Stream` are
  the objects that change in place, each method proved against that meaning. The central
  theorem, `Tunnel.Session`, is that a client and a server are two plain byte pipes, one each
  way, at every moment of every run of calls at both ends.
- **Vose's alias tables** (`AliasTables`). Two queues and three arrays are rewritten in
  place; a conserved mass per column makes the tables exact over the reals.
- **The service lifecycle** (`Lifecycle`, `LifecycleProofs`, `LifecycleRuns`). Accept loops, permits, the task
  set, the abort registry, two cancellation tokens, the driver and the drop guard form a
  transition system whose steps are single lock operations, token reads and awaits. A run is
  any interleaving; the results hold in every state of every run.
- **Replay filter and hello** (`ReplayFilter`, `ClientHello`). A set and a queue answer as the
  full history would, and a hello is accepted at most once, also when clock readings reach
  the filter out of order.
- **Argument strings and bridge lines** (`Args`, `ArgsCodec`, `BridgeLine`). Escaping grammars
  with exact round trips and compositionality; the loops are proved against the grammars.
- **Server configuration** (`ServerConfig`). A memoised resolution that is persisted without
  overwriting foreign changes, through failures that publish without being durable.
- **WebTunnel scanner and budgets** (`HeaderBoundary`, `ConnectBudget`).

## How the outside world appears

- Cryptography is a parameter. A `Cipher` is any pair of seal and open with
  `open(n, seal(n, p)) == Some(p)`, a 16-byte tag, a 16-byte nonce prefix and a generator of
  16-bit masks; `PlainSuite` shows the laws consistent. HMAC and SipHash are functions, as
  are the JSON form of a state file and the text form of a socket address.
- The transport and the timer below a stream are scripts of answers, one used up by each
  question: take that many bytes, wait, or fail. A stall or an error of a call is proved to
  have been told during that call, and with no such answer the call goes on. Reads hand over
  any prefix of the bytes in flight.
- Sampled lengths and random draws are sequences or functions of draws; results say which
  draw is used for what. What the file system answers, what other writers do and which step
  the scheduler takes are arguments as well; clock readings too.
- Times in `ConnectBudget` are nanoseconds and timers fire on time.

## Where a promise needs a condition

- The encoders lose an empty key or an empty value list. `Args.RoundTrip` proves that a bag
  comes back exactly when it has neither.
- The bare SMETHOD round trip fails for a bag whose first key starts with `ARGS:`, since the
  parser strips the prefix; `Args.BareSmethodFails` gives one. `Args.BareSmethodRoundTrip`
  proves it holds exactly when the encoding does not begin with `ARGS:`.
- A replay is refused while the filter's clamped time is at most 27 hours ahead of the hello:
  REPLAY_TTL less the three hours in which a MAC verifies (`ClientHello.AcceptedAtMostOnce`).
- A connect budget of 5(n-1) seconds or less can leave an address without an attempt;
  `ConnectBudget.BudgetIsExact` proves the threshold in both directions.
- Alias tables are exact when the weights have a positive sum. With all weights zero the
  division gives not-a-number, both work queues' comparisons are false, and every column is
  left at probability 0; `AliasTables.BuildTables` states that case as well.

## Model

| member | source | states |
|---|---|---|
| `Tunnel.Session` | crates/obfs4/src/proto.rs:357-870 | a whole session in both directions, in any mix of IAT modes, from key material on: the server may write before the client has read its hello, the client may over-read any part of that, then both ends make any calls in any order over any partial writes and any cut of the wire. The log has one fitting event per call; at every moment what an end has returned is a prefix of what the other has accepted, and all of it once nothing is unsent or in flight and the last read came back empty; the bytes of each direction are the wire image of frames that carry exactly what was accepted; a client that over-read the hello starts from the server's length seed |
| `Tunnel.Run` | crates/obfs4/src/proto.rs:589-870 | any interleaving of writes, flushes, shutdowns and reads at both ends keeps both pipes at every moment and keeps the log's account of each end |
| `Tunnel.Step` | crates/obfs4/src/proto.rs:589-870 | one logged call at either end keeps both streams valid, both wires conserved and both pipes |
| `Tunnel.Exchange` | crates/obfs4/src/proto.rs:589-870 | a call moves bytes to and from the peer, loses none on either wire and leaves the peer alone |
| `Tunnel.CallAt` | crates/obfs4/src/proto.rs:589-870 | any call at one stream: what it accepts is a prefix of its buffer, what it returns fits its room, bytes received and left are conserved, nothing sent is taken back, no scheduled burst changes its target; a read that returns nothing has nothing left to return |
| `Tunnel.PipedAtAnyMoment` | crates/obfs4/src/proto.rs:808-870 | the pipe property of a log holds after each of its events |
| `Tunnel.DirectionConveys` | crates/obfs4/src/proto.rs:589-870 | received, in-flight and unsent bytes of a direction are the wire image of frames carrying exactly what was accepted, and the reader has returned a prefix of what the received part decodes to, all of it when quiet |
| `Tunnel.DrainedDirection` | crates/obfs4/src/proto.rs:589-870 | nothing unsent, nothing in flight and a quiet reader: everything accepted has been returned |
| `Tunnel.SeedIsShared` | crates/obfs4/src/proto.rs:443-462 | a client that has handled anything from a server shapes from the server's length seed, and its delay seed is that seed's digest |
| `Tunnel.HelloSetsSeed` | crates/obfs4/src/proto.rs:389-417 | a client that has received the whole hello and handled what it received has the server's seed |
| `Tunnel.WireDecodes` | crates/obfs4/src/framing/codecs.rs:193-425 | every prefix of what a sender has put on the wire, hello included, decodes without error to a beginning of what it enqueued |
| `Tunnel.OpenServer` | crates/obfs4/src/handshake/handshake_server.rs:163-180 | a server's hello ends with exactly the wire image of its length seed, its encoder stands after that frame, and its stream starts with nothing accepted |
| `Tunnel.OpenClient` | crates/obfs4/src/proto.rs:357-418 | a client may have over-read any prefix of the hello and the data frames after it: seeding never fails, and the payload among it is parked as if it had arrived first |
| `Tunnel.Establish` | crates/obfs4/src/proto.rs:357-418 | a server that has already made calls and a client that joins late form a pair with all bytes accounted for |
| `Tunnel.RunEarly` | crates/obfs4/src/proto.rs:589-742 | what the server does before the client joins is logged, and it has nothing to return |
| `Tunnel.DeliveredIsPrefixOfAccepted` | crates/obfs4/src/proto.rs:808-870 | in every reachable pair of states the decoder has not failed and delivered is a prefix of accepted |
| `Tunnel.DrainedPipeDeliversAll` | crates/obfs4/src/proto.rs:808-870 | nothing buffered, nothing in flight and the reader stalled: delivered equals accepted |
| `Framing.FragmentationIndependence` | crates/obfs4/src/framing/codecs.rs:193-307 | for arbitrary bytes, honest or not, and every split into chunks, decoding chunk by chunk gives the same messages, the same first error, the same decoder state and the same leftover as one whole buffer |
| `Framing.DecodeAllExtend` | crates/obfs4/src/framing/codecs.rs:193-307 | decoding `a` to exhaustion and continuing with `b` is decoding `a + b`; after an error later bytes change nothing |
| `Framing.DecodeExtend` | crates/obfs4/src/framing/codecs.rs:193-307 | one decode call on a longer buffer: the same result if it returned, the continuation if it asked for more |
| `Framing.StepExtend` | crates/obfs4/src/framing/codecs.rs:199-306 | one round of the decode loop looks only at the bytes it needs |
| `Framing.DecodeInvertsEncode` | crates/obfs4/src/framing/codecs.rs:193-425 | for every run of well-formed plaintexts the decoder returns exactly the delivered messages, no error, an empty buffer, and stands at the encoder's counter and mask state |
| `Framing.CatchUpOneFrame` | crates/obfs4/src/framing/codecs.rs:193-425 | a caught-up receiver is caught up again after one more frame |
| `Framing.DecodeOneFrame` | crates/obfs4/src/framing/codecs.rs:193-425 | one frame decodes to its message, or to nothing for padding and unknown types, and both ends stay in step |
| `Framing.FrameRoundTrip` | crates/obfs4/src/framing/codecs.rs:205-425 | every accepted length passes the range check after unmasking, opens under the same counter and gives the plaintext back, whatever bytes follow |
| `Framing.LengthUnmasks` | crates/obfs4/src/framing/codecs.rs:392-403 | masking, two big-endian bytes and unmasking give the length back |
| `Framing.OversizedLeaveNoTrace` | crates/obfs4/src/framing/codecs.rs:369-382 | over any run, oversized encodes change neither counter, mask state nor output: the run equals the run without them |
| `Framing.NonceOfFrame` | crates/obfs4/src/framing/codecs.rs:454-476 | frame i of a session is sealed under counter i + 1 |
| `Framing.NoncesDistinct` | crates/obfs4/src/framing/codecs.rs:454-476 | no two frames of a session share a nonce |
| `Framing.NonceInjective` | crates/obfs4/src/framing/codecs.rs:464-472 | prefix and big-endian 64-bit counter: equal nonces mean equal counters |
| `Framing.AuthFailureIsSticky` | crates/obfs4/src/framing/codecs.rs:263-289 | after an authentication failure, or a frame too short for a header, every later decode on every extension of the buffer fails in the same way and leaves the decoder unchanged |
| `Framing.FailureKeepsFrame` | crates/obfs4/src/framing/codecs.rs:263-289 | such a failure keeps the length and nonce of the frame and its bytes in the buffer |
| `Framing.HonestPrefix` | crates/obfs4/src/framing/codecs.rs:193-307 | on every prefix of an honest stream the decoder reports no error and only a prefix of the messages sent |
| `Framing.PayloadFrameParses` | crates/obfs4/src/framing/codecs.rs:26-67 | a payload frame of 1 to 1427 bytes parses to exactly its payload |
| `Framing.PaddingFrameParses` | crates/obfs4/src/framing/codecs.rs:70-110 | a padding frame of any length parses to that padding |
| `Framing.SeedFrameParses` | crates/obfs4/src/framing/messages_v1/mod.rs:98-149 | a 24-byte seed message parses to that seed |
| `Framing.LayoutParses` | crates/obfs4/src/framing/messages_v1/mod.rs:98-149 | every type, declared length and body: what the message comes to, and exactly which are rejected and how |
| `Framing.EncoderAccepts` | crates/obfs4/src/framing/codecs.rs:369-425 | a frame is produced exactly for what fits one while the counter lasts; what is too long is refused with its length |
| `Framing.WireLayout` | crates/obfs4/src/framing/codecs.rs:369-425 | the wire of n frames is, in order, for each its length under the mask of its own generator step and its plaintext sealed under its own counter |
| `Framing.BadLengthIsRejected` | crates/obfs4/src/framing/codecs.rs:208-240 | an unmasked length outside the encodable range is rejected at once, with two bytes and one counter used up |
| `Framing.ForgeryIsRejected` | crates/obfs4/src/framing/codecs.rs:263-289 | a complete frame that does not open is an error that consumes nothing |
| `Framing.ItemsAreAuthentic` | crates/obfs4/src/framing/codecs.rs:263-307 | every message handed out was opened by the cipher and parsed from what it opened to |
| `Sealing.AcceptedSnoc` | crates/obfs4/src/framing/codecs.rs:26-110 | a data frame extends the application bytes by exactly its payload; padding and seeds leave them as they were |
| `Sealing.ContinuesSealable` | crates/obfs4/src/framing/codecs.rs:26-110 | everything a session seals fits its frames |
| `Sealing.PlaintextParses` | crates/obfs4/src/framing/messages_v1/mod.rs:98-149 | each kind of frame a stream seals is well formed and parses back to exactly its message, padding to none |
| `Sealing.MessagesCarry` | crates/obfs4/src/proto.rs:424-441 | the messages of a run of frames carry exactly its application bytes |
| `Sealing.SealedDecodes` | crates/obfs4/src/framing/codecs.rs:193-425 | the peer decodes a whole run to exactly its messages and any beginning of its bytes to a beginning of them, without error |
| `Sealing.HonestMessages` | crates/obfs4/src/handshake/handshake_server.rs:163-180 | a seed frame followed by data and padding delivers that seed and then nothing but payload |
| `Sealing.SeedInForce` | crates/obfs4/src/proto.rs:443-462 | any non-empty beginning of such messages leaves that seed in force |
| `Sealing.SeedArrives` | crates/obfs4/src/proto.rs:389-417 | whoever has received all of a seed frame has decoded something |
| `Framing.DecodedPayloadNonEmpty` | crates/obfs4/src/framing/messages_v1/mod.rs:98-149 | a payload handed out by the decoder is never empty, so an empty read means there was none |
| `Framing.MessagesGrow` | crates/obfs4/src/framing/codecs.rs:193-307 | later bytes add messages after those already decoded |
| `Framing.ContentAppend` | crates/obfs4/src/proto.rs:424-441 | the application bytes of two runs of messages are the concatenation of each run's |
| `Bytes.XorTwice` | crates/obfs4/src/common/drbg.rs:212-220 | masking twice with the same mask is the identity at every width |
| `Bytes.XorBits` | crates/obfs4/src/framing/codecs.rs:392-403 | the masked length has, digit by digit, 0 where length and mask agree and 1 where they differ |
| `Bytes.BigEndianRoundTrip` | crates/obfs4/src/framing/codecs.rs:464-472 | big-endian bytes of every number that fits give the number back |
| `Bytes.BigEndianDigit` | crates/obfs4/src/framing/codecs.rs:464-472 | the most significant byte comes first: byte i is the digit of its own weight |
| `Codec.EncryptingCodec.Encode` | crates/obfs4/src/framing/codecs.rs:369-425 | appends exactly the specified frame and advances counter and mask, or on either error changes neither state nor output |
| `Codec.EncryptingCodec.Decode` | crates/obfs4/src/framing/codecs.rs:193-307 | the decode loop over next length, next nonce and buffer returns the specified outcome, state and rest |
| `Codec.EncryptingCodec.NextEncoderNonce` | crates/obfs4/src/framing/codecs.rs:454-476 | gives the nonce of the current counter and consumes it, or reports the wrap and consumes nothing |
| `Codec.EncryptingCodec.constructor` | crates/obfs4/src/framing/codecs.rs:122-135 | counters start at 1 and both mask generators at their seeds |
| `Carrier.IatCarrier.PollWrite` | crates/obfs4/src/proto.rs:103-165 | a new burst gets the target min(buffered, 1448), in Paranoid mode the next draw between 1 and 1448, and keeps it until the bytes taken make it up exactly; a draw larger than the buffer requests padding and does nothing else; otherwise the answer is the timer's while it runs and then the transport's to exactly the bytes offered, an exact prefix is taken, the count comes off what is left of the burst, and the timer is armed exactly when the burst ends and shutdown was not requested; everything written is the scheduled targets, each in full, less what is left of the last |
| `Carrier.IatCarrier.Schedule` | crates/obfs4/src/proto.rs:112-128 | a running burst keeps its target; otherwise the target is min(buffered, 1448), or in Paranoid mode the next draw clamped to 1..=1448, which is put on the schedule or, when more than is buffered, recorded as a padding request |
| `Carrier.IatCarrier.Advance` | crates/obfs4/src/proto.rs:148-163 | what is left falls by exactly the bytes written, the burst ends exactly at 0, and only then is the timer armed |
| `Carrier.IatCarrier.WriteScheduled` | crates/obfs4/src/proto.rs:138-164 | exactly what is left of the running burst, or all of the buffer if that is less, is offered; the answer is the transport's and the count comes off the burst |
| `Carrier.IatCarrier.ScheduleDraw` | crates/obfs4/src/proto.rs:113-122 | exactly one draw is used; it is the target, scheduled if the buffer covers it and requested as padding otherwise |
| `Carrier.IatCarrier.Transfer` | crates/obfs4/src/proto.rs:103-165 | what the sink above relies on: bytes move in order, bursts are only appended, and a stall, a refusal or an error was told by timer or transport during this call |
| `Carrier.IatCarrier.InnerPollWrite` | crates/obfs4/src/proto.rs:143-147 | the transport's next answer decides: it takes a prefix of what is offered, stalls or fails |
| `Carrier.IatCarrier.PollFlush` | crates/obfs4/src/proto.rs:167-176 | flushes once an armed timer has fired; success is told by the transport and covers everything sent |
| `Carrier.IatCarrier.PollEnd` | crates/obfs4/src/proto.rs:178-180 | relays the transport's answer to the shutdown and remembers success |
| `Carrier.IatCarrier.PollDelay` | crates/obfs4/src/proto.rs:130-136 | no write goes on while a timer is armed and is not said to have fired; it is asked only when armed |
| `Carrier.IatCarrier.PaddingAdded` | crates/obfs4/src/proto.rs:79-83 | the wanted burst is put on the schedule only when it equals the buffered bytes; otherwise none is |
| `Carrier.IatCarrier.TakePadTarget` | crates/obfs4/src/proto.rs:75-77 | hands the request over once |
| `Carrier.IatCarrier.ClearDelay` | crates/obfs4/src/proto.rs:70-73 | disarms the timer and remembers the shutdown |
| `Carrier.IatCarrier.constructor` | crates/obfs4/src/proto.rs:51-68 | starts with no burst, no request and no timer |
| `Carrier.PadBurstArithmetic` | crates/obfs4/src/proto.rs:466-498 | for every burst length and every target up to 1448: at most two frames, each within the encoder's limit, and the padded length is congruent mod 1448 to the target when the gap is 0 or exceeds 21, to target + 21 otherwise |
| `Carrier.PaddedBufferSuffices` | crates/obfs4/src/proto.rs:500-526 | a buffer shorter than the wanted target is padded to exactly the target or to at least a whole segment, so no second request follows |
| `Carrier.BurstLengthByFrames` | crates/obfs4/src/proto.rs:631-700 | a write cut into full frames and a last one occupies 1448 bytes per full frame plus the last frame with its 21-byte overhead |
| `Carrier.BurstOfWrite` | crates/obfs4/src/proto.rs:632-710 | the running count of burst bytes is the burst length of the write at every frame |
| `Stream.O4Stream.PollWrite` | crates/obfs4/src/proto.rs:589-742 | below the flush boundary a non-empty write to an open stream without a stored error is accepted with no I/O before it: Ok(n) with n > 0, all of a buffer that fits one frame, unless an error with its cause is stored; Pending only with a full buffer and a sink that was told to wait. Ok(n) means exactly buf[..n] was enqueued in order, short of the whole only where the sink stalled; Pending and Err mean none of it was; an error stored was told by the transport or is the end of the nonces. Outside Paranoid mode the frames produced are one burst of n bytes padded to exactly the next draw; nothing sent is taken back and no scheduled burst changes its target |
| `Stream.FitsOneFrame` | crates/obfs4/src/proto.rs:612-741 | whatever answers a ready sink gives, a buffer that fits one frame is accepted whole or the error is stored |
| `Stream.O4Stream.BecomeReady` | crates/obfs4/src/proto.rs:612-625 | a sink below the boundary is ready and leaves everything as it is; a refusal needs a full buffer and its cause |
| `Stream.O4Stream.PadToDraw` | crates/obfs4/src/proto.rs:666-678 | the burst ends at exactly the next draw of the length distribution |
| `Stream.O4Stream.WriteAll` | crates/obfs4/src/proto.rs:528-534 | writes until the buffer is empty or says why not: a stall, an error or a write of nothing, each answered by timer or transport |
| `Stream.O4Stream.WriteFrames` | crates/obfs4/src/proto.rs:626-742 | the answer to a write: the accepted prefix, the stored error, and one padded burst, on every exit path |
| `Stream.O4Stream.WriteFullFrames` | crates/obfs4/src/proto.rs:632-700 | full frames while more than one is left: either an answer, or the prefix enqueued and the burst so far counted exactly |
| `Stream.O4Stream.WriteFullFrame` | crates/obfs4/src/proto.rs:635-700 | one full frame, then either the loop goes on or the call ends with the whole prefix accepted and its burst padded |
| `Stream.O4Stream.WriteLastFrame` | crates/obfs4/src/proto.rs:704-741 | the rest in one frame and the padding of the whole burst |
| `Stream.O4Stream.SendRange` | crates/obfs4/src/proto.rs:639-659 | a range is enqueued as one frame, or nothing is and the error is stored and reported with the prefix |
| `Stream.O4Stream.RefusedFrame` | crates/obfs4/src/proto.rs:643-658 | an error after some bytes reports the prefix, before any byte the error; non-retryable errors are stored |
| `Stream.O4Stream.AwaitReady` | crates/obfs4/src/proto.rs:664-699 | when the sink takes no more, for a cause, the burst so far is padded once to the next draw or the error is stored |
| `Stream.O4Stream.PadAfterBackpressure` | crates/obfs4/src/proto.rs:666-678 | unless the carrier pads for itself, the burst ends at exactly the next draw; application bytes are untouched |
| `Stream.O4Stream.PollWithIat` | crates/obfs4/src/proto.rs:500-582 | ready, flush and close serve padding requests without touching application bytes; readiness below the boundary is immediate; any other stall or error was told by timer or transport or is the end of the nonces; a flush that succeeds has everything sent and flushed; the loop ends because between two requests the carrier completes a write |
| `Stream.O4Stream.PollRound` | crates/obfs4/src/proto.rs:504-525 | one round ends, or a served request makes progress: a write was completed, or no further request can follow before one is |
| `Stream.O4Stream.ServeRequest` | crates/obfs4/src/proto.rs:509-521 | a request is served once and only in Paranoid mode; without one the sink stays stalled |
| `Stream.O4Stream.WriteOut` | crates/obfs4/src/proto.rs:528-534 | what the carrier takes leaves the buffer, in order, and the wire image is kept |
| `Stream.O4Stream.ServePadding` | crates/obfs4/src/proto.rs:510-521 | after a served request the target equals the buffered bytes, or none is scheduled and a whole segment is buffered |
| `Stream.O4Stream.PadTo` | crates/obfs4/src/proto.rs:510-521 | the buffer reaches exactly the wanted length or a whole segment |
| `Stream.O4Stream.PadBurst` | crates/obfs4/src/proto.rs:466-498 | the buffer grows by exactly the padding frames; application bytes are untouched |
| `Stream.O4Stream.PollFlushFramed` | crates/obfs4/src/proto.rs:528-534 | drains the buffer through the carrier losing and reordering nothing; a padding request before any completed write happens only with no burst running and less than a segment buffered |
| `Stream.O4Stream.PollSink` | crates/obfs4/src/proto.rs:500-582 | readiness below the boundary leaves buffer, wire and schedule as they are; at the boundary, and for flush and close always, the buffer is written out |
| `Stream.O4Stream.StartSend` | crates/obfs4/src/proto.rs:639-642 | one payload frame is appended with its 21-byte overhead, or nothing changes |
| `Stream.O4Stream.EnqueuePadding` | crates/obfs4/src/proto.rs:488-494 | one padding frame is appended, carrying no application bytes |
| `Stream.O4Stream.Enqueue` | crates/obfs4/src/framing/codecs.rs:369-425 | what was sent and what waits stays the wire image of all plaintexts enqueued |
| `Stream.SenderEnqueues` | crates/obfs4/src/framing/codecs.rs:369-425 | the sender invariant survives one more frame |
| `Stream.OpeningInv` | crates/obfs4/src/handshake/handshake_server.rs:163-180 | a stream made after the seed frame was sealed starts in the sender invariant |
| `Stream.O4Stream.Settle` | crates/obfs4/src/proto.rs:752-764 | retryable errors become Pending, others are stored |
| `Stream.O4Stream.PollSettled` | crates/obfs4/src/proto.rs:744-801 | a flush or close that succeeds leaves nothing unsent, one that fails leaves its error stored |
| `Stream.O4Stream.PollFlush` | crates/obfs4/src/proto.rs:744-765 | success means nothing is left unsent and everything sent is flushed; a stall or a new error was told by timer or transport or is the end of the nonces; a stored error is reported again; no application byte is added |
| `Stream.O4Stream.PollShutdown` | crates/obfs4/src/proto.rs:767-801 | completes exactly when the transport is shut down with everything sent; a stall or a new error was told; a stored error is reported; from the first attempt on the carrier arms no further delay |
| `Stream.O4Stream.PollRead` | crates/obfs4/src/proto.rs:808-870 | returns at most the room given, in order, and all the room when more is parked; when it returns no bytes everything that decodes out of the bytes received has been returned; a stall was told by the transport, an error was told by it or is the first failure to decode the whole stream and comes after all messages before it, and the end of the stream is reported only if the transport told it; seeds are followed |
| `Stream.O4Stream.ReadMessages` | crates/obfs4/src/proto.rs:829-869 | the message loop: padding and seeds are skipped, the first payload is returned and is not empty, bytes received and left are conserved, and no end is reported with messages undelivered |
| `Stream.O4Stream.Deliver` | crates/obfs4/src/proto.rs:849-868 | delivered plus parked bytes are the content of the messages handled |
| `Stream.O4Stream.StashPayload` | crates/obfs4/src/proto.rs:424-430 | returned and parked parts make up the message; all the room is used or nothing is parked |
| `Stream.O4Stream.DrainResidual` | crates/obfs4/src/proto.rs:434-441 | returned and remaining parts make up the parked bytes; all the room is used or nothing remains |
| `Stream.O4Stream.HandleNonPayload` | crates/obfs4/src/proto.rs:443-462 | a seed re-seeds a client's length distribution, and its delay distribution with the digest of the seed; nothing else does |
| `Stream.O4Stream.PollNext` | crates/obfs4/src/proto.rs:829-846 | messages come out in decoding order and no byte is lost; the end of the stream is reported only when the transport told it, and never for a failed read; a stall or an error was told or is the decoder's; either way nothing decodable is left |
| `Stream.O4Stream.DecodePhase` | crates/obfs4/src/proto.rs:829-846 | what the buffer yields by itself: a message, its first error, or the end of the stream, the last only with everything received handled |
| `Stream.O4Stream.DecodeBuffered` | crates/obfs4/src/framing/codecs.rs:193-307 | one decode call keeps the account of received bytes and handled messages |
| `Stream.O4Stream.Receive` | crates/obfs4/src/proto.rs:829-846 | a chunk of any size extends what was received and buffered by exactly its bytes |
| `Stream.ReaderReceives` | crates/obfs4/src/framing/codecs.rs:193-307 | the reader's account survives a chunk of any size |
| `Stream.ReaderDecodes` | crates/obfs4/src/framing/codecs.rs:193-307 | the reader's account survives one decode call; its failure is the failure of the whole stream |
| `Stream.ReaderDrained` | crates/obfs4/src/framing/codecs.rs:193-307 | a stalled decoder has handled everything that was received |
| `Stream.O4Stream.SeedFromHandshake` | crates/obfs4/src/proto.rs:389-417 | over-read bytes are parked as exactly the content they decode to, with exactly the error of decoding them, and the reader continues as if they had arrived later |
| `Stream.O4Stream.ParkNext` | crates/obfs4/src/proto.rs:406-415 | one seeded message is parked or handled |
| `Stream.O4Stream.Park` | crates/obfs4/src/proto.rs:408-414 | parked bytes and seeds follow the messages handled |
| `Stream.O4Stream.constructor` | crates/obfs4/src/proto.rs:357-403 | starts in both invariants with nothing accepted, sent, received or delivered |
| `AliasTables.BuildTables` | crates/obfs4/src/common/probdist.rs:163-224 | for all non-negative weights with positive sum the tables are exact: prob[i] plus the sum of 1 - prob[j] over alias[j] = i is n*w[i]/sum; all prob in [0,1], all alias in range; of all exact tables they are those of pairing the oldest small with the oldest large column; with zero sum all entries are 0 |
| `AliasTables.FirstInFirstOut` | crates/obfs4/src/common/probdist.rs:307-321 | the queues are first in, first out: the weights 1, 4, 2, 1 give the aliases 1, 0, 1, 2 and the probabilities 1/2, 1, 1/2, 1/2 |
| `AliasTables.PairAll` | crates/obfs4/src/common/probdist.rs:195-220 | the three loops give the tables of first-in-first-out pairing, and every column's mass is its scaled weight |
| `AliasTables.InnerWeightedDist.GenTables` | crates/obfs4/src/common/probdist.rs:163-224 | the object's tables are exact for its weights |
| `AliasTables.Fill` | crates/obfs4/src/common/probdist.rs:173-220 | from scaled weights of average one, the two queues and three arrays end with each column's mass equal to its scaled weight |
| `AliasTables.Round` | crates/obfs4/src/common/probdist.rs:195-208 | one round in place keeps the loop invariant and settles the oldest small column with the oldest large one |
| `AliasTables.RoundKeeps` | crates/obfs4/src/common/probdist.rs:195-208 | settling the first small column against the large one keeps mass, excess, queue membership and ordering |
| `AliasTables.StepKeepsTables` | crates/obfs4/src/common/probdist.rs:195-208 | what a column loses its alias gains: the conserved mass of every column is unchanged |
| `AliasTables.LeftoverKeepsTables` | crates/obfs4/src/common/probdist.rs:210-220 | filling a leftover of exactly 1 keeps every column's mass |
| `AliasTables.LeftoversAreOnes` | crates/obfs4/src/common/probdist.rs:210-220 | when a queue runs empty no small column is left and every large one is exactly 1 |
| `AliasTables.Finish` | crates/obfs4/src/common/probdist.rs:210-220 | after both leftover loops every column is settled |
| `AliasTables.AllSmall` | crates/obfs4/src/common/probdist.rs:210-220 | unsettled columns that are all below 1 have negative excess unless there are none |
| `AliasTables.AllLarge` | crates/obfs4/src/common/probdist.rs:210-220 | unsettled columns that are all at least 1 have non-negative excess, bounding each |
| `AliasTables.InitialExcess` | crates/obfs4/src/common/probdist.rs:165-171 | the scaled weights exceed one per column by exactly zero in sum |
| `AliasTables.SortColumns` | crates/obfs4/src/common/probdist.rs:172-185 | every column is in exactly one queue in ascending order, small below 1 and large otherwise |
| `AliasTables.ScaleWeights` | crates/obfs4/src/common/probdist.rs:170-171 | scaled weights are n*w/sum, non-negative, with average one |
| `AliasTables.Total` | crates/obfs4/src/common/probdist.rs:165-165 | the sum of the weights, non-negative |
| `AliasTables.PickFollowsShare` | crates/obfs4/src/common/probdist.rs:60-99 | column j yields value i for exactly an interval of coins whose length is its share of i, so the tables' exactness is exactness of sampling |
| `AliasTables.InnerWeightedDist.Sample` | crates/obfs4/src/common/probdist.rs:60-99 | every sample lies in [min,max] and is the value picked by the tables |
| `AliasTables.InnerWeightedDist.GenValues` | crates/obfs4/src/common/probdist.rs:128-138 | the values are the front of the shuffled range, as many as drawn between 1 and min(100, max(1, max - min)), all distinct and within the range |
| `AliasTables.InnerWeightedDist.Shuffle` | crates/obfs4/src/common/probdist.rs:128-138 | a permutation of the distinct candidates, the one the draws give |
| `AliasTables.AnyOrder` | crates/obfs4/src/common/probdist.rs:128-138 | every order of the candidates comes out of the shuffle for some draws |
| `AliasTables.StickIsWhole` | crates/obfs4/src/common/probdist.rs:142-150 | the biased weights and the product of what each draw leaves sum to exactly one, and none is negative |
| `AliasTables.InnerWeightedDist.GenBiasedWeights` | crates/obfs4/src/common/probdist.rs:142-150 | each weight is the drawn part of what the earlier ones left of one; they lie in [0,1] and sum to one less the product of the parts not drawn |
| `AliasTables.InnerWeightedDist.GenUniformWeights` | crates/obfs4/src/common/probdist.rs:153-159 | each weight is the next draw |
| `AliasTables.InnerWeightedDist.Reseed` | crates/obfs4/src/common/probdist.rs:102-122 | values and weights are those the draws give, biased or uniform as configured, within the unchanged range, and the tables are exact for those weights |
| `AliasTables.InnerWeightedDist.constructor` | crates/obfs4/src/common/probdist.rs:44-57 | a new distribution has the values and weights the draws give within its range, and exact tables |
| `LifecycleProofs.ReturnedRunIsClean` | crates/lyrebird/src/lifecycle.rs:72-201 | in every run in which `drive` returns: no listener, no connection task, an empty abort registry, all 1024 permits back, and the result is Err of the first listener loss exactly when the main loop joined one |
| `LifecycleProofs.ReturnedStateIsClean` | crates/lyrebird/src/lifecycle.rs:186-201 | the same for every state that satisfies the invariant |
| `LifecycleProofs.DroppedRunStopsEveryTask` | crates/lyrebird/src/lifecycle.rs:250-266 | in every interleaving of the drop guard with registrations: once the sweep is over every task is finished or asked to abort, except one still being registered, and without exception when the task-set lock is free |
| `LifecycleProofs.LateRegistrationAborts` | crates/lyrebird/src/lifecycle.rs:292-321 | no step leaves that registration without the task finished or asked to abort |
| `LifecycleProofs.PermitsAndRegistry` | crates/lyrebird/src/lifecycle.rs:292-374 | in every state of every run: free permits plus those held by accept loops and live tasks are 1024, and registry keys equal task ids whenever the task-set lock is free |
| `LifecycleProofs.RunsKeepInv` | crates/lyrebird/src/lifecycle.rs:72-374 | every reachable state, for every number of listeners and every interleaving, satisfies the invariant; in particular no accept loop has stopped while acceptance is open |
| `LifecycleProofs.StepKeepsInv` | crates/lyrebird/src/lifecycle.rs:72-374 | every enabled step keeps the invariant |
| `LifecycleProofs.PermitsKept` | crates/lyrebird/src/lib.rs:658-749 | every step conserves permits |
| `LifecycleProofs.ListenerHolders` | crates/lyrebird/src/lib.rs:658-749 | a loop is counted as a holder exactly while it has a permit |
| `LifecycleProofs.ListenerLive` | crates/lyrebird/src/lifecycle.rs:292-321 | only a spawn adds a live task and no step of an accept loop ends one |
| `LifecycleProofs.LocksKept` | crates/lyrebird/src/lifecycle.rs:292-356 | every step keeps each lock held by exactly the party inside its critical section |
| `LifecycleProofs.RegistryKept` | crates/lyrebird/src/lifecycle.rs:292-356 | every step keeps registry and task set equal up to the entry the lock holder is adding or removing |
| `LifecycleProofs.DropKept` | crates/lyrebird/src/lifecycle.rs:250-321 | every step keeps every unstopped task ahead of the sweep or of its own token check |
| `LifecycleProofs.DriveKept` | crates/lyrebird/src/lifecycle.rs:72-201 | every step keeps the driver's result consistent with the listener results it has joined |
| `LifecycleProofs.TokensKept` | crates/lyrebird/src/lifecycle.rs:111-201 | every step keeps the tokens in order: a loop ends as stopped only once acceptance is cancelled, acceptance stops before teardown, connections are cancelled before a forced wait, nothing is aborted with both tokens live |
| `LifecycleRuns.ServesConnection` | crates/lyrebird/src/lib.rs:720-747 | with acceptance open, a permit and the locks free, an accept loop can take a connection, spawn its task, register its abort handle and accept again, and all that has changed is the live, registered task that holds the permit |
| `LifecycleRuns.Admits` | crates/lyrebird/src/lib.rs:720-730 | with acceptance open an accepted connection takes a permit and passes the check after it |
| `LifecycleRuns.NoLateAdmission` | crates/lyrebird/src/lib.rs:720-730 | once acceptance is cancelled a loop that has not passed its check never spawns a connection, whatever else happens |
| `LifecycleRuns.ErrorHasCause` | crates/lyrebird/src/lifecycle.rs:72-201 | in every run an error the service returns is the cause with which some accept loop failed or panicked |
| `LifecycleRuns.CancelledForCause` | crates/lyrebird/src/lifecycle.rs:111-201 | in every run connections are cancelled only after a terminate signal, closed stdin, a drain given up or a dropped run |
| `LifecycleRuns.RunsAreCaused` | crates/lyrebird/src/lifecycle.rs:72-374 | in every state of every run each recorded loss, exit reason and cancellation has its cause among the steps taken |
| `LifecycleRuns.JoinsOnlyStopped` | crates/lyrebird/src/lifecycle.rs:186-374 | in every run the driver waits only for tasks that were asked to stop, and at the end for none that lives |
| `ReplayFilter.InnerReplayFilter.TestAndSet` | crates/obfs4/src/common/replay_filter.rs:83-122 | true iff the digest was recorded less than ttl ago in clamped time and fewer than cap digests were recorded since, for timestamps in any order; the history grows accordingly |
| `ReplayFilter.InnerReplayFilter.GarbageCollect` | crates/obfs4/src/common/replay_filter.rs:124-149 | collecting from the back removes exactly the expired entries |
| `ReplayFilter.InnerReplayFilter.EvictOldest` | crates/obfs4/src/common/replay_filter.rs:151-156 | the oldest entry leaves queue and set together |
| `ReplayFilter.InnerReplayFilter.Record` | crates/obfs4/src/common/replay_filter.rs:107-121 | a new digest enters at the front within capacity and set, queue and history keep agreeing |
| `ReplayFilter.InnerReplayFilter.constructor` | crates/obfs4/src/common/replay_filter.rs:68-81 | starts with an empty history |
| `ReplayFilter.MembershipIsSeen` | crates/obfs4/src/common/replay_filter.rs:83-122 | a collected queue within capacity holds exactly the digests the full history calls seen |
| `ReplayFilter.SeenForItsLifetime` | crates/obfs4/src/common/replay_filter.rs:83-122 | a recorded digest is seen at exactly the times less than ttl after its record, as long as nothing else is recorded |
| `ReplayFilter.TimeAdvances` | crates/obfs4/src/common/replay_filter.rs:84-91 | a stale reading never turns the filter's time back, and any other is taken as it is |
| `ReplayFilter.DropOldest` | crates/obfs4/src/common/replay_filter.rs:124-156 | an expired or surplus oldest entry may go without changing any answer |
| `ClientHello.AcceptedAtMostOnce` | crates/obfs4/src/handshake/handshake_server.rs:268-316 | over every sequence of arrivals, with clock readings reaching the filter in any order: an accepted hello presented again is rejected, provided fewer than cap hellos are recorded in between and no reading is more than REPLAY_TTL less the three-hour window, 27 hours, ahead of the second presentation |
| `ClientHello.AcceptanceIsRecorded` | crates/obfs4/src/handshake/handshake_server.rs:288-306 | an accepted hello is one made for some hour within one of the server's, and is the newest record, made no earlier than its hour was read |
| `ClientHello.AcceptedIsHello` | crates/obfs4/src/handshake/handshake_server.rs:221-322 | whatever is accepted is a complete hello whose MAC was made for some hour of the window |
| `ClientHello.SecondPresentation` | crates/obfs4/src/constants.rs:55-56 | three hours of MAC window and the slack together are REPLAY_TTL, so a recorded hello is not accepted again while the filter's clamped time is within the slack |
| `ClientHello.EpochWindow` | crates/obfs4/src/handshake/handshake_server.rs:268-316 | a hello made for an hour passes exactly when the server's hour is within one of it, and is then accepted iff its MAC was not seen at the clock reading taken for that hour |
| `ClientHello.ScanMeetsEpoch` | crates/obfs4/src/handshake/handshake_server.rs:268-307 | the three-hour scan, which goes on after a match and reads the clock anew at each, records once and finds exactly the one matching hour |
| `ClientHello.HistoryGrows` | crates/obfs4/src/handshake/handshake_server.rs:268-316 | over any run, in any clock order, the history only grows |
| `ClientHello.LatestIsAReading` | crates/obfs4/src/common/replay_filter.rs:83-91 | the filter's clamped time is never later than the latest reading it was given |
| `ClientHello.JudgeCompleteHello` | crates/obfs4/src/handshake/handshake_server.rs:221-322 | with the mark right before the final MAC the verdict is that of the scan |
| `ClientHello.HelloServer.TryParseAt` | crates/obfs4/src/handshake/handshake_server.rs:221-322 | the parser with its filter gives the verdict and history of the judgement on values, on every buffer and every clock readings |
| `ClientHello.StillArriving` | crates/obfs4/src/handshake/handshake_server.rs:230-263 | a buffer below 64 bytes, or of at most 8192 whose 16 bytes before the last 16 are not the mark of its first 32 after the least padding, is waited for and nothing is recorded |
| `ClientHello.OversizedIsRefused` | crates/obfs4/src/handshake/handshake_server.rs:258-322 | more than 8192 bytes are never waited for and never accepted; without the mark at the limit they are rejected and nothing is recorded |
| `ClientHello.WrongMacIsRefused` | crates/obfs4/src/handshake/handshake_server.rs:268-316 | a complete hello whose MAC is that of none of the three hours is rejected and nothing is recorded |
| `ClientHello.MarkIsFound` | crates/obfs4/src/handshake/utils.rs:31-77 | the mark is found exactly when it stands right before the last 16 bytes of the first 8192, after at least 109 others |
| `ClientHello.HelloServer.ScanHours` | crates/obfs4/src/handshake/handshake_server.rs:268-307 | the loop over hours with in-place recording equals the scan on values |
| `ClientHello.HelloServer.constructor` | crates/obfs4/src/server.rs:242-250 | starts with an empty filter of the fixed lifetime and size |
| `ClientHello.FindMark` | crates/obfs4/src/handshake/utils.rs:31-77 | a found mark is the mark and leaves room for the MAC |
| `ClientHello.DecimalInjective` | crates/obfs4/src/handshake/handshake_server.rs:276-276 | the decimal text of signed hours is injective |
| `ClientHello.DigitsInjective` | crates/obfs4/src/handshake/handshake_server.rs:276-276 | decimal digits are injective |
| `Args.RoundTrip` | crates/core/src/args.rs:168-268 | a bag is recovered from its encoding, per-key order included, if and only if its keys and value lists are non-empty, for both delimiters |
| `Args.ParseEncodeParse` | crates/core/src/args.rs:154-268 | for every accepted string, parse of encode of parse is parse |
| `Args.SmethodRoundTrip` | crates/core/src/args.rs:163-223 | with `ARGS:` prepended the SMETHOD pair round-trips exactly the same bags |
| `Args.SmethodReads` | crates/core/src/args.rs:163-166 | one `ARGS:` is taken off where there is one, and nothing else |
| `Args.BareSmethodRoundTrip` | crates/core/src/args.rs:163-223 | bare, it round-trips if and only if the bag is proper and the encoding does not itself begin with `ARGS:` |
| `Args.BareSmethodFails` | crates/core/src/args.rs:163-166 | the bag with key `ARGS:x` and value `v` comes back bare as the bag with key `x` |
| `Args.ParsedIsProper` | crates/core/src/args.rs:168-212 | parsing never gives an empty key or an empty value list |
| `Args.StrippedEncoding` | crates/core/src/args.rs:163-166 | an encoding that begins with `ARGS:` has a first key that does, and loses exactly that from the key |
| `Args.StrippedDiffers` | crates/core/src/args.rs:163-166 | such a stripped encoding never parses to the original bag |
| `Args.ParseConcat` | crates/core/src/args.rs:168-212 | for non-empty accepted s and t, parsing s, delimiter, t merges the two bags with value lists concatenated |
| `Args.ParsePairsConcat` | crates/core/src/args.rs:168-212 | the same on the sequence of pairs |
| `Args.ParseUndoesRender` | crates/core/src/args.rs:168-268 | parsing any rendered sequence of pairs with non-empty keys gives the pairs back |
| `Args.OptsConcat` | crates/core/src/args.rs:368-436 | for non-empty accepted server options s and t, parsing s;t merges per transport and key, value lists concatenated |
| `Args.OptionsConcat` | crates/core/src/args.rs:368-436 | the same on the sequence of options |
| `Args.OptsAppend` | crates/core/src/args.rs:368-436 | collecting two runs of options is merging what each collects |
| `Args.OptsHoldBags` | crates/core/src/args.rs:420-427 | each transport's bag is that of exactly its own options |
| `Args.BagHoldsValues` | crates/core/src/args.rs:97-99 | each key's list holds exactly its values in order, and only keys with values are present |
| `Args.BagAppend` | crates/core/src/args.rs:97-99 | collecting two runs of pairs is merging the bags |
| `Args.BagOfRows` | crates/core/src/args.rs:233-268 | the rows of the sorted keys collect back into the bag |
| `Args.LessIsFirstDifference` | crates/core/src/args.rs:238-239 | the key order is that of the first character in which two keys differ, a prefix coming first |
| `Args.ParseRenderedPair` | crates/core/src/args.rs:168-212 | an escaped pair followed by anything is read back exactly, and rejected exactly when its key is empty |
| `Args.KeyWithoutEquals` | crates/core/src/args.rs:168-212 | a key in any spelling with no equals sign before the next delimiter is rejected, and so is one that ends in a lone backslash |
| `Args.OptionReadBack` | crates/core/src/args.rs:368-436 | a transport, key and value in any spelling are read back exactly, colons being free after the transport and equals signs in the value; a dangling escape, an empty transport and an empty key are rejected in that order |
| `Args.OptionWithoutParts` | crates/core/src/args.rs:368-436 | an option in any spelling without its colon or its equals sign is rejected with that error |
| `Args.IndexUndoesEscape` | crates/core/src/args.rs:271-310 | scanning an escaped text up to a terminator gives the text and its exact extent, for every text |
| `Args.SpelledIndex` | crates/core/src/args.rs:283-310 | however a text is spelled with and without backslashes, scanning gives the text and its extent, or the error exactly when a lone backslash ends it |
| `Args.EveryStringIsSpelled` | crates/core/src/args.rs:283-310 | every string is such a spelling up to its first terminator, its end or a lone last backslash, so the scan is determined on every input |
| `Args.EscapeSpells` | crates/core/src/args.rs:271-278 | escaping puts a backslash exactly before backslashes and special characters |
| `Args.SpelledPair` | crates/core/src/args.rs:168-212 | a pair in any spelling, its value free to hold bare equals signs, is read back exactly; a dangling escape comes before an empty key |
| `Args.IndexExtend` | crates/core/src/args.rs:283-310 | a found terminator does not depend on what follows |
| `Args.Index` | crates/core/src/args.rs:283-310 | a found position is in range and, unless it is the end, holds a terminator |
| `ArgsCodec.IndexUnescaped` | crates/core/src/args.rs:283-310 | the scanning loop computes the specified scan, including the trailing-backslash error |
| `ArgsCodec.PushBackslashEscaped` | crates/core/src/args.rs:271-278 | appends exactly the escaped text |
| `ArgsCodec.ParseDelimited` | crates/core/src/args.rs:168-212 | the parsing loop computes the specified parse, with every error case |
| `ArgsCodec.ParseClientParameters` | crates/core/src/args.rs:154-156 | parses with `;` |
| `ArgsCodec.ParseSmethodArgs` | crates/core/src/args.rs:163-166 | strips one `ARGS:` and parses with `,` |
| `ArgsCodec.SortKeys` | crates/core/src/args.rs:238-239 | exactly the keys of the bag in strictly ascending order |
| `ArgsCodec.EncodeDelimited` | crates/core/src/args.rs:233-268 | the encoding loop renders the sorted rows, and parses back to the bag exactly when the bag is proper |
| `ArgsCodec.PushRow` | crates/core/src/args.rs:255-266 | all values of one key follow what was rendered |
| `ArgsCodec.PushPair` | crates/core/src/args.rs:258-264 | one pair follows, with a delimiter unless it is the first |
| `ArgsCodec.ParseServerTransportOptions` | crates/core/src/args.rs:368-436 | the option loop computes the specified parse, with every error case |
| `ArgsCodec.ReadOption` | crates/core/src/args.rs:374-433 | one round reads the first option or gives its error, and what follows is shorter |
| `ArgsCodec.ReadOptionValue` | crates/core/src/args.rs:406-433 | the value and the emptiness checks, in the source's order |
| `BridgeLine.ParseDisplayParse` | crates/bridge-line/src/lib.rs:115-195 | for every line the parser accepts, parsing its display gives the same value |
| `BridgeLine.DisplayRoundTrip` | crates/bridge-line/src/lib.rs:115-195 | for every canonical value, including a transport spelled bridge in any case, parsing its display gives it back |
| `BridgeLine.ParsedIsCanonical` | crates/bridge-line/src/lib.rs:115-171 | everything the parser produces is canonical: valid transport, upper-case fingerprint, clean parameters |
| `BridgeLine.TailIsCanonical` | crates/bridge-line/src/lib.rs:144-163 | the token loop keeps fingerprint and parameters canonical |
| `BridgeLine.TailParses` | crates/bridge-line/src/lib.rs:144-195 | the printed fingerprint and parameters parse back to themselves |
| `BridgeLine.SettingsParse` | crates/bridge-line/src/lib.rs:146-192 | printed key=value words parse back, last value winning |
| `BridgeLine.TransportParses` | crates/bridge-line/src/lib.rs:118-138 | the printed transport, with the directive where needed, is read as that transport |
| `BridgeLine.DirectiveIsIgnored` | crates/bridge-line/src/lib.rs:118-138 | a leading directive changes nothing before anything that is not one itself; alone it lacks an address; before a second one it makes that the transport |
| `BridgeLine.DirectiveSpelling` | crates/bridge-line/src/lib.rs:118-122 | the directive is the word bridge in any mixture of cases |
| `BridgeLine.FrontIsRefused` | crates/bridge-line/src/lib.rs:115-143 | an empty line, a transport that is no identifier, a missing and an unreadable address are refused, each with its error |
| `BridgeLine.TailIsJudged` | crates/bridge-line/src/lib.rs:144-163 | the words after the address are refused exactly for their first offending one: a word that is neither setting nor 40 hex digits, a setting without key, a second fingerprint |
| `BridgeLine.LastSettingWins` | crates/bridge-line/src/lib.rs:144-163 | an accepted line holds for each key the value of the last word that mentions it, and no other key |
| `BridgeLine.FingerprintIsKept` | crates/bridge-line/src/lib.rs:144-163 | an accepted line keeps its fingerprint in upper case, wherever it stands |
| `BridgeLine.UpperHex` | crates/bridge-line/src/lib.rs:155-160 | upper case keeps every hex digit and leaves no lower-case letter |
| `BridgeLine.TransportNames` | crates/bridge-line/src/lib.rs:203-207 | a transport name is an identifier of ASCII letters, digits and underscores that begins with no digit |
| `BridgeLine.TokensOfSpace` | crates/bridge-line/src/lib.rs:116-116 | every kind of ASCII whitespace separates words and no other character does |
| `BridgeLine.TokensOfJoin` | crates/bridge-line/src/lib.rs:116-116 | splitting words joined by spaces gives the words |
| `BridgeLine.Tokens` | crates/bridge-line/src/lib.rs:116-116 | tokens are non-empty and free of whitespace |
| `BridgeLine.FindEquals` | crates/bridge-line/src/lib.rs:147-147 | the first equals sign, or none |
| `BridgeLine.FromStr` | crates/bridge-line/src/lib.rs:115-171 | the parser computes the specified parse, with every error case |
| `BridgeLine.Fmt` | crates/bridge-line/src/lib.rs:174-195 | the formatter writes the specified line |
| `BridgeLine.FmtSettings` | crates/bridge-line/src/lib.rs:191-193 | each parameter follows as one word, in key order |
| `ServerConfig.AnySession` | crates/obfs4/src/server.rs:209-295 | any order of client-parameter reports, builds and foreign writes without a setter in between: every call is answered, one triple is told by all reports and all built servers, and once it was told every later report tells it |
| `ServerConfig.ServerBuilder.TryBuild` | crates/obfs4/src/server.rs:237-282 | how a build ends is decided: a configuration error, no triple from the sources, a foreign change if and only if the target does not hold what was observed, and else what the file system answers to the replacement; the triple is the cached one or what the sources give, the same as every other report since the last invalidation, also after a published-but-not-durable failure and its retry; the only change to the files is the target replaced by the encoded triple; a publication that may be lost becomes the new observation and stays due |
| `ServerConfig.ServerBuilder.Persist` | crates/obfs4/src/server.rs:252-280 | compare, then replace: a foreign change is reported and kept, and otherwise the answer of the file system decides; a failure before publication changes nothing, one after it adopts what was published |
| `ServerConfig.RebuildFromDisk` | crates/obfs4/src/server.rs:237-368 | a build that had to persist gives its triple exactly when nothing foreign was written and the file system took the replacement, and then a fresh builder without overrides resolves, and to the same triple |
| `ServerConfig.ManualValuesWin` | crates/obfs4/src/server.rs:939-964 | whichever of keys, node id and mode are set by hand, the built server has them and everything else, the seed included, is what the state file held; the file is rewritten exactly when something was set |
| `ServerConfig.FreshResolve` | crates/obfs4/src/server.rs:297-368 | a new builder without overrides resolves to exactly what the state file decodes to; without a file, to its own identity, mode off and a drawn seed |
| `ServerConfig.ServerBuilder.Resolve` | crates/obfs4/src/server.rs:297-368 | overridden parts win over stored ones part by part, and a seed that nothing supplies is drawn; it fails exactly when a state file that is needed does not decode or no seed can be drawn; persistence is due iff a target is set and missing or something is overridden; the observation is what was read |
| `ServerConfig.ServerBuilder.OverlayState` | crates/obfs4/src/server.rs:324-341 | keys, node id, mode and seed each come from the builder if overridden and from the stored triple otherwise |
| `ServerConfig.ServerBuilder.EffectiveConfiguration` | crates/obfs4/src/server.rs:284-295 | a cached configuration is returned unchanged, a resolved one is cached, a failure caches nothing, and what is due to be persisted stays due |
| `ServerConfig.ServerBuilder.TryClientParams` | crates/obfs4/src/server.rs:209-218 | succeeds exactly when there is no configuration error and a triple, cached or from the sources, and reports its identity and mode; a failure changes nothing |
| `ServerConfig.ServerBuilder.WriteStatefile` | crates/obfs4/src/lib.rs:230-264 | the file is replaced whole or not at all; a failed sync comes after the replacement |
| `ServerConfig.ServerBuilder.TryStatefilePath` | crates/obfs4/src/server.rs:141-163 | succeeds iff the file is there and decodes; the imported triple becomes the builder's own and the effective configuration and is not written back; a failure leaves nothing cached and changes nothing else |
| `ServerConfig.ServerBuilder.StatefilePath` | crates/obfs4/src/server.rs:132-138 | sets the directory and invalidates, touching nothing else |
| `ServerConfig.ServerBuilder.TryNodeKeys` | crates/obfs4/src/server.rs:115-129 | a mismatched pair changes nothing at all; a matching one overrides and invalidates |
| `ServerConfig.ServerBuilder.NodeKeys` | crates/obfs4/src/server.rs:105-111 | a mismatched pair leaves an error and invalidates, touching nothing else |
| `ServerConfig.ServerBuilder.NodeId` | crates/obfs4/src/server.rs:166-171 | overrides the node id and invalidates, touching nothing else |
| `ServerConfig.ServerBuilder.IatMode` | crates/obfs4/src/server.rs:174-179 | overrides the mode and invalidates, touching nothing else |
| `ServerConfig.ServerBuilder.Invalidate` | crates/obfs4/src/server.rs:394-398 | forgets the cached configuration |
| `ServerConfig.ServerBuilder.constructor` | crates/obfs4/src/server.rs:80-100 | starts with mode off, its own identity and no seed, override, cache or error |
| `HeaderBoundary.ScanChunks` | crates/webtunnel/src/handshake.rs:565-583 | for every chunking the scanner returns the boundary of the whole input, the end of the first blank line after a non-blank one, visiting each byte once |
| `HeaderBoundary.Scanner.Find` | crates/webtunnel/src/handshake.rs:635-652 | on a longer buffer than before it returns that boundary, having visited each byte up to it exactly once |
| `HeaderBoundary.Scanner.constructor` | crates/webtunnel/src/handshake.rs:627-632 | ready for an empty buffer |
| `HeaderBoundary.BoundaryStable` | crates/webtunnel/src/handshake.rs:635-652 | a boundary does not move when bytes follow |
| `HeaderBoundary.HeaderEndStable` | crates/webtunnel/src/handshake.rs:635-652 | whether a position ends the header does not depend on what follows |
| `HeaderBoundary.LinesStable` | crates/webtunnel/src/handshake.rs:635-652 | whether a position ends a blank or a text line does not depend on what follows |
| `HeaderBoundary.StillReady` | crates/webtunnel/src/handshake.rs:635-652 | a scanner that stopped short is ready for any longer buffer |
| `ConnectBudget.BudgetIsExact` | crates/webtunnel/src/handshake.rs:466-506 | every list of n addresses is dialled without skipping, until one connects, if and only if the budget exceeds 5(n-1) seconds |
| `ConnectBudget.FirstInTimeWins` | crates/webtunnel/src/handshake.rs:466-506 | whatever the peers do, the attempts connect to the first address that answers in time, within 5 seconds of its turn unless it is the last and always by the deadline; without one the failure tells whether the last address had its turn |
| `ConnectBudget.EnoughFrom` | crates/webtunnel/src/handshake.rs:466-506 | from any point, more than 5 seconds per further address gives each its attempt |
| `ConnectBudget.TooLittleFrom` | crates/webtunnel/src/handshake.rs:466-506 | with less, silent addresses leave the last one without an attempt |
| `ConnectBudget.AttemptsEndByDeadline` | crates/webtunnel/src/handshake.rs:466-506 | attempts never outlast the deadline |
| `ConnectBudget.ConnectFirstUntil` | crates/webtunnel/src/handshake.rs:466-506 | the dialling loop computes the specified outcome |
| `ConnectBudget.LookupUntil` | crates/webtunnel/src/handshake.rs:308-322 | succeeds iff the lookup succeeds within the time left, and ends by the deadline |
| `ConnectBudget.ConnectFallback` | crates/webtunnel/src/handshake.rs:370-401 | the system resolver starts with at least min(5 s, half the budget) left, at once when there is no DNS-over-HTTPS; it is skipped iff DNS-over-HTTPS connects within its shortened deadline; the result is a connection iff one of the two reaches an address in time; everything ends by the deadline, and a deadline already past fails at once |

## Left out

- X25519, Elligator2, ntor, HKDF, SHAKE, XSalsa20-Poly1305 and SipHash internals: parameters with laws.
- Floating-point rounding in the alias tables: weights and probabilities are exact reals.
- The 32-bit range of the distribution bounds: values are unbounded integers with min at most max.
- Byte offsets of UTF-8 text in argument strings: positions count characters, all terminators being ASCII.
- Wake-ups, progress and fairness: the model says what a poll returns and leaves behind, not that it is polled again.
- The layout of the write buffer inside the framed sink beyond its contents and its flush boundary.
- The `Buf` chunk and advance interface of payload and padding frames: a frame is its full plaintext.
- Poisoned mutexes in the lifecycle and in the configuration cache.
- Retry delays after transient accept errors: a transient error leaves the accept loop where it was.
- Fairness of the permit queue, and the time limits of the drain and forced phases: giving up may happen at any moment.
- Building connections inside a task: a task is live until it finishes, and holds its permit while live.
- Signal handling, stdin watching, SOCKS negotiation, TLS, HTTP response parsing and the DNS-over-HTTPS resolver.
- The client's search for the server's mark, and the rest of the handshake apart from the client hello and the seed frame: a client's over-read starts after the mark and MAC of the server's hello.
- Concurrent access to the replay filter: its calls are serialised by a mutex and are modelled one after another.
- A write racing between the comparison of a state file and its replacement: the two are one step here.
- The experimental server path, logging, environment variables, URL validation, examples and benches.
- ClientHello.AcceptedAtMostOnce: assumes that truncated MACs of one hello under different hours do not collide, that the wall clock keeps a fixed distance from the monotonic one, and that a hello's clock readings follow the reading of its hour and are at most 27 hours ahead of the second presentation.
- Carrier.IatCarrier.PollDelay: whether a timer has fired is an answer of the environment, so delays have no length.
- Stream.O4Stream.PadAfterBackpressure: the draw is any length up to a segment; that draws follow the alias tables is proved in `AliasTables` only.
- AliasTables.InnerWeightedDist.Reseed: the seeded generator's output is an argument; how a seed determines it is not modelled.
- ServerConfig.ServerBuilder.Resolve: a state file that exists but cannot be read is not modelled; reading gives its contents.
- ServerConfig.RebuildFromDisk: assumes that decoding the JSON form inverts encoding it.
- BridgeLine.DisplayRoundTrip: assumes that printing a socket address inverts parsing it, contains a colon and has no whitespace.
