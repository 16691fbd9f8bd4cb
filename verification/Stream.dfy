/** The obfs4 stream: framed writes with burst padding, and buffered reads. */
module Stream {
  import opened Bytes
  import opened Framing
  import opened Environment
  import opened Sealing
  import opened Codec
  import opened Carrier

  /** tokio_util's write-buffer size from which a sink must flush before accepting more. */
  const BACKPRESSURE_BOUNDARY: nat := 8192

  const ALREADY_SHUT_DOWN: IoError := IoError(NotConnected, "obfs4 stream is already shut down")

  datatype SinkOp = ReadySink | FlushSink | CloseSink

  function ToIo(e: FrameError): (r: IoError)
    ensures r.FrameFailure? && r.kind == Other
  {
    FrameFailure(Other, e)
  }

  /**
   What the handshake sent, what was sent since and what still waits in the write
   buffer is the wire image of the enqueued plaintexts.
   */
  ghost predicate SenderInv(c: Cipher, opening: seq<Plain>, plain: seq<Plain>, hello: seq<byte>, sent: seq<byte>,
                            waiting: seq<byte>, enc: EncState)
  {
    && Continues(opening, plain)
    && enc.counter == 1 + |plain| <= COUNTER_MAX
    && WireOf(c, plain) == Wire(enc, hello + (sent + waiting))
  }

  lemma SenderEnqueues(c: Cipher, opening: seq<Plain>, plain: seq<Plain>, hello: seq<byte>, sent: seq<byte>,
                       waiting: seq<byte>, enc: EncState, p: Plain)
    requires SenderInv(c, opening, plain, hello, sent, waiting, enc) && Sealable(p) && !p.Seed?
    requires Encode(c, enc, Plaintext(p)).Encoded?
    ensures var r := Encode(c, enc, Plaintext(p)); SenderInv(c, opening, plain + [p], hello, sent, waiting + r.frame, r.state)
  {
    var r := Encode(c, enc, Plaintext(p));
    assert (plain + [p])[..|plain|] == plain;
    Assoc(sent, waiting, r.frame);
    Assoc(hello, sent + waiting, r.frame);
  }

  /** Writing out a part of what waits. */
  lemma SenderMoves(c: Cipher, opening: seq<Plain>, plain: seq<Plain>, hello: seq<byte>, sent: seq<byte>,
                    waiting: seq<byte>, enc: EncState, n: nat)
    requires SenderInv(c, opening, plain, hello, sent, waiting, enc) && n <= |waiting|
    ensures SenderInv(c, opening, plain, hello, sent + waiting[..n], waiting[n..], enc)
    ensures Extends(sent, sent + waiting[..n])
  {
    assert sent + waiting == sent + waiting[..n] + waiting[n..];
    ExtendsAppend(sent, waiting[..n]);
  }

  /** What a session has sealed before its stream exists: a server's length seed, nothing for a client. */
  function Opening(isClient: bool, seed: seq<byte>): seq<Plain> {
    if isClient then [] else [Seed(seed)]
  }

  lemma OpeningInv(c: Cipher, isClient: bool, seed: seq<byte>)
    requires |seed| == SEED_LENGTH
    ensures var ps := Opening(isClient, seed);
            var w := WireOf(c, ps);
            SenderInv(c, ps, ps, w.bytes, [], [], w.state) && Accepted(ps) == [] && AllSealable(ps)
  {
    var ps := Opening(isClient, seed);
    assert ps != [] ==> ps[..0] == [];
    CounterOf(c, ps);
    var bytes := WireOf(c, ps).bytes;
    assert bytes + ([] + []) == bytes;
  }

  /**
   The messages handled so far, followed by what still decodes out of the
   buffer, are all that decodes out of the bytes received. After a failure
   only the failure itself is recorded.
   */
  ghost predicate ReaderInv(c: Cipher, received: seq<byte>, dec: DecState, buffered: seq<byte>,
                            handled: seq<Message>, failed: bool)
  {
    var all := DecodeAll(c, InitDec(c), received);
    if failed then all.error.Some? else all == Prepend(handled, DecodeAll(c, dec, buffered))
  }

  lemma ReaderReceives(c: Cipher, received: seq<byte>, dec: DecState, buffered: seq<byte>,
                       handled: seq<Message>, failed: bool, chunk: seq<byte>)
    requires ReaderInv(c, received, dec, buffered, handled, failed)
    requires !failed ==> Decode(c, dec, buffered) == Stop(dec, buffered, NeedMore)
    ensures ReaderInv(c, received + chunk, dec, buffered + chunk, handled, failed)
  {
    DecodeAllExtend(c, InitDec(c), received, chunk);
    var all := DecodeAll(c, InitDec(c), received);
    if !failed {
      assert all.messages == handled;
    }
  }

  lemma ReaderDecodes(c: Cipher, received: seq<byte>, dec: DecState, buffered: seq<byte>, handled: seq<Message>)
    requires ReaderInv(c, received, dec, buffered, handled, false)
    ensures var r := Decode(c, dec, buffered);
            && (r.out.NeedMore? ==> ReaderInv(c, received, r.d, r.src, handled, false)
                                    && Decode(c, r.d, r.src) == Stop(r.d, r.src, NeedMore))
            && (r.out.Fail? ==> DecodeAll(c, InitDec(c), received) == Drained(r.d, r.src, handled, Some(r.out.error)))
            && (r.out.Item? ==> ReaderInv(c, received, r.d, r.src, handled + [r.out.message], false))
  {
    var r := Decode(c, dec, buffered);
    DecodeExtend(c, dec, buffered, []);
    assert buffered + [] == buffered && r.src + [] == r.src && handled + [] == handled;
    if r.out.Item? {
      var rest := DecodeAll(c, r.d, r.src);
      PrependTwice(handled, [r.out.message], rest);
    }
  }

  lemma ReaderDrained(c: Cipher, received: seq<byte>, dec: DecState, buffered: seq<byte>, handled: seq<Message>)
    requires ReaderInv(c, received, dec, buffered, handled, false)
    requires Decode(c, dec, buffered) == Stop(dec, buffered, NeedMore)
    ensures DecodeAll(c, InitDec(c), received).messages == handled
    ensures DecodeAll(c, InitDec(c), received).error == None
  {
    assert handled + [] == handled;
  }

  lemma ReceivedSplits(received: seq<byte>, bytes: seq<byte>, inFlight: seq<byte>)
    requires bytes <= inFlight
    ensures received + bytes + inFlight[|bytes|..] == received + inFlight
  {
    assert inFlight == bytes + inFlight[|bytes|..];
  }

  lemma PrefixGrows(before: seq<byte>, buf: seq<byte>, i: nat, j: nat)
    requires i <= j <= |buf|
    ensures before + buf[..i] + buf[i..j] == before + buf[..j]
  {
    assert buf[..i] + buf[i..j] == buf[..j];
  }

  /** What a carrier has done and been told: the bytes sent, the target of every burst scheduled, the answers heard. */
  datatype Trail = Trail(sent: seq<byte>, targets: seq<nat>, pos: nat)

  /** Nothing sent is taken back, no scheduled burst changes its target, and answers are heard in order. */
  ghost predicate Later(a: Trail, b: Trail) {
    Extends(a.sent, b.sent) && Extends(a.targets, b.targets) && a.pos <= b.pos
  }

  lemma LaterTrans(a: Trail, b: Trail, c: Trail)
    requires Later(a, b) && Later(b, c)
    ensures Later(a, c)
  {
    ExtendsTrans(a.sent, b.sent, c.sent);
    ExtendsTrans(a.targets, b.targets, c.targets);
  }

  /** Where a write starts: the bytes accepted, the frame bytes waiting and produced, the next draw, whether the nonces are used up, and the trail so far. */
  datatype Mark = Mark(accepted: seq<byte>, waiting: nat, produced: nat, draw: Draw, worn: bool, done: Trail)

  /** Polling the sink enqueues nothing, and unless the carrier pads for itself produces nothing and draws nothing. */
  ghost predicate Idle(mode: Iat, a: Mark, b: Mark) {
    && b.accepted == a.accepted
    && (mode != Paranoid ==> b.produced == a.produced && b.draw == a.draw)
    && Later(a.done, b.done)
  }

  lemma IdleTrans(mode: Iat, a: Mark, b: Mark, c: Mark)
    requires Idle(mode, a, b) && Idle(mode, b, c)
    ensures Idle(mode, a, c)
  {
    LaterTrans(a.done, b.done, c.done);
  }

  /** What decides about a write besides the bytes: the carrier's mode and script. */
  datatype Setting = Setting(mode: Iat, script: seq<Answer>)

  /** `burstLen` bytes of frames carry the first `lenSent` bytes of `buf`, and are not yet padded. */
  ghost predicate Midway(c: Setting, m: Mark, now: Mark, buf: seq<byte>, lenSent: nat, burstLen: nat)
    requires lenSent <= |buf|
  {
    && m.produced == |m.done.sent| + m.waiting && now.produced == |now.done.sent| + now.waiting
    && now.accepted == m.accepted + buf[..lenSent]
    && (c.mode != Paranoid ==> now.produced == m.produced + burstLen && now.draw == m.draw)
    && Later(m.done, now.done)
  }

  /** A write may stop after `n` bytes only with full frames, a sink full to the boundary, and a reason to come back later. */
  predicate StopsShort(c: Setting, m: Mark, pos: nat, n: nat) {
    && n % MAX_MESSAGE_PAYLOAD_LENGTH == 0
    && Stalled(c.script, m.done.pos, pos)
    && (c.mode != Paranoid ==> m.waiting + BurstLength(n) >= BACKPRESSURE_BOUNDARY)
  }

  /**
   `r` answers a write of `buf` by a ready sink: what it accepts is enqueued, all of it unless
   the sink stalls, as one padded burst unless the carrier pads for itself.
   */
  ghost predicate Answers(c: Setting, m: Mark, now: Mark, terminal: Option<IoError>, buf: seq<byte>, r: Poll<nat>) {
    && (if r.Ready? then 0 < r.value <= |buf| else r.Failed? && terminal == Some(r.error))
    && now.accepted == m.accepted + (if r.Ready? then buf[..r.value] else [])
    && (terminal.Some? ==> Excused(c.script, m.done.pos, now.done.pos, now.worn, terminal.value))
    && (r.Ready? && terminal.None? ==> r.value == |buf| || StopsShort(c, m, now.done.pos, r.value))
    && (r.Ready? && terminal.None? && c.mode != Paranoid ==> Shaped(r.value, now.produced - m.produced, m.draw))
    && Later(m.done, now.done)
  }

  lemma LaterTargets(a: Trail, b: Trail)
    requires a.sent == b.sent && a.pos == b.pos && Extends(a.targets, b.targets)
    ensures Later(a, b)
  {
  }

  lemma StartsMidway(c: Setting, m: Mark, buf: seq<byte>)
    requires m.produced == |m.done.sent| + m.waiting
    ensures Midway(c, m, m, buf, 0, 0)
  {
    assert m.accepted + buf[..0] == m.accepted;
  }

  /** One more frame. */
  lemma FrameSent(c: Setting, m: Mark, now: Mark, after: Mark, buf: seq<byte>, from: nat, to: nat, burstLen: nat)
    requires from <= to <= |buf| && Midway(c, m, now, buf, from, burstLen)
    requires after.accepted == now.accepted + buf[from..to] && after.draw == now.draw && after.done == now.done
    requires after.waiting == now.waiting + HEADER_LENGTH + to - from && after.produced == now.produced + HEADER_LENGTH + to - from
    ensures Midway(c, m, after, buf, to, burstLen + HEADER_LENGTH + to - from)
  {
    PrefixGrows(m.accepted, buf, from, to);
  }

  /** A frame that could not be encoded. */
  lemma RefusedAnswers(c: Setting, m: Mark, now: Mark, e: IoError, buf: seq<byte>, from: nat, burstLen: nat, r: Poll<nat>)
    requires from <= |buf| && Midway(c, m, now, buf, from, burstLen)
    requires e == WORN_OUT && now.worn
    requires if from == 0 then r == Failed(e) else r == Ready(from)
    ensures Answers(c, m, now, Some(e), buf, r)
  {
    assert m.accepted + buf[..0] == m.accepted + [];
  }

  /** Polling the sink changes nothing of a write but what the carrier takes; the sink holds at most what it held and what was added. */
  lemma StillMidway(c: Setting, m: Mark, now: Mark, after: Mark, buf: seq<byte>, lenSent: nat, burstLen: nat)
    requires lenSent <= |buf| && Midway(c, m, now, buf, lenSent, burstLen)
    requires Idle(c.mode, now, after) && after.produced == |after.done.sent| + after.waiting
    ensures Midway(c, m, after, buf, lenSent, burstLen)
    ensures c.mode != Paranoid ==> now.waiting <= m.waiting + burstLen
  {
    LaterTrans(m.done, now.done, after.done);
    ExtendsPrefix(m.done.sent, now.done.sent);
  }

  /** The padding that ends a write. */
  lemma PaddedAnswers(c: Setting, m: Mark, now: Mark, after: Mark, terminal: Option<IoError>, buf: seq<byte>, lenSent: nat, burstLen: nat)
    requires 0 < lenSent <= |buf| && burstLen == BurstLength(lenSent) && Midway(c, m, now, buf, lenSent, burstLen)
    requires lenSent == |buf| || StopsShort(c, m, now.done.pos, lenSent)
    requires after.accepted == now.accepted && after.done == now.done
    requires terminal.Some? ==> terminal.value == WORN_OUT && after.worn
    requires terminal.None? && c.mode != Paranoid ==> after.produced == now.produced + PadBytes(burstLen, now.draw)
    ensures Answers(c, m, after, terminal, buf, Ready(lenSent))
  {
  }

  /** Why a write is refused before it has begun: the sink stalls, or an error is stored. */
  predicate Refusal(c: Setting, from: nat, to: nat, worn: bool, terminal: Option<IoError>, r: Poll<nat>) {
    if r.Pending? then terminal.None? && Stalled(c.script, from, to)
    else r.Failed? && terminal == Some(r.error) && Excused(c.script, from, to, worn, r.error)
  }

  /** What a write of `buf` to an open stream comes to, between the marks `a` and `b`. */
  ghost predicate Written(c: Setting, a: Mark, b: Mark, terminal: Option<IoError>, buf: seq<byte>, r: Poll<nat>) {
    && (r.Ready? ==> 0 < r.value <= |buf|)
    && b.accepted == a.accepted + (if r.Ready? then buf[..r.value] else [])
    && Later(a.done, b.done)
    && (r.Pending? ==> a.waiting >= BACKPRESSURE_BOUNDARY && terminal.None? && Stalled(c.script, a.done.pos, b.done.pos))
    && (r.Failed? ==> terminal == Some(r.error))
    && (terminal.Some? ==> Excused(c.script, a.done.pos, b.done.pos, b.worn, terminal.value))
    && (r.Ready? && terminal.None? && r.value < |buf| ==>
          && r.value % MAX_MESSAGE_PAYLOAD_LENGTH == 0 && Stalled(c.script, a.done.pos, b.done.pos)
          && (c.mode != Paranoid && a.waiting < BACKPRESSURE_BOUNDARY ==> a.waiting + BurstLength(r.value) >= BACKPRESSURE_BOUNDARY))
    && (r.Ready? && terminal.None? && |buf| <= MAX_MESSAGE_PAYLOAD_LENGTH ==> r.value == |buf|)
    && (r.Ready? && terminal.None? && c.mode != Paranoid ==> Shaped(r.value, b.produced - a.produced, a.draw))
  }

  lemma StalledOutcome(c: Setting, a: Mark, b: Mark, terminal: Option<IoError>, buf: seq<byte>, r: Poll<nat>)
    requires Idle(c.mode, a, b) && a.waiting >= BACKPRESSURE_BOUNDARY && Refusal(c, a.done.pos, b.done.pos, b.worn, terminal, r)
    ensures Written(c, a, b, terminal, buf, r)
  {
    assert a.accepted + [] == a.accepted;
  }

  lemma AnswersOutcome(c: Setting, a: Mark, m: Mark, b: Mark, terminal: Option<IoError>, buf: seq<byte>, r: Poll<nat>)
    requires Idle(c.mode, a, m) && (a.waiting < BACKPRESSURE_BOUNDARY ==> m.waiting == a.waiting)
    requires Answers(c, m, b, terminal, buf, r)
    ensures Written(c, a, b, terminal, buf, r)
  {
    LaterTrans(a.done, m.done, b.done);
    FitsOneFrame(c, m, b, terminal, buf, r);
  }

  /** A buffer that fits one frame is accepted whole. */
  lemma FitsOneFrame(c: Setting, m: Mark, now: Mark, terminal: Option<IoError>, buf: seq<byte>, r: Poll<nat>)
    requires Answers(c, m, now, terminal, buf, r)
    ensures r.Ready? && terminal.None? && |buf| <= MAX_MESSAGE_PAYLOAD_LENGTH ==> r.value == |buf|
  {
    if r.Ready? && r.value < MAX_MESSAGE_PAYLOAD_LENGTH {
      NoWholeFrame(r.value);
    }
  }

  /** What one end will be told by its transport, its timer and its length distribution. */
  datatype World = World(writes: seq<Answer>, draws: seq<Draw>, feed: seq<Answer>)

  class O4Stream {
    const codec: EncryptingCodec
    const carrier: IatCarrier
    const isClient: bool
    /** The hash that derives the delay distribution's seed from the length distribution's. */
    const digest: seq<byte> -> seq<byte>

    // The framed sink and source.
    var wbuf: seq<byte>
    var rbuf: seq<byte>
    var readable: bool
    var eof: bool
    var errored: bool

    var residual: seq<byte>
    var terminal: Option<IoError>
    var closed: bool
    /** What the transport answers to reads, where 0 bytes are the end of the stream, and how many answers were heard. */
    const feed: seq<Answer>
    var fed: nat
    /** The seeds of the length and delay distributions. */
    var lenSeed: seq<byte>
    var delaySeed: seq<byte>

    /** The length seed this end started with. */
    ghost const ownSeed: seq<byte>
    /** What the handshake sent of the session's frames, before this stream was made. */
    ghost const hello: seq<byte>
    /** Every frame enqueued since the session began. */
    ghost var plain: seq<Plain>
    /** Every byte received, every byte handed to the caller, every message handled. */
    ghost var received: seq<byte>
    ghost var delivered: seq<byte>
    ghost var handled: seq<Message>
    /** Whether decoding has failed. */
    ghost var failed: bool

    ghost predicate SenderValid()
      reads this`wbuf, this`plain, codec`enc, carrier`sent, carrier`targets
    {
      && SenderInv(codec.sealer, Opening(isClient, ownSeed), plain, hello, carrier.sent, wbuf, codec.enc)
      && |ownSeed| == SEED_LENGTH
      && carrier.Ledger()
    }

    /** The nonces of the session are used up. */
    ghost predicate Worn()
      reads this`plain
    {
      |plain| + 1 == COUNTER_MAX
    }

    /** How many bytes of frames this stream has produced. */
    ghost function Produced(): nat
      reads this`wbuf, carrier`sent
    {
      |carrier.sent| + |wbuf|
    }

    /** How many answers the transport has left. */
    ghost function Left(): nat
      reads carrier`pos
    {
      Remaining(carrier.script, carrier.pos)
    }

    /** The bytes sent and the bursts scheduled so far, and the answers heard. */
    ghost function Done(): Trail
      reads carrier`sent, carrier`targets, carrier`pos
    {
      Trail(carrier.sent, carrier.targets, carrier.pos)
    }

    /** The shaping invariant holds unless a terminal error is stored, and that never meets a completed shutdown, which leaves nothing unsent. */
    ghost predicate Valid()
      reads this`wbuf, this`plain, this`terminal, this`closed, codec`enc
      reads carrier`sent, carrier`targets, carrier`scheduled, carrier`padTarget
    {
      && SenderValid()
      && (terminal.None? ==> carrier.Valid(|wbuf|))
      && !(terminal.Some? && closed)
      && (closed ==> wbuf == [])
    }

    /** Everything that decodes out of the bytes received. */
    ghost function Arrived(): Drained
      reads this`received
    {
      DecodeAll(codec.opener, InitDec(codec.opener), received)
    }

    /** Everything that decodes out of the bytes received has been handed out. */
    ghost predicate Exhausted()
      reads this`received, this`delivered
    {
      delivered == Content(Arrived().messages)
    }

    /** The decoder accounts for all bytes received, and asks for more unless it is marked readable. */
    ghost predicate DecoderValid()
      reads this`received, this`rbuf, this`handled, this`failed, this`readable, this`errored, codec`dec
    {
      && ReaderInv(codec.opener, received, codec.dec, rbuf, handled, failed)
      && (!failed && (!readable || errored) ==> Decode(codec.opener, codec.dec, rbuf) == Stop(codec.dec, rbuf, NeedMore))
    }

    /** The distributions are seeded as the messages handled say; only a client follows seeds. */
    ghost predicate SeedsFollow()
      reads this`handled, this`lenSeed, this`delaySeed
    {
      && lenSeed == (if isClient then SeedAfter(handled, ownSeed) else ownSeed)
      && delaySeed == digest(lenSeed)
    }

    /** What was handed out and what is parked make up the content of the messages handled. */
    ghost predicate ReaderValid()
      reads this`received, this`rbuf, this`handled, this`failed, this`readable, this`errored, codec`dec
      reads this`delivered, this`residual, this`lenSeed, this`delaySeed
    {
      DecoderValid() && (!failed ==> delivered + residual == Content(handled) && SeedsFollow())
    }

    /** The reading half depends on nothing the writing half changes. */
    twostate lemma ReaderUntouched()
      requires old(ReaderValid())
      requires received == old(received) && rbuf == old(rbuf) && handled == old(handled) && failed == old(failed)
      requires readable == old(readable) && errored == old(errored) && codec.dec == old(codec.dec)
      requires delivered == old(delivered) && residual == old(residual) && lenSeed == old(lenSeed) && delaySeed == old(delaySeed)
      ensures ReaderValid()
    {
    }

    /** The writing half depends on nothing the reading half changes. */
    twostate lemma WriterUntouched()
      requires old(Valid()) && unchanged(carrier) && codec.enc == old(codec.enc)
      requires wbuf == old(wbuf) && plain == old(plain) && terminal == old(terminal) && closed == old(closed)
      ensures Valid()
    {
    }

    constructor (codec: EncryptingCodec, mode: Iat, isClient: bool, seed: seq<byte>, digest: seq<byte> -> seq<byte>, world: World)
      requires codec.dec == InitDec(codec.opener) && |seed| == SEED_LENGTH
      requires codec.enc == WireOf(codec.sealer, Opening(isClient, seed)).state
      ensures this.codec == codec && this.isClient == isClient && fresh(carrier) && carrier.mode == mode
      ensures carrier.script == world.writes && carrier.draws == world.draws && feed == world.feed && fed == 0
      ensures Valid() && ReaderValid()
      ensures plain == Opening(isClient, seed) && Accepted(plain) == [] && ownSeed == seed
      ensures hello == WireOf(codec.sealer, Opening(isClient, seed)).bytes
      ensures carrier.sent == [] && received == [] && delivered == [] && handled == []
      ensures residual == [] && rbuf == [] && terminal == None && !closed && !failed && !readable && !errored && !eof
    {
      this.codec, this.isClient, this.digest := codec, isClient, digest;
      carrier := new IatCarrier(mode, world.writes, world.draws);
      feed, fed := world.feed, 0;
      wbuf, rbuf, readable, eof, errored := [], [], false, false, false;
      residual, terminal, closed, lenSeed, delaySeed := [], None, false, seed, digest(seed);
      plain, received, delivered, handled, failed := Opening(isClient, seed), [], [], [], false;
      hello := WireOf(codec.sealer, Opening(isClient, seed)).bytes;
      ownSeed := seed;
      OpeningInv(codec.sealer, isClient, seed);
    }

    // ------------------------------------------------------------- sending

    /** Encode one frame into the write buffer. */
    method Enqueue(p: Plain) returns (error: Option<FrameError>)
      requires SenderValid() && Sealable(p) && !p.Seed?
      modifies this`wbuf, this`plain, codec`enc
      ensures SenderValid()
      ensures error.None? ==> plain == old(plain) + [p] && |wbuf| == |old(wbuf)| + HEADER_LENGTH + Size(p)
      ensures error.Some? ==> plain == old(plain) && wbuf == old(wbuf)
      ensures error == if old(Worn()) then Some(NonceCounterWrapped) else None
    {
      wbuf, error := codec.Encode(Plaintext(p), wbuf);
      if error.None? {
        plain := plain + [p];
        SenderEnqueues(codec.sealer, Opening(isClient, ownSeed), old(plain), hello, carrier.sent, old(wbuf), old(codec.enc), p);
      }
    }

    /** Enqueue application bytes as one frame; only a session out of nonces refuses. */
    method StartSend(payload: seq<byte>) returns (error: Option<IoError>)
      requires SenderValid() && 1 <= |payload| <= MAX_MESSAGE_PAYLOAD_LENGTH
      modifies this`wbuf, this`plain, codec`enc
      ensures SenderValid()
      ensures |wbuf| == |old(wbuf)| + if error.None? then HEADER_LENGTH + |payload| else 0
      ensures Accepted(plain) == if error.None? then old(Accepted(plain)) + payload else old(Accepted(plain))
      ensures error.Some? ==> error.value == WORN_OUT && Worn()
    {
      AcceptedSnoc(plain, Data(payload));
      var e := Enqueue(Data(payload));
      return if e.None? then None else Some(ToIo(e.value));
    }

    /** Enqueue padding as one frame. */
    method EnqueuePadding(length: nat) returns (error: Option<IoError>)
      requires SenderValid() && length <= MAX_MESSAGE_PAYLOAD_LENGTH
      modifies this`wbuf, this`plain, codec`enc
      ensures SenderValid() && Accepted(plain) == old(Accepted(plain))
      ensures |wbuf| == |old(wbuf)| + if error.None? then HEADER_LENGTH + length else 0
      ensures error.Some? ==> error.value == WORN_OUT && Worn()
    {
      AcceptedSnoc(plain, Pad(length));
      var e := Enqueue(Pad(length));
      return if e.None? then None else Some(ToIo(e.value));
    }

    /** Append padding frames so that a burst of `burstLen` bytes ends at `target` in its last segment. */
    method PadBurst(burstLen: nat, target: nat) returns (error: Option<IoError>)
      requires SenderValid() && target <= MAX_SEGMENT_LENGTH
      modifies this`wbuf, this`plain, codec`enc
      ensures SenderValid() && |wbuf| >= |old(wbuf)|
      ensures Accepted(plain) == old(Accepted(plain))
      ensures error.None? ==> |wbuf| == |old(wbuf)| + PadBytes(burstLen, target)
      ensures error.Some? ==> error.value == WORN_OUT && Worn()
    {
      var lengths := PadLengths(burstLen, target);
      PadBurstArithmetic(burstLen, target);
      PadBytesOnWire(burstLen, target);
      error := EnqueueAll(lengths);
    }

    /** Enqueue padding frames of the given lengths, one after the other. */
    method EnqueueAll(lengths: seq<nat>) returns (error: Option<IoError>)
      requires SenderValid() && forall j :: 0 <= j < |lengths| ==> lengths[j] <= MAX_MESSAGE_PAYLOAD_LENGTH
      modifies this`wbuf, this`plain, codec`enc
      ensures SenderValid() && |wbuf| >= |old(wbuf)|
      ensures Accepted(plain) == old(Accepted(plain))
      ensures error.None? ==> |wbuf| == |old(wbuf)| + WireLength(lengths)
      ensures error.Some? ==> error.value == WORN_OUT && Worn()
    {
      var i := 0;
      while i < |lengths|
        invariant 0 <= i <= |lengths|
        invariant SenderValid()
        invariant Accepted(plain) == old(Accepted(plain))
        invariant |wbuf| == |old(wbuf)| + WireLength(lengths[..i])
      {
        error := EnqueuePadding(lengths[i]);
        if error.Some? {
          return;
        }
        WireLengthSnoc(lengths, i);
        i := i + 1;
      }
      assert lengths[..i] == lengths;
      return None;
    }

    /** A stall has a reason: padding is requested, at a point where that makes progress, or the result is explained. */
    twostate predicate SinkStep(new r: Poll<()>)
      reads this`wbuf, this`plain, carrier
    {
      if r.Pending? && carrier.padTarget.Some? then
        && carrier.PadRequested(|wbuf|)
        && (Left() < old(Left()) || old(carrier.scheduled.None? && |wbuf| < MAX_SEGMENT_LENGTH))
      else carrier.Valid(|wbuf|) && Explained(carrier.script, old(carrier.pos), carrier.pos, Worn(), r)
    }

    /** The framed sink: write the buffer out, then flush the carrier. */
    method PollFlushFramed() returns (r: Poll<()>)
      requires SenderValid() && carrier.Valid(|wbuf|)
      modifies this`wbuf, carrier`scheduled, carrier`padTarget, carrier`targets, carrier`drawn, carrier`delayPending,
               carrier`pos, carrier`sent, carrier`flushed
      ensures SenderValid() && Idle(carrier.mode, old(Here()), Here())
      ensures Produced() == old(Produced())
      ensures r.Ready? ==> wbuf == [] && carrier.flushed == |carrier.sent|
      ensures SinkStep(r)
    {
      var stopped := WriteAll();
      if stopped.Some? {
        return stopped.value;
      }
      ghost var mid := Here();
      r := carrier.PollFlush();
      IdleTrans(carrier.mode, old(Here()), mid, Here());
    }

    /** Write until the buffer is empty, or say why not. */
    method WriteAll() returns (stopped: Option<Poll<()>>)
      requires SenderValid() && carrier.Valid(|wbuf|)
      modifies this`wbuf, carrier`scheduled, carrier`padTarget, carrier`targets, carrier`drawn, carrier`delayPending,
               carrier`pos, carrier`sent
      ensures SenderValid() && Idle(carrier.mode, old(Here()), Here())
      ensures Produced() == old(Produced())
      ensures stopped.None? ==> wbuf == [] && carrier.Valid(0)
      ensures stopped.Some? ==> !stopped.value.Ready? && SinkStep(stopped.value)
    {
      while wbuf != []
        invariant SenderValid() && carrier.Valid(|wbuf|) && Idle(carrier.mode, old(Here()), Here())
        invariant Produced() == old(Produced())
        invariant Left() < old(Left()) || (wbuf == old(wbuf) && carrier.scheduled == old(carrier.scheduled))
        decreases |wbuf|
      {
        ghost var mid := Here();
        var w := WriteOut();
        IdleTrans(carrier.mode, old(Here()), mid, Here());
        match w {
          case Pending =>
            return Some(Pending);
          case Failed(e) =>
            return Some(Failed(e));
          case Ready(n) =>
            if n == 0 {
              return Some(Failed(WRITE_ZERO));
            }
        }
      }
      return None;
    }

    /** One write to the carrier; what it takes leaves the buffer. */
    method WriteOut() returns (r: Poll<nat>)
      requires SenderValid() && carrier.Valid(|wbuf|) && wbuf != []
      modifies this`wbuf, carrier`scheduled, carrier`padTarget, carrier`targets, carrier`drawn, carrier`delayPending,
               carrier`pos, carrier`sent
      ensures SenderValid() && Idle(carrier.mode, old(Here()), Here())
      ensures Produced() == old(Produced())
      ensures r.Ready? && r.value > 0 ==> Left() < old(Left()) && |wbuf| < |old(wbuf)|
      ensures !r.Ready? || r.value == 0 ==> wbuf == old(wbuf)
      ensures if carrier.padTarget.Some? then r.Pending? && carrier.PadRequested(|wbuf|) && old(carrier.scheduled).None?
              else carrier.Valid(|wbuf|) && (r == Ready(0) ==> Told(carrier.script, old(carrier.pos), carrier.pos, Go(0)))
                   && (r.Pending? ==> Told(carrier.script, old(carrier.pos), carrier.pos, Wait))
                   && (r.Failed? ==> Told(carrier.script, old(carrier.pos), carrier.pos, Break(r.error)))
    {
      ghost var before := Done();
      r := carrier.Transfer(wbuf);
      if r.Ready? {
        SenderMoves(codec.sealer, Opening(isClient, ownSeed), plain, hello, before.sent, wbuf, codec.enc, r.value);
        wbuf := wbuf[r.value..];
      }
    }

    /** What the framed sink does for `op`: below the boundary, readiness leaves everything as it is. */
    method PollSink(op: SinkOp) returns (r: Poll<()>)
      requires SenderValid() && carrier.Valid(|wbuf|)
      modifies this`wbuf, carrier`scheduled, carrier`padTarget, carrier`targets, carrier`drawn, carrier`delayPending,
               carrier`pos, carrier`sent, carrier`flushed, carrier`ended
      ensures SenderValid() && Idle(carrier.mode, old(Here()), Here())
      ensures Produced() == old(Produced())
      ensures op != ReadySink && r.Ready? ==> wbuf == [] && carrier.flushed == |carrier.sent|
      ensures carrier.ended == (old(carrier.ended) || (op == CloseSink && r.Ready?))
      ensures op == ReadySink && |old(wbuf)| < BACKPRESSURE_BOUNDARY ==> r == Ready(()) && wbuf == old(wbuf) && unchanged(carrier)
      ensures SinkStep(r)
    {
      if op == ReadySink && |wbuf| < BACKPRESSURE_BOUNDARY {
        return Ready(());
      }
      r := PollFlushFramed();
      if op == CloseSink && r.Ready? {
        ghost var mid := Here();
        r := carrier.PollEnd();
        IdleTrans(carrier.mode, old(Here()), mid, Here());
      }
    }

    /** Pad the buffer to the carrier's target; afterwards the carrier has no reason to ask again. */
    method ServePadding(wanted: nat) returns (error: Option<IoError>)
      requires SenderValid() && carrier.mode == Paranoid && carrier.padTarget == None
      requires carrier.scheduled == Some(wanted) && |carrier.sent| == Sum(carrier.targets)
      requires |wbuf| < wanted <= MAX_SEGMENT_LENGTH
      modifies this`wbuf, this`plain, carrier`scheduled, carrier`targets, codec`enc
      ensures SenderValid() && Accepted(plain) == old(Accepted(plain))
      ensures error.Some? ==> error.value == WORN_OUT && Worn()
      ensures Extends(old(carrier.targets), carrier.targets)
      ensures error.None? ==> carrier.Valid(|wbuf|) && (carrier.scheduled.Some? || |wbuf| >= MAX_SEGMENT_LENGTH)
    {
      error := PadTo(wanted);
      ExtendsAppend(carrier.targets, [|wbuf|]);
      if error.None? {
        carrier.PaddingAdded(|wbuf|);
        assert SenderValid();
      }
    }

    /** Pad a buffer shorter than a segment up to `wanted`, or past a whole segment. */
    method PadTo(wanted: nat) returns (error: Option<IoError>)
      requires SenderValid() && |wbuf| < wanted <= MAX_SEGMENT_LENGTH
      modifies this`wbuf, this`plain, codec`enc
      ensures SenderValid() && Accepted(plain) == old(Accepted(plain))
      ensures error.Some? ==> error.value == WORN_OUT && Worn()
      ensures error.None? ==> |wbuf| == wanted || |wbuf| >= MAX_SEGMENT_LENGTH
    {
      PaddedBufferSuffices(|wbuf|, wanted);
      PadBytesOnWire(|wbuf|, wanted);
      error := PadBurst(|wbuf|, wanted);
    }

    /**
     `poll_ready_with_iat`, `poll_flush_with_iat` and `poll_close_with_iat`: serve the
     carrier's padding requests until it accepts, stalls or fails. Between two padding
     requests the carrier completes a write, which is what bounds the loop.
     */
    method PollWithIat(op: SinkOp) returns (r: Poll<()>)
      requires SenderValid() && carrier.Valid(|wbuf|)
      modifies this`wbuf, this`plain, codec`enc, carrier`scheduled, carrier`padTarget, carrier`targets, carrier`drawn, carrier`delayPending,
               carrier`pos, carrier`sent,
               carrier`flushed, carrier`ended
      ensures SenderValid() && Idle(carrier.mode, old(Here()), Here())
      ensures op != ReadySink && r.Ready? ==> wbuf == [] && carrier.flushed == |carrier.sent|
      ensures carrier.ended == (old(carrier.ended) || (op == CloseSink && r.Ready?))
      ensures op == ReadySink && |old(wbuf)| < BACKPRESSURE_BOUNDARY ==> r == Ready(()) && wbuf == old(wbuf) && unchanged(carrier)
      ensures !r.Failed? || r.error.kind == Interrupted ==> carrier.Valid(|wbuf|)
      ensures Explained(carrier.script, old(carrier.pos), carrier.pos, Worn(), r)
    {
      while true
        invariant SenderValid() && carrier.Valid(|wbuf|) && Idle(carrier.mode, old(Here()), Here())
        invariant carrier.ended == old(carrier.ended)
        invariant op == ReadySink && |old(wbuf)| < BACKPRESSURE_BOUNDARY ==> wbuf == old(wbuf) && unchanged(carrier)
        decreases Left(), if carrier.scheduled.None? && |wbuf| < MAX_SEGMENT_LENGTH then 1 else 0
      {
        ghost var start := Here();
        var again;
        again, r := PollRound(op);
        IdleTrans(carrier.mode, old(Here()), start, Here());
        if !again {
          return;
        }
      }
    }

    /** One round: poll the sink, and if it stalls on a padding request, serve it and go round again. */
    method PollRound(op: SinkOp) returns (again: bool, r: Poll<()>)
      requires SenderValid() && carrier.Valid(|wbuf|)
      modifies this`wbuf, this`plain, codec`enc, carrier`scheduled, carrier`padTarget, carrier`targets, carrier`drawn, carrier`delayPending,
               carrier`pos, carrier`sent,
               carrier`flushed, carrier`ended
      ensures SenderValid() && Idle(carrier.mode, old(Here()), Here())
      ensures op != ReadySink && r.Ready? ==> wbuf == [] && carrier.flushed == |carrier.sent|
      ensures carrier.ended == (old(carrier.ended) || (op == CloseSink && r.Ready?))
      ensures again || !r.Failed? || r.error.kind == Interrupted ==> carrier.Valid(|wbuf|)
      ensures op == ReadySink && |old(wbuf)| < BACKPRESSURE_BOUNDARY ==>
                !again && r == Ready(()) && wbuf == old(wbuf) && unchanged(carrier)
      ensures again ==> r.Pending?
      ensures again ==>
                || Left() < old(Left())
                || (old(carrier.scheduled.None? && |wbuf| < MAX_SEGMENT_LENGTH)
                    && !(carrier.scheduled.None? && |wbuf| < MAX_SEGMENT_LENGTH))
      ensures !again ==> Explained(carrier.script, old(carrier.pos), carrier.pos, Worn(), r)
    {
      again := false;
      r := PollSink(op);
      if r.Pending? {
        ghost var mid := Here();
        again, r := ServeRequest();
        IdleTrans(carrier.mode, old(Here()), mid, Here());
      }
    }

    /** Serve the carrier's padding request, if it made one; the sink stays stalled unless that fails. */
    method ServeRequest() returns (again: bool, r: Poll<()>)
      requires SenderValid() && (if carrier.padTarget.Some? then carrier.PadRequested(|wbuf|) else carrier.Valid(|wbuf|))
      modifies this`wbuf, this`plain, carrier`padTarget, carrier`scheduled, carrier`targets, codec`enc
      ensures SenderValid() && Idle(carrier.mode, old(Here()), Here())
      ensures r.Pending? || (r == Failed(WORN_OUT) && Worn() && !again)
      ensures r.Pending? ==> again == old(carrier.padTarget.Some?)
      ensures r.Pending? ==> carrier.Valid(|wbuf|)
      ensures again ==> carrier.scheduled.Some? || |wbuf| >= MAX_SEGMENT_LENGTH
    {
      again, r := false, Pending;
      var wanted := carrier.TakePadTarget();
      if wanted.Some? {
        var error := ServePadding(wanted.value);
        again, r := error.None?, if error.None? then Pending else Failed(error.value);
      }
      LaterTargets(old(Done()), Done());
    }

    /** The mark of this moment. */
    ghost function Here(): Mark
      reads this`wbuf, this`plain, carrier`sent, carrier`targets, carrier`pos, carrier`drawn
    {
      Mark(Accepted(plain), |wbuf|, Produced(), DrawAt(carrier.draws, carrier.drawn), Worn(), Done())
    }

    ghost function Terms(): Setting {
      Setting(carrier.mode, carrier.script)
    }

    /** End a write after `lenSent` bytes: pad their burst to the next draw, unless the carrier pads for itself. */
    method PadAfterBackpressure(buf: seq<byte>, lenSent: nat, burstLen: nat, ghost m: Mark)
      requires Valid() && terminal.None? && !closed
      requires 0 < lenSent <= |buf| && burstLen == BurstLength(lenSent) && Midway(Terms(), m, Here(), buf, lenSent, burstLen)
      requires lenSent == |buf| || StopsShort(Terms(), m, carrier.pos, lenSent)
      modifies this`wbuf, this`plain, this`terminal, carrier`drawn, codec`enc
      ensures Valid() && Answers(Terms(), m, Here(), terminal, buf, Ready(lenSent))
    {
      ghost var now := Here();
      if carrier.mode != Paranoid {
        terminal := PadToDraw(burstLen);
      }
      PaddedAnswers(Terms(), m, now, Here(), terminal, buf, lenSent, burstLen);
    }

    /** Pad a burst to the next draw. */
    method PadToDraw(burstLen: nat) returns (error: Option<IoError>)
      requires SenderValid()
      modifies this`wbuf, this`plain, carrier`drawn, codec`enc
      ensures SenderValid() && Accepted(plain) == old(Accepted(plain)) && |wbuf| >= |old(wbuf)|
      ensures error.None? ==> |wbuf| == |old(wbuf)| + PadBytes(burstLen, DrawAt(carrier.draws, old(carrier.drawn)))
      ensures error.Some? ==> error.value == WORN_OUT && Worn()
    {
      var target := carrier.SampleLength();
      error := PadBurst(burstLen, target);
    }

    /**
     Accept a prefix of `buf`. The accepted bytes are enqueued exactly and in order; a stall or
     an error enqueues none of them. A sink below the boundary never stalls, and a write stops
     short only when the sink fills up and stalls. Unless the carrier pads for itself, the frames
     produced are one burst padded to the next draw.
     */
    method PollWrite(buf: seq<byte>) returns (r: Poll<nat>)
      requires Valid()
      modifies this`wbuf, this`plain, this`terminal, carrier, codec`enc
      ensures Valid()
      ensures buf == [] ==> r == Ready(0)
      ensures buf != [] && closed ==> r == Failed(ALREADY_SHUT_DOWN)
      ensures buf != [] && old(terminal).Some? ==> r == Failed(old(terminal).value)
      ensures buf == [] || closed || old(terminal).Some? ==> terminal == old(terminal) && Here() == old(Here())
      ensures buf != [] && !closed && old(terminal).None? ==> Written(Terms(), old(Here()), Here(), terminal, buf, r)
    {
      if buf == [] {
        return Ready(0);
      }
      if closed {
        return Failed(ALREADY_SHUT_DOWN);
      }
      if terminal.Some? {
        return Failed(terminal.value);
      }
      r := WriteOpen(buf);
    }

    /** A write to an open stream: once the sink is ready, the frames. */
    method WriteOpen(buf: seq<byte>) returns (r: Poll<nat>)
      requires Valid() && terminal.None? && !closed && buf != []
      modifies this`wbuf, this`plain, this`terminal, carrier, codec`enc
      ensures Valid() && Written(Terms(), old(Here()), Here(), terminal, buf, r)
    {
      ghost var first := Here();
      var refused := BecomeReady();
      if refused.Some? {
        StalledOutcome(Terms(), first, Here(), terminal, buf, refused.value);
        return refused.value;
      }
      ghost var m := Here();
      r := WriteFrames(buf, m);
      AnswersOutcome(Terms(), first, m, Here(), terminal, buf, r);
    }

    /** Wait for the sink, or say what the write then returns. */
    method BecomeReady() returns (refused: Option<Poll<nat>>)
      requires Valid() && terminal.None? && !closed
      modifies this`wbuf, this`plain, this`terminal, carrier, codec`enc
      ensures Valid() && Idle(carrier.mode, old(Here()), Here())
      ensures refused.None? ==> terminal.None? && (|old(wbuf)| < BACKPRESSURE_BOUNDARY ==> wbuf == old(wbuf))
      ensures refused.Some? ==> |old(wbuf)| >= BACKPRESSURE_BOUNDARY && Refusal(Terms(), old(carrier.pos), carrier.pos, Worn(), terminal, refused.value)
    {
      var ready := PollWithIat(ReadySink);
      match ready {
        case Pending =>
          return Some(Pending);
        case Failed(error) =>
          if error.kind == Interrupted {
            return Some(Pending);
          }
          terminal := Some(error);
          return Some(Failed(error));
        case Ready(_) =>
          return None;
      }
    }

    /** Whether the sink takes another frame; if not, the write ends with the bytes so far. */
    method AwaitReady(buf: seq<byte>, lenSent: nat, burstLen: nat, ghost m: Mark) returns (more: bool)
      requires Valid() && terminal.None? && !closed
      requires 0 < lenSent <= |buf| && burstLen == BurstLength(lenSent) && Midway(Terms(), m, Here(), buf, lenSent, burstLen)
      requires lenSent % MAX_MESSAGE_PAYLOAD_LENGTH == 0
      modifies this`wbuf, this`plain, this`terminal, carrier, codec`enc
      ensures Valid()
      ensures more ==> terminal.None? && Midway(Terms(), m, Here(), buf, lenSent, burstLen)
      ensures !more ==> Answers(Terms(), m, Here(), terminal, buf, Ready(lenSent))
    {
      ghost var now := Here();
      var ready := PollWithIat(ReadySink);
      StillMidway(Terms(), m, now, Here(), buf, lenSent, burstLen);
      match ready {
        case Ready(_) =>
          return true;
        case Pending =>
          PadAfterBackpressure(buf, lenSent, burstLen, m);
        case Failed(e) =>
          if e.kind == Interrupted {
            PadAfterBackpressure(buf, lenSent, burstLen, m);
          } else {
            terminal := Some(e);
          }
      }
      return false;
    }

    /** The frames of `poll_write`, once the sink is ready; a burst is padded once, for all bytes accepted. */
    method WriteFrames(buf: seq<byte>, ghost m: Mark) returns (r: Poll<nat>)
      requires Valid() && terminal.None? && !closed && buf != [] && m == Here()
      modifies this`wbuf, this`plain, this`terminal, carrier, codec`enc
      ensures Valid() && Answers(Terms(), m, Here(), terminal, buf, r)
    {
      var lenSent, burstLen, done := WriteFullFrames(buf, m);
      if done.Some? {
        return done.value;
      }
      r := WriteLastFrame(buf, lenSent, burstLen, m);
    }

    /** The frame loop: full frames while more than one is left to write. */
    method WriteFullFrames(buf: seq<byte>, ghost m: Mark) returns (lenSent: nat, burstLen: nat, done: Option<Poll<nat>>)
      requires Valid() && terminal.None? && !closed && buf != [] && m == Here()
      modifies this`wbuf, this`plain, this`terminal, carrier, codec`enc
      ensures Valid()
      ensures done.Some? ==> Answers(Terms(), m, Here(), terminal, buf, done.value)
      ensures done.None? ==>
                && terminal.None? && lenSent < |buf| && |buf| - lenSent <= MAX_MESSAGE_PAYLOAD_LENGTH
                && Midway(Terms(), m, Here(), buf, lenSent, burstLen)
                && burstLen + HEADER_LENGTH + |buf| - lenSent == BurstLength(|buf|)
    {
      StartsMidway(Terms(), m, buf);
      lenSent, burstLen, done := 0, 0, None;
      ghost var frames: nat := 0;
      while |buf| - lenSent > MAX_MESSAGE_PAYLOAD_LENGTH
        invariant 0 <= lenSent < |buf| && done.None?
        invariant Valid() && terminal.None? && Midway(Terms(), m, Here(), buf, lenSent, burstLen)
        invariant lenSent == MAX_MESSAGE_PAYLOAD_LENGTH * frames && burstLen == MAX_SEGMENT_LENGTH * frames
      {
        done := WriteFullFrame(buf, lenSent, burstLen, frames, m);
        if done.Some? {
          return;
        }
        burstLen := burstLen + HEADER_LENGTH + MAX_MESSAGE_PAYLOAD_LENGTH;
        lenSent, frames := lenSent + MAX_MESSAGE_PAYLOAD_LENGTH, frames + 1;
      }
      BurstOfWrite(|buf|, lenSent, burstLen, frames);
    }

    /** One round of the frame loop: a full frame, then what `poll_write` returns if the sink takes no more. */
    method WriteFullFrame(buf: seq<byte>, lenSent: nat, burstLen: nat, ghost frames: nat, ghost m: Mark)
      returns (done: Option<Poll<nat>>)
      requires Valid() && terminal.None? && !closed
      requires |buf| - lenSent > MAX_MESSAGE_PAYLOAD_LENGTH && Midway(Terms(), m, Here(), buf, lenSent, burstLen)
      requires lenSent == MAX_MESSAGE_PAYLOAD_LENGTH * frames && burstLen == MAX_SEGMENT_LENGTH * frames
      modifies this`wbuf, this`plain, this`terminal, carrier, codec`enc
      ensures Valid()
      ensures done.None? ==>
                && terminal.None?
                && Midway(Terms(), m, Here(), buf, lenSent + MAX_MESSAGE_PAYLOAD_LENGTH, burstLen + MAX_SEGMENT_LENGTH)
      ensures done.Some? ==> Answers(Terms(), m, Here(), terminal, buf, done.value)
    {
      var next := lenSent + MAX_MESSAGE_PAYLOAD_LENGTH;
      done := SendRange(buf, lenSent, next, burstLen, m);
      if done.None? {
        BurstOfWrite(next, lenSent, burstLen, frames);
        WholeFrames(next, frames + 1);
        var more := AwaitReady(buf, next, burstLen + HEADER_LENGTH + MAX_MESSAGE_PAYLOAD_LENGTH, m);
        if !more {
          return Some(Ready(next));
        }
      }
    }

    /** The rest of `buf` in one frame, then the padding of the whole burst. */
    method WriteLastFrame(buf: seq<byte>, lenSent: nat, burstLen: nat, ghost m: Mark) returns (r: Poll<nat>)
      requires Valid() && terminal.None? && !closed
      requires lenSent < |buf| && |buf| - lenSent <= MAX_MESSAGE_PAYLOAD_LENGTH
      requires Midway(Terms(), m, Here(), buf, lenSent, burstLen)
      requires burstLen + HEADER_LENGTH + |buf| - lenSent == BurstLength(|buf|)
      modifies this`wbuf, this`plain, this`terminal, carrier`drawn, codec`enc
      ensures Valid() && Answers(Terms(), m, Here(), terminal, buf, r)
      ensures r.Ready? && terminal.None? ==> r.value == |buf|
    {
      var refused := SendRange(buf, lenSent, |buf|, burstLen, m);
      if refused.Some? {
        return refused.value;
      }
      PadAfterBackpressure(buf, |buf|, burstLen + HEADER_LENGTH + |buf| - lenSent, m);
      return Ready(|buf|);
    }

    /** Enqueue `buf[from..to]` as one frame, or say what `poll_write` then returns. */
    method SendRange(buf: seq<byte>, from: nat, to: nat, burstLen: nat, ghost m: Mark) returns (refused: Option<Poll<nat>>)
      requires Valid() && terminal.None? && !closed
      requires from < to <= |buf| && to - from <= MAX_MESSAGE_PAYLOAD_LENGTH
      requires Midway(Terms(), m, Here(), buf, from, burstLen)
      modifies this`wbuf, this`plain, this`terminal, codec`enc
      ensures Valid()
      ensures refused.None? ==> terminal.None? && Midway(Terms(), m, Here(), buf, to, burstLen + HEADER_LENGTH + to - from)
      ensures refused.Some? ==> terminal.Some? && Answers(Terms(), m, Here(), terminal, buf, refused.value)
      ensures refused.Some? && refused.value.Ready? ==> refused.value.value == from
    {
      ghost var now := Here();
      var error := StartSend(buf[from..to]);
      if error.Some? {
        var r := RefusedFrame(error.value, buf, from, burstLen, m);
        return Some(r);
      }
      FrameSent(Terms(), m, now, Here(), buf, from, to, burstLen);
      return None;
    }

    /** A frame could not be encoded after `lenSent` bytes were: keep the error, report the prefix. */
    method RefusedFrame(error: IoError, buf: seq<byte>, lenSent: nat, ghost burstLen: nat, ghost m: Mark) returns (r: Poll<nat>)
      requires Valid() && terminal.None? && !closed && error == WORN_OUT && Worn()
      requires lenSent <= |buf| && Midway(Terms(), m, Here(), buf, lenSent, burstLen)
      modifies this`terminal
      ensures Valid() && terminal == Some(error) && Answers(Terms(), m, Here(), terminal, buf, r)
      ensures r == if lenSent == 0 then Failed(error) else Ready(lenSent)
    {
      if error.kind == Interrupted {
        return if lenSent == 0 then Pending else Ready(lenSent);
      }
      terminal := Some(error);
      r := if lenSent == 0 then Failed(error) else Ready(lenSent);
      RefusedAnswers(Terms(), m, Here(), error, buf, lenSent, burstLen, r);
    }

    /** Store an error unless it may be retried. */
    method Settle(r0: Poll<()>) returns (r: Poll<()>)
      requires SenderValid() && terminal.None? && !closed
      requires !r0.Failed? || r0.error.kind == Interrupted ==> carrier.Valid(|wbuf|)
      modifies this`terminal
      ensures Valid()
      ensures r.Ready? == r0.Ready?
      ensures r.Failed? <==> terminal.Some?
      ensures r.Failed? ==> r == r0 && terminal == Some(r.error)
      ensures r.Pending? ==> r0.Pending? || (r0.Failed? && r0.error.kind == Interrupted)
    {
      r := r0;
      if r0.Failed? {
        if r0.error.kind == Interrupted {
          return Pending;
        }
        terminal := Some(r0.error);
      }
    }

    /** Flush or close the sink, and keep an error that ends the stream. */
    method PollSettled(op: SinkOp) returns (r: Poll<()>)
      requires Valid() && terminal.None? && !closed && op != ReadySink
      modifies this`wbuf, this`plain, this`terminal, codec`enc, carrier`scheduled, carrier`padTarget, carrier`targets, carrier`drawn, carrier`delayPending,
               carrier`pos, carrier`sent,
               carrier`flushed, carrier`ended
      ensures Valid() && Idle(carrier.mode, old(Here()), Here())
      ensures carrier.ended == (old(carrier.ended) || (op == CloseSink && r.Ready?))
      ensures SettledOutcome(r)
    {
      var polled := PollWithIat(op);
      r := Settle(polled);
    }

    /** What a flush or close of an open stream comes to. */
    twostate predicate SettledOutcome(new r: Poll<()>)
      reads this, carrier
    {
      && (r.Ready? ==> wbuf == [] && carrier.flushed == |carrier.sent| && terminal.None?)
      && (r.Pending? ==> Stalled(carrier.script, old(carrier.pos), carrier.pos) && terminal.None?)
      && (r.Failed? ==> terminal == Some(r.error) && Excused(carrier.script, old(carrier.pos), carrier.pos, Worn(), r.error))
    }

    /** Success means that the transport has taken and flushed everything; a stall or an error has its cause. */
    method PollFlush() returns (r: Poll<()>)
      requires Valid()
      modifies this`wbuf, this`plain, this`terminal, carrier, codec`enc
      ensures Valid() && Idle(carrier.mode, old(Here()), Here())
      ensures closed ==> r.Ready? && wbuf == []
      ensures !closed && old(terminal).Some? ==> r == Failed(old(terminal).value) && terminal == old(terminal)
      ensures !closed && old(terminal).None? ==> SettledOutcome(r)
    {
      if closed {
        return Ready(());
      }
      if terminal.Some? {
        return Failed(terminal.value);
      }
      r := PollSettled(FlushSink);
    }

    /** Shutdown completes with everything taken and flushed and the transport shut down; from the first attempt on no delay is armed. */
    method PollShutdown() returns (r: Poll<()>)
      requires Valid()
      modifies this`wbuf, this`plain, this`terminal, this`closed, carrier, codec`enc
      ensures Valid() && Idle(carrier.mode, old(Here()), Here())
      ensures old(closed) ==> r.Ready? && wbuf == []
      ensures !old(closed) && old(terminal).Some? ==> r == Failed(old(terminal).value) && terminal == old(terminal)
      ensures !old(closed) && old(terminal).None? ==> SettledOutcome(r) && carrier.shutdownRequested
      ensures closed == (old(closed) || r.Ready?)
      ensures !old(closed) && r.Ready? ==> carrier.ended
    {
      if closed {
        return Ready(());
      }
      if terminal.Some? {
        return Failed(terminal.value);
      }
      carrier.ClearDelay();
      r := PollSettled(CloseSink);
      if r.Ready? {
        closed := true;
      }
    }

    // ------------------------------------------------------------ receiving

    /** The transport below hands over a prefix of the bytes in flight, reports the end, stalls or fails. */
    method InnerPollRead(inFlight: seq<byte>) returns (r: Poll<seq<byte>>)
      modifies this`fed
      ensures fed == old(fed) + 1
      ensures r == match At(feed, old(fed))
                   case Go(n) => if n > 0 && inFlight == [] then Pending else Ready(inFlight[..Min(n, |inFlight|)])
                   case Wait => Pending
                   case Break(e) => Failed(e)
    {
      var a := At(feed, fed);
      fed := fed + 1;
      match a {
        case Go(n) =>
          return if n > 0 && inFlight == [] then Pending else Ready(inFlight[..Min(n, |inFlight|)]);
        case Wait =>
          return Pending;
        case Break(e) =>
          return Failed(e);
      }
    }

    /** One call of the decoder on the read buffer. */
    method DecodeBuffered() returns (out: Outcome)
      requires DecoderValid() && readable && !errored
      modifies this`rbuf, this`readable, this`errored, this`handled, this`failed, codec`dec
      ensures DecoderValid()
      ensures old(failed) ==> failed
      ensures out.Item? ==> |rbuf| < |old(rbuf)| && readable && !errored && failed == old(failed)
      ensures !out.Item? ==> |rbuf| <= |old(rbuf)|
      ensures out.Item? && !failed ==> handled == old(handled) + [out.message]
      ensures out.Item? && out.message.Payload? ==> out.message.bytes != []
      ensures out.NeedMore? ==> handled == old(handled) && failed == old(failed) && !readable && !errored
      ensures out.Fail? ==> failed && errored
      ensures out.Fail? && !old(failed) ==>
                var all := Arrived();
                all.messages == handled == old(handled) && all.error == Some(out.error)
    {
      DecodedPayloadNonEmpty(codec.opener, codec.dec, rbuf);
      if !failed {
        ReaderDecodes(codec.opener, received, codec.dec, rbuf, handled);
      }
      rbuf, out := codec.Decode(rbuf);
      match out {
        case NeedMore =>
          readable := false;
        case Fail(_) =>
          failed, errored := true, true;
        case Item(m) =>
          handled := handled + [m];
      }
    }

    /** Take a chunk off the wire; true when the end of the stream is reported a second time. */
    method Receive(inFlight: seq<byte>) returns (r: Poll<bool>, left: seq<byte>)
      requires DecoderValid() && !readable && !errored
      modifies this`rbuf, this`readable, this`eof, this`errored, this`received, this`fed
      ensures DecoderValid() && fed == old(fed) + 1
      ensures |left| <= |inFlight| && received + left == old(received) + inFlight
      ensures r == Ready(false) ==> readable && !errored && (|left| < |inFlight| || (rbuf == old(rbuf) && eof && !old(eof)))
      ensures r != Ready(false) ==> !readable && rbuf == old(rbuf) && eof == old(eof)
      ensures r.Pending? ==> !errored && Starved(feed, old(fed), fed, left)
      ensures r.Failed? ==> Told(feed, old(fed), fed, Break(r.error))
      ensures r == Ready(true) ==> !errored && eof
      ensures r.Ready? && eof ==> Told(feed, old(fed), fed, Go(0))
    {
      left := inFlight;
      var chunk := InnerPollRead(inFlight);
      match chunk {
        case Pending =>
          return Pending, left;
        case Failed(e) =>
          errored := true;
          return Failed(e), left;
        case Ready(bytes) =>
          if bytes == [] && eof {
            return Ready(true), left;
          }
          ReaderReceives(codec.opener, received, codec.dec, rbuf, handled, failed, bytes);
          left := inFlight[|bytes|..];
          ReceivedSplits(received, bytes, inFlight);
          received, rbuf := received + bytes, rbuf + bytes;
          eof, readable := bytes == [], true;
          return Ready(false), left;
      }
    }

    /** A decoder that asks for more has handled everything received. */
    lemma Drain()
      requires DecoderValid() && (!readable || errored)
      ensures !failed ==> handled == Arrived().messages
    {
      if !failed {
        ReaderDrained(codec.opener, received, codec.dec, rbuf, handled);
      }
    }

    /** What the buffer yields by itself: a message, an error, the end; pending when bytes are needed. */
    method DecodePhase() returns (r: Poll<Option<Message>>)
      requires DecoderValid()
      modifies this`rbuf, this`readable, this`errored, this`handled, this`failed, codec`dec
      ensures DecoderValid() && |rbuf| <= |old(rbuf)|
      ensures r.Pending? ==> !readable && !errored && !(eof && old(readable)) && failed == old(failed) && (!failed ==> handled == old(handled))
      ensures r.Ready? ==> failed == old(failed)
      ensures r.Ready? && r.value.Some? ==> |rbuf| < |old(rbuf)| && (!failed ==> handled == old(handled) + [r.value.value])
      ensures r.Ready? && r.value.Some? && r.value.value.Payload? ==> r.value.value.bytes != []
      ensures r.Ready? && r.value.None? && !failed ==> handled == old(handled) == Arrived().messages
      ensures r.Ready? && r.value.None? ==> old(errored) || (eof && old(readable))
      ensures errored ==> r.Failed?
      ensures r.Failed? ==> failed
      ensures failed && !old(failed) ==>
                r.Failed? && Arrived().error.Some? && r.error == ToIo(Arrived().error.value) && Arrived().messages == handled == old(handled)
    {
      if errored {
        Drain();
        readable, errored := false, false;
        return Ready(None);
      }
      if readable {
        var out := DecodeBuffered();
        match out {
          case Item(m) =>
            return Ready(Some(m));
          case Fail(e) =>
            return Failed(ToIo(e));
          case NeedMore =>
            Drain();
            if eof {
              return Ready(None);
            }
        }
      }
      return Pending;
    }

    /** Why the framed source gave `r`: a stall was told, the end was told now or before, an error was told or is the decoder's. */
    twostate predicate SourceStep(new r: Poll<Option<Message>>, new left: seq<byte>)
      reads this
    {
      && old(fed) <= fed
      && (r.Pending? ==> Starved(feed, old(fed), fed, left))
      && (r.Failed? ==> failed || Told(feed, old(fed), fed, Break(r.error)))
      && (r == Ready(None) ==> old(errored) || (old(eof) && fed == old(fed)) || Told(feed, old(fed), fed, Go(0)))
      && (r.Ready? && eof ==> (old(eof) && fed == old(fed)) || Told(feed, old(fed), fed, Go(0)))
      && (errored ==> r.Failed?)
    }

    /** The framed source: the next message, the end of the stream, or an error. */
    method PollNext(inFlight: seq<byte>) returns (r: Poll<Option<Message>>, left: seq<byte>)
      requires DecoderValid()
      modifies this`rbuf, this`readable, this`eof, this`errored, this`handled, this`failed, this`received, this`fed, codec`dec
      ensures DecoderValid()
      ensures |left| <= |inFlight| && received + left == old(received) + inFlight
      ensures old(failed) ==> failed
      ensures r.Ready? && r.value.Some? ==> |left| < |inFlight| || |rbuf| < |old(rbuf)|
      ensures r.Ready? && r.value.Some? && !failed ==> handled == old(handled) + [r.value.value]
      ensures r.Ready? && r.value.Some? && r.value.value.Payload? ==> r.value.value.bytes != []
      ensures !failed && !(r.Ready? && r.value.Some?) ==> handled == old(handled) == Arrived().messages
      ensures failed && !old(failed) ==>
                var all := Arrived();
                r.Failed? && all.error.Some? && r.error == ToIo(all.error.value) && all.messages == handled == old(handled)
      ensures SourceStep(r, left)
    {
      left := inFlight;
      while true
        invariant DecoderValid()
        invariant |left| <= |inFlight| && received + left == old(received) + inFlight
        invariant failed == old(failed)
        invariant !failed ==> handled == old(handled)
        invariant |left| < |inFlight| || |rbuf| <= |old(rbuf)|
        invariant old(fed) <= fed && (errored ==> old(errored))
        invariant eof ==> (old(eof) && fed == old(fed)) || (readable && Told(feed, old(fed), fed, Go(0)))
        decreases |left|, if eof then 0 else 1, if readable then 1 else 0
      {
        var again;
        again, r, left := NextRound(left);
        if !again {
          return;
        }
      }
    }

    /** One round of the framed source: what the buffer yields, and if that is nothing, a chunk. */
    method NextRound(inFlight: seq<byte>) returns (again: bool, r: Poll<Option<Message>>, left: seq<byte>)
      requires DecoderValid()
      modifies this`rbuf, this`readable, this`eof, this`errored, this`handled, this`failed, this`received, this`fed, codec`dec
      ensures DecoderValid() && old(fed) <= fed
      ensures |left| <= |inFlight| && received + left == old(received) + inFlight
      ensures again ==> failed == old(failed) && (!failed ==> handled == old(handled)) && readable && !errored
      ensures again ==> |left| < |inFlight| || (|rbuf| <= |old(rbuf)| && eof && !old(eof))
      ensures again && eof ==> Told(feed, old(fed), fed, Go(0))
      ensures old(failed) ==> failed
      ensures !again && r.Ready? && r.value.Some? ==> |rbuf| < |old(rbuf)| && eof == old(eof) && fed == old(fed)
      ensures !again && r.Ready? && r.value.Some? && !failed ==> handled == old(handled) + [r.value.value]
      ensures !again && r.Ready? && r.value.Some? && r.value.value.Payload? ==> r.value.value.bytes != []
      ensures !again && !failed && !(r.Ready? && r.value.Some?) ==> handled == old(handled) == Arrived().messages
      ensures !again && failed && !old(failed) ==>
                var all := Arrived();
                r.Failed? && all.error.Some? && r.error == ToIo(all.error.value) && all.messages == handled == old(handled)
      ensures !again && r.Pending? ==> Starved(feed, old(fed), fed, left)
      ensures !again && r.Failed? ==> failed || Told(feed, old(fed), fed, Break(r.error))
      ensures !again && r == Ready(None) ==> old(errored) || (old(eof) && fed == old(fed)) || Told(feed, old(fed), fed, Go(0))
      ensures !again && r == Ready(None) && eof ==> old(eof) && (fed == old(fed) || Told(feed, old(fed), fed, Go(0)))
      ensures !again && errored ==> r.Failed?
    {
      again, left := false, inFlight;
      r := DecodePhase();
      if r.Pending? {
        again, r, left := ReceiveRound(inFlight);
      }
    }

    /** The buffer yields nothing: take a chunk and go round again, or say why not. */
    method ReceiveRound(inFlight: seq<byte>) returns (again: bool, r: Poll<Option<Message>>, left: seq<byte>)
      requires DecoderValid() && !readable && !errored
      modifies this`rbuf, this`readable, this`eof, this`errored, this`received, this`fed
      ensures DecoderValid() && fed == old(fed) + 1
      ensures |left| <= |inFlight| && received + left == old(received) + inFlight
      ensures again ==> readable && !errored && (|left| < |inFlight| || (rbuf == old(rbuf) && eof && !old(eof)))
      ensures again && eof ==> Told(feed, old(fed), fed, Go(0))
      ensures !again ==> r.Pending? || r.Failed? || r == Ready(None)
      ensures !again ==> eof == old(eof) && (!failed ==> handled == Arrived().messages)
      ensures !again && r.Pending? ==> Starved(feed, old(fed), fed, left)
      ensures !again && r.Failed? ==> Told(feed, old(fed), fed, Break(r.error))
      ensures !again && r == Ready(None) ==> Told(feed, old(fed), fed, Go(0))
      ensures !again && errored ==> r.Failed?
    {
      again, r := false, Pending;
      var ended;
      ended, left := Receive(inFlight);
      if ended != Ready(false) {
        Drain();
      }
      match ended {
        case Pending =>
        case Failed(e) =>
          r := Failed(e);
        case Ready(true) =>
          r := Ready(None);
        case Ready(false) =>
          again := true;
      }
    }

    /** A length seed from the server re-seeds a client's distributions; padding is ignored. */
    method HandleNonPayload(m: Message)
      requires !m.Payload?
      modifies this`lenSeed, this`delaySeed
      ensures lenSeed == if m.PrngSeed? && isClient then m.seed else old(lenSeed)
      ensures delaySeed == if m.PrngSeed? && isClient then digest(m.seed) else old(delaySeed)
    {
      if m.PrngSeed? && isClient {
        lenSeed := m.seed;
        delaySeed := digest(m.seed);
      }
    }

    /** Give the caller up to `room` bytes of `message` and park the rest. */
    method StashPayload(message: seq<byte>, room: nat) returns (out: seq<byte>)
      requires residual == []
      modifies this`residual, this`delivered
      ensures out + residual == message && |out| == Min(room, |message|)
      ensures delivered == old(delivered) + out
    {
      var n := Min(room, |message|);
      out := message[..n];
      delivered := delivered + out;
      if n < |message| {
        residual := residual + message[n..];
      }
    }

    /** Give the caller up to `room` parked bytes. */
    method DrainResidual(room: nat) returns (out: seq<byte>)
      modifies this`residual, this`delivered
      ensures out + residual == old(residual) && |out| == Min(room, |old(residual)|)
      ensures delivered == old(delivered) + out
    {
      var n := Min(room, |residual|);
      out := residual[..n];
      delivered := delivered + out;
      residual := residual[n..];
    }

    /** Why a read gave `r`: it returned bytes, or what the transport told it last accounts for it. */
    twostate predicate ReadStep(room: nat, new r: Poll<seq<byte>>, new left: seq<byte>)
      reads this
    {
      && old(fed) <= fed
      && (r.Pending? ==> Starved(feed, old(fed), fed, left))
      && (r.Failed? ==> failed || Told(feed, old(fed), fed, Break(r.error)))
      && (r == Ready([]) && room > 0 ==> old(errored) || old(eof) || Told(feed, old(fed), fed, Go(0)))
    }

    /**
     Read at most `room` bytes, taking what it needs from `inFlight`. When it returns no
     bytes, because it stalls, the transport fails or the stream has ended, everything that
     decodes out of the bytes received has been handed out; the first failure to decode is
     reported with all messages before it handled.
     */
    method PollRead(room: nat, inFlight: seq<byte>) returns (r: Poll<seq<byte>>, left: seq<byte>)
      requires ReaderValid()
      modifies this`rbuf, this`readable, this`eof, this`errored, this`handled, this`failed, this`received,
               this`fed, this`residual, this`delivered, this`lenSeed, this`delaySeed, codec`dec
      ensures ReaderValid()
      ensures |left| <= |inFlight| && received + left == old(received) + inFlight
      ensures room == 0 ==> r == Ready([]) && received == old(received) && delivered == old(delivered)
      ensures r.Ready? ==> |r.value| <= room && (residual != [] && room > 0 ==> |r.value| == room)
      ensures delivered == old(delivered) + if r.Ready? then r.value else []
      ensures ReadStep(room, r, left)
      ensures room > 0 && !failed && !(r.Ready? && r.value != []) ==>
                residual == [] && delivered == Content(Arrived().messages)
      ensures failed && !old(failed) ==>
                var all := Arrived();
                r.Failed? && all.error.Some? && r.error == ToIo(all.error.value) && delivered == Content(all.messages)
    {
      left := inFlight;
      if room == 0 {
        return Ready([]), left;
      }
      if residual != [] {
        var out := DrainResidual(room);
        Assoc(old(delivered), out, residual);
        return Ready(out), left;
      }
      r, left := ReadMessages(room, inFlight);
    }

    /** The message loop of `poll_read`, entered with nothing parked. */
    method ReadMessages(room: nat, inFlight: seq<byte>) returns (r: Poll<seq<byte>>, left: seq<byte>)
      requires ReaderValid() && residual == [] && room > 0
      modifies this`rbuf, this`readable, this`eof, this`errored, this`handled, this`failed, this`received,
               this`fed, this`residual, this`delivered, this`lenSeed, this`delaySeed, codec`dec
      ensures ReaderValid()
      ensures |left| <= |inFlight| && received + left == old(received) + inFlight
      ensures r.Ready? ==> |r.value| <= room && (residual != [] && room > 0 ==> |r.value| == room)
      ensures delivered == old(delivered) + if r.Ready? then r.value else []
      ensures ReadStep(room, r, left)
      ensures room > 0 && !failed && !(r.Ready? && r.value != []) ==>
                residual == [] && delivered == Content(Arrived().messages)
      ensures failed && !old(failed) ==>
                var all := Arrived();
                r.Failed? && all.error.Some? && r.error == ToIo(all.error.value) && delivered == Content(all.messages)
    {
      left := inFlight;
      while true
        invariant ReaderValid() && residual == [] && delivered == old(delivered)
        invariant |left| <= |inFlight| && received + left == old(received) + inFlight
        invariant failed == old(failed)
        invariant old(fed) <= fed && (errored ==> old(errored))
        invariant eof ==> old(eof) || Told(feed, old(fed), fed, Go(0))
        decreases |left|, |rbuf|
      {
        var done;
        done, r, left := ReadRound(room, left);
        if done {
          return;
        }
      }
    }

    /** One message, disposed of; done unless it carried no payload. */
    method ReadRound(room: nat, inFlight: seq<byte>) returns (done: bool, r: Poll<seq<byte>>, left: seq<byte>)
      requires ReaderValid() && residual == [] && room > 0
      modifies this`rbuf, this`readable, this`eof, this`errored, this`handled, this`failed, this`received,
               this`fed, this`residual, this`delivered, this`lenSeed, this`delaySeed, codec`dec
      ensures ReaderValid()
      ensures |left| <= |inFlight| && received + left == old(received) + inFlight
      ensures !done ==> residual == [] && delivered == old(delivered) && failed == old(failed)
      ensures !done ==> |left| < |inFlight| || |rbuf| < |old(rbuf)|
      ensures !done ==> old(fed) <= fed && !errored && (eof ==> (old(eof) && fed == old(fed)) || Told(feed, old(fed), fed, Go(0)))
      ensures done && r.Ready? ==> |r.value| <= room && (residual != [] ==> |r.value| == room)
      ensures done ==> delivered == old(delivered) + if r.Ready? then r.value else []
      ensures done && !failed && !(r.Ready? && r.value != []) ==> residual == [] && delivered == Content(Arrived().messages)
      ensures done && failed && !old(failed) ==>
                var all := Arrived();
                r.Failed? && all.error.Some? && r.error == ToIo(all.error.value) && delivered == Content(all.messages)
      ensures done ==> RoundStep(r, left)
    {
      ghost var before := handled;
      var next;
      next, left := PollNext(inFlight);
      done, r := true, Pending;
      match next {
        case Pending =>
        case Failed(e) =>
          r := Failed(e);
        case Ready(None) =>
          r := Ready([]);
        case Ready(Some(m)) =>
          SeedSnoc(before, m, ownSeed);
          var out := Deliver(m, room, before);
          done, r := m.Payload?, Ready(out);
      }
    }

    /** As `ReadStep`, for one round. */
    twostate predicate RoundStep(new r: Poll<seq<byte>>, new left: seq<byte>)
      reads this
    {
      && old(fed) <= fed
      && (r.Pending? ==> Starved(feed, old(fed), fed, left))
      && (r.Failed? ==> failed || Told(feed, old(fed), fed, Break(r.error)))
      && (r == Ready([]) ==> old(errored) || (old(eof) && fed == old(fed)) || Told(feed, old(fed), fed, Go(0)))
    }

    /** Dispose of the message just decoded. */
    method Deliver(m: Message, room: nat, ghost before: seq<Message>) returns (out: seq<byte>)
      requires residual == []
      modifies this`residual, this`delivered, this`lenSeed, this`delaySeed
      ensures |out| <= room && delivered == old(delivered) + out
      ensures m.Payload? ==> |out| == Min(room, |m.bytes|) && |out| + |residual| == |m.bytes|
      ensures lenSeed == if m.PrngSeed? && isClient then m.seed else old(lenSeed)
      ensures delaySeed == if m.PrngSeed? && isClient then digest(m.seed) else old(delaySeed)
      ensures old(delivered) == Content(before) ==> delivered + residual == Content(before + [m])
      ensures !m.Payload? ==> out == [] && residual == []
    {
      ContentSnoc(before, m);
      out := [];
      if m.Payload? {
        out := StashPayload(m.bytes, room);
        Assoc(old(delivered), out, residual);
      } else {
        HandleNonPayload(m);
      }
    }

    /**
     Bytes read together with the server's hello are decoded before the stream is
     used: afterwards the reader stands as if they had arrived as its first chunk.
     */
    method SeedFromHandshake(overread: seq<byte>) returns (error: Option<FrameError>)
      requires ReaderValid() && codec.dec == InitDec(codec.opener)
      requires received == [] && rbuf == [] && residual == [] && delivered == [] && handled == []
      requires !failed && !readable && !errored
      modifies this`rbuf, this`readable, this`errored, this`handled, this`failed, this`received,
               this`residual, this`lenSeed, this`delaySeed, codec`dec
      ensures received == overread
      ensures error == DecodeAll(codec.opener, InitDec(codec.opener), overread).error
      ensures error.None? ==>
                && ReaderValid() && !failed && handled == Arrived().messages
                && residual == Content(handled) && delivered == []
    {
      ReaderReceives(codec.opener, [], codec.dec, [], [], false, overread);
      assert [] + overread == overread;
      received, rbuf, readable := overread, overread, true;
      while true
        invariant DecoderValid() && !failed && readable && !errored
        invariant received == overread && residual == Content(handled) && SeedsFollow()
        decreases |rbuf|
      {
        var out := ParkNext();
        match out {
          case NeedMore =>
            ReaderDrained(codec.opener, received, codec.dec, rbuf, handled);
            return None;
          case Fail(e) =>
            return Some(e);
          case Item(_) =>
        }
      }
    }

    /** Decode one message and park its payload. */
    method ParkNext() returns (out: Outcome)
      requires DecoderValid() && !failed && readable && !errored && residual == Content(handled) && SeedsFollow()
      modifies this`rbuf, this`readable, this`errored, this`handled, this`failed, this`residual, this`lenSeed, this`delaySeed, codec`dec
      ensures DecoderValid()
      ensures out.Item? ==> !failed && readable && !errored && |rbuf| < |old(rbuf)|
      ensures out.NeedMore? ==> !failed && !readable && !errored
      ensures !out.Fail? ==> residual == Content(handled) && SeedsFollow()
      ensures out.Fail? ==> Arrived().error == Some(out.error)
    {
      ghost var before := handled;
      out := DecodeBuffered();
      if out.Item? {
        Park(out.message, before);
      }
    }

    /** Park a payload, follow a seed. */
    method Park(m: Message, ghost before: seq<Message>)
      requires residual == Content(before)
      requires lenSeed == (if isClient then SeedAfter(before, ownSeed) else ownSeed) && delaySeed == digest(lenSeed)
      modifies this`residual, this`lenSeed, this`delaySeed
      ensures residual == Content(before + [m])
      ensures lenSeed == (if isClient then SeedAfter(before + [m], ownSeed) else ownSeed) && delaySeed == digest(lenSeed)
    {
      ContentSnoc(before, m);
      SeedSnoc(before, m, ownSeed);
      if m.Payload? {
        residual := residual + m.bytes;
      } else {
        assert Content(before) + [] == Content(before);
        HandleNonPayload(m);
      }
    }
  }
}
