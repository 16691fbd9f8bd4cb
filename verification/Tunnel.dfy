/** A client's and a server's stream that share key material behave as two byte pipes. */
module Tunnel {
  import opened Bytes
  import opened Framing
  import opened Environment
  import opened Sealing
  import opened Codec
  import opened Carrier
  import opened Stream

  // ------------------------------------------------------------- one direction

  /** The receiver opens what the sender seals, over a transport that neither alters nor reorders bytes. */
  ghost predicate Connected(tx: O4Stream, rx: O4Stream)
    reads tx, rx, tx.codec, rx.codec, tx.carrier
  {
    && tx.SenderValid() && rx.ReaderValid()
    && tx.codec.sealer == rx.codec.opener
    && rx.received <= tx.hello + tx.carrier.sent
  }

  /** What a sender has put on the wire so far decodes without error to a beginning of what it enqueued, and all of it to all. */
  lemma WireDecodes(tx: O4Stream, seen: seq<byte>)
    requires tx.SenderValid() && seen <= tx.hello + tx.carrier.sent
    ensures var r := DecodeAll(tx.codec.sealer, InitDec(tx.codec.sealer), seen);
            && r.error == None && r.messages <= MessagesOf(tx.plain)
            && (tx.wbuf == [] && seen == tx.hello + tx.carrier.sent ==> r.messages == MessagesOf(tx.plain))
  {
    OpeningInv(tx.codec.sealer, tx.isClient, tx.ownSeed);
    ContinuesSealable(Opening(tx.isClient, tx.ownSeed), tx.plain);
    Assoc(tx.hello, tx.carrier.sent, tx.wbuf);
    assert tx.carrier.sent + [] == tx.carrier.sent;
    SealedDecodes(tx.codec.sealer, tx.plain, seen);
  }

  /** What the reader has returned is always a prefix of what the writer has accepted. */
  lemma DeliveredIsPrefixOfAccepted(tx: O4Stream, rx: O4Stream)
    requires Connected(tx, rx)
    ensures !rx.failed
    ensures rx.delivered <= Accepted(tx.plain)
  {
    WireDecodes(tx, rx.received);
    MessagesCarry(tx.plain);
    ContentMonotone(rx.handled, MessagesOf(tx.plain));
  }

  lemma ContentMonotone(a: seq<Message>, b: seq<Message>)
    requires a <= b
    ensures Content(a) <= Content(b)
  {
    ContentAppend(a, b[|a|..]);
    assert a + b[|a|..] == b;
  }

  /** Once the writer is flushed, the wire empty and the reader without bytes to give, every accepted byte has been returned. */
  lemma DrainedPipeDeliversAll(tx: O4Stream, rx: O4Stream)
    requires Connected(tx, rx)
    requires tx.wbuf == [] && rx.received == tx.hello + tx.carrier.sent
    requires rx.Exhausted()
    ensures rx.delivered == Accepted(tx.plain)
  {
    WireDecodes(tx, rx.received);
    MessagesCarry(tx.plain);
  }

  /** A client that has handled anything from a server shapes its bursts from the server's seed. */
  lemma SeedIsShared(server: O4Stream, client: O4Stream)
    requires Connected(server, client) && !server.isClient && client.isClient
    requires client.handled != []
    ensures client.lenSeed == server.ownSeed && client.delaySeed == client.digest(server.ownSeed)
  {
    DeliveredIsPrefixOfAccepted(server, client);
    WireDecodes(server, client.received);
    assert client.handled <= MessagesOf(server.plain);
    HonestMessages(server.plain, server.ownSeed);
    SeedInForce(client.handled, server.ownSeed, client.ownSeed);
  }

  /** The wire image of a server's length seed, which ends its hello. */
  ghost function SeedImage(c: Cipher, seed: seq<byte>): seq<byte> {
    WireOf(c, Opening(false, seed)).bytes
  }

  /** A client that has received the whole hello, and handled what it received, has the server's seed. */
  lemma HelloSetsSeed(server: O4Stream, client: O4Stream)
    requires Connected(server, client) && !server.isClient && client.isClient
    requires client.handled == client.Arrived().messages
    requires SeedImage(server.codec.sealer, server.ownSeed) <= client.received
    ensures client.lenSeed == server.ownSeed
  {
    SeedArrives(server.codec.sealer, server.ownSeed, client.received);
    SeedIsShared(server, client);
  }

  // ---------------------------------------------------------------------- calls

  datatype Op = Write(buf: seq<byte>) | Flush | Shutdown | Read(room: nat)

  /** A call at one of the two ends. */
  datatype Call = Call(atServer: bool, op: Op)

  /** A call with the bytes it accepted and the bytes it returned. */
  datatype Event = Event(call: Call, took: seq<byte>, gave: seq<byte>)

  /** Only a write accepts bytes, a prefix of its buffer; only a read returns bytes, at most its room. */
  predicate Fits(op: Op, took: seq<byte>, gave: seq<byte>) {
    match op
    case Write(buf) => took <= buf && gave == []
    case Read(room) => took == [] && |gave| <= room
    case _ => took == [] && gave == []
  }

  /** A read that could return something. */
  predicate HasRoom(op: Op) { op.Read? && op.room > 0 }

  /** A call of the writing half. */
  method SendAt(s: O4Stream, op: Op) returns (took: seq<byte>)
    requires s.Valid() && !op.Read?
    modifies s`wbuf, s`plain, s`terminal, s`closed, s.codec`enc, s.carrier
    ensures s.Valid() && Later(old(s.Done()), s.Done())
    ensures Fits(op, took, [])
    ensures Accepted(s.plain) == old(Accepted(s.plain)) + took
  {
    took := [];
    match op {
      case Write(buf) =>
        var r := s.PollWrite(buf);
        if r.Ready? {
          took := buf[..r.value];
        }
      case Flush =>
        var _ := s.PollFlush();
      case Shutdown =>
        var _ := s.PollShutdown();
    }
  }

  /** A read. */
  method ReadAt(s: O4Stream, room: nat, incoming: seq<byte>) returns (gave: seq<byte>, left: seq<byte>)
    requires s.ReaderValid()
    modifies s`rbuf, s`readable, s`eof, s`errored, s`handled, s`failed, s`received, s`residual, s`delivered, s`lenSeed,
             s`delaySeed, s`fed, s.codec`dec
    ensures s.ReaderValid()
    ensures |gave| <= room && s.delivered == old(s.delivered) + gave
    ensures s.received + left == old(s.received) + incoming
    ensures room == 0 ==> s.received == old(s.received) && s.delivered == old(s.delivered)
    ensures room > 0 && gave == [] && !s.failed ==> s.Exhausted()
  {
    var r;
    r, left := s.PollRead(room, incoming);
    gave := if r.Ready? then r.value else [];
  }

  /** What a stream has done for its caller and its transport. */
  datatype View = View(accepted: seq<byte>, delivered: seq<byte>, received: seq<byte>, done: Trail)

  ghost function ViewOf(s: O4Stream): View
    reads s`plain, s`delivered, s`received, s.carrier
  {
    View(Accepted(s.plain), s.delivered, s.received, s.Done())
  }

  /** The effect of a call: it accepts `took`, returns `gave`, and of the bytes `incoming` leaves `left`. */
  ghost predicate Effect(op: Op, before: View, after: View, took: seq<byte>, gave: seq<byte>, incoming: seq<byte>, left: seq<byte>) {
    && Fits(op, took, gave)
    && after.accepted == before.accepted + took && after.delivered == before.delivered + gave
    && after.received + left == before.received + incoming
    && (!HasRoom(op) ==> after.received == before.received && after.delivered == before.delivered)
    && Later(before.done, after.done)
  }

  /** A call of one half leaves the other alone. */
  method SendOnly(s: O4Stream, op: Op, ghost incoming: seq<byte>) returns (took: seq<byte>)
    requires s.Valid() && s.ReaderValid() && !op.Read?
    modifies s`wbuf, s`plain, s`terminal, s`closed, s.codec`enc, s.carrier
    ensures s.Valid() && s.ReaderValid()
    ensures Effect(op, old(ViewOf(s)), ViewOf(s), took, [], incoming, incoming)
  {
    assert s.delivered + [] == s.delivered;
    took := SendAt(s, op);
    s.ReaderUntouched();
  }

  method ReadOnly(s: O4Stream, op: Op, incoming: seq<byte>) returns (gave: seq<byte>, left: seq<byte>)
    requires s.Valid() && s.ReaderValid() && op.Read?
    modifies s`rbuf, s`readable, s`eof, s`errored, s`handled, s`failed, s`received, s`residual, s`delivered, s`lenSeed,
             s`delaySeed, s`fed, s.codec`dec
    ensures s.Valid() && s.ReaderValid()
    ensures Effect(op, old(ViewOf(s)), ViewOf(s), [], gave, incoming, left)
    ensures HasRoom(op) && gave == [] && !s.failed ==> s.Exhausted()
  {
    assert Accepted(s.plain) + [] == Accepted(s.plain);
    gave, left := ReadAt(s, op.room, incoming);
    s.WriterUntouched();
  }

  /** Any call at a stream, with the bytes on their way to it. */
  method CallAt(s: O4Stream, op: Op, incoming: seq<byte>) returns (took: seq<byte>, gave: seq<byte>, left: seq<byte>)
    requires s.Valid() && s.ReaderValid()
    modifies s, s.codec, s.carrier
    ensures s.Valid() && s.ReaderValid()
    ensures Effect(op, old(ViewOf(s)), ViewOf(s), took, gave, incoming, left)
    ensures HasRoom(op) && gave == [] && !s.failed ==> s.Exhausted()
  {
    took, gave, left := [], [], incoming;
    if op.Read? {
      gave, left := ReadOnly(s, op, incoming);
    } else {
      took := SendOnly(s, op, incoming);
    }
  }

  // -------------------------------------------------------------- both directions

  /** The receiver's bytes and those in flight are all that was put on the wire. */
  ghost predicate Linked(tx: O4Stream, rx: O4Stream, wire: seq<byte>)
    reads rx`received, tx.carrier
  {
    tx.codec.sealer == rx.codec.opener && rx.received + wire == tx.hello + tx.carrier.sent
  }

  /** Two streams back to back, with what is in flight towards each. */
  ghost predicate Paired(client: O4Stream, server: O4Stream, up: seq<byte>, down: seq<byte>)
    reads client, client.codec, client.carrier, server, server.codec, server.carrier
  {
    && client != server && client.codec != server.codec && client.carrier != server.carrier
    && client.Valid() && client.ReaderValid() && server.Valid() && server.ReaderValid()
    && Linked(client, server, up) && Linked(server, client, down)
  }

  lemma WireGrows(received: seq<byte>, inFlight: seq<byte>, hello: seq<byte>, before: seq<byte>, after: seq<byte>)
    requires received + inFlight == hello + before && Extends(before, after)
    ensures before <= after
    ensures received + (inFlight + after[|before|..]) == hello + after
  {
    ExtendsPrefix(before, after);
    assert after == before + after[|before|..];
    Assoc(received, inFlight, after[|before|..]);
    Assoc(hello, before, after[|before|..]);
  }

  /** A call at `s` moves bytes to and from its peer and leaves the peer alone. */
  method Exchange(s: O4Stream, peer: O4Stream, op: Op, toPeer: seq<byte>, toS: seq<byte>)
    returns (took: seq<byte>, gave: seq<byte>, toPeer': seq<byte>, toS': seq<byte>)
    requires Paired(s, peer, toPeer, toS)
    modifies s, s.codec, s.carrier
    ensures Paired(s, peer, toPeer', toS')
    ensures Effect(op, old(ViewOf(s)), ViewOf(s), took, gave, toS, toS')
    ensures HasRoom(op) && gave == [] && !s.failed ==> s.Exhausted()
  {
    ghost var before := s.carrier.sent;
    var sent := |s.carrier.sent|;
    took, gave, toS' := CallAt(s, op, toS);
    WireGrows(peer.received, toPeer, s.hello, before, s.carrier.sent);
    toPeer' := toPeer + s.carrier.sent[sent..];
  }

  lemma PipesHold(client: O4Stream, server: O4Stream, up: seq<byte>, down: seq<byte>)
    requires Paired(client, server, up, down)
    ensures !client.failed && client.delivered <= Accepted(server.plain)
    ensures !server.failed && server.delivered <= Accepted(client.plain)
  {
    assert server.received <= server.received + up && client.received <= client.received + down;
    DeliveredIsPrefixOfAccepted(client, server);
    DeliveredIsPrefixOfAccepted(server, client);
  }

  // ------------------------------------------------------------------------ logs

  /** The bytes accepted at one end over a log, and the bytes returned there. */
  function Took(log: seq<Event>, atServer: bool): seq<byte> {
    if log == [] then []
    else
      var e := log[|log| - 1];
      Took(log[..|log| - 1], atServer) + if e.call.atServer == atServer then e.took else []
  }

  function Gave(log: seq<Event>, atServer: bool): seq<byte> {
    if log == [] then []
    else
      var e := log[|log| - 1];
      Gave(log[..|log| - 1], atServer) + if e.call.atServer == atServer then e.gave else []
  }

  /** The last read with room at that end came back without bytes. */
  predicate Quiet(log: seq<Event>, atServer: bool) {
    log != [] &&
    var e := log[|log| - 1];
    if e.call.atServer == atServer && HasRoom(e.call.op) then e.gave == []
    else Quiet(log[..|log| - 1], atServer)
  }

  /** At every moment, what an end has returned is a prefix of what the other has accepted. */
  predicate Piped(log: seq<Event>) {
    log == [] ||
    (&& Gave(log, true) <= Took(log, false) && Gave(log, false) <= Took(log, true)
     && Piped(log[..|log| - 1]))
  }

  lemma {:induction false} PipedAtAnyMoment(log: seq<Event>, n: nat)
    requires Piped(log) && n <= |log|
    ensures Gave(log[..n], true) <= Took(log[..n], false) && Gave(log[..n], false) <= Took(log[..n], true)
  {
    if n == |log| {
      assert log[..n] == log;
    } else {
      PipedAtAnyMoment(log[..|log| - 1], n);
      assert log[..|log| - 1][..n] == log[..n];
    }
  }

  /** The log has one fitting event per call, in order. */
  predicate Records(log: seq<Event>, calls: seq<Call>) {
    |log| == |calls| &&
    (log == [] ||
     var n := |log| - 1;
     && log[n].call == calls[n] && Fits(calls[n].op, log[n].took, log[n].gave)
     && Records(log[..n], calls[..n]))
  }

  lemma LogSnoc(log: seq<Event>, e: Event, b: bool)
    ensures Took(log + [e], b) == if e.call.atServer == b then Took(log, b) + e.took else Took(log, b)
    ensures Gave(log + [e], b) == if e.call.atServer == b then Gave(log, b) + e.gave else Gave(log, b)
    ensures Quiet(log + [e], b) == if e.call.atServer == b && HasRoom(e.call.op) then e.gave == [] else Quiet(log, b)
  {
    assert (log + [e])[..|log|] == log;
    assert Took(log, b) + [] == Took(log, b) && Gave(log, b) + [] == Gave(log, b);
  }

  lemma PipedSnoc(log: seq<Event>, e: Event)
    ensures Piped(log + [e]) <==>
              Piped(log) && Gave(log + [e], true) <= Took(log + [e], false) && Gave(log + [e], false) <= Took(log + [e], true)
  {
    assert (log + [e])[..|log|] == log;
  }

  lemma RecordsNext(log: seq<Event>, e: Event, before: seq<Call>, calls: seq<Call>, i: nat)
    requires i < |calls| && Records(log, before + calls[..i])
    requires e.call == calls[i] && Fits(e.call.op, e.took, e.gave)
    ensures Records(log + [e], before + calls[..i + 1])
  {
    var done := before + calls[..i];
    assert (log + [e])[..|log|] == log;
    assert before + calls[..i + 1] == done + [calls[i]] && (done + [calls[i]])[..|done|] == done;
  }

  /** The ghost accounts of one end are what the log says. */
  ghost predicate Accounted(s: O4Stream, atServer: bool, log: seq<Event>)
    reads s
  {
    && Accepted(s.plain) == Took(log, atServer) && s.delivered == Gave(log, atServer)
    && (Quiet(log, atServer) ==> s.Exhausted())
  }

  lemma AccountedAfter(s: O4Stream, atServer: bool, log: seq<Event>, e: Event, before: seq<byte>, given: seq<byte>, was: bool)
    requires before == Took(log, atServer) && given == Gave(log, atServer) && was == Quiet(log, atServer)
    requires if e.call.atServer == atServer then Accepted(s.plain) == before + e.took && s.delivered == given + e.gave
             else Accepted(s.plain) == before && s.delivered == given
    requires (if e.call.atServer == atServer && HasRoom(e.call.op) then e.gave == [] else was) ==> s.Exhausted()
    ensures Accounted(s, atServer, log + [e])
  {
    LogSnoc(log, e, atServer);
  }

  /** One logged call at either end. */
  method Step(client: O4Stream, server: O4Stream, call: Call, up: seq<byte>, down: seq<byte>, ghost log: seq<Event>)
    returns (up': seq<byte>, down': seq<byte>, e: Event)
    requires Paired(client, server, up, down)
    requires Accounted(client, false, log) && Accounted(server, true, log) && Piped(log)
    modifies client, client.codec, client.carrier, server, server.codec, server.carrier
    ensures Paired(client, server, up', down')
    ensures Accounted(client, false, log + [e]) && Accounted(server, true, log + [e]) && Piped(log + [e])
    ensures e.call == call && Fits(call.op, e.took, e.gave)
  {
    var took, gave;
    if call.atServer {
      took, gave, down', up' := Exchange(server, client, call.op, down, up);
    } else {
      took, gave, up', down' := Exchange(client, server, call.op, up, down);
    }
    PipesHold(client, server, up', down');
    e := Event(call, took, gave);
    AccountedAfter(client, false, log, e, old(Accepted(client.plain)), old(client.delivered), Quiet(log, false));
    AccountedAfter(server, true, log, e, old(Accepted(server.plain)), old(server.delivered), Quiet(log, true));
    PipedSnoc(log, e);
  }

  /** Any interleaving of calls at the two ends, over any fragmentation, keeps both pipes at every moment. */
  method Run(client: O4Stream, server: O4Stream, calls: seq<Call>, up0: seq<byte>, down0: seq<byte>,
             log0: seq<Event>, ghost calls0: seq<Call>)
    returns (up: seq<byte>, down: seq<byte>, log: seq<Event>)
    requires Paired(client, server, up0, down0)
    requires Accounted(client, false, log0) && Accounted(server, true, log0) && Piped(log0) && Records(log0, calls0)
    modifies client, client.codec, client.carrier, server, server.codec, server.carrier
    ensures Paired(client, server, up, down)
    ensures Accounted(client, false, log) && Accounted(server, true, log) && Piped(log)
    ensures Records(log, calls0 + calls)
  {
    up, down, log := up0, down0, log0;
    assert calls0 + calls[..0] == calls0;
    for i := 0 to |calls|
      invariant Paired(client, server, up, down)
      invariant Accounted(client, false, log) && Accounted(server, true, log) && Piped(log)
      invariant Records(log, calls0 + calls[..i])
    {
      var e;
      up, down, e := Step(client, server, calls[i], up, down, log);
      RecordsNext(log, e, calls0, calls, i);
      log := log + [e];
    }
    assert calls[..|calls|] == calls;
  }

  // -------------------------------------------------------------------- sessions

  /** A server's stream: its encoder has sealed its length seed, which ends its hello. */
  method OpenServer(sealer: Cipher, opener: Cipher, mode: Iat, seed: seq<byte>, digest: seq<byte> -> seq<byte>, world: World)
    returns (server: O4Stream, hello: seq<byte>)
    requires |seed| == SEED_LENGTH
    ensures fresh(server) && fresh(server.codec) && fresh(server.carrier)
    ensures server.Valid() && server.ReaderValid() && !server.isClient && server.ownSeed == seed
    ensures server.codec.sealer == sealer && server.codec.opener == opener
    ensures server.plain == Opening(false, seed) && Accepted(server.plain) == []
    ensures server.received == [] && server.delivered == [] && server.carrier.sent == []
    ensures hello == server.hello == SeedImage(sealer, seed)
  {
    var codec := new EncryptingCodec(sealer, opener);
    OpeningInv(sealer, false, seed);
    assert Opening(false, seed)[..0] == [];
    var error;
    hello, error := codec.Encode(Plaintext(Seed(seed)), []);
    server := new O4Stream(codec, mode, false, seed, digest, world);
  }

  /** A client's stream, which may have read any part of what the server has sent together with its hello. */
  method OpenClient(sealer: Cipher, opener: Cipher, mode: Iat, seed: seq<byte>, digest: seq<byte> -> seq<byte>, world: World,
                    overread: seq<byte>, ghost server: O4Stream)
    returns (client: O4Stream)
    requires |seed| == SEED_LENGTH
    requires server.SenderValid() && server.codec.sealer == opener && overread <= server.hello + server.carrier.sent
    ensures fresh(client) && fresh(client.codec) && fresh(client.carrier)
    ensures client.Valid() && client.ReaderValid() && client.isClient && client.ownSeed == seed
    ensures client.codec.sealer == sealer && client.codec.opener == opener
    ensures client.plain == [] && Accepted(client.plain) == [] && client.hello == [] && client.carrier.sent == []
    ensures client.received == overread && client.delivered == [] && !client.failed
    ensures client.handled == client.Arrived().messages && client.residual == Content(client.handled)
  {
    assert DecodeAll(opener, InitDec(opener), overread).error == None by {
      WireDecodes(server, overread);
    }
    client := SeedClient(sealer, opener, mode, seed, digest, world, overread);
  }

  /** A client's stream with bytes it has read before, which decode. */
  method SeedClient(sealer: Cipher, opener: Cipher, mode: Iat, seed: seq<byte>, digest: seq<byte> -> seq<byte>, world: World,
                    overread: seq<byte>) returns (client: O4Stream)
    requires |seed| == SEED_LENGTH && DecodeAll(opener, InitDec(opener), overread).error == None
    ensures fresh(client) && fresh(client.codec) && fresh(client.carrier)
    ensures client.Valid() && client.ReaderValid() && client.isClient && client.ownSeed == seed
    ensures client.codec.sealer == sealer && client.codec.opener == opener
    ensures client.plain == [] && Accepted(client.plain) == [] && client.hello == [] && client.carrier.sent == []
    ensures client.received == overread && client.delivered == [] && !client.failed
    ensures client.handled == client.Arrived().messages && client.residual == Content(client.handled)
  {
    client := NewClient(sealer, opener, mode, seed, digest, world);
    label Opened:
    var error := client.SeedFromHandshake(overread);
    assert error == None;
    client.WriterUntouched@Opened();
  }

  method NewClient(sealer: Cipher, opener: Cipher, mode: Iat, seed: seq<byte>, digest: seq<byte> -> seq<byte>, world: World)
    returns (client: O4Stream)
    requires |seed| == SEED_LENGTH
    ensures fresh(client) && fresh(client.codec) && fresh(client.carrier)
    ensures client.Valid() && client.ReaderValid() && client.isClient && client.ownSeed == seed
    ensures client.codec.sealer == sealer && client.codec.opener == opener && client.codec.dec == InitDec(opener)
    ensures client.plain == [] && client.hello == [] && client.carrier.sent == []
    ensures client.received == [] && client.delivered == [] && client.handled == [] && client.rbuf == [] && client.residual == []
    ensures !client.failed && !client.readable && !client.errored
  {
    var codec := new EncryptingCodec(sealer, opener);
    client := new O4Stream(codec, mode, true, seed, digest, world);
  }

  function EarlyCalls(ops: seq<Op>): (calls: seq<Call>)
    ensures |calls| == |ops|
  {
    seq(|ops|, i requires 0 <= i < |ops| => Call(true, ops[i]))
  }

  /** No call of the log was made at the client. */
  predicate ServerOnly(log: seq<Event>) {
    Took(log, false) == [] && Gave(log, false) == [] && !Quiet(log, false)
  }

  /** Nothing has reached the stream, so it has nothing to return. */
  lemma NothingReceived(s: O4Stream)
    requires s.ReaderValid() && s.received == []
    ensures !s.failed && s.delivered == []
  {
    var c := s.codec.opener;
    assert Framing.Step(c, InitDec(c), []) == Stop(InitDec(c), [], NeedMore);
    assert Decode(c, InitDec(c), []) == Stop(InitDec(c), [], NeedMore);
    assert s.Arrived() == Drained(InitDec(c), [], [], None);
  }

  /** What the server does before the client has read its hello. */
  method RunEarly(server: O4Stream, ops: seq<Op>) returns (log: seq<Event>)
    requires server.Valid() && server.ReaderValid() && server.received == []
    requires Accepted(server.plain) == [] && server.delivered == []
    modifies server, server.codec, server.carrier
    ensures server.Valid() && server.ReaderValid() && server.received == []
    ensures Accounted(server, true, log) && ServerOnly(log) && Piped(log)
    ensures Records(log, EarlyCalls(ops))
  {
    log := [];
    assert EarlyCalls(ops)[..0] == [];
    for i := 0 to |ops|
      invariant server.Valid() && server.ReaderValid() && server.received == []
      invariant Accounted(server, true, log) && ServerOnly(log) && Piped(log)
      invariant Records(log, [] + EarlyCalls(ops)[..i])
    {
      var e := EarlyStep(server, ops[i], log);
      RecordsNext(log, e, [], EarlyCalls(ops), i);
      log := log + [e];
    }
    assert [] + EarlyCalls(ops)[..|ops|] == EarlyCalls(ops);
  }

  method EarlyStep(server: O4Stream, op: Op, ghost log: seq<Event>) returns (e: Event)
    requires server.Valid() && server.ReaderValid() && server.received == []
    requires Accounted(server, true, log) && ServerOnly(log) && Piped(log)
    modifies server, server.codec, server.carrier
    ensures server.Valid() && server.ReaderValid() && server.received == []
    ensures Accounted(server, true, log + [e]) && ServerOnly(log + [e]) && Piped(log + [e])
    ensures e.call == Call(true, op) && Fits(op, e.took, e.gave)
  {
    var took, gave, left := CallAt(server, op, []);
    NothingReceived(server);
    e := Event(Call(true, op), took, gave);
    AccountedAfter(server, true, log, e, old(Accepted(server.plain)), old(server.delivered), Quiet(log, true));
    LogSnoc(log, e, false);
    PipedSnoc(log, e);
  }

  /** A server that has made some calls, and all it has put on the wire. */
  method StartServer(toServer: Cipher, toClient: Cipher, mode: Iat, seed: seq<byte>, digest: seq<byte> -> seq<byte>, world: World,
                     early: seq<Op>)
    returns (server: O4Stream, wire: seq<byte>, log: seq<Event>)
    requires |seed| == SEED_LENGTH
    ensures fresh(server) && fresh(server.codec) && fresh(server.carrier)
    ensures server.Valid() && server.ReaderValid() && server.received == []
    ensures !server.isClient && server.ownSeed == seed && server.codec.sealer == toClient && server.codec.opener == toServer
    ensures wire == server.hello + server.carrier.sent && server.hello == SeedImage(toClient, seed)
    ensures Accounted(server, true, log) && ServerOnly(log) && Piped(log) && Records(log, EarlyCalls(early))
  {
    var hello;
    server, hello := OpenServer(toClient, toServer, mode, seed, digest, world);
    log := RunEarly(server, early);
    wire := hello + server.carrier.sent;
  }

  /** The first `n` bytes, or all there are, and the rest. */
  method Cut(wire: seq<byte>, n: nat) returns (early: seq<byte>, late: seq<byte>)
    ensures early <= wire && early + late == wire
    ensures forall hello :: hello <= wire && |hello| <= n ==> hello <= early
  {
    var k := Min(n, |wire|);
    early, late := wire[..k], wire[k..];
  }

  /** A client that opened after the server made its early calls is its peer, with the rest of the wire in flight. */
  lemma PairedAtStart(client: O4Stream, server: O4Stream, down: seq<byte>)
    requires client != server && client.codec != server.codec && client.carrier != server.carrier
    requires client.Valid() && client.ReaderValid() && server.Valid() && server.ReaderValid()
    requires client.codec.sealer == server.codec.opener && client.codec.opener == server.codec.sealer
    requires server.received == [] && client.hello == [] && client.carrier.sent == []
    requires client.received + down == server.hello + server.carrier.sent
    ensures Paired(client, server, [], down)
  {
    assert [] + [] == client.hello + client.carrier.sent;
  }

  /** A client joins: of what is on the wire it has read `overread` bytes together with the hello, or all there is. */
  method Join(server: O4Stream, mode: Iat, seed: seq<byte>, digest: seq<byte> -> seq<byte>, world: World, wire: seq<byte>,
              overread: nat)
    returns (client: O4Stream, down: seq<byte>)
    requires |seed| == SEED_LENGTH
    requires server.Valid() && server.ReaderValid() && server.received == [] && wire == server.hello + server.carrier.sent
    ensures fresh(client) && fresh(client.codec) && fresh(client.carrier)
    ensures Paired(client, server, [], down)
    ensures client.isClient && client.ownSeed == seed && client.codec.sealer == server.codec.opener
    ensures Accepted(client.plain) == [] && client.delivered == []
    ensures client.handled == client.Arrived().messages && (|server.hello| <= overread ==> server.hello <= client.received)
  {
    var early;
    early, down := Cut(wire, overread);
    client := OpenClient(server.codec.opener, server.codec.sealer, mode, seed, digest, world, early, server);
    PairedAtStart(client, server, down);
  }

  /** Both ends of a session that is under way: the server has made some calls, the client has read some of what it sent. */
  method Establish(toServer: Cipher, toClient: Cipher, modes: (Iat, Iat), seeds: (seq<byte>, seq<byte>),
                   digest: seq<byte> -> seq<byte>, worlds: (World, World), early: seq<Op>, overread: nat)
    returns (client: O4Stream, server: O4Stream, down: seq<byte>, log: seq<Event>)
    requires |seeds.0| == SEED_LENGTH && |seeds.1| == SEED_LENGTH
    ensures fresh(client) && fresh(client.codec) && fresh(client.carrier)
    ensures fresh(server) && fresh(server.codec) && fresh(server.carrier)
    ensures Paired(client, server, [], down) && client.isClient && !server.isClient
    ensures client.codec.sealer == toServer && server.codec.sealer == toClient
    ensures client.ownSeed == seeds.0 && server.ownSeed == seeds.1
    ensures Accounted(client, false, log) && Accounted(server, true, log) && Piped(log) && Records(log, EarlyCalls(early))
    ensures |SeedImage(toClient, seeds.1)| <= overread ==> client.lenSeed == seeds.1
  {
    var wire;
    server, wire, log := StartServer(toServer, toClient, modes.1, seeds.1, digest, worlds.1, early);
    client, down := Join(server, modes.0, seeds.0, digest, worlds.0, wire, overread);
    if |SeedImage(toClient, seeds.1)| <= overread {
      assert client.received <= client.received + down;
      HelloSetsSeed(server, client);
    }
  }

  /** Where the bytes of one direction are. */
  datatype Pipe = Pipe(received: seq<byte>, inFlight: seq<byte>, unsent: seq<byte>)

  /**
   The bytes of one direction are the wire image of frames that carry exactly `took`; `gave`
   is a prefix of what the received part decodes to, and all of it for a quiet reader.
   */
  ghost predicate Conveys(c: Cipher, opening: seq<Plain>, took: seq<byte>, gave: seq<byte>, quiet: bool, p: Pipe) {
    && (exists ps :: Continues(opening, ps) && Accepted(ps) == took && WireOf(c, ps).bytes == p.received + p.inFlight + p.unsent)
    && var arrived := Content(DecodeAll(c, InitDec(c), p.received).messages);
       gave <= arrived && (quiet ==> gave == arrived)
  }

  lemma DirectionConveys(tx: O4Stream, rx: O4Stream, wire: seq<byte>, log: seq<Event>, rxAtServer: bool)
    requires tx.SenderValid() && rx.ReaderValid() && Linked(tx, rx, wire)
    requires Accounted(tx, !rxAtServer, log) && Accounted(rx, rxAtServer, log)
    ensures Conveys(tx.codec.sealer, Opening(tx.isClient, tx.ownSeed), Took(log, !rxAtServer), Gave(log, rxAtServer),
                    Quiet(log, rxAtServer), Pipe(rx.received, wire, tx.wbuf))
  {
    assert rx.received <= rx.received + wire;
    DeliveredIsPrefixOfAccepted(tx, rx);
    Assoc(tx.hello, tx.carrier.sent, tx.wbuf);
    assert Continues(Opening(tx.isClient, tx.ownSeed), tx.plain);
    ContentMonotone(rx.handled, rx.Arrived().messages);
  }

  /** Nothing on its way and a quiet reader: everything accepted has been returned. */
  lemma DrainedDirection(tx: O4Stream, rx: O4Stream, wire: seq<byte>, log: seq<Event>, rxAtServer: bool)
    requires tx.SenderValid() && rx.ReaderValid() && Linked(tx, rx, wire)
    requires Accounted(tx, !rxAtServer, log) && Accounted(rx, rxAtServer, log)
    ensures Quiet(log, rxAtServer) && wire == [] && tx.wbuf == [] ==> Gave(log, rxAtServer) == Took(log, !rxAtServer)
  {
    if Quiet(log, rxAtServer) && wire == [] && tx.wbuf == [] {
      assert rx.received + [] == rx.received;
      DrainedPipeDeliversAll(tx, rx);
    }
  }

  /**
   A whole session. The server may write before the client has read its hello, and the client
   may have read any part of that together with the hello; from then on the two ends make any
   calls in any order. At every moment what an end has returned is a prefix of what the other
   has accepted, and all of it once nothing is unsent or in flight and the reader comes back empty.
   */
  method Session(toServer: Cipher, toClient: Cipher, modes: (Iat, Iat), seeds: (seq<byte>, seq<byte>),
                 digest: seq<byte> -> seq<byte>, worlds: (World, World), early: seq<Op>, overread: nat, calls: seq<Call>)
    returns (log: seq<Event>, clientSeed: seq<byte>, ghost up: Pipe, ghost down: Pipe)
    requires |seeds.0| == SEED_LENGTH && |seeds.1| == SEED_LENGTH
    ensures Records(log, EarlyCalls(early) + calls)
    ensures Piped(log)
    ensures Conveys(toServer, Opening(true, seeds.0), Took(log, false), Gave(log, true), Quiet(log, true), up)
    ensures Conveys(toClient, Opening(false, seeds.1), Took(log, true), Gave(log, false), Quiet(log, false), down)
    ensures Quiet(log, true) && up.inFlight == [] && up.unsent == [] ==> Gave(log, true) == Took(log, false)
    ensures Quiet(log, false) && down.inFlight == [] && down.unsent == [] ==> Gave(log, false) == Took(log, true)
    ensures |SeedImage(toClient, seeds.1)| <= overread ==> clientSeed == seeds.1
  {
    var client, server, toC, first := Establish(toServer, toClient, modes, seeds, digest, worlds, early, overread);
    clientSeed := client.lenSeed;
    var toS;
    toS, toC, log := Run(client, server, calls, [], toC, first, EarlyCalls(early));
    up, down := Pipe(server.received, toS, client.wbuf), Pipe(client.received, toC, server.wbuf);
    DirectionConveys(client, server, toS, log, true);
    DirectionConveys(server, client, toC, log, false);
    DrainedDirection(client, server, toS, log, true);
    DrainedDirection(server, client, toC, log, false);
  }
}
