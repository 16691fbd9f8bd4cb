/** What a session seals, frame by frame, and what its peer makes of it. */
module Sealing {
  import opened Bytes
  import opened Framing

  /** A frame of a session before it is sealed: application bytes, padding, or a length seed. */
  datatype Plain = Data(payload: seq<byte>) | Pad(length: nat) | Seed(seed: seq<byte>)

  function Plaintext(p: Plain): (pt: seq<byte>)
    ensures |pt| == MESSAGE_OVERHEAD + Size(p)
  {
    match p
    case Data(b) => PayloadFrame(b)
    case Pad(n) => PaddingFrame(n)
    case Seed(s) => SeedFrame(s)
  }

  function Size(p: Plain): nat {
    match p case Data(b) => |b| case Pad(n) => n case Seed(s) => |s|
  }

  /** The frame fits the encoder, and carries something if it is to carry application bytes. */
  predicate Sealable(p: Plain) {
    match p
    case Data(b) => 1 <= |b| <= MAX_MESSAGE_PAYLOAD_LENGTH
    case Pad(n) => n <= MAX_MESSAGE_PAYLOAD_LENGTH
    case Seed(s) => |s| == SEED_LENGTH
  }

  predicate AllSealable(ps: seq<Plain>) {
    ps == [] || (Sealable(ps[|ps| - 1]) && AllSealable(ps[..|ps| - 1]))
  }

  /** The application bytes of a run of frames. */
  function Accepted(ps: seq<Plain>): seq<byte> {
    if ps == [] then [] else Accepted(ps[..|ps| - 1]) + if ps[|ps| - 1].Data? then ps[|ps| - 1].payload else []
  }

  lemma AcceptedSnoc(ps: seq<Plain>, p: Plain)
    ensures Accepted(ps + [p]) == if p.Data? then Accepted(ps) + p.payload else Accepted(ps)
  {
    assert (ps + [p])[..|ps|] == ps;
    assert Accepted(ps) + [] == Accepted(ps);
  }

  /** `ps` is `opening` followed by data and padding. */
  predicate Continues(opening: seq<Plain>, ps: seq<Plain>) {
    ps == opening || (ps != [] && !ps[|ps| - 1].Seed? && Sealable(ps[|ps| - 1]) && Continues(opening, ps[..|ps| - 1]))
  }

  lemma {:induction false} ContinuesSealable(opening: seq<Plain>, ps: seq<Plain>)
    requires AllSealable(opening) && Continues(opening, ps)
    ensures AllSealable(ps)
  {
    if ps != opening {
      ContinuesSealable(opening, ps[..|ps| - 1]);
    }
  }

  /** The encoder's state and output after a run of frames. */
  function WireOf(c: Cipher, ps: seq<Plain>): Wire {
    if ps == [] then Wire(InitEnc(c), [])
    else
      var w := WireOf(c, ps[..|ps| - 1]);
      match Encode(c, w.state, Plaintext(ps[|ps| - 1]))
      case Rejected(_) => w
      case Encoded(state, frame) => Wire(state, w.bytes + frame)
  }

  /** The messages a peer is handed: application bytes and seeds, in order. */
  function MessagesOf(ps: seq<Plain>): seq<Message> {
    if ps == [] then []
    else
      MessagesOf(ps[..|ps| - 1]) +
      match ps[|ps| - 1] case Data(b) => [Payload(b)] case Pad(_) => [] case Seed(s) => [PrngSeed(s)]
  }

  function Plaintexts(ps: seq<Plain>): seq<seq<byte>> {
    if ps == [] then [] else Plaintexts(ps[..|ps| - 1]) + [Plaintext(ps[|ps| - 1])]
  }

  /** On plaintexts: the frames are well formed, encode to the same wire and deliver the same messages. */
  lemma {:induction false} PlaintextsAgree(c: Cipher, ps: seq<Plain>)
    requires AllSealable(ps)
    ensures |Plaintexts(ps)| == |ps| && AllWellFormed(Plaintexts(ps))
    ensures WireOf(c, ps) == EncodeAll(c, InitEnc(c), Plaintexts(ps))
    ensures MessagesOf(ps) == Messages(Plaintexts(ps))
  {
    if ps != [] {
      var n := |ps| - 1;
      PlaintextsAgree(c, ps[..n]);
      PlaintextParses(ps[n]);
      var pts := Plaintexts(ps[..n]);
      assert Plaintexts(ps)[..n] == pts && Plaintexts(ps)[n] == Plaintext(ps[n]);
    }
  }

  lemma PlaintextParses(p: Plain)
    requires Sealable(p)
    ensures WellFormed(Plaintext(p))
    ensures Delivered(Plaintext(p)) == match p case Data(b) => [Payload(b)] case Pad(_) => [] case Seed(s) => [PrngSeed(s)]
  {
    match p {
      case Data(b) => PayloadFrameParses(b);
      case Pad(n) => PaddingFrameParses(n);
      case Seed(s) => SeedFrameParses(s);
    }
  }

  /** The messages carry exactly the application bytes. */
  lemma {:induction false} MessagesCarry(ps: seq<Plain>)
    ensures Content(MessagesOf(ps)) == Accepted(ps)
  {
    if ps != [] {
      var n := |ps| - 1;
      MessagesCarry(ps[..n]);
      var front := MessagesOf(ps[..n]);
      match ps[n] {
        case Data(b) => ContentSnoc(front, Payload(b));
        case Pad(_) => assert front + [] == front;
        case Seed(s) => ContentSnoc(front, PrngSeed(s));
      }
    }
  }

  /** The peer decodes a whole run to its messages, and any beginning of it to a beginning of them, without error. */
  lemma SealedDecodes(c: Cipher, ps: seq<Plain>, seen: seq<byte>)
    requires AllSealable(ps) && |ps| < COUNTER_MAX && seen <= WireOf(c, ps).bytes
    ensures var r := DecodeAll(c, InitDec(c), seen);
            && r.error == None && r.messages <= MessagesOf(ps)
            && (seen == WireOf(c, ps).bytes ==> r.messages == MessagesOf(ps))
  {
    PlaintextsAgree(c, ps);
    HonestPrefix(c, Plaintexts(ps), seen);
    DecodeInvertsEncode(c, Plaintexts(ps));
  }

  lemma CounterOf(c: Cipher, ps: seq<Plain>)
    requires AllSealable(ps) && |ps| < COUNTER_MAX
    ensures WireOf(c, ps).state.counter == 1 + |ps|
  {
    PlaintextsAgree(c, ps);
    DecodeInvertsEncode(c, Plaintexts(ps));
  }

  // ------------------------------------------------------------- length seeds

  /** The length seed in force after a run of messages, starting from `seed`. */
  function SeedAfter(ms: seq<Message>, seed: seq<byte>): seq<byte> {
    if ms == [] then seed
    else match ms[|ms| - 1] case PrngSeed(s) => s case _ => SeedAfter(ms[..|ms| - 1], seed)
  }

  lemma SeedSnoc(ms: seq<Message>, m: Message, seed: seq<byte>)
    ensures SeedAfter(ms + [m], seed) == if m.PrngSeed? then m.seed else SeedAfter(ms, seed)
  {
    assert (ms + [m])[..|ms|] == ms;
  }

  /** Messages that start with a seed and go on with payload. */
  predicate SeedThenPayload(ms: seq<Message>, seed: seq<byte>) {
    && ms != [] && ms[0] == PrngSeed(seed)
    && forall k :: 1 <= k < |ms| ==> ms[k].Payload?
  }

  /** After a seed, data and padding bring nothing but payload. */
  lemma {:induction false} HonestMessages(ps: seq<Plain>, seed: seq<byte>)
    requires Continues([Seed(seed)], ps)
    ensures SeedThenPayload(MessagesOf(ps), seed)
  {
    if ps == [Seed(seed)] {
      assert ps[..0] == [] && [] + [PrngSeed(seed)] == [PrngSeed(seed)];
    } else {
      HonestMessages(ps[..|ps| - 1], seed);
    }
  }

  /** Any non-empty beginning of such messages leaves that seed in force. */
  lemma {:induction false} SeedInForce(ms: seq<Message>, seed: seq<byte>, own: seq<byte>)
    requires SeedThenPayload(ms, seed)
    ensures SeedAfter(ms, own) == seed
  {
    if |ms| > 1 {
      SeedInForce(ms[..|ms| - 1], seed, own);
    }
  }

  /** Whoever has received all of a seed frame has decoded something. */
  lemma SeedArrives(c: Cipher, seed: seq<byte>, seen: seq<byte>)
    requires |seed| == SEED_LENGTH && WireOf(c, [Seed(seed)]).bytes <= seen
    ensures DecodeAll(c, InitDec(c), seen).messages != []
  {
    var ps := [Seed(seed)];
    assert ps[..0] == [];
    SealedDecodes(c, ps, WireOf(c, ps).bytes);
    HonestMessages(ps, seed);
    MessagesGrow(c, WireOf(c, ps).bytes, seen);
  }
}
