/**
 The obfs4 data channel on values: message layout, frame sealing, incremental
 decoding, and what an encoder and a decoder that share key material agree on.
 */
module Framing {
  import opened Bytes

  const MAX_SEGMENT_LENGTH: nat := 1448
  const LENGTH_LENGTH: nat := 2
  const TAG_SIZE: nat := 16
  const FRAME_OVERHEAD: nat := 18
  const MESSAGE_OVERHEAD: nat := 3
  const HEADER_LENGTH: nat := 21
  const MAX_FRAME_PAYLOAD_LENGTH: nat := 1430
  const MAX_MESSAGE_PAYLOAD_LENGTH: nat := 1427
  const MAX_FRAME_LENGTH: nat := 1446
  const MIN_FRAME_LENGTH: nat := 16
  const NONCE_PREFIX_LENGTH: nat := 16
  const SEED_LENGTH: nat := 24
  const COUNTER_MAX: nat := 0xFFFF_FFFF_FFFF_FFFF

  // ---------------------------------------------------------------- messages

  datatype FrameError =
    | InvalidPayloadLength(length: nat)
    | Crypto
    | NonceCounterWrapped
    | InvalidMessage
    | InvalidFrame
    | UnknownMessageType(kind: byte)

  datatype Message = Payload(bytes: seq<byte>) | PrngSeed(seed: seq<byte>) | Padding(length: nat)

  datatype Parsed = Ok(message: Message) | Err(error: FrameError)

  /** `Messages::try_parse`: one type byte, a two-byte length, then the content. */
  function TryParse(buf: seq<byte>): Parsed {
    if |buf| < MESSAGE_OVERHEAD then Err(InvalidMessage)
    else if buf[0] != 0 && buf[0] != 1 then Err(UnknownMessageType(buf[0]))
    else
      var length := FromBigEndian(buf[1..3]);
      var body := buf[3..];
      if buf[0] == 0 then
        if length == 0 then Ok(Padding(|body|))
        else if |body| < length then Err(InvalidMessage)
        else Ok(Payload(body[..length]))
      else if length != SEED_LENGTH || |body| < length then Err(InvalidMessage)
      else Ok(PrngSeed(body[..length]))
  }

  /** The plaintext of a payload frame. */
  function PayloadFrame(payload: seq<byte>): (pt: seq<byte>)
    ensures |pt| == MESSAGE_OVERHEAD + |payload|
  {
    [0] + ToBigEndian(|payload|, 2) + payload
  }

  /** The plaintext of a padding frame: an empty message followed by zeros. */
  function PaddingFrame(length: nat): (pt: seq<byte>)
    ensures |pt| == MESSAGE_OVERHEAD + length
  {
    Zeros(3) + Zeros(length)
  }

  /** The plaintext of the frame that ends a server's hello: the seed of the length distribution. */
  function SeedFrame(seed: seq<byte>): (pt: seq<byte>)
    ensures |pt| == MESSAGE_OVERHEAD + |seed|
  {
    [1] + ToBigEndian(|seed|, 2) + seed
  }

  lemma SeedFrameParses(seed: seq<byte>)
    requires |seed| == SEED_LENGTH
    ensures TryParse(SeedFrame(seed)) == Ok(PrngSeed(seed))
  {
    var pt := SeedFrame(seed);
    assert pt[1..3] == ToBigEndian(|seed|, 2);
    assert Pow256(2) == 65536 by { assert Pow256(1) == 256; }
    BigEndianRoundTrip(|seed|, 2);
    assert pt[3..] == seed && seed[..SEED_LENGTH] == seed;
  }

  lemma PayloadFrameParses(payload: seq<byte>)
    requires 1 <= |payload| <= MAX_MESSAGE_PAYLOAD_LENGTH
    ensures TryParse(PayloadFrame(payload)) == Ok(Payload(payload))
  {
    var pt := PayloadFrame(payload);
    assert pt[1..3] == ToBigEndian(|payload|, 2);
    assert Pow256(2) == 65536 by { assert Pow256(1) == 256; }
    BigEndianRoundTrip(|payload|, 2);
    assert pt[3..][..|payload|] == payload;
  }

  lemma PaddingFrameParses(length: nat)
    ensures TryParse(PaddingFrame(length)) == Ok(Padding(length))
  {
    var s := PaddingFrame(length)[1..3];
    assert s == [0, 0];
    assert s[..1] == [0];
    assert FromBigEndian([0]) == 0 by { assert [0][..0] == []; }
  }

  /** Every message layout: what its type, declared length and body come to, and which are rejected. */
  lemma LayoutParses(kind: byte, length: nat, body: seq<byte>)
    requires length < 65536
    ensures TryParse([kind] + ToBigEndian(length, 2) + body) ==
            if kind > 1 then Err(UnknownMessageType(kind))
            else if kind == 0 && length == 0 then Ok(Padding(|body|))
            else if |body| < length || (kind == 1 && length != SEED_LENGTH) then Err(InvalidMessage)
            else if kind == 0 then Ok(Payload(body[..length])) else Ok(PrngSeed(body[..length]))
  {
    var pt := [kind] + ToBigEndian(length, 2) + body;
    assert pt[1..3] == ToBigEndian(length, 2) && pt[3..] == body;
    assert Pow256(2) == 65536 by { assert Pow256(1) == 256; }
    BigEndianRoundTrip(length, 2);
  }

  // ------------------------------------------------------- session primitives

  /**
   What a session derives from its key material: an authenticated cipher
   (`seal` gives tag and ciphertext), the nonce prefix, and the generator of
   length masks as a step function on its state.
   */
  datatype Suite = Suite(
    seal: (seq<byte>, seq<byte>) -> seq<byte>,
    open: (seq<byte>, seq<byte>) -> Option<seq<byte>>,
    prefix: seq<byte>,
    step: seq<byte> -> (nat, seq<byte>),
    seed: seq<byte>)

  ghost predicate Lawful(s: Suite) {
    && |s.prefix| == NONCE_PREFIX_LENGTH
    && (forall n, p :: |s.seal(n, p)| == TAG_SIZE + |p| && s.open(n, s.seal(n, p)) == Some(p))
    && (forall n, c :: s.open(n, c).Some? ==> |c| == TAG_SIZE + |s.open(n, c).value|)
    && (forall d :: s.step(d).0 < 65536)
  }

  type Cipher = s: Suite | Lawful(s) ghost witness PlainSuite()

  /** A cipher that only prefixes an empty tag: the laws are consistent. */
  ghost function PlainSuite(): (s: Suite)
    ensures Lawful(s)
  {
    var s := Suite(
      (n: seq<byte>, p: seq<byte>) => Zeros(TAG_SIZE) + p,
      (n: seq<byte>, c: seq<byte>) => if |c| < TAG_SIZE then None else Some(c[TAG_SIZE..]),
      Zeros(NONCE_PREFIX_LENGTH),
      (d: seq<byte>) => (0, d),
      []);
    assert forall n, p: seq<byte> {:trigger s.seal(n, p)} :: s.seal(n, p)[TAG_SIZE..] == p;
    s
  }

  /** The session's prefix followed by the big-endian counter. */
  function Nonce(c: Cipher, counter: nat): seq<byte> {
    c.prefix + ToBigEndian(counter, 8)
  }

  /** Distinct counters of one nonce box give distinct nonces. */
  lemma NonceInjective(c: Cipher, i: nat, j: nat)
    requires i <= COUNTER_MAX && j <= COUNTER_MAX
    ensures Nonce(c, i) == Nonce(c, j) ==> i == j
  {
    if Nonce(c, i) == Nonce(c, j) {
      assert Nonce(c, i)[|c.prefix|..] == ToBigEndian(i, 8);
      assert Nonce(c, j)[|c.prefix|..] == ToBigEndian(j, 8);
      assert Pow256(8) == COUNTER_MAX + 1 by {
        assert Pow256(2) == 0x1_0000;
        assert Pow256(4) == 0x1_0000_0000;
        assert Pow256(6) == 0x1_0000_0000_0000;
      }
      BigEndianRoundTrip(i, 8);
      BigEndianRoundTrip(j, 8);
    }
  }

  // ----------------------------------------------------------------- encoding

  /** A nonce counter and a mask generator, advanced once per frame. */
  datatype EncState = EncState(counter: nat, drbg: seq<byte>)

  function InitEnc(c: Cipher): EncState {
    EncState(1, c.seed)
  }

  datatype EncodeResult = Encoded(state: EncState, frame: seq<byte>) | Rejected(error: FrameError)

  function Encode(c: Cipher, e: EncState, pt: seq<byte>): (r: EncodeResult)
    ensures r.Encoded? ==> |r.frame| == FRAME_OVERHEAD + |pt|
  {
    if |pt| > MAX_FRAME_PAYLOAD_LENGTH then Rejected(InvalidPayloadLength(|pt|))
    else if e.counter == COUNTER_MAX then Rejected(NonceCounterWrapped)
    else
      var (mask, drbg) := c.step(e.drbg);
      Encoded(EncState(e.counter + 1, drbg),
              ToBigEndian(Xor(|pt| + TAG_SIZE, mask, 16), 2) + c.seal(Nonce(c, e.counter), pt))
  }

  datatype Wire = Wire(state: EncState, bytes: seq<byte>)

  /** The wire image of a run of encodes; rejected plaintexts leave no trace. */
  function EncodeAll(c: Cipher, e: EncState, pts: seq<seq<byte>>): Wire {
    if pts == [] then Wire(e, [])
    else
      var w := EncodeAll(c, e, pts[..|pts| - 1]);
      match Encode(c, w.state, pts[|pts| - 1])
      case Rejected(_) => w
      case Encoded(state, frame) => Wire(state, w.bytes + frame)
  }

  // ----------------------------------------------------------------- decoding

  /** `need` is the length of the frame being awaited, 0 before it is known. */
  datatype DecState = DecState(counter: nat, drbg: seq<byte>, nonce: seq<byte>, need: nat)

  function InitDec(c: Cipher): DecState {
    DecState(1, c.seed, Zeros(24), 0)
  }

  datatype Outcome = NeedMore | Item(message: Message) | Fail(error: FrameError)

  /** Either the loop of `decode` goes round again, or the call returns. */
  datatype Stepped = Again(d: DecState, src: seq<byte>) | Stop(d: DecState, src: seq<byte>, out: Outcome)

  /** Open the frame whose length is known. */
  function Body(c: Cipher, d: DecState, src: seq<byte>): Stepped {
    if d.need > |src| then Stop(d, src, NeedMore)
    else
      match c.open(d.nonce, src[..d.need])
      case None => Stop(d, src, Fail(Crypto))
      case Some(pt) =>
        if |pt| < MESSAGE_OVERHEAD then Stop(d, src, Fail(InvalidMessage))
        else
          var d', src' := d.(need := 0), src[d.need..];
          match TryParse(pt)
          case Ok(Padding(_)) => Again(d', src')
          case Ok(m) => Stop(d', src', Item(m))
          case Err(UnknownMessageType(_)) => Again(d', src')
          case Err(e) => Stop(d', src', Fail(e))
  }

  /** One round of the loop in `decode`. */
  function Step(c: Cipher, d: DecState, src: seq<byte>): (r: Stepped)
    ensures r.Again? ==> |r.src| < |src|
    ensures r.Stop? && r.out.Item? ==> |r.src| < |src|
    ensures |r.src| <= |src|
  {
    if d.need != 0 then Body(c, d, src)
    else if |src| < LENGTH_LENGTH then Stop(d, src, NeedMore)
    else if d.counter == COUNTER_MAX then Stop(d, src, Fail(NonceCounterWrapped))
    else
      var (mask, drbg) := c.step(d.drbg);
      var length := Xor(FromBigEndian(src[..2]), mask, 16);
      var d' := DecState(d.counter + 1, drbg, Nonce(c, d.counter), 0);
      if MAX_FRAME_LENGTH < length || MIN_FRAME_LENGTH > length then Stop(d', src[2..], Fail(InvalidFrame))
      else Body(c, d'.(need := length), src[2..])
  }

  /** A whole call of `decode`. */
  function Decode(c: Cipher, d: DecState, src: seq<byte>): (r: Stepped)
    ensures r.Stop?
    ensures r.out.Item? ==> |r.src| < |src|
    ensures |r.src| <= |src|
    decreases |src|
  {
    var r := Step(c, d, src);
    if r.Stop? then r else Decode(c, r.d, r.src)
  }

  datatype Drained = Drained(d: DecState, src: seq<byte>, messages: seq<Message>, error: Option<FrameError>)

  /** `decode` called until it asks for more bytes or fails. */
  function DecodeAll(c: Cipher, d: DecState, src: seq<byte>): Drained
    decreases |src|
  {
    var r := Decode(c, d, src);
    match r.out
    case NeedMore => Drained(r.d, r.src, [], None)
    case Fail(e) => Drained(r.d, r.src, [], Some(e))
    case Item(m) => Prepend([m], DecodeAll(c, r.d, r.src))
  }

  function Prepend(ms: seq<Message>, r: Drained): Drained {
    r.(messages := ms + r.messages)
  }

  lemma PrependTwice(a: seq<Message>, b: seq<Message>, r: Drained)
    ensures Prepend(a, Prepend(b, r)) == Prepend(a + b, r)
  {
    Assoc(a, b, r.messages);
  }

  lemma PrependNone(r: Drained)
    ensures Prepend([], r) == r
  {
    assert [] + r.messages == r.messages;
  }

  // ------------------------------------------- independence of fragmentation

  /** What later bytes do to a round: they are only looked at once needed. */
  lemma StepExtend(c: Cipher, d: DecState, a: seq<byte>, b: seq<byte>)
    ensures var r := Step(c, d, a);
            Step(c, d, a + b) == match r
                                 case Again(d', a') => Again(d', a' + b)
                                 case Stop(d', a', NeedMore) => Step(c, d', a' + b)
                                 case Stop(d', a', out) => Stop(d', a' + b, out)
  {
    if d.need != 0 {
      BodyExtend(c, d, a, b);
    } else if |a| >= LENGTH_LENGTH && d.counter != COUNTER_MAX {
      var (mask, drbg) := c.step(d.drbg);
      var length := Xor(FromBigEndian(a[..2]), mask, 16);
      assert (a + b)[..2] == a[..2];
      assert (a + b)[2..] == a[2..] + b;
      BodyExtend(c, DecState(d.counter + 1, drbg, Nonce(c, d.counter), length), a[2..], b);
    }
  }

  lemma BodyExtend(c: Cipher, d: DecState, a: seq<byte>, b: seq<byte>)
    ensures var r := Body(c, d, a);
            Body(c, d, a + b) == match r
                                 case Again(d', a') => Again(d', a' + b)
                                 case Stop(d', a', NeedMore) => Body(c, d', a' + b)
                                 case Stop(d', a', out) => Stop(d', a' + b, out)
  {
    if d.need <= |a| {
      assert (a + b)[..d.need] == a[..d.need];
      assert (a + b)[d.need..] == a[d.need..] + b;
    }
  }

  lemma {:induction false} DecodeExtend(c: Cipher, d: DecState, a: seq<byte>, b: seq<byte>)
    ensures var r := Decode(c, d, a);
            Decode(c, d, a + b) == if r.out.NeedMore? then Decode(c, r.d, r.src + b)
                                   else Stop(r.d, r.src + b, r.out)
    decreases |a|
  {
    StepExtend(c, d, a, b);
    var r := Step(c, d, a);
    if r.Again? {
      DecodeExtend(c, r.d, r.src, b);
    }
  }

  /** Bytes that arrive later continue exactly where the earlier ones stopped. */
  lemma {:induction false} DecodeAllExtend(c: Cipher, d: DecState, a: seq<byte>, b: seq<byte>)
    ensures var r := DecodeAll(c, d, a);
            DecodeAll(c, d, a + b) == if r.error.None? then Prepend(r.messages, DecodeAll(c, r.d, r.src + b))
                                      else r.(src := r.src + b)
    decreases |a|
  {
    DecodeExtend(c, d, a, b);
    var r := Decode(c, d, a);
    if r.out.Item? {
      DecodeAllExtend(c, r.d, r.src, b);
      var m, rest := r.out.message, DecodeAll(c, r.d, r.src);
      assert DecodeAll(c, d, a) == Prepend([m], rest);
      assert DecodeAll(c, d, a + b) == Prepend([m], DecodeAll(c, r.d, r.src + b));
      if rest.error.None? {
        PrependTwice([m], rest.messages, DecodeAll(c, rest.d, rest.src + b));
      }
    } else if r.out.NeedMore? {
      var more := DecodeAll(c, r.d, r.src + b);
      assert DecodeAll(c, d, a + b) == more;
      PrependNone(more);
    }
  }

  /** Feed the chunks one after another, draining the decoder after each, up to the first failure. */
  function FeedChunks(c: Cipher, d: DecState, buffered: seq<byte>, chunks: seq<seq<byte>>): Drained
    decreases |chunks|
  {
    var r := DecodeAll(c, d, buffered);
    if chunks == [] then r
    else if r.error.Some? then r.(src := r.src + Flatten(chunks))
    else Prepend(r.messages, FeedChunks(c, r.d, r.src + chunks[0], chunks[1..]))
  }

  /** However the bytes are cut, the messages and the first error are those of one whole buffer. */
  lemma {:induction false} FragmentationIndependence(c: Cipher, d: DecState, buffered: seq<byte>, chunks: seq<seq<byte>>)
    ensures FeedChunks(c, d, buffered, chunks) == DecodeAll(c, d, buffered + Flatten(chunks))
    decreases |chunks|
  {
    var r := DecodeAll(c, d, buffered);
    DecodeAllExtend(c, d, buffered, Flatten(chunks));
    if chunks == [] {
      assert buffered + [] == buffered;
    } else if r.error.None? {
      FragmentationIndependence(c, r.d, r.src + chunks[0], chunks[1..]);
      Assoc(r.src, chunks[0], Flatten(chunks[1..]));
    }
  }

  /** A frame that does not open, or opens to less than a header, fails for ever. */
  lemma AuthFailureIsSticky(c: Cipher, d: DecState, src: seq<byte>, more: seq<byte>)
    requires var r := Decode(c, d, src); r.out == Fail(Crypto) || (r.out == Fail(InvalidMessage) && r.d.need != 0)
    ensures var r := Decode(c, d, src);
            && Decode(c, r.d, r.src + more).out == r.out
            && Decode(c, r.d, r.src + more).d == r.d
            && Decode(c, d, src + more).out == r.out
  {
    DecodeExtend(c, d, src, more);
    FailureKeepsFrame(c, d, src);
    var r := Decode(c, d, src);
    BodyExtend(c, r.d, r.src, more);
  }

  lemma {:induction false} FailureKeepsFrame(c: Cipher, d: DecState, src: seq<byte>)
    requires var r := Decode(c, d, src); r.out == Fail(Crypto) || (r.out == Fail(InvalidMessage) && r.d.need != 0)
    ensures var r := Decode(c, d, src); r.d.need != 0 && Body(c, r.d, r.src) == r
    decreases |src|
  {
    var r := Step(c, d, src);
    if r.Again? {
      FailureKeepsFrame(c, r.d, r.src);
    }
  }

  // ------------------------------------------------------------ rejected frames

  /** A masked length outside what the encoder can produce is rejected at once, with its counter used up. */
  lemma BadLengthIsRejected(c: Cipher, d: DecState, src: seq<byte>)
    requires d.need == 0 && |src| >= LENGTH_LENGTH && d.counter != COUNTER_MAX
    ensures var length := Xor(FromBigEndian(src[..2]), c.step(d.drbg).0, 16);
            var r := Decode(c, d, src);
            !(TAG_SIZE <= length <= MAX_FRAME_PAYLOAD_LENGTH + TAG_SIZE) ==>
              r.out == Fail(InvalidFrame) && r.src == src[2..] && r.d.counter == d.counter + 1
  {
  }

  /** A frame that does not open is an error, and nothing of it is consumed. */
  lemma ForgeryIsRejected(c: Cipher, d: DecState, src: seq<byte>)
    requires 0 < d.need <= |src| && c.open(d.nonce, src[..d.need]).None?
    ensures Decode(c, d, src) == Stop(d, src, Fail(Crypto))
  {
  }

  /** Every message handed out was opened by the cipher and parsed from what it opened to. */
  lemma {:induction false} ItemsAreAuthentic(c: Cipher, d: DecState, src: seq<byte>) returns (nonce: seq<byte>, box: seq<byte>)
    requires Decode(c, d, src).out.Item?
    ensures c.open(nonce, box).Some? && TryParse(c.open(nonce, box).value) == Ok(Decode(c, d, src).out.message)
    decreases |src|
  {
    var r := Step(c, d, src);
    if r.Again? {
      nonce, box := ItemsAreAuthentic(c, r.d, r.src);
    } else if d.need != 0 {
      nonce, box := d.nonce, src[..d.need];
    } else {
      nonce := Nonce(c, d.counter);
      box := src[2..][..Xor(FromBigEndian(src[..2]), c.step(d.drbg).0, 16)];
    }
  }

  /** The encoder accepts exactly what fits a frame, until its counter is used up. */
  lemma EncoderAccepts(c: Cipher, e: EncState, pt: seq<byte>)
    ensures Encode(c, e, pt).Encoded? <==> |pt| <= MAX_FRAME_PAYLOAD_LENGTH && e.counter != COUNTER_MAX
    ensures |pt| > MAX_FRAME_PAYLOAD_LENGTH ==> Encode(c, e, pt) == Rejected(InvalidPayloadLength(|pt|))
  {
  }

  // ---------------------------------------------------------------- wire layout

  /** The state of the mask generator after `i` frames. */
  function MaskState(c: Cipher, i: nat): seq<byte> {
    if i == 0 then c.seed else c.step(MaskState(c, i - 1)).1
  }

  /** Frame `i` of a session: the length under mask `i`, then the box sealed under counter `i + 1`. */
  function FrameAt(c: Cipher, i: nat, pt: seq<byte>): seq<byte> {
    ToBigEndian(Xor(|pt| + TAG_SIZE, c.step(MaskState(c, i)).0, 16), 2) + c.seal(Nonce(c, i + 1), pt)
  }

  function FramesUpTo(c: Cipher, pts: seq<seq<byte>>, n: nat): seq<byte>
    requires n <= |pts|
  {
    if n == 0 then [] else FramesUpTo(c, pts, n - 1) + FrameAt(c, n - 1, pts[n - 1])
  }

  /** The wire of a session is its frames in order, each under its own mask and its own nonce. */
  lemma {:induction false} WireLayout(c: Cipher, pts: seq<seq<byte>>, n: nat)
    requires n <= |pts| && n < COUNTER_MAX && forall i :: 0 <= i < |pts| ==> |pts[i]| <= MAX_FRAME_PAYLOAD_LENGTH
    ensures EncodeAll(c, InitEnc(c), pts[..n]) == Wire(EncState(n + 1, MaskState(c, n)), FramesUpTo(c, pts, n))
  {
    if n > 0 {
      WireLayout(c, pts, n - 1);
      assert pts[..n][..n - 1] == pts[..n - 1];
    }
  }

  // ------------------------------------------------------------------ lockstep

  /** Encoder and decoder stand at the same frame boundary. */
  predicate InSync(e: EncState, d: DecState) {
    d.need == 0 && d.counter == e.counter && d.drbg == e.drbg
  }

  /** What the receiving loop makes of an authentic plaintext. */
  function Received(pt: seq<byte>, d: DecState, src: seq<byte>): Stepped {
    if |pt| < MESSAGE_OVERHEAD then Stop(d, src, Fail(InvalidMessage))
    else
      match TryParse(pt)
      case Ok(Padding(_)) => Again(d, src)
      case Ok(m) => Stop(d, src, Item(m))
      case Err(UnknownMessageType(_)) => Again(d, src)
      case Err(e) => Stop(d, src, Fail(e))
  }

  /**
   Every frame the encoder accepts passes the decoder's range check, opens
   under the same counter, gives the plaintext back and leaves both in step.
   */
  lemma FrameRoundTrip(c: Cipher, e: EncState, d: DecState, pt: seq<byte>, rest: seq<byte>)
    requires InSync(e, d)
    requires Encode(c, e, pt).Encoded? && |pt| >= MESSAGE_OVERHEAD
    ensures var r := Encode(c, e, pt);
            var d' := DecState(r.state.counter, r.state.drbg, Nonce(c, e.counter), 0);
            && InSync(r.state, d')
            && Step(c, d, r.frame + rest) == Received(pt, d', rest)
  {
    var (mask, drbg) := c.step(e.drbg);
    var masked := Xor(|pt| + TAG_SIZE, mask, 16);
    var box := c.seal(Nonce(c, e.counter), pt);
    var header := ToBigEndian(masked, 2);
    Assoc(header, box, rest);
    HeaderThenBody(header, box + rest);
    LengthUnmasks(|pt| + TAG_SIZE, mask);
    HeaderThenBody(box, rest);
    assert Encode(c, e, pt).frame + rest == header + (box + rest);
    assert Body(c, DecState(e.counter + 1, drbg, Nonce(c, e.counter), |box|), box + rest)
        == Received(pt, DecState(e.counter + 1, drbg, Nonce(c, e.counter), 0), rest);
  }

  lemma HeaderThenBody(a: seq<byte>, b: seq<byte>)
    ensures (a + b)[..|a|] == a && (a + b)[|a|..] == b
  {
  }

  /** The receiver recovers the length from the masked header. */
  lemma LengthUnmasks(length: nat, mask: nat)
    requires length < 65536
    ensures Xor(FromBigEndian(ToBigEndian(Xor(length, mask, 16), 2)), mask, 16) == length
  {
    assert Pow2(16) == 65536 by { assert Pow2(4) == 16; assert Pow2(8) == 256; assert Pow2(12) == 4096; }
    assert Pow256(2) == 65536 by { assert Pow256(1) == 256; }
    BigEndianRoundTrip(Xor(length, mask, 16), 2);
    XorTwice(length, mask, 16);
  }

  /** A plaintext a peer may send: a header fits and its content is as long as it says. */
  predicate WellFormed(pt: seq<byte>) {
    && MESSAGE_OVERHEAD <= |pt| <= MAX_FRAME_PAYLOAD_LENGTH
    && (TryParse(pt).Ok? || TryParse(pt).error.UnknownMessageType?)
  }

  predicate AllWellFormed(pts: seq<seq<byte>>) {
    forall pt :: pt in pts ==> WellFormed(pt)
  }

  /** The messages a receiver is handed: padding and unknown types are dropped. */
  function Messages(pts: seq<seq<byte>>): seq<Message> {
    if pts == [] then []
    else Messages(pts[..|pts| - 1]) + Delivered(pts[|pts| - 1])
  }

  function Delivered(pt: seq<byte>): seq<Message> {
    match TryParse(pt)
    case Ok(Padding(_)) => []
    case Ok(m) => [m]
    case Err(_) => []
  }

  /** The receiver has drained `bytes` into `ms` without error and stands in step with the sender. */
  ghost predicate CaughtUp(c: Cipher, bytes: seq<byte>, e: EncState, ms: seq<Message>) {
    var r := DecodeAll(c, InitDec(c), bytes);
    r.error == None && r.src == [] && r.messages == ms && InSync(e, r.d)
  }

  /** The decoder recovers exactly the messages of every run of well-formed frames, and ends in step. */
  lemma {:induction false} DecodeInvertsEncode(c: Cipher, pts: seq<seq<byte>>)
    requires AllWellFormed(pts) && |pts| < COUNTER_MAX
    ensures var w := EncodeAll(c, InitEnc(c), pts);
            w.state.counter == 1 + |pts| && CaughtUp(c, w.bytes, w.state, Messages(pts))
  {
    if pts == [] {
    } else {
      var n := |pts| - 1;
      assert pts[n] in pts;
      DecodeInvertsEncode(c, pts[..n]);
      var w := EncodeAll(c, InitEnc(c), pts[..n]);
      CatchUpOneFrame(c, w.bytes, w.state, Messages(pts[..n]), pts[n]);
    }
  }

  lemma CatchUpOneFrame(c: Cipher, bytes: seq<byte>, e: EncState, ms: seq<Message>, pt: seq<byte>)
    requires CaughtUp(c, bytes, e, ms) && WellFormed(pt) && e.counter != COUNTER_MAX
    ensures var r := Encode(c, e, pt);
            r.Encoded? && CaughtUp(c, bytes + r.frame, r.state, ms + Delivered(pt))
  {
    var r := DecodeAll(c, InitDec(c), bytes);
    var frame := Encode(c, e, pt).frame;
    DecodeOneFrame(c, e, r.d, pt);
    DecodeAllExtend(c, InitDec(c), bytes, frame);
    assert r.src + frame == frame;
  }

  lemma DecodeOneFrame(c: Cipher, e: EncState, d: DecState, pt: seq<byte>)
    requires InSync(e, d) && WellFormed(pt) && e.counter != COUNTER_MAX
    ensures var r := Encode(c, e, pt);
            var after := DecodeAll(c, d, r.frame);
            && r.Encoded?
            && after.error == None && after.src == [] && after.messages == Delivered(pt)
            && InSync(r.state, after.d)
  {
    var r := Encode(c, e, pt);
    FrameRoundTrip(c, e, d, pt, []);
    assert r.frame + [] == r.frame;
    var d' := DecState(r.state.counter, r.state.drbg, Nonce(c, e.counter), 0);
    var round := Step(c, d, r.frame);
    assert round == Received(pt, d', []);
    assert Step(c, d', []) == Stop(d', [], NeedMore);
    assert DecodeAll(c, d', []) == Drained(d', [], [], None);
    if round.Again? {
      assert Decode(c, d, r.frame) == Decode(c, d', []);
    } else {
      assert Decode(c, d, r.frame) == round;
      assert Delivered(pt) + [] == Delivered(pt);
    }
  }

  /** The plaintexts short enough for the encoder. */
  function Kept(pts: seq<seq<byte>>): seq<seq<byte>> {
    if pts == [] then []
    else
      var n := |pts| - 1;
      Kept(pts[..n]) + if |pts[n]| > MAX_FRAME_PAYLOAD_LENGTH then [] else [pts[n]]
  }

  /** Oversized plaintexts change neither nonce, mask nor output, wherever they occur in a run. */
  lemma {:induction false} OversizedLeaveNoTrace(c: Cipher, e: EncState, pts: seq<seq<byte>>)
    ensures EncodeAll(c, e, pts) == EncodeAll(c, e, Kept(pts))
  {
    if pts != [] {
      var n := |pts| - 1;
      OversizedLeaveNoTrace(c, e, pts[..n]);
      var k := Kept(pts[..n]);
      assert (k + [pts[n]])[..|k|] == k;
      assert k + [] == k;
    }
  }

  /** The nonce under which frame `i` of a run is sealed. */
  function SealedUnder(c: Cipher, pts: seq<seq<byte>>, i: nat): seq<byte>
    requires i < |pts|
  {
    Nonce(c, EncodeAll(c, InitEnc(c), pts[..i]).state.counter)
  }

  /** Frame `i` uses counter `i + 1`. */
  lemma NonceOfFrame(c: Cipher, pts: seq<seq<byte>>, i: nat)
    requires AllWellFormed(pts) && |pts| < COUNTER_MAX && i < |pts|
    ensures SealedUnder(c, pts, i) == Nonce(c, i + 1)
  {
    assert AllWellFormed(pts[..i]);
    DecodeInvertsEncode(c, pts[..i]);
  }

  /** No two frames of a session share a nonce. */
  lemma NoncesDistinct(c: Cipher, pts: seq<seq<byte>>, i: nat, j: nat)
    requires AllWellFormed(pts) && |pts| < COUNTER_MAX
    requires i < j < |pts|
    ensures SealedUnder(c, pts, i) != SealedUnder(c, pts, j)
  {
    NonceOfFrame(c, pts, i);
    NonceOfFrame(c, pts, j);
    NonceInjective(c, i + 1, j + 1);
  }

  /** On any prefix of an honest stream the decoder reports no error and only messages that were sent, in order. */
  lemma HonestPrefix(c: Cipher, pts: seq<seq<byte>>, seen: seq<byte>)
    requires AllWellFormed(pts) && |pts| < COUNTER_MAX
    requires seen <= EncodeAll(c, InitEnc(c), pts).bytes
    ensures DecodeAll(c, InitDec(c), seen).error == None
    ensures DecodeAll(c, InitDec(c), seen).messages <= Messages(pts)
  {
    DecodeInvertsEncode(c, pts);
    var bytes := EncodeAll(c, InitEnc(c), pts).bytes;
    assert bytes == seen + bytes[|seen|..];
    DecodeAllExtend(c, InitDec(c), seen, bytes[|seen|..]);
  }

  // -------------------------------------------------------------- payload bytes

  /** The application bytes carried by a run of messages. */
  function Content(ms: seq<Message>): seq<byte> {
    if ms == [] then []
    else Content(ms[..|ms| - 1]) + (match ms[|ms| - 1] case Payload(b) => b case _ => [])
  }

  lemma {:induction false} ContentAppend(a: seq<Message>, b: seq<Message>)
    ensures Content(a + b) == Content(a) + Content(b)
  {
    if b == [] {
      assert a + b == a;
    } else {
      var n := |b| - 1;
      ContentAppend(a, b[..n]);
      ContentSnoc(a + b[..n], b[n]);
      ContentSnoc(b[..n], b[n]);
      assert b[..n] + [b[n]] == b && a + b[..n] + [b[n]] == a + b;
      Assoc(Content(a), Content(b[..n]), if b[n].Payload? then b[n].bytes else []);
    }
  }

  lemma ContentSnoc(ms: seq<Message>, m: Message)
    ensures Content(ms + [m]) == Content(ms) + if m.Payload? then m.bytes else []
  {
    assert (ms + [m])[..|ms|] == ms;
  }

  /** Only a payload of at least one byte is handed out as a payload. */
  lemma {:induction false} DecodedPayloadNonEmpty(c: Cipher, d: DecState, src: seq<byte>)
    ensures var r := Decode(c, d, src); r.out.Item? && r.out.message.Payload? ==> r.out.message.bytes != []
    decreases |src|
  {
    var r := Step(c, d, src);
    StepPayloadNonEmpty(c, d, src);
    if r.Again? {
      DecodedPayloadNonEmpty(c, r.d, r.src);
    } else {
      assert Decode(c, d, src) == r;
    }
  }

  lemma StepPayloadNonEmpty(c: Cipher, d: DecState, src: seq<byte>)
    ensures var r := Step(c, d, src); r.Stop? && r.out.Item? && r.out.message.Payload? ==> r.out.message.bytes != []
  {
    BodyPayloadNonEmpty(c, d, src);
    if d.need == 0 && |src| >= LENGTH_LENGTH && d.counter != COUNTER_MAX {
      var (mask, drbg) := c.step(d.drbg);
      var length := Xor(FromBigEndian(src[..2]), mask, 16);
      BodyPayloadNonEmpty(c, DecState(d.counter + 1, drbg, Nonce(c, d.counter), length), src[2..]);
    }
  }

  lemma BodyPayloadNonEmpty(c: Cipher, d: DecState, src: seq<byte>)
    ensures var r := Body(c, d, src); r.Stop? && r.out.Item? && r.out.message.Payload? ==> r.out.message.bytes != []
  {
    if d.need <= |src| && c.open(d.nonce, src[..d.need]).Some? {
      ParsedPayloadNonEmpty(c.open(d.nonce, src[..d.need]).value);
    }
  }

  lemma ParsedPayloadNonEmpty(pt: seq<byte>)
    ensures TryParse(pt).Ok? && TryParse(pt).message.Payload? ==> TryParse(pt).message.bytes != []
  {
  }

  /** Later bytes add messages after those already decoded. */
  lemma MessagesGrow(c: Cipher, a: seq<byte>, b: seq<byte>)
    requires DecodeAll(c, InitDec(c), a).error.None? && a <= b
    ensures DecodeAll(c, InitDec(c), a).messages <= DecodeAll(c, InitDec(c), b).messages
  {
    DecodeAllExtend(c, InitDec(c), a, b[|a|..]);
    assert a + b[|a|..] == b;
  }
}
