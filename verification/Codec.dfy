/** The frame encoder and decoder of one session, updating their state in place. */
module Codec {
  import opened Bytes
  import opened Framing

  class EncryptingCodec {
    /** The two directions have independent key material. */
    const sealer: Cipher
    const opener: Cipher
    var enc: EncState
    var dec: DecState

    constructor (sealer: Cipher, opener: Cipher)
      ensures this.sealer == sealer && this.opener == opener
      ensures enc == InitEnc(sealer) && dec == InitDec(opener)
    {
      this.sealer, this.opener := sealer, opener;
      enc, dec := InitEnc(sealer), InitDec(opener);
    }

    /** `NonceBox::next` of the encoder: a counter value is consumed exactly once. */
    method NextEncoderNonce() returns (nonce: Option<seq<byte>>)
      modifies this`enc
      ensures nonce == if old(enc.counter) == COUNTER_MAX then None else Some(Nonce(sealer, old(enc.counter)))
      ensures enc == if nonce.None? then old(enc) else old(enc).(counter := old(enc.counter) + 1)
    {
      if enc.counter == COUNTER_MAX {
        return None;
      }
      nonce := Some(sealer.prefix + ToBigEndian(enc.counter, 8));
      enc := enc.(counter := enc.counter + 1);
    }

    /** Append one sealed frame to `dst`; a rejected plaintext changes nothing. */
    method Encode(plaintext: seq<byte>, dst: seq<byte>) returns (out: seq<byte>, error: Option<FrameError>)
      modifies this`enc
      ensures match Framing.Encode(sealer, old(enc), plaintext)
              case Encoded(state, frame) => enc == state && out == dst + frame && error == None
              case Rejected(e) => enc == old(enc) && out == dst && error == Some(e)
    {
      out, error := dst, None;
      if |plaintext| > MAX_FRAME_PAYLOAD_LENGTH {
        return dst, Some(InvalidPayloadLength(|plaintext|));
      }
      var nonce := NextEncoderNonce();
      if nonce.None? {
        return dst, Some(NonceCounterWrapped);
      }
      var ctLen := |plaintext| + TAG_SIZE;
      var (mask, drbg) := sealer.step(enc.drbg);
      enc := enc.(drbg := drbg);
      // Length, an empty tag slot and the plaintext, then sealed where they lie.
      var tagStart := |dst| + LENGTH_LENGTH;
      out := dst + ToBigEndian(Xor(ctLen, mask, 16), 2) + Zeros(TAG_SIZE) + plaintext;
      assert out[tagStart + TAG_SIZE..] == plaintext;
      var box := sealer.seal(nonce.value, out[tagStart + TAG_SIZE..]);
      out := out[..tagStart] + box[..TAG_SIZE] + box[TAG_SIZE..];
      assert out == dst + (ToBigEndian(Xor(ctLen, mask, 16), 2) + box);
    }

    /** Decode the next message out of `src`, skipping padding and unknown types. */
    method Decode(src: seq<byte>) returns (rest: seq<byte>, out: Outcome)
      modifies this`dec
      ensures Framing.Decode(opener, old(dec), src) == Stop(dec, rest, out)
    {
      rest := src;
      while true
        invariant Framing.Decode(opener, dec, rest) == Framing.Decode(opener, old(dec), src)
        decreases |rest|
      {
        ghost var round := Step(opener, dec, rest);
        if dec.need == 0 {
          if LENGTH_LENGTH > |rest| {
            return rest, NeedMore;
          }
          if dec.counter == COUNTER_MAX {
            return rest, Fail(NonceCounterWrapped);
          }
          var nonce := opener.prefix + ToBigEndian(dec.counter, 8);
          var (mask, drbg) := opener.step(dec.drbg);
          var length := Xor(FromBigEndian(rest[..2]), mask, 16);
          dec := DecState(dec.counter + 1, drbg, nonce, 0);
          rest := rest[2..];
          if MAX_FRAME_LENGTH < length || MIN_FRAME_LENGTH > length {
            return rest, Fail(InvalidFrame);
          }
          dec := dec.(need := length);
        }
        assert round == Body(opener, dec, rest);
        if dec.need > |rest| {
          return rest, NeedMore;
        }
        var unsealed := opener.open(dec.nonce, rest[..dec.need]);
        if unsealed.None? {
          return rest, Fail(Crypto);
        }
        if |unsealed.value| < MESSAGE_OVERHEAD {
          return rest, Fail(InvalidMessage);
        }
        rest, dec := rest[dec.need..], dec.(need := 0);
        match TryParse(unsealed.value) {
          case Ok(Padding(_)) =>
          case Err(UnknownMessageType(_)) =>
          case Ok(m) =>
            return rest, Item(m);
          case Err(e) =>
            return rest, Fail(e);
        }
      }
    }
  }
}
