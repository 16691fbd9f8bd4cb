/** What a transport, its timers and a distribution may answer, and how a result is traced back to an answer. */
module Environment {
  import opened Bytes
  import F = Framing

  datatype IoKind = Interrupted | WriteZero | NotConnected | Other
  datatype IoError = IoError(kind: IoKind, detail: string) | FrameFailure(kind: IoKind, frame: F.FrameError)
  datatype Poll<+T> = Pending | Ready(value: T) | Failed(error: IoError)

  /** One answer: go on, with up to `n` bytes; not now; or an error. */
  datatype Answer = Go(n: nat) | Wait | Break(error: IoError)

  /** Answer number `i` of a script; a script that has run out says to wait. */
  function At(script: seq<Answer>, i: nat): Answer {
    if i < |script| then script[i] else Wait
  }

  /** How many answers are left before the script only says to wait. */
  function Remaining(script: seq<Answer>, i: nat): nat {
    if i < |script| then |script| - i else 0
  }

  /** Between positions `from` and `to` of the script answers were heard, and `a` was the last. */
  predicate Told(script: seq<Answer>, from: nat, to: nat, a: Answer) {
    from < to && At(script, to - 1) == a
  }

  /** The last answer heard was a reason to come back later: wait, or an interruption. */
  predicate Stalled(script: seq<Answer>, from: nat, to: nat) {
    from < to && (At(script, to - 1).Wait? || (At(script, to - 1).Break? && At(script, to - 1).error.kind == Interrupted))
  }

  /** A read was told to wait, or found nothing in flight. */
  predicate Starved(script: seq<Answer>, from: nat, to: nat, inFlight: seq<byte>) {
    from < to && (At(script, to - 1).Wait? || (At(script, to - 1).Go? && At(script, to - 1).n > 0 && inFlight == []))
  }

  /** A transport that takes no byte of a frame, and a session that has used up its nonces. */
  const WRITE_ZERO: IoError := IoError(WriteZero, "failed to write frame to transport")
  const WORN_OUT: IoError := FrameFailure(Other, F.NonceCounterWrapped)

  /** An error has its cause: it was the last answer heard, no byte was taken, or the session is worn out. */
  predicate Excused(script: seq<Answer>, from: nat, to: nat, worn: bool, e: IoError) {
    || Told(script, from, to, Break(e))
    || (e == WRITE_ZERO && Told(script, from, to, Go(0)))
    || (e == WORN_OUT && worn)
  }

  /** A result has its cause: a stall was told to wait, an error is excused. */
  predicate Explained(script: seq<Answer>, from: nat, to: nat, worn: bool, r: Poll<()>) {
    && (r.Pending? ==> Told(script, from, to, Wait))
    && (r.Failed? ==> Excused(script, from, to, worn, r.error))
  }
}
