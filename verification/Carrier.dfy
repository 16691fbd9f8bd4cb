/** The carrier that shapes writes into bursts of scheduled lengths. */
module Carrier {
  import opened Bytes
  import opened Environment
  import F = Framing

  datatype Iat = Off | Enabled | Paranoid

  function Sum(s: seq<nat>): nat {
    if s == [] then 0 else Sum(s[..|s| - 1]) + s[|s| - 1]
  }

  function Last(s: seq<nat>): nat
    requires s != []
  {
    s[|s| - 1]
  }

  /** Every target is one to a segment's bytes. */
  predicate BurstLengths(s: seq<nat>) {
    s == [] || (1 <= Last(s) <= F.MAX_SEGMENT_LENGTH && BurstLengths(s[..|s| - 1]))
  }

  lemma SumSnoc(s: seq<nat>, x: nat)
    ensures Sum(s + [x]) == Sum(s) + x
  {
    assert (s + [x])[..|s|] == s;
  }

  /**
   The lengths of the padding messages `pad_burst` appends to a burst so that
   its last segment ends at `target`.
   */
  function PadLengths(burst: nat, target: nat): seq<nat>
    requires target <= F.MAX_SEGMENT_LENGTH
  {
    var tail := burst % F.MAX_SEGMENT_LENGTH;
    var pad := if target >= tail then target - tail else F.MAX_SEGMENT_LENGTH - tail + target;
    if pad == 0 then []
    else if pad > F.HEADER_LENGTH then [pad - F.HEADER_LENGTH]
    else [F.MAX_MESSAGE_PAYLOAD_LENGTH, pad]
  }

  /** Bytes on the wire for padding messages of the given lengths. */
  function WireLength(lengths: seq<nat>): nat {
    Sum(lengths) + F.HEADER_LENGTH * |lengths|
  }

  /** Bytes on the wire for the padding of a burst: the gap to the target, or a segment and a header more when no frame fits the gap. */
  function PadBytes(burst: nat, target: nat): nat
    requires target <= F.MAX_SEGMENT_LENGTH
  {
    var tail := burst % F.MAX_SEGMENT_LENGTH;
    var gap := if target >= tail then target - tail else F.MAX_SEGMENT_LENGTH - tail + target;
    if gap == 0 || gap > F.HEADER_LENGTH then gap else F.MAX_SEGMENT_LENGTH + F.HEADER_LENGTH + gap
  }

  lemma PadBytesOnWire(burst: nat, target: nat)
    requires target <= F.MAX_SEGMENT_LENGTH
    ensures WireLength(PadLengths(burst, target)) == PadBytes(burst, target)
  {
    var tail := burst % F.MAX_SEGMENT_LENGTH;
    SmallSums(if target >= tail then target - tail else F.MAX_SEGMENT_LENGTH - tail + target);
  }

  lemma WireLengthSnoc(lengths: seq<nat>, i: nat)
    requires i < |lengths|
    ensures WireLength(lengths[..i + 1]) == WireLength(lengths[..i]) + F.HEADER_LENGTH + lengths[i]
  {
    SumSnoc(lengths[..i], lengths[i]);
    assert lengths[..i + 1] == lengths[..i] + [lengths[i]];
  }

  /**
   At most two frames, each within the encoder's limit; the padded burst ends
   at `target` in its segment, or one header further when the gap is too small
   to hold a frame.
   */
  lemma PadBurstArithmetic(burst: nat, target: nat)
    requires target <= F.MAX_SEGMENT_LENGTH
    ensures var lengths := PadLengths(burst, target);
            var gap := (target - burst) % F.MAX_SEGMENT_LENGTH;
            && |lengths| <= 2
            && (forall n :: n in lengths ==> n <= F.MAX_MESSAGE_PAYLOAD_LENGTH)
            && (burst + WireLength(lengths)) % F.MAX_SEGMENT_LENGTH
               == (if gap == 0 || gap > F.HEADER_LENGTH then target else target + F.HEADER_LENGTH) % F.MAX_SEGMENT_LENGTH
  {
    var m := F.MAX_SEGMENT_LENGTH;
    var q, tail := burst / m, burst % m;
    var lengths := PadLengths(burst, target);
    assert burst == tail + m * q;
    Residue(target - tail, -q);
    Residue(tail + WireLength(lengths), q);
    assert PadLengths(burst, target) == PadLengths(tail, target) by { assert tail % m == tail; }
    PadTailArithmetic(tail, target);
  }

  lemma Residue(x: int, q: int)
    ensures (x + F.MAX_SEGMENT_LENGTH * q) % F.MAX_SEGMENT_LENGTH == x % F.MAX_SEGMENT_LENGTH
  {
  }

  /** The same for a burst shorter than a segment. */
  lemma PadTailArithmetic(tail: nat, target: nat)
    requires tail < F.MAX_SEGMENT_LENGTH && target <= F.MAX_SEGMENT_LENGTH
    ensures var lengths := PadLengths(tail, target);
            var gap := (target - tail) % F.MAX_SEGMENT_LENGTH;
            && |lengths| <= 2
            && (forall n :: n in lengths ==> n <= F.MAX_MESSAGE_PAYLOAD_LENGTH)
            && (tail + WireLength(lengths)) % F.MAX_SEGMENT_LENGTH
               == (if gap == 0 || gap > F.HEADER_LENGTH then target else target + F.HEADER_LENGTH) % F.MAX_SEGMENT_LENGTH
  {
    var m := F.MAX_SEGMENT_LENGTH;
    var pad := if target >= tail then target - tail else m - tail + target;
    assert tail % m == tail;
    SmallSums(pad);
    Residue(target - tail, 1);
    Residue(target, 1);
    Residue(target + F.HEADER_LENGTH, 1);
    Residue(target + F.HEADER_LENGTH, 2);
    if pad == m {
      assert tail == 0 && target == m;
    } else {
      assert (target - tail) % m == pad;
    }
  }

  lemma SmallSums(pad: nat)
    ensures pad > F.HEADER_LENGTH ==> WireLength([pad - F.HEADER_LENGTH]) == pad
    ensures WireLength([F.MAX_MESSAGE_PAYLOAD_LENGTH, pad]) == F.MAX_SEGMENT_LENGTH + F.HEADER_LENGTH + pad
  {
    var full := F.MAX_MESSAGE_PAYLOAD_LENGTH;
    SumSnoc([], full);
    SumSnoc([full], pad);
    assert [] + [full] == [full] && [full] + [pad] == [full, pad];
    if pad > F.HEADER_LENGTH {
      SumSnoc([], pad - F.HEADER_LENGTH);
      assert [] + [pad - F.HEADER_LENGTH] == [pad - F.HEADER_LENGTH];
    }
  }

  /** Bytes on the wire for a write of `n` bytes, cut into frames of at most 1427 bytes. */
  function BurstLength(n: nat): nat {
    if n == 0 then 0
    else if n <= F.MAX_MESSAGE_PAYLOAD_LENGTH then F.HEADER_LENGTH + n
    else F.MAX_SEGMENT_LENGTH + BurstLength(n - F.MAX_MESSAGE_PAYLOAD_LENGTH)
  }

  lemma {:induction false} BurstLengthByFrames(frames: nat, last: nat)
    requires last <= F.MAX_MESSAGE_PAYLOAD_LENGTH
    ensures BurstLength(F.MAX_MESSAGE_PAYLOAD_LENGTH * frames + last)
         == F.MAX_SEGMENT_LENGTH * frames + if last == 0 then 0 else F.HEADER_LENGTH + last
    decreases frames
  {
    if frames != 0 {
      BurstLengthByFrames(frames - 1, last);
    }
  }

  /** A write that follows `frames` full frames with at most one more. */
  lemma BurstOfWrite(n: nat, lenSent: nat, burstLen: nat, frames: nat)
    requires lenSent == F.MAX_MESSAGE_PAYLOAD_LENGTH * frames && burstLen == F.MAX_SEGMENT_LENGTH * frames
    requires lenSent < n <= lenSent + F.MAX_MESSAGE_PAYLOAD_LENGTH
    ensures BurstLength(n) == burstLen + F.HEADER_LENGTH + n - lenSent
  {
    BurstLengthByFrames(frames, n - lenSent);
    assert F.MAX_MESSAGE_PAYLOAD_LENGTH * frames + (n - lenSent) == n;
  }

  lemma WholeFrames(n: nat, frames: nat)
    requires n == F.MAX_MESSAGE_PAYLOAD_LENGTH * frames
    ensures n % F.MAX_MESSAGE_PAYLOAD_LENGTH == 0
  {
  }

  /** Less than one frame holds no whole frames. */
  lemma NoWholeFrame(n: nat)
    requires 0 < n < F.MAX_MESSAGE_PAYLOAD_LENGTH
    ensures n % F.MAX_MESSAGE_PAYLOAD_LENGTH != 0
  {
  }

  /** A draw from the length distribution. */
  type Draw = n: nat | n <= F.MAX_SEGMENT_LENGTH

  /** Draw number `i`; draws that have run out are 0. */
  function DrawAt(draws: seq<Draw>, i: nat): Draw {
    if i < |draws| then draws[i] else 0
  }

  /** The burst length a draw stands for when it is scheduled: at least one byte. */
  function BurstTarget(draw: Draw): nat {
    if draw < 1 then 1 else draw
  }

  /** `bytes` is what a burst of `n` application bytes occupies when padded to the draw `target`. */
  predicate Shaped(n: nat, bytes: int, target: Draw) {
    bytes == BurstLength(n) + PadBytes(BurstLength(n), target)
  }

  /** A buffer shorter than the wanted target is padded to it, or past a whole segment. */
  lemma PaddedBufferSuffices(buffered: nat, target: nat)
    requires buffered < target <= F.MAX_SEGMENT_LENGTH
    ensures var padded := buffered + WireLength(PadLengths(buffered, target));
            padded == target || padded >= F.MAX_SEGMENT_LENGTH
  {
    var pad := target - buffered;
    SmallSums(pad);
    assert buffered % F.MAX_SEGMENT_LENGTH == buffered;
    if pad > F.HEADER_LENGTH {
      assert PadLengths(buffered, target) == [pad - F.HEADER_LENGTH];
    } else {
      assert PadLengths(buffered, target) == [F.MAX_MESSAGE_PAYLOAD_LENGTH, pad];
    }
  }

  class IatCarrier {
    const mode: Iat
    var delayPending: bool
    var shutdownRequested: bool
    var scheduled: Option<nat>
    var padTarget: Option<nat>
    /** What the transport and the timer answer, and what the length distribution gives. */
    const script: seq<Answer>
    const draws: seq<Draw>
    /** How many answers and how many draws have been used. */
    var pos: nat
    var drawn: nat

    /** All bytes the transport below has taken, how many of them it has flushed, and whether it is shut down. */
    var sent: seq<byte>
    var flushed: nat
    var ended: bool
    /** The target of every burst put on the schedule, in order; the last one may still be running. */
    ghost var targets: seq<nat>

    constructor (mode: Iat, script: seq<Answer>, draws: seq<Draw>)
      ensures this.mode == mode && this.script == script && this.draws == draws
      ensures pos == 0 && drawn == 0 && sent == [] && targets == [] && flushed == 0 && !ended && !shutdownRequested && !delayPending
      ensures Valid(0)
    {
      this.mode, this.script, this.draws := mode, script, draws;
      delayPending, shutdownRequested := false, false;
      scheduled, padTarget, pos, drawn := None, None, 0, 0;
      sent, flushed, ended, targets := [], 0, false, [];
    }

    /** Everything written is the bursts scheduled, each in full, less what is left of the last one. */
    ghost predicate Ledger()
      reads this`sent, this`targets
    {
      mode != Off ==>
        && BurstLengths(targets)
        && (|sent| == Sum(targets) || (targets != [] && Sum(targets) - Last(targets) <= |sent| < Sum(targets)))
    }

    /** What is left of the running burst never exceeds the bytes buffered above, and no padding is owed. */
    ghost predicate Valid(buffered: nat)
      reads this`sent, this`targets, this`scheduled, this`padTarget
    {
      && Ledger()
      && padTarget == None
      && (if mode == Off then scheduled == None
          else if scheduled.None? then |sent| == Sum(targets)
          else 1 <= scheduled.value <= buffered && |sent| == Sum(targets) - scheduled.value)
    }

    /** The carrier wants the `buffered` bytes padded to its target before it writes any. */
    ghost predicate PadRequested(buffered: nat)
      reads this`sent, this`targets, this`scheduled, this`padTarget
    {
      && Ledger()
      && mode == Paranoid
      && |sent| == Sum(targets)
      && padTarget.Some? && scheduled == padTarget
      && buffered < padTarget.value <= F.MAX_SEGMENT_LENGTH
    }

    method SampleLength() returns (n: Draw)
      modifies this`drawn
      ensures n == DrawAt(draws, old(drawn)) && drawn == old(drawn) + 1
    {
      n, drawn := DrawAt(draws, drawn), drawn + 1;
    }

    /** Ask the transport or the timer. */
    method Ask() returns (a: Answer)
      modifies this`pos
      ensures a == At(script, old(pos)) && pos == old(pos) + 1
    {
      a, pos := At(script, pos), pos + 1;
    }

    /** The transport below takes a prefix of the bytes offered, stalls or fails. */
    method InnerPollWrite(buf: seq<byte>) returns (r: Poll<nat>)
      modifies this`pos, this`sent
      ensures pos == old(pos) + 1
      ensures r == match At(script, old(pos)) case Go(n) => Ready(Min(n, |buf|)) case Wait => Pending case Break(e) => Failed(e)
      ensures sent == old(sent) + if r.Ready? then buf[..r.value] else []
    {
      var a := Ask();
      match a {
        case Go(n) =>
          sent := sent + buf[..Min(n, |buf|)];
          return Ready(Min(n, |buf|));
        case Wait =>
          return Pending;
        case Break(e) =>
          return Failed(e);
      }
    }

    /** A timer is to fire before anything is written or flushed. */
    predicate Armed()
      reads this`delayPending
    {
      mode != Off && delayPending
    }

    /** Poll the inter-arrival timer when one is armed; true when writing may go on. */
    method PollDelay() returns (elapsed: bool)
      modifies this`delayPending, this`pos
      ensures elapsed == !(old(Armed()) && At(script, old(pos)).Wait?)
      ensures pos == old(pos) + if old(Armed()) then 1 else 0
      ensures delayPending == (old(delayPending) && !(old(Armed()) && elapsed))
    {
      if mode != Off && delayPending {
        var a := Ask();
        if a.Wait? {
          return false;
        }
        delayPending := false;
      }
      return true;
    }

    /** A burst of `t` bytes is put on the schedule. */
    ghost method Plan(t: nat)
      requires Ledger() && mode != Off && |sent| == Sum(targets) && 1 <= t <= F.MAX_SEGMENT_LENGTH
      modifies this`targets
      ensures Ledger() && targets == old(targets) + [t] && |sent| == Sum(targets) - t
    {
      SumSnoc(targets, t);
      targets := targets + [t];
    }

    /** The target the next burst gets: what is buffered, or the next draw, a segment at most. */
    function NextTarget(buffered: nat): nat
      reads this`drawn
    {
      if mode == Paranoid then BurstTarget(DrawAt(draws, drawn)) else Min(buffered, F.MAX_SEGMENT_LENGTH)
    }

    /**
     Choose the length of the next burst, unless one is running; false when the buffer
     must be padded first. A running burst keeps its length.
     */
    method Schedule(buffered: nat) returns (ready: bool)
      requires buffered > 0 && Valid(buffered)
      modifies this`scheduled, this`padTarget, this`targets, this`drawn
      ensures ready ==> Valid(buffered) && (mode != Off ==> scheduled.Some?)
      ensures !ready ==> PadRequested(buffered)
      ensures ready == !(mode == Paranoid && old(scheduled).None? && buffered < old(NextTarget(buffered)))
      ensures scheduled == if mode == Off || old(scheduled).Some? then old(scheduled) else Some(old(NextTarget(buffered)))
      ensures mode == Enabled && old(scheduled).None? ==> scheduled == Some(Min(buffered, F.MAX_SEGMENT_LENGTH))
      ensures targets == if ready && mode != Off && old(scheduled).None? then old(targets) + [old(NextTarget(buffered))] else old(targets)
      ensures drawn == old(drawn) + if mode == Paranoid && old(scheduled).None? then 1 else 0
    {
      if mode == Paranoid && scheduled.None? {
        ready := ScheduleDraw(buffered);
        return;
      } else if mode != Off && scheduled.None? {
        var t := Min(buffered, F.MAX_SEGMENT_LENGTH);
        scheduled := Some(t);
        Plan(t);
      }
      return true;
    }

    /** In Paranoid mode the next draw is the length of the burst, whatever is buffered. */
    method ScheduleDraw(buffered: nat) returns (ready: bool)
      requires buffered > 0 && Valid(buffered) && mode == Paranoid && scheduled.None?
      modifies this`scheduled, this`padTarget, this`targets, this`drawn
      ensures var t := BurstTarget(DrawAt(draws, old(drawn)));
              && ready == (t <= buffered) && scheduled == Some(t) && drawn == old(drawn) + 1
              && targets == (if ready then old(targets) + [t] else old(targets))
      ensures if ready then Valid(buffered) else PadRequested(buffered)
    {
      var sample := SampleLength();
      var t := Min(if sample < 1 then 1 else sample, F.MAX_SEGMENT_LENGTH);
      scheduled := Some(t);
      if buffered < t {
        padTarget := Some(t);
        return false;
      }
      Plan(t);
      return true;
    }

    /** Account for `written` bytes of the running burst; at its end, arm the timer. */
    method Advance(written: nat)
      requires mode != Off && scheduled.Some? && 0 < written <= scheduled.value
      modifies this`scheduled, this`delayPending
      ensures scheduled == if written == old(scheduled.value) then None else Some(old(scheduled.value) - written)
      ensures delayPending == (old(delayPending) || (scheduled.None? && !shutdownRequested))
    {
      var left := scheduled.value - written;
      scheduled := Some(left);
      if left == 0 {
        scheduled := None;
        if !shutdownRequested {
          delayPending := true;
        }
      }
    }

    /** The answer to a write that offers `n` bytes: the timer's while it runs, then the transport's. */
    function Reply(n: nat): Poll<nat>
      reads this`delayPending, this`pos
    {
      if Armed() && At(script, pos).Wait? then Pending
      else
        match At(script, if Armed() then pos + 1 else pos)
        case Go(k) => Ready(Min(k, n))
        case Wait => Pending
        case Break(e) => Failed(e)
    }

    /** How much of `buffered` bytes is offered: all, or what is left of the burst they belong to. */
    function Offered(buffered: nat): nat
      reads this`scheduled, this`drawn
    {
      if mode == Off then buffered
      else Min(if scheduled.Some? then scheduled.value else NextTarget(buffered), buffered)
    }

    /** Whether a new burst wants more bytes than are buffered. */
    predicate WantsPadding(buffered: nat)
      reads this`scheduled, this`drawn
    {
      mode == Paranoid && scheduled.None? && buffered > 0 && buffered < NextTarget(buffered)
    }

    /** A new burst wants more than is buffered: nothing but the draw has changed, and padding is requested. */
    twostate predicate AsksForPadding(buffered: nat, new r: Poll<nat>)
      reads this
    {
      && r == Pending && PadRequested(buffered) && padTarget == Some(old(NextTarget(buffered)))
      && sent == old(sent) && pos == old(pos) && targets == old(targets)
    }

    /** `r` is the transport's answer to the bytes offered, after the timer's, and has its cause. */
    twostate predicate Relays(buf: seq<byte>, new r: Poll<nat>)
      reads this
    {
      && r == old(Reply(Offered(|buf|))) && (r.Ready? ==> r.value <= |buf|)
      && pos == old(pos) + (if old(Armed()) && !At(script, old(pos)).Wait? then 2 else 1)
      && sent == old(sent) + (if r.Ready? then buf[..r.value] else [])
      && (sent != old(sent) && mode != Off ==> (delayPending <==> scheduled.None? && !shutdownRequested))
    }

    /** The write belongs to the running burst, or starts the next one; it comes off what is left, and the burst ends when nothing is. */
    twostate predicate Counts(buffered: nat, new r: Poll<nat>)
      reads this
    {
      && targets == (if mode != Off && old(scheduled).None? then old(targets) + [old(NextTarget(buffered))] else old(targets))
      && (mode != Off ==>
            var left := if old(scheduled).Some? then old(scheduled).value else old(NextTarget(buffered));
            var took := if r.Ready? then r.value else 0;
            took <= left && scheduled == if took == left then None else Some(left - took))
    }

    /**
     Offer `buf`. A burst once scheduled keeps its target until the bytes taken make it up
     exactly.
     */
    method PollWrite(buf: seq<byte>) returns (r: Poll<nat>)
      requires Valid(|buf|)
      modifies this`scheduled, this`padTarget, this`targets, this`drawn, this`delayPending, this`pos, this`sent
      ensures buf == [] ==> r == Ready(0) && unchanged(this)
      ensures buf != [] && old(WantsPadding(|buf|)) ==> AsksForPadding(|buf|, r)
      ensures buf != [] && !old(WantsPadding(|buf|)) ==>
                Relays(buf, r) && Counts(|buf|, r) && Valid(|buf| - if r.Ready? then r.value else 0)
      ensures buf != [] && mode == Enabled && old(scheduled).None? ==> targets == old(targets) + [Min(|buf|, F.MAX_SEGMENT_LENGTH)]
      ensures buf != [] ==> drawn == old(drawn) + if mode == Paranoid && old(scheduled).None? then 1 else 0
    {
      if buf == [] {
        return Ready(0);
      }
      r := Offer(buf);
    }

    /** Schedule a burst if none is running, and write once the timer has fired. */
    method Offer(buf: seq<byte>) returns (r: Poll<nat>)
      requires Valid(|buf|) && buf != []
      modifies this`scheduled, this`padTarget, this`targets, this`drawn, this`delayPending, this`pos, this`sent
      ensures old(WantsPadding(|buf|)) ==> AsksForPadding(|buf|, r)
      ensures !old(WantsPadding(|buf|)) ==> Relays(buf, r) && Counts(|buf|, r) && Valid(|buf| - if r.Ready? then r.value else 0)
      ensures drawn == old(drawn) + if mode == Paranoid && old(scheduled).None? then 1 else 0
    {
      ghost var offered := Offered(|buf|);
      var scheduledNow := Schedule(|buf|);
      if !scheduledNow {
        return Pending;
      }
      assert Offered(|buf|) == offered;
      assert Reply(offered) == old(Reply(Offered(|buf|)));
      r := WriteTimed(buf);
      assert Relays(buf, r);
      assert Counts(|buf|, r);
    }

    /** A write as the sink above sees it: bytes move, bursts are appended, and a stall or an error has its cause. */
    method Transfer(buf: seq<byte>) returns (r: Poll<nat>)
      requires Valid(|buf|) && buf != []
      modifies this`scheduled, this`padTarget, this`targets, this`drawn, this`delayPending, this`pos, this`sent
      ensures r.Ready? ==> r.value <= |buf|
      ensures sent == if r.Ready? then old(sent) + buf[..r.value] else old(sent)
      ensures Extends(old(targets), targets) && old(pos) <= pos
      ensures mode != Paranoid ==> drawn == old(drawn)
      ensures r.Ready? ==> Remaining(script, pos) < Remaining(script, old(pos))
      ensures padTarget.Some? ==> r.Pending? && PadRequested(|buf|) && old(scheduled).None?
      ensures padTarget.None? ==> Valid(|buf| - if r.Ready? then r.value else 0)
      ensures padTarget.None? && r.Pending? ==> Told(script, old(pos), pos, Wait)
      ensures r.Failed? ==> Told(script, old(pos), pos, Break(r.error))
      ensures r == Ready(0) ==> Told(script, old(pos), pos, Go(0))
    {
      ExtendsAppend(targets, [NextTarget(|buf|)]);
      r := PollWrite(buf);
    }

    /** Write once the timer, if one is armed, has fired. */
    method WriteTimed(buf: seq<byte>) returns (r: Poll<nat>)
      requires Valid(|buf|) && buf != [] && (mode != Off ==> scheduled.Some?)
      modifies this`scheduled, this`delayPending, this`pos, this`sent
      ensures Relays(buf, r) && Valid(|buf| - if r.Ready? then r.value else 0)
      ensures mode != Off ==>
                var took := if r.Ready? then r.value else 0;
                && took <= old(scheduled.value)
                && scheduled == if took == old(scheduled.value) then None else Some(old(scheduled.value) - took)
    {
      var elapsed := PollDelay();
      if !elapsed {
        return Pending;
      }
      r := WriteScheduled(buf);
    }

    /** Write at most what is left of the running burst. */
    method WriteScheduled(buf: seq<byte>) returns (r: Poll<nat>)
      requires Valid(|buf|) && buf != [] && (mode != Off ==> scheduled.Some? && !delayPending)
      modifies this`scheduled, this`delayPending, this`pos, this`sent
      ensures pos == old(pos) + 1
      ensures r == old(Reply(Offered(|buf|)))
      ensures r.Ready? ==> r.value <= |buf|
      ensures sent == old(sent) + if r.Ready? then buf[..r.value] else []
      ensures Valid(|buf| - if r.Ready? then r.value else 0)
      ensures mode != Off ==>
                var took := if r.Ready? then r.value else 0;
                && took <= old(scheduled.value)
                && scheduled == if took == old(scheduled.value) then None else Some(old(scheduled.value) - took)
      ensures sent != old(sent) && mode != Off ==> (delayPending <==> scheduled.None? && !shutdownRequested)
    {
      var writeLen := if scheduled.Some? then Min(scheduled.value, |buf|) else |buf|;
      r := InnerPollWrite(buf[..writeLen]);
      if r.Ready? {
        assert buf[..writeLen][..r.value] == buf[..r.value];
        if r.value > 0 && mode != Off {
          Advance(r.value);
        }
      }
    }

    /** Flush the transport, once the timer has fired. */
    method PollFlush() returns (r: Poll<()>)
      modifies this`delayPending, this`pos, this`flushed
      ensures old(pos) < pos <= old(pos) + 2 && Explained(script, old(pos), pos, false, r)
      ensures r.Ready? ==> pos == old(pos) + (if old(Armed()) then 2 else 1) && At(script, pos - 1).Go?
      ensures flushed == if r.Ready? then |sent| else old(flushed)
    {
      var elapsed := PollDelay();
      if !elapsed {
        return Pending;
      }
      var a := Ask();
      if a.Go? {
        flushed := |sent|;
        return Ready(());
      }
      return if a.Wait? then Pending else Failed(a.error);
    }

    /** Shut the transport down. */
    method PollEnd() returns (r: Poll<()>)
      modifies this`pos, this`ended
      ensures pos == old(pos) + 1 && Explained(script, old(pos), pos, false, r)
      ensures r.Ready? ==> At(script, old(pos)).Go?
      ensures ended == (old(ended) || r.Ready?)
    {
      var a := Ask();
      if a.Go? {
        ended := true;
        return Ready(());
      }
      return if a.Wait? then Pending else Failed(a.error);
    }

    method ClearDelay()
      modifies this`delayPending, this`shutdownRequested
      ensures !delayPending && shutdownRequested
    {
      delayPending, shutdownRequested := false, true;
    }

    method TakePadTarget() returns (t: Option<nat>)
      modifies this`padTarget
      ensures t == old(padTarget) && padTarget == None
    {
      t, padTarget := padTarget, None;
    }

    /** The buffer now holds `buffered` bytes: the wanted burst is scheduled only if it is met exactly. */
    method PaddingAdded(buffered: nat)
      requires Ledger() && padTarget == None && mode == Paranoid && |sent| == Sum(targets)
      requires scheduled.Some? && 1 <= scheduled.value <= F.MAX_SEGMENT_LENGTH
      modifies this`scheduled, this`targets
      ensures Valid(buffered)
      ensures scheduled == if old(scheduled) == Some(buffered) then Some(buffered) else None
      ensures targets == if scheduled.Some? then old(targets) + [buffered] else old(targets)
    {
      if scheduled == Some(buffered) {
        Plan(buffered);
      } else {
        scheduled := None;
      }
    }
  }
}
