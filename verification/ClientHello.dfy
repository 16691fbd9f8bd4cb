/** The server's judgement of a client hello: mark, epoch-hour MAC window, replay check. */
module ClientHello {
  import opened Bytes
  import opened ReplayFilter

  const REPRESENTATIVE_LENGTH: nat := 32
  const MARK_LENGTH: nat := 16
  const MAC_LENGTH: nat := 16
  const CLIENT_MIN_HANDSHAKE_LENGTH: nat := 64
  const CLIENT_MIN_PAD_LENGTH: nat := 77
  const MAX_HANDSHAKE_LENGTH: nat := 8192
  const SECONDS_PER_HOUR: nat := 3600
  const REPLAY_TTL: nat := 30 * 3600

  /** A keyed hash of 32 bytes, and the digest of the replay filter. */
  datatype Keyed = Keyed(hmac: seq<byte> -> seq<byte>, sip: seq<byte> -> nat)

  ghost predicate WellSized(k: Keyed) {
    forall m :: |k.hmac(m)| == 32
  }

  type Keys = k: Keyed | WellSized(k) ghost witness Keyed(_ => Zeros(32), _ => 0)

  datatype Verdict = Accepted(epoch: seq<byte>) | Replayed | BadHandshake | Again

  // ------------------------------------------------------- epoch hour as text

  function Digits(n: nat): (r: seq<byte>)
    ensures |r| > 0 && forall i :: 0 <= i < |r| ==> 48 <= r[i] <= 57
  {
    if n < 10 then [48 + n] else Digits(n / 10) + [48 + n % 10]
  }

  /** `format!("{}")` of a signed hour. */
  function Decimal(h: int): seq<byte> {
    if h < 0 then [45] + Digits(-h) else Digits(h)
  }

  lemma {:induction false} DigitsInjective(a: nat, b: nat)
    ensures Digits(a) == Digits(b) ==> a == b
    decreases a
  {
    if Digits(a) == Digits(b) {
      var da, db := Digits(a), Digits(b);
      assert da[|da| - 1] == db[|db| - 1];
      assert a % 10 == b % 10;
      if a >= 10 && b >= 10 {
        assert da[..|da| - 1] == Digits(a / 10);
        assert db[..|db| - 1] == Digits(b / 10);
        DigitsInjective(a / 10, b / 10);
      }
    }
  }

  lemma DecimalInjective(a: int, b: int)
    ensures Decimal(a) == Decimal(b) ==> a == b
  {
    if Decimal(a) == Decimal(b) {
      var da, db := Decimal(a), Decimal(b);
      assert da[0] == db[0];
      if a < 0 {
        assert da[1..] == Digits(-a);
      }
      if b < 0 {
        assert db[1..] == Digits(-b);
      }
      if a < 0 && b < 0 {
        DigitsInjective(-a, -b);
      } else if a >= 0 && b >= 0 {
        DigitsInjective(a, b);
      }
    }
  }

  // ------------------------------------------------------------- the judgement

  /** `find_mac_mark` searching only the tail. */
  function FindMark(mark: seq<byte>, buf: seq<byte>): (pos: Option<nat>)
    ensures pos.Some? ==> pos.value + MARK_LENGTH + MAC_LENGTH <= |buf| && buf[pos.value..pos.value + MARK_LENGTH] == mark
  {
    var start := REPRESENTATIVE_LENGTH + CLIENT_MIN_PAD_LENGTH;
    if start > |buf| then None
    else
      var end := Min(|buf|, MAX_HANDSHAKE_LENGTH);
      if end - start < MARK_LENGTH + MAC_LENGTH then None
      else
        var pos := end - (MARK_LENGTH + MAC_LENGTH);
        if mark == buf[pos..pos + MARK_LENGTH] then Some(pos) else None
  }

  function Mark(k: Keys, buf: seq<byte>): seq<byte>
    requires |buf| >= REPRESENTATIVE_LENGTH
  {
    k.hmac(buf[..REPRESENTATIVE_LENGTH])[..MARK_LENGTH]
  }

  function MacFor(k: Keys, signed: seq<byte>, hour: int): seq<byte> {
    k.hmac(signed + Decimal(hour))[..MAC_LENGTH]
  }

  datatype Scan = Scan(history: History, epoch: Option<seq<byte>>, replayed: bool)

  /**
   Try the candidate hours in order; a replay ends the scan, a match records the MAC. The
   clock is read anew for each match: `clock[i]` is what it shows when hour `i` is tried.
   */
  function TryHours(k: Keys, signed: seq<byte>, mac: seq<byte>, hours: seq<int>, clock: seq<int>, cap: nat, s: Scan): Scan
    requires |clock| == |hours|
    decreases |hours|
  {
    if hours == [] || s.replayed then s
    else if MacFor(k, signed, hours[0]) != mac then TryHours(k, signed, mac, hours[1..], clock[1..], cap, s)
    else
      var h := RecordIf(s.history, REPLAY_TTL, cap, clock[0], k.sip(mac));
      if Seen(s.history.entries, REPLAY_TTL, cap, Clamp(s.history.latest, clock[0]), k.sip(mac)) then Scan(h, s.epoch, true)
      else TryHours(k, signed, mac, hours[1..], clock[1..], cap, Scan(h, Some(Decimal(hours[0])), false))
  }

  function Window(hour: int): (hours: seq<int>)
    ensures |hours| == 3
  {
    [hour, hour - 1, hour + 1]
  }

  /** What the clock shows as each of the three hours is tried. */
  datatype Clock = Clock(first: int, second: int, third: int)

  function Readings(c: Clock): (r: seq<int>)
    ensures |r| == 3
  {
    [c.first, c.second, c.third]
  }

  datatype Judged = Judged(verdict: Verdict, history: History)

  /** `try_parse_client_handshake_at` on values. */
  function Judge(k: Keys, cap: nat, h: History, buf: seq<byte>, hour: int, clock: Clock): Judged {
    if CLIENT_MIN_HANDSHAKE_LENGTH > |buf| then Judged(Again, h)
    else
      var pos := FindMark(Mark(k, buf), buf);
      if pos.None? then Judged(if |buf| > MAX_HANDSHAKE_LENGTH then BadHandshake else Again, h)
      else
        var split := pos.value + MARK_LENGTH;
        var s := TryHours(k, buf[..split], buf[split..split + MAC_LENGTH], Window(hour), Readings(clock), cap, Scan(h, None, false));
        if s.replayed then Judged(Replayed, s.history)
        else if s.epoch.None? || |buf| != split + MAC_LENGTH then Judged(BadHandshake, s.history)
        else Judged(Accepted(s.epoch.value), s.history)
  }

  class HelloServer {
    const keys: Keys
    const filter: InnerReplayFilter

    constructor (keys: Keys)
      ensures this.keys == keys && fresh(filter) && filter.Valid() && filter.history == History([], None)
      ensures filter.hash == keys.sip && filter.ttl == REPLAY_TTL && filter.cap == MAX_FILTER_SIZE
    {
      this.keys := keys;
      filter := new InnerReplayFilter(keys.sip, REPLAY_TTL, MAX_FILTER_SIZE);
    }

    /** All three hours are tried even after a match; only a replay ends the loop early. */
    method ScanHours(signed: seq<byte>, mac: seq<byte>, hour: int, clock: Clock) returns (epoch: Option<seq<byte>>, replayed: bool)
      requires filter.Valid() && filter.hash == keys.sip && filter.ttl == REPLAY_TTL
      modifies filter
      ensures filter.Valid()
      ensures Scan(filter.history, epoch, replayed)
           == TryHours(keys, signed, mac, Window(hour), Readings(clock), filter.cap, Scan(old(filter.history), None, false))
    {
      epoch, replayed := None, false;
      var hours, readings := Window(hour), Readings(clock);
      for i := 0 to 3
        invariant filter.Valid()
        invariant TryHours(keys, signed, mac, hours[i..], readings[i..], filter.cap, Scan(filter.history, epoch, false))
               == TryHours(keys, signed, mac, hours, readings, filter.cap, Scan(old(filter.history), None, false))
      {
        assert hours[i..][0] == hours[i] && hours[i..][1..] == hours[i + 1..];
        assert readings[i..][0] == readings[i] && readings[i..][1..] == readings[i + 1..];
        var eh := Decimal(hours[i]);
        if keys.hmac(signed + eh)[..MAC_LENGTH] == mac {
          var replay := filter.TestAndSet(readings[i], mac);
          if replay {
            return epoch, true;
          }
          epoch := Some(eh);
        }
      }
    }

    method TryParseAt(buf: seq<byte>, hour: int, clock: Clock) returns (v: Verdict)
      requires filter.Valid() && filter.hash == keys.sip && filter.ttl == REPLAY_TTL
      modifies filter
      ensures filter.Valid()
      ensures Judged(v, filter.history) == Judge(keys, filter.cap, old(filter.history), buf, hour, clock)
    {
      if CLIENT_MIN_HANDSHAKE_LENGTH > |buf| {
        return Again;
      }
      var mark := keys.hmac(buf[..REPRESENTATIVE_LENGTH])[..MARK_LENGTH];
      assert mark == Mark(keys, buf);
      var pos := FindMark(mark, buf);
      if pos.None? {
        return if |buf| > MAX_HANDSHAKE_LENGTH then BadHandshake else Again;
      }
      var split := pos.value + MARK_LENGTH;
      var epoch, replayed := ScanHours(buf[..split], buf[split..split + MAC_LENGTH], hour, clock);
      if replayed {
        return Replayed;
      }
      if epoch.None? {
        return BadHandshake;
      }
      if |buf| != split + MAC_LENGTH {
        return BadHandshake;
      }
      return Accepted(epoch.value);
    }
  }

  // -------------------------------------------------- hellos that are not complete

  /** The bytes up to `end` close with the mark of the hello and room for a MAC, after the least padding. */
  predicate ClosesWithMark(k: Keys, buf: seq<byte>, end: nat)
    requires REPRESENTATIVE_LENGTH <= |buf| && end <= |buf|
  {
    && end >= REPRESENTATIVE_LENGTH + CLIENT_MIN_PAD_LENGTH + MARK_LENGTH + MAC_LENGTH
    && buf[end - 32..end - 16] == k.hmac(buf[..32])[..16]
  }

  /** The mark is found exactly where it closes the buffer, or the longest hello. */
  lemma MarkIsFound(k: Keys, buf: seq<byte>)
    requires |buf| >= REPRESENTATIVE_LENGTH
    ensures var end := Min(|buf|, MAX_HANDSHAKE_LENGTH);
            FindMark(Mark(k, buf), buf) == if ClosesWithMark(k, buf, end) then Some(end - 32) else None
  {
  }

  /** A hello still arriving, too short or not yet closed by its mark, is waited for, and nothing is recorded. */
  lemma StillArriving(k: Keys, cap: nat, h: History, buf: seq<byte>, hour: int, clock: Clock)
    requires |buf| < CLIENT_MIN_HANDSHAKE_LENGTH || (|buf| <= MAX_HANDSHAKE_LENGTH && !ClosesWithMark(k, buf, |buf|))
    ensures Judge(k, cap, h, buf, hour, clock) == Judged(Again, h)
  {
    if |buf| >= REPRESENTATIVE_LENGTH {
      MarkIsFound(k, buf);
    }
  }

  /** What is longer than the longest hello is never waited for and never accepted; without the mark nothing is recorded. */
  lemma OversizedIsRefused(k: Keys, cap: nat, h: History, buf: seq<byte>, hour: int, clock: Clock)
    requires |buf| > MAX_HANDSHAKE_LENGTH
    ensures Judge(k, cap, h, buf, hour, clock).verdict in {BadHandshake, Replayed}
    ensures !ClosesWithMark(k, buf, MAX_HANDSHAKE_LENGTH) ==> Judge(k, cap, h, buf, hour, clock) == Judged(BadHandshake, h)
  {
    MarkIsFound(k, buf);
  }

  /** The MAC is that of none of the hours before, at and after `hour`. */
  predicate MadeForNone(k: Keys, signed: seq<byte>, mac: seq<byte>, hour: int) {
    MacFor(k, signed, hour - 1) != mac && MacFor(k, signed, hour) != mac && MacFor(k, signed, hour + 1) != mac
  }

  /** A complete hello whose MAC was made for none of the three hours is refused, and nothing is recorded. */
  lemma WrongMacIsRefused(k: Keys, cap: nat, h: History, buf: seq<byte>, hour: int, clock: Clock)
    requires |buf| >= CLIENT_MIN_HANDSHAKE_LENGTH
    requires FindMark(Mark(k, buf), buf) == Some(|buf| - MARK_LENGTH - MAC_LENGTH)
    requires MadeForNone(k, Signed(buf), MacOf(buf), hour)
    ensures Judge(k, cap, h, buf, hour, clock) == Judged(BadHandshake, h)
  {
    WindowMisses(k, Signed(buf), MacOf(buf), hour, clock, cap, Scan(h, None, false));
    JudgeCompleteHello(k, cap, h, buf, hour, clock);
  }

  lemma WindowMisses(k: Keys, signed: seq<byte>, mac: seq<byte>, hour: int, clock: Clock, cap: nat, s: Scan)
    requires MadeForNone(k, signed, mac, hour)
    ensures TryHours(k, signed, mac, Window(hour), Readings(clock), cap, s) == s
  {
    NoHourMatches(k, signed, mac, Window(hour), Readings(clock), cap, s);
  }

  lemma {:induction false} NoHourMatches(k: Keys, signed: seq<byte>, mac: seq<byte>, hours: seq<int>, clock: seq<int>, cap: nat, s: Scan)
    requires |clock| == |hours| && forall i :: 0 <= i < |hours| ==> MacFor(k, signed, hours[i]) != mac
    ensures TryHours(k, signed, mac, hours, clock, cap, s) == s
    decreases |hours|
  {
    if hours != [] && !s.replayed {
      NoHourMatches(k, signed, mac, hours[1..], clock[1..], cap, s);
    }
  }

  // ------------------------------------------------------- the slack window

  const HOUR_LIMIT: nat := 0x7FFF_FFFF_FFFF_FFFF

  predicate PlausibleHour(h: int) { -1 <= h <= HOUR_LIMIT }

  /** The truncated MACs of one hello under different hour texts do not collide. */
  ghost predicate MacSeparates(k: Keys, signed: seq<byte>) {
    forall a, b :: PlausibleHour(a) && PlausibleHour(b) && MacFor(k, signed, a) == MacFor(k, signed, b) ==> Decimal(a) == Decimal(b)
  }

  /** A complete hello whose MAC was computed for hour `epoch`. */
  ghost predicate HelloFor(k: Keys, buf: seq<byte>, epoch: int) {
    && |buf| >= CLIENT_MIN_HANDSHAKE_LENGTH && PlausibleHour(epoch)
    && FindMark(Mark(k, buf), buf) == Some(|buf| - MARK_LENGTH - MAC_LENGTH)
    && MacSeparates(k, Signed(buf))
    && MacFor(k, Signed(buf), epoch) == MacOf(buf)
  }

  function Signed(buf: seq<byte>): seq<byte>
    requires |buf| >= MAC_LENGTH
  {
    buf[..|buf| - MAC_LENGTH]
  }

  function MacOf(buf: seq<byte>): seq<byte>
    requires |buf| >= MAC_LENGTH
  {
    buf[|buf| - MAC_LENGTH..]
  }

  /** With at most one matching hour, the scan meets exactly that one, at the time shown then. */
  lemma {:induction false} ScanMeetsEpoch(k: Keys, signed: seq<byte>, mac: seq<byte>, hours: seq<int>, clock: seq<int>, epoch: int,
                                          cap: nat, s: Scan, at: nat)
    requires |clock| == |hours| && (forall i :: 0 <= i < |hours| ==> (MacFor(k, signed, hours[i]) == mac <==> hours[i] == epoch))
    requires forall i, j :: 0 <= i < j < |hours| ==> hours[i] != hours[j]
    requires !s.replayed && (at < |hours| ==> hours[at] == epoch) && (at >= |hours| ==> epoch !in hours)
    ensures TryHours(k, signed, mac, hours, clock, cap, s) ==
            if at >= |hours| then s
            else
              var h := RecordIf(s.history, REPLAY_TTL, cap, clock[at], k.sip(mac));
              if Seen(s.history.entries, REPLAY_TTL, cap, Clamp(s.history.latest, clock[at]), k.sip(mac)) then Scan(h, s.epoch, true)
              else Scan(h, Some(Decimal(epoch)), false)
    decreases |hours|
  {
    if hours != [] {
      var rest := hours[1..];
      if hours[0] == epoch {
        assert at == 0 && epoch !in rest;
        ScanMeetsEpoch(k, signed, mac, rest, clock[1..], epoch, cap,
                       Scan(RecordIf(s.history, REPLAY_TTL, cap, clock[0], k.sip(mac)), Some(Decimal(epoch)), false), |rest|);
      } else {
        assert at >= |hours| ==> epoch !in rest;
        ScanMeetsEpoch(k, signed, mac, rest, clock[1..], epoch, cap, s, at - 1);
      }
    }
  }

  /** What the clock shows when the hour `epoch` of the window is tried. */
  function TriedAt(hour: int, epoch: int, clock: Clock): int {
    if epoch == hour then clock.first else if epoch == hour - 1 then clock.second else clock.third
  }

  /**
   A hello made for hour `epoch` passes the MAC check exactly when the server's hour is
   within one of it, and is then accepted exactly when its MAC was not seen before.
   */
  lemma EpochWindow(k: Keys, cap: nat, h: History, buf: seq<byte>, epoch: int, hour: int, clock: Clock)
    requires HelloFor(k, buf, epoch) && 0 <= hour < HOUR_LIMIT
    ensures var j := Judge(k, cap, h, buf, hour, clock);
            var now := TriedAt(hour, epoch, clock);
            var seen := Seen(h.entries, REPLAY_TTL, cap, Clamp(h.latest, now), k.sip(MacOf(buf)));
            j == if !(-1 <= hour - epoch <= 1) then Judged(BadHandshake, h)
                 else Judged(if seen then Replayed else Accepted(Decimal(epoch)),
                             RecordIf(h, REPLAY_TTL, cap, now, k.sip(MacOf(buf))))
  {
    var signed, mac := Signed(buf), MacOf(buf);
    var at := if epoch == hour then 0 else if epoch == hour - 1 then 1 else if epoch == hour + 1 then 2 else 3;
    OnlyEpochMatches(k, signed, mac, hour, epoch);
    ScanMeetsEpoch(k, signed, mac, Window(hour), Readings(clock), epoch, cap, Scan(h, None, false), at);
    JudgeCompleteHello(k, cap, h, buf, hour, clock);
  }

  lemma OnlyEpochMatches(k: Keys, signed: seq<byte>, mac: seq<byte>, hour: int, epoch: int)
    requires MacSeparates(k, signed) && MacFor(k, signed, epoch) == mac && PlausibleHour(epoch) && 0 <= hour < HOUR_LIMIT
    ensures forall i :: 0 <= i < 3 ==> (MacFor(k, signed, Window(hour)[i]) == mac <==> Window(hour)[i] == epoch)
  {
    var hours := Window(hour);
    assert hours[0] == hour && hours[1] == hour - 1 && hours[2] == hour + 1;
    forall i | 0 <= i < 3
      ensures MacFor(k, signed, hours[i]) == mac <==> hours[i] == epoch
    {
      DecimalInjective(hours[i], epoch);
    }
  }

  /** With the mark right before the final MAC, the verdict is that of the scan. */
  lemma JudgeCompleteHello(k: Keys, cap: nat, h: History, buf: seq<byte>, hour: int, clock: Clock)
    requires |buf| >= CLIENT_MIN_HANDSHAKE_LENGTH
    requires FindMark(Mark(k, buf), buf) == Some(|buf| - MARK_LENGTH - MAC_LENGTH)
    ensures var s := TryHours(k, Signed(buf), MacOf(buf), Window(hour), Readings(clock), cap, Scan(h, None, false));
            Judge(k, cap, h, buf, hour, clock) ==
            if s.replayed then Judged(Replayed, s.history)
            else if s.epoch.None? then Judged(BadHandshake, s.history)
            else Judged(Accepted(s.epoch.value), s.history)
  {
    var split := |buf| - MAC_LENGTH;
    assert buf[split..split + MAC_LENGTH] == MacOf(buf);
  }

  /** A scan ends with an hour only if that hour's MAC matched. */
  lemma {:induction false} ScanFindsMatch(k: Keys, signed: seq<byte>, mac: seq<byte>, hours: seq<int>, clock: seq<int>, cap: nat, s: Scan)
    requires |clock| == |hours|
    ensures TryHours(k, signed, mac, hours, clock, cap, s).epoch != s.epoch ==>
              exists i :: 0 <= i < |hours| && MacFor(k, signed, hours[i]) == mac
    decreases |hours|
  {
    if hours != [] && !s.replayed && MacFor(k, signed, hours[0]) != mac {
      ScanFindsMatch(k, signed, mac, hours[1..], clock[1..], cap, s);
      if i :| 0 <= i < |hours[1..]| && MacFor(k, signed, hours[1..][i]) == mac {
        assert hours[1..][i] == hours[i + 1];
      }
    }
  }

  /** Whatever is accepted is a complete hello made for some hour. */
  lemma AcceptedIsHello(k: Keys, cap: nat, h: History, buf: seq<byte>, hour: int, clock: Clock) returns (epoch: int)
    requires 0 <= hour < HOUR_LIMIT && Judge(k, cap, h, buf, hour, clock).verdict.Accepted?
    ensures |buf| >= CLIENT_MIN_HANDSHAKE_LENGTH
    ensures MacSeparates(k, Signed(buf)) ==> HelloFor(k, buf, epoch)
  {
    JudgeCompleteHello(k, cap, h, buf, hour, clock);
    ScanFindsMatch(k, Signed(buf), MacOf(buf), Window(hour), Readings(clock), cap, Scan(h, None, false));
    var i :| 0 <= i < 3 && MacFor(k, Signed(buf), Window(hour)[i]) == MacOf(buf);
    epoch := Window(hour)[i];
  }

  // ------------------------------------------------------- accepted at most once

  /** A hello: when the server read the epoch hour for it, in monotonic seconds, and its clock readings after that. */
  datatype Arrival = Arrival(buf: seq<byte>, read: nat, clock: Clock)

  /** The wall clock runs a fixed `skew` ahead of the monotonic one. */
  function HourAt(skew: nat, now: nat): nat {
    (now + skew) / SECONDS_PER_HOUR
  }

  function JudgeArrival(k: Keys, cap: nat, skew: nat, h: History, a: Arrival): Judged {
    Judge(k, cap, h, a.buf, HourAt(skew, a.read), a.clock)
  }

  /** The filter's history after a sequence of arrivals, in the order in which they reached the filter. */
  function HistoryAfter(k: Keys, cap: nat, skew: nat, arrivals: seq<Arrival>): History {
    if arrivals == [] then History([], None)
    else
      var n := |arrivals| - 1;
      JudgeArrival(k, cap, skew, HistoryAfter(k, cap, skew, arrivals[..n]), arrivals[n]).history
  }

  /** What the window leaves of a record's lifetime: how far ahead of a hello others may have moved the filter's time. */
  const SLACK: nat := REPLAY_TTL - 3 * SECONDS_PER_HOUR

  predicate NotAfter(c: Clock, t: int) { c.first <= t && c.second <= t && c.third <= t }

  predicate NotBefore(c: Clock, t: int) { t <= c.first && t <= c.second && t <= c.third }

  predicate LatestBy(h: History, t: int) { h.latest.Some? ==> h.latest.value <= t }

  /** `newer` has the entries of `older`, and more in front. */
  predicate Grown(newer: History, older: History) {
    && |older.entries| <= |newer.entries|
    && newer.entries[|newer.entries| - |older.entries|..] == older.entries
  }

  lemma GrownTrans(a: History, b: History, c: History)
    requires Grown(a, b) && Grown(b, c)
    ensures Grown(a, c)
  {
    var n := |a.entries| - |b.entries|;
    assert a.entries[n..][|b.entries| - |c.entries|..] == a.entries[|a.entries| - |c.entries|..];
  }

  lemma RecordGrows(h: History, cap: nat, now: int, digest: nat, t: int)
    ensures var r := RecordIf(h, REPLAY_TTL, cap, now, digest);
            Grown(r, h) && (LatestBy(h, t) && now <= t ==> LatestBy(r, t))
  {
    assert h.entries[0..] == h.entries;
  }

  lemma {:induction false} ScanGrows(k: Keys, signed: seq<byte>, mac: seq<byte>, hours: seq<int>, clock: seq<int>, cap: nat, s: Scan, t: int)
    requires |clock| == |hours|
    ensures var r := TryHours(k, signed, mac, hours, clock, cap, s).history;
            && Grown(r, s.history)
            && (LatestBy(s.history, t) && (forall i :: 0 <= i < |clock| ==> clock[i] <= t) ==> LatestBy(r, t))
    decreases |hours|
  {
    if hours == [] || s.replayed {
      assert s.history.entries[0..] == s.history.entries;
    } else if MacFor(k, signed, hours[0]) != mac {
      ScanGrows(k, signed, mac, hours[1..], clock[1..], cap, s, t);
    } else {
      var h := RecordIf(s.history, REPLAY_TTL, cap, clock[0], k.sip(mac));
      RecordGrows(s.history, cap, clock[0], k.sip(mac), t);
      if !Seen(s.history.entries, REPLAY_TTL, cap, Clamp(s.history.latest, clock[0]), k.sip(mac)) {
        var s' := Scan(h, Some(Decimal(hours[0])), false);
        ScanGrows(k, signed, mac, hours[1..], clock[1..], cap, s', t);
        GrownTrans(TryHours(k, signed, mac, hours[1..], clock[1..], cap, s').history, h, s.history);
      }
    }
  }

  lemma JudgeGrows(k: Keys, cap: nat, skew: nat, h: History, a: Arrival, t: int)
    ensures var r := JudgeArrival(k, cap, skew, h, a).history;
            Grown(r, h) && (LatestBy(h, t) && NotAfter(a.clock, t) ==> LatestBy(r, t))
  {
    assert h.entries[0..] == h.entries;
    if |a.buf| >= CLIENT_MIN_HANDSHAKE_LENGTH {
      var pos := FindMark(Mark(k, a.buf), a.buf);
      if pos.Some? {
        var split := pos.value + MARK_LENGTH;
        ScanGrows(k, a.buf[..split], a.buf[split..split + MAC_LENGTH], Window(HourAt(skew, a.read)), Readings(a.clock), cap,
                  Scan(h, None, false), t);
      }
    }
  }

  lemma HistorySnoc(k: Keys, cap: nat, skew: nat, arrivals: seq<Arrival>, i: nat)
    requires i < |arrivals|
    ensures HistoryAfter(k, cap, skew, arrivals[..i + 1])
         == JudgeArrival(k, cap, skew, HistoryAfter(k, cap, skew, arrivals[..i]), arrivals[i]).history
  {
    assert arrivals[..i + 1][..i] == arrivals[..i];
  }

  /** Over any run, in any clock order, the history only grows. */
  lemma {:induction false} HistoryGrows(k: Keys, cap: nat, skew: nat, arrivals: seq<Arrival>, i: nat, j: nat)
    requires i <= j <= |arrivals|
    ensures Grown(HistoryAfter(k, cap, skew, arrivals[..j]), HistoryAfter(k, cap, skew, arrivals[..i]))
    decreases j
  {
    var older := HistoryAfter(k, cap, skew, arrivals[..i]);
    if i == j {
      assert older.entries[0..] == older.entries;
    } else {
      HistoryGrows(k, cap, skew, arrivals, i, j - 1);
      HistorySnoc(k, cap, skew, arrivals, j - 1);
      var mid := HistoryAfter(k, cap, skew, arrivals[..j - 1]);
      JudgeGrows(k, cap, skew, mid, arrivals[j - 1], 0);
      GrownTrans(HistoryAfter(k, cap, skew, arrivals[..j]), mid, older);
    }
  }

  /** The filter's time is never later than the latest reading it was given. */
  lemma {:induction false} LatestIsAReading(k: Keys, cap: nat, skew: nat, arrivals: seq<Arrival>, j: nat, t: int)
    requires j <= |arrivals| && forall i :: 0 <= i < j ==> NotAfter(arrivals[i].clock, t)
    ensures LatestBy(HistoryAfter(k, cap, skew, arrivals[..j]), t)
  {
    if j > 0 {
      LatestIsAReading(k, cap, skew, arrivals, j - 1, t);
      HistorySnoc(k, cap, skew, arrivals, j - 1);
      JudgeGrows(k, cap, skew, HistoryAfter(k, cap, skew, arrivals[..j - 1]), arrivals[j - 1], t);
    }
  }

  function VerdictAt(k: Keys, cap: nat, skew: nat, arrivals: seq<Arrival>, i: nat): Verdict
    requires i < |arrivals|
  {
    JudgeArrival(k, cap, skew, HistoryAfter(k, cap, skew, arrivals[..i]), arrivals[i]).verdict
  }

  /** How many hellos are recorded after arrival `i` and before arrival `j`. */
  function RecordedBetween(k: Keys, cap: nat, skew: nat, arrivals: seq<Arrival>, i: nat, j: nat): int
    requires i < j < |arrivals|
  {
    |HistoryAfter(k, cap, skew, arrivals[..j]).entries| - |HistoryAfter(k, cap, skew, arrivals[..i + 1]).entries|
  }

  /** The newest record is of this hello, made no earlier than `read`. */
  ghost predicate NewestIs(k: Keys, h: History, buf: seq<byte>, read: nat)
    requires |buf| >= MAC_LENGTH
  {
    h.entries != [] && h.entries[0].digest == k.sip(MacOf(buf)) && h.entries[0].firstSeen >= read
  }

  lemma AcceptedBecomesNewest(k: Keys, cap: nat, h: History, buf: seq<byte>, epoch: int, hour: int, clock: Clock, read: nat)
    requires HelloFor(k, buf, epoch) && 0 <= hour < HOUR_LIMIT && cap > 0 && NotBefore(clock, read)
    requires Judge(k, cap, h, buf, hour, clock).verdict.Accepted?
    ensures -1 <= hour - epoch <= 1 && NewestIs(k, Judge(k, cap, h, buf, hour, clock).history, buf, read)
  {
    EpochWindow(k, cap, h, buf, epoch, hour, clock);
  }

  /** A recorded hello is not accepted again while the filter's time is within the slack of the server's. */
  lemma SecondPresentation(k: Keys, cap: nat, h: History, buf: seq<byte>, epoch: int, skew: nat, first: nat, second: nat, clock: Clock, at: nat)
    requires HelloFor(k, buf, epoch) && HourAt(skew, second) < HOUR_LIMIT
    requires -1 <= HourAt(skew, first) - epoch <= 1
    requires at < |h.entries| && at < cap && h.entries[at].digest == k.sip(MacOf(buf)) && h.entries[at].firstSeen >= first
    requires LatestBy(h, second + SLACK) && NotAfter(clock, second + SLACK)
    ensures Judge(k, cap, h, buf, HourAt(skew, second), clock).verdict in {Replayed, BadHandshake}
  {
    var hour := HourAt(skew, second);
    EpochWindow(k, cap, h, buf, epoch, hour, clock);
    if -1 <= hour - epoch <= 1 {
      WindowSpan(skew, first, second, epoch);
      assert !Expired(REPLAY_TTL, Clamp(h.latest, TriedAt(hour, epoch, clock)), h.entries[at]);
    }
  }

  /** Two times whose hours are within one of the same hour are less than three hours apart. */
  lemma WindowSpan(skew: nat, a: nat, b: nat, epoch: int)
    requires -1 <= HourAt(skew, a) - epoch <= 1 && -1 <= HourAt(skew, b) - epoch <= 1
    ensures b - a < 3 * SECONDS_PER_HOUR
  {
  }

  /** Each hello's readings come after its hour was read, and none runs more than the slack ahead of arrival `j`. */
  predicate Timely(arrivals: seq<Arrival>, j: nat)
    requires j < |arrivals|
  {
    forall i :: 0 <= i <= j ==> NotBefore(arrivals[i].clock, arrivals[i].read) && NotAfter(arrivals[i].clock, arrivals[j].read + SLACK)
  }

  /**
   A hello is accepted at most once: an accepted hello presented again is rejected, as long as
   fewer than `cap` hellos are recorded in between and no reading of the clock that has reached
   the filter is more than the slack of 27 hours ahead. The readings may reach the filter in any
   order. The three hours during which a MAC verifies and the slack together are the lifetime of a record.
   */
  lemma AcceptedAtMostOnce(k: Keys, cap: nat, skew: nat, arrivals: seq<Arrival>, i: nat, j: nat)
    requires i < j < |arrivals| && Timely(arrivals, j)
    requires arrivals[i].buf == arrivals[j].buf && |arrivals[i].buf| >= MAC_LENGTH
    ensures MacSeparates(k, Signed(arrivals[i].buf))
            && HourAt(skew, arrivals[i].read) < HOUR_LIMIT && HourAt(skew, arrivals[j].read) < HOUR_LIMIT
            && VerdictAt(k, cap, skew, arrivals, i).Accepted?
            && RecordedBetween(k, cap, skew, arrivals, i, j) < cap ==>
              VerdictAt(k, cap, skew, arrivals, j) in {Replayed, BadHandshake}
  {
    if MacSeparates(k, Signed(arrivals[i].buf))
       && HourAt(skew, arrivals[i].read) < HOUR_LIMIT && HourAt(skew, arrivals[j].read) < HOUR_LIMIT
       && VerdictAt(k, cap, skew, arrivals, i).Accepted? && RecordedBetween(k, cap, skew, arrivals, i, j) < cap {
      HistoryGrows(k, cap, skew, arrivals, i + 1, j);
      var epoch := AcceptanceIsRecorded(k, cap, skew, arrivals, i);
      var older, newer := HistoryAfter(k, cap, skew, arrivals[..i + 1]), HistoryAfter(k, cap, skew, arrivals[..j]);
      var at := |newer.entries| - |older.entries|;
      assert newer.entries[at] == newer.entries[at..][0];
      LatestIsAReading(k, cap, skew, arrivals, j, arrivals[j].read + SLACK);
      SecondPresentation(k, cap, newer, arrivals[i].buf, epoch, skew, arrivals[i].read, arrivals[j].read, arrivals[j].clock, at);
    }
  }

  /** An accepted hello is the newest record, made within its hour window. */
  lemma AcceptanceIsRecorded(k: Keys, cap: nat, skew: nat, arrivals: seq<Arrival>, i: nat) returns (epoch: int)
    requires i < |arrivals| && cap > 0 && NotBefore(arrivals[i].clock, arrivals[i].read)
    requires HourAt(skew, arrivals[i].read) < HOUR_LIMIT && VerdictAt(k, cap, skew, arrivals, i).Accepted?
    ensures |arrivals[i].buf| >= CLIENT_MIN_HANDSHAKE_LENGTH
    ensures MacSeparates(k, Signed(arrivals[i].buf)) ==>
              && HelloFor(k, arrivals[i].buf, epoch) && -1 <= HourAt(skew, arrivals[i].read) - epoch <= 1
              && NewestIs(k, HistoryAfter(k, cap, skew, arrivals[..i + 1]), arrivals[i].buf, arrivals[i].read)
  {
    var a, h := arrivals[i], HistoryAfter(k, cap, skew, arrivals[..i]);
    epoch := AcceptedIsHello(k, cap, h, a.buf, HourAt(skew, a.read), a.clock);
    HistorySnoc(k, cap, skew, arrivals, i);
    if MacSeparates(k, Signed(a.buf)) {
      AcceptedBecomesNewest(k, cap, h, a.buf, epoch, HourAt(skew, a.read), a.clock, a.read);
    }
  }
}
