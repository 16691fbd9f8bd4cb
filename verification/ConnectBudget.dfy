/** Deadline arithmetic of the connection attempts, in nanoseconds. */
module ConnectBudget {
  import opened Bytes

  const SECOND: nat := 1_000_000_000
  const CONNECT_ATTEMPT_TIMEOUT: nat := 5 * SECOND
  const FALLBACK_SYSTEM_RESERVE: nat := 5 * SECOND

  /** How long an operation would take if left alone, and whether it then succeeds. */
  datatype Work = Work(takes: nat, succeeds: bool)

  datatype Attempt = Connected(index: nat) | LastFailed | DeadlineElapsed | NoAddresses

  /** How the attempts end, when, and how many addresses were tried. Timers fire on time. */
  datatype Outcome = Outcome(result: Attempt, at: int, tried: nat)

  function Remaining(deadline: int, now: int): nat {
    if now < deadline then deadline - now else 0
  }

  /** The time an attempt may take: capped unless it is the last one. */
  function Allowance(remaining: nat, last: bool): nat {
    if last then remaining else Min(remaining, CONNECT_ATTEMPT_TIMEOUT)
  }

  /** `connect_first_until` from address `i` on. */
  function Attempts(dials: seq<Work>, i: nat, now: int, deadline: int): Outcome
    requires i <= |dials|
    decreases |dials| - i
  {
    if i == |dials| then Outcome(if dials == [] then NoAddresses else LastFailed, now, i)
    else
      var remaining := Remaining(deadline, now);
      if remaining == 0 then Outcome(DeadlineElapsed, now, i)
      else
        var allowed := Allowance(remaining, i + 1 == |dials|);
        if dials[i].takes <= allowed && dials[i].succeeds then Outcome(Connected(i), now + dials[i].takes, i + 1)
        else Attempts(dials, i + 1, now + Min(dials[i].takes, allowed), deadline)
  }

  method ConnectFirstUntil(dials: seq<Work>, start: int, deadline: int) returns (out: Outcome)
    ensures out == Attempts(dials, 0, start, deadline)
  {
    var now := start;
    for i := 0 to |dials|
      invariant Attempts(dials, i, now, deadline) == Attempts(dials, 0, start, deadline)
    {
      var remaining := Remaining(deadline, now);
      if remaining == 0 {
        return Outcome(DeadlineElapsed, now, i);
      }
      var attempt := if i + 1 == |dials| then remaining else Min(remaining, CONNECT_ATTEMPT_TIMEOUT);
      if dials[i].takes <= attempt {
        now := now + dials[i].takes;
        if dials[i].succeeds {
          return Outcome(Connected(i), now, i + 1);
        }
      } else {
        now := now + attempt;
      }
    }
    return Outcome(if |dials| == 0 then NoAddresses else LastFailed, now, |dials|);
  }

  /** The attempts never run past the deadline. */
  lemma {:induction false} AttemptsEndByDeadline(dials: seq<Work>, i: nat, now: int, deadline: int)
    requires i <= |dials| && now <= deadline
    ensures now <= Attempts(dials, i, now, deadline).at <= deadline
    decreases |dials| - i
  {
    if i < |dials| && now < deadline {
      var allowed := Allowance(deadline - now, i + 1 == |dials|);
      AttemptsEndByDeadline(dials, i + 1, now + Min(dials[i].takes, allowed), deadline);
    }
  }

  /** When the turn of address `k` comes if none before it connects: each has its five seconds, as far as the budget goes. */
  function TurnOf(dials: seq<Work>, k: nat, start: int, deadline: int): int
    requires k < |dials|
  {
    if k == 0 then start
    else
      var t := TurnOf(dials, k - 1, start, deadline);
      if t >= deadline then t else Min3(t + dials[k - 1].takes, t + 5 * SECOND, deadline)
  }

  function Min3(a: int, b: int, c: int): int {
    if a <= b && a <= c then a else if b <= c then b else c
  }

  /** Address `k` would connect by the deadline, and within five seconds if it is not the last one. */
  predicate ConnectsInTime(dials: seq<Work>, k: nat, start: int, deadline: int)
    requires k < |dials|
  {
    var t := TurnOf(dials, k, start, deadline);
    && t < deadline && dials[k].succeeds && t + dials[k].takes <= deadline
    && (k + 1 < |dials| ==> dials[k].takes <= 5 * SECOND)
  }

  predicate NoneInTime(dials: seq<Work>, n: nat, start: int, deadline: int)
    requires n <= |dials|
  {
    forall k :: 0 <= k < n ==> !ConnectsInTime(dials, k, start, deadline)
  }

  /** The first address that connects in time wins; the failure tells whether the last address had its turn. */
  predicate Answers(dials: seq<Work>, start: int, deadline: int, out: Outcome) {
    match out.result
    case Connected(k) =>
      && k < |dials| && ConnectsInTime(dials, k, start, deadline) && NoneInTime(dials, k, start, deadline)
      && out.at == TurnOf(dials, k, start, deadline) + dials[k].takes
    case LastFailed =>
      && |dials| > 0 && NoneInTime(dials, |dials|, start, deadline) && TurnOf(dials, |dials| - 1, start, deadline) < deadline
    case DeadlineElapsed =>
      && |dials| > 0 && NoneInTime(dials, |dials|, start, deadline) && TurnOf(dials, |dials| - 1, start, deadline) >= deadline
    case NoAddresses => dials == []
  }

  lemma {:induction false} TurnsPastDeadline(dials: seq<Work>, i: nat, k: nat, start: int, deadline: int)
    requires i <= k < |dials| && TurnOf(dials, i, start, deadline) >= deadline
    ensures TurnOf(dials, k, start, deadline) >= deadline
    decreases k
  {
    if i < k {
      TurnsPastDeadline(dials, i, k - 1, start, deadline);
    }
  }

  lemma {:induction false} AnswersFrom(dials: seq<Work>, i: nat, start: int, deadline: int)
    requires i < |dials| && NoneInTime(dials, i, start, deadline)
    ensures Answers(dials, start, deadline, Attempts(dials, i, TurnOf(dials, i, start, deadline), deadline))
    decreases |dials| - i
  {
    var t := TurnOf(dials, i, start, deadline);
    if t >= deadline {
      forall k | i <= k < |dials|
        ensures TurnOf(dials, k, start, deadline) >= deadline
      {
        TurnsPastDeadline(dials, i, k, start, deadline);
      }
    } else if i + 1 < |dials| && !ConnectsInTime(dials, i, start, deadline) {
      AnswersFrom(dials, i + 1, start, deadline);
    }
  }

  /** Whatever the peers do, the attempts end as the first address to connect in time decides. */
  lemma FirstInTimeWins(dials: seq<Work>, start: int, deadline: int)
    ensures Answers(dials, start, deadline, Attempts(dials, 0, start, deadline))
  {
    if dials != [] {
      AnswersFrom(dials, 0, start, deadline);
    }
  }

  /** Nobody is skipped: either an address connected, or all of them were tried. */
  predicate NobodySkipped(dials: seq<Work>, out: Outcome) {
    match out.result
    case Connected(i) => out.tried == i + 1
    case _ => out.tried == |dials|
  }

  lemma {:induction false} EnoughFrom(dials: seq<Work>, i: nat, now: int, deadline: int)
    requires i <= |dials|
    requires i < |dials| ==> deadline - now > CONNECT_ATTEMPT_TIMEOUT * (|dials| - 1 - i)
    ensures NobodySkipped(dials, Attempts(dials, i, now, deadline))
    decreases |dials| - i
  {
    if i < |dials| {
      var allowed := Allowance(Remaining(deadline, now), i + 1 == |dials|);
      EnoughFrom(dials, i + 1, now + Min(dials[i].takes, allowed), deadline);
    }
  }

  /** Peers that never answer. */
  function Silent(n: nat, takes: nat): seq<Work> {
    seq(n, _ => Work(takes, false))
  }

  lemma {:induction false} TooLittleFrom(n: nat, i: nat, now: int, deadline: int, takes: nat)
    requires i < n && takes >= CONNECT_ATTEMPT_TIMEOUT
    requires deadline - now <= CONNECT_ATTEMPT_TIMEOUT * (n - 1 - i)
    ensures !NobodySkipped(Silent(n, takes), Attempts(Silent(n, takes), i, now, deadline))
    decreases n - i
  {
    var dials := Silent(n, takes);
    var remaining := Remaining(deadline, now);
    if remaining != 0 {
      assert i + 1 < n;
      var allowed := Allowance(remaining, false);
      TooLittleFrom(n, i + 1, now + Min(takes, allowed), deadline, takes);
    }
  }

  /**
   Every one of `n` addresses is sure of an attempt, whatever the peers do, exactly
   when the budget exceeds five seconds for each address but the last.
   */
  lemma BudgetIsExact(n: nat, start: int, deadline: int)
    requires n > 0
    ensures (forall dials: seq<Work> :: |dials| == n ==> NobodySkipped(dials, Attempts(dials, 0, start, deadline)))
            <==> deadline - start > CONNECT_ATTEMPT_TIMEOUT * (n - 1)
  {
    if deadline - start > CONNECT_ATTEMPT_TIMEOUT * (n - 1) {
      forall dials: seq<Work> | |dials| == n
        ensures NobodySkipped(dials, Attempts(dials, 0, start, deadline))
      {
        EnoughFrom(dials, 0, start, deadline);
      }
    } else {
      TooLittleFrom(n, 0, start, deadline, CONNECT_ATTEMPT_TIMEOUT);
      assert |Silent(n, CONNECT_ATTEMPT_TIMEOUT)| == n;
    }
  }

  /** A lookup: how long it takes, and the dials its addresses would need. */
  datatype Lookup = Lookup(work: Work, dials: seq<Work>)

  /** The lookup answers in time and one of its addresses connects by the deadline. */
  predicate Reaches(l: Lookup, now: int, deadline: int) {
    && l.work.succeeds && now < deadline && l.work.takes <= deadline - now
    && Attempts(l.dials, 0, now + l.work.takes, deadline).result.Connected?
  }

  /** What is kept back for the system resolver: five seconds, or half of a shorter budget. */
  function Reserve(start: int, deadline: int): nat {
    Min(FALLBACK_SYSTEM_RESERVE, Remaining(deadline, start) / 2)
  }

  /** `lookup_until`: the time it ends and whether it gave addresses. */
  method LookupUntil(deadline: int, now: int, work: Work) returns (at: int, ok: bool)
    ensures now <= at && (now <= deadline ==> at <= deadline)
    ensures ok <==> now < deadline && work.takes <= deadline - now && work.succeeds
    ensures ok ==> at == now + work.takes
    ensures now >= deadline ==> at == now
  {
    var remaining := Remaining(deadline, now);
    if remaining == 0 {
      return now, false;
    }
    if work.takes <= remaining {
      return now + work.takes, work.succeeds;
    }
    return now + remaining, false;
  }

  /**
   `connect_fallback_with`: DNS over HTTPS first, on a shortened deadline. The system
   resolver, when it is reached, still has the reserve: five seconds or half the budget.
   */
  method ConnectFallback(doh: Option<Lookup>, system: Lookup, start: int, deadline: int)
    returns (connected: bool, systemStart: Option<int>, end: int)
    ensures systemStart.Some? ==> Remaining(deadline, systemStart.value) >= Reserve(start, deadline)
    ensures systemStart.None? <==> doh.Some? && Reaches(doh.value, start, deadline - Reserve(start, deadline))
    ensures connected <==> systemStart.None? || Reaches(system, systemStart.value, deadline)
    ensures start <= end && (start <= deadline ==> end <= deadline)
    ensures start >= deadline ==> !connected && end == start
    ensures doh.None? ==> systemStart == Some(start)
  {
    var dohDeadline := deadline - Reserve(start, deadline);
    var now := start;
    if doh.Some? && dohDeadline > now {
      var ok;
      now, ok := LookupUntil(dohDeadline, now, doh.value.work);
      if ok {
        AttemptsEndByDeadline(doh.value.dials, 0, now, dohDeadline);
        var out := ConnectFirstUntil(doh.value.dials, now, dohDeadline);
        now := out.at;
        if out.result.Connected? {
          return true, None, now;
        }
      }
    }
    systemStart := Some(now);
    var ok;
    end, ok := LookupUntil(deadline, now, system.work);
    connected := false;
    if ok {
      AttemptsEndByDeadline(system.dials, 0, end, deadline);
      var out := ConnectFirstUntil(system.dials, end, deadline);
      connected, end := out.result.Connected?, out.at;
    }
  }
}
