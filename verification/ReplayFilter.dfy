/** The replay filter: a set and a queue that together answer as the full history of recorded digests would. */
module ReplayFilter {
  import opened Bytes

  const MAX_FILTER_SIZE: nat := 100 * 1024

  datatype Entry = Entry(digest: nat, firstSeen: int)

  /** Recorded digests, newest first, and the latest time seen. Nothing is ever forgotten here. */
  datatype History = History(entries: seq<Entry>, latest: Option<int>)

  /** Callers with a stale clock reading are treated as arriving at the latest time seen. */
  function Clamp(latest: Option<int>, now: int): int {
    if latest.Some? && now < latest.value then latest.value else now
  }

  predicate Expired(ttl: nat, now: int, e: Entry) {
    ttl == 0 || now - e.firstSeen >= ttl
  }

  /** The digest was recorded less than `ttl` ago and fewer than `cap` digests have been recorded since. */
  predicate Seen(entries: seq<Entry>, ttl: nat, cap: nat, now: int, digest: nat) {
    exists i :: 0 <= i < |entries| && i < cap && entries[i].digest == digest && now - entries[i].firstSeen < ttl
  }

  function RecordIf(h: History, ttl: nat, cap: nat, now: int, digest: nat): History {
    var t := Clamp(h.latest, now);
    if Seen(h.entries, ttl, cap, t, digest) || cap == 0 then h.(latest := Some(t))
    else History([Entry(digest, t)] + h.entries, Some(t))
  }

  /** Times never increase from newer to older entries. */
  predicate Sorted(entries: seq<Entry>) {
    forall i, j :: 0 <= i < j < |entries| ==> entries[i].firstSeen >= entries[j].firstSeen
  }

  predicate TimesBounded(entries: seq<Entry>, latest: Option<int>) {
    entries != [] ==> latest.Some? && entries[0].firstSeen <= latest.value
  }

  /**
   The queue is the newest part of the history; what it no longer holds is expired
   at `now` or has at least `cap` newer entries.
   */
  predicate Represents(fifo: seq<Entry>, entries: seq<Entry>, ttl: nat, cap: nat, now: int) {
    && fifo <= entries
    && forall i :: |fifo| <= i < |entries| ==> i >= cap || Expired(ttl, now, entries[i])
  }

  predicate DistinctDigests(fifo: seq<Entry>) {
    forall i, j :: 0 <= i < j < |fifo| ==> fifo[i].digest != fifo[j].digest
  }

  /** Dropping the oldest entry is allowed once it is expired or the capacity is needed. */
  lemma DropOldest(fifo: seq<Entry>, entries: seq<Entry>, ttl: nat, cap: nat, now: int)
    requires Represents(fifo, entries, ttl, cap, now) && fifo != []
    requires Expired(ttl, now, fifo[|fifo| - 1]) || |fifo| > cap
    ensures Represents(fifo[..|fifo| - 1], entries, ttl, cap, now)
  {
    var n := |fifo| - 1;
    assert entries[n] == fifo[n];
  }

  /** A queue of unexpired entries within capacity holds exactly the digests the history calls seen. */
  lemma MembershipIsSeen(fifo: seq<Entry>, entries: seq<Entry>, ttl: nat, cap: nat, now: int, digest: nat)
    requires Represents(fifo, entries, ttl, cap, now) && |fifo| <= cap
    requires (forall e :: e in fifo ==> !Expired(ttl, now, e)) && (forall e :: e in entries ==> e.firstSeen <= now)
    ensures (exists e :: e in fifo && e.digest == digest) <==> Seen(entries, ttl, cap, now, digest)
  {
    if e :| e in fifo && e.digest == digest {
      var i :| 0 <= i < |fifo| && fifo[i] == e;
      assert entries[i] == e;
    }
    if Seen(entries, ttl, cap, now, digest) {
      var i :| 0 <= i < |entries| && i < cap && entries[i].digest == digest && now - entries[i].firstSeen < ttl;
      assert entries[i] in entries && !Expired(ttl, now, entries[i]);
      assert fifo[i] == entries[i];
    }
  }

  lemma NoneInTheFuture(entries: seq<Entry>, now: int)
    requires Sorted(entries) && TimesBounded(entries, Some(now))
    ensures forall e :: e in entries ==> e.firstSeen <= now
  {
    forall e | e in entries
      ensures e.firstSeen <= now
    {
      var i :| 0 <= i < |entries| && entries[i] == e;
      assert entries[0].firstSeen >= entries[i].firstSeen;
    }
  }

  /** A reading that comes late never turns the filter's time back, and one that does not is taken as it is. */
  lemma TimeAdvances(h: History, ttl: nat, cap: nat, now: int, digest: nat)
    ensures var t := RecordIf(h, ttl, cap, now, digest).latest;
            t.Some? && now <= t.value && (h.latest.Some? ==> h.latest.value <= t.value) && (t == Some(now) || t == h.latest)
  {
  }

  /** A digest that is recorded is seen again for exactly the lifetime that follows, as long as nothing else is recorded. */
  lemma SeenForItsLifetime(h: History, ttl: nat, cap: nat, now: int, digest: nat, later: int)
    requires cap > 0 && Clamp(h.latest, now) <= later && !Seen(h.entries, ttl, cap, Clamp(h.latest, now), digest)
    ensures Seen(RecordIf(h, ttl, cap, now, digest).entries, ttl, cap, later, digest) <==> later - Clamp(h.latest, now) < ttl
  {
    var entries := RecordIf(h, ttl, cap, now, digest).entries;
    assert entries[0] == Entry(digest, Clamp(h.latest, now));
    assert forall i :: 1 <= i < |entries| ==> entries[i] == h.entries[i - 1];
  }

  class InnerReplayFilter {
    const hash: seq<byte> -> nat
    const ttl: nat
    const cap: nat
    var filter: set<nat>
    var fifo: seq<Entry>
    var latest: Option<int>
    ghost var history: History

    /** Set and queue agree, digests are unique, and the queue represents the history within capacity. */
    ghost predicate Valid()
      reads this
    {
      && filter == (set e | e in fifo :: e.digest)
      && DistinctDigests(fifo)
      && |fifo| <= cap
      && Sorted(history.entries) && TimesBounded(history.entries, latest) && history.latest == latest
      && (latest.None? ==> fifo == [])
      && (latest.Some? ==> Represents(fifo, history.entries, ttl, cap, latest.value))
    }

    constructor (hash: seq<byte> -> nat, ttl: nat, cap: nat)
      ensures Valid() && history == History([], None)
      ensures this.hash == hash && this.ttl == ttl && this.cap == cap
    {
      this.hash, this.ttl, this.cap := hash, ttl, cap;
      filter, fifo, latest := {}, [], None;
      history := History([], None);
    }

    /** Forget the oldest entry. */
    method EvictOldest()
      requires filter == (set e | e in fifo :: e.digest) && DistinctDigests(fifo)
      modifies this`filter, this`fifo
      ensures fifo == if old(fifo) == [] then [] else old(fifo)[..|old(fifo)| - 1]
      ensures filter == (set e | e in fifo :: e.digest) && DistinctDigests(fifo)
    {
      if fifo != [] {
        var n := |fifo| - 1;
        filter := filter - {fifo[n].digest};
        fifo := fifo[..n];
        assert old(fifo) == fifo + [old(fifo)[n]];
      }
    }

    /** Evict from the back while it is expired: because times are sorted this removes exactly the expired entries. */
    method GarbageCollect(now: int)
      requires filter == (set e | e in fifo :: e.digest) && DistinctDigests(fifo)
      requires Sorted(history.entries) && Represents(fifo, history.entries, ttl, cap, now)
      modifies this`filter, this`fifo
      ensures filter == (set e | e in fifo :: e.digest) && DistinctDigests(fifo)
      ensures Represents(fifo, history.entries, ttl, cap, now) && fifo <= old(fifo)
      ensures forall e :: e in fifo ==> !Expired(ttl, now, e)
      ensures forall i :: |fifo| <= i < |old(fifo)| ==> Expired(ttl, now, old(fifo)[i])
    {
      while fifo != []
        invariant filter == (set e | e in fifo :: e.digest) && DistinctDigests(fifo)
        invariant Represents(fifo, history.entries, ttl, cap, now) && fifo <= old(fifo)
        invariant forall i :: |fifo| <= i < |old(fifo)| ==> Expired(ttl, now, old(fifo)[i])
        decreases |fifo|
      {
        if !Expired(ttl, now, fifo[|fifo| - 1]) {
          return;
        }
        DropOldest(fifo, history.entries, ttl, cap, now);
        EvictOldest();
      }
    }

    /** Whether the bytes were recorded recently; if not, record them. The answer is that of the full history. */
    method TestAndSet(now: int, buf: seq<byte>) returns (replay: bool)
      requires Valid()
      modifies this
      ensures Valid()
      ensures replay == Seen(old(history.entries), ttl, cap, Clamp(old(latest), now), hash(buf))
      ensures history == RecordIf(old(history), ttl, cap, now, hash(buf))
    {
      var t := Clamp(latest, now);
      latest := Some(t);
      history := history.(latest := latest);
      GarbageCollect(t);
      var digest := hash(buf);
      NoneInTheFuture(history.entries, t);
      MembershipIsSeen(fifo, history.entries, ttl, cap, t, digest);
      if digest in filter {
        return true;
      }
      if cap == 0 {
        return false;
      }
      Record(digest, t);
      return false;
    }

    /** Make room and put a new digest at the front. */
    method Record(digest: nat, t: int)
      requires Valid() && latest == Some(t) && cap > 0 && digest !in filter
      modifies this`filter, this`fifo, this`history
      ensures Valid() && history == History([Entry(digest, t)] + old(history.entries), latest)
    {
      while |fifo| >= cap
        invariant filter == (set e | e in fifo :: e.digest) && DistinctDigests(fifo)
        invariant |fifo| <= cap && fifo <= history.entries && digest !in filter
        invariant forall i :: |fifo| <= i < |history.entries| ==> i >= cap - 1 || Expired(ttl, t, history.entries[i])
        modifies this`filter, this`fifo
        decreases |fifo|
      {
        EvictOldest();
      }
      var e := Entry(digest, t);
      fifo := [e] + fifo;
      filter := filter + {digest};
      history := History([e] + history.entries, latest);
    }
  }
}
