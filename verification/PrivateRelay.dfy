/** Duplicate suppression in the private relay: the age check, the seen rows and their pruning
    (internal/privatedm/relay.go:111-159, internal/controlstore/private_dm.go:127-139, 262-283).
    Times are nanoseconds; the database keeps milliseconds. */
module PrivateRelay {
  import opened RelayLimits
  import opened Wrappers

  const MS: int := 1_000_000
  const TTL: int := 24 * 60 * 60 * 1000 * MS
  const AHEAD: int := 5 * 60 * 1000 * MS
  const RECORD_LIMIT: nat := 100_000

  /** What the keyed hash stands for: an inbox and a provider message id. */
  datatype Key = Key(inbox: string, messageID: string)

  function Millis(t: int): int { t / MS }

  /** The time truncated to what the database keeps. */
  function Floor(t: int): int { Millis(t) * MS }

  /** `timestamp` is None when the provider gives none; `admitted`: configuration, address checks
      and rate limits let the message through. `gone`: the expired rows a sweep gets to. */
  datatype Event =
    | Arrive(key: Key, timestamp: Option<int>, now: int, admitted: bool)
    | Sweep(now: int, gone: set<Key>)

  /** Expiry of each seen row, and every acceptance so far. */
  datatype State = State(seen: map<Key, int>, accepted: seq<Key>)

  predicate Timely(timestamp: Option<int>, now: int) {
    timestamp.None? || (now - timestamp.value < TTL && timestamp.value <= now + AHEAD)
  }

  /** AcceptIncoming inserts only a new key, and only below the record limit. */
  predicate Accepts(s: State, e: Event)
    requires e.Arrive?
  {
    Timely(e.timestamp, e.now) && e.admitted && |s.seen| < RECORD_LIMIT && e.key !in s.seen
  }

  /** Of a table with these expiry times: without those of the given rows that have expired. */
  function WithoutExpired<K>(expiries: map<K, int>, now: int, gone: set<K>): map<K, int> {
    map k | k in expiries && !(k in gone && expiries[k] <= Millis(now)) :: expiries[k]
  }

  function Next(s: State, e: Event): State {
    match e
    case Arrive(key, _, now, _) =>
      if Accepts(s, e) then State(s.seen[key := Millis(now + TTL)], s.accepted + [key]) else s
    case Sweep(now, gone) => s.(seen := WithoutExpired(s.seen, now, gone))
  }

  function Run(s: State, events: seq<Event>): State
    decreases |events|
  {
    if events == [] then s else Run(Next(s, events[0]), events[1..])
  }

  const EMPTY := State(map[], [])

  /** The clock never goes back. */
  predicate Clocked(events: seq<Event>, from: int) {
    events == [] || (from <= events[0].now && Clocked(events[1..], events[0].now))
  }

  function Times(accepted: seq<Key>, k: Key): nat {
    if accepted == [] then 0
    else Times(accepted[..|accepted| - 1], k) + (if accepted[|accepted| - 1] == k then 1 else 0)
  }

  lemma TimesSnoc(accepted: seq<Key>, k: Key, x: Key)
    ensures Times(accepted + [x], k) == Times(accepted, k) + (if x == k then 1 else 0)
  {
    assert (accepted + [x])[..|accepted|] == accepted;
  }

  // ---- Once accepted, never again -----------------------------------------------------------------

  /** Every redelivery of the message carries the same provider timestamp. */
  predicate Stamped(events: seq<Event>, k: Key, timestamp: Option<int>) {
    forall e <- events :: e.Arrive? && e.key == k ==> e.timestamp == timestamp
  }

  /** The message's row is there, or the clock has reached its expiry. */
  predicate Guarded(s: State, k: Key, arrival: int, clock: int) {
    (k in s.seen && s.seen[k] == Millis(arrival + TTL)) || Millis(clock) >= Millis(arrival + TTL)
  }

  /** Past the expiry of the row, the age check takes over: there is no gap between them if the
      timestamp is no later than the arrival to the millisecond. */
  lemma ExpiryThenAge(timestamp: int, arrival: int, clock: int, now: int)
    requires timestamp <= Floor(arrival) && Millis(clock) >= Millis(arrival + TTL) && clock <= now
    ensures now - timestamp >= TTL
  {
    assert Millis(arrival + TTL) == Millis(arrival) + TTL / MS;
  }

  lemma {:induction false} NeverAgain(s: State, events: seq<Event>, k: Key, timestamp: int, arrival: int, clock: int)
    requires timestamp <= Floor(arrival) && Guarded(s, k, arrival, clock)
    requires Clocked(events, clock) && Stamped(events, k, Some(timestamp))
    ensures Times(Run(s, events).accepted, k) == Times(s.accepted, k)
    decreases |events|
  {
    if events != [] {
      var e := events[0];
      assert e in events && forall x <- events[1..] :: x in events;
      if e.Arrive? && e.key == k && !(k in s.seen) {
        ExpiryThenAge(timestamp, arrival, clock, e.now);
      }
      if e.Arrive? {
        TimesSnoc(s.accepted, k, e.key);
      }
      NeverAgain(Next(s, e), events[1..], k, timestamp, arrival, e.now);
    }
  }

  /** The timestamp is known and no later than each arrival, truncated to the millisecond. */
  predicate WellStamped(events: seq<Event>, k: Key, timestamp: int) {
    forall e <- events :: e.Arrive? && e.key == k ==> timestamp <= Floor(e.now)
  }

  lemma {:induction false} AtMostOnceFrom(s: State, events: seq<Event>, k: Key, timestamp: int, clock: int)
    requires Clocked(events, clock) && Stamped(events, k, Some(timestamp)) && WellStamped(events, k, timestamp)
    ensures Times(Run(s, events).accepted, k) <= Times(s.accepted, k) + 1
    decreases |events|
  {
    if events != [] {
      var e, rest := events[0], events[1..];
      assert e in events && forall x <- rest :: x in events;
      if e.Arrive? && e.key == k && Accepts(s, e) {
        TimesSnoc(s.accepted, k, k);
        NeverAgain(Next(s, e), rest, k, timestamp, e.now, e.now);
      } else {
        if e.Arrive? {
          TimesSnoc(s.accepted, k, e.key);
        }
        AtMostOnceFrom(Next(s, e), rest, k, timestamp, e.now);
      }
    }
  }

  /** Over any run of arrivals, restarts and sweeps, each message whose timestamp is no later than
      its arrivals, to the millisecond, is accepted at most once ever. */
  lemma AcceptedAtMostOnce(events: seq<Event>, k: Key, timestamp: int, start: int)
    requires Clocked(events, start) && Stamped(events, k, Some(timestamp)) && WellStamped(events, k, timestamp)
    ensures Times(Run(EMPTY, events).accepted, k) <= 1
  {
    AtMostOnceFrom(EMPTY, events, k, timestamp, start);
  }

  /** A provider that stamps whole milliseconds, none in the future, is always within the
      condition. */
  lemma WholeMillisecondsSuffice(timestamp: int, arrival: int)
    requires timestamp % MS == 0 && timestamp <= arrival
    ensures timestamp <= Floor(arrival)
  {
  }

  /** In particular if its timestamp is in whole milliseconds and never in the future. */
  lemma WholeMillisecondsOnce(events: seq<Event>, k: Key, timestamp: int, start: int)
    requires Clocked(events, start) && Stamped(events, k, Some(timestamp)) && timestamp % MS == 0
    requires forall e <- events :: e.Arrive? && e.key == k ==> timestamp <= e.now
    ensures Times(Run(EMPTY, events).accepted, k) <= 1
  {
    forall e <- events | e.Arrive? && e.key == k ensures timestamp <= Floor(e.now) {
      WholeMillisecondsSuffice(timestamp, e.now);
    }
    AcceptedAtMostOnce(events, k, timestamp, start);
  }

  /** Only accepted messages have rows. */
  predicate OnlyAccepted(s: State) {
    (forall k <- s.seen :: k in s.accepted) && |s.seen| <= |s.accepted|
  }

  lemma FewerRows(seen: map<Key, int>, now: int, gone: set<Key>)
    ensures |WithoutExpired(seen, now, gone)| <= |seen|
  {
    var left := WithoutExpired(seen, now, gone);
    assert seen.Keys == left.Keys + (seen.Keys - left.Keys);
  }

  lemma {:induction false} RowsWereAccepted(s: State, events: seq<Event>)
    requires OnlyAccepted(s)
    ensures OnlyAccepted(Run(s, events))
    decreases |events|
  {
    if events != [] {
      var e := events[0];
      if e.Sweep? { FewerRows(s.seen, e.now, e.gone); }
      if e.Arrive? && Accepts(s, e) {
        assert Next(s, e).accepted == s.accepted + [e.key];
        assert Next(s, e).seen.Keys == s.seen.Keys + {e.key};
      }
      RowsWereAccepted(Next(s, e), events[1..]);
    }
  }

  /** In every run: a message that was never accepted is accepted, while there are rows left, exactly if the
      limits and the checks let it through and its timestamp, if it has one, is less than a day old and at
      most five minutes ahead. */
  lemma FirstArrivalIff(events: seq<Event>, e: Event)
    requires e.Arrive? && e.key !in Run(EMPTY, events).accepted && |Run(EMPTY, events).accepted| < 100_000
    ensures var s := Run(EMPTY, events);
            Next(s, e).accepted == s.accepted + [e.key] <==>
            e.admitted && (e.timestamp.None? ||
                           e.now - 86_400_000_000_000 < e.timestamp.value <= e.now + 300_000_000_000)
  {
    RowsWereAccepted(EMPTY, events);
  }

  // ---- Exactly when there is no gap -----------------------------------------------------------------

  /** Some future of the present state accepts the message again. */
  ghost predicate Repeatable(s: State, k: Key, timestamp: Option<int>, clock: int) {
    exists events | Clocked(events, clock) && Stamped(events, k, timestamp) ::
      Times(Run(s, events).accepted, k) > Times(s.accepted, k)
  }

  /** The row is swept at its expiry, and the age check still passes. */
  lemma AcceptedAgain(s: State, e: Event)
    requires e.Arrive? && Accepts(s, e) && (e.timestamp.None? || e.timestamp.value > Floor(e.now))
    ensures Repeatable(Next(s, e), e.key, e.timestamp, e.now)
  {
    var s', k, later := Next(s, e), e.key, Floor(e.now) + TTL;
    var sweep, again := Sweep(later, {k}), Arrive(k, e.timestamp, later, true);
    var events := [sweep, again];
    assert events[1..] == [again] && [again][1..] == [];
    assert Clocked(events, e.now) by { assert Clocked([again], later); }
    SweepRemoves(s'.seen, later, k);
    SizeAfter(s.seen, k, Millis(e.now + TTL));
    var swept := Next(s', sweep);
    assert Accepts(swept, again);
    TimesSnoc(swept.accepted, k, k);
    assert Run(s', events) == Run(swept, [again]) == Run(Next(swept, again), []) == Next(swept, again);
  }

  /** Right after a message is accepted it can be accepted again exactly if it has no timestamp, or
      one later than its arrival truncated to the millisecond: then the row expires up to a
      millisecond before the age check begins to refuse. */
  lemma RepeatableIff(s: State, e: Event)
    requires e.Arrive? && Accepts(s, e)
    ensures Repeatable(Next(s, e), e.key, e.timestamp, e.now) <==>
            e.timestamp.None? || e.timestamp.value > Floor(e.now)
  {
    if e.timestamp.None? || e.timestamp.value > Floor(e.now) {
      AcceptedAgain(s, e);
    } else {
      forall events | Clocked(events, e.now) && Stamped(events, e.key, e.timestamp)
        ensures Times(Run(Next(s, e), events).accepted, e.key) == Times(Next(s, e).accepted, e.key)
      {
        NeverAgain(Next(s, e), events, e.key, e.timestamp.value, e.now, e.now);
      }
    }
  }

  lemma SweepRemoves(seen: map<Key, int>, now: int, k: Key)
    requires k in seen && seen[k] <= Millis(now)
    ensures WithoutExpired(seen, now, {k}) == seen - {k}
  {
  }

  lemma SizeAfter(seen: map<Key, int>, k: Key, expiry: int)
    requires k !in seen
    ensures seen[k := expiry] - {k} == seen
  {
  }

  // ---- Pruning ----------------------------------------------------------------------------------------

  /** Some of the expired rows are gone, and nothing else has changed. */
  predicate Pruned<K>(expiries: map<K, int>, left: map<K, int>, now: int) {
    && left.Keys <= expiries.Keys
    && forall k <- expiries :: if k in left then left[k] == expiries[k] else expiries[k] <= Millis(now)
  }

  lemma PrunedIs<K>(expiries: map<K, int>, left: map<K, int>, now: int)
    requires Pruned(expiries, left, now)
    ensures left == WithoutExpired(expiries, now, expiries.Keys - left.Keys)
  {
  }

  lemma Dropped<K>(expiries: map<K, int>, k: K)
    requires k in expiries
    ensures |expiries - {k}| == |expiries| - 1
  {
    assert (expiries - {k}).Keys == expiries.Keys - {k};
  }

  /** One DELETE .. LIMIT statement: up to `limit` expired rows go. */
  method PruneBatch<K>(expiries: map<K, int>, now: int, limit: nat) returns (left: map<K, int>, n: nat)
    ensures Pruned(expiries, left, now) && n == |expiries| - |left| <= limit
    ensures n < limit ==> forall k <- left :: left[k] > Millis(now)
  {
    left, n := expiries, 0;
    var expired := set k | k in left && left[k] <= Millis(now);
    while n < limit && expired != {}
      invariant expired == set k | k in left && left[k] <= Millis(now)
      invariant Pruned(expiries, left, now) && n == |expiries| - |left| <= limit
    {
      var k :| k in expired;
      Dropped(left, k);
      left := left - {k};
      n := n + 1;
      expired := expired - {k};
    }
    assert forall k <- left :: left[k] <= Millis(now) ==> k in expired;
  }

  /** Prune, for one table: batches until one comes back short or fails. With a table within its limit
      they reach every expired row. `works`: which of the statements succeed. */
  method PruneTable<K>(expiries: map<K, int>, now: int, limit: int, works: nat -> bool)
      returns (ok: bool, left: map<K, int>)
    ensures Pruned(expiries, left, now)
    ensures ok && |expiries| <= RECORD_LIMIT ==> forall k <- left :: left[k] > Millis(now)
    ensures !ok ==> exists batch: nat :: !works(batch)
  {
    var size: nat := if limit < 1 || limit > 100 then 100 else limit;
    left := expiries;
    var batches := RECORD_LIMIT / size + 1;
    ghost var pruned := 0;
    for batch := 0 to batches
      invariant Pruned(expiries, left, now)
      invariant pruned == batch * size && |left| + pruned <= |expiries|
    {
      if !works(batch) {
        return false, left;
      }
      var n;
      left, n := PruneBatch(left, now, size);
      if n < size {
        return true, left;
      }
      pruned := pruned + size;
      OneMoreBatch(batch, size);
    }
    ok := true;
    EnoughBatches(size);
  }

  lemma OneMoreBatch(batch: nat, size: nat)
    ensures (batch + 1) * size == batch * size + size
  {
  }

  lemma EnoughBatches(size: nat)
    requires 1 <= size <= 100
    ensures (RECORD_LIMIT / size + 1) * size > RECORD_LIMIT
  {
  }

  // ---- The relay --------------------------------------------------------------------------------------

  class Relay {
    /** private_dm_seen_messages, persisted, and the rate windows, in memory. */
    var seen: map<Key, int>
    var limits: map<string, Window>
    ghost var accepted: seq<Key>

    constructor ()
      ensures View() == EMPTY && limits == map[]
    {
      seen, limits, accepted := map[], map[], [];
    }

    ghost function View(): State
      reads this
    {
      State(seen, accepted)
    }

    method PermitRequest(key: string, now: int, max: int) returns (ok: bool)
      modifies this`limits
      ensures (limits, ok) == Permit(old(limits), key, now / MINUTE, max)
    {
      var minute := now / MINUTE;
      limits := map k | k in limits && limits[k].minute == minute :: limits[k];
      assert limits == Current(old(limits), minute);
      var w := if key in limits then limits[key] else Window(minute, 0);
      if w.count >= max || |limits| >= LIMIT_KEYS {
        return false;
      }
      limits := limits[key := Window(minute, w.count + 1)];
      return true;
    }

    /** INSERT OR IGNORE .. WHERE the table is below its limit */
    method AcceptIncoming(key: Key, now: int) returns (ok: bool)
      modifies this`seen, this`accepted
      ensures ok <==> |old(seen)| < RECORD_LIMIT && key !in old(seen)
      ensures View() == if ok then State(old(seen)[key := Millis(now + TTL)], old(accepted) + [key]) else old(View())
    {
      ok := |seen| < RECORD_LIMIT && key !in seen;
      if ok {
        seen := seen[key := Millis(now + TTL)];
        accepted := accepted + [key];
      }
    }

    /** The part of Handle up to the acceptance. `known`: configuration and address checks. */
    method Handle(key: Key, actor: string, timestamp: Option<int>, now: int, known: bool) returns (ok: bool)
      modifies this
      ensures limits == if Timely(timestamp, now) && known then Admission(old(limits), actor, now).0 else old(limits)
      ensures var e := Arrive(key, timestamp, now, known && Admission(old(limits), actor, now).1);
              View() == Next(old(View()), e) && (ok <==> Accepts(old(View()), e))
    {
      ok := false;
      if timestamp.Some? && (now - timestamp.value >= TTL || timestamp.value > now + AHEAD) {
        return;
      }
      if !known {
        return;
      }
      var actorPasses := PermitRequest("actor:" + actor, now, ACTOR_MAX);
      if !actorPasses {
        return;
      }
      var globalPasses := PermitRequest("global", now, GLOBAL_MAX);
      if !globalPasses {
        return;
      }
      ok := AcceptIncoming(key, now);
    }

    /** Prune, for the seen rows. With the table within its limit every expired row goes. */
    method Prune(now: int, limit: int, works: nat -> bool) returns (ok: bool, ghost gone: set<Key>)
      modifies this`seen
      ensures View() == Next(old(View()), Sweep(now, gone))
      ensures ok && |old(seen)| <= RECORD_LIMIT ==> forall k <- seen :: seen[k] > Millis(now)
      ensures !ok ==> exists batch: nat :: !works(batch)
    {
      var left;
      ok, left := PruneTable(seen, now, limit, works);
      PrunedIs(seen, left, now);
      gone := seen.Keys - left.Keys;
      seen := left;
    }
  }
}
