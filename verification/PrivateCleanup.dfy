/** The crash-safe attempt budget of private-copy cleanups (internal/controlstore/private_dm.go:180-260,
    internal/privatedm/relay.go:398-431). Row times are milliseconds. */
module PrivateCleanup {
  import opened Wrappers
  import PrivateRelay

  const HOUR: int := 60 * 60 * 1000
  const KEEP: int := 72 * HOUR
  const MAX_ATTEMPTS: nat := 3
  const SWEEP_LIMIT: nat := 100

  /** What the keyed hash stands for: connection, transport, owner and copy token. */
  type CopyKey = string

  /** A row of private_dm_cleanup_candidates; `id` tells apart rows queued at different times for
      the same copy. */
  datatype Row = Row(id: nat, after: int, expires: int, attempts: nat, next: int)

  /** An attempt that BeginCleanup let through, with the row's due time and expiry, and the time
      of its provider call, if that has been made. A claim's time is the start of its sweep. */
  datatype Claim = Claim(
    key: CopyKey, id: nat, attempts: nat, at: int, after: int, expires: int, called: Option<int>)

  datatype State = State(rows: map<CopyKey, Row>, claims: seq<Claim>, nextID: nat, finished: set<nat>)

  /** `claim` is an index into the claims made so far. A crash is just the absence of Finish. */
  datatype Event =
    | Queue(key: CopyKey, whatsApp: bool, after: int)
    | Begin(key: CopyKey, attempts: nat, now: int)
    | Call(claim: nat, now: int)
    | Finish(claim: nat, succeeded: bool)
    | Prune(now: int, gone: set<CopyKey>)

  /** The compare-and-set of BeginCleanup. */
  predicate Claims(rows: map<CopyKey, Row>, key: CopyKey, attempts: nat, now: int) {
    && key in rows && rows[key].attempts == attempts && attempts < MAX_ATTEMPTS
    && rows[key].next <= PrivateRelay.Millis(now) && rows[key].expires > PrivateRelay.Millis(now)
  }

  function Claimed(row: Row, now: int): Row {
    row.(attempts := row.attempts + 1, next := PrivateRelay.Millis(now) + HOUR)
  }

  function Next(s: State, e: Event): State {
    match e
    case Queue(key, whatsApp, after) =>
      if !whatsApp || key in s.rows || |s.rows| >= PrivateRelay.RECORD_LIMIT then s
      else s.(rows := s.rows[key := Row(s.nextID, after, after + KEEP, 0, after)], nextID := s.nextID + 1)
    case Begin(key, attempts, now) =>
      if !Claims(s.rows, key, attempts, now) then s
      else
        var row := s.rows[key];
        s.(rows := s.rows[key := Claimed(row, now)],
           claims := s.claims + [Claim(key, row.id, attempts, PrivateRelay.Millis(now), row.after, row.expires, None)])
    case Call(i, now) =>
      // The clock does not go back between a claim and its call.
      if i >= |s.claims| || s.claims[i].called.Some? || PrivateRelay.Millis(now) < s.claims[i].at then s
      else s.(claims := s.claims[i := s.claims[i].(called := Some(PrivateRelay.Millis(now)))])
    case Finish(i, succeeded) =>
      if i >= |s.claims| then s
      else if succeeded || s.claims[i].attempts >= MAX_ATTEMPTS - 1
      then s.(rows := s.rows - {s.claims[i].key}, finished := s.finished + {s.claims[i].id})
      else s
    case Prune(now, gone) =>
      s.(rows := map k | k in s.rows && !(k in gone && s.rows[k].expires <= PrivateRelay.Millis(now)) :: s.rows[k])
  }

  const EMPTY := State(map[], [], 0, {})

  function RunFrom(s: State, events: seq<Event>): State
    decreases |events|
  {
    if events == [] then s else Next(RunFrom(s, events[..|events| - 1]), events[|events| - 1])
  }

  function Run(events: seq<Event>): State {
    RunFrom(EMPTY, events)
  }

  lemma OneMore(s: State, events: seq<Event>, e: Event)
    ensures RunFrom(s, events + [e]) == Next(RunFrom(s, events), e)
  {
    assert (events + [e])[..|events + [e]| - 1] == events;
  }

  // ---- The invariant --------------------------------------------------------------------------------

  function ClaimsOf(claims: seq<Claim>, id: nat): nat {
    if claims == [] then 0
    else ClaimsOf(claims[..|claims| - 1], id) + (if claims[|claims| - 1].id == id then 1 else 0)
  }

  /** A row counts its claims, and its next attempt is an hour after each of them. */
  ghost predicate RowInv(s: State, k: CopyKey, row: Row) {
    && row.id < s.nextID && row.id !in s.finished
    && row.attempts == ClaimsOf(s.claims, row.id) && row.after <= row.next
    && forall i | 0 <= i < |s.claims| && s.claims[i].id == row.id ::
         s.claims[i].key == k && s.claims[i].at + HOUR <= row.next
  }

  ghost predicate ClaimInv(s: State, c: Claim) {
    && c.id < s.nextID && c.after <= c.at < c.expires && ClaimsOf(s.claims, c.id) <= MAX_ATTEMPTS
    && (c.called.Some? ==> c.at <= c.called.value)
  }

  predicate Spaced(claims: seq<Claim>) {
    forall i, j :: 0 <= i < j < |claims| && claims[i].id == claims[j].id ==> claims[i].at + HOUR <= claims[j].at
  }

  ghost predicate Inv(s: State) {
    && (forall k <- s.rows :: RowInv(s, k, s.rows[k]))
    && (forall k <- s.rows, l <- s.rows :: k != l ==> s.rows[k].id != s.rows[l].id)
    && (forall i | 0 <= i < |s.claims| :: ClaimInv(s, s.claims[i]))
    && Spaced(s.claims)
    && forall id <- s.finished :: id < s.nextID
  }

  lemma {:induction false} NoClaims(claims: seq<Claim>, id: nat)
    requires forall i | 0 <= i < |claims| :: claims[i].id != id
    ensures ClaimsOf(claims, id) == 0
  {
    if claims != [] { NoClaims(claims[..|claims| - 1], id); }
  }

  lemma QueueKeeps(s: State, e: Event)
    requires Inv(s) && e.Queue?
    ensures Inv(Next(s, e))
  {
    var s' := Next(s, e);
    if s' != s {
      forall i | 0 <= i < |s.claims|
        ensures s.claims[i].id != s.nextID && ClaimInv(s', s.claims[i])
      {
        assert ClaimInv(s, s.claims[i]);
      }
      NoClaims(s.claims, s.nextID);
      forall k | k in s'.rows
        ensures RowInv(s', k, s'.rows[k])
      {
        if k != e.key { assert RowInv(s, k, s.rows[k]); }
      }
    }
  }

  lemma ClaimsSnoc(claims: seq<Claim>, c: Claim, id: nat)
    ensures ClaimsOf(claims + [c], id) == ClaimsOf(claims, id) + (if c.id == id then 1 else 0)
  {
    assert (claims + [c])[..|claims|] == claims;
  }

  lemma BeginKeepsRow(s: State, e: Event, k: CopyKey)
    requires Inv(s) && e.Begin? && Claims(s.rows, e.key, e.attempts, e.now) && k in s.rows
    ensures RowInv(Next(s, e), k, Next(s, e).rows[k])
  {
    assert RowInv(s, k, s.rows[k]) && RowInv(s, e.key, s.rows[e.key]);
    ClaimsSnoc(s.claims, Next(s, e).claims[|s.claims|], s.rows[k].id);
  }

  lemma BeginKeepsClaim(s: State, e: Event, i: nat)
    requires Inv(s) && e.Begin? && Claims(s.rows, e.key, e.attempts, e.now) && i <= |s.claims|
    ensures ClaimInv(Next(s, e), Next(s, e).claims[i])
  {
    assert RowInv(s, e.key, s.rows[e.key]);
    var c := Next(s, e).claims[i];
    ClaimsSnoc(s.claims, Next(s, e).claims[|s.claims|], c.id);
    if i < |s.claims| {
      assert ClaimInv(s, s.claims[i]);
    }
  }

  lemma BeginKeeps(s: State, e: Event)
    requires Inv(s) && e.Begin?
    ensures Inv(Next(s, e))
  {
    var s' := Next(s, e);
    if Claims(s.rows, e.key, e.attempts, e.now) {
      assert RowInv(s, e.key, s.rows[e.key]);
      forall k | k in s'.rows ensures RowInv(s', k, s'.rows[k]) { BeginKeepsRow(s, e, k); }
      forall i | 0 <= i < |s'.claims| ensures ClaimInv(s', s'.claims[i]) { BeginKeepsClaim(s, e, i); }
    }
  }

  lemma {:induction false} CalledCounts(claims: seq<Claim>, i: nat, c: Claim, id: nat)
    requires i < |claims| && c.id == claims[i].id
    ensures ClaimsOf(claims[i := c], id) == ClaimsOf(claims, id)
  {
    var last := |claims| - 1;
    if i < last {
      assert claims[i := c][..last] == claims[..last][i := c];
      CalledCounts(claims[..last], i, c, id);
    } else {
      assert claims[i := c][..last] == claims[..last];
    }
  }

  lemma CallKeeps(s: State, e: Event)
    requires Inv(s) && e.Call?
    ensures Inv(Next(s, e))
  {
    var s' := Next(s, e);
    if s' != s {
      forall id: nat ensures ClaimsOf(s'.claims, id) == ClaimsOf(s.claims, id) {
        CalledCounts(s.claims, e.claim, s'.claims[e.claim], id);
      }
      forall i | 0 <= i < |s'.claims| ensures ClaimInv(s', s'.claims[i]) { assert ClaimInv(s, s.claims[i]); }
      forall k | k in s'.rows ensures RowInv(s', k, s'.rows[k]) { assert RowInv(s, k, s.rows[k]); }
    }
  }

  lemma RemovalKeeps(s: State, e: Event)
    requires Inv(s) && (e.Finish? || e.Prune?)
    ensures Inv(Next(s, e))
  {
    var s' := Next(s, e);
    forall k | k in s'.rows
      ensures k in s.rows && s'.rows[k] == s.rows[k] && RowInv(s', k, s'.rows[k])
    {
      assert RowInv(s, k, s.rows[k]);
      if e.Finish? && e.claim < |s.claims| {
        assert s.claims[e.claim].id == s.rows[k].id ==> s.claims[e.claim].key == k;
      }
    }
    forall i | 0 <= i < |s'.claims| ensures ClaimInv(s', s'.claims[i]) { assert ClaimInv(s, s.claims[i]); }
  }

  lemma {:induction false} RunKeeps(events: seq<Event>)
    ensures Inv(Run(events))
    decreases |events|
  {
    if events != [] {
      var before, e := Run(events[..|events| - 1]), events[|events| - 1];
      RunKeeps(events[..|events| - 1]);
      match e
      case Queue(_, _, _) => QueueKeeps(before, e);
      case Begin(_, _, _) => BeginKeeps(before, e);
      case Call(_, _) => CallKeeps(before, e);
      case Finish(_, _) => RemovalKeeps(before, e);
      case Prune(_, _) => RemovalKeeps(before, e);
    }
  }

  // ---- What the budget promises ---------------------------------------------------------------------

  /** Over every run, whatever crashes between claim and finish: each row is claimed at most three
      times, each claim is at or after its due time and before its expiry, and claims of one row
      are at least an hour apart. */
  lemma BudgetHolds(events: seq<Event>, i: nat, j: nat)
    requires i < |Run(events).claims| && j < |Run(events).claims|
    ensures var claims := Run(events).claims;
            && ClaimsOf(claims, claims[i].id) <= MAX_ATTEMPTS
            && claims[i].after <= claims[i].at < claims[i].expires
            && (i < j && claims[i].id == claims[j].id ==> claims[j].at - claims[i].at >= HOUR)
  {
    RunKeeps(events);
    assert ClaimInv(Run(events), Run(events).claims[i]);
  }

  /** A copy was queued with this due time. */
  ghost predicate WasQueued(events: seq<Event>, k: CopyKey, after: int) {
    exists e <- events :: e.Queue? && e.whatsApp && e.key == k && e.after == after
  }

  /** Rows and claims have the due time of some queueing, and three days from it. */
  ghost predicate FromQueue(events: seq<Event>, s: State) {
    && (forall k <- s.rows ::
          WasQueued(events, k, s.rows[k].after) && s.rows[k].expires == s.rows[k].after + 259_200_000)
    && forall i | 0 <= i < |s.claims| ::
         WasQueued(events, s.claims[i].key, s.claims[i].after) && s.claims[i].expires == s.claims[i].after + 259_200_000
  }

  lemma FromQueueNext(events: seq<Event>, s: State, e: Event)
    requires FromQueue(events, s)
    ensures FromQueue(events + [e], Next(s, e))
  {
    forall k, after | WasQueued(events, k, after) ensures WasQueued(events + [e], k, after) {
      var x :| x in events && x.Queue? && x.whatsApp && x.key == k && x.after == after;
      assert x in events + [e];
    }
    if e.Queue? && e.whatsApp {
      assert e in events + [e];
      assert WasQueued(events + [e], e.key, e.after);
    }
  }

  lemma {:induction false} RunIsFromQueue(events: seq<Event>)
    ensures FromQueue(events, Run(events))
    decreases |events|
  {
    if events != [] {
      var before, e := events[..|events| - 1], events[|events| - 1];
      RunIsFromQueue(before);
      FromQueueNext(before, Run(before), e);
      assert events == before + [e];
    }
  }

  /** In every run a claim is one of a copy that was queued, within three days from its due time. */
  lemma ClaimedWithinThreeDays(events: seq<Event>, i: nat)
    requires i < |Run(events).claims|
    ensures var c := Run(events).claims[i];
            WasQueued(events, c.key, c.after) && c.after <= c.at < c.after + 259_200_000
  {
    BudgetHolds(events, i, i);
    RunIsFromQueue(events);
  }

  /** The next attempt is due at the due time of the row, or an hour after one of its claims. */
  ghost predicate NextIsEarned(s: State, row: Row) {
    row.next == row.after ||
    exists i | 0 <= i < |s.claims| :: s.claims[i].id == row.id && row.next == s.claims[i].at + HOUR
  }

  ghost predicate Earned(s: State) {
    forall k <- s.rows :: NextIsEarned(s, s.rows[k])
  }

  lemma EarnedNext(s: State, e: Event)
    requires Earned(s)
    ensures Earned(Next(s, e))
  {
    var s' := Next(s, e);
    forall k | k in s'.rows ensures NextIsEarned(s', s'.rows[k]) {
      if e.Begin? && Claims(s.rows, e.key, e.attempts, e.now) && k == e.key {
        assert s'.claims[|s.claims|].id == s'.rows[k].id;
      } else if k in s.rows && s'.rows[k] == s.rows[k] && s.rows[k].next != s.rows[k].after {
        var i :| 0 <= i < |s.claims| && s.claims[i].id == s.rows[k].id && s.rows[k].next == s.claims[i].at + HOUR;
        assert s'.claims[i].id == s.claims[i].id && s'.claims[i].at == s.claims[i].at;
      }
    }
  }

  lemma {:induction false} RunIsEarned(events: seq<Event>)
    ensures Earned(Run(events))
    decreases |events|
  {
    if events != [] {
      RunIsEarned(events[..|events| - 1]);
      EarnedNext(Run(events[..|events| - 1]), events[|events| - 1]);
    }
  }

  /** In every run a row, as it stands, can be claimed exactly if it has been claimed fewer than three times,
      it is due and has not expired, and none of its claims is less than an hour old. */
  lemma ClaimIff(events: seq<Event>, k: CopyKey, now: int)
    requires k in Run(events).rows
    ensures var s, m := Run(events), PrivateRelay.Millis(now);
            var row := s.rows[k];
            Claims(s.rows, k, row.attempts, now) <==>
              && ClaimsOf(s.claims, row.id) < 3 && row.after <= m < row.expires
              && forall i | 0 <= i < |s.claims| && s.claims[i].id == row.id :: s.claims[i].at + 3_600_000 <= m
  {
    var s := Run(events);
    RunKeeps(events);
    RunIsEarned(events);
    assert RowInv(s, k, s.rows[k]) && NextIsEarned(s, s.rows[k]);
  }

  /** A row is there until an attempt of it succeeds, its third attempt finishes, or it has expired and is
      pruned: only then does it go. */
  lemma RowGoesIff(events: seq<Event>, k: CopyKey, e: Event)
    requires k in Run(events).rows
    ensures var s := Run(events);
            k !in Next(s, e).rows <==>
            || (e.Finish? && e.claim < |s.claims| && s.claims[e.claim].key == k
                && (e.succeeded || s.claims[e.claim].attempts >= 2))
            || (e.Prune? && k in e.gone && s.rows[k].expires <= PrivateRelay.Millis(e.now))
  {
  }

  predicate Late(claims: seq<Claim>, i: nat, delay: int)
    requires i < |claims|
  {
    claims[i].called.Some? && claims[i].called.value <= claims[i].at + delay
  }

  /** And of the provider calls: each claim makes at most one, not before the row is due. A call that
      comes at most `delay` after the start of its sweep is made less than `delay` after the row expires,
      and a later call of the row comes at least an hour less `delay` after it. */
  lemma CallsHold(events: seq<Event>, i: nat, j: nat, delay: int)
    requires i < |Run(events).claims| && Late(Run(events).claims, i, delay)
    ensures var claims := Run(events).claims;
            var call := claims[i].called.value;
            && ClaimsOf(claims, claims[i].id) <= MAX_ATTEMPTS && claims[i].after <= call < claims[i].expires + delay
            && (i < j < |claims| && claims[i].id == claims[j].id && claims[j].called.Some? ==>
                  claims[j].called.value >= call + HOUR - delay)
  {
    RunKeeps(events);
    assert ClaimInv(Run(events), Run(events).claims[i]);
    if i < j < |Run(events).claims| {
      assert ClaimInv(Run(events), Run(events).claims[j]);
    }
  }

  /** Extend a run by one event. */
  lemma Play(s: State, events: seq<Event>, e: Event) returns (s': State, events': seq<Event>)
    requires s == Run(events)
    ensures s' == Next(s, e) == Run(events') && events' == events + [e]
  {
    s', events' := Next(s, e), events + [e];
    OneMore(EMPTY, events, e);
  }

  /** Claim a row and ask the provider. */
  lemma PlayClaim(s: State, events: seq<Event>, k: CopyKey, now: int, called: int)
      returns (s': State, events': seq<Event>)
    requires s == Run(events) && k in s.rows && Claims(s.rows, k, s.rows[k].attempts, now)
    requires PrivateRelay.Millis(now) <= PrivateRelay.Millis(called)
    ensures s' == Run(events') && s'.rows == s.rows[k := Claimed(s.rows[k], now)]
    ensures var row := s.rows[k];
            s'.claims == s.claims + [Claim(k, row.id, row.attempts, PrivateRelay.Millis(now), row.after, row.expires,
                                           Some(PrivateRelay.Millis(called)))]
  {
    s', events' := Play(s, events, Begin(k, s.rows[k].attempts, now));
    s', events' := Play(s', events', Call(|s.claims|, called));
  }

  /** In every run, a call of a row comes at least `space` after an earlier one that was at most `delay`
      late. */
  ghost predicate SpacedBy(delay: int, space: int) {
    forall events: seq<Event>, i: nat, j: nat | CallsOfRow(Run(events).claims, i, j, delay) ::
      Run(events).claims[j].called.value >= Run(events).claims[i].called.value + space
  }

  predicate CallsOfRow(claims: seq<Claim>, i: nat, j: nat, delay: int) {
    i < j < |claims| && claims[i].id == claims[j].id && Late(claims, i, delay) && claims[j].called.Some?
  }

  /** What a delay costs: exactly an hour less the delay is promised between the calls of a row. */
  lemma SpacingIff(delay: int, space: int)
    requires 0 <= delay <= HOUR
    ensures SpacedBy(delay, space) <==> space <= HOUR - delay
  {
    if space <= HOUR - delay {
      forall events: seq<Event>, i: nat, j: nat | CallsOfRow(Run(events).claims, i, j, delay)
        ensures Run(events).claims[j].called.value >= Run(events).claims[i].called.value + space
      {
        CallsHold(events, i, j, delay);
      }
    } else {
      var events := PlayTwoCalls("", delay);
      assert CallsOfRow(Run(events).claims, 0, 1, delay);
    }
  }

  /** A row's first call comes as late as allowed, the second at once. */
  lemma PlayTwoCalls(k: CopyKey, delay: int) returns (events: seq<Event>)
    requires 0 <= delay <= HOUR
    ensures var claims := Run(events).claims;
            && |claims| == 2 && claims[0].id == claims[1].id && claims[0].at == 0
            && claims[0].called == Some(delay) && claims[1].called == Some(HOUR)
  {
    WholeMillis(0);
    WholeMillis(delay);
    WholeMillis(HOUR);
    var s;
    s, events := Play(EMPTY, [], Queue(k, true, 0));
    s, events := PlayClaim(s, events, k, 0 * PrivateRelay.MS, delay * PrivateRelay.MS);
    s, events := PlayClaim(s, events, k, HOUR * PrivateRelay.MS, HOUR * PrivateRelay.MS);
  }

  lemma WholeMillis(t: int)
    ensures PrivateRelay.Millis(t * PrivateRelay.MS) == t
  {
  }

  /** An hour's spacing of the calls is not promised: a slow sweep can make its call of a row just
      before the next one does. */
  lemma CallsCanCoincide(k: CopyKey) returns (events: seq<Event>)
    ensures var claims := Run(events).claims;
            |claims| == 2 && claims[0].id == claims[1].id && claims[0].called == claims[1].called == Some(HOUR)
  {
    events := PlayTwoCalls(k, HOUR);
  }

  /** In every run, a call that is at most `delay` late comes before `grace` after its row expires. */
  ghost predicate CalledBefore(delay: int, grace: int) {
    forall events: seq<Event>, i: nat | i < |Run(events).claims| && Late(Run(events).claims, i, delay) ::
      Run(events).claims[i].called.value < Run(events).claims[i].expires + grace
  }

  /** And a call can come after the expiry of its row by as much as it is late. */
  lemma ExpiryIff(delay: int, grace: int)
    requires 0 <= delay
    ensures CalledBefore(delay, grace) <==> delay <= grace
  {
    if delay <= grace {
      forall events: seq<Event>, i: nat | i < |Run(events).claims| && Late(Run(events).claims, i, delay)
        ensures Run(events).claims[i].called.value < Run(events).claims[i].expires + grace
      {
        CallsHold(events, i, i, delay);
      }
    } else {
      var events := PlayLastMinute("", delay);
      assert Late(Run(events).claims, 0, delay);
    }
  }

  /** A row is claimed just before it expires, and its call is late. */
  lemma PlayLastMinute(k: CopyKey, delay: int) returns (events: seq<Event>)
    requires 0 <= delay
    ensures var claims := Run(events).claims;
            && |claims| == 1 && claims[0].expires == KEEP && claims[0].at == KEEP - 1
            && claims[0].called == Some(KEEP - 1 + delay)
  {
    WholeMillis(KEEP - 1);
    WholeMillis(KEEP - 1 + delay);
    var s;
    s, events := Play(EMPTY, [], Queue(k, true, 0));
    s, events := PlayClaim(s, events, k, (KEEP - 1) * PrivateRelay.MS, (KEEP - 1 + delay) * PrivateRelay.MS);
  }

  /** A row is gone for good once an attempt has succeeded or its third attempt has finished. */
  lemma FinishedRowsAreGone(events: seq<Event>, i: nat, succeeded: bool, later: seq<Event>, k: CopyKey)
    requires i < |Run(events).claims| && (succeeded || Run(events).claims[i].attempts == MAX_ATTEMPTS - 1)
    requires k in Run(events + [Finish(i, succeeded)] + later).rows
    ensures Run(events + [Finish(i, succeeded)] + later).rows[k].id != Run(events).claims[i].id
  {
    var done := events + [Finish(i, succeeded)];
    assert done[..|done| - 1] == events;
    assert Run(events).claims[i].id in Run(done).finished;
    FinishedStays(done, later, Run(events).claims[i].id);
    RunKeeps(done + later);
    assert RowInv(Run(done + later), k, Run(done + later).rows[k]);
  }

  lemma {:induction false} FinishedStays(events: seq<Event>, later: seq<Event>, id: nat)
    requires id in Run(events).finished
    ensures id in Run(events + later).finished
    decreases |later|
  {
    if later == [] {
      assert events + later == events;
    } else {
      FinishedStays(events, later[..|later| - 1], id);
      assert (events + later)[..|events + later| - 1] == events + later[..|later| - 1];
    }
  }

  // ---- The sweep --------------------------------------------------------------------------------------

  /** A candidate as it was read: its key and the attempts so far. */
  datatype Candidate = Candidate(key: CopyKey, attempts: nat)

  predicate Due(row: Row, now: int) {
    row.attempts < MAX_ATTEMPTS && row.after <= PrivateRelay.Millis(now) && row.next <= PrivateRelay.Millis(now)
    && row.expires > PrivateRelay.Millis(now)
  }

  ghost predicate Listed(candidates: seq<Candidate>, k: CopyKey) {
    exists c <- candidates :: c.key == k
  }

  /** Each candidate once, with its attempts, earliest due time first. */
  predicate InDueOrder(rows: map<CopyKey, Row>, candidates: seq<Candidate>) {
    && (forall c <- candidates :: c.key in rows && c.attempts == rows[c.key].attempts)
    && forall i, j :: 0 <= i < j < |candidates| ==>
         candidates[i].key != candidates[j].key && rows[candidates[i].key].after <= rows[candidates[j].key].after
  }

  lemma NextInOrder(rows: map<CopyKey, Row>, candidates: seq<Candidate>, k: CopyKey)
    requires InDueOrder(rows, candidates) && k in rows
    requires forall c <- candidates :: c.key != k && rows[c.key].after <= rows[k].after
    ensures InDueOrder(rows, candidates + [Candidate(k, rows[k].attempts)])
    ensures forall x :: Listed(candidates + [Candidate(k, rows[k].attempts)], x) <==> x == k || Listed(candidates, x)
  {
    var all := candidates + [Candidate(k, rows[k].attempts)];
    forall i | 0 <= i < |candidates|
      ensures all[i] in candidates
    {
    }
    assert all[|candidates|] in all;
    forall x
      ensures Listed(all, x) <==> x == k || Listed(candidates, x)
    {
      assert forall c :: c in all <==> c in candidates || c == Candidate(k, rows[k].attempts);
    }
  }

  class CleanupStore {
    var rows: map<CopyKey, Row>
    var nextID: nat
    ghost var claims: seq<Claim>
    ghost var finished: set<nat>

    constructor ()
      ensures View() == EMPTY
    {
      rows, nextID, claims, finished := map[], 0, [], {};
    }

    ghost function View(): State
      reads this
    {
      State(rows, claims, nextID, finished)
    }

    /** Only WhatsApp local copies are ever queued; a copy already queued is left alone. */
    method QueueCleanup(key: CopyKey, whatsApp: bool, after: int) returns (ok: bool)
      modifies this`rows, this`nextID
      ensures View() == Next(old(View()), Queue(key, whatsApp, PrivateRelay.Millis(after)))
      ensures ok <==> !whatsApp || key in rows
    {
      if !whatsApp {
        return true;
      }
      if key in rows {
        return true;
      }
      if |rows| >= PrivateRelay.RECORD_LIMIT {
        return false;
      }
      var due := PrivateRelay.Millis(after);
      rows := rows[key := Row(nextID, due, due + KEEP, 0, due)];
      nextID := nextID + 1;
      return true;
    }

    /** The due row with the earliest due time among the given keys. */
    method Earliest(keys: set<CopyKey>) returns (first: CopyKey)
      requires keys != {} && forall k <- keys :: k in rows
      ensures first in keys && forall k <- keys :: rows[first].after <= rows[k].after
    {
      var k :| k in keys;
      first := k;
      var rest := keys - {k};
      while rest != {}
        invariant rest <= keys && first in keys
        invariant forall x <- keys - rest :: rows[first].after <= rows[x].after
      {
        var x :| x in rest;
        if rows[x].after < rows[first].after {
          first := x;
        }
        rest := rest - {x};
      }
      assert keys - {} == keys;
    }

    /** DueCleanup: due rows in order of their due time, up to the limit; a row is left out only if
        that many earlier ones are due. */
    method DueCleanup(now: int, limit: nat) returns (candidates: seq<Candidate>)
      ensures |candidates| <= limit && InDueOrder(rows, candidates)
      ensures forall c <- candidates :: Due(rows[c.key], now)
      ensures forall k <- rows :: Due(rows[k], now) && !Listed(candidates, k) ==>
                |candidates| == limit && forall c <- candidates :: rows[c.key].after <= rows[k].after
    {
      candidates := [];
      var due := set k | k in rows && Due(rows[k], now);
      var rest := due;
      while rest != {} && |candidates| < limit
        invariant rest <= due && |candidates| <= limit && InDueOrder(rows, candidates)
        invariant forall c <- candidates :: c.key in due && c.key !in rest
        invariant forall c <- candidates, k <- rest :: rows[c.key].after <= rows[k].after
        invariant forall k <- due :: k in rest || Listed(candidates, k)
      {
        var k := Earliest(rest);
        NextInOrder(rows, candidates, k);
        candidates := candidates + [Candidate(k, rows[k].attempts)];
        rest := rest - {k};
      }
      assert forall k <- rows :: Due(rows[k], now) ==> k in due;
    }

    /** UPDATE .. WHERE candidate_key=? AND attempts=? AND attempts<3 AND .. */
    method BeginCleanup(c: Candidate, now: int) returns (claimed: bool)
      modifies this`rows, this`claims
      ensures View() == Next(old(View()), Begin(c.key, c.attempts, now))
      ensures claimed <==> Claims(old(rows), c.key, c.attempts, now)
    {
      claimed := c.key in rows && rows[c.key].attempts == c.attempts && c.attempts < MAX_ATTEMPTS
                 && rows[c.key].next <= PrivateRelay.Millis(now) && rows[c.key].expires > PrivateRelay.Millis(now);
      if claimed {
        var row := rows[c.key];
        claims := claims + [Claim(c.key, row.id, c.attempts, PrivateRelay.Millis(now), row.after, row.expires, None)];
        rows := rows[c.key := row.(attempts := row.attempts + 1, next := PrivateRelay.Millis(now) + HOUR)];
      }
    }

    /** `works`: the statement succeeds, if there is one. */
    method FinishCleanup(c: Candidate, succeeded: bool, works: bool, ghost claim: nat) returns (ok: bool)
      requires claim < |claims| && claims[claim].key == c.key && claims[claim].attempts == c.attempts
      modifies this`rows, this`finished
      ensures ok <==> works || !(succeeded || c.attempts >= 2)
      ensures View() == if ok then Next(old(View()), Finish(claim, succeeded)) else old(View())
      ensures ok && (succeeded || c.attempts >= 2) ==> rows == old(rows) - {c.key}
    {
      if succeeded || c.attempts >= 2 {
        if !works {
          return false;
        }
        rows := rows - {c.key};
        finished := finished + {claims[claim].id};
      }
      return true;
    }

    /** Prune, for the cleanup rows. */
    method PruneCandidates(now: int, limit: int, works: nat -> bool) returns (ok: bool, ghost gone: set<CopyKey>)
      modifies this`rows
      ensures View() == Next(old(View()), Prune(now, gone))
      ensures ok && |old(rows)| <= PrivateRelay.RECORD_LIMIT ==>
                forall k <- rows :: rows[k].expires > PrivateRelay.Millis(now)
      ensures !ok ==> exists batch: nat :: !works(batch)
    {
      var expiries := map k | k in rows :: rows[k].expires;
      assert expiries.Keys == rows.Keys;
      var left;
      ok, left := PrivateRelay.PruneTable(expiries, now, limit, works);
      gone := rows.Keys - left.Keys;
      rows := map k | k in rows && k in left :: rows[k];
    }

    /** The provider call of a claim. */
    ghost method RecordCall(claim: nat, now: int)
      requires claim < |claims|
      modifies this`claims
      ensures View() == Next(old(View()), Call(claim, now))
    {
      if claims[claim].called.None? && claims[claim].at <= PrivateRelay.Millis(now) {
        claims := claims[claim := claims[claim].(called := Some(PrivateRelay.Millis(now)))];
      }
    }

    /** After a claim: the provider call and, unless the process stops, what becomes of the row. */
    method AskProvider(c: Candidate, w: SweepWorld, crashes: bool, ghost claim: nat)
        returns (ok: bool, ghost events: seq<Event>)
      requires claim < |claims| && claims[claim].key == c.key && claims[claim].attempts == c.attempts
      requires claims[claim].called.None? && claims[claim].at <= PrivateRelay.Millis(w.clock(c.key))
      modifies this`rows, this`claims, this`finished
      ensures View() == RunFrom(old(View()), events)
      ensures claims ==
              old(claims)[claim := old(claims)[claim].(called := Some(PrivateRelay.Millis(w.clock(c.key))))]
      ensures ok <==> !crashes && (Removes(c, w) ==> w.finishes(c.key))
      ensures rows == if ok && Removes(c, w) then old(rows) - {c.key} else old(rows)
    {
      OneMore(View(), [], Call(claim, w.clock(c.key)));
      events := [] + [Call(claim, w.clock(c.key))];
      RecordCall(claim, w.clock(c.key));
      if crashes {
        return false, events;
      }
      ok := FinishCleanup(c, w.deletes(c.key), w.finishes(c.key), claim);
      if ok {
        OneMore(old(View()), events, Finish(claim, w.deletes(c.key)));
        events := events + [Finish(claim, w.deletes(c.key))];
      }
    }

    /** One candidate of a sweep. `ok`: no statement failed, and the process goes on. */
    method Attempt(c: Candidate, now: int, w: SweepWorld, crashes: bool)
        returns (claimed: bool, ok: bool, ghost events: seq<Event>)
      requires now <= w.clock(c.key)
      modifies this
      ensures View() == RunFrom(old(View()), events)
      ensures Attempted(old(View()), View(), c, now, w, crashes, claimed, ok)
    {
      if !w.begins(c.key) {
        return false, false, [];
      }
      OneMore(View(), [], Begin(c.key, c.attempts, now));
      events := [] + [Begin(c.key, c.attempts, now)];
      claimed := BeginCleanup(c, now);
      if !claimed {
        return false, true, events;
      }
      ghost var next;
      ok, next := AskProvider(c, w, crashes, |claims| - 1);
      RunConcat(old(View()), events, next);
      events := events + next;
    }

    /** The turn of the loop for the i-th candidate. */
    method SweepNext(candidates: seq<Candidate>, i: nat, calls: seq<CopyKey>, now: int, w: SweepWorld,
        ghost start: State)
        returns (ok: bool, asked: seq<CopyKey>, ghost events: seq<Event>)
      requires i < |candidates| && now <= w.clock(candidates[i].key)
      requires InDueOrder(start.rows, candidates) && forall c <- candidates :: Due(start.rows[c.key], now)
      requires Swept(start, View(), candidates[..i], calls, now, w)
      modifies this
      ensures View() == RunFrom(old(View()), events)
      ensures ok ==> Swept(start, View(), candidates[..i + 1], asked, now, w)
      ensures !ok ==> SweepsTo(start, View(), candidates, i, asked, now, w, false)
    {
      ghost var before := View();
      NextIsDue(start, before, candidates, i, calls, now, w);
      var claimed;
      claimed, ok, events := Attempt(candidates[i], now, w, |calls| == w.lifetime);
      if ok {
        AttemptSweeps(start, before, View(), candidates, i, calls, now, w, claimed);
      } else {
        StopsAt(start, before, View(), candidates, i, calls, now, w, claimed);
      }
      asked := if claimed then calls + [candidates[i].key] else calls;
    }

    /** The loop over the candidates. `m`: how many of them it goes on from. */
    method SweepAll(candidates: seq<Candidate>, now: int, w: SweepWorld)
        returns (ok: bool, calls: seq<CopyKey>, ghost events: seq<Event>, ghost m: nat)
      requires forall k :: w.clock(k) >= now
      requires InDueOrder(rows, candidates) && forall c <- candidates :: Due(rows[c.key], now)
      modifies this
      ensures View() == RunFrom(old(View()), events)
      ensures SweepsTo(old(View()), View(), candidates, m, calls, now, w, ok)
    {
      calls, events, m := [], [], 0;
      ghost var start := View();
      var failed := false;
      for i := 0 to |candidates|
        invariant View() == RunFrom(start, events)
        invariant Swept(start, View(), candidates[..i], calls, now, w)
        invariant failed <==> !AllRemoved(candidates[..i], w)
      {
        ghost var next;
        ok, calls, next := SweepNext(candidates, i, calls, now, w, start);
        RunConcat(start, events, next);
        events := events + next;
        if !ok {
          m := i;
          return;
        }
        failed := failed || !w.deletes(candidates[i].key);
        AllRemovedNext(candidates, i, w);
      }
      ok, m := !failed, |candidates|;
      ComesThrough(start, View(), candidates, calls, now, w);
    }

    /** The sweep. Every provider call has its own claim, made before it at the sweep's start time,
        wherever a statement fails or the process stops. A sweep without an error has removed every copy
        it asked for, and unless its limit was reached nothing is due any more. `read`: it gets as far as
        the loop, from `start` on with the batch. */
    method Sweep(now: int, w: SweepWorld)
        returns (ok: bool, calls: seq<CopyKey>, ghost events: seq<Event>, ghost read: bool, ghost start: State,
        ghost batch: seq<Candidate>, ghost m: nat)
      requires forall k :: w.clock(k) >= now
      modifies this
      ensures View() == RunFrom(old(View()), events)
      ensures Paired(old(claims), claims, calls, now, w.clock) && |calls| <= SWEEP_LIMIT
      ensures ok ==> forall k <- calls :: w.deletes(k) && k !in rows
      ensures ok && |calls| < SWEEP_LIMIT ==> forall k <- rows :: !Due(rows[k], now)
      ensures !read ==> !ok && calls == []
                        && (!w.prunesBefore || !w.prunesAfter || !w.lists || exists b: nat :: !w.prunes(b))
      ensures read ==> SweepsTo(start, View(), batch, m, calls, now, w, ok)
      ensures read ==> w.prunesBefore && w.prunesAfter && w.lists && OnlyExpiredGo(old(rows), start.rows, now)
                       && InDueOrder(start.rows, batch) && (forall c <- batch :: Due(start.rows[c.key], now))
    {
      calls, events, read, start, batch, m := [], [], false, View(), [], 0;
      if !w.prunesBefore {
        ok := false;
        return;
      }
      ghost var gone;
      ok, gone := PruneCandidates(now, SWEEP_LIMIT, w.prunes);
      OneMore(old(View()), [], Prune(now, gone));
      events := [] + [Prune(now, gone)];
      if !ok || !w.prunesAfter || !w.lists {
        ok := false;
        return;
      }
      var candidates := DueCleanup(now, SWEEP_LIMIT);
      ghost var next;
      read, start, batch := true, View(), candidates;
      ok, calls, next, m := SweepAll(candidates, now, w);
      RunConcat(old(View()), events, next);
      events := events + next;
      SweptAll(start, View(), candidates, m, calls, now, w, ok);
      if ok && |calls| < SWEEP_LIMIT { NothingDue(start.rows, rows, candidates, now, w); }
    }
  }

  /** What befalls a sweep: whether the pruning of the tables before and after the cleanup rows works and
      the reading of the due rows, which other statements and which provider calls succeed, when the calls
      are made, and the number of calls after which the process stops. */
  datatype SweepWorld = SweepWorld(
    prunesBefore: bool, prunes: nat -> bool, prunesAfter: bool, lists: bool, begins: CopyKey -> bool,
    deletes: CopyKey -> bool, finishes: CopyKey -> bool, clock: CopyKey -> int, lifetime: nat)

  function Keys(candidates: seq<Candidate>): seq<CopyKey> {
    seq(|candidates|, i requires 0 <= i < |candidates| => candidates[i].key)
  }

  /** The row goes, if the statement works: the copy is removed, or it was the third attempt. */
  predicate Removes(c: Candidate, w: SweepWorld) {
    w.deletes(c.key) || c.attempts >= 2
  }

  /** The i-th candidate does not end the sweep: its statements work, and the process goes on. A copy that
      cannot be removed does not end it. */
  predicate Proceeds(c: Candidate, i: nat, w: SweepWorld) {
    w.begins(c.key) && i != w.lifetime && (Removes(c, w) ==> w.finishes(c.key))
  }

  /** Pruning. */
  predicate OnlyExpiredGo(before: map<CopyKey, Row>, rows: map<CopyKey, Row>, now: int) {
    && (forall k <- rows :: k in before && rows[k] == before[k])
    && forall k <- before :: before[k].expires > PrivateRelay.Millis(now) ==> k in rows
  }

  /** What one candidate of a sweep comes to. */
  ghost predicate Attempted(s: State, s': State, c: Candidate, now: int, w: SweepWorld, crashes: bool, claimed: bool,
        ok: bool) {
    && (claimed <==> w.begins(c.key) && Claims(s.rows, c.key, c.attempts, now))
    && (claimed ==> |s'.claims| == |s.claims| + 1 && s.claims <= s'.claims
                    && CallAt(s'.claims[|s.claims|], c.key, now, w.clock(c.key)))
    && (claimed ==> s'.rows == if ok && Removes(c, w) then s.rows - {c.key}
                               else s.rows[c.key := Claimed(s.rows[c.key], now)])
    && (!claimed ==> s'.claims == s.claims && s'.rows == s.rows)
    && (ok <==> w.begins(c.key) && (claimed ==> !crashes && (Removes(c, w) ==> w.finishes(c.key))))
  }

  /** The rows after the given candidates: those to be removed are gone, the others of them claimed, and no
      other row has changed. */
  ghost predicate SweptRows(before: map<CopyKey, Row>, rows: map<CopyKey, Row>, seen: seq<Candidate>, now: int,
        w: SweepWorld) {
    && (forall c <- seen :: c.key in before && (c.key in rows <==> !Removes(c, w)))
    && (forall c <- seen :: c.key in rows && c.key in before ==> rows[c.key] == Claimed(before[c.key], now))
    && (forall k <- rows :: k in before && (Listed(seen, k) || rows[k] == before[k]))
    && (forall k <- before :: k in rows || Listed(seen, k))
  }

  /** What a sweep has done after the given candidates, if it goes on. */
  ghost predicate Swept(start: State, s: State, seen: seq<Candidate>, calls: seq<CopyKey>, now: int, w: SweepWorld) {
    && Paired(start.claims, s.claims, calls, now, w.clock) && calls == Keys(seen)
    && (forall i | 0 <= i < |seen| :: Proceeds(seen[i], i, w))
    && SweptRows(start.rows, s.rows, seen, now, w)
  }

  /** The provider has removed every copy it was asked for. */
  predicate AllRemoved(candidates: seq<Candidate>, w: SweepWorld) {
    forall c <- candidates :: w.deletes(c.key)
  }

  lemma AllRemovedNext(candidates: seq<Candidate>, i: nat, w: SweepWorld)
    requires i < |candidates|
    ensures AllRemoved(candidates[..i + 1], w) <==> AllRemoved(candidates[..i], w) && w.deletes(candidates[i].key)
  {
    assert candidates[..i + 1] == candidates[..i] + [candidates[i]];
  }

  /** What a sweep of the candidates has done at its end. It asks for each of them in turn, whether or not the
      ones before could be removed, until a statement fails or the process stops; it succeeds exactly if it
      comes through and every copy could be removed. Where it stops, the row is claimed if it came to that. */
  ghost predicate SweepsTo(start: State, s: State, candidates: seq<Candidate>, m: nat, calls: seq<CopyKey>, now: int,
        w: SweepWorld, ok: bool) {
    && m <= |candidates| && (forall i | 0 <= i < m :: Proceeds(candidates[i], i, w))
    && Paired(start.claims, s.claims, calls, now, w.clock)
    && (m == |candidates| ==>
          && calls == Keys(candidates) && SweptRows(start.rows, s.rows, candidates, now, w)
          && (ok <==> AllRemoved(candidates, w)))
    && (m < |candidates| ==>
          var c := candidates[m];
          && !ok && !Proceeds(c, m, w)
          && calls == Keys(candidates[..m]) + (if w.begins(c.key) then [c.key] else [])
          && c.key in start.rows && c.key in s.rows
          && s.rows[c.key] == (if w.begins(c.key) then Claimed(start.rows[c.key], now) else start.rows[c.key])
          && SweptRows(start.rows - {c.key}, s.rows - {c.key}, candidates[..m], now, w))
  }

  /** The next candidate is as it was read. */
  lemma NextIsDue(start: State, s: State, candidates: seq<Candidate>, i: nat, calls: seq<CopyKey>, now: int,
        w: SweepWorld)
    requires i < |candidates| && InDueOrder(start.rows, candidates)
    requires forall c <- candidates :: Due(start.rows[c.key], now)
    requires Swept(start, s, candidates[..i], calls, now, w)
    ensures var c := candidates[i];
            !Listed(candidates[..i], c.key) && c.key in start.rows && c.key in s.rows
            && s.rows[c.key] == start.rows[c.key] && Claims(s.rows, c.key, c.attempts, now) && |calls| == i
  {
    var c := candidates[i];
    assert c in candidates;
    forall d | d in candidates[..i] ensures d.key != c.key {
      var j :| 0 <= j < i && candidates[..i][j] == d;
      assert candidates[j].key != candidates[i].key;
    }
  }

  /** The turn of the loop for the i-th candidate, after which it goes on. */
  lemma AttemptSweeps(start: State, s: State, s': State, candidates: seq<Candidate>, i: nat, calls: seq<CopyKey>,
        now: int, w: SweepWorld, claimed: bool)
    requires i < |candidates| && InDueOrder(start.rows, candidates)
    requires forall c <- candidates :: Due(start.rows[c.key], now)
    requires Swept(start, s, candidates[..i], calls, now, w)
    requires Attempted(s, s', candidates[i], now, w, |calls| == w.lifetime, claimed, true)
    ensures claimed && Swept(start, s', candidates[..i + 1], calls + [candidates[i].key], now, w)
  {
    var c, seen := candidates[i], candidates[..i];
    NextIsDue(start, s, candidates, i, calls, now, w);
    PairedSnoc(start.claims, s.claims, s'.claims, calls, c.key, now, w.clock);
    RowsSnoc(start.rows, s.rows, s'.rows, seen, c, now, w);
    ProceedsSnoc(seen, c, w);
    assert candidates[..i + 1] == seen + [c];
  }

  lemma ProceedsSnoc(seen: seq<Candidate>, c: Candidate, w: SweepWorld)
    requires (forall i | 0 <= i < |seen| :: Proceeds(seen[i], i, w)) && Proceeds(c, |seen|, w)
    ensures forall i | 0 <= i < |seen + [c]| :: Proceeds((seen + [c])[i], i, w)
    ensures Keys(seen + [c]) == Keys(seen) + [c.key]
  {
  }

  lemma RowsSnoc(before: map<CopyKey, Row>, rows: map<CopyKey, Row>, rows': map<CopyKey, Row>, seen: seq<Candidate>,
        c: Candidate, now: int, w: SweepWorld)
    requires SweptRows(before, rows, seen, now, w) && !Listed(seen, c.key)
    requires c.key in before && c.key in rows && rows[c.key] == before[c.key]
    requires rows' == if Removes(c, w) then rows - {c.key} else rows[c.key := Claimed(rows[c.key], now)]
    ensures SweptRows(before, rows', seen + [c], now, w)
  {
    assert forall k :: Listed(seen + [c], k) <==> Listed(seen, k) || k == c.key by {
      assert c in seen + [c] && forall x <- seen :: x in seen + [c];
    }
  }

  /** The turn of the loop that ends it. */
  lemma StopsAt(start: State, s: State, s': State, candidates: seq<Candidate>, i: nat, calls: seq<CopyKey>,
        now: int, w: SweepWorld, claimed: bool)
    requires i < |candidates| && InDueOrder(start.rows, candidates)
    requires forall c <- candidates :: Due(start.rows[c.key], now)
    requires Swept(start, s, candidates[..i], calls, now, w)
    requires Attempted(s, s', candidates[i], now, w, |calls| == w.lifetime, claimed, false)
    ensures SweepsTo(start, s', candidates, i, if claimed then calls + [candidates[i].key] else calls, now, w, false)
  {
    var c := candidates[i];
    NextIsDue(start, s, candidates, i, calls, now, w);
    if claimed { PairedSnoc(start.claims, s.claims, s'.claims, calls, c.key, now, w.clock); }
    assert s'.rows - {c.key} == s.rows - {c.key};
    RowsWithout(start.rows, s.rows, candidates[..i], c.key, now, w);
    forall j | 0 <= j < i ensures Proceeds(candidates[j], j, w) {
      assert candidates[..i][j] == candidates[j];
    }
  }

  lemma RowsWithout(before: map<CopyKey, Row>, rows: map<CopyKey, Row>, seen: seq<Candidate>, key: CopyKey, now: int,
        w: SweepWorld)
    requires SweptRows(before, rows, seen, now, w) && !Listed(seen, key)
    ensures SweptRows(before - {key}, rows - {key}, seen, now, w)
  {
  }

  lemma ComesThrough(start: State, s: State, candidates: seq<Candidate>, calls: seq<CopyKey>, now: int, w: SweepWorld)
    requires Swept(start, s, candidates[..|candidates|], calls, now, w)
    ensures candidates[..|candidates|] == candidates
    ensures SweepsTo(start, s, candidates, |candidates|, calls, now, w, AllRemoved(candidates, w))
  {
    assert candidates[..|candidates|] == candidates;
  }

  lemma SweptAll(start: State, s: State, candidates: seq<Candidate>, m: nat, calls: seq<CopyKey>, now: int,
        w: SweepWorld, ok: bool)
    requires SweepsTo(start, s, candidates, m, calls, now, w, ok)
    ensures |calls| <= |candidates|
    ensures ok ==> m == |candidates| && forall k <- calls :: w.deletes(k) && k !in s.rows
  {
    if ok {
      forall k | k in calls ensures w.deletes(k) && k !in s.rows {
        var i :| 0 <= i < |calls| && calls[i] == k;
        assert candidates[i] in candidates && candidates[i].key == k;
      }
    }
  }

  lemma NothingDue(before: map<CopyKey, Row>, rows: map<CopyKey, Row>, candidates: seq<Candidate>, now: int,
        w: SweepWorld)
    requires SweptRows(before, rows, candidates, now, w) && AllRemoved(candidates, w)
    requires forall k <- before :: Due(before[k], now) ==> Listed(candidates, k)
    ensures forall k <- rows :: !Due(rows[k], now)
  {
    assert forall c <- candidates :: Removes(c, w) && c.key !in rows;
  }

  /** The claims made since, one for each provider call. */
  ghost predicate Paired(before: seq<Claim>, claims: seq<Claim>, calls: seq<CopyKey>, now: int, clock: CopyKey -> int) {
    && before <= claims && |claims| == |before| + |calls|
    && forall i | 0 <= i < |calls| :: CallAt(claims[|before| + i], calls[i], now, clock(calls[i]))
  }

  lemma PairedSnoc(before: seq<Claim>, claims: seq<Claim>, next: seq<Claim>, calls: seq<CopyKey>, key: CopyKey,
        now: int, clock: CopyKey -> int)
    requires Paired(before, claims, calls, now, clock) && claims <= next && |next| == |claims| + 1
    requires CallAt(next[|claims|], key, now, clock(key))
    ensures Paired(before, next, calls + [key], now, clock)
  {
  }

  lemma {:induction false} RunConcat(s: State, a: seq<Event>, b: seq<Event>)
    ensures RunFrom(s, a + b) == RunFrom(RunFrom(s, a), b)
    decreases |b|
  {
    if b == [] {
      assert a + b == a;
    } else {
      assert (a + b)[..|a + b| - 1] == a + b[..|b| - 1];
      RunConcat(s, a, b[..|b| - 1]);
    }
  }

  /** The claim made at the start of the sweep for a provider call. */
  predicate CallAt(c: Claim, key: CopyKey, now: int, called: int) {
    c.key == key && c.at == PrivateRelay.Millis(now) && c.called == Some(PrivateRelay.Millis(called))
  }
}
