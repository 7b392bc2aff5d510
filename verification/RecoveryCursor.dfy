/** The recovery coordinator's cursor of one stream (internal/recovery/coordinator.go) and
    its persisted row (PutRecoveryCursor). */
module RecoveryCursor {
  import opened Wrappers
  import opened Collections

  /** What router.HandleEvent reports for an event. */
  datatype Outcome = Outcome(accepted: bool, noOp: bool, safeToAdvance: bool) | RouterError

  datatype Verdict = Blocks | Leaves | Acks

  predicate Fails(o: Outcome) {
    o.RouterError? || !o.accepted
  }

  predicate Waits(o: Outcome) {
    !Fails(o) && !o.safeToAdvance
  }

  predicate Acknowledges(o: Outcome) {
    !Fails(o) && o.safeToAdvance && !o.noOp
  }

  datatype Row = Row(position: int, timestamp: int)

  /** loaded, cursor, acked, failed and pending live in memory; saved is persisted. */
  datatype Stream = Stream(
    loaded: bool, cursor: int, acked: map<int, int>, failed: set<int>, pending: map<int, int>, saved: Option<Row>)
  {
    function Saved(): int {
      if saved.Some? then saved.value.position else 0
    }

    function Blockers(): set<int> {
      failed + pending.Keys
    }

    /** Acknowledged positions beyond the cursor with no blocker at or below them. */
    function Frontier(): set<int> {
      set p | p in acked && cursor < p && forall b <- Blockers() :: p < b
    }
  }

  /** ON CONFLICT .. DO UPDATE .. WHERE excluded.position > recovery_cursors.position */
  function Put(saved: Option<Row>, row: Row): Option<Row> {
    if saved.None? || row.position > saved.value.position then Some(row) else saved
  }

  /** Move the cursor to an acknowledged position, the durable write first. */
  function Take(s: Stream, p: int): Stream
    requires p in s.acked
  {
    s.(cursor := p, acked := s.acked - {p}, saved := Put(s.saved, Row(p, s.acked[p])))
  }

  /** Take the frontier from below, one durable write each; `puts` writes succeed. */
  ghost function Advance(s: Stream, puts: nat): (Stream, bool)
    decreases puts
  {
    if s.Frontier() == {} then (s, true)
    else if puts == 0 then (s, false)
    else
      var p := Least(s.Frontier());
      Advance(Take(s, p), puts - 1)
  }

  /** `loads`: reading the saved cursor works; `puts`: how many cursor writes work. */
  datatype Event = Deliver(position: int, timestamp: int, outcome: Outcome, loads: bool, puts: nat) | Crash

  function Load(s: Stream): Stream {
    if s.loaded then s else s.(loaded := true, cursor := s.Saved())
  }

  predicate Routed(s: Stream, e: Event) {
    e.Deliver? && (s.loaded || e.loads) && Load(s).cursor < e.position
  }

  function Acknowledge(s: Stream, p: int, timestamp: int): Stream {
    s.(acked := s.acked[p := timestamp], failed := s.failed - {p}, pending := s.pending - {p})
  }

  ghost function Next(s: Stream, e: Event): Stream {
    match e
    case Crash => Stream(false, 0, map[], {}, map[], s.saved)
    case Deliver(p, timestamp, outcome, loads, puts) =>
      if !s.loaded && !loads then s
      else if !Routed(s, e) then Load(s)
      else if Fails(outcome) then Load(s).(failed := s.failed + {p})
      else if Waits(outcome) then Load(s).(pending := s.pending[p := timestamp])
      else if !Acknowledges(outcome) then Load(s)
      else Advance(Acknowledge(Load(s), p, timestamp), puts).0
  }

  ghost function Run(saved: Option<Row>, events: seq<Event>): Stream
    decreases |events|
  {
    if events == [] then Stream(false, 0, map[], {}, map[], saved)
    else Next(Run(saved, events[..|events| - 1]), events[|events| - 1])
  }

  /** Positions that failed or were pending in this process and were not acknowledged
      since, read off the events alone. */
  ghost function Open(saved: Option<Row>, events: seq<Event>): set<int>
    decreases |events|
  {
    if events == [] then {}
    else
      var before, e := events[..|events| - 1], events[|events| - 1];
      var open := Open(saved, before);
      if e.Crash? then {}
      else if !Routed(Run(saved, before), e) then open
      else if Fails(e.outcome) || Waits(e.outcome) then open + {e.position}
      else if Acknowledges(e.outcome) then open - {e.position}
      else open
  }

  predicate Inv(s: Stream) {
    && 0 <= s.cursor
    && (s.saved.Some? ==> 0 <= s.saved.value.position)
    && (if s.loaded then s.cursor == s.Saved() else s.cursor == 0 && s.acked == map[] && s.Blockers() == {})
    && (forall b <- s.Blockers() :: s.cursor < b)
    && (forall p <- s.acked :: s.cursor < p)
  }

  lemma TakeKeeps(s: Stream, p: int)
    requires Inv(s) && s.loaded && s.Frontier() != {} && p == Least(s.Frontier())
    ensures var r := Take(s, p);
            && Inv(r) && r.Frontier() <= s.Frontier()
            && forall q :: q in r.acked <==> q in s.acked && p < q
  {
    forall q <- s.acked | q <= p ensures q == p {
      assert q in s.Frontier();
    }
  }

  /** What Advance does to a stream that satisfies the invariant, whether or not every
      write works: only cursor, acked and saved move, and everything stays below the
      blockers. */
  lemma {:induction false} AdvanceKeeps(s: Stream, puts: nat)
    requires Inv(s) && s.loaded
    ensures Kept(s, Advance(s, puts).0)
    ensures Advance(s, puts).1 ==> Advance(s, puts).0.Frontier() == {}
    decreases puts
  {
    if s.Frontier() != {} && puts > 0 {
      var p := Least(s.Frontier());
      TakeKeeps(s, p);
      AdvanceKeeps(Take(s, p), puts - 1);
      assert Advance(s, puts) == Advance(Take(s, p), puts - 1);
      KeptTake(s, p, Advance(s, puts).0);
    }
  }

  predicate Kept(s: Stream, r: Stream) {
    && Inv(r) && r.loaded && r.failed == s.failed && r.pending == s.pending
    && s.cursor <= r.cursor
    && (r.cursor == s.cursor || r.cursor in s.Frontier())
    && (forall p <- r.acked :: p in s.acked)
    && (forall p <- s.acked :: p in r.acked <==> r.cursor < p)
  }

  lemma KeptTake(s: Stream, p: int, r: Stream)
    requires Inv(s) && s.loaded && s.Frontier() != {} && p == Least(s.Frontier())
    requires Kept(Take(s, p), r)
    ensures Kept(s, r)
  {
    TakeKeeps(s, p);
  }

  /** Maximality: after an advance whose writes all work, the cursor is the largest
      acknowledged position below every blocker, or has not moved because there is none;
      and exactly the acknowledged positions up to it are used up. */
  lemma AdvanceMaximal(s: Stream, puts: nat)
    requires Inv(s) && s.loaded && Advance(s, puts).1
    ensures var r := Advance(s, puts).0;
            && (forall p <- s.acked :: (forall b <- s.Blockers() :: p < b) ==> p <= r.cursor)
            && (r.cursor == s.cursor || (r.cursor in s.acked && forall b <- s.Blockers() :: r.cursor < b))
            && r.acked.Keys == set p | p in s.acked && r.cursor < p
  {
    AdvanceKeeps(s, puts);
    var r := Advance(s, puts).0;
    forall p <- s.acked | forall b <- s.Blockers() :: p < b ensures p <= r.cursor {
      assert p in r.Frontier() <==> p in r.acked && r.cursor < p && forall b <- r.Blockers() :: p < b;
    }
  }

  lemma AcknowledgeKeeps(s: Stream, p: int, timestamp: int)
    requires Inv(s) && s.loaded && s.cursor < p
    ensures Inv(Acknowledge(s, p, timestamp))
    ensures Acknowledge(s, p, timestamp).Blockers() == s.Blockers() - {p}
  {
    var r := Acknowledge(s, p, timestamp);
    forall b ensures b in r.Blockers() <==> b in s.Blockers() - {p} {}
  }

  /** Failed and waiting deliveries each add their position to the blockers. */
  lemma BlockRecorded(s: Stream, e: Event)
    ensures e.Deliver? ==> s.(failed := s.failed + {e.position}).Blockers() == s.Blockers() + {e.position}
    ensures e.Deliver? ==> s.(pending := s.pending[e.position := e.timestamp]).Blockers() == s.Blockers() + {e.position}
  {
    if e.Deliver? {
      assert s.pending[e.position := e.timestamp].Keys == s.pending.Keys + {e.position};
    }
  }

  lemma NextInv(s: Stream, e: Event)
    requires Inv(s)
    ensures Inv(Next(s, e))
    ensures Next(s, e).Saved() >= s.Saved()
    ensures e.Deliver? && s.loaded ==> Next(s, e).loaded && Next(s, e).cursor >= s.cursor
  {
    BlockRecorded(Load(s), e);
    if Routed(s, e) && Acknowledges(e.outcome) {
      AcknowledgeKeeps(Load(s), e.position, e.timestamp);
      AdvanceKeeps(Acknowledge(Load(s), e.position, e.timestamp), e.puts);
    }
  }

  /** The maps of a stream hold exactly the open positions. */
  lemma NextBlockers(s: Stream, e: Event)
    requires Inv(s) && Routed(s, e)
    ensures Next(s, e).Blockers() ==
            if Fails(e.outcome) || Waits(e.outcome) then s.Blockers() + {e.position}
            else if Acknowledges(e.outcome) then s.Blockers() - {e.position}
            else s.Blockers()
  {
    BlockRecorded(Load(s), e);
    if Acknowledges(e.outcome) {
      AcknowledgeKeeps(Load(s), e.position, e.timestamp);
      AdvanceKeeps(Acknowledge(Load(s), e.position, e.timestamp), e.puts);
    }
  }

  lemma {:induction false} RunInv(saved: Option<Row>, events: seq<Event>)
    requires saved.Some? ==> 0 <= saved.value.position
    ensures Inv(Run(saved, events))
    ensures Run(saved, events).Blockers() == Open(saved, events)
    decreases |events|
  {
    if events != [] {
      var before, e := events[..|events| - 1], events[|events| - 1];
      RunInv(saved, before);
      NextInv(Run(saved, before), e);
      if Routed(Run(saved, before), e) {
        NextBlockers(Run(saved, before), e);
      }
    }
  }

  /** Over every run of deliveries, lost writes and crashes: both the cursor and the
      persisted position stay strictly below every position that failed or was pending in
      this process and has not been acknowledged since, acknowledged leftovers stay above
      the cursor, and the persisted position never moves back. */
  lemma CursorStaysBelowOpenWork(saved: Option<Row>, events: seq<Event>, e: Event)
    requires saved.Some? ==> 0 <= saved.value.position
    ensures var s := Run(saved, events);
            && (forall b <- Open(saved, events) :: s.cursor < b && s.Saved() < b)
            && (forall p <- s.acked :: s.cursor < p)
            && s.Saved() <= Next(s, e).Saved()
            && (e.Deliver? && s.loaded ==> s.cursor <= Next(s, e).cursor)
  {
    RunInv(saved, events);
    NextInv(Run(saved, events), e);
  }

  /** The same bound at every crash point inside an advance: whichever write is the last
      to work, what is on disk is below all open work. */
  lemma CrashPointsAreSafe(s: Stream, puts: nat)
    requires Inv(s) && s.loaded
    ensures forall b <- s.Blockers() :: Advance(s, puts).0.Saved() < b
  {
    AdvanceKeeps(s, puts);
  }

  // ---- What is persisted ----------------------------------------------------------------------------

  /** Some delivery of the position was acknowledged, with this timestamp. */
  ghost predicate AckedBy(events: seq<Event>, row: Row) {
    exists e <- events :: e.Deliver? && Acknowledges(e.outcome) && e.position == row.position
                          && e.timestamp == row.timestamp
  }

  /** An advance persists what was acknowledged, or nothing. */
  lemma {:induction false} AdvanceSaves(s: Stream, puts: nat)
    ensures var r := Advance(s, puts).0;
            && (forall p <- r.acked :: p in s.acked && r.acked[p] == s.acked[p])
            && (r.saved == s.saved || exists p <- s.acked :: r.saved == Some(Row(p, s.acked[p])))
    decreases puts
  {
    if s.Frontier() != {} && puts > 0 {
      var p := Least(s.Frontier());
      assert p in s.Frontier();
      AdvanceSaves(Take(s, p), puts - 1);
    }
  }

  ghost predicate Sourced(saved: Option<Row>, events: seq<Event>, s: Stream) {
    && (forall p <- s.acked :: AckedBy(events, Row(p, s.acked[p])))
    && (s.saved == saved || (s.saved.Some? && AckedBy(events, s.saved.value)))
  }

  lemma SourcedNext(saved: Option<Row>, events: seq<Event>, s: Stream, e: Event)
    requires Sourced(saved, events, s)
    ensures Sourced(saved, events + [e], Next(s, e))
  {
    assert forall row :: AckedBy(events, row) ==> AckedBy(events + [e], row);
    if e.Deliver? && Routed(s, e) && Acknowledges(e.outcome) {
      var a := Acknowledge(Load(s), e.position, e.timestamp);
      assert AckedBy(events + [e], Row(e.position, e.timestamp)) by { assert e in events + [e]; }
      AdvanceSaves(a, e.puts);
      assert forall p <- a.acked :: AckedBy(events + [e], Row(p, a.acked[p]));
    }
  }

  /** In every run, what is persisted is what was persisted at first, or the position and the timestamp of
      an acknowledged delivery. */
  lemma {:induction false} SavedIsAcknowledged(saved: Option<Row>, events: seq<Event>)
    ensures Sourced(saved, events, Run(saved, events))
    decreases |events|
  {
    if events != [] {
      var before, e := events[..|events| - 1], events[|events| - 1];
      SavedIsAcknowledged(saved, before);
      SourcedNext(saved, before, Run(saved, before), e);
      assert events == before + [e];
    }
  }

  // ---- What a failed event that was not routed costs ------------------------------------------------

  /** A failing delivery leaves its position blocked exactly if it was blocked already or the event
      was routed: not if the cursor could not be loaded, or has passed it. */
  lemma FailureBlocksIff(s: Stream, e: Event)
    requires Inv(s) && e.Deliver? && Fails(e.outcome)
    ensures e.position in Next(s, e).Blockers() <==> e.position in s.Blockers() || Routed(s, e)
  {
    if Routed(s, e) {
      NextBlockers(s, e);
    }
  }

  /** The stream after more events. */
  ghost function From(s: Stream, events: seq<Event>): Stream
    decreases |events|
  {
    if events == [] then s else From(Next(s, events[0]), events[1..])
  }

  lemma {:induction false} RunGoesOn(saved: Option<Row>, events: seq<Event>, more: seq<Event>)
    ensures From(Run(saved, events), more) == Run(saved, events + more)
    decreases |more|
  {
    if more == [] {
      assert events + more == events;
    } else {
      assert (events + [more[0]])[..|events|] == events;
      assert events + more == (events + [more[0]]) + more[1..];
      RunGoesOn(saved, events + [more[0]], more[1..]);
    }
  }

  lemma {:induction false} FromConcat(s: Stream, a: seq<Event>, b: seq<Event>)
    ensures From(s, a + b) == From(From(s, a), b)
    decreases |a|
  {
    if a == [] {
      assert a + b == b;
    } else {
      DropConcat(a, b, 1);
      FromConcat(Next(s, a[0]), a[1..], b);
    }
  }

  /** A delivery, not an acknowledgement of p. */
  predicate PassesOver(e: Event, p: int) {
    e.Deliver? && !(e.position == p && Acknowledges(e.outcome))
  }

  ghost predicate AllPassOver(events: seq<Event>, p: int) {
    forall e <- events :: PassesOver(e, p)
  }

  /** Without a crash and without an acknowledgement of p the cursor can reach or pass p. */
  ghost predicate CanPass(s: Stream, p: int) {
    exists events: seq<Event> :: AllPassOver(events, p) && p <= From(s, events).cursor
  }

  lemma {:induction false} BlockedStays(s: Stream, events: seq<Event>, p: int)
    requires Inv(s) && p in s.Blockers() && AllPassOver(events, p)
    ensures Inv(From(s, events)) && p in From(s, events).Blockers()
    decreases |events|
  {
    if events != [] {
      assert events[0] in events && forall e <- events[1..] :: e in events;
      NextInv(s, events[0]);
      if Routed(s, events[0]) {
        NextBlockers(s, events[0]);
      }
      BlockedStays(Next(s, events[0]), events[1..], p);
    }
  }

  function Ack(p: int, puts: nat): Event {
    Deliver(p, 0, Outcome(true, false, true), true, puts)
  }

  /** With enough writes an advance comes to its end. */
  lemma {:induction false} EnoughPuts(s: Stream, puts: nat)
    requires Inv(s) && s.loaded && puts >= |s.Frontier()|
    ensures Advance(s, puts).1
    decreases puts
  {
    if s.Frontier() != {} {
      var p := Least(s.Frontier());
      TakeKeeps(s, p);
      assert p !in Take(s, p).Frontier();
      Smaller(Take(s, p).Frontier(), s.Frontier(), p);
      if puts > 0 {
        EnoughPuts(Take(s, p), puts - 1);
      }
    }
  }

  lemma Smaller(a: set<int>, b: set<int>, x: int)
    requires a <= b && x in b && x !in a
    ensures |a| < |b|
  {
    assert b == (b - {x}) + {x};
    Within(a, b - {x});
  }

  lemma {:induction false} Within(a: set<int>, b: set<int>)
    requires a <= b
    ensures |a| <= |b|
    decreases |a|
  {
    if a != {} {
      Inhabited(a);
      var x :| x in a;
      Within(a - {x}, b - {x});
    }
  }

  /** The advance after an acknowledgement, if all its writes work. */
  lemma AckAdvances(s: Stream, q: int) returns (puts: nat)
    requires Inv(s) && s.loaded && s.cursor < q
    ensures var s' := Advance(Acknowledge(s, q, 0), puts).0;
            && Inv(s') && s'.loaded && s.cursor <= s'.cursor && s'.Blockers() == s.Blockers() - {q}
            && ((forall b <- s.Blockers() :: b == q || q < b) ==> q <= s'.cursor)
  {
    var acked := Acknowledge(s, q, 0);
    AcknowledgeKeeps(s, q, 0);
    puts := |acked.Frontier()|;
    EnoughPuts(acked, puts);
    AdvanceKeeps(acked, puts);
    AdvanceMaximal(acked, puts);
    assert q in acked.acked;
    assert (forall b <- s.Blockers() :: b == q || q < b) ==> forall b <- acked.Blockers() :: q < b;
  }

  /** Acknowledge a position that is routed, and advance as far as that goes. */
  lemma PlayAck(s: Stream, q: int) returns (e: Event, s': Stream)
    requires Inv(s) && Load(s).cursor < q
    ensures e.Deliver? && e.position == q && s' == Next(s, e) && Inv(s') && s'.loaded && Load(s).cursor <= s'.cursor
    ensures s'.Blockers() == s.Blockers() - {q}
    ensures (forall b <- s.Blockers() :: b == q || q < b) ==> q <= s'.cursor
  {
    assert Inv(Load(s)) && Load(s).Blockers() == s.Blockers();
    var puts := AckAdvances(Load(s), q);
    e := Ack(q, puts);
    s' := Next(s, e);
  }

  lemma Prepended(s: Stream, e: Event, rest: seq<Event>, p: int)
    requires PassesOver(e, p) && AllPassOver(rest, p)
    ensures From(s, [e] + rest) == From(Next(s, e), rest) && AllPassOver([e] + rest, p)
  {
    assert ([e] + rest)[1..] == rest;
  }

  function UpTo(blockers: set<int>, limit: int): set<int> {
    set b | b in blockers && b <= limit
  }

  /** The blockers up to a limit are acknowledged one after the other. */
  lemma {:induction false} PlayAcks(s: Stream, p: int, limit: int) returns (events: seq<Event>, s': Stream)
    requires Inv(s) && p !in s.Blockers()
    ensures s' == From(s, events) && Inv(s') && AllPassOver(events, p)
    ensures Load(s).cursor <= Load(s').cursor && s'.Blockers() == s.Blockers() - UpTo(s.Blockers(), limit)
    decreases UpTo(s.Blockers(), limit)
  {
    var open := UpTo(s.Blockers(), limit);
    if open == {} {
      events, s' := [], s;
    } else {
      Inhabited(open);
      var b :| b in open;
      var e, s1 := PlayAck(s, b);
      assert UpTo(s1.Blockers(), limit) == open - {b};
      events, s' := PlayAcks(s1, p, limit);
      Prepended(s, e, events, p);
      events := [e] + events;
    }
  }

  /** The cursor can pass a position beyond it exactly if the position is not a blocker. */
  lemma PassIff(s: Stream, p: int)
    requires Inv(s) && Load(s).cursor < p
    ensures CanPass(s, p) <==> p !in s.Blockers()
  {
    if p in s.Blockers() {
      forall events: seq<Event> | AllPassOver(events, p) ensures From(s, events).cursor < p {
        BlockedStays(s, events, p);
      }
    } else {
      var events := PlayPast(s, p);
    }
  }

  lemma PlayPast(s: Stream, p: int) returns (events: seq<Event>)
    requires Inv(s) && Load(s).cursor < p && p !in s.Blockers()
    ensures AllPassOver(events, p) && p <= From(s, events).cursor
  {
    var s1;
    events, s1 := PlayAcks(s, p, p + 1);
    if Load(s1).cursor < p + 1 {
      var e, s2 := PlayAck(s1, p + 1);
      FromConcat(s, events, [e]);
      assert [e][1..] == [];
      events := events + [e];
    } else {
      // the cursor of an unloaded stream moves when it is read
      var e := Deliver(p, 0, RouterError, true, 0);
      FromConcat(s, events, [e]);
      assert [e][1..] == [];
      events := events + [e];
    }
  }

  /** Some continuation of the run, without a crash and without an acknowledgement of p, brings the
      cursor to p or past it. */
  ghost predicate Passable(saved: Option<Row>, events: seq<Event>, p: int) {
    exists more: seq<Event> :: AllPassOver(more, p) && p <= Run(saved, events + more).cursor
  }

  /** In every run: exactly the positions beyond the cursor that are not open can be passed. So an
      event that failed without being routed is not waited for. */
  lemma PassableIff(saved: Option<Row>, events: seq<Event>, p: int)
    requires saved.Some? ==> 0 <= saved.value.position
    requires Load(Run(saved, events)).cursor < p
    ensures Passable(saved, events, p) <==> p !in Open(saved, events)
  {
    var s := Run(saved, events);
    RunInv(saved, events);
    PassIff(s, p);
    forall more: seq<Event> ensures From(s, more) == Run(saved, events + more) {
      RunGoesOn(saved, events, more);
    }
    if more: seq<Event> :| AllPassOver(more, p) && p <= From(s, more).cursor {
      assert p <= Run(saved, events + more).cursor;
    }
  }

  /** With a single acknowledged position and nothing blocked, one write moves the cursor there. */
  lemma SingleAdvance(s: Stream, p: int, timestamp: int)
    requires Inv(s) && s.loaded && s.acked == map[p := timestamp] && s.Blockers() == {}
    ensures Advance(s, 1).0.cursor == p && Advance(s, 1).0.Saved() == p && Advance(s, 1).0.Blockers() == {}
  {
    assert p in s.Frontier();
    AdvanceKeeps(s, 1);
    var q := Least(s.Frontier());
    assert q == p;
    assert Take(s, p).Frontier() == {};
    assert Advance(s, 1) == Advance(Take(s, p), 0);
  }

  /** An event whose cursor could not be loaded is reported as an error but not routed, so
      nothing keeps the cursor from passing it: position 5 is lost behind position 7. */
  lemma LoadErrorIsNotABlocker(outcome: Outcome)
    requires Fails(outcome)
    ensures var events := [Deliver(5, 0, outcome, false, 1), Deliver(7, 0, Outcome(true, false, true), true, 1)];
            Run(None, events).cursor == 7 && Open(None, events) == {}
  {
    var first := Deliver(5, 0, outcome, false, 1);
    var second := Deliver(7, 0, Outcome(true, false, true), true, 1);
    var events := [first, second];
    assert events[..1] == [first] && [first][..0] == [];
    var idle := Run(None, []);
    assert Run(None, [first]) == idle;
    var s := Acknowledge(Load(idle), 7, 0);
    assert Run(None, events) == Next(idle, second) == Advance(s, 1).0;
    SingleAdvance(s, 7, 0);
    RunInv(None, events);
  }
}
