/** Recovery and delivery together: the coordinator hands the deliveries of a stream to the router
    one at a time, and what a cursor that has moved past a message says about its destinations. */
module SettledCursor {
  import opened Wrappers
  import C = CreateProtocol
  import F = FanOutLedger
  import M = MessageCalls
  import R = RecoveryCursor

  /** A stream, the messages at its positions, and the position whose delivery the coordinator has
      handed to the router, holding the stream's lock. */
  datatype Bridge = Bridge(
    endpoints: set<string>, stream: R.Stream, messages: map<int, M.Message>, current: Option<int>)
  {
    function At(p: int): M.Message {
      if p in messages then messages[p] else M.NewMessage(endpoints)
    }
  }

  datatype Step =
    | Deliver(position: int, delivery: M.Delivery, loads: bool)
    | Inside(position: int, happening: M.Happening)
    | Return(timestamp: int, puts: nat)
    | Sweep
    | Crash

  /** A message's own steps: its call, its jobs, its deletion, its other ledger rows. */
  predicate IsInside(h: M.Happening) {
    h.CallStep? || h.JobStep? || h.Delete? || h.Change?
  }

  /** The router has answered for the current position. */
  predicate Answered(b: Bridge) {
    b.current.Some? && b.At(b.current.value).call.None? && b.At(b.current.value).report.Some?
  }

  function Report(b: Bridge): M.Report
    requires Answered(b)
  {
    b.At(b.current.value).report.value
  }

  ghost function Next(b: Bridge, s: Step): Bridge {
    match s
    case Deliver(p, dl, loads) =>
      if b.current.Some? || (!b.stream.loaded && !loads) || !(forall t <- dl.targets :: t in b.endpoints) then b
      else
        var b' := b.(stream := R.Load(b.stream));
        if p <= b'.stream.cursor then b'
        else b'.(current := Some(p), messages := b.messages[p := M.MessageNext(b.At(p), M.Arrive(dl))])
    case Inside(p, h) =>
      if IsInside(h) then b.(messages := b.messages[p := M.MessageNext(b.At(p), h)]) else b
    case Return(timestamp, puts) =>
      if !Answered(b) then b
      else
        var e := R.Deliver(b.current.value, timestamp, Report(b).outcome, true, puts);
        b.(stream := R.Next(b.stream, e), current := None)
    case Sweep => b.(messages := map p <- b.messages :: M.MessageNext(b.messages[p], M.Sweep))
    case Crash =>
      b.(stream := R.Next(b.stream, R.Crash), current := None,
         messages := map p <- b.messages :: M.MessageNext(b.messages[p], M.Restart))
  }

  ghost function Run(b: Bridge, steps: seq<Step>): Bridge
    decreases |steps|
  {
    if steps == [] then b else Next(Run(b, steps[..|steps| - 1]), steps[|steps| - 1])
  }

  function Start(endpoints: set<string>, saved: Option<R.Row>): Bridge {
    Bridge(endpoints, R.Stream(false, 0, map[], {}, map[], saved), map[], None)
  }

  ghost predicate Sound(m: M.Message, endpoints: set<string>) {
    M.Consistent(m) && m.sys.dests.Keys == endpoints
  }

  ghost predicate Inv(b: Bridge) {
    && R.Inv(b.stream)
    && (b.current.Some? ==> b.stream.loaded && b.stream.cursor < b.current.value)
    && forall p <- b.messages :: Sound(b.messages[p], b.endpoints)
  }

  lemma SoundNext(m: M.Message, h: M.Happening, endpoints: set<string>)
    requires Sound(m, endpoints)
    ensures Sound(M.MessageNext(m, h), endpoints)
  {
    M.NextKeeps(m, h);
    var e := M.LedgerStep(m, h);
    if e.Some? {
      F.LedgerSysNext(m.sys, e.value);
    }
  }

  lemma SoundAt(b: Bridge, p: int)
    requires Inv(b)
    ensures Sound(b.At(p), b.endpoints)
  {
    M.RunConsistent(b.endpoints, []);
  }

  lemma InvNext(b: Bridge, s: Step)
    requires Inv(b)
    ensures Inv(Next(b, s)) && Next(b, s).endpoints == b.endpoints
  {
    match s
    case Deliver(p, dl, loads) =>
      SoundAt(b, p);
      SoundNext(b.At(p), M.Arrive(dl), b.endpoints);
    case Inside(p, h) =>
      SoundAt(b, p);
      SoundNext(b.At(p), h, b.endpoints);
    case Return(timestamp, puts) =>
      if Answered(b) {
        R.NextInv(b.stream, R.Deliver(b.current.value, timestamp, Report(b).outcome, true, puts));
      }
    case Sweep =>
      forall p | p in b.messages ensures Sound(M.MessageNext(b.messages[p], M.Sweep), b.endpoints) {
        SoundNext(b.messages[p], M.Sweep, b.endpoints);
      }
    case Crash =>
      R.NextInv(b.stream, R.Crash);
      forall p | p in b.messages ensures Sound(M.MessageNext(b.messages[p], M.Restart), b.endpoints) {
        SoundNext(b.messages[p], M.Restart, b.endpoints);
      }
  }

  lemma {:induction false} RunInv(endpoints: set<string>, saved: Option<R.Row>, steps: seq<Step>)
    requires saved.Some? ==> 0 <= saved.value.position
    ensures Inv(Run(Start(endpoints, saved), steps)) && Run(Start(endpoints, saved), steps).endpoints == endpoints
    decreases |steps|
  {
    if steps != [] {
      RunInv(endpoints, saved, steps[..|steps| - 1]);
      InvNext(Run(Start(endpoints, saved), steps[..|steps| - 1]), steps[|steps| - 1]);
    }
  }

  /** At this step the coordinator records an acknowledging answer for position p. */
  predicate Acks(b: Bridge, s: Step, p: int) {
    s.Return? && Answered(b) && b.current == Some(p) && R.Acknowledges(Report(b).outcome)
  }

  /** At this step it records p as failed or waiting. */
  predicate Blocks(b: Bridge, s: Step, p: int) {
    && s.Return? && Answered(b) && b.current == Some(p)
    && (R.Fails(Report(b).outcome) || R.Waits(Report(b).outcome))
  }

  /** Only these steps change what blocks the cursor, crashes aside. */
  lemma BlockersNext(b: Bridge, s: Step, p: int)
    requires Inv(b) && !s.Crash?
    ensures Blocks(b, s, p) ==> p in Next(b, s).stream.Blockers()
    ensures p in b.stream.Blockers() && !Acks(b, s, p) ==> p in Next(b, s).stream.Blockers()
  {
    if s.Return? && Answered(b) {
      var e := R.Deliver(b.current.value, s.timestamp, Report(b).outcome, true, s.puts);
      assert R.Routed(b.stream, e);
      R.NextBlockers(b.stream, e);
    }
  }

  /** A position that blocked the cursor and no longer does has been acknowledged in between. */
  lemma {:induction false} ClosedByAck(endpoints: set<string>, saved: Option<R.Row>, steps: seq<Step>, i: nat, p: int)
      returns (j: nat)
    requires saved.Some? ==> 0 <= saved.value.position
    requires i <= |steps| && (forall k | i <= k < |steps| :: !steps[k].Crash?)
    requires p in Run(Start(endpoints, saved), steps[..i]).stream.Blockers()
    requires p !in Run(Start(endpoints, saved), steps).stream.Blockers()
    ensures i <= j < |steps| && Acks(Run(Start(endpoints, saved), steps[..j]), steps[j], p)
    decreases |steps|
  {
    assert steps[..|steps|] == steps;
    var last := |steps| - 1;
    var before := steps[..last];
    RunInv(endpoints, saved, before);
    BlockersNext(Run(Start(endpoints, saved), before), steps[last], p);
    if p in Run(Start(endpoints, saved), before).stream.Blockers() {
      j := last;
    } else {
      assert before[..i] == steps[..i];
      j := ClosedByAck(endpoints, saved, before, i, p);
      assert before[..j] == steps[..j];
    }
  }

  /** If a message failed or was left waiting, and the cursor or the saved position has reached it
      without a crash in between, then it was acknowledged on the way. When the router answered,
      every target of that delivery was done, except exactly if the call skipped the fan-out of an
      undeleted message some of whose targets then had neither row nor copy. */
  lemma CursorMeansSettled(endpoints: set<string>, saved: Option<R.Row>, steps: seq<Step>, i: nat, p: int)
      returns (j: nat)
    requires saved.Some? ==> 0 <= saved.value.position
    requires i < |steps| && (forall k | i <= k < |steps| :: !steps[k].Crash?)
    requires Blocks(Run(Start(endpoints, saved), steps[..i]), steps[i], p)
    requires var s := Run(Start(endpoints, saved), steps).stream; p <= s.cursor || p <= s.Saved()
    ensures i < j < |steps| && Acks(Run(Start(endpoints, saved), steps[..j]), steps[j], p)
    ensures var r := Report(Run(Start(endpoints, saved), steps[..j]));
            M.AllDone(r.ledger, r.call.delivery.targets) <==> r.deleted || !M.Skips(r.call) || r.call.missing == {}
  {
    assert steps[..i + 1][..i] == steps[..i];
    RunInv(endpoints, saved, steps[..i]);
    BlockersNext(Run(Start(endpoints, saved), steps[..i]), steps[i], p);
    RunInv(endpoints, saved, steps);
    j := ClosedByAck(endpoints, saved, steps, i + 1, p);
    RunInv(endpoints, saved, steps[..j]);
    SoundAt(Run(Start(endpoints, saved), steps[..j]), p);
  }

  // ---- A cursor that moves past a message nobody gets ------------------------------------------------

  /** Extend a run by one step. */
  lemma Play(start: Bridge, b: Bridge, steps: seq<Step>, s: Step) returns (b': Bridge, steps': seq<Step>)
    requires b == Run(start, steps)
    ensures steps' == steps + [s] && b' == Next(b, s) == Run(start, steps')
  {
    b', steps' := Next(b, s), steps + [s];
    assert steps'[..|steps'| - 1] == steps;
  }

  /** n steps of a message's call that go well. */
  lemma {:induction false} PlayCall(start: Bridge, b: Bridge, steps: seq<Step>, p: int, n: nat)
      returns (b': Bridge, steps': seq<Step>, m: M.Message)
    requires b == Run(start, steps) && p in b.messages
    ensures b' == Run(start, steps') && b' == b.(messages := b.messages[p := m]) && m == CallSteps(b.messages[p], n)
    decreases n
  {
    if n == 0 {
      b', steps', m := b, steps, b.messages[p];
      assert b.messages[p := m] == b.messages;
    } else {
      b', steps' := Play(start, b, steps, Inside(p, M.CallStep(C.Fine)));
      b', steps', m := PlayCall(start, b', steps', p, n - 1);
    }
  }

  function CallSteps(m: M.Message, n: nat): M.Message
    decreases n
  {
    if n == 0 then m else CallSteps(M.MessageNext(m, M.CallStep(C.Fine)), n - 1)
  }

  /** A self-sent message commits its canonical row, fails before its fan-out and is recorded as
      failed. */
  lemma PlayFirstDelivery(endpoints: set<string>, p: int, dl: M.Delivery) returns (b: Bridge, steps: seq<Step>)
    requires p > 0 && dl.fromSelf && !dl.local && forall t <- dl.targets :: t in endpoints
    ensures b == Run(Start(endpoints, None), steps)
    ensures b.endpoints == endpoints && b.stream == R.Stream(true, 0, map[], {p}, map[], None) && b.current == None
    ensures p in b.messages && var m := b.messages[p];
            m.sys == F.InitialSys(endpoints) && m.canonical && !m.deleted && m.call == None
  {
    var start := Start(endpoints, None);
    var m;
    b, steps := Play(start, start, [], Deliver(p, dl, true));
    b, steps, m := PlayCall(start, b, steps, p, 4);
    b, steps := Play(start, b, steps, Inside(p, M.CallStep(C.Broken)));
    b, steps := Play(start, b, steps, Return(0, 0));
  }

  /** Its redelivery, up to the answer. */
  lemma PlaySecondDelivery(endpoints: set<string>, p: int, dl: M.Delivery) returns (b: Bridge, steps: seq<Step>)
    requires p > 0 && dl.fromSelf && !dl.local && forall t <- dl.targets :: t in endpoints
    ensures b == Run(Start(endpoints, None), steps) && Inv(b)
    ensures b.stream == R.Stream(true, 0, map[], {p}, map[], None) && b.current == Some(p)
    ensures b.endpoints == endpoints && Answered(b) && Report(b).outcome == R.Outcome(true, false, true)
    ensures p in b.messages && var m := b.messages[p]; m.sys == F.InitialSys(endpoints) && m.canonical && !m.deleted
  {
    var start := Start(endpoints, None);
    var m;
    b, steps := PlayFirstDelivery(endpoints, p, dl);
    b, steps := Play(start, b, steps, Deliver(p, dl, true));
    b, steps, m := PlayCall(start, b, steps, p, 3);
    assert !F.PendingDelivery(m.sys);
    b, steps, m := PlayCall(start, b, steps, p, 1);
    RunInv(endpoints, None, steps);
  }

  /** Its redelivery is reported safe without a fan-out, and the cursor moves past the message
      although no target has it, nor will have it while it is delivered as self-sent. */
  lemma CursorPassesUnsent(endpoints: set<string>, p: int, dl: M.Delivery) returns (steps: seq<Step>)
    requires p > 0 && dl.fromSelf && !dl.local && dl.targets != [] && forall t <- dl.targets :: t in endpoints
    ensures var b := Run(Start(endpoints, None), steps);
            && b.stream.cursor == p && b.stream.Saved() == p && b.stream.Blockers() == {}
            && !b.At(p).deleted && forall t <- dl.targets :: M.Forgotten(b.At(p), t) && !F.Covered(b.At(p).sys.dests[t])
  {
    var start := Start(endpoints, None);
    var b;
    b, steps := PlaySecondDelivery(endpoints, p, dl);
    var before := b.stream;
    R.AcknowledgeKeeps(before, p, 0);
    b, steps := Play(start, b, steps, Return(0, 1));
    assert b.stream == R.Advance(R.Acknowledge(before, p, 0), 1).0;
    R.SingleAdvance(R.Acknowledge(before, p, 0), p, 0);
  }
}
