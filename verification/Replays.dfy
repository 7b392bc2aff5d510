/** When a destination whose job was given up gets a new job from the next delivery of the message
    (internal/router/router.go:1039-1103, internal/delivery/lanes.go:207-242). */
module Replays {
  import opened Wrappers
  import opened Failures
  import opened CreateProtocol
  import opened SafeMoments
  import opened CreateAttempt

  /** A fan-out leaves the destination to the job that is thought to be there. */
  predicate Underway(row: Option<OpState>) {
    row == Some(Queued) || row == Some(Retrying)
  }

  /** The ways in which a job, or a fan-out on its way to offer one, comes to its end without having said so
      in the row: the retry loop ends with an error, because the attempts or the window are over; the job
      finds a step of unknown outcome; the row of an unknown outcome, or of a job that is done, cannot be
      written; the fan-out fails once the row is there; or the process stops. */
  predicate Abandons(d: Dest, e: Event) {
    || e.Crash?
    || (d.handler.Handling? && d.handler.pc in {InsertPrimary, InsertCompanion, Offer, MarkRefused}
        && e == HandleStep(Broken))
    || (d.worker.Running? &&
        match d.worker.pc
        case Returned(Some(failure)) => e.RetryStep? && (e.giveUp || d.worker.attempt >= 4 || !failure.retryable)
        case ReadStep(kind) => e == WorkStep(Good) && d.BookOf(kind).step == Some(Ambiguous)
        case Discard => e == WorkStep(DbFails)
        case Settle(failure) =>
          failure.certainty == SendUnknown && e.WorkStep? && e.choice.Settled? && !e.choice.written
        case _ => false)
  }

  /** Something was abandoned, and the row has been underway ever since. */
  ghost predicate LeftBehind(events: seq<Event>)
    decreases |events|
  {
    events != [] && Underway(Run(INITIAL_DEST, events).row) &&
    var before := events[..|events| - 1];
    LeftBehind(before) || Abandons(Run(INITIAL_DEST, before), events[|events| - 1])
  }

  /** Somebody will still see to the row: a job that is queued or has not come to its end, or a fan-out on
      its way to offer one. */
  predicate Attended(d: Dest) {
    || d.lane != [] || Open(d.worker)
    || (d.handler.Handling? && d.handler.pc in {InsertPrimary, InsertCompanion, Offer, MarkRefused})
  }

  lemma WorkAttends(d: Dest, c: Choice)
    requires d.worker.Running?
    ensures Open(d.worker) && Underway(Work(d, c).row) ==> Open(Work(d, c).worker) || Abandons(d, WorkStep(c))
    ensures !Open(d.worker) ==> Work(d, c) == d
  {
    match d.worker.pc
    case ReadStep(k) =>
    case AwaitProvider(k) =>
    case RecordSent(k, id) =>
    case RecordUnknown(k, failure) =>
    case Settle(failure) => SettleAttends(d, c, failure);
    case _ =>
  }

  lemma SettleAttends(d: Dest, c: Choice, failure: Failure)
    requires d.worker.Running? && d.worker.pc == Settle(failure)
    ensures Underway(Work(d, c).row) ==> Open(Work(d, c).worker) || Abandons(d, WorkStep(c))
  {
  }

  lemma HandleAttends(d: Dest, c: HandlerChoice)
    requires d.handler.Handling?
    ensures (Underway(d.row) ==> Attended(d)) && Underway(Handle(d, c).row) ==>
              Attended(Handle(d, c)) || Abandons(d, HandleStep(c))
  {
  }

  lemma RetryAttends(d: Dest, g: bool)
    requires d.worker.Running?
    ensures (Underway(d.row) ==> Attended(d)) && Underway(Again(d, g).row) ==>
              Attended(Again(d, g)) || Abandons(d, RetryStep(g))
  {
  }

  lemma NextAttends(d: Dest, e: Event)
    ensures (Underway(d.row) ==> Attended(d)) && Underway(Next(d, e).row) ==> Attended(Next(d, e)) || Abandons(d, e)
  {
    match e
    case WorkStep(c) => if d.worker.Running? { WorkAttends(d, c); }
    case HandleStep(c) => if d.handler.Handling? { HandleAttends(d, c); }
    case RetryStep(g) => if d.worker.Running? { RetryAttends(d, g); }
    case _ =>
  }

  lemma {:induction false} RunAttends(events: seq<Event>)
    ensures var d := Run(INITIAL_DEST, events); Underway(d.row) ==> Attended(d) || LeftBehind(events)
    decreases |events|
  {
    if events != [] {
      RunAttends(events[..|events| - 1]);
      NextAttends(Run(INITIAL_DEST, events[..|events| - 1]), events[|events| - 1]);
    }
  }

  /** In every run: at rest, a row is still underway exactly if something was abandoned under it. */
  lemma UnderwayIff(events: seq<Event>)
    requires AtRest(Run(INITIAL_DEST, events))
    ensures Underway(Run(INITIAL_DEST, events).row) <==> LeftBehind(events)
  {
    RunAttends(events);
  }

  /** So the next fan-out that succeeds offers a destination without a copy a new job, and only one, exactly
      if nothing was abandoned there, and then all its rows are there; otherwise it passes the destination
      by. */
  lemma ReplayIff(events: seq<Event>, media: bool, h: HandlerWorld)
    requires AtRest(Run(INITIAL_DEST, events)) && Run(INITIAL_DEST, events).copy == None
    requires FinishHandle(Run(INITIAL_DEST, events).(handler := Handling(media, LookCopy)), h).1
    ensures var after := FinishHandle(Run(INITIAL_DEST, events).(handler := Handling(media, LookCopy)), h).0;
            && after.lane == (if LeftBehind(events) then [] else [Job(media)])
            && (!LeftBehind(events) ==> HasRows(after, media))
  {
    UnderwayIff(events);
    Offered(Run(INITIAL_DEST, events), media, h);
  }

  /** The rows a job works on are there. */
  predicate HasRows(d: Dest, media: bool) {
    d.row.Some? && d.primary.step.Some? && (media ==> d.companion.step.Some?)
  }

  /** A fan-out that succeeds, at a destination without a copy. */
  lemma Offered(d: Dest, media: bool, h: HandlerWorld)
    requires AtRest(d) && d.copy == None
    requires FinishHandle(d.(handler := Handling(media, LookCopy)), h).1
    ensures var after := FinishHandle(d.(handler := Handling(media, LookCopy)), h).0;
            && after.lane == (if Underway(d.row) then [] else [Job(media)])
            && (!Underway(d.row) ==> HasRows(after, media))
  {
    FanOutLeaves(d, media, h);
  }

  // ---- What a fan-out leaves ----------------------------------------------------------------------------

  /** The rows are there, and the lane is asked. */
  predicate Prepares(media: bool, h: HandlerWorld) {
    h.insertRow && h.insertPrimary && (media ==> h.insertCompanion)
  }

  /** A fan-out passes a destination by that has a copy or a job under way. Otherwise it sees to the row, the
      primary step and, for media only, the companion, and passes once the lane has taken the job. A full lane
      leaves a row that awaits a replay. Nothing that is there already is touched. */
  predicate Leaves(d: Dest, media: bool, h: HandlerWorld, after: Dest, passed: bool) {
    var wanted := d.copy.None? && !Underway(d.row);
    var begun := wanted && h.lookCopy && h.lookRow && h.insertRow;
    var asked := begun && Prepares(media, h);
    var inserted := d.row.None? && begun;
    && (passed <==> h.lookCopy && (d.copy.None? ==> h.lookRow) && (wanted ==> Prepares(media, h) && h.room))
    && after.lane == d.lane + (if wanted && passed then [Job(media)] else [])
    && after.row == (if asked && !h.room && h.markRefused then Some(AwaitingReplay)
                     else if inserted then Some(Queued) else d.row)
    && after.primary == (if begun && h.insertPrimary then d.primary.Insert() else d.primary)
    && after.companion == (if asked && media then d.companion.Insert() else d.companion)
    && after.copy == d.copy && after.worker == d.worker && after.tombstoned == d.tombstoned
    && after.handler == NotHandling && after.fannedOut == (d.fannedOut || passed)
  }

  lemma FanOutLeaves(d: Dest, media: bool, h: HandlerWorld)
    requires d.handler == NotHandling
    ensures var (after, passed) := FinishHandle(d.(handler := Handling(media, LookCopy)), h);
            Leaves(d, media, h, after, passed)
  {
    var d0 := d.(handler := Handling(media, LookCopy));
    FromLookCopy(d0, media, h);
    if h.lookCopy && d.copy.None? {
      var d1 := d.(handler := Handling(media, LookRow));
      FromLookRow(d1, media, h);
      if h.lookRow && !Underway(d.row) { EnqueueLeaves(d, media, h); }
    }
  }

  lemma EnqueueLeaves(d: Dest, media: bool, h: HandlerWorld)
    requires d.handler == NotHandling && d.copy.None? && !Underway(d.row) && h.lookCopy && h.lookRow
    ensures var (after, passed) := FinishHandle(d.(handler := Handling(media, InsertRow)), h);
            Leaves(d, media, h, after, passed)
  {
    FromInsertRow(d.(handler := Handling(media, InsertRow)), media, h);
    if h.insertRow { StepsLeave(d, media, h); }
  }

  function WithRow(d: Dest): Dest {
    d.(row := if d.row.None? then Some(Queued) else d.row)
  }

  lemma StepsLeave(d: Dest, media: bool, h: HandlerWorld)
    requires d.handler == NotHandling && d.copy.None? && !Underway(d.row) && h.lookCopy && h.lookRow && h.insertRow
    ensures var (after, passed) := FinishHandle(WithRow(d).(handler := Handling(media, InsertPrimary)), h);
            Leaves(d, media, h, after, passed)
  {
    var d1 := WithRow(d);
    FromInsertPrimary(d1.(handler := Handling(media, InsertPrimary)), media, h);
    var d2 := d1.(primary := d1.primary.Insert());
    if h.insertPrimary {
      if media { FromInsertCompanion(d2.(handler := Handling(media, InsertCompanion)), media, h); }
      if Prepares(media, h) { OfferLeaves(d, media, h); }
    }
  }

  function WithRows(d: Dest, media: bool): Dest {
    WithRow(d).(primary := d.primary.Insert(), companion := if media then d.companion.Insert() else d.companion)
  }

  lemma OfferLeaves(d: Dest, media: bool, h: HandlerWorld)
    requires d.handler == NotHandling && d.copy.None? && !Underway(d.row)
    requires h.lookCopy && h.lookRow && Prepares(media, h)
    ensures var (after, passed) := FinishHandle(WithRows(d, media).(handler := Handling(media, Offer)), h);
            Leaves(d, media, h, after, passed)
  {
    FromOffer(WithRows(d, media).(handler := Handling(media, Offer)), media, h);
  }

  // ---- How a destination comes to be left behind although nothing breaks ------------------------------

  /** Every statement works, and the process goes on. */
  predicate Smooth(e: Event) {
    && !e.Crash?
    && (e.WorkStep? ==> !e.choice.DbFails? && (e.choice.Settled? ==> e.choice.written))
    && (e.HandleStep? ==> !e.handlerChoice.Broken?)
  }

  /** A job only returns an error to be tried again. */
  predicate Returns(w: Worker) {
    match w
    case Running(_, attempt, Returned(Some(failure))) => failure.retryable && attempt < 4
    case _ => true
  }

  lemma SmoothWork(d: Dest, c: Choice)
    requires d.worker.Running? && Smooth(WorkStep(c)) && Returns(d.worker)
    ensures Returns(Work(d, c).worker)
  {
    match d.worker.pc
    case ReadStep(k) =>
    case AwaitProvider(k) =>
    case RecordSent(k, id) =>
    case RecordUnknown(k, failure) =>
    case Settle(failure) =>
    case _ =>
  }

  lemma {:induction false} SmoothReturns(events: seq<Event>)
    requires forall e <- events :: Smooth(e)
    ensures Returns(Run(INITIAL_DEST, events).worker)
    decreases |events|
  {
    if events != [] {
      var d, e := Run(INITIAL_DEST, events[..|events| - 1]), events[|events| - 1];
      SmoothReturns(events[..|events| - 1]);
      if e.WorkStep? && d.worker.Running? { SmoothWork(d, e.choice); }
    }
  }

  /** Then two ways remain: the window elapses while a job was to be tried again, or a job finds a step of
      unknown outcome. Attempts that are exhausted or cancelled, and unknown answers, are no such way. */
  lemma TwoWays(events: seq<Event>, e: Event)
    requires (forall x <- events :: Smooth(x)) && Smooth(e)
    ensures var d := Run(INITIAL_DEST, events);
            Abandons(d, e) <==>
            d.worker.Running? &&
            match d.worker.pc
            case Returned(Some(failure)) => e == RetryStep(true) && failure.retryable && d.worker.attempt < 4
            case ReadStep(kind) => e == WorkStep(Good) && d.BookOf(kind).step == Some(Ambiguous)
            case _ => false
  {
    SmoothReturns(events);
  }

  /** Extend a smooth run by one event. */
  lemma PlaySmooth(d: Dest, events: seq<Event>, e: Event) returns (d': Dest, events': seq<Event>)
    requires d == Run(INITIAL_DEST, events) && (forall x <- events :: Smooth(x)) && Smooth(e)
    ensures events' == events + [e] && events'[..|events|] == events && d' == Next(d, e) == Run(INITIAL_DEST, events')
    ensures forall x <- events' :: Smooth(x)
  {
    d', events' := Play(INITIAL_DEST, d, events, e);
  }

  /** A destination at rest is fanned out. */
  lemma PlayOffer(d: Dest, events: seq<Event>) returns (d': Dest, events': seq<Event>)
    requires d == Run(INITIAL_DEST, events) && forall x <- events :: Smooth(x)
    requires AtRest(d) && d.copy == None && !Underway(d.row)
    ensures d' == Run(INITIAL_DEST, events') && forall x <- events' :: Smooth(x)
    ensures d' == d.(row := if d.row.None? then Some(Queued) else d.row, primary := d.primary.Insert(),
                     lane := [Job(false)], fannedOut := true)
  {
    d', events' := PlaySmooth(d, events, BeginFanOut(false));
    d', events' := PlaySmooth(d', events', HandleStep(Fine));
    d', events' := PlaySmooth(d', events', HandleStep(Fine));
    d', events' := PlaySmooth(d', events', HandleStep(Fine));
    d', events' := PlaySmooth(d', events', HandleStep(Fine));
    d', events' := PlaySmooth(d', events', HandleStep(Fine));
  }

  /** Its job comes to its primary step. */
  lemma PlayJob(d: Dest, events: seq<Event>) returns (d': Dest, events': seq<Event>)
    requires d == Run(INITIAL_DEST, events) && forall x <- events :: Smooth(x)
    requires AtRest(d) && !d.tombstoned && d.copy == None && !Underway(d.row)
    ensures d' == Run(INITIAL_DEST, events') && forall x <- events' :: Smooth(x)
    ensures d' == d.(row := Some(Retrying), primary := d.primary.Insert(), fannedOut := true,
                     worker := Running(Job(false), 1, ReadStep(Primary)))
  {
    d', events' := PlayOffer(d, events);
    d', events' := PlaySmooth(d', events', TakeJob);
    d', events' := PlaySmooth(d', events', WorkStep(Good));
    d', events' := PlaySmooth(d', events', WorkStep(Good));
    d', events' := PlaySmooth(d', events', WorkStep(Good));
  }

  /** The provider is asked and refuses. */
  lemma PlayRefusal(d: Dest, events: seq<Event>, f: Failure) returns (d': Dest, events': seq<Event>)
    requires d == Run(INITIAL_DEST, events) && forall x <- events :: Smooth(x)
    requires d.worker.Running? && d.worker.pc == ReadStep(Primary) && d.primary.step == Some(Pending)
    ensures d' == Run(INITIAL_DEST, events') && forall x <- events' :: Smooth(x)
    ensures d' == Hear(d.Goto(AwaitProvider(Primary)), Primary, Rejected(f))
  {
    d', events' := PlaySmooth(d, events, WorkStep(Good));
    d', events' := PlaySmooth(d', events', WorkStep(Rejected(f)));
  }

  predicate Stranded(d: Dest) {
    AtRest(d) && !d.tombstoned && d.copy == None && Underway(d.row)
  }

  /** The failure is settled, and the retry loop decides. */
  lemma PlaySettle(d: Dest, events: seq<Event>, f: Failure, g: bool) returns (d': Dest, events': seq<Event>)
    requires d == Run(INITIAL_DEST, events) && forall x <- events :: Smooth(x)
    requires d.worker.Running? && d.worker.pc == Settle(f) && d.worker.attempt == 1 && d.row == Some(Retrying)
    requires f.retryable && (f.certainty == SendUnknown || g)
    ensures d' == Run(INITIAL_DEST, events') && forall x <- events' :: Smooth(x)
    ensures d' == d.(worker := Idle, row := if f.certainty == SendUnknown then Some(AwaitingReplay) else d.row)
  {
    d', events' := PlaySmooth(d, events, WorkStep(Settled(false, true)));
    d', events' := PlaySmooth(d', events', RetryStep(g));
  }

  /** One failure worth retrying is enough, if the window has then elapsed. */
  lemma WindowLeavesBehind() returns (events: seq<Event>)
    ensures (forall e <- events :: Smooth(e)) && Stranded(Run(INITIAL_DEST, events)) && LeftBehind(events)
  {
    var f := Failure(Transient, true, 0, DefinitelyNotSent);
    var d;
    d, events := PlayJob(INITIAL_DEST, []);
    d, events := PlayRefusal(d, events, f);
    d, events := PlaySettle(d, events, f, true);
    UnderwayIff(events);
  }

  /** The answer never arrives, and the job ends with its row awaiting replay. */
  lemma PlayNoAnswer() returns (d: Dest, events: seq<Event>)
    ensures d == Run(INITIAL_DEST, events) && forall x <- events :: Smooth(x)
    ensures AtRest(d) && !d.tombstoned && d.copy == None && d.row == Some(AwaitingReplay)
    ensures d.primary.step == Some(Ambiguous)
  {
    var f := Failure(Transient, true, 0, SendUnknown);
    d, events := PlayJob(INITIAL_DEST, []);
    d, events := PlayRefusal(d, events, f);
    d, events := PlayRecord(d, events, f);
    d, events := PlaySettle(d, events, f, false);
  }

  lemma PlayRecord(d: Dest, events: seq<Event>, f: Failure) returns (d': Dest, events': seq<Event>)
    requires d == Run(INITIAL_DEST, events) && forall x <- events :: Smooth(x)
    requires d.worker.Running? && d.worker.pc == RecordUnknown(Primary, f)
    ensures d' == Run(INITIAL_DEST, events') && forall x <- events' :: Smooth(x)
    ensures d' == d.(primary := d.primary.(step := Some(Ambiguous))).Goto(Settle(f))
  {
    d', events' := PlaySmooth(d, events, WorkStep(Good));
  }

  /** And then the job of the next delivery finds the step ambiguous. */
  lemma UnknownLeavesBehind() returns (events: seq<Event>)
    ensures (forall e <- events :: Smooth(e)) && Stranded(Run(INITIAL_DEST, events)) && LeftBehind(events)
  {
    var d;
    d, events := PlayNoAnswer();
    d, events := PlayJob(d, events);
    d, events := PlaySmooth(d, events, WorkStep(Good));
    d, events := PlaySmooth(d, events, RetryStep(false));
    UnderwayIff(events);
  }

  /** From then on, whatever is delivered, no job is ever offered there, until the ledger is swept (at the
      next start, or when a recovery begins). */
  lemma {:induction false} LeftForGood(d: Dest, more: seq<Event>)
    requires Stranded(d) && SweepLedger !in more
    ensures var d' := Run(d, more);
            && d'.row == d.row && d'.copy == None && d'.lane == [] && d'.worker.Idle?
            && (d'.handler.Handling? ==> d'.handler.pc in {LookCopy, LookRow})
    decreases |more|
  {
    if more != [] {
      assert SweepLedger !in more[..|more| - 1];
      LeftForGood(d, more[..|more| - 1]);
    }
  }

  /** The sweep helps: the next fan-out that succeeds then offers a new job. */
  lemma SweptIsOffered(d: Dest, media: bool, h: HandlerWorld)
    requires Stranded(d)
    requires FinishHandle(Next(d, SweepLedger).(handler := Handling(media, LookCopy)), h).1
    ensures FinishHandle(Next(d, SweepLedger).(handler := Handling(media, LookCopy)), h).0.lane == [Job(media)]
  {
    FanOutLeaves(Next(d, SweepLedger), media, h);
  }

  /** At any destination the sweep puts the rows under way up for replay, and touches no other. */
  lemma SweptRow(d: Dest)
    ensures Next(d, SweepLedger) == if Underway(d.row) then d.(row := Some(AwaitingReplay)) else d
  {
  }
}
