/** What may still be going on at a destination when nothing is pending there: jobs queued or
    running, and steps of unknown outcome. Each promise that fails of the code comes with a run
    in which it fails and the exact condition under which it can. */
module SafeMoments {
  import opened Wrappers
  import opened Failures
  import opened CreateProtocol
  import opened FanOutLedger

  /** Nothing is pending here. */
  predicate Quiet(d: Dest) {
    !Active(d.row)
  }

  /** A job runs that has not come to its end. */
  predicate Open(w: Worker) {
    w.Running? && w.pc != Returned(None)
  }

  /** A job is queued or running. */
  predicate Busy(d: Dest) {
    d.lane != [] || Open(d.worker)
  }

  /** Safe to advance as far as this destination goes, yet a job is queued or running. */
  predicate BusyYetQuiet(d: Dest) {
    Busy(d) && Quiet(d)
  }

  // ---- How a job comes to be left at a safe moment --------------------------------------------

  /** The fan-out hands a job to the lane. */
  predicate Offers(d: Dest, e: Event) {
    d.handler.Handling? && d.handler.pc == Offer && e == HandleStep(Fine)
  }

  /** The running job drops its row or marks it failed. */
  predicate Closes(d: Dest, e: Event) {
    d.worker.Running? && e.WorkStep? &&
    match d.worker.pc
    case Discard => e.choice.Good?
    case Settle(failure) =>
      e.choice.Settled? && e.choice.written && !failure.retryable && failure.certainty != SendUnknown
    case _ => false
  }

  /** The two ways into such a moment: a fan-out offers a job while nothing is pending, or the
      running job closes the row while another one waits. */
  lemma WaysToBusyYetQuiet(d: Dest, e: Event)
    requires !BusyYetQuiet(d)
    ensures BusyYetQuiet(Next(d, e)) <==> (Quiet(d) && Offers(d, e)) || (d.lane != [] && Closes(d, e))
  {
    match e
    case WorkStep(c) => if d.worker.Running? { WorkToBusyYetQuiet(d, c); }
    case HandleStep(c) =>
    case RetryStep(_) =>
    case _ =>
  }

  lemma WorkToBusyYetQuiet(d: Dest, c: Choice)
    requires d.worker.Running? && !BusyYetQuiet(d)
    ensures BusyYetQuiet(Work(d, c)) <==> d.lane != [] && Closes(d, WorkStep(c))
  {
    match d.worker.pc
    case ReadStep(k) =>
    case AwaitProvider(k) =>
    case Settle(failure) =>
    case _ =>
  }

  /** In the present process a fan-out has offered a job although one was queued or running, or
      nothing was pending. */
  ghost predicate OfferedAgain(events: seq<Event>)
    decreases |events|
  {
    events != [] &&
    var before, e := events[..|events| - 1], events[|events| - 1];
    var d := Run(INITIAL_DEST, before);
    !e.Crash? && (OfferedAgain(before) || (Offers(d, e) && (Busy(d) || Quiet(d))))
  }

  predicate TwoJobs(d: Dest) {
    |d.lane| > 1 || (d.lane != [] && Open(d.worker))
  }

  /** In the present process there has been a moment with two jobs at once, or with a job and
      nothing pending. */
  ghost predicate JobsOverlapped(events: seq<Event>)
    decreases |events|
  {
    events != [] && !events[|events| - 1].Crash? &&
    var d := Run(INITIAL_DEST, events);
    (JobsOverlapped(events[..|events| - 1]) || TwoJobs(d) || BusyYetQuiet(d))
  }

  lemma OneJobNext(d: Dest, e: Event)
    requires !TwoJobs(d) && !BusyYetQuiet(d)
    ensures TwoJobs(Next(d, e)) || BusyYetQuiet(Next(d, e)) <==> Offers(d, e) && (Busy(d) || Quiet(d))
  {
    match e
    case WorkStep(c) => if d.worker.Running? { WorkToBusyYetQuiet(d, c); }
    case HandleStep(c) =>
    case _ =>
  }

  lemma {:induction false} OverlapIffOfferedAgain(events: seq<Event>)
    ensures JobsOverlapped(events) <==> OfferedAgain(events)
    ensures !OfferedAgain(events) ==> !TwoJobs(Run(INITIAL_DEST, events)) && !BusyYetQuiet(Run(INITIAL_DEST, events))
    decreases |events|
  {
    if events != [] {
      var before := events[..|events| - 1];
      OverlapIffOfferedAgain(before);
      if !OfferedAgain(before) {
        OneJobNext(Run(INITIAL_DEST, before), events[|events| - 1]);
      }
    }
  }

  // ---- Runs, one event after another ------------------------------------------------------------

  /** Extend a run by one event. */
  lemma Play(start: Dest, d: Dest, events: seq<Event>, e: Event) returns (d': Dest, events': seq<Event>)
    requires d == Run(start, events)
    ensures events' == events + [e] && d' == Next(d, e) == Run(start, events')
  {
    d', events' := Next(d, e), events + [e];
    assert events'[..|events'| - 1] == events;
  }

  /** Handle's steps up to the create steps. */
  lemma PlayRows(start: Dest, d: Dest, events: seq<Event>, media: bool) returns (d': Dest, events': seq<Event>)
    requires d == Run(start, events) && d.handler == NotHandling && d.copy == None
    requires d.row != Some(Queued) && d.row != Some(Retrying)
    ensures d' == Run(start, events')
    ensures d' == d.(row := if d.row.None? then Some(Queued) else d.row, handler := Handling(media, InsertPrimary))
  {
    d', events' := Play(start, d, events, BeginFanOut(media));
    d', events' := Play(start, d', events', HandleStep(Fine));
    d', events' := Play(start, d', events', HandleStep(Fine));
    d', events' := Play(start, d', events', HandleStep(Fine));
  }

  /** Fan the message out to the destination, up to its job in the lane. */
  lemma PlayFanOut(start: Dest, d: Dest, events: seq<Event>, media: bool) returns (d': Dest, events': seq<Event>)
    requires d == Run(start, events) && d.handler == NotHandling && d.copy == None
    requires d.row != Some(Queued) && d.row != Some(Retrying)
    ensures d' == Run(start, events')
    ensures d' == d.(row := if d.row.None? then Some(Queued) else d.row, primary := d.primary.Insert(),
                     companion := if media then d.companion.Insert() else d.companion,
                     lane := d.lane + [Job(media)], fannedOut := true)
  {
    d', events' := PlayRows(start, d, events, media);
    d', events' := Play(start, d', events', HandleStep(Fine));
    if media {
      d', events' := Play(start, d', events', HandleStep(Fine));
    }
    d', events' := Play(start, d', events', HandleStep(Fine));
  }

  /** Start or restart an attempt, until the route check. */
  lemma PlayAttempt(start: Dest, d: Dest, events: seq<Event>) returns (d': Dest, events': seq<Event>)
    requires d == Run(start, events) && !d.tombstoned && d.row.Some?
    requires d.worker.Running? && d.worker.pc == CheckTombstone
    ensures d' == Run(start, events')
    ensures d' == d.(row := Some(Retrying), worker := Running(d.worker.job, d.worker.attempt, CheckRoute))
  {
    d', events' := Play(start, d, events, WorkStep(Good));
    d', events' := Play(start, d', events', WorkStep(Good));
  }

  /** The job's first pending step is sent and the provider reports an error. */
  lemma PlayRejected(start: Dest, d: Dest, events: seq<Event>, kind: StepKind, f: Failure)
      returns (d': Dest, events': seq<Event>)
    requires d == Run(start, events) && d.BookOf(kind).step == Some(Pending)
    requires d.worker.Running? && d.worker.pc == CheckRoute && d.worker.job.media == (kind == Companion)
    ensures d' == Run(start, events')
    ensures d' == Hear(d.Goto(AwaitProvider(kind)), kind, Rejected(f))
  {
    d', events' := Play(start, d, events, WorkStep(Good));
    d', events' := Play(start, d', events', WorkStep(Good));
    d', events' := Play(start, d', events', WorkStep(Rejected(f)));
  }

  /** The provider's answer to the job's first step never arrives. */
  lemma PlayUnknown(start: Dest, d: Dest, events: seq<Event>, kind: StepKind)
      returns (d': Dest, events': seq<Event>)
    requires d == Run(start, events) && d.BookOf(kind).step == Some(Pending) && d.row.Some?
    requires d.worker.Running? && d.worker.pc == CheckRoute && d.worker.job.media == (kind == Companion)
    ensures d' == Run(start, events')
    ensures d' == d.SetBook(kind, d.BookOf(kind).Count(1, 0).(step := Some(Ambiguous)))
                   .(row := Some(AwaitingReplay), worker := Idle)
  {
    d', events' := PlayRejected(start, d, events, kind, Failure(Transient, true, 0, SendUnknown));
    d', events' := Play(start, d', events', WorkStep(Good));
    d', events' := Play(start, d', events', WorkStep(Settled(false, true)));
    d', events' := Play(start, d', events', RetryStep(false));
  }

  /** The route check fails for good and the row is recorded failed. */
  lemma PlayRouteGone(start: Dest, d: Dest, events: seq<Event>) returns (d': Dest, events': seq<Event>)
    requires d == Run(start, events) && d.worker.Running? && d.worker.pc == CheckRoute && d.row.Some?
    ensures d' == Run(start, events')
    ensures d' == d.(row := Some(Failed), worker := Idle)
  {
    d', events' := Play(start, d, events, WorkStep(RouteChanged));
    d', events' := Play(start, d', events', WorkStep(Settled(false, true)));
    d', events' := Play(start, d', events', RetryStep(true));
  }

  /** Nothing runs for the destination, and no fan-out is at it. */
  predicate AtRest(d: Dest) {
    d.worker.Idle? && d.lane == [] && d.handler.NotHandling?
  }

  /** A crash, and the sweep that follows it, put a destination to rest. */
  lemma PlayRestart(start: Dest, d: Dest, events: seq<Event>) returns (d': Dest, events': seq<Event>)
    requires d == Run(start, events)
    ensures d' == Run(start, events') && AtRest(d')
    ensures d'.row == (if Active(d.row) then Some(AwaitingReplay) else d.row)
    ensures d'.copy == d.copy && d'.tombstoned == d.tombstoned && d'.fannedOut == d.fannedOut
    ensures forall kind :: d'.BookOf(kind).step == d.BookOf(kind).step
  {
    d', events' := Play(start, d, events, Crash);
    d', events' := Play(start, d', events', SweepLedger);
  }

  /** A destination at rest is fanned out again, and its job is started. */
  lemma PlayReplay(start: Dest, d: Dest, events: seq<Event>, media: bool) returns (d': Dest, events': seq<Event>)
    requires d == Run(start, events) && AtRest(d) && !d.tombstoned && d.copy == None
    requires d.row != Some(Queued) && d.row != Some(Retrying)
    ensures d' == Run(start, events')
    ensures d' == d.(row := Some(Retrying), primary := d.primary.Insert(),
                     companion := if media then d.companion.Insert() else d.companion,
                     fannedOut := true, worker := Running(Job(media), 1, CheckRoute))
  {
    d', events' := PlayFanOut(start, d, events, media);
    d', events' := Play(start, d', events', TakeJob);
    d', events' := PlayAttempt(start, d', events');
  }

  /** A destination at rest is fanned out again, and its route turns out to be gone. */
  lemma PlayReplayRouteGone(start: Dest, d: Dest, events: seq<Event>) returns (d': Dest, events': seq<Event>)
    requires d == Run(start, events) && AtRest(d) && !d.tombstoned && d.copy == None
    requires d.row != Some(Queued) && d.row != Some(Retrying)
    ensures d' == Run(start, events')
    ensures d' == d.(row := Some(Failed), primary := d.primary.Insert(), fannedOut := true)
  {
    d', events' := PlayReplay(start, d, events, false);
    d', events' := PlayRouteGone(start, d', events');
  }

  // ---- A destination that has its copy ------------------------------------------------------------

  /** At rest with a copy: fan-outs pass the destination by. */
  predicate Parked(d: Dest) {
    && d.copy.Some? && d.worker.Idle? && d.lane == []
    && (d.handler.Handling? ==> d.handler.pc == LookCopy)
  }

  lemma {:induction false} ParkedStays(d: Dest, more: seq<Event>)
    requires Parked(d)
    ensures var d' := Run(d, more);
            && Parked(d') && Active(d'.row) == Active(d.row) && (Quiet(d) ==> d'.row == d.row)
            && d'.companion == d.companion && d'.primary == d.primary
    decreases |more|
  {
    if more != [] {
      ParkedStays(d, more[..|more| - 1]);
    }
  }

  // ---- Exactly which destinations can be left so --------------------------------------------------

  /** Some continuation leads to a moment with nothing pending at the undeleted destination and
      a job in its lane. */
  ghost predicate CanQueueUnseen(d: Dest) {
    exists more: seq<Event> :: QueuedUnseen(Run(d, more))
  }

  predicate QueuedUnseen(d: Dest) {
    !d.tombstoned && d.fannedOut && Quiet(d) && d.lane != []
  }

  /** Of an undeleted destination at rest: exactly while it has no copy. */
  lemma QueueUnseenIff(events: seq<Event>)
    requires AtRest(Run(INITIAL_DEST, events)) && !Run(INITIAL_DEST, events).tombstoned
    ensures var d := Run(INITIAL_DEST, events); CanQueueUnseen(d) <==> d.copy == None
  {
    var d := Run(INITIAL_DEST, events);
    if d.copy == None {
      var d', more := PlayRestart(d, d, []);
      d', more := PlayReplayRouteGone(d, d', more);
      d', more := PlayFanOut(d, d', more, false);
      assert QueuedUnseen(Run(d, more));
    } else {
      forall more: seq<Event> ensures !QueuedUnseen(Run(d, more)) {
        ParkedStays(d, more);
      }
    }
  }

  /** Some continuation leads to a moment with nothing pending at the undeleted destination and
      the step of unknown outcome. */
  ghost predicate CanStayAmbiguous(d: Dest, kind: StepKind) {
    exists more: seq<Event> :: AmbiguousUnseen(Run(d, more), kind)
  }

  predicate AmbiguousUnseen(d: Dest, kind: StepKind) {
    !d.tombstoned && d.fannedOut && Quiet(d) && d.BookOf(kind).step == Some(Ambiguous)
  }

  predicate StepComplete(d: Dest, kind: StepKind) {
    d.BookOf(kind).step.Some? && d.BookOf(kind).step.value.Complete?
  }

  /** A complete step stays complete. */
  lemma {:induction false} CompleteStays(d: Dest, more: seq<Event>, kind: StepKind)
    requires Ledger(d) && StepComplete(d, kind)
    ensures Ledger(Run(d, more)) && Run(d, more).BookOf(kind).step == d.BookOf(kind).step
    decreases |more|
  {
    if more != [] {
      var before, e := more[..|more| - 1], more[|more| - 1];
      CompleteStays(d, before, kind);
      LedgerNext(Run(d, before), e);
      CompleteNext(Run(d, before), e, kind);
    }
  }

  lemma CompleteNext(d: Dest, e: Event, kind: StepKind)
    requires Ledger(d) && StepComplete(d, kind)
    ensures Next(d, e).BookOf(kind).step == d.BookOf(kind).step
  {
    match e
    case WorkStep(c) =>
      if d.worker.Running? {
        match d.worker.pc
        case ReadStep(k) =>
        case AwaitProvider(k) =>
        case RecordSent(k, remoteID) =>
        case RecordUnknown(k, failure) =>
        case _ =>
      }
    case HandleStep(c) =>
    case _ =>
  }

  /** From an undeleted destination without a copy, a moment with an ambiguous step and nothing
      pending: unless the step is ambiguous already, its answer is lost; then a replay finds the
      route gone. */
  lemma PlayAmbiguous(d: Dest, kind: StepKind) returns (more: seq<Event>)
    requires !d.tombstoned && d.copy == None && !StepComplete(d, kind)
    ensures AmbiguousUnseen(Run(d, more), kind)
  {
    var d';
    d', more := PlayRestart(d, d, []);
    if d'.BookOf(kind).step != Some(Ambiguous) {
      d', more := PlayReplay(d, d', more, kind == Companion);
      assert d'.BookOf(kind).step == Some(Pending);
      d', more := PlayUnknown(d, d', more, kind);
    }
    assert AtRest(d') && d'.BookOf(kind).step == Some(Ambiguous);
    d', more := PlayReplayRouteGone(d, d', more);
  }

  /** Of an undeleted destination at rest: exactly if the step is not complete, and there is no
      copy yet or the step is ambiguous beside it with nothing pending. */
  lemma StayAmbiguousIff(events: seq<Event>, kind: StepKind)
    requires AtRest(Run(INITIAL_DEST, events)) && !Run(INITIAL_DEST, events).tombstoned
    ensures var d := Run(INITIAL_DEST, events);
            CanStayAmbiguous(d, kind) <==>
            !StepComplete(d, kind) && (d.copy == None || (Quiet(d) && d.BookOf(kind).step == Some(Ambiguous)))
  {
    var d := Run(INITIAL_DEST, events);
    LedgerRun(events);
    if StepComplete(d, kind) {
      forall more: seq<Event> ensures !AmbiguousUnseen(Run(d, more), kind) {
        CompleteStays(d, more, kind);
      }
    } else if d.copy == None {
      var more := PlayAmbiguous(d, kind);
    } else {
      assert Run(d, []) == d;
      forall more: seq<Event>
        ensures AmbiguousUnseen(Run(d, more), kind) ==> Quiet(d) && d.BookOf(kind).step == Some(Ambiguous)
      {
        ParkedStays(d, more);
      }
    }
  }

  /** Some continuation leads to a moment with nothing pending. */
  ghost predicate CanComeToQuiet(d: Dest) {
    exists more: seq<Event> :: Quiet(Run(d, more))
  }

  /** Of an undeleted destination at rest: exactly if nothing is pending already or it has no
      copy. A row left beside a copy is never removed, so its message is never safe to advance. */
  lemma ComeToQuietIff(events: seq<Event>)
    requires AtRest(Run(INITIAL_DEST, events)) && !Run(INITIAL_DEST, events).tombstoned
    ensures var d := Run(INITIAL_DEST, events); CanComeToQuiet(d) <==> Quiet(d) || d.copy == None
  {
    var d := Run(INITIAL_DEST, events);
    assert Run(d, []) == d;
    if d.copy == None {
      var d', more := PlayRestart(d, d, []);
      d', more := PlayReplayRouteGone(d, d', more);
      assert Quiet(Run(d, more));
    } else {
      forall more: seq<Event> ensures Quiet(Run(d, more)) ==> Quiet(d) {
        ParkedStays(d, more);
      }
    }
  }

  // ---- Runs in which more is going on than one might think ----------------------------------------

  /** A first attempt, up to its route check. */
  lemma PlayFirstAttempt(media: bool) returns (d: Dest, events: seq<Event>)
    ensures d == Run(INITIAL_DEST, events)
    ensures d == INITIAL_DEST.(row := Some(Retrying), primary := FRESH_BOOK.Insert(), fannedOut := true,
                               companion := if media then FRESH_BOOK.Insert() else FRESH_BOOK,
                               worker := Running(Job(media), 1, CheckRoute))
  {
    d, events := PlayReplay(INITIAL_DEST, INITIAL_DEST, [], media);
  }

  /** From the route check to the stored copy. */
  lemma PlaySent(start: Dest, d: Dest, events: seq<Event>, id: string) returns (d': Dest, events': seq<Event>)
    requires d == Run(start, events) && d.primary.step == Some(Pending) && !d.tombstoned && d.copy == None
    requires d.worker.Running? && d.worker.pc == CheckRoute && !d.worker.job.media
    ensures d' == Run(start, events')
    ensures d' == d.(primary := d.primary.Count(1, 0).(step := Some(Complete(id))), copy := Some(id),
                     worker := d.worker.(pc := Discard))
  {
    d', events' := Play(start, d, events, WorkStep(Good));
    d', events' := Play(start, d', events', WorkStep(Good));
    d', events' := Play(start, d', events', WorkStep(Accepted(id, true)));
    d', events' := Play(start, d', events', WorkStep(Good));
    d', events' := PlayKept(start, d', events', id);
  }

  lemma PlayKept(start: Dest, d: Dest, events: seq<Event>, id: string) returns (d': Dest, events': seq<Event>)
    requires d == Run(start, events) && !d.tombstoned && d.copy == None
    requires d.worker.Running? && d.worker.pc == RecheckTombstone(id)
    ensures d' == Run(start, events')
    ensures d' == d.(copy := Some(id), worker := d.worker.(pc := Discard))
  {
    d', events' := Play(start, d, events, WorkStep(Good));
    d', events' := Play(start, d', events', WorkStep(Good));
    d', events' := Play(start, d', events', WorkStep(Good));
  }

  /** Safe to advance although a create is still ambiguous: an unknown outcome, then a
      replay after the route is gone, which turns the row from awaiting replay to failed. */
  lemma AmbiguousYetSafe() returns (events: seq<Event>)
    ensures AmbiguousUnseen(Run(INITIAL_DEST, events), Primary) && Run(INITIAL_DEST, events).row == Some(Failed)
  {
    events := PlayAmbiguous(INITIAL_DEST, Primary);
    LedgerRun(events);
  }

  /** The companion of a stored copy can be ambiguous too: it was asked for by a job with media,
      and the copy was stored by a later job without. */
  lemma AmbiguousCompanionBesideCopy() returns (events: seq<Event>)
    ensures AmbiguousUnseen(Run(INITIAL_DEST, events), Companion) && Run(INITIAL_DEST, events).copy.Some?
  {
    var d;
    d, events := PlayFirstAttempt(true);
    d, events := PlayUnknown(INITIAL_DEST, d, events, Companion);
    d, events := PlayReplay(INITIAL_DEST, d, events, false);
    d, events := PlaySent(INITIAL_DEST, d, events, "1");
    d, events := Play(INITIAL_DEST, d, events, WorkStep(Good));
  }

  /** Safe to advance while a job is in the lane: a replayed message re-queues a failed
      destination without reopening its ledger row. */
  lemma QueuedYetSafe() returns (events: seq<Event>)
    ensures QueuedUnseen(Run(INITIAL_DEST, events)) && Run(INITIAL_DEST, events).row == Some(Failed)
  {
    var d;
    d, events := PlayReplayRouteGone(INITIAL_DEST, INITIAL_DEST, []);
    d, events := PlayFanOut(INITIAL_DEST, d, events, false);
  }

  /** No failed row is needed: after a sweep a replay queues a second job beside the first,
      which then stores the copy and drops the row. */
  lemma QueuedBesideCopy() returns (events: seq<Event>)
    ensures var d := Run(INITIAL_DEST, events); QueuedUnseen(d) && d.row == None && d.copy.Some?
  {
    var d;
    d, events := PlayFirstAttempt(false);
    d, events := Play(INITIAL_DEST, d, events, SweepLedger);
    d, events := PlayFanOut(INITIAL_DEST, d, events, false);
    d, events := PlaySent(INITIAL_DEST, d, events, "1");
    d, events := Play(INITIAL_DEST, d, events, WorkStep(Good));
  }

  /** The copy is stored and the best-effort removal of the row fails: from then on the message
      is pending for ever. */
  lemma StoredYetPendingForever() returns (events: seq<Event>)
    ensures var d := Run(INITIAL_DEST, events);
            AtRest(d) && !d.tombstoned && d.copy.Some? && !CanComeToQuiet(d)
  {
    var d;
    d, events := PlayFirstAttempt(false);
    d, events := PlaySent(INITIAL_DEST, d, events, "1");
    d, events := Play(INITIAL_DEST, d, events, WorkStep(DbFails));
    d, events := Play(INITIAL_DEST, d, events, RetryStep(false));
    ComeToQuietIff(events);
  }

  /** One attempt, from the tombstone check, answered with an error that reports acceptance. */
  lemma PlayAccepted(start: Dest, d: Dest, events: seq<Event>) returns (d': Dest, events': seq<Event>)
    requires d == Run(start, events) && !d.tombstoned && d.row.Some? && d.primary.step == Some(Pending)
    requires d.worker.Running? && d.worker.pc == CheckRoute && !d.worker.job.media && d.worker.attempt < MAX_ATTEMPTS
    ensures d' == Run(start, events')
    ensures d' == d.(row := Some(Retrying), primary := d.primary.Count(1, 0),
                     worker := Running(d.worker.job, d.worker.attempt + 1, CheckRoute))
  {
    d', events' := PlayRejected(start, d, events, Primary, Failure(Transient, true, 0, SendAccepted));
    d', events' := Play(start, d', events', WorkStep(Settled(false, true)));
    d', events' := Play(start, d', events', RetryStep(false));
    d', events' := PlayAttempt(start, d', events');
  }

  /** Without the adapters' contract the send bound fails: an error that reports acceptance is
      retried, twice sent and never interrupted. */
  lemma AcceptedErrorIsResent() returns (events: seq<Event>)
    ensures var book := Run(INITIAL_DEST, events).primary;
            book.tally.possiblySent == 2 && book.tally.interrupted == 0
  {
    var d;
    d, events := PlayFirstAttempt(false);
    d, events := PlayAccepted(INITIAL_DEST, d, events);
    d, events := PlayAccepted(INITIAL_DEST, d, events);
  }

  // ---- The whole message --------------------------------------------------------------------------

  /** With nothing pending for the message, no destination has a job queued or running unless a
      fan-out in the present process offered it a job while one was queued or running, or while
      nothing was pending there. */
  lemma NoJobLeftBehind(endpoints: set<string>, events: seq<SysEvent>, endpoint: string)
    requires endpoint in endpoints
    requires !PendingDelivery(SysRun(InitialSys(endpoints), events))
    ensures endpoint in SysRun(InitialSys(endpoints), events).dests
    ensures Busy(SysRun(InitialSys(endpoints), events).dests[endpoint]) ==> OfferedAgain(Own(events, endpoint))
  {
    SysRunProjects(endpoints, events, endpoint);
    OverlapIffOfferedAgain(Own(events, endpoint));
  }
}
