/** Whole attempts of the create job, and whole fan-outs to one destination, as runs of the step
    machine of CreateProtocol under everything the world may do to them. */
module CreateAttempt {
  import opened Wrappers
  import opened Failures
  import opened CreateProtocol
  import opened FanOutLedger
  import opened SafeMoments

  datatype RouteCheck = RouteOk | RouteChangedNow | RouteUnreadable

  datatype Answer = Sent(remoteID: string, usable: bool) | Refused(failure: Failure)

  /** How the outside world treats one attempt: which statements succeed, what the
      provider answers, whether a delete arrives while it is being asked. */
  datatype World = World(
    readTombstone: bool, begin: bool, route: RouteCheck,
    readCompanion: bool, companionAnswer: Answer, recordCompanion: bool,
    readPrimary: bool, primaryAnswer: Answer, recordPrimary: bool,
    deleteArrives: bool, recheck: bool, store: bool, savePollRef: bool, discard: bool,
    cancelled: bool, finish: bool)
  {
    function Reads(kind: StepKind): bool { if kind == Companion then readCompanion else readPrimary }
    function Answers(kind: StepKind): Answer { if kind == Companion then companionAnswer else primaryAnswer }
    function Records(kind: StepKind): bool { if kind == Companion then recordCompanion else recordPrimary }
  }

  function Statement(works: bool): Choice {
    if works then Good else DbFails
  }

  /** The world's answer to the worker's next call. */
  function ChoiceAt(w: World, pc: Pc): Choice {
    match pc
    case CheckTombstone => Statement(w.readTombstone)
    case BeginAttempt => Statement(w.begin)
    case CheckRoute => if w.route == RouteOk then Good else if w.route == RouteChangedNow then RouteChanged else DbFails
    case ReadStep(kind) => Statement(w.Reads(kind))
    case AwaitProvider(kind) =>
      (match w.Answers(kind)
       case Sent(remoteID, usable) => Accepted(remoteID, usable)
       case Refused(failure) => Rejected(failure))
    case RecordSent(kind, _) => Statement(w.Records(kind))
    case RecordUnknown(kind, _) => Statement(w.Records(kind))
    case RecheckTombstone(_) => Statement(w.recheck)
    case StoreCopy(_) => Statement(w.store)
    case SavePollRef => Statement(w.savePollRef)
    case Discard => Statement(w.discard)
    case Settle(_) => Settled(w.cancelled, w.finish)
    case Returned(_) => Good
  }

  function Rank(pc: Pc): nat {
    match pc
    case CheckTombstone => 13
    case BeginAttempt => 12
    case CheckRoute => 11
    case ReadStep(kind) => if kind == Companion then 10 else 7
    case AwaitProvider(kind) => if kind == Companion then 9 else 6
    case RecordSent(kind, _) => if kind == Companion then 8 else 5
    case RecordUnknown(kind, _) => if kind == Companion then 8 else 5
    case RecheckTombstone(_) => 4
    case StoreCopy(_) => 3
    case SavePollRef => 2
    case Discard => 1
    case Settle(_) => 1
    case Returned(_) => 0
  }

  /** A delete lands while the provider is being asked. */
  function Arrive(d: Dest, w: World): Dest {
    if w.deleteArrives && d.worker.Running? && d.worker.pc.RecheckTombstone? then Next(d, Tombstone) else d
  }

  /** The step machine, run until the job returns. */
  function Finish(d: Dest, w: World): (r: Dest)
    requires d.worker.Running?
    ensures r.worker.Running? && r.worker.pc.Returned?
    ensures r.worker.job == d.worker.job && r.worker.attempt == d.worker.attempt
    ensures r.handler == d.handler && r.lane == d.lane && r.fannedOut == d.fannedOut
    decreases Rank(d.worker.pc)
  {
    if d.worker.pc.Returned? then d
    else
      WorkAdvances(Arrive(d, w), w);
      Finish(Work(Arrive(d, w), ChoiceAt(w, d.worker.pc)), w)
  }

  // ---- One call of an attempt at a time -----------------------------------------------------

  /** The worker's next call, and the rest of the attempt. */
  lemma FinishOneStep(d: Dest, w: World)
    requires d.worker.Running? && !d.worker.pc.Returned?
    ensures Finish(d, w) == Finish(Work(Arrive(d, w), ChoiceAt(w, d.worker.pc)), w)
  {
  }

  lemma FromCheckTombstone(d: Dest, w: World)
    requires d.worker.Running? && d.worker.pc == CheckTombstone
    ensures Finish(d, w) ==
            if !w.readTombstone then d.Goto(Returned(Some(PLAIN_ERROR)))
            else Finish(d.Goto(if d.tombstoned then Discard else BeginAttempt), w)
  {
    FinishOneStep(d, w);
  }

  lemma FromBeginAttempt(d: Dest, w: World)
    requires d.worker.Running? && d.worker.pc == BeginAttempt
    ensures Finish(d, w) ==
            if !w.begin then d.Goto(Returned(Some(PLAIN_ERROR)))
            else Finish(d.UpdateRow(Retrying).Goto(CheckRoute), w)
  {
    FinishOneStep(d, w);
  }

  lemma FromCheckRoute(d: Dest, w: World)
    requires d.worker.Running? && d.worker.pc == CheckRoute
    ensures Finish(d, w) ==
            Finish(d.Goto(match w.route
                          case RouteOk => ReadStep(if d.worker.job.media then Companion else Primary)
                          case RouteChangedNow => Settle(ROUTE_GONE)
                          case RouteUnreadable => Settle(PLAIN_ERROR)), w)
  {
    FinishOneStep(d, w);
  }

  lemma FromReadStep(d: Dest, kind: StepKind, w: World)
    requires d.worker.Running? && d.worker.pc == ReadStep(kind)
    ensures Finish(d, w) ==
            if !w.Reads(kind) || d.BookOf(kind).step.None? then Finish(d.Goto(Settle(PLAIN_ERROR)), w)
            else match d.BookOf(kind).step.value
              case Ambiguous => d.Goto(Returned(None))
              case Complete(remoteID) => Finish(d.Goto(AfterStep(kind, remoteID)), w)
              case Pending => Finish(d.Goto(AwaitProvider(kind)), w)
  {
    FinishOneStep(d, w);
  }

  lemma FromRefusal(d: Dest, kind: StepKind, failure: Failure, w: World)
    requires d.worker.Running? && d.worker.pc == AwaitProvider(kind) && w.Answers(kind) == Refused(failure)
    ensures var counted := d.SetBook(kind, d.BookOf(kind).Count(1, 0));
            Finish(d, w) == match failure.certainty
                            case DefinitelyNotSent => Finish(d.Goto(Settle(failure)), w)
                            case SendAccepted => Finish(counted.Goto(Settle(failure)), w)
                            case SendUnknown => Finish(counted.Goto(RecordUnknown(kind, failure)), w)
  {
    FinishOneStep(d, w);
  }

  lemma FromAcceptance(d: Dest, kind: StepKind, id: string, usable: bool, w: World)
    requires d.worker.Running? && d.worker.pc == AwaitProvider(kind) && w.Answers(kind) == Sent(id, usable)
    ensures Finish(d, w) ==
            if kind == Primary && !usable
            then Finish(d.SetBook(kind, d.BookOf(kind).Count(1, 1)).Goto(Settle(PLAIN_ERROR)), w)
            else
              var pc := RecordSent(kind, if kind == Companion then "" else id);
              Finish(d.SetBook(kind, d.BookOf(kind).Count(1, 0)).Goto(pc), w)
  {
    FinishOneStep(d, w);
  }

  lemma FromRecordSent(d: Dest, kind: StepKind, remoteID: string, w: World)
    requires d.worker.Running? && d.worker.pc == RecordSent(kind, remoteID)
    ensures Finish(d, w) ==
            if w.Records(kind) then
              var sent := d.BookOf(kind).(step := Some(Complete(remoteID)));
              Finish(d.SetBook(kind, sent).Goto(AfterStep(kind, remoteID)), w)
            else Finish(d.SetBook(kind, d.BookOf(kind).Count(0, 1)).Goto(Settle(PLAIN_ERROR)), w)
  {
    FinishOneStep(d, w);
  }

  lemma FromRecordUnknown(d: Dest, kind: StepKind, failure: Failure, w: World)
    requires d.worker.Running? && d.worker.pc == RecordUnknown(kind, failure)
    ensures Finish(d, w) ==
            if w.Records(kind)
            then Finish(d.SetBook(kind, d.BookOf(kind).(step := Some(Ambiguous))).Goto(Settle(failure)), w)
            else Finish(d.SetBook(kind, d.BookOf(kind).Count(0, 1)).Goto(Settle(failure)), w)
  {
    FinishOneStep(d, w);
  }

  lemma FromRecheck(d: Dest, remoteID: string, w: World)
    requires d.worker.Running? && d.worker.pc == RecheckTombstone(remoteID)
    ensures var d' := if w.deleteArrives then d.(tombstoned := true) else d;
            Finish(d, w) == Finish(d'.Goto(if !w.recheck then Settle(PLAIN_ERROR)
                                           else if d'.tombstoned then Discard
                                           else StoreCopy(remoteID)), w)
  {
    FinishOneStep(d, w);
  }

  lemma FromStoreCopy(d: Dest, remoteID: string, w: World)
    requires d.worker.Running? && d.worker.pc == StoreCopy(remoteID)
    ensures Finish(d, w) ==
            if !w.store || d.copy.Some? then Finish(d.Goto(Settle(PLAIN_ERROR)), w)
            else Finish(d.(copy := Some(remoteID)).Goto(SavePollRef), w)
  {
    FinishOneStep(d, w);
  }

  lemma FromSavePollRef(d: Dest, w: World)
    requires d.worker.Running? && d.worker.pc == SavePollRef
    ensures Finish(d, w) == Finish(d.Goto(if w.savePollRef then Discard else Settle(PLAIN_ERROR)), w)
  {
    FinishOneStep(d, w);
  }

  lemma FromDiscard(d: Dest, w: World)
    requires d.worker.Running? && d.worker.pc == Discard
    ensures Finish(d, w) == (if w.discard then d.(row := None) else d).Goto(Returned(None))
  {
    FinishOneStep(d, w);
  }

  lemma FromSettle(d: Dest, failure: Failure, w: World)
    requires d.worker.Running? && d.worker.pc == Settle(failure)
    ensures Finish(d, w) == CreateProtocol.FinishFailure(d, failure, w.cancelled, w.finish)
  {
    FinishOneStep(d, w);
  }

  /** The adapters' contract for this attempt. */
  predicate HonestWorld(w: World) {
    forall kind: StepKind :: w.Answers(kind).Refused? ==> w.Answers(kind).failure.certainty != SendAccepted
  }

  lemma ArriveIsRun(d: Dest, w: World, events: seq<Event>) returns (d': Dest, events': seq<Event>)
    requires d == Run(INITIAL_DEST, events) && d.worker.Running? && forall e <- events :: Honest(e)
    ensures d' == Arrive(d, w) == Run(INITIAL_DEST, events') && d'.worker == d.worker
    ensures forall e <- events' :: Honest(e)
  {
    d', events' := d, events;
    if Arrive(d, w) != d {
      d', events' := Play(INITIAL_DEST, d, events, Tombstone);
    }
  }

  lemma WorkIsRun(d: Dest, w: World, events: seq<Event>) returns (d': Dest, events': seq<Event>)
    requires d == Run(INITIAL_DEST, events) && d.worker.Running? && HonestWorld(w) && forall e <- events :: Honest(e)
    ensures d' == Work(d, ChoiceAt(w, d.worker.pc)) == Run(INITIAL_DEST, events')
    ensures forall e <- events' :: Honest(e)
  {
    var c := ChoiceAt(w, d.worker.pc);
    d', events' := Play(INITIAL_DEST, d, events, WorkStep(c));
    assert Honest(WorkStep(c));
  }

  /** An attempt is a run of the step machine, so everything proved of runs holds of it. */
  lemma {:induction false} FinishIsRun(d: Dest, w: World, events: seq<Event>) returns (events': seq<Event>)
    requires d.worker.Running? && d == Run(INITIAL_DEST, events)
    requires HonestWorld(w) && forall e <- events :: Honest(e)
    ensures Finish(d, w) == Run(INITIAL_DEST, events')
    ensures forall e <- events' :: Honest(e)
    decreases Rank(d.worker.pc)
  {
    events' := events;
    if !d.worker.pc.Returned? {
      FinishOneStep(d, w);
      var d';
      d', events' := ArriveIsRun(d, w, events);
      WorkAdvances(d', w);
      d', events' := WorkIsRun(d', w, events');
      events' := FinishIsRun(d', w, events');
    }
  }

  lemma {:induction false} FinishLedger(d: Dest, w: World)
    requires d.worker.Running? && Ledger(d)
    ensures Ledger(Finish(d, w))
    decreases Rank(d.worker.pc)
  {
    if !d.worker.pc.Returned? {
      LedgerNext(d, Tombstone);
      WorkAdvances(Arrive(d, w), w);
      LedgerWork(Arrive(d, w), ChoiceAt(w, d.worker.pc));
      FinishLedger(Work(Arrive(d, w), ChoiceAt(w, d.worker.pc)), w);
    }
  }

  lemma WorkAdvances(d: Dest, w: World)
    requires d.worker.Running? && !d.worker.pc.Returned?
    ensures Rank(Work(d, ChoiceAt(w, d.worker.pc)).worker.pc) < Rank(d.worker.pc)
  {
    match d.worker.pc
    case ReadStep(k) => ReadAdvances(d, k, w.Reads(k));
    case AwaitProvider(k) => HearAdvances(d, k, w);
    case _ =>
  }

  lemma ReadAdvances(d: Dest, k: StepKind, works: bool)
    requires d.worker.Running?
    ensures Rank(Read(d, k, Statement(works)).worker.pc) < Rank(ReadStep(k))
  {
  }

  lemma HearAdvances(d: Dest, k: StepKind, w: World)
    requires d.worker.Running?
    ensures Rank(Hear(d, k, ChoiceAt(w, AwaitProvider(k))).worker.pc) < Rank(AwaitProvider(k))
  {
  }

  // ---- The retry loop around the attempts ---------------------------------------------------------

  /** One attempt, and whether the loop gives up after it. */
  datatype Try = Try(world: World, giveUp: bool)

  predicate Fresh(d: Dest, tries: seq<Try>) {
    && d.worker.Running? && d.worker.pc == CheckTombstone && 1 <= d.worker.attempt <= MAX_ATTEMPTS
    && |tries| > MAX_ATTEMPTS - d.worker.attempt
  }

  /** The step machine, run until the worker is idle again. */
  function FinishTries(d: Dest, tries: seq<Try>): (r: Dest)
    requires Fresh(d, tries)
    ensures r.worker.Idle?
    decreases MAX_ATTEMPTS - d.worker.attempt
  {
    var d' := Again(Finish(d, tries[0].world), tries[0].giveUp);
    if d'.worker.Idle? then d' else FinishTries(d', tries[1..])
  }

  /** What follows an attempt that has returned. */
  function AfterAttempt(d: Dest, tries: seq<Try>): Dest
    requires d.worker.Running? && d.worker.pc.Returned? && 1 <= d.worker.attempt <= MAX_ATTEMPTS
    requires |tries| > MAX_ATTEMPTS - d.worker.attempt
  {
    var d' := Again(d, tries[0].giveUp);
    if d'.worker.Idle? then d' else FinishTries(d', tries[1..])
  }

  lemma FirstTry(d: Dest, tries: seq<Try>)
    requires Fresh(d, tries)
    ensures FinishTries(d, tries) == AfterAttempt(Finish(d, tries[0].world), tries)
  {
  }

  lemma OneMoreTry(d: Dest, tries: seq<Try>, k: nat)
    requires d.worker.Running? && d.worker.pc.Returned? && 1 <= d.worker.attempt == k < MAX_ATTEMPTS <= |tries|
    requires d.worker.pc.error.Some? && d.worker.pc.error.value.retryable && !tries[k - 1].giveUp
    ensures AfterAttempt(d, tries[k - 1..]) ==
            FinishTries(d.(worker := Running(d.worker.job, k + 1, CheckTombstone)), tries[k..])
  {
    assert tries[k - 1..][1..] == tries[k..];
  }

  lemma LastTry(d: Dest, tries: seq<Try>, k: nat)
    requires d.worker.Running? && d.worker.pc.Returned? && 1 <= d.worker.attempt == k <= MAX_ATTEMPTS <= |tries|
    requires var error := d.worker.pc.error;
             error.None? || !error.value.retryable || k == MAX_ATTEMPTS || tries[k - 1].giveUp
    ensures AfterAttempt(d, tries[k - 1..]) == d.(worker := Idle)
  {
  }

  /** A job run to its end keeps the ledger invariant. */
  lemma {:induction false} FinishTriesLedger(d: Dest, tries: seq<Try>)
    requires Fresh(d, tries) && Ledger(d)
    ensures Ledger(FinishTries(d, tries))
    decreases MAX_ATTEMPTS - d.worker.attempt
  {
    FirstTry(d, tries);
    FinishLedger(d, tries[0].world);
    var d' := Finish(d, tries[0].world);
    LedgerNext(d', RetryStep(tries[0].giveUp));
    if Again(d', tries[0].giveUp).worker.Running? {
      FinishTriesLedger(Again(d', tries[0].giveUp), tries[1..]);
    }
  }

  /** How the outside world treats the fan-out to one destination. */
  datatype HandlerWorld = HandlerWorld(
    lookCopy: bool, lookRow: bool, insertRow: bool, insertPrimary: bool, insertCompanion: bool,
    room: bool, markRefused: bool)

  function HandlerChoiceAt(h: HandlerWorld, pc: HandlerPc): HandlerChoice {
    var works := match pc
                 case LookCopy => h.lookCopy
                 case LookRow => h.lookRow
                 case InsertRow => h.insertRow
                 case InsertPrimary => h.insertPrimary
                 case InsertCompanion => h.insertCompanion
                 case Offer => true
                 case MarkRefused => h.markRefused;
    if !works then Broken else if pc == Offer && !h.room then LaneFull else Fine
  }

  function HandlerRank(pc: HandlerPc): nat {
    match pc
    case LookCopy => 6
    case LookRow => 5
    case InsertRow => 4
    case InsertPrimary => 3
    case InsertCompanion => 2
    case Offer => 1
    case MarkRefused => 0
  }

  /** The fan-out machine for one destination, run to its end; the second component says
      whether Handle goes on to the next destination. */
  function FinishHandle(d: Dest, h: HandlerWorld): (r: (Dest, bool))
    requires d.handler.Handling?
    ensures r.0.handler.NotHandling?
    decreases HandlerRank(d.handler.pc)
  {
    var c := HandlerChoiceAt(h, d.handler.pc);
    var d' := Handle(d, c);
    if d'.handler.Handling? then FinishHandle(d', h) else (d', c == Fine && d.handler.pc != MarkRefused)
  }

  /** One step of the fan-out machine at a time. */
  lemma HandleOneStep(d: Dest, h: HandlerWorld)
    requires d.handler.Handling?
    ensures var c := HandlerChoiceAt(h, d.handler.pc);
            FinishHandle(d, h) == if Handle(d, c).handler.Handling? then FinishHandle(Handle(d, c), h)
                                  else (Handle(d, c), c == Fine && d.handler.pc != MarkRefused)
  {
  }

  lemma FromLookCopy(d: Dest, media: bool, h: HandlerWorld)
    requires d.handler == Handling(media, LookCopy)
    ensures FinishHandle(d, h) ==
            if !h.lookCopy then (d.(handler := NotHandling), false)
            else if d.copy.Some? then (d.(handler := NotHandling, fannedOut := true), true)
            else FinishHandle(d.(handler := Handling(media, LookRow)), h)
  {
  }

  lemma FromLookRow(d: Dest, media: bool, h: HandlerWorld)
    requires d.handler == Handling(media, LookRow)
    ensures FinishHandle(d, h) ==
            if !h.lookRow then (d.(handler := NotHandling), false)
            else if d.row == Some(Queued) || d.row == Some(Retrying)
            then (d.(handler := NotHandling, fannedOut := true), true)
            else FinishHandle(d.(handler := Handling(media, InsertRow)), h)
  {
  }

  lemma FromInsertRow(d: Dest, media: bool, h: HandlerWorld)
    requires d.handler == Handling(media, InsertRow)
    ensures FinishHandle(d, h) ==
            if !h.insertRow then (d.(handler := NotHandling), false)
            else FinishHandle(d.(row := if d.row.None? then Some(Queued) else d.row,
                                 handler := Handling(media, InsertPrimary)), h)
  {
  }

  lemma FromInsertPrimary(d: Dest, media: bool, h: HandlerWorld)
    requires d.handler == Handling(media, InsertPrimary)
    ensures FinishHandle(d, h) ==
            if !h.insertPrimary then (d.(handler := NotHandling), false)
            else FinishHandle(d.(primary := d.primary.Insert(),
                                 handler := Handling(media, if media then InsertCompanion else Offer)), h)
  {
  }

  lemma FromInsertCompanion(d: Dest, media: bool, h: HandlerWorld)
    requires d.handler == Handling(media, InsertCompanion)
    ensures FinishHandle(d, h) ==
            if !h.insertCompanion then (d.(handler := NotHandling), false)
            else FinishHandle(d.(companion := d.companion.Insert(), handler := Handling(media, Offer)), h)
  {
  }

  lemma FromOffer(d: Dest, media: bool, h: HandlerWorld)
    requires d.handler == Handling(media, Offer)
    ensures FinishHandle(d, h) ==
            if h.room then (d.(handler := NotHandling, fannedOut := true, lane := d.lane + [Job(media)]), true)
            else if h.markRefused then (d.UpdateRow(AwaitingReplay).(handler := NotHandling), false)
            else (d.(handler := NotHandling), false)
  {
    assert !h.room ==> FinishHandle(d, h) == FinishHandle(d.(handler := Handling(media, MarkRefused)), h);
  }

  /** What one step of a fan-out keeps, and what the last one achieves. */
  lemma HandleStepLedger(d: Dest, c: HandlerChoice)
    requires d.handler.Handling? && Ledger(d)
    ensures var d' := Handle(d, c);
            && Ledger(d') && (d.fannedOut ==> d'.fannedOut)
            && (d'.handler.NotHandling? && c == Fine && d.handler.pc != MarkRefused ==> d'.fannedOut)
  {
    LedgerHandle(d, c);
  }

  /** A fan-out keeps the ledger invariant, and covers the destination when it succeeds. */
  lemma {:induction false} FinishHandleLedger(d: Dest, h: HandlerWorld)
    requires d.handler.Handling? && Ledger(d)
    ensures Ledger(FinishHandle(d, h).0)
    ensures FinishHandle(d, h).1 || d.fannedOut ==> FinishHandle(d, h).0.fannedOut
    decreases HandlerRank(d.handler.pc)
  {
    var c := HandlerChoiceAt(h, d.handler.pc);
    var d' := HandleTo(d, c);
    HandleOneStep(d, h);
    if d'.handler.Handling? {
      FinishHandleLedger(d', h);
    }
  }

  lemma HandleTo(d: Dest, c: HandlerChoice) returns (d': Dest)
    requires d.handler.Handling? && Ledger(d)
    ensures d' == Handle(d, c) && Ledger(d') && (d.fannedOut ==> d'.fannedOut)
    ensures d'.handler.NotHandling? && c == Fine && d.handler.pc != MarkRefused ==> d'.fannedOut
    ensures d'.handler.Handling? ==> HandlerRank(d'.handler.pc) < HandlerRank(d.handler.pc)
  {
    HandleStepLedger(d, c);
    d' := Handle(d, c);
  }
}
