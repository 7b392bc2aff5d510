/** What a whole attempt of the create job comes to when its statements work, and how many attempts a job
    makes (internal/router/router.go:1066-1205, internal/delivery/lanes.go:207-242). */
module CreateOutcome {
  import opened Wrappers
  import opened Failures
  import opened CreateProtocol
  import opened CreateAttempt

  /** Every statement of the attempt works, and no delete arrives during it. */
  predicate Works(w: World) {
    && w.readTombstone && w.begin && w.route != RouteUnreadable && w.readCompanion && w.recordCompanion
    && w.readPrimary && w.recordPrimary && w.recheck && w.store && w.savePollRef && w.discard && w.finish
    && !w.deleteArrives
  }

  /** An undeleted destination without a copy, whose rows are there. */
  predicate Open(d: Dest) {
    !d.tombstoned && d.copy == None && d.row.Some? && d.primary.step.Some?
  }

  predicate Ready(d: Dest) {
    && Open(d) && d.worker.Running? && d.worker.pc == CheckTombstone
    && (d.worker.job.media ==> d.companion.step.Some?)
  }

  /** The message is delivered under an id; a step of unknown outcome stops the job; or it fails. */
  datatype Verdict = Delivered(remoteID: string) | Stopped | Fails(failure: Failure)

  /** The primary step: what was recorded of it, or else what the provider says. */
  function PrimaryVerdict(primary: StepState, w: World): Verdict {
    match primary
    case Ambiguous => Stopped
    case Complete(remoteID) => Delivered(remoteID)
    case Pending =>
      match w.primaryAnswer
      case Sent(remoteID, usable) =>
        if usable then Delivered(remoteID) else Fails(Failure(Transient, true, 0, DefinitelyNotSent))
      case Refused(failure) => Fails(failure)
  }

  /** For media the attribution companion comes before the primary. */
  function MediaVerdict(companion: StepState, primary: StepState, w: World): Verdict {
    match companion
    case Ambiguous => Stopped
    case Complete(_) => PrimaryVerdict(primary, w)
    case Pending =>
      match w.companionAnswer
      case Sent(_, _) => PrimaryVerdict(primary, w)
      case Refused(failure) => Fails(failure)
  }

  /** Before both comes the route. */
  function VerdictOf(d: Dest, w: World): Verdict
    requires Ready(d)
  {
    if w.route == RouteChangedNow then Fails(Failure(DestinationMissing, false, 0, DefinitelyNotSent))
    else if d.worker.job.media then MediaVerdict(d.companion.step.value, d.primary.step.value, w)
    else PrimaryVerdict(d.primary.step.value, w)
  }

  /** Whether a failure is left to another attempt of the same job. */
  predicate TriesAgain(f: Failure, attempt: nat, cancelled: bool) {
    f.certainty != SendUnknown && f.retryable && attempt < 4 && !cancelled
  }

  /** The rows and the answer that a verdict leaves: the copy and no row; or a row that is still retrying,
      if the job stopped or is to be tried again; or a row that awaits a replay, if the outcome is unknown, or
      if the failure is worth retrying but the fourth attempt or the context is over; or a failed row. */
  predicate Leaves(attempt: nat, v: Verdict, cancelled: bool, after: Dest)
    requires after.worker.Running?
  {
    match v
    case Delivered(remoteID) =>
      after.copy == Some(remoteID) && after.row == None && after.worker.pc == Returned(None)
    case Stopped => after.copy == None && after.row == Some(Retrying) && after.worker.pc == Returned(None)
    case Fails(f) =>
      && after.copy == None
      && if TriesAgain(f, attempt, cancelled)
         then after.row == Some(Retrying) && after.worker.pc == Returned(Some(f))
         else
           && after.worker.pc == Returned(None)
           && after.row == Some(if f.retryable || f.certainty == SendUnknown then AwaitingReplay else Failed)
  }

  lemma SettleLeaves(d: Dest, f: Failure, w: World)
    requires Open(d) && d.row == Some(Retrying) && d.worker.Running? && d.worker.pc == Settle(f) && Works(w)
    ensures Leaves(d.worker.attempt, Fails(f), w.cancelled, Finish(d, w))
    ensures var e := Finish(d, w);
            e.companion == d.companion && e.primary == d.primary && !e.tombstoned && e.worker.job == d.worker.job
  {
    FromSettle(d, f, w);
  }

  lemma StoreLeaves(d: Dest, id: string, w: World)
    requires Open(d) && d.worker.Running? && d.worker.pc == RecheckTombstone(id) && Works(w)
    ensures Leaves(d.worker.attempt, Delivered(id), w.cancelled, Finish(d, w))
  {
    FromRecheck(d, id, w);
    var d1 := d.Goto(StoreCopy(id));
    FromStoreCopy(d1, id, w);
    var d2 := d1.(copy := Some(id)).Goto(SavePollRef);
    FromSavePollRef(d2, w);
    FromDiscard(d2.Goto(Discard), w);
  }

  /** A refusal: an unknown outcome is remembered in the step, a definite one leaves it pending. */
  lemma RefusalLeaves(d: Dest, kind: StepKind, f: Failure, w: World)
    requires Open(d) && d.row == Some(Retrying) && d.worker.Running? && d.worker.pc == AwaitProvider(kind) && Works(w)
    requires w.Answers(kind) == Refused(f)
    ensures Leaves(d.worker.attempt, Fails(f), w.cancelled, Finish(d, w))
  {
    FromRefusal(d, kind, f, w);
    var counted := d.SetBook(kind, d.BookOf(kind).Count(1, 0));
    if f.certainty == SendUnknown {
      var d1 := counted.Goto(RecordUnknown(kind, f));
      FromRecordUnknown(d1, kind, f, w);
      SettleLeaves(d1.SetBook(kind, d1.BookOf(kind).(step := Some(Ambiguous))).Goto(Settle(f)), f, w);
    } else if f.certainty == SendAccepted {
      SettleLeaves(counted.Goto(Settle(f)), f, w);
    } else {
      SettleLeaves(d.Goto(Settle(f)), f, w);
    }
  }

  lemma PrimaryLeaves(d: Dest, w: World)
    requires Open(d) && d.row == Some(Retrying) && d.worker.Running? && d.worker.pc == ReadStep(Primary) && Works(w)
    ensures Leaves(d.worker.attempt, PrimaryVerdict(d.primary.step.value, w), w.cancelled, Finish(d, w))
  {
    FromReadStep(d, Primary, w);
    match d.primary.step.value
    case Ambiguous =>
    case Complete(id) => StoreLeaves(d.Goto(RecheckTombstone(id)), id, w);
    case Pending => AnswerLeaves(d.Goto(AwaitProvider(Primary)), w);
  }

  lemma AnswerLeaves(d: Dest, w: World)
    requires Open(d) && d.row == Some(Retrying) && d.primary.step == Some(Pending) && Works(w)
    requires d.worker.Running? && d.worker.pc == AwaitProvider(Primary)
    ensures Leaves(d.worker.attempt, PrimaryVerdict(d.primary.step.value, w), w.cancelled, Finish(d, w))
  {
    match w.primaryAnswer
    case Refused(f) => RefusalLeaves(d, Primary, f, w);
    case Sent(id, usable) =>
      FromAcceptance(d, Primary, id, usable, w);
      if usable {
        var d1 := d.SetBook(Primary, d.primary.Count(1, 0)).Goto(RecordSent(Primary, id));
        FromRecordSent(d1, Primary, id, w);
        StoreLeaves(d1.SetBook(Primary, d1.primary.(step := Some(Complete(id)))).Goto(RecheckTombstone(id)), id, w);
      } else {
        SettleLeaves(d.SetBook(Primary, d.primary.Count(1, 1)).Goto(Settle(PLAIN_ERROR)), PLAIN_ERROR, w);
      }
  }

  lemma CompanionLeaves(d: Dest, w: World)
    requires Open(d) && d.row == Some(Retrying) && d.companion.step.Some? && Works(w)
    requires d.worker.Running? && d.worker.job.media && d.worker.pc == ReadStep(Companion) && w.route == RouteOk
    ensures var v := MediaVerdict(d.companion.step.value, d.primary.step.value, w);
            Leaves(d.worker.attempt, v, w.cancelled, Finish(d, w))
  {
    FromReadStep(d, Companion, w);
    match d.companion.step.value
    case Ambiguous =>
    case Complete(id) => PrimaryLeaves(d.Goto(ReadStep(Primary)), w);
    case Pending =>
      match w.companionAnswer
      case Refused(f) => RefusalLeaves(d.Goto(AwaitProvider(Companion)), Companion, f, w);
      case Sent(id, usable) => CompanionSent(d.Goto(AwaitProvider(Companion)), id, usable, w);
  }

  lemma CompanionSent(d: Dest, id: string, usable: bool, w: World)
    requires Open(d) && d.row == Some(Retrying) && d.worker.Running? && d.worker.pc == AwaitProvider(Companion)
    requires Works(w) && w.companionAnswer == Sent(id, usable)
    ensures Leaves(d.worker.attempt, PrimaryVerdict(d.primary.step.value, w), w.cancelled, Finish(d, w))
  {
    FromAcceptance(d, Companion, id, usable, w);
    var d1 := d.SetBook(Companion, d.companion.Count(1, 0)).Goto(RecordSent(Companion, ""));
    FromRecordSent(d1, Companion, "", w);
    PrimaryLeaves(d1.SetBook(Companion, d1.companion.(step := Some(Complete("")))).Goto(ReadStep(Primary)), w);
  }

  lemma AttemptStarts(d: Dest, w: World)
    requires Ready(d) && Works(w)
    ensures Finish(d, w) == Finish(d.(row := Some(Retrying)).Goto(CheckRoute), w)
  {
    FromCheckTombstone(d, w);
    FromBeginAttempt(d.Goto(BeginAttempt), w);
  }

  /** An attempt whose statements work comes to its verdict, and leaves what that calls for. */
  lemma AttemptLeaves(d: Dest, w: World)
    requires Ready(d) && Works(w)
    ensures Leaves(d.worker.attempt, VerdictOf(d, w), w.cancelled, Finish(d, w))
  {
    AttemptStarts(d, w);
    var d1 := d.(row := Some(Retrying)).Goto(CheckRoute);
    FromCheckRoute(d1, w);
    if w.route == RouteChangedNow {
      SettleLeaves(d1.Goto(Settle(ROUTE_GONE)), ROUTE_GONE, w);
    } else if d.worker.job.media {
      CompanionLeaves(d1.Goto(ReadStep(Companion)), w);
    } else {
      PrimaryLeaves(d1.Goto(ReadStep(Primary)), w);
    }
  }

  // ---- When a message is given up for good -------------------------------------------------------------

  /** The route is gone, or an answer says that trying again is no use. */
  predicate RefusedForGood(w: World) {
    w.route == RouteChangedNow || exists kind: StepKind :: w.Answers(kind).Refused? && ForGood(w.Answers(kind).failure)
  }

  predicate ForGood(f: Failure) {
    !f.retryable && f.certainty != SendUnknown
  }

  /** The worker only settles failures that are worth retrying, or of that kind. */
  predicate Settles(pc: Pc, w: World) {
    match pc
    case Settle(f) => ForGood(f) ==> RefusedForGood(w)
    case RecordUnknown(_, f) => f.certainty == SendUnknown
    case _ => true
  }

  lemma ReadSettles(d: Dest, k: StepKind, w: World)
    requires d.worker.Running? && d.worker.pc == ReadStep(k)
    ensures var d' := Work(d, ChoiceAt(w, d.worker.pc)); Settles(d'.worker.pc, w) && d'.row == d.row
  {
  }

  lemma HearSettles(d: Dest, k: StepKind, w: World)
    requires d.worker.Running? && d.worker.pc == AwaitProvider(k)
    ensures var d' := Work(d, ChoiceAt(w, d.worker.pc)); Settles(d'.worker.pc, w) && d'.row == d.row
  {
    assert w.Answers(k).Refused? && ForGood(w.Answers(k).failure) ==> RefusedForGood(w);
  }

  lemma SettleSettles(d: Dest, f: Failure, w: World)
    requires d.worker.Running? && d.worker.pc == Settle(f) && Settles(d.worker.pc, w)
    ensures var d' := Work(d, ChoiceAt(w, d.worker.pc));
            Settles(d'.worker.pc, w) && (d'.row == Some(Failed) && d.row != Some(Failed) ==> RefusedForGood(w))
  {
  }

  lemma RecordSettles(d: Dest, k: StepKind, w: World)
    requires d.worker.Running? && Settles(d.worker.pc, w) && Recording(d.worker, k)
    ensures var d' := Work(d, ChoiceAt(w, d.worker.pc)); Settles(d'.worker.pc, w) && d'.row == d.row
  {
  }

  lemma EarlySettles(d: Dest, w: World)
    requires d.worker.Running?
    requires d.worker.pc == CheckTombstone || d.worker.pc == BeginAttempt || d.worker.pc == CheckRoute
    ensures var d' := Work(d, ChoiceAt(w, d.worker.pc));
            Settles(d'.worker.pc, w) && (d'.row == Some(Failed) ==> d.row == Some(Failed))
  {
  }

  lemma LateSettles(d: Dest, w: World)
    requires d.worker.Running?
    requires d.worker.pc.RecheckTombstone? || d.worker.pc.StoreCopy? || d.worker.pc.SavePollRef? || d.worker.pc.Discard?
    ensures var d' := Work(d, ChoiceAt(w, d.worker.pc));
            Settles(d'.worker.pc, w) && (d'.row == Some(Failed) ==> d.row == Some(Failed))
  {
  }

  lemma WorkSettles(d: Dest, w: World)
    requires d.worker.Running? && Settles(d.worker.pc, w) && !d.worker.pc.Returned?
    ensures var d' := Work(d, ChoiceAt(w, d.worker.pc));
            Settles(d'.worker.pc, w) && (d'.row == Some(Failed) && d.row != Some(Failed) ==> RefusedForGood(w))
  {
    match d.worker.pc
    case ReadStep(k) => ReadSettles(d, k, w);
    case AwaitProvider(k) => HearSettles(d, k, w);
    case RecordSent(k, _) => RecordSettles(d, k, w);
    case RecordUnknown(k, _) => RecordSettles(d, k, w);
    case Settle(f) => SettleSettles(d, f, w);
    case CheckTombstone => EarlySettles(d, w);
    case BeginAttempt => EarlySettles(d, w);
    case CheckRoute => EarlySettles(d, w);
    case _ => LateSettles(d, w);
  }

  /** Whatever statements fail: an attempt leaves a failed row only if the route is gone or the provider has
      refused for good. */
  lemma {:induction false} FailsForGoodOnlyIf(d: Dest, w: World)
    requires d.worker.Running? && Settles(d.worker.pc, w) && d.row != Some(Failed)
    ensures Finish(d, w).row == Some(Failed) ==> RefusedForGood(w)
    decreases Rank(d.worker.pc)
  {
    if !d.worker.pc.Returned? {
      FinishOneStep(d, w);
      var d' := Arrive(d, w);
      WorkAdvances(d', w);
      WorkSettles(d', w);
      if Work(d', ChoiceAt(w, d.worker.pc)).row != Some(Failed) {
        FailsForGoodOnlyIf(Work(d', ChoiceAt(w, d.worker.pc)), w);
      }
    }
  }

  // ---- When a job is done ---------------------------------------------------------------------------------

  /** The worker is about to drop the row only with everything stored. */
  predicate DropsWith(d: Dest, w: World)
    requires d.worker.Running?
  {
    match d.worker.pc
    case SavePollRef => d.copy.Some?
    case Discard => d.tombstoned || (d.copy.Some? && w.savePollRef)
    case _ => true
  }

  lemma LateDropsWith(d: Dest, w: World)
    requires d.worker.Running? && DropsWith(d, w) && d.row.Some?
    requires d.worker.pc.RecheckTombstone? || d.worker.pc.StoreCopy? || d.worker.pc.SavePollRef? || d.worker.pc.Discard?
    ensures var d' := Work(d, ChoiceAt(w, d.worker.pc));
            && DropsWith(d', w)
            && (d'.row.None? ==> d'.worker.pc.Returned? && (d'.tombstoned || (d'.copy.Some? && w.savePollRef)))
  {
  }

  lemma EarlyDropsWith(d: Dest, w: World)
    requires d.worker.Running? && d.row.Some?
    requires d.worker.pc == CheckTombstone || d.worker.pc == BeginAttempt || d.worker.pc == CheckRoute
    ensures var d' := Work(d, ChoiceAt(w, d.worker.pc)); DropsWith(d', w) && d'.row.Some?
  {
  }

  lemma StepDropsWith(d: Dest, k: StepKind, w: World)
    requires d.worker.Running? && d.row.Some?
    requires d.worker.pc == ReadStep(k) || d.worker.pc == AwaitProvider(k) || Recording(d.worker, k)
    ensures var d' := Work(d, ChoiceAt(w, d.worker.pc)); DropsWith(d', w) && d'.row.Some?
  {
  }

  lemma WorkDropsWith(d: Dest, w: World)
    requires d.worker.Running? && !d.worker.pc.Returned? && DropsWith(d, w) && d.row.Some?
    ensures var d' := Work(d, ChoiceAt(w, d.worker.pc));
            && DropsWith(d', w)
            && (d'.row.None? ==> d'.worker.pc.Returned? && (d'.tombstoned || (d'.copy.Some? && w.savePollRef)))
  {
    match d.worker.pc
    case CheckTombstone => EarlyDropsWith(d, w);
    case BeginAttempt => EarlyDropsWith(d, w);
    case CheckRoute => EarlyDropsWith(d, w);
    case ReadStep(k) => StepDropsWith(d, k, w);
    case AwaitProvider(k) => StepDropsWith(d, k, w);
    case RecordSent(k, id) => StepDropsWith(d, k, w);
    case RecordUnknown(k, f) => StepDropsWith(d, k, w);
    case Settle(f) => SettleDropsWith(d, f, w);
    case _ => LateDropsWith(d, w);
  }

  lemma SettleDropsWith(d: Dest, f: Failure, w: World)
    requires d.worker.Running? && d.row.Some? && d.worker.pc == Settle(f)
    ensures var d' := Work(d, ChoiceAt(w, d.worker.pc)); DropsWith(d', w) && d'.row.Some?
  {
  }

  /** Whatever statements fail: an attempt drops its row only if the message is deleted, or its copy and the
      reference of its poll are stored. */
  lemma {:induction false} DroppedOnlyIf(d: Dest, w: World)
    requires d.worker.Running? && !d.worker.pc.Returned? && DropsWith(d, w) && d.row.Some?
    ensures var e := Finish(d, w); e.row.None? ==> e.tombstoned || (e.copy.Some? && w.savePollRef)
    decreases Rank(d.worker.pc)
  {
    FinishOneStep(d, w);
    var d1 := Arrive(d, w);
    WorkAdvances(d1, w);
    WorkDropsWith(d1, w);
    var d2 := Work(d1, ChoiceAt(w, d1.worker.pc));
    if !d2.worker.pc.Returned? {
      DroppedOnlyIf(d2, w);
    }
  }

  // ---- The attempts of a job ----------------------------------------------------------------------------

  /** An attempt without a delete takes no step row away. */
  lemma {:induction false} FinishKeeps(d: Dest, w: World, kind: StepKind)
    requires d.worker.Running? && !w.deleteArrives
    ensures Finish(d, w).tombstoned == d.tombstoned
    ensures d.BookOf(kind).step.Some? ==> Finish(d, w).BookOf(kind).step.Some?
    decreases Rank(d.worker.pc)
  {
    if !d.worker.pc.Returned? {
      FinishOneStep(d, w);
      WorkAdvances(d, w);
      WorkKeeps(d, ChoiceAt(w, d.worker.pc), kind);
      FinishKeeps(Work(d, ChoiceAt(w, d.worker.pc)), w, kind);
    }
  }

  lemma WorkKeeps(d: Dest, c: Choice, kind: StepKind)
    requires d.worker.Running?
    ensures d.BookOf(kind).step.Some? ==> Work(d, c).BookOf(kind).step.Some?
  {
    match d.worker.pc
    case ReadStep(k) => ReadKeeps(d, k, c, kind);
    case AwaitProvider(k) => HearKeeps(d, k, c, kind);
    case Settle(failure) =>
    case _ =>
  }

  lemma ReadKeeps(d: Dest, k: StepKind, c: Choice, kind: StepKind)
    requires d.worker.Running?
    ensures Read(d, k, c).BookOf(kind) == d.BookOf(kind)
  {
  }

  lemma HearKeeps(d: Dest, k: StepKind, c: Choice, kind: StepKind)
    requires d.worker.Running?
    ensures Hear(d, k, c).BookOf(kind).step == d.BookOf(kind).step
  {
  }

  /** The attempt fails in a way that is left to another one, and the window has not elapsed. */
  predicate GoesOn(d: Dest, t: Try)
    requires Ready(d)
  {
    var v := VerdictOf(d, t.world);
    v.Fails? && TriesAgain(v.failure, d.worker.attempt, t.world.cancelled) && !t.giveUp
  }

  function AtNextTry(d: Dest, w: World): Dest
    requires d.worker.Running?
  {
    Finish(d, w).(worker := Running(d.worker.job, d.worker.attempt + 1, CheckTombstone))
  }

  lemma NextIsReady(d: Dest, w: World)
    requires Ready(d) && Works(w) && VerdictOf(d, w).Fails?
    requires TriesAgain(VerdictOf(d, w).failure, d.worker.attempt, w.cancelled)
    ensures Ready(AtNextTry(d, w))
    ensures Finish(d, w).worker == Running(d.worker.job, d.worker.attempt, Returned(Some(VerdictOf(d, w).failure)))
  {
    AttemptLeaves(d, w);
    FinishKeeps(d, w, Primary);
    FinishKeeps(d, w, Companion);
  }

  lemma JobGoesOn(d: Dest, tries: seq<Try>, f: Failure)
    requires Fresh(d, tries) && d.worker.attempt < 4 && f.retryable && !tries[0].giveUp
    requires Finish(d, tries[0].world).worker.pc == Returned(Some(f))
    ensures FinishTries(d, tries) == FinishTries(AtNextTry(d, tries[0].world), tries[1..])
  {
    FirstTry(d, tries);
  }

  lemma JobIsOver(d: Dest, tries: seq<Try>)
    requires Fresh(d, tries)
    requires Finish(d, tries[0].world).worker.pc == Returned(None) || tries[0].giveUp
    ensures FinishTries(d, tries) == Finish(d, tries[0].world).(worker := Idle)
  {
    FirstTry(d, tries);
  }

  /** A job makes another attempt, on the rows as the last one left them, exactly if that one goes on;
      otherwise it is over. */
  lemma NextAttemptIff(d: Dest, tries: seq<Try>)
    requires Ready(d) && 1 <= d.worker.attempt <= 4 && |tries| > 4 - d.worker.attempt && Works(tries[0].world)
    ensures if GoesOn(d, tries[0])
            then Ready(AtNextTry(d, tries[0].world)) && d.worker.attempt < 4
                 && FinishTries(d, tries) == FinishTries(AtNextTry(d, tries[0].world), tries[1..])
            else FinishTries(d, tries) == Finish(d, tries[0].world).(worker := Idle)
  {
    if GoesOn(d, tries[0]) {
      NextIsReady(d, tries[0].world);
      JobGoesOn(d, tries, VerdictOf(d, tries[0].world).failure);
    } else {
      AttemptLeaves(d, tries[0].world);
      JobIsOver(d, tries);
    }
  }

  /** A job that fails three times in such a way makes a fourth attempt, which decides. */
  lemma FourthAttemptDecides(d: Dest, tries: seq<Try>) returns (fourth: Dest)
    requires Ready(d) && d.worker.attempt == 1 && |tries| >= 4 && forall t <- tries :: Works(t.world)
    requires GoesOn(d, tries[0])
    requires Ready(AtNextTry(d, tries[0].world)) && GoesOn(AtNextTry(d, tries[0].world), tries[1])
    requires var third := AtNextTry(AtNextTry(d, tries[0].world), tries[1].world);
             Ready(third) && GoesOn(third, tries[2])
    ensures fourth == AtNextTry(AtNextTry(AtNextTry(d, tries[0].world), tries[1].world), tries[2].world)
    ensures Ready(fourth) && fourth.worker.attempt == 4
    ensures FinishTries(d, tries) == Finish(fourth, tries[3].world).(worker := Idle)
    ensures Leaves(4, VerdictOf(fourth, tries[3].world), tries[3].world.cancelled, Finish(fourth, tries[3].world))
  {
    var second := AtNextTry(d, tries[0].world);
    var third := AtNextTry(second, tries[1].world);
    fourth := AtNextTry(third, tries[2].world);
    NextAttemptIff(d, tries);
    assert tries[1..][1..] == tries[2..] && tries[2..][1..] == tries[3..];
    NextAttemptIff(second, tries[1..]);
    NextAttemptIff(third, tries[2..]);
    NextAttemptIff(fourth, tries[3..]);
    AttemptLeaves(fourth, tries[3].world);
  }
}
