/** Creating one destination copy of one message: the fan-out in Router.Handle, the job
    built by Router.enqueueCreate, the retry loop around it, and the ledger, create-step
    and copy rows in the store. Every SQL statement and every provider call is one step;
    a crash, a tombstone or a ledger sweep may come between any two steps. */
module CreateProtocol {
  import opened Wrappers
  import opened Failures

  datatype OpState = Queued | Retrying | AwaitingReplay | Failed

  predicate Active(row: Option<OpState>) {
    row.Some? && row.value != Failed
  }

  datatype StepKind = Companion | Primary

  datatype StepState = Pending | Complete(remoteID: string) | Ambiguous

  /** `media`: the job sends an attribution companion before an audio or sticker message. */
  datatype Job = Job(media: bool)

  /** Where the lane worker stands inside a create job: the call it makes next. */
  datatype Pc =
    | CheckTombstone
    | BeginAttempt
    | CheckRoute
    | ReadStep(kind: StepKind)
    | AwaitProvider(kind: StepKind)
    | RecordSent(kind: StepKind, remoteID: string)
    | RecordUnknown(kind: StepKind, failure: Failure)
    | RecheckTombstone(remoteID: string)
    | StoreCopy(remoteID: string)
    | SavePollRef
    | Discard
    | Settle(failure: Failure)
    | Returned(error: Option<Failure>)

  datatype Worker = Idle | Running(job: Job, attempt: nat, pc: Pc)

  /** Where the fan-out loop of Handle stands for this destination. */
  datatype HandlerPc = LookCopy | LookRow | InsertRow | InsertPrimary | InsertCompanion | Offer | MarkRefused

  datatype Handler = NotHandling | Handling(media: bool, pc: HandlerPc)

  /** History, for the claims only: provider requests not reported as "definitely not
      sent", and interruptions between a request and the record of its step. */
  datatype Tally = Tally(possiblySent: nat, interrupted: nat)

  /** The create-step row of one kind, with its history. */
  datatype Book = Book(step: Option<StepState>, tally: Tally) {
    function Count(possiblySent: nat, interrupted: nat): Book {
      this.(tally := Tally(tally.possiblySent + possiblySent, tally.interrupted + interrupted))
    }

    /** INSERT .. ON CONFLICT DO NOTHING */
    function Insert(): Book {
      if step.None? then this.(step := Some(Pending)) else this
    }
  }

  /** One destination. row, the steps, copy and tombstoned are persisted; lane, worker and
      handler live in memory; fannedOut (a Handle loop has passed this destination) and the
      tallies are history. */
  datatype Dest = Dest(
    row: Option<OpState>,
    companion: Book,
    primary: Book,
    copy: Option<string>,
    tombstoned: bool,
    lane: seq<Job>,
    worker: Worker,
    handler: Handler,
    fannedOut: bool)
  {
    function BookOf(kind: StepKind): Book {
      if kind == Companion then companion else primary
    }

    function SetBook(kind: StepKind, book: Book): Dest {
      if kind == Companion then this.(companion := book) else this.(primary := book)
    }

    function Goto(pc: Pc): Dest
      requires worker.Running?
    {
      this.(worker := worker.(pc := pc))
    }

    /** An UPDATE of the ledger row: no row, no effect. */
    function UpdateRow(state: OpState): Dest {
      if row.Some? then this.(row := Some(state)) else this
    }
  }

  const FRESH_BOOK := Book(None, Tally(0, 0))

  const INITIAL_DEST := Dest(None, FRESH_BOOK, FRESH_BOOK, None, false, [], Idle, NotHandling, false)

  /** delivery.DefaultRetryPolicy().MaxAttempts */
  const MAX_ATTEMPTS: nat := 4

  /** A database error or any other plain error, as Classify sees it. */
  const PLAIN_ERROR: Failure := Classify(Unclassified)

  /** assertRouteSet's answer when the endpoints no longer share the sync set. */
  const ROUTE_GONE: Failure := Classify(NewFailure(DestinationMissing, 0))

  /** How the worker's next call turns out. */
  datatype Choice =
    | Good
    | DbFails
    | RouteChanged
    | Accepted(remoteID: string, usable: bool)
    | Rejected(failure: Failure)
    | Settled(cancelled: bool, written: bool)

  function AfterStep(kind: StepKind, remoteID: string): Pc {
    if kind == Companion then ReadStep(Primary) else RecheckTombstone(remoteID)
  }

  /** Within an attempt only the program counter of the worker moves, and Handle's state
      and the lane stay as they are. */
  predicate SameJob(d: Dest, r: Dest)
    requires d.worker.Running?
  {
    && r.worker.Running? && r.worker.job == d.worker.job && r.worker.attempt == d.worker.attempt
    && r.handler == d.handler && r.lane == d.lane && r.fannedOut == d.fannedOut && r.tombstoned == d.tombstoned
  }

  /** One database or provider call of the create job. A choice that does not fit the
      call leaves the state as it is. */
  function Work(d: Dest, c: Choice): (r: Dest)
    requires d.worker.Running?
    ensures SameJob(d, r)
  {
    match d.worker.pc
    case CheckTombstone =>
      if c.DbFails? then d.Goto(Returned(Some(PLAIN_ERROR)))
      else if !c.Good? then d
      else if d.tombstoned then d.Goto(Discard)
      else d.Goto(BeginAttempt)
    case BeginAttempt =>
      if c.DbFails? then d.Goto(Returned(Some(PLAIN_ERROR)))
      else if c.Good? then d.UpdateRow(Retrying).Goto(CheckRoute)
      else d
    case CheckRoute =>
      if c.DbFails? then d.Goto(Settle(PLAIN_ERROR))
      else if c.RouteChanged? then d.Goto(Settle(ROUTE_GONE))
      else if c.Good? then d.Goto(ReadStep(if d.worker.job.media then Companion else Primary))
      else d
    case ReadStep(kind) => Read(d, kind, c)
    case AwaitProvider(kind) => Hear(d, kind, c)
    case RecordSent(kind, remoteID) => Record(d, kind, c, Complete(remoteID), AfterStep(kind, remoteID), PLAIN_ERROR)
    case RecordUnknown(kind, failure) => Record(d, kind, c, Ambiguous, Settle(failure), failure)
    case RecheckTombstone(remoteID) =>
      if c.DbFails? then d.Goto(Settle(PLAIN_ERROR))
      else if !c.Good? then d
      else if d.tombstoned then d.Goto(Discard)
      else d.Goto(StoreCopy(remoteID))
    case StoreCopy(remoteID) =>
      // UNIQUE (canonical_id, endpoint_id): a second copy is a database error.
      if c.DbFails? || d.copy.Some? then d.Goto(Settle(PLAIN_ERROR))
      else if c.Good? then d.(copy := Some(remoteID)).Goto(SavePollRef)
      else d
    case SavePollRef =>
      if c.DbFails? then d.Goto(Settle(PLAIN_ERROR))
      else if c.Good? then d.Goto(Discard)
      else d
    case Discard =>
      if c.DbFails? then d.Goto(Returned(None))
      else if c.Good? then d.(row := None).Goto(Returned(None))
      else d
    case Settle(failure) =>
      if c.Settled? then FinishFailure(d, failure, c.cancelled, c.written) else d
    case Returned(_) => d
  }

  /** Read the create step and skip, stop or send. */
  function Read(d: Dest, kind: StepKind, c: Choice): (r: Dest)
    requires d.worker.Running?
    ensures SameJob(d, r)
  {
    if c.DbFails? || d.BookOf(kind).step.None? then d.Goto(Settle(PLAIN_ERROR))
    else if !c.Good? then d
    else match d.BookOf(kind).step.value
      case Ambiguous => d.Goto(Returned(None))
      case Complete(remoteID) => d.Goto(AfterStep(kind, remoteID))
      case Pending => d.Goto(AwaitProvider(kind))
  }

  /** The provider's answer. Only the primary's reference is checked for usability. */
  function Hear(d: Dest, kind: StepKind, c: Choice): (r: Dest)
    requires d.worker.Running?
    ensures SameJob(d, r)
  {
    var book := d.BookOf(kind);
    match c
    case Accepted(remoteID, usable) =>
      if kind == Companion then d.SetBook(kind, book.Count(1, 0)).Goto(RecordSent(kind, ""))
      else if usable then d.SetBook(kind, book.Count(1, 0)).Goto(RecordSent(kind, remoteID))
      else d.SetBook(kind, book.Count(1, 1)).Goto(Settle(PLAIN_ERROR))
    case Rejected(failure) =>
      if failure.certainty == SendUnknown then d.SetBook(kind, book.Count(1, 0)).Goto(RecordUnknown(kind, failure))
      else if failure.certainty == SendAccepted then d.SetBook(kind, book.Count(1, 0)).Goto(Settle(failure))
      else d.Goto(Settle(failure))
    case _ => d
  }

  /** CompleteCreateStep; a failed write leaves the step pending. */
  function Record(d: Dest, kind: StepKind, c: Choice, step: StepState, next: Pc, failure: Failure): (r: Dest)
    requires d.worker.Running?
    ensures SameJob(d, r)
  {
    var book := d.BookOf(kind);
    if c.DbFails? then d.SetBook(kind, book.Count(0, 1)).Goto(Settle(failure))
    else if c.Good? then d.SetBook(kind, book.(step := Some(step))).Goto(next)
    else d
  }

  /** finishFailure: decide whether the job retries, and record the row's fate. */
  function FinishFailure(d: Dest, failure: Failure, cancelled: bool, written: bool): (r: Dest)
    requires d.worker.Running?
    ensures SameJob(d, r)
  {
    if failure.certainty == SendUnknown then
      (if written then d.UpdateRow(AwaitingReplay) else d).Goto(Returned(None))
    else if !failure.retryable || d.worker.attempt >= MAX_ATTEMPTS || cancelled then
      if written then d.UpdateRow(if failure.retryable then AwaitingReplay else Failed).Goto(Returned(None))
      else d.Goto(Returned(Some(PLAIN_ERROR)))
    else
      d.Goto(Returned(Some(failure)))
  }

  /** The retry loop around the job; `giveUp` covers an elapsed window and the end of
      the one attempt that follows an interrupted wait. */
  function Again(d: Dest, giveUp: bool): Dest
    requires d.worker.Running?
  {
    if !d.worker.pc.Returned? then d
    else if d.worker.pc.error.None? || !d.worker.pc.error.value.retryable || d.worker.attempt >= MAX_ATTEMPTS || giveUp
    then d.(worker := Idle)
    else d.(worker := Running(d.worker.job, d.worker.attempt + 1, CheckTombstone))
  }

  datatype HandlerChoice = Fine | Broken | LaneFull

  function Continue(d: Dest, pc: HandlerPc): Dest
    requires d.handler.Handling?
  {
    d.(handler := d.handler.(pc := pc))
  }

  /** The handler only ever adds a missing step row. */
  predicate OnlyInserted(before: Book, after: Book) {
    after == before || after == before.Insert()
  }

  /** One step of Handle for this destination: the copy lookup, then enqueueCreate. It
      never disturbs a running attempt or a decided step. */
  function Handle(d: Dest, c: HandlerChoice): (r: Dest)
    requires d.handler.Handling?
    ensures r.worker == d.worker && r.copy == d.copy && r.tombstoned == d.tombstoned
    ensures OnlyInserted(d.companion, r.companion) && OnlyInserted(d.primary, r.primary)
  {
    var done := d.(handler := NotHandling, fannedOut := true);
    if c.Broken? then
      // MarkRefused writes best-effort before reporting the refusal.
      d.(handler := NotHandling)
    else match d.handler.pc
      case LookCopy => if d.copy.Some? then done else Continue(d, LookRow)
      case LookRow => if d.row == Some(Queued) || d.row == Some(Retrying) then done else Continue(d, InsertRow)
      case InsertRow => Continue(if d.row.None? then d.(row := Some(Queued)) else d, InsertPrimary)
      case InsertPrimary =>
        Continue(d.(primary := d.primary.Insert()), if d.handler.media then InsertCompanion else Offer)
      case InsertCompanion => Continue(d.(companion := d.companion.Insert()), Offer)
      case Offer => if c.LaneFull? then Continue(d, MarkRefused) else done.(lane := d.lane + [Job(d.handler.media)])
      case MarkRefused => d.UpdateRow(AwaitingReplay).(handler := NotHandling)
  }

  /** What a crash interrupts: a request in flight, or an answer not yet recorded. */
  function CountCrash(d: Dest): Dest {
    if d.worker.Idle? then d
    else match d.worker.pc
      case AwaitProvider(kind) => d.SetBook(kind, d.BookOf(kind).Count(1, 1))
      case RecordSent(kind, _) => d.SetBook(kind, d.BookOf(kind).Count(0, 1))
      case RecordUnknown(kind, _) => d.SetBook(kind, d.BookOf(kind).Count(0, 1))
      case _ => d
  }

  datatype Event =
    | BeginFanOut(media: bool)
    | HandleStep(handlerChoice: HandlerChoice)
    | TakeJob
    | WorkStep(choice: Choice)
    | RetryStep(giveUp: bool)
    | Tombstone
    | SweepLedger
    | Crash

  function Next(d: Dest, e: Event): Dest {
    match e
    case BeginFanOut(media) => if d.handler.NotHandling? then d.(handler := Handling(media, LookCopy)) else d
    case HandleStep(c) => if d.handler.Handling? then Handle(d, c) else d
    case TakeJob =>
      if d.worker.Idle? && d.lane != []
      then d.(worker := Running(d.lane[0], 1, CheckTombstone), lane := d.lane[1..])
      else d
    case WorkStep(c) => if d.worker.Running? then Work(d, c) else d
    case RetryStep(giveUp) => if d.worker.Running? then Again(d, giveUp) else d
    case Tombstone => d.(tombstoned := true)
    case SweepLedger => if Active(d.row) then d.(row := Some(AwaitingReplay)) else d
    case Crash => CountCrash(d).(lane := [], worker := Idle, handler := NotHandling)
  }

  function Run(d: Dest, events: seq<Event>): Dest
    decreases |events|
  {
    if events == [] then d else Next(Run(d, events[..|events| - 1]), events[|events| - 1])
  }

  /** The adapters' contract: an error never carries the certainty "accepted". */
  predicate Honest(e: Event) {
    e.WorkStep? && e.choice.Rejected? ==> e.choice.failure.certainty != SendAccepted
  }

  // ---- At most one request beyond the interruptions ---------------------------------

  predicate Recording(w: Worker, kind: StepKind) {
    w.Running? && (match w.pc
                   case RecordSent(k, _) => k == kind
                   case RecordUnknown(k, _) => k == kind
                   case _ => false)
  }

  predicate InFlight(w: Worker, kind: StepKind) {
    w.Running? && w.pc == AwaitProvider(kind)
  }

  predicate Decided(book: Book) {
    book.step.Some? && book.step.value != Pending
  }

  /** A possibly sent request is owed to its step: recorded there, or about to be. */
  predicate Balanced(book: Book, recording: bool, inFlight: bool) {
    && book.tally.possiblySent == book.tally.interrupted + (if Decided(book) || recording then 1 else 0)
    && (recording || inFlight ==> book.step == Some(Pending))
  }

  predicate BalancedAt(d: Dest, kind: StepKind) {
    Balanced(d.BookOf(kind), Recording(d.worker, kind), InFlight(d.worker, kind))
  }

  lemma BalancedRead(d: Dest, k: StepKind, c: Choice, kind: StepKind)
    requires d.worker.Running? && d.worker.pc == ReadStep(k) && BalancedAt(d, kind)
    ensures BalancedAt(Read(d, k, c), kind)
  {
  }

  lemma BalancedHear(d: Dest, k: StepKind, c: Choice, kind: StepKind)
    requires d.worker.Running? && d.worker.pc == AwaitProvider(k) && BalancedAt(d, kind) && Honest(WorkStep(c))
    ensures BalancedAt(Hear(d, k, c), kind)
  {
  }

  lemma BalancedRecord(d: Dest, k: StepKind, c: Choice, kind: StepKind, step: StepState, next: Pc, failure: Failure)
    requires d.worker.Running? && Recording(d.worker, k) && BalancedAt(d, kind) && step != Pending
    requires next.Settle? || next.ReadStep? || next.RecheckTombstone?
    ensures BalancedAt(Record(d, k, c, step, next, failure), kind)
  {
  }

  lemma BalancedSettle(d: Dest, failure: Failure, cancelled: bool, written: bool, kind: StepKind)
    requires d.worker.Running? && d.worker.pc.Settle? && BalancedAt(d, kind)
    ensures BalancedAt(FinishFailure(d, failure, cancelled, written), kind)
  {
  }

  /** Calls that touch neither a step nor a provider. */
  lemma BalancedElsewhere(d: Dest, c: Choice, kind: StepKind)
    requires d.worker.Running? && BalancedAt(d, kind)
    requires d.worker.pc.CheckTombstone? || d.worker.pc.BeginAttempt? || d.worker.pc.CheckRoute?
    ensures BalancedAt(Work(d, c), kind)
  {
  }

  lemma BalancedAfterwards(d: Dest, c: Choice, kind: StepKind)
    requires d.worker.Running? && BalancedAt(d, kind)
    requires d.worker.pc.RecheckTombstone? || d.worker.pc.StoreCopy? || d.worker.pc.SavePollRef? || d.worker.pc.Discard?
    ensures BalancedAt(Work(d, c), kind)
  {
  }

  lemma BalancedWork(d: Dest, c: Choice, kind: StepKind)
    requires d.worker.Running? && BalancedAt(d, kind) && Honest(WorkStep(c))
    ensures BalancedAt(Work(d, c), kind)
  {
    match d.worker.pc
    case ReadStep(k) => BalancedRead(d, k, c, kind);
    case AwaitProvider(k) => BalancedHear(d, k, c, kind);
    case RecordSent(k, remoteID) =>
      BalancedRecord(d, k, c, kind, Complete(remoteID), AfterStep(k, remoteID), PLAIN_ERROR);
    case RecordUnknown(k, failure) => BalancedRecord(d, k, c, kind, Ambiguous, Settle(failure), failure);
    case CheckTombstone => BalancedElsewhere(d, c, kind);
    case BeginAttempt => BalancedElsewhere(d, c, kind);
    case CheckRoute => BalancedElsewhere(d, c, kind);
    case RecheckTombstone(_) => BalancedAfterwards(d, c, kind);
    case StoreCopy(_) => BalancedAfterwards(d, c, kind);
    case SavePollRef => BalancedAfterwards(d, c, kind);
    case Discard => BalancedAfterwards(d, c, kind);
    case Settle(failure) => if c.Settled? { BalancedSettle(d, failure, c.cancelled, c.written, kind); }
    case Returned(_) =>
  }

  lemma BalancedHandle(d: Dest, c: HandlerChoice, kind: StepKind)
    requires d.handler.Handling? && BalancedAt(d, kind)
    ensures BalancedAt(Handle(d, c), kind)
  {
  }

  lemma BalancedNext(d: Dest, e: Event, kind: StepKind)
    requires BalancedAt(d, kind) && Honest(e)
    ensures BalancedAt(Next(d, e), kind)
  {
    match e
    case WorkStep(c) => if d.worker.Running? { BalancedWork(d, c, kind); }
    case HandleStep(c) => if d.handler.Handling? { BalancedHandle(d, c, kind); }
    case _ =>
  }

  lemma {:induction false} BalancedRun(events: seq<Event>, kind: StepKind)
    requires forall e <- events :: Honest(e)
    ensures BalancedAt(Run(INITIAL_DEST, events), kind)
    decreases |events|
  {
    if events != [] {
      BalancedRun(events[..|events| - 1], kind);
      BalancedNext(Run(INITIAL_DEST, events[..|events| - 1]), events[|events| - 1], kind);
    }
  }

  /** No blind resend: over any run of retries, crashes, sweeps and replays, requests that
      may have reached the provider exceed the interruptions by at most one, and by
      exactly one as soon as the step is recorded complete or ambiguous. */
  lemma NoBlindResend(events: seq<Event>, kind: StepKind)
    requires forall e <- events :: Honest(e)
    ensures var book := Run(INITIAL_DEST, events).BookOf(kind);
            && book.tally.possiblySent <= book.tally.interrupted + 1
            && (Decided(book) ==> book.tally.possiblySent == book.tally.interrupted + 1)
  {
    BalancedRun(events, kind);
  }
}
