/** What the ledger promises about a fanned-out message, and what HandleEvent may
    conclude from it. */
module FanOutLedger {
  import opened Wrappers
  import opened Failures
  import opened CreateProtocol

  /** The destination cannot be lost: it has a ledger row or a copy, or the message is
      deleted. */
  predicate Covered(d: Dest) {
    d.tombstoned || d.row.Some? || d.copy.Some?
  }

  /** Work exists, or existed, for this destination. */
  predicate Started(d: Dest) {
    || d.fannedOut || d.lane != [] || d.worker.Running?
    || Decided(d.companion) || Decided(d.primary)
    || (d.handler.Handling? && d.handler.pc !in {LookCopy, LookRow, InsertRow})
  }

  predicate WorkerConsistent(d: Dest) {
    d.worker.Running? ==>
      match d.worker.pc
      case RecordSent(kind, _) => d.BookOf(kind).step == Some(Pending)
      case RecordUnknown(kind, _) => d.BookOf(kind).step == Some(Pending)
      case AwaitProvider(kind) => d.BookOf(kind).step == Some(Pending)
      case RecheckTombstone(remoteID) => d.primary.step == Some(Complete(remoteID))
      case StoreCopy(remoteID) => d.primary.step == Some(Complete(remoteID))
      case SavePollRef => d.copy.Some?
      case Discard => d.tombstoned || d.copy.Some?
      case _ => true
  }

  /** Before a fan-out has passed the destination, nothing runs, is stored or has failed there. */
  predicate PassedFirst(d: Dest) {
    d.fannedOut || (d.worker.Idle? && d.lane == [] && d.copy.None? && d.row != Some(Failed))
  }

  predicate Ledger(d: Dest) {
    && PassedFirst(d)
    && (Started(d) ==> Covered(d))
    && (d.copy.Some? ==> d.primary.step == Some(Complete(d.copy.value)))
    && WorkerConsistent(d)
  }

  lemma LedgerRead(d: Dest, k: StepKind, c: Choice)
    requires d.worker.Running? && d.worker.pc == ReadStep(k) && Ledger(d)
    ensures Ledger(Read(d, k, c))
  {
  }

  lemma LedgerHear(d: Dest, k: StepKind, c: Choice)
    requires d.worker.Running? && d.worker.pc == AwaitProvider(k) && Ledger(d)
    ensures Ledger(Hear(d, k, c))
  {
  }

  lemma LedgerRecord(d: Dest, k: StepKind, c: Choice, step: StepState, next: Pc, failure: Failure)
    requires d.worker.Running? && Recording(d.worker, k) && Ledger(d)
    requires next.Settle? || (next == AfterStep(k, if step.Complete? then step.remoteID else "") && step.Complete?)
    ensures Ledger(Record(d, k, c, step, next, failure))
  {
  }

  lemma LedgerFinish(d: Dest, failure: Failure, cancelled: bool, written: bool)
    requires d.worker.Running? && Ledger(d)
    ensures Ledger(FinishFailure(d, failure, cancelled, written))
  {
  }

  lemma LedgerWork(d: Dest, c: Choice)
    requires d.worker.Running? && Ledger(d)
    ensures Ledger(Work(d, c))
  {
    match d.worker.pc
    case ReadStep(k) => LedgerRead(d, k, c);
    case AwaitProvider(k) => LedgerHear(d, k, c);
    case RecordSent(k, remoteID) => LedgerRecord(d, k, c, Complete(remoteID), AfterStep(k, remoteID), PLAIN_ERROR);
    case RecordUnknown(k, failure) => LedgerRecord(d, k, c, Ambiguous, Settle(failure), failure);
    case Settle(failure) => if c.Settled? { LedgerFinish(d, failure, c.cancelled, c.written); }
    case _ =>
  }

  lemma LedgerHandle(d: Dest, c: HandlerChoice)
    requires d.handler.Handling? && Ledger(d)
    ensures Ledger(Handle(d, c))
  {
  }

  lemma LedgerNext(d: Dest, e: Event)
    requires Ledger(d)
    ensures Ledger(Next(d, e))
  {
    match e
    case WorkStep(c) => if d.worker.Running? { LedgerWork(d, c); }
    case HandleStep(c) => if d.handler.Handling? { LedgerHandle(d, c); }
    case _ =>
  }

  lemma {:induction false} LedgerRun(events: seq<Event>)
    ensures Ledger(Run(INITIAL_DEST, events))
    decreases |events|
  {
    if events != [] {
      LedgerRun(events[..|events| - 1]);
      LedgerNext(Run(INITIAL_DEST, events[..|events| - 1]), events[|events| - 1]);
    }
  }

  // ---- The whole message -------------------------------------------------------------

  /** All destinations of one message, and its other ledger rows (edits, reactions,
      deletes, poll results), which come and go on their own. */
  datatype Sys = Sys(dests: map<string, Dest>, mutations: map<string, OpState>)

  datatype SysEvent =
    | At(endpoint: string, event: Event)
    | Everywhere(event: Event)
    | Mutate(key: string, row: Option<OpState>)

  /** A tombstone, a ledger sweep or a crash reaches every destination at once. */
  predicate Global(e: Event) {
    e.Tombstone? || e.SweepLedger? || e.Crash?
  }

  function SysNext(s: Sys, e: SysEvent): Sys {
    match e
    case At(endpoint, event) =>
      if endpoint in s.dests && !Global(event)
      then s.(dests := s.dests[endpoint := Next(s.dests[endpoint], event)])
      else s
    case Everywhere(event) =>
      if Global(event) then s.(dests := map endpoint <- s.dests :: Next(s.dests[endpoint], event)) else s
    case Mutate(key, row) =>
      s.(mutations := if row.Some? then s.mutations[key := row.value] else s.mutations - {key})
  }

  function SysRun(s: Sys, events: seq<SysEvent>): Sys
    decreases |events|
  {
    if events == [] then s else SysNext(SysRun(s, events[..|events| - 1]), events[|events| - 1])
  }

  function InitialSys(endpoints: set<string>): Sys {
    Sys(map endpoint <- endpoints :: INITIAL_DEST, map[])
  }

  /** PendingDeliveryForRemote: some ledger row of the message is queued, retrying or
      awaiting replay. */
  predicate PendingDelivery(s: Sys) {
    || (exists endpoint <- s.dests :: Active(s.dests[endpoint].row))
    || (exists key <- s.mutations :: s.mutations[key] != Failed)
  }

  ghost predicate LedgerEverywhere(s: Sys) {
    forall endpoint <- s.dests :: Ledger(s.dests[endpoint])
  }

  lemma LedgerSysNext(s: Sys, e: SysEvent)
    requires LedgerEverywhere(s)
    ensures SysNext(s, e).dests.Keys == s.dests.Keys && LedgerEverywhere(SysNext(s, e))
  {
    if !e.Mutate? {
      forall endpoint <- s.dests ensures Ledger(Next(s.dests[endpoint], e.event)) {
        LedgerNext(s.dests[endpoint], e.event);
      }
    }
  }

  lemma {:induction false} LedgerSysRun(endpoints: set<string>, events: seq<SysEvent>)
    ensures SysRun(InitialSys(endpoints), events).dests.Keys == endpoints
    ensures LedgerEverywhere(SysRun(InitialSys(endpoints), events))
    decreases |events|
  {
    if events != [] {
      LedgerSysRun(endpoints, events[..|events| - 1]);
      LedgerSysNext(SysRun(InitialSys(endpoints), events[..|events| - 1]), events[|events| - 1]);
    }
  }

  /** The event reaches the destination. */
  predicate Reaches(e: SysEvent, endpoint: string) {
    (e.At? && e.endpoint == endpoint && !Global(e.event)) || (e.Everywhere? && Global(e.event))
  }

  function Own(events: seq<SysEvent>, endpoint: string): seq<Event> {
    if events == [] then []
    else
      var e := events[|events| - 1];
      Own(events[..|events| - 1], endpoint) + if Reaches(e, endpoint) then [e.event] else []
  }

  lemma {:induction false} SysRunProjects(endpoints: set<string>, events: seq<SysEvent>, endpoint: string)
    requires endpoint in endpoints
    ensures var s := SysRun(InitialSys(endpoints), events);
            endpoint in s.dests && s.dests[endpoint] == Run(INITIAL_DEST, Own(events, endpoint))
    decreases |events|
  {
    if events != [] {
      SysRunProjects(endpoints, events[..|events| - 1], endpoint);
      var before := SysRun(InitialSys(endpoints), events[..|events| - 1]);
      var own, e := Own(events[..|events| - 1], endpoint), events[|events| - 1];
      SysNextAt(before, e, endpoint);
      if Reaches(e, endpoint) {
        assert (own + [e.event])[..|own|] == own;
      } else {
        assert own + [] == own;
      }
    }
  }

  lemma SysNextAt(s: Sys, e: SysEvent, endpoint: string)
    requires endpoint in s.dests
    ensures endpoint in SysNext(s, e).dests
    ensures SysNext(s, e).dests[endpoint] ==
            if Reaches(e, endpoint) then Next(s.dests[endpoint], e.event) else s.dests[endpoint]
  {
  }

  lemma {:induction false} OwnIsHonest(events: seq<SysEvent>, endpoint: string)
    requires forall e <- events :: !e.Mutate? ==> Honest(e.event)
    ensures forall e <- Own(events, endpoint) :: Honest(e)
    decreases |events|
  {
    if events != [] {
      OwnIsHonest(events[..|events| - 1], endpoint);
    }
  }

  /** The send bound for every destination of every whole-message run: fan-outs, job
      attempts, crashes, sweeps, replays and deletes interleaved in any order. */
  lemma NoBlindResendAnywhere(endpoints: set<string>, events: seq<SysEvent>, endpoint: string, kind: StepKind)
    requires endpoint in endpoints
    requires forall e <- events :: !e.Mutate? ==> Honest(e.event)
    ensures endpoint in SysRun(InitialSys(endpoints), events).dests
    ensures var book := SysRun(InitialSys(endpoints), events).dests[endpoint].BookOf(kind);
            && book.tally.possiblySent <= book.tally.interrupted + 1
            && (Decided(book) ==> book.tally.possiblySent == book.tally.interrupted + 1)
  {
    SysRunProjects(endpoints, events, endpoint);
    OwnIsHonest(events, endpoint);
    NoBlindResend(Own(events, endpoint), kind);
  }

  /** Fan-out coverage: from the moment a Handle loop has passed a destination it is
      covered, at every later step of every run. */
  lemma FannedOutStaysCovered(endpoints: set<string>, events: seq<SysEvent>, endpoint: string)
    requires endpoint in endpoints
    ensures var s := SysRun(InitialSys(endpoints), events);
            endpoint in s.dests && (s.dests[endpoint].fannedOut ==> Covered(s.dests[endpoint]))
  {
    LedgerSysRun(endpoints, events);
  }

  /** The destination needs nothing more: deleted, failed for good, or holding its one copy. */
  predicate Done(d: Dest) {
    || d.tombstoned
    || d.row == Some(Failed)
    || (d.row == None && d.copy.Some? && d.primary.step == Some(Complete(d.copy.value)))
  }

  /** With nothing pending, a destination is done exactly if it is deleted or a fan-out has
      passed it. Undeleted, its create can be ambiguous only under a failed row; its attribution
      companion can be ambiguous also beside a copy. */
  lemma SafeToAdvanceIsSettled(endpoints: set<string>, events: seq<SysEvent>, endpoint: string)
    requires endpoint in endpoints
    requires !PendingDelivery(SysRun(InitialSys(endpoints), events))
    ensures endpoint in SysRun(InitialSys(endpoints), events).dests
    ensures var d := SysRun(InitialSys(endpoints), events).dests[endpoint];
            && (Done(d) <==> d.tombstoned || d.fannedOut)
            && (!d.tombstoned && d.primary.step == Some(Ambiguous) ==> d.row == Some(Failed))
            && (!d.tombstoned && d.companion.step == Some(Ambiguous) ==> d.row == Some(Failed) || d.copy.Some?)
  {
    LedgerSysRun(endpoints, events);
  }
}
