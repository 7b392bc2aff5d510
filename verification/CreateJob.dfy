/** The create job, the fan-out loop and HandleEvent as the router runs them, against the store's
    tables, each proved to follow the step machines of CreateProtocol and MessageCalls. */
module CreateJob {
  import opened Wrappers
  import opened Failures
  import opened CreateProtocol
  import opened FanOutLedger
  import opened CreateAttempt
  import opened CreateOutcome
  import opened MessageCalls
  import opened WholeCalls
  import R = RecoveryCursor

  /** The store's tables for one message; an absent key is an absent row. */
  class Store {
    var operations: map<string, OpState>
    var createSteps: map<(string, StepKind), StepState>
    var copies: map<string, string>
    /** The canonical row and the source copy. */
    var canonical: bool
    var tombstoned: bool
    /** Ledger rows of edits, reactions, deletes and poll results of the message. */
    var mutations: map<string, OpState>

    constructor ()
      ensures operations == map[] && createSteps == map[] && copies == map[] && mutations == map[]
      ensures !canonical && !tombstoned
    {
      operations, createSteps, copies, mutations := map[], map[], map[], map[];
      canonical, tombstoned := false, false;
    }

    function Row(e: string): Option<OpState> reads this {
      if e in operations then Some(operations[e]) else None
    }

    function Step(e: string, kind: StepKind): Option<StepState> reads this {
      if (e, kind) in createSteps then Some(createSteps[(e, kind)]) else None
    }

    function Copy(e: string): Option<string> reads this {
      if e in copies then Some(copies[e]) else None
    }

    /** Over every ledger row of the message, joined with its source copy. */
    predicate PendingDeliveryForRemote() reads this {
      canonical &&
      ((exists e <- operations :: operations[e] != Failed) || (exists key <- mutations :: mutations[key] != Failed))
    }

    /** One transaction: the canonical row and its source copy, unless they exist. */
    method ResolveOrCreateCanonical(works: bool) returns (ok: bool, created: bool)
      modifies `canonical
      ensures ok == works && canonical == (old(canonical) || works) && created == (works && !old(canonical))
    {
      ok, created := works, works && !canonical;
      canonical := canonical || works;
    }

    /** A ledger row of another kind is inserted, updated or deleted; it refers to the canonical row. */
    method ChangeMutation(key: string, row: Option<OpState>) returns (ok: bool)
      modifies `mutations
      ensures ok == canonical
      ensures mutations ==
              if !ok then old(mutations)
              else if row.Some? then old(mutations)[key := row.value]
              else old(mutations) - {key}
    {
      ok := canonical;
      if ok {
        mutations := if row.Some? then mutations[key := row.value] else mutations - {key};
      }
    }

    /** UPDATE: changes the row if there is one. */
    method SetDeliveryOperationState(e: string, state: OpState, works: bool) returns (ok: bool)
      modifies `operations
      ensures ok == works
      ensures operations == if works && e in old(operations) then old(operations)[e := state] else old(operations)
    {
      ok := works;
      if works && e in operations { operations := operations[e := state]; }
    }

    method DeleteDeliveryOperation(e: string, works: bool)
      modifies `operations
      ensures operations == if works then old(operations) - {e} else old(operations)
    {
      if works { operations := operations - {e}; }
    }

    /** INSERT .. ON CONFLICT DO NOTHING */
    method UpsertDeliveryOperation(e: string, works: bool) returns (ok: bool)
      modifies `operations
      ensures ok == works
      ensures operations == if works && e !in old(operations) then old(operations)[e := Queued] else old(operations)
    {
      ok := works;
      if works && e !in operations { operations := operations[e := Queued]; }
    }

    method UpsertCreateStep(e: string, kind: StepKind, works: bool) returns (ok: bool)
      modifies `createSteps
      ensures ok == works
      ensures createSteps ==
              if works && (e, kind) !in old(createSteps)
              then old(createSteps)[(e, kind) := Pending]
              else old(createSteps)
    {
      ok := works;
      if works && (e, kind) !in createSteps { createSteps := createSteps[(e, kind) := Pending]; }
    }

    method CompleteCreateStep(e: string, kind: StepKind, state: StepState, works: bool) returns (ok: bool)
      requires (e, kind) in createSteps
      modifies `createSteps
      ensures ok == works
      ensures createSteps == if works then old(createSteps)[(e, kind) := state] else old(createSteps)
    {
      ok := works;
      if works { createSteps := createSteps[(e, kind) := state]; }
    }

    /** UNIQUE (canonical_id, endpoint_id) */
    method AddMessageCopy(e: string, remoteID: string, works: bool) returns (ok: bool)
      modifies `copies
      ensures ok == (works && e !in old(copies))
      ensures copies == if ok then old(copies)[e := remoteID] else old(copies)
    {
      ok := works && e !in copies;
      if ok { copies := copies[e := remoteID]; }
    }
  }

  datatype Elsewhere = Elsewhere(
    operations: map<string, OpState>, steps: map<(string, StepKind), StepState>,
    copies: map<string, string>, tallies: map<(string, StepKind), Tally>)

  class Router {
    const store: Store
    /** The endpoints the message may be delivered to. */
    ghost const endpoints: set<string>
    var lanes: map<string, seq<Job>>
    ghost var fannedOut: set<string>
    ghost var tallies: map<(string, StepKind), Tally>

    constructor (store: Store, ghost endpoints: set<string>)
      ensures this.store == store && this.endpoints == endpoints
      ensures lanes == map[] && fannedOut == {} && tallies == map[]
    {
      this.store, this.endpoints := store, endpoints;
      lanes, fannedOut, tallies := map[], {}, map[];
    }

    ghost function TallyOf(e: string, kind: StepKind): Tally reads this {
      if (e, kind) in tallies then tallies[(e, kind)] else Tally(0, 0)
    }

    ghost function BookOf(e: string, kind: StepKind): Book reads this, store {
      Book(store.Step(e, kind), TallyOf(e, kind))
    }

    function LaneOf(e: string): seq<Job> reads `lanes {
      if e in lanes then lanes[e] else []
    }

    /** The machine's state of one destination while its worker and handler stand at the
        given places. */
    ghost function At(e: string, worker: Worker, handler: Handler): Dest reads this, store {
      Dest(store.Row(e), BookOf(e, Companion), BookOf(e, Primary), store.Copy(e), store.tombstoned,
           LaneOf(e), worker, handler, e in fannedOut)
    }

    ghost function Attempting(e: string, job: Job, attempt: nat, pc: Pc): Dest reads this, store {
      At(e, Running(job, attempt, pc), NotHandling)
    }

    /** The rows of every other destination. */
    ghost function Others(e: string): Elsewhere reads this, store {
      var keys := {(e, Companion), (e, Primary)};
      Elsewhere(store.operations - {e}, store.createSteps - keys, store.copies - {e}, tallies - keys)
    }

    ghost method Count(e: string, job: Job, attempt: nat, pc: Pc, kind: StepKind, possiblySent: nat, interrupted: nat)
      modifies `tallies
      ensures Attempting(e, job, attempt, pc) ==
              var d := old(Attempting(e, job, attempt, pc));
              d.SetBook(kind, d.BookOf(kind).Count(possiblySent, interrupted))
      ensures Others(e) == old(Others(e))
    {
      var t := TallyOf(e, kind);
      tallies := tallies[(e, kind) := Tally(t.possiblySent + possiblySent, t.interrupted + interrupted)];
    }

    /** UPDATE of the ledger row during an attempt. */
    method UpdateRow(e: string, ghost job: Job, ghost attempt: nat, ghost pc: Pc, state: OpState, works: bool)
        returns (ok: bool)
      modifies store`operations
      ensures ok == works
      ensures Attempting(e, job, attempt, pc) ==
              var d := old(Attempting(e, job, attempt, pc)); if works then d.UpdateRow(state) else d
      ensures Others(e) == old(Others(e))
    {
      ok := store.SetDeliveryOperationState(e, state, works);
    }

    /** AddMessageCopy during an attempt. */
    method AddCopy(e: string, ghost job: Job, ghost attempt: nat, ghost pc: Pc, remoteID: string, works: bool)
        returns (ok: bool)
      modifies store`copies
      ensures ok == (works && old(store.Copy(e)).None?)
      ensures Attempting(e, job, attempt, pc) ==
              var d := old(Attempting(e, job, attempt, pc)); if ok then d.(copy := Some(remoteID)) else d
      ensures Others(e) == old(Others(e))
    {
      ok := store.AddMessageCopy(e, remoteID, works);
    }

    /** finishFailure */
    method FinishFailure(e: string, job: Job, attempt: nat, failure: Failure, w: World) returns (error: Option<Failure>)
      modifies store`operations
      ensures Others(e) == old(Others(e))
      ensures Attempting(e, job, attempt, Returned(error)) ==
              Finish(old(Attempting(e, job, attempt, Settle(failure))), w)
      ensures w.finish ==> error == if TriesAgain(failure, attempt, w.cancelled) then Some(failure) else None
      ensures w.finish && old(store.Row(e)).Some? ==>
                store.Row(e) == if TriesAgain(failure, attempt, w.cancelled) then old(store.Row(e))
                                else if failure.retryable || failure.certainty == SendUnknown then Some(AwaitingReplay)
                                else Some(Failed)
    {
      FromSettle(Attempting(e, job, attempt, Settle(failure)), failure, w);
      if failure.certainty == SendUnknown {
        var _ := UpdateRow(e, job, attempt, Returned(None), AwaitingReplay, w.finish);
        return None;
      }
      if !failure.retryable || attempt >= MAX_ATTEMPTS || w.cancelled {
        var state := if failure.retryable then AwaitingReplay else Failed;
        var ok := UpdateRow(e, job, attempt, Returned(None), state, w.finish);
        return if ok then None else Some(PLAIN_ERROR);
      }
      return Some(failure);
    }

    /** Drop the ledger row, best effort, and return success. */
    method DropRow(e: string, job: Job, attempt: nat, w: World)
      modifies store`operations
      ensures Attempting(e, job, attempt, Returned(None)) == Finish(old(Attempting(e, job, attempt, Discard)), w)
      ensures Others(e) == old(Others(e))
    {
      FromDiscard(Attempting(e, job, attempt, Discard), w);
      store.DeleteDeliveryOperation(e, w.discard);
    }

    /** CompleteCreateStep after the provider's answer; a failed write is an interruption. */
    method RecordStep(e: string, ghost job: Job, ghost attempt: nat, ghost pc: Pc, kind: StepKind,
          state: StepState, works: bool)
      returns (ok: bool)
      requires (e, kind) in store.createSteps
      modifies store`createSteps, `tallies
      ensures ok == works
      ensures Attempting(e, job, attempt, pc) ==
              var d := old(Attempting(e, job, attempt, pc));
              d.SetBook(kind, if ok then d.BookOf(kind).(step := Some(state)) else d.BookOf(kind).Count(0, 1))
      ensures Others(e) == old(Others(e))
    {
      ok := store.CompleteCreateStep(e, kind, state, works);
      if !ok { Count(e, job, attempt, pc, kind, 0, 1); }
    }

    method RecordSentStep(e: string, job: Job, attempt: nat, kind: StepKind, remoteID: string, w: World)
        returns (ok: bool)
      requires (e, kind) in store.createSteps
      modifies store`createSteps, `tallies
      ensures Finish(Attempting(e, job, attempt, if ok then AfterStep(kind, remoteID) else Settle(PLAIN_ERROR)), w)
           == Finish(old(Attempting(e, job, attempt, RecordSent(kind, remoteID))), w)
      ensures Others(e) == old(Others(e))
    {
      FromRecordSent(Attempting(e, job, attempt, RecordSent(kind, remoteID)), kind, remoteID, w);
      ghost var pc := if w.Records(kind) then AfterStep(kind, remoteID) else Settle(PLAIN_ERROR);
      ok := RecordStep(e, job, attempt, pc, kind, Complete(remoteID), w.Records(kind));
    }

    method RecordUnknownStep(e: string, job: Job, attempt: nat, kind: StepKind, failure: Failure, w: World)
      requires (e, kind) in store.createSteps
      modifies store`createSteps, `tallies
      ensures Finish(Attempting(e, job, attempt, Settle(failure)), w)
           == Finish(old(Attempting(e, job, attempt, RecordUnknown(kind, failure))), w)
      ensures Others(e) == old(Others(e))
    {
      FromRecordUnknown(Attempting(e, job, attempt, RecordUnknown(kind, failure)), kind, failure, w);
      var _ := RecordStep(e, job, attempt, Settle(failure), kind, Ambiguous, w.Records(kind));
    }

    /** An unknown outcome is recorded before the failure is settled. */
    method SettleError(e: string, job: Job, attempt: nat, kind: StepKind, failure: Failure, w: World)
        returns (error: Option<Failure>)
      requires (e, kind) in store.createSteps
      modifies store`operations, store`createSteps, `tallies
      ensures var pc := if failure.certainty == SendUnknown then RecordUnknown(kind, failure) else Settle(failure);
              Attempting(e, job, attempt, Returned(error)) == Finish(old(Attempting(e, job, attempt, pc)), w)
      ensures Others(e) == old(Others(e))
    {
      if failure.certainty == SendUnknown {
        RecordUnknownStep(e, job, attempt, kind, failure, w);
      }
      error := FinishFailure(e, job, attempt, failure, w);
    }

    /** The provider reported an error: remember it if acceptance is unknown. */
    method HearError(e: string, job: Job, attempt: nat, kind: StepKind, failure: Failure, w: World)
        returns (error: Option<Failure>)
      requires (e, kind) in store.createSteps && w.Answers(kind) == Refused(failure)
      modifies store`operations, store`createSteps, `tallies
      ensures Attempting(e, job, attempt, Returned(error)) ==
              Finish(old(Attempting(e, job, attempt, AwaitProvider(kind))), w)
      ensures Others(e) == old(Others(e))
    {
      FromRefusal(Attempting(e, job, attempt, AwaitProvider(kind)), kind, failure, w);
      if failure.certainty != DefinitelyNotSent {
        ghost var pc := if failure.certainty == SendUnknown then RecordUnknown(kind, failure) else Settle(failure);
        Count(e, job, attempt, pc, kind, 1, 0);
      }
      error := SettleError(e, job, attempt, kind, failure, w);
    }

    /** The provider accepted, but its reference cannot be used. */
    ghost method HearUnusable(e: string, job: Job, attempt: nat, id: string, w: World)
      requires w.Answers(Primary) == Sent(id, false)
      modifies `tallies
      ensures Finish(Attempting(e, job, attempt, Settle(PLAIN_ERROR)), w)
           == Finish(old(Attempting(e, job, attempt, AwaitProvider(Primary))), w)
      ensures Others(e) == old(Others(e))
    {
      FromAcceptance(Attempting(e, job, attempt, AwaitProvider(Primary)), Primary, id, false, w);
      Count(e, job, attempt, Settle(PLAIN_ERROR), Primary, 1, 1);
    }

    /** The provider accepted: record the reference. */
    method HearSent(e: string, job: Job, attempt: nat, kind: StepKind, id: string, usable: bool, w: World)
      returns (ok: bool, remoteID: string)
      requires (e, kind) in store.createSteps && w.Answers(kind) == Sent(id, usable) && (kind == Companion || usable)
      modifies store`createSteps, `tallies
      ensures Finish(Attempting(e, job, attempt, if ok then AfterStep(kind, remoteID) else Settle(PLAIN_ERROR)), w)
           == Finish(old(Attempting(e, job, attempt, AwaitProvider(kind))), w)
      ensures Others(e) == old(Others(e))
    {
      FromAcceptance(Attempting(e, job, attempt, AwaitProvider(kind)), kind, id, usable, w);
      remoteID := if kind == Companion then "" else id;
      Count(e, job, attempt, RecordSent(kind, remoteID), kind, 1, 0);
      ok := RecordSentStep(e, job, attempt, kind, remoteID, w);
    }

    /** Ask the provider and record its answer. */
    method SendStep(e: string, job: Job, attempt: nat, kind: StepKind, w: World)
      returns (stopped: bool, error: Option<Failure>, remoteID: string)
      requires (e, kind) in store.createSteps
      modifies store`operations, store`createSteps, `tallies
      ensures stopped ==>
                Attempting(e, job, attempt, Returned(error)) ==
                Finish(old(Attempting(e, job, attempt, AwaitProvider(kind))), w)
      ensures !stopped ==>
                Finish(Attempting(e, job, attempt, AfterStep(kind, remoteID)), w)
                == Finish(old(Attempting(e, job, attempt, AwaitProvider(kind))), w)
      ensures Others(e) == old(Others(e))
    {
      stopped, error, remoteID := true, None, "";
      match w.Answers(kind)
      case Refused(failure) => error := HearError(e, job, attempt, kind, failure, w);
      case Sent(id, usable) =>
        if kind == Primary && !usable {
          HearUnusable(e, job, attempt, id, w);
        } else {
          var ok;
          ok, remoteID := HearSent(e, job, attempt, kind, id, usable, w);
          if ok { return false, None, remoteID; }
        }
        error := FinishFailure(e, job, attempt, PLAIN_ERROR, w);
    }

    /** Read a create step and, while it is pending, send it. Stops when the step is
        ambiguous or a call fails. */
    method EnsureStep(e: string, job: Job, attempt: nat, kind: StepKind, w: World)
      returns (stopped: bool, error: Option<Failure>, remoteID: string)
      modifies store`operations, store`createSteps, `tallies
      ensures stopped ==>
                Attempting(e, job, attempt, Returned(error)) ==
                Finish(old(Attempting(e, job, attempt, ReadStep(kind))), w)
      ensures !stopped ==>
                Finish(Attempting(e, job, attempt, AfterStep(kind, remoteID)), w)
                == Finish(old(Attempting(e, job, attempt, ReadStep(kind))), w)
      ensures Others(e) == old(Others(e))
    {
      FromReadStep(Attempting(e, job, attempt, ReadStep(kind)), kind, w);
      stopped, error, remoteID := true, None, "";
      if !w.Reads(kind) || (e, kind) !in store.createSteps {
        error := FinishFailure(e, job, attempt, PLAIN_ERROR, w);
        return;
      }
      var step := store.createSteps[(e, kind)];
      match step
      case Ambiguous =>
      case Complete(id) => return false, None, id;
      case Pending => stopped, error, remoteID := SendStep(e, job, attempt, kind, w);
    }

    /** With the primary sent: recheck the tombstone, store the copy, drop the row. */
    method StoreResult(e: string, job: Job, attempt: nat, remoteID: string, w: World) returns (error: Option<Failure>)
      modifies store`operations, store`copies, store`tombstoned
      ensures Attempting(e, job, attempt, Returned(error))
           == Finish(old(Attempting(e, job, attempt, RecheckTombstone(remoteID))), w)
      ensures Others(e) == old(Others(e))
      ensures old(store.tombstoned) ==> store.tombstoned
    {
      FromRecheck(Attempting(e, job, attempt, RecheckTombstone(remoteID)), remoteID, w);
      if w.deleteArrives { store.tombstoned := true; }
      if !w.recheck {
        error := FinishFailure(e, job, attempt, PLAIN_ERROR, w);
        return;
      }
      if store.tombstoned {
        DropRow(e, job, attempt, w);
        return None;
      }
      error := KeepCopy(e, job, attempt, remoteID, w);
    }

    /** AddMessageCopy, the poll reference, and the end of the ledger row. */
    method KeepCopy(e: string, job: Job, attempt: nat, remoteID: string, w: World) returns (error: Option<Failure>)
      modifies store`operations, store`copies
      ensures Attempting(e, job, attempt, Returned(error)) ==
              Finish(old(Attempting(e, job, attempt, StoreCopy(remoteID))), w)
      ensures Others(e) == old(Others(e))
    {
      FromStoreCopy(Attempting(e, job, attempt, StoreCopy(remoteID)), remoteID, w);
      var stored := AddCopy(e, job, attempt, SavePollRef, remoteID, w.store);
      if !stored {
        error := FinishFailure(e, job, attempt, PLAIN_ERROR, w);
        return;
      }
      error := KeepPollRef(e, job, attempt, w);
    }

    method KeepPollRef(e: string, job: Job, attempt: nat, w: World) returns (error: Option<Failure>)
      modifies store`operations
      ensures Attempting(e, job, attempt, Returned(error)) == Finish(old(Attempting(e, job, attempt, SavePollRef)), w)
      ensures Others(e) == old(Others(e))
    {
      FromSavePollRef(Attempting(e, job, attempt, SavePollRef), w);
      if w.savePollRef {
        DropRow(e, job, attempt, w);
        return None;
      }
      error := FinishFailure(e, job, attempt, PLAIN_ERROR, w);
    }

    /** One attempt of the create job. */
    method RunJob(e: string, job: Job, attempt: nat, w: World) returns (error: Option<Failure>)
      modifies store`operations, store`createSteps, store`copies, store`tombstoned, `tallies
      ensures Attempting(e, job, attempt, Returned(error)) ==
              Finish(old(Attempting(e, job, attempt, CheckTombstone)), w)
      ensures Others(e) == old(Others(e))
      ensures old(store.tombstoned) ==> store.tombstoned
    {
      FromCheckTombstone(Attempting(e, job, attempt, CheckTombstone), w);
      if !w.readTombstone { return Some(PLAIN_ERROR); }
      if store.tombstoned {
        DropRow(e, job, attempt, w);
        return None;
      }
      error := BeginAndSend(e, job, attempt, w);
    }

    /** BeginDeliveryAttempt, and the attempt proper. */
    method BeginAndSend(e: string, job: Job, attempt: nat, w: World) returns (error: Option<Failure>)
      modifies store`operations, store`createSteps, store`copies, store`tombstoned, `tallies
      ensures Attempting(e, job, attempt, Returned(error)) == Finish(old(Attempting(e, job, attempt, BeginAttempt)), w)
      ensures Others(e) == old(Others(e))
      ensures old(store.tombstoned) ==> store.tombstoned
    {
      FromBeginAttempt(Attempting(e, job, attempt, BeginAttempt), w);
      var begun := UpdateRow(e, job, attempt, CheckRoute, Retrying, w.begin);
      if !begun { return Some(PLAIN_ERROR); }
      error := SendSteps(e, job, attempt, w);
    }

    /** Check the route, then send what is still missing. */
    method SendSteps(e: string, job: Job, attempt: nat, w: World) returns (error: Option<Failure>)
      modifies store`operations, store`createSteps, store`copies, store`tombstoned, `tallies
      ensures Attempting(e, job, attempt, Returned(error)) == Finish(old(Attempting(e, job, attempt, CheckRoute)), w)
      ensures Others(e) == old(Others(e))
      ensures old(store.tombstoned) ==> store.tombstoned
    {
      FromCheckRoute(Attempting(e, job, attempt, CheckRoute), w);
      if w.route != RouteOk {
        error := FinishFailure(e, job, attempt, if w.route == RouteChangedNow then ROUTE_GONE else PLAIN_ERROR, w);
        return;
      }
      if job.media {
        var stopped, remoteID;
        stopped, error, remoteID := EnsureStep(e, job, attempt, Companion, w);
        if stopped { return; }
      }
      error := SendPrimary(e, job, attempt, w);
    }

    /** The primary, and what follows it. */
    method SendPrimary(e: string, job: Job, attempt: nat, w: World) returns (error: Option<Failure>)
      modifies store`operations, store`createSteps, store`copies, store`tombstoned, `tallies
      ensures Attempting(e, job, attempt, Returned(error)) ==
              Finish(old(Attempting(e, job, attempt, ReadStep(Primary))), w)
      ensures Others(e) == old(Others(e))
      ensures old(store.tombstoned) ==> store.tombstoned
    {
      var stopped, remoteID;
      stopped, error, remoteID := EnsureStep(e, job, attempt, Primary, w);
      if stopped { return; }
      error := StoreResult(e, job, attempt, remoteID, w);
    }

    /** One destination between attempts, with the fan-out at the given place. */
    ghost function Resting(e: string, handler: Handler): Dest reads this, store {
      At(e, Idle, handler)
    }

    /** Handle for one destination: skip it when it has a copy, otherwise enqueueCreate. */
    method HandleDestination(e: string, media: bool, h: HandlerWorld) returns (ok: bool)
      modifies store`operations, store`createSteps, `lanes, `fannedOut
      ensures (Resting(e, NotHandling), ok) == FinishHandle(old(Resting(e, Handling(media, LookCopy))), h)
      ensures forall x :: x != e ==> Resting(x, NotHandling) == old(Resting(x, NotHandling))
    {
      FromLookCopy(Resting(e, Handling(media, LookCopy)), media, h);
      if !h.lookCopy { return false; }
      if e in store.copies {
        fannedOut := fannedOut + {e};
        return true;
      }
      ok := EnqueueCreate(e, media, h);
    }

    /** enqueueCreate: leave an active row alone, otherwise make sure there is one. */
    method EnqueueCreate(e: string, media: bool, h: HandlerWorld) returns (ok: bool)
      modifies store`operations, store`createSteps, `lanes, `fannedOut
      ensures (Resting(e, NotHandling), ok) == FinishHandle(old(Resting(e, Handling(media, LookRow))), h)
      ensures forall x :: x != e ==> Resting(x, NotHandling) == old(Resting(x, NotHandling))
    {
      FromLookRow(Resting(e, Handling(media, LookRow)), media, h);
      if !h.lookRow { return false; }
      if e in store.operations && (store.operations[e] == Queued || store.operations[e] == Retrying) {
        fannedOut := fannedOut + {e};
        return true;
      }
      ok := EnqueueRow(e, media, h);
    }

    /** The ledger row. */
    method EnqueueRow(e: string, media: bool, h: HandlerWorld) returns (ok: bool)
      modifies store`operations, store`createSteps, `lanes, `fannedOut
      ensures (Resting(e, NotHandling), ok) == FinishHandle(old(Resting(e, Handling(media, InsertRow))), h)
      ensures forall x :: x != e ==> Resting(x, NotHandling) == old(Resting(x, NotHandling))
    {
      FromInsertRow(Resting(e, Handling(media, InsertRow)), media, h);
      ok := store.UpsertDeliveryOperation(e, h.insertRow);
      if ok {
        ok := EnqueueSteps(e, media, h);
      }
    }

    /** The create steps the job will work through. */
    method EnqueueSteps(e: string, media: bool, h: HandlerWorld) returns (ok: bool)
      modifies store`operations, store`createSteps, `lanes, `fannedOut
      ensures (Resting(e, NotHandling), ok) == FinishHandle(old(Resting(e, Handling(media, InsertPrimary))), h)
      ensures forall x :: x != e ==> Resting(x, NotHandling) == old(Resting(x, NotHandling))
    {
      FromInsertPrimary(Resting(e, Handling(media, InsertPrimary)), media, h);
      ok := store.UpsertCreateStep(e, Primary, h.insertPrimary);
      if !ok { return; }
      if media {
        ok := EnqueueCompanion(e, h);
      } else {
        ok := OfferJob(e, media, h);
      }
    }

    method EnqueueCompanion(e: string, h: HandlerWorld) returns (ok: bool)
      modifies store`operations, store`createSteps, `lanes, `fannedOut
      ensures (Resting(e, NotHandling), ok) == FinishHandle(old(Resting(e, Handling(true, InsertCompanion))), h)
      ensures forall x :: x != e ==> Resting(x, NotHandling) == old(Resting(x, NotHandling))
    {
      FromInsertCompanion(Resting(e, Handling(true, InsertCompanion)), true, h);
      ok := store.UpsertCreateStep(e, Companion, h.insertCompanion);
      if ok {
        ok := OfferJob(e, true, h);
      }
    }

    method MarkRefusedRow(e: string, h: HandlerWorld)
      modifies store`operations
      ensures Resting(e, NotHandling) ==
              var d := old(Resting(e, NotHandling)); if h.markRefused then d.UpdateRow(AwaitingReplay) else d
      ensures forall x :: x != e ==> Resting(x, NotHandling) == old(Resting(x, NotHandling))
    {
      var _ := store.SetDeliveryOperationState(e, AwaitingReplay, h.markRefused);
    }

    /** The job goes to the end of the lane. */
    method PutJob(e: string, media: bool)
      modifies `lanes, `fannedOut
      ensures Resting(e, NotHandling) ==
              old(Resting(e, NotHandling)).(lane := old(LaneOf(e)) + [Job(media)], fannedOut := true)
      ensures forall x :: x != e ==> Resting(x, NotHandling) == old(Resting(x, NotHandling))
    {
      lanes := lanes[e := (if e in lanes then lanes[e] else []) + [Job(media)]];
      fannedOut := fannedOut + {e};
    }

    /** EnqueueRetry, or a row that waits for a replay when the lane is full or gone. */
    method OfferJob(e: string, media: bool, h: HandlerWorld) returns (ok: bool)
      modifies store`operations, `lanes, `fannedOut
      ensures (Resting(e, NotHandling), ok) == FinishHandle(old(Resting(e, Handling(media, Offer))), h)
      ensures forall x :: x != e ==> Resting(x, NotHandling) == old(Resting(x, NotHandling))
    {
      FromOffer(Resting(e, Handling(media, Offer)), media, h);
      if !h.room {
        MarkRefusedRow(e, h);
        return false;
      }
      PutJob(e, media);
      return true;
    }

    // ---- The whole message --------------------------------------------------------------------

    ghost function Rows(): Sys reads this, store {
      Sys(map e | e in endpoints :: Resting(e, NotHandling), store.mutations)
    }

    /** The message machine's state, with the given call in progress. */
    ghost function View(call: Option<Call>): Message reads this, store {
      Message(Rows(), store.canonical, store.tombstoned, call, None)
    }

    ghost predicate Valid() reads this, store {
      && store.operations.Keys <= endpoints
      && (forall e <- endpoints :: Ledger(Resting(e, NotHandling)))
      && (!store.canonical ==>
            store.operations == map[] && store.mutations == map[] && fannedOut == {} && !store.tombstoned)
    }

    lemma ViewIsConsistent()
      requires Valid()
      ensures Consistent(View(None))
    {
      var m := View(None);
      forall e | e in m.sys.dests ensures DestConsistent(m, e) {
        assert m.sys.dests[e] == Resting(e, NotHandling);
      }
    }

    /** HandleDestination keeps the ledger invariant of every destination. */
    method HandleNext(e: string, media: bool, h: HandlerWorld) returns (ok: bool)
      requires Valid() && e in endpoints && store.canonical
      modifies store`operations, store`createSteps, `lanes, `fannedOut
      ensures Valid() && old(fannedOut) <= fannedOut
      ensures (Resting(e, NotHandling), ok) == FinishHandle(old(Resting(e, Handling(media, LookCopy))), h)
      ensures forall x :: x != e ==> Resting(x, NotHandling) == old(Resting(x, NotHandling))
      ensures ok ==> e in fannedOut
    {
      ghost var d := Resting(e, Handling(media, LookCopy));
      assert Ledger(Resting(e, NotHandling));
      FinishHandleLedger(d, h);
      ok := HandleDestination(e, media, h);
      forall x ensures x in store.operations ==> x in endpoints {
        assert x != e ==> Resting(x, NotHandling).row == old(Resting(x, NotHandling).row);
      }
      forall x | x in endpoints ensures Ledger(Resting(x, NotHandling)) && (x in old(fannedOut) ==> x in fannedOut) {
        if x == e { assert Resting(e, NotHandling).fannedOut == (e in fannedOut); }
        else { assert Resting(x, NotHandling) == old(Resting(x, NotHandling)); }
      }
      forall x | x in old(fannedOut) ensures x in fannedOut {
        if x != e { assert Resting(x, NotHandling) == old(Resting(x, NotHandling)); }
        else { assert Resting(e, NotHandling).fannedOut == (e in fannedOut); }
      }
    }

    /** In the rows of the message, only the destination's have changed. */
    twostate lemma RowsChanged(e: string)
      requires e in endpoints && store.mutations == old(store.mutations)
      requires forall x :: x != e ==> Resting(x, NotHandling) == old(Resting(x, NotHandling))
      ensures Rows() == old(Rows()).(dests := old(Rows()).dests[e := Resting(e, NotHandling)])
    {
    }

    /** The same, seen in the rows of the whole message. */
    method HandleNextRows(e: string, media: bool, h: HandlerWorld) returns (ok: bool)
      requires Valid() && e in endpoints && store.canonical
      modifies store`operations, store`createSteps, `lanes, `fannedOut
      ensures Valid() && (if ok then old(fannedOut) + {e} else old(fannedOut)) <= fannedOut
      ensures (Resting(e, NotHandling), ok) == FinishHandle(old(Resting(e, Handling(media, LookCopy))), h)
      ensures Rows() == old(Rows()).(dests := old(Rows()).dests[e := Resting(e, NotHandling)])
    {
      ok := HandleNext(e, media, h);
      RowsChanged(e);
    }

    /** What the call comes to from here on: it goes on from a later place, or has failed. */
    ghost function Onward(going: bool, call: Call, w: CallWorld): Message reads this, store {
      if going then FinishCall(View(Some(call)), w) else MessageCalls.Return(View(Some(call)), R.RouterError)
    }

    /** One turn of the loop: the machine's steps for its present target. */
    method HandleTarget(ghost call: Call, ghost i: nat, t: string, media: bool, w: CallWorld)
      returns (ok: bool, ghost next: Call)
      requires Valid() && store.canonical && t in endpoints && t in w.handlers
      requires call.pc == Loop(i) && i < |call.delivery.targets|
      requires call.delivery.targets[i] == t && call.delivery.media == media
      modifies store`operations, store`createSteps, `lanes, `fannedOut
      ensures Valid() && (if ok then old(fannedOut) + {t} else old(fannedOut)) <= fannedOut
      ensures next == if ok then call.(pc := Loop(i + 1)) else call
      ensures Onward(ok, next, w) == old(Onward(true, call, w))
    {
      TargetOfView(call, i, t, w);
      ok := HandleNextRows(t, media, w.handlers[t]);
      next := if ok then call.(pc := Loop(i + 1)) else call;
    }

    /** The machine's steps for the target the loop is at. */
    lemma TargetOfView(call: Call, i: nat, t: string, w: CallWorld)
      requires t in endpoints && t in w.handlers
      requires call.pc == Loop(i) && i < |call.delivery.targets| && call.delivery.targets[i] == t
      ensures var (d', passed) := FinishHandle(Resting(t, Handling(call.delivery.media, LookCopy)), w.handlers[t]);
              FinishCall(View(Some(call)), w) == AfterTarget(SetDest(View(Some(call)), t, d'), i, passed, w)
    {
      FromTarget(View(Some(call)), i, t, w);
    }

    static function Members(targets: seq<string>): set<string> {
      set t | t in targets
    }

    static lemma OneMore(targets: seq<string>, i: nat)
      requires i < |targets|
      ensures Members(targets[..i + 1]) == Members(targets[..i]) + {targets[i]}
    {
    }

    /** The same, keeping account of the targets passed. */
    method PassTarget(ghost call: Call, i: nat, targets: seq<string>, media: bool, w: CallWorld)
      returns (ok: bool, ghost next: Call)
      requires Valid() && store.canonical && i < |targets| && targets[i] in endpoints && targets[i] in w.handlers
      requires call.pc == Loop(i) && call.delivery.targets == targets && call.delivery.media == media
      requires Members(targets[..i]) <= fannedOut
      modifies store`operations, store`createSteps, `lanes, `fannedOut
      ensures Valid() && (ok ==> Members(targets[..i + 1]) <= fannedOut)
      ensures next == if ok then call.(pc := Loop(i + 1)) else call
      ensures Onward(ok, next, w) == old(Onward(true, call, w))
    {
      ok, next := HandleTarget(call, i, targets[i], media, w);
      OneMore(targets, i);
    }

    /** Every target has a ledger row or its copy, or the message is deleted. */
    ghost predicate TargetsCovered(targets: seq<string>) reads this, store {
      forall t <- targets :: Covered(Resting(t, NotHandling))
    }

    lemma PassedIsCovered(targets: seq<string>)
      requires Valid() && Members(targets) <= fannedOut && forall t <- targets :: t in endpoints
      ensures TargetsCovered(targets)
    {
      forall t <- targets ensures Covered(Resting(t, NotHandling)) {
        assert Ledger(Resting(t, NotHandling)) && Resting(t, NotHandling).fannedOut;
      }
    }

    /** Handle's fan-out over the other endpoints of the set: in order, stopping at the first
        destination that reports an error. */
    method FanOut(targets: seq<string>, media: bool, w: CallWorld, ghost call: Call)
      returns (ok: bool, ghost last: Call)
      requires Valid() && store.canonical && forall t <- targets :: t in endpoints && t in w.handlers
      requires call.delivery.targets == targets && call.delivery.media == media && call.pc == Loop(0)
      modifies store`operations, store`createSteps, `lanes, `fannedOut
      ensures Valid() && last == call.(pc := last.pc)
      ensures ok ==> last.pc == Loop(|targets|) && Members(targets) <= fannedOut && TargetsCovered(targets)
      ensures Onward(ok, last, w) == old(Onward(true, call, w))
    {
      last := call;
      for i := 0 to |targets|
        invariant Valid() && last == call.(pc := Loop(i))
        invariant Members(targets[..i]) <= fannedOut
        invariant Onward(true, last, w) == old(Onward(true, call, w))
      {
        ok, last := PassTarget(last, i, targets, media, w);
        if !ok { return; }
      }
      ok := true;
      assert targets[..|targets|] == targets;
      PassedIsCovered(targets);
    }

    /** Handle up to the loop: the lookups, the author's checks, resolveCanonical, the tombstone, and
        the return for a self-sent message that is known already. `fans`: the loop is next. */
    method Admit(dl: Delivery, w: CallWorld, ghost call: Call) returns (ok: bool, fans: bool, ghost last: Call)
      requires Valid() && call.delivery == dl && call.pc == LookUp
      modifies store`canonical
      ensures Valid() && last.delivery == dl && (old(store.canonical) || fans ==> store.canonical)
      ensures ok ==> last.pc == if fans then Loop(0) else Query
      ensures Onward(ok, last, w) == old(Onward(true, call, w))
    {
      ok, fans, last := false, false, call;
      if !w.lookUp { FailsAt(View(Some(last)), w); return; }
      var existed := store.canonical;
      FromLookUp(View(Some(last)), w);
      last := last.(existed := existed);
      if dl.local {
        last := last.(pc := Query);
        return true, false, last;
      }
      if !(dl.fromSelf && existed) {
        last := last.(pc := Identify);
        if !w.identify { FailsAt(View(Some(last)), w); return; }
        FromIdentify(View(Some(last)), w);
      }
      last := last.(pc := Resolve);
      ok, fans, last := ResolveAndCheck(dl, w, last);
    }

    /** resolveCanonical, and what may stop the message after it. */
    method ResolveAndCheck(dl: Delivery, w: CallWorld, ghost call: Call)
      returns (ok: bool, fans: bool, ghost last: Call)
      requires Valid() && call.delivery == dl && call.pc == Resolve
      modifies store`canonical
      ensures Valid() && last.delivery == dl && (old(store.canonical) || fans ==> store.canonical)
      ensures ok ==> last.pc == if fans then Loop(0) else Query
      ensures Onward(ok, last, w) == old(Onward(true, call, w))
    {
      ok, fans, last := false, false, call;
      if !w.resolve { FailsAt(View(Some(last)), w); return; }
      FromResolve(View(Some(last)), w);
      var created := ResolveCanonical();
      last := last.(pc := CheckDeleted(created));
      ok, fans, last := CheckAndPrepare(dl, w, created, last);
    }

    /** resolveCanonical, when it works. */
    method ResolveCanonical() returns (created: bool)
      requires Valid()
      modifies store`canonical
      ensures Valid() && store.canonical && created == !old(store.canonical) && Rows() == old(Rows())
    {
      var ok;
      ok, created := store.ResolveOrCreateCanonical(true);
      assert Rows().dests == old(Rows()).dests;
    }

    /** The tombstone, the idempotence check, and what precedes the loop. */
    method CheckAndPrepare(dl: Delivery, w: CallWorld, created: bool, ghost call: Call)
      returns (ok: bool, fans: bool, ghost last: Call)
      requires call.delivery == dl && call.pc == CheckDeleted(created)
      ensures last.delivery == dl && (ok ==> last.pc == if fans then Loop(0) else Query)
      ensures Onward(ok, last, w) == Onward(true, call, w)
    {
      ok, fans, last := false, false, call;
      if !w.readTombstone { FailsAt(View(Some(last)), w); return; }
      FromCheckDeleted(View(Some(last)), created, w);
      if store.tombstoned || (dl.fromSelf && !created) {
        last := last.(pc := Query);
        return true, false, last;
      }
      last := last.(pc := Prepare);
      if !w.prepare { FailsAt(View(Some(last)), w); return; }
      FromPrepare(View(Some(last)), w);
      last := last.(pc := Loop(0));
      return true, true, last;
    }

    /** The answer the message machine comes to for a delivery that arrives now. */
    ghost function Answered(dl: Delivery, w: CallWorld): Message reads this, store
      requires forall t <- dl.targets :: t in endpoints
    {
      FinishCall(MessageNext(View(None), Arrive(dl)), w)
    }

    ghost function NewCall(dl: Delivery): Call reads this, store {
      Call(dl, false, Missing(Rows(), dl.targets), LookUp)
    }

    /** Handle: success or an error. */
    method Handle(dl: Delivery, w: CallWorld, ghost call: Call) returns (ok: bool, ghost last: Call)
      requires Valid() && forall t <- dl.targets :: t in endpoints && t in w.handlers
      requires call.delivery == dl && call.pc == LookUp
      modifies store`canonical, store`operations, store`createSteps, `lanes, `fannedOut
      ensures Valid() && (ok ==> last.pc == Query)
      ensures Onward(ok, last, w) == old(Onward(true, call, w))
    {
      var fans;
      ok, fans, last := Admit(dl, w, call);
      if !ok || !fans { return; }
      ok, last := FanOut(dl.targets, dl.media, w, last);
      if ok {
        last := AfterLoop(last, w);
      }
    }

    lemma AfterLoop(call: Call, w: CallWorld) returns (last: Call)
      requires call.pc == Loop(|call.delivery.targets|)
      ensures last == call.(pc := Query) && Onward(true, last, w) == Onward(true, call, w)
    {
      last := call.(pc := Query);
      FromLoopEnd(View(Some(call)), w);
    }

    /** Every target is done. */
    ghost predicate TargetsDone(targets: seq<string>) reads this, store {
      forall t <- targets :: Done(Resting(t, NotHandling))
    }

    /** What a safe answer will mean for the targets, as far as that is decided beforehand. */
    lemma AnswerMeans(dl: Delivery, w: CallWorld)
      requires Valid() && forall t <- dl.targets :: t in endpoints
      ensures var r := Answered(dl, w);
              r.report.Some? && r.deleted == store.tombstoned &&
              (R.Acknowledges(r.report.value.outcome) ==>
                 (AllDone(r.sys, dl.targets) <==>
                  store.tombstoned || !(dl.local || (dl.fromSelf && store.canonical)) || TargetsCovered(dl.targets)))
    {
      ViewIsConsistent();
      WholeCallIff(View(None), dl, w);
      MissingMeans(dl.targets);
    }

    lemma MissingMeans(targets: seq<string>)
      requires forall t <- targets :: t in endpoints
      ensures Missing(Rows(), targets) == {} <==> TargetsCovered(targets)
      ensures AllDone(Rows(), targets) <==> TargetsDone(targets)
    {
      var missing := Missing(Rows(), targets);
      if missing == {} {
        forall t | t in targets ensures Covered(Resting(t, NotHandling)) {
          assert t !in missing;
        }
      }
    }

    /** HandleEvent for a message to be fanned out: the machine's answer, which if safe means that
        every target is done, unless the call skips the fan-out of an undeleted message some of
        whose targets have neither row nor copy. */
    method HandleEvent(dl: Delivery, w: CallWorld) returns (outcome: R.Outcome, ghost last: Call)
      requires Valid() && forall t <- dl.targets :: t in endpoints && t in w.handlers
      modifies store`canonical, store`operations, store`createSteps, `lanes, `fannedOut
      ensures Valid()
      ensures old(Answered(dl, w)) == MessageCalls.Return(View(Some(last)), outcome)
      ensures outcome.Outcome? ==> outcome == R.Outcome(true, false, NothingIsPending())
      ensures R.Acknowledges(outcome) ==>
                (TargetsDone(dl.targets) <==>
                 store.tombstoned || !(dl.local || (dl.fromSelf && old(store.canonical)))
                 || old(TargetsCovered(dl.targets)))
    {
      AnswerMeans(dl, w);
      outcome, last := Deliver(dl, w);
      MissingMeans(dl.targets);
    }

    /** HandleEvent's own steps: Handle, then the pending query. */
    method Deliver(dl: Delivery, w: CallWorld) returns (outcome: R.Outcome, ghost last: Call)
      requires Valid() && forall t <- dl.targets :: t in endpoints && t in w.handlers
      modifies store`canonical, store`operations, store`createSteps, `lanes, `fannedOut
      ensures Valid()
      ensures old(Answered(dl, w)) == MessageCalls.Return(View(Some(last)), outcome)
      ensures outcome.Outcome? ==> outcome == R.Outcome(true, false, NothingIsPending())
    {
      var ok;
      ok, last := Handle(dl, w, NewCall(dl));
      if !ok { return R.RouterError, last; }
      outcome := AskPending(w, last);
    }

    lemma PendingAgrees()
      requires Valid()
      ensures store.PendingDeliveryForRemote() <==> store.canonical && PendingDelivery(Rows())
    {
      var dests := Rows().dests;
      forall e | e in store.operations && store.operations[e] != Failed
        ensures exists x <- dests :: Active(dests[x].row)
      {
        assert e in dests && Active(dests[e].row);
      }
      forall e | e in dests && Active(dests[e].row)
        ensures e in store.operations && store.operations[e] != Failed
      {
      }
    }

    /** The message is not known, or every row of its ledger has failed for good. */
    ghost predicate NothingIsPending() reads this, store {
      !store.canonical ||
      ((forall e <- store.operations :: store.operations[e] !in {Queued, Retrying, AwaitingReplay})
       && forall key <- store.mutations :: store.mutations[key] !in {Queued, Retrying, AwaitingReplay})
    }

    /** PendingDeliveryForRemote, and what HandleEvent makes of it. */
    method AskPending(w: CallWorld, ghost call: Call) returns (outcome: R.Outcome)
      requires Valid() && call.pc == Query
      ensures Onward(true, call, w) == MessageCalls.Return(View(Some(call)), outcome)
      ensures outcome.Outcome? ==> outcome == R.Outcome(true, false, NothingIsPending())
    {
      if !w.query {
        FailsAt(View(Some(call)), w);
        return R.RouterError;
      }
      FromQuery(View(Some(call)), w);
      PendingAgrees();
      outcome := R.Outcome(true, false, !store.PendingDeliveryForRemote());
    }

    // ---- The lane's worker -------------------------------------------------------------------

    /** The next job of the lane. */
    method TakeJob(e: string) returns (job: Option<Job>)
      modifies `lanes
      ensures job.None? ==> lanes == old(lanes) && Resting(e, NotHandling).lane == []
      ensures job.Some? ==>
                old(Resting(e, NotHandling)).lane != []
                && Attempting(e, job.value, 1, CheckTombstone) ==
                   Next(old(Resting(e, NotHandling)), CreateProtocol.TakeJob)
      ensures lanes.Keys == old(lanes).Keys && forall x <- lanes :: x != e ==> lanes[x] == old(lanes)[x]
    {
      if e !in lanes || lanes[e] == [] { return None; }
      job := Some(lanes[e][0]);
      lanes := lanes[e := lanes[e][1..]];
    }

    static function WithTombstone(d: Dest, tombstoned: bool): Dest {
      d.(tombstoned := tombstoned)
    }

    /** A destination as its rows among those of other destinations have it. */
    static function FromRows(o: Elsewhere, x: string, lane: seq<Job>, tombstoned: bool, fannedOut: bool): Dest {
      var companion, primary := (x, Companion), (x, Primary);
      Dest(if x in o.operations then Some(o.operations[x]) else None,
           Book(if companion in o.steps then Some(o.steps[companion]) else None,
                if companion in o.tallies then o.tallies[companion] else Tally(0, 0)),
           Book(if primary in o.steps then Some(o.steps[primary]) else None,
                if primary in o.tallies then o.tallies[primary] else Tally(0, 0)),
           if x in o.copies then Some(o.copies[x]) else None,
           tombstoned, lane, Idle, NotHandling, fannedOut)
    }

    lemma RestsInRows(e: string)
      ensures forall x :: x != e ==>
                Resting(x, NotHandling) == FromRows(Others(e), x, LaneOf(x), store.tombstoned, x in fannedOut)
    {
    }

    /** Attempt number `attempt` of a job. */
    method RunAttempt(e: string, job: Job, attempt: nat, tries: seq<Try>) returns (error: Option<Failure>)
      requires 1 <= attempt <= MAX_ATTEMPTS <= |tries|
      modifies store`operations, store`createSteps, store`copies, store`tombstoned, `tallies
      ensures FinishTries(old(Attempting(e, job, attempt, CheckTombstone)), tries[attempt - 1..]) ==
              AfterAttempt(Attempting(e, job, attempt, Returned(error)), tries[attempt - 1..])
      ensures Others(e) == old(Others(e)) && (old(store.tombstoned) ==> store.tombstoned)
    {
      FirstTry(Attempting(e, job, attempt, CheckTombstone), tries[attempt - 1..]);
      error := RunJob(e, job, attempt, tries[attempt - 1].world);
    }

    /** The attempt after a retryable failure. */
    method RunAgain(e: string, job: Job, attempt: nat, tries: seq<Try>, was: Option<Failure>)
      returns (error: Option<Failure>)
      requires 1 <= attempt < MAX_ATTEMPTS <= |tries|
      requires was.Some? && was.value.retryable && !tries[attempt - 1].giveUp
      modifies store`operations, store`createSteps, store`copies, store`tombstoned, `tallies
      ensures AfterAttempt(old(Attempting(e, job, attempt, Returned(was))), tries[attempt - 1..]) ==
              AfterAttempt(Attempting(e, job, attempt + 1, Returned(error)), tries[attempt..])
      ensures Others(e) == old(Others(e)) && (old(store.tombstoned) ==> store.tombstoned)
    {
      OneMoreTry(Attempting(e, job, attempt, Returned(was)), tries, attempt);
      error := RunAttempt(e, job, attempt + 1, tries);
    }

    /** The retry loop: one attempt after the other, until the job is done or given up. */
    method RunTries(e: string, job: Job, tries: seq<Try>)
      requires MAX_ATTEMPTS <= |tries|
      modifies store`operations, store`createSteps, store`copies, store`tombstoned, `tallies
      ensures Resting(e, NotHandling) == FinishTries(old(Attempting(e, job, 1, CheckTombstone)), tries)
      ensures Others(e) == old(Others(e)) && (old(store.tombstoned) ==> store.tombstoned)
    {
      ghost var goal := FinishTries(Attempting(e, job, 1, CheckTombstone), tries);
      var attempt := 1;
      assert tries[0..] == tries;
      var error := RunAttempt(e, job, attempt, tries);
      while error.Some? && error.value.retryable && attempt < MAX_ATTEMPTS && !tries[attempt - 1].giveUp
        invariant 1 <= attempt <= MAX_ATTEMPTS
        invariant Others(e) == old(Others(e)) && (old(store.tombstoned) ==> store.tombstoned)
        invariant goal == AfterAttempt(Attempting(e, job, attempt, Returned(error)), tries[attempt - 1..])
      {
        error := RunAgain(e, job, attempt, tries, error);
        attempt := attempt + 1;
      }
      LastTry(Attempting(e, job, attempt, Returned(error)), tries, attempt);
    }

    /** A delete keeps the ledger invariant. */
    static lemma TombstoneKeeps(d: Dest, tombstoned: bool)
      requires Ledger(d) && (d.tombstoned ==> tombstoned)
      ensures Ledger(WithTombstone(d, tombstoned))
    {
      if tombstoned {
        LedgerNext(d, Tombstone);
      }
    }

    /** The job in the lane was put there by a fan-out. */
    lemma WaitingIsPassed(e: string)
      requires Valid() && e in endpoints && Resting(e, NotHandling).lane != []
      ensures store.canonical && Ledger(Next(Resting(e, NotHandling), CreateProtocol.TakeJob))
    {
      assert Ledger(Resting(e, NotHandling));
      LedgerNext(Resting(e, NotHandling), CreateProtocol.TakeJob);
    }

    /** Take the next job of the lane and run it to its end. */
    method RunNext(e: string, tries: seq<Try>) returns (worked: bool)
      requires Valid() && e in endpoints && MAX_ATTEMPTS <= |tries|
      modifies store`operations, store`createSteps, store`copies, store`tombstoned, `lanes, `tallies
      ensures worked == (old(Resting(e, NotHandling)).lane != [])
      ensures Resting(e, NotHandling) ==
              var d := old(Resting(e, NotHandling));
              if worked then FinishTries(Next(d, CreateProtocol.TakeJob), tries) else d
      ensures Ledger(Resting(e, NotHandling))
      ensures Others(e) == old(Others(e)) && forall x :: x != e ==> LaneOf(x) == old(LaneOf(x))
      ensures old(store.tombstoned) ==> store.tombstoned
      ensures worked ==> store.canonical
    {
      assert Ledger(Resting(e, NotHandling));
      if Resting(e, NotHandling).lane != [] { WaitingIsPassed(e); }
      ghost var d := Resting(e, NotHandling);
      var job := TakeJob(e);
      if job.None? { return false; }
      FinishTriesLedger(Next(d, CreateProtocol.TakeJob), tries);
      RunTries(e, job.value, tries);
      return true;
    }

    /** The rows of other destinations, and through them their ledger invariant. */
    lemma OthersAreValid(e: string, o: Elsewhere, tombstoned: bool)
      requires e in endpoints && Ledger(Resting(e, NotHandling)) && store.canonical
      requires Others(e) == o && o.operations.Keys <= endpoints && (tombstoned ==> store.tombstoned)
      requires forall x <- endpoints :: x != e ==> Ledger(FromRows(o, x, LaneOf(x), tombstoned, x in fannedOut))
      ensures Valid()
    {
      RestsInRows(e);
      forall x | x in endpoints && x != e ensures Ledger(Resting(x, NotHandling)) {
        TombstoneKeeps(FromRows(o, x, LaneOf(x), tombstoned, x in fannedOut), store.tombstoned);
      }
      forall x | x in store.operations ensures x in endpoints {
        assert x != e ==> x in o.operations;
      }
    }

    /** The lane's worker: the next job is run to its end, and other destinations only see a delete. */
    method WorkLane(e: string, tries: seq<Try>) returns (worked: bool)
      requires Valid() && e in endpoints && MAX_ATTEMPTS <= |tries|
      modifies store`operations, store`createSteps, store`copies, store`tombstoned, `lanes, `tallies
      ensures Valid() && worked == (old(Resting(e, NotHandling)).lane != [])
      ensures Resting(e, NotHandling) ==
              var d := old(Resting(e, NotHandling));
              if worked then FinishTries(Next(d, CreateProtocol.TakeJob), tries) else d
      ensures Others(e) == old(Others(e)) && forall x :: x != e ==> LaneOf(x) == old(LaneOf(x))
    {
      if LaneOf(e) == [] { return false; }
      RestsInRows(e);
      ghost var o, tombstoned := Others(e), store.tombstoned;
      assert forall x <- endpoints :: x != e ==> Ledger(Resting(x, NotHandling));
      worked := RunNext(e, tries);
      OthersAreValid(e, o, tombstoned);
    }

    // ---- Other things that happen to the message ------------------------------------------------

    ghost predicate Kept(dests: map<string, Dest>) {
      forall e <- dests :: Ledger(dests[e])
    }

    lemma ValidIsKept()
      requires Valid()
      ensures Kept(Rows().dests)
    {
      forall e | e in Rows().dests ensures Ledger(Rows().dests[e]) {
        assert Rows().dests[e] == Resting(e, NotHandling);
      }
    }

    lemma KeptIsValid()
      requires Kept(Rows().dests) && store.operations.Keys <= endpoints && store.canonical
      ensures Valid()
    {
      forall e | e in endpoints ensures Ledger(Resting(e, NotHandling)) {
        assert Rows().dests[e] == Resting(e, NotHandling);
      }
    }

    /** A ledger row of an edit, a reaction, a delete or a poll result changes. */
    method ChangeMutation(key: string, row: Option<OpState>)
      requires Valid()
      modifies store`mutations
      ensures Valid() && View(None) == MessageNext(old(View(None)), Change(key, row))
    {
      ValidIsKept();
      ghost var before := Rows().dests;
      var ok := store.ChangeMutation(key, row);
      assert Rows().dests == before;
      if ok { KeptIsValid(); }
    }
  }
}
