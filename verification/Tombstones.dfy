/** What happens at a destination once the message is deleted (internal/router/router.go:1066-1075,
    1172-1182). */
module Tombstones {
  import opened Wrappers
  import opened Failures
  import opened CreateProtocol
  import opened CreateAttempt

  /** No job is past the check that begins each attempt. */
  predicate BeforeCheck(w: Worker) {
    w.Running? ==> w.pc == CheckTombstone || w.pc == Discard || w.pc.Returned?
  }

  /** What has been sent and what is known of it. */
  predicate SameDeliveries(d: Dest, d': Dest) {
    && d'.copy == d.copy && d'.companion.tally == d.companion.tally && d'.primary.tally == d.primary.tally
  }

  lemma NothingSentNext(d: Dest, e: Event)
    requires d.tombstoned && BeforeCheck(d.worker)
    ensures Next(d, e).tombstoned && BeforeCheck(Next(d, e).worker) && SameDeliveries(d, Next(d, e))
  {
    match e
    case WorkStep(c) =>
    case HandleStep(c) =>
    case RetryStep(g) =>
    case _ =>
  }

  /** Once the message is deleted and no attempt is past its check, nothing is ever sent or stored there
      again, whatever is fanned out, taken, retried or replayed. */
  lemma {:induction false} NothingSentAfterDelete(d: Dest, more: seq<Event>)
    requires d.tombstoned && BeforeCheck(d.worker)
    ensures Run(d, more).tombstoned && BeforeCheck(Run(d, more).worker) && SameDeliveries(d, Run(d, more))
    decreases |more|
  {
    if more != [] {
      NothingSentAfterDelete(d, more[..|more| - 1]);
      NothingSentNext(Run(d, more[..|more| - 1]), more[|more| - 1]);
    }
  }

  lemma NoCopyNext(d: Dest, e: Event)
    requires d.tombstoned && !(d.worker.Running? && d.worker.pc.StoreCopy?)
    ensures Next(d, e).tombstoned && Next(d, e).copy == d.copy
    ensures !(Next(d, e).worker.Running? && Next(d, e).worker.pc.StoreCopy?)
  {
    match e
    case WorkStep(c) =>
      if d.worker.Running? {
        match d.worker.pc
        case ReadStep(k) =>
        case AwaitProvider(k) =>
        case RecordSent(k, id) =>
        case RecordUnknown(k, f) =>
        case Settle(f) =>
        case _ =>
      }
    case HandleStep(c) =>
    case RetryStep(g) =>
    case _ =>
  }

  /** And a job that is already sending stores no copy, unless it has passed its second check as well. */
  lemma {:induction false} NoCopyAfterDelete(d: Dest, more: seq<Event>)
    requires d.tombstoned && !(d.worker.Running? && d.worker.pc.StoreCopy?)
    ensures Run(d, more).copy == d.copy
    ensures Run(d, more).tombstoned && !(Run(d, more).worker.Running? && Run(d, more).worker.pc.StoreCopy?)
    decreases |more|
  {
    if more != [] {
      NoCopyAfterDelete(d, more[..|more| - 1]);
      NoCopyNext(Run(d, more[..|more| - 1]), more[|more| - 1]);
    }
  }

  /** An attempt of a deleted message drops its row, if its statements work, and is over. */
  lemma DeletedIsDropped(d: Dest, w: World)
    requires d.tombstoned && d.worker.Running? && d.worker.pc == CheckTombstone && w.readTombstone && w.discard
    ensures Finish(d, w) == d.(row := None, worker := Running(d.worker.job, d.worker.attempt, Returned(None)))
  {
    FromCheckTombstone(d, w);
    FromDiscard(d.Goto(Discard), w);
  }

  /** And a delete that comes while the provider is asked does the same after the provider has accepted. */
  lemma DeletedOnTheWay(d: Dest, id: string, w: World)
    requires d.worker.Running? && d.worker.pc == RecheckTombstone(id) && w.recheck && w.discard
    requires d.tombstoned || w.deleteArrives
    ensures var e := Finish(d, w);
            e.copy == d.copy && e.row == None && e.worker.pc == Returned(None)
  {
    FromRecheck(d, id, w);
    FromDiscard((if w.deleteArrives then d.(tombstoned := true) else d).Goto(Discard), w);
  }
}
