/** When an accepted edit or reaction is sent again: the runs of MutationOrder in which a revision is
    accepted more than once (internal/router/router.go:717-727, 1384-1488). */
module MutationRepeats {
  import opened MutationOrder
  import opened Wrappers

  /** No Handle call is still about to record the revision. */
  predicate Known(s: Slot, r: nat) {
    r <= s.nextRevision && forall h <- s.handles :: h.Assigned? ==> h.revision != r
  }

  /** The revision has got beyond its Handle call. */
  predicate Underway(s: Slot, r: nat) {
    || s.pending == Some(r) || (s.worker.Running? && s.worker.revision == r)
    || r in s.lane || r in s.flushing || Recorded(r, true) in s.handles || s.history.accepted[r] > 0
  }

  /** Calls that have only been assigned their revisions have different ones. */
  predicate Different(handles: seq<Phase>, highest: nat) {
    && (forall h <- handles :: h.revision <= highest && (h.Recorded? ==> h.copy))
    && forall i, j :: 0 <= i < j < |handles| && handles[i].Assigned? && handles[j].Assigned? ==>
         handles[i].revision != handles[j].revision
  }

  predicate Unique(s: Slot) {
    Different(s.handles, s.nextRevision)
  }

  lemma Removed(handles: seq<Phase>, i: nat)
    requires i < |handles|
    ensures forall h <- Remove(handles, i) :: h in handles
    ensures forall k | 0 <= k < |handles| - 1 :: Remove(handles, i)[k] == handles[if k < i then k else k + 1]
  {
  }

  lemma RemovedDiffer(handles: seq<Phase>, highest: nat, i: nat)
    requires i < |handles| && Different(handles, highest)
    ensures Different(Remove(handles, i), highest)
  {
    Removed(handles, i);
  }

  lemma RecordedDiffer(handles: seq<Phase>, highest: nat, i: nat)
    requires i < |handles| && Different(handles, highest)
    ensures Different(handles[i := Recorded(handles[i].revision, true)], highest)
  {
    assert handles[i] in handles;
    assert forall h <- handles[i := Recorded(handles[i].revision, true)] ::
        h in handles || h == Recorded(handles[i].revision, true);
  }

  lemma AssignedDiffer(handles: seq<Phase>, highest: nat, copy: bool)
    requires Different(handles, highest)
    ensures Different(handles + [Assigned(highest + 1, copy)], highest + 1)
  {
    assert forall i | 0 <= i < |handles| :: handles[i] in handles;
  }

  lemma UniqueNext(s: Slot, e: Event)
    requires Unique(s)
    ensures Unique(Next(s, e))
  {
    match e
    case Assign(copy) => AssignedDiffer(s.handles, s.nextRevision, copy);
    case Record(i) =>
      if Records(s, e) {
        RecordedDiffer(s.handles, s.nextRevision, i);
        RemovedDiffer(s.handles, s.nextRevision, i);
      }
    case Offer(i, _) => if i < |s.handles| { RemovedDiffer(s.handles, s.nextRevision, i); }
    case Work(ok) => HandlesApart(s, ok);
    case _ =>
  }

  /** The worker has nothing to do with the calls. */
  lemma HandlesApart(s: Slot, ok: bool)
    ensures s.worker.Running? ==>
              WorkStep(s, ok).handles == s.handles && WorkStep(s, ok).nextRevision == s.nextRevision
  {
  }

  /** Recording leaves no other call with that revision. */
  lemma KnownOnceRecorded(s: Slot, e: Event)
    requires Unique(s) && Records(s, e)
    ensures Known(Next(s, e), s.handles[e.handle].revision)
  {
    Removed(s.handles, e.handle);
    assert s.handles[e.handle] in s.handles;
    var handles := Next(s, e).handles;
    forall h | h in handles && h.Assigned? ensures h.revision != s.handles[e.handle].revision {
      var k :| 0 <= k < |handles| && handles[k] == h;
    }
  }

  lemma KnownStays(s: Slot, e: Event, r: nat)
    requires Known(s, r)
    ensures Known(Next(s, e), r)
  {
    match e
    case Record(i) => if Records(s, e) { Removed(s.handles, i); }
    case Offer(i, _) => if i < |s.handles| { Removed(s.handles, i); }
    case Work(ok) =>
    case _ =>
  }

  lemma NewlyUnderway(s: Slot, e: Event, r: nat)
    requires Unique(s) && Underway(Next(s, e), r)
    ensures Underway(s, r) || (Records(s, e) && s.handles[e.handle].revision == r)
  {
    match e
    case Offer(i, _) =>
      if i < |s.handles| {
        Removed(s.handles, i);
        assert s.handles[i] in s.handles;
      }
    case Record(i) => if Records(s, e) { Removed(s.handles, i); }
    case Work(ok) =>
    case _ =>
  }

  lemma {:induction false} UnderwayIsKnown(reaction: bool, events: seq<Event>, r: nat)
    ensures var s := Run(InitialSlot(reaction), events); Unique(s) && (Underway(s, r) ==> Known(s, r))
    decreases |events|
  {
    if events != [] {
      var s, e := Run(InitialSlot(reaction), events[..|events| - 1]), events[|events| - 1];
      UnderwayIsKnown(reaction, events[..|events| - 1], r);
      UniqueNext(s, e);
      if Underway(s, r) {
        KnownStays(s, e, r);
      } else if Underway(Next(s, e), r) {
        NewlyUnderway(s, e, r);
        KnownOnceRecorded(s, e);
      }
    }
  }

  /** The worker is about to send the revision, or it is pending and not about to be cleared. */
  predicate StillDue(s: Slot, r: nat) {
    || s.worker == Running(r, Begin) || s.worker == Running(r, Execute)
    || (s.pending == Some(r) && s.worker != Running(r, Clear))
  }

  lemma OverNext(s: Slot, e: Event, r: nat)
    requires Known(s, r) && !StillDue(s, r)
    ensures Known(Next(s, e), r) && !StillDue(Next(s, e), r)
    ensures Next(s, e).history.accepted[r] == s.history.accepted[r]
  {
    KnownStays(s, e, r);
    match e
    case Record(i) => if Records(s, e) { assert s.handles[i] in s.handles; }
    case Work(ok) => if s.worker.Running? { match s.worker.pc case _ => }
    case _ =>
  }

  lemma {:induction false} OverStays(s: Slot, more: seq<Event>, r: nat)
    requires Known(s, r) && !StillDue(s, r)
    ensures Known(Run(s, more), r) && !StillDue(Run(s, more), r)
    ensures Run(s, more).history.accepted[r] == s.history.accepted[r]
    decreases |more|
  {
    if more != [] {
      OverStays(s, more[..|more| - 1], r);
      OverNext(Run(s, more[..|more| - 1]), more[|more| - 1], r);
    }
  }

  lemma PlayOn(start: Slot, s: Slot, events: seq<Event>, e: Event) returns (s': Slot, events': seq<Event>)
    requires s == Run(start, events)
    ensures events' == events + [e] && s' == Next(s, e) == Run(start, events')
  {
    s', events' := Next(s, e), events + [e];
    assert events'[..|events'| - 1] == events;
  }

  /** Nothing but the worker and the history moves, and r is not accepted meanwhile. */
  predicate SameQueues(s: Slot, s': Slot, r: nat) {
    && s'.pending == s.pending && s'.lane == s.lane && s'.flushing == s.flushing
    && s'.history.accepted[r] == s.history.accepted[r]
  }

  /** The worker drops or gives up what it does for another revision. */
  lemma PlayGiveUp(start: Slot, s: Slot, events: seq<Event>, r: nat) returns (s': Slot, events': seq<Event>)
    requires s == Run(start, events) && s.pending == Some(r) && s.worker.Running? && s.worker.revision != r
    ensures s' == Run(start, events') && SameQueues(s, s', r) && s'.worker.Idle?
  {
    s', events' := s, events;
    if s'.worker.pc == Begin || s'.worker.pc == Execute || s'.worker.pc == WriteMarker {
      s', events' := PlayOn(start, s', events', Work(false));
    }
    if s'.worker.pc == Failed {
      s', events' := PlayOn(start, s', events', Retry(false));
    } else {
      s', events' := PlayOn(start, s', events', Work(true));
    }
  }

  /** The worker is at r, before its request or about to try again: it comes to its request. */
  lemma PlayReady(start: Slot, s: Slot, events: seq<Event>, r: nat) returns (s': Slot, events': seq<Event>)
    requires s == Run(start, events) && s.worker.Running? && s.worker.revision == r && s.worker.pc != Clear
    requires s.worker.pc == Begin || s.worker.pc == Execute || s.pending == Some(r)
    ensures s' == Run(start, events') && (s'.worker == Running(r, Begin) || s'.worker == Running(r, Execute))
    ensures s'.history.accepted[r] == s.history.accepted[r]
  {
    s', events' := s, events;
    if s'.worker.pc == WriteMarker {
      s', events' := PlayOn(start, s', events', Work(false));
    }
    if s'.worker.pc == Failed {
      s', events' := PlayOn(start, s', events', Retry(true));
    }
    if s'.worker.pc == CheckCurrent {
      s', events' := PlayOn(start, s', events', Work(true));
    }
  }

  lemma PlayAccept(start: Slot, s: Slot, events: seq<Event>, r: nat) returns (s': Slot, events': seq<Event>)
    requires s == Run(start, events) && s.worker.Running? && s.worker.revision == r && s.worker.pc != Clear
    requires s.worker.pc == Begin || s.worker.pc == Execute || s.pending == Some(r)
    ensures s' == Run(start, events') && s'.history.accepted[r] == s.history.accepted[r] + 1
  {
    s', events' := PlayReady(start, s, events, r);
    if s'.worker.pc == Begin {
      s', events' := PlayOn(start, s', events', Work(true));
    }
    s', events' := PlayOn(start, s', events', Work(true));
  }

  /** The lane is worked off until r comes up in it, or nothing is left. */
  lemma {:induction false} PlayLane(start: Slot, s: Slot, events: seq<Event>, r: nat)
      returns (s': Slot, events': seq<Event>)
    requires s == Run(start, events) && s.pending == Some(r) && s.worker.Idle?
    ensures s' == Run(start, events') && s'.pending == Some(r) && s'.flushing == s.flushing
    ensures s'.history.accepted[r] == s.history.accepted[r]
    ensures s'.worker == Running(r, CheckCurrent) || (s'.worker.Idle? && s'.lane == [])
    decreases |s.lane|
  {
    s', events' := s, events;
    if s.lane != [] {
      s', events' := PlayOn(start, s', events', Take);
      if s'.worker.revision != r {
        s', events' := PlayOn(start, s', events', Work(true));
        s', events' := PlayLane(start, s', events', r);
      }
    }
  }

  /** Older flushes find no room. */
  lemma {:induction false} PlayNoRoom(start: Slot, s: Slot, events: seq<Event>, r: nat)
      returns (s': Slot, events': seq<Event>)
    requires s == Run(start, events) && s.pending == Some(r)
    ensures s' == Run(start, events') && s' == s.(flushing := [])
    decreases |s.flushing|
  {
    s', events' := s, events;
    if s.flushing != [] {
      s', events' := PlayOn(start, s', events', FlushOffer(false));
      s', events' := PlayNoRoom(start, s', events', r);
    }
  }

  /** A pending revision is flushed to an idle worker. */
  lemma PlayFlush(start: Slot, s: Slot, events: seq<Event>, r: nat) returns (s': Slot, events': seq<Event>)
    requires s == Run(start, events) && s.pending == Some(r) && s.worker.Idle? && s.lane == []
    ensures s' == Run(start, events') && s'.pending == Some(r) && s'.worker == Running(r, CheckCurrent)
    ensures s'.history.accepted[r] == s.history.accepted[r]
  {
    s', events' := PlayNoRoom(start, s, events, r);
    s', events' := PlayOn(start, s', events', FlushRead);
    s', events' := PlayOn(start, s', events', FlushOffer(true));
    s', events' := PlayOn(start, s', events', Take);
  }

  lemma PlayDue(s: Slot, r: nat) returns (s': Slot, more: seq<Event>)
    requires StillDue(s, r)
    ensures s' == Run(s, more) && s'.history.accepted[r] == s.history.accepted[r] + 1
  {
    s', more := s, [];
    if s'.worker.Running? && s'.worker.revision != r {
      s', more := PlayGiveUp(s, s', more, r);
    }
    if s'.worker.Idle? {
      s', more := PlayLane(s, s', more, r);
    }
    if s'.worker.Idle? {
      s', more := PlayFlush(s, s', more, r);
    }
    s', more := PlayAccept(s, s', more, r);
  }

  ghost predicate AcceptableAgain(s: Slot, r: nat) {
    exists more: seq<Event> :: Run(s, more).history.accepted[r] > s.history.accepted[r]
  }

  /** In every run, an accepted revision can be accepted again exactly while it is still due: its
      echo marker was lost, or is not written yet, and nothing newer has replaced it. */
  lemma AcceptedAgainIff(reaction: bool, events: seq<Event>, r: nat)
    requires Run(InitialSlot(reaction), events).history.accepted[r] > 0
    ensures var s := Run(InitialSlot(reaction), events); AcceptableAgain(s, r) <==> StillDue(s, r)
  {
    var s := Run(InitialSlot(reaction), events);
    UnderwayIsKnown(reaction, events, r);
    if StillDue(s, r) {
      var s', more := PlayDue(s, r);
    } else {
      forall more: seq<Event> ensures Run(s, more).history.accepted[r] == s.history.accepted[r] {
        OverStays(s, more, r);
      }
    }
  }

  /** A reaction whose echo marker is lost is sent and accepted again. */
  lemma LostMarkerIsResent() returns (events: seq<Event>)
    ensures var h := Run(InitialSlot(true), events).history; h.accepted[1] == 2 && h.sent == [1, 1]
  {
    var start := InitialSlot(true);
    var s;
    s, events := PlayFirst();
    s, events := PlayRequest(start, s, events);
    s, events := PlayOn(start, s, events, Work(false));
    s, events := PlayOn(start, s, events, Retry(true));
    s, events := PlayRequest(start, s, events);
  }

  /** A first reaction, taken from the lane. */
  lemma PlayFirst() returns (s: Slot, events: seq<Event>)
    ensures s == Run(InitialSlot(true), events)
    ensures s == InitialSlot(true).(nextRevision := 1, pending := Some(1), worker := Running(1, CheckCurrent),
                                    history := NO_HISTORY.(latest := 1))
  {
    var start := InitialSlot(true);
    s, events := PlayOn(start, start, [], Assign(true));
    s, events := PlayOn(start, s, events, Record(0));
    s, events := PlayOn(start, s, events, Offer(0, true));
    s, events := PlayOn(start, s, events, Take);
  }

  /** A reaction is sent and accepted, up to its echo marker. */
  lemma PlayRequest(start: Slot, s: Slot, events: seq<Event>) returns (s': Slot, events': seq<Event>)
    requires s == Run(start, events) && s.reaction && s.worker.Running? && s.worker.pc == CheckCurrent
    requires s.pending == Some(s.worker.revision)
    ensures s' == Run(start, events') && s'.reaction && s'.pending == s.pending
    ensures s'.worker == Running(s.worker.revision, WriteMarker)
    ensures s'.history.sent == s.history.sent + [s.worker.revision]
    ensures s'.history.accepted == s.history.accepted + multiset{s.worker.revision}
  {
    s', events' := PlayOn(start, s, events, Work(true));
    s', events' := PlayOn(start, s', events', Work(true));
    s', events' := PlayOn(start, s', events', Work(true));
  }
}
