/** The newest edit or reaction is not lost: it has succeeded, or it is still pending, and then somebody will
    see to it unless it was put off (internal/router/router.go:580-629, 1384-1474). */
module PendingMutations {
  import opened MutationOrder
  import opened Wrappers

  /** The newest revision recorded is pending, or has succeeded. */
  predicate Kept(s: Slot) {
    && (s.pending.Some? ==> s.pending == Some(s.history.latest))
    && (s.pending.None? ==> s.history.latest == 0 || s.history.latest in s.history.succeeded)
    && (s.worker.Running? && s.worker.pc == Clear ==> s.worker.revision in s.history.succeeded)
  }

  lemma KeptNext(s: Slot, e: Event)
    requires Kept(s) && e != Forget
    ensures Kept(Next(s, e))
  {
    match e
    case Work(ok) => if s.worker.Running? { KeptWork(s, ok); }
    case _ =>
  }

  lemma KeptWork(s: Slot, ok: bool)
    requires Kept(s) && s.worker.Running?
    ensures Kept(WorkStep(s, ok))
  {
    match s.worker.pc
    case Execute =>
      if ok && !s.reaction { assert WorkStep(s, ok).history.succeeded[|s.history.succeeded|] == s.worker.revision; }
    case WriteMarker =>
      if ok { assert WorkStep(s, ok).history.succeeded[|s.history.succeeded|] == s.worker.revision; }
    case _ =>
  }

  /** In every run, unless the pending entries are dropped with the message: the newest revision recorded is
      pending until it has succeeded. A success never drops a newer one. */
  lemma {:induction false} NewestIsKept(reaction: bool, events: seq<Event>)
    requires Forget !in events
    ensures Kept(Run(InitialSlot(reaction), events))
    decreases |events|
  {
    if events != [] {
      var before, e := events[..|events| - 1], events[|events| - 1];
      assert events == before + [e];
      NewestIsKept(reaction, before);
      KeptNext(Run(InitialSlot(reaction), before), e);
    }
  }

  /** A job for the revision is queued or running, or a call or a flush is about to offer one. */
  predicate Attended(s: Slot, r: nat) {
    || r in s.lane || (s.worker.Running? && s.worker.revision == r)
    || Recorded(r, true) in s.handles || r in s.flushing
  }

  /** The revision is put off: there is no copy yet, the lane has no room, or its job is given up. */
  predicate PutsOff(s: Slot, e: Event, r: nat) {
    match e
    case Record(i) => i < |s.handles| && s.handles[i] == Assigned(r, false)
    case Offer(i, room) => i < |s.handles| && s.handles[i] == Recorded(r, true) && !room
    case FlushOffer(room) => s.flushing != [] && s.flushing[0] == r && !room
    case Retry(again) => s.worker == Running(r, Failed) && !again
    case _ => false
  }

  /** The pending revision was put off. */
  ghost predicate Waiting(reaction: bool, events: seq<Event>)
    decreases |events|
  {
    var s := Run(InitialSlot(reaction), events);
    events != [] && s.pending.Some? &&
    var before, e := events[..|events| - 1], events[|events| - 1];
    var t := Run(InitialSlot(reaction), before);
    (t.pending == s.pending && Waiting(reaction, before)) || PutsOff(t, e, s.pending.value)
  }

  lemma StaysAt<T>(s: seq<T>, i: nat, x: T)
    requires i < |s| && x in s && s[i] != x
    ensures x in Remove(s, i)
  {
    var j :| 0 <= j < |s| && s[j] == x;
    assert Remove(s, i)[if j < i then j else j - 1] == x;
  }

  predicate OnlyCopies(s: Slot) {
    forall h <- s.handles :: h.Recorded? ==> h.copy
  }

  lemma OnlyCopiesNext(s: Slot, e: Event)
    requires OnlyCopies(s)
    ensures OnlyCopies(Next(s, e))
  {
    match e
    case Work(ok) => if s.worker.Running? { match s.worker.pc case _ => }
    case _ =>
  }

  lemma RecordAttends(s: Slot, i: nat, r: nat)
    requires Next(s, Record(i)).pending == Some(r) && OnlyCopies(s)
    requires s.pending == Some(r) ==> Attended(s, r)
    ensures Attended(Next(s, Record(i)), r) || PutsOff(s, Record(i), r)
  {
    if i < |s.handles| && s.handles[i].Assigned? {
      if s.handles[i].copy {
        assert Next(s, Record(i)).handles[i] == Recorded(r, true);
      } else {
        assert s.handles[i] == Assigned(r, false);
      }
    }
  }

  lemma OfferAttends(s: Slot, i: nat, room: bool, r: nat)
    requires OnlyCopies(s) && Attended(s, r)
    ensures Attended(Next(s, Offer(i, room)), r) || PutsOff(s, Offer(i, room), r)
  {
    var s' := Next(s, Offer(i, room));
    if i < |s.handles| && s.handles[i].Recorded? {
      assert s.handles[i] in s.handles;
      if s.handles[i] == Recorded(r, true) {
        if room { assert s'.lane[|s.lane|] == r; }
      } else if Recorded(r, true) in s.handles {
        StaysAt(s.handles, i, Recorded(r, true));
      }
      assert forall x <- s.lane :: x in s'.lane;
    }
  }

  lemma FlushAttends(s: Slot, e: Event, r: nat)
    requires (e == FlushRead || e.FlushOffer? || e == Take) && Attended(s, r)
    ensures Attended(Next(s, e), r) || PutsOff(s, e, r)
  {
    var s' := Next(s, e);
    if e.FlushOffer? && s.flushing != [] {
      assert s.flushing == [s.flushing[0]] + s'.flushing;
      if e.room { assert s'.lane[|s.lane|] == s.flushing[0]; }
      assert forall x <- s.lane :: x in s'.lane;
    }
    if e == FlushRead && s.pending.Some? { assert forall x <- s.flushing :: x in s'.flushing; }
    if e == Take && s.worker.Idle? && s.lane != [] { assert s.lane == [s.lane[0]] + s'.lane; }
  }

  lemma WorkAttends(s: Slot, ok: bool, r: nat)
    requires s.worker.Running? && WorkStep(s, ok).pending == Some(r) && Attended(s, r)
    ensures Attended(WorkStep(s, ok), r)
  {
    match s.worker.pc
    case _ =>
  }

  lemma NextAttends(s: Slot, e: Event, r: nat)
    requires OnlyCopies(s) && Next(s, e).pending == Some(r) && (s.pending == Some(r) ==> Attended(s, r))
    ensures Attended(Next(s, e), r) || PutsOff(s, e, r)
  {
    match e
    case Record(i) => RecordAttends(s, i, r);
    case Offer(i, room) => OfferAttends(s, i, room, r);
    case FlushRead => FlushAttends(s, e, r);
    case FlushOffer(_) => FlushAttends(s, e, r);
    case Take => FlushAttends(s, e, r);
    case Work(ok) => if s.worker.Running? { WorkAttends(s, ok, r); }
    case _ =>
  }

  lemma {:induction false} PendingIsAttended(reaction: bool, events: seq<Event>)
    ensures var s := Run(InitialSlot(reaction), events);
            OnlyCopies(s) && (s.pending.Some? ==> Attended(s, s.pending.value) || Waiting(reaction, events))
    decreases |events|
  {
    if events != [] {
      var before, e := events[..|events| - 1], events[|events| - 1];
      PendingIsAttended(reaction, before);
      var s := Run(InitialSlot(reaction), before);
      OnlyCopiesNext(s, e);
      var s' := Next(s, e);
      if s'.pending.Some? && !(s.pending == s'.pending && Waiting(reaction, before)) {
        NextAttends(s, e, s'.pending.value);
      }
    }
  }

  predicate AtRest(s: Slot) {
    s.worker.Idle? && s.lane == [] && s.flushing == [] && s.handles == []
  }

  /** So when everything has come to rest, the newest revision has succeeded, or it was put off and is still
      pending; and something is pending exactly if it was put off. */
  lemma NewestAtRest(reaction: bool, events: seq<Event>)
    requires Forget !in events && AtRest(Run(InitialSlot(reaction), events))
    ensures var h := Run(InitialSlot(reaction), events).history;
            h.latest == 0 || h.latest in h.succeeded || Waiting(reaction, events)
    ensures Waiting(reaction, events) <==> Run(InitialSlot(reaction), events).pending.Some?
  {
    NewestIsKept(reaction, events);
    PendingIsAttended(reaction, events);
  }
}
