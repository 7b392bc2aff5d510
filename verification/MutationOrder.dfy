/** Edits of one copy, or one actor's reactions on it: the pending revisions, the jobs of
    Router.enqueueMutation, and flushPendingMutations. Steps of Handle, of the flush and of
    the lane worker interleave in any order within one process lifetime. */
module MutationOrder {
  import opened Wrappers

  /** A Handle call on its way: its copy lookup has answered, its revision is assigned,
      the revision is recorded as pending. */
  datatype Phase = Assigned(revision: nat, copy: bool) | Recorded(revision: nat, copy: bool)

  /** The worker's next call for the revision it is working on. */
  datatype Pc = CheckCurrent | Begin | Execute | WriteMarker | Clear | Failed

  datatype Worker = Idle | Running(revision: nat, pc: Pc)

  /** For the claims only: the newest revision recorded, the requests sent, the newest
      revision when the current attempt began, and how requests ended. */
  datatype History = History(
    latest: nat, sent: seq<nat>, newestAtCheck: nat,
    accepted: multiset<nat>, markerFailures: multiset<nat>, succeeded: seq<nat>)

  const NO_HISTORY := History(0, [], 0, multiset{}, multiset{}, [])

  /** pending is the entry of pendingEdits or pendingReactions. `reaction`: success also
      needs the echo marker to be written. */
  datatype Slot = Slot(
    reaction: bool,
    nextRevision: nat,
    pending: Option<nat>,
    handles: seq<Phase>,
    flushing: seq<nat>,
    lane: seq<nat>,
    worker: Worker,
    history: History)

  function InitialSlot(reaction: bool): Slot {
    Slot(reaction, 0, None, [], [], [], Idle, NO_HISTORY)
  }

  datatype Event =
    | OtherRevision
    | Assign(copy: bool)
    | Record(handle: nat)
    | Offer(handle: nat, room: bool)
    | Forget
    | FlushRead
    | FlushOffer(room: bool)
    | Take
    | Work(ok: bool)
    | Retry(again: bool)

  function Remove<T>(s: seq<T>, i: nat): seq<T>
    requires i < |s|
  {
    s[..i] + s[i + 1..]
  }

  function Goto(s: Slot, pc: Pc): Slot
    requires s.worker.Running?
  {
    s.(worker := s.worker.(pc := pc))
  }

  /** One call of the mutation job. `ok`: the statement or the provider call succeeds. */
  function WorkStep(s: Slot, ok: bool): Slot
    requires s.worker.Running?
  {
    var revision := s.worker.revision;
    match s.worker.pc
    case CheckCurrent =>
      if s.pending == Some(revision) then Goto(s, Begin).(history := s.history.(newestAtCheck := s.history.latest))
      else s.(worker := Idle)
    case Begin => Goto(s, if ok then Execute else Failed)
    case Execute =>
      var h := s.history.(sent := s.history.sent + [revision]);
      if !ok then Goto(s, Failed).(history := h)
      else
        var s' := s.(history := h.(accepted := h.accepted + multiset{revision}));
        if s.reaction then Goto(s', WriteMarker) else Succeed(s', revision)
    case WriteMarker =>
      if ok then Succeed(s, revision)
      else Goto(s, Failed).(history := s.history.(markerFailures := s.history.markerFailures + multiset{revision}))
    case Clear => s.(pending := if s.pending == Some(revision) then None else s.pending, worker := Idle)
    case Failed => s
  }

  function Succeed(s: Slot, revision: nat): Slot
    requires s.worker.Running?
  {
    Goto(s, Clear).(history := s.history.(succeeded := s.history.succeeded + [revision]))
  }

  function Next(s: Slot, e: Event): Slot {
    match e
    case OtherRevision => s.(nextRevision := s.nextRevision + 1)
    case Assign(copy) =>
      s.(nextRevision := s.nextRevision + 1, handles := s.handles + [Assigned(s.nextRevision + 1, copy)])
    case Record(i) =>
      if i < |s.handles| && s.handles[i].Assigned? then
        var h := s.handles[i];
        s.(pending := Some(h.revision), history := s.history.(latest := h.revision),
           handles := if h.copy then s.handles[i := Recorded(h.revision, true)] else Remove(s.handles, i))
      else s
    case Offer(i, room) =>
      if i < |s.handles| && s.handles[i].Recorded? then
        s.(lane := if room then s.lane + [s.handles[i].revision] else s.lane, handles := Remove(s.handles, i))
      else s
    case Forget => s.(pending := None)
    case FlushRead => if s.pending.Some? then s.(flushing := s.flushing + [s.pending.value]) else s
    case FlushOffer(room) =>
      if s.flushing == [] then s
      else s.(lane := if room then s.lane + [s.flushing[0]] else s.lane, flushing := s.flushing[1..])
    case Take =>
      if s.worker.Idle? && s.lane != [] then s.(worker := Running(s.lane[0], CheckCurrent), lane := s.lane[1..]) else s
    case Work(ok) => if s.worker.Running? then WorkStep(s, ok) else s
    case Retry(again) =>
      if s.worker.Running? && s.worker.pc == Failed
      then s.(worker := if again then Running(s.worker.revision, CheckCurrent) else Idle) else s
  }

  function Run(s: Slot, events: seq<Event>): Slot
    decreases |events|
  {
    if events == [] then s else Next(Run(s, events[..|events| - 1]), events[|events| - 1])
  }

  /** The event records a revision as pending. */
  predicate Records(s: Slot, e: Event) {
    e.Record? && e.handle < |s.handles| && s.handles[e.handle].Assigned?
  }

  function Newly(s: Slot, e: Event): seq<nat> {
    if Records(s, e) then [s.handles[e.handle].revision] else []
  }

  /** The revisions a run records, in that order. */
  function Recordings(reaction: bool, events: seq<Event>): seq<nat>
    decreases |events|
  {
    if events == [] then []
    else
      var before, e := events[..|events| - 1], events[|events| - 1];
      Recordings(reaction, before) + Newly(Run(InitialSlot(reaction), before), e)
  }

  predicate Ascending(revisions: seq<nat>) {
    forall i, j :: 0 <= i < j < |revisions| ==> revisions[i] < revisions[j]
  }

  predicate Nondecreasing(revisions: seq<nat>) {
    forall i, j :: 0 <= i < j < |revisions| ==> revisions[i] <= revisions[j]
  }

  predicate Distinct(revisions: seq<nat>) {
    forall i, j :: 0 <= i < j < |revisions| ==> revisions[i] != revisions[j]
  }

  predicate Chosen(w: Worker) {
    w.Running? && w.pc != CheckCurrent && w.pc != Failed
  }

  /** What recording in order keeps about revisions. */
  predicate Ordered(s: Slot) {
    && (forall h <- s.handles :: h.revision > 0)
    && (s.pending.Some? ==> s.pending.value == s.history.latest)
    && (forall r <- s.history.sent :: r <= s.history.latest)
    && Nondecreasing(s.history.sent)
    && (Chosen(s.worker) ==>
          && s.worker.revision == s.history.newestAtCheck <= s.history.latest
          && forall r <- s.history.sent :: r <= s.worker.revision)
  }

  /** The event does not record a revision older than the newest one recorded. */
  predicate InOrder(s: Slot, e: Event) {
    Records(s, e) ==> s.history.latest < s.handles[e.handle].revision
  }

  /** What keeps a revision from succeeding twice. */
  predicate Once(s: Slot) {
    && Distinct(s.history.succeeded)
    && (forall r <- s.history.succeeded ::
          r <= s.history.latest && (s.pending != Some(r) || s.worker == Running(r, Clear)))
    && (s.worker.Running? && s.worker.pc in {Begin, Execute, WriteMarker} ==>
          s.worker.revision !in s.history.succeeded)
  }

  /** Every accepted request ends as a success or as a lost echo marker. */
  predicate Accounted(s: Slot, r: nat) {
    s.history.accepted[r] == s.history.markerFailures[r] + multiset(s.history.succeeded)[r]
                             + (if s.worker == Running(r, WriteMarker) then 1 else 0)
  }

  lemma Appended(s: seq<nat>, x: nat)
    ensures forall r <- s + [x] :: r in s || r == x
    ensures Nondecreasing(s) && (forall r <- s :: r <= x) ==> Nondecreasing(s + [x])
    ensures Distinct(s) && x !in s ==> Distinct(s + [x])
    ensures multiset(s + [x]) == multiset(s) + multiset{x}
  {
    assert forall i :: 0 <= i < |s| ==> s[i] in s && (s + [x])[i] == s[i];
  }

  lemma WorkOrdered(s: Slot, ok: bool)
    requires s.worker.Running? && Ordered(s)
    ensures Ordered(WorkStep(s, ok))
  {
    match s.worker.pc
    case CheckCurrent =>
    case Execute => Appended(s.history.sent, s.worker.revision);
    case _ =>
  }

  lemma NextOrdered(s: Slot, e: Event)
    requires Ordered(s) && InOrder(s, e)
    ensures Ordered(Next(s, e))
  {
    match e
    case Work(ok) => if s.worker.Running? { WorkOrdered(s, ok); }
    case Record(i) =>
      if Records(s, e) {
        assert forall h <- s.handles[i := Recorded(s.handles[i].revision, true)] ::
            h in s.handles || h.revision == s.handles[i].revision;
        assert forall h <- Remove(s.handles, i) :: h in s.handles;
      }
    case Offer(i, room) => assert i < |s.handles| ==> forall h <- Remove(s.handles, i) :: h in s.handles;
    case _ =>
  }

  lemma WorkOnce(s: Slot, ok: bool)
    requires s.worker.Running? && Ordered(s) && Once(s)
    ensures Once(WorkStep(s, ok))
  {
    Appended(s.history.succeeded, s.worker.revision);
    match s.worker.pc
    case Execute =>
    case WriteMarker =>
    case _ =>
  }

  lemma NextOnce(s: Slot, e: Event)
    requires Ordered(s) && InOrder(s, e) && Once(s)
    ensures Once(Next(s, e))
  {
    if e.Work? && s.worker.Running? { WorkOnce(s, e.ok); }
  }

  lemma WorkAccounted(s: Slot, ok: bool, r: nat)
    requires s.worker.Running? && Accounted(s, r)
    ensures Accounted(WorkStep(s, ok), r)
  {
    match s.worker.pc
    case Execute => Appended(s.history.succeeded, s.worker.revision);
    case WriteMarker => Appended(s.history.succeeded, s.worker.revision);
    case _ =>
  }

  lemma NextAccounted(s: Slot, e: Event, r: nat)
    requires Accounted(s, r)
    ensures Accounted(Next(s, e), r)
  {
    if e.Work? && s.worker.Running? { WorkAccounted(s, e.ok, r); }
  }

  predicate LatestIsLast(s: Slot, recorded: seq<nat>) {
    s.history.latest == if recorded == [] then 0 else recorded[|recorded| - 1]
  }

  lemma AscendingParts(a: seq<nat>, b: seq<nat>)
    requires Ascending(a + b) && |b| <= 1
    ensures Ascending(a) && (a != [] && b != [] ==> a[|a| - 1] < b[0])
  {
    assert forall i | 0 <= i < |a| :: (a + b)[i] == a[i];
    assert b != [] ==> (a + b)[|a|] == b[0];
  }

  /** The newest revision recorded is the last one. */
  lemma LatestNext(s: Slot, e: Event, recorded: seq<nat>)
    requires Ordered(s) && LatestIsLast(s, recorded) && Ascending(recorded + Newly(s, e))
    ensures InOrder(s, e) && Ascending(recorded) && LatestIsLast(Next(s, e), recorded + Newly(s, e))
  {
    AscendingParts(recorded, Newly(s, e));
    LatestMoves(s, e);
    if Records(s, e) {
      assert s.handles[e.handle] in s.handles;
    }
  }

  lemma LatestMoves(s: Slot, e: Event)
    ensures Next(s, e).history.latest == if Records(s, e) then s.handles[e.handle].revision else s.history.latest
  {
  }

  lemma AllNext(s: Slot, e: Event, recorded: seq<nat>)
    requires Ordered(s) && Once(s) && LatestIsLast(s, recorded) && Ascending(recorded + Newly(s, e))
    ensures Ordered(Next(s, e)) && Once(Next(s, e)) && LatestIsLast(Next(s, e), recorded + Newly(s, e))
  {
    LatestNext(s, e, recorded);
    NextOrdered(s, e);
    NextOnce(s, e);
  }

  lemma {:induction false} RunOrdered(reaction: bool, events: seq<Event>)
    requires Ascending(Recordings(reaction, events))
    ensures var s := Run(InitialSlot(reaction), events);
            Ordered(s) && Once(s) && LatestIsLast(s, Recordings(reaction, events))
    decreases |events|
  {
    if events != [] {
      var before, e := events[..|events| - 1], events[|events| - 1];
      var s := Run(InitialSlot(reaction), before);
      AscendingParts(Recordings(reaction, before), Newly(s, e));
      RunOrdered(reaction, before);
      AllNext(s, e, Recordings(reaction, before));
    }
  }

  lemma {:induction false} RunAccounted(reaction: bool, events: seq<Event>, r: nat)
    ensures Accounted(Run(InitialSlot(reaction), events), r)
    decreases |events|
  {
    if events != [] {
      RunAccounted(reaction, events[..|events| - 1], r);
      NextAccounted(Run(InitialSlot(reaction), events[..|events| - 1]), events[|events| - 1], r);
    }
  }

  lemma RunKeeps(reaction: bool, events: seq<Event>)
    requires Ascending(Recordings(reaction, events))
    ensures var s := Run(InitialSlot(reaction), events);
            Ordered(s) && Once(s) && forall r: nat :: Accounted(s, r)
  {
    RunOrdered(reaction, events);
    forall r: nat ensures Accounted(Run(InitialSlot(reaction), events), r) {
      RunAccounted(reaction, events, r);
    }
  }

  /** When revisions are recorded in ascending order they reach the provider in nondecreasing
      order, each succeeds at most once, and each is accepted at most once more than its
      echo marker was lost. Flushed revisions and queued ones may race freely. */
  lemma RevisionsInOrder(reaction: bool, events: seq<Event>)
    requires Ascending(Recordings(reaction, events))
    ensures var s := Run(InitialSlot(reaction), events);
            && Nondecreasing(s.history.sent) && Distinct(s.history.succeeded)
            && forall r: nat :: s.history.accepted[r] <= 1 + s.history.markerFailures[r]
  {
    RunKeeps(reaction, events);
    var s := Run(InitialSlot(reaction), events);
    forall r: nat ensures s.history.accepted[r] <= 1 + s.history.markerFailures[r] {
      DistinctCount(s.history.succeeded, r);
      assert Accounted(s, r);
      if s.worker == Running(r, WriteMarker) { assert r !in s.history.succeeded; }
    }
  }

  lemma {:induction false} DistinctCount(revisions: seq<nat>, r: nat)
    requires Distinct(revisions)
    ensures multiset(revisions)[r] <= 1 && (r !in revisions ==> multiset(revisions)[r] == 0)
  {
    if revisions != [] {
      var front, last := revisions[..|revisions| - 1], revisions[|revisions| - 1];
      DistinctCount(front, r);
      assert revisions == front + [last];
    }
  }

  /** A superseded revision is never sent: when the provider is asked, the revision is the
      newest one that was recorded when its attempt began. */
  lemma SentIsNewest(reaction: bool, events: seq<Event>, e: Event)
    requires Ascending(Recordings(reaction, events))
    ensures var s := Run(InitialSlot(reaction), events);
            && (|Next(s, e).history.sent| > |s.history.sent| ==>
                  Next(s, e).history.sent == s.history.sent + [s.history.newestAtCheck])
            && (Next(s, e).history.newestAtCheck != s.history.newestAtCheck ==>
                  Next(s, e).history.newestAtCheck == s.history.latest)
  {
    RunKeeps(reaction, events);
    NextSends(Run(InitialSlot(reaction), events), e);
  }

  lemma NextSends(s: Slot, e: Event)
    requires Chosen(s.worker) ==> s.worker.revision == s.history.newestAtCheck
    ensures |Next(s, e).history.sent| > |s.history.sent| ==>
              Next(s, e).history.sent == s.history.sent + [s.history.newestAtCheck]
    ensures Next(s, e).history.newestAtCheck != s.history.newestAtCheck ==>
              Next(s, e).history.newestAtCheck == s.history.latest
  {
  }

  // ---- One Handle call at a time ----------------------------------------------------------

  /** None begins while another is under way. */
  predicate Serial(s: Slot, events: seq<Event>) {
    forall n :: 0 <= n < |events| && events[n].Assign? ==> Run(s, events[..n]).handles == []
  }

  predicate OneHandle(s: Slot, recorded: seq<nat>) {
    && |s.handles| <= 1 && (forall r <- recorded :: r <= s.nextRevision)
    && forall h <- s.handles :: h.Assigned? ==> h.revision <= s.nextRevision && forall r <- recorded :: r < h.revision
  }

  /** Then revisions are recorded in ascending order. */
  lemma {:induction false} SerialIsAscending(reaction: bool, events: seq<Event>)
    requires Serial(InitialSlot(reaction), events)
    ensures Ascending(Recordings(reaction, events))
    ensures OneHandle(Run(InitialSlot(reaction), events), Recordings(reaction, events))
    decreases |events|
  {
    if events != [] {
      var before, e := events[..|events| - 1], events[|events| - 1];
      forall n | 0 <= n < |before| && before[n].Assign? ensures Run(InitialSlot(reaction), before[..n]).handles == [] {
        assert events[n] == before[n] && events[..n] == before[..n];
      }
      SerialIsAscending(reaction, before);
      var s, recorded := Run(InitialSlot(reaction), before), Recordings(reaction, before);
      if Records(s, e) {
        assert s.handles[e.handle] in s.handles;
        assert forall i :: 0 <= i < |recorded| ==> recorded[i] in recorded;
      }
      OneHandleNext(s, e, recorded);
    }
  }

  lemma OneHandleNext(s: Slot, e: Event, recorded: seq<nat>)
    requires OneHandle(s, recorded) && (e.Assign? ==> s.handles == [])
    ensures OneHandle(Next(s, e), recorded + Newly(s, e))
  {
    if Records(s, e) {
      assert s.handles == [s.handles[0]];
    }
  }

  // ---- Without that order ---------------------------------------------------------------

  lemma Play(s: Slot, events: seq<Event>, e: Event) returns (s': Slot, events': seq<Event>)
    requires s == Run(InitialSlot(false), events)
    ensures events' == events + [e] && s' == Next(s, e) == Run(InitialSlot(false), events')
    ensures Recordings(false, events') == Recordings(false, events) + Newly(s, e)
  {
    s', events' := Next(s, e), events + [e];
    assert events'[..|events'| - 1] == events;
  }

  /** Record the revision of the given Handle, offer it and take it from the lane. */
  lemma PlayOffer(s: Slot, events: seq<Event>, i: nat) returns (s': Slot, events': seq<Event>)
    requires s == Run(InitialSlot(false), events)
    requires i < |s.handles| && s.handles[i].Assigned? && s.handles[i].copy && s.lane == [] && s.worker == Idle
    ensures s' == Run(InitialSlot(false), events')
    ensures var r := s.handles[i].revision;
            && s' == s.(pending := Some(r), handles := Remove(s.handles, i), worker := Running(r, CheckCurrent),
                        history := s.history.(latest := r))
            && Recordings(false, events') == Recordings(false, events) + [r]
  {
    s', events' := Play(s, events, Record(i));
    s', events' := Play(s', events', Offer(i, true));
    s', events' := Play(s', events', Take);
  }

  /** The worker sends the pending edit, to success. */
  lemma PlaySend(s: Slot, events: seq<Event>) returns (s': Slot, events': seq<Event>)
    requires s == Run(InitialSlot(false), events) && !s.reaction
    requires s.worker.Running? && s.worker.pc == CheckCurrent && s.pending == Some(s.worker.revision)
    ensures s' == Run(InitialSlot(false), events') && Recordings(false, events') == Recordings(false, events)
    ensures s'.history.sent == s.history.sent + [s.worker.revision]
    ensures s'.handles == s.handles && s'.lane == s.lane && s'.worker == Idle && !s'.reaction
  {
    s', events' := Play(s, events, Work(true));
    s', events' := Play(s', events', Work(true));
    s', events' := Play(s', events', Work(true));
    s', events' := Play(s', events', Work(true));
  }

  /** Record, offer and run the edit of the given Handle, to success. */
  lemma PlayEdit(s: Slot, events: seq<Event>, i: nat) returns (s': Slot, events': seq<Event>)
    requires s == Run(InitialSlot(false), events) && !s.reaction
    requires i < |s.handles| && s.handles[i].Assigned? && s.handles[i].copy && s.lane == [] && s.worker == Idle
    ensures s' == Run(InitialSlot(false), events')
    ensures s'.history.sent == s.history.sent + [s.handles[i].revision]
    ensures Recordings(false, events') == Recordings(false, events) + [s.handles[i].revision]
    ensures s'.handles == Remove(s.handles, i) && s'.lane == [] && s'.worker == Idle && !s'.reaction
  {
    s', events' := PlayOffer(s, events, i);
    s', events' := PlaySend(s', events');
  }

  /** Handle calls that have all been assigned their revisions, among the first n, and no more. */
  lemma {:induction false} PlayAssigned(revisions: seq<nat>, n: nat) returns (s: Slot, events: seq<Event>)
    ensures s == Run(InitialSlot(false), events) && Recordings(false, events) == []
    ensures s == InitialSlot(false).(nextRevision := n, handles := s.handles)
    ensures forall r <- revisions :: 0 < r <= n ==> Assigned(r, true) in s.handles
  {
    if n == 0 {
      s, events := InitialSlot(false), [];
    } else {
      s, events := PlayAssigned(revisions, n - 1);
      s, events := Play(s, events, if n in revisions then Assign(true) else OtherRevision);
    }
  }

  predicate ReadyFor(s: Slot, revisions: seq<nat>) {
    && !s.reaction && s.lane == [] && s.worker == Idle
    && Distinct(revisions) && forall r <- revisions :: Assigned(r, true) in s.handles
  }

  /** One of them records its revision, and its edit is sent. */
  lemma PlayOne(s: Slot, events: seq<Event>, revisions: seq<nat>) returns (s': Slot, events': seq<Event>)
    requires s == Run(InitialSlot(false), events) && ReadyFor(s, revisions) && revisions != []
    ensures s' == Run(InitialSlot(false), events') && ReadyFor(s', revisions[1..])
    ensures s'.history.sent == s.history.sent + [revisions[0]]
    ensures Recordings(false, events') == Recordings(false, events) + [revisions[0]]
  {
    assert revisions[0] in revisions;
    var i :| 0 <= i < |s.handles| && s.handles[i] == Assigned(revisions[0], true);
    RestStillThere(s.handles, i, revisions);
    s', events' := PlayEdit(s, events, i);
  }

  lemma HeadFirst(done: seq<nat>, revisions: seq<nat>)
    requires revisions != []
    ensures done + revisions == (done + [revisions[0]]) + revisions[1..]
  {
  }

  /** They record and send their revisions in any given order. */
  lemma {:induction false} PlayInOrder(s: Slot, events: seq<Event>, revisions: seq<nat>)
      returns (s': Slot, events': seq<Event>)
    requires s == Run(InitialSlot(false), events) && ReadyFor(s, revisions)
    ensures s' == Run(InitialSlot(false), events')
    ensures s'.history.sent == s.history.sent + revisions
    ensures Recordings(false, events') == Recordings(false, events) + revisions
    decreases |revisions|
  {
    if revisions == [] {
      s', events' := s, events;
    } else {
      HeadFirst(s.history.sent, revisions);
      HeadFirst(Recordings(false, events), revisions);
      s', events' := PlayOne(s, events, revisions);
      s', events' := PlayInOrder(s', events', revisions[1..]);
    }
  }

  lemma RestStillThere(handles: seq<Phase>, i: nat, revisions: seq<nat>)
    requires Distinct(revisions) && revisions != [] && forall r <- revisions :: Assigned(r, true) in handles
    requires i < |handles| && handles[i] == Assigned(revisions[0], true)
    ensures Distinct(revisions[1..]) && forall x <- revisions[1..] :: Assigned(x, true) in Remove(handles, i)
  {
    forall k | 0 <= k < |revisions| - 1
      ensures revisions[1..][k] == revisions[k + 1] && Assigned(revisions[k + 1], true) in Remove(handles, i)
    {
      assert revisions[0] != revisions[k + 1] && revisions[k + 1] in revisions;
      StillThere(handles, i, Assigned(revisions[k + 1], true));
    }
  }

  lemma StillThere(handles: seq<Phase>, i: nat, h: Phase)
    requires i < |handles| && h in handles && h != handles[i]
    ensures h in Remove(handles, i)
  {
    assert handles == handles[..i] + [handles[i]] + handles[i + 1..];
  }

  function Highest(revisions: seq<nat>): (n: nat)
    ensures forall r <- revisions :: r <= n
  {
    if revisions == [] then 0
    else
      assert revisions == [revisions[0]] + revisions[1..];
      var n := Highest(revisions[1..]);
      if revisions[0] > n then revisions[0] else n
  }

  /** Every run that records these revisions in this order sends in order. */
  ghost predicate SafeOrder(revisions: seq<nat>) {
    forall reaction: bool, events: seq<Event> | Recordings(reaction, events) == revisions ::
      Nondecreasing(Run(InitialSlot(reaction), events).history.sent)
  }

  /** The order of sending is kept exactly by the orders of recording that are ascending: two Handle
      calls at once can record their revisions the other way round, and then the older edit can be
      sent last. */
  lemma OrderKeptIff(revisions: seq<nat>)
    requires Distinct(revisions) && forall r <- revisions :: r > 0
    ensures SafeOrder(revisions) <==> Ascending(revisions)
  {
    if Ascending(revisions) {
      forall reaction: bool, events: seq<Event> | Recordings(reaction, events) == revisions
        ensures Nondecreasing(Run(InitialSlot(reaction), events).history.sent)
      {
        RunKeeps(reaction, events);
      }
    } else {
      var reaction, events := PlayOutOfOrder(revisions);
    }
  }

  /** Out of ascending order, the requests can be sent as they were recorded. */
  lemma PlayOutOfOrder(revisions: seq<nat>) returns (reaction: bool, events: seq<Event>)
    requires Distinct(revisions) && !Ascending(revisions) && forall r <- revisions :: r > 0
    ensures Recordings(reaction, events) == revisions
    ensures !Nondecreasing(Run(InitialSlot(reaction), events).history.sent)
  {
    reaction := false;
    var s;
    s, events := PlayAssigned(revisions, Highest(revisions));
    s, events := PlayInOrder(s, events, revisions);
    assert [] + revisions == revisions;
    NotAscending(revisions);
  }

  lemma NotAscending(revisions: seq<nat>)
    requires Distinct(revisions) && !Ascending(revisions)
    ensures !Nondecreasing(revisions)
  {
    var i, j :| 0 <= i < j < |revisions| && !(revisions[i] < revisions[j]);
    assert revisions[i] > revisions[j];
  }
}
