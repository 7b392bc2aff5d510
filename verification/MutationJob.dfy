/** The router's pending-mutation tables and the mutation job as the router runs it, each
    call proved to be the corresponding step of MutationOrder. */
module MutationJob {
  import opened Wrappers
  import opened MutationOrder

  /** Canonical message, destination endpoint and, for reactions, actor. */
  type Key = string

  /** How one attempt turns out: the ledger write, the provider, the echo marker. */
  datatype World = World(begin: bool, execute: bool, marker: bool)

  predicate OkAt(w: World, pc: Pc) {
    match pc
    case Begin => w.begin
    case Execute => w.execute
    case WriteMarker => w.marker
    case _ => true
  }

  function Rank(w: Worker): nat {
    if w.Idle? then 0
    else match w.pc
      case CheckCurrent => 5
      case Begin => 4
      case Execute => 3
      case WriteMarker => 2
      case Clear => 1
      case Failed => 0
  }

  /** The machine's job, run until it finishes or fails. */
  function Attempt(s: Slot, w: World): Slot
    decreases Rank(s.worker)
  {
    if s.worker.Idle? || s.worker.pc == Failed then s else Attempt(WorkStep(s, OkAt(w, s.worker.pc)), w)
  }

  lemma ClearEndsAttempt(s: Slot, w: World)
    requires s.worker.Running? && s.worker.pc == Clear
    ensures Attempt(s, w) == WorkStep(s, true)
  {
    assert Attempt(s, w) == Attempt(WorkStep(s, true), w);
  }

  lemma BeginDecides(s: Slot, w: World)
    requires s.worker.Running? && s.worker.pc == Begin
    ensures Attempt(s, w) ==
            if w.begin then Attempt(s.(worker := s.worker.(pc := Execute)), w)
            else s.(worker := s.worker.(pc := Failed))
  {
    assert Attempt(s, w) == Attempt(WorkStep(s, w.begin), w);
  }

  /** What it takes for an attempt to succeed. */
  predicate AllWork(w: World, reaction: bool) {
    w.begin && w.execute && (reaction ==> w.marker)
  }

  /** What an attempt comes to: a superseded revision is dropped without a request and without a failure;
      one that is still pending is sent if the attempt can begin, fails unless everything works, and is
      forgotten exactly if it succeeds. */
  lemma AttemptComesTo(s: Slot, w: World)
    requires s.worker.Running? && s.worker.pc == CheckCurrent
    ensures var r, d := s.worker.revision, Attempt(s, w);
            var due := s.pending == Some(r);
            && d.worker == (if due && !AllWork(w, s.reaction) then Running(r, Failed) else Idle)
            && d.pending == (if due && AllWork(w, s.reaction) then None else s.pending)
            && d.history.sent == s.history.sent + (if due && w.begin then [r] else [])
            && d.history.accepted ==
               s.history.accepted + (if due && w.begin && w.execute then multiset{r} else multiset{})
            && d.lane == s.lane && d.flushing == s.flushing && d.handles == s.handles
            && d.nextRevision == s.nextRevision
  {
    assert Attempt(s, w) == Attempt(WorkStep(s, true), w);
    if s.pending == Some(s.worker.revision) {
      var d := WorkStep(s, true);
      BeginDecides(d, w);
      if w.begin {
        SendComesTo(d.(worker := d.worker.(pc := Execute)), w);
      }
    }
  }

  lemma SendComesTo(s: Slot, w: World)
    requires s.worker.Running? && s.worker.pc == Execute && s.pending == Some(s.worker.revision)
    ensures var r, d := s.worker.revision, Attempt(s, w);
            var good := w.execute && (s.reaction ==> w.marker);
            && d.worker == (if good then Idle else Running(r, Failed))
            && d.pending == (if good then None else s.pending)
            && d.history.sent == s.history.sent + [r]
            && d.history.accepted == s.history.accepted + (if w.execute then multiset{r} else multiset{})
            && d.lane == s.lane && d.flushing == s.flushing && d.handles == s.handles
            && d.nextRevision == s.nextRevision
  {
    var d := WorkStep(s, w.execute);
    assert Attempt(s, w) == Attempt(d, w);
    if w.execute {
      if s.reaction {
        assert Attempt(d, w) == Attempt(WorkStep(d, w.marker), w);
        if w.marker { ClearEndsAttempt(WorkStep(d, true), w); }
      } else {
        ClearEndsAttempt(d, w);
      }
    }
  }

  class Router {
    const reaction: bool
    var nextRevision: nat
    var pending: map<Key, nat>
    var lanes: map<Key, seq<nat>>
    ghost var history: map<Key, History>

    constructor (reaction: bool)
      ensures nextRevision == 0 && forall key :: View(key, [], Idle) == InitialSlot(this.reaction)
      ensures this.reaction == reaction
    {
      this.reaction := reaction;
      nextRevision, pending, lanes, history := 0, map[], map[], map[];
    }

    ghost function HistoryOf(key: Key): History reads this {
      if key in history then history[key] else NO_HISTORY
    }

    /** The machine's state of one key, with the given Handle calls and worker. */
    ghost function View(key: Key, handles: seq<Phase>, worker: Worker): Slot reads this {
      Slot(reaction, nextRevision, if key in pending then Some(pending[key]) else None, handles, [],
           if key in lanes then lanes[key] else [], worker,
           HistoryOf(key))
    }

    /** nextMutationRevision; other keys only see the counter move. */
    method NextMutationRevision(ghost key: Key, ghost copy: bool) returns (revision: nat)
      modifies `nextRevision
      ensures revision == old(nextRevision) + 1 == nextRevision
      ensures View(key, [Assigned(revision, copy)], Idle) == Next(old(View(key, [], Idle)), Assign(copy))
      ensures forall other :: View(other, [], Idle) == Next(old(View(other, [], Idle)), OtherRevision)
    {
      nextRevision := nextRevision + 1;
      revision := nextRevision;
    }

    /** Handle an edit or a reaction for one destination: assign a revision, record it as
        pending, and offer a job when the copy exists. */
    method HandleMutation(key: Key, copy: bool, room: bool) returns (offered: bool)
      modifies this
      ensures offered == (copy && room)
      ensures var s := Next(Next(old(View(key, [], Idle)), Assign(copy)), Record(0));
              View(key, [], Idle) == Next(s, Offer(0, room))
      ensures forall other :: other != key ==> View(other, [], Idle) == Next(old(View(other, [], Idle)), OtherRevision)
    {
      var revision := NextMutationRevision(key, copy);
      pending := pending[key := revision];
      history := history[key := HistoryOf(key).(latest := revision)];
      offered := copy && room;
      if offered {
        lanes := lanes[key := (if key in lanes then lanes[key] else []) + [revision]];
      }
    }

    /** flushPendingMutations for one key, once its copy is stored. */
    method Flush(key: Key, room: bool)
      modifies `lanes
      ensures View(key, [], Idle) == Next(Next(old(View(key, [], Idle)), FlushRead), FlushOffer(room))
      ensures forall other :: other != key ==> View(other, [], Idle) == old(View(other, [], Idle))
    {
      if key in pending && room {
        lanes := lanes[key := (if key in lanes then lanes[key] else []) + [pending[key]]];
      }
    }

    /** One attempt of the mutation job: skip a superseded revision, begin, send. */
    method RunMutation(key: Key, revision: nat, w: World) returns (failed: bool)
      modifies `pending, `history
      ensures View(key, [], if failed then Running(revision, Failed) else Idle)
           == Attempt(old(View(key, [], Running(revision, CheckCurrent))), w)
      ensures failed <==> key in old(pending) && old(pending)[key] == revision && !AllWork(w, reaction)
      ensures forall other :: other != key ==> View(other, [], Idle) == old(View(other, [], Idle))
    {
      AttemptComesTo(View(key, [], Running(revision, CheckCurrent)), w);
      ghost var s := View(key, [], Running(revision, CheckCurrent));
      assert Attempt(s, w) == Attempt(WorkStep(s, true), w);
      if key !in pending || pending[key] != revision { return false; }
      history := history[key := HistoryOf(key).(newestAtCheck := HistoryOf(key).latest)];
      assert View(key, [], Running(revision, Begin)) == WorkStep(s, true);
      BeginDecides(View(key, [], Running(revision, Begin)), w);
      if !w.begin { return true; }
      failed := Send(key, revision, w);
    }

    /** Ask the provider; a reaction also needs its echo marker. */
    method Send(key: Key, revision: nat, w: World) returns (failed: bool)
      modifies `pending, `history
      ensures View(key, [], if failed then Running(revision, Failed) else Idle)
           == Attempt(old(View(key, [], Running(revision, Execute))), w)
      ensures forall other :: other != key ==> View(other, [], Idle) == old(View(other, [], Idle))
    {
      ghost var s := View(key, [], Running(revision, Execute));
      assert Attempt(s, w) == Attempt(WorkStep(s, w.execute), w);
      ghost var h := HistoryOf(key);
      history := history[key := h.(sent := h.sent + [revision])];
      if !w.execute { return true; }
      history := history[key := h.(sent := h.sent + [revision], accepted := h.accepted + multiset{revision})];
      if reaction {
        assert View(key, [], Running(revision, WriteMarker)) == WorkStep(s, true);
        failed := Mark(key, revision, w);
      } else {
        ClearEndsAttempt(WorkStep(s, true), w);
        Finish(key, revision);
        return false;
      }
    }

    /** RecordSuppressedReaction after an accepted reaction. */
    method Mark(key: Key, revision: nat, w: World) returns (failed: bool)
      modifies `pending, `history
      ensures View(key, [], if failed then Running(revision, Failed) else Idle)
           == Attempt(old(View(key, [], Running(revision, WriteMarker))), w)
      ensures forall other :: other != key ==> View(other, [], Idle) == old(View(other, [], Idle))
    {
      ghost var s := View(key, [], Running(revision, WriteMarker));
      assert Attempt(s, w) == Attempt(WorkStep(s, w.marker), w);
      if w.marker {
        ClearEndsAttempt(WorkStep(s, true), w);
        Finish(key, revision);
        return false;
      }
      ghost var h := HistoryOf(key);
      history := history[key := h.(markerFailures := h.markerFailures + multiset{revision})];
      return true;
    }

    /** The success callback: forget the pending entry unless a newer one took its place. */
    method Finish(key: Key, revision: nat)
      modifies `pending, `history
      ensures View(key, [], Idle) == WorkStep(Succeed(old(View(key, [], Running(revision, Clear))), revision), true)
      ensures forall other :: other != key ==> View(other, [], Idle) == old(View(other, [], Idle))
    {
      ghost var h := HistoryOf(key);
      history := history[key := h.(succeeded := h.succeeded + [revision])];
      if key in pending && pending[key] == revision { pending := pending - {key}; }
    }
  }
}
