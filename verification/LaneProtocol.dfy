/** Delivery lanes: one bounded queue and one worker per endpoint, added and removed while jobs
    keep arriving (internal/delivery/lanes.go). Every lock section and every worker iteration is
    one step; steps interleave freely, except that one Update call returns before the next
    begins. */
module LaneProtocol {
  import opened Wrappers
  import opened Collections

  type Job = nat

  /** Which call took the lane out of the manager's map and waits for it to drain. */
  datatype Remover = ByUpdate | ByClose

  datatype Lane = Lane(queue: seq<Job>, running: Option<Job>, removed: Option<Remover>, stopped: bool)

  const NEW_LANE := Lane([], None, None, false)

  /** History of one endpoint: jobs accepted, and jobs run to their end, in order. */
  datatype Log = Log(accepted: seq<Job>, ran: seq<Job>)

  /** `lanes` holds the lanes in the manager's map and those still draining. */
  datatype State = State(
    lanes: map<string, Lane>, logs: map<string, Log>, capacity: nat,
    closed: bool, updating: bool, closeReturned: bool)
  {
    function LogOf(e: string): Log {
      if e in logs then logs[e] else Log([], [])
    }

    predicate Live(e: string) {
      e in lanes && lanes[e].removed.None?
    }

    predicate Draining(remover: Remover) {
      exists e <- lanes :: lanes[e].removed == Some(remover)
    }

    predicate Accepts(e: string) {
      !closed && Live(e) && |lanes[e].queue| < capacity
    }
  }

  datatype Event =
    | Enqueue(endpoint: string, job: Job)
    | BeginUpdate(wanted: set<string>)
    | EndUpdate
    | BeginClose
    | EndClose
    | Stop(endpoint: string)
    | Work(endpoint: string)

  /** A lane after Update: kept if wanted, otherwise removed. */
  function Reconfigured(lane: Lane, wanted: bool): Lane {
    if wanted || lane.removed.Some? then lane else lane.(removed := Some(ByUpdate))
  }

  function Updated(lanes: map<string, Lane>, wanted: set<string>): map<string, Lane> {
    map e | e in lanes.Keys + wanted :: if e in lanes then Reconfigured(lanes[e], e in wanted) else NEW_LANE
  }

  function AllRemoved(lanes: map<string, Lane>): map<string, Lane> {
    map e | e in lanes :: if lanes[e].removed.None? then lanes[e].(removed := Some(ByClose)) else lanes[e]
  }

  /** One iteration of a lane's worker: finish the job at hand, take the next, or leave once
      stopped with nothing left. */
  function Worked(s: State, e: string): State
    requires e in s.lanes
  {
    var lane := s.lanes[e];
    if lane.running.Some? then
      var log := s.LogOf(e);
      s.(lanes := s.lanes[e := lane.(running := None)],
         logs := s.logs[e := log.(ran := log.ran + [lane.running.value])])
    else if lane.queue != [] then
      s.(lanes := s.lanes[e := lane.(running := Some(lane.queue[0]), queue := lane.queue[1..])])
    else if lane.stopped then s.(lanes := s.lanes - {e})
    else s
  }

  function Accepted(s: State, e: string, job: Job): State
    requires e in s.lanes
  {
    var log := s.LogOf(e);
    s.(lanes := s.lanes[e := s.lanes[e].(queue := s.lanes[e].queue + [job])],
       logs := s.logs[e := log.(accepted := log.accepted + [job])])
  }

  function Next(s: State, event: Event): State {
    match event
    case Enqueue(e, job) => if s.Accepts(e) then Accepted(s, e, job) else s
    case BeginUpdate(wanted) =>
      if s.closed || s.updating || "" in wanted then s
      else s.(lanes := Updated(s.lanes, wanted), updating := true)
    case EndUpdate => if s.Draining(ByUpdate) then s else s.(updating := false)
    case BeginClose => if s.closed then s else s.(lanes := AllRemoved(s.lanes), closed := true)
    case EndClose => if !s.closed || s.Draining(ByClose) then s else s.(closeReturned := true)
    case Stop(e) =>
      if e in s.lanes && s.lanes[e].removed.Some? then s.(lanes := s.lanes[e := s.lanes[e].(stopped := true)]) else s
    case Work(e) => if e in s.lanes then Worked(s, e) else s
  }

  function Run(capacity: nat, events: seq<Event>): State
    decreases |events|
  {
    if events == [] then State(map[], map[], capacity, false, false, false)
    else Next(Run(capacity, events[..|events| - 1]), events[|events| - 1])
  }

  // ---- Nothing lost, nothing twice, nothing out of order ----------------------------------------

  /** Jobs accepted and not yet run. */
  function Pending(s: State, e: string): seq<Job> {
    if e !in s.lanes then []
    else (if s.lanes[e].running.Some? then [s.lanes[e].running.value] else []) + s.lanes[e].queue
  }

  predicate Kept(s: State, e: string) {
    s.LogOf(e).accepted == s.LogOf(e).ran + Pending(s, e)
  }

  predicate Flags(s: State, e: string) {
    e in s.lanes ==>
      && |s.lanes[e].queue| <= s.capacity
      && (s.lanes[e].stopped ==> s.lanes[e].removed.Some?)
      && (match s.lanes[e].removed
          case None => !s.closed
          case Some(remover) => if remover == ByUpdate then s.updating else s.closed && !s.closeReturned)
  }

  ghost predicate Inv(s: State) {
    (forall e :: Kept(s, e) && Flags(s, e)) && (s.closeReturned ==> s.closed)
  }

  lemma FinishKeeps(s: State, e: string)
    requires Kept(s, e) && Flags(s, e) && e in s.lanes && s.lanes[e].running.Some?
    ensures Kept(Worked(s, e), e) && Flags(Worked(s, e), e)
  {
    var lane, log := s.lanes[e], s.LogOf(e);
    Associate(log.ran, [lane.running.value], lane.queue);
    assert Pending(Worked(s, e), e) == lane.queue;
  }

  lemma TakeKeeps(s: State, e: string)
    requires Kept(s, e) && Flags(s, e) && e in s.lanes && s.lanes[e].running.None?
    ensures Kept(Worked(s, e), e) && Flags(Worked(s, e), e)
  {
    var queue := s.lanes[e].queue;
    assert Pending(s, e) == queue;
    if queue != [] {
      assert Pending(Worked(s, e), e) == [queue[0]] + queue[1..] == queue;
    }
  }

  lemma WorkKeeps(s: State, e: string)
    requires Kept(s, e) && Flags(s, e) && e in s.lanes
    ensures Kept(Worked(s, e), e) && Flags(Worked(s, e), e)
  {
    if s.lanes[e].running.Some? {
      FinishKeeps(s, e);
    } else {
      TakeKeeps(s, e);
    }
  }

  /** A step that does not touch an endpoint's lane or log. */
  lemma ElsewhereKeeps(s: State, s': State, e: string)
    requires Kept(s, e) && Flags(s, e)
    requires (e in s'.lanes <==> e in s.lanes) && (e in s.lanes ==> s'.lanes[e] == s.lanes[e])
    requires s'.LogOf(e) == s.LogOf(e) && s'.capacity == s.capacity
    requires s'.closed == s.closed && s'.updating == s.updating && s'.closeReturned == s.closeReturned
    ensures Kept(s', e) && Flags(s', e)
  {
  }

  lemma AcceptKeeps(s: State, e: string, job: Job)
    requires Kept(s, e) && Flags(s, e) && s.Accepts(e)
    ensures Kept(Accepted(s, e, job), e) && Flags(Accepted(s, e, job), e)
  {
    Associate(s.LogOf(e).ran, Pending(s, e), [job]);
    Associate(if s.lanes[e].running.Some? then [s.lanes[e].running.value] else [], s.lanes[e].queue, [job]);
  }

  lemma NextKeepsAt(s: State, event: Event, e: string)
    requires Kept(s, e) && Flags(s, e) && (s.closeReturned ==> s.closed)
    ensures Kept(Next(s, event), e) && Flags(Next(s, event), e)
  {
    match event
    case Enqueue(x, job) =>
      if x == e && s.Accepts(e) { AcceptKeeps(s, e, job); } else { ElsewhereKeeps(s, Next(s, event), e); }
    case Work(x) =>
      if x == e && e in s.lanes { WorkKeeps(s, e); } else { ElsewhereKeeps(s, Next(s, event), e); }
    case BeginUpdate(wanted) => UpdateAt(s, wanted, e);
    case BeginClose => CloseAt(s, e);
    case EndUpdate => EndAt(s, EndUpdate, e);
    case EndClose => EndAt(s, EndClose, e);
    case Stop(x) => if x == e { StopAt(s, e); } else { ElsewhereKeeps(s, Next(s, event), e); }
  }

  lemma StopAt(s: State, e: string)
    requires Kept(s, e) && Flags(s, e)
    ensures Kept(Next(s, Stop(e)), e) && Flags(Next(s, Stop(e)), e)
  {
    assert Pending(Next(s, Stop(e)), e) == Pending(s, e);
  }

  lemma EndAt(s: State, event: Event, e: string)
    requires Kept(s, e) && Flags(s, e) && (event == EndUpdate || event == EndClose)
    ensures Kept(Next(s, event), e) && Flags(Next(s, event), e)
  {
  }

  lemma UpdateAt(s: State, wanted: set<string>, e: string)
    requires Kept(s, e) && Flags(s, e)
    ensures Kept(Next(s, BeginUpdate(wanted)), e) && Flags(Next(s, BeginUpdate(wanted)), e)
  {
    assert e in Updated(s.lanes, wanted) <==> e in s.lanes || e in wanted;
  }

  lemma CloseAt(s: State, e: string)
    requires Kept(s, e) && Flags(s, e) && (s.closeReturned ==> s.closed)
    ensures Kept(Next(s, BeginClose), e) && Flags(Next(s, BeginClose), e)
  {
    assert e in AllRemoved(s.lanes) <==> e in s.lanes;
  }

  lemma NextKeeps(s: State, event: Event)
    requires Inv(s)
    ensures Inv(Next(s, event))
  {
    forall e
      ensures Kept(Next(s, event), e) && Flags(Next(s, event), e)
    {
      assert Kept(s, e) && Flags(s, e);
      NextKeepsAt(s, event, e);
    }
  }

  lemma {:induction false} RunKeeps(capacity: nat, events: seq<Event>)
    ensures Inv(Run(capacity, events))
    decreases |events|
  {
    if events != [] {
      RunKeeps(capacity, events[..|events| - 1]);
      NextKeeps(Run(capacity, events[..|events| - 1]), events[|events| - 1]);
    }
  }

  /** At every moment of every run, what an endpoint has run is a prefix of what it accepted, in
      the order it was accepted, and the rest is still in its lane, whose queue is within
      capacity. */
  lemma EachJobOnceInOrder(capacity: nat, events: seq<Event>, e: string)
    ensures var s := Run(capacity, events);
            && s.LogOf(e).ran <= s.LogOf(e).accepted
            && s.LogOf(e).accepted == s.LogOf(e).ran + Pending(s, e)
            && (e in s.lanes ==> |s.lanes[e].queue| <= capacity)
  {
    RunKeeps(capacity, events);
    CapacityIsFixed(capacity, events);
    assert Kept(Run(capacity, events), e) && Flags(Run(capacity, events), e);
  }

  lemma {:induction false} CapacityIsFixed(capacity: nat, events: seq<Event>)
    ensures Run(capacity, events).capacity == capacity
    decreases |events|
  {
    if events != [] {
      CapacityIsFixed(capacity, events[..|events| - 1]);
    }
  }

  /** Once an Update call has returned, every endpoint it removed has run all it accepted; once
      Close has returned too, so has every endpoint. */
  lemma RemovedLanesAreDrained(capacity: nat, events: seq<Event>, e: string)
    requires var s := Run(capacity, events); !s.updating && !s.Live(e) && (s.closed ==> s.closeReturned)
    ensures Run(capacity, events).LogOf(e).ran == Run(capacity, events).LogOf(e).accepted
  {
    RunKeeps(capacity, events);
    var s := Run(capacity, events);
    assert Kept(s, e) && Flags(s, e);
    assert s.LogOf(e).ran + [] == s.LogOf(e).ran;
  }

  /** An Update that has returned leaves exactly the wanted endpoints with a lane. */
  lemma UpdateConfigures(capacity: nat, events: seq<Event>, wanted: set<string>, e: string)
    requires var s := Run(capacity, events); !s.closed && !s.updating && "" !in wanted
    ensures Next(Run(capacity, events), BeginUpdate(wanted)).Live(e) <==> e in wanted
    ensures Run(capacity, events).Live(e) && e in wanted ==>
            Next(Run(capacity, events), BeginUpdate(wanted)).lanes[e] == Run(capacity, events).lanes[e]
  {
    RunKeeps(capacity, events);
    var s := Run(capacity, events);
    assert Flags(s, e);
    assert e in Updated(s.lanes, wanted) <==> e in s.lanes || e in wanted;
  }

  /** A refused job changes nothing, and a job is refused only if the endpoint has no lane or
      its queue is full. */
  lemma RefusalChangesNothing(capacity: nat, events: seq<Event>, e: string, job: Job)
    ensures var s := Run(capacity, events); var s' := Next(s, Enqueue(e, job));
            if s.Live(e) && |s.lanes[e].queue| < capacity
            then s'.LogOf(e).accepted == s.LogOf(e).accepted + [job]
            else s' == s
  {
    RunKeeps(capacity, events);
    CapacityIsFixed(capacity, events);
    assert Flags(Run(capacity, events), e);
  }

  // ---- Every accepted job gets its turn -----------------------------------------------------------

  function Turns(s: State, e: string): nat {
    if e !in s.lanes then 0
    else 2 * |s.lanes[e].queue| + (if s.lanes[e].running.Some? then 1 else 0)
  }

  function WorkFor(s: State, e: string, n: nat): State
    decreases n
  {
    if n == 0 then s else WorkFor(Next(s, Work(e)), e, n - 1)
  }

  /** Left to itself, an endpoint's worker runs everything the endpoint has accepted. */
  lemma {:induction false} WorkerCatchesUp(s: State, e: string)
    requires Inv(s)
    ensures WorkFor(s, e, Turns(s, e)).LogOf(e).ran == s.LogOf(e).accepted
    decreases Turns(s, e)
  {
    assert Kept(s, e);
    if Turns(s, e) > 0 {
      var s' := Next(s, Work(e));
      NextKeeps(s, Work(e));
      assert s'.LogOf(e).accepted == s.LogOf(e).accepted && Turns(s', e) == Turns(s, e) - 1;
      WorkerCatchesUp(s', e);
    }
  }
}
