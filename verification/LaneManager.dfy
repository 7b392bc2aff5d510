/** The delivery manager as its methods change the lanes, each proved to take the steps of
    LaneProtocol (internal/delivery/lanes.go:66-107, 145-200, 246-262). */
module LaneManager {
  import opened Wrappers
  import opened LaneProtocol

  datatype EnqueueError = LaneFull | LaneUnavailable

  function RunFrom(s: State, events: seq<Event>): State
    decreases |events|
  {
    if events == [] then s else Next(RunFrom(s, events[..|events| - 1]), events[|events| - 1])
  }

  lemma OneMore(s: State, events: seq<Event>, e: Event)
    ensures RunFrom(s, events + [e]) == Next(RunFrom(s, events), e)
  {
    assert (events + [e])[..|events + [e]| - 1] == events;
  }

  /** What a whole call does is a run of steps, so everything proved of runs holds of it. */
  lemma {:induction false} RunFromIsRun(capacity: nat, before: seq<Event>, events: seq<Event>)
    ensures RunFrom(Run(capacity, before), events) == Run(capacity, before + events)
    decreases |events|
  {
    if events == [] {
      assert before + events == before;
    } else {
      var init := events[..|events| - 1];
      RunFromIsRun(capacity, before, init);
      assert (before + events)[..|before + events| - 1] == before + init;
    }
  }

  lemma {:induction false} RunFromKeeps(s: State, events: seq<Event>)
    requires Inv(s)
    ensures Inv(RunFrom(s, events))
    decreases |events|
  {
    if events != [] {
      RunFromKeeps(s, events[..|events| - 1]);
      NextKeeps(RunFrom(s, events[..|events| - 1]), events[|events| - 1]);
    }
  }

  /** Between updates of an open manager, every lane is live. */
  lemma AllLive(s: State, e: string)
    requires Inv(s) && !s.closed && !s.updating
    ensures s.Live(e) <==> e in s.lanes
    ensures e !in s.lanes ==> s.LogOf(e).ran == s.LogOf(e).accepted
  {
    assert Flags(s, e) && Kept(s, e);
    assert s.LogOf(e).ran + [] == s.LogOf(e).ran;
  }

  /** Once the removed lanes are gone, the wanted ones are left, all of them live. */
  lemma Remaining(s: State, wanted: set<string>, removed: set<string>)
    requires Inv(s) && !s.closed && !s.updating
    requires forall e :: e in removed <==> e in s.lanes && s.lanes[e].removed.None? && e !in wanted
    ensures (Updated(s.lanes, wanted) - removed).Keys == wanted
    ensures forall e <- Updated(s.lanes, wanted) - removed :: (Updated(s.lanes, wanted) - removed)[e].removed.None?
  {
    forall e
      ensures s.Live(e) <==> e in s.lanes
    {
      AllLive(s, e);
    }
  }

  class Manager {
    const capacity: nat
    var lanes: map<string, Lane>
    var closed: bool
    ghost var logs: map<string, Log>
    ghost var updating: bool
    ghost var closeReturned: bool

    constructor (capacity: nat)
      ensures View() == Run(capacity, [])
    {
      this.capacity := capacity;
      lanes, closed, logs, updating, closeReturned := map[], false, map[], false, false;
    }

    ghost function View(): State
      reads this
    {
      State(lanes, logs, capacity, closed, updating, closeReturned)
    }

    /** Enqueue: a non-blocking send into the lane's buffered channel. */
    method Enqueue(e: string, job: Job) returns (error: Option<EnqueueError>)
      modifies this`lanes, this`logs
      ensures View() == Next(old(View()), LaneProtocol.Enqueue(e, job))
      ensures error.None? <==> old(View()).Accepts(e)
      ensures error == Some(LaneFull) <==> !closed && old(View()).Live(e) && |old(lanes)[e].queue| >= capacity
    {
      if closed {
        return Some(LaneUnavailable);
      }
      if e !in lanes || lanes[e].removed.Some? {
        return Some(LaneUnavailable);
      }
      var lane := lanes[e];
      if |lane.queue| >= capacity {
        return Some(LaneFull);
      }
      lanes := lanes[e := lane.(queue := lane.queue + [job])];
      ghost var log := View().LogOf(e);
      logs := logs[e := log.(accepted := log.accepted + [job])];
      return None;
    }

    /** One iteration of run: a finished job, the next job, or the end of a stopped lane. */
    method WorkOnce(e: string)
      requires e in lanes
      modifies this`lanes, this`logs
      ensures View() == Next(old(View()), Work(e))
    {
      var lane := lanes[e];
      if lane.running.Some? {
        ghost var log := View().LogOf(e);
        logs := logs[e := log.(ran := log.ran + [lane.running.value])];
        lanes := lanes[e := lane.(running := None)];
      } else if lane.queue != [] {
        lanes := lanes[e := lane.(running := Some(lane.queue[0]), queue := lane.queue[1..])];
      } else if lane.stopped {
        lanes := lanes - {e};
      }
    }

    /** close: cancel the lane and wait until its worker has drained the queue and left. */
    method CloseLane(e: string, ghost before: State, ghost done: seq<Event>) returns (ghost events: seq<Event>)
      requires e in lanes && lanes[e].removed.Some? && View() == RunFrom(before, done)
      modifies this`lanes, this`logs
      ensures View() == RunFrom(before, events)
      ensures lanes == old(lanes) - {e}
    {
      events := done + [Stop(e)];
      OneMore(before, done, Stop(e));
      lanes := lanes[e := lanes[e].(stopped := true)];
      ghost var others := old(lanes) - {e};
      assert lanes - {e} == others;
      while e in lanes
        invariant View() == RunFrom(before, events)
        invariant lanes - {e} == others
        invariant e in lanes ==> lanes[e].stopped
        decreases Turns(View(), e), e in lanes
      {
        OneMore(before, events, Work(e));
        events := events + [Work(e)];
        WorkOnce(e);
        assert lanes - {e} == others;
      }
      assert lanes == lanes - {e};
    }

    method CloseLanes(removed: set<string>, ghost before: State, ghost done: seq<Event>)
        returns (ghost events: seq<Event>)
      requires forall e <- removed :: e in lanes && lanes[e].removed.Some?
      requires View() == RunFrom(before, done)
      modifies this`lanes, this`logs
      ensures View() == RunFrom(before, events)
      ensures lanes == old(lanes) - removed
    {
      events := done;
      var rest := removed;
      while rest != {}
        invariant rest <= removed
        invariant forall e <- rest :: e in lanes && lanes[e].removed.Some?
        invariant View() == RunFrom(before, events)
        invariant lanes == old(lanes) - (removed - rest)
      {
        var e :| e in rest;
        events := CloseLane(e, before, events);
        assert removed - (rest - {e}) == (removed - rest) + {e};
        rest := rest - {e};
      }
      assert removed - {} == removed;
    }

    method Wanted(endpoints: seq<string>) returns (wanted: set<string>, ok: bool)
      ensures ok <==> "" !in endpoints
      ensures ok ==> forall e :: e in wanted <==> e in endpoints
    {
      wanted := {};
      for i := 0 to |endpoints|
        invariant forall e :: e in wanted <==> e in endpoints[..i]
        invariant "" !in endpoints[..i]
      {
        assert endpoints[..i + 1] == endpoints[..i] + [endpoints[i]];
        if endpoints[i] == "" {
          return wanted, false;
        }
        wanted := wanted + {endpoints[i]};
      }
      assert endpoints[..|endpoints|] == endpoints;
      return wanted, true;
    }

    /** The lock section of Update: take out the lanes no longer wanted, add the missing ones. */
    method Reconfigure(wanted: set<string>) returns (removed: set<string>)
      modifies this`lanes
      ensures lanes == Updated(old(lanes), wanted)
      ensures forall e :: e in removed <==> e in old(lanes) && old(lanes)[e].removed.None? && e !in wanted
    {
      removed := {};
      var rest := lanes.Keys;
      while rest != {}
        invariant rest <= lanes.Keys == old(lanes).Keys
        invariant forall e <- lanes ::
            lanes[e] == if e in rest then old(lanes)[e] else Reconfigured(old(lanes)[e], e in wanted)
        invariant forall e ::
            e in removed <==> e in old(lanes) && e !in rest && old(lanes)[e].removed.None? && e !in wanted
      {
        var e :| e in rest;
        rest := rest - {e};
        if lanes[e].removed.None? && e !in wanted {
          lanes := lanes[e := lanes[e].(removed := Some(ByUpdate))];
          removed := removed + {e};
        }
      }
      ghost var kept := lanes;
      var missing := wanted;
      while missing != {}
        invariant missing <= wanted
        invariant lanes.Keys == kept.Keys + (wanted - missing)
        invariant forall e <- lanes :: lanes[e] == if e in kept then kept[e] else NEW_LANE
      {
        var e :| e in missing;
        missing := missing - {e};
        if e !in lanes {
          lanes := lanes[e := NEW_LANE];
        }
      }
      assert lanes.Keys == old(lanes).Keys + wanted;
    }

    /** Update: once it returns, exactly the given endpoints have a lane, and every job that the
        removed ones had accepted has run. */
    method Update(endpoints: seq<string>) returns (ok: bool, ghost events: seq<Event>)
      requires Inv(View()) && !updating
      modifies this`lanes, this`logs, this`updating
      ensures View() == RunFrom(old(View()), events) && !updating
      ensures ok <==> !old(closed) && "" !in endpoints
      ensures !ok ==> View() == old(View())
      ensures ok ==> forall e :: View().Live(e) <==> e in endpoints
      ensures ok ==> forall e :: e !in endpoints ==> View().LogOf(e).ran == View().LogOf(e).accepted
    {
      events := [];
      if closed {
        return false, events;
      }
      var wanted, valid := Wanted(endpoints);
      if !valid {
        return false, events;
      }
      ghost var before := View();
      OneMore(before, [], BeginUpdate(wanted));
      var removed := Reconfigure(wanted);
      updating := true;
      events := CloseLanes(removed, before, [] + [BeginUpdate(wanted)]);
      Remaining(before, wanted, removed);
      OneMore(before, events, EndUpdate);
      updating := false;
      events := events + [EndUpdate];
      ok := true;
      RunFromKeeps(before, events);
      forall e
        ensures View().Live(e) <==> e in endpoints
        ensures e !in endpoints ==> View().LogOf(e).ran == View().LogOf(e).accepted
      {
        AllLive(View(), e);
      }
    }

    /** Close: once the first call returns, every accepted job has run. */
    method Close() returns (ghost events: seq<Event>)
      requires Inv(View()) && !updating
      modifies this`lanes, this`logs, this`closed, this`closeReturned
      ensures View() == RunFrom(old(View()), events) && closed
      ensures !old(closed) ==> lanes == map[] && forall e :: View().LogOf(e).ran == View().LogOf(e).accepted
    {
      events := [];
      if closed {
        return;
      }
      ghost var before := View();
      forall e
        ensures e in lanes ==> lanes[e].removed.None?
      {
        AllLive(before, e);
      }
      OneMore(before, [], BeginClose);
      closed := true;
      var removed := lanes.Keys;
      lanes := map e | e in lanes :: lanes[e].(removed := Some(ByClose));
      assert lanes == AllRemoved(before.lanes);
      events := CloseLanes(removed, before, [] + [BeginClose]);
      assert lanes == map[];
      OneMore(before, events, EndClose);
      closeReturned := true;
      events := events + [EndClose];
      RunFromKeeps(before, events);
      forall e
        ensures View().LogOf(e).ran == View().LogOf(e).accepted
      {
        assert Kept(View(), e);
        assert View().LogOf(e).ran + [] == View().LogOf(e).ran;
      }
    }
  }
}
