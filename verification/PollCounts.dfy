/** The aggregate counts of a poll: the query over the tables, and what it must equal
    (internal/store/store.go:1281-1321). */
module PollCounts {
  import opened Wrappers
  import opened Collections
  import opened PollTallies

  // ---- Sums over endpoints ----------------------------------------------------------------------

  ghost function Sum(s: set<string>, f: string -> int): int
    decreases |s|
  {
    if s == {} then 0
    else
      var x :| x in s;
      f(x) + Sum(s - {x}, f)
  }

  /** The sum may be taken apart at any element. */
  lemma {:induction false} SumAt(s: set<string>, f: string -> int, x: string)
    requires x in s
    ensures Sum(s, f) == f(x) + Sum(s - {x}, f)
    decreases |s|
  {
    var y :| y in s && Sum(s, f) == f(y) + Sum(s - {y}, f);
    if y != x {
      SumAt(s - {y}, f, x);
      SumAt(s - {x}, f, y);
      assert s - {y} - {x} == s - {x} - {y};
    }
  }

  lemma {:induction false} SumSame(s: set<string>, f: string -> int, g: string -> int)
    requires forall x <- s :: f(x) == g(x)
    ensures Sum(s, f) == Sum(s, g)
    decreases |s|
  {
    if s != {} {
      var x :| x in s;
      SumAt(s, f, x);
      SumAt(s, g, x);
      SumSame(s - {x}, f, g);
    }
  }

  /** Changing one term changes the sum by as much. */
  lemma SumChange(s: set<string>, f: string -> int, g: string -> int, x: string)
    requires x in s && forall y <- s :: y != x ==> f(y) == g(y)
    ensures Sum(s, g) == Sum(s, f) + g(x) - f(x)
  {
    SumAt(s, f, x);
    SumAt(s, g, x);
    SumSame(s - {x}, f, g);
  }

  lemma {:induction false} SumZero(s: set<string>, f: string -> int)
    requires forall x <- s :: f(x) == 0
    ensures Sum(s, f) == 0
    decreases |s|
  {
    if s != {} {
      var x :| x in s;
      SumAt(s, f, x);
      SumZero(s - {x}, f);
    }
  }

  // ---- One endpoint's contribution ----------------------------------------------------------------

  /** The rows the query groups for one endpoint and option. */
  function RowsFor(rows: set<Selection>, poll: string, endpoint: string, option: int): set<Selection> {
    set s | s in rows && s.poll == poll && s.endpoint == endpoint && s.option == option
  }

  predicate HasSource(t: Tables, poll: string, endpoint: string, source: Source) {
    SourceKey(poll, endpoint) in t.sources && t.sources[SourceKey(poll, endpoint)] == source
  }

  /** What the tables hold for one endpoint and option, as far as the given rows go. */
  function Part(t: Tables, rows: set<Selection>, keys: set<SnapshotKey>, poll: string, endpoint: string,
        option: int): int
    requires keys <= t.snapshots.Keys
  {
    (if HasSource(t, poll, endpoint, ActorBacked) then |RowsFor(rows, poll, endpoint, option)| else 0)
    + (var key := SnapshotKey(poll, endpoint, option);
       if HasSource(t, poll, endpoint, SnapshotBacked) && key in keys then t.snapshots[key] else 0)
  }

  ghost function Endpoints(t: Tables): set<string> {
    set k | k in t.sources :: k.endpoint
  }

  ghost function Total(t: Tables, rows: set<Selection>, keys: set<SnapshotKey>, poll: string, option: int): int
    requires keys <= t.snapshots.Keys
  {
    Sum(Endpoints(t), e => Part(t, rows, keys, poll, e, option))
  }

  lemma OneMoreRow(rows: set<Selection>, s: Selection, poll: string, e: string, option: int)
    requires s !in rows
    ensures |RowsFor(rows + {s}, poll, e, option)| ==
            |RowsFor(rows, poll, e, option)| +
            (if s.poll == poll && s.endpoint == e && s.option == option then 1 else 0)
  {
    if s.poll == poll && s.endpoint == e && s.option == option {
      assert RowsFor(rows + {s}, poll, e, option) == RowsFor(rows, poll, e, option) + {s};
    } else {
      assert RowsFor(rows + {s}, poll, e, option) == RowsFor(rows, poll, e, option);
    }
  }

  lemma NextRow(t: Tables, rows: set<Selection>, s: Selection, poll: string, option: int)
    requires s !in rows
    ensures Total(t, rows + {s}, {}, poll, option) ==
            Total(t, rows, {}, poll, option) +
            (if s.poll == poll && s.option == option && HasSource(t, poll, s.endpoint, ActorBacked) then 1 else 0)
  {
    var f := e => Part(t, rows, {}, poll, e, option);
    var g := e => Part(t, rows + {s}, {}, poll, e, option);
    forall e
      ensures g(e) == f(e) +
                      (if e == s.endpoint && s.poll == poll && s.option == option && HasSource(t, poll, e, ActorBacked)
                       then 1 else 0)
    {
      OneMoreRow(rows, s, poll, e, option);
    }
    if s.poll == poll && s.option == option && HasSource(t, poll, s.endpoint, ActorBacked) {
      assert SourceKey(poll, s.endpoint) in t.sources && s.endpoint in Endpoints(t);
      SumChange(Endpoints(t), f, g, s.endpoint);
    } else {
      SumSame(Endpoints(t), f, g);
    }
  }

  lemma NextKey(t: Tables, rows: set<Selection>, keys: set<SnapshotKey>, k: SnapshotKey, poll: string, option: int)
    requires k !in keys && keys + {k} <= t.snapshots.Keys
    ensures Total(t, rows, keys + {k}, poll, option) ==
            Total(t, rows, keys, poll, option) +
            (if k.poll == poll && k.option == option && HasSource(t, poll, k.endpoint, SnapshotBacked)
             then t.snapshots[k] else 0)
  {
    var f := e => Part(t, rows, keys, poll, e, option);
    var g := e => Part(t, rows, keys + {k}, poll, e, option);
    if k.poll == poll && k.option == option && HasSource(t, poll, k.endpoint, SnapshotBacked) {
      assert SourceKey(poll, k.endpoint) in t.sources && k.endpoint in Endpoints(t);
      SumChange(Endpoints(t), f, g, k.endpoint);
    } else {
      SumSame(Endpoints(t), f, g);
    }
  }

  function Get(counts: map<int, int>, option: int): int {
    if option in counts then counts[option] else 0
  }

  /** The counts so far are the totals so far. */
  ghost predicate CountsAre(counts: map<int, int>, t: Tables, rows: set<Selection>, keys: set<SnapshotKey>,
        poll: string)
    requires keys <= t.snapshots.Keys
  {
    forall option :: Get(counts, option) == Total(t, rows, keys, poll, option)
  }

  lemma NothingCounted(t: Tables, poll: string)
    ensures CountsAre(map[], t, {}, {}, poll)
  {
    forall option
      ensures Total(t, {}, {}, poll, option) == 0
    {
      forall e ensures RowsFor({}, poll, e, option) == {} {}
      SumZero(Endpoints(t), e => Part(t, {}, {}, poll, e, option));
    }
  }

  lemma RowCounted(counts: map<int, int>, t: Tables, rows: set<Selection>, s: Selection, poll: string,
        next: map<int, int>)
    requires CountsAre(counts, t, rows, {}, poll) && s !in rows
    requires next == if s.poll == poll && HasSource(t, poll, s.endpoint, ActorBacked)
                     then counts[s.option := Get(counts, s.option) + 1] else counts
    ensures CountsAre(next, t, rows + {s}, {}, poll)
  {
    forall option
      ensures Get(next, option) == Total(t, rows + {s}, {}, poll, option)
    {
      NextRow(t, rows, s, poll, option);
      assert Get(counts, option) == Total(t, rows, {}, poll, option);
    }
  }

  lemma KeyCounted(counts: map<int, int>, t: Tables, rows: set<Selection>, keys: set<SnapshotKey>,
        k: SnapshotKey, poll: string, next: map<int, int>)
    requires keys + {k} <= t.snapshots.Keys && k !in keys && CountsAre(counts, t, rows, keys, poll)
    requires next == if k.poll == poll && HasSource(t, poll, k.endpoint, SnapshotBacked)
                     then counts[k.option := Get(counts, k.option) + t.snapshots[k]] else counts
    ensures CountsAre(next, t, rows, keys + {k}, poll)
  {
    forall option
      ensures Get(next, option) == Total(t, rows, keys + {k}, poll, option)
    {
      NextKey(t, rows, keys, k, poll, option);
      assert Get(counts, option) == Total(t, rows, keys, poll, option);
    }
  }

  lemma BallotsSnoc(poll: string, endpoint: string, actor: string, options: seq<int>, o: int)
    ensures Ballots(poll, endpoint, actor, options + [o])
            == Ballots(poll, endpoint, actor, options) + {Selection(poll, endpoint, actor, o)}
  {
    forall s
      ensures s in Ballots(poll, endpoint, actor, options + [o])
              <==> s in Ballots(poll, endpoint, actor, options) + {Selection(poll, endpoint, actor, o)}
    {
      assert s.option in options + [o] <==> s.option in options || s.option == o;
    }
  }

  lemma SnapshotRowsMore(poll: string, endpoint: string, counts: map<int, int>, options: set<int>, o: int,
        kept: map<SnapshotKey, int>)
    requires options + {o} <= counts.Keys
    ensures kept + SnapshotRows(poll, endpoint, counts, options + {o}) ==
            (kept + SnapshotRows(poll, endpoint, counts, options))[SnapshotKey(poll, endpoint, o) := counts[o]]
  {
    forall k: SnapshotKey
      ensures k in SnapshotRows(poll, endpoint, counts, options + {o}) <==>
              k in SnapshotRows(poll, endpoint, counts, options) || k == SnapshotKey(poll, endpoint, o)
    {
    }
  }

  class PollStore {
    var messages: set<string>
    var sources: map<SourceKey, Source>
    var selections: set<Selection>
    var snapshots: map<SnapshotKey, int>

    constructor (messages: set<string>)
      ensures View() == Run(messages, [])
    {
      this.messages := messages;
      sources, selections, snapshots := map[], {}, map[];
    }

    ghost function View(): Tables
      reads this
    {
      Tables(messages, sources, selections, snapshots)
    }

    method CheckIndexes(options: seq<int>) returns (ok: bool)
      ensures ok == ValidIndexes(options)
    {
      var seen := {};
      for i := 0 to |options|
        invariant ValidIndexes(options[..i])
        invariant forall o :: o in seen <==> o in options[..i]
      {
        assert options[..i + 1] == options[..i] + [options[i]];
        if options[i] < 0 {
          assert options[i] in options;
          return false;
        }
        if options[i] in seen {
          ghost var j :| 0 <= j < i && options[..i][j] == options[i];
          assert options[j] == options[i];
          return false;
        }
        assert forall j :: 0 <= j < i ==> options[j] in options[..i];
        seen := seen + {options[i]};
      }
      assert options[..|options|] == options;
      return true;
    }

    /** ReplacePollActorSelections: the actor's old rows go, one row per option comes. */
    method ReplacePollActorSelections(poll: string, endpoint: string, actor: string, options: seq<int>)
        returns (ok: bool)
      modifies this`sources, this`selections
      ensures View() == Next(old(View()), Vote(poll, endpoint, actor, options))
      ensures ok <==> Recorded(messages, Vote(poll, endpoint, actor, options))
    {
      var valid := CheckIndexes(options);
      if !valid || poll !in messages {
        return false;
      }
      sources := sources[SourceKey(poll, endpoint) := ActorBacked];
      selections := WithoutActor(selections, poll, endpoint, actor);
      InsertSelections(poll, endpoint, actor, options);
      return true;
    }

    method InsertSelections(poll: string, endpoint: string, actor: string, options: seq<int>)
      modifies this`selections
      ensures selections == old(selections) + Ballots(poll, endpoint, actor, options)
    {
      for i := 0 to |options|
        invariant selections == old(selections) + Ballots(poll, endpoint, actor, options[..i])
      {
        assert options[..i + 1] == options[..i] + [options[i]];
        BallotsSnoc(poll, endpoint, actor, options[..i], options[i]);
        selections := selections + {Selection(poll, endpoint, actor, options[i])};
      }
      assert options[..|options|] == options;
    }

    /** ReplacePollEndpointSnapshot: the endpoint's old rows go, one row per count comes. */
    method ReplacePollEndpointSnapshot(poll: string, endpoint: string, counts: map<int, int>) returns (ok: bool)
      modifies this`sources, this`snapshots
      ensures View() == Next(old(View()), Snapshot(poll, endpoint, counts))
      ensures ok <==> Recorded(messages, Snapshot(poll, endpoint, counts))
    {
      if !(forall o <- counts :: o >= 0 && counts[o] >= 0) || poll !in messages {
        return false;
      }
      sources := sources[SourceKey(poll, endpoint) := SnapshotBacked];
      snapshots := WithoutEndpoint(snapshots, poll, endpoint);
      InsertCounts(poll, endpoint, counts);
      return true;
    }

    method InsertCounts(poll: string, endpoint: string, counts: map<int, int>)
      modifies this`snapshots
      ensures snapshots == old(snapshots) + SnapshotRows(poll, endpoint, counts, counts.Keys)
    {
      var rest := counts.Keys;
      ghost var stored: set<int> := {};
      assert snapshots == old(snapshots) + SnapshotRows(poll, endpoint, counts, stored);
      while rest != {}
        invariant stored !! rest && stored + rest == counts.Keys
        invariant snapshots == old(snapshots) + SnapshotRows(poll, endpoint, counts, stored)
      {
        Inhabited(rest);
        var o :| o in rest;
        SnapshotRowsMore(poll, endpoint, counts, stored, o, old(snapshots));
        rest, stored := rest - {o}, stored + {o};
        snapshots := snapshots[SnapshotKey(poll, endpoint, o) := counts[o]];
      }
      assert stored == stored + {} == counts.Keys;
    }

    method MarkPollEndpointUnavailable(poll: string, endpoint: string) returns (ok: bool)
      modifies this`sources
      ensures ok <==> poll in messages
      ensures View() == Next(old(View()), MarkUnavailable(poll, endpoint))
    {
      ok := poll in messages;
      if ok {
        sources := sources[SourceKey(poll, endpoint) := Unavailable];
      }
    }

    /** GetPollAggregateCounts: group the joined rows of both tables by option. */
    method GetPollAggregateCounts(poll: string) returns (counts: map<int, int>)
      ensures CountsAre(counts, View(), selections, snapshots.Keys, poll)
    {
      counts := map[];
      NothingCounted(View(), poll);
      var rows := selections;
      assert selections - rows == {};
      while rows != {}
        invariant rows <= selections && CountsAre(counts, View(), selections - rows, {}, poll)
      {
        var s :| s in rows;
        ghost var done, before := selections - rows, counts;
        var source := SourceKey(poll, s.endpoint);
        if s.poll == poll && source in sources && sources[source] == ActorBacked {
          counts := counts[s.option := Get(counts, s.option) + 1];
        }
        RowCounted(before, View(), done, s, poll, counts);
        rows := rows - {s};
        assert selections - rows == done + {s};
      }
      assert selections - {} == selections;
      var keys := snapshots.Keys;
      assert snapshots.Keys - keys == {};
      while keys != {}
        invariant keys <= snapshots.Keys && CountsAre(counts, View(), selections, snapshots.Keys - keys, poll)
      {
        var k :| k in keys;
        ghost var done, before := snapshots.Keys - keys, counts;
        var source := SourceKey(poll, k.endpoint);
        if k.poll == poll && source in sources && sources[source] == SnapshotBacked {
          counts := counts[k.option := Get(counts, k.option) + snapshots[k]];
        }
        KeyCounted(before, View(), selections, done, k, poll, counts);
        keys := keys - {k};
        assert snapshots.Keys - keys == done + {k};
      }
      assert snapshots.Keys - {} == snapshots.Keys;
    }
  }

  // ---- The aggregate, said of the events ----------------------------------------------------------

  /** The actors whose latest ballot at the endpoint has the option. */
  function Voters(messages: set<string>, h: seq<Event>, poll: string, endpoint: string, option: int): set<string> {
    set x | x in h && x.Vote? && option in BallotOf(messages, h, poll, endpoint, x.actor) :: x.actor
  }

  /** What an endpoint contributes now: nothing if it is unavailable or has told nothing. */
  function Contribution(messages: set<string>, h: seq<Event>, poll: string, endpoint: string, option: int): int {
    match SourceOf(messages, h, poll, endpoint)
    case None => 0
    case Some(Unavailable) => 0
    case Some(ActorBacked) => |Voters(messages, h, poll, endpoint, option)|
    case Some(SnapshotBacked) => Get(SnapshotOf(messages, h, poll, endpoint), option)
  }

  function EndpointsIn(h: seq<Event>): set<string> {
    set x | x in h :: x.endpoint
  }

  lemma {:induction false} BallotHasVote(messages: set<string>, h: seq<Event>, poll: string, endpoint: string,
        actor: string)
    requires BallotOf(messages, h, poll, endpoint, actor) != []
    ensures exists x <- h :: x.Vote? && x.actor == actor
    decreases |h|
  {
    var e := h[|h| - 1];
    assert e in h;
    if !(Recorded(messages, e) && e.Vote? && e.poll == poll && e.endpoint == endpoint && e.actor == actor) {
      BallotHasVote(messages, h[..|h| - 1], poll, endpoint, actor);
    }
  }

  lemma VotersAre(messages: set<string>, h: seq<Event>, poll: string, endpoint: string, option: int, actor: string)
    ensures actor in Voters(messages, h, poll, endpoint, option) <==>
            option in BallotOf(messages, h, poll, endpoint, actor)
  {
    if option in BallotOf(messages, h, poll, endpoint, actor) {
      BallotHasVote(messages, h, poll, endpoint, actor);
    }
  }

  lemma {:induction false} RowPerVoter(rows: set<Selection>, voters: set<string>, poll: string, endpoint: string,
        option: int)
    requires forall s ::
               s in rows <==> s.poll == poll && s.endpoint == endpoint && s.option == option && s.actor in voters
    ensures |rows| == |voters|
    decreases |voters|
  {
    if voters == {} {
      assert rows == {};
    } else {
      var a :| a in voters;
      var s := Selection(poll, endpoint, a, option);
      assert s in rows;
      RowPerVoter(rows - {s}, voters - {a}, poll, endpoint, option);
    }
  }

  lemma RowsAreVoters(messages: set<string>, h: seq<Event>, poll: string, endpoint: string, option: int)
    ensures |RowsFor(Run(messages, h).selections, poll, endpoint, option)| ==
            |Voters(messages, h, poll, endpoint, option)|
  {
    var rows := RowsFor(Run(messages, h).selections, poll, endpoint, option);
    var voters := Voters(messages, h, poll, endpoint, option);
    forall s
      ensures s in rows <==> s.poll == poll && s.endpoint == endpoint && s.option == option && s.actor in voters
    {
      SelectionsAgree(messages, h, s);
      VotersAre(messages, h, poll, endpoint, option, s.actor);
    }
    RowPerVoter(rows, voters, poll, endpoint, option);
  }

  lemma PartIsContribution(messages: set<string>, h: seq<Event>, poll: string, endpoint: string, option: int)
    ensures var t := Run(messages, h);
            Part(t, t.selections, t.snapshots.Keys, poll, endpoint, option) ==
            Contribution(messages, h, poll, endpoint, option)
  {
    SourcesAgree(messages, h, poll, endpoint);
    RowsAreVoters(messages, h, poll, endpoint, option);
    SnapshotsAgree(messages, h, SnapshotKey(poll, endpoint, option));
  }

  lemma {:induction false} SumWiden(s: set<string>, u: set<string>, f: string -> int)
    requires s <= u && forall x <- u :: x !in s ==> f(x) == 0
    ensures Sum(u, f) == Sum(s, f)
    decreases |u|
  {
    if x :| x in u && x !in s {
      SumAt(u, f, x);
      SumWiden(s, u - {x}, f);
    } else {
      assert u == s;
    }
  }

  lemma {:induction false} SourceHasEvent(messages: set<string>, h: seq<Event>, poll: string, endpoint: string)
    requires SourceOf(messages, h, poll, endpoint).Some?
    ensures endpoint in EndpointsIn(h)
    decreases |h|
  {
    var e := h[|h| - 1];
    assert e in h;
    if !(Recorded(messages, e) && e.poll == poll && e.endpoint == endpoint) {
      SourceHasEvent(messages, h[..|h| - 1], poll, endpoint);
      var x :| x in h[..|h| - 1] && x.endpoint == endpoint;
      assert x in h;
    }
  }

  /** After any events, what the query returns for each option is the sum of the endpoints'
      current contributions. */
  lemma CountsAreContributions(messages: set<string>, h: seq<Event>, poll: string, counts: map<int, int>, option: int)
    requires var t := Run(messages, h); CountsAre(counts, t, t.selections, t.snapshots.Keys, poll)
    ensures Get(counts, option) == Sum(EndpointsIn(h), e => Contribution(messages, h, poll, e, option))
  {
    var t := Run(messages, h);
    var f := e => Part(t, t.selections, t.snapshots.Keys, poll, e, option);
    var g := e => Contribution(messages, h, poll, e, option);
    var known := Endpoints(t) * EndpointsIn(h);
    forall e
      ensures f(e) == g(e)
      ensures e !in known ==> g(e) == 0
    {
      PartIsContribution(messages, h, poll, e, option);
      SourcesAgree(messages, h, poll, e);
      if SourceOf(messages, h, poll, e).Some? {
        SourceHasEvent(messages, h, poll, e);
        assert SourceKey(poll, e) in t.sources;
      }
    }
    SumWiden(known, Endpoints(t), f);
    SumWiden(known, EndpointsIn(h), g);
    SumSame(known, f, g);
    assert Get(counts, option) == Total(t, t.selections, t.snapshots.Keys, poll, option);
  }

  /** Telling the latest event again changes nothing. */
  lemma RepeatChangesNothing(t: Tables, e: Event)
    ensures Next(Next(t, e), e) == Next(t, e)
  {
    var once := Next(t, e);
    if Recorded(t.messages, e) {
      assert once.sources[SourceKey(e.poll, e.endpoint) := KindOf(e)] == once.sources;
      if e.Vote? {
        assert Next(once, e).selections == once.selections;
      }
      if e.Snapshot? {
        RowsReplaced(t.snapshots, e.poll, e.endpoint, e.counts);
      }
    }
  }

  lemma RowsReplaced(rows: map<SnapshotKey, int>, poll: string, endpoint: string, counts: map<int, int>)
    ensures var once := WithoutEndpoint(rows, poll, endpoint) + SnapshotRows(poll, endpoint, counts, counts.Keys);
            WithoutEndpoint(once, poll, endpoint) + SnapshotRows(poll, endpoint, counts, counts.Keys) == once
  {
    forall k | k in SnapshotRows(poll, endpoint, counts, counts.Keys)
      ensures AtEndpoint(k, poll, endpoint)
    {
    }
  }

  /** A changed ballot replaces the old one: the actor counts once for each option of the new
      ballot and no longer for the others, and nobody else's vote moves. */
  lemma ChangedBallotCountsOnce(messages: set<string>, h: seq<Event>, poll: string, endpoint: string,
        actor: string, options: seq<int>, option: int)
    requires Recorded(messages, Vote(poll, endpoint, actor, options))
    ensures Voters(messages, h + [Vote(poll, endpoint, actor, options)], poll, endpoint, option) ==
            Voters(messages, h, poll, endpoint, option) - {actor} + (if option in options then {actor} else {})
  {
    var e := Vote(poll, endpoint, actor, options);
    var h' := h + [e];
    assert h'[..|h'| - 1] == h;
    forall a
      ensures a in Voters(messages, h', poll, endpoint, option) <==>
              a in Voters(messages, h, poll, endpoint, option) - {actor} + (if option in options then {actor} else {})
    {
      VotersAre(messages, h, poll, endpoint, option, a);
      VotersAre(messages, h', poll, endpoint, option, a);
    }
  }
}
