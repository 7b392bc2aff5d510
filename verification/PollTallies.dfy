/** Poll votes, endpoint snapshots and unavailability marks, and the aggregate read from the tables
    they leave (internal/store/store.go:1176-1321). */
module PollTallies {
  import opened Wrappers

  datatype Source = ActorBacked | SnapshotBacked | Unavailable

  /** Rows of poll_endpoint_sources, poll_actor_selections and poll_endpoint_snapshots. */
  datatype SourceKey = SourceKey(poll: string, endpoint: string)
  datatype Selection = Selection(poll: string, endpoint: string, actor: string, option: int)
  datatype SnapshotKey = SnapshotKey(poll: string, endpoint: string, option: int)

  datatype Tables = Tables(
    messages: set<string>, sources: map<SourceKey, Source>, selections: set<Selection>,
    snapshots: map<SnapshotKey, int>)

  datatype Event =
    | Vote(poll: string, endpoint: string, actor: string, options: seq<int>)
    | Snapshot(poll: string, endpoint: string, counts: map<int, int>)
    | MarkUnavailable(poll: string, endpoint: string)

  /** validatePollIndexes */
  predicate ValidIndexes(options: seq<int>) {
    && (forall o <- options :: o >= 0)
    && forall i, j :: 0 <= i < j < |options| ==> options[i] != options[j]
  }

  predicate Valid(e: Event) {
    match e
    case Vote(_, _, _, options) => ValidIndexes(options)
    case Snapshot(_, _, counts) => forall o <- counts :: o >= 0 && counts[o] >= 0
    case MarkUnavailable(_, _) => true
  }

  function KindOf(e: Event): Source {
    match e
    case Vote(_, _, _, _) => ActorBacked
    case Snapshot(_, _, _) => SnapshotBacked
    case MarkUnavailable(_, _) => Unavailable
  }

  predicate ByActor(s: Selection, poll: string, endpoint: string, actor: string) {
    s.poll == poll && s.endpoint == endpoint && s.actor == actor
  }

  predicate AtEndpoint(k: SnapshotKey, poll: string, endpoint: string) {
    k.poll == poll && k.endpoint == endpoint
  }

  function WithoutActor(rows: set<Selection>, poll: string, endpoint: string, actor: string): set<Selection> {
    set s | s in rows && !ByActor(s, poll, endpoint, actor)
  }

  function WithoutEndpoint(rows: map<SnapshotKey, int>, poll: string, endpoint: string): map<SnapshotKey, int> {
    map k | k in rows && !AtEndpoint(k, poll, endpoint) :: rows[k]
  }

  function Ballots(poll: string, endpoint: string, actor: string, options: seq<int>): set<Selection> {
    set o | o in options :: Selection(poll, endpoint, actor, o)
  }

  /** One row for each of the given options. */
  function SnapshotRows(poll: string, endpoint: string, counts: map<int, int>, options: set<int>): map<SnapshotKey, int>
    requires options <= counts.Keys
  {
    map k | k in (set o | o in options :: SnapshotKey(poll, endpoint, o)) :: counts[k.option]
  }

  /** The event is recorded: it is valid and its message exists. */
  predicate Recorded(messages: set<string>, e: Event) {
    Valid(e) && e.poll in messages
  }

  /** One transaction; an invalid event, or one for an unknown message, changes nothing. */
  function Next(t: Tables, e: Event): Tables {
    if !Recorded(t.messages, e) then t
    else
      var sources := t.sources[SourceKey(e.poll, e.endpoint) := KindOf(e)];
      match e
      case Vote(poll, endpoint, actor, options) =>
        t.(sources := sources,
           selections := WithoutActor(t.selections, poll, endpoint, actor) + Ballots(poll, endpoint, actor, options))
      case Snapshot(poll, endpoint, counts) =>
        t.(sources := sources,
           snapshots :=
             WithoutEndpoint(t.snapshots, poll, endpoint) + SnapshotRows(poll, endpoint, counts, counts.Keys))
      case MarkUnavailable(_, _) => t.(sources := sources)
  }

  function Run(messages: set<string>, h: seq<Event>): Tables
    decreases |h|
  {
    if h == [] then Tables(messages, map[], {}, map[]) else Next(Run(messages, h[..|h| - 1]), h[|h| - 1])
  }

  // ---- What the events say --------------------------------------------------------------------

  /** The endpoint's latest kind of event. */
  function SourceOf(messages: set<string>, h: seq<Event>, poll: string, endpoint: string): Option<Source>
    decreases |h|
  {
    if h == [] then None
    else
      var e := h[|h| - 1];
      if Recorded(messages, e) && e.poll == poll && e.endpoint == endpoint then Some(KindOf(e))
      else SourceOf(messages, h[..|h| - 1], poll, endpoint)
  }

  /** An actor's latest ballot at an endpoint. */
  function BallotOf(messages: set<string>, h: seq<Event>, poll: string, endpoint: string, actor: string): seq<int>
    decreases |h|
  {
    if h == [] then []
    else
      var e := h[|h| - 1];
      if Recorded(messages, e) && e.Vote? && e.poll == poll && e.endpoint == endpoint && e.actor == actor then e.options
      else BallotOf(messages, h[..|h| - 1], poll, endpoint, actor)
  }

  /** The endpoint's latest snapshot. */
  function SnapshotOf(messages: set<string>, h: seq<Event>, poll: string, endpoint: string): map<int, int>
    decreases |h|
  {
    if h == [] then map[]
    else
      var e := h[|h| - 1];
      if Recorded(messages, e) && e.Snapshot? && e.poll == poll && e.endpoint == endpoint then e.counts
      else SnapshotOf(messages, h[..|h| - 1], poll, endpoint)
  }

  // ---- The tables say the same ------------------------------------------------------------------

  lemma {:induction false} RunMessages(messages: set<string>, h: seq<Event>)
    ensures Run(messages, h).messages == messages
    decreases |h|
  {
    if h != [] { RunMessages(messages, h[..|h| - 1]); }
  }

  lemma {:induction false} SourcesAgree(messages: set<string>, h: seq<Event>, poll: string, endpoint: string)
    ensures var t := Run(messages, h); var key := SourceKey(poll, endpoint);
            SourceOf(messages, h, poll, endpoint) == if key in t.sources then Some(t.sources[key]) else None
    decreases |h|
  {
    if h != [] {
      SourcesAgree(messages, h[..|h| - 1], poll, endpoint);
      RunMessages(messages, h[..|h| - 1]);
    }
  }

  lemma {:induction false} SelectionsAgree(messages: set<string>, h: seq<Event>, s: Selection)
    ensures s in Run(messages, h).selections <==> s.option in BallotOf(messages, h, s.poll, s.endpoint, s.actor)
    decreases |h|
  {
    if h != [] {
      SelectionsAgree(messages, h[..|h| - 1], s);
      RunMessages(messages, h[..|h| - 1]);
    }
  }

  lemma {:induction false} SnapshotsAgree(messages: set<string>, h: seq<Event>, k: SnapshotKey)
    ensures var t := Run(messages, h); var counts := SnapshotOf(messages, h, k.poll, k.endpoint);
            (k in t.snapshots <==> k.option in counts) && (k in t.snapshots ==> t.snapshots[k] == counts[k.option])
    decreases |h|
  {
    if h != [] {
      SnapshotsAgree(messages, h[..|h| - 1], k);
      RunMessages(messages, h[..|h| - 1]);
    }
  }
}
