/** The permanent assignment of aliases over an installation's whole history: allocations,
    deletions of sync sets, restarts, and the ordering chosen once for an old database
    (internal/store/aliases.go). */
module AliasHistory {
  import opened Basics
  import opened Wrappers
  import opened AliasNames

  datatype Ordering = Sequential | Scrambled

  /** The key of an assignment: a sync set and an opaque actor. */
  datatype Actor = Actor(setID: string, actorID: string)

  datatype Row = Row(ordinal: int, alias: string)

  /** The tables alias_order, alias_sequence, sync_set_actors and sync_sets. */
  datatype Db = Db(order: Option<Ordering>, next: int, exhausted: bool, rows: map<Actor, Row>, sets: set<string>)

  datatype AliasError =
    InvalidIdentity | Inconsistent | NamespaceExhausted | NonPositive | UnknownSyncSet | Taken | TimedOut

  datatype Result = Assigned(row: Row) | Refused(error: AliasError)

  function AliasFor(words: Words, ordinal: int, order: Ordering): Option<string>
    requires words.Valid()
  {
    Alias(words, ordinal, order.Scrambled?)
  }

  predicate IsSetID(s: string) { s != "" && !Blank(s[0]) && !Blank(s[|s| - 1]) }

  /** ^u_[a-z2-7]{10}$ */
  predicate IsActorID(s: string) {
    |s| == 12 && s[..2] == "u_" && forall c <- s[2..] :: 'a' <= c <= 'z' || '2' <= c <= '7'
  }

  predicate IsIdentity(a: Actor) { IsSetID(a.setID) && IsActorID(a.actorID) }

  /** scanAlias rejects a stored row that its ordinal does not explain. */
  predicate Explains(words: Words, order: Ordering, a: Actor, row: Row)
    requires words.Valid()
  {
    AliasFor(words, row.ordinal, order) == Some(row.alias) && IsActorID(a.actorID) && exists c <- a.setID :: !Blank(c)
  }

  function Lookup(words: Words, db: Db, a: Actor): Option<Result>
    requires words.Valid() && db.order.Some?
  {
    if a !in db.rows then None
    else Some(if Explains(words, db.order.value, a, db.rows[a]) then Assigned(db.rows[a]) else Refused(Inconsistent))
  }

  /** The unique constraints on ordinal and, ignoring case, on alias. */
  predicate Clashes(rows: map<Actor, Row>, row: Row) {
    exists a <- rows :: rows[a].ordinal == row.ordinal || Lower(rows[a].alias) == Lower(row.alias)
  }

  function Allocated(db: Db, a: Actor, alias: string): Db {
    db.(rows := db.rows[a := Row(db.next, alias)],
        exhausted := db.exhausted || db.next == MAX_INT64,
        next := if db.next == MAX_INT64 then db.next else db.next + 1)
  }

  /** allocateAlias, for a pair that has no row. */
  function Allocate(words: Words, db: Db, a: Actor): (Db, Result)
    requires words.Valid() && db.order.Some?
  {
    if db.exhausted then (db, Refused(NamespaceExhausted))
    else match AliasFor(words, db.next, db.order.value)
      case None => (db, Refused(NonPositive))
      case Some(alias) =>
        if a.setID !in db.sets then (db, Refused(UnknownSyncSet))
        else if Clashes(db.rows, Row(db.next, alias)) then (db, Refused(Taken))
        else (Allocated(db, a, alias), Assigned(Row(db.next, alias)))
  }

  /** ObserveSyncSetActor */
  function Observe(words: Words, db: Db, a: Actor): (Db, Result)
    requires words.Valid() && db.order.Some?
  {
    if !IsIdentity(a) then (db, Refused(InvalidIdentity))
    else match Lookup(words, db, a)
      case Some(result) => (db, result)
      case None => Allocate(words, db, a)
  }

  /** Every surviving row is the alias of its ordinal. */
  predicate AllFollow(words: Words, rows: map<Actor, Row>, order: Ordering)
    requires words.Valid()
  {
    forall a <- rows :: AliasFor(words, rows[a].ordinal, order) == Some(rows[a].alias)
  }

  /** initializeAliasOrder's choice; None is an inconsistent database, which does not open. */
  function Chosen(words: Words, db: Db): Option<Ordering>
    requires words.Valid()
  {
    var sequential, scrambled := AllFollow(words, db.rows, Sequential), AllFollow(words, db.rows, Scrambled);
    if !sequential && !scrambled then None
    else if sequential && (!scrambled || db.next > 1) then Some(Sequential)
    else Some(Scrambled)
  }

  function Opened(words: Words, db: Db): Option<Db>
    requires words.Valid()
  {
    if db.order.Some? then Some(db)
    else match Chosen(words, db) case Some(order) => Some(db.(order := Some(order))) case None => None
  }

  /** What opening does to a database without a recorded ordering: it is refused exactly if neither
      ordering explains every row. The new ordering is recorded exactly if it explains every row and, in
      case the old one does too, the sequence has never advanced. */
  predicate Opens(words: Words, db: Db, result: Option<Db>)
    requires words.Valid() && db.order.None?
  {
    var sequential := forall a <- db.rows :: AliasFor(words, db.rows[a].ordinal, Sequential) == Some(db.rows[a].alias);
    var scrambled := forall a <- db.rows :: AliasFor(words, db.rows[a].ordinal, Scrambled) == Some(db.rows[a].alias);
    && (result.Some? <==> sequential || scrambled)
    && (result.Some? ==>
          && result.value == db.(order := result.value.order) && result.value.order.Some?
          && (result.value.order == Some(Scrambled) <==> scrambled && (sequential ==> db.next <= 1)))
  }

  lemma OpenedOpens(words: Words, db: Db)
    requires words.Valid() && db.order.None?
    ensures Opens(words, db, Opened(words, db))
  {
  }

  /** Deleting a sync set deletes its assignments. */
  function WithoutSet(db: Db, id: string): Db {
    db.(sets := db.sets - {id}, rows := map a | a in db.rows && a.setID != id :: db.rows[a])
  }

  // ---- Histories ----------------------------------------------------------------------------

  datatype Issue = Issue(actor: Actor, row: Row)

  /** The database, and every alias ever issued from it. */
  datatype World = World(db: Db, issued: seq<Issue>)

  datatype Event = Restart | ObserveActor(actor: Actor) | AddSet(id: string) | DeleteSet(id: string)

  function Next(words: Words, w: World, e: Event): World
    requires words.Valid()
  {
    match e
    case Restart => (match Opened(words, w.db) case Some(db) => w.(db := db) case None => w)
    case ObserveActor(a) =>
      if w.db.order.None? then w
      else
        var db := Observe(words, w.db, a).0;
        World(db, if a in db.rows && a !in w.db.rows then w.issued + [Issue(a, db.rows[a])] else w.issued)
    case AddSet(id) => w.(db := w.db.(sets := w.db.sets + {id}))
    case DeleteSet(id) => w.(db := WithoutSet(w.db, id))
  }

  function Run(words: Words, w: World, events: seq<Event>): World
    requires words.Valid()
  {
    if events == [] then w else Next(words, Run(words, w, events[..|events| - 1]), events[|events| - 1])
  }

  // ---- The invariant ------------------------------------------------------------------------

  /** An ordinal the sequence has passed. */
  predicate Spent(db: Db, ordinal: int) {
    1 <= ordinal && (ordinal < db.next || (db.exhausted && ordinal == db.next))
  }

  /** The ordering in force; before one is recorded, aliases were issued sequentially. */
  function InForce(db: Db): Ordering {
    if db.order.Some? then db.order.value else Sequential
  }

  predicate Issued(words: Words, db: Db, issue: Issue)
    requires words.Valid()
  {
    && Spent(db, issue.row.ordinal) && IsIdentity(issue.actor)
    && AliasFor(words, issue.row.ordinal, InForce(db)) == Some(issue.row.alias)
  }

  ghost predicate Inv(words: Words, w: World)
    requires words.Valid()
  {
    && 1 <= w.db.next <= MAX_INT64 && (w.db.exhausted ==> w.db.next == MAX_INT64)
    && (forall i | 0 <= i < |w.issued| :: Issued(words, w.db, w.issued[i]))
    && (forall i, j | 0 <= i < j < |w.issued| :: w.issued[i].row.ordinal < w.issued[j].row.ordinal)
    && forall a <- w.db.rows :: Issue(a, w.db.rows[a]) in w.issued
  }

  /** A database as some earlier version left it: no ordering recorded, issued sequentially. */
  ghost predicate Legacy(words: Words, w: World)
    requires words.Valid()
  {
    w.db.order.None? && Inv(words, w)
  }

  function NewDatabase(): World {
    World(Db(None, 1, false, map[], {}), [])
  }

  /** A new database is one. */
  lemma FreshIsLegacy(words: Words)
    requires words.Valid()
    ensures Legacy(words, NewDatabase())
  {
  }

  /** An open, consistent database never offers an alias that is taken. */
  lemma NeverTaken(words: Words, w: World)
    requires words.Valid() && Inv(words, w) && !w.db.exhausted
    ensures AliasFor(words, w.db.next, InForce(w.db)).Some?
    ensures !Clashes(w.db.rows, Row(w.db.next, AliasFor(words, w.db.next, InForce(w.db)).value))
  {
    var alias := AliasFor(words, w.db.next, InForce(w.db)).value;
    forall a | a in w.db.rows
      ensures w.db.rows[a].ordinal != w.db.next && Lower(w.db.rows[a].alias) != Lower(alias)
    {
      var i :| 0 <= i < |w.issued| && w.issued[i] == Issue(a, w.db.rows[a]);
      assert Issued(words, w.db, w.issued[i]);
      if Lower(w.db.rows[a].alias) == Lower(alias) {
        AliasInjective(words, w.db.rows[a].ordinal, w.db.next, InForce(w.db).Scrambled?);
      }
    }
  }

  /** What was issued stays issued when the sequence advances. */
  lemma AllocatedIssues(words: Words, w: World, a: Actor, alias: string)
    requires words.Valid() && Inv(words, w) && !w.db.exhausted && IsIdentity(a)
    requires AliasFor(words, w.db.next, InForce(w.db)) == Some(alias)
    ensures var issued := w.issued + [Issue(a, Row(w.db.next, alias))];
            && (forall i | 0 <= i < |issued| :: Issued(words, Allocated(w.db, a, alias), issued[i]))
            && forall i, j | 0 <= i < j < |issued| :: issued[i].row.ordinal < issued[j].row.ordinal
  {
    var db, issued := Allocated(w.db, a, alias), w.issued + [Issue(a, Row(w.db.next, alias))];
    forall i | 0 <= i < |issued|
      ensures Issued(words, db, issued[i])
    {
      if i < |w.issued| {
        assert Issued(words, w.db, w.issued[i]);
      }
    }
    forall i | 0 <= i < |w.issued|
      ensures w.issued[i].row.ordinal < w.db.next
    {
      assert Issued(words, w.db, w.issued[i]);
    }
  }

  lemma AllocatedKeeps(words: Words, w: World, a: Actor, alias: string)
    requires words.Valid() && Inv(words, w) && !w.db.exhausted && IsIdentity(a) && a !in w.db.rows
    requires AliasFor(words, w.db.next, InForce(w.db)) == Some(alias)
    ensures Inv(words, World(Allocated(w.db, a, alias), w.issued + [Issue(a, Row(w.db.next, alias))]))
  {
    var issue := Issue(a, Row(w.db.next, alias));
    var db, issued := Allocated(w.db, a, alias), w.issued + [issue];
    AllocatedIssues(words, w, a, alias);
    forall b | b in db.rows
      ensures Issue(b, db.rows[b]) in issued
    {
      if b == a {
        assert issued[|w.issued|] == issue;
      } else {
        assert Issue(b, w.db.rows[b]) in w.issued;
      }
    }
  }

  lemma ObserveKeeps(words: Words, w: World, a: Actor)
    requires words.Valid() && Inv(words, w)
    ensures Inv(words, Next(words, w, ObserveActor(a)))
  {
    var w' := Next(words, w, ObserveActor(a));
    if w.db.order.Some? && a in w'.db.rows && a !in w.db.rows {
      AllocatedKeeps(words, w, a, AliasFor(words, w.db.next, w.db.order.value).value);
    }
  }

  lemma RestartKeeps(words: Words, w: World)
    requires words.Valid() && Inv(words, w)
    ensures Inv(words, Next(words, w, Restart))
    ensures Next(words, w, Restart).db.order.Some?
  {
    if w.db.order.None? {
      forall a | a in w.db.rows
        ensures AliasFor(words, w.db.rows[a].ordinal, Sequential) == Some(w.db.rows[a].alias)
      {
        assert Issued(words, w.db, Issue(a, w.db.rows[a]));
      }
      if w.issued != [] {
        assert Issued(words, w.db, w.issued[0]);
        assert w.db.next > 1;
      }
    }
  }

  lemma NextKeeps(words: Words, w: World, e: Event)
    requires words.Valid() && Inv(words, w)
    ensures Inv(words, Next(words, w, e))
  {
    match e
    case Restart => RestartKeeps(words, w);
    case ObserveActor(a) => ObserveKeeps(words, w, a);
    case AddSet(id) =>
      assert forall i | 0 <= i < |w.issued| :: Issued(words, w.db, w.issued[i]);
    case DeleteSet(id) =>
      assert forall i | 0 <= i < |w.issued| :: Issued(words, w.db, w.issued[i]);
  }

  lemma {:induction false} RunKeeps(words: Words, w: World, events: seq<Event>)
    requires words.Valid() && Inv(words, w)
    ensures Inv(words, Run(words, w, events))
    decreases |events|
  {
    if events != [] {
      RunKeeps(words, w, events[..|events| - 1]);
      NextKeeps(words, Run(words, w, events[..|events| - 1]), events[|events| - 1]);
    }
  }

  // ---- What an assignment promises ------------------------------------------------------------

  /** Over any history, no alias is ever issued twice, not even in another letter case. */
  lemma NoAliasIssuedTwice(words: Words, w: World, events: seq<Event>, i: nat, j: nat)
    requires words.Valid() && Legacy(words, w)
    requires i < j < |Run(words, w, events).issued|
    ensures var issued := Run(words, w, events).issued;
            Lower(issued[i].row.alias) != Lower(issued[j].row.alias)
  {
    RunKeeps(words, w, events);
    var w' := Run(words, w, events);
    assert Issued(words, w'.db, w'.issued[i]) && Issued(words, w'.db, w'.issued[j]);
    if Lower(w'.issued[i].row.alias) == Lower(w'.issued[j].row.alias) {
      AliasInjective(words, w'.issued[i].row.ordinal, w'.issued[j].row.ordinal, InForce(w'.db).Scrambled?);
    }
  }

  /** So in particular over the whole history of an installation that starts with a new database. */
  lemma NewInstallation(words: Words, events: seq<Event>, i: nat, j: nat)
    requires words.Valid() && i < j < |Run(words, NewDatabase(), events).issued|
    ensures var issued := Run(words, NewDatabase(), events).issued;
            Lower(issued[i].row.alias) != Lower(issued[j].row.alias)
  {
    FreshIsLegacy(words);
    NoAliasIssuedTwice(words, NewDatabase(), events, i, j);
  }

  /** Every assignment belongs to a sync set that exists. */
  predicate InSets(db: Db) {
    forall a <- db.rows :: a.setID in db.sets
  }

  /** Deleting a set takes its assignments with it, and nothing is assigned in a set that does not exist. */
  lemma {:induction false} RowsAreInSets(words: Words, w: World, events: seq<Event>)
    requires words.Valid() && InSets(w.db)
    ensures InSets(Run(words, w, events).db)
    decreases |events|
  {
    if events != [] {
      RowsAreInSets(words, w, events[..|events| - 1]);
    }
  }

  /** A new installation: nothing is issued before its first start, which records the new ordering;
      from then on the n-th alias issued is that ordering's alias of the ordinal n. */
  ghost predicate Counted(words: Words, w: World)
    requires words.Valid()
  {
    && (w.db.order == None ==> w == World(NewDatabase().db.(sets := w.db.sets), []))
    && (w.db.order.Some? ==>
          && w.db.order == Some(Scrambled)
          && w.db.next == if w.db.exhausted then |w.issued| else |w.issued| + 1)
    && forall i | 0 <= i < |w.issued| :: NthAlias(words, i + 1, w.issued[i])
  }

  predicate NthAlias(words: Words, n: nat, issue: Issue)
    requires words.Valid()
  {
    issue.row.ordinal == n && AliasFor(words, n, Scrambled) == Some(issue.row.alias)
  }

  lemma CountedRestart(words: Words, w: World)
    requires words.Valid() && Counted(words, w)
    ensures Counted(words, Next(words, w, Restart)) && Next(words, w, Restart).db.order == Some(Scrambled)
  {
    if w.db.order.None? { OpenedOpens(words, w.db); }
  }

  /** What an observation may add: the next ordinal's alias. */
  lemma ObserveIssues(words: Words, w: World, a: Actor)
    requires words.Valid() && w.db.order == Some(Scrambled) && Inv(words, w)
    ensures var w' := Next(words, w, ObserveActor(a));
            || w' == w
            || (!w.db.exhausted && a in w'.db.rows && w'.db == Allocated(w.db, a, w'.db.rows[a].alias)
                && w'.issued == w.issued + [Issue(a, Row(w.db.next, w'.db.rows[a].alias))]
                && AliasFor(words, w.db.next, Scrambled) == Some(w'.db.rows[a].alias))
  {
  }

  lemma CountedObserve(words: Words, w: World, a: Actor)
    requires words.Valid() && Inv(words, w) && Counted(words, w)
    ensures Counted(words, Next(words, w, ObserveActor(a)))
  {
    if w.db.order.Some? {
      ObserveIssues(words, w, a);
    }
  }

  lemma CountedNext(words: Words, w: World, e: Event)
    requires words.Valid() && Inv(words, w) && Counted(words, w)
    ensures Counted(words, Next(words, w, e))
    ensures w.db.order.Some? || e == Restart ==> Next(words, w, e).db.order == Some(Scrambled)
  {
    match e
    case Restart => CountedRestart(words, w);
    case ObserveActor(a) => CountedObserve(words, w, a);
    case AddSet(_) =>
    case DeleteSet(_) =>
  }

  lemma {:induction false} NewAliasesInOrder(words: Words, events: seq<Event>)
    requires words.Valid()
    ensures var w := Run(words, NewDatabase(), events);
            && Inv(words, w) && Counted(words, w)
            && (Restart in events ==> w.db.order == Some(Scrambled))
    decreases |events|
  {
    if events == [] {
      FreshIsLegacy(words);
    } else {
      var before, e := events[..|events| - 1], events[|events| - 1];
      NewAliasesInOrder(words, before);
      NextKeeps(words, Run(words, NewDatabase(), before), e);
      CountedNext(words, Run(words, NewDatabase(), before), e);
      assert Restart in events ==> e == Restart || Restart in before;
    }
  }

  lemma StepKeepsRow(words: Words, w: World, e: Event, a: Actor)
    requires words.Valid() && a in w.db.rows && e != DeleteSet(a.setID)
    ensures a in Next(words, w, e).db.rows && Next(words, w, e).db.rows[a] == w.db.rows[a]
  {
  }

  /** Nothing but the deletion of its sync set changes a recorded assignment. */
  lemma {:induction false} AssignmentIsPermanent(words: Words, w: World, events: seq<Event>, a: Actor)
    requires words.Valid() && a in w.db.rows && DeleteSet(a.setID) !in events
    ensures a in Run(words, w, events).db.rows && Run(words, w, events).db.rows[a] == w.db.rows[a]
    decreases |events|
  {
    if events != [] {
      var init, last := events[..|events| - 1], events[|events| - 1];
      assert events == init + [last];
      AssignmentIsPermanent(words, w, init, a);
      StepKeepsRow(words, Run(words, w, init), last, a);
    }
  }

  /** The recorded ordering explains every alias still recorded, and every alias ever issued. */
  lemma OrderingExplainsHistory(words: Words, w: World, events: seq<Event>)
    requires words.Valid() && Legacy(words, w)
    ensures var w' := Run(words, w, events + [Restart]);
            w'.db.order.Some? && AllFollow(words, w'.db.rows, w'.db.order.value) &&
            forall i | 0 <= i < |w'.issued| ::
              AliasFor(words, w'.issued[i].row.ordinal, w'.db.order.value) == Some(w'.issued[i].row.alias)
  {
    var all := events + [Restart];
    assert all[..|all| - 1] == events;
    RunKeeps(words, w, events);
    RestartKeeps(words, Run(words, w, events));
    var w' := Run(words, w, all);
    forall a | a in w'.db.rows
      ensures AliasFor(words, w'.db.rows[a].ordinal, w'.db.order.value) == Some(w'.db.rows[a].alias)
    {
      assert Issued(words, w'.db, Issue(a, w'.db.rows[a]));
    }
    forall i | 0 <= i < |w'.issued|
      ensures AliasFor(words, w'.issued[i].row.ordinal, w'.db.order.value) == Some(w'.issued[i].row.alias)
    {
      assert Issued(words, w'.db, w'.issued[i]);
    }
  }

  /** Once chosen, the ordering never changes. */
  lemma {:induction false} OrderingIsPermanent(words: Words, w: World, events: seq<Event>)
    requires words.Valid() && w.db.order.Some?
    ensures Run(words, w, events).db.order == w.db.order
    decreases |events|
  {
    if events != [] {
      OrderingIsPermanent(words, w, events[..|events| - 1]);
    }
  }

  /** When an observation of a valid identity is answered with an alias: exactly if it has one
      already or its set exists and ordinals remain. A refusal changes nothing, and the aliases
      already recorded never change. */
  lemma ObserveAnswers(words: Words, w: World, a: Actor)
    requires words.Valid() && Inv(words, w) && w.db.order.Some? && IsIdentity(a)
    ensures var r := Observe(words, w.db, a);
            && (r.1.Assigned? <==> a in w.db.rows || (a.setID in w.db.sets && !w.db.exhausted))
            && (r.1.Refused? ==> r.0 == w.db)
            && (r.1.Assigned? ==> a in r.0.rows && r.0.rows[a] == r.1.row && IsAlias(r.1.row.alias))
            && (r.0.exhausted && !w.db.exhausted ==> r.1 == Assigned(Row(MAX_INT64, r.1.row.alias)))
  {
    if a in w.db.rows {
      assert Issued(words, w.db, Issue(a, w.db.rows[a]));
      assert a.setID[0] in a.setID;
      AliasParses(words, w.db.rows[a].ordinal, w.db.order.value.Scrambled?);
    } else if !w.db.exhausted {
      NeverTaken(words, w);
      AliasParses(words, w.db.next, w.db.order.value.Scrambled?);
    }
  }

  /** The namespace runs out instead of wrapping: once the last ordinal is spent, no history
      issues anything more. */
  lemma {:induction false} ExhaustionIsFinal(words: Words, w: World, events: seq<Event>)
    requires words.Valid() && w.db.exhausted
    ensures Run(words, w, events).db.exhausted && Run(words, w, events).issued == w.issued
    decreases |events|
  {
    if events != [] {
      ExhaustionIsFinal(words, w, events[..|events| - 1]);
    }
  }

  /** ActorByAlias finds, in any letter case, exactly the actor that was given the alias. */
  lemma AliasFindsItsActor(words: Words, w: World, a: Actor, b: Actor)
    requires words.Valid() && Inv(words, w) && a in w.db.rows && b in w.db.rows
    ensures Lower(w.db.rows[a].alias) == Lower(w.db.rows[b].alias) <==> a == b
  {
    var i :| 0 <= i < |w.issued| && w.issued[i] == Issue(a, w.db.rows[a]);
    var j :| 0 <= j < |w.issued| && w.issued[j] == Issue(b, w.db.rows[b]);
    assert Issued(words, w.db, w.issued[i]) && Issued(words, w.db, w.issued[j]);
    if Lower(w.db.rows[a].alias) == Lower(w.db.rows[b].alias) {
      AliasInjective(words, w.db.rows[a].ordinal, w.db.rows[b].ordinal, InForce(w.db).Scrambled?);
    }
  }
}
