/** The store's alias operations as they update the tables, each proved to be the corresponding
    step of AliasHistory (internal/store/aliases.go:45-128, 134-146, 181-237). */
module AliasAllocation {
  import opened Basics
  import opened Wrappers
  import opened AliasNames
  import opened AliasHistory

  /** The identity is valid and has no alias yet. */
  predicate Allocates(db: Db, a: Actor) {
    IsIdentity(a) && a !in db.rows
  }

  class Store {
    /** alias_order, alias_sequence, sync_set_actors and sync_sets */
    var order: Option<Ordering>
    var next: int
    var exhausted: bool
    var rows: map<Actor, Row>
    var sets: set<string>
    /** The field an open store keeps: how it turns ordinals into aliases. */
    var sequentialAliases: bool

    constructor ()
      ensures Tables() == Db(None, 1, false, map[], {})
    {
      order, next, exhausted, rows, sets, sequentialAliases := None, 1, false, map[], {}, false;
    }

    ghost function Tables(): Db
      reads this
    {
      Db(order, next, exhausted, rows, sets)
    }

    /** The store is open: the recorded ordering has been loaded. */
    ghost predicate Ready()
      reads this
    {
      order.Some? && sequentialAliases == order.value.Sequential?
    }

    function AliasForOrdinal(words: Words, ordinal: int): (alias: Option<string>)
      requires words.Valid()
      reads this
      ensures Ready() ==> alias == AliasFor(words, ordinal, order.value)
    {
      if sequentialAliases then AliasFor(words, ordinal, Sequential) else AliasFor(words, ordinal, Scrambled)
    }

    /** One pass over the rows folds which orderings explain them all. */
    method ScanRows(words: Words) returns (sequential: bool, scrambled: bool)
      requires words.Valid()
      ensures sequential == AllFollow(words, rows, Sequential) && scrambled == AllFollow(words, rows, Scrambled)
    {
      sequential, scrambled := true, true;
      var rest := rows.Keys;
      while rest != {}
        invariant rest <= rows.Keys
        invariant sequential <==>
                  forall a <- rows.Keys - rest :: AliasFor(words, rows[a].ordinal, Sequential) == Some(rows[a].alias)
        invariant scrambled <==>
                  forall a <- rows.Keys - rest :: AliasFor(words, rows[a].ordinal, Scrambled) == Some(rows[a].alias)
      {
        var a :| a in rest;
        sequential := sequential && AliasFor(words, rows[a].ordinal, Sequential) == Some(rows[a].alias);
        scrambled := scrambled && AliasFor(words, rows[a].ordinal, Scrambled) == Some(rows[a].alias);
        rest := rest - {a};
      }
      assert rows.Keys - {} == rows.Keys;
    }

    /** initializeAliasOrder: an ordering that is recorded stays; otherwise the rows decide. */
    method InitializeAliasOrder(words: Words) returns (ok: bool)
      requires words.Valid()
      modifies this`order
      ensures ok == Opened(words, old(Tables())).Some?
      ensures Tables() == if ok then Opened(words, old(Tables())).value else old(Tables())
      ensures old(order).None? ==> Opens(words, old(Tables()), if ok then Some(Tables()) else None)
    {
      if order.Some? {
        return true;
      }
      OpenedOpens(words, Tables());
      var sequential, scrambled := ScanRows(words);
      if !sequential && !scrambled {
        return false;
      }
      order := Some(if sequential && (!scrambled || next > 1) then Sequential else Scrambled);
      return true;
    }

    /** Opening the database, at first or after a restart. */
    method Open(words: Words) returns (ok: bool)
      requires words.Valid()
      modifies this`order, this`sequentialAliases
      ensures Tables() == AliasHistory.Next(words, World(old(Tables()), []), Restart).db
      ensures ok <==> Tables().order.Some?
      ensures old(order).None? ==> Opens(words, old(Tables()), if ok then Some(Tables()) else None)
      ensures ok ==> Ready()
    {
      ok := InitializeAliasOrder(words);
      if ok {
        sequentialAliases := order.value == Sequential;
      }
    }

    /** The row of a pair, checked as scanAlias checks it. */
    method ReadAlias(words: Words, a: Actor) returns (found: Option<Result>)
      requires words.Valid() && Ready()
      ensures found == Lookup(words, Tables(), a)
    {
      if a !in rows {
        return None;
      }
      var expected := AliasForOrdinal(words, rows[a].ordinal);
      if expected != Some(rows[a].alias) || !IsActorID(a.actorID) || !(exists c <- a.setID :: !Blank(c)) {
        return Some(Refused(Inconsistent));
      }
      return Some(Assigned(rows[a]));
    }

    /** One transaction: the row and the advance of the sequence are committed together. */
    method AllocateAlias(words: Words, a: Actor) returns (result: Result)
      requires words.Valid() && Ready()
      modifies this`rows, this`next, this`exhausted
      ensures (Tables(), result) == match Lookup(words, old(Tables()), a)
                                    case Some(r) => (old(Tables()), r)
                                    case None => Allocate(words, old(Tables()), a)
    {
      var found := ReadAlias(words, a);
      if found.Some? {
        return found.value;
      }
      if exhausted {
        return Refused(NamespaceExhausted);
      }
      var ordinal := next;
      var alias := AliasForOrdinal(words, ordinal);
      if alias.None? {
        return Refused(NonPositive);
      }
      var row := Row(ordinal, alias.value);
      if a.setID !in sets {
        return Refused(UnknownSyncSet);
      }
      if Clashes(rows, row) {
        return Refused(Taken);
      }
      rows := rows[a := row];
      if ordinal == MAX_INT64 {
        exhausted := true;
      } else {
        next := ordinal + 1;
      }
      return Assigned(row);
    }

    /** allocateAlias until it neither finds the database locked nor violates a unique constraint, or
        the time is up. `locked`: which of the attempts within that time find a lock. */
    method ObserveSyncSetActor(words: Words, a: Actor, locked: seq<bool>) returns (result: Result)
      requires words.Valid() && Ready()
      modifies this`rows, this`next, this`exhausted
      ensures var r := Observe(words, old(Tables()), a);
              (Tables(), result) ==
              if Allocates(old(Tables()), a) && ((forall l <- locked :: l) || r.1 == Refused(Taken))
              then (old(Tables()), Refused(TimedOut))
              else r
    {
      if !IsSetID(a.setID) || !IsActorID(a.actorID) {
        return Refused(InvalidIdentity);
      }
      var found := ReadAlias(words, a);
      if found.Some? {
        return found.value;
      }
      for i := 0 to |locked|
        invariant Tables() == old(Tables()) && Ready()
        invariant Observe(words, Tables(), a).1 == Refused(Taken) || forall l <- locked[..i] :: l
      {
        assert locked[..i + 1] == locked[..i] + [locked[i]];
        assert locked[i] in locked;
        if !locked[i] {
          result := AllocateAlias(words, a);
          if result != Refused(Taken) {
            return;
          }
        }
      }
      assert locked[..|locked|] == locked;
      return Refused(TimedOut);
    }

    /** Deleting a sync set cascades to its assignments; the sequence is left alone. */
    method DeleteSyncSet(id: string)
      modifies this`sets, this`rows
      ensures Tables() == WithoutSet(old(Tables()), id)
    {
      sets := sets - {id};
      rows := map a | a in rows && a.setID != id :: rows[a];
    }

    /** Of the rows whose alias matches ignoring case, the one there is, checked like any row. */
    method ActorByAlias(words: Words, alias: string) returns (found: Option<(Actor, Result)>)
      requires words.Valid() && Ready()
      ensures found.Some? ==>
                && IsAlias(alias) && found.value.0 in rows && Lower(rows[found.value.0].alias) == Lower(alias)
                && Some(found.value.1) == Lookup(words, Tables(), found.value.0)
      ensures found.None? ==> !IsAlias(alias) || forall a <- rows :: Lower(rows[a].alias) != Lower(alias)
    {
      if !IsAlias(alias) {
        return None;
      }
      var rest := rows.Keys;
      while rest != {}
        invariant rest <= rows.Keys
        invariant forall a <- rows.Keys - rest :: Lower(rows[a].alias) != Lower(alias)
      {
        var a :| a in rest;
        if Lower(rows[a].alias) == Lower(alias) {
          var result := ReadAlias(words, a);
          return Some((a, result.value));
        }
        rest := rest - {a};
      }
      return None;
    }
  }
}
