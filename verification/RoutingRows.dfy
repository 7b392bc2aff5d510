/** Saving a configuration's routing rows statement by statement inside one transaction
    (internal/config/save_routing.go:12-88). */
module RoutingRows {
  import opened Wrappers
  import opened RoutingConfig

  /** Endpoint rows refer to sets that exist. */
  predicate Referenced(db: Db) {
    forall a <- db.endpoints :: db.endpoints[a].setID.Some? ==> db.endpoints[a].setID.value in db.sets
  }

  /** An upsert's row: the old one with new membership and flags, or a new one. */
  function Upserted(rows: map<string, EndpointRow>, alias: string, ep: Endpoint, setID: string,
        newRow: nat): EndpointRow {
    if alias in rows then
      rows[alias].(setID := Some(setID),
                   anonymizeIncoming := ep.anonymizeIncoming, anonymizeOutgoing := ep.anonymizeOutgoing)
    else
      EndpointRow(newRow, ep.transport, ep.connection, ep.remote, Some(setID),
                  ep.anonymizeIncoming, ep.anonymizeOutgoing)
  }

  /** Would the row take another alias's provider target? */
  predicate Taken(rows: map<string, EndpointRow>, alias: string, row: EndpointRow) {
    exists a <- rows :: a != alias && rows[a].transport == row.transport && rows[a].remote == row.remote
  }

  /** Exactly the rows whose binding is unchanged keep their identity. */
  predicate KeepsRows(before: map<string, EndpointRow>, c: Config, rows: map<string, EndpointRow>, firstNew: nat)
    requires rows.Keys <= c.endpoints.Keys
  {
    forall a <- rows ::
      if a in before && Bound(before[a], c.endpoints[a]) then rows[a].row == before[a].row else rows[a].row >= firstNew
  }

  /** Identities handed out so far. */
  predicate Old(rows: map<string, EndpointRow>, firstNew: nat) {
    forall a <- rows :: rows[a].row < firstNew
  }

  /** The rows that survive the retirement of changed bindings. */
  function Kept(rows: map<string, EndpointRow>, c: Config): map<string, EndpointRow> {
    map a | a in rows && a in c.endpoints && Bound(rows[a], c.endpoints[a]) :: rows[a]
  }

  /** Halfway through the endpoint upserts: `todo` aliases are still as the retirement left them. */
  predicate Partway(c: Config, kept: map<string, EndpointRow>, rows: map<string, EndpointRow>, todo: set<string>,
        firstNew: nat) {
    && todo <= c.endpoints.Keys
    && rows.Keys == kept.Keys + (c.endpoints.Keys - todo)
    && (forall a <- rows :: a in c.endpoints && Bound(rows[a], c.endpoints[a]))
    && (forall a <- rows :: a !in todo ==> Holds(rows[a], c.endpoints[a], SetOf(c.sets, a)))
    && forall a <- rows :: if a in kept then rows[a].row == kept[a].row else rows[a].row >= firstNew
  }

  /** A row bound as a valid configuration says takes no other alias's provider target. */
  lemma UpsertNotTaken(c: Config, rows: map<string, EndpointRow>, a: string, row: EndpointRow)
    requires DistinctTargets(c.endpoints) && forall b <- rows :: b in c.endpoints && Bound(rows[b], c.endpoints[b])
    requires a in c.endpoints && Bound(row, c.endpoints[a])
    ensures !Taken(rows, a, row)
  {
    forall b | b in rows && b != a
      ensures rows[b].transport != row.transport || rows[b].remote != row.remote
    {
      assert !SameTarget(c.endpoints[a], c.endpoints[b]);
    }
  }

  lemma UpsertPartway(c: Config, kept: map<string, EndpointRow>, rows: map<string, EndpointRow>,
        todo: set<string>, firstNew: nat, a: string, next: nat)
    requires Partway(c, kept, rows, todo, firstNew) && a in todo && next >= firstNew
    requires DistinctTargets(c.endpoints)
    ensures var row := Upserted(rows, a, c.endpoints[a], SetOf(c.sets, a), next);
            !Taken(rows, a, row) && Partway(c, kept, rows[a := row], todo - {a}, firstNew)
  {
    var row := Upserted(rows, a, c.endpoints[a], SetOf(c.sets, a), next);
    UpsertNotTaken(c, rows, a, row);
    UpsertedPartway(c, kept, rows, todo, firstNew, a, row);
  }

  lemma UpsertedPartway(c: Config, kept: map<string, EndpointRow>, rows: map<string, EndpointRow>,
        todo: set<string>, firstNew: nat, a: string, row: EndpointRow)
    requires Partway(c, kept, rows, todo, firstNew) && a in todo
    requires Holds(row, c.endpoints[a], SetOf(c.sets, a))
    requires if a in kept then row.row == kept[a].row else row.row >= firstNew
    ensures Partway(c, kept, rows[a := row], todo - {a}, firstNew)
  {
    assert rows[a := row].Keys == rows.Keys + {a};
  }

  /** With nothing left to do, every endpoint is as configured. */
  lemma PartwayDone(c: Config, before: map<string, EndpointRow>, rows: map<string, EndpointRow>, firstNew: nat)
    requires Partway(c, Kept(before, c), rows, {}, firstNew)
    ensures EndpointsSaved(c, rows) && KeepsRows(before, c, rows, firstNew)
  {
    assert Kept(before, c).Keys <= c.endpoints.Keys;
    assert rows.Keys == c.endpoints.Keys;
  }

  class Database {
    var endpoints: map<string, EndpointRow>
    var sets: map<string, SetRow>
    var nextRow: nat

    constructor ()
      ensures View() == Db(map[], map[]) && nextRow == 0
    {
      endpoints, sets, nextRow := map[], map[], 0;
    }

    ghost function View(): Db
      reads this
    {
      Db(endpoints, sets)
    }

    /** The constraints of the schema. */
    ghost predicate Consistent()
      reads this
    {
      UniqueTargets(endpoints) && Referenced(View()) && Old(endpoints, nextRow)
    }

    method DeleteEndpoint(alias: string)
      requires Consistent()
      modifies this`endpoints
      ensures endpoints == old(endpoints) - {alias} && Consistent()
    {
      endpoints := endpoints - {alias};
    }

    method UpsertSet(id: string, row: SetRow)
      requires Consistent()
      modifies this`sets
      ensures sets == old(sets)[id := row] && Consistent()
    {
      sets := sets[id := row];
    }

    /** INSERT .. ON CONFLICT(alias) DO UPDATE of membership and flags only; refused by the unique
        target and by the reference to the set. */
    method UpsertEndpoint(alias: string, ep: Endpoint, setID: string) returns (ok: bool)
      requires Consistent()
      modifies this`endpoints, this`nextRow
      ensures ok <==>
              setID in sets && !Taken(old(endpoints), alias, Upserted(old(endpoints), alias, ep, setID, old(nextRow)))
      ensures endpoints == if ok then old(endpoints)[alias := Upserted(old(endpoints), alias, ep, setID, old(nextRow))]
                           else old(endpoints)
      ensures Consistent() && nextRow >= old(nextRow)
    {
      var row := Upserted(endpoints, alias, ep, setID, nextRow);
      ok := setID in sets && !Taken(endpoints, alias, row);
      if ok {
        if alias !in endpoints {
          nextRow := nextRow + 1;
        }
        endpoints := endpoints[alias := row];
      }
    }

    /** ON DELETE SET NULL */
    method DeleteSet(id: string)
      requires Consistent()
      modifies this`sets, this`endpoints
      ensures sets == old(sets) - {id} && Consistent()
      ensures endpoints.Keys == old(endpoints).Keys
      ensures forall a <- endpoints :: endpoints[a] ==
                if old(endpoints)[a].setID == Some(id) then old(endpoints)[a].(setID := None) else old(endpoints)[a]
    {
      sets := sets - {id};
      endpoints := map a | a in endpoints ::
        if endpoints[a].setID == Some(id) then endpoints[a].(setID := None) else endpoints[a];
    }

    /** Retire every changed or removed binding before any is written. */
    method Retire(c: Config)
      requires Consistent()
      modifies this`endpoints
      ensures endpoints == Kept(old(endpoints), c) && Consistent()
    {
      var retired: set<string> := set a | a in endpoints && (a !in c.endpoints || !Bound(endpoints[a], c.endpoints[a]));
      var rest := retired;
      while rest != {}
        invariant rest <= retired && Consistent()
        invariant endpoints == old(endpoints) - (retired - rest)
      {
        var a :| a in rest;
        DeleteEndpoint(a);
        assert retired - (rest - {a}) == (retired - rest) + {a};
        rest := rest - {a};
      }
      assert retired - {} == retired;
    }

    ghost function SetRowAt(id: string): Option<SetRow>
      reads this
    {
      if id in sets then Some(sets[id]) else None
    }

    /** Every configured set has its row. */
    ghost predicate HasSets(c: Config)
      reads this
    {
      forall id :: SetRowOf(c.sets, id).Some? ==> SetRowAt(id) == SetRowOf(c.sets, id)
    }

    method UpsertSets(c: Config)
      requires Consistent()
      modifies this`sets
      ensures Consistent()
      ensures HasSets(c)
    {
      for i := 0 to |c.sets|
        invariant Consistent()
        invariant forall id :: SetRowOf(c.sets[..i], id).Some? ==> SetRowAt(id) == SetRowOf(c.sets[..i], id)
      {
        assert c.sets[..i + 1][..i] == c.sets[..i];
        UpsertSet(c.sets[i].id, SetRow(c.sets[i].anonymize, c.sets[i].settings));
      }
      assert c.sets[..|c.sets|] == c.sets;
    }

    /** One row per configured endpoint. None is refused: at every statement the table's rows are
        bound as the configuration says. */
    method UpsertEndpoints(c: Config, endpointSets: map<string, string>, ghost kept: map<string, EndpointRow>)
        returns (ok: bool)
      requires Consistent() && Valid(c) && endpoints == kept == Kept(kept, c)
      requires forall a :: (if a in endpointSets then endpointSets[a] else "") == SetOf(c.sets, a)
      requires forall a <- c.endpoints :: SetOf(c.sets, a) in sets
      modifies this`endpoints, this`nextRow
      ensures ok && Consistent()
      ensures Partway(c, kept, endpoints, {}, old(nextRow))
    {
      var todo := c.endpoints.Keys;
      assert kept.Keys <= c.endpoints.Keys;
      while todo != {}
        invariant Consistent() && nextRow >= old(nextRow)
        invariant Partway(c, kept, endpoints, todo, old(nextRow))
      {
        var a :| a in todo;
        UpsertPartway(c, kept, endpoints, todo, old(nextRow), a, nextRow);
        ok := UpsertEndpoint(a, c.endpoints[a], if a in endpointSets then endpointSets[a] else "");
        if !ok {
          return;
        }
        todo := todo - {a};
      }
      ok := true;
    }

    /** Remove the sets the configuration does not have; no endpoint refers to one any more. */
    method RemoveSets(c: Config)
      requires Consistent()
      requires forall a <- endpoints :: endpoints[a].setID.Some? ==> SetRowOf(c.sets, endpoints[a].setID.value).Some?
      requires HasSets(c)
      modifies this`sets, this`endpoints
      ensures endpoints == old(endpoints) && Consistent()
      ensures forall id :: SetRowAt(id) == SetRowOf(c.sets, id)
    {
      var removed := set id | id in sets && !(exists s <- c.sets :: s.id == id);
      forall id ensures SetRowOf(c.sets, id).Some? <==> exists s <- c.sets :: s.id == id { SetRowOfIs(c.sets, id); }
      var rest := removed;
      while rest != {}
        invariant rest <= removed && Consistent()
        invariant endpoints == old(endpoints) && sets == old(sets) - (removed - rest)
      {
        var id :| id in rest;
        DeleteSet(id);
        assert endpoints == old(endpoints);
        assert removed - (rest - {id}) == (removed - rest) + {id};
        rest := rest - {id};
      }
      assert removed - {} == removed;
    }

    /** All rows the configuration calls for. */
    method WriteRows(c: Config, endpointSets: map<string, string>) returns (ok: bool)
      requires Consistent() && Valid(c) && endpoints == Kept(endpoints, c)
      requires forall a :: (if a in endpointSets then endpointSets[a] else "") == SetOf(c.sets, a)
      modifies this
      ensures ok && Consistent() && HasSets(c)
      ensures Partway(c, old(endpoints), endpoints, {}, old(nextRow))
    {
      UpsertSets(c);
      SetsExist(c);
      forall a | a in c.endpoints ensures SetOf(c.sets, a) in sets {
        assert SetRowAt(SetOf(c.sets, a)) == SetRowOf(c.sets, SetOf(c.sets, a));
      }
      ok := UpsertEndpoints(c, endpointSets, endpoints);
    }

    /** saveRoutingRows: on a valid configuration nothing is refused, the tables end up as
        configured, and exactly the rows whose binding is unchanged keep their identity. */
    method SaveRoutingRows(c: Config, endpointSets: map<string, string>) returns (ok: bool)
      requires Consistent() && Valid(c)
      requires forall a :: (if a in endpointSets then endpointSets[a] else "") == SetOf(c.sets, a)
      modifies this
      ensures ok && Consistent() && Saved(c, View())
      ensures KeepsRows(old(endpoints), c, endpoints, old(nextRow))
    {
      Retire(c);
      ok := WriteRows(c, endpointSets);
      PartwayDone(c, old(endpoints), endpoints, old(nextRow));
      SetsExist(c);
      RemoveSets(c);
      forall id ensures SetRowOf(c.sets, id) == if id in sets then Some(sets[id]) else None {
        assert SetRowAt(id) == SetRowOf(c.sets, id);
      }
    }

    /** Save: an invalid configuration changes nothing. */
    method Save(c: Config) returns (ok: bool)
      requires Consistent()
      modifies this
      ensures ok <==> Valid(c)
      ensures ok ==> Consistent() && Saved(c, View()) && KeepsRows(old(endpoints), c, endpoints, old(nextRow))
      ensures !ok ==> View() == old(View())
    {
      ok := Validate(c);
      if ok {
        var endpointSets := Membership(c.sets);
        ok := SaveRoutingRows(c, endpointSets);
      }
    }

    lemma SetsExist(c: Config)
      requires Valid(c)
      ensures forall a <- c.endpoints :: SetRowOf(c.sets, SetOf(c.sets, a)).Some?
    {
      forall a | a in c.endpoints
        ensures SetRowOf(c.sets, SetOf(c.sets, a)).Some?
      {
        var s :| s in c.sets && a in s.endpoints;
        var i :| 0 <= i < |c.sets| && c.sets[i] == s;
        SetOfIs(c.endpoints, c.sets, a, i);
        SetRowOfIs(c.sets, s.id);
      }
    }
  }
}
