/** The routing part of a configuration, what Validate demands of it, and the tables that hold it
    (internal/config/config.go:270-336, 491-500, 596-646; internal/store/schema.sql:79-95). */
module RoutingConfig {
  import opened Basics
  import opened Wrappers

  datatype Endpoint = Endpoint(
    transport: string, connection: string, remote: string, anonymizeIncoming: bool, anonymizeOutgoing: bool)

  datatype SyncSet = SyncSet(id: string, endpoints: seq<string>, anonymize: bool, settings: string)

  datatype Config = Config(endpoints: map<string, Endpoint>, sets: seq<SyncSet>)

  // ---- Validation -----------------------------------------------------------------------------------

  /** strings.TrimSpace */
  function Trim(s: string): string {
    if s == [] then s
    else if Blank(s[0]) then Trim(s[1..])
    else if Blank(s[|s| - 1]) then Trim(s[..|s| - 1])
    else s
  }

  predicate AllBlank(s: string) {
    forall c <- s :: Blank(c)
  }

  /** The part from i to j is all but the white space at both ends. */
  predicate IsTrimmed(s: string, i: nat, j: nat) {
    && i <= j <= |s| && AllBlank(s[..i]) && AllBlank(s[j..])
    && (i < j ==> !Blank(s[i]) && !Blank(s[j - 1]))
  }

  lemma MoreInFront(s: string, i: nat, j: nat)
    requires s != [] && Blank(s[0]) && IsTrimmed(s[1..], i, j)
    ensures IsTrimmed(s, i + 1, j + 1) && s[1..][i..j] == s[i + 1..j + 1]
  {
    assert s[..i + 1] == [s[0]] + s[1..][..i];
    assert s[j + 1..] == s[1..][j..];
  }

  lemma MoreBehind(s: string, i: nat, j: nat)
    requires s != [] && Blank(s[|s| - 1]) && IsTrimmed(s[..|s| - 1], i, j)
    ensures IsTrimmed(s, i, j) && s[..|s| - 1][i..j] == s[i..j]
  {
    assert s[..i] == s[..|s| - 1][..i];
    assert s[j..] == s[..|s| - 1][j..] + [s[|s| - 1]];
  }

  /** Only white space goes, from both ends, and all of it. */
  lemma {:induction false} TrimIs(s: string) returns (i: nat, j: nat)
    ensures IsTrimmed(s, i, j) && Trim(s) == s[i..j]
    decreases |s|
  {
    if s == [] {
      i, j := 0, 0;
    } else if Blank(s[0]) {
      i, j := TrimIs(s[1..]);
      MoreInFront(s, i, j);
      i, j := i + 1, j + 1;
    } else if Blank(s[|s| - 1]) {
      i, j := TrimIs(s[..|s| - 1]);
      MoreBehind(s, i, j);
    } else {
      i, j := 0, |s|;
    }
  }

  /** Aliases, remote ids and set ids are assumed to match their patterns; none is empty. */
  predicate SameTarget(a: Endpoint, b: Endpoint) {
    a.transport == b.transport && Trim(a.remote) == Trim(b.remote)
  }

  predicate DistinctTargets(endpoints: map<string, Endpoint>) {
    forall a <- endpoints, b <- endpoints :: a != b ==> !SameTarget(endpoints[a], endpoints[b])
  }

  predicate NoRepeats(aliases: seq<string>) {
    forall i, j :: 0 <= i < j < |aliases| ==> aliases[i] != aliases[j]
  }

  predicate ValidSet(endpoints: map<string, Endpoint>, s: SyncSet) {
    s.id != "" && |s.endpoints| >= 2 && NoRepeats(s.endpoints) && forall a <- s.endpoints :: a in endpoints
  }

  predicate Disjoint(a: SyncSet, b: SyncSet) {
    forall x <- a.endpoints :: x !in b.endpoints
  }

  /** No two sets share an endpoint. Validate does not compare their ids. */
  predicate ValidSets(endpoints: map<string, Endpoint>, sets: seq<SyncSet>) {
    && (forall s <- sets :: ValidSet(endpoints, s))
    && forall i, j :: 0 <= i < j < |sets| ==> Disjoint(sets[i], sets[j])
  }

  predicate Valid(c: Config) {
    && DistinctTargets(c.endpoints) && ValidSets(c.endpoints, c.sets)
    && forall a <- c.endpoints :: exists s <- c.sets :: a in s.endpoints
  }

  /** No two endpoints use the same remote target. */
  method CheckTargets(endpoints: map<string, Endpoint>) returns (ok: bool)
    ensures ok <==> DistinctTargets(endpoints)
  {
    var remoteTargets: map<(string, string), string> := map[];
    var rest := endpoints.Keys;
    while rest != {}
      invariant rest <= endpoints.Keys
      invariant forall a <- endpoints.Keys - rest ::
          (endpoints[a].transport, Trim(endpoints[a].remote)) in remoteTargets
      invariant forall key <- remoteTargets :: remoteTargets[key] in endpoints && remoteTargets[key] !in rest
                  && key == (endpoints[remoteTargets[key]].transport, Trim(endpoints[remoteTargets[key]].remote))
      invariant forall a <- endpoints.Keys - rest, b <- endpoints.Keys - rest ::
          a != b ==> !SameTarget(endpoints[a], endpoints[b])
    {
      var a :| a in rest;
      var key := (endpoints[a].transport, Trim(endpoints[a].remote));
      if key in remoteTargets {
        assert SameTarget(endpoints[a], endpoints[remoteTargets[key]]) && a != remoteTargets[key];
        return false;
      }
      remoteTargets := remoteTargets[key := a];
      rest := rest - {a};
    }
    assert endpoints.Keys - {} == endpoints.Keys;
    return true;
  }

  function Listed(aliases: seq<string>): set<string> {
    set a | a in aliases
  }

  /** One set: at least two known endpoints, none repeated, none a member of an earlier set. */
  method CheckSet(endpoints: map<string, Endpoint>, s: SyncSet, membership: set<string>) returns (ok: bool)
    ensures ok <==> ValidSet(endpoints, s) && forall a <- s.endpoints :: a !in membership
  {
    if s.id == "" || |s.endpoints| < 2 {
      return false;
    }
    var seen := {};
    for i := 0 to |s.endpoints|
      invariant seen == Listed(s.endpoints[..i]) && NoRepeats(s.endpoints[..i])
      invariant forall a <- s.endpoints[..i] :: a in endpoints && a !in membership
    {
      var a := s.endpoints[i];
      assert a in s.endpoints && s.endpoints[..i + 1] == s.endpoints[..i] + [a];
      if a !in endpoints || a in membership {
        return false;
      }
      if a in seen {
        ghost var j :| 0 <= j < i && s.endpoints[..i][j] == a;
        assert s.endpoints[j] == s.endpoints[i];
        return false;
      }
      assert forall j :: 0 <= j < i ==> s.endpoints[j] in s.endpoints[..i];
      seen := seen + {a};
    }
    assert s.endpoints[..|s.endpoints|] == s.endpoints;
    return true;
  }

  /** The endpoints of all the sets. */
  function AllListed(sets: seq<SyncSet>): set<string> {
    if sets == [] then {} else AllListed(sets[..|sets| - 1]) + Listed(sets[|sets| - 1].endpoints)
  }

  lemma {:induction false} AllListedIs(sets: seq<SyncSet>, a: string)
    ensures a in AllListed(sets) <==> exists s <- sets :: a in s.endpoints
  {
    if sets != [] {
      AllListedIs(sets[..|sets| - 1], a);
      assert sets == sets[..|sets| - 1] + [sets[|sets| - 1]];
    }
  }

  /** A set after valid ones keeps them valid exactly if it is valid itself and shares no endpoint
      with them. */
  lemma OneMoreSet(endpoints: map<string, Endpoint>, sets: seq<SyncSet>, s: SyncSet)
    requires ValidSets(endpoints, sets)
    ensures ValidSets(endpoints, sets + [s]) <==>
            ValidSet(endpoints, s) && forall a <- s.endpoints :: a !in AllListed(sets)
  {
    var all := sets + [s];
    assert all[|sets|] == s && s in all;
    forall a ensures a in AllListed(sets) <==> exists x <- sets :: a in x.endpoints { AllListedIs(sets, a); }
    if ValidSets(endpoints, all) {
      forall x | x in sets
        ensures Disjoint(x, s)
      {
        var i :| 0 <= i < |sets| && sets[i] == x;
        assert Disjoint(all[i], all[|sets|]);
      }
    }
    if ValidSet(endpoints, s) && forall a <- s.endpoints :: a !in AllListed(sets) {
      forall i | 0 <= i < |sets|
        ensures Disjoint(sets[i], s)
      {
        assert sets[i] in sets;
      }
    }
  }

  lemma {:induction false} PrefixValid(endpoints: map<string, Endpoint>, sets: seq<SyncSet>, n: nat)
    requires n <= |sets| && ValidSets(endpoints, sets)
    ensures ValidSets(endpoints, sets[..n])
  {
    assert forall s <- sets[..n] :: s in sets;
  }

  /** What is left to check once targets and sets are valid. */
  lemma FullMembership(c: Config)
    requires DistinctTargets(c.endpoints) && ValidSets(c.endpoints, c.sets)
    ensures Valid(c) <==> forall a <- c.endpoints :: a in AllListed(c.sets)
  {
    forall a ensures a in AllListed(c.sets) <==> exists s <- c.sets :: a in s.endpoints {
      AllListedIs(c.sets, a);
    }
  }

  /** The next set keeps the sets so far valid, or no configuration with it is valid. */
  lemma NextSet(endpoints: map<string, Endpoint>, sets: seq<SyncSet>, i: nat)
    requires i < |sets| && ValidSets(endpoints, sets[..i])
    ensures AllListed(sets[..i + 1]) == AllListed(sets[..i]) + Listed(sets[i].endpoints)
    ensures if ValidSet(endpoints, sets[i]) && forall a <- sets[i].endpoints :: a !in AllListed(sets[..i])
            then ValidSets(endpoints, sets[..i + 1])
            else !ValidSets(endpoints, sets)
  {
    assert sets[..i + 1] == sets[..i] + [sets[i]];
    OneMoreSet(endpoints, sets[..i], sets[i]);
    if ValidSets(endpoints, sets) {
      PrefixValid(endpoints, sets, i + 1);
    }
  }

  /** All the sets, in order. */
  method CheckSets(endpoints: map<string, Endpoint>, sets: seq<SyncSet>) returns (ok: bool, membership: set<string>)
    ensures ok <==> ValidSets(endpoints, sets)
    ensures ok ==> membership == AllListed(sets)
  {
    membership := {};
    for i := 0 to |sets|
      invariant membership == AllListed(sets[..i]) && ValidSets(endpoints, sets[..i])
    {
      NextSet(endpoints, sets, i);
      ok := CheckSet(endpoints, sets[i], membership);
      if !ok {
        return;
      }
      membership := membership + Listed(sets[i].endpoints);
    }
    assert sets[..|sets|] == sets;
    ok := true;
  }

  /** Validate, as far as routing goes. */
  method Validate(c: Config) returns (ok: bool)
    ensures ok <==> Valid(c)
  {
    ok := CheckTargets(c.endpoints);
    if !ok {
      return;
    }
    var membership;
    ok, membership := CheckSets(c.endpoints, c.sets);
    if !ok {
      return;
    }
    FullMembership(c);
    ok := forall a <- c.endpoints :: a in membership;
  }

  // ---- Membership -------------------------------------------------------------------------------------

  /** Save's map from endpoint to set: the last set that lists it; the empty id if none does. */
  function SetOf(sets: seq<SyncSet>, alias: string): string {
    if sets == [] then ""
    else if alias in sets[|sets| - 1].endpoints then sets[|sets| - 1].id
    else SetOf(sets[..|sets| - 1], alias)
  }

  /** In a valid configuration that is the only set that lists it. */
  lemma {:induction false} SetOfIs(endpoints: map<string, Endpoint>, sets: seq<SyncSet>, alias: string, i: nat)
    requires ValidSets(endpoints, sets) && i < |sets| && alias in sets[i].endpoints
    ensures SetOf(sets, alias) == sets[i].id
    decreases |sets|
  {
    var last := |sets| - 1;
    if i < last {
      assert Disjoint(sets[i], sets[last]);
      assert forall s <- sets[..last] :: s in sets;
      SetOfIs(endpoints, sets[..last], alias, i);
    }
  }

  lemma {:induction false} SetOfListed(sets: seq<SyncSet>, alias: string)
    requires SetOf(sets, alias) != ""
    ensures exists s <- sets :: s.id == SetOf(sets, alias) && alias in s.endpoints
  {
    var last := |sets| - 1;
    assert sets[last] in sets;
    if alias !in sets[last].endpoints {
      SetOfListed(sets[..last], alias);
      var s :| s in sets[..last] && s.id == SetOf(sets, alias) && alias in s.endpoints;
      assert s in sets;
    }
  }

  method Membership(sets: seq<SyncSet>) returns (m: map<string, string>)
    ensures forall a :: (if a in m then m[a] else "") == SetOf(sets, a)
  {
    m := map[];
    for i := 0 to |sets|
      invariant forall a :: (if a in m then m[a] else "") == SetOf(sets[..i], a)
    {
      ghost var before := m;
      var aliases := sets[i].endpoints;
      for j := 0 to |aliases|
        invariant forall a :: a in m <==> a in before || a in aliases[..j]
        invariant forall a <- m :: m[a] == if a in aliases[..j] then sets[i].id else before[a]
      {
        assert aliases[..j + 1] == aliases[..j] + [aliases[j]];
        m := m[aliases[j] := sets[i].id];
      }
      assert aliases[..|aliases|] == aliases;
      assert sets[..i + 1][..i] == sets[..i];
    }
    assert sets[..|sets|] == sets;
  }

  // ---- The tables -------------------------------------------------------------------------------------

  /** `row` is the row's identity, which durable state refers to. */
  datatype EndpointRow = EndpointRow(
    row: nat, transport: string, connection: string, remote: string, setID: Option<string>,
    anonymizeIncoming: bool, anonymizeOutgoing: bool)

  datatype SetRow = SetRow(anonymize: bool, settings: string)

  datatype Db = Db(endpoints: map<string, EndpointRow>, sets: map<string, SetRow>)

  /** UNIQUE (transport, remote_id) */
  predicate UniqueTargets(rows: map<string, EndpointRow>) {
    forall a <- rows, b <- rows :: a != b ==> rows[a].transport != rows[b].transport || rows[a].remote != rows[b].remote
  }

  /** The row has the provider target and account of the endpoint. */
  predicate Bound(row: EndpointRow, ep: Endpoint) {
    row.transport == ep.transport && row.connection == ep.connection && row.remote == ep.remote
  }

  /** The row holds everything the configuration says of the endpoint. */
  predicate Holds(row: EndpointRow, ep: Endpoint, setID: string) {
    && Bound(row, ep) && row.setID == Some(setID)
    && row.anonymizeIncoming == ep.anonymizeIncoming && row.anonymizeOutgoing == ep.anonymizeOutgoing
  }

  /** The endpoint table after a save. */
  predicate EndpointsSaved(c: Config, rows: map<string, EndpointRow>) {
    && rows.Keys == c.endpoints.Keys
    && forall a <- rows :: Holds(rows[a], c.endpoints[a], SetOf(c.sets, a))
  }

  // ---- Reading back -------------------------------------------------------------------------------------

  /** What LoadRaw builds: the endpoints, and for each set row its members. */
  datatype Loaded = Loaded(endpoints: map<string, Endpoint>, members: map<string, set<string>>)

  function MembersOf(rows: map<string, EndpointRow>, id: string): set<string> {
    set a | a in rows && rows[a].setID == Some(id) && id != ""
  }

  function Load(db: Db): Loaded {
    Loaded(
      map a | a in db.endpoints ::
        Endpoint(db.endpoints[a].transport, db.endpoints[a].connection, db.endpoints[a].remote,
                 db.endpoints[a].anonymizeIncoming, db.endpoints[a].anonymizeOutgoing),
      map id | id in db.sets :: MembersOf(db.endpoints, id))
  }

  predicate DistinctIDs(sets: seq<SyncSet>) {
    forall i, j :: 0 <= i < j < |sets| ==> sets[i].id != sets[j].id
  }

  /** The row the last set of that id leaves. */
  function SetRowOf(sets: seq<SyncSet>, id: string): Option<SetRow> {
    if sets == [] then None
    else
      var s := sets[|sets| - 1];
      if s.id == id then Some(SetRow(s.anonymize, s.settings)) else SetRowOf(sets[..|sets| - 1], id)
  }

  lemma {:induction false} SetRowOfIs(sets: seq<SyncSet>, id: string)
    ensures SetRowOf(sets, id).Some? <==> exists s <- sets :: s.id == id
    ensures forall s <- sets :: s.id == id && DistinctIDs(sets) ==>
              SetRowOf(sets, id) == Some(SetRow(s.anonymize, s.settings))
  {
    if sets != [] {
      var init, last := sets[..|sets| - 1], sets[|sets| - 1];
      assert sets == init + [last];
      SetRowOfIs(init, id);
      if last.id == id && DistinctIDs(sets) {
        forall s | s in sets && s.id == id
          ensures s == last
        {
          var i :| 0 <= i < |sets| && sets[i] == s;
        }
      }
    }
  }

  ghost predicate Saved(c: Config, db: Db) {
    && EndpointsSaved(c, db.endpoints)
    && forall id :: SetRowOf(c.sets, id) == if id in db.sets then Some(db.sets[id]) else None
  }

  lemma EndpointsReadBack(c: Config, db: Db)
    requires EndpointsSaved(c, db.endpoints)
    ensures Load(db).endpoints == c.endpoints
  {
    forall a
      ensures a in Load(db).endpoints <==> a in c.endpoints
      ensures a in c.endpoints ==> Load(db).endpoints[a] == c.endpoints[a]
    {
      assert a in db.endpoints.Keys <==> a in c.endpoints.Keys;
    }
  }

  /** Some set of that id lists the alias. */
  ghost predicate Lists(c: Config, id: string, a: string) {
    exists s <- c.sets :: s.id == id && a in s.endpoints
  }

  lemma MemberIsListed(c: Config, db: Db, id: string, a: string)
    requires EndpointsSaved(c, db.endpoints) && a in MembersOf(db.endpoints, id)
    ensures Lists(c, id, a)
  {
    SetOfListed(c.sets, a);
  }

  lemma ListedIsMember(c: Config, db: Db, i: nat, a: string)
    requires Valid(c) && EndpointsSaved(c, db.endpoints) && i < |c.sets| && a in c.sets[i].endpoints
    ensures a in MembersOf(db.endpoints, c.sets[i].id)
  {
    SetOfIs(c.endpoints, c.sets, a, i);
    assert ValidSet(c.endpoints, c.sets[i]);
    assert a in db.endpoints.Keys;
  }

  lemma ListsIsMember(c: Config, db: Db, id: string, a: string)
    requires Valid(c) && EndpointsSaved(c, db.endpoints) && Lists(c, id, a)
    ensures a in MembersOf(db.endpoints, id)
  {
    var s :| s in c.sets && s.id == id && a in s.endpoints;
    var i :| 0 <= i < |c.sets| && c.sets[i] == s;
    ListedIsMember(c, db, i, a);
  }

  lemma MembersReadBack(c: Config, db: Db, id: string)
    requires Valid(c) && EndpointsSaved(c, db.endpoints)
    ensures forall a :: a in MembersOf(db.endpoints, id) <==> Lists(c, id, a)
  {
    forall a | a in MembersOf(db.endpoints, id) ensures Lists(c, id, a) { MemberIsListed(c, db, id, a); }
    forall a | Lists(c, id, a) ensures a in MembersOf(db.endpoints, id) { ListsIsMember(c, db, id, a); }
  }

  /** A saved configuration reads back with its endpoints, and each set id with exactly the
      endpoints of the sets of that id. */
  lemma ReadsBack(c: Config, db: Db, id: string)
    requires Valid(c) && Saved(c, db)
    ensures Load(db).endpoints == c.endpoints
    ensures id in Load(db).members <==> exists s <- c.sets :: s.id == id
    ensures id in Load(db).members ==>
              forall a :: a in Load(db).members[id] <==> Lists(c, id, a)
  {
    EndpointsReadBack(c, db);
    SetRowOfIs(c.sets, id);
    MembersReadBack(c, db, id);
  }

  /** The set reads back as it was: its row, and exactly its own members. */
  ghost predicate ReadBack(s: SyncSet, db: Db) {
    && s.id in db.sets && db.sets[s.id] == SetRow(s.anonymize, s.settings)
    && forall a :: a in Load(db).members[s.id] <==> a in s.endpoints
  }

  /** Every set of the configuration reads back as it was, if and only if no two sets have the same
      id; sets with the same id pass validation and come back merged. */
  lemma SetsReadBackIff(c: Config, db: Db)
    requires Valid(c) && Saved(c, db)
    ensures (forall s <- c.sets :: ReadBack(s, db)) <==> DistinctIDs(c.sets)
  {
    if DistinctIDs(c.sets) {
      forall s | s in c.sets
        ensures ReadBack(s, db)
      {
        ReadsBack(c, db, s.id);
        SetRowOfIs(c.sets, s.id);
        forall x | x in c.sets && x.id == s.id ensures x == s {}
      }
    } else {
      var i, j :| 0 <= i < j < |c.sets| && c.sets[i].id == c.sets[j].id;
      var s, t := c.sets[i], c.sets[j];
      ReadsBack(c, db, s.id);
      assert ValidSet(c.endpoints, t) && Disjoint(s, t);
      var a := t.endpoints[0];
      assert t in c.sets && a in t.endpoints && s in c.sets;
      assert a !in s.endpoints;
      assert a in Load(db).members[s.id];
    }
  }
}
