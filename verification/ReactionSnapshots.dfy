/** Reaction snapshots turned into reaction events (internal/transport/telegram/mtproto_live.go:967-997). */
module ReactionSnapshots {
  import opened Wrappers
  import opened Collections

  datatype Reaction = Reaction(userID: int, emoji: string, date: int)

  type Reactions = map<int, Reaction>

  /** The last item for each user with a positive id. */
  function Latest(snapshot: seq<Reaction>): Reactions {
    if snapshot == [] then map[]
    else
      var item, rest := snapshot[|snapshot| - 1], Latest(snapshot[..|snapshot| - 1]);
      if item.userID > 0 then rest[item.userID := item] else rest
  }

  /** Each reaction is filed under its user. */
  predicate Filed(rs: Reactions) {
    forall id <- rs :: rs[id].userID == id
  }

  lemma {:induction false} LatestIsFiled(snapshot: seq<Reaction>)
    ensures Filed(Latest(snapshot))
  {
    if snapshot != [] {
      LatestIsFiled(snapshot[..|snapshot| - 1]);
    }
  }

  /** The item is the last one of its user. */
  ghost predicate IsLast(snapshot: seq<Reaction>, r: Reaction) {
    exists i | 0 <= i < |snapshot| ::
      snapshot[i] == r && forall j | i < j < |snapshot| :: snapshot[j].userID != r.userID
  }

  /** A snapshot files of each user with a positive id the last item, and nothing else. */
  lemma {:induction false} LatestIff(snapshot: seq<Reaction>, id: int, r: Reaction)
    ensures id in Latest(snapshot) && Latest(snapshot)[id] == r <==> id > 0 && r.userID == id && IsLast(snapshot, r)
    decreases |snapshot|
  {
    if snapshot != [] {
      var last := |snapshot| - 1;
      LatestIff(snapshot[..last], id, r);
      if snapshot[last].userID == id {
        assert IsLast(snapshot, r) && r.userID == id ==> snapshot[last] == r;
        assert snapshot[last] == r ==> IsLast(snapshot, r);
      } else if r.userID == id {
        assert IsLast(snapshot, r) <==> IsLast(snapshot[..last], r) by {
          if i :| 0 <= i < |snapshot| && snapshot[i] == r && forall j | i < j < |snapshot| :: snapshot[j].userID != id {
            assert snapshot[..last][i] == r;
          }
        }
      }
    }
  }

  // ---- The difference -----------------------------------------------------------------------------

  /** The event that takes a user from one snapshot to the next, if one is needed. */
  function EventFor(before: Reactions, next: Reactions, id: int): Option<Reaction> {
    if id in next then
      if id !in before || before[id].emoji != next[id].emoji then Some(next[id]) else None
    else if id in before then Some(before[id].(emoji := "", date := 0))
    else None
  }

  function Changed(before: Reactions, next: Reactions): set<int> {
    set id | id in before.Keys + next.Keys && EventFor(before, next, id).Some?
  }

  /** The events of the given users, in the given order. */
  function EventsOf(before: Reactions, next: Reactions, ids: seq<int>): seq<Reaction>
    requires forall id <- ids :: EventFor(before, next, id).Some?
  {
    if ids == [] then [] else EventsOf(before, next, ids[..|ids| - 1]) + [EventFor(before, next, ids[|ids| - 1]).value]
  }

  /** The events, in ascending order of user id. */
  ghost function Difference(before: Reactions, next: Reactions): seq<Reaction> {
    ListingIsAscending(Changed(before, next));
    EventsOf(before, next, Listing(Changed(before, next)))
  }

  // ---- Applying events ------------------------------------------------------------------------------

  function Emojis(rs: Reactions): map<int, string> {
    map id | id in rs :: rs[id].emoji
  }

  /** An empty emoji withdraws the reaction. */
  function Apply(emojis: map<int, string>, e: Reaction): map<int, string> {
    if e.emoji == "" then emojis - {e.userID} else emojis[e.userID := e.emoji]
  }

  function ApplyAll(emojis: map<int, string>, events: seq<Reaction>): map<int, string> {
    if events == [] then emojis else Apply(ApplyAll(emojis, events[..|events| - 1]), events[|events| - 1])
  }

  function At(emojis: map<int, string>, id: int): Option<string> {
    if id in emojis then Some(emojis[id]) else None
  }

  /** What a user has after the events: what its event says, or what it had. */
  lemma {:induction false} ApplyAt(before: Reactions, next: Reactions, ids: seq<int>, id: int)
    requires Filed(before) && Filed(next) && Ascending(ids) && forall i <- ids :: EventFor(before, next, i).Some?
    ensures At(ApplyAll(Emojis(before), EventsOf(before, next, ids)), id) ==
            if id !in ids then At(Emojis(before), id)
            else var e := EventFor(before, next, id).value; if e.emoji == "" then None else Some(e.emoji)
    decreases |ids|
  {
    if ids != [] {
      var init, last := ids[..|ids| - 1], ids[|ids| - 1];
      assert ids == init + [last];
      assert EventsOf(before, next, ids)[..|EventsOf(before, next, ids)| - 1] == EventsOf(before, next, init);
      ApplyAt(before, next, init, id);
      assert last !in init;
    }
  }

  lemma {:induction false} EventsOfMembers(before: Reactions, next: Reactions, ids: seq<int>, e: Reaction)
    requires forall id <- ids :: EventFor(before, next, id).Some?
    ensures e in EventsOf(before, next, ids) <==> exists id <- ids :: EventFor(before, next, id) == Some(e)
    decreases |ids|
  {
    if ids != [] {
      var init, last := ids[..|ids| - 1], ids[|ids| - 1];
      assert ids == init + [last];
      EventsOfMembers(before, next, init, e);
    }
  }

  /** The events are the new reactions of the users whose emoji is new or has changed, as they are, and of
      the users who have none any more an empty one, undated. */
  lemma DifferenceIff(before: Reactions, next: Reactions, e: Reaction)
    requires Filed(before) && Filed(next)
    ensures e in Difference(before, next) <==>
            var id := e.userID;
            || (id in next && e == next[id] && (id in before ==> before[id].emoji != e.emoji))
            || (id in before && id !in next && e == Reaction(id, "", 0))
  {
    ListingIsAscending(Changed(before, next));
    EventsOfMembers(before, next, Listing(Changed(before, next)), e);
    assert forall id :: EventFor(before, next, id) == Some(e) ==> id == e.userID;
    assert EventFor(before, next, e.userID) == Some(e) ==> e.userID in Listing(Changed(before, next));
  }

  /** Applying the difference to the old snapshot gives the new one, exactly if no user newly has
      an empty emoji; the provider's reactions are never empty. */
  lemma DifferenceConnects(before: Reactions, next: Reactions)
    requires Filed(before) && Filed(next)
    ensures ApplyAll(Emojis(before), Difference(before, next)) == Emojis(next) <==>
            forall id <- next :: next[id].emoji == "" ==> id in before && before[id].emoji == ""
  {
    var ids := Listing(Changed(before, next));
    ListingIsAscending(Changed(before, next));
    var after := ApplyAll(Emojis(before), Difference(before, next));
    forall id
      ensures At(after, id) == At(Emojis(next), id) <==>
              (id in next && next[id].emoji == "" ==> id in before && before[id].emoji == "")
    {
      ApplyAt(before, next, ids, id);
      assert id in ids <==> id in Changed(before, next);
    }
    if forall id :: At(after, id) == At(Emojis(next), id) {
      SameMap(after, Emojis(next));
    }
    if after == Emojis(next) {
      assert forall id :: At(after, id) == At(Emojis(next), id);
    }
  }

  lemma SameMap(a: map<int, string>, b: map<int, string>)
    requires forall id :: At(a, id) == At(b, id)
    ensures a == b
  {
    forall id
      ensures (id in a <==> id in b) && (id in a ==> a[id] == b[id])
    {
      assert At(a, id) == At(b, id);
    }
  }

  lemma {:induction false} EventsOfAt(before: Reactions, next: Reactions, ids: seq<int>, i: nat)
    requires Filed(before) && Filed(next) && (forall id <- ids :: EventFor(before, next, id).Some?) && i < |ids|
    ensures |EventsOf(before, next, ids)| == |ids|
    ensures EventsOf(before, next, ids)[i] == EventFor(before, next, ids[i]).value
    ensures EventsOf(before, next, ids)[i].userID == ids[i]
    decreases |ids|
  {
    if i < |ids| - 1 {
      EventsOfAt(before, next, ids[..|ids| - 1], i);
    } else if |ids| > 1 {
      EventsOfAt(before, next, ids[..|ids| - 1], 0);
    }
  }

  /** User ids strictly increase, and every event changes the snapshot it is applied to. */
  lemma DifferenceIsMinimal(before: Reactions, next: Reactions)
    requires Filed(before) && Filed(next)
    ensures var d := Difference(before, next);
            && (forall i, j :: 0 <= i < j < |d| ==> d[i].userID < d[j].userID)
            && forall i | 0 <= i < |d| ::
                 At(Emojis(before), d[i].userID) != if d[i].userID in next then Some(d[i].emoji) else None
  {
    var ids := Listing(Changed(before, next));
    ListingIsAscending(Changed(before, next));
    forall i | 0 <= i < |ids|
      ensures |Difference(before, next)| == |ids| && Difference(before, next)[i].userID == ids[i]
      ensures EventFor(before, next, ids[i]) == Some(Difference(before, next)[i])
    {
      EventsOfAt(before, next, ids, i);
    }
    assert ids == [] ==> Difference(before, next) == [];
    forall i | 0 <= i < |ids|
      ensures ids[i] in Changed(before, next)
    {
      assert ids[i] in ids;
    }
  }

  // ---- Runs ---------------------------------------------------------------------------------------

  datatype Event = Snapshot(key: string, items: seq<Reaction>) | ClearAccount

  function Next(state: map<string, Reactions>, e: Event): map<string, Reactions> {
    match e
    case Snapshot(key, items) => state[key := Latest(items)]
    case ClearAccount => map[]
  }

  /** The events a snapshot emits: none for the first of its message. */
  ghost function Emitted(state: map<string, Reactions>, e: Event, key: string): seq<Reaction> {
    if e.Snapshot? && e.key == key && key in state then Difference(state[key], Latest(e.items)) else []
  }

  function Run(h: seq<Event>): map<string, Reactions>
    decreases |h|
  {
    if h == [] then map[] else Next(Run(h[..|h| - 1]), h[|h| - 1])
  }

  /** The first snapshot of a message since the account was last cleared. */
  function Baseline(h: seq<Event>, key: string): map<int, string>
    decreases |h|
  {
    if h == [] then map[]
    else
      var before, e := h[..|h| - 1], h[|h| - 1];
      if e.Snapshot? && e.key == key && key !in Run(before) then Emojis(Latest(e.items)) else Baseline(before, key)
  }

  /** Everything emitted for a message since its baseline. */
  ghost function EmittedSince(h: seq<Event>, key: string): seq<Reaction>
    decreases |h|
  {
    if h == [] then []
    else
      var before, e := h[..|h| - 1], h[|h| - 1];
      if e.Snapshot? && e.key == key && key !in Run(before) then []
      else EmittedSince(before, key) + Emitted(Run(before), e, key)
  }

  predicate NoEmptyEmojis(h: seq<Event>) {
    forall e <- h :: e.Snapshot? ==> forall item <- e.items :: item.emoji != ""
  }

  lemma {:induction false} LatestIsListed(items: seq<Reaction>)
    ensures forall id <- Latest(items) :: Latest(items)[id] in items
    decreases |items|
  {
    if items != [] {
      LatestIsListed(items[..|items| - 1]);
    }
  }

  lemma {:induction false} ApplyAllConcat(emojis: map<int, string>, a: seq<Reaction>, b: seq<Reaction>)
    ensures ApplyAll(emojis, a + b) == ApplyAll(ApplyAll(emojis, a), b)
    decreases |b|
  {
    if b == [] {
      assert a + b == a;
    } else {
      assert (a + b)[..|a + b| - 1] == a + b[..|b| - 1];
      ApplyAllConcat(emojis, a, b[..|b| - 1]);
    }
  }

  lemma {:induction false} RunIsFiled(h: seq<Event>)
    ensures forall key <- Run(h) :: Filed(Run(h)[key])
    decreases |h|
  {
    if h != [] {
      RunIsFiled(h[..|h| - 1]);
      if h[|h| - 1].Snapshot? {
        LatestIsFiled(h[|h| - 1].items);
      }
    }
  }

  /** Along any run, a message's baseline with all emitted events applied is its latest
      snapshot. */
  lemma {:induction false} EventsAddUp(h: seq<Event>, key: string)
    requires NoEmptyEmojis(h)
    ensures key in Run(h) ==> ApplyAll(Baseline(h, key), EmittedSince(h, key)) == Emojis(Run(h)[key])
    decreases |h|
  {
    if h != [] {
      var before, e := h[..|h| - 1], h[|h| - 1];
      assert e in h && forall x <- before :: x in h;
      EventsAddUp(before, key);
      if e.Snapshot? && e.key == key && key in Run(before) {
        var earlier, next := Run(before)[key], Latest(e.items);
        RunIsFiled(before);
        LatestIsFiled(e.items);
        LatestIsListed(e.items);
        DifferenceConnects(earlier, next);
        ApplyAllConcat(Baseline(before, key), EmittedSince(before, key), Difference(earlier, next));
      } else {
        assert EmittedSince(before, key) + [] == EmittedSince(before, key);
      }
    }
  }

  class LiveState {
    var reactions: map<string, Reactions>

    constructor ()
      ensures reactions == Run([])
    {
      reactions := map[];
    }

    method ClearAccountState()
      modifies this
      ensures reactions == Next(old(reactions), ClearAccount)
    {
      reactions := map[];
    }

    /** replaceReactionSnapshot; `had` says whether there was a snapshot to compare with. */
    method ReplaceReactionSnapshot(key: string, snapshot: seq<Reaction>) returns (events: seq<Reaction>, had: bool)
      modifies this
      ensures reactions == Next(old(reactions), Snapshot(key, snapshot))
      ensures had <==> key in old(reactions)
      ensures events == Emitted(old(reactions), Snapshot(key, snapshot), key)
    {
      had := key in reactions;
      var before: Reactions := if had then reactions[key] else map[];
      var next: Reactions := map[];
      for i := 0 to |snapshot|
        invariant next == Latest(snapshot[..i])
      {
        assert snapshot[..i + 1][..i] == snapshot[..i];
        if snapshot[i].userID > 0 {
          next := next[snapshot[i].userID := snapshot[i]];
        }
      }
      assert snapshot[..|snapshot|] == snapshot;
      reactions := reactions[key := next];
      if !had {
        return [], false;
      }
      var changed := CollectChanged(before, next);
      var ids := Sorted(changed);
      ListingIsAscending(changed);
      events := BuildEvents(before, next, ids);
    }

    /** The users of new or changed reactions, then of withdrawn ones. */
    method CollectChanged(before: Reactions, next: Reactions) returns (changed: set<int>)
      ensures changed == Changed(before, next)
    {
      changed := set id | id in next && (id !in before || before[id].emoji != next[id].emoji);
      changed := changed + set id | id in before && id !in next;
    }

    method BuildEvents(before: Reactions, next: Reactions, ids: seq<int>) returns (events: seq<Reaction>)
      requires forall id <- ids :: EventFor(before, next, id).Some?
      ensures events == EventsOf(before, next, ids)
    {
      events := [];
      for i := 0 to |ids|
        invariant events == EventsOf(before, next, ids[..i])
      {
        assert ids[..i + 1][..i] == ids[..i] && ids[i] in ids;
        assert forall id <- ids[..i + 1] :: id in ids;
        events := events + [EventFor(before, next, ids[i]).value];
      }
      assert ids[..|ids|] == ids;
    }
  }
}
