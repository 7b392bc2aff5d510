/** Telegram mention entities replaced by privacy-safe tokens
    (internal/transport/telegram/normalizer.go:364-429). */
module Mentions {
  import opened Basics
  import opened Wrappers
  import opened Splice
  import opened Utf16

  datatype User = User(id: int, displayName: seq<Rune>)

  datatype EntityType = TextMention | AtMention | Other

  /** Offset and length count UTF-16 units. */
  datatype Entity = Entity(kind: EntityType, offset: int, length: int, user: Option<User>)

  datatype Mention = Mention(remoteID: seq<Rune>, name: seq<Rune>)

  datatype Replacement = Replacement(start: int, end: int, text: seq<Rune>)

  /** "@" and "@mention" */
  const AT: seq<Rune> := [64]
  const GENERIC: seq<Rune> := [64, 109, 101, 110, 116, 105, 111, 110]

  /** int64 addition wraps. */
  function Wrap(n: int): int {
    (n + 0x8000_0000_0000_0000) % 0x1_0000_0000_0000_0000 - 0x8000_0000_0000_0000
  }

  /** The sum of two int64 values, which wraps at most once. */
  lemma WrapIs(a: int, b: int)
    requires -0x8000_0000_0000_0000 <= a < 0x8000_0000_0000_0000 && -0x8000_0000_0000_0000 <= b < 0x8000_0000_0000_0000
    ensures Wrap(a + b) ==
            if a + b >= 0x8000_0000_0000_0000 then a + b - 0x1_0000_0000_0000_0000
            else if a + b < -0x8000_0000_0000_0000 then a + b + 0x1_0000_0000_0000_0000
            else a + b
  {
  }

  /** The opaque actor id of a user; the empty id means there is none. */
  type Hasher = int -> seq<Rune>

  predicate InRange(e: Entity, units: nat) {
    e.offset >= 0 && e.length > 0 && Wrap(e.offset + e.length) <= units
  }

  function OpaqueID(e: Entity, hasher: Hasher): seq<Rune> {
    if e.user.None? || e.user.value.id == 0 then [] else hasher(e.user.value.id)
  }

  predicate Mentioned(e: Entity, units: nat, hasher: Hasher) {
    InRange(e, units) && e.kind.TextMention? && OpaqueID(e, hasher) != []
  }

  /** What an entity's range is replaced by, if it is. */
  function Wanted(e: Entity, units: nat, hasher: Hasher): Option<Replacement> {
    var end := Wrap(e.offset + e.length);
    if Mentioned(e, units, hasher) then Some(Replacement(e.offset, end, AT + OpaqueID(e, hasher)))
    else if InRange(e, units) && e.kind.AtMention? then Some(Replacement(e.offset, end, GENERIC))
    else None
  }

  function Replacements(entities: seq<Entity>, units: nat, hasher: Hasher): seq<Replacement> {
    if entities == [] then []
    else
      var last := |entities| - 1;
      Replacements(entities[..last], units, hasher) +
      match Wanted(entities[last], units, hasher) case Some(r) => [r] case None => []
  }

  /** The mentioned actors, in entity order. */
  function MentionList(entities: seq<Entity>, units: nat, hasher: Hasher): seq<Mention> {
    if entities == [] then []
    else
      var last := |entities| - 1;
      var e, rest := entities[last], MentionList(entities[..last], units, hasher);
      if Mentioned(e, units, hasher) then
        var id, name := OpaqueID(e, hasher), e.user.value.displayName;
        rest + [Mention(id, if name == [] then id else name)]
      else rest
  }

  // ---- sort.SliceStable by descending start -------------------------------------------------

  function Insert(sorted: seq<Replacement>, r: Replacement): seq<Replacement> {
    if sorted == [] then [r]
    else if sorted[0].start < r.start then [r] + sorted
    else [sorted[0]] + Insert(sorted[1..], r)
  }

  /** Descending by start; equal starts keep their order. */
  function Sorted(rs: seq<Replacement>): seq<Replacement> {
    if rs == [] then [] else Insert(Sorted(rs[..|rs| - 1]), rs[|rs| - 1])
  }

  predicate Descending(rs: seq<Replacement>) {
    forall i, j :: 0 <= i < j < |rs| ==> rs[i].start >= rs[j].start
  }

  lemma SameMembers(rs: seq<Replacement>, rs': seq<Replacement>)
    requires multiset(rs) == multiset(rs')
    ensures forall r :: r in rs <==> r in rs'
  {
    assert forall r :: r in rs <==> r in multiset(rs);
    assert forall r :: r in rs' <==> r in multiset(rs');
  }

  lemma {:induction false} InsertAdds(sorted: seq<Replacement>, r: Replacement)
    ensures multiset(Insert(sorted, r)) == multiset(sorted) + multiset{r}
  {
    if sorted == [] {
    } else if sorted[0].start < r.start {
      assert multiset([r] + sorted) == multiset{r} + multiset(sorted);
    } else {
      var rest := Insert(sorted[1..], r);
      InsertAdds(sorted[1..], r);
      assert sorted == [sorted[0]] + sorted[1..];
      assert multiset([sorted[0]] + rest) == multiset{sorted[0]} + multiset(rest);
    }
  }

  lemma {:induction false} InsertBounded(sorted: seq<Replacement>, r: Replacement, bound: int)
    requires r.start <= bound && forall i :: 0 <= i < |sorted| ==> sorted[i].start <= bound
    ensures forall i :: 0 <= i < |Insert(sorted, r)| ==> Insert(sorted, r)[i].start <= bound
  {
    if sorted != [] && sorted[0].start >= r.start {
      InsertBounded(sorted[1..], r, bound);
    }
  }

  lemma {:induction false} InsertDescends(sorted: seq<Replacement>, r: Replacement)
    requires Descending(sorted)
    ensures Descending(Insert(sorted, r))
  {
    if sorted != [] && sorted[0].start >= r.start {
      InsertDescends(sorted[1..], r);
      InsertBounded(sorted[1..], r, sorted[0].start);
    }
  }

  lemma {:induction false} SortedSorts(rs: seq<Replacement>)
    ensures multiset(Sorted(rs)) == multiset(rs) && Descending(Sorted(rs))
  {
    if rs != [] {
      var init, last := rs[..|rs| - 1], rs[|rs| - 1];
      SortedSorts(init);
      InsertAdds(Sorted(init), last);
      InsertDescends(Sorted(init), last);
      assert rs == init + [last];
    }
  }

  function StartingAt(rs: seq<Replacement>, start: int): seq<Replacement> {
    if rs == [] then [] else (if rs[0].start == start then [rs[0]] else []) + StartingAt(rs[1..], start)
  }

  lemma StartingAtCons(r: Replacement, rs: seq<Replacement>, start: int)
    ensures StartingAt([r] + rs, start) == (if r.start == start then [r] else []) + StartingAt(rs, start)
  {
    assert ([r] + rs)[1..] == rs;
  }

  lemma {:induction false} InsertIsLast(sorted: seq<Replacement>, r: Replacement, start: int)
    requires Descending(sorted)
    ensures StartingAt(Insert(sorted, r), start) == StartingAt(sorted, start) + if r.start == start then [r] else []
  {
    if sorted == [] {
      StartingAtCons(r, [], start);
    } else if sorted[0].start < r.start {
      StartingAtCons(r, sorted, start);
      if r.start == start { NoneStart(sorted, start); }
    } else {
      InsertIsLast(sorted[1..], r, start);
      StartingAtCons(sorted[0], Insert(sorted[1..], r), start);
    }
  }

  lemma {:induction false} NoneStart(rs: seq<Replacement>, start: int)
    requires forall r <- rs :: r.start != start
    ensures StartingAt(rs, start) == []
  {
    if rs != [] { NoneStart(rs[1..], start); }
  }

  lemma {:induction false} StartingAtSnoc(rs: seq<Replacement>, r: Replacement, start: int)
    ensures StartingAt(rs + [r], start) == StartingAt(rs, start) + if r.start == start then [r] else []
  {
    if rs != [] {
      StartingAtSnoc(rs[1..], r, start);
      assert (rs + [r])[1..] == rs[1..] + [r];
    }
  }

  /** Replacements that start at the same place keep their order. */
  lemma {:induction false} SortIsStable(rs: seq<Replacement>, start: int)
    ensures StartingAt(Sorted(rs), start) == StartingAt(rs, start)
  {
    if rs != [] {
      var init, last := rs[..|rs| - 1], rs[|rs| - 1];
      SortIsStable(init, start);
      OneMoreIsStable(init, last, start);
      assert rs == init + [last];
    }
  }

  lemma OneMoreIsStable(init: seq<Replacement>, last: Replacement, start: int)
    requires StartingAt(Sorted(init), start) == StartingAt(init, start)
    ensures StartingAt(Insert(Sorted(init), last), start) == StartingAt(init + [last], start)
  {
    SortedSorts(init);
    InsertIsLast(Sorted(init), last, start);
    StartingAtSnoc(init, last, start);
  }

  // ---- The splice loop ----------------------------------------------------------------------

  /** One replacement after another; None is a slice out of range, which panics. */
  function ApplyAll(units: seq<Unit>, rs: seq<Replacement>): Option<seq<Unit>>
    decreases |rs|
  {
    if rs == [] then Some(units)
    else if !(0 <= rs[0].start <= |units| && 0 <= rs[0].end <= |units|) then None
    else ApplyAll(units[..rs[0].start] + Encode(rs[0].text) + units[rs[0].end..], rs[1..])
  }

  /** The replacements in the order the loop makes them. */
  function Planned(content: seq<Rune>, entities: seq<Entity>, hasher: Hasher): seq<Replacement> {
    Sorted(Replacements(entities, |Encode(content)|, hasher))
  }

  /** The text and the mentions, or a panic. A nil hasher is None. */
  function Normalized(content: seq<Rune>, entities: seq<Entity>, hasher: Option<Hasher>)
    : Option<(seq<Rune>, seq<Mention>)>
  {
    if |entities| == 0 || hasher.None? then Some((content, []))
    else match ApplyAll(Encode(content), Planned(content, entities, hasher.value))
      case Some(u) => Some((Decode(u), MentionList(entities, |Encode(content)|, hasher.value)))
      case None => None
  }

  /** normalizeTelegramMentions; None is a panic. */
  method NormalizeMentions(content: seq<Rune>, entities: seq<Entity>, hasher: Option<Hasher>)
    returns (result: Option<(seq<Rune>, seq<Mention>)>)
    ensures result == Normalized(content, entities, hasher)
  {
    if |entities| == 0 || hasher.None? {
      return Some((content, []));
    }
    var units := Encode(content);
    var replacements, mentions := Collect(entities, |units|, hasher.value);
    var sorted := Sorted(replacements);
    ghost var goal := ApplyAll(units, sorted);
    for i := 0 to |sorted|
      invariant ApplyAll(units, sorted[i..]) == goal
    {
      var r := sorted[i];
      assert sorted[i..][1..] == sorted[i + 1..];
      if !(0 <= r.start <= |units| && 0 <= r.end <= |units|) {
        return None;
      }
      units := units[..r.start] + Encode(r.text) + units[r.end..];
    }
    return Some((Decode(units), mentions));
  }

  method Collect(entities: seq<Entity>, units: nat, hasher: Hasher)
    returns (replacements: seq<Replacement>, mentions: seq<Mention>)
    ensures replacements == Replacements(entities, units, hasher)
    ensures mentions == MentionList(entities, units, hasher)
  {
    replacements, mentions := [], [];
    for i := 0 to |entities|
      invariant replacements == Replacements(entities[..i], units, hasher)
      invariant mentions == MentionList(entities[..i], units, hasher)
    {
      var e := entities[i];
      assert entities[..i + 1][..i] == entities[..i];
      var end := Wrap(e.offset + e.length);
      if e.offset < 0 || e.length <= 0 || end > units {
        continue;
      }
      match e.kind
      case TextMention =>
        if e.user.None? || e.user.value.id == 0 {
          continue;
        }
        var id := hasher(e.user.value.id);
        if id == [] {
          continue;
        }
        var name := if e.user.value.displayName != [] then e.user.value.displayName else id;
        mentions := mentions + [Mention(id, name)];
        replacements := replacements + [Replacement(e.offset, end, AT + id)];
      case AtMention =>
        replacements := replacements + [Replacement(e.offset, end, GENERIC)];
      case Other =>
    }
    assert entities[..|entities|] == entities;
  }

  // ---- What is shown of an entity -------------------------------------------------------------------

  /** An entity within the text is replaced by "@" and the hash of its user, or, for a bare user name, by
      "@mention". */
  predicate Shows(e: Entity, units: nat, hasher: Hasher, r: Replacement) {
    && e.offset >= 0 && e.length > 0 && r.start == e.offset && r.end == Wrap(e.offset + e.length) <= units
    && match e.kind
       case TextMention => IsNamed(e, hasher) && r.text == [64] + hasher(e.user.value.id)
       case AtMention => r.text == [64, 109, 101, 110, 116, 105, 111, 110]
       case Other => false
  }

  predicate IsNamed(e: Entity, hasher: Hasher) {
    e.user.Some? && e.user.value.id != 0 && hasher(e.user.value.id) != []
  }

  lemma WantedShows(e: Entity, units: nat, hasher: Hasher, r: Replacement)
    ensures Wanted(e, units, hasher) == Some(r) <==> Shows(e, units, hasher, r)
  {
  }

  lemma {:induction false} ReplacementsIff(entities: seq<Entity>, units: nat, hasher: Hasher, r: Replacement)
    ensures r in Replacements(entities, units, hasher) <==> exists e <- entities :: Shows(e, units, hasher, r)
  {
    if entities != [] {
      var init, last := entities[..|entities| - 1], entities[|entities| - 1];
      ReplacementsIff(init, units, hasher, r);
      WantedShows(last, units, hasher, r);
      assert entities == init + [last] && last in entities;
      assert r in Replacements(entities, units, hasher) <==>
             r in Replacements(init, units, hasher) || Wanted(last, units, hasher) == Some(r);
      if r in Replacements(init, units, hasher) {
        var e :| e in init && Shows(e, units, hasher, r);
        assert e in entities;
      }
    }
  }

  /** The text mentions that are replaced, in order. */
  function TextMentions(entities: seq<Entity>, units: nat, hasher: Hasher): seq<Entity> {
    if entities == [] then []
    else
      var last := |entities| - 1;
      var e := entities[last];
      TextMentions(entities[..last], units, hasher)
      + if e.kind.TextMention? && InRange(e, units) && IsNamed(e, hasher) then [e] else []
  }

  /** The list names each of them by the hash of its user, with its display name, or the hash again if it
      has none. */
  lemma {:induction false} MentionListIs(entities: seq<Entity>, units: nat, hasher: Hasher)
    ensures var list, named := MentionList(entities, units, hasher), TextMentions(entities, units, hasher);
            && |list| == |named|
            && forall i | 0 <= i < |list| ::
                 && named[i].user.Some? && list[i].remoteID == hasher(named[i].user.value.id)
                 && list[i].name ==
                    if named[i].user.value.displayName != [] then named[i].user.value.displayName else list[i].remoteID
    decreases |entities|
  {
    if entities != [] { MentionListIs(entities[..|entities| - 1], units, hasher); }
  }

  /** Two entities that differ at most in who is mentioned and how the user is called, but not in the hash. */
  predicate SameHash(a: Entity, b: Entity, hasher: Hasher) {
    && a.kind == b.kind && a.offset == b.offset && a.length == b.length && (IsNamed(a, hasher) <==> IsNamed(b, hasher))
    && (IsNamed(a, hasher) ==> hasher(a.user.value.id) == hasher(b.user.value.id))
  }

  predicate Unidentified(list: seq<Mention>, list': seq<Mention>) {
    |list| == |list'| && forall i | 0 <= i < |list| :: list[i].remoteID == list'[i].remoteID
  }

  lemma SameWanted(a: Entity, b: Entity, units: nat, hasher: Hasher)
    requires SameHash(a, b, hasher)
    ensures Wanted(a, units, hasher) == Wanted(b, units, hasher)
    ensures Mentioned(a, units, hasher) == Mentioned(b, units, hasher)
    ensures Mentioned(a, units, hasher) ==> OpaqueID(a, hasher) == OpaqueID(b, hasher)
  {
  }

  lemma {:induction false} SameReplacements(entities: seq<Entity>, entities': seq<Entity>, units: nat, hasher: Hasher)
    requires |entities| == |entities'|
    requires forall i | 0 <= i < |entities| :: SameHash(entities[i], entities'[i], hasher)
    ensures Replacements(entities, units, hasher) == Replacements(entities', units, hasher)
    ensures Unidentified(MentionList(entities, units, hasher), MentionList(entities', units, hasher))
    decreases |entities|
  {
    if entities != [] {
      var last := |entities| - 1;
      SameReplacements(entities[..last], entities'[..last], units, hasher);
      SameWanted(entities[last], entities'[last], units, hasher);
    }
  }

  /** Of a user only the hash shows: neither the id nor the display name has any influence on the text, on
      whether there is one, or on the ids that are handed on. */
  lemma OnlyHashesShow(content: seq<Rune>, entities: seq<Entity>, entities': seq<Entity>, hasher: Hasher)
    requires |entities| == |entities'|
    requires forall i | 0 <= i < |entities| :: SameHash(entities[i], entities'[i], hasher)
    ensures var a, b := Normalized(content, entities, Some(hasher)), Normalized(content, entities', Some(hasher));
            && a.Some? == b.Some?
            && (a.Some? ==> a.value.0 == b.value.0 && Unidentified(a.value.1, b.value.1))
  {
    SameReplacements(entities, entities', |Encode(content)|, hasher);
  }

  // ---- What the loop means ------------------------------------------------------------------

  /** The replaced ranges are nonempty, within the text and pairwise disjoint. */
  predicate Disjoint(rs: seq<Replacement>, units: nat) {
    && (forall r <- rs :: 0 <= r.start < r.end <= units)
    && forall i, j :: 0 <= i < j < |rs| ==> rs[i].end <= rs[j].start || rs[j].end <= rs[i].start
  }

  function AsEdit(r: Replacement): Edit<Unit>
    requires 0 <= r.start && 0 <= r.end
  {
    Edit(r.start, r.end, Encode(r.text))
  }

  /** Replacements listed from the right, as edits listed from the left. */
  function AsEdits(rs: seq<Replacement>): seq<Edit<Unit>>
    requires forall r <- rs :: 0 <= r.start && 0 <= r.end
  {
    if rs == [] then [] else AsEdits(rs[1..]) + [AsEdit(rs[0])]
  }

  lemma EndBefore(rs: seq<Replacement>, units: nat)
    requires Disjoint(rs, units) && Descending(rs) && rs != []
    ensures Disjoint(rs[1..], units) && Descending(rs[1..])
    ensures forall x <- rs[1..] :: x.end <= rs[0].start
  {
    var rest := rs[1..];
    assert forall x <- rest :: x in rs;
    forall i | 0 <= i < |rest|
      ensures rest[i].end <= rs[0].start
    {
      assert rest[i] == rs[i + 1] && rest[i] in rs;
      assert rs[0].end <= rs[i + 1].start || rs[i + 1].end <= rs[0].start;
    }
  }

  /** The right-to-left loop is simultaneous replacement. */
  lemma {:induction false} LoopSplices(units: seq<Unit>, rs: seq<Replacement>)
    requires Disjoint(rs, |units|) && Descending(rs)
    ensures Ordered(AsEdits(rs), 0, if rs == [] then 0 else rs[0].end)
    ensures Ordered(AsEdits(rs), 0, |units|)
    ensures ApplyAll(units, rs) == Some(Spliced(units, AsEdits(rs)))
    decreases |rs|
  {
    if rs != [] {
      var r, rest := rs[0], rs[1..];
      assert r in rs;
      var edited := units[..r.start] + Encode(r.text) + units[r.end..];
      EndBefore(rs, |units|);
      LoopSplices(edited, rest);
      OrderedWiden(AsEdits(rest), 0, if rest == [] then 0 else rest[0].end, r.start);
      SplicedLast(units, 0, AsEdits(rest), AsEdit(r));
      SplicedLast(units[..r.end], 0, AsEdits(rest), AsEdit(r));
    }
  }

  predicate IsEditOf(e: Edit<Unit>, r: Replacement) {
    e.begin == r.start && e.end == r.end && e.put == Encode(r.text)
  }

  lemma {:induction false} AsEditsMembers(rs: seq<Replacement>, e: Edit<Unit>)
    requires forall r <- rs :: 0 <= r.start && 0 <= r.end
    ensures e in AsEdits(rs) <==> exists r <- rs :: IsEditOf(e, r)
  {
    if rs != [] {
      AsEditsMembers(rs[1..], e);
      assert rs == [rs[0]] + rs[1..];
      assert IsEditOf(e, rs[0]) <==> e == AsEdit(rs[0]);
    }
  }

  /** out is the text with every range replaced at once. */
  ghost predicate Simultaneous(units: seq<Unit>, rs: seq<Replacement>, out: seq<Unit>) {
    exists edits | Ordered(edits, 0, |units|) ::
      out == Spliced(units, edits) && forall e :: e in edits <==> exists r <- rs :: IsEditOf(e, r)
  }

  lemma SimultaneousIsUnique(units: seq<Unit>, rs: seq<Replacement>, rs': seq<Replacement>, out: seq<Unit>,
        out': seq<Unit>)
    requires Simultaneous(units, rs, out) && Simultaneous(units, rs', out')
    requires Disjoint(rs, |units|) && forall r :: r in rs <==> r in rs'
    ensures out == out'
  {
    var x :| Ordered(x, 0, |units|) && out == Spliced(units, x)
             && forall e :: e in x <==> exists r <- rs :: IsEditOf(e, r);
    var y :| Ordered(y, 0, |units|) && out' == Spliced(units, y)
             && forall e :: e in y <==> exists r <- rs' :: IsEditOf(e, r);
    OrderedEditsEqual(x, y, 0, |units|);
  }

  /** Disjointness does not depend on the order. */
  lemma DisjointPermutes(rs: seq<Replacement>, rs': seq<Replacement>, units: nat)
    requires Disjoint(rs, units) && multiset(rs) == multiset(rs')
    ensures Disjoint(rs', units)
  {
    SameMembers(rs, rs');
    forall i, j | 0 <= i < j < |rs'|
      ensures rs'[i].end <= rs'[j].start || rs'[j].end <= rs'[i].start
    {
      assert rs'[i] in rs && rs'[j] in rs;
      if rs'[i] == rs'[j] {
        CountedTwice(rs', i, j);
        FoundTwice(rs, rs'[i]);
      }
    }
  }

  lemma CountedTwice(rs: seq<Replacement>, i: nat, j: nat)
    requires i < j < |rs| && rs[i] == rs[j]
    ensures multiset(rs)[rs[i]] >= 2
  {
    assert rs == rs[..j] + [rs[j]] + rs[j + 1..];
    assert rs[i] in rs[..j];
  }

  lemma {:induction false} FoundTwice(rs: seq<Replacement>, r: Replacement)
    requires multiset(rs)[r] >= 2
    ensures exists i, j :: 0 <= i < j < |rs| && rs[i] == rs[j] == r
  {
    var rest := rs[1..];
    assert rs == [rs[0]] + rest;
    if rs[0] == r {
      assert r in rest;
      var j :| 0 <= j < |rest| && rest[j] == r;
      assert rs[j + 1] == r;
    } else {
      FoundTwice(rest, r);
      var i, j :| 0 <= i < j < |rest| && rest[i] == rest[j] == r;
      assert rs[i + 1] == rs[j + 1] == r;
    }
  }

  /** For disjoint ranges the sorted loop never slices out of range and replaces all of them
      at once. */
  lemma DisjointSplices(units: seq<Unit>, rs: seq<Replacement>)
    requires Disjoint(rs, |units|)
    ensures ApplyAll(units, Sorted(rs)).Some?
    ensures Simultaneous(units, rs, ApplyAll(units, Sorted(rs)).value)
  {
    var sorted := Sorted(rs);
    SortedSorts(rs);
    DisjointPermutes(rs, sorted, |units|);
    LoopSplices(units, sorted);
    EditsOfSorted(rs, sorted);
  }

  lemma EditsOfSorted(rs: seq<Replacement>, sorted: seq<Replacement>)
    requires multiset(rs) == multiset(sorted) && forall r <- sorted :: 0 <= r.start && 0 <= r.end
    ensures forall e :: e in AsEdits(sorted) <==> exists r <- rs :: IsEditOf(e, r)
  {
    SameMembers(rs, sorted);
    forall e
      ensures e in AsEdits(sorted) <==> exists r <- rs :: IsEditOf(e, r)
    {
      AsEditsMembers(sorted, e);
    }
  }

  // ---- Exact text ---------------------------------------------------------------------------

  /** An edit of text, as the edit of its UTF-16 encoding. */
  function UnitEdits(runes: seq<Rune>, edits: seq<Edit<Rune>>): seq<Edit<Unit>>
    requires forall e <- edits :: e.begin <= e.end <= |runes|
  {
    seq(|edits|, i requires 0 <= i < |edits| =>
      assert edits[i] in edits;
      Edit(UnitIndex(runes, edits[i].begin), UnitIndex(runes, edits[i].end), Encode(edits[i].put)))
  }

  /** Splicing encoded text at rune boundaries is splicing the text. */
  lemma {:induction false} SplicedRunes(runes: seq<Rune>, edits: seq<Edit<Rune>>, from: nat)
    requires Ordered(edits, from, |runes|)
    ensures forall e <- edits :: e.begin <= e.end <= |runes|
    ensures Ordered(UnitEdits(runes, edits), UnitIndex(runes, from), |Encode(runes)|)
    ensures SpliceFrom(Encode(runes), UnitIndex(runes, from), UnitEdits(runes, edits)) ==
            Encode(SpliceFrom(runes, from, edits))
    decreases |edits|
  {
    OrderedWithin(edits, from, |runes|);
    EncodeSlice(runes, from, |runes|);
    assert runes[..|runes|] == runes;
    if edits == [] {
      assert UnitEdits(runes, edits) == [];
      assert runes[from..|runes|] == runes[from..];
    } else {
      var e := edits[0];
      EncodeSlice(runes, from, e.begin);
      EncodeSlice(runes, e.begin, e.end);
      SplicedRunes(runes, edits[1..], e.end);
      assert UnitEdits(runes, edits)[1..] == UnitEdits(runes, edits[1..]);
      var kept, rest := runes[from..e.begin], SpliceFrom(runes, e.end, edits[1..]);
      EncodeConcat(kept + e.put, rest);
      EncodeConcat(kept, e.put);
    }
  }

  /** No replaced range starts or ends inside a surrogate pair. */
  predicate WholeRunes(units: seq<Unit>, rs: seq<Replacement>) {
    forall r <- rs :: (0 <= r.start ==> !SplitsPair(units, r.start)) && (0 <= r.end ==> !SplitsPair(units, r.end))
  }

  /** Replacements at rune boundaries, listed as edits of the text itself. */
  lemma {:induction false} AsRuneEdits(content: seq<Rune>, rs: seq<Replacement>, limit: nat)
      returns (edits: seq<Edit<Rune>>)
    requires Disjoint(rs, |Encode(content)|) && Descending(rs) && WholeRunes(Encode(content), rs)
    requires limit <= |content| && forall r <- rs :: r.end <= UnitIndex(content, limit)
    ensures Ordered(edits, 0, limit)
    ensures forall e <- edits :: e.begin <= e.end <= |content|
    ensures UnitEdits(content, edits) == AsEdits(rs)
    decreases |rs|
  {
    if rs == [] {
      edits := [];
    } else {
      var r, rest := rs[0], rs[1..];
      assert r in rs;
      var e := AsRuneEdit(content, r, limit);
      EndBefore(rs, |Encode(content)|);
      assert forall x <- rest :: x in rs;
      var init := AsRuneEdits(content, rest, e.begin);
      edits := init + [e];
      OrderedSnoc(init, 0, e.begin, e, limit);
      OrderedWithin(edits, 0, limit);
      UnitEditsSnoc(content, init, e);
    }
  }

  lemma UnitEditsSnoc(content: seq<Rune>, edits: seq<Edit<Rune>>, e: Edit<Rune>)
    requires forall x <- edits + [e] :: x.begin <= x.end <= |content|
    ensures forall x <- edits :: x.begin <= x.end <= |content|
    ensures e in edits + [e]
    ensures UnitEdits(content, edits + [e]) ==
            UnitEdits(content, edits) + [Edit(UnitIndex(content, e.begin), UnitIndex(content, e.end), Encode(e.put))]
  {
    assert forall x <- edits :: x in edits + [e];
    assert (edits + [e])[|edits|] == e;
  }

  lemma AsRuneEdit(content: seq<Rune>, r: Replacement, limit: nat) returns (e: Edit<Rune>)
    requires 0 <= r.start < r.end <= |Encode(content)| && WholeRunes(Encode(content), [r])
    requires limit <= |content| && r.end <= UnitIndex(content, limit)
    ensures e.begin <= e.end <= limit && e.put == r.text
    ensures UnitIndex(content, e.begin) == r.start && UnitIndex(content, e.end) == r.end
  {
    assert r in [r];
    RuneBoundary(content, r.start);
    RuneBoundary(content, r.end);
    var i :| 0 <= i <= |content| && UnitIndex(content, i) == r.start;
    var j :| 0 <= j <= |content| && UnitIndex(content, j) == r.end;
    IndexOrder(content, i, j);
    IndexOrder(content, j, limit);
    e := Edit(i, j, r.text);
  }

  lemma {:induction false} OrderedSnoc<T>(edits: seq<Edit<T>>, from: nat, to: nat, last: Edit<T>, limit: nat)
    requires Ordered(edits, from, to) && to <= last.begin <= last.end <= limit
    ensures Ordered(edits + [last], from, limit)
  {
    if edits == [] {
      assert edits + [last] == [last];
    } else {
      OrderedSnoc(edits[1..], edits[0].end, to, last, limit);
      assert (edits + [last])[1..] == edits[1..] + [last];
    }
  }

  lemma LaterIsFurther(runes: seq<Rune>, i: nat, j: nat)
    requires i < j <= |runes|
    ensures UnitIndex(runes, i) < UnitIndex(runes, j)
  {
    EncodeConcat(runes[..i], runes[i..j]);
    assert runes[..j] == runes[..i] + runes[i..j];
  }

  lemma IndexOrder(runes: seq<Rune>, i: nat, j: nat)
    requires i <= |runes| && j <= |runes| && UnitIndex(runes, i) <= UnitIndex(runes, j)
    ensures i <= j
  {
    if j < i {
      LaterIsFurther(runes, j, i);
    }
  }

  /** When no range splits a surrogate pair, the decoded text is exactly the content with every
      range replaced at once. */
  lemma ExactText(content: seq<Rune>, rs: seq<Replacement>) returns (edits: seq<Edit<Rune>>)
    requires Disjoint(rs, |Encode(content)|) && WholeRunes(Encode(content), rs)
    ensures Ordered(edits, 0, |content|)
    ensures forall e <- edits :: e.begin <= e.end <= |content|
    ensures forall e :: e in UnitEdits(content, edits) <==> exists r <- rs :: IsEditOf(e, r)
    ensures ApplyAll(Encode(content), Sorted(rs)).Some?
    ensures Decode(ApplyAll(Encode(content), Sorted(rs)).value) == Spliced(content, edits)
  {
    var units, sorted := Encode(content), Sorted(rs);
    SortedSorts(rs);
    DisjointPermutes(rs, sorted, |units|);
    SameMembers(rs, sorted);
    LoopSplices(units, sorted);
    assert content[..|content|] == content && content[..0] == [];
    edits := AsRuneEdits(content, sorted, |content|);
    EditsOfSorted(rs, sorted);
    SplicedRunes(content, edits, 0);
    DecodeEncode(Spliced(content, edits));
  }

  /** Edits of the text itself that replace exactly these ranges. */
  ghost predicate EditsOf(content: seq<Rune>, rs: seq<Replacement>, edits: seq<Edit<Rune>>) {
    && Ordered(edits, 0, |content|)
    && (forall e <- edits :: e.begin <= e.end <= |content|)
    && forall e :: e in UnitEdits(content, edits) <==> exists r <- rs :: IsEditOf(e, r)
  }

  /** There are such edits exactly if no range starts or ends inside a surrogate pair. */
  lemma RuneEditsIff(content: seq<Rune>, rs: seq<Replacement>)
    requires Disjoint(rs, |Encode(content)|)
    ensures WholeRunes(Encode(content), rs) <==> exists edits :: EditsOf(content, rs, edits)
  {
    if WholeRunes(Encode(content), rs) {
      var edits := ExactText(content, rs);
      assert EditsOf(content, rs, edits);
    }
    if edits :| EditsOf(content, rs, edits) {
      forall r | r in rs
        ensures !SplitsPair(Encode(content), r.start) && !SplitsPair(Encode(content), r.end)
      {
        var e := AsEdit(r);
        assert IsEditOf(e, r);
        assert e in UnitEdits(content, edits);
        var i :| 0 <= i < |edits| && UnitEdits(content, edits)[i] == e;
        assert edits[i] in edits;
        RuneBoundary(content, r.start);
        RuneBoundary(content, r.end);
      }
    }
  }

  // ---- What decoding loses ------------------------------------------------------------------

  predicate Replaced(rs: seq<Replacement>, p: int) {
    exists r <- rs :: r.start <= p < r.end
  }

  /** Of some surrogate pair one half is replaced and the other is not. */
  ghost predicate LeavesHalf(units: seq<Unit>, rs: seq<Replacement>) {
    exists p: nat :: SplitsPair(units, p) && Replaced(rs, p - 1) != Replaced(rs, p)
  }

  predicate Whole(units: seq<Unit>, i: nat, j: nat) {
    i == j || (!SplitsPair(units, i) && !SplitsPair(units, j))
  }

  /** What is kept between the edits from a position on holds no lone half. */
  predicate KeptWhole(units: seq<Unit>, from: nat, edits: seq<Edit<Unit>>)
    decreases |edits|
  {
    if edits == [] then Whole(units, from, |units|)
    else Whole(units, from, edits[0].begin) && KeptWhole(units, edits[0].end, edits[1..])
  }

  /** Nonempty well-formed text put in place of nonempty ranges. */
  predicate Solid(edits: seq<Edit<Unit>>) {
    forall e <- edits :: e.begin < e.end && e.put != [] && WellFormed(e.put)
  }

  lemma {:induction false} SplicedWellFormed(runes: seq<Rune>, from: nat, edits: seq<Edit<Unit>>)
    requires Ordered(edits, from, |Encode(runes)|) && Solid(edits)
    ensures WellFormed(SpliceFrom(Encode(runes), from, edits)) <==> KeptWhole(Encode(runes), from, edits)
    decreases |edits|
  {
    var units := Encode(runes);
    OrderedWithin(edits, from, |units|);
    if edits == [] {
      WellFormedSlice(runes, from, |units|);
      assert units[from..|units|] == units[from..];
    } else {
      var e := edits[0];
      assert e in edits;
      SplicedWellFormed(runes, e.end, edits[1..]);
      WellFormedSlice(runes, from, e.begin);
      WellFormedEnds(e.put);
      var kept, rest := units[from..e.begin], SpliceFrom(units, e.end, edits[1..]);
      WellFormedConcat(kept, e.put);
      WellFormedConcat(kept + e.put, rest);
    }
  }

  /** Position q lies before `from` or in one of the edits. */
  predicate Gone(edits: seq<Edit<Unit>>, from: int, q: int) {
    q < from || exists e <- edits :: e.begin <= q < e.end
  }

  ghost predicate HalvesAgree(units: seq<Unit>, from: int, edits: seq<Edit<Unit>>) {
    forall p: nat | SplitsPair(units, p) :: Gone(edits, from, p - 1) == Gone(edits, from, p)
  }

  lemma GoneFrom(edits: seq<Edit<Unit>>, from: nat, to: nat, q: int)
    requires Ordered(edits, from, to) && edits != []
    ensures from <= q < edits[0].begin ==> !Gone(edits, from, q)
    ensures edits[0].begin <= q ==> Gone(edits, from, q) == Gone(edits[1..], edits[0].end, q)
    ensures q < from || edits[0].begin <= q < edits[0].end ==> Gone(edits, from, q)
  {
    OrderedWithin(edits[1..], edits[0].end, to);
    assert edits == [edits[0]] + edits[1..];
  }

  lemma {:induction false} KeptWholeIff(units: seq<Unit>, from: nat, edits: seq<Edit<Unit>>)
    requires Ordered(edits, from, |units|) && Solid(edits)
    ensures KeptWhole(units, from, edits) <==> HalvesAgree(units, from, edits)
    decreases |edits|
  {
    OrderedWithin(edits, from, |units|);
    if edits == [] {
      if SplitsPair(units, from) {
        assert Gone(edits, from, from - 1) != Gone(edits, from, from);
      }
    } else {
      var e, rest := edits[0], edits[1..];
      assert e in edits && forall x <- rest :: x in edits;
      KeptWholeIff(units, e.end, rest);
      forall p: nat | SplitsPair(units, p)
        ensures p < from ==> Gone(edits, from, p - 1) == Gone(edits, from, p)
        ensures p == from || p == e.begin ==> (Gone(edits, from, p - 1) == Gone(edits, from, p) <==> from == e.begin)
        ensures from < p < e.begin || e.begin < p < e.end ==> Gone(edits, from, p - 1) == Gone(edits, from, p)
        ensures e.end <= p ==> Gone(edits, from, p - 1) == Gone(rest, e.end, p - 1)
        ensures e.end <= p ==> Gone(edits, from, p) == Gone(rest, e.end, p)
      {
        GoneFrom(edits, from, |units|, p - 1);
        GoneFrom(edits, from, |units|, p);
      }
      HalvesStep(units, from, edits);
    }
  }

  /** The pairs split at the first gap, and those beyond the first edit. */
  lemma HalvesStep(units: seq<Unit>, from: nat, edits: seq<Edit<Unit>>)
    requires edits != [] && edits[0].begin < edits[0].end && from <= edits[0].begin
    requires forall p: nat | SplitsPair(units, p) ::
      var e, rest := edits[0], edits[1..];
      && (p == from || p == e.begin ==> (Gone(edits, from, p - 1) == Gone(edits, from, p) <==> from == e.begin))
      && (p < from || from < p < e.begin || e.begin < p < e.end ==> Gone(edits, from, p - 1) == Gone(edits, from, p))
      && (e.end <= p ==>
            && Gone(edits, from, p - 1) == Gone(rest, e.end, p - 1)
            && Gone(edits, from, p) == Gone(rest, e.end, p))
    ensures HalvesAgree(units, from, edits) <==>
            Whole(units, from, edits[0].begin) && HalvesAgree(units, edits[0].end, edits[1..])
  {
    var e, rest := edits[0], edits[1..];
    if HalvesAgree(units, from, edits) {
      assert SplitsPair(units, from) ==> Gone(edits, from, from - 1) == Gone(edits, from, from);
      assert SplitsPair(units, e.begin) ==> Gone(edits, from, e.begin - 1) == Gone(edits, from, e.begin);
      forall p: nat | SplitsPair(units, p)
        ensures Gone(rest, e.end, p - 1) == Gone(rest, e.end, p)
      {
        assert e.end <= p || (Gone(rest, e.end, p - 1) && Gone(rest, e.end, p));
      }
    }
    if Whole(units, from, e.begin) && HalvesAgree(units, e.end, rest) {
      forall p: nat | SplitsPair(units, p)
        ensures Gone(edits, from, p - 1) == Gone(edits, from, p)
      {
        assert e.end <= p ==> Gone(rest, e.end, p - 1) == Gone(rest, e.end, p);
      }
    }
  }

  /** Ranges replaced one after another, all of them at once. */
  lemma ReplacedIsGone(rs: seq<Replacement>, sorted: seq<Replacement>, q: int)
    requires multiset(rs) == multiset(sorted) && forall r <- sorted :: 0 <= r.start && 0 <= r.end
    ensures q >= 0 ==> (Gone(AsEdits(sorted), 0, q) <==> Replaced(rs, q))
  {
    EditsOfSorted(rs, sorted);
    SameMembers(rs, sorted);
    if q >= 0 && Replaced(rs, q) {
      var r :| r in rs && r.start <= q < r.end;
      assert IsEditOf(AsEdit(r), r);
      assert AsEdit(r) in AsEdits(sorted);
    }
    if q >= 0 && Gone(AsEdits(sorted), 0, q) {
      var e :| e in AsEdits(sorted) && e.begin <= q < e.end;
      var r :| r in rs && IsEditOf(e, r);
    }
  }

  lemma AsEditsSolid(rs: seq<Replacement>, sorted: seq<Replacement>, units: nat)
    requires multiset(rs) == multiset(sorted) && Disjoint(sorted, units) && forall r <- rs :: r.text != []
    ensures Solid(AsEdits(sorted))
  {
    SameMembers(rs, sorted);
    forall e | e in AsEdits(sorted)
      ensures e.begin < e.end && e.put != [] && WellFormed(e.put)
    {
      AsEditsMembers(sorted, e);
      var r :| r in sorted && IsEditOf(e, r);
      EncodedEnds(r.text);
      DecodeEncode(r.text);
    }
  }

  /** Decoding what the loop leaves loses nothing exactly if no surrogate pair has been cut in two. */
  lemma DecodesExactlyIff(content: seq<Rune>, rs: seq<Replacement>)
    requires Disjoint(rs, |Encode(content)|) && forall r <- rs :: r.text != []
    ensures ApplyAll(Encode(content), Sorted(rs)).Some?
    ensures WellFormed(ApplyAll(Encode(content), Sorted(rs)).value) <==> !LeavesHalf(Encode(content), rs)
  {
    var units, sorted := Encode(content), Sorted(rs);
    SortedSorts(rs);
    DisjointPermutes(rs, sorted, |units|);
    LoopSplices(units, sorted);
    AsEditsSolid(rs, sorted, |units|);
    SplicedWellFormed(content, 0, AsEdits(sorted));
    KeptWholeIff(units, 0, AsEdits(sorted));
    HalvesAgreeIff(units, rs, sorted);
  }

  lemma HalvesAgreeIff(units: seq<Unit>, rs: seq<Replacement>, sorted: seq<Replacement>)
    requires multiset(rs) == multiset(sorted) && forall r <- sorted :: 0 <= r.start && 0 <= r.end
    ensures HalvesAgree(units, 0, AsEdits(sorted)) <==> !LeavesHalf(units, rs)
  {
    forall p: nat | SplitsPair(units, p)
      ensures Gone(AsEdits(sorted), 0, p - 1) == Replaced(rs, p - 1)
      ensures Gone(AsEdits(sorted), 0, p) == Replaced(rs, p)
    {
      ReplacedIsGone(rs, sorted, p - 1);
      ReplacedIsGone(rs, sorted, p);
    }
  }

  /** The decoded text is the content with every range replaced at once, exactly if no pair has been
      cut in two. */
  lemma TextIsExactIff(content: seq<Rune>, rs: seq<Replacement>)
    requires Disjoint(rs, |Encode(content)|) && forall r <- rs :: r.text != []
    ensures ApplyAll(Encode(content), Sorted(rs)).Some?
    ensures Simultaneous(Encode(content), rs, Encode(Decode(ApplyAll(Encode(content), Sorted(rs)).value))) <==>
            !LeavesHalf(Encode(content), rs)
  {
    var units := Encode(content);
    DecodesExactlyIff(content, rs);
    DisjointSplices(units, rs);
    var out := ApplyAll(units, Sorted(rs)).value;
    if Simultaneous(units, rs, Encode(Decode(out))) {
      SimultaneousIsUnique(units, rs, rs, out, Encode(Decode(out)));
    }
  }

  /** What an entity is replaced by is never empty. */
  lemma {:induction false} ReplacementsSpeak(entities: seq<Entity>, units: nat, hasher: Hasher)
    ensures forall r <- Replacements(entities, units, hasher) :: r.text != []
    decreases |entities|
  {
    if entities != [] {
      ReplacementsSpeak(entities[..|entities| - 1], units, hasher);
    }
  }

  /** For entities with disjoint ranges there is no panic, and the text is exact if and only if no
      range cuts a surrogate pair in two. */
  lemma NormalizedIsExactIff(content: seq<Rune>, entities: seq<Entity>, hasher: Hasher)
    requires entities != [] && Disjoint(Replacements(entities, |Encode(content)|, hasher), |Encode(content)|)
    ensures Normalized(content, entities, Some(hasher)).Some?
    ensures var rs := Replacements(entities, |Encode(content)|, hasher);
            Simultaneous(Encode(content), rs, Encode(Normalized(content, entities, Some(hasher)).value.0)) <==>
            !LeavesHalf(Encode(content), rs)
  {
    ReplacementsSpeak(entities, |Encode(content)|, hasher);
    TextIsExactIff(content, Replacements(entities, |Encode(content)|, hasher));
  }

  /** U+1F600 with only its second half mentioned: the first half is lost. */
  lemma SplitPairIsLost(hasher: Hasher)
    ensures Normalized([0x1F600], [Entity(AtMention, 1, 1, None)], Some(hasher)) == Some(([REPLACEMENT] + GENERIC, []))
  {
    var content: seq<Rune>, e := [0x1F600], Entity(AtMention, 1, 1, None);
    var units := Encode(content);
    assert units == [0xD83D, 0xDE00];
    assert Wanted(e, 2, hasher) == Some(Replacement(1, 2, GENERIC));
    OneEntity(e, 2, hasher);
    assert MentionList([e], 2, hasher) == [] by { assert [e][..0] == []; }
    HalfReplaced(units);
  }

  lemma HalfReplaced(units: seq<Unit>)
    requires units == [0xD83D, 0xDE00]
    ensures var out := ApplyAll(units, [Replacement(1, 2, GENERIC)]);
            out.Some? && Decode(out.value) == [REPLACEMENT] + GENERIC
  {
    var r := Replacement(1, 2, GENERIC);
    var half, put := units[..1], Encode(GENERIC);
    assert [r][1..] == [];
    assert half + put + units[2..] == half + put;
    assert ApplyAll(units, [r]) == Some(half + put);
    EncodedEnds(GENERIC);
    DecodeConcat(half, put);
    DecodeEncode(GENERIC);
    assert Decode(half) == [REPLACEMENT] by { assert half[1..] == []; }
  }

  /** A single entity, and the same one twice. */
  lemma OneEntity(e: Entity, units: nat, hasher: Hasher)
    requires Wanted(e, units, hasher).Some?
    ensures var r := Wanted(e, units, hasher).value;
            && Sorted(Replacements([e], units, hasher)) == [r]
            && Sorted(Replacements([e, e], units, hasher)) == [r, r]
  {
    var r := Wanted(e, units, hasher).value;
    assert [e][..0] == [] && [e, e][..1] == [e];
    assert Replacements([e], units, hasher) == [r];
    assert Replacements([e, e], units, hasher) == [r] + [r] == [r, r];
    assert [r][..0] == [] && [r, r][..1] == [r];
    assert Sorted([r]) == [r];
    assert [r][1..] == [];
  }

  // ---- Exactly when a slice goes out of range -------------------------------------------------

  /** By how much the first i replacements have lengthened the text. */
  function Grown(rs: seq<Replacement>, i: nat): int
    requires i <= |rs|
  {
    if i == 0 then 0
    else Grown(rs, i - 1) + |Encode(rs[i - 1].text)| - (rs[i - 1].end - rs[i - 1].start)
  }

  predicate InText(r: Replacement, length: int) {
    0 <= r.start <= length && 0 <= r.end <= length
  }

  /** Every range lies within what the replacements before it have left. */
  predicate Fits(length: nat, rs: seq<Replacement>) {
    forall i | 0 <= i < |rs| :: InText(rs[i], length + Grown(rs, i))
  }

  lemma {:induction false} GrownShift(rs: seq<Replacement>, i: nat)
    requires rs != [] && i < |rs|
    ensures Grown(rs, i + 1) == Grown(rs, 1) + Grown(rs[1..], i)
  {
    if i > 0 {
      GrownShift(rs, i - 1);
    }
  }

  /** The loop goes through exactly if every range fits. */
  lemma {:induction false} AppliesIff(units: seq<Unit>, rs: seq<Replacement>)
    ensures ApplyAll(units, rs).Some? <==> Fits(|units|, rs)
    decreases |rs|
  {
    if rs != [] {
      var r := rs[0];
      if InText(r, |units|) {
        var next := units[..r.start] + Encode(r.text) + units[r.end..];
        AppliesIff(next, rs[1..]);
        forall i | 0 <= i < |rs| - 1
          ensures |units| + Grown(rs, i + 1) == |next| + Grown(rs[1..], i) && rs[i + 1] == rs[1..][i]
        {
          GrownShift(rs, i);
        }
        FitsStep(|units|, |next|, rs);
      } else {
        assert !InText(rs[0], |units| + Grown(rs, 0));
      }
    }
  }

  lemma FitsStep(length: nat, next: nat, rs: seq<Replacement>)
    requires rs != [] && InText(rs[0], length)
    requires forall i | 0 <= i < |rs| - 1 ::
               length + Grown(rs, i + 1) == next + Grown(rs[1..], i) && rs[i + 1] == rs[1..][i]
    ensures Fits(length, rs) <==> Fits(next, rs[1..])
  {
    if Fits(length, rs) {
      forall i | 0 <= i < |rs[1..]| ensures InText(rs[1..][i], next + Grown(rs[1..], i)) {
        assert InText(rs[i + 1], length + Grown(rs, i + 1));
      }
    }
    if Fits(next, rs[1..]) {
      forall i | 0 <= i < |rs| ensures InText(rs[i], length + Grown(rs, i)) {
        if i > 0 {
          assert InText(rs[1..][i - 1], next + Grown(rs[1..], i - 1));
        }
      }
    }
  }

  /** Normalizing panics exactly if a range, taken from the right, ends beyond what the replacements
      made before it have left of the text, or has wrapped around. */
  lemma PanicsIff(content: seq<Rune>, entities: seq<Entity>, hasher: Option<Hasher>)
    ensures Normalized(content, entities, hasher) == None <==>
            entities != [] && hasher.Some? && !Fits(|Encode(content)|, Planned(content, entities, hasher.value))
  {
    if entities != [] && hasher.Some? {
      AppliesIff(Encode(content), Planned(content, entities, hasher.value));
    }
  }

  /** The same mention twice panics exactly if its replacement is shorter than the range by more
      than what follows the range. */
  lemma RepeatedMentionIff(content: seq<Rune>, e: Entity, hasher: Hasher)
    requires Wanted(e, |Encode(content)|, hasher).Some? && e.offset + e.length <= MAX_INT64
    ensures var r := Wanted(e, |Encode(content)|, hasher).value;
            Normalized(content, [e, e], Some(hasher)) == None <==>
            e.length - |Encode(r.text)| > |Encode(content)| - (e.offset + e.length)
  {
    var units := |Encode(content)|;
    var r := Wanted(e, units, hasher).value;
    OneEntity(e, units, hasher);
    PanicsIff(content, [e, e], Some(hasher));
    UnwrappedEnd(e, units, hasher);
    FitsTwice(units, r);
  }

  lemma UnwrappedEnd(e: Entity, units: nat, hasher: Hasher)
    requires Wanted(e, units, hasher).Some? && e.offset + e.length <= MAX_INT64
    ensures var r := Wanted(e, units, hasher).value;
            r.start == e.offset && r.end == e.offset + e.length && 0 <= r.start < r.end <= units
  {
  }

  lemma FitsTwice(length: nat, r: Replacement)
    requires 0 <= r.start < r.end <= length
    ensures Fits(length, [r, r]) <==> r.end <= length + |Encode(r.text)| - (r.end - r.start)
  {
    var rs := [r, r];
    assert Grown(rs, 0) == 0 && Grown(rs, 1) == |Encode(r.text)| - (r.end - r.start);
    assert InText(rs[0], length + Grown(rs, 0));
    assert Fits(length, rs) <==> InText(rs[1], length + Grown(rs, 1));
  }

  /** A text of more than eight units that is one username mention, reported twice. */
  lemma RepeatedRangePanics(content: seq<Rune>, hasher: Hasher)
    requires 9 <= |Encode(content)| <= MAX_INT64
    ensures var whole := Entity(AtMention, 0, |Encode(content)|, None);
            Normalized(content, [whole, whole], Some(hasher)) == None
  {
    GenericLength();
    WholeIsWanted(|Encode(content)|, hasher);
    RepeatedMentionIff(content, Entity(AtMention, 0, |Encode(content)|, None), hasher);
  }

  lemma WholeIsWanted(units: nat, hasher: Hasher)
    requires 0 < units <= MAX_INT64
    ensures Wanted(Entity(AtMention, 0, units, None), units, hasher) == Some(Replacement(0, units, GENERIC))
  {
  }

  lemma GenericLength()
    ensures |Encode(GENERIC)| == 8
  {
    assert |GENERIC| == 8;
    PlainLength(GENERIC);
  }

  lemma {:induction false} PlainLength(runes: seq<Rune>)
    requires forall r <- runes :: r < 0x1_0000
    ensures |Encode(runes)| == |runes|
  {
    if runes != [] {
      assert runes[0] in runes && forall r <- runes[1..] :: r in runes;
      PlainLength(runes[1..]);
    }
  }

  // ---- Entity order -------------------------------------------------------------------------

  lemma {:induction false} ReplacementsConcat(a: seq<Entity>, b: seq<Entity>, units: nat, hasher: Hasher)
    ensures Replacements(a + b, units, hasher) == Replacements(a, units, hasher) + Replacements(b, units, hasher)
    decreases |b|
  {
    if b == [] {
      assert a + b == a;
    } else {
      var init := b[..|b| - 1];
      assert (a + b)[..|a + b| - 1] == a + init;
      ReplacementsConcat(a, init, units, hasher);
    }
  }

  /** The last element of a sequence, found in a permutation of it. */
  lemma FindIn(es: seq<Entity>, es': seq<Entity>) returns (a: seq<Entity>, b: seq<Entity>)
    requires es != [] && multiset(es) == multiset(es')
    ensures es == es[..|es| - 1] + [es[|es| - 1]] && es' == a + ([es[|es| - 1]] + b)
    ensures multiset(es[..|es| - 1]) == multiset(a + b)
  {
    var init, e := es[..|es| - 1], es[|es| - 1];
    assert es == init + [e];
    assert e in multiset(es');
    var k :| 0 <= k < |es'| && es'[k] == e;
    a, b := es'[..k], es'[k + 1..];
    assert es' == a + ([e] + b);
    assert multiset(a + b) == multiset(a) + multiset(b) == multiset(es') - multiset{e};
    assert multiset(init) == multiset(es) - multiset{e};
  }

  lemma {:induction false} ReplacementsPermute(es: seq<Entity>, es': seq<Entity>, units: nat, hasher: Hasher)
    requires multiset(es) == multiset(es')
    ensures multiset(Replacements(es, units, hasher)) == multiset(Replacements(es', units, hasher))
    decreases |es|
  {
    if es == [] {
      assert |multiset(es')| == 0;
    } else {
      var init, e := es[..|es| - 1], es[|es| - 1];
      var a, b := FindIn(es, es');
      ReplacementsPermute(init, a + b, units, hasher);
      ReplacementsConcat(init, [e], units, hasher);
      ReplacementsConcat(a, b, units, hasher);
      ReplacementsConcat(a, [e] + b, units, hasher);
      ReplacementsConcat([e], b, units, hasher);
    }
  }

  /** For disjoint ranges the rewritten units do not depend on the order of the entities. */
  lemma OrderDoesNotMatter(units: seq<Unit>, es: seq<Entity>, es': seq<Entity>, hasher: Hasher)
    requires multiset(es) == multiset(es')
    requires Disjoint(Replacements(es, |units|, hasher), |units|)
    ensures ApplyAll(units, Sorted(Replacements(es, |units|, hasher))) ==
            ApplyAll(units, Sorted(Replacements(es', |units|, hasher)))
  {
    var rs, rs' := Replacements(es, |units|, hasher), Replacements(es', |units|, hasher);
    ReplacementsPermute(es, es', |units|, hasher);
    DisjointPermutes(rs, rs', |units|);
    DisjointSplices(units, rs);
    DisjointSplices(units, rs');
    SameMembers(rs, rs');
    SimultaneousIsUnique(units, rs, rs', ApplyAll(units, Sorted(rs)).value, ApplyAll(units, Sorted(rs')).value);
  }
}
