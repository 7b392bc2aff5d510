/** Recovering a chat's history page by page (internal/transport/telegram/mtproto_recovery.go:98-196,
    259-296). */
module HistoryRecovery {
  import opened Wrappers

  const PAGE_SIZE: nat := 100
  const MAX_EVENTS: nat := 5000
  const SECOND: int := 1_000_000_000

  /** `recoverable`: the normalizer turns the message into an event. */
  datatype Message = Message(id: int, date: int, recoverable: bool)

  /** Nanoseconds. */
  function Time(m: Message): int { m.date * SECOND }

  datatype Page = Page(messages: seq<Message>, more: bool)

  // ---- The history and what is wanted of it ---------------------------------------------------

  /** A chat's ordinary messages, oldest first; dates never decrease. */
  predicate IsHistory(h: seq<Message>) {
    && (forall m <- h :: m.id > 0 && m.date > 0)
    && forall i, j :: 0 <= i < j < |h| ==> h[i].id < h[j].id && h[i].date <= h[j].date
  }

  datatype Request = Request(cursor: int, maxEvents: int, cutoff: Option<int>)

  predicate Wanted(r: Request, m: Message) {
    m.id > r.cursor && m.recoverable && (r.cutoff.Some? ==> Time(m) >= r.cutoff.value)
  }

  /** The wanted messages with an id of at least `from`, oldest first. */
  function WantedFrom(r: Request, h: seq<Message>, from: int): seq<Message> {
    if h == [] then []
    else (if Wanted(r, h[0]) && h[0].id >= from then [h[0]] else []) + WantedFrom(r, h[1..], from)
  }

  function FirstOf(ms: seq<Message>, count: int): seq<Message> {
    if count <= 0 then [] else if |ms| <= count then ms else ms[..count]
  }

  function Limit(r: Request): int {
    if r.maxEvents > MAX_EVENTS then MAX_EVENTS else r.maxEvents
  }

  /** No more events than asked for, and never more than five thousand. */
  predicate InBatch(r: Request, count: nat) {
    count == 0 || (count <= r.maxEvents && count <= 5000)
  }

  /** No further event would be in the batch. */
  predicate BatchIsFull(r: Request, count: nat) {
    r.maxEvents <= count || 5000 <= count
  }

  /** What has been emitted of all that is wanted: the oldest of it, in order, no more than a batch, and
      with nothing left out unless the batch is full. */
  predicate Batch(r: Request, all: seq<Message>, emitted: seq<Message>) {
    emitted <= all && InBatch(r, |emitted|) && (emitted == all || BatchIsFull(r, |emitted|))
  }

  lemma BatchIs(r: Request, all: seq<Message>, emitted: seq<Message>)
    ensures Batch(r, all, emitted) <==> emitted == FirstOf(all, Limit(r))
  {
  }

  // ---- The server's contract ------------------------------------------------------------------

  predicate Below(m: Message, offset: int) {
    offset == 0 || m.id < offset
  }

  /** A page is a run of the history that ends at the offset; an empty page, or one with
      nothing after it, leaves no message between cursor and offset untold. */
  predicate Serves(h: seq<Message>, cursor: int, offset: int, page: Page) {
    && (forall m <- page.messages :: m in h && Below(m, offset))
    && (forall m <- page.messages, n <- h :: m.id <= n.id && Below(n, offset) && n.id > cursor ==> n in page.messages)
    && (page.messages == [] || !page.more ==> forall n <- h :: n.id > cursor && Below(n, offset) ==> n in page.messages)
  }

  /** Page by offset; None is a failed request. */
  type Server = int -> Option<Page>

  /** The loop starts at the end of the history and goes on from a message it has been told. */
  ghost predicate Asked(h: seq<Message>, offset: int) {
    offset == 0 || exists m <- h :: m.id == offset
  }

  ghost predicate Contract(h: seq<Message>, cursor: int, server: Server) {
    forall offset :: Asked(h, offset) && server(offset).Some? ==> Serves(h, cursor, offset, server(offset).value)
  }

  // ---- sort.SliceStable by timestamp, then position -------------------------------------------

  predicate Earlier(a: Message, b: Message) {
    Time(a) < Time(b) || (Time(a) == Time(b) && a.id < b.id)
  }

  function Insert(sorted: seq<Message>, m: Message): seq<Message> {
    if sorted == [] then [m]
    else if Earlier(m, sorted[0]) then [m] + sorted
    else [sorted[0]] + Insert(sorted[1..], m)
  }

  function Sorted(ms: seq<Message>): seq<Message> {
    if ms == [] then [] else Insert(Sorted(ms[..|ms| - 1]), ms[|ms| - 1])
  }

  predicate ById(ms: seq<Message>) {
    forall i, j :: 0 <= i < j < |ms| ==> ms[i].id < ms[j].id
  }

  /** Within one history, id order is time order. */
  predicate Agrees(ms: seq<Message>, m: Message) {
    forall n <- ms :: n.id != m.id && (Earlier(m, n) <==> m.id < n.id)
  }

  lemma {:induction false} InsertMembers(sorted: seq<Message>, m: Message, n: Message)
    ensures n in Insert(sorted, m) <==> n == m || n in sorted
  {
    if sorted != [] && !Earlier(m, sorted[0]) {
      InsertMembers(sorted[1..], m, n);
      assert sorted == [sorted[0]] + sorted[1..];
    }
  }

  lemma {:induction false} InsertById(sorted: seq<Message>, m: Message)
    requires ById(sorted) && Agrees(sorted, m)
    ensures ById(Insert(sorted, m))
  {
    if sorted != [] {
      assert sorted[0] in sorted;
      if !Earlier(m, sorted[0]) {
        var rest := Insert(sorted[1..], m);
        InsertById(sorted[1..], m);
        forall i | 0 <= i < |rest|
          ensures sorted[0].id < rest[i].id
        {
          InsertMembers(sorted[1..], m, rest[i]);
        }
      }
    }
  }

  predicate Distinct(ms: seq<Message>) {
    forall i, j :: 0 <= i < j < |ms| ==> ms[i].id != ms[j].id
  }

  lemma HistoryAgrees(h: seq<Message>, a: Message, b: Message)
    requires IsHistory(h) && a in h && b in h
    ensures Earlier(a, b) <==> a.id < b.id
    ensures a.id == b.id ==> a == b
  {
    var i :| 0 <= i < |h| && h[i] == a;
    var j :| 0 <= j < |h| && h[j] == b;
  }

  lemma {:induction false} SortedSorts(h: seq<Message>, ms: seq<Message>)
    requires IsHistory(h) && Distinct(ms) && forall m <- ms :: m in h
    ensures ById(Sorted(ms)) && forall m :: m in Sorted(ms) <==> m in ms
    decreases |ms|
  {
    if ms != [] {
      var init, last := ms[..|ms| - 1], ms[|ms| - 1];
      SortedSorts(h, init);
      assert ms == init + [last];
      forall n | n in Sorted(init)
        ensures n.id != last.id && (Earlier(last, n) <==> last.id < n.id)
      {
        var i :| 0 <= i < |init| && init[i] == n;
        assert ms[i].id != ms[|ms| - 1].id;
        HistoryAgrees(h, last, n);
      }
      InsertById(Sorted(init), last);
      forall m
        ensures m in Sorted(ms) <==> m in ms
      {
        InsertMembers(Sorted(init), last, m);
      }
    }
  }

  /** Listings by id with the same members are the same. */
  lemma {:induction false} SameListing(a: seq<Message>, b: seq<Message>)
    requires ById(a) && ById(b) && forall m :: m in a <==> m in b
    ensures a == b
    decreases |a|
  {
    if a != [] {
      assert a[0] in b;
    }
    if b != [] {
      assert b[0] in a;
    }
    if a != [] {
      assert a[0] == b[0];
      forall m
        ensures m in a[1..] <==> m in b[1..]
      {
        assert m in a <==> m == a[0] || m in a[1..];
        assert m in b <==> m == b[0] || m in b[1..];
      }
      SameListing(a[1..], b[1..]);
    }
  }

  lemma {:induction false} WantedFromMembers(r: Request, h: seq<Message>, from: int, m: Message)
    ensures m in WantedFrom(r, h, from) <==> m in h && Wanted(r, m) && m.id >= from
  {
    if h != [] {
      WantedFromMembers(r, h[1..], from, m);
      assert h == [h[0]] + h[1..];
    }
  }

  lemma {:induction false} WantedFromById(r: Request, h: seq<Message>, from: int)
    requires ById(h)
    ensures ById(WantedFrom(r, h, from))
  {
    if h != [] {
      var rest := WantedFrom(r, h[1..], from);
      WantedFromById(r, h[1..], from);
      forall i | 0 <= i < |rest|
        ensures h[0].id < rest[i].id
      {
        WantedFromMembers(r, h[1..], from, rest[i]);
        var j :| 0 <= j < |h[1..]| && h[1..][j] == rest[i];
        assert h[j + 1] == rest[i];
      }
    }
  }

  // ---- Paging -----------------------------------------------------------------------------------

  /** The candidates are the wanted messages from the offset on, offset 0 being the end, and those
      of a page that have been looked at. */
  ghost predicate Looked(r: Request, h: seq<Message>, offset: int, looked: seq<Message>, candidates: seq<Message>) {
    && Distinct(candidates)
    && forall m :: m in candidates <==> (m in h && Wanted(r, m) && !Below(m, offset)) || (m in looked && Wanted(r, m))
  }

  /** `seen` holds the ids beyond the cursor that have been told. */
  ghost predicate Seen(r: Request, h: seq<Message>, offset: int, looked: seq<Message>, seen: set<int>) {
    && (forall id <- seen :: id > r.cursor && ((offset != 0 && id >= offset) || exists m <- looked :: m.id == id))
    && forall m <- looked :: m.id > r.cursor ==> m.id in seen
  }

  /** The oldest id beyond the cursor, 0 if there is none. */
  ghost predicate Oldest(r: Request, looked: seq<Message>, oldest: int) {
    if oldest == 0 then forall m <- looked :: m.id <= r.cursor
    else
      && (exists m <- looked :: m.id == oldest) && oldest > r.cursor
      && forall m <- looked :: m.id > r.cursor ==> oldest <= m.id
  }

  predicate TooOld(r: Request, m: Message) {
    m.id > r.cursor && r.cutoff.Some? && Time(m) < r.cutoff.value
  }

  /** The loop's variables while a page is read. */
  datatype Reading = Reading(candidates: seq<Message>, seen: set<int>, oldest: int, reachedCutoff: bool)

  ghost predicate ReadSoFar(r: Request, h: seq<Message>, offset: int, looked: seq<Message>, s: Reading) {
    && Looked(r, h, offset, looked, s.candidates)
    && Seen(r, h, offset, looked, s.seen)
    && Oldest(r, looked, s.oldest)
    && (s.reachedCutoff <==> SomeTooOld(r, looked))
  }

  ghost predicate SomeTooOld(r: Request, looked: seq<Message>) {
    exists m <- looked :: TooOld(r, m)
  }

  lemma OneMoreTooOld(r: Request, looked: seq<Message>, m: Message)
    ensures SomeTooOld(r, looked + [m]) <==> SomeTooOld(r, looked) || TooOld(r, m)
  {
    assert m in looked + [m];
    assert forall n <- looked :: n in looked + [m];
  }

  /** One message of a page. */
  method ReadMessage(ghost h: seq<Message>, r: Request, ghost offset: int, ghost looked: seq<Message>,
        m: Message, before: Reading)
    returns (s: Reading)
    requires IsHistory(h) && (forall n <- looked + [m] :: n in h && Below(n, offset))
    requires ReadSoFar(r, h, offset, looked, before)
    ensures ReadSoFar(r, h, offset, looked + [m], s)
  {
    assert m in looked + [m];
    if m.id <= r.cursor {
      Unwanted(r, h, offset, looked, m, before);
      return before;
    }
    s := before.(oldest := if before.oldest == 0 || m.id < before.oldest then m.id else before.oldest);
    NewOldest(r, looked, m, before.oldest, s.oldest);
    OneMoreTooOld(r, looked, m);
    if m.id in s.seen {
      SeenBefore(r, h, offset, looked, m, s.seen);
      OneMoreSeen(r, h, offset, looked, m, before.seen, s.seen);
      NoCandidate(r, h, offset, looked, m, s.candidates);
      return s;
    }
    s := s.(seen := s.seen + {m.id});
    OneMoreSeen(r, h, offset, looked, m, before.seen, s.seen);
    if r.cutoff.Some? && Time(m) < r.cutoff.value {
      NoCandidate(r, h, offset, looked, m, s.candidates);
      return s.(reachedCutoff := true);
    }
    if m.recoverable {
      NewCandidate(r, h, offset, looked, m, s.candidates, before.seen);
      s := s.(candidates := s.candidates + [m]);
    } else {
      NoCandidate(r, h, offset, looked, m, s.candidates);
    }
  }

  /** A message that is not wanted, or was looked at before. */
  lemma NoCandidate(r: Request, h: seq<Message>, offset: int, looked: seq<Message>, m: Message,
        candidates: seq<Message>)
    requires Looked(r, h, offset, looked, candidates) && (m in looked || !Wanted(r, m))
    ensures Looked(r, h, offset, looked + [m], candidates)
  {
    assert forall n :: n in looked + [m] <==> n in looked || n == m;
  }

  lemma Unwanted(r: Request, h: seq<Message>, offset: int, looked: seq<Message>, m: Message, s: Reading)
    requires ReadSoFar(r, h, offset, looked, s) && m.id <= r.cursor
    ensures ReadSoFar(r, h, offset, looked + [m], s)
  {
    OneMoreSeen(r, h, offset, looked, m, s.seen, s.seen);
    NoCandidate(r, h, offset, looked, m, s.candidates);
    OneMoreTooOld(r, looked, m);
    assert forall n <- looked :: n in looked + [m];
  }

  lemma NewOldest(r: Request, looked: seq<Message>, m: Message, before: int, oldest: int)
    requires Oldest(r, looked, before) && m.id > r.cursor && m.id > 0
    requires oldest == if before == 0 || m.id < before then m.id else before
    ensures Oldest(r, looked + [m], oldest)
  {
    assert m in looked + [m];
    assert forall n <- looked :: n in looked + [m];
  }

  /** One page: which messages are wanted, the oldest, and whether any was too old. */
  method ReadPage(ghost h: seq<Message>, r: Request, ghost offset: int, page: Page, before: Reading)
    returns (s: Reading)
    requires IsHistory(h) && Serves(h, r.cursor, offset, page)
    requires ReadSoFar(r, h, offset, [], before)
    ensures ReadSoFar(r, h, offset, page.messages, s)
  {
    var ms := page.messages;
    s := before;
    for i := 0 to |ms|
      invariant ReadSoFar(r, h, offset, ms[..i], s)
    {
      PartOfPage(h, r.cursor, offset, page, i);
      s := ReadMessage(h, r, offset, ms[..i], ms[i], s);
    }
    assert ms[..|ms|] == ms;
  }

  lemma PartOfPage(h: seq<Message>, cursor: int, offset: int, page: Page, i: nat)
    requires Serves(h, cursor, offset, page) && i < |page.messages|
    ensures page.messages[..i + 1] == page.messages[..i] + [page.messages[i]]
    ensures forall n <- page.messages[..i] + [page.messages[i]] :: n in h && Below(n, offset)
  {
    assert forall n <- page.messages[..i + 1] :: n in page.messages;
  }

  lemma OneMoreSeen(r: Request, h: seq<Message>, offset: int, looked: seq<Message>, m: Message, before: set<int>,
        seen: set<int>)
    requires Seen(r, h, offset, looked, before)
    requires seen == before || (seen == before + {m.id} && m.id > r.cursor)
    requires m.id > r.cursor ==> m.id in seen
    ensures Seen(r, h, offset, looked + [m], seen)
  {
    assert m in looked + [m];
    assert forall n <- looked :: n in looked + [m];
  }

  /** A message told before is one that was looked at before. */
  lemma SeenBefore(r: Request, h: seq<Message>, offset: int, looked: seq<Message>, m: Message, seen: set<int>)
    requires IsHistory(h) && m in h && Below(m, offset) && (forall n <- looked :: n in h)
    requires Seen(r, h, offset, looked, seen) && m.id in seen
    ensures m in looked
    ensures TooOld(r, m) ==> SomeTooOld(r, looked)
  {
    var n :| n in looked && n.id == m.id;
    HistoryAgrees(h, m, n);
  }

  lemma NewCandidate(r: Request, h: seq<Message>, offset: int, looked: seq<Message>, m: Message,
        candidates: seq<Message>, seen: set<int>)
    requires IsHistory(h) && m in h && Below(m, offset) && (forall n <- looked :: n in h)
    requires Looked(r, h, offset, looked, candidates) && Seen(r, h, offset, looked, seen)
    requires Wanted(r, m) && m.id !in seen
    ensures Looked(r, h, offset, looked + [m], candidates + [m])
  {
    forall i | 0 <= i < |candidates|
      ensures candidates[i].id != m.id
    {
      assert candidates[i] in candidates;
    }
  }

  /** Every wanted message with an id of at least `from` has been found. */
  ghost predicate Found(r: Request, h: seq<Message>, from: int, candidates: seq<Message>) {
    Distinct(candidates) && forall m :: m in candidates <==> m in h && Wanted(r, m) && m.id >= from
  }

  predicate Stops(r: Request, offset: int, page: Page, s: Reading) {
    page.messages == [] || s.reachedCutoff || !page.more || s.oldest <= r.cursor || s.oldest == offset
  }

  /** A message too old, or at or before the cursor, has nothing wanted below it. */
  lemma NothingBelow(r: Request, h: seq<Message>, p: Message, m: Message)
    requires IsHistory(h) && p in h && m in h && Wanted(r, m) && (TooOld(r, p) || p.id <= r.cursor)
    ensures p.id < m.id
  {
    var i :| 0 <= i < |h| && h[i] == p;
    var j :| 0 <= j < |h| && h[j] == m;
  }

  lemma StopIsComplete(r: Request, h: seq<Message>, offset: int, page: Page, s: Reading)
    requires IsHistory(h) && Serves(h, r.cursor, offset, page) && offset >= 0
    requires ReadSoFar(r, h, offset, page.messages, s) && Stops(r, offset, page, s)
    ensures Found(r, h, 0, s.candidates)
  {
    forall m | m in h && Wanted(r, m)
      ensures m in s.candidates
    {
      if Below(m, offset) && page.messages != [] && page.more {
        if s.reachedCutoff {
          var p :| p in page.messages && TooOld(r, p);
          NothingBelow(r, h, p, m);
        } else {
          var p := page.messages[0];
          OldestStops(r, h, offset, page, s);
          NothingBelow(r, h, p, m);
        }
      }
    }
  }

  /** An oldest id at the cursor or at the offset means the page holds nothing beyond the
      cursor. */
  lemma OldestStops(r: Request, h: seq<Message>, offset: int, page: Page, s: Reading)
    requires IsHistory(h) && Serves(h, r.cursor, offset, page) && offset >= 0 && page.messages != []
    requires Oldest(r, page.messages, s.oldest) && (s.oldest <= r.cursor || s.oldest == offset)
    ensures page.messages[0] in h && page.messages[0].id <= r.cursor
  {
    assert page.messages[0] in page.messages;
    assert forall m <- page.messages :: Below(m, offset) && m.id > 0;
  }

  lemma OnwardIsGathered(r: Request, h: seq<Message>, offset: int, page: Page, s: Reading)
    requires IsHistory(h) && Serves(h, r.cursor, offset, page) && offset >= 0
    requires ReadSoFar(r, h, offset, page.messages, s) && !Stops(r, offset, page, s)
    ensures s.oldest > 0 && (offset == 0 || s.oldest < offset) && exists m <- h :: m.id == s.oldest
    ensures ReadSoFar(r, h, s.oldest, [], Reading(s.candidates, s.seen, 0, false))
  {
    assert page.messages[0] in page.messages && page.messages[0].id > 0;
    var o :| o in page.messages && o.id == s.oldest;
    forall m | m in h && Wanted(r, m) && m.id >= s.oldest && Below(m, offset)
      ensures m in page.messages
    {
    }
    forall id | id in s.seen
      ensures id >= s.oldest
    {
      if !(offset != 0 && id >= offset) {
        var m :| m in page.messages && m.id == id;
      }
    }
  }

  // ---- Recover ----------------------------------------------------------------------------------

  function Newest(h: seq<Message>): int {
    if h == [] then 0 else h[|h| - 1].id
  }

  /** The paging loop; None is a failed page request. */
  method Gather(ghost h: seq<Message>, r: Request, server: Server)
      returns (candidates: Option<seq<Message>>, ghost from: int, ghost last: int)
    requires IsHistory(h) && Contract(h, r.cursor, server) && r.maxEvents > 0
    ensures candidates.Some? ==> Found(r, h, from, candidates.value)
    ensures candidates.Some? && (r.cutoff.Some? || r.cursor != 0) ==> Found(r, h, 0, candidates.value)
    ensures candidates.Some? && from != 0 ==> r.cutoff.None? && r.cursor == 0 && |candidates.value| >= Limit(r)
    ensures candidates.None? ==> PageFails(h, server)
    ensures r.cutoff.None? && r.cursor == 0 && last != 0 ==> FewWanted(r, h, last)
  {
    from, last := 0, 0;
    var offset := 0;
    var s := Reading([], {}, 0, false);
    while true
      invariant offset >= 0 && Asked(h, offset) && ReadSoFar(r, h, offset, [], s)
      invariant r.cutoff.None? && r.cursor == 0 && offset != 0 ==> FewWanted(r, h, offset)
      decreases if offset == 0 then Newest(h) + 1 else offset
    {
      var answer := server(offset);
      last := offset;
      if answer.None? {
        return None, 0, last;
      }
      var page := answer.value;
      s := ReadPage(h, r, offset, page, s);
      if Stops(r, offset, page, s) {
        StopIsComplete(r, h, offset, page, s);
        return Some(s.candidates), 0, last;
      }
      OnwardIsGathered(r, h, offset, page, s);
      NewestIsLast(h, s.oldest);
      offset := s.oldest;
      s := Reading(s.candidates, s.seen, 0, false);
      if r.cutoff.None? && r.cursor == 0 && |s.candidates| >= Limit(r) {
        return Some(s.candidates), offset, last;
      }
      CandidatesAreWanted(r, h, offset, s.candidates);
    }
  }

  /** Some page the loop may ask for cannot be had. */
  ghost predicate PageFails(h: seq<Message>, server: Server) {
    exists offset :: Asked(h, offset) && server(offset).None?
  }

  /** The wanted messages from an id on do not fill a batch. */
  predicate FewWanted(r: Request, h: seq<Message>, from: int) {
    |WantedFrom(r, h, from)| < r.maxEvents && |WantedFrom(r, h, from)| < 5000
  }

  lemma CandidatesAreWanted(r: Request, h: seq<Message>, offset: int, candidates: seq<Message>)
    requires IsHistory(h) && offset != 0 && Looked(r, h, offset, [], candidates)
    ensures |candidates| == |WantedFrom(r, h, offset)|
  {
    GatheredSorts(r, h, offset, candidates);
    SortedLength(candidates);
  }

  lemma NewestIsLast(h: seq<Message>, id: int)
    requires IsHistory(h) && exists m <- h :: m.id == id
    ensures id <= Newest(h)
  {
    var m :| m in h && m.id == id;
    var i :| 0 <= i < |h| && h[i] == m;
  }

  lemma GatheredSorts(r: Request, h: seq<Message>, from: int, candidates: seq<Message>)
    requires IsHistory(h) && Found(r, h, from, candidates)
    ensures Sorted(candidates) == WantedFrom(r, h, from)
  {
    SortedSorts(h, candidates);
    WantedFromById(r, h, from);
    forall m
      ensures m in Sorted(candidates) <==> m in WantedFrom(r, h, from)
    {
      WantedFromMembers(r, h, from, m);
    }
    SameListing(Sorted(candidates), WantedFrom(r, h, from));
  }

  /** A batch of the wanted messages from an id on; or, after a failure, as many of it as were emitted
      before. */
  ghost predicate Delivers(r: Request, h: seq<Message>, from: int, emitted: seq<Message>, ok: bool) {
    var all := WantedFrom(r, h, from);
    emitted <= all && InBatch(r, |emitted|) && (ok ==> Batch(r, all, emitted))
  }

  /** An emission fails before the batch is complete. */
  predicate EmitFails(r: Request, h: seq<Message>, from: int, emitted: seq<Message>, emits: nat) {
    |emitted| == emits && !Batch(r, WantedFrom(r, h, from), emitted)
  }

  method Emit(events: seq<Message>, emits: nat) returns (emitted: seq<Message>, ok: bool)
    ensures emitted == FirstOf(events, emits) && (ok <==> emitted == events)
  {
    emitted := [];
    for i := 0 to |events|
      invariant emitted == events[..i] && i <= emits
    {
      if i >= emits {
        return emitted, false;
      }
      emitted := emitted + [events[i]];
    }
    return emitted, true;
  }

  /** Recover. `emits` events can be emitted before emitting fails. Given an age bound or a
      nonzero cursor, what is emitted is the oldest wanted messages. Otherwise the scan stops as soon as
      it has found a batch, and emits the oldest of the newest stretch. It fails only with a page or with
      an emission. */
  method Recover(ghost h: seq<Message>, r: Request, server: Server, emits: nat)
    returns (emitted: seq<Message>, ok: bool, ghost from: int, ghost last: int)
    requires IsHistory(h) && Contract(h, r.cursor, server)
    ensures Delivers(r, h, from, emitted, ok)
    ensures r.cutoff.Some? || r.cursor != 0 ==> Delivers(r, h, 0, emitted, ok)
    ensures ok && from != 0 ==> BatchIsFull(r, |emitted|)
    ensures !ok ==> EmitFails(r, h, from, emitted, emits) || (emitted == [] && PageFails(h, server))
    ensures r.cutoff.None? && r.cursor == 0 && last != 0 ==> FewWanted(r, h, last)
  {
    if r.maxEvents <= 0 {
      return [], true, 0, 0;
    }
    var candidates;
    candidates, from, last := Gather(h, r, server);
    if candidates.None? {
      return [], false, 0, last;
    }
    GatheredSorts(r, h, from, candidates.value);
    SortedLength(candidates.value);
    if r.cutoff.Some? || r.cursor != 0 { GatheredSorts(r, h, 0, candidates.value); }
    emitted, ok := Emit(FirstOf(Sorted(candidates.value), Limit(r)), emits);
    EmittedIs(r, Sorted(candidates.value), emits, emitted);
  }

  /** What the emission of the batch comes to. */
  lemma EmittedIs(r: Request, all: seq<Message>, emits: nat, emitted: seq<Message>)
    requires r.maxEvents > 0 && emitted == FirstOf(FirstOf(all, Limit(r)), emits)
    ensures emitted <= all && InBatch(r, |emitted|)
    ensures Batch(r, all, emitted) <==> emitted == FirstOf(all, Limit(r))
    ensures !Batch(r, all, emitted) ==> |emitted| == emits
    ensures Batch(r, all, emitted) && |all| >= Limit(r) ==> BatchIsFull(r, |emitted|)
  {
    BatchIs(r, all, emitted);
  }

  lemma {:induction false} SortedLength(ms: seq<Message>)
    ensures |Sorted(ms)| == |ms|
  {
    if ms != [] {
      SortedLength(ms[..|ms| - 1]);
      InsertLength(Sorted(ms[..|ms| - 1]), ms[|ms| - 1]);
    }
  }

  lemma {:induction false} InsertLength(sorted: seq<Message>, m: Message)
    ensures |Insert(sorted, m)| == |sorted| + 1
  {
    if sorted != [] && !Earlier(m, sorted[0]) {
      InsertLength(sorted[1..], m);
    }
  }

  /** What a successful recovery means: each event once, in time order, exactly the wanted messages of
      the stretch but for those newer than a full batch. */
  lemma OldestWanted(r: Request, h: seq<Message>, from: int, emitted: seq<Message>, m: Message)
    requires IsHistory(h) && r.maxEvents > 0 && Delivers(r, h, from, emitted, true)
    ensures |emitted| <= r.maxEvents && |emitted| <= 5000
    ensures forall i, j :: 0 <= i < j < |emitted| ==>
              emitted[i].id < emitted[j].id && Time(emitted[i]) <= Time(emitted[j])
    ensures m in emitted ==> m in h && Wanted(r, m) && m.id >= from
    ensures m in h && Wanted(r, m) && m.id >= from && m !in emitted ==>
              |emitted| == (if r.maxEvents < 5000 then r.maxEvents else 5000) && forall n <- emitted :: n.id < m.id
  {
    var all := WantedFrom(r, h, from);
    WantedFromById(r, h, from);
    forall n ensures n in all <==> n in h && Wanted(r, n) && n.id >= from {
      WantedFromMembers(r, h, from, n);
    }
    forall i, j | 0 <= i < j < |emitted|
      ensures emitted[i].id < emitted[j].id && Time(emitted[i]) <= Time(emitted[j])
    {
      assert emitted[i] == all[i] && emitted[j] == all[j];
      assert all[i] in h && all[j] in h;
      InTimeOrder(h, all[i], all[j]);
    }
    if m in all && m !in emitted {
      var k :| 0 <= k < |all| && all[k] == m;
      assert forall i :: 0 <= i < |emitted| ==> all[i] == emitted[i] && emitted[i] in emitted;
    }
  }

  lemma InTimeOrder(h: seq<Message>, a: Message, b: Message)
    requires IsHistory(h) && a in h && b in h && a.id < b.id
    ensures Time(a) <= Time(b)
  {
    var i :| 0 <= i < |h| && h[i] == a;
    var j :| 0 <= j < |h| && h[j] == b;
  }

  // ---- Telegram's pages ---------------------------------------------------------------------------

  /** A chat's log also holds service entries, which the client drops from a page. */
  datatype Entry = Ordinary(message: Message) | Service(number: int) {
    function Id(): int { if Ordinary? then message.id else number }
  }

  predicate IsLog(log: seq<Entry>) {
    forall i, j :: 0 <= i < j < |log| ==> log[i].Id() < log[j].Id()
  }

  function Messages(log: seq<Entry>): seq<Message> {
    if log == [] then [] else (if log[0].Ordinary? then [log[0].message] else []) + Messages(log[1..])
  }

  function NewestFirst(log: seq<Entry>): seq<Message> {
    if log == [] then [] else NewestFirst(log[1..]) + (if log[0].Ordinary? then [log[0].message] else [])
  }

  predicate Eligible(e: Entry, cursor: int, offset: int) {
    e.Id() > cursor && (offset == 0 || e.Id() < offset)
  }

  function Between(log: seq<Entry>, cursor: int, offset: int): seq<Entry> {
    if log == [] then []
    else (if Eligible(log[0], cursor, offset) then [log[0]] else []) + Between(log[1..], cursor, offset)
  }

  /** The newest PAGE_SIZE entries between minimum id and offset. */
  function PageEntries(log: seq<Entry>, cursor: int, offset: int): seq<Entry> {
    var all := Between(log, cursor, offset);
    if |all| <= PAGE_SIZE then all else all[|all| - PAGE_SIZE..]
  }

  /** A page of the log, service entries dropped; there is more if the page was full before they
      were dropped. */
  function TelegramPage(log: seq<Entry>, cursor: int, offset: int): Page {
    var last := PageEntries(log, cursor, offset);
    Page(NewestFirst(last), |last| >= PAGE_SIZE)
  }

  lemma {:induction false} MessagesMembers(log: seq<Entry>, m: Message)
    ensures m in Messages(log) <==> Ordinary(m) in log
    ensures m in NewestFirst(log) <==> Ordinary(m) in log
  {
    if log != [] {
      MessagesMembers(log[1..], m);
      assert log == [log[0]] + log[1..];
    }
  }

  lemma {:induction false} BetweenMembers(log: seq<Entry>, cursor: int, offset: int, e: Entry)
    ensures e in Between(log, cursor, offset) <==> e in log && Eligible(e, cursor, offset)
  {
    if log != [] {
      BetweenMembers(log[1..], cursor, offset, e);
      assert log == [log[0]] + log[1..];
    }
  }

  lemma {:induction false} BetweenIsLog(log: seq<Entry>, cursor: int, offset: int)
    requires IsLog(log)
    ensures IsLog(Between(log, cursor, offset))
  {
    if log != [] {
      var rest := Between(log[1..], cursor, offset);
      BetweenIsLog(log[1..], cursor, offset);
      forall i | 0 <= i < |rest|
        ensures log[0].Id() < rest[i].Id()
      {
        BetweenMembers(log[1..], cursor, offset, rest[i]);
        var j :| 0 <= j < |log[1..]| && log[1..][j] == rest[i];
        assert log[j + 1] == rest[i];
      }
    }
  }

  /** The last entries of a log hold every entry at or after one of them. */
  lemma SuffixIsRun(log: seq<Entry>, k: nat, e: Entry, f: Entry)
    requires IsLog(log) && k <= |log| && e in log[k..] && f in log && e.Id() <= f.Id()
    ensures f in log[k..]
  {
    var i :| 0 <= i < |log[k..]| && log[k..][i] == e;
    var j :| 0 <= j < |log| && log[j] == f;
    assert log[k + i] == e && k + i <= j;
    assert log[k..][j - k] == f;
  }

  lemma PageMembers(log: seq<Entry>, cursor: int, offset: int, m: Message)
    ensures m in Messages(log) <==> Ordinary(m) in log
    ensures var page := TelegramPage(log, cursor, offset).messages;
            && (m in page <==> Ordinary(m) in PageEntries(log, cursor, offset))
            && (m in page ==> m in Messages(log) && Eligible(Ordinary(m), cursor, offset))
            && (|Between(log, cursor, offset)| <= PAGE_SIZE ==>
                  m in Messages(log) && Eligible(Ordinary(m), cursor, offset) ==> m in page)
  {
    MessagesMembers(log, m);
    MessagesMembers(PageEntries(log, cursor, offset), m);
    BetweenMembers(log, cursor, offset, Ordinary(m));
  }

  lemma PageIsRun(log: seq<Entry>, cursor: int, offset: int, m: Message, n: Message)
    requires IsLog(log) && m in TelegramPage(log, cursor, offset).messages
    requires n in Messages(log) && Eligible(Ordinary(n), cursor, offset) && m.id <= n.id
    ensures n in TelegramPage(log, cursor, offset).messages
  {
    var all := Between(log, cursor, offset);
    PageMembers(log, cursor, offset, m);
    PageMembers(log, cursor, offset, n);
    BetweenMembers(log, cursor, offset, Ordinary(n));
    BetweenIsLog(log, cursor, offset);
    SuffixIsRun(all, if |all| <= PAGE_SIZE then 0 else |all| - PAGE_SIZE, Ordinary(m), Ordinary(n));
  }

  /** Telegram keeps the contract at an offset exactly if the page shows an ordinary message or
      none is left: a page of service entries only would look like the end of the history. */
  lemma TelegramServes(log: seq<Entry>, cursor: int, offset: int)
    requires IsLog(log)
    ensures Serves(Messages(log), cursor, offset, TelegramPage(log, cursor, offset)) <==>
            TelegramPage(log, cursor, offset).messages != []
            || forall m <- Messages(log) :: !Eligible(Ordinary(m), cursor, offset)
  {
    var page := TelegramPage(log, cursor, offset);
    forall m
      ensures m in page.messages ==> m in Messages(log) && Eligible(Ordinary(m), cursor, offset)
      ensures !page.more && m in Messages(log) && Eligible(Ordinary(m), cursor, offset) ==> m in page.messages
    {
      PageMembers(log, cursor, offset, m);
    }
    forall m, n | m in page.messages && n in Messages(log) && m.id <= n.id && Eligible(Ordinary(n), cursor, offset)
      ensures n in page.messages
    {
      PageIsRun(log, cursor, offset, m, n);
    }
  }

  // ---- What Telegram's history yields ---------------------------------------------------------------

  /** A full page of service entries above the cursor, one after the other. */
  predicate GapAt(log: seq<Entry>, cursor: int, k: nat) {
    k + PAGE_SIZE <= |log| && log[k].Id() > cursor && forall i | k <= i < k + PAGE_SIZE :: log[i].Service?
  }

  ghost predicate HasGap(log: seq<Entry>, cursor: int) {
    exists k: nat :: GapAt(log, cursor, k)
  }

  ghost predicate BelowGap(log: seq<Entry>, cursor: int, m: Message) {
    exists k: nat :: GapAt(log, cursor, k) && m.id < log[k].Id()
  }

  /** The newest part of the log without such a gap. */
  ghost function Clear(log: seq<Entry>, cursor: int): seq<Entry> {
    if log != [] && HasGap(log, cursor) then Clear(log[1..], cursor) else log
  }

  lemma GapBeyond(log: seq<Entry>, cursor: int, k: nat)
    requires log != []
    ensures GapAt(log[1..], cursor, k) <==> GapAt(log, cursor, k + 1)
  {
    if GapAt(log, cursor, k + 1) {
      forall i | k <= i < k + PAGE_SIZE ensures log[1..][i].Service? {
        assert log[1..][i] == log[i + 1];
      }
    }
    if GapAt(log[1..], cursor, k) {
      forall i | k + 1 <= i < k + 1 + PAGE_SIZE ensures log[i].Service? {
        assert log[1..][i - 1] == log[i];
      }
    }
  }

  /** It holds exactly the messages that are below no gap. */
  lemma {:induction false} ClearMessages(log: seq<Entry>, cursor: int, m: Message)
    requires IsLog(log) && m in Messages(log)
    ensures m in Messages(Clear(log, cursor)) <==> !BelowGap(log, cursor, m)
  {
    MessagesMembers(log, m);
    if log != [] && HasGap(log, cursor) {
      var rest := log[1..];
      assert log == [log[0]] + rest;
      var k: nat :| GapAt(log, cursor, k);
      MessagesMembers(Clear(rest, cursor), m);
      forall j: nat ensures GapAt(rest, cursor, j) <==> GapAt(log, cursor, j + 1) { GapBeyond(log, cursor, j); }
      if m in Messages(rest) {
        ClearMessages(rest, cursor, m);
        BelowGapBeyond(log, cursor, m);
      } else {
        MessagesMembers(rest, m);
        assert log[0] == Ordinary(m);
        assert k > 0 && log[0].Id() < log[k].Id();
        ClearIsPart(rest, cursor, Ordinary(m));
      }
    }
  }

  lemma BelowGapBeyond(log: seq<Entry>, cursor: int, m: Message)
    requires IsLog(log) && log != [] && m in Messages(log[1..])
    requires forall j: nat :: GapAt(log[1..], cursor, j) <==> GapAt(log, cursor, j + 1)
    ensures BelowGap(log[1..], cursor, m) <==> BelowGap(log, cursor, m)
  {
    MessagesMembers(log[1..], m);
    var i :| 0 <= i < |log[1..]| && log[1..][i] == Ordinary(m);
    assert log[i + 1].Id() == m.id;
    if k: nat :| GapAt(log, cursor, k) && m.id < log[k].Id() {
      assert k > 0;
      assert GapAt(log[1..], cursor, k - 1) && log[1..][k - 1] == log[k];
    }
    if k: nat :| GapAt(log[1..], cursor, k) && m.id < log[1..][k].Id() {
      assert GapAt(log, cursor, k + 1) && log[1..][k] == log[k + 1];
    }
  }

  lemma {:induction false} ClearIsPart(log: seq<Entry>, cursor: int, e: Entry)
    ensures e in Clear(log, cursor) ==> e in log
  {
    if log != [] && HasGap(log, cursor) {
      ClearIsPart(log[1..], cursor, e);
    }
  }

  /** [a, b) is where the entries between two ids are. */
  ghost predicate Stretch(log: seq<Entry>, cursor: int, offset: int, a: nat, b: nat) {
    a <= b <= |log| && forall i | 0 <= i < |log| :: Eligible(log[i], cursor, offset) <==> a <= i < b
  }

  lemma StretchFrom(log: seq<Entry>, cursor: int, offset: int, a: nat, b: nat) returns (a': nat, b': nat)
    requires IsLog(log) && log != [] && Stretch(log[1..], cursor, offset, a, b)
    ensures Stretch(log, cursor, offset, a', b')
    ensures log[a'..b'] == (if Eligible(log[0], cursor, offset) then [log[0]] else []) + log[1..][a..b]
  {
    var rest := log[1..];
    assert forall i | 0 < i < |log| :: log[i] == rest[i - 1];
    if !Eligible(log[0], cursor, offset) {
      a', b' := a + 1, b + 1;
    } else if a == b {
      a', b' := 0, 1;
    } else {
      assert Eligible(rest[a], cursor, offset) && log[0].Id() < rest[0].Id() <= rest[a].Id();
      assert Eligible(rest[0], cursor, offset);
      a', b' := 0, b + 1;
    }
  }

  /** What lies between two ids is a stretch of the log. */
  lemma {:induction false} BetweenIsStretch(log: seq<Entry>, cursor: int, offset: int) returns (a: nat, b: nat)
    requires IsLog(log)
    ensures Stretch(log, cursor, offset, a, b) && Between(log, cursor, offset) == log[a..b]
  {
    if log == [] {
      a, b := 0, 0;
    } else {
      a, b := BetweenIsStretch(log[1..], cursor, offset);
      a, b := StretchFrom(log, cursor, offset, a, b);
    }
  }

  /** The entries of a page are the last of that stretch, at most a page of them. */
  lemma PageIsStretch(log: seq<Entry>, cursor: int, offset: int) returns (a: nat, b: nat)
    requires IsLog(log)
    ensures a <= b <= |log| && PageEntries(log, cursor, offset) == log[a..b]
    ensures forall i | a <= i < b :: Eligible(log[i], cursor, offset)
    ensures forall i | b <= i < |log| :: !Eligible(log[i], cursor, offset)
    ensures b - a <= PAGE_SIZE && (b - a < PAGE_SIZE ==> forall i | 0 <= i < a :: !Eligible(log[i], cursor, offset))
  {
    a, b := BetweenIsStretch(log, cursor, offset);
    if b - a > PAGE_SIZE {
      assert log[a..b][b - a - PAGE_SIZE..] == log[b - PAGE_SIZE..b];
      a := b - PAGE_SIZE;
    }
  }

  /** Above a gap an offset leaves the whole gap eligible. */
  lemma GapIsEligible(log: seq<Entry>, cursor: int, offset: int, k: nat)
    requires IsLog(log) && Asked(Messages(Clear(log, cursor)), offset) && GapAt(log, cursor, k)
    ensures forall i | k <= i < k + PAGE_SIZE :: Eligible(log[i], cursor, offset)
  {
    if offset != 0 {
      var n :| n in Messages(Clear(log, cursor)) && n.id == offset;
      MessagesMembers(Clear(log, cursor), n);
      ClearIsPart(log, cursor, Ordinary(n));
      MessagesMembers(log, n);
      ClearMessages(log, cursor, n);
      var j :| 0 <= j < |log| && log[j] == Ordinary(n);
      assert !(n.id < log[k].Id());
      assert j >= k + PAGE_SIZE;
    }
  }

  /** A page asked for above a gap does not reach below it. */
  lemma PageIsAboveGap(log: seq<Entry>, cursor: int, offset: int, m: Message, k: nat)
    requires IsLog(log) && Asked(Messages(Clear(log, cursor)), offset) && GapAt(log, cursor, k)
    requires m in TelegramPage(log, cursor, offset).messages
    ensures log[k].Id() <= m.id
  {
    PageMembers(log, cursor, offset, m);
    var a, b := PageIsStretch(log, cursor, offset);
    var i :| 0 <= i < b - a && log[a..b][i] == Ordinary(m);
    GapIsEligible(log, cursor, offset, k);
    assert Eligible(log[k + PAGE_SIZE - 1], cursor, offset);
    assert k <= a && log[a + i] == Ordinary(m);
  }

  /** An empty page shows that what is left below it is below a gap. */
  lemma EmptyPageIsGap(log: seq<Entry>, cursor: int, offset: int, n: Message)
    requires IsLog(log) && TelegramPage(log, cursor, offset).messages == []
    requires n in Messages(log) && Eligible(Ordinary(n), cursor, offset)
    ensures BelowGap(log, cursor, n)
  {
    var a, b := PageIsStretch(log, cursor, offset);
    MessagesMembers(log, n);
    var j :| 0 <= j < |log| && log[j] == Ordinary(n);
    forall i | a <= i < b ensures log[i].Service? {
      if log[i].Ordinary? {
        assert log[a..b][i - a] == log[i];
        MessagesMembers(PageEntries(log, cursor, offset), log[i].message);
      }
    }
    assert j < a && b - a == PAGE_SIZE;
    assert GapAt(log, cursor, a);
  }

  /** Telegram's pages keep the contract for the part of the log that is below no gap. */
  lemma TelegramServesClear(log: seq<Entry>, cursor: int, offset: int)
    requires IsLog(log) && Asked(Messages(Clear(log, cursor)), offset)
    ensures Serves(Messages(Clear(log, cursor)), cursor, offset, TelegramPage(log, cursor, offset))
  {
    var page, h := TelegramPage(log, cursor, offset), Messages(Clear(log, cursor));
    forall m | m in page.messages ensures m in h && Below(m, offset) {
      PageMembers(log, cursor, offset, m);
      forall k: nat | GapAt(log, cursor, k) ensures log[k].Id() <= m.id {
        PageIsAboveGap(log, cursor, offset, m, k);
      }
      ClearMessages(log, cursor, m);
    }
    forall n | n in h ensures n in Messages(log) && !BelowGap(log, cursor, n) {
      MessagesMembers(Clear(log, cursor), n);
      ClearIsPart(log, cursor, Ordinary(n));
      MessagesMembers(log, n);
      ClearMessages(log, cursor, n);
    }
    forall n | n in h && n.id > cursor && Below(n, offset)
      ensures page.messages == [] || !page.more ==> n in page.messages
      ensures forall m <- page.messages :: m.id <= n.id ==> n in page.messages
    {
      LeftOut(log, cursor, offset, n);
    }
  }

  lemma LeftOut(log: seq<Entry>, cursor: int, offset: int, n: Message)
    requires IsLog(log) && n in Messages(log) && !BelowGap(log, cursor, n) && n.id > cursor && Below(n, offset)
    ensures var page := TelegramPage(log, cursor, offset);
            && (page.messages == [] || !page.more ==> n in page.messages)
            && (forall m <- page.messages :: m.id <= n.id ==> n in page.messages)
  {
    var page := TelegramPage(log, cursor, offset);
    PageMembers(log, cursor, offset, n);
    if page.messages == [] {
      EmptyPageIsGap(log, cursor, offset, n);
    }
    forall m | m in page.messages && m.id <= n.id ensures n in page.messages {
      PageIsRun(log, cursor, offset, m, n);
    }
  }

  lemma TailIsHistory(h: seq<Message>)
    requires IsHistory(h) && h != []
    ensures IsHistory(h[1..])
  {
    assert forall i | 0 <= i < |h| - 1 :: h[1..][i] == h[i + 1] && h[i + 1] in h;
  }

  lemma {:induction false} ClearIsHistory(log: seq<Entry>, cursor: int)
    requires IsHistory(Messages(log))
    ensures IsHistory(Messages(Clear(log, cursor)))
  {
    if log != [] && HasGap(log, cursor) {
      var h := Messages(log);
      if log[0].Ordinary? {
        TailIsHistory(h);
        assert Messages(log[1..]) == h[1..];
      } else {
        assert h == [] + Messages(log[1..]) == Messages(log[1..]);
      }
      ClearIsHistory(log[1..], cursor);
    }
  }

  /** What is due of the whole log. */
  function Due(log: seq<Entry>, r: Request): seq<Message> {
    FirstOf(WantedFrom(r, Messages(log), 0), Limit(r))
  }

  /** Nothing wanted lies below a full page of consecutive service entries. */
  ghost predicate NothingHidden(log: seq<Entry>, r: Request) {
    forall m <- Messages(log) :: Wanted(r, m) ==> !BelowGap(log, r.cursor, m)
  }

  lemma WantedOfClear(log: seq<Entry>, r: Request, m: Message)
    requires IsLog(log)
    ensures m in WantedFrom(r, Messages(Clear(log, r.cursor)), 0) <==>
            m in Messages(log) && Wanted(r, m) && m.id >= 0 && !BelowGap(log, r.cursor, m)
  {
    var part := Clear(log, r.cursor);
    WantedFromMembers(r, Messages(part), 0, m);
    MessagesMembers(part, m);
    MessagesMembers(log, m);
    ClearIsPart(log, r.cursor, Ordinary(m));
    if m in Messages(log) {
      ClearMessages(log, r.cursor, m);
    }
  }

  lemma HistoryById(h: seq<Message>, r: Request)
    requires IsHistory(h)
    ensures ById(WantedFrom(r, h, 0))
  {
    WantedFromById(r, h, 0);
  }

  /** The part of the log above the gaps has the same events due as the whole exactly if nothing
      wanted is hidden. */
  lemma DueIff(log: seq<Entry>, r: Request)
    requires IsLog(log) && IsHistory(Messages(log)) && r.maxEvents > 0
    ensures Due(Clear(log, r.cursor), r) == Due(log, r) <==> NothingHidden(log, r)
  {
    var all, seen := WantedFrom(r, Messages(log), 0), WantedFrom(r, Messages(Clear(log, r.cursor)), 0);
    ClearIsHistory(log, r.cursor);
    HistoryById(Messages(log), r);
    HistoryById(Messages(Clear(log, r.cursor)), r);
    SeenOfAll(log, r);
    if NothingHidden(log, r) {
      SameListing(seen, all);
    } else {
      var m :| m in Messages(log) && Wanted(r, m) && BelowGap(log, r.cursor, m);
      OldestIsHidden(log, r, all, m);
      assert all[0] in Due(log, r);
    }
  }

  lemma SeenOfAll(log: seq<Entry>, r: Request)
    requires IsLog(log) && IsHistory(Messages(log))
    ensures forall m :: m in WantedFrom(r, Messages(log), 0) <==> m in Messages(log) && Wanted(r, m)
    ensures forall m :: m in WantedFrom(r, Messages(Clear(log, r.cursor)), 0) <==>
                        m in WantedFrom(r, Messages(log), 0) && !BelowGap(log, r.cursor, m)
  {
    forall m
      ensures m in WantedFrom(r, Messages(log), 0) <==> m in Messages(log) && Wanted(r, m)
      ensures m in WantedFrom(r, Messages(Clear(log, r.cursor)), 0) <==>
              m in WantedFrom(r, Messages(log), 0) && !BelowGap(log, r.cursor, m)
    {
      WantedFromMembers(r, Messages(log), 0, m);
      WantedOfClear(log, r, m);
    }
  }

  /** If anything wanted is below a gap, the oldest wanted message is. */
  lemma OldestIsHidden(log: seq<Entry>, r: Request, all: seq<Message>, m: Message)
    requires ById(all) && m in all && BelowGap(log, r.cursor, m)
    ensures BelowGap(log, r.cursor, all[0])
  {
    var i :| 0 <= i < |all| && all[i] == m;
    var k: nat :| GapAt(log, r.cursor, k) && m.id < log[k].Id();
    assert all[0].id < log[k].Id();
  }

  /** Recover against Telegram's history of a log. It delivers what is due of the part above the
      gaps; given an age bound or a nonzero cursor and no failure, that is all that is due if and
      only if nothing wanted lies below a full page of consecutive service entries. */
  method RecoverTelegram(log: seq<Entry>, r: Request, emits: nat)
    returns (emitted: seq<Message>, ok: bool, ghost from: int, ghost last: int)
    requires IsLog(log) && IsHistory(Messages(log))
    ensures Delivers(r, Messages(Clear(log, r.cursor)), from, emitted, ok)
    ensures ok && r.maxEvents > 0 && (r.cutoff.Some? || r.cursor != 0) ==>
              (Batch(r, WantedFrom(r, Messages(log), 0), emitted) <==> NothingHidden(log, r))
    ensures !ok ==> EmitFails(r, Messages(Clear(log, r.cursor)), from, emitted, emits)
  {
    var cursor := r.cursor;
    var server: Server := offset => Some(TelegramPage(log, cursor, offset));
    ghost var h := Messages(Clear(log, cursor));
    forall offset | Asked(h, offset) ensures Serves(h, cursor, offset, server(offset).value) {
      TelegramServesClear(log, cursor, offset);
    }
    ClearIsHistory(log, cursor);
    emitted, ok, from, last := Recover(h, r, server, emits);
    if r.maxEvents > 0 {
      DueIff(log, r);
      BatchIs(r, WantedFrom(r, Messages(log), 0), emitted);
      BatchIs(r, WantedFrom(r, h, 0), emitted);
    }
  }

  /** An ordinary message, a hundred service entries, and another ordinary message. */
  function ServiceRun(): seq<Entry> {
    [Ordinary(Message(1, 1, true))] + seq(PAGE_SIZE, i => Service(i + 2)) + [Ordinary(Message(102, 2, true))]
  }

  /** The first of them is wanted and never found: the page below the second looks like the end. */
  lemma ServiceRunHides(r: Request)
    requires r.cursor == 0 && r.maxEvents > 0 && r.cutoff == Some(0)
    ensures IsLog(ServiceRun()) && IsHistory(Messages(ServiceRun()))
    ensures !NothingHidden(ServiceRun(), r)
    ensures TelegramPage(ServiceRun(), 0, 102) == Page([], true)
  {
    ServiceRunEntries();
    ServiceRunMessages();
    FirstIsHidden(ServiceRun(), Messages(ServiceRun()), r);
    EmptyPageBelow(ServiceRun());
  }

  lemma FirstIsHidden(log: seq<Entry>, h: seq<Message>, r: Request)
    requires r.cursor == 0 && r.cutoff == Some(0)
    requires |log| == 102 && h == Messages(log) == [Message(1, 1, true), Message(102, 2, true)]
    requires forall i | 1 <= i < 101 :: log[i] == Service(i + 1)
    ensures IsHistory(h) && !NothingHidden(log, r)
  {
    var m := Message(1, 1, true);
    assert h[0] == m;
    assert GapAt(log, 0, 1) && m.id < log[1].Id();
    assert BelowGap(log, 0, m) && Wanted(r, m);
  }

  lemma ServiceRunEntries()
    ensures var log := ServiceRun();
            && |log| == 102 && IsLog(log) && log[0] == Ordinary(Message(1, 1, true))
            && (forall i | 1 <= i < 101 :: log[i] == Service(i + 1)) && log[101] == Ordinary(Message(102, 2, true))
  {
  }

  lemma EmptyPageBelow(log: seq<Entry>)
    requires IsLog(log) && |log| == 102 && log[0].Id() == 1 && log[101].Id() == 102
    requires forall i | 1 <= i < 101 :: log[i] == Service(i + 1)
    ensures TelegramPage(log, 0, 102) == Page([], true)
  {
    var a, b := PageIsStretch(log, 0, 102);
    assert Eligible(log[100], 0, 102) && !Eligible(log[101], 0, 102) && Eligible(log[0], 0, 102);
    assert b == 101 && a == 1;
    NoOrdinary(log[1..101]);
  }

  lemma ServiceRunMessages()
    ensures Messages(ServiceRun()) == [Message(1, 1, true), Message(102, 2, true)]
  {
    var services, last: seq<Entry> := seq(PAGE_SIZE, i => Service(i + 2)), [Ordinary(Message(102, 2, true))];
    assert ServiceRun() == [Ordinary(Message(1, 1, true))] + (services + last);
    assert ServiceRun()[1..] == services + last;
    OnlyServices(services, last);
    assert last[1..] == [];
  }

  lemma {:induction false} OnlyServices(services: seq<Entry>, rest: seq<Entry>)
    requires forall i | 0 <= i < |services| :: services[i].Service?
    ensures Messages(services + rest) == Messages(rest)
    decreases |services|
  {
    if services == [] {
      assert services + rest == rest;
    } else {
      assert (services + rest)[1..] == services[1..] + rest;
      OnlyServices(services[1..], rest);
    }
  }

  lemma {:induction false} NoOrdinary(log: seq<Entry>)
    requires forall i | 0 <= i < |log| :: log[i].Service?
    ensures NewestFirst(log) == []
  {
    if log != [] {
      NoOrdinary(log[1..]);
    }
  }
}
