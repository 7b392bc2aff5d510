/** The private relay's rate limits: windows of a minute for each actor and for all messages
    (internal/privatedm/relay.go:89-109, 143). Times are nanoseconds. */
module RelayLimits {
  const MINUTE: int := 60_000_000_000
  const LIMIT_KEYS: nat := 10_000

  datatype Window = Window(minute: int, count: int)

  /** Windows of other minutes are dropped. */
  function Current(limits: map<string, Window>, minute: int): map<string, Window> {
    map k | k in limits && limits[k].minute == minute :: limits[k]
  }

  function CountIn(limits: map<string, Window>, key: string): int {
    if key in limits then limits[key].count else 0
  }

  /** permit: the new windows, and whether the request passes. */
  function Permit(limits: map<string, Window>, key: string, minute: int, max: int): (map<string, Window>, bool) {
    var current := Current(limits, minute);
    if CountIn(current, key) >= max || |current| >= LIMIT_KEYS then (current, false)
    else (current[key := Window(minute, CountIn(current, key) + 1)], true)
  }

  datatype Request = Request(key: string, minute: int)

  function Windows(requests: seq<Request>, max: string -> int): map<string, Window>
    decreases |requests|
  {
    if requests == [] then map[]
    else
      var r := requests[|requests| - 1];
      Permit(Windows(requests[..|requests| - 1], max), r.key, r.minute, max(r.key)).0
  }

  function Passed(requests: seq<Request>, max: string -> int): bool
    requires requests != []
  {
    var r := requests[|requests| - 1];
    Permit(Windows(requests[..|requests| - 1], max), r.key, r.minute, max(r.key)).1
  }

  /** How many requests of a key passed within a minute. */
  function Granted(requests: seq<Request>, max: string -> int, key: string, minute: int): nat
    decreases |requests|
  {
    if requests == [] then 0
    else
      var r := requests[|requests| - 1];
      Granted(requests[..|requests| - 1], max, key, minute)
      + (if r.key == key && r.minute == minute && Passed(requests, max) then 1 else 0)
  }

  predicate InOrder(requests: seq<Request>) {
    forall i, j :: 0 <= i < j < |requests| ==> requests[i].minute <= requests[j].minute
  }

  /** Within a process lifetime and with a clock that does not go back, no key passes more often
      in a minute than its maximum. */
  lemma {:induction false} GrantsAreBounded(requests: seq<Request>, max: string -> int, key: string, minute: int)
    requires InOrder(requests) && max(key) >= 0
    ensures Granted(requests, max, key, minute) <= max(key)
    ensures requests != [] && minute == requests[|requests| - 1].minute ==>
              Granted(requests, max, key, minute) == CountIn(Current(Windows(requests, max), minute), key)
    ensures (forall r <- requests :: r.minute < minute) ==> Granted(requests, max, key, minute) == 0
    decreases |requests|
  {
    if requests != [] {
      var before, r := requests[..|requests| - 1], requests[|requests| - 1];
      assert requests == before + [r];
      GrantsAreBounded(before, max, key, minute);
      if minute == r.minute {
        WindowsAgree(before, max, key, minute);
        PermitCounts(Windows(before, max), r.key, r.minute, max(r.key), key);
      }
    }
  }

  /** The window of the present minute holds what was granted in it so far. */
  lemma WindowsAgree(before: seq<Request>, max: string -> int, key: string, minute: int)
    requires InOrder(before) && (forall r <- before :: r.minute <= minute) && max(key) >= 0
    requires before != [] && minute == before[|before| - 1].minute ==>
               Granted(before, max, key, minute) == CountIn(Current(Windows(before, max), minute), key)
    requires (forall r <- before :: r.minute < minute) ==> Granted(before, max, key, minute) == 0
    ensures Granted(before, max, key, minute) == CountIn(Current(Windows(before, max), minute), key)
  {
    if before != [] && before[|before| - 1].minute < minute {
      forall r | r in before
        ensures r.minute < minute
      {
        var i :| 0 <= i < |before| && before[i] == r;
      }
      WindowsAreLast(before, max);
    }
  }

  lemma WindowsAreLast(requests: seq<Request>, max: string -> int)
    requires requests != []
    ensures forall k <- Windows(requests, max) :: Windows(requests, max)[k].minute == requests[|requests| - 1].minute
  {
  }

  lemma PermitCounts(limits: map<string, Window>, asked: string, minute: int, max: int, key: string)
    ensures var r := Permit(limits, asked, minute, max);
            && CountIn(Current(r.0, minute), key) ==
               CountIn(Current(limits, minute), key) + (if r.1 && key == asked then 1 else 0)
            && (r.1 ==> CountIn(Current(limits, minute), asked) < max)
  {
  }

  const ACTOR_MAX: int := 10
  const GLOBAL_MAX: int := 50

  /** Both limits in turn: the new windows, and whether the message passes. A message its actor's
      limit stops does not count against the global one. */
  function Admission(limits: map<string, Window>, actor: string, now: int): (map<string, Window>, bool) {
    var own := Permit(limits, "actor:" + actor, now / MINUTE, ACTOR_MAX);
    if own.1 then Permit(own.0, "global", now / MINUTE, GLOBAL_MAX) else own
  }

  // ---- Exactly which messages pass ------------------------------------------------------------------

  lemma {:induction false} CountIsGranted(requests: seq<Request>, max: string -> int, key: string, minute: int)
    requires InOrder(requests) && (forall r <- requests :: r.minute <= minute) && max(key) >= 0
    ensures CountIn(Current(Windows(requests, max), minute), key) == Granted(requests, max, key, minute)
  {
    GrantsAreBounded(requests, max, key, minute);
    WindowsAgree(requests, max, key, minute);
  }

  lemma {:induction false} WindowsAreUsed(requests: seq<Request>, max: string -> int)
    ensures forall k <- Windows(requests, max) :: Windows(requests, max)[k].count > 0
    ensures forall k <- Windows(requests, max) :: exists r <- requests :: r.key == k
    decreases |requests|
  {
    if requests != [] {
      var before, r := requests[..|requests| - 1], requests[|requests| - 1];
      WindowsAreUsed(before, max);
      assert requests == before + [r] && r in requests;
      forall k | k in Windows(requests, max) ensures exists x <- requests :: x.key == k {
        if k != r.key {
          assert k in Windows(before, max);
          var x :| x in before && x.key == k;
          assert x in requests;
        }
      }
    }
  }

  /** The keys of which some request has passed within the minute. */
  function GrantedKeys(requests: seq<Request>, max: string -> int, minute: int): set<string> {
    set r <- requests | Granted(requests, max, r.key, minute) > 0 :: r.key
  }

  /** A request passes exactly if fewer of its key than the maximum have passed within its minute, and
      fewer than ten thousand keys have had a request pass. */
  lemma PassesIff(requests: seq<Request>, max: string -> int)
    requires requests != [] && InOrder(requests) && forall k :: max(k) >= 0
    ensures var before, r := requests[..|requests| - 1], requests[|requests| - 1];
            Passed(requests, max) <==>
            Granted(before, max, r.key, r.minute) < max(r.key) && |GrantedKeys(before, max, r.minute)| < 10_000
  {
    var before, r := requests[..|requests| - 1], requests[|requests| - 1];
    CountIsGranted(before, max, r.key, r.minute);
    KeysAreGranted(before, max, r.minute);
  }

  lemma KeysAreGranted(requests: seq<Request>, max: string -> int, minute: int)
    requires InOrder(requests) && (forall r <- requests :: r.minute <= minute) && forall k :: max(k) >= 0
    ensures Current(Windows(requests, max), minute).Keys == GrantedKeys(requests, max, minute)
  {
    WindowsAreUsed(requests, max);
    forall k ensures k in Current(Windows(requests, max), minute) <==> k in GrantedKeys(requests, max, minute) {
      CountIsGranted(requests, max, k, minute);
    }
  }

  /** A message that has come as far as the limits. */
  datatype Message = Message(actor: string, now: int)

  function MaxOf(key: string): int {
    if key == "global" then 50 else 10
  }

  function OwnRequest(m: Message): Request {
    Request("actor:" + m.actor, m.now / MINUTE)
  }

  /** What the messages ask for: each asks for its actor, and, if that passes, for all. */
  function Requests(ms: seq<Message>): seq<Request>
    decreases |ms|, 1
  {
    if ms == [] then []
    else if Passed(Asks(ms), MaxOf) then Asks(ms) + [Request("global", ms[|ms| - 1].now / MINUTE)]
    else Asks(ms)
  }

  /** The last message's own request, with those before it. */
  function Asks(ms: seq<Message>): seq<Request>
    requires ms != []
    decreases |ms|, 0
  {
    Requests(ms[..|ms| - 1]) + [OwnRequest(ms[|ms| - 1])]
  }

  /** The windows the relay holds after these messages. */
  function LimitsAfter(ms: seq<Message>): map<string, Window> {
    if ms == [] then map[] else Admission(LimitsAfter(ms[..|ms| - 1]), ms[|ms| - 1].actor, ms[|ms| - 1].now).0
  }

  /** The last of the messages passes both limits. */
  predicate Admitted(ms: seq<Message>)
    requires ms != []
  {
    Admission(LimitsAfter(ms[..|ms| - 1]), ms[|ms| - 1].actor, ms[|ms| - 1].now).1
  }

  function AdmittedIn(ms: seq<Message>, minute: int): nat {
    if ms == [] then 0
    else
      AdmittedIn(ms[..|ms| - 1], minute) + if ms[|ms| - 1].now / MINUTE == minute && Admitted(ms) then 1 else 0
  }

  lemma OwnIsNotGlobal(actor: string)
    ensures "actor:" + actor != "global"
  {
    assert ("actor:" + actor)[0] == 'a';
  }

  /** One more request. */
  lemma OneMore(requests: seq<Request>, max: string -> int, r: Request)
    ensures var p := Permit(Windows(requests, max), r.key, r.minute, max(r.key));
            Windows(requests + [r], max) == p.0 && Passed(requests + [r], max) == p.1
  {
    assert (requests + [r])[..|requests|] == requests;
  }

  lemma {:induction false} LimitsAreWindows(ms: seq<Message>)
    ensures LimitsAfter(ms) == Windows(Requests(ms), MaxOf)
    ensures ms != [] ==>
              var all := Asks(ms) + [Request("global", ms[|ms| - 1].now / MINUTE)];
              Admitted(ms) <==> Passed(Asks(ms), MaxOf) && Passed(all, MaxOf)
    decreases |ms|
  {
    if ms != [] {
      var before, m := ms[..|ms| - 1], ms[|ms| - 1];
      LimitsAreWindows(before);
      OwnIsNotGlobal(m.actor);
      OneMore(Requests(before), MaxOf, OwnRequest(m));
      OneMore(Asks(ms), MaxOf, Request("global", m.now / MINUTE));
    }
  }

  predicate InTime(ms: seq<Message>) {
    forall i, j :: 0 <= i < j < |ms| ==> ms[i].now <= ms[j].now
  }

  lemma NoLaterMinute(a: int, b: int)
    requires a <= b
    ensures a / MINUTE <= b / MINUTE
  {
  }

  predicate OrderedUpTo(requests: seq<Request>, minute: int) {
    InOrder(requests) && forall r <- requests :: r.minute <= minute
  }

  lemma OneMoreInOrder(requests: seq<Request>, minute: int, r: Request)
    requires OrderedUpTo(requests, minute) && minute <= r.minute
    ensures OrderedUpTo(requests + [r], r.minute)
  {
  }

  lemma {:induction false} RequestsInOrder(ms: seq<Message>)
    requires InTime(ms) && ms != []
    ensures var minute := ms[|ms| - 1].now / MINUTE;
            && OrderedUpTo(Requests(ms[..|ms| - 1]), minute) && OrderedUpTo(Asks(ms), minute)
            && OrderedUpTo(Asks(ms) + [Request("global", minute)], minute)
    decreases |ms|
  {
    var before, minute := ms[..|ms| - 1], ms[|ms| - 1].now / MINUTE;
    var last := minute;
    if before != [] {
      last := before[|before| - 1].now / MINUTE;
      RequestsInOrder(before);
      NoLaterMinute(before[|before| - 1].now, ms[|ms| - 1].now);
    }
    assert OrderedUpTo(Requests(before), last);
    OneMoreInOrder(Requests(before), last, OwnRequest(ms[|ms| - 1]));
    OneMoreInOrder(Asks(ms), minute, Request("global", minute));
  }

  lemma {:induction false} AdmittedAreGranted(ms: seq<Message>, minute: int)
    ensures AdmittedIn(ms, minute) == Granted(Requests(ms), MaxOf, "global", minute)
    decreases |ms|
  {
    if ms != [] {
      var own := Asks(ms);
      AdmittedAreGranted(ms[..|ms| - 1], minute);
      LimitsAreWindows(ms);
      OwnIsNotGlobal(ms[|ms| - 1].actor);
      assert own[..|own| - 1] == Requests(ms[..|ms| - 1]);
      if Passed(own, MaxOf) {
        assert Requests(ms)[..|own|] == own;
      }
    }
  }

  /** The keys with a window once the last message's actor has passed. */
  function KeysWith(ms: seq<Message>): set<string>
    requires ms != []
  {
    GrantedKeys(Requests(ms[..|ms| - 1]), MaxOf, ms[|ms| - 1].now / MINUTE) + {OwnRequest(ms[|ms| - 1]).key}
  }

  lemma OneMoreGranted(requests: seq<Request>, max: string -> int, r: Request, key: string, minute: int)
    ensures Granted(requests + [r], max, key, minute) ==
            Granted(requests, max, key, minute)
            + if r.key == key && r.minute == minute && Passed(requests + [r], max) then 1 else 0
  {
    assert (requests + [r])[..|requests|] == requests;
  }

  lemma {:induction false} GrantedWasAsked(requests: seq<Request>, max: string -> int, key: string, minute: int)
    ensures key in GrantedKeys(requests, max, minute) <==> Granted(requests, max, key, minute) > 0
    decreases |requests|
  {
    if requests != [] {
      var before, r := requests[..|requests| - 1], requests[|requests| - 1];
      GrantedWasAsked(before, max, key, minute);
      assert requests == before + [r] && r in requests;
      if r.key != key && key in GrantedKeys(before, max, minute) {
        var x :| x in before && x.key == key;
        assert x in requests;
      }
    }
  }

  lemma OneMoreKey(requests: seq<Request>, max: string -> int, r: Request)
    requires Passed(requests + [r], max)
    ensures GrantedKeys(requests + [r], max, r.minute) == GrantedKeys(requests, max, r.minute) + {r.key}
  {
    forall key
      ensures key in GrantedKeys(requests + [r], max, r.minute) <==>
              key in GrantedKeys(requests, max, r.minute) + {r.key}
    {
      GrantedWasAsked(requests + [r], max, key, r.minute);
      GrantedWasAsked(requests, max, key, r.minute);
      OneMoreGranted(requests, max, r, key, r.minute);
    }
  }

  /** A message passes exactly if fewer than ten requests of its actor have passed in its minute, fewer
      than fifty messages have been admitted in it, and there are windows left. */
  lemma AdmittedIff(ms: seq<Message>)
    requires ms != [] && InTime(ms)
    ensures var before, m := ms[..|ms| - 1], ms[|ms| - 1];
            Admitted(ms) <==>
              && Granted(Requests(before), MaxOf, "actor:" + m.actor, m.now / MINUTE) < 10
              && AdmittedIn(before, m.now / MINUTE) < 50
              && |KeysWith(ms)| < 10_000
  {
    var before, m := ms[..|ms| - 1], ms[|ms| - 1];
    var own, minute := Asks(ms), m.now / MINUTE;
    var all := own + [Request("global", minute)];
    LimitsAreWindows(ms);
    RequestsInOrder(ms);
    OwnIsNotGlobal(m.actor);
    assert own[..|own| - 1] == Requests(before);
    PassesIff(own, MaxOf);
    AdmittedAreGranted(before, minute);
    OneMoreGranted(Requests(before), MaxOf, OwnRequest(m), "global", minute);
    FewerKeys(GrantedKeys(Requests(before), MaxOf, minute), OwnRequest(m).key);
    if Passed(own, MaxOf) {
      assert all[..|all| - 1] == own;
      PassesIff(all, MaxOf);
      OneMoreKey(Requests(before), MaxOf, OwnRequest(m));
    }
  }

  lemma FewerKeys(keys: set<string>, key: string)
    ensures |keys| <= |keys + {key}|
  {
    if key !in keys { assert |keys + {key}| == |keys| + 1; } else { assert keys + {key} == keys; }
  }

  /** How many messages of an actor came within the minute. */
  function Wrote(ms: seq<Message>, actor: string, minute: int): nat {
    if ms == [] then 0
    else
      var m := ms[|ms| - 1];
      Wrote(ms[..|ms| - 1], actor, minute) + if m.actor == actor && m.now / MINUTE == minute then 1 else 0
  }

  function Actors(ms: seq<Message>): set<string> {
    set m <- ms :: m.actor
  }

  function KeysOf(actors: set<string>): set<string> {
    (set a <- actors :: "actor:" + a) + {"global"}
  }

  lemma {:induction false} FewKeys(actors: set<string>)
    ensures |KeysOf(actors)| <= |actors| + 1
  {
    if actors != {} {
      var a :| a in actors;
      FewKeys(actors - {a});
      assert KeysOf(actors) == KeysOf(actors - {a}) + {"actor:" + a};
    } else {
      assert KeysOf(actors) == {"global"};
    }
  }

  lemma {:induction false} RequestsAreOf(ms: seq<Message>)
    ensures forall r <- Requests(ms) :: r.key in KeysOf(Actors(ms))
    decreases |ms|
  {
    if ms != [] {
      RequestsAreOf(ms[..|ms| - 1]);
      assert Actors(ms) == Actors(ms[..|ms| - 1]) + {ms[|ms| - 1].actor};
    }
  }

  /** There are always windows left for a few thousand actors. */
  lemma WindowsLeft(ms: seq<Message>)
    requires ms != [] && |Actors(ms)| < 9_999
    ensures |KeysWith(ms)| < 10_000
  {
    var before := ms[..|ms| - 1];
    RequestsAreOf(before);
    assert Actors(ms) == Actors(before) + {ms[|ms| - 1].actor};
    assert KeysWith(ms) <= KeysOf(Actors(ms));
    FewKeys(Actors(ms));
    Smaller(KeysWith(ms), KeysOf(Actors(ms)));
  }

  lemma {:induction false} Smaller(a: set<string>, b: set<string>)
    requires a <= b
    ensures |a| <= |b|
  {
    assert b == a + (b - a);
  }

  /** Of an actor the first ten messages within a minute pass its own limit. */
  lemma {:induction false} FirstTenPass(ms: seq<Message>, actor: string, minute: int)
    requires InTime(ms) && |Actors(ms)| < 9_999
    ensures Granted(Requests(ms), MaxOf, "actor:" + actor, minute) ==
            if Wrote(ms, actor, minute) < 10 then Wrote(ms, actor, minute) else 10
    decreases |ms|
  {
    if ms != [] {
      var before, m, own := ms[..|ms| - 1], ms[|ms| - 1], Asks(ms);
      Smaller(Actors(before), Actors(ms));
      FirstTenPass(before, actor, minute);
      RequestsInOrder(ms);
      PassesIff(own, MaxOf);
      assert own[..|own| - 1] == Requests(before);
      FewerKeys(GrantedKeys(Requests(before), MaxOf, m.now / MINUTE), OwnRequest(m).key);
      WindowsLeft(ms);
      OwnIsNotGlobal(actor);
      OwnIsNotGlobal(m.actor);
      SameActor(actor, m.actor);
      OneMoreGranted(Requests(before), MaxOf, OwnRequest(m), "actor:" + actor, minute);
      OneMoreGranted(own, MaxOf, Request("global", m.now / MINUTE), "actor:" + actor, minute);
    }
  }

  lemma SameActor(a: string, b: string)
    ensures "actor:" + a == "actor:" + b <==> a == b
  {
    assert ("actor:" + a)[6..] == a && ("actor:" + b)[6..] == b;
  }

  /** So as long as fewer than ten thousand write: exactly if fewer than ten messages of its actor came
      before it within its minute, and fewer than fifty messages were admitted in it. */
  lemma AdmittedAmongFew(ms: seq<Message>)
    requires ms != [] && InTime(ms) && |Actors(ms)| < 9_999
    ensures var before, m := ms[..|ms| - 1], ms[|ms| - 1];
            Admitted(ms) <==> Wrote(before, m.actor, m.now / MINUTE) < 10 && AdmittedIn(before, m.now / MINUTE) < 50
  {
    var before, m := ms[..|ms| - 1], ms[|ms| - 1];
    Smaller(Actors(before), Actors(ms));
    FirstTenPass(before, m.actor, m.now / MINUTE);
    WindowsLeft(ms);
    AdmittedIff(ms);
  }
}
