/** The retry loop around a lane's job (internal/delivery/lanes.go:132-143, 202-243). Durations
    are nanoseconds in an int64. */
module RetryLoop {
  import opened Basics
  import opened Failures

  const TWO_62: int := 0x4000_0000_0000_0000

  datatype Policy = Policy(maxAttempts: int, maxWindow: int, baseDelay: int, maxDelay: int) {
    /** What SetRetryPolicy accepts. */
    predicate Valid() {
      maxAttempts > 0 && maxWindow > 0 && 0 < baseDelay <= maxDelay < 2 * TWO_62
    }
  }

  /** How one attempt turns out: whether the window has elapsed after a failure, and whether the
      wait that follows is interrupted. */
  datatype Outcome = Succeeded | Failed(failure: Failure, windowElapsed: bool, interrupted: bool)

  /** Attempt n of the job, a wait after attempt n, the one cancelled attempt after an interrupted
      wait, the OnExhausted callback. */
  datatype Event = Attempt(n: int) | Wait(after: int, delay: int) | CancelledAttempt(n: int) | Exhausted

  type World = int -> Outcome

  // ---- The delay --------------------------------------------------------------------------------

  /** An int64 holds this of an integer. */
  function Wrap(n: int): int {
    (n + 2 * TWO_62) % (4 * TWO_62) - 2 * TWO_62
  }

  /** int64 multiplication by two */
  function Doubled(n: int): int {
    Wrap(2 * n)
  }

  /** The doubling loop, from its i-th turn. */
  function DoubleFrom(p: Policy, delay: int, i: int, attempt: int): int
    decreases attempt - i
  {
    if i >= attempt then delay
    else
      var next := Doubled(delay);
      if next >= p.maxDelay then p.maxDelay else DoubleFrom(p, next, i + 1, attempt)
  }

  function Clamp(p: Policy, delay: int): int {
    if delay > p.maxDelay then p.maxDelay else delay
  }

  function Delay(p: Policy, retryAfter: int, attempt: int): int {
    Clamp(p, if retryAfter > 0 then retryAfter else DoubleFrom(p, p.baseDelay, 1, attempt))
  }

  method ComputeDelay(p: Policy, retryAfter: int, attempt: int) returns (delay: int)
    ensures delay == Delay(p, retryAfter, attempt)
  {
    delay := retryAfter;
    if delay <= 0 {
      delay := p.baseDelay;
      var i := 1;
      ghost var goal := DoubleFrom(p, delay, i, attempt);
      while i < attempt
        invariant DoubleFrom(p, delay, i, attempt) == goal
      {
        delay := Doubled(delay);
        if delay >= p.maxDelay {
          delay := p.maxDelay;
          break;
        }
        i := i + 1;
      }
      assert delay == goal;
    }
    if delay > p.maxDelay {
      delay := p.maxDelay;
    }
  }

  function Min(a: int, b: int): int {
    if a < b then a else b
  }

  /** The base delay doubled k times, beyond any integer width. */
  function Ideal(p: Policy, k: nat): int {
    p.baseDelay * Pow2(k)
  }

  lemma IdealNext(p: Policy, k: nat)
    ensures Ideal(p, k + 1) == 2 * Ideal(p, k)
  {
  }

  lemma {:induction false} IdealGrows(p: Policy, j: nat, k: nat)
    requires p.Valid() && j <= k
    ensures 0 < p.baseDelay <= Ideal(p, j) <= Ideal(p, k)
    decreases k
  {
    if k == 0 {
      assert Ideal(p, 0) == p.baseDelay;
    } else {
      IdealNext(p, k - 1);
      IdealGrows(p, if j < k then j else j - 1, k - 1);
      if j == k {
        IdealNext(p, j - 1);
      }
    }
  }

  lemma WrapDoubles(n: int)
    ensures Doubled(Wrap(n)) == Wrap(2 * n)
  {
    var q := (n + 2 * TWO_62) / (4 * TWO_62);
    assert Wrap(n) == n - 4 * TWO_62 * q;
    assert 2 * Wrap(n) + 2 * TWO_62 == (2 * n + 2 * TWO_62) - (4 * TWO_62) * (2 * q);
    ModuloMultiple(2 * n + 2 * TWO_62, 2 * q);
  }

  lemma {:induction false} ModuloMultiple(n: int, q: int)
    ensures (n - (4 * TWO_62) * q) % (4 * TWO_62) == n % (4 * TWO_62)
    decreases if q < 0 then -q else q
  {
    if q > 0 {
      ModuloMultiple(n, q - 1);
      assert n - (4 * TWO_62) * (q - 1) == n - (4 * TWO_62) * q + 4 * TWO_62;
    } else if q < 0 {
      ModuloMultiple(n, q + 1);
      assert n - (4 * TWO_62) * (q + 1) == n - (4 * TWO_62) * q - 4 * TWO_62;
    }
  }

  /** At one of the doublings from the i-th to before the n-th the loop meets its maximum. */
  ghost predicate Meets(p: Policy, i: nat, n: nat) {
    exists k: nat :: i <= k < n && MeetsAt(p, k)
  }

  predicate MeetsAt(p: Policy, k: nat) {
    p.maxDelay <= Wrap(Ideal(p, k))
  }

  /** What the loop computes: the maximum once a doubling has come to it in 64 bits, and before that
      what is left of the doubled base in 64 bits. */
  lemma {:induction false} DoubleFromIs(p: Policy, i: nat, n: nat)
    requires 1 <= i <= n
    ensures DoubleFrom(p, Wrap(Ideal(p, i - 1)), i, n) == if Meets(p, i, n) then p.maxDelay else Wrap(Ideal(p, n - 1))
    decreases n - i
  {
    if i < n {
      WrapDoubles(Ideal(p, i - 1));
      IdealNext(p, i - 1);
      if !MeetsAt(p, i) {
        DoubleFromIs(p, i + 1, n);
        assert Meets(p, i, n) <==> Meets(p, i + 1, n);
      }
    }
  }

  /** Up to 2^63 nothing is lost; beyond it the sign is, at first. */
  lemma WrapOf(n: int)
    ensures 0 <= n < 2 * TWO_62 ==> Wrap(n) == n
    ensures 2 * TWO_62 <= n < 4 * TWO_62 ==> Wrap(n) < 0
    ensures 0 <= n ==> Wrap(n) <= n
  {
  }

  predicate Exact(p: Policy, n: nat)
    requires n >= 1
  {
    Delay(p, 0, n) == Min(Ideal(p, n - 1), p.maxDelay)
  }

  /** Under any valid policy, the delay after attempt n is the doubled base up to the maximum exactly if
      the doublings up to it fit into 63 bits, or the loop has met its maximum before. */
  lemma DelayDoubles(p: Policy, n: nat)
    requires p.Valid() && n >= 1
    ensures Exact(p, n) <==> Ideal(p, n - 1) < 2 * TWO_62 || Meets(p, 1, n)
  {
    assert Ideal(p, 0) == p.baseDelay;
    WrapOf(Ideal(p, 0));
    DoubleFromIs(p, 1, n);
    IdealGrows(p, 0, n - 1);
    WrapOf(Ideal(p, n - 1));
    if Meets(p, 1, n) {
      var k: nat :| 1 <= k < n && MeetsAt(p, k);
      IdealGrows(p, 0, k);
      IdealGrows(p, k, n - 1);
      WrapOf(Ideal(p, k));
    } else if n > 1 {
      assert !MeetsAt(p, n - 1);
    }
  }

  /** No doubling up to the n-th delay leaves 63 bits before it has come to the maximum. */
  ghost predicate Fits(p: Policy, n: nat)
    requires n >= 1
  {
    Ideal(p, n - 1) < 2 * TWO_62 || exists k: nat :: 1 <= k < n && p.maxDelay <= Ideal(p, k) < 2 * TWO_62
  }

  lemma FitsMore(p: Policy, n: nat)
    requires p.Valid() && n >= 1
    ensures Fits(p, n + 1) ==> Fits(p, n) && Exact(p, n + 1)
    ensures Fits(p, n) && Exact(p, n + 1) ==> Fits(p, n + 1)
  {
    DelayDoubles(p, n + 1);
    IdealGrows(p, n - 1, n);
    IdealGrows(p, 0, n - 1);
    IdealNext(p, n - 1);
    WrapOf(Ideal(p, n));
    if k: nat :| 1 <= k < n + 1 && p.maxDelay <= Ideal(p, k) < 2 * TWO_62 {
      WrapOf(Ideal(p, k));
      assert MeetsAt(p, k);
    }
    if Ideal(p, n - 1) < 2 * TWO_62 && Meets(p, 1, n + 1) {
      var k: nat :| 1 <= k < n + 1 && MeetsAt(p, k);
      IdealGrows(p, 0, k);
      WrapOf(Ideal(p, k));
      if k < n {
        IdealGrows(p, k, n - 1);
      }
    }
  }

  /** Under any valid policy, all of the first n delays are the doubled base up to the maximum exactly
      if every doubling that is made keeps within 63 bits. */
  lemma {:induction false} DelaysExactIff(p: Policy, n: nat)
    requires p.Valid() && n >= 1
    ensures (forall m: nat | 1 <= m <= n :: Exact(p, m)) <==> Fits(p, n)
  {
    if n == 1 {
      DelayDoubles(p, 1);
      assert Ideal(p, 0) == p.baseDelay;
    } else {
      DelaysExactIff(p, n - 1);
      FitsMore(p, n - 1);
      assert (forall m: nat | 1 <= m <= n :: Exact(p, m)) <==>
             (forall m: nat | 1 <= m <= n - 1 :: Exact(p, m)) && Exact(p, n);
    }
  }

  /** With a maximum of at most 2^62 that is so exactly if the base is below 2^62, or there is but one
      delay. */
  lemma SmallMaximum(p: Policy, n: nat)
    requires p.Valid() && p.maxDelay <= TWO_62 && n >= 1
    ensures Fits(p, n) <==> n == 1 || p.baseDelay < TWO_62
  {
    assert Ideal(p, 0) == p.baseDelay;
    if p.baseDelay < TWO_62 {
      ReachesMaximum(p, n);
    } else if n > 1 {
      IdealNext(p, 0);
      forall k: nat | 1 <= k ensures Ideal(p, k) >= 2 * TWO_62 { IdealGrows(p, 1, k); }
    }
  }

  lemma {:induction false} ReachesMaximum(p: Policy, n: nat)
    requires p.Valid() && p.maxDelay <= TWO_62 && p.baseDelay < TWO_62 && n >= 1
    ensures Fits(p, n)
  {
    assert Ideal(p, 0) == p.baseDelay;
    if n > 1 {
      ReachesMaximum(p, n - 1);
      IdealNext(p, n - 2);
      IdealGrows(p, 0, n - 2);
    }
  }

  /** A policy with a base of 2^61 and the largest maximum is valid; its third delay is -2^63. */
  lemma LargeMaximumOverflows(attempts: int)
    requires attempts > 0
    ensures var p := Policy(attempts, 1, TWO_62 / 2, 2 * TWO_62 - 1);
            p.Valid() && Delay(p, 0, 3) == -2 * TWO_62 && !Fits(p, 3)
  {
    var p := Policy(attempts, 1, TWO_62 / 2, 2 * TWO_62 - 1);
    assert Pow2(1) == 2 && Pow2(2) == 4;
    assert DoubleFrom(p, TWO_62 / 2, 1, 3) == DoubleFrom(p, TWO_62, 2, 3) == DoubleFrom(p, -2 * TWO_62, 3, 3);
  }

  /** A requested delay is honoured up to the maximum; no delay exceeds it. */
  lemma DelayIsBounded(p: Policy, retryAfter: int, n: int)
    requires p.Valid()
    ensures Delay(p, retryAfter, n) <= p.maxDelay
    ensures retryAfter > 0 ==> Delay(p, retryAfter, n) == Min(retryAfter, p.maxDelay)
  {
  }

  // ---- The loop ---------------------------------------------------------------------------------

  function Steps(p: Policy, world: World, n: int): seq<Event>
    decreases p.maxAttempts - n
  {
    if n > p.maxAttempts then []
    else match world(n)
      case Succeeded => [Attempt(n)]
      case Failed(failure, windowElapsed, interrupted) =>
        if !failure.retryable || n == p.maxAttempts || windowElapsed then [Attempt(n), Exhausted]
        else
          var wait := Wait(n, Delay(p, failure.retryAfter, n));
          if interrupted then [Attempt(n), wait, CancelledAttempt(n + 1), Exhausted]
          else [Attempt(n), wait] + Steps(p, world, n + 1)
  }

  // ---- What the loop promises -------------------------------------------------------------------

  /** How often each kind of event occurs, and the waiting requested in all. */
  datatype Tally = Tally(attempts: nat, cancelled: nat, exhausted: nat, waits: nat, waited: int) {
    function Add(e: Event): Tally {
      match e
      case Attempt(_) => this.(attempts := attempts + 1)
      case CancelledAttempt(_) => this.(cancelled := cancelled + 1)
      case Exhausted => this.(exhausted := exhausted + 1)
      case Wait(_, delay) => this.(waits := waits + 1, waited := waited + delay)
    }
  }

  function Count(t: seq<Event>): Tally {
    if t == [] then Tally(0, 0, 0, 0, 0) else Count(t[1..]).Add(t[0])
  }

  lemma CountCons(e: Event, t: seq<Event>)
    ensures Count([e] + t) == Count(t).Add(e)
  {
    assert ([e] + t)[1..] == t;
  }

  lemma CountPair(a: Event, b: Event, t: seq<Event>)
    ensures Count([a, b] + t) == Count(t).Add(b).Add(a)
  {
    assert [a, b] + t == [a] + ([b] + t);
    CountCons(a, [b] + t);
    CountCons(b, t);
  }

  /** A regular attempt was made and succeeded. */
  ghost predicate SomeSuccess(t: seq<Event>, world: World) {
    exists n :: Attempt(n) in t && world(n).Succeeded?
  }

  predicate Bounded(p: Policy, n: int, c: Tally) {
    && 1 <= c.attempts <= p.maxAttempts - n + 1
    && c.cancelled <= 1
    && c.waits <= p.maxAttempts - n
    && c.waited <= c.waits * p.maxDelay
  }

  /** The loop ends after attempt n, or goes on to the next. */
  predicate Ends(p: Policy, world: World, n: int) {
    match world(n)
    case Succeeded => true
    case Failed(failure, windowElapsed, interrupted) =>
      !failure.retryable || n == p.maxAttempts || windowElapsed || interrupted
  }

  lemma LastStep(p: Policy, world: World, n: int)
    requires p.Valid() && 1 <= n <= p.maxAttempts && Ends(p, world, n)
    ensures Bounded(p, n, Count(Steps(p, world, n)))
    ensures Count(Steps(p, world, n)).exhausted == if SomeSuccess(Steps(p, world, n), world) then 0 else 1
  {
    var t := Steps(p, world, n);
    assert Attempt(n) in t;
    match world(n)
    case Succeeded =>
      CountCons(Attempt(n), []);
      assert t == [Attempt(n)] + [];
    case Failed(failure, windowElapsed, interrupted) =>
      CountPair(Attempt(n), Exhausted, []);
      assert [Attempt(n), Exhausted] == [Attempt(n), Exhausted] + [];
      var wait := Wait(n, Delay(p, failure.retryAfter, n));
      DelayIsBounded(p, failure.retryAfter, n);
      CountPair(CancelledAttempt(n + 1), Exhausted, []);
      CountPair(Attempt(n), wait, [CancelledAttempt(n + 1), Exhausted]);
      assert [CancelledAttempt(n + 1), Exhausted] == [CancelledAttempt(n + 1), Exhausted] + [];
      assert [Attempt(n), wait, CancelledAttempt(n + 1), Exhausted] ==
             [Attempt(n), wait] + [CancelledAttempt(n + 1), Exhausted];
  }

  /** The bounds, from attempt n on. */
  lemma {:induction false} StepsKeep(p: Policy, world: World, n: int)
    requires p.Valid() && 1 <= n <= p.maxAttempts
    ensures Bounded(p, n, Count(Steps(p, world, n)))
    ensures Count(Steps(p, world, n)).exhausted == if SomeSuccess(Steps(p, world, n), world) then 0 else 1
    decreases p.maxAttempts - n
  {
    if Ends(p, world, n) {
      LastStep(p, world, n);
    } else {
      var t, rest := Steps(p, world, n), Steps(p, world, n + 1);
      var wait := Wait(n, Delay(p, world(n).failure.retryAfter, n));
      DelayIsBounded(p, world(n).failure.retryAfter, n);
      StepsKeep(p, world, n + 1);
      CountPair(Attempt(n), wait, rest);
      assert SomeSuccess(t, world) <==> SomeSuccess(rest, world);
      MoreWaiting(Count(rest).waits, p.maxDelay);
    }
  }

  lemma MoreWaiting(waits: int, maxDelay: int)
    ensures (waits + 1) * maxDelay == waits * maxDelay + maxDelay
  {
  }

  /** Regular attempts carry the numbers 1, 2, ... and each wait is the one its attempt calls for. */
  lemma {:induction false} StepsNumbered(p: Policy, world: World, n: int, e: Event)
    requires p.Valid() && 1 <= n && e in Steps(p, world, n)
    ensures e.Attempt? ==> n <= e.n <= p.maxAttempts
    ensures e.Wait? ==>
              && n <= e.after < p.maxAttempts && world(e.after).Failed?
              && e.delay == Delay(p, world(e.after).failure.retryAfter, e.after)
    ensures e.CancelledAttempt? ==> n < e.n <= p.maxAttempts && world(e.n - 1).Failed? && world(e.n - 1).interrupted
    decreases p.maxAttempts - n
  {
    if n <= p.maxAttempts && !Ends(p, world, n) && e in Steps(p, world, n + 1) {
      StepsNumbered(p, world, n + 1, e);
    }
  }

  /** The whole job: at most MaxAttempts regular attempts and at most one cancelled one;
      OnExhausted exactly once if no regular attempt succeeds and never otherwise; and in all at
      most (MaxAttempts - 1) times the maximum delay of waiting. */
  lemma RetryIsBounded(p: Policy, world: World)
    requires p.Valid()
    ensures var c := Count(Steps(p, world, 1));
            && c.attempts <= p.maxAttempts && c.cancelled <= 1
            && c.exhausted == (if SomeSuccess(Steps(p, world, 1), world) then 0 else 1)
            && c.waited <= (p.maxAttempts - 1) * p.maxDelay
  {
    StepsKeep(p, world, 1);
    var c := Count(Steps(p, world, 1));
    FewerWaits(c.waits, p.maxAttempts - 1, p.maxDelay);
  }

  lemma FewerWaits(a: int, b: int, d: int)
    requires a <= b && d >= 0
    ensures a * d <= b * d
  {
  }

  // ---- What happens, and in which order ------------------------------------------------------------

  /** Attempt n calls for another one: it fails in a way worth retrying, attempts remain, and the window
      has not elapsed. */
  predicate CallsForMore(p: Policy, world: World, n: int) {
    world(n).Failed? && world(n).failure.retryable && n < p.maxAttempts && !world(n).windowElapsed
  }

  predicate Interrupted(world: World, n: int) {
    world(n).Failed? && world(n).interrupted
  }

  /** What may come after an event: a success ends the job; an attempt that calls for more is followed by
      its wait, any other failure by OnExhausted; a wait by the next attempt or, interrupted, by the
      cancelled one; that by OnExhausted; and OnExhausted by nothing. */
  predicate Follows(p: Policy, world: World, e: Event, rest: seq<Event>) {
    match e
    case Attempt(n) =>
      if world(n).Succeeded? then rest == []
      else if CallsForMore(p, world, n) then rest != [] && rest[0] == Wait(n, Delay(p, world(n).failure.retryAfter, n))
      else rest == [Exhausted]
    case Wait(n, _) =>
      rest != [] && rest[0] == if Interrupted(world, n) then CancelledAttempt(n + 1) else Attempt(n + 1)
    case CancelledAttempt(_) => rest == [Exhausted]
    case Exhausted => rest == []
  }

  predicate InOrder(p: Policy, world: World, t: seq<Event>) {
    t == [] || (Follows(p, world, t[0], t[1..]) && InOrder(p, world, t[1..]))
  }

  /** A trace of the job from attempt n on. */
  predicate IsTrace(p: Policy, world: World, n: int, t: seq<Event>) {
    t != [] && t[0] == Attempt(n) && InOrder(p, world, t)
  }

  lemma InOrderCons(p: Policy, world: World, e: Event, rest: seq<Event>)
    ensures InOrder(p, world, [e] + rest) <==> Follows(p, world, e, rest) && InOrder(p, world, rest)
  {
    assert ([e] + rest)[1..] == rest;
  }

  /** An attempt and its wait go before what may come after the wait. */
  lemma OneMoreAttempt(p: Policy, world: World, n: int, rest: seq<Event>)
    requires CallsForMore(p, world, n) && InOrder(p, world, rest) && rest != []
    requires rest[0] == if Interrupted(world, n) then CancelledAttempt(n + 1) else Attempt(n + 1)
    ensures IsTrace(p, world, n, [Attempt(n), Wait(n, Delay(p, world(n).failure.retryAfter, n))] + rest)
  {
    var wait := Wait(n, Delay(p, world(n).failure.retryAfter, n));
    InOrderCons(p, world, wait, rest);
    InOrderCons(p, world, Attempt(n), [wait] + rest);
    assert [Attempt(n), wait] + rest == [Attempt(n)] + ([wait] + rest);
  }

  lemma CancelledEnds(p: Policy, world: World, n: int)
    ensures InOrder(p, world, [CancelledAttempt(n), Exhausted])
  {
    InOrderCons(p, world, CancelledAttempt(n), [Exhausted]);
    assert [CancelledAttempt(n), Exhausted] == [CancelledAttempt(n)] + [Exhausted];
  }

  lemma {:induction false} StepsAreTrace(p: Policy, world: World, n: int)
    requires 1 <= n <= p.maxAttempts
    ensures IsTrace(p, world, n, Steps(p, world, n))
    decreases p.maxAttempts - n
  {
    if !CallsForMore(p, world, n) {
      assert Steps(p, world, n)[1..] == if world(n).Succeeded? then [] else [Exhausted];
    } else {
      var first := [Attempt(n), Wait(n, Delay(p, world(n).failure.retryAfter, n))];
      if Interrupted(world, n) {
        CancelledEnds(p, world, n + 1);
        OneMoreAttempt(p, world, n, [CancelledAttempt(n + 1), Exhausted]);
        assert Steps(p, world, n) == first + [CancelledAttempt(n + 1), Exhausted];
      } else {
        StepsAreTrace(p, world, n + 1);
        OneMoreAttempt(p, world, n, Steps(p, world, n + 1));
        assert Steps(p, world, n) == first + Steps(p, world, n + 1);
      }
    }
  }

  /** There is only one. */
  lemma {:induction false} TraceIsSteps(p: Policy, world: World, n: int, t: seq<Event>)
    requires 1 <= n <= p.maxAttempts && IsTrace(p, world, n, t)
    ensures t == Steps(p, world, n)
    decreases p.maxAttempts - n
  {
    var rest := t[1..];
    if CallsForMore(p, world, n) {
      assert Follows(p, world, t[0], rest) && InOrder(p, world, rest);
      var more := rest[1..];
      assert Follows(p, world, rest[0], more) && InOrder(p, world, more);
      if Interrupted(world, n) {
        assert Follows(p, world, more[0], more[1..]);
        assert more == [more[0]] + more[1..];
      } else {
        TraceIsSteps(p, world, n + 1, more);
      }
      assert t == [t[0], rest[0]] + more;
    } else {
      assert t == [t[0]] + rest;
    }
  }

  ghost predicate Waits(t: seq<Event>, n: int) {
    exists d :: Wait(n, d) in t
  }

  /** Attempt n + 1 is made exactly if attempt n was, calls for more, and its wait is not interrupted; there
      is a wait after attempt n exactly if it was made and calls for more; and a cancelled attempt exactly if
      that wait is interrupted. */
  lemma TraceIff(p: Policy, world: World, t: seq<Event>, n: int)
    requires p.Valid() && 1 <= n && IsTrace(p, world, 1, t)
    ensures Attempt(n + 1) in t <==> Attempt(n) in t && CallsForMore(p, world, n) && !Interrupted(world, n)
    ensures Waits(t, n) <==> Attempt(n) in t && CallsForMore(p, world, n)
    ensures CancelledAttempt(n + 1) in t <==> Attempt(n) in t && CallsForMore(p, world, n) && Interrupted(world, n)
  {
    TraceIsSteps(p, world, 1, t);
    StepsIff(p, world, 1, n);
  }

  lemma {:induction false} StepsIff(p: Policy, world: World, m: int, n: int)
    requires p.Valid() && 1 <= m <= n && m <= p.maxAttempts
    ensures var t := Steps(p, world, m);
            && (Attempt(n + 1) in t <==> Attempt(n) in t && CallsForMore(p, world, n) && !Interrupted(world, n))
            && (Waits(t, n) <==> Attempt(n) in t && CallsForMore(p, world, n))
            && (CancelledAttempt(n + 1) in t <==> Attempt(n) in t && CallsForMore(p, world, n) && Interrupted(world, n))
    decreases p.maxAttempts - m
  {
    var t := Steps(p, world, m);
    if CallsForMore(p, world, m) {
      var wait := Wait(m, Delay(p, world(m).failure.retryAfter, m));
      assert wait in t;
      if !Interrupted(world, m) {
        var rest := Steps(p, world, m + 1);
        assert t == [Attempt(m), wait] + rest;
        StepsAreTrace(p, world, m + 1);
        forall e | e in rest && !e.Exhausted? ensures StartsAt(e) > m { StepsNumbered(p, world, m + 1, e); }
        if m < n {
          StepsIff(p, world, m + 1, n);
          assert Waits(t, n) <==> Waits(rest, n);
        }
      }
    }
  }

  /** The attempt that an event belongs to. */
  function StartsAt(e: Event): int {
    match e
    case Attempt(n) => n
    case Wait(n, _) => n
    case CancelledAttempt(n) => n - 1
    case Exhausted => 0
  }

  lemma TwoMore(before: seq<Event>, a: Event, b: Event, rest: seq<Event>)
    ensures before + [a] + [b] + rest == before + ([a, b] + rest)
  {
    assert before + [a] + [b] == before + [a, b];
  }

  /** The function EnqueueRetry hands to the lane. */
  method RunRetryJob(p: Policy, world: World) returns (trace: seq<Event>)
    ensures trace == Steps(p, world, 1)
    ensures p.Valid() ==> IsTrace(p, world, 1, trace)
  {
    if p.Valid() { StepsAreTrace(p, world, 1); }
    trace := [];
    var n := 1;
    while n <= p.maxAttempts
      invariant trace + Steps(p, world, n) == Steps(p, world, 1)
    {
      ghost var before := trace;
      trace := trace + [Attempt(n)];
      var outcome := world(n);
      if outcome.Succeeded? {
        return trace;
      }
      if !outcome.failure.retryable || n == p.maxAttempts || outcome.windowElapsed {
        trace := trace + [Exhausted];
        assert trace == before + [Attempt(n), Exhausted];
        return trace;
      }
      var delay := ComputeDelay(p, outcome.failure.retryAfter, n);
      trace := trace + [Wait(n, delay)];
      if outcome.interrupted {
        trace := trace + [CancelledAttempt(n + 1)] + [Exhausted];
        assert trace == before + [Attempt(n), Wait(n, delay), CancelledAttempt(n + 1), Exhausted];
        return trace;
      }
      TwoMore(before, Attempt(n), Wait(n, delay), Steps(p, world, n + 1));
      n := n + 1;
    }
  }
}
