/** The deliveries of one message: Router.HandleEvent around Router.Handle, from the lookups that
    precede the fan-out to the pending query that follows it (internal/router/router.go:333-968). */
module MessageCalls {
  import opened Wrappers
  import opened CreateProtocol
  import opened FanOutLedger
  import R = RecoveryCursor

  /** What one delivery brings. `local`: the endpoint is not configured, or the message does not leave
      its group, because it is suppressed, a command, or marked by the local prefix. `targets`: the
      other endpoints of the set, as the routes list them. */
  datatype Delivery = Delivery(fromSelf: bool, local: bool, media: bool, targets: seq<string>)

  /** Where Handle stands: the lookups, the author's checks, resolveCanonical, the tombstone and
      idempotence checks, polls, replies, scopes and media, the fan-out loop, and the query. */
  datatype CallPc =
    LookUp | Identify | Resolve | CheckDeleted(created: bool) | Prepare | Loop(next: nat) | Query

  /** A call in progress. `existed`: the message had its canonical row when looked up. `missing` is
      history: the targets without ledger row and copy when the call began. */
  datatype Call = Call(delivery: Delivery, existed: bool, missing: set<string>, pc: CallPc)

  /** What HandleEvent returned, with the ledger and the tombstone it returned it about. */
  datatype Report = Report(call: Call, outcome: R.Outcome, ledger: Sys, deleted: bool)

  /** `canonical`: the canonical row and the source copy exist; they are created together. */
  datatype Message = Message(sys: Sys, canonical: bool, deleted: bool, call: Option<Call>, report: Option<Report>)

  datatype Happening =
    | Arrive(delivery: Delivery)
    | CallStep(choice: HandlerChoice)
    | JobStep(endpoint: string, event: Event)
    | Delete
    | Sweep
    | Change(key: string, row: Option<OpState>)
    | Restart

  function NewMessage(endpoints: set<string>): Message {
    Message(InitialSys(endpoints), false, false, None, None)
  }

  function Missing(s: Sys, targets: seq<string>): set<string> {
    set t | t in targets && t in s.dests && !Covered(s.dests[t])
  }

  function Goto(m: Message, pc: CallPc): Message
    requires m.call.Some?
  {
    m.(call := Some(m.call.value.(pc := pc)))
  }

  function Return(m: Message, outcome: R.Outcome): Message
    requires m.call.Some?
  {
    m.(call := None, report := Some(Report(m.call.value, outcome, m.sys, m.deleted)))
  }

  /** The pending query joins the ledger with the source copy. */
  predicate SafeToAdvance(m: Message) {
    !(m.canonical && PendingDelivery(m.sys))
  }

  /** One step of a call. */
  function CallNext(m: Message, c: HandlerChoice): Message
    requires m.call.Some?
  {
    var call := m.call.value;
    var dl := call.delivery;
    if call.pc.Loop? then FanOutNext(m, call.pc.next, c)
    else if c.Broken? then Return(m, R.RouterError)
    else match call.pc
      case LookUp =>
        var m' := m.(call := Some(call.(existed := m.canonical)));
        Goto(m', if dl.local then Query else if dl.fromSelf && m.canonical then Resolve else Identify)
      case Identify => Goto(m, Resolve)
      case Resolve => Goto(m.(canonical := true), CheckDeleted(!m.canonical))
      case CheckDeleted(created) =>
        Goto(m, if m.deleted || (dl.fromSelf && !created) then Query else Prepare)
      case Prepare => Goto(m, Loop(0))
      case Query => Return(m, R.Outcome(true, false, SafeToAdvance(m)))
  }

  /** One step of the loop over the targets; the first target that fails ends the call. */
  function FanOutNext(m: Message, i: nat, c: HandlerChoice): Message
    requires m.call.Some?
  {
    var dl := m.call.value.delivery;
    if i >= |dl.targets| then Goto(m, Query)
    else if dl.targets[i] !in m.sys.dests then Return(m, R.RouterError)
    else
      var t := dl.targets[i];
      var d := m.sys.dests[t];
      if d.handler.NotHandling? then m.(sys := SysNext(m.sys, At(t, BeginFanOut(dl.media))))
      else
        var m' := m.(sys := SysNext(m.sys, At(t, HandleStep(c))));
        if m'.sys.dests[t].handler.Handling? then m'
        else if !c.Broken? && d.handler.pc != MarkRefused then Goto(m', Loop(i + 1))
        else Return(m', R.RouterError)
  }

  predicate IsJobEvent(e: Event) {
    e.TakeJob? || e.WorkStep? || e.RetryStep?
  }

  function MessageNext(m: Message, h: Happening): Message {
    match h
    case Arrive(dl) =>
      if m.call.None? && forall t <- dl.targets :: t in m.sys.dests
      then m.(call := Some(Call(dl, false, Missing(m.sys, dl.targets), LookUp)), report := None)
      else m
    case CallStep(c) => if m.call.Some? then CallNext(m, c) else m
    case JobStep(t, e) => if IsJobEvent(e) then m.(sys := SysNext(m.sys, At(t, e))) else m
    case Delete => if m.canonical then m.(deleted := true, sys := SysNext(m.sys, Everywhere(Tombstone))) else m
    case Sweep => m.(sys := SysNext(m.sys, Everywhere(SweepLedger)))
    case Change(key, row) => if m.canonical then m.(sys := SysNext(m.sys, Mutate(key, row))) else m
    case Restart => m.(sys := SysNext(m.sys, Everywhere(Crash)), call := None, report := None)
  }

  function MessageRun(m: Message, hs: seq<Happening>): Message
    decreases |hs|
  {
    if hs == [] then m else MessageNext(MessageRun(m, hs[..|hs| - 1]), hs[|hs| - 1])
  }

  // ---- What a report means ------------------------------------------------------------------------

  /** Handle returns success without a fan-out: the message is for its own group, or was sent by
      the bridge's account and is known already. */
  predicate Skips(c: Call) {
    c.delivery.local || (c.delivery.fromSelf && c.existed)
  }

  ghost predicate AllDone(s: Sys, targets: seq<string>) {
    forall t <- targets :: t in s.dests && Done(s.dests[t])
  }

  /** A safe report means that every target is done, except exactly when the call skipped the
      fan-out of an undeleted message some of whose targets had neither ledger row nor copy. */
  ghost predicate Exact(r: Report) {
    R.Acknowledges(r.outcome) ==>
      (AllDone(r.ledger, r.call.delivery.targets) <==> r.deleted || !Skips(r.call) || r.call.missing == {})
  }

  ghost predicate MissingStill(m: Message, c: Call) {
    forall t <- c.delivery.targets :: t in m.sys.dests && (t in c.missing <==> !Covered(m.sys.dests[t]))
  }

  ghost predicate AllPassed(s: Sys, targets: seq<string>) {
    forall t <- targets :: t in s.dests && s.dests[t].fannedOut
  }

  ghost predicate CallConsistent(m: Message, c: Call) {
    && (forall t <- c.delivery.targets :: t in m.sys.dests)
    && (forall t <- c.missing :: t in c.delivery.targets)
    && match c.pc
       case LookUp => m.deleted || MissingStill(m, c)
       case Identify => c.existed == m.canonical && !Skips(c) && (m.deleted || MissingStill(m, c))
       case Resolve => c.existed == m.canonical && !c.delivery.local && (m.deleted || MissingStill(m, c))
       case CheckDeleted(created) =>
         m.canonical && created == !c.existed && !c.delivery.local && (m.deleted || MissingStill(m, c))
       case Prepare => m.canonical && !Skips(c)
       case Loop(i) =>
         m.canonical && !Skips(c) && i <= |c.delivery.targets| && AllPassed(m.sys, c.delivery.targets[..i])
       case Query =>
         m.deleted || if Skips(c) then MissingStill(m, c) else AllPassed(m.sys, c.delivery.targets)
  }

  /** The fan-out loop is at this destination. */
  predicate LoopIsAt(call: Option<Call>, e: string) {
    && call.Some? && call.value.pc.Loop?
    && call.value.pc.next < |call.value.delivery.targets| && call.value.delivery.targets[call.value.pc.next] == e
  }

  predicate DestConsistent(m: Message, e: string)
    requires e in m.sys.dests
  {
    var d := m.sys.dests[e];
    && d.tombstoned == m.deleted
    && (d.handler.Handling? ==> LoopIsAt(m.call, e))
    && (!m.canonical ==> d.row.None? && !d.fannedOut)
  }

  ghost predicate Consistent(m: Message) {
    && LedgerEverywhere(m.sys)
    && (forall e <- m.sys.dests :: DestConsistent(m, e))
    && (!m.canonical ==> !m.deleted && m.sys.mutations == map[])
    && (m.call.Some? ==> CallConsistent(m, m.call.value))
    && (m.report.Some? ==> Exact(m.report.value))
  }

  // ---- Every step keeps it ------------------------------------------------------------------------

  /** Jobs, sweeps and deletes leave the fan-out's own traces alone. */
  lemma Undisturbed(d: Dest, e: Event)
    requires Ledger(d) && (IsJobEvent(e) || e.SweepLedger? || e.Tombstone?)
    ensures var d' := Next(d, e);
            && d'.handler == d.handler && d'.fannedOut == d.fannedOut
            && d'.tombstoned == (d.tombstoned || e.Tombstone?)
            && (!d.fannedOut && d.row.None? ==> d'.row.None?)
            && (!d'.tombstoned ==> (Covered(d') <==> Covered(d)))
  {
    LedgerNext(d, e);
  }

  predicate FromOutside(h: Happening) {
    h.JobStep? || h.Sweep? || h.Change? || h.Delete?
  }

  lemma OutsideDest(m: Message, h: Happening, e: string)
    requires Consistent(m) && FromOutside(h) && e in m.sys.dests
    ensures var m' := MessageNext(m, h);
            && e in m'.sys.dests && Ledger(m'.sys.dests[e]) && DestConsistent(m', e)
            && m'.sys.dests[e].fannedOut == m.sys.dests[e].fannedOut
            && (!m'.deleted ==> (Covered(m'.sys.dests[e]) <==> Covered(m.sys.dests[e])))
  {
    var d := m.sys.dests[e];
    match h
    case JobStep(_, event) => if IsJobEvent(event) { Undisturbed(d, event); LedgerNext(d, event); }
    case Sweep => Undisturbed(d, SweepLedger); LedgerNext(d, SweepLedger);
    case Delete => Undisturbed(d, Tombstone); LedgerNext(d, Tombstone);
    case _ =>
  }

  lemma OutsideKeeps(m: Message, h: Happening)
    requires Consistent(m) && FromOutside(h)
    ensures Consistent(MessageNext(m, h))
  {
    var m' := MessageNext(m, h);
    forall e | e in m.sys.dests
      ensures e in m'.sys.dests && Ledger(m'.sys.dests[e]) && DestConsistent(m', e)
      ensures m'.sys.dests[e].fannedOut == m.sys.dests[e].fannedOut
      ensures !m'.deleted ==> (Covered(m'.sys.dests[e]) <==> Covered(m.sys.dests[e]))
    {
      OutsideDest(m, h, e);
    }
    OutsideCall(m, m');
  }

  /** A call in progress only depends on what the others leave alone. */
  lemma OutsideCall(m: Message, m': Message)
    requires m.call.Some? ==> CallConsistent(m, m.call.value)
    requires m'.call == m.call && m'.canonical == m.canonical && (m.deleted ==> m'.deleted)
    requires forall e <- m.sys.dests :: e in m'.sys.dests && m'.sys.dests[e].fannedOut == m.sys.dests[e].fannedOut
    requires !m'.deleted ==> forall e <- m.sys.dests :: Covered(m'.sys.dests[e]) <==> Covered(m.sys.dests[e])
    ensures m'.call.Some? ==> CallConsistent(m', m'.call.value)
  {
  }

  /** With nothing pending a destination is done exactly if it has a row or a copy or is deleted,
      which it is once a fan-out has passed it. */
  lemma QuietIsDone(d: Dest)
    requires Ledger(d) && !Active(d.row)
    ensures (Done(d) <==> Covered(d)) && (d.fannedOut ==> Done(d)) && (d.tombstoned ==> Done(d))
  {
  }

  lemma SafeIsQuiet(m: Message, e: string)
    requires Consistent(m) && SafeToAdvance(m) && e in m.sys.dests
    ensures !Active(m.sys.dests[e].row)
  {
    assert DestConsistent(m, e);
  }

  lemma QueryIsExact(m: Message)
    requires Consistent(m) && m.call.Some? && m.call.value.pc == Query
    ensures Exact(Report(m.call.value, R.Outcome(true, false, SafeToAdvance(m)), m.sys, m.deleted))
  {
    var c := m.call.value;
    var targets := c.delivery.targets;
    if SafeToAdvance(m) {
      forall t | t in targets
        ensures t in m.sys.dests && Ledger(m.sys.dests[t]) && m.sys.dests[t].tombstoned == m.deleted
        ensures Done(m.sys.dests[t]) <==> Covered(m.sys.dests[t])
        ensures m.sys.dests[t].fannedOut || m.deleted ==> Done(m.sys.dests[t])
      {
        SafeIsQuiet(m, t);
        assert DestConsistent(m, t);
        QuietIsDone(m.sys.dests[t]);
      }
      if !m.deleted && Skips(c) {
        MissingIsExact(m, c);
      }
    }
  }

  lemma MissingIsExact(m: Message, c: Call)
    requires MissingStill(m, c)
    requires forall t <- c.delivery.targets :: Done(m.sys.dests[t]) <==> Covered(m.sys.dests[t])
    requires forall t <- c.missing :: t in c.delivery.targets
    ensures AllDone(m.sys, c.delivery.targets) <==> c.missing == {}
  {
    if c.missing != {} {
      var t :| t in c.missing;
    }
  }

  /** A call that returns or moves on without touching a destination. */
  lemma SameDests(m: Message, m': Message)
    requires Consistent(m) && m'.sys == m.sys && m'.deleted == m.deleted && (m.canonical ==> m'.canonical)
    requires forall e <- m.sys.dests :: m.sys.dests[e].handler.Handling? ==> LoopIsAt(m'.call, e)
    requires m'.call.Some? ==> CallConsistent(m', m'.call.value)
    requires m'.report.Some? ==> Exact(m'.report.value)
    ensures Consistent(m')
  {
    forall e | e in m'.sys.dests ensures DestConsistent(m', e) {
      assert DestConsistent(m, e);
    }
  }

  lemma NoneHandled(m: Message)
    requires Consistent(m) && (m.call.Some? ==> !m.call.value.pc.Loop?)
    ensures forall e <- m.sys.dests :: m.sys.dests[e].handler.NotHandling?
  {
    forall e | e in m.sys.dests ensures m.sys.dests[e].handler.NotHandling? {
      assert DestConsistent(m, e);
    }
  }

  lemma ReturnKeeps(m: Message, outcome: R.Outcome)
    requires Consistent(m) && m.call.Some? && !m.call.value.pc.Loop?
    requires Exact(Report(m.call.value, outcome, m.sys, m.deleted))
    ensures Consistent(Return(m, outcome))
  {
    NoneHandled(m);
    SameDests(m, Return(m, outcome));
  }

  /** The steps before the loop, one after the other. */
  lemma CallMoves(m: Message, c: HandlerChoice)
    requires m.call.Some? && CallConsistent(m, m.call.value)
    requires !c.Broken? && !m.call.value.pc.Loop? && !m.call.value.pc.Query?
    ensures var m' := CallNext(m, c);
            && m'.call.Some? && CallConsistent(m', m'.call.value) && m'.report == m.report
            && m'.sys == m.sys && m'.deleted == m.deleted && (m.canonical ==> m'.canonical)
  {
    var call := m.call.value;
    match call.pc
    case Prepare => assert call.delivery.targets[..0] == [];
    case _ =>
  }

  /** The steps before and after the loop. */
  lemma CallKeeps(m: Message, c: HandlerChoice)
    requires Consistent(m) && m.call.Some? && !m.call.value.pc.Loop?
    ensures Consistent(CallNext(m, c))
  {
    if c.Broken? {
      ReturnKeeps(m, R.RouterError);
    } else if m.call.value.pc == Query {
      QueryIsExact(m);
      ReturnKeeps(m, R.Outcome(true, false, SafeToAdvance(m)));
    } else {
      NoneHandled(m);
      CallMoves(m, c);
      SameDests(m, CallNext(m, c));
    }
  }

  lemma ArriveKeeps(m: Message, dl: Delivery)
    requires Consistent(m)
    ensures Consistent(MessageNext(m, Arrive(dl)))
  {
    var m' := MessageNext(m, Arrive(dl));
    if m' != m {
      NoneHandled(m);
      SameDests(m, m');
    }
  }

  lemma RestartKeeps(m: Message)
    requires Consistent(m)
    ensures Consistent(MessageNext(m, Restart))
  {
    var m' := MessageNext(m, Restart);
    forall e | e in m'.sys.dests ensures Ledger(m'.sys.dests[e]) && DestConsistent(m', e) {
      assert DestConsistent(m, e);
      LedgerNext(m.sys.dests[e], Crash);
    }
  }

  /** One step of the fan-out, at the target t the loop is at. */
  lemma LoopDest(m: Message, t: string, event: Event, m': Message, e: string)
    requires Consistent(m) && LoopIsAt(m.call, t) && m.call == m'.call && e in m.sys.dests
    requires event.BeginFanOut? || event.HandleStep?
    requires m' == m.(sys := SysNext(m.sys, At(t, event)))
    ensures e in m'.sys.dests && Ledger(m'.sys.dests[e]) && (m.sys.dests[e].fannedOut ==> m'.sys.dests[e].fannedOut)
    ensures DestConsistent(m', e)
  {
    LedgerNext(m.sys.dests[e], event);
    assert DestConsistent(m, e);
  }

  lemma LoopStepKeeps(m: Message, t: string, event: Event)
    requires Consistent(m) && LoopIsAt(m.call, t) && (event.BeginFanOut? || event.HandleStep?)
    ensures Consistent(m.(sys := SysNext(m.sys, At(t, event))))
  {
    var m' := m.(sys := SysNext(m.sys, At(t, event)));
    forall e | e in m.sys.dests
      ensures e in m'.sys.dests && Ledger(m'.sys.dests[e]) && DestConsistent(m', e)
      ensures m.sys.dests[e].fannedOut ==> m'.sys.dests[e].fannedOut
    {
      LoopDest(m, t, event, m', e);
    }
  }

  /** The loop leaves a target, which is then passed or has failed. */
  lemma LoopLeaves(m: Message, i: nat, passed: bool)
    requires Consistent(m) && m.call.Some? && m.call.value.pc == Loop(i) && i < |m.call.value.delivery.targets|
    requires var t := m.call.value.delivery.targets[i];
             t in m.sys.dests && m.sys.dests[t].handler.NotHandling? && (passed ==> m.sys.dests[t].fannedOut)
    ensures Consistent(if passed then Goto(m, Loop(i + 1)) else Return(m, R.RouterError))
  {
    var targets := m.call.value.delivery.targets;
    assert targets[..i + 1] == targets[..i] + [targets[i]];
    forall e | e in m.sys.dests ensures m.sys.dests[e].handler.NotHandling? {
      assert DestConsistent(m, e);
    }
    SameDests(m, if passed then Goto(m, Loop(i + 1)) else Return(m, R.RouterError));
  }

  lemma FanOutKeeps(m: Message, i: nat, c: HandlerChoice)
    requires Consistent(m) && m.call.Some? && m.call.value.pc == Loop(i)
    ensures Consistent(FanOutNext(m, i, c))
  {
    var targets := m.call.value.delivery.targets;
    if i >= |targets| {
      LoopEnds(m, i);
    } else {
      var t := targets[i];
      assert t in targets;
      var d := m.sys.dests[t];
      if d.handler.NotHandling? {
        LoopStepKeeps(m, t, BeginFanOut(m.call.value.delivery.media));
      } else {
        LoopStepKeeps(m, t, HandleStep(c));
        var m' := m.(sys := SysNext(m.sys, At(t, HandleStep(c))));
        if m'.sys.dests[t].handler.NotHandling? {
          LoopLeaves(m', i, !c.Broken? && d.handler.pc != MarkRefused);
        }
      }
    }
  }

  lemma LoopEnds(m: Message, i: nat)
    requires Consistent(m) && m.call.Some? && m.call.value.pc == Loop(i) && i >= |m.call.value.delivery.targets|
    ensures Consistent(Goto(m, Query))
  {
    var targets := m.call.value.delivery.targets;
    assert targets[..i] == targets;
    forall e | e in m.sys.dests ensures m.sys.dests[e].handler.NotHandling? {
      assert DestConsistent(m, e);
    }
    SameDests(m, Goto(m, Query));
  }

  lemma NextKeeps(m: Message, h: Happening)
    requires Consistent(m)
    ensures Consistent(MessageNext(m, h))
  {
    match h
    case Arrive(dl) => ArriveKeeps(m, dl);
    case CallStep(c) =>
      if m.call.Some? {
        if m.call.value.pc.Loop? { FanOutKeeps(m, m.call.value.pc.next, c); } else { CallKeeps(m, c); }
      }
    case Restart => RestartKeeps(m);
    case _ => OutsideKeeps(m, h);
  }

  lemma {:induction false} RunConsistent(endpoints: set<string>, hs: seq<Happening>)
    ensures Consistent(MessageRun(NewMessage(endpoints), hs))
    decreases |hs|
  {
    if hs != [] {
      RunConsistent(endpoints, hs[..|hs| - 1]);
      NextKeeps(MessageRun(NewMessage(endpoints), hs[..|hs| - 1]), hs[|hs| - 1]);
    }
  }

  /** Over every run of deliveries, jobs, sweeps, deletes and restarts: when HandleEvent reports
      that it is safe to advance, every target is done, unless the call skipped the fan-out, the
      message is not deleted, and a target had neither row nor copy when the call began; and then
      not every target is done. */
  lemma SafeReportIff(endpoints: set<string>, hs: seq<Happening>)
    requires MessageRun(NewMessage(endpoints), hs).report.Some?
    requires R.Acknowledges(MessageRun(NewMessage(endpoints), hs).report.value.outcome)
    ensures var r := MessageRun(NewMessage(endpoints), hs).report.value;
            AllDone(r.ledger, r.call.delivery.targets) <==> r.deleted || !Skips(r.call) || r.call.missing == {}
  {
    RunConsistent(endpoints, hs);
  }

  /** The adapters' contract. */
  predicate HonestJob(h: Happening) {
    h.JobStep? ==> Honest(h.event)
  }

  ghost predicate IsHonestLog(events: seq<SysEvent>) {
    forall e <- events :: !e.Mutate? ==> Honest(e.event)
  }

  lemma Extend(s: Sys, events: seq<SysEvent>, start: Sys, e: SysEvent)
    requires s == SysRun(start, events) && IsHonestLog(events) && (!e.Mutate? ==> Honest(e.event))
    ensures SysNext(s, e) == SysRun(start, events + [e]) && IsHonestLog(events + [e])
  {
    assert (events + [e])[..|events|] == events;
  }

  /** The ledger of a message goes through a run of its own, so what holds of the ledger in every
      interleaving holds of it. */
  lemma {:induction false} LedgerIsRun(endpoints: set<string>, hs: seq<Happening>) returns (events: seq<SysEvent>)
    requires forall h <- hs :: HonestJob(h)
    ensures MessageRun(NewMessage(endpoints), hs).sys == SysRun(InitialSys(endpoints), events)
    ensures IsHonestLog(events)
    decreases |hs|
  {
    if hs == [] {
      events := [];
    } else {
      var before, h := hs[..|hs| - 1], hs[|hs| - 1];
      events := LedgerIsRun(endpoints, before);
      var m := MessageRun(NewMessage(endpoints), before);
      var e := LedgerStep(m, h);
      if e.Some? {
        Extend(m.sys, events, InitialSys(endpoints), e.value);
        events := events + [e.value];
      }
    }
  }

  /** What a happening does to the ledger. */
  lemma LedgerStep(m: Message, h: Happening) returns (e: Option<SysEvent>)
    ensures MessageNext(m, h).sys == match e case Some(event) => SysNext(m.sys, event) case None => m.sys
    ensures HonestJob(h) && e.Some? && !e.value.Mutate? ==> Honest(e.value.event)
  {
    e := None;
    match h
    case CallStep(c) =>
      if m.call.Some? && m.call.value.pc.Loop? {
        e := LoopStep(m, m.call.value.pc.next, c);
      }
    case JobStep(t, event) => if IsJobEvent(event) { e := Some(At(t, event)); }
    case Delete => if m.canonical { e := Some(Everywhere(Tombstone)); }
    case Sweep => e := Some(Everywhere(SweepLedger));
    case Change(key, row) => if m.canonical { e := Some(Mutate(key, row)); }
    case Restart => e := Some(Everywhere(Crash));
    case _ =>
  }

  lemma LoopStep(m: Message, i: nat, c: HandlerChoice) returns (e: Option<SysEvent>)
    requires m.call.Some?
    ensures FanOutNext(m, i, c).sys == match e case Some(event) => SysNext(m.sys, event) case None => m.sys
    ensures e.Some? && !e.value.Mutate? ==> Honest(e.value.event)
  {
    e := None;
    var dl := m.call.value.delivery;
    if i < |dl.targets| && dl.targets[i] in m.sys.dests {
      var t := dl.targets[i];
      e := Some(At(t, if m.sys.dests[t].handler.NotHandling? then BeginFanOut(dl.media) else HandleStep(c)));
    }
  }

  // ---- A message the bridge's account sent itself ---------------------------------------------------

  /** Extend a run by one happening. */
  lemma PlayOn(start: Message, m: Message, hs: seq<Happening>, h: Happening)
      returns (m': Message, hs': seq<Happening>)
    requires m == MessageRun(start, hs)
    ensures hs' == hs + [h] && m' == MessageNext(m, h) == MessageRun(start, hs')
  {
    m', hs' := MessageNext(m, h), hs + [h];
    assert hs'[..|hs'| - 1] == hs;
  }

  /** The first delivery of a self-sent message commits the canonical row and fails before the
      fan-out, say because its media cannot be loaded. */
  lemma PlayFirstFails(endpoints: set<string>, dl: Delivery) returns (m: Message, hs: seq<Happening>)
    requires dl.fromSelf && !dl.local && forall t <- dl.targets :: t in endpoints
    ensures m == MessageRun(NewMessage(endpoints), hs)
    ensures m.sys == InitialSys(endpoints) && m.canonical && !m.deleted && m.call == None
    ensures m.report.Some? && m.report.value.outcome == R.RouterError
  {
    var start := NewMessage(endpoints);
    m, hs := PlayOn(start, start, [], Arrive(dl));
    m, hs := PlayOn(start, m, hs, CallStep(Fine));
    m, hs := PlayOn(start, m, hs, CallStep(Fine));
    m, hs := PlayOn(start, m, hs, CallStep(Fine));
    m, hs := PlayOn(start, m, hs, CallStep(Fine));
    m, hs := PlayOn(start, m, hs, CallStep(Broken));
  }

  /** Its replay returns at once and is reported safe, with no target done. */
  lemma SelfSentYetSafe(endpoints: set<string>, dl: Delivery) returns (hs: seq<Happening>)
    requires dl.fromSelf && !dl.local && dl.targets != [] && forall t <- dl.targets :: t in endpoints
    ensures var m := MessageRun(NewMessage(endpoints), hs);
            && m.report.Some? && R.Acknowledges(m.report.value.outcome)
            && !m.report.value.deleted && !AllDone(m.report.value.ledger, dl.targets)
  {
    var start := NewMessage(endpoints);
    var m;
    m, hs := PlayFirstFails(endpoints, dl);
    m, hs := PlayOn(start, m, hs, Arrive(dl));
    m, hs := PlayOn(start, m, hs, CallStep(Fine));
    m, hs := PlayOn(start, m, hs, CallStep(Fine));
    m, hs := PlayOn(start, m, hs, CallStep(Fine));
    assert !PendingDelivery(m.sys);
    m, hs := PlayOn(start, m, hs, CallStep(Fine));
    assert dl.targets[0] in dl.targets;
  }

  /** A canonical message whose calls only skip the fan-out: a target without a trace. */
  predicate Forgotten(m: Message, t: string) {
    && m.canonical && t in m.sys.dests && !m.sys.dests[t].fannedOut
    && m.sys.dests[t].row.None? && m.sys.dests[t].handler.NotHandling?
    && (m.call.Some? ==>
          && m.call.value.delivery.fromSelf && !m.call.value.pc.Prepare? && !m.call.value.pc.Loop?
          && m.call.value.pc != CheckDeleted(true))
  }

  lemma ForgottenNext(m: Message, h: Happening, t: string)
    requires LedgerEverywhere(m.sys) && Forgotten(m, t) && (h.Arrive? ==> h.delivery.fromSelf)
    ensures Forgotten(MessageNext(m, h), t)
  {
    match h
    case JobStep(_, e) => if IsJobEvent(e) { Undisturbed(m.sys.dests[t], e); }
    case Sweep => Undisturbed(m.sys.dests[t], SweepLedger);
    case Delete => Undisturbed(m.sys.dests[t], Tombstone);
    case _ =>
  }

  /** And nothing that happens afterwards brings the message to a target it has not reached: no
      later delivery of it starts a fan-out. */
  lemma {:induction false} SelfSentIsLost(endpoints: set<string>, hs: seq<Happening>, more: seq<Happening>, t: string)
    requires var m := MessageRun(NewMessage(endpoints), hs);
             m.canonical && m.call.None? && t in m.sys.dests && !m.sys.dests[t].fannedOut && m.sys.dests[t].row.None?
    requires forall h <- more :: h.Arrive? ==> h.delivery.fromSelf
    ensures var m' := MessageRun(MessageRun(NewMessage(endpoints), hs), more);
            && Consistent(m') && Forgotten(m', t) && m'.sys.dests[t].copy.None?
    decreases |more|
  {
    RunConsistent(endpoints, hs);
    var m := MessageRun(NewMessage(endpoints), hs);
    if more == [] {
      assert DestConsistent(m, t);
    } else {
      var before, h := more[..|more| - 1], more[|more| - 1];
      SelfSentIsLost(endpoints, hs, before, t);
      NextKeeps(MessageRun(m, before), h);
      ForgottenNext(MessageRun(m, before), h, t);
    }
  }
}
