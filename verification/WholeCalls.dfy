/** Whole HandleEvent calls, as runs of the machine of MessageCalls under everything the world may
    do to them. */
module WholeCalls {
  import opened Wrappers
  import opened CreateProtocol
  import opened FanOutLedger
  import opened CreateAttempt
  import opened MessageCalls
  import R = RecoveryCursor

  /** How the outside world treats one call: which lookups and writes succeed, and how the fan-out
      to each target goes. */
  datatype CallWorld = CallWorld(
    lookUp: bool, identify: bool, resolve: bool, readTombstone: bool, prepare: bool, query: bool,
    handlers: map<string, HandlerWorld>)

  function Answer(works: bool): HandlerChoice {
    if works then Fine else Broken
  }

  /** The world's answer to the call's next step. */
  function CallChoice(m: Message, w: CallWorld): HandlerChoice
    requires m.call.Some?
  {
    var targets := m.call.value.delivery.targets;
    match m.call.value.pc
    case LookUp => Answer(w.lookUp)
    case Identify => Answer(w.identify)
    case Resolve => Answer(w.resolve)
    case CheckDeleted(_) => Answer(w.readTombstone)
    case Prepare => Answer(w.prepare)
    case Loop(i) =>
      if i < |targets| && targets[i] in m.sys.dests && targets[i] in w.handlers then LoopChoice(m, targets[i], w)
      else Fine
    case Query => Answer(w.query)
  }

  function LoopChoice(m: Message, t: string, w: CallWorld): HandlerChoice
    requires t in m.sys.dests && t in w.handlers
  {
    var d := m.sys.dests[t];
    if d.handler.Handling? then HandlerChoiceAt(w.handlers[t], d.handler.pc) else Fine
  }

  function Stage(pc: CallPc): nat {
    match pc
    case LookUp => 6
    case Identify => 5
    case Resolve => 4
    case CheckDeleted(_) => 3
    case Prepare => 2
    case Loop(_) => 1
    case Query => 0
  }

  function TargetsLeft(c: Call): nat {
    if c.pc.Loop? && c.pc.next <= |c.delivery.targets| then |c.delivery.targets| - c.pc.next else 0
  }

  /** How far the loop is from being done with its present target. */
  function LoopRank(m: Message, c: Call): nat {
    if c.pc.Loop? && c.pc.next < |c.delivery.targets| && c.delivery.targets[c.pc.next] in m.sys.dests then
      var d := m.sys.dests[c.delivery.targets[c.pc.next]];
      if d.handler.Handling? then HandlerRank(d.handler.pc) else 7
    else 0
  }

  lemma HandlerAdvances(d: Dest, c: HandlerChoice)
    requires d.handler.Handling? && Handle(d, c).handler.Handling?
    ensures HandlerRank(Handle(d, c).handler.pc) < HandlerRank(d.handler.pc)
  {
  }

  lemma CallAdvances(m: Message, c: HandlerChoice)
    requires m.call.Some? && CallNext(m, c).call.Some?
    ensures var m' := CallNext(m, c);
            var call, call' := m.call.value, m'.call.value;
            || Stage(call'.pc) < Stage(call.pc)
            || (Stage(call'.pc) == Stage(call.pc) && TargetsLeft(call') < TargetsLeft(call))
            || (Stage(call'.pc) == Stage(call.pc) && TargetsLeft(call') == TargetsLeft(call)
                && LoopRank(m', call') < LoopRank(m, call))
  {
    var call := m.call.value;
    if call.pc.Loop? && call.pc.next < |call.delivery.targets| && call.delivery.targets[call.pc.next] in m.sys.dests {
      var d := m.sys.dests[call.delivery.targets[call.pc.next]];
      if d.handler.Handling? && Handle(d, c).handler.Handling? {
        HandlerAdvances(d, c);
      }
    }
  }

  /** The call, run until it returns. */
  function FinishCall(m: Message, w: CallWorld): (r: Message)
    requires m.call.Some?
    ensures r.call.None? && r.report.Some?
    decreases Stage(m.call.value.pc), TargetsLeft(m.call.value), LoopRank(m, m.call.value)
  {
    var m' := CallNext(m, CallChoice(m, w));
    if m'.call.None? then m'
    else
      CallAdvances(m, CallChoice(m, w));
      FinishCall(m', w)
  }

  // ---- One step of a call at a time -----------------------------------------------------------------

  lemma CallOneStep(m: Message, w: CallWorld)
    requires m.call.Some?
    ensures var m' := CallNext(m, CallChoice(m, w));
            FinishCall(m, w) == if m'.call.None? then m' else FinishCall(m', w)
  {
  }

  /** A step before the loop that fails ends the call. */
  lemma FailsAt(m: Message, w: CallWorld)
    requires m.call.Some? && !m.call.value.pc.Loop? && CallChoice(m, w).Broken?
    ensures FinishCall(m, w) == Return(m, R.RouterError)
  {
    CallOneStep(m, w);
  }

  lemma FromLookUp(m: Message, w: CallWorld)
    requires m.call.Some? && m.call.value.pc == LookUp && w.lookUp
    ensures var c := m.call.value.(existed := m.canonical);
            var next := if c.delivery.local then Query
                        else if c.delivery.fromSelf && m.canonical then Resolve
                        else Identify;
            FinishCall(m, w) == FinishCall(m.(call := Some(c.(pc := next))), w)
  {
    CallOneStep(m, w);
  }

  lemma FromIdentify(m: Message, w: CallWorld)
    requires m.call.Some? && m.call.value.pc == Identify && w.identify
    ensures FinishCall(m, w) == FinishCall(Goto(m, Resolve), w)
  {
    CallOneStep(m, w);
  }

  lemma FromResolve(m: Message, w: CallWorld)
    requires m.call.Some? && m.call.value.pc == Resolve && w.resolve
    ensures FinishCall(m, w) == FinishCall(Goto(m.(canonical := true), CheckDeleted(!m.canonical)), w)
  {
    CallOneStep(m, w);
  }

  lemma FromCheckDeleted(m: Message, created: bool, w: CallWorld)
    requires m.call.Some? && m.call.value.pc == CheckDeleted(created) && w.readTombstone
    ensures var stops := m.deleted || (m.call.value.delivery.fromSelf && !created);
            FinishCall(m, w) == FinishCall(Goto(m, if stops then Query else Prepare), w)
  {
    CallOneStep(m, w);
  }

  lemma FromPrepare(m: Message, w: CallWorld)
    requires m.call.Some? && m.call.value.pc == Prepare && w.prepare
    ensures FinishCall(m, w) == FinishCall(Goto(m, Loop(0)), w)
  {
    CallOneStep(m, w);
  }

  lemma FromLoopEnd(m: Message, w: CallWorld)
    requires m.call.Some? && m.call.value.pc == Loop(|m.call.value.delivery.targets|)
    ensures FinishCall(m, w) == FinishCall(Goto(m, Query), w)
  {
    CallOneStep(m, w);
  }

  lemma FromQuery(m: Message, w: CallWorld)
    requires m.call.Some? && m.call.value.pc == Query && w.query
    ensures FinishCall(m, w) == Return(m, R.Outcome(true, false, SafeToAdvance(m)))
  {
    CallOneStep(m, w);
  }

  function SetDest(m: Message, t: string, d: Dest): Message {
    m.(sys := m.sys.(dests := m.sys.dests[t := d]))
  }

  /** The loop's present target, and the fan-out machine run to its end there. */
  ghost predicate LoopAt(m: Message, i: nat, t: string, w: CallWorld) {
    && m.call.Some? && m.call.value.pc == Loop(i)
    && i < |m.call.value.delivery.targets| && m.call.value.delivery.targets[i] == t
    && t in m.sys.dests && t in w.handlers
  }

  function AfterTarget(m: Message, i: nat, passed: bool, w: CallWorld): Message
    requires m.call.Some?
  {
    if passed then FinishCall(Goto(m, Loop(i + 1)), w) else Return(m, R.RouterError)
  }

  lemma {:induction false} InLoop(m: Message, i: nat, t: string, w: CallWorld)
    requires LoopAt(m, i, t, w) && m.sys.dests[t].handler.Handling?
    ensures var (d', passed) := FinishHandle(m.sys.dests[t], w.handlers[t]);
            FinishCall(m, w) == AfterTarget(SetDest(m, t, d'), i, passed, w)
    decreases HandlerRank(m.sys.dests[t].handler.pc)
  {
    var d, h := m.sys.dests[t], w.handlers[t];
    var c := HandlerChoiceAt(h, d.handler.pc);
    var d' := Handle(d, c);
    HandleOneStep(d, h);
    CallOneStep(m, w);
    assert CallChoice(m, w) == c;
    var m' := SetDest(m, t, d');
    assert SysNext(m.sys, At(t, HandleStep(c))) == m'.sys;
    if d'.handler.Handling? {
      HandlerAdvances(d, c);
      InLoop(m', i, t, w);
      var last := FinishHandle(d', h).0;
      assert m.sys.dests[t := d'][t := last] == m.sys.dests[t := last];
    }
  }

  lemma FromTarget(m: Message, i: nat, t: string, w: CallWorld)
    requires LoopAt(m, i, t, w) && m.sys.dests[t].handler.NotHandling?
    ensures var d := m.sys.dests[t].(handler := Handling(m.call.value.delivery.media, LookCopy));
            var (d', passed) := FinishHandle(d, w.handlers[t]);
            FinishCall(m, w) == AfterTarget(SetDest(m, t, d'), i, passed, w)
  {
    var d := m.sys.dests[t].(handler := Handling(m.call.value.delivery.media, LookCopy));
    CallOneStep(m, w);
    var m' := SetDest(m, t, d);
    assert SysNext(m.sys, At(t, BeginFanOut(m.call.value.delivery.media))) == m'.sys;
    InLoop(m', i, t, w);
    var last := FinishHandle(d, w.handlers[t]).0;
    assert m.sys.dests[t := d][t := last] == m.sys.dests[t := last];
  }

  // ---- What a whole call keeps ------------------------------------------------------------------------

  /** The same delivery, with the same targets missing and the same answer of the first lookup. */
  predicate SameCall(c: Call, c': Call) {
    && c'.delivery == c.delivery && c'.missing == c.missing
    && (c.pc != LookUp ==> c'.pc != LookUp && c'.existed == c.existed)
  }

  /** A report about the message as it is now. */
  predicate Reports(m: Message, c: Call) {
    && m.call.None? && m.report.Some? && SameCall(c, m.report.value.call)
    && m.report.value.ledger == m.sys && m.report.value.deleted == m.deleted
  }

  lemma StepKeepsCall(m: Message, c: HandlerChoice)
    requires m.call.Some?
    ensures var m' := CallNext(m, c);
            && m'.deleted == m.deleted
            && if m'.call.Some? then SameCall(m.call.value, m'.call.value) else Reports(m', m.call.value)
  {
    if m.call.value.pc.Loop? {
      LoopKeepsCall(m, m.call.value.pc.next, c);
    }
  }

  lemma LoopKeepsCall(m: Message, i: nat, c: HandlerChoice)
    requires m.call.Some? && m.call.value.pc.Loop?
    ensures var m' := FanOutNext(m, i, c);
            && m'.deleted == m.deleted
            && if m'.call.Some? then SameCall(m.call.value, m'.call.value) else Reports(m', m.call.value)
  {
  }

  lemma {:induction false} FinishCallKeeps(m: Message, w: CallWorld)
    requires m.call.Some? && Consistent(m)
    ensures Consistent(FinishCall(m, w)) && Reports(FinishCall(m, w), m.call.value)
    ensures FinishCall(m, w).deleted == m.deleted
    decreases Stage(m.call.value.pc), TargetsLeft(m.call.value), LoopRank(m, m.call.value)
  {
    var c := CallChoice(m, w);
    var m' := StepTo(m, c);
    CallOneStep(m, w);
    if m'.call.Some? {
      CallAdvances(m, c);
      FinishCallKeeps(m', w);
    }
  }

  lemma StepTo(m: Message, c: HandlerChoice) returns (m': Message)
    requires m.call.Some? && Consistent(m)
    ensures m' == CallNext(m, c) && Consistent(m') && m'.deleted == m.deleted
    ensures if m'.call.Some? then SameCall(m.call.value, m'.call.value) else Reports(m', m.call.value)
  {
    m' := CallNext(m, c);
    NextKeeps(m, CallStep(c));
    StepKeepsCall(m, c);
  }

  /** A whole call that reports it is safe to advance leaves every target done, unless it skips the
      fan-out of an undeleted message some of whose targets have neither row nor copy; and that
      can be told before the call. */
  lemma WholeCallIff(m: Message, dl: Delivery, w: CallWorld)
    requires Consistent(m) && m.call.None? && forall t <- dl.targets :: t in m.sys.dests
    ensures var r := FinishCall(MessageNext(m, Arrive(dl)), w);
            && Consistent(r) && r.deleted == m.deleted
            && (R.Acknowledges(r.report.value.outcome) ==>
                  (AllDone(r.sys, dl.targets) <==>
                   m.deleted || !(dl.local || (dl.fromSelf && m.canonical)) || Missing(m.sys, dl.targets) == {}))
  {
    var m0 := MessageNext(m, Arrive(dl));
    ArriveKeeps(m, dl);
    if w.lookUp {
      var m1 := CallNext(m0, Fine);
      NextKeeps(m0, CallStep(Fine));
      CallOneStep(m0, w);
      FinishCallKeeps(m1, w);
    } else {
      FailsAt(m0, w);
      FinishCallKeeps(m0, w);
    }
  }

  // ---- What a whole call answers ----------------------------------------------------------------------

  /** The fan-out to a target goes through. */
  predicate Passes(s: Sys, t: string, media: bool, w: CallWorld)
    requires t in s.dests && t in w.handlers
  {
    FinishHandle(s.dests[t].(handler := Handling(media, LookCopy)), w.handlers[t]).1
  }

  predicate Distinct(targets: seq<string>) {
    forall i, j :: 0 <= i < j < |targets| ==> targets[i] != targets[j]
  }

  /** The targets are known and at rest. */
  predicate Rests(s: Sys, targets: seq<string>, w: CallWorld) {
    Distinct(targets) && forall t <- targets :: t in s.dests && t in w.handlers && s.dests[t].handler.NotHandling?
  }

  /** The answer after a call that works or fails: an error, or whether anything is pending. */
  ghost predicate Answers(r: Message, works: bool) {
    && r.report.Some?
    && r.report.value.outcome == if works then R.Outcome(true, false, SafeToAdvance(r)) else R.RouterError
  }

  lemma QueryAnswers(m: Message, w: CallWorld)
    requires m.call.Some? && m.call.value.pc == Query
    ensures Answers(FinishCall(m, w), w.query)
  {
    if w.query { FromQuery(m, w); } else { FailsAt(m, w); }
  }

  ghost predicate RestPasses(s: Sys, targets: seq<string>, i: nat, media: bool, w: CallWorld)
    requires forall t <- targets :: t in s.dests && t in w.handlers
  {
    forall j | i <= j < |targets| :: Passes(s, targets[j], media, w)
  }

  lemma {:induction false} LoopAnswers(m: Message, i: nat, w: CallWorld)
    requires m.call.Some? && m.call.value.pc == Loop(i) && i <= |m.call.value.delivery.targets|
    requires var targets := m.call.value.delivery.targets;
             && Distinct(targets) && (forall t <- targets :: t in m.sys.dests && t in w.handlers)
             && forall j | i <= j < |targets| :: m.sys.dests[targets[j]].handler.NotHandling?
    ensures var dl := m.call.value.delivery;
            Answers(FinishCall(m, w), w.query && RestPasses(m.sys, dl.targets, i, dl.media, w))
    decreases |m.call.value.delivery.targets| - i
  {
    var dl := m.call.value.delivery;
    if i == |dl.targets| {
      FromLoopEnd(m, w);
      QueryAnswers(Goto(m, Query), w);
    } else {
      var t := dl.targets[i];
      FromTarget(m, i, t, w);
      if Passes(m.sys, t, dl.media, w) {
        var d := FinishHandle(m.sys.dests[t].(handler := Handling(dl.media, LookCopy)), w.handlers[t]).0;
        var m' := Goto(SetDest(m, t, d), Loop(i + 1));
        LoopAnswers(m', i + 1, w);
        OthersPass(m.sys, m'.sys, dl.targets, i, dl.media, w);
      }
    }
  }

  lemma OthersPass(s: Sys, s': Sys, targets: seq<string>, i: nat, media: bool, w: CallWorld)
    requires Distinct(targets) && (forall t <- targets :: t in s.dests && t in s'.dests && t in w.handlers)
    requires i < |targets| && s' == s.(dests := s.dests[targets[i] := s'.dests[targets[i]]])
    requires Passes(s, targets[i], media, w)
    ensures RestPasses(s', targets, i + 1, media, w) <==> RestPasses(s, targets, i, media, w)
  {
    forall j | i < j < |targets| ensures Passes(s', targets[j], media, w) == Passes(s, targets[j], media, w) {
    }
  }

  /** What a call needs: the lookups, the author unless the message is the account's own and known, the
      canonical row, the tombstone; and unless it is deleted, or such a message, the rest of Handle and every
      target in turn; and at last the pending query. A message that stays in its group needs only the first
      and the last. */
  ghost predicate CallWorks(m: Message, dl: Delivery, w: CallWorld)
    requires forall t <- dl.targets :: t in m.sys.dests && t in w.handlers
  {
    var known := dl.fromSelf && m.canonical;
    && w.lookUp && w.query
    && (dl.local || ((known || w.identify) && w.resolve && w.readTombstone
                     && (m.deleted || known || (w.prepare && RestPasses(m.sys, dl.targets, 0, dl.media, w)))))
  }

  /** A whole call answers with an error exactly if something it needs fails; and otherwise with whether
      nothing is pending. */
  lemma CallAnswers(m: Message, dl: Delivery, w: CallWorld)
    requires m.call.None? && Rests(m.sys, dl.targets, w)
    ensures Answers(FinishCall(MessageNext(m, Arrive(dl)), w), CallWorks(m, dl, w))
  {
    var m0 := MessageNext(m, Arrive(dl));
    if !w.lookUp {
      FailsAt(m0, w);
    } else {
      FromLookUp(m0, w);
      var c := m0.call.value.(existed := m.canonical);
      if dl.local {
        QueryAnswers(m0.(call := Some(c.(pc := Query))), w);
      } else if dl.fromSelf && m.canonical {
        ResolveAnswers(m0.(call := Some(c.(pc := Resolve))), w);
      } else {
        var m1 := m0.(call := Some(c.(pc := Identify)));
        if w.identify {
          FromIdentify(m1, w);
          ResolveAnswers(Goto(m1, Resolve), w);
        } else {
          FailsAt(m1, w);
        }
      }
    }
  }

  lemma ResolveAnswers(m: Message, w: CallWorld)
    requires m.call.Some? && m.call.value.pc == Resolve && Rests(m.sys, m.call.value.delivery.targets, w)
    ensures var dl := m.call.value.delivery;
            Answers(FinishCall(m, w),
                    && w.resolve && w.readTombstone && w.query
                    && (m.deleted || (dl.fromSelf && m.canonical) ||
                        (w.prepare && RestPasses(m.sys, dl.targets, 0, dl.media, w))))
  {
    if !w.resolve {
      FailsAt(m, w);
    } else {
      FromResolve(m, w);
      var m1 := Goto(m.(canonical := true), CheckDeleted(!m.canonical));
      if !w.readTombstone {
        FailsAt(m1, w);
      } else {
        FromCheckDeleted(m1, !m.canonical, w);
        if m.deleted || (m.call.value.delivery.fromSelf && m.canonical) {
          QueryAnswers(Goto(m1, Query), w);
        } else {
          PrepareAnswers(Goto(m1, Prepare), w);
        }
      }
    }
  }

  lemma PrepareAnswers(m: Message, w: CallWorld)
    requires m.call.Some? && m.call.value.pc == Prepare && Rests(m.sys, m.call.value.delivery.targets, w)
    ensures var dl := m.call.value.delivery;
            Answers(FinishCall(m, w), w.query && w.prepare && RestPasses(m.sys, dl.targets, 0, dl.media, w))
  {
    if w.prepare {
      FromPrepare(m, w);
      LoopAnswers(Goto(m, Loop(0)), 0, w);
    } else {
      FailsAt(m, w);
    }
  }
}
