/** The coordinator's Handle and advance as loops over a stream's maps, proved to do what
    RecoveryCursor says. */
module RecoveryCoordinator {
  import opened Wrappers
  import opened Collections
  import opened RecoveryCursor

  /** The event would be routed, the cursor loaded first. */
  predicate BeyondCursor(s: Stream, position: int) {
    (if s.loaded then s.cursor else s.Saved()) < position
  }

  /** An advance succeeds exactly if it leaves nothing to take. */
  lemma {:induction false} AdvanceAnswers(s: Stream, puts: nat)
    ensures RecoveryCursor.Advance(s, puts).1 <==> RecoveryCursor.Advance(s, puts).0.Frontier() == {}
    decreases puts
  {
    if s.Frontier() != {} && puts > 0 {
      AdvanceAnswers(Take(s, Least(s.Frontier())), puts - 1);
    }
  }

  /** The recovery_cursors row of one stream. */
  class SavedCursor {
    var row: Option<Row>

    constructor (row: Option<Row>)
      ensures this.row == row
    {
      this.row := row;
    }

    method PutRecoveryCursor(next: Row, works: bool) returns (ok: bool)
      modifies this
      ensures ok == works
      ensures row == if works then Put(old(row), next) else old(row)
    {
      ok := works;
      if works && (row.None? || row.value.position < next.position) {
        row := Some(next);
      }
    }
  }

  class StreamState {
    const store: SavedCursor
    var loaded: bool
    var cursor: int
    var acked: map<int, int>
    var failed: set<int>
    var pending: map<int, int>

    constructor (store: SavedCursor)
      ensures this.store == store
      ensures View() == Stream(false, 0, map[], {}, map[], store.row)
    {
      this.store := store;
      loaded, cursor, acked, failed, pending := false, 0, map[], {}, map[];
    }

    ghost function View(): Stream reads this, store {
      Stream(loaded, cursor, acked, failed, pending, store.row)
    }

    /** One step of advance: stop at a blocker, otherwise write the position and take it. */
    method Step(position: int, budget: nat) returns (moved: bool, ok: bool)
      requires Inv(View()) && loaded && position in acked && position == Least(acked.Keys)
      modifies `cursor, `acked, store
      ensures Inv(View())
      ensures moved ==> ok && budget > 0 && acked.Keys == old(acked).Keys - {position}
      ensures moved ==> RecoveryCursor.Advance(View(), budget - 1) == old(RecoveryCursor.Advance(View(), budget))
      ensures !moved ==> (View(), ok) == old(RecoveryCursor.Advance(View(), budget))
    {
      if (exists b <- pending.Keys :: b <= position) || (exists b <- failed :: b <= position) {
        FrontierEmpty(View(), position);
        return false, true;
      }
      FrontierStarts(View(), position, budget);
      ok := store.PutRecoveryCursor(Row(position, acked[position]), budget > 0);
      moved := ok;
      if ok {
        cursor, acked := position, acked - {position};
      }
    }

    /** advance: walk the acknowledged positions upwards, stop at the first one with a
        blocker at or below it, and write each step before taking it. The first `puts`
        writes work, the next one fails. */
    method Advance(puts: nat) returns (ok: bool)
      requires Inv(View()) && loaded
      modifies `cursor, `acked, store
      ensures (View(), ok) == RecoveryCursor.Advance(old(View()), puts)
    {
      ghost var goal := RecoveryCursor.Advance(View(), puts);
      var positions := Sorted(set p | p in acked && p > cursor);
      assert (set p | p in acked && p > cursor) == acked.Keys;
      var budget := puts;
      for i := 0 to |positions|
        invariant positions[i..] == Listing(acked.Keys)
        invariant Inv(View()) && loaded && 0 <= budget
        invariant RecoveryCursor.Advance(View(), budget) == goal
      {
        assert positions[i..] == [positions[i]] + positions[i + 1..];
        var moved;
        moved, ok := Step(positions[i], budget);
        if !moved { return; }
        budget := budget - 1;
      }
      ok := true;
      assert View().Frontier() <= acked.Keys == {};
    }

    /** Handle: route an event beyond the cursor and keep, or settle, its position. `loads`
        and `puts` say whether the saved cursor can be read and how many writes work. It reports
        an error exactly if the cursor could not be loaded, the router reported one, or the advance
        after an acknowledgement stopped at a failed write with more to take; otherwise it hands on
        the router's outcome, or says that there was nothing to do. */
    method Handle(position: int, timestamp: int, outcome: Outcome, loads: bool, puts: nat) returns (answer: Outcome)
      requires Inv(View())
      modifies this, store
      ensures View() == Next(old(View()), Deliver(position, timestamp, outcome, loads, puts))
      ensures Inv(View())
      ensures answer == RouterError <==>
                || (!old(loaded) && !loads)
                || (BeyondCursor(old(View()), position) && outcome == RouterError)
                || (BeyondCursor(old(View()), position) && outcome.Outcome? && outcome.accepted
                    && outcome.safeToAdvance && !outcome.noOp && View().Frontier() != {})
      ensures answer != RouterError ==>
                answer == if BeyondCursor(old(View()), position) then outcome else Outcome(true, true, false)
    {
      ghost var e := Deliver(position, timestamp, outcome, loads, puts);
      NextInv(View(), e);
      if !loaded {
        if !loads { return RouterError; }
        if store.row.Some? { cursor := store.row.value.position; }
        loaded := true;
      }
      if position <= cursor { return Outcome(true, true, false); }
      if outcome.RouterError? || !outcome.accepted {
        failed := failed + {position};
        return outcome;
      }
      if outcome.noOp || !outcome.safeToAdvance {
        if !outcome.safeToAdvance { pending := pending[position := timestamp]; }
        return outcome;
      }
      acked := acked[position := timestamp];
      failed, pending := failed - {position}, pending - {position};
      ghost var before := View();
      var ok := Advance(puts);
      AdvanceAnswers(before, puts);
      answer := if ok then outcome else RouterError;
    }
  }

  lemma FrontierEmpty(s: Stream, position: int)
    requires s.acked != map[] && position == Least(s.acked.Keys)
    requires (exists b <- s.pending.Keys :: b <= position) || exists b <- s.failed :: b <= position
    ensures s.Frontier() == {}
  {
    var b :| (b in s.pending.Keys || b in s.failed) && b <= position;
    assert b in s.Blockers();
    assert forall p <- s.acked :: b <= p;
  }

  lemma FrontierStarts(s: Stream, position: int, puts: nat)
    requires Inv(s) && position in s.acked && position == Least(s.acked.Keys)
    requires forall b <- s.Blockers() :: position < b
    ensures position in s.Frontier() && Least(s.Frontier()) == position
    ensures RecoveryCursor.Advance(s, puts) ==
              if puts == 0 then (s, false) else RecoveryCursor.Advance(Take(s, position), puts - 1)
    ensures s.loaded ==> Inv(Take(s, position))
  {
    assert position in s.Frontier();
    assert Least(s.Frontier()) in s.acked.Keys;
    if s.loaded { TakeKeeps(s, position); }
  }
}
