// What the table comes to when a dead tail is read all the same, as far as its memory still holds the old entry. The
// original may do anything then.
module StaleRuns {
  import opened Basics
  import opened Temporals
  import opened HandleLists
  import opened Criteria
  import opened TableModel
  import opened TableRuns
  import opened TemporalTables

  /** From the empty table, by add and remove, while the memory of dead entries still holds them. */
  ghost predicate StaleRun(states: seq<State>, ops: seq<Op>) {
    && |states| == |ops| + 1 && states[0] == EMPTY
    && forall i :: 0 <= i < |ops| ==> states[i].Sound() ==> Next(states[i], ops[i], states[i + 1])
  }

  lemma StaleRunIsRun(states: seq<State>, ops: seq<Op>)
    requires StaleRun(states, ops)
    ensures Run(states, ops) && NoReuse(states, ops)
  {
    hide Next;
    hide MayNext;
    forall i | 0 <= i < |ops| && Told(states[i], ops[i]) ensures MayNext(states[i], ops[i], states[i + 1]) {
      NextMayBe(states[i], ops[i], states[i + 1]);
    }
  }

  /** A dead tail is not before anything on the list. */
  ghost predicate TailsBeyond(s: State) {
    forall h: Handle, t :: s.Tail(h).OffList? && t in TimesOf(s.listed, h) ==> Rank(t) <= Rank(s.Tail(h).time)
  }

  lemma StepKeepsTailsBeyond(s: State, op: Op, s': State)
    requires s.Sound() && TailsBeyond(s) && Next(s, op, s') && s'.Sound()
    ensures TailsBeyond(s')
  {
    hide Rank;
    hide Query.Defined;
    forall h: Handle, t | s'.Tail(h).OffList? && t in TimesOf(s'.listed, h)
      ensures Rank(t) <= Rank(s'.Tail(h).time)
    {
      if op.Add? {
        LandsOrIsLost(s, op.h, op.t, s');
        assert t in TimesOf(s.listed, h) || (h == op.h && t == op.t);
      } else {
        assert t in TimesOf(s.listed, h);
        assert TailAfter(How(op.h, op.q), TimesOf(s.held, h), TimesOf(Select(s.held, op.h, op.q), h), s.Tail(h),
                         s'.Tail(h));
      }
    }
  }

  /** The views still agree after an add just when the new time is not beyond a dead tail. */
  lemma LandsOrIsLost(s: State, h: Handle, t: Time, s': State)
    requires s.Sound() && TailsBeyond(s) && Next(s, Op.Add(h, t), s')
    ensures s'.Sound() <==> s.Lands(h, t)
  {
    hide Rank;
    if !s.Lands(h, t) {
      assert t !in TimesOf(s.listed, h);
      assert (h, t) !in s'.listed && (h, t) in s'.held;
    }
  }

  /** Not even an add that lands puts a dead tail right. */
  lemma StrandedForGood(s: State, op: Op, s': State, h: Handle)
    requires Next(s, op, s') && s.Tail(h).OffList? && (op.Add? && op.h == h ==> s.Lands(h, op.t))
    ensures s'.Tail(h) == s.Tail(h)
  {
    hide Rank;
    hide Select;
    if op.Remove? {
      assert TailAfter(How(op.h, op.q), TimesOf(s.held, h), TimesOf(Select(s.held, op.h, op.q), h), s.Tail(h),
                       s'.Tail(h));
    }
  }

  /** The last of all intervals: the last time stamp alone, not normal. */
  const LAST_TIME: Time := Temporal(OCTIME_MAX, OCTIME_MAX, false)

  /** No single time added is lost just when no dead tail is short of the very last interval. */
  lemma EveryAddLands(s: State)
    ensures (forall h: Handle, t :: s.Lands(h, t)) <==>
      forall h: Handle :: s.Tail(h).OffList? ==> s.Tail(h).time == LAST_TIME
  {
    forall t: Time ensures Rank(t) <= Rank(LAST_TIME) {
    }
    if h: Handle :| s.Tail(h).OffList? && s.Tail(h).time != LAST_TIME {
      assert Compare(s.Tail(h).time, LAST_TIME) != 0;
      assert !s.Lands(h, LAST_TIME);
    }
  }

  /** Every time added up to step n is not beyond a dead tail. */
  ghost predicate AllLand(states: seq<State>, ops: seq<Op>, n: nat)
    requires |states| == |ops| + 1 && n <= |ops|
  {
    forall i :: 0 <= i < n && ops[i].Add? ==> states[i].Lands(ops[i].h, ops[i].t)
  }

  ghost predicate AllSound(states: seq<State>, n: nat)
    requires n < |states|
  {
    forall i :: 0 <= i <= n ==> states[i].Sound()
  }

  /**
   * The views agree throughout such a run just when every time added lands; they then hold what the plain set would.
   */
  lemma {:induction false} StaleRunIsSoundWhenAllLand(states: seq<State>, ops: seq<Op>, n: nat)
    requires StaleRun(states, ops) && n <= |ops|
    ensures AllSound(states, n) <==> AllLand(states, ops, n)
    ensures AllSound(states, n) ==> TailsBeyond(states[n]) && states[n].held == Replay(ops[..n])
  {
    hide Rank;
    hide Select;
    if n > 0 {
      StaleRunIsSoundWhenAllLand(states, ops, n - 1);
      var (s, op, s') := (states[n - 1], ops[n - 1], states[n]);
      if AllSound(states, n - 1) {
        assert s.Sound() && Next(s, op, s');
        assert ops[..n][..n - 1] == ops[..n - 1];
        if op.Add? {
          LandsOrIsLost(s, op.h, op.t, s');
        }
        if s'.Sound() {
          StepKeepsTailsBeyond(s, op, s');
        }
      }
    }
  }

  // ---------------------------------------------------------------- the failing families

  /**
   * Removal for all handles: two times for a handle, the later one removed. Adding any time for the handle then reads a
   * dead entry, and a time later than the one removed is lost.
   */
  lemma RemovalForAllStrands(states: seq<State>, h: Handle, t1: Time, t2: Time, t3: Time)
    requires Run(states, [Op.Add(h, t1), Op.Add(h, t2), Op.Remove(UNDEFINED_HANDLE, By(t2, EXACT)), Op.Add(h, t3)])
    requires NoReuse(states, [Op.Add(h, t1), Op.Add(h, t2), Op.Remove(UNDEFINED_HANDLE, By(t2, EXACT)), Op.Add(h, t3)])
    requires Rank(t1) < Rank(t2)
    ensures states[3].Tail(h) == OffList(t2) && ReadsDead(states[3], Op.Add(h, t3))
    ensures states[3].Sound() && states[3].held == {(h, t1)}
    ensures Next(states[3], Op.Add(h, t3), states[4]) && Rank(t2) < Rank(t3) ==>
      (h, t3) in states[4].held && (h, t3) !in states[4].listed
  {
    hide Rank;
    var ops := [Op.Add(h, t1), Op.Add(h, t2), Op.Remove(UNDEFINED_HANDLE, By(t2, EXACT)), Op.Add(h, t3)];
    assert Told(states[0], ops[0]);
    assert Next(states[0], ops[0], states[1]) && Told(states[1], ops[1]);
    assert Next(states[1], ops[1], states[2]) && Told(states[2], ops[2]);
    assert Next(states[2], ops[2], states[3]);
    ExactForAll(states[2].held, t2);
    assert TimesOf(states[2].held, h) == {t1, t2}
      && TimesOf(Select(states[2].held, UNDEFINED_HANDLE, By(t2, EXACT)), h) == {t2};
    assert t2 in {t2} && Latest(t2, {t1, t2});
  }

  lemma ExactForAll(pairs: set<Pair>, t: Time)
    ensures Select(pairs, UNDEFINED_HANDLE, By(t, EXACT)) == set p | p in pairs && p.1 == t
  {
    forall p | p in pairs ensures p in Select(pairs, UNDEFINED_HANDLE, By(t, EXACT)) <==> p.1 == t {
      MatchesIsDefined(By(t, EXACT), p.1);
    }
  }

  /**
   * Removal by a PREVIOUS criterion for one handle: one time, removed as the last to start before another. Adding any
   * time for the handle then reads a dead entry, and a later time is lost.
   */
  lemma PreviousRemovalStrands(states: seq<State>, h: Handle, t1: Time, t2: Time, t3: Time)
    requires Run(states, [Op.Add(h, t1), Op.Remove(h, By(t2, PREVIOUS_BEFORE_START_OF)), Op.Add(h, t3)])
    requires NoReuse(states, [Op.Add(h, t1), Op.Remove(h, By(t2, PREVIOUS_BEFORE_START_OF)), Op.Add(h, t3)])
    requires h != UNDEFINED_HANDLE && t1.Lower() < t2.Lower()
    ensures states[2].Tail(h) == OffList(t1) && ReadsDead(states[2], Op.Add(h, t3))
    ensures states[2].Sound() && states[2].held == {}
    ensures Next(states[2], Op.Add(h, t3), states[3]) && Rank(t1) < Rank(t3) ==>
      (h, t3) in states[3].held && (h, t3) !in states[3].listed
  {
    hide Rank;
    var q := By(t2, PREVIOUS_BEFORE_START_OF);
    var ops := [Op.Add(h, t1), Op.Remove(h, q), Op.Add(h, t3)];
    assert Told(states[0], ops[0]);
    assert Next(states[0], ops[0], states[1]) && Told(states[1], ops[1]);
    assert Next(states[1], ops[1], states[2]);
    assert states[1].held == {(h, t1)} && TimesOf(states[1].held, h) == {t1};
    assert q.Chosen(t1, {t1});
    assert Select(states[1].held, h, q) == {(h, t1)};
    assert t1 in {t1} && Latest(t1, {t1}) && TimesOf(Select(states[1].held, h, q), h) == {t1};
  }

  /** The losses on the table itself: the hash then holds a pair that is not on the list of its handle. */
  method LoseTime(h: Handle, t1: Time, t2: Time, t3: Time) returns (table: TemporalTable)
    requires Rank(t1) < Rank(t2) < Rank(t3)
    ensures table.Holds(h, t3) && t3 !in table.handles.ListOf(h)
  {
    hide Rank;
    hide Next;
    hide TemporalTable.Shape;
    hide TemporalTable.Agree;
    ghost var ops := [Op.Add(h, t1), Op.Add(h, t2), Op.Remove(UNDEFINED_HANDLE, By(t2, EXACT)), Op.Add(h, t3)];
    ghost var states;
    table, states := Execute([Op.Add(h, t1), Op.Add(h, t2), Op.Remove(UNDEFINED_HANDLE, By(t2, EXACT))]);
    assert ops[..3] == [Op.Add(h, t1), Op.Add(h, t2), Op.Remove(UNDEFINED_HANDLE, By(t2, EXACT))] && ops[..4] == ops;
    var ok := table.Add(h, t3);
    RunOneMore(states, ops, 3, table.Model());
    RemovalForAllStrands(states + [table.Model()], h, t1, t2, t3);
    table.ListedPairs();
  }

  method LoseTimeByPrevious(h: Handle, t1: Time, t2: Time, t3: Time) returns (table: TemporalTable)
    requires h != UNDEFINED_HANDLE && t1.Lower() < t2.Lower() && Rank(t1) < Rank(t3)
    ensures table.Holds(h, t3) && t3 !in table.handles.ListOf(h)
  {
    hide Rank;
    hide Next;
    hide TemporalTable.Shape;
    hide TemporalTable.Agree;
    ghost var ops := [Op.Add(h, t1), Op.Remove(h, By(t2, PREVIOUS_BEFORE_START_OF)), Op.Add(h, t3)];
    ghost var states;
    table, states := Execute([Op.Add(h, t1), Op.Remove(h, By(t2, PREVIOUS_BEFORE_START_OF))]);
    assert ops[..2] == [Op.Add(h, t1), Op.Remove(h, By(t2, PREVIOUS_BEFORE_START_OF))] && ops[..3] == ops;
    var ok := table.Add(h, t3);
    RunOneMore(states, ops, 2, table.Model());
    PreviousRemovalStrands(states + [table.Model()], h, t1, t2, t3);
    table.ListedPairs();
  }
}
