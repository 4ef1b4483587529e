// Runs of add and remove, against the plain set of pairs they are meant to keep.
module TableRuns {
  import opened Basics
  import opened Temporals
  import opened HandleLists
  import opened Criteria
  import opened TableModel
  import opened TemporalTables

  /** add and remove on the plain set. */
  ghost function Apply(pairs: set<Pair>, op: Op): set<Pair> {
    match op
    case Add(h, t) => pairs + {(h, t)}
    case Remove(h, q) => pairs - Select(pairs, h, q)
  }

  ghost function Replay(ops: seq<Op>): set<Pair> {
    if ops == [] then {} else Apply(Replay(ops[..|ops| - 1]), ops[|ops| - 1])
  }

  // ---------------------------------------------------------------- steps

  /** An add that goes by a tail whose entry is dead. */
  ghost predicate ReadsDead(s: State, op: Op) {
    op.Add? && s.Tail(op.h).OffList?
  }

  /**
   * The address of a dead tail may have been given to a new entry. Removal then takes the tail for that entry when it
   * compares the two, which it does for the entries that match, except by the PREVIOUS criteria.
   */
  ghost predicate Coincides(how: Removal, times: set<Time>, removed: set<Time>, before: TailView, after: TailView) {
    before.OffList? && after.NoTail? && !how.ByHandlePrevious? && times * removed != {}
  }

  /** A step, whichever addresses new entries are given. */
  ghost predicate MayNext(s: State, op: Op, s': State) {
    match op
    case Add(h, t) => Next(s, op, s')
    case Remove(h, q) =>
      && s.Sound() && s'.Sound()
      && s'.held == s.held - Select(s.held, h, q)
      && forall k: Handle ::
        TailMayBe(How(h, q), TimesOf(s.held, k), TimesOf(Select(s.held, h, q), k), s.Tail(k), s'.Tail(k))
  }

  ghost predicate TailMayBe(how: Removal, times: set<Time>, removed: set<Time>, before: TailView, after: TailView) {
    TailAfter(how, times, removed, before, after) || Coincides(how, times, removed, before, after)
  }

  lemma NextMayBe(s: State, op: Op, s': State)
    requires Next(s, op, s')
    ensures MayNext(s, op, s')
  {
    hide Select;
    hide TailAfter;
  }

  /** A removal that takes the entry of h's tail, but leaves the tail. */
  ghost predicate Strands(s: State, op: Op, h: Handle) {
    && op.Remove? && s.Tail(h).OnList?
    && var (times, removed) := (TimesOf(s.held, h), TimesOf(Select(s.held, op.h, op.q), h));
    && (exists t <- removed :: Latest(t, times))
    && (How(op.h, op.q).ByHandlePrevious? || (How(op.h, op.q).ByTime? && !(times <= removed)))
  }

  ghost predicate Hazard(s: State, op: Op) {
    exists h: Handle :: Strands(s, op, h)
  }

  /** A tail that is not dead dies just when the step strands it. */
  lemma OneTail(s: State, op: Op, s': State, h: Handle)
    requires !s.Tail(h).OffList? && MayNext(s, op, s')
    ensures s'.Tail(h).OffList? <==> Strands(s, op, h)
  {
    hide Rank;
    hide Select;
    if op.Remove? {
      var (times, removed) := (TimesOf(s.held, h), TimesOf(Select(s.held, op.h, op.q), h));
      assert TailMayBe(How(op.h, op.q), times, removed, s.Tail(h), s'.Tail(h));
    }
  }

  /** The tails are still current after a step just when it was no hazard. */
  lemma HazardIsExact(s: State, op: Op, s': State)
    requires s.TailsCurrent() && MayNext(s, op, s')
    ensures s'.TailsCurrent() <==> !Hazard(s, op)
  {
    hide MayNext;
    hide Strands;
    forall h: Handle ensures s'.Tail(h).OffList? <==> Strands(s, op, h) {
      assert !s.Tail(h).OffList?;
      OneTail(s, op, s', h);
    }
  }

  /** A step that reads no dead entry does to both views what it does to the plain set. */
  lemma StepIsApply(s: State, op: Op, s': State)
    requires s.Sound() && !ReadsDead(s, op) && MayNext(s, op, s')
    ensures s'.Sound() && s'.held == Apply(s.held, op)
  {
    hide Select;
    hide TailMayBe;
  }

  /** A dead tail is left alone, as long as its address is not used again. */
  lemma StaysDead(s: State, op: Op, s': State, h: Handle)
    requires Next(s, op, s') && !ReadsDead(s, op) && s.Tail(h).OffList?
    ensures s'.Tail(h) == s.Tail(h)
  {
    hide Rank;
    hide Select;
    if op.Remove? {
      assert TailAfter(How(op.h, op.q), TimesOf(s.held, h), TimesOf(Select(s.held, op.h, op.q), h), s.Tail(h),
                       s'.Tail(h));
    }
  }

  // ---------------------------------------------------------------- runs

  /** A step is as told unless it reads a dead entry, or starts from views that differ. */
  ghost predicate Told(s: State, op: Op) {
    s.Sound() && !ReadsDead(s, op)
  }

  /** From the empty table, by add and remove; after a step that is not told, anything may be the case. */
  ghost predicate Run(states: seq<State>, ops: seq<Op>) {
    && |states| == |ops| + 1 && states[0] == EMPTY
    && forall i :: 0 <= i < |ops| ==> Told(states[i], ops[i]) ==> MayNext(states[i], ops[i], states[i + 1])
  }

  /** No new entry is given the address of a dead tail. */
  ghost predicate NoReuse(states: seq<State>, ops: seq<Op>)
    requires |states| == |ops| + 1
  {
    forall i :: 0 <= i < |ops| ==> Told(states[i], ops[i]) ==> Next(states[i], ops[i], states[i + 1])
  }

  ghost predicate NoDeadRead(states: seq<State>, ops: seq<Op>, n: nat)
    requires |states| == |ops| + 1 && n <= |ops|
  {
    forall i :: 0 <= i < n ==> !ReadsDead(states[i], ops[i])
  }

  /** Some step before n stranded the tail of h. */
  ghost predicate Stranded(states: seq<State>, ops: seq<Op>, n: nat, h: Handle)
    requires |states| == |ops| + 1 && n <= |ops|
  {
    exists j :: 0 <= j < n && Strands(states[j], ops[j], h)
  }

  /** No time is added for a handle after a step that stranded its tail. */
  ghost predicate NoAddOnceStranded(states: seq<State>, ops: seq<Op>, n: nat)
    requires |states| == |ops| + 1 && n <= |ops|
  {
    forall i :: 0 <= i < n && ops[i].Add? ==> !Stranded(states, ops, i, ops[i].h)
  }

  /** Up to the first step that reads a dead entry the table is the plain set, and only stranded tails are dead. */
  lemma {:induction false} UntilDeadRead(states: seq<State>, ops: seq<Op>, n: nat)
    requires Run(states, ops) && n <= |ops| && NoDeadRead(states, ops, n)
    ensures states[n].Sound() && states[n].held == Replay(ops[..n])
    ensures forall h: Handle :: states[n].Tail(h).OffList? ==> Stranded(states, ops, n, h)
    ensures NoReuse(states, ops) ==> forall h: Handle :: Stranded(states, ops, n, h) ==> states[n].Tail(h).OffList?
  {
    hide Strands;
    hide MayNext;
    hide Next;
    hide Apply;
    if n > 0 {
      UntilDeadRead(states, ops, n - 1);
      var (s, op, s') := (states[n - 1], ops[n - 1], states[n]);
      assert Told(s, op) && !ReadsDead(s, op);
      StepIsApply(s, op, s');
      assert ops[..n][..n - 1] == ops[..n - 1];
      forall h: Handle
        ensures s'.Tail(h).OffList? ==> Stranded(states, ops, n, h)
        ensures NoReuse(states, ops) && Stranded(states, ops, n, h) ==> s'.Tail(h).OffList?
      {
        OneMoreStep(states, ops, n, h);
      }
    }
  }

  lemma OneMoreStep(states: seq<State>, ops: seq<Op>, n: nat, h: Handle)
    requires |states| == |ops| + 1 && 0 < n <= |ops|
    requires Told(states[n - 1], ops[n - 1]) && MayNext(states[n - 1], ops[n - 1], states[n])
    requires states[n - 1].Tail(h).OffList? ==> Stranded(states, ops, n - 1, h)
    ensures states[n].Tail(h).OffList? ==> Stranded(states, ops, n, h)
    ensures NoReuse(states, ops) && (Stranded(states, ops, n - 1, h) ==> states[n - 1].Tail(h).OffList?)
            ==> Stranded(states, ops, n, h) ==> states[n].Tail(h).OffList?
  {
    hide Strands;
    hide MayNext;
    hide Next;
    var (s, op, s') := (states[n - 1], ops[n - 1], states[n]);
    if s.Tail(h).OffList? {
      if NoReuse(states, ops) {
        assert Next(s, op, s');
        StaysDead(s, op, s', h);
      }
    } else {
      OneTail(s, op, s', h);
    }
  }

  /**
   * Whichever addresses are given, a run that adds no time for a handle once its tail was stranded reads no dead entry;
   * as long as addresses are not used again, it reads none just in that case.
   */
  lemma {:induction false} DeadReadsFollowHazards(states: seq<State>, ops: seq<Op>, n: nat)
    requires Run(states, ops) && n <= |ops|
    ensures NoAddOnceStranded(states, ops, n) ==> NoDeadRead(states, ops, n)
    ensures NoReuse(states, ops) ==> (NoDeadRead(states, ops, n) <==> NoAddOnceStranded(states, ops, n))
  {
    hide MayNext;
    hide Next;
    hide Stranded;
    if n > 0 {
      DeadReadsFollowHazards(states, ops, n - 1);
      if NoDeadRead(states, ops, n - 1) {
        UntilDeadRead(states, ops, n - 1);
      }
    }
  }

  /** Such a run is sound throughout: all views agree, and the table is the plain set. */
  lemma CarefulRunsAreReplays(states: seq<State>, ops: seq<Op>)
    requires Run(states, ops) && NoAddOnceStranded(states, ops, |ops|)
    ensures forall i :: 0 <= i <= |ops| ==> states[i].Sound() && states[i].held == Replay(ops[..i])
  {
    hide MayNext;
    hide Stranded;
    DeadReadsFollowHazards(states, ops, |ops|);
    forall i | 0 <= i <= |ops| ensures states[i].Sound() && states[i].held == Replay(ops[..i]) {
      UntilDeadRead(states, ops, i);
    }
  }

  /** A run without a hazard keeps all tails current besides. */
  lemma {:induction false} RunIsReplay(states: seq<State>, ops: seq<Op>, n: nat)
    requires Run(states, ops) && n <= |ops|
    requires forall i :: 0 <= i < n ==> !Hazard(states[i], ops[i])
    ensures states[n].Sound() && states[n].TailsCurrent() && states[n].held == Replay(ops[..n])
    ensures NoDeadRead(states, ops, n)
  {
    hide Hazard;
    hide MayNext;
    hide Apply;
    if n > 0 {
      RunIsReplay(states, ops, n - 1);
      var (s, op) := (states[n - 1], ops[n - 1]);
      assert op.Add? ==> !s.Tail(op.h).OffList?;
      assert Told(s, op);
      StepIsApply(s, op, states[n]);
      HazardIsExact(s, op, states[n]);
      assert ops[..n][..n - 1] == ops[..n - 1];
    }
  }

  /** The operations that are never a hazard: all but PREVIOUS removals for one handle and partial ones for all. */
  predicate Harmless(op: Op) {
    op.Remove? ==> if op.h == UNDEFINED_HANDLE then op.q.Everything? else !op.q.Previous?()
  }

  lemma HarmlessIsNoHazard(s: State, op: Op)
    requires Harmless(op)
    ensures !Hazard(s, op)
  {
    hide Rank;
    if op.Remove? && op.h == UNDEFINED_HANDLE {
      assert Select(s.held, op.h, op.q) == s.held;
    }
  }

  /**
   * Over every run of adds, removals for one handle but the PREVIOUS ones, and clearing, the table is the plain set.
   */
  lemma HarmlessRunsAreReplays(states: seq<State>, ops: seq<Op>)
    requires Run(states, ops) && forall op <- ops :: Harmless(op)
    ensures forall s <- states :: s.Sound() && s.TailsCurrent()
    ensures states[|ops|].held == Replay(ops)
  {
    hide Hazard;
    hide Harmless;
    hide MayNext;
    forall i | 0 <= i < |ops| ensures !Hazard(states[i], ops[i]) {
      HarmlessIsNoHazard(states[i], ops[i]);
    }
    forall i | 0 <= i <= |ops| ensures states[i].Sound() && states[i].TailsCurrent() {
      RunIsReplay(states, ops, i);
    }
    RunIsReplay(states, ops, |ops|);
    assert ops[..|ops|] == ops;
  }

  // ---------------------------------------------------------------- runs of the table itself

  /** No run of some operations, up to any add among them, strands the tail that the add is about to use. */
  ghost predicate Careful(ops: seq<Op>) {
    forall i, states :: 0 <= i < |ops| && ops[i].Add? && Run(states, ops[..i]) && NoReuse(states, ops[..i]) ==>
      !Stranded(states, ops[..i], i, ops[i].h)
  }

  lemma HarmlessIsCareful(ops: seq<Op>)
    requires forall op <- ops :: Harmless(op)
    ensures Careful(ops)
  {
    hide Harmless;
    hide MayNext;
    hide Strands;
    forall i, states | 0 <= i < |ops| && ops[i].Add? && Run(states, ops[..i]) && NoReuse(states, ops[..i])
      ensures !Stranded(states, ops[..i], i, ops[i].h)
    {
      forall j | 0 <= j < i ensures !Strands(states[j], ops[..i][j], ops[i].h) {
        HarmlessIsNoHazard(states[j], ops[j]);
      }
    }
  }

  /**
   * Over every careful sequence of operations the table itself, with all its lists, maps and its index, is the plain
   * set, and no add goes by a dead entry.
   */
  method Execute(ops: seq<Op>) returns (table: TemporalTable, ghost states: seq<State>)
    requires Careful(ops)
    ensures table.Valid() && fresh(table) && fresh(table.handles.Repr) && fresh(table.times.Repr)
    ensures Run(states, ops) && NoReuse(states, ops) && table.Model() == states[|ops|]
    ensures NoDeadRead(states, ops, |ops|)
    ensures table.Held() == Replay(ops)
  {
    hide Next;
    hide MayNext;
    hide Stranded;
    hide Careful;
    hide TemporalTable.Shape;
    hide TemporalTable.Agree;
    table := new TemporalTable();
    NewTableIsEmpty(table);
    states := [table.Model()];
    for i := 0 to |ops|
      invariant table.Valid() && fresh(table) && fresh(table.handles.Repr) && fresh(table.times.Repr)
      invariant |states| == i + 1 && Run(states, ops[..i]) && NoReuse(states, ops[..i]) && states[i] == table.Model()
      invariant NoDeadRead(states, ops[..i], i)
    {
      CarefulStep(states, ops, i);
      match ops[i] {
        case Add(h, t) =>
          table.DeadTails(h);
          assert h in table.handles.tailHandleMap ==> table.handles.tailHandleMap[h] !in table.handles.dead;
          var ok := table.Add(h, t);
        case Remove(h, q) =>
          var t := if q.Everything? then UNDEFINED_TEMPORAL else q.t;
          var criterion := if q.Everything? then EXACT else q.criterion;
          assert QueryOf(t, criterion) == q;
          var removed := table.Remove(h, t, criterion);
      }
      RunOneMore(states, ops, i, table.Model());
      states := states + [table.Model()];
      UntilDeadRead(states, ops[..i + 1], i + 1);
      table.ListedPairs();
    }
    UntilDeadRead(states, ops[..|ops|], |ops|);
    assert ops[..|ops|] == ops && ops[..|ops|][..|ops|] == ops;
  }

  lemma NewTableIsEmpty(table: TemporalTable)
    requires table.temporalMap == map[] && table.handles.lists == map[] && table.handles.tailHandleMap == map[]
    ensures table.Model() == EMPTY
  {
  }

  lemma CarefulStep(states: seq<State>, ops: seq<Op>, i: nat)
    requires Careful(ops) && i < |ops| && Run(states, ops[..i]) && NoReuse(states, ops[..i])
      && NoDeadRead(states, ops[..i], i)
    ensures !ReadsDead(states[i], ops[i])
  {
    hide MayNext;
    hide Next;
    hide Stranded;
    UntilDeadRead(states, ops[..i], i);
  }

  lemma RunOneMore(states: seq<State>, ops: seq<Op>, i: nat, s: State)
    requires i < |ops| && Run(states, ops[..i]) && NoReuse(states, ops[..i]) && Next(states[i], ops[i], s)
    ensures Run(states + [s], ops[..i + 1]) && NoReuse(states + [s], ops[..i + 1])
    ensures NoDeadRead(states, ops[..i], i) && !ReadsDead(states[i], ops[i]) ==>
      NoDeadRead(states + [s], ops[..i + 1], i + 1)
  {
    hide Next;
    hide MayNext;
    NextMayBe(states[i], ops[i], s);
  }
}
