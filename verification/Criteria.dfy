// The lookup criteria: opencog/spacetime/TemporalTable.h:55-68 and TemporalTable.cc:812-894.
module Criteria {
  import opened Temporals

  datatype TemporalRelationship =
    | EXACT
    | STARTS_BEFORE
    | STARTS_WITHIN
    | STARTS_AFTER
    | ENDS_BEFORE
    | ENDS_WITHIN
    | ENDS_AFTER
    | OVERLAPS
    | INCLUDES
    | NEXT_AFTER_START_OF
    | NEXT_AFTER_END_OF
    | PREVIOUS_BEFORE_START_OF
    | PREVIOUS_BEFORE_END_OF
  {
    predicate Previous?() {
      PREVIOUS_BEFORE_START_OF? || PREVIOUS_BEFORE_END_OF?
    }

    predicate Next?() {
      NEXT_AFTER_START_OF? || NEXT_AFTER_END_OF?
    }
  }

  /** Whether the time of an entry matches, and whether the search may stop there. */
  function MatchesTimeCriterion(time: Time, t: Time, criterion: TemporalRelationship): (r: (bool, bool)) {
    match criterion
    case EXACT =>
      var matches := t == time;
      (matches, matches)
    case OVERLAPS =>
      var matches := t.Lower() <= time.Upper() && t.Upper() >= time.Lower();
      (matches, !matches && time.Lower() > t.Upper())
    case INCLUDES =>
      var matches := time.Lower() <= t.Lower() && time.Upper() >= t.Upper();
      (matches, !matches && time.Lower() > t.Lower())
    case STARTS_BEFORE =>
      var matches := time.Lower() < t.Lower();
      (matches, !matches && time.Lower() >= t.Lower())
    case STARTS_WITHIN =>
      var matches := time.Lower() >= t.Lower() && time.Lower() <= t.Upper();
      (matches, !matches && time.Lower() > t.Upper())
    case STARTS_AFTER =>
      (time.Lower() > t.Upper(), false)
    case ENDS_BEFORE =>
      var matches := time.Upper() < t.Lower();
      (matches, !matches && time.Lower() >= t.Lower())
    case ENDS_WITHIN =>
      var matches := time.Upper() >= t.Lower() && time.Upper() <= t.Upper();
      (matches, !matches && time.Lower() > t.Upper())
    case ENDS_AFTER =>
      (time.Upper() > t.Upper(), false)
    case NEXT_AFTER_START_OF =>
      var matches := time.Lower() > t.Lower();
      (matches, matches)
    case NEXT_AFTER_END_OF =>
      var matches := time.Lower() > t.Upper();
      (matches, matches)
    case PREVIOUS_BEFORE_START_OF =>
      var matches := time.Lower() < t.Lower();
      (matches, !matches)
    case PREVIOUS_BEFORE_END_OF =>
      var matches := time.Lower() < t.Upper();
      (matches, !matches)
  }

  /** What a lookup asks for: everything, when its Temporal argument is undefined, or a criterion about t. */
  datatype Query = Everything | By(t: Time, criterion: TemporalRelationship) {
    predicate Previous?() {
      By? && criterion.Previous?()
    }

    predicate Next?() {
      By? && criterion.Next?()
    }

    function Matches(time: Time): (r: (bool, bool)) {
      if Everything? then (true, false) else MatchesTimeCriterion(time, t, criterion)
    }

    /** The definitions of the criteria, T = (l, u) being the time of an entry and T' = (l', u') the argument t. */
    ghost predicate Defined(time: Time) {
      var (l, u) := (time.Lower(), time.Upper());
      Everything? ||
      var (l', u') := (t.Lower(), t.Upper());
      match criterion
      case EXACT => l == l' && u == u' && time.normal == t.normal
      case STARTS_BEFORE => l < l'
      case STARTS_WITHIN => l' <= l <= u'
      case STARTS_AFTER => l > u'
      case ENDS_BEFORE => u < l'
      case ENDS_WITHIN => l' <= u <= u'
      case ENDS_AFTER => u > u'
      case OVERLAPS => exists x: int :: time.Within(x) && t.Within(x)
      case INCLUDES => l <= l' && u' <= u
      case NEXT_AFTER_START_OF => l > l'
      case NEXT_AFTER_END_OF => l > u'
      case PREVIOUS_BEFORE_START_OF => l < l'
      case PREVIOUS_BEFORE_END_OF => l < u'
    }

    /** The times of a collection a lookup is about: for the NEXT and PREVIOUS criteria the closest one only. */
    ghost predicate Chosen(time: Time, times: set<Time>) {
      && time in times && Defined(time)
      && (Next?() ==> forall y <- times :: Defined(y) ==> Rank(time) <= Rank(y))
      && (Previous?() ==> forall y <- times :: Defined(y) ==> Rank(y) <= Rank(time))
    }
  }

  /** Valid intervals are not empty, and the total order goes by lower bounds first. */
  lemma RankOrdersLowerBounds(x: Time, y: Time)
    ensures x.Lower() <= x.Upper()
    ensures Rank(x) <= Rank(y) ==> x.Lower() <= y.Lower()
  {
  }

  lemma MatchesIsDefined(q: Query, time: Time)
    ensures q.Matches(time).0 <==> q.Defined(time)
  {
    hide Temporal.Within;
    RankOrdersLowerBounds(time, time);
    if q.By? {
      RankOrdersLowerBounds(q.t, q.t);
      if q.criterion.EXACT? && q.Defined(time) {
        assert q.t.a == time.a && q.t.b == time.b;
      }
      if q.criterion.OVERLAPS? {
        ShareByBounds(time, q.t);
      }
    }
  }

  lemma ShareByBounds(t: Time, y: Time)
    ensures (exists x: int :: t.Within(x) && y.Within(x)) <==> y.Lower() <= t.Upper() && t.Lower() <= y.Upper()
  {
    hide Temporal.Within;
    hide Temporal.Lower;
    hide Temporal.Upper;
    var x := if t.Lower() < y.Lower() then y.Lower() else t.Lower();
    RankOrdersLowerBounds(t, y);
    RankOrdersLowerBounds(y, t);
    BoundsAreReached(t, x);
    BoundsAreReached(y, x);
    if exists z: int :: t.Within(z) && y.Within(z) {
      var z: int :| t.Within(z) && y.Within(z);
      BoundsAreReached(t, z);
      BoundsAreReached(y, z);
    }
  }

  /** Nothing that matches is left after the search has been stopped, unless the first match is all it is for. */
  lemma StopIsSafe(q: Query, x: Time, y: Time)
    requires q.Matches(x).1 && Rank(x) < Rank(y)
    ensures q.Next?() || !q.Matches(y).0
    ensures q.Next?() ==> q.Matches(x).0
  {
    RankOrdersLowerBounds(x, y);
    RankOrdersLowerBounds(y, y);
    RankOrdersLowerBounds(q.t, q.t);
  }

  // ---------------------------------------------------------------- scanning a sorted list

  datatype Scan = Scan(found: seq<Time>, finished: bool)

  /** One turn of the lookup loops: the matches so far, of which only the last counts for the PREVIOUS criteria. */
  function Step(q: Query, scan: Scan, time: Time): Scan {
    var (matches, stop) := q.Matches(time);
    Scan(if !matches then scan.found else if q.Previous?() then [time] else scan.found + [time], stop)
  }

  ghost function Elements(s: seq<Time>): set<Time> {
    set x | x in s
  }

  lemma ElementsAppend(s: seq<Time>, x: Time)
    ensures Elements([]) == {} && Elements([x]) == {x} == {} + {x} && Elements(s + [x]) == Elements(s) + {x}
  {
  }

  ghost predicate Ascending(s: seq<Time>) {
    forall i, j :: 0 <= i < j < |s| ==> Rank(s[i]) < Rank(s[j])
  }

  /** What a scan knows of the times it has seen. */
  ghost predicate ScanOk(q: Query, scan: Scan, seen: set<Time>) {
    && Ascending(scan.found)
    && (forall x <- scan.found :: x in seen && q.Matches(x).0)
    && (forall x <- seen :: q.Matches(x).0 ==>
        x in scan.found || (q.Previous?() && exists y <- scan.found :: Rank(x) < Rank(y)))
    && (q.Previous?() ==> |scan.found| <= 1)
    && (scan.finished <==> exists x <- seen :: q.Matches(x).1)
    && (forall x <- seen, y <- seen :: q.Matches(x).1 ==> Rank(y) <= Rank(x))
  }

  lemma ScanStarts(q: Query)
    ensures ScanOk(q, Scan([], false), {})
  {
  }

  lemma FoundIsSeen(q: Query, scan: Scan, seen: set<Time>)
    requires ScanOk(q, scan, seen)
    ensures Elements(scan.found) <= seen
  {
  }

  lemma StepOk(q: Query, scan: Scan, seen: set<Time>, time: Time)
    requires ScanOk(q, scan, seen) && !scan.finished
    requires forall x <- seen :: Rank(x) < Rank(time)
    ensures ScanOk(q, Step(q, scan, time), seen + {time})
  {
    hide Rank;
    hide MatchesTimeCriterion;
  }

  /** The scan has the answer once it was stopped or has seen everything: the cut-off loses nothing. */
  lemma ScanIsComplete(q: Query, scan: Scan, seen: set<Time>, times: set<Time>)
    requires ScanOk(q, scan, seen) && seen <= times
    requires forall x <- seen, y <- times :: y !in seen ==> Rank(x) < Rank(y)
    requires scan.finished || seen == times
    ensures Ascending(scan.found) && forall x :: x in scan.found <==> q.Chosen(x, times)
  {
    hide Rank;
    hide MatchesTimeCriterion;
    forall y | y in times && y !in seen
      ensures q.Next?() || !q.Matches(y).0
    {
      var x :| x in seen && q.Matches(x).1;
      StopIsSafe(q, x, y);
    }
    forall y | y in times
      ensures q.Matches(y).0 <==> q.Defined(y)
      ensures q.Next?() ==> q.Matches(y).0 == q.Matches(y).1
    {
      MatchesIsDefined(q, y);
      if q.Next?() {
        NextStopsAtMatch(q, y);
      }
    }
  }

  lemma NextStopsAtMatch(q: Query, x: Time)
    requires q.Next?()
    ensures q.Matches(x).0 == q.Matches(x).1
  {
  }

  /** Two intervals share a point just when each starts before the other ends. */
  lemma OverlapsByBounds(t: Time, y: Time)
    ensures By(t, OVERLAPS).Defined(y) <==> y.Lower() <= t.Upper() && t.Lower() <= y.Upper()
  {
    MatchesIsDefined(By(t, OVERLAPS), y);
  }

  /** An interval that reaches beyond t on both sides overlaps t, though it neither starts nor ends within t. */
  lemma OverlapsIsMoreThanWithin(t: Time, y: Time)
    ensures By(t, OVERLAPS).Defined(y) <==>
      (By(t, STARTS_WITHIN).Defined(y) || By(t, ENDS_WITHIN).Defined(y)
       || (y.Lower() < t.Lower() && t.Upper() < y.Upper()))
  {
    OverlapsByBounds(t, y);
    RankOrdersLowerBounds(t, y);
    RankOrdersLowerBounds(y, t);
  }
}
