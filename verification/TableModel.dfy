// What a temporal table means: a set of pairs of a handle and a time.
module TableModel {
  import opened Basics
  import opened Temporals
  import opened HandleLists
  import opened Criteria

  type Pair = (Handle, Time)

  ghost function TimesOf(pairs: set<Pair>, h: Handle): set<Time> {
    set p | p in pairs && p.0 == h :: p.1
  }

  ghost function AllTimes(pairs: set<Pair>): set<Time> {
    set p | p in pairs :: p.1
  }

  /** The pairs a lookup is about. The undefined handle stands for any handle. */
  ghost function Select(pairs: set<Pair>, h: Handle, q: Query): set<Pair> {
    if h == UNDEFINED_HANDLE then
      set p | p in pairs && q.Chosen(p.1, AllTimes(pairs))
    else
      set p | p in pairs && p.0 == h && q.Chosen(p.1, TimesOf(pairs, h))
  }

  /** What the handle and Temporal arguments of get and remove ask for. */
  function QueryOf(t: Temporal, criterion: TemporalRelationship): Query
    requires t.Valid() || t == UNDEFINED_TEMPORAL
  {
    if t == UNDEFINED_TEMPORAL then Everything else By(t, criterion)
  }

  /** A list has exactly the given pairs, each once, in the order of their times. */
  ghost predicate IsListing(s: seq<Pair>, pairs: set<Pair>) {
    && (forall p :: p in s <==> p in pairs)
    && (forall i, j :: 0 <= i < j < |s| ==> s[i] != s[j] && Rank(s[i].1) <= Rank(s[j].1))
  }

  /** The pairs of one handle with some times. */
  ghost function Tag(h: Handle, s: seq<Time>): (r: seq<Pair>)
    ensures |r| == |s| && forall i :: 0 <= i < |s| ==> r[i] == (h, s[i])
  {
    seq(|s|, i requires 0 <= i < |s| => (h, s[i]))
  }

  lemma TagIsListing(h: Handle, q: Query, pairs: set<Pair>, found: seq<Time>)
    requires h != UNDEFINED_HANDLE && Ascending(found)
    requires forall x :: x in found <==> q.Chosen(x, TimesOf(pairs, h))
    ensures IsListing(Tag(h, found), Select(pairs, h, q))
  {
    hide Rank;
    forall p ensures p in Tag(h, found) <==> p in Select(pairs, h, q) {
      if p in Select(pairs, h, q) {
        var i :| 0 <= i < |found| && found[i] == p.1;
        assert Tag(h, found)[i] == p;
      }
      if p in Tag(h, found) {
        var i :| 0 <= i < |found| && Tag(h, found)[i] == p;
        assert found[i] in found;
      }
    }
  }

  /** OVERLAPS selects the pairs whose interval shares a time stamp with t. */
  lemma OverlapsSelected(pairs: set<Pair>, h: Handle, t: Time, p: Pair)
    ensures p in Select(pairs, h, By(t, OVERLAPS)) <==>
      p in pairs && (h == UNDEFINED_HANDLE || p.0 == h) && exists x: int :: p.1.Within(x) && t.Within(x)
  {
    hide Temporal.Within;
    assert By(t, OVERLAPS).Defined(p.1) <==> exists x: int :: p.1.Within(x) && t.Within(x);
  }

  ghost function PairsOn(pairs: set<Pair>, times: set<Time>): set<Pair> {
    set p | p in pairs && p.1 in times
  }

  lemma PairsOnChosen(pairs: set<Pair>, found: seq<Time>, q: Query)
    requires forall x :: x in found <==> q.Chosen(x, AllTimes(pairs))
    ensures PairsOn(pairs, Elements(found)) == Select(pairs, UNDEFINED_HANDLE, q)
  {
    hide Query.Chosen;
  }

  /** The selected pairs of one handle are those with the times found. */
  lemma SelectByHandle(pairs: set<Pair>, h: Handle, q: Query, found: seq<Time>)
    requires h != UNDEFINED_HANDLE
    requires forall x :: x in found <==> q.Chosen(x, TimesOf(pairs, h))
    ensures forall p :: p in Select(pairs, h, q) <==> p in pairs && p.0 == h && p.1 in Elements(found)
    ensures Select(pairs, h, q) == {} <==> found == []
    ensures TimesOf(Select(pairs, h, q), h) == Elements(found)
  {
    hide Query.Defined;
    hide Rank;
    forall x | x in found ensures (h, x) in Select(pairs, h, q) {
      assert x in TimesOf(pairs, h);
    }
    if found != [] {
      assert (h, found[0]) in Select(pairs, h, q);
    }
  }

  /** Pairs of a later time, or of the same time if they are new, go to the end of a listing. */
  lemma ListingGrows(s: seq<Pair>, pairs: set<Pair>, p: Pair)
    requires IsListing(s, pairs) && p !in pairs
    requires forall i :: 0 <= i < |s| ==> Rank(s[i].1) <= Rank(p.1)
    ensures IsListing(s + [p], pairs + {p})
  {
    hide Rank;
  }

  // ---------------------------------------------------------------- the table as a state machine

  datatype Op = Add(h: Handle, t: Time) | Remove(h: Handle, q: Query)

  /** The pairs on the lists of the handles, those of the hash from times to handles, and the tails. */
  datatype State = State(listed: set<Pair>, held: set<Pair>, tails: map<Handle, TailView>) {
    ghost function Tail(h: Handle): TailView {
      At(tails, h, NoTail)
    }

    /** Both views hold the same pairs. */
    ghost predicate Sound() {
      listed == held
    }

    /** No tail has been left behind. */
    ghost predicate TailsCurrent() {
      forall h: Handle :: !Tail(h).OffList?
    }

    /** Whether a new time for h gets on the list of h. */
    ghost predicate Lands(h: Handle, t: Time) {
      Tail(h).OffList? ==> Rank(t) <= Rank(Tail(h).time)
    }
  }

  const EMPTY := State({}, {}, map[])

  function How(h: Handle, q: Query): Removal {
    if h == UNDEFINED_HANDLE then ByTime else if q.Previous?() then ByHandlePrevious else ByHandle
  }

  /**
   * What add and remove do. Removal is told while both views agree. An add that reads a dead tail is told as far as the
   * memory of that entry still holds it; the original may do anything then.
   */
  ghost predicate Next(s: State, op: Op, s': State) {
    match op
    case Add(h, t) =>
      && s'.held == s.held + {(h, t)}
      && s'.listed == (if s.Lands(h, t) then s.listed + {(h, t)} else s.listed)
      && (forall k: Handle :: k != h ==> s'.Tail(k) == s.Tail(k))
      && (s.Lands(h, t) ==> s'.Tail(h) == if s.Tail(h).OffList? then s.Tail(h) else OnList)
    case Remove(h, q) =>
      && s.Sound() && s'.Sound()
      && s'.held == s.held - Select(s.held, h, q)
      && forall k: Handle ::
        TailAfter(How(h, q), TimesOf(s.held, k), TimesOf(Select(s.held, h, q), k), s.Tail(k), s'.Tail(k))
  }
}
