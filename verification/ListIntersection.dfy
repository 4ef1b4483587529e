// The two orders intersections are taken in, and the intersection of linked lists of times.
module ListIntersections {
  import opened Basics
  import opened Temporals
  import opened TemporalEntries
  import opened HandleLists
  import opened Intersections

  type HandleTemporalPair = (Handle, Time)

  /** compare of HandleTemporalPairEntry: by handle, then by time. */
  function ComparePairs(x: HandleTemporalPair, y: HandleTemporalPair): int {
    if x.0 < y.0 then -1 else if x.0 > y.0 then 1 else Compare(x.1, y.1)
  }

  ghost function PairRank(x: HandleTemporalPair): int {
    x.0 * RANK_LIMIT + Rank(x.1)
  }

  ghost function TimeRank(x: Time): int {
    Rank(x)
  }

  lemma OrdersTimes()
    ensures Orders(Compare, TimeRank)
  {
    hide Rank;
  }

  lemma OrdersPairs()
    ensures Orders(ComparePairs, PairRank)
  {
    hide Compare;
    hide Rank;
    forall x: HandleTemporalPair, y: HandleTemporalPair | x.0 < y.0 ensures PairRank(x) < PairRank(y) {
      assert x.0 * RANK_LIMIT + RANK_LIMIT <= y.0 * RANK_LIMIT;
    }
  }

  /** Pairs go by their handles, those of one handle by their times. */
  lemma PairsGoByHandle(x: HandleTemporalPair, y: HandleTemporalPair)
    ensures PairRank(x) < PairRank(y) <==> x.0 < y.0 || (x.0 == y.0 && Rank(x.1) < Rank(y.1))
    ensures PairRank(x) == PairRank(y) <==> x == y
  {
    OrdersPairs();
    assert ComparePairs(x, y) < 0 <==> PairRank(x) < PairRank(y);
    assert ComparePairs(x, y) == 0 <==> x == y;
    hide Rank;
    assert Compare(x.1, y.1) < 0 <==> Rank(x.1) < Rank(y.1);
  }

  /** The times of a list, in order. */
  method Linearize(list: TemporalEntry?, ghost nodes: Nodes, ghost owner: int) returns (v: seq<Time>)
    requires ListOk(list, nodes, owner)
    ensures forall i, j :: 0 <= i < j < |v| ==> Rank(v[i]) < Rank(v[j])
    ensures forall x :: x in v <==> x in nodes
  {
    hide Compare;
    hide Rank;
    v := [];
    ghost var seen := {};
    var current := list;
    while current != null
      invariant current != null ==> Member(current, nodes)
      invariant Passed(seen, current, nodes)
      invariant forall x :: x in v <==> x in seen
      invariant forall i, j :: 0 <= i < j < |v| ==> Rank(v[i]) < Rank(v[j])
      decreases RANK_LIMIT - if current == null then RANK_LIMIT else Rank(current.time)
    {
      PassedOneMore(seen, current, nodes);
      forall i | 0 <= i < |v| ensures Rank(v[i]) < Rank(current.time) {
        assert v[i] in v;
      }
      v := v + [current.time];
      seen := seen + {current.time};
      current := current.next;
    }
  }

  /** An entry for a later time at the end of a list. */
  method Append(current: TemporalEntry?, t: Time, ghost head: TemporalEntry?, ghost nodes: Nodes, ghost owner: int)
    returns (entry: TemporalEntry, ghost nodes': Nodes)
    requires ListOk(head, nodes, owner) && forall u <- nodes :: Rank(u) < Rank(t)
    requires if current == null then head == null else Member(current, nodes) && current.next == null
    modifies current
    ensures ListOk(if current == null then entry else head, nodes', owner) && fresh(entry)
    ensures Member(entry, nodes') && entry.time == t && entry.next == null
    ensures nodes' == nodes[t := entry]
  {
    hide Rank;
    hide Compare;
    hide Follows;
    entry := new TemporalEntry(t, owner);
    Splice(current, null, entry, head, nodes, owner);
    nodes' := nodes[t := entry];
    LastHasNoNext(entry, nodes', if current == null then entry else head, owner);
  }

  lemma LastHasNoNext(e: TemporalEntry, nodes: Nodes, head: TemporalEntry?, owner: int)
    requires ListOk(head, nodes, owner) && Member(e, nodes) && forall t <- nodes :: Rank(t) <= Rank(e.time)
    ensures e.next == null
  {
    hide Rank;
    assert Follows(nodes[e.time].next, Rank(e.time), nodes);
  }

  /** A new list of the times. */
  method FromTimes(v: seq<Time>, ghost owner: int) returns (answer: TemporalEntry?, ghost nodes: Nodes)
    requires forall i, j :: 0 <= i < j < |v| ==> Rank(v[i]) < Rank(v[j])
    ensures ListOk(answer, nodes, owner) && fresh(nodes.Values)
    ensures forall x :: x in v <==> x in nodes
  {
    hide Compare;
    hide Rank;
    hide Follows;
    hide ListOk;
    answer, nodes := null, map[];
    var current: TemporalEntry? := null;
    EmptyList(owner);
    for i := 0 to |v|
      invariant ListOk(answer, nodes, owner) && forall t <- nodes :: fresh(nodes[t])
      invariant forall x :: x in nodes <==> x in v[..i]
      invariant answer == null <==> current == null
      invariant current != null ==> Member(current, nodes) && current.next == null
    {
      var entry;
      entry, nodes := Append(current, v[i], answer, nodes, owner);
      if answer == null {
        answer := entry;
      }
      current := entry;
    }
  }

  lemma EmptyList(owner: int)
    ensures ListOk(null, map[], owner)
  {
  }

  /** The times that are on every one of some lists, as a new list; none for no lists. */
  method IntersectionOfLists(sets: seq<TemporalEntry?>, ghost all: seq<Nodes>, ghost owners: seq<int>)
    returns (answer: TemporalEntry?, ghost nodes: Nodes)
    requires |all| == |owners| == |sets| && forall i :: 0 <= i < |sets| ==> ListOk(sets[i], all[i], owners[i])
    ensures ListOk(answer, nodes, -1) && fresh(nodes.Values)
    ensures forall x :: x in nodes <==> sets != [] && forall i :: 0 <= i < |sets| ==> x in all[i]
  {
    hide Compare;
    hide Rank;
    hide Follows;
    var n := |sets|;
    if n == 0 {
      answer, nodes := FromTimes([], -1);
      return;
    }
    var v: seq<seq<Time>> := [];
    for i := 0 to n
      invariant |v| == i
      invariant forall k :: 0 <= k < i ==> Ascends(v[k]) && forall x :: x in v[k] <==> x in all[k]
    {
      if sets[i] == null {
        NothingInNull(all[i]);
        answer, nodes := FromTimes([], -1);
        return;
      }
      var times := Linearize(sets[i], all[i], owners[i]);
      v := v + [times];
    }
    OrdersTimes();
    var common := Intersections.Intersection(v, Compare, TimeRank);
    WithoutDuplicates(common, v);
    assert Ascends(common);
    answer, nodes := FromTimes(common, -1);
  }

  ghost predicate Ascends(v: seq<Time>) {
    forall i, j :: 0 <= i < j < |v| ==> Rank(v[i]) < Rank(v[j])
  }

  lemma NothingInNull(nodes: Nodes)
    requires Follows(null, -1, nodes)
    ensures nodes == map[]
  {
    hide Rank;
  }

  /** The same for arrays of pairs. */
  method IntersectionOfPairs(sets: seq<seq<HandleTemporalPair>>) returns (answer: seq<HandleTemporalPair>)
    requires sets != [] && forall j :: 0 <= j < |sets| ==> Sorted(sets[j], PairRank)
    ensures IsIntersection(answer, sets) && Sorted(answer, PairRank)
  {
    OrdersPairs();
    answer := Intersections.Intersection(sets, ComparePairs, PairRank);
  }
}
