// The temporal table: opencog/spacetime/TemporalTable.cc.
module TemporalTables {
  import opened Basics
  import opened Temporals
  import opened TemporalEntries
  import opened TimeIndexes
  import opened HandleLists
  import opened Criteria
  import opened TableModel

  lemma CountAfterPut<K, V>(m: map<K, V>, k: K, v: V)
    ensures |m[k := v]| == |m| + if k in m then 0 else 1
  {
    assert m[k := v].Keys == m.Keys + {k};
  }

  lemma SameCount<K, V, W>(m: map<K, V>, n: map<K, W>)
    requires m.Keys == n.Keys
    ensures |m| == |n|
  {
    assert |m| == |m.Keys| && |n| == |n.Keys|;
  }

  /** The lists of the handles and the hash from times to handles hold the same pairs. */
  ghost predicate Matching(m: map<Time, set<Handle>>, lists: map<Handle, Nodes>) {
    forall h: Handle, t :: t in At(lists, h, map[]) <==> In(m, h, t)
  }

  ghost predicate In(m: map<Time, set<Handle>>, h: Handle, t: Time) {
    t in m && h in m[t]
  }

  /** m' has the pairs of m, but for those of h with some of the times. */
  ghost predicate MinusPairs(m: map<Time, set<Handle>>, m': map<Time, set<Handle>>, h: Handle, removed: set<Time>) {
    forall k: Handle, u :: In(m', k, u) <==> In(m, k, u) && !(k == h && u in removed)
  }

  ghost function WithoutPair(m: map<Time, set<Handle>>, h: Handle, t: Time): map<Time, set<Handle>>
    requires t in m
  {
    if m[t] == {h} then m - {t} else m[t := m[t] - {h}]
  }

  lemma PairDropped(h: Handle, t: Time, m: map<Time, set<Handle>>, lists: map<Handle, Nodes>,
                    lists': map<Handle, Nodes>)
    requires Matching(m, lists) && t in m
    requires SameBut(h, lists, lists') && At(lists', h, map[]) == At(lists, h, map[]) - {t}
    ensures Matching(WithoutPair(m, h, t), lists')
  {
    var m' := WithoutPair(m, h, t);
    forall k: Handle, u
      ensures u in At(lists', k, map[]) <==> In(m', k, u)
    {
      assert k != h ==> At(lists', k, map[]) == At(lists, k, map[]);
      assert u in At(lists, k, map[]) <==> In(m, k, u);
    }
  }

  lemma HoldersDropped(t: Time, m: map<Time, set<Handle>>, lists: map<Handle, Nodes>, lists': map<Handle, Nodes>)
    requires Matching(m, lists) && t in m
    requires forall h: Handle ::
      At(lists', h, map[]) == if h in m[t] then At(lists, h, map[]) - {t} else At(lists, h, map[])
    ensures Matching(m - {t}, lists')
  {
    var m' := m - {t};
    forall k: Handle, u
      ensures u in At(lists', k, map[]) <==> In(m', k, u)
    {
      assert u in At(lists, k, map[]) <==> In(m, k, u);
    }
  }

  /** The state a removal starts from. */
  datatype Before = Before(held: map<Time, set<Handle>>, lists: map<Handle, Nodes>, tails: map<Handle, TemporalEntry>)

  class TemporalTable {
    const handles: HandleToEntries
    const times: TimeIndex
    var temporalMap: map<Time, set<Handle>>

    /** The two halves are in order, and apart. */
    ghost predicate Shape()
      reads this, handles, handles.Repr, times, times.Repr
    {
      && handles.Valid() && times.Valid()
      && handles.Repr !! times.Repr && this !in handles.Repr && this !in times.Repr
      && temporalMap.Keys == times.order.Keys
      && (forall t <- temporalMap :: temporalMap[t] != {})
    }

    ghost predicate Holds(h: Handle, t: Time)
      reads this`temporalMap
    {
      In(temporalMap, h, t)
    }

    ghost predicate Agree()
      reads this`temporalMap, handles`lists
    {
      Matching(temporalMap, handles.lists)
    }

    ghost predicate Valid()
      reads this, handles, handles.Repr, times, times.Repr
    {
      Shape() && Agree()
    }

    constructor ()
      ensures Valid() && fresh(handles) && fresh(times) && fresh(handles.Repr) && fresh(times.Repr)
      ensures temporalMap == map[] && handles.lists == map[] && handles.tailHandleMap == map[]
    {
      hide HandleToEntries.Valid;
      hide TimeIndex.Valid;
      handles := new HandleToEntries();
      times := new TimeIndex();
      temporalMap := map[];
      new;
      assert Matching(map[], map[]);
      assert Shape();
    }

    /** After the first half of add: t is in the global list; it is new when isNew. */
    ghost predicate InGlobalList(t: Time, previousEntry: TemporalEntry?, isNew: bool)
      reads this, handles, handles.Repr, times, times.Repr
    {
      && handles.Valid() && (if isNew then times.Inserted(t, previousEntry) else times.Valid())
      && handles.Repr !! times.Repr && this !in handles.Repr && this !in times.Repr
      && times.order.Keys == temporalMap.Keys + {t} && (isNew <==> t !in temporalMap)
      && (forall u <- temporalMap :: temporalMap[u] != {})
    }

    /**
     * Before the second half of add, for a new time: all is in order but for the index, which has yet to learn of t.
     */
    ghost predicate Mapped(t: Time, previousEntry: TemporalEntry?)
      reads this, handles, handles.Repr, times, times.Repr
    {
      && handles.Valid() && times.Inserted(t, previousEntry)
      && handles.Repr !! times.Repr && this !in handles.Repr && this !in times.Repr
      && temporalMap.Keys == times.order.Keys
      && (forall u <- temporalMap :: temporalMap[u] != {})
    }

    method ListTime(t: Time) returns (previousEntry: TemporalEntry?)
      requires Shape()
      modifies times.Repr
      ensures InGlobalList(t, previousEntry, t !in temporalMap) && fresh(times.Repr - old(times.Repr))
      ensures unchanged(this, handles)
    {
      hide Rank;
      hide HandleToEntries.Valid;
      hide TimeIndex.Valid;
      hide TimeIndex.Inserted;
      assert handles !in times.Repr;
      previousEntry := times.Insert(t);
    }

    method AddToMaps(h: Handle, t: Time, ghost previousEntry: TemporalEntry?, ghost isNew: bool)
      requires InGlobalList(t, previousEntry, isNew)
      modifies this`temporalMap, handles.Repr
      ensures if isNew then Mapped(t, previousEntry) else Shape()
      ensures fresh(handles.Repr - old(handles.Repr)) && times.Repr == old(times.Repr)
      ensures temporalMap == old(temporalMap)[t := At(old(temporalMap), t, {}) + {h}]
      ensures SameBut(h, old(handles.lists), handles.lists)
        && SameBut(h, old(handles.tailHandleMap), handles.tailHandleMap)
      ensures handles.ListOf(h).Keys == old(handles.ListOf(h)).Keys + if old(handles.Lands(h, t)) then {t} else {}
      ensures old(handles.Lands(h, t)) ==>
        handles.View(h) == if old(handles.View(h)).OffList? then old(handles.View(h)) else OnList
    {
      hide Rank;
      hide HandleToEntries.Valid;
      hide HandleToEntries.Lands;
      hide HandleToEntries.ListOf;
      hide HandleToEntries.View;
      hide TimeIndex.Valid;
      hide TimeIndex.Inserted;
      hide SameBut;
      handles.Add(h, t);
      var handleSet := if t in temporalMap then temporalMap[t] else {};
      temporalMap := temporalMap[t := handleSet + {h}];
    }

    method IndexPair(t: Time, previousEntry: TemporalEntry?)
      requires Mapped(t, previousEntry)
      modifies times.Repr
      ensures Shape() && fresh(times.Repr - old(times.Repr))
      ensures unchanged(this, handles)
    {
      hide Rank;
      hide HandleToEntries.Valid;
      hide TimeIndex.Valid;
      hide TimeIndex.Inserted;
      SameCount(temporalMap, times.order);
      assert handles !in times.Repr;
      times.Index(t, previousEntry, |temporalMap|);
    }

    /** add, for a time that is valid. */
    method AddTime(h: Handle, t: Time)
      requires Shape()
      modifies this`temporalMap, handles.Repr, times.Repr
      ensures Shape() && fresh(handles.Repr - old(handles.Repr)) && fresh(times.Repr - old(times.Repr))
      ensures temporalMap == old(temporalMap)[t := At(old(temporalMap), t, {}) + {h}]
      ensures SameBut(h, old(handles.lists), handles.lists)
        && SameBut(h, old(handles.tailHandleMap), handles.tailHandleMap)
      ensures handles.ListOf(h).Keys == old(handles.ListOf(h)).Keys + if old(handles.Lands(h, t)) then {t} else {}
      ensures old(handles.Lands(h, t)) ==>
        handles.View(h) == if old(handles.View(h)).OffList? then old(handles.View(h)) else OnList
    {
      hide Shape;
      hide InGlobalList;
      hide Mapped;
      hide SameBut;
      hide HandleToEntries.Lands;
      var oldNumTemporalEntries := |temporalMap|;
      var previousEntry := ListTime(t);
      AddToMaps(h, t, previousEntry, t !in temporalMap);
      CountAfterPut(old(temporalMap), t, At(old(temporalMap), t, {}) + {h});
      var numTemporalEntries := |temporalMap|;
      if numTemporalEntries != oldNumTemporalEntries {
        IndexPair(t, previousEntry);
      }
    }

    /** Takes t from the hash and from the list of every handle that has it. */
    method ForgetHolders(t: Time)
      requires Valid() && t in temporalMap
      modifies this`temporalMap, handles.Repr
      ensures handles.Valid() && Agree() && handles.Repr == old(handles.Repr)
      ensures temporalMap == old(temporalMap) - {t}
      ensures forall h: Handle ::
        TailAfter(ByTime, old(handles.ListOf(h)).Keys, {t}, old(handles.View(h)), handles.View(h))
    {
      hide Rank;
      hide HandleToEntries.Valid;
      hide TimeIndex.Valid;
      hide TailAfter;
      forall h: Handle | t !in handles.ListOf(h)
        ensures TailAfter(ByTime, handles.ListOf(h).Keys, {t}, handles.View(h), handles.View(h))
      {
        TailUntouched(ByTime, handles.ListOf(h).Keys, {t}, handles.View(h));
      }
      var hs := temporalMap[t];
      temporalMap := temporalMap - {t};
      handles.RemoveTimeOfEach(hs, t);
      forall h: Handle
        ensures At(handles.lists, h, map[]) == if h in hs then At(old(handles.lists), h, map[]) - {t}
          else At(old(handles.lists), h, map[])
      {
        assert handles.ListOf(h) == if h in hs then old(handles.ListOf(h)) - {t} else old(handles.ListOf(h));
      }
      HoldersDropped(t, old(temporalMap), old(handles.lists), handles.lists);
    }

    /** remove(t, EXACT). */
    method RemoveExact(t: Time) returns (result: bool)
      requires Valid()
      modifies this`temporalMap, handles.Repr, times.Repr
      ensures Valid() && handles.Repr == old(handles.Repr) && fresh(times.Repr - old(times.Repr))
      ensures result <==> t in old(temporalMap)
      ensures temporalMap == old(temporalMap) - {t} && times.order == old(times.order) - {t}
      ensures forall h: Handle ::
        TailAfter(ByTime, old(handles.ListOf(h)).Keys, {t}, old(handles.View(h)), handles.View(h))
    {
      hide Rank;
      hide HandleToEntries.Valid;
      hide TimeIndex.Valid;
      hide TailAfter;
      hide Agree;
      result := t in temporalMap;
      if result {
        ForgetHolders(t);
        times.Remove(t, |temporalMap|);
      } else {
        NotThere(t);
      }
    }

    lemma NotThere(t: Time)
      requires Valid() && t !in temporalMap
      ensures times.order - {t} == times.order && temporalMap - {t} == temporalMap
      ensures forall h: Handle :: TailAfter(ByTime, handles.ListOf(h).Keys, {t}, handles.View(h), handles.View(h))
    {
      hide HandleToEntries.Valid;
      hide TimeIndex.Valid;
      NothingToDrop(times.order, t);
      forall h: Handle
        ensures TailAfter(ByTime, handles.ListOf(h).Keys, {t}, handles.View(h), handles.View(h))
      {
        TailUntouched(ByTime, handles.ListOf(h).Keys, {t}, handles.View(h));
      }
    }

    // ------------------------------------------------------------ get

    /** The pairs the table holds. */
    ghost function Held(): set<Pair>
      reads this`temporalMap
    {
      set t, h | t in temporalMap && h in temporalMap[t] :: (h, t)
    }

    /** The pairs on the lists of the handles. */
    ghost function Listed(): set<Pair>
      reads handles`lists
    {
      set h, t | h in handles.lists && t in handles.lists[h] :: (h, t)
    }

    lemma ListedTimes(h: Handle)
      ensures TimesOf(Listed(), h) == handles.ListOf(h).Keys
    {
      forall t ensures t in TimesOf(Listed(), h) <==> t in handles.ListOf(h) {
        assert (h, t) in Listed() <==> t in handles.ListOf(h);
      }
    }

    lemma AllHeldTimes()
      requires Shape()
      ensures AllTimes(Held()) == times.order.Keys
    {
      hide HandleToEntries.Valid;
      hide TimeIndex.Valid;
      forall t ensures t in AllTimes(Held()) <==> t in times.order {
        if t in times.order {
          var k :| k in temporalMap[t];
          assert (k, t) in Held();
        }
      }
    }

    lemma HeldTimes(h: Handle)
      requires Valid()
      ensures TimesOf(Held(), h) == handles.ListOf(h).Keys && AllTimes(Held()) == times.order.Keys
    {
      AllHeldTimes();
      forall t ensures t in TimesOf(Held(), h) <==> t in handles.ListOf(h) {
        assert Holds(h, t) <==> (h, t) in Held();
      }
    }

    /** get(h, t, criterion), for a handle that is defined. */
    method GetByHandle(h: Handle, t: Temporal, criterion: TemporalRelationship) returns (result: seq<Pair>)
      requires Shape() && h != UNDEFINED_HANDLE && (t.Valid() || t == UNDEFINED_TEMPORAL)
      ensures IsListing(result, Select(Listed(), h, QueryOf(t, criterion)))
    {
      hide Rank;
      hide MatchesTimeCriterion;
      hide HandleToEntries.Valid;
      hide TimeIndex.Valid;
      hide ScanOk;
      hide Query.Chosen;
      var q := QueryOf(t, criterion);
      ghost var scan, seen, nodes: Nodes := Scan([], false), {}, handles.ListOf(h);
      ScanStarts(q);
      handles.HandleListOk(h);
      var te := if h in handles.handleMap then handles.handleMap[h] else null;
      var searchFinished := false;
      result := [];
      while te != null && !searchFinished
        invariant te != null ==> Member(te, nodes)
        invariant Passed(seen, te, nodes)
        invariant ScanOk(q, scan, seen) && searchFinished == scan.finished
        invariant result == Tag(h, scan.found)
        decreases RANK_LIMIT - if te == null then RANK_LIMIT else Rank(te.time)
      {
        var (matches, stop) := q.Matches(te.time);
        searchFinished := stop;
        if matches {
          if q.Previous?() {
            result := [(h, te.time)];
          } else {
            result := result + [(h, te.time)];
          }
        }
        StepOk(q, scan, seen, te.time);
        PassedOneMore(seen, te, nodes);
        scan := Step(q, scan, te.time);
        seen := seen + {te.time};
        te := te.next;
      }
      ScanIsComplete(q, scan, seen, nodes.Keys);
      ListedTimes(h);
      TagIsListing(h, q, Listed(), scan.found);
    }

    /** Appends a pair for every handle that has the time. */
    method AppendHolders(s: seq<Pair>, time: Time, ghost seen: set<Time>) returns (result: seq<Pair>)
      requires time in temporalMap && IsListing(s, PairsOn(Held(), seen))
      requires forall x <- seen :: Rank(x) < Rank(time)
      ensures IsListing(result, PairsOn(Held(), seen + {time}))
    {
      hide Rank;
      hide IsListing;
      result := s;
      var hs := temporalMap[time];
      ghost var pairs := PairsOn(Held(), seen);
      while hs != {}
        invariant hs <= temporalMap[time]
        invariant pairs == PairsOn(Held(), seen) + (set h | h in temporalMap[time] - hs :: (h, time))
        invariant IsListing(result, pairs)
      {
        var h :| h in hs;
        EarlierPairs(result, pairs, time);
        ListingGrows(result, pairs, (h, time));
        pairs := pairs + {(h, time)};
        result := result + [(h, time)];
        hs := hs - {h};
      }
      assert pairs == PairsOn(Held(), seen + {time});
    }

    lemma EarlierPairs(s: seq<Pair>, pairs: set<Pair>, time: Time)
      requires IsListing(s, pairs) && forall p <- pairs :: Rank(p.1) <= Rank(time)
      ensures forall i :: 0 <= i < |s| ==> Rank(s[i].1) <= Rank(time)
    {
      forall i | 0 <= i < |s| ensures Rank(s[i].1) <= Rank(time) {
        assert s[i] in s;
      }
    }

    /**
     * get(t, criterion) by a scan of the global list: for everything, and for the criteria without a way of their own.
     */
    method GetByScan(q: Query) returns (result: seq<Pair>)
      requires Shape()
      ensures IsListing(result, Select(Held(), UNDEFINED_HANDLE, q))
    {
      hide Rank;
      hide MatchesTimeCriterion;
      hide HandleToEntries.Valid;
      hide TimeIndex.Valid;
      hide ScanOk;
      hide Query.Chosen;
      hide IsListing;
      ghost var scan, seen := Scan([], false), {};
      ScanStarts(q);
      NothingListed();
      hide Elements;
      hide PairsOn;
      ElementsAppend([], Temporal(0, 0, false));
      times.GlobalListOk();
      var te := times.sortedTemporalList;
      var searchFinished := false;
      var previousTime := None;
      result := [];
      while te != null && !searchFinished
        invariant te != null ==> Member(te, times.order)
        invariant Passed(seen, te, times.order)
        invariant ScanOk(q, scan, seen) && searchFinished == scan.finished
        invariant IsListing(result, PairsOn(Held(), if q.Previous?() then {} else Elements(scan.found)))
        invariant !q.Previous?() ==> previousTime.None?
        invariant q.Previous?() ==> scan.found == if previousTime.None? then [] else [previousTime.value]
        decreases RANK_LIMIT - if te == null then RANK_LIMIT else Rank(te.time)
      {
        var (matches, stop) := q.Matches(te.time);
        searchFinished := stop;
        StepOk(q, scan, seen, te.time);
        PassedOneMore(seen, te, times.order);
        if matches {
          if q.Previous?() {
            previousTime := Some(te.time);
          } else {
            FoundIsSeen(q, scan, seen);
            result := AppendHolders(result, te.time, Elements(scan.found));
            ElementsAppend(scan.found, te.time);
          }
        }
        scan := Step(q, scan, te.time);
        seen := seen + {te.time};
        te := te.next;
      }
      ScanIsComplete(q, scan, seen, times.order.Keys);
      AllHeldTimes();
      if previousTime.Some? {
        FoundIsSeen(q, scan, seen);
        ElementsAppend([], previousTime.value);
        assert previousTime.value in Elements(scan.found);
        result := AppendHolders(result, previousTime.value, {});
      }
      PairsOnChosen(Held(), scan.found, q);
    }

    lemma NothingListed()
      ensures IsListing([], PairsOn(Held(), {}))
    {
    }

    /**
     * get(t, EXACT), through the hash; None where the original throws, which takes a handle whose list lacks the time.
     */
    method GetExact(t: Time) returns (result: Option<seq<Pair>>)
      requires Shape()
      ensures result.Some? ==> IsListing(result.value, Select(Held(), UNDEFINED_HANDLE, By(t, EXACT)))
      ensures result.None? ==> exists h: Handle :: Holds(h, t) && t !in handles.ListOf(h)
    {
      hide Rank;
      hide HandleToEntries.Valid;
      hide TimeIndex.Valid;
      hide IsListing;
      var pairs: seq<Pair> := [];
      NothingListed();
      if t in temporalMap {
        var handle :| handle in temporalMap[t];
        handles.HandleListOk(handle);
        var found := Contains(if handle in handles.handleMap then handles.handleMap[handle] else null, t,
                              handles.ListOf(handle), handle);
        if !found {
          assert Holds(handle, t);
          return None;
        }
        pairs := AppendHolders(pairs, t, {});
      }
      SelectExact(t);
      return Some(pairs);
    }

    lemma SelectExact(t: Time)
      ensures Select(Held(), UNDEFINED_HANDLE, By(t, EXACT))
        == PairsOn(Held(), if t in temporalMap then {} + {t} else {})
    {
      var q := By(t, EXACT);
      forall p ensures p in Select(Held(), UNDEFINED_HANDLE, q)
        <==> p in PairsOn(Held(), if t in temporalMap then {t} else {}) {
        MatchesIsDefined(q, p.1);
      }
    }

    /** The first entry of the list that begins after t ends, looked for from an entry the index gives. */
    method UpperLimit(t: Time) returns (upperLimitEntry: TemporalEntry?)
      requires Shape() && times.order != map[]
      ensures upperLimitEntry != null ==>
        Member(upperLimitEntry, times.order) && upperLimitEntry.time.Lower() > t.Upper()
      ensures forall u <- times.order :: upperLimitEntry == null || Rank(u) < Rank(upperLimitEntry.time) ==>
        u.Lower() <= t.Upper()
    {
      hide Rank;
      hide HandleToEntries.Valid;
      hide TimeIndex.Valid;
      times.GlobalListOk();
      upperLimitEntry := times.PreviousEntry(t);
      if upperLimitEntry == null {
        upperLimitEntry := times.sortedTemporalList;
      }
      RankOrdersLowerBounds(t, t);
      forall u | u in times.order && upperLimitEntry != null && Rank(u) < Rank(upperLimitEntry.time)
        ensures u.Lower() <= t.Upper()
      {
        RankOrdersLowerBounds(u, upperLimitEntry.time);
        RankOrdersLowerBounds(u, t);
      }
      while upperLimitEntry != null
        invariant upperLimitEntry != null ==> Member(upperLimitEntry, times.order)
        invariant forall u <- times.order :: upperLimitEntry == null || Rank(u) < Rank(upperLimitEntry.time) ==>
          u.Lower() <= t.Upper()
        decreases RANK_LIMIT - if upperLimitEntry == null then RANK_LIMIT else Rank(upperLimitEntry.time)
      {
        if upperLimitEntry.time.Lower() > t.Upper() {
          break;
        }
        forall u | u in times.order && Rank(u) <= Rank(upperLimitEntry.time)
          ensures u.Lower() <= t.Upper()
        {
          RankOrdersLowerBounds(u, upperLimitEntry.time);
        }
        upperLimitEntry := upperLimitEntry.next;
      }
    }

    /** get(t, OVERLAPS): no test of lower bounds up to the upper limit. */
    method GetOverlaps(t: Time) returns (result: seq<Pair>)
      requires Shape()
      ensures IsListing(result, Select(Held(), UNDEFINED_HANDLE, By(t, OVERLAPS)))
    {
      hide Rank;
      hide HandleToEntries.Valid;
      hide TimeIndex.Valid;
      hide IsListing;
      result := [];
      NothingListed();
      ghost var seen, found := {}, {};
      times.GlobalListOk();
      if times.sortedTemporalList != null {
        var upperLimitEntry := UpperLimit(t);
        var currentEntry := times.sortedTemporalList;
        while currentEntry != upperLimitEntry
          invariant currentEntry != null ==> Member(currentEntry, times.order)
          invariant upperLimitEntry != null ==>
            currentEntry != null && Rank(currentEntry.time) <= Rank(upperLimitEntry.time)
          invariant Passed(seen, currentEntry, times.order)
          invariant forall x :: x in found <==> x in seen && t.Lower() <= x.Upper()
          invariant IsListing(result, PairsOn(Held(), found))
          decreases RANK_LIMIT - if currentEntry == null then RANK_LIMIT else Rank(currentEntry.time)
        {
          PassedOneMore(seen, currentEntry, times.order);
          if currentEntry.time.Upper() >= t.Lower() {
            result := AppendHolders(result, currentEntry.time, found);
            found := found + {currentEntry.time};
          }
          seen := seen + {currentEntry.time};
          currentEntry := currentEntry.next;
        }
        OverlapsFound(t, upperLimitEntry, seen, found, times.order);
      }
      SelectFound(By(t, OVERLAPS), found);
    }

    /** Up to the upper limit, an entry overlaps t when its upper bound reaches t; from there on none does. */
    lemma OverlapsFound(t: Time, upperLimitEntry: TemporalEntry?, seen: set<Time>, found: set<Time>, all: Nodes)
      requires Passed(seen, upperLimitEntry, all)
      requires upperLimitEntry != null ==> upperLimitEntry.time.Lower() > t.Upper()
      requires forall u <- all :: upperLimitEntry == null || Rank(u) < Rank(upperLimitEntry.time) ==>
        u.Lower() <= t.Upper()
      requires forall x :: x in found <==> x in seen && t.Lower() <= x.Upper()
      ensures forall x :: x in found <==> x in all && By(t, OVERLAPS).Defined(x)
    {
      hide Rank;
      hide Query.Defined;
      forall x | x in all
        ensures x in found <==> By(t, OVERLAPS).Defined(x)
      {
        OverlapsByBounds(t, x);
        if x !in seen {
          RankOrdersLowerBounds(upperLimitEntry.time, x);
        }
      }
    }

    lemma SelectFound(q: Query, found: set<Time>)
      requires Shape() && !q.Next?() && !q.Previous?()
      requires forall x :: x in found <==> x in times.order && q.Defined(x)
      ensures PairsOn(Held(), found) == Select(Held(), UNDEFINED_HANDLE, q)
    {
      hide HandleToEntries.Valid;
      hide TimeIndex.Valid;
      AllHeldTimes();
    }

    /** get, on any table: by the list of the handle if it is defined, else by the hash and the global list. */
    method GetAny(h: Handle, t: Temporal, criterion: TemporalRelationship) returns (result: Option<seq<Pair>>)
      requires Shape() && (t.Valid() || t == UNDEFINED_TEMPORAL)
      ensures result.Some? ==>
        IsListing(result.value, Select(if h != UNDEFINED_HANDLE then Listed() else Held(), h, QueryOf(t, criterion)))
      ensures result.None? ==> !Agree()
    {
      hide Shape;
      hide IsListing;
      hide Select;
      var pairs;
      if h != UNDEFINED_HANDLE {
        pairs := GetByHandle(h, t, criterion);
      } else if t == UNDEFINED_TEMPORAL {
        pairs := GetByScan(Everything);
      } else if criterion == EXACT {
        result := GetExact(t);
        return;
      } else if criterion == OVERLAPS {
        pairs := GetOverlaps(t);
      } else {
        pairs := GetByScan(By(t, criterion));
      }
      return Some(pairs);
    }

    method Get(h: Handle, t: Temporal, criterion: TemporalRelationship) returns (result: seq<Pair>)
      requires Valid() && (t.Valid() || t == UNDEFINED_TEMPORAL)
      ensures IsListing(result, Select(Held(), h, QueryOf(t, criterion)))
      ensures t.Valid() && criterion == OVERLAPS ==> forall p :: p in result <==>
        p in Held() && (h == UNDEFINED_HANDLE || p.0 == h) && exists x: int :: p.1.Within(x) && t.Within(x)
    {
      hide Shape;
      hide Select;
      hide Temporal.Within;
      ListedPairs();
      var answer := GetAny(h, t, criterion);
      result := answer.value;
      if t.Valid() && criterion == OVERLAPS {
        forall p ensures p in Select(Held(), h, By(t, OVERLAPS)) <==>
          p in Held() && (h == UNDEFINED_HANDLE || p.0 == h) && exists x: int :: p.1.Within(x) && t.Within(x)
        {
          OverlapsSelected(Held(), h, t, p);
        }
      }
    }

    // ------------------------------------------------------------ remove, for one handle

    /** Shape, while te is the head of the list of h. */
    ghost predicate Removing(h: Handle, te: TemporalEntry?)
      reads this, handles, handles.Repr, times, times.Repr
    {
      && handles.ValidBut(h, te) && times.Valid()
      && handles.Repr !! times.Repr && this !in handles.Repr && this !in times.Repr
      && temporalMap.Keys == times.order.Keys
      && (forall t <- temporalMap :: temporalMap[t] != {})
    }

    /** Takes h out of the handle set of t, and t out of the hash and the global list if no handle is left. */
    method EraseHandle(h: Handle, t: Time, ghost te: TemporalEntry?)
      requires Removing(h, te) && Holds(h, t)
      modifies this`temporalMap, times.Repr
      ensures Removing(h, te) && unchanged(handles) && fresh(times.Repr - old(times.Repr))
      ensures temporalMap == WithoutPair(old(temporalMap), h, t)
    {
      hide Rank;
      hide HandleToEntries.ValidBut;
      hide TimeIndex.Valid;
      hide Follows;
      hide Member;
      var hs := temporalMap[t] - {h};
      if hs == {} {
        assert temporalMap[t] == {h};
        temporalMap := temporalMap - {t};
        assert handles !in times.Repr;
        SameCount(temporalMap, times.order - {t});
        times.Remove(t, |temporalMap|);
      } else {
        temporalMap := temporalMap[t := hs];
      }
    }

    lemma AgreedPair(h: Handle, t: Time)
      requires Agree() && t in handles.ListOf(h)
      ensures Holds(h, t)
    {
    }

    /**
     * One match of remove(h, ...): the pair goes from the hash, from the list of h, and from the tails if it is one.
     */
    method RemoveMatch(h: Handle, te: TemporalEntry?, currentTe: TemporalEntry, tailTe: TemporalEntry?)
      returns (r: TemporalEntry?)
      requires Holds(h, currentTe.time)
      requires Removing(h, te) && Agree() && Member(currentTe, handles.ListOf(h))
      requires h in handles.tailHandleMap ==> handles.tailHandleMap[h] == tailTe
      requires tailTe == currentTe ==> h in handles.tailHandleMap
      modifies this`temporalMap, handles.Repr, times.Repr
      ensures Removing(h, r) && Agree() && handles.Repr == old(handles.Repr) && fresh(times.Repr - old(times.Repr))
      ensures handles.lists == old(handles.lists)[h := old(handles.ListOf(h)) - {currentTe.time}]
      ensures temporalMap == WithoutPair(old(temporalMap), h, currentTe.time)
      ensures SameBut(h, old(handles.tailHandleMap), handles.tailHandleMap)
      ensures handles.tailHandleMap == if tailTe == currentTe then old(handles.tailHandleMap) - {h}
        else old(handles.tailHandleMap)
      ensures TailAfter(ByHandle, old(handles.ListOf(h)).Keys, {currentTe.time}, old(handles.View(h)), handles.View(h))
    {
      hide Rank;
      hide HandleToEntries.ValidBut;
      hide TimeIndex.Valid;
      hide TailAfter;
      hide Matching;
      EraseHandle(h, currentTe.time, te);
      PairDropped(h, currentTe.time, old(temporalMap), handles.lists,
                  handles.lists[h := handles.ListOf(h) - {currentTe.time}]);
      r := handles.RemoveEntry(h, te, currentTe, tailTe);
    }

    /** Some times of h are gone, from every view, and everything else is as it was. */
    ghost predicate Dropped(h: Handle, removed: set<Time>, was: Before)
      reads this`temporalMap, handles`lists, handles`tailHandleMap
    {
      && SameBut(h, was.lists, handles.lists) && SameBut(h, was.tails, handles.tailHandleMap)
      && handles.ListOf(h) == At(was.lists, h, map[]) - removed
      && MinusPairs(was.held, temporalMap, h, removed)
    }

    /** What the loop of remove knows of its cursor and of the tail it started with. */
    ghost predicate CursorOk(h: Handle, currentTe: TemporalEntry?, tailTe: TemporalEntry?, seen: set<Time>,
                             nodes: Nodes)
      reads handles`lists, handles`tailHandleMap
    {
      && (currentTe != null ==> Member(currentTe, handles.ListOf(h)))
      && Passed(seen, currentTe, nodes)
      && (h in handles.tailHandleMap ==> handles.tailHandleMap[h] == tailTe)
      && (tailTe != null && Member(tailTe, handles.ListOf(h)) ==> h in handles.tailHandleMap)
    }

    /** An entry of what is left of a list is followed by the entry that follows it in the whole list. */
    lemma CursorMoves(h: Handle, te: TemporalEntry?, currentTe: TemporalEntry, tailTe: TemporalEntry?,
                      removed: set<Time>, seen: set<Time>, nodes: Nodes)
      requires Removing(h, te) && handles.ListOf(h) == nodes - removed && removed <= seen
      requires CursorOk(h, currentTe, tailTe, seen, nodes)
      ensures CursorOk(h, currentTe.next, tailTe, seen + {currentTe.time}, nodes)
      ensures currentTe.next != null ==> Rank(currentTe.time) < Rank(currentTe.next.time)
      ensures forall x <- seen :: Rank(x) < Rank(currentTe.time)
    {
      hide Rank;
      hide HandleToEntries.ValidBut;
      hide TimeIndex.Valid;
      handles.HeldListOk(h, te);
      assert Follows(currentTe.next, Rank(currentTe.time), handles.ListOf(h));
      assert Follows(currentTe.next, Rank(currentTe.time), nodes);
      PassedOneMore(seen, currentTe, nodes);
    }

    /** One more pair of h gone. */
    lemma DroppedOneMore(h: Handle, removed: set<Time>, t: Time, was: Before, held: map<Time, set<Handle>>,
                         lists: map<Handle, Nodes>)
      requires SameBut(h, was.lists, lists) && At(lists, h, map[]) == At(was.lists, h, map[]) - removed
      requires MinusPairs(was.held, held, h, removed)
      requires t in held && h in held[t]
      requires temporalMap == WithoutPair(held, h, t) && handles.lists == lists[h := At(lists, h, map[]) - {t}]
      requires SameBut(h, was.tails, handles.tailHandleMap)
      ensures Dropped(h, removed + {t}, was)
    {
      assert At(was.lists, h, map[]) - removed - {t} == At(was.lists, h, map[]) - (removed + {t});
      forall k: Handle, u
        ensures In(temporalMap, k, u) <==> In(was.held, k, u) && !(k == h && u in removed + {t})
      {
        assert In(temporalMap, k, u) <==> In(held, k, u) && !(k == h && u == t);
      }
    }

    /** A match that goes at once: the cursor moves on, then the entry goes. */
    method RemoveAndMoveOn(h: Handle, te: TemporalEntry?, tmpTe: TemporalEntry, tailTe: TemporalEntry?,
                           ghost removed: set<Time>, ghost seen: set<Time>, ghost was: Before)
      returns (r: TemporalEntry?, currentTe: TemporalEntry?)
      requires Removing(h, te) && Agree() && Dropped(h, removed, was) && removed <= seen
      requires CursorOk(h, tmpTe, tailTe, seen, At(was.lists, h, map[]))
      modifies this`temporalMap, handles.Repr, times.Repr
      ensures Removing(h, r) && Agree() && handles.Repr == old(handles.Repr) && fresh(times.Repr - old(times.Repr))
      ensures Dropped(h, removed + {tmpTe.time}, was)
      ensures CursorOk(h, currentTe, tailTe, seen + {tmpTe.time}, At(was.lists, h, map[]))
      ensures currentTe != null ==> Rank(tmpTe.time) < Rank(currentTe.time)
      ensures TailAfter(ByHandle, (At(was.lists, h, map[]) - removed).Keys, {tmpTe.time}, old(handles.View(h)),
                        handles.View(h))
    {
      hide Rank;
      hide HandleToEntries.ValidBut;
      hide TimeIndex.Valid;
      hide TailAfter;
      hide Removing;
      hide SameBut;
      hide Follows;
      hide Matching;
      hide Passed;
      CursorMoves(h, te, tmpTe, tailTe, removed, seen, At(was.lists, h, map[]));
      AgreedPair(h, tmpTe.time);
      currentTe := tmpTe.next;
      r := RemoveMatch(h, te, tmpTe, tailTe);
      SameButTrans(h, was.tails, old(handles.tailHandleMap), handles.tailHandleMap);
      DroppedOneMore(h, removed, tmpTe.time, was, old(temporalMap), old(handles.lists));
    }

    /** The last match of a PREVIOUS criterion goes after the scan; nobody looks at the tail. */
    method RemovePrevious(h: Handle, te: TemporalEntry?, previousTe: TemporalEntry, ghost was: Before)
      returns (r: TemporalEntry?)
      requires Removing(h, te) && Agree() && Dropped(h, {}, was)
      requires Member(previousTe, handles.ListOf(h)) && Holds(h, previousTe.time)
      modifies this`temporalMap, handles.Repr, times.Repr
      ensures Removing(h, r) && Agree() && handles.Repr == old(handles.Repr) && fresh(times.Repr - old(times.Repr))
      ensures Dropped(h, {previousTe.time}, was)
      ensures TailAfter(ByHandlePrevious, old(handles.ListOf(h)).Keys, {previousTe.time}, old(handles.View(h)),
                        handles.View(h))
    {
      hide Rank;
      hide HandleToEntries.ValidBut;
      hide TimeIndex.Valid;
      hide TailAfter;
      hide Matching;
      hide SameBut;
      hide Follows;
      EraseHandle(h, previousTe.time, te);
      PairDropped(h, previousTe.time, old(temporalMap), handles.lists,
                  handles.lists[h := handles.ListOf(h) - {previousTe.time}]);
      r := handles.RemovePrevious(h, te, previousTe);
      DroppedOneMore(h, {}, previousTe.time, was, old(temporalMap), old(handles.lists));
      assert {} + {previousTe.time} == {previousTe.time};
    }

    method BeginRemove(h: Handle) returns (te: TemporalEntry?, tailTe: TemporalEntry?)
      requires Valid()
      ensures Removing(h, te) && te == handles.HeadOf(h)
      ensures tailTe == if h in handles.tailHandleMap then handles.tailHandleMap[h] else null
    {
      hide Rank;
      hide HandleToEntries.Valid;
      hide HandleToEntries.ValidBut;
      hide TimeIndex.Valid;
      te, tailTe := handles.Begin(h);
    }

    method EndRemove(h: Handle, te: TemporalEntry?)
      requires Removing(h, te) && Agree()
      modifies handles`handleMap
      ensures Valid() && unchanged(this, handles`lists, handles`tailHandleMap, handles`Repr, times)
    {
      hide Rank;
      hide HandleToEntries.Valid;
      hide HandleToEntries.ValidBut;
      hide TimeIndex.Valid;
      hide Matching;
      assert handles !in times.Repr;
      handles.End(h, te);
    }

    lemma HeldMinus(h: Handle, removed: set<Time>, held: map<Time, set<Handle>>, before: set<Pair>, selected: set<Pair>)
      requires MinusPairs(held, temporalMap, h, removed)
      requires forall k: Handle, u :: (k, u) in before <==> In(held, k, u)
      requires forall p :: p in selected <==> p in before && p.0 == h && p.1 in removed
      ensures Held() == before - selected
    {
      forall k: Handle, u ensures (k, u) in Held() <==> (k, u) in before - selected {
        assert (k, u) in Held() <==> In(temporalMap, k, u);
      }
    }

    /** The times a scan has had removed as it went: for the PREVIOUS criteria none. */
    ghost function Gone(q: Query, scan: Scan): set<Time> {
      if q.Previous?() then {} else Elements(scan.found)
    }

    /** What the loop of remove keeps. */
    ghost predicate RemovalOk(h: Handle, q: Query, te: TemporalEntry?, currentTe: TemporalEntry?,
                              tailTe: TemporalEntry?,
                              scan: Scan, seen: set<Time>, was: Before, view: TailView)
      reads this, handles, handles.Repr, times, times.Repr
    {
      && Removing(h, te) && Agree() && ScanOk(q, scan, seen)
      && CursorOk(h, currentTe, tailTe, seen, At(was.lists, h, map[]))
      && Dropped(h, Gone(q, scan), was)
      && TailAfter(ByHandle, At(was.lists, h, map[]).Keys, Gone(q, scan), view, handles.View(h))
    }

    /** One turn of the loop. */
    method RemoveTurn(h: Handle, q: Query, te: TemporalEntry?, currentTe: TemporalEntry, tailTe: TemporalEntry?,
                      ghost scan: Scan, ghost seen: set<Time>, ghost was: Before, ghost view: TailView)
      returns (r: TemporalEntry?, next: TemporalEntry?)
      requires RemovalOk(h, q, te, currentTe, tailTe, scan, seen, was, view) && !scan.finished
      modifies this`temporalMap, handles.Repr, times.Repr
      ensures RemovalOk(h, q, r, next, tailTe, Step(q, scan, currentTe.time), seen + {currentTe.time}, was, view)
      ensures handles.Repr == old(handles.Repr) && fresh(times.Repr - old(times.Repr))
      ensures next != null ==> Rank(currentTe.time) < Rank(next.time)
    {
      hide Rank;
      hide Query.Matches;
      hide TailAfter;
      hide Removing;
      hide Matching;
      hide Dropped;
      hide CursorOk;
      hide ScanOk;
      hide Elements;
      assert Gone(q, scan) <= seen by { FoundIsSeen(q, scan, seen); }
      DroppedList(h, Gone(q, scan), was);
      CursorMoves(h, te, currentTe, tailTe, Gone(q, scan), seen, At(was.lists, h, map[]));
      StepOk(q, scan, seen, currentTe.time);
      if q.Matches(currentTe.time).0 && !q.Previous?() {
        ghost var v := handles.View(h);
        r, next := RemoveAndMoveOn(h, te, currentTe, tailTe, Gone(q, scan), seen, was);
        ElementsAppend(scan.found, currentTe.time);
        TailAfterOneMore(ByHandle, At(was.lists, h, map[]).Keys, Gone(q, scan), currentTe.time, view, v,
                         handles.View(h));
      } else {
        r, next := te, currentTe.next;
      }
    }

    lemma DroppedList(h: Handle, removed: set<Time>, was: Before)
      requires Dropped(h, removed, was)
      ensures handles.ListOf(h) == At(was.lists, h, map[]) - removed
      ensures removed == {} ==> handles.ListOf(h) == At(was.lists, h, map[])
    {
      assert At(was.lists, h, map[]) - {} == At(was.lists, h, map[]);
    }

    /** The loop of remove(h, t, criterion), with the list of h in hand. */
    method ScanAndRemove(h: Handle, q: Query, ghost was: Before, ghost view: TailView)
      returns (result: bool, te: TemporalEntry?, previousTe: TemporalEntry?, ghost scan: Scan)
      requires Valid() && was == Before(temporalMap, handles.lists, handles.tailHandleMap) && view == handles.View(h)
      modifies this`temporalMap, handles.Repr, times.Repr
      ensures exists tailTe, currentTe, seen ::
        RemovalOk(h, q, te, currentTe, tailTe, scan, seen, was, view) && (currentTe == null || scan.finished)
      ensures handles.Repr == old(handles.Repr) && fresh(times.Repr - old(times.Repr))
      ensures result <==> scan.found != []
      ensures q.Previous?() ==> scan.found == if previousTe == null then [] else [previousTe.time]
      ensures !q.Previous?() ==> previousTe == null
      ensures previousTe != null ==> Member(previousTe, At(was.lists, h, map[]))
    {
      hide Rank;
      hide Query.Matches;
      hide Removing;
      hide Agree;
      hide RemovalOk;
      scan := Scan([], false);
      ghost var seen := {};
      var tailTe;
      te, tailTe := BeginRemove(h);
      RemovalStarts(h, q, te, tailTe, was, view);
      var currentTe := te;
      var searchFinished := false;
      previousTe := null;
      result := false;
      while currentTe != null && !searchFinished
        invariant RemovalOk(h, q, te, currentTe, tailTe, scan, seen, was, view)
        invariant handles.Repr == old(handles.Repr) && fresh(times.Repr - old(times.Repr))
        invariant searchFinished == scan.finished && (result <==> scan.found != [])
        invariant q.Previous?() ==> scan.found == if previousTe == null then [] else [previousTe.time]
        invariant !q.Previous?() ==> previousTe == null
        invariant previousTe != null ==> Member(previousTe, At(was.lists, h, map[]))
        decreases RANK_LIMIT - if currentTe == null then RANK_LIMIT else Rank(currentTe.time)
      {
        var (matches, stop) := q.Matches(currentTe.time);
        searchFinished := stop;
        ghost var time := currentTe.time;
        if matches {
          result := true;
          if q.Previous?() {
            CursorIsMember(h, q, te, currentTe, tailTe, scan, seen, was, view);
            previousTe := currentTe;
          }
        }
        te, currentTe := RemoveTurn(h, q, te, currentTe, tailTe, scan, seen, was, view);
        scan := Step(q, scan, time);
        seen := seen + {time};
      }
    }

    /** All that goes from the list of h, that of the PREVIOUS criteria included. */
    method RemoveMatches(h: Handle, q: Query, ghost was: Before, ghost view: TailView)
      returns (result: bool, te: TemporalEntry?, ghost found: seq<Time>)
      requires Valid() && was == Before(temporalMap, handles.lists, handles.tailHandleMap) && view == handles.View(h)
      modifies this`temporalMap, handles.Repr, times.Repr
      ensures Removing(h, te) && Agree() && handles.Repr == old(handles.Repr) && fresh(times.Repr - old(times.Repr))
      ensures result <==> found != []
      ensures forall x :: x in found <==> q.Chosen(x, At(was.lists, h, map[]).Keys)
      ensures Dropped(h, Elements(found), was)
      ensures TailAfter(if q.Previous?() then ByHandlePrevious else ByHandle, At(was.lists, h, map[]).Keys,
                        Elements(found), view, handles.View(h))
    {
      hide Rank;
      hide Removing;
      hide Agree;
      hide RemovalOk;
      hide Dropped;
      hide TailAfter;
      hide Elements;
      hide Query.Chosen;
      var previousTe;
      ghost var scan;
      result, te, previousTe, scan := ScanAndRemove(h, q, was, view);
      found := scan.found;
      ghost var tailTe, currentTe, seen :| RemovalOk(h, q, te, currentTe, tailTe, scan, seen, was, view)
        && (currentTe == null || scan.finished);
      RemovalDone(h, q, te, currentTe, tailTe, scan, seen, was, view);
      if previousTe != null {
        ElementsAppend([], previousTe.time);
        DroppedList(h, {}, was);
        AgreedPair(h, previousTe.time);
        te := RemovePrevious(h, te, previousTe, was);
      }
    }

    lemma CursorIsMember(h: Handle, q: Query, te: TemporalEntry?, currentTe: TemporalEntry, tailTe: TemporalEntry?,
                         scan: Scan, seen: set<Time>, was: Before, view: TailView)
      requires RemovalOk(h, q, te, currentTe, tailTe, scan, seen, was, view)
      ensures Member(currentTe, At(was.lists, h, map[]))
    {
      hide Rank;
      hide Removing;
      hide Matching;
      hide ScanOk;
    }

    /** Once the scan is over, it has found what was asked for; for the PREVIOUS criteria nothing is gone yet. */
    lemma RemovalDone(h: Handle, q: Query, te: TemporalEntry?, currentTe: TemporalEntry?, tailTe: TemporalEntry?,
                      scan: Scan, seen: set<Time>, was: Before, view: TailView)
      requires RemovalOk(h, q, te, currentTe, tailTe, scan, seen, was, view)
      requires currentTe == null || scan.finished
      ensures forall x :: x in scan.found <==> q.Chosen(x, At(was.lists, h, map[]).Keys)
      ensures q.Previous?() ==> Dropped(h, {}, was) && handles.View(h) == view
      ensures !q.Previous?() || scan.found == [] ==> Dropped(h, Elements(scan.found), was)
      ensures !q.Previous?() ==>
        TailAfter(ByHandle, At(was.lists, h, map[]).Keys, Elements(scan.found), view, handles.View(h))
      ensures Removing(h, te) && Agree()
      ensures scan.found == [] ==>
        TailAfter(ByHandlePrevious, At(was.lists, h, map[]).Keys, Elements(scan.found), view, view)
    {
      hide Rank;
      hide Removing;
      hide Matching;
      hide ScanOk;
      hide Query.Chosen;
      hide Dropped;
      ScanIsComplete(q, scan, seen, At(was.lists, h, map[]).Keys);
      ElementsAppend([], Temporal(0, 0, false));
    }

    lemma RemovalStarts(h: Handle, q: Query, te: TemporalEntry?, tailTe: TemporalEntry?, was: Before, view: TailView)
      requires Removing(h, te) && Agree() && te == handles.HeadOf(h)
      requires tailTe == if h in handles.tailHandleMap then handles.tailHandleMap[h] else null
      requires was == Before(temporalMap, handles.lists, handles.tailHandleMap) && view == handles.View(h)
      ensures RemovalOk(h, q, te, te, tailTe, Scan([], false), {}, was, view)
    {
      hide Rank;
      hide HandleToEntries.ValidBut;
      hide TimeIndex.Valid;
      hide Matching;
      ScanStarts(q);
      handles.HeldListOk(h, te);
      assert At(was.lists, h, map[]) - {} == At(was.lists, h, map[]);
      TailUntouched(ByHandle, At(was.lists, h, map[]).Keys, {}, view);
    }

    /** remove(h, t, criterion), for a handle that is defined. */
    method RemoveByHandle(h: Handle, t: Temporal, criterion: TemporalRelationship) returns (result: bool)
      requires Valid() && h != UNDEFINED_HANDLE && (t.Valid() || t == UNDEFINED_TEMPORAL)
      modifies this`temporalMap, handles.Repr, times.Repr
      ensures Valid() && handles.Repr == old(handles.Repr) && fresh(times.Repr - old(times.Repr))
      ensures Held() == old(Held()) - Select(old(Held()), h, QueryOf(t, criterion))
      ensures result <==> Select(old(Held()), h, QueryOf(t, criterion)) != {}
      ensures SameBut(h, old(handles.lists), handles.lists)
        && SameBut(h, old(handles.tailHandleMap), handles.tailHandleMap)
      ensures TailAfter(if QueryOf(t, criterion).Previous?() then ByHandlePrevious else ByHandle,
                        old(TimesOf(Held(), h)), TimesOf(Select(old(Held()), h, QueryOf(t, criterion)), h),
                          old(handles.View(h)), handles.View(h))
    {
      hide Rank;
      hide Query.Matches;
      hide TailAfter;
      hide Matching;
      hide Query.Chosen;
      hide HandleToEntries.Valid;
      hide HandleToEntries.ValidBut;
      hide TimeIndex.Valid;
      var q := QueryOf(t, criterion);
      HeldTimes(h);
      ghost var was, view := Before(temporalMap, handles.lists, handles.tailHandleMap), handles.View(h);
      var te;
      ghost var found;
      result, te, found := RemoveMatches(h, q, was, view);
      EndRemove(h, te);
      SelectByHandle(old(Held()), h, q, found);
      HeldMinus(h, Elements(found), was.held, old(Held()), Select(old(Held()), h, q));
    }

    // ------------------------------------------------------------ remove, for all handles

    /** Some times are gone, from the earliest on; what was is the state before. */
    ghost predicate TimesGone(removed: set<Time>, was: Before)
      reads this`temporalMap, handles`lists, handles`tailHandleMap
    {
      && temporalMap == was.held - removed
      && (forall h: Handle ::
            TailAfter(ByTime, At(was.lists, h, map[]).Keys, removed, ViewAt(h, was.tails, was.lists), handles.View(h)))
    }

    /** One time more. */
    method RemoveNext(time: Time, ghost removed: set<Time>, ghost was: Before) returns (result: bool)
      requires Valid() && TimesGone(removed, was) && Matching(was.held, was.lists)
      requires forall u <- removed :: Rank(u) < Rank(time)
      modifies this`temporalMap, handles.Repr, times.Repr
      ensures Valid() && TimesGone(removed + {time}, was)
      ensures times.order == old(times.order) - {time}
      ensures handles.Repr == old(handles.Repr) && fresh(times.Repr - old(times.Repr))
    {
      hide Rank;
      hide HandleToEntries.Valid;
      hide TimeIndex.Valid;
      hide TailAfter;
      hide Shape;
      hide HandleToEntries.View;
      LeftOnLists(removed, was);
      result := RemoveExact(time);
      forall h: Handle
        ensures TailAfter(ByTime, At(was.lists, h, map[]).Keys, removed + {time}, ViewAt(h, was.tails, was.lists),
                          handles.View(h))
      {
        TailAfterOneMore(ByTime, At(was.lists, h, map[]).Keys, removed, time, ViewAt(h, was.tails, was.lists),
                         old(handles.View(h)), handles.View(h));
      }
      assert was.held - removed - {time} == was.held - (removed + {time});
    }

    lemma LeftOnLists(removed: set<Time>, was: Before)
      requires Agree() && temporalMap == was.held - removed && Matching(was.held, was.lists)
      ensures forall h: Handle :: handles.ListOf(h).Keys == At(was.lists, h, map[]).Keys - removed
    {
      forall h: Handle, t
        ensures t in handles.ListOf(h) <==> t in At(was.lists, h, map[]) && t !in removed
      {
        assert In(temporalMap, h, t) <==> In(was.held, h, t) && t !in removed;
      }
    }

    /** What a sweep over the global list keeps: te is on what is left of the list, seen are the times before it. */
    ghost predicate SweepOk(te: TemporalEntry?, removed: set<Time>, seen: set<Time>, was: Before, all: Nodes)
      reads this, handles, handles.Repr, times, times.Repr
    {
      && Valid() && TimesGone(removed, was) && Matching(was.held, was.lists)
      && times.order == all - removed && removed <= seen
      && (te != null ==> Member(te, times.order))
      && Passed(seen, te, all)
    }

    /** The cursor of a sweep moves on. */
    lemma SweepMoves(te: TemporalEntry, removed: set<Time>, seen: set<Time>, was: Before, all: Nodes)
      requires SweepOk(te, removed, seen, was, all)
      ensures SweepOk(te.next, removed, seen + {te.time}, was, all)
      ensures te.next != null ==> Rank(te.time) < Rank(te.next.time)
      ensures forall x <- seen :: Rank(x) < Rank(te.time)
    {
      hide Rank;
      hide HandleToEntries.Valid;
      hide TimeIndex.Valid;
      hide TimesGone;
      hide Matching;
      times.GlobalListOk();
      assert Follows(te.next, Rank(te.time), times.order);
      assert Follows(te.next, Rank(te.time), all);
      PassedOneMore(seen, te, all);
    }

    /** One turn of a sweep: the cursor moves on, then the time goes. */
    method SweepRemoving(te: TemporalEntry, ghost removed: set<Time>, ghost seen: set<Time>, ghost was: Before,
                         ghost all: Nodes)
      returns (next: TemporalEntry?)
      requires SweepOk(te, removed, seen, was, all)
      modifies this`temporalMap, handles.Repr, times.Repr
      ensures SweepOk(next, removed + {te.time}, seen + {te.time}, was, all)
      ensures handles.Repr == old(handles.Repr) && fresh(times.Repr - old(times.Repr))
      ensures next == old(te.next) && (next != null ==> Rank(te.time) < Rank(next.time))
    {
      hide Rank;
      hide HandleToEntries.Valid;
      hide TimeIndex.Valid;
      hide TimesGone;
      hide Matching;
      hide Passed;
      hide Follows;
      hide Shape;
      hide Agree;
      SweepMoves(te, removed, seen, was, all);
      next := te.next;
      var gone := RemoveNext(te.time, removed, was);
      assert all - removed - {te.time} == all - (removed + {te.time});
    }

    /** The loop of remove(t, criterion): for everything, and for the criteria without a way of their own. */
    method SweepByScan(q: Query, ghost was: Before) returns (result: bool, previousTime: Option<Time>, ghost scan: Scan)
      requires Valid() && was == Before(temporalMap, handles.lists, handles.tailHandleMap)
      modifies this`temporalMap, handles.Repr, times.Repr
      ensures exists te, seen, all :: SweepDone(te, q, scan, seen, was, all)
      ensures handles.Repr == old(handles.Repr) && fresh(times.Repr - old(times.Repr))
      ensures result <==> scan.found != []
      ensures !q.Previous?() ==> previousTime.None?
      ensures q.Previous?() ==> scan.found == if previousTime.None? then [] else [previousTime.value]
    {
      hide Rank;
      hide Query.Matches;
      hide ScanOk;
      hide Elements;
      hide Query.Chosen;
      hide SweepOk;
      scan := Scan([], false);
      ghost var seen, all := {}, times.order;
      var te := times.sortedTemporalList;
      SweepStarts(q, was);
      var searchFinished := false;
      previousTime := None;
      result := false;
      while te != null && !searchFinished
        invariant SweepOk(te, Gone(q, scan), seen, was, all)
        invariant handles.Repr == old(handles.Repr) && fresh(times.Repr - old(times.Repr))
        invariant ScanOk(q, scan, seen) && searchFinished == scan.finished && (result <==> scan.found != [])
        invariant !q.Previous?() ==> previousTime.None?
        invariant q.Previous?() ==> scan.found == if previousTime.None? then [] else [previousTime.value]
        decreases RANK_LIMIT - if te == null then RANK_LIMIT else Rank(te.time)
      {
        var time := te.time;
        var (matches, stop) := q.Matches(time);
        searchFinished := stop;
        SweepMoves(te, Gone(q, scan), seen, was, all);
        StepOk(q, scan, seen, time);
        ElementsAppend(scan.found, time);
        if matches {
          result := true;
        }
        if matches && !q.Previous?() {
          te := SweepRemoving(te, Gone(q, scan), seen, was, all);
        } else {
          te := te.next;
          if matches {
            previousTime := Some(time);
          }
        }
        scan := Step(q, scan, time);
        seen := seen + {time};
      }
      assert SweepDone(te, q, scan, seen, was, all);
    }

    ghost predicate SweepDone(te: TemporalEntry?, q: Query, scan: Scan, seen: set<Time>, was: Before, all: Nodes)
      reads this, handles, handles.Repr, times, times.Repr
    {
      SweepOk(te, Gone(q, scan), seen, was, all) && ScanOk(q, scan, seen) && (te == null || scan.finished)
        && all.Keys == was.held.Keys
    }

    lemma SweepFinds(te: TemporalEntry?, q: Query, scan: Scan, seen: set<Time>, was: Before, all: Nodes)
      requires SweepDone(te, q, scan, seen, was, all)
      ensures Valid() && TimesGone(Gone(q, scan), was) && Matching(was.held, was.lists)
      ensures forall x :: x in scan.found <==> q.Chosen(x, was.held.Keys)
    {
      hide Rank;
      hide HandleToEntries.Valid;
      hide TimeIndex.Valid;
      hide Matching;
      hide TimesGone;
      hide ScanOk;
      hide Query.Chosen;
      ScanIsComplete(q, scan, seen, all.Keys);
    }

    /** remove(t, criterion) by a scan of the global list; for the PREVIOUS criteria the last match goes after it. */
    method RemoveByScan(q: Query, ghost was: Before) returns (result: bool, ghost found: seq<Time>)
      requires Valid() && was == Before(temporalMap, handles.lists, handles.tailHandleMap)
      modifies this`temporalMap, handles.Repr, times.Repr
      ensures Valid() && TimesGone(Elements(found), was)
      ensures handles.Repr == old(handles.Repr) && fresh(times.Repr - old(times.Repr))
      ensures result <==> found != []
      ensures forall x :: x in found <==> q.Chosen(x, was.held.Keys)
    {
      hide Rank;
      hide SweepDone;
      hide TimesGone;
      hide Matching;
      hide Elements;
      hide Query.Chosen;
      hide Shape;
      var previousTime;
      ghost var scan;
      result, previousTime, scan := SweepByScan(q, was);
      found := scan.found;
      ghost var te, seen, all :| SweepDone(te, q, scan, seen, was, all);
      SweepFinds(te, q, scan, seen, was, all);
      ElementsAppend([], if previousTime.Some? then previousTime.value else Temporal(0, 0, false));
      if previousTime.Some? {
        var gone := RemoveNext(previousTime.value, {}, was);
      }
    }

    lemma SweepStarts(q: Query, was: Before)
      requires Valid() && was == Before(temporalMap, handles.lists, handles.tailHandleMap)
      ensures SweepOk(times.sortedTemporalList, {}, {}, was, times.order)
      ensures SweepOk(times.sortedTemporalList, Gone(q, Scan([], false)), {}, was, times.order)
      ensures ScanOk(q, Scan([], false), {})
      ensures times.order.Keys == was.held.Keys
      ensures forall u <- times.order ::
        times.sortedTemporalList != null && Rank(times.sortedTemporalList.time) <= Rank(u)
    {
      hide Rank;
      hide HandleToEntries.Valid;
      hide TimeIndex.Valid;
      hide Matching;
      hide TailAfter;
      ScanStarts(q);
      times.GlobalListOk();
      ElementsAppend([], Temporal(0, 0, false));
      assert times.order - {} == times.order && temporalMap - {} == temporalMap;
      forall h: Handle
        ensures TailAfter(ByTime, At(was.lists, h, map[]).Keys, {}, ViewAt(h, was.tails, was.lists), handles.View(h))
      {
        TailUntouched(ByTime, At(was.lists, h, map[]).Keys, {}, handles.View(h));
      }
    }

    lemma SweepShows(te: TemporalEntry?, removed: set<Time>, seen: set<Time>, was: Before, all: Nodes)
      requires SweepOk(te, removed, seen, was, all)
      ensures Valid() && TimesGone(removed, was) && Matching(was.held, was.lists)
      ensures Passed(seen, te, all) && (te != null ==> Member(te, all))
    {
      hide Rank;
      hide HandleToEntries.Valid;
      hide TimeIndex.Valid;
      hide Matching;
      hide TimesGone;
    }

    /** A cursor before the limit does not step over it. */
    lemma NotBeyond(currentEntry: TemporalEntry, next: TemporalEntry?, upperLimitEntry: TemporalEntry, seen: set<Time>,
                    all: Nodes)
      requires Passed(seen, currentEntry, all) && Passed(seen + {currentEntry.time}, next, all)
      requires Member(currentEntry, all) && Member(upperLimitEntry, all)
      requires currentEntry != upperLimitEntry && Rank(currentEntry.time) <= Rank(upperLimitEntry.time)
      ensures next != null && Rank(next.time) <= Rank(upperLimitEntry.time)
    {
      hide Rank;
    }

    /**
     * remove(t, OVERLAPS): no test of lower bounds up to the upper limit, which stays on the list while entries before
     * it go.
     */
    method RemoveOverlaps(t: Time, ghost was: Before) returns (result: bool, ghost found: set<Time>)
      requires Valid() && was == Before(temporalMap, handles.lists, handles.tailHandleMap)
      modifies this`temporalMap, handles.Repr, times.Repr
      ensures Valid() && TimesGone(found, was)
      ensures handles.Repr == old(handles.Repr) && fresh(times.Repr - old(times.Repr))
      ensures result <==> found != {}
      ensures forall x :: x in found <==> x in was.held && By(t, OVERLAPS).Defined(x)
    {
      hide Rank;
      hide Query.Defined;
      hide SweepOk;
      hide HandleToEntries.Valid;
      hide TimeIndex.Valid;
      hide Matching;
      hide TimesGone;
      hide Passed;
      hide Shape;
      hide Agree;
      ghost var seen: set<Time>, all := {}, times.order;
      result, found := false, {};
      SweepStarts(Everything, was);
      SweepShows(times.sortedTemporalList, {}, {}, was, all);
      if times.sortedTemporalList != null {
        var upperLimitEntry := UpperLimit(t);
        var currentEntry := times.sortedTemporalList;
        while currentEntry != upperLimitEntry
          invariant SweepOk(currentEntry, found, seen, was, all)
          invariant handles.Repr == old(handles.Repr) && fresh(times.Repr - old(times.Repr))
          invariant upperLimitEntry != null ==>
            currentEntry != null && Rank(currentEntry.time) <= Rank(upperLimitEntry.time)
          invariant forall x :: x in found <==> x in seen && t.Lower() <= x.Upper()
          invariant result <==> found != {}
          decreases RANK_LIMIT - if currentEntry == null then RANK_LIMIT else Rank(currentEntry.time)
        {
          var time := currentEntry.time;
          SweepShows(currentEntry, found, seen, was, all);
          SweepMoves(currentEntry, found, seen, was, all);
          SweepShows(currentEntry.next, found, seen + {time}, was, all);
          if upperLimitEntry != null {
            NotBeyond(currentEntry, currentEntry.next, upperLimitEntry, seen, all);
          }
          if time.Upper() >= t.Lower() {
            result := true;
            currentEntry := SweepRemoving(currentEntry, found, seen, was, all);
            found := found + {time};
          } else {
            currentEntry := currentEntry.next;
          }
          seen := seen + {time};
        }
        SweepShows(currentEntry, found, seen, was, all);
        OverlapsFound(t, upperLimitEntry, seen, found, all);
      }
    }

    // ------------------------------------------------------------ the interface

    ghost function Model(): State
      reads this`temporalMap, handles`lists, handles`tailHandleMap
    {
      State(Listed(), Held(), map h | h in handles.tailHandleMap :: handles.View(h))
    }

    /** The key of the hash that compares equal to t. */
    method GetKey(t: Temporal) returns (key: Option<Time>)
      ensures key.Some? ==> key.value in temporalMap && key.value.CompareTo(t) == 0
      ensures key.None? ==> forall k <- temporalMap :: k.CompareTo(t) != 0
    {
      if k :| k in temporalMap && k.CompareTo(t) == 0 {
        return Some(k);
      }
      return None;
    }

    lemma ListedPairs()
      ensures forall h: Handle, t :: (h, t) in Listed() <==> t in handles.ListOf(h)
      ensures forall h: Handle, t :: (h, t) in Held() <==> Holds(h, t)
      ensures forall h: Handle :: Model().Tail(h) == handles.View(h)
      ensures Model().Sound() <==> Agree()
    {
      forall h: Handle, t ensures (h, t) in Listed() <==> t in handles.ListOf(h) {}
      forall h: Handle, t ensures (h, t) in Held() <==> Holds(h, t) {}
      if Agree() {
        forall p ensures p in Listed() <==> p in Held() {
          assert p.1 in At(handles.lists, p.0, map[]) <==> In(temporalMap, p.0, p.1);
        }
      }
      if Listed() == Held() {
        forall h: Handle, t ensures t in At(handles.lists, h, map[]) <==> In(temporalMap, h, t) {
          assert (h, t) in Listed() <==> (h, t) in Held();
        }
      }
    }

    /** The tails that have left their lists are the ones whose entries are dead. */
    lemma DeadTails(h: Handle)
      requires Valid()
      ensures Model().Tail(h).OffList? <==> h in handles.tailHandleMap && handles.tailHandleMap[h] in handles.dead
    {
      hide HandleToEntries.Valid;
      hide TimeIndex.Valid;
      hide Matching;
      handles.DeadTails(h);
      ListedPairs();
    }

    /** The state that maps, lists and tails stand for. */
    ghost predicate StandsFor(was: Before, s: State) {
      && (forall h: Handle, t :: (h, t) in s.listed <==> t in At(was.lists, h, map[]))
      && (forall h: Handle, t :: (h, t) in s.held <==> In(was.held, h, t))
      && (forall h: Handle :: s.Tail(h) == ViewAt(h, was.tails, was.lists))
    }

    lemma ModelStandsFor()
      ensures StandsFor(Before(temporalMap, handles.lists, handles.tailHandleMap), Model())
    {
      ListedPairs();
      forall h: Handle, t ensures (h, t) in Model().listed <==> t in At(handles.lists, h, map[]) {
        assert (h, t) in Listed() <==> t in handles.ListOf(h);
      }
      forall h: Handle, t ensures (h, t) in Model().held <==> In(temporalMap, h, t) {
        assert (h, t) in Held() <==> Holds(h, t);
      }
      forall h: Handle ensures Model().Tail(h) == ViewAt(h, handles.tailHandleMap, handles.lists) {
        assert Model().Tail(h) == handles.View(h);
      }
    }

    lemma OtherView(k: Handle, h: Handle, was: Before, now: Before)
      requires k != h && SameBut(h, was.lists, now.lists) && SameBut(h, was.tails, now.tails)
      ensures ViewAt(k, now.tails, now.lists) == ViewAt(k, was.tails, was.lists)
    {
      assert At(now.lists, k, map[]) == At(was.lists, k, map[]);
    }

    lemma AddIsNext(h: Handle, t: Time, was: Before, now: Before, s: State, s': State)
      requires StandsFor(was, s) && StandsFor(now, s')
      requires now.held == was.held[t := At(was.held, t, {}) + {h}]
      requires SameBut(h, was.lists, now.lists) && SameBut(h, was.tails, now.tails)
      requires At(now.lists, h, map[]).Keys == At(was.lists, h, map[]).Keys + if s.Lands(h, t) then {t} else {}
      requires s.Lands(h, t) ==> ViewAt(h, now.tails, now.lists) == if s.Tail(h).OffList? then s.Tail(h) else OnList
      ensures Next(s, Op.Add(h, t), s')
    {
      hide Rank;
      hide ViewAt;
      forall k: Handle | k != h ensures s'.Tail(k) == s.Tail(k) {
        OtherView(k, h, was, now);
      }
      forall p ensures p in s'.held <==> p in s.held || p == (h, t) {
        assert (p.0, p.1) in s'.held <==> In(now.held, p.0, p.1);
        assert (p.0, p.1) in s.held <==> In(was.held, p.0, p.1);
      }
      forall p ensures p in s'.listed <==> p in s.listed || (s.Lands(h, t) && p == (h, t)) {
        assert (p.0, p.1) in s'.listed <==> p.1 in At(now.lists, p.0, map[]);
        assert (p.0, p.1) in s.listed <==> p.1 in At(was.lists, p.0, map[]);
      }
    }

    /** add; false when the time is not valid, which leaves the table as it was. */
    method Add(h: Handle, t: Temporal) returns (ok: bool)
      requires Shape() && (t.Valid() || t == UNDEFINED_TEMPORAL)
      modifies this`temporalMap, handles.Repr, times.Repr
      ensures fresh(handles.Repr - old(handles.Repr)) && fresh(times.Repr - old(times.Repr))
      ensures ok <==> t.Valid() || UNDEFINED_TWIN in old(temporalMap)
      ensures !ok ==> Shape() && Model() == old(Model())
      ensures ok ==> Shape() && Next(old(Model()), Op.Add(h, if t.Valid() then t else UNDEFINED_TWIN), Model())
    {
      hide Rank;
      hide Shape;
      hide Next;
      hide Matching;
      hide SameBut;
      hide StandsFor;
      ghost var was := Before(temporalMap, handles.lists, handles.tailHandleMap);
      forall k: Time ensures k.CompareTo(t) == 0
        <==> k == if t.Valid() then t else UNDEFINED_TWIN { CompareToIsZero(k, t); }
      ModelStandsFor();
      var key := GetKey(t);
      var internal_t;
      if key.Some? {
        internal_t := key.value;
      } else {
        InitAcceptsTheValid(t.a, t.b, t.normal);
        match Init(t.a, t.b, t.normal)
        case InvalidParam => return false;
        case Created(clone) => internal_t := clone;
      }
      AddTime(h, internal_t);
      ok := true;
      ModelStandsFor();
      AddIsNext(h, internal_t, was, Before(temporalMap, handles.lists, handles.tailHandleMap), old(Model()), Model());
    }

    lemma TimesOfState(h: Handle, was: Before, s: State)
      requires StandsFor(was, s) && Matching(was.held, was.lists)
      ensures s.Sound()
      ensures TimesOf(s.held, h) == At(was.lists, h, map[]).Keys
    {
      forall p ensures p in s.listed <==> p in s.held {
        assert (p.0, p.1) in s.listed <==> p.1 in At(was.lists, p.0, map[]);
        assert (p.0, p.1) in s.held <==> In(was.held, p.0, p.1);
        assert p.1 in At(was.lists, p.0, map[]) <==> In(was.held, p.0, p.1);
      }
      forall t ensures t in TimesOf(s.held, h) <==> t in At(was.lists, h, map[]) {
        assert (h, t) in s.listed <==> t in At(was.lists, h, map[]);
      }
    }

    lemma AllTimesOfState(was: Before, s: State)
      requires StandsFor(was, s) && forall t <- was.held :: was.held[t] != {}
      ensures AllTimes(s.held) == was.held.Keys
    {
      forall t ensures t in AllTimes(s.held) <==> t in was.held {
        if t in was.held {
          var h :| h in was.held[t];
          assert In(was.held, h, t);
        }
        if t in AllTimes(s.held) {
          var p :| p in s.held && p.1 == t;
          assert (p.0, p.1) in s.held <==> In(was.held, p.0, p.1);
        }
      }
    }

    lemma SweepSelects(q: Query, removed: set<Time>, was: Before, s: State)
      requires StandsFor(was, s) && forall t <- was.held :: was.held[t] != {}
      requires forall x <- was.held :: x in removed <==> q.Chosen(x, was.held.Keys)
      ensures Select(s.held, UNDEFINED_HANDLE, q) == PairsOn(s.held, removed)
      ensures Select(s.held, UNDEFINED_HANDLE, q) == {} <==> removed * was.held.Keys == {}
    {
      hide Rank;
      hide Query.Defined;
      var selected := Select(s.held, UNDEFINED_HANDLE, q);
      AllTimesOfState(was, s);
      forall p ensures p in selected <==> p in s.held && p.1 in removed {
        assert (p.0, p.1) in s.held <==> In(was.held, p.0, p.1);
      }
      forall x | x in removed && x in was.held ensures selected != {} {
        var h :| h in was.held[x];
        assert (h, x) in s.held <==> In(was.held, h, x);
        assert (h, x) in selected;
      }
      if p :| p in selected {
        assert (p.0, p.1) in s.held <==> In(was.held, p.0, p.1);
        assert p.1 in removed * was.held.Keys;
      }
    }

    lemma SweepIsNext(q: Query, removed: set<Time>, was: Before, now: Before, s: State, s': State)
      requires StandsFor(was, s) && StandsFor(now, s') && Matching(was.held, was.lists) && Matching(now.held, now.lists)
      requires now.held == was.held - removed && Select(s.held, UNDEFINED_HANDLE, q) == PairsOn(s.held, removed)
      requires forall h: Handle ::
        TailAfter(ByTime, At(was.lists, h, map[]).Keys, removed, ViewAt(h, was.tails, was.lists),
                  ViewAt(h, now.tails, now.lists))
      ensures Next(s, Op.Remove(UNDEFINED_HANDLE, q), s')
    {
      hide Rank;
      hide TailAfter;
      hide Select;
      hide Matching;
      hide ViewAt;
      TimesOfState(UNDEFINED_HANDLE, was, s);
      TimesOfState(UNDEFINED_HANDLE, now, s');
      forall p ensures p in s'.held <==> p in s.held && p !in PairsOn(s.held, removed) {
        assert (p.0, p.1) in s.held <==> In(was.held, p.0, p.1);
        assert (p.0, p.1) in s'.held <==> In(now.held, p.0, p.1);
      }
      forall h: Handle
        ensures TailAfter(ByTime, TimesOf(s.held, h), TimesOf(PairsOn(s.held, removed), h), s.Tail(h), s'.Tail(h))
      {
        TimesOfState(h, was, s);
        TailAfterOfList(ByTime, TimesOf(s.held, h), removed, TimesOf(PairsOn(s.held, removed), h), s.Tail(h),
                        s'.Tail(h));
      }
    }

    lemma HandleRemovalIsNext(h: Handle, q: Query, was: Before, now: Before, s: State, s': State)
      requires StandsFor(was, s) && StandsFor(now, s') && Matching(was.held, was.lists) && Matching(now.held, now.lists)
      requires h != UNDEFINED_HANDLE && s'.held == s.held - Select(s.held, h, q)
      requires SameBut(h, was.lists, now.lists) && SameBut(h, was.tails, now.tails)
      requires TailAfter(How(h, q), TimesOf(s.held, h), TimesOf(Select(s.held, h, q), h),
                         ViewAt(h, was.tails, was.lists), ViewAt(h, now.tails, now.lists))
      ensures Next(s, Op.Remove(h, q), s')
    {
      hide Rank;
      hide TailAfter;
      hide Query.Chosen;
      TimesOfState(h, was, s);
      TimesOfState(h, now, s');
      forall k: Handle | k != h
        ensures TailAfter(How(h, q), TimesOf(s.held, k), TimesOf(Select(s.held, h, q), k), s.Tail(k), s'.Tail(k))
      {
        assert At(was.lists, k, map[]) == At(now.lists, k, map[]);
        TailUntouched(How(h, q), TimesOf(s.held, k), TimesOf(Select(s.held, h, q), k), s.Tail(k));
      }
    }

    lemma ExactIsChosen(t: Time, x: Time, all: set<Time>)
      ensures x in all ==> (x == t <==> By(t, EXACT).Chosen(x, all))
    {
      MatchesIsDefined(By(t, EXACT), x);
    }

    lemma ChosenIsDefined(q: Query, x: Time, all: set<Time>)
      requires !q.Next?() && !q.Previous?()
      ensures x in all ==> (q.Defined(x) <==> q.Chosen(x, all))
    {
    }

    /** remove(t, criterion), for all handles. */
    method RemoveForAll(t: Temporal, criterion: TemporalRelationship, ghost was: Before)
      returns (result: bool, ghost removed: set<Time>)
      requires Valid() && was == Before(temporalMap, handles.lists, handles.tailHandleMap)
      requires t.Valid() || t == UNDEFINED_TEMPORAL
      modifies this`temporalMap, handles.Repr, times.Repr
      ensures Valid() && TimesGone(removed, was)
      ensures handles.Repr == old(handles.Repr) && fresh(times.Repr - old(times.Repr))
      ensures result <==> removed * was.held.Keys != {}
      ensures forall x <- was.held :: x in removed <==> QueryOf(t, criterion).Chosen(x, was.held.Keys)
    {
      hide Rank;
      hide Shape;
      hide Agree;
      hide TailAfter;
      hide Query.Defined;
      if t != UNDEFINED_TEMPORAL && criterion == EXACT {
        result := RemoveExact(t);
        removed := {t};
        assert t in was.held ==> t in removed * was.held.Keys;
        forall x | x in was.held ensures x in removed <==> By(t, EXACT).Chosen(x, was.held.Keys) {
          ExactIsChosen(t, x, was.held.Keys);
        }
      } else if t != UNDEFINED_TEMPORAL && criterion == OVERLAPS {
        result, removed := RemoveOverlaps(t, was);
        assert removed * was.held.Keys == removed;
        forall x | x in was.held ensures x in removed <==> By(t, OVERLAPS).Chosen(x, was.held.Keys) {
          ChosenIsDefined(By(t, OVERLAPS), x, was.held.Keys);
        }
      } else {
        ghost var found;
        result, found := RemoveByScan(QueryOf(t, criterion), was);
        removed := Elements(found);
        assert removed * was.held.Keys == removed;
        assert found != [] ==> found[0] in removed;
      }
    }

    method Remove(h: Handle, t: Temporal, criterion: TemporalRelationship) returns (result: bool)
      requires Valid() && (t.Valid() || t == UNDEFINED_TEMPORAL)
      modifies this`temporalMap, handles.Repr, times.Repr
      ensures Valid() && handles.Repr == old(handles.Repr) && fresh(times.Repr - old(times.Repr))
      ensures result <==> Select(old(Held()), h, QueryOf(t, criterion)) != {}
      ensures Next(old(Model()), Op.Remove(h, QueryOf(t, criterion)), Model())
    {
      hide Rank;
      hide TailAfter;
      hide Query.Chosen;
      hide HandleToEntries.Valid;
      hide TimeIndex.Valid;
      hide Matching;
      hide Next;
      hide Select;
      hide StandsFor;
      hide SameBut;
      var q := QueryOf(t, criterion);
      ghost var was := Before(temporalMap, handles.lists, handles.tailHandleMap);
      ModelStandsFor();
      if h != UNDEFINED_HANDLE {
        HeldTimes(h);
        result := RemoveByHandle(h, t, criterion);
        ModelStandsFor();
        HandleRemovalIsNext(h, q, was, Before(temporalMap, handles.lists, handles.tailHandleMap), old(Model()),
                            Model());
      } else {
        ghost var removed;
        result, removed := RemoveForAll(t, criterion, was);
        ModelStandsFor();
        SweepSelects(q, removed, was, old(Model()));
        SweepIsNext(q, removed, was, Before(temporalMap, handles.lists, handles.tailHandleMap), old(Model()), Model());
      }
    }
  }
}
