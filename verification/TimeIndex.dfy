// The global list of a temporal table and the index array into it: opencog/spacetime/TemporalTable.cc:92-136, 598-696,
// 743-810.
module TimeIndexes {
  import opened Temporals
  import opened TemporalEntries

  const PENDING_UPDATE_RATE_THRESHOLD := 8
  const INITIAL_INDEX_TABLE_SIZE := 1

  ghost const GLOBAL_LIST := -1

  /** Every slot in use holds an entry of the list, in weakly ascending order. */
  ghost predicate SlotsOk(a: array<TemporalEntry?>, count: int, order: Nodes)
    reads a
  {
    && 0 <= count <= a.Length
    && (forall i :: 0 <= i < count ==> a[i] != null && Member(a[i], order))
    && (forall i, j :: 0 <= i < j < count ==> Rank(a[i].time) <= Rank(a[j].time))
  }

  ghost predicate HasSlot(a: array<TemporalEntry?>, count: int, t: Time)
    requires count <= a.Length
    reads a
  {
    exists i :: 0 <= i < count && a[i] != null && a[i].time == t
  }

  /** Every time of the list has a slot, except those missing. */
  ghost predicate Covers(a: array<TemporalEntry?>, count: int, order: Nodes, missing: set<Time>)
    requires count <= a.Length
    reads a
  {
    forall t <- order :: t in missing || HasSlot(a, count, t)
  }

  lemma SubsetOfSameSize<T>(a: set<T>, b: set<T>)
    requires a <= b && |a| == |b|
    ensures a == b
  {
    assert |b - a| == |b| - |a|;
  }

  /** Takes the next free slot for e, which comes after every entry that has one. */
  method PutSlot(a: array<TemporalEntry?>, i: int, e: TemporalEntry, ghost order: Nodes, ghost seen: set<Time>)
    requires SlotsOk(a, i, order) && i < a.Length && Member(e, order)
    requires forall j :: 0 <= j < i ==> Rank(a[j].time) <= Rank(e.time)
    requires forall t <- seen :: HasSlot(a, i, t)
    modifies a
    ensures SlotsOk(a, i + 1, order) && a[i] == e
    ensures forall j :: 0 <= j < i ==> a[j] == old(a[j])
    ensures forall t <- seen + {e.time} :: HasSlot(a, i + 1, t)
  {
    hide Rank;
    a[i] := e;
    assert a[i].time == e.time;
    forall t | t in seen ensures HasSlot(a, i + 1, t) {
      var j :| 0 <= j < i && old(a[j]) != null && old(a[j]).time == t;
      assert a[j].time == t;
    }
  }

  /** Puts the entries of the list into the array, in order. */
  method Fill(a: array<TemporalEntry?>, head: TemporalEntry?, numEntries: int, ghost order: Nodes) returns (i: int)
    requires ListOk(head, order, GLOBAL_LIST) && numEntries == |order| <= a.Length
    modifies a
    ensures i == numEntries
    ensures SlotsOk(a, i, order) && Covers(a, i, order, {})
  {
    hide Compare;
    hide Rank;
    var current := head;
    i := 0;
    ghost var seen: set<Time> := {};
    while current != null && i < numEntries
      invariant 0 <= i <= numEntries && |seen| == i
      invariant Passed(seen, current, order)
      invariant SlotsOk(a, i, order)
      invariant current != null ==> Member(current, order)
      invariant current != null ==> forall j :: 0 <= j < i ==> Rank(a[j].time) <= Rank(current.time)
      invariant forall t <- seen :: HasSlot(a, i, t)
    {
      PassedOneMore(seen, current, order);
      PutSlot(a, i, current, order, seen);
      seen := seen + {current.time};
      current := current.next;
      i := i + 1;
    }
    if current != null {
      SubsetOfSameSize(seen, order.Keys);
    }
    assert seen == order.Keys;
  }

  class TimeIndex {
    var sortedTemporalList: TemporalEntry?
    var temporalIndexTable: array<TemporalEntry?>
    var indexTableSize: int
    var indexTableCount: int
    var pendingUpdateCount: int

    ghost var order: Nodes
    ghost var missing: set<Time>
    ghost var Repr: set<object>

    /** The index array points into the global list, and few of its entries lack a slot. */
    ghost predicate IndexOk()
      reads this`temporalIndexTable, this`indexTableSize, this`indexTableCount, this`pendingUpdateCount, this`order,
        this`missing
      reads temporalIndexTable
    {
      && indexTableSize == temporalIndexTable.Length
      && SlotsOk(temporalIndexTable, indexTableCount, order)
      && Covers(temporalIndexTable, indexTableCount, order, missing)
      && |missing| <= pendingUpdateCount
    }

    /** The rebuild rule: updates pending are few compared with the n entries there are. */
    ghost predicate RateOk(n: int)
      reads this`pendingUpdateCount
    {
      pendingUpdateCount == 0 || n >= PENDING_UPDATE_RATE_THRESHOLD * pendingUpdateCount
    }

    /** Binary search of the index array. */
    method GetTemporalIndexTablePos(t: Time) returns (pos: int)
      requires SlotsOk(temporalIndexTable, indexTableCount, order) && indexTableCount > 0
      ensures -1 <= pos < indexTableCount
      ensures (pos >= 0 && temporalIndexTable[pos].time == t)
           || ((forall i :: 0 <= i <= pos ==> Rank(temporalIndexTable[i].time) < Rank(t))
            && (forall i :: pos < i < indexTableCount ==> Rank(temporalIndexTable[i].time) > Rank(t)))
    {
      hide Compare;
      hide Rank;
      var low, up := 0, indexTableCount - 1;
      while true
        invariant 0 <= low <= up < indexTableCount
        invariant forall i :: 0 <= i < low ==> Rank(temporalIndexTable[i].time) < Rank(t)
        invariant forall i :: up < i < indexTableCount ==> Rank(temporalIndexTable[i].time) > Rank(t)
        decreases up - low
      {
        pos := (up + low) / 2;
        var comparison := Compare(temporalIndexTable[pos].time, t);
        if comparison > 0 {
          up := pos - 1;
        } else if comparison < 0 {
          low := pos + 1;
        } else {
          return pos;
        }
        if !(low <= up) {
          break;
        }
      }
      return up;
    }

    /** An entry at or before t, from the index array. */
    method GetPreviousTemporalEntry(t: Time) returns (e: TemporalEntry?)
      requires SlotsOk(temporalIndexTable, indexTableCount, order) && indexTableCount > 0
      ensures e != null ==> Member(e, order) && Rank(e.time) <= Rank(t)
      ensures e != null ==> forall i :: 0 <= i < indexTableCount && Rank(temporalIndexTable[i].time) < Rank(t) ==>
        Rank(temporalIndexTable[i].time) <= Rank(e.time)
      ensures e == null ==> Rank(t) <= Rank(temporalIndexTable[0].time)
    {
      hide Compare;
      hide Rank;
      var pos := GetTemporalIndexTablePos(t);
      if pos >= 0 && Compare(temporalIndexTable[pos].time, t) == 0 {
        pos := pos - 1;
      }
      if pos < 0 {
        return null;
      } else {
        return temporalIndexTable[pos];
      }
    }

    /** Makes room for numEntries slots, and gives unnecessary room back. */
    method ResizeIndexTable(numEntries: int)
      requires 0 <= numEntries && indexTableSize == temporalIndexTable.Length
      modifies this`temporalIndexTable, this`indexTableSize
      ensures indexTableSize == temporalIndexTable.Length && numEntries <= indexTableSize <= 4 * numEntries + 3
      ensures indexTableSize == (if old(numEntries <= indexTableSize && indexTableSize / 4 <= numEntries)
                                 then old(indexTableSize) else 2 * numEntries)
      ensures temporalIndexTable == old(temporalIndexTable) || fresh(temporalIndexTable)
    {
      if numEntries > indexTableSize || numEntries < indexTableSize / 4 {
        indexTableSize := numEntries * 2;
        temporalIndexTable := new TemporalEntry?[indexTableSize];
      }
    }

    /** Rebuilds the index array from the global list. */
    method UpdateIndexTable(numEntries: int)
      requires ListOk(sortedTemporalList, order, GLOBAL_LIST)
      requires numEntries == |order| && indexTableSize == temporalIndexTable.Length
      modifies temporalIndexTable, this`temporalIndexTable, this`indexTableSize, this`indexTableCount,
        this`pendingUpdateCount, this`missing
      ensures IndexOk() && pendingUpdateCount == 0 && indexTableCount == numEntries
        && indexTableSize <= 4 * numEntries + 3
      ensures temporalIndexTable == old(temporalIndexTable) || fresh(temporalIndexTable)
    {
      hide Rank;
      ResizeIndexTable(numEntries);
      indexTableCount := Fill(temporalIndexTable, sortedTemporalList, numEntries, order);
      pendingUpdateCount := 0;
      missing := {};
    }

    /** Adds t to the global list from start on; the index array stays as it is. */
    method AddFrom(start: TemporalEntry?, t: Time) returns (r: TemporalEntry)
      requires ListOk(sortedTemporalList, order, GLOBAL_LIST)
      requires start == sortedTemporalList || (start != null && Member(start, order) && Rank(start.time) <= Rank(t))
      requires SlotsOk(temporalIndexTable, indexTableCount, order)
        && Covers(temporalIndexTable, indexTableCount, order, missing)
      modifies order.Values, this`order
      ensures ListOk(if start == sortedTemporalList then r else sortedTemporalList, order, GLOBAL_LIST)
      ensures start != null && Rank(start.time) <= Rank(t) ==> r == start
      ensures Member(r, order) && Rank(r.time) <= Rank(t)
      ensures t in old(order) ==> order == old(order)
      ensures t !in old(order) ==> t in order && order == old(order)[t := order[t]] && fresh(order[t])
      ensures SlotsOk(temporalIndexTable, indexTableCount, order)
      ensures Covers(temporalIndexTable, indexTableCount, order, if t in old(order) then missing else missing + {t})
      ensures unchanged(this`Repr, this`temporalIndexTable, this`indexTableSize, this`indexTableCount,
                        this`pendingUpdateCount, this`missing)
    {
      hide Rank;
      ghost var slots := temporalIndexTable[..];
      r, order := Add(start, t, sortedTemporalList, order, GLOBAL_LIST);
      assert temporalIndexTable[..] == slots;
    }

    /** First part of add: puts t into the global list, starting from the index array where it has slots. */
    method InsertTime(t: Time) returns (previousEntry: TemporalEntry?)
      requires ListOk(sortedTemporalList, order, GLOBAL_LIST)
      requires SlotsOk(temporalIndexTable, indexTableCount, order)
        && Covers(temporalIndexTable, indexTableCount, order, missing)
      modifies order.Values, this`sortedTemporalList, this`order
      ensures ListOk(sortedTemporalList, order, GLOBAL_LIST)
      ensures t in old(order) ==> order == old(order)
      ensures t !in old(order) ==> t in order && order == old(order)[t := order[t]] && fresh(order[t])
      ensures SlotsOk(temporalIndexTable, indexTableCount, order)
      ensures Covers(temporalIndexTable, indexTableCount, order, if t in old(order) then missing else missing + {t})
      ensures unchanged(this`Repr, this`temporalIndexTable, this`indexTableSize, this`indexTableCount,
                        this`pendingUpdateCount, this`missing)
      ensures if previousEntry == null then indexTableCount == 0
              else Member(previousEntry, order) && Rank(previousEntry.time) <= Rank(t)
    {
      hide Rank;
      hide ListOk;
      hide Covers;
      previousEntry := null;
      if indexTableCount > 0 {
        previousEntry := GetPreviousTemporalEntry(t);
        if previousEntry == null {
          sortedTemporalList := AddFrom(sortedTemporalList, t);
          previousEntry := sortedTemporalList;
        } else {
          var same := AddFrom(previousEntry, t);
        }
      } else {
        sortedTemporalList := AddFrom(sortedTemporalList, t);
      }
    }

    /** The entry of t, found by walking the list from an entry at or before it; the walk does not run off the list. */
    method WalkTo(t: Time, previousEntry: TemporalEntry) returns (newEntry: TemporalEntry?)
      requires ListOk(sortedTemporalList, order, GLOBAL_LIST) && t in order
      requires Member(previousEntry, order) && Rank(previousEntry.time) <= Rank(t)
      ensures newEntry == order[t]
    {
      hide Compare;
      hide Rank;
      newEntry := previousEntry;
      while newEntry != null && Compare(newEntry.time, t) != 0
        invariant newEntry != null && Member(newEntry, order) && Rank(newEntry.time) <= Rank(t)
        decreases RANK_LIMIT - Rank(newEntry.time)
      {
        newEntry := newEntry.next;
      }
    }

    lemma PendingRate(n: int, pending: int)
      requires pending > 0
      ensures n / pending >= PENDING_UPDATE_RATE_THRESHOLD <==> n >= 8 * pending
    {
      assert n == pending * (n / pending) + n % pending;
      if n / pending < 8 {
        assert pending * (n / pending) <= pending * 7;
      } else {
        assert pending * (n / pending) >= pending * 8;
      }
    }

    /** Counts one more entry the index does not know, and rebuilds the index when there are too many. */
    method CountPending(n: int)
      requires ListOk(sortedTemporalList, order, GLOBAL_LIST) && n == |order|
      requires indexTableSize == temporalIndexTable.Length && SlotsOk(temporalIndexTable, indexTableCount, order)
      requires Covers(temporalIndexTable, indexTableCount, order, missing)
      requires pendingUpdateCount >= 0 && |missing| <= pendingUpdateCount + 1
      modifies temporalIndexTable, this`temporalIndexTable, this`indexTableSize, this`indexTableCount,
        this`pendingUpdateCount, this`missing
      ensures IndexOk() && RateOk(n)
      ensures pendingUpdateCount == (if n >= 8 * old(pendingUpdateCount + 1) then old(pendingUpdateCount + 1) else 0)
      ensures n >= 8 * old(pendingUpdateCount + 1) ==>
        unchanged(this`temporalIndexTable, this`indexTableCount)
        && temporalIndexTable[..] == old(temporalIndexTable[..])
      ensures temporalIndexTable == old(temporalIndexTable) || fresh(temporalIndexTable)
    {
      pendingUpdateCount := pendingUpdateCount + 1;
      var pendingRate := n / pendingUpdateCount;
      PendingRate(n, pendingUpdateCount);
      if pendingRate < PENDING_UPDATE_RATE_THRESHOLD {
        UpdateIndexTable(n);
      }
    }

    /** Whether a new time goes to the end of the index: it comes behind all that is there, and there is room. */
    ghost predicate Appends(t: Time, previousEntry: TemporalEntry?)
      requires SlotsOk(temporalIndexTable, indexTableCount, order)
      reads this, temporalIndexTable
    {
      && previousEntry != null && 0 < indexTableCount < indexTableSize
      && Rank(temporalIndexTable[indexTableCount - 1].time) < Rank(t)
    }

    /** Takes the next slot for the entry of t. */
    method AppendSlot(t: Time, previousEntry: TemporalEntry)
      requires ListOk(sortedTemporalList, order, GLOBAL_LIST) && t in order
      requires indexTableSize == temporalIndexTable.Length && SlotsOk(temporalIndexTable, indexTableCount, order)
      requires Covers(temporalIndexTable, indexTableCount, order, missing + {t})
      requires |missing| <= pendingUpdateCount && Appends(t, previousEntry)
      requires Member(previousEntry, order) && Rank(previousEntry.time) <= Rank(t)
      modifies temporalIndexTable, this`indexTableCount
      ensures IndexOk() && indexTableCount == old(indexTableCount) + 1
      ensures temporalIndexTable[indexTableCount - 1] == order[t]
    {
      hide Compare;
      hide Rank;
      var newEntry := WalkTo(t, previousEntry);
      PutSlot(temporalIndexTable, indexTableCount, newEntry, order, order.Keys - missing - {t});
      indexTableCount := indexTableCount + 1;
    }

    /** Last part of add, for a time that is new: appends its entry to the index when it comes last. */
    method IndexTime(t: Time, previousEntry: TemporalEntry?, n: int)
      requires ListOk(sortedTemporalList, order, GLOBAL_LIST) && t in order && n == |order|
      requires indexTableSize == temporalIndexTable.Length && SlotsOk(temporalIndexTable, indexTableCount, order)
      requires Covers(temporalIndexTable, indexTableCount, order, missing + {t})
      requires |missing| <= pendingUpdateCount && RateOk(n - 1)
      requires previousEntry != null ==> Member(previousEntry, order) && Rank(previousEntry.time) <= Rank(t)
      modifies temporalIndexTable, this`temporalIndexTable, this`indexTableSize, this`indexTableCount,
        this`pendingUpdateCount, this`missing
      ensures IndexOk() && RateOk(n)
      ensures old(Appends(t, previousEntry)) ==>
        && unchanged(this`temporalIndexTable, this`pendingUpdateCount) && indexTableCount == old(indexTableCount) + 1
        && temporalIndexTable[indexTableCount - 1] == order[t]
      ensures !old(Appends(t, previousEntry)) ==>
        pendingUpdateCount == if n >= 8 * old(pendingUpdateCount + 1) then old(pendingUpdateCount + 1) else 0
      ensures temporalIndexTable == old(temporalIndexTable) || fresh(temporalIndexTable)
    {
      hide Compare;
      hide Rank;
      if && previousEntry != null && indexTableCount > 0 && indexTableCount < indexTableSize
         && Compare(t, temporalIndexTable[indexTableCount - 1].time) > 0 {
        AppendSlot(t, previousEntry);
      } else {
        missing := missing + {t};
        CountPending(n);
      }
    }

    /** Gives newEntry every slot of the entry at pos, and returns the position before them. */
    method ReplaceIndexTablePosition(pos: int, newEntry: TemporalEntry) returns (bPos: int)
      requires SlotsOk(temporalIndexTable, indexTableCount, order) && 0 <= pos < indexTableCount
      modifies temporalIndexTable
      ensures forall i :: 0 <= i < indexTableCount ==>
        temporalIndexTable[i] == if old(temporalIndexTable[i]) == old(temporalIndexTable[pos]) then newEntry
          else old(temporalIndexTable[i])
      ensures -1 <= bPos < pos
      ensures bPos >= 0 ==> Rank(old(temporalIndexTable[bPos]).time) < Rank(old(temporalIndexTable[pos]).time)
    {
      hide Compare;
      hide Rank;
      var oldEntry := temporalIndexTable[pos];
      temporalIndexTable[pos] := newEntry;
      var fPos := pos + 1;
      while fPos < indexTableCount && Compare(oldEntry.time, temporalIndexTable[fPos].time) == 0
        invariant pos < fPos <= indexTableCount
        invariant forall i :: pos <= i < fPos ==>
          old(temporalIndexTable[i]) == oldEntry && temporalIndexTable[i] == newEntry
        invariant forall i :: 0 <= i < temporalIndexTable.Length && !(pos <= i < fPos) ==>
          temporalIndexTable[i] == old(temporalIndexTable[i])
      {
        temporalIndexTable[fPos] := newEntry;
        fPos := fPos + 1;
      }
      bPos := pos - 1;
      while bPos >= 0 && Compare(oldEntry.time, temporalIndexTable[bPos].time) == 0
        invariant -1 <= bPos < pos
        invariant forall i :: bPos < i < fPos ==>
          old(temporalIndexTable[i]) == oldEntry && temporalIndexTable[i] == newEntry
        invariant forall i :: 0 <= i < temporalIndexTable.Length && !(bPos < i < fPos) ==>
          temporalIndexTable[i] == old(temporalIndexTable[i])
      {
        temporalIndexTable[bPos] := newEntry;
        bPos := bPos - 1;
      }
    }

    /** Takes the slots of t's entry away: its next entry gets them, or the index ends before them. */
    method UnindexTime(t: Time) returns (pos: int)
      requires ListOk(sortedTemporalList, order, GLOBAL_LIST) && order != map[]
      requires IndexOk() && indexTableCount > 0
      modifies temporalIndexTable, this`indexTableCount
      ensures SlotsOk(temporalIndexTable, indexTableCount, order - {t})
      ensures Covers(temporalIndexTable, indexTableCount, order - {t}, missing)
      ensures ListOk(sortedTemporalList, order, GLOBAL_LIST)
      ensures -1 <= pos < indexTableCount
      ensures pos >= 0 ==> Rank(temporalIndexTable[pos].time) < Rank(t)
    {
      hide Compare;
      hide Rank;
      pos := GetTemporalIndexTablePos(t);
      if pos >= 0 && Compare(temporalIndexTable[pos].time, t) == 0 {
        var entry: TemporalEntry := temporalIndexTable[pos];
        if entry.next != null {
          pos := HandSlotsOn(pos, entry);
        } else {
          pos := EndIndexBefore(pos, entry);
        }
      }
    }

    method HandSlotsOn(pos: int, entry: TemporalEntry) returns (bPos: int)
      requires ListOk(sortedTemporalList, order, GLOBAL_LIST) && IndexOk()
      requires 0 <= pos < indexTableCount && temporalIndexTable[pos] == entry && entry.next != null
      modifies temporalIndexTable
      ensures SlotsOk(temporalIndexTable, indexTableCount, order - {entry.time})
      ensures Covers(temporalIndexTable, indexTableCount, order - {entry.time}, missing)
      ensures ListOk(sortedTemporalList, order, GLOBAL_LIST)
      ensures -1 <= bPos < pos
      ensures bPos >= 0 ==> Rank(temporalIndexTable[bPos].time) < Rank(entry.time)
    {
      hide Compare;
      hide Rank;
      forall x: TemporalEntry | Member(x, order) && x != entry
        ensures Rank(x.time) < Rank(entry.time) || Rank(entry.next.time) <= Rank(x.time)
      {
        assert Compare(x.time, entry.time) != 0;
      }
      bPos := ReplaceIndexTablePosition(pos, entry.next);
      forall u | u in order && u != entry.time && u !in missing
        ensures HasSlot(temporalIndexTable, indexTableCount, u)
      {
        var i :| 0 <= i < indexTableCount && old(temporalIndexTable[i]) != null && old(temporalIndexTable[i]).time == u;
        assert temporalIndexTable[i].time == u;
      }
    }

    static lemma LastEntry(entry: TemporalEntry, head: TemporalEntry?, order: Nodes)
      requires ListOk(head, order, GLOBAL_LIST) && Member(entry, order) && entry.next == null
      ensures forall u <- order :: Rank(u) <= Rank(entry.time) && order[u].time == u
    {
      hide Rank;
      assert Follows(order[entry.time].next, Rank(entry.time), order);
    }

    method EndIndexBefore(at: int, entry: TemporalEntry) returns (pos: int)
      requires ListOk(sortedTemporalList, order, GLOBAL_LIST) && IndexOk()
      requires 0 <= at < indexTableCount && temporalIndexTable[at] == entry && entry.next == null
      modifies this`indexTableCount
      ensures SlotsOk(temporalIndexTable, indexTableCount, order - {entry.time})
      ensures Covers(temporalIndexTable, indexTableCount, order - {entry.time}, missing)
      ensures -1 <= pos < indexTableCount
      ensures pos >= 0 ==> Rank(temporalIndexTable[pos].time) < Rank(entry.time)
    {
      hide Compare;
      hide Rank;
      LastEntry(entry, sortedTemporalList, order);
      hide ListOk;
      hide Follows;
      pos := at - 1;
      while pos >= 0 && temporalIndexTable[pos] == entry
        invariant -1 <= pos < at
        invariant forall i :: pos < i <= at ==> temporalIndexTable[i] == entry
      {
        pos := pos - 1;
      }
      assert pos >= 0 ==> Compare(temporalIndexTable[pos].time, entry.time) != 0;
      forall u | u in order && u != entry.time && u !in missing
        ensures HasSlot(temporalIndexTable, pos + 1, u)
      {
        var i :| 0 <= i < indexTableCount && temporalIndexTable[i] != null && temporalIndexTable[i].time == u;
        assert Compare(u, entry.time) != 0;
        assert i <= pos;
      }
      indexTableCount := pos + 1;
    }

    /** Unlinks t's entry from the global list, looking for it from the slot at pos. */
    method UnlinkTime(t: Time, pos: int) returns (currentTe: TemporalEntry?)
      requires ListOk(sortedTemporalList, order, GLOBAL_LIST)
      requires SlotsOk(temporalIndexTable, indexTableCount, order - {t}) && -1 <= pos < indexTableCount
      requires pos >= 0 ==> Rank(temporalIndexTable[pos].time) < Rank(t)
      requires Covers(temporalIndexTable, indexTableCount, order - {t}, missing)
      modifies order.Values, this`sortedTemporalList, this`order
      ensures SlotsOk(temporalIndexTable, indexTableCount, order)
        && Covers(temporalIndexTable, indexTableCount, order, missing)
      ensures order == old(order) - {t} && ListOk(sortedTemporalList, order, GLOBAL_LIST)
      ensures if t in old(order) then currentTe != null && currentTe.time == t else currentTe == null
    {
      hide Compare;
      hide Rank;
      var previousTe: TemporalEntry?;
      if pos < 0 {
        previousTe, currentTe := null, sortedTemporalList;
      } else {
        previousTe := temporalIndexTable[pos];
        currentTe := previousTe.next;
      }
      while currentTe != null
        invariant previousTe == null ==> currentTe == sortedTemporalList
        invariant previousTe != null ==>
          Member(previousTe, order) && previousTe.next == currentTe && Rank(previousTe.time) < Rank(t)
        invariant currentTe != null ==> Member(currentTe, order)
        decreases RANK_LIMIT - if currentTe == null then RANK_LIMIT else Rank(currentTe.time)
      {
        var comparison := Compare(currentTe.time, t);
        if comparison == 0 {
          var after := Unlink(previousTe, currentTe, sortedTemporalList, order, GLOBAL_LIST);
          if previousTe == null {
            sortedTemporalList := after;
          }
          order := order - {t};
          return;
        } else if comparison > 0 {
          NothingToDrop(order, t);
          return null;
        }
        previousTe := currentTe;
        currentTe := currentTe.next;
      }
      NothingToDrop(order, t);
    }

    /** An empty index misses the whole list. */
    lemma EmptyIndexMisses()
      requires IndexOk() && indexTableCount == 0
      ensures |order| <= pendingUpdateCount
    {
      forall t | t in order ensures t in missing {
        assert !HasSlot(temporalIndexTable, 0, t);
      }
      assert order.Keys <= missing;
      assert |missing - order.Keys| == |missing| - |order.Keys|;
    }

    /** With few updates pending, the index of a non-empty list is not empty. */
    lemma IndexNotEmpty()
      requires IndexOk() && RateOk(|order|) && order != map[]
      ensures indexTableCount > 0
    {
      if indexTableCount == 0 {
        EmptyIndexMisses();
      }
    }

    /** Bookkeeping after an entry has left the list and its slots. */
    method CountUnlinked(currentTe: TemporalEntry, n: int)
      requires ListOk(sortedTemporalList, order, GLOBAL_LIST) && n == |order|
      requires indexTableSize == temporalIndexTable.Length && SlotsOk(temporalIndexTable, indexTableCount, order)
      requires Covers(temporalIndexTable, indexTableCount, order, missing)
      requires |missing| <= pendingUpdateCount && !Member(currentTe, order)
      modifies temporalIndexTable, this`temporalIndexTable, this`indexTableSize, this`indexTableCount,
        this`pendingUpdateCount, this`missing
      ensures IndexOk() && RateOk(n)
      ensures temporalIndexTable == old(temporalIndexTable) || fresh(temporalIndexTable)
    {
      hide Rank;
      // An unlinked entry has no slot left, so the branch that would only shorten the index is never taken.
      assert !(indexTableCount > 0 && currentTe == temporalIndexTable[indexTableCount - 1]);
      CountPending(n);
    }

    method RemoveFromSortedEntries(t: Time, numTemporalEntries: int)
      requires ListOk(sortedTemporalList, order, GLOBAL_LIST)
      requires IndexOk() && RateOk(|order|) && t in order
      requires numTemporalEntries == |order - {t}|
      modifies temporalIndexTable, this`temporalIndexTable, this`indexTableSize, this`indexTableCount,
        this`pendingUpdateCount, this`missing
      modifies order.Values, this`sortedTemporalList, this`order
      ensures order == old(order) - {t} && ListOk(sortedTemporalList, order, GLOBAL_LIST)
      ensures IndexOk() && RateOk(|order|)
      ensures temporalIndexTable == old(temporalIndexTable) || fresh(temporalIndexTable)
    {
      hide Rank;
      hide SlotsOk;
      hide Covers;
      hide ListOk;
      IndexNotEmpty();
      var pos := UnindexTime(t);
      var currentTe := UnlinkTime(t, pos);
      if currentTe != null {
        CountUnlinked(currentTe, numTemporalEntries);
      }
    }


    // ------------------------------------------------------------ what the table calls

    ghost predicate Valid()
      reads this, Repr
      ensures Valid() ==> this in Repr
    {
      && this in Repr && temporalIndexTable in Repr && order.Values <= Repr
      && ListOk(sortedTemporalList, order, GLOBAL_LIST)
      && IndexOk() && RateOk(|order|)
    }

    lemma GlobalListOk()
      requires Valid()
      ensures ListOk(sortedTemporalList, order, GLOBAL_LIST)
    {
    }

    /** getPreviousTemporalEntry, for a list that is not empty. */
    method PreviousEntry(t: Time) returns (e: TemporalEntry?)
      requires Valid() && order != map[]
      ensures e != null ==> Member(e, order) && Rank(e.time) <= Rank(t)
    {
      hide Rank;
      hide Covers;
      IndexNotEmpty();
      e := GetPreviousTemporalEntry(t);
    }

    constructor ()
      ensures Valid() && fresh(Repr) && order == map[]
    {
      sortedTemporalList := null;
      temporalIndexTable := new TemporalEntry?[INITIAL_INDEX_TABLE_SIZE];
      indexTableSize := INITIAL_INDEX_TABLE_SIZE;
      indexTableCount := 0;
      pendingUpdateCount := 0;
      order := map[];
      missing := {};
      new;
      Repr := {this, temporalIndexTable};
    }

    /** The state between the two halves of add: t is listed, and the index has yet to learn of it. */
    ghost predicate Inserted(t: Time, previousEntry: TemporalEntry?)
      reads this, Repr
      ensures Inserted(t, previousEntry) ==> this in Repr
    {
      && this in Repr && temporalIndexTable in Repr && order.Values <= Repr
      && ListOk(sortedTemporalList, order, GLOBAL_LIST) && t in order
      && indexTableSize == temporalIndexTable.Length && SlotsOk(temporalIndexTable, indexTableCount, order)
      && Covers(temporalIndexTable, indexTableCount, order, missing + {t})
      && |missing| <= pendingUpdateCount && RateOk(|order| - 1)
      && (previousEntry != null ==> Member(previousEntry, order) && Rank(previousEntry.time) <= Rank(t))
    }

    /** The first half of add. */
    method Insert(t: Time) returns (previousEntry: TemporalEntry?)
      requires Valid()
      modifies Repr
      ensures fresh(Repr - old(Repr))
      ensures t in old(order) ==> Valid() && order == old(order)
      ensures t !in old(order) ==> Inserted(t, previousEntry) && order.Keys == old(order).Keys + {t}
    {
      hide Rank;
      hide ListOk;
      hide Covers;
      previousEntry := InsertTime(t);
      Repr := Repr + {order[t]};
    }

    /** The second half of add, for a time that was not there before. */
    method Index(t: Time, previousEntry: TemporalEntry?, numTemporalEntries: int)
      requires Inserted(t, previousEntry) && numTemporalEntries == |order|
      modifies Repr
      ensures Valid() && fresh(Repr - old(Repr)) && order == old(order)
    {
      hide Rank;
      IndexTime(t, previousEntry, numTemporalEntries);
      Repr := Repr + {temporalIndexTable};
    }

    /** removeFromSortedEntries. */
    method Remove(t: Time, numTemporalEntries: int)
      requires Valid() && t in order && numTemporalEntries == |order - {t}|
      modifies Repr
      ensures Valid() && fresh(Repr - old(Repr))
      ensures order == old(order) - {t}
    {
      hide ListOk;
      hide IndexOk;
      RemoveFromSortedEntries(t, numTemporalEntries);
      Repr := Repr + {temporalIndexTable};
    }
  }
}
