// Sorted linked lists of times: opencog/spacetime/TemporalEntry.cc.
module TemporalEntries {
  import opened Temporals

  class TemporalEntry {
    const time: Time
    ghost const owner: int
    var next: TemporalEntry?

    constructor (time: Time, ghost owner: int)
      ensures this.time == time && this.owner == owner && next == null
    {
      this.time := time;
      this.owner := owner;
      next := null;
    }
  }

  type Nodes = map<Time, TemporalEntry>

  /** e is the entry that nodes holds for its time. */
  ghost predicate Member(e: TemporalEntry, nodes: Nodes) {
    e.time in nodes && nodes[e.time] == e
  }

  /** e follows every entry of nodes up to rank r, with none in between; null when there is none. */
  ghost predicate Follows(e: TemporalEntry?, r: int, nodes: Nodes) {
    if e == null then forall u <- nodes :: Rank(u) <= r
    else Member(e, nodes) && r < Rank(e.time) && forall u <- nodes :: Rank(u) <= r || Rank(e.time) <= Rank(u)
  }

  ghost predicate ListOk(head: TemporalEntry?, nodes: Nodes, owner: int)
    reads nodes.Values
  {
    && (forall t <- nodes :: nodes[t].time == t && nodes[t].owner == owner)
    && Follows(head, -1, nodes)
    && (forall t {:trigger nodes[t].next} | t in nodes :: Follows(nodes[t].next, Rank(t), nodes))
  }


  /** A new time that does not fall between r and e leaves e the successor of r. */
  lemma FollowsExtended(e: TemporalEntry?, r: int, nodes: Nodes, n: TemporalEntry)
    requires Follows(e, r, nodes) && n.time !in nodes
    requires Rank(n.time) <= r || (e != null && Rank(e.time) <= Rank(n.time))
    ensures Follows(e, r, nodes[n.time := n])
  {
    hide Rank;
  }

  /** A new time right after r is the successor of r, and what followed r follows the new time. */
  lemma FollowsInserted(e: TemporalEntry?, r: int, nodes: Nodes, n: TemporalEntry)
    requires Follows(e, r, nodes) && n.time !in nodes
    requires r < Rank(n.time) && (e == null || Rank(n.time) < Rank(e.time))
    ensures Follows(n, r, nodes[n.time := n])
    ensures Follows(e, Rank(n.time), nodes[n.time := n])
  {
    hide Rank;
  }

  /** The times before the entry a traversal has reached. */
  ghost predicate Passed(seen: set<Time>, current: TemporalEntry?, order: Nodes) {
    seen <= order.Keys && forall t <- order :: t in seen <==> current == null || Rank(t) < Rank(current.time)
  }

  lemma PassedOneMore(seen: set<Time>, current: TemporalEntry, order: Nodes)
    requires Passed(seen, current, order) && Member(current, order) && Follows(current.next, Rank(current.time), order)
    ensures Passed(seen + {current.time}, current.next, order) && current.time !in seen
  {
    hide Compare;
    hide Rank;
    forall t | t in order && t != current.time
      ensures t in seen <==> current.next == null || Rank(t) < Rank(current.next.time)
    {
      assert Compare(t, current.time) != 0;
    }
  }

  /** The entry before the place of t, and the entry at or after it. */
  method Seek(sortedSet: TemporalEntry?, t: Time, ghost head: TemporalEntry?, ghost nodes: Nodes, ghost owner: int)
    returns (previous: TemporalEntry?, current: TemporalEntry?)
    requires ListOk(head, nodes, owner)
    requires sortedSet == head || (sortedSet != null && Member(sortedSet, nodes) && Rank(sortedSet.time) <= Rank(t))
    ensures previous == null ==> current == sortedSet && (sortedSet == head || current.time == t)
    ensures previous != null ==> Member(previous, nodes) && previous.next == current && Rank(previous.time) < Rank(t)
    ensures current != null ==> Member(current, nodes) && Rank(t) <= Rank(current.time)
  {
    hide Compare;
    hide Rank;
    current, previous := sortedSet, null;
    while current != null
      invariant previous == null ==> current == sortedSet
      invariant current != null ==> Member(current, nodes)
      invariant previous != null ==>
        Member(previous, nodes) && previous.next == current && Rank(previous.time) < Rank(t)
      decreases RANK_LIMIT - if current == null then RANK_LIMIT else Rank(current.time)
    {
      if Compare(current.time, t) >= 0 {
        break;
      }
      previous := current;
      current := current.next;
    }
  }

  method Add(sortedSet: TemporalEntry?, t: Time, ghost head: TemporalEntry?, ghost nodes: Nodes, ghost owner: int)
    returns (r: TemporalEntry?, ghost nodes': Nodes)
    requires ListOk(head, nodes, owner)
    requires sortedSet == head || (sortedSet != null && Member(sortedSet, nodes) && Rank(sortedSet.time) <= Rank(t))
    modifies nodes.Values
    ensures ListOk(if sortedSet == head then r else head, nodes', owner)
    ensures sortedSet != null && Rank(sortedSet.time) <= Rank(t) ==> r == sortedSet
    ensures r != null
    ensures t in nodes ==> nodes' == nodes
    ensures t !in nodes ==> t in nodes' && nodes' == nodes[t := nodes'[t]] && fresh(nodes'[t])
  {
    hide Compare;
    hide Rank;
    var previous, current := Seek(sortedSet, t, head, nodes, owner);
    if current != null && Compare(current.time, t) == 0 {
      return sortedSet, nodes;
    }
    var newEntry := new TemporalEntry(t, owner);
    Splice(previous, current, newEntry, head, nodes, owner);
    nodes' := nodes[t := newEntry];
    r := if previous != null then sortedSet else newEntry;
  }

  /** Splicing n in between previous and current disturbs no other entry. */
  lemma OthersExtended(previous: TemporalEntry?, current: TemporalEntry?, n: TemporalEntry,
                       head: TemporalEntry?, nodes: Nodes, owner: int)
    requires ListOk(head, nodes, owner) && n.time !in nodes
    requires if previous == null then head == current
             else Member(previous, nodes) && previous.next == current && Rank(previous.time) < Rank(n.time)
    requires current != null ==> Rank(n.time) < Rank(current.time)
    ensures forall u <- nodes :: nodes[u] != previous ==> Follows(nodes[u].next, Rank(u), nodes[n.time := n])
  {
    hide Compare;
    hide Rank;
    forall u | u in nodes && nodes[u] != previous
      ensures Follows(nodes[u].next, Rank(u), nodes[n.time := n])
    {
      if previous != null {
        assert Compare(u, previous.time) != 0;
      }
      FollowsExtended(nodes[u].next, Rank(u), nodes, n);
    }
  }

  /** Puts newEntry between previous (the head of the list when null) and current. */
  method Splice(previous: TemporalEntry?, current: TemporalEntry?, newEntry: TemporalEntry,
                ghost head: TemporalEntry?, ghost nodes: Nodes, ghost owner: int)
    requires ListOk(head, nodes, owner) && newEntry.time !in nodes
    requires newEntry.owner == owner && newEntry !in nodes.Values
    requires if previous == null then head == current
             else Member(previous, nodes) && previous.next == current && Rank(previous.time) < Rank(newEntry.time)
    requires current != null ==> Rank(newEntry.time) < Rank(current.time)
    modifies previous, newEntry
    ensures ListOk(if previous == null then newEntry else head, nodes[newEntry.time := newEntry], owner)
  {
    hide Compare;
    hide Rank;
    OthersExtended(previous, current, newEntry, head, nodes, owner);
    newEntry.next := current;
    if previous != null {
      FollowsInserted(current, Rank(previous.time), nodes, newEntry);
      FollowsExtended(head, -1, nodes, newEntry);
      previous.next := newEntry;
    } else {
      FollowsInserted(current, -1, nodes, newEntry);
    }
  }

  lemma FollowsWithout(e: TemporalEntry?, r: int, nodes: Nodes, t: Time)
    requires Follows(e, r, nodes) && (e == null || e.time != t)
    ensures Follows(e, r, nodes - {t})
  {
    hide Rank;
  }

  lemma NothingToDrop(nodes: Nodes, t: Time)
    requires t !in nodes
    ensures nodes - {t} == nodes
  {
  }

  /** Skipping n: what followed n follows whatever n followed. */
  lemma FollowsPast(n: TemporalEntry, r: int, nodes: Nodes)
    requires Follows(n, r, nodes) && Follows(n.next, Rank(n.time), nodes)
    ensures Follows(n.next, r, nodes - {n.time})
  {
    hide Rank;
    hide Compare;
    forall u | u in nodes && u != n.time && Rank(u) <= Rank(n.time)
      ensures Rank(u) <= r
    {
      assert Compare(u, n.time) != 0;
    }
  }

  lemma OthersWithout(previous: TemporalEntry?, current: TemporalEntry,
                      head: TemporalEntry?, nodes: Nodes, owner: int)
    requires ListOk(head, nodes, owner) && Member(current, nodes)
    requires if previous == null then head == current else Member(previous, nodes) && previous.next == current
    ensures forall u <- nodes :: nodes[u] != previous && nodes[u] != current ==>
      Follows(nodes[u].next, Rank(u), nodes - {current.time})
  {
    hide Compare;
    hide Rank;
    forall u | u in nodes && nodes[u] != previous && nodes[u] != current
      ensures Follows(nodes[u].next, Rank(u), nodes - {current.time})
    {
      if previous != null {
        assert Compare(u, previous.time) != 0;
      }
      FollowsWithout(nodes[u].next, Rank(u), nodes, current.time);
    }
  }

  /** Takes current, the entry after previous (the head when previous is null), out of the list. */
  method Unlink(previous: TemporalEntry?, current: TemporalEntry, ghost head: TemporalEntry?, ghost nodes: Nodes,
                ghost owner: int)
    returns (r: TemporalEntry?)
    requires ListOk(head, nodes, owner) && Member(current, nodes)
    requires if previous == null then head == current else Member(previous, nodes) && previous.next == current
    modifies previous, current
    ensures ListOk(if previous == null then r else head, nodes - {current.time}, owner)
    ensures r == old(current.next) && current.next == null
    ensures previous != null ==> previous.next == r
    ensures r != null ==> Rank(current.time) < Rank(r.time)
  {
    hide Compare;
    hide Rank;
    OthersWithout(previous, current, head, nodes, owner);
    r := current.next;
    if previous != null {
      FollowsPast(current, Rank(previous.time), nodes);
      previous.next := r;
      assert Follows(head, -1, nodes - {current.time}) by { FollowsWithout(head, -1, nodes, current.time); }
    } else {
      FollowsPast(current, -1, nodes);
    }
    current.next := null;
  }

  /** nodes, or nodes without t once it is gone. */
  ghost function Without(nodes: Nodes, t: Time, gone: bool): Nodes {
    if gone then nodes - {t} else nodes
  }

  method RemoveFront(sortedSet: TemporalEntry?, t: Time, ghost nodes: Nodes, ghost owner: int)
    returns (r: TemporalEntry?, ghost gone: bool)
    requires ListOk(sortedSet, nodes, owner)
    modifies nodes.Values
    ensures ListOk(r, Without(nodes, t, gone), owner)
    ensures gone ==> t in nodes && nodes[t].next == null
    ensures r != null ==> r.time != t
  {
    hide Compare;
    hide Rank;
    r, gone := sortedSet, false;
    while r != null && r.time == t
      invariant ListOk(r, Without(nodes, t, gone), owner)
      invariant gone ==> t in nodes && nodes[t].next == null
      decreases !gone
    {
      var buffer := r;
      r := Unlink(null, buffer, buffer, nodes, owner);
      gone := true;
    }
  }

  /** One turn of the second loop: drops the entry after e when it holds t, and steps onto it otherwise. */
  method DropOrStep(e: TemporalEntry, t: Time, ghost head: TemporalEntry?, ghost nodes: Nodes, ghost owner: int)
    returns (e': TemporalEntry, ghost gone: bool)
    requires ListOk(head, nodes, owner) && Member(e, nodes) && e.next != null && e.time != t
    requires t in nodes ==> Rank(e.time) < Rank(t)
    modifies e, e.next
    ensures gone ==> t in nodes && nodes[t].next == null && e' == e
    ensures ListOk(head, Without(nodes, t, gone), owner) && Member(e', Without(nodes, t, gone)) && e'.time != t
    ensures !gone ==> e' == old(e.next) && (t in nodes ==> Rank(e'.time) < Rank(t))
    ensures gone && e.next != null ==> Rank(old(e.next).time) < Rank(e.next.time)
  {
    hide Compare;
    hide Rank;
    var buffer: TemporalEntry := e.next;
    if buffer.time == t {
      var after := Unlink(e, buffer, head, nodes, owner);
      e', gone := e, true;
    } else {
      assert Compare(buffer.time, t) != 0;
      e', gone := buffer, false;
    }
  }

  method RemoveRest(r: TemporalEntry, t: Time, ghost nodes: Nodes, ghost owner: int)
    requires ListOk(r, nodes, owner) && r.time != t
    modifies nodes.Values
    ensures ListOk(r, nodes - {t}, owner)
    ensures t in nodes ==> nodes[t].next == null
  {
    hide Compare;
    hide Rank;
    var set_: TemporalEntry := r;
    ghost var gone := false;
    assert Compare(r.time, t) != 0;
    while set_.next != null
      invariant gone ==> t in nodes && nodes[t].next == null
      invariant ListOk(r, Without(nodes, t, gone), owner) && Member(set_, Without(nodes, t, gone)) && set_.time != t
      invariant t in nodes && !gone ==> Rank(set_.time) < Rank(t)
      decreases RANK_LIMIT - if set_.next == null then RANK_LIMIT else Rank(set_.next.time)
    {
      ghost var gone';
      set_, gone' := DropOrStep(set_, t, r, Without(nodes, t, gone), owner);
      gone := gone || gone';
    }
    assert gone || t !in nodes;
    assert Without(nodes, t, gone) == nodes - {t};
  }

  /** Removes t from the list: first from its front, then from the rest. */
  method Remove(sortedSet: TemporalEntry?, t: Time, ghost nodes: Nodes, ghost owner: int) returns (r: TemporalEntry?)
    requires ListOk(sortedSet, nodes, owner)
    modifies nodes.Values
    ensures ListOk(r, nodes - {t}, owner)
    ensures t in nodes ==> nodes[t].next == null
  {
    ghost var gone;
    r, gone := RemoveFront(sortedSet, t, nodes, owner);
    if r != null {
      RemoveRest(r, t, Without(nodes, t, gone), owner);
      assert Without(nodes, t, gone) - {t} == nodes - {t};
    }
  }

  method Contains(sortedSet: TemporalEntry?, t: Time, ghost nodes: Nodes, ghost owner: int) returns (b: bool)
    requires ListOk(sortedSet, nodes, owner)
    ensures b <==> t in nodes
  {
    hide Compare;
    hide Rank;
    var current := sortedSet;
    while current != null
      invariant current != null ==> Member(current, nodes)
      invariant t in nodes ==> current != null && Rank(current.time) <= Rank(t)
      decreases RANK_LIMIT - if current == null then RANK_LIMIT else Rank(current.time)
    {
      var comparison := Compare(current.time, t);
      if comparison == 0 {
        return true;
      } else if comparison > 0 {
        return false;
      }
      current := current.next;
    }
    return false;
  }

  method Last(start: TemporalEntry, ghost head: TemporalEntry?, ghost nodes: Nodes, ghost owner: int)
    returns (current: TemporalEntry)
    requires ListOk(head, nodes, owner) && Member(start, nodes)
    ensures Member(current, nodes) && current.next == null
    ensures forall u <- nodes :: Rank(u) <= Rank(current.time)
  {
    hide Rank;
    current := start;
    while current.next != null
      invariant Member(current, nodes)
      decreases RANK_LIMIT - Rank(current.time)
    {
      current := current.next;
    }
  }
}
