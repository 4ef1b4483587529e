// The lists of the handles of a temporal table and their cached tails: opencog/spacetime/TemporalTable.cc:374-520,
// 698-727.
module HandleLists {
  import opened Basics
  import opened Temporals
  import opened TemporalEntries

  const UNDEFINED_HANDLE: Handle := 0

  /** What follows each entry of a collection of lists. */
  type Links = map<TemporalEntry, TemporalEntry?>

  ghost function LinksOf(entries: set<TemporalEntry>): Links
    reads entries
  {
    map e | e in entries :: e.next
  }

  /** ListOk, told by the links instead of the next fields. */
  ghost predicate ListAt(head: TemporalEntry?, nodes: Nodes, owner: int, links: Links) {
    && (forall t <- nodes :: nodes[t].time == t && nodes[t].owner == owner && nodes[t] in links)
    && Follows(head, -1, nodes)
    && (forall t {:trigger links[nodes[t]]} | t in nodes :: Follows(links[nodes[t]], Rank(t), nodes))
  }

  ghost predicate Linked(links: Links)
    reads links.Keys
  {
    forall e <- links :: e.next == links[e]
  }

  lemma FromLinks(head: TemporalEntry?, nodes: Nodes, owner: int, links: Links)
    requires ListAt(head, nodes, owner, links) && Linked(links)
    ensures ListOk(head, nodes, owner)
  {
    hide Rank;
    hide Follows;
    forall t | t in nodes ensures Follows(nodes[t].next, Rank(t), nodes) {
      assert links[nodes[t]] == nodes[t].next;
    }
  }

  lemma ToLinks(head: TemporalEntry?, nodes: Nodes, owner: int, links: Links)
    requires ListOk(head, nodes, owner) && nodes.Values <= links.Keys && Linked(links)
    ensures ListAt(head, nodes, owner, links)
  {
    hide Rank;
    hide Follows;
    forall t | t in nodes ensures nodes[t] in links && Follows(links[nodes[t]], Rank(t), nodes) {
      assert nodes[t] in nodes.Values;
      assert links[nodes[t]] == nodes[t].next;
    }
  }

  /** A list depends on the links of its own entries only. */
  lemma SameLinks(head: TemporalEntry?, nodes: Nodes, owner: int, links: Links, links': Links)
    requires ListAt(head, nodes, owner, links)
    requires forall t <- nodes :: nodes[t] in links' && links'[nodes[t]] == links[nodes[t]]
    ensures ListAt(head, nodes, owner, links')
  {
    hide Rank;
    hide Follows;
    forall t | t in nodes ensures nodes[t] in links' && Follows(links'[nodes[t]], Rank(t), nodes) {
      assert links'[nodes[t]] == links[nodes[t]];
    }
  }

  ghost function At<K, V>(m: map<K, V>, h: K, absent: V): V {
    if h in m then m[h] else absent
  }

  /** The list of h is as heads and lists say, and its tail is an entry made for it with none after it. */
  ghost predicate HandleAt(h: Handle, heads: map<Handle, TemporalEntry?>, tails: map<Handle, TemporalEntry>,
                           lists: map<Handle, Nodes>, links: Links) {
    && ListAt(At(heads, h, null), At(lists, h, map[]), h, links)
    && (h in tails ==> tails[h] in links && links[tails[h]] == null && tails[h].owner == h)
  }

  /** Entries made for h can be relinked without a change to any other handle. */
  lemma OtherHandle(k: Handle, h: Handle, heads: map<Handle, TemporalEntry?>, tails: map<Handle, TemporalEntry>,
                    lists: map<Handle, Nodes>, links: Links, links': Links)
    requires HandleAt(k, heads, tails, lists, links) && k != h
    requires forall e <- links :: e.owner != h ==> e in links' && links'[e] == links[e]
    ensures HandleAt(k, heads, tails, lists, links')
  {
    hide Rank;
    hide Follows;
    SameLinks(At(heads, k, null), At(lists, k, map[]), k, links, links');
  }

  /** The maps differ at h at most. */
  ghost predicate SameBut<V>(h: Handle, m: map<Handle, V>, m': map<Handle, V>) {
    forall k: Handle :: k != h ==> (k in m' <==> k in m) && (k in m ==> m'[k] == m[k])
  }

  lemma SameButTrans<V>(h: Handle, m: map<Handle, V>, m': map<Handle, V>, m'': map<Handle, V>)
    requires SameBut(h, m, m') && SameBut(h, m', m'')
    ensures SameBut(h, m, m'')
  {
  }

  ghost predicate AllAt(heads: map<Handle, TemporalEntry?>, tails: map<Handle, TemporalEntry>,
                        lists: map<Handle, Nodes>, links: Links) {
    forall k: Handle :: HandleAt(k, heads, tails, lists, links)
  }

  /** tails with tail for h, or with none for h when tail is null. */
  ghost function WithTail(tails: map<Handle, TemporalEntry>, h: Handle,
                          tail: TemporalEntry?): map<Handle, TemporalEntry> {
    if tail == null then tails - {h} else tails[h := tail]
  }

  /** What a new list, head and tail for h have to show for all handles to be as they should. */
  lemma OneHandleChanged(h: Handle, heads: map<Handle, TemporalEntry?>, tails: map<Handle, TemporalEntry>,
                         lists: map<Handle, Nodes>, links: Links,
                         head: TemporalEntry?, tail: TemporalEntry?, nodes: Nodes, links': Links)
    requires AllAt(heads, tails, lists, links)
    requires forall e <- links :: e.owner != h ==> e in links' && links'[e] == links[e]
    requires ListAt(head, nodes, h, links')
    requires tail != null ==> tail in links' && links'[tail] == null && tail.owner == h
    ensures AllAt(heads[h := head], WithTail(tails, h, tail), lists[h := nodes], links')
    ensures SameBut(h, lists, lists[h := nodes]) && SameBut(h, tails, WithTail(tails, h, tail))
  {
    hide Rank;
    hide ListAt;
    var heads', tails', lists' := heads[h := head], WithTail(tails, h, tail), lists[h := nodes];
    forall k: Handle | k != h
      ensures HandleAt(k, heads', tails', lists', links')
    {
      OtherHandle(k, h, heads, tails, lists, links, links');
    }
  }

  lemma TailForgotten(h: Handle, heads: map<Handle, TemporalEntry?>, tails: map<Handle, TemporalEntry>,
                      lists: map<Handle, Nodes>, links: Links)
    requires AllAt(heads, tails, lists, links)
    ensures AllAt(heads, tails - {h}, lists, links)
  {
    hide ListAt;
    forall k: Handle ensures HandleAt(k, heads, tails - {h}, lists, links) {
      assert HandleAt(k, heads, tails, lists, links);
    }
  }

  /** Heads that are the same, whether by an entry in the map or by its absence, will do. */
  lemma SameHeads(heads: map<Handle, TemporalEntry?>, heads': map<Handle, TemporalEntry?>,
                  tails: map<Handle, TemporalEntry>,
                  lists: map<Handle, Nodes>, links: Links)
    requires AllAt(heads, tails, lists, links)
    requires forall k: Handle :: At(heads', k, null) == At(heads, k, null)
    ensures AllAt(heads', tails, lists, links)
  {
    hide ListAt;
    forall k: Handle ensures HandleAt(k, heads', tails, lists, links) {
      assert HandleAt(k, heads, tails, lists, links);
    }
  }

  /**
   * Which entries are dead: deleted, or linked in behind a deleted one, so that only deleted memory leads to them.
   * No list has a dead entry, and a tail that is not on its list is dead.
   */
  ghost predicate DeadAt(h: Handle, tails: map<Handle, TemporalEntry>, lists: map<Handle, Nodes>,
                         dead: set<TemporalEntry>) {
    && (forall t <- At(lists, h, map[]) :: At(lists, h, map[])[t] !in dead)
    && (h in tails ==> tails[h] in dead || Member(tails[h], At(lists, h, map[])))
  }

  ghost predicate AllDead(tails: map<Handle, TemporalEntry>, lists: map<Handle, Nodes>, dead: set<TemporalEntry>) {
    forall k: Handle :: DeadAt(k, tails, lists, dead)
  }

  /** Only entries made for h have died, and only the list and the tail of h are others. */
  lemma OneHandleDead(h: Handle, heads: map<Handle, TemporalEntry?>, tails: map<Handle, TemporalEntry>,
                      lists: map<Handle, Nodes>,
                      links: Links, dead: set<TemporalEntry>, tails': map<Handle, TemporalEntry>, nodes: Nodes,
                        dead': set<TemporalEntry>)
    requires AllAt(heads, tails, lists, links) && AllDead(tails, lists, dead) && SameBut(h, tails, tails')
    requires dead <= dead' && forall e <- dead' :: e in dead || e.owner == h
    requires DeadAt(h, tails', lists[h := nodes], dead')
    ensures AllDead(tails', lists[h := nodes], dead')
  {
    hide Rank;
    hide Follows;
    var lists' := lists[h := nodes];
    forall k: Handle | k != h ensures DeadAt(k, tails', lists', dead') {
      assert HandleAt(k, heads, tails, lists, links) && DeadAt(k, tails, lists, dead);
    }
  }

  /** The tail kept for a handle: none, an entry of its list, or one that has left the list and held time. */
  datatype TailView = NoTail | OnList | OffList(time: Time)

  ghost predicate Latest(t: Time, times: set<Time>) {
    t in times && forall u <- times :: Rank(u) <= Rank(t)
  }

  /** Who removes times from a list decides what becomes of its tail. */
  datatype Removal = ByTime | ByHandle | ByHandlePrevious

  /**
   * The tail after some of the times of a list were removed. When its own entry goes, removal for all handles
   * drops it only with the whole list, removal for one handle always does, except for the PREVIOUS criteria.
   */
  ghost predicate TailAfter(how: Removal, times: set<Time>, removed: set<Time>, before: TailView, after: TailView) {
    if !before.OnList? || forall t <- removed :: !Latest(t, times) then after == before
    else if how.ByHandle? || (how.ByTime? && times <= removed) then after == NoTail
    else after.OffList? && after.time in removed && Latest(after.time, times)
  }

  /** Only times that are on the list matter to the tail. */
  lemma TailAfterOfList(how: Removal, times: set<Time>, removed: set<Time>, removed': set<Time>, before: TailView,
                        after: TailView)
    requires TailAfter(how, times, removed, before, after)
    requires forall t <- times :: t in removed <==> t in removed'
    ensures TailAfter(how, times, removed', before, after)
  {
    hide Rank;
  }

  lemma TailUntouched(how: Removal, times: set<Time>, removed: set<Time>, v: TailView)
    requires times !! removed
    ensures TailAfter(how, times, removed, v, v)
  {
  }

  ghost function ViewAt(h: Handle, tails: map<Handle, TemporalEntry>, lists: map<Handle, Nodes>): TailView {
    if h !in tails then NoTail
    else if Member(tails[h], At(lists, h, map[])) then OnList
    else OffList(tails[h].time)
  }

  /** Removing times one by one, from the earliest on, does to the tail what removing them together does. */
  lemma TailAfterOneMore(how: Removal, times: set<Time>, removed: set<Time>, t: Time, v0: TailView, v1: TailView,
                         v2: TailView)
    requires TailAfter(how, times, removed, v0, v1) && TailAfter(how, times - removed, {t}, v1, v2)
    requires forall u <- removed :: Rank(u) < Rank(t)
    requires how != ByHandlePrevious
    ensures TailAfter(how, times, removed + {t}, v0, v2)
  {
    hide Rank;
  }

  class HandleToEntries {
    var handleMap: map<Handle, TemporalEntry?>
    var tailHandleMap: map<Handle, TemporalEntry>

    ghost var lists: map<Handle, Nodes>
    ghost var links: Links
    ghost var dead: set<TemporalEntry>
    ghost var Repr: set<object>

    ghost function ListOf(h: Handle): Nodes
      reads this`lists
    {
      At(lists, h, map[])
    }

    ghost function HeadOf(h: Handle): TemporalEntry?
      reads this`handleMap
    {
      At(handleMap, h, null)
    }

    ghost predicate Valid()
      reads this, Repr
      ensures Valid() ==> this in Repr
    {
      && this in Repr && links.Keys <= Repr && Linked(links)
      && AllAt(handleMap, tailHandleMap, lists, links)
      && dead <= links.Keys && AllDead(tailHandleMap, lists, dead)
    }

    /** The tail of h, if it has one, is still on its list. */
    ghost predicate Current(h: Handle)
      reads this`tailHandleMap, this`lists
    {
      h in tailHandleMap ==> Member(tailHandleMap[h], ListOf(h))
    }

    ghost function View(h: Handle): TailView
      reads this`tailHandleMap, this`lists
    {
      ViewAt(h, tailHandleMap, lists)
    }

    constructor ()
      ensures Valid() && fresh(Repr)
      ensures lists == map[] && tailHandleMap == map[] && dead == {}
    {
      handleMap := map[];
      tailHandleMap := map[];
      lists := map[];
      links := map[];
      dead := {};
      Repr := {this};
    }

    /** The entries the tail of h belongs to: the list of h, or the tail alone once it has left that list. */
    ghost function TailNodes(h: Handle): Nodes
      requires h in tailHandleMap
      reads this`tailHandleMap, this`lists
    {
      var tail := tailHandleMap[h];
      if Member(tail, ListOf(h)) then ListOf(h) else map[tail.time := tail]
    }

    ghost function TailHead(h: Handle): TemporalEntry?
      requires h in tailHandleMap
      reads this`tailHandleMap, this`lists, this`handleMap
    {
      if Member(tailHandleMap[h], ListOf(h)) then HeadOf(h) else tailHandleMap[h]
    }

    /** A tail is dead just when it has left its list. */
    lemma DeadTails(h: Handle)
      requires Valid()
      ensures h in tailHandleMap && tailHandleMap[h] in dead <==> View(h).OffList?
    {
      hide AllAt;
      assert DeadAt(h, tailHandleMap, lists, dead);
    }

    lemma HandleListOk(h: Handle)
      requires Valid()
      ensures ListOk(HeadOf(h), ListOf(h), h) && ListOf(h).Values <= links.Keys
      ensures forall e <- links :: e.owner != h ==> e !in ListOf(h).Values
    {
      hide Rank;
      assert HandleAt(h, handleMap, tailHandleMap, lists, links);
      FromLinks(HeadOf(h), ListOf(h), h, links);
    }

    lemma TailListOk(h: Handle)
      requires Valid() && h in tailHandleMap
      ensures ListOk(TailHead(h), TailNodes(h), h) && TailNodes(h).Values <= links.Keys
      ensures forall e <- links :: e.owner != h ==> e !in TailNodes(h).Values
    {
      hide Rank;
      assert HandleAt(h, handleMap, tailHandleMap, lists, links);
      FromLinks(HeadOf(h), ListOf(h), h, links);
    }

    /** Stores what a change to entries has come to. */
    method Store(heads: map<Handle, TemporalEntry?>, tails: map<Handle, TemporalEntry>,
                 ghost lists': map<Handle, Nodes>, ghost links': Links, ghost dead': set<TemporalEntry>)
      requires AllAt(heads, tails, lists', links') && Linked(links') && this in Repr
      requires dead' <= links'.Keys && AllDead(tails, lists', dead')
      modifies this
      ensures Valid() && handleMap == heads && tailHandleMap == tails && lists == lists' && links == links'
      ensures dead == dead' && Repr == old(Repr) + links'.Keys
    {
      hide AllAt;
      hide AllDead;
      handleMap := heads;
      tailHandleMap := tails;
      lists := lists';
      links := links';
      dead := dead';
      Repr := Repr + links'.Keys;
    }

    /** Links t in behind tail, an entry of the list nodes made for h. */
    method AppendAfter(tail: TemporalEntry, t: Time, ghost h: Handle, ghost head: TemporalEntry?, ghost nodes: Nodes)
      returns (last: TemporalEntry, ghost nodes': Nodes, ghost links': Links)
      requires ListOk(head, nodes, h) && Member(tail, nodes) && Rank(tail.time) < Rank(t)
      requires Linked(links) && nodes.Values <= links.Keys
      modifies nodes.Values
      ensures nodes'.Keys == nodes.Keys + {t} && fresh(nodes'.Values - nodes.Values)
      ensures links'.Keys == links.Keys + nodes'.Values && Linked(links')
      ensures forall e <- links :: e !in nodes.Values ==> links'[e] == links[e]
      ensures ListAt(head, nodes', h, links') && last in links' && links'[last] == null && last.owner == h
      ensures Member(last, nodes') && (last in nodes.Values || last !in links)
    {
      hide Rank;
      hide ListAt;
      hide Follows;
      var same;
      same, nodes' := TemporalEntries.Add(tail, t, head, nodes, h);
      last := Last(tail, head, nodes', h);
      assert last in nodes'.Values;
      links' := LinksOf(links.Keys + nodes'.Values);
      ToLinks(head, nodes', h, links');
    }

    /** The list of h once its tail has moved on to last: nodes is that list if the tail is on it. */
    lemma TailMoved(h: Handle, live: bool, nodes: Nodes, last: TemporalEntry, links': Links)
      requires HandleAt(h, handleMap, tailHandleMap, lists, links) && h in tailHandleMap
      requires live == Member(tailHandleMap[h], ListOf(h))
      requires ListAt(TailHead(h), nodes, h, links') && Member(last, nodes) && links'[last] == null
      requires forall e <- links :: e !in TailNodes(h).Values ==> e in links' && links'[e] == links[e]
      requires last in TailNodes(h).Values || last !in links
      ensures ListAt(HeadOf(h), if live then nodes else ListOf(h), h, links')
      ensures live == Member(last, if live then nodes else ListOf(h))
    {
      hide Rank;
      hide Follows;
      if !live {
        SameLinks(HeadOf(h), ListOf(h), h, links, links');
      }
    }

    /** What becomes of the list and the tail of h is alive when the tail was, and dead otherwise. */
    lemma BehindTail(h: Handle, live: bool, nodes: Nodes, last: TemporalEntry, links': Links)
      requires HandleAt(h, handleMap, tailHandleMap, lists, links) && DeadAt(h, tailHandleMap, lists, dead)
        && dead <= links.Keys
      requires h in tailHandleMap && live == Member(tailHandleMap[h], ListOf(h))
      requires ListAt(HeadOf(h), if live then nodes else ListOf(h), h, links')
      requires live == Member(last, if live then nodes else ListOf(h))
      requires live ==> forall u <- nodes :: nodes[u] in ListOf(h).Values || nodes[u] !in links
      ensures DeadAt(h, tailHandleMap[h := last], lists[h := if live then nodes else ListOf(h)],
                     if live then dead else dead + {last})
    {
      hide Rank;
      hide Follows;
      if live {
        forall u | u in nodes ensures nodes[u] !in dead {
          if nodes[u] in ListOf(h).Values {
            var v :| v in ListOf(h) && ListOf(h)[v] == nodes[u];
          }
        }
      }
    }

    /** Adds t behind the tail of h. The list of h gets it only if that is where the tail is. */
    method AddBehindTail(h: Handle, t: Time)
      requires Valid() && h in tailHandleMap && Rank(tailHandleMap[h].time) < Rank(t)
      modifies Repr
      ensures Valid() && fresh(Repr - old(Repr))
      ensures SameBut(h, old(lists), lists) && SameBut(h, old(tailHandleMap), tailHandleMap)
      ensures ListOf(h).Keys == old(ListOf(h)).Keys + if old(Current(h)) then {t} else {}
      ensures h in tailHandleMap && (Current(h) <==> old(Current(h)))
      ensures dead == if old(Current(h)) then old(dead) else old(dead) + {tailHandleMap[h]}
    {
      hide Rank;
      hide ListAt;
      hide ListOk;
      hide Linked;
      hide SameBut;
      TailListOk(h);
      ghost var live := Member(tailHandleMap[h], ListOf(h));
      assert HandleAt(h, handleMap, tailHandleMap, lists, links);
      var last, nodes, links' := AppendAfter(tailHandleMap[h], t, h, TailHead(h), TailNodes(h));
      TailMoved(h, live, nodes, last, links');
      ghost var list := if live then nodes else ListOf(h);
      ghost var dead' := if live then dead else dead + {last};
      OneHandleChanged(h, handleMap, tailHandleMap, lists, links, HeadOf(h), last, list, links');
      BehindTail(h, live, nodes, last, links');
      OneHandleDead(h, handleMap, tailHandleMap, lists, links, dead, tailHandleMap[h := last], list, dead');
      Store(handleMap[h := if h in handleMap then handleMap[h] else null], tailHandleMap[h := last], lists[h := list],
            links', dead');
    }

    /** Inserts t into the list of h, in its place. */
    method InsertInto(te: TemporalEntry?, t: Time, ghost h: Handle, ghost nodes: Nodes)
      returns (r: TemporalEntry, ghost nodes': Nodes, ghost links': Links)
      requires ListOk(te, nodes, h) && Linked(links) && nodes.Values <= links.Keys
      modifies nodes.Values
      ensures nodes'.Keys == nodes.Keys + {t} && fresh(nodes'.Values - nodes.Values)
      ensures forall u <- nodes :: nodes'[u] == nodes[u]
      ensures forall u <- nodes' :: u !in nodes ==> nodes'[u] !in links
      ensures links'.Keys == links.Keys + nodes'.Values && Linked(links')
      ensures forall e <- links :: e !in nodes.Values ==> links'[e] == links[e]
      ensures ListOk(r, nodes', h) && ListAt(r, nodes', h, links') && Member(r, nodes')
    {
      hide Rank;
      hide ListAt;
      r, nodes' := TemporalEntries.Add(te, t, te, nodes, h);
      links' := LinksOf(links.Keys + nodes'.Values);
      ToLinks(r, nodes', h, links');
    }

    /** The last entry of a list is the one with no link. */
    lemma LastHasNoLink(head: TemporalEntry?, nodes: Nodes, h: Handle, links: Links, e: TemporalEntry)
      requires ListAt(head, nodes, h, links) && Member(e, nodes)
      requires forall u <- nodes :: Rank(u) <= Rank(e.time)
      ensures e in links && links[e] == null && e.owner == h
    {
      hide Rank;
    }

    /** Inserting t no later than the tail leaves nothing behind the tail, on the list or off it. */
    lemma TailKept(h: Handle, t: Time, r: TemporalEntry, nodes': Nodes, links': Links)
      requires HandleAt(h, handleMap, tailHandleMap, lists, links) && h in tailHandleMap
      requires Rank(t) <= Rank(tailHandleMap[h].time)
      requires ListAt(r, nodes', h, links') && nodes'.Keys == ListOf(h).Keys + {t}
      requires forall u <- ListOf(h) :: nodes'[u] == ListOf(h)[u]
      requires forall e <- links :: e !in ListOf(h).Values ==> e in links' && links'[e] == links[e]
      requires forall u <- nodes' :: u !in ListOf(h) ==> nodes'[u] !in links
      ensures tailHandleMap[h] in links' && links'[tailHandleMap[h]] == null
      ensures Member(tailHandleMap[h], ListOf(h)) <==> Member(tailHandleMap[h], nodes')
    {
      hide Rank;
      var tail := tailHandleMap[h];
      if Member(tail, ListOf(h)) {
        assert links[ListOf(h)[tail.time]] == null;
        LastHasNoLink(r, nodes', h, links', tail);
      }
    }

    /** A new entry is not dead, and the tail is the old one or on the list. */
    lemma InPlace(h: Handle, t: Time, nodes': Nodes, tail: TemporalEntry)
      requires DeadAt(h, tailHandleMap, lists, dead) && dead <= links.Keys
      requires nodes'.Keys == ListOf(h).Keys + {t} && forall u <- ListOf(h) :: nodes'[u] == ListOf(h)[u]
      requires forall u <- nodes' :: u !in ListOf(h) ==> nodes'[u] !in links
      requires if h in tailHandleMap then tail == tailHandleMap[h] else Member(tail, nodes')
      ensures DeadAt(h, tailHandleMap[h := tail], lists[h := nodes'], dead)
    {
    }

    /** Adds t to the list of h from its head, and finds the tail if there is none. */
    method AddInPlace(h: Handle, t: Time)
      requires Valid() && (h in tailHandleMap ==> Rank(t) <= Rank(tailHandleMap[h].time))
      modifies Repr
      ensures Valid() && fresh(Repr - old(Repr))
      ensures SameBut(h, old(lists), lists) && SameBut(h, old(tailHandleMap), tailHandleMap)
      ensures ListOf(h).Keys == old(ListOf(h)).Keys + {t}
      ensures Current(h) <==> old(Current(h))
      ensures h in tailHandleMap && (h in old(tailHandleMap) ==> tailHandleMap[h] == old(tailHandleMap)[h])
      ensures dead == old(dead)
    {
      hide Rank;
      hide ListAt;
      hide ListOk;
      hide Linked;
      hide SameBut;
      hide Follows;
      assert HandleAt(h, handleMap, tailHandleMap, lists, links);
      HandleListOk(h);
      var timeEntry := if h in handleMap then handleMap[h] else null;
      ghost var nodes, links';
      timeEntry, nodes, links' := InsertInto(timeEntry, t, h, ListOf(h));
      var tailTimeEntry: TemporalEntry;
      if h in tailHandleMap {
        tailTimeEntry := tailHandleMap[h];
        TailKept(h, t, timeEntry, nodes, links');
      } else {
        tailTimeEntry := Last(timeEntry, timeEntry, nodes, h);
        LastHasNoLink(timeEntry, nodes, h, links', tailTimeEntry);
      }
      OneHandleChanged(h, handleMap, tailHandleMap, lists, links, timeEntry, tailTimeEntry, nodes, links');
      InPlace(h, t, nodes, tailTimeEntry);
      OneHandleDead(h, handleMap, tailHandleMap, lists, links, dead, tailHandleMap[h := tailTimeEntry], nodes, dead);
      Store(handleMap[h := timeEntry], tailHandleMap[h := tailTimeEntry], lists[h := nodes], links', dead);
    }

    /** Whether adding t puts it on the list of h. */
    ghost predicate Lands(h: Handle, t: Time)
      reads this`tailHandleMap, this`lists
    {
      Current(h) || Rank(t) <= Rank(tailHandleMap[h].time)
    }

    /** The handle's part of addToMaps. */
    method Add(h: Handle, t: Time)
      requires Valid()
      modifies Repr
      ensures Valid() && fresh(Repr - old(Repr))
      ensures SameBut(h, old(lists), lists) && SameBut(h, old(tailHandleMap), tailHandleMap)
      ensures ListOf(h).Keys == old(ListOf(h)).Keys + if old(Lands(h, t)) then {t} else {}
      ensures old(Lands(h, t)) ==> View(h) == if old(View(h)).OffList? then old(View(h)) else OnList
      ensures old(Current(h)) ==> dead == old(dead)
    {
      hide Rank;
      hide Compare;
      hide AllAt;
      hide AllDead;
      hide SameBut;
      if h in tailHandleMap && Compare(t, tailHandleMap[h].time) > 0 {
        AddBehindTail(h, t);
      } else {
        AddInPlace(h, t);
      }
    }

    // While remove works on the list of h, it keeps the head of that list in a variable.

    ghost predicate ValidBut(h: Handle, te: TemporalEntry?)
      reads this, Repr
      ensures ValidBut(h, te) ==> this in Repr
    {
      && this in Repr && links.Keys <= Repr && Linked(links) && AllAt(handleMap[h := te], tailHandleMap, lists, links)
      && dead <= links.Keys && AllDead(tailHandleMap, lists, dead)
    }

    /** Takes t off the list of h, for the list itself. */
    method RemoveFrom(te: TemporalEntry?, t: Time, ghost h: Handle, ghost nodes: Nodes)
      returns (r: TemporalEntry?, ghost links': Links)
      requires ListOk(te, nodes, h) && Linked(links) && nodes.Values <= links.Keys
      modifies nodes.Values
      ensures links'.Keys == links.Keys && Linked(links')
      ensures forall e <- links :: e !in nodes.Values ==> links'[e] == links[e]
      ensures t in nodes ==> links'[nodes[t]] == null
      ensures ListAt(r, nodes - {t}, h, links')
    {
      hide Rank;
      hide ListAt;
      hide Follows;
      r := TemporalEntries.Remove(te, t, nodes, h);
      links' := LinksOf(links.Keys);
      assert (nodes - {t}).Values <= nodes.Values;
      ToLinks(r, nodes - {t}, h, links');
      if t in nodes {
        assert nodes[t] in nodes.Values;
      }
    }

    /** Taking t off the list leaves nothing behind the tail, on the list or off it. */
    lemma TailSurvives(h: Handle, t: Time, te: TemporalEntry?, r: TemporalEntry?, links': Links)
      requires HandleAt(h, handleMap[h := te], tailHandleMap, lists, links) && h in tailHandleMap
      requires ListAt(r, ListOf(h) - {t}, h, links')
      requires forall e <- links :: e !in ListOf(h).Values ==> e in links' && links'[e] == links[e]
      requires t in ListOf(h) ==> ListOf(h)[t] in links' && links'[ListOf(h)[t]] == null
      ensures tailHandleMap[h] in links' && links'[tailHandleMap[h]] == null && tailHandleMap[h].owner == h
    {
      hide Rank;
      var tail := tailHandleMap[h];
      if Member(tail, ListOf(h)) && tail.time != t {
        assert links[ListOf(h)[tail.time]] == null;
        LastHasNoLink(r, ListOf(h) - {t}, h, links', tail);
      }
    }

    lemma HeldListOk(h: Handle, te: TemporalEntry?)
      requires ValidBut(h, te)
      ensures ListOk(te, ListOf(h), h) && ListOf(h).Values <= links.Keys
      ensures forall e <- links :: e.owner != h ==> e !in ListOf(h).Values
    {
      hide Rank;
      assert HandleAt(h, handleMap[h := te], tailHandleMap, lists, links);
      FromLinks(te, ListOf(h), h, links);
    }

    /** What taking t off the list of h comes to for all handles. */
    lemma TimeDropped(h: Handle, te: TemporalEntry?, t: Time, r: TemporalEntry?, links': Links)
      requires AllAt(handleMap[h := te], tailHandleMap, lists, links)
      requires forall e <- links :: e.owner != h ==> e !in ListOf(h).Values
      requires ListAt(r, ListOf(h) - {t}, h, links')
      requires forall e <- links :: e !in ListOf(h).Values ==> e in links' && links'[e] == links[e]
      requires t in ListOf(h) ==> ListOf(h)[t] in links' && links'[ListOf(h)[t]] == null
      ensures AllAt(handleMap[h := r], tailHandleMap, lists[h := ListOf(h) - {t}], links')
    {
      hide Rank;
      hide ListAt;
      assert HandleAt(h, handleMap[h := te], tailHandleMap, lists, links);
      ghost var tail := if h in tailHandleMap then tailHandleMap[h] else null;
      if h in tailHandleMap {
        TailSurvives(h, t, te, r, links');
      }
      OneHandleChanged(h, handleMap[h := te], tailHandleMap, lists, links, r, tail, ListOf(h) - {t}, links');
      assert handleMap[h := te][h := r] == handleMap[h := r];
      assert WithTail(tailHandleMap, h, tail) == tailHandleMap;
    }

    /** The entry of t, unlinked and deleted, is dead from then on; no other entry of a list is. */
    lemma EntryDies(h: Handle, te: TemporalEntry?, t: Time, dead': set<TemporalEntry>)
      requires ValidBut(h, te) && dead' == dead + if t in ListOf(h) then {ListOf(h)[t]} else {}
      ensures dead' <= links.Keys && AllDead(tailHandleMap, lists[h := ListOf(h) - {t}], dead')
    {
      hide Rank;
      hide Follows;
      assert HandleAt(h, handleMap[h := te], tailHandleMap, lists, links) && DeadAt(h, tailHandleMap, lists, dead);
      OneHandleDead(h, handleMap[h := te], tailHandleMap, lists, links, dead, tailHandleMap, ListOf(h) - {t}, dead');
    }

    /** Takes t off the list of h, whose head is te; the tail stays as it is. */
    method DropTime(h: Handle, te: TemporalEntry?, t: Time) returns (r: TemporalEntry?)
      requires ValidBut(h, te)
      modifies Repr
      ensures ValidBut(h, r) && Repr == old(Repr)
      ensures lists == old(lists)[h := old(ListOf(h)) - {t}] && tailHandleMap == old(tailHandleMap)
        && handleMap == old(handleMap)
      ensures dead == old(dead) + if t in old(ListOf(h)) then {old(ListOf(h))[t]} else {}
    {
      hide Rank;
      hide ListAt;
      hide ListOk;
      hide Linked;
      hide AllAt;
      hide AllDead;
      HeldListOk(h, te);
      ghost var links', list: Nodes := links, ListOf(h);
      ghost var dead' := dead + if t in list then {list[t]} else {};
      EntryDies(h, te, t, dead');
      r, links' := RemoveFrom(te, t, h, list);
      TimeDropped(h, te, t, r, links');
      StoreLists(h, r, lists[h := list - {t}], links', dead');
    }

    ghost method StoreLists(h: Handle, te: TemporalEntry?, lists': map<Handle, Nodes>, links': Links,
                            dead': set<TemporalEntry>)
      requires AllAt(handleMap[h := te], tailHandleMap, lists', links') && Linked(links')
      requires this in Repr && links'.Keys <= Repr && dead' <= links'.Keys && AllDead(tailHandleMap, lists', dead')
      modifies this`lists, this`links, this`dead
      ensures ValidBut(h, te) && lists == lists' && links == links' && dead == dead'
    {
      hide AllAt;
      hide AllDead;
      lists := lists';
      links := links';
      dead := dead';
    }

    /** Starts the removal of times of h: te is the head of its list, tailTe its tail. */
    method Begin(h: Handle) returns (te: TemporalEntry?, tailTe: TemporalEntry?)
      requires Valid()
      ensures ValidBut(h, te) && te == HeadOf(h)
      ensures tailTe == if h in tailHandleMap then tailHandleMap[h] else null
    {
      hide AllAt;
      hide AllDead;
      te := if h in handleMap then handleMap[h] else null;
      tailTe := if h in tailHandleMap then tailHandleMap[h] else null;
      SameHeads(handleMap, handleMap[h := te], tailHandleMap, lists, links);
    }

    /** Ends it: the head goes back into the map, if there still is one. */
    method End(h: Handle, te: TemporalEntry?)
      requires ValidBut(h, te)
      modifies this`handleMap
      ensures Valid() && handleMap == if te != null then old(handleMap)[h := te] else old(handleMap) - {h}
    {
      hide AllAt;
      hide AllDead;
      SameHeads(handleMap[h := te], if te != null then handleMap[h := te] else handleMap - {h}, tailHandleMap, lists,
                links);
      handleMap := handleMap - {h};
      if te != null {
        handleMap := handleMap[h := te];
        assert handleMap == old(handleMap)[h := te];
      }
    }

    /** Takes the tail of h out of the tail map. */
    method ForgetTail(h: Handle, ghost te: TemporalEntry?)
      requires ValidBut(h, te)
      modifies this`tailHandleMap
      ensures ValidBut(h, te) && tailHandleMap == old(tailHandleMap) - {h}
    {
      hide AllAt;
      TailForgotten(h, handleMap[h := te], tailHandleMap, lists, links);
      TailGone(h);
      tailHandleMap := tailHandleMap - {h};
    }

    lemma TailGone(h: Handle)
      requires AllDead(tailHandleMap, lists, dead)
      ensures AllDead(tailHandleMap - {h}, lists, dead)
    {
      forall k: Handle ensures DeadAt(k, tailHandleMap - {h}, lists, dead) {
        assert DeadAt(k, tailHandleMap, lists, dead);
      }
    }

    /** The tail of a list is its latest entry, and its head te when the list has no other. */
    lemma TailIsLatest(h: Handle, te: TemporalEntry?)
      requires ValidBut(h, te) && h in tailHandleMap
      ensures Current(h) ==> Latest(tailHandleMap[h].time, ListOf(h).Keys)
      ensures Current(h) ==> forall u :: Latest(u, ListOf(h).Keys) ==> u == tailHandleMap[h].time
      ensures tailHandleMap[h] == te <==> Current(h) && ListOf(h).Keys == {tailHandleMap[h].time}
    {
      hide Rank;
      assert HandleAt(h, handleMap[h := te], tailHandleMap, lists, links);
      var tail := tailHandleMap[h];
      if Current(h) {
        assert links[ListOf(h)[tail.time]] == null;
        forall u | Latest(u, ListOf(h).Keys) ensures u == tail.time { assert Compare(u, tail.time) == 0; }
        if tail == te {
          forall u | u in ListOf(h) ensures u == tail.time { assert Compare(u, tail.time) == 0; }
        }
      }
    }

    /** One matching entry of the list of h goes, and the tail with it when that is the entry. */
    method RemoveEntry(h: Handle, te: TemporalEntry?, tmpTe: TemporalEntry, tailTe: TemporalEntry?)
      returns (r: TemporalEntry?)
      requires ValidBut(h, te) && Member(tmpTe, ListOf(h))
      requires h in tailHandleMap ==> tailHandleMap[h] == tailTe
      requires tailTe == tmpTe ==> h in tailHandleMap
      modifies Repr
      ensures ValidBut(h, r) && Repr == old(Repr) && handleMap == old(handleMap)
      ensures lists == old(lists)[h := old(ListOf(h)) - {tmpTe.time}]
      ensures SameBut(h, old(tailHandleMap), tailHandleMap)
      ensures tailHandleMap == if tailTe == tmpTe then old(tailHandleMap) - {h} else old(tailHandleMap)
      ensures TailAfter(ByHandle, old(ListOf(h)).Keys, {tmpTe.time}, old(View(h)), View(h))
      ensures dead == old(dead) + {tmpTe}
    {
      hide ValidBut;
      hide Rank;
      if h in tailHandleMap {
        TailIsLatest(h, te);
      }
      if tailTe != null && tailTe == tmpTe {
        ForgetTail(h, te);
      }
      r := DropTime(h, te, tmpTe.time);
    }

    /** For the PREVIOUS criteria the entry goes without a look at the tail. */
    method RemovePrevious(h: Handle, te: TemporalEntry?, previousTe: TemporalEntry) returns (r: TemporalEntry?)
      requires ValidBut(h, te) && Member(previousTe, ListOf(h))
      modifies Repr
      ensures ValidBut(h, r) && Repr == old(Repr) && handleMap == old(handleMap)
      ensures lists == old(lists)[h := old(ListOf(h)) - {previousTe.time}]
      ensures tailHandleMap == old(tailHandleMap)
      ensures TailAfter(ByHandlePrevious, old(ListOf(h)).Keys, {previousTe.time}, old(View(h)), View(h))
      ensures dead == old(dead) + {previousTe}
    {
      hide ValidBut;
      hide Rank;
      if h in tailHandleMap {
        TailIsLatest(h, te);
      }
      r := DropTime(h, te, previousTe.time);
    }

    /** Removal of t for every handle that has it treats h like this: the tail goes only when it is also the head. */
    method RemoveTime(h: Handle, t: Time)
      requires Valid() && t in ListOf(h)
      modifies Repr
      ensures Valid() && Repr == old(Repr)
      ensures SameBut(h, old(lists), lists) && ListOf(h) == old(ListOf(h)) - {t}
      ensures SameBut(h, old(tailHandleMap), tailHandleMap) && SameBut(h, old(handleMap), handleMap)
      ensures TailAfter(ByTime, old(ListOf(h)).Keys, {t}, old(View(h)), View(h))
      ensures dead == old(dead) + {old(ListOf(h))[t]}
    {
      hide ValidBut;
      hide AllAt;
      hide AllDead;
      hide Rank;
      var te, tailTe := Begin(h);
      if h in tailHandleMap {
        TailIsLatest(h, te);
      }
      if tailTe != null && tailTe == te {
        ForgetTail(h, te);
      }
      te := DropTime(h, te, t);
      End(h, te);
    }

    /** Takes t off the list of every handle of hs. */
    method RemoveTimeOfEach(hs: set<Handle>, t: Time)
      requires Valid() && forall h <- hs :: t in ListOf(h)
      modifies Repr
      ensures Valid() && Repr == old(Repr)
      ensures forall h: Handle :: ListOf(h) == if h in hs then old(ListOf(h)) - {t} else old(ListOf(h))
      ensures forall h: Handle :: if h in hs then TailAfter(ByTime, old(ListOf(h)).Keys, {t}, old(View(h)), View(h))
                                  else View(h) == old(View(h))
    {
      hide AllAt;
      hide AllDead;
      hide TailAfter;
      hide Linked;
      var todo := hs;
      while todo != {}
        invariant Valid() && Repr == old(Repr) && todo <= hs
        invariant forall h: Handle :: if h in hs - todo then ListOf(h) == old(ListOf(h)) - {t}
                                      else At(lists, h, map[]) == old(ListOf(h))
        invariant forall h: Handle ::
          if h in hs - todo then TailAfter(ByTime, old(ListOf(h)).Keys, {t}, old(View(h)), View(h))
                                      else View(h) == old(View(h))
      {
        var h :| h in todo;
        RemoveTime(h, t);
        todo := todo - {h};
      }
    }
  }
}
