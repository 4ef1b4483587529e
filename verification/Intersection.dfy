// Intersection of any number of sorted arrays, by one cursor for each:
// opencog/spacetime/TemporalEntry.cc:225-361 and HandleTemporalPairEntry.cc:212-335.
module Intersections {

  datatype Max<T> = Smallest | Value(value: T)

  /** compare tells elements apart and orders them as rank does. */
  ghost predicate Orders<T(!new)>(compare: (T, T) -> int, rank: T -> int) {
    forall x, y ::
      (compare(x, y) < 0 <==> rank(x) < rank(y)) && (compare(x, y) > 0 <==> rank(x) > rank(y))
        && (compare(x, y) == 0 <==> x == y)
  }

  ghost predicate Sorted<T(!new)>(s: seq<T>, rank: T -> int) {
    forall i, j :: 0 <= i < j < |s| ==> rank(s[i]) <= rank(s[j])
  }

  ghost predicate CursorsOk<T(!new)>(sets: seq<seq<T>>, cursors: seq<nat>) {
    |cursors| == |sets| > 0 && forall j :: 0 <= j < |sets| ==> cursors[j] <= |sets[j]|
  }

  ghost function Count<T(!new)>(s: seq<T>, from: nat, x: T): nat
    requires from <= |s|
  {
    multiset(s[from..])[x]
  }

  /** Every array has at least n unread copies of x. */
  ghost predicate Has<T(!new)>(sets: seq<seq<T>>, cursors: seq<nat>, x: T, n: nat)
    requires CursorsOk(sets, cursors)
  {
    forall j :: 0 <= j < |sets| ==> n <= Count(sets[j], cursors[j], x)
  }

  lemma CountStep<T(!new)>(s: seq<T>, from: nat, x: T)
    requires from < |s|
    ensures Count(s, from, x) == Count(s, from + 1, x) + if s[from] == x then 1 else 0
  {
    assert s[from..] == [s[from]] + s[from + 1..];
  }

  /** Nothing before the next unread element is left. */
  lemma NoneBelow<T(!new)>(s: seq<T>, from: nat, x: T, rank: T -> int)
    requires from < |s| && Sorted(s, rank) && rank(x) < rank(s[from])
    ensures Count(s, from, x) == 0
  {
    forall i | 0 <= i < |s[from..]| ensures s[from..][i] != x {
      assert rank(s[from]) <= rank(s[from + i]);
    }
    assert x !in s[from..];
  }

  /** How many elements are unread. */
  ghost function Unread<T(!new)>(sets: seq<seq<T>>, cursors: seq<nat>): nat
    requires |cursors| == |sets| && forall j :: 0 <= j < |sets| ==> cursors[j] <= |sets[j]|
  {
    if sets == [] then 0
    else |sets[|sets| - 1]| - cursors[|sets| - 1] + Unread(sets[..|sets| - 1], cursors[..|sets| - 1])
  }

  /** Cursors only move ahead; then there is less to read. */
  ghost predicate Ahead(cursors: seq<nat>, cursors': seq<nat>) {
    |cursors'| == |cursors| && forall j :: 0 <= j < |cursors| ==> cursors[j] <= cursors'[j]
  }

  lemma {:induction false} LessUnread<T(!new)>(sets: seq<seq<T>>, cursors: seq<nat>, cursors': seq<nat>)
    requires |cursors| == |sets| && (forall j :: 0 <= j < |sets| ==> cursors[j] <= |sets[j]|)
    requires Ahead(cursors, cursors') && forall j :: 0 <= j < |sets| ==> cursors'[j] <= |sets[j]|
    ensures Unread(sets, cursors') <= Unread(sets, cursors)
    ensures cursors' != cursors ==> Unread(sets, cursors') < Unread(sets, cursors)
  {
    if sets != [] {
      var n := |sets| - 1;
      LessUnread(sets[..n], cursors[..n], cursors'[..n]);
      if cursors' != cursors && cursors'[n] == cursors[n] {
        assert cursors == cursors[..n] + [cursors[n]] && cursors' == cursors'[..n] + [cursors'[n]];
      }
    }
  }

  /** The largest of the next elements, and whether they differ; it stops at an array that has been read. */
  method Largest<T(!new, ==)>(sets: seq<seq<T>>, cursors: array<nat>, compare: (T, T) -> int, ghost rank: T -> int)
    returns (over: bool, fail: bool, max: Max<T>, ghost at: nat)
    requires CursorsOk(sets, cursors[..]) && Orders(compare, rank)
    ensures over ==> at < |sets| && cursors[at] == |sets[at]|
    ensures !over ==> forall j :: 0 <= j < |sets| ==> cursors[j] < |sets[j]|
    ensures !over ==> at < |sets| && max == Value(sets[at][cursors[at]])
    ensures !over ==> forall j :: 0 <= j < |sets| ==> rank(sets[j][cursors[j]]) <= rank(max.value)
    ensures !over ==> (fail <==> exists j :: 0 <= j < |sets| && sets[j][cursors[j]] != sets[0][cursors[0]])
  {
    fail, max, at := false, Smallest, 0;
    var j := 0;
    while j < |sets|
      invariant 0 <= j <= |sets|
      invariant forall i :: 0 <= i < j ==> cursors[i] < |sets[i]|
      invariant j == 0 ==> max.Smallest?
      invariant j > 0 ==> at < j && max == Value(sets[at][cursors[at]])
      invariant j > 0 ==> forall i :: 0 <= i < j ==> rank(sets[i][cursors[i]]) <= rank(max.value)
      invariant fail <==> exists i :: 0 <= i < j && sets[i][cursors[i]] != sets[0][cursors[0]]
    {
      if cursors[j] >= |sets[j]| {
        return true, fail, max, j;
      }
      if max.Smallest? || compare(sets[j][cursors[j]], max.value) > 0 {
        max, at := Value(sets[j][cursors[j]]), j;
      }
      if compare(sets[0][cursors[0]], sets[j][cursors[j]]) != 0 {
        fail := true;
      }
      j := j + 1;
    }
    over := false;
  }

  /** Skipping an element below one that another array has next takes nothing the arrays have in common. */
  lemma SkipKeepsCommon<T(!new)>(sets: seq<seq<T>>, cursors: seq<nat>, j: nat, max: T, at: nat, rank: T -> int)
    requires CursorsOk(sets, cursors) && j < |sets| && cursors[j] < |sets[j]|
    requires at < |sets| && Sorted(sets[at], rank) && cursors[at] < |sets[at]| && sets[at][cursors[at]] == max
    requires rank(sets[j][cursors[j]]) < rank(max)
    ensures CursorsOk(sets, cursors[j := cursors[j] + 1])
    ensures forall x, n: nat :: n > 0 ==> (Has(sets, cursors[j := cursors[j] + 1], x, n) <==> Has(sets, cursors, x, n))
  {
    var y, next := sets[j][cursors[j]], cursors[j := cursors[j] + 1];
    NoneBelow(sets[at], cursors[at], y, rank);
    forall x, n: nat | n > 0
      ensures Has(sets, next, x, n) <==> Has(sets, cursors, x, n)
    {
      CountStep(sets[j], cursors[j], x);
      assert Count(sets[at], next[at], x) == Count(sets[at], cursors[at], x);
      if x != y {
        assert forall i :: 0 <= i < |sets| ==> Count(sets[i], next[i], x) == Count(sets[i], cursors[i], x);
      }
    }
  }

  /** The same elements in common, each as often. */
  ghost predicate SameCommon<T(!new)>(sets: seq<seq<T>>, cursors: seq<nat>, cursors': seq<nat>)
    requires CursorsOk(sets, cursors) && CursorsOk(sets, cursors')
  {
    forall x, n: nat :: n > 0 ==> (Has(sets, cursors', x, n) <==> Has(sets, cursors, x, n))
  }

  /** Moves the cursor of one array to the first element not below max. */
  method SkipTo<T(!new, ==)>(sets: seq<seq<T>>, cursors: array<nat>, j: nat, max: T, compare: (T, T) -> int,
                             ghost rank: T -> int, ghost at: nat)
    returns (over: bool)
    requires CursorsOk(sets, cursors[..]) && Orders(compare, rank) && j < |sets| && cursors[j] < |sets[j]|
    requires at < |sets| && Sorted(sets[at], rank) && cursors[at] < |sets[at]| && sets[at][cursors[at]] == max
    modifies cursors
    ensures CursorsOk(sets, cursors[..]) && Ahead(old(cursors[..]), cursors[..])
    ensures forall i :: 0 <= i < |sets| && i != j ==> cursors[i] == old(cursors[i])
    ensures SameCommon(sets, old(cursors[..]), cursors[..])
    ensures cursors[at] == old(cursors[at])
    ensures over ==> cursors[j] == |sets[j]|
    ensures !over ==>
      cursors[j] < |sets[j]| && (rank(old(sets[j][cursors[j]])) < rank(max) ==> old(cursors[j]) < cursors[j])
  {
    while compare(sets[j][cursors[j]], max) < 0
      invariant CursorsOk(sets, cursors[..]) && cursors[j] < |sets[j]|
      invariant forall i :: 0 <= i < |sets| && i != j ==> cursors[i] == old(cursors[i])
      invariant SameCommon(sets, old(cursors[..]), cursors[..])
      invariant cursors[at] == old(cursors[at]) && old(cursors[j]) <= cursors[j]
      invariant rank(old(sets[j][cursors[j]])) < rank(max) && cursors[j] == old(cursors[j]) ==>
        rank(sets[j][cursors[j]]) < rank(max)
      decreases |sets[j]| - cursors[j]
    {
      ghost var before := cursors[..];
      SkipKeepsCommon(sets, before, j, max, at, rank);
      cursors[j] := cursors[j] + 1;
      assert cursors[..] == before[j := before[j] + 1];
      if cursors[j] >= |sets[j]| {
        return true;
      }
    }
    over := false;
  }

  /** Moves all cursors to elements not below max, one of the next elements. */
  method Reposition<T(!new, ==)>(sets: seq<seq<T>>, cursors: array<nat>, max: T, compare: (T, T) -> int,
                                 ghost rank: T -> int, ghost at: nat)
    returns (over: bool)
    requires CursorsOk(sets, cursors[..]) && Orders(compare, rank)
    requires forall j :: 0 <= j < |sets| ==> cursors[j] < |sets[j]| && Sorted(sets[j], rank)
    requires at < |sets| && sets[at][cursors[at]] == max
    modifies cursors
    ensures CursorsOk(sets, cursors[..]) && Ahead(old(cursors[..]), cursors[..])
    ensures SameCommon(sets, old(cursors[..]), cursors[..])
    ensures over ==> exists j :: 0 <= j < |sets| && cursors[j] == |sets[j]|
    ensures !over ==> forall j :: 0 <= j < |sets| && rank(old(sets[j][cursors[j]])) < rank(max) ==>
      old(cursors[j]) < cursors[j]
  {
    hide Count;
    hide SameCommon;
    var j := 0;
    assert SameCommon(sets, cursors[..], cursors[..]) by { SameCommonRefl(sets, cursors[..]); }
    while j < |sets|
      invariant 0 <= j <= |sets|
      invariant CursorsOk(sets, cursors[..]) && Ahead(old(cursors[..]), cursors[..])
      invariant SameCommon(sets, old(cursors[..]), cursors[..])
      invariant forall i :: 0 <= i < |sets| ==> cursors[i] < |sets[i]|
      invariant forall i :: j <= i < |sets| ==> cursors[i] == old(cursors[i])
      invariant cursors[at] == old(cursors[at])
      invariant forall i :: 0 <= i < j && rank(old(sets[i][cursors[i]])) < rank(max) ==> old(cursors[i]) < cursors[i]
    {
      ghost var before := cursors[..];
      over := SkipTo(sets, cursors, j, max, compare, rank, at);
      SameCommonTrans(sets, old(cursors[..]), before, cursors[..]);
      if over {
        return;
      }
      j := j + 1;
    }
    over := false;
  }

  lemma SameCommonRefl<T(!new)>(sets: seq<seq<T>>, a: seq<nat>)
    requires CursorsOk(sets, a)
    ensures SameCommon(sets, a, a)
  {
  }

  lemma SameCommonTrans<T(!new)>(sets: seq<seq<T>>, a: seq<nat>, b: seq<nat>, c: seq<nat>)
    requires CursorsOk(sets, a) && CursorsOk(sets, b) && CursorsOk(sets, c)
    requires SameCommon(sets, a, b) && SameCommon(sets, b, c)
    ensures SameCommon(sets, a, c)
  {
  }

  /** An array that has been read has nothing in common with the others. */
  lemma NothingCommon<T(!new)>(sets: seq<seq<T>>, cursors: seq<nat>, j: nat)
    requires CursorsOk(sets, cursors) && j < |sets| && cursors[j] == |sets[j]|
    ensures forall x, n: nat :: n > 0 ==> !Has(sets, cursors, x, n)
  {
    forall x ensures Count(sets[j], cursors[j], x) == 0 {
    }
  }

  /** One y less in common. */
  ghost predicate TakesOne<T(!new)>(sets: seq<seq<T>>, cursors: seq<nat>, y: T, cursors': seq<nat>)
    requires CursorsOk(sets, cursors) && CursorsOk(sets, cursors')
  {
    forall x, n: nat :: Has(sets, cursors, x, n + if x == y then 1 else 0) <==> Has(sets, cursors', x, n)
  }

  lemma SameThenTakesOne<T(!new)>(sets: seq<seq<T>>, a: seq<nat>, b: seq<nat>, y: T, c: seq<nat>)
    requires CursorsOk(sets, a) && CursorsOk(sets, b) && CursorsOk(sets, c)
    requires SameCommon(sets, a, b) && TakesOne(sets, b, y, c)
    ensures TakesOne(sets, a, y, c)
  {
    forall x, n: nat
      ensures Has(sets, a, x, n + if x == y then 1 else 0) <==> Has(sets, c, x, n)
    {
      assert Has(sets, b, x, n + if x == y then 1 else 0) <==> Has(sets, c, x, n);
      assert Has(sets, a, x, 0) && Has(sets, b, x, 0);
    }
  }

  /** All arrays have y next: one copy of it goes. */
  lemma MatchTakesOne<T(!new)>(sets: seq<seq<T>>, cursors: seq<nat>, y: T, cursors': seq<nat>, rank: T -> int)
    requires CursorsOk(sets, cursors) && |cursors'| == |cursors|
    requires forall j :: 0 <= j < |sets| ==>
      cursors[j] < |sets[j]| && sets[j][cursors[j]] == y && cursors'[j] == cursors[j] + 1
    requires forall j :: 0 <= j < |sets| ==> Sorted(sets[j], rank)
    ensures CursorsOk(sets, cursors')
    ensures TakesOne(sets, cursors, y, cursors')
    ensures forall x :: Has(sets, cursors', x, 1) ==> rank(y) <= rank(x)
  {
    forall x, n: nat
      ensures Has(sets, cursors, x, n + if x == y then 1 else 0) <==> Has(sets, cursors', x, n)
    {
      forall j | 0 <= j < |sets| ensures Count(sets[j], cursors[j], x)
        == Count(sets[j], cursors'[j], x) + if x == y then 1 else 0 {
        CountStep(sets[j], cursors[j], x);
      }
    }
    forall x | Has(sets, cursors', x, 1) ensures rank(y) <= rank(x) {
      assert Count(sets[0], cursors'[0], x) >= 1;
      CountStep(sets[0], cursors[0], x);
      if rank(x) < rank(y) {
        NoneBelow(sets[0], cursors[0], x, rank);
      }
    }
  }

  /** The position in the first array of the next element all arrays have in common; -1 when there is none left. */
  method NextMatch<T(!new, ==)>(sets: seq<seq<T>>, cursors: array<nat>, compare: (T, T) -> int, ghost rank: T -> int)
    returns (pos: int)
    requires CursorsOk(sets, cursors[..]) && Orders(compare, rank)
    requires forall j :: 0 <= j < |sets| ==> Sorted(sets[j], rank)
    modifies cursors
    ensures CursorsOk(sets, cursors[..]) && Ahead(old(cursors[..]), cursors[..])
    ensures pos < 0 ==> forall x, n: nat :: n > 0 ==> !Has(sets, old(cursors[..]), x, n)
    ensures pos >= 0 ==> pos < |sets[0]| && cursors[0] == pos + 1 && old(cursors[0]) <= pos
    ensures pos >= 0 ==> TakesOne(sets, old(cursors[..]), sets[0][pos], cursors[..])
    ensures pos >= 0 ==> forall x :: Has(sets, cursors[..], x, 1) ==> rank(sets[0][pos]) <= rank(x)
  {
    hide Count;
    hide Has;
    hide Sorted;
    SameCommonRefl(sets, cursors[..]);
    while true
      invariant CursorsOk(sets, cursors[..]) && Ahead(old(cursors[..]), cursors[..])
      invariant SameCommon(sets, old(cursors[..]), cursors[..])
      decreases Unread(sets, cursors[..])
    {
      ghost var before := cursors[..];
      var over, fail, max;
      ghost var at;
      over, fail, max, at := Largest(sets, cursors, compare, rank);
      if over {
        NothingCommon(sets, cursors[..], at);
        return -1;
      }
      if fail {
        over := Reposition(sets, cursors, max.value, compare, rank, at);
        SameCommonTrans(sets, old(cursors[..]), before, cursors[..]);
        if over {
          ghost var j :| 0 <= j < |sets| && cursors[j] == |sets[j]|;
          NothingCommon(sets, cursors[..], j);
          return -1;
        }
        Progress(sets, before, cursors[..], max.value, compare, rank);
      } else {
        Increment(sets, cursors);
        MatchTakesOne(sets, before, sets[0][before[0]], cursors[..], rank);
        SameThenTakesOne(sets, old(cursors[..]), before, sets[0][before[0]], cursors[..]);
        return cursors[0] - 1;
      }
    }
  }

  /** When the next elements differ, one of them is below the largest. */
  lemma Progress<T(!new)>(sets: seq<seq<T>>, before: seq<nat>, after: seq<nat>, max: T, compare: (T, T) -> int,
                          rank: T -> int)
    requires CursorsOk(sets, before) && CursorsOk(sets, after) && Ahead(before, after) && Orders(compare, rank)
    requires forall j :: 0 <= j < |sets| ==> before[j] < |sets[j]| && rank(sets[j][before[j]]) <= rank(max)
    requires exists j :: 0 <= j < |sets| && sets[j][before[j]] != sets[0][before[0]]
    requires forall j :: 0 <= j < |sets| && rank(sets[j][before[j]]) < rank(max) ==> before[j] < after[j]
    ensures Unread(sets, after) < Unread(sets, before)
  {
    var j :| 0 <= j < |sets| && sets[j][before[j]] != sets[0][before[0]];
    assert compare(sets[j][before[j]], sets[0][before[0]]) != 0 && compare(sets[0][before[0]], sets[j][before[j]]) != 0;
    assert after[j] > before[j] || after[0] > before[0];
    LessUnread(sets, before, after);
  }

  method Increment<T(!new)>(sets: seq<seq<T>>, cursors: array<nat>)
    requires CursorsOk(sets, cursors[..]) && forall j :: 0 <= j < |sets| ==> cursors[j] < |sets[j]|
    modifies cursors
    ensures forall j :: 0 <= j < |sets| ==> cursors[j] == old(cursors[j]) + 1
  {
    var j := 0;
    while j < |sets|
      invariant 0 <= j <= |sets|
      invariant forall i :: 0 <= i < |sets| ==> cursors[i] == old(cursors[i]) + if i < j then 1 else 0
    {
      cursors[j] := cursors[j] + 1;
      j := j + 1;
    }
  }

  ghost predicate InAll<T(!new)>(sets: seq<seq<T>>, x: T, n: nat) {
    forall j :: 0 <= j < |sets| ==> n <= multiset(sets[j])[x]
  }

  /** As many copies of everything as all arrays have. */
  ghost predicate IsIntersection<T(!new)>(answer: seq<T>, sets: seq<seq<T>>) {
    forall x, n: nat :: n <= multiset(answer)[x] <==> InAll(sets, x, n)
  }

  /** What the arrays had in common is in the answer or still unread. */
  ghost predicate Split<T(!new)>(answer: seq<T>, sets: seq<seq<T>>, start: seq<nat>, cursors: seq<nat>)
    requires CursorsOk(sets, start) && CursorsOk(sets, cursors)
  {
    forall x, n: nat :: Has(sets, start, x, n + multiset(answer)[x]) <==> Has(sets, cursors, x, n)
  }

  lemma SplitStep<T(!new)>(answer: seq<T>, sets: seq<seq<T>>, start: seq<nat>, before: seq<nat>, y: T, after: seq<nat>)
    requires CursorsOk(sets, start) && CursorsOk(sets, before) && CursorsOk(sets, after)
    requires Split(answer, sets, start, before) && TakesOne(sets, before, y, after)
    ensures Split(answer + [y], sets, start, after)
    ensures Has(sets, before, y, 1)
    ensures forall x :: Has(sets, after, x, 1) ==> Has(sets, before, x, 1)
  {
    forall x, n: nat
      ensures Has(sets, start, x, n + multiset(answer + [y])[x]) <==> Has(sets, after, x, n)
    {
      var m: nat := n + if x == y then 1 else 0;
      assert n + multiset(answer + [y])[x] == m + multiset(answer)[x];
      assert Has(sets, start, x, m + multiset(answer)[x]) <==> Has(sets, before, x, m);
      assert Has(sets, before, x, n + if x == y then 1 else 0) <==> Has(sets, after, x, n);
    }
    assert Has(sets, after, y, 0);
    assert Has(sets, before, y, 0 + if y == y then 1 else 0) <==> Has(sets, after, y, 0);
    forall x | Has(sets, after, x, 1) ensures Has(sets, before, x, 1) {
      assert Has(sets, before, x, 1 + if x == y then 1 else 0) <==> Has(sets, after, x, 1);
    }
  }

  lemma SplitStarts<T(!new)>(sets: seq<seq<T>>, start: seq<nat>, rank: T -> int)
    requires CursorsOk(sets, start)
    ensures Split([], sets, start, start) && AnswerOk([], sets, start, rank)
  {
    forall x, n: nat
      ensures Has(sets, start, x, n + multiset([])[x]) <==> Has(sets, start, x, n)
    {
      assert n + multiset([])[x] == n;
    }
  }

  lemma SplitDone<T(!new)>(answer: seq<T>, sets: seq<seq<T>>, start: seq<nat>, cursors: seq<nat>, rank: T -> int)
    requires CursorsOk(sets, start) && CursorsOk(sets, cursors) && AnswerOk(answer, sets, cursors, rank)
      && (forall j :: 0 <= j < |start| ==> start[j] == 0)
    requires Split(answer, sets, start, cursors) && forall x, n: nat :: n > 0 ==> !Has(sets, cursors, x, n)
    ensures IsIntersection(answer, sets) && Sorted(answer, rank)
  {
    forall x, n: nat
      ensures n <= multiset(answer)[x] <==> InAll(sets, x, n)
    {
      forall j | 0 <= j < |sets| ensures Count(sets[j], start[j], x) == multiset(sets[j])[x] {
        assert sets[j][0..] == sets[j];
      }
      assert Has(sets, cursors, x, 0);
      assert Has(sets, start, x, 0 + multiset(answer)[x]);
      if n > multiset(answer)[x] {
        assert Has(sets, start, x, (n - multiset(answer)[x]) + multiset(answer)[x])
          <==> Has(sets, cursors, x, n - multiset(answer)[x]);
      }
    }
  }

  /** The answer is in order, and so is what may come after it. */
  ghost predicate AnswerOk<T(!new)>(answer: seq<T>, sets: seq<seq<T>>, cursors: seq<nat>, rank: T -> int)
    requires CursorsOk(sets, cursors)
  {
    Sorted(answer, rank) && forall i, x :: 0 <= i < |answer| && Has(sets, cursors, x, 1) ==> rank(answer[i]) <= rank(x)
  }

  lemma AnswerOkStep<T(!new)>(answer: seq<T>, sets: seq<seq<T>>, before: seq<nat>, y: T, after: seq<nat>,
                              rank: T -> int)
    requires CursorsOk(sets, before) && CursorsOk(sets, after) && AnswerOk(answer, sets, before, rank)
    requires Has(sets, before, y, 1) && forall x :: Has(sets, after, x, 1) ==>
      Has(sets, before, x, 1) && rank(y) <= rank(x)
    ensures AnswerOk(answer + [y], sets, after, rank)
  {
    hide Has;
  }

  /** All common elements, in order, each as often as every array has it. */
  method Intersection<T(!new, ==)>(sets: seq<seq<T>>, compare: (T, T) -> int, ghost rank: T -> int)
    returns (answer: seq<T>)
    requires sets != [] && Orders(compare, rank) && forall j :: 0 <= j < |sets| ==> Sorted(sets[j], rank)
    ensures IsIntersection(answer, sets) && Sorted(answer, rank)
  {
    hide Count;
    hide Has;
    hide Split;
    hide AnswerOk;
    answer := [];
    var cursors := new nat[|sets|](_ => 0);
    ghost var start := cursors[..];
    SplitStarts(sets, start, rank);
    while true
      invariant CursorsOk(sets, cursors[..]) && Split(answer, sets, start, cursors[..])
      invariant AnswerOk(answer, sets, cursors[..], rank)
      decreases Unread(sets, cursors[..])
    {
      ghost var before := cursors[..];
      var pos := NextMatch(sets, cursors, compare, rank);
      if pos < 0 {
        SplitDone(answer, sets, start, before, rank);
        return;
      }
      SplitStep(answer, sets, start, before, sets[0][pos], cursors[..]);
      LessUnread(sets, before, cursors[..]);
      AnswerOkStep(answer, sets, before, sets[0][pos], cursors[..], rank);
      answer := answer + [sets[0][pos]];
    }
  }

  ghost predicate NoDuplicates<T(!new)>(s: seq<T>) {
    forall i, j :: 0 <= i < j < |s| ==> s[i] != s[j]
  }

  lemma {:induction false} NoDuplicatesIsAtMostOne<T(!new)>(s: seq<T>)
    ensures NoDuplicates(s) <==> forall x :: multiset(s)[x] <= 1
  {
    if s != [] {
      var n := |s| - 1;
      NoDuplicatesIsAtMostOne(s[..n]);
      assert s == s[..n] + [s[n]];
      assert s[n] in s[..n] <==> multiset(s[..n])[s[n]] > 0;
      assert forall x :: multiset(s)[x] == multiset(s[..n])[x] + if x == s[n] then 1 else 0;
      assert NoDuplicates(s) ==> s[n] !in s[..n];
      if NoDuplicates(s[..n]) && s[n] !in s[..n] {
        forall i, j | 0 <= i < j < |s| ensures s[i] != s[j] {
          assert s[i] == s[..n][i];
        }
      }
      if NoDuplicates(s) {
        forall i, j | 0 <= i < j < n ensures s[..n][i] != s[..n][j] {
          assert s[i] != s[j];
        }
      }
    }
  }

  /** For arrays without duplicates the answer has none either: it is the intersection of sets. */
  lemma WithoutDuplicates<T(!new)>(answer: seq<T>, sets: seq<seq<T>>)
    requires sets != [] && IsIntersection(answer, sets)
    requires forall j :: 0 <= j < |sets| ==> NoDuplicates(sets[j])
    ensures forall x :: x in answer <==> forall j :: 0 <= j < |sets| ==> x in sets[j]
    ensures NoDuplicates(answer)
  {
    forall x ensures x in answer <==> forall j :: 0 <= j < |sets| ==> x in sets[j] {
      assert 1 <= multiset(answer)[x] <==> InAll(sets, x, 1);
    }
    NoDuplicatesIsAtMostOne(sets[0]);
    forall x ensures multiset(answer)[x] <= 1 {
      assert 2 <= multiset(answer)[x] <==> InAll(sets, x, 2);
    }
    NoDuplicatesIsAtMostOne(answer);
  }
}
