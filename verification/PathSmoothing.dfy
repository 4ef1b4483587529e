// Shortening a path by lines of sight: opencog/spatial/HPASearch.cc:516-557.
module PathSmoothing {

  /** Positions of a path in order, each reached from the one before by a single step or along a line that was free. */
  ghost predicate Shortcut<T(!new)>(kept: seq<nat>, path: seq<T>, collided: (T, T) -> bool) {
    && (forall k :: 0 <= k < |kept| ==> kept[k] < |path|)
    && (forall k :: 0 <= k < |kept| - 1 ==> kept[k] < kept[k + 1])
    && (forall k :: 0 <= k < |kept| - 1 ==> kept[k + 1] == kept[k] + 1 || !collided(path[kept[k]], path[kept[k + 1]]))
  }

  /**
   * The point behind b is the first that is hidden from the first point from a on from which anything is hidden, points
   * right behind one another aside.
   */
  ghost predicate Blocked<T(!new)>(a: nat, b: nat, path: seq<T>, collided: (T, T) -> bool) {
    b + 1 < |path| && exists i :: a <= i < b && HidesFirst(i, a, b, path, collided)
  }

  ghost predicate HidesFirst<T(!new)>(i: nat, a: nat, b: nat, path: seq<T>, collided: (T, T) -> bool)
    requires i < b < |path| - 1
  {
    && collided(path[i], path[b + 1]) && (forall k :: i + 2 <= k <= b ==> !collided(path[i], path[k]))
    && AllSeeToEnd(a, i, path, collided)
  }

  /** Nothing is in the way from a position to any position behind the next one. */
  ghost predicate SeesToEnd<T(!new)>(i: nat, path: seq<T>, collided: (T, T) -> bool)
    requires i < |path|
  {
    forall k :: i + 2 <= k < |path| ==> !collided(path[i], path[k])
  }

  ghost predicate AllSeeToEnd<T(!new)>(a: nat, b: nat, path: seq<T>, collided: (T, T) -> bool)
    requires b <= |path|
  {
    forall k :: a <= k < b ==> SeesToEnd(k, path, collided)
  }

  /** No position but the first and the last is kept without an obstacle that calls for it. */
  ghost predicate Needed<T(!new)>(kept: seq<nat>, n: nat, path: seq<T>, collided: (T, T) -> bool)
    requires n <= |kept|
  {
    forall k :: 1 <= k < n ==> Blocked(kept[k - 1], kept[k], path, collided)
  }

  /** The points of a path at some positions. */
  ghost function Points<T>(kept: seq<nat>, path: seq<T>): seq<T>
    decreases |kept|
  {
    if kept == [] || kept[|kept| - 1] >= |path| then [] else Points(kept[..|kept| - 1], path) + [path[kept[|kept| - 1]]]
  }

  lemma {:induction false} PointsAreKept<T(!new)>(kept: seq<nat>, path: seq<T>)
    requires forall k :: 0 <= k < |kept| ==> kept[k] < |path|
    ensures |Points(kept, path)| == |kept| && forall k :: 0 <= k < |kept| ==> Points(kept, path)[k] == path[kept[k]]
    decreases |kept|
  {
    if kept != [] {
      PointsAreKept(kept[..|kept| - 1], path);
    }
  }

  lemma OneMore<T(!new)>(kept: seq<nat>, m: nat, path: seq<T>, collided: (T, T) -> bool)
    requires Shortcut(kept, path, collided) && kept != [] && kept[|kept| - 1] < m < |path|
    requires m == kept[|kept| - 1] + 1 || !collided(path[kept[|kept| - 1]], path[m])
    ensures Shortcut(kept + [m], path, collided)
    ensures Points(kept + [m], path) == Points(kept, path) + [path[m]]
  {
  }

  /**
   * Where a run over the path stands: what is kept starts at 0, and all positions passed since see to the end.
   */
  ghost predicate SmoothingOk<T(!new)>(i: nat, kept: seq<nat>, path: seq<T>, collided: (T, T) -> bool) {
    && kept != [] && kept[0] == 0 && Shortcut(kept, path, collided) && Needed(kept, |kept|, path, collided)
    && kept[|kept| - 1] <= i && kept[|kept| - 1] < |path| - 1
    && i <= |path| && AllSeeToEnd(kept[|kept| - 1], i, path, collided)
  }

  /** The collision seen from i at j makes j - 1 the next position kept. */
  lemma KeepBefore<T(!new)>(i: nat, j: nat, kept: seq<nat>, path: seq<T>, collided: (T, T) -> bool)
    requires SmoothingOk(i, kept, path, collided) && i + 2 <= j < |path|
    requires collided(path[i], path[j]) && forall k :: i + 2 <= k < j ==> !collided(path[i], path[k])
    ensures SmoothingOk(j - 1, kept + [j - 1], path, collided)
    ensures Points(kept + [j - 1], path) == Points(kept, path) + [path[j - 1]]
  {
    assert kept[|kept| - 1] < i ==> SeesToEnd(kept[|kept| - 1], path, collided);
    OneMore(kept, j - 1, path, collided);
    assert HidesFirst(i, kept[|kept| - 1], j - 1, path, collided);
    assert Blocked(kept[|kept| - 1], j - 1, path, collided);
  }

  /** Without any collision to the end the position moves on alone. */
  lemma MoveOn<T(!new)>(i: nat, kept: seq<nat>, path: seq<T>, collided: (T, T) -> bool)
    requires SmoothingOk(i, kept, path, collided) && i < |path| && SeesToEnd(i, path, collided)
    ensures SmoothingOk(i + 1, kept, path, collided)
  {
  }

  lemma Finish<T(!new)>(kept: seq<nat>, path: seq<T>, collided: (T, T) -> bool)
    requires SmoothingOk(|path|, kept, path, collided)
    ensures var all := kept + [|path| - 1];
      && |path| > 0 && Shortcut(all, path, collided) && Points(all, path) == Points(kept, path) + [path[|path| - 1]]
      && |all| >= 2 && all[0] == 0 && Needed(all, |all| - 1, path, collided)
      && AllSeeToEnd(all[|all| - 2], |path|, path, collided)
  {
    assert SeesToEnd(kept[|kept| - 1], path, collided);
    OneMore(kept, |path| - 1, path, collided);
  }

  class Level<T(!new)> {
    var processedPath: seq<T>

    constructor (path: seq<T>)
      ensures processedPath == path
    {
      processedPath := path;
    }

    /** collided tells whether a ray between two points, both snapped to the grid, meets an obstacle. */
    method SmoothTriangulate(collided: (T, T) -> bool) returns (ghost kept: seq<nat>)
      modifies this
      ensures old(|processedPath|) < 3 ==> processedPath == old(processedPath)
      ensures old(|processedPath|) >= 3 ==>
        && Shortcut(kept, old(processedPath), collided) && processedPath == Points(kept, old(processedPath))
        && |kept| >= 2 && kept[0] == 0 && kept[|kept| - 1] == old(|processedPath|) - 1
        && Needed(kept, |kept| - 1, old(processedPath), collided)
        && AllSeeToEnd(kept[|kept| - 2], old(|processedPath|), old(processedPath), collided)
    {
      kept := [];
      if |processedPath| < 3 {
        return;
      }
      hide Shortcut;
      hide Needed;
      hide SmoothingOk;
      hide Points;
      var i := 0;
      var smoothPath := [processedPath[0]];
      kept := [0];
      ghost var path := processedPath;
      StartsAtZero(path, collided);
      while i < |processedPath|
        invariant processedPath == path && i <= |path|
        invariant SmoothingOk(i, kept, path, collided) && smoothPath == Points(kept, path)
        decreases |path| - i
      {
        var keepTrying := true;
        var j := i + 2;
        ghost var from := i;
        while keepTrying && j < |processedPath|
          invariant processedPath == path && from + 2 <= j && i <= |path|
          invariant SmoothingOk(i, kept, path, collided) && smoothPath == Points(kept, path)
          invariant keepTrying ==> i == from && forall k :: i + 2 <= k < j && k < |path| ==> !collided(path[i], path[k])
          invariant !keepTrying ==> from < i
        {
          if collided(processedPath[i], processedPath[j]) {
            KeepBefore(i, j, kept, path, collided);
            smoothPath := smoothPath + [processedPath[j - 1]];
            kept := kept + [j - 1];
            keepTrying := false;
            i := j - 1;
          }
          j := j + 1;
        }
        if keepTrying {
          MoveOn(i, kept, path, collided);
        }
        i := i + if keepTrying then 1 else 0;
      }
      Finish(kept, path, collided);
      smoothPath := smoothPath + [processedPath[|processedPath| - 1]];
      kept := kept + [|path| - 1];
      processedPath := smoothPath;
    }
  }

  lemma StartsAtZero<T(!new)>(path: seq<T>, collided: (T, T) -> bool)
    requires |path| >= 2
    ensures SmoothingOk(0, [0], path, collided) && Points([0], path) == [path[0]]
  {
  }
}
