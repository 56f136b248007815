/**
 Walks in a topology given by a successor function: the vocabulary in which
 every search result is specified.
 */
module Walks {

  function Last<T>(s: seq<T>): T
    requires |s| > 0
  {
    s[|s| - 1]
  }

  /** Each element of `p` after the first is listed among the successors of the one before it. */
  ghost predicate IsWalk<T>(succ: T -> seq<T>, p: seq<T>)
  {
    forall i :: 0 <= i < |p| - 1 ==> p[i + 1] in succ(p[i])
  }

  ghost predicate IsWalkFrom<T>(succ: T -> seq<T>, start: T, p: seq<T>)
  {
    |p| > 0 && p[0] == start && IsWalk(succ, p)
  }

  /** `p` is a walk that begins with `start` and ends with `goal`. */
  ghost predicate Connects<T>(succ: T -> seq<T>, start: T, goal: T, p: seq<T>)
  {
    IsWalkFrom(succ, start, p) && Last(p) == goal
  }

  ghost predicate Reachable<T(!new)>(succ: T -> seq<T>, start: T, goal: T)
  {
    exists p :: Connects(succ, start, goal, p)
  }

  /** `goal` can be reached from `start` in at most `moves` steps. */
  ghost predicate ReachableWithin<T(!new)>(succ: T -> seq<T>, start: T, goal: T, moves: int)
  {
    exists p :: Connects(succ, start, goal, p) && |p| - 1 <= moves
  }

  /** No element occurs twice. */
  ghost predicate Distinct<T>(p: seq<T>)
  {
    forall i, j :: 0 <= i < j < |p| ==> p[i] != p[j]
  }

  /** `s` holds every successor of each of its elements. */
  ghost predicate Closed<T>(succ: T -> seq<T>, s: set<T>)
  {
    forall v, w :: v in s && w in succ(v) ==> w in s
  }

  /** Dropping the last element of a walk leaves a walk, whose end has the dropped element as successor. */
  lemma WalkPrefix<T>(succ: T -> seq<T>, start: T, p: seq<T>)
    requires IsWalkFrom(succ, start, p) && |p| >= 2
    ensures IsWalkFrom(succ, start, p[..|p| - 1])
    ensures Last(p) in succ(Last(p[..|p| - 1]))
  {
    assert p[|p| - 1] in succ(p[|p| - 2]);
  }

  /** A walk that starts inside a closed set never leaves it. */
  lemma {:induction false} WalkStaysInClosed<T>(succ: T -> seq<T>, s: set<T>, p: seq<T>)
    requires Closed(succ, s) && |p| > 0 && p[0] in s && IsWalk(succ, p)
    ensures forall i :: 0 <= i < |p| ==> p[i] in s
    decreases |p|
  {
    if |p| > 1 {
      var init := p[..|p| - 1];
      assert IsWalk(succ, init) by {
        forall i | 0 <= i < |init| - 1 ensures init[i + 1] in succ(init[i]) {
          assert init[i + 1] == p[i + 1] && init[i] == p[i];
        }
      }
      WalkStaysInClosed(succ, s, init);
      assert p[|p| - 2] == init[|p| - 2];
      assert p[|p| - 1] in succ(p[|p| - 2]);
    }
  }

  /** A closed set that holds `start` but not `goal` proves that `goal` is unreachable. */
  lemma ClosedSetSeparates<T(!new)>(succ: T -> seq<T>, s: set<T>, start: T, goal: T)
    requires Closed(succ, s) && start in s && goal !in s
    ensures !Reachable(succ, start, goal)
  {
    forall p | IsWalkFrom(succ, start, p) ensures Last(p) in s {
      WalkStaysInClosed(succ, s, p);
    }
  }

  /** Cutting out the part of a walk between two visits of the same element leaves a walk with the same ends. */
  lemma Shortcut<T>(succ: T -> seq<T>, start: T, goal: T, p: seq<T>, i: int, j: int)
    requires Connects(succ, start, goal, p)
    requires 0 <= i < j < |p| && p[i] == p[j]
    ensures Connects(succ, start, goal, p[..i] + p[j..])
  {
    var q := p[..i] + p[j..];
    assert q[0] == start by {
      if i == 0 { assert q[0] == p[j]; } else { assert q[0] == p[0]; }
    }
    assert Last(q) == Last(p);
    forall k | 0 <= k < |q| - 1 ensures q[k + 1] in succ(q[k]) {
      if k + 1 < i {
        assert q[k] == p[k] && q[k + 1] == p[k + 1];
      } else if k + 1 == i {
        assert q[k] == p[k] && q[k + 1] == p[j] == p[i];
      } else {
        assert q[k] == p[k - i + j] && q[k + 1] == p[k - i + j + 1];
      }
    }
  }

  /** Whatever walk connects two elements, a walk without repetitions that is no longer connects them too. */
  lemma {:induction false} ShortcutToSimple<T>(succ: T -> seq<T>, start: T, goal: T, p: seq<T>)
    requires Connects(succ, start, goal, p)
    ensures exists q :: Connects(succ, start, goal, q) && Distinct(q) && |q| <= |p|
    decreases |p|
  {
    if !Distinct(p) {
      var i, j :| 0 <= i < j < |p| && p[i] == p[j];
      Shortcut(succ, start, goal, p, i, j);
      ShortcutToSimple(succ, start, goal, p[..i] + p[j..]);
    }
  }
}
