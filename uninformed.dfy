/**
 Breadth-first and depth-first search with a global visited set
 (`bfs_graph`, `bfs_grid`, `dfs_graph`, `dfs_grid`), generic over the
 topology's successor function. A node is marked visited when it is
 popped, not when it is pushed, so the frontier may hold several entries
 for one node; the first popped is expanded and the others are discarded.
 */
module Uninformed {
  import opened Walks
  import opened Frontier

  /** A frontier entry's path is a repetition-free walk from `start` to its node whose elements before the last are all visited. */
  ghost predicate EntryOk<T>(succ: T -> seq<T>, start: T, visited: set<T>, e: Entry<T>)
  {
    && Connects(succ, start, e.node, e.path)
    && Distinct(e.path)
    && (forall i :: 0 <= i < |e.path| - 1 ==> e.path[i] in visited)
  }

  /**
   The invariant both searches keep: every entry is well formed, the goal has
   never been expanded, and every successor of a visited node is visited or
   waiting on the frontier (so is `start`).
   */
  ghost predicate SearchInv<T>(succ: T -> seq<T>, universe: set<T>, start: T, goal: T,
                               q: seq<Entry<T>>, visited: set<T>)
  {
    && visited <= universe
    && goal !in visited
    && (forall j :: 0 <= j < |q| ==> q[j].node in universe && EntryOk(succ, start, visited, q[j]))
    && (start in visited || HasNode(q, start))
    && (forall v, w :: v in visited && w in succ(v) ==> w in visited || HasNode(q, w))
  }

  lemma HasNodeRemove<T>(a: seq<Entry<T>>, e: Entry<T>, b: seq<Entry<T>>, w: T)
    requires HasNode(a + [e] + b, w) && w != e.node
    ensures HasNode(a + b, w)
  {
    var q := a + [e] + b;
    var j :| 0 <= j < |q| && q[j].node == w;
    if j < |a| {
      assert (a + b)[j] == q[j];
    } else {
      assert (a + b)[j - 1] == q[j];
    }
  }

  lemma HasNodeAppend<T>(x: seq<Entry<T>>, y: seq<Entry<T>>, w: T)
    requires HasNode(x, w) || HasNode(y, w)
    ensures HasNode(x + y, w)
  {
    if HasNode(x, w) {
      var j :| 0 <= j < |x| && x[j].node == w;
      assert (x + y)[j] == x[j];
    } else {
      var j :| 0 <= j < |y| && y[j].node == w;
      assert (x + y)[|x| + j] == y[j];
    }
  }

  /** Popping an entry whose node is already visited and dropping it keeps the invariant. */
  lemma DiscardStep<T>(succ: T -> seq<T>, universe: set<T>, start: T, goal: T,
                       a: seq<Entry<T>>, e: Entry<T>, b: seq<Entry<T>>, visited: set<T>, q': seq<Entry<T>>)
    requires SearchInv(succ, universe, start, goal, a + [e] + b, visited)
    requires e.node in visited
    requires q' == a + b
    ensures SearchInv(succ, universe, start, goal, q', visited)
  {
    var q := a + [e] + b;
    forall j | 0 <= j < |q'| ensures q'[j].node in universe && EntryOk(succ, start, visited, q'[j]) {
      if j < |a| { assert q'[j] == q[j]; } else { assert q'[j] == q[j + 1]; }
    }
    if start !in visited {
      HasNodeRemove(a, e, b, start);
    }
    forall v, w | v in visited && w in succ(v) ensures w in visited || HasNode(q', w) {
      if w !in visited {
        HasNodeRemove(a, e, b, w);
      }
    }
  }

  /** The entry for a successor `m` of an expanded entry's node is well formed. */
  lemma ExtendEntry<T>(succ: T -> seq<T>, start: T, visited: set<T>, e: Entry<T>, m: T)
    requires EntryOk(succ, start, visited, e)
    requires m in succ(e.node) && m !in visited + {e.node}
    ensures EntryOk(succ, start, visited + {e.node}, Entry(m, e.path + [m]))
  {
    var p := e.path + [m];
    assert forall i :: 0 <= i < |e.path| ==> e.path[i] in visited + {e.node};
    forall i | 0 <= i < |p| - 1 ensures p[i + 1] in succ(p[i]) {
      if i < |p| - 2 {
        assert p[i] == e.path[i] && p[i + 1] == e.path[i + 1];
      }
    }
  }

  /**
   Popping an unvisited, non-goal entry, marking its node visited and pushing
   its unvisited successors (in the order `nbrs`) keeps the invariant.
   */
  lemma ExpandStep<T(!new)>(succ: T -> seq<T>, universe: set<T>, start: T, goal: T,
                      a: seq<Entry<T>>, e: Entry<T>, b: seq<Entry<T>>, visited: set<T>, nbrs: seq<T>,
                      q': seq<Entry<T>>)
    requires Closed(succ, universe)
    requires SearchInv(succ, universe, start, goal, a + [e] + b, visited)
    requires e.node !in visited && e.node != goal
    requires forall m :: m in nbrs <==> m in succ(e.node)
    requires q' == a + b + Expansion(nbrs, visited + {e.node}, e.path)
    ensures SearchInv(succ, universe, start, goal, q', visited + {e.node})
  {
    var q := a + [e] + b;
    var visited' := visited + {e.node};
    var pushed := Expansion(nbrs, visited', e.path);
    assert q[|a|] == e;
    forall j | 0 <= j < |q'| ensures q'[j].node in universe && EntryOk(succ, start, visited', q'[j]) {
      if j < |a| {
        assert q'[j] == q[j];
      } else if j < |a| + |b| {
        assert q'[j] == q[j + 1];
      } else {
        var m := pushed[j - |a| - |b|].node;
        assert q'[j] == Entry(m, e.path + [m]);
        ExtendEntry(succ, start, visited, e, m);
      }
    }
    if start !in visited' {
      HasNodeRemove(a, e, b, start);
      HasNodeAppend(a + b, pushed, start);
    }
    forall v, w | v in visited' && w in succ(v) ensures w in visited' || HasNode(q', w) {
      if w !in visited' {
        if v == e.node {
          HasNodeAppend(a + b, pushed, w);
        } else {
          HasNodeRemove(a, e, b, w);
          HasNodeAppend(a + b, pushed, w);
        }
      }
    }
  }

  /** Path lengths along the queue never decrease and differ by at most one. */
  ghost predicate Levelled<T>(q: seq<Entry<T>>)
  {
    forall i, j :: 0 <= i <= j < |q| ==> |q[i].path| <= |q[j].path| <= |q[i].path| + 1
  }

  ghost predicate HasNodeAt<T>(q: seq<Entry<T>>, w: T, len: int)
  {
    exists j :: 0 <= j < |q| && q[j].node == w && |q[j].path| == len
  }

  /**
   Breadth-first completeness with respect to the level `h` of the queue's
   head: every walk from `start` with fewer than `h` elements ends at a
   visited node, and every walk with exactly `h` ends at a visited node or at
   a node with an entry of that length in the queue.
   */
  ghost predicate LevelComplete<T(!new)>(succ: T -> seq<T>, start: T, q: seq<Entry<T>>, visited: set<T>)
  {
    |q| > 0 ==>
      && (forall p :: IsWalkFrom(succ, start, p) && |p| < |q[0].path| ==> Last(p) in visited)
      && (forall p :: IsWalkFrom(succ, start, p) && |p| == |q[0].path| ==>
            Last(p) in visited || HasNodeAt(q, Last(p), |p|))
  }

  /** Removing the queue's head and appending entries one level deeper keeps the queue levelled. */
  lemma LevelledAfterPop<T>(q: seq<Entry<T>>, pushed: seq<Entry<T>>, q': seq<Entry<T>>)
    requires |q| > 0 && Levelled(q)
    requires forall k :: 0 <= k < |pushed| ==> |pushed[k].path| == |q[0].path| + 1
    requires q' == q[1..] + pushed
    ensures Levelled(q')
    ensures forall j :: 0 <= j < |q'| ==> |q[0].path| <= |q'[j].path| <= |q[0].path| + 1
  {
    var h := |q[0].path|;
    assert forall j :: 1 <= j < |q| ==> h <= |q[j].path| <= h + 1;
    forall j | 0 <= j < |q'| ensures h <= |q'[j].path| <= h + 1 {
      if j < |q| - 1 { assert q'[j] == q[j + 1]; } else { assert q'[j] == pushed[j - (|q| - 1)]; }
    }
    forall i, j | 0 <= i <= j < |q'| ensures |q'[i].path| <= |q'[j].path| <= |q'[i].path| + 1 {
      if j < |q| - 1 {
        assert q'[i] == q[i + 1] && q'[j] == q[j + 1];
      } else {
        assert q'[j] == pushed[j - (|q| - 1)];
      }
    }
  }

  /** When the new head is on the same level as the old one, the level stays complete. */
  lemma SameLevelAfterPop<T(!new)>(succ: T -> seq<T>, start: T, q: seq<Entry<T>>, visited: set<T>,
                                   pushed: seq<Entry<T>>, visited': set<T>, q': seq<Entry<T>>)
    requires |q| > 0 && LevelComplete(succ, start, q, visited)
    requires visited <= visited' && q[0].node in visited'
    requires q' == q[1..] + pushed
    requires |q'| > 0 && |q'[0].path| == |q[0].path|
    ensures LevelComplete(succ, start, q', visited')
  {
    var h := |q[0].path|;
    forall p | IsWalkFrom(succ, start, p) && |p| == h
      ensures Last(p) in visited' || HasNodeAt(q', Last(p), |p|)
    {
      if Last(p) !in visited' {
        var j :| 0 <= j < |q| && q[j].node == Last(p) && |q[j].path| == h;
        assert q'[j - 1] == q[j];
      }
    }
  }

  /**
   When the new head is one level deeper, the old level is entirely visited,
   and every walk one element longer ends at a visited node or at an entry of
   the new level, by the closure part of the search invariant.
   */
  lemma NextLevelAfterPop<T(!new)>(succ: T -> seq<T>, universe: set<T>, start: T, goal: T, q: seq<Entry<T>>, visited: set<T>,
                                   pushed: seq<Entry<T>>, visited': set<T>, q': seq<Entry<T>>)
    requires |q| > 0 && |q[0].path| > 0 && Levelled(q) && LevelComplete(succ, start, q, visited)
    requires visited <= visited' && q[0].node in visited'
    requires q' == q[1..] + pushed
    requires |q'| > 0 && |q'[0].path| == |q[0].path| + 1
    requires forall j :: 0 <= j < |q'| ==> |q[0].path| <= |q'[j].path| <= |q[0].path| + 1
    requires SearchInv(succ, universe, start, goal, q', visited')
    ensures LevelComplete(succ, start, q', visited')
  {
    var h := |q[0].path|;
    assert forall j :: 1 <= j < |q| ==> |q[j].path| == h + 1 by {
      if |q| > 1 { assert q'[0] == q[1]; }
    }
    forall p | IsWalkFrom(succ, start, p) && |p| <= h ensures Last(p) in visited' {
      if |p| == h && Last(p) !in visited {
        var j :| 0 <= j < |q| && q[j].node == Last(p) && |q[j].path| == h;
        assert j == 0;
      }
    }
    forall p | IsWalkFrom(succ, start, p) && |p| == h + 1
      ensures Last(p) in visited' || HasNodeAt(q', Last(p), |p|)
    {
      WalkPrefix(succ, start, p);
      var u := Last(p[..|p| - 1]);
      assert u in visited';
      if Last(p) !in visited' {
        var j :| 0 <= j < |q'| && q'[j].node == Last(p);
        assert |q'[j].path| == h + 1;
      }
    }
  }

  /**
   Removing the queue's head, whose node is then visited, and appending
   entries one level deeper keeps the queue levelled and level-complete,
   provided the search invariant holds afterwards.
   */
  lemma LevelsAfterPop<T(!new)>(succ: T -> seq<T>, universe: set<T>, start: T, goal: T, q: seq<Entry<T>>, visited: set<T>,
                          pushed: seq<Entry<T>>, visited': set<T>, q': seq<Entry<T>>)
    requires |q| > 0 && |q[0].path| > 0 && Levelled(q) && LevelComplete(succ, start, q, visited)
    requires visited <= visited' && q[0].node in visited'
    requires forall k :: 0 <= k < |pushed| ==> |pushed[k].path| == |q[0].path| + 1
    requires q' == q[1..] + pushed
    requires SearchInv(succ, universe, start, goal, q', visited')
    ensures Levelled(q') && LevelComplete(succ, start, q', visited')
  {
    LevelledAfterPop(q, pushed, q');
    if |q'| > 0 {
      if |q'[0].path| == |q[0].path| {
        SameLevelAfterPop(succ, start, q, visited, pushed, visited', q');
      } else {
        NextLevelAfterPop(succ, universe, start, goal, q, visited, pushed, visited', q');
      }
    }
  }

  /** The frontier `[(start, [start])]` with nothing visited satisfies the invariants of both searches. */
  lemma InitialFrontier<T(!new)>(succ: T -> seq<T>, universe: set<T>, start: T, goal: T)
    requires start in universe
    ensures SearchInv(succ, universe, start, goal, [Entry(start, [start])], {})
    ensures Levelled([Entry(start, [start])])
    ensures LevelComplete(succ, start, [Entry(start, [start])], {})
  {
    var q := [Entry(start, [start])];
    assert q[0].node == start;
    forall p | IsWalkFrom(succ, start, p) && |p| == 1 ensures HasNodeAt(q, Last(p), |p|) {
      assert q[0].node == Last(p);
    }
  }

  /** When the queue's head is for the goal, no walk from `start` to the goal is shorter than its path. */
  lemma HeadIsShortest<T(!new)>(succ: T -> seq<T>, start: T, goal: T, q: seq<Entry<T>>, visited: set<T>)
    requires |q| > 0 && LevelComplete(succ, start, q, visited) && goal !in visited
    ensures forall p :: Connects(succ, start, goal, p) ==> |q[0].path| <= |p|
  {
    forall p | IsWalkFrom(succ, start, p) && Last(p) !in visited ensures |q[0].path| <= |p| {
    }
  }

  /** One expansion of the breadth-first loop keeps all of its invariants. */
  lemma BreadthFirstExpand<T(!new)>(succ: T -> seq<T>, universe: set<T>, start: T, goal: T,
                                    q: seq<Entry<T>>, visited: set<T>, q': seq<Entry<T>>)
    requires Closed(succ, universe)
    requires SearchInv(succ, universe, start, goal, q, visited)
    requires Levelled(q) && LevelComplete(succ, start, q, visited)
    requires |q| > 0 && q[0].node !in visited && q[0].node != goal
    requires q' == q[1..] + Expansion(succ(q[0].node), visited + {q[0].node}, q[0].path)
    ensures SearchInv(succ, universe, start, goal, q', visited + {q[0].node})
    ensures Levelled(q') && LevelComplete(succ, start, q', visited + {q[0].node})
    ensures |universe - (visited + {q[0].node})| < |universe - visited|
  {
    var e := q[0];
    var pushed := Expansion(succ(e.node), visited + {e.node}, e.path);
    SplitHead(q, pushed);
    ExpandStep(succ, universe, start, goal, [], e, q[1..], visited, succ(e.node), q');
    LevelsAfterPop(succ, universe, start, goal, q, visited, pushed, visited + {e.node}, q');
    assert universe - (visited + {e.node}) == (universe - visited) - {e.node};
  }

  /** Discarding the queue's head when its node is already visited keeps all of the breadth-first invariants. */
  lemma BreadthFirstDiscard<T(!new)>(succ: T -> seq<T>, universe: set<T>, start: T, goal: T,
                                     q: seq<Entry<T>>, visited: set<T>)
    requires SearchInv(succ, universe, start, goal, q, visited)
    requires Levelled(q) && LevelComplete(succ, start, q, visited)
    requires |q| > 0 && q[0].node in visited
    ensures SearchInv(succ, universe, start, goal, q[1..], visited)
    ensures Levelled(q[1..]) && LevelComplete(succ, start, q[1..], visited)
  {
    SplitHead(q, []);
    DiscardStep(succ, universe, start, goal, [], q[0], q[1..], visited, q[1..]);
    assert EntryOk(succ, start, visited, q[0]);
    LevelsAfterPop(succ, universe, start, goal, q, visited, [], visited, q[1..]);
  }

  /**
   `bfs_graph` / `bfs_grid`: FIFO frontier of (node, path) entries. The
   result is a shortest repetition-free walk from `start` to `goal`, and
   `None` exactly when `goal` is unreachable. `universe` is any finite set
   that holds `start` and is closed under `succ`; it only bounds the loop.
   */
  method BreadthFirst<T(==,!new)>(succ: T -> seq<T>, ghost universe: set<T>, start: T, goal: T)
    returns (result: Option<seq<T>>)
    requires start in universe && Closed(succ, universe)
    ensures start == goal ==> result == Some([start])
    ensures result.Some? ==> Connects(succ, start, goal, result.value) && Distinct(result.value)
    ensures result.Some? ==> forall p :: Connects(succ, start, goal, p) ==> |result.value| <= |p|
    ensures result.None? <==> !Reachable(succ, start, goal)
  {
    var q := [Entry(start, [start])];
    var visited: set<T> := {};
    InitialFrontier(succ, universe, start, goal);
    while |q| > 0
      invariant SearchInv(succ, universe, start, goal, q, visited)
      invariant Levelled(q) && LevelComplete(succ, start, q, visited)
      invariant start == goal ==> q == [Entry(start, [start])]
      decreases |universe - visited|, |q|
    {
      var e := q[0];
      if e.node == goal {
        HeadIsShortest(succ, start, goal, q, visited);
        return Some(e.path);
      }
      if e.node in visited {
        BreadthFirstDiscard(succ, universe, start, goal, q, visited);
        q := q[1..];
        continue;
      }
      var next := PushUnvisited(q[1..], succ(e.node), visited + {e.node}, e.path);
      BreadthFirstExpand(succ, universe, start, goal, q, visited, next);
      q, visited := next, visited + {e.node};
    }
    ClosedSetSeparates(succ, visited, start, goal);
    return None;
  }

  /** Discarding the top of the stack when its node is already visited keeps the invariant. */
  lemma DepthFirstDiscard<T>(succ: T -> seq<T>, universe: set<T>, start: T, goal: T,
                             s: seq<Entry<T>>, visited: set<T>)
    requires SearchInv(succ, universe, start, goal, s, visited)
    requires |s| > 0 && s[|s| - 1].node in visited
    ensures SearchInv(succ, universe, start, goal, s[..|s| - 1], visited)
  {
    SplitLast(s, []);
    DiscardStep(succ, universe, start, goal, s[..|s| - 1], s[|s| - 1], [], visited, s[..|s| - 1]);
  }

  /** Expanding the top of the stack, an unvisited non-goal node, keeps the invariant. */
  lemma DepthFirstExpand<T(!new)>(succ: T -> seq<T>, universe: set<T>, start: T, goal: T,
                                  s: seq<Entry<T>>, visited: set<T>, nbrs: seq<T>, s': seq<Entry<T>>)
    requires Closed(succ, universe)
    requires SearchInv(succ, universe, start, goal, s, visited)
    requires |s| > 0 && s[|s| - 1].node !in visited && s[|s| - 1].node != goal
    requires forall m :: m in nbrs <==> m in succ(s[|s| - 1].node)
    requires s' == s[..|s| - 1] + Expansion(nbrs, visited + {s[|s| - 1].node}, s[|s| - 1].path)
    ensures SearchInv(succ, universe, start, goal, s', visited + {s[|s| - 1].node})
    ensures |universe - (visited + {s[|s| - 1].node})| < |universe - visited|
  {
    var e := s[|s| - 1];
    SplitLast(s, Expansion(nbrs, visited + {e.node}, e.path));
    ExpandStep(succ, universe, start, goal, s[..|s| - 1], e, [], visited, nbrs, s');
    assert EntryOk(succ, start, visited, e);
    assert universe - (visited + {e.node}) == (universe - visited) - {e.node};
  }

  /**
   `dfs_graph` / `dfs_grid`: LIFO frontier; the successors are pushed in
   reverse so that the left-most one is popped first. The result is a
   repetition-free walk from `start` to `goal`, and `None` exactly when
   `goal` is unreachable.
   */
  method DepthFirst<T(==,!new)>(succ: T -> seq<T>, ghost universe: set<T>, start: T, goal: T)
    returns (result: Option<seq<T>>)
    requires start in universe && Closed(succ, universe)
    ensures start == goal ==> result == Some([start])
    ensures result.Some? ==> Connects(succ, start, goal, result.value) && Distinct(result.value)
    ensures result.None? <==> !Reachable(succ, start, goal)
  {
    var stack := [Entry(start, [start])];
    var visited: set<T> := {};
    InitialFrontier(succ, universe, start, goal);
    while |stack| > 0
      invariant SearchInv(succ, universe, start, goal, stack, visited)
      invariant start == goal ==> stack == [Entry(start, [start])]
      decreases |universe - visited|, |stack|
    {
      var e := stack[|stack| - 1];
      if e.node == goal {
        return Some(e.path);
      }
      if e.node in visited {
        DepthFirstDiscard(succ, universe, start, goal, stack, visited);
        stack := stack[..|stack| - 1];
        continue;
      }
      var nbrs := Reverse(succ(e.node));
      var next := PushUnvisited(stack[..|stack| - 1], nbrs, visited + {e.node}, e.path);
      DepthFirstExpand(succ, universe, start, goal, stack, visited, nbrs, next);
      stack, visited := next, visited + {e.node};
    }
    ClosedSetSeparates(succ, visited, start, goal);
    return None;
  }
}
