/**
 Depth-limited search (`dls_grid`), generic over the topology's successor
 function: a stack of (node, path, depth) tasks, a cutoff at `depth ==
 limit`, and cycle avoidance along the current path only (no global
 visited set). Returns the path or `None`, and the number of expansions.
 */
module DepthLimited {
  import opened Walks
  import opened Frontier

  /** A stack entry: a node, the path by which it was reached and that path's number of moves. */
  datatype Task<T> = Task(node: T, path: seq<T>, depth: nat)

  function Pow(b: nat, n: nat): (r: nat)
    ensures b >= 1 ==> r >= 1
  {
    if n == 0 then 1 else b * Pow(b, n - 1)
  }

  ghost predicate AllTasksOk<T>(succ: T -> seq<T>, start: T, limit: nat, s: seq<Task<T>>)
  {
    forall j :: 0 <= j < |s| ==> TaskOk(succ, start, limit, s[j])
  }

  /** A task's path is a repetition-free walk from `start` to its node, of `depth` moves, within the limit. */
  ghost predicate TaskOk<T>(succ: T -> seq<T>, start: T, limit: nat, t: Task<T>)
  {
    && Connects(succ, start, t.node, t.path)
    && Distinct(t.path)
    && t.depth == |t.path| - 1 <= limit
  }

  /**
   The tasks one expansion pushes: for each successor in `nbrs`, in order,
   that is not already on `path`, a task one move deeper.
   */
  function Children<T(==,!new)>(nbrs: seq<T>, path: seq<T>, depth: nat): (r: seq<Task<T>>)
    ensures |r| <= |nbrs|
    ensures forall k :: 0 <= k < |r| ==>
      && r[k].node in nbrs && r[k].node !in path
      && r[k].path == path + [r[k].node] && r[k].depth == depth + 1
    ensures forall m :: m in nbrs && m !in path ==> exists k :: 0 <= k < |r| && r[k].node == m
  {
    if nbrs == [] then []
    else
      var init, m := nbrs[..|nbrs| - 1], nbrs[|nbrs| - 1];
      assert nbrs == init + [m];
      var front := Children(init, path, depth);
      var r := front + (if m !in path then [Task(m, path + [m], depth + 1)] else []);
      assert forall x :: x in nbrs && x !in path ==> exists k :: 0 <= k < |r| && r[k].node == x by {
        forall x | x in nbrs && x !in path ensures exists k :: 0 <= k < |r| && r[k].node == x {
          if x == m {
            assert r[|front|].node == m;
          } else {
            assert x in init;
            var j :| 0 <= j < |front| && front[j].node == x;
            assert r[j].node == x;
          }
        }
      }
      r
  }

  /** The inner loop of an expansion: pushes, in order, a task for each successor in `nbrs` not on `path`. */
  method PushOffPath<T(==,!new)>(stack: seq<Task<T>>, nbrs: seq<T>, path: seq<T>, depth: nat)
    returns (r: seq<Task<T>>)
    ensures r == stack + Children(nbrs, path, depth)
  {
    r := stack;
    var i := 0;
    while i < |nbrs|
      invariant 0 <= i <= |nbrs|
      invariant r == stack + Children(nbrs[..i], path, depth)
    {
      ChildrenStep(nbrs, i, path, depth);
      if nbrs[i] !in path {
        var task := Task(nbrs[i], path + [nbrs[i]], depth + 1);
        AppendAssoc(stack, Children(nbrs[..i], path, depth), [task]);
        r := r + [task];
      } else {
        AppendAssoc(stack, Children(nbrs[..i], path, depth), []);
      }
      i := i + 1;
    }
    assert nbrs[..i] == nbrs;
  }

  /** The children of one more successor: those of the ones before it, then its own task if it is not on `path`. */
  lemma ChildrenStep<T(!new)>(nbrs: seq<T>, i: nat, path: seq<T>, depth: nat)
    requires i < |nbrs|
    ensures Children(nbrs[..i + 1], path, depth)
         == Children(nbrs[..i], path, depth)
            + (if nbrs[i] !in path then [Task(nbrs[i], path + [nbrs[i]], depth + 1)] else [])
  {
    assert nbrs[..i + 1][..i] == nbrs[..i];
  }


  /**
   Termination measure: a task at depth `d` weighs `base^(limit - d)`; an
   expansion replaces one task by at most `base - 1` tasks one level deeper.
   */
  ghost function Weight<T>(stack: seq<Task<T>>, base: nat, limit: nat): nat
  {
    if stack == [] then 0
    else
      var t := stack[|stack| - 1];
      Weight(stack[..|stack| - 1], base, limit) + Pow(base, if t.depth <= limit then limit - t.depth else 0)
  }

  lemma {:induction false} WeightAppend<T>(s: seq<Task<T>>, t: seq<Task<T>>, base: nat, limit: nat)
    ensures Weight(s + t, base, limit) == Weight(s, base, limit) + Weight(t, base, limit)
    decreases |t|
  {
    if t == [] {
      assert s + t == s;
    } else {
      var init := t[..|t| - 1];
      assert (s + t)[..|s + t| - 1] == s + init;
      WeightAppend(s, init, base, limit);
    }
  }

  /** Tasks that all sit at depth `d` weigh `|s| * base^(limit - d)`. */
  lemma {:induction false} WeightOfLevel<T>(s: seq<Task<T>>, base: nat, limit: nat, d: nat)
    requires d <= limit
    requires forall k :: 0 <= k < |s| ==> s[k].depth == d
    ensures Weight(s, base, limit) == |s| * Pow(base, limit - d)
    decreases |s|
  {
    if s != [] {
      WeightOfLevel(s[..|s| - 1], base, limit, d);
    }
  }

  lemma MulMonotone(x: nat, y: nat, z: nat)
    requires x <= y
    ensures x * z <= y * z
  {
  }

  /** Expanding a task below the limit lowers the total weight by at least one. */
  lemma WeightAfterExpand<T>(rest: seq<Task<T>>, t: Task<T>, children: seq<Task<T>>, fanout: nat, limit: nat)
    requires t.depth < limit && |children| <= fanout
    requires forall k :: 0 <= k < |children| ==> children[k].depth == t.depth + 1
    ensures Weight(rest + children, fanout + 1, limit) + 1 <= Weight(rest + [t], fanout + 1, limit)
  {
    var b := fanout + 1;
    var p := Pow(b, limit - t.depth - 1);
    WeightAppend(rest, children, b, limit);
    WeightOfLevel(children, b, limit, t.depth + 1);
    MulMonotone(|children|, fanout, p);
    assert (rest + [t])[..|rest + [t]| - 1] == rest;
    assert Weight(rest + [t], b, limit) == Weight(rest, b, limit) + Pow(b, limit - t.depth);
    assert Pow(b, limit - t.depth) == b * p;
    assert b * p == fanout * p + p;
  }

  /** Every repetition-free walk from `start` to `goal` within the limit extends the path of some task on the stack. */
  ghost predicate Covered<T(!new)>(succ: T -> seq<T>, start: T, goal: T, limit: nat, stack: seq<Task<T>>)
  {
    forall p :: Connects(succ, start, goal, p) && Distinct(p) && |p| - 1 <= limit ==>
      exists j :: 0 <= j < |stack| && IsPrefix(stack[j].path, p)
  }

  ghost predicate IsPrefix<T>(a: seq<T>, p: seq<T>)
  {
    |a| <= |p| && p[..|a|] == a
  }

  /** Popping a task at the limit that is not the goal loses no walk to the goal. */
  lemma CoveredAfterCutoff<T(!new)>(succ: T -> seq<T>, start: T, goal: T, limit: nat,
                                    rest: seq<Task<T>>, t: Task<T>)
    requires Covered(succ, start, goal, limit, rest + [t])
    requires TaskOk(succ, start, limit, t) && t.depth == limit && t.node != goal
    ensures Covered(succ, start, goal, limit, rest)
  {
    var s := rest + [t];
    forall p | Connects(succ, start, goal, p) && Distinct(p) && |p| - 1 <= limit
      ensures exists j :: 0 <= j < |rest| && IsPrefix(rest[j].path, p)
    {
      assert IsPrefix(t.path, p) ==> t.path == p;
      assert Last(t.path) != Last(p);
      var j :| 0 <= j < |s| && IsPrefix(s[j].path, p);
      assert j < |rest| && rest[j] == s[j];
    }
  }

  lemma NextNotOnPrefix<T>(p: seq<T>, n: nat)
    requires Distinct(p) && n < |p|
    ensures p[n] !in p[..n]
  {
    forall i | 0 <= i < n ensures p[..n][i] != p[n] {
      assert p[..n][i] == p[i];
    }
  }

  /** A prefix of `p` shorter than `p`, extended by `p`'s next element, is again a prefix of `p`. */
  lemma PrefixExtend<T>(a: seq<T>, p: seq<T>)
    requires IsPrefix(a, p) && |a| < |p|
    ensures IsPrefix(a + [p[|a|]], p)
  {
    assert p[..|a| + 1] == p[..|a|] + [p[|a|]];
  }

  /**
   A repetition-free walk to the goal that extends the path of a non-goal
   task extends the path of one of that task's children.
   */
  lemma ChildCovers<T(!new)>(succ: T -> seq<T>, start: T, goal: T, limit: nat,
                             t: Task<T>, nbrs: seq<T>, p: seq<T>)
    requires TaskOk(succ, start, limit, t) && t.node != goal
    requires forall m :: m in succ(t.node) ==> m in nbrs
    requires Connects(succ, start, goal, p) && Distinct(p) && IsPrefix(t.path, p)
    ensures exists k :: 0 <= k < |Children(nbrs, t.path, t.depth)|
                     && IsPrefix(Children(nbrs, t.path, t.depth)[k].path, p)
  {
    var children := Children(nbrs, t.path, t.depth);
    var n := |t.path|;
    assert Last(t.path) != Last(p);
    assert n < |p|;
    var m := p[n];
    assert p[n - 1] == t.path[n - 1] == t.node;
    assert m in succ(t.node);
    NextNotOnPrefix(p, n);
    assert m in nbrs && m !in t.path;
    var k :| 0 <= k < |children| && children[k].node == m;
    PrefixExtend(t.path, p);
  }

  /** Popping a non-goal task below the limit and pushing its children loses no walk to the goal. */
  lemma CoveredAfterExpand<T(!new)>(succ: T -> seq<T>, start: T, goal: T, limit: nat,
                                    rest: seq<Task<T>>, t: Task<T>, nbrs: seq<T>, stack': seq<Task<T>>)
    requires Covered(succ, start, goal, limit, rest + [t])
    requires TaskOk(succ, start, limit, t) && t.node != goal
    requires forall m :: m in succ(t.node) ==> m in nbrs
    requires stack' == rest + Children(nbrs, t.path, t.depth)
    ensures Covered(succ, start, goal, limit, stack')
  {
    var s := rest + [t];
    var children := Children(nbrs, t.path, t.depth);
    forall p | Connects(succ, start, goal, p) && Distinct(p) && |p| - 1 <= limit
      ensures exists j :: 0 <= j < |stack'| && IsPrefix(stack'[j].path, p)
    {
      var j :| 0 <= j < |s| && IsPrefix(s[j].path, p);
      if j < |rest| {
        assert stack'[j] == s[j];
      } else {
        assert s[j] == t;
        ChildCovers(succ, start, goal, limit, t, nbrs, p);
        var k :| 0 <= k < |children| && IsPrefix(children[k].path, p);
        assert stack'[|rest| + k] == children[k];
      }
    }
  }

  /** One expansion of the depth-limited loop keeps its invariants and lowers the weight. */
  lemma ExpandTask<T(!new)>(succ: T -> seq<T>, fanout: nat, start: T, goal: T, limit: nat,
                            s: seq<Task<T>>, nbrs: seq<T>, s': seq<Task<T>>)
    requires |s| > 0 && AllTasksOk(succ, start, limit, s) && Covered(succ, start, goal, limit, s)
    requires s[|s| - 1].node != goal && s[|s| - 1].depth < limit
    requires |nbrs| <= fanout && forall m :: m in succ(s[|s| - 1].node) ==> m in nbrs
    requires forall m :: m in nbrs ==> m in succ(s[|s| - 1].node)
    requires s' == s[..|s| - 1] + Children(nbrs, s[|s| - 1].path, s[|s| - 1].depth)
    ensures AllTasksOk(succ, start, limit, s') && Covered(succ, start, goal, limit, s')
    ensures Weight(s', fanout + 1, limit) < Weight(s, fanout + 1, limit)
  {
    var rest, t := s[..|s| - 1], s[|s| - 1];
    var children := Children(nbrs, t.path, t.depth);
    SplitLast(s, []);
    assert TaskOk(succ, start, limit, t);
    CoveredAfterExpand(succ, start, goal, limit, rest, t, nbrs, s');
    WeightAfterExpand(rest, t, children, fanout, limit);
    ChildrenOk(succ, start, limit, t, nbrs);
    AllTasksOkAppend(succ, start, limit, rest, children);
  }

  /** Every child of a valid task below the limit, over successors of its node, is a valid task. */
  lemma ChildrenOk<T(!new)>(succ: T -> seq<T>, start: T, limit: nat, t: Task<T>, nbrs: seq<T>)
    requires TaskOk(succ, start, limit, t) && t.depth < limit
    requires forall m :: m in nbrs ==> m in succ(t.node)
    ensures AllTasksOk(succ, start, limit, Children(nbrs, t.path, t.depth))
  {
    var children := Children(nbrs, t.path, t.depth);
    forall k | 0 <= k < |children| ensures TaskOk(succ, start, limit, children[k]) {
      ExtendTask(succ, start, limit, t, children[k].node);
    }
  }

  lemma AllTasksOkAppend<T>(succ: T -> seq<T>, start: T, limit: nat, a: seq<Task<T>>, b: seq<Task<T>>)
    requires AllTasksOk(succ, start, limit, a) && AllTasksOk(succ, start, limit, b)
    ensures AllTasksOk(succ, start, limit, a + b)
  {
    forall j | 0 <= j < |a + b| ensures TaskOk(succ, start, limit, (a + b)[j]) {
      if j < |a| { assert (a + b)[j] == a[j]; } else { assert (a + b)[j] == b[j - |a|]; }
    }
  }

  lemma ExtendTask<T>(succ: T -> seq<T>, start: T, limit: nat, t: Task<T>, m: T)
    requires TaskOk(succ, start, limit, t) && t.depth < limit
    requires m in succ(t.node) && m !in t.path
    ensures TaskOk(succ, start, limit, Task(m, t.path + [m], t.depth + 1))
  {
    var p := t.path + [m];
    forall i | 0 <= i < |p| - 1 ensures p[i + 1] in succ(p[i]) {
      if i < |p| - 2 {
        assert p[i] == t.path[i] && p[i + 1] == t.path[i + 1];
      }
    }
  }

  /** An empty stack that still covers every walk to the goal within the limit proves there is none. */
  lemma EmptyMeansOutOfReach<T(!new)>(succ: T -> seq<T>, start: T, goal: T, limit: nat)
    requires Covered(succ, start, goal, limit, [])
    ensures !ReachableWithin(succ, start, goal, limit)
  {
    forall p | Connects(succ, start, goal, p) ensures |p| - 1 > limit {
      ShortcutToSimple(succ, start, goal, p);
    }
  }

  /** Every task on the stack is at or below the limit. */
  ghost predicate WithinLimit<T>(stack: seq<Task<T>>, limit: nat)
  {
    forall k :: 0 <= k < |stack| ==> stack[k].depth <= limit
  }

  /**
   The stack after the loop pops its top task and finds it is not the goal:
   a task at the limit is dropped; any other is replaced by its children off
   its path, the successors taken in reverse so the left-most is on top.
   */
  ghost function Advance<T(!new)>(succ: T -> seq<T>, limit: nat, stack: seq<Task<T>>): seq<Task<T>>
    requires stack != []
  {
    var t := stack[|stack| - 1];
    if t.depth == limit then stack[..|stack| - 1]
    else stack[..|stack| - 1] + Children(Reverse(succ(t.node)), t.path, t.depth)
  }

  /** Popping a task that is not the goal keeps every task within the limit and lowers the weight. */
  lemma AdvanceLighter<T(!new)>(succ: T -> seq<T>, fanout: nat, limit: nat, stack: seq<Task<T>>)
    requires forall v :: |succ(v)| <= fanout
    requires stack != [] && WithinLimit(stack, limit)
    ensures WithinLimit(Advance(succ, limit, stack), limit)
    ensures Weight(Advance(succ, limit, stack), fanout + 1, limit) < Weight(stack, fanout + 1, limit)
  {
    var rest, t := stack[..|stack| - 1], stack[|stack| - 1];
    SplitLast(stack, []);
    assert Pow(fanout + 1, limit - t.depth) >= 1;
    if t.depth < limit {
      var children := Children(Reverse(succ(t.node)), t.path, t.depth);
      WeightAfterExpand(rest, t, children, fanout, limit);
      forall k | 0 <= k < |rest + children| ensures (rest + children)[k].depth <= limit {
        if k >= |rest| {
          assert (rest + children)[k] == children[k - |rest|];
        }
      }
    }
  }

  /**
   What the loop of `dls_grid` returns when it resumes with `stack` after
   `expansions` expansions: it pops the top task; returns its path when it
   is the goal; skips it when it is at the limit; and otherwise counts one
   expansion and pushes its children.
   */
  ghost function Run<T(!new)>(succ: T -> seq<T>, fanout: nat, goal: T, limit: nat,
                              stack: seq<Task<T>>, expansions: nat): (Option<seq<T>>, nat)
    requires forall v :: |succ(v)| <= fanout
    requires WithinLimit(stack, limit)
    decreases Weight(stack, fanout + 1, limit)
  {
    if stack == [] then (None, expansions)
    else
      var t := stack[|stack| - 1];
      if t.node == goal then (Some(t.path), expansions)
      else
        AdvanceLighter(succ, fanout, limit, stack);
        Run(succ, fanout, goal, limit, Advance(succ, limit, stack),
            if t.depth == limit then expansions else expansions + 1)
  }

  /** The tasks that same loop pops from `stack`, in the order it pops them. */
  ghost function Popped<T(!new)>(succ: T -> seq<T>, fanout: nat, goal: T, limit: nat,
                                    stack: seq<Task<T>>): seq<Task<T>>
    requires forall v :: |succ(v)| <= fanout
    requires WithinLimit(stack, limit)
    decreases Weight(stack, fanout + 1, limit)
  {
    if stack == [] then []
    else
      var t := stack[|stack| - 1];
      if t.node == goal then [t]
      else
        AdvanceLighter(succ, fanout, limit, stack);
        [t] + Popped(succ, fanout, goal, limit, Advance(succ, limit, stack))
  }

  /** The number of popped tasks that were expanded: neither the goal nor at the limit. */
  ghost function Expanding<T>(popped: seq<Task<T>>, goal: T, limit: nat): nat
  {
    if popped == [] then 0
    else (if popped[0].node != goal && popped[0].depth != limit then 1 else 0) + Expanding(popped[1..], goal, limit)
  }

  /** The count the loop returns is the count it started with plus the number of popped tasks it expanded. */
  lemma {:induction false} RunCounts<T(!new)>(succ: T -> seq<T>, fanout: nat, goal: T, limit: nat,
                                                 stack: seq<Task<T>>, expansions: nat)
    requires forall v :: |succ(v)| <= fanout
    requires WithinLimit(stack, limit)
    ensures Run(succ, fanout, goal, limit, stack, expansions).1
         == expansions + Expanding(Popped(succ, fanout, goal, limit, stack), goal, limit)
    decreases Weight(stack, fanout + 1, limit)
  {
    if stack != [] {
      var t := stack[|stack| - 1];
      if t.node == goal {
        assert [t][1..] == [];
      } else {
        AdvanceLighter(succ, fanout, limit, stack);
        var next := Advance(succ, limit, stack);
        var e := if t.depth == limit then expansions else expansions + 1;
        RunCounts(succ, fanout, goal, limit, next, e);
        assert ([t] + Popped(succ, fanout, goal, limit, next))[1..] == Popped(succ, fanout, goal, limit, next);
      }
    }
  }

  /** Every task the loop pops from a stack of valid tasks is valid: its path is a repetition-free walk within the limit. */
  lemma {:induction false} PoppedOk<T(!new)>(succ: T -> seq<T>, fanout: nat, start: T, goal: T, limit: nat,
                                                stack: seq<Task<T>>)
    requires forall v :: |succ(v)| <= fanout
    requires WithinLimit(stack, limit) && AllTasksOk(succ, start, limit, stack)
    ensures AllTasksOk(succ, start, limit, Popped(succ, fanout, goal, limit, stack))
    decreases Weight(stack, fanout + 1, limit)
  {
    if stack != [] {
      var rest, t := stack[..|stack| - 1], stack[|stack| - 1];
      assert TaskOk(succ, start, limit, t);
      if t.node != goal {
        AdvanceLighter(succ, fanout, limit, stack);
        var next := Advance(succ, limit, stack);
        if t.depth != limit {
          ChildrenOk(succ, start, limit, t, Reverse(succ(t.node)));
          AllTasksOkAppend(succ, start, limit, rest, Children(Reverse(succ(t.node)), t.path, t.depth));
        }
        PoppedOk(succ, fanout, start, goal, limit, next);
        AllTasksOkAppend(succ, start, limit, [t], Popped(succ, fanout, goal, limit, next));
      }
    }
  }

  /**
   The loop invariant of the search, over the stack and the expansion count:
   every task is valid, the stack covers every walk to the goal within the
   limit, the weight bounds the expansions still to come, and resuming the
   loop from here ends as the run from the single task for `start` does.
   */
  ghost predicate SearchState<T(!new)>(succ: T -> seq<T>, fanout: nat, start: T, goal: T, limit: nat,
                                       stack: seq<Task<T>>, expansions: nat)
  {
    && (forall v :: |succ(v)| <= fanout)
    && WithinLimit(stack, limit)
    && AllTasksOk(succ, start, limit, stack)
    && Covered(succ, start, goal, limit, stack)
    && (limit == 0 ==> expansions == 0)
    && expansions + Weight(stack, fanout + 1, limit) <= Pow(fanout + 1, limit)
    && Run(succ, fanout, goal, limit, stack, expansions) == Run(succ, fanout, goal, limit, [Task(start, [start], 0)], 0)
  }

  /** The search starts from the single task for `start`. */
  lemma InitialState<T(!new)>(succ: T -> seq<T>, fanout: nat, start: T, goal: T, limit: nat)
    requires forall v :: |succ(v)| <= fanout
    ensures SearchState(succ, fanout, start, goal, limit, [Task(start, [start], 0)], 0)
  {
    var s := [Task(start, [start], 0)];
    assert s[..0] == [];
    assert Weight(s, fanout + 1, limit) == Pow(fanout + 1, limit);
    forall p | Connects(succ, start, goal, p) && Distinct(p) && |p| - 1 <= limit
      ensures exists j :: 0 <= j < |s| && IsPrefix(s[j].path, p)
    {
      assert IsPrefix(s[0].path, p);
    }
  }

  /** Popping the goal: its path is the answer of the run, and the count is final. */
  lemma PopGoal<T(!new)>(succ: T -> seq<T>, fanout: nat, start: T, goal: T, limit: nat,
                         s: seq<Task<T>>, expansions: nat)
    requires SearchState(succ, fanout, start, goal, limit, s, expansions)
    requires |s| > 0 && s[|s| - 1].node == goal
    ensures var t := s[|s| - 1];
      && Connects(succ, start, goal, t.path) && Distinct(t.path) && |t.path| - 1 <= limit
      && ReachableWithin(succ, start, goal, limit)
      && Run(succ, fanout, goal, limit, [Task(start, [start], 0)], 0) == (Some(t.path), expansions)
      && expansions <= Pow(fanout + 1, limit)
  {
    assert TaskOk(succ, start, limit, s[|s| - 1]);
  }

  /** Popping a task at the limit that is not the goal: the rest of the stack resumes the same run. */
  lemma PopCutoff<T(!new)>(succ: T -> seq<T>, fanout: nat, start: T, goal: T, limit: nat,
                           s: seq<Task<T>>, expansions: nat)
    requires SearchState(succ, fanout, start, goal, limit, s, expansions)
    requires |s| > 0 && s[|s| - 1].node != goal && s[|s| - 1].depth == limit
    ensures SearchState(succ, fanout, start, goal, limit, s[..|s| - 1], expansions)
    ensures Weight(s[..|s| - 1], fanout + 1, limit) < Weight(s, fanout + 1, limit)
  {
    var rest, t := s[..|s| - 1], s[|s| - 1];
    SplitLast(s, []);
    assert TaskOk(succ, start, limit, t);
    CoveredAfterCutoff(succ, start, goal, limit, rest, t);
    AdvanceLighter(succ, fanout, limit, s);
  }

  /** Popping a task below the limit that is not the goal and pushing its children: one more expansion of the same run. */
  lemma PopExpand<T(!new)>(succ: T -> seq<T>, fanout: nat, start: T, goal: T, limit: nat,
                           s: seq<Task<T>>, expansions: nat, s': seq<Task<T>>)
    requires SearchState(succ, fanout, start, goal, limit, s, expansions)
    requires |s| > 0 && s[|s| - 1].node != goal && s[|s| - 1].depth != limit
    requires s' == s[..|s| - 1] + Children(Reverse(succ(s[|s| - 1].node)), s[|s| - 1].path, s[|s| - 1].depth)
    ensures SearchState(succ, fanout, start, goal, limit, s', expansions + 1)
    ensures Weight(s', fanout + 1, limit) < Weight(s, fanout + 1, limit)
  {
    var t := s[|s| - 1];
    assert TaskOk(succ, start, limit, t);
    ExpandTask(succ, fanout, start, goal, limit, s, Reverse(succ(t.node)), s');
    AdvanceLighter(succ, fanout, limit, s);
  }

  /** An empty stack: no walk reaches the goal within the limit, and the run ends with no path. */
  lemma PopEmpty<T(!new)>(succ: T -> seq<T>, fanout: nat, start: T, goal: T, limit: nat, expansions: nat)
    requires SearchState(succ, fanout, start, goal, limit, [], expansions)
    ensures !ReachableWithin(succ, start, goal, limit)
    ensures Run(succ, fanout, goal, limit, [Task(start, [start], 0)], 0) == (None, expansions)
    ensures expansions <= Pow(fanout + 1, limit)
  {
    EmptyMeansOutOfReach(succ, start, goal, limit);
  }

  /**
   `dls_grid`: the result is a repetition-free walk from `start` to `goal` of
   at most `limit` moves, and `None` exactly when no walk of at most `limit`
   moves reaches `goal`. The result and the count are those of `Run` from
   the single task for `start`, so `expansions` is the number of popped tasks
   that were neither the goal nor at the limit. `fanout` bounds the number of
   successors of any node; it only bounds the loop.
   */
  method DepthLimitedSearch<T(==,!new)>(succ: T -> seq<T>, ghost fanout: nat, start: T, goal: T, limit: nat)
    returns (result: Option<seq<T>>, expansions: nat)
    requires forall v :: |succ(v)| <= fanout
    ensures (result, expansions) == Run(succ, fanout, goal, limit, [Task(start, [start], 0)], 0)
    ensures expansions == Expanding(Popped(succ, fanout, goal, limit, [Task(start, [start], 0)]), goal, limit)
    ensures AllTasksOk(succ, start, limit, Popped(succ, fanout, goal, limit, [Task(start, [start], 0)]))
    ensures start == goal ==> result == Some([start]) && expansions == 0
    ensures result.Some? ==>
      Connects(succ, start, goal, result.value) && Distinct(result.value) && |result.value| - 1 <= limit
    ensures result.None? <==> !ReachableWithin(succ, start, goal, limit)
    ensures limit == 0 ==> expansions == 0
    ensures expansions <= Pow(fanout + 1, limit)
  {
    var stack := [Task(start, [start], 0)];
    expansions := 0;
    InitialState(succ, fanout, start, goal, limit);
    RunCounts(succ, fanout, goal, limit, stack, 0);
    PoppedOk(succ, fanout, start, goal, limit, stack);
    while |stack| > 0
      invariant SearchState(succ, fanout, start, goal, limit, stack, expansions)
      invariant start == goal ==> stack == [Task(start, [start], 0)] && expansions == 0
      decreases Weight(stack, fanout + 1, limit)
    {
      var t := stack[|stack| - 1];
      if t.node == goal {
        PopGoal(succ, fanout, start, goal, limit, stack, expansions);
        result := Some(t.path);
        return;
      }
      if t.depth == limit {
        PopCutoff(succ, fanout, start, goal, limit, stack, expansions);
        stack := stack[..|stack| - 1];
        continue;
      }
      var nbrs := Reverse(succ(t.node));
      var next := PushOffPath(stack[..|stack| - 1], nbrs, t.path, t.depth);
      PopExpand(succ, fanout, start, goal, limit, stack, expansions, next);
      stack := next;
      expansions := expansions + 1;
    }
    PopEmpty(succ, fanout, start, goal, limit, expansions);
    result := None;
  }
}
