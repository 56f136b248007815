/**
 Frontier entries of the visited-set searches and the expansion step that
 appends a node's successors to the frontier.
 */
module Frontier {
  import opened Walks

  /** The search result: `None` is the "no path found" signal. */
  datatype Option<T> = None | Some(value: T)

  /** A frontier entry: a node together with the path by which it was reached. */
  datatype Entry<T> = Entry(node: T, path: seq<T>)

  /** Some entry of the frontier `q` is for node `w`. */
  ghost predicate HasNode<T>(q: seq<Entry<T>>, w: T)
  {
    exists j :: 0 <= j < |q| && q[j].node == w
  }

  /** The elements of `s` in the opposite order (Python's `reversed`). */
  function Reverse<T(!new)>(s: seq<T>): (r: seq<T>)
    ensures |r| == |s|
    ensures forall i :: 0 <= i < |s| ==> r[i] == s[|s| - 1 - i]
    ensures forall x :: x in r <==> x in s
  {
    if s == [] then []
    else
      var init := s[..|s| - 1];
      assert s == init + [s[|s| - 1]];
      [s[|s| - 1]] + Reverse(init)
  }

  /**
   The entries one expansion appends to the frontier: for each successor in
   `nbrs`, in order, that is not in `visited`, an entry whose path is `path`
   extended by that successor.
   */
  function Expansion<T(==,!new)>(nbrs: seq<T>, visited: set<T>, path: seq<T>): (r: seq<Entry<T>>)
    ensures |r| <= |nbrs|
    ensures forall k :: 0 <= k < |r| ==>
      r[k].node in nbrs && r[k].node !in visited && r[k].path == path + [r[k].node]
    ensures forall m :: m in nbrs && m !in visited ==> HasNode(r, m)
  {
    if nbrs == [] then []
    else
      var init, m := nbrs[..|nbrs| - 1], nbrs[|nbrs| - 1];
      assert nbrs == init + [m];
      var front := Expansion(init, visited, path);
      var r := front + (if m !in visited then [Entry(m, path + [m])] else []);
      assert forall x :: x in nbrs && x !in visited ==> HasNode(r, x) by {
        forall x | x in nbrs && x !in visited ensures HasNode(r, x) {
          if x == m {
            assert r[|front|].node == m;
          } else {
            assert x in init;
            var j :| 0 <= j < |front| && front[j].node == x;
            assert r[j].node == x;
          }
        }
      }
      r
  }

  /** Expansion of a concatenation is the concatenation of the expansions. */
  lemma {:induction false} ExpansionAppend<T(!new)>(a: seq<T>, b: seq<T>, visited: set<T>, path: seq<T>)
    ensures Expansion(a + b, visited, path) == Expansion(a, visited, path) + Expansion(b, visited, path)
    decreases |b|
  {
    if b != [] {
      var init := b[..|b| - 1];
      assert a + b == (a + init) + [b[|b| - 1]];
      assert (a + b)[..|a + b| - 1] == a + init;
      ExpansionAppend(a, init, visited, path);
    } else {
      assert a + b == a;
    }
  }

  /**
   Pushing the successors in reverse order puts the same entries on the
   stack in reverse order, so the entry popped next is that of the first
   (left-most) successor not yet visited.
   */
  lemma {:induction false} ExpansionOfReverse<T(!new)>(nbrs: seq<T>, visited: set<T>, path: seq<T>)
    ensures Expansion(Reverse(nbrs), visited, path) == Reverse(Expansion(nbrs, visited, path))
    decreases |nbrs|
  {
    if nbrs != [] {
      var init, m := nbrs[..|nbrs| - 1], nbrs[|nbrs| - 1];
      var front, tail := Expansion(init, visited, path), Expansion([m], visited, path);
      ExpansionSplit(nbrs, visited, path);
      assert Reverse(nbrs) == [m] + Reverse(init);
      ExpansionAppend([m], Reverse(init), visited, path);
      ExpansionOfReverse(init, visited, path);
      ReverseAppend(front, tail);
      assert Reverse(tail) == tail;
    }
  }

  /** Expansion of a non-empty list: the expansion of all but its last element, then that of its last element. */
  lemma ExpansionSplit<T(!new)>(nbrs: seq<T>, visited: set<T>, path: seq<T>)
    requires nbrs != []
    ensures Expansion(nbrs, visited, path)
         == Expansion(nbrs[..|nbrs| - 1], visited, path) + Expansion([nbrs[|nbrs| - 1]], visited, path)
    ensures |Expansion([nbrs[|nbrs| - 1]], visited, path)| <= 1
  {
    var m := nbrs[|nbrs| - 1];
    assert [m][..0] == [];
  }

  lemma ReverseAppend<T(!new)>(a: seq<T>, b: seq<T>)
    ensures Reverse(a + b) == Reverse(b) + Reverse(a)
  {
    var l, r := Reverse(a + b), Reverse(b) + Reverse(a);
    assert |l| == |r|;
    forall i | 0 <= i < |l| ensures l[i] == r[i] {
      if i < |b| {
        assert r[i] == Reverse(b)[i] == b[|b| - 1 - i];
      } else {
        assert r[i] == Reverse(a)[i - |b|] == a[|a| - 1 - (i - |b|)];
      }
    }
  }

  /** The shapes in which a queue is handed to the step lemmas when its head is popped. */
  lemma SplitHead<E>(q: seq<E>, tail: seq<E>)
    requires |q| > 0
    ensures q == [] + [q[0]] + q[1..]
    ensures q[1..] + tail == [] + q[1..] + tail
  {
  }

  /** The shapes in which a stack is handed to the step lemmas when its top is popped. */
  lemma SplitLast<E>(s: seq<E>, tail: seq<E>)
    requires |s| > 0
    ensures s == s[..|s| - 1] + [s[|s| - 1]] + [] == s[..|s| - 1] + [s[|s| - 1]]
    ensures s[..|s| - 1] + tail == s[..|s| - 1] + [] + tail
  {
  }

  /**
   The inner loop of an expansion: appends, in order, an entry for each
   successor in `nbrs` that is not in `visited`.
   */
  method PushUnvisited<T(==,!new)>(frontier: seq<Entry<T>>, nbrs: seq<T>, visited: set<T>, path: seq<T>)
    returns (r: seq<Entry<T>>)
    ensures r == frontier + Expansion(nbrs, visited, path)
  {
    r := frontier;
    var i := 0;
    while i < |nbrs|
      invariant 0 <= i <= |nbrs|
      invariant r == frontier + Expansion(nbrs[..i], visited, path)
    {
      ExpansionStep(nbrs, i, visited, path);
      if nbrs[i] !in visited {
        var entry := Entry(nbrs[i], path + [nbrs[i]]);
        AppendAssoc(frontier, Expansion(nbrs[..i], visited, path), [entry]);
        r := r + [entry];
      } else {
        AppendAssoc(frontier, Expansion(nbrs[..i], visited, path), []);
      }
      i := i + 1;
    }
    assert nbrs[..i] == nbrs;
  }

  /** The expansion of one more successor: that of the ones before it, then its own entry if it is unvisited. */
  lemma ExpansionStep<T(!new)>(nbrs: seq<T>, i: nat, visited: set<T>, path: seq<T>)
    requires i < |nbrs|
    ensures Expansion(nbrs[..i + 1], visited, path)
         == Expansion(nbrs[..i], visited, path)
            + (if nbrs[i] !in visited then [Entry(nbrs[i], path + [nbrs[i]])] else [])
  {
    assert nbrs[..i + 1][..i] == nbrs[..i];
  }

  lemma AppendAssoc<E>(a: seq<E>, b: seq<E>, c: seq<E>)
    ensures a + (b + c) == a + b + c
  {
  }
}
