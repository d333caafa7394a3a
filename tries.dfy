/**
 The binary PATRICIA trie the cursor walks over, reduced to what navigation
 sees: a leaf carries a key, an internal node carries its skip (the bit length
 of its compressed prefix) and exactly two children, indexed by side 0 and 1.
 A position below a node is the sequence of sides taken from it.
 */
module Tries {

  datatype Option<T> = None | Some(value: T)

  /** The side of an edge, `qid` in the cursor: 0 or 1. */
  type Side = b: nat | b < 2

  function Other(s: Side): (r: Side)
    ensures r != s
  {
    1 - s
  }

  datatype Trie = Leaf(key: seq<bool>) | Node(skip: nat, child0: Trie, child1: Trie)

  function Child(t: Trie, s: Side): (r: Trie)
    requires t.Node?
  {
    if s == 0 then t.child0 else t.child1
  }

  /** The subtree reached from the top of `t` by taking the sides of `p`, if any. */
  function Walk(t: Trie, p: seq<Side>): (r: Option<Trie>)
    decreases p
  {
    if p == [] then Some(t)
    else if t.Leaf? then None
    else Walk(Child(t, p[0]), p[1..])
  }

  /** Walking `a + b` is walking `a`, then `b` from where `a` ended. */
  lemma {:induction false} WalkConcat(t: Trie, a: seq<Side>, b: seq<Side>)
    ensures Walk(t, a + b) == if Walk(t, a).Some? then Walk(Walk(t, a).value, b) else None
    decreases a
  {
    if a == [] {
      assert a + b == b;
    } else if t.Leaf? {
    } else {
      assert (a + b)[0] == a[0] && (a + b)[1..] == a[1..] + b;
      WalkConcat(Child(t, a[0]), a[1..], b);
    }
  }

  /** One more step: the edge `p + [s]` exists exactly when `p` leads to an internal node. */
  lemma WalkAppend(t: Trie, p: seq<Side>, s: Side)
    ensures Walk(t, p + [s]) == if Walk(t, p).Some? && Walk(t, p).value.Node?
                                then Some(Child(Walk(t, p).value, s)) else None
  {
    WalkConcat(t, p, [s]);
  }

  /**
   The sides taken when descending from the top of `t` always on side `s` until
   a leaf is reached: the path to the leftmost (`s == 0`) or rightmost leaf.
   */
  function Spine(t: Trie, s: Side): (r: seq<Side>)
    ensures forall i :: 0 <= i < |r| ==> r[i] == s
    ensures Walk(t, r).Some? && Walk(t, r).value.Leaf?
    ensures r == [] <==> t.Leaf?
  {
    if t.Leaf? then [] else [s] + Spine(Child(t, s), s)
  }

  /** An edge leading to `t` stops a descent bounded by `limit`. */
  predicate Limits(t: Trie, limit: nat)
  {
    t.Leaf? || t.skip >= limit
  }

  /**
   The sides taken when descending on side `s` from the top of `t` while the
   current subtree is an internal node whose skip is below `limit`.
   */
  function LimitedSpine(t: Trie, s: Side, limit: nat): (r: seq<Side>)
    ensures r <= Spine(t, s)
    ensures Walk(t, r).Some? && Limits(Walk(t, r).value, limit)
    ensures r == [] <==> Limits(t, limit)
  {
    if Limits(t, limit) then [] else [s] + LimitedSpine(Child(t, s), s, limit)
  }

  /** Every edge a bounded descent passes before it stops is not yet limited. */
  lemma {:induction false} LimitedSpineStopsAtFirst(t: Trie, s: Side, limit: nat, i: nat)
    requires i < |LimitedSpine(t, s, limit)|
    ensures Walk(t, LimitedSpine(t, s, limit)[..i]).Some?
    ensures !Limits(Walk(t, LimitedSpine(t, s, limit)[..i]).value, limit)
  {
    var r := LimitedSpine(t, s, limit);
    if i == 0 {
      assert r[..0] == [];
    } else {
      var r' := LimitedSpine(Child(t, s), s, limit);
      assert r[..i] == [s] + r'[..i - 1];
      assert ([s] + r'[..i - 1])[1..] == r'[..i - 1];
      LimitedSpineStopsAtFirst(Child(t, s), s, limit, i - 1);
    }
  }

  /** A smaller limit stops a bounded descent no later than a larger one. */
  lemma {:induction false} LimitedSpineMonotone(t: Trie, s: Side, a: nat, b: nat)
    requires a <= b
    ensures LimitedSpine(t, s, a) <= LimitedSpine(t, s, b)
  {
    if !Limits(t, a) {
      LimitedSpineMonotone(Child(t, s), s, a, b);
    }
  }

  function Prefixed(b: Side, ps: seq<seq<Side>>): (r: seq<seq<Side>>)
    ensures |r| == |ps|
    ensures forall i {:trigger r[i]} :: 0 <= i < |r| ==> r[i] == [b] + ps[i]
  {
    seq(|ps|, i requires 0 <= i < |ps| => [b] + ps[i])
  }

  lemma PrefixedMember(b: Side, ps: seq<seq<Side>>, p: seq<Side>)
    ensures p in Prefixed(b, ps) <==> p != [] && p[0] == b && p[1..] in ps
  {
    var r := Prefixed(b, ps);
    if p in r {
      var i :| 0 <= i < |r| && r[i] == p;
      assert p[1..] == ps[i];
    }
    if p != [] && p[0] == b && p[1..] in ps {
      var i :| 0 <= i < |ps| && ps[i] == p[1..];
      assert r[i] == p;
    }
  }

  function LeafCount(t: Trie): (n: nat)
    ensures n >= 1
  {
    if t.Leaf? then 1 else LeafCount(t.child0) + LeafCount(t.child1)
  }

  /**
   The paths to the leaves of `t`, each node's `d` child visited before its
   other child. `LeavesFrom(t, 0)` is the ascending (0-before-1) order.
   */
  function LeavesFrom(t: Trie, d: Side): (r: seq<seq<Side>>)
    ensures |r| == LeafCount(t)
  {
    if t.Leaf? then [[]]
    else Prefixed(d, LeavesFrom(Child(t, d), d)) + Prefixed(Other(d), LeavesFrom(Child(t, Other(d)), d))
  }

  /** The first listed leaf is reached by descending on side `d`, the last by descending on the other side. */
  lemma {:induction false} LeavesFromEnds(t: Trie, d: Side)
    ensures LeavesFrom(t, d)[0] == Spine(t, d)
    ensures LeavesFrom(t, d)[LeafCount(t) - 1] == Spine(t, Other(d))
    decreases t
  {
    if t.Node? {
      LeavesFromEnds(Child(t, d), d);
      LeavesFromEnds(Child(t, Other(d)), d);
      LeavesFromNodeEnds(t, d);
      assert Spine(t, d) == [d] + Spine(Child(t, d), d);
      assert Spine(t, Other(d)) == [Other(d)] + Spine(Child(t, Other(d)), Other(d));
    }
  }

  /** The first listed leaf of a node is below its `d` child, the last below its other child. */
  lemma LeavesFromNodeEnds(t: Trie, d: Side)
    requires t.Node?
    ensures LeavesFrom(t, d)[0] == [d] + LeavesFrom(Child(t, d), d)[0]
    ensures LeavesFrom(t, d)[LeafCount(t) - 1] ==
      [Other(d)] + LeavesFrom(Child(t, Other(d)), d)[LeafCount(Child(t, Other(d))) - 1]
  {
    var A := LeavesFrom(Child(t, d), d);
    var B := LeavesFrom(Child(t, Other(d)), d);
    assert LeavesFrom(t, d) == Prefixed(d, A) + Prefixed(Other(d), B);
    assert LeavesFrom(t, d)[0] == Prefixed(d, A)[0];
    assert LeavesFrom(t, d)[LeafCount(t) - 1] == Prefixed(Other(d), B)[|B| - 1];
  }

  function Leaves(t: Trie): (r: seq<seq<Side>>)
  {
    LeavesFrom(t, 0)
  }

  /** The listed paths are exactly the paths that end on a leaf. */
  lemma {:induction false} LeavesAreLeafPaths(t: Trie, d: Side, p: seq<Side>)
    ensures p in LeavesFrom(t, d) <==> Walk(t, p).Some? && Walk(t, p).value.Leaf?
    decreases t
  {
    if t.Node? {
      var A := LeavesFrom(Child(t, d), d);
      var B := LeavesFrom(Child(t, Other(d)), d);
      PrefixedMember(d, A, p);
      PrefixedMember(Other(d), B, p);
      if p != [] {
        LeavesAreLeafPaths(Child(t, p[0]), d, p[1..]);
      }
    }
  }

  /** No leaf path is listed twice. */
  lemma {:induction false} LeavesDistinct(t: Trie, d: Side)
    ensures forall i, j :: 0 <= i < j < |LeavesFrom(t, d)| ==> LeavesFrom(t, d)[i] != LeavesFrom(t, d)[j]
    decreases t
  {
    if t.Node? {
      var L := LeavesFrom(t, d);
      var A := LeavesFrom(Child(t, d), d);
      var B := LeavesFrom(Child(t, Other(d)), d);
      LeavesDistinct(Child(t, d), d);
      LeavesDistinct(Child(t, Other(d)), d);
      forall i, j | 0 <= i < j < |L| ensures L[i] != L[j] {
        if j < |A| {
          assert L[i][1..] == A[i] && L[j][1..] == A[j];
        } else if i >= |A| {
          assert L[i][1..] == B[i - |A|] && L[j][1..] == B[j - |A|];
        } else {
          assert L[i][0] == d && L[j][0] == Other(d);
        }
      }
    }
  }

  /** Visiting side 1 first lists the leaves in exactly the reverse order. */
  lemma {:induction false} LeavesReversed(t: Trie)
    ensures forall i :: 0 <= i < LeafCount(t) ==> LeavesFrom(t, 1)[i] == LeavesFrom(t, 0)[LeafCount(t) - 1 - i]
    decreases t
  {
    if t.Node? {
      LeavesReversed(t.child0);
      LeavesReversed(t.child1);
      SwappedHalvesReversed(LeavesFrom(t.child0, 0), LeavesFrom(t.child1, 0),
                            LeavesFrom(t.child0, 1), LeavesFrom(t.child1, 1));
    }
  }

  /** Reversing both halves and swapping them reverses the whole listing. */
  lemma SwappedHalvesReversed(A0: seq<seq<Side>>, B0: seq<seq<Side>>, A1: seq<seq<Side>>, B1: seq<seq<Side>>)
    requires |A1| == |A0| && |B1| == |B0|
    requires forall i :: 0 <= i < |A1| ==> A1[i] == A0[|A0| - 1 - i]
    requires forall i :: 0 <= i < |B1| ==> B1[i] == B0[|B0| - 1 - i]
    ensures forall i :: 0 <= i < |A0| + |B0| ==>
      (Prefixed(1, B1) + Prefixed(0, A1))[i] == (Prefixed(0, A0) + Prefixed(1, B0))[|A0| + |B0| - 1 - i]
  {
    var L0 := Prefixed(0, A0) + Prefixed(1, B0);
    var L1 := Prefixed(1, B1) + Prefixed(0, A1);
    var na, nb := |A0|, |B0|;
    forall i | 0 <= i < na + nb ensures L1[i] == L0[na + nb - 1 - i] {
      if i < nb {
        assert L1[i] == Prefixed(1, B1)[i] == [1] + B1[i];
        assert L0[na + nb - 1 - i] == Prefixed(1, B0)[nb - 1 - i];
      } else {
        assert L1[i] == Prefixed(0, A1)[i - nb] == [0] + A1[i - nb];
        assert L0[na + nb - 1 - i] == Prefixed(0, A0)[na - 1 - (i - nb)];
      }
    }
  }

  /**
   `move_subtree<s>()` on a path: drop the trailing run of `s` steps, then
   flip the step before it, an `Other(s)` step, to `s`.
   */
  function MoveSubtreePath(p: seq<Side>, s: Side): (r: seq<Side>)
    requires Other(s) in p
    ensures 1 <= |r| <= |p| && r[|r| - 1] == s
    decreases |p|
  {
    if p[|p| - 1] == s then
      assert Other(s) in p[..|p| - 1] by {
        var i :| 0 <= i < |p| && p[i] == Other(s);
        assert p[..|p| - 1][i] == Other(s);
      }
      MoveSubtreePath(p[..|p| - 1], s)
    else
      p[..|p| - 1] + [s]
  }

  /**
   What `move_subtree<s>()` does, stated without the loop: the result keeps the
   path up to the last `Other(s)` step, and ends with `s` in its place; every
   step after that one was an `s` step.
   */
  lemma {:induction false} MoveSubtreePathShape(p: seq<Side>, s: Side)
    requires Other(s) in p
    ensures var r := MoveSubtreePath(p, s);
      && r[..|r| - 1] == p[..|r| - 1]
      && p[|r| - 1] == Other(s)
      && forall i :: |r| <= i < |p| ==> p[i] == s
    decreases |p|
  {
    if p[|p| - 1] == s {
      var i :| 0 <= i < |p| && p[i] == Other(s);
      assert p[..|p| - 1][i] == Other(s);
      MoveSubtreePathShape(p[..|p| - 1], s);
    }
  }

  /** A prefix above the turning point is carried along unchanged. */
  lemma {:induction false} MoveSubtreePrefix(pre: seq<Side>, p: seq<Side>, s: Side)
    requires Other(s) in p
    ensures Other(s) in pre + p
    ensures MoveSubtreePath(pre + p, s) == pre + MoveSubtreePath(p, s)
    decreases |p|
  {
    var i :| 0 <= i < |p| && p[i] == Other(s);
    assert (pre + p)[|pre| + i] == Other(s);
    assert (pre + p)[..|pre + p| - 1] == pre + p[..|p| - 1];
    if p[|p| - 1] == s {
      assert p[..|p| - 1][i] == Other(s);
      MoveSubtreePrefix(pre, p[..|p| - 1], s);
    }
  }

  /** A trailing run of `s` steps after an `Other(s)` step is skipped in one go. */
  lemma {:induction false} MoveSubtreeOverRun(pre: seq<Side>, run: seq<Side>, s: Side)
    requires forall i :: 0 <= i < |run| ==> run[i] == s
    ensures Other(s) in pre + [Other(s)] + run
    ensures MoveSubtreePath(pre + [Other(s)] + run, s) == pre + [s]
    decreases |run|
  {
    var p := pre + [Other(s)] + run;
    assert p[|pre|] == Other(s);
    if run == [] {
      assert p[..|p| - 1] == pre;
    } else {
      assert p[..|p| - 1] == pre + [Other(s)] + run[..|run| - 1];
      MoveSubtreeOverRun(pre, run[..|run| - 1], s);
    }
  }

  /** Ascending also skips any run of `s` steps appended below the start. */
  lemma {:induction false} MoveSubtreeSkipsRun(p: seq<Side>, run: seq<Side>, s: Side)
    requires Other(s) in p
    requires forall i :: 0 <= i < |run| ==> run[i] == s
    ensures Other(s) in p + run
    ensures MoveSubtreePath(p + run, s) == MoveSubtreePath(p, s)
    decreases |run|
  {
    var i :| 0 <= i < |p| && p[i] == Other(s);
    assert (p + run)[i] == Other(s);
    if run != [] {
      assert (p + run)[|p + run| - 1] == s;
      assert (p + run)[..|p + run| - 1] == p + run[..|run| - 1];
      MoveSubtreeSkipsRun(p, run[..|run| - 1], s);
      assert MoveSubtreePath(p + run, s) == MoveSubtreePath(p + run[..|run| - 1], s);
    } else {
      assert p + run == p;
    }
  }

  /** `move<s>()` on paths below the top of `t`. */
  function MoveIn(t: Trie, p: seq<Side>, s: Side): (r: seq<Side>)
    requires Other(s) in p
    ensures MoveSubtreePath(p, s) <= r
  {
    var m := MoveSubtreePath(p, s);
    m + if Walk(t, m).Some? then Spine(Walk(t, m).value, Other(s)) else []
  }

  /** A move below the `b` child of `t` stays below it. */
  lemma MoveInChild(t: Trie, b: Side, q: seq<Side>, s: Side)
    requires t.Node? && Other(s) in q
    ensures Other(s) in [b] + q
    ensures MoveIn(t, [b] + q, s) == [b] + MoveIn(Child(t, b), q, s)
  {
    MoveSubtreePrefix([b], q, s);
    var m := MoveSubtreePath(q, s);
    assert MoveSubtreePath([b] + q, s) == [b] + m;
    assert ([b] + m)[1..] == m;
    assert Walk(t, [b] + m) == Walk(Child(t, b), m);
  }

  /** From the last leaf below one child, a move crosses to the first leaf below the other. */
  lemma MoveAcrossNode(t: Trie, s: Side)
    requires t.Node?
    ensures Other(s) in [Other(s)] + Spine(Child(t, Other(s)), s)
    ensures MoveIn(t, [Other(s)] + Spine(Child(t, Other(s)), s), s) == [s] + Spine(Child(t, s), Other(s))
  {
    var run := Spine(Child(t, Other(s)), s);
    MoveSubtreeOverRun([], run, s);
    assert [] + [Other(s)] + run == [Other(s)] + run;
    var m := MoveSubtreePath([Other(s)] + run, s);
    assert m == [s];
    assert [s][1..] == [];
    assert Walk(t, m) == Walk(Child(t, s), []) == Some(Child(t, s));
  }

  /**
   In a trie, `move<s>()` from the k-th leaf in `Other(s)`-first order reaches
   the (k+1)-th: `move<1>` is the in-order successor, `move<0>` (read in the
   side-1-first order) the predecessor.
   */
  lemma {:induction false} SuccessorInTrie(t: Trie, s: Side, k: nat)
    requires k + 1 < |LeavesFrom(t, Other(s))|
    ensures Other(s) in LeavesFrom(t, Other(s))[k]
    ensures MoveIn(t, LeavesFrom(t, Other(s))[k], s) == LeavesFrom(t, Other(s))[k + 1]
    decreases t
  {
    var d := Other(s);
    var L := LeavesFrom(t, d);
    assert t.Node?;
    var A := LeavesFrom(Child(t, d), d);
    var B := LeavesFrom(Child(t, s), d);
    assert L == Prefixed(d, A) + Prefixed(s, B);
    if k + 1 < |A| {
      SuccessorInTrie(Child(t, d), s, k);
      MoveInChild(t, d, A[k], s);
    } else if k + 1 == |A| {
      LeavesFromEnds(Child(t, d), d);
      LeavesFromEnds(Child(t, s), d);
      assert L[k] == [d] + Spine(Child(t, d), s);
      assert L[k + 1] == [s] + Spine(Child(t, s), d);
      MoveAcrossNode(t, s);
    } else {
      SuccessorInTrie(Child(t, s), s, k - |A|);
      MoveInChild(t, s, B[k - |A|], s);
    }
  }

  /** Two neighbours in ascending leaf order are neighbours, swapped, in side-1-first order. */
  lemma ReversedNeighbours(t: Trie, k: nat, j: nat)
    requires k + 1 < LeafCount(t) && j == LeafCount(t) - 2 - k
    ensures LeavesFrom(t, 1)[j] == Leaves(t)[k + 1]
    ensures LeavesFrom(t, 1)[j + 1] == Leaves(t)[k]
  {
    LeavesReversed(t);
  }

  /** Inside a trie, `move<0>()` from the (k+1)-th leaf in ascending order reaches the k-th. */
  lemma PredecessorInTrie(t: Trie, k: nat)
    requires k + 1 < LeafCount(t)
    ensures 1 in Leaves(t)[k + 1]
    ensures MoveIn(t, Leaves(t)[k + 1], 0) == Leaves(t)[k]
  {
    var j := LeafCount(t) - 2 - k;
    ReversedNeighbours(t, k, j);
    SuccessorFromSide1(t, j);
  }

  /** `SuccessorInTrie` for `move<0>()`, whose order visits side 1 first. */
  lemma SuccessorFromSide1(t: Trie, j: nat)
    requires j + 1 < LeafCount(t)
    ensures 1 in LeavesFrom(t, 1)[j]
    ensures MoveIn(t, LeavesFrom(t, 1)[j], 0) == LeavesFrom(t, 1)[j + 1]
  {
    SuccessorInTrie(t, 0, j);
  }
}
