/**
 The edges of a container as a cursor sees them, and what each cursor
 operation does to an edge, written as functions. An edge is named by the
 sides taken from a virtual header node: the root of the trie hangs off side 0
 of the header, and side 1 of the header is the one-past-the-end sentinel.
 The cursor's `q` is the node the last step leaves (the header for the two
 header edges, null in an empty container) and its `qid` is the last side.
 */
module Edges {
  import opened Tries

  /** The container a cursor borrows; in an empty one, `get_q()` is null on every cursor. */
  datatype Container = Empty | Rooted(root: Trie)

  const RootEdge: seq<Side> := [0]
  const EndEdge: seq<Side> := [1]

  function Last(p: seq<Side>): (r: Side)
    requires p != []
  {
    p[|p| - 1]
  }

  function Init(p: seq<Side>): (r: seq<Side>)
    requires p != []
  {
    p[..|p| - 1]
  }

  /** The trie node an edge leads to (the cursor's `get_p()`), if there is one. */
  function At(c: Container, p: seq<Side>): (r: Option<Trie>)
    ensures p == RootEdge ==> r == if c.Rooted? then Some(c.root) else None
    ensures p == EndEdge ==> r == None
  {
    if c.Rooted? && p != [] && p[0] == 0 then Walk(c.root, p[1..]) else None
  }

  /** The edges a cursor can stand on: the two header edges and every edge of the trie. */
  predicate ValidEdge(c: Container, p: seq<Side>)
  {
    p == RootEdge || p == EndEdge || At(c, p).Some?
  }

  /** `get_qtag()`: the edge does not lead to an internal node. */
  predicate IsLeafEdge(c: Container, p: seq<Side>)
  {
    !(At(c, p).Some? && At(c, p).value.Node?)
  }

  /** Following more sides below a real edge is walking the subtree it leads to. */
  lemma AtConcat(c: Container, p: seq<Side>, q: seq<Side>)
    requires p != []
    ensures At(c, p + q) == if At(c, p).Some? then Walk(At(c, p).value, q) else None
  {
    assert (p + q)[0] == p[0];
    if c.Rooted? && p[0] == 0 {
      assert (p + q)[1..] == p[1..] + q;
      WalkConcat(c.root, p[1..], q);
    }
  }

  lemma AtAppend(c: Container, p: seq<Side>, s: Side)
    requires p != []
    ensures At(c, p + [s]) == if !IsLeafEdge(c, p) then Some(Child(At(c, p).value, s)) else None
  {
    AtConcat(c, p, [s]);
    if At(c, p).Some? {
      var t := At(c, p).value;
      if t.Node? {
        assert [s][1..] == [];
        assert Walk(t, [s]) == Walk(Child(t, s), []);
      }
    }
  }

  /** `iterate(s)` from an edge leading to an internal node reaches that node's `s` child. */
  lemma IterateEdge(c: Container, p: seq<Side>, s: Side)
    requires ValidEdge(c, p) && !IsLeafEdge(c, p)
    ensures ValidEdge(c, p + [s])
    ensures At(c, p + [s]) == Some(Child(At(c, p).value, s))
  {
    AtAppend(c, p, s);
  }

  /** Below the header, `ascend()` reaches the edge of the internal node the cursor came from. */
  lemma AscendEdge(c: Container, p: seq<Side>)
    requires ValidEdge(c, p) && |p| > 1
    ensures ValidEdge(c, Init(p)) && !IsLeafEdge(c, Init(p))
  {
    assert p == Init(p) + [Last(p)];
    AtAppend(c, Init(p), Last(p));
  }

  /** `toggle()`: the sibling edge, which crosses between the root and the end sentinel at the header. */
  function Toggled(p: seq<Side>): (r: seq<Side>)
    requires p != []
    ensures |r| == |p| && r[..|r| - 1] == p[..|p| - 1] && r[|r| - 1] != p[|p| - 1]
  {
    Init(p) + [Other(Last(p))]
  }

  lemma ToggleInvolution(p: seq<Side>)
    requires p != []
    ensures Toggled(Toggled(p)) == p
  {
    assert p == Init(p) + [Last(p)];
  }

  lemma ToggleEdge(c: Container, p: seq<Side>)
    requires ValidEdge(c, p)
    ensures ValidEdge(c, Toggled(p))
  {
    if |p| > 1 {
      AscendEdge(c, p);
      AtAppend(c, Init(p), Other(Last(p)));
    }
  }

  /** The sides `descend<s>()` takes from edge `p`. */
  function DescendPath(c: Container, p: seq<Side>, s: Side): (r: seq<Side>)
    ensures forall i :: 0 <= i < |r| ==> r[i] == s
    ensures r == [] <==> IsLeafEdge(c, p)
  {
    if At(c, p).Some? then Spine(At(c, p).value, s) else []
  }

  lemma DescendStep(c: Container, p: seq<Side>, s: Side)
    requires ValidEdge(c, p) && !IsLeafEdge(c, p)
    ensures DescendPath(c, p, s) == [s] + DescendPath(c, p + [s], s)
  {
    IterateEdge(c, p, s);
  }

  /**
   `descend<s>()` from a real edge ends on a leaf edge: the leftmost leaf of the
   subtree when `s == 0`, the rightmost when `s == 1`.
   */
  lemma DescendReachesLeaf(c: Container, p: seq<Side>, s: Side)
    requires ValidEdge(c, p)
    ensures ValidEdge(c, p + DescendPath(c, p, s)) && IsLeafEdge(c, p + DescendPath(c, p, s))
    ensures At(c, p).Some? ==>
      var t := At(c, p).value;
      DescendPath(c, p, s) == Leaves(t)[if s == 0 then 0 else LeafCount(t) - 1]
  {
    var r := DescendPath(c, p, s);
    if At(c, p).Some? {
      var t := At(c, p).value;
      AtConcat(c, p, r);
      LeavesFromEnds(t, 0);
    } else {
      assert p + r == p;
    }
  }

  /** `next_skip()`: the skip of the internal node the edge leads to; only for edges that are not leaf edges. */
  function NextSkipAt(c: Container, p: seq<Side>): (r: nat)
    requires !IsLeafEdge(c, p)
    ensures At(c, p).value.Node? && At(c, p).value.skip == r
  {
    At(c, p).value.skip
  }

  /** `skip()`: the skip of the node `q` the edge leaves; the header has none. */
  function SkipAt(c: Container, p: seq<Side>): (r: nat)
    requires ValidEdge(c, p) && |p| > 1
    ensures At(c, Init(p)).Some? && At(c, Init(p)).value.Node? && At(c, Init(p)).value.skip == r
  {
    AscendEdge(c, p);
    At(c, Init(p)).value.skip
  }

  /** `limited(limit)`: the edge is a leaf edge or the node it leads to has a skip of at least `limit`. */
  predicate LimitedAt(c: Container, p: seq<Side>, limit: nat)
    ensures LimitedAt(c, p, limit) <==>
      (At(c, p).Some? && At(c, p).value.Node? ==> At(c, p).value.skip >= limit)
  {
    IsLeafEdge(c, p) || NextSkipAt(c, p) >= limit
  }

  /** `limited` is monotone in the limit. */
  lemma LimitedMonotone(c: Container, p: seq<Side>, a: nat, b: nat)
    requires a <= b && LimitedAt(c, p, b)
    ensures LimitedAt(c, p, a)
  {
  }

  /** The sides `descend<s>(limit)` takes from edge `p`. */
  function DescendLimitedPath(c: Container, p: seq<Side>, s: Side, limit: nat): (r: seq<Side>)
    ensures r <= DescendPath(c, p, s)
    ensures r == [] <==> LimitedAt(c, p, limit)
  {
    if At(c, p).Some? then LimitedSpine(At(c, p).value, s, limit) else []
  }

  lemma DescendLimitedStep(c: Container, p: seq<Side>, s: Side, limit: nat)
    requires ValidEdge(c, p) && !LimitedAt(c, p, limit)
    ensures !IsLeafEdge(c, p)
    ensures DescendLimitedPath(c, p, s, limit) == [s] + DescendLimitedPath(c, p + [s], s, limit)
  {
    IterateEdge(c, p, s);
  }

  /**
   `descend<s>(limit)` ends on a limited edge and stops at the first one: every
   edge it passes on the way is not limited.
   */
  lemma DescendLimitedStopsAtFirst(c: Container, p: seq<Side>, s: Side, limit: nat)
    requires ValidEdge(c, p)
    ensures ValidEdge(c, p + DescendLimitedPath(c, p, s, limit))
    ensures LimitedAt(c, p + DescendLimitedPath(c, p, s, limit), limit)
    ensures forall i :: 0 <= i < |DescendLimitedPath(c, p, s, limit)| ==>
      !LimitedAt(c, p + DescendLimitedPath(c, p, s, limit)[..i], limit)
  {
    var r := DescendLimitedPath(c, p, s, limit);
    if At(c, p).Some? {
      var t := At(c, p).value;
      AtConcat(c, p, r);
      forall i | 0 <= i < |r| ensures !LimitedAt(c, p + r[..i], limit) {
        LimitedSpineStopsAtFirst(t, s, limit, i);
        AtConcat(c, p, r[..i]);
      }
    } else {
      assert p + r == p;
    }
  }

  /** A bounded descent with a smaller limit stops no later than one with a larger limit. */
  lemma DescendLimitedMonotone(c: Container, p: seq<Side>, s: Side, a: nat, b: nat)
    requires a <= b
    ensures DescendLimitedPath(c, p, s, a) <= DescendLimitedPath(c, p, s, b)
  {
    if At(c, p).Some? {
      LimitedSpineMonotone(At(c, p).value, s, a, b);
    }
  }

  /** `move<s>()`: `move_subtree<s>()`, then `descend` on the other side. */
  function MovePath(c: Container, p: seq<Side>, s: Side): (r: seq<Side>)
    requires Other(s) in p
    ensures MoveSubtreePath(p, s) <= r
  {
    var m := MoveSubtreePath(p, s);
    m + DescendPath(c, m, Other(s))
  }

  /** `move<s>()` from an existing edge ends on an existing leaf edge. */
  lemma MoveReachesLeaf(c: Container, p: seq<Side>, s: Side)
    requires ValidEdge(c, p) && Other(s) in p
    ensures ValidEdge(c, MovePath(c, p, s)) && IsLeafEdge(c, MovePath(c, p, s))
  {
    MoveSubtreeEdge(c, p, s);
    DescendReachesLeaf(c, MoveSubtreePath(p, s), Other(s));
  }

  /** `move_subtree<s>()` keeps the cursor on an existing edge. */
  lemma {:induction false} MoveSubtreeEdge(c: Container, p: seq<Side>, s: Side)
    requires ValidEdge(c, p) && Other(s) in p
    ensures ValidEdge(c, MoveSubtreePath(p, s))
    decreases |p|
  {
    if Last(p) == s {
      var i :| 0 <= i < |p| && p[i] == Other(s);
      assert Init(p)[i] == Other(s);
      AscendEdge(c, p);
      MoveSubtreeEdge(c, Init(p), s);
    } else {
      assert MoveSubtreePath(p, s) == Toggled(p);
      ToggleEdge(c, p);
    }
  }

  /** Inside the trie, a container-level move is the trie-level move below the root edge. */
  lemma MoveBelowRoot(t: Trie, q: seq<Side>, s: Side)
    requires Other(s) in q
    ensures Other(s) in [0] + q
    ensures MovePath(Rooted(t), [0] + q, s) == [0] + MoveIn(t, q, s)
  {
    MoveSubtreePrefix([0], q, s);
    var m := MoveSubtreePath(q, s);
    assert ([0] + m)[1..] == m;
    assert At(Rooted(t), [0] + m) == Walk(t, m);
  }

  /** `compact()` reads the node identity of `q` and `qid` packed into one word; null has identity 0. */
  function Encode(p: seq<Side>): (r: nat)
    ensures r >= 1
  {
    if p == [] then 1 else 2 * Encode(Init(p)) + Last(p)
  }

  lemma {:induction false} EncodeInjective(p: seq<Side>, q: seq<Side>)
    requires Encode(p) == Encode(q)
    ensures p == q
    decreases |p|
  {
    if p != [] && q != [] {
      EncodeInjective(Init(p), Init(q));
      assert p == Init(p) + [Last(p)];
      assert q == Init(q) + [Last(q)];
    }
  }

  /** A stand-in for the address of `q`: 0 for null, otherwise a code of the node's position. */
  function NodeUid(c: Container, p: seq<Side>): (r: nat)
    requires p != []
  {
    if c.Empty? then 0 else Encode(Init(p))
  }

  function CompactWord(c: Container, p: seq<Side>): (r: nat)
    requires p != []
    ensures r % 2 == Last(p)
    ensures r == 0 <==> c.Empty? && Last(p) == 0
  {
    2 * NodeUid(c, p) + Last(p)
  }

  /** The position a node code stands for. */
  function DecodeUid(w: nat): (r: seq<Side>)
    requires w >= 1
    ensures Encode(r) == w
    decreases w
  {
    if w == 1 then []
    else
      var r := DecodeUid(w / 2) + [w % 2];
      assert Init(r) == DecodeUid(w / 2);
      r
  }

  /**
   The edge named by a compact word, as the `(cont, qq)` constructor reads it:
   `qid` is the low bit and the rest identifies `q`.
   */
  function CompactEdge(c: Container, w: nat): (r: seq<Side>)
    ensures r != [] && Last(r) == w % 2
    ensures (c.Empty? ==> w < 2) && (c.Rooted? ==> w >= 2) ==> CompactWord(c, r) == w
  {
    if c.Empty? || w < 2 then [w % 2]
    else
      var r := DecodeUid(w / 2) + [w % 2];
      assert Init(r) == DecodeUid(w / 2);
      r
  }

  /** Reading back the compact word of an edge gives the same edge. */
  lemma CompactRoundTrip(c: Container, p: seq<Side>)
    requires ValidEdge(c, p)
    ensures CompactEdge(c, CompactWord(c, p)) == p
  {
    var w := CompactWord(c, p);
    if c.Rooted? {
      assert w / 2 == Encode(Init(p));
      EncodeInjective(DecodeUid(Encode(Init(p))), Init(p));
      assert p == Init(p) + [Last(p)];
    }
  }

  /** Two edges of one container have the same compact word only if they are the same edge. */
  lemma CompactInjective(c: Container, p: seq<Side>, q: seq<Side>)
    requires ValidEdge(c, p) && ValidEdge(c, q)
    requires CompactWord(c, p) == CompactWord(c, q)
    ensures p == q
  {
    if c.Rooted? {
      assert CompactWord(c, p) == Encode(p) && CompactWord(c, q) == Encode(q);
      EncodeInjective(p, q);
    }
  }

  /** `operator<`: comparison of compact words. */
  predicate Precedes(c: Container, p: seq<Side>, q: seq<Side>)
    requires p != [] && q != []
    ensures Precedes(c, p, q) ==> p != q
    ensures Init(p) == Init(q) && Last(p) == 0 && Last(q) == 1 ==> Precedes(c, p, q)
  {
    CompactWord(c, p) < CompactWord(c, q)
  }

  /** On the edges of one container, `operator<` is a strict total order. */
  lemma PrecedesIsStrictTotalOrder(c: Container, p: seq<Side>, q: seq<Side>, r: seq<Side>)
    requires ValidEdge(c, p) && ValidEdge(c, q) && ValidEdge(c, r)
    ensures !Precedes(c, p, p)
    ensures Precedes(c, p, q) && Precedes(c, q, r) ==> Precedes(c, p, r)
    ensures p != q <==> Precedes(c, p, q) || Precedes(c, q, p)
  {
    if p != q && !Precedes(c, q, p) && !Precedes(c, p, q) {
      CompactInjective(c, p, q);
    }
  }

  /** The result of `postorder_begin()` on a copy of the cursor at `p`. */
  function PostorderBeginPath(c: Container, p: seq<Side>): (r: seq<Side>)
    requires ValidEdge(c, p)
    ensures ValidEdge(c, r) && IsLeafEdge(c, r)
  {
    if CompactWord(c, p) != 0 then
      DescendReachesLeaf(c, p, 0);
      p + DescendPath(c, p, 0)
    else
      ToggleEdge(c, p);
      Toggled(p)
  }

  /** The result of `postorder_end()`; `move<1>` needs a side-0 step to turn at. */
  function PostorderEndPath(c: Container, p: seq<Side>): (r: seq<Side>)
    requires ValidEdge(c, p) && (c.Rooted? ==> 0 in p)
    ensures ValidEdge(c, r) && IsLeafEdge(c, r)
  {
    if c.Rooted? then
      MoveReachesLeaf(c, p, 1);
      MovePath(c, p, 1)
    else
      ToggleEdge(c, p);
      Toggled(p)
  }

  /** The result of `preorder_begin()`: same node, side forced to 1 when the node is null. */
  function PreorderBeginPath(c: Container, p: seq<Side>): (r: seq<Side>)
    requires ValidEdge(c, p)
    ensures ValidEdge(c, r)
    ensures c.Rooted? ==> r == p
    ensures c.Empty? ==> r == EndEdge
  {
    assert p == Init(p) + [Last(p)];
    Init(p) + [if c.Rooted? then Last(p) else 1]
  }

  /** The result of `preorder_begin(limit)`. */
  function PreorderBeginLimitedPath(c: Container, p: seq<Side>, limit: nat): (r: seq<Side>)
    requires ValidEdge(c, p)
    ensures ValidEdge(c, r) && LimitedAt(c, r, limit)
  {
    if CompactWord(c, p) != 0 then
      DescendLimitedStopsAtFirst(c, p, 0, limit);
      p + DescendLimitedPath(c, p, 0, limit)
    else
      ToggleEdge(c, p);
      Toggled(p)
  }

  /** The number of entries of the container. */
  function Size(c: Container): (n: nat)
  {
    if c.Rooted? then LeafCount(c.root) else 0
  }

  /**
   The reference order of a full traversal: every leaf edge of the container
   in ascending (0-before-1) order, then the end sentinel.
   */
  function InOrder(c: Container): (r: seq<seq<Side>>)
    ensures |r| == Size(c) + 1 && r[Size(c)] == EndEdge
  {
    (if c.Rooted? then Prefixed(0, Leaves(c.root)) else []) + [EndEdge]
  }

  /** The traversal lists exactly the leaf edges and the end sentinel. */
  lemma InOrderIsLeafEdges(c: Container, p: seq<Side>)
    ensures p in InOrder(c) <==> p == EndEdge || (At(c, p).Some? && At(c, p).value.Leaf?)
  {
    if c.Rooted? {
      PrefixedMember(0, Leaves(c.root), p);
      if p != [] {
        LeavesAreLeafPaths(c.root, 0, p[1..]);
      }
      assert p in InOrder(c) <==> p in Prefixed(0, Leaves(c.root)) || p == EndEdge;
    }
  }

  /** No edge appears twice in the traversal. */
  lemma InOrderDistinct(c: Container)
    ensures forall i, j :: 0 <= i < j < |InOrder(c)| ==> InOrder(c)[i] != InOrder(c)[j]
  {
    var L := InOrder(c);
    if c.Rooted? {
      var A := Leaves(c.root);
      LeavesDistinct(c.root, 0);
      forall i, j | 0 <= i < j < |L| ensures L[i] != L[j] {
        if j < |A| {
          assert L[i][1..] == A[i] && L[j][1..] == A[j];
        } else {
          assert L[i][0] == 0 && L[j][0] == 1;
        }
      }
    }
  }

  /** `move<1>()` from the k-th leaf edge reaches the next one, and from the last leaf the end sentinel. */
  lemma MoveForward(c: Container, k: nat)
    requires k < Size(c)
    ensures 0 in InOrder(c)[k]
    ensures MovePath(c, InOrder(c)[k], 1) == InOrder(c)[k + 1]
  {
    var t := c.root;
    var L := Leaves(t);
    var n := LeafCount(t);
    assert InOrder(c)[k] == [0] + L[k];
    if k + 1 < n {
      SuccessorInTrie(t, 1, k);
      MoveBelowRoot(t, L[k], 1);
      assert InOrder(c)[k + 1] == [0] + L[k + 1];
    } else {
      LeavesFromEnds(t, 0);
      MoveSubtreeOverRun([], L[k], 1);
      assert [] + [0] + L[k] == InOrder(c)[k];
      assert DescendPath(c, EndEdge, 0) == [];
    }
  }

  /** `move<0>()` from the (k+1)-th edge of the traversal, the end sentinel included, reaches the k-th. */
  lemma MoveBackward(c: Container, k: nat)
    requires k < Size(c)
    ensures 1 in InOrder(c)[k + 1]
    ensures MovePath(c, InOrder(c)[k + 1], 0) == InOrder(c)[k]
  {
    InOrderEntry(c.root, k);
    if k + 1 < Size(c) {
      InOrderEntry(c.root, k + 1);
      MoveBackwardInside(c.root, k);
    } else {
      MoveBackwardFromEnd(c.root);
    }
  }

  /** The k-th entry of the traversal is the k-th leaf path below the root edge. */
  lemma InOrderEntry(t: Trie, k: nat)
    requires k < LeafCount(t)
    ensures InOrder(Rooted(t))[k] == [0] + Leaves(t)[k]
  {
    var P := Prefixed(0, Leaves(t));
    assert InOrder(Rooted(t)) == P + [EndEdge];
    assert InOrder(Rooted(t))[k] == P[k];
  }

  /** Between two leaves, `move<0>()` is the trie-level successor in side-1-first order. */
  lemma MoveBackwardInside(t: Trie, k: nat)
    requires k + 1 < LeafCount(t)
    ensures 1 in [0] + Leaves(t)[k + 1]
    ensures MovePath(Rooted(t), [0] + Leaves(t)[k + 1], 0) == [0] + Leaves(t)[k]
  {
    PredecessorInTrie(t, k);
    MoveBelowRootTo(t, Leaves(t)[k + 1], Leaves(t)[k], 0);
  }

  /** A trie-level move from `q` to `q2` is a container-level move below the root edge. */
  lemma MoveBelowRootTo(t: Trie, q: seq<Side>, q2: seq<Side>, s: Side)
    requires Other(s) in q && MoveIn(t, q, s) == q2
    ensures Other(s) in [0] + q
    ensures MovePath(Rooted(t), [0] + q, s) == [0] + q2
  {
    MoveBelowRoot(t, q, s);
  }

  /** From the end sentinel, `move<0>()` reaches the last leaf. */
  lemma MoveBackwardFromEnd(t: Trie)
    ensures MovePath(Rooted(t), EndEdge, 0) == [0] + Leaves(t)[LeafCount(t) - 1]
  {
    LeavesFromEnds(t, 0);
    assert MoveSubtreePath(EndEdge, 0) == RootEdge;
    assert At(Rooted(t), RootEdge) == Some(t);
  }

  /** `n` forward steps (`move<1>()`) from edge `p`, stopping early at the end sentinel. */
  function Advance(c: Container, p: seq<Side>, n: nat): (r: seq<Side>)
    decreases n
  {
    if n == 0 || 0 !in p then p else Advance(c, MovePath(c, p, 1), n - 1)
  }

  lemma {:induction false} AdvanceAlongInOrder(c: Container, j: nat, n: nat)
    requires j + n <= Size(c)
    ensures Advance(c, InOrder(c)[j], n) == InOrder(c)[j + n]
    decreases n
  {
    if n > 0 {
      MoveForward(c, j);
      AdvanceAlongInOrder(c, j + 1, n - 1);
    }
  }

  /**
   A whole traversal: `postorder_begin()` of the root edge is the first entry,
   k forward steps reach the k-th entry, and `Size(c)` steps reach
   `postorder_end()`; on an empty container begin and end are the same edge.
   */
  lemma TraversalFromRoot(c: Container, k: nat)
    requires k <= Size(c)
    ensures PostorderBeginPath(c, RootEdge) == InOrder(c)[0]
    ensures PostorderEndPath(c, RootEdge) == EndEdge
    ensures Advance(c, PostorderBeginPath(c, RootEdge), k) == InOrder(c)[k]
    ensures c.Empty? ==> PostorderBeginPath(c, RootEdge) == PostorderEndPath(c, RootEdge)
  {
    RootRange(c);
    AdvanceAlongInOrder(c, 0, k);
  }

  /** From the root edge, `postorder_begin()` is the first entry and `postorder_end()` the end sentinel. */
  lemma RootRange(c: Container)
    ensures PostorderBeginPath(c, RootEdge) == InOrder(c)[0]
    ensures PostorderEndPath(c, RootEdge) == EndEdge
  {
    if c.Rooted? {
      LeavesFromEnds(c.root, 0);
      assert MoveSubtreePath(RootEdge, 1) == EndEdge;
    }
  }

  /** From a real edge, `postorder_begin()` is the leftmost leaf below it. */
  lemma PostorderBeginSubtree(c: Container, p: seq<Side>)
    requires ValidEdge(c, p) && At(c, p).Some?
    ensures PostorderBeginPath(c, p) == p + Leaves(At(c, p).value)[0]
  {
    DescendReachesLeaf(c, p, 0);
  }

  /**
   From a real edge, `postorder_end()` is the edge after the subtree: the same
   as one forward step from the subtree's rightmost leaf.
   */
  lemma PostorderEndSkipsSubtree(c: Container, p: seq<Side>)
    requires ValidEdge(c, p) && c.Rooted? && 0 in p
    ensures 0 in p + DescendPath(c, p, 1)
    ensures PostorderEndPath(c, p) == MovePath(c, p + DescendPath(c, p, 1), 1)
  {
    MoveSubtreeSkipsRun(p, DescendPath(c, p, 1), 1);
  }
}
