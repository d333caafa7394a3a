/**
 The navigation cursor ("vertex"): a position on one edge of a container's
 trie, which the traversal loops change step by step. Its state is the edge
 it stands on; the container it borrows never changes. The primitives
 `iterate`, `ascend` and `toggle` of the trie-access layer are methods on that
 state; the loops and the range builders are composed from them as in the
 source.
 */
module Vertices {
  import opened Tries
  import opened Edges

  class Vertex {
    const cont: Container
    var path: seq<Side>

    ghost predicate Valid()
      reads this
    {
      ValidEdge(cont, path)
    }

    constructor (cont: Container, path: seq<Side>)
      ensures this.cont == cont && this.path == path
    {
      this.cont := cont;
      this.path := path;
    }

    /** The copy `this_t vtx(*this)` that the range builders move instead of the cursor itself. */
    constructor Copy(v: Vertex)
      ensures cont == v.cont && path == v.path
    {
      cont := v.cont;
      path := v.path;
    }

    /** The `(cont, qq)` constructor: the edge named by a compact word. */
    constructor FromCompact(cont: Container, qq: nat)
      requires cont.Rooted? ==> qq >= 2
      ensures this.cont == cont && path == CompactEdge(cont, qq)
    {
      this.cont := cont;
      path := CompactEdge(cont, qq);
    }

    // Queries of the trie-access layer

    /** `get_qid()`: the side of the edge, which is the low bit of `compact()`. */
    function Qid(): (r: Side)
      reads this
      requires Valid()
      ensures r == CompactWord(cont, path) % 2
    {
      Last(path)
    }

    /** `get_qtag()`: the edge does not lead to an internal node. */
    predicate QTag()
      reads this
      ensures QTag() <==> At(cont, path).None? || At(cont, path).value.Leaf?
    {
      IsLeafEdge(cont, path)
    }

    /** `get_q()` is not null, which is when `compact()` has more than its low bit set. */
    predicate HasQ()
      reads this
      ensures path != [] ==> (HasQ() <==> CompactWord(cont, path) >= 2)
    {
      cont.Rooted?
    }

    function Compact(): (w: nat)
      reads this
      requires Valid()
      ensures w == 0 <==> !HasQ() && Qid() == 0
    {
      CompactWord(cont, path)
    }

    // Primitives of the trie-access layer

    method Iterate(s: Side)
      requires Valid() && !QTag()
      modifies this
      ensures Valid() && path == old(path) + [s]
      ensures At(cont, path) == Some(Child(At(cont, old(path)).value, s))
    {
      IterateEdge(cont, path, s);
      path := path + [s];
    }

    method Ascend()
      requires Valid() && |path| > 1
      modifies this
      ensures Valid() && !QTag() && path == Init(old(path))
    {
      AscendEdge(cont, path);
      path := Init(path);
    }

    method Toggle()
      requires Valid()
      modifies this
      ensures Valid() && path == Toggled(old(path))
    {
      ToggleEdge(cont, path);
      path := Toggled(path);
    }

    // Pure queries of the cursor

    /** `operator<`: compares the compact words of two cursors on the same container. */
    predicate Less(r: Vertex)
      reads this, r
      requires Valid() && r.Valid() && r.cont == cont
      ensures Less(r) <==> Compact() < r.Compact()
      ensures Less(r) ==> path != r.path
    {
      Precedes(cont, path, r.path)
    }

    /** `skip()`: the skip of the node the edge leaves. */
    function Skip(): (r: nat)
      reads this
      requires Valid() && |path| > 1
      ensures At(cont, Init(path)).Some? && At(cont, Init(path)).value.Node?
      ensures At(cont, Init(path)).value.skip == r
    {
      SkipAt(cont, path)
    }

    /** `next_skip()`: the skip of the node the edge leads to; only for edges that are not leaf edges. */
    function NextSkip(): (r: nat)
      reads this
      requires !QTag()
      ensures At(cont, path).Some? && At(cont, path).value.Node? && At(cont, path).value.skip == r
    {
      NextSkipAt(cont, path)
    }

    /** `limited(limit)`: `get_qtag() || next_skip() >= limit`. */
    predicate Limited(limit: nat)
      reads this
      ensures Limited(limit) <==> QTag() || NextSkip() >= limit
    {
      LimitedAt(cont, path, limit)
    }

    // Descent

    /** `descend<s>()`: `iterate(s)` until the edge is a leaf edge. */
    method Descend(s: Side)
      requires Valid()
      modifies this
      ensures Valid() && QTag()
      ensures path == old(path) + DescendPath(cont, old(path), s)
    {
      while !QTag()
        invariant Valid()
        invariant path + DescendPath(cont, path, s) == old(path) + DescendPath(cont, old(path), s)
        decreases |DescendPath(cont, path, s)|
      {
        DescendStep(cont, path, s);
        Iterate(s);
      }
    }

    /** `descend<s>(cb)`: the callback sees the cursor once before each `iterate(s)`. */
    method DescendWith(s: Side) returns (calls: seq<seq<Side>>)
      requires Valid()
      modifies this
      ensures Valid() && QTag()
      ensures path == old(path) + DescendPath(cont, old(path), s)
      ensures |calls| == |DescendPath(cont, old(path), s)|
      ensures forall i :: 0 <= i < |calls| ==> calls[i] == old(path) + DescendPath(cont, old(path), s)[..i]
    {
      ghost var d := DescendPath(cont, path, s);
      calls := [];
      while !QTag()
        invariant Valid()
        invariant path + DescendPath(cont, path, s) == old(path) + d
        invariant |calls| <= |d| && path == old(path) + d[..|calls|]
        invariant forall i :: 0 <= i < |calls| ==> calls[i] == old(path) + d[..i]
        decreases |DescendPath(cont, path, s)|
      {
        DescendStep(cont, path, s);
        calls := calls + [path];
        Iterate(s);
        assert d[..|calls|] == d[..|calls| - 1] + [s];
      }
    }

    /** `descend<s>(limit)`: `iterate(s)` until `limited(limit)` holds. */
    method DescendLimited(s: Side, limit: nat)
      requires Valid()
      modifies this
      ensures Valid() && Limited(limit)
      ensures path == old(path) + DescendLimitedPath(cont, old(path), s, limit)
    {
      while !Limited(limit)
        invariant Valid()
        invariant path + DescendLimitedPath(cont, path, s, limit) == old(path) + DescendLimitedPath(cont, old(path), s, limit)
        decreases |DescendLimitedPath(cont, path, s, limit)|
      {
        DescendLimitedStep(cont, path, s, limit);
        assert path + DescendLimitedPath(cont, path, s, limit) == (path + [s]) + DescendLimitedPath(cont, path + [s], s, limit);
        Iterate(s);
      }
    }

    /** `descend<s>(limit, cb)`: the callback sees the cursor once before each `iterate(s)`. */
    method DescendLimitedWith(s: Side, limit: nat) returns (calls: seq<seq<Side>>)
      requires Valid()
      modifies this
      ensures Valid() && Limited(limit)
      ensures path == old(path) + DescendLimitedPath(cont, old(path), s, limit)
      ensures |calls| == |DescendLimitedPath(cont, old(path), s, limit)|
      ensures forall i :: 0 <= i < |calls| ==> calls[i] == old(path) + DescendLimitedPath(cont, old(path), s, limit)[..i]
    {
      ghost var d := DescendLimitedPath(cont, path, s, limit);
      calls := [];
      while !Limited(limit)
        invariant Valid()
        invariant path + DescendLimitedPath(cont, path, s, limit) == old(path) + d
        invariant |calls| <= |d| && path == old(path) + d[..|calls|]
        invariant forall i :: 0 <= i < |calls| ==> calls[i] == old(path) + d[..i]
        decreases |DescendLimitedPath(cont, path, s, limit)|
      {
        DescendLimitedStep(cont, path, s, limit);
        assert path + DescendLimitedPath(cont, path, s, limit) == (path + [s]) + DescendLimitedPath(cont, path + [s], s, limit);
        calls := calls + [path];
        Iterate(s);
        assert d[..|calls|] == d[..|calls| - 1] + [s];
      }
    }

    // Moves

    /** `move_subtree<s>()`: `ascend()` while on an `s` edge, then `toggle()`. */
    method MoveSubtree(s: Side)
      requires Valid() && Other(s) in path
      modifies this
      ensures Valid() && Qid() == s
      ensures path == MoveSubtreePath(old(path), s)
    {
      while Qid() == s
        invariant Valid() && Other(s) in path
        invariant MoveSubtreePath(path, s) == MoveSubtreePath(old(path), s)
        decreases |path|
      {
        AscendKeepsTurn(path, s);
        Ascend();
      }
      Toggle();
    }

    /** `move_subtree<s>(cb)`: the callback sees the cursor once after each `ascend()`. */
    method MoveSubtreeWith(s: Side) returns (calls: seq<seq<Side>>)
      requires Valid() && Other(s) in path
      modifies this
      ensures Valid() && Qid() == s
      ensures path == MoveSubtreePath(old(path), s)
      ensures |calls| == |old(path)| - |path|
      ensures forall i :: 0 <= i < |calls| ==> calls[i] == old(path)[..|old(path)| - 1 - i]
    {
      calls := [];
      while Qid() == s
        invariant Valid() && Other(s) in path
        invariant MoveSubtreePath(path, s) == MoveSubtreePath(old(path), s)
        invariant |calls| == |old(path)| - |path| && path == old(path)[..|path|]
        invariant forall i :: 0 <= i < |calls| ==> calls[i] == old(path)[..|old(path)| - 1 - i]
        decreases |path|
      {
        AscendKeepsTurn(path, s);
        Ascend();
        calls := calls + [path];
      }
      Toggle();
    }

    /** `move<s>()`: `move_subtree<s>()`, then `descend` on the other side. */
    method Move(s: Side)
      requires Valid() && Other(s) in path
      modifies this
      ensures Valid() && QTag()
      ensures path == MovePath(cont, old(path), s)
      ensures s == 1 ==> forall k :: 0 <= k < Size(cont) && old(path) == InOrder(cont)[k] ==>
        path == InOrder(cont)[k + 1]
      ensures s == 0 ==> forall k :: 0 <= k < Size(cont) && old(path) == InOrder(cont)[k + 1] ==>
        path == InOrder(cont)[k]
    {
      ghost var start := path;
      MoveSubtree(s);
      Descend(Other(s));
      forall k | 0 <= k < Size(cont) && start == InOrder(cont)[k] && s == 1
        ensures path == InOrder(cont)[k + 1]
      {
        MoveForward(cont, k);
      }
      forall k | 0 <= k < Size(cont) && start == InOrder(cont)[k + 1] && s == 0
        ensures path == InOrder(cont)[k]
      {
        MoveBackward(cont, k);
      }
    }

    // Range builders: each works on a copy and leaves this cursor as it is

    /** `postorder_begin()`: the first leaf below the edge, or the toggled cursor when `compact()` is 0. */
    method PostorderBegin() returns (r: Vertex)
      requires Valid()
      ensures fresh(r) && r.cont == cont && r.Valid() && r.QTag()
      ensures r.path == PostorderBeginPath(cont, path)
    {
      r := new Vertex.Copy(this);
      if Compact() != 0 {
        r.Descend(0);
      } else {
        r.Toggle();
      }
    }

    /** `postorder_end()`: one `move<1>()` when `get_q()` is not null, otherwise the toggled cursor. */
    method PostorderEnd() returns (r: Vertex)
      requires Valid() && (HasQ() ==> 0 in path)
      ensures fresh(r) && r.cont == cont && r.Valid() && r.QTag()
      ensures r.path == PostorderEndPath(cont, path)
    {
      r := new Vertex.Copy(this);
      if HasQ() {
        r.Move(1);
      } else {
        r.Toggle();
      }
    }

    /** `preorder_begin()`: same node, and side 1 when the node is null. */
    method PreorderBegin() returns (r: Vertex)
      requires Valid()
      ensures fresh(r) && r.cont == cont && r.Valid()
      ensures r.path == PreorderBeginPath(cont, path)
    {
      assert path == Init(path) + [Last(path)];
      r := new Vertex(cont, Init(path) + [if HasQ() then Qid() else 1]);
    }

    /** `preorder_begin(limit)`: the bounded descent on side 0, or the toggled cursor when `compact()` is 0. */
    method PreorderBeginLimited(limit: nat) returns (r: Vertex)
      requires Valid()
      ensures fresh(r) && r.cont == cont && r.Valid() && r.Limited(limit)
      ensures r.path == PreorderBeginLimitedPath(cont, path, limit)
    {
      r := new Vertex.Copy(this);
      if Compact() != 0 {
        r.DescendLimited(0, limit);
      } else {
        r.Toggle();
      }
    }

    /**
     `preorder_end()`: the pre-order iterator's `next_subtree()`, which is not
     part of this model, is the parameter `nextSubtree`; without a node, the
     toggled cursor.
     */
    method PreorderEnd(nextSubtree: seq<Side> -> seq<Side>) returns (r: Vertex)
      requires Valid()
      ensures fresh(r) && r.cont == cont
      ensures r.path == if HasQ() then nextSubtree(path) else Toggled(path)
    {
      if HasQ() {
        r := new Vertex(cont, nextSubtree(path));
      } else {
        r := new Vertex.Copy(this);
        r.Toggle();
      }
    }

    /** `begin()`: the cursor of `postorder_begin()`; from the root edge, the first entry. */
    method Begin() returns (r: Vertex)
      requires Valid()
      ensures fresh(r) && r.cont == cont && r.Valid()
      ensures r.path == PostorderBeginPath(cont, path)
      ensures path == RootEdge ==> r.path == InOrder(cont)[0]
    {
      r := PostorderBegin();
      if path == RootEdge {
        TraversalFromRoot(cont, 0);
      }
    }

    /** `end()`: the cursor of `postorder_end()`; from the root edge, the end sentinel. */
    method End() returns (r: Vertex)
      requires Valid() && (HasQ() ==> 0 in path)
      ensures fresh(r) && r.cont == cont && r.Valid()
      ensures r.path == PostorderEndPath(cont, path)
      ensures path == RootEdge ==> r.path == EndEdge
    {
      r := PostorderEnd();
      if path == RootEdge {
        TraversalFromRoot(cont, 0);
      }
    }

    /** `rbegin()`: a reverse iterator over `end()`. */
    method RBegin() returns (r: Vertex)
      requires Valid() && (HasQ() ==> 0 in path)
      ensures fresh(r) && r.cont == cont && r.Valid()
      ensures r.path == PostorderEndPath(cont, path)
      ensures path == RootEdge ==> r.path == EndEdge
    {
      r := End();
    }

    /** `rend()`: a reverse iterator over `begin()`. */
    method REnd() returns (r: Vertex)
      requires Valid()
      ensures fresh(r) && r.cont == cont && r.Valid()
      ensures r.path == PostorderBeginPath(cont, path)
      ensures path == RootEdge ==> r.path == InOrder(cont)[0]
    {
      r := Begin();
    }
  }

  /** Cursors on one container are totally ordered by `operator<`. */
  lemma LessIsStrictTotalOrder(a: Vertex, b: Vertex)
    requires a.Valid() && b.Valid() && a.cont == b.cont
    ensures !a.Less(a)
    ensures a.path != b.path <==> a.Less(b) || b.Less(a)
  {
    PrecedesIsStrictTotalOrder(a.cont, a.path, b.path, b.path);
  }

  /** One `ascend()` inside the trailing run of `s` steps keeps the turning point of `move_subtree<s>`. */
  lemma AscendKeepsTurn(p: seq<Side>, s: Side)
    requires Other(s) in p && Last(p) == s
    ensures |p| > 1 && Other(s) in Init(p)
    ensures MoveSubtreePath(Init(p), s) == MoveSubtreePath(p, s)
  {
    var i :| 0 <= i < |p| && p[i] == Other(s);
    assert Init(p)[i] == Other(s);
  }
}
