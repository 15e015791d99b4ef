/** The four walks over the owner tree, returning the owners they visit in
    the order they visit them, and the in-order gathering used by the report. */
module Traversals {
  import opened OwnerTree

  /** Reference: the owners held by the nodes of `t`, one per node. */
  function NodeBag(t: Tree): multiset<Owner>
  {
    if t.Leaf? then multiset{} else NodeBag(t.left) + multiset{Record(t)} + NodeBag(t.right)
  }

  // ---------------------------------------------------------------------
  // Depth-first walks

  /** `pre_order`: node, then left subtree, then right subtree. */
  function PreOrder(t: Tree): (s: seq<Owner>)
    ensures |s| == Size(t)
  {
    if t.Leaf? then [] else [Record(t)] + PreOrder(t.left) + PreOrder(t.right)
  }

  /** `post_order`: left subtree, then right subtree, then node. */
  function PostOrder(t: Tree): (s: seq<Owner>)
    ensures |s| == Size(t)
  {
    if t.Leaf? then [] else PostOrder(t.left) + PostOrder(t.right) + [Record(t)]
  }

  lemma {:induction false} PreOrderVisitsEachOnce(t: Tree)
    ensures multiset(PreOrder(t)) == NodeBag(t)
  {
    if t.Node? {
      PreOrderVisitsEachOnce(t.left);
      PreOrderVisitsEachOnce(t.right);
    }
  }

  lemma {:induction false} InOrderVisitsEachOnce(t: Tree)
    ensures multiset(InOrder(t)) == NodeBag(t)
  {
    if t.Node? {
      InOrderVisitsEachOnce(t.left);
      InOrderVisitsEachOnce(t.right);
    }
  }

  lemma {:induction false} PostOrderVisitsEachOnce(t: Tree)
    ensures multiset(PostOrder(t)) == NodeBag(t)
  {
    if t.Node? {
      PostOrderVisitsEachOnce(t.left);
      PostOrderVisitsEachOnce(t.right);
    }
  }

  /** The tree with every left and right child swapped. */
  function Mirror(t: Tree): (m: Tree)
    ensures Size(m) == Size(t)
  {
    if t.Leaf? then Leaf else Node(t.name, t.pokedex, Mirror(t.right), Mirror(t.left))
  }

  function Reverse<T>(s: seq<T>): (r: seq<T>)
    ensures |r| == |s|
  {
    if s == [] then [] else Reverse(s[1..]) + [s[0]]
  }

  lemma {:induction false} ReverseConcat<T>(a: seq<T>, b: seq<T>)
    ensures Reverse(a + b) == Reverse(b) + Reverse(a)
  {
    if a == [] {
      assert a + b == b;
    } else {
      assert (a + b)[1..] == a[1..] + b;
      ReverseConcat(a[1..], b);
    }
  }

  /** Pre-order visits exactly the reverse of the post-order of the mirrored
      tree: node first against node last, left before right against right
      before left. */
  lemma {:induction false} PreOrderMirrorsPostOrder(t: Tree)
    ensures PreOrder(t) == Reverse(PostOrder(Mirror(t)))
  {
    if t.Node? {
      var m := Mirror(t);
      PreOrderMirrorsPostOrder(t.left);
      PreOrderMirrorsPostOrder(t.right);
      calc {
        Reverse(PostOrder(m));
        Reverse(PostOrder(m.left) + PostOrder(m.right) + [Record(t)]);
        { ReverseConcat(PostOrder(m.left) + PostOrder(m.right), [Record(t)]); }
        Reverse([Record(t)]) + Reverse(PostOrder(m.left) + PostOrder(m.right));
        { ReverseConcat(PostOrder(m.left), PostOrder(m.right)); }
        [Record(t)] + (Reverse(PostOrder(m.right)) + Reverse(PostOrder(m.left)));
        [Record(t)] + (PreOrder(t.left) + PreOrder(t.right));
      }
    }
  }

  /** In-order of the mirrored tree is the reversed in-order. */
  lemma {:induction false} InOrderMirror(t: Tree)
    ensures InOrder(Mirror(t)) == Reverse(InOrder(t))
  {
    if t.Node? {
      InOrderMirror(t.left);
      InOrderMirror(t.right);
      ReverseConcat(InOrder(t.left), [Record(t)] + InOrder(t.right));
      ReverseConcat([Record(t)], InOrder(t.right));
    }
  }

  // ---------------------------------------------------------------------
  // Level order

  /** Every tree of `f` is a node: the queue never holds an empty child. */
  predicate AllNodes(f: seq<Tree>)
  {
    forall i :: 0 <= i < |f| ==> f[i].Node?
  }

  lemma AllNodesConcat(a: seq<Tree>, b: seq<Tree>)
    requires AllNodes(a) && AllNodes(b)
    ensures AllNodes(a + b)
  {
  }

  /** The children a dequeued node enqueues: left first, then right, each
      only when present. */
  function Kids(t: Tree): (k: seq<Tree>)
    requires t.Node?
    ensures AllNodes(k)
  {
    (if t.left.Node? then [t.left] else []) + (if t.right.Node? then [t.right] else [])
  }

  function ForestSize(f: seq<Tree>): nat
  {
    if f == [] then 0 else Size(f[0]) + ForestSize(f[1..])
  }

  lemma {:induction false} ForestSizeConcat(a: seq<Tree>, b: seq<Tree>)
    ensures ForestSize(a + b) == ForestSize(a) + ForestSize(b)
  {
    if a == [] {
      assert a + b == b;
    } else {
      assert (a + b)[0] == a[0];
      assert (a + b)[1..] == a[1..] + b;
      ForestSizeConcat(a[1..], b);
    }
  }

  lemma KidsSize(t: Tree)
    requires t.Node?
    ensures ForestSize(Kids(t)) + 1 == Size(t)
  {
    var l: seq<Tree> := if t.left.Node? then [t.left] else [];
    var r: seq<Tree> := if t.right.Node? then [t.right] else [];
    assert ForestSize(l) == Size(t.left) by {
      if t.left.Node? {
        assert l[1..] == [];
      }
    }
    assert ForestSize(r) == Size(t.right) by {
      if t.right.Node? {
        assert r[1..] == [];
      }
    }
    ForestSizeConcat(l, r);
  }

  /** Dequeuing a node and enqueuing its children shrinks the queue's total
      size by one. */
  lemma DequeueShrinks(q: seq<Tree>)
    requires q != [] && q[0].Node?
    ensures ForestSize(q[1..] + Kids(q[0])) + 1 == ForestSize(q)
  {
    ForestSizeConcat(q[1..], Kids(q[0]));
    KidsSize(q[0]);
  }

  /** What the queue loop of `bfs_traversal` visits from queue `q`: pop the
      front, visit it, enqueue its children at the back. */
  function QueueOrder(q: seq<Tree>): seq<Owner>
    requires AllNodes(q)
    decreases ForestSize(q)
  {
    if q == [] then []
    else
      DequeueShrinks(q);
      [Record(q[0])] + QueueOrder(q[1..] + Kids(q[0]))
  }

  /** One step of the queue loop. */
  lemma Dequeue(q: seq<Tree>)
    requires AllNodes(q) && q != []
    ensures AllNodes(q[1..] + Kids(q[0]))
    ensures QueueOrder(q) == [Record(q[0])] + QueueOrder(q[1..] + Kids(q[0]))
  {
    AllNodesConcat(q[1..], Kids(q[0]));
  }

  /** `bfs_traversal`: nothing for an empty tree, otherwise what the queue
      loop visits starting from the root alone. */
  function LevelOrder(t: Tree): (s: seq<Owner>)
    ensures t.Node? ==> s != [] && s[0] == Record(t)
  {
    if t.Leaf? then [] else QueueOrder([t])
  }

  /** Reference: the roots of a forest, then the forest of all their
      children, level by level. */
  function Roots(f: seq<Tree>): (r: seq<Owner>)
    requires AllNodes(f)
    ensures |r| == |f|
  {
    if f == [] then [] else [Record(f[0])] + Roots(f[1..])
  }

  function Children(f: seq<Tree>): (c: seq<Tree>)
    requires AllNodes(f)
    ensures AllNodes(c)
  {
    if f == [] then [] else Kids(f[0]) + Children(f[1..])
  }

  lemma {:induction false} ChildrenShrink(f: seq<Tree>)
    requires AllNodes(f)
    ensures ForestSize(Children(f)) + |f| == ForestSize(f)
  {
    if f != [] {
      ChildrenShrink(f[1..]);
      ForestSizeConcat(Kids(f[0]), Children(f[1..]));
      KidsSize(f[0]);
    }
  }

  function Levels(f: seq<Tree>): seq<Owner>
    requires AllNodes(f)
    decreases ForestSize(f)
  {
    if f == [] then []
    else
      ChildrenShrink(f);
      Roots(f) + Levels(Children(f))
  }

  /** Running the queue over `a + b` visits the roots of `a`, then continues
      with `b` followed by the children of `a`. */
  lemma {:induction false} QueueSplit(a: seq<Tree>, b: seq<Tree>)
    requires AllNodes(a) && AllNodes(b)
    ensures AllNodes(a + b) && AllNodes(b + Children(a))
    ensures QueueOrder(a + b) == Roots(a) + QueueOrder(b + Children(a))
    decreases |a|
  {
    AllNodesConcat(a, b);
    AllNodesConcat(b, Children(a));
    if a == [] {
      assert a + b == b;
      assert b + Children(a) == b;
    } else {
      AllNodesConcat(b, Kids(a[0]));
      QueueSplit(a[1..], b + Kids(a[0]));
      QueueSplitStep(a, b);
    }
  }

  /** The inductive step of `QueueSplit`: dequeue the first root of `a`. */
  lemma QueueSplitStep(a: seq<Tree>, b: seq<Tree>)
    requires a != [] && AllNodes(a) && AllNodes(b)
    requires AllNodes(a + b) && AllNodes(b + Children(a)) && AllNodes(b + Kids(a[0]))
    requires AllNodes(a[1..] + (b + Kids(a[0])))
    requires AllNodes(b + Kids(a[0]) + Children(a[1..]))
    requires QueueOrder(a[1..] + (b + Kids(a[0]))) ==
      Roots(a[1..]) + QueueOrder(b + Kids(a[0]) + Children(a[1..]))
    ensures QueueOrder(a + b) == Roots(a) + QueueOrder(b + Children(a))
  {
    var x, a' := a[0], a[1..];
    var rest := b + Kids(x);
    var tail := b + Children(a);
    ConsConcat(a, b);
    Assoc(a', b, Kids(x));
    ChildrenCons(a);
    Assoc(b, Kids(x), Children(a'));
    calc {
      QueueOrder(a + b);
      { Dequeue(a + b); }
      [Record(x)] + QueueOrder(a' + rest);
      [Record(x)] + (Roots(a') + QueueOrder(tail));
      { Assoc([Record(x)], Roots(a'), QueueOrder(tail)); }
      ([Record(x)] + Roots(a')) + QueueOrder(tail);
      Roots(a) + QueueOrder(tail);
    }
  }

  lemma Assoc<T>(a: seq<T>, b: seq<T>, c: seq<T>)
    ensures (a + b) + c == a + (b + c)
  {
  }

  lemma ChildrenCons(a: seq<Tree>)
    requires a != [] && AllNodes(a)
    ensures Children(a) == Kids(a[0]) + Children(a[1..])
  {
  }

  lemma ConsConcat<T>(a: seq<T>, b: seq<T>)
    requires a != []
    ensures (a + b)[0] == a[0] && (a + b)[1..] == a[1..] + b
  {
  }

  /** The queue visits level by level. */
  lemma {:induction false} QueueIsLevels(f: seq<Tree>)
    requires AllNodes(f)
    ensures QueueOrder(f) == Levels(f)
    decreases ForestSize(f)
  {
    if f != [] {
      QueueSplit(f, []);
      assert f + [] == f;
      assert [] + Children(f) == Children(f);
      ChildrenShrink(f);
      QueueIsLevels(Children(f));
    }
  }

  function ForestBag(f: seq<Tree>): multiset<Owner>
  {
    if f == [] then multiset{} else NodeBag(f[0]) + ForestBag(f[1..])
  }

  lemma {:induction false} ForestBagConcat(a: seq<Tree>, b: seq<Tree>)
    ensures ForestBag(a + b) == ForestBag(a) + ForestBag(b)
  {
    if a == [] {
      assert a + b == b;
    } else {
      assert (a + b)[0] == a[0];
      assert (a + b)[1..] == a[1..] + b;
      ForestBagConcat(a[1..], b);
    }
  }

  lemma SingleBag(t: Tree)
    ensures ForestBag(if t.Node? then [t] else []) == NodeBag(t)
  {
    if t.Node? {
      assert [t][1..] == [];
    }
  }

  lemma KidsBag(t: Tree)
    requires t.Node?
    ensures ForestBag(Kids(t)) == NodeBag(t.left) + NodeBag(t.right)
  {
    var l: seq<Tree> := if t.left.Node? then [t.left] else [];
    var r: seq<Tree> := if t.right.Node? then [t.right] else [];
    SingleBag(t.left);
    SingleBag(t.right);
    ForestBagConcat(l, r);
  }

  lemma {:induction false} QueueVisitsEachOnce(q: seq<Tree>)
    requires AllNodes(q)
    ensures multiset(QueueOrder(q)) == ForestBag(q)
    decreases ForestSize(q)
  {
    if q != [] {
      var x := q[0];
      DequeueShrinks(q);
      QueueVisitsEachOnce(q[1..] + Kids(x));
      ForestBagConcat(q[1..], Kids(x));
      KidsBag(x);
      assert ForestBag(q) == NodeBag(x) + ForestBag(q[1..]);
    }
  }

  /** Level order visits every node exactly once, root first. */
  lemma LevelOrderVisitsEachOnce(t: Tree)
    ensures multiset(LevelOrder(t)) == NodeBag(t)
    ensures LevelOrder(t) == [] <==> t.Leaf?
  {
    if t.Node? {
      QueueVisitsEachOnce([t]);
      assert [t][1..] == [];
    }
  }

  /** Level order is the root, then its children left to right, then theirs. */
  lemma LevelOrderIsLevels(t: Tree)
    requires t.Node?
    ensures LevelOrder(t) == Levels([t])
  {
    QueueIsLevels([t]);
  }

  /** `bfs_traversal`: a list used as a queue; pop the front, visit it, append
      its left child and then its right child when present. */
  method BfsTraversal(root: Tree) returns (visited: seq<Owner>)
    ensures visited == LevelOrder(root)
  {
    visited := [];
    if root.Leaf? {
      return;
    }
    var queue := [root];
    while queue != []
      invariant AllNodes(queue)
      invariant visited + QueueOrder(queue) == LevelOrder(root)
      decreases ForestSize(queue)
    {
      var current := queue[0];
      ghost var rest := queue[1..] + Kids(current);
      DequeueShrinks(queue);
      Dequeue(queue);
      queue := queue[1..];
      visited := visited + [Record(current)];
      if current.left.Node? {
        queue := queue + [current.left];
      }
      if current.right.Node? {
        queue := queue + [current.right];
      }
      assert queue == rest;
    }
  }

  // ---------------------------------------------------------------------
  // Gathering

  /** `gather_all_owners`: append the owners of `t` to `arr` in in-order. */
  method GatherAllOwners(t: Tree, arr: seq<Owner>) returns (out: seq<Owner>)
    ensures out == arr + InOrder(t)
    decreases t
  {
    out := arr;
    if t.Node? {
      out := GatherAllOwners(t.left, out);
      out := out + [Record(t)];
      out := GatherAllOwners(t.right, out);
    }
  }
}
