/** Walking a red-black tree in address order. */
module RbWalk {
  import opened RbShape
  import opened RbHeap
  import opened RbRemove

  /** The first node in order, or null for an empty tree. */
  method Min(tree: RbTree) returns (r: Ptr)
    requires tree.Ok()
    ensures tree.t.Leaf? ==> r == NULL
    ensures tree.t.T? ==> r != NULL && Inorder(tree.t) != [] && r == Inorder(tree.t)[0]
  {
    LookRoot(tree.heap.mem, tree.root, tree.t);
    if tree.root == NULL { return NULL; }
    ghost var inner, s;
    r, inner, s := Leftmost(tree, tree.root, Top, tree.t);
    LeftmostFirst(inner, s);
    Look(tree.heap.mem, tree.root, inner, s.left, r, s.right, s.red);
  }

  /** The node after `elm` in order, or null after the last one. */
  method Next(tree: RbTree, elm: Ptr, ghost i: nat) returns (r: Ptr)
    requires tree.Ok() && i < |Inorder(tree.t)| && Inorder(tree.t)[i] == elm
    ensures i + 1 < |Inorder(tree.t)| ==> r != NULL && r == Inorder(tree.t)[i + 1]
    ensures i + 1 == |Inorder(tree.t)| ==> r == NULL
  {
    ghost var all := Inorder(tree.t);
    NodesAreInorder(tree.t);
    ghost var c, s := Locate(tree.t, elm);
    ghost var m := tree.heap.mem;
    Look(m, tree.root, c, s.left, elm, s.right, s.red);
    LinkedDistinct(m, tree.root, tree.t);
    IndexOf(c, s, i);
    if tree.heap.mem[elm].right != NULL {
      ghost var inner, ys;
      r, inner, ys := Leftmost(tree, tree.heap.mem[elm].right, In(R, elm, s.red, s.left, c), s.right);
      LeftmostFirst(inner, ys);
      PlugJoin(inner, In(R, elm, s.red, s.left, c), ys);
      Look(m, tree.root, Join(inner, In(R, elm, s.red, s.left, c)), ys.left, r, ys.right, ys.red);
      return;
    }
    r := Climb(tree, elm, c, s);
  }

  /** Goes up until a step leads from a left child to its parent. */
  method Climb(tree: RbTree, elm: Ptr, ghost c0: Ctx<Ptr>, ghost s0: Tree<Ptr>) returns (r: Ptr)
    requires tree.Ok() && tree.t == Plug(c0, s0) && s0.T? && s0.node == elm
    ensures if After(c0) == [] then r == NULL else r != NULL && r == After(c0)[0]
  {
    var e := elm;
    ghost var c, s, m := c0, s0, tree.heap.mem;
    while true
      invariant tree.t == Plug(c, s) && s.T? && s.node == e && After(c) == After(c0)
      decreases c
    {
      Look(m, tree.root, c, s.left, e, s.right, s.red);
      var parent := tree.heap.mem[e].parent;
      if c.In? { LookUp(m, tree.root, c, s); }
      if parent == NULL || e != tree.heap.mem[parent].right { break; }
      assert c.side == R;
      e := parent;
      c, s := c.up, Mk(c.side, s, c.node, c.sib, c.red);
    }
    r := tree.heap.mem[e].parent;
  }

  /** Where the root of a subtree stands in order. */
  lemma IndexOf(c: Ctx<Ptr>, s: Tree<Ptr>, i: nat)
    requires s.T? && Distinct(Plug(c, s)) && i < |Inorder(Plug(c, s))| && Inorder(Plug(c, s))[i] == s.node
    ensures i == |Before(c) + Inorder(s.left)|
    ensures Inorder(Plug(c, s)) == Before(c) + Inorder(s.left) + [s.node] + (Inorder(s.right) + After(c))
  {
    var all, b := Inorder(Plug(c, s)), Before(c) + Inorder(s.left);
    OrderAround(c, s, all);
    OnceInOrder(Plug(c, s));
    SameIndex(all, b, s.node, Inorder(s.right) + After(c), i);
  }

  lemma SameIndex<N>(all: seq<N>, b: seq<N>, n: N, f: seq<N>, i: nat)
    requires all == b + [n] + f && i < |all| && all[i] == n
    requires forall i, j | 0 <= i < j < |all| :: all[i] != all[j]
    ensures i == |b|
  {
    assert all[|b|] == n;
  }

  /** Distinct nodes: no pointer occurs twice in order. */
  lemma {:induction false} OnceInOrder<N>(t: Tree<N>)
    requires Distinct(t)
    ensures forall i, j | 0 <= i < j < |Inorder(t)| :: Inorder(t)[i] != Inorder(t)[j]
  {
    if t.T? {
      OnceInOrder(t.left);
      OnceInOrder(t.right);
      InNodes(t.left, t.node);
      InNodes(t.right, t.node);
      forall x | x in Inorder(t.left) ensures x !in Inorder(t.right) {
        InNodes(t.left, x);
        InNodes(t.right, x);
      }
      OnceSeqs(Inorder(t.left), t.node, Inorder(t.right));
    }
  }

  lemma OnceSeqs<N>(l: seq<N>, n: N, r: seq<N>)
    requires forall i, j | 0 <= i < j < |l| :: l[i] != l[j]
    requires forall i, j | 0 <= i < j < |r| :: r[i] != r[j]
    requires n !in l && n !in r && forall x | x in l :: x !in r
    ensures forall i, j | 0 <= i < j < |l + [n] + r| :: (l + [n] + r)[i] != (l + [n] + r)[j]
  {
    var s := l + [n] + r;
    forall i, j | 0 <= i < j < |s| ensures s[i] != s[j] {
      if i < |l| && j > |l| { assert s[i] in l && s[j] in r; }
    }
  }
}
