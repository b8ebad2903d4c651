/** Removal from a red-black tree in memory, with its rebalancing loop. */
module RbRemove {
  import opened Gates
  import opened RbShape
  import opened RbHeap

  /** Turns a red sibling into a black one by rotating it above the parent. */
  method RedSibling(tree: RbTree, parent: Ptr, tmp: Ptr, side: Side,
                    ghost s: Tree<Ptr>, ghost b: Tree<Ptr>, ghost d: Tree<Ptr>, ghost up: Ctx<Ptr>)
    requires tree.Ok() && tree.t == Plug(In(side, parent, false, Mk(side, b, tmp, d, true), up), s)
    modifies tree`root, tree`t, tree.heap`mem
    ensures tree.Ok() && tree.t == Plug(In(side, parent, true, b, In(side, tmp, false, d, up)), s)
    ensures Inorder(tree.t) == old(Inorder(tree.t)) && Nodes(tree.t) == old(Nodes(tree.t))
    ensures Framed(old(tree.heap.mem), tree.heap.mem, Nodes(tree.t))
  {
    ghost var m0 := tree.heap.mem;
    ghost var w, w' := Mk(side, b, tmp, d, true), Mk(side, b, tmp, d, false);
    PlugSib(side, parent, false, w, up, s);
    tree.SetRed(tmp, false, In(Other(side), parent, false, s, up), w);
    PlugSib(side, parent, false, w', up, s);
    ghost var m1 := tree.heap.mem;
    tree.SetRed(parent, true, up, Mk(side, s, parent, w', false));
    ghost var m2 := tree.heap.mem;
    tree.Rotate(side, parent, up, s, b, d, tmp, true, false);
    FramedTwice(m0, m1, m2, Nodes(tree.t));
    FramedTwice(m0, m2, tree.heap.mem, Nodes(tree.t));
  }

  /** Rotates a red near nephew above the black sibling. */
  method NearNephew(tree: RbTree, tmp: Ptr, near: Ptr, side: Side,
                    ghost b1: Tree<Ptr>, ghost b2: Tree<Ptr>, ghost d: Tree<Ptr>, ghost c: Ctx<Ptr>)
    requires tree.Ok() && tree.t == Plug(c, Mk(side, Mk(side, b1, near, b2, true), tmp, d, false))
    modifies tree`root, tree`t, tree.heap`mem
    ensures tree.Ok() && tree.t == Plug(c, Mk(side, b1, near, Mk(side, b2, tmp, d, true), false))
    ensures Inorder(tree.t) == old(Inorder(tree.t)) && Nodes(tree.t) == old(Nodes(tree.t))
    ensures Framed(old(tree.heap.mem), tree.heap.mem, Nodes(tree.t))
  {
    ghost var m0, o := tree.heap.mem, Other(side);
    tree.SetRed(near, false, In(side, tmp, false, d, c), Mk(side, b1, near, b2, true));
    ghost var m1, b' := tree.heap.mem, Mk(side, b1, near, b2, false);
    tree.SetRed(tmp, true, c, Mk(side, b', tmp, d, false));
    ghost var m2 := tree.heap.mem;
    assert Mk(side, b', tmp, d, true) == Mk(o, d, tmp, Mk(o, b2, near, b1, false), true);
    tree.Rotate(Other(side), tmp, c, d, b2, b1, near, true, false);
    assert Mk(o, Mk(o, d, tmp, b2, true), near, b1, false) == Mk(side, b1, near, Mk(side, b2, tmp, d, true), false);
    FramedTwice(m0, m1, m2, Nodes(tree.t));
    FramedTwice(m0, m2, tree.heap.mem, Nodes(tree.t));
  }

  /** The last rotation: the sibling takes the parent's place and colour. */
  method FarNephew(tree: RbTree, parent: Ptr, tmp: Ptr, side: Side, ghost s: Tree<Ptr>, ghost red: bool,
                   ghost b: Tree<Ptr>, ghost d: Tree<Ptr>, ghost up: Ctx<Ptr>)
    requires tree.Ok() && IsRed(d)
    requires tree.t == Plug(In(side, parent, red, Mk(side, b, tmp, d, false), up), s)
    modifies tree`root, tree`t, tree.heap`mem
    ensures tree.Ok() && tree.t == Plug(up, Mk(side, Mk(side, s, parent, b, false), tmp, d.(red := false), red))
    ensures Inorder(tree.t) == old(Inorder(tree.t)) && Nodes(tree.t) == old(Nodes(tree.t))
    ensures Framed(old(tree.heap.mem), tree.heap.mem, Nodes(tree.t))
  {
    ghost var m0, o := tree.heap.mem, Other(side);
    ghost var d', w := d.(red := false), Mk(side, b, tmp, d, red);
    LookUp(m0, tree.root, In(side, parent, red, Mk(side, b, tmp, d, false), up), s);
    PlugSib(side, parent, red, Mk(side, b, tmp, d, false), up, s);
    tree.SetRed(tmp, tree.heap.mem[parent].red, In(o, parent, red, s, up), Mk(side, b, tmp, d, false));
    PlugSib(side, parent, red, w, up, s);
    ghost var m1 := tree.heap.mem;
    tree.SetRed(parent, false, up, Mk(side, s, parent, w, red));
    ghost var m2, k := tree.heap.mem, In(o, parent, false, s, up);
    PlugSib(side, parent, false, w, up, s);
    MkFlip(side, d, tmp, b, red);
    Look(m2, tree.root, k, w.left, tmp, w.right, red);
    var far := Link(tree.heap.mem[tmp], Other(side));
    Look(m2, tree.root, In(o, tmp, red, b, k), d.left, d.node, d.right, true);
    if far != NULL { tree.SetRed(far, false, In(o, tmp, red, b, k), d); }
    ghost var m3 := tree.heap.mem;
    MkFlip(side, d', tmp, b, red);
    PlugSib(side, parent, false, Mk(side, b, tmp, d', red), up, s);
    tree.Rotate(side, parent, up, s, b, d', tmp, false, red);
    FramedTwice(m0, m1, m2, Nodes(tree.t));
    FramedTwice(m0, m2, m3, Nodes(tree.t));
    FramedTwice(m0, m3, tree.heap.mem, Nodes(tree.t));
  }

  /** The near and far subtrees of a node, seen from `side`. */
  function Near<N>(side: Side, t: Tree<N>): Tree<N>
    requires t.T?
  {
    if side == L then t.left else t.right
  }

  function Far<N>(side: Side, t: Tree<N>): Tree<N>
    requires t.T?
  {
    if side == L then t.right else t.left
  }

  lemma MkOf<N>(side: Side, t: Tree<N>)
    requires t.T?
    ensures t == Mk(side, Near(side, t), t.node, Far(side, t), t.red)
  {
  }

  /** Finds the sibling, which always exists, and makes sure it is black. */
  method BlackSibling(tree: RbTree, parent: Ptr, side: Side, ghost c: Ctx<Ptr>, ghost s: Tree<Ptr>, ghost h: nat)
    returns (tmp: Ptr, ghost c': Ctx<Ptr>)
    requires tree.Ok() && tree.t == Plug(c, s) && c.In? && c.node == parent && c.side == side
    requires CtxBal(c, h + 1) && TopBlack(c)
    modifies tree`root, tree`t, tree.heap`mem
    ensures tree.Ok() && tree.t == Plug(c', s) && c'.In? && c'.node == parent && c'.side == side
    ensures CtxBal(c', h + 1) && TopBlack(c') && c'.sib.T? && !IsRed(c'.sib) && c'.sib.node == tmp
    ensures c' == c || (c'.red && Depth(c'.up) == Depth(c))
    ensures Inorder(tree.t) == old(Inorder(tree.t)) && Nodes(tree.t) == old(Nodes(tree.t))
    ensures Framed(old(tree.heap.mem), tree.heap.mem, Nodes(tree.t))
  {
    SiblingExists(c, h);
    ghost var w, up := c.sib, c.up;
    ghost var b, d := Near(side, w), Far(side, w);
    MkOf(side, w);
    LookUp(tree.heap.mem, tree.root, c, s);
    PlugSib(side, parent, c.red, w, up, s);
    Look(tree.heap.mem, tree.root, In(Other(side), parent, c.red, s, up), w.left, w.node, w.right, w.red);
    tmp := Link(tree.heap.mem[parent], Other(side));
    c' := c;
    if tree.heap.mem[tmp].red {
      RedSiblingBalanced(side, parent, c.red, b, tmp, d, up, h);
      RedSibling(tree, parent, tmp, side, s, b, d, up);
      c' := In(side, parent, true, b, In(side, tmp, false, d, up));
      LookUp(tree.heap.mem, tree.root, c', s);
      tmp := Link(tree.heap.mem[parent], Other(side));
    }
  }

  /** Whether a child pointer is null or points at a black node. */
  method IsBlack(tree: RbTree, p: Ptr, ghost c: Ctx<Ptr>, ghost s: Tree<Ptr>) returns (r: bool)
    requires tree.Ok() && tree.t == Plug(c, s) && p == RootOf(s)
    ensures r <==> !IsRed(s)
  {
    if s.T? { Look(tree.heap.mem, tree.root, c, s.left, s.node, s.right, s.red); }
    r := p == NULL || !tree.heap.mem[p].red;
  }

  /** The final rotations of removal, when a nephew is red. */
  method RedNephew(tree: RbTree, parent: Ptr, tmp: Ptr, side: Side, farBlack: bool,
                   ghost c: Ctx<Ptr>, ghost s: Tree<Ptr>, ghost h: nat)
    requires tree.Ok() && tree.t == Plug(c, s) && c.In? && c.node == parent && c.side == side
    requires CtxBal(c, h + 1) && TopBlack(c) && c.sib.T? && !IsRed(c.sib) && c.sib.node == tmp
    requires Bal(s, h) && (farBlack <==> !IsRed(Far(side, c.sib))) && (farBlack ==> IsRed(Near(side, c.sib)))
    modifies tree`root, tree`t, tree`h, tree.heap`mem
    ensures tree.Ok() && RedBlack(tree.t, tree.h)
    ensures Inorder(tree.t) == old(Inorder(tree.t)) && Nodes(tree.t) == old(Nodes(tree.t))
    ensures Framed(old(tree.heap.mem), tree.heap.mem, Nodes(tree.t))
  {
    ghost var m0, w, up := tree.heap.mem, c.sib, c.up;
    ghost var b, d := Near(side, w), Far(side, w);
    MkOf(side, w);
    PlugSib(side, parent, c.red, w, up, s);
    ghost var k := In(Other(side), parent, c.red, s, up);
    var sibling := tmp;
    if farBlack {
      MkOf(side, b);
      Look(m0, tree.root, k, w.left, w.node, w.right, w.red);
      Look(m0, tree.root, In(side, tmp, false, d, k), b.left, b.node, b.right, true);
      NearNephewBalanced(side, Near(side, b), b.node, Far(side, b), tmp, d, h);
      NearNephew(tree, tmp, Link(tree.heap.mem[tmp], side), side, Near(side, b), Far(side, b), d, k);
      w := Mk(side, Near(side, b), b.node, Mk(side, Far(side, b), tmp, d, true), false);
      PlugSib(side, parent, c.red, w, up, s);
      LookUp(tree.heap.mem, tree.root, In(side, parent, c.red, w, up), s);
      sibling := Link(tree.heap.mem[parent], Other(side));
    }
    ghost var m1 := tree.heap.mem;
    b, d := Near(side, w), Far(side, w);
    MkOf(side, w);
    FarNephewBalanced(side, s, parent, c.red, b, sibling, d, up, h);
    FarNephew(tree, parent, sibling, side, s, c.red, b, d, up);
    FramedTwice(m0, m1, tree.heap.mem, Nodes(tree.t));
    ghost var t' := Mk(side, Mk(side, s, parent, b, false), sibling, d.(red := false), c.red);
    Fill(up, t', if c.red then h + 1 else h + 2);
    tree.h := CtxHeight(up, if c.red then h + 1 else h + 2);
  }

  /** Both nephews black: the sibling turns red and the lack moves up to the parent. */
  method BlackNephews(tree: RbTree, parent: Ptr, tmp: Ptr, side: Side, ghost c: Ctx<Ptr>, ghost s: Tree<Ptr>,
                      ghost h: nat)
    returns (parent': Ptr, ghost s': Tree<Ptr>, ghost h': nat)
    requires tree.Ok() && tree.t == Plug(c, s) && c.In? && c.node == parent && c.side == side
    requires CtxBal(c, h + 1) && TopBlack(c) && c.sib.T? && !IsRed(c.sib) && c.sib.node == tmp
    requires Bal(s, h) && !IsRed(s) && !IsRed(Near(side, c.sib)) && !IsRed(Far(side, c.sib))
    modifies tree`root, tree`t, tree.heap`mem
    ensures tree.Ok() && tree.t == Plug(c.up, s') && parent == RootOf(s') && parent' == ParentOf(c.up)
    ensures CtxBal(c.up, h' + 1) && TopBlack(c.up) && WeakBal(s', h') && IsRed(s') == c.red
    ensures Inorder(tree.t) == old(Inorder(tree.t)) && Nodes(tree.t) == old(Nodes(tree.t))
    ensures Framed(old(tree.heap.mem), tree.heap.mem, Nodes(tree.t))
  {
    ghost var w, up := c.sib, c.up;
    ghost var b, d := Near(side, w), Far(side, w);
    MkOf(side, w);
    PlugSib(side, parent, c.red, w, up, s);
    BlackNephewsBalanced(side, s, parent, c.red, b, tmp, d, up, h);
    tree.SetRed(tmp, true, In(Other(side), parent, c.red, s, up), w);
    ghost var w' := Mk(side, b, tmp, d, true);
    PlugSib(side, parent, c.red, w', up, s);
    s', h' := Mk(side, s, parent, w', c.red), if c.red then h else h + 1;
    Look(tree.heap.mem, tree.root, up, s'.left, parent, s'.right, c.red);
    parent' := tree.heap.mem[parent].parent;
  }

  /** One turn of the rebalancing loop of removal. */
  method RemoveStep(tree: RbTree, elm: Ptr, parent: Ptr, ghost c: Ctx<Ptr>, ghost s: Tree<Ptr>, ghost h: nat)
    returns (done: bool, elm': Ptr, parent': Ptr, ghost c': Ctx<Ptr>, ghost s': Tree<Ptr>, ghost h': nat)
    requires tree.Ok() && tree.t == Plug(c, s) && elm == RootOf(s) && c.In? && c.node == parent
    requires CtxBal(c, h + 1) && TopBlack(c) && Bal(s, h) && !IsRed(s)
    modifies tree`root, tree`t, tree`h, tree.heap`mem
    ensures tree.Ok() && tree.t == Plug(c', s') && elm' == RootOf(s') && parent' == ParentOf(c')
    ensures CtxBal(c', h' + 1) && TopBlack(c') && WeakBal(s', h')
    ensures done ==> c'.Top? && !IsRed(s')
    ensures !done ==> IsRed(s') || Depth(c') < Depth(c)
    ensures Inorder(tree.t) == old(Inorder(tree.t)) && Nodes(tree.t) == old(Nodes(tree.t))
    ensures Framed(old(tree.heap.mem), tree.heap.mem, Nodes(tree.t))
  {
    ghost var m0 := tree.heap.mem;
    SiblingExists(c, h);
    LookUp(m0, tree.root, c, s);
    var side := if tree.heap.mem[parent].left == elm then L else R;
    var tmp;
    ghost var k;
    tmp, k := BlackSibling(tree, parent, side, c, s, h);
    ghost var m1, w, up := tree.heap.mem, k.sib, k.up;
    ghost var b, d := Near(side, w), Far(side, w);
    MkOf(side, w);
    PlugSib(side, parent, k.red, w, up, s);
    ghost var j := In(Other(side), parent, k.red, s, up);
    Look(m1, tree.root, j, w.left, tmp, w.right, false);
    MkFlip(side, d, tmp, b, false);
    var nearBlack := IsBlack(tree, Link(tree.heap.mem[tmp], side), In(side, tmp, false, d, j), b);
    var farBlack := IsBlack(tree, Link(tree.heap.mem[tmp], Other(side)), In(Other(side), tmp, false, b, j), d);
    if nearBlack && farBlack {
      parent', s', h' := BlackNephews(tree, parent, tmp, side, k, s, h);
      FramedTwice(m0, m1, tree.heap.mem, Nodes(tree.t));
      done, elm', c' := false, parent, up;
    } else {
      RedNephew(tree, parent, tmp, side, farBlack, k, s, h);
      FramedTwice(m0, m1, tree.heap.mem, Nodes(tree.t));
      LookRoot(tree.heap.mem, tree.root, tree.t);
      done, elm', parent' := true, tree.root, NULL;
      c', s', h' := Top, tree.t, tree.h;
    }
  }

  /** Makes up for a black node that has been taken out above `elm`. */
  method RemoveColor(tree: RbTree, parent0: Ptr, elm0: Ptr, ghost c0: Ctx<Ptr>, ghost s0: Tree<Ptr>, ghost h0: nat)
    requires tree.Ok() && tree.t == Plug(c0, s0) && elm0 == RootOf(s0) && parent0 == ParentOf(c0)
    requires CtxBal(c0, h0 + 1) && TopBlack(c0) && WeakBal(s0, h0)
    modifies tree`root, tree`t, tree`h, tree.heap`mem
    ensures tree.Ok() && RedBlack(tree.t, tree.h)
    ensures Inorder(tree.t) == old(Inorder(tree.t)) && Nodes(tree.t) == old(Nodes(tree.t))
    ensures Framed(old(tree.heap.mem), tree.heap.mem, Nodes(tree.t))
  {
    var elm, parent, done := elm0, parent0, false;
    ghost var c, s, h := c0, s0, h0;
    while !done
      invariant tree.Ok() && tree.t == Plug(c, s) && elm == RootOf(s) && parent == ParentOf(c)
      invariant CtxBal(c, h + 1) && TopBlack(c) && WeakBal(s, h) && (done ==> c.Top? && !IsRed(s))
      invariant Inorder(tree.t) == old(Inorder(tree.t)) && Nodes(tree.t) == old(Nodes(tree.t))
      invariant Framed(old(tree.heap.mem), tree.heap.mem, Nodes(tree.t))
      decreases !done, if IsRed(s) then 0 else Depth(c) + 1
    {
      ghost var m := tree.heap.mem;
      var black := IsBlack(tree, elm, c, s);
      if c.In? { LookUp(m, tree.root, c, s); } else { LookRoot(m, tree.root, tree.t); }
      if !black || elm == tree.root { break; }
      done, elm, parent, c, s, h := RemoveStep(tree, elm, parent, c, s, h);
      FramedTwice(old(tree.heap.mem), m, tree.heap.mem, Nodes(tree.t));
    }
    ghost var m := tree.heap.mem;
    Blacken(tree, elm, c, s, h);
    FramedTwice(old(tree.heap.mem), m, tree.heap.mem, Nodes(tree.t));
  }

  /** Colours the node black at which the loop stopped: a red one, or the root. */
  method Blacken(tree: RbTree, elm: Ptr, ghost c: Ctx<Ptr>, ghost s: Tree<Ptr>, ghost h: nat)
    requires tree.Ok() && tree.t == Plug(c, s) && elm == RootOf(s)
    requires CtxBal(c, h + 1) && TopBlack(c) && WeakBal(s, h) && (IsRed(s) || c.Top?)
    modifies tree`root, tree`t, tree`h, tree.heap`mem
    ensures tree.Ok() && RedBlack(tree.t, tree.h)
    ensures Inorder(tree.t) == old(Inorder(tree.t)) && Nodes(tree.t) == old(Nodes(tree.t))
    ensures Framed(old(tree.heap.mem), tree.heap.mem, Nodes(tree.t))
  {
    if s.T? { Look(tree.heap.mem, tree.root, c, s.left, elm, s.right, s.red); }
    if elm != NULL { tree.SetRed(elm, false, c, s); }
    if IsRed(s) {
      Fill(c, s.(red := false), h + 1);
      tree.h := CtxHeight(c, h + 1);
    } else {
      tree.h := h;
    }
  }

  // --- taking a node out ---

  /** Splices out a node with at most one child. */
  function UnlinkMem(m: Mem, root: Ptr, elm: Ptr, child: Ptr, parent: Ptr): (Mem, Ptr)
    requires (child != NULL ==> child in m) && (parent != NULL ==> parent in m)
  {
    var m1 := if child != NULL then m[child := m[child].(parent := parent)] else m;
    ReplaceChild(m1, root, parent, elm, child)
  }

  /** What that does to memory. */
  ghost predicate Unlinked(m: Mem, m': Mem, root: Ptr, root': Ptr, c: Ctx<Ptr>, child: Ptr) {
    && m'.Keys == m.Keys
    && (child != NULL ==> child in m && m'[child] == m[child].(parent := ParentOf(c)))
    && (c.In? ==> c.node in m && m'[c.node] == SetLink(m[c.node], c.side, child) && root' == root)
    && (c.Top? ==> root' == child)
    && forall n | n in m && (child == NULL || n != child) && (c.Top? || n != c.node) :: m'[n] == m[n]
  }

  lemma UnlinkMemIs(m: Mem, root: Ptr, c: Ctx<Ptr>, elm: Ptr, child: Ptr)
    requires child != NULL ==> child in m && (c.In? ==> c.node != child)
    requires c.In? ==>
      && c.node in m && c.node != NULL && Link(m[c.node], c.side) == elm && Link(m[c.node], Other(c.side)) != elm
    ensures var (m', root') := UnlinkMem(m, root, elm, child, ParentOf(c)); Unlinked(m, m', root, root', c, child)
  {
  }

  lemma UnlinkParts(m: Mem, m': Mem, root: Ptr, root': Ptr, c: Ctx<Ptr>, s: Tree<Ptr>, ch: Tree<Ptr>)
    requires Linked2(m, root, c, s) && s.T?
    requires (s.left.Leaf? && ch == s.right) || (s.right.Leaf? && ch == s.left)
    requires Unlinked(m, m', root, root', c, RootOf(ch))
    ensures Linked2(m', root', c, ch)
  {
    assert Open(Links, 0);
    var n := s.node;
    RepInMem(m, s.left, m[n].left, n);
    RepInMem(m, s.right, m[n].right, n);
    assert c.In? ==> c.node in CtxNodes(c);
    assert ch.T? ==> ch.node in Nodes(ch);
    RepRehung(m, m', ch, RootOf(ch), n, ParentOf(c));
    Resub(m, m', root, root', c, s, ch);
  }

  /** Nodes of a tree with and without a spliced-out node. */
  lemma UnlinkedNodes<N>(c: Ctx<N>, s: Tree<N>, ch: Tree<N>)
    requires Distinct(Plug(c, s)) && s.T?
    requires (s.left.Leaf? && ch == s.right) || (s.right.Leaf? && ch == s.left)
    ensures Nodes(Plug(c, s)) == Nodes(Plug(c, ch)) + {s.node} && s.node !in Nodes(Plug(c, ch))
    ensures c.In? ==> c.node != s.node && c.node in Nodes(Plug(c, ch)) && (ch.T? ==> c.node != ch.node)
    ensures ch.T? ==> ch.node in Nodes(Plug(c, ch))
  {
    PlugNodes(c, s);
    PlugNodes(c, ch);
    ChildNodes(s, ch);
    SpliceSets(CtxNodes(c), Nodes(ch), s.node);
    assert c.In? ==> c.node in CtxNodes(c);
    assert ch.T? ==> ch.node in Nodes(ch);
  }

  lemma ChildNodes<N>(s: Tree<N>, ch: Tree<N>)
    requires Distinct(s) && s.T? && ((s.left.Leaf? && ch == s.right) || (s.right.Leaf? && ch == s.left))
    ensures Nodes(s) == Nodes(ch) + {s.node} && s.node !in Nodes(ch)
  {
  }

  lemma SpliceSets<N>(k: set<N>, a: set<N>, n: N)
    requires k !! a + {n} && n !in a
    ensures k + (a + {n}) == (k + a) + {n} && n !in k + a && k !! a
  {
  }

  lemma UnlinkNodes(m: Mem, root: Ptr, c: Ctx<Ptr>, s: Tree<Ptr>, ch: Tree<Ptr>)
    requires Linked(m, root, Plug(c, s)) && s.T?
    requires (s.left.Leaf? && ch == s.right) || (s.right.Leaf? && ch == s.left)
    ensures s.node in m && s.node != NULL && (RootOf(ch) != NULL ==> RootOf(ch) in m)
    ensures Nodes(Plug(c, s)) == Nodes(Plug(c, ch)) + {s.node} && s.node !in Nodes(Plug(c, ch))
    ensures c.In? ==> c.node in Nodes(Plug(c, ch)) && (ch.T? ==> c.node != ch.node)
    ensures ch.T? ==> ch.node in Nodes(Plug(c, ch))
  {
    assert Open(Links, 0);
    UnlinkedNodes(c, s, ch);
    RepInMem(m, Plug(c, s), root, NULL);
  }

  lemma UnlinkFramed(m: Mem, m': Mem, root: Ptr, root': Ptr, c: Ctx<Ptr>, ch: Tree<Ptr>, touched: set<Ptr>)
    requires Unlinked(m, m', root, root', c, RootOf(ch))
    requires (c.In? ==> c.node in touched) && (ch.T? ==> ch.node in touched)
    ensures Framed(m, m', touched)
  {
  }

  /** The pointers that splicing reads, and that they are different nodes. */
  lemma UnlinkLooks(m: Mem, root: Ptr, c: Ctx<Ptr>, s: Tree<Ptr>, ch: Tree<Ptr>)
    requires Linked(m, root, Plug(c, s)) && s.T?
    requires (s.left.Leaf? && ch == s.right) || (s.right.Leaf? && ch == s.left)
    ensures RootOf(ch) != NULL ==> RootOf(ch) in m && (c.In? ==> c.node != RootOf(ch))
    ensures c.In? ==>
      && c.node in m && c.node != NULL && Link(m[c.node], c.side) == s.node && Link(m[c.node], Other(c.side)) != s.node
    ensures (c.In? ==> c.node in Nodes(Plug(c, ch))) && (ch.T? ==> ch.node in Nodes(Plug(c, ch)))
  {
    UnlinkNodes(m, root, c, s, ch);
    if c.In? { LookUp(m, root, c, s); }
  }

  lemma UnlinkCorrect(m: Mem, root: Ptr, c: Ctx<Ptr>, s: Tree<Ptr>, ch: Tree<Ptr>)
    requires Linked(m, root, Plug(c, s)) && s.T?
    requires (s.left.Leaf? && ch == s.right) || (s.right.Leaf? && ch == s.left)
    ensures RootOf(ch) != NULL ==> RootOf(ch) in m
    ensures c.In? ==> c.node in m && c.node != NULL
    ensures var (m', root') := UnlinkMem(m, root, s.node, RootOf(ch), ParentOf(c));
            && Linked(m', root', Plug(c, ch)) && Framed(m, m', Nodes(Plug(c, ch))) && (c.In? ==> root' == root)
  {
    UnlinkLooks(m, root, c, s, ch);
    UnlinkMemIs(m, root, c, s.node, RootOf(ch));
    var (m', root') := UnlinkMem(m, root, s.node, RootOf(ch), ParentOf(c));
    Focus(m, root, c, s);
    UnlinkParts(m, m', root, root', c, s, ch);
    Focus(m', root', c, ch);
    UnlinkFramed(m, m', root, root', c, ch, Nodes(Plug(c, ch)));
  }

  /** Gives `y` the links and colour of `old`, and points all around it at `y`. */
  function SubstMem(m: Mem, root: Ptr, old_: Ptr, y: Ptr): (Mem, Ptr)
    requires old_ in m && y in m && y != old_
    requires m[old_].parent != NULL ==> m[old_].parent in m
    requires m[old_].left in m && (m[old_].right != NULL ==> m[old_].right in m)
  {
    var o := m[old_];
    var m1 := m[y := o.(vaddr := m[y].vaddr, size := m[y].size)];
    var (m2, root') := ReplaceChild(m1, root, o.parent, old_, y);
    var m3 := m2[o.left := m2[o.left].(parent := y)];
    (if o.right != NULL then m3[o.right := m3[o.right].(parent := y)] else m3, root')
  }

  /** What that does to memory. */
  ghost predicate Substituted(m: Mem, m': Mem, root: Ptr, root': Ptr, c: Ctx<Ptr>, o: Ptr, y: Ptr, l: Ptr, r: Ptr) {
    && m'.Keys == m.Keys && o in m && y in m && l in m && (r != NULL ==> r in m)
    && m'[y] == m[o].(vaddr := m[y].vaddr, size := m[y].size)
    && m'[l] == m[l].(parent := y) && (r != NULL ==> m'[r] == m[r].(parent := y))
    && (c.In? ==> c.node in m && m'[c.node] == SetLink(m[c.node], c.side, y) && root' == root)
    && (c.Top? ==> root' == y)
    && forall n | n in m && n != y && n != l && (r == NULL || n != r) && (c.Top? || n != c.node) :: m'[n] == m[n]
  }

  lemma SubstMemIs(m: Mem, root: Ptr, c: Ctx<Ptr>, o: Ptr, y: Ptr, l: Ptr, r: Ptr)
    requires o in m && y in m && y != o && m[o].left == l && m[o].right == r && m[o].parent == ParentOf(c)
    requires l in m && l != y && (r != NULL ==> r in m && r != y && r != l)
    requires c.In? ==>
      && c.node in m && c.node != NULL && c.node != y && c.node != l && c.node != r
      && Link(m[c.node], c.side) == o && Link(m[c.node], Other(c.side)) != o
    ensures var (m', root') := SubstMem(m, root, o, y); Substituted(m, m', root, root', c, o, y, l, r)
  {
  }

  lemma SubstParts(m: Mem, m': Mem, root: Ptr, root': Ptr, c: Ctx<Ptr>,
                   l: Tree<Ptr>, o: Ptr, r: Tree<Ptr>, red: bool, y: Ptr)
    requires Linked2(m, root, c, T(l, o, r, red)) && l.T?
    requires y in m && y != NULL && y !in CtxNodes(c) && y !in Nodes(T(l, o, r, red))
    requires Substituted(m, m', root, root', c, o, y, RootOf(l), RootOf(r))
    ensures Linked2(m', root', c, T(l, y, r, red))
  {
    assert Open(Links, 0);
    RepInMem(m, l, m[o].left, o);
    RepInMem(m, r, m[o].right, o);
    assert c.In? ==> c.node in CtxNodes(c);
    assert r.T? ==> r.node in Nodes(r);
    assert l.node in Nodes(l);
    RepRehung(m, m', l, RootOf(l), o, y);
    RepRehung(m, m', r, RootOf(r), o, y);
    Resub(m, m', root, root', c, T(l, o, r, red), T(l, y, r, red));
  }

  lemma SubstFramed(m: Mem, m': Mem, root: Ptr, root': Ptr, c: Ctx<Ptr>, o: Ptr, y: Ptr,
                    l: Tree<Ptr>, r: Tree<Ptr>, touched: set<Ptr>)
    requires Substituted(m, m', root, root', c, o, y, RootOf(l), RootOf(r)) && l.T?
    requires y in touched && l.node in touched && (r.T? ==> r.node in touched) && (c.In? ==> c.node in touched)
    ensures Framed(m, m', touched)
  {
  }

  lemma SubstNodes<N>(c: Ctx<N>, l: Tree<N>, o: N, r: Tree<N>, red: bool, y: N)
    requires Distinct(Plug(c, T(l, o, r, red))) && y !in Nodes(Plug(c, T(l, o, r, red)))
    ensures Nodes(Plug(c, T(l, y, r, red))) == Nodes(Plug(c, T(l, o, r, red))) - {o} + {y}
  {
    PlugNodes(c, T(l, o, r, red));
    PlugNodes(c, T(l, y, r, red));
    var k, a, b := CtxNodes(c), Nodes(l), Nodes(r);
    assert o !in k && o !in a && o !in b;
    assert k + (a + {y} + b) == k + (a + {o} + b) - {o} + {y};
  }

  /** The pointers that substitution reads, and that they are different nodes. */
  lemma SubstLooks(m: Mem, root: Ptr, c: Ctx<Ptr>, l: Tree<Ptr>, o: Ptr, r: Tree<Ptr>, red: bool, y: Ptr)
    requires Linked(m, root, Plug(c, T(l, o, r, red))) && l.T? && y !in Nodes(Plug(c, T(l, o, r, red)))
    ensures y !in CtxNodes(c) && y !in Nodes(T(l, o, r, red))
    ensures l.node in m && l.node != y && (r.T? ==> r.node in m && r.node != y && r.node != l.node && r.node != NULL)
    ensures c.In? ==> c.node != y && c.node != l.node && (r.T? ==> c.node != r.node)
    ensures var n := Nodes(Plug(c, T(l, y, r, red)));
            y in n && l.node in n && (r.T? ==> r.node in n) && (c.In? ==> c.node in n)
  {
    var s := T(l, o, r, red);
    Focus(m, root, c, s);
    PlugNodes(c, s);
    PlugNodes(c, T(l, y, r, red));
    assert Open(Links, 0);
    RepInMem(m, s, o, ParentOf(c));
    assert l.node in Nodes(l) && l.node in Nodes(s);
    assert r.T? ==> r.node in Nodes(r) && r.node in Nodes(s);
    assert c.In? ==> c.node in CtxNodes(c);
  }

  lemma SubstCorrect(m: Mem, root: Ptr, c: Ctx<Ptr>, l: Tree<Ptr>, o: Ptr, r: Tree<Ptr>, red: bool, y: Ptr)
    requires Linked(m, root, Plug(c, T(l, o, r, red))) && l.T?
    requires y in m && y != NULL && y !in Nodes(Plug(c, T(l, o, r, red)))
    ensures o in m && o != y && m[o].left in m
    ensures (m[o].parent != NULL ==> m[o].parent in m) && (m[o].right != NULL ==> m[o].right in m)
    ensures var (m', root') := SubstMem(m, root, o, y);
            Linked(m', root', Plug(c, T(l, y, r, red))) && Framed(m, m', Nodes(Plug(c, T(l, y, r, red))))
  {
    var s, s' := T(l, o, r, red), T(l, y, r, red);
    Look(m, root, c, l, o, r, red);
    if c.In? { LookUp(m, root, c, s); }
    SubstLooks(m, root, c, l, o, r, red, y);
    assert o != y by { assert o in Nodes(s); }
    SubstMemIs(m, root, c, o, y, RootOf(l), RootOf(r));
    var (m', root') := SubstMem(m, root, o, y);
    Focus(m, root, c, s);
    SubstParts(m, m', root, root', c, l, o, r, red, y);
    Focus(m', root', c, s');
    SubstFramed(m, m', root, root', c, o, y, l, r, Nodes(Plug(c, s')));
  }

  /** Takes a node with at most one child out of the links. */
  method Unlink(tree: RbTree, elm: Ptr, child: Ptr, parent: Ptr, ghost c: Ctx<Ptr>, ghost s: Tree<Ptr>,
                ghost ch: Tree<Ptr>)
    requires tree.Ok() && tree.t == Plug(c, s) && s.T? && s.node == elm && child == RootOf(ch) && parent == ParentOf(c)
    requires (s.left.Leaf? && ch == s.right) || (s.right.Leaf? && ch == s.left)
    modifies tree`root, tree`t, tree.heap`mem
    ensures tree.Ok() && tree.t == Plug(c, ch) && elm !in Nodes(tree.t)
    ensures old(Nodes(tree.t)) == Nodes(tree.t) + {elm} && Framed(old(tree.heap.mem), tree.heap.mem, Nodes(tree.t))
    ensures elm in tree.heap.mem && elm != NULL
  {
    UnlinkCorrect(tree.heap.mem, tree.root, c, s, ch);
    UnlinkNodes(tree.heap.mem, tree.root, c, s, ch);
    var r := UnlinkMem(tree.heap.mem, tree.root, elm, child, parent);
    tree.heap.mem, tree.root := r.0, r.1;
    tree.t := Plug(c, ch);
  }

  /** Rebalances after a node of the given colour has gone from above `child`. */
  method Rebalance(tree: RbTree, red: bool, child: Ptr, parent: Ptr, ghost c: Ctx<Ptr>, ghost ch: Tree<Ptr>,
                   ghost k: nat)
    requires tree.Ok() && tree.t == Plug(c, ch) && child == RootOf(ch) && parent == ParentOf(c)
    requires CtxBal(c, k) && TopBlack(c) && (if red then Bal(ch, k) && !IsRed(ch) else k > 0 && Bal(ch, k - 1))
    modifies tree`root, tree`t, tree`h, tree.heap`mem
    ensures tree.Ok() && RedBlack(tree.t, tree.h)
    ensures Inorder(tree.t) == old(Inorder(tree.t)) && Nodes(tree.t) == old(Nodes(tree.t))
    ensures Framed(old(tree.heap.mem), tree.heap.mem, Nodes(tree.t))
  {
    if !red {
      RemoveColor(tree, parent, child, c, ch, k - 1);
    } else {
      Fill(c, ch, k);
      tree.h := CtxHeight(c, k);
    }
  }

  /** The leftmost node below `start`: the successor of the node above it. */
  method Leftmost(tree: RbTree, start: Ptr, ghost outer: Ctx<Ptr>, ghost r: Tree<Ptr>)
    returns (y: Ptr, ghost inner: Ctx<Ptr>, ghost s: Tree<Ptr>)
    requires tree.Ok() && tree.t == Plug(outer, r) && r.T? && start == r.node
    ensures r == Plug(inner, s) && s.T? && s.node == y && s.left.Leaf? && Before(inner) == []
  {
    y := start;
    inner, s := Top, r;
    while true
      invariant r == Plug(inner, s) && s.T? && s.node == y && Before(inner) == []
      decreases s
    {
      PlugJoin(inner, outer, s);
      Look(tree.heap.mem, tree.root, Join(inner, outer), s.left, y, s.right, s.red);
      var left := tree.heap.mem[y].left;
      if left == NULL { break; }
      y := left;
      inner, s := In(L, s.node, s.red, s.right, inner), s.left;
    }
  }

  /** Puts `y`, which is in no tree, in the place of `o`. */
  method Substitute(tree: RbTree, o: Ptr, y: Ptr, ghost c: Ctx<Ptr>, ghost l: Tree<Ptr>, ghost r: Tree<Ptr>,
                    ghost red: bool)
    requires tree.Ok() && tree.t == Plug(c, T(l, o, r, red)) && l.T?
    requires y in tree.heap.mem && y != NULL && y !in Nodes(tree.t)
    modifies tree`root, tree`t, tree.heap`mem
    ensures tree.Ok() && tree.t == Plug(c, T(l, y, r, red)) && Nodes(tree.t) == old(Nodes(tree.t)) - {o} + {y}
    ensures Framed(old(tree.heap.mem), tree.heap.mem, Nodes(tree.t))
  {
    SubstCorrect(tree.heap.mem, tree.root, c, l, o, r, red, y);
    LinkedDistinct(tree.heap.mem, tree.root, tree.t);
    SubstNodes(c, l, o, r, red, y);
    var res := SubstMem(tree.heap.mem, tree.root, o, y);
    tree.heap.mem, tree.root := res.0, res.1;
    tree.t := Plug(c, T(l, y, r, red));
  }

  lemma LinkedDistinct(m: Mem, root: Ptr, t: Tree<Ptr>)
    requires Linked(m, root, t)
    ensures Distinct(t)
  {
    assert Open(Links, 0);
  }

  /** Removes a node with two children: its successor takes its place. */
  method RemoveInner(tree: RbTree, elm: Ptr, ghost c: Ctx<Ptr>, ghost s: Tree<Ptr>)
    requires tree.Ok() && RedBlack(tree.t, tree.h) && tree.t == Plug(c, s)
    requires s.T? && s.node == elm && s.left.T? && s.right.T?
    modifies tree`root, tree`t, tree`h, tree.heap`mem
    ensures tree.Ok() && RedBlack(tree.t, tree.h) && Nodes(tree.t) == old(Nodes(tree.t)) - {elm}
    ensures Inorder(tree.t) == Before(c) + Inorder(s.left) + Inorder(s.right) + After(c)
    ensures Framed(old(tree.heap.mem), tree.heap.mem, old(Nodes(tree.t)))
  {
    ghost var m0, n0, l, r, red := tree.heap.mem, Nodes(tree.t), s.left, s.right, s.red;
    ghost var outer := In(R, elm, red, l, c);
    Look(m0, tree.root, c, l, elm, r, red);
    LinkedDistinct(m0, tree.root, tree.t);
    var y;
    ghost var inner, ys;
    y, inner, ys := Leftmost(tree, tree.heap.mem[elm].right, outer, r);
    JoinParent(c, l, elm, r, red, y, inner, ys);
    SuccessorOrder(c, l, r, red, y, inner, ys);
    PlugJoin(inner, outer, ys);
    ghost var h := Split(Join(inner, outer), ys, tree.h);
    JoinRenamed(inner, R, elm, y, red, l, c, h);
    var child, parent, yRed := MoveUp(tree, elm, y, c, s, inner, ys);
    ghost var m1, k := tree.heap.mem, Join(inner, In(R, y, red, l, c));
    PlugJoin(inner, In(R, y, red, l, c), ys.right);
    Rebalance(tree, yRed, child, parent, k, ys.right, h);
    FramedMore(m1, tree.heap.mem, Nodes(tree.t), n0);
    FramedTwice(m0, m1, tree.heap.mem, n0);
  }

  /** Splices the successor out and puts it where the removed node was; returns
      where the tree may now be short of a black node. */
  method MoveUp(tree: RbTree, elm: Ptr, y: Ptr, ghost c: Ctx<Ptr>, ghost s: Tree<Ptr>,
                ghost inner: Ctx<Ptr>, ghost ys: Tree<Ptr>)
    returns (child: Ptr, parent: Ptr, yRed: bool)
    requires tree.Ok() && tree.t == Plug(c, s) && s.T? && s.node == elm && s.left.T?
    requires s.right == Plug(inner, ys) && ys.T? && ys.node == y && ys.left.Leaf?
    modifies tree`root, tree`t, tree.heap`mem
    ensures tree.Ok() && tree.t == Plug(c, T(s.left, y, Plug(inner, ys.right), s.red))
    ensures child == RootOf(ys.right) && yRed == ys.red
    ensures var p := ParentOf(Join(inner, In(R, elm, s.red, s.left, c))); parent == if p == elm then y else p
    ensures Nodes(tree.t) == old(Nodes(tree.t)) - {elm}
    ensures Framed(old(tree.heap.mem), tree.heap.mem, old(Nodes(tree.t)))
  {
    ghost var m0, n0, outer := tree.heap.mem, Nodes(tree.t), In(R, elm, s.red, s.left, c);
    ghost var k := Join(inner, outer);
    PlugJoin(inner, outer, ys);
    Look(m0, tree.root, k, ys.left, y, ys.right, ys.red);
    child, parent, yRed := tree.heap.mem[y].right, tree.heap.mem[y].parent, tree.heap.mem[y].red;
    Unlink(tree, y, child, parent, k, ys, ys.right);
    PlugJoin(inner, outer, ys.right);
    ghost var m1 := tree.heap.mem;
    if parent == elm { parent := y; }
    PlugNodes(c, T(s.left, elm, Plug(inner, ys.right), s.red));
    Substitute(tree, elm, y, c, s.left, Plug(inner, ys.right), s.red);
    SwapNodes(n0, elm, y);
    FramedMore(m0, m1, n0 - {y}, n0);
    FramedMore(m1, tree.heap.mem, n0 - {elm}, n0);
    FramedTwice(m0, m1, tree.heap.mem, n0);
  }

  lemma SwapNodes(n: set<Ptr>, o: Ptr, y: Ptr)
    requires o in n && y in n && o != y
    ensures n - {y} - {o} + {y} == n - {o}
  {
  }

  lemma FramedMore(m: Mem, m': Mem, touched: set<Ptr>, more: set<Ptr>)
    requires Framed(m, m', touched) && touched <= more
    ensures Framed(m, m', more)
  {
  }

  /** In order, the successor stands right after the node it replaces. */
  lemma SuccessorOrder(c: Ctx<Ptr>, l: Tree<Ptr>, r: Tree<Ptr>, red: bool, y: Ptr, inner: Ctx<Ptr>, ys: Tree<Ptr>)
    requires r == Plug(inner, ys) && ys.T? && ys.node == y && ys.left.Leaf? && Before(inner) == []
    ensures Inorder(Plug(c, T(l, y, Plug(inner, ys.right), red)))
         == Before(c) + Inorder(l) + Inorder(r) + After(c)
  {
    LeftmostFirst(inner, ys);
    var rest := Plug(inner, ys.right);
    InorderPlug(c, T(l, y, rest, red));
    SuccessorSeqs(Before(c), Inorder(l), y, Inorder(rest), After(c));
  }

  lemma LeftmostFirst<N>(inner: Ctx<N>, ys: Tree<N>)
    requires ys.T? && ys.left.Leaf? && Before(inner) == []
    ensures Inorder(Plug(inner, ys)) == [ys.node] + Inorder(Plug(inner, ys.right))
  {
    InorderPlug(inner, ys);
    InorderPlug(inner, ys.right);
    LeftmostSeqs(ys.node, Inorder(ys.right), After(inner));
  }

  lemma LeftmostSeqs<N>(y: N, r: seq<N>, a: seq<N>)
    ensures [] + ([] + [y] + r) + a == [y] + ([] + r + a)
  {
  }

  lemma SuccessorSeqs<N>(b: seq<N>, l: seq<N>, y: N, r: seq<N>, f: seq<N>)
    ensures b + (l + [y] + r) + f == b + l + ([y] + r) + f
  {
  }

  lemma JoinParent(c: Ctx<Ptr>, l: Tree<Ptr>, o: Ptr, r: Tree<Ptr>, red: bool, y: Ptr, inner: Ctx<Ptr>, ys: Tree<Ptr>)
    requires Distinct(Plug(c, T(l, o, r, red))) && r == Plug(inner, ys)
    ensures ParentOf(Join(inner, In(R, y, red, l, c)))
         == var p := ParentOf(Join(inner, In(R, o, red, l, c))); if p == o then y else p
  {
    PlugNodes(c, T(l, o, r, red));
    PlugNodes(inner, ys);
    assert inner.In? ==> inner.node in CtxNodes(inner);
  }

  /** Removes a node: exactly it leaves the in-order sequence, and the tree stays a
      red-black search tree. */
  method Remove(tree: RbTree, elm: Ptr) returns (ghost i: nat)
    requires tree.Valid() && elm in Nodes(tree.t)
    modifies tree, tree.heap`mem
    ensures tree.Valid()
    ensures i < |old(Inorder(tree.t))| && old(Inorder(tree.t))[i] == elm
    ensures Inorder(tree.t) == old(Inorder(tree.t))[..i] + old(Inorder(tree.t))[i + 1..]
    ensures Nodes(tree.t) == old(Nodes(tree.t)) - {elm}
    ensures Framed(old(tree.heap.mem), tree.heap.mem, old(Nodes(tree.t)))
  {
    assert Open(Order, 0);
    ghost var m0, n0, all := tree.heap.mem, Nodes(tree.t), Inorder(tree.t);
    ghost var c, s := Locate(tree.t, elm);
    Look(m0, tree.root, c, s.left, elm, s.right, s.red);
    ghost var b, f := Before(c) + Inorder(s.left), Inorder(s.right) + After(c);
    i := |b|;
    OrderAround(c, s, all);
    var node := tree.heap.mem[elm];
    if node.left != NULL && node.right != NULL {
      RemoveInner(tree, elm, c, s);
    } else {
      var child := if node.left == NULL then node.right else node.left;
      RemoveOuter(tree, elm, child, c, s);
    }
    SortedWithout(m0, tree.heap.mem, n0, b, f, elm);
  }

  lemma OrderAround(c: Ctx<Ptr>, s: Tree<Ptr>, all: seq<Ptr>)
    requires s.T? && all == Inorder(Plug(c, s))
    ensures var b, f := Before(c) + Inorder(s.left), Inorder(s.right) + After(c);
            && all == b + [s.node] + f && all[..|b|] == b && all[|b| + 1..] == f
            && Before(c) + Inorder(s.left) + Inorder(s.right) + After(c) == b + f
  {
    InorderPlug(c, s);
    AroundSeqs(Before(c), Inorder(s.left), s.node, Inorder(s.right), After(c));
  }

  lemma AroundSeqs<N>(b: seq<N>, l: seq<N>, n: N, r: seq<N>, f: seq<N>)
    ensures var all := b + (l + [n] + r) + f;
            && all == (b + l) + [n] + (r + f) && all[..|b + l|] == b + l && all[|b + l| + 1..] == r + f
            && b + l + r + f == (b + l) + (r + f)
  {
    var all := b + (l + [n] + r) + f;
    assert all == (b + l) + [n] + (r + f);
  }

  lemma SortedWithout(m: Mem, m': Mem, touched: set<Ptr>, b: seq<Ptr>, f: seq<Ptr>, n: Ptr)
    requires Sorted(m, b + [n] + f) && Framed(m, m', touched)
    ensures Sorted(m', b + f)
  {
    var was, now := b + [n] + f, b + f;
    forall k | 0 <= k < |now| ensures now[k] in m' {
      assert now[k] == if k < |b| then was[k] else was[k + 1];
    }
    forall j, k | 0 <= j < k < |now| ensures m'[now[j]].vaddr < m'[now[k]].vaddr {
      assert now[j] == if j < |b| then was[j] else was[j + 1];
      assert now[k] == if k < |b| then was[k] else was[k + 1];
    }
  }

  lemma SplicedOrder<N>(c: Ctx<N>, s: Tree<N>, ch: Tree<N>)
    requires s.T? && ((s.left.Leaf? && ch == s.right) || (s.right.Leaf? && ch == s.left))
    ensures Inorder(Plug(c, ch)) == Before(c) + Inorder(s.left) + Inorder(s.right) + After(c)
  {
    InorderPlug(c, ch);
    SplicedSeqs(Before(c), Inorder(ch), After(c));
  }

  lemma SplicedSeqs<N>(b: seq<N>, i: seq<N>, f: seq<N>)
    ensures b + i + f == b + [] + i + f == b + i + [] + f
  {
  }

  /** Removes a node with at most one child. */
  method RemoveOuter(tree: RbTree, elm: Ptr, child: Ptr, ghost c: Ctx<Ptr>, ghost s: Tree<Ptr>)
    requires tree.Ok() && RedBlack(tree.t, tree.h) && tree.t == Plug(c, s) && s.T? && s.node == elm
    requires (s.left.Leaf? && child == RootOf(s.right)) || (s.right.Leaf? && child == RootOf(s.left))
    requires s.left.T? && s.right.Leaf? ==> child == RootOf(s.left)
    modifies tree`root, tree`t, tree`h, tree.heap`mem
    ensures tree.Ok() && RedBlack(tree.t, tree.h) && Nodes(tree.t) == old(Nodes(tree.t)) - {elm}
    ensures Inorder(tree.t) == Before(c) + Inorder(s.left) + Inorder(s.right) + After(c)
    ensures Framed(old(tree.heap.mem), tree.heap.mem, old(Nodes(tree.t)))
  {
    ghost var m0, n0 := tree.heap.mem, Nodes(tree.t);
    ghost var ch := if s.left.Leaf? then s.right else s.left;
    ghost var k := Split(c, s, tree.h);
    Look(m0, tree.root, c, s.left, elm, s.right, s.red);
    var parent, red := tree.heap.mem[elm].parent, tree.heap.mem[elm].red;
    Unlink(tree, elm, child, parent, c, s, ch);
    ghost var m1 := tree.heap.mem;
    SplicedOrder(c, s, ch);
    assert Nodes(tree.t) == n0 - {elm};
    Rebalance(tree, red, child, parent, c, ch, k);
    FramedMore(m0, m1, n0 - {elm}, n0);
    FramedMore(m1, tree.heap.mem, n0 - {elm}, n0);
    FramedTwice(m0, m1, tree.heap.mem, n0);
  }
}
