/** Insertion into a red-black tree in memory, with its rebalancing loop. */
module RbInsert {
  import opened Gates
  import opened RbShape
  import opened RbHeap

  /** Recolours parent, uncle and grandparent of a red node with a red uncle. */
  method RecolorFamily(tree: RbTree, parent: Ptr, gparent: Ptr, uncle: Ptr,
                       ghost s1: Side, ghost s2: Side, ghost e: Tree<Ptr>, ghost sib: Tree<Ptr>,
                       ghost u: Tree<Ptr>, ghost up: Ctx<Ptr>)
    requires tree.Ok() && IsRed(u) && u.node == uncle
    requires tree.t == Plug(In(s1, parent, true, sib, In(s2, gparent, false, u, up)), e)
    modifies tree`t, tree.heap`mem
    ensures tree.Ok()
    ensures tree.t == Plug(up, Mk(s2, Mk(s1, e, parent, sib, false), gparent, u.(red := false), true))
    ensures Inorder(tree.t) == old(Inorder(tree.t)) && Nodes(tree.t) == old(Nodes(tree.t))
    ensures Framed(old(tree.heap.mem), tree.heap.mem, Nodes(tree.t))
  {
    ghost var m0 := tree.heap.mem;
    ghost var p, p', u' := Mk(s1, e, parent, sib, true), Mk(s1, e, parent, sib, false), u.(red := false);
    PlugSib(s2, gparent, false, u, up, p);
    tree.SetRed(uncle, false, In(Other(s2), gparent, false, p, up), u);
    PlugSib(s2, gparent, false, u', up, p);
    ghost var m1 := tree.heap.mem;
    tree.SetRed(parent, false, In(s2, gparent, false, u', up), p);
    ghost var m2 := tree.heap.mem;
    tree.SetRed(gparent, true, up, Mk(s2, p', gparent, u', false));
    FramedTwice(m0, m1, m2, Nodes(tree.t));
    FramedTwice(m0, m2, tree.heap.mem, Nodes(tree.t));
  }

  /** Straightens a zig-zag: the red child takes its red parent's place. */
  method RotateInner(tree: RbTree, parent: Ptr, elm: Ptr, side: Side,
                     ghost near: Tree<Ptr>, ghost e: Tree<Ptr>, ghost c: Ctx<Ptr>)
    returns (ghost far: Tree<Ptr>, ghost e': Tree<Ptr>)
    requires tree.Ok() && IsRed(e) && e.node == elm && tree.t == Plug(c, Mk(side, near, parent, e, true))
    modifies tree`root, tree`t, tree.heap`mem
    ensures tree.Ok() && tree.t == Plug(c, Mk(side, e', elm, far, true))
    ensures e' == Mk(side, near, parent, if side == L then e.left else e.right, true)
    ensures far == if side == L then e.right else e.left
    ensures Inorder(tree.t) == old(Inorder(tree.t)) && Nodes(tree.t) == old(Nodes(tree.t))
    ensures Framed(old(tree.heap.mem), tree.heap.mem, Nodes(tree.t))
  {
    ghost var b := if side == L then e.left else e.right;
    far := if side == L then e.right else e.left;
    e' := Mk(side, near, parent, b, true);
    assert e == Mk(side, b, elm, far, true);
    tree.Rotate(side, parent, c, near, b, far, elm, true, true);
  }

  /** Colours the parent black and the grandparent red and rotates them. */
  method RotateOuter(tree: RbTree, parent: Ptr, gparent: Ptr, side: Side,
                     ghost e: Tree<Ptr>, ghost far: Tree<Ptr>, ghost u: Tree<Ptr>, ghost up: Ctx<Ptr>)
    requires tree.Ok() && tree.t == Plug(In(side, gparent, false, u, up), Mk(side, e, parent, far, true))
    modifies tree`root, tree`t, tree.heap`mem
    ensures tree.Ok()
    ensures tree.t == Plug(In(side, parent, false, Mk(Other(side), u, gparent, far, true), up), e)
    ensures Inorder(tree.t) == old(Inorder(tree.t)) && Nodes(tree.t) == old(Nodes(tree.t))
    ensures Framed(old(tree.heap.mem), tree.heap.mem, Nodes(tree.t))
  {
    ghost var m0 := tree.heap.mem;
    ghost var o := Other(side);
    ghost var p' := Mk(side, e, parent, far, false);
    tree.SetRed(parent, false, In(side, gparent, false, u, up), Mk(side, e, parent, far, true));
    ghost var m1 := tree.heap.mem;
    tree.SetRed(gparent, true, up, Mk(side, p', gparent, u, false));
    ghost var m2 := tree.heap.mem;
    assert Mk(side, p', gparent, u, true) == Mk(o, u, gparent, Mk(o, far, parent, e, false), true);
    tree.Rotate(Other(side), gparent, up, u, far, e, parent, true, false);
    assert Mk(o, Mk(o, u, gparent, far, true), parent, e, false)
         == Mk(side, e, parent, Mk(o, u, gparent, far, true), false);
    FramedTwice(m0, m1, m2, Nodes(tree.t));
    FramedTwice(m0, m2, tree.heap.mem, Nodes(tree.t));
  }

  /** One turn of the rebalancing loop: the violation moves up or disappears. */
  method InsertStep(tree: RbTree, elm: Ptr, parent: Ptr, ghost c: Ctx<Ptr>, ghost e: Tree<Ptr>, ghost h: nat)
    returns (elm': Ptr, ghost c': Ctx<Ptr>, ghost e': Tree<Ptr>, ghost h': nat)
    requires tree.Ok() && tree.t == Plug(c, e) && IsRed(e) && e.node == elm
    requires CtxBal(c, h) && Bal(e, h) && TopBlack(c) && CtxRed(c) && c.node == parent
    modifies tree`root, tree`t, tree.heap`mem
    ensures tree.Ok() && tree.t == Plug(c', e') && IsRed(e') && e'.node == elm'
    ensures CtxBal(c', h') && Bal(e', h') && TopBlack(c') && Depth(c') < Depth(c)
    ensures Inorder(tree.t) == old(Inorder(tree.t)) && Nodes(tree.t) == old(Nodes(tree.t))
    ensures Framed(old(tree.heap.mem), tree.heap.mem, Nodes(tree.t))
  {
    ghost var m0 := tree.heap.mem;
    RedParent(c, h);
    ghost var s1, sib, s2, u, up := c.side, c.sib, c.up.side, c.up.sib, c.up.up;
    ghost var p := Mk(s1, e, parent, sib, true);
    LookUp(m0, tree.root, c, e);
    LookUp(m0, tree.root, c.up, p);
    var gparent := tree.heap.mem[parent].parent;
    var side := if parent == tree.heap.mem[gparent].left then L else R;
    assert side == s2 && gparent == c.up.node;
    var uncle := Link(tree.heap.mem[gparent], Other(side));
    LookUncle(m0, tree.root, s2, gparent, u, up, p);
    if uncle != NULL && tree.heap.mem[uncle].red {
      RecolorBalanced(s1, s2, e, parent, sib, gparent, u, up, h);
      RecolorFamily(tree, parent, gparent, uncle, s1, s2, e, sib, u, up);
      e' := Mk(s2, Mk(s1, e, parent, sib, false), gparent, u.(red := false), true);
      return gparent, up, e', h + 1;
    }
    var parent', far, inner := parent, sib, Link(tree.heap.mem[parent], Other(side)) == elm;
    elm', e' := elm, e;
    if inner {
      far, e' := RotateInner(tree, parent, elm, side, sib, e, c.up);
      parent', elm' := elm, parent;
    }
    FarBalanced(side, s1, parent, elm, sib, e, inner, far, e', h);
    ghost var m1 := tree.heap.mem;
    RotateBalanced(side, e', parent', far, gparent, u, up, h);
    RotateOuter(tree, parent', gparent, side, e', far, u, up);
    FramedTwice(m0, m1, tree.heap.mem, Nodes(tree.t));
    c' := In(side, parent', false, Mk(Other(side), u, gparent, far, true), up);
    h' := h;
  }

  lemma LookUncle(m: Mem, root: Ptr, side: Side, g: Ptr, u: Tree<Ptr>, up: Ctx<Ptr>, p: Tree<Ptr>)
    requires Linked(m, root, Plug(In(side, g, false, u, up), p))
    ensures u.T? ==> u.node in m && m[u.node].red == u.red && u.node != NULL
  {
    PlugSib(side, g, false, u, up, p);
    if u.T? { Look(m, root, In(Other(side), g, false, p, up), u.left, u.node, u.right, u.red); }
  }

  /** The subtrees that the outer rotation meets, straight or straightened. */
  lemma FarBalanced(side: Side, s1: Side, parent: Ptr, elm: Ptr, sib: Tree<Ptr>, e: Tree<Ptr>, inner: bool,
                    far: Tree<Ptr>, e': Tree<Ptr>, h: nat)
    requires IsRed(e) && e.node == elm && Bal(e, h) && Bal(sib, h) && !IsRed(sib)
    requires !inner ==> far == sib && e' == e
    requires inner ==>
      && far == (if side == L then e.right else e.left)
      && e' == Mk(side, sib, parent, if side == L then e.left else e.right, true)
    ensures Bal(e', h) && IsRed(e') && e'.node == (if inner then parent else elm)
    ensures Bal(far, h) && !IsRed(far)
  {
  }

  /** Restores the colour conditions after a red node has been attached. */
  method InsertColor(tree: RbTree, elm: Ptr, ghost c0: Ctx<Ptr>, ghost e0: Tree<Ptr>, ghost h0: nat)
    requires tree.Ok() && tree.t == Plug(c0, e0) && IsRed(e0) && e0.node == elm
    requires CtxBal(c0, h0) && Bal(e0, h0) && TopBlack(c0)
    modifies tree`root, tree`t, tree`h, tree.heap`mem
    ensures tree.Ok() && RedBlack(tree.t, tree.h)
    ensures Inorder(tree.t) == old(Inorder(tree.t)) && Nodes(tree.t) == old(Nodes(tree.t))
    ensures Framed(old(tree.heap.mem), tree.heap.mem, Nodes(tree.t))
  {
    var e := elm;
    ghost var c, s, h := c0, e0, h0;
    while true
      invariant tree.Ok() && tree.t == Plug(c, s) && IsRed(s) && s.node == e
      invariant CtxBal(c, h) && Bal(s, h) && TopBlack(c)
      invariant Inorder(tree.t) == old(Inorder(tree.t)) && Nodes(tree.t) == old(Nodes(tree.t))
      invariant Framed(old(tree.heap.mem), tree.heap.mem, Nodes(tree.t))
      decreases Depth(c)
    {
      ghost var m := tree.heap.mem;
      Look(m, tree.root, c, s.left, e, s.right, true);
      if c.In? { LookUp(m, tree.root, c, s); }
      var parent := tree.heap.mem[e].parent;
      if parent == NULL || !tree.heap.mem[parent].red { break; }
      e, c, s, h := InsertStep(tree, e, parent, c, s, h);
      FramedTwice(old(tree.heap.mem), m, tree.heap.mem, Nodes(tree.t));
    }
    PlugIsNode(c, s);
    LookRoot(tree.heap.mem, tree.root, tree.t);
    ghost var m, t := tree.heap.mem, tree.t;
    tree.SetRed(tree.root, false, Top, t);
    FramedTwice(old(tree.heap.mem), m, tree.heap.mem, Nodes(tree.t));
    Fill(c, if c.Top? then s.(red := false) else s, if c.Top? then h + 1 else h);
    tree.h := CtxHeight(c, if c.Top? then h + 1 else h);
  }

  lemma {:induction false} PlugIsNode<N>(c: Ctx<N>, s: Tree<N>)
    requires s.T?
    ensures Plug(c, s).T?
    decreases c
  {
    if c.In? { PlugIsNode(c.up, Mk(c.side, s, c.node, c.sib, c.red)); }
  }

  // --- searching ---

  ghost predicate AllBelow(m: Mem, s: seq<Ptr>, a: nat) {
    forall i | 0 <= i < |s| :: s[i] in m && m[s[i]].vaddr < a
  }

  ghost predicate AllAbove(m: Mem, s: seq<Ptr>, a: nat) {
    forall i | 0 <= i < |s| :: s[i] in m && a < m[s[i]].vaddr
  }

  /** Everything left of the hole lies below `a`, everything right of it above,
      and the nearest range on the left ends at or before `a`. */
  ghost predicate Between(m: Mem, c: Ctx<Ptr>, a: nat) {
    && AllBelow(m, Before(c), a)
    && AllAbove(m, After(c), a)
    && (Before(c) != [] ==> CmpRange(a, m[Before(c)[|Before(c)| - 1]]) > 0)
  }

  lemma SortedMiddle(m: Mem, b: seq<Ptr>, l: seq<Ptr>, n: Ptr, r: seq<Ptr>, f: seq<Ptr>)
    requires Sorted(m, b + (l + [n] + r) + f)
    ensures n in m && AllBelow(m, l, m[n].vaddr) && AllAbove(m, r, m[n].vaddr)
  {
    var all := b + (l + [n] + r) + f;
    var k := |b| + |l|;
    assert all[k] == n;
    forall i | 0 <= i < |l| ensures l[i] in m && m[l[i]].vaddr < m[n].vaddr {
      assert all[|b| + i] == l[i];
    }
    forall i | 0 <= i < |r| ensures r[i] in m && m[n].vaddr < m[r[i]].vaddr {
      assert all[k + 1 + i] == r[i];
    }
  }

  lemma BelowCat(m: Mem, s: seq<Ptr>, u: seq<Ptr>, a: nat)
    requires AllBelow(m, s, a) && AllBelow(m, u, a)
    ensures AllBelow(m, s + u, a)
  {
  }

  lemma AboveCat(m: Mem, s: seq<Ptr>, u: seq<Ptr>, a: nat)
    requires AllAbove(m, s, a) && AllAbove(m, u, a)
    ensures AllAbove(m, s + u, a)
  {
  }

  /** Going down on the side of the comparison keeps that. */
  lemma DescendBetween(m: Mem, c: Ctx<Ptr>, l: Tree<Ptr>, n: Ptr, r: Tree<Ptr>, red: bool, a: nat)
    requires Sorted(m, Inorder(Plug(c, T(l, n, r, red)))) && Between(m, c, a)
    ensures n in m
    ensures CmpRange(a, m[n]) < 0 ==> Between(m, In(L, n, red, r, c), a)
    ensures CmpRange(a, m[n]) > 0 ==> Between(m, In(R, n, red, l, c), a)
  {
    InorderPlug(c, T(l, n, r, red));
    SortedMiddle(m, Before(c), Inorder(l), n, Inorder(r), After(c));
    if CmpRange(a, m[n]) < 0 {
      BetweenLeft(m, c, n, r, red, a);
    } else if CmpRange(a, m[n]) > 0 {
      BetweenRight(m, c, n, l, red, a);
    }
  }

  lemma BetweenLeft(m: Mem, c: Ctx<Ptr>, n: Ptr, r: Tree<Ptr>, red: bool, a: nat)
    requires Between(m, c, a) && n in m && a < m[n].vaddr && AllAbove(m, Inorder(r), m[n].vaddr)
    ensures Between(m, In(L, n, red, r, c), a)
  {
    assert Before(In(L, n, red, r, c)) == Before(c);
    AboveCat(m, [n], Inorder(r), a);
    AboveCat(m, [n] + Inorder(r), After(c), a);
  }

  lemma BetweenRight(m: Mem, c: Ctx<Ptr>, n: Ptr, l: Tree<Ptr>, red: bool, a: nat)
    requires Between(m, c, a) && n in m && CmpRange(a, m[n]) > 0 && AllBelow(m, Inorder(l), m[n].vaddr)
    ensures Between(m, In(R, n, red, l, c), a)
  {
    assert After(In(R, n, red, l, c)) == After(c);
    BelowCat(m, Inorder(l), [n], a);
    BelowCat(m, Before(c), Inorder(l) + [n], a);
  }

  /** The descent of insertion and lookup: it stops at a node that compares equal,
      or at the empty place where the address belongs. */
  method Search(tree: RbTree, a: nat) returns (found: Ptr, parent: Ptr, comp: int, ghost c: Ctx<Ptr>)
    requires tree.Valid()
    ensures found != NULL ==>
      found in Nodes(tree.t) && found in tree.heap.mem && CmpRange(a, tree.heap.mem[found]) == 0
    ensures found == NULL ==>
      && tree.t == Plug(c, Leaf) && Between(tree.heap.mem, c, a)
      && parent == ParentOf(c) && (c.In? ==> (comp < 0 <==> c.side == L))
  {
    assert Open(Order, 0);
    var tmp := tree.root;
    parent, comp := NULL, 0;
    ghost var m, s := tree.heap.mem, tree.t;
    c := Top;
    LookRoot(m, tree.root, tree.t);
    while tmp != NULL
      invariant tree.t == Plug(c, s) && tmp == RootOf(s) && Between(m, c, a)
      invariant s.T? ==> s.node != NULL
      invariant parent == ParentOf(c) && (c.In? ==> (comp < 0 <==> c.side == L))
      decreases s
    {
      ghost var l, n, r, red := s.left, s.node, s.right, s.red;
      Look(m, tree.root, c, l, n, r, red);
      DescendBetween(m, c, l, n, r, red, a);
      parent := tmp;
      comp := CmpRange(a, tree.heap.mem[parent]);
      if comp < 0 {
        tmp := tree.heap.mem[tmp].left;
        c, s := In(L, n, red, r, c), l;
      } else if comp > 0 {
        tmp := tree.heap.mem[tmp].right;
        c, s := In(R, n, red, l, c), r;
      } else {
        PlugNodes(c, s);
        return tmp, parent, comp, c;
      }
      ChildNotNull(m, tree.root, c, s);
    }
    found := NULL;
  }

  lemma ChildNotNull(m: Mem, root: Ptr, c: Ctx<Ptr>, s: Tree<Ptr>)
    requires Linked(m, root, Plug(c, s))
    ensures s.T? ==> s.node != NULL
  {
    if s.T? { Look(m, root, c, s.left, s.node, s.right, s.red); }
  }

  /** Finds a node whose range contains the address. */
  method Find(tree: RbTree, a: nat) returns (r: Ptr)
    requires tree.Valid()
    ensures r != NULL ==> r in Nodes(tree.t) && r in tree.heap.mem && CmpRange(a, tree.heap.mem[r]) == 0
    ensures r == NULL && Apart(tree.heap.mem, Inorder(tree.t)) ==>
      forall n | n in Nodes(tree.t) && n in tree.heap.mem :: CmpRange(a, tree.heap.mem[n]) != 0
  {
    assert Open(Order, 0);
    var parent, comp;
    ghost var c;
    r, parent, comp, c := Search(tree, a);
    if r == NULL && Apart(tree.heap.mem, Inorder(tree.t)) { NoneContains(tree.heap.mem, tree.t, c, a); }
  }

  /** Non-empty ranges that do not overlap and do not wrap, in address order. */
  ghost predicate Apart(m: Mem, s: seq<Ptr>) {
    && (forall i | 0 <= i < |s| ::
          s[i] in m && m[s[i]].size > 0 && m[s[i]].vaddr + m[s[i]].size < 0x1_0000_0000_0000_0000)
    && forall i, j | 0 <= i < j < |s| :: m[s[i]].vaddr + m[s[i]].size <= m[s[j]].vaddr
  }

  /** At the empty place an address belongs to, no range contains it. */
  lemma NoneContains(m: Mem, t: Tree<Ptr>, c: Ctx<Ptr>, a: nat)
    requires t == Plug(c, Leaf) && Between(m, c, a) && Apart(m, Inorder(t))
    ensures forall n | n in Nodes(t) && n in m :: CmpRange(a, m[n]) != 0
  {
    InorderPlug(c, Leaf);
    NodesAreInorder(t);
    assert Inorder(t) == Before(c) + After(c);
    forall n | n in Nodes(t) && n in m ensures CmpRange(a, m[n]) != 0 {
      OneContains(m, Before(c), After(c), n, a);
    }
  }

  lemma OneContains(m: Mem, b: seq<Ptr>, f: seq<Ptr>, n: Ptr, a: nat)
    requires Apart(m, b + f) && n in b + f && AllBelow(m, b, a) && AllAbove(m, f, a)
    requires b != [] ==> CmpRange(a, m[b[|b| - 1]]) > 0
    ensures CmpRange(a, m[n]) != 0
  {
    var all := b + f;
    var i :| 0 <= i < |all| && all[i] == n;
    if i < |b| {
      assert all[|b| - 1] == b[|b| - 1];
    } else {
      assert f[i - |b|] == n;
    }
  }

  // --- insertion ---

  /** The writes that attach a fresh red leaf. */
  function AttachMem(m: Mem, root: Ptr, elm: Ptr, parent: Ptr, comp: int): (Mem, Ptr)
    requires elm in m && (parent != NULL ==> parent in m)
  {
    var m1 := m[elm := m[elm].(parent := parent, left := NULL, right := NULL, red := true)];
    if parent == NULL then (m1, elm)
    else if comp < 0 then (m1[parent := m1[parent].(left := elm)], root)
    else (m1[parent := m1[parent].(right := elm)], root)
  }

  /** What attaching does to memory, pointwise. */
  ghost predicate Attached(m: Mem, m': Mem, root: Ptr, root': Ptr, c: Ctx<Ptr>, elm: Ptr) {
    && m'.Keys == m.Keys && elm in m
    && m'[elm] == m[elm].(left := NULL, right := NULL, parent := ParentOf(c), red := true)
    && (c.In? ==> c.node in m && m'[c.node] == SetLink(m[c.node], c.side, elm) && root' == root)
    && (c.Top? ==> root' == elm)
    && forall n | n in m && n != elm && (c.Top? || n != c.node) :: m'[n] == m[n]
  }

  lemma AttachWrites(m: Mem, root: Ptr, elm: Ptr, c: Ctx<Ptr>, comp: int)
    requires elm in m && elm != NULL
    requires (c.In? ==> c.node in m && c.node != NULL && c.node != elm && (comp < 0 <==> c.side == L))
    ensures var (m', root') := AttachMem(m, root, elm, ParentOf(c), comp); Attached(m, m', root, root', c, elm)
  {
  }

  lemma AttachLinked(m: Mem, m': Mem, root: Ptr, root': Ptr, c: Ctx<Ptr>, elm: Ptr)
    requires Linked(m, root, Plug(c, Leaf)) && elm != NULL && elm !in Nodes(Plug(c, Leaf))
    requires Attached(m, m', root, root', c, elm)
    ensures Linked(m', root', Plug(c, T(Leaf, elm, Leaf, true)))
    ensures Framed(m, m', Nodes(Plug(c, T(Leaf, elm, Leaf, true))))
  {
    var s := T(Leaf, elm, Leaf, true);
    Focus(m, root, c, Leaf);
    PlugNodes(c, Leaf);
    PlugNodes(c, s);
    assert c.In? ==> c.node in CtxNodes(c);
    assert Rep(m', s, elm, ParentOf(c));
    Resub(m, m', root, root', c, Leaf, s);
    Focus(m', root', c, s);
  }

  lemma AttachCorrect(m: Mem, root: Ptr, elm: Ptr, c: Ctx<Ptr>, comp: int)
    requires Linked(m, root, Plug(c, Leaf)) && elm in m && elm != NULL && elm !in Nodes(Plug(c, Leaf))
    requires c.In? ==> (comp < 0 <==> c.side == L)
    ensures c.In? ==> c.node in m && c.node != NULL
    ensures var (m', root') := AttachMem(m, root, elm, ParentOf(c), comp);
            && Linked(m', root', Plug(c, T(Leaf, elm, Leaf, true)))
            && Framed(m, m', Nodes(Plug(c, T(Leaf, elm, Leaf, true))))
  {
    PlugNodes(c, Leaf);
    assert c.In? ==> c.node in CtxNodes(c);
    if c.In? { LookUp(m, root, c, Leaf); }
    AttachWrites(m, root, elm, c, comp);
    var (m', root') := AttachMem(m, root, elm, ParentOf(c), comp);
    AttachLinked(m, m', root, root', c, elm);
  }

  /** Inserts a node: either an existing node that compares equal is returned and
      nothing changes, or the node takes its place in address order. */
  method Insert(tree: RbTree, elm: Ptr) returns (r: Ptr, ghost i: nat)
    requires tree.Valid() && elm in tree.heap.mem && elm != NULL && elm !in Nodes(tree.t)
    modifies tree, tree.heap`mem
    ensures tree.Valid()
    ensures r != NULL ==>
      && tree.t == old(tree.t) && tree.root == old(tree.root) && tree.heap.mem == old(tree.heap.mem)
      && r in Nodes(tree.t) && r in tree.heap.mem
      && CmpRange(tree.heap.mem[elm].vaddr, tree.heap.mem[r]) == 0
    ensures r == NULL ==>
      && i <= |old(Inorder(tree.t))|
      && Inorder(tree.t) == old(Inorder(tree.t))[..i] + [elm] + old(Inorder(tree.t))[i..]
      && Nodes(tree.t) == old(Nodes(tree.t)) + {elm}
      && Framed(old(tree.heap.mem), tree.heap.mem, Nodes(tree.t))
  {
    assert Open(Order, 0);
    i := 0;
    var a := tree.heap.mem[elm].vaddr;
    var parent, comp;
    ghost var c;
    r, parent, comp, c := Search(tree, a);
    if r != NULL { return; }
    ghost var m0, root0, t0 := tree.heap.mem, tree.root, tree.t;
    i := |Before(c)|;
    AttachCorrect(m0, tree.root, elm, c, comp);
    var attached := AttachMem(tree.heap.mem, tree.root, elm, parent, comp);
    tree.heap.mem, tree.root := attached.0, attached.1;
    ghost var e, m1 := T(Leaf, elm, Leaf, true), tree.heap.mem;
    tree.t := Plug(c, e);
    PlacedInOrder(m0, m1, c, elm, Nodes(tree.t));
    ghost var h := Split(c, Leaf, tree.h);
    InsertColor(tree, elm, c, e, h);
    FramedTwice(m0, m1, tree.heap.mem, Nodes(tree.t));
    SortedFramed(m1, tree.heap.mem, Nodes(tree.t), Inorder(tree.t));
  }

  lemma PlacedInOrder(m: Mem, m': Mem, c: Ctx<Ptr>, elm: Ptr, touched: set<Ptr>)
    requires Sorted(m, Inorder(Plug(c, Leaf))) && elm in m && Between(m, c, m[elm].vaddr) && Framed(m, m', touched)
    ensures var i, was, now := |Before(c)|, Inorder(Plug(c, Leaf)), Inorder(Plug(c, T(Leaf, elm, Leaf, true)));
            && i <= |was| && now == was[..i] + [elm] + was[i..] && Sorted(m', now)
            && Nodes(Plug(c, T(Leaf, elm, Leaf, true))) == Nodes(Plug(c, Leaf)) + {elm}
  {
    PlacedOrder(c, elm);
    PlugNodes(c, Leaf);
    PlugNodes(c, T(Leaf, elm, Leaf, true));
    SortedInserted(m, m', Before(c), After(c), elm, touched);
  }

  lemma PlacedOrder(c: Ctx<Ptr>, elm: Ptr)
    ensures var i, was, now := |Before(c)|, Inorder(Plug(c, Leaf)), Inorder(Plug(c, T(Leaf, elm, Leaf, true)));
            && was == Before(c) + After(c) && now == Before(c) + [elm] + After(c)
            && i <= |was| && was[..i] == Before(c) && was[i..] == After(c)
  {
    InorderPlug(c, Leaf);
    InorderPlug(c, T(Leaf, elm, Leaf, true));
  }

  lemma SortedInserted(m: Mem, m': Mem, b: seq<Ptr>, f: seq<Ptr>, elm: Ptr, touched: set<Ptr>)
    requires Sorted(m, b + f) && elm in m && Framed(m, m', touched)
    requires AllBelow(m, b, m[elm].vaddr) && AllAbove(m, f, m[elm].vaddr)
    ensures Sorted(m', b + [elm] + f)
  {
    var now, was := b + [elm] + f, b + f;
    forall i, j | 0 <= i < j < |now| ensures m'[now[i]].vaddr < m'[now[j]].vaddr {
      assert i < |b| ==> was[i] == now[i];
      assert j < |b| ==> was[j] == now[j];
      assert i > |b| ==> was[i - 1] == now[i];
      assert j > |b| ==> was[j - 1] == now[j];
    }
  }
}
