/** Red-black trees in memory.  Pointers are numbers, with 0 for NULL; a node holds
    an address range and its left, right and parent links and colour. */
module RbHeap {
  import opened Gates
  import opened RbShape

  type Ptr = nat
  const NULL: Ptr := 0

  datatype Node = Node(vaddr: nat, size: nat, left: Ptr, right: Ptr, parent: Ptr, red: bool)

  type Mem = map<Ptr, Node>

  function Link(n: Node, side: Side): Ptr {
    if side == L then n.left else n.right
  }

  function SetLink(n: Node, side: Side, p: Ptr): Node {
    if side == L then n.(left := p) else n.(right := p)
  }

  function RootOf(t: Tree<Ptr>): Ptr {
    if t.Leaf? then NULL else t.node
  }

  /** The parent of the node in the hole. */
  function ParentOf(c: Ctx<Ptr>): Ptr {
    if c.Top? then NULL else c.node
  }

  /** The links below `p` spell out `t`; its root points up at `parent`. */
  ghost predicate Rep(m: Mem, t: Tree<Ptr>, p: Ptr, parent: Ptr) {
    match t
    case Leaf => p == NULL
    case T(l, n, r, red) =>
      && p == n && n != NULL && n in m && m[n].parent == parent && m[n].red == red
      && Rep(m, l, m[n].left, n) && Rep(m, r, m[n].right, n)
  }

  lemma RepMk(m: Mem, side: Side, near: Tree<Ptr>, n: Ptr, far: Tree<Ptr>, red: bool, p: Ptr, parent: Ptr)
    ensures Rep(m, Mk(side, near, n, far, red), p, parent) <==>
      && p == n && n != NULL && n in m && m[n].parent == parent && m[n].red == red
      && Rep(m, near, Link(m[n], side), n) && Rep(m, far, Link(m[n], Other(side)), n)
  {
  }

  /** The links around the hole spell out `c`, with `p` in the hole. */
  ghost predicate RepCtx(m: Mem, c: Ctx<Ptr>, p: Ptr, root: Ptr) {
    match c
    case Top => p == root
    case In(side, n, red, sib, up) =>
      && n != NULL && n in m && m[n].red == red && m[n].parent == ParentOf(up)
      && Link(m[n], side) == p
      && Rep(m, sib, Link(m[n], Other(side)), n)
      && RepCtx(m, up, n, root)
  }

  /** The memory holds the tree `t` rooted at `root`, each node once. */
  ghost predicate Linked(m: Mem, root: Ptr, t: Tree<Ptr>) {
    forall k {:trigger Open(Links, k)} | Open(Links, k) :: Distinct(t) && Rep(m, t, root, NULL)
  }

  /** The memory holds the subtree `s` in the context `c`. */
  ghost predicate Linked2(m: Mem, root: Ptr, c: Ctx<Ptr>, s: Tree<Ptr>) {
    forall k {:trigger Open(Links, k)} | Open(Links, k) ::
      && CtxDistinct(c) && Distinct(s) && CtxNodes(c) !! Nodes(s)
      && RepCtx(m, c, RootOf(s), root) && Rep(m, s, RootOf(s), ParentOf(c))
  }

  /** A plugged tree is held exactly when its two parts are. */
  lemma {:induction false} RepPlug(m: Mem, c: Ctx<Ptr>, s: Tree<Ptr>, root: Ptr)
    ensures Rep(m, Plug(c, s), root, NULL) <==> RepCtx(m, c, RootOf(s), root) && Rep(m, s, RootOf(s), ParentOf(c))
    decreases c
  {
    match c
    case Top =>
    case In(side, n, red, sib, up) =>
      RepPlug(m, up, Mk(side, s, n, sib, red), root);
  }

  lemma Focus(m: Mem, root: Ptr, c: Ctx<Ptr>, s: Tree<Ptr>)
    ensures Linked(m, root, Plug(c, s)) <==> Linked2(m, root, c, s)
  {
    assert Open(Links, 0);
    PlugNodes(c, s);
    RepPlug(m, c, s, root);
  }

  /** A subtree that no write touches stays as it is. */
  lemma {:induction false} RepFrame(m: Mem, m': Mem, t: Tree<Ptr>, p: Ptr, parent: Ptr)
    requires Rep(m, t, p, parent)
    requires forall n | n in Nodes(t) && n in m :: n in m' && m'[n] == m[n]
    ensures Rep(m', t, p, parent)
  {
    match t
    case Leaf =>
    case T(l, n, r, _) =>
      RepFrame(m, m', l, m[n].left, n);
      RepFrame(m, m', r, m[n].right, n);
  }

  lemma {:induction false} RepCtxFrame(m: Mem, m': Mem, c: Ctx<Ptr>, p: Ptr, root: Ptr)
    requires RepCtx(m, c, p, root)
    requires forall n | n in CtxNodes(c) && n in m :: n in m' && m'[n] == m[n]
    ensures RepCtx(m', c, p, root)
  {
    match c
    case Top =>
    case In(side, n, _, sib, up) =>
      RepFrame(m, m', sib, Link(m[n], Other(side)), n);
      RepCtxFrame(m, m', up, n, root);
  }

  lemma {:induction false} RepInMem(m: Mem, t: Tree<Ptr>, p: Ptr, parent: Ptr)
    requires Rep(m, t, p, parent)
    ensures forall n | n in Nodes(t) :: n in m && n != NULL
    ensures t.T? ==> p in Nodes(t)
    ensures p == RootOf(t)
  {
    match t
    case Leaf =>
    case T(l, n, r, _) =>
      RepInMem(m, l, m[n].left, n);
      RepInMem(m, r, m[n].right, n);
  }

  /** Only the root's parent pointer depends on where a subtree hangs. */
  lemma RepRehung(m: Mem, m': Mem, t: Tree<Ptr>, p: Ptr, was: Ptr, now: Ptr)
    requires Distinct(t) && Rep(m, t, p, was)
    requires forall n | n in Nodes(t) && n in m && n != p :: n in m' && m'[n] == m[n]
    requires p != NULL && p in m ==> p in m' && m'[p] == m[p].(parent := now)
    ensures Rep(m', t, p, now)
  {
    match t
    case Leaf =>
    case T(l, n, r, _) =>
      RepFrame(m, m', l, m[n].left, n);
      RepFrame(m, m', r, m[n].right, n);
  }

  /** The context after its hole's pointer is redirected. */
  lemma RepCtxRefilled(m: Mem, m': Mem, c: Ctx<Ptr>, x: Ptr, y: Ptr, root: Ptr, root': Ptr)
    requires CtxDistinct(c) && RepCtx(m, c, x, root)
    requires forall n | n in CtxNodes(c) && n in m && (c.Top? || n != c.node) :: n in m' && m'[n] == m[n]
    requires c.In? ==> c.node in m' && m'[c.node] == SetLink(m[c.node], c.side, y) && root' == root
    requires c.Top? ==> root' == y
    ensures RepCtx(m', c, y, root')
  {
    if c.In? {
      var n := c.node;
      RepFrame(m, m', c.sib, Link(m[n], Other(c.side)), n);
      RepCtxFrame(m, m', c.up, n, root);
    }
  }

  /** Puts another subtree in the hole. */
  lemma Resub(m: Mem, m': Mem, root: Ptr, root': Ptr, c: Ctx<Ptr>, s: Tree<Ptr>, s': Tree<Ptr>)
    requires Linked2(m, root, c, s)
    requires Distinct(s') && CtxNodes(c) !! Nodes(s') && Rep(m', s', RootOf(s'), ParentOf(c))
    requires forall n | n in CtxNodes(c) && n in m && (c.Top? || n != c.node) :: n in m' && m'[n] == m[n]
    requires c.In? && c.node in m ==>
      c.node in m' && m'[c.node] == SetLink(m[c.node], c.side, RootOf(s')) && root' == root
    requires c.Top? ==> root' == RootOf(s')
    ensures Linked2(m', root', c, s')
  {
    assert Open(Links, 0);
    RepCtxRefilled(m, m', c, RootOf(s), RootOf(s'), root, root');
  }

  // --- rotation ---

  /** What a rotation of `x` down to `side` does to memory. */
  ghost predicate Rotated(m: Mem, m': Mem, root: Ptr, root': Ptr, side: Side, c: Ctx<Ptr>, x: Ptr, y: Ptr, b: Ptr) {
    && m'.Keys == m.Keys
    && x in m && y in m && (b != NULL ==> b in m)
    && m'[x] == SetLink(m[x], Other(side), b).(parent := y)
    && m'[y] == SetLink(m[y], side, x).(parent := ParentOf(c))
    && (b != NULL ==> m'[b] == m[b].(parent := x))
    && (c.In? ==> c.node in m && m'[c.node] == SetLink(m[c.node], c.side, y) && root' == root)
    && (c.Top? ==> root' == y)
    && forall n | n in m && n != x && n != y && (b == NULL || n != b) && (c.Top? || n != c.node) :: m'[n] == m[n]
  }

  /** The part of that inside the rotated subtree. */
  ghost predicate SubRotated(m: Mem, m': Mem, side: Side, x: Ptr, y: Ptr, parent: Ptr,
                             a: Tree<Ptr>, b: Tree<Ptr>, d: Tree<Ptr>) {
    && x in m && y in m && x in m' && y in m'
    && m'[x] == SetLink(m[x], Other(side), RootOf(b)).(parent := y)
    && m'[y] == SetLink(m[y], side, x).(parent := parent)
    && (b.T? && b.node != NULL ==> b.node in m && b.node in m' && m'[b.node] == m[b.node].(parent := x))
    && forall n | n in Nodes(a) + Nodes(d) + (Nodes(b) - {RootOf(b)}) && n in m :: n in m' && m'[n] == m[n]
  }

  lemma RotateSub(m: Mem, m': Mem, side: Side, x: Ptr, y: Ptr, parent: Ptr,
                  a: Tree<Ptr>, b: Tree<Ptr>, d: Tree<Ptr>, xRed: bool, yRed: bool)
    requires Distinct(Mk(side, a, x, Mk(side, b, y, d, yRed), xRed))
    requires Rep(m, Mk(side, a, x, Mk(side, b, y, d, yRed), xRed), x, parent)
    requires SubRotated(m, m', side, x, y, parent, a, b, d)
    ensures Rep(m', Mk(side, Mk(side, a, x, b, xRed), y, d, yRed), y, parent)
  {
    RepMk(m, side, a, x, Mk(side, b, y, d, yRed), xRed, x, parent);
    RepMk(m, side, b, y, d, yRed, y, x);
    RotateNodes(side, a, x, b, y, d, xRed, yRed);
    RepInMem(m, b, Link(m[y], side), y);
    RepFrame(m, m', a, Link(m[x], side), x);
    RepFrame(m, m', d, Link(m[y], Other(side)), y);
    RepRehung(m, m', b, RootOf(b), y, x);
    RepMk(m', side, a, x, b, xRed, x, y);
    RepMk(m', side, Mk(side, a, x, b, xRed), y, d, yRed, y, parent);
  }

  /** A rotation's writes miss the rest of the subtree... */
  lemma RotateInside(m: Mem, m': Mem, root: Ptr, root': Ptr, side: Side, c: Ctx<Ptr>,
                     x: Ptr, y: Ptr, a: Tree<Ptr>, b: Tree<Ptr>, d: Tree<Ptr>)
    requires x !in Nodes(a) + Nodes(b) + Nodes(d) && y !in Nodes(a) + Nodes(b) + Nodes(d)
    requires Nodes(a) !! Nodes(b) && Nodes(d) !! Nodes(b)
    requires c.In? ==> c.node !in Nodes(a) + Nodes(b) + Nodes(d)
    requires Rotated(m, m', root, root', side, c, x, y, RootOf(b))
    ensures SubRotated(m, m', side, x, y, ParentOf(c), a, b, d)
  {
    forall n | n in Nodes(a) + Nodes(d) + (Nodes(b) - {RootOf(b)}) && n in m ensures n in m' && m'[n] == m[n] {
      assert b.T? ==> n != b.node;
    }
  }

  /** ... and the rest of the context. */
  lemma RotateOutside(m: Mem, m': Mem, root: Ptr, root': Ptr, side: Side, c: Ctx<Ptr>, x: Ptr, y: Ptr, b: Tree<Ptr>)
    requires x !in CtxNodes(c) && y !in CtxNodes(c) && Nodes(b) !! CtxNodes(c)
    requires Rotated(m, m', root, root', side, c, x, y, RootOf(b))
    ensures forall n | n in CtxNodes(c) && n in m && (c.Top? || n != c.node) :: n in m' && m'[n] == m[n]
  {
    forall n | n in CtxNodes(c) && n in m && (c.Top? || n != c.node) ensures n in m' && m'[n] == m[n] {
      assert b.T? ==> n != b.node;
    }
  }

  /** Redirects the pointer to `x`, in its parent or at the root, to `p`. */
  function ReplaceChild(m: Mem, root: Ptr, parent: Ptr, x: Ptr, p: Ptr): (Mem, Ptr)
    requires parent != NULL ==> parent in m
  {
    if parent == NULL then (m, p)
    else if m[parent].left == x then (m[parent := m[parent].(left := p)], root)
    else (m[parent := m[parent].(right := p)], root)
  }

  /** The writes of a rotation of `x` down to `side`, in order. */
  function RotateMem(m: Mem, root: Ptr, side: Side, x: Ptr): (Mem, Ptr)
    requires x in m && Link(m[x], Other(side)) in m && Link(m[x], Other(side)) != x
    requires var b := Link(m[Link(m[x], Other(side))], side); b != NULL ==> b in m && b != x
    requires m[x].parent != NULL ==> m[x].parent in m
  {
    var tmp := Link(m[x], Other(side));
    var inner := Link(m[tmp], side);
    var m1 := m[x := SetLink(m[x], Other(side), inner)];
    var m2 := if inner != NULL then m1[inner := m1[inner].(parent := x)] else m1;
    var parent := m2[x].parent;
    var m3 := m2[tmp := m2[tmp].(parent := parent)];
    var (m4, root') := ReplaceChild(m3, root, parent, x, tmp);
    var m5 := m4[tmp := SetLink(m4[tmp], side, x)];
    (m5[x := m5[x].(parent := tmp)], root')
  }

  lemma RotateMemIs(m: Mem, root: Ptr, side: Side, c: Ctx<Ptr>, x: Ptr, y: Ptr, b: Ptr)
    requires x in m && y in m && Link(m[x], Other(side)) == y && Link(m[y], side) == b
    requires m[x].parent == ParentOf(c) && x != NULL && y != NULL && x != y
    requires b != NULL ==> b in m && b != x && b != y
    requires c.In? ==>
      && c.node in m && c.node != NULL && c.node != x && c.node != y && c.node != b
      && Link(m[c.node], c.side) == x && Link(m[c.node], Other(c.side)) != x
    ensures var r := RotateMem(m, root, side, x); Rotated(m, r.0, root, r.1, side, c, x, y, b)
  {
  }

  lemma RotateCorrect(m: Mem, m': Mem, root: Ptr, root': Ptr, side: Side, c: Ctx<Ptr>,
                      x: Ptr, y: Ptr, a: Tree<Ptr>, b: Tree<Ptr>, d: Tree<Ptr>, xRed: bool, yRed: bool)
    requires Linked2(m, root, c, Mk(side, a, x, Mk(side, b, y, d, yRed), xRed))
    requires Rotated(m, m', root, root', side, c, x, y, RootOf(b))
    ensures Linked2(m', root', c, Mk(side, Mk(side, a, x, b, xRed), y, d, yRed))
  {
    assert Open(Links, 0);
    RotateNodes(side, a, x, b, y, d, xRed, yRed);
    assert c.In? ==> c.node in CtxNodes(c);
    RotateInside(m, m', root, root', side, c, x, y, a, b, d);
    RotateOutside(m, m', root, root', side, c, x, y, b);
    RotateSub(m, m', side, x, y, ParentOf(c), a, b, d, xRed, yRed);
    Resub(m, m', root, root', c, Mk(side, a, x, Mk(side, b, y, d, yRed), xRed),
          Mk(side, Mk(side, a, x, b, xRed), y, d, yRed));
  }

  // --- recolouring and reading ---

  lemma RecolorCorrect(m: Mem, root: Ptr, c: Ctx<Ptr>, l: Tree<Ptr>, n: Ptr, r: Tree<Ptr>, red: bool, red': bool)
    requires Linked2(m, root, c, T(l, n, r, red)) && n in m
    ensures Linked2(m[n := m[n].(red := red')], root, c, T(l, n, r, red'))
  {
    assert Open(Links, 0);
    var m' := m[n := m[n].(red := red')];
    RepFrame(m, m', l, m[n].left, n);
    RepFrame(m, m', r, m[n].right, n);
    RepCtxFrame(m, m', c, n, root);
  }

  /** What the links of a subtree's root say, wherever it sits. */
  lemma Look(m: Mem, root: Ptr, c: Ctx<Ptr>, l: Tree<Ptr>, n: Ptr, r: Tree<Ptr>, red: bool)
    requires Linked(m, root, Plug(c, T(l, n, r, red)))
    ensures n in m && n != NULL
    ensures m[n].parent == ParentOf(c) && m[n].red == red && m[n].left == RootOf(l) && m[n].right == RootOf(r)
    ensures (m[n].left == NULL <==> l.Leaf?) && (m[n].right == NULL <==> r.Leaf?)
  {
    Focus(m, root, c, T(l, n, r, red));
    assert Open(Links, 0);
    RepInMem(m, l, m[n].left, n);
    RepInMem(m, r, m[n].right, n);
  }

  /** What the links of the hole's parent say. */
  lemma LookUp(m: Mem, root: Ptr, c: Ctx<Ptr>, s: Tree<Ptr>)
    requires Linked(m, root, Plug(c, s)) && c.In?
    ensures c.node in m && c.node != NULL && c.node != RootOf(s) && root != RootOf(s)
    ensures m[c.node].parent == ParentOf(c.up) && m[c.node].red == c.red
    ensures Link(m[c.node], c.side) == RootOf(s) && Link(m[c.node], Other(c.side)) == RootOf(c.sib)
    ensures s.T? || c.sib.T? ==> RootOf(s) != RootOf(c.sib)
  {
    Focus(m, root, c, s);
    assert Open(Links, 0);
    RepInMem(m, c.sib, Link(m[c.node], Other(c.side)), c.node);
    RepInMem(m, s, RootOf(s), c.node);
    RootInCtx(m, c, RootOf(s), root);
  }

  lemma {:induction false} RootInCtx(m: Mem, c: Ctx<Ptr>, p: Ptr, root: Ptr)
    requires RepCtx(m, c, p, root) && c.In?
    ensures root in CtxNodes(c) && root != NULL
    decreases c
  {
    if c.up.In? { RootInCtx(m, c.up, c.node, root); }
  }

  lemma LookRoot(m: Mem, root: Ptr, t: Tree<Ptr>)
    requires Linked(m, root, t)
    ensures root == RootOf(t) && (t.T? ==> root in m && root != NULL)
  {
    assert Open(Links, 0);
  }

  /** The comparator of the range trees: 0 when the left address lies inside the
      right range, whose end wraps like a 64-bit sum. */
  function CmpRange(left: nat, right: Node): int {
    if right.vaddr <= left < (right.vaddr + right.size) % 0x1_0000_0000_0000_0000 then 0
    else if left < right.vaddr then -1
    else if left > right.vaddr then 1
    else 0
  }

  /** The nodes are in memory and in strictly ascending address order. */
  ghost predicate Sorted(m: Mem, s: seq<Ptr>) {
    && (forall i | 0 <= i < |s| :: s[i] in m)
    && forall i, j | 0 <= i < j < |s| :: m[s[i]].vaddr < m[s[j]].vaddr
  }

  lemma SortedFramed(m: Mem, m': Mem, touched: set<Ptr>, s: seq<Ptr>)
    requires Sorted(m, s) && Framed(m, m', touched)
    ensures Sorted(m', s)
  {
  }

  /** Only link fields of the touched nodes change. */
  ghost predicate Framed(m: Mem, m': Mem, touched: set<Ptr>) {
    && m'.Keys == m.Keys
    && (forall n | n in m :: m'[n].vaddr == m[n].vaddr && m'[n].size == m[n].size)
    && (forall n | n in m && n !in touched :: m'[n] == m[n])
  }

  lemma FramedTwice(m: Mem, m': Mem, m'': Mem, touched: set<Ptr>)
    requires Framed(m, m', touched) && Framed(m', m'', touched)
    ensures Framed(m, m'', touched)
  {
  }

  /** The kernel heap the nodes live in: allocation hands out a pointer that is not
      in use. */
  class Heap {
    var mem: Mem
    var next: Ptr

    ghost predicate Valid()
      reads this
    {
      next > 0 && forall p | p in mem :: 0 < p < next
    }

    constructor ()
      ensures Valid() && mem == map[]
    {
      mem, next := map[], 1;
    }

    method Alloc(vaddr: nat, size: nat) returns (p: Ptr)
      requires Valid()
      modifies this
      ensures Valid() && p != NULL && p !in old(mem)
      ensures mem == old(mem)[p := Node(vaddr, size, NULL, NULL, NULL, false)]
    {
      p := next;
      mem := mem[p := Node(vaddr, size, NULL, NULL, NULL, false)];
      next := next + 1;
    }
  }

  class RbTree {
    const heap: Heap
    var root: Ptr
    ghost var t: Tree<Ptr>
    ghost var h: nat

    ghost predicate Ok()
      reads this, heap
    {
      Linked(heap.mem, root, t)
    }

    /** A red-black search tree: consistent links, balanced, in address order. */
    ghost predicate Valid()
      reads this, heap
    {
      Ok() && forall k {:trigger Open(Order, k)} | Open(Order, k) :: RedBlack(t, h) && Sorted(heap.mem, Inorder(t))
    }

    constructor (heap: Heap)
      ensures this.heap == heap && Valid() && t == Leaf
    {
      this.heap, root, t, h := heap, NULL, Leaf, 0;
    }

    method SetRed(n: Ptr, red: bool, ghost c: Ctx<Ptr>, ghost s: Tree<Ptr>)
      requires Ok() && s.T? && s.node == n && t == Plug(c, s)
      modifies this`t, heap`mem
      ensures Ok() && t == Plug(c, s.(red := red))
      ensures Inorder(t) == old(Inorder(t)) && Nodes(t) == old(Nodes(t))
      ensures Framed(old(heap.mem), heap.mem, Nodes(t))
    {
      ghost var s' := s.(red := red);
      Look(heap.mem, root, c, s.left, n, s.right, s.red);
      Focus(heap.mem, root, c, s);
      RecolorCorrect(heap.mem, root, c, s.left, n, s.right, s.red, red);
      heap.mem := heap.mem[n := heap.mem[n].(red := red)];
      t := Plug(c, s');
      Focus(heap.mem, root, c, s');
      SamePlug(c, s, s');
    }

    /** Rotates `x` down to `side`: its other child takes its place. */
    method Rotate(side: Side, x: Ptr, ghost c: Ctx<Ptr>, ghost a: Tree<Ptr>, ghost b: Tree<Ptr>, ghost d: Tree<Ptr>,
                  ghost y: Ptr, ghost xRed: bool, ghost yRed: bool)
      requires Ok() && t == Plug(c, Mk(side, a, x, Mk(side, b, y, d, yRed), xRed))
      modifies this`root, this`t, heap`mem
      ensures Ok() && t == Plug(c, Mk(side, Mk(side, a, x, b, xRed), y, d, yRed))
      ensures Inorder(t) == old(Inorder(t)) && Nodes(t) == old(Nodes(t))
      ensures Framed(old(heap.mem), heap.mem, Nodes(t))
    {
      RotateLooks(heap.mem, root, side, c, x, y, a, b, d, xRed, yRed);
      RotateWhole(heap.mem, root, side, c, x, y, a, b, d, xRed, yRed);
      var r := RotateMem(heap.mem, root, side, x);
      heap.mem, root := r.0, r.1;
      t := Plug(c, Mk(side, Mk(side, a, x, b, xRed), y, d, yRed));
    }
  }

  /** A rotation keeps the links consistent, the in-order sequence and the rest
      of memory. */
  lemma RotateWhole(m: Mem, root: Ptr, side: Side, c: Ctx<Ptr>, x: Ptr, y: Ptr,
                    a: Tree<Ptr>, b: Tree<Ptr>, d: Tree<Ptr>, xRed: bool, yRed: bool)
    requires Linked(m, root, Plug(c, Mk(side, a, x, Mk(side, b, y, d, yRed), xRed)))
    requires x in m && y in m && y != x && Link(m[x], Other(side)) == y && Link(m[y], side) == RootOf(b)
    requires RootOf(b) != NULL ==> RootOf(b) in m && RootOf(b) != x
    requires m[x].parent == ParentOf(c) && (c.In? ==> c.node in m)
    ensures var (m', root') := RotateMem(m, root, side, x);
            var before := Plug(c, Mk(side, a, x, Mk(side, b, y, d, yRed), xRed));
            var after := Plug(c, Mk(side, Mk(side, a, x, b, xRed), y, d, yRed));
            && Linked(m', root', after) && Inorder(after) == Inorder(before)
            && Nodes(after) == Nodes(before) && Framed(m, m', Nodes(after))
  {
    var before := Mk(side, a, x, Mk(side, b, y, d, yRed), xRed);
    var after := Mk(side, Mk(side, a, x, b, xRed), y, d, yRed);
    var (m', root') := RotateMem(m, root, side, x);
    RotateLooks(m, root, side, c, x, y, a, b, d, xRed, yRed);
    RotateMemIs(m, root, side, c, x, y, RootOf(b));
    Focus(m, root, c, before);
    RotateCorrect(m, m', root, root', side, c, x, y, a, b, d, xRed, yRed);
    Focus(m', root', c, after);
    RotateInorder(side, a, x, b, y, d, xRed, yRed);
    RotateNodes(side, a, x, b, y, d, xRed, yRed);
    SamePlug(c, before, after);
    RotateFramed(m, m', root, root', side, c, x, y, b, Nodes(Plug(c, after)));
  }

  lemma RotateFramed(m: Mem, m': Mem, root: Ptr, root': Ptr, side: Side, c: Ctx<Ptr>,
                     x: Ptr, y: Ptr, b: Tree<Ptr>, touched: set<Ptr>)
    requires Rotated(m, m', root, root', side, c, x, y, RootOf(b))
    requires x in touched && y in touched && Nodes(b) <= touched && (c.In? ==> c.node in touched)
    ensures Framed(m, m', touched)
  {
    assert b.T? ==> b.node in Nodes(b);
  }

  /** The pointers a rotation reads, and that they are different nodes. */
  lemma RotateLooks(m: Mem, root: Ptr, side: Side, c: Ctx<Ptr>, x: Ptr, y: Ptr,
                    a: Tree<Ptr>, b: Tree<Ptr>, d: Tree<Ptr>, xRed: bool, yRed: bool)
    requires Linked(m, root, Plug(c, Mk(side, a, x, Mk(side, b, y, d, yRed), xRed)))
    ensures x in m && y in m && Link(m[x], Other(side)) == y && Link(m[y], side) == RootOf(b)
    ensures m[x].parent == ParentOf(c) && x != NULL && y != NULL && x != y
    ensures RootOf(b) != NULL ==> RootOf(b) in m && RootOf(b) != x && RootOf(b) != y
    ensures c.In? ==>
      && c.node in m && c.node != NULL && c.node != x && c.node != y && c.node != RootOf(b)
      && Link(m[c.node], c.side) == x && Link(m[c.node], Other(c.side)) != x
  {
    var before := Mk(side, a, x, Mk(side, b, y, d, yRed), xRed);
    Focus(m, root, c, before);
    assert Open(Links, 0);
    RotateNodes(side, a, x, b, y, d, xRed, yRed);
    RepMk(m, side, a, x, Mk(side, b, y, d, yRed), xRed, x, ParentOf(c));
    RepMk(m, side, b, y, d, yRed, y, x);
    RepInMem(m, b, Link(m[y], side), y);
    if c.In? { LookUp(m, root, c, before); }
  }

  lemma RotateInorder(side: Side, a: Tree<Ptr>, x: Ptr, b: Tree<Ptr>, y: Ptr, d: Tree<Ptr>, xRed: bool, yRed: bool)
    ensures Inorder(Mk(side, a, x, Mk(side, b, y, d, yRed), xRed))
         == Inorder(Mk(side, Mk(side, a, x, b, xRed), y, d, yRed))
  {
    var ia, ib, id := Inorder(a), Inorder(b), Inorder(d);
    assert ia + [x] + (ib + [y] + id) == (ia + [x] + ib) + [y] + id;
    assert (id + [y] + ib) + [x] + ia == id + [y] + (ib + [x] + ia);
  }

  lemma SamePlug(c: Ctx<Ptr>, s: Tree<Ptr>, s': Tree<Ptr>)
    requires Inorder(s) == Inorder(s') && Nodes(s) == Nodes(s')
    ensures Inorder(Plug(c, s)) == Inorder(Plug(c, s')) && Nodes(Plug(c, s)) == Nodes(Plug(c, s'))
    ensures Nodes(s) <= Nodes(Plug(c, s)) && (c.In? ==> c.node in Nodes(Plug(c, s)))
  {
    InorderPlug(c, s);
    InorderPlug(c, s');
    PlugNodes(c, s);
    PlugNodes(c, s');
  }
}
