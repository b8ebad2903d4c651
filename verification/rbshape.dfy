/** Red-black trees as values: trees, one-hole contexts, the balance conditions,
    and what recolouring and rotation do to them. */
module RbShape {
  import opened Words

  datatype Side = L | R

  function Other(side: Side): Side {
    if side == L then R else L
  }

  datatype Tree<N> = Leaf | T(left: Tree<N>, node: N, right: Tree<N>, red: bool)

  /** A tree with one subtree missing: the hole is the `side` child of `node`,
      whose other child is `sib`; `up` is the context of `node` itself. */
  datatype Ctx<N> = Top | In(side: Side, node: N, red: bool, sib: Tree<N>, up: Ctx<N>)

  /** A node whose `side` child is `near` and whose other child is `far`. */
  function Mk<N>(side: Side, near: Tree<N>, n: N, far: Tree<N>, red: bool): Tree<N> {
    if side == L then T(near, n, far, red) else T(far, n, near, red)
  }

  function Plug<N>(c: Ctx<N>, t: Tree<N>): Tree<N> {
    match c
    case Top => t
    case In(side, n, red, sib, up) => Plug(up, Mk(side, t, n, sib, red))
  }

  lemma MkFlip<N>(side: Side, near: Tree<N>, n: N, far: Tree<N>, red: bool)
    ensures Mk(Other(side), near, n, far, red) == Mk(side, far, n, near, red)
  {
  }

  /** The hole may be moved to the sibling. */
  lemma PlugSib<N>(side: Side, n: N, red: bool, sib: Tree<N>, up: Ctx<N>, s: Tree<N>)
    ensures Plug(In(side, n, red, sib, up), s) == Plug(In(Other(side), n, red, s, up), sib)
  {
    MkFlip(side, sib, n, s, red);
  }

  function Depth<N>(c: Ctx<N>): nat {
    if c.Top? then 0 else 1 + Depth(c.up)
  }

  /** The context `inner` placed in the hole of `outer`. */
  function Join<N>(inner: Ctx<N>, outer: Ctx<N>): Ctx<N> {
    if inner.Top? then outer else inner.(up := Join(inner.up, outer))
  }

  lemma {:induction false} PlugJoin<N>(inner: Ctx<N>, outer: Ctx<N>, s: Tree<N>)
    ensures Plug(Join(inner, outer), s) == Plug(outer, Plug(inner, s))
    decreases inner
  {
    if inner.In? { PlugJoin(inner.up, outer, Mk(inner.side, s, inner.node, inner.sib, inner.red)); }
  }

  // --- contents ---

  function Inorder<N>(t: Tree<N>): seq<N> {
    match t
    case Leaf => []
    case T(l, n, r, _) => Inorder(l) + [n] + Inorder(r)
  }

  /** The nodes before and after the hole. */
  function Before<N>(c: Ctx<N>): seq<N> {
    match c
    case Top => []
    case In(side, n, _, sib, up) => Before(up) + if side == L then [] else Inorder(sib) + [n]
  }

  function After<N>(c: Ctx<N>): seq<N> {
    match c
    case Top => []
    case In(side, n, _, sib, up) => (if side == L then [n] + Inorder(sib) else []) + After(up)
  }

  lemma {:induction false} InorderPlug<N>(c: Ctx<N>, t: Tree<N>)
    ensures Inorder(Plug(c, t)) == Before(c) + Inorder(t) + After(c)
    decreases c
  {
    match c
    case Top =>
    case In(side, n, red, sib, up) =>
      InorderPlug(up, Mk(side, t, n, sib, red));
      Assoc(Before(up), Inorder(t), n, Inorder(sib), After(up));
      Assoc(Before(up), Inorder(sib), n, Inorder(t), After(up));
  }

  lemma Assoc<N>(b: seq<N>, l: seq<N>, n: N, r: seq<N>, a: seq<N>)
    ensures b + (l + [n] + r) + a == b + l + (([n] + r) + a)
    ensures b + (l + [n] + r) + a == (b + (l + [n])) + r + a
    ensures b + [] == b && [] + a == a
  {
  }

  ghost function Nodes<N>(t: Tree<N>): set<N> {
    match t
    case Leaf => {}
    case T(l, n, r, _) => Nodes(l) + {n} + Nodes(r)
  }

  ghost function CtxNodes<N>(c: Ctx<N>): set<N> {
    match c
    case Top => {}
    case In(_, n, _, sib, up) => {n} + Nodes(sib) + CtxNodes(up)
  }

  /** No node occurs twice. */
  ghost predicate Distinct<N>(t: Tree<N>) {
    match t
    case Leaf => true
    case T(l, n, r, _) =>
      n !in Nodes(l) && n !in Nodes(r) && Nodes(l) !! Nodes(r) && Distinct(l) && Distinct(r)
  }

  lemma MkNodes<N>(side: Side, near: Tree<N>, n: N, far: Tree<N>, red: bool)
    ensures Nodes(Mk(side, near, n, far, red)) == Nodes(near) + {n} + Nodes(far)
    ensures Distinct(Mk(side, near, n, far, red)) <==>
      n !in Nodes(near) && n !in Nodes(far) && Nodes(near) !! Nodes(far) && Distinct(near) && Distinct(far)
  {
  }

  /** A rotation moves nodes around without losing or repeating any. */
  lemma RotateNodes<N>(side: Side, a: Tree<N>, x: N, b: Tree<N>, y: N, d: Tree<N>, xRed: bool, yRed: bool)
    ensures var before := Mk(side, a, x, Mk(side, b, y, d, yRed), xRed);
            var after := Mk(side, Mk(side, a, x, b, xRed), y, d, yRed);
            && Nodes(after) == Nodes(before) == Nodes(a) + {x} + Nodes(b) + {y} + Nodes(d)
            && (Distinct(before) <==> Distinct(after))
            && (Distinct(before) ==>
                  && x != y && x !in Nodes(a) + Nodes(b) + Nodes(d) && y !in Nodes(a) + Nodes(b) + Nodes(d)
                  && Nodes(a) !! Nodes(b) !! Nodes(d) && Distinct(a) && Distinct(b) && Distinct(d))
  {
    MkNodes(side, b, y, d, yRed);
    MkNodes(side, a, x, Mk(side, b, y, d, yRed), xRed);
    MkNodes(side, a, x, b, xRed);
    MkNodes(side, Mk(side, a, x, b, xRed), y, d, yRed);
  }

  ghost predicate CtxDistinct<N>(c: Ctx<N>) {
    match c
    case Top => true
    case In(_, n, _, sib, up) =>
      n !in Nodes(sib) && n !in CtxNodes(up) && Nodes(sib) !! CtxNodes(up) && Distinct(sib) && CtxDistinct(up)
  }

  lemma {:induction false} PlugNodes<N>(c: Ctx<N>, t: Tree<N>)
    ensures Nodes(Plug(c, t)) == CtxNodes(c) + Nodes(t)
    ensures Distinct(Plug(c, t)) <==> CtxDistinct(c) && Distinct(t) && CtxNodes(c) !! Nodes(t)
    decreases c
  {
    match c
    case Top =>
    case In(side, n, red, sib, up) =>
      PlugNodes(up, Mk(side, t, n, sib, red));
  }

  lemma {:induction false} InNodes<N>(t: Tree<N>, n: N)
    ensures n in Nodes(t) <==> n in Inorder(t)
  {
    if t.T? {
      InNodes(t.left, n);
      InNodes(t.right, n);
    }
  }

  lemma NodesAreInorder<N(!new)>(t: Tree<N>)
    ensures forall n :: n in Nodes(t) <==> n in Inorder(t)
  {
    forall n ensures n in Nodes(t) <==> n in Inorder(t) { InNodes(t, n); }
  }

  // --- balance ---

  predicate IsRed<N>(t: Tree<N>) {
    t.T? && t.red
  }

  /** Every path to a leaf has `h` black nodes and no red node has a red child. */
  predicate Bal<N>(t: Tree<N>, h: nat) {
    match t
    case Leaf => h == 0
    case T(l, _, r, red) =>
      if red then Bal(l, h) && Bal(r, h) && !IsRed(l) && !IsRed(r)
      else h > 0 && Bal(l, h - 1) && Bal(r, h - 1)
  }

  /** The hole's parent is red. */
  predicate CtxRed<N>(c: Ctx<N>) {
    c.In? && c.red
  }

  /** The context is balanced around a hole of black height `h`. */
  predicate CtxBal<N>(c: Ctx<N>, h: nat) {
    match c
    case Top => true
    case In(_, _, red, sib, up) =>
      && Bal(sib, h)
      && CtxBal(up, if red then h else h + 1)
      && (red ==> !IsRed(sib) && !CtxRed(up))
  }

  /** The root, if it is part of the context, is black. */
  predicate TopBlack<N>(c: Ctx<N>) {
    match c
    case Top => true
    case In(_, _, red, _, up) => (up.Top? ==> !red) && TopBlack(up)
  }

  /** A red-black tree of black height `h`. */
  predicate RedBlack<N>(t: Tree<N>, h: nat) {
    Bal(t, h) && !IsRed(t)
  }

  function CtxHeight<N>(c: Ctx<N>, h: nat): nat {
    match c
    case Top => h
    case In(_, _, red, _, up) => CtxHeight(up, if red then h else h + 1)
  }

  /** A balanced subtree of the right height fills the hole. */
  lemma {:induction false} Fill<N>(c: Ctx<N>, t: Tree<N>, h: nat)
    requires CtxBal(c, h) && Bal(t, h) && !(CtxRed(c) && IsRed(t))
    ensures Bal(Plug(c, t), CtxHeight(c, h))
    ensures TopBlack(c) && (c.Top? ==> !IsRed(t)) ==> !IsRed(Plug(c, t))
    decreases c
  {
    match c
    case Top =>
    case In(side, n, red, sib, up) =>
      Fill(up, Mk(side, t, n, sib, red), if red then h else h + 1);
  }

  /** Conversely, a balanced tree splits into a balanced context and subtree. */
  lemma {:induction false} Split<N>(c: Ctx<N>, t: Tree<N>, hh: nat) returns (h: nat)
    requires RedBlack(Plug(c, t), hh)
    ensures CtxBal(c, h) && Bal(t, h) && !(CtxRed(c) && IsRed(t)) && TopBlack(c)
    ensures c.Top? ==> !IsRed(t) && h == hh
    decreases c
  {
    match c
    case Top => h := hh;
    case In(side, n, red, sib, up) =>
      var k := Split(up, Mk(side, t, n, sib, red), hh);
      h := if red then k else k - 1;
  }

  lemma MkBal<N>(side: Side, near: Tree<N>, n: N, far: Tree<N>, red: bool, h: nat)
    ensures Bal(Mk(side, near, n, far, red), h) <==>
      if red then Bal(near, h) && Bal(far, h) && !IsRed(near) && !IsRed(far)
      else h > 0 && Bal(near, h - 1) && Bal(far, h - 1)
  {
  }

  // --- insertion ---

  /** A red parent is not the root, and its own parent is black. */
  lemma RedParent<N>(c: Ctx<N>, h: nat)
    requires CtxBal(c, h) && TopBlack(c) && CtxRed(c)
    ensures c.up.In? && !c.up.red && Bal(c.sib, h) && !IsRed(c.sib)
    ensures Bal(c.up.sib, h) && CtxBal(c.up.up, h + 1) && TopBlack(c.up.up)
  {
  }

  /** Red uncle: the grandparent becomes the new red node, two levels up. */
  lemma RecolorBalanced<N>(s1: Side, s2: Side, e: Tree<N>, p: N, sib: Tree<N>, g: N, u: Tree<N>, up: Ctx<N>, h: nat)
    requires CtxBal(In(s1, p, true, sib, In(s2, g, false, u, up)), h)
    requires IsRed(e) && Bal(e, h) && IsRed(u)
    ensures Bal(Mk(s2, Mk(s1, e, p, sib, false), g, u.(red := false), true), h + 1)
    ensures CtxBal(up, h + 1)
  {
    MkBal(s1, e, p, sib, false, h + 1);
    MkBal(s2, Mk(s1, e, p, sib, false), g, u.(red := false), true, h + 1);
  }

  /** Black uncle: after the rotation the black parent roots the subtree. */
  lemma RotateBalanced<N>(s2: Side, e: Tree<N>, p: N, far: Tree<N>, g: N, u: Tree<N>, up: Ctx<N>, h: nat)
    requires CtxBal(In(s2, g, false, u, up), h)
    requires Bal(e, h) && Bal(far, h) && !IsRed(far) && !IsRed(u)
    ensures CtxBal(In(s2, p, false, Mk(Other(s2), u, g, far, true), up), h)
    ensures TopBlack(up) ==> TopBlack(In(s2, p, false, Mk(Other(s2), u, g, far, true), up))
  {
    MkBal(Other(s2), u, g, far, true, h);
  }

  // --- removal ---

  /** Balanced below a root that may be red under a red parent or over a red
      child: what is left where a black node has gone missing. */
  predicate WeakBal<N>(s: Tree<N>, h: nat) {
    if IsRed(s) then Bal(s.left, h) && Bal(s.right, h) else Bal(s, h)
  }

  /** The sibling of a subtree that is one black node short is not a leaf. */
  lemma SiblingExists<N>(c: Ctx<N>, h: nat)
    requires c.In? && CtxBal(c, h + 1)
    ensures c.sib.T? && Bal(c.sib, h + 1)
  {
  }

  /** Red sibling: after the rotation the sibling is a black nephew. */
  lemma RedSiblingBalanced<N>(side: Side, p: N, red: bool, b: Tree<N>, w: N, d: Tree<N>, up: Ctx<N>, h: nat)
    requires CtxBal(In(side, p, red, Mk(side, b, w, d, true), up), h + 1)
    ensures !red && CtxBal(In(side, p, true, b, In(side, w, false, d, up)), h + 1)
    ensures b.T? && !IsRed(b)
    ensures TopBlack(In(side, p, red, Mk(side, b, w, d, true), up))
        ==> TopBlack(In(side, p, true, b, In(side, w, false, d, up)))
  {
    MkBal(side, b, w, d, true, h + 1);
  }

  /** Black nephews: the sibling turns red and the shortage moves up. */
  lemma BlackNephewsBalanced<N>(side: Side, s: Tree<N>, p: N, red: bool, b: Tree<N>, w: N, d: Tree<N>,
                                up: Ctx<N>, h: nat)
    requires CtxBal(In(side, p, red, Mk(side, b, w, d, false), up), h + 1)
    requires Bal(s, h) && !IsRed(s) && !IsRed(b) && !IsRed(d)
    ensures var h' := if red then h else h + 1;
            && WeakBal(Mk(side, s, p, Mk(side, b, w, d, true), red), h')
            && CtxBal(up, h' + 1)
  {
    MkBal(side, b, w, d, false, h + 1);
    MkBal(side, b, w, d, true, h);
    MkBal(side, s, p, Mk(side, b, w, d, true), red, h + 1);
  }

  /** Red near nephew: it becomes the sibling, with a red far nephew. */
  lemma NearNephewBalanced<N>(side: Side, b1: Tree<N>, b: N, b2: Tree<N>, w: N, d: Tree<N>, h: nat)
    requires Bal(Mk(side, Mk(side, b1, b, b2, true), w, d, false), h + 1) && !IsRed(d)
    ensures Bal(Mk(side, b1, b, Mk(side, b2, w, d, true), false), h + 1)
    ensures IsRed(Mk(side, b2, w, d, true))
  {
    MkBal(side, Mk(side, b1, b, b2, true), w, d, false, h + 1);
    MkBal(side, b1, b, b2, true, h);
    MkBal(side, b2, w, d, true, h);
    MkBal(side, b1, b, Mk(side, b2, w, d, true), false, h + 1);
  }

  /** Red far nephew: one rotation makes up for the missing node. */
  lemma FarNephewBalanced<N>(side: Side, s: Tree<N>, p: N, red: bool, b: Tree<N>, w: N, d: Tree<N>, up: Ctx<N>, h: nat)
    requires CtxBal(In(side, p, red, Mk(side, b, w, d, false), up), h + 1)
    requires TopBlack(In(side, p, red, Mk(side, b, w, d, false), up))
    requires Bal(s, h) && IsRed(d)
    ensures var t := Mk(side, Mk(side, s, p, b, false), w, d.(red := false), red);
            var k := if red then h + 1 else h + 2;
            Bal(t, k) && CtxBal(up, k) && !(CtxRed(up) && IsRed(t)) && TopBlack(up) && (up.Top? ==> !IsRed(t))
  {
    MkBal(side, b, w, d, false, h + 1);
    MkBal(side, s, p, b, false, h + 1);
    MkBal(side, Mk(side, s, p, b, false), w, d.(red := false), red, if red then h + 1 else h + 2);
  }

  /** Balance does not depend on which node an outer context holds. */
  lemma {:induction false} JoinRenamed<N>(inner: Ctx<N>, side: Side, n: N, n': N, red: bool, sib: Tree<N>, up: Ctx<N>,
                                          h: nat)
    requires CtxBal(Join(inner, In(side, n, red, sib, up)), h) && TopBlack(Join(inner, In(side, n, red, sib, up)))
    ensures CtxBal(Join(inner, In(side, n', red, sib, up)), h) && TopBlack(Join(inner, In(side, n', red, sib, up)))
    ensures CtxRed(Join(inner, In(side, n', red, sib, up))) == CtxRed(Join(inner, In(side, n, red, sib, up)))
    decreases inner
  {
    if inner.In? {
      JoinRenamed(inner.up, side, n, n', red, sib, up, if inner.red then h else h + 1);
    }
  }

  /** Every node of a tree sits at the root of a subtree in some context. */
  lemma {:induction false} Locate<N>(t: Tree<N>, n: N) returns (c: Ctx<N>, s: Tree<N>)
    requires n in Nodes(t)
    ensures t == Plug(c, s) && s.T? && s.node == n
  {
    if t.node == n {
      c, s := Top, t;
    } else if n in Nodes(t.left) {
      c, s := Locate(t.left, n);
      PlugJoin(c, In(L, t.node, t.red, t.right, Top), s);
      c := Join(c, In(L, t.node, t.red, t.right, Top));
    } else {
      c, s := Locate(t.right, n);
      PlugJoin(c, In(R, t.node, t.red, t.left, Top), s);
      c := Join(c, In(R, t.node, t.red, t.left, Top));
    }
  }

  // --- height ---

  function Max(a: nat, b: nat): nat {
    if a > b then a else b
  }

  function Height<N>(t: Tree<N>): nat {
    match t
    case Leaf => 0
    case T(l, _, r, _) => 1 + Max(Height(l), Height(r))
  }

  lemma {:induction false} HeightBound<N>(t: Tree<N>, h: nat)
    requires Bal(t, h)
    ensures Height(t) <= 2 * h + if IsRed(t) then 1 else 0
    ensures Pow2(h) <= |Inorder(t)| + 1
  {
    match t
    case Leaf =>
    case T(l, _, r, red) =>
      var k := if red then h else h - 1;
      HeightBound(l, k);
      HeightBound(r, k);
  }

  /** The height of a red-black tree of n nodes is at most 2 lg (n + 1). */
  lemma LogarithmicHeight<N>(t: Tree<N>, h: nat)
    requires RedBlack(t, h)
    ensures Pow2(Height(t)) <= (|Inorder(t)| + 1) * (|Inorder(t)| + 1)
  {
    HeightBound(t, h);
    Pow2Mono(Height(t), 2 * h);
    Pow2Square(h);
    SquareMono(Pow2(h), |Inorder(t)| + 1);
  }

  lemma {:induction false} Pow2Square(h: nat)
    ensures Pow2(2 * h) == Pow2(h) * Pow2(h)
  {
    if h > 0 {
      Pow2Square(h - 1);
      var p := Pow2(h - 1);
      assert Pow2(2 * h) == 4 * Pow2(2 * (h - 1));
      assert (2 * p) * (2 * p) == 4 * (p * p);
    }
  }

  lemma SquareMono(a: nat, b: nat)
    requires a <= b
    ensures a * a <= b * b
  {
  }
}
