/** The virtual address range allocator: free and used ranges in two red-black
    trees that share one memory. */
module Vma {
  import opened Gates
  import opened Machine
  import opened RbShape
  import opened RbHeap
  import opened RbInsert
  import opened RbRemove
  import opened RbWalk
  import opened Ranges
  import opened Spaces

  /** A search tree, as a fact about memory. */
  ghost predicate IsTree(m: Mem, root: Ptr, t: Tree<Ptr>, h: nat) {
    Linked(m, root, t) && forall k {:trigger Open(Order, k)} | Open(Order, k) :: RedBlack(t, h) && Sorted(m, Inorder(t))
  }

  /** A tree keeps its shape and order while its own nodes are not written. */
  lemma TreeKept(m: Mem, m': Mem, root: Ptr, t: Tree<Ptr>, h: nat)
    requires IsTree(m, root, t, h)
    requires forall n | n in Nodes(t) && n in m :: n in m' && m'[n] == m[n]
    ensures IsTree(m', root, t, h)
  {
    assert Open(Order, 0);
    LinkedKept(m, m', root, t);
    NodesAreInorder(t);
    forall i | 0 <= i < |Inorder(t)| ensures Inorder(t)[i] in m' && m'[Inorder(t)[i]] == m[Inorder(t)[i]] {
      assert Inorder(t)[i] in Inorder(t);
    }
  }

  lemma LinkedKept(m: Mem, m': Mem, root: Ptr, t: Tree<Ptr>)
    requires Linked(m, root, t)
    requires forall n | n in Nodes(t) && n in m :: n in m' && m'[n] == m[n]
    ensures Linked(m', root, t)
  {
    assert Open(Links, 0);
    RepFrame(m, m', t, root, NULL);
  }

  lemma NodesInMem(m: Mem, root: Ptr, t: Tree<Ptr>)
    requires Linked(m, root, t)
    ensures forall n | n in Nodes(t) :: n in m && n != NULL
  {
    assert Open(Links, 0);
    RepInMem(m, t, root, NULL);
  }

  lemma OneRange(m: Mem, p: Ptr, lo: nat, hi: nat)
    requires p in m && m[p].vaddr == lo && m[p].size == hi - lo
    requires lo < hi < WORD && lo % PAGE == 0 && hi % PAGE == 0
    ensures Partition(m, {p}, {}, lo, hi)
  {
    assert Open(Tiling, 0);
    assert {p} + {} == {p};
    forall a: nat ensures Holds(m, {p}, a) <==> lo <= a < hi {
      if lo <= a < hi { assert Contains(m, p, a); }
    }
  }

  /** Two valid search trees over one memory, with no node in common. */
  ghost predicate Pair(heap: Heap, x: RbTree, y: RbTree)
    reads heap, x, y
  {
    && x.heap == heap && y.heap == heap && x != y
    && heap.Valid() && x.Valid() && y.Valid()
    && Nodes(x.t) !! Nodes(y.t)
  }

  /** Takes a range out of a tree. */
  method TakeOut(heap: Heap, tree: RbTree, ghost other: RbTree, n: Ptr)
    requires Pair(heap, tree, other) && n in Nodes(tree.t)
    modifies tree, heap`mem
    ensures Pair(heap, tree, other) && SameRanges(old(heap.mem), heap.mem)
    ensures Nodes(tree.t) == old(Nodes(tree.t)) - {n} && n in heap.mem && n != NULL
  {
    ghost var m := heap.mem;
    NodesInMem(m, tree.root, tree.t);
    ghost var i := Remove(tree, n);
    TreeKept(m, heap.mem, other.root, other.t, other.h);
  }

  /** No range of the set compares equal to the address. */
  ghost predicate Clear(m: Mem, ns: set<Ptr>, v: nat) {
    forall k | k in ns && k in m :: CmpRange(v, m[k]) != 0
  }

  /** Puts a range in a tree, unless one there compares equal. */
  method PutIn(heap: Heap, tree: RbTree, ghost other: RbTree, n: Ptr) returns (r: Ptr)
    requires Pair(heap, tree, other) && n in heap.mem && n != NULL && n !in Nodes(tree.t) && n !in Nodes(other.t)
    modifies tree, heap`mem
    ensures Pair(heap, tree, other) && SameRanges(old(heap.mem), heap.mem)
    ensures Nodes(tree.t) == old(Nodes(tree.t)) || Nodes(tree.t) == old(Nodes(tree.t)) + {n}
    ensures Clear(old(heap.mem), old(Nodes(tree.t)), old(heap.mem)[n].vaddr) ==>
      Nodes(tree.t) == old(Nodes(tree.t)) + {n}
  {
    ghost var m := heap.mem;
    ghost var i;
    r, i := Insert(tree, n);
    if r == NULL { TreeKept(m, heap.mem, other.root, other.t, other.h); }
  }

  /** A fresh range, in no tree yet. */
  method NewRange(heap: Heap, ghost x: RbTree, ghost y: RbTree, vaddr: nat, size: nat) returns (p: Ptr)
    requires Pair(heap, x, y)
    modifies heap
    ensures Pair(heap, x, y) && p != NULL && p !in old(heap.mem) && p !in Nodes(x.t) && p !in Nodes(y.t)
    ensures heap.mem == old(heap.mem)[p := Node(vaddr, size, NULL, NULL, NULL, false)]
  {
    ghost var m := heap.mem;
    NodesInMem(m, x.root, x.t);
    NodesInMem(m, y.root, y.t);
    p := heap.Alloc(vaddr, size);
    TreeKept(m, heap.mem, x.root, x.t, x.h);
    TreeKept(m, heap.mem, y.root, y.t, y.h);
  }

  /** Moves the bounds of a range that is in no tree. */
  method Resize(heap: Heap, ghost x: RbTree, ghost y: RbTree, n: Ptr, vaddr: nat, size: nat)
    requires Pair(heap, x, y) && n in heap.mem && n !in Nodes(x.t) && n !in Nodes(y.t)
    modifies heap`mem
    ensures Pair(heap, x, y) && heap.mem == old(heap.mem)[n := old(heap.mem)[n].(vaddr := vaddr, size := size)]
  {
    ghost var m := heap.mem;
    heap.mem := heap.mem[n := heap.mem[n].(vaddr := vaddr, size := size)];
    TreeKept(m, heap.mem, x.root, x.t, x.h);
    TreeKept(m, heap.mem, y.root, y.t, y.h);
  }

  /** A range `n` has been taken out of `src`; nothing else has changed. */
  ghost predicate TakenOut(heap: Heap, src: RbTree, dst: RbTree, n: Ptr, m0: Mem, s0: set<Ptr>, d0: set<Ptr>, lo: nat,
                           hi: nat)
    reads heap, src, dst
  {
    && Pair(heap, src, dst) && Partition(m0, s0, d0, lo, hi) && SameRanges(m0, heap.mem)
    && s0 !! d0 && s0 + d0 <= m0.Keys && n in s0 && n != NULL && Nodes(src.t) == s0 - {n} && Nodes(dst.t) == d0
  }

  /** The range shrinks to its tail, and a fresh one holds its head. */
  method SplitHead(heap: Heap, ghost src: RbTree, ghost dst: RbTree, n: Ptr, size: nat) returns (split: Ptr)
    requires Pair(heap, src, dst) && n in heap.mem && n !in Nodes(src.t) && n !in Nodes(dst.t) && size < WORD
    modifies heap
    ensures Pair(heap, src, dst) && split != NULL && split !in old(heap.mem) && split !in Nodes(src.t)
    ensures split !in Nodes(dst.t)
    ensures HeadSplit(old(heap.mem), n, split, size, heap.mem)
  {
    var node := heap.mem[n];
    split := NewRange(heap, src, dst, node.vaddr, size);
    Resize(heap, src, dst, n, (node.vaddr + size) % WORD, (node.size - size) % WORD);
  }

  ghost predicate HeadSplit(m0: Mem, n: Ptr, b: Ptr, size: nat, m: Mem)
  {
    && n in m0 && n in m && b in m && m0.Keys <= m.Keys && b !in m0
    && m[n].vaddr == (m0[n].vaddr + size) % WORD && m[n].size == (m0[n].size - size) % WORD
    && m[b].vaddr == m0[n].vaddr && m[b].size == size
    && forall k | k in m0 && k != n :: m[k].vaddr == m0[k].vaddr && m[k].size == m0[k].size
  }

  /** Moves the first `size` bytes of the range to `dst` and puts the rest back. */
  method CarveHead(heap: Heap, src: RbTree, dst: RbTree, n: Ptr, size: nat,
                   ghost m0: Mem, ghost s0: set<Ptr>, ghost d0: set<Ptr>, ghost lo: nat, ghost hi: nat)
    returns (split: Ptr)
    requires TakenOut(heap, src, dst, n, m0, s0, d0, lo, hi) && size % PAGE == 0 && size != m0[n].size && size < WORD
    modifies src, dst, heap
    ensures Pair(heap, src, dst)
    ensures Carved(m0, s0, d0, n, m0[n].vaddr, size, heap.mem, Nodes(src.t), Nodes(dst.t), lo, hi)
    ensures split in heap.mem && heap.mem[split].vaddr == m0[n].vaddr
  {
    split := SplitHead(heap, src, dst, n, size);
    ghost var m := heap.mem;
    HeadApart(m0, s0, d0, n, split, m, size, lo, hi);
    var r := PutIn(heap, src, dst, n);
    ClearSame(m, heap.mem, d0, m0[n].vaddr);
    var r' := PutIn(heap, dst, src, split);
    HeadCarved(m0, s0, d0, n, split, size, m, heap.mem, Nodes(src.t), lo, hi);
  }

  /** The request has moved from the one side to the other: pieces and addresses. */
  ghost predicate Moved(m0: Mem, s0: set<Ptr>, d0: set<Ptr>, n: Ptr, addr: nat, size: nat, m: Mem, s: set<Ptr>,
                        d: set<Ptr>)
    requires n in m0
  {
    && RangesOf(m, s) == RangesOf(m0, s0) - {RangeOf(m0[n])} + Rest(RangeOf(m0[n]), addr, size)
    && RangesOf(m, d) == RangesOf(m0, d0) + {Range(addr, size)}
    && (forall a: nat :: Holds(m, d, a) <==> Holds(m0, d0, a) || addr <= a < addr + size)
    && (forall a: nat :: Holds(m, s, a) <==> Holds(m0, s0, a) && !(addr <= a < addr + size))
  }

  /** What cutting a request out of a range of `src` for `dst` comes to: the tiling
      survives exactly when the request fits, and then just the request moves. */
  ghost predicate Carved(m0: Mem, s0: set<Ptr>, d0: set<Ptr>, n: Ptr, addr: nat, size: nat,
                         m: Mem, s: set<Ptr>, d: set<Ptr>, lo: nat, hi: nat)
    requires n in m0
  {
    forall k {:trigger Open(Tiling, k)} | Open(Tiling, k) ::
      && (Partition(m, s, d, lo, hi) <==> 0 < size && addr + size <= End(m0[n]))
      && (0 < size && addr + size <= End(m0[n]) ==> Moved(m0, s0, d0, n, addr, size, m, s, d))
  }

  /** A cut that fits, with the nodes `rest` for what is left of the range. */
  lemma CutFits(m0: Mem, m: Mem, s0: set<Ptr>, d0: set<Ptr>, n: Ptr, rest: set<Ptr>, b: Ptr,
                addr: nat, size: nat, s: set<Ptr>, lo: nat, hi: nat)
    requires Partition(m0, s0, d0, lo, hi) && CutsOut(m0, m, s0, d0, n, rest, b, addr, size)
    requires Tiles(m0, n, m, rest + {b}) && s == s0 - {n} + rest && 0 < size && addr + size <= End(m0[n])
    requires RangesOf(m, rest) == Rest(RangeOf(m0[n]), addr, size)
    ensures Carved(m0, s0, d0, n, addr, size, m, s, d0 + {b}, lo, hi)
  {
    CutOut(m0, m, s0, d0, n, rest, b, addr, size, lo, hi);
  }

  /** A cut that is empty or runs past the range. */
  lemma CutBreaks(m0: Mem, m: Mem, s0: set<Ptr>, d0: set<Ptr>, n: Ptr, b: Ptr, addr: nat, size: nat, s: set<Ptr>,
                  lo: nat, hi: nat)
    requires Partition(m0, s0, d0, lo, hi) && n in s0 && Contains(m0, n, addr) && s0 - {n} <= s
    requires b in m && m[b].vaddr == addr && m[b].size == size && b !in s0 - {n} + d0
    requires forall k | k in s0 - {n} + d0 :: k in m0 && k in m && m[k].vaddr == m0[k].vaddr && m[k].size == m0[k].size
    requires size == 0 || addr + size > End(m0[n])
    ensures Carved(m0, s0, d0, n, addr, size, m, s, d0 + {b}, lo, hi)
  {
    CutTooFar(m0, m, s0, d0, n, s, b, addr, size, lo, hi);
  }

  /** An address of one range compares different from every other range. */
  lemma StartsApart(m0: Mem, ns: set<Ptr>, n: Ptr, m: Mem, others: set<Ptr>, v: nat)
    requires Disjoint(m0, ns) && n in ns && Contains(m0, n, v) && others <= ns - {n}
    requires forall k | k in others :: k in m && m[k].vaddr == m0[k].vaddr && m[k].size == m0[k].size
    ensures forall k | k in others :: CmpRange(v, m[k]) != 0
  {
    forall k | k in others ensures CmpRange(v, m[k]) != 0 {
      CmpIsContains(m0, k, v);
      if Contains(m0, k, v) { OneHolder(m0, ns, n, k, v); }
    }
  }

  lemma HeadTiles(m0: Mem, n: Ptr, m: Mem, b: Ptr, size: nat)
    requires n in m0 && Good(m0[n]) && n in m && b in m && n != b && 0 < size < m0[n].size && size % PAGE == 0
    requires m[b].vaddr == m0[n].vaddr && m[b].size == size
    requires m[n].vaddr == m0[n].vaddr + size && m[n].size == m0[n].size - size
    ensures Tiles(m0, n, m, {n} + {b})
  {
    AlignedParts(m0[n].vaddr, size);
    AlignedParts(m0[n].size, size);
    assert Good(m[n]) && Good(m[b]);
    forall a: nat | m0[n].vaddr <= a < End(m0[n]) ensures Holds(m, {n} + {b}, a) {
      assert Contains(m, b, a) || Contains(m, n, a);
    }
  }

  lemma ClearSame(m: Mem, m': Mem, ns: set<Ptr>, v: nat)
    requires Clear(m, ns, v) && SameRanges(m, m')
    ensures Clear(m', ns, v)
  {
  }

  /** The head goes into `dst`; the tail, if there is one, back into `src`. */
  lemma HeadApart(m0: Mem, s0: set<Ptr>, d0: set<Ptr>, n: Ptr, b: Ptr, m: Mem, size: nat, lo: nat, hi: nat)
    requires Partition(m0, s0, d0, lo, hi) && n in s0 && HeadSplit(m0, n, b, size, m) && s0 + d0 <= m0.Keys
    ensures Clear(m, d0, m0[n].vaddr)
    ensures 0 < size < m0[n].size ==> Clear(m, s0 - {n}, m[n].vaddr)
  {
    assert Open(Tiling, 0);
    assert n in s0 + d0;
    StartsApart(m0, s0 + d0, n, m, d0, m0[n].vaddr);
    if 0 < size < m0[n].size { StartsApart(m0, s0 + d0, n, m, s0 - {n}, m0[n].vaddr + size); }
  }

  lemma HeadCarved(m0: Mem, s0: set<Ptr>, d0: set<Ptr>, n: Ptr, b: Ptr, size: nat, m1: Mem, m: Mem, s: set<Ptr>,
                   lo: nat, hi: nat)
    requires Partition(m0, s0, d0, lo, hi) && n in s0 && s0 + d0 <= m0.Keys && HeadSplit(m0, n, b, size, m1)
    requires SameRanges(m1, m)
    requires size % PAGE == 0 && size != m0[n].size
    requires s == s0 - {n} || s == s0 - {n} + {n}
    requires 0 < size < m0[n].size ==> s == s0 - {n} + {n}
    ensures Carved(m0, s0, d0, n, m0[n].vaddr, size, m, s, d0 + {b}, lo, hi)
  {
    var v := m0[n].vaddr;
    GoodRange(m0, s0, d0, n, lo, hi);
    if 0 < size < m0[n].size {
      HeadTiles(m0, n, m, b, size);
      OnePiece(m, n);
      CutFits(m0, m, s0, d0, n, {n}, b, v, size, s, lo, hi);
    } else {
      assert Contains(m0, n, v);
      CutBreaks(m0, m, s0, d0, n, b, v, size, s, lo, hi);
    }
  }

  /** Moves a whole range to `dst`. */
  method CarveWhole(heap: Heap, src: RbTree, dst: RbTree, n: Ptr,
                    ghost m0: Mem, ghost s0: set<Ptr>, ghost d0: set<Ptr>, ghost lo: nat, ghost hi: nat)
    requires TakenOut(heap, src, dst, n, m0, s0, d0, lo, hi)
    modifies dst, heap`mem
    ensures Pair(heap, src, dst)
    ensures Carved(m0, s0, d0, n, m0[n].vaddr, m0[n].size, heap.mem, Nodes(src.t), Nodes(dst.t), lo, hi)
  {
    WholeApart(m0, s0, d0, n, heap.mem, lo, hi);
    var r := PutIn(heap, dst, src, n);
    WholeCarved(m0, s0, d0, n, heap.mem, lo, hi);
  }

  lemma WholeApart(m0: Mem, s0: set<Ptr>, d0: set<Ptr>, n: Ptr, m: Mem, lo: nat, hi: nat)
    requires Partition(m0, s0, d0, lo, hi) && n in s0 && SameRanges(m0, m) && s0 + d0 <= m0.Keys
    ensures Clear(m, d0, m0[n].vaddr)
  {
    assert Open(Tiling, 0);
    assert n in s0 + d0;
    StartsApart(m0, s0 + d0, n, m, d0, m0[n].vaddr);
  }

  lemma WholeCarved(m0: Mem, s0: set<Ptr>, d0: set<Ptr>, n: Ptr, m: Mem, lo: nat, hi: nat)
    requires Partition(m0, s0, d0, lo, hi) && n in s0 && SameRanges(m0, m) && s0 + d0 <= m0.Keys
    ensures Carved(m0, s0, d0, n, m0[n].vaddr, m0[n].size, m, s0 - {n}, d0 + {n}, lo, hi)
  {
    GoodRange(m0, s0, d0, n, lo, hi);
    forall a: nat | m0[n].vaddr <= a < End(m0[n]) ensures Holds(m, {} + {n}, a) { assert Contains(m, n, a); }
    assert RangesOf(m, {}) == {} && s0 - {n} + {} == s0 - {n};
    CutFits(m0, m, s0, d0, n, {}, n, m0[n].vaddr, m0[n].size, s0 - {n}, lo, hi);
  }

  /** The range shrinks to what lies before `addr`, and `b` holds the request. */
  ghost predicate MidSplit(m0: Mem, n: Ptr, b: Ptr, addr: nat, size: nat, m: Mem) {
    && n in m0 && n in m && b in m && m0.Keys <= m.Keys && b !in m0
    && m[n].vaddr == m0[n].vaddr < addr && m[n].size == addr - m0[n].vaddr
    && m[b].vaddr == addr && m[b].size == size
    && forall k | k in m0 && k != n :: m[k].vaddr == m0[k].vaddr && m[k].size == m0[k].size
  }

  lemma MidSame(m0: Mem, n: Ptr, b: Ptr, addr: nat, size: nat, m: Mem, m': Mem)
    requires MidSplit(m0, n, b, addr, size, m) && SameRanges(m, m')
    ensures MidSplit(m0, n, b, addr, size, m')
  {
  }

  lemma MidApart(m0: Mem, s0: set<Ptr>, d0: set<Ptr>, n: Ptr, addr: nat, m: Mem, lo: nat, hi: nat)
    requires Partition(m0, s0, d0, lo, hi) && n in s0 && Contains(m0, n, addr) && s0 + d0 <= m0.Keys
    requires forall k | k in m0 && k != n :: k in m && m[k].vaddr == m0[k].vaddr && m[k].size == m0[k].size
    ensures Clear(m, d0, addr) && Clear(m, s0 - {n}, m0[n].vaddr) && Clear(m, s0 - {n}, addr)
  {
    assert Open(Tiling, 0);
    assert n in s0 + d0;
    StartsApart(m0, s0 + d0, n, m, d0, addr);
    StartsApart(m0, s0 + d0, n, m, s0 - {n}, m0[n].vaddr);
    StartsApart(m0, s0 + d0, n, m, s0 - {n}, addr);
  }

  /** Moves the request to `dst` and puts back what lies before it. */
  method CarveFront(heap: Heap, src: RbTree, dst: RbTree, n: Ptr, addr: nat, size: nat,
                    ghost m0: Mem, ghost s0: set<Ptr>, ghost d0: set<Ptr>, ghost lo: nat, ghost hi: nat)
    returns (b: Ptr)
    requires TakenOut(heap, src, dst, n, m0, s0, d0, lo, hi) && Contains(m0, n, addr) && addr != m0[n].vaddr
    modifies src, dst, heap
    ensures Pair(heap, src, dst) && MidSplit(m0, n, b, addr, size, heap.mem)
    ensures Nodes(src.t) == s0 - {n} + {n} && Nodes(dst.t) == d0 + {b}
  {
    b := NewRange(heap, src, dst, addr, size);
    MidApart(m0, s0, d0, n, addr, heap.mem, lo, hi);
    var r := PutIn(heap, dst, src, b);
    Resize(heap, src, dst, n, heap.mem[n].vaddr, addr - heap.mem[n].vaddr);
    MidApart(m0, s0, d0, n, addr, heap.mem, lo, hi);
    ghost var m := heap.mem;
    r := PutIn(heap, src, dst, n);
    MidSame(m0, n, b, addr, size, m, heap.mem);
  }

  /** Puts back what lies after the request. */
  method CarveBack(heap: Heap, src: RbTree, dst: RbTree, n: Ptr, ghost b: Ptr, addr: nat, size: nat, post: nat,
                   ghost m0: Mem, ghost s0: set<Ptr>, ghost d0: set<Ptr>, ghost lo: nat, ghost hi: nat)
    requires Pair(heap, src, dst) && MidSplit(m0, n, b, addr, size, heap.mem)
    requires Nodes(src.t) == s0 - {n} + {n} && Nodes(dst.t) == d0 + {b} && s0 + d0 <= m0.Keys
    requires Partition(m0, s0, d0, lo, hi) && n in s0 && Contains(m0, n, addr) && size < WORD && size % PAGE == 0
    requires post == (End(m0[n]) - addr - size) % WORD && post > 0 && addr % PAGE == 0
    modifies src, heap
    ensures Pair(heap, src, dst)
    ensures Carved(m0, s0, d0, n, addr, size, heap.mem, Nodes(src.t), Nodes(dst.t), lo, hi)
  {
    var q := NewRange(heap, src, dst, (addr + size) % WORD, post);
    ghost var m := heap.mem;
    BackApart(m0, s0, d0, n, b, addr, size, m, q, lo, hi);
    var r := PutIn(heap, src, dst, q);
    MidSame(m0, n, b, addr, size, m, heap.mem);
    BackCarved(m0, s0, d0, n, b, addr, size, heap.mem, q, Nodes(src.t), lo, hi);
  }

  lemma BackApart(m0: Mem, s0: set<Ptr>, d0: set<Ptr>, n: Ptr, b: Ptr, addr: nat, size: nat, m: Mem, q: Ptr, lo: nat,
                  hi: nat)
    requires Partition(m0, s0, d0, lo, hi) && n in s0 && Contains(m0, n, addr) && s0 + d0 <= m0.Keys
    requires MidSplit(m0, n, b, addr, size, m) && q in m && m[q].vaddr == (addr + size) % WORD
    ensures addr + size < End(m0[n]) ==> Clear(m, s0 - {n} + {n}, m[q].vaddr)
  {
    if addr + size < End(m0[n]) {
      assert Open(Tiling, 0);
      assert n in s0 + d0;
      StartsApart(m0, s0 + d0, n, m, s0 - {n}, addr + size);
    }
  }

  lemma AlignedParts(a: nat, b: nat)
    requires a % PAGE == 0 && b % PAGE == 0
    ensures (a + b) % PAGE == 0 && (a - b) % PAGE == 0
  {
  }

  lemma BackTiles(m0: Mem, n: Ptr, b: Ptr, addr: nat, size: nat, m: Mem, q: Ptr)
    requires MidSplit(m0, n, b, addr, size, m) && Good(m0[n]) && Contains(m0, n, addr) && q != n && q != b
    requires addr % PAGE == 0 && size % PAGE == 0 && 0 < size && addr + size < End(m0[n])
    requires q in m && m[q].vaddr == addr + size && m[q].size == End(m0[n]) - addr - size
    ensures Tiles(m0, n, m, {n, q} + {b})
  {
    AlignedParts(addr, size);
    AlignedParts(addr, m0[n].vaddr);
    AlignedParts(m0[n].vaddr, m0[n].size);
    AlignedParts(End(m0[n]), addr + size);
    assert Good(m[n]) && Good(m[b]) && Good(m[q]);
    forall a: nat | m0[n].vaddr <= a < End(m0[n]) ensures Holds(m, {n, q} + {b}, a) {
      assert Contains(m, n, a) || Contains(m, b, a) || Contains(m, q, a);
    }
  }

  lemma BackCarved(m0: Mem, s0: set<Ptr>, d0: set<Ptr>, n: Ptr, b: Ptr, addr: nat, size: nat, m: Mem, q: Ptr,
                   s: set<Ptr>, lo: nat, hi: nat)
    requires Partition(m0, s0, d0, lo, hi) && n in s0 && Contains(m0, n, addr) && s0 + d0 <= m0.Keys
    requires MidSplit(m0, n, b, addr, size, m) && q in m && m[q].vaddr == (addr + size) % WORD && q != b && q !in m0
    requires m[q].size == (End(m0[n]) - addr - size) % WORD && m[q].size > 0 && addr % PAGE == 0 && size % PAGE == 0
    requires size < WORD
    requires s == s0 - {n} + {n} || s == s0 - {n} + {n} + {q}
    requires addr + size < End(m0[n]) ==> s == s0 - {n} + {n} + {q}
    ensures Carved(m0, s0, d0, n, addr, size, m, s, d0 + {b}, lo, hi)
  {
    GoodRange(m0, s0, d0, n, lo, hi);
    if 0 < size && addr + size < End(m0[n]) {
      BackTiles(m0, n, b, addr, size, m, q);
      TwoPieces(m, n, q);
      assert s0 - {n} + {n, q} == s;
      CutFits(m0, m, s0, d0, n, {n, q}, b, addr, size, s, lo, hi);
    } else {
      CutBreaks(m0, m, s0, d0, n, b, addr, size, s, lo, hi);
    }
  }

  /** The request ends where the range does, or is empty. */
  lemma FrontCarved(m0: Mem, s0: set<Ptr>, d0: set<Ptr>, n: Ptr, b: Ptr, addr: nat, size: nat, m: Mem, lo: nat, hi: nat)
    requires Partition(m0, s0, d0, lo, hi) && n in s0 && Contains(m0, n, addr) && s0 + d0 <= m0.Keys
    requires MidSplit(m0, n, b, addr, size, m) && addr % PAGE == 0 && size % PAGE == 0 && size < WORD
    requires (End(m0[n]) - addr - size) % WORD == 0
    ensures Carved(m0, s0, d0, n, addr, size, m, s0 - {n} + {n}, d0 + {b}, lo, hi)
  {
    GoodRange(m0, s0, d0, n, lo, hi);
    assert size == End(m0[n]) - addr;
    forall a: nat | m0[n].vaddr <= a < End(m0[n]) ensures Holds(m, {n} + {b}, a) {
      assert Contains(m, n, a) || Contains(m, b, a);
    }
    OnePiece(m, n);
    CutFits(m0, m, s0, d0, n, {n}, b, addr, size, s0 - {n} + {n}, lo, hi);
  }

  lemma GoodRange(m: Mem, xs: set<Ptr>, ys: set<Ptr>, n: Ptr, lo: nat, hi: nat)
    requires Partition(m, xs, ys, lo, hi) && n in xs
    ensures n in m && Good(m[n]) && xs !! ys
  {
    assert Open(Tiling, 0);
    assert n in xs + ys;
  }

  lemma OnePiece(m: Mem, n: Ptr)
    requires n in m
    ensures RangesOf(m, {n}) == {RangeOf(m[n])}
  {
  }

  lemma TwoPieces(m: Mem, n: Ptr, q: Ptr)
    requires n in m && q in m
    ensures RangesOf(m, {n, q}) == {RangeOf(m[n])} + {RangeOf(m[q])}
  {
    forall r ensures r in RangesOf(m, {n, q}) <==> r == RangeOf(m[n]) || r == RangeOf(m[q]) {
      assert n in {n, q} && q in {n, q};
    }
  }

  /** Moves a request that starts inside the range. */
  method CarveMiddle(heap: Heap, src: RbTree, dst: RbTree, n: Ptr, addr: nat, size: nat,
                     ghost m0: Mem, ghost s0: set<Ptr>, ghost d0: set<Ptr>, ghost lo: nat, ghost hi: nat)
    requires TakenOut(heap, src, dst, n, m0, s0, d0, lo, hi) && Contains(m0, n, addr) && addr != m0[n].vaddr
    requires addr % PAGE == 0 && size % PAGE == 0 && size < WORD
    modifies src, dst, heap
    ensures Pair(heap, src, dst)
    ensures Carved(m0, s0, d0, n, addr, size, heap.mem, Nodes(src.t), Nodes(dst.t), lo, hi)
  {
    var node := heap.mem[n];
    var pre := addr - node.vaddr;
    var post := (node.size - pre - size) % WORD;
    ghost var b := CarveFront(heap, src, dst, n, addr, size, m0, s0, d0, lo, hi);
    if post > 0 {
      CarveBack(heap, src, dst, n, b, addr, size, post, m0, s0, d0, lo, hi);
    } else {
      FrontCarved(m0, s0, d0, n, b, addr, size, heap.mem, lo, hi);
    }
  }

  /** Cuts `addr..addr+size` out of the range `n` of `src` and gives it to `dst`. */
  method Carve(heap: Heap, src: RbTree, dst: RbTree, n: Ptr, addr: nat, size: nat, ghost lo: nat, ghost hi: nat)
    returns (code: nat)
    requires Pair(heap, src, dst) && Partition(heap.mem, Nodes(src.t), Nodes(dst.t), lo, hi)
    requires n in Nodes(src.t) && Contains(heap.mem, n, addr)
    requires addr % PAGE == 0 && size % PAGE == 0 && size < WORD
    modifies src, dst, heap
    ensures Pair(heap, src, dst)
    ensures Carved(old(heap.mem), old(Nodes(src.t)), old(Nodes(dst.t)), n, addr, size, heap.mem, Nodes(src.t),
                   Nodes(dst.t), lo, hi)
    ensures code == CarveCode(old(heap.mem)[n], addr, size)
  {
    ghost var m0, s0, d0 := heap.mem, Nodes(src.t), Nodes(dst.t);
    NodesInMem(m0, src.root, src.t);
    NodesInMem(m0, dst.root, dst.t);
    TakeOut(heap, src, dst, n);
    var node := heap.mem[n];
    if addr == node.vaddr {
      if size == node.size {
        CarveWhole(heap, src, dst, n, m0, s0, d0, lo, hi);
        return 1;
      }
      var split := CarveHead(heap, src, dst, n, size, m0, s0, d0, lo, hi);
      return 2;
    }
    CarveMiddle(heap, src, dst, n, addr, size, m0, s0, d0, lo, hi);
    return 3;
  }

  function CarveCode(n: Node, addr: nat, size: nat): nat {
    if addr != n.vaddr then 3 else if size != n.size then 2 else 1
  }

  /** In a tiling, a tree's ranges in address order do not overlap. */
  lemma TreeApart(m: Mem, t: Tree<Ptr>, others: set<Ptr>, lo: nat, hi: nat)
    requires Partition(m, Nodes(t), others, lo, hi) && Sorted(m, Inorder(t)) && Distinct(t)
    ensures Apart(m, Inorder(t))
  {
    assert Open(Tiling, 0);
    var s := Inorder(t);
    NodesAreInorder(t);
    forall i | 0 <= i < |s| ensures s[i] in Nodes(t) + others { assert s[i] in s; }
    forall i, j | 0 <= i < j < |s| ensures End(m[s[i]]) <= m[s[j]].vaddr {
      assert s[i] != s[j];
      assert Apart2(m[s[i]], m[s[j]]);
    }
  }

  /** Looks up the range that contains an address: in a tiling there is at most one,
      and a scan of all ranges finds no other. */
  method Lookup(heap: Heap, tree: RbTree, ghost other: RbTree, a: nat, ghost lo: nat, ghost hi: nat) returns (r: Ptr)
    requires Pair(heap, tree, other) && Partition(heap.mem, Nodes(tree.t), Nodes(other.t), lo, hi)
    ensures r != NULL ==> r in Nodes(tree.t) && r in heap.mem
    ensures forall n | n in Nodes(tree.t) :: Contains(heap.mem, n, a) <==> r != NULL && n == r
  {
    r := Find(tree, a);
    Agrees(heap.mem, tree, Nodes(other.t), a, r, lo, hi);
  }

  lemma Agrees(m: Mem, tree: RbTree, others: set<Ptr>, a: nat, r: Ptr, lo: nat, hi: nat)
    requires tree.Valid() && tree.heap.mem == m && Partition(m, Nodes(tree.t), others, lo, hi)
    requires r != NULL ==> r in Nodes(tree.t) && r in m && CmpRange(a, m[r]) == 0
    requires r == NULL && Apart(m, Inorder(tree.t)) ==> forall n | n in Nodes(tree.t) && n in m ::
      CmpRange(a, m[n]) != 0
    ensures forall n | n in Nodes(tree.t) :: Contains(m, n, a) <==> r != NULL && n == r
  {
    assert Open(Order, 0);
    assert Open(Tiling, 0);
    assert Open(Links, 0);
    TreeApart(m, tree.t, others, lo, hi);
    forall n | n in Nodes(tree.t) ensures Contains(m, n, a) <==> r != NULL && n == r {
      assert n in Nodes(tree.t) + others;
      CmpIsContains(m, n, a);
      if r != NULL {
        assert r in Nodes(tree.t) + others;
        CmpIsContains(m, r, a);
        if Contains(m, n, a) { OneHolder(m, Nodes(tree.t) + others, n, r, a); }
      }
    }
  }

  /** The lowest range of the set that is large enough. */
  ghost predicate FirstFit(m: Mem, ns: set<Ptr>, z: nat, n: Ptr) {
    && n in ns && n in m && m[n].size >= z
    && forall k | k in ns && k in m && m[k].size >= z :: m[n].vaddr <= m[k].vaddr
  }

  /** The address ranges of one address space. */
  class Pagemap {
    const heap: Heap
    const freeRanges: RbTree
    const usedRanges: RbTree

    ghost predicate Valid()
      reads heap, freeRanges, usedRanges
    {
      Pair(heap, freeRanges, usedRanges)
    }

    ghost predicate Tiled(lo: nat, hi: nat)
      reads heap, freeRanges, usedRanges
    {
      Partition(heap.mem, Nodes(freeRanges.t), Nodes(usedRanges.t), lo, hi)
    }

    /** The ranges, whichever nodes hold them. */
    ghost function Here(): Space
      reads heap, freeRanges, usedRanges
    {
      Space(RangesOf(heap.mem, Nodes(freeRanges.t)), RangesOf(heap.mem, Nodes(usedRanges.t)))
    }

    ghost predicate Unchanged(m: Mem, fs: set<Ptr>, us: set<Ptr>)
      reads heap, freeRanges, usedRanges
    {
      heap.mem == m && Nodes(freeRanges.t) == fs && Nodes(usedRanges.t) == us
    }

    /** One free range that covers everything. */
    constructor (lo: nat, hi: nat)
      requires lo < hi < WORD && lo % PAGE == 0 && hi % PAGE == 0
      ensures Valid() && Tiled(lo, hi) && Here() == Space({Range(lo, hi - lo)}, {})
      ensures fresh(heap) && fresh(freeRanges) && fresh(usedRanges)
    {
      var h := new Heap();
      var f := new RbTree(h);
      var u := new RbTree(h);
      var p := NewRange(h, f, u, lo, hi - lo);
      var r := PutIn(h, f, u, p);
      OneRange(h.mem, p, lo, hi);
      OnePiece(h.mem, p);
      assert RangesOf(h.mem, {}) == {};
      assert {} + {p} == {p};
      heap, freeRanges, usedRanges := h, f, u;
    }

    /** The first free range in address order that is large enough. */
    method Scan(z: nat, ghost lo: nat, ghost hi: nat) returns (n: Ptr)
      requires Valid() && Tiled(lo, hi)
      ensures n != NULL ==> FirstFit(heap.mem, Nodes(freeRanges.t), z, n)
      ensures n == NULL ==> forall k | k in Nodes(freeRanges.t) && k in heap.mem :: heap.mem[k].size < z
    {
      assert Open(Order, 0);
      ghost var s := Inorder(freeRanges.t);
      NodesAreInorder(freeRanges.t);
      NodesInMem(heap.mem, freeRanges.root, freeRanges.t);
      ghost var i := 0;
      n := Min(freeRanges);
      while n != NULL && heap.mem[n].size < z
        invariant i <= |s| && (n != NULL ==> i < |s| && s[i] == n && n in heap.mem) && (n == NULL ==> i == |s|)
        invariant forall j | 0 <= j < i :: heap.mem[s[j]].size < z
        decreases |s| - i, n
      {
        n := Next(freeRanges, n, i);
        i := i + 1;
      }
      if n != NULL {
        assert n in s;
        forall k | k in Nodes(freeRanges.t) && heap.mem[k].size >= z ensures heap.mem[n].vaddr <= heap.mem[k].vaddr {
          var j :| 0 <= j < |s| && s[j] == k;
          assert j >= i;
        }
      }
    }

    /** Takes the lowest free range that fits, or fails with 0 when none does. */
    method Valloc(size: nat, ghost lo: nat, ghost hi: nat) returns (r: nat, ghost n: Ptr)
      requires Valid() && Tiled(lo, hi) && size < WORD
      modifies heap, freeRanges, usedRanges
      ensures Valid()
      ensures n == NULL <==> size == 0 || forall k | k in old(Nodes(freeRanges.t)) && k in old(heap.mem) ::
        old(heap.mem)[k].size < AlignUp(size)
      ensures n == NULL ==> r == 0 && Unchanged(old(heap.mem), old(Nodes(freeRanges.t)), old(Nodes(usedRanges.t)))
      ensures n != NULL ==>
        && FirstFit(old(heap.mem), old(Nodes(freeRanges.t)), AlignUp(size), n) && r == old(heap.mem)[n].vaddr
        && Carved(old(heap.mem), old(Nodes(freeRanges.t)), old(Nodes(usedRanges.t)), n, r, AlignUp(size),
                  heap.mem, Nodes(freeRanges.t), Nodes(usedRanges.t), lo, hi)
      ensures size <= WORD - PAGE ==> Tiled(lo, hi)
    {
      n := NULL;
      if size == 0 { return 0, NULL; }
      var z := AlignUp(size);
      var c := Scan(z, lo, hi);
      n := c;
      if c == NULL { return 0, NULL; }
      r := heap.mem[c].vaddr;
      ghost var m0, s0, d0 := heap.mem, Nodes(freeRanges.t), Nodes(usedRanges.t);
      StartHeld(heap.mem, Nodes(freeRanges.t), Nodes(usedRanges.t), c, lo, hi);
      var code := Carve(heap, freeRanges, usedRanges, c, r, z, lo, hi);
      CarvedFits(m0, s0, d0, c, r, z, heap.mem, Nodes(freeRanges.t), Nodes(usedRanges.t), lo, hi);
      AlignedSize(size);
    }

    /** Where a fixed request is to be cut out, if at all.  Inside a used range the
        request shrinks by that whole range, wherever in it the request starts. */
    method PlaceFixed(z: nat, fixed: nat, noreplace: bool, ghost lo: nat, ghost hi: nat)
      returns (f: Ptr, addr: nat, len: nat, r: nat)
      requires Valid() && Tiled(lo, hi) && z < WORD && z % PAGE == 0 && fixed < WORD
      ensures FixedPlan(heap.mem, Nodes(freeRanges.t), Nodes(usedRanges.t), z, fixed, noreplace, r, f, addr, len)
      ensures f != NULL ==> f in Nodes(freeRanges.t) && Contains(heap.mem, f, addr)
      ensures f != NULL ==> addr % PAGE == 0 && len % PAGE == 0 && len < WORD && r == addr
    {
      f, addr, len := NULL, fixed, z;
      if fixed % PAGE != 0 { return NULL, fixed, z, 0; }
      PartitionSwap(heap.mem, Nodes(freeRanges.t), Nodes(usedRanges.t), lo, hi);
      var u := Lookup(heap, usedRanges, freeRanges, fixed, lo, hi);
      HeldBy(heap.mem, Nodes(usedRanges.t), fixed, u);
      if noreplace && u != NULL { return NULL, fixed, z, 0; }
      if u != NULL && heap.mem[u].size >= z { return NULL, fixed, z, fixed; }
      if u != NULL {
        UsedAligned(heap.mem, Nodes(freeRanges.t), Nodes(usedRanges.t), u, fixed, z, lo, hi);
        addr, len := (fixed + heap.mem[u].size) % WORD, z - heap.mem[u].size;
      }
      f := Lookup(heap, freeRanges, usedRanges, addr, lo, hi);
      HeldBy(heap.mem, Nodes(freeRanges.t), addr, f);
      r := if f == NULL then 0 else addr;
    }

    /** Asks for given pages.  A request that does not fit its free range is cut out all
        the same. */
    method VallocFixed(size: nat, fixed: nat, noreplace: bool, ghost lo: nat, ghost hi: nat)
      returns (r: nat, ghost n: Ptr, ghost at: nat, ghost len: nat)
      requires Valid() && Tiled(lo, hi) && size < WORD && fixed < WORD
      modifies heap, freeRanges, usedRanges
      ensures Valid()
      ensures n == NULL ==> Unchanged(old(heap.mem), old(Nodes(freeRanges.t)), old(Nodes(usedRanges.t)))
      ensures FixedPlan(old(heap.mem), old(Nodes(freeRanges.t)), old(Nodes(usedRanges.t)), AlignUp(size), fixed,
                        noreplace, r, n, at, len)
      ensures n != NULL ==>
        && n in old(heap.mem) && (Tiled(lo, hi) <==> 0 < len && at + len <= End(old(heap.mem)[n]))
        && Carved(old(heap.mem), old(Nodes(freeRanges.t)), old(Nodes(usedRanges.t)), n, at, len,
                  heap.mem, Nodes(freeRanges.t), Nodes(usedRanges.t), lo, hi)
      ensures r == 0 || Served(old(heap.mem), old(Nodes(usedRanges.t)), AlignUp(size), fixed, noreplace, n)
      ensures Served(old(heap.mem), old(Nodes(usedRanges.t)), AlignUp(size), fixed, noreplace, n) && Tiled(lo, hi) ==>
        (Owned(heap.mem, Nodes(usedRanges.t), fixed, fixed + AlignUp(size)) <==>
         Covers(old(heap.mem), old(Nodes(freeRanges.t)), old(Nodes(usedRanges.t)), fixed, AlignUp(size), hi))
      ensures fixed != 0 ==>
        (r == fixed <==> Exactly(old(heap.mem), old(Nodes(freeRanges.t)), old(Nodes(usedRanges.t)), AlignUp(size),
                                 fixed, noreplace))
    {
      ghost var m0, s0, d0 := heap.mem, Nodes(freeRanges.t), Nodes(usedRanges.t);
      r, n, at, len := CutFixed(size, fixed, noreplace, lo, hi);
      FixedResult(m0, s0, d0, AlignUp(size), fixed, noreplace, r, n, at, len, lo, hi);
      if Served(m0, d0, AlignUp(size), fixed, noreplace, n) && Tiled(lo, hi) {
        FixedExact(m0, s0, d0, AlignUp(size), fixed, noreplace, r, n, at, len,
                   heap.mem, Nodes(freeRanges.t), Nodes(usedRanges.t), lo, hi);
      }
    }

    method CutFixed(size: nat, fixed: nat, noreplace: bool, ghost lo: nat, ghost hi: nat)
      returns (r: nat, ghost n: Ptr, ghost at: nat, ghost len: nat)
      requires Valid() && Tiled(lo, hi) && size < WORD && fixed < WORD
      modifies heap, freeRanges, usedRanges
      ensures Valid()
      ensures n == NULL ==> Unchanged(old(heap.mem), old(Nodes(freeRanges.t)), old(Nodes(usedRanges.t)))
      ensures FixedPlan(old(heap.mem), old(Nodes(freeRanges.t)), old(Nodes(usedRanges.t)), AlignUp(size), fixed,
                        noreplace, r, n, at, len)
      ensures n != NULL ==>
        && n in old(heap.mem) && (Tiled(lo, hi) <==> 0 < len && at + len <= End(old(heap.mem)[n]))
        && Carved(old(heap.mem), old(Nodes(freeRanges.t)), old(Nodes(usedRanges.t)), n, at, len,
                  heap.mem, Nodes(freeRanges.t), Nodes(usedRanges.t), lo, hi)
    {
      AlignedSize(size);
      var f, addr, z;
      f, addr, z, r := PlaceFixed(AlignUp(size), fixed, noreplace, lo, hi);
      n, at, len := f, addr, z;
      if f == NULL { return; }
      ghost var m0, s0, d0 := heap.mem, Nodes(freeRanges.t), Nodes(usedRanges.t);
      var code := Carve(heap, freeRanges, usedRanges, f, addr, z, lo, hi);
      CarvedFits(m0, s0, d0, f, addr, z, heap.mem, Nodes(freeRanges.t), Nodes(usedRanges.t), lo, hi);
    }

    /** The used range a release is to be cut out of, if it is accepted. */
    method PlaceRelease(vaddr: nat, z: nat, ghost lo: nat, ghost hi: nat) returns (ok: bool, u: Ptr)
      requires Valid() && Tiled(lo, hi) && vaddr < WORD
      ensures ReleasePlan(heap.mem, Nodes(usedRanges.t), z, vaddr, ok, u)
      ensures ok ==> u in Nodes(usedRanges.t) && Contains(heap.mem, u, vaddr) && End(heap.mem[u]) < WORD
    {
      if vaddr % PAGE != 0 { return false, NULL; }
      PartitionSwap(heap.mem, Nodes(freeRanges.t), Nodes(usedRanges.t), lo, hi);
      u := Lookup(heap, usedRanges, freeRanges, vaddr, lo, hi);
      HeldBy(heap.mem, Nodes(usedRanges.t), vaddr, u);
      if u == NULL { return false, NULL; }
      StartHeld(heap.mem, Nodes(usedRanges.t), Nodes(freeRanges.t), u, lo, hi);
      ok := End(heap.mem[u]) % WORD >= (vaddr + z) % WORD;
    }

    /** Gives back pages that lie inside one used range. */
    method Vfree(vaddr: nat, size: nat, ghost lo: nat, ghost hi: nat) returns (code: nat, ghost n: Ptr)
      requires Valid() && Tiled(lo, hi) && size < WORD && vaddr < WORD
      modifies heap, freeRanges, usedRanges
      ensures Valid()
      ensures code == 0 ==> Unchanged(old(heap.mem), old(Nodes(freeRanges.t)), old(Nodes(usedRanges.t)))
      ensures FreePlan(old(heap.mem), old(Nodes(usedRanges.t)), AlignUp(size), vaddr, code, n)
      ensures code != 0 ==>
        && n in old(heap.mem)
        && (Tiled(lo, hi) <==> 0 < AlignUp(size) && vaddr + AlignUp(size) <= End(old(heap.mem)[n]))
        && Carved(old(heap.mem), old(Nodes(usedRanges.t)), old(Nodes(freeRanges.t)), n, vaddr, AlignUp(size),
                  heap.mem, Nodes(usedRanges.t), Nodes(freeRanges.t), lo, hi)
      ensures 0 < size <= WORD - PAGE && vaddr + AlignUp(size) < WORD ==> Tiled(lo, hi)
    {
      var z := AlignUp(size);
      AlignedSize(size);
      var ok, u := PlaceRelease(vaddr, z, lo, hi);
      n := u;
      if !ok { return 0, n; }
      ghost var m0, s0, d0 := heap.mem, Nodes(usedRanges.t), Nodes(freeRanges.t);
      PartitionSwap(heap.mem, Nodes(freeRanges.t), Nodes(usedRanges.t), lo, hi);
      code := Carve(heap, usedRanges, freeRanges, u, vaddr, z, lo, hi);
      PartitionSwaps(heap.mem, Nodes(usedRanges.t), Nodes(freeRanges.t), lo, hi);
      CarvedFits(m0, s0, d0, u, vaddr, z, heap.mem, Nodes(usedRanges.t), Nodes(freeRanges.t), lo, hi);
    }
  }

  const VALLOC_RANGE_START := 0xFFFF_A000_0000_0000
  const VALLOC_RANGE_END := 0xFFFF_E000_0000_0000
  const USER_RANGE_START := 0x1000
  const USER_RANGE_END := 400000000000

  /** The kernel's range and that of a new address space can start an allocator. */
  lemma InitialRanges()
    ensures 0 < VALLOC_RANGE_START < VALLOC_RANGE_END < WORD && VALLOC_RANGE_START % PAGE == 0
    ensures VALLOC_RANGE_END % PAGE == 0
    ensures 0 < USER_RANGE_START < USER_RANGE_END < WORD && USER_RANGE_START % PAGE == 0 && USER_RANGE_END % PAGE == 0
  {
  }

  lemma CarvedFits(m0: Mem, s0: set<Ptr>, d0: set<Ptr>, n: Ptr, addr: nat, size: nat,
                   m: Mem, s: set<Ptr>, d: set<Ptr>, lo: nat, hi: nat)
    requires n in m0 && Carved(m0, s0, d0, n, addr, size, m, s, d, lo, hi)
    ensures Partition(m, s, d, lo, hi) <==> 0 < size && addr + size <= End(m0[n])
  {
    assert Open(Tiling, 0);
  }

  lemma AlignedSize(size: nat)
    requires size < WORD
    ensures AlignUp(size) % PAGE == 0 && AlignUp(size) < WORD
    ensures 0 < size <= WORD - PAGE ==> size <= AlignUp(size) < size + PAGE
    ensures size == 0 || size > WORD - PAGE ==> AlignUp(size) == 0
  {
  }

  /** The range that contains the address is large enough by itself. */
  ghost predicate Spans(m: Mem, us: set<Ptr>, a: nat, z: nat) {
    exists u :: u in us && Contains(m, u, a) && m[u].size >= z
  }

  /** Whether and where a fixed request is cut out of a free range. */
  ghost predicate FixedPlan(m: Mem, fs: set<Ptr>, us: set<Ptr>, z: nat, fixed: nat, noreplace: bool,
                            r: nat, n: Ptr, at: nat, len: nat) {
    if fixed % PAGE != 0 || (noreplace && Holds(m, us, fixed)) then r == 0 && n == NULL
    else if Spans(m, us, fixed, z) then r == fixed && n == NULL
    else
      && (if Holds(m, us, fixed)
          then exists u :: u in us && Contains(m, u, fixed) && at == (fixed + m[u].size) % WORD && len == z - m[u].size
          else at == fixed && len == z)
      && (n == NULL <==> !Holds(m, fs, at))
      && (if n == NULL then r == 0 else r == at && n in fs && Contains(m, n, at))
  }

  // --- exactly when a fixed request gets the pages it asked for ---

  /** The request was accepted, whether or not anything was cut out. */
  ghost predicate Served(m: Mem, us: set<Ptr>, z: nat, fixed: nat, noreplace: bool, n: Ptr) {
    n != NULL || (fixed % PAGE == 0 && !(noreplace && Holds(m, us, fixed)) && Spans(m, us, fixed, z))
  }

  /** Every address from `a` up to `b` is held. */
  ghost predicate Owned(m: Mem, us: set<Ptr>, a: nat, b: nat) {
    forall x | a <= x < b :: Holds(m, us, x)
  }

  /** No free range meets the addresses from `a` up to `b`, and they end below `hi`. */
  ghost predicate GapClear(m: Mem, fs: set<Ptr>, a: nat, b: nat, hi: nat) {
    b <= hi && forall f | f in fs && f in m :: End(m[f]) <= a || b <= m[f].vaddr
  }

  /** If the request starts in a used range: no free range between the end of that range
      and the point up to which the code takes it to reach. */
  ghost predicate Covers(m: Mem, fs: set<Ptr>, us: set<Ptr>, fixed: nat, z: nat, hi: nat) {
    forall u | u in us && Contains(m, u, fixed) ::
      GapClear(m, fs, End(m[u]), fixed + (if z <= m[u].size then z else m[u].size), hi)
  }

  /** The request is answered with the very address asked for. */
  ghost predicate Exactly(m: Mem, fs: set<Ptr>, us: set<Ptr>, z: nat, fixed: nat, noreplace: bool) {
    fixed % PAGE == 0 && if Holds(m, us, fixed) then !noreplace && Spans(m, us, fixed, z) else Holds(m, fs, fixed)
  }

  lemma FixedResult(m: Mem, fs: set<Ptr>, us: set<Ptr>, z: nat, fixed: nat, noreplace: bool,
                    r: nat, n: Ptr, at: nat, len: nat, lo: nat, hi: nat)
    requires Partition(m, fs, us, lo, hi) && fixed < WORD && FixedPlan(m, fs, us, z, fixed, noreplace, r, n, at, len)
    ensures r == 0 || Served(m, us, z, fixed, noreplace, n)
    ensures fixed != 0 ==> (r == fixed <==> Exactly(m, fs, us, z, fixed, noreplace))
  {
    if Holds(m, us, fixed) && !Spans(m, us, fixed, z) {
      var u :| u in us && Contains(m, u, fixed);
      PartitionSwap(m, fs, us, lo, hi);
      GoodRange(m, us, fs, u, lo, hi);
      forall k | k in us && Contains(m, k, fixed) ensures k == u { SameHolder(m, us, fs, u, k, fixed, lo, hi); }
      Shifted(fixed, m[u].size);
    } else if Spans(m, us, fixed, z) {
      var u :| u in us && Contains(m, u, fixed) && m[u].size >= z;
      assert Holds(m, us, fixed);
    }
  }

  lemma Shifted(fixed: nat, size: nat)
    requires fixed < WORD && 0 < size < WORD
    ensures (fixed + size) % WORD != fixed
  {
  }

  lemma SameHolder(m: Mem, xs: set<Ptr>, ys: set<Ptr>, n: Ptr, k: Ptr, a: nat, lo: nat, hi: nat)
    requires Partition(m, xs, ys, lo, hi) && n in xs && k in xs && Contains(m, n, a) && Contains(m, k, a)
    ensures n == k
  {
    assert Open(Tiling, 0);
    assert n in xs + ys && k in xs + ys;
    OneHolder(m, xs + ys, n, k, a);
  }

  /** From an address of a used range on, all is used up to `b` exactly when no free range
      lies between the end of that range and `b`. */
  lemma UsedUpTo(m: Mem, fs: set<Ptr>, us: set<Ptr>, u: Ptr, fixed: nat, b: nat, lo: nat, hi: nat)
    requires Partition(m, fs, us, lo, hi) && u in us && Contains(m, u, fixed) && fixed <= b
    ensures Owned(m, us, fixed, b) <==> GapClear(m, fs, End(m[u]), b, hi)
  {
    assert Open(Tiling, 0);
    HeldOnce(m, fs, us, fixed);
    assert Holds(m, us, fixed) && fixed < hi;
    if Owned(m, us, fixed, b) {
      if fixed < b { HeldOnce(m, fs, us, b - 1); }
      forall f | f in fs && f in m ensures End(m[f]) <= End(m[u]) || b <= m[f].vaddr {
        var a := m[f].vaddr;
        assert f in fs + us && u in fs + us && Apart2(m[f], m[u]) && Contains(m, f, a);
        HeldOnce(m, fs, us, a);
      }
    } else if b <= hi {
      var a :| fixed <= a < b && !Holds(m, us, a);
      HeldOnce(m, fs, us, a);
      assert Holds(m, fs, a);
      var f :| f in fs && Contains(m, f, a);
      assert !Contains(m, u, a);
    }
  }

  /** After an accepted request that fits, every page asked for is used if and only if no
      free range lies where the code overlooks it. */
  lemma FixedExact(m0: Mem, fs: set<Ptr>, us: set<Ptr>, z: nat, fixed: nat, noreplace: bool,
                   r: nat, n: Ptr, at: nat, len: nat, m: Mem, fs': set<Ptr>, us': set<Ptr>, lo: nat, hi: nat)
    requires Partition(m0, fs, us, lo, hi) && fixed < WORD && FixedPlan(m0, fs, us, z, fixed, noreplace, r, n, at, len)
    requires Served(m0, us, z, fixed, noreplace, n) && (n == NULL ==> m == m0 && us' == us)
    requires n != NULL ==> n in m0 && Carved(m0, fs, us, n, at, len, m, fs', us', lo, hi)
    requires n != NULL ==> 0 < len && at + len <= End(m0[n])
    ensures Owned(m, us', fixed, fixed + z) <==> Covers(m0, fs, us, fixed, z, hi)
  {
    if Holds(m0, us, fixed) {
      var u :| u in us && Contains(m0, u, fixed);
      PartitionSwap(m0, fs, us, lo, hi);
      GoodRange(m0, us, fs, u, lo, hi);
      forall k | k in us && Contains(m0, k, fixed) ensures k == u { SameHolder(m0, us, fs, u, k, fixed, lo, hi); }
      if Spans(m0, us, fixed, z) {
        assert m0[u].size >= z;
        UsedUpTo(m0, fs, us, u, fixed, fixed + z, lo, hi);
      } else {
        ShrunkExact(m0, fs, us, u, z, fixed, n, at, len, m, fs', us', lo, hi);
      }
    } else {
      CarvedMoves(m0, fs, us, n, at, len, m, fs', us', lo, hi);
    }
  }

  lemma CarvedMoves(m0: Mem, s0: set<Ptr>, d0: set<Ptr>, n: Ptr, addr: nat, size: nat,
                    m: Mem, s: set<Ptr>, d: set<Ptr>, lo: nat, hi: nat)
    requires n in m0 && Carved(m0, s0, d0, n, addr, size, m, s, d, lo, hi) && 0 < size && addr + size <= End(m0[n])
    ensures Moved(m0, s0, d0, n, addr, size, m, s, d)
  {
    assert Open(Tiling, 0);
  }

  /** The request shrank: what was cut out starts `size` behind where it was asked for. */
  lemma ShrunkExact(m0: Mem, fs: set<Ptr>, us: set<Ptr>, u: Ptr, z: nat, fixed: nat, n: Ptr, at: nat, len: nat,
                    m: Mem, fs': set<Ptr>, us': set<Ptr>, lo: nat, hi: nat)
    requires Partition(m0, fs, us, lo, hi) && fixed < WORD && u in us && Contains(m0, u, fixed) && m0[u].size < z
    requires at == (fixed + m0[u].size) % WORD && len == z - m0[u].size && n in fs && n in m0
    requires Carved(m0, fs, us, n, at, len, m, fs', us', lo, hi) && at + len <= End(m0[n])
    ensures Owned(m, us', fixed, fixed + z) <==> GapClear(m0, fs, End(m0[u]), fixed + m0[u].size, hi)
  {
    CarvedMoves(m0, fs, us, n, at, len, m, fs', us', lo, hi);
    UsedUpTo(m0, fs, us, u, fixed, fixed + m0[u].size, lo, hi);
    EndsBelow(m0, fs, us, n, lo, hi);
    if fixed + m0[u].size < WORD {
      assert Owned(m, us', fixed, fixed + z) ==> Owned(m0, us, fixed, at);
      assert Owned(m0, us, fixed, at) ==> Owned(m, us', fixed, fixed + z);
    } else {
      Bounded(m0, fs, us, fixed + z - 1, lo, hi);
      assert !Holds(m, us', fixed + z - 1);
    }
  }

  lemma EndsBelow(m: Mem, fs: set<Ptr>, us: set<Ptr>, n: Ptr, lo: nat, hi: nat)
    requires Partition(m, fs, us, lo, hi) && n in fs && n in m
    ensures End(m[n]) <= hi < WORD
  {
    assert Open(Tiling, 0);
    assert n in fs + us && Contains(m, n, End(m[n]) - 1);
    assert Holds(m, fs + us, End(m[n]) - 1);
    assert Holds(m, fs + us, hi - 1);
    var k :| k in fs + us && Contains(m, k, hi - 1);
  }

  lemma Bounded(m: Mem, fs: set<Ptr>, us: set<Ptr>, a: nat, lo: nat, hi: nat)
    requires Partition(m, fs, us, lo, hi) && a >= hi
    ensures !Holds(m, us, a)
  {
    assert Open(Tiling, 0);
    HeldOnce(m, fs, us, a);
  }

  /** A request that starts where its used range does is never let down. */
  lemma StartCovers(m: Mem, fs: set<Ptr>, us: set<Ptr>, u: Ptr, z: nat, lo: nat, hi: nat)
    requires Partition(m, fs, us, lo, hi) && u in us && u in m
    ensures Covers(m, fs, us, m[u].vaddr, z, hi)
  {
    PartitionSwap(m, fs, us, lo, hi);
    GoodRange(m, us, fs, u, lo, hi);
    EndsBelow(m, us, fs, u, lo, hi);
    forall k | k in us && Contains(m, k, m[u].vaddr)
      ensures GapClear(m, fs, End(m[k]), m[u].vaddr + (if z <= m[k].size then z else m[k].size), hi)
    {
      SameHolder(m, us, fs, u, k, m[u].vaddr, lo, hi);
      UsedUpTo(m, fs, us, u, m[u].vaddr, m[u].vaddr + (if z <= m[u].size then z else m[u].size), lo, hi);
      forall x | m[u].vaddr <= x < End(m[u]) ensures Holds(m, us, x) { assert Contains(m, u, x); }
    }
  }

  /** Whether a release is accepted, and of which range. */
  ghost predicate ReleasePlan(m: Mem, us: set<Ptr>, z: nat, vaddr: nat, ok: bool, u: Ptr) {
    if vaddr % PAGE != 0 || !Holds(m, us, vaddr) then !ok
    else u in us && Contains(m, u, vaddr) && (ok <==> End(m[u]) >= (vaddr + z) % WORD)
  }

  /** Whether a free succeeds, and with which code. */
  ghost predicate FreePlan(m: Mem, us: set<Ptr>, z: nat, vaddr: nat, code: nat, n: Ptr) {
    if vaddr % PAGE != 0 || !Holds(m, us, vaddr) then code == 0
    else
      && n in us && Contains(m, n, vaddr)
      && code == if End(m[n]) < (vaddr + z) % WORD then 0 else CarveCode(m[n], vaddr, z)
  }

  lemma HeldBy(m: Mem, ns: set<Ptr>, a: nat, r: Ptr)
    requires r != NULL ==> r in ns
    requires forall n | n in ns :: Contains(m, n, a) <==> r != NULL && n == r
    ensures Holds(m, ns, a) <==> r != NULL
  {
    if r != NULL { assert Contains(m, r, a); }
  }

  lemma UsedAligned(m: Mem, fs: set<Ptr>, us: set<Ptr>, u: Ptr, fixed: nat, z: nat, lo: nat, hi: nat)
    requires Partition(m, fs, us, lo, hi) && u in us && u in m && fixed % PAGE == 0 && z % PAGE == 0
    ensures (fixed + m[u].size) % WORD % PAGE == 0 && (z - m[u].size) % PAGE == 0
  {
    assert Open(Tiling, 0);
    assert u in fs + us && Good(m[u]);
  }

  lemma PartitionSwaps(m: Mem, xs: set<Ptr>, ys: set<Ptr>, lo: nat, hi: nat)
    ensures Partition(m, xs, ys, lo, hi) <==> Partition(m, ys, xs, lo, hi)
  {
    if Partition(m, xs, ys, lo, hi) { PartitionSwap(m, xs, ys, lo, hi); }
    if Partition(m, ys, xs, lo, hi) { PartitionSwap(m, ys, xs, lo, hi); }
  }

  lemma StartHeld(m: Mem, fs: set<Ptr>, us: set<Ptr>, n: Ptr, lo: nat, hi: nat)
    requires Partition(m, fs, us, lo, hi) && n in fs && n in m
    ensures Contains(m, n, m[n].vaddr) && m[n].vaddr % PAGE == 0 && lo <= m[n].vaddr && End(m[n]) < WORD
  {
    assert Open(Tiling, 0);
    assert n in fs + us;
    assert Contains(m, n, m[n].vaddr) && Holds(m, fs + us, m[n].vaddr);
  }

  /** Freeing what was just allocated gives back exactly the same addresses. */
  method AllocThenFree(pm: Pagemap, size: nat, ghost lo: nat, ghost hi: nat) returns (r: nat, code: nat)
    requires pm.Valid() && pm.Tiled(lo, hi) && 0 < size <= WORD - PAGE && 0 < lo
    modifies pm.heap, pm.freeRanges, pm.usedRanges
    ensures pm.Valid() && pm.Tiled(lo, hi)
    ensures r == 0 <==> forall k | k in old(Nodes(pm.freeRanges.t)) && k in old(pm.heap.mem) ::
      old(pm.heap.mem)[k].size < AlignUp(size)
    ensures r == 0 ==> pm.Unchanged(old(pm.heap.mem), old(Nodes(pm.freeRanges.t)), old(Nodes(pm.usedRanges.t)))
    ensures r != 0 ==> code == 1
    ensures forall a: nat ::
      Holds(pm.heap.mem, Nodes(pm.usedRanges.t), a) <==> Holds(old(pm.heap.mem), old(Nodes(pm.usedRanges.t)), a)
    ensures forall a: nat ::
      Holds(pm.heap.mem, Nodes(pm.freeRanges.t), a) <==> Holds(old(pm.heap.mem), old(Nodes(pm.freeRanges.t)), a)
  {
    ghost var m0, f0, u0 := pm.heap.mem, Nodes(pm.freeRanges.t), Nodes(pm.usedRanges.t);
    ghost var n, k;
    r, n := pm.Valloc(size, lo, hi);
    if r == 0 {
      if n != NULL { StartHeld(m0, f0, u0, n, lo, hi); }
      return 0, 0;
    }
    ghost var m1, f1, u1 := pm.heap.mem, Nodes(pm.freeRanges.t), Nodes(pm.usedRanges.t);
    AlignedSize(size);
    StartHeld(m0, f0, u0, n, lo, hi);
    code, k := pm.Vfree(r, size, lo, hi);
    AllocFreed(m0, f0, u0, n, r, AlignUp(size), m1, f1, u1, code, k, pm.heap.mem, Nodes(pm.freeRanges.t),
               Nodes(pm.usedRanges.t), lo, hi);
  }

  lemma AllocFreed(m0: Mem, f0: set<Ptr>, u0: set<Ptr>, n: Ptr, r: nat, z: nat, m1: Mem, f1: set<Ptr>, u1: set<Ptr>,
                   code: nat, k: Ptr, m: Mem, f: set<Ptr>, u: set<Ptr>, lo: nat, hi: nat)
    requires Partition(m0, f0, u0, lo, hi) && n in f0 && n in m0 && r == m0[n].vaddr && r % PAGE == 0
    requires 0 < z <= m0[n].size
    requires Partition(m1, f1, u1, lo, hi) && Carved(m0, f0, u0, n, r, z, m1, f1, u1, lo, hi) && End(m0[n]) < WORD
    requires FreePlan(m1, u1, z, r, code, k)
    requires code != 0 ==> k in m1 && Carved(m1, u1, f1, k, r, z, m, u, f, lo, hi)
    ensures code == 1
    ensures forall a: nat :: Holds(m, u, a) <==> Holds(m0, u0, a)
    ensures forall a: nat :: Holds(m, f, a) <==> Holds(m0, f0, a)
  {
    assert Open(Tiling, 0);
    assert Range(r, z) in RangesOf(m1, u1);
    var b :| b in u1 && b in m1 && RangeOf(m1[b]) == Range(r, z);
    assert Contains(m1, b, r) && b in f1 + u1 && Holds(m1, u1, r);
    OneHolder(m1, f1 + u1, b, k, r);
    forall a: nat ensures r <= a < r + z ==> Holds(m0, f0, a) && !Holds(m0, u0, a) {
      if r <= a < r + z {
        assert Contains(m0, n, a);
        HeldOnce(m0, f0, u0, a);
      }
    }
  }
}
