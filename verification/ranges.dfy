/** Address ranges held by tree nodes: when they tile an interval, and who owns
    which address. */
module Ranges {
  import opened Gates
  import opened Machine
  import opened RbHeap

  /** Rounds up to a page, in 64-bit arithmetic. */
  function AlignUp(x: nat): nat {
    ((x + (PAGE - 1)) % WORD) / PAGE * PAGE
  }

  function End(n: Node): nat {
    n.vaddr + n.size
  }

  ghost predicate Good(n: Node) {
    n.size > 0 && n.vaddr % PAGE == 0 && n.size % PAGE == 0 && End(n) < WORD
  }

  ghost predicate Apart2(a: Node, b: Node) {
    End(a) <= b.vaddr || End(b) <= a.vaddr
  }

  /** A range by itself, whichever node holds it. */
  datatype Range = Range(start: nat, size: nat)

  function RangeOf(n: Node): Range {
    Range(n.vaddr, n.size)
  }

  ghost function RangesOf(m: Mem, ns: set<Ptr>): set<Range> {
    set n | n in ns && n in m :: RangeOf(m[n])
  }

  /** What is left of a range around a request inside it: nothing, one piece or two. */
  function Rest(r: Range, addr: nat, size: nat): set<Range> {
    (if r.start < addr then {Range(r.start, addr - r.start)} else {})
    + (if addr + size < r.start + r.size then {Range(addr + size, r.start + r.size - addr - size)} else {})
  }

  /** Node `n` holds address `a`. */
  ghost predicate Contains(m: Mem, n: Ptr, a: nat) {
    n in m && m[n].vaddr <= a < End(m[n])
  }

  /** Some node of the set holds address `a`. */
  ghost predicate Holds(m: Mem, ns: set<Ptr>, a: nat) {
    exists n :: n in ns && Contains(m, n, a)
  }

  /** Non-empty, page-aligned ranges, no two of which overlap. */
  ghost predicate Disjoint(m: Mem, ns: set<Ptr>) {
    && (forall n | n in ns :: n in m && Good(m[n]))
    && (forall n, k | n in ns && k in ns && n != k :: Apart2(m[n], m[k]))
  }

  /** Free and used ranges tile the interval from `lo` to `hi`. */
  ghost predicate Partition(m: Mem, fs: set<Ptr>, us: set<Ptr>, lo: nat, hi: nat) {
    forall k {:trigger Open(Tiling, k)} | Open(Tiling, k) ::
      && fs !! us
      && Disjoint(m, fs + us)
      && (forall a: nat :: Holds(m, fs + us, a) <==> lo <= a < hi)
  }

  /** No range has changed, whatever happened to the links. */
  ghost predicate SameRanges(m: Mem, m': Mem) {
    m'.Keys == m.Keys && forall n | n in m :: m'[n].vaddr == m[n].vaddr && m'[n].size == m[n].size
  }

  /** One owner per address. */
  lemma OneHolder(m: Mem, ns: set<Ptr>, n: Ptr, k: Ptr, a: nat)
    requires Disjoint(m, ns) && n in ns && k in ns && Contains(m, n, a) && Contains(m, k, a)
    ensures n == k
  {
  }

  /** Every address of `n`'s old range is held by one of the parts. */
  ghost predicate Tiles(m: Mem, n: Ptr, m': Mem, parts: set<Ptr>)
    requires n in m
  {
    && (forall p | p in parts :: p in m' && Good(m'[p]) && m[n].vaddr <= m'[p].vaddr && End(m'[p]) <= End(m[n]))
    && (forall p, q | p in parts && q in parts && p != q :: Apart2(m'[p], m'[q]))
    && (forall a: nat | m[n].vaddr <= a < End(m[n]) :: Holds(m', parts, a))
  }

  /** Cutting one range into parts changes neither disjointness nor what is held. */
  lemma Recut(m: Mem, m': Mem, ns: set<Ptr>, n: Ptr, parts: set<Ptr>)
    requires Disjoint(m, ns) && n in ns && parts !! ns - {n} && Tiles(m, n, m', parts)
    requires forall k | k in ns - {n} :: k in m' && m'[k].vaddr == m[k].vaddr && m'[k].size == m[k].size
    ensures Disjoint(m', ns - {n} + parts)
    ensures forall a: nat :: Holds(m', ns - {n} + parts, a) <==> Holds(m, ns, a)
  {
    RecutDisjoint(m, m', ns, n, parts);
    forall a: nat ensures Holds(m', ns - {n} + parts, a) <==> Holds(m, ns, a) {
      RecutHolds(m, m', ns, n, parts, a);
    }
  }

  lemma RecutDisjoint(m: Mem, m': Mem, ns: set<Ptr>, n: Ptr, parts: set<Ptr>)
    requires Disjoint(m, ns) && n in ns && parts !! ns - {n} && Tiles(m, n, m', parts)
    requires forall k | k in ns - {n} :: k in m' && m'[k].vaddr == m[k].vaddr && m'[k].size == m[k].size
    ensures Disjoint(m', ns - {n} + parts)
  {
    var now := ns - {n} + parts;
    forall p, q | p in now && q in now && p != q ensures Apart2(m'[p], m'[q]) {
      if p in parts && q !in parts {
        assert Apart2(m[n], m[q]);
      } else if p !in parts && q in parts {
        assert Apart2(m[n], m[p]);
      } else if p !in parts && q !in parts {
        assert Apart2(m[p], m[q]);
      }
    }
  }

  lemma RecutHolds(m: Mem, m': Mem, ns: set<Ptr>, n: Ptr, parts: set<Ptr>, a: nat)
    requires n in ns && n in m && Tiles(m, n, m', parts)
    requires forall k | k in ns - {n} :: k in m && k in m' && m'[k].vaddr == m[k].vaddr && m'[k].size == m[k].size
    ensures Holds(m', ns - {n} + parts, a) <==> Holds(m, ns, a)
  {
    var now := ns - {n} + parts;
    if Holds(m', now, a) {
      var p :| p in now && Contains(m', p, a);
      assert Contains(m, if p in parts then n else p, a);
    }
    if Holds(m, ns, a) {
      var k :| k in ns && Contains(m, k, a);
      if k == n {
        assert Holds(m', parts, a);
        var p :| p in parts && Contains(m', p, a);
        assert p in now;
      } else {
        assert k in now && Contains(m', k, a);
      }
    }
  }

  /** Whatever one set of disjoint ranges holds, a disjoint other set does not. */
  lemma HeldOnce(m: Mem, xs: set<Ptr>, ys: set<Ptr>, a: nat)
    requires xs !! ys && Disjoint(m, xs + ys)
    ensures !(Holds(m, xs, a) && Holds(m, ys, a))
    ensures Holds(m, xs + ys, a) <==> Holds(m, xs, a) || Holds(m, ys, a)
  {
    if Holds(m, xs, a) {
      var x :| x in xs && Contains(m, x, a);
      assert x in xs + ys;
      if Holds(m, ys, a) {
        var y :| y in ys && Contains(m, y, a);
        assert y in xs + ys;
        OneHolder(m, xs + ys, x, y, a);
        assert false;
      }
    }
    if Holds(m, ys, a) {
      var y :| y in ys && Contains(m, y, a);
      assert y in xs + ys;
    }
    if Holds(m, xs + ys, a) {
      var n :| n in xs + ys && Contains(m, n, a);
      assert n in xs || n in ys;
    }
  }

  lemma PartitionSwap(m: Mem, xs: set<Ptr>, ys: set<Ptr>, lo: nat, hi: nat)
    requires Partition(m, xs, ys, lo, hi)
    ensures Partition(m, ys, xs, lo, hi)
  {
    assert Open(Tiling, 0);
    assert xs + ys == ys + xs;
  }

  /** An address inside a range compares equal to it, any other does not. */
  lemma CmpIsContains(m: Mem, n: Ptr, a: nat)
    requires n in m && Good(m[n])
    ensures CmpRange(a, m[n]) == 0 <==> Contains(m, n, a)
  {
  }

  /** Bounds of the part that is cut out, and the sets of nodes around it. */
  ghost predicate CutsOut(m: Mem, m': Mem, src: set<Ptr>, dst: set<Ptr>, n: Ptr, rest: set<Ptr>, b: Ptr, addr: nat,
                          size: nat) {
    && n in src && n in m && b in m' && m'[b].vaddr == addr && m'[b].size == size
    && b !in src - {n} + dst + rest && rest !! src - {n} + dst
    && (forall k | k in src - {n} + dst :: k in m && k in m' && m'[k].vaddr == m[k].vaddr && m'[k].size == m[k].size)
  }

  /** Cutting `addr..addr+size` out of a range of `src` for `dst` keeps the tiling
      and moves exactly those addresses. */
  lemma CutOut(m: Mem, m': Mem, src: set<Ptr>, dst: set<Ptr>, n: Ptr, rest: set<Ptr>, b: Ptr,
               addr: nat, size: nat, lo: nat, hi: nat)
    requires Partition(m, src, dst, lo, hi) && CutsOut(m, m', src, dst, n, rest, b, addr, size)
    requires Tiles(m, n, m', rest + {b})
    ensures Partition(m', src - {n} + rest, dst + {b}, lo, hi)
    ensures forall a: nat :: Holds(m', dst + {b}, a) <==> Holds(m, dst, a) || addr <= a < addr + size
    ensures forall a: nat :: Holds(m', src - {n} + rest, a) <==> Holds(m, src, a) && !(addr <= a < addr + size)
    ensures RangesOf(m', src - {n} + rest) == RangesOf(m, src) - {RangeOf(m[n])} + RangesOf(m', rest)
    ensures RangesOf(m', dst + {b}) == RangesOf(m, dst) + {Range(addr, size)}
  {
    assert Open(Tiling, 0);
    RangesCut(m, m', src, dst, n, rest, b, addr, size);
    var src', dst' := src - {n} + rest, dst + {b};
    var ns := src + dst;
    Recut(m, m', ns, n, rest + {b});
    assert ns - {n} + (rest + {b}) == src' + dst';
    forall a: nat ensures Holds(m', dst', a) <==> Holds(m, dst, a) || addr <= a < addr + size {
      AddedHolds(m, m', dst, b, a);
    }
    forall a: nat ensures Holds(m', src', a) <==> Holds(m, src, a) && !(addr <= a < addr + size) {
      HeldOnce(m, src, dst, a);
      HeldOnce(m', src', dst', a);
      AddedHolds(m, m', dst, b, a);
      if addr <= a < addr + size { assert Contains(m, n, a); }
    }
  }

  /** The ranges after such a cut, piece by piece. */
  lemma RangesCut(m: Mem, m': Mem, src: set<Ptr>, dst: set<Ptr>, n: Ptr, rest: set<Ptr>, b: Ptr, addr: nat, size: nat)
    requires Disjoint(m, src + dst) && CutsOut(m, m', src, dst, n, rest, b, addr, size)
    ensures RangesOf(m', src - {n} + rest) == RangesOf(m, src) - {RangeOf(m[n])} + RangesOf(m', rest)
    ensures RangesOf(m', dst + {b}) == RangesOf(m, dst) + {Range(addr, size)}
  {
    OtherRanges(m, m', src, dst, n);
    var others := src - {n};
    forall x ensures x in RangesOf(m', others + rest) <==> x in RangesOf(m', others) || x in RangesOf(m', rest) {
      RangesUnion(m', others, rest, x);
    }
    forall x ensures x in RangesOf(m', dst + {b}) <==> x in RangesOf(m', dst) || x == Range(addr, size) {
      RangesUnion(m', dst, {b}, x);
    }
    assert RangesOf(m', dst) == RangesOf(m, dst);
  }

  lemma RangesUnion(m: Mem, xs: set<Ptr>, ys: set<Ptr>, r: Range)
    ensures r in RangesOf(m, xs + ys) <==> r in RangesOf(m, xs) || r in RangesOf(m, ys)
  {
    if r in RangesOf(m, xs + ys) {
      var n :| n in xs + ys && n in m && RangeOf(m[n]) == r;
      assert n in xs || n in ys;
    }
    if r in RangesOf(m, xs) {
      var n :| n in xs && n in m && RangeOf(m[n]) == r;
      assert n in xs + ys;
    }
    if r in RangesOf(m, ys) {
      var n :| n in ys && n in m && RangeOf(m[n]) == r;
      assert n in xs + ys;
    }
  }

  lemma OtherRanges(m: Mem, m': Mem, src: set<Ptr>, dst: set<Ptr>, n: Ptr)
    requires Disjoint(m, src + dst) && n in src
    requires forall k | k in src - {n} + dst :: k in m' && m'[k].vaddr == m[k].vaddr && m'[k].size == m[k].size
    ensures RangesOf(m', src - {n}) == RangesOf(m, src) - {RangeOf(m[n])}
  {
    var others := src - {n};
    forall r ensures r in RangesOf(m', others) <==> r in RangesOf(m, src) && r != RangeOf(m[n]) {
      if r in RangesOf(m', others) {
        var k :| k in others && k in m' && RangeOf(m'[k]) == r;
        assert k in src + dst && n in src + dst && Apart2(m[k], m[n]);
        assert RangeOf(m[k]) == r;
      }
      if r in RangesOf(m, src) && r != RangeOf(m[n]) {
        var k :| k in src && k in m && RangeOf(m[k]) == r;
        assert k in others && RangeOf(m'[k]) == r;
      }
    }
  }

  lemma AddedHolds(m: Mem, m': Mem, ns: set<Ptr>, b: Ptr, a: nat)
    requires b in m' && forall k | k in ns :: k in m && k in m' && m'[k].vaddr == m[k].vaddr && m'[k].size == m[k].size
    ensures Holds(m', ns + {b}, a) <==> Holds(m, ns, a) || Contains(m', b, a)
  {
    if Holds(m', ns + {b}, a) {
      var k :| k in ns + {b} && Contains(m', k, a);
      if k != b { assert Contains(m, k, a); }
    }
    if Holds(m, ns, a) {
      var k :| k in ns && Contains(m, k, a);
      assert k in ns + {b} && Contains(m', k, a);
    }
    if Contains(m', b, a) { assert b in ns + {b}; }
  }

  /** A cut that runs past the end of its range, or is empty, destroys the tiling. */
  lemma CutTooFar(m: Mem, m': Mem, src: set<Ptr>, dst: set<Ptr>, n: Ptr, src': set<Ptr>, b: Ptr,
                  addr: nat, size: nat, lo: nat, hi: nat)
    requires Partition(m, src, dst, lo, hi) && n in src && Contains(m, n, addr)
    requires b in m' && m'[b].vaddr == addr && m'[b].size == size && b !in src - {n} + dst
    requires src - {n} <= src'
    requires forall k | k in src - {n} + dst ::
      k in m && k in m' && m'[k].vaddr == m[k].vaddr && m'[k].size == m[k].size
    requires size == 0 || addr + size > End(m[n])
    ensures !Partition(m', src', dst + {b}, lo, hi)
  {
    assert Open(Tiling, 0);
    var e := End(m[n]);
    if Partition(m', src', dst + {b}, lo, hi) {
      assert b in src' + (dst + {b});
      assert Good(m'[b]);
      assert Contains(m', b, e) && Holds(m', src' + (dst + {b}), e);
      assert Holds(m, src + dst, e);
      var k :| k in src + dst && Contains(m, k, e);
      assert k in src' + (dst + {b}) && Contains(m', k, e);
      OneHolder(m', src' + (dst + {b}), b, k, e);
      assert false;
    }
  }
}
