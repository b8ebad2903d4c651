/** The kernel heap: `kmalloc` and `kfree` over slabs, and the small-block path of
    `malloc` and `free` above them. */
module SlabHeap {
  import opened Gates
  import opened Machine
  import opened Options
  import opened Pmm
  import opened Slab

  /** What `malloc` keeps in front of a block. */
  const PREFIX := 16

  class KernelHeap {
    const pmm: Allocator
    var headers: map<nat, Header>
    var next: map<nat, nat>
    var caches: seq<Cache>
    var sizes: map<nat, nat>
    ghost var frees: map<nat, seq<nat>>
    ghost var chains: seq<seq<nat>>
    ghost var live: map<nat, nat>

    ghost predicate Valid()
      reads this, pmm
    {
      && pmm.Valid() && pmm.hhdm % PAGE == 0 && pmm.hhdm > 0
      && (forall s | s in headers :: s >= pmm.hhdm && s - pmm.hhdm in pmm.UsedFrames())
      && HeapOk(headers, next, caches, frees, chains, live)
    }

    ghost predicate OutOfMemory()
      reads pmm
    {
      forall f | f in pmm.pages :: pmm.pages[f] == Used
    }

    constructor (pmm: Allocator)
      requires pmm.Valid() && pmm.hhdm % PAGE == 0 && pmm.hhdm > 0
      ensures Valid() && this.pmm == pmm && caches == [] && live == map[]
    {
      this.pmm, headers, next, caches, sizes, frees, chains, live := pmm, map[], map[], [], map[], map[], [], map[];
      EmptyHeap();
    }

    /** A page cut into objects, all of them free. */
    method NewSlab(size: nat) returns (slab: Block)
      requires Valid() && 0 < size <= 1024
      modifies pmm, `headers, `next, `frees
      ensures Valid() && (slab.Panic? ==> OutOfMemory() && headers == old(headers) && frees == old(frees))
      ensures slab.At? ==>
        && slab.ptr != 0 && slab.ptr !in old(headers) && slab.ptr in headers
        && headers == old(headers)[slab.ptr := headers[slab.ptr]]
        && headers[slab.ptr] == Header(0, size, Count(size), headers[slab.ptr].objects)
        && headers[slab.ptr].objects != 0
        && frees == old(frees)[slab.ptr := Objs(slab.ptr, size, Count(size))]
    {
      slab := NewPage();
      if slab.Panic? { return; }
      var s := slab.ptr;
      var am, last, next', list := Thread(s, size);
      AddSlabOk(headers, next, caches, frees, chains, live, s, Header(0, size, am, last), list, next');
      next := next';
      headers := headers[s := Header(0, size, am, last)];
      frees := frees[s := list];
    }

    /** A zeroed page, seen through the direct map. */
    method NewPage() returns (page: Block)
      requires Valid()
      modifies pmm
      ensures Valid() && (page.Panic? ==> OutOfMemory())
      ensures page.At? ==> page.ptr % PAGE == 0 && page.ptr > 0 && page.ptr !in headers
      ensures page.At? ==> page.ptr >= pmm.hhdm && page.ptr - pmm.hhdm in pmm.UsedFrames()
    {
      var f := pmm.AllocatePage();
      if f.None? { return Panic; }
      ManagedFits(pmm.tables, pmm.hhdm, f.value);
      return At(f.value + pmm.hhdm);
    }

    /** Threads the free list through a zeroed page. */
    method Thread(s: nat, size: nat) returns (am: nat, last: nat, next': map<nat, nat>, ghost list: seq<nat>)
      requires 0 < size <= 1024 && s % PAGE == 0 && s > 0
      ensures am == Count(size) && list == Objs(s, size, am)
      ensures last != 0 && FreshSlab(s, Header(0, size, am, last), list, next')
      ensures forall p | p in next && SlabOf(p) != s :: p in next' && next'[p] == next[p]
    {
      am := Count(size);
      CountPositive(size);
      last := s + HEADER;
      next' := next[last := 0];
      ObjInside(s, size, 0);
      FirstObj(s, size);
      for i := 1 to am
        invariant last == ObjAt(s, size, i - 1) && Threaded(next', last, Objs(s, size, i))
        invariant forall p | p in next && SlabOf(p) != s :: p in next' && next'[p] == next[p]
      {
        var obj := ObjAt(s, size, i);
        ObjInside(s, size, i);
        ObjsOnce(s, size, i);
        LinksPush(next', last, Objs(s, size, i), obj);
        next' := next'[obj := last];
        last := obj;
      }
      ObjInside(s, size, am - 1);
      ThreadedIsFresh(s, size, am, last, next');
      list := Objs(s, size, am);
    }

    /** Finds a slab of the size with a free object, adding one if there is none. */
    method FindSlab(c: nat) returns (slab: Block)
      requires Valid() && c < |caches|
      modifies pmm, `headers, `next, `frees, `chains
      ensures Valid() && (slab.Panic? ==> OutOfMemory())
      ensures slab.At? ==> slab.ptr in headers && headers[slab.ptr].objects != 0
      ensures slab.At? ==> headers[slab.ptr].size == caches[c].size
    {
      ghost var k := 0;
      ChainFacts(headers, next, caches, frees, chains, live, c, 0);
      var s := caches[c].slabs;
      while headers[s].objects == 0
        invariant Valid() && c < |chains| && k < |chains[c]| && s == chains[c][k] && s in headers
        invariant headers[s].size == caches[c].size
        decreases |chains[c]| - k, if headers[s].objects == 0 then 1 else 0
      {
        ChainFacts(headers, next, caches, frees, chains, live, c, k);
        if headers[s].other != 0 {
          s := headers[s].other;
          k := k + 1;
          ChainFacts(headers, next, caches, frees, chains, live, c, k);
        } else {
          var added := Extend(c, s);
          if added.Panic? { return Panic; }
          s := added.ptr;
          k := k + 1;
        }
      }
      return At(s);
    }

    /** Adds a slab at the end of a chain. */
    method Extend(c: nat, last: nat) returns (slab: Block)
      requires Valid() && c < |caches| && c < |chains| && |chains[c]| > 0 && last == chains[c][|chains[c]| - 1]
      requires last in headers && headers[last].size == caches[c].size
      modifies pmm, `headers, `next, `frees, `chains
      ensures Valid() && (slab.Panic? ==> OutOfMemory())
      ensures slab.At? ==>
        && |chains| == |old(chains)| && chains[c] == old(chains[c]) + [slab.ptr] && slab.ptr in headers
        && headers[slab.ptr].objects != 0 && headers[slab.ptr].size == caches[c].size
    {
      ChainFacts(headers, next, caches, frees, chains, live, c, 0);
      assert 0 < headers[last].size <= 1024;
      slab := NewSlab(headers[last].size);
      if slab.Panic? { return; }
      LinkOk(headers, next, caches, frees, chains, live, c, last, slab.ptr);
      headers := headers[last := headers[last].(other := slab.ptr)];
      chains := chains[c := chains[c] + [slab.ptr]];
    }

    /** A free object of the slab becomes the caller's. */
    method TakeObject(s: nat, ghost size: nat) returns (p: nat)
      requires Valid() && s in headers && headers[s].objects != 0 && size <= headers[s].size
      modifies `headers, `frees, `live
      ensures Valid() && p !in old(live) && live == old(live)[p := size] && p != 0
      ensures SlabOf(p) == s && s in headers && headers[s].size == old(headers)[s].size
    {
      ghost var n := size;
      SlabInFrees(headers, next, caches, frees, chains, live);
      TakeOk(headers, next, caches, frees, chains, live, s, n);
      var h := headers[s];
      p := h.objects;
      headers := headers[s := h.(objects := next[p], am := h.am - 1)];
      frees := frees[s := frees[s][1..]];
      live := live[p := n];
    }

    /** Hands out a block of the smallest size class that fits; fails for requests
        above 1024 bytes, and otherwise only when memory is out. */
    method Kmalloc(size: nat) returns (r: Block)
      requires Valid() && |caches| == 6
      modifies pmm, `headers, `next, `frees, `chains, `live
      ensures Valid()
      ensures size > 1024 ==> r.Panic?
      ensures r.Panic? ==> live == old(live) && (size <= 1024 ==> OutOfMemory())
      ensures r.At? ==> r.ptr != 0 && r.ptr !in old(live) && live == old(live)[r.ptr := size]
      ensures r.At? ==> SlabOf(r.ptr) in headers && SmallestClass(size, headers[SlabOf(r.ptr)].size)
    {
      for i := 0 to 6
        invariant Valid() && live == old(live) && (i > 0 ==> size > Sizes()[i - 1])
      {
        ChainFacts(headers, next, caches, frees, chains, live, i, 0);
        if size <= caches[i].size {
          var slab := FindSlab(i);
          if slab.Panic? { return Panic; }
          var p := TakeObject(slab.ptr, size);
          ClassIs(size, i);
          return At(p);
        }
      }
      return Panic;
    }

    /** Takes a live block back; a null pointer is ignored. */
    method Kfree(p: nat)
      requires Valid() && (p != 0 ==> p in live)
      modifies `headers, `next, `frees, `live
      ensures Valid() && live == old(live) - {p}
    {
      if p == 0 {
        NullNotLive(headers, next, caches, frees, chains, live);
        return;
      }
      GiveOk(headers, next, caches, frees, chains, live, p);
      var s := p / PAGE * PAGE;
      var h := headers[s];
      assert next[p := 0][p := h.objects] == next[p := h.objects];
      next := next[p := 0];
      if h.objects != 0 { next := next[p := h.objects]; }
      headers := headers[s := h.(objects := p, am := h.am + 1)];
      frees := frees[s := [p] + frees[s]];
      live := live - {p};
    }

    /** Six caches, one for each size. */
    method SetupHeap() returns (ok: bool)
      requires Valid() && caches == []
      modifies pmm, `headers, `next, `frees, `chains, `caches
      ensures Valid() && (if ok then |caches| == 6 else OutOfMemory())
    {
      for i := 0 to 6
        invariant Valid() && |caches| == i
      {
        ok := AddCache();
        if !ok { return false; }
      }
      return true;
    }

    /** A cache of the next size, with one slab. */
    method AddCache() returns (ok: bool)
      requires Valid() && |caches| < 6
      modifies pmm, `headers, `next, `frees, `chains, `caches
      ensures Valid() && if ok then |caches| == |old(caches)| + 1 else OutOfMemory()
    {
      var size := Sizes()[|caches|];
      var slab := NewSlab(size);
      if slab.Panic? { return false; }
      CacheOk(headers, next, caches, frees, chains, live, slab.ptr);
      caches := caches + [Cache(size, slab.ptr)];
      chains := chains + [[slab.ptr]];
      return true;
    }

    /** Small requests.  The prefix counts against the largest size class, so requests
        from 1009 to 1024 bytes fail although they take this path. */
    method Malloc(size: nat) returns (r: Block)
      requires Valid() && |caches| == 6 && size <= 1024
      modifies pmm, `headers, `next, `frees, `chains, `live, `sizes
      ensures Valid()
      ensures size > 1008 ==> r.Panic?
      ensures r.Panic? ==> live == old(live) && sizes == old(sizes) && (size <= 1008 ==> OutOfMemory())
      ensures r.At? ==> r.ptr > PREFIX && Handed(r.ptr, size) && r.ptr - PREFIX !in old(live)
      ensures r.At? ==> live == old(live)[r.ptr - PREFIX := size + PREFIX]
      ensures r.At? ==> forall p, n | old(Handed(p, n)) :: Handed(p, n)
    {
      r := Kmalloc(size + PREFIX);
      if r.Panic? { return; }
      sizes := sizes[r.ptr := size];
      return At(r.ptr + PREFIX);
    }

    /** The caller holds a block of `size` bytes at `p`. */
    ghost predicate Handed(p: nat, size: nat)
      reads this
    {
      && p > PREFIX && p - PREFIX in live && live[p - PREFIX] == size + PREFIX
      && p - PREFIX in sizes && sizes[p - PREFIX] == size
    }

    method Free(p: nat, ghost size: nat)
      requires Valid() && Handed(p, size) && size <= 1024
      modifies `headers, `next, `frees, `live
      ensures Valid() && live == old(live) - {p - PREFIX}
      ensures forall q, n | old(Handed(q, n)) && q != p :: Handed(q, n)
    {
      if sizes[p - PREFIX] <= 1024 {
        Kfree(p - PREFIX);
      }
    }
  }

  /** The smallest object size that fits a request. */
  ghost predicate SmallestClass(size: nat, n: nat) {
    n in Sizes() && size <= n && forall m | m in Sizes() && size <= m :: n <= m
  }

  lemma ClassIs(size: nat, i: nat)
    requires i < 6 && size <= Sizes()[i] && (i > 0 ==> size > Sizes()[i - 1])
    ensures SmallestClass(size, Sizes()[i])
  {
  }

  lemma FirstObj(s: nat, size: nat)
    ensures ObjAt(s, size, 0) == s + HEADER && Objs(s, size, 1) == [s + HEADER]
  {
    assert Objs(s, size, 0) == [];
  }

  lemma SlabInFrees(headers: map<nat, Header>, next: map<nat, nat>, caches: seq<Cache>,
                    frees: map<nat, seq<nat>>, chains: seq<seq<nat>>, live: map<nat, nat>)
    requires HeapOk(headers, next, caches, frees, chains, live)
    ensures frees.Keys == headers.Keys
  {
    assert Open(Slabs, 0);
  }

  lemma NullNotLive(headers: map<nat, Header>, next: map<nat, nat>, caches: seq<Cache>,
                    frees: map<nat, seq<nat>>, chains: seq<seq<nat>>, live: map<nat, nat>)
    requires HeapOk(headers, next, caches, frees, chains, live)
    ensures 0 !in live
  {
    if 0 in live {
      GiveOk(headers, next, caches, frees, chains, live, 0);
    }
  }
}
