/** Whole runs of the range allocator: the trees carry out, request by request, what the
    sets of ranges in `Spaces` say. */
module VmaRun {
  import opened Gates
  import opened Machine
  import opened Options
  import opened RbShape
  import opened RbHeap
  import opened Ranges
  import opened Spaces
  import opened Vma

  ghost function SpaceAt(m: Mem, fs: set<Ptr>, us: set<Ptr>): Space {
    Space(RangesOf(m, fs), RangesOf(m, us))
  }

  /** A search among the ranges finds the range of the node that holds the address. */
  lemma HolderIs(m: Mem, xs: set<Ptr>, ys: set<Ptr>, a: nat, lo: nat, hi: nat)
    requires Partition(m, xs, ys, lo, hi)
    ensures Holds(m, xs, a) <==> Holder(RangesOf(m, xs), a).Some?
    ensures forall u | u in xs && Contains(m, u, a) :: Holder(RangesOf(m, xs), a) == Some(RangeOf(m[u]))
  {
    var o := Holder(RangesOf(m, xs), a);
    if o.Some? {
      var k :| k in xs && k in m && RangeOf(m[k]) == o.value;
      assert Contains(m, k, a);
      forall u | u in xs && Contains(m, u, a)
        ensures o == Some(RangeOf(m[u]))
      {
        SameHolder(m, xs, ys, u, k, a, lo, hi);
      }
    } else {
      forall u | u in xs ensures !Contains(m, u, a) {
        if u in m { assert RangeOf(m[u]) in RangesOf(m, xs); }
      }
    }
  }

  /** So does first fit. */
  lemma LowestIs(m: Mem, fs: set<Ptr>, us: set<Ptr>, z: nat, n: Ptr, lo: nat, hi: nat)
    requires Partition(m, fs, us, lo, hi) && FirstFit(m, fs, z, n)
    ensures LowestFit(RangesOf(m, fs), z) == Some(RangeOf(m[n]))
  {
    var rs, r := RangesOf(m, fs), RangeOf(m[n]);
    assert r in rs;
    forall x | x in rs && x.size >= z ensures r.start <= x.start {
      var k :| k in fs && k in m && RangeOf(m[k]) == x;
    }
    assert Lowest(rs, z, r);
    var o := LowestFit(rs, z);
    var k :| k in fs && k in m && RangeOf(m[k]) == o.value;
    GoodRange(m, fs, us, n, lo, hi);
    GoodRange(m, fs, us, k, lo, hi);
    SameHolder(m, fs, us, n, k, r.start, lo, hi);
  }

  lemma NoneFits(m: Mem, fs: set<Ptr>, z: nat)
    requires forall k | k in fs && k in m :: m[k].size < z
    ensures LowestFit(RangesOf(m, fs), z).None?
  {
    forall r ensures !Lowest(RangesOf(m, fs), z, r) {
      if r in RangesOf(m, fs) { var k :| k in fs && k in m && RangeOf(m[k]) == r; }
    }
  }

  /** A request was served as planned: the answer, the ranges, and who owns each address.
      The tiling survives exactly when the cut fits. */
  ghost predicate Obeys(m0: Mem, f0: set<Ptr>, u0: set<Ptr>, req: Request, result: nat,
                        m: Mem, f: set<Ptr>, u: set<Ptr>, lo: nat, hi: nat) {
    var p := PlanOf(SpaceAt(m0, f0, u0), req);
    && result == p.result && (Partition(m, f, u, lo, hi) <==> Fits(p))
    && (Fits(p) ==> SpaceAt(m, f, u) == Apply(SpaceAt(m0, f0, u0), p) && Owners(p, m0, u0, m, u))
  }

  ghost predicate Owners(p: Plan, m0: Mem, u0: set<Ptr>, m: Mem, u: set<Ptr>) {
    forall a: nat ::
      Holds(m, u, a) <==> if !p.Answer? && p.addr <= a < p.addr + p.size then p.Take? else Holds(m0, u0, a)
  }

  /** A cut out of a free range. */
  lemma TakeObeys(m0: Mem, f0: set<Ptr>, u0: set<Ptr>, req: Request, n: Ptr, addr: nat, size: nat, result: nat,
                  m: Mem, f: set<Ptr>, u: set<Ptr>, lo: nat, hi: nat)
    requires Partition(m0, f0, u0, lo, hi) && n in m0 && Carved(m0, f0, u0, n, addr, size, m, f, u, lo, hi)
    requires PlanOf(SpaceAt(m0, f0, u0), req) == Take(RangeOf(m0[n]), addr, size, result)
    ensures Obeys(m0, f0, u0, req, result, m, f, u, lo, hi)
  {
    CarvedFits(m0, f0, u0, n, addr, size, m, f, u, lo, hi);
    if 0 < size && addr + size <= End(m0[n]) { CarvedMoves(m0, f0, u0, n, addr, size, m, f, u, lo, hi); }
  }

  /** A cut out of a used range. */
  lemma GiveObeys(m0: Mem, f0: set<Ptr>, u0: set<Ptr>, req: Request, n: Ptr, addr: nat, size: nat, result: nat,
                  m: Mem, f: set<Ptr>, u: set<Ptr>, lo: nat, hi: nat)
    requires Partition(m0, f0, u0, lo, hi) && n in m0 && Carved(m0, u0, f0, n, addr, size, m, u, f, lo, hi)
    requires PlanOf(SpaceAt(m0, f0, u0), req) == Give(RangeOf(m0[n]), addr, size, result)
    ensures Obeys(m0, f0, u0, req, result, m, f, u, lo, hi)
  {
    CarvedFits(m0, u0, f0, n, addr, size, m, u, f, lo, hi);
    PartitionSwaps(m, f, u, lo, hi);
    if 0 < size && addr + size <= End(m0[n]) { CarvedMoves(m0, u0, f0, n, addr, size, m, u, f, lo, hi); }
  }

  lemma AllocPlan(m: Mem, fs: set<Ptr>, us: set<Ptr>, size: nat, n: Ptr, lo: nat, hi: nat)
    requires Partition(m, fs, us, lo, hi)
    requires n == NULL ==> size == 0 || forall k | k in fs && k in m :: m[k].size < AlignUp(size)
    requires n != NULL ==> size != 0 && FirstFit(m, fs, AlignUp(size), n)
    ensures PlanOf(SpaceAt(m, fs, us), Alloc(size)) ==
      if n == NULL then Answer(0) else Take(RangeOf(m[n]), m[n].vaddr, AlignUp(size), m[n].vaddr)
  {
    if n != NULL {
      LowestIs(m, fs, us, AlignUp(size), n, lo, hi);
    } else if size != 0 {
      NoneFits(m, fs, AlignUp(size));
    }
  }

  lemma AtPlan(m: Mem, fs: set<Ptr>, us: set<Ptr>, size: nat, fixed: nat, noreplace: bool,
               r: nat, n: Ptr, at: nat, len: nat, lo: nat, hi: nat)
    requires Partition(m, fs, us, lo, hi) && FixedPlan(m, fs, us, AlignUp(size), fixed, noreplace, r, n, at, len)
    ensures PlanOf(SpaceAt(m, fs, us), AllocAt(size, fixed, noreplace)) ==
      if n == NULL then Answer(r) else Take(RangeOf(m[n]), at, len, r)
  {
    PartitionSwap(m, fs, us, lo, hi);
    HolderIs(m, us, fs, fixed, lo, hi);
    HolderIs(m, fs, us, at, lo, hi);
    if Spans(m, us, fixed, AlignUp(size)) {
      var u :| u in us && Contains(m, u, fixed) && m[u].size >= AlignUp(size);
      assert Holds(m, us, fixed);
    } else if Holds(m, us, fixed) {
      var u :| u in us && Contains(m, u, fixed);
    }
  }

  lemma ReleaseIs(m: Mem, fs: set<Ptr>, us: set<Ptr>, addr: nat, size: nat, code: nat, n: Ptr, lo: nat, hi: nat)
    requires Partition(m, fs, us, lo, hi) && FreePlan(m, us, AlignUp(size), addr, code, n)
    ensures PlanOf(SpaceAt(m, fs, us), Release(addr, size)) ==
      if code == 0 then Answer(0) else Give(RangeOf(m[n]), addr, AlignUp(size), code)
  {
    PartitionSwap(m, fs, us, lo, hi);
    HolderIs(m, us, fs, addr, lo, hi);
  }

  /** What each request needs to be one: 64-bit sizes and addresses. */
  ghost predicate Words64(req: Request) {
    match req
    case Alloc(size) => size < WORD
    case AllocAt(size, fixed, _) => size < WORD && fixed < WORD
    case Release(addr, size) => size < WORD && addr < WORD
  }

  /** Serves one request with the allocator's own operations. */
  method Serve(pm: Pagemap, req: Request, ghost lo: nat, ghost hi: nat) returns (result: nat)
    requires pm.Valid() && pm.Tiled(lo, hi) && Words64(req)
    modifies pm.heap, pm.freeRanges, pm.usedRanges
    ensures pm.Valid()
    ensures Obeys(old(pm.heap.mem), old(Nodes(pm.freeRanges.t)), old(Nodes(pm.usedRanges.t)), req, result,
                  pm.heap.mem, Nodes(pm.freeRanges.t), Nodes(pm.usedRanges.t), lo, hi)
  {
    ghost var m0, f0, u0 := pm.heap.mem, Nodes(pm.freeRanges.t), Nodes(pm.usedRanges.t);
    ghost var n, at, len;
    match req {
      case Alloc(size) =>
        result, n := pm.Valloc(size, lo, hi);
        AllocPlan(m0, f0, u0, size, n, lo, hi);
        at, len := result, AlignUp(size);
      case AllocAt(size, fixed, noreplace) =>
        result, n, at, len := pm.VallocFixed(size, fixed, noreplace, lo, hi);
        AtPlan(m0, f0, u0, size, fixed, noreplace, result, n, at, len, lo, hi);
      case Release(addr, size) =>
        result, n := pm.Vfree(addr, size, lo, hi);
        ReleaseIs(m0, f0, u0, addr, size, result, n, lo, hi);
        if result != 0 {
          GiveObeys(m0, f0, u0, req, n, addr, AlignUp(size), result,
                    pm.heap.mem, Nodes(pm.freeRanges.t), Nodes(pm.usedRanges.t), lo, hi);
        }
        return;
    }
    if n != NULL {
      TakeObeys(m0, f0, u0, req, n, at, len, result, pm.heap.mem, Nodes(pm.freeRanges.t), Nodes(pm.usedRanges.t), lo,
                hi);
    }
  }

  /** Every address has the owner that the last plan covering it gave it. */
  ghost predicate OwnersAfter(m0: Mem, u0: set<Ptr>, ps: seq<Plan>, m: Mem, u: set<Ptr>) {
    forall a: nat :: Holds(m, u, a) <==> UsedAfter(Holds(m0, u0, a), ps, a)
  }

  lemma OwnersStep(m0: Mem, u0: set<Ptr>, ps: seq<Plan>, m1: Mem, u1: set<Ptr>, p: Plan, m: Mem, u: set<Ptr>)
    requires OwnersAfter(m0, u0, ps, m1, u1) && Owners(p, m1, u1, m, u)
    ensures OwnersAfter(m0, u0, ps + [p], m, u)
  {
    assert (ps + [p])[..|ps|] == ps;
  }

  lemma RunStep(sp: Space, reqs: seq<Request>, k: nat)
    requires k < |reqs|
    ensures var before := AfterAll(sp, reqs[..k]);
      && AfterAll(sp, reqs[..k + 1]) == Apply(before, PlanOf(before, reqs[k]))
      && Plans(sp, reqs[..k + 1]) == Plans(sp, reqs[..k]) + [PlanOf(before, reqs[k])]
  {
    assert reqs[..k + 1][..k] == reqs[..k];
  }

  /** What the first requests of a run have come to. */
  ghost predicate SoFar(sp: Space, reqs: seq<Request>, m0: Mem, u0: set<Ptr>, m: Mem, f: set<Ptr>, u: set<Ptr>,
                        results: seq<nat>) {
    forall g {:trigger Open(Running, g)} | Open(Running, g) ::
      && |results| <= |reqs| && SpaceAt(m, f, u) == AfterAll(sp, reqs[..|results|])
      && (forall j | 0 <= j < |results| :: results[j] == PlanOf(AfterAll(sp, reqs[..j]), reqs[j]).result)
      && OwnersAfter(m0, u0, Plans(sp, reqs[..|results|]), m, u)
  }

  /** In contract, the next request fits as well. */
  lemma NextFits(sp: Space, reqs: seq<Request>, m0: Mem, u0: set<Ptr>, m: Mem, f: set<Ptr>, u: set<Ptr>,
                 results: seq<nat>)
    requires SoFar(sp, reqs, m0, u0, m, f, u, results) && InContract(sp, reqs) && |results| < |reqs|
    ensures Fits(PlanOf(SpaceAt(m, f, u), reqs[|results|]))
  {
    assert Open(Running, 0);
    ContractFits(AfterAll(sp, reqs[..|results|]), reqs[|results|]);
  }

  /** One more request: `p` is its plan, which fits. */
  lemma NextRequest(sp: Space, reqs: seq<Request>, m0: Mem, u0: set<Ptr>, m1: Mem, f1: set<Ptr>, u1: set<Ptr>,
                    results: seq<nat>, p: Plan, m: Mem, f: set<Ptr>, u: set<Ptr>)
    requires SoFar(sp, reqs, m0, u0, m1, f1, u1, results) && |results| < |reqs|
    requires p == PlanOf(SpaceAt(m1, f1, u1), reqs[|results|])
    requires SpaceAt(m, f, u) == Apply(SpaceAt(m1, f1, u1), p) && Owners(p, m1, u1, m, u)
    ensures SoFar(sp, reqs, m0, u0, m, f, u, results + [p.result])
  {
    assert Open(Running, 0);
    var k := |results|;
    RunStep(sp, reqs, k);
    OwnersStep(m0, u0, Plans(sp, reqs[..k]), m1, u1, p, m, u);
    ResultsGrow(sp, reqs, results, p.result);
  }

  lemma ResultsGrow(sp: Space, reqs: seq<Request>, results: seq<nat>, result: nat)
    requires |results| < |reqs| && result == PlanOf(AfterAll(sp, reqs[..|results|]), reqs[|results|]).result
    requires forall j | 0 <= j < |results| :: results[j] == PlanOf(AfterAll(sp, reqs[..j]), reqs[j]).result
    ensures forall j | 0 <= j <= |results| :: (results + [result])[j] == PlanOf(AfterAll(sp, reqs[..j]), reqs[j]).result
  {
  }

  lemma RunStarts(sp: Space, reqs: seq<Request>, m: Mem, f: set<Ptr>, u: set<Ptr>)
    requires sp == SpaceAt(m, f, u)
    ensures SoFar(sp, reqs, m, u, m, f, u, [])
  {
  }

  /** Any run of requests: the allocator ends with the ranges and gives the answers that
      the sets of ranges say, free and used ranges still tile the interval, and an address
      is used exactly when the last request that moved it was an allocation. */
  method Run(pm: Pagemap, reqs: seq<Request>, ghost lo: nat, ghost hi: nat) returns (results: seq<nat>)
    requires pm.Valid() && pm.Tiled(lo, hi) && InContract(pm.Here(), reqs)
    requires forall k | 0 <= k < |reqs| :: Words64(reqs[k])
    modifies pm.heap, pm.freeRanges, pm.usedRanges
    ensures pm.Valid() && pm.Tiled(lo, hi) && pm.Here() == AfterAll(old(pm.Here()), reqs)
    ensures |results| == |reqs|
    ensures forall k | 0 <= k < |reqs| :: results[k] == PlanOf(AfterAll(old(pm.Here()), reqs[..k]), reqs[k]).result
    ensures OwnersAfter(old(pm.heap.mem), old(Nodes(pm.usedRanges.t)), Plans(old(pm.Here()), reqs),
                        pm.heap.mem, Nodes(pm.usedRanges.t))
  {
    ghost var sp, m0, u0 := pm.Here(), pm.heap.mem, Nodes(pm.usedRanges.t);
    results := [];
    RunStarts(sp, reqs, m0, Nodes(pm.freeRanges.t), u0);
    for k := 0 to |reqs|
      invariant pm.Valid() && pm.Tiled(lo, hi) && |results| == k
      invariant SoFar(sp, reqs, m0, u0, pm.heap.mem, Nodes(pm.freeRanges.t), Nodes(pm.usedRanges.t), results)
    {
      ghost var m1, f1, u1 := pm.heap.mem, Nodes(pm.freeRanges.t), Nodes(pm.usedRanges.t);
      NextFits(sp, reqs, m0, u0, m1, f1, u1, results);
      var result := Serve(pm, reqs[k], lo, hi);
      NextRequest(sp, reqs, m0, u0, m1, f1, u1, results, PlanOf(SpaceAt(m1, f1, u1), reqs[k]),
                  pm.heap.mem, Nodes(pm.freeRanges.t), Nodes(pm.usedRanges.t));
      results := results + [result];
    }
    RunEnds(sp, reqs, m0, u0, pm.heap.mem, Nodes(pm.freeRanges.t), Nodes(pm.usedRanges.t), results);
  }

  lemma RunEnds(sp: Space, reqs: seq<Request>, m0: Mem, u0: set<Ptr>, m: Mem, f: set<Ptr>, u: set<Ptr>,
                results: seq<nat>)
    requires SoFar(sp, reqs, m0, u0, m, f, u, results) && |results| == |reqs|
    ensures SpaceAt(m, f, u) == AfterAll(sp, reqs) && OwnersAfter(m0, u0, Plans(sp, reqs), m, u)
    ensures forall k | 0 <= k < |reqs| :: results[k] == PlanOf(AfterAll(sp, reqs[..k]), reqs[k]).result
  {
    assert Open(Running, 0);
    assert reqs[..|reqs|] == reqs;
  }

  // --- requests that break a promise ---

  /** A fixed request longer than its free range. */
  lemma OverrunPlan()
    ensures var p := PlanOf(Space({Range(0x1000, 0x2000)}, {}), AllocAt(0x4000, 0x1000, false));
      p == Take(Range(0x1000, 0x2000), 0x1000, 0x4000, 0x1000) && !Fits(p)
  {
    assert Within(Range(0x1000, 0x2000), 0x1000);
  }

  /** It is answered with success, and free and used ranges no longer tile. */
  method OverrunCorrupts(pm: Pagemap) returns (r: nat)
    requires pm.Valid() && pm.Tiled(0x1000, 0x3000) && pm.Here() == Space({Range(0x1000, 0x2000)}, {})
    modifies pm.heap, pm.freeRanges, pm.usedRanges
    ensures pm.Valid() && r == 0x1000 && !pm.Tiled(0x1000, 0x3000)
  {
    OverrunPlan();
    r := Serve(pm, AllocAt(0x4000, 0x1000, false), 0x1000, 0x3000);
  }

  /** A request of two pages that starts at the second page of a used range of two. */
  lemma OffsetPlan()
    ensures PlanOf(Space({Range(0x3000, 0x2000)}, {Range(0x1000, 0x2000)}), AllocAt(0x2000, 0x2000, false))
         == Answer(0x2000)
  {
    assert Within(Range(0x1000, 0x2000), 0x2000);
  }

  /** It is answered with success, and its second page is still free. */
  method OffsetIgnored(pm: Pagemap) returns (r: nat)
    requires pm.Valid() && pm.Tiled(0x1000, 0x5000)
    requires pm.Here() == Space({Range(0x3000, 0x2000)}, {Range(0x1000, 0x2000)})
    modifies pm.heap, pm.freeRanges, pm.usedRanges
    ensures pm.Valid() && pm.Tiled(0x1000, 0x5000) && r == 0x2000 && pm.Here() == old(pm.Here())
    ensures Holds(pm.heap.mem, Nodes(pm.freeRanges.t), 0x3000) && !Holds(pm.heap.mem, Nodes(pm.usedRanges.t), 0x3000)
  {
    OffsetPlan();
    r := Serve(pm, AllocAt(0x2000, 0x2000, false), 0x1000, 0x5000);
    FreeAt(pm, Range(0x3000, 0x2000), 0x3000, 0x1000, 0x5000);
  }

  /** A request of four pages there. */
  lemma MisplacedPlan()
    ensures var sp := Space({Range(0x3000, 0x6000)}, {Range(0x1000, 0x2000)});
      && PlanOf(sp, AllocAt(0x4000, 0x2000, false)) == Take(Range(0x3000, 0x6000), 0x4000, 0x2000, 0x4000)
      && Apply(sp, Take(Range(0x3000, 0x6000), 0x4000, 0x2000, 0x4000))
         == Space({Range(0x3000, 0x1000), Range(0x6000, 0x3000)}, {Range(0x1000, 0x2000), Range(0x4000, 0x2000)})
  {
    assert Within(Range(0x1000, 0x2000), 0x2000) && Within(Range(0x3000, 0x6000), 0x4000);
    assert AlignUp(0x4000) == 0x4000;
  }

  /** It is answered with another address than asked for, and leaves a page of the request
      free between the two used ranges, with the tiling intact. */
  method Misplaced(pm: Pagemap) returns (r: nat)
    requires pm.Valid() && pm.Tiled(0x1000, 0x9000)
    requires pm.Here() == Space({Range(0x3000, 0x6000)}, {Range(0x1000, 0x2000)})
    modifies pm.heap, pm.freeRanges, pm.usedRanges
    ensures pm.Valid() && pm.Tiled(0x1000, 0x9000) && r == 0x4000
    ensures pm.Here() == Space({Range(0x3000, 0x1000), Range(0x6000, 0x3000)},
                               {Range(0x1000, 0x2000), Range(0x4000, 0x2000)})
    ensures Holds(pm.heap.mem, Nodes(pm.freeRanges.t), 0x3000) && !Holds(pm.heap.mem, Nodes(pm.usedRanges.t), 0x3000)
  {
    MisplacedPlan();
    r := Serve(pm, AllocAt(0x4000, 0x2000, false), 0x1000, 0x9000);
    FreeAt(pm, Range(0x3000, 0x1000), 0x3000, 0x1000, 0x9000);
  }

  lemma FreeAt(pm: Pagemap, r: Range, a: nat, lo: nat, hi: nat)
    requires pm.Valid() && pm.Tiled(lo, hi) && r in pm.Here().free && Within(r, a)
    ensures Holds(pm.heap.mem, Nodes(pm.freeRanges.t), a) && !Holds(pm.heap.mem, Nodes(pm.usedRanges.t), a)
  {
    var m, fs, us := pm.heap.mem, Nodes(pm.freeRanges.t), Nodes(pm.usedRanges.t);
    var n :| n in fs && n in m && RangeOf(m[n]) == r;
    assert Contains(m, n, a);
    assert Open(Tiling, 0);
    HeldOnce(m, fs, us, a);
  }

  /** The states the last two start from are reached: a fresh address space of which two
      pages are taken. */
  method Started(hi: nat) returns (pm: Pagemap)
    requires 0x3000 < hi < WORD && hi % PAGE == 0
    ensures fresh(pm.heap) && fresh(pm.freeRanges) && fresh(pm.usedRanges)
    ensures pm.Valid() && pm.Tiled(0x1000, hi)
    ensures pm.Here() == Space({Range(0x3000, hi - 0x3000)}, {Range(0x1000, 0x2000)})
  {
    pm := new Pagemap(0x1000, hi);
    StartedPlan(hi);
    var r := Serve(pm, Alloc(0x2000), 0x1000, hi);
  }

  lemma StartedPlan(hi: nat)
    requires 0x3000 < hi
    ensures var sp := Space({Range(0x1000, hi - 0x1000)}, {});
            var p := Take(Range(0x1000, hi - 0x1000), 0x1000, 0x2000, 0x1000);
            && PlanOf(sp, Alloc(0x2000)) == p && Fits(p)
            && Apply(sp, p) == Space({Range(0x3000, hi - 0x3000)}, {Range(0x1000, 0x2000)})
  {
    var r := Range(0x1000, hi - 0x1000);
    assert AlignUp(0x2000) == 0x2000;
    assert Lowest({r}, 0x2000, r);
  }
}
