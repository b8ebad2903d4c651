/** The allocator by itself: sets of free and used ranges, and what each request does to
    them.  There are no trees and no nodes here. */
module Spaces {
  import opened Machine
  import opened Options
  import opened Ranges

  datatype Space = Space(free: set<Range>, used: set<Range>)

  /** What a caller may ask for. */
  datatype Request =
    | Alloc(size: nat)
    | AllocAt(size: nat, fixed: nat, noreplace: bool)
    | Release(addr: nat, size: nat)

  /** How a request is served: an answer without any change, or a cut out of one range,
      from free to used or from used to free. */
  datatype Plan =
    | Answer(result: nat)
    | Take(from: Range, addr: nat, size: nat, result: nat)
    | Give(from: Range, addr: nat, size: nat, result: nat)

  ghost predicate Within(r: Range, a: nat) {
    r.start <= a < r.start + r.size
  }

  /** A range of the set that contains the address. */
  ghost function Holder(rs: set<Range>, a: nat): (o: Option<Range>)
    ensures o.Some? ==> o.value in rs && Within(o.value, a)
    ensures o.None? ==> forall r | r in rs :: !Within(r, a)
  {
    if exists r :: r in rs && Within(r, a) then
      var r :| r in rs && Within(r, a);
      Some(r)
    else None
  }

  ghost predicate Lowest(rs: set<Range>, z: nat, r: Range) {
    r in rs && r.size >= z && forall k | k in rs && k.size >= z :: r.start <= k.start
  }

  /** The lowest range of the set that is large enough. */
  ghost function LowestFit(rs: set<Range>, z: nat): (o: Option<Range>)
    ensures o.Some? ==> Lowest(rs, z, o.value)
    ensures o.None? ==> forall r :: !Lowest(rs, z, r)
  {
    if exists r :: Lowest(rs, z, r) then
      var r :| Lowest(rs, z, r);
      Some(r)
    else None
  }

  function CodeOf(r: Range, addr: nat, size: nat): nat {
    if addr != r.start then 3 else if size != r.size then 2 else 1
  }

  ghost function PlanOf(sp: Space, req: Request): Plan {
    match req
    case Alloc(size) => PlanAlloc(sp, size)
    case AllocAt(size, fixed, noreplace) => PlanAt(sp, AlignUp(size), fixed, noreplace)
    case Release(addr, size) => PlanRelease(sp, AlignUp(size), addr)
  }

  /** First fit. */
  ghost function PlanAlloc(sp: Space, size: nat): Plan {
    if size == 0 then Answer(0)
    else
      var r := LowestFit(sp.free, AlignUp(size));
      if r.None? then Answer(0) else Take(r.value, r.value.start, AlignUp(size), r.value.start)
  }

  /** A fixed request shrinks by the whole used range it starts in. */
  ghost function PlanAt(sp: Space, z: nat, fixed: nat, noreplace: bool): Plan {
    var u := Holder(sp.used, fixed);
    if fixed % PAGE != 0 || (noreplace && u.Some?) then Answer(0)
    else if u.None? then PlanCut(sp, fixed, z)
    else if u.value.size >= z then Answer(fixed)
    else PlanCut(sp, (fixed + u.value.size) % WORD, z - u.value.size)
  }

  ghost function PlanCut(sp: Space, at: nat, len: nat): Plan {
    var f := Holder(sp.free, at);
    if f.None? then Answer(0) else Take(f.value, at, len, at)
  }

  ghost function PlanRelease(sp: Space, z: nat, addr: nat): Plan {
    var u := Holder(sp.used, addr);
    if addr % PAGE != 0 || u.None? || u.value.start + u.value.size < (addr + z) % WORD then Answer(0)
    else Give(u.value, addr, z, CodeOf(u.value, addr, z))
  }

  /** The cut lies inside its range. */
  ghost predicate Fits(p: Plan) {
    p.Answer? || (0 < p.size && p.addr + p.size <= p.from.start + p.from.size)
  }

  ghost function Apply(sp: Space, p: Plan): Space {
    match p
    case Answer(_) => sp
    case Take(r, addr, size, _) => Space(sp.free - {r} + Rest(r, addr, size), sp.used + {Range(addr, size)})
    case Give(r, addr, size, _) => Space(sp.free + {Range(addr, size)}, sp.used - {r} + Rest(r, addr, size))
  }

  /** The space after a run of requests. */
  ghost function AfterAll(sp: Space, reqs: seq<Request>): Space {
    if reqs == [] then sp
    else
      var before := AfterAll(sp, reqs[..|reqs| - 1]);
      Apply(before, PlanOf(before, reqs[|reqs| - 1]))
  }

  ghost function Plans(sp: Space, reqs: seq<Request>): (ps: seq<Plan>)
    ensures |ps| == |reqs|
  {
    if reqs == [] then []
    else
      var k := |reqs| - 1;
      Plans(sp, reqs[..k]) + [PlanOf(AfterAll(sp, reqs[..k]), reqs[k])]
  }

  /** What a caller has to see to before a request: sizes that do not wrap, a release
      that is not empty, a fixed request that fits where it is cut out. */
  ghost predicate CallerOk(sp: Space, req: Request) {
    match req
    case Alloc(size) => size <= WORD - PAGE
    case AllocAt(size, fixed, _) => size < WORD && fixed < WORD && Fits(PlanOf(sp, req))
    case Release(addr, size) => 0 < size <= WORD - PAGE && addr + AlignUp(size) < WORD
  }

  ghost predicate InContract(sp: Space, reqs: seq<Request>) {
    forall k | 0 <= k < |reqs| :: CallerOk(AfterAll(sp, reqs[..k]), reqs[k])
  }

  /** Who owns an address after the plans have been carried out: the last one that covers
      it decides. */
  ghost predicate UsedAfter(first: bool, ps: seq<Plan>, a: nat) {
    if ps == [] then first
    else
      var p := ps[|ps| - 1];
      if !p.Answer? && p.addr <= a < p.addr + p.size then p.Take?
      else UsedAfter(first, ps[..|ps| - 1], a)
  }

  /** A caller that keeps to its part never gets a cut that does not fit. */
  lemma ContractFits(sp: Space, req: Request)
    requires CallerOk(sp, req)
    ensures Fits(PlanOf(sp, req))
  {
  }
}
