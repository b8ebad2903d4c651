/** The slab heap: pages cut into objects of one size, with a free list threaded
    through the free objects and a chain of slabs for each size. */
module Slab {
  import opened Gates
  import opened Machine
  import opened Pmm

  const HEADER := 32

  /** The header at the start of each slab. */
  datatype Header = Header(other: nat, size: nat, am: nat, objects: nat)

  datatype Cache = Cache(size: nat, slabs: nat)

  datatype Block = Panic | At(ptr: nat)

  function Sizes(): seq<nat> {
    [32, 64, 128, 256, 512, 1024]
  }

  /** The size classes: 32 bytes, and each twice the one before, up to 1024. */
  lemma SizeClasses(c: nat)
    requires c < 6
    ensures |Sizes()| == 6 && Sizes()[0] == 32 && Sizes()[5] == 1024 && (c < 5 ==> Sizes()[c + 1] == 2 * Sizes()[c])
  {
  }

  /** Objects lie side by side behind a header of 32 bytes, as many as fit the page. */
  lemma ObjectsPlaced(s: nat, size: nat, i: nat)
    requires size > 0
    ensures ObjAt(s, size, i) == s + 32 + i * size
    ensures 32 + Count(size) * size <= 4096 < 32 + Count(size) * size + size
  {
    FitsIs(PAGE - HEADER, size);
    ObjPlace(s, size, i);
  }

  lemma {:induction false} ObjPlace(s: nat, size: nat, i: nat)
    ensures ObjAt(s, size, i) == s + 32 + i * size
    decreases i
  {
    if i > 0 {
      ObjPlace(s, size, i - 1);
      assert i * size == (i - 1) * size + size;
    }
  }

  /** How many objects fit in the room: `room / size`. */
  function Fits(room: nat, size: nat): nat
    requires size > 0
    decreases room, size
  {
    if room < size then 0 else 1 + Fits(room - size, size)
  }

  lemma {:induction false} FitsIs(room: nat, size: nat)
    requires size > 0
    ensures Fits(room, size) * size <= room < Fits(room, size) * size + size
    decreases room
  {
    if room >= size {
      FitsIs(room - size, size);
      assert Fits(room, size) * size == Fits(room - size, size) * size + size;
    }
  }

  function Count(size: nat): nat
    requires size > 0
  {
    Fits(PAGE - HEADER, size)
  }

  /** Object `i` of a slab, at `HEADER + i * size` from its start. */
  function ObjAt(s: nat, size: nat, i: nat): nat {
    if i == 0 then s + HEADER else ObjAt(s, size, i - 1) + size
  }

  lemma {:induction false} ObjShift(s: nat, size: nat, i: nat)
    ensures ObjAt(s + size, size, i) == ObjAt(s, size, i + 1) && ObjAt(s, size, i) >= s + HEADER
  {
    if i > 0 { ObjShift(s, size, i - 1); }
  }

  lemma {:induction false} FitsInside(s: nat, size: nat, i: nat, room: nat)
    requires size > 0 && i < Fits(room, size)
    ensures ObjAt(s, size, i) + size <= s + HEADER + room
    decreases i
  {
    if i > 0 {
      FitsInside(s + size, size, i - 1, room - size);
      ObjShift(s, size, i - 1);
    }
  }

  lemma CountPositive(size: nat)
    requires 0 < size <= 1024
    ensures Count(size) > 0
  {
  }

  function SlabOf(p: nat): nat {
    p / PAGE * PAGE
  }

  ghost predicate IsObject(s: nat, size: nat, p: nat)
    requires size > 0
  {
    exists i: nat :: i < Count(size) && p == ObjAt(s, size, i)
  }

  /** Objects lie behind the header and inside the page. */
  lemma ObjInside(s: nat, size: nat, i: nat)
    requires size > 0 && i < Count(size) && s % PAGE == 0
    ensures s + HEADER <= ObjAt(s, size, i) && ObjAt(s, size, i) + size <= s + PAGE && SlabOf(ObjAt(s, size, i)) == s
  {
    FitsInside(s, size, i, PAGE - HEADER);
    ObjShift(s, size, i);
  }

  /** Objects of one slab do not overlap. */
  lemma {:induction false} ObjApart(s: nat, size: nat, i: nat, j: nat)
    requires i < j
    ensures ObjAt(s, size, i) + size <= ObjAt(s, size, j)
    decreases j
  {
    if i < j - 1 { ObjApart(s, size, i, j - 1); }
  }

  function Head(list: seq<nat>, k: nat): nat {
    if k < |list| then list[k] else 0
  }

  /** The list from `head` on is `list`, each element once. */
  ghost predicate Threaded(next: map<nat, nat>, head: nat, list: seq<nat>) {
    && head == Head(list, 0) && Once(list)
    && forall k | 0 <= k < |list| :: list[k] != 0 && list[k] in next && next[list[k]] == Head(list, k + 1)
  }

  lemma LinksPush(next: map<nat, nat>, head: nat, list: seq<nat>, p: nat)
    requires Threaded(next, head, list) && p != 0 && p !in list
    ensures Threaded(next[p := head], p, [p] + list)
  {
    var list', next' := [p] + list, next[p := head];
    forall k | 0 <= k < |list'| ensures list'[k] != 0 && list'[k] in next' && next'[list'[k]] == Head(list', k + 1) {
      if k > 0 { assert list'[k] == list[k - 1] && list[k - 1] in list; }
    }
  }

  lemma LinksPop(next: map<nat, nat>, head: nat, list: seq<nat>)
    requires Threaded(next, head, list) && list != []
    ensures head in next && Threaded(next, next[head], list[1..])
  {
    var list' := list[1..];
    forall k | 0 <= k < |list'| ensures list'[k] != 0 && list'[k] in next && next[list'[k]] == Head(list', k + 1) {
      assert list'[k] == list[k + 1];
    }
  }

  /** A slab's free list holds objects of the slab, and `am` counts them. */
  ghost predicate SlabOk(s: nat, h: Header, list: seq<nat>, next: map<nat, nat>) {
    && 0 < h.size <= 1024 && s % PAGE == 0 && s > 0
    && Threaded(next, h.objects, list) && h.am == |list|
    && forall k | 0 <= k < |list| :: IsObject(s, h.size, list[k])
  }

  /** The slabs of one size, in the order they are searched. */
  ghost predicate ChainOk(headers: map<nat, Header>, first: nat, size: nat, chain: seq<nat>) {
    && chain != [] && chain[0] == first && Once(chain)
    && forall k | 0 <= k < |chain| ::
         && chain[k] != 0 && chain[k] in headers
         && headers[chain[k]].size == size && headers[chain[k]].other == Head(chain, k + 1)
  }

  /** A block is handed out exactly when it is an object on no free list. */
  ghost predicate LiveOk(headers: map<nat, Header>, frees: map<nat, seq<nat>>, live: map<nat, nat>) {
    forall p ::
      && (p in live <==> SlabOf(p) in headers && SlabOf(p) in frees && headers[SlabOf(p)].size > 0
                         && IsObject(SlabOf(p), headers[SlabOf(p)].size, p) && p !in frees[SlabOf(p)])
      && (p in live ==> live[p] <= headers[SlabOf(p)].size)
  }

  ghost predicate HeapOk(headers: map<nat, Header>, next: map<nat, nat>, caches: seq<Cache>,
                         frees: map<nat, seq<nat>>, chains: seq<seq<nat>>, live: map<nat, nat>) {
    forall g {:trigger Open(Slabs, g)} | Open(Slabs, g) ::
      SlabsOk(headers, frees, next) && ChainsOk(headers, caches, chains) && LiveOk(headers, frees, live)
  }

  ghost predicate SlabsOk(headers: map<nat, Header>, frees: map<nat, seq<nat>>, next: map<nat, nat>) {
    frees.Keys == headers.Keys && forall s | s in headers :: SlabOk(s, headers[s], frees[s], next)
  }

  ghost predicate ChainsOk(headers: map<nat, Header>, caches: seq<Cache>, chains: seq<seq<nat>>) {
    && |caches| == |chains| <= 6
    && forall c | 0 <= c < |caches| ::
      caches[c].size == Sizes()[c] && ChainOk(headers, caches[c].slabs, caches[c].size, chains[c])
  }

  /** The heap's promise: live blocks have room for what was asked inside their slab's
      page, and overlap neither each other nor any slab's header. */
  lemma LiveBlocksApart(headers: map<nat, Header>, next: map<nat, nat>, caches: seq<Cache>,
                        frees: map<nat, seq<nat>>, chains: seq<seq<nat>>, live: map<nat, nat>, p: nat, q: nat, s: nat)
    requires HeapOk(headers, next, caches, frees, chains, live) && p in live && q in live && s in headers
    ensures p != q ==> p + live[p] <= q || q + live[q] <= p
    ensures s + HEADER <= p || p + live[p] <= s
    ensures SlabOf(p) in headers && SlabOf(p) + HEADER <= p && p + live[p] <= SlabOf(p) + PAGE
  {
    assert Open(Slabs, 0);
    var sp, sq := SlabOf(p), SlabOf(q);
    var i: nat :| i < Count(headers[sp].size) && p == ObjAt(sp, headers[sp].size, i);
    var j: nat :| j < Count(headers[sq].size) && q == ObjAt(sq, headers[sq].size, j);
    ObjInside(sp, headers[sp].size, i);
    ObjInside(sq, headers[sq].size, j);
    if sp == sq {
      if i < j { ObjApart(sp, headers[sp].size, i, j); }
      if j < i { ObjApart(sp, headers[sp].size, j, i); }
    }
    PagesDiffer(sp, sq);
    PagesDiffer(sp, s);
  }

  lemma PagesDiffer(s: nat, t: nat)
    requires s % PAGE == 0 && t % PAGE == 0
    ensures s == t || s + PAGE <= t || t + PAGE <= s
  {
  }

  lemma ListInSlab(s: nat, h: Header, list: seq<nat>, next: map<nat, nat>, p: nat)
    requires SlabOk(s, h, list, next) && p in list
    ensures SlabOf(p) == s && IsObject(s, h.size, p)
  {
    var k :| 0 <= k < |list| && list[k] == p;
    var i: nat :| i < Count(h.size) && p == ObjAt(s, h.size, i);
    ObjInside(s, h.size, i);
  }

  /** Slabs whose objects are not written stay as they are. */
  lemma SlabFrame(s: nat, h: Header, list: seq<nat>, next: map<nat, nat>, next': map<nat, nat>)
    requires SlabOk(s, h, list, next)
    requires forall p | p in next && SlabOf(p) == s :: p in next' && next'[p] == next[p]
    ensures SlabOk(s, h, list, next')
  {
    forall k | 0 <= k < |list| ensures SlabOf(list[k]) == s {
      assert list[k] in list;
      ListInSlab(s, h, list, next, list[k]);
    }
  }

  /** A change to a slab's own fields leaves the chains alone. */
  lemma ChainsKept(headers: map<nat, Header>, caches: seq<Cache>, chains: seq<seq<nat>>, s: nat, h: Header)
    requires ChainsOk(headers, caches, chains)
    requires s in headers ==> h.size == headers[s].size && h.other == headers[s].other
    ensures ChainsOk(headers[s := h], caches, chains)
  {
    forall c | 0 <= c < |caches| ensures ChainOk(headers[s := h], caches[c].slabs, caches[c].size, chains[c]) {
      assert ChainOk(headers, caches[c].slabs, caches[c].size, chains[c]);
    }
  }

  /** Handing out the first free object. */
  lemma TakeOk(headers: map<nat, Header>, next: map<nat, nat>, caches: seq<Cache>,
               frees: map<nat, seq<nat>>, chains: seq<seq<nat>>, live: map<nat, nat>, s: nat, n: nat)
    requires HeapOk(headers, next, caches, frees, chains, live) && s in headers && s in frees && headers[s].objects != 0
    requires n <= headers[s].size
    ensures var h, p := headers[s], headers[s].objects;
      && p in next && h.am > 0 && p !in live && SlabOf(p) == s && IsSlabObject(headers, p) && frees[s] != []
      && HeapOk(headers[s := h.(objects := next[p], am := h.am - 1)], next, caches, frees[s := frees[s][1..]], chains,
                live[p := n])
  {
    assert Open(Slabs, 0);
    var h, list, p := headers[s], frees[s], headers[s].objects;
    assert SlabOk(s, h, list, next);
    assert list != [] && p == list[0] && p in list;
    ListInSlab(s, h, list, next, p);
    SlabTaken(s, h, list, next);
    var h' := h.(objects := next[p], am := h.am - 1);
    ChainsKept(headers, caches, chains, s, h');
    LiveTaken(headers, frees, live, s, list, h', p, n);
  }

  lemma SlabTaken(s: nat, h: Header, list: seq<nat>, next: map<nat, nat>)
    requires SlabOk(s, h, list, next) && list != []
    ensures h.objects in next && h.am > 0 && SlabOk(s, h.(objects := next[h.objects], am := h.am - 1), list[1..], next)
  {
    LinksPop(next, h.objects, list);
  }

  ghost predicate IsSlabObject(headers: map<nat, Header>, p: nat) {
    SlabOf(p) in headers && headers[SlabOf(p)].size > 0 && IsObject(SlabOf(p), headers[SlabOf(p)].size, p)
  }

  lemma LiveTaken(headers: map<nat, Header>, frees: map<nat, seq<nat>>, live: map<nat, nat>, s: nat, list: seq<nat>,
                  h': Header, p: nat, n: nat)
    requires LiveOk(headers, frees, live) && s in headers && s in frees && frees[s] == list && list != [] && Once(list)
    requires p == list[0]
    requires SlabOf(p) == s && headers[s].size > 0 && IsObject(s, headers[s].size, p) && h'.size == headers[s].size
    requires n <= h'.size
    ensures LiveOk(headers[s := h'], frees[s := list[1..]], live[p := n])
  {
    assert p in list;
    forall q ensures q in list[1..] <==> q in list && q != p {
      if q in list && q != p { var k :| 0 <= k < |list| && list[k] == q; assert list[1..][k - 1] == q; }
    }
  }

  /** Taking a live block back. */
  lemma GiveOk(headers: map<nat, Header>, next: map<nat, nat>, caches: seq<Cache>,
               frees: map<nat, seq<nat>>, chains: seq<seq<nat>>, live: map<nat, nat>, p: nat)
    requires HeapOk(headers, next, caches, frees, chains, live) && p in live
    ensures var s := SlabOf(p);
      && s in headers && s in frees && p != 0
      && var h := headers[s];
         HeapOk(headers[s := h.(objects := p, am := h.am + 1)], next[p := h.objects], caches,
                frees[s := [p] + frees[s]], chains, live - {p})
  {
    assert Open(Slabs, 0);
    var s := SlabOf(p);
    var h := headers[s];
    GiveSlabs(headers, frees, next, p);
    ChainsKept(headers, caches, chains, s, h.(objects := p, am := h.am + 1));
    LiveGiven(headers, frees, live, s, h.(objects := p, am := h.am + 1), p);
  }

  lemma GiveSlabs(headers: map<nat, Header>, frees: map<nat, seq<nat>>, next: map<nat, nat>, p: nat)
    requires SlabsOk(headers, frees, next) && IsSlabObject(headers, p) && p !in frees[SlabOf(p)]
    ensures var s := SlabOf(p); var h := headers[s];
      p != 0 && SlabsOk(headers[s := h.(objects := p, am := h.am + 1)], frees[s := [p] + frees[s]],
                        next[p := h.objects])
  {
    var s := SlabOf(p);
    var h, list := headers[s], frees[s];
    var h', next' := h.(objects := p, am := h.am + 1), next[p := h.objects];
    assert SlabOk(s, h, list, next);
    var i: nat :| i < Count(h.size) && p == ObjAt(s, h.size, i);
    ObjInside(s, h.size, i);
    LinksPush(next, h.objects, list, p);
    assert SlabOk(s, h', [p] + list, next');
    forall t | t in headers && t != s
      ensures SlabOk(t, headers[t], frees[t], next')
    {
      SlabFrame(t, headers[t], frees[t], next, next');
    }
  }

  lemma LiveGiven(headers: map<nat, Header>, frees: map<nat, seq<nat>>, live: map<nat, nat>, s: nat, h': Header, p: nat)
    requires LiveOk(headers, frees, live) && s in headers && s in frees && p in live && SlabOf(p) == s
    requires h'.size == headers[s].size
    ensures LiveOk(headers[s := h'], frees[s := [p] + frees[s]], live - {p})
  {
    forall q ensures q in [p] + frees[s] <==> q == p || q in frees[s] {}
  }

  /** All objects of a slab, last first: the list a new slab starts with. */
  function Objs(s: nat, size: nat, n: nat): (r: seq<nat>)
    ensures |r| == n && forall k | 0 <= k < n :: r[k] == ObjAt(s, size, n - 1 - k)
  {
    if n == 0 then [] else [ObjAt(s, size, n - 1)] + Objs(s, size, n - 1)
  }

  lemma ObjsOnce(s: nat, size: nat, n: nat)
    requires size > 0
    ensures Once(Objs(s, size, n)) && ObjAt(s, size, n) !in Objs(s, size, n)
  {
    var r := Objs(s, size, n);
    forall j, k | 0 <= j < k < n ensures r[j] != r[k] { ObjApart(s, size, n - 1 - k, n - 1 - j); }
    forall k | 0 <= k < n ensures r[k] != ObjAt(s, size, n) { ObjApart(s, size, n - 1 - k, n); }
  }

  /** A slab with all its objects on its list. */
  ghost predicate FreshSlab(s: nat, h: Header, list: seq<nat>, next: map<nat, nat>) {
    forall g {:trigger Open(Slabs, g)} | Open(Slabs, g) ::
      SlabOk(s, h, list, next) && h.other == 0 && forall p | IsObject(s, h.size, p) :: p in list
  }

  lemma ThreadedIsFresh(s: nat, size: nat, am: nat, last: nat, next: map<nat, nat>)
    requires 0 < size <= 1024 && s % PAGE == 0 && s > 0 && am == Count(size) && Threaded(next, last, Objs(s, size, am))
    ensures FreshSlab(s, Header(0, size, am, last), Objs(s, size, am), next)
  {
    AllFree(s, size);
  }

  /** A new slab, in no chain yet: all its objects are free. */
  lemma AddSlabOk(headers: map<nat, Header>, next: map<nat, nat>, caches: seq<Cache>,
                  frees: map<nat, seq<nat>>, chains: seq<seq<nat>>, live: map<nat, nat>,
                  s: nat, h: Header, list: seq<nat>, next': map<nat, nat>)
    requires HeapOk(headers, next, caches, frees, chains, live) && s !in headers && FreshSlab(s, h, list, next')
    requires forall p | p in next && SlabOf(p) != s :: p in next' && next'[p] == next[p]
    ensures HeapOk(headers[s := h], next', caches, frees[s := list], chains, live)
  {
    assert Open(Slabs, 0);
    forall t | t in headers ensures SlabOk(t, headers[t], frees[t], next') {
      assert SlabOk(t, headers[t], frees[t], next);
      SlabFrame(t, headers[t], frees[t], next, next');
    }
    ChainsKept(headers, caches, chains, s, h);
    LiveAdded(headers, frees, live, s, h, list);
  }

  lemma AllFree(s: nat, size: nat)
    requires size > 0
    ensures forall p | IsObject(s, size, p) :: p in Objs(s, size, Count(size))
  {
    var n := Count(size);
    forall p | IsObject(s, size, p) ensures p in Objs(s, size, n) {
      var i: nat :| i < n && p == ObjAt(s, size, i);
      assert Objs(s, size, n)[n - 1 - i] == p;
    }
  }

  lemma LiveAdded(headers: map<nat, Header>, frees: map<nat, seq<nat>>, live: map<nat, nat>, s: nat, h: Header,
                  list: seq<nat>)
    requires LiveOk(headers, frees, live) && s !in headers && h.size > 0
    requires forall p | IsObject(s, h.size, p) :: p in list
    ensures LiveOk(headers[s := h], frees[s := list], live)
  {
  }

  /** Hanging it behind the last slab of its size. */
  lemma LinkOk(headers: map<nat, Header>, next: map<nat, nat>, caches: seq<Cache>,
               frees: map<nat, seq<nat>>, chains: seq<seq<nat>>, live: map<nat, nat>, c: nat, last: nat, s: nat)
    requires HeapOk(headers, next, caches, frees, chains, live) && c < |chains| && c < |caches|
    requires |chains[c]| > 0 && last == chains[c][|chains[c]| - 1] && last in headers
    requires s in headers && s != 0 && s !in chains[c] && headers[s].other == 0 && headers[s].size == caches[c].size
    ensures HeapOk(headers[last := headers[last].(other := s)], next, caches, frees, chains[c := chains[c] + [s]], live)
  {
    assert Open(Slabs, 0);
    LinkChains(headers, caches, chains, c, last, s);
    var headers' := headers[last := headers[last].(other := s)];
    assert SlabsOk(headers', frees, next) by { assert SlabOk(last, headers[last], frees[last], next); }
    assert LiveOk(headers', frees, live);
  }

  lemma LinkChains(headers: map<nat, Header>, caches: seq<Cache>, chains: seq<seq<nat>>, c: nat, last: nat, s: nat)
    requires ChainsOk(headers, caches, chains) && c < |caches| && |chains[c]| > 0 && last == chains[c][|chains[c]| - 1]
    requires last in headers
    requires s in headers && s != 0 && s !in chains[c] && headers[s].other == 0 && headers[s].size == caches[c].size
    ensures ChainsOk(headers[last := headers[last].(other := s)], caches, chains[c := chains[c] + [s]])
  {
    var headers' := headers[last := headers[last].(other := s)];
    var chain, chain' := chains[c], chains[c] + [s];
    assert ChainOk(headers, caches[c].slabs, caches[c].size, chain);
    assert last in chain;
    forall d | 0 <= d < |caches| ensures ChainOk(headers', caches[d].slabs, caches[d].size, chains[c := chain'][d]) {
      assert ChainOk(headers, caches[d].slabs, caches[d].size, chains[d]);
      if d == c {
        forall k | 0 <= k < |chain'| ensures chain'[k] in headers' && headers'[chain'[k]].other == Head(chain', k + 1) {
          if k < |chain| - 1 { assert chain[k] != last; }
        }
      } else {
        SizesDiffer(c, d);
      }
    }
  }

  lemma SizesDiffer(c: nat, d: nat)
    requires c < 6 && d < 6 && c != d
    ensures Sizes()[c] != Sizes()[d]
  {
  }

  /** A slab that starts a cache of the next size. */
  lemma CacheOk(headers: map<nat, Header>, next: map<nat, nat>, caches: seq<Cache>,
                frees: map<nat, seq<nat>>, chains: seq<seq<nat>>, live: map<nat, nat>, s: nat)
    requires HeapOk(headers, next, caches, frees, chains, live) && |caches| < 6
    requires s in headers && s != 0 && headers[s].other == 0 && headers[s].size == Sizes()[|caches|]
    ensures HeapOk(headers, next, caches + [Cache(Sizes()[|caches|], s)], frees, chains + [[s]], live)
  {
    assert Open(Slabs, 0);
  }

  lemma EmptyHeap()
    ensures HeapOk(map[], map[], [], map[], [], map[])
  {
  }

  /** What the walk along a chain may rely on. */
  lemma ChainFacts(headers: map<nat, Header>, next: map<nat, nat>, caches: seq<Cache>,
                   frees: map<nat, seq<nat>>, chains: seq<seq<nat>>, live: map<nat, nat>, c: nat, k: nat)
    requires HeapOk(headers, next, caches, frees, chains, live) && c < |caches|
    ensures |chains| == |caches| <= 6 && frees.Keys == headers.Keys && caches[c].size == Sizes()[c]
    ensures |chains[c]| > 0 && chains[c][0] == caches[c].slabs
    ensures k < |chains[c]| ==>
      && chains[c][k] in headers && headers[chains[c][k]].size == caches[c].size
      && headers[chains[c][k]].other == (if k + 1 < |chains[c]| then chains[c][k + 1] else 0)
      && (k + 1 < |chains[c]| ==> chains[c][k + 1] != 0)
    ensures forall s | s in chains[c] :: s in headers
  {
    assert Open(Slabs, 0);
    assert ChainOk(headers, caches[c].slabs, caches[c].size, chains[c]);
  }
}
