/** Loading an executable: every loadable segment is copied, page by page, into fresh
    frames that are mapped where the segment belongs. */
module Elf {
  import opened Gates
  import opened Words
  import opened Machine
  import opened PhysMem
  import opened Options
  import opened Pmm
  import opened Pte
  import opened PageTable
  import opened Vmm
  import Addressing

  const LOW_END := 0x8000_0000_0000

  datatype Segment = Segment(load: bool, virt: nat, offset: nat, fileSize: nat, memSize: nat, alignment: nat,
                             write: bool, exec: bool)

  function PteFlags(s: Segment): nat {
    var f := Or(PRESENT, USER);
    var f := if s.write then Or(f, WRITABLE) else f;
    if s.exec then f else Or(f, NX)
  }

  /** What a segment's pages let through: users always; writing and executing as the
      segment says. */
  function SegmentRights(s: Segment): Rights {
    Rights(true, s.write, !s.exec)
  }

  /** The flags stay out of the address bits and mean those rights. */
  lemma FlagsFit(s: Segment)
    ensures FlagsOk(PteFlags(s)) && RightsOf(PteFlags(s)) == SegmentRights(s)
  {
    FlagsClear(s);
    SingleRights();
    var f := Or(PRESENT, USER);
    OrRights(PRESENT, USER);
    OrRights(f, WRITABLE);
    OrRights(if s.write then Or(f, WRITABLE) else f, NX);
  }

  lemma FlagsClear(s: Segment)
    ensures FlagsOk(PteFlags(s))
  {
    NxMasked();
    MaskSmall(PRESENT);
    MaskSmall(USER);
    MaskSmall(WRITABLE);
    OrIsZero(0);
    var f := Or(PRESENT, USER);
    AndOr(PRESENT, USER, MASK);
    EntryBound(PRESENT, USER);
    AndOr(f, WRITABLE, MASK);
    EntryBound(f, WRITABLE);
    var g := if s.write then Or(f, WRITABLE) else f;
    AndOr(g, NX, MASK);
    EntryBound(g, NX);
  }

  /** The page the segment starts in. */
  function Base(s: Segment): nat {
    s.virt / PAGE * PAGE
  }

  /** The address the loader starts at. */
  function AlignDown(virt: nat, alignment: nat): nat {
    if alignment > 1 then virt / alignment * alignment else virt
  }

  function PageCount(s: Segment): nat {
    (s.virt + s.memSize + (PAGE - 1)) / PAGE - s.virt / PAGE
  }

  /** What the loader relies on: the segment is aligned to pages, inside the file and
      in the lower half, and no longer in the file than in memory. */
  ghost predicate SegmentOk(file: seq<Byte>, s: Segment) {
    && (s.alignment == PAGE || (s.alignment <= 1 && s.virt % PAGE == 0))
    && s.fileSize <= s.memSize && s.offset + s.fileSize <= |file| && s.virt + s.memSize + PAGE <= LOW_END
  }

  /** The byte that belongs at an address: from the file, or zero. */
  function ByteAt(file: seq<Byte>, s: Segment, a: nat): Byte
    requires s.offset + s.fileSize <= |file|
  {
    if s.virt <= a < s.virt + s.fileSize then file[s.offset + (a - s.virt)] else 0
  }

  function PageAt(file: seq<Byte>, s: Segment, a: nat): (f: Frame)
    requires s.offset + s.fileSize <= |file|
    ensures |f| == PAGE && forall o | 0 <= o < PAGE :: f[o] == ByteAt(file, s, a + o)
  {
    seq<Byte>(PAGE, o requires 0 <= o < PAGE => ByteAt(file, s, a + o))
  }

  /** A page is mapped with these rights to a frame that holds just these bytes. */
  ghost predicate Holding(mem: Mem, tabs: map<Slot, nat>, used: set<nat>, root: nat, p: Path, bytes: Frame,
                          rights: Rights) {
    && |p| == 4 && Leaf(mem, tabs, root, p).Some? && RightsOf(Leaf(mem, tabs, root, p).value) == rights
    && var f := AddrOf(Leaf(mem, tabs, root, p).value);
       f in used && f in mem && f !in tabs.Values && mem[f] == bytes
  }

  /** Other pages of the address space still hold what they held. */
  ghost predicate OthersHold(mem: Mem, tabs: map<Slot, nat>, used: set<nat>, mem': Mem, tabs': map<Slot, nat>,
                             used': set<nat>, root: nat, p: Path) {
    forall q: Path, bytes: Frame, rights: Rights | q != p && Holding(mem, tabs, used, root, q, bytes, rights) ::
      Holding(mem', tabs', used', root, q, bytes, rights)
  }

  /** Allocates a frame, maps it, and fills it. */
  method LoadPage(mmu: Mmu, root: nat, virt: nat, flags: nat, bytes: Frame) returns (ok: bool)
    requires mmu.Valid() && root in mmu.roots && FlagsOk(flags) && PathOf(virt)[0] < 256 && |bytes| == PAGE
    modifies mmu`tabs, mmu.pmm
    ensures mmu.Valid() && (!ok ==> mmu.OutOfMemory())
    ensures ok ==>
      Holding(mmu.pmm.mem, mmu.tabs, mmu.pmm.UsedFrames(), root, PathOf(virt), bytes, RightsOf(flags))
    ensures ok ==> OthersHold(old(mmu.pmm.mem), old(mmu.tabs), old(mmu.pmm.UsedFrames()),
                              mmu.pmm.mem, mmu.tabs, mmu.pmm.UsedFrames(), root, PathOf(virt))
    ensures ok ==> OnlyPages(old(mmu.pmm.mem), old(mmu.tabs), mmu.pmm.mem, mmu.tabs, mmu.roots, root, {PathOf(virt)})
  {
    var pmm := mmu.pmm;
    ghost var mem0, tabs0, used0 := pmm.mem, mmu.tabs, pmm.UsedFrames();
    var page := mmu.Fresh();
    if page.None? { return false; }
    ghost var mem1, used1 := pmm.mem, pmm.UsedFrames();
    ok := mmu.MapPage(root, virt, page.value, flags);
    if !ok { return false; }
    MaskFrame(page.value);
    EntryRights(Leaf(pmm.mem, mmu.tabs, root, PathOf(virt)).value, page.value, flags);
    ghost var mem2, tabs2, used2 := pmm.mem, mmu.tabs, pmm.UsedFrames();
    FillOk(mem2, mmu.roots, tabs2, used2, page.value, bytes);
    pmm.Store(page.value, bytes);
    PageLoaded(mem0, tabs0, used0, mem1, used1, mem2, tabs2, used2, mmu.roots, root, PathOf(virt), page.value, bytes,
               RightsOf(flags));
    OnePage(mem0, tabs0, mem1, mem2, tabs2, mmu.roots, root, PathOf(virt), page.value, bytes);
  }

  /** Only these pages of one address space are mapped differently. */
  ghost predicate OnlyPages(mem0: Mem, tabs0: map<Slot, nat>, mem: Mem, tabs: map<Slot, nat>, roots: set<nat>,
                            root: nat, ps: set<Path>) {
    forall g {:trigger Open(Backing, g)} | Open(Backing, g) ::
      && SameDoors(mem0, tabs0, mem, roots) && (forall s | s in tabs0 :: s in tabs)
      && forall r, q: Path | r in roots && |q| == 4 && (r != root || q !in ps) ::
           Leaf(mem, tabs, r, q) == Leaf(mem0, tabs0, r, q)
  }

  lemma OnePage(mem0: Mem, tabs0: map<Slot, nat>, mem1: Mem, mem2: Mem, tabs2: map<Slot, nat>, roots: set<nat>,
                root: nat, p: Path, f: nat, bytes: Frame)
    requires |p| == 4 && p[0] < 256 && SameMaps(mem0, tabs0, mem1, tabs0, roots)
    requires SameButAt(mem1, tabs0, mem2, tabs2, roots, root, p) && (forall s | s in tabs0 :: s in tabs2)
    requires SameDoors(mem2, tabs2, mem2[f := bytes], roots)
    requires forall r, q: Path | |q| == 4 :: Leaf(mem2[f := bytes], tabs2, r, q) == Leaf(mem2, tabs2, r, q)
    ensures OnlyPages(mem0, tabs0, mem2[f := bytes], tabs2, roots, root, {p})
  {
    forall r, q: Path | r in roots && |q| == 4 && (r != root || q != p)
      ensures Leaf(mem2[f := bytes], tabs2, r, q) == Leaf(mem0, tabs0, r, q)
    {
      assert SlotOf(r, q) != SlotOf(root, p);
      assert Leaf(mem2, tabs2, r, q) == Leaf(mem1, tabs0, r, q) == Leaf(mem0, tabs0, r, q);
    }
  }

  /** Changes in a row. */
  lemma MorePages(mem0: Mem, tabs0: map<Slot, nat>, mem1: Mem, tabs1: map<Slot, nat>, mem: Mem, tabs: map<Slot, nat>,
                  roots: set<nat>, root: nat, ps: set<Path>, qs: set<Path>)
    requires OnlyPages(mem0, tabs0, mem1, tabs1, roots, root, ps) && OnlyPages(mem1, tabs1, mem, tabs, roots, root, qs)
    ensures OnlyPages(mem0, tabs0, mem, tabs, roots, root, ps + qs)
  {
    assert Open(Backing, 0);
    forall r, q: Path | r in roots && |q| == 4 && (r != root || q !in ps + qs)
      ensures Leaf(mem, tabs, r, q) == Leaf(mem0, tabs0, r, q)
    {
      assert Leaf(mem1, tabs1, r, q) == Leaf(mem0, tabs0, r, q);
    }
  }

  /** The first pages of a segment. */
  ghost function PathsOf(s: Segment, count: nat): set<Path> {
    if count == 0 then {} else PathsOf(s, count - 1) + {PathOf(Base(s) + PAGE * (count - 1))}
  }

  /** Those of the first loadable segments. */
  ghost function AllPaths(segs: seq<Segment>, n: nat): set<Path>
    requires n <= |segs|
  {
    if n == 0 then {}
    else AllPaths(segs, n - 1) + if segs[n - 1].load then PathsOf(segs[n - 1], PageCount(segs[n - 1])) else {}
  }

  /** Writing to a frame that is no table disturbs no translation. */
  lemma FillOk(mem: Mem, roots: set<nat>, tabs: map<Slot, nat>, used: set<nat>, f: nat, bytes: Frame)
    requires WellMapped(mem, roots, tabs, used) && f !in tabs.Values
    ensures WellMapped(mem[f := bytes], roots, tabs, used) && SameDoors(mem, tabs, mem[f := bytes], roots)
    ensures forall r, q: Path | |q| == 4 :: Leaf(mem[f := bytes], tabs, r, q) == Leaf(mem, tabs, r, q)
  {
    TablesOnly(mem, mem[f := bytes], roots, tabs, used);
  }

  lemma PageLoaded(mem0: Mem, tabs0: map<Slot, nat>, used0: set<nat>, mem1: Mem, used1: set<nat>,
                   mem2: Mem, tabs2: map<Slot, nat>, used2: set<nat>,
                   roots: set<nat>, root: nat, p: Path, f: nat, bytes: Frame, rights: Rights)
    requires root in roots && |p| == 4 && p[0] < 256 && f !in used0 && Blank(mem1, tabs0, used1, f)
    requires SameMaps(mem0, tabs0, mem1, tabs0, roots) && Kept(mem0, used0, tabs0, mem1, tabs0)
    requires used0 <= used1 <= used2
    requires SameButAt(mem1, tabs0, mem2, tabs2, roots, root, p) && Kept(mem1, used1, tabs0, mem2, tabs2)
    requires Translate(mem2, tabs2, root, p) == Some(f) && RightsOf(Leaf(mem2, tabs2, root, p).value) == rights
    requires forall r, q: Path | |q| == 4 :: Leaf(mem2[f := bytes], tabs2, r, q) == Leaf(mem2, tabs2, r, q)
    ensures Holding(mem2[f := bytes], tabs2, used2, root, p, bytes, rights)
    ensures OthersHold(mem0, tabs0, used0, mem2[f := bytes], tabs2, used2, root, p)
  {
    forall q: Path, b: Frame, x: Rights | q != p && Holding(mem0, tabs0, used0, root, q, b, x)
      ensures Holding(mem2[f := bytes], tabs2, used2, root, q, b, x)
    {
      assert SlotOf(root, q) != SlotOf(root, p);
      assert Leaf(mem1, tabs0, root, q) == Leaf(mem0, tabs0, root, q);
    }
  }

  /** Every page of the segment so far is in place. */
  ghost predicate PagesHold(mem: Mem, tabs: map<Slot, nat>, used: set<nat>, root: nat, file: seq<Byte>, s: Segment,
                            count: nat)
    requires s.offset + s.fileSize <= |file|
  {
    forall j | 0 <= j < count :: PageHolds(mem, tabs, used, root, file, s, j)
  }

  /** Page `j` of the segment is in place. */
  ghost predicate PageHolds(mem: Mem, tabs: map<Slot, nat>, used: set<nat>, root: nat, file: seq<Byte>, s: Segment,
                            j: nat)
    requires s.offset + s.fileSize <= |file|
  {
    var a := Base(s) + PAGE * j;
    Holding(mem, tabs, used, root, PathOf(a), PageAt(file, s, a), SegmentRights(s))
  }

  /** The bytes the loader puts in the page at `a`: padding, file bytes, padding. */
  lemma PageContent(file: seq<Byte>, s: Segment, p: nat, offset: nat, copied: nat, toCopy: nat)
    requires SegmentOk(file, s) && p < PageCount(s)
    requires offset == (if p == 0 then s.virt - Base(s) else 0) && copied == Copied(s, p)
    requires toCopy == Min(s.fileSize - copied, PAGE - offset)
    ensures 0 <= offset < PAGE && 0 <= copied <= s.fileSize && toCopy >= 0
    ensures Zeros(offset) + file[s.offset + copied..s.offset + copied + toCopy] + Zeros(PAGE - offset - toCopy)
      == PageAt(file, s, Base(s) + PAGE * p)
    ensures copied + toCopy == Copied(s, p + 1)
  {
    var a := Base(s) + PAGE * p;
    var bytes := Zeros(offset) + file[s.offset + copied..s.offset + copied + toCopy] + Zeros(PAGE - offset - toCopy);
    forall o | 0 <= o < PAGE ensures bytes[o] == ByteAt(file, s, a + o) {
    }
  }

  function Min(x: int, y: int): int {
    if x < y then x else y
  }

  /** File bytes that lie before page `p`. */
  function Copied(s: Segment, p: nat): int {
    if p == 0 then 0 else Min(s.fileSize, Base(s) + PAGE * p - s.virt)
  }

  /** Pages outside the segment still hold what they held. */
  ghost predicate Elsewhere(mem: Mem, tabs: map<Slot, nat>, used: set<nat>, mem': Mem, tabs': map<Slot, nat>,
                            used': set<nat>, root: nat, s: Segment) {
    forall q: Path, bytes: Frame, x: Rights | OffSegment(s, q) && Holding(mem, tabs, used, root, q, bytes, x) ::
      Holding(mem', tabs', used', root, q, bytes, x)
  }

  /** The first pages of the segment are in place, and nothing else has changed. */
  ghost predicate Progress(mem0: Mem, tabs0: map<Slot, nat>, used0: set<nat>, mem: Mem, tabs: map<Slot, nat>,
                           used: set<nat>, root: nat, file: seq<Byte>, s: Segment, p: nat)
    requires s.offset + s.fileSize <= |file|
  {
    forall g {:trigger Open(Loaded, g)} | Open(Loaded, g) ::
      Elsewhere(mem0, tabs0, used0, mem, tabs, used, root, s) && PagesHold(mem, tabs, used, root, file, s, p)
  }

  lemma NextPage(mem0: Mem, tabs0: map<Slot, nat>, used0: set<nat>, mem1: Mem, tabs1: map<Slot, nat>, used1: set<nat>,
                 mem: Mem, tabs: map<Slot, nat>, used: set<nat>, root: nat, file: seq<Byte>, s: Segment, p: nat)
    requires SegmentOk(file, s) && p < PageCount(s)
    requires Progress(mem0, tabs0, used0, mem1, tabs1, used1, root, file, s, p)
    requires OthersHold(mem1, tabs1, used1, mem, tabs, used, root, PathOf(Base(s) + PAGE * p))
    requires PageHolds(mem, tabs, used, root, file, s, p)
    requires forall j | 0 <= j < p :: PathOf(Base(s) + PAGE * j) != PathOf(Base(s) + PAGE * p)
    ensures Progress(mem0, tabs0, used0, mem, tabs, used, root, file, s, p + 1)
  {
    assert Open(Loaded, 0);
    forall q: Path, bytes: Frame, x: Rights | OffSegment(s, q) && Holding(mem0, tabs0, used0, root, q, bytes, x)
      ensures Holding(mem, tabs, used, root, q, bytes, x)
    {
      assert q != PathOf(Base(s) + PAGE * p);
      assert Holding(mem1, tabs1, used1, root, q, bytes, x);
    }
    forall j | 0 <= j < p + 1 ensures PageHolds(mem, tabs, used, root, file, s, j) {
      if j < p { KeepEarlier(mem1, tabs1, used1, mem, tabs, used, root, file, s, p, j); }
    }
  }

  lemma KeepEarlier(mem1: Mem, tabs1: map<Slot, nat>, used1: set<nat>, mem: Mem, tabs: map<Slot, nat>, used: set<nat>,
                    root: nat, file: seq<Byte>, s: Segment, p: nat, j: nat)
    requires s.offset + s.fileSize <= |file| && PathOf(Base(s) + PAGE * j) != PathOf(Base(s) + PAGE * p)
    requires OthersHold(mem1, tabs1, used1, mem, tabs, used, root, PathOf(Base(s) + PAGE * p))
    requires PageHolds(mem1, tabs1, used1, root, file, s, j)
    ensures PageHolds(mem, tabs, used, root, file, s, j)
  {
  }

  /** The same, and no other page of any address space is mapped differently. */
  ghost predicate Loading(mem0: Mem, tabs0: map<Slot, nat>, used0: set<nat>, mem: Mem, tabs: map<Slot, nat>,
                          used: set<nat>, roots: set<nat>, root: nat, file: seq<Byte>, s: Segment, p: nat)
    requires s.offset + s.fileSize <= |file|
  {
    forall g {:trigger Open(Running, g)} | Open(Running, g) ::
      && Progress(mem0, tabs0, used0, mem, tabs, used, root, file, s, p)
      && OnlyPages(mem0, tabs0, mem, tabs, roots, root, PathsOf(s, p))
  }

  lemma Placed(mem0: Mem, tabs0: map<Slot, nat>, used0: set<nat>, mem1: Mem, tabs1: map<Slot, nat>, used1: set<nat>,
               mem: Mem, tabs: map<Slot, nat>, used: set<nat>, roots: set<nat>, root: nat, file: seq<Byte>, s: Segment,
               p: nat)
    requires SegmentOk(file, s) && p < PageCount(s)
    requires Loading(mem0, tabs0, used0, mem1, tabs1, used1, roots, root, file, s, p)
    requires OthersHold(mem1, tabs1, used1, mem, tabs, used, root, PathOf(Base(s) + PAGE * p))
    requires OnlyPages(mem1, tabs1, mem, tabs, roots, root, {PathOf(Base(s) + PAGE * p)})
    requires PageHolds(mem, tabs, used, root, file, s, p)
    ensures Loading(mem0, tabs0, used0, mem, tabs, used, roots, root, file, s, p + 1)
  {
    assert Open(Running, 0);
    PathsApart(s, p);
    NextPage(mem0, tabs0, used0, mem1, tabs1, used1, mem, tabs, used, root, file, s, p);
    MorePages(mem0, tabs0, mem1, tabs1, mem, tabs, roots, root, PathsOf(s, p), {PathOf(Base(s) + PAGE * p)});
    assert PathsOf(s, p + 1) == PathsOf(s, p) + {PathOf(Base(s) + PAGE * p)};
  }

  /** Nothing is loaded yet. */
  lemma NotLoaded(mem: Mem, tabs: map<Slot, nat>, used: set<nat>, roots: set<nat>, root: nat, file: seq<Byte>,
                  s: Segment)
    requires s.offset + s.fileSize <= |file|
    ensures Loading(mem, tabs, used, mem, tabs, used, roots, root, file, s, 0)
  {
  }

  /** Loads one page of a segment. */
  method LoadNext(mmu: Mmu, root: nat, file: seq<Byte>, s: Segment, p: nat, current: nat, src: nat, remaining: nat,
                  ghost mem0: Mem, ghost tabs0: map<Slot, nat>, ghost used0: set<nat>)
    returns (ok: bool, toCopy: nat)
    requires mmu.Valid() && root in mmu.roots && SegmentOk(file, s) && p < PageCount(s) && current == Base(s) + PAGE * p
    requires src == s.offset + Copied(s, p) && remaining == s.fileSize - Copied(s, p)
    requires Loading(mem0, tabs0, used0, mmu.pmm.mem, mmu.tabs, mmu.pmm.UsedFrames(), mmu.roots, root, file, s, p)
    modifies mmu`tabs, mmu.pmm
    ensures mmu.Valid() && (!ok ==> mmu.OutOfMemory())
    ensures toCopy == Copied(s, p + 1) - Copied(s, p) && toCopy <= remaining
    ensures ok ==>
      Loading(mem0, tabs0, used0, mmu.pmm.mem, mmu.tabs, mmu.pmm.UsedFrames(), mmu.roots, root, file, s, p + 1)
  {
    var offset := if p == 0 then s.virt - AlignDown(s.virt, s.alignment) else 0;
    var space := PAGE - offset;
    toCopy := if remaining < space then remaining else space;
    PageContent(file, s, p, offset, Copied(s, p), toCopy);
    var bytes := Zeros(offset) + file[src..src + toCopy] + Zeros(space - toCopy);
    ok := PlacePage(mmu, root, file, s, p, current, bytes, mem0, tabs0, used0);
  }

  /** Puts the next page of a segment in its place. */
  method PlacePage(mmu: Mmu, root: nat, ghost file: seq<Byte>, s: Segment, ghost p: nat, current: nat, bytes: Frame,
                   ghost mem0: Mem, ghost tabs0: map<Slot, nat>, ghost used0: set<nat>)
    returns (ok: bool)
    requires mmu.Valid() && root in mmu.roots && SegmentOk(file, s) && p < PageCount(s) && current == Base(s) + PAGE * p
    requires bytes == PageAt(file, s, current)
    requires Loading(mem0, tabs0, used0, mmu.pmm.mem, mmu.tabs, mmu.pmm.UsedFrames(), mmu.roots, root, file, s, p)
    modifies mmu`tabs, mmu.pmm
    ensures mmu.Valid() && (!ok ==> mmu.OutOfMemory())
    ensures ok ==>
      Loading(mem0, tabs0, used0, mmu.pmm.mem, mmu.tabs, mmu.pmm.UsedFrames(), mmu.roots, root, file, s, p + 1)
  {
    PathsApart(s, p);
    FlagsFit(s);
    ghost var mem1, tabs1, used1 := mmu.pmm.mem, mmu.tabs, mmu.pmm.UsedFrames();
    ok := LoadPage(mmu, root, current, PteFlags(s), bytes);
    if ok {
      Placed(mem0, tabs0, used0, mem1, tabs1, used1, mmu.pmm.mem, mmu.tabs, mmu.pmm.UsedFrames(), mmu.roots,
             root, file, s, p);
    }
  }

  /** Loads one segment. */
  method LoadSegment(mmu: Mmu, root: nat, file: seq<Byte>, s: Segment) returns (ok: bool)
    requires mmu.Valid() && root in mmu.roots && SegmentOk(file, s)
    modifies mmu`tabs, mmu.pmm
    ensures mmu.Valid() && (!ok ==> mmu.OutOfMemory())
    ensures ok ==>
      Loading(old(mmu.pmm.mem), old(mmu.tabs), old(mmu.pmm.UsedFrames()), mmu.pmm.mem, mmu.tabs, mmu.pmm.UsedFrames(),
              mmu.roots, root, file, s, PageCount(s))
  {
    ghost var mem0, tabs0, used0 := mmu.pmm.mem, mmu.tabs, mmu.pmm.UsedFrames();
    NotLoaded(mem0, tabs0, used0, mmu.roots, root, file, s);
    var current, src, remaining := AlignDown(s.virt, s.alignment), s.offset, s.fileSize;
    var count := PageCount(s);
    for p := 0 to count
      invariant mmu.Valid() && current == Base(s) + PAGE * p
      invariant src == s.offset + Copied(s, p) && remaining == s.fileSize - Copied(s, p)
      invariant Loading(mem0, tabs0, used0, mmu.pmm.mem, mmu.tabs, mmu.pmm.UsedFrames(), mmu.roots, root, file, s, p)
    {
      var toCopy;
      ok, toCopy := LoadNext(mmu, root, file, s, p, current, src, remaining, mem0, tabs0, used0);
      if !ok { return false; }
      src, remaining, current := src + toCopy, remaining - toCopy, current + PAGE;
    }
    return true;
  }

  /** The page is none of the segment's. */
  ghost predicate OffSegment(s: Segment, q: Path) {
    forall j | 0 <= j < PageCount(s) :: q != PathOf(Base(s) + PAGE * j)
  }

  lemma PathsApart(s: Segment, p: nat)
    requires s.virt + s.memSize + PAGE <= LOW_END && p < PageCount(s)
    ensures PathOf(Base(s) + PAGE * p)[0] < 256
    ensures forall j | 0 <= j < p :: PathOf(Base(s) + PAGE * j) != PathOf(Base(s) + PAGE * p)
  {
    forall j | 0 <= j < p ensures PathOf(Base(s) + PAGE * j) != PathOf(Base(s) + PAGE * p) {
      LowPaths(Base(s) + PAGE * j, Base(s) + PAGE * p);
    }
  }

  /** In the lower half, different pages have different paths. */
  lemma LowPaths(v: nat, w: nat)
    requires v < LOW_END && w < LOW_END
    ensures PathOf(v) == PathOf(w) <==> v / PAGE == w / PAGE
    ensures PathOf(v)[0] < 256
  {
    PathOnce(v, w);
    LowIndex(v);
    LowIndex(w);
  }

  lemma LowIndex(v: nat)
    requires v < LOW_END
    ensures v / 0x80_0000_0000 < 256 && v / PAGE % 0x10_0000_0000 == v / PAGE
  {
  }

  /** What the processor finds at one address: a byte, and what may be done with it. */
  datatype Sight = Fault | Sight(byte: Byte, rights: Rights)

  ghost function See(mem: Mem, root: nat, v: nat): Sight {
    var t := Addressing.Hardware(mem, root, v, 3);
    if t.Some? && t.value.frame in mem && |mem[t.value.frame]| == PAGE
    then Sight(mem[t.value.frame][v % PAGE], t.value.rights)
    else Fault
  }

  /** Two segments share no page. */
  ghost predicate PagesApart(s: Segment, s': Segment) {
    Base(s) + PAGE * PageCount(s) <= Base(s') || Base(s') + PAGE * PageCount(s') <= Base(s)
  }

  ghost predicate SegmentsOk(file: seq<Byte>, segs: seq<Segment>) {
    && (forall i | 0 <= i < |segs| && segs[i].load :: SegmentOk(file, segs[i]))
    && (forall i, j | 0 <= i < j < |segs| && segs[i].load && segs[j].load :: PagesApart(segs[i], segs[j]))
  }

  /** The first segments are in memory. */
  ghost predicate SegmentsHold(mem: Mem, tabs: map<Slot, nat>, used: set<nat>, root: nat, file: seq<Byte>,
                               segs: seq<Segment>, n: nat)
    requires SegmentsOk(file, segs) && n <= |segs|
  {
    forall i | 0 <= i < n && segs[i].load :: PagesHold(mem, tabs, used, root, file, segs[i], PageCount(segs[i]))
  }

  lemma OtherSegment(file: seq<Byte>, s: Segment, s': Segment, j: nat)
    requires SegmentOk(file, s) && SegmentOk(file, s') && PagesApart(s, s') && j < PageCount(s)
    ensures OffSegment(s', PathOf(Base(s) + PAGE * j))
  {
    forall k | 0 <= k < PageCount(s') ensures PathOf(Base(s) + PAGE * j) != PathOf(Base(s') + PAGE * k) {
      LowPaths(Base(s) + PAGE * j, Base(s') + PAGE * k);
      PageNumbers(s, j);
      PageNumbers(s', k);
    }
  }

  lemma PageNumbers(s: Segment, j: nat)
    requires s.virt + s.memSize + PAGE <= LOW_END
    ensures (Base(s) + PAGE * j) / PAGE == s.virt / PAGE + j
    ensures j < PageCount(s) ==> Base(s) + PAGE * j < LOW_END
  {
  }

  lemma NextSegment(mem0: Mem, tabs0: map<Slot, nat>, used0: set<nat>, mem: Mem, tabs: map<Slot, nat>, used: set<nat>,
                    root: nat, file: seq<Byte>, segs: seq<Segment>, n: nat)
    requires SegmentsOk(file, segs) && n < |segs| && segs[n].load
    requires SegmentsHold(mem0, tabs0, used0, root, file, segs, n)
    requires Progress(mem0, tabs0, used0, mem, tabs, used, root, file, segs[n], PageCount(segs[n]))
    ensures SegmentsHold(mem, tabs, used, root, file, segs, n + 1)
  {
    assert Open(Loaded, 0);
    forall i | 0 <= i < n && segs[i].load ensures PagesHold(mem, tabs, used, root, file, segs[i], PageCount(segs[i])) {
      assert PagesApart(segs[i], segs[n]);
      KeepSegment(mem0, tabs0, used0, mem, tabs, used, root, file, segs[i], segs[n]);
    }
  }

  lemma KeepSegment(mem0: Mem, tabs0: map<Slot, nat>, used0: set<nat>, mem: Mem, tabs: map<Slot, nat>, used: set<nat>,
                    root: nat, file: seq<Byte>, s: Segment, s': Segment)
    requires SegmentOk(file, s) && SegmentOk(file, s') && PagesApart(s, s')
    requires PagesHold(mem0, tabs0, used0, root, file, s, PageCount(s))
    requires Elsewhere(mem0, tabs0, used0, mem, tabs, used, root, s')
    ensures PagesHold(mem, tabs, used, root, file, s, PageCount(s))
  {
    forall j | 0 <= j < PageCount(s) ensures PageHolds(mem, tabs, used, root, file, s, j) {
      OtherSegment(file, s, s', j);
      KeepPage(mem0, tabs0, used0, mem, tabs, used, root, file, s, s', j);
    }
  }

  lemma KeepPage(mem0: Mem, tabs0: map<Slot, nat>, used0: set<nat>, mem: Mem, tabs: map<Slot, nat>, used: set<nat>,
                 root: nat, file: seq<Byte>, s: Segment, s': Segment, j: nat)
    requires s.offset + s.fileSize <= |file| && OffSegment(s', PathOf(Base(s) + PAGE * j))
    requires PageHolds(mem0, tabs0, used0, root, file, s, j)
    requires Elsewhere(mem0, tabs0, used0, mem, tabs, used, root, s')
    ensures PageHolds(mem, tabs, used, root, file, s, j)
  {
  }

  /** Every address of the segment reads as its byte of the file, or as zero, and may be
      used as the segment says: by users, for writing if it is writable, for executing if
      it is executable. */
  ghost predicate SegmentReads(mem: Mem, root: nat, file: seq<Byte>, s: Segment)
    requires s.offset + s.fileSize <= |file|
  {
    forall a | s.virt <= a < s.virt + s.memSize ::
      See(mem, root, a) == Sight(ByteAt(file, s, a), Rights(true, s.write, !s.exec))
  }

  lemma BytesRead(mem: Mem, roots: set<nat>, tabs: map<Slot, nat>, used: set<nat>, root: nat, file: seq<Byte>,
                  s: Segment)
    requires WellMapped(mem, roots, tabs, used) && root in roots
    requires SegmentOk(file, s) && PagesHold(mem, tabs, used, root, file, s, PageCount(s))
    ensures SegmentReads(mem, root, file, s)
  {
    forall v | s.virt <= v < s.virt + s.memSize
      ensures See(mem, root, v) == Sight(ByteAt(file, s, v), Rights(true, s.write, !s.exec))
    {
      var j := v / PAGE - s.virt / PAGE;
      var a := Base(s) + PAGE * j;
      assert a == v / PAGE * PAGE && j < PageCount(s);
      LowPaths(v, a);
      Addressing.HardwareAgrees(mem, roots, tabs, used, root, v);
      assert PageHolds(mem, tabs, used, root, file, s, j);
      FrameIs(Leaf(mem, tabs, root, PathOf(a)).value);
      assert a + v % PAGE == v;
    }
  }

  /** The page of an address lies in front of or behind each loadable segment. */
  ghost predicate ClearOf(segs: seq<Segment>, v: nat) {
    forall i | 0 <= i < |segs| && segs[i].load ::
      v / PAGE * PAGE + PAGE <= segs[i].virt || segs[i].virt + segs[i].memSize <= v / PAGE * PAGE
  }

  lemma {:induction false} ClearPath(file: seq<Byte>, segs: seq<Segment>, v: nat, n: nat)
    requires SegmentsOk(file, segs) && ClearOf(segs, v) && v < 0x1_0000_0000_0000 && n <= |segs|
    ensures PathOf(v) !in AllPaths(segs, n)
  {
    if n > 0 {
      ClearPath(file, segs, v, n - 1);
      if segs[n - 1].load { ClearPages(file, segs[n - 1], v, PageCount(segs[n - 1])); }
    }
  }

  lemma {:induction false} ClearPages(file: seq<Byte>, s: Segment, v: nat, count: nat)
    requires SegmentOk(file, s) && count <= PageCount(s) && v < 0x1_0000_0000_0000
    requires v / PAGE * PAGE + PAGE <= s.virt || s.virt + s.memSize <= v / PAGE * PAGE
    ensures PathOf(v) !in PathsOf(s, count)
  {
    if count > 0 {
      ClearPages(file, s, v, count - 1);
      OtherPage(file, s, v, count - 1);
    }
  }

  lemma OtherPage(file: seq<Byte>, s: Segment, v: nat, j: nat)
    requires SegmentOk(file, s) && j < PageCount(s) && v < 0x1_0000_0000_0000
    requires v / PAGE * PAGE + PAGE <= s.virt || s.virt + s.memSize <= v / PAGE * PAGE
    ensures PathOf(v) != PathOf(Base(s) + PAGE * j)
  {
    PathOnce(v, Base(s) + PAGE * j);
    PageNumbers(s, j);
    LowIndex(Base(s) + PAGE * j);
    WholeNumber(v);
    NumberApart(s, v / PAGE, j);
  }

  lemma WholeNumber(v: nat)
    requires v < 0x1_0000_0000_0000
    ensures v / PAGE % 0x10_0000_0000 == v / PAGE
  {
  }

  /** In pages: a page in front of or behind the segment is none of its pages. */
  lemma NumberApart(s: Segment, n: nat, j: nat)
    requires j < PageCount(s) && (n * PAGE + PAGE <= s.virt || s.virt + s.memSize <= n * PAGE)
    ensures n != s.virt / PAGE + j
  {
  }

  /** What the processor sees at a page is the same if its entry is. */
  lemma SameSight(mem0: Mem, tabs0: map<Slot, nat>, used0: set<nat>, mem: Mem, tabs: map<Slot, nat>, used: set<nat>,
                  roots: set<nat>, r: nat, v: nat)
    requires WellMapped(mem0, roots, tabs0, used0) && WellMapped(mem, roots, tabs, used) && r in roots
    requires SameDoors(mem0, tabs0, mem, roots)
    requires Leaf(mem, tabs, r, PathOf(v)) == Leaf(mem0, tabs0, r, PathOf(v))
    ensures Addressing.Hardware(mem, r, v, 3) == Addressing.Hardware(mem0, r, v, 3)
  {
    var p := PathOf(v);
    Addressing.HardwareAgrees(mem0, roots, tabs0, used0, r, v);
    Addressing.HardwareAgrees(mem, roots, tabs, used, r, v);
    if Leaf(mem0, tabs0, r, p).Some? && p[0] >= 256 {
      TopOfPath(mem0, roots, tabs0, used0, r, p);
      assert Shared([p[0]]) in tabs0;
    }
  }

  /** Everywhere else the processor sees what it saw. */
  lemma OthersSeen(mem0: Mem, tabs0: map<Slot, nat>, used0: set<nat>, mem: Mem, tabs: map<Slot, nat>, used: set<nat>,
                   roots: set<nat>, root: nat, file: seq<Byte>, segs: seq<Segment>, r: nat, v: nat)
    requires WellMapped(mem0, roots, tabs0, used0) && WellMapped(mem, roots, tabs, used) && r in roots
    requires SegmentsOk(file, segs) && OnlyPages(mem0, tabs0, mem, tabs, roots, root, AllPaths(segs, |segs|))
    requires v < 0x1_0000_0000_0000 && (r != root || ClearOf(segs, v))
    ensures Addressing.Hardware(mem, r, v, 3) == Addressing.Hardware(mem0, r, v, 3)
  {
    assert Open(Backing, 0);
    if r == root { ClearPath(file, segs, v, |segs|); }
    SameSight(mem0, tabs0, used0, mem, tabs, used, roots, r, v);
  }

  /** Loads every loadable segment.  Afterwards, reading through the page tables gives the
      file's bytes up to the segment's file size and zeros from there on, with the
      segment's rights; all other pages, here and in other address spaces, are as before. */
  method LoadElf(mmu: Mmu, root: nat, file: seq<Byte>, segs: seq<Segment>) returns (ok: bool)
    requires mmu.Valid() && root in mmu.roots && SegmentsOk(file, segs)
    modifies mmu`tabs, mmu.pmm
    ensures mmu.Valid() && (!ok ==> mmu.OutOfMemory())
    ensures ok ==> forall i | 0 <= i < |segs| && segs[i].load :: SegmentReads(mmu.pmm.mem, root, file, segs[i])
    ensures ok ==> forall r, v: nat | r in mmu.roots && v < 0x1_0000_0000_0000 && (r != root || ClearOf(segs, v)) ::
      Addressing.Hardware(mmu.pmm.mem, r, v, 3) == old(Addressing.Hardware(mmu.pmm.mem, r, v, 3))
  {
    ghost var mem0, tabs0, used0 := mmu.pmm.mem, mmu.tabs, mmu.pmm.UsedFrames();
    ok := LoadAll(mmu, root, file, segs);
    if !ok { return; }
    forall i | 0 <= i < |segs| && segs[i].load ensures SegmentReads(mmu.pmm.mem, root, file, segs[i]) {
      BytesRead(mmu.pmm.mem, mmu.roots, mmu.tabs, mmu.pmm.UsedFrames(), root, file, segs[i]);
    }
    forall r, v: nat | r in mmu.roots && v < 0x1_0000_0000_0000 && (r != root || ClearOf(segs, v))
      ensures Addressing.Hardware(mmu.pmm.mem, r, v, 3) == Addressing.Hardware(mem0, r, v, 3)
    {
      OthersSeen(mem0, tabs0, used0, mmu.pmm.mem, mmu.tabs, mmu.pmm.UsedFrames(), mmu.roots, root, file, segs, r, v);
    }
  }

  method LoadAll(mmu: Mmu, root: nat, file: seq<Byte>, segs: seq<Segment>) returns (ok: bool)
    requires mmu.Valid() && root in mmu.roots && SegmentsOk(file, segs)
    modifies mmu`tabs, mmu.pmm
    ensures mmu.Valid() && (!ok ==> mmu.OutOfMemory())
    ensures ok ==> AllLoaded(old(mmu.pmm.mem), old(mmu.tabs), mmu.pmm.mem, mmu.tabs, mmu.pmm.UsedFrames(), mmu.roots,
                             root, file, segs, |segs|)
  {
    ghost var mem0, tabs0 := mmu.pmm.mem, mmu.tabs;
    NoneLoaded(mem0, tabs0, mmu.pmm.UsedFrames(), mmu.roots, root, file, segs);
    for i := 0 to |segs|
      invariant mmu.Valid()
      invariant AllLoaded(mem0, tabs0, mmu.pmm.mem, mmu.tabs, mmu.pmm.UsedFrames(), mmu.roots, root, file, segs, i)
    {
      ghost var mem1, tabs1, used1 := mmu.pmm.mem, mmu.tabs, mmu.pmm.UsedFrames();
      if segs[i].load {
        ok := LoadSegment(mmu, root, file, segs[i]);
        if !ok { return false; }
      }
      NextLoaded(mem0, tabs0, mem1, tabs1, used1, mmu.pmm.mem, mmu.tabs, mmu.pmm.UsedFrames(), mmu.roots, root,
                 file, segs, i);
    }
    return true;
  }

  /** The first segments are in memory, and only their pages are mapped differently. */
  ghost predicate AllLoaded(mem0: Mem, tabs0: map<Slot, nat>, mem: Mem, tabs: map<Slot, nat>, used: set<nat>,
                            roots: set<nat>, root: nat, file: seq<Byte>, segs: seq<Segment>, n: nat)
    requires SegmentsOk(file, segs) && n <= |segs|
  {
    && SegmentsHold(mem, tabs, used, root, file, segs, n)
    && OnlyPages(mem0, tabs0, mem, tabs, roots, root, AllPaths(segs, n))
  }

  lemma NoneLoaded(mem: Mem, tabs: map<Slot, nat>, used: set<nat>, roots: set<nat>, root: nat, file: seq<Byte>,
                   segs: seq<Segment>)
    requires SegmentsOk(file, segs)
    ensures AllLoaded(mem, tabs, mem, tabs, used, roots, root, file, segs, 0)
  {
  }

  lemma NextLoaded(mem0: Mem, tabs0: map<Slot, nat>, mem1: Mem, tabs1: map<Slot, nat>, used1: set<nat>,
                   mem: Mem, tabs: map<Slot, nat>, used: set<nat>, roots: set<nat>, root: nat, file: seq<Byte>,
                   segs: seq<Segment>, i: nat)
    requires SegmentsOk(file, segs) && i < |segs|
    requires AllLoaded(mem0, tabs0, mem1, tabs1, used1, roots, root, file, segs, i)
    requires if segs[i].load
             then Loading(mem1, tabs1, used1, mem, tabs, used, roots, root, file, segs[i], PageCount(segs[i]))
             else mem == mem1 && tabs == tabs1 && used == used1
    ensures AllLoaded(mem0, tabs0, mem, tabs, used, roots, root, file, segs, i + 1)
  {
    assert Open(Running, 0);
    if segs[i].load {
      NextSegment(mem1, tabs1, used1, mem, tabs, used, root, file, segs, i);
      MorePages(mem0, tabs0, mem1, tabs1, mem, tabs, roots, root, AllPaths(segs, i),
                PathsOf(segs[i], PageCount(segs[i])));
    } else {
      assert AllPaths(segs, i + 1) == AllPaths(segs, i);
    }
  }
}
