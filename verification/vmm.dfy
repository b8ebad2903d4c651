/** Mapping, looking up and unmapping 4 KiB pages. */
module Vmm {
  import opened Gates
  import opened Machine
  import opened PhysMem
  import opened Options
  import opened Pmm
  import opened Pte
  import opened PageTable

  /** The four table indices of a virtual address, top level first. */
  function PathOf(virt: nat): (p: Path)
    ensures |p| == 4 && forall k | 0 <= k < 4 :: p[k] < WORDS
  {
    [virt / 0x80_0000_0000 % WORDS, virt / 0x4000_0000 % WORDS, virt / 0x20_0000 % WORDS, virt / 0x1000 % WORDS]
  }

  /** Paths tell virtual pages apart, up to the 48 bits that are translated. */
  lemma PathOnce(v: nat, w: nat)
    ensures PathOf(v) == PathOf(w) <==> v / PAGE % 0x10_0000_0000 == w / PAGE % 0x10_0000_0000
  {
    Digits(v / PAGE);
    Digits(w / PAGE);
    Nested(v);
    Nested(w);
    var p, q := PathOf(v), PathOf(w);
    SameDigits(p[3], p[2], p[1], p[0], q[3], q[2], q[1], q[0]);
    assert p == q <==> p[0] == q[0] && p[1] == q[1] && p[2] == q[2] && p[3] == q[3];
  }

  lemma SameDigits(a: nat, b: nat, c: nat, d: nat, a': nat, b': nat, c': nat, d': nat)
    requires a < WORDS && b < WORDS && c < WORDS && a' < WORDS && b' < WORDS && c' < WORDS
    ensures a + WORDS * (b + WORDS * (c + WORDS * d)) == a' + WORDS * (b' + WORDS * (c' + WORDS * d'))
      <==> a == a' && b == b' && c == c' && d == d'
  {
  }

  lemma Nested(v: nat)
    ensures v / 0x20_0000 == v / PAGE / WORDS
    ensures v / 0x4000_0000 == v / PAGE / WORDS / WORDS
    ensures v / 0x80_0000_0000 == v / PAGE / WORDS / WORDS / WORDS
  {
  }

  /** The low 36 bits in base 512. */
  lemma Digits(n: nat)
    ensures n % 0x10_0000_0000 ==
      n % WORDS
      + WORDS * (n / WORDS % WORDS + WORDS * (n / WORDS / WORDS % WORDS + WORDS * (n / WORDS / WORDS / WORDS % WORDS)))
  {
  }

  class Mmu {
    const pmm: Allocator
    var kernelRoot: nat
    ghost var roots: set<nat>
    ghost var tabs: map<Slot, nat>

    ghost predicate Valid()
      reads this, pmm
    {
      pmm.Valid() && WellMapped(pmm.mem, roots, tabs, pmm.UsedFrames())
    }

    /** A zeroed frame as the only top-level table. */
    constructor (pmm: Allocator, root: nat)
      requires pmm.Valid() && root in pmm.UsedFrames() && root in pmm.mem && pmm.mem[root] == Zeros(PAGE)
      ensures Valid() && this.pmm == pmm && roots == {root} && kernelRoot == root
      ensures tabs == map[Private(root, []) := root]
    {
      this.pmm, kernelRoot, roots, tabs := pmm, root, {root}, map[Private(root, []) := root];
      FirstRoot(pmm.mem, root, pmm.UsedFrames());
    }

    /** A top-level entry of the shared half may be added only while there is one root. */
    ghost predicate MayHang(s: Slot, i: nat)
      reads this
    {
      s.path == [] && i >= 256 && Kid(s, i) !in tabs ==> s.Private? && roots == {s.root}
    }

    ghost predicate OutOfMemory()
      reads pmm
    {
      forall f | f in pmm.pages :: pmm.pages[f] == Used
    }

    /** All entries of the shared half are in place. */
    ghost predicate Full()
      reads this
    {
      forall i | 256 <= i < WORDS :: Shared([i]) in tabs
    }

    /** Frames in use that are no tables. */
    ghost function Data(): set<nat>
      reads this, pmm
    {
      pmm.UsedFrames() - tabs.Values
    }

    /** Frames that hold data rather than tables keep it. */
    ghost predicate DataKept(mem: Mem, used: set<nat>, ts: map<Slot, nat>)
      reads this, pmm
    {
      used <= pmm.UsedFrames() && Kept(mem, used, ts, pmm.mem, tabs)
    }

    /** A zeroed frame that is no table; fails when memory is out. */
    method Fresh() returns (page: Option<nat>)
      requires Valid()
      modifies pmm
      ensures Valid() && SameMaps(old(pmm.mem), tabs, pmm.mem, tabs, roots)
      ensures DataKept(old(pmm.mem), old(pmm.UsedFrames()), tabs)
      ensures page.None? ==> OutOfMemory() && Data() == old(Data())
      ensures page.Some? ==> page.value !in old(pmm.UsedFrames()) && FitFrame(page.value)
      ensures page.Some? ==> Data() == old(Data()) + {page.value}
      ensures page.Some? ==> Blank(pmm.mem, tabs, pmm.UsedFrames(), page.value)
    {
      ghost var mem, used := pmm.mem, pmm.UsedFrames();
      page := pmm.AllocatePage();
      MapsKept(mem, pmm.mem, roots, tabs, used, pmm.UsedFrames());
      if page.None? { return; }
      ManagedFits(pmm.tables, pmm.hhdm, page.value);
      NotATable(mem, roots, tabs, used, page.value);
    }

    /** Puts a fresh, zeroed table behind an absent entry: writable and for users, or
        locked (bit 9) and not for users. */
    method Hang(table: nat, i: nat, locked: bool, ghost s: Slot) returns (page: Option<nat>)
      requires Valid() && s in tabs && tabs[s] == table && |s.path| < 3 && i < WORDS && MayHang(s, i)
      requires Kid(s, i) !in tabs && (locked ==> AtDoor(Kid(s, i)))
      modifies `tabs, pmm
      ensures page.Some? ==> table in pmm.mem && |pmm.mem[table]| == PAGE
      ensures page.Some? ==> EntryBits(Word(pmm.mem[table], i), page.value, if locked then 0x202 else 6)
      ensures page.Some? ==> (Door(pmm.mem, table, i) <==> !locked)
      ensures Valid() && SameMaps(old(pmm.mem), old(tabs), pmm.mem, tabs, roots)
      ensures DataKept(old(pmm.mem), old(pmm.UsedFrames()), old(tabs))
      ensures page.Some? ==> tabs == old(tabs)[Kid(s, i) := page.value]
      ensures page.None? ==> tabs == old(tabs) && OutOfMemory()
      ensures Data() == old(Data())
    {
      ghost var mem0, used0 := pmm.mem, pmm.UsedFrames();
      page := Fresh();
      if page.None? { return; }
      var f := page.value;
      ghost var mem := pmm.mem;
      HungPoints(f, locked, Kid(s, i));
      TableFacts(mem, roots, tabs, pmm.UsedFrames(), s, i);
      AddTable(mem, roots, tabs, pmm.UsedFrames(), s, i, f, HungEntry(f, locked));
      SetGet(pmm.mem[table], i, HungEntry(f, locked));
      pmm.Store(table, SetWord(pmm.mem[table], i, HungEntry(f, locked)));
      KeptHung(mem0, used0, tabs, mem, table, i, HungEntry(f, locked), s, f);
      SameData(used0, tabs, pmm.UsedFrames(), Kid(s, i), f);
      tabs := tabs[Kid(s, i) := f];
    }

    /** Follows entry `i`, adding a table if there is none. */
    method Descend(table: nat, i: nat, ghost s: Slot) returns (ok: bool, next: nat)
      requires Valid() && s in tabs && tabs[s] == table && |s.path| < 3 && i < WORDS && MayHang(s, i)
      modifies `tabs, pmm
      ensures Valid() && SameMaps(old(pmm.mem), old(tabs), pmm.mem, tabs, roots)
      ensures DataKept(old(pmm.mem), old(pmm.UsedFrames()), old(tabs))
      ensures ok ==> Kid(s, i) in tabs && tabs[Kid(s, i)] == next && tabs == old(tabs)[Kid(s, i) := next]
      ensures !ok ==> tabs == old(tabs) && OutOfMemory()
      ensures Data() == old(Data())
    {
      TableFacts(pmm.mem, roots, tabs, pmm.UsedFrames(), s, i);
      if !Present(Word(pmm.mem[table], i)) {
        var page := Hang(table, i, false, s);
        if page.None? { return false, 0; }
        return true, page.value;
      }
      return true, AddrOf(Word(pmm.mem[table], i));
    }

    /** The three upper levels of a walk that adds what is missing. */
    method DescendAll(root: nat, virt: nat) returns (ok: bool, leaf: nat)
      requires Valid() && root in roots && MayHang(Private(root, []), PathOf(virt)[0])
      modifies `tabs, pmm
      ensures Valid() && SameMaps(old(pmm.mem), old(tabs), pmm.mem, tabs, roots)
      ensures DataKept(old(pmm.mem), old(pmm.UsedFrames()), old(tabs))
      ensures ok ==> SlotOf(root, PathOf(virt)[..3]) in tabs && tabs[SlotOf(root, PathOf(virt)[..3])] == leaf
      ensures !ok ==> OutOfMemory()
      ensures OnPath(old(tabs), tabs, PathOf(virt)) && Data() == old(Data())
    {
      var p := PathOf(virt);
      ghost var s0 := Private(root, []);
      RootTable(pmm.mem, roots, tabs, pmm.UsedFrames(), root);
      KidsAre(root, p);
      var l3, l2;
      ok, l3 := Descend(root, p[0], s0);
      if !ok { return false, 0; }
      ok, l2 := Descend(l3, p[1], SlotOf(root, p[..1]));
      if !ok { return false, 0; }
      ok, leaf := Descend(l2, p[2], SlotOf(root, p[..2]));
    }

    /** Maps a page: its entry gets the frame's address bits, the flags and the present
        bit, and nothing else; every other page stays. */
    method MapPage(root: nat, virt: nat, phys: nat, flags: nat) returns (ok: bool)
      requires Valid() && root in roots && FlagsOk(flags) && MayHang(Private(root, []), PathOf(virt)[0])
      modifies `tabs, pmm
      ensures Valid() && DataKept(old(pmm.mem), old(pmm.UsedFrames()), old(tabs)) && (old(Full()) ==> Full())
      ensures !ok ==> SameMaps(old(pmm.mem), old(tabs), pmm.mem, tabs, roots) && OutOfMemory()
      ensures OnPath(old(tabs), tabs, PathOf(virt)) && (ok ==> SlotOf(root, PathOf(virt)[..3]) in tabs)
      ensures ok ==> Leaf(pmm.mem, tabs, root, PathOf(virt)).Some?
      ensures ok ==> EntryBits(Leaf(pmm.mem, tabs, root, PathOf(virt)).value, phys, flags)
      ensures ok ==> Translate(pmm.mem, tabs, root, PathOf(virt)) == Some(AddrOf(phys))
      ensures ok ==> SameButAt(old(pmm.mem), old(tabs), pmm.mem, tabs, roots, root, PathOf(virt))
      ensures Data() == old(Data())
    {
      var leaf;
      ok, leaf := DescendAll(root, virt);
      if !ok { return false; }
      PageEntryOk(phys, flags);
      PageEntryBits(phys, flags);
      WriteLeaf(root, virt, leaf, PageEntry(phys, flags));
    }

    method WriteLeaf(ghost root: nat, virt: nat, leaf: nat, w: nat)
      requires Valid() && SlotOf(root, PathOf(virt)[..3]) in tabs && tabs[SlotOf(root, PathOf(virt)[..3])] == leaf
      requires w < WORD
      modifies pmm
      ensures Valid() && pmm.UsedFrames() == old(pmm.UsedFrames())
      ensures leaf in old(pmm.mem)
      ensures (forall f | f in old(pmm.mem) && f != leaf :: f in pmm.mem && pmm.mem[f] == old(pmm.mem)[f])
      ensures Leaf(pmm.mem, tabs, root, PathOf(virt)) == if Present(w) then Some(w) else None
      ensures OnlyAt(old(pmm.mem), pmm.mem, tabs, roots, root, PathOf(virt))
    {
      ghost var p := PathOf(virt);
      var i := virt / 0x1000 % WORDS;
      TableFacts(pmm.mem, roots, tabs, pmm.UsedFrames(), SlotOf(root, p[..3]), i);
      SetLeaf(pmm.mem, roots, tabs, pmm.UsedFrames(), root, p, w);
      pmm.Store(leaf, SetWord(pmm.mem[leaf], i, w));
    }

    /** Finds the lowest-level table of a page, without adding any. */
    method Walk(root: nat, virt: nat) returns (leaf: Option<nat>)
      requires Valid() && root in roots
      ensures leaf.Some? <==> SlotOf(root, PathOf(virt)[..3]) in tabs
      ensures leaf.Some? ==> tabs[SlotOf(root, PathOf(virt)[..3])] == leaf.value
    {
      var p := PathOf(virt);
      ghost var mem, used := pmm.mem, pmm.UsedFrames();
      RootTable(pmm.mem, roots, tabs, pmm.UsedFrames(), root);
      KidsAre(root, p);
      TableFacts(mem, roots, tabs, used, Private(root, []), p[0]);
      var e := Word(pmm.mem[root], p[0]);
      if !Present(e) { MissingBelow(mem, roots, tabs, used, root, p[..1], p[1..3]); return None; }
      TableFacts(mem, roots, tabs, used, SlotOf(root, p[..1]), p[1]);
      e := Word(pmm.mem[AddrOf(e)], p[1]);
      if !Present(e) { MissingBelow(mem, roots, tabs, used, root, p[..2], p[2..3]); return None; }
      TableFacts(mem, roots, tabs, used, SlotOf(root, p[..2]), p[2]);
      e := Word(pmm.mem[AddrOf(e)], p[2]);
      if !Present(e) { return None; }
      return Some(AddrOf(e));
    }

    /** The frame a page is mapped to; 0 if it is not mapped. */
    method GetPhys(root: nat, virt: nat) returns (phys: nat)
      requires Valid() && root in roots
      ensures var t := Translate(pmm.mem, tabs, root, PathOf(virt)); phys == if t.Some? then t.value else 0
    {
      var leaf := Walk(root, virt);
      if leaf.None? { return 0; }
      var i := virt / 0x1000 % WORDS;
      TableFacts(pmm.mem, roots, tabs, pmm.UsedFrames(), SlotOf(root, PathOf(virt)[..3]), i);
      var e := Word(pmm.mem[leaf.value], i);
      return if Present(e) then AddrOf(e) else 0;
    }

    /** Unmaps a page and no other. */
    method UnmapPage(root: nat, virt: nat)
      requires Valid() && root in roots
      modifies pmm
      ensures Valid() && pmm.UsedFrames() == old(pmm.UsedFrames())
      ensures Translate(pmm.mem, tabs, root, PathOf(virt)).None?
      ensures OnlyAt(old(pmm.mem), pmm.mem, tabs, roots, root, PathOf(virt))
    {
      var leaf := Walk(root, virt);
      if leaf.None? { return; }
      OddPresent(0);
      WriteLeaf(root, virt, leaf.value, 0);
    }

    /** Sets up the shared half: entries 256 to 510 by hand, none of them open to users,
        then the kernel's own pages.  Entry 511 comes from those pages alone. */
    method SetupKernel(pages: seq<MapRequest>) returns (ok: bool)
      requires Valid() && roots == {kernelRoot} && tabs == map[Private(kernelRoot, []) := kernelRoot]
      requires forall k | 0 <= k < |pages| :: FlagsOk(pages[k].flags)
      modifies `tabs, pmm
      ensures Valid() && roots == {kernelRoot}
      ensures !ok ==> OutOfMemory()
      ensures ok ==> (Full() <==> Reaches(pages, 511))
      ensures ok ==> forall i | 256 <= i < 511 :: !Door(pmm.mem, kernelRoot, i)
    {
      ok := HangSlots();
      if ok { ok := MapAll(pages); }
      assert ok ==> (Full() <==> Shared([511]) in tabs);
    }

    /** Maps the kernel's pages. */
    method MapAll(pages: seq<MapRequest>) returns (ok: bool)
      requires Valid() && roots == {kernelRoot}
      requires forall k | 0 <= k < |pages| :: FlagsOk(pages[k].flags)
      modifies `tabs, pmm
      ensures Valid() && (!ok ==> OutOfMemory())
      ensures ok ==> forall i | 256 <= i < WORDS ::
        Shared([i]) in tabs <==> Shared([i]) in old(tabs) || Reaches(pages, i)
      ensures ok ==> SameDoors(old(pmm.mem), old(tabs), pmm.mem, roots)
    {
      for k := 0 to |pages|
        invariant Valid() && SameDoors(old(pmm.mem), old(tabs), pmm.mem, roots)
        invariant forall i | 256 <= i < WORDS ::
          Shared([i]) in tabs <==> Shared([i]) in old(tabs) || Reaches(pages[..k], i)
      {
        ok := MapOne(pages[k]);
        if !ok { return false; }
        ReachesNext(pages, k);
      }
      assert pages[..|pages|] == pages;
      return true;
    }

    method MapOne(page: MapRequest) returns (ok: bool)
      requires Valid() && roots == {kernelRoot} && FlagsOk(page.flags)
      modifies `tabs, pmm
      ensures Valid() && (!ok ==> OutOfMemory())
      ensures ok ==> SameDoors(old(pmm.mem), old(tabs), pmm.mem, roots)
      ensures ok ==> forall i | 256 <= i < WORDS ::
        Shared([i]) in tabs <==> Shared([i]) in old(tabs) || PathOf(page.virt)[0] == i
    {
      ok := MapPage(kernelRoot, page.virt, page.phys, page.flags);
      if ok { TopOfPath(pmm.mem, roots, tabs, pmm.UsedFrames(), kernelRoot, PathOf(page.virt)); }
    }

    method HangSlots() returns (ok: bool)
      requires Valid() && roots == {kernelRoot} && tabs == map[Private(kernelRoot, []) := kernelRoot]
      modifies `tabs, pmm
      ensures Valid() && (!ok ==> OutOfMemory())
      ensures ok ==> forall i | 256 <= i < WORDS :: Shared([i]) in tabs <==> i < 511
      ensures ok ==> forall i | 256 <= i < 511 :: !Door(pmm.mem, kernelRoot, i)
    {
      for i := 256 to 511
        invariant Valid() && Private(kernelRoot, []) in tabs && tabs[Private(kernelRoot, [])] == kernelRoot
        invariant forall j | 256 <= j < WORDS :: Shared([j]) in tabs <==> j < i
        invariant forall j | 256 <= j < i :: !Door(pmm.mem, kernelRoot, j)
      {
        assert [] + [i] == [i] && Kid(Private(kernelRoot, []), i) == Shared([i]);
        var page := Hang(kernelRoot, i, true, Private(kernelRoot, []));
        if page.None? { return false; }
      }
      return true;
    }

    /** A new address space: nothing mapped below, the shared half above. */
    method NewPagemap() returns (page: Option<nat>)
      requires Valid() && kernelRoot in roots
      modifies `tabs, `roots, pmm
      ensures Valid() && (old(Full()) ==> Full()) && DataKept(old(pmm.mem), old(pmm.UsedFrames()), old(tabs))
      ensures page.None? ==> OutOfMemory() && roots == old(roots)
      ensures page.Some? ==> page.value !in old(pmm.UsedFrames()) && roots == old(roots) + {page.value}
      ensures SameMaps(old(pmm.mem), old(tabs), pmm.mem, tabs, old(roots))
      ensures page.Some? ==> Inherits(pmm.mem, tabs, page.value, kernelRoot)
    {
      ghost var mem0, used0 := pmm.mem, pmm.UsedFrames();
      page := Fresh();
      if page.None? { return; }
      ghost var mem1, tabs1 := pmm.mem, tabs;
      CopyKernel(page.value);
      KeptCopy(mem0, used0, tabs1, mem1, pmm.mem[page.value], page.value);
    }

    /** Makes a blank frame a top-level table with the kernel's upper half. */
    method CopyKernel(f: nat)
      requires Valid() && kernelRoot in roots && Blank(pmm.mem, tabs, pmm.UsedFrames(), f)
      modifies `tabs, `roots, pmm`mem
      ensures Valid() && roots == old(roots) + {f} && tabs == old(tabs)[Private(f, []) := f]
      ensures Private(f, []) !in old(tabs)
      ensures f in pmm.mem && pmm.mem == old(pmm.mem)[f := pmm.mem[f]]
      ensures SameMaps(old(pmm.mem), old(tabs), pmm.mem, tabs, old(roots)) && Inherits(pmm.mem, tabs, f, kernelRoot)
    {
      RootTable(pmm.mem, roots, tabs, pmm.UsedFrames(), kernelRoot);
      TableFacts(pmm.mem, roots, tabs, pmm.UsedFrames(), Private(kernelRoot, []), 0);
      CopyRoot(pmm.mem, roots, tabs, pmm.UsedFrames(), kernelRoot, f);
      pmm.Store(f, UpperHalf(pmm.mem[kernelRoot]));
      tabs := tabs[Private(f, []) := f];
      roots := roots + {f};
    }
  }

  /** Once all shared entries are in place, every page may be mapped in every space. */
  lemma FullMayHang(mmu: Mmu, root: nat, virt: nat)
    requires mmu.Full()
    ensures mmu.MayHang(Private(root, []), PathOf(virt)[0])
  {
    var i := PathOf(virt)[0];
    assert [] + [i] == [i];
    if i >= 256 { assert Shared([i]) in mmu.tabs; }
  }

  datatype MapRequest = MapRequest(virt: nat, phys: nat, flags: nat)

  /** One of the pages lies behind top-level entry `i`. */
  ghost predicate Reaches(pages: seq<MapRequest>, i: nat) {
    exists k :: 0 <= k < |pages| && PathOf(pages[k].virt)[0] == i
  }

  lemma ReachesNext(pages: seq<MapRequest>, k: nat)
    requires k < |pages|
    ensures forall i :: Reaches(pages[..k + 1], i) <==> Reaches(pages[..k], i) || PathOf(pages[k].virt)[0] == i
  {
    forall i ensures Reaches(pages[..k + 1], i) <==> Reaches(pages[..k], i) || PathOf(pages[k].virt)[0] == i {
      if Reaches(pages[..k], i) {
        var j :| 0 <= j < k && PathOf(pages[..k][j].virt)[0] == i;
        assert pages[..k + 1][j] == pages[..k][j];
      }
      if Reaches(pages[..k + 1], i) {
        var j :| 0 <= j < k + 1 && PathOf(pages[..k + 1][j].virt)[0] == i;
        assert j < k ==> pages[..k][j] == pages[..k + 1][j];
      }
      assert pages[..k + 1][k] == pages[k];
    }
  }

  /** A root with nothing mapped below and another root's upper half. */
  ghost predicate Inherits(mem: Mem, tabs: map<Slot, nat>, f: nat, k: nat) {
    && (forall p: Path | |p| == 4 :: Leaf(mem, tabs, f, p) == if p[0] < 256 then None else Leaf(mem, tabs, k, p))
    && (forall i | 256 <= i < WORDS :: Door(mem, f, i) == Door(mem, k, i))
  }

  /** New tables lie on the path. */
  ghost predicate OnPath(tabs: map<Slot, nat>, tabs': map<Slot, nat>, p: Path) {
    forall s | s in tabs' && s !in tabs :: s.path != [] && p != [] && s.path[0] == p[0]
  }

  lemma TopOfPath(mem: Mem, roots: set<nat>, tabs: map<Slot, nat>, used: set<nat>, root: nat, p: Path)
    requires WellMapped(mem, roots, tabs, used) && |p| == 4 && SlotOf(root, p[..3]) in tabs
    ensures SlotOf(root, [p[0]]) in tabs
  {
    assert [p[0]] + p[1..3] == p[..3];
    if SlotOf(root, [p[0]]) !in tabs { MissingBelow(mem, roots, tabs, used, root, [p[0]], p[1..3]); }
  }

  /** A copy of a table with its lower half cleared. */
  function UpperHalf(f: Frame): (g: Frame)
    requires |f| == PAGE
    ensures |g| == PAGE && forall j | 0 <= j < PAGE :: g[j] == if j < PAGE / 2 then 0 else f[j]
  {
    Zeros(PAGE / 2) + f[PAGE / 2..]
  }

  /** The lower half of the copy is empty, its upper half the kernel's. */
  lemma CopiedWords(f: Frame)
    requires |f| == PAGE
    ensures forall i | 0 <= i < WORDS :: Word(UpperHalf(f), i) == if i < 256 then 0 else Word(f, i)
  {
    var g := UpperHalf(f);
    forall i | 0 <= i < WORDS ensures Word(g, i) == if i < 256 then 0 else Word(f, i) {
      if i < 256 {
        ZeroWord(g[8 * i..8 * i + 8]);
      } else {
        assert g[8 * i..8 * i + 8] == f[8 * i..8 * i + 8];
      }
    }
  }

  lemma KeptCopy(mem0: Mem, used0: set<nat>, tabs: map<Slot, nat>, mem: Mem, g: Frame, f: nat)
    requires Kept(mem0, used0, tabs, mem, tabs) && f !in used0 && Private(f, []) !in tabs
    ensures Kept(mem0, used0, tabs, mem[f := g], tabs[Private(f, []) := f])
  {
  }

  lemma CopyRoot(mem: Mem, roots: set<nat>, tabs: map<Slot, nat>, used: set<nat>, k: nat, f: nat)
    requires WellMapped(mem, roots, tabs, used) && k in roots && Blank(mem, tabs, used, f)
    requires k in mem && |mem[k]| == PAGE
    ensures Private(f, []) !in tabs
    ensures var mem', tabs' := mem[f := UpperHalf(mem[k])], tabs[Private(f, []) := f];
      && WellMapped(mem', roots + {f}, tabs', used)
      && SameMaps(mem, tabs, mem', tabs', roots)
      && Inherits(mem', tabs', f, k)
  {
    assert Open(PageTables, 0);
    CopyPlaces(roots, tabs, used, f);
    CopyEntries(mem, roots, tabs, used, k, f);
    CopyMaps(mem, roots, tabs, used, k, f);
  }

  lemma CopyPlaces(roots: set<nat>, tabs: map<Slot, nat>, used: set<nat>, f: nat)
    requires PlacesOk(roots, tabs, used) && f in used && f !in tabs.Values
    ensures f !in roots && PlacesOk(roots + {f}, tabs[Private(f, []) := f], used)
    ensures forall p: Path :: Private(f, p) !in tabs
  {
    assert forall s | s in tabs :: SlotOk(s, roots) && tabs[s] != f;
    assert f !in roots;
    var tabs' := tabs[Private(f, []) := f];
    forall x | x in tabs' ensures SlotOk(x, roots + {f}) && HasParent(x, tabs') && tabs'[x] in used {
    }
  }

  lemma CopyEntries(mem: Mem, roots: set<nat>, tabs: map<Slot, nat>, used: set<nat>, k: nat, f: nat)
    requires PlacesOk(roots, tabs, used) && EntriesOk(mem, tabs) && k in roots && f !in tabs.Values && f in used
    requires f in mem
    requires k in mem && |mem[k]| == PAGE && f !in roots && forall p: Path :: Private(f, p) !in tabs
    ensures EntriesOk(mem[f := UpperHalf(mem[k])], tabs[Private(f, []) := f])
  {
    var g := UpperHalf(mem[k]);
    var mem', tabs' := mem[f := g], tabs[Private(f, []) := f];
    CopiedWords(mem[k]);
    OddPresent(0);
    assert TableOk(mem[k], Private(k, []), tabs);
    forall x | x in tabs'
      ensures tabs'[x] in mem' && |mem'[tabs'[x]]| == PAGE && (|x.path| < 3 ==> TableOk(mem'[tabs'[x]], x, tabs'))
    {
      if x == Private(f, []) {
        forall i | 0 <= i < WORDS ensures EntryOk(Word(g, i), tabs', Kid(x, i)) {
          assert [] + [i] == [i];
          assert EntryOk(Word(mem[k], i), tabs, Kid(Private(k, []), i));
        }
      } else if |x.path| < 3 {
        assert TableOk(mem[tabs[x]], x, tabs);
        forall i | 0 <= i < WORDS ensures EntryOk(Word(mem'[tabs'[x]], i), tabs', Kid(x, i)) {
          assert Kid(x, i).path != [];
        }
      }
    }
  }

  lemma CopyMaps(mem: Mem, roots: set<nat>, tabs: map<Slot, nat>, used: set<nat>, k: nat, f: nat)
    requires f !in tabs.Values && f in mem && k in mem && |mem[k]| == PAGE && forall p: Path :: Private(f, p) !in tabs
    requires f !in roots && k in roots && DoorsAgree(mem, roots)
    ensures var mem', tabs' := mem[f := UpperHalf(mem[k])], tabs[Private(f, []) := f];
      && DoorsAgree(mem', roots + {f})
      && SameMaps(mem, tabs, mem', tabs', roots)
      && Inherits(mem', tabs', f, k)
  {
    var mem', tabs' := mem[f := UpperHalf(mem[k])], tabs[Private(f, []) := f];
    forall r, p: Path | r in roots && |p| == 4 ensures Leaf(mem', tabs', r, p) == Leaf(mem, tabs, r, p) {
      assert p[..3] != [];
    }
    CopyDoors(mem, roots, tabs, k, f);
    forall p: Path | |p| == 4
      ensures Leaf(mem', tabs', f, p) == if p[0] < 256 then None else Leaf(mem', tabs', k, p)
    {
      assert p[..3] != [] && p[..3][0] == p[0];
    }
  }

  /** The copied entries are the kernel's doors. */
  lemma CopyDoors(mem: Mem, roots: set<nat>, tabs: map<Slot, nat>, k: nat, f: nat)
    requires f in mem && k in mem && |mem[k]| == PAGE && f !in roots && k in roots && DoorsAgree(mem, roots)
    ensures var mem' := mem[f := UpperHalf(mem[k])];
      && DoorsAgree(mem', roots + {f}) && SameDoors(mem, tabs, mem', roots)
      && forall i | 256 <= i < WORDS :: Door(mem', f, i) == Door(mem', k, i)
  {
    var mem' := mem[f := UpperHalf(mem[k])];
    CopiedWords(mem[k]);
    forall r, i | r in roots ensures Door(mem', r, i) == Door(mem, r, i) { }
    forall i | 256 <= i < WORDS ensures Door(mem', f, i) == Door(mem, k, i) { }
  }

  lemma RootTable(mem: Mem, roots: set<nat>, tabs: map<Slot, nat>, used: set<nat>, root: nat)
    requires WellMapped(mem, roots, tabs, used) && root in roots
    ensures Private(root, []) in tabs && tabs[Private(root, [])] == root
  {
    assert Open(PageTables, 0);
  }

  lemma KidsAre(root: nat, p: Path)
    requires |p| == 4
    ensures Kid(Private(root, []), p[0]) == SlotOf(root, p[..1])
    ensures Kid(SlotOf(root, p[..1]), p[1]) == SlotOf(root, p[..2])
    ensures Kid(SlotOf(root, p[..2]), p[2]) == SlotOf(root, p[..3])
    ensures p[..1] + p[1..3] == p[..3] && p[..2] + p[2..3] == p[..3]
  {
    assert [] + [p[0]] == p[..1] && p[..1] + [p[1]] == p[..2] && p[..2] + [p[2]] == p[..3];
  }

  /** No translation has changed but that of one page. */
  ghost predicate SameButAt(mem: Mem, tabs: map<Slot, nat>, mem': Mem, tabs': map<Slot, nat>, roots: set<nat>,
                            root: nat, path: Path) {
    && SameDoors(mem, tabs, mem', roots)
    && forall r, p: Path | r in roots && |p| == 4 && SlotOf(r, p) != SlotOf(root, path) ::
         Leaf(mem', tabs', r, p) == Leaf(mem, tabs, r, p)
  }

  lemma FirstRoot(mem: Mem, root: nat, used: set<nat>)
    requires root in used && root in mem && mem[root] == Zeros(PAGE)
    ensures WellMapped(mem, {root}, map[Private(root, []) := root], used)
  {
    ZeroFrame(mem[root]);
    OddPresent(0);
  }

  ghost predicate Kept(mem: Mem, used: set<nat>, ts: map<Slot, nat>, mem': Mem, tabs: map<Slot, nat>) {
    && (forall s | s in ts :: s in tabs && tabs[s] == ts[s])
    && forall f | f in used && f in mem && f !in ts.Values :: f in mem' && mem'[f] == mem[f] && f !in tabs.Values
  }

  function HungEntry(f: nat, locked: bool): nat {
    if locked then LockedEntry(f) else TableEntry(f)
  }

  lemma HungPoints(f: nat, locked: bool, c: Slot)
    requires FitFrame(f) && (locked ==> AtDoor(c))
    ensures PointsTo(HungEntry(f, locked), f, c) && RightsOf(HungEntry(f, locked)).user == !locked
    ensures EntryBits(HungEntry(f, locked), f, if locked then 0x202 else 6)
  {
    TableEntryOk(f);
    LockedEntryOk(f);
  }

  ghost predicate FitFrame(f: nat) {
    f % PAGE == 0 && f < PHYS_END
  }

  /** A frame that becomes a table is no data. */
  lemma SameData(used0: set<nat>, tabs: map<Slot, nat>, used: set<nat>, c: Slot, f: nat)
    requires used - tabs.Values == used0 - tabs.Values + {f} && c !in tabs && f !in used0
    ensures used - tabs[c := f].Values == used0 - tabs.Values
  {
    assert tabs[c := f].Values == tabs.Values + {f} by {
      forall x | x in tabs.Values ensures x in tabs[c := f].Values {
        var s :| s in tabs && tabs[s] == x;
        assert tabs[c := f][s] == x;
      }
      assert tabs[c := f][c] == f;
    }
  }

  lemma KeptHung(mem0: Mem, used0: set<nat>, tabs: map<Slot, nat>, mem: Mem, table: nat, i: nat, w: nat, s: Slot,
                 f: nat)
    requires Kept(mem0, used0, tabs, mem, tabs) && f !in used0 && s in tabs && tabs[s] == table && Kid(s, i) !in tabs
    requires table in mem && |mem[table]| == PAGE && i < WORDS
    ensures Kept(mem0, used0, tabs, Written(mem, table, i, w), tabs[Kid(s, i) := f])
  {
  }

  lemma NotATable(mem: Mem, roots: set<nat>, tabs: map<Slot, nat>, used: set<nat>, f: nat)
    requires WellMapped(mem, roots, tabs, used) && f !in used
    ensures f !in tabs.Values
  {
    assert Open(PageTables, 0);
  }
}
