/** Large blocks of `malloc`: a fresh address range whose pages are mapped one by one
    to fresh frames, and taken apart again by `free`. */
module LargeBlock {
  import opened Gates
  import opened Words
  import opened Machine
  import opened PhysMem
  import opened Options
  import opened Pmm
  import opened Pte
  import opened PageTable
  import opened Vmm
  import RbShape
  import RbHeap
  import Ranges
  import Vma
  import Spaces
  import SlabHeap
  import Addressing

  /** Page `k` of a block. */
  function PageOf(base: nat, k: nat): Path {
    PathOf(base + PAGE * k)
  }

  /** Pages less than 48 bits apart have different paths. */
  lemma PagesOnce(base: nat, j: nat, k: nat)
    requires base % PAGE == 0 && j < k < j + 0x10_0000_0000
    ensures PageOf(base, j) != PageOf(base, k)
  {
    PathOnce(base + PAGE * j, base + PAGE * k);
    PageNumber(base, j);
    PageNumber(base, k);
    NotCongruent(base / PAGE + j, k - j);
  }

  lemma PageNumber(base: nat, k: nat)
    requires base % PAGE == 0
    ensures (base + PAGE * k) / PAGE == base / PAGE + k
  {
  }

  lemma NotCongruent(n: nat, d: nat)
    requires 0 < d < 0x10_0000_0000
    ensures n % 0x10_0000_0000 != (n + d) % 0x10_0000_0000
  {
  }

  /** The first pages of the block are mapped to frames of their own. */
  ghost predicate Backed(mem: Mem, tabs: map<Slot, nat>, root: nat, base: nat, frames: seq<nat>) {
    Once(frames) && forall k | 0 <= k < |frames| :: Translate(mem, tabs, root, PageOf(base, k)) == Some(frames[k])
  }

  /** The page is none of the block's, seen from address space `r`. */
  ghost predicate Off(r: nat, p: Path, root: nat, base: nat, count: nat) {
    forall k | 0 <= k < count :: SlotOf(r, p) != SlotOf(root, PageOf(base, k))
  }

  /** What the entry of a page lets through; nothing without an entry. */
  ghost function RightsAt(mem: Mem, tabs: map<Slot, nat>, root: nat, p: Path): Rights
    requires |p| == 4
  {
    var e := Leaf(mem, tabs, root, p);
    if e.Some? then RightsOf(e.value) else Rights(false, false, true)
  }

  /** Pages outside the block are mapped as before. */
  ghost predicate Undisturbed(mem: Mem, tabs: map<Slot, nat>, mem': Mem, tabs': map<Slot, nat>, roots: set<nat>,
                              root: nat, base: nat, count: nat) {
    forall r, p: Path | r in roots && |p| == 4 && Off(r, p, root, base, count) ::
      Leaf(mem', tabs', r, p) == Leaf(mem, tabs, r, p)
  }

  /** After mapping the first pages of a block of `count` pages: those pages have fresh
      frames and the given rights, nothing else is mapped differently, and no other data
      frame came or went. */
  ghost predicate Mapped(mem0: Mem, tabs0: map<Slot, nat>, data0: set<nat>, mem: Mem, tabs: map<Slot, nat>,
                         data: set<nat>, roots: set<nat>, root: nat, base: nat, count: nat, frames: seq<nat>,
                         rights: Rights) {
    forall g {:trigger Open(Backing, g)} | Open(Backing, g) ::
      && (forall k | 0 <= k < |frames| :: RightsAt(mem, tabs, root, PageOf(base, k)) == rights)
      && Backed(mem, tabs, root, base, frames) && Undisturbed(mem0, tabs0, mem, tabs, roots, root, base, count)
      && (forall f | f in frames :: f !in data0)
      && (forall f :: f in data <==> f in data0 || f in frames)
  }

  lemma MapStep(mem0: Mem, tabs0: map<Slot, nat>, data0: set<nat>, mem1: Mem, tabs1: map<Slot, nat>, data1: set<nat>,
                mem: Mem, tabs: map<Slot, nat>, data: set<nat>,
                roots: set<nat>, root: nat, base: nat, count: nat, frames: seq<nat>, rights: Rights, f: nat)
    requires Mapped(mem0, tabs0, data0, mem1, tabs1, data1, roots, root, base, count, frames, rights) && root in roots
    requires |frames| < count <= 0x10_0000_0000 && base % PAGE == 0
    requires f !in data1 && data == data1 + {f}
    requires SameButAt(mem1, tabs1, mem, tabs, roots, root, PageOf(base, |frames|))
    requires Translate(mem, tabs, root, PageOf(base, |frames|)) == Some(f)
    requires RightsAt(mem, tabs, root, PageOf(base, |frames|)) == rights
    ensures Mapped(mem0, tabs0, data0, mem, tabs, data, roots, root, base, count, frames + [f], rights)
  {
    assert Open(Backing, 0);
    var frames' := frames + [f];
    forall x ensures x in frames' <==> x in frames || x == f {}
    forall k | 0 <= k < |frames'|
      ensures Translate(mem, tabs, root, PageOf(base, k)) == Some(frames'[k])
      ensures RightsAt(mem, tabs, root, PageOf(base, k)) == rights
    {
      if k < |frames| {
        PagesOnce(base, k, |frames|);
        PathSlots(root, PageOf(base, k), PageOf(base, |frames|));
      }
    }
    forall k | 0 <= k < |frames| ensures frames[k] != f { assert frames[k] in frames; }
    forall r, p: Path | r in roots && |p| == 4 && Off(r, p, root, base, count)
      ensures Leaf(mem, tabs, r, p) == Leaf(mem0, tabs0, r, p)
    {
      assert SlotOf(r, p) != SlotOf(root, PageOf(base, |frames|));
    }
  }

  lemma PathSlots(root: nat, p: Path, q: Path)
    requires p != q
    ensures SlotOf(root, p) != SlotOf(root, q)
  {
  }

  /** Maps fresh frames to the pages of a block. */
  method MapBlock(mmu: Mmu, root: nat, base: nat, count: nat, flags: nat) returns (ok: bool, ghost frames: seq<nat>)
    requires mmu.Valid() && mmu.Full() && root in mmu.roots && base % PAGE == 0 && count <= 0x10_0000_0000
    requires FlagsOk(flags)
    modifies mmu`tabs, mmu.pmm
    ensures mmu.Valid() && mmu.Full() && (!ok ==> mmu.OutOfMemory())
    ensures ok ==> |frames| == count
    ensures ok ==> Mapped(old(mmu.pmm.mem), old(mmu.tabs), old(mmu.Data()), mmu.pmm.mem, mmu.tabs, mmu.Data(),
                          mmu.roots, root, base, count, frames, RightsOf(flags))
  {
    frames := [];
    ghost var mem0, tabs0, data0 := mmu.pmm.mem, mmu.tabs, mmu.Data();
    for k := 0 to count
      invariant mmu.Valid() && mmu.Full() && |frames| == k
      invariant Mapped(mem0, tabs0, data0, mmu.pmm.mem, mmu.tabs, mmu.Data(), mmu.roots, root, base, count, frames,
                       RightsOf(flags))
    {
      ghost var f;
      ok, f := MapNext(mmu, root, base, k, flags, count, mem0, tabs0, data0, frames);
      if !ok { return false, frames; }
      frames := frames + [f];
    }
    ok := true;
  }

  method MapNext(mmu: Mmu, root: nat, base: nat, k: nat, flags: nat, ghost count: nat,
                 ghost mem0: Mem, ghost tabs0: map<Slot, nat>, ghost data0: set<nat>, ghost frames: seq<nat>)
    returns (ok: bool, ghost f: nat)
    requires mmu.Valid() && mmu.Full() && root in mmu.roots && base % PAGE == 0
    requires k == |frames| < count <= 0x10_0000_0000 && FlagsOk(flags)
    requires Mapped(mem0, tabs0, data0, mmu.pmm.mem, mmu.tabs, mmu.Data(), mmu.roots, root, base, count, frames,
                    RightsOf(flags))
    modifies mmu`tabs, mmu.pmm
    ensures mmu.Valid() && mmu.Full() && (!ok ==> mmu.OutOfMemory())
    ensures ok ==>
      Mapped(mem0, tabs0, data0, mmu.pmm.mem, mmu.tabs, mmu.Data(), mmu.roots, root, base, count, frames + [f],
             RightsOf(flags))
  {
    ghost var mem1, tabs1, data1 := mmu.pmm.mem, mmu.tabs, mmu.Data();
    ok, f := MapFresh(mmu, root, base + PAGE * k, flags);
    if ok {
      MapStep(mem0, tabs0, data0, mem1, tabs1, data1, mmu.pmm.mem, mmu.tabs, mmu.Data(), mmu.roots,
              root, base, count, frames, RightsOf(flags), f);
    }
  }

  /** Maps a page to a frame that held nothing before. */
  method MapFresh(mmu: Mmu, root: nat, virt: nat, flags: nat) returns (ok: bool, ghost f: nat)
    requires mmu.Valid() && mmu.Full() && root in mmu.roots && FlagsOk(flags)
    modifies mmu`tabs, mmu.pmm
    ensures mmu.Valid() && mmu.Full() && (!ok ==> mmu.OutOfMemory())
    ensures ok ==> f !in old(mmu.Data()) && mmu.Data() == old(mmu.Data()) + {f}
    ensures ok ==> Translate(mmu.pmm.mem, mmu.tabs, root, PathOf(virt)) == Some(f)
    ensures ok ==> RightsAt(mmu.pmm.mem, mmu.tabs, root, PathOf(virt)) == RightsOf(flags)
    ensures ok ==> SameButAt(old(mmu.pmm.mem), old(mmu.tabs), mmu.pmm.mem, mmu.tabs, mmu.roots, root, PathOf(virt))
  {
    var page := mmu.Fresh();
    f := 0;
    if page.None? { return false, 0; }
    f := page.value;
    FullMayHang(mmu, root, virt);
    MaskFrame(page.value);
    ok := mmu.MapPage(root, virt, page.value, flags);
    if ok { EntryRights(Leaf(mmu.pmm.mem, mmu.tabs, root, PathOf(virt)).value, page.value, flags); }
  }

  /** Freeing a data frame disturbs no table. */
  lemma FreeData(mem: Mem, mem': Mem, roots: set<nat>, tabs: map<Slot, nat>, used: set<nat>, f: nat)
    requires WellMapped(mem, roots, tabs, used) && f !in tabs.Values
    requires forall g | g in mem && g != f :: g in mem' && mem'[g] == mem[g]
    ensures WellMapped(mem', roots, tabs, used - {f}) && SameDoors(mem, tabs, mem', roots)
    ensures forall r, p: Path | |p| == 4 :: Leaf(mem', tabs, r, p) == Leaf(mem, tabs, r, p)
  {
    assert Open(PageTables, 0);
    TablesOnly(mem, mem', roots, tabs, used);
  }

  lemma DataFrame(pmm: Allocator, f: nat)
    requires pmm.Valid() && f in pmm.UsedFrames()
    ensures f > 0 && f % PAGE == 0
  {
    CursorManaged(pmm.tables, pmm.pages, pmm.fillTable, pmm.fillPage, f);
    ManagedFits(pmm.tables, pmm.hhdm, f);
  }

  /** Unmaps a page and frees its frame. */
  method UnmapFree(mmu: Mmu, root: nat, virt: nat, ghost f: nat)
    requires mmu.Valid() && root in mmu.roots && f in mmu.Data()
    requires Translate(mmu.pmm.mem, mmu.tabs, root, PathOf(virt)) == Some(f)
    modifies mmu.pmm
    ensures mmu.Valid() && mmu.Data() == old(mmu.Data()) - {f}
    ensures Translate(mmu.pmm.mem, mmu.tabs, root, PathOf(virt)).None?
    ensures SameButAt(old(mmu.pmm.mem), mmu.tabs, mmu.pmm.mem, mmu.tabs, mmu.roots, root, PathOf(virt))
  {
    var phys := mmu.GetPhys(root, virt);
    mmu.UnmapPage(root, virt);
    DataFrame(mmu.pmm, f);
    if phys != 0 { FreeFrame(mmu, phys); }
  }

  method FreeFrame(mmu: Mmu, f: nat)
    requires mmu.Valid() && f in mmu.Data() && f % PAGE == 0
    modifies mmu.pmm
    ensures mmu.Valid() && mmu.Data() == old(mmu.Data()) - {f}
    ensures SameDoors(old(mmu.pmm.mem), mmu.tabs, mmu.pmm.mem, mmu.roots)
    ensures forall r, p: Path | |p| == 4 ::
      Leaf(mmu.pmm.mem, mmu.tabs, r, p) == Leaf(old(mmu.pmm.mem), mmu.tabs, r, p)
  {
    ghost var mem, used := mmu.pmm.mem, mmu.pmm.UsedFrames();
    var r := mmu.pmm.FreePage(f);
    FreeData(mem, mmu.pmm.mem, mmu.roots, mmu.tabs, used, f);
  }

  /** After unmapping the first pages: they translate to nothing, their frames are free,
      the other pages of the block are still there, and nothing else has changed. */
  ghost predicate Unmapped(mem0: Mem, data0: set<nat>, mem: Mem, tabs: map<Slot, nat>, data: set<nat>,
                           roots: set<nat>, root: nat, base: nat, frames: seq<nat>, k: nat) {
    forall g {:trigger Open(Backing, g)} | Open(Backing, g) ::
      && k <= |frames| && Once(frames) && Undisturbed(mem0, tabs, mem, tabs, roots, root, base, |frames|)
      && (forall j | 0 <= j < k :: Translate(mem, tabs, root, PageOf(base, j)).None?)
      && (forall j | k <= j < |frames| :: Translate(mem, tabs, root, PageOf(base, j)) == Some(frames[j]))
      && (forall f | f in frames :: f in data0)
      && (forall f :: f in data <==> f in data0 && f !in frames[..k])
  }

  lemma UnmapStep(mem0: Mem, data0: set<nat>, mem1: Mem, mem: Mem, tabs: map<Slot, nat>, data1: set<nat>,
                  data: set<nat>, roots: set<nat>, root: nat, base: nat, frames: seq<nat>, k: nat)
    requires Unmapped(mem0, data0, mem1, tabs, data1, roots, root, base, frames, k) && root in roots
    requires k < |frames| <= 0x10_0000_0000 && base % PAGE == 0 && data == data1 - {frames[k]}
    requires SameButAt(mem1, tabs, mem, tabs, roots, root, PageOf(base, k))
    requires Translate(mem, tabs, root, PageOf(base, k)).None?
    ensures Unmapped(mem0, data0, mem, tabs, data, roots, root, base, frames, k + 1)
  {
    assert Open(Backing, 0);
    forall j | 0 <= j < |frames| && j != k
      ensures Translate(mem, tabs, root, PageOf(base, j)) == Translate(mem1, tabs, root, PageOf(base, j))
    {
      if j < k { PagesOnce(base, j, k); } else { PagesOnce(base, k, j); }
      PathSlots(root, PageOf(base, j), PageOf(base, k));
    }
    forall f ensures f in frames[..k + 1] <==> f in frames[..k] || f == frames[k] {
      assert frames[..k + 1] == frames[..k] + [frames[k]];
    }
    forall r, p: Path | r in roots && |p| == 4 && Off(r, p, root, base, |frames|)
      ensures Leaf(mem, tabs, r, p) == Leaf(mem0, tabs, r, p)
    {
      assert SlotOf(r, p) != SlotOf(root, PageOf(base, k));
    }
  }

  lemma UnmapReady(mem0: Mem, data0: set<nat>, mem1: Mem, tabs: map<Slot, nat>, data1: set<nat>,
                   roots: set<nat>, root: nat, base: nat, frames: seq<nat>, k: nat)
    requires Unmapped(mem0, data0, mem1, tabs, data1, roots, root, base, frames, k) && k < |frames|
    ensures Translate(mem1, tabs, root, PageOf(base, k)) == Some(frames[k]) && frames[k] in data1
  {
    assert Open(Backing, 0);
    assert frames[k] in frames && frames[k] !in frames[..k];
  }

  /** Unmaps and frees every page of a block. */
  method UnmapBlock(mmu: Mmu, root: nat, base: nat, count: nat, ghost frames: seq<nat>)
    requires mmu.Valid() && root in mmu.roots && base % PAGE == 0 && count == |frames| <= 0x10_0000_0000
    requires Backed(mmu.pmm.mem, mmu.tabs, root, base, frames) && forall f | f in frames :: f in mmu.Data()
    modifies mmu.pmm
    ensures mmu.Valid()
    ensures Unmapped(old(mmu.pmm.mem), old(mmu.Data()), mmu.pmm.mem, mmu.tabs, mmu.Data(), mmu.roots, root, base,
                     frames, count)
  {
    ghost var mem0, data0 := mmu.pmm.mem, mmu.Data();
    for k := 0 to count
      invariant mmu.Valid()
      invariant Unmapped(mem0, data0, mmu.pmm.mem, mmu.tabs, mmu.Data(), mmu.roots, root, base, frames, k)
    {
      UnmapReady(mem0, data0, mmu.pmm.mem, mmu.tabs, mmu.Data(), mmu.roots, root, base, frames, k);
      ghost var mem1, data1 := mmu.pmm.mem, mmu.Data();
      UnmapFree(mmu, root, base + PAGE * k, frames[k]);
      UnmapStep(mem0, data0, mem1, mmu.pmm.mem, mmu.tabs, data1, mmu.Data(), mmu.roots, root, base, frames, k);
    }
  }

  const PREFIX := SlabHeap.PREFIX

  /** Kernel data: not for users, writable, not executable. */
  const DATA_RIGHTS := Rights(false, true, true)

  function PageCount(size: nat): nat {
    Ranges.AlignUp(size + PREFIX) / PAGE
  }

  lemma CountFits(size: nat)
    requires size <= 0x8000_0000_0000
    ensures PageCount(size) <= 0x10_0000_0000 && 0 < size + PREFIX <= WORD - PAGE
  {
  }

  /** A large block: the lowest address range that fits, every page of it mapped to a
      fresh frame.  Without a range that fits, the code carries on at address 0. */
  method MallocLarge(pm: Vma.Pagemap, mmu: Mmu, size: nat, ghost lo: nat, ghost hi: nat)
    returns (ok: bool, block: nat, ghost n: RbHeap.Ptr, ghost frames: seq<nat>)
    requires pm.Valid() && pm.Tiled(lo, hi) && mmu.Valid() && mmu.Full() && mmu.kernelRoot in mmu.roots
    requires 1024 < size <= 0x8000_0000_0000
    modifies pm.heap, pm.freeRanges, pm.usedRanges, mmu`tabs, mmu.pmm
    ensures pm.Valid() && pm.Tiled(lo, hi) && mmu.Valid() && mmu.Full() && (!ok ==> mmu.OutOfMemory())
    ensures block % PAGE == 0
    ensures n == RbHeap.NULL <==> NoRoom(old(pm.heap.mem), old(RbShape.Nodes(pm.freeRanges.t)), size)
    ensures n == RbHeap.NULL ==> block == 0
    ensures n == RbHeap.NULL ==>
      pm.Unchanged(old(pm.heap.mem), old(RbShape.Nodes(pm.freeRanges.t)), old(RbShape.Nodes(pm.usedRanges.t)))
    ensures n != RbHeap.NULL ==>
      Taken(old(pm.heap.mem), old(RbShape.Nodes(pm.freeRanges.t)), old(RbShape.Nodes(pm.usedRanges.t)), n, block, size,
            pm.heap.mem, RbShape.Nodes(pm.freeRanges.t), RbShape.Nodes(pm.usedRanges.t), lo, hi)
    ensures ok ==> |frames| == PageCount(size)
    ensures ok ==> Mapped(old(mmu.pmm.mem), old(mmu.tabs), old(mmu.Data()), mmu.pmm.mem, mmu.tabs, mmu.Data(),
                          mmu.roots, mmu.kernelRoot, block, PageCount(size), frames, DATA_RIGHTS)
    ensures ok ==> forall v | block <= v < block + 16 + size :: KernelData(mmu.pmm.mem, mmu.kernelRoot, v)
  {
    CountFits(size);
    ghost var m0, f0, u0 := pm.heap.mem, RbShape.Nodes(pm.freeRanges.t), RbShape.Nodes(pm.usedRanges.t);
    ghost var mem0, tabs0, data0 := mmu.pmm.mem, mmu.tabs, mmu.Data();
    block, n := pm.Valloc(size + PREFIX, lo, hi);
    if n != RbHeap.NULL { Vma.StartHeld(m0, f0, u0, n, lo, hi); }
    DataFlags();
    ok, frames := MapBlock(mmu, mmu.kernelRoot, block, PageCount(size), Or(WRITABLE, NX));
    if ok {
      MappedPages(mem0, tabs0, data0, mmu.pmm.mem, mmu.tabs, mmu.Data(), mmu.roots, mmu.kernelRoot, block,
                  PageCount(size), frames);
      forall v | block <= v < block + 16 + size ensures KernelData(mmu.pmm.mem, mmu.kernelRoot, v) {
        ByteSeen(mmu.pmm.mem, mmu.roots, mmu.tabs, mmu.pmm.UsedFrames(), mmu.kernelRoot, block, size, v);
      }
    }
  }

  /** The processor finds a frame at the address: writable, neither executable nor for users. */
  ghost predicate KernelData(mem: Mem, root: nat, v: nat) {
    var t := Addressing.Hardware(mem, root, v, 3);
    t.Some? && t.value.rights == Rights(false, true, true)
  }

  ghost predicate BlockPages(mem: Mem, tabs: map<Slot, nat>, root: nat, base: nat, count: nat) {
    forall k | 0 <= k < count ::
      Leaf(mem, tabs, root, PageOf(base, k)).Some? && RightsAt(mem, tabs, root, PageOf(base, k)) == DATA_RIGHTS
  }

  lemma MappedPages(mem0: Mem, tabs0: map<Slot, nat>, data0: set<nat>, mem: Mem, tabs: map<Slot, nat>, data: set<nat>,
                    roots: set<nat>, root: nat, base: nat, count: nat, frames: seq<nat>)
    requires Mapped(mem0, tabs0, data0, mem, tabs, data, roots, root, base, count, frames, DATA_RIGHTS)
    ensures BlockPages(mem, tabs, root, base, |frames|)
  {
    assert Open(Backing, 0);
    forall k | 0 <= k < |frames| ensures Leaf(mem, tabs, root, PageOf(base, k)).Some? {
      assert Translate(mem, tabs, root, PageOf(base, k)) == Some(frames[k]);
    }
  }

  /** Every byte of a block and its prefix, up to the last one. */
  lemma ByteSeen(mem: Mem, roots: set<nat>, tabs: map<Slot, nat>, used: set<nat>, root: nat, block: nat, size: nat,
                 v: nat)
    requires WellMapped(mem, roots, tabs, used) && root in roots && block % PAGE == 0 && size <= 0x8000_0000_0000
    requires BlockPages(mem, tabs, root, block, PageCount(size)) && block <= v < block + 16 + size
    ensures KernelData(mem, root, v)
  {
    var k := (v - block) / PAGE;
    PageWithin(block, size, v, k);
    PathOnce(v, block + PAGE * k);
    assert Leaf(mem, tabs, root, PageOf(block, k)).Some?;
    Addressing.HardwareAgrees(mem, roots, tabs, used, root, v);
  }

  lemma PageWithin(block: nat, size: nat, v: nat, k: nat)
    requires block % PAGE == 0 && size <= 0x8000_0000_0000 && block <= v < block + 16 + size && k == (v - block) / PAGE
    ensures k < PageCount(size) && v / PAGE == (block + PAGE * k) / PAGE
  {
    PageNumber(block, k);
  }

  /** No free range is large enough for a block and its prefix. */
  ghost predicate NoRoom(m: RbHeap.Mem, fs: set<nat>, size: nat) {
    forall k | k in fs && k in m :: m[k].size < Ranges.AlignUp(size + PREFIX)
  }

  /** The block is the start of the lowest range that fitted, and is used now. */
  ghost predicate Taken(m0: RbHeap.Mem, f0: set<nat>, u0: set<nat>, n: nat, block: nat, size: nat,
                        m: RbHeap.Mem, f: set<nat>, u: set<nat>, lo: nat, hi: nat) {
    && n in m0 && Vma.FirstFit(m0, f0, Ranges.AlignUp(size + PREFIX), n) && block == m0[n].vaddr
    && Vma.Carved(m0, f0, u0, n, block, Ranges.AlignUp(size + PREFIX), m, f, u, lo, hi)
  }

  /** Takes a large block apart: every page unmapped and its frame freed, then the range. */
  method FreeLarge(pm: Vma.Pagemap, mmu: Mmu, block: nat, size: nat, ghost frames: seq<nat>, ghost lo: nat,
                   ghost hi: nat)
    returns (code: nat, ghost n: RbHeap.Ptr)
    requires pm.Valid() && pm.Tiled(lo, hi) && mmu.Valid() && mmu.kernelRoot in mmu.roots && block % PAGE == 0
    requires 1024 < size <= 0x8000_0000_0000 && block + size + PREFIX + PAGE <= WORD && |frames| == PageCount(size)
    requires Backed(mmu.pmm.mem, mmu.tabs, mmu.kernelRoot, block, frames) && forall f | f in frames :: f in mmu.Data()
    modifies pm.heap, pm.freeRanges, pm.usedRanges, mmu.pmm
    ensures pm.Valid() && pm.Tiled(lo, hi) && mmu.Valid()
    ensures Unmapped(old(mmu.pmm.mem), old(mmu.Data()), mmu.pmm.mem, mmu.tabs, mmu.Data(), mmu.roots, mmu.kernelRoot,
                     block, frames, |frames|)
    ensures Vma.FreePlan(old(pm.heap.mem), old(RbShape.Nodes(pm.usedRanges.t)), Ranges.AlignUp(size + PREFIX), block,
                         code, n)
    ensures code != 0 ==> n in old(pm.heap.mem)
    ensures code != 0 ==>
      Vma.Carved(old(pm.heap.mem), old(RbShape.Nodes(pm.usedRanges.t)), old(RbShape.Nodes(pm.freeRanges.t)), n, block,
                 Ranges.AlignUp(size + PREFIX), pm.heap.mem,
                 RbShape.Nodes(pm.usedRanges.t), RbShape.Nodes(pm.freeRanges.t), lo, hi)
  {
    CountFits(size);
    Vma.AlignedSize(size + PREFIX);
    UnmapBlock(mmu, mmu.kernelRoot, block, PageCount(size), frames);
    code, n := pm.Vfree(block, size + PREFIX, lo, hi);
  }

  lemma BlockFits(m: RbHeap.Mem, fs: set<nat>, us: set<nat>, n: nat, size: nat, lo: nat, hi: nat)
    requires Ranges.Partition(m, fs, us, lo, hi) && n in fs && n in m && 1024 < size <= 0x8000_0000_0000
    requires Ranges.AlignUp(size + PREFIX) <= m[n].size
    ensures m[n].vaddr + size + PREFIX + PAGE <= WORD && m[n].vaddr % PAGE == 0 && Ranges.End(m[n]) < WORD
    ensures 0 < Ranges.AlignUp(size + PREFIX)
  {
    assert Open(Tiling, 0);
    assert n in fs + us && Ranges.Good(m[n]);
    CountFits(size);
    Vma.AlignedSize(size + PREFIX);
  }

  lemma MappedBacked(mem0: Mem, tabs0: map<Slot, nat>, data0: set<nat>, mem: Mem, tabs: map<Slot, nat>, data: set<nat>,
                     roots: set<nat>, root: nat, base: nat, count: nat, frames: seq<nat>, rights: Rights)
    requires Mapped(mem0, tabs0, data0, mem, tabs, data, roots, root, base, count, frames, rights)
    ensures Backed(mem, tabs, root, base, frames) && forall f | f in frames :: f in data
  {
    assert Open(Backing, 0);
  }

  /** Mapping a block and taking it apart cancel out. */
  lemma MappedUnmapped(mem0: Mem, tabs0: map<Slot, nat>, data0: set<nat>, mem1: Mem, tabs: map<Slot, nat>,
                       data1: set<nat>, mem: Mem, data: set<nat>,
                       roots: set<nat>, root: nat, base: nat, frames: seq<nat>, rights: Rights)
    requires Mapped(mem0, tabs0, data0, mem1, tabs, data1, roots, root, base, |frames|, frames, rights)
    requires Unmapped(mem1, data1, mem, tabs, data, roots, root, base, frames, |frames|)
    ensures data == data0 && Undisturbed(mem0, tabs0, mem, tabs, roots, root, base, |frames|)
    ensures forall k | 0 <= k < |frames| :: Translate(mem, tabs, root, PageOf(base, k)).None?
  {
    assert Open(Backing, 0);
    assert frames[..|frames|] == frames;
    forall f ensures f in data <==> f in data0 { assert f in frames ==> f !in data0; }
  }

  /** Freeing a large block that was just allocated gives back every frame and every
      address; its pages are unmapped, and all other pages translate as before. */
  method LargeRoundTrip(pm: Vma.Pagemap, mmu: Mmu, size: nat, ghost lo: nat, ghost hi: nat)
    returns (ok: bool, block: nat, code: nat, ghost n: RbHeap.Ptr)
    requires pm.Valid() && pm.Tiled(lo, hi) && mmu.Valid() && mmu.Full() && mmu.kernelRoot in mmu.roots && 0 < lo
    requires 1024 < size <= 0x8000_0000_0000
    modifies pm.heap, pm.freeRanges, pm.usedRanges, mmu`tabs, mmu.pmm
    ensures pm.Valid() && pm.Tiled(lo, hi) && mmu.Valid() && (!ok ==> mmu.OutOfMemory())
    ensures block == 0 <==> NoRoom(old(pm.heap.mem), old(RbShape.Nodes(pm.freeRanges.t)), size)
    ensures ok && !NoRoom(old(pm.heap.mem), old(RbShape.Nodes(pm.freeRanges.t)), size) ==>
      code == 1 && mmu.Data() == old(mmu.Data())
    ensures ok && !NoRoom(old(pm.heap.mem), old(RbShape.Nodes(pm.freeRanges.t)), size) ==>
      Undisturbed(old(mmu.pmm.mem), old(mmu.tabs), mmu.pmm.mem, mmu.tabs, mmu.roots, mmu.kernelRoot, block,
                  PageCount(size))
    ensures ok && !NoRoom(old(pm.heap.mem), old(RbShape.Nodes(pm.freeRanges.t)), size) ==>
      forall k | 0 <= k < PageCount(size) :: Translate(mmu.pmm.mem, mmu.tabs, mmu.kernelRoot, PageOf(block, k)).None?
    ensures ok && !NoRoom(old(pm.heap.mem), old(RbShape.Nodes(pm.freeRanges.t)), size) ==>
      forall a: nat :: Ranges.Holds(pm.heap.mem, RbShape.Nodes(pm.usedRanges.t), a)
                       <==> Ranges.Holds(old(pm.heap.mem), old(RbShape.Nodes(pm.usedRanges.t)), a)
  {
    ghost var m0, f0, u0 := pm.heap.mem, RbShape.Nodes(pm.freeRanges.t), RbShape.Nodes(pm.usedRanges.t);
    ghost var mem0, tabs0, data0 := mmu.pmm.mem, mmu.tabs, mmu.Data();
    ghost var frames, k;
    ok, block, n, frames := MallocLarge(pm, mmu, size, lo, hi);
    code := 0;
    if n != RbHeap.NULL { Vma.StartHeld(m0, f0, u0, n, lo, hi); }
    if !ok || block == 0 { return; }
    BlockFits(m0, f0, u0, n, size, lo, hi);
    ghost var m1, f1, u1 := pm.heap.mem, RbShape.Nodes(pm.freeRanges.t), RbShape.Nodes(pm.usedRanges.t);
    ghost var mem1, data1 := mmu.pmm.mem, mmu.Data();
    MappedBacked(mem0, tabs0, data0, mem1, mmu.tabs, data1, mmu.roots, mmu.kernelRoot, block, PageCount(size), frames,
                 DATA_RIGHTS);
    code, k := FreeLarge(pm, mmu, block, size, frames, lo, hi);
    MappedUnmapped(mem0, tabs0, data0, mem1, mmu.tabs, data1, mmu.pmm.mem, mmu.Data(), mmu.roots, mmu.kernelRoot, block,
                   frames, DATA_RIGHTS);
    Vma.AllocFreed(m0, f0, u0, n, block, Ranges.AlignUp(size + PREFIX), m1, f1, u1, code, k,
                   pm.heap.mem, RbShape.Nodes(pm.freeRanges.t), RbShape.Nodes(pm.usedRanges.t), lo, hi);
  }

  /** With one free page, a block of three pages is mapped at address 0. */
  method MappedAtZero(pm: Vma.Pagemap, mmu: Mmu) returns (ok: bool, block: nat)
    requires pm.Valid() && pm.Tiled(0x1000, 0x2000) && pm.Here() == Spaces.Space({Ranges.Range(0x1000, 0x1000)}, {})
    requires mmu.Valid() && mmu.Full() && mmu.kernelRoot in mmu.roots
    modifies pm.heap, pm.freeRanges, pm.usedRanges, mmu`tabs, mmu.pmm
    ensures block == 0 && (!ok ==> mmu.OutOfMemory())
    ensures ok ==> forall k | 0 <= k < 3 :: Translate(mmu.pmm.mem, mmu.tabs, mmu.kernelRoot, PathOf(PAGE * k)).Some?
  {
    ghost var m, fs := pm.heap.mem, RbShape.Nodes(pm.freeRanges.t);
    forall k | k in fs && k in m ensures m[k].size < Ranges.AlignUp(0x2000 + PREFIX) {
      assert Ranges.RangeOf(m[k]) in Ranges.RangesOf(m, fs);
    }
    ghost var mem0, tabs0, data0 := mmu.pmm.mem, mmu.tabs, mmu.Data();
    ghost var n, frames;
    ok, block, n, frames := MallocLarge(pm, mmu, 0x2000, 0x1000, 0x2000);
    if ok {
      MappedBacked(mem0, tabs0, data0, mmu.pmm.mem, mmu.tabs, mmu.Data(), mmu.roots, mmu.kernelRoot, block,
                   PageCount(0x2000), frames, DATA_RIGHTS);
      forall k | 0 <= k < 3 ensures Translate(mmu.pmm.mem, mmu.tabs, mmu.kernelRoot, PathOf(PAGE * k)).Some? {
        assert PageOf(0, k) == PathOf(PAGE * k);
      }
    }
  }
}
