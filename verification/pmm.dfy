/** The physical page allocator: a free list threaded through the free frames
    themselves and filled on demand, with a state for every frame. */
module Pmm {
  import opened Gates
  import opened Machine
  import opened PhysMem
  import opened Options

  /** Physical addresses have 52 bits. */
  const PHYS_END := 0x10_0000_0000_0000

  datatype PageState = Uninit | Free | Used

  /** One region of managed frames. */
  datatype Child = Child(start: nat, num: nat)

  datatype Info = NoInfo | BadIndex | Page(frame: nat)

  datatype FreeResult = Freed | Ignored | Panicked

  function FrameAt(tables: seq<Child>, t: nat, i: nat): nat
    requires t < |tables|
  {
    tables[t].start + PAGE * i
  }

  function EndOf(c: Child): nat {
    c.start + PAGE * c.num
  }

  /** Regions are page aligned and not adjacent: each starts behind its own records. */
  ghost predicate TablesOk(tables: seq<Child>, hhdm: nat) {
    forall g {:trigger Open(Regions, g)} | Open(Regions, g) ::
      && (forall t | 0 <= t < |tables| ::
            && tables[t].start > 0 && tables[t].start % PAGE == 0 && tables[t].num > 0
            && EndOf(tables[t]) <= PHYS_END && EndOf(tables[t]) + hhdm < WORD)
      && forall t, u | 0 <= t < u < |tables| :: EndOf(tables[t]) < tables[u].start || EndOf(tables[u]) < tables[t].start
  }

  ghost predicate IndexOk(tables: seq<Child>, t: nat, i: nat) {
    t < |tables| && i < tables[t].num
  }

  ghost predicate Managed(tables: seq<Child>, f: nat) {
    exists t: nat, i: nat :: IndexOk(tables, t, i) && f == FrameAt(tables, t, i)
  }

  /** The address is that just behind a region. */
  ghost predicate AtEnd(tables: seq<Child>, phys: nat) {
    exists t :: 0 <= t < |tables| && phys == EndOf(tables[t])
  }

  /** The address is neither in a region nor just behind one. */
  ghost predicate Outside(tables: seq<Child>, phys: nat) {
    forall t | 0 <= t < |tables| :: !(tables[t].start <= phys <= EndOf(tables[t]))
  }

  /** A frame belongs to one region, at one index. */
  lemma FrameOnce(tables: seq<Child>, hhdm: nat, t: nat, i: nat, u: nat, j: nat)
    requires TablesOk(tables, hhdm) && IndexOk(tables, t, i) && IndexOk(tables, u, j)
    requires FrameAt(tables, t, i) == FrameAt(tables, u, j)
    ensures t == u && i == j
  {
    assert Open(Regions, 0);
    Inside(tables, t, i);
    Inside(tables, u, j);
    if t == u { PageInj(i, j); }
  }

  lemma PageInj(i: nat, j: nat)
    requires PAGE * i == PAGE * j
    ensures i == j
  {
  }

  lemma Inside(tables: seq<Child>, t: nat, i: nat)
    requires IndexOk(tables, t, i)
    ensures tables[t].start <= FrameAt(tables, t, i) && FrameAt(tables, t, i) + PAGE <= EndOf(tables[t])
  {
  }

  /** The node pointers of a list whose `k`-th element is next; 0 ends the list. */
  function NodePtr(free: seq<nat>, k: nat, hhdm: nat): nat {
    if k < |free| then free[k] + hhdm else 0
  }

  /** The list reached from `head` through the frames' first words is `free`. */
  ghost predicate Chain(mem: map<nat, Frame>, head: nat, free: seq<nat>, hhdm: nat) {
    && head == NodePtr(free, 0, hhdm)
    && forall k | 0 <= k < |free| ::
         free[k] in mem && |mem[free[k]]| == PAGE && Word(mem[free[k]], 0) == NodePtr(free, k + 1, hhdm)
  }

  ghost predicate Once(s: seq<nat>) {
    forall j, k | 0 <= j < k < |s| :: s[j] != s[k]
  }

  /** It holds every free frame once. */
  ghost predicate FreeListOk(mem: map<nat, Frame>, head: nat, free: seq<nat>, pages: map<nat, PageState>, hhdm: nat) {
    forall g {:trigger Open(FreeList, g)} | Open(FreeList, g) ::
      && hhdm > 0 && (forall f | f in pages :: f + hhdm < WORD)
      && Chain(mem, head, free, hhdm) && Once(free)
      && (forall f :: f in free <==> f in pages && pages[f] == Free)
  }

  lemma PushChain(mem: map<nat, Frame>, head: nat, free: seq<nat>, hhdm: nat, f: nat)
    requires Chain(mem, head, free, hhdm) && f in mem && |mem[f]| == PAGE && f !in free && head < WORD
    ensures Chain(mem[f := SetWord(mem[f], 0, head)], f + hhdm, [f] + free, hhdm)
  {
    var mem', free' := mem[f := SetWord(mem[f], 0, head)], [f] + free;
    SetGet(mem[f], 0, head);
    forall k | 0 <= k < |free'|
      ensures free'[k] in mem' && |mem'[free'[k]]| == PAGE && Word(mem'[free'[k]], 0) == NodePtr(free', k + 1, hhdm)
    {
      if k > 0 { assert free'[k] == free[k - 1] && free[k - 1] in free; }
    }
  }

  lemma PopChain(mem: map<nat, Frame>, head: nat, free: seq<nat>, hhdm: nat, page: Frame)
    requires Chain(mem, head, free, hhdm) && Once(free) && free != []
    ensures Chain(mem[free[0] := page], Word(mem[free[0]], 0), free[1..], hhdm)
  {
    var mem', free' := mem[free[0] := page], free[1..];
    forall k | 0 <= k < |free'|
      ensures free'[k] in mem' && |mem'[free'[k]]| == PAGE && Word(mem'[free'[k]], 0) == NodePtr(free', k + 1, hhdm)
    {
      assert free'[k] == free[k + 1] && free[0] != free[k + 1];
    }
  }

  lemma PushOk(mem: map<nat, Frame>, head: nat, free: seq<nat>, pages: map<nat, PageState>, hhdm: nat, f: nat)
    requires FreeListOk(mem, head, free, pages, hhdm) && f in mem && |mem[f]| == PAGE && f in pages && pages[f] != Free
    ensures FreeListOk(mem[f := SetWord(mem[f], 0, head)], f + hhdm, [f] + free, pages[f := Free], hhdm)
  {
    assert Open(FreeList, 0);
    assert f !in free && (free != [] ==> free[0] in free);
    PushChain(mem, head, free, hhdm, f);
    forall g ensures g in [f] + free <==> g == f || g in free {}
  }

  lemma PopOk(mem: map<nat, Frame>, head: nat, free: seq<nat>, pages: map<nat, PageState>, hhdm: nat, page: Frame)
    requires FreeListOk(mem, head, free, pages, hhdm) && free != []
    ensures var f := free[0];
      && f in mem && f in pages && pages[f] == Free && head == f + hhdm && |mem[f]| == PAGE
      && FreeListOk(mem[f := page], Word(mem[f], 0), free[1..], pages[f := Used], hhdm)
  {
    assert Open(FreeList, 0);
    var f := free[0];
    assert f in free;
    PopChain(mem, head, free, hhdm, page);
    forall g ensures g in free[1..] <==> g != f && g in free {
      if g in free && g != f { var k :| 0 <= k < |free| && free[k] == g; assert free[1..][k - 1] == g; }
    }
  }

  lemma StoreOk(mem: map<nat, Frame>, head: nat, free: seq<nat>, pages: map<nat, PageState>, hhdm: nat, f: nat,
                page: Frame)
    requires FreeListOk(mem, head, free, pages, hhdm) && f in pages && pages[f] != Free
    ensures FreeListOk(mem[f := page], head, free, pages, hhdm)
  {
    assert Open(FreeList, 0);
    forall k | 0 <= k < |free| ensures free[k] != f { assert free[k] in free; }
  }

  lemma EmptyList(mem: map<nat, Frame>, head: nat, free: seq<nat>, pages: map<nat, PageState>, hhdm: nat)
    requires FreeListOk(mem, head, free, pages, hhdm)
    ensures head == 0 <==> free == []
    ensures free == [] ==> forall f | f in pages :: pages[f] != Free
    ensures free != [] ==> free[0] in pages && pages[free[0]] == Free
  {
    assert Open(FreeList, 0);
    if free != [] { assert free[0] in free; }
  }

  /** The frames not yet touched are exactly those from the cursor on. */
  ghost predicate CursorOk(tables: seq<Child>, pages: map<nat, PageState>, t: nat, i: nat) {
    forall g {:trigger Open(Cursor, g)} | Open(Cursor, g) ::
      && (forall f :: f in pages <==> Managed(tables, f))
      && forall u: nat, j: nat | IndexOk(tables, u, j) ::
           FrameAt(tables, u, j) in pages && (pages[FrameAt(tables, u, j)] == Uninit <==> u > t || (u == t && j >= i))
  }

  lemma CursorSame(tables: seq<Child>, pages: map<nat, PageState>, t: nat, i: nat, f: nat, s: PageState)
    requires CursorOk(tables, pages, t, i) && f in pages && pages[f] != Uninit && s != Uninit
    ensures CursorOk(tables, pages[f := s], t, i)
  {
    assert Open(Cursor, 0);
  }

  lemma CursorStep(tables: seq<Child>, pages: map<nat, PageState>, t: nat, i: nat, hhdm: nat)
    requires TablesOk(tables, hhdm) && CursorOk(tables, pages, t, i) && IndexOk(tables, t, i)
    ensures var f := FrameAt(tables, t, i);
            f in pages && pages[f] == Uninit && CursorOk(tables, pages[f := Free], t, i + 1)
  {
    assert Open(Cursor, 0);
    var f := FrameAt(tables, t, i);
    var pages' := pages[f := Free];
    forall u: nat, j: nat | IndexOk(tables, u, j)
      ensures FrameAt(tables, u, j) in pages'
      ensures (pages'[FrameAt(tables, u, j)] == Uninit <==> u > t || (u == t && j >= i + 1))
    {
      if FrameAt(tables, u, j) == f { FrameOnce(tables, hhdm, t, i, u, j); }
    }
  }

  lemma CursorNext(tables: seq<Child>, pages: map<nat, PageState>, t: nat, i: nat)
    requires CursorOk(tables, pages, t, i) && t < |tables| && i >= tables[t].num
    ensures CursorOk(tables, pages, t + 1, 0)
  {
    assert Open(Cursor, 0);
  }

  lemma CursorEnd(tables: seq<Child>, pages: map<nat, PageState>, t: nat, i: nat)
    requires CursorOk(tables, pages, t, i) && t >= |tables|
    ensures forall f | f in pages :: pages[f] != Uninit
  {
    assert Open(Cursor, 0);
  }

  lemma CursorManaged(tables: seq<Child>, pages: map<nat, PageState>, t: nat, i: nat, f: nat)
    requires CursorOk(tables, pages, t, i)
    ensures f in pages <==> Managed(tables, f)
  {
    assert Open(Cursor, 0);
  }

  ghost function StateIn(pages: map<nat, PageState>, s: PageState): set<nat> {
    set f | f in pages && pages[f] == s
  }

  ghost predicate Counts(pages: map<nat, PageState>, used: nat, total: nat) {
    forall g {:trigger Open(Counting, g)} | Open(Counting, g) :: used == |StateIn(pages, Used)| && total == |pages.Keys|
  }

  /** Every frame is counted in one state. */
  lemma CountStates(pages: map<nat, PageState>, used: nat, total: nat)
    requires Counts(pages, used, total)
    ensures |StateIn(pages, Uninit)| + |StateIn(pages, Free)| + used == total
  {
    assert Open(Counting, 0);
    var a, b, c := StateIn(pages, Uninit), StateIn(pages, Free), StateIn(pages, Used);
    assert pages.Keys == a + b + c;
    assert |a + b| == |a| + |b| && |a + b + c| == |a + b| + |c|;
  }

  lemma UsedAdd(pages: map<nat, PageState>, f: nat, used: nat, total: nat)
    requires f in pages && pages[f] != Used && Counts(pages, used, total)
    ensures StateIn(pages[f := Used], Used) == StateIn(pages, Used) + {f} && Counts(pages[f := Used], used + 1, total)
    ensures pages[f := Used].Keys == pages.Keys
  {
    assert Open(Counting, 0);
    assert f !in StateIn(pages, Used);
  }

  lemma UsedDrop(pages: map<nat, PageState>, f: nat, used: nat, total: nat)
    requires f in pages && pages[f] == Used && Counts(pages, used, total)
    ensures StateIn(pages[f := Free], Used) == StateIn(pages, Used) - {f} && used > 0
    ensures Counts(pages[f := Free], used - 1, total)
    ensures pages[f := Free].Keys == pages.Keys
  {
    assert Open(Counting, 0);
    assert f in StateIn(pages, Used);
  }

  lemma UsedKept(pages: map<nat, PageState>, f: nat, used: nat, total: nat)
    requires f in pages && pages[f] == Uninit && Counts(pages, used, total)
    ensures StateIn(pages[f := Free], Used) == StateIn(pages, Used) && Counts(pages[f := Free], used, total)
    ensures pages[f := Free].Keys == pages.Keys
  {
    assert Open(Counting, 0);
  }

  class Allocator {
    const hhdm: nat
    const tables: seq<Child>
    var mem: map<nat, Frame>
    var pages: map<nat, PageState>
    var head: nat
    var fillTable: nat
    var fillPage: nat
    var total: nat
    var used: nat
    ghost var free: seq<nat>

    ghost predicate Core()
      reads this
    {
      && TablesOk(tables, hhdm)
      && mem.Keys == pages.Keys && (forall f | f in mem :: |mem[f]| == PAGE)
      && FreeListOk(mem, head, free, pages, hhdm)
      && CursorOk(tables, pages, fillTable, fillPage)
      && Counts(pages, used, total)
    }

    ghost predicate Valid()
      reads this
    {
      Core() && (fillTable < |tables| ==> fillPage < tables[fillTable].num)
    }

    ghost function UsedFrames(): set<nat>
      reads this
    {
      StateIn(pages, Used)
    }

    /** All frames are untouched, except that the list is filled once. */
    constructor (hhdm: nat, tables: seq<Child>, boot: map<nat, Frame>)
      requires TablesOk(tables, hhdm) && hhdm > 0
      requires forall f :: f in boot <==> Managed(tables, f)
      requires forall f | f in boot :: |boot[f]| == PAGE
      ensures Valid() && UsedFrames() == {} && used == 0 && this.hhdm == hhdm && this.tables == tables
      ensures pages.Keys == boot.Keys
    {
      this.hhdm, this.tables, mem := hhdm, tables, boot;
      pages := map f | f in boot :: Uninit;
      head, free, fillTable, fillPage, used, total := 0, [], 0, 0, 0, |boot.Keys|;
      new;
      assert pages.Keys == boot.Keys;
      Untouched(tables, hhdm, pages, mem, total);
      Fill(512);
    }

    /** The record of the frame an address lies in.  A region's bounds are tested
        inclusively, so the address just behind a region panics. */
    method GetPageInfo(phys: nat) returns (r: Info)
      requires TablesOk(tables, hhdm)
      ensures r.Page? ==> r.frame == phys / PAGE * PAGE && Managed(tables, r.frame)
      ensures r.BadIndex? <==> AtEnd(tables, phys)
      ensures r.NoInfo? <==> Outside(tables, phys)
    {
      for t := 0 to |tables|
        invariant forall u | 0 <= u < t :: !(tables[u].start <= phys <= EndOf(tables[u]))
      {
        var c := tables[t];
        if c.start <= phys <= EndOf(c) {
          var index := (phys / PAGE * PAGE - c.start) / PAGE;
          assert c.start % PAGE == 0 by { assert Open(Regions, 0); }
          IndexIs(c, phys, index);
          if index >= c.num {
            return BadIndex;
          }
          OnlyRegion(tables, hhdm, t, phys);
          assert IndexOk(tables, t, index) && phys / PAGE * PAGE == FrameAt(tables, t, index);
          return Page(phys / PAGE * PAGE);
        }
      }
      return NoInfo;
    }

    /** Makes a frame the head of the list. */
    method Push(f: nat)
      requires Core() && f in pages && pages[f] != Free
      modifies `mem, `head, `free, `pages
      ensures mem == old(mem)[f := SetWord(old(mem)[f], 0, old(head))] && pages == old(pages)[f := Free]
      ensures head == f + hhdm && free == [f] + old(free)
      ensures FreeListOk(mem, head, free, pages, hhdm)
    {
      PushOk(mem, head, free, pages, hhdm, f);
      pages := pages[f := Free];
      mem := mem[f := SetWord(mem[f], 0, head)];
      head := f + hhdm;
      free := [f] + free;
    }

    /** Frames that held data still hold it. */
    ghost predicate Keeps(m: map<nat, Frame>, ps: map<nat, PageState>)
      reads this
    {
      StateIn(pages, Used) == StateIn(ps, Used) && forall f | f in StateIn(ps, Used) && f in m ::
        f in mem && mem[f] == m[f]
    }

    method Fill(count: nat)
      requires Valid()
      modifies `mem, `head, `free, `pages, `fillTable, `fillPage
      ensures Valid() && Keeps(old(mem), old(pages)) && pages.Keys == old(pages.Keys)
      ensures |free| <= |old(free)| + count
      ensures |free| == |old(free)| + count || forall f | f in pages :: pages[f] != Uninit
    {
      var added := 0;
      while fillTable < |tables| && added < count
        invariant Valid() && Keeps(old(mem), old(pages)) && pages.Keys == old(pages.Keys)
        invariant added <= count && |free| == |old(free)| + added
        decreases |tables| - fillTable, count - added
      {
        added := FillTable(count, added);
        if fillPage >= tables[fillTable].num {
          CursorNext(tables, pages, fillTable, fillPage);
          NonEmpty(tables, hhdm);
          fillTable, fillPage := fillTable + 1, 0;
        }
      }
      if fillTable >= |tables| { CursorEnd(tables, pages, fillTable, fillPage); }
    }

    /** Adds untouched frames of the current region. */
    method FillTable(count: nat, added0: nat) returns (added: nat)
      requires Valid() && added0 < count && fillTable < |tables|
      modifies `mem, `head, `free, `pages, `fillPage
      ensures Core() && Keeps(old(mem), old(pages)) && pages.Keys == old(pages.Keys)
      ensures added0 < added <= count && |free| == |old(free)| + (added - added0)
      ensures fillPage >= tables[fillTable].num || added == count
    {
      added := added0;
      var c := tables[fillTable];
      while fillPage < c.num && added < count
        invariant Core() && Keeps(old(mem), old(pages)) && pages.Keys == old(pages.Keys)
        invariant added0 <= added <= count && |free| == |old(free)| + (added - added0)
        invariant added == added0 ==> fillPage < c.num
        decreases c.num - fillPage
      {
        FillOne();
        added := added + 1;
      }
    }

    /** The frame at the cursor joins the free list. */
    method FillOne()
      requires Core() && IndexOk(tables, fillTable, fillPage)
      modifies `mem, `head, `free, `pages, `fillPage
      ensures Core() && Keeps(old(mem), old(pages)) && pages.Keys == old(pages.Keys)
      ensures |free| == |old(free)| + 1 && fillPage == old(fillPage) + 1
    {
      var f := FrameAt(tables, fillTable, fillPage);
      CursorStep(tables, pages, fillTable, fillPage, hhdm);
      UsedKept(pages, f, used, total);
      Push(f);
      fillPage := fillPage + 1;
    }

    /** Hands out a zeroed frame nobody holds; fails only when every frame is held. */
    method AllocatePage() returns (r: Option<nat>)
      requires Valid()
      modifies this
      ensures Valid() && pages.Keys == old(pages.Keys)
      ensures r.None? <==> forall f | f in old(pages) :: old(pages)[f] == Used
      ensures r.None? ==> Keeps(old(mem), old(pages)) && used == old(used) && forall f | f in pages :: pages[f] == Used
      ensures r.Some? ==>
        && r.value !in old(UsedFrames()) && UsedFrames() == old(UsedFrames()) + {r.value} && used == old(used) + 1
        && r.value in mem && mem[r.value] == Zeros(PAGE) && Managed(tables, r.value)
        && forall f | f in old(UsedFrames()) && f in old(mem) :: f in mem && mem[f] == old(mem)[f]
    {
      EmptyList(mem, head, free, pages, hhdm);
      if head == 0 { Fill(512); }
      EmptyList(mem, head, free, pages, hhdm);
      if head == 0 {
        assert forall f | f in pages :: pages[f] == Used;
        SameUsed(old(pages), pages);
        return None;
      }
      SomeFree(old(pages), pages, free[0]);
      var phys := Pop();
      return Some(phys);
    }

    /** Takes the first frame off the list and clears it. */
    method Pop() returns (phys: nat)
      requires Valid() && free != []
      modifies `mem, `head, `free, `pages, `used
      ensures Valid() && pages.Keys == old(pages.Keys) && phys == old(free[0]) && phys in old(pages)
      ensures old(pages)[phys] == Free
      ensures UsedFrames() == old(UsedFrames()) + {phys} && used == old(used) + 1 && Managed(tables, phys)
      ensures mem == old(mem)[phys := Zeros(PAGE)]
    {
      PopOk(mem, head, free, pages, hhdm, Zeros(PAGE));
      phys := head - hhdm;
      CursorManaged(tables, pages, fillTable, fillPage, phys);
      CursorSame(tables, pages, fillTable, fillPage, phys, Used);
      UsedAdd(pages, phys, used, total);
      head := Word(mem[phys], 0);
      free := free[1..];
      pages := pages[phys := Used];
      used := used + 1;
      mem := mem[phys := Zeros(PAGE)];
    }

    /** A holder writes to its frame. */
    method Store(f: nat, page: Frame)
      requires Valid() && f in UsedFrames() && |page| == PAGE
      modifies `mem
      ensures Valid() && mem == old(mem)[f := page]
    {
      StoreOk(mem, head, free, pages, hhdm, f, page);
      mem := mem[f := page];
    }

    /** Takes a frame back.  Addresses of no region are ignored; freeing a frame that
        is not held, or the address just behind a region, panics. */
    method FreePage(phys: nat) returns (r: FreeResult)
      requires Valid() && phys % PAGE == 0
      modifies this
      ensures Valid() && pages.Keys == old(pages.Keys)
      ensures r.Freed? <==> phys in old(UsedFrames())
      ensures r.Freed? ==> UsedFrames() == old(UsedFrames()) - {phys} && used == old(used) - 1
      ensures !r.Freed? ==> pages == old(pages) && used == old(used) && mem == old(mem)
      ensures r.Ignored? <==> Outside(tables, phys)
      ensures forall f | f in mem && f != phys :: f in old(mem) && mem[f] == old(mem)[f]
    {
      var info := GetPageInfo(phys);
      CursorManaged(tables, pages, fillTable, fillPage, phys);
      match info {
        case NoInfo =>
          OutsideUnmanaged(tables, phys);
          return Ignored;
        case BadIndex =>
          EndUnmanaged(tables, hhdm, phys);
          return Panicked;
        case Page(f) =>
          if pages[f] != Used { return Panicked; }
          UsedDrop(pages, f, used, total);
          CursorSame(tables, pages, fillTable, fillPage, f, Free);
          Push(f);
          used := used - 1;
          return Freed;
      }
    }
  }

  lemma Untouched(tables: seq<Child>, hhdm: nat, pages: map<nat, PageState>, mem: map<nat, Frame>, total: nat)
    requires TablesOk(tables, hhdm) && hhdm > 0 && (forall f :: f in pages <==> Managed(tables, f))
    requires (forall f | f in pages :: pages[f] == Uninit) && total == |pages.Keys|
    ensures FreeListOk(mem, 0, [], pages, hhdm) && CursorOk(tables, pages, 0, 0) && Counts(pages, 0, total)
    ensures StateIn(pages, Used) == {} && (|tables| > 0 ==> tables[0].num > 0)
  {
    assert Open(Regions, 0);
    forall f | f in pages ensures f + hhdm < WORD {
      var t: nat, i: nat :| IndexOk(tables, t, i) && f == FrameAt(tables, t, i);
      Inside(tables, t, i);
    }
    assert StateIn(pages, Used) == {};
  }

  /** The list is the free frames, each once, and every frame is on it, untouched or held. */
  lemma FreeListCounts(a: Allocator)
    requires a.Valid()
    ensures Once(a.free) && forall f :: f in a.free <==> f in a.pages && a.pages[f] == Free
    ensures |a.free| + |StateIn(a.pages, Uninit)| + a.used == a.total
  {
    assert Open(FreeList, 0);
    CountStates(a.pages, a.used, a.total);
    OnceSize(a.free, StateIn(a.pages, Free));
  }

  lemma {:induction false} OnceSize(s: seq<nat>, fs: set<nat>)
    requires Once(s) && forall f :: f in s <==> f in fs
    ensures |s| == |fs|
    decreases |s|
  {
    if s == [] {
      assert fs == {};
    } else {
      assert s[0] in fs;
      forall f ensures f in s[1..] <==> f in fs - {s[0]} {
        if f in s[1..] { var k :| 0 <= k < |s[1..]| && s[1..][k] == f; assert s[0] != s[k + 1]; }
        if f in fs && f != s[0] { var k :| 0 <= k < |s| && s[k] == f; assert s[1..][k - 1] == f; }
      }
      OnceSize(s[1..], fs - {s[0]});
    }
  }

  lemma ManagedFits(tables: seq<Child>, hhdm: nat, f: nat)
    requires TablesOk(tables, hhdm) && Managed(tables, f)
    ensures 0 < f < PHYS_END && f % PAGE == 0 && !Outside(tables, f)
  {
    assert Open(Regions, 0);
    var t: nat, i: nat :| IndexOk(tables, t, i) && f == FrameAt(tables, t, i);
    Inside(tables, t, i);
  }

  lemma NonEmpty(tables: seq<Child>, hhdm: nat)
    requires TablesOk(tables, hhdm)
    ensures forall t | 0 <= t < |tables| :: tables[t].num > 0
  {
    assert Open(Regions, 0);
  }

  lemma IndexIs(c: Child, phys: nat, index: int)
    requires c.start % PAGE == 0 && c.start <= phys <= EndOf(c) && index == (phys / PAGE * PAGE - c.start) / PAGE
    ensures index >= 0 && phys / PAGE * PAGE == c.start + PAGE * index
    ensures index >= c.num <==> phys == EndOf(c)
  {
  }

  lemma OnlyRegion(tables: seq<Child>, hhdm: nat, t: nat, phys: nat)
    requires TablesOk(tables, hhdm) && t < |tables| && tables[t].start <= phys < EndOf(tables[t])
    ensures !AtEnd(tables, phys)
  {
    assert Open(Regions, 0);
  }

  lemma OutsideUnmanaged(tables: seq<Child>, phys: nat)
    requires Outside(tables, phys)
    ensures !Managed(tables, phys)
  {
    forall t: nat, i: nat | IndexOk(tables, t, i) ensures phys != FrameAt(tables, t, i) { Inside(tables, t, i); }
  }

  lemma EndUnmanaged(tables: seq<Child>, hhdm: nat, phys: nat)
    requires TablesOk(tables, hhdm) && AtEnd(tables, phys)
    ensures !Managed(tables, phys)
  {
    forall t: nat, i: nat | IndexOk(tables, t, i) ensures phys != FrameAt(tables, t, i) {
      Inside(tables, t, i);
      if phys == FrameAt(tables, t, i) { OnlyRegion(tables, hhdm, t, phys); }
    }
  }

  lemma SameUsed(ps: map<nat, PageState>, ps': map<nat, PageState>)
    requires ps.Keys == ps'.Keys && StateIn(ps, Used) == StateIn(ps', Used) && forall f | f in ps' :: ps'[f] == Used
    ensures forall f | f in ps :: ps[f] == Used
  {
    forall f | f in ps ensures ps[f] == Used { assert f in StateIn(ps', Used); }
  }

  lemma SomeFree(ps: map<nat, PageState>, ps': map<nat, PageState>, f: nat)
    requires ps.Keys == ps'.Keys && StateIn(ps, Used) == StateIn(ps', Used) && f in ps' && ps'[f] != Used
    ensures f in ps && ps[f] != Used
  {
    assert f !in StateIn(ps', Used);
  }
}
