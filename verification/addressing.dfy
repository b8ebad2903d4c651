/** What the processor sees: a walk over the words in memory, and what whole runs of
    mapping and unmapping do to it. */
module Addressing {
  import opened Gates
  import opened Machine
  import opened PhysMem
  import opened Options
  import opened Pmm
  import opened Pte
  import opened PageTable
  import opened Vmm

  /** A mapped page: its frame, and what the whole walk lets through. */
  datatype Mapping = Mapping(frame: nat, rights: Rights)

  /** How much of the address space an entry of a level covers. */
  function Span(level: nat): (r: nat)
    ensures r > 0
  {
    if level == 0 then PAGE else WORDS * Span(level - 1)
  }

  /** The processor's walk: it knows nothing but memory, and takes an entry apart by bit
      positions.  Bit 0 says present; bit 7 above the last level would be a large page. */
  ghost function Hardware(mem: Mem, table: nat, virt: nat, level: nat): Option<Mapping>
    decreases level
  {
    if table !in mem || |mem[table]| != PAGE then None
    else
      var e := Word(mem[table], virt / Span(level) % WORDS);
      if e % 2 == 0 then None
      else if level == 0 then Some(Mapping(FrameOf(e), RightsOf(e)))
      else if e / 128 % 2 == 1 then None
      else Behind(RightsOf(e), Hardware(mem, FrameOf(e), virt, level - 1))
  }

  /** A page behind an entry. */
  function Behind(r: Rights, page: Option<Mapping>): Option<Mapping> {
    if page.None? then None else Some(Mapping(page.value.frame, Narrow(r, page.value.rights)))
  }

  /** The same by the map of tables: the page's entry, and the door to the shared half. */
  ghost function View(mem: Mem, tabs: map<Slot, nat>, root: nat, path: Path): Option<Mapping>
    requires |path| == 4
  {
    Behind(Rights(UsersPass(mem, root, path[0]), true, false), Below(mem, tabs, root, path))
  }

  ghost function Below(mem: Mem, tabs: map<Slot, nat>, root: nat, path: Path): Option<Mapping>
    requires |path| == 4
  {
    MappingIn(Leaf(mem, tabs, root, path))
  }

  function MappingIn(e: Option<nat>): Option<Mapping> {
    if e.None? then None else Some(Mapping(FrameOf(e.value), RightsOf(e.value)))
  }

  /** Users get past top-level entry `i`: in the lower half always. */
  ghost predicate UsersPass(mem: Mem, root: nat, i: nat) {
    i < 256 || Door(mem, root, i)
  }

  lemma Spans()
    ensures Span(0) == 0x1000 && Span(1) == 0x20_0000 && Span(2) == 0x4000_0000 && Span(3) == 0x80_0000_0000
  {
  }

  /** The index that a level uses is the one of the path. */
  lemma LevelIndex(virt: nat, level: nat)
    requires level <= 3
    ensures virt / Span(level) % WORDS == PathOf(virt)[3 - level]
  {
    Spans();
  }

  /** One level of the walk, by the map of tables. */
  lemma WalkStep(mem: Mem, roots: set<nat>, tabs: map<Slot, nat>, used: set<nat>, root: nat, virt: nat, level: nat,
                 p: Path, i: nat)
    requires WellMapped(mem, roots, tabs, used) && 0 < level <= 3
    requires p == PathOf(virt)[..3 - level] && i == PathOf(virt)[3 - level] && SlotOf(root, p) in tabs
    ensures var t, c := tabs[SlotOf(root, p)], SlotOf(root, p + [i]);
      && t in mem && |mem[t]| == PAGE
      && (c !in tabs ==> Hardware(mem, t, virt, level).None?)
      && (c in tabs ==> Passes(Word(mem[t], i), c))
      && (c in tabs ==> Hardware(mem, t, virt, level)
                        == Behind(RightsOf(Word(mem[t], i)), Hardware(mem, tabs[c], virt, level - 1)))
  {
    var s := SlotOf(root, p);
    TableFacts(mem, roots, tabs, used, s, i);
    KidIs(root, p, i);
    LevelIndex(virt, level);
    var e := Word(mem[tabs[s]], i);
    OddPresent(e);
    FrameIs(e);
    LargeIs(e);
  }

  /** Below the top level the walk finds the page's entry as it is. */
  lemma {:induction false} HardwareBelow(mem: Mem, roots: set<nat>, tabs: map<Slot, nat>, used: set<nat>, root: nat,
                                         virt: nat, level: nat, p: Path)
    requires WellMapped(mem, roots, tabs, used) && level <= 2
    requires p == PathOf(virt)[..3 - level] && SlotOf(root, p) in tabs
    ensures Hardware(mem, tabs[SlotOf(root, p)], virt, level) == Below(mem, tabs, root, PathOf(virt))
    decreases level
  {
    var path := PathOf(virt);
    var i := path[3 - level];
    if level == 0 {
      TableFacts(mem, roots, tabs, used, SlotOf(root, p), i);
      LevelIndex(virt, 0);
      OddPresent(Word(mem[tabs[SlotOf(root, p)]], i));
    } else {
      WalkStep(mem, roots, tabs, used, root, virt, level, p, i);
      assert p + [i] == path[..3 - (level - 1)];
      if SlotOf(root, p + [i]) in tabs {
        HardwareBelow(mem, roots, tabs, used, root, virt, level - 1, p + [i]);
      } else {
        Missing(mem, roots, tabs, used, root, path, 4 - level);
      }
    }
  }

  lemma Missing(mem: Mem, roots: set<nat>, tabs: map<Slot, nat>, used: set<nat>, root: nat, path: Path, k: nat)
    requires WellMapped(mem, roots, tabs, used) && |path| == 4 && 0 < k <= 3 && SlotOf(root, path[..k]) !in tabs
    ensures Leaf(mem, tabs, root, path).None?
  {
    MissingBelow(mem, roots, tabs, used, root, path[..k], path[k..3]);
    assert path[..k] + path[k..3] == path[..3];
  }

  /** The walk from a root finds what the map of tables says. */
  lemma HardwareAgrees(mem: Mem, roots: set<nat>, tabs: map<Slot, nat>, used: set<nat>, r: nat, virt: nat)
    requires WellMapped(mem, roots, tabs, used) && r in roots
    ensures Hardware(mem, r, virt, 3) == View(mem, tabs, r, PathOf(virt))
  {
    var path := PathOf(virt);
    RootTable(mem, roots, tabs, used, r);
    WalkStep(mem, roots, tabs, used, r, virt, 3, [], path[0]);
    assert [] + [path[0]] == path[..1];
    if SlotOf(r, path[..1]) in tabs {
      HardwareBelow(mem, roots, tabs, used, r, virt, 2, path[..1]);
    } else {
      Missing(mem, roots, tabs, used, r, path, 1);
    }
  }

  /** All address spaces see the same upper half, with the same rights. */
  lemma UpperHalfShared(mem: Mem, roots: set<nat>, tabs: map<Slot, nat>, used: set<nat>, r: nat, r': nat, virt: nat)
    requires WellMapped(mem, roots, tabs, used) && r in roots && r' in roots && virt / 0x80_0000_0000 % WORDS >= 256
    ensures Hardware(mem, r, virt, 3) == Hardware(mem, r', virt, 3)
  {
    var p := PathOf(virt);
    HardwareAgrees(mem, roots, tabs, used, r, virt);
    HardwareAgrees(mem, roots, tabs, used, r', virt);
    assert p[..3][0] == p[0];
    assert Open(PageTables, 0);
  }

  /** Behind a door that is closed to users no page is open to them, whatever its flags. */
  lemma ClosedDoor(mem: Mem, roots: set<nat>, tabs: map<Slot, nat>, used: set<nat>, r: nat, virt: nat)
    requires WellMapped(mem, roots, tabs, used) && r in roots
    requires virt / 0x80_0000_0000 % WORDS >= 256 && !Door(mem, r, virt / 0x80_0000_0000 % WORDS)
    ensures var page := Hardware(mem, r, virt, 3); page.Some? ==> !page.value.rights.user
  {
    HardwareAgrees(mem, roots, tabs, used, r, virt);
  }

  /** One step of a run. */
  datatype PageStep = MapStep(root: nat, virt: nat, phys: nat, flags: nat) | UnmapStep(root: nat, virt: nat)

  /** The page a step concerns, as the address spaces that share it see it. */
  ghost predicate Concerns(step: PageStep, root: nat, virt: nat) {
    && PathOf(step.virt) == PathOf(virt)
    && (step.root == root || virt / 0x80_0000_0000 % WORDS >= 256)
  }

  /** What a step leaves at its page; `open` says whether users get to it at all. */
  function Left(step: PageStep, open: bool): Option<Mapping> {
    if step.UnmapStep? then None
    else Some(Mapping(FrameOf(step.phys), Narrow(Rights(open, true, false), RightsOf(step.flags))))
  }

  /** The reference: the last step that concerns a page decides. */
  ghost function Expected(first: Option<Mapping>, steps: seq<PageStep>, root: nat, virt: nat, open: bool)
    : Option<Mapping>
  {
    if steps == [] then first
    else
      var last := steps[|steps| - 1];
      if Concerns(last, root, virt) then Left(last, open)
      else Expected(first, steps[..|steps| - 1], root, virt, open)
  }

  lemma ConcernsIs(step: PageStep, root: nat, virt: nat)
    ensures Concerns(step, root, virt) <==> SlotOf(root, PathOf(virt)) == SlotOf(step.root, PathOf(step.virt))
  {
  }

  lemma SharedPage(mem: Mem, tabs: map<Slot, nat>, r: nat, r': nat, p: Path)
    requires |p| == 4 && SlotOf(r, p) == SlotOf(r', p)
    ensures Leaf(mem, tabs, r, p) == Leaf(mem, tabs, r', p)
  {
    assert p[..3][0] == p[0];
  }

  /** Every page of every address space is as the steps say. */
  ghost predicate AsExpected(mem0: Mem, tabs0: map<Slot, nat>, mem: Mem, tabs: map<Slot, nat>, roots: set<nat>,
                             steps: seq<PageStep>) {
    forall r, virt: nat | r in roots ::
      View(mem, tabs, r, PathOf(virt))
      == Expected(View(mem0, tabs0, r, PathOf(virt)), steps, r, virt, UsersPass(mem0, r, PathOf(virt)[0]))
  }

  /** All doors are there and as they were. */
  ghost predicate DoorsSame(mem0: Mem, mem: Mem, roots: set<nat>) {
    forall r, i | r in roots && 256 <= i < WORDS :: Door(mem, r, i) == Door(mem0, r, i)
  }

  /** The entry that a step writes. */
  ghost predicate Wrote(mem: Mem, tabs: map<Slot, nat>, step: PageStep) {
    var e := Leaf(mem, tabs, step.root, PathOf(step.virt));
    if step.UnmapStep? then e.None?
    else e.Some? && EntryBits(e.value, step.phys, step.flags) && AddrOf(e.value) == AddrOf(step.phys)
  }

  lemma StepExpected(mem0: Mem, tabs0: map<Slot, nat>, mem1: Mem, tabs1: map<Slot, nat>, mem: Mem, tabs: map<Slot, nat>,
                     roots: set<nat>, steps: seq<PageStep>, step: PageStep)
    requires AsExpected(mem0, tabs0, mem1, tabs1, roots, steps) && DoorsSame(mem0, mem1, roots)
    requires DoorsSame(mem1, mem, roots) && Wrote(mem, tabs, step)
    requires SameButAt(mem1, tabs1, mem, tabs, roots, step.root, PathOf(step.virt))
    ensures AsExpected(mem0, tabs0, mem, tabs, roots, steps + [step])
  {
    assert (steps + [step])[..|steps|] == steps;
    forall r, virt: nat | r in roots
      ensures View(mem, tabs, r, PathOf(virt))
           == Expected(View(mem0, tabs0, r, PathOf(virt)), steps + [step], r, virt, UsersPass(mem0, r, PathOf(virt)[0]))
    {
      ConcernsIs(step, r, virt);
      if Concerns(step, r, virt) {
        SharedPage(mem, tabs, step.root, r, PathOf(virt));
        WroteIs(mem, tabs, step);
      } else {
        assert Leaf(mem, tabs, r, PathOf(virt)) == Leaf(mem1, tabs1, r, PathOf(virt));
      }
    }
  }

  lemma WroteIs(mem: Mem, tabs: map<Slot, nat>, step: PageStep)
    requires Wrote(mem, tabs, step)
    ensures MappingIn(Leaf(mem, tabs, step.root, PathOf(step.virt)))
         == if step.UnmapStep? then None else Some(Mapping(FrameOf(step.phys), RightsOf(step.flags)))
  {
    if step.MapStep? {
      var e := Leaf(mem, tabs, step.root, PathOf(step.virt)).value;
      EntryRights(e, step.phys, step.flags);
      FrameIs(e);
      FrameIs(step.phys);
    }
  }

  /** Carries out one step with the kernel's own operations. */
  method Perform(mmu: Mmu, step: PageStep) returns (ok: bool)
    requires mmu.Valid() && mmu.Full() && step.root in mmu.roots && (step.MapStep? ==> FlagsOk(step.flags))
    modifies mmu`tabs, mmu.pmm
    ensures mmu.Valid() && mmu.Full() && (!ok ==> mmu.OutOfMemory())
    ensures DoorsSame(old(mmu.pmm.mem), mmu.pmm.mem, mmu.roots)
    ensures !ok ==> SameMaps(old(mmu.pmm.mem), old(mmu.tabs), mmu.pmm.mem, mmu.tabs, mmu.roots)
    ensures ok ==>
      SameButAt(old(mmu.pmm.mem), old(mmu.tabs), mmu.pmm.mem, mmu.tabs, mmu.roots, step.root, PathOf(step.virt))
    ensures ok ==> Wrote(mmu.pmm.mem, mmu.tabs, step)
  {
    match step {
      case MapStep(root, virt, phys, flags) =>
        FullMayHang(mmu, root, virt);
        ok := mmu.MapPage(root, virt, phys, flags);
      case UnmapStep(root, virt) =>
        mmu.UnmapPage(root, virt);
        ok := true;
    }
  }

  /** The next step of a run. */
  method Advance(mmu: Mmu, steps: seq<PageStep>, k: nat, ghost mem0: Mem, ghost tabs0: map<Slot, nat>)
    returns (ok: bool)
    requires k < |steps| && mmu.Valid() && mmu.Full() && steps[k].root in mmu.roots
    requires steps[k].MapStep? ==> FlagsOk(steps[k].flags)
    requires AsExpected(mem0, tabs0, mmu.pmm.mem, mmu.tabs, mmu.roots, steps[..k])
    requires DoorsSame(mem0, mmu.pmm.mem, mmu.roots)
    modifies mmu`tabs, mmu.pmm
    ensures mmu.Valid() && mmu.Full() && (!ok ==> mmu.OutOfMemory())
    ensures AsExpected(mem0, tabs0, mmu.pmm.mem, mmu.tabs, mmu.roots, steps[..if ok then k + 1 else k])
    ensures DoorsSame(mem0, mmu.pmm.mem, mmu.roots)
  {
    ghost var mem1, tabs1 := mmu.pmm.mem, mmu.tabs;
    ok := Perform(mmu, steps[k]);
    if ok {
      StepExpected(mem0, tabs0, mem1, tabs1, mmu.pmm.mem, mmu.tabs, mmu.roots, steps[..k], steps[k]);
      assert steps[..k + 1] == steps[..k] + [steps[k]];
    } else {
      NothingNew(mem0, tabs0, mem1, tabs1, mmu.pmm.mem, mmu.tabs, mmu.roots, steps[..k]);
    }
  }

  lemma NothingNew(mem0: Mem, tabs0: map<Slot, nat>, mem1: Mem, tabs1: map<Slot, nat>, mem: Mem, tabs: map<Slot, nat>,
                   roots: set<nat>, steps: seq<PageStep>)
    requires AsExpected(mem0, tabs0, mem1, tabs1, roots, steps) && DoorsSame(mem1, mem, roots)
    requires SameMaps(mem1, tabs1, mem, tabs, roots)
    ensures AsExpected(mem0, tabs0, mem, tabs, roots, steps)
  {
    forall r, virt: nat | r in roots ensures View(mem, tabs, r, PathOf(virt)) == View(mem1, tabs1, r, PathOf(virt)) {
      assert Leaf(mem, tabs, r, PathOf(virt)) == Leaf(mem1, tabs1, r, PathOf(virt));
    }
  }

  /** Any run of map and unmap steps, up to the first that finds memory out: what the
      processor sees at any page of any address space, frame and rights, is what the last
      step concerning that page left there. */
  method Run(mmu: Mmu, steps: seq<PageStep>) returns (done: nat)
    requires mmu.Valid() && mmu.Full()
    requires forall k | 0 <= k < |steps| ::
      steps[k].root in mmu.roots && (steps[k].MapStep? ==> FlagsOk(steps[k].flags))
    modifies mmu`tabs, mmu.pmm
    ensures mmu.Valid() && mmu.Full() && done <= |steps| && (done < |steps| ==> mmu.OutOfMemory())
    ensures forall r, virt: nat | r in mmu.roots ::
      Hardware(mmu.pmm.mem, r, virt, 3)
      == Expected(old(Hardware(mmu.pmm.mem, r, virt, 3)), steps[..done], r, virt,
                  UsersPass(old(mmu.pmm.mem), r, PathOf(virt)[0]))
  {
    ghost var mem0, tabs0, used0 := mmu.pmm.mem, mmu.tabs, mmu.pmm.UsedFrames();
    done := 0;
    var ok := true;
    while done < |steps|
      invariant done <= |steps| && mmu.Valid() && mmu.Full() && DoorsSame(mem0, mmu.pmm.mem, mmu.roots)
      invariant AsExpected(mem0, tabs0, mmu.pmm.mem, mmu.tabs, mmu.roots, steps[..done])
    {
      ok := Advance(mmu, steps, done, mem0, tabs0);
      if !ok { break; }
      done := done + 1;
    }
    SeenAsExpected(mem0, tabs0, used0, mmu.pmm.mem, mmu.tabs, mmu.pmm.UsedFrames(), mmu.roots, steps[..done]);
  }

  lemma SeenAsExpected(mem0: Mem, tabs0: map<Slot, nat>, used0: set<nat>, mem: Mem, tabs: map<Slot, nat>,
                       used: set<nat>, roots: set<nat>, steps: seq<PageStep>)
    requires WellMapped(mem0, roots, tabs0, used0) && WellMapped(mem, roots, tabs, used)
    requires AsExpected(mem0, tabs0, mem, tabs, roots, steps)
    ensures forall r, virt: nat | r in roots ::
      Hardware(mem, r, virt, 3)
      == Expected(Hardware(mem0, r, virt, 3), steps, r, virt, UsersPass(mem0, r, PathOf(virt)[0]))
  {
    forall r, virt: nat | r in roots
      ensures Hardware(mem, r, virt, 3)
           == Expected(Hardware(mem0, r, virt, 3), steps, r, virt, UsersPass(mem0, r, PathOf(virt)[0]))
    {
      HardwareAgrees(mem0, roots, tabs0, used0, r, virt);
      HardwareAgrees(mem, roots, tabs, used, r, virt);
    }
  }
}
