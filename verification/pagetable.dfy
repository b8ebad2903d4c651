/** Four-level page tables of all address spaces, as one map from places to frames.
    The upper half of every top-level table leads to the same, shared tables. */
module PageTable {
  import opened Gates
  import opened Machine
  import opened PhysMem
  import opened Options
  import opened Pmm
  import opened Pte

  type Mem = map<nat, Frame>
  type Path = seq<nat>

  /** The place of a table: shared by all address spaces or private to one. */
  datatype Slot = Shared(path: Path) | Private(root: nat, path: Path)

  function SlotOf(root: nat, path: Path): Slot {
    if path != [] && path[0] >= 256 then Shared(path) else Private(root, path)
  }

  /** The place behind entry `i`. */
  function Kid(s: Slot, i: nat): Slot {
    if s.Shared? then Shared(s.path + [i]) else SlotOf(s.root, s.path + [i])
  }

  lemma KidIs(root: nat, path: Path, i: nat)
    ensures Kid(SlotOf(root, path), i) == SlotOf(root, path + [i])
  {
  }

  lemma KidOnce(s: Slot, i: nat, s': Slot, i': nat)
    requires Kid(s, i) == Kid(s', i')
    ensures i == i' && s.path == s'.path
    ensures Kid(s, i).Private? ==> s == s'
    ensures s.path != [] && Aligned(s) && Aligned(s') ==> s == s'
  {
    var p, p' := s.path + [i], s'.path + [i'];
    assert p[|p| - 1] == i && p'[|p'| - 1] == i';
    assert s.path == p[..|p| - 1] && s'.path == p'[..|p'| - 1];
    assert s.path != [] ==> p[0] == s.path[0];
  }

  /** Which half a place lies in decides whether it is shared. */
  ghost predicate Aligned(s: Slot) {
    if s.Shared? then s.path != [] && s.path[0] >= 256 else s.path == [] || s.path[0] < 256
  }

  ghost predicate SlotOk(s: Slot, roots: set<nat>) {
    && |s.path| <= 3 && Aligned(s)
    && (s.Private? ==> s.root in roots)
    && (s.path != [] ==> s.path[|s.path| - 1] < WORDS)
  }

  ghost predicate HasParent(s: Slot, tabs: map<Slot, nat>) {
    if s.path == [] || (s.Shared? && |s.path| == 1) then true
    else
      var up := s.path[..|s.path| - 1];
      (if s.Shared? then Shared(up) else Private(s.root, up)) in tabs
  }

  /** The place behind a top-level entry that all address spaces share. */
  predicate AtDoor(c: Slot) {
    c.Shared? && |c.path| == 1
  }

  /** Entries of tables let every access through; only a shared top-level entry may keep
      users out. */
  ghost predicate Passes(w: nat, c: Slot) {
    RightsOf(w).write && !RightsOf(w).noExec && (RightsOf(w).user || AtDoor(c))
  }

  ghost predicate EntryOk(w: nat, tabs: map<Slot, nat>, c: Slot) {
    (Present(w) <==> c in tabs) && (c in tabs ==> AddrOf(w) == tabs[c] && !Large(w) && Passes(w, c))
  }

  ghost predicate TableOk(f: Frame, s: Slot, tabs: map<Slot, nat>) {
    |f| == PAGE && forall i | 0 <= i < WORDS :: EntryOk(Word(f, i), tabs, Kid(s, i))
  }

  ghost predicate Injective(tabs: map<Slot, nat>) {
    forall s, s' | s in tabs && s' in tabs && s != s' :: tabs[s] != tabs[s']
  }

  /** Every table frame is held and sits at one place. */
  ghost predicate PlacesOk(roots: set<nat>, tabs: map<Slot, nat>, used: set<nat>) {
    && (forall r | r in roots :: Private(r, []) in tabs && tabs[Private(r, [])] == r)
    && (forall s | s in tabs :: SlotOk(s, roots) && HasParent(s, tabs) && tabs[s] in used)
    && Injective(tabs)
  }

  /** Its entries are present exactly where a table lies below. */
  ghost predicate EntriesOk(mem: Mem, tabs: map<Slot, nat>) {
    forall s | s in tabs ::
      tabs[s] in mem && |mem[tabs[s]]| == PAGE && (|s.path| < 3 ==> TableOk(mem[tabs[s]], s, tabs))
  }

  /** Whether users get through a top-level entry of a root. */
  ghost predicate Door(mem: Mem, root: nat, i: nat) {
    root in mem && |mem[root]| == PAGE && i < WORDS && RightsOf(Word(mem[root], i)).user
  }

  /** All address spaces have the same doors to the shared half. */
  ghost predicate DoorsAgree(mem: Mem, roots: set<nat>) {
    forall r, r', i | r in roots && r' in roots && 256 <= i < WORDS :: Door(mem, r, i) == Door(mem, r', i)
  }

  ghost predicate WellMapped(mem: Mem, roots: set<nat>, tabs: map<Slot, nat>, used: set<nat>) {
    forall g {:trigger Open(PageTables, g)} | Open(PageTables, g) ::
      PlacesOk(roots, tabs, used) && EntriesOk(mem, tabs) && DoorsAgree(mem, roots)
  }

  /** The simple meaning: the entry that a virtual page's path of four indices leads to,
      if it is present. */
  ghost function Leaf(mem: Mem, tabs: map<Slot, nat>, root: nat, path: Path): Option<nat>
    requires |path| == 4
  {
    var s := SlotOf(root, path[..3]);
    if s in tabs && tabs[s] in mem && |mem[tabs[s]]| == PAGE && path[3] < WORDS && Present(Word(mem[tabs[s]], path[3]))
    then Some(Word(mem[tabs[s]], path[3]))
    else None
  }

  /** The frame it holds. */
  ghost function Translate(mem: Mem, tabs: map<Slot, nat>, root: nat, path: Path): Option<nat>
    requires |path| == 4
  {
    var e := Leaf(mem, tabs, root, path);
    if e.Some? then Some(AddrOf(e.value)) else None
  }

  /** The doors that were there are as they were. */
  ghost predicate SameDoors(mem: Mem, tabs: map<Slot, nat>, mem': Mem, roots: set<nat>) {
    forall r, i | r in roots && 256 <= i < WORDS && Shared([i]) in tabs :: Door(mem', r, i) == Door(mem, r, i)
  }

  /** No page is mapped differently. */
  ghost predicate SameMaps(mem: Mem, tabs: map<Slot, nat>, mem': Mem, tabs': map<Slot, nat>, roots: set<nat>) {
    && SameDoors(mem, tabs, mem', roots)
    && forall r, p: Path | r in roots && |p| == 4 :: Leaf(mem', tabs', r, p) == Leaf(mem, tabs, r, p)
  }

  /** Only the frames of tables matter. */
  lemma MapsKept(mem: Mem, mem': Mem, roots: set<nat>, tabs: map<Slot, nat>, used: set<nat>, used': set<nat>)
    requires WellMapped(mem, roots, tabs, used) && used <= used'
    requires forall f | f in used && f in mem :: f in mem' && mem'[f] == mem[f]
    ensures WellMapped(mem', roots, tabs, used') && SameMaps(mem, tabs, mem', tabs, roots)
  {
    assert Open(PageTables, 0);
    forall r | r in roots ensures r in used && r in mem { assert tabs[Private(r, [])] == r; }
    DoorsKept(mem, mem', roots, tabs);
  }

  lemma DoorsKept(mem: Mem, mem': Mem, roots: set<nat>, tabs: map<Slot, nat>)
    requires DoorsAgree(mem, roots) && forall r | r in roots :: r in mem && r in mem' && mem'[r] == mem[r]
    ensures DoorsAgree(mem', roots) && SameDoors(mem, tabs, mem', roots)
  {
    forall r, i | r in roots ensures Door(mem', r, i) == Door(mem, r, i) { }
  }

  lemma TablesOnly(mem: Mem, mem': Mem, roots: set<nat>, tabs: map<Slot, nat>, used: set<nat>)
    requires WellMapped(mem, roots, tabs, used)
    requires forall f | f in tabs.Values && f in mem :: f in mem' && mem'[f] == mem[f]
    ensures WellMapped(mem', roots, tabs, used) && SameDoors(mem, tabs, mem', roots)
    ensures forall r, q: Path | |q| == 4 :: Leaf(mem', tabs, r, q) == Leaf(mem, tabs, r, q)
  {
    assert Open(PageTables, 0);
    forall r | r in roots ensures r in tabs.Values && r in mem { assert tabs[Private(r, [])] == r; }
    DoorsKept(mem, mem', roots, tabs);
  }

  lemma TableFacts(mem: Mem, roots: set<nat>, tabs: map<Slot, nat>, used: set<nat>, s: Slot, i: nat)
    requires WellMapped(mem, roots, tabs, used) && s in tabs && i < WORDS
    ensures tabs[s] in mem && |mem[tabs[s]]| == PAGE && tabs[s] in used
    ensures |s.path| < 3 ==> EntryOk(Word(mem[tabs[s]], i), tabs, Kid(s, i))
  {
    assert Open(PageTables, 0);
  }

  /** Where a level is missing, so is everything below it. */
  lemma {:induction false} MissingBelow(mem: Mem, roots: set<nat>, tabs: map<Slot, nat>, used: set<nat>, r: nat,
                                        p: Path, q: Path)
    requires WellMapped(mem, roots, tabs, used) && SlotOf(r, p) !in tabs && p != []
    ensures SlotOf(r, p + q) !in tabs
    decreases |q|
  {
    assert Open(PageTables, 0);
    if q == [] {
      assert p + q == p;
    } else {
      var k := |q| - 1;
      MissingBelow(mem, roots, tabs, used, r, p, q[..k]);
      assert (p + q)[..|p + q| - 1] == p + q[..k];
    }
  }

  /** Writes an entry of a table. */
  function Written(mem: Mem, f: nat, i: nat, w: nat): Mem
    requires f in mem && |mem[f]| == PAGE && i < WORDS
  {
    mem[f := SetWord(mem[f], i, w)]
  }

  /** Entry `i` of the table at `s` is free for a table of its own. */
  ghost predicate Vacant(roots: set<nat>, tabs: map<Slot, nat>, s: Slot, i: nat) {
    && s in tabs && |s.path| < 3 && i < WORDS && Kid(s, i) !in tabs
    && (s.path == [] && i >= 256 ==> s.Private? && roots == {s.root})
  }

  /** A zeroed frame that is no table yet. */
  ghost predicate Blank(mem: Mem, tabs: map<Slot, nat>, used: set<nat>, f: nat) {
    f in mem && mem[f] == Zeros(PAGE) && f in used && f !in tabs.Values
  }

  /** An entry that leads to the table in frame `f` at place `c`. */
  ghost predicate PointsTo(w: nat, f: nat, c: Slot) {
    Present(w) && AddrOf(w) == f && !Large(w) && w < WORD && Passes(w, c)
  }

  lemma AddPlace(roots: set<nat>, tabs: map<Slot, nat>, used: set<nat>, s: Slot, i: nat, f: nat)
    requires PlacesOk(roots, tabs, used) && Vacant(roots, tabs, s, i) && f in used && f !in tabs.Values
    ensures PlacesOk(roots, tabs[Kid(s, i) := f], used)
  {
    var c := Kid(s, i);
    var tabs' := tabs[c := f];
    assert c.path[..|c.path| - 1] == s.path;
    forall x | x in tabs' ensures SlotOk(x, roots) && HasParent(x, tabs') && tabs'[x] in used {
      if x == c { assert s.path != [] ==> c.path[0] == s.path[0]; }
    }
  }

  /** Hangs a zeroed frame below entry `i` of the table at `s`. */
  lemma AddTable(mem: Mem, roots: set<nat>, tabs: map<Slot, nat>, used: set<nat>, s: Slot, i: nat, f: nat, w: nat)
    requires PointsTo(w, f, Kid(s, i)) && WellMapped(mem, roots, tabs, used) && Vacant(roots, tabs, s, i)
    requires Blank(mem, tabs, used, f)
    ensures tabs[s] in mem && |mem[tabs[s]]| == PAGE
    ensures WellMapped(Written(mem, tabs[s], i, w), roots, tabs[Kid(s, i) := f], used)
    ensures SameMaps(mem, tabs, Written(mem, tabs[s], i, w), tabs[Kid(s, i) := f], roots)
  {
    assert Open(PageTables, 0);
    AddPlace(roots, tabs, used, s, i, f);
    var mem', tabs' := Written(mem, tabs[s], i, w), tabs[Kid(s, i) := f];
    forall x | x in tabs'
      ensures tabs'[x] in mem' && |mem'[tabs'[x]]| == PAGE && (|x.path| < 3 ==> TableOk(mem'[tabs'[x]], x, tabs'))
    {
      if |x.path| < 3 { AddedEntries(mem, roots, tabs, used, s, i, f, w, x); }
    }
    AddedDoors(mem, roots, tabs, used, s, i, w);
    forall r, p: Path | r in roots && |p| == 4 ensures Leaf(mem', tabs', r, p) == Leaf(mem, tabs, r, p) {
      AddedMaps(mem, roots, tabs, used, s, i, f, w, r, p);
    }
  }

  lemma AddedDoors(mem: Mem, roots: set<nat>, tabs: map<Slot, nat>, used: set<nat>, s: Slot, i: nat, w: nat)
    requires w < WORD && PlacesOk(roots, tabs, used) && EntriesOk(mem, tabs) && DoorsAgree(mem, roots)
    requires Vacant(roots, tabs, s, i) && tabs[s] in mem && |mem[tabs[s]]| == PAGE
    ensures DoorsAgree(Written(mem, tabs[s], i, w), roots) && SameDoors(mem, tabs, Written(mem, tabs[s], i, w), roots)
  {
    var mem' := Written(mem, tabs[s], i, w);
    SetGet(mem[tabs[s]], i, w);
    forall r, j | r in roots && 256 <= j < WORDS && !(tabs[s] == r && j == i)
      ensures Door(mem', r, j) == Door(mem, r, j)
    {
      assert tabs[Private(r, [])] == r;
    }
    forall r | r in roots && tabs[s] == r ensures s == Private(r, []) { assert tabs[Private(r, [])] == r; }
    assert [] + [i] == [i];
    if exists r :: r in roots && tabs[s] == r && i >= 256 {
      assert s.path == [] && Kid(s, i) == Shared([i]);
    }
  }

  lemma AddedMaps(mem: Mem, roots: set<nat>, tabs: map<Slot, nat>, used: set<nat>, s: Slot, i: nat, f: nat, w: nat,
                  r: nat, p: Path)
    requires w < WORD && PlacesOk(roots, tabs, used) && Vacant(roots, tabs, s, i) && Blank(mem, tabs, used, f)
    requires tabs[s] in mem && |mem[tabs[s]]| == PAGE && |p| == 4
    ensures Leaf(Written(mem, tabs[s], i, w), tabs[Kid(s, i) := f], r, p) == Leaf(mem, tabs, r, p)
  {
    var x := SlotOf(r, p[..3]);
    if x == Kid(s, i) {
      AbsentZero(Written(mem, tabs[s], i, w), tabs[Kid(s, i) := f], r, p, f);
    } else if x in tabs {
      assert x != s && tabs[x] != tabs[s];
    }
  }

  lemma AbsentZero(mem: Mem, tabs: map<Slot, nat>, r: nat, p: Path, f: nat)
    requires |p| == 4 && SlotOf(r, p[..3]) in tabs && tabs[SlotOf(r, p[..3])] == f
    requires f in mem && mem[f] == Zeros(PAGE)
    ensures Leaf(mem, tabs, r, p).None?
  {
    ZeroFrame(mem[f]);
    OddPresent(0);
  }

  lemma AddedEntries(mem: Mem, roots: set<nat>, tabs: map<Slot, nat>, used: set<nat>, s: Slot, i: nat, f: nat, w: nat,
                     x: Slot)
    requires PointsTo(w, f, Kid(s, i)) && PlacesOk(roots, tabs, used) && EntriesOk(mem, tabs)
    requires Vacant(roots, tabs, s, i) && Blank(mem, tabs, used, f)
    requires x in tabs[Kid(s, i) := f] && |x.path| < 3
    ensures var tabs' := tabs[Kid(s, i) := f];
      tabs'[x] in mem && TableOk(Written(mem, tabs[s], i, w)[tabs'[x]], x, tabs')
  {
    var c := Kid(s, i);
    var mem', tabs' := Written(mem, tabs[s], i, w), tabs[c := f];
    if x == c {
      ZeroFrame(mem[f]);
      OddPresent(0);
      forall j | 0 <= j < WORDS ensures EntryOk(Word(mem'[tabs'[x]], j), tabs', Kid(x, j)) {
        assert Kid(c, j).path[..|Kid(c, j).path| - 1] == c.path;
      }
    } else {
      SetGet(mem[tabs[s]], i, w);
      assert TableOk(mem[tabs[x]], x, tabs);
      forall j | 0 <= j < WORDS ensures EntryOk(Word(mem'[tabs'[x]], j), tabs', Kid(x, j)) {
        if Kid(x, j) == c { KidOnce(x, j, s, i); }
      }
    }
  }

  /** Writes an entry of a lowest-level table. */
  lemma SetLeaf(mem: Mem, roots: set<nat>, tabs: map<Slot, nat>, used: set<nat>, r: nat, p: Path, w: nat)
    requires WellMapped(mem, roots, tabs, used) && |p| == 4 && SlotOf(r, p[..3]) in tabs && p[3] < WORDS && w < WORD
    ensures var s := SlotOf(r, p[..3]);
      && tabs[s] in mem && |mem[tabs[s]]| == PAGE
      && WellMapped(Written(mem, tabs[s], p[3], w), roots, tabs, used)
      && Leaf(Written(mem, tabs[s], p[3], w), tabs, r, p) == (if Present(w) then Some(w) else None)
    ensures var s := SlotOf(r, p[..3]); OnlyAt(mem, Written(mem, tabs[s], p[3], w), tabs, roots, r, p)
  {
    assert Open(PageTables, 0);
    var s := SlotOf(r, p[..3]);
    SetGet(mem[tabs[s]], p[3], w);
    var mem' := Written(mem, tabs[s], p[3], w);
    assert EntriesOk(mem', tabs) by {
      forall x | x in tabs
        ensures tabs[x] in mem' && |mem'[tabs[x]]| == PAGE && (|x.path| < 3 ==> TableOk(mem'[tabs[x]], x, tabs))
      {
        assert x != s ==> tabs[x] != tabs[s];
      }
    }
    forall r', i | r' in roots ensures Door(mem', r', i) == Door(mem, r', i) { assert tabs[Private(r', [])] == r'; }
    forall r', p': Path | |p'| == 4 && SlotOf(r', p') != SlotOf(r, p)
      ensures Leaf(mem', tabs, r', p') == Leaf(mem, tabs, r', p')
    {
      LeafElsewhere(mem, tabs, r, p, w, r', p');
    }
  }

  /** No page but one is mapped differently. */
  ghost predicate OnlyAt(mem: Mem, mem': Mem, tabs: map<Slot, nat>, roots: set<nat>, r: nat, p: Path) {
    && SameDoors(mem, tabs, mem', roots)
    && forall r', p': Path | |p'| == 4 && SlotOf(r', p') != SlotOf(r, p) ::
         Leaf(mem', tabs, r', p') == Leaf(mem, tabs, r', p')
  }

  lemma LeafElsewhere(mem: Mem, tabs: map<Slot, nat>, r: nat, p: Path, w: nat, r': nat, p': Path)
    requires Injective(tabs) && |p| == 4 && SlotOf(r, p[..3]) in tabs && p[3] < WORDS && w < WORD
    requires var s := SlotOf(r, p[..3]); tabs[s] in mem && |mem[tabs[s]]| == PAGE
    requires |p'| == 4 && SlotOf(r', p') != SlotOf(r, p)
    ensures Leaf(Written(mem, tabs[SlotOf(r, p[..3])], p[3], w), tabs, r', p') == Leaf(mem, tabs, r', p')
  {
    var s := SlotOf(r, p[..3]);
    var s' := SlotOf(r', p'[..3]);
    SetGet(mem[tabs[s]], p[3], w);
    if s' == s {
      assert p' == p'[..3] + [p'[3]] && p == p[..3] + [p[3]];
    }
  }
}
