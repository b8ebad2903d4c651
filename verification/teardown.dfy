/** Deleting an address space: a recursive sweep over its tables that frees every
    table and every mapped frame. */
module Teardown {
  import opened Gates
  import opened Machine
  import opened PhysMem
  import opened Options
  import opened Pmm
  import opened Pte
  import opened PageTable
  import opened Vmm

  ghost predicate LeadsTo(w: nat, all: map<Path, nat>, c: Path) {
    (Present(w) <==> c in all) && (c in all ==> AddrOf(w) == all[c] && (|c| < 4 ==> !Large(w)))
  }

  ghost predicate NodeOk(mem: Mem, all: map<Path, nat>, q: Path)
    requires q in all
  {
    && all[q] in mem && |mem[all[q]]| == PAGE
    && forall i | 0 <= i < WORDS && (q == [] ==> i < 256) :: LeadsTo(Word(mem[all[q]], i), all, q + [i])
  }

  /** The tables in memory lead to the frames of `all`: paths of up to three indices
      to tables, paths of four to mapped frames. */
  ghost predicate Layout(mem: Mem, all: map<Path, nat>) {
    forall g {:trigger Open(Doom, g)} | Open(Doom, g) ::
      && (forall q | q in all ::
            && |q| <= 4 && all[q] % PAGE == 0
            && (q != [] ==> q[|q| - 1] < WORDS && q[..|q| - 1] in all))
      && (forall q | q in all && |q| <= 3 :: NodeOk(mem, all, q))
  }

  /** Tables are managed frames, and no managed frame lies at two places. */
  ghost predicate Apart(all: map<Path, nat>, tables: seq<Child>) {
    && (forall q | q in all && |q| <= 3 :: !Outside(tables, all[q]))
    && (forall q, q' | q in all && q' in all && q != q' && !Outside(tables, all[q]) :: all[q] != all[q'])
  }

  ghost predicate Under(p: Path, lo: nat, hi: nat, q: Path) {
    |q| > |p| && q[..|p|] == p && lo <= q[|p|] < hi
  }

  /** The managed frames behind entries `lo` up to `hi` of the table at `p`. */
  ghost function Below(all: map<Path, nat>, p: Path, lo: nat, hi: nat, tables: seq<Child>): set<nat> {
    set q | q in all && Under(p, lo, hi, q) && !Outside(tables, all[q]) :: all[q]
  }

  lemma BelowSplit(all: map<Path, nat>, p: Path, lo: nat, i: nat, tables: seq<Child>)
    requires lo <= i && Apart(all, tables)
    ensures Below(all, p, lo, i + 1, tables) == Below(all, p, lo, i, tables) + Below(all, p, i, i + 1, tables)
    ensures Below(all, p, lo, i, tables) !! Below(all, p, i, i + 1, tables)
    ensures p in all ==> all[p] !in Below(all, p, lo, i, tables)
  {
    var whole := Below(all, p, lo, i + 1, tables);
    var left, right := Below(all, p, lo, i, tables), Below(all, p, i, i + 1, tables);
    forall f | f in whole ensures f in left || f in right {
      var q :| q in all && Under(p, lo, i + 1, q) && !Outside(tables, all[q]) && all[q] == f;
      assert Under(p, lo, i, q) || Under(p, i, i + 1, q);
    }
    forall f | f in left || f in right ensures f in whole {
      var q :| q in all && (Under(p, lo, i, q) || Under(p, i, i + 1, q)) && !Outside(tables, all[q]) && all[q] == f;
      assert Under(p, lo, i + 1, q);
    }
  }

  lemma BelowNone(all: map<Path, nat>, p: Path, lo: nat, tables: seq<Child>)
    ensures Below(all, p, lo, lo, tables) == {}
  {
  }

  /** A path below `p + [i]` has `p + [i]` as a prefix, and that is a place too. */
  lemma {:induction false} Prefixes(mem: Mem, all: map<Path, nat>, q: Path, k: nat)
    requires Layout(mem, all) && q in all && k <= |q|
    ensures q[..k] in all
    decreases |q|
  {
    assert Open(Doom, 0);
    if k < |q| {
      Prefixes(mem, all, q[..|q| - 1], k);
      assert q[..|q| - 1][..k] == q[..k];
    } else {
      assert q[..k] == q;
    }
  }

  lemma BelowEntry(mem: Mem, all: map<Path, nat>, p: Path, i: nat, tables: seq<Child>)
    requires Layout(mem, all) && Apart(all, tables)
    ensures var c := p + [i];
      && (c !in all ==> Below(all, p, i, i + 1, tables) == {})
      && (c in all ==>
            && Below(all, p, i, i + 1, tables)
               == Below(all, c, 0, WORDS, tables) + (if Outside(tables, all[c]) then {} else {all[c]})
            && all[c] !in Below(all, c, 0, WORDS, tables))
  {
    var c := p + [i];
    forall q | q in all && Under(p, i, i + 1, q) ensures c in all && (q == c || Under(c, 0, WORDS, q)) {
      assert q[..|c|] == c;
      Prefixes(mem, all, q, |c|);
      if |q| > |c| { LastIndex(mem, all, q, |c|); }
      if |q| == |c| { assert q[..|c|] == q; }
    }
    forall q | Under(c, 0, WORDS, q) ensures Under(p, i, i + 1, q) {
      assert q[..|p|] == q[..|c|][..|p|] && q[|p|] == q[..|c|][|p|];
    }
    assert Under(p, i, i + 1, c);
    if c in all {
      var b := Below(all, c, 0, WORDS, tables) + (if Outside(tables, all[c]) then {} else {all[c]});
      forall f | f in Below(all, p, i, i + 1, tables) ensures f in b {
        var q :| q in all && Under(p, i, i + 1, q) && !Outside(tables, all[q]) && all[q] == f;
      }
      forall f | f in b ensures f in Below(all, p, i, i + 1, tables) {
        var q :| q in all && (q == c || Under(c, 0, WORDS, q)) && !Outside(tables, all[q]) && all[q] == f;
      }
    }
  }

  lemma {:induction false} LastIndex(mem: Mem, all: map<Path, nat>, q: Path, k: nat)
    requires Layout(mem, all) && q in all && k < |q|
    ensures q[k] < WORDS
    decreases |q|
  {
    assert Open(Doom, 0);
    if k < |q| - 1 { LastIndex(mem, all, q[..|q| - 1], k); }
  }

  /** Frames still held have not changed since. */
  ghost predicate Intact(mem0: Mem, mem: Mem, used: set<nat>) {
    forall f | f in used && f in mem :: f in mem0 && mem[f] == mem0[f]
  }

  lemma EntryAt(mem0: Mem, mem: Mem, used: set<nat>, all: map<Path, nat>, p: Path, i: nat)
    requires Layout(mem0, all) && Intact(mem0, mem, used) && p in all && |p| <= 3 && all[p] in used && all[p] in mem
    requires i < WORDS && (p == [] ==> i < 256)
    ensures |mem[all[p]]| == PAGE && LeadsTo(Word(mem[all[p]], i), all, p + [i])
    ensures p + [i] in all ==> all[p + [i]] % PAGE == 0
  {
    assert Open(Doom, 0);
    assert NodeOk(mem0, all, p);
  }

  lemma BelowLeaf(mem: Mem, all: map<Path, nat>, c: Path, tables: seq<Child>)
    requires Layout(mem, all) && |c| == 4
    ensures Below(all, c, 0, WORDS, tables) == {}
  {
    assert Open(Doom, 0);
  }

  lemma BelowRange(all: map<Path, nat>, p: Path, lo: nat, i: nat, hi: nat, tables: seq<Child>)
    requires lo <= i < hi
    ensures Below(all, p, i, i + 1, tables) <= Below(all, p, lo, hi, tables)
    ensures Below(all, p, lo, i, tables) <= Below(all, p, lo, hi, tables)
  {
    forall f | f in Below(all, p, i, i + 1, tables) + Below(all, p, lo, i, tables)
      ensures f in Below(all, p, lo, hi, tables)
    {
      var q :| q in all && (Under(p, i, i + 1, q) || Under(p, lo, i, q)) && !Outside(tables, all[q]) && all[q] == f;
      assert Under(p, lo, hi, q);
    }
  }

  /** Frees what lies behind the entries of a table: each managed frame once, without
      ever freeing a frame that is not held. */
  method FreeLevels(pmm: Allocator, table: nat, levels: nat, start: nat, end: nat,
                    ghost p: Path, ghost mem0: Mem, ghost all: map<Path, nat>)
    requires pmm.Valid() && 1 <= levels <= 4 && |p| == 4 - levels && start <= end <= WORDS && (p == [] ==> end <= 256)
    requires Layout(mem0, all) && Apart(all, pmm.tables) && p in all && all[p] == table
    requires Intact(mem0, pmm.mem, pmm.UsedFrames()) && table in pmm.UsedFrames()
    requires Below(all, p, start, end, pmm.tables) <= pmm.UsedFrames()
    modifies pmm
    ensures pmm.Valid() && Intact(mem0, pmm.mem, pmm.UsedFrames())
    ensures pmm.UsedFrames() == old(pmm.UsedFrames()) - Below(all, p, start, end, pmm.tables)
    decreases levels, 1
  {
    BelowNone(all, p, start, pmm.tables);
    for i := start to end
      invariant pmm.Valid() && Intact(mem0, pmm.mem, pmm.UsedFrames())
      invariant pmm.UsedFrames() == old(pmm.UsedFrames()) - Below(all, p, start, i, pmm.tables)
    {
      BelowRange(all, p, start, i, end, pmm.tables);
      BelowSplit(all, p, start, i, pmm.tables);
      EntryAt(mem0, pmm.mem, pmm.UsedFrames(), all, p, i);
      BelowEntry(mem0, all, p, i, pmm.tables);
      var w := Word(pmm.mem[table], i);
      if Present(w) {
        var r := FreeEntry(pmm, AddrOf(w), levels, Large(w), p, i, mem0, all);
      }
    }
  }

  /** One entry: what lies below it first, then its own frame.  It never panics. */
  method FreeEntry(pmm: Allocator, entry: nat, levels: nat, large: bool, ghost p: Path, ghost i: nat, ghost mem0: Mem,
                   ghost all: map<Path, nat>)
    returns (r: FreeResult)
    requires pmm.Valid() && 1 <= levels <= 4 && |p| == 4 - levels && (levels > 1 ==> !large)
    requires Layout(mem0, all) && Apart(all, pmm.tables) && p + [i] in all && all[p + [i]] == entry && entry % PAGE == 0
    requires Intact(mem0, pmm.mem, pmm.UsedFrames()) && Below(all, p, i, i + 1, pmm.tables) <= pmm.UsedFrames()
    modifies pmm
    ensures !r.Panicked? && (r.Ignored? <==> Outside(pmm.tables, entry))
    ensures pmm.Valid() && Intact(mem0, pmm.mem, pmm.UsedFrames())
    ensures pmm.UsedFrames() == old(pmm.UsedFrames()) - Below(all, p, i, i + 1, pmm.tables)
    decreases levels, 0
  {
    ghost var c := p + [i];
    BelowEntry(mem0, all, p, i, pmm.tables);
    if levels > 1 && !large {
      FreeLevels(pmm, entry, levels - 1, 0, WORDS, c, mem0, all);
    } else {
      BelowLeaf(mem0, all, c, pmm.tables);
    }
    r := pmm.FreePage(entry);
  }

  /** Frame `f` is a table of the lower half of `root`, or `root` itself. */
  ghost predicate IsTableOf(tabs: map<Slot, nat>, root: nat, f: nat) {
    exists q: Path :: Private(root, q) in tabs && tabs[Private(root, q)] == f
  }

  /** A page of the lower half is mapped to frame `f`. */
  ghost predicate IsMapped(mem: Mem, tabs: map<Slot, nat>, root: nat, f: nat) {
    exists q: Path :: |q| == 4 && q[0] < 256 && Translate(mem, tabs, root, q) == Some(f)
  }

  /** Every page of the lower half is mapped to an unmanaged frame, or to a held one
      that is no table and is mapped only there. */
  ghost predicate Deletable(mem: Mem, tabs: map<Slot, nat>, root: nat, tables: seq<Child>, used: set<nat>) {
    forall g {:trigger Open(Doom, g)} | Open(Doom, g) ::
      && (forall q: Path | |q| == 4 && q[0] < 256 && Translate(mem, tabs, root, q).Some? ::
            var a := Translate(mem, tabs, root, q).value; Outside(tables, a) || (a in used && a !in tabs.Values))
      && (forall q: Path, q': Path | |q| == 4 && |q'| == 4 && q[0] < 256 && q'[0] < 256 && q != q' ::
            var t := Translate(mem, tabs, root, q);
            t.Some? && !Outside(tables, t.value) ==> Translate(mem, tabs, root, q') != t)
  }

  ghost function TablePaths(tabs: map<Slot, nat>, root: nat): set<Path> {
    set s | s in tabs && s.Private? && s.root == root :: s.path
  }

  ghost function PagePaths(mem: Mem, tabs: map<Slot, nat>, root: nat): set<Path> {
    set q, i | q in TablePaths(tabs, root) && |q| == 3 && 0 <= i < WORDS && Translate(mem, tabs, root, q + [i]).Some? ::
      q + [i]
  }

  ghost function All(mem: Mem, tabs: map<Slot, nat>, root: nat): map<Path, nat> {
    (map q | q in TablePaths(tabs, root) :: tabs[Private(root, q)])
    + (map q | q in PagePaths(mem, tabs, root) && |q| == 4 :: Translate(mem, tabs, root, q).value)
  }

  lemma TablePath(mem: Mem, roots: set<nat>, tabs: map<Slot, nat>, used: set<nat>, root: nat, q: Path)
    requires WellMapped(mem, roots, tabs, used)
    ensures q in TablePaths(tabs, root) <==> Private(root, q) in tabs
    ensures Private(root, q) in tabs ==> |q| <= 3 && (q != [] ==> q[0] < 256)
  {
    if Private(root, q) in tabs {
      HalfOf(mem, roots, tabs, used, Private(root, q));
      assert Private(root, q).path in TablePaths(tabs, root);
    }
  }

  lemma PagePath(mem: Mem, roots: set<nat>, tabs: map<Slot, nat>, used: set<nat>, root: nat, q: Path)
    requires WellMapped(mem, roots, tabs, used)
    ensures q in PagePaths(mem, tabs, root) <==> |q| == 4 && q[0] < 256 && Translate(mem, tabs, root, q).Some?
    ensures q in PagePaths(mem, tabs, root) ==> q[3] < WORDS && Private(root, q[..3]) in tabs
  {
    if q in PagePaths(mem, tabs, root) {
      var h, i :| h in TablePaths(tabs, root) && |h| == 3 && 0 <= i < WORDS && q == h + [i]
                  && Translate(mem, tabs, root, h + [i]).Some?;
      TablePath(mem, roots, tabs, used, root, h);
      assert q[..3] == h && q[0] == h[0];
    }
    if |q| == 4 && q[0] < 256 && Translate(mem, tabs, root, q).Some? {
      assert q == q[..3] + [q[3]];
      TablePath(mem, roots, tabs, used, root, q[..3]);
    }
  }

  lemma AllIs(mem: Mem, roots: set<nat>, tabs: map<Slot, nat>, used: set<nat>, root: nat, q: Path)
    requires WellMapped(mem, roots, tabs, used)
    ensures var all := All(mem, tabs, root);
      q in all <==> Private(root, q) in tabs || (|q| == 4 && q[0] < 256 && Translate(mem, tabs, root, q).Some?)
    ensures Private(root, q) in tabs ==> |q| <= 3 && All(mem, tabs, root)[q] == tabs[Private(root, q)]
    ensures q in All(mem, tabs, root) && Private(root, q) !in tabs ==>
      && |q| == 4 && Some(All(mem, tabs, root)[q]) == Translate(mem, tabs, root, q)
      && q[3] < WORDS && Private(root, q[..3]) in tabs
  {
    TablePath(mem, roots, tabs, used, root, q);
    PagePath(mem, roots, tabs, used, root, q);
  }

  lemma AllLayout(mem: Mem, roots: set<nat>, tabs: map<Slot, nat>, used: set<nat>, root: nat)
    requires WellMapped(mem, roots, tabs, used) && root in roots && forall f | f in used :: f % PAGE == 0
    ensures Layout(mem, All(mem, tabs, root))
  {
    var all := All(mem, tabs, root);
    forall q | q in all
      ensures |q| <= 4 && all[q] % PAGE == 0 && (q != [] ==> q[|q| - 1] < WORDS && q[..|q| - 1] in all)
    {
      AllPath(mem, roots, tabs, used, root, q);
    }
    forall q | q in all && |q| <= 3 ensures NodeOk(mem, all, q) { AllNode(mem, roots, tabs, used, root, q); }
  }

  lemma AllPath(mem: Mem, roots: set<nat>, tabs: map<Slot, nat>, used: set<nat>, root: nat, q: Path)
    requires WellMapped(mem, roots, tabs, used) && root in roots && (forall f | f in used :: f % PAGE == 0)
    requires q in All(mem, tabs, root)
    ensures var all := All(mem, tabs, root);
      |q| <= 4 && all[q] % PAGE == 0 && (q != [] ==> q[|q| - 1] < WORDS && q[..|q| - 1] in all)
  {
    AllIs(mem, roots, tabs, used, root, q);
    if q != [] { AllIs(mem, roots, tabs, used, root, q[..|q| - 1]); }
    if Private(root, q) in tabs {
      HalfOf(mem, roots, tabs, used, Private(root, q));
    } else {
      PageAligned(mem, tabs, root, q);
    }
  }

  lemma PageAligned(mem: Mem, tabs: map<Slot, nat>, root: nat, q: Path)
    requires |q| == 4 && Translate(mem, tabs, root, q).Some?
    ensures Translate(mem, tabs, root, q).value % PAGE == 0
  {
    AddrAligned(Word(mem[tabs[SlotOf(root, q[..3])]], q[3]));
  }

  lemma AllNode(mem: Mem, roots: set<nat>, tabs: map<Slot, nat>, used: set<nat>, root: nat, q: Path)
    requires WellMapped(mem, roots, tabs, used) && q in All(mem, tabs, root) && |q| <= 3
    ensures NodeOk(mem, All(mem, tabs, root), q)
  {
    var all := All(mem, tabs, root);
    AllIs(mem, roots, tabs, used, root, q);
    var s := Private(root, q);
    HalfOf(mem, roots, tabs, used, s);
    TableFacts(mem, roots, tabs, used, s, 0);
    forall i | 0 <= i < WORDS && (q == [] ==> i < 256) ensures LeadsTo(Word(mem[all[q]], i), all, q + [i]) {
      EntryLeads(mem, roots, tabs, used, root, q, i, all);
    }
  }

  lemma EntryLeads(mem: Mem, roots: set<nat>, tabs: map<Slot, nat>, used: set<nat>, root: nat, q: Path, i: nat,
                   all: map<Path, nat>)
    requires WellMapped(mem, roots, tabs, used) && Private(root, q) in tabs && SlotOk(Private(root, q), roots)
    requires all == All(mem, tabs, root) && q in all && all[q] == tabs[Private(root, q)] && |q| <= 3
    requires i < WORDS && (q == [] ==> i < 256) && all[q] in mem && |mem[all[q]]| == PAGE
    ensures LeadsTo(Word(mem[all[q]], i), all, q + [i])
  {
    var s, c := Private(root, q), q + [i];
    AllIs(mem, roots, tabs, used, root, c);
    assert c[0] < 256;
    if |q| == 3 {
      LeafHere(mem, tabs, root, q, i);
    } else {
      TableFacts(mem, roots, tabs, used, s, i);
      assert Kid(s, i) == Private(root, c);
    }
  }

  lemma LeafHere(mem: Mem, tabs: map<Slot, nat>, root: nat, q: Path, i: nat)
    requires |q| == 3 && q[0] < 256 && Private(root, q) in tabs && i < WORDS
    requires tabs[Private(root, q)] in mem && |mem[tabs[Private(root, q)]]| == PAGE
    ensures var w := Word(mem[tabs[Private(root, q)]], i);
            Translate(mem, tabs, root, q + [i]) == if Present(w) then Some(AddrOf(w)) else None
  {
    var c := q + [i];
    assert c[..3] == q && c[3] == i;
  }

  lemma HalfOf(mem: Mem, roots: set<nat>, tabs: map<Slot, nat>, used: set<nat>, s: Slot)
    requires WellMapped(mem, roots, tabs, used) && s in tabs
    ensures SlotOk(s, roots) && HasParent(s, tabs) && tabs[s] in used
  {
    assert Open(PageTables, 0);
  }

  lemma AllApart(mem: Mem, roots: set<nat>, tabs: map<Slot, nat>, used: set<nat>, root: nat, tables: seq<Child>)
    requires WellMapped(mem, roots, tabs, used) && Deletable(mem, tabs, root, tables, used)
    requires forall f | f in used :: !Outside(tables, f)
    ensures Apart(All(mem, tabs, root), tables)
    ensures forall q | q in All(mem, tabs, root) ::
      Outside(tables, All(mem, tabs, root)[q]) || All(mem, tabs, root)[q] in used
  {
    var all := All(mem, tabs, root);
    forall q | q in all ensures Outside(tables, all[q]) || all[q] in used {
      assert Open(Doom, 0);
      AllIs(mem, roots, tabs, used, root, q);
      if Private(root, q) in tabs { TableFacts(mem, roots, tabs, used, Private(root, q), 0); }
    }
    forall q | q in all && |q| <= 3 ensures !Outside(tables, all[q]) {
      AllIs(mem, roots, tabs, used, root, q);
      TableFacts(mem, roots, tabs, used, Private(root, q), 0);
    }
    forall q, q' | q in all && q' in all && q != q' && !Outside(tables, all[q]) ensures all[q] != all[q'] {
      AllTwo(mem, roots, tabs, used, root, tables, q, q');
    }
  }

  lemma AllTwo(mem: Mem, roots: set<nat>, tabs: map<Slot, nat>, used: set<nat>, root: nat, tables: seq<Child>, q: Path,
               q': Path)
    requires WellMapped(mem, roots, tabs, used) && Deletable(mem, tabs, root, tables, used)
    requires forall f | f in used :: !Outside(tables, f)
    requires var all := All(mem, tabs, root); q in all && q' in all && q != q' && !Outside(tables, all[q])
    ensures All(mem, tabs, root)[q] != All(mem, tabs, root)[q']
  {
    assert Open(Doom, 0);
    AllIs(mem, roots, tabs, used, root, q);
    AllIs(mem, roots, tabs, used, root, q');
    if Private(root, q) in tabs && Private(root, q') in tabs { assert Open(PageTables, 0); }
  }

  /** What is freed: the tables and the managed frames mapped below. */
  lemma DoomedIs(mem: Mem, roots: set<nat>, tabs: map<Slot, nat>, used: set<nat>, root: nat, tables: seq<Child>, f: nat)
    requires WellMapped(mem, roots, tabs, used) && root in roots && Deletable(mem, tabs, root, tables, used)
    requires forall f | f in used :: !Outside(tables, f) && f % PAGE == 0
    ensures f in Below(All(mem, tabs, root), [], 0, 256, tables) + {root} <==>
      f in used && (IsTableOf(tabs, root, f) || IsMapped(mem, tabs, root, f))
  {
    var all := All(mem, tabs, root);
    AllApart(mem, roots, tabs, used, root, tables);
    RootTable(mem, roots, tabs, used, root);
    TableFacts(mem, roots, tabs, used, Private(root, []), 0);
    if f in Below(all, [], 0, 256, tables) {
      var q :| q in all && Under([], 0, 256, q) && !Outside(tables, all[q]) && all[q] == f;
      AllIs(mem, roots, tabs, used, root, q);
    }
    if f in used && IsTableOf(tabs, root, f) && f != root {
      var q: Path :| Private(root, q) in tabs && tabs[Private(root, q)] == f;
      AllIs(mem, roots, tabs, used, root, q);
      HalfOf(mem, roots, tabs, used, Private(root, q));
      assert Under([], 0, 256, q);
    }
    if f in used && IsMapped(mem, tabs, root, f) {
      var q: Path :| |q| == 4 && q[0] < 256 && Translate(mem, tabs, root, q) == Some(f);
      AllIs(mem, roots, tabs, used, root, q);
      TablePath(mem, roots, tabs, used, root, q);
      assert Under([], 0, 256, q);
    }
  }

  ghost function Others(tabs: map<Slot, nat>, root: nat): map<Slot, nat> {
    map s | s in tabs && !(s.Private? && s.root == root) :: tabs[s]
  }

  /** The other address spaces do not notice. */
  lemma OthersKept(mem: Mem, roots: set<nat>, tabs: map<Slot, nat>, used: set<nat>, root: nat, mem': Mem,
                   used': set<nat>)
    requires WellMapped(mem, roots, tabs, used) && Intact(mem, mem', used')
    requires forall f | f in used && !IsTableOf(tabs, root, f) && f in tabs.Values :: f in used' && f in mem'
    ensures WellMapped(mem', roots - {root}, Others(tabs, root), used')
    ensures SameMaps(mem, tabs, mem', Others(tabs, root), roots - {root})
  {
    assert Open(PageTables, 0);
    var tabs' := Others(tabs, root);
    forall s | s in tabs' ensures tabs[s] in used' && tabs[s] in mem' && mem'[tabs[s]] == mem[tabs[s]] {
      assert !IsTableOf(tabs, root, tabs[s]);
    }
    OthersPlaces(roots, tabs, used, root, used');
    OthersEntries(mem, tabs, root, mem');
    OthersDoors(mem, roots, tabs, used, root, mem');
    OthersMaps(mem, tabs, root, mem', roots);
  }

  lemma OthersDoors(mem: Mem, roots: set<nat>, tabs: map<Slot, nat>, used: set<nat>, root: nat, mem': Mem)
    requires PlacesOk(roots, tabs, used) && EntriesOk(mem, tabs) && DoorsAgree(mem, roots)
    requires forall s | s in Others(tabs, root) :: tabs[s] in mem' && mem'[tabs[s]] == mem[tabs[s]]
    ensures DoorsAgree(mem', roots - {root}) && SameDoors(mem, tabs, mem', roots - {root})
  {
    forall r | r in roots - {root} ensures r in mem && r in mem' && mem'[r] == mem[r] {
      assert Private(r, []) in Others(tabs, root) && tabs[Private(r, [])] == r;
    }
    DoorsKept(mem, mem', roots - {root}, tabs);
  }

  lemma OthersPlaces(roots: set<nat>, tabs: map<Slot, nat>, used: set<nat>, root: nat, used': set<nat>)
    requires PlacesOk(roots, tabs, used) && forall s | s in Others(tabs, root) :: tabs[s] in used'
    ensures PlacesOk(roots - {root}, Others(tabs, root), used')
  {
    var tabs' := Others(tabs, root);
    forall s | s in tabs' ensures SlotOk(s, roots - {root}) && HasParent(s, tabs') && tabs'[s] in used' {
      assert SlotOk(s, roots) && HasParent(s, tabs);
    }
  }

  lemma OthersEntries(mem: Mem, tabs: map<Slot, nat>, root: nat, mem': Mem)
    requires EntriesOk(mem, tabs)
    requires forall s | s in Others(tabs, root) :: tabs[s] in mem' && mem'[tabs[s]] == mem[tabs[s]]
    ensures EntriesOk(mem', Others(tabs, root))
  {
    var tabs' := Others(tabs, root);
    forall s | s in tabs' && |s.path| < 3 ensures TableOk(mem'[tabs'[s]], s, tabs') {
      assert TableOk(mem[tabs[s]], s, tabs);
      forall i | 0 <= i < WORDS ensures EntryOk(Word(mem'[tabs'[s]], i), tabs', Kid(s, i)) {
        assert EntryOk(Word(mem[tabs[s]], i), tabs, Kid(s, i));
        assert Kid(s, i) in tabs <==> Kid(s, i) in tabs';
      }
    }
  }

  lemma OthersMaps(mem: Mem, tabs: map<Slot, nat>, root: nat, mem': Mem, roots: set<nat>)
    requires EntriesOk(mem, tabs)
    requires forall s | s in Others(tabs, root) :: tabs[s] in mem' && mem'[tabs[s]] == mem[tabs[s]]
    requires SameDoors(mem, tabs, mem', roots - {root})
    ensures SameMaps(mem, tabs, mem', Others(tabs, root), roots - {root})
  {
    forall r, p: Path | r in roots - {root} && |p| == 4
      ensures Leaf(mem', Others(tabs, root), r, p) == Leaf(mem, tabs, r, p)
    {
      assert SlotOf(r, p[..3]) in tabs <==> SlotOf(r, p[..3]) in Others(tabs, root);
    }
  }

  lemma HeldFit(pmm: Allocator)
    requires pmm.Valid()
    ensures forall f | f in pmm.UsedFrames() :: !Outside(pmm.tables, f) && f % PAGE == 0 && f in pmm.mem
    ensures pmm.used == |pmm.UsedFrames()|
  {
    assert Open(Counting, 0);
    forall f | f in pmm.UsedFrames() ensures !Outside(pmm.tables, f) && f % PAGE == 0 && f in pmm.mem {
      CursorManaged(pmm.tables, pmm.pages, pmm.fillTable, pmm.fillPage, f);
      ManagedFits(pmm.tables, pmm.hhdm, f);
    }
  }

  lemma SizeDiff(a: set<nat>, b: set<nat>)
    requires b <= a
    ensures |b| == |a| - |a - b|
  {
    assert a == b + (a - b);
  }

  /** A table of another address space is not mapped below, so it is not freed. */
  lemma TablesStay(mem: Mem, roots: set<nat>, tabs: map<Slot, nat>, used: set<nat>, root: nat, tables: seq<Child>,
                   used': set<nat>)
    requires WellMapped(mem, roots, tabs, used) && Deletable(mem, tabs, root, tables, used)
    requires forall f | f in used :: !Outside(tables, f)
    requires forall f :: f in used' <==> f in used && !IsTableOf(tabs, root, f) && !IsMapped(mem, tabs, root, f)
    ensures forall f | f in used && !IsTableOf(tabs, root, f) && f in tabs.Values :: f in used'
  {
    assert Open(Doom, 0);
  }

  /** Frees everything below, then the top-level table. */
  method Sweep(pmm: Allocator, root: nat, ghost roots: set<nat>, ghost tabs: map<Slot, nat>)
    requires pmm.Valid() && WellMapped(pmm.mem, roots, tabs, pmm.UsedFrames()) && root in roots
    requires Deletable(pmm.mem, tabs, root, pmm.tables, pmm.UsedFrames())
    modifies pmm
    ensures pmm.Valid() && Intact(old(pmm.mem), pmm.mem, pmm.UsedFrames())
    ensures pmm.UsedFrames()
         == old(pmm.UsedFrames()) - (Below(All(old(pmm.mem), tabs, root), [], 0, 256, pmm.tables) + {root})
    ensures pmm.used == |pmm.UsedFrames()| && forall f | f in pmm.UsedFrames() :: f in pmm.mem
  {
    ghost var mem0, used0, all := pmm.mem, pmm.UsedFrames(), All(pmm.mem, tabs, root);
    HeldFit(pmm);
    Ready(mem0, roots, tabs, used0, root, pmm.tables);
    SweepAll(pmm, root, mem0, all);
    HeldFit(pmm);
  }

  method SweepAll(pmm: Allocator, root: nat, ghost mem0: Mem, ghost all: map<Path, nat>)
    requires pmm.Valid() && pmm.mem == mem0 && root in pmm.UsedFrames() && root % PAGE == 0
    requires Layout(mem0, all) && Apart(all, pmm.tables) && [] in all && all[[]] == root
    requires root !in Below(all, [], 0, 256, pmm.tables) && Below(all, [], 0, 256, pmm.tables) <= pmm.UsedFrames()
    modifies pmm
    ensures pmm.Valid() && Intact(mem0, pmm.mem, pmm.UsedFrames())
    ensures pmm.UsedFrames() == old(pmm.UsedFrames()) - (Below(all, [], 0, 256, pmm.tables) + {root})
  {
    FreeLevels(pmm, root, 4, 0, 256, [], mem0, all);
    var r := pmm.FreePage(root);
  }

  lemma Ready(mem: Mem, roots: set<nat>, tabs: map<Slot, nat>, used: set<nat>, root: nat, tables: seq<Child>)
    requires WellMapped(mem, roots, tabs, used) && root in roots && Deletable(mem, tabs, root, tables, used)
    requires forall f | f in used :: !Outside(tables, f) && f % PAGE == 0
    ensures var all := All(mem, tabs, root);
      && Layout(mem, all) && Apart(all, tables) && [] in all && all[[]] == root && root in used && root % PAGE == 0
      && root !in Below(all, [], 0, 256, tables) && Below(all, [], 0, 256, tables) <= used
  {
    AllLayout(mem, roots, tabs, used, root);
    AllApart(mem, roots, tabs, used, root, tables);
    RootTable(mem, roots, tabs, used, root);
    TableFacts(mem, roots, tabs, used, Private(root, []), 0);
    AllIs(mem, roots, tabs, used, root, []);
    BelowSplit(All(mem, tabs, root), [], 0, 256, tables);
  }

  /** Deletes an address space: its tables and the frames mapped in its lower half are
      freed, each once; every other address space stays as it was. */
  method DeletePagemap(mmu: Mmu, root: nat)
    requires mmu.Valid() && root in mmu.roots
    requires Deletable(mmu.pmm.mem, mmu.tabs, root, mmu.pmm.tables, mmu.pmm.UsedFrames())
    modifies mmu`tabs, mmu`roots, mmu.pmm
    ensures mmu.Valid() && mmu.roots == old(mmu.roots) - {root} && (old(mmu.Full()) ==> mmu.Full())
    ensures SameMaps(old(mmu.pmm.mem), old(mmu.tabs), mmu.pmm.mem, mmu.tabs, mmu.roots)
    ensures forall f :: f in mmu.pmm.UsedFrames() <==>
      && f in old(mmu.pmm.UsedFrames())
      && !old(IsTableOf(mmu.tabs, root, f)) && !old(IsMapped(mmu.pmm.mem, mmu.tabs, root, f))
    ensures mmu.pmm.used == old(mmu.pmm.used) - |old(mmu.pmm.UsedFrames()) - mmu.pmm.UsedFrames()|
  {
    var pmm := mmu.pmm;
    ghost var mem0, used0, tabs0, roots0 := pmm.mem, pmm.UsedFrames(), mmu.tabs, mmu.roots;
    HeldFit(pmm);
    Sweep(pmm, root, roots0, tabs0);
    forall f
      ensures f in pmm.UsedFrames() <==> f in used0 && !IsTableOf(tabs0, root, f) && !IsMapped(mem0, tabs0, root, f)
    {
      DoomedIs(mem0, roots0, tabs0, used0, root, pmm.tables, f);
    }
    TablesStay(mem0, roots0, tabs0, used0, root, pmm.tables, pmm.UsedFrames());
    OthersKept(mem0, roots0, tabs0, used0, root, pmm.mem, pmm.UsedFrames());
    SizeDiff(used0, pmm.UsedFrames());
    mmu.tabs := Others(mmu.tabs, root);
    mmu.roots := mmu.roots - {root};
  }
}
