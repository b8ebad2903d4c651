/** Huffman decoding: the node tree, the 10-bit lookup cache in front of it, and
    the agreement of both with the canonical codes. */
module Huffman {
  import opened Gates
  import opened Words
  import opened Bits
  import opened BitReader
  import opened CanonicalCode
  import opened HuffmanShape
  import opened HuffmanSize
  import opened Arenas

  const TABLE_BITS := 10
  const TABLE_SIZE := 1024

  datatype Entry = Entry(symbol: nat, length: int)

  datatype Decoded = Nothing | Found(symbol: nat, length: nat)

  // --- walking the tree ---

  /** The walk of the slow lookup over a 15-bit window, from node `cur`. */
  function Walk(nodes: seq<Node>, cur: nat, window: nat, depth: nat): Decoded
    requires cur < |nodes|
    decreases MAX_BITS + 1 - depth
  {
    match nodes[cur]
    case Symbol(s) => Found(s, depth)
    case Internal(zero, one) =>
      var next := if WordBit(window, depth) == 1 then one else zero;
      if next == -1 || !(0 <= next < |nodes|) then Nothing
      else if depth + 1 > MAX_BITS then Nothing
      else Walk(nodes, next, window, depth + 1)
  }

  /** Node `cur` stands for the first `depth` bits of the window. */
  ghost predicate At(path: seq<Path>, cur: nat, window: nat, depth: nat) {
    cur < |path| && path[cur] == Path(depth, Reverse(window, depth))
  }

  /** On the way to a code that starts the window every node is internal and
      leads to the node of the next longer prefix. */
  lemma WalkStep(lens: seq<nat>, nodes: seq<Node>, path: seq<Path>, index: map<Path, nat>,
                 cur: nat, window: nat, depth: nat, s: nat)
    requires Shape(lens, |lens|, nodes, path, index)
    requires At(path, cur, window, depth) && Match(lens, window, s) && depth < lens[s]
    ensures nodes[cur].Internal?
    ensures var next := if WordBit(window, depth) == 1 then nodes[cur].one else nodes[cur].zero;
            0 <= next < |nodes| && At(path, next, window, depth + 1)
  {
    assert Open(Tree, 0);
    ReversePrefix(window, depth, lens[s]);
    if nodes[cur].Symbol? {
      PrefixFree(lens, nodes[cur].symbol, s);
      assert false;
    }
    assert Covered(lens, s, lens[s], index);
    ReversePrefix(window, depth + 1, lens[s]);
    NextAt(nodes, path, index, cur, window, depth);
    assert Prefix(lens, s, depth + 1) == Child(path[cur], WordBit(window, depth));
  }

  /** A code that starts the window is found by walking on from any of its nodes. */
  lemma {:induction false} WalkFinds(lens: seq<nat>, nodes: seq<Node>, path: seq<Path>, index: map<Path, nat>,
                                     cur: nat, window: nat, depth: nat, s: nat)
    requires Shape(lens, |lens|, nodes, path, index)
    requires At(path, cur, window, depth) && Match(lens, window, s) && depth <= lens[s]
    ensures Walk(nodes, cur, window, depth) == Found(s, lens[s])
    decreases MAX_BITS - depth
  {
    if depth == lens[s] {
      LeafOf(lens, nodes, path, index, cur, s);
    } else {
      WalkStep(lens, nodes, path, index, cur, window, depth, s);
      var next := if WordBit(window, depth) == 1 then nodes[cur].one else nodes[cur].zero;
      WalkFinds(lens, nodes, path, index, next, window, depth + 1, s);
    }
  }

  lemma LeafOf(lens: seq<nat>, nodes: seq<Node>, path: seq<Path>, index: map<Path, nat>, cur: nat, s: nat)
    requires Shape(lens, |lens|, nodes, path, index)
    requires Coded(lens, s) && cur < |path| && path[cur] == Path(lens[s], Code(lens, s))
    ensures nodes[cur] == Symbol(s)
  {
    assert Open(Tree, 0);
    assert HasLeaf(lens, s, nodes, index);
  }

  /** Whatever the walk finds is a code that starts the window. */
  lemma {:induction false} WalkSound(lens: seq<nat>, nodes: seq<Node>, path: seq<Path>, index: map<Path, nat>,
                                     cur: nat, window: nat, depth: nat)
    requires Shape(lens, |lens|, nodes, path, index) && At(path, cur, window, depth) && depth <= MAX_BITS
    ensures var r := Walk(nodes, cur, window, depth);
            r.Found? ==> Match(lens, window, r.symbol) && r.length == lens[r.symbol]
    decreases MAX_BITS - depth
  {
    if nodes[cur].Symbol? {
      LeafMatches(lens, nodes, path, index, cur, window, depth);
    } else if depth < MAX_BITS {
      var bit := WordBit(window, depth);
      var next := if bit == 1 then nodes[cur].one else nodes[cur].zero;
      if 0 <= next < |nodes| {
        assert Open(Tree, 0);
        NextAt(nodes, path, index, cur, window, depth);
        WalkSound(lens, nodes, path, index, next, window, depth + 1);
      }
    }
  }

  lemma LeafMatches(lens: seq<nat>, nodes: seq<Node>, path: seq<Path>, index: map<Path, nat>,
                    cur: nat, window: nat, depth: nat)
    requires Shape(lens, |lens|, nodes, path, index) && At(path, cur, window, depth) && nodes[cur].Symbol?
    ensures Match(lens, window, nodes[cur].symbol) && depth == lens[nodes[cur].symbol]
  {
    assert Open(Tree, 0);
  }

  lemma NextAt(nodes: seq<Node>, path: seq<Path>, index: map<Path, nat>, cur: nat, window: nat, depth: nat)
    requires Named(nodes, path, index) && Wired(nodes, path, index)
    requires At(path, cur, window, depth) && nodes[cur].Internal?
    ensures var next := if WordBit(window, depth) == 1 then nodes[cur].one else nodes[cur].zero;
            0 <= next ==> At(path, next, window, depth + 1)
  {
    var c := Child(path[cur], WordBit(window, depth));
    assert c == Path(depth + 1, Reverse(window, depth + 1));
  }

  /** The walk from the root decodes exactly the canonical codes. */
  lemma WalkDecodes(lens: seq<nat>, nodes: seq<Node>, path: seq<Path>, index: map<Path, nat>, window: nat, s: nat)
    requires Shape(lens, |lens|, nodes, path, index)
    ensures Match(lens, window, s) <==> s < |lens| && Walk(nodes, 0, window, 0) == Found(s, lens[s])
  {
    assert Open(Tree, 0);
    if Match(lens, window, s) {
      WalkFinds(lens, nodes, path, index, 0, window, 0, s);
    }
    WalkSound(lens, nodes, path, index, 0, window, 0);
  }

  // --- the lookup cache ---

  /** A slot holds a symbol when its short code starts the slot number's bits. */
  ghost predicate SlotOk(lens: seq<nat>, n: nat, slot: nat, e: Entry) {
    && (e.length > 0 ==> e.symbol < n && Match(lens, slot, e.symbol) && lens[e.symbol] == e.length <= TABLE_BITS)
    && (e.length <= 0 ==> forall s | 0 <= s < n && Match(lens, slot, s) :: lens[s] > TABLE_BITS)
  }

  ghost predicate TableOk(lens: seq<nat>, n: nat, table: seq<Entry>) {
    && |table| == TABLE_SIZE
    && forall i | 0 <= i < |table| :: SlotOk(lens, n, i, table[i])
  }

  /** The cached lookup of a window. */
  function Cached(table: seq<Entry>, nodes: seq<Node>, window: nat): Decoded
    requires |table| == TABLE_SIZE && |nodes| > 0
  {
    assert Pow2(10) == 1024;
    var e := table[Low(window, TABLE_BITS)];
    if e.length > 0 then Found(e.symbol, e.length) else Walk(nodes, 0, window, 0)
  }

  /** For every window the cache and the walk from the root agree. */
  lemma CacheAgrees(lens: seq<nat>, table: seq<Entry>, nodes: seq<Node>, path: seq<Path>,
                    index: map<Path, nat>, window: nat)
    requires Shape(lens, |lens|, nodes, path, index) && TableOk(lens, |lens|, table)
    ensures Cached(table, nodes, window) == Walk(nodes, 0, window, 0)
  {
    assert Pow2(10) == 1024;
    var slot := Low(window, TABLE_BITS);
    var e := table[slot];
    assert SlotOk(lens, |lens|, slot, e);
    if e.length > 0 {
      ReverseLow(window, TABLE_BITS, e.length);
      assert Open(Tree, 0);
      WalkFinds(lens, nodes, path, index, 0, window, 0, e.symbol);
    }
  }

  /** Two symbols never claim the same slot. */
  lemma SlotFree(lens: seq<nat>, n: nat, slot: nat, e: Entry, s: nat)
    requires SlotOk(lens, n, slot, e) && n <= s && Match(lens, slot, s)
    ensures e.length <= 0
  {
    if e.length > 0 { MatchUnique(lens, slot, s, e.symbol); }
  }

  /** The slots of a short code are those whose low bits are the reversed code. */
  lemma SlotsOfCode(lens: seq<nat>, slot: nat, s: nat)
    requires Coded(lens, s) && NotOverSubscribed(lens)
    ensures Match(lens, slot, s) <==> Low(slot, lens[s]) == Reverse(Code(lens, s), lens[s])
  {
    var n := lens[s];
    CodeFits(lens, s);
    LowSmall(Code(lens, s), n);
    ReverseTwice(Code(lens, s), n);
    ReverseTwice(slot, n);
    ReverseLow(slot, n, n);
  }

  method BitReverse(code: nat, bits: nat) returns (result: nat)
    requires bits <= 32
    ensures result == Reverse(code, bits)
  {
    result := 0;
    var rest, i := code, 0;
    while i < bits
      invariant i <= bits
      invariant rest == Shr(code, i)
      invariant result == Reverse(code, i)
    {
      result := 2 * result;
      if rest % 2 == 1 { result := result + 1; }
      ShrStep(code, i);
      rest := rest / 2;
      i := i + 1;
    }
  }

  /** After the slots of `s` are filled the table is right for one more symbol. */
  lemma TableFilled(lens: seq<nat>, s: nat, before: seq<Entry>, after: seq<Entry>)
    requires TableOk(lens, s, before) && NotOverSubscribed(lens) && Coded(lens, s) && lens[s] <= TABLE_BITS
    requires |after| == |before|
    requires forall i | 0 <= i < |after| ::
      after[i] == if Low(i, lens[s]) == Reverse(Code(lens, s), lens[s]) then Entry(s, lens[s]) else before[i]
    ensures TableOk(lens, s + 1, after)
  {
    forall i | 0 <= i < |after| ensures SlotOk(lens, s + 1, i, after[i]) {
      assert SlotOk(lens, s, i, before[i]);
      SlotsOfCode(lens, i, s);
    }
  }

  /** A symbol without a short code leaves the table as it is. */
  lemma TableKept(lens: seq<nat>, s: nat, table: seq<Entry>)
    requires TableOk(lens, s, table) && (Coded(lens, s) ==> lens[s] > TABLE_BITS)
    ensures TableOk(lens, s + 1, table)
  {
    forall i | 0 <= i < |table| ensures SlotOk(lens, s + 1, i, table[i]) {
      assert SlotOk(lens, s, i, table[i]);
    }
  }

  class HuffmanTree {
    var table: array<Entry>
    var nodes: seq<Node>
    var nodesCapacity: nat

    ghost var lens: seq<nat>
    ghost var start: nat
    ghost var mark: nat
    ghost var path: seq<Path>
    ghost var index: map<Path, nat>

    /** The tree and the cache of a vector that is not over-subscribed. */
    ghost predicate Valid()
      reads this, table
    {
      && NotOverSubscribed(lens)
      && Shape(lens, |lens|, nodes, path, index)
      && TableOk(lens, |lens|, table[..])
    }

    /** The node array holds its nodes; it has its first size, or has been doubled
        once because it was too small, and `arena` has handed out just that. */
    ghost predicate Sized(arena: Arena)
      reads this, arena
    {
      && |index| == |nodes| <= nodesCapacity
      && Lengths(lens) && start == FirstCapacity(LeafCount(lens, |lens|))
      && if nodesCapacity == start then arena.offset == mark
         else nodesCapacity == 2 * start < 2 * |nodes| && arena.offset <= mark + 7 + NODE_BYTES * 2 * start
    }

    /** The arena has no room left for the doubled node array. */
    ghost predicate Short(arena: Arena)
      reads this, arena
    {
      mark + 7 + NODE_BYTES * 2 * start > arena.capacity
    }

    /** The first `n` symbols are in the tree and in the cache. */
    ghost predicate Building(n: nat, arena: Arena)
      reads this, table, arena
    {
      && Shape(lens, n, nodes, path, index)
      && OnlyPrefixes(lens, n, index)
      && TableOk(lens, n, table[..])
      && Sized(arena)
    }

    constructor (lengths: seq<nat>, capacity: nat, ghost arena: Arena)
      requires Lengths(lengths) && capacity == FirstCapacity(LeafCount(lengths, |lengths|))
      ensures lens == lengths && start == capacity && mark == arena.offset
      ensures Building(0, arena) && fresh(table)
    {
      nodes, nodesCapacity := [Internal(-1, -1)], capacity;
      lens, path, index := lengths, [ROOT], map[ROOT := 0];
      start, mark := capacity, arena.offset;
      table := new Entry[TABLE_SIZE](_ => Entry(0xffff, -1));
      EmptyShape(lengths);
      new;
      forall i | 0 <= i < TABLE_SIZE ensures SlotOk(lens, 0, i, table[i]) { }
    }

    /** Appends an empty node, moving to an array of double capacity when this one
        is full; fails when the arena cannot give that array. */
    method AllocNewNode(arena: Arena, ghost p: Path) returns (ok: bool, i: nat)
      modifies `nodes, `nodesCapacity, `path, `index, arena`offset
      requires Sized(arena) && |nodes| < 2 * start && p !in index
      ensures ok ==> i == old(|nodes|) && nodes == old(nodes) + [Internal(-1, -1)]
      ensures ok ==> path == old(path) + [p] && index == old(index)[p := i] && Sized(arena)
      ensures !ok ==> Short(arena)
    {
      if |nodes| >= nodesCapacity {
        var capacity := if nodesCapacity == 0 then 16 else nodesCapacity * 2;
        var given, _ := arena.Allocate(NODE_BYTES * capacity);
        if !given { return false, 0; }
        nodesCapacity := capacity;
      }
      ok, i := true, |nodes|;
      nodes := nodes + [Internal(-1, -1)];
      assert index[p := i].Keys == index.Keys + {p};
      path, index := path + [p], index[p := i];
    }

    /** Enters one code, most significant bit first, creating the missing nodes. */
    method InsertCode(arena: Arena, code: nat, len: nat, symbol: nat) returns (ok: bool)
      requires NotOverSubscribed(lens) && Coded(lens, symbol)
      requires code == Code(lens, symbol) && len == lens[symbol]
      requires Shape(lens, symbol, nodes, path, index) && OnlyPrefixes(lens, symbol, index) && Sized(arena)
      modifies `nodes, `nodesCapacity, `path, `index, arena`offset
      ensures ok ==> Shape(lens, symbol + 1, nodes, path, index) && OnlyPrefixes(lens, symbol + 1, index)
      ensures ok ==> Sized(arena)
      ensures !ok ==> Short(arena)
    {
      var current: nat := 0;
      StartGrowing(lens, symbol, nodes, path, index);
      var i := len;
      while i > 0
        invariant 0 <= i <= len
        invariant Growing(lens, symbol, len - i, current, nodes, path, index)
        invariant PrefixesSoFar(lens, symbol, len - i, index) && Sized(arena)
      {
        i := i - 1;
        ok, current := Descend(arena, code, i, symbol, current);
        if !ok { return false; }
      }
      Finish(lens, symbol, current, nodes, path, index);
      nodes := nodes[current := Symbol(symbol)];
      ok := true;
    }

    /** One bit of that: the child is created if it is not there. */
    method Descend(arena: Arena, code: nat, i: nat, symbol: nat, current: nat) returns (ok: bool, child: nat)
      requires NotOverSubscribed(lens) && Coded(lens, symbol)
      requires code == Code(lens, symbol) && i < lens[symbol]
      requires Growing(lens, symbol, lens[symbol] - 1 - i, current, nodes, path, index)
      requires PrefixesSoFar(lens, symbol, lens[symbol] - 1 - i, index) && Sized(arena)
      modifies `nodes, `nodesCapacity, `path, `index, arena`offset
      ensures ok ==> Growing(lens, symbol, lens[symbol] - i, child, nodes, path, index)
      ensures ok ==> PrefixesSoFar(lens, symbol, lens[symbol] - i, index) && Sized(arena)
      ensures !ok ==> Short(arena)
    {
      var bit := WordBit(code, i);
      ghost var d := lens[symbol] - 1 - i;
      ghost var p := Prefix(lens, symbol, d + 1);
      ChildOf(lens, symbol, d, current, nodes, path, index);
      ok, child := true, current;
      var next := if bit == 0 then nodes[current].zero else nodes[current].one;
      if next == -1 {
        StepNew(lens, symbol, d, current, bit, nodes, path, index);
        RoomForOne(lens, symbol, d, p, index, |nodes|);
        ok, child := AllocNewNode(arena, p);
        if !ok { return false, current; }
        nodes := nodes[current := SetChild(nodes[current], bit, child)];
      } else {
        StepExisting(lens, symbol, d, current, nodes, path, index);
        child := next;
      }
    }

    /** Fills every slot whose low `len` bits are the reversed code. */
    method FillSlots(symbol: nat, len: nat, revCode: nat)
      requires table.Length == TABLE_SIZE && revCode < Pow2(len)
      modifies table
      ensures forall i | 0 <= i < table.Length ::
        table[i] == if Low(i, len) == revCode then Entry(symbol, len) else old(table[i])
    {
      var fill := revCode;
      LowSmall(revCode, len);
      while fill < TABLE_SIZE
        invariant Low(fill, len) == revCode
        invariant forall i | 0 <= i < table.Length ::
          table[i] == if i < fill && Low(i, len) == revCode then Entry(symbol, len) else old(table[i])
        invariant fill < Pow2(len) ==> fill == revCode
        decreases TABLE_SIZE - fill
      {
        table[fill] := Entry(symbol, len);
        LowStride(fill, len);
        forall i | fill < i < fill + Pow2(len) ensures Low(i, len) != revCode {
          if Low(i, len) == revCode { LowUnique(fill, i, len); }
        }
        fill := fill + Pow2(len);
      }
    }

    /** Enters a symbol in the tree and, when its code is short, in the cache. */
    method EnterSymbol(arena: Arena, symbol: nat, code: nat, len: nat) returns (ok: bool)
      requires NotOverSubscribed(lens) && Coded(lens, symbol)
      requires code == Code(lens, symbol) && len == lens[symbol]
      requires Building(symbol, arena)
      modifies `nodes, `nodesCapacity, `path, `index, table, arena`offset
      ensures ok ==> Building(symbol + 1, arena)
      ensures !ok ==> Short(arena)
    {
      ghost var before := table[..];
      ok := InsertCode(arena, code, len, symbol);
      if !ok { return; }
      if len > TABLE_BITS {
        TableKept(lens, symbol, table[..]);
        return;
      }
      CodeFits(lens, symbol);
      var revCode := BitReverse(code, len);
      FillSlots(symbol, len, revCode);
      TableFilled(lens, symbol, before, table[..]);
    }
  }

  method CountLeaves(lens: seq<nat>) returns (leaves: nat)
    ensures leaves == LeafCount(lens, |lens|)
  {
    leaves := 0;
    for i := 0 to |lens|
      invariant leaves == LeafCount(lens, i)
    {
      if lens[i] != 0 { leaves := leaves + 1; }
    }
  }

  /** How many codes there are of each length; fails on a length above 15. */
  method CountLengths(lens: seq<nat>) returns (ok: bool, blCount: array<nat>)
    ensures fresh(blCount) && blCount.Length == MAX_BITS + 1
    ensures ok <==> Lengths(lens)
    ensures ok ==> forall len {:trigger blCount[len]} | 0 <= len <= MAX_BITS :: blCount[len] == Count(lens, len)
  {
    blCount := new nat[MAX_BITS + 1](_ => 0);
    for i := 0 to |lens|
      invariant forall j | 0 <= j < i :: lens[j] <= MAX_BITS
      invariant blCount[0] == 0
      invariant forall len {:trigger blCount[len]} | 1 <= len <= MAX_BITS :: blCount[len] == CountIn(lens, i, len)
    {
      if lens[i] > MAX_BITS { return false, blCount; }
      if lens[i] != 0 { blCount[lens[i]] := blCount[lens[i]] + 1; }
    }
    ok := true;
  }

  /** The first code of each length, in 16-bit words. */
  method NextCodes(lens: seq<nat>, blCount: array<nat>) returns (nextCode: array<nat>)
    requires NotOverSubscribed(lens) && blCount.Length == MAX_BITS + 1
    requires forall len {:trigger blCount[len]} | 0 <= len <= MAX_BITS :: blCount[len] == Count(lens, len)
    ensures fresh(nextCode) && NextOk(nextCode[..], lens, 0)
  {
    nextCode := new nat[MAX_BITS + 1](_ => 0);
    var code := 0;
    for bits := 1 to MAX_BITS + 1
      invariant code == FirstCode(lens, bits - 1)
      invariant forall len {:trigger nextCode[len]} | 1 <= len < bits :: nextCode[len] == FirstCode(lens, len)
    {
      code := 2 * (code + blCount[bits - 1]);
      FirstCodeStep(lens, bits);
      CodeIn16Bits(lens, bits, code);
      nextCode[bits] := code % 0x1_0000;
    }
  }

  lemma FirstCodeStep(lens: seq<nat>, len: nat)
    requires len > 0
    ensures FirstCode(lens, len) == 2 * (FirstCode(lens, len - 1) + Count(lens, len - 1))
  {
  }

  /** The next code to hand out for each length, after the first `n` symbols. */
  ghost predicate NextOk(codes: seq<nat>, lens: seq<nat>, n: nat)
    requires n <= |lens|
  {
    && |codes| == MAX_BITS + 1
    && forall len {:trigger codes[len]} | 1 <= len <= MAX_BITS ::
      codes[len] == FirstCode(lens, len) + CountIn(lens, n, len)
  }

  lemma NextStep(codes: seq<nat>, lens: seq<nat>, n: nat)
    requires n < |lens| && NotOverSubscribed(lens) && NextOk(codes, lens, n)
    ensures lens[n] == 0 ==> NextOk(codes, lens, n + 1)
    ensures lens[n] != 0 ==> codes[lens[n]] == Code(lens, n)
    ensures lens[n] != 0 ==> NextOk(codes[lens[n] := (codes[lens[n]] + 1) % 0x1_0000], lens, n + 1)
  {
    if lens[n] != 0 {
      CountMono(lens, n + 1, |lens|, lens[n]);
      CodeIn16Bits(lens, lens[n], codes[lens[n]] + 1);
    }
  }

  lemma CodeIn16Bits(lens: seq<nat>, len: nat, code: nat)
    requires NotOverSubscribed(lens) && 1 <= len <= MAX_BITS && code <= FirstCode(lens, len) + Count(lens, len)
    ensures code < 0x1_0000
  {
    LengthFits(lens, len);
    Pow2Mono(len, MAX_BITS);
    assert Pow2(15) == 32768;
  }

  /** Gives the next symbol the next code of its length. */
  method AddSymbol(tree: HuffmanTree, arena: Arena, nextCode: array<nat>, lengths: seq<nat>, sym: nat)
    returns (ok: bool)
    requires sym < |lengths| && tree.lens == lengths && NotOverSubscribed(lengths)
    requires tree.Building(sym, arena) && NextOk(nextCode[..], lengths, sym)
    modifies tree`nodes, tree`nodesCapacity, tree`path, tree`index, tree.table, nextCode, arena`offset
    ensures ok ==> tree.Building(sym + 1, arena) && NextOk(nextCode[..], lengths, sym + 1)
    ensures !ok ==> tree.Short(arena)
  {
    var len := lengths[sym];
    NextStep(nextCode[..], lengths, sym);
    if len == 0 {
      SkipSymbol(lengths, sym, tree.nodes, tree.path, tree.index);
      TableKept(lengths, sym, tree.table[..]);
      ok := true;
    } else {
      ghost var codes := nextCode[..];
      ok := tree.EnterSymbol(arena, sym, nextCode[len], len);
      if !ok { return; }
      nextCode[len] := (nextCode[len] + 1) % 0x1_0000;
      assert nextCode[..] == codes[len := (codes[len] + 1) % 0x1_0000];
    }
  }

  method AddSymbols(tree: HuffmanTree, arena: Arena, nextCode: array<nat>, lengths: seq<nat>) returns (ok: bool)
    requires tree.lens == lengths && NotOverSubscribed(lengths)
    requires tree.Building(0, arena) && NextOk(nextCode[..], lengths, 0)
    modifies tree`nodes, tree`nodesCapacity, tree`path, tree`index, tree.table, nextCode, arena`offset
    ensures ok ==> tree.Building(|lengths|, arena)
    ensures !ok ==> tree.Short(arena)
  {
    for sym := 0 to |lengths|
      invariant tree.Building(sym, arena) && NextOk(nextCode[..], lengths, sym)
    {
      ok := AddSymbol(tree, arena, nextCode, lengths, sym);
      if !ok { return; }
    }
    ok := true;
  }

  // --- memory ---

  const NODE_BYTES := 12
  const TREE_BYTES := 4120

  /** The size the node array is first given. */
  function FirstCapacity(leaves: nat): (r: nat)
    ensures r >= 16 && 2 * leaves - 1 <= r && 2 * leaves + 14 <= 2 * r
  {
    if leaves > 0 && 2 * leaves - 1 > 16 then 2 * leaves - 1 else 16
  }

  /** The most a tree with that many leaves takes from its arena: itself, its node
      array, and that array doubled, each with up to 7 bytes of padding. */
  function TreeNeeds(leaves: nat): nat {
    21 + TREE_BYTES + NODE_BYTES * 3 * FirstCapacity(leaves)
  }

  lemma TreeNeedsMono(a: nat, b: nat)
    requires a <= b
    ensures TreeNeeds(a) <= TreeNeeds(b)
  {
  }

  /** The node array of a complete code has exactly the size it was given. */
  ghost predicate ExactSize(tree: HuffmanTree, lengths: seq<nat>)
    reads tree
  {
    && |tree.nodes| == 2 * LeafCount(lengths, |lengths|) - 1
    && tree.nodesCapacity == FirstCapacity(LeafCount(lengths, |lengths|))
  }

  /** What a tree occupies in the arena it was taken from. */
  ghost predicate Taken(tree: HuffmanTree, arena: Arena, lengths: seq<nat>, before: nat)
    reads tree, arena
  {
    && |tree.nodes| <= tree.nodesCapacity <= 2 * FirstCapacity(LeafCount(lengths, |lengths|))
    && arena.offset <= before + TreeNeeds(LeafCount(lengths, |lengths|))
    && (Complete(lengths) ==> ExactSize(tree, lengths))
  }

  lemma TakenIs(tree: HuffmanTree, arena: Arena, lengths: seq<nat>, before: nat)
    requires tree.lens == lengths && tree.Building(|lengths|, arena)
    requires tree.mark <= before + 14 + TREE_BYTES + NODE_BYTES * tree.start
    ensures Taken(tree, arena, lengths, before)
  {
    if Complete(lengths) { FullSize(tree, arena, lengths); }
  }

  lemma FullSize(tree: HuffmanTree, arena: Arena, lengths: seq<nat>)
    requires tree.lens == lengths && tree.Building(|lengths|, arena) && Complete(lengths)
    ensures ExactSize(tree, lengths)
  {
    assert Open(Tree, 0);
    CompleteNodes(lengths, tree.nodes, tree.index);
  }

  method Build(lengths: seq<nat>, capacity: nat, arena: Arena) returns (tree: HuffmanTree?)
    requires Lengths(lengths) ==> NotOverSubscribed(lengths)
    requires capacity == FirstCapacity(LeafCount(lengths, |lengths|))
    modifies arena`offset
    ensures tree == null ==> !Lengths(lengths) || old(arena.offset) + 7 + NODE_BYTES * 2 * capacity > arena.capacity
    ensures tree != null ==> fresh(tree) && fresh(tree.table) && tree.Valid() && tree.lens == lengths
    ensures tree != null ==> tree.Building(|lengths|, arena) && tree.mark == old(arena.offset)
  {
    var ok, blCount := CountLengths(lengths);
    if !ok { return null; }
    var nextCode := NextCodes(lengths, blCount);
    tree := new HuffmanTree(lengths, capacity, arena);
    ok := AddSymbols(tree, arena, nextCode, lengths);
    if !ok { return null; }
  }

  /** Builds the tree and the cache in the arena.  It fails on a length above 15 or
      for want of memory, which takes more than `TreeNeeds` bytes to satisfy. */
  method Create(lengths: seq<nat>, arena: Arena) returns (tree: HuffmanTree?)
    requires Lengths(lengths) ==> NotOverSubscribed(lengths)
    modifies arena`offset
    ensures tree != null ==> Lengths(lengths) && fresh(tree) && fresh(tree.table) && tree.Valid()
    ensures tree != null ==> tree.lens == lengths
    ensures tree == null && Lengths(lengths) ==>
      old(arena.offset) + TreeNeeds(LeafCount(lengths, |lengths|)) > arena.capacity
    ensures tree != null ==> Taken(tree, arena, lengths, old(arena.offset))
  {
    var itself, _ := arena.Allocate(TREE_BYTES);
    if !itself { return null; }
    var leaves := CountLeaves(lengths);
    var capacity := FirstCapacity(leaves);
    var given, _ := arena.Allocate(NODE_BYTES * capacity);
    if !given { return null; }
    tree := Build(lengths, capacity, arena);
    if tree != null { TakenIs(tree, arena, lengths, old(arena.offset)); }
  }

  /** The link that the next bit selects is the node of the next prefix. */
  lemma ChildOf(lens: seq<nat>, s: nat, d: nat, cur: nat,
                nodes: seq<Node>, path: seq<Path>, index: map<Path, nat>)
    requires Growing(lens, s, d, cur, nodes, path, index) && d < lens[s]
    ensures nodes[cur].Internal?
    ensures (if WordBit(Code(lens, s), lens[s] - 1 - d) == 0 then nodes[cur].zero else nodes[cur].one)
         == Find(index, Prefix(lens, s, d + 1))
  {
    assert Open(Tree, 0);
    NotThroughLeaf(lens, s, d, cur, nodes, path, index);
    NextPrefix(lens, s, d);
  }

  /** Twice the first capacity always has room for the next node. */
  lemma RoomForOne(lens: seq<nat>, s: nat, d: nat, p: Path, index: map<Path, nat>, count: nat)
    requires Lengths(lens) && Coded(lens, s) && d < lens[s] && p == Prefix(lens, s, d + 1)
    requires PrefixesSoFar(lens, s, d, index) && p !in index && |index| == count
    ensures count < 2 * FirstCapacity(LeafCount(lens, |lens|))
  {
    var index' := index[p := count];
    assert index'.Keys == index.Keys + {p};
    forall q | Held(index', q) && q != ROOT ensures exists t | 0 <= t < |lens| :: IsPrefix(lens, t, q) {
      if q == p {
        assert IsPrefix(lens, s, p);
      } else {
        assert Held(index, q);
        if !IsPrefix(lens, s, q) {
          var t :| 0 <= t < s && IsPrefix(lens, t, q);
        }
      }
    }
    NodesBounded(lens, index');
  }

  // --- decoding from a stream ---

  /** The slow lookup: walks the nodes and consumes the bits it passed. */
  method LookupSlow(tree: HuffmanTree, stream: BitStream, bits: nat) returns (ok: bool, symbol: nat)
    requires tree.Valid() && stream.Valid() && bits == Take(stream.data, stream.Pos(), MAX_BITS)
    modifies stream`currentByte, stream`currentBit, stream`bitBuffer, stream`bitsInBuffer
    ensures var r := Walk(tree.nodes, 0, bits, 0);
            && (ok <==> r.Found?)
            && (ok ==> symbol == r.symbol
                       && (r.length <= old(stream.bitsInBuffer) ==>
                             stream.Valid() && stream.Pos() == old(stream.Pos()) + r.length))
  {
    symbol := 0;
    var cur: nat, length: nat := 0, 0;
    while true
      invariant cur < |tree.nodes| && length <= MAX_BITS
      invariant Walk(tree.nodes, cur, bits, length) == Walk(tree.nodes, 0, bits, 0)
      invariant stream.Valid() && stream.Pos() == old(stream.Pos()) && stream.bitsInBuffer == old(stream.bitsInBuffer)
      decreases MAX_BITS - length
    {
      var node := tree.nodes[cur];
      if node.Symbol? {
        symbol := node.symbol;
        stream.Consume(length);
        return true, symbol;
      }
      var next := if WordBit(bits, length) == 1 then node.one else node.zero;
      if next == -1 {
        stream.Consume(length);
        return false, symbol;
      }
      LinkInRange(tree.lens, tree.nodes, tree.path, tree.index, cur);
      length := length + 1;
      if length > 15 {
        stream.Consume(length);
        return false, symbol;
      }
      cur := next;
    }
  }

  lemma LinkInRange(lens: seq<nat>, nodes: seq<Node>, path: seq<Path>, index: map<Path, nat>, cur: nat)
    requires Shape(lens, |lens|, nodes, path, index) && cur < |nodes| && nodes[cur].Internal?
    ensures -1 <= nodes[cur].zero < |nodes| && -1 <= nodes[cur].one < |nodes|
  {
    assert Open(Tree, 0);
  }

  /** Decodes one symbol: succeeds on a code of the vector and passes exactly it. */
  method Lookup(tree: HuffmanTree, stream: BitStream) returns (ok: bool, symbol: nat)
    requires tree.Valid() && stream.Valid()
    modifies stream`currentByte, stream`currentBit, stream`bitBuffer, stream`bitsInBuffer
    ensures forall s: nat | CodeAt(tree.lens, stream.data, old(stream.Pos()), s) ::
      ok && symbol == s && stream.Valid() && stream.Pos() == old(stream.Pos()) + tree.lens[s]
    ensures ok ==> Match(tree.lens, Take(stream.data, old(stream.Pos()), MAX_BITS), symbol)
    ensures !ok ==> forall s: nat :: !CodeAt(tree.lens, stream.data, old(stream.Pos()), s)
  {
    ghost var data, pos, lens := stream.data, stream.Pos(), tree.lens;
    symbol := 0;
    var bits := stream.Peek(MAX_BITS);
    ghost var held := stream.bitsInBuffer;
    assert Pow2(10) == 1024;
    AndMask(bits, TABLE_BITS);
    var entry := tree.table[And(bits, 1023)];
    CacheAgrees(lens, tree.table[..], tree.nodes, tree.path, tree.index, bits);
    WalkIsCodeAt(lens, tree.nodes, tree.path, tree.index, data, pos, bits, held);
    if entry.length > 0 {
      assert SlotOk(lens, |lens|, Low(bits, TABLE_BITS), tree.table[..][Low(bits, TABLE_BITS)]);
      stream.Consume(entry.length);
      symbol := entry.symbol;
      return true, symbol;
    }
    ok, symbol := LookupSlow(tree, stream, bits);
  }

  /** The walk over the window at `pos` finds the code that stands there. */
  lemma WalkIsCodeAt(lens: seq<nat>, nodes: seq<Node>, path: seq<Path>, index: map<Path, nat>,
                     data: seq<Byte>, pos: nat, bits: nat, held: nat)
    requires Shape(lens, |lens|, nodes, path, index) && bits == Take(data, pos, MAX_BITS)
    requires held >= MAX_BITS || pos + held == 8 * |data|
    ensures var r := Walk(nodes, 0, bits, 0);
            && (r.Found? ==> Match(lens, bits, r.symbol) && r.length == lens[r.symbol])
            && (forall s: nat | CodeAt(lens, data, pos, s) :: r == Found(s, lens[s]) && lens[s] <= held)
  {
    assert Open(Tree, 0);
    WalkSound(lens, nodes, path, index, 0, bits, 0);
    forall s: nat | CodeAt(lens, data, pos, s) ensures Walk(nodes, 0, bits, 0) == Found(s, lens[s]) {
      assert Open(Decode, 0);
      CodeAtIsMatch(lens, data, pos, s);
      WalkDecodes(lens, nodes, path, index, bits, s);
    }
  }
}
