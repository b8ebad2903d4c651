/** The node array of a Huffman tree, seen as the set of code prefixes it holds.
    `path` names the prefix each node stands for and `index` is its inverse. */
module HuffmanShape {
  import opened Gates
  import opened Words
  import opened CanonicalCode

  datatype Node = Internal(zero: int, one: int) | Symbol(symbol: nat)

  /** A bit string from the root: its length and its value, first bit highest. */
  datatype Path = Path(depth: nat, bits: nat)

  const ROOT := Path(0, 0)

  function Child(p: Path, bit: nat): Path {
    Path(p.depth + 1, 2 * p.bits + bit)
  }

  /** The first `d` bits of the code of `s`. */
  function Prefix(lens: seq<nat>, s: nat, d: nat): Path
    requires s < |lens| && d <= lens[s]
  {
    Path(d, Shr(Code(lens, s), lens[s] - d))
  }

  ghost predicate IsPrefix(lens: seq<nat>, s: nat, p: Path) {
    Coded(lens, s) && p.depth <= lens[s] && p == Prefix(lens, s, p.depth)
  }

  function Find(index: map<Path, nat>, p: Path): int {
    if p in index then index[p] else -1
  }

  /** `path` and `index` are inverse to each other, with the root first. */
  ghost predicate Named(nodes: seq<Node>, path: seq<Path>, index: map<Path, nat>) {
    && 0 < |nodes| == |path|
    && path[0] == ROOT
    && (forall i | 0 <= i < |path| :: path[i] in index && index[path[i]] == i)
    && (forall p | p in index :: index[p] < |path| && path[index[p]] == p)
  }

  /** Internal nodes point at the nodes of their two extensions, or at -1. */
  ghost predicate Wired(nodes: seq<Node>, path: seq<Path>, index: map<Path, nat>)
    requires |nodes| == |path|
  {
    forall i | 0 <= i < |nodes| && nodes[i].Internal? ::
      && nodes[i].zero == Find(index, Child(path[i], 0))
      && nodes[i].one == Find(index, Child(path[i], 1))
  }

  /** The code of `s` ends in its leaf. */
  ghost predicate HasLeaf(lens: seq<nat>, s: nat, nodes: seq<Node>, index: map<Path, nat>)
    requires s < |lens|
  {
    var p := Prefix(lens, s, lens[s]);
    p in index && index[p] < |nodes| && nodes[index[p]] == Symbol(s)
  }

  ghost predicate IsLeafOf(lens: seq<nat>, n: nat, s: nat, p: Path) {
    s < n && Coded(lens, s) && p == Prefix(lens, s, lens[s])
  }

  /** Exactly the codes of the first `n` symbols end in a leaf. */
  ghost predicate Leaves(lens: seq<nat>, n: nat, nodes: seq<Node>, path: seq<Path>, index: map<Path, nat>)
    requires Named(nodes, path, index)
  {
    && (forall i | 0 <= i < |nodes| && nodes[i].Symbol? :: IsLeafOf(lens, n, nodes[i].symbol, path[i]))
    && (forall s {:trigger HasLeaf(lens, s, nodes, index)} | 0 <= s < n && Coded(lens, s) ::
          HasLeaf(lens, s, nodes, index))
  }

  /** Every prefix of `s` up to depth `d` has a node. */
  ghost predicate Covered(lens: seq<nat>, s: nat, d: nat, index: map<Path, nat>)
    requires Coded(lens, s) && d <= lens[s]
  {
    forall e | 0 <= e <= d :: Prefix(lens, s, e) in index
  }

  ghost predicate AllCovered(lens: seq<nat>, n: nat, index: map<Path, nat>) {
    forall s {:trigger Covered(lens, s, lens[s], index)} | 0 <= s < n && Coded(lens, s) ::
      Covered(lens, s, lens[s], index)
  }

  ghost predicate Held(index: map<Path, nat>, p: Path) {
    p in index
  }

  /** Nodes other than the root stand for prefixes of codes of the first `n`. */
  ghost predicate OnlyPrefixes(lens: seq<nat>, n: nat, index: map<Path, nat>) {
    forall p {:trigger Held(index, p)} | Held(index, p) && p != ROOT ::
      exists s | 0 <= s < n :: IsPrefix(lens, s, p)
  }

  /** The tree of the first `n` symbols. */
  ghost predicate Shape(lens: seq<nat>, n: nat, nodes: seq<Node>, path: seq<Path>, index: map<Path, nat>) {
    && 0 < |nodes| == |path|
    && forall k {:trigger Open(Tree, k)} | Open(Tree, k) ::
         && Named(nodes, path, index)
         && Wired(nodes, path, index)
         && Leaves(lens, n, nodes, path, index)
         && AllCovered(lens, n, index)
  }

  /** The same while the code of `s` is being entered, down to depth `d`. */
  ghost predicate PrefixesSoFar(lens: seq<nat>, s: nat, d: nat, index: map<Path, nat>) {
    forall p {:trigger Held(index, p)} | Held(index, p) && p != ROOT ::
      (exists t | 0 <= t < s :: IsPrefix(lens, t, p)) || (IsPrefix(lens, s, p) && p.depth <= d)
  }

  /** The tree of the first `s` symbols with the code of `s` entered down to
      depth `d`, where node `cur` stands. */
  ghost predicate Growing(lens: seq<nat>, s: nat, d: nat, cur: nat,
                          nodes: seq<Node>, path: seq<Path>, index: map<Path, nat>) {
    && Coded(lens, s) && d <= lens[s]
    && Shape(lens, s, nodes, path, index)
    && cur < |nodes| && path[cur] == Prefix(lens, s, d)
    && forall k {:trigger Open(Tree, k)} | Open(Tree, k) :: Covered(lens, s, d, index)
  }

  lemma EmptyShape(lens: seq<nat>)
    ensures Shape(lens, 0, [Internal(-1, -1)], [ROOT], map[ROOT := 0])
    ensures OnlyPrefixes(lens, 0, map[ROOT := 0])
  {
    assert Open(Tree, 0);
  }

  lemma SkipSymbol(lens: seq<nat>, s: nat, nodes: seq<Node>, path: seq<Path>, index: map<Path, nat>)
    requires Shape(lens, s, nodes, path, index) && OnlyPrefixes(lens, s, index)
    requires s < |lens| && !Coded(lens, s)
    ensures Shape(lens, s + 1, nodes, path, index) && OnlyPrefixes(lens, s + 1, index)
  {
    assert Open(Tree, 0);
    forall p | Held(index, p) && p != ROOT ensures exists t | 0 <= t < s + 1 :: IsPrefix(lens, t, p) {
      var t :| 0 <= t < s && IsPrefix(lens, t, p);
    }
  }

  lemma StartGrowing(lens: seq<nat>, s: nat, nodes: seq<Node>, path: seq<Path>, index: map<Path, nat>)
    requires Shape(lens, s, nodes, path, index) && OnlyPrefixes(lens, s, index)
    requires Coded(lens, s) && NotOverSubscribed(lens)
    ensures Growing(lens, s, 0, 0, nodes, path, index) && PrefixesSoFar(lens, s, 0, index)
  {
    assert Open(Tree, 0);
    CodeFits(lens, s);
    ShrSmall(Code(lens, s), lens[s]);
    assert Prefix(lens, s, 0) == path[0];
  }

  /** While a new code is entered, its nodes are never leaves of other codes. */
  lemma NotThroughLeaf(lens: seq<nat>, s: nat, d: nat, cur: nat,
                       nodes: seq<Node>, path: seq<Path>, index: map<Path, nat>)
    requires Growing(lens, s, d, cur, nodes, path, index)
    ensures nodes[cur].Internal?
  {
    assert Open(Tree, 0);
    if nodes[cur].Symbol? {
      PrefixFree(lens, nodes[cur].symbol, s);
      assert false;
    }
  }

  /** The next bit of the code leads to the next longer prefix. */
  lemma NextPrefix(lens: seq<nat>, s: nat, d: nat)
    requires s < |lens| && d < lens[s]
    ensures Prefix(lens, s, d + 1) == Child(Prefix(lens, s, d), WordBit(Code(lens, s), lens[s] - 1 - d))
  {
    ShrStep(Code(lens, s), lens[s] - 1 - d);
  }

  lemma StepExisting(lens: seq<nat>, s: nat, d: nat, cur: nat,
                     nodes: seq<Node>, path: seq<Path>, index: map<Path, nat>)
    requires Growing(lens, s, d, cur, nodes, path, index) && PrefixesSoFar(lens, s, d, index)
    requires d < lens[s] && Prefix(lens, s, d + 1) in index
    ensures Growing(lens, s, d + 1, index[Prefix(lens, s, d + 1)], nodes, path, index)
    ensures PrefixesSoFar(lens, s, d + 1, index)
  {
    assert Open(Tree, 0);
  }

  function SetChild(node: Node, bit: nat, i: nat): Node
    requires node.Internal?
  {
    if bit == 0 then node.(zero := i) else node.(one := i)
  }

  /** The node array, names and index after one more node for `p` below `cur`. */
  function Extended(nodes: seq<Node>, cur: nat, bit: nat): seq<Node>
    requires cur < |nodes| && nodes[cur].Internal?
  {
    (nodes + [Internal(-1, -1)])[cur := SetChild(nodes[cur], bit, |nodes|)]
  }

  lemma NamedNew(nodes: seq<Node>, path: seq<Path>, index: map<Path, nat>, cur: nat, bit: nat, p: Path)
    requires Named(nodes, path, index) && cur < |nodes| && nodes[cur].Internal? && p !in index
    ensures Named(Extended(nodes, cur, bit), path + [p], index[p := |nodes|])
  {
  }

  lemma WiredNew(nodes: seq<Node>, path: seq<Path>, index: map<Path, nat>, cur: nat, bit: nat)
    requires Named(nodes, path, index) && Wired(nodes, path, index)
    requires cur < |nodes| && nodes[cur].Internal? && bit < 2
    requires Child(path[cur], bit) !in index
    requires Child(Child(path[cur], bit), 0) !in index && Child(Child(path[cur], bit), 1) !in index
    ensures Wired(Extended(nodes, cur, bit), path + [Child(path[cur], bit)],
                  index[Child(path[cur], bit) := |nodes|])
  {
    var p := Child(path[cur], bit);
    var nodes', path', index' := Extended(nodes, cur, bit), path + [p], index[p := |nodes|];
    forall i | 0 <= i < |nodes'| && nodes'[i].Internal?
      ensures nodes'[i].zero == Find(index', Child(path'[i], 0))
      ensures nodes'[i].one == Find(index', Child(path'[i], 1))
    {
      if i < |nodes| && i != cur {
        assert path[i] != path[cur] by { assert index[path[i]] == i && index[path[cur]] == cur; }
      }
    }
  }

  lemma PrefixOfPrefix(lens: seq<nat>, s: nat, p: Path, bit: nat)
    requires IsPrefix(lens, s, Child(p, bit)) && bit < 2
    ensures IsPrefix(lens, s, p)
  {
    ShrStep(Code(lens, s), lens[s] - p.depth - 1);
  }

  /** A prefix without a node has no node below it either. */
  lemma NoNodeBelow(lens: seq<nat>, s: nat, d: nat, p: Path, bit: nat, index: map<Path, nat>)
    requires Coded(lens, s) && bit < 2
    requires AllCovered(lens, s, index) && PrefixesSoFar(lens, s, d, index)
    requires p !in index && p.depth == d + 1
    ensures !Held(index, Child(p, bit))
  {
    var c := Child(p, bit);
    if Held(index, c) {
      var t :| 0 <= t < s && IsPrefix(lens, t, c);
      assert Covered(lens, t, lens[t], index);
      PrefixOfPrefix(lens, t, p, bit);
    }
  }

  lemma StepNew(lens: seq<nat>, s: nat, d: nat, cur: nat, bit: nat,
                nodes: seq<Node>, path: seq<Path>, index: map<Path, nat>)
    requires Growing(lens, s, d, cur, nodes, path, index) && PrefixesSoFar(lens, s, d, index)
    requires d < lens[s] && nodes[cur].Internal? && Prefix(lens, s, d + 1) !in index
    requires bit == WordBit(Code(lens, s), lens[s] - 1 - d)
    ensures var p := Prefix(lens, s, d + 1);
            && Growing(lens, s, d + 1, |nodes|, Extended(nodes, cur, bit), path + [p], index[p := |nodes|])
            && PrefixesSoFar(lens, s, d + 1, index[p := |nodes|])
  {
    assert Open(Tree, 0);
    var p := Prefix(lens, s, d + 1);
    var nodes', path', index' := Extended(nodes, cur, bit), path + [p], index[p := |nodes|];
    NextPrefix(lens, s, d);
    NamedNew(nodes, path, index, cur, bit, p);
    NoNodeBelow(lens, s, d, p, 0, index);
    NoNodeBelow(lens, s, d, p, 1, index);
    WiredNew(nodes, path, index, cur, bit);
    LeavesNew(lens, s, nodes, path, index, cur, bit, p);
    CoveredNew(lens, s, d, index, |nodes|);
  }

  lemma LeavesNew(lens: seq<nat>, n: nat, nodes: seq<Node>, path: seq<Path>, index: map<Path, nat>,
                  cur: nat, bit: nat, p: Path)
    requires Named(nodes, path, index) && cur < |nodes| && nodes[cur].Internal? && p !in index
    requires Named(Extended(nodes, cur, bit), path + [p], index[p := |nodes|])
    requires Leaves(lens, n, nodes, path, index)
    ensures Leaves(lens, n, Extended(nodes, cur, bit), path + [p], index[p := |nodes|])
  {
    forall s | 0 <= s < n && Coded(lens, s)
      ensures HasLeaf(lens, s, Extended(nodes, cur, bit), index[p := |nodes|])
    {
      assert HasLeaf(lens, s, nodes, index);
    }
  }

  lemma CoveredNew(lens: seq<nat>, s: nat, d: nat, index: map<Path, nat>, i: nat)
    requires Coded(lens, s) && d < lens[s]
    requires AllCovered(lens, s, index) && PrefixesSoFar(lens, s, d, index) && Covered(lens, s, d, index)
    ensures var index' := index[Prefix(lens, s, d + 1) := i];
            AllCovered(lens, s, index') && PrefixesSoFar(lens, s, d + 1, index') && Covered(lens, s, d + 1, index')
  {
    var index' := index[Prefix(lens, s, d + 1) := i];
    forall t | 0 <= t < s && Coded(lens, t) ensures Covered(lens, t, lens[t], index') {
      assert Covered(lens, t, lens[t], index);
    }
    forall p | Held(index', p) && p != ROOT
      ensures (exists t | 0 <= t < s :: IsPrefix(lens, t, p)) || (IsPrefix(lens, s, p) && p.depth <= d + 1)
    {
      if p != Prefix(lens, s, d + 1) { assert Held(index, p); }
    }
  }

  /** Turning the last node into a leaf completes the code of `s`. */
  lemma Finish(lens: seq<nat>, s: nat, cur: nat,
               nodes: seq<Node>, path: seq<Path>, index: map<Path, nat>)
    requires Coded(lens, s) && Growing(lens, s, lens[s], cur, nodes, path, index)
    requires PrefixesSoFar(lens, s, lens[s], index)
    ensures Shape(lens, s + 1, nodes[cur := Symbol(s)], path, index)
    ensures OnlyPrefixes(lens, s + 1, index)
  {
    NotThroughLeaf(lens, s, lens[s], cur, nodes, path, index);
    OnlyNow(lens, s, lens[s], index);
    assert Open(Tree, 0);
    LeavesNow(lens, s, cur, nodes, path, index);
  }

  lemma LeavesNow(lens: seq<nat>, s: nat, cur: nat, nodes: seq<Node>, path: seq<Path>, index: map<Path, nat>)
    requires Coded(lens, s) && Named(nodes, path, index) && Leaves(lens, s, nodes, path, index)
    requires cur < |nodes| && path[cur] == Prefix(lens, s, lens[s]) && nodes[cur].Internal?
    ensures Leaves(lens, s + 1, nodes[cur := Symbol(s)], path, index)
  {
    var nodes' := nodes[cur := Symbol(s)];
    forall t | 0 <= t < s + 1 && Coded(lens, t)
      ensures HasLeaf(lens, t, nodes', index)
    {
      if t < s { assert HasLeaf(lens, t, nodes, index); }
    }
  }

  lemma OnlyNow(lens: seq<nat>, s: nat, d: nat, index: map<Path, nat>)
    requires PrefixesSoFar(lens, s, d, index)
    ensures OnlyPrefixes(lens, s + 1, index)
  {
    forall p | Held(index, p) && p != ROOT ensures exists t | 0 <= t < s + 1 :: IsPrefix(lens, t, p) {
      if !IsPrefix(lens, s, p) {
        var t :| 0 <= t < s && IsPrefix(lens, t, p);
      }
    }
  }
}
