/** How many nodes a code needs: a complete code has exactly 2 * leaves - 1
    prefixes, so the node array allocated for it never grows, and any code has at
    most 2 * leaves + 14, so the array never grows more than once. */
module HuffmanSize {
  import opened Gates
  import opened Words
  import opened CanonicalCode
  import opened HuffmanShape

  /** The whole code space is used. */
  ghost predicate Complete(lens: seq<nat>) {
    Lengths(lens) && forall k {:trigger Open(Kraft, k)} | Open(Kraft, k) :: KraftSum(lens, |lens|) == Pow2(MAX_BITS)
  }

  /** How many of the first `n` symbols have a code. */
  function LeafCount(lens: seq<nat>, n: nat): nat
    requires n <= |lens|
  {
    if n == 0 then 0 else LeafCount(lens, n - 1) + if lens[n - 1] != 0 then 1 else 0
  }

  /** The bit strings of length `d` with values `a..b`. */
  ghost function Row(d: nat, a: nat, b: nat): (r: set<Path>)
    ensures forall p :: p in r <==> p.depth == d && a <= p.bits < b
    ensures |r| == if a <= b then b - a else 0
    decreases b
  {
    if a >= b then {} else Row(d, a, b - 1) + {Path(d, b - 1)}
  }

  /** What is left of the code space at depth `d` after all shorter codes. */
  function Room(lens: seq<nat>, d: nat): int {
    Pow2(d) - FirstCode(lens, d)
  }

  function RoomTo(lens: seq<nat>, d: nat): int {
    if d == 0 then Room(lens, 0) else RoomTo(lens, d - 1) + Room(lens, d)
  }

  /** Every prefix a canonical code can have, down to depth `d`. */
  ghost function Space(lens: seq<nat>, d: nat): (r: set<Path>)
    ensures forall p :: p in r <==> p.depth <= d && FirstCode(lens, p.depth) <= p.bits < Pow2(p.depth)
    decreases d, lens
  {
    if d == 0 then Row(0, FirstCode(lens, 0), Pow2(0))
    else Space(lens, d - 1) + Row(d, FirstCode(lens, d), Pow2(d))
  }

  lemma DisjointSize<T>(a: set<T>, b: set<T>)
    requires a !! b
    ensures |a + b| == |a| + |b|
  {
  }

  lemma {:induction false} SpaceSize(lens: seq<nat>, d: nat)
    requires NotOverSubscribed(lens) && d <= MAX_BITS
    ensures |Space(lens, d)| == RoomTo(lens, d)
  {
    if d > 0 {
      SpaceSize(lens, d - 1);
      LengthFits(lens, d);
      DisjointSize(Space(lens, d - 1), Row(d, FirstCode(lens, d), Pow2(d)));
    }
  }

  /** Leaves shorter than or equal to `d`. */
  function ShortLeaves(lens: seq<nat>, n: nat, d: nat): nat
    requires n <= |lens|
    decreases d, n
  {
    if d == 0 then 0 else ShortLeaves(lens, n, d - 1) + CountIn(lens, n, d)
  }

  lemma {:induction false} RoomByLeaves(lens: seq<nat>, d: nat)
    ensures RoomTo(lens, d) == 2 * Room(lens, d) - 1 + 2 * ShortLeaves(lens, |lens|, d) - 2 * Count(lens, d)
  {
    if d > 0 { RoomByLeaves(lens, d - 1); }
  }

  lemma {:induction false} ShortLeavesStep(lens: seq<nat>, n: nat, d: nat)
    requires 0 < n <= |lens|
    ensures ShortLeaves(lens, n, d) == ShortLeaves(lens, n - 1, d) + if 0 < lens[n - 1] <= d then 1 else 0
    decreases d
  {
    if d > 0 { ShortLeavesStep(lens, n, d - 1); }
  }

  lemma {:induction false} ShortLeavesNone(lens: seq<nat>, d: nat)
    ensures ShortLeaves(lens, 0, d) == 0
  {
    if d > 0 { ShortLeavesNone(lens, d - 1); }
  }

  lemma {:induction false} AllLeaves(lens: seq<nat>, n: nat)
    requires Lengths(lens) && n <= |lens|
    ensures ShortLeaves(lens, n, MAX_BITS) == LeafCount(lens, n)
  {
    if n == 0 {
      ShortLeavesNone(lens, MAX_BITS);
    } else {
      AllLeaves(lens, n - 1);
      ShortLeavesStep(lens, n, MAX_BITS);
    }
  }

  /** A complete code has room for exactly 2 * leaves - 1 prefixes. */
  lemma CompleteSpace(lens: seq<nat>)
    requires Complete(lens)
    ensures |Space(lens, MAX_BITS)| == 2 * LeafCount(lens, |lens|) - 1
  {
    SpaceSize(lens, MAX_BITS);
    RoomByLeaves(lens, MAX_BITS);
    AllLeaves(lens, |lens|);
    LastRowFull(lens);
  }

  lemma LastRowFull(lens: seq<nat>)
    requires Complete(lens)
    ensures Room(lens, MAX_BITS) == Count(lens, MAX_BITS)
  {
    assert Open(Kraft, 0);
    KraftGrouped(lens, |lens|);
    FirstCodeSpace(lens, MAX_BITS);
  }

  /** Every prefix of a code lies in that space. */
  lemma PrefixInSpace(lens: seq<nat>, s: nat, p: Path)
    requires NotOverSubscribed(lens) && IsPrefix(lens, s, p)
    ensures p in Space(lens, MAX_BITS)
  {
    var k := lens[s] - p.depth;
    CodeFits(lens, s);
    ShrBound(Code(lens, s), p.depth, k);
    FirstBelow(lens, s, p.depth);
  }

  lemma FirstBelow(lens: seq<nat>, s: nat, d: nat)
    requires Coded(lens, s) && d <= lens[s]
    ensures FirstCode(lens, d) <= Shr(Code(lens, s), lens[s] - d)
  {
    var k := lens[s] - d;
    if d > 0 && k > 0 {
      var top := FirstCode(lens, d) + Count(lens, d);
      LongerAbove(lens, d, lens[s]);
      ShrMono(Shl(top, k), Code(lens, s), k);
      ShrShl(top, k);
    }
  }

  lemma {:induction false} ShrBound(x: nat, m: nat, k: nat)
    requires x < Pow2(m + k)
    ensures Shr(x, k) < Pow2(m)
  {
    if k > 0 { ShrBound(x / 2, m, k - 1); }
  }

  /** The nodes are among the prefixes of the space, so there are no more. */
  lemma NodesInSpace(lens: seq<nat>, index: map<Path, nat>)
    requires NotOverSubscribed(lens) && OnlyPrefixes(lens, |lens|, index)
    ensures index.Keys <= Space(lens, MAX_BITS) && |index| <= |Space(lens, MAX_BITS)|
  {
    forall p | p in index.Keys ensures p in Space(lens, MAX_BITS) {
      assert Held(index, p);
      if p != ROOT {
        var s :| 0 <= s < |lens| && IsPrefix(lens, s, p);
        PrefixInSpace(lens, s, p);
      }
    }
    SubsetSize(index.Keys, Space(lens, MAX_BITS));
  }

  lemma {:induction false} SubsetSize<T>(a: set<T>, b: set<T>)
    requires a <= b
    ensures |a| <= |b|
    ensures |a| == |b| ==> a == b
  {
    if a != {} {
      var x :| x in a;
      SubsetSize(a - {x}, b - {x});
    }
  }

  // --- every prefix of the space is one of some code, when the code is complete ---

  lemma {:induction false} NthOfLength(lens: seq<nat>, n: nat, len: nat, k: nat) returns (s: nat)
    requires n <= |lens| && k < CountIn(lens, n, len)
    ensures s < n && lens[s] == len && CountIn(lens, s, len) == k
  {
    if k < CountIn(lens, n - 1, len) {
      s := NthOfLength(lens, n - 1, len, k);
    } else {
      s := n - 1;
    }
  }

  /** A prefix at or above the codes of its length that is no code itself has its
      children in the space. */
  lemma {:induction false} PrefixUsed(lens: seq<nat>, p: Path) returns (s: nat)
    requires Complete(lens) && 0 < p.depth && p in Space(lens, MAX_BITS)
    ensures s < |lens| && IsPrefix(lens, s, p)
    decreases MAX_BITS - p.depth
  {
    var first := FirstCode(lens, p.depth);
    if p.bits < first + Count(lens, p.depth) {
      s := NthOfLength(lens, |lens|, p.depth, p.bits - first);
    } else {
      if p.depth == MAX_BITS {
        LastRowFull(lens);
        assert false;
      }
      s := PrefixUsed(lens, Child(p, 0));
      PrefixOfPrefix(lens, s, p, 0);
    }
  }

  /** The tree of a complete code has exactly 2 * leaves - 1 nodes. */
  lemma CompleteNodes(lens: seq<nat>, nodes: seq<Node>, index: map<Path, nat>)
    requires Complete(lens)
    requires AllCovered(lens, |lens|, index) && OnlyPrefixes(lens, |lens|, index)
    requires ROOT in index && |index| == |nodes|
    ensures |nodes| == 2 * LeafCount(lens, |lens|) - 1
  {
    NodesInSpace(lens, index);
    AllHaveNodes(lens, index);
    CompleteSpace(lens);
    SameSize(index, Space(lens, MAX_BITS));
  }

  lemma AllHaveNodes(lens: seq<nat>, index: map<Path, nat>)
    requires Complete(lens) && AllCovered(lens, |lens|, index) && ROOT in index
    ensures Space(lens, MAX_BITS) <= index.Keys
  {
    forall p | p in Space(lens, MAX_BITS) ensures p in index.Keys {
      PrefixHasNode(lens, index, p);
    }
  }

  lemma SameSize(index: map<Path, nat>, space: set<Path>)
    requires space <= index.Keys && index.Keys <= space
    ensures |index| == |space|
  {
    assert index.Keys == space;
  }

  lemma PrefixHasNode(lens: seq<nat>, index: map<Path, nat>, p: Path)
    requires Complete(lens) && AllCovered(lens, |lens|, index) && ROOT in index
    requires p in Space(lens, MAX_BITS)
    ensures p in index
  {
    if p.depth == 0 {
      assert p == ROOT;
    } else {
      var s := PrefixUsed(lens, p);
      assert Covered(lens, s, lens[s], index);
    }
  }

  // --- any code, complete or not ---

  /** How many prefixes of length `d` codes of up to `max` bits have: the codes of
      that length, and one parent for every two longer prefixes, which stand side
      by side. */
  function PrefixCount(lens: seq<nat>, d: nat, max: nat): nat
    decreases max - d
  {
    if d >= max then Count(lens, d) else Count(lens, d) + (PrefixCount(lens, d + 1, max) + 1) / 2
  }

  ghost predicate Counted(lens: seq<nat>, p: Path, max: nat) {
    p.depth <= max && FirstCode(lens, p.depth) <= p.bits < FirstCode(lens, p.depth) + PrefixCount(lens, p.depth, max)
  }

  /** Every prefix of a code is counted. */
  lemma {:induction false} PrefixCounted(lens: seq<nat>, s: nat, d: nat, max: nat)
    requires Coded(lens, s) && d <= lens[s] <= max
    ensures Counted(lens, Prefix(lens, s, d), max)
    decreases lens[s] - d
  {
    FirstBelow(lens, s, d);
    if d == lens[s] {
      CountMono(lens, s + 1, |lens|, d);
    } else {
      PrefixCounted(lens, s, d + 1, max);
      NextPrefix(lens, s, d);
    }
  }

  function LongLeaves(lens: seq<nat>, d: nat, max: nat): nat
    decreases max - d
  {
    if d >= max then Count(lens, d) else Count(lens, d) + LongLeaves(lens, d + 1, max)
  }

  lemma {:induction false} LongAndShort(lens: seq<nat>, d: nat, max: nat)
    requires d < max
    ensures ShortLeaves(lens, |lens|, max) == ShortLeaves(lens, |lens|, d) + LongLeaves(lens, d + 1, max)
    decreases max - d
  {
    if d + 1 < max { LongAndShort(lens, d + 1, max); }
  }

  lemma AllLong(lens: seq<nat>, root: nat, max: nat)
    requires root == 0 && max == MAX_BITS && Lengths(lens)
    ensures LongLeaves(lens, root, max) == LeafCount(lens, |lens|)
  {
    LongAndShort(lens, root, max);
    AllLeaves(lens, |lens|);
  }

  function PrefixTotal(lens: seq<nat>, d: nat, max: nat): nat
    decreases max - d
  {
    PrefixCount(lens, d, max) + if d >= max then 0 else PrefixTotal(lens, d + 1, max)
  }

  /** Only the last prefix of a length can lack its second child. */
  lemma {:induction false} PrefixTotalBound(lens: seq<nat>, d: nat, max: nat)
    requires d <= max
    ensures PrefixTotal(lens, d, max) + PrefixCount(lens, d, max) <= 2 * LongLeaves(lens, d, max) + max - d
    ensures PrefixCount(lens, d, max) == 0 ==> PrefixTotal(lens, d, max) == 0
    decreases max - d
  {
    if d < max { PrefixTotalBound(lens, d + 1, max); }
  }

  function Sum(counts: seq<nat>): nat {
    if counts == [] then 0 else Sum(counts[..|counts| - 1]) + counts[|counts| - 1]
  }

  /** The bit strings of each length `d` with `counts[d]` values from `firsts[d]` on. */
  ghost function Rows(firsts: seq<nat>, counts: seq<nat>): (r: set<Path>)
    requires |firsts| == |counts|
    ensures forall p: Path ::
      p in r <==> p.depth < |firsts| && firsts[p.depth] <= p.bits < firsts[p.depth] + counts[p.depth]
    ensures |r| == Sum(counts)
    decreases |firsts|
  {
    if firsts == [] then {} else
      var d := |firsts| - 1;
      var shorter, row := Rows(firsts[..d], counts[..d]), Row(d, firsts[d], firsts[d] + counts[d]);
      DisjointSize(shorter, row);
      shorter + row
  }

  function Firsts(lens: seq<nat>, max: nat): (r: seq<nat>)
    ensures |r| == max + 1
  {
    seq(max + 1, d requires 0 <= d => FirstCode(lens, d))
  }

  function Counts(lens: seq<nat>, max: nat): (r: seq<nat>)
    ensures |r| == max + 1
  {
    seq(max + 1, d requires 0 <= d => PrefixCount(lens, d, max))
  }

  lemma {:induction false} TotalIsSum(lens: seq<nat>, d: nat, max: nat, counts: seq<nat>)
    requires d <= max && counts == Counts(lens, max)
    ensures Sum(counts) == Sum(counts[..d]) + PrefixTotal(lens, d, max)
    decreases max - d
  {
    assert counts[..d + 1][..d] == counts[..d];
    if d < max {
      TotalIsSum(lens, d + 1, max, counts);
    } else {
      assert counts[..d + 1] == counts;
    }
  }

  /** The root and all counted prefixes. */
  ghost function CountedPrefixes(lens: seq<nat>, max: nat): (r: set<Path>)
    ensures ROOT in r
  {
    Rows(Firsts(lens, max), Counts(lens, max)) + {ROOT}
  }

  lemma CountedIn(lens: seq<nat>, p: Path, max: nat)
    requires Counted(lens, p, max)
    ensures p in CountedPrefixes(lens, max)
  {
    var firsts, counts := Firsts(lens, max), Counts(lens, max);
    assert firsts[p.depth] == FirstCode(lens, p.depth) && counts[p.depth] == PrefixCount(lens, p.depth, max);
  }

  lemma CountedSize(lens: seq<nat>, root: nat, max: nat)
    requires root == 0 && max > 1
    ensures |CountedPrefixes(lens, max)| <= 2 * LongLeaves(lens, root, max) + max - 1
  {
    var firsts, counts := Firsts(lens, max), Counts(lens, max);
    PrefixTotalBound(lens, root, max);
    TotalIsSum(lens, root, max, counts);
    if PrefixCount(lens, root, max) > 0 {
      assert firsts[root] == FirstCode(lens, root) && counts[root] == PrefixCount(lens, root, max);
      assert Rows(firsts, counts) + {ROOT} == Rows(firsts, counts);
    }
  }

  /** The tree of any code has at most 2 * leaves + 14 nodes. */
  lemma NodesBounded(lens: seq<nat>, index: map<Path, nat>)
    requires Lengths(lens) && OnlyPrefixes(lens, |lens|, index)
    ensures |index| <= 2 * LeafCount(lens, |lens|) + 14
  {
    var max: nat := MAX_BITS;
    forall p | p in index.Keys ensures p in CountedPrefixes(lens, max) {
      assert Held(index, p);
      if p != ROOT {
        var s :| 0 <= s < |lens| && IsPrefix(lens, s, p);
        PrefixCounted(lens, s, p.depth, max);
        CountedIn(lens, p, max);
      }
    }
    SubsetSize(index.Keys, CountedPrefixes(lens, max));
    CountedSize(lens, 0, max);
    AllLong(lens, 0, max);
  }
}
