/** Canonical Huffman codes from a vector of code lengths (RFC 1951, section
    3.2.2): what the codes are, that they fit their lengths, and that no code is
    a prefix of another. */
module CanonicalCode {
  import opened Gates
  import opened Words
  import opened Bits

  const MAX_BITS := 15

  ghost predicate Lengths(lens: seq<nat>) {
    forall i | 0 <= i < |lens| :: lens[i] <= MAX_BITS
  }

  /** How many of the first `n` symbols have code length `len`. */
  function CountIn(lens: seq<nat>, n: nat, len: nat): (c: nat)
    requires n <= |lens|
    ensures c <= n
  {
    if n == 0 then 0
    else CountIn(lens, n - 1, len) + if lens[n - 1] == len then 1 else 0
  }

  function Count(lens: seq<nat>, len: nat): nat {
    if len == 0 then 0 else CountIn(lens, |lens|, len)
  }

  /** The smallest code of a length. */
  function FirstCode(lens: seq<nat>, len: nat): nat {
    if len == 0 then 0 else 2 * (FirstCode(lens, len - 1) + Count(lens, len - 1))
  }

  ghost predicate Coded(lens: seq<nat>, s: nat) {
    s < |lens| && 0 < lens[s] <= MAX_BITS
  }

  /** The code of a symbol: consecutive values in symbol order per length. */
  function Code(lens: seq<nat>, s: nat): nat
    requires s < |lens|
  {
    FirstCode(lens, lens[s]) + CountIn(lens, s, lens[s])
  }

  /** A window of stream bits, first bit lowest, that starts with the code of `s`
      sent most significant bit first. */
  ghost predicate Match(lens: seq<nat>, window: nat, s: nat) {
    Coded(lens, s) && Reverse(window, lens[s]) == Code(lens, s)
  }

  /** The example of section 3.2.2: lengths 3, 3, 3, 3, 3, 2, 4, 4. */
  lemma Example(lens: seq<nat>)
    requires lens == [3, 3, 3, 3, 3, 2, 4, 4]
    ensures Code(lens, 0) == 2 && Code(lens, 1) == 3 && Code(lens, 2) == 4 && Code(lens, 3) == 5 && Code(lens, 4) == 6
    ensures Code(lens, 5) == 0 && Code(lens, 6) == 14 && Code(lens, 7) == 15
  {
    ExampleCounts(lens, 2);
    ExampleCounts(lens, 3);
    ExampleCounts(lens, 4);
    ExampleCounts(lens, 1);
    assert FirstCode(lens, 1) == 0 && FirstCode(lens, 2) == 0;
    assert FirstCode(lens, 3) == 2 && FirstCode(lens, 4) == 14;
  }

  lemma {:induction false} ExampleRun(lens: seq<nat>, n: nat, len: nat)
    requires lens == [3, 3, 3, 3, 3, 2, 4, 4] && n <= 5
    ensures CountIn(lens, n, len) == if len == 3 then n else 0
  {
    if n > 0 { ExampleRun(lens, n - 1, len); }
  }

  lemma ExampleCounts(lens: seq<nat>, len: nat)
    requires lens == [3, 3, 3, 3, 3, 2, 4, 4]
    ensures forall n | 0 <= n <= 5 :: CountIn(lens, n, len) == if len == 3 then n else 0
    ensures CountIn(lens, 6, len) == if len == 3 then 5 else if len == 2 then 1 else 0
    ensures CountIn(lens, 7, len) == if len == 3 then 5 else if len == 2 || len == 4 then 1 else 0
    ensures CountIn(lens, 8, len) == if len == 3 then 5 else if len == 2 then 1 else if len == 4 then 2 else 0
  {
    forall n | 0 <= n <= 5 ensures CountIn(lens, n, len) == if len == 3 then n else 0 {
      ExampleRun(lens, n, len);
    }
  }

  // --- the Kraft sum, in units of 2^-15 ---

  /** The code space used by the first `n` symbols. */
  function KraftSum(lens: seq<nat>, n: nat): nat
    requires n <= |lens|
  {
    if n == 0 then 0
    else KraftSum(lens, n - 1) +
         if 0 < lens[n - 1] <= MAX_BITS then Pow2(MAX_BITS - lens[n - 1]) else 0
  }

  /** No more code space than there is: the vector is not over-subscribed. */
  ghost predicate NotOverSubscribed(lens: seq<nat>) {
    Lengths(lens) && forall k {:trigger Open(Kraft, k)} | Open(Kraft, k) :: KraftSum(lens, |lens|) <= Pow2(MAX_BITS)
  }

  /** The same sum, grouped by length, over lengths `1..len`. */
  function KraftByLength(lens: seq<nat>, n: nat, len: nat): nat
    requires n <= |lens| && len <= MAX_BITS
    decreases len, n
  {
    if len == 0 then 0
    else KraftByLength(lens, n, len - 1) + Shl(CountIn(lens, n, len), MAX_BITS - len)
  }

  lemma {:induction false} ShlAdd(x: nat, y: nat, k: nat)
    ensures Shl(x + y, k) == Shl(x, k) + Shl(y, k)
  {
    if k > 0 { ShlAdd(x, y, k - 1); }
  }

  lemma {:induction false} ShlDouble(x: nat, k: nat)
    ensures Shl(2 * x, k) == Shl(x, k + 1)
  {
    if k > 0 { ShlDouble(x, k - 1); }
  }

  lemma {:induction false} ShlPow2(m: nat, k: nat)
    ensures Shl(Pow2(m), k) == Pow2(m + k)
  {
    if k > 0 { ShlPow2(m, k - 1); }
  }

  lemma {:induction false} ShlMono(x: nat, y: nat, k: nat)
    requires x <= y
    ensures Shl(x, k) <= Shl(y, k)
    ensures x < y ==> Shl(x, k) < Shl(y, k)
  {
    if k > 0 { ShlMono(x, y, k - 1); }
  }

  lemma {:induction false} ShrMono(x: nat, y: nat, k: nat)
    requires x <= y
    ensures Shr(x, k) <= Shr(y, k)
  {
    if k > 0 { ShrMono(x / 2, y / 2, k - 1); }
  }

  lemma {:induction false} ShrShl(x: nat, k: nat)
    ensures Shr(Shl(x, k), k) == x
  {
    if k > 0 { ShrShl(x, k - 1); }
  }

  lemma {:induction false} KraftStep(lens: seq<nat>, n: nat, len: nat)
    requires 0 < n <= |lens| && len <= MAX_BITS
    ensures KraftByLength(lens, n, len) == KraftByLength(lens, n - 1, len)
      + if 0 < lens[n - 1] <= len then Pow2(MAX_BITS - lens[n - 1]) else 0
  {
    if len > 0 {
      KraftStep(lens, n, len - 1);
      ShlAdd(CountIn(lens, n - 1, len), 1, MAX_BITS - len);
      ShlPow2(0, MAX_BITS - len);
    }
  }

  lemma {:induction false} KraftGrouped(lens: seq<nat>, n: nat)
    requires n <= |lens|
    ensures KraftSum(lens, n) == KraftByLength(lens, n, MAX_BITS)
  {
    if n == 0 {
      KraftEmpty(lens, MAX_BITS);
    } else {
      KraftGrouped(lens, n - 1);
      KraftStep(lens, n, MAX_BITS);
    }
  }

  lemma {:induction false} KraftEmpty(lens: seq<nat>, len: nat)
    requires len <= MAX_BITS
    ensures KraftByLength(lens, 0, len) == 0
  {
    if len > 0 {
      KraftEmpty(lens, len - 1);
      ShlZero(MAX_BITS - len);
    }
  }

  lemma {:induction false} KraftMono(lens: seq<nat>, m: nat, n: nat)
    requires m <= n <= MAX_BITS
    ensures KraftByLength(lens, |lens|, m) <= KraftByLength(lens, |lens|, n)
    decreases n
  {
    if m < n { KraftMono(lens, m, n - 1); }
  }

  /** The first code of a length starts where the shorter codes' space ends. */
  lemma {:induction false} FirstCodeSpace(lens: seq<nat>, len: nat)
    requires 1 <= len <= MAX_BITS
    ensures Shl(FirstCode(lens, len), MAX_BITS - len) == KraftByLength(lens, |lens|, len - 1)
    ensures Shl(FirstCode(lens, len) + Count(lens, len), MAX_BITS - len) == KraftByLength(lens, |lens|, len)
  {
    var k := MAX_BITS - len;
    if len == 1 {
      assert FirstCode(lens, 1) == 0;
      ShlZero(k);
    } else {
      FirstCodeSpace(lens, len - 1);
      ShlDouble(FirstCode(lens, len - 1) + Count(lens, len - 1), k);
    }
    ShlAdd(FirstCode(lens, len), Count(lens, len), k);
  }

  lemma SpaceFits(lens: seq<nat>, len: nat)
    requires NotOverSubscribed(lens) && len <= MAX_BITS
    ensures KraftByLength(lens, |lens|, len) <= Pow2(MAX_BITS)
  {
    assert Open(Kraft, 0);
    KraftMono(lens, len, MAX_BITS);
    KraftGrouped(lens, |lens|);
  }

  /** Without over-subscription the codes of a length fit that many bits. */
  lemma LengthFits(lens: seq<nat>, len: nat)
    requires NotOverSubscribed(lens) && 1 <= len <= MAX_BITS
    ensures FirstCode(lens, len) + Count(lens, len) <= Pow2(len)
  {
    SpaceFits(lens, len);
    FirstCodeSpace(lens, len);
    FitsUnshifted(FirstCode(lens, len) + Count(lens, len), len, MAX_BITS - len);
  }

  lemma FitsUnshifted(x: nat, m: nat, k: nat)
    requires Shl(x, k) <= Pow2(m + k)
    ensures x <= Pow2(m)
  {
    ShlPow2(m, k);
    if x > Pow2(m) { ShlMono(Pow2(m), x, k); }
  }

  lemma {:induction false} CountMono(lens: seq<nat>, m: nat, n: nat, len: nat)
    requires m <= n <= |lens|
    ensures CountIn(lens, m, len) <= CountIn(lens, n, len)
    decreases n
  {
    if m < n { CountMono(lens, m, n - 1, len); }
  }

  /** The code of a symbol fits its length and lies among the codes of it. */
  lemma CodeFits(lens: seq<nat>, s: nat)
    requires Coded(lens, s)
    ensures FirstCode(lens, lens[s]) <= Code(lens, s) < FirstCode(lens, lens[s]) + Count(lens, lens[s])
    ensures NotOverSubscribed(lens) ==> Code(lens, s) < Pow2(lens[s])
  {
    CountMono(lens, s + 1, |lens|, lens[s]);
    if NotOverSubscribed(lens) { LengthFits(lens, lens[s]); }
  }

  lemma {:induction false} LongerAbove(lens: seq<nat>, m: nat, n: nat)
    requires 0 < m < n
    ensures FirstCode(lens, n) >= Shl(FirstCode(lens, m) + Count(lens, m), n - m)
    decreases n
  {
    var top := FirstCode(lens, m) + Count(lens, m);
    if m + 1 == n {
      assert Shl(top, 1) == 2 * Shl(top, 0);
    } else {
      LongerAbove(lens, m, n - 1);
    }
  }

  /** No code is a prefix of another one. */
  lemma PrefixFree(lens: seq<nat>, s: nat, t: nat)
    requires Coded(lens, s) && Coded(lens, t) && s != t && lens[s] <= lens[t]
    ensures Shr(Code(lens, t), lens[t] - lens[s]) != Code(lens, s)
  {
    var k := lens[t] - lens[s];
    if k == 0 {
      if s < t {
        CountMono(lens, s + 1, t, lens[s]);
      } else {
        CountMono(lens, t + 1, s, lens[s]);
      }
    } else {
      var top := FirstCode(lens, lens[s]) + Count(lens, lens[s]);
      CodeFits(lens, s);
      LongerAbove(lens, lens[s], lens[t]);
      ShrMono(Shl(top, k), Code(lens, t), k);
      ShrShl(top, k);
    }
  }

  /** At most one symbol's code starts any window. */
  lemma MatchUnique(lens: seq<nat>, window: nat, s: nat, t: nat)
    requires Match(lens, window, s) && Match(lens, window, t)
    ensures s == t
  {
    if s != t {
      if lens[s] <= lens[t] {
        PrefixFree(lens, s, t);
        ReversePrefix(window, lens[s], lens[t]);
      } else {
        PrefixFree(lens, t, s);
        ReversePrefix(window, lens[t], lens[s]);
      }
      assert false;
    }
  }

  /** Sending the code of `s` most significant bit first, followed by anything,
      gives a window that decodes to `s` and to no other symbol. */
  lemma EncodeThenMatch(lens: seq<nat>, s: nat, rest: nat)
    requires NotOverSubscribed(lens) && Coded(lens, s)
    ensures Match(lens, Reverse(Code(lens, s), lens[s]) + Shl(rest, lens[s]), s)
  {
    var n := lens[s];
    var sent := Reverse(Code(lens, s), n);
    var window := sent + Shl(rest, n);
    CodeFits(lens, s);
    LowOfSum(sent, rest, n);
    ReverseLow(window, n, n);
    ReverseTwice(Code(lens, s), n);
    LowSmall(Code(lens, s), n);
  }

  lemma {:induction false} LowOfSum(x: nat, y: nat, k: nat)
    requires x < Pow2(k)
    ensures Low(x + Shl(y, k), k) == x
  {
    if k > 0 {
      LowOfSum(x / 2, y, k - 1);
      assert (x + 2 * Shl(y, k - 1)) / 2 == x / 2 + Shl(y, k - 1);
    }
  }

  // --- codes in a stream ---

  /** The stream bits at `pos` start with the code of `s`, and it is all there. */
  ghost predicate CodeAt(lens: seq<nat>, data: seq<Byte>, pos: nat, s: nat) {
    && Coded(lens, s)
    && pos + lens[s] <= 8 * |data|
    && forall k {:trigger Open(Decode, k)} | Open(Decode, k) :: TakeMsb(data, pos, lens[s]) == Code(lens, s)
  }

  lemma CodeAtIsMatch(lens: seq<nat>, data: seq<Byte>, pos: nat, s: nat)
    requires Coded(lens, s)
    ensures Match(lens, Take(data, pos, MAX_BITS), s) <==> TakeMsb(data, pos, lens[s]) == Code(lens, s)
  {
    ReverseTake(data, pos, lens[s], MAX_BITS);
  }

  lemma CodeAtUnique(lens: seq<nat>, data: seq<Byte>, pos: nat, s: nat, t: nat)
    requires CodeAt(lens, data, pos, s) && CodeAt(lens, data, pos, t)
    ensures s == t
  {
    assert Open(Decode, 0);
    CodeAtIsMatch(lens, data, pos, s);
    CodeAtIsMatch(lens, data, pos, t);
    MatchUnique(lens, Take(data, pos, MAX_BITS), s, t);
  }
}
