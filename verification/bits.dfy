/** A compressed stream as a plain sequence of bits with a position
    (RFC 1951, section 3.1.1): the bits of the first byte, least significant
    first, then those of the next; every bit past the end reads as zero. */
module Bits {
  import opened Words

  function BitAt(data: seq<Byte>, pos: nat): (b: nat)
    ensures b < 2
  {
    if pos / 8 < |data| then WordBit(data[pos / 8], pos % 8) else 0
  }

  lemma BitOfByte(data: seq<Byte>, k: nat, i: nat)
    requires k < |data| && i < 8
    ensures BitAt(data, 8 * k + i) == WordBit(data[k], i)
  {
  }

  lemma BitPastEnd(data: seq<Byte>, pos: nat)
    requires pos >= 8 * |data|
    ensures BitAt(data, pos) == 0
  {
  }

  /** The `n` bits at `pos` as a number, first bit least significant. */
  function Take(data: seq<Byte>, pos: nat, n: nat): nat
    decreases n, pos
  {
    if n == 0 then 0 else BitAt(data, pos) + 2 * Take(data, pos + 1, n - 1)
  }

  /** The `n` bits at `pos` as a number, first bit most significant: the order
      in which Huffman codes are packed. */
  function TakeMsb(data: seq<Byte>, pos: nat, n: nat): nat
  {
    if n == 0 then 0 else 2 * TakeMsb(data, pos, n - 1) + BitAt(data, pos + n - 1)
  }

  lemma {:induction false} TakeBound(data: seq<Byte>, pos: nat, n: nat)
    ensures Take(data, pos, n) < Pow2(n)
    decreases n
  {
    if n > 0 { TakeBound(data, pos + 1, n - 1); }
  }

  lemma {:induction false} TakeMsbBound(data: seq<Byte>, pos: nat, n: nat)
    ensures TakeMsb(data, pos, n) < Pow2(n)
  {
    if n > 0 { TakeMsbBound(data, pos, n - 1); }
  }

  lemma {:induction false} TakeSplit(data: seq<Byte>, pos: nat, m: nat, n: nat)
    ensures Take(data, pos, m + n) == Take(data, pos, m) + Shl(Take(data, pos + m, n), m)
    decreases m
  {
    if m > 0 { TakeSplit(data, pos + 1, m - 1, n); }
  }

  /** The low part and the rest of a buffer that holds the next `n` bits. */
  lemma {:induction false} TakeLow(data: seq<Byte>, pos: nat, m: nat, n: nat)
    requires m <= n
    ensures Low(Take(data, pos, n), m) == Take(data, pos, m)
    ensures Shr(Take(data, pos, n), m) == Take(data, pos + m, n - m)
    decreases m
  {
    if m > 0 {
      var t := Take(data, pos, n);
      assert t % 2 == BitAt(data, pos) && t / 2 == Take(data, pos + 1, n - 1);
      TakeLow(data, pos + 1, m - 1, n - 1);
    }
  }

  lemma {:induction false} TakePastEnd(data: seq<Byte>, pos: nat, n: nat)
    requires pos >= 8 * |data|
    ensures Take(data, pos, n) == 0
    decreases n
  {
    if n > 0 {
      BitPastEnd(data, pos);
      TakePastEnd(data, pos + 1, n - 1);
    }
  }

  /** Eight bits from a byte boundary are that byte. */
  lemma TakeByte(data: seq<Byte>, k: nat)
    requires k < |data|
    ensures Take(data, 8 * k, 8) == data[k]
  {
    TakeInByte(data, k, 0);
  }

  lemma {:induction false} TakeInByte(data: seq<Byte>, k: nat, i: nat)
    requires k < |data| && i <= 8
    ensures Take(data, 8 * k + i, 8 - i) == Shr(data[k], i)
    decreases 8 - i
  {
    if i == 8 {
      assert Pow2(8) == 256;
      ShrSmall(data[k], 8);
    } else {
      TakeInByte(data, k, i + 1);
      BitOfByte(data, k, i);
      ShrStep(data[k], i);
    }
  }

  lemma {:induction false} WordBitTake(data: seq<Byte>, pos: nat, n: nat, i: nat)
    requires i < n
    ensures WordBit(Take(data, pos, n), i) == BitAt(data, pos + i)
    decreases i
  {
    var rest := Take(data, pos + 1, n - 1);
    assert Take(data, pos, n) % 2 == BitAt(data, pos) && Take(data, pos, n) / 2 == rest;
    if i > 0 { WordBitTake(data, pos + 1, n - 1, i - 1); }
  }

  /** Reversing a window gives the same bits read most significant first. */
  lemma {:induction false} ReverseTake(data: seq<Byte>, pos: nat, n: nat, window: nat)
    requires n <= window
    ensures Reverse(Take(data, pos, window), n) == TakeMsb(data, pos, n)
    decreases n
  {
    if n > 0 {
      ReverseTake(data, pos, n - 1, window);
      WordBitTake(data, pos, window, n - 1);
    }
  }
}
