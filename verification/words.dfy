/** Machine words as natural numbers.  Every operator works on the binary digits,
    one digit at a time, so that each shift, mask and OR of the model is exact. */
module Words {

  type Byte = x: int | 0 <= x < 256

  function Pow2(n: nat): (r: nat)
    ensures r > 0
  {
    if n == 0 then 1 else 2 * Pow2(n - 1)
  }

  /** `x << k`, before any truncation. */
  function Shl(x: nat, k: nat): nat {
    if k == 0 then x else 2 * Shl(x, k - 1)
  }

  /** `x >> k`. */
  function Shr(x: nat, k: nat): nat {
    if k == 0 then x else Shr(x / 2, k - 1)
  }

  /** The low `k` bits of `x`: truncation to a `k`-bit word. */
  function Low(x: nat, k: nat): (r: nat)
    ensures r < Pow2(k) && r <= x
  {
    if k == 0 then 0 else x % 2 + 2 * Low(x / 2, k - 1)
  }

  function Or(x: nat, y: nat): nat
    decreases x + y
  {
    if x == 0 && y == 0 then 0
    else (if x % 2 == 1 || y % 2 == 1 then 1 else 0) + 2 * Or(x / 2, y / 2)
  }

  function And(x: nat, y: nat): nat
    decreases x
  {
    if x == 0 then 0
    else (if x % 2 == 1 && y % 2 == 1 then 1 else 0) + 2 * And(x / 2, y / 2)
  }

  /** Bit `i` of a word. */
  function WordBit(w: nat, i: nat): (b: nat)
    ensures b < 2
  {
    Shr(w, i) % 2
  }

  lemma Pow2Values()
    ensures Pow2(0) == 1 && Pow2(1) == 2 && Pow2(2) == 4 && Pow2(3) == 8 && Pow2(4) == 16 && Pow2(5) == 32
    ensures Pow2(6) == 64 && Pow2(7) == 128 && Pow2(8) == 256 && Pow2(9) == 512 && Pow2(10) == 1024
    ensures Pow2(11) == 2048 && Pow2(12) == 4096 && Pow2(13) == 8192 && Pow2(15) == 32768
  {
  }

  lemma {:induction false} Pow2Mono(m: nat, n: nat)
    requires m <= n
    ensures Pow2(m) <= Pow2(n)
    decreases n
  {
    if m < n { Pow2Mono(m, n - 1); }
  }

  lemma {:induction false} LowSmall(x: nat, k: nat)
    requires x < Pow2(k)
    ensures Low(x, k) == x
  {
    if k > 0 { LowSmall(x / 2, k - 1); }
  }

  lemma {:induction false} ShlBound(x: nat, n: nat, k: nat)
    requires x < Pow2(n)
    ensures Shl(x, k) < Pow2(n + k)
  {
    if k > 0 { ShlBound(x, n, k - 1); }
  }

  lemma {:induction false} ShlZero(k: nat)
    ensures Shl(0, k) == 0
  {
    if k > 0 { ShlZero(k - 1); }
  }

  lemma {:induction false} ShlIs(x: nat, k: nat)
    ensures Shl(x, k) == x * Pow2(k)
    decreases k
  {
    if k > 0 { ShlIs(x, k - 1); }
  }

  lemma {:induction false} ShrStep(x: nat, k: nat)
    ensures Shr(x, k + 1) == Shr(x, k) / 2
  {
    if k > 0 { ShrStep(x / 2, k - 1); }
  }

  lemma {:induction false} ShrAdd(x: nat, m: nat, n: nat)
    ensures Shr(x, m + n) == Shr(Shr(x, m), n)
  {
    if m > 0 { ShrAdd(x / 2, m - 1, n); }
  }

  lemma {:induction false} ShrSmall(x: nat, k: nat)
    requires x < Pow2(k)
    ensures Shr(x, k) == 0
  {
    if k > 0 { ShrSmall(x / 2, k - 1); }
  }

  /** Two operands that share no binary digit: OR is addition. */
  lemma {:induction false} OrDisjoint(x: nat, y: nat, k: nat)
    requires x < Pow2(k)
    ensures Or(x, Shl(y, k)) == x + Shl(y, k)
  {
    if k == 0 {
      OrZero(y);
    } else {
      OrDisjoint(x / 2, y, k - 1);
    }
  }

  lemma {:induction false} OrZero(y: nat)
    ensures Or(0, y) == y
  {
    if y > 0 { OrZero(y / 2); }
  }

  /** The mask `(1 << k) - 1` keeps the low `k` bits. */
  lemma {:induction false} AndMask(x: nat, k: nat)
    ensures And(x, Pow2(k) - 1) == Low(x, k)
  {
    if k == 0 {
      AndZero(x);
    } else {
      AndMask(x / 2, k - 1);
      AndStep(x, Pow2(k - 1) - 1);
    }
  }

  lemma AndStep(x: nat, m: nat)
    ensures And(x, 2 * m + 1) == x % 2 + 2 * And(x / 2, m)
  {
    assert (2 * m + 1) / 2 == m;
  }

  lemma {:induction false} AndZero(x: nat)
    ensures And(x, 0) == 0
  {
    if x > 0 { AndZero(x / 2); }
  }

  lemma {:induction false} LowLow(x: nat, m: nat, n: nat)
    requires m <= n
    ensures Low(Low(x, n), m) == Low(x, m)
    decreases n
  {
    if m > 0 {
      var l := Low(x / 2, n - 1);
      assert Low(x, n) % 2 == x % 2 && Low(x, n) / 2 == l;
      LowLow(x / 2, m - 1, n - 1);
    }
  }

  lemma {:induction false} LowStride(x: nat, k: nat)
    ensures Low(x + Pow2(k), k) == Low(x, k)
  {
    if k > 0 {
      assert (x + 2 * Pow2(k - 1)) / 2 == x / 2 + Pow2(k - 1);
      LowStride(x / 2, k - 1);
    }
  }

  /** Numbers less than one stride apart with the same low bits are equal. */
  lemma {:induction false} LowUnique(x: nat, y: nat, k: nat)
    requires Low(x, k) == Low(y, k) && x <= y < x + Pow2(k)
    ensures x == y
  {
    if k > 0 {
      assert x % 2 == y % 2;
      LowUnique(x / 2, y / 2, k - 1);
    }
  }

  /** A word is its low bits below its high bits. */
  lemma {:induction false} LowHigh(x: nat, k: nat)
    ensures x == Low(x, k) + Shl(Shr(x, k), k)
  {
    if k > 0 { LowHigh(x / 2, k - 1); }
  }

  lemma {:induction false} LowBit(w: nat, n: nat, i: nat)
    requires i < n
    ensures WordBit(Low(w, n), i) == WordBit(w, i)
    decreases i
  {
    assert Low(w, n) % 2 == w % 2 && Low(w, n) / 2 == Low(w / 2, n - 1);
    if i > 0 { LowBit(w / 2, n - 1, i - 1); }
  }

  lemma {:induction false} SameBits(v: nat, w: nat, n: nat)
    requires v < Pow2(n) && w < Pow2(n)
    requires forall i | 0 <= i < n :: WordBit(v, i) == WordBit(w, i)
    ensures v == w
  {
    if n > 0 {
      assert WordBit(v, 0) == WordBit(w, 0);
      forall i | 0 <= i < n - 1 ensures WordBit(v / 2, i) == WordBit(w / 2, i) {
        assert WordBit(v, i + 1) == WordBit(w, i + 1);
      }
      SameBits(v / 2, w / 2, n - 1);
    }
  }

  // --- reversed words: Huffman codes are sent most significant bit first ---

  /** The low `n` bits of a word in reverse order. */
  function Reverse(w: nat, n: nat): (r: nat)
    ensures r < Pow2(n)
  {
    if n == 0 then 0 else 2 * Reverse(w, n - 1) + WordBit(w, n - 1)
  }

  /** Only the low bits matter. */
  lemma {:induction false} ReverseLow(w: nat, m: nat, n: nat)
    requires n <= m
    ensures Reverse(Low(w, m), n) == Reverse(w, n)
    decreases n
  {
    if n > 0 {
      ReverseLow(w, m, n - 1);
      LowBit(w, m, n - 1);
    }
  }

  lemma {:induction false} ReverseBit(w: nat, n: nat, i: nat)
    requires i < n
    ensures WordBit(Reverse(w, n), i) == WordBit(w, n - 1 - i)
    decreases n
  {
    var r := Reverse(w, n);
    assert r % 2 == WordBit(w, n - 1) && r / 2 == Reverse(w, n - 1);
    if i > 0 { ReverseBit(w, n - 1, i - 1); }
  }

  /** Reversing twice gives back the low `n` bits. */
  lemma ReverseTwice(w: nat, n: nat)
    ensures Reverse(Reverse(w, n), n) == Low(w, n)
  {
    var r := Reverse(w, n);
    forall i | 0 <= i < n ensures WordBit(Reverse(r, n), i) == WordBit(Low(w, n), i) {
      ReverseBit(r, n, i);
      ReverseBit(w, n, n - 1 - i);
      LowBit(w, n, i);
    }
    SameBits(Reverse(r, n), Low(w, n), n);
  }

  /** A shorter reading of the same bits is a prefix of a longer one. */
  lemma {:induction false} ReversePrefix(w: nat, m: nat, n: nat)
    requires m <= n
    ensures Shr(Reverse(w, n), n - m) == Reverse(w, m)
    decreases n
  {
    if m < n {
      var r := Reverse(w, n);
      assert r / 2 == Reverse(w, n - 1);
      ReversePrefix(w, m, n - 1);
    }
  }
}
